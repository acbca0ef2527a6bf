/**
 The three BSSGP messages that are decoded by a loop over information elements:
 PAGING-PS, UL-UNITDATA and DL-UNITDATA.  Specification level: the octets the
 encoders produce and the outcome of the decoding loops on any octets at all.
 */
module Pdus {
  import opened Octets
  import opened InformationElements

  datatype Option<+T> = None | Some(value: T)

  const PDU_DL_UNITDATA: octet := 0x00
  const PDU_UL_UNITDATA: octet := 0x01
  const PDU_PAGING_PS: octet := 0x06

  /** Lowest level of the network side's four quality-of-service levels. */
  const NETWORK_QOS_LEVEL_1: octet := 0

  datatype Pdu = DlUnitdata | UlUnitdata | PagingPs

  /** The identifiers that have a case in the element loop of each message. */
  predicate Handles(pdu: Pdu, iei: octet)
  {
    match pdu
    case DlUnitdata => iei in [IEI_TLLI, IEI_IMSI, IEI_MS_RADIO_ACCESS_CAP, IEI_DRX_PARAMS, IEI_ALIGNMENT_OCTETS,
                               IEI_LSA_INFORMATION, IEI_LLC_PDU]
    case UlUnitdata => iei in [IEI_CELL_ID, IEI_ALIGNMENT_OCTETS, IEI_LSA_ID_LIST, IEI_LLC_PDU]
    case PagingPs => iei in [IEI_IMSI, IEI_BVCI, IEI_LOCATION_AREA, IEI_ROUTING_AREA, IEI_BSS_AREA_IND, IEI_DRX_PARAMS,
                             IEI_QOS_PROFILE, IEI_TMSI]
  }

  // ----- the element loop -----

  /**
   How a loop ends: it runs out of message, returns FALSE on an identifier it
   has no case for, never ends, or reads outside the buffer.
   */
  datatype Outcome =
    | Accepted(ies: seq<Ie>, index: nat)
    | Rejected(ies: seq<Ie>)
    | Stuck(ies: seq<Ie>)
    | OutOfBuffer

  function Drop(s: seq<octet>, n: nat): seq<octet>
  {
    if n <= |s| then s[n..] else []
  }

  /**
   The loop from cursor `index` on, with `s` the buffer from there, `len` the
   loop bound and `ies` the elements decoded so far.  A refused element leaves
   the cursor where it is.
   */
  function Loop(pdu: Pdu, s: seq<octet>, index: nat, len: int, ies: seq<Ie>): Outcome
    decreases len - index
  {
    if index >= len then Accepted(ies, index)
    else if |s| == 0 then OutOfBuffer
    else if !Handles(pdu, s[0]) then Rejected(ies)
    else match ReadIe(s)
      case Overrun => OutOfBuffer
      case Refused => Stuck(ies)
      case Got(ie, used) => Loop(pdu, Drop(s, used), index + used, len, ies + [ie])
  }

  /** One iteration as written, without any test for progress. */
  datatype LoopState = Running(s: seq<octet>, index: nat, ies: seq<Ie>) | Finished(outcome: Outcome)

  function Iteration(pdu: Pdu, len: int, st: LoopState): LoopState
  {
    if st.Finished? then st
    else if st.index >= len then Finished(Accepted(st.ies, st.index))
    else if |st.s| == 0 then Finished(OutOfBuffer)
    else if !Handles(pdu, st.s[0]) then Finished(Rejected(st.ies))
    else match ReadIe(st.s)
      case Overrun => Finished(OutOfBuffer)
      case Refused => st
      case Got(ie, used) => Running(Drop(st.s, used), st.index + used, st.ies + [ie])
  }

  function Iterations(pdu: Pdu, len: int, st: LoopState, k: nat): LoopState
    decreases k
  {
    if k == 0 then st else Iterations(pdu, len, Iteration(pdu, len, st), k - 1)
  }

  // ----- sequences of encoded elements -----

  predicate AllEncodable(ies: seq<Ie>)
  {
    forall i | 0 <= i < |ies| :: Encodable(ies[i])
  }

  function Concat(ies: seq<Ie>): (r: seq<octet>)
    requires AllEncodable(ies)
    ensures |r| >= 2 * |ies|
  {
    if ies == [] then [] else Encoding(ies[0]) + Concat(ies[1..])
  }

  /** An optional element is written behind the others if it is present. */
  function With(ies: seq<Ie>, o: Option<Ie>): (r: seq<Ie>)
    ensures AllEncodable(ies) && (o.Some? ==> Encodable(o.value)) ==> AllEncodable(r)
    ensures ies <= r
  {
    if o.None? then ies else ies + [o.value]
  }

  // ----- PAGING-PS -----

  datatype Paging = Paging(imsi: Option<seq<octet>>, drx: Option<Drx>, bvci: Option<u16>, la: Option<LocationArea>,
                           ra: Option<RoutingArea>, bssArea: bool, qos: Option<QosProfile>, tmsi: Option<u32>)

  const EMPTY_PAGING := Paging(None, None, None, None, None, false, None, None)

  /** The encoder returns FALSE unless both mandatory elements are present. */
  predicate PagingComplete(p: Paging)
  {
    p.imsi.Some? && p.qos.Some?
  }

  function DrxSlot(o: Option<Drx>): Option<Ie> { if o.Some? then Some(IeDrx(o.value)) else None }
  function BvciSlot(o: Option<u16>): Option<Ie> { if o.Some? then Some(IeBvci(o.value)) else None }
  function LocationAreaSlot(o: Option<LocationArea>): Option<Ie>
  {
    if o.Some? then Some(IeLocationArea(o.value)) else None
  }
  function RoutingAreaSlot(o: Option<RoutingArea>): Option<Ie>
  {
    if o.Some? then Some(IeRoutingArea(o.value)) else None
  }
  function BssAreaSlot(present: bool, spare: octet): Option<Ie> { if present then Some(IeBssArea([spare])) else None }
  function TmsiSlot(o: Option<u32>): Option<Ie> { if o.Some? then Some(IeTmsi(o.value)) else None }
  function RaCapSlot(o: Option<seq<RaCapability>>): Option<Ie> { if o.Some? then Some(IeRaCap(o.value)) else None }
  function PrioritySlot(o: Option<octet>): Option<Ie> { if o.Some? then Some(IePriority(o.value)) else None }
  function ImsiSlot(o: Option<seq<octet>>): Option<Ie> { if o.Some? then Some(IeImsi(o.value)) else None }
  function TlliSlot(o: Option<u32>): Option<Ie> { if o.Some? then Some(IeTlli(o.value)) else None }

  /** The elements in the order in which the encoder writes them. */
  function PagingElements(p: Paging, spare: octet): (r: seq<Ie>)
    requires PagingComplete(p) && |p.imsi.value| >= 1
    ensures AllEncodable(r)
  {
    var e1 := With([IeImsi(p.imsi.value)], DrxSlot(p.drx));
    var e2 := With(e1, BvciSlot(p.bvci));
    var e3 := With(e2, LocationAreaSlot(p.la));
    var e4 := With(e3, RoutingAreaSlot(p.ra));
    var e5 := With(e4, BssAreaSlot(p.bssArea, spare));
    var e6 := With(e5, Some(IeQosProfile(p.qos.value)));
    With(e6, TmsiSlot(p.tmsi))
  }

  function PagingOctets(p: Paging, spare: octet): (r: seq<octet>)
    requires PagingComplete(p) && |p.imsi.value| >= 1
  {
    [PDU_PAGING_PS] + Concat(PagingElements(p, spare))
  }

  /** A second DRX element keeps an earlier split-on-CCCH flag: the decoder only ever sets it. */
  function MergeDrx(before: Option<Drx>, d: Drx): Drx
  {
    d.(splitOnCcch := d.splitOnCcch || (before.Some? && before.value.splitOnCcch))
  }

  function PagingApply(p: Paging, ie: Ie): Paging
  {
    match ie
    case IeImsi(d) => p.(imsi := Some(d))
    case IeDrx(d) => p.(drx := Some(MergeDrx(p.drx, d)))
    case IeBvci(b) => p.(bvci := Some(b))
    case IeLocationArea(l) => p.(la := Some(l))
    case IeRoutingArea(r) => p.(ra := Some(r))
    case IeBssArea(_) => p.(bssArea := true)
    case IeQosProfile(q) => p.(qos := Some(q))
    case IeTmsi(t) => p.(tmsi := Some(t))
    case _ => p
  }

  /** The message after the elements of `ies` were decoded in that order. */
  function PagingOf(ies: seq<Ie>): Paging
  {
    if ies == [] then EMPTY_PAGING else PagingApply(PagingOf(ies[..|ies| - 1]), ies[|ies| - 1])
  }

  function DecodePaging(m: seq<octet>, len: int): Outcome
  {
    if |m| == 0 then OutOfBuffer
    else if m[0] != PDU_PAGING_PS then Rejected([])
    else Loop(PagingPs, m[1..], 1, len, [])
  }

  // ----- UL-UNITDATA -----

  datatype Ul = Ul(tlli: Option<u32>, qos: Option<QosProfile>, cell: Option<CellIdentifier>, lsa: Option<LsaIdList>,
                   pdu: seq<octet>)

  predicate UlComplete(u: Ul)
  {
    u.tlli.Some? && u.qos.Some? && u.cell.Some?
  }

  /** Alignment octets are written unless the cursor is already a multiple of four. */
  function AlignmentCount(index: nat): nat
  {
    if index % 4 == 0 then 0 else 4 - index % 4
  }

  function AlignmentSlot(wanted: bool, index: nat, spare: seq<octet>): Option<Ie>
    requires |spare| == AlignmentCount(index)
  {
    if wanted && index % 4 != 0 then Some(IeAlignment(spare)) else None
  }

  /** The cursor after the two mandatory V-format elements and the cell identifier. */
  const UL_CURSOR: nat := 18

  function UlElements(u: Ul, spare: seq<octet>): (r: seq<Ie>)
    requires UlComplete(u) && |spare| == AlignmentCount(UL_CURSOR)
    ensures AllEncodable(r)
  {
    var e1 := With([IeCellId(u.cell.value)], AlignmentSlot(u.lsa.Some?, UL_CURSOR, spare));
    var e2 := With(e1, if u.lsa.Some? then Some(IeLsaIdList(u.lsa.value)) else None);
    With(e2, Some(IeLlcPdu(u.pdu)))
  }

  function UlHeader(u: Ul): (r: seq<octet>)
    requires UlComplete(u)
    ensures |r| == 8
  {
    [PDU_UL_UNITDATA] + Be32(u.tlli.value) + QosProfileOctets(u.qos.value)
  }

  function UlOctets(u: Ul, spare: seq<octet>): seq<octet>
    requires UlComplete(u) && |spare| == AlignmentCount(UL_CURSOR)
  {
    UlHeader(u) + Concat(UlElements(u, spare))
  }

  /** What is handed to the layer above for each LLC PDU; no cell identifier may have been seen yet. */
  datatype UlIndication = UlIndication(tlli: u32, cell: Option<CellIdentifier>, pdu: seq<octet>)
  datatype UlState = UlState(tlli: u32, qos: QosProfile, cell: Option<CellIdentifier>, lsa: Option<LsaIdList>,
                             sent: seq<UlIndication>)

  function UlApply(st: UlState, ie: Ie): UlState
  {
    match ie
    case IeCellId(c) => st.(cell := Some(c))
    case IeLsaIdList(l) => st.(lsa := Some(l))
    case IeLlcPdu(pdu) => st.(sent := st.sent + [UlIndication(st.tlli, st.cell, pdu)])
    case _ => st
  }

  function UlOf(tlli: u32, qos: QosProfile, ies: seq<Ie>): UlState
  {
    if ies == [] then UlState(tlli, qos, None, None, [])
    else UlApply(UlOf(tlli, qos, ies[..|ies| - 1]), ies[|ies| - 1])
  }

  /** The V-format elements are read before the loop, without any check. */
  function DecodeUl(m: seq<octet>, len: int): Outcome
  {
    if |m| == 0 then OutOfBuffer
    else if m[0] != PDU_UL_UNITDATA then Rejected([])
    else if |m| < 8 then OutOfBuffer
    else Loop(UlUnitdata, m[8..], 8, len, [])
  }

  function UlDecoded(m: seq<octet>, ies: seq<Ie>): UlState
    requires |m| >= 8
  {
    UlOf(FromBe32(m[1..5]), QosProfileFrom(m[5..8]), ies)
  }

  // ----- DL-UNITDATA -----

  datatype LsaInformation = LsaInformation(lsaOnly: octet, entries: seq<LsaInfoEntry>)
  datatype Dl = Dl(tlli: Option<u32>, qos: Option<QosProfile>, params: Option<QosParams>, lifetime: Option<u16>,
                   raCap: Option<seq<RaCapability>>, priority: Option<octet>, drx: Option<Drx>,
                   imsi: Option<seq<octet>>, tlliOld: Option<u32>, lsaInfo: Option<LsaInformation>, pdu: seq<octet>)

  predicate DlComplete(d: Dl)
  {
    d.tlli.Some? && d.qos.Some? && d.params.Some? && d.lifetime.Some?
  }

  predicate DlEncodable(d: Dl)
  {
    d.imsi.Some? ==> |d.imsi.value| >= 1
  }

  /** The optional elements up to the DRX parameters. */
  function DlFirstOptions(d: Dl): (r: seq<Ie>)
    ensures AllEncodable(r)
  {
    With(With(With([], RaCapSlot(d.raCap)), PrioritySlot(d.priority)), DrxSlot(d.drx))
  }

  /** The optional elements in front of the LSA information. */
  function DlOptions(d: Dl): (r: seq<Ie>)
    requires DlEncodable(d)
    ensures AllEncodable(r)
  {
    With(With(DlFirstOptions(d), ImsiSlot(d.imsi)), TlliSlot(d.tlliOld))
  }

  /** The cursor after the mandatory elements: 1 + 4 + 3 + 7 + 4 octets. */
  const DL_CURSOR: nat := 19

  function DlLsaCursor(d: Dl): nat
    requires DlEncodable(d)
  {
    DL_CURSOR + |Concat(DlOptions(d))|
  }

  function DlElements(d: Dl, spare: seq<octet>): (r: seq<Ie>)
    requires DlEncodable(d) && |spare| == AlignmentCount(DlLsaCursor(d))
    ensures AllEncodable(r)
  {
    var e1 := With(DlOptions(d), AlignmentSlot(d.lsaInfo.Some?, DlLsaCursor(d), spare));
    var info := if d.lsaInfo.Some? then Some(IeLsaInfo(d.lsaInfo.value.lsaOnly, d.lsaInfo.value.entries)) else None;
    var e2 := With(e1, info);
    With(e2, Some(IeLlcPdu(d.pdu)))
  }

  function DlHeader(d: Dl): (r: seq<octet>)
    requires DlComplete(d)
    ensures |r| == DL_CURSOR
  {
    [PDU_DL_UNITDATA] + Be32(d.tlli.value) + QosProfileOctets(d.qos.value)
    + Encoding(IeQosParams(d.params.value)) + Encoding(IePduLifetime(d.lifetime.value))
  }

  function DlOctets(d: Dl, spare: seq<octet>): seq<octet>
    requires DlComplete(d) && DlEncodable(d) && |spare| == AlignmentCount(DlLsaCursor(d))
  {
    DlHeader(d) + Concat(DlElements(d, spare))
  }

  /** Every LLC PDU puts a copy of the record, as decoded so far, into the queue of its subscriber. */
  datatype DlState = DlState(record: Dl, queued: seq<Dl>)

  const EMPTY_DL := Dl(None, None, None, None, None, None, None, None, None, None, [])

  function DlApply(st: DlState, ie: Ie): DlState
  {
    match ie
    case IeTlli(t) => st.(record := st.record.(tlliOld := Some(t)))
    case IeImsi(i) => st.(record := st.record.(imsi := Some(i)))
    case IeRaCap(c) => st.(record := st.record.(raCap := Some(c)))
    case IeDrx(x) => st.(record := st.record.(drx := Some(MergeDrx(st.record.drx, x))))
    case IeLlcPdu(pdu) =>
      var record := st.record.(pdu := pdu);
      DlState(record, st.queued + [record])
    case _ => st
  }

  function DlOf(start: Dl, ies: seq<Ie>): DlState
  {
    if ies == [] then DlState(start, [])
    else DlApply(DlOf(start, ies[..|ies| - 1]), ies[|ies| - 1])
  }

  /** The record after the fixed part and the cursor there; a refused element is passed over. */
  function ReadDlFixed(m: seq<octet>): (r: Parse<Dl>)
    requires |m| > 0
    ensures r.Got? ==> 8 <= r.used <= |m|
  {
    if |m| < 8 then Overrun
    else
      var d0 := EMPTY_DL.(tlli := Some(FromBe32(m[1..5])), qos := Some(QosProfileFrom(m[5..8])));
      match ReadQosParams(m[8..])
      case Overrun => Overrun
      case Refused => ReadDlLifetime(m, d0, 8)
      case Got(q, used) => ReadDlLifetime(m, d0.(params := Some(q)), 8 + used)
  }

  function ReadDlLifetime(m: seq<octet>, d: Dl, index: nat): (r: Parse<Dl>)
    requires 8 <= index <= |m|
    ensures r.Got? ==> 8 <= r.used <= |m|
  {
    match ReadPduLifetime(m[index..])
    case Overrun => Overrun
    case Refused => Got(d, index)
    case Got(t, used) => Got(d.(lifetime := Some(t)), index + used)
  }

  function DecodeDl(m: seq<octet>, len: int): Outcome
  {
    if |m| == 0 then OutOfBuffer
    else if m[0] != PDU_DL_UNITDATA then Rejected([])
    else match ReadDlFixed(m)
      case Got(d, index) => Loop(DlUnitdata, m[index..], index, len, [])
      case _ => OutOfBuffer
  }

  function DlDecoded(m: seq<octet>, ies: seq<Ie>): DlState
    requires |m| > 0 && ReadDlFixed(m).Got?
  {
    DlOf(ReadDlFixed(m).value, ies)
  }
}
