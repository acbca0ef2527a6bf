/**
 The information elements of the BSSGP codec (GSM 08.18 section 11.3) as values,
 the octets the encoders write for each of them (`Encoding`), and what the
 decoders make of the octets at their cursor (`Read...`).
 */
module InformationElements {
  import opened Octets

  // ----- element identifiers (the rest of the enumeration is not used here) -----

  const IEI_ALIGNMENT_OCTETS: octet := 0x00
  const IEI_BSS_AREA_IND: octet := 0x02
  const IEI_BVCI: octet := 0x04
  const IEI_CELL_ID: octet := 0x08
  const IEI_DRX_PARAMS: octet := 0x0a
  const IEI_IMSI: octet := 0x0d
  const IEI_LLC_PDU: octet := 0x0e
  const IEI_LOCATION_AREA: octet := 0x10
  const IEI_MS_RADIO_ACCESS_CAP: octet := 0x13
  const IEI_PDU_LIFETIME: octet := 0x16
  const IEI_PRIORITY: octet := 0x17
  const IEI_QOS_PROFILE: octet := 0x18
  const IEI_ROUTING_AREA: octet := 0x1b
  const IEI_TLLI: octet := 0x1f
  const IEI_TMSI: octet := 0x20
  const IEI_LSA_ID_LIST: octet := 0x26
  const IEI_LSA_INFORMATION: octet := 0x27
  const IEI_QOS_PARAMS: octet := 0x28

  /** Type of identity "IMSI" (GSM 04.08 section 10.5.1.4). */
  const MOBILE_ID_IMSI: octet := 1

  // ----- element contents -----

  datatype Plmn = Plmn(mcc0: octet, mcc1: octet, mcc2: octet, mnc0: octet, mnc1: octet, mnc2: octet)
  datatype LocationArea = LocationArea(plmn: Plmn, lac: u16)
  datatype RoutingArea = RoutingArea(plmn: Plmn, lac: u16, rac: octet)
  datatype CellIdentifier = CellIdentifier(area: RoutingArea, cell: u16)
  datatype Drx = Drx(splitPgCycle: octet, splitOnCcch: bool, nonDrxTimer: octet)
  datatype QosProfile = QosProfile(rate0: octet, rate1: octet, precedence: octet, aBit: bool, tBit: bool, crBit: bool)
  datatype QosParams = QosParams(delay: octet, reliability: octet, precedence: octet, peak: octet, mean: octet)
  datatype LsaIdList = LsaIdList(ep: octet, ids: seq<u32>)
  datatype LsaInfoEntry = LsaInfoEntry(act: octet, pref: octet, priority: octet, id: u32)

  /** The seven A5 algorithm bits and the four service bits of one capability. */
  datatype RaFlags = RaFlags(a51: bool, a52: bool, a53: bool, a54: bool, a55: bool, a56: bool, a57: bool,
                             es: bool, ps: bool, vgcs: bool, vbs: bool)
  datatype Multislot = Multislot(hscsdClass: octet, hscsdPresent: octet,
                                 gprsClass: octet, gprsPresent: octet, gprsDynamic: octet, smsPresent: octet,
                                 smValue: octet, smSwitch: octet)
  datatype RaCapability = RaCapability(accessTech: octet, rfPower: octet, flags: RaFlags, slots: Multislot)

  /**
   An element as written or as read.  `spare` stands for octets that the encoder
   skips (whatever the buffer held) and the decoder skips as well.
   */
  datatype Ie =
    | IeAlignment(spare: seq<octet>)
    | IeBssArea(spare: seq<octet>)
    | IeBvci(bvci: u16)
    | IeCellId(cell: CellIdentifier)
    | IeDrx(drx: Drx)
    | IeImsi(digits: seq<octet>)
    | IeLlcPdu(pdu: seq<octet>)
    | IeLocationArea(la: LocationArea)
    | IeLsaIdList(lsa: LsaIdList)
    | IeLsaInfo(lsaOnly: octet, entries: seq<LsaInfoEntry>)
    | IePduLifetime(lifetime: u16)
    | IePriority(priority: octet)
    | IeQosParams(params: QosParams)
    | IeQosProfile(qos: QosProfile)
    | IeRaCap(caps: seq<RaCapability>)
    | IeRoutingArea(ra: RoutingArea)
    | IeTlli(tlli: u32)
    | IeTmsi(tmsi: u32)

  // ----- what the encoders write -----

  function Tlv(iei: octet, length: nat, body: seq<octet>): (r: seq<octet>)
    ensures |r| == 1 + |LengthOctets(length)| + |body| && r[0] == iei
  {
    [iei] + LengthOctets(length) + body
  }

  function PlmnOctets(p: Plmn): (r: seq<octet>)
    ensures |r| == 3
  {
    [Nibbles(p.mcc1, p.mcc0), Nibbles(p.mnc2, p.mcc2), Nibbles(p.mnc1, p.mnc0)]
  }

  function RoutingAreaOctets(ra: RoutingArea): (r: seq<octet>)
    ensures |r| == 6
  {
    PlmnOctets(ra.plmn) + Be16(ra.lac) + [ra.rac]
  }

  function DrxOctets(d: Drx): (r: seq<octet>)
    ensures |r| == 2
  {
    [d.splitPgCycle, if d.splitOnCcch then SetBit(d.nonDrxTimer, 128) else d.nonDrxTimer]
  }

  function QosOctet(q: QosProfile): octet
  {
    var b0 := q.precedence;
    var b1 := if q.aBit then SetBit(b0, 8) else b0;
    var b2 := if q.tBit then SetBit(b1, 16) else b1;
    if q.crBit then SetBit(b2, 32) else b2
  }

  /** The value part shared by the V and TLV formats. */
  function QosProfileOctets(q: QosProfile): (r: seq<octet>)
    ensures |r| == 3
  {
    [q.rate0, q.rate1, QosOctet(q)]
  }

  function QosParamsOctets(q: QosParams): (r: seq<octet>)
    ensures |r| == 5
  {
    [q.delay, q.reliability, q.precedence, q.peak, q.mean]
  }

  /** Digits two to an octet, low nibble first; a last one alone. */
  function DigitPairs(d: seq<octet>): (r: seq<octet>)
    ensures |r| == (|d| + 1) / 2
  {
    if |d| == 0 then []
    else if |d| == 1 then [d[0]]
    else [Nibbles(d[1], d[0])] + DigitPairs(d[2..])
  }

  /** First digit, odd/even indication and type of identity. */
  function FirstImsiOctet(d: seq<octet>): octet
    requires |d| >= 1
  {
    Nibbles(d[0], if |d| % 2 == 1 then 8 + MOBILE_ID_IMSI else MOBILE_ID_IMSI)
  }

  function ImsiOctets(d: seq<octet>): (r: seq<octet>)
    requires |d| >= 1
    ensures |r| == |d| / 2 + 1
  {
    [FirstImsiOctet(d)] + DigitPairs(d[1..])
  }

  function LsaIdOctets(ids: seq<u32>): (r: seq<octet>)
    ensures |r| == 3 * |ids|
  {
    if ids == [] then [] else Be24(ids[0]) + LsaIdOctets(ids[1..])
  }

  function LsaInfoEntryOctets(e: LsaInfoEntry): (r: seq<octet>)
    ensures |r| == 4
  {
    [OrOctet(OrOctet((e.act * 32) % 256, (e.pref * 16) % 256), e.priority)] + Be24(e.id)
  }

  function LsaInfoOctets(es: seq<LsaInfoEntry>): (r: seq<octet>)
    ensures |r| == 4 * |es|
  {
    if es == [] then [] else LsaInfoEntryOctets(es[0]) + LsaInfoOctets(es[1..])
  }

  function OrOctet(x: octet, y: octet): octet
  {
    assert Pow2(8) == 256;
    OrBound(x, y, 8);
    Or(x, y)
  }

  function Bit(b: bool, mask: nat): nat { if b then mask else 0 }

  function A5Octet(f: RaFlags): octet
  {
    Bit(f.a51, 1) + Bit(f.a52, 2) + Bit(f.a53, 4) + Bit(f.a54, 8) + Bit(f.a55, 16) + Bit(f.a56, 32) + Bit(f.a57, 64)
  }

  function ServiceOctet(f: RaFlags): octet
  {
    Bit(f.es, 16) + Bit(f.ps, 8) + Bit(f.vgcs, 4) + Bit(f.vbs, 2)
  }

  function HscsdOctet(m: Multislot): octet
  {
    OrOctet((m.hscsdPresent * 128) % 256, m.hscsdClass)
  }

  function GprsOctet(m: Multislot): octet
  {
    OrOctet(OrOctet(OrOctet((m.gprsPresent * 128) % 256, (m.gprsClass * 4) % 256), (m.gprsDynamic * 2) % 256),
            m.smsPresent)
  }

  function RaCapabilityOctets(c: RaCapability): (r: seq<octet>)
    ensures |r| == 6
  {
    [Nibbles(c.accessTech, c.rfPower), A5Octet(c.flags), ServiceOctet(c.flags),
     HscsdOctet(c.slots), GprsOctet(c.slots), Nibbles(c.slots.smSwitch, c.slots.smValue)]
  }

  function RaCapOctets(cs: seq<RaCapability>): (r: seq<octet>)
    ensures |r| == 6 * |cs|
  {
    if cs == [] then [] else RaCapabilityOctets(cs[0]) + RaCapOctets(cs[1..])
  }

  /** The identifier that opens an element, which also tells the elements' kinds apart. */
  function IeiOf(ie: Ie): octet
  {
    match ie
    case IeAlignment(_) => IEI_ALIGNMENT_OCTETS
    case IeBssArea(_) => IEI_BSS_AREA_IND
    case IeBvci(_) => IEI_BVCI
    case IeCellId(_) => IEI_CELL_ID
    case IeDrx(_) => IEI_DRX_PARAMS
    case IeImsi(_) => IEI_IMSI
    case IeLlcPdu(_) => IEI_LLC_PDU
    case IeLocationArea(_) => IEI_LOCATION_AREA
    case IeLsaIdList(_) => IEI_LSA_ID_LIST
    case IeLsaInfo(_, _) => IEI_LSA_INFORMATION
    case IePduLifetime(_) => IEI_PDU_LIFETIME
    case IePriority(_) => IEI_PRIORITY
    case IeQosParams(_) => IEI_QOS_PARAMS
    case IeQosProfile(_) => IEI_QOS_PROFILE
    case IeRaCap(_) => IEI_MS_RADIO_ACCESS_CAP
    case IeRoutingArea(_) => IEI_ROUTING_AREA
    case IeTlli(_) => IEI_TLLI
    case IeTmsi(_) => IEI_TMSI
  }

  /** An IMSI is encoded from at least one digit: the first is read unconditionally. */
  predicate Encodable(ie: Ie)
  {
    ie.IeImsi? ==> |ie.digits| >= 1
  }

  /** The octets the encoder of `ie` stores, skipped octets included. */
  function Encoding(ie: Ie): (r: seq<octet>)
    requires Encodable(ie)
    ensures |r| >= 2
  {
    match ie
    case IeAlignment(spare) => Tlv(IEI_ALIGNMENT_OCTETS, |spare|, spare)
    case IeBssArea(spare) => Tlv(IEI_BSS_AREA_IND, 1, spare)
    case IeBvci(bvci) => Tlv(IEI_BVCI, 2, Be16(bvci))
    case IeCellId(c) => Tlv(IEI_CELL_ID, 8, RoutingAreaOctets(c.area) + Be16(c.cell))
    case IeDrx(d) => Tlv(IEI_DRX_PARAMS, 2, DrxOctets(d))
    case IeImsi(d) => Tlv(IEI_IMSI, |d| / 2 + 1, ImsiOctets(d))
    case IeLlcPdu(pdu) => Tlv(IEI_LLC_PDU, |pdu|, pdu)
    case IeLocationArea(la) => Tlv(IEI_LOCATION_AREA, 7, PlmnOctets(la.plmn) + Be16(la.lac))
    case IeLsaIdList(l) => Tlv(IEI_LSA_ID_LIST, 3 * |l.ids| + 1, [l.ep % 2] + LsaIdOctets(l.ids))
    case IeLsaInfo(only, es) => Tlv(IEI_LSA_INFORMATION, 4 * |es| + 1, [only % 2] + LsaInfoOctets(es))
    case IePduLifetime(t) => Tlv(IEI_PDU_LIFETIME, 2, Be16(t))
    case IePriority(p) => Tlv(IEI_PRIORITY, 1, [p])
    case IeQosParams(q) => Tlv(IEI_QOS_PARAMS, 5, QosParamsOctets(q))
    case IeQosProfile(q) => Tlv(IEI_QOS_PROFILE, 3, QosProfileOctets(q))
    case IeRaCap(cs) => Tlv(IEI_MS_RADIO_ACCESS_CAP, 6 * |cs| + 1, [|cs| % 256] + RaCapOctets(cs))
    case IeRoutingArea(ra) => Tlv(IEI_ROUTING_AREA, 7, RoutingAreaOctets(ra))
    case IeTlli(t) => Tlv(IEI_TLLI, 4, Be32(t))
    case IeTmsi(t) => Tlv(IEI_TMSI, 4, Be32(t))
  }

  lemma EncodingStartsWithIei(ie: Ie)
    requires Encodable(ie)
    ensures Encoding(ie)[0] == IeiOf(ie)
  {
    hide LengthOctets, RoutingAreaOctets, PlmnOctets, DrxOctets, ImsiOctets, LsaIdOctets, LsaInfoOctets,
         QosParamsOctets, QosProfileOctets, RaCapOctets, Be16, Be32;
  }

  // ----- what the decoders read -----

  /** IEI check, then the length indicator; `used` is the cursor after both. */
  function ReadHeader(s: seq<octet>, iei: octet): (r: Parse<nat>)
    ensures r.Got? ==> 2 <= r.used <= 3 && r.used <= |s| && r.value < 0x8000
  {
    if |s| == 0 then Overrun
    else if s[0] != iei then Refused
    else
      var (n, used) :- ReadLength(s[1..]);
      Got(n, 1 + used)
  }

  /** Whether a decoder insists on a particular length indicator. */
  datatype LengthCheck = AnyLength | Exactly(n: nat)

  /** An element with a value part of known size, which the length need not equal. */
  function ReadFixed(s: seq<octet>, iei: octet, check: LengthCheck, size: nat): (r: Parse<seq<octet>>)
    ensures r.Got? ==> |r.value| == size && size + 2 <= r.used <= |s|
  {
    var (n, h) :- ReadHeader(s, iei);
    if check.Exactly? && n != check.n then Refused
    else if |s| < h + size then Overrun
    else Got(s[h..h + size], h + size)
  }

  function PlmnFrom(b: seq<octet>): Plmn
    requires |b| == 3
  {
    Plmn(LowNibble(b[0]), HighNibble(b[0]), LowNibble(b[1]), LowNibble(b[2]), HighNibble(b[2]), HighNibble(b[1]))
  }

  function RoutingAreaFrom(b: seq<octet>): RoutingArea
    requires |b| == 6
  {
    RoutingArea(PlmnFrom(b[..3]), FromBe16(b[3..5]), b[5])
  }

  function DrxFrom(b: seq<octet>): Drx
    requires |b| == 2
  {
    if HasBit(b[1], 128) then Drx(b[0], true, b[1] % 128) else Drx(b[0], false, b[1])
  }

  function QosProfileFrom(b: seq<octet>): QosProfile
    requires |b| == 3
  {
    QosProfile(b[0], b[1], b[2] % 8, HasBit(b[2], 8), HasBit(b[2], 16), HasBit(b[2], 32))
  }

  function QosParamsFrom(b: seq<octet>): QosParams
    requires |b| == 5
  {
    QosParams(b[0], b[1], b[2], b[3], b[4])
  }

  function DigitsFrom(b: seq<octet>): (r: seq<octet>)
    ensures |r| == 2 * |b|
  {
    if b == [] then [] else [LowNibble(b[0]), HighNibble(b[0])] + DigitsFrom(b[1..])
  }

  /**
   The loop runs while `count <= 2 * length - (2 + odd)`, which is `length - 1`
   pairs for either parity; an even count then takes one digit more.
   */
  function ReadImsi(s: seq<octet>): (r: Parse<seq<octet>>)
    ensures r.Got? ==> 2 <= r.used <= |s| && 1 <= |r.value| < 0xffff
  {
    var (n, h) :- ReadHeader(s, IEI_IMSI);
    if |s| <= h then Overrun
    else if s[h] % 8 != MOBILE_ID_IMSI then Refused
    else
      var pairs := if n == 0 then 0 else n - 1;
      var end := h + 1 + pairs;
      if HasBit(s[h], 8) then
        if |s| < end then Overrun
        else Got([HighNibble(s[h])] + DigitsFrom(s[h + 1..end]), end)
      else
        if |s| < end + 1 then Overrun
        else Got([HighNibble(s[h])] + DigitsFrom(s[h + 1..end]) + [LowNibble(s[end])], end + 1)
  }

  function LsaIdsFrom(b: seq<octet>, count: nat): (r: seq<u32>)
    requires |b| == 3 * count
    ensures |r| == count
  {
    if count == 0 then [] else [FromBe24(b[..3])] + LsaIdsFrom(b[3..], count - 1)
  }

  function ReadLsaIdList(s: seq<octet>): (r: Parse<LsaIdList>)
    ensures r.Got? ==> 2 <= r.used <= |s| && 3 * |r.value.ids| + 1 < 0x8000
  {
    var (n, h) :- ReadHeader(s, IEI_LSA_ID_LIST);
    var count := if n == 0 then 0 else (n - 1) / 3;
    var end := h + 1 + 3 * count;
    if |s| < end then Overrun
    else Got(LsaIdList(s[h] % 2, LsaIdsFrom(s[h + 1..end], count)), end)
  }

  const NO_FLAGS := RaFlags(false, false, false, false, false, false, false, false, false, false, false)

  function MultislotFrom(hscsd: octet, gprs: octet, sm: octet): Multislot
  {
    Multislot(hscsd % 32, hscsd / 128, (gprs / 4) % 32, gprs / 128, (gprs / 2) % 2, gprs % 2,
              LowNibble(sm), HighNibble(sm))
  }

  /** The decoder clears both flag octets before testing them, so no flag is ever set. */
  function RaCapabilityFrom(b: seq<octet>): RaCapability
    requires |b| == 6
  {
    RaCapability(HighNibble(b[0]), b[0] % 8, NO_FLAGS, MultislotFrom(b[3], b[4], b[5]))
  }

  function RaCapFrom(b: seq<octet>, count: nat): (r: seq<RaCapability>)
    requires |b| == 6 * count
    ensures |r| == count
  {
    if count == 0 then [] else [RaCapabilityFrom(b[..6])] + RaCapFrom(b[6..], count - 1)
  }

  function ReadRaCap(s: seq<octet>): (r: Parse<seq<RaCapability>>)
    ensures r.Got? ==> 2 <= r.used <= |s| && |r.value| < 256
  {
    var (n, h) :- ReadHeader(s, IEI_MS_RADIO_ACCESS_CAP);
    if |s| <= h then Overrun
    else if n != 6 * s[h] as int + 1 then Refused
    else
      var count: nat := s[h];
      var end := h + 1 + 6 * count;
      if |s| < end then Overrun
      else Got(RaCapFrom(s[h + 1..end], count), end)
  }

  function ReadLlcPdu(s: seq<octet>): (r: Parse<seq<octet>>)
    ensures r.Got? ==> 2 <= r.used <= |s| && |r.value| < 0x8000
  {
    var (n, h) :- ReadHeader(s, IEI_LLC_PDU);
    if |s| < h + n then Overrun else Got(s[h..h + n], h + n)
  }

  /** Skipped octets are not read, so they may lie beyond the buffer. */
  function Skipped(s: seq<octet>, from: nat, count: nat): seq<octet>
    requires from <= |s|
  {
    if from + count <= |s| then s[from..from + count] else s[from..]
  }

  function ReadAlignment(s: seq<octet>): (r: Parse<seq<octet>>)
    ensures r.Got? ==> 2 <= r.used
  {
    var (n, h) :- ReadHeader(s, IEI_ALIGNMENT_OCTETS);
    if n > 3 then Refused else Got(Skipped(s, h, n), h + n)
  }

  function ReadBssArea(s: seq<octet>): (r: Parse<seq<octet>>)
    ensures r.Got? ==> 2 <= r.used
  {
    var (n, h) :- ReadHeader(s, IEI_BSS_AREA_IND);
    if n != 1 then Refused else Got(Skipped(s, h, 1), h + 1)
  }

  function ReadBvci(s: seq<octet>): (r: Parse<u16>)
    ensures r.Got? ==> 2 <= r.used <= |s|
  {
    var (b, used) :- ReadFixed(s, IEI_BVCI, Exactly(2), 2);
    Got(FromBe16(b), used)
  }

  function ReadCellId(s: seq<octet>): (r: Parse<CellIdentifier>)
    ensures r.Got? ==> 2 <= r.used <= |s|
  {
    var (b, used) :- ReadFixed(s, IEI_CELL_ID, Exactly(8), 8);
    Got(CellIdentifier(RoutingAreaFrom(b[..6]), FromBe16(b[6..])), used)
  }

  function ReadDrx(s: seq<octet>): (r: Parse<Drx>)
    ensures r.Got? ==> 2 <= r.used <= |s|
  {
    var (b, used) :- ReadFixed(s, IEI_DRX_PARAMS, Exactly(2), 2);
    Got(DrxFrom(b), used)
  }

  function ReadLocationArea(s: seq<octet>): (r: Parse<LocationArea>)
    ensures r.Got? ==> 2 <= r.used <= |s|
  {
    var (b, used) :- ReadFixed(s, IEI_LOCATION_AREA, AnyLength, 5);
    Got(LocationArea(PlmnFrom(b[..3]), FromBe16(b[3..])), used)
  }

  function ReadPduLifetime(s: seq<octet>): (r: Parse<u16>)
    ensures r.Got? ==> 2 <= r.used <= |s|
  {
    var (b, used) :- ReadFixed(s, IEI_PDU_LIFETIME, Exactly(2), 2);
    Got(FromBe16(b), used)
  }

  function ReadQosProfile(s: seq<octet>): (r: Parse<QosProfile>)
    ensures r.Got? ==> 2 <= r.used <= |s|
  {
    var (b, used) :- ReadFixed(s, IEI_QOS_PROFILE, AnyLength, 3);
    Got(QosProfileFrom(b), used)
  }

  function ReadQosParams(s: seq<octet>): (r: Parse<QosParams>)
    ensures r.Got? ==> 2 <= r.used <= |s|
  {
    var (b, used) :- ReadFixed(s, IEI_QOS_PARAMS, Exactly(5), 5);
    Got(QosParamsFrom(b), used)
  }

  function ReadRoutingArea(s: seq<octet>): (r: Parse<RoutingArea>)
    ensures r.Got? ==> 2 <= r.used <= |s|
  {
    var (b, used) :- ReadFixed(s, IEI_ROUTING_AREA, Exactly(7), 6);
    Got(RoutingAreaFrom(b), used)
  }

  function ReadTlli(s: seq<octet>): (r: Parse<u32>)
    ensures r.Got? ==> 2 <= r.used <= |s|
  {
    var (b, used) :- ReadFixed(s, IEI_TLLI, Exactly(4), 4);
    Got(FromBe32(b), used)
  }

  function ReadTmsi(s: seq<octet>): (r: Parse<u32>)
    ensures r.Got? ==> 2 <= r.used <= |s|
  {
    var (b, used) :- ReadFixed(s, IEI_TMSI, Exactly(4), 4);
    Got(FromBe32(b), used)
  }

  /** Elements whose value part has a fixed size. */
  predicate HasFixedSize(iei: octet)
  {
    iei in [IEI_BVCI, IEI_CELL_ID, IEI_DRX_PARAMS, IEI_LOCATION_AREA, IEI_PDU_LIFETIME, IEI_QOS_PARAMS,
            IEI_QOS_PROFILE, IEI_ROUTING_AREA, IEI_TLLI, IEI_TMSI]
  }

  function ReadFixedIe(s: seq<octet>): (r: Parse<Ie>)
    requires |s| > 0 && HasFixedSize(s[0])
    ensures r.Got? ==> 2 <= r.used <= |s|
  {
    if s[0] == IEI_BVCI then var (v, used) :- ReadBvci(s); Got(IeBvci(v), used)
    else if s[0] == IEI_CELL_ID then var (v, used) :- ReadCellId(s); Got(IeCellId(v), used)
    else if s[0] == IEI_DRX_PARAMS then var (v, used) :- ReadDrx(s); Got(IeDrx(v), used)
    else if s[0] == IEI_LOCATION_AREA then var (v, used) :- ReadLocationArea(s); Got(IeLocationArea(v), used)
    else if s[0] == IEI_PDU_LIFETIME then var (v, used) :- ReadPduLifetime(s); Got(IePduLifetime(v), used)
    else if s[0] == IEI_QOS_PARAMS then var (v, used) :- ReadQosParams(s); Got(IeQosParams(v), used)
    else if s[0] == IEI_QOS_PROFILE then var (v, used) :- ReadQosProfile(s); Got(IeQosProfile(v), used)
    else if s[0] == IEI_ROUTING_AREA then var (v, used) :- ReadRoutingArea(s); Got(IeRoutingArea(v), used)
    else if s[0] == IEI_TLLI then var (v, used) :- ReadTlli(s); Got(IeTlli(v), used)
    else var (v, used) :- ReadTmsi(s); Got(IeTmsi(v), used)
  }

  function ReadVariableIe(s: seq<octet>): (r: Parse<Ie>)
    requires |s| > 0
    ensures r.Got? ==> r.used >= 2
  {
    if s[0] == IEI_ALIGNMENT_OCTETS then var (v, used) :- ReadAlignment(s); Got(IeAlignment(v), used)
    else if s[0] == IEI_BSS_AREA_IND then var (v, used) :- ReadBssArea(s); Got(IeBssArea(v), used)
    else if s[0] == IEI_IMSI then var (v, used) :- ReadImsi(s); Got(IeImsi(v), used)
    else if s[0] == IEI_LLC_PDU then var (v, used) :- ReadLlcPdu(s); Got(IeLlcPdu(v), used)
    else if s[0] == IEI_LSA_ID_LIST then var (v, used) :- ReadLsaIdList(s); Got(IeLsaIdList(v), used)
    else if s[0] == IEI_MS_RADIO_ACCESS_CAP then var (v, used) :- ReadRaCap(s); Got(IeRaCap(v), used)
    else Refused
  }

  /**
   The element decoder that the PDU loops call for the identifier at the cursor.
   LSA Information is sent to a decoder that tests for the alignment identifier,
   so it is always refused; identifiers without a decoder are refused as well.
   */
  function ReadIe(s: seq<octet>): (r: Parse<Ie>)
    ensures r.Got? ==> r.used >= 2
  {
    if |s| == 0 then Overrun
    else if HasFixedSize(s[0]) then ReadFixedIe(s)
    else ReadVariableIe(s)
  }
}
