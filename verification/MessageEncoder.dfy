/**
 The message encoders: mandatory elements are checked, elements are stored one
 behind the other, and the length and the quality-of-service level are returned.
 */
module MessageEncoder {
  import opened Octets
  import opened InformationElements
  import opened Pdus
  import opened ElementEncoder

  /** Message cursors are 16-bit counters; a message buffer is shorter than that. */
  const CURSOR_LIMIT: nat := 0x1_0000

  lemma {:induction false} ConcatSnoc(ies: seq<Ie>, ie: Ie)
    requires AllEncodable(ies) && Encodable(ie)
    ensures AllEncodable(ies + [ie]) && Concat(ies + [ie]) == Concat(ies) + Encoding(ie)
  {
    hide Encoding;
    if ies == [] {
      assert ies + [ie] == [ie] && Concat([ie]) == Encoding(ie) + Concat([]);
    } else {
      assert (ies + [ie])[1..] == ies[1..] + [ie];
      ConcatSnoc(ies[1..], ie);
    }
  }

  /** The buffer holds `header` and the elements `ies`, `at` octets in all, and is otherwise as it was. */
  ghost predicate Written(s0: seq<octet>, s: seq<octet>, at: nat, header: seq<octet>, ies: seq<Ie>)
  {
    && AllEncodable(ies)
    && at == |header| + |Concat(ies)|
    && Stored(s0, s, 0, header + Concat(ies))
  }

  lemma OnlyHeader(s0: seq<octet>, s: seq<octet>, header: seq<octet>)
    requires Stored(s0, s, 0, header)
    ensures Written(s0, s, |header|, header, [])
  {
    hide Stored;
    assert Concat([]) == [];
    assert header + [] == header;
  }

  lemma ElementWritten(s0: seq<octet>, s1: seq<octet>, s2: seq<octet>, at: nat, header: seq<octet>, ies: seq<Ie>,
                       ie: Ie)
    requires Written(s0, s1, at, header, ies)
    requires Encodable(ie) && Stored(s1, s2, at, Encoding(ie))
    ensures Written(s0, s2, at + |Encoding(ie)|, header, ies + [ie])
  {
    hide Stored, Encoding, Concat;
    ConcatSnoc(ies, ie);
    StoredThenStored(s0, s1, s2, 0, header + Concat(ies), Encoding(ie));
    assert header + Concat(ies) + Encoding(ie) == header + Concat(ies + [ie]);
  }

  lemma WrittenMeans(s0: seq<octet>, s: seq<octet>, at: nat, header: seq<octet>, ies: seq<Ie>)
    requires Written(s0, s, at, header, ies)
    ensures at <= |s0| == |s| && s[..at] == header + Concat(ies) && s[at..] == s0[at..]
  {
    hide Concat, AllEncodable;
    var all := header + Concat(ies);
    assert s == all + s0[at..];
  }

  // ----- how much room elements take -----

  function HeaderSize(length: nat): nat
  {
    if length < 128 then 2 else 3
  }

  function Size(ie: Ie): nat
  {
    match ie
    case IeAlignment(spare) => HeaderSize(|spare|) + |spare|
    case IeBssArea(spare) => 2 + |spare|
    case IeBvci(_) => 4
    case IeCellId(_) => 10
    case IeDrx(_) => 4
    case IeImsi(d) => HeaderSize(|d| / 2 + 1) + |d| / 2 + 1
    case IeLlcPdu(pdu) => HeaderSize(|pdu|) + |pdu|
    case IeLocationArea(_) => 7
    case IeLsaIdList(l) => HeaderSize(3 * |l.ids| + 1) + 3 * |l.ids| + 1
    case IeLsaInfo(_, es) => HeaderSize(4 * |es| + 1) + 4 * |es| + 1
    case IePduLifetime(_) => 4
    case IePriority(_) => 3
    case IeQosParams(_) => 7
    case IeQosProfile(_) => 5
    case IeRaCap(cs) => HeaderSize(6 * |cs| + 1) + 6 * |cs| + 1
    case IeRoutingArea(_) => 8
    case IeTlli(_) => 6
    case IeTmsi(_) => 6
  }

  lemma EncodingSize(ie: Ie)
    requires Encodable(ie)
    ensures |Encoding(ie)| == Size(ie)
  {
    hide Be16, Be32, PlmnOctets, RoutingAreaOctets, DrxOctets, ImsiOctets, LsaIdOctets, LsaInfoOctets, QosParamsOctets,
         QosProfileOctets, RaCapOctets;
  }

  // ----- PAGING-PS -----

  /** Room for every element of the message, present or not. */
  function PagingRoom(p: Paging): nat
  {
    42 + if p.imsi.Some? then |p.imsi.value| / 2 else 0
  }

  function WithPagingAreas(before: seq<Ie>, p: Paging, spare: octet): seq<Ie>
  {
    With(With(With(before, LocationAreaSlot(p.la)), RoutingAreaSlot(p.ra)), BssAreaSlot(p.bssArea, spare))
  }

  /** The elements between the two mandatory ones. */
  function WithPagingOptions(before: seq<Ie>, p: Paging, spare: octet): seq<Ie>
  {
    WithPagingAreas(With(With(before, DrxSlot(p.drx)), BvciSlot(p.bvci)), p, spare)
  }

  /** Location area, routing area and BSS area indication, each if present. */
  method EncodePagingAreas(p: Paging, msg: array<octet>, start: nat, ghost s0: seq<octet>, ghost header: seq<octet>,
                           ghost before: seq<Ie>)
    returns (index: nat, ghost spare: octet, ghost ies: seq<Ie>)
    requires start + 18 <= msg.Length && Written(s0, msg[..], start, header, before)
    modifies msg
    ensures ies == WithPagingAreas(before, p, spare)
    ensures Written(s0, msg[..], index, header, ies) && index <= start + 18
  {
    hide Stored, Encoding, Concat, Written, AllEncodable;
    index, spare, ies := start, 0, before;
    ghost var s := msg[..];
    if p.la.Some? {
      ghost var at := index;
      EncodingSize(IeLocationArea(p.la.value));
      index := EncodeLocationArea(p.la.value, msg, index);
      ElementWritten(s0, s, msg[..], at, header, ies, IeLocationArea(p.la.value));
    }
    ies := With(ies, LocationAreaSlot(p.la));
    assert Written(s0, msg[..], index, header, ies) && index <= start + 7;
    s := msg[..];
    if p.ra.Some? {
      ghost var at := index;
      EncodingSize(IeRoutingArea(p.ra.value));
      index := EncodeRoutingArea(p.ra.value, msg, index);
      ElementWritten(s0, s, msg[..], at, header, ies, IeRoutingArea(p.ra.value));
    }
    ies := With(ies, RoutingAreaSlot(p.ra));
    assert Written(s0, msg[..], index, header, ies) && index <= start + 15;
    s := msg[..];
    if p.bssArea {
      ghost var at := index;
      spare := msg[index + 2];
      EncodingSize(IeBssArea([spare]));
      index := EncodeBssArea(msg, index);
      ElementWritten(s0, s, msg[..], at, header, ies, IeBssArea([spare]));
    }
    ies := With(ies, BssAreaSlot(p.bssArea, spare));
    assert Written(s0, msg[..], index, header, ies) && index <= start + 18;
  }

  /** The optional elements between the two mandatory ones, written behind `before`. */
  method EncodePagingOptions(p: Paging, msg: array<octet>, start: nat, ghost s0: seq<octet>, ghost header: seq<octet>,
                             ghost before: seq<Ie>)
    returns (index: nat, ghost spare: octet, ghost ies: seq<Ie>)
    requires start + 26 <= msg.Length && Written(s0, msg[..], start, header, before)
    modifies msg
    ensures ies == WithPagingOptions(before, p, spare)
    ensures Written(s0, msg[..], index, header, ies) && index <= start + 26
  {
    hide Stored, Encoding, Concat, Written, AllEncodable;
    index, ies := start, before;
    ghost var s := msg[..];
    if p.drx.Some? {
      ghost var at := index;
      EncodingSize(IeDrx(p.drx.value));
      index := EncodeDrxParams(p.drx.value, msg, index);
      ElementWritten(s0, s, msg[..], at, header, ies, IeDrx(p.drx.value));
    }
    ies := With(ies, DrxSlot(p.drx));
    assert Written(s0, msg[..], index, header, ies) && index <= start + 4;
    s := msg[..];
    if p.bvci.Some? {
      ghost var at := index;
      EncodingSize(IeBvci(p.bvci.value));
      index := EncodeBvci(p.bvci.value, msg, index);
      ElementWritten(s0, s, msg[..], at, header, ies, IeBvci(p.bvci.value));
    }
    ies := With(ies, BvciSlot(p.bvci));
    assert Written(s0, msg[..], index, header, ies) && index <= start + 8;
    index, spare, ies := EncodePagingAreas(p, msg, index, s0, header, ies);
  }

  method EncodePagingPs(p: Paging, msg: array<octet>) returns (ok: bool, len: nat, ghost spare: octet)
    requires p.imsi.Some? ==> |p.imsi.value| >= 1
    requires PagingRoom(p) <= msg.Length < CURSOR_LIMIT
    modifies msg
    ensures ok <==> p.imsi.Some? && p.qos.Some?
    ensures ok ==> len <= msg.Length && msg[..len] == PagingOctets(p, spare) && msg[len..] == old(msg[len..])
    ensures !ok ==> len == 0
  {
    hide Stored, Encoding, Concat, Written, AllEncodable;
    ghost var s0, header := msg[..], [PDU_PAGING_PS];
    len, spare := 0, 0;
    var index := Put(PDU_PAGING_PS, msg, 0);
    OnlyHeader(s0, msg[..], header);
    ghost var s := msg[..];
    if p.imsi.None? {
      return false, 0, 0;
    }
    EncodingSize(IeImsi(p.imsi.value));
    index := EncodeImsi(p.imsi.value, msg, index);
    ElementWritten(s0, s, msg[..], 1, header, [], IeImsi(p.imsi.value));
    ghost var ies := [IeImsi(p.imsi.value)];
    assert ies == [] + [IeImsi(p.imsi.value)];
    assert Written(s0, msg[..], index, header, ies) && index <= 5 + |p.imsi.value| / 2;
    s := msg[..];
    index, spare, ies := EncodePagingOptions(p, msg, index, s0, header, ies);
    if p.qos.None? {
      return false, 0, spare;
    }
    s := msg[..];
    ghost var qosAt := index;
    EncodingSize(IeQosProfile(p.qos.value));
    index := EncodeQosProfile(p.qos.value, msg, index);
    ElementWritten(s0, s, msg[..], qosAt, header, ies, IeQosProfile(p.qos.value));
    ies := With(ies, Some(IeQosProfile(p.qos.value)));
    assert Written(s0, msg[..], index, header, ies) && index <= 36 + |p.imsi.value| / 2;
    s := msg[..];
    if p.tmsi.Some? {
      ghost var at := index;
      EncodingSize(IeTmsi(p.tmsi.value));
      index := EncodeTmsi(p.tmsi.value, msg, index);
      ElementWritten(s0, s, msg[..], at, header, ies, IeTmsi(p.tmsi.value));
    }
    ies := With(ies, TmsiSlot(p.tmsi));
    assert Written(s0, msg[..], index, header, ies) && index <= 42 + |p.imsi.value| / 2;
    WrittenMeans(s0, msg[..], index, header, ies);
    return true, index, spare;
  }

  // ----- the parts UL-UNITDATA and DL-UNITDATA share -----

  /** PDU type, TLLI and QoS profile, the last two in V format. */
  method EncodeUnitdataStart(pduType: octet, tlli: u32, qos: QosProfile, msg: array<octet>) returns (index: nat)
    requires msg.Length >= 8
    modifies msg
    ensures index == 8
    ensures Stored(old(msg[..]), msg[..], 0, [pduType] + Be32(tlli) + QosProfileOctets(qos))
  {
    hide Stored, Be32, QosProfileOctets;
    ghost var s0 := msg[..];
    index := Put(pduType, msg, 0);
    ghost var s1 := msg[..];
    index := Put32(tlli, msg, index);
    StoredThenStored(s0, s1, msg[..], 0, [pduType], Be32(tlli));
    ghost var s2 := msg[..];
    index := PutQosProfile(qos, msg, index);
    StoredThenStored(s0, s2, msg[..], 0, [pduType] + Be32(tlli), QosProfileOctets(qos));
  }

  /** "Align on a four octet boundary", as written in front of an LSA element. */
  method EncodeAlignmentFor(msg: array<octet>, at: nat, ghost s0: seq<octet>, ghost header: seq<octet>,
                            ghost before: seq<Ie>)
    returns (index: nat, ghost spare: seq<octet>)
    requires at + 5 <= msg.Length && Written(s0, msg[..], at, header, before)
    modifies msg
    ensures |spare| == AlignmentCount(at)
    ensures Written(s0, msg[..], index, header, With(before, AlignmentSlot(true, at, spare))) && index <= at + 5
  {
    hide Stored, Encoding, Concat, Written, AllEncodable, LengthOctets, Tlv;
    index, spare := at, [];
    if index % 4 != 0 {
      ghost var s := msg[..];
      spare := msg[at + 2..at + 2 + AlignmentCount(at)];
      EncodingSize(IeAlignment(spare));
      index := EncodeAlignment(4 - index % 4, msg, index);
      ElementWritten(s0, s, msg[..], at, header, before, IeAlignment(spare));
    }
  }

  // ----- UL-UNITDATA -----

  function UlRoom(u: Ul): nat
  {
    30 + |u.pdu| + if u.lsa.Some? then 3 * |u.lsa.value.ids| else 0
  }

  method EncodeUlUnitdata(u: Ul, msg: array<octet>)
    returns (ok: bool, len: nat, qosLevel: octet, ghost spare: seq<octet>)
    requires UlRoom(u) <= msg.Length < CURSOR_LIMIT
    modifies msg
    ensures ok <==> u.tlli.Some? && u.qos.Some? && u.cell.Some?
    ensures |spare| == AlignmentCount(UL_CURSOR)
    ensures ok ==> len <= msg.Length && msg[..len] == UlOctets(u, spare) && msg[len..] == old(msg[len..])
    ensures ok ==> qosLevel == u.qos.value.precedence
    ensures !ok ==> len == 0
  {
    hide Stored, Encoding, Concat, Written, AllEncodable, LengthOctets, Be16, RoutingAreaOctets, LsaIdOctets, Be32,
         QosProfileOctets, Tlv;
    ghost var s0 := msg[..];
    len, qosLevel, spare := 0, 0, [0, 0];
    if u.tlli.None? || u.qos.None? || u.cell.None? {
      return false, 0, 0, [0, 0];
    }
    ghost var header := UlHeader(u);
    var index := EncodeUnitdataStart(PDU_UL_UNITDATA, u.tlli.value, u.qos.value, msg);
    OnlyHeader(s0, msg[..], header);
    ghost var s := msg[..];
    EncodingSize(IeCellId(u.cell.value));
    index := EncodeCellId(u.cell.value, msg, index);
    ElementWritten(s0, s, msg[..], 8, header, [], IeCellId(u.cell.value));
    ghost var ies := [IeCellId(u.cell.value)];
    assert ies == [] + [IeCellId(u.cell.value)];
    assert Written(s0, msg[..], index, header, ies) && index == UL_CURSOR;
    if u.lsa.Some? {
      index, spare := EncodeAlignmentFor(msg, index, s0, header, ies);
      ies := With(ies, AlignmentSlot(true, UL_CURSOR, spare));
      s := msg[..];
      ghost var at := index;
      EncodingSize(IeLsaIdList(u.lsa.value));
      index := EncodeLsaIdList(u.lsa.value, msg, index);
      ElementWritten(s0, s, msg[..], at, header, ies, IeLsaIdList(u.lsa.value));
      ies := With(ies, Some(IeLsaIdList(u.lsa.value)));
    }
    assert Written(s0, msg[..], index, header, ies) && index + 3 + |u.pdu| <= UlRoom(u);
    s := msg[..];
    ghost var at := index;
    EncodingSize(IeLlcPdu(u.pdu));
    index := EncodeLlcPdu(u.pdu, msg, index);
    ElementWritten(s0, s, msg[..], at, header, ies, IeLlcPdu(u.pdu));
    ies := With(ies, Some(IeLlcPdu(u.pdu)));
    assert ies == UlElements(u, spare);
    WrittenMeans(s0, msg[..], index, header, ies);
    return true, index, u.qos.value.precedence, spare;
  }

  // ----- DL-UNITDATA -----

  function DlRoom(d: Dl): nat
  {
    60 + |d.pdu|
    + (if d.raCap.Some? then 6 * |d.raCap.value| else 0)
    + (if d.imsi.Some? then |d.imsi.value| / 2 else 0)
    + (if d.lsaInfo.Some? then 4 * |d.lsaInfo.value.entries| else 0)
  }

  /** The two mandatory TLV elements behind the start of the message. */
  method EncodeDlHeader(d: Dl, msg: array<octet>) returns (index: nat)
    requires DlComplete(d) && msg.Length >= DL_CURSOR
    modifies msg
    ensures index == DL_CURSOR
    ensures Stored(old(msg[..]), msg[..], 0, DlHeader(d))
  {
    hide Stored, Encoding, LengthOctets, Be16, Be32, QosProfileOctets, QosParamsOctets, Tlv;
    ghost var s0, start := msg[..], [PDU_DL_UNITDATA] + Be32(d.tlli.value) + QosProfileOctets(d.qos.value);
    index := EncodeUnitdataStart(PDU_DL_UNITDATA, d.tlli.value, d.qos.value, msg);
    ghost var s1 := msg[..];
    EncodingSize(IeQosParams(d.params.value));
    index := EncodeQosParams(d.params.value, msg, index);
    StoredThenStored(s0, s1, msg[..], 0, start, Encoding(IeQosParams(d.params.value)));
    ghost var s2 := msg[..];
    EncodingSize(IePduLifetime(d.lifetime.value));
    index := EncodePduLifetime(d.lifetime.value, msg, index);
    StoredThenStored(s0, s2, msg[..], 0, start + Encoding(IeQosParams(d.params.value)),
                     Encoding(IePduLifetime(d.lifetime.value)));
  }

  /** What the elements up to the DRX parameters take at most. */
  function DlFirstRoom(d: Dl): nat
  {
    11 + if d.raCap.Some? then 6 * |d.raCap.value| else 0
  }

  method EncodeDlFirstOptions(d: Dl, msg: array<octet>, start: nat, ghost s0: seq<octet>, ghost header: seq<octet>)
    returns (index: nat)
    requires Written(s0, msg[..], start, header, []) && start + DlFirstRoom(d) <= msg.Length
    modifies msg
    ensures Written(s0, msg[..], index, header, DlFirstOptions(d)) && index <= start + DlFirstRoom(d)
  {
    hide Stored, Encoding, Concat, Written, AllEncodable;
    index := start;
    ghost var s, ies := msg[..], [];
    ghost var room := start + DlFirstRoom(d) - 11;
    if d.raCap.Some? {
      ghost var at := index;
      EncodingSize(IeRaCap(d.raCap.value));
      index := EncodeRaCap(d.raCap.value, msg, index);
      ElementWritten(s0, s, msg[..], at, header, ies, IeRaCap(d.raCap.value));
    }
    ies := With(ies, RaCapSlot(d.raCap));
    assert Written(s0, msg[..], index, header, ies) && index <= room + 4;
    s := msg[..];
    if d.priority.Some? {
      ghost var at := index;
      EncodingSize(IePriority(d.priority.value));
      index := EncodePriority(d.priority.value, msg, index);
      ElementWritten(s0, s, msg[..], at, header, ies, IePriority(d.priority.value));
    }
    ies := With(ies, PrioritySlot(d.priority));
    assert Written(s0, msg[..], index, header, ies) && index <= room + 7;
    s := msg[..];
    if d.drx.Some? {
      ghost var at := index;
      EncodingSize(IeDrx(d.drx.value));
      index := EncodeDrxParams(d.drx.value, msg, index);
      ElementWritten(s0, s, msg[..], at, header, ies, IeDrx(d.drx.value));
    }
    ies := With(ies, DrxSlot(d.drx));
    assert Written(s0, msg[..], index, header, ies) && index <= room + 11;
  }

  method EncodeDlOptions(d: Dl, msg: array<octet>, start: nat, ghost s0: seq<octet>, ghost header: seq<octet>)
    returns (index: nat)
    requires DlEncodable(d) && Written(s0, msg[..], start, header, [])
    requires start == DL_CURSOR && DlRoom(d) <= msg.Length
    modifies msg
    ensures Written(s0, msg[..], index, header, DlOptions(d))
    ensures index + 12 + |d.pdu| + (if d.lsaInfo.Some? then 4 * |d.lsaInfo.value.entries| else 0) <= DlRoom(d)
  {
    hide Stored, Encoding, Concat, Written, AllEncodable, DlFirstOptions;
    index := EncodeDlFirstOptions(d, msg, start, s0, header);
    ghost var s, ies := msg[..], DlFirstOptions(d);
    ghost var room := start + DlFirstRoom(d) + if d.imsi.Some? then |d.imsi.value| / 2 else 0;
    if d.imsi.Some? {
      ghost var at := index;
      EncodingSize(IeImsi(d.imsi.value));
      index := EncodeImsi(d.imsi.value, msg, index);
      ElementWritten(s0, s, msg[..], at, header, ies, IeImsi(d.imsi.value));
    }
    ies := With(ies, ImsiSlot(d.imsi));
    assert Written(s0, msg[..], index, header, ies) && index <= room + 4;
    s := msg[..];
    if d.tlliOld.Some? {
      ghost var at := index;
      EncodingSize(IeTlli(d.tlliOld.value));
      index := EncodeTlli(d.tlliOld.value, msg, index);
      ElementWritten(s0, s, msg[..], at, header, ies, IeTlli(d.tlliOld.value));
    }
    ies := With(ies, TlliSlot(d.tlliOld));
    assert Written(s0, msg[..], index, header, ies) && index <= room + 10;
  }

  /** Where the QoS octet of the message stands, and what can be read off it. */
  lemma QosOctetSent(d: Dl, spare: seq<octet>)
    requires DlComplete(d) && DlEncodable(d) && |spare| == AlignmentCount(DlLsaCursor(d))
    ensures var m, q := DlOctets(d, spare), d.qos.value;
            |m| > 7 && (q.precedence < 8 ==> m[7] % 8 == q.precedence && (m[7] / 16 % 2 == 1 <==> q.tBit))
  {
    hide Encoding, Concat, Be32, DlElements;
    var q := d.qos.value;
    assert DlOctets(d, spare)[7] == DlHeader(d)[7] == QosOctet(q);
  }

  method EncodeDlUnitdata(d: Dl, msg: array<octet>)
    returns (ok: bool, len: nat, qosLevel: octet, ghost spare: seq<octet>)
    requires DlEncodable(d) && DlRoom(d) <= msg.Length < CURSOR_LIMIT
    modifies msg
    ensures ok <==> d.tlli.Some? && d.qos.Some? && d.params.Some? && d.lifetime.Some?
    ensures |spare| == AlignmentCount(DlLsaCursor(d))
    ensures ok ==> len <= msg.Length && msg[..len] == DlOctets(d, spare) && msg[len..] == old(msg[len..])
    ensures ok ==> qosLevel == if d.qos.value.tBit then d.qos.value.precedence else 0
    ensures ok && d.qos.value.precedence < 8 ==> len > 7 && qosLevel == if msg[7] / 16 % 2 == 1 then msg[7] % 8 else 0
    ensures !ok ==> len == 0
  {
    hide Stored, Encoding, Concat, Written, AllEncodable, LengthOctets, LsaInfoOctets, Tlv, DlOptions, DlHeader;
    ghost var s0 := msg[..];
    len, qosLevel, spare := 0, 0, seq(AlignmentCount(DlLsaCursor(d)), i => 0);
    if d.tlli.None? || d.qos.None? || d.params.None? || d.lifetime.None? {
      return false, 0, 0, spare;
    }
    ghost var header, ies := DlHeader(d), DlOptions(d);
    var index := EncodeDlHeader(d, msg);
    OnlyHeader(s0, msg[..], header);
    index := EncodeDlOptions(d, msg, index, s0, header);
    WrittenMeans(s0, msg[..], index, header, ies);
    assert index == DlLsaCursor(d);
    if d.lsaInfo.Some? {
      index, spare := EncodeAlignmentFor(msg, index, s0, header, ies);
      ies := With(ies, AlignmentSlot(true, DlLsaCursor(d), spare));
      ghost var s, at := msg[..], index;
      EncodingSize(IeLsaInfo(d.lsaInfo.value.lsaOnly, d.lsaInfo.value.entries));
      index := EncodeLsaInfo(d.lsaInfo.value.lsaOnly, d.lsaInfo.value.entries, msg, index);
      ElementWritten(s0, s, msg[..], at, header, ies, IeLsaInfo(d.lsaInfo.value.lsaOnly, d.lsaInfo.value.entries));
      ies := With(ies, Some(IeLsaInfo(d.lsaInfo.value.lsaOnly, d.lsaInfo.value.entries)));
    }
    assert Written(s0, msg[..], index, header, ies) && index + 3 + |d.pdu| <= DlRoom(d);
    ghost var s, at := msg[..], index;
    EncodingSize(IeLlcPdu(d.pdu));
    index := EncodeLlcPdu(d.pdu, msg, index);
    ElementWritten(s0, s, msg[..], at, header, ies, IeLlcPdu(d.pdu));
    ies := With(ies, Some(IeLlcPdu(d.pdu)));
    assert ies == DlElements(d, spare);
    WrittenMeans(s0, msg[..], index, header, ies);
    if !d.qos.value.tBit {
      qosLevel := NETWORK_QOS_LEVEL_1;
    } else {
      qosLevel := d.qos.value.precedence;
    }
    QosOctetSent(d, spare);
    assert msg[7] == msg[..index][7];
    return true, index, qosLevel, spare;
  }
}
