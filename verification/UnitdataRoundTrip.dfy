/**
 UL-UNITDATA and DL-UNITDATA: what the decoders deliver for every message the
 encoders produce.
 */
module UnitdataRoundTrip {
  import opened Octets
  import opened InformationElements
  import opened ElementRoundTrip
  import opened Pdus
  import opened MessageRoundTrip

  // ----- alignment octets -----

  /**
   The count ignores the two octets of the element's own header, so alignment
   octets never align: whenever they are written, the next element starts at 2
   modulo 4.
   */
  lemma AlignmentOctetsMisalign(index: nat, spare: seq<octet>)
    requires index % 4 != 0 && |spare| == AlignmentCount(index)
    ensures (index + |Encoding(IeAlignment(spare))|) % 4 == 2
  {
  }

  lemma {:induction false} AllEncodableConcatWith(ies: seq<Ie>, o: Option<Ie>)
    requires AllEncodable(ies) && (o.Some? ==> Encodable(o.value))
    ensures Concat(With(ies, o)) == Concat(ies) + (if o.Some? then Encoding(o.value) else [])
  {
    hide Encoding;
    if o.Some? {
      ConcatSplit(ies, [o.value]);
      assert [o.value][1..] == [];
      assert Concat([o.value]) == Encoding(o.value) + Concat([]);
    }
  }

  /** The LSA identifier list of an uplink message is at octet 22, never on a four-octet boundary. */
  lemma UlLsaListIsMisaligned(u: Ul, spare: seq<octet>)
    requires UlComplete(u) && u.lsa.Some? && |spare| == AlignmentCount(UL_CURSOR)
    ensures |UlOctets(u, spare)| > 22 && UlOctets(u, spare)[22] == IEI_LSA_ID_LIST
  {
    hide Encoding, With, UlHeader;
    var cell, al, list, llc := IeCellId(u.cell.value), IeAlignment(spare), IeLsaIdList(u.lsa.value), IeLlcPdu(u.pdu);
    var e0 := [cell];
    assert Concat(e0) == Encoding(cell) by { assert e0[1..] == []; }
    var e1 := With(e0, Some(al));
    AllEncodableConcatWith(e0, Some(al));
    var e2 := With(e1, Some(list));
    AllEncodableConcatWith(e1, Some(list));
    AllEncodableConcatWith(e2, Some(llc));
    assert |Encoding(cell)| == 10 && |Encoding(al)| == 4 by { ShortSizes(cell, al); }
    EncodingStartsWithIei(list);
  }

  lemma ShortSizes(cell: Ie, al: Ie)
    requires cell.IeCellId? && al.IeAlignment? && |al.spare| == 2
    ensures |Encoding(cell)| == 10 && |Encoding(al)| == 4
  {
  }

  // ----- UL-UNITDATA -----

  predicate UlFits(u: Ul)
    requires UlComplete(u)
  {
    && u.qos.value.precedence < 8
    && PlmnFits(u.cell.value.area.plmn)
    && (u.lsa.Some? ==> Representable(IeLsaIdList(u.lsa.value)))
    && |u.pdu| < 0x8000
  }

  lemma UlOfWith(tlli: u32, qos: QosProfile, ies: seq<Ie>, o: Option<Ie>)
    ensures UlOf(tlli, qos, With(ies, o))
         == if o.None? then UlOf(tlli, qos, ies) else UlApply(UlOf(tlli, qos, ies), o.value)
  {
    if o.Some? {
      assert (ies + [o.value])[..|ies|] == ies;
    }
  }

  /** The state in which a decoded message leaves the receiver: everything known, one PDU sent upwards. */
  function UlExpected(u: Ul): UlState
    requires UlComplete(u)
  {
    UlState(u.tlli.value, u.qos.value, u.cell, u.lsa, [UlIndication(u.tlli.value, u.cell, u.pdu)])
  }

  lemma UlOfElements(u: Ul, spare: seq<octet>)
    requires UlComplete(u) && |spare| == AlignmentCount(UL_CURSOR)
    ensures UlOf(u.tlli.value, u.qos.value, UlElements(u, spare)) == UlExpected(u)
  {
    hide With;
    var t, q := u.tlli.value, u.qos.value;
    var e0 := [IeCellId(u.cell.value)];
    assert e0[..0] == [];
    assert UlOf(t, q, e0) == UlState(t, q, u.cell, None, []);
    hide UlOf;
    var al := AlignmentSlot(u.lsa.Some?, UL_CURSOR, spare);
    var list := if u.lsa.Some? then Some(IeLsaIdList(u.lsa.value)) else None;
    var e1 := With(e0, al);
    UlOfWith(t, q, e0, al);
    var e2 := With(e1, list);
    UlOfWith(t, q, e1, list);
    UlOfWith(t, q, e2, Some(IeLlcPdu(u.pdu)));
  }

  lemma UlElementsReadable(u: Ul, spare: seq<octet>)
    requires UlComplete(u) && UlFits(u) && |spare| == AlignmentCount(UL_CURSOR)
    ensures AllReadable(UlUnitdata, UlElements(u, spare))
  {
    hide With, AllReadable, PlmnFits, AllBelow;
    var e0 := [IeCellId(u.cell.value)];
    OneReadable(UlUnitdata, e0[0]);
    var al := AlignmentSlot(u.lsa.Some?, UL_CURSOR, spare);
    var list := if u.lsa.Some? then Some(IeLsaIdList(u.lsa.value)) else None;
    var e1 := With(e0, al);
    AllReadableWith(UlUnitdata, e0, al);
    var e2 := With(e1, list);
    AllReadableWith(UlUnitdata, e1, list);
    AllReadableWith(UlUnitdata, e2, Some(IeLlcPdu(u.pdu)));
  }

  lemma UlHeaderRead(u: Ul, rest: seq<octet>)
    requires UlComplete(u)
    ensures var m := UlHeader(u) + rest;
            && m[0] == PDU_UL_UNITDATA && FromBe32(m[1..5]) == u.tlli.value && m[8..] == rest
            && (QosProfileFrom(m[5..8]) == u.qos.value <==> u.qos.value.precedence < 8)
            && QosProfileFrom(m[5..8]).precedence < 8
  {
    var m := UlHeader(u) + rest;
    assert m[1..5] == Be32(u.tlli.value);
    assert m[5..8] == QosProfileOctets(u.qos.value);
    Be32RoundTrip(u.tlli.value);
    QosRoundTrip(u.qos.value);
  }

  /** What the receiver's state satisfies, whatever the octets were. */
  predicate UlInRange(st: UlState)
  {
    && (st.cell.Some? ==> PlmnFits(st.cell.value.area.plmn))
    && (st.lsa.Some? ==> Representable(IeLsaIdList(st.lsa.value)))
    && forall i | 0 <= i < |st.sent| :: |st.sent[i].pdu| < 0x8000
  }

  lemma UlApplyInRange(st: UlState, ie: Ie)
    requires UlInRange(st) && InRange(ie)
    ensures UlInRange(UlApply(st, ie))
  {
    hide PlmnFits, AllBelow;
  }

  lemma {:induction false} UlDecodedInRange(tlli: u32, qos: QosProfile, ies: seq<Ie>)
    requires forall i | 0 <= i < |ies| :: InRange(ies[i])
    ensures UlInRange(UlOf(tlli, qos, ies)) && UlOf(tlli, qos, ies).qos == qos
  {
    hide InRange;
    if ies != [] {
      UlDecodedInRange(tlli, qos, ies[..|ies| - 1]);
      UlApplyInRange(UlOf(tlli, qos, ies[..|ies| - 1]), ies[|ies| - 1]);
    }
  }

  /**
   UL-UNITDATA round trip: the decoder accepts the whole message, recovers every
   field and hands up exactly the original LLC PDU with its cell, if and only if
   the message fits.
   */
  lemma UlRoundTrip(u: Ul, spare: seq<octet>)
    requires UlComplete(u) && |spare| == AlignmentCount(UL_CURSOR)
    ensures var m := UlOctets(u, spare);
            var out := DecodeUl(m, |m| - 1);
            out.Accepted? && out.index == |m| && UlDecoded(m, out.ies) == UlExpected(u) <==> UlFits(u)
  {
    hide Encoding, Concat, Loop, UlElements, UlHeader, QosProfileFrom, FromBe32, AllReadable, InRange, UlOf,
         Representable;
    var ies := UlElements(u, spare);
    var m := UlOctets(u, spare);
    var out := DecodeUl(m, |m| - 1);
    UlHeaderRead(u, Concat(ies));
    if UlFits(u) {
      UlElementsReadable(u, spare);
      UlReadsElements(u, ies);
      UlOfElements(u, spare);
    } else if out.Accepted? {
      LoopInRange(UlUnitdata, m[8..], 8, |m| - 1, []);
      assert out == Loop(UlUnitdata, m[8..], 8, |m| - 1, []);
      UlDecodedInRange(FromBe32(m[1..5]), QosProfileFrom(m[5..8]), out.ies);
      var st := UlDecoded(m, out.ies);
      assert |st.sent| > 0 ==> |st.sent[0].pdu| < 0x8000;
    }
  }

  lemma UlReadsElements(u: Ul, ies: seq<Ie>)
    requires UlComplete(u) && AllReadable(UlUnitdata, ies) && AllEncodable(ies)
    ensures var m := UlHeader(u) + Concat(ies);
            DecodeUl(m, |m| - 1) == Accepted(ies, |m|)
  {
    hide Encoding, Representable, Concat, Loop, UlHeader, AllReadable, AllEncodable, NoRaCap, SeenAll, FromBe32,
         QosProfileFrom;
    var m := UlHeader(u) + Concat(ies);
    UlHeaderRead(u, Concat(ies));
    assert m[8..] == Concat(ies) + [];
    NeitherHasRaCap(UlUnitdata, ies);
    SeenAllIsIdentity(ies);
    LoopReadsAll(UlUnitdata, ies, [], 8, |m| - 1, []);
    assert [] + ies == ies;
    LoopEnds(UlUnitdata, [], |m|, |m| - 1, ies);
  }

  // ----- DL-UNITDATA -----

  /** In-range fields; the capability flags may be anything. */
  predicate DlReadable(d: Dl)
    requires DlComplete(d)
  {
    && d.qos.value.precedence < 8
    && (d.raCap.Some? ==> Representable(Seen(IeRaCap(d.raCap.value))))
    && (d.drx.Some? ==> d.drx.value.nonDrxTimer < 128)
    && (d.imsi.Some? ==> |d.imsi.value| >= 1 && Representable(IeImsi(d.imsi.value)))
    && |d.pdu| < 0x8000
  }

  /** The record that reaches the queue: the message without its capability flags. */
  function DlSeen(d: Dl): Dl
  {
    d.(raCap := if d.raCap.Some? then Some(Cleared(d.raCap.value)) else None)
  }

  function DlFixed(d: Dl): Dl
  {
    EMPTY_DL.(tlli := d.tlli, qos := d.qos, params := d.params, lifetime := d.lifetime)
  }

  /** The fixed part is read back whatever follows it. */
  lemma FixedPartSizes(params: QosParams, lifetime: u16)
    ensures |Encoding(IeQosParams(params))| == 7 && |Encoding(IePduLifetime(lifetime))| == 4
  {
  }

  lemma DlHeaderParts(d: Dl, rest: seq<octet>)
    requires DlComplete(d)
    ensures var m := DlHeader(d) + rest;
            var params, lifetime := Encoding(IeQosParams(d.params.value)), Encoding(IePduLifetime(d.lifetime.value));
            && m[0] == PDU_DL_UNITDATA && m[1..5] == Be32(d.tlli.value) && m[5..8] == QosProfileOctets(d.qos.value)
            && m[8..] == params + (lifetime + rest) && m[15..] == lifetime + rest && m[DL_CURSOR..] == rest
  {
    hide QosProfileOctets, Be32, Encoding;
    var m := DlHeader(d) + rest;
    FixedPartSizes(d.params.value, d.lifetime.value);
    assert m[8..] == Encoding(IeQosParams(d.params.value)) + (Encoding(IePduLifetime(d.lifetime.value)) + rest);
    assert m[15..] == m[8..][7..];
    assert m[DL_CURSOR..] == m[15..][4..];
  }

  lemma DlHeaderRead(d: Dl, rest: seq<octet>)
    requires DlComplete(d) && d.qos.value.precedence < 8
    ensures var m := DlHeader(d) + rest;
            m[0] == PDU_DL_UNITDATA && m[DL_CURSOR..] == rest && ReadDlFixed(m) == Got(DlFixed(d), DL_CURSOR)
  {
    hide FromBe32, QosProfileFrom, QosProfileOctets, QosParamsFrom, QosParamsOctets, DlHeader, Be32, Tlv;
    var m, lifetime := DlHeader(d) + rest, Encoding(IePduLifetime(d.lifetime.value));
    DlHeaderParts(d, rest);
    Be32RoundTrip(d.tlli.value);
    QosRoundTrip(d.qos.value);
    assert ReadQosParams(m[8..]) == Got(d.params.value, 7) by {
      FixedRoundTrip(IEI_QOS_PARAMS, 5, QosParamsOctets(d.params.value), lifetime + rest, Exactly(5));
      QosParamsValueRoundTrip(d.params.value);
    }
    assert ReadPduLifetime(m[15..]) == Got(d.lifetime.value, 4) by {
      FixedRoundTrip(IEI_PDU_LIFETIME, 2, Be16(d.lifetime.value), rest, Exactly(2));
    }
  }

  lemma DlOfWith(start: Dl, ies: seq<Ie>, o: Option<Ie>)
    ensures DlOf(start, With(ies, o)) == if o.None? then DlOf(start, ies) else DlApply(DlOf(start, ies), o.value)
  {
    if o.Some? {
      assert (ies + [o.value])[..|ies|] == ies;
    }
  }

  lemma SeenAllWith(ies: seq<Ie>, o: Option<Ie>)
    ensures SeenAll(With(ies, o)) == With(SeenAll(ies), if o.Some? then Some(Seen(o.value)) else None)
  {
    hide Seen;
    if o.Some? {
      SeenAllSplit(ies, [o.value]);
      assert SeenAll([o.value]) == [Seen(o.value)] + SeenAll([]);
    }
  }

  lemma DlStep(start: Dl, ies: seq<Ie>, o: Option<Ie>)
    ensures DlOf(start, SeenAll(With(ies, o)))
         == if o.None? then DlOf(start, SeenAll(ies)) else DlApply(DlOf(start, SeenAll(ies)), Seen(o.value))
  {
    hide Seen, With, DlApply;
    SeenAllWith(ies, o);
    DlOfWith(start, SeenAll(ies), if o.Some? then Some(Seen(o.value)) else None);
  }

  lemma DlFirstCollected(d: Dl)
    requires DlComplete(d) && d.priority.None?
    ensures DlOf(DlFixed(d), SeenAll(DlFirstOptions(d)))
         == DlState(DlFixed(d).(raCap := DlSeen(d).raCap, drx := d.drx), [])
  {
    hide With, Cleared, AllEncodable;
    var s := DlFixed(d);
    var r := DlSeen(d);
    assert DlOf(s, SeenAll([])) == DlState(s, []);
    hide DlOf, SeenAll;
    var e1 := With([], RaCapSlot(d.raCap));
    assert DlOf(s, SeenAll(e1)) == DlState(s.(raCap := r.raCap), []) by { DlStep(s, [], RaCapSlot(d.raCap)); }
    var e2 := With(e1, PrioritySlot(d.priority));
    assert DlOf(s, SeenAll(e2)) == DlState(s.(raCap := r.raCap), []) by { DlStep(s, e1, PrioritySlot(d.priority)); }
    DlStep(s, e2, DrxSlot(d.drx));
  }

  /** Without a priority element the options are all read, and they build up the record. */
  lemma DlOptionsCollected(d: Dl)
    requires DlComplete(d) && DlReadable(d) && d.priority.None? && DlEncodable(d)
    ensures DlOf(DlFixed(d), SeenAll(DlOptions(d))) == DlState(DlSeen(d).(lsaInfo := None, pdu := []), [])
  {
    hide With, Cleared, AllEncodable, DlOf, SeenAll, DlReadable;
    var s := DlFixed(d);
    var r := DlSeen(d);
    DlFirstCollected(d);
    var e3 := DlFirstOptions(d);
    var e4 := With(e3, ImsiSlot(d.imsi));
    assert DlOf(s, SeenAll(e4)) == DlState(s.(raCap := r.raCap, drx := d.drx, imsi := d.imsi), []) by {
      DlStep(s, e3, ImsiSlot(d.imsi));
    }
    DlStep(s, e4, TlliSlot(d.tlliOld));
  }

  lemma DlOptionsReadable(d: Dl)
    requires DlComplete(d) && DlReadable(d) && d.priority.None? && DlEncodable(d)
    ensures AllReadable(DlUnitdata, DlOptions(d))
  {
    hide With, AllReadable, Cleared, AllFit, AllBelow;
    assert AllReadable(DlUnitdata, []) by { NoneReadable(DlUnitdata); }
    var e1 := With([], RaCapSlot(d.raCap));
    AllReadableWith(DlUnitdata, [], RaCapSlot(d.raCap));
    var e2 := With(e1, PrioritySlot(d.priority));
    AllReadableWith(DlUnitdata, e1, PrioritySlot(d.priority));
    var e3 := With(e2, DrxSlot(d.drx));
    AllReadableWith(DlUnitdata, e2, DrxSlot(d.drx));
    var e4 := With(e3, ImsiSlot(d.imsi));
    AllReadableWith(DlUnitdata, e3, ImsiSlot(d.imsi));
    AllReadableWith(DlUnitdata, e4, TlliSlot(d.tlliOld));
  }

  lemma NoneReadable(pdu: Pdu)
    ensures AllReadable(pdu, [])
  {
  }

  /** The loop gets as far as an element it cannot read, and no further. */
  lemma LoopMeets(pdu: Pdu, done: seq<Ie>, bad: Ie, rest: seq<octet>, index: nat, len: int)
    requires AllReadable(pdu, done) && AllEncodable(done) && (bad.IeLsaInfo? || bad.IePriority?)
    requires index + |Concat(done)| + |Encoding(bad)| <= len + 1
    ensures Loop(pdu, Concat(done) + (Encoding(bad) + rest), index, len, [])
         == if Handles(pdu, IeiOf(bad)) then Stuck(SeenAll(done)) else Rejected(SeenAll(done))
  {
    hide Encoding, ReadIe, AllReadable, Handles;
    LoopReadsAll(pdu, done, Encoding(bad) + rest, index, len, []);
    assert [] + SeenAll(done) == SeenAll(done);
    EncodingStartsWithIei(bad);
    assert (Encoding(bad) + rest)[0] == IeiOf(bad);
    NeverRead(bad, rest);
  }

  lemma DlLoop(d: Dl, elements: seq<Ie>)
    requires DlComplete(d) && d.qos.value.precedence < 8 && AllEncodable(elements)
    ensures var m := DlHeader(d) + Concat(elements);
            && ReadDlFixed(m) == Got(DlFixed(d), DL_CURSOR)
            && DecodeDl(m, |m| - 1) == Loop(DlUnitdata, Concat(elements), DL_CURSOR, |m| - 1, [])
  {
    hide DlHeader, Concat, Loop, ReadDlFixed;
    DlHeaderRead(d, Concat(elements));
  }

  lemma DlReadablePrecedence(d: Dl)
    requires DlComplete(d) && DlReadable(d)
    ensures d.qos.value.precedence < 8
  {
  }

  /** The options up to and including a priority element, with what precedes it readable. */
  lemma DlPriorityMet(d: Dl, spare: seq<octet>)
    requires DlComplete(d) && DlReadable(d) && DlEncodable(d) && |spare| == AlignmentCount(DlLsaCursor(d))
    requires d.priority.Some?
    ensures var e1 := With([], RaCapSlot(d.raCap));
            && AllReadable(DlUnitdata, e1) && AllEncodable(e1)
            && e1 + [IePriority(d.priority.value)] <= DlElements(d, spare)
  {
    hide AllReadable, Cleared, AllFit, AllBelow;
    assert AllReadable(DlUnitdata, []) by { NoneReadable(DlUnitdata); }
    AllReadableWith(DlUnitdata, [], RaCapSlot(d.raCap));
    var e1 := With([], RaCapSlot(d.raCap));
    var e2 := With(e1, PrioritySlot(d.priority));
    assert e2 == e1 + [IePriority(d.priority.value)];
    hide With;
    assert e2 <= DlOptions(d);
    assert DlOptions(d) <= DlElements(d, spare);
  }

  lemma DlLsaInfoMet(d: Dl, spare: seq<octet>)
    requires DlComplete(d) && DlReadable(d) && DlEncodable(d) && |spare| == AlignmentCount(DlLsaCursor(d))
    requires d.priority.None? && d.lsaInfo.Some?
    ensures var done := With(DlOptions(d), AlignmentSlot(true, DlLsaCursor(d), spare));
            && AllReadable(DlUnitdata, done) && AllEncodable(done)
            && done + [IeLsaInfo(d.lsaInfo.value.lsaOnly, d.lsaInfo.value.entries)] <= DlElements(d, spare)
  {
    hide AllReadable, DlOptions, DlReadable, Concat;
    DlOptionsReadable(d);
    AllReadableWith(DlUnitdata, DlOptions(d), AlignmentSlot(true, DlLsaCursor(d), spare));
  }

  /** A prefix of the elements ending in one that cannot be read decides the outcome. */
  lemma DlStopsAt(d: Dl, elements: seq<Ie>, done: seq<Ie>, bad: Ie)
    requires DlComplete(d) && DlReadable(d) && AllEncodable(elements)
    requires AllReadable(DlUnitdata, done) && AllEncodable(done) && (bad.IeLsaInfo? || bad.IePriority?)
    requires done + [bad] <= elements
    ensures var m := DlHeader(d) + Concat(elements);
            DecodeDl(m, |m| - 1) == if bad.IeLsaInfo? then Stuck(SeenAll(done)) else Rejected(SeenAll(done))
  {
    hide DlHeader, Concat, Loop, AllReadable, DlReadable, Encoding, SeenAll, DecodeDl, AllEncodable, Handles;
    var m := DlHeader(d) + Concat(elements);
    DlReadablePrecedence(d);
    DlLoop(d, elements);
    var rest := SplitBefore(elements, done, bad);
    LoopMeets(DlUnitdata, done, bad, rest, DL_CURSOR, |m| - 1);
    assert Handles(DlUnitdata, IeiOf(bad)) <==> bad.IeLsaInfo? by { PriorityHasNoCase(bad); }
  }

  lemma PriorityHasNoCase(ie: Ie)
    requires ie.IeLsaInfo? || ie.IePriority?
    ensures Handles(DlUnitdata, IeiOf(ie)) <==> ie.IeLsaInfo?
  {
  }

  lemma SplitBefore(elements: seq<Ie>, done: seq<Ie>, next: Ie) returns (rest: seq<octet>)
    requires AllEncodable(elements) && AllEncodable(done) && Encodable(next) && done + [next] <= elements
    ensures Concat(elements) == Concat(done) + (Encoding(next) + rest)
  {
    hide Concat, Encoding;
    var tail := elements[|done| + 1..];
    assert elements == done + ([next] + tail);
    ConcatHead(next, tail);
    ConcatSplit(done, [next] + tail);
    rest := Concat(tail);
  }

  lemma ConcatHead(ie: Ie, tail: seq<Ie>)
    requires Encodable(ie) && AllEncodable(tail)
    ensures AllEncodable([ie] + tail) && Concat([ie] + tail) == Encoding(ie) + Concat(tail)
  {
    hide Encoding;
    assert ([ie] + tail)[1..] == tail;
  }

  lemma DlStartsEmpty(start: Dl)
    ensures DlOf(start, SeenAll([])) == DlState(start, [])
  {
  }

  /** The LLC PDU comes last, so the queued record has all the elements. */
  lemma DlAccepted(d: Dl, spare: seq<octet>)
    requires DlComplete(d) && DlReadable(d) && DlEncodable(d) && |spare| == AlignmentCount(DlLsaCursor(d))
    requires d.priority.None? && d.lsaInfo.None?
    ensures var m := DlOctets(d, spare);
            var out := DecodeDl(m, |m| - 1);
            && |m| > 0 && ReadDlFixed(m).Got?
            && out.Accepted? && out.index == |m|
            && DlDecoded(m, out.ies) == DlState(DlSeen(d), [DlSeen(d)])
  {
    hide DlHeader, Concat, Loop, AllReadable, DlOptions, ReadDlFixed, DlOf, DlLsaCursor, SeenAll, Cleared;
    var options, llc := DlOptions(d), Some(IeLlcPdu(d.pdu));
    var elements := DlElements(d, spare);
    assert elements == With(options, llc);
    hide With, DlElements;
    var m := DlOctets(d, spare);
    DlOptionsReadable(d);
    DlOptionsCollected(d);
    AllReadableWith(DlUnitdata, options, llc);
    DlStep(DlFixed(d), options, llc);
    DlReadablePrecedence(d);
    DlLoop(d, elements);
    assert Concat(elements) + [] == Concat(elements);
    LoopReadsAll(DlUnitdata, elements, [], DL_CURSOR, |m| - 1, []);
    assert [] + SeenAll(elements) == SeenAll(elements);
    LoopEnds(DlUnitdata, [], |m|, |m| - 1, SeenAll(elements));
  }

  /**
   DL-UNITDATA to the queue.  Without priority and LSA information the decoder
   accepts the whole message and queues one record: the message itself, short
   of its capability flags.  With a priority element it returns FALSE, and with
   LSA information it never returns, before any LLC PDU is reached.
   */
  lemma DlOutcome(d: Dl, spare: seq<octet>)
    requires DlComplete(d) && DlReadable(d) && DlEncodable(d) && |spare| == AlignmentCount(DlLsaCursor(d))
    ensures var m := DlOctets(d, spare);
            var out := DecodeDl(m, |m| - 1);
            && |m| > 0 && ReadDlFixed(m).Got?
            && (d.priority.Some? ==> out.Rejected? && DlDecoded(m, out.ies).queued == [])
            && (d.priority.None? && d.lsaInfo.Some? ==> out.Stuck? && DlDecoded(m, out.ies).queued == [])
            && (d.priority.None? && d.lsaInfo.None? ==>
                  && out.Accepted? && out.index == |m|
                  && DlDecoded(m, out.ies) == DlState(DlSeen(d), [DlSeen(d)]))
  {
    hide DlHeader, Concat, Loop, AllReadable, DlReadable, DlElements, DlOptions, With, ReadDlFixed, DlOf, DlLsaCursor,
         SeenAll, DlEncodable, DecodeDl, DlSeen, DlFixed;
    var elements := DlElements(d, spare);
    DlReadablePrecedence(d);
    DlLoop(d, elements);
    if d.priority.Some? {
      DlPriorityMet(d, spare);
      var done := With([], RaCapSlot(d.raCap));
      DlStopsAt(d, elements, done, IePriority(d.priority.value));
      DlStartsEmpty(DlFixed(d));
      DlStep(DlFixed(d), [], RaCapSlot(d.raCap));
    } else if d.lsaInfo.Some? {
      DlLsaInfoMet(d, spare);
      var done := With(DlOptions(d), AlignmentSlot(true, DlLsaCursor(d), spare));
      DlStopsAt(d, elements, done, IeLsaInfo(d.lsaInfo.value.lsaOnly, d.lsaInfo.value.entries));
      DlStep(DlFixed(d), DlOptions(d), AlignmentSlot(true, DlLsaCursor(d), spare));
      DlOptionsCollected(d);
    } else {
      DlAccepted(d, spare);
    }
  }

  // ----- when a downlink message survives unchanged -----

  predicate DlFits(d: Dl)
    requires DlComplete(d)
  {
    && DlReadable(d) && d.priority.None? && d.lsaInfo.None?
    && (d.raCap.Some? ==> AllFit(d.raCap.value))
  }

  lemma {:induction false} ClearedIsIdentity(cs: seq<RaCapability>)
    ensures AllFit(cs) ==> Cleared(cs) == cs && AllFit(Cleared(cs))
  {
    if cs != [] {
      ClearedIsIdentity(cs[1..]);
      AllFitHeadAndTail(cs);
    }
  }

  /** What a queued record satisfies, whatever the octets were. */
  predicate DlInRange(d: Dl)
  {
    && (d.qos.Some? ==> d.qos.value.precedence < 8)
    && (d.raCap.Some? ==> Representable(IeRaCap(d.raCap.value)))
    && (d.drx.Some? ==> d.drx.value.nonDrxTimer < 128)
    && (d.imsi.Some? ==> AllBelow(d.imsi.value, 16))
    && |d.pdu| < 0x8000
    && d.priority.None? && d.lsaInfo.None?
  }

  lemma DlApplyInRange(st: DlState, ie: Ie)
    requires DlInRange(st.record) && InRange(ie)
    requires forall i | 0 <= i < |st.queued| :: DlInRange(st.queued[i])
    ensures var next := DlApply(st, ie);
            DlInRange(next.record) && forall i | 0 <= i < |next.queued| :: DlInRange(next.queued[i])
  {
    hide AllFit, AllBelow, PlmnFits;
  }

  lemma {:induction false} DlDecodedInRange(start: Dl, ies: seq<Ie>)
    requires DlInRange(start) && forall i | 0 <= i < |ies| :: InRange(ies[i])
    ensures var st := DlOf(start, ies);
            DlInRange(st.record) && forall i | 0 <= i < |st.queued| :: DlInRange(st.queued[i])
  {
    hide InRange, DlInRange, DlApply;
    if ies != [] {
      DlDecodedInRange(start, ies[..|ies| - 1]);
      DlApplyInRange(DlOf(start, ies[..|ies| - 1]), ies[|ies| - 1]);
    }
  }

  lemma DlFixedInRange(m: seq<octet>)
    requires |m| > 0 && ReadDlFixed(m).Got?
    ensures DlInRange(ReadDlFixed(m).value)
  {
    hide FromBe32, ReadQosParams, ReadPduLifetime;
  }

  // ----- an even number of IMSI digits -----

  /** Octets that an element takes up at least. */
  function Weight(ies: seq<Ie>): nat
  {
    if ies == [] then 0
    else
      var last := ies[|ies| - 1];
      Weight(ies[..|ies| - 1]) + if last.IeLlcPdu? then 2 + |last.pdu| else 2
  }

  lemma WeightNothing()
    ensures Weight([]) == 0
  {
  }

  lemma WeightOne(ie: Ie)
    ensures Weight([ie]) == if ie.IeLlcPdu? then 2 + |ie.pdu| else 2
  {
    assert [ie][..0] == [];
  }

  lemma {:induction false} WeightConcat(a: seq<Ie>, b: seq<Ie>)
    ensures Weight(a + b) == Weight(a) + Weight(b)
  {
    if b == [] {
      assert a + b == a;
    } else {
      assert (a + b)[..|a + b| - 1] == a + b[..|b| - 1];
      WeightConcat(a, b[..|b| - 1]);
    }
  }

  lemma ReadWeight(s: seq<octet>)
    ensures var r := ReadIe(s); r.Got? ==> Weight([r.value]) <= r.used && Weight([r.value]) <= |s|
  {
    hide Weight, ReadFixedIe, ReadImsi, ReadLsaIdList, ReadRaCap, ReadLength;
    var r := ReadIe(s);
    if r.Got? {
      WeightOne(r.value);
      if HasFixedSize(s[0]) {
        FixedIsNoPdu(s);
      }
    }
  }

  lemma FixedIsNoPdu(s: seq<octet>)
    requires |s| > 0 && HasFixedSize(s[0])
    ensures ReadFixedIe(s).Got? ==> !ReadFixedIe(s).value.IeLlcPdu?
  {
    hide ReadBvci, ReadCellId, ReadDrx, ReadLocationArea, ReadPduLifetime, ReadQosParams, ReadQosProfile,
         ReadRoutingArea, ReadTlli, ReadTmsi;
  }

  /** What a loop decodes from `s` takes up no more than `s`. */
  lemma {:induction false} LoopWeight(pdu: Pdu, s: seq<octet>, index: nat, len: int, acc: seq<Ie>)
    ensures var out := Loop(pdu, s, index, len, acc);
            !out.OutOfBuffer? ==> acc <= out.ies && Weight(out.ies[|acc|..]) <= |s|
    decreases len - index
  {
    hide ReadIe, Handles, Weight;
    assert acc[|acc|..] == [];
    WeightNothing();
    if index < len && |s| > 0 && Handles(pdu, s[0]) && ReadIe(s).Got? {
      var Got(ie, used) := ReadIe(s);
      ReadWeight(s);
      LoopWeight(pdu, Drop(s, used), index + used, len, acc + [ie]);
      var out := Loop(pdu, s, index, len, acc);
      if !out.OutOfBuffer? {
        var more := out.ies[|acc| + 1..];
        assert out.ies[|acc|..] == [ie] + more;
        WeightConcat([ie], more);
      }
    }
  }

  /** What the IMSI `x` and the records queued with it have cost. */
  predicate Costs(st: DlState, x: seq<octet>, weight: nat)
  {
    && (st.record.imsi == Some(x) ==> weight >= 2)
    && forall q :: q in st.queued && q.imsi == Some(x) ==> weight >= 4 + |q.pdu|
  }

  lemma NextCosts(st: DlState, x: seq<octet>, weight: nat, ie: Ie)
    requires Costs(st, x, weight)
    ensures Costs(DlApply(st, ie), x, weight + if ie.IeLlcPdu? then 2 + |ie.pdu| else 2)
  {
    hide MergeDrx;
  }

  lemma WeightLast(ies: seq<Ie>)
    requires ies != []
    ensures var last := ies[|ies| - 1];
            Weight(ies) == Weight(ies[..|ies| - 1]) + if last.IeLlcPdu? then 2 + |last.pdu| else 2
  {
  }

  lemma DlOfLast(start: Dl, front: seq<Ie>, more: seq<Ie>)
    requires more != []
    ensures DlOf(start, front + more) == DlApply(DlOf(start, front + more[..|more| - 1]), more[|more| - 1])
  {
    hide DlApply;
    assert (front + more)[..|front + more| - 1] == front + more[..|more| - 1];
  }

  /** A queued record with an IMSI that was not there before costs that IMSI and its own PDU. */
  lemma {:induction false} QueuedWeight(start: Dl, front: seq<Ie>, more: seq<Ie>, x: seq<octet>)
    requires DlOf(start, front).queued == [] && DlOf(start, front).record.imsi != Some(x)
    ensures Costs(DlOf(start, front + more), x, Weight(more))
  {
    hide DlOf, DlApply, Weight;
    if more == [] {
      assert front + more == front;
    } else {
      hide Costs;
      QueuedWeight(start, front, more[..|more| - 1], x);
      NextCosts(DlOf(start, front + more[..|more| - 1]), x, Weight(more[..|more| - 1]), more[|more| - 1]);
      DlOfLast(start, front, more);
      WeightLast(more);
    }
  }

  lemma DlFirstReadable(d: Dl)
    requires DlComplete(d) && d.priority.None?
    requires d.raCap.Some? ==> Representable(Seen(IeRaCap(d.raCap.value)))
    requires d.drx.Some? ==> d.drx.value.nonDrxTimer < 128
    ensures AllReadable(DlUnitdata, DlFirstOptions(d)) && AllEncodable(DlFirstOptions(d))
  {
    hide With, AllReadable, Cleared, AllFit;
    assert AllReadable(DlUnitdata, []) by { NoneReadable(DlUnitdata); }
    var e1 := With([], RaCapSlot(d.raCap));
    AllReadableWith(DlUnitdata, [], RaCapSlot(d.raCap));
    var e2 := With(e1, PrioritySlot(d.priority));
    AllReadableWith(DlUnitdata, e1, PrioritySlot(d.priority));
    AllReadableWith(DlUnitdata, e2, DrxSlot(d.drx));
  }

  /** What follows the IMSI of a message without LSA information. */
  function DlTail(d: Dl): (r: seq<Ie>)
    ensures AllEncodable(r)
  {
    With(With([], TlliSlot(d.tlliOld)), Some(IeLlcPdu(d.pdu)))
  }

  lemma DlSplitAtImsi(d: Dl, spare: seq<octet>)
    requires DlEncodable(d) && |spare| == AlignmentCount(DlLsaCursor(d)) && d.imsi.Some? && d.lsaInfo.None?
    requires AllEncodable(DlFirstOptions(d))
    ensures Concat(DlElements(d, spare))
         == Concat(DlFirstOptions(d)) + (Encoding(IeImsi(d.imsi.value)) + Concat(DlTail(d)))
  {
    hide Encoding, Concat, DlLsaCursor, AllEncodable;
    var pre, imsi, tail := DlFirstOptions(d), IeImsi(d.imsi.value), DlTail(d);
    ElementsAreFirstImsiTail(d, spare);
    ConcatHead(imsi, tail);
    ConcatSplit(pre, [imsi] + tail);
  }

  lemma WithSome(ies: seq<Ie>, ie: Ie)
    ensures With(ies, Some(ie)) == ies + [ie] && With(ies, None) == ies
  {
  }

  lemma Assoc<T>(a: seq<T>, b: seq<T>, c: seq<T>)
    ensures a + b + c == a + (b + c)
  {
  }

  lemma ElementsAreFirstImsiTail(d: Dl, spare: seq<octet>)
    requires DlEncodable(d) && |spare| == AlignmentCount(DlLsaCursor(d)) && d.imsi.Some? && d.lsaInfo.None?
    ensures DlElements(d, spare) == DlFirstOptions(d) + ([IeImsi(d.imsi.value)] + DlTail(d))
  {
    hide DlLsaCursor, AllEncodable, Concat, Encoding, With, DlFirstOptions;
    var pre, imsi, llc := DlFirstOptions(d), [IeImsi(d.imsi.value)], IeLlcPdu(d.pdu);
    WithSome(pre, IeImsi(d.imsi.value));
    WithSome(DlOptions(d), llc);
    if d.tlliOld.Some? {
      var tlli := IeTlli(d.tlliOld.value);
      WithSome(pre + imsi, tlli);
      WithSome([], tlli);
      WithSome([tlli], llc);
      assert [] + [tlli] == [tlli];
      Assoc(pre, imsi, [tlli]);
      Assoc(pre, imsi + [tlli], [llc]);
      Assoc(imsi, [tlli], [llc]);
    } else {
      WithSome(pre + imsi, llc);
      WithSome([], llc);
      assert [] + [llc] == [llc];
      Assoc(pre, imsi, [llc]);
    }
  }

  lemma DlTailOctets(d: Dl)
    ensures var t := Concat(DlTail(d));
            && |t| >= 2
            && (d.tlliOld.Some? ==> |t| >= 3 && t[1] == 132)
            && (d.tlliOld.None? ==> |t| <= 3 + |d.pdu|)
  {
    hide Encoding, Concat;
    var llc := IeLlcPdu(d.pdu);
    LlcPduSize(d.pdu);
    if d.tlliOld.Some? {
      var tlli := IeTlli(d.tlliOld.value);
      assert DlTail(d) == [tlli] + [llc];
      ConcatHead(tlli, [llc]);
      TlliLength(d.tlliOld.value);
    } else {
      assert DlTail(d) == [llc] + [];
      ConcatHead(llc, []);
      NothingConcat();
    }
  }

  lemma LlcPduSize(pdu: seq<octet>)
    ensures |Encoding(IeLlcPdu(pdu))| <= 3 + |pdu|
  {
  }

  lemma TlliLength(t: u32)
    ensures |Encoding(IeTlli(t))| == 6 && Encoding(IeTlli(t))[1] == 132
  {
    hide Be32;
  }

  lemma NothingConcat()
    ensures AllEncodable([]) && Concat([]) == []
  {
  }

  /** One turn of the downlink loop at an IMSI. */
  lemma LoopReads(s: seq<octet>, index: nat, len: int, acc: seq<Ie>, ie: Ie, used: nat)
    requires |s| > 0 && s[0] == IEI_IMSI && index < len && ReadIe(s) == Got(ie, used) && 2 <= used <= |s|
    ensures Loop(DlUnitdata, s, index, len, acc) == Loop(DlUnitdata, s[used..], index + used, len, acc + [ie])
  {
    hide ReadIe, Handles, Drop;
    assert Handles(DlUnitdata, s[0]) by { ImsiHandled(); }
    assert Drop(s, used) == s[used..] by { DropIsSuffix(s, used); }
  }

  lemma ImsiHandled()
    ensures Handles(DlUnitdata, IEI_IMSI)
  {
  }

  lemma DropIsSuffix(s: seq<octet>, n: nat)
    requires n <= |s|
    ensures Drop(s, n) == s[n..]
  {
  }

  /** Behind an even IMSI the loop goes on one octet late, with two digits too many. */
  lemma LoopPastEvenImsi(d: seq<octet>, tail: seq<octet>, index: nat, len: int, acc: seq<Ie>)
    requires |d| >= 1 && |d| / 2 + 1 < 0x8000 && |d| % 2 == 0
    requires |tail| >= 2 && len == index + |Encoding(IeImsi(d))| + |tail| - 1
    ensures exists v: seq<octet> :: |v| == |d| + 2
              && Loop(DlUnitdata, Encoding(IeImsi(d)) + tail, index, len, acc)
              == Loop(DlUnitdata, tail[1..], index + |Encoding(IeImsi(d))| + 1, len, acc + [IeImsi(v)])
  {
    hide Encoding, ReadIe, Loop;
    var e := Encoding(IeImsi(d));
    EncodingStartsWithIei(IeImsi(d));
    var v := EvenImsiDigits(d, tail);
    LoopReads(e + tail, index, len, acc, IeImsi(v), |e| + 1);
    assert (e + tail)[|e| + 1..] == tail[1..];
  }

  lemma EvenImsiDigits(d: seq<octet>, tail: seq<octet>) returns (v: seq<octet>)
    requires |d| >= 1 && |d| / 2 + 1 < 0x8000 && |d| % 2 == 0 && |tail| > 0
    ensures |v| == |d| + 2 && ReadIe(Encoding(IeImsi(d)) + tail) == Got(IeImsi(v), |Encoding(IeImsi(d))| + 1)
  {
    hide Encoding, ReadImsi, ReadFixedIe;
    EncodingStartsWithIei(IeImsi(d));
    ImsiRead(d, tail);
    v := ReadImsi(Encoding(IeImsi(d)) + tail).value;
  }

  /** The case in which everything but the IMSI could be read as it is. */
  lemma EvenImsiMisleads(d: Dl, spare: seq<octet>)
    requires DlComplete(d) && DlEncodable(d) && |spare| == AlignmentCount(DlLsaCursor(d))
    requires d.imsi.Some? && |d.imsi.value| % 2 == 0 && |d.imsi.value| / 2 + 1 < 0x8000
    requires d.priority.None? && d.lsaInfo.None? && d.qos.value.precedence < 8
    requires d.raCap.Some? ==> Representable(Seen(IeRaCap(d.raCap.value)))
    requires d.drx.Some? ==> d.drx.value.nonDrxTimer < 128
    ensures var m := DlOctets(d, spare);
            var out := DecodeDl(m, |m| - 1);
            |m| > 0 && !out.OutOfBuffer? && ReadDlFixed(m).Got? ==> d !in DlDecoded(m, out.ies).queued
  {
    hide DlHeader, DlElements, DlFirstOptions, DlTail, Concat, Encoding, Loop, AllReadable, ReadDlFixed, DecodeDl,
         DlLsaCursor, SeenAll, DlOf, Representable, Weight, AllEncodable, DlFixed, DlSeen;
    var pre, digits, tail := DlFirstOptions(d), d.imsi.value, Concat(DlTail(d));
    var m, elements := DlOctets(d, spare), DlElements(d, spare);
    var out, len := DecodeDl(m, |m| - 1), |m| - 1;
    DlFirstReadable(d);
    DlSplitAtImsi(d, spare);
    DlLoop(d, elements);
    DlTailOctets(d);
    var e := Encoding(IeImsi(digits));
    LoopReadsAll(DlUnitdata, pre, e + tail, DL_CURSOR, len, []);
    var seen, index := SeenAll(pre), DL_CURSOR + |Concat(pre)|;
    assert [] + seen == seen;
    LoopPastEvenImsi(digits, tail, index, len, seen);
    var v: seq<octet> :| |v| == |digits| + 2
      && Loop(DlUnitdata, e + tail, index, len, seen)
           == Loop(DlUnitdata, tail[1..], index + |e| + 1, len, seen + [IeImsi(v)]);
    if d.tlliOld.Some? {
      NotHandled(tail[1..], index + |e| + 1, len, seen + [IeImsi(v)]);
      DlFirstCollected(d);
      NothingQueued(DlFixed(d), seen, v);
    } else if !out.OutOfBuffer? {
      NothingBigEnough(d, v, tail[1..], index + |e| + 1, len, out);
    }
  }

  lemma NothingQueued(start: Dl, ies: seq<Ie>, v: seq<octet>)
    requires DlOf(start, ies).queued == []
    ensures DlOf(start, ies + [IeImsi(v)]).queued == []
  {
    assert (ies + [IeImsi(v)])[..|ies|] == ies;
  }

  lemma NotHandled(s: seq<octet>, index: nat, len: int, acc: seq<Ie>)
    requires |s| > 0 && s[0] == 132 && index < len
    ensures Loop(DlUnitdata, s, index, len, acc) == Rejected(acc)
  {
  }

  /** The octets left are too few for another IMSI and a PDU of the same size. */
  lemma NothingBigEnough(d: Dl, v: seq<octet>, s: seq<octet>, index: nat, len: int, out: Outcome)
    requires DlComplete(d) && d.priority.None? && d.imsi.Some? && |v| != |d.imsi.value| && |s| <= 2 + |d.pdu|
    requires out == Loop(DlUnitdata, s, index, len, SeenAll(DlFirstOptions(d)) + [IeImsi(v)]) && !out.OutOfBuffer?
    ensures d !in DlOf(DlFixed(d), out.ies).queued
  {
    hide DlFirstOptions, Loop, SeenAll, DlSeen, DlFixed, Weight;
    var start, seen := DlFixed(d), SeenAll(DlFirstOptions(d));
    var acc := seen + [IeImsi(v)];
    LoopWeight(DlUnitdata, s, index, len, acc);
    DlFirstCollected(d);
    assert acc[..|acc| - 1] == seen;
    assert DlOf(start, acc) == DlApply(DlOf(start, seen), IeImsi(v));
    var more := out.ies[|acc|..];
    assert out.ies == acc + more;
    hide DlOf;
    QueuedWeight(start, acc, more, d.imsi.value);
    var queued := DlOf(start, out.ies).queued;
    assert forall q :: q in queued && q.imsi == d.imsi ==> |q.pdu| < |d.pdu|;
  }

  /** Every record the decoder queues, however the loop ends, is in range. */
  lemma QueueInRange(m: seq<octet>, len: int)
    requires |m| > 0 && ReadDlFixed(m).Got? && m[0] == PDU_DL_UNITDATA
    ensures var out := DecodeDl(m, len);
            !out.OutOfBuffer? ==>
              forall i | 0 <= i < |DlDecoded(m, out.ies).queued| :: DlInRange(DlDecoded(m, out.ies).queued[i])
  {
    hide Loop, ReadDlFixed, DlOf, InRange, DlInRange;
    var Got(start, index) := ReadDlFixed(m);
    var out := DecodeDl(m, len);
    LoopInRange(DlUnitdata, m[index..], index, len, []);
    assert out == Loop(DlUnitdata, m[index..], index, len, []);
    DlFixedInRange(m);
    if !out.OutOfBuffer? {
      DlDecodedInRange(start, out.ies);
    }
  }

  /**
   With an even number of IMSI digits the message itself is never among the
   queued records, whatever else it holds, whatever its payload makes the
   misaligned loop decode, and however the loop ends.
   */
  lemma EvenImsiNeverQueued(d: Dl, spare: seq<octet>)
    requires DlComplete(d) && DlEncodable(d) && |spare| == AlignmentCount(DlLsaCursor(d))
    requires d.imsi.Some? && |d.imsi.value| % 2 == 0 && |d.imsi.value| / 2 + 1 < 0x8000
    ensures var m := DlOctets(d, spare);
            var out := DecodeDl(m, |m| - 1);
            |m| > 0 && !out.OutOfBuffer? && ReadDlFixed(m).Got? ==> d !in DlDecoded(m, out.ies).queued
  {
    hide Loop, ReadDlFixed, DlLsaCursor, DlOf, DlElements, Concat, AllFit, AllBelow, Cleared, DecodeDl, Be32,
         QosProfileOctets;
    var m := DlOctets(d, spare);
    if DlInRange(d) {
      if d.raCap.Some? {
        ClearedIsIdentity(d.raCap.value);
      }
      EvenImsiMisleads(d, spare);
    } else if |m| > 0 && ReadDlFixed(m).Got? {
      QueueInRange(m, |m| - 1);
    }
  }

  /**
   For every message the encoder accepts: the queue receives exactly the
   message, and the cursor ends with it, if and only if the message has in-range
   fields, an odd number of IMSI digits if any, no capability flag, no priority
   and no LSA information.
   */
  lemma DlRoundTrip(d: Dl, spare: seq<octet>)
    requires DlComplete(d) && DlEncodable(d) && |spare| == AlignmentCount(DlLsaCursor(d))
    requires d.imsi.Some? ==> |d.imsi.value| / 2 + 1 < 0x8000
    ensures var m := DlOctets(d, spare);
            var out := DecodeDl(m, |m| - 1);
            && |m| > 0 && out.Accepted? && out.index == |m| && ReadDlFixed(m).Got?
            && DlDecoded(m, out.ies).queued == [d]
            <==> DlFits(d)
  {
    hide DlOctets, Loop, ReadDlFixed, DlLsaCursor, DlOf, InRange, AllFit, AllBelow, Cleared;
    var m := DlOctets(d, spare);
    var out := DecodeDl(m, |m| - 1);
    if DlFits(d) {
      if d.raCap.Some? {
        ClearedIsIdentity(d.raCap.value);
      }
      DlOutcome(d, spare);
    } else if |m| > 0 && out.Accepted? && ReadDlFixed(m).Got? && DlDecoded(m, out.ies).queued == [d] {
      QueueInRange(m, |m| - 1);
      assert DlInRange(DlDecoded(m, out.ies).queued[0]);
      if d.raCap.Some? {
        ClearedIsIdentity(d.raCap.value);
      }
      if d.imsi.Some? && |d.imsi.value| % 2 == 0 {
        EvenImsiNeverQueued(d, spare);
      }
    }
  }
}
