/**
 The three messages in numbers: what their octets are, which identifiers their
 loops know, and what any list of decoded elements leaves, repetitions included.
 */
module MessageFormat {
  import opened Octets
  import opened InformationElements
  import opened Pdus
  import opened WireFormat
  import opened MessageEncoder
  import opened UnitdataRoundTrip

  // ----- what the encoders write -----

  lemma LoopCases(iei: octet)
    ensures Handles(PagingPs, iei) <==> iei in [0x02, 0x04, 0x0a, 0x0d, 0x10, 0x18, 0x1b, 0x20]
    ensures Handles(UlUnitdata, iei) <==> iei in [0x00, 0x08, 0x0e, 0x26]
    ensures Handles(DlUnitdata, iei) <==> iei in [0x00, 0x0a, 0x0d, 0x0e, 0x13, 0x1f, 0x27]
  {
  }

  function Maybe(o: Option<Ie>): seq<octet>
    requires o.Some? ==> Encodable(o.value)
  {
    if o.Some? then Encoding(o.value) else []
  }

  lemma Maybes(drx: Option<Drx>, bvci: Option<u16>, la: Option<LocationArea>, ra: Option<RoutingArea>, area: bool,
               spare: octet, tmsi: Option<u32>, caps: Option<seq<RaCapability>>, priority: Option<octet>,
               tlli: Option<u32>)
    ensures Maybe(DrxSlot(drx)) == if drx.Some? then Encoding(IeDrx(drx.value)) else []
    ensures Maybe(BvciSlot(bvci)) == if bvci.Some? then Encoding(IeBvci(bvci.value)) else []
    ensures Maybe(LocationAreaSlot(la)) == if la.Some? then Encoding(IeLocationArea(la.value)) else []
    ensures Maybe(RoutingAreaSlot(ra)) == if ra.Some? then Encoding(IeRoutingArea(ra.value)) else []
    ensures Maybe(BssAreaSlot(area, spare)) == if area then Encoding(IeBssArea([spare])) else []
    ensures Maybe(TmsiSlot(tmsi)) == if tmsi.Some? then Encoding(IeTmsi(tmsi.value)) else []
    ensures Maybe(RaCapSlot(caps)) == if caps.Some? then Encoding(IeRaCap(caps.value)) else []
    ensures Maybe(PrioritySlot(priority)) == if priority.Some? then Encoding(IePriority(priority.value)) else []
    ensures Maybe(TlliSlot(tlli)) == if tlli.Some? then Encoding(IeTlli(tlli.value)) else []
  {
    hide Encoding;
  }

  lemma Behind(ies: seq<Ie>, o: Option<Ie>)
    requires AllEncodable(ies) && (o.Some? ==> Encodable(o.value))
    ensures AllEncodable(With(ies, o)) && Concat(With(ies, o)) == Concat(ies) + Maybe(o)
  {
    hide Encoding, Concat;
    AllEncodableConcatWith(ies, o);
  }

  /** PDU type 6, then the elements that are present in this order. */
  lemma PagingLayout(p: Paging, spare: octet)
    requires PagingComplete(p) && |p.imsi.value| >= 1
    ensures var m := PagingOctets(p, spare);
            && m[0] == 0x06
            && m[1..] == Encoding(IeImsi(p.imsi.value))
                         + (if p.drx.Some? then Encoding(IeDrx(p.drx.value)) else [])
                         + (if p.bvci.Some? then Encoding(IeBvci(p.bvci.value)) else [])
                         + (if p.la.Some? then Encoding(IeLocationArea(p.la.value)) else [])
                         + (if p.ra.Some? then Encoding(IeRoutingArea(p.ra.value)) else [])
                         + (if p.bssArea then Encoding(IeBssArea([spare])) else [])
                         + Encoding(IeQosProfile(p.qos.value))
                         + (if p.tmsi.Some? then Encoding(IeTmsi(p.tmsi.value)) else [])
  {
    hide Encoding, With, Concat, AllEncodable, Maybe;
    var qos := Some(IeQosProfile(p.qos.value));
    var e0 := [IeImsi(p.imsi.value)];
    var e1 := With(e0, DrxSlot(p.drx));
    var e2 := With(e1, BvciSlot(p.bvci));
    var e3 := With(e2, LocationAreaSlot(p.la));
    var e4 := With(e3, RoutingAreaSlot(p.ra));
    var e5 := With(e4, BssAreaSlot(p.bssArea, spare));
    FirstElement(IeImsi(p.imsi.value));
    Behind(e0, DrxSlot(p.drx));
    Behind(e1, BvciSlot(p.bvci));
    Behind(e2, LocationAreaSlot(p.la));
    Behind(e3, RoutingAreaSlot(p.ra));
    Behind(e4, BssAreaSlot(p.bssArea, spare));
    Behind(e5, qos);
    Behind(With(e5, qos), TmsiSlot(p.tmsi));
    Maybes(p.drx, p.bvci, p.la, p.ra, p.bssArea, spare, p.tmsi, None, None, None);
    assert Maybe(qos) == Encoding(IeQosProfile(p.qos.value)) by { SomeWritten(IeQosProfile(p.qos.value)); }
  }

  lemma SomeWritten(ie: Ie)
    requires Encodable(ie)
    ensures Maybe(Some(ie)) == Encoding(ie)
  {
  }

  lemma FirstElement(ie: Ie)
    requires Encodable(ie)
    ensures AllEncodable([ie]) && Concat([ie]) == Encoding(ie)
  {
    hide Encoding;
    assert [ie][1..] == [];
  }

  /** PDU type, TLLI and QoS profile stand in front without identifier and length. */
  predicate UnitdataStart(m: seq<octet>, pduType: int, tlli: u32, qos: QosProfile)
  {
    && |m| >= 8 && m[0] == pduType && Carries(m[1..5], IeTlli(tlli))
    && (qos.precedence < 8 ==> Carries(m[5..8], IeQosProfile(qos)))
  }

  lemma UnitdataStarts(m: seq<octet>, pduType: octet, tlli: u32, qos: QosProfile)
    requires [pduType] + Be32(tlli) + QosProfileOctets(qos) <= m
    ensures UnitdataStart(m, pduType, tlli, qos)
  {
    hide Are, QosProfileOctets, Be32;
    var start := [pduType] + Be32(tlli) + QosProfileOctets(qos);
    assert m[..8] == start;
    assert m[1..5] == start[1..5] == Be32(tlli);
    assert m[5..8] == start[5..8] == QosProfileOctets(qos);
    LongCarried(tlli);
    if qos.precedence < 8 {
      QosCarried(qos);
    }
  }

  /** The alignment element in front of an LSA element at cursor `index`. */
  function Alignment(index: nat, spare: seq<octet>): seq<octet>
  {
    if index % 4 == 0 then [] else [0x00, 0x80 + 4 - index % 4] + spare
  }

  lemma AlignmentWritten(index: nat, spare: seq<octet>)
    requires |spare| == AlignmentCount(index)
    ensures AlignmentSlot(true, index, spare).Some? ==>
              Encoding(AlignmentSlot(true, index, spare).value) == Alignment(index, spare)
  {
  }

  /** PDU type 1: the cell identifier, the aligned LSA list if there is one, and the payload. */
  lemma UlLayout(u: Ul, spare: seq<octet>)
    requires UlComplete(u) && |spare| == AlignmentCount(UL_CURSOR)
    ensures var m := UlOctets(u, spare);
            && UnitdataStart(m, 0x01, u.tlli.value, u.qos.value)
            && m[8..] == Encoding(IeCellId(u.cell.value))
                         + (if u.lsa.Some? then [0x00, 0x82] + spare + Encoding(IeLsaIdList(u.lsa.value)) else [])
                         + Encoding(IeLlcPdu(u.pdu))
  {
    hide Encoding, With, Concat, AllEncodable, UnitdataStart, Be32, QosProfileOctets;
    var m := UlOctets(u, spare);
    UnitdataStarts(m, 0x01, u.tlli.value, u.qos.value);
    var cell, al := IeCellId(u.cell.value), AlignmentSlot(u.lsa.Some?, UL_CURSOR, spare);
    var list := if u.lsa.Some? then Some(IeLsaIdList(u.lsa.value)) else None;
    FirstElement(cell);
    AlignmentWritten(UL_CURSOR, spare);
    AllEncodableConcatWith([cell], al);
    AllEncodableConcatWith(With([cell], al), list);
    AllEncodableConcatWith(With(With([cell], al), list), Some(IeLlcPdu(u.pdu)));
    assert m[8..] == Concat(UlElements(u, spare));
  }

  /** The options of DL-UNITDATA in their order. */
  function DlOptionOctets(d: Dl): seq<octet>
    requires DlEncodable(d)
  {
    (if d.raCap.Some? then Encoding(IeRaCap(d.raCap.value)) else [])
    + (if d.priority.Some? then Encoding(IePriority(d.priority.value)) else [])
    + (if d.drx.Some? then Encoding(IeDrx(d.drx.value)) else [])
    + (if d.imsi.Some? then Encoding(IeImsi(d.imsi.value)) else [])
    + (if d.tlliOld.Some? then Encoding(IeTlli(d.tlliOld.value)) else [])
  }

  lemma DlOptionsWritten(d: Dl)
    requires DlEncodable(d)
    ensures Concat(DlOptions(d)) == DlOptionOctets(d)
  {
    hide Encoding, With, Concat, AllEncodable, Maybe;
    var e0: seq<Ie> := [];
    var e1 := With(e0, RaCapSlot(d.raCap));
    var e2 := With(e1, PrioritySlot(d.priority));
    var e3 := With(e2, DrxSlot(d.drx));
    NothingConcat();
    Behind(e0, RaCapSlot(d.raCap));
    Behind(e1, PrioritySlot(d.priority));
    Behind(e2, DrxSlot(d.drx));
    Behind(e3, ImsiSlot(d.imsi));
    Behind(With(e3, ImsiSlot(d.imsi)), TlliSlot(d.tlliOld));
    Maybes(d.drx, None, None, None, false, 0, None, d.raCap, d.priority, d.tlliOld);
    ImsiWritten(d.imsi);
    assert [] + Maybe(RaCapSlot(d.raCap)) == Maybe(RaCapSlot(d.raCap));
  }

  lemma ImsiWritten(o: Option<seq<octet>>)
    requires o.Some? ==> |o.value| >= 1
    ensures Maybe(ImsiSlot(o)) == if o.Some? then Encoding(IeImsi(o.value)) else []
  {
    hide Encoding;
  }

  /** PDU type 0: QoS parameters and lifetime, the options, the aligned LSA information, and the payload. */
  lemma DlLayout(d: Dl, spare: seq<octet>)
    requires DlComplete(d) && DlEncodable(d) && |spare| == AlignmentCount(DlLsaCursor(d))
    ensures var m, options := DlOctets(d, spare), DlOptionOctets(d);
            && UnitdataStart(m, 0x00, d.tlli.value, d.qos.value)
            && m[8..] == Encoding(IeQosParams(d.params.value)) + Encoding(IePduLifetime(d.lifetime.value)) + options
                         + (if d.lsaInfo.Some?
                            then Alignment(19 + |options|, spare)
                                 + Encoding(IeLsaInfo(d.lsaInfo.value.lsaOnly, d.lsaInfo.value.entries))
                            else [])
                         + Encoding(IeLlcPdu(d.pdu))
  {
    hide Encoding, With, Concat, AllEncodable, UnitdataStart, Be32, QosProfileOctets, DlOptions, DlOptionOctets;
    var m, at := DlOctets(d, spare), DlLsaCursor(d);
    DlOptionsWritten(d);
    UnitdataStarts(m, 0x00, d.tlli.value, d.qos.value);
    var al := AlignmentSlot(d.lsaInfo.Some?, at, spare);
    var info := if d.lsaInfo.Some? then Some(IeLsaInfo(d.lsaInfo.value.lsaOnly, d.lsaInfo.value.entries)) else None;
    AlignmentWritten(at, spare);
    AllEncodableConcatWith(DlOptions(d), al);
    AllEncodableConcatWith(With(DlOptions(d), al), info);
    AllEncodableConcatWith(With(With(DlOptions(d), al), info), Some(IeLlcPdu(d.pdu)));
    assert m[8..] == Encoding(IeQosParams(d.params.value)) + Encoding(IePduLifetime(d.lifetime.value))
                     + Concat(DlElements(d, spare));
  }

  // ----- what the decoders collect -----

  /** The last element with an identifier, if there is one. */
  function Newest(ies: seq<Ie>, iei: int): Option<Ie>
  {
    if ies == [] then None
    else if IdentifierSent(ies[|ies| - 1]) == iei then Some(ies[|ies| - 1])
    else Newest(ies[..|ies| - 1], iei)
  }

  /** Once set by a DRX element, split on CCCH stays set. */
  predicate CollectedDrx(o: Option<Drx>, ies: seq<Ie>)
  {
    if o.None? then Newest(ies, 0x0a) == None
    else
      && o.value.splitOnCcch == SplitSeen(ies)
      && exists split :: Newest(ies, 0x0a) == Some(IeDrx(o.value.(splitOnCcch := split)))
  }

  predicate SplitSeen(ies: seq<Ie>)
  {
    exists i :: 0 <= i < |ies| && ies[i].IeDrx? && ies[i].drx.splitOnCcch
  }

  lemma SplitSeenSnoc(ies: seq<Ie>)
    requires ies != []
    ensures var last := ies[|ies| - 1];
            SplitSeen(ies) <==> SplitSeen(ies[..|ies| - 1]) || (last.IeDrx? && last.drx.splitOnCcch)
  {
    var init := ies[..|ies| - 1];
    if SplitSeen(init) {
      var i :| 0 <= i < |init| && init[i].IeDrx? && init[i].drx.splitOnCcch;
      assert ies[i] == init[i];
    }
  }

  lemma DrxMerged(before: Option<Drx>, ies: seq<Ie>)
    requires ies != [] && CollectedDrx(before, ies[..|ies| - 1])
    ensures var last := ies[|ies| - 1];
            CollectedDrx(if last.IeDrx? then Some(MergeDrx(before, last.drx)) else before, ies)
  {
    hide SplitSeen;
    SplitSeenSnoc(ies);
    var last := ies[|ies| - 1];
    if last.IeDrx? {
      assert MergeDrx(before, last.drx).(splitOnCcch := last.drx.splitOnCcch) == last.drx;
      NothingSplit(ies[..|ies| - 1]);
    }
  }

  lemma {:induction false} NothingSplit(ies: seq<Ie>)
    ensures Newest(ies, 0x0a) == None ==> !SplitSeen(ies)
  {
    if ies != [] {
      NothingSplit(ies[..|ies| - 1]);
      SplitSeenSnoc(ies);
    }
  }

  lemma NewestStep(ies: seq<Ie>, iei: int)
    requires ies != []
    ensures var last := ies[|ies| - 1];
            Newest(ies, iei) == if IdentifierSent(last) == iei then Some(last) else Newest(ies[..|ies| - 1], iei)
  {
    hide IdentifierSent;
  }

  /** The last element of every kind. */
  predicate PagingCollected(p: Paging, ies: seq<Ie>)
  {
    && ImsiSlot(p.imsi) == Newest(ies, 0x0d) && BvciSlot(p.bvci) == Newest(ies, 0x04)
    && LocationAreaSlot(p.la) == Newest(ies, 0x10) && RoutingAreaSlot(p.ra) == Newest(ies, 0x1b)
    && QosSlot(p.qos) == Newest(ies, 0x18) && TmsiSlot(p.tmsi) == Newest(ies, 0x20)
    && (p.bssArea <==> Newest(ies, 0x02).Some?) && CollectedDrx(p.drx, ies)
  }

  lemma PagingCollectsNext(p: Paging, ies: seq<Ie>)
    requires ies != [] && PagingCollected(p, ies[..|ies| - 1])
    ensures PagingCollected(PagingApply(p, ies[|ies| - 1]), ies)
  {
    hide CollectedDrx, MergeDrx, Newest;
    DrxMerged(p.drx, ies);
    NewestStep(ies, 0x0d);
    NewestStep(ies, 0x04);
    NewestStep(ies, 0x10);
    NewestStep(ies, 0x1b);
    NewestStep(ies, 0x18);
    NewestStep(ies, 0x20);
    NewestStep(ies, 0x02);
  }

  /**
   PAGING-PS from any elements at all: of every kind the last one counts, and
   split on CCCH is the disjunction over all DRX elements.
   */
  lemma {:induction false} PagingCollects(ies: seq<Ie>)
    ensures PagingCollected(PagingOf(ies), ies)
  {
    if ies == [] {
      NoDrx();
    } else {
      hide PagingCollected, PagingApply;
      PagingCollects(ies[..|ies| - 1]);
      PagingCollectsNext(PagingOf(ies[..|ies| - 1]), ies);
    }
  }

  function QosSlot(o: Option<QosProfile>): Option<Ie> { if o.Some? then Some(IeQosProfile(o.value)) else None }

  lemma NoDrx()
    ensures CollectedDrx(None, [])
  {
  }

  function PduCount(ies: seq<Ie>): nat
  {
    if ies == [] then 0 else PduCount(ies[..|ies| - 1]) + if ies[|ies| - 1].IeLlcPdu? then 1 else 0
  }

  lemma {:induction false} PduCountGrows(ies: seq<Ie>, i: nat)
    requires i < |ies| && ies[i].IeLlcPdu?
    ensures PduCount(ies[..i]) < PduCount(ies)
  {
    if i < |ies| - 1 {
      PduCountGrows(ies[..|ies| - 1], i);
      assert ies[..|ies| - 1][..i] == ies[..i];
    }
  }

  function CellSlot(o: Option<CellIdentifier>): Option<Ie> { if o.Some? then Some(IeCellId(o.value)) else None }
  function IdListSlot(o: Option<LsaIdList>): Option<Ie> { if o.Some? then Some(IeLsaIdList(o.value)) else None }

  lemma {:induction false} UlCollects(tlli: u32, qos: QosProfile, ies: seq<Ie>)
    ensures var st := UlOf(tlli, qos, ies);
            && st.tlli == tlli && st.qos == qos && CellSlot(st.cell) == Newest(ies, 0x08)
            && IdListSlot(st.lsa) == Newest(ies, 0x26) && |st.sent| == PduCount(ies)
  {
    if ies != [] {
      UlCollects(tlli, qos, ies[..|ies| - 1]);
    }
  }

  /** Each LLC PDU is handed up in its turn, with the TLLI of the message and the last cell identifier before it. */
  lemma {:induction false} UlHandsUp(tlli: u32, qos: QosProfile, ies: seq<Ie>, i: nat)
    requires i < |ies| && ies[i].IeLlcPdu?
    ensures var sent, k := UlOf(tlli, qos, ies).sent, PduCount(ies[..i]);
            && |sent| == PduCount(ies) && k < |sent|
            && sent[k].tlli == tlli && sent[k].pdu == ies[i].pdu && CellSlot(sent[k].cell) == Newest(ies[..i], 0x08)
  {
    hide Newest, PduCount, CellSlot;
    var init := ies[..|ies| - 1];
    UlCollects(tlli, qos, ies);
    UlCollects(tlli, qos, init);
    PduCountGrows(ies, i);
    if i == |ies| - 1 {
      assert ies[..i] == init;
    } else {
      assert init[..i] == ies[..i];
      UlHandsUp(tlli, qos, init, i);
    }
  }

  /** The parts of the downlink record that the loop does not touch. */
  predicate SameFixedPart(d: Dl, start: Dl)
  {
    && d.tlli == start.tlli && d.qos == start.qos && d.params == start.params && d.lifetime == start.lifetime
    && d.priority == start.priority && d.lsaInfo == start.lsaInfo
  }

  predicate DlCollected(st: DlState, start: Dl, ies: seq<Ie>)
  {
    && SameFixedPart(st.record, start) && |st.queued| == PduCount(ies)
    && RaCapSlot(st.record.raCap) == Newest(ies, 0x13) && ImsiSlot(st.record.imsi) == Newest(ies, 0x0d)
    && TlliSlot(st.record.tlliOld) == Newest(ies, 0x1f) && CollectedDrx(st.record.drx, ies)
  }

  lemma DlCollectsNext(st: DlState, start: Dl, ies: seq<Ie>)
    requires ies != [] && DlCollected(st, start, ies[..|ies| - 1])
    ensures DlCollected(DlApply(st, ies[|ies| - 1]), start, ies)
  {
    hide CollectedDrx, MergeDrx, Newest;
    DrxMerged(st.record.drx, ies);
    NewestStep(ies, 0x13);
    NewestStep(ies, 0x0d);
    NewestStep(ies, 0x1f);
  }

  lemma {:induction false} DlCollects(start: Dl, ies: seq<Ie>)
    requires start.raCap.None? && start.drx.None? && start.imsi.None? && start.tlliOld.None?
    ensures DlCollected(DlOf(start, ies), start, ies)
  {
    if ies == [] {
      NoDrx();
    } else {
      hide DlCollected, DlApply;
      DlCollects(start, ies[..|ies| - 1]);
      DlCollectsNext(DlOf(start, ies[..|ies| - 1]), start, ies);
    }
  }

  /** Each LLC PDU is queued in its turn, with what the elements before it say. */
  lemma {:induction false} DlQueues(start: Dl, ies: seq<Ie>, i: nat)
    requires start.raCap.None? && start.drx.None? && start.imsi.None? && start.tlliOld.None?
    requires i < |ies| && ies[i].IeLlcPdu?
    ensures var queued, k, before := DlOf(start, ies).queued, PduCount(ies[..i]), ies[..i];
            && |queued| == PduCount(ies) && k < |queued|
            && SameFixedPart(queued[k], start) && queued[k].pdu == ies[i].pdu
            && RaCapSlot(queued[k].raCap) == Newest(before, 0x13) && ImsiSlot(queued[k].imsi) == Newest(before, 0x0d)
            && TlliSlot(queued[k].tlliOld) == Newest(before, 0x1f) && CollectedDrx(queued[k].drx, before)
  {
    hide Newest, PduCount, RaCapSlot, ImsiSlot, TlliSlot, CollectedDrx, MergeDrx;
    var init := ies[..|ies| - 1];
    DlCollects(start, ies);
    DlCollects(start, init);
    PduCountGrows(ies, i);
    if i == |ies| - 1 {
      assert ies[..i] == init;
    } else {
      assert init[..i] == ies[..i];
      DlQueues(start, init, i);
    }
  }

  // ----- the fixed part of DL-UNITDATA -----

  /** An element with a one-octet length of `size` begins at `at`. */
  predicate BeginsAt(m: seq<octet>, at: nat, iei: int, size: nat)
  {
    at + 2 + size <= |m| && m[at] == iei && m[at + 1] == 0x80 + size
  }

  /**
   QoS parameters and lifetime are each read if they begin where they should;
   an element with another identifier or length is passed over, without moving
   the cursor.  (Lengths of two octets are covered by `OctetsRead`.)
   */
  lemma DlFixedPart(m: seq<octet>)
    requires |m| >= 19 && (m[8] == 0x28 ==> m[9] >= 0x80)
    requires var at := if BeginsAt(m, 8, 0x28, 5) then 15 else 8; m[at] == 0x16 ==> m[at + 1] >= 0x80
    ensures var at := if BeginsAt(m, 8, 0x28, 5) then 15 else 8;
            var timed := BeginsAt(m, at, 0x16, 2);
            var r := ReadDlFixed(m);
            && r.Got? && r.used == (if timed then at + 4 else at)
            && r.value.tlli.Some? && ShowsLong(m[1..5], r.value.tlli.value)
            && r.value.qos.Some? && ShowsQos(m[5..8], r.value.qos.value)
            && r.value.params == (if at == 15 then Some(QosParams(m[10], m[11], m[12], m[13], m[14])) else None)
            && r.value.lifetime == (if timed then Some(256 * m[at + 2] as int + m[at + 3]) else None)
            && r.value.raCap.None? && r.value.drx.None? && r.value.imsi.None? && r.value.tlliOld.None?
            && r.value.priority.None? && r.value.lsaInfo.None?
  {
    hide FromBe32, QosProfileFrom, ShowsLong, ShowsQos;
    LongShown(m[1..5]);
    ValuesShown(m[5..8]);
    ParamsAt(m);
    LifetimeAt(m, if BeginsAt(m, 8, 0x28, 5) then 15 else 8);
  }

  lemma ParamsAt(m: seq<octet>)
    requires |m| >= 15 && (m[8] == 0x28 ==> m[9] >= 0x80)
    ensures ReadQosParams(m[8..])
         == if BeginsAt(m, 8, 0x28, 5) then Got(QosParams(m[10], m[11], m[12], m[13], m[14]), 7) else Refused
  {
  }

  lemma LifetimeAt(m: seq<octet>, at: nat)
    requires at + 4 <= |m| && (m[at] == 0x16 ==> m[at + 1] >= 0x80)
    ensures ReadPduLifetime(m[at..])
         == if BeginsAt(m, at, 0x16, 2) then Got(256 * m[at + 2] as int + m[at + 3], 4) else Refused
  {
  }
}
