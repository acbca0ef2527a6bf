/**
 Theorems about whole BSSGP messages: what the decoding loops make of every
 message the encoders can produce, and when that is the message itself.
 */
module MessageRoundTrip {
  import opened Octets
  import opened InformationElements
  import opened ElementRoundTrip
  import opened Pdus

  // ----- the element loop -----

  /** Elements that the loop of `pdu` reads as intended. */
  predicate Readable(pdu: Pdu, ie: Ie)
  {
    Encodable(ie) && Representable(Seen(ie)) && Handles(pdu, IeiOf(ie))
  }

  predicate AllReadable(pdu: Pdu, ies: seq<Ie>)
  {
    forall i | 0 <= i < |ies| :: Readable(pdu, ies[i])
  }

  function SeenAll(ies: seq<Ie>): (r: seq<Ie>)
    ensures |r| == |ies|
  {
    if ies == [] then [] else [Seen(ies[0])] + SeenAll(ies[1..])
  }

  lemma AllReadableSplit(pdu: Pdu, a: seq<Ie>, b: seq<Ie>)
    ensures AllReadable(pdu, a + b) <==> AllReadable(pdu, a) && AllReadable(pdu, b)
  {
    hide Readable;
    if AllReadable(pdu, a + b) {
      forall i | 0 <= i < |a| ensures Readable(pdu, a[i]) { assert (a + b)[i] == a[i]; }
      forall i | 0 <= i < |b| ensures Readable(pdu, b[i]) { assert (a + b)[|a| + i] == b[i]; }
    }
  }

  /** The loop steps over one element, even when the bound is one octet short of the end. */
  lemma LoopReadsOne(pdu: Pdu, ie: Ie, rest: seq<octet>, index: nat, len: int, acc: seq<Ie>)
    requires Readable(pdu, ie)
    requires index + |Encoding(ie)| <= len + 1
    ensures Loop(pdu, Encoding(ie) + rest, index, len, acc)
         == Loop(pdu, rest, index + |Encoding(ie)|, len, acc + [Seen(ie)])
  {
    hide Encoding, ReadIe, Representable, Seen, Handles;
    ElementReadAsSeen(ie, rest);
    assert (Encoding(ie) + rest)[|Encoding(ie)|..] == rest;
    EncodingStartsWithIei(ie);
    assert (Encoding(ie) + rest)[0] == IeiOf(ie);
  }

  /**
   Cursor discipline: over encoded elements the loop never stops early, never
   skips the last one, and leaves the cursor exactly behind them.
   */
  lemma {:induction false} LoopReadsAll(pdu: Pdu, ies: seq<Ie>, rest: seq<octet>, index: nat, len: int, acc: seq<Ie>)
    requires AllReadable(pdu, ies) && AllEncodable(ies)
    requires index + |Concat(ies)| <= len + 1
    ensures Loop(pdu, Concat(ies) + rest, index, len, acc)
         == Loop(pdu, rest, index + |Concat(ies)|, len, acc + SeenAll(ies))
  {
    hide Loop, Encoding, Readable, Seen;
    if ies == [] {
      assert Concat(ies) + rest == rest;
      assert acc + SeenAll(ies) == acc;
    } else {
      assert Concat(ies) + rest == Encoding(ies[0]) + (Concat(ies[1..]) + rest);
      LoopReadsOne(pdu, ies[0], Concat(ies[1..]) + rest, index, len, acc);
      LoopReadsAll(pdu, ies[1..], rest, index + |Encoding(ies[0])|, len, acc + [Seen(ies[0])]);
      assert acc + [Seen(ies[0])] + SeenAll(ies[1..]) == acc + SeenAll(ies);
    }
  }

  lemma {:induction false} ConcatSplit(a: seq<Ie>, b: seq<Ie>)
    requires AllEncodable(a) && AllEncodable(b)
    ensures AllEncodable(a + b) && Concat(a + b) == Concat(a) + Concat(b)
  {
    hide Encoding;
    if a == [] {
      assert a + b == b;
    } else {
      ConcatSplit(a[1..], b);
      assert (a + b)[1..] == a[1..] + b;
    }
  }

  lemma {:induction false} SeenAllSplit(a: seq<Ie>, b: seq<Ie>)
    ensures SeenAll(a + b) == SeenAll(a) + SeenAll(b)
  {
    hide Seen;
    if a == [] {
      assert a + b == b;
    } else {
      var head, tail := [Seen(a[0])], a[1..];
      assert (a + b)[1..] == tail + b;
      SeenAllSplit(tail, b);
      assert head + (SeenAll(tail) + SeenAll(b)) == (head + SeenAll(tail)) + SeenAll(b);
    }
  }

  /** Every element the loop collects lies in the range its decoder can produce. */
  lemma {:induction false} LoopInRange(pdu: Pdu, s: seq<octet>, index: nat, len: int, acc: seq<Ie>)
    requires forall i | 0 <= i < |acc| :: InRange(acc[i])
    ensures var o := Loop(pdu, s, index, len, acc);
            !o.OutOfBuffer? ==> forall i | 0 <= i < |o.ies| :: InRange(o.ies[i])
    decreases len - index
  {
    hide ReadIe, InRange, Handles;
    if index < len && |s| > 0 && Handles(pdu, s[0]) && ReadIe(s).Got? {
      ElementInRange(s);
      var Got(ie, used) := ReadIe(s);
      LoopInRange(pdu, Drop(s, used), index + used, len, acc + [ie]);
    }
  }

  /**
   The loop as written, without a progress test, ends exactly when `Loop` is not
   stuck, and then within `len - index + 1` iterations and with that outcome.
   (Cursors are unbounded here; `CursorNeverWraps` says when that is no difference.)
   */
  lemma {:induction false} LoopTerminatesUnlessStuck(pdu: Pdu, s: seq<octet>, index: nat, len: int, acc: seq<Ie>,
                                                     k: nat)
    ensures Loop(pdu, s, index, len, acc).Stuck? ==> Iterations(pdu, len, Running(s, index, acc), k).Running?
    ensures !Loop(pdu, s, index, len, acc).Stuck? && k > 0 && k > len - index
        ==> Iterations(pdu, len, Running(s, index, acc), k) == Finished(Loop(pdu, s, index, len, acc))
    decreases k
  {
    hide ReadIe, Handles;
    if k > 0 {
      var next := Iteration(pdu, len, Running(s, index, acc));
      if next.Finished? {
        FinishedStays(pdu, len, next, k - 1);
      } else {
        LoopTerminatesUnlessStuck(pdu, next.s, next.index, len, next.ies, k - 1);
      }
    }
  }

  /** Only skipped octets can take the cursor behind the buffer, and at most three of them. */
  lemma UsedWithin(s: seq<octet>)
    ensures ReadIe(s).Got? ==> ReadIe(s).used <= |s| + 3
  {
    hide ReadFixedIe, ReadImsi, ReadLlcPdu, ReadLsaIdList, ReadRaCap, ReadHeader, Skipped;
  }

  /** The cursor of a turn of the loop, with what is left of the buffer behind it, is within `bound`. */
  predicate CursorWithin(st: LoopState, bound: nat)
  {
    match st
    case Running(s, index, _) => if s == [] then index <= bound else index + |s| + 3 <= bound
    case Finished(out) => out.Accepted? ==> out.index <= bound
  }

  lemma IterationWithin(pdu: Pdu, len: int, st: LoopState, bound: nat)
    requires CursorWithin(st, bound)
    ensures CursorWithin(Iteration(pdu, len, st), bound)
  {
    hide ReadIe, Handles;
    if st.Running? {
      UsedWithin(st.s);
    }
  }

  /**
   A message shorter than 65533 octets cannot make the loop's 16-bit cursor
   wrap, however long the loop runs.
   */
  lemma {:induction false} CursorNeverWraps(pdu: Pdu, len: int, st: LoopState, k: nat, bound: nat)
    requires CursorWithin(st, bound)
    ensures CursorWithin(Iterations(pdu, len, st, k), bound)
    decreases k
  {
    hide Iteration, CursorWithin;
    if k > 0 {
      IterationWithin(pdu, len, st, bound);
      CursorNeverWraps(pdu, len, Iteration(pdu, len, st), k - 1, bound);
    }
  }

  lemma {:induction false} FinishedStays(pdu: Pdu, len: int, st: LoopState, k: nat)
    requires st.Finished?
    ensures Iterations(pdu, len, st, k) == st
  {
    if k > 0 {
      FinishedStays(pdu, len, st, k - 1);
    }
  }

  // ----- PAGING-PS -----

  predicate DistinctKinds(ies: seq<Ie>)
  {
    forall i, j | 0 <= i < j < |ies| :: IeiOf(ies[i]) != IeiOf(ies[j])
  }

  /** A message holds exactly the elements of `ies`, each in its field. */
  ghost predicate Describes(p: Paging, ies: seq<Ie>)
  {
    DescribesIdentity(p, ies) && DescribesRest(p, ies)
  }

  ghost predicate DescribesIdentity(p: Paging, ies: seq<Ie>)
  {
    && (forall x :: p.imsi == Some(x) <==> IeImsi(x) in ies)
    && (forall x :: p.drx == Some(x) <==> IeDrx(x) in ies)
    && (forall x: u16 :: p.bvci == Some(x) <==> IeBvci(x) in ies)
    && (forall x :: p.la == Some(x) <==> IeLocationArea(x) in ies)
  }

  ghost predicate DescribesRest(p: Paging, ies: seq<Ie>)
  {
    && (forall x :: p.ra == Some(x) <==> IeRoutingArea(x) in ies)
    && (p.bssArea <==> exists x :: IeBssArea(x) in ies)
    && (forall x :: p.qos == Some(x) <==> IeQosProfile(x) in ies)
    && (forall x: u32 :: p.tmsi == Some(x) <==> IeTmsi(x) in ies)
  }

  lemma DescribesOneMessage(p: Paging, q: Paging, a: seq<Ie>, b: seq<Ie>)
    requires Describes(p, a) && Describes(q, b)
    requires forall ie :: ie in a <==> ie in b
    ensures p == q
  {
    assert p.imsi.Some? ==> q.imsi == Some(p.imsi.value);
    assert p.drx.Some? ==> q.drx == Some(p.drx.value);
    assert p.bvci.Some? ==> q.bvci == Some(p.bvci.value);
    assert p.la.Some? ==> q.la == Some(p.la.value);
    assert p.ra.Some? ==> q.ra == Some(p.ra.value);
    assert p.qos.Some? ==> q.qos == Some(p.qos.value);
    assert p.tmsi.Some? ==> q.tmsi == Some(p.tmsi.value);
  }

  lemma {:induction false} PagingOfDescribes(ies: seq<Ie>)
    requires DistinctKinds(ies)
    ensures Describes(PagingOf(ies), ies)
  {
    if ies != [] {
      var init, last := ies[..|ies| - 1], ies[|ies| - 1];
      assert ies == init + [last];
      PagingOfDescribes(init);
      assert forall ie | ie in init :: IeiOf(ie) != IeiOf(last);
      PagingApplyDescribes(PagingOf(init), init, last);
    }
  }

  lemma PagingApplyDescribes(p: Paging, init: seq<Ie>, last: Ie)
    requires Describes(p, init)
    requires forall ie | ie in init :: IeiOf(ie) != IeiOf(last)
    ensures Describes(PagingApply(p, last), init + [last])
  {
    hide DescribesIdentity, DescribesRest;
    IdentityNext(p, init, last);
    RestNext(p, init, last);
  }

  lemma IdentityNext(p: Paging, init: seq<Ie>, last: Ie)
    requires DescribesIdentity(p, init)
    requires forall ie | ie in init :: IeiOf(ie) != IeiOf(last)
    ensures DescribesIdentity(PagingApply(p, last), init + [last])
  {
    var ies := init + [last];
    assert forall ie :: ie in ies <==> ie in init || ie == last;
    assert p.drx.Some? ==> IeDrx(p.drx.value) in init;
  }

  lemma RestNext(p: Paging, init: seq<Ie>, last: Ie)
    requires DescribesRest(p, init)
    requires forall ie | ie in init :: IeiOf(ie) != IeiOf(last)
    ensures DescribesRest(PagingApply(p, last), init + [last])
  {
    hide MergeDrx;
    var ies := init + [last];
    assert forall ie :: ie in ies <==> ie in init || ie == last;
    BssAreaSeen(init, last);
  }

  lemma BssAreaSeen(init: seq<Ie>, last: Ie)
    ensures (exists x :: IeBssArea(x) in init + [last]) <==> last.IeBssArea? || exists x :: IeBssArea(x) in init
  {
    var ies := init + [last];
    if last.IeBssArea? {
      assert IeBssArea(last.spare) in ies;
    }
    if x :| IeBssArea(x) in init {
      assert IeBssArea(x) in ies;
    }
  }

  predicate NoRaCap(ies: seq<Ie>)
  {
    forall i | 0 <= i < |ies| :: !ies[i].IeRaCap?
  }

  lemma {:induction false} SeenAllIsIdentity(ies: seq<Ie>)
    requires NoRaCap(ies)
    ensures SeenAll(ies) == ies
  {
    if ies != [] {
      SeenAllIsIdentity(ies[1..]);
    }
  }

  lemma NeitherHasRaCap(pdu: Pdu, ies: seq<Ie>)
    requires AllReadable(pdu, ies) && !pdu.DlUnitdata?
    ensures NoRaCap(ies)
  {
    hide Representable;
    forall i | 0 <= i < |ies| ensures !ies[i].IeRaCap? { assert Readable(pdu, ies[i]); }
  }

  /** The PAGING-PS decoder on any sequence of well-formed elements, in any order. */
  lemma PagingReadsElements(ies: seq<Ie>)
    requires AllReadable(PagingPs, ies) && AllEncodable(ies)
    ensures var m := [PDU_PAGING_PS] + Concat(ies);
            DecodePaging(m, |m| - 1) == Accepted(ies, |m|)
  {
    hide Encoding, Representable, Concat, Loop, AllReadable, AllEncodable, NoRaCap, SeenAll;
    var m := [PDU_PAGING_PS] + Concat(ies);
    assert m[1..] == Concat(ies) + [];
    NeitherHasRaCap(PagingPs, ies);
    SeenAllIsIdentity(ies);
    LoopReadsAll(PagingPs, ies, [], 1, |m| - 1, []);
    assert [] + ies == ies;
    LoopEnds(PagingPs, [], |m|, |m| - 1, ies);
  }

  lemma LoopEnds(pdu: Pdu, s: seq<octet>, index: nat, len: int, acc: seq<Ie>)
    requires index >= len
    ensures Loop(pdu, s, index, len, acc) == Accepted(acc, index)
  {
  }

  /**
   Order independence: two arrangements of the same well-formed elements, no kind
   twice, are both accepted to the end and give the same message.
   */
  lemma PagingOrderIsIrrelevant(a: seq<Ie>, b: seq<Ie>)
    requires AllReadable(PagingPs, a) && AllEncodable(a) && DistinctKinds(a)
    requires AllReadable(PagingPs, b) && AllEncodable(b) && DistinctKinds(b)
    requires forall ie :: ie in a <==> ie in b
    ensures var ma, mb := [PDU_PAGING_PS] + Concat(a), [PDU_PAGING_PS] + Concat(b);
            var da, db := DecodePaging(ma, |ma| - 1), DecodePaging(mb, |mb| - 1);
            && da.Accepted? && da.index == |ma|
            && db.Accepted? && db.index == |mb|
            && PagingOf(da.ies) == PagingOf(db.ies)
  {
    hide AllReadable, DistinctKinds, Describes, PagingOf, Concat, DecodePaging;
    PagingReadsElements(a);
    PagingReadsElements(b);
    PagingOfDescribes(a);
    PagingOfDescribes(b);
    DescribesOneMessage(PagingOf(a), PagingOf(b), a, b);
  }

  /** Exactly the messages that survive: in-range fields and an odd number of IMSI digits. */
  predicate PagingFits(p: Paging)
    requires PagingComplete(p)
  {
    && |p.imsi.value| % 2 == 1 && AllBelow(p.imsi.value, 16)
    && p.qos.value.precedence < 8
    && (p.drx.Some? ==> p.drx.value.nonDrxTimer < 128)
    && (p.la.Some? ==> PlmnFits(p.la.value.plmn))
    && (p.ra.Some? ==> PlmnFits(p.ra.value.plmn))
  }

  /** Both mandatory elements, and an IMSI whose length indicator can be written. */
  predicate PagingEncodable(p: Paging)
  {
    PagingComplete(p) && 1 <= |p.imsi.value| && |p.imsi.value| / 2 + 1 < 0x8000
  }

  lemma PagingOfWith(ies: seq<Ie>, o: Option<Ie>)
    ensures PagingOf(With(ies, o)) == if o.None? then PagingOf(ies) else PagingApply(PagingOf(ies), o.value)
  {
    if o.Some? {
      assert (ies + [o.value])[..|ies|] == ies;
    }
  }

  lemma PagingOfOne(ie: Ie)
    ensures PagingOf([ie]) == PagingApply(EMPTY_PAGING, ie)
  {
    assert [ie][..0] == [];
  }

  /** Collecting the elements of a message gives the message. */
  lemma PagingOfElements(p: Paging, spare: octet)
    requires PagingEncodable(p)
    ensures PagingOf(PagingElements(p, spare)) == p
  {
    hide With, PagingOf;
    var e0 := [IeImsi(p.imsi.value)];
    PagingOfOne(e0[0]);
    var e1 := With(e0, DrxSlot(p.drx));
    assert PagingOf(e1) == EMPTY_PAGING.(imsi := p.imsi, drx := p.drx) by { PagingOfWith(e0, DrxSlot(p.drx)); }
    var e2 := With(e1, BvciSlot(p.bvci));
    assert PagingOf(e2) == EMPTY_PAGING.(imsi := p.imsi, drx := p.drx, bvci := p.bvci) by {
      PagingOfWith(e1, BvciSlot(p.bvci));
    }
    var e3 := With(e2, LocationAreaSlot(p.la));
    assert PagingOf(e3) == Paging(p.imsi, p.drx, p.bvci, p.la, None, false, None, None) by {
      PagingOfWith(e2, LocationAreaSlot(p.la));
    }
    var e4 := With(e3, RoutingAreaSlot(p.ra));
    assert PagingOf(e4) == Paging(p.imsi, p.drx, p.bvci, p.la, p.ra, false, None, None) by {
      PagingOfWith(e3, RoutingAreaSlot(p.ra));
    }
    var e5 := With(e4, BssAreaSlot(p.bssArea, spare));
    assert PagingOf(e5) == p.(qos := None, tmsi := None) by { PagingOfWith(e4, BssAreaSlot(p.bssArea, spare)); }
    var e6 := With(e5, Some(IeQosProfile(p.qos.value)));
    assert PagingOf(e6) == p.(tmsi := None) by { PagingOfWith(e5, Some(IeQosProfile(p.qos.value))); }
    PagingOfWith(e6, TmsiSlot(p.tmsi));
  }

  lemma AllReadableWith(pdu: Pdu, ies: seq<Ie>, o: Option<Ie>)
    ensures AllReadable(pdu, With(ies, o)) <==> AllReadable(pdu, ies) && (o.Some? ==> Readable(pdu, o.value))
  {
    hide Readable;
    if o.Some? {
      AllReadableSplit(pdu, ies, [o.value]);
      assert AllReadable(pdu, [o.value]) <==> Readable(pdu, [o.value][0]);
    }
  }

  lemma PagingElementsReadable(p: Paging, spare: octet)
    requires PagingEncodable(p) && PagingFits(p)
    ensures AllReadable(PagingPs, PagingElements(p, spare))
  {
    hide AllBelow, PlmnFits, With, AllReadable;
    var e0 := [IeImsi(p.imsi.value)];
    AllReadableWith(PagingPs, [], Some(e0[0]));
    assert AllReadable(PagingPs, e0) by { OneReadable(PagingPs, e0[0]); }
    var e1 := With(e0, DrxSlot(p.drx));
    AllReadableWith(PagingPs, e0, DrxSlot(p.drx));
    var e2 := With(e1, BvciSlot(p.bvci));
    AllReadableWith(PagingPs, e1, BvciSlot(p.bvci));
    var e3 := With(e2, LocationAreaSlot(p.la));
    AllReadableWith(PagingPs, e2, LocationAreaSlot(p.la));
    var e4 := With(e3, RoutingAreaSlot(p.ra));
    AllReadableWith(PagingPs, e3, RoutingAreaSlot(p.ra));
    var e5 := With(e4, BssAreaSlot(p.bssArea, spare));
    AllReadableWith(PagingPs, e4, BssAreaSlot(p.bssArea, spare));
    var e6 := With(e5, Some(IeQosProfile(p.qos.value)));
    AllReadableWith(PagingPs, e5, Some(IeQosProfile(p.qos.value)));
    AllReadableWith(PagingPs, e6, TmsiSlot(p.tmsi));
  }

  lemma OneReadable(pdu: Pdu, ie: Ie)
    requires Readable(pdu, ie)
    ensures AllReadable(pdu, [ie])
  {
    hide Readable;
  }

  /** What a decoded message satisfies, whatever the octets were. */
  predicate PagingInRange(p: Paging)
  {
    && (p.imsi.Some? ==> AllBelow(p.imsi.value, 16))
    && (p.qos.Some? ==> p.qos.value.precedence < 8)
    && (p.drx.Some? ==> p.drx.value.nonDrxTimer < 128)
    && (p.la.Some? ==> PlmnFits(p.la.value.plmn))
    && (p.ra.Some? ==> PlmnFits(p.ra.value.plmn))
  }

  lemma PagingApplyInRange(p: Paging, ie: Ie)
    requires PagingInRange(p) && InRange(ie)
    ensures PagingInRange(PagingApply(p, ie))
  {
    hide AllBelow, PlmnFits;
  }

  lemma {:induction false} DecodedPagingInRange(ies: seq<Ie>)
    requires forall i | 0 <= i < |ies| :: InRange(ies[i])
    ensures PagingInRange(PagingOf(ies))
  {
    hide InRange, PagingApply;
    if ies == [] {
      hide AllBelow, PlmnFits;
    } else {
      DecodedPagingInRange(ies[..|ies| - 1]);
      PagingApplyInRange(PagingOf(ies[..|ies| - 1]), ies[|ies| - 1]);
    }
  }

  /**
   An even number of digits makes the IMSI decoder take the next element's
   identifier for a digit; the loop then meets a length octet and gives up.
   */
  lemma EvenImsiIsRejected(p: Paging, spare: octet)
    requires PagingEncodable(p) && |p.imsi.value| % 2 == 0
    ensures var m := PagingOctets(p, spare);
            DecodePaging(m, |m| - 1).Rejected?
  {
    hide PagingElements, Encoding, Handles, Loop, ImsiThenShort;
    var ies := PagingElements(p, spare);
    var d := p.imsi.value;
    PagingStartsWithImsi(p, spare);
    SecondLengthOctet(ies, d);
    var m := PagingOctets(p, spare);
    var e, rest := Encoding(IeImsi(d)), Concat(ies[1..]);
    assert m[1..] == e + rest;
    EvenImsiMeetsLength(d, rest, |m| - 1);
  }

  lemma SecondLengthOctet(ies: seq<Ie>, d: seq<octet>)
    requires ImsiThenShort(ies, d) && |ies| >= 2 && AllEncodable(ies)
    ensures ies[0] == IeImsi(d)
    ensures |Concat(ies[1..])| >= 3 && Concat(ies[1..])[1] >= 128
  {
    hide Encoding;
    var next := ies[1];
    assert Short(next);
    ShortElement(next);
    assert Concat(ies[1..]) == Encoding(next) + Concat(ies[1..][1..]);
  }

  lemma EvenImsiMeetsLength(d: seq<octet>, rest: seq<octet>, len: int)
    requires |d| >= 1 && |d| / 2 + 1 < 0x8000 && |d| % 2 == 0
    requires |rest| >= 3 && rest[1] >= 128
    requires len >= |Encoding(IeImsi(d))| + |rest|
    ensures Loop(PagingPs, Encoding(IeImsi(d)) + rest, 1, len, []).Rejected?
  {
    hide Encoding, ReadIe;
    var e := Encoding(IeImsi(d));
    EncodingStartsWithIei(IeImsi(d));
    EvenImsiRead(d, rest);
    assert Drop(e + rest, |e| + 1)[0] == rest[1];
  }

  /** The decoder's cursor ends one octet behind the element. */
  lemma EvenImsiRead(d: seq<octet>, rest: seq<octet>)
    requires |d| >= 1 && |d| / 2 + 1 < 0x8000 && |d| % 2 == 0 && |rest| > 0
    ensures var r := ReadIe(Encoding(IeImsi(d)) + rest);
            r.Got? && r.used == |Encoding(IeImsi(d))| + 1
  {
    hide Encoding, ReadImsi, ReadFixedIe;
    EncodingStartsWithIei(IeImsi(d));
    ImsiRead(d, rest);
  }

  /** The IMSI, then only elements with a one-octet length, and at least one of them. */
  predicate ImsiThenShort(ies: seq<Ie>, d: seq<octet>)
  {
    |ies| >= 1 && ies[0] == IeImsi(d) && forall i | 1 <= i < |ies| :: Short(ies[i])
  }

  predicate Short(ie: Ie)
  {
    ie.IeDrx? || ie.IeBvci? || ie.IeLocationArea? || ie.IeRoutingArea? || ie.IeQosProfile? || ie.IeTmsi?
    || (ie.IeBssArea? && |ie.spare| == 1)
  }

  lemma ShortElement(ie: Ie)
    requires Short(ie)
    ensures Encoding(ie)[1] >= 128 && |Encoding(ie)| >= 3
  {
  }

  lemma ImsiThenShortWith(ies: seq<Ie>, d: seq<octet>, o: Option<Ie>)
    requires ImsiThenShort(ies, d) && (o.Some? ==> Short(o.value))
    ensures ImsiThenShort(With(ies, o), d) && |With(ies, o)| == if o.Some? then |ies| + 1 else |ies|
  {
    hide Short;
  }

  lemma PagingStartsWithImsi(p: Paging, spare: octet)
    requires PagingEncodable(p)
    ensures ImsiThenShort(PagingElements(p, spare), p.imsi.value) && |PagingElements(p, spare)| >= 2
  {
    hide With;
    var d := p.imsi.value;
    var e0 := [IeImsi(d)];
    assert ImsiThenShort(e0, d);
    hide ImsiThenShort;
    var e1 := With(e0, DrxSlot(p.drx));
    ImsiThenShortWith(e0, d, DrxSlot(p.drx));
    var e2 := With(e1, BvciSlot(p.bvci));
    ImsiThenShortWith(e1, d, BvciSlot(p.bvci));
    var e3 := With(e2, LocationAreaSlot(p.la));
    ImsiThenShortWith(e2, d, LocationAreaSlot(p.la));
    var e4 := With(e3, RoutingAreaSlot(p.ra));
    ImsiThenShortWith(e3, d, RoutingAreaSlot(p.ra));
    var e5 := With(e4, BssAreaSlot(p.bssArea, spare));
    ImsiThenShortWith(e4, d, BssAreaSlot(p.bssArea, spare));
    var e6 := With(e5, Some(IeQosProfile(p.qos.value)));
    ImsiThenShortWith(e5, d, Some(IeQosProfile(p.qos.value)));
    ImsiThenShortWith(e6, d, TmsiSlot(p.tmsi));
  }

  /**
   PAGING-PS round trip: for every message the encoder accepts and whatever the
   skipped octet holds, decoding its octets gives that message, with the cursor
   at the end, if and only if the message fits.
   */
  lemma PagingRoundTrip(p: Paging, spare: octet)
    requires PagingEncodable(p)
    ensures var m := PagingOctets(p, spare);
            var out := DecodePaging(m, |m| - 1);
            out.Accepted? && out.index == |m| && PagingOf(out.ies) == p <==> PagingFits(p)
  {
    hide Encoding, Representable, Concat, Loop, Describes, DistinctKinds, AllReadable, InRange, PagingElements,
         PagingOf, AllBelow, PlmnFits, AllEncodable;
    var ies := PagingElements(p, spare);
    var m := PagingOctets(p, spare);
    var out := DecodePaging(m, |m| - 1);
    if PagingFits(p) {
      PagingElementsReadable(p, spare);
      PagingReadsElements(ies);
      PagingOfElements(p, spare);
    } else if |p.imsi.value| % 2 == 0 {
      EvenImsiIsRejected(p, spare);
    } else if out.Accepted? {
      LoopInRange(PagingPs, m[1..], 1, |m| - 1, []);
      DecodedPagingInRange(out.ies);
    }
  }
}
