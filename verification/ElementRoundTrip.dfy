/**
 For every information element, the exact condition under which its decoder
 recovers what its encoder wrote and stops where the encoder stopped, whatever
 octets follow.
 */
module ElementRoundTrip {
  import opened Octets
  import opened InformationElements

  predicate PlmnFits(p: Plmn)
  {
    p.mcc0 < 16 && p.mcc1 < 16 && p.mcc2 < 16 && p.mnc0 < 16 && p.mnc1 < 16 && p.mnc2 < 16
  }

  predicate MultislotFits(m: Multislot)
  {
    && m.hscsdClass < 32 && m.hscsdPresent < 2
    && m.gprsClass < 32 && m.gprsPresent < 2 && m.gprsDynamic < 2 && m.smsPresent < 2
    && m.smValue < 16 && m.smSwitch < 16
  }

  /** What a capability may hold for all of it to come back: no flag at all. */
  predicate RaCapabilityFits(c: RaCapability)
  {
    c.accessTech < 16 && c.rfPower < 8 && c.flags == NO_FLAGS && MultislotFits(c.slots)
  }

  /** The condition under which an element survives encoding and decoding. */
  predicate Representable(ie: Ie)
  {
    match ie
    case IeAlignment(spare) => |spare| <= 3
    case IeBssArea(spare) => |spare| == 1
    case IeCellId(c) => PlmnFits(c.area.plmn)
    case IeDrx(d) => d.nonDrxTimer < 128
    case IeImsi(d) => |d| % 2 == 1 && |d| / 2 + 1 < 0x8000 && AllBelow(d, 16)
    case IeLlcPdu(pdu) => |pdu| < 0x8000
    case IeLocationArea(la) => PlmnFits(la.plmn)
    case IeLsaIdList(l) => l.ep < 2 && 3 * |l.ids| + 1 < 0x8000 && AllBelow(l.ids, 0x100_0000)
    case IeQosProfile(q) => q.precedence < 8
    case IeRaCap(cs) => |cs| < 256 && AllFit(cs)
    case IeRoutingArea(ra) => PlmnFits(ra.plmn)
    case IeLsaInfo(_, _) => false
    case IePriority(_) => false
    case _ => true
  }

  predicate RoundTrips(ie: Ie, rest: seq<octet>)
    requires Encodable(ie)
  {
    ReadIe(Encoding(ie) + rest) == Got(ie, |Encoding(ie)|)
  }

  // ----- framing -----

  lemma TlvHeader(iei: octet, length: nat, body: seq<octet>, rest: seq<octet>)
    requires length < 0x8000
    ensures var s := Tlv(iei, length, body) + rest;
            var h := 1 + |LengthOctets(length)|;
            && s[0] == iei
            && ReadHeader(s, iei) == Got(length, h)
            && s[h..] == body + rest
            && |Tlv(iei, length, body)| == h + |body|
  {
    var s := Tlv(iei, length, body) + rest;
    assert s[1..] == LengthOctets(length) + (body + rest);
    LengthRoundTrip(length, body + rest);
  }

  lemma TlvBody(iei: octet, length: nat, body: seq<octet>, rest: seq<octet>, k: nat)
    requires length < 0x8000 && k <= |body|
    ensures var s := Tlv(iei, length, body) + rest;
            var h := 1 + |LengthOctets(length)|;
            h + |body| <= |s| && s[h..h + |body|] == body && s[h + k..h + |body|] == body[k..]
  {
    TlvHeader(iei, length, body, rest);
    var s := Tlv(iei, length, body) + rest;
    var h := 1 + |LengthOctets(length)|;
    assert s[h + k..h + |body|] == s[h..][k..|body|];
    assert s[h..h + |body|] == s[h..][..|body|];
  }

  lemma FixedRoundTrip(iei: octet, length: nat, body: seq<octet>, rest: seq<octet>, check: LengthCheck)
    requires length < 0x8000 && (check.Exactly? ==> check.n == length)
    ensures ReadFixed(Tlv(iei, length, body) + rest, iei, check, |body|) == Got(body, |Tlv(iei, length, body)|)
    ensures (Tlv(iei, length, body) + rest)[0] == iei
  {
    TlvHeader(iei, length, body, rest);
    TlvBody(iei, length, body, rest, 0);
  }

  // ----- fixed-size values -----

  lemma PlmnRoundTrip(p: Plmn)
    ensures PlmnFrom(PlmnOctets(p)) == p <==> PlmnFits(p)
  {
    NibblesRoundTrip(p.mcc1, p.mcc0);
    NibblesRoundTrip(p.mnc2, p.mcc2);
    NibblesRoundTrip(p.mnc1, p.mnc0);
  }

  lemma RoutingAreaRoundTrip(ra: RoutingArea)
    ensures RoutingAreaFrom(RoutingAreaOctets(ra)) == ra <==> PlmnFits(ra.plmn)
  {
    var b := RoutingAreaOctets(ra);
    assert b[..3] == PlmnOctets(ra.plmn);
    assert b[3..5] == Be16(ra.lac);
    PlmnRoundTrip(ra.plmn);
  }

  lemma DrxRoundTrip(d: Drx)
    ensures DrxFrom(DrxOctets(d)) == d <==> d.nonDrxTimer < 128
  {
  }

  lemma QosRoundTrip(q: QosProfile)
    ensures QosProfileFrom(QosProfileOctets(q)) == q <==> q.precedence < 8
  {
  }

  lemma QosParamsValueRoundTrip(q: QosParams)
    ensures QosParamsFrom(QosParamsOctets(q)) == q
  {
  }

  // ----- lists -----

  lemma HeadAndTail<T>(first: T, others: seq<T>, all: seq<T>)
    requires |all| >= 1
    ensures [first] + others == all <==> first == all[0] && others == all[1..]
  {
    assert all == [all[0]] + all[1..];
    assert ([first] + others)[1..] == others;
  }

  predicate AllBelow(xs: seq<u32>, limit: int)
  {
    forall i | 0 <= i < |xs| :: xs[i] < limit
  }

  lemma AllBelowHeadAndTail(xs: seq<u32>, limit: int, k: nat)
    requires k <= |xs|
    ensures AllBelow(xs, limit) <==> AllBelow(xs[..k], limit) && AllBelow(xs[k..], limit)
  {
    if AllBelow(xs[..k], limit) && AllBelow(xs[k..], limit) {
      forall i | 0 <= i < |xs| ensures xs[i] < limit {
        assert xs[i] == if i < k then xs[..k][i] else xs[k..][i - k];
      }
    }
  }

  // ----- IMSI -----

  /** One octet of digits and those behind it. */
  lemma PairThenPairs(d: seq<octet>)
    requires |d| >= 2
    ensures DigitPairs(d) == [Nibbles(d[1], d[0])] + DigitPairs(d[2..])
    ensures var x := Nibbles(d[1], d[0]);
            DigitsFrom(DigitPairs(d)) == [LowNibble(x), HighNibble(x)] + DigitsFrom(DigitPairs(d[2..]))
  {
    hide Nibbles, LowNibble, HighNibble;
    var x, others := Nibbles(d[1], d[0]), DigitPairs(d[2..]);
    assert ([x] + others)[1..] == others;
  }

  lemma {:induction false} DigitPairsRoundTrip(d: seq<octet>)
    requires |d| % 2 == 0
    ensures DigitsFrom(DigitPairs(d)) == d <==> AllBelow(d, 16)
  {
    hide Nibbles, LowNibble, HighNibble, DigitsFrom, DigitPairs, AllBelow;
    if d == [] {
      NoPairs();
    } else {
      var x, others := Nibbles(d[1], d[0]), DigitsFrom(DigitPairs(d[2..]));
      PairThenPairs(d);
      NibblesRoundTrip(d[1], d[0]);
      DigitPairsRoundTrip(d[2..]);
      HeadAndTail(LowNibble(x), [HighNibble(x)] + others, d);
      HeadAndTail(HighNibble(x), others, d[1..]);
      assert d[1..][1..] == d[2..];
      assert [LowNibble(x), HighNibble(x)] + others == [LowNibble(x)] + ([HighNibble(x)] + others);
      AllBelowHeadAndTail(d, 16, 2);
      TwoBelow(d);
    }
  }

  lemma NoPairs()
    ensures DigitsFrom(DigitPairs([])) == [] && AllBelow([], 16)
  {
  }

  lemma TwoBelow(d: seq<octet>)
    requires |d| >= 2
    ensures AllBelow(d[..2], 16) <==> d[0] < 16 && d[1] < 16
  {
    assert d[..2] == [d[0], d[1]];
  }

  /** Low three bits and parity bit of the first octet, for every first digit. */
  lemma FirstImsiOctetFields(d: seq<octet>)
    requires |d| >= 1
    ensures FirstImsiOctet(d) % 8 == MOBILE_ID_IMSI
    ensures HasBit(FirstImsiOctet(d), 8) <==> |d| % 2 == 1
    ensures HighNibble(FirstImsiOctet(d)) == d[0] <==> d[0] < 16
  {
    hide Or;
    var low := if |d| % 2 == 1 then 8 + MOBILE_ID_IMSI else MOBILE_ID_IMSI;
    var digit: int := d[0];
    assert (digit * 16) % 256 == (digit % 16) * 16;
    OrAbove(digit % 16, low, 16);
  }

  lemma ImsiRoundTrip(d: seq<octet>, rest: seq<octet>)
    requires |d| >= 1
    ensures RoundTrips(IeImsi(d), rest) <==> Representable(IeImsi(d))
  {
    hide FirstImsiOctet, DigitPairs, ReadImsi;
    var length := |d| / 2 + 1;
    var e := Encoding(IeImsi(d));
    var s := e + rest;
    assert s[0] == IEI_IMSI;
    if length < 0x8000 {
      ImsiRead(d, rest);
    } else if |d| == 0xfffe {
      LongestImsiRead(d, rest);
    }
  }

  /** The one unrepresentable length that a truncated indicator turns into zero. */
  lemma LongestImsiRead(d: seq<octet>, rest: seq<octet>)
    requires |d| == 0xfffe
    ensures var r := ReadImsi(Encoding(IeImsi(d)) + rest);
            r.Got? ==> |r.value| <= 2
  {
    hide FirstImsiOctet, DigitPairs;
    var s := Encoding(IeImsi(d)) + rest;
    assert LengthOctets(0x8000) == [0, 0];
    assert s[1] == 0 && s[2] == 0;
    assert s[1..][0] == 0 && s[1..][1] == 0;
    assert ReadHeader(s, IEI_IMSI) == Got(0, 3);
    assert s[4..4] == [];
  }

  /** Where the parts of an encoded IMSI are in front of `rest`. */
  lemma ImsiParts(d: seq<octet>, rest: seq<octet>)
    requires |d| >= 1 && |d| / 2 + 1 < 0x8000
    ensures var s, h, end := Encoding(IeImsi(d)) + rest, 1 + |LengthOctets(|d| / 2 + 1)|, |Encoding(IeImsi(d))|;
            && ReadHeader(s, IEI_IMSI) == Got(|d| / 2 + 1, h) && end == h + |d| / 2 + 1 <= |s|
            && s[h] == FirstImsiOctet(d) && s[h + 1..end] == DigitPairs(d[1..]) && s[end..] == rest
  {
    hide FirstImsiOctet, DigitPairs;
    var length, body := |d| / 2 + 1, ImsiOctets(d);
    TlvHeader(IEI_IMSI, length, body, rest);
    TlvBody(IEI_IMSI, length, body, rest, 1);
    var s, h := Encoding(IeImsi(d)) + rest, 1 + |LengthOctets(length)|;
    assert s[h] == s[h..][0] == FirstImsiOctet(d);
    assert body[1..] == DigitPairs(d[1..]);
  }

  /** The decoder's digits and cursor, for odd and for even digit counts. */
  lemma ImsiRead(d: seq<octet>, rest: seq<octet>)
    requires |d| >= 1 && |d| / 2 + 1 < 0x8000
    ensures var e := Encoding(IeImsi(d));
            var r := ReadImsi(e + rest);
            && (|d| % 2 == 1 ==> r.Got? && r.used == |e| && (r.value == d <==> AllBelow(d, 16)))
            && (|d| % 2 == 0 && |rest| > 0 ==>
                  && r.Got? && r.used == |e| + 1 && |r.value| == |d| + 2
                  && (r.value == d + [0, rest[0] % 16] <==> AllBelow(d, 16)))
            && (|d| % 2 == 0 && |rest| == 0 ==> r.Overrun?)
  {
    hide FirstImsiOctet, DigitPairs, DigitsFrom, Or, Encoding, ReadHeader, LengthOctets, AllBelow, HighNibble;
    var e := Encoding(IeImsi(d));
    var s, h := e + rest, 1 + |LengthOctets(|d| / 2 + 1)|;
    ImsiParts(d, rest);
    FirstImsiOctetFields(d);
    var first := HighNibble(s[h]);
    if |d| % 2 == 1 {
      OddImsiValue(d, first);
    } else if |rest| > 0 {
      assert s[|e|] == s[|e|..][0];
      EvenImsiValue(d, first, rest[0]);
    }
  }

  lemma OddImsiValue(d: seq<octet>, first: octet)
    requires |d| % 2 == 1 && (first == d[0] <==> d[0] < 16)
    ensures [first] + DigitsFrom(DigitPairs(d[1..])) == d <==> AllBelow(d, 16)
  {
    hide DigitsFrom, DigitPairs, AllBelow;
    DigitPairsRoundTrip(d[1..]);
    HeadAndTail(first, DigitsFrom(DigitPairs(d[1..])), d);
    AllBelowHeadAndTail(d, 16, 1);
    FirstBelow(d);
  }

  /** The digits that come of an even number of digits and the octet behind them. */
  lemma EvenImsiValue(d: seq<octet>, first: octet, next: octet)
    requires |d| >= 1 && |d| % 2 == 0 && (first == d[0] <==> d[0] < 16)
    ensures [first] + DigitsFrom(DigitPairs(d[1..])) + [LowNibble(next)] == d + [0, next % 16] <==> AllBelow(d, 16)
  {
    hide DigitsFrom, DigitPairs, AllBelow;
    var others := DigitsFrom(DigitPairs(d[1..]));
    OddPairs(d[1..]);
    AllBelowHeadAndTail(d, 16, 1);
    assert d == [d[0]] + d[1..];
    var value := [first] + others + [LowNibble(next)];
    FirstBelow(d);
    if AllBelow(d, 16) {
      assert value == [d[0]] + (d[1..] + [0]) + [next % 16];
    }
    if value == d + [0, next % 16] {
      assert value[0] == d[0] && value[1..|d| + 1] == others && value[1..|d| + 1] == d[1..] + [0];
    }
  }

  lemma FirstBelow(d: seq<octet>)
    requires |d| >= 1
    ensures AllBelow(d[..1], 16) <==> d[0] < 16
  {
  }

  /** An odd number of digits gets a zero behind them. */
  lemma OddPairs(d: seq<octet>)
    requires |d| % 2 == 1
    ensures |DigitsFrom(DigitPairs(d))| == |d| + 1
    ensures DigitsFrom(DigitPairs(d)) == d + [0] <==> AllBelow(d, 16)
  {
    hide DigitsFrom, DigitPairs, AllBelow;
    var front, last := d[..|d| - 1], d[|d| - 1];
    assert d == front + [last] && d[|d| - 1..] == [last];
    PairsSnoc(front, last);
    DigitPairsRoundTrip(front);
    AllBelowHeadAndTail(d, 16, |d| - 1);
    FirstBelow([last]);
    assert [last][..1] == [last];
    SnocEquals(DigitsFrom(DigitPairs(front)), front, last);
  }

  lemma SnocEquals(others: seq<octet>, front: seq<octet>, last: octet)
    requires |others| == |front|
    ensures others + [last % 16, last / 16] == front + [last] + [0] <==> others == front && last < 16
  {
    var a, b := others + [last % 16, last / 16], front + [last] + [0];
    if a == b {
      assert a[..|front|] == others && b[..|front|] == front && a[|front|] == b[|front|];
    }
    if others == front && last < 16 {
      assert a == b;
    }
  }

  lemma {:induction false} PairsSnoc(front: seq<octet>, last: octet)
    requires |front| % 2 == 0
    ensures DigitsFrom(DigitPairs(front + [last])) == DigitsFrom(DigitPairs(front)) + [last % 16, last / 16]
  {
    hide Nibbles;
    var d := front + [last];
    if front == [] {
      assert DigitPairs(d) == [last] && [last][1..] == [];
    } else {
      assert d[2..] == front[2..] + [last];
      PairsSnoc(front[2..], last);
      PairThenPairs(d);
      PairThenPairs(front);
    }
  }

  // ----- LSA identifiers -----

  lemma {:induction false} LsaIdsRoundTrip(ids: seq<u32>)
    ensures LsaIdsFrom(LsaIdOctets(ids), |ids|) == ids <==> AllBelow(ids, 0x100_0000)
  {
    hide Be24, FromBe24;
    if ids != [] {
      var b := LsaIdOctets(ids);
      assert b[..3] == Be24(ids[0]) && b[3..] == LsaIdOctets(ids[1..]);
      Be24RoundTrip(ids[0]);
      LsaIdsRoundTrip(ids[1..]);
      HeadAndTail(FromBe24(b[..3]), LsaIdsFrom(b[3..], |ids| - 1), ids);
      AllBelowHeadAndTail(ids, 0x100_0000, 1);
    }
  }

  lemma LsaListRead(l: LsaIdList, rest: seq<octet>)
    requires 3 * |l.ids| + 1 < 0x8000
    ensures var e := Encoding(IeLsaIdList(l));
            ReadLsaIdList(e + rest) == Got(LsaIdList(l.ep % 2, LsaIdsFrom(LsaIdOctets(l.ids), |l.ids|)), |e|)
  {
    hide LsaIdOctets, LsaIdsFrom;
    var length := 3 * |l.ids| + 1;
    var body := [l.ep % 2] + LsaIdOctets(l.ids);
    var s := Encoding(IeLsaIdList(l)) + rest;
    var h := 1 + |LengthOctets(length)|;
    TlvHeader(IEI_LSA_ID_LIST, length, body, rest);
    TlvBody(IEI_LSA_ID_LIST, length, body, rest, 1);
    assert s[h] == s[h..][0] == l.ep % 2;
    assert body[1..] == LsaIdOctets(l.ids);
  }

  lemma LsaListRoundTrip(l: LsaIdList, rest: seq<octet>)
    ensures RoundTrips(IeLsaIdList(l), rest) <==> Representable(IeLsaIdList(l))
  {
    hide LsaIdOctets, LsaIdsFrom, AllBelow, ReadFixedIe;
    assert (Encoding(IeLsaIdList(l)) + rest)[0] == IEI_LSA_ID_LIST;
    if 3 * |l.ids| + 1 < 0x8000 {
      LsaListRead(l, rest);
      LsaIdsRoundTrip(l.ids);
    }
  }

  // ----- radio access capability -----

  lemma OrOctetAbove(high: nat, low: octet, unit: nat)
    requires unit in {2, 4, 16, 128} && low < unit && high * unit < 256
    ensures OrOctet(high * unit, low) == high * unit + low
  {
    OrAbove(high, low, unit);
  }

  lemma HscsdFields(m: Multislot)
    requires MultislotFits(m)
    ensures HscsdOctet(m) == 128 * m.hscsdPresent + m.hscsdClass
  {
    hide Or;
    OrOctetAbove(m.hscsdPresent, m.hscsdClass, 128);
  }

  lemma GprsFields(m: Multislot)
    requires MultislotFits(m)
    ensures GprsOctet(m) == 128 * m.gprsPresent + 4 * m.gprsClass + 2 * m.gprsDynamic + m.smsPresent
  {
    hide Or;
    OrOctetAbove(m.gprsPresent, 4 * m.gprsClass, 128);
    OrOctetAbove(32 * m.gprsPresent + m.gprsClass, 2 * m.gprsDynamic, 4);
    OrOctetAbove(64 * m.gprsPresent + 2 * m.gprsClass + m.gprsDynamic, m.smsPresent, 2);
  }

  lemma MultislotRead(m: Multislot)
    requires MultislotFits(m)
    ensures MultislotFrom(HscsdOctet(m), GprsOctet(m), Nibbles(m.smSwitch, m.smValue)) == m
  {
    hide Or, Nibbles, HscsdOctet, GprsOctet;
    var gprs := GprsOctet(m);
    NibblesFit(m.smSwitch, m.smValue);
    HscsdFields(m);
    assert && gprs / 4 == 32 * m.gprsPresent + m.gprsClass
           && gprs / 2 == 64 * m.gprsPresent + 2 * m.gprsClass + m.gprsDynamic by {
      GprsFields(m);
    }
    GprsFields(m);
  }

  /** Everything but the flags survives when the fields are in range. */
  lemma RaCapabilityRead(c: RaCapability)
    requires c.accessTech < 16 && c.rfPower < 8 && MultislotFits(c.slots)
    ensures RaCapabilityFrom(RaCapabilityOctets(c)) == c.(flags := NO_FLAGS)
  {
    hide Or, Nibbles, HscsdOctet, GprsOctet, A5Octet, ServiceOctet, MultislotFrom, MultislotFits;
    NibblesFit(c.accessTech, c.rfPower);
    MultislotRead(c.slots);
  }

  lemma RaCapabilityRoundTrip(c: RaCapability)
    ensures RaCapabilityFrom(RaCapabilityOctets(c)) == c <==> RaCapabilityFits(c)
  {
    if RaCapabilityFits(c) {
      RaCapabilityRead(c);
    }
  }

  predicate AllFit(cs: seq<RaCapability>)
  {
    forall i | 0 <= i < |cs| :: RaCapabilityFits(cs[i])
  }

  lemma AllFitHeadAndTail(cs: seq<RaCapability>)
    requires cs != []
    ensures AllFit(cs) <==> RaCapabilityFits(cs[0]) && AllFit(cs[1..])
  {
    hide RaCapabilityFits;
    if RaCapabilityFits(cs[0]) && AllFit(cs[1..]) {
      forall i | 0 <= i < |cs| ensures RaCapabilityFits(cs[i]) { if i > 0 { assert cs[i] == cs[1..][i - 1]; } }
    }
  }

  lemma {:induction false} RaCapsRoundTrip(cs: seq<RaCapability>)
    ensures RaCapFrom(RaCapOctets(cs), |cs|) == cs <==> AllFit(cs)
  {
    hide RaCapabilityOctets, RaCapabilityFrom, RaCapabilityFits;
    if cs != [] {
      var b := RaCapOctets(cs);
      assert b[..6] == RaCapabilityOctets(cs[0]) && b[6..] == RaCapOctets(cs[1..]);
      RaCapabilityRoundTrip(cs[0]);
      RaCapsRoundTrip(cs[1..]);
      HeadAndTail(RaCapabilityFrom(b[..6]), RaCapFrom(b[6..], |cs| - 1), cs);
      AllFitHeadAndTail(cs);
    }
  }

  lemma RaCapListRead(cs: seq<RaCapability>, rest: seq<octet>)
    requires |cs| < 256
    ensures var e := Encoding(IeRaCap(cs));
            ReadRaCap(e + rest) == Got(RaCapFrom(RaCapOctets(cs), |cs|), |e|)
  {
    hide RaCapOctets, RaCapFrom;
    var length := 6 * |cs| + 1;
    var body := [|cs| % 256] + RaCapOctets(cs);
    var s := Encoding(IeRaCap(cs)) + rest;
    var h := 1 + |LengthOctets(length)|;
    TlvHeader(IEI_MS_RADIO_ACCESS_CAP, length, body, rest);
    TlvBody(IEI_MS_RADIO_ACCESS_CAP, length, body, rest, 1);
    assert s[h] == s[h..][0] == |cs|;
    assert body[1..] == RaCapOctets(cs);
  }

  lemma RaCapListRoundTrip(cs: seq<RaCapability>, rest: seq<octet>)
    ensures RoundTrips(IeRaCap(cs), rest) <==> Representable(IeRaCap(cs))
  {
    hide RaCapOctets, RaCapFrom, AllFit, ReadFixedIe;
    var s := Encoding(IeRaCap(cs)) + rest;
    assert s[0] == IEI_MS_RADIO_ACCESS_CAP;
    if |cs| < 256 {
      RaCapListRead(cs, rest);
      RaCapsRoundTrip(cs);
    }
  }

  lemma LlcRoundTrip(pdu: seq<octet>, rest: seq<octet>)
    ensures RoundTrips(IeLlcPdu(pdu), rest) <==> Representable(IeLlcPdu(pdu))
  {
    var s := Encoding(IeLlcPdu(pdu)) + rest;
    assert s[0] == IEI_LLC_PDU;
    if |pdu| < 0x8000 {
      TlvHeader(IEI_LLC_PDU, |pdu|, pdu, rest);
      TlvBody(IEI_LLC_PDU, |pdu|, pdu, rest, 0);
    }
  }

  lemma AlignmentRoundTrip(spare: seq<octet>, rest: seq<octet>)
    ensures RoundTrips(IeAlignment(spare), rest) <==> Representable(IeAlignment(spare))
  {
    var s := Encoding(IeAlignment(spare)) + rest;
    assert s[0] == IEI_ALIGNMENT_OCTETS;
    if |spare| < 0x8000 {
      TlvHeader(IEI_ALIGNMENT_OCTETS, |spare|, spare, rest);
      TlvBody(IEI_ALIGNMENT_OCTETS, |spare|, spare, rest, 0);
    }
  }

  lemma BssAreaRoundTrip(spare: seq<octet>, rest: seq<octet>)
    ensures RoundTrips(IeBssArea(spare), rest) <==> Representable(IeBssArea(spare))
  {
    var s := Encoding(IeBssArea(spare)) + rest;
    assert s[0] == IEI_BSS_AREA_IND;
    TlvHeader(IEI_BSS_AREA_IND, 1, spare, rest);
    if |spare| == 1 {
      TlvBody(IEI_BSS_AREA_IND, 1, spare, rest, 0);
    }
  }

  lemma CellIdRoundTrip(c: CellIdentifier, rest: seq<octet>)
    ensures RoundTrips(IeCellId(c), rest) <==> Representable(IeCellId(c))
  {
    hide RoutingAreaOctets, RoutingAreaFrom;
    var body := RoutingAreaOctets(c.area) + Be16(c.cell);
    FixedRoundTrip(IEI_CELL_ID, 8, body, rest, Exactly(8));
    assert body[..6] == RoutingAreaOctets(c.area) && body[6..] == Be16(c.cell);
    RoutingAreaRoundTrip(c.area);
  }

  lemma LocationAreaRoundTrip(la: LocationArea, rest: seq<octet>)
    ensures RoundTrips(IeLocationArea(la), rest) <==> Representable(IeLocationArea(la))
  {
    hide PlmnOctets, PlmnFrom;
    var body := PlmnOctets(la.plmn) + Be16(la.lac);
    FixedRoundTrip(IEI_LOCATION_AREA, 7, body, rest, AnyLength);
    assert body[..3] == PlmnOctets(la.plmn) && body[3..] == Be16(la.lac);
    PlmnRoundTrip(la.plmn);
  }

  lemma BvciRoundTrip(v: u16, rest: seq<octet>)
    ensures RoundTrips(IeBvci(v), rest) <==> Representable(IeBvci(v))
  {
    FixedRoundTrip(IEI_BVCI, 2, Be16(v), rest, Exactly(2));
  }

  lemma PduLifetimeRoundTrip(v: u16, rest: seq<octet>)
    ensures RoundTrips(IePduLifetime(v), rest) <==> Representable(IePduLifetime(v))
  {
    FixedRoundTrip(IEI_PDU_LIFETIME, 2, Be16(v), rest, Exactly(2));
  }

  lemma TlliRoundTrip(v: u32, rest: seq<octet>)
    ensures RoundTrips(IeTlli(v), rest) <==> Representable(IeTlli(v))
  {
    hide Be32, FromBe32;
    FixedRoundTrip(IEI_TLLI, 4, Be32(v), rest, Exactly(4));
    Be32RoundTrip(v);
  }

  lemma TmsiRoundTrip(v: u32, rest: seq<octet>)
    ensures RoundTrips(IeTmsi(v), rest) <==> Representable(IeTmsi(v))
  {
    hide Be32, FromBe32;
    FixedRoundTrip(IEI_TMSI, 4, Be32(v), rest, Exactly(4));
    Be32RoundTrip(v);
  }

  lemma DrxElementRoundTrip(v: Drx, rest: seq<octet>)
    ensures RoundTrips(IeDrx(v), rest) <==> Representable(IeDrx(v))
  {
    hide DrxOctets, DrxFrom;
    FixedRoundTrip(IEI_DRX_PARAMS, 2, DrxOctets(v), rest, Exactly(2));
    DrxRoundTrip(v);
  }

  lemma QosParamsRoundTrip(v: QosParams, rest: seq<octet>)
    ensures RoundTrips(IeQosParams(v), rest) <==> Representable(IeQosParams(v))
  {
    hide QosParamsOctets, QosParamsFrom;
    FixedRoundTrip(IEI_QOS_PARAMS, 5, QosParamsOctets(v), rest, Exactly(5));
    QosParamsValueRoundTrip(v);
  }

  lemma QosElementRoundTrip(v: QosProfile, rest: seq<octet>)
    ensures RoundTrips(IeQosProfile(v), rest) <==> Representable(IeQosProfile(v))
  {
    hide QosProfileOctets, QosProfileFrom;
    FixedRoundTrip(IEI_QOS_PROFILE, 3, QosProfileOctets(v), rest, AnyLength);
    QosRoundTrip(v);
  }

  lemma RoutingAreaElementRoundTrip(v: RoutingArea, rest: seq<octet>)
    ensures RoundTrips(IeRoutingArea(v), rest) <==> Representable(IeRoutingArea(v))
  {
    hide RoutingAreaOctets, RoutingAreaFrom;
    FixedRoundTrip(IEI_ROUTING_AREA, 7, RoutingAreaOctets(v), rest, Exactly(7));
    RoutingAreaRoundTrip(v);
  }

  /** LSA Information and Priority are refused whatever they hold. */
  lemma NeverRead(ie: Ie, rest: seq<octet>)
    requires ie.IeLsaInfo? || ie.IePriority?
    ensures ReadIe(Encoding(ie) + rest) == Refused
    ensures RoundTrips(ie, rest) <==> Representable(ie)
  {
    hide LsaInfoOctets;
    assert (Encoding(ie) + rest)[0] == if ie.IeLsaInfo? then IEI_LSA_INFORMATION else IEI_PRIORITY;
  }

  /**
   Every element of every kind comes back, with the cursor exactly behind it,
   if and only if it is representable.
   */
  lemma ElementSurvivesIffRepresentable(ie: Ie, rest: seq<octet>)
    requires Encodable(ie)
    ensures RoundTrips(ie, rest) <==> Representable(ie)
  {
    hide RoundTrips, Representable;
    match ie
    case IeAlignment(spare) => AlignmentRoundTrip(spare, rest);
    case IeBssArea(spare) => BssAreaRoundTrip(spare, rest);
    case IeCellId(c) => CellIdRoundTrip(c, rest);
    case IeImsi(d) => ImsiRoundTrip(d, rest);
    case IeLlcPdu(pdu) => LlcRoundTrip(pdu, rest);
    case IeLocationArea(la) => LocationAreaRoundTrip(la, rest);
    case IeLsaIdList(l) => LsaListRoundTrip(l, rest);
    case IeLsaInfo(only, es) => NeverRead(ie, rest);
    case IePriority(p) => NeverRead(ie, rest);
    case IeRaCap(cs) => RaCapListRoundTrip(cs, rest);
    case IeBvci(v) => BvciRoundTrip(v, rest);
    case IeDrx(v) => DrxElementRoundTrip(v, rest);
    case IePduLifetime(v) => PduLifetimeRoundTrip(v, rest);
    case IeQosParams(v) => QosParamsRoundTrip(v, rest);
    case IeQosProfile(v) => QosElementRoundTrip(v, rest);
    case IeRoutingArea(v) => RoutingAreaElementRoundTrip(v, rest);
    case IeTlli(v) => TlliRoundTrip(v, rest);
    case IeTmsi(v) => TmsiRoundTrip(v, rest);
  }

  // ----- the capability flags -----

  function Cleared(cs: seq<RaCapability>): (r: seq<RaCapability>)
    ensures |r| == |cs|
  {
    if cs == [] then [] else [cs[0].(flags := NO_FLAGS)] + Cleared(cs[1..])
  }

  /** The element the decoder reports: capability flags are lost, the rest is kept. */
  function Seen(ie: Ie): Ie
  {
    if ie.IeRaCap? then IeRaCap(Cleared(ie.caps)) else ie
  }

  lemma {:induction false} RaCapsReadCleared(cs: seq<RaCapability>)
    requires AllFit(Cleared(cs))
    ensures RaCapFrom(RaCapOctets(cs), |cs|) == Cleared(cs)
  {
    hide RaCapabilityOctets, RaCapabilityFrom;
    if cs != [] {
      var b := RaCapOctets(cs);
      assert b[..6] == RaCapabilityOctets(cs[0]) && b[6..] == RaCapOctets(cs[1..]);
      AllFitHeadAndTail(Cleared(cs));
      assert Cleared(cs)[1..] == Cleared(cs[1..]);
      RaCapabilityRead(cs[0]);
      RaCapsReadCleared(cs[1..]);
    }
  }

  lemma RaCapReadAsSeen(cs: seq<RaCapability>, rest: seq<octet>)
    requires Representable(IeRaCap(Cleared(cs)))
    ensures ReadIe(Encoding(IeRaCap(cs)) + rest) == Got(IeRaCap(Cleared(cs)), |Encoding(IeRaCap(cs))|)
  {
    hide RaCapOctets, RaCapFrom, AllFit, ReadFixedIe;
    assert (Encoding(IeRaCap(cs)) + rest)[0] == IEI_MS_RADIO_ACCESS_CAP;
    RaCapListRead(cs, rest);
    RaCapsReadCleared(cs);
  }

  /** An element whose visible part is representable is read as that visible part. */
  lemma ElementReadAsSeen(ie: Ie, rest: seq<octet>)
    requires Encodable(ie) && Representable(Seen(ie))
    ensures ReadIe(Encoding(ie) + rest) == Got(Seen(ie), |Encoding(ie)|)
  {
    hide Encoding, ReadIe, Representable;
    if ie.IeRaCap? {
      RaCapReadAsSeen(ie.caps, rest);
    } else {
      ElementSurvivesIffRepresentable(ie, rest);
    }
  }

  // ----- everything a decoder yields is in range -----

  /** Representable, but for the parity of an IMSI and for octets that are skipped. */
  predicate InRange(ie: Ie)
  {
    match ie
    case IeImsi(d) => |d| < 0xffff && AllBelow(d, 16)
    case IeBssArea(_) => true
    case _ => Representable(ie)
  }

  lemma {:induction false} DigitsFromRange(b: seq<octet>)
    ensures AllBelow(DigitsFrom(b), 16)
  {
    if b != [] {
      DigitsFromRange(b[1..]);
      AllBelowHeadAndTail(DigitsFrom(b), 16, 2);
    }
  }

  lemma {:induction false} LsaIdsFromRange(b: seq<octet>, count: nat)
    requires |b| == 3 * count
    ensures AllBelow(LsaIdsFrom(b, count), 0x100_0000)
  {
    if count > 0 {
      LsaIdsFromRange(b[3..], count - 1);
      AllBelowHeadAndTail(LsaIdsFrom(b, count), 0x100_0000, 1);
    }
  }

  lemma {:induction false} RaCapFromRange(b: seq<octet>, count: nat)
    requires |b| == 6 * count
    ensures AllFit(RaCapFrom(b, count))
  {
    if count > 0 {
      RaCapFromRange(b[6..], count - 1);
      AllFitHeadAndTail(RaCapFrom(b, count));
    }
  }

  lemma ImsiRange(s: seq<octet>)
    ensures ReadImsi(s).Got? ==> InRange(IeImsi(ReadImsi(s).value))
  {
    hide DigitsFrom;
    if ReadImsi(s).Got? {
      var d := ReadImsi(s).value;
      var h := ReadHeader(s, IEI_IMSI).used;
      var end := if HasBit(s[h], 8) then ReadImsi(s).used else ReadImsi(s).used - 1;
      DigitsFromRange(s[h + 1..end]);
      AllBelowHeadAndTail(d, 16, 1);
      if !HasBit(s[h], 8) {
        AllBelowHeadAndTail(d[1..], 16, |d| - 2);
        assert d[1..][..|d| - 2] == DigitsFrom(s[h + 1..end]);
      } else {
        assert d[1..] == DigitsFrom(s[h + 1..end]);
      }
    }
  }

  lemma LsaListRange(s: seq<octet>)
    ensures ReadLsaIdList(s).Got? ==> InRange(IeLsaIdList(ReadLsaIdList(s).value))
  {
    hide ReadHeader, LsaIdsFrom, AllBelow;
    if ReadLsaIdList(s).Got? {
      var Got(n, h) := ReadHeader(s, IEI_LSA_ID_LIST);
      var count := if n == 0 then 0 else (n - 1) / 3;
      LsaIdsFromRange(s[h + 1..h + 1 + 3 * count], count);
    }
  }

  lemma RaCapRange(s: seq<octet>)
    ensures ReadRaCap(s).Got? ==> InRange(IeRaCap(ReadRaCap(s).value))
  {
    hide ReadHeader, RaCapFrom, AllFit;
    if ReadRaCap(s).Got? {
      var h := ReadHeader(s, IEI_MS_RADIO_ACCESS_CAP).used;
      var count: nat := s[h];
      RaCapFromRange(s[h + 1..h + 1 + 6 * count], count);
    }
  }

  lemma AlignmentRange(s: seq<octet>)
    ensures ReadAlignment(s).Got? ==> InRange(IeAlignment(ReadAlignment(s).value))
  {
    hide ReadHeader;
  }

  lemma LlcPduRange(s: seq<octet>)
    ensures ReadLlcPdu(s).Got? ==> InRange(IeLlcPdu(ReadLlcPdu(s).value))
  {
    hide ReadHeader;
  }

  lemma VariableRange(s: seq<octet>)
    requires |s| > 0 && ReadVariableIe(s).Got?
    ensures InRange(ReadVariableIe(s).value)
  {
    hide ReadImsi, ReadLsaIdList, ReadRaCap, ReadAlignment, ReadLlcPdu, ReadBssArea, InRange;
    ImsiRange(s);
    LsaListRange(s);
    RaCapRange(s);
    AlignmentRange(s);
    LlcPduRange(s);
    AnySpareOctet();
  }

  lemma AnySpareOctet()
    ensures forall spare: seq<octet> :: InRange(IeBssArea(spare))
  {
  }

  lemma AreaRange(s: seq<octet>)
    ensures ReadLocationArea(s).Got? ==> InRange(IeLocationArea(ReadLocationArea(s).value))
    ensures ReadRoutingArea(s).Got? ==> InRange(IeRoutingArea(ReadRoutingArea(s).value))
    ensures ReadCellId(s).Got? ==> InRange(IeCellId(ReadCellId(s).value))
  {
    hide ReadFixed, FromBe16;
  }

  lemma FixedRange(s: seq<octet>)
    requires |s| > 0 && HasFixedSize(s[0]) && ReadFixedIe(s).Got?
    ensures InRange(ReadFixedIe(s).value)
  {
    hide ReadFixed, ReadLocationArea, ReadRoutingArea, ReadCellId, PlmnFits, FromBe16, FromBe32, AllBelow, AllFit;
    AreaRange(s);
  }

  lemma ElementInRange(s: seq<octet>)
    requires ReadIe(s).Got?
    ensures InRange(ReadIe(s).value)
  {
    hide ReadVariableIe, ReadFixedIe, InRange;
    if HasFixedSize(s[0]) {
      FixedRange(s);
    } else {
      VariableRange(s);
    }
  }
}
