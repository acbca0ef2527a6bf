/**
 The wire format in numbers: what stands in which octet of every information
 element, once for the encoders and once for the decoders on any octets at all.
 */
module WireFormat {
  import opened Octets
  import opened InformationElements
  import opened ElementRoundTrip
  import opened ElementDecoder

  // ----- identifier and length -----

  /** The first octet is followed by the length `n`: one octet from 128 on, or the low seven bits and the rest. */
  predicate Announces(s: seq<octet>, n: nat, h: nat)
  {
    || (h == 2 && |s| >= 2 && s[1] >= 128 && n == s[1] - 128)
    || (h == 3 && |s| >= 3 && s[1] < 128 && n == s[1] + 128 * s[2] as int)
  }

  /** The length that the encoder announces, which for the two areas is not the number of octets. */
  function LengthSent(ie: Ie): nat
  {
    match ie
    case IeAlignment(spare) => |spare|
    case IeBssArea(_) => 1
    case IeBvci(_) => 2
    case IeCellId(_) => 8
    case IeDrx(_) => 2
    case IeImsi(d) => |d| / 2 + 1
    case IeLlcPdu(pdu) => |pdu|
    case IeLocationArea(_) => 7
    case IeLsaIdList(l) => 3 * |l.ids| + 1
    case IeLsaInfo(_, es) => 4 * |es| + 1
    case IePduLifetime(_) => 2
    case IePriority(_) => 1
    case IeQosParams(_) => 5
    case IeQosProfile(_) => 3
    case IeRaCap(cs) => 6 * |cs| + 1
    case IeRoutingArea(_) => 7
    case IeTlli(_) => 4
    case IeTmsi(_) => 4
  }

  function IdentifierSent(ie: Ie): int
  {
    match ie
    case IeAlignment(_) => 0x00
    case IeBssArea(_) => 0x02
    case IeBvci(_) => 0x04
    case IeCellId(_) => 0x08
    case IeDrx(_) => 0x0a
    case IeImsi(_) => 0x0d
    case IeLlcPdu(_) => 0x0e
    case IeLocationArea(_) => 0x10
    case IeLsaIdList(_) => 0x26
    case IeLsaInfo(_, _) => 0x27
    case IePduLifetime(_) => 0x16
    case IePriority(_) => 0x17
    case IeQosParams(_) => 0x28
    case IeQosProfile(_) => 0x18
    case IeRaCap(_) => 0x13
    case IeRoutingArea(_) => 0x1b
    case IeTlli(_) => 0x1f
    case IeTmsi(_) => 0x20
  }

  lemma TlvAnnounces(iei: octet, n: nat, body: seq<octet>)
    requires n < 0x8000
    ensures var e := Tlv(iei, n, body); var h := if n < 128 then 2 else 3;
            |e| == h + |body| && e[0] == iei && e[h..] == body && Announces(e, n, h)
  {
  }

  // ----- what the encoders write -----

  predicate Are(v: seq<octet>, xs: seq<int>)
  {
    |v| == |xs| && forall i :: 0 <= i < |v| ==> v[i] == xs[i]
  }

  function One(b: bool): int { if b then 1 else 0 }

  /** Values that fit in the bits they are given. */
  predicate InWidth(ie: Ie)
  {
    match ie
    case IeBssArea(spare) => |spare| == 1
    case IeCellId(c) => PlmnFits(c.area.plmn)
    case IeDrx(d) => d.nonDrxTimer < 128
    case IeImsi(d) => |d| >= 1 && AllBelow(d, 16)
    case IeLocationArea(la) => PlmnFits(la.plmn)
    case IeLsaIdList(l) => l.ep < 2 && AllBelow(l.ids, 0x100_0000)
    case IeLsaInfo(only, es) => only < 2 && forall i :: 0 <= i < |es| ==> EntryFits(es[i])
    case IeQosProfile(q) => q.precedence < 8
    case IeRaCap(cs) => |cs| < 256 && forall i :: 0 <= i < |cs| ==> CapabilityFits(cs[i])
    case IeRoutingArea(ra) => PlmnFits(ra.plmn)
    case _ => true
  }

  predicate EntryFits(e: LsaInfoEntry)
  {
    e.act < 8 && e.pref < 2 && e.priority < 16 && e.id < 0x100_0000
  }

  predicate CapabilityFits(c: RaCapability)
  {
    c.accessTech < 16 && c.rfPower < 16 && MultislotFits(c.slots)
  }

  /** The value octets of an element. */
  predicate Carries(v: seq<octet>, ie: Ie)
  {
    match ie
    case IeAlignment(spare) => v == spare
    case IeBssArea(spare) => v == spare
    case IeBvci(b) => Are(v, [b / 256, b % 256])
    case IeCellId(c) =>
      var a := c.area;
      Are(v, [16 * a.plmn.mcc1 + a.plmn.mcc0, 16 * a.plmn.mnc2 + a.plmn.mcc2, 16 * a.plmn.mnc1 + a.plmn.mnc0,
              a.lac / 256, a.lac % 256, a.rac, c.cell / 256, c.cell % 256])
    case IeDrx(d) => Are(v, [d.splitPgCycle, 128 * One(d.splitOnCcch) + d.nonDrxTimer])
    case IeImsi(d) => DigitsAt(v, d)
    case IeLlcPdu(pdu) => v == pdu
    case IeLocationArea(a) =>
      Are(v, [16 * a.plmn.mcc1 + a.plmn.mcc0, 16 * a.plmn.mnc2 + a.plmn.mcc2, 16 * a.plmn.mnc1 + a.plmn.mnc0,
              a.lac / 256, a.lac % 256])
    case IeLsaIdList(l) => CarriesIds(v, l)
    case IeLsaInfo(only, es) => CarriesEntries(v, only, es)
    case IePduLifetime(t) => Are(v, [t / 256, t % 256])
    case IePriority(p) => v == [p]
    case IeQosParams(q) => v == [q.delay, q.reliability, q.precedence, q.peak, q.mean]
    case IeQosProfile(q) =>
      Are(v, [q.rate0, q.rate1, q.precedence + 8 * One(q.aBit) + 16 * One(q.tBit) + 32 * One(q.crBit)])
    case IeRaCap(cs) => CarriesCapabilities(v, cs)
    case IeRoutingArea(a) =>
      Are(v, [16 * a.plmn.mcc1 + a.plmn.mcc0, 16 * a.plmn.mnc2 + a.plmn.mcc2, 16 * a.plmn.mnc1 + a.plmn.mnc0,
              a.lac / 256, a.lac % 256, a.rac])
    case IeTlli(t) => Are(v, [t / 0x100_0000, t / 0x1_0000 % 256, t / 256 % 256, t % 256])
    case IeTmsi(t) => Are(v, [t / 0x100_0000, t / 0x1_0000 % 256, t / 256 % 256, t % 256])
  }

  /** Member `i` of a list of members of `size` octets, behind one octet. */
  function Member(v: seq<octet>, size: nat, i: nat): seq<octet>
    requires size in [3, 4, 6]
  {
    if 1 + size * i + size <= |v| then v[1 + size * i..1 + size * i + size] else []
  }

  predicate CarriesIds(v: seq<octet>, l: LsaIdList)
  {
    |v| == 1 + 3 * |l.ids| && v[0] == l.ep && forall i :: 0 <= i < |l.ids| ==> Carries24(Member(v, 3, i), l.ids[i])
  }

  predicate CarriesEntries(v: seq<octet>, only: octet, es: seq<LsaInfoEntry>)
  {
    |v| == 1 + 4 * |es| && v[0] == only && forall i :: 0 <= i < |es| ==> CarriesEntry(Member(v, 4, i), es[i])
  }

  predicate CarriesCapabilities(v: seq<octet>, cs: seq<RaCapability>)
  {
    |v| == 1 + 6 * |cs| && v[0] == |cs| && forall i :: 0 <= i < |cs| ==> CarriesCapability(Member(v, 6, i), cs[i])
  }

  predicate Carries24(v: seq<octet>, id: u32)
  {
    |v| == 3 && v[0] as int * 0x1_0000 + v[1] as int * 256 + v[2] == id
  }

  predicate CarriesEntry(v: seq<octet>, e: LsaInfoEntry)
  {
    |v| == 4 && v[0] == 32 * e.act as int + 16 * e.pref + e.priority && Carries24(v[1..], e.id)
  }

  /** Identity type 1 and the odd indication in the first octet; digits two to an octet from its high half on. */
  predicate DigitsAt(v: seq<octet>, d: seq<octet>)
  {
    && |v| == |d| / 2 + 1 && v[0] % 8 == 1 && (v[0] / 8 % 2 == 1 <==> |d| % 2 == 1)
    && forall i :: 0 <= i < |d| ==> d[i] == if i % 2 == 0 then v[(i + 1) / 2] / 16 else v[(i + 1) / 2] % 16
  }

  /** Access technology, A5 algorithms, services, HSCSD class, GPRS class, switch measure values. */
  predicate CarriesCapability(v: seq<octet>, c: RaCapability)
  {
    var m := c.slots;
    && |v| == 6
    && v[0] == 16 * c.accessTech as int + c.rfPower
    && CarriesFlags(v[1], v[2], c.flags)
    && v[3] == 128 * m.hscsdPresent as int + m.hscsdClass
    && v[4] == 128 * m.gprsPresent as int + 4 * m.gprsClass as int + 2 * m.gprsDynamic as int + m.smsPresent
    && v[5] == 16 * m.smSwitch as int + m.smValue
  }

  predicate CarriesFlags(a5: octet, services: octet, f: RaFlags)
  {
    && a5 == One(f.a51) + 2 * One(f.a52) + 4 * One(f.a53) + 8 * One(f.a54) + 16 * One(f.a55) + 32 * One(f.a56)
             + 64 * One(f.a57)
    && services == 16 * One(f.es) + 8 * One(f.ps) + 4 * One(f.vgcs) + 2 * One(f.vbs)
  }

  lemma PlmnCarried(p: Plmn)
    requires PlmnFits(p)
    ensures PlmnOctets(p) == [16 * p.mcc1 + p.mcc0, 16 * p.mnc2 + p.mcc2, 16 * p.mnc1 + p.mnc0]
  {
    hide Nibbles;
    NibblesFit(p.mcc1, p.mcc0);
    NibblesFit(p.mnc2, p.mcc2);
    NibblesFit(p.mnc1, p.mnc0);
  }

  lemma {:induction false} DigitPairsCarry(d: seq<octet>, j: nat)
    requires j < |DigitPairs(d)| && AllBelow(d, 16)
    ensures d[2 * j] == DigitPairs(d)[j] % 16
    ensures 2 * j + 1 < |d| ==> d[2 * j + 1] == DigitPairs(d)[j] / 16
  {
    hide Nibbles;
    if |d| >= 2 {
      NibblesFit(d[1], d[0]);
      if j > 0 {
        DigitPairsCarry(d[2..], j - 1);
        assert DigitPairs(d)[j] == DigitPairs(d[2..])[j - 1];
      }
    }
  }

  lemma ImsiCarried(d: seq<octet>)
    requires |d| >= 1 && AllBelow(d, 16)
    ensures DigitsAt(ImsiOctets(d), d)
  {
    hide Nibbles, DigitPairs;
    var v := ImsiOctets(d);
    NibblesFit(d[0], if |d| % 2 == 1 then 9 else 1);
    forall i | 1 <= i < |d| ensures d[i] == if i % 2 == 0 then v[(i + 1) / 2] / 16 else v[(i + 1) / 2] % 16 {
      DigitPairsCarry(d[1..], (i - 1) / 2);
      assert v[(i + 1) / 2] == DigitPairs(d[1..])[(i - 1) / 2];
    }
  }

  lemma {:induction false} LsaIdAt(ids: seq<u32>, i: nat)
    requires i < |ids|
    ensures LsaIdOctets(ids)[3 * i..3 * i + 3] == Be24(ids[i])
  {
    hide Be24;
    if i > 0 {
      LsaIdAt(ids[1..], i - 1);
      assert LsaIdOctets(ids)[3 * i..3 * i + 3] == LsaIdOctets(ids[1..])[3 * (i - 1)..3 * (i - 1) + 3];
    }
  }

  lemma {:induction false} LsaInfoAt(es: seq<LsaInfoEntry>, i: nat)
    requires i < |es|
    ensures LsaInfoOctets(es)[4 * i..4 * i + 4] == LsaInfoEntryOctets(es[i])
  {
    hide LsaInfoEntryOctets;
    if i > 0 {
      LsaInfoAt(es[1..], i - 1);
      assert LsaInfoOctets(es)[4 * i..4 * i + 4] == LsaInfoOctets(es[1..])[4 * (i - 1)..4 * (i - 1) + 4];
    }
  }

  lemma {:induction false} RaCapAt(cs: seq<RaCapability>, i: nat)
    requires i < |cs|
    ensures RaCapOctets(cs)[6 * i..6 * i + 6] == RaCapabilityOctets(cs[i])
  {
    hide RaCapabilityOctets;
    if i > 0 {
      RaCapAt(cs[1..], i - 1);
      assert RaCapOctets(cs)[6 * i..6 * i + 6] == RaCapOctets(cs[1..])[6 * (i - 1)..6 * (i - 1) + 6];
    }
  }

  lemma EntryCarried(e: LsaInfoEntry)
    requires EntryFits(e)
    ensures CarriesEntry(LsaInfoEntryOctets(e), e)
  {
    hide Or;
    OrAct(e.act, e.pref);
    OrOctetAbove(2 * e.act + e.pref, e.priority, 16);
  }

  /** `act << 5 | pref << 4`. */
  lemma OrAct(act: octet, pref: octet)
    requires act < 8 && pref < 2
    ensures OrOctet(32 * act, 16 * pref) == 32 * act + 16 * pref
  {
    assert Pow2(5) == 32;
    OrDisjoint(act, 16 * pref, 5);
  }

  lemma FlagsCarried(f: RaFlags)
    ensures CarriesFlags(A5Octet(f), ServiceOctet(f), f)
  {
    hide Bit, One;
    forall b: bool ensures Bit(b, 1) == One(b) && Bit(b, 2) == 2 * One(b) && Bit(b, 4) == 4 * One(b)
                        && Bit(b, 8) == 8 * One(b) && Bit(b, 16) == 16 * One(b) && Bit(b, 32) == 32 * One(b)
                        && Bit(b, 64) == 64 * One(b)
    {
      BitsOf(b);
    }
  }

  lemma BitsOf(b: bool)
    ensures Bit(b, 1) == One(b) && Bit(b, 2) == 2 * One(b) && Bit(b, 4) == 4 * One(b) && Bit(b, 8) == 8 * One(b)
    ensures Bit(b, 16) == 16 * One(b) && Bit(b, 32) == 32 * One(b) && Bit(b, 64) == 64 * One(b)
  {
  }

  lemma CapabilityCarried(c: RaCapability)
    requires CapabilityFits(c)
    ensures CarriesCapability(RaCapabilityOctets(c), c)
  {
    hide Or, Nibbles, HscsdOctet, GprsOctet, A5Octet, ServiceOctet, CarriesFlags;
    FlagsCarried(c.flags);
    NibblesFit(c.accessTech, c.rfPower);
    NibblesFit(c.slots.smSwitch, c.slots.smValue);
    HscsdFields(c.slots);
    GprsFields(c.slots);
  }

  lemma BehindFirst(first: octet, b: seq<octet>, size: nat, i: nat)
    requires size in [3, 4, 6] && size * i + size <= |b|
    ensures Member([first] + b, size, i) == b[size * i..size * i + size]
  {
  }

  lemma IdCarried(id: u32)
    requires id < 0x100_0000
    ensures Carries24(Be24(id), id)
  {
  }

  lemma IdAt(first: octet, ids: seq<u32>, i: nat)
    requires i < |ids| && ids[i] < 0x100_0000
    ensures Carries24(Member([first] + LsaIdOctets(ids), 3, i), ids[i])
  {
    hide LsaIdOctets, Carries24, Member, Be24;
    LsaIdAt(ids, i);
    IdCarried(ids[i]);
    BehindFirst(first, LsaIdOctets(ids), 3, i);
  }

  lemma EntryAt(first: octet, es: seq<LsaInfoEntry>, i: nat)
    requires i < |es| && EntryFits(es[i])
    ensures CarriesEntry(Member([first] + LsaInfoOctets(es), 4, i), es[i])
  {
    hide LsaInfoOctets, LsaInfoEntryOctets, EntryFits, CarriesEntry, Member;
    LsaInfoAt(es, i);
    EntryCarried(es[i]);
    BehindFirst(first, LsaInfoOctets(es), 4, i);
  }

  lemma CapabilityAt(first: octet, cs: seq<RaCapability>, i: nat)
    requires i < |cs| && CapabilityFits(cs[i])
    ensures CarriesCapability(Member([first] + RaCapOctets(cs), 6, i), cs[i])
  {
    hide RaCapOctets, RaCapabilityOctets, CapabilityFits, CarriesCapability, Member;
    RaCapAt(cs, i);
    CapabilityCarried(cs[i]);
    BehindFirst(first, RaCapOctets(cs), 6, i);
  }

  lemma IdsCarried(l: LsaIdList)
    requires AllBelow(l.ids, 0x100_0000)
    ensures CarriesIds([l.ep] + LsaIdOctets(l.ids), l)
  {
    hide LsaIdOctets, Carries24, Member;
    forall i | 0 <= i < |l.ids| ensures Carries24(Member([l.ep] + LsaIdOctets(l.ids), 3, i), l.ids[i]) {
      IdAt(l.ep, l.ids, i);
    }
  }

  lemma EntriesCarried(only: octet, es: seq<LsaInfoEntry>)
    requires forall i :: 0 <= i < |es| ==> EntryFits(es[i])
    ensures CarriesEntries([only] + LsaInfoOctets(es), only, es)
  {
    hide LsaInfoOctets, EntryFits, CarriesEntry, Member;
    forall i | 0 <= i < |es| ensures CarriesEntry(Member([only] + LsaInfoOctets(es), 4, i), es[i]) {
      EntryAt(only, es, i);
    }
  }

  lemma CapabilitiesCarried(number: octet, cs: seq<RaCapability>)
    requires |cs| == number && forall i :: 0 <= i < |cs| ==> CapabilityFits(cs[i])
    ensures CarriesCapabilities([number] + RaCapOctets(cs), cs)
  {
    hide RaCapOctets, CapabilityFits, CarriesCapability, Member;
    forall i | 0 <= i < |cs| ensures CarriesCapability(Member([number] + RaCapOctets(cs), 6, i), cs[i]) {
      CapabilityAt(number, cs, i);
    }
  }

  lemma AreaCarried(a: RoutingArea, cell: u16)
    requires PlmnFits(a.plmn)
    ensures Carries(RoutingAreaOctets(a), IeRoutingArea(a))
    ensures Carries(RoutingAreaOctets(a) + Be16(cell), IeCellId(CellIdentifier(a, cell)))
    ensures Carries(PlmnOctets(a.plmn) + Be16(a.lac), IeLocationArea(LocationArea(a.plmn, a.lac)))
  {
    hide PlmnOctets;
    PlmnCarried(a.plmn);
  }

  lemma QosCarried(q: QosProfile)
    requires q.precedence < 8
    ensures Carries(QosProfileOctets(q), IeQosProfile(q))
  {
  }

  lemma WordCarried(x: u16)
    ensures Are(Be16(x), [x / 256, x % 256])
  {
  }

  lemma LongCarried(x: u32)
    ensures Are(Be32(x), [x / 0x100_0000, x / 0x1_0000 % 256, x / 256 % 256, x % 256])
  {
    var high, low := x / 0x1_0000, x % 0x1_0000;
    assert high / 256 == x / 0x100_0000;
    assert x == 256 * (256 * high + low / 256) + low % 256;
    assert x % 256 == low % 256 && x / 256 == 256 * high + low / 256;
    assert x / 256 % 256 == low / 256;
  }

  lemma DrxCarried(d: Drx)
    requires d.nonDrxTimer < 128
    ensures Are(DrxOctets(d), [d.splitPgCycle, 128 * One(d.splitOnCcch) + d.nonDrxTimer])
  {
  }

  predicate OnWire(ie: Ie)
    requires Encodable(ie)
  {
    var e, h := Encoding(ie), if LengthSent(ie) < 128 then 2 else 3;
    |e| >= h && e[0] == IdentifierSent(ie) && Announces(e, LengthSent(ie), h) && Carries(e[h..], ie)
  }

  lemma FramedOnWire(ie: Ie, body: seq<octet>)
    requires Encodable(ie) && LengthSent(ie) < 0x8000 && Carries(body, ie)
    requires Encoding(ie) == Tlv(IdentifierSent(ie), LengthSent(ie), body)
    ensures OnWire(ie)
  {
    hide Tlv, Carries, Encoding, Announces, IdentifierSent, LengthSent;
    TlvAnnounces(IdentifierSent(ie), LengthSent(ie), body);
  }

  lemma ImsiOnWire(d: seq<octet>)
    requires |d| >= 1 && AllBelow(d, 16) && |d| / 2 + 1 < 0x8000
    ensures OnWire(IeImsi(d))
  {
    hide OnWire, Tlv, DigitsAt, ImsiOctets, AllBelow;
    ImsiCarried(d);
    FramedOnWire(IeImsi(d), ImsiOctets(d));
  }

  lemma ListOnWire(ie: Ie)
    requires ie.IeLsaIdList? || ie.IeLsaInfo? || ie.IeRaCap?
    requires InWidth(ie) && LengthSent(ie) < 0x8000
    ensures OnWire(ie)
  {
    hide OnWire, Tlv, CarriesIds, CarriesEntries, CarriesCapabilities, LsaIdOctets, LsaInfoOctets, RaCapOctets,
         AllBelow, EntryFits, CapabilityFits;
    match ie
    case IeLsaIdList(l) =>
      IdsCarried(l);
      FramedOnWire(ie, [l.ep % 2] + LsaIdOctets(l.ids));
    case IeLsaInfo(only, es) =>
      EntriesCarried(only, es);
      FramedOnWire(ie, [only % 2] + LsaInfoOctets(es));
    case IeRaCap(cs) =>
      CapabilitiesCarried(|cs|, cs);
      FramedOnWire(ie, [|cs| % 256] + RaCapOctets(cs));
  }

  lemma AreaOnWire(ie: Ie)
    requires ie.IeCellId? || ie.IeLocationArea? || ie.IeRoutingArea?
    requires InWidth(ie)
    ensures OnWire(ie)
  {
    hide Tlv, Are, RoutingAreaOctets, PlmnOctets, Be16, Announces;
    match ie
    case IeCellId(c) =>
      TlvAnnounces(IEI_CELL_ID, 8, RoutingAreaOctets(c.area) + Be16(c.cell));
      AreaCarried(c.area, c.cell);
    case IeLocationArea(la) =>
      TlvAnnounces(IEI_LOCATION_AREA, 7, PlmnOctets(la.plmn) + Be16(la.lac));
      AreaCarried(RoutingArea(la.plmn, la.lac, 0), 0);
    case IeRoutingArea(ra) =>
      TlvAnnounces(IEI_ROUTING_AREA, 7, RoutingAreaOctets(ra));
      AreaCarried(ra, 0);
  }

  /**
   Every element whose fields fit: its identifier, its announced length, and in
   numbers what each octet of its value holds.
   */
  lemma ElementOnWire(ie: Ie)
    requires InWidth(ie) && LengthSent(ie) < 0x8000
    ensures OnWire(ie)
  {
    hide Tlv, Are, CarriesIds, CarriesEntries, CarriesCapabilities, DigitsAt, LsaIdOctets, LsaInfoOctets, RaCapOctets,
         ImsiOctets, QosProfileOctets, DrxOctets, RoutingAreaOctets, PlmnOctets, Be16, Be32, Announces;
    match ie
    case IeAlignment(spare) => TlvAnnounces(IEI_ALIGNMENT_OCTETS, |spare|, spare);
    case IeBssArea(spare) => TlvAnnounces(IEI_BSS_AREA_IND, 1, spare);
    case IeBvci(v) => TlvAnnounces(IEI_BVCI, 2, Be16(v)); WordCarried(v);
    case IeDrx(d) => TlvAnnounces(IEI_DRX_PARAMS, 2, DrxOctets(d)); DrxCarried(d);
    case IeLlcPdu(pdu) => TlvAnnounces(IEI_LLC_PDU, |pdu|, pdu);
    case IePduLifetime(t) => TlvAnnounces(IEI_PDU_LIFETIME, 2, Be16(t)); WordCarried(t);
    case IePriority(p) => TlvAnnounces(IEI_PRIORITY, 1, [p]);
    case IeQosParams(q) => TlvAnnounces(IEI_QOS_PARAMS, 5, QosParamsOctets(q));
    case IeQosProfile(q) => TlvAnnounces(IEI_QOS_PROFILE, 3, QosProfileOctets(q)); QosCarried(q);
    case IeTlli(t) => TlvAnnounces(IEI_TLLI, 4, Be32(t)); LongCarried(t);
    case IeTmsi(t) => TlvAnnounces(IEI_TMSI, 4, Be32(t)); LongCarried(t);
    case IeImsi(d) => ImsiOnWire(d);
    case IeCellId(_) => AreaOnWire(ie);
    case IeLocationArea(_) => AreaOnWire(ie);
    case IeRoutingArea(_) => AreaOnWire(ie);
    case IeLsaIdList(_) => ListOnWire(ie);
    case IeLsaInfo(_, _) => ListOnWire(ie);
    case IeRaCap(_) => ListOnWire(ie);
  }

  // ----- what the decoders make of any octets -----

  predicate ShowsPlmn(v: seq<octet>, p: Plmn)
  {
    && |v| == 3 && p.mcc0 == v[0] % 16 && p.mcc1 == v[0] / 16 && p.mcc2 == v[1] % 16 && p.mnc2 == v[1] / 16
    && p.mnc0 == v[2] % 16 && p.mnc1 == v[2] / 16
  }

  predicate ShowsWord(v: seq<octet>, x: int)
  {
    |v| == 2 && x == 256 * v[0] as int + v[1]
  }

  predicate ShowsLong(v: seq<octet>, x: int)
  {
    |v| == 4 && x == 0x100_0000 * v[0] as int + 0x1_0000 * v[1] as int + 256 * v[2] as int + v[3]
  }

  predicate ShowsArea(v: seq<octet>, a: RoutingArea)
  {
    |v| == 6 && ShowsPlmn(v[..3], a.plmn) && ShowsWord(v[3..5], a.lac) && a.rac == v[5]
  }

  predicate ShowsQos(v: seq<octet>, q: QosProfile)
  {
    && |v| == 3 && q.rate0 == v[0] && q.rate1 == v[1] && q.precedence == v[2] % 8
    && (q.aBit <==> v[2] / 8 % 2 == 1) && (q.tBit <==> v[2] / 16 % 2 == 1) && (q.crBit <==> v[2] / 32 % 2 == 1)
  }

  predicate ShowsIds(v: seq<octet>, l: LsaIdList)
  {
    |v| == 1 + 3 * |l.ids| && l.ep == v[0] % 2
    && forall i :: 0 <= i < |l.ids| ==> Carries24(Member(v, 3, i), l.ids[i])
  }

  /** No flag is ever read. */
  predicate ShowsCapability(v: seq<octet>, c: RaCapability)
  {
    var f, m := c.flags, c.slots;
    && |v| == 6 && c.accessTech == v[0] / 16 && c.rfPower == v[0] % 8
    && !f.a51 && !f.a52 && !f.a53 && !f.a54 && !f.a55 && !f.a56 && !f.a57 && !f.es && !f.ps && !f.vgcs && !f.vbs
    && m.hscsdClass == v[3] % 32 && m.hscsdPresent == v[3] / 128
    && m.gprsClass == v[4] / 4 % 32 && m.gprsPresent == v[4] / 128 && m.gprsDynamic == v[4] / 2 % 2
    && m.smsPresent == v[4] % 2 && m.smValue == v[5] % 16 && m.smSwitch == v[5] / 16
  }

  predicate ShowsCapabilities(v: seq<octet>, cs: seq<RaCapability>)
  {
    |v| == 1 + 6 * |cs| && |cs| == v[0] && forall i :: 0 <= i < |cs| ==> ShowsCapability(Member(v, 6, i), cs[i])
  }

  /** What an element that was read has to do with the octets it was read from. */
  predicate Shows(v: seq<octet>, ie: Ie)
  {
    match ie
    case IeAlignment(spare) => spare == v
    case IeBssArea(spare) => spare == v
    case IeBvci(b) => ShowsWord(v, b)
    case IeCellId(c) => |v| == 8 && ShowsArea(v[..6], c.area) && ShowsWord(v[6..], c.cell)
    case IeDrx(d) =>
      |v| == 2 && d.splitPgCycle == v[0] && (d.splitOnCcch <==> v[1] >= 128) && d.nonDrxTimer == v[1] % 128
    case IeImsi(d) => DigitsAt(v, d)
    case IeLlcPdu(pdu) => pdu == v
    case IeLocationArea(la) => |v| == 5 && ShowsPlmn(v[..3], la.plmn) && ShowsWord(v[3..], la.lac)
    case IeLsaIdList(l) => ShowsIds(v, l)
    case IePduLifetime(t) => ShowsWord(v, t)
    case IeQosParams(q) => v == [q.delay, q.reliability, q.precedence, q.peak, q.mean]
    case IeQosProfile(q) => ShowsQos(v, q)
    case IeRaCap(cs) => ShowsCapabilities(v, cs)
    case IeRoutingArea(ra) => ShowsArea(v, ra)
    case IeTlli(t) => ShowsLong(v, t)
    case IeTmsi(t) => ShowsLong(v, t)
    case _ => false
  }

  /** Which announced lengths a decoder goes on with; `first` is the first octet of the value. */
  predicate Taken(iei: octet, n: nat, first: octet)
  {
    if iei == 0x00 then n <= 3
    else if iei == 0x02 then n == 1
    else if iei in [0x04, 0x0a, 0x16] then n == 2
    else if iei == 0x08 then n == 8
    else if iei == 0x0d then first % 8 == 1
    else if iei == 0x13 then n == 1 + 6 * first as int
    else if iei == 0x1b then n == 7
    else if iei in [0x1f, 0x20] then n == 4
    else if iei == 0x28 then n == 5
    else iei in [0x0e, 0x10, 0x18, 0x26]
  }

  /** How many value octets it then takes. */
  function SizeRead(iei: octet, n: nat, first: octet): nat
  {
    if iei == 0x02 then 1
    else if iei in [0x04, 0x0a, 0x16] then 2
    else if iei == 0x08 then 8
    else if iei == 0x0d then (if n == 0 then 1 else n) + (if first / 8 % 2 == 1 then 0 else 1)
    else if iei == 0x10 then 5
    else if iei == 0x13 then 1 + 6 * first as int
    else if iei == 0x18 then 3
    else if iei == 0x1b then 6
    else if iei in [0x1f, 0x20] then 4
    else if iei == 0x26 then 1 + if n == 0 then 0 else (n - 1) / 3 * 3
    else if iei == 0x28 then 5
    else n
  }

  lemma HeaderAnnounced(s: seq<octet>, n: nat, h: nat)
    requires Announces(s, n, h)
    ensures ReadHeader(s, s[0]) == Got(n, h)
  {
  }

  lemma FixedAnnounced(s: seq<octet>, n: nat, h: nat, check: LengthCheck, size: nat)
    requires Announces(s, n, h)
    ensures ReadFixed(s, s[0], check, size)
         == if check.Exactly? && n != check.n then Refused
            else if |s| < h + size then Overrun else Got(s[h..h + size], h + size)
  {
    hide ReadHeader;
    HeaderAnnounced(s, n, h);
  }

  lemma ValuesShown(v: seq<octet>)
    ensures |v| == 2 ==> ShowsWord(v, FromBe16(v)) && Shows(v, IeDrx(DrxFrom(v)))
    ensures |v| == 3 ==> ShowsPlmn(v, PlmnFrom(v)) && ShowsQos(v, QosProfileFrom(v))
    ensures |v| == 5 ==> v == [v[0], v[1], v[2], v[3], v[4]]
  {
  }

  lemma LongShown(v: seq<octet>)
    requires |v| == 4
    ensures ShowsLong(v, FromBe32(v))
  {
  }

  lemma AreaShown(v: seq<octet>)
    requires |v| == 6
    ensures ShowsArea(v, RoutingAreaFrom(v))
  {
    hide PlmnFrom, FromBe16, ShowsPlmn, ShowsWord;
    ValuesShown(v[..3]);
    ValuesShown(v[3..5]);
  }

  lemma {:induction false} DigitsFromAt(b: seq<octet>, i: nat)
    requires i < 2 * |b|
    ensures DigitsFrom(b)[i] == if i % 2 == 0 then b[i / 2] % 16 else b[i / 2] / 16
  {
    if i >= 2 {
      DigitsFromAt(b[1..], i - 2);
      assert DigitsFrom(b)[i] == DigitsFrom(b[1..])[i - 2] && b[i / 2] == b[1..][(i - 2) / 2];
    }
  }

  lemma {:induction false} LsaIdsFromAt(b: seq<octet>, count: nat, i: nat)
    requires |b| == 3 * count && i < count
    ensures LsaIdsFrom(b, count)[i] == FromBe24(b[3 * i..3 * i + 3])
  {
    hide FromBe24;
    if i > 0 {
      LsaIdsFromAt(b[3..], count - 1, i - 1);
      assert b[3..][3 * (i - 1)..3 * (i - 1) + 3] == b[3 * i..3 * i + 3];
    }
  }

  lemma {:induction false} RaCapFromAt(b: seq<octet>, count: nat, i: nat)
    requires |b| == 6 * count && i < count
    ensures RaCapFrom(b, count)[i] == RaCapabilityFrom(b[6 * i..6 * i + 6])
  {
    hide RaCapabilityFrom;
    if i > 0 {
      RaCapFromAt(b[6..], count - 1, i - 1);
      assert b[6..][6 * (i - 1)..6 * (i - 1) + 6] == b[6 * i..6 * i + 6];
    }
  }

  lemma IdShown(v: seq<octet>)
    requires |v| == 3
    ensures Carries24(v, FromBe24(v))
  {
  }

  lemma CapabilityShown(v: seq<octet>)
    requires |v| == 6
    ensures ShowsCapability(v, RaCapabilityFrom(v))
  {
  }

  lemma MemberOf(v: seq<octet>, size: nat, i: nat)
    requires size in [3, 4, 6] && 1 + size * i + size <= |v|
    ensures v[1..][size * i..size * i + size] == Member(v, size, i) && |Member(v, size, i)| == size
  {
  }

  lemma IdsShown(v: seq<octet>, count: nat)
    requires |v| == 1 + 3 * count
    ensures ShowsIds(v, LsaIdList(v[0] % 2, LsaIdsFrom(v[1..], count)))
  {
    hide LsaIdsFrom, Carries24, FromBe24, Member;
    var ids := LsaIdsFrom(v[1..], count);
    forall i | 0 <= i < |ids| ensures Carries24(Member(v, 3, i), ids[i]) {
      LsaIdsFromAt(v[1..], count, i);
      MemberOf(v, 3, i);
      IdShown(Member(v, 3, i));
    }
  }

  lemma CapabilitiesShown(v: seq<octet>, count: nat)
    requires |v| == 1 + 6 * count && v[0] == count
    ensures ShowsCapabilities(v, RaCapFrom(v[1..], count))
  {
    hide RaCapFrom, ShowsCapability, RaCapabilityFrom, Member;
    var cs := RaCapFrom(v[1..], count);
    forall i | 0 <= i < |cs| ensures ShowsCapability(Member(v, 6, i), cs[i]) {
      RaCapFromAt(v[1..], count, i);
      MemberOf(v, 6, i);
      CapabilityShown(Member(v, 6, i));
    }
  }

  /** The decoder of `s[0]` on any octets that begin with an identifier and a length. */
  predicate ReadsAsShown(s: seq<octet>, n: nat, h: nat)
    requires h < |s|
  {
    var r, size := ReadIe(s), SizeRead(s[0], n, s[h]);
    if !Taken(s[0], n, s[h]) then r == Refused
    else if h + size <= |s| then
      r.Got? && r.used == h + size && IdentifierSent(r.value) == s[0] && Shows(s[h..h + size], r.value)
    else if s[0] in [0x00, 0x02] then r.Got? && r.used == h + size
    else r == Overrun
  }

  lemma LongElementRead(s: seq<octet>, n: nat, h: nat)
    requires h < |s| && Announces(s, n, h) && s[0] in [0x1f, 0x20]
    ensures ReadsAsShown(s, n, h)
  {
    hide ReadFixed, Announces, FromBe32, ShowsLong, ReadVariableIe;
    FixedAnnounced(s, n, h, Exactly(4), 4);
    if h + 4 <= |s| {
      LongShown(s[h..h + 4]);
    }
  }

  lemma ShortElementRead(s: seq<octet>, n: nat, h: nat)
    requires h < |s| && Announces(s, n, h) && s[0] in [0x04, 0x0a, 0x16, 0x28]
    ensures ReadsAsShown(s, n, h)
  {
    hide ReadFixed, Announces, FromBe16, FromBe32, DrxFrom, QosProfileFrom, PlmnFrom, ShowsWord, ShowsLong, ShowsPlmn,
         ShowsQos, Carries24, ShowsIds, ShowsCapabilities, DigitsAt, ReadVariableIe;
    var size := SizeRead(s[0], n, s[h]);
    FixedAnnounced(s, n, h, Exactly(size), size);
    if h + size <= |s| {
      ValuesShown(s[h..h + size]);
    }
  }

  lemma AreaElementRead(s: seq<octet>, n: nat, h: nat)
    requires h < |s| && Announces(s, n, h) && s[0] in [0x08, 0x10, 0x18, 0x1b]
    ensures ReadsAsShown(s, n, h)
  {
    hide ReadFixed, Announces, FromBe16, FromBe32, DrxFrom, QosProfileFrom, PlmnFrom, RoutingAreaFrom, ShowsWord,
         ShowsLong, ShowsPlmn, ShowsArea, ShowsQos, Carries24, ShowsIds, ShowsCapabilities, DigitsAt, ReadVariableIe;
    var size := SizeRead(s[0], n, s[h]);
    FixedAnnounced(s, n, h, if s[0] in [0x10, 0x18] then AnyLength else Exactly(n), size);
    FixedAnnounced(s, n, h, Exactly(if s[0] == 0x08 then 8 else 7), size);
    if h + size <= |s| {
      var v := s[h..h + size];
      if size == 8 {
        AreaShown(v[..6]);
        ValuesShown(v[6..]);
      } else if size == 6 {
        AreaShown(v);
      } else if size == 3 {
        ValuesShown(v);
      } else {
        ValuesShown(v[..3]);
        ValuesShown(v[3..]);
      }
    }
  }

  lemma SliceOfSlice(s: seq<octet>, h: nat, size: nat, from: nat, to: nat)
    requires h + size <= |s| && from <= to <= size
    ensures s[h..h + size][from..to] == s[h + from..h + to]
  {
    var v := s[h..h + size];
    assert forall i :: 0 <= i < to - from ==> v[from..to][i] == s[h + from..h + to][i];
  }

  /** The digits as the decoder collects them, `last` being the extra one of an even count. */
  lemma DigitsShown(v: seq<octet>, pairs: nat, d: seq<octet>)
    requires |v| >= 1 && |v| == 1 + pairs + (if v[0] / 8 % 2 == 1 then 0 else 1) && v[0] % 8 == 1
    requires d == [v[0] / 16] + DigitsFrom(v[1..1 + pairs]) + if v[0] / 8 % 2 == 1 then [] else [v[1 + pairs] % 16]
    ensures DigitsAt(v, d)
  {
    hide DigitsFrom;
    forall i | 1 <= i < |d| ensures d[i] == if i % 2 == 0 then v[(i + 1) / 2] / 16 else v[(i + 1) / 2] % 16 {
      if i <= 2 * pairs {
        DigitsFromAt(v[1..1 + pairs], i - 1);
      }
    }
  }

  lemma ImsiElementRead(s: seq<octet>, n: nat, h: nat)
    requires h < |s| && Announces(s, n, h) && s[0] == 0x0d
    ensures ReadsAsShown(s, n, h)
  {
    hide ReadHeader, Announces, DigitsFrom, ReadFixedIe, DigitsAt;
    HeaderAnnounced(s, n, h);
    var size := SizeRead(s[0], n, s[h]);
    if s[h] % 8 == 1 && h + size <= |s| {
      var v, d := s[h..h + size], ReadImsi(s).value;
      var pairs := if n == 0 then 0 else n - 1;
      SliceOfSlice(s, h, size, 1, 1 + pairs);
      DigitsShown(v, pairs, d);
    }
  }

  lemma SkippedElementRead(s: seq<octet>, n: nat, h: nat)
    requires h < |s| && Announces(s, n, h) && s[0] in [0x00, 0x02, 0x0e]
    ensures ReadsAsShown(s, n, h)
  {
    hide ReadHeader, Announces, ReadFixedIe;
    HeaderAnnounced(s, n, h);
  }

  lemma IdListRead(s: seq<octet>, n: nat, h: nat)
    requires h < |s| && Announces(s, n, h) && s[0] == 0x26
    ensures ReadsAsShown(s, n, h)
  {
    hide ReadHeader, Announces, ReadFixedIe, LsaIdsFrom, ShowsIds;
    HeaderAnnounced(s, n, h);
    var count := if n == 0 then 0 else (n - 1) / 3;
    if h + 1 + 3 * count <= |s| {
      SliceOfSlice(s, h, 1 + 3 * count, 1, 1 + 3 * count);
      IdsShown(s[h..h + 1 + 3 * count], count);
    }
  }

  lemma CapabilityListRead(s: seq<octet>, n: nat, h: nat)
    requires h < |s| && Announces(s, n, h) && s[0] == 0x13
    ensures ReadsAsShown(s, n, h)
  {
    hide ReadHeader, Announces, ReadFixedIe, RaCapFrom, ShowsCapabilities;
    HeaderAnnounced(s, n, h);
    var count: nat := s[h];
    if n == 1 + 6 * count && h + 1 + 6 * count <= |s| {
      SliceOfSlice(s, h, 1 + 6 * count, 1, 1 + 6 * count);
      CapabilitiesShown(s[h..h + 1 + 6 * count], count);
    }
  }

  /**
   Whatever octets stand at the cursor: which identifiers and announced lengths
   are refused, how many octets an accepted element takes, and in numbers what
   its fields are.  LSA information, priority and all other identifiers are refused.
   */
  lemma OctetsRead(s: seq<octet>, n: nat, h: nat)
    requires h < |s| && Announces(s, n, h)
    ensures ReadsAsShown(s, n, h)
  {
    hide ReadsAsShown, Announces;
    if s[0] in [0x04, 0x0a, 0x16, 0x28] {
      ShortElementRead(s, n, h);
    } else if s[0] in [0x1f, 0x20] {
      LongElementRead(s, n, h);
    } else if s[0] in [0x08, 0x10, 0x18, 0x1b] {
      AreaElementRead(s, n, h);
    } else if s[0] == 0x0d {
      ImsiElementRead(s, n, h);
    } else if s[0] in [0x00, 0x02, 0x0e] {
      SkippedElementRead(s, n, h);
    } else if s[0] == 0x26 {
      IdListRead(s, n, h);
    } else if s[0] == 0x13 {
      CapabilityListRead(s, n, h);
    } else {
      OtherElementRead(s, n, h);
    }
  }

  lemma OtherElementRead(s: seq<octet>, n: nat, h: nat)
    requires h < |s|
    requires s[0] !in [0x00, 0x02, 0x04, 0x08, 0x0a, 0x0d, 0x0e, 0x10, 0x13, 0x16, 0x18, 0x1b, 0x1f, 0x20, 0x26, 0x28]
    ensures ReadsAsShown(s, n, h)
  {
  }

  /** In the buffer the decoder clears octets 2 and 3 of each capability and leaves the others. */
  lemma {:induction false} FlagsClearedAt(b: seq<octet>, count: nat, i: nat, j: nat)
    requires |b| == 6 * count && i < count && j < 6
    ensures FlagsCleared(b, count)[6 * i + j] == if j == 1 || j == 2 then 0 else b[6 * i + j]
  {
    if i > 0 {
      FlagsClearedAt(b[6..], count - 1, i - 1, j);
      assert b[6 * i + j] == b[6..][6 * (i - 1) + j];
    }
  }
}
