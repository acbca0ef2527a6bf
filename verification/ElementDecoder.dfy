/**
 The information element decoders.  Each looks at the octets from a cursor on and
 either refuses, leaving the cursor where it is, or yields the value and the
 octets it has used.  Their preconditions exclude exactly the inputs on which the
 decoder would read outside the buffer.
 */
module ElementDecoder {
  import opened Octets
  import opened InformationElements

  method DecodeIeiLength(msg: array<octet>, at: nat) returns (length: nat, used: nat)
    requires at <= msg.Length && ReadLength(msg[at..]).Got?
    ensures ReadLength(msg[at..]) == Got(length, used)
  {
    var low: nat := msg[at];
    if low >= 128 {
      return low % 128, 1;
    }
    var high: nat := msg[at + 1];
    length := high * 128 + low;
    used := 2;
  }

  method DecodeHeader(iei: octet, msg: array<octet>, at: nat) returns (r: Parse<nat>)
    requires at <= msg.Length && !ReadHeader(msg[at..], iei).Overrun?
    ensures r == ReadHeader(msg[at..], iei)
  {
    if msg[at] != iei {
      return Refused;
    }
    assert msg[at..][1..] == msg[at + 1..];
    var length, used := DecodeIeiLength(msg, at + 1);
    r := Got(length, used + 1);
  }

  // ----- elements with a value part of fixed size -----

  /** `ntohs` of the two octets at the cursor. */
  method Take16(msg: array<octet>, at: nat) returns (x: u16)
    requires at + 2 <= msg.Length
    ensures x == FromBe16(msg[at..at + 2])
  {
    x := msg[at] as int * 256 + msg[at + 1];
  }

  /** `ntohl` of the four octets at the cursor. */
  method Take32(msg: array<octet>, at: nat) returns (x: u32)
    requires at + 4 <= msg.Length
    ensures x == FromBe32(msg[at..at + 4])
  {
    x := msg[at] as int * 0x100_0000 + msg[at + 1] as int * 0x1_0000 + msg[at + 2] as int * 256 + msg[at + 3];
    assert msg[at..at + 4][..2] == [msg[at], msg[at + 1]] && msg[at..at + 4][2..] == [msg[at + 2], msg[at + 3]];
  }

  /** Country and network digits, a nibble each. */
  method TakePlmn(msg: array<octet>, at: nat) returns (p: Plmn)
    requires at + 3 <= msg.Length
    ensures p == PlmnFrom(msg[at..at + 3])
  {
    var index := at;
    var mcc0, mcc1 := msg[index] % 16, msg[index] / 16;
    index := index + 1;
    var mcc2, mnc2 := msg[index] % 16, msg[index] / 16;
    index := index + 1;
    var mnc0, mnc1 := msg[index] % 16, msg[index] / 16;
    p := Plmn(mcc0, mcc1, mcc2, mnc0, mnc1, mnc2);
  }

  /** Network, location area code and routing area code. */
  method TakeRoutingArea(msg: array<octet>, at: nat) returns (area: RoutingArea)
    requires at + 6 <= msg.Length
    ensures area == RoutingAreaFrom(msg[at..at + 6])
  {
    hide PlmnFrom, FromBe16;
    var plmn := TakePlmn(msg, at);
    var lac := Take16(msg, at + 3);
    area := RoutingArea(plmn, lac, msg[at + 5]);
    ghost var b := msg[at..at + 6];
    assert b[..3] == msg[at..at + 3] && b[3..5] == msg[at + 3..at + 5];
  }

  /** The value part of a fixed-size element whose header was accepted. */
  lemma ValuePart(s: seq<octet>, iei: octet, check: LengthCheck, size: nat)
    requires ReadHeader(s, iei).Got? && (check.Exactly? ==> ReadHeader(s, iei).value == check.n)
    requires !ReadFixed(s, iei, check, size).Overrun?
    ensures var h := ReadHeader(s, iei).used;
            h + size <= |s| && ReadFixed(s, iei, check, size) == Got(s[h..h + size], h + size)
  {
    hide ReadHeader;
  }

  method DecodeBvci(msg: array<octet>, at: nat) returns (r: Parse<u16>)
    requires at <= msg.Length && !ReadBvci(msg[at..]).Overrun?
    ensures r == ReadBvci(msg[at..])
  {
    hide FromBe16, ReadHeader;
    var header := DecodeHeader(IEI_BVCI, msg, at);
    if header.Refused? || header.value != 2 {
      return Refused;
    }
    var index := at + header.used;
    ValuePart(msg[at..], IEI_BVCI, Exactly(2), 2);
    ghost var b := msg[at..][header.used..header.used + 2];
    assert b == msg[index..index + 2];
    var bvci := Take16(msg, index);
    index := index + 2;
    r := Got(bvci, index - at);
  }

  method DecodeCellId(msg: array<octet>, at: nat) returns (r: Parse<CellIdentifier>)
    requires at <= msg.Length && !ReadCellId(msg[at..]).Overrun?
    ensures r == ReadCellId(msg[at..])
  {
    hide FromBe16, RoutingAreaFrom, ReadHeader;
    var header := DecodeHeader(IEI_CELL_ID, msg, at);
    if header.Refused? || header.value != 8 {
      return Refused;
    }
    var index := at + header.used;
    ValuePart(msg[at..], IEI_CELL_ID, Exactly(8), 8);
    ghost var b := msg[at..][header.used..header.used + 8];
    assert b == msg[index..index + 8];
    assert b[..6] == msg[index..index + 6] && b[6..] == msg[index + 6..index + 8];
    var area := TakeRoutingArea(msg, index);
    index := index + 6;
    var cell := Take16(msg, index);
    index := index + 2;
    r := Got(CellIdentifier(area, cell), index - at);
  }

  /** The length is read and not looked at. */
  method DecodeLocationArea(msg: array<octet>, at: nat) returns (r: Parse<LocationArea>)
    requires at <= msg.Length && !ReadLocationArea(msg[at..]).Overrun?
    ensures r == ReadLocationArea(msg[at..])
  {
    hide FromBe16, PlmnFrom, ReadHeader;
    var header := DecodeHeader(IEI_LOCATION_AREA, msg, at);
    if header.Refused? {
      return Refused;
    }
    var index := at + header.used;
    ValuePart(msg[at..], IEI_LOCATION_AREA, AnyLength, 5);
    ghost var b := msg[at..][header.used..header.used + 5];
    assert b == msg[index..index + 5];
    assert b[..3] == msg[index..index + 3] && b[3..] == msg[index + 3..index + 5];
    var plmn := TakePlmn(msg, index);
    index := index + 3;
    var lac := Take16(msg, index);
    index := index + 2;
    r := Got(LocationArea(plmn, lac), index - at);
  }

  /** The length must be 7; six octets are read. */
  method DecodeRoutingArea(msg: array<octet>, at: nat) returns (r: Parse<RoutingArea>)
    requires at <= msg.Length && !ReadRoutingArea(msg[at..]).Overrun?
    ensures r == ReadRoutingArea(msg[at..])
  {
    hide RoutingAreaFrom, ReadHeader;
    var header := DecodeHeader(IEI_ROUTING_AREA, msg, at);
    if header.Refused? || header.value != 7 {
      return Refused;
    }
    var index := at + header.used;
    ValuePart(msg[at..], IEI_ROUTING_AREA, Exactly(7), 6);
    ghost var b := msg[at..][header.used..header.used + 6];
    assert b == msg[index..index + 6];
    var area := TakeRoutingArea(msg, index);
    index := index + 6;
    r := Got(area, index - at);
  }

  method DecodePduLifetime(msg: array<octet>, at: nat) returns (r: Parse<u16>)
    requires at <= msg.Length && !ReadPduLifetime(msg[at..]).Overrun?
    ensures r == ReadPduLifetime(msg[at..])
  {
    hide ReadHeader;
    var header := DecodeHeader(IEI_PDU_LIFETIME, msg, at);
    if header.Refused? || header.value != 2 {
      return Refused;
    }
    var index := at + header.used;
    ValuePart(msg[at..], IEI_PDU_LIFETIME, Exactly(2), 2);
    ghost var b := msg[at..][header.used..header.used + 2];
    assert b == msg[index..index + 2];
    var high := msg[index] as int;
    index := index + 1;
    var low := msg[index] as int;
    index := index + 1;
    r := Got(high * 256 + low, index - at);
  }

  method DecodeDrxParams(msg: array<octet>, at: nat) returns (r: Parse<Drx>)
    requires at <= msg.Length && !ReadDrx(msg[at..]).Overrun?
    ensures r == ReadDrx(msg[at..])
  {
    hide ReadHeader;
    var header := DecodeHeader(IEI_DRX_PARAMS, msg, at);
    if header.Refused? || header.value != 2 {
      return Refused;
    }
    var index := at + header.used;
    ValuePart(msg[at..], IEI_DRX_PARAMS, Exactly(2), 2);
    ghost var b := msg[at..][header.used..header.used + 2];
    assert b == msg[index..index + 2];
    var splitPgCycle := msg[index];
    index := index + 1;
    var splitOnCcch, nonDrxTimer := false, msg[index];
    if msg[index] >= 128 {
      splitOnCcch, nonDrxTimer := true, msg[index] % 128;
    }
    index := index + 1;
    r := Got(Drx(splitPgCycle, splitOnCcch, nonDrxTimer), index - at);
  }

  method DecodeQosProfile(msg: array<octet>, at: nat) returns (r: Parse<QosProfile>)
    requires at <= msg.Length && !ReadQosProfile(msg[at..]).Overrun?
    ensures r == ReadQosProfile(msg[at..])
  {
    hide QosProfileFrom, ReadHeader;
    var header := DecodeHeader(IEI_QOS_PROFILE, msg, at);
    if header.Refused? {
      return Refused;
    }
    var index := at + header.used;
    ValuePart(msg[at..], IEI_QOS_PROFILE, AnyLength, 3);
    ghost var b := msg[at..][header.used..header.used + 3];
    assert b == msg[index..index + 3];
    var profile := TakeQosProfile(msg, index);
    index := index + 3;
    r := Got(profile, index - at);
  }

  /** The V format, without identifier and length. */
  method TakeQosProfile(msg: array<octet>, at: nat) returns (q: QosProfile)
    requires at + 3 <= msg.Length
    ensures q == QosProfileFrom(msg[at..at + 3])
  {
    var index := at;
    var rate0 := msg[index];
    index := index + 1;
    var rate1 := msg[index];
    index := index + 1;
    var flags := msg[index];
    var aBit, tBit, crBit := false, false, false;
    if (flags / 8) % 2 == 1 {
      aBit := true;
    }
    if (flags / 16) % 2 == 1 {
      tBit := true;
    }
    if (flags / 32) % 2 == 1 {
      crBit := true;
    }
    q := QosProfile(rate0, rate1, flags % 8, aBit, tBit, crBit);
  }

  method DecodeQosParams(msg: array<octet>, at: nat) returns (r: Parse<QosParams>)
    requires at <= msg.Length && !ReadQosParams(msg[at..]).Overrun?
    ensures r == ReadQosParams(msg[at..])
  {
    hide ReadHeader;
    var header := DecodeHeader(IEI_QOS_PARAMS, msg, at);
    if header.Refused? || header.value != 5 {
      return Refused;
    }
    var index := at + header.used;
    ValuePart(msg[at..], IEI_QOS_PARAMS, Exactly(5), 5);
    ghost var b := msg[at..][header.used..header.used + 5];
    assert b == msg[index..index + 5];
    var delay := msg[index];
    index := index + 1;
    var reliability := msg[index];
    index := index + 1;
    var precedence := msg[index];
    index := index + 1;
    var peak := msg[index];
    index := index + 1;
    var mean := msg[index];
    index := index + 1;
    r := Got(QosParams(delay, reliability, precedence, peak, mean), index - at);
  }

  method DecodeTlli(msg: array<octet>, at: nat) returns (r: Parse<u32>)
    requires at <= msg.Length && !ReadTlli(msg[at..]).Overrun?
    ensures r == ReadTlli(msg[at..])
  {
    hide FromBe32, ReadHeader;
    var header := DecodeHeader(IEI_TLLI, msg, at);
    if header.Refused? || header.value != 4 {
      return Refused;
    }
    var index := at + header.used;
    ValuePart(msg[at..], IEI_TLLI, Exactly(4), 4);
    ghost var b := msg[at..][header.used..header.used + 4];
    assert b == msg[index..index + 4];
    var tlli := Take32(msg, index);
    index := index + 4;
    r := Got(tlli, index - at);
  }

  method DecodeTmsi(msg: array<octet>, at: nat) returns (r: Parse<u32>)
    requires at <= msg.Length && !ReadTmsi(msg[at..]).Overrun?
    ensures r == ReadTmsi(msg[at..])
  {
    hide FromBe32, ReadHeader;
    var header := DecodeHeader(IEI_TMSI, msg, at);
    if header.Refused? || header.value != 4 {
      return Refused;
    }
    var index := at + header.used;
    ValuePart(msg[at..], IEI_TMSI, Exactly(4), 4);
    ghost var b := msg[at..][header.used..header.used + 4];
    assert b == msg[index..index + 4];
    var tmsi := Take32(msg, index);
    index := index + 4;
    r := Got(tmsi, index - at);
  }

  // ----- elements whose value part varies -----

  /** Snoc form of `DigitsFrom`, which is how the loop builds the digits up. */
  lemma {:induction false} DigitsFromSnoc(b: seq<octet>, x: octet)
    ensures DigitsFrom(b + [x]) == DigitsFrom(b) + [LowNibble(x), HighNibble(x)]
  {
    if b == [] {
      assert b + [x] == [x];
      assert DigitsFrom([x][1..]) == [];
    } else {
      DigitsFromSnoc(b[1..], x);
      assert (b + [x])[1..] == b[1..] + [x];
    }
  }

  method DecodeImsi(msg: array<octet>, at: nat) returns (r: Parse<seq<octet>>)
    requires at <= msg.Length && !ReadImsi(msg[at..]).Overrun?
    ensures r == ReadImsi(msg[at..])
  {
    hide ReadHeader, HighNibble, LowNibble, DigitsFrom;
    var header := DecodeHeader(IEI_IMSI, msg, at);
    if header.Refused? {
      return Refused;
    }
    var index := at + header.used;
    assert msg[at..][header.used] == msg[index];
    if msg[index] % 8 != MOBILE_ID_IMSI {
      return Refused;
    }
    var odd := HasBit(msg[index], 8);
    var first := HighNibble(msg[index]);
    ghost var pairs := if header.value == 0 then 0 else header.value - 1;
    var digits;
    digits, index := DecodeDigitPairs(header.value, odd, msg, index + 1);
    assert msg[at + header.used + 1..index] == msg[at..][header.used + 1..header.used + 1 + pairs];
    if odd {
      return Got([first] + digits, index - at);
    }
    assert msg[at..][index - at] == msg[index];
    r := Got([first] + digits + [LowNibble(msg[index])], index + 1 - at);
  }

  /** The loop over pairs of digits; its bound comes to one octet less than the length, for either parity. */
  method DecodeDigitPairs(length: int, odd: bool, msg: array<octet>, at: nat) returns (digits: seq<octet>, index: nat)
    requires length >= 0 && at + (if length == 0 then 0 else length - 1) <= msg.Length
    ensures index == at + (if length == 0 then 0 else length - 1)
    ensures digits == DigitsFrom(msg[at..index])
  {
    hide HighNibble, LowNibble;
    var bound := length * 2 - (2 + if odd then 1 else 0);
    index := at;
    digits := [];
    var count := 1;
    while count <= bound
      invariant count == 1 + 2 * (index - at)
      invariant at <= index <= at + (if length == 0 then 0 else length - 1)
      invariant digits == DigitsFrom(msg[at..index])
    {
      DigitsFromSnoc(msg[at..index], msg[index]);
      assert msg[at..index] + [msg[index]] == msg[at..index + 1];
      digits := digits + [LowNibble(msg[index]), HighNibble(msg[index])];
      index := index + 1;
      count := count + 2;
    }
  }

  lemma {:induction false} LsaIdsFromSnoc(b: seq<octet>, count: nat, x: seq<octet>)
    requires |b| == 3 * count && |x| == 3
    ensures LsaIdsFrom(b + x, count + 1) == LsaIdsFrom(b, count) + [FromBe24(x)]
  {
    hide FromBe24;
    if count == 0 {
      assert b + x == x && x[..3] == x;
    } else {
      LsaIdsFromSnoc(b[3..], count - 1, x);
      assert (b + x)[3..] == b[3..] + x && (b + x)[..3] == b[..3];
    }
  }

  method DecodeLsaIdList(msg: array<octet>, at: nat) returns (r: Parse<LsaIdList>)
    requires at <= msg.Length && !ReadLsaIdList(msg[at..]).Overrun?
    ensures r == ReadLsaIdList(msg[at..])
  {
    hide ReadHeader, FromBe24;
    var header := DecodeHeader(IEI_LSA_ID_LIST, msg, at);
    if header.Refused? {
      return Refused;
    }
    var index := at + header.used;
    var num := if header.value == 0 then 0 else (header.value - 1) / 3;
    var ep := msg[index] % 2;
    index := index + 1;
    ghost var first := index;
    var ids: seq<u32> := [];
    var left := num;
    while left != 0
      invariant 0 <= left <= num
      invariant index == first + 3 * (num - left)
      invariant ids == LsaIdsFrom(msg[first..index], num - left)
    {
      assert msg[first..index] + msg[index..index + 3] == msg[first..index + 3];
      LsaIdsFromSnoc(msg[first..index], num - left, msg[index..index + 3]);
      ids := ids + [FromBe24(msg[index..index + 3])];
      index := index + 3;
      left := left - 1;
    }
    assert msg[first..index] == msg[at..][first - at..index - at];
    r := Got(LsaIdList(ep, ids), index - at);
  }

  method DecodeLlcPdu(msg: array<octet>, at: nat) returns (r: Parse<seq<octet>>)
    requires at <= msg.Length && !ReadLlcPdu(msg[at..]).Overrun?
    ensures r == ReadLlcPdu(msg[at..])
  {
    hide ReadHeader;
    var header := DecodeHeader(IEI_LLC_PDU, msg, at);
    if header.Refused? {
      return Refused;
    }
    var index := at + header.used;
    assert msg[index..index + header.value] == msg[at..][header.used..header.used + header.value];
    r := Got(msg[index..index + header.value], header.used + header.value);
  }

  /** The skipped octets reported here are not looked at by any caller. */
  method DecodeAlignment(msg: array<octet>, at: nat) returns (r: Parse<seq<octet>>)
    requires at <= msg.Length && !ReadAlignment(msg[at..]).Overrun?
    ensures r == ReadAlignment(msg[at..])
  {
    hide ReadHeader;
    var header := DecodeHeader(IEI_ALIGNMENT_OCTETS, msg, at);
    if header.Refused? || header.value > 3 {
      return Refused;
    }
    r := Got(Skipped(msg[at..], header.used, header.value), header.used + header.value);
  }

  method DecodeBssArea(msg: array<octet>, at: nat) returns (r: Parse<seq<octet>>)
    requires at <= msg.Length && !ReadBssArea(msg[at..]).Overrun?
    ensures r == ReadBssArea(msg[at..])
  {
    hide ReadHeader;
    var header := DecodeHeader(IEI_BSS_AREA_IND, msg, at);
    if header.Refused? || header.value != 1 {
      return Refused;
    }
    r := Got(Skipped(msg[at..], header.used, 1), header.used + 1);
  }

  // ----- radio access capability: a decoder that writes -----

  /** Six octets per capability, of which the two flag octets are cleared. */
  function FlagsCleared(b: seq<octet>, count: nat): (r: seq<octet>)
    requires |b| == 6 * count
    ensures |r| == |b|
  {
    if count == 0 then [] else FlagPairCleared(b[..6]) + FlagsCleared(b[6..], count - 1)
  }

  function FlagPairCleared(x: seq<octet>): (r: seq<octet>)
    requires |x| == 6
    ensures |r| == 6
  {
    [x[0], 0, 0, x[3], x[4], x[5]]
  }

  lemma {:induction false} RaCapFromSnoc(b: seq<octet>, count: nat, x: seq<octet>)
    requires |b| == 6 * count && |x| == 6
    ensures RaCapFrom(b + x, count + 1) == RaCapFrom(b, count) + [RaCapabilityFrom(x)]
  {
    hide RaCapabilityFrom;
    if count == 0 {
      assert b + x == x && x[..6] == x;
    } else {
      RaCapFromSnoc(b[6..], count - 1, x);
      assert (b + x)[6..] == b[6..] + x && (b + x)[..6] == b[..6];
    }
  }

  lemma {:induction false} FlagsClearedSnoc(b: seq<octet>, count: nat, x: seq<octet>)
    requires |b| == 6 * count && |x| == 6
    ensures FlagsCleared(b + x, count + 1) == FlagsCleared(b, count) + FlagPairCleared(x)
  {
    hide FlagPairCleared;
    if count == 0 {
      assert b + x == x && x[..6] == x;
      assert FlagsCleared(x[6..], 0) == [] && FlagsCleared(b, 0) == [];
    } else {
      FlagsClearedSnoc(b[6..], count - 1, x);
      assert (b + x)[6..] == b[6..] + x && (b + x)[..6] == b[..6];
    }
  }

  /** One iteration: reads six octets and clears two of them. */
  method DecodeRaCapability(msg: array<octet>, at: nat) returns (c: RaCapability)
    requires at + 6 <= msg.Length
    modifies msg
    ensures c == RaCapabilityFrom(old(msg[at..at + 6]))
    ensures Stored(old(msg[..]), msg[..], at, FlagPairCleared(old(msg[at..at + 6])))
  {
    hide HighNibble, LowNibble;
    var accessTech, rfPower := HighNibble(msg[at]), msg[at] % 8;
    msg[at + 1] := 0;
    msg[at + 2] := 0;
    var flags := RaFlags(HasBit(msg[at + 1], 1), HasBit(msg[at + 1], 2), HasBit(msg[at + 1], 4), HasBit(msg[at + 1], 8),
                         HasBit(msg[at + 1], 16), HasBit(msg[at + 1], 32), HasBit(msg[at + 1], 64),
                         HasBit(msg[at + 2], 16), HasBit(msg[at + 2], 8), HasBit(msg[at + 2], 4),
                         HasBit(msg[at + 2], 2));
    c := RaCapability(accessTech, rfPower, flags, MultislotFrom(msg[at + 3], msg[at + 4], msg[at + 5]));
  }

  lemma NoFlagsToClear()
    ensures FlagsCleared([], 0) == []
  {
  }

  method DecodeRaCapabilities(number: nat, msg: array<octet>, at: nat) returns (caps: seq<RaCapability>)
    requires at + 6 * number <= msg.Length
    modifies msg
    ensures caps == RaCapFrom(old(msg[at..at + 6 * number]), number)
    ensures Stored(old(msg[..]), msg[..], at, FlagsCleared(old(msg[at..at + 6 * number]), number))
  {
    hide RaCapabilityFrom, FlagsCleared, FlagPairCleared, Stored;
    var index := at;
    ghost var s0 := msg[..];
    caps := [];
    assert Stored(s0, msg[..], at, []) by { NothingStored(s0, at); }
    assert FlagsCleared([], 0) == [] by { NoFlagsToClear(); }
    for count := 0 to number
      invariant index == at + 6 * count
      invariant caps == RaCapFrom(s0[at..index], count)
      invariant Stored(s0, msg[..], at, FlagsCleared(s0[at..index], count))
    {
      ghost var s1, x := msg[..], s0[index..index + 6];
      StoredLeavesRest(s0, s1, at, FlagsCleared(s0[at..index], count), index + 6);
      assert msg[index..index + 6] == x;
      assert s0[at..index] + x == s0[at..index + 6];
      RaCapFromSnoc(s0[at..index], count, x);
      FlagsClearedSnoc(s0[at..index], count, x);
      var c := DecodeRaCapability(msg, index);
      StoredThenStored(s0, s1, msg[..], at, FlagsCleared(s0[at..index], count), FlagPairCleared(x));
      caps := caps + [c];
      index := index + 6;
    }
  }

  /** A refused element leaves the buffer alone; otherwise the flag octets of every capability are cleared. */
  method DecodeRaCap(msg: array<octet>, at: nat) returns (r: Parse<seq<RaCapability>>)
    requires at <= msg.Length && !ReadRaCap(msg[at..]).Overrun?
    modifies msg
    ensures r == ReadRaCap(old(msg[at..]))
    ensures r.Refused? ==> msg[..] == old(msg[..])
    ensures r.Got? ==> var count := |r.value|; var first := at + r.used - 6 * count;
            first >= at && Stored(old(msg[..]), msg[..], first, FlagsCleared(old(msg[first..first + 6 * count]), count))
  {
    hide ReadHeader, RaCapFrom, FlagsCleared, Stored;
    var header := DecodeHeader(IEI_MS_RADIO_ACCESS_CAP, msg, at);
    if header.Refused? {
      return Refused;
    }
    var index := at + header.used;
    assert msg[at..][header.used] == msg[index];
    var number: nat := msg[index];
    if header.value != number * 6 + 1 {
      return Refused;
    }
    assert msg[index + 1..index + 1 + 6 * number] == msg[at..][header.used + 1..header.used + 1 + 6 * number];
    var caps := DecodeRaCapabilities(number, msg, index + 1);
    r := Got(caps, header.used + 1 + 6 * number);
  }
}
