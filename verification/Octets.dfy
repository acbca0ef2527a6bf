/**
 Octets, big-endian integers, nibble packing and the variable-width length
 indicator that every TLV information element of the BSSGP codec uses.

 A decoder is a function of the octets from its cursor on.  It either refuses
 (returns FALSE and leaves the cursor alone), reads past the end of the buffer,
 or yields a value and the number of octets by which the cursor moves.
 */
module Octets {

  type octet = x: int | 0 <= x < 256
  type u16 = x: int | 0 <= x < 0x1_0000
  type u32 = x: int | 0 <= x < 0x1_0000_0000

  datatype Parse<+T> = Refused | Overrun | Got(value: T, used: nat) {

    predicate IsFailure() {
      !Got?
    }

    function PropagateFailure<U>(): Parse<U>
      requires IsFailure()
    {
      if Refused? then Refused else Overrun
    }

    function Extract(): (T, nat)
      requires Got?
    {
      (value, used)
    }
  }

  // ----- bitwise or -----

  function Pow2(k: nat): (r: nat)
    ensures r > 0
  {
    if k == 0 then 1 else 2 * Pow2(k - 1)
  }

  /** The bitwise `|` of two non-negative integers. */
  function Or(x: nat, y: nat): nat
    decreases x + y
  {
    if x == 0 && y == 0 then 0
    else (if x % 2 == 1 || y % 2 == 1 then 1 else 0) + 2 * Or(x / 2, y / 2)
  }

  lemma OrZero(x: nat)
    ensures Or(x, 0) == x
  {
  }

  lemma {:induction false} OrBound(x: nat, y: nat, k: nat)
    requires x < Pow2(k) && y < Pow2(k)
    ensures Or(x, y) < Pow2(k)
  {
    if k > 0 && x + y > 0 {
      OrBound(x / 2, y / 2, k - 1);
    }
  }

  /** Or-ing a field above bit k with a field below it is addition. */
  lemma {:induction false} OrDisjoint(high: nat, low: nat, k: nat)
    requires low < Pow2(k)
    ensures Or(high * Pow2(k), low) == high * Pow2(k) + low
  {
    if k == 0 {
      OrZero(high);
    } else if high * Pow2(k) + low > 0 {
      assert high * Pow2(k) == 2 * (high * Pow2(k - 1));
      OrDisjoint(high, low / 2, k - 1);
    }
  }

  /** The same with the shift amount as a number: 2, 4, 16 or 128 below. */
  lemma OrAbove(high: nat, low: nat, unit: nat)
    requires unit in {2, 4, 16, 128} && low < unit
    ensures Or(high * unit, low) == high * unit + low
  {
    var k := if unit == 2 then 1 else if unit == 4 then 2 else if unit == 16 then 4 else 7;
    assert Pow2(k) == unit by {
      assert Pow2(1) == 2 && Pow2(2) == 4 && Pow2(4) == 16 && Pow2(7) == 128;
    }
    OrDisjoint(high, low, k);
  }

  predicate BitOf(x: nat, k: nat)
  {
    if k == 0 then x % 2 == 1 else BitOf(x / 2, k - 1)
  }

  /** A bit is set in the result exactly if it is set in one of the two. */
  lemma {:induction false} OrSetsBits(x: nat, y: nat, k: nat)
    ensures BitOf(Or(x, y), k) <==> BitOf(x, k) || BitOf(y, k)
  {
    OrStep(x, y);
    if k > 0 {
      hide Or;
      OrSetsBits(x / 2, y / 2, k - 1);
    }
  }

  lemma OrStep(x: nat, y: nat)
    ensures Or(x, y) % 2 == 1 <==> x % 2 == 1 || y % 2 == 1
    ensures Or(x, y) / 2 == Or(x / 2, y / 2)
  {
  }

  /** `(high << 4) | low`, stored into one octet. */
  function Nibbles(high: octet, low: octet): octet
  {
    var shifted := (high * 16) % 256;
    assert Pow2(8) == 256;
    OrBound(shifted, low, 8);
    Or(shifted, low)
  }

  function LowNibble(b: octet): octet { b % 16 }
  function HighNibble(b: octet): octet { b / 16 }

  lemma NibblesFit(high: octet, low: octet)
    requires high < 16 && low < 16
    ensures Nibbles(high, low) == 16 * high + low
  {
    hide Or;
    assert (high * 16) % 256 == high * 16;
    OrAbove(high, low, 16);
  }

  /** Two nibbles survive packing exactly when both fit in four bits. */
  lemma NibblesRoundTrip(high: octet, low: octet)
    ensures LowNibble(Nibbles(high, low)) == low && HighNibble(Nibbles(high, low)) == high
      <==> high < 16 && low < 16
  {
    hide Or;
    if high < 16 && low < 16 {
      NibblesFit(high, low);
    }
  }

  /** `b |= mask` for the single-bit masks the encoders use. */
  function SetBit(b: octet, mask: octet): octet
    requires mask in {1, 2, 4, 8, 16, 32, 64, 128}
  {
    if (b / mask) % 2 == 1 then b else b + mask
  }

  predicate HasBit(b: octet, mask: octet)
    requires mask > 0
  {
    (b / mask) % 2 == 1
  }

  // ----- network byte order -----

  function Be16(x: u16): (r: seq<octet>)
    ensures |r| == 2
  {
    [x / 256, x % 256]
  }

  function FromBe16(s: seq<octet>): u16
    requires |s| == 2
  {
    s[0] as int * 256 + s[1]
  }

  function Be32(x: u32): (r: seq<octet>)
    ensures |r| == 4
  {
    Be16(x / 0x1_0000) + Be16(x % 0x1_0000)
  }

  function FromBe32(s: seq<octet>): u32
    requires |s| == 4
  {
    FromBe16(s[..2]) as int * 0x1_0000 + FromBe16(s[2..])
  }

  lemma Be32RoundTrip(x: u32)
    ensures FromBe32(Be32(x)) == x
  {
    assert Be32(x)[..2] == Be16(x / 0x1_0000);
    assert Be32(x)[2..] == Be16(x % 0x1_0000);
  }

  /** The low 24 bits of a value, as three octets. */
  function Be24(x: u32): (r: seq<octet>)
    ensures |r| == 3
  {
    [(x / 0x1_0000) % 256] + Be16(x % 0x1_0000)
  }

  function FromBe24(s: seq<octet>): u32
    requires |s| == 3
  {
    s[0] as int * 0x1_0000 + FromBe16(s[1..])
  }

  lemma Be24RoundTrip(x: u32)
    ensures FromBe24(Be24(x)) == x % 0x100_0000
  {
    assert Be24(x)[1..] == Be16(x % 0x1_0000);
  }

  // ----- the length indicator -----

  /**
   One octet with the top bit set, or the low seven bits followed by the rest
   of the length divided by 128 (truncated to an octet, as the code stores it).
   */
  function LengthOctets(n: nat): (r: seq<octet>)
    ensures |r| == if n < 128 then 1 else 2
  {
    if n < 128 then [n + 128] else [n % 128, (n / 128) % 256]
  }

  function ReadLength(s: seq<octet>): (r: Parse<nat>)
    ensures r.Got? ==> 1 <= r.used <= 2 && r.used <= |s| && r.value < 0x8000
  {
    if |s| == 0 then Overrun
    else if s[0] >= 128 then Got(s[0] % 128, 1)
    else if |s| < 2 then Overrun
    else Got(s[1] as int * 128 + s[0], 2)
  }

  /** A length survives, whatever follows it, exactly when it is below 32768. */
  lemma LengthRoundTrip(n: nat, rest: seq<octet>)
    ensures ReadLength(LengthOctets(n) + rest) == Got(n, |LengthOctets(n)|) <==> n < 0x8000
  {
  }

  // ----- writing into a message buffer -----

  /** `after` is `before` with the octets `b` stored from position `at` on. */
  ghost predicate Stored(before: seq<octet>, after: seq<octet>, at: nat, b: seq<octet>)
  {
    && at + |b| <= |before|
    && after == before[..at] + b + before[at + |b|..]
  }

  lemma StoredThenStored(s0: seq<octet>, s1: seq<octet>, s2: seq<octet>, at: nat, b: seq<octet>, c: seq<octet>)
    requires Stored(s0, s1, at, b) && Stored(s1, s2, at + |b|, c)
    ensures Stored(s0, s2, at, b + c)
  {
    assert at + |b + c| == at + |b| + |c|;
    assert s2 == s0[..at] + (b + c) + s0[at + |b + c|..];
  }

  lemma NothingStored(s: seq<octet>, at: nat)
    requires at <= |s|
    ensures Stored(s, s, at, [])
  {
  }

  /** Octets behind a stored stretch are as before. */
  lemma StoredLeavesRest(s0: seq<octet>, s1: seq<octet>, at: nat, b: seq<octet>, end: nat)
    requires Stored(s0, s1, at, b) && at + |b| <= end <= |s0|
    ensures |s1| == |s0| && s1[at + |b|..] == s0[at + |b|..] && s1[at + |b|..end] == s0[at + |b|..end]
  {
    assert s1[at + |b|..] == s0[at + |b|..];
    assert s1[at + |b|..end] == s1[at + |b|..][..end - at - |b|];
    assert s0[at + |b|..end] == s0[at + |b|..][..end - at - |b|];
  }
}
