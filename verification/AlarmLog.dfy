/**
 The circular alarm log: records of fixed width in a ring.  After a restart the
 write position and the next id are recovered from the length of the file and
 from where the ids in it stop increasing.
 */
module AlarmLog {

  datatype Option<+T> = None | Some(value: T)

  /** Octets of a record, the line end included. */
  const RECORD: nat := 70

  // ----- decimal numbers -----

  predicate IsDigit(c: char)
  {
    '0' <= c <= '9'
  }

  function Digit(n: nat): (c: char)
    requires n < 10
    ensures IsDigit(c) && c as int - '0' as int == n
  {
    '0' + n as char
  }

  /** What `%d` prints for a non-negative number. */
  function Decimal(n: nat): (r: string)
    ensures |r| >= 1 && forall i :: 0 <= i < |r| ==> IsDigit(r[i])
  {
    if n < 10 then [Digit(n)] else Decimal(n / 10) + [Digit(n % 10)]
  }

  function ScanDigits(s: string, acc: nat): nat
  {
    if s == [] || !IsDigit(s[0]) then acc else ScanDigits(s[1..], acc * 10 + (s[0] as int - '0' as int))
  }

  predicate IsSpace(c: char)
  {
    c == ' ' || 9 <= c as int <= 13
  }

  /** Numbers that `%u` stores are 32 bits wide. */
  const UNSIGNED_LIMIT: nat := 0x1_0000_0000

  /**
   What `%u` reads: white space is skipped and a sign taken, a minus sign
   negating the unsigned number; without a digit the variable keeps its value.
   */
  function ScanUnsigned(s: string, before: nat): nat
  {
    if s == [] then before
    else if IsSpace(s[0]) then ScanUnsigned(s[1..], before)
    else if IsDigit(s[0]) then ScanDigits(s, 0)
    else if |s| >= 2 && IsDigit(s[1]) && s[0] == '+' then ScanDigits(s[1..], 0)
    else if |s| >= 2 && IsDigit(s[1]) && s[0] == '-' then (0 as int - ScanDigits(s[1..], 0)) % UNSIGNED_LIMIT
    else before
  }

  lemma {:induction false} DecimalScanned(n: nat, rest: string)
    ensures ScanDigits(Decimal(n) + rest, 0) == ScanDigits(rest, n)
  {
    if n >= 10 {
      DecimalScanned(n / 10, [Digit(n % 10)] + rest);
      assert Decimal(n) + rest == Decimal(n / 10) + ([Digit(n % 10)] + rest);
      assert ([Digit(n % 10)] + rest)[1..] == rest;
    } else {
      assert ([Digit(n)] + rest)[1..] == rest;
    }
  }

  lemma PlainScanned(n: nat, rest: string, before: nat)
    requires rest == [] || !('0' <= rest[0] <= '9')
    ensures ScanDigits(Decimal(n) + rest, 0) == n && ScanUnsigned(Decimal(n) + rest, before) == n
  {
    DecimalScanned(n, rest);
    var s := Decimal(n) + rest;
    assert s[0] == Decimal(n)[0];
    hide Decimal, ScanDigits;
  }

  lemma SignedScanned(sign: char, digits: string, before: nat)
    requires sign in "+-" && digits != [] && IsDigit(digits[0])
    ensures ScanUnsigned([sign] + digits, before)
         == if sign == '+' then ScanDigits(digits, 0) else (0 as int - ScanDigits(digits, 0)) % UNSIGNED_LIMIT
  {
    hide ScanDigits;
    assert ([sign] + digits)[1..] == digits;
  }

  lemma SpaceSkipped(s: string, before: nat)
    requires s != [] && (s[0] == ' ' || 9 <= s[0] as int <= 13)
    ensures ScanUnsigned(s, before) == ScanUnsigned(s[1..], before)
  {
  }

  /** An unsigned number of 32 bits, negated. */
  function Negated(n: nat): nat
  {
    if n % 0x1_0000_0000 == 0 then 0 else 0x1_0000_0000 - n % 0x1_0000_0000
  }

  lemma NegatedIsMod(n: nat)
    ensures (0 as int - n) % UNSIGNED_LIMIT == Negated(n)
  {
    var q, r := n / UNSIGNED_LIMIT, n % UNSIGNED_LIMIT;
    assert n == UNSIGNED_LIMIT * q + r;
  }

  /** A number is found behind white space and a sign; a minus sign counts down from 32 bits. */
  lemma {:induction false} NumberScanned(blanks: string, sign: string, n: nat, rest: string, before: nat)
    requires forall i :: 0 <= i < |blanks| ==> blanks[i] == ' ' || 9 <= blanks[i] as int <= 13
    requires sign in ["", "+", "-"] && (rest == [] || !('0' <= rest[0] <= '9'))
    ensures ScanUnsigned(blanks + (sign + (Decimal(n) + rest)), before) == if sign == "-" then Negated(n) else n
  {
    hide Decimal, ScanDigits, ScanUnsigned, Negated;
    var s := sign + (Decimal(n) + rest);
    if blanks != [] {
      NumberScanned(blanks[1..], sign, n, rest, before);
      assert (blanks + s)[1..] == blanks[1..] + s;
      SpaceSkipped(blanks + s, before);
    } else {
      PlainScanned(n, rest, before);
      NegatedIsMod(n);
      assert blanks + s == s;
      if sign == "" {
        assert s == Decimal(n) + rest;
      } else {
        SignedScanned(sign[0], Decimal(n) + rest, before);
      }
    }
  }

  function Pow10(k: nat): (r: nat)
    ensures r > 0
  {
    if k == 0 then 1 else 10 * Pow10(k - 1)
  }

  lemma {:induction false} DecimalLength(n: nat, k: nat)
    requires n < Pow10(k) && k >= 1
    ensures |Decimal(n)| <= k
  {
    if n >= 10 {
      assert k >= 2 by { assert Pow10(1) == 10 * Pow10(0); }
      DecimalLength(n / 10, k - 1);
    }
  }

  /** Every digit is where decimal notation puts it: the k-th from the right counts the tens to the k. */
  lemma {:induction false} DecimalIsPositional(n: nat, k: nat)
    requires k < |Decimal(n)|
    ensures Decimal(n)[|Decimal(n)| - 1 - k] as int - '0' as int == (n / Pow10(k)) % 10
    ensures Pow10(0) == 1 && (k > 0 ==> Pow10(k) == 10 * Pow10(k - 1))
  {
    if n < 10 {
      assert Pow10(0) == 1;
    } else {
      var front := Decimal(n / 10);
      assert Decimal(n) == front + [Digit(n % 10)];
      FromRight(front, Digit(n % 10), k);
      PowersOfTen(n, k);
      hide Decimal, Pow10, Digit;
      if k > 0 {
        DecimalIsPositional(n / 10, k - 1);
      }
    }
  }

  lemma FromRight(front: string, last: char, k: nat)
    requires k <= |front|
    ensures (front + [last])[|front + [last]| - 1 - k] == if k == 0 then last else front[|front| - 1 - (k - 1)]
  {
  }

  lemma PowersOfTen(n: nat, k: nat)
    ensures Pow10(0) == 1 && (k > 0 ==> Pow10(k) == 10 * Pow10(k - 1))
    ensures if k == 0 then n / Pow10(k) == n else n / Pow10(k) == (n / 10) / Pow10(k - 1)
  {
    if k > 0 {
      DivideTwice(n, Pow10(k - 1));
    }
  }

  lemma DivideTwice(n: nat, unit: nat)
    requires unit > 0
    ensures (n / 10) / unit == n / (10 * unit)
  {
    var q, r := (n / 10) / unit, (n / 10) % unit;
    assert n / 10 == unit * q + r;
    var rest := 10 * r + n % 10;
    assert n == 10 * (unit * q + r) + n % 10;
    assert 10 * (unit * q + r) == (10 * unit) * q + 10 * r;
    QuotientIs(n, 10 * unit, q, rest);
  }

  lemma QuotientIs(n: nat, unit: nat, q: nat, rest: nat)
    requires unit > 0 && n == unit * q + rest && rest < unit
    ensures n / unit == q
  {
    MultipleMod(unit, q, rest);
    assert unit * (n / unit) == unit * q;
  }

  /** No leading zeros. */
  lemma {:induction false} DecimalStarts(n: nat)
    ensures Decimal(n)[0] == '0' ==> n == 0
  {
    if n >= 10 {
      DecimalStarts(n / 10);
    }
  }

  // ----- records -----

  function Spaces(n: nat): (r: string)
    ensures |r| == n
  {
    seq(n, i => ' ')
  }

  /** The report padded with spaces, or cut, to one less than a record, and a line end. */
  function Record(id: nat, text: string): (r: string)
    ensures |r| == RECORD
  {
    var line := Decimal(id) + "|" + text;
    (if |line| < RECORD - 1 then line + Spaces(RECORD - 1 - |line|) else line[..RECORD - 1]) + "\n"
  }

  /** Ids are 32-bit and printed as signed numbers. */
  const ID_LIMIT: nat := 0x8000_0000

  /** A record from which the id is read back, whatever follows it in the file. */
  ghost predicate Reads(r: string, id: nat)
  {
    && |r| == RECORD
    && forall rest: string, before: nat :: ScanUnsigned(r + rest, before) == id
  }

  lemma RecordReads(id: nat, text: string)
    requires id < ID_LIMIT
    ensures Reads(Record(id, text), id)
  {
    IdLength(id);
    var r, d := Record(id, text), Decimal(id);
    assert r[..|d|] == d && r[|d|] == '|';
    forall rest: string, before: nat ensures ScanUnsigned(r + rest, before) == id {
      var tail := r[|d|..] + rest;
      assert r + rest == d + tail;
      DecimalScanned(id, tail);
      assert tail[0] == '|';
      assert (r + rest)[0] == d[0];
    }
  }

  // ----- what a record says -----

  /** Behind the first bar. */
  function AfterBar(s: string): string
  {
    if s == [] then [] else if s[0] == '|' then s[1..] else AfterBar(s[1..])
  }

  /** Without the blanks and line ends behind it. */
  function TrimEnd(s: string): string
  {
    if s != [] && (s[|s| - 1] == ' ' || s[|s| - 1] == '\n') then TrimEnd(s[..|s| - 1]) else s
  }

  /** The text of a record in the file. */
  function TextOf(r: string): string
  {
    TrimEnd(AfterBar(r))
  }

  /** Character by character: id, bar, as much of the text as fits into 69, blanks, and the line end. */
  lemma RecordLayout(id: nat, text: string)
    requires id < ID_LIMIT
    ensures var r, n := Record(id, text), |Decimal(id)|;
            && |r| == 70 && n <= 10 && r[69] == '\n'
            && r[..n] == Decimal(id) && r[n] == '|'
            && forall k :: n < k < 69 ==> r[k] == if k - n - 1 < |text| then text[k - n - 1] else ' '
  {
    hide Decimal;
    IdLength(id);
    var line := Decimal(id) + "|" + text;
    assert line[..|Decimal(id)|] == Decimal(id);
  }

  lemma IdLength(id: nat)
    requires id < ID_LIMIT
    ensures |Decimal(id)| <= 10
  {
    assert Pow10(10) == 10_000_000_000 by {
      assert Pow10(5) == 100_000;
      assert Pow10(10) == 100_000 * Pow10(5);
    }
    DecimalLength(id, 10);
  }

  lemma {:induction false} FirstBar(digits: string, rest: string)
    requires forall i :: 0 <= i < |digits| ==> digits[i] != '|'
    ensures AfterBar(digits + "|" + rest) == rest
  {
    var s := digits + "|" + rest;
    if digits == [] {
      assert s == "|" + rest && s[1..] == rest;
    } else {
      assert s[1..] == digits[1..] + "|" + rest;
      FirstBar(digits[1..], rest);
    }
  }

  lemma {:induction false} BlanksTrimmed(s: string, blanks: string)
    requires s == [] || (s[|s| - 1] != ' ' && s[|s| - 1] != '\n')
    requires forall i :: 0 <= i < |blanks| ==> blanks[i] == ' ' || blanks[i] == '\n'
    ensures TrimEnd(s + blanks) == s
  {
    if blanks == [] {
      assert s + blanks == s;
    } else {
      assert (s + blanks)[..|s + blanks| - 1] == s + blanks[..|blanks| - 1];
      BlanksTrimmed(s, blanks[..|blanks| - 1]);
    }
  }

  /** A text that fits beside the id and does not end in a blank is read back from its record. */
  predicate Loggable(id: nat, text: string)
  {
    && |Decimal(id)| + 1 + |text| <= 69
    && (text == [] || (text[|text| - 1] != ' ' && text[|text| - 1] != '\n'))
  }

  lemma TextReadBack(id: nat, text: string)
    requires id < ID_LIMIT && Loggable(id, text)
    ensures TextOf(Record(id, text)) == text
  {
    hide Decimal;
    var line := Decimal(id) + "|" + text;
    var blanks := Spaces(69 - |line|) + "\n";
    assert Record(id, text) == Decimal(id) + "|" + (text + blanks) by {
      if |line| == 69 {
        assert line[..69] == line && blanks == "\n";
      }
      assert line + blanks == Decimal(id) + "|" + (text + blanks);
    }
    FirstBar(Decimal(id), text + blanks);
    BlanksTrimmed(text, blanks);
  }

  // ----- the file as a sequence of slots -----

  predicate Whole(slots: seq<string>)
  {
    forall i :: 0 <= i < |slots| ==> |slots[i]| == RECORD
  }

  function Flatten(slots: seq<string>): (r: string)
    requires Whole(slots)
    ensures |r| == RECORD * |slots|
  {
    if slots == [] then [] else slots[0] + Flatten(slots[1..])
  }

  /** `fputs` at a position of a file opened for update; a gap is filled with null characters. */
  function Overwrite(file: string, at: nat, msg: string): string
  {
    if at + |msg| <= |file| then file[..at] + msg + file[at + |msg|..]
    else if at <= |file| then file[..at] + msg
    else file + seq(at - |file|, i => '\0') + msg
  }

  lemma {:induction false} FlattenFrom(slots: seq<string>, i: nat)
    requires Whole(slots) && i <= |slots|
    ensures Whole(slots[i..]) && Flatten(slots)[RECORD * i..] == Flatten(slots[i..])
  {
    if i > 0 {
      FlattenFrom(slots[1..], i - 1);
      assert slots[1..][i - 1..] == slots[i..];
      assert Flatten(slots)[RECORD * i..] == Flatten(slots)[RECORD..][RECORD * (i - 1)..];
    }
  }

  lemma OverwriteBehind(front: string, back: string, at: nat, r: string)
    requires at + |r| <= |back|
    ensures Overwrite(front + back, |front| + at, r) == front + Overwrite(back, at, r)
  {
    var f, n := front + back, |front|;
    assert f[..n + at] == front + back[..at];
    assert f[n + at + |r|..] == back[at + |r|..];
  }

  lemma {:induction false} OverwriteSlot(slots: seq<string>, i: nat, r: string)
    requires Whole(slots) && i < |slots| && |r| == RECORD
    ensures Whole(slots[i := r]) && Overwrite(Flatten(slots), RECORD * i, r) == Flatten(slots[i := r])
  {
    var f := Flatten(slots);
    if i == 0 {
      assert slots[0 := r][1..] == slots[1..];
      assert f[..0] + r + f[RECORD..] == r + Flatten(slots[1..]);
    } else {
      OverwriteSlot(slots[1..], i - 1, r);
      assert slots[i := r][1..] == slots[1..][i - 1 := r];
      OverwriteBehind(slots[0], Flatten(slots[1..]), RECORD * (i - 1), r);
    }
  }

  lemma {:induction false} AppendSlot(slots: seq<string>, r: string)
    requires Whole(slots) && |r| == RECORD
    ensures Whole(slots + [r]) && Overwrite(Flatten(slots), RECORD * |slots|, r) == Flatten(slots + [r])
  {
    if slots == [] {
      assert [r] + [] == [r] && Flatten([r]) == r + Flatten([]);
    } else {
      AppendSlot(slots[1..], r);
      assert (slots + [r])[1..] == slots[1..] + [r];
      assert Overwrite(Flatten(slots), RECORD * |slots|, r) == Flatten(slots) + r;
    }
  }

  // ----- the ring -----

  /** The slots after the records of `h` were written one after the other. */
  function Slots(cap: nat, h: seq<string>): (r: seq<string>)
    requires cap >= 1
    ensures |r| == if |h| < cap then |h| else cap
  {
    if h == [] then []
    else
      var before := Slots(cap, h[..|h| - 1]);
      if |before| < cap then before + [h[|h| - 1]] else before[(|h| - 1) % cap := h[|h| - 1]]
  }

  /** Number of the record that slot `j` holds after `n` records. */
  function Holder(cap: nat, n: nat, j: nat): int
    requires cap >= 1 && j < cap
  {
    if j < n % cap then n - n % cap + j else n - n % cap - cap + j
  }

  lemma HolderStep(cap: nat, n: nat, j: nat)
    requires cap >= 1 && j < cap
    ensures j == n % cap ==> Holder(cap, n + 1, j) == n
    ensures j != n % cap ==> Holder(cap, n + 1, j) == Holder(cap, n, j)
  {
    if n % cap == cap - 1 {
      NextMultiple(n, cap);
    } else {
      SameMultiple(n, cap);
    }
  }

  lemma NextMultiple(n: nat, cap: nat)
    requires cap >= 1 && n % cap == cap - 1
    ensures (n + 1) % cap == 0
  {
    var q := n / cap;
    assert n + 1 == cap * (q + 1);
    MultipleMod(cap, q + 1, 0);
  }

  lemma SameMultiple(n: nat, cap: nat)
    requires cap >= 1 && n % cap < cap - 1
    ensures (n + 1) % cap == n % cap + 1
  {
    assert n + 1 == cap * (n / cap) + (n % cap + 1);
    MultipleMod(cap, n / cap, n % cap + 1);
  }

  lemma {:induction false} AtLeastOnce(cap: nat, d: nat)
    requires d >= 1
    ensures cap * d >= cap
  {
    if d > 1 {
      AtLeastOnce(cap, d - 1);
      assert cap * d == cap * (d - 1) + cap;
    }
  }

  /** Quotient and remainder are unique. */
  lemma MultipleMod(cap: nat, q: nat, r: nat)
    requires r < cap
    ensures (cap * q + r) % cap == r
  {
    var x := cap * q + r;
    var q', r' := x / cap, x % cap;
    assert x == cap * q' + r';
    assert cap * q - cap * q' == cap * (q - q');
    if q > q' {
      AtLeastOnce(cap, q - q');
    } else if q < q' {
      assert cap * q' - cap * q == cap * (q' - q);
      AtLeastOnce(cap, q' - q);
    }
  }

  lemma SmallMod(n: nat, cap: nat)
    requires cap >= 1
    ensures n < cap ==> n % cap == n
    ensures n == cap ==> n % cap == 0
    ensures n >= cap ==> n - n % cap >= cap
  {
    if n >= cap {
      assert n - n % cap == cap * (n / cap);
      AtLeastOnce(cap, n / cap);
    }
  }

  lemma {:induction false} SlotsHold(cap: nat, h: seq<string>, j: nat)
    requires cap >= 1 && j < |Slots(cap, h)|
    ensures 0 <= Holder(cap, |h|, j) < |h| && Slots(cap, h)[j] == h[Holder(cap, |h|, j)]
  {
    var n := |h| - 1;
    var before := Slots(cap, h[..n]);
    HolderStep(cap, n, j);
    SmallMod(n, cap);
    hide Holder;
    if j != n % cap {
      SlotsHold(cap, h[..n], j);
      assert h[..n][Holder(cap, n, j)] == h[Holder(cap, n, j)];
    }
  }

  lemma DifferentSlots(cap: nat, k: nat, m: nat)
    requires cap >= 1 && k < m < k + cap
    ensures k % cap != m % cap
  {
    if k % cap == m % cap {
      assert m - k == cap * (m / cap) - cap * (k / cap) == cap * (m / cap - k / cap);
      if m / cap > k / cap {
        AtLeastOnce(cap, m / cap - k / cap);
      } else if m / cap < k / cap {
        AtLeastOnce(cap, k / cap - m / cap);
      }
    }
  }

  /** Each of the last `cap` records is in the slot that its number gives. */
  lemma {:induction false} LatestInSlot(cap: nat, h: seq<string>, k: nat)
    requires cap >= 1 && k < |h| <= k + cap
    ensures k % cap < |Slots(cap, h)| && Slots(cap, h)[k % cap] == h[k]
  {
    var n := |h| - 1;
    SmallMod(n, cap);
    SmallMod(k, cap);
    if k < n {
      LatestInSlot(cap, h[..n], k);
      DifferentSlots(cap, k, n);
    }
  }

  // ----- recovery -----

  function IdAt(file: string, i: nat, before: nat): nat
  {
    ScanUnsigned(if RECORD * i <= |file| then file[RECORD * i..] else [], before)
  }

  /**
   The scan over a full file: the first record whose id is smaller than the one
   before it ends the scan.  `id1` is the largest id so far, `id2` the variable
   that keeps its value when a record does not start with a number.
   */
  function ScanFrom(file: string, cap: nat, i: nat, id1: nat, id2: nat): (nat, nat)
    decreases cap - i
  {
    if i >= cap then (i, id1)
    else
      var next := IdAt(file, i, id2);
      if id1 > next then (i, id1) else ScanFrom(file, cap, i + 1, next, next)
  }

  datatype Recovery = Recovery(id: nat, index: nat, file: Option<string>)

  predicate Corrupt(cap: nat, file: Option<string>)
  {
    file.None? || |file.value| == 0 || |file.value| % RECORD != 0 || |file.value| > cap * RECORD
  }

  /** `garbage` is what the two local variables of the scan happen to hold. */
  function Recover(cap: nat, file: Option<string>, opens: bool, garbage: (nat, nat)): Recovery
    requires cap >= 1
  {
    if Corrupt(cap, file) then Recovery(1, 0, if opens then Some([]) else file)
    else if |file.value| < cap * RECORD then
      Recovery(|file.value| / RECORD + 1, |file.value| / RECORD, file)
    else if !opens then Recovery(1, 0, file)
    else
      var (i, id) := ScanFrom(file.value, cap, 1, IdAt(file.value, 0, garbage.0), garbage.1);
      Recovery(id + 1, i % cap, file)
  }

  /** Records with their ids, the ids strictly increasing. */
  ghost predicate Increasing(h: seq<string>, ids: seq<nat>)
  {
    && |h| == |ids|
    && (forall k :: 0 <= k < |h| ==> Reads(h[k], ids[k]))
    && (forall j, k :: 0 <= j < k < |ids| ==> ids[j] < ids[k])
  }

  /** The file of a ring. */
  ghost function RingFile(cap: nat, h: seq<string>): string
    requires cap >= 1 && Whole(Slots(cap, h))
  {
    Flatten(Slots(cap, h))
  }

  lemma IdInRing(cap: nat, h: seq<string>, ids: seq<nat>, j: nat, before: nat)
    requires cap >= 1 && Increasing(h, ids) && Whole(Slots(cap, h)) && j < |Slots(cap, h)|
    ensures 0 <= Holder(cap, |h|, j) < |h| && IdAt(RingFile(cap, h), j, before) == ids[Holder(cap, |h|, j)]
  {
    hide Holder, Reads, ScanUnsigned;
    var slots := Slots(cap, h);
    SlotsHold(cap, h, j);
    FlattenFrom(slots, j);
    var k := Holder(cap, |h|, j);
    assert Flatten(slots[j..]) == slots[j] + Flatten(slots[j + 1..]) by {
      assert slots[j..][1..] == slots[j + 1..];
    }
    assert Reads(h[k], ids[k]);
    ReadsAnything(h[k], ids[k], Flatten(slots[j + 1..]), before);
  }

  lemma ReadsAnything(r: string, id: nat, rest: string, before: nat)
    requires Reads(r, id)
    ensures ScanUnsigned(r + rest, before) == id
  {
  }

  /** The scan of a full ring stops behind the newest record. */
  lemma {:induction false} ScanFindsNewest(cap: nat, h: seq<string>, ids: seq<nat>, i: nat, id2: nat)
    requires cap >= 1 && Increasing(h, ids) && |h| >= cap && Whole(Slots(cap, h))
    requires 1 <= i <= cap && (|h| % cap != 0 ==> i <= |h| % cap)
    ensures var stop := if |h| % cap == 0 then cap else |h| % cap;
            ScanFrom(RingFile(cap, h), cap, i, IdAt(RingFile(cap, h), i - 1, 0), id2) == (stop, ids[|ids| - 1])
    decreases cap - i
  {
    hide IdAt, RingFile, Slots, Reads;
    var p := |h| % cap;
    SmallMod(|h|, cap);
    IdInRing(cap, h, ids, i - 1, 0);
    if i < cap {
      IdInRing(cap, h, ids, i, id2);
      IdInRing(cap, h, ids, i, 0);
      if i != p {
        ScanFindsNewest(cap, h, ids, i + 1, IdAt(RingFile(cap, h), i, id2));
      }
    }
  }

  lemma FileSize(size: nat, n: nat, cap: nat)
    requires size == RECORD * n && n <= cap
    ensures size % RECORD == 0 && size / RECORD == n && (size == 0 <==> n == 0) && (size < cap * RECORD <==> n < cap)
    ensures size <= cap * RECORD
  {
  }

  lemma RingScanned(cap: nat, h: seq<string>, ids: seq<nat>, garbage: (nat, nat))
    requires cap >= 1 && Increasing(h, ids) && Whole(Slots(cap, h)) && |h| >= cap
    ensures var f := RingFile(cap, h);
            var r := ScanFrom(f, cap, 1, IdAt(f, 0, garbage.0), garbage.1);
            r.0 % cap == |h| % cap && r.1 == ids[|ids| - 1]
  {
    hide IdAt, ScanFrom, Increasing, Slots, Whole, RingFile, Holder;
    IdInRing(cap, h, ids, 0, garbage.0);
    IdInRing(cap, h, ids, 0, 0);
    ScanFindsNewest(cap, h, ids, 1, garbage.1);
    SmallMod(cap, cap);
    SmallMod(|h| % cap, cap);
  }

  /**
   Recovery from the file of any strictly increasing history: the position is
   exact; the id continues from the newest record once the ring is full, and is
   taken from the number of records before.
   */
  lemma RingRecovered(cap: nat, h: seq<string>, ids: seq<nat>, garbage: (nat, nat))
    requires cap >= 1 && Increasing(h, ids) && Whole(Slots(cap, h))
    ensures var f := RingFile(cap, h);
            Recover(cap, Some(f), true, garbage)
            == Recovery(if h == [] then 1 else if |h| < cap then |h| + 1 else ids[|ids| - 1] + 1, |h| % cap, Some(f))
  {
    hide IdAt, ScanFrom, Increasing, Slots, Whole, Flatten;
    SmallMod(|h|, cap);
    FileSize(|RingFile(cap, h)|, if |h| < cap then |h| else cap, cap);
    if |h| >= cap {
      RingScanned(cap, h, ids, garbage);
    }
  }

  /** A number can be read at the beginning of every record of a full file. */
  ghost predicate ReadsNumbers(file: string, cap: nat, numbers: seq<nat>)
  {
    && |file| == 70 * cap && |numbers| == cap
    && forall j: nat, before: nat :: j < cap ==> ScanUnsigned(file[70 * j..], before) == numbers[j]
  }

  lemma NumberAt(file: string, cap: nat, numbers: seq<nat>, j: nat, before: nat)
    requires ReadsNumbers(file, cap, numbers) && j < cap
    ensures IdAt(file, j, before) == numbers[j]
  {
    hide ScanUnsigned;
    assert ScanUnsigned(file[70 * j..], before) == numbers[j];
  }

  lemma {:induction false} ScanReaches(file: string, cap: nat, numbers: seq<nat>, i: nat, stop: nat, id2: nat)
    requires ReadsNumbers(file, cap, numbers) && 1 <= i <= stop <= cap
    requires forall j :: 1 <= j < stop ==> numbers[j - 1] <= numbers[j]
    requires stop < cap ==> numbers[stop - 1] > numbers[stop]
    ensures ScanFrom(file, cap, i, numbers[i - 1], id2) == (stop, numbers[stop - 1])
    decreases stop - i
  {
    hide ReadsNumbers, IdAt;
    assert |numbers| == cap by { assert ReadsNumbers(file, cap, numbers); NumbersCount(file, cap, numbers); }
    if i < cap {
      NumberAt(file, cap, numbers, i, id2);
      if i < stop {
        ScanReaches(file, cap, numbers, i + 1, stop, numbers[i]);
      }
    }
  }

  lemma NumbersCount(file: string, cap: nat, numbers: seq<nat>)
    requires ReadsNumbers(file, cap, numbers)
    ensures |file| == 70 * cap && |numbers| == cap
  {
  }

  /**
   Any full file, from this log or not: the position is the first record whose
   number is below the one before it, or the start of the file if there is none,
   and the next id is one more than the number in front of it.
   */
  lemma RecoveredAtDescent(cap: nat, file: string, numbers: seq<nat>, stop: nat, garbage: (nat, nat))
    requires cap >= 1 && ReadsNumbers(file, cap, numbers) && 1 <= stop <= cap
    requires forall j :: 1 <= j < stop ==> numbers[j - 1] <= numbers[j]
    requires stop < cap ==> numbers[stop - 1] > numbers[stop]
    ensures Recover(cap, Some(file), true, garbage)
         == Recovery(numbers[stop - 1] + 1, if stop == cap then 0 else stop, Some(file))
  {
    hide ReadsNumbers, IdAt, ScanFrom;
    NumbersCount(file, cap, numbers);
    NumberAt(file, cap, numbers, 0, garbage.0);
    ScanReaches(file, cap, numbers, 1, stop, garbage.1);
    FileSize(|file|, cap, cap);
    SmallMod(stop, cap);
  }

  // ----- runs -----

  /** Volatile: the position and the next id, 0 meaning "not recovered yet". */
  datatype Log = Log(file: Option<string>, recordIndex: nat, nextId: nat)

  /** A report, with whether the file opens for the recovery and for the write; or a restart. */
  datatype Event = Report(text: string, recovers: bool, saves: bool) | Restart

  function Resume(cap: nat, log: Log, opens: bool, garbage: (nat, nat)): Log
    requires cap >= 1
  {
    if log.nextId != 0 then log
    else
      var r := Recover(cap, log.file, opens, garbage);
      Log(r.file, r.index, r.id)
  }

  /** `saveAlarm`: the file must exist and open. */
  function Save(cap: nat, log: Log, msg: string, opens: bool): Log
    requires cap >= 1
  {
    if log.file.None? || !opens then log
    else Log(Some(Overwrite(log.file.value, RECORD * log.recordIndex, msg)), (log.recordIndex + 1) % cap, log.nextId)
  }

  function Step(cap: nat, garbage: (nat, nat), log: Log, e: Event): Log
    requires cap >= 1
  {
    match e
    case Restart => Log(log.file, 0, 0)
    case Report(text, recovers, saves) =>
      var resumed := Resume(cap, log, recovers, garbage);
      Save(cap, resumed.(nextId := resumed.nextId + 1), Record(resumed.nextId, text), saves)
  }

  function Run(cap: nat, garbage: (nat, nat), log: Log, es: seq<Event>): Log
    requires cap >= 1
  {
    if es == [] then log else Step(cap, garbage, Run(cap, garbage, log, es[..|es| - 1]), es[|es| - 1])
  }

  // ----- what a run leaves, read off its events -----

  function Reports(es: seq<Event>): nat
  {
    if es == [] then 0 else Reports(es[..|es| - 1]) + if es[|es| - 1].Report? then 1 else 0
  }

  /** The numbers of the reports whose write succeeds. */
  function SavedIds(es: seq<Event>): (r: seq<nat>)
    ensures |r| <= Reports(es)
  {
    if es == [] then []
    else
      var last := es[|es| - 1];
      SavedIds(es[..|es| - 1]) + if last.Report? && last.saves then [Reports(es)] else []
  }

  /** Their records, the k-th report numbered k. */
  function Records(es: seq<Event>): (r: seq<string>)
    ensures |r| == |SavedIds(es)|
  {
    if es == [] then []
    else
      var last := es[|es| - 1];
      Records(es[..|es| - 1]) + if last.Report? && last.saves then [Record(Reports(es), last.text)] else []
  }

  /** Their texts. */
  function SavedTexts(es: seq<Event>): (r: seq<string>)
    ensures |r| == |SavedIds(es)|
  {
    if es == [] then []
    else
      var last := es[|es| - 1];
      SavedTexts(es[..|es| - 1]) + if last.Report? && last.saves then [last.text] else []
  }

  lemma {:induction false} RecordsHold(es: seq<Event>, k: nat)
    requires k < |Records(es)|
    ensures Records(es)[k] == Record(SavedIds(es)[k], SavedTexts(es)[k])
  {
    hide Record;
    if k < |Records(es[..|es| - 1])| {
      RecordsHold(es[..|es| - 1], k);
    }
  }

  /** Every recovery finds the file. */
  predicate Recovers(es: seq<Event>)
  {
    forall i :: 0 <= i < |es| ==> es[i].Report? ==> es[i].recovers
  }

  predicate EverySaved(es: seq<Event>)
  {
    forall i :: 0 <= i < |es| ==> es[i].Report? ==> es[i].saves
  }

  /** The latest report, if there is one, was written. */
  predicate LastSaved(es: seq<Event>)
  {
    if es == [] then true
    else if es[|es| - 1].Restart? then LastSaved(es[..|es| - 1])
    else es[|es| - 1].saves
  }

  /** Before the ring is full no report may be missing from it; after that only the latest one counts. */
  predicate NothingMissing(cap: nat, es: seq<Event>)
  {
    if |SavedIds(es)| < cap then EverySaved(es) else LastSaved(es)
  }

  /** A restart with a report behind it. */
  predicate ResumesAt(es: seq<Event>, i: nat)
  {
    0 < i < |es| && es[i].Report? && es[i - 1].Restart?
  }

  /** Nothing is missing at any restart that is followed by a report. */
  ghost predicate Undisturbed(cap: nat, es: seq<Event>)
  {
    forall i: nat :: ResumesAt(es, i) ==> NothingMissing(cap, es[..i])
  }

  lemma EverySavedSnoc(es: seq<Event>)
    requires es != []
    ensures EverySaved(es) <==> EverySaved(es[..|es| - 1]) && (es[|es| - 1].Report? ==> es[|es| - 1].saves)
  {
    var init := es[..|es| - 1];
    if EverySaved(es) {
      forall i | 0 <= i < |init| ensures init[i].Report? ==> init[i].saves {
        assert init[i] == es[i];
      }
    }
  }

  /** Saved numbers increase and reach the number of reports exactly if the latest one was saved. */
  lemma {:induction false} SavedIdsIncrease(es: seq<Event>)
    ensures var ids := SavedIds(es);
            && (forall j, k :: 0 <= j < k < |ids| ==> ids[j] < ids[k])
            && (forall k :: 0 <= k < |ids| ==> 1 <= ids[k] <= Reports(es))
            && (|ids| == Reports(es) <==> EverySaved(es))
            && (ids != [] ==> (ids[|ids| - 1] == Reports(es) <==> LastSaved(es)))
  {
    if es == [] {
      NoEventsSaved();
    } else {
      hide EverySaved;
      SavedIdsIncrease(es[..|es| - 1]);
      EverySavedSnoc(es);
    }
  }

  lemma NoEventsSaved()
    ensures EverySaved([]) && LastSaved([])
  {
  }

  lemma {:induction false} RecordsIncrease(es: seq<Event>)
    requires Reports(es) < ID_LIMIT
    ensures Increasing(Records(es), SavedIds(es))
  {
    hide Reads, Record, EverySaved, LastSaved;
    SavedIdsIncrease(es);
    if es != [] {
      RecordsIncrease(es[..|es| - 1]);
      if es[|es| - 1].Report? {
        RecordReads(Reports(es), es[|es| - 1].text);
      }
    }
  }

  // ----- runs from an empty file -----

  /** The file is the ring of the history; what is in memory, if anything, agrees with it. */
  ghost predicate Holds(cap: nat, log: Log, h: seq<string>, next: nat)
    requires cap >= 1
  {
    && Whole(Slots(cap, h))
    && (log.file == Some(RingFile(cap, h)) || (log.file == None && h == [] && log.nextId == 0))
    && (log.nextId == 0 || (log.nextId == next && log.recordIndex == |h| % cap))
  }

  lemma SaveHolds(cap: nat, log: Log, h: seq<string>, next: nat, r: string)
    requires cap >= 1 && Holds(cap, log, h, next) && log.nextId != 0 && |r| == RECORD
    ensures Holds(cap, Save(cap, log.(nextId := log.nextId + 1), r, true), h + [r], next + 1)
  {
    var slots := Slots(cap, h);
    assert (h + [r])[..|h|] == h;
    SmallMod(|h|, cap);
    HolderStepIndex(cap, |h|);
    if |slots| < cap {
      AppendSlot(slots, r);
    } else {
      OverwriteSlot(slots, |h| % cap, r);
    }
  }

  lemma HolderStepIndex(cap: nat, n: nat)
    requires cap >= 1
    ensures (n % cap + 1) % cap == (n + 1) % cap
  {
    if n % cap == cap - 1 {
      NextMultiple(n, cap);
      SmallMod(cap, cap);
    } else {
      SameMultiple(n, cap);
      SmallMod(n % cap + 1, cap);
    }
  }

  /** The id with which a recovery goes on. */
  function RecoveredId(cap: nat, es: seq<Event>): nat
  {
    var ids := SavedIds(es);
    if |ids| < cap then |ids| + 1 else if ids == [] then 1 else ids[|ids| - 1] + 1
  }

  /** A recovery never goes ahead of the writer, and goes on with the writer's id exactly if nothing is missing. */
  lemma RecoveredIdIs(cap: nat, es: seq<Event>)
    requires cap >= 1
    ensures 1 <= RecoveredId(cap, es) <= Reports(es) + 1
    ensures RecoveredId(cap, es) == Reports(es) + 1 <==> NothingMissing(cap, es)
  {
    hide EverySaved, LastSaved, Reports;
    SavedIdsIncrease(es);
  }

  lemma RecoveredFromRing(cap: nat, garbage: (nat, nat), log: Log, es: seq<Event>)
    requires cap >= 1 && Reports(es) < ID_LIMIT && Holds(cap, log, Records(es), Reports(es) + 1)
    ensures Resume(cap, Log(log.file, 0, 0), true, garbage)
         == Log(Some(RingFile(cap, Records(es))), |Records(es)| % cap, RecoveredId(cap, es))
  {
    hide Increasing, Reads, Record, Records, SavedIds, Reports;
    RecordsIncrease(es);
    SmallMod(|Records(es)|, cap);
    if log.file.Some? {
      RingRecovered(cap, Records(es), SavedIds(es), garbage);
    }
  }

  /** What a report finds: the ring, its position, and the number of reports plus one. */
  lemma Resumed(cap: nat, garbage: (nat, nat), log: Log, es: seq<Event>)
    requires cap >= 1 && Reports(es) < ID_LIMIT && Holds(cap, log, Records(es), Reports(es) + 1)
    requires log.nextId == 0 ==> NothingMissing(cap, es)
    ensures Resume(cap, log, true, garbage)
         == Log(Some(RingFile(cap, Records(es))), |Records(es)| % cap, Reports(es) + 1)
    ensures Holds(cap, Resume(cap, log, true, garbage), Records(es), Reports(es) + 1)
  {
    hide Recover, NothingMissing, RecoveredId, Records, Reports;
    if log.nextId == 0 {
      RecoveredFromRing(cap, garbage, log, es);
      RecoveredIdIs(cap, es);
    }
  }

  lemma UndisturbedPrefix(cap: nat, es: seq<Event>, n: nat)
    requires n <= |es| && Undisturbed(cap, es)
    ensures Undisturbed(cap, es[..n])
  {
    hide NothingMissing;
    forall i: nat | ResumesAt(es[..n], i) ensures NothingMissing(cap, es[..n][..i]) {
      assert es[..n][..i] == es[..i] && ResumesAt(es, i);
    }
  }

  /** What is in memory is unknown at the start and right after a restart, and nowhere else. */
  predicate Forgotten(es: seq<Event>)
  {
    es == [] || es[|es| - 1].Restart?
  }

  lemma RestartRecordsNothing(es: seq<Event>)
    ensures Records(es + [Restart]) == Records(es) && Reports(es + [Restart]) == Reports(es)
  {
    hide Record;
    assert (es + [Restart])[..|es|] == es;
    assert Records(es) + [] == Records(es);
  }

  lemma ReportCounts(es: seq<Event>, e: Event)
    requires e.Report?
    ensures Reports(es + [e]) == Reports(es) + 1
  {
    assert (es + [e])[..|es|] == es;
  }

  /** One event, with what was in memory before it agreeing with the events so far. */
  lemma StepHolds(cap: nat, garbage: (nat, nat), before: Log, es: seq<Event>, e: Event)
    requires cap >= 1 && Reports(es + [e]) < ID_LIMIT && (e.Report? ==> e.recovers)
    requires Holds(cap, before, Records(es), Reports(es) + 1)
    requires e.Report? && before.nextId == 0 ==> NothingMissing(cap, es)
    ensures var log := Step(cap, garbage, before, e);
            && Holds(cap, log, Records(es + [e]), Reports(es + [e]) + 1)
            && (log.nextId == 0 <==> e.Restart?)
  {
    hide Holds, Record, Save, Resume, NothingMissing, Run, Records, SavedIds;
    match e
    case Restart =>
      RestartHolds(cap, before, Records(es), Reports(es) + 1);
      RestartRecordsNothing(es);
    case Report(text, recovers, saves) =>
      ReportCounts(es, e);
      Resumed(cap, garbage, before, es);
      ReportHolds(cap, Resume(cap, before, true, garbage), es, text, saves);
  }

  lemma {:induction false} RunHolds(cap: nat, garbage: (nat, nat), file: Option<string>, es: seq<Event>)
    requires cap >= 1 && Recovers(es) && Undisturbed(cap, es) && Reports(es) < ID_LIMIT
    requires file == None || file == Some([])
    ensures var log := Run(cap, garbage, Log(file, 0, 0), es);
            Holds(cap, log, Records(es), Reports(es) + 1) && (log.nextId == 0 <==> Forgotten(es))
  {
    hide Holds, Step, NothingMissing, Undisturbed, Records;
    if es == [] {
      NothingHeld(cap, file);
    } else {
      var init, e := es[..|es| - 1], es[|es| - 1];
      UndisturbedPrefix(cap, es, |init|);
      RunHolds(cap, garbage, file, init);
      if e.Report? {
        ResumableAt(cap, es, |init|);
      }
      assert init + [e] == es;
      StepHolds(cap, garbage, Run(cap, garbage, Log(file, 0, 0), init), init, e);
    }
  }

  lemma ResumableAt(cap: nat, es: seq<Event>, i: nat)
    requires cap >= 1 && i < |es| && es[i].Report? && Undisturbed(cap, es)
    ensures Forgotten(es[..i]) ==> NothingMissing(cap, es[..i])
  {
    if i > 0 && es[i - 1].Restart? {
      assert ResumesAt(es, i);
    }
  }

  lemma ReportHolds(cap: nat, log: Log, es: seq<Event>, text: string, saves: bool)
    requires cap >= 1 && Holds(cap, log, Records(es), Reports(es) + 1) && log.nextId == Reports(es) + 1
    ensures var all := es + [Report(text, true, saves)];
            var after := Save(cap, log.(nextId := log.nextId + 1), Record(log.nextId, text), saves);
            && Reports(all) == Reports(es) + 1 && after.nextId == log.nextId + 1
            && Records(all) == Records(es) + (if saves then [Record(log.nextId, text)] else [])
            && Holds(cap, after, Records(all), Reports(all) + 1)
  {
    hide Record, Slots, RingFile, Whole;
    var all := es + [Report(text, true, saves)];
    assert all[..|all| - 1] == es;
    if saves {
      SaveHolds(cap, log, Records(es), Reports(es) + 1, Record(log.nextId, text));
    } else {
      assert Records(es) + [] == Records(es);
    }
  }

  lemma NothingHeld(cap: nat, file: Option<string>)
    requires cap >= 1 && (file == None || file == Some([]))
    ensures Holds(cap, Log(file, 0, 0), [], 1) && Records([]) == [] && Reports([]) == 0
  {
  }

  lemma RestartHolds(cap: nat, log: Log, h: seq<string>, next: nat)
    requires cap >= 1 && Holds(cap, log, h, next)
    ensures Holds(cap, Log(log.file, 0, 0), h, next)
  {
  }

  lemma EverySavedIsUndisturbed(cap: nat, es: seq<Event>)
    requires EverySaved(es)
    ensures Undisturbed(cap, es) && |Records(es)| == Reports(es)
  {
    hide SavedIds, Reports, Records;
    SavedIdsIncrease(es);
    forall i: nat | ResumesAt(es, i) ensures NothingMissing(cap, es[..i]) {
      assert forall k :: 0 <= k < i ==> es[..i][k] == es[k];
      assert EverySaved(es[..i]);
      EverySavedIsLastSaved(es[..i]);
    }
  }

  lemma {:induction false} EverySavedIsLastSaved(es: seq<Event>)
    requires EverySaved(es)
    ensures LastSaved(es)
  {
    if es != [] && es[|es| - 1].Restart? {
      EverySavedSnoc(es);
      EverySavedIsLastSaved(es[..|es| - 1]);
    }
  }

  /**
   Restart is transparent.  For every capacity and every run of reports from an
   empty or missing file, with restarts anywhere in between and no failed write:
   the file is the ring of the records numbered 1 to n, and whoever resumes -
   with what is in memory or with a recovery - continues at position n modulo
   the capacity with id n + 1.
   */
  lemma RestartTransparent(cap: nat, garbage: (nat, nat), file: Option<string>, es: seq<Event>)
    requires cap >= 1 && Recovers(es) && EverySaved(es) && Reports(es) < ID_LIMIT
    requires file == None || file == Some([])
    ensures var log := Run(cap, garbage, Log(file, 0, 0), es);
            var n := Reports(es);
            && |Records(es)| == n && Whole(Slots(cap, Records(es)))
            && Resume(cap, log, true, garbage) == Log(Some(RingFile(cap, Records(es))), n % cap, n + 1)
            && Resume(cap, Log(log.file, 0, 0), true, garbage) == Resume(cap, log, true, garbage)
  {
    hide Record, Resume, Run, Recover, Undisturbed, EverySaved, LastSaved;
    var log := Run(cap, garbage, Log(file, 0, 0), es);
    EverySavedIsUndisturbed(cap, es);
    RunHolds(cap, garbage, file, es);
    assert NothingMissing(cap, es) by { EverySavedIsLastSaved(es); }
    Resumed(cap, garbage, log, es);
    RestartHolds(cap, log, Records(es), Reports(es) + 1);
    Resumed(cap, garbage, Log(log.file, 0, 0), es);
  }

  /**
   Lost writes.  Any writes may fail, as long as nothing is missing at the
   restarts so far (in particular without any restart): after the last report
   the file is the ring of the records that were saved, and a recovery gives the
   writer's position.  It gives the writer's next id if and only if every report
   was saved (fewer records than the ring holds) or the last one was (otherwise).
   */
  lemma NextIdRecoveredIff(cap: nat, garbage: (nat, nat), file: Option<string>, es: seq<Event>)
    requires cap >= 1 && Recovers(es) && Undisturbed(cap, es) && Reports(es) < ID_LIMIT
    requires file == None || file == Some([])
    requires es != [] && es[|es| - 1].Report?
    ensures var log := Run(cap, garbage, Log(file, 0, 0), es);
            var r := Recover(cap, log.file, true, garbage);
            && Whole(Slots(cap, Records(es))) && log.file == Some(RingFile(cap, Records(es)))
            && r.file == log.file && r.index == log.recordIndex && log.nextId == Reports(es) + 1
            && (r.id == log.nextId <==> if |Records(es)| < cap then EverySaved(es) else es[|es| - 1].saves)
  {
    hide Record, Run, Recover, Undisturbed, EverySaved, Slots, RingFile, Reports, Records, SavedIds, RecoveredId;
    var log := Run(cap, garbage, Log(file, 0, 0), es);
    RunHolds(cap, garbage, file, es);
    RecoveredFromRing(cap, garbage, log, es);
    RecoveredIdIs(cap, es);
  }

  // ----- reading the log -----

  /** The characters of a slot of the file. */
  function SlotOf(file: string, j: nat): string
  {
    if 70 * j + 70 <= |file| then file[70 * j..70 * j + 70] else []
  }

  lemma SlotInFlat(slots: seq<string>, j: nat)
    requires Whole(slots) && j < |slots|
    ensures SlotOf(Flatten(slots), j) == slots[j]
  {
    FlattenFrom(slots, j);
    var f := Flatten(slots);
    assert slots[j..][1..] == slots[j + 1..];
    assert f[70 * j..][..70] == slots[j];
    assert f[70 * j..70 * j + 70] == f[70 * j..][..70];
  }

  /**
   What a reader of the log finds after a run with any writes lost (and nothing
   missing at its restarts): the last records that fit into the ring, each where
   its number among the saved ones puts it, with the number of the report and
   its text.
   */
  lemma LogShowsReports(cap: nat, garbage: (nat, nat), file: Option<string>, es: seq<Event>, k: nat)
    requires cap >= 1 && Recovers(es) && Undisturbed(cap, es) && Reports(es) < ID_LIMIT
    requires file == None || file == Some([])
    requires k < |SavedIds(es)| <= k + cap
    ensures var log := Run(cap, garbage, Log(file, 0, 0), es);
            && log.file.Some?
            && var slot := SlotOf(log.file.value, k % cap);
               && |slot| == 70 && ScanUnsigned(slot, 0) == SavedIds(es)[k]
               && (Loggable(SavedIds(es)[k], SavedTexts(es)[k]) ==> TextOf(slot) == SavedTexts(es)[k])
  {
    hide Record, Run, Undisturbed, Slots, Reports, Records, SavedIds, SavedTexts, ScanUnsigned, Loggable, TextOf,
         SlotOf, Flatten;
    var log, h := Run(cap, garbage, Log(file, 0, 0), es), Records(es);
    RunHolds(cap, garbage, file, es);
    LatestInSlot(cap, h, k);
    SlotInFlat(Slots(cap, h), k % cap);
    RecordsHold(es, k);
    SavedIdsIncrease(es);
    var id, text := SavedIds(es)[k], SavedTexts(es)[k];
    RecordReads(id, text);
    assert h[k] + [] == h[k];
    ReadsAnything(h[k], id, [], 0);
    if Loggable(id, text) {
      TextReadBack(id, text);
    }
  }

  // ----- unique ids -----

  /** The id that the report at `i` is given. */
  function IdGiven(cap: nat, garbage: (nat, nat), file: Option<string>, es: seq<Event>, i: nat): nat
    requires cap >= 1 && i < |es| && es[i].Report?
  {
    Resume(cap, Run(cap, garbage, Log(file, 0, 0), es[..i]), es[i].recovers, garbage).nextId
  }

  ghost predicate UniqueIds(cap: nat, garbage: (nat, nat), file: Option<string>, es: seq<Event>)
    requires cap >= 1
  {
    forall i, j :: 0 <= i < j < |es| && es[i].Report? && es[j].Report?
              ==> IdGiven(cap, garbage, file, es, i) != IdGiven(cap, garbage, file, es, j)
  }

  lemma {:induction false} ReportsGrow(es: seq<Event>, i: nat, j: nat)
    requires i <= j <= |es|
    ensures Reports(es[..i]) <= Reports(es[..j])
    ensures i < j && es[i].Report? ==> Reports(es[..i]) < Reports(es[..j])
    decreases j
  {
    if i < j {
      assert es[..j][..j - 1] == es[..j - 1];
      ReportsGrow(es, i, j - 1);
    }
  }

  /** In an undisturbed run the k-th report is given id k. */
  lemma IdIsNumber(cap: nat, garbage: (nat, nat), file: Option<string>, es: seq<Event>, i: nat)
    requires cap >= 1 && Recovers(es) && i < |es| && es[i].Report? && Reports(es) < ID_LIMIT
    requires file == None || file == Some([])
    requires Undisturbed(cap, es[..i]) && (Forgotten(es[..i]) ==> NothingMissing(cap, es[..i]))
    ensures IdGiven(cap, garbage, file, es, i) == Reports(es[..i]) + 1
  {
    hide Run, Resume, Holds, Undisturbed, NothingMissing, Reports, Records;
    PrefixFine(es, i);
    RunHolds(cap, garbage, file, es[..i]);
    Resumed(cap, garbage, Run(cap, garbage, Log(file, 0, 0), es[..i]), es[..i]);
  }

  lemma PrefixFine(es: seq<Event>, i: nat)
    requires i <= |es|
    ensures Recovers(es) ==> Recovers(es[..i])
    ensures Reports(es[..i]) <= Reports(es)
  {
    ReportsGrow(es, i, |es|);
    assert es[..|es|] == es;
    assert forall k :: 0 <= k < i ==> es[..i][k] == es[k];
  }

  /** Every number up to the count of reports belongs to a report. */
  lemma {:induction false} ReportNumbered(es: seq<Event>, n: nat) returns (j: nat)
    requires 1 <= n <= Reports(es)
    ensures j < |es| && es[j].Report? && Reports(es[..j]) + 1 == n
  {
    var init := es[..|es| - 1];
    if n <= Reports(init) {
      j := ReportNumbered(init, n);
      assert init[..j] == es[..j];
    } else {
      j := |es| - 1;
    }
  }

  /** The first restart at which something is missing makes the report behind it repeat an id. */
  lemma FirstDisturbanceRepeats(cap: nat, garbage: (nat, nat), file: Option<string>, es: seq<Event>, i: nat)
    returns (j: nat)
    requires cap >= 1 && Recovers(es) && Reports(es) < ID_LIMIT && (file == None || file == Some([]))
    requires ResumesAt(es, i) && !NothingMissing(cap, es[..i]) && Undisturbed(cap, es[..i])
    ensures j < i && es[j].Report? && IdGiven(cap, garbage, file, es, j) == IdGiven(cap, garbage, file, es, i)
  {
    hide Run, Recover, Undisturbed, NothingMissing, Reports, Records, RecoveredId, Holds;
    var pre := es[..i];
    PrefixFine(es, i);
    RunHolds(cap, garbage, file, pre);
    var log := Run(cap, garbage, Log(file, 0, 0), pre);
    RecoveredFromRing(cap, garbage, log, pre);
    RecoveredIdIs(cap, pre);
    assert IdGiven(cap, garbage, file, es, i) == RecoveredId(cap, pre);
    j := ReportNumbered(pre, RecoveredId(cap, pre));
    assert pre[..j] == es[..j] && pre[j] == es[j];
    UndisturbedPrefix(cap, pre, j);
    ResumableAt(cap, pre, j);
    IdIsNumber(cap, garbage, file, es, j);
  }

  /** The first index at which something is missing, if there is one. */
  lemma {:induction false} FirstDisturbance(cap: nat, es: seq<Event>, n: nat) returns (i: nat)
    requires n <= |es| && !Undisturbed(cap, es[..n])
    ensures i < n && ResumesAt(es, i) && !NothingMissing(cap, es[..i]) && Undisturbed(cap, es[..i])
  {
    hide NothingMissing;
    i :| ResumesAt(es[..n], i) && !NothingMissing(cap, es[..n][..i]);
    assert es[..n][..i] == es[..i] && ResumesAt(es, i);
    if !Undisturbed(cap, es[..i]) {
      i := FirstDisturbance(cap, es, i);
    }
  }

  /**
   Which runs keep ids unique.  With any writes lost and restarts anywhere, no
   two reports are given the same id if and only if nothing is missing at any
   restart that a report follows.
   */
  lemma UniqueIdsIff(cap: nat, garbage: (nat, nat), file: Option<string>, es: seq<Event>)
    requires cap >= 1 && Recovers(es) && Reports(es) < ID_LIMIT
    requires file == None || file == Some([])
    ensures UniqueIds(cap, garbage, file, es) <==> Undisturbed(cap, es)
  {
    hide IdGiven, NothingMissing, Undisturbed;
    assert es[..|es|] == es;
    if Undisturbed(cap, es) {
      forall i, j | 0 <= i < j < |es| && es[i].Report? && es[j].Report?
        ensures IdGiven(cap, garbage, file, es, i) != IdGiven(cap, garbage, file, es, j)
      {
        UndisturbedPrefix(cap, es, i);
        UndisturbedPrefix(cap, es, j);
        ResumableAt(cap, es, i);
        ResumableAt(cap, es, j);
        IdIsNumber(cap, garbage, file, es, i);
        IdIsNumber(cap, garbage, file, es, j);
        ReportsGrow(es, i, j);
      }
    } else {
      var i := FirstDisturbance(cap, es, |es|);
      var j := FirstDisturbanceRepeats(cap, garbage, file, es, i);
      assert IdGiven(cap, garbage, file, es, j) == IdGiven(cap, garbage, file, es, i);
    }
  }

  /** One lost write and a restart before the ring is full: two records with the same id. */
  lemma LostWriteDuplicatesId(cap: nat, garbage: (nat, nat), a: string, b: string, c: string)
    requires cap >= 2
    ensures var es := [Report(a, true, false), Report(b, true, true), Restart, Report(c, true, true)];
            Run(cap, garbage, Log(Some([]), 0, 0), es) == Log(Some(Record(2, b) + Record(2, c)), 2 % cap, 3)
  {
    hide Record;
    var start := Log(Some([]), 0, 0);
    var es := [Report(a, true, false), Report(b, true, true), Restart, Report(c, true, true)];
    SmallMod(1, cap);
    assert es[..3][..2] == es[..2] && es[..2][..1] == es[..1] && es[..1][..0] == [];
    assert Run(cap, garbage, start, []) == start;
    var log1 := Run(cap, garbage, start, es[..1]);
    assert log1 == Step(cap, garbage, start, es[0]);
    assert Resume(cap, start, true, garbage) == Log(Some([]), 0, 1);
    assert log1 == Log(Some([]), 0, 2);
    var log2 := Run(cap, garbage, start, es[..2]);
    assert log2 == Log(Some(Record(2, b)), 1, 3) by {
      assert Overwrite([], 0, Record(2, b)) == Record(2, b);
    }
    var log3 := Run(cap, garbage, start, es[..3]);
    assert log3 == Log(Some(Record(2, b)), 0, 0);
    assert Resume(cap, log3, true, garbage) == Log(log3.file, 1, 2);
    assert Overwrite(Record(2, b), RECORD, Record(2, c)) == Record(2, b) + Record(2, c);
  }

  // ----- the writer -----

  class LogWriter {
    const capacity: nat
    /** The file on disk, which outlives the writer's memory. */
    var file: Option<string>
    var recordIndex: nat
    var nextId: nat

    constructor (capacity: nat, file: Option<string>)
      ensures this.capacity == capacity && Value() == Log(file, 0, 0)
    {
      this.capacity, this.file, recordIndex, nextId := capacity, file, 0, 0;
    }

    function Value(): Log
      reads this
    {
      Log(file, recordIndex, nextId)
    }

    method GetLastId(opens: bool, garbage: (nat, nat)) returns (id: nat)
      requires capacity >= 1
      modifies `file, `recordIndex
      ensures Recover(capacity, old(file), opens, garbage) == Recovery(id, recordIndex, file)
      ensures var f := old(file);
              || f == None || |f.value| == 0 || |f.value| % 70 != 0 || |f.value| > 70 * capacity
              ==> id == 1 && recordIndex == 0 && file == if opens then Some("") else f
      ensures var f := old(file);
              f.Some? && 0 < |f.value| < 70 * capacity && |f.value| % 70 == 0
              ==> recordIndex == |f.value| / 70 && id == recordIndex + 1 && file == f
    {
      hide IdAt;
      if Corrupt(capacity, file) {
        id, recordIndex := 1, 0;
        if opens {
          file := Some([]);
        }
      } else if |file.value| < capacity * RECORD {
        recordIndex := |file.value| / RECORD;
        id := recordIndex + 1;
      } else if !opens {
        id, recordIndex := 1, 0;
      } else {
        var id1 := IdAt(file.value, 0, garbage.0);
        var id2 := garbage.1;
        var i := 1;
        while i < capacity
          invariant 1 <= i
          invariant ScanFrom(file.value, capacity, i, id1, id2)
                 == ScanFrom(file.value, capacity, 1, IdAt(file.value, 0, garbage.0), garbage.1)
        {
          id2 := IdAt(file.value, i, id2);
          if id1 > id2 {
            break;
          }
          id1 := id2;
          i := i + 1;
        }
        recordIndex := i % capacity;
        id := id1 + 1;
      }
    }

    method GenerateNextId(opens: bool, garbage: (nat, nat)) returns (id: nat)
      requires capacity >= 1
      modifies this
      ensures var resumed := Resume(capacity, old(Value()), opens, garbage);
              id == resumed.nextId && Value() == resumed.(nextId := id + 1)
    {
      hide Recover;
      if nextId == 0 {
        nextId := GetLastId(opens, garbage);
      }
      id := nextId;
      nextId := nextId + 1;
    }

    method SaveAlarm(msg: string, opens: bool) returns (ok: bool)
      requires capacity >= 1
      modifies `file, `recordIndex
      ensures Value() == Save(capacity, old(Value()), msg, opens)
      ensures ok <==> opens && old(file).Some?
    {
      if file.None? || !opens {
        return false;
      }
      var fpos := RECORD * recordIndex;
      recordIndex := recordIndex + 1;
      recordIndex := recordIndex % capacity;
      file := Some(Overwrite(file.value, fpos, msg));
      ok := true;
    }

    /** The report line in the message buffer: what follows it up to the record's width is blanked. */
    method FormatReport(id: nat, text: string, strMsg: array<char>)
      requires strMsg.Length > RECORD && |Decimal(id)| + 1 + |text| < strMsg.Length
      modifies strMsg
      ensures strMsg[..RECORD] == Record(id, text) && strMsg[RECORD] == '\0'
    {
      hide Decimal;
      var line := Decimal(id) + "|" + text;
      forall i | 0 <= i < |line| {
        strMsg[i] := line[i];
      }
      var i := |line|;
      while i < RECORD - 1
        invariant |line| <= i && (i <= RECORD - 1 || i == |line|)
        invariant forall k :: 0 <= k < |line| ==> strMsg[k] == line[k]
        invariant forall k :: |line| <= k < i ==> strMsg[k] == ' '
      {
        strMsg[i] := ' ';
        i := i + 1;
      }
      strMsg[RECORD - 1] := '\n';
      strMsg[RECORD] := '\0';
    }

    /** One report: id, line, file. */
    method ReportNewAlarm(text: string, recovers: bool, saves: bool, garbage: (nat, nat)) returns (id: nat)
      requires capacity >= 1
      modifies this
      ensures Value() == Step(capacity, garbage, old(Value()), Report(text, recovers, saves))
      ensures id == Resume(capacity, old(Value()), recovers, garbage).nextId
    {
      hide Recover, Record, Decimal;
      id := GenerateNextId(recovers, garbage);
      var strMsg := new char[RECORD + 2 + |Decimal(id)| + |text|];
      FormatReport(id, text, strMsg);
      var ok := SaveAlarm(strMsg[..RECORD], saves);
    }

    /** The process comes up again: its static variables are zero, the file is as it was. */
    method Restarted()
      modifies `recordIndex, `nextId
      ensures forall garbage: (nat, nat) :: capacity >= 1 ==> Value() == Step(capacity, garbage, old(Value()), Restart)
    {
      recordIndex, nextId := 0, 0;
    }
  }
}
