/**
 The alarm manager on values: one list of outstanding alarms per module, the
 session and outstanding statistics, the operational state, the last error of
 each module tag, and the effect of a raise and of a clear on all of them.
 */
module AlarmModel {

  const NO_ERROR: int := 0
  const MODULES: nat := 26
  const POOL: nat := 50

  datatype Severity = Critical | Major | Minor | Info

  const SEVERITIES: nat := 4

  function Rank(v: Severity): (r: nat)
    ensures r < SEVERITIES
  {
    match v
    case Critical => 0
    case Major => 1
    case Minor => 2
    case Info => 3
  }

  const CRITICAL_START: int := 0x0001
  const MAJOR_START: int := 0x0100
  const MINOR_START: int := 0x0800
  const INFO_START: int := 0x1000

  /** The low sixteen bits of a code say how severe the alarm is. */
  function SeverityOf(code: int): Severity
  {
    var low := code % 0x1_0000;
    if low < CRITICAL_START then Info
    else if low < MAJOR_START then Critical
    else if low < MINOR_START then Major
    else if low < INFO_START then Minor
    else Info
  }

  datatype Entry = Entry(code: int, id: nat, severity: Severity, utc: int, count: nat)

  /** The arguments of a report: a clear tells of an earlier alarm by code and id, a raise has texts of its caller. */
  datatype Told = OfCaller | Earlier(code: int, id: nat)
  datatype Report = Report(id: nat, mid: int, code: int, severity: Severity, told: Told)

  /** One counter per severity. */
  type Tally = t: seq<int> | |t| == SEVERITIES witness [0, 0, 0, 0]

  const ZERO: Tally := [0, 0, 0, 0]

  function Count(t: Tally, v: Severity, change: int): (r: Tally)
    ensures r[Rank(v)] == t[Rank(v)] + change
    ensures forall w :: Rank(w) != Rank(v) ==> r[Rank(w)] == t[Rank(w)]
  {
    t[Rank(v) := t[Rank(v)] + change]
  }

  type Lists = ls: seq<seq<Entry>> | |ls| == MODULES witness seq(MODULES, i => [])

  datatype State = State(lists: Lists, session: Tally, outstanding: Tally, enabled: bool, mibAccess: bool,
                         lastError: map<int, int>, nextId: nat, reports: seq<Report>)

  function Initial(enabled: bool, mibAccess: bool, firstId: nat): State
  {
    State(seq(MODULES, i => []), ZERO, ZERO, enabled, mibAccess, map[], firstId, [])
  }

  // ----- looking at lists -----

  /** Position of the first entry with `code`; the length of the list if there is none. */
  function FirstIndex(l: seq<Entry>, code: int): (r: nat)
    ensures r <= |l|
    ensures r < |l| ==> l[r].code == code
    ensures forall i :: 0 <= i < r ==> l[i].code != code
  {
    if l == [] then 0
    else if l[0].code == code then 0
    else
      var k := FirstIndex(l[1..], code);
      assert forall i :: 0 < i <= k ==> l[i] == l[1..][i - 1];
      1 + k
  }

  function LastCode(l: seq<Entry>): int
  {
    if l == [] then NO_ERROR else l[|l| - 1].code
  }

  function Total(ls: seq<seq<Entry>>): nat
  {
    if ls == [] then 0 else |ls[0]| + Total(ls[1..])
  }

  predicate HasCritical(l: seq<Entry>)
  {
    exists i :: 0 <= i < |l| && l[i].severity == Critical
  }

  predicate AnyCritical(ls: Lists)
  {
    exists m :: 0 <= m < MODULES && HasCritical(ls[m])
  }

  // ----- raise -----

  function Raise(s: State, mid: nat, tag: int, code: int, now: int): State
    requires mid < MODULES
  {
    var k := FirstIndex(s.lists[mid], code);
    if k < |s.lists[mid]| then Repeated(s, mid, k) else Raised(s, mid, tag, code, now)
  }

  /** The alarm is outstanding already: only its count changes. */
  function Repeated(s: State, mid: nat, k: nat): State
    requires mid < MODULES && k < |s.lists[mid]|
  {
    var l := s.lists[mid];
    s.(lists := s.lists[mid := l[k := l[k].(count := l[k].count + 1)]])
  }

  /** A new alarm; with the pool full it is counted and reported but not kept. */
  function Raised(s: State, mid: nat, tag: int, code: int, now: int): State
    requires mid < MODULES
  {
    var v := SeverityOf(code);
    var lists :=
      if Total(s.lists) < POOL then s.lists[mid := s.lists[mid] + [Entry(code, s.nextId, v, now, 1)]] else s.lists;
    State(lists, Count(s.session, v, 1), Count(s.outstanding, v, 1), s.enabled && v != Critical, s.mibAccess,
          s.lastError[tag := LastCode(lists[mid])], s.nextId + 1,
          s.reports + [Report(s.nextId, mid, code, v, OfCaller)])
  }

  // ----- clear -----

  function Retire(t: Tally, removed: seq<Entry>): Tally
  {
    if removed == [] then t
    else Count(Retire(t, removed[..|removed| - 1]), SeverityOf(removed[|removed| - 1].code), -1)
  }

  /** What a clear takes out of a list: everything, the first entry with the code, or nothing. */
  function Removed(l: seq<Entry>, code: int): seq<Entry>
  {
    if code == NO_ERROR then l
    else if FirstIndex(l, code) < |l| then [l[FirstIndex(l, code)]] else []
  }

  function Remaining(l: seq<Entry>, code: int): seq<Entry>
  {
    if code == NO_ERROR then []
    else if FirstIndex(l, code) < |l| then l[..FirstIndex(l, code)] + l[FirstIndex(l, code) + 1..] else l
  }

  function EntryTold(l: seq<Entry>, i: nat): Told
  {
    if i < |l| then Earlier(l[i].code, l[i].id) else Earlier(NO_ERROR, 0)
  }

  /** After a single entry the code and id are read off the node that the walk kept, which is the one before it. */
  function ToldByClear(l: seq<Entry>, code: int): Told
  {
    var k := if code == NO_ERROR then |l| else FirstIndex(l, code);
    if code != NO_ERROR && k == |l| then EntryTold([], 0)
    else EntryTold(l, if k == 0 then 0 else k - 1)
  }

  /** A clear for a module that does not exist has no effect at all. */
  function Clear(s: State, mid: int, tag: int, code: int): State
  {
    if !(0 <= mid < MODULES) then s
    else
      var lists := s.lists[mid := Remaining(s.lists[mid], code)];
      var enabled := !AnyCritical(lists);
      State(lists, s.session, Retire(s.outstanding, Removed(s.lists[mid], code)), enabled, s.mibAccess || enabled,
            s.lastError[tag := LastCode(lists[mid])], s.nextId + 1,
            s.reports + [Report(s.nextId, mid, NO_ERROR, Info, ToldByClear(s.lists[mid], code))])
  }

  // ----- messages and runs -----

  datatype Message =
    | RaiseAlarm(mid: int, tag: int, code: int, now: int)
    | ClearAlarm(mid: int, tag: int, code: int)
    | Quit
    | Unknown

  /** What the senders must respect: raises name an existing module and a real error. */
  predicate WellFormed(m: Message)
  {
    m.RaiseAlarm? ==> 0 <= m.mid < MODULES && m.code != NO_ERROR
  }

  function Step(s: State, m: Message): State
    requires WellFormed(m)
  {
    match m
    case RaiseAlarm(mid, tag, code, now) => Raise(s, mid, tag, code, now)
    case ClearAlarm(mid, tag, code) => Clear(s, mid, tag, code)
    case Quit => s
    case Unknown => s
  }

  predicate AllWellFormed(ms: seq<Message>)
  {
    forall i :: 0 <= i < |ms| ==> WellFormed(ms[i])
  }

  function Run(s: State, ms: seq<Message>): State
    requires AllWellFormed(ms)
  {
    if ms == [] then s else Step(Run(s, ms[..|ms| - 1]), ms[|ms| - 1])
  }
}
