/**
 What holds of the alarm manager after any run of raise and clear messages:
 lists without duplicates, conserved statistics, a safe operational state and
 the right last error for every module.
 */
module AlarmSafety {
  import opened AlarmModel

  // ----- the invariant of a single list -----

  /** Real codes, no code twice, ids in the order of the list and all handed out already. */
  predicate ListOk(l: seq<Entry>, nextId: nat)
  {
    && (forall i :: 0 <= i < |l| ==>
         l[i].code != NO_ERROR && l[i].severity == SeverityOf(l[i].code) && l[i].id < nextId)
    && (forall i, j :: 0 <= i < j < |l| ==> l[i].code != l[j].code && l[i].id < l[j].id)
  }

  predicate Inv(s: State)
  {
    && Total(s.lists) <= POOL
    && forall m :: 0 <= m < MODULES ==> ListOk(s.lists[m], s.nextId)
  }

  lemma ListOkLater(l: seq<Entry>, id: nat, later: nat)
    requires ListOk(l, id) && id <= later
    ensures ListOk(l, later)
  {
  }

  lemma RemainingOk(l: seq<Entry>, code: int, nextId: nat)
    requires ListOk(l, nextId)
    ensures ListOk(Remaining(l, code), nextId)
    ensures |Remaining(l, code)| <= |l|
  {
    hide SeverityOf, FirstIndex;
  }

  /** A clear removes exactly the named entry (or all of them) and keeps the order of the rest. */
  function Without(l: seq<Entry>, code: int): (r: seq<Entry>)
    ensures forall e :: e in r <==> e in l && e.code != code
  {
    if l == [] then []
    else if l[0].code == code then Without(l[1..], code)
    else [l[0]] + Without(l[1..], code)
  }

  lemma {:induction false} WithoutNothing(l: seq<Entry>, code: int)
    requires forall i :: 0 <= i < |l| ==> l[i].code != code
    ensures Without(l, code) == l
  {
    if l != [] {
      WithoutNothing(l[1..], code);
    }
  }

  lemma {:induction false} WithoutConcat(a: seq<Entry>, b: seq<Entry>, code: int)
    ensures Without(a + b, code) == Without(a, code) + Without(b, code)
  {
    if a == [] {
      assert a + b == b;
    } else {
      assert (a + b)[1..] == a[1..] + b;
      WithoutConcat(a[1..], b, code);
    }
  }

  lemma ClearRemovesExactly(l: seq<Entry>, code: int, nextId: nat)
    requires ListOk(l, nextId) && code != NO_ERROR
    ensures Remaining(l, code) == Without(l, code)
    ensures Remaining(l, NO_ERROR) == []
  {
    hide SeverityOf, FirstIndex, Without, ListOk;
    var k := FirstIndex(l, code);
    if k == |l| {
      WithoutNothing(l, code);
    } else {
      var before, after := l[..k], l[k + 1..];
      assert l == before + ([l[k]] + after);
      WithoutConcat(before, [l[k]] + after, code);
      WithoutConcat([l[k]], after, code);
      WithoutOne(l[k]);
      NoneBehind(l, k, nextId, after);
      WithoutNothing(before, code);
      WithoutNothing(after, code);
      assert before + ([] + after) == before + after;
    }
  }

  lemma NoneBehind(l: seq<Entry>, k: nat, nextId: nat, after: seq<Entry>)
    requires ListOk(l, nextId) && k < |l| && after == l[k + 1..]
    ensures forall i :: 0 <= i < |after| ==> after[i].code != l[k].code
  {
  }

  lemma WithoutOne(e: Entry)
    ensures Without([e], e.code) == []
  {
  }

  // ----- sizes -----

  lemma {:induction false} TotalUpdate(ls: seq<seq<Entry>>, m: nat, l: seq<Entry>)
    requires m < |ls|
    ensures Total(ls[m := l]) == Total(ls) - |ls[m]| + |l|
  {
    if m > 0 {
      assert ls[m := l][1..] == ls[1..][m - 1 := l];
      TotalUpdate(ls[1..], m - 1, l);
    } else {
      assert ls[m := l][1..] == ls[1..];
    }
  }

  lemma {:induction false} TotalOfEmpty(n: nat)
    ensures Total(seq(n, i => [])) == 0
  {
    if n > 0 {
      assert seq(n, i => [])[1..] == seq<seq<Entry>>(n - 1, i => []);
      TotalOfEmpty(n - 1);
    }
  }

  lemma InitialInv(enabled: bool, mibAccess: bool, firstId: nat)
    ensures Inv(Initial(enabled, mibAccess, firstId))
  {
    TotalOfEmpty(MODULES);
  }

  lemma RepeatedInv(s: State, mid: nat, k: nat)
    requires Inv(s) && mid < MODULES && k < |s.lists[mid]|
    ensures Inv(Repeated(s, mid, k))
  {
    hide SeverityOf, Total;
    var l := s.lists[mid];
    var l' := l[k := l[k].(count := l[k].count + 1)];
    assert ListOk(l, s.nextId);
    assert ListOk(l', s.nextId);
    TotalUpdate(s.lists, mid, l');
  }

  lemma RaisedInv(s: State, mid: nat, tag: int, code: int, now: int)
    requires Inv(s) && mid < MODULES && code != NO_ERROR && FirstIndex(s.lists[mid], code) == |s.lists[mid]|
    ensures Inv(Raised(s, mid, tag, code, now))
  {
    hide SeverityOf, Total, FirstIndex;
    var l := s.lists[mid] + [Entry(code, s.nextId, SeverityOf(code), now, 1)];
    TotalUpdate(s.lists, mid, l);
    assert ListOk(s.lists[mid], s.nextId);
    assert ListOk(l, s.nextId + 1);
    forall m | 0 <= m < MODULES ensures ListOk(s.lists[m], s.nextId + 1) {
      ListOkLater(s.lists[m], s.nextId, s.nextId + 1);
    }
  }

  lemma ClearInv(s: State, mid: int, tag: int, code: int)
    requires Inv(s)
    ensures Inv(Clear(s, mid, tag, code))
  {
    hide SeverityOf, Total, FirstIndex, Retire, Remaining, ListOk, AnyCritical;
    if 0 <= mid < MODULES {
      RemainingOk(s.lists[mid], code, s.nextId);
      TotalUpdate(s.lists, mid, Remaining(s.lists[mid], code));
      ListOkLater(Remaining(s.lists[mid], code), s.nextId, s.nextId + 1);
      forall m | 0 <= m < MODULES ensures ListOk(s.lists[m], s.nextId + 1) {
        ListOkLater(s.lists[m], s.nextId, s.nextId + 1);
      }
    }
  }

  lemma StepInv(s: State, m: Message)
    requires Inv(s) && WellFormed(m)
    ensures Inv(Step(s, m))
  {
    hide Inv, Repeated, Raised, Clear;
    match m
    case RaiseAlarm(mid, tag, code, now) =>
      if FirstIndex(s.lists[mid], code) < |s.lists[mid]| {
        RepeatedInv(s, mid, FirstIndex(s.lists[mid], code));
      } else {
        RaisedInv(s, mid, tag, code, now);
      }
    case ClearAlarm(mid, tag, code) => ClearInv(s, mid, tag, code);
    case Quit =>
    case Unknown =>
  }

  /** No list ever holds a code twice, whatever was raised and cleared. */
  lemma {:induction false} RunInv(s: State, ms: seq<Message>)
    requires Inv(s) && AllWellFormed(ms)
    ensures Inv(Run(s, ms))
  {
    hide Inv, Step;
    if ms != [] {
      RunInv(s, ms[..|ms| - 1]);
      StepInv(Run(s, ms[..|ms| - 1]), ms[|ms| - 1]);
    }
  }

  // ----- statistics -----

  function Having(l: seq<Entry>, v: Severity): nat
  {
    if l == [] then 0 else Having(l[..|l| - 1], v) + if l[|l| - 1].severity == v then 1 else 0
  }

  function Linked(ls: seq<seq<Entry>>, v: Severity): nat
  {
    if ls == [] then 0 else Having(ls[0], v) + Linked(ls[1..], v)
  }

  /** A run with two counts the program does not keep: raises lost to a full pool, entries cleared. */
  datatype History = History(state: State, dropped: Tally, cleared: Tally)

  predicate Drops(s: State, m: Message)
    requires WellFormed(m)
  {
    m.RaiseAlarm? && FirstIndex(s.lists[m.mid], m.code) == |s.lists[m.mid]| && Total(s.lists) >= POOL
  }

  function ClearedBy(s: State, m: Message): seq<Entry>
  {
    if m.ClearAlarm? && 0 <= m.mid < MODULES then Removed(s.lists[m.mid], m.code) else []
  }

  function Bank(t: Tally, removed: seq<Entry>): Tally
  {
    if removed == [] then t
    else Count(Bank(t, removed[..|removed| - 1]), SeverityOf(removed[|removed| - 1].code), 1)
  }

  function StepHistory(h: History, m: Message): History
    requires WellFormed(m)
  {
    History(Step(h.state, m),
            if Drops(h.state, m) then Count(h.dropped, SeverityOf(m.code), 1) else h.dropped,
            Bank(h.cleared, ClearedBy(h.state, m)))
  }

  function RunHistory(h: History, ms: seq<Message>): History
    requires AllWellFormed(ms)
  {
    if ms == [] then h else StepHistory(RunHistory(h, ms[..|ms| - 1]), ms[|ms| - 1])
  }

  lemma {:induction false} HistoryFollowsRun(h: History, ms: seq<Message>)
    requires AllWellFormed(ms)
    ensures RunHistory(h, ms).state == Run(h.state, ms)
  {
    hide Step;
    if ms != [] {
      HistoryFollowsRun(h, ms[..|ms| - 1]);
    }
  }

  predicate Conserved(h: History)
  {
    forall v :: && h.state.outstanding[Rank(v)] == Linked(h.state.lists, v) + h.dropped[Rank(v)]
                && h.state.session[Rank(v)] == h.state.outstanding[Rank(v)] + h.cleared[Rank(v)]
                && h.dropped[Rank(v)] >= 0 && h.cleared[Rank(v)] >= 0
  }

  lemma {:induction false} HavingConcat(a: seq<Entry>, b: seq<Entry>, v: Severity)
    ensures Having(a + b, v) == Having(a, v) + Having(b, v)
  {
    if b == [] {
      assert a + b == a;
    } else {
      assert (a + b)[..|a + b| - 1] == a + b[..|b| - 1];
      HavingConcat(a, b[..|b| - 1], v);
    }
  }

  lemma {:induction false} LinkedUpdate(ls: seq<seq<Entry>>, m: nat, l: seq<Entry>, v: Severity)
    requires m < |ls|
    ensures Linked(ls[m := l], v) == Linked(ls, v) - Having(ls[m], v) + Having(l, v)
  {
    if m > 0 {
      assert ls[m := l][1..] == ls[1..][m - 1 := l];
      LinkedUpdate(ls[1..], m - 1, l, v);
    } else {
      assert ls[m := l][1..] == ls[1..];
    }
  }

  lemma HavingOne(e: Entry, v: Severity)
    ensures Having([e], v) == if e.severity == v then 1 else 0
  {
    assert [e][..0] == [];
  }

  lemma HavingSplit(l: seq<Entry>, code: int, v: Severity)
    ensures Having(l, v) == Having(Remaining(l, code), v) + Having(Removed(l, code), v)
  {
    hide Having, FirstIndex;
    var k := FirstIndex(l, code);
    if code == NO_ERROR || k == |l| {
      HavingConcat(l, [], v);
      assert l + [] == l;
    } else {
      assert l == l[..k] + ([l[k]] + l[k + 1..]);
      HavingConcat(l[..k], [l[k]] + l[k + 1..], v);
      HavingConcat([l[k]], l[k + 1..], v);
      HavingConcat(l[..k], l[k + 1..], v);
    }
  }

  predicate SeveritiesOk(l: seq<Entry>)
  {
    forall i :: 0 <= i < |l| ==> l[i].severity == SeverityOf(l[i].code)
  }

  lemma {:induction false} RetireCounts(t: Tally, removed: seq<Entry>, v: Severity)
    requires SeveritiesOk(removed)
    ensures Retire(t, removed)[Rank(v)] == t[Rank(v)] - Having(removed, v)
  {
    hide SeverityOf, Rank;
    if removed != [] {
      RetireCounts(t, removed[..|removed| - 1], v);
      RankInjective(v, SeverityOf(removed[|removed| - 1].code));
    }
  }

  lemma {:induction false} BankCounts(t: Tally, removed: seq<Entry>, v: Severity)
    requires SeveritiesOk(removed)
    ensures Bank(t, removed)[Rank(v)] == t[Rank(v)] + Having(removed, v)
  {
    hide SeverityOf, Rank;
    if removed != [] {
      BankCounts(t, removed[..|removed| - 1], v);
      RankInjective(v, SeverityOf(removed[|removed| - 1].code));
    }
  }

  lemma RankInjective(v: Severity, w: Severity)
    ensures Rank(v) == Rank(w) <==> v == w
  {
  }

  lemma RepeatedConserves(h: History, mid: nat, k: nat, v: Severity)
    requires Conserved(h) && mid < MODULES && k < |h.state.lists[mid]|
    ensures Linked(Repeated(h.state, mid, k).lists, v) == Linked(h.state.lists, v)
  {
    hide Having, Linked;
    var l := h.state.lists[mid];
    var e := l[k].(count := l[k].count + 1);
    LinkedUpdate(h.state.lists, mid, l[k := e], v);
    assert l == l[..k] + ([l[k]] + l[k + 1..]) && l[k := e] == l[..k] + ([e] + l[k + 1..]);
    HavingConcat(l[..k], [l[k]] + l[k + 1..], v);
    HavingConcat([l[k]], l[k + 1..], v);
    HavingConcat(l[..k], [e] + l[k + 1..], v);
    HavingConcat([e], l[k + 1..], v);
    HavingOne(l[k], v);
    HavingOne(e, v);
  }

  lemma RaisedConserves(s: State, mid: nat, tag: int, code: int, now: int, v: Severity)
    requires mid < MODULES
    ensures Linked(Raised(s, mid, tag, code, now).lists, v)
         == Linked(s.lists, v) + if Total(s.lists) < POOL && SeverityOf(code) == v then 1 else 0
  {
    hide Having, Linked, Total, SeverityOf;
    var e := Entry(code, s.nextId, SeverityOf(code), now, 1);
    LinkedUpdate(s.lists, mid, s.lists[mid] + [e], v);
    HavingConcat(s.lists[mid], [e], v);
    HavingOne(e, v);
  }

  lemma ClearConserves(s: State, mid: nat, tag: int, code: int, cleared: Tally, v: Severity)
    requires Inv(s) && mid < MODULES
    ensures var n := Having(Removed(s.lists[mid], code), v);
            && Linked(Clear(s, mid, tag, code).lists, v) == Linked(s.lists, v) - n
            && Clear(s, mid, tag, code).outstanding[Rank(v)] == s.outstanding[Rank(v)] - n
            && Bank(cleared, Removed(s.lists[mid], code))[Rank(v)] == cleared[Rank(v)] + n
  {
    hide Having, Linked, Total, SeverityOf, Retire, Bank, FirstIndex, Rank, AnyCritical;
    var l := s.lists[mid];
    LinkedUpdate(s.lists, mid, Remaining(l, code), v);
    HavingSplit(l, code, v);
    assert ListOk(l, s.nextId);
    RetireCounts(s.outstanding, Removed(l, code), v);
    BankCounts(cleared, Removed(l, code), v);
  }

  lemma NothingBanked(t: Tally)
    ensures Bank(t, []) == t
  {
  }

  lemma StepConserves(h: History, m: Message)
    requires Conserved(h) && Inv(h.state) && WellFormed(m)
    ensures Conserved(StepHistory(h, m))
  {
    hide Linked, Total, SeverityOf, Retire, Bank, FirstIndex, Rank, AnyCritical, Inv, Remaining, Removed, Having;
    var h' := StepHistory(h, m);
    NothingBanked(h.cleared);
    forall v ensures && h'.state.outstanding[Rank(v)] == Linked(h'.state.lists, v) + h'.dropped[Rank(v)]
                     && h'.state.session[Rank(v)] == h'.state.outstanding[Rank(v)] + h'.cleared[Rank(v)]
                     && h'.dropped[Rank(v)] >= 0 && h'.cleared[Rank(v)] >= 0
    {
      match m
      case RaiseAlarm(mid, tag, code, now) =>
        RankInjective(v, SeverityOf(code));
        if FirstIndex(h.state.lists[mid], code) < |h.state.lists[mid]| {
          RepeatedConserves(h, mid, FirstIndex(h.state.lists[mid], code), v);
        } else {
          RaisedConserves(h.state, mid, tag, code, now, v);
        }
      case ClearAlarm(mid, tag, code) =>
        if 0 <= mid < MODULES {
          ClearConserves(h.state, mid, tag, code, h.cleared, v);
        }
      case Quit =>
      case Unknown =>
    }
  }

  lemma {:induction false} LinkedOfEmpty(n: nat, v: Severity)
    ensures Linked(seq(n, i => []), v) == 0
  {
    if n > 0 {
      assert seq(n, i => [])[1..] == seq<seq<Entry>>(n - 1, i => []);
      LinkedOfEmpty(n - 1, v);
    }
  }

  function Start(enabled: bool, mibAccess: bool, firstId: nat): History
  {
    History(Initial(enabled, mibAccess, firstId), ZERO, ZERO)
  }

  /**
   For every severity, at every point of every run: the outstanding counter is
   the number of linked entries plus the raises lost to a full pool, and the
   session counter is that plus the entries cleared.
   */
  lemma {:induction false} StatisticsConserved(enabled: bool, mibAccess: bool, firstId: nat, ms: seq<Message>)
    requires AllWellFormed(ms)
    ensures var h := RunHistory(Start(enabled, mibAccess, firstId), ms);
            Inv(h.state) && Conserved(h)
  {
    hide Inv, StepHistory;
    var start := Start(enabled, mibAccess, firstId);
    if ms == [] {
      InitialInv(enabled, mibAccess, firstId);
      forall v ensures Linked(start.state.lists, v) == 0 { LinkedOfEmpty(MODULES, v); }
    } else {
      var init := ms[..|ms| - 1];
      StatisticsConserved(enabled, mibAccess, firstId, init);
      StepConserves(RunHistory(start, init), ms[|ms| - 1]);
      HistoryFollowsRun(start, init);
      HistoryFollowsRun(start, ms);
      StepInv(RunHistory(start, init).state, ms[|ms| - 1]);
    }
  }

  lemma {:induction false} HavingBound(l: seq<Entry>, v: Severity)
    ensures Having(l, v) <= |l|
  {
    if l != [] {
      HavingBound(l[..|l| - 1], v);
    }
  }

  lemma {:induction false} LinkedBound(ls: seq<seq<Entry>>, v: Severity)
    ensures Linked(ls, v) <= Total(ls)
  {
    if ls != [] {
      HavingBound(ls[0], v);
      LinkedBound(ls[1..], v);
    }
  }

  /**
   The summary counts are one octet wide.  They are exact precisely when the
   number of dropped raises is a multiple of 256, in particular with none.
   */
  lemma SummaryCountExactIff(h: History, v: Severity)
    requires Conserved(h) && Inv(h.state)
    ensures h.state.outstanding[Rank(v)] % 256 == Linked(h.state.lists, v) <==> h.dropped[Rank(v)] % 256 == 0
  {
    LinkedBound(h.state.lists, v);
  }

  // ----- operational state -----

  /** A linked critical alarm keeps the network element disabled. */
  predicate Safe(s: State)
  {
    AnyCritical(s.lists) ==> !s.enabled
  }

  lemma CriticalElsewhere(ls: Lists, ls': Lists, mid: nat)
    requires mid < MODULES && (forall m :: 0 <= m < MODULES && m != mid ==> ls'[m] == ls[m])
    requires HasCritical(ls'[mid]) ==> HasCritical(ls[mid])
    ensures AnyCritical(ls') ==> AnyCritical(ls)
  {
    if AnyCritical(ls') {
      var m :| 0 <= m < MODULES && HasCritical(ls'[m]);
      assert HasCritical(ls[m]);
    }
  }

  /** A clear that is handled: its module exists. */
  predicate NamesModule(m: Message)
  {
    m.ClearAlarm? && 0 <= m.mid < MODULES
  }

  lemma StepSafe(s: State, m: Message)
    requires Safe(s) && WellFormed(m)
    ensures Safe(Step(s, m))
    ensures NamesModule(m) ==> (Step(s, m).enabled <==> !AnyCritical(Step(s, m).lists))
  {
    hide Total, SeverityOf, Retire, FirstIndex, Remaining, AnyCritical;
    if m.RaiseAlarm? {
      var l, code := s.lists[m.mid], m.code;
      if FirstIndex(l, code) < |l| {
        CriticalElsewhere(s.lists, Step(s, m).lists, m.mid);
      } else if SeverityOf(code) != Critical {
        CriticalElsewhere(s.lists, Step(s, m).lists, m.mid);
      }
    }
  }

  /** Safety over whole runs, and exactness right after every clear that names a module. */
  lemma {:induction false} OperationalStateSafe(s: State, ms: seq<Message>)
    requires Safe(s) && AllWellFormed(ms)
    ensures Safe(Run(s, ms))
    ensures ms != [] && NamesModule(ms[|ms| - 1]) ==> (Run(s, ms).enabled <==> !AnyCritical(Run(s, ms).lists))
  {
    hide Step, Safe, AnyCritical;
    if ms != [] {
      OperationalStateSafe(s, ms[..|ms| - 1]);
      StepSafe(Run(s, ms[..|ms| - 1]), ms[|ms| - 1]);
    }
  }

  lemma HasCriticalInFront(l: seq<Entry>)
    requires l != []
    ensures HasCritical(l) <==> HasCritical(l[..|l| - 1]) || l[|l| - 1].severity == Critical
  {
    var init := l[..|l| - 1];
    if HasCritical(l) {
      var i :| 0 <= i < |l| && l[i].severity == Critical;
      if i < |init| {
        assert init[i].severity == Critical;
      }
    }
    if HasCritical(init) {
      var i :| 0 <= i < |init| && init[i].severity == Critical;
      assert l[i].severity == Critical;
    }
  }

  lemma {:induction false} HavingCritical(l: seq<Entry>)
    ensures Having(l, Critical) > 0 <==> HasCritical(l)
  {
    if l != [] {
      HavingCritical(l[..|l| - 1]);
      HasCriticalInFront(l);
    }
  }

  lemma {:induction false} LinkedCritical(ls: seq<seq<Entry>>)
    ensures Linked(ls, Critical) > 0 <==> exists m :: 0 <= m < |ls| && HasCritical(ls[m])
  {
    hide HasCritical, Having;
    if ls != [] {
      HavingCritical(ls[0]);
      LinkedCritical(ls[1..]);
      if Linked(ls[1..], Critical) > 0 {
        var m :| 0 <= m < |ls[1..]| && HasCritical(ls[1..][m]);
        assert HasCritical(ls[m + 1]);
      }
      if m :| 0 < m < |ls| && HasCritical(ls[m]) {
        assert HasCritical(ls[1..][m - 1]);
      }
    }
  }

  /**
   In any run: an enabled network element has no critical alarm outstanding
   other than those a full pool dropped, and right after a clear that names a
   module it is enabled exactly when every outstanding one is a dropped one.
   (So one clear re-enables the element although a dropped critical alarm was
   never cleared.)
   */
  lemma EnabledMeansOnlyDroppedCriticals(enabled: bool, mibAccess: bool, firstId: nat, ms: seq<Message>)
    requires AllWellFormed(ms)
    ensures var h := RunHistory(Start(enabled, mibAccess, firstId), ms);
            var lost := h.dropped[Rank(Critical)];
            && (h.state.enabled ==> h.state.outstanding[Rank(Critical)] == lost)
            && (ms != [] && NamesModule(ms[|ms| - 1])
                ==> (h.state.enabled <==> h.state.outstanding[Rank(Critical)] == lost))
  {
    hide Linked, HasCritical, Run, RunHistory, Rank, Inv, StepHistory;
    var start := Start(enabled, mibAccess, firstId);
    StatisticsConserved(enabled, mibAccess, firstId, ms);
    HistoryFollowsRun(start, ms);
    NoCriticalAtStart(enabled, mibAccess, firstId);
    OperationalStateSafe(start.state, ms);
    LinkedCritical(RunHistory(start, ms).state.lists);
  }

  lemma NoCriticalAtStart(enabled: bool, mibAccess: bool, firstId: nat)
    ensures Safe(Initial(enabled, mibAccess, firstId))
  {
  }

  /** "A critical alarm is outstanding" implies "disabled", by the counters. */
  predicate CriticalMeansDisabled(s: State)
  {
    s.outstanding[Rank(Critical)] > 0 ==> !s.enabled
  }

  /**
   When the counters keep that promise: right after a clear that names a module,
   exactly if no critical raise was dropped so far or another critical alarm is
   still linked.
   */
  lemma CriticalMeansDisabledIff(enabled: bool, mibAccess: bool, firstId: nat, ms: seq<Message>)
    requires AllWellFormed(ms) && ms != [] && NamesModule(ms[|ms| - 1])
    ensures var h := RunHistory(Start(enabled, mibAccess, firstId), ms);
            CriticalMeansDisabled(h.state) <==> h.dropped[Rank(Critical)] == 0 || AnyCritical(h.state.lists)
  {
    hide Linked, HasCritical, Run, RunHistory, Rank, Inv, StepHistory, AnyCritical;
    var start := Start(enabled, mibAccess, firstId);
    EnabledMeansOnlyDroppedCriticals(enabled, mibAccess, firstId, ms);
    StatisticsConserved(enabled, mibAccess, firstId, ms);
    HistoryFollowsRun(start, ms);
    NoCriticalAtStart(enabled, mibAccess, firstId);
    OperationalStateSafe(start.state, ms);
  }

  predicate DropsCritical(s: State, m: Message)
    requires WellFormed(m)
  {
    Drops(s, m) && SeverityOf(m.code) == Critical
  }

  /** No critical raise meets a full pool. */
  predicate NoCriticalDrop(s: State, ms: seq<Message>)
    requires AllWellFormed(ms)
  {
    forall i :: 0 <= i < |ms| ==> !DropsCritical(Run(s, ms[..i]), ms[i])
  }

  lemma {:induction false} NoneDropped(h: History, ms: seq<Message>)
    requires AllWellFormed(ms) && NoCriticalDrop(h.state, ms) && h.dropped[Rank(Critical)] == 0
    ensures RunHistory(h, ms).dropped[Rank(Critical)] == 0
  {
    hide Drops, Run, SeverityOf, Step;
    if ms != [] {
      var init := ms[..|ms| - 1];
      forall i | 0 <= i < |init| ensures !DropsCritical(Run(h.state, init[..i]), init[i]) {
        assert init[..i] == ms[..i] && init[i] == ms[i];
      }
      NoneDropped(h, init);
      HistoryFollowsRun(h, init);
      assert !DropsCritical(Run(h.state, ms[..|init|]), ms[|init|]);
    }
  }

  /** Every run in which no critical raise meets a full pool keeps the promise at every point. */
  lemma CriticalMeansDisabledUnlessDropped(enabled: bool, mibAccess: bool, firstId: nat, ms: seq<Message>)
    requires AllWellFormed(ms) && NoCriticalDrop(Initial(enabled, mibAccess, firstId), ms)
    ensures CriticalMeansDisabled(Run(Initial(enabled, mibAccess, firstId), ms))
  {
    hide Run, RunHistory, NoCriticalDrop;
    var start := Start(enabled, mibAccess, firstId);
    NoneDropped(start, ms);
    EnabledMeansOnlyDroppedCriticals(enabled, mibAccess, firstId, ms);
    HistoryFollowsRun(start, ms);
  }

  /** Informational alarms of module 0, all different. */
  function Filling(n: nat): (r: seq<Message>)
    ensures |r| == n && AllWellFormed(r)
  {
    seq(n, i => RaiseAlarm(0, 0, INFO_START + i, 0))
  }

  /** `n` of them in an otherwise empty pool. */
  ghost predicate Filled(h: History, n: nat)
  {
    var l := h.state.lists[0];
    && |l| == n && (forall k :: 0 <= k < n ==> l[k].code == INFO_START + k && l[k].severity == Info)
    && (forall m :: 0 < m < MODULES ==> h.state.lists[m] == [])
    && Total(h.state.lists) == n
    && h.state.outstanding[Rank(Critical)] == 0 && h.dropped[Rank(Critical)] == 0
  }

  lemma {:induction false} FillingFills(enabled: bool, mibAccess: bool, firstId: nat, n: nat)
    requires n <= POOL
    ensures Filled(RunHistory(Start(enabled, mibAccess, firstId), Filling(n)), n)
  {
    hide Total, RunHistory, FirstIndex;
    var start := Start(enabled, mibAccess, firstId);
    if n == 0 {
      TotalOfEmpty(MODULES);
      assert RunHistory(start, []) == start by { HistoryOfNothing(start); }
    } else {
      var before, m := RunHistory(start, Filling(n - 1)), RaiseAlarm(0, 0, INFO_START + n - 1, 0);
      FillingFills(enabled, mibAccess, firstId, n - 1);
      assert Filling(n) == Filling(n - 1) + [m];
      HistorySnoc(start, Filling(n - 1), m);
      TotalUpdate(before.state.lists, 0, before.state.lists[0] + [Entry(m.code, before.state.nextId, Info, 0, 1)]);
    }
  }

  lemma HistoryOfNothing(h: History)
    ensures RunHistory(h, []) == h
  {
  }

  lemma HistorySnoc(h: History, ms: seq<Message>, m: Message)
    requires AllWellFormed(ms) && WellFormed(m)
    ensures AllWellFormed(ms + [m]) && RunHistory(h, ms + [m]) == StepHistory(RunHistory(h, ms), m)
  {
    hide StepHistory;
    assert (ms + [m])[..|ms|] == ms;
  }

  /**
   The promise can be broken: fifty informational alarms fill the pool, a
   critical alarm is dropped, and a clear for another module enables the element.
   */
  lemma DroppedCriticalForgotten(enabled: bool, mibAccess: bool, firstId: nat)
    ensures var ms := Filling(POOL) + [RaiseAlarm(0, 0, CRITICAL_START, 0)] + [ClearAlarm(1, 0, CRITICAL_START)];
            && AllWellFormed(ms)
            && var s := Run(Initial(enabled, mibAccess, firstId), ms);
               s.enabled && s.outstanding[Rank(Critical)] == 1 && !CriticalMeansDisabled(s)
  {
    hide Total, RunHistory, FirstIndex, Filling;
    var start, full := Start(enabled, mibAccess, firstId), Filling(POOL);
    var raise, clear := RaiseAlarm(0, 0, CRITICAL_START, 0), ClearAlarm(1, 0, CRITICAL_START);
    FillingFills(enabled, mibAccess, firstId, POOL);
    HistorySnoc(start, full, raise);
    HistorySnoc(start, full + [raise], clear);
    var h0, h1 := RunHistory(start, full), RunHistory(start, full + [raise]);
    assert h1.state.lists == h0.state.lists;
    assert !AnyCritical(h1.state.lists);
    assert h1.state.lists[1 := []] == h1.state.lists;
    HistoryFollowsRun(start, full + [raise] + [clear]);
  }

  // ----- last error per module -----

  predicate TagsFollow(ms: seq<Message>, tagOf: seq<int>)
    requires |tagOf| == MODULES
  {
    forall i :: 0 <= i < |ms| ==> match ms[i]
      case RaiseAlarm(mid, tag, _, _) => 0 <= mid < MODULES ==> tag == tagOf[mid]
      case ClearAlarm(mid, tag, _) => 0 <= mid < MODULES ==> tag == tagOf[mid]
      case _ => true
  }

  predicate DistinctTags(tagOf: seq<int>)
  {
    forall i, j :: 0 <= i < j < |tagOf| ==> tagOf[i] != tagOf[j]
  }

  function StoredError(s: State, tag: int): int
  {
    if tag in s.lastError then s.lastError[tag] else NO_ERROR
  }

  /** The entry raised last has the largest id of its list. */
  predicate IsNewest(l: seq<Entry>, e: Entry)
  {
    e in l && forall o :: o in l ==> o.id <= e.id
  }

  lemma NewestIsLast(l: seq<Entry>, nextId: nat)
    requires ListOk(l, nextId) && l != []
    ensures IsNewest(l, l[|l| - 1])
    ensures forall e :: IsNewest(l, e) ==> e == l[|l| - 1]
  {
    hide SeverityOf;
  }

  predicate LastErrors(s: State, tagOf: seq<int>)
    requires |tagOf| == MODULES
  {
    forall m :: 0 <= m < MODULES ==> StoredError(s, tagOf[m]) == LastCode(s.lists[m])
  }

  lemma StepLastErrors(s: State, m: Message, tagOf: seq<int>)
    requires |tagOf| == MODULES && DistinctTags(tagOf) && TagsFollow([m], tagOf)
    requires WellFormed(m) && LastErrors(s, tagOf)
    ensures LastErrors(Step(s, m), tagOf)
  {
    hide Total, SeverityOf, Retire, FirstIndex, Remaining, AnyCritical;
    assert [m][0] == m;
    var s' := Step(s, m);
    forall k | 0 <= k < MODULES ensures StoredError(s', tagOf[k]) == LastCode(s'.lists[k]) {
      match m
      case RaiseAlarm(mid, tag, code, now) =>
        assert k < mid || k == mid || mid < k;
      case ClearAlarm(mid, tag, code) =>
        if 0 <= mid < MODULES {
          assert k < mid || k == mid || mid < k;
        }
      case _ =>
    }
  }

  lemma {:induction false} RunLastErrors(s: State, ms: seq<Message>, tagOf: seq<int>)
    requires |tagOf| == MODULES && DistinctTags(tagOf) && TagsFollow(ms, tagOf) && AllWellFormed(ms)
    requires LastErrors(s, tagOf)
    ensures LastErrors(Run(s, ms), tagOf)
  {
    hide Step, LastErrors;
    if ms != [] {
      var m := ms[|ms| - 1];
      assert TagsFollow([m], tagOf);
      RunLastErrors(s, ms[..|ms| - 1], tagOf);
      StepLastErrors(Run(s, ms[..|ms| - 1]), m, tagOf);
    }
  }

  /**
   With one tag per module, after any run from the start: a module without
   outstanding alarms has "no error" stored, and any other module has the code
   of the alarm that was raised last among those still outstanding.
   */
  lemma LastErrorIsNewest(enabled: bool, mibAccess: bool, firstId: nat, ms: seq<Message>, tagOf: seq<int>, mid: nat)
    requires |tagOf| == MODULES && DistinctTags(tagOf) && TagsFollow(ms, tagOf) && AllWellFormed(ms) && mid < MODULES
    ensures var s := Run(Initial(enabled, mibAccess, firstId), ms);
            var l := s.lists[mid];
            && (StoredError(s, tagOf[mid]) == NO_ERROR <==> l == [])
            && (forall e :: IsNewest(l, e) ==> StoredError(s, tagOf[mid]) == e.code)
            && (l != [] ==> exists e :: IsNewest(l, e))
  {
    hide Run, IsNewest;
    var s0 := Initial(enabled, mibAccess, firstId);
    InitialInv(enabled, mibAccess, firstId);
    RunInv(s0, ms);
    RunLastErrors(s0, ms, tagOf);
    var s := Run(s0, ms);
    assert ListOk(s.lists[mid], s.nextId);
    if s.lists[mid] != [] {
      NewestIsLast(s.lists[mid], s.nextId);
    } else {
      NothingNewest();
    }
  }

  lemma NothingNewest()
    ensures forall e :: !IsNewest([], e)
  {
  }
}
