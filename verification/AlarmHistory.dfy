/**
 The alarm manager against the messages it got: statistics by ranges of codes,
 what is listed and since when, which reports were made, and why the network
 element is enabled.  Everything is said in terms of codes and messages.
 */
module AlarmHistory {
  import opened AlarmModel
  import opened AlarmSafety

  // ----- codes and counters -----

  /** The codes that are counted at index `k`: critical, major, minor and informational ones. */
  predicate InRange(k: nat, code: int)
  {
    var low := code % 0x1_0000;
    if k == 0 then 0x0001 <= low < 0x0100
    else if k == 1 then 0x0100 <= low < 0x0800
    else if k == 2 then 0x0800 <= low < 0x1000
    else k == 3 && (low == 0x0000 || 0x1000 <= low)
  }

  predicate Shown(v: Severity, code: int)
  {
    match v
    case Critical => InRange(0, code)
    case Major => InRange(1, code)
    case Minor => InRange(2, code)
    case Info => InRange(3, code)
  }

  lemma SeverityIsRange(code: int, v: Severity, k: nat)
    requires Rank(v) == k
    ensures SeverityOf(code) == v <==> InRange(k, code)
    ensures Shown(SeverityOf(code), code)
  {
  }

  function SeverityAt(k: nat): (v: Severity)
    requires k < 4
    ensures Rank(v) == k
  {
    if k == 0 then Critical else if k == 1 then Major else if k == 2 then Minor else Info
  }

  function CodesIn(l: seq<Entry>, k: nat): nat
  {
    if l == [] then 0 else CodesIn(l[..|l| - 1], k) + if InRange(k, l[|l| - 1].code) then 1 else 0
  }

  /** How many listed alarms have a code in the range. */
  function CodesListed(ls: seq<seq<Entry>>, k: nat): nat
  {
    if ls == [] then 0 else CodesIn(ls[0], k) + CodesListed(ls[1..], k)
  }

  predicate Listed(l: seq<Entry>, code: int)
  {
    exists e :: e in l && e.code == code
  }

  /** A raise of an alarm that is not listed for its module yet. */
  predicate NewRaise(s: State, m: Message)
  {
    m.RaiseAlarm? && 0 <= m.mid < 26 && !Listed(s.lists[m.mid], m.code)
  }

  /** How many new raises with a code in the range a run has. */
  function NewRaises(s: State, ms: seq<Message>, k: nat): nat
    requires AllWellFormed(ms)
  {
    if ms == [] then 0
    else
      var init, m := ms[..|ms| - 1], ms[|ms| - 1];
      NewRaises(s, init, k) + if NewRaise(Run(s, init), m) && InRange(k, m.code) then 1 else 0
  }

  /** How many of them found fifty alarms listed. */
  function LostRaises(s: State, ms: seq<Message>, k: nat): nat
    requires AllWellFormed(ms)
  {
    if ms == [] then 0
    else
      var init, m := ms[..|ms| - 1], ms[|ms| - 1];
      var lost := NewRaise(Run(s, init), m) && InRange(k, m.code) && Total(Run(s, init).lists) >= 50;
      LostRaises(s, init, k) + if lost then 1 else 0
  }

  lemma NewRaiseIff(s: State, m: Message)
    requires m.RaiseAlarm? && WellFormed(m)
    ensures NewRaise(s, m) <==> FirstIndex(s.lists[m.mid], m.code) == |s.lists[m.mid]|
  {
    var l, k := s.lists[m.mid], FirstIndex(s.lists[m.mid], m.code);
    if k < |l| {
      assert l[k] in l;
    }
  }

  lemma {:induction false} HavingIsCodes(l: seq<Entry>, k: nat)
    requires k < 4 && SeveritiesOk(l)
    ensures Having(l, SeverityAt(k)) == CodesIn(l, k)
  {
    hide InRange, SeverityOf, Rank;
    if l != [] {
      HavingIsCodes(l[..|l| - 1], k);
      SeverityIsRange(l[|l| - 1].code, SeverityAt(k), k);
    }
  }

  lemma {:induction false} LinkedIsCodes(ls: seq<seq<Entry>>, k: nat)
    requires k < 4 && forall i :: 0 <= i < |ls| ==> SeveritiesOk(ls[i])
    ensures Linked(ls, SeverityAt(k)) == CodesListed(ls, k)
  {
    hide SeveritiesOk, CodesIn, Having;
    if ls != [] {
      HavingIsCodes(ls[0], k);
      LinkedIsCodes(ls[1..], k);
    }
  }

  lemma RaiseCounted(h: History, m: Message, k: nat)
    requires k < 4 && WellFormed(m)
    ensures StepHistory(h, m).state.session[k]
         == h.state.session[k] + if NewRaise(h.state, m) && InRange(k, m.code) then 1 else 0
    ensures StepHistory(h, m).dropped[k]
         == h.dropped[k] + if NewRaise(h.state, m) && InRange(k, m.code) && Total(h.state.lists) >= 50 then 1 else 0
  {
    hide SeverityOf, InRange, Rank, FirstIndex, Listed, Total, Retire, Bank, AnyCritical, Remaining, ToldByClear;
    if m.RaiseAlarm? {
      NewRaiseIff(h.state, m);
      SeverityIsRange(m.code, SeverityAt(k), k);
      RankInjective(SeverityOf(m.code), SeverityAt(k));
    }
  }

  lemma {:induction false} RaisesCounted(h: History, ms: seq<Message>, k: nat)
    requires k < 4 && AllWellFormed(ms)
    ensures RunHistory(h, ms).state.session[k] == h.state.session[k] + NewRaises(h.state, ms, k)
    ensures RunHistory(h, ms).dropped[k] == h.dropped[k] + LostRaises(h.state, ms, k)
  {
    hide StepHistory, InRange, NewRaise, Run, Total;
    if ms != [] {
      var init := ms[..|ms| - 1];
      RaisesCounted(h, init, k);
      HistoryFollowsRun(h, init);
      RaiseCounted(RunHistory(h, init), ms[|ms| - 1], k);
    }
  }

  /**
   After any run: each session counter is the number of new raises with a code
   in its range, and each outstanding counter is the number of listed codes in
   its range and the new raises that were lost because fifty alarms were listed.
   */
  lemma CountersByCode(enabled: bool, mibAccess: bool, firstId: nat, ms: seq<Message>, k: nat)
    requires k < 4 && AllWellFormed(ms)
    ensures var s0 := Initial(enabled, mibAccess, firstId);
            var s := Run(s0, ms);
            && s.session[k] == NewRaises(s0, ms, k)
            && s.outstanding[k] == CodesListed(s.lists, k) + LostRaises(s0, ms, k)
  {
    hide InRange, NewRaises, LostRaises, Linked, Run, RunHistory, Rank;
    var start := Start(enabled, mibAccess, firstId);
    var h := RunHistory(start, ms);
    StatisticsConserved(enabled, mibAccess, firstId, ms);
    HistoryFollowsRun(start, ms);
    RaisesCounted(start, ms, k);
    forall m | 0 <= m < MODULES ensures SeveritiesOk(h.state.lists[m]) {
      assert ListOk(h.state.lists[m], h.state.nextId);
    }
    LinkedIsCodes(h.state.lists, k);
    assert h.state.outstanding[Rank(SeverityAt(k))] == Linked(h.state.lists, SeverityAt(k)) + h.dropped[k];
  }

  // ----- why the network element is enabled -----

  /** Some list holds a code of the critical range. */
  predicate CriticalListed(ls: Lists)
  {
    exists m, i :: 0 <= m < 26 && 0 <= i < |ls[m]| && InRange(0, ls[m][i].code)
  }

  predicate ClearsModule(m: Message)
  {
    m.ClearAlarm? && 0 <= m.mid < 26
  }

  predicate CriticalRaise(s: State, m: Message)
  {
    NewRaise(s, m) && InRange(0, m.code)
  }

  lemma CriticalIsRange(s: State)
    requires Inv(s)
    ensures AnyCritical(s.lists) <==> CriticalListed(s.lists)
  {
    hide InRange, SeverityOf, Total;
    forall m, i | 0 <= m < 26 && 0 <= i < |s.lists[m]|
      ensures s.lists[m][i].severity == Critical <==> InRange(0, s.lists[m][i].code)
    {
      assert ListOk(s.lists[m], s.nextId);
      SeverityIsRange(s.lists[m][i].code, Critical, 0);
    }
    if CriticalListed(s.lists) {
      var m, i :| 0 <= m < 26 && 0 <= i < |s.lists[m]| && InRange(0, s.lists[m][i].code);
      assert HasCritical(s.lists[m]);
    }
  }

  /** The state is left to itself from message `k` on: no new critical raise, no clear of a module. */
  predicate Undecided(s: State, ms: seq<Message>, k: nat)
    requires AllWellFormed(ms)
  {
    forall i :: k <= i < |ms| ==> !ClearsModule(ms[i]) && !CriticalRaise(Run(s, ms[..i]), ms[i])
  }

  /** Right after the first `k` messages the network element is enabled: from the start, or by a clear. */
  predicate EnabledAt(s: State, ms: seq<Message>, k: nat)
    requires AllWellFormed(ms) && k <= |ms|
  {
    if k == 0 then s.enabled else ClearsModule(ms[k - 1]) && !CriticalListed(Run(s, ms[..k]).lists)
  }

  lemma StepEnables(s: State, m: Message)
    requires Inv(s) && WellFormed(m)
    ensures ClearsModule(m) ==> (Step(s, m).enabled <==> !CriticalListed(Step(s, m).lists))
    ensures ClearsModule(m) ==> (Step(s, m).mibAccess <==> s.mibAccess || !CriticalListed(Step(s, m).lists))
    ensures !ClearsModule(m) ==> Step(s, m).mibAccess == s.mibAccess
    ensures !ClearsModule(m) ==> (Step(s, m).enabled <==> s.enabled && !CriticalRaise(s, m))
  {
    hide InRange, SeverityOf, Total, FirstIndex, Listed, Retire, Remaining, AnyCritical, CriticalListed, Inv;
    if m.RaiseAlarm? {
      NewRaiseIff(s, m);
      SeverityIsRange(m.code, Critical, 0);
    } else if ClearsModule(m) {
      StepInv(s, m);
      CriticalIsRange(Step(s, m));
    }
  }

  lemma PrefixRun(s: State, ms: seq<Message>, k: nat)
    requires AllWellFormed(ms) && ms != [] && k < |ms|
    ensures ms[..|ms| - 1][..k] == ms[..k]
    ensures EnabledAt(s, ms[..|ms| - 1], k) <==> EnabledAt(s, ms, k)
  {
    hide ClearsModule, CriticalListed, Run;
    assert ms[..|ms| - 1][..k] == ms[..k];
  }

  lemma UndecidedSnoc(s: State, ms: seq<Message>, k: nat)
    requires AllWellFormed(ms) && ms != [] && k < |ms|
    ensures var init, m := ms[..|ms| - 1], ms[|ms| - 1];
            Undecided(s, ms, k) <==> Undecided(s, init, k) && !ClearsModule(m) && !CriticalRaise(Run(s, init), m)
  {
    hide ClearsModule, CriticalRaise, Run;
    var init := ms[..|ms| - 1];
    forall i | 0 <= i < |init| ensures init[..i] == ms[..i] {
    }
  }

  /**
   After any run the network element is enabled exactly if it was enabled at the
   start, or by a clear that left no code of the critical range listed, and no
   new raise of such a code and no clear of a module came since.
   */
  lemma {:induction false} EnabledIff(s: State, ms: seq<Message>)
    requires Inv(s) && AllWellFormed(ms)
    ensures Run(s, ms).enabled <==> exists k :: 0 <= k <= |ms| && EnabledAt(s, ms, k) && Undecided(s, ms, k)
  {
    hide EnabledAt, Undecided, CriticalRaise, CriticalListed, Inv, Step;
    if ms == [] {
      EnabledAtStart(s);
    } else {
      var init, m := ms[..|ms| - 1], ms[|ms| - 1];
      EnabledIff(s, init);
      RunInv(s, init);
      StepEnables(Run(s, init), m);
      forall k: nat | k < |ms|
        ensures EnabledAt(s, init, k) <==> EnabledAt(s, ms, k)
        ensures Undecided(s, ms, k) <==> Undecided(s, init, k) && !ClearsModule(m) && !CriticalRaise(Run(s, init), m)
      {
        PrefixRun(s, ms, k);
        UndecidedSnoc(s, ms, k);
      }
      EnabledAtEnd(s, ms);
    }
  }

  lemma EnabledAtStart(s: State)
    ensures EnabledAt(s, [], 0) <==> s.enabled
    ensures Undecided(s, [], 0)
  {
  }

  lemma EnabledAtEnd(s: State, ms: seq<Message>)
    requires AllWellFormed(ms) && ms != []
    ensures EnabledAt(s, ms, |ms|) <==> ClearsModule(ms[|ms| - 1]) && !CriticalListed(Run(s, ms).lists)
    ensures Undecided(s, ms, |ms|)
  {
    hide CriticalListed, Run;
    assert ms[..|ms|] == ms;
  }

  /** Management access is open exactly if it was at the start or some clear left no critical code listed. */
  lemma {:induction false} AccessIff(s: State, ms: seq<Message>)
    requires Inv(s) && AllWellFormed(ms)
    ensures Run(s, ms).mibAccess <==> s.mibAccess || exists k :: 0 < k <= |ms| && EnabledAt(s, ms, k)
  {
    hide EnabledAt, CriticalRaise, CriticalListed, Inv, Step;
    if ms != [] {
      var init, m := ms[..|ms| - 1], ms[|ms| - 1];
      AccessIff(s, init);
      RunInv(s, init);
      StepEnables(Run(s, init), m);
      forall k: nat | k < |ms| ensures EnabledAt(s, init, k) <==> EnabledAt(s, ms, k) {
        PrefixRun(s, ms, k);
      }
      EnabledAtEnd(s, ms);
    }
  }

  /** A listed code of the critical range keeps the network element disabled, over any run. */
  lemma CriticalCodeDisables(enabled: bool, mibAccess: bool, firstId: nat, ms: seq<Message>)
    requires AllWellFormed(ms)
    ensures var s := Run(Initial(enabled, mibAccess, firstId), ms); CriticalListed(s.lists) ==> !s.enabled
  {
    hide CriticalListed, AnyCritical, Inv, Run;
    var s0 := Initial(enabled, mibAccess, firstId);
    InitialInv(enabled, mibAccess, firstId);
    RunInv(s0, ms);
    NoCriticalAtStart(enabled, mibAccess, firstId);
    OperationalStateSafe(s0, ms);
    CriticalIsRange(Run(s0, ms));
  }

  // ----- what is listed, since when and how often it was raised -----

  /** An alarm as its messages leave it: the id and time of the raise that listed it, and all raises since. */
  datatype Standing = Down | Up(id: nat, utc: int, times: nat)

  /** With `full`, fifty alarms are listed; `id` is the next one. */
  function StandingStep(before: Standing, m: Message, mid: int, code: int, id: nat, full: bool): Standing
  {
    match m
    case RaiseAlarm(m, _, c, now) =>
      if m != mid || c != code then before
      else if before.Up? then before.(times := before.times + 1)
      else if full then Down else Up(id, now, 1)
    case ClearAlarm(m, _, c) => if m == mid && (c == code || c == 0) then Down else before
    case _ => before
  }

  function StandingOf(s0: State, ms: seq<Message>, mid: int, code: int): Standing
    requires AllWellFormed(ms)
    decreases |ms|
  {
    if ms == [] then Down
    else
      var init := ms[..|ms| - 1];
      StandingStep(StandingOf(s0, init, mid, code), ms[|ms| - 1], mid, code, s0.nextId + |Announced(s0, init)|,
                   Total(Run(s0, init).lists) >= 50)
  }

  /** Module and code of every report: a raise of an alarm that is not up, and a clear of an existing module. */
  function Announced(s0: State, ms: seq<Message>): seq<(int, int)>
    requires AllWellFormed(ms)
    decreases |ms|
  {
    if ms == [] then []
    else
      var init := ms[..|ms| - 1];
      var before := Announced(s0, init);
      match ms[|ms| - 1]
      case RaiseAlarm(m, _, c, _) => if StandingOf(s0, init, m, c).Down? then before + [(m, c)] else before
      case ClearAlarm(m, _, _) => if 0 <= m < 26 then before + [(m, 0)] else before
      case _ => before
  }

  /** What a list says of one code. */
  predicate Says(l: seq<Entry>, code: int, st: Standing)
  {
    && (Listed(l, code) <==> st.Up?)
    && forall e :: e in l && e.code == code ==>
         st == Up(e.id, e.utc, e.count) && Shown(e.severity, code)
  }

  lemma NothingSaid(code: int)
    ensures Says([], code, Down)
  {
  }

  /** One more raise of the listed alarm at position `k`. */
  lemma CountedSays(l: seq<Entry>, k: nat, code: int, st: Standing, nextId: nat)
    requires ListOk(l, nextId) && k < |l| && Says(l, code, st)
    ensures Says(l[k := l[k].(count := l[k].count + 1)], code,
                 if l[k].code == code && st.Up? then st.(times := st.times + 1) else st)
  {
    hide Shown, SeverityOf;
    var l' := l[k := l[k].(count := l[k].count + 1)];
    assert l[k] in l && l'[k] in l';
    if Listed(l, code) {
      var e :| e in l && e.code == code;
      var i :| 0 <= i < |l| && l[i] == e;
      assert l'[i] in l' && l'[i].code == code;
    }
    forall e | e in l' && e.code == code
      ensures l[k].code == code ==> e == l'[k]
      ensures l[k].code != code ==> e in l
    {
      var i :| 0 <= i < |l'| && l'[i] == e;
      assert l[i].code == code && l[i] in l;
    }
  }

  lemma AppendedSays(l: seq<Entry>, e: Entry, code: int, st: Standing)
    requires Says(l, code, st) && !Listed(l, e.code) && Shown(e.severity, e.code)
    ensures Says(l + [e], code, if e.code == code then Up(e.id, e.utc, e.count) else st)
  {
    hide Shown;
    assert e in l + [e];
    if Listed(l, code) {
      var o :| o in l && o.code == code;
      assert o in l + [e];
    }
  }

  lemma ClearedSays(l: seq<Entry>, cleared: int, code: int, st: Standing, nextId: nat)
    requires ListOk(l, nextId) && Says(l, code, st)
    ensures Says(Remaining(l, cleared), code, if cleared == code || cleared == 0 then Down else st)
  {
    hide Shown, SeverityOf, Remaining, ListOk;
    ClearRemovesExactly(l, if cleared == 0 then 1 else cleared, nextId);
    if Listed(l, code) && cleared != code && cleared != 0 {
      var e :| e in l && e.code == code;
      assert e in Remaining(l, cleared);
    }
  }

  lemma StepSays(s: State, m: Message, mid: int, code: int, st: Standing)
    requires Inv(s) && WellFormed(m) && 0 <= mid < 26 && Says(s.lists[mid], code, st)
    ensures Says(Step(s, m).lists[mid], code, StandingStep(st, m, mid, code, s.nextId, Total(s.lists) >= 50))
  {
    hide Says, SeverityOf, Total, FirstIndex, Listed, Retire, Remaining, AnyCritical, ToldByClear, Shown;
    var l := s.lists[mid];
    assert ListOk(l, s.nextId);
    match m
    case RaiseAlarm(_, tag, c, now) =>
      if m.mid == mid {
        NewRaiseIff(s, m);
        SaysListed(l, code, st);
        var k := FirstIndex(l, c);
        if k < |l| {
          CountedSays(l, k, code, st, s.nextId);
        } else if Total(s.lists) < 50 {
          SeverityIsRange(c, SeverityOf(c), Rank(SeverityOf(c)));
          AppendedSays(l, Entry(c, s.nextId, SeverityOf(c), now, 1), code, st);
        }
      }
    case ClearAlarm(_, _, c) =>
      if m.mid == mid {
        ClearedSays(l, c, code, st, s.nextId);
      }
    case _ =>
  }

  lemma SaysListed(l: seq<Entry>, code: int, st: Standing)
    requires Says(l, code, st)
    ensures Listed(l, code) <==> st.Up?
  {
  }

  /** The reports made so far, one for each announcement, with consecutive ids. */
  predicate ReportsFollow(s: State, firstId: nat, told: seq<(int, int)>)
  {
    && s.nextId == firstId + |told| && |s.reports| == |told|
    && forall i :: 0 <= i < |told| ==>
         && s.reports[i].id == firstId + i && s.reports[i].mid == told[i].0 && s.reports[i].code == told[i].1
         && Shown(s.reports[i].severity, told[i].1)
  }

  lemma ClearShown()
    ensures Shown(Info, 0)
  {
  }

  lemma StepReports(s: State, m: Message, firstId: nat, told: seq<(int, int)>)
    requires WellFormed(m) && ReportsFollow(s, firstId, told)
    ensures ReportsFollow(Step(s, m), firstId,
                          if NewRaise(s, m) then told + [(m.mid, m.code)]
                          else if ClearsModule(m) then told + [(m.mid, 0)] else told)
  {
    hide SeverityOf, Total, FirstIndex, Listed, Retire, Remaining, AnyCritical, ToldByClear, Shown;
    match m
    case RaiseAlarm(_, _, c, _) =>
      NewRaiseIff(s, m);
      SeverityIsRange(c, SeverityOf(c), Rank(SeverityOf(c)));
    case ClearAlarm(_, _, _) => ClearShown();
    case _ =>
  }

  /**
   After any run: a code is listed for a module exactly if its messages leave it
   up, and then with the id and time of the raise that listed it and the number
   of raises since.
   */
  lemma {:induction false} ListsFollowMessages(enabled: bool, mibAccess: bool, firstId: nat, ms: seq<Message>,
                                               mid: int, code: int)
    requires AllWellFormed(ms) && 0 <= mid < 26
    ensures var s0 := Initial(enabled, mibAccess, firstId);
            Says(Run(s0, ms).lists[mid], code, StandingOf(s0, ms, mid, code))
    decreases |ms|
  {
    hide Says, Step, StandingStep, Inv, Total, ReportsFollow, Announced;
    var s0 := Initial(enabled, mibAccess, firstId);
    if ms == [] {
      NothingSaid(code);
    } else {
      var init := ms[..|ms| - 1];
      ListsFollowMessages(enabled, mibAccess, firstId, init, mid, code);
      ReportsFollowMessages(enabled, mibAccess, firstId, init);
      IdsFollow(Run(s0, init), firstId, Announced(s0, init));
      InitialInv(enabled, mibAccess, firstId);
      RunInv(s0, init);
      StepSays(Run(s0, init), ms[|ms| - 1], mid, code, StandingOf(s0, init, mid, code));
    }
  }

  lemma IdsFollow(s: State, firstId: nat, told: seq<(int, int)>)
    requires ReportsFollow(s, firstId, told)
    ensures s.nextId == firstId + |told|
  {
  }

  /** After any run there is one report, with the next id, for each raise of an alarm not up and each clear. */
  lemma {:induction false} ReportsFollowMessages(enabled: bool, mibAccess: bool, firstId: nat, ms: seq<Message>)
    requires AllWellFormed(ms)
    ensures var s0 := Initial(enabled, mibAccess, firstId);
            ReportsFollow(Run(s0, ms), firstId, Announced(s0, ms))
    decreases |ms|
  {
    hide Says, Step, Inv, Total, StandingOf, Listed;
    var s0 := Initial(enabled, mibAccess, firstId);
    if ms != [] {
      var init, m := ms[..|ms| - 1], ms[|ms| - 1];
      ReportsFollowMessages(enabled, mibAccess, firstId, init);
      if m.RaiseAlarm? {
        ListsFollowMessages(enabled, mibAccess, firstId, init, m.mid, m.code);
        SaysListed(Run(s0, init).lists[m.mid], m.code, StandingOf(s0, init, m.mid, m.code));
      }
      hide ReportsFollow;
      StepReports(Run(s0, init), m, firstId, Announced(s0, init));
    }
  }

  // ----- what the report of a clear tells -----

  function LastTold(s: State): Told
    requires s.reports != []
  {
    s.reports[|s.reports| - 1].told
  }

  lemma ClearNamesPrevious(s: State, mid: nat, tag: int, i: nat)
    requires Inv(s) && mid < 26 && i < |s.lists[mid]|
    ensures var l := s.lists[mid];
            var before := l[if i == 0 then 0 else i - 1];
            LastTold(Step(s, ClearAlarm(mid, tag, l[i].code))) == Earlier(before.code, before.id)
  {
    hide SeverityOf, Total, Retire, Remaining, AnyCritical;
    assert ListOk(s.lists[mid], s.nextId);
  }

  /** The alarm with `code` is up for the module, and none that is up was listed before it. */
  ghost predicate Oldest(s0: State, ms: seq<Message>, mid: int, code: int)
    requires AllWellFormed(ms)
  {
    && StandingOf(s0, ms, mid, code).Up?
    && forall other :: StandingOf(s0, ms, mid, other).Up? ==>
         StandingOf(s0, ms, mid, code).id <= StandingOf(s0, ms, mid, other).id
  }

  /** Position 0 of a list is the oldest alarm. */
  lemma OldestIsFirst(s0: State, ms: seq<Message>, mid: int, l: seq<Entry>, nextId: nat, i: nat)
    requires AllWellFormed(ms) && ListOk(l, nextId) && i < |l|
    requires forall code :: Says(l, code, StandingOf(s0, ms, mid, code))
    ensures Oldest(s0, ms, mid, l[i].code) <==> i == 0
  {
    hide StandingOf, Shown, SeverityOf;
    assert l[i] in l && l[0] in l;
    assert Says(l, l[i].code, StandingOf(s0, ms, mid, l[i].code));
    assert Says(l, l[0].code, StandingOf(s0, ms, mid, l[0].code));
    if i == 0 {
      forall other | StandingOf(s0, ms, mid, other).Up? ensures l[0].id <= StandingOf(s0, ms, mid, other).id {
        assert Says(l, other, StandingOf(s0, ms, mid, other));
        var e :| e in l && e.code == other;
        var j :| 0 <= j < |l| && l[j] == e;
      }
    }
  }

  /**
   The report of a clear is meant to name the alarm that was cleared: the text
   shown for it says "alarm code %1 was cleared".  After any run it names the
   alarm listed before it instead, so that it is right exactly for the oldest
   alarm of the module.
   */
  lemma ClearNamesClearedIff(enabled: bool, mibAccess: bool, firstId: nat, ms: seq<Message>, mid: int, tag: int,
                             code: int)
    requires AllWellFormed(ms) && 0 <= mid < 26
    requires StandingOf(Initial(enabled, mibAccess, firstId), ms, mid, code).Up?
    ensures var s0 := Initial(enabled, mibAccess, firstId);
            var told := LastTold(Step(Run(s0, ms), ClearAlarm(mid, tag, code)));
            && told.Earlier?
            && (told.code == code <==> Oldest(s0, ms, mid, code))
            && (told.id == StandingOf(s0, ms, mid, code).id <==> Oldest(s0, ms, mid, code))
  {
    hide StandingOf, Says, Run, Step, Inv, Oldest;
    var s0 := Initial(enabled, mibAccess, firstId);
    var s, st := Run(s0, ms), StandingOf(s0, ms, mid, code);
    InitialInv(enabled, mibAccess, firstId);
    RunInv(s0, ms);
    var l := s.lists[mid];
    assert ListOk(l, s.nextId) by { ListsOk(s, mid); }
    forall c ensures Says(l, c, StandingOf(s0, ms, mid, c)) {
      ListsFollowMessages(enabled, mibAccess, firstId, ms, mid, c);
    }
    var i := EntryUp(l, code, st);
    ClearNamesPrevious(s, mid, tag, i);
    OldestIsFirst(s0, ms, mid, l, s.nextId, i);
  }

  lemma ListsOk(s: State, mid: nat)
    requires Inv(s) && mid < 26
    ensures ListOk(s.lists[mid], s.nextId)
  {
  }

  lemma EntryUp(l: seq<Entry>, code: int, st: Standing) returns (i: nat)
    requires Says(l, code, st) && st.Up?
    ensures i < |l| && l[i].code == code && l[i].id == st.id
  {
    var e :| e in l && e.code == code;
    i :| i < |l| && l[i] == e;
  }

  lemma RunOfThree(s: State, a: Message, b: Message, c: Message)
    requires WellFormed(a) && WellFormed(b) && WellFormed(c)
    ensures AllWellFormed([a, b, c]) && Run(s, [a, b, c]) == Step(Step(Step(s, a), b), c)
  {
    hide Step;
    assert [a][..0] == [] && [a, b][..1] == [a] && [a, b, c][..2] == [a, b];
    assert Run(s, [a]) == Step(Run(s, []), a);
    assert Run(s, [a, b]) == Step(Run(s, [a]), b);
  }

  /** Two alarms of a module, and the newer one cleared: the report names the other. */
  lemma ClearNamesOther(enabled: bool, mibAccess: bool, firstId: nat)
    ensures var ms := [RaiseAlarm(0, 0, 0x101, 0), RaiseAlarm(0, 0, 0x102, 0), ClearAlarm(0, 0, 0x102)];
            && AllWellFormed(ms)
            && var s := Run(Initial(enabled, mibAccess, firstId), ms);
               s.reports != [] && LastTold(s) == Earlier(0x101, firstId)
  {
    hide Retire, Remaining, AnyCritical, SeverityOf, Run;
    var s0 := Initial(enabled, mibAccess, firstId);
    var raise0, raise1, clear := RaiseAlarm(0, 0, 0x101, 0), RaiseAlarm(0, 0, 0x102, 0), ClearAlarm(0, 0, 0x102);
    var s1, s2 := Step(s0, raise0), Step(Step(s0, raise0), raise1);
    TotalOfEmpty(MODULES);
    TotalUpdate(s0.lists, 0, s1.lists[0]);
    assert s1.lists[0] == [Entry(0x101, firstId, SeverityOf(0x101), 0, 1)];
    TotalUpdate(s1.lists, 0, s2.lists[0]);
    assert |s2.lists[0]| == 2 && s2.lists[0][1].code == 0x102 && s2.lists[0][0] == s1.lists[0][0];
    RunOfThree(s0, raise0, raise1, clear);
  }

  /** A clear of everything names the newest alarm; one that finds nothing names none. */
  lemma ClearNamesNewest(s: State, mid: nat, tag: int, code: int)
    requires Inv(s) && mid < 26 && (code == 0 || !Listed(s.lists[mid], code))
    ensures var l := s.lists[mid];
            LastTold(Step(s, ClearAlarm(mid, tag, code)))
            == if code == 0 && l != [] then Earlier(l[|l| - 1].code, l[|l| - 1].id) else Earlier(0, 0)
  {
    hide SeverityOf, Total, Retire, Remaining, AnyCritical;
    var l := s.lists[mid];
    assert code == 0 || forall i :: 0 <= i < |l| ==> l[i] in l && l[i].code != code;
  }
}
