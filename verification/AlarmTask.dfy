/**
 The alarm task itself: a fixed pool of entries threaded into one singly linked
 list per module.  Every operation is proved against its effect on values.
 */
module AlarmTasks {
  import opened AlarmModel
  import opened AlarmSafety

  class AlarmEntry {
    var code: int
    var id: nat
    var severity: Severity
    var utc: int
    var count: nat
    var next: AlarmEntry?
    /** Position in the pool, and the module in whose list the entry is while its code is not "no error". */
    ghost const slot: nat
    ghost var owner: nat

    constructor (ghost slot: nat)
      ensures code == NO_ERROR && next == null && this.slot == slot
    {
      code, id, severity, utc, count, next := NO_ERROR, 0, Info, 0, 0, null;
      this.slot, owner := slot, 0;
    }

    ghost function Value(): Entry
      reads this
    {
      Entry(code, id, severity, utc, count)
    }
  }

  ghost function NodeAt(l: seq<AlarmEntry>, i: nat): AlarmEntry?
  {
    if i < |l| then l[i] else null
  }

  /** `head` is the start of a null-terminated chain through exactly the nodes of `l`, in that order. */
  ghost predicate Chained(head: AlarmEntry?, l: seq<AlarmEntry>)
    reads l
  {
    && head == NodeAt(l, 0)
    && forall i :: 0 <= i < |l| ==> l[i].next == NodeAt(l, i + 1)
  }

  /** The links of a chain, as a value. */
  ghost function Links(l: seq<AlarmEntry>): (r: seq<AlarmEntry?>)
    reads l
    ensures |r| == |l|
  {
    seq(|l|, i requires 0 <= i < |l| reads l => l[i].next)
  }

  lemma ChainLinks(head: AlarmEntry?, l: seq<AlarmEntry>)
    requires Chained(head, l)
    ensures head == NodeAt(l, 0)
    ensures forall i :: 0 <= i < |l| ==> Links(l)[i] == NodeAt(l, i + 1)
  {
  }

  lemma ChainExtended(head: AlarmEntry?, l: seq<AlarmEntry>, links: seq<AlarmEntry?>, e: AlarmEntry)
    requires head == (if l == [] then e else l[0]) && e.next == null
    requires |links| == |l| && forall i :: 0 <= i < |l| ==> links[i] == NodeAt(l, i + 1)
    requires forall i :: 0 <= i < |l| - 1 ==> l[i].next == links[i]
    requires l != [] ==> l[|l| - 1].next == e
    ensures Chained(head, l + [e])
  {
  }

  /** The node before the one at `at`, or the head, now leads past it. */
  lemma ChainBridged(head: AlarmEntry?, l: seq<AlarmEntry>, links: seq<AlarmEntry?>, at: nat)
    requires at < |l| == |links| && forall i :: 0 <= i < |l| ==> links[i] == NodeAt(l, i + 1)
    requires head == if at == 0 then links[0] else l[0]
    requires forall i :: 0 <= i < |l| && i != at - 1 ==> l[i].next == links[i]
    requires at > 0 ==> l[at - 1].next == links[at]
    ensures Chained(head, Cut(l, at))
  {
    var r := Cut(l, at);
    assert head == NodeAt(r, 0);
    forall i | 0 <= i < |r| ensures r[i].next == NodeAt(r, i + 1) {
      if i < at - 1 {
        assert r[i] == l[i];
      } else if i == at - 1 {
        assert r[i] == l[i];
      } else {
        assert r[i] == l[i + 1];
      }
    }
  }

  ghost predicate Shows(l: seq<AlarmEntry>, es: seq<Entry>)
    reads l
  {
    && |l| == |es|
    && forall i :: 0 <= i < |l| ==> l[i].Value() == es[i]
  }

  function Cut<T>(s: seq<T>, at: nat): (r: seq<T>)
    requires at < |s|
    ensures |r| == |s| - 1
  {
    s[..at] + s[at + 1..]
  }

  /** One alarm less. */
  function Freed(s: State, mid: nat, at: nat): State
    requires mid < MODULES && at < |s.lists[mid]|
  {
    s.(lists := s.lists[mid := Cut(s.lists[mid], at)],
       outstanding := Count(s.outstanding, SeverityOf(s.lists[mid][at].code), -1))
  }

  /** The part of a clear that concerns the list and the outstanding count. */
  function Released(s: State, mid: nat, code: int): State
    requires mid < MODULES
  {
    var l := s.lists[mid];
    s.(lists := s.lists[mid := Remaining(l, code)], outstanding := Retire(s.outstanding, Removed(l, code)))
  }

  lemma ReleasedIsFreed(s: State, mid: nat, code: int)
    requires mid < MODULES && code != NO_ERROR
    ensures var k := FirstIndex(s.lists[mid], code);
            Released(s, mid, code) == if k < |s.lists[mid]| then Freed(s, mid, k) else s
  {
    hide FirstIndex, SeverityOf;
    var l, k := s.lists[mid], FirstIndex(s.lists[mid], code);
    if k < |l| {
      assert Cut(l, k) == Remaining(l, code);
      assert [l[k]][..0] == [] && Retire(s.outstanding, []) == s.outstanding;
      assert Retire(s.outstanding, [l[k]]) == Count(s.outstanding, SeverityOf(l[k].code), -1);
    } else {
      assert Retire(s.outstanding, []) == s.outstanding;
      assert s.lists[mid := l] == s.lists;
    }
  }

  /** After `i` steps of clearing all alarms of a module. */
  function TakenDown(s: State, mid: nat, i: nat): State
    requires mid < MODULES && i <= |s.lists[mid]|
  {
    var l := s.lists[mid];
    s.(lists := s.lists[mid := l[i..]], outstanding := Retire(s.outstanding, l[..i]))
  }

  lemma TakenDownStart(s: State, mid: nat)
    requires mid < MODULES
    ensures TakenDown(s, mid, 0) == s
  {
    assert s.lists[mid := s.lists[mid][0..]] == s.lists;
  }

  lemma TakenDownStep(s: State, mid: nat, i: nat)
    requires mid < MODULES && i <= |s.lists[mid]| && TakenDown(s, mid, i).lists[mid] != []
    ensures i < |s.lists[mid]| && Freed(TakenDown(s, mid, i), mid, 0) == TakenDown(s, mid, i + 1)
    ensures TakenDown(s, mid, i).lists[mid][0] == s.lists[mid][i]
  {
    hide SeverityOf;
    var l := s.lists[mid];
    assert Cut(l[i..], 0) == l[i + 1..];
    assert l[..i + 1][..i] == l[..i];
    assert s.lists[mid := l[i..]][mid := l[i + 1..]] == s.lists[mid := l[i + 1..]];
  }

  lemma TakenDownEnd(s: State, mid: nat, i: nat)
    requires mid < MODULES && i <= |s.lists[mid]| && TakenDown(s, mid, i).lists[mid] == []
    ensures i == |s.lists[mid]| && TakenDown(s, mid, i) == Released(s, mid, NO_ERROR)
  {
    var l := s.lists[mid];
    assert i == |l| && l[..i] == l;
  }

  /** How many pool slots hold an alarm. */
  function InUse(codes: seq<int>): (r: nat)
    ensures r <= |codes|
  {
    if codes == [] then 0 else (if codes[0] == NO_ERROR then 0 else 1) + InUse(codes[1..])
  }

  lemma {:induction false} InUseUpdate(codes: seq<int>, i: nat, c: int)
    requires i < |codes|
    ensures InUse(codes[i := c])
         == InUse(codes) - (if codes[i] == NO_ERROR then 0 else 1) + (if c == NO_ERROR then 0 else 1)
  {
    if i > 0 {
      assert codes[i := c][1..] == codes[1..][i - 1 := c];
      InUseUpdate(codes[1..], i - 1, c);
    } else {
      assert codes[i := c][1..] == codes[1..];
    }
  }

  lemma {:induction false} AllInUse(codes: seq<int>)
    requires forall i :: 0 <= i < |codes| ==> codes[i] != NO_ERROR
    ensures InUse(codes) == |codes|
  {
    if codes != [] {
      AllInUse(codes[1..]);
    }
  }

  lemma {:induction false} NoneInUse(codes: seq<int>)
    requires forall i :: 0 <= i < |codes| ==> codes[i] == NO_ERROR
    ensures InUse(codes) == 0
  {
    if codes != [] {
      NoneInUse(codes[1..]);
    }
  }

  /** The pool as it is allocated: free slots that know their place. */
  method NewPool() returns (entries: seq<AlarmEntry>)
    ensures fresh(entries) && |entries| == POOL
    ensures forall k :: 0 <= k < POOL ==> entries[k].slot == k && entries[k].code == NO_ERROR
  {
    entries := [];
    for i := 0 to POOL
      invariant |entries| == i && fresh(entries)
      invariant forall k :: 0 <= k < i ==> entries[k].slot == k && entries[k].code == NO_ERROR
    {
      var e := new AlarmEntry(i);
      entries := entries + [e];
    }
  }

  class AlarmTask {
    /** First entry of each module's list. */
    const ms: array<AlarmEntry?>
    const pool: seq<AlarmEntry>
    /** Row 0 counts the session, row 1 the outstanding alarms. */
    const statistics: array2<int>
    var enabled: bool
    var mibAccess: bool
    var lastError: map<int, int>
    var nextId: nat
    /** Broadcast, log and management station all get the same reports. */
    var reports: seq<Report>

    ghost var lists: seq<seq<AlarmEntry>>
    ghost var codes: seq<int>
    ghost var model: State

    ghost predicate Sized()
      reads this
    {
      && |pool| == POOL && ms.Length == MODULES && |lists| == MODULES && |codes| == POOL
      && statistics.Length0 == 2 && statistics.Length1 == SEVERITIES
      && (forall k :: 0 <= k < POOL ==> pool[k].slot == k)
    }

    /** The nodes of the lists are exactly the pool slots that hold a code, each in one list only. */
    ghost predicate Placed()
      requires Sized()
      reads this, pool
    {
      && (forall k :: 0 <= k < POOL ==> pool[k].code == codes[k])
      && (forall m, i :: 0 <= m < MODULES && 0 <= i < |lists[m]| ==> lists[m][i] in pool && Member(lists[m][i], m))
      && (forall k :: 0 <= k < POOL && codes[k] != NO_ERROR
            ==> pool[k].owner < MODULES && pool[k] in lists[pool[k].owner])
      && InUse(codes) == Total(model.lists)
    }

    ghost predicate Member(e: AlarmEntry, m: nat)
      requires Sized()
      reads this, e
    {
      e.slot < POOL && pool[e.slot] == e && e.owner == m && codes[e.slot] != NO_ERROR
    }

    /** The lists start at `heads` and show what the model says. */
    ghost predicate Threaded(heads: seq<AlarmEntry?>)
      requires Sized() && Placed() && |heads| == MODULES
      reads this, pool
    {
      forall m :: 0 <= m < MODULES ==> Chained(heads[m], lists[m]) && Shows(lists[m], model.lists[m])
    }

    ghost predicate Counted()
      requires Sized()
      reads this, statistics
    {
      forall v :: && statistics[0, Rank(v)] == model.session[Rank(v)]
                  && statistics[1, Rank(v)] == model.outstanding[Rank(v)]
    }

    ghost predicate Scalars()
      reads this
    {
      && enabled == model.enabled && mibAccess == model.mibAccess && lastError == model.lastError
      && nextId == model.nextId && reports == model.reports
    }

    ghost predicate ValidFrom(heads: seq<AlarmEntry?>)
      reads this, statistics, pool
    {
      && |heads| == MODULES
      && Sized() && Placed() && Threaded(heads) && Counted() && Scalars() && Inv(model)
    }

    ghost predicate Valid()
      reads this, ms, statistics, pool
    {
      ValidFrom(ms[..])
    }

    method FindAlarmEntry(mid: nat, code: int) returns (e: AlarmEntry?, ghost at: nat)
      requires Valid() && mid < MODULES
      ensures at == FirstIndex(model.lists[mid], code)
      ensures e == NodeAt(lists[mid], FirstIndex(model.lists[mid], code))
    {
      hide Inv, Placed, Counted, Scalars;
      ghost var l, es := lists[mid], model.lists[mid];
      assert Shows(l, es) && Chained(ms[mid], l);
      e, at := ms[mid], 0;
      while e != null
        invariant at <= |l| && e == NodeAt(l, at)
        invariant forall i :: 0 <= i < at ==> es[i].code != code
        decreases |l| - at
      {
        assert e == l[at] && e.Value() == es[at];
        if e.code == code {
          return;
        }
        e := e.next;
        at := at + 1;
      }
    }

    lemma NodesDistinct()
      requires Valid()
      ensures forall m, i, j :: 0 <= m < MODULES && 0 <= i < j < |lists[m]| ==> lists[m][i] != lists[m][j]
      ensures forall m, n, i, j ::
                0 <= m < MODULES && 0 <= n < MODULES && m != n && 0 <= i < |lists[m]| && 0 <= j < |lists[n]|
                ==> lists[m][i] != lists[n][j]
    {
      hide Counted, Scalars, Chained, Shows, Inv, Placed;
      NodesDistinctIn();
    }

    /** No node is twice in a list, and no node is in two lists. */
    lemma NodesDistinctIn()
      requires Sized() && Placed() && Inv(model)
      requires forall m :: 0 <= m < MODULES ==> Shows(lists[m], model.lists[m])
      ensures forall m, i, j :: 0 <= m < MODULES && 0 <= i < j < |lists[m]| ==> lists[m][i] != lists[m][j]
      ensures forall m, n, i, j ::
                0 <= m < MODULES && 0 <= n < MODULES && m != n && 0 <= i < |lists[m]| && 0 <= j < |lists[n]|
                ==> lists[m][i] != lists[n][j]
    {
      hide Counted, Scalars;
      forall m, i, j | 0 <= m < MODULES && 0 <= i < j < |lists[m]| ensures lists[m][i] != lists[m][j] {
        assert ListOk(model.lists[m], model.nextId) && Shows(lists[m], model.lists[m]);
        assert lists[m][i].Value().code != lists[m][j].Value().code;
      }
    }

    /** Relinking leaves everything but the chains as it was. */
    twostate lemma OnlyLinksChanged()
      requires old(Sized()) && old(Placed())
      requires lists == old(lists) && codes == old(codes) && model == old(model)
      requires forall k :: 0 <= k < POOL ==>
                 pool[k].Value() == old(pool[k].Value()) && pool[k].owner == old(pool[k].owner)
      requires forall m :: 0 <= m < MODULES ==> old(Shows(lists[m], model.lists[m]))
      ensures Sized() && Placed()
      ensures forall m :: 0 <= m < MODULES ==> Shows(lists[m], model.lists[m])
    {
      forall m, i | 0 <= m < MODULES && 0 <= i < |lists[m]| ensures lists[m][i] in pool && Member(lists[m][i], m) {
        assert old(Member(lists[m][i], m));
      }
      forall m | 0 <= m < MODULES ensures Shows(lists[m], model.lists[m]) {
        assert old(Shows(lists[m], model.lists[m]));
        forall i | 0 <= i < |lists[m]| ensures lists[m][i].Value() == model.lists[m][i] {
          assert Member(lists[m][i], m);
          assert old(lists[m][i].Value()) == model.lists[m][i];
        }
      }
    }

    /** The last node of a non-empty list. */
    method LastNode(mid: nat) returns (tail: AlarmEntry)
      requires Valid() && mid < MODULES && ms[mid] != null
      ensures lists[mid] != [] && tail == lists[mid][|lists[mid]| - 1] && tail in pool
    {
      hide Inv, Counted, Scalars, Shows;
      ghost var l := lists[mid];
      assert Chained(ms[mid], l);
      tail := ms[mid];
      ghost var at := 0;
      while tail.next != null
        invariant at < |l| && tail == l[at]
        decreases |l| - at
      {
        tail := tail.next;
        at := at + 1;
      }
    }

    /** The nodes of the lists are exactly the pool slots whose code is not "no error". */
    lemma SlotsInUseAreNodes()
      requires Valid()
      ensures forall k :: 0 <= k < POOL ==>
                (pool[k].code != NO_ERROR <==>
                   exists m, i :: 0 <= m < MODULES && 0 <= i < |lists[m]| && lists[m][i] == pool[k])
    {
      hide Inv, Threaded, Counted, Scalars, InUse, Total;
      forall k | 0 <= k < POOL
        ensures pool[k].code != NO_ERROR <==>
                  exists m, i :: 0 <= m < MODULES && 0 <= i < |lists[m]| && lists[m][i] == pool[k]
      {
        if pool[k].code != NO_ERROR {
          var m := pool[k].owner;
          var i :| 0 <= i < |lists[m]| && lists[m][i] == pool[k];
        }
      }
    }

    /** The first free slot of the pool, linked behind the module's list; none if the pool is full. */
    method AllocEntry(mid: nat) returns (e: AlarmEntry?)
      requires Valid() && mid < MODULES
      modifies ms, pool
      ensures e == null <==> Total(model.lists) >= 50
      ensures e == null ==> Valid()
      ensures e != null ==> Placed() && e.slot < POOL && pool[e.slot] == e && codes[e.slot] == NO_ERROR
      ensures e != null ==> Chained(ms[mid], lists[mid] + [e])
      ensures e != null ==> forall m :: 0 <= m < MODULES && m != mid ==> Chained(ms[m], lists[m])
      ensures e != null ==> forall m :: 0 <= m < MODULES ==> Shows(lists[m], model.lists[m])
    {
      hide Inv, Counted, Scalars, Shows, InUse, Total, Chained, Placed;
      e := FreeSlot();
      if e == null {
        return;
      }
      NodesDistinct();
      FreeIsUnlinked(e);
      var tail: AlarmEntry? := null;
      if ms[mid] != null {
        tail := LastNode(mid);
      }
      HeadOfEmpty(mid);
      ghost var l, links := lists[mid], Links(lists[mid]);
      ChainLinks(ms[mid], l);
      e.next := null;
      if tail == null {
        ms[mid] := e;
      } else {
        tail.next := e;
      }
      OnlyLinksChanged();
      OthersKept(mid);
      ChainExtended(ms[mid], l, links, e);
    }

    twostate lemma OthersKept(mid: nat)
      requires |lists| == MODULES && ms.Length == MODULES
      requires lists == old(lists)
      requires forall m :: 0 <= m < MODULES && m != mid ==> ms[m] == old(ms[m]) && old(Chained(ms[m], lists[m]))
      requires forall m, i :: 0 <= m < MODULES && m != mid && 0 <= i < |lists[m]| ==>
                 lists[m][i].next == old(lists[m][i].next)
      ensures forall m :: 0 <= m < MODULES && m != mid ==> Chained(ms[m], lists[m])
    {
    }

    lemma AllInPool()
      requires Sized() && Placed()
      ensures forall m, i :: 0 <= m < MODULES && 0 <= i < |lists[m]| ==> lists[m][i] in pool
    {
    }

    lemma FreeIsUnlinked(e: AlarmEntry)
      requires Sized() && Placed() && e.slot < POOL && codes[e.slot] == NO_ERROR
      ensures forall m, i :: 0 <= m < MODULES && 0 <= i < |lists[m]| ==> lists[m][i] != e
    {
    }

    lemma HeadOfEmpty(m: nat)
      requires Valid() && m < MODULES
      ensures ms[m] == null <==> lists[m] == []
    {
      assert Chained(ms[m], lists[m]);
    }

    method FreeSlot() returns (e: AlarmEntry?)
      requires Valid()
      ensures e == null <==> Total(model.lists) >= POOL
      ensures e != null ==> e.slot < POOL && pool[e.slot] == e && codes[e.slot] == NO_ERROR
    {
      hide Inv, Threaded, Counted, Scalars;
      var i := 0;
      while i < POOL && pool[i].code != NO_ERROR
        invariant i <= POOL
        invariant forall k :: 0 <= k < i ==> codes[k] != NO_ERROR
      {
        i := i + 1;
      }
      if i == POOL {
        AllInUse(codes);
        return null;
      }
      InUseUpdate(codes, i, 1);
      return pool[i];
    }

    // ----- steps that touch no list -----

    /** Statistics, states, last errors, ids and reports may change with the model; the lists stay. */
    twostate lemma ListsKept()
      requires old(Valid())
      requires lists == old(lists) && codes == old(codes) && model.lists == old(model.lists)
      requires unchanged(ms) && unchanged(pool)
      requires model.nextId >= old(model.nextId)
      requires Sized() && Counted() && Scalars()
      ensures Valid()
    {
      hide Counted, Scalars, InUse, Total, ListOk;
      forall m, i | 0 <= m < MODULES && 0 <= i < |lists[m]| ensures lists[m][i] in pool && Member(lists[m][i], m) {
        assert old(Member(lists[m][i], m));
      }
      forall m | 0 <= m < MODULES
        ensures Chained(ms[m], lists[m]) && Shows(lists[m], model.lists[m]) && ListOk(model.lists[m], model.nextId)
      {
        assert old(Chained(ms[m], lists[m])) && old(Shows(lists[m], model.lists[m]));
        ListOkLater(model.lists[m], old(model.nextId), model.nextId);
      }
    }

    method SetOperationState(state: bool)
      requires Valid()
      modifies `enabled, `model
      ensures Valid() && model == old(model).(enabled := state)
    {
      hide Inv, Placed, Threaded;
      enabled := state;
      model := model.(enabled := state);
      ListsKept();
    }

    method GenerateNextId() returns (id: nat)
      requires Valid()
      modifies `nextId, `model
      ensures Valid() && id == old(model.nextId) && model == old(model).(nextId := old(model.nextId) + 1)
    {
      hide Inv, Placed, Threaded;
      id := nextId;
      nextId := nextId + 1;
      model := model.(nextId := nextId);
      ListsKept();
    }

    method ReportNewAlarm(id: nat, mid: int, code: int, severity: Severity, told: Told)
      requires Valid()
      modifies `reports, `model
      ensures Valid() && model == old(model).(reports := old(model.reports) + [Report(id, mid, code, severity, told)])
    {
      hide Inv, Placed, Threaded;
      reports := reports + [Report(id, mid, code, severity, told)];
      model := model.(reports := reports);
      ListsKept();
    }

    method CountRaise(severity: Severity)
      requires Valid()
      modifies statistics, `model
      ensures Valid()
      ensures model == old(model).(session := Count(old(model.session), severity, 1),
                                   outstanding := Count(old(model.outstanding), severity, 1))
    {
      hide Inv, Placed, Threaded;
      statistics[0, Rank(severity)] := statistics[0, Rank(severity)] + 1;
      statistics[1, Rank(severity)] := statistics[1, Rank(severity)] + 1;
      model := model.(session := Count(model.session, severity, 1),
                      outstanding := Count(model.outstanding, severity, 1));
      ListsKept();
    }

    /** Walks all lists up to the first critical entry. */
    method UpdateOperationalState() returns (state: bool)
      requires Valid()
      modifies `enabled, `mibAccess, `model
      ensures Valid() && state == !AnyCritical(old(model.lists))
      ensures model == old(model).(enabled := state, mibAccess := old(model.mibAccess) || state)
    {
      hide Inv, Placed, AnyCritical, Chained, Shows;
      ghost var before := model;
      var i := 0;
      state := true;
      while state && i < MODULES
        invariant i <= MODULES
        invariant state <==> NoneCriticalBelow(before.lists, i)
        modifies {}
      {
        var critical := ListHasCritical(i);
        state := !critical;
        i := i + 1;
      }
      AnyCriticalIff(before.lists, i, state);
      if state && i == MODULES {
        enabled := true;
        if !mibAccess {
          mibAccess := true;
        }
      } else {
        enabled := false;
      }
      model := model.(enabled := enabled, mibAccess := mibAccess);
      ListsKept();
    }

    /** The inner loop: `break` at the first critical entry. */
    method ListHasCritical(mid: nat) returns (critical: bool)
      requires Valid() && mid < MODULES
      ensures critical <==> HasCritical(model.lists[mid])
    {
      hide Inv, Placed, Counted, Scalars;
      ghost var l, es := lists[mid], model.lists[mid];
      assert Shows(l, es) && Chained(ms[mid], l);
      var e := ms[mid];
      ghost var at := 0;
      critical := false;
      while e != null
        invariant at <= |l| && e == NodeAt(l, at)
        invariant forall i :: 0 <= i < at ==> es[i].severity != Critical
        decreases |l| - at
      {
        assert e == l[at] && e.Value() == es[at];
        if e.severity == Critical {
          return true;
        }
        e := e.next;
        at := at + 1;
      }
    }

    method UpdateModuleLastError(mid: nat, tag: int)
      requires Valid() && mid < MODULES
      modifies `lastError, `model
      ensures Valid() && model == old(model).(lastError := old(model.lastError)[tag := LastCode(old(model.lists[mid]))])
    {
      hide Inv, Placed, Threaded;
      var code := LastCodeOf(mid);
      lastError := lastError[tag := code];
      model := model.(lastError := lastError);
      ListsKept();
    }

    /** The walk to the end of the list. */
    method LastCodeOf(mid: nat) returns (code: int)
      requires Valid() && mid < MODULES
      ensures code == LastCode(model.lists[mid])
    {
      hide Inv, Placed, Counted, Scalars;
      ghost var l, es := lists[mid], model.lists[mid];
      assert Shows(l, es) && Chained(ms[mid], l);
      var e := ms[mid];
      ghost var at := 0;
      code := NO_ERROR;
      while e != null
        invariant at <= |l| && e == NodeAt(l, at)
        invariant code == if at == 0 then NO_ERROR else es[at - 1].code
        decreases |l| - at
      {
        assert e == l[at] && e.Value() == es[at];
        code := e.code;
        e := e.next;
        at := at + 1;
      }
    }

    // ----- raise -----

    /** The counter in the text of the warning: the alarm was raised once more. */
    method CountAgain(mid: nat, ghost at: nat, e: AlarmEntry)
      requires Valid() && mid < MODULES && at < |lists[mid]| && e == lists[mid][at]
      modifies pool, `model
      ensures Valid() && model == Repeated(old(model), mid, at)
    {
      hide InUse, Total, ListOk, Chained, Repeated;
      NodesDistinct();
      RepeatedInv(model, mid, at);
      RepeatedKeeps(model, mid, at);
      ghost var s := model;
      assert Shows(lists[mid], s.lists[mid]);
      e.count := e.count + 1;
      model := Repeated(model, mid, at);
      ChainsKept(lists);
      assert Placed();
      assert Shows(lists[mid], model.lists[mid]);
      assert Threaded(ms[..]);
    }

    lemma RepeatedKeeps(s: State, mid: nat, k: nat)
      requires mid < MODULES && k < |s.lists[mid]|
      ensures var s' := Repeated(s, mid, k);
              && Total(s'.lists) == Total(s.lists) && s' == s.(lists := s'.lists)
              && (forall m :: 0 <= m < MODULES && m != mid ==> s'.lists[m] == s.lists[m])
              && s'.lists[mid] == s.lists[mid][k := s.lists[mid][k].(count := s.lists[mid][k].count + 1)]
    {
      hide Total;
      TotalUpdate(s.lists, mid, Repeated(s, mid, k).lists[mid]);
    }

    twostate lemma ChainsKept(ls: seq<seq<AlarmEntry>>)
      requires ms.Length == |ls| == MODULES && unchanged(ms)
      requires forall m, i :: 0 <= m < MODULES && 0 <= i < |ls[m]| ==> ls[m][i] in pool
      requires forall m :: 0 <= m < MODULES ==> old(Chained(ms[m], ls[m]))
      requires forall k :: 0 <= k < |pool| ==> pool[k].next == old(pool[k].next)
      ensures forall m :: 0 <= m < MODULES ==> Chained(ms[m], ls[m])
    {
      forall m | 0 <= m < MODULES ensures Chained(ms[m], ls[m]) {
        assert old(Chained(ms[m], ls[m]));
      }
    }

    /** A free slot whose node is linked behind the list of `mid` already, but not filled yet. */
    ghost predicate Reserved(mid: nat, e: AlarmEntry)
      reads this, ms, statistics, pool
    {
      && Sized() && Placed() && Counted() && Scalars() && Inv(model) && Total(model.lists) < POOL
      && mid < MODULES && e.slot < POOL && pool[e.slot] == e && codes[e.slot] == NO_ERROR
      && Chained(ms[mid], lists[mid] + [e])
      && (forall m :: 0 <= m < MODULES && m != mid ==> Chained(ms[m], lists[m]))
      && (forall m :: 0 <= m < MODULES ==> Shows(lists[m], model.lists[m]))
    }

    /** The slot of `e` now holds an alarm of `mid`, all others what they held. */
    twostate lemma FilledPlaced(e: AlarmEntry)
      requires var mid := e.owner; old(Reserved(mid, e)) && lists == old(lists)[mid := old(lists)[mid] + [e]]
      requires e.code != NO_ERROR && codes == old(codes)[e.slot := e.code]
      requires forall k :: 0 <= k < POOL && k != e.slot ==>
                 pool[k].code == old(pool[k].code) && pool[k].owner == old(pool[k].owner)
      requires Total(model.lists) == old(Total(model.lists)) + 1
      ensures Sized() && Placed()
    {
      hide Total, InUse, Counted, Scalars, Inv, Chained, Shows;
      InUseUpdate(old(codes), e.slot, e.code);
      forall m, i | 0 <= m < MODULES && 0 <= i < |lists[m]| ensures lists[m][i] in pool && Member(lists[m][i], m) {
        if m != e.owner || i < |old(lists)[m]| {
          assert lists[m][i] == old(lists)[m][i];
          assert old(Member(lists[m][i], m));
        }
      }
      forall k | 0 <= k < POOL && codes[k] != NO_ERROR
        ensures pool[k].owner < MODULES && pool[k] in lists[pool[k].owner]
      {
        if k != e.slot {
          assert pool[k] in old(lists)[pool[k].owner];
        }
      }
    }

    twostate lemma FilledShown(e: AlarmEntry)
      requires var mid := e.owner; old(Reserved(mid, e)) && lists == old(lists)[mid := old(lists)[mid] + [e]]
      requires model.lists == old(model.lists)[e.owner := old(model.lists)[e.owner] + [e.Value()]]
      requires forall k :: 0 <= k < POOL && k != e.slot ==> pool[k].Value() == old(pool[k].Value())
      ensures |lists| == MODULES && forall m :: 0 <= m < MODULES ==> Shows(lists[m], model.lists[m])
    {
      hide Total, InUse, Counted, Scalars, Inv, Chained;
      forall m | 0 <= m < MODULES ensures Shows(lists[m], model.lists[m]) {
        assert old(Shows(lists[m], model.lists[m]));
        forall i | 0 <= i < |old(lists)[m]| ensures old(lists)[m][i].Value() == old(model.lists)[m][i] {
          assert old(Member(lists[m][i], m));
        }
      }
    }

    twostate lemma FilledValid(e: AlarmEntry)
      requires var mid := e.owner; old(Reserved(mid, e)) && lists == old(lists)[mid := old(lists)[mid] + [e]]
      requires e.code != NO_ERROR && codes == old(codes)[e.slot := e.code]
      requires model == old(model).(lists := old(model.lists)[e.owner := old(model.lists)[e.owner] + [e.Value()]])
      requires ListOk(model.lists[e.owner], model.nextId)
      requires unchanged(ms) && unchanged(statistics) && e.next == old(e.next)
      requires forall k :: 0 <= k < POOL && k != e.slot ==> unchanged(pool[k])
      requires Scalars()
      ensures Valid()
    {
      hide InUse, Total, ListOk, Chained, Shows, Placed;
      TotalUpdate(old(model.lists), e.owner, model.lists[e.owner]);
      FilledPlaced(e);
      FilledShown(e);
      AllInPool();
      ChainsKept(lists);
    }

    method FillEntry(mid: nat, e: AlarmEntry, id: nat, code: int, severity: Severity, now: int)
      requires Reserved(mid, e) && code != NO_ERROR
      requires ListOk(model.lists[mid] + [Entry(code, id, severity, now, 1)], model.nextId)
      modifies pool, `lists, `codes, `model
      ensures Valid()
      ensures var e := Entry(code, id, severity, now, 1);
              model == old(model).(lists := old(model.lists)[mid := old(model.lists[mid]) + [e]])
    {
      hide InUse, Total, ListOk, Chained, Shows, Placed, Inv, Counted;
      ghost var newLists := lists[mid := lists[mid] + [e]];
      e.count := 1;
      e.code := code;
      e.id := id;
      e.severity := severity;
      e.utc := now;
      e.owner := mid;
      codes := codes[e.slot := code];
      lists := newLists;
      model := model.(lists := model.lists[mid := model.lists[mid] + [e.Value()]]);
      FilledValid(e);
    }

    method AddAlarmEntry(mid: nat, tag: int, code: int, now: int)
      requires Valid() && mid < MODULES && code != NO_ERROR
      modifies this, ms, pool, statistics
      ensures Valid() && model == Raise(old(model), mid, tag, code, now)
    {
      hide Inv, Sized, Placed, Threaded, Counted, Scalars, Chained, Shows, Total, ListOk;
      ghost var before := model;
      var e, at := FindAlarmEntry(mid, code);
      NothingPastEnd(mid, at);
      if e != null {
        CountAgain(mid, at, e);
        return;
      }
      var severity := SeverityOf(code);
      CountRaise(severity);
      if severity == Critical {
        SetOperationState(false);
      }
      AppendOk(before, mid, code, now);
      // Taking the id and taking the slot do not affect each other.
      var id := GenerateNextId();
      e := AllocEntry(mid);
      if e != null {
        FillEntry(mid, e, id, code, severity, now);
      }
      UpdateModuleLastError(mid, tag);
      ReportNewAlarm(id, mid, code, severity, OfCaller);
    }

    lemma NothingPastEnd(mid: nat, at: nat)
      requires Valid() && mid < MODULES && at <= |model.lists[mid]|
      ensures |lists[mid]| == |model.lists[mid]|
      ensures NodeAt(lists[mid], at) == null <==> at == |lists[mid]|
    {
      assert Shows(lists[mid], model.lists[mid]);
    }

    lemma AppendOk(s: State, mid: nat, code: int, now: int)
      requires Inv(s) && mid < MODULES && code != NO_ERROR && FirstIndex(s.lists[mid], code) == |s.lists[mid]|
      ensures ListOk(s.lists[mid] + [Entry(code, s.nextId, SeverityOf(code), now, 1)], s.nextId + 1)
    {
      hide SeverityOf, Total;
      assert ListOk(s.lists[mid], s.nextId);
    }

    // ----- clear -----

    /** The node at `at` is out of the chain of its module already, but still in use. */
    ghost predicate Unlinked(mid: nat, at: nat, heads: seq<AlarmEntry?>)
      reads this, statistics, pool
    {
      && |heads| == MODULES && mid < MODULES
      && Sized() && Placed() && Counted() && Scalars() && Inv(model)
      && (forall m :: 0 <= m < MODULES ==> Shows(lists[m], model.lists[m]))
      && at < |lists[mid]| && at < |model.lists[mid]|
      && (forall m :: 0 <= m < MODULES ==> Chained(heads[m], lists[mid := Cut(lists[mid], at)][m]))
    }

    /** Chains that do not pass through a changed link. */
    twostate lemma ChainsStill(heads: seq<AlarmEntry?>)
      requires |heads| == |lists| == MODULES
      requires forall m, i :: 0 <= m < MODULES && 0 <= i < |lists[m]| ==> lists[m][i] in pool
      requires var ls := lists; forall m :: 0 <= m < MODULES ==> old(Chained(heads[m], ls[m]))
      requires forall m, i :: 0 <= m < MODULES && 0 <= i < |lists[m]| ==> unchanged(lists[m][i])
      ensures forall m :: 0 <= m < MODULES ==> Chained(heads[m], lists[m])
    {
      var ls := lists;
      forall m | 0 <= m < MODULES ensures Chained(heads[m], lists[m]) {
        assert old(Chained(heads[m], ls[m]));
      }
    }

    /** The slot of `e` holds no alarm any more, all others what they held. */
    twostate lemma FreedPlaced(e: AlarmEntry)
      requires old(Sized()) && old(Placed()) && e.owner < MODULES && old(Member(e, e.owner))
      requires e.code == NO_ERROR && codes == old(codes)[e.slot := NO_ERROR] && |lists| == MODULES
      requires forall m, i :: 0 <= m < MODULES && 0 <= i < |lists[m]| ==>
                 lists[m][i] in old(lists)[m] && lists[m][i] != e
      requires forall m, i :: 0 <= m < MODULES && 0 <= i < |old(lists)[m]| && old(lists)[m][i] != e ==>
                 old(lists)[m][i] in lists[m]
      requires forall k :: 0 <= k < POOL && k != e.slot ==> unchanged(pool[k])
      requires Total(model.lists) == old(Total(model.lists)) - 1
      ensures Sized() && Placed()
    {
      hide Total, InUse, Counted, Scalars, Inv, Chained, Shows;
      InUseUpdate(old(codes), e.slot, NO_ERROR);
      forall m, i | 0 <= m < MODULES && 0 <= i < |lists[m]| ensures lists[m][i] in pool && Member(lists[m][i], m) {
        var j :| 0 <= j < |old(lists)[m]| && old(lists)[m][j] == lists[m][i];
        assert old(Member(lists[m][j], m));
      }
      forall k | 0 <= k < POOL && codes[k] != NO_ERROR
        ensures pool[k].owner < MODULES && pool[k] in lists[pool[k].owner]
      {
        assert pool[k] in old(lists)[pool[k].owner];
      }
    }

    twostate lemma FreedShown(at: nat)
      requires |lists| == |old(lists)| == MODULES
      requires forall m :: 0 <= m < MODULES ==> old(Shows(lists[m], model.lists[m]))
      requires forall m, i :: 0 <= m < MODULES && 0 <= i < |lists[m]| ==> lists[m][i] in pool && unchanged(lists[m][i])
      requires forall m :: 0 <= m < MODULES ==>
                 || (lists[m] == old(lists)[m] && model.lists[m] == old(model.lists)[m])
                 || (&& at < |old(lists)[m]| && lists[m] == Cut(old(lists)[m], at)
                     && at < |old(model.lists)[m]| && model.lists[m] == Cut(old(model.lists)[m], at))
      ensures forall m :: 0 <= m < MODULES ==> Shows(lists[m], model.lists[m])
    {
      forall m | 0 <= m < MODULES ensures Shows(lists[m], model.lists[m]) {
        assert old(Shows(lists[m], model.lists[m]));
        forall i | 0 <= i < |lists[m]| ensures lists[m][i].Value() == model.lists[m][i] {
          var e := lists[m][i];
          assert e.Value() == old(e.Value());
        }
      }
    }

    /** The entry's slot is given back and its alarm no longer counted as outstanding. */
    method FreeEntry(mid: nat, ghost at: nat, e: AlarmEntry, ghost heads: seq<AlarmEntry?>)
      requires Unlinked(mid, at, heads) && e == lists[mid][at]
      modifies pool, statistics, `lists, `codes, `model
      ensures ValidFrom(heads)
      ensures lists == old(lists)[mid := Cut(old(lists)[mid], at)]
      ensures model == Freed(old(model), mid, at)
    {
      hide InUse, Total, ListOk, Chained, Shows, Placed, Inv, Freed;
      ShownAt(lists[mid], model.lists[mid], at);
      MemberAt(mid, at);
      NodesDistinctIn();
      FreedInv(model, mid, at);
      var severity := SeverityOf(e.code);
      statistics[1, Rank(severity)] := statistics[1, Rank(severity)] - 1;
      e.code := NO_ERROR;
      e.next := null;
      codes := codes[e.slot := NO_ERROR];
      lists := lists[mid := Cut(lists[mid], at)];
      model := Freed(model, mid, at);
      FreedPlaced(e);
      AllInPool();
      FreedShown(at);
      ChainsStill(heads);
    }

    lemma FreedInv(s: State, mid: nat, at: nat)
      requires Inv(s) && mid < MODULES && at < |s.lists[mid]|
      ensures Inv(Freed(s, mid, at)) && Total(Freed(s, mid, at).lists) == Total(s.lists) - 1
      ensures Freed(s, mid, at) == s.(lists := s.lists[mid := Cut(s.lists[mid], at)],
                                       outstanding := Count(s.outstanding, SeverityOf(s.lists[mid][at].code), -1))
    {
      hide SeverityOf, Total;
      TotalUpdate(s.lists, mid, Cut(s.lists[mid], at));
      assert ListOk(s.lists[mid], s.nextId);
      assert ListOk(Cut(s.lists[mid], at), s.nextId);
    }

    lemma ShownAt(l: seq<AlarmEntry>, es: seq<Entry>, i: nat)
      requires Shows(l, es) && i < |l|
      ensures |es| == |l| && l[i].Value() == es[i]
    {
    }

    lemma MemberAt(m: nat, i: nat)
      requires Sized() && Placed() && m < MODULES && i < |lists[m]|
      ensures lists[m][i] in pool && Member(lists[m][i], m)
    {
    }

    /** The walk of a clear, which keeps the node before the one it looks at. */
    method LocateEntry(mid: nat, code: int) returns (cur: AlarmEntry?, prev: AlarmEntry?, ghost at: nat)
      requires Valid() && mid < MODULES
      ensures at == FirstIndex(model.lists[mid], code) && |lists[mid]| == |model.lists[mid]|
      ensures cur == NodeAt(lists[mid], at)
      ensures prev == (if at == 0 then cur else lists[mid][at - 1]) && (cur != null ==> prev != null)
    {
      hide Inv, Placed, Counted, Scalars;
      ghost var l, es := lists[mid], model.lists[mid];
      assert Shows(l, es) && Chained(ms[mid], l);
      cur, prev := ms[mid], ms[mid];
      at := 0;
      while cur != null && cur.code != code
        invariant at <= |l| && cur == NodeAt(l, at)
        invariant prev == if at == 0 then cur else l[at - 1]
        invariant forall i :: 0 <= i < at ==> es[i].code != code
        decreases |l| - at
      {
        assert cur == l[at] && cur.Value() == es[at];
        prev := cur;
        cur := cur.next;
        at := at + 1;
      }
      assert cur != null ==> cur == l[at] && cur.Value() == es[at];
    }

    /** Takes a node out of the chain of its module. */
    method Bridge(mid: nat, ghost at: nat, cur: AlarmEntry, prev: AlarmEntry)
      requires Valid() && mid < MODULES && at < |lists[mid]| && at < |model.lists[mid]|
      requires cur == lists[mid][at] && prev == lists[mid][if at == 0 then 0 else at - 1]
      modifies ms, pool
      ensures Unlinked(mid, at, ms[..]) && cur == lists[mid][at]
    {
      hide Inv, Counted, Scalars, Shows, InUse, Total, Chained, Placed;
      NodesDistinct();
      ghost var l, links := lists[mid], Links(lists[mid]);
      ChainLinks(ms[mid], l);
      AllInPool();
      if cur == prev {
        ms[mid] := cur.next;
      } else {
        prev.next := cur.next;
      }
      OnlyLinksChanged();
      OthersKept(mid);
      ChainBridged(ms[mid], l, links, at);
    }

    /** Clears one code: the node is found, bridged over, and given back.  What is told is read off `prev`. */
    method ReleaseOne(mid: nat, code: int) returns (lastError: int, lastId: nat)
      requires Valid() && mid < MODULES && code != NO_ERROR
      modifies this, ms, pool, statistics
      ensures Valid() && model == Released(old(model), mid, code)
      ensures Earlier(lastError, lastId) == ToldByClear(old(model.lists[mid]), code)
    {
      hide Inv, Sized, Placed, Threaded, Counted, Scalars, Chained, Shows, Total, ListOk, Freed, Released;
      lastError, lastId := NO_ERROR, 0;
      var cur, prev, at := LocateEntry(mid, code);
      ReleasedIsFreed(model, mid, code);
      NothingPastEnd(mid, at);
      if cur != null {
        Bridge(mid, at, cur, prev);
        UnlinkedShown(mid, at, ms[..], if at == 0 then 0 else at - 1);
        lastError := prev.code;
        lastId := prev.id;
        FreeEntry(mid, at, cur, ms[..]);
      }
    }

    lemma UnlinkedShown(mid: nat, at: nat, heads: seq<AlarmEntry?>, i: nat)
      requires Unlinked(mid, at, heads) && i < |lists[mid]|
      ensures i < |model.lists[mid]| && lists[mid][i].Value() == model.lists[mid][i]
    {
      hide Placed, Counted, Scalars, Chained, Inv;
      assert Shows(lists[mid], model.lists[mid]);
    }

    lemma HeadUnlinked(mid: nat, heads: seq<AlarmEntry?>)
      requires ValidFrom(heads) && mid < MODULES && heads[mid] != null
      ensures Unlinked(mid, 0, heads[mid := heads[mid].next]) && heads[mid] == lists[mid][0]
      ensures heads[mid] in pool
    {
      hide Inv, Counted, Scalars, Total, InUse;
      var l := lists[mid];
      assert Chained(heads[mid], l) && Shows(l, model.lists[mid]);
      assert Cut(l, 0) == l[1..];
      MemberAt(mid, 0);
    }

    lemma NullHead(mid: nat, heads: seq<AlarmEntry?>)
      requires ValidFrom(heads) && mid < MODULES
      ensures heads[mid] == null <==> model.lists[mid] == []
    {
      assert Chained(heads[mid], lists[mid]) && Shows(lists[mid], model.lists[mid]);
    }

    /** Clears all: the module's list is taken down node by node; the last one is told of. */
    method ReleaseAll(mid: nat) returns (lastError: int, lastId: nat)
      requires Valid() && mid < MODULES
      modifies this, ms, pool, statistics
      ensures Valid() && model == Released(old(model), mid, NO_ERROR)
      ensures Earlier(lastError, lastId) == ToldByClear(old(model.lists[mid]), NO_ERROR)
    {
      hide Inv, Sized, Placed, Threaded, Counted, Scalars, Chained, Shows, Total, ListOk, Freed, Released, TakenDown;
      lastError, lastId := NO_ERROR, 0;
      ghost var before := model;
      var cur := ms[mid];
      ghost var heads := ms[..];
      assert heads[mid := cur] == heads;
      TakenDownStart(before, mid);
      ms[mid] := null;
      ghost var i := 0;
      while cur != null
        invariant ms[..] == heads[mid := null]
        invariant i <= |before.lists[mid]|
        invariant ValidFrom(heads[mid := cur]) && model == TakenDown(before, mid, i)
        invariant Earlier(lastError, lastId) == if i == 0 then EntryTold([], 0) else EntryTold(before.lists[mid], i - 1)
        decreases |before.lists[mid]| - i
      {
        var prev := cur;
        HeadUnlinked(mid, heads[mid := cur]);
        assert heads[mid := cur][mid := cur.next] == heads[mid := cur.next];
        UnlinkedShown(mid, 0, heads[mid := cur.next], 0);
        NullHead(mid, heads[mid := cur]);
        TakenDownStep(before, mid, i);
        cur := cur.next;
        assert heads[mid := prev][mid := cur] == heads[mid := cur];
        lastError := prev.code;
        lastId := prev.id;
        FreeEntry(mid, 0, prev, heads[mid := cur]);
        i := i + 1;
      }
      NullHead(mid, heads[mid := cur]);
      TakenDownEnd(before, mid, i);
    }

    method DelAlarmEntry(mid: int, tag: int, code: int) returns (status: bool)
      requires Valid()
      modifies this, ms, pool, statistics
      ensures Valid() && model == Clear(old(model), mid, tag, code) && (status <==> 0 <= mid < MODULES)
    {
      hide Inv, Sized, Placed, Threaded, Counted, Scalars, Chained, Shows, Total, ListOk, AnyCritical, Remaining,
           Removed;
      if 0 <= mid < MODULES {
        var prevAlarm, prevId;
        if code == NO_ERROR {
          prevAlarm, prevId := ReleaseAll(mid);
        } else {
          prevAlarm, prevId := ReleaseOne(mid, code);
        }
        var id := GenerateNextId();
        ReportNewAlarm(id, mid, NO_ERROR, Info, Earlier(prevAlarm, prevId));
        var state := UpdateOperationalState();
        UpdateModuleLastError(mid, tag);
        status := true;
      } else {
        status := false;
      }
    }

    /** The step function of the alarm task; shutdown and reboot end the task. */
    method ProcessAlarmMsg(m: Message) returns (quit: bool)
      requires Valid() && WellFormed(m)
      modifies this, ms, pool, statistics
      ensures Valid() && model == Step(old(model), m) && (quit <==> m.Quit?)
    {
      hide Inv, Sized, Placed, Threaded, Counted, Scalars, Chained, Shows, Total, ListOk, Raise, Clear;
      quit := false;
      match m
      case RaiseAlarm(mid, tag, code, now) => AddAlarmEntry(mid, tag, code, now);
      case ClearAlarm(mid, tag, code) =>
        var status := DelAlarmEntry(mid, tag, code);
      case Quit => quit := true;
      case Unknown =>
    }

    /** The summary counts are one octet wide. */
    method GetOutstandingAlarmCount() returns (critical: nat, major: nat, minor: nat)
      requires Valid()
      ensures critical == model.outstanding[0] % 256
      ensures major == model.outstanding[1] % 256
      ensures minor == model.outstanding[2] % 256
    {
      hide Inv, Placed, Threaded, Scalars;
      assert statistics[1, Rank(Critical)] == model.outstanding[Rank(Critical)];
      assert statistics[1, Rank(Major)] == model.outstanding[Rank(Major)];
      assert statistics[1, Rank(Minor)] == model.outstanding[Rank(Minor)];
      critical := statistics[1, 0] % 256;
      major := statistics[1, 1] % 256;
      minor := statistics[1, 2] % 256;
    }

    lemma EmptyIsValid(firstId: nat)
      requires Sized() && Counted() && Scalars() && model == Initial(enabled, mibAccess, firstId)
      requires forall m :: 0 <= m < MODULES ==> lists[m] == [] && ms[m] == null
      requires forall k :: 0 <= k < POOL ==> pool[k].code == NO_ERROR && codes[k] == NO_ERROR
      ensures Valid()
    {
      hide Inv, Total, InUse, Counted, Scalars;
      InitialInv(enabled, mibAccess, firstId);
      TotalOfEmpty(MODULES);
      NoneInUse(codes);
    }

    /** An empty pool, empty lists and zero statistics; the first id comes from the log. */
    constructor (enabled: bool, mibAccess: bool, firstId: nat)
      ensures Valid() && model == Initial(enabled, mibAccess, firstId)
      ensures fresh(ms) && fresh(pool) && fresh(statistics)
    {
      var entries := NewPool();
      pool := entries;
      ms := new AlarmEntry?[MODULES](i => null);
      statistics := new int[2, SEVERITIES]((i, j) => 0);
      this.enabled, this.mibAccess, lastError, nextId, reports := enabled, mibAccess, map[], firstId, [];
      lists, codes := seq(MODULES, i => []), seq(POOL, i => NO_ERROR);
      model := Initial(enabled, mibAccess, firstId);
      new;
      hide Valid;
      EmptyIsValid(firstId);
    }
  }

  ghost predicate NoneCriticalBelow(ls: Lists, i: nat)
    requires i <= MODULES
  {
    forall m :: 0 <= m < i ==> !HasCritical(ls[m])
  }

  lemma AnyCriticalIff(ls: Lists, i: nat, state: bool)
    requires i <= MODULES && (state ==> i == MODULES) && (state <==> NoneCriticalBelow(ls, i))
    ensures state <==> !AnyCritical(ls)
  {
    if !state {
      var m :| 0 <= m < i && HasCritical(ls[m]);
    }
  }
}
