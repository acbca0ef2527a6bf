/**
 The counter of running time per measurement interval.  Its partner is a count
 of the clock ticks at which the timer is on, read off the history of calls.
 */
module PmCounter {

  datatype Event = Start(time: nat) | Stop(time: nat) | Advance(time: nat)

  predicate InOrder(es: seq<Event>)
  {
    forall i, j :: 0 <= i < j < |es| ==> es[i].time <= es[j].time
  }

  // ----- the reference: which ticks count -----

  /** Whether the timer is on during the tick that begins at `tick`. */
  predicate OnAt(es: seq<Event>, tick: nat)
  {
    if es == [] then false
    else
      var last := es[|es| - 1];
      if last.time <= tick && !last.Advance? then last.Start? else OnAt(es[..|es| - 1], tick)
  }

  /** The number of ticks before `now` at which the timer is on. */
  function RunningTicks(es: seq<Event>, now: nat): nat
  {
    if now == 0 then 0 else RunningTicks(es, now - 1) + if OnAt(es, now - 1) then 1 else 0
  }

  function Sum(s: seq<int>): int
  {
    if s == [] then 0 else Sum(s[..|s| - 1]) + s[|s| - 1]
  }

  // ----- the counter on values -----

  /** The current interval, with the values and the end times of the intervals closed so far. */
  datatype Counter = Counter(accum: int, since: int, on: bool, closed: seq<int>, ends: seq<nat>)

  const RESET := Counter(0, 0, false, [], [])

  function Step(c: Counter, e: Event): Counter
  {
    match e
    case Start(now) => if c.on then c else c.(since := now, on := true)
    case Stop(now) => if c.on then c.(accum := c.accum + (now - c.since), on := false) else c
    case Advance(now) =>
      if c.on then Counter(0, now, true, c.closed + [c.accum + (now - c.since)], c.ends + [now])
      else Counter(0, 0, false, c.closed + [c.accum], c.ends + [now])
  }

  function Run(es: seq<Event>): Counter
  {
    if es == [] then RESET else Step(Run(es[..|es| - 1]), es[|es| - 1])
  }

  function ValueAt(c: Counter, now: nat): int
  {
    if c.on then c.accum + now - c.since else c.accum
  }

  /** When intervals were closed. */
  function Closings(es: seq<Event>): seq<nat>
  {
    if es == [] then []
    else Closings(es[..|es| - 1]) + if es[|es| - 1].Advance? then [es[|es| - 1].time] else []
  }

  lemma {:induction false} EndsAreClosings(es: seq<Event>)
    ensures Run(es).ends == Closings(es)
  {
    if es != [] {
      EndsAreClosings(es[..|es| - 1]);
    }
  }

  // ----- conservation -----

  /** When interval `k` begins. */
  function Begin(c: Counter, k: nat): nat
    requires k <= |c.ends|
  {
    if k == 0 then 0 else c.ends[k - 1]
  }

  lemma {:induction false} LaterEventDoesNotCount(es: seq<Event>, e: Event, now: nat)
    requires now <= e.time
    ensures RunningTicks(es + [e], now) == RunningTicks(es, now)
  {
    if now > 0 {
      LaterEventDoesNotCount(es, e, now - 1);
      assert (es + [e])[..|es|] == es;
    }
  }

  /** After the last event the state of the timer does not change any more. */
  lemma {:induction false} TicksSinceLastEvent(es: seq<Event>, on: bool, from: nat, now: nat)
    requires from <= now && forall t: nat :: from <= t < now ==> OnAt(es, t) == on
    ensures RunningTicks(es, now) == RunningTicks(es, from) + if on then now - from else 0
  {
    if from < now {
      TicksSinceLastEvent(es, on, from, now - 1);
      assert OnAt(es, now - 1) == on;
    }
  }

  lemma {:induction false} OnIsOnAt(es: seq<Event>, t: nat)
    requires forall i :: 0 <= i < |es| ==> es[i].time <= t
    ensures OnAt(es, t) == Run(es).on
  {
    if es != [] {
      OnIsOnAt(es[..|es| - 1], t);
    }
  }

  /** Every closed interval holds exactly the ticks between its ends, the current one those since. */
  ghost predicate Exact(es: seq<Event>, c: Counter, now: nat)
  {
    && |c.closed| == |c.ends|
    && (forall k :: 0 <= k < |c.ends| ==> Begin(c, k) <= c.ends[k] <= now)
    && (forall k :: 0 <= k < |c.closed| ==> c.closed[k] == RunningTicks(es, c.ends[k]) - RunningTicks(es, Begin(c, k)))
    && ValueAt(c, now) == RunningTicks(es, now) - RunningTicks(es, Begin(c, |c.ends|))
  }

  lemma {:induction false} ExactRun(es: seq<Event>, now: nat)
    requires InOrder(es) && forall i :: 0 <= i < |es| ==> es[i].time <= now
    ensures Exact(es, Run(es), now)
  {
    if es == [] {
      TicksSinceLastEvent([], false, 0, now);
    } else {
      var init, e := es[..|es| - 1], es[|es| - 1];
      ExactRun(init, e.time);
      assert es == init + [e];
      ExactStep(init, e);
      assert Run(es) == Step(Run(init), e);
      ExactLater(es, e.time, now);
    }
  }

  lemma ExactLater(es: seq<Event>, from: nat, now: nat)
    requires Exact(es, Run(es), from) && from <= now && forall i :: 0 <= i < |es| ==> es[i].time <= from
    ensures Exact(es, Run(es), now)
  {
    hide Run, RunningTicks, Begin;
    forall t: nat | from <= t < now ensures OnAt(es, t) == Run(es).on {
      OnIsOnAt(es, t);
    }
    TicksSinceLastEvent(es, Run(es).on, from, now);
  }

  lemma ExactStep(es: seq<Event>, e: Event)
    requires Exact(es, Run(es), e.time)
    ensures Exact(es + [e], Step(Run(es), e), e.time)
  {
    hide RunningTicks, Run;
    var c, c', all := Run(es), Step(Run(es), e), es + [e];
    var n := |c.ends|;
    LaterEventDoesNotCount(es, e, e.time);
    forall k | 0 <= k <= n ensures RunningTicks(all, Begin(c, k)) == RunningTicks(es, Begin(c, k)) {
      LaterEventDoesNotCount(es, e, Begin(c, k));
    }
    forall k | 0 <= k < |c'.closed|
      ensures c'.closed[k] == RunningTicks(all, c'.ends[k]) - RunningTicks(all, Begin(c', k))
    {
      assert Begin(c', k) == Begin(c, k);
      if k < n {
        assert Begin(c, k + 1) == c.ends[k];
      }
    }
  }

  lemma {:induction false} ClosedTelescope(es: seq<Event>, c: Counter, now: nat, k: nat)
    requires Exact(es, c, now) && k <= |c.closed|
    ensures Sum(c.closed[..k]) == RunningTicks(es, Begin(c, k))
  {
    if k > 0 {
      ClosedTelescope(es, c, now, k - 1);
      assert c.closed[..k][..k - 1] == c.closed[..k - 1];
    }
  }

  /**
   For any interleaving of start, stop and interval changes after a reset, at
   any later time: the closed intervals and the current value together are the
   ticks at which the timer was on, and each closed interval, from one change to
   the next, has its own ticks.
   */
  lemma RunningTimeConserved(es: seq<Event>, now: nat)
    requires InOrder(es) && forall i :: 0 <= i < |es| ==> es[i].time <= now
    ensures var c := Run(es);
            && Sum(c.closed) + ValueAt(c, now) == RunningTicks(es, now)
            && |c.closed| == |c.ends| && c.ends == Closings(es) && c.on == OnAt(es, now)
            && forall k :: 0 <= k < |c.closed| ==>
                 c.closed[k] == RunningTicks(es, c.ends[k]) - RunningTicks(es, Begin(c, k))
  {
    hide RunningTicks, Run, OnAt, Closings;
    EndsAreClosings(es);
    OnIsOnAt(es, now);
    ExactRun(es, now);
    var c := Run(es);
    ClosedTelescope(es, c, now, |c.closed|);
    assert c.closed[..|c.closed|] == c.closed;
  }

  // ----- the counter as it is kept -----

  /** The interval `k` before `current` on a ring of `n`. */
  function Back(current: int, n: int, k: int): int
  {
    if k <= current then current - k else current - k + n
  }

  lemma NextIndex(current: nat, n: nat)
    requires current < n
    ensures (current + 1) % n == if current + 1 == n then 0 else current + 1
  {
  }

  class AccumTimeCounter {
    const intervals: nat
    const accumValue: array<int>
    const lastStart: array<int>
    const state: array<bool>
    var currentInterval: nat
    ghost var model: Counter

    /** The current interval is the model's; as many closed ones as fit are still there. */
    ghost predicate Valid()
      reads this, accumValue, lastStart, state
    {
      && accumValue.Length == lastStart.Length == state.Length == intervals && currentInterval < intervals
      && accumValue != lastStart
      && accumValue[currentInterval] == model.accum
      && state[currentInterval] == model.on
      && (model.on ==> lastStart[currentInterval] == model.since)
      && forall k :: 1 <= k < intervals && k <= |model.closed| ==>
           accumValue[Back(currentInterval, intervals, k)] == model.closed[|model.closed| - k]
    }

    constructor (intervals: nat)
      requires intervals >= 1
      ensures Valid() && model == RESET && this.intervals == intervals
      ensures fresh(accumValue) && fresh(lastStart) && fresh(state)
    {
      this.intervals := intervals;
      accumValue, lastStart, state := new int[intervals], new int[intervals], new bool[intervals];
      currentInterval, model := 0, RESET;
      new;
      Reset();
    }

    method Reset()
      requires accumValue.Length == lastStart.Length == state.Length == intervals >= 1 && accumValue != lastStart
      modifies this, accumValue, lastStart, state
      ensures Valid() && model == RESET
    {
      currentInterval := 0;
      for i := 0 to intervals
        invariant currentInterval == 0
        invariant forall k :: 0 <= k < i ==> accumValue[k] == 0 && lastStart[k] == 0 && !state[k]
      {
        accumValue[i] := 0;
        lastStart[i] := 0;
        state[i] := false;
      }
      model := RESET;
    }

    method Start(now: nat)
      requires Valid()
      modifies this, lastStart, state
      ensures Valid() && model == Step(old(model), Event.Start(now))
    {
      if !state[currentInterval] {
        lastStart[currentInterval] := now;
        state[currentInterval] := true;
      }
      model := Step(model, Event.Start(now));
    }

    method Stop(now: nat)
      requires Valid()
      modifies this, accumValue, state
      ensures Valid() && model == Step(old(model), Event.Stop(now))
    {
      if state[currentInterval] {
        accumValue[currentInterval] := accumValue[currentInterval] + (now - lastStart[currentInterval]);
        state[currentInterval] := false;
      }
      model := Step(model, Event.Stop(now));
    }

    method GetValue(now: nat) returns (value: int)
      requires Valid()
      ensures value == ValueAt(model, now)
    {
      if state[currentInterval] {
        value := accumValue[currentInterval] + now - lastStart[currentInterval];
      } else {
        value := accumValue[currentInterval];
      }
    }

    method AdvanceInterval(now: nat)
      requires Valid()
      modifies this, accumValue, lastStart, state
      ensures Valid() && model == Step(old(model), Event.Advance(now))
    {
      NextIndex(currentInterval, intervals);
      if state[currentInterval] {
        accumValue[currentInterval] := accumValue[currentInterval] + (now - lastStart[currentInterval]);
        state[currentInterval] := false;
        currentInterval := (currentInterval + 1) % intervals;
        lastStart[currentInterval] := now;
        accumValue[currentInterval] := 0;
        state[currentInterval] := true;
      } else {
        currentInterval := (currentInterval + 1) % intervals;
        lastStart[currentInterval] := 0;
        accumValue[currentInterval] := 0;
        state[currentInterval] := false;
      }
      model := Step(model, Event.Advance(now));
      forall k | 1 <= k < intervals && k <= |model.closed|
        ensures accumValue[Back(currentInterval, intervals, k)] == model.closed[|model.closed| - k]
      {
        assert Back(currentInterval, intervals, k) == Back(old(currentInterval), intervals, k - 1);
        assert k > 1 ==>
          old(accumValue[Back(currentInterval, intervals, k - 1)] == model.closed[|model.closed| - (k - 1)]);
      }
    }
  }
}
