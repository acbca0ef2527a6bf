/**
 The polling loop of the network task: four sockets, one per quality-of-service
 level, drained in strict priority.
 */
module NetDrain {

  const LEVELS: nat := 4

  /** One poll of a socket: it had nothing to read (or the call failed), or a packet was handled. */
  datatype Poll<+P> = Nothing(level: nat) | Handled(level: nat, packet: P)

  /** What happens just before a poll: packets arrive at each level, and the call may fail. */
  datatype Tick<+P> = Tick(arrivals: seq<seq<P>>, fails: bool)

  predicate WellFormed<P>(script: seq<Tick<P>>)
  {
    forall t :: 0 <= t < |script| ==> |script[t].arrivals| == 4
  }

  // ----- what a trace must satisfy -----

  /** Polls since the last packet, which are those of the levels from 0 on. */
  ghost predicate Probing<P>(trace: seq<Poll<P>>, n: nat)
  {
    && n <= |trace|
    && (n == |trace| || trace[|trace| - n - 1].Handled?)
    && forall j :: 0 <= j < n ==> trace[|trace| - n + j] == Nothing(j)
  }

  /** A packet is handled only after every higher level was found empty since the packet before. */
  ghost predicate StrictPriority<P>(trace: seq<Poll<P>>)
  {
    forall i :: 0 <= i < |trace| && trace[i].Handled? ==> Probing(trace[..i], trace[i].level)
  }

  /** The loop ends when all levels in turn had nothing. */
  ghost predicate Satisfied<P>(trace: seq<Poll<P>>)
  {
    Probing(trace, LEVELS)
  }

  /** The packets handled, in order: of one level, or of all. */
  function HandledAt<P>(trace: seq<Poll<P>>, level: nat): seq<P>
  {
    if trace == [] then []
    else
      var last := trace[|trace| - 1];
      HandledAt(trace[..|trace| - 1], level) + if last.Handled? && last.level == level then [last.packet] else []
  }

  function AllHandled<P>(trace: seq<Poll<P>>): seq<P>
  {
    if trace == [] then []
    else
      var last := trace[|trace| - 1];
      AllHandled(trace[..|trace| - 1]) + if last.Handled? then [last.packet] else []
  }

  /** The packets that arrived at a level during the first polls. */
  function Arrived<P>(script: seq<Tick<P>>, polls: nat, level: nat): seq<P>
    requires WellFormed(script) && level < LEVELS
  {
    if polls == 0 then []
    else Arrived(script, polls - 1, level) + if polls <= |script| then script[polls - 1].arrivals[level] else []
  }

  lemma StrictSnoc<P>(trace: seq<Poll<P>>, last: Poll<P>)
    requires StrictPriority(trace) && (last.Handled? ==> Probing(trace, last.level))
    ensures StrictPriority(trace + [last])
  {
    hide Probing;
    var t := trace + [last];
    forall i | 0 <= i < |t| && t[i].Handled? ensures Probing(t[..i], t[i].level) {
      if i < |trace| {
        assert t[..i] == trace[..i] && t[i] == trace[i];
      } else {
        assert t[..i] == trace;
      }
    }
  }

  lemma ProbeAgain<P>(trace: seq<Poll<P>>, n: nat)
    requires Probing(trace, n)
    ensures Probing(trace + [Nothing(n)], n + 1)
  {
    var t := trace + [Nothing(n)];
    assert |t| - (n + 1) == |trace| - n;
    forall j | 0 <= j < n + 1 ensures t[|t| - (n + 1) + j] == Nothing(j) {
      if j < n {
        assert t[|trace| - n + j] == trace[|trace| - n + j];
      }
    }
  }

  lemma ProbeAnew<P>(trace: seq<Poll<P>>, level: nat, packet: P)
    ensures Probing(trace + [Handled(level, packet)], 0)
  {
  }

  lemma HandledSnoc<P>(trace: seq<Poll<P>>, last: Poll<P>, level: nat)
    ensures HandledAt(trace + [last], level)
         == HandledAt(trace, level) + if last.Handled? && last.level == level then [last.packet] else []
    ensures AllHandled(trace + [last]) == AllHandled(trace) + if last.Handled? then [last.packet] else []
  {
    assert (trace + [last])[..|trace|] == trace;
  }

  /** Handled and waiting are what waited at the start and what arrived since. */
  ghost predicate Accounted<P>(trace: seq<Poll<P>>, queues: seq<seq<P>>, start: seq<seq<P>>, script: seq<Tick<P>>,
                               polls: nat)
    requires |queues| == |start| == LEVELS && WellFormed(script)
  {
    forall k :: 0 <= k < LEVELS ==> HandledAt(trace, k) + queues[k] == start[k] + Arrived(script, polls, k)
  }

  /** Whether the call of a poll fails. */
  predicate CallFails<P>(script: seq<Tick<P>>, poll: nat)
  {
    poll < |script| && script[poll].fails
  }

  /**
   What a poll saw was there: a call that did not fail and found nothing had
   everything of its level handled already, whatever had arrived just before it;
   a packet came from a call that did not fail.
   */
  ghost predicate TrueToSockets<P>(trace: seq<Poll<P>>, start: seq<seq<P>>, script: seq<Tick<P>>)
    requires |start| == LEVELS && WellFormed(script)
  {
    forall t :: 0 <= t < |trace| ==>
      && trace[t].level < LEVELS
      && (trace[t].Handled? ==> !CallFails(script, t))
      && (trace[t].Nothing? && !CallFails(script, t) ==>
            HandledAt(trace[..t], trace[t].level) == start[trace[t].level] + Arrived(script, t + 1, trace[t].level))
  }

  lemma TrueSnoc<P>(trace: seq<Poll<P>>, last: Poll<P>, queues: seq<seq<P>>, start: seq<seq<P>>, script: seq<Tick<P>>)
    requires |queues| == |start| == LEVELS && WellFormed(script) && TrueToSockets(trace, start, script)
    requires Accounted(trace, queues, start, script, |trace| + 1) && last.level < LEVELS
    requires last.Handled? ==> !CallFails(script, |trace|)
    requires last.Nothing? && !CallFails(script, |trace|) ==> queues[last.level] == []
    ensures TrueToSockets(trace + [last], start, script)
  {
    hide HandledAt, Arrived, CallFails;
    var all := trace + [last];
    forall t | 0 <= t < |all|
      ensures all[t].level < LEVELS && (all[t].Handled? ==> !CallFails(script, t))
      ensures all[t].Nothing? && !CallFails(script, t) ==>
                HandledAt(all[..t], all[t].level) == start[all[t].level] + Arrived(script, t + 1, all[t].level)
    {
      if t < |trace| {
        assert all[..t] == trace[..t] && all[t] == trace[t];
      } else {
        assert all[..t] == trace;
        assert HandledAt(trace, last.level) + [] == HandledAt(trace, last.level);
      }
    }
  }

  function Next<P>(queues: seq<seq<P>>, script: seq<Tick<P>>, polls: nat): (r: seq<seq<P>>)
    requires |queues| == LEVELS && WellFormed(script)
    ensures |r| == LEVELS
  {
    seq(LEVELS, k requires 0 <= k < LEVELS => queues[k] + if polls < |script| then script[polls].arrivals[k] else [])
  }

  lemma AppendBoth<P>(a: seq<P>, b: seq<P>, c: seq<P>, d: seq<P>, more: seq<P>)
    requires a + b == c + d
    ensures a + (b + more) == c + (d + more)
  {
    assert a + (b + more) == (a + b) + more;
    assert c + (d + more) == (c + d) + more;
  }

  lemma ArrivalsAccounted<P>(trace: seq<Poll<P>>, queues: seq<seq<P>>, start: seq<seq<P>>, script: seq<Tick<P>>)
    requires |queues| == |start| == LEVELS && WellFormed(script) && Accounted(trace, queues, start, script, |trace|)
    ensures Accounted(trace, Next(queues, script, |trace|), start, script, |trace| + 1)
  {
    hide HandledAt;
    forall k | 0 <= k < LEVELS
      ensures HandledAt(trace, k) + Next(queues, script, |trace|)[k] == start[k] + Arrived(script, |trace| + 1, k)
    {
      var more := if |trace| < |script| then script[|trace|].arrivals[k] else [];
      AppendBoth(HandledAt(trace, k), queues[k], start[k], Arrived(script, |trace|, k), more);
    }
  }

  lemma PacketAccounted<P>(trace: seq<Poll<P>>, queues: seq<seq<P>>, start: seq<seq<P>>, script: seq<Tick<P>>,
                           polls: nat, level: nat)
    requires |queues| == |start| == LEVELS && WellFormed(script) && Accounted(trace, queues, start, script, polls)
    requires level < LEVELS && queues[level] != []
    ensures Accounted(trace + [Handled(level, queues[level][0])], queues[level := queues[level][1..]], start, script,
                      polls)
  {
    hide HandledAt, Arrived;
    forall k | 0 <= k < LEVELS
      ensures HandledAt(trace + [Handled(level, queues[level][0])], k) + queues[level := queues[level][1..]][k]
           == start[k] + Arrived(script, polls, k)
    {
      HandledSnoc(trace, Handled(level, queues[level][0]), k);
      if k == level {
        assert HandledAt(trace, k) + [queues[k][0]] + queues[k][1..] == HandledAt(trace, k) + queues[k];
      }
    }
  }

  lemma ProbeAccounted<P>(trace: seq<Poll<P>>, queues: seq<seq<P>>, start: seq<seq<P>>, script: seq<Tick<P>>,
                          polls: nat, level: nat)
    requires |queues| == |start| == LEVELS && WellFormed(script) && Accounted(trace, queues, start, script, polls)
    ensures Accounted(trace + [Nothing(level)], queues, start, script, polls)
  {
    hide HandledAt, Arrived;
    forall k | 0 <= k < LEVELS
      ensures HandledAt(trace + [Nothing(level)], k) + queues[k] == start[k] + Arrived(script, polls, k)
    {
      HandledSnoc(trace, Nothing(level), k);
    }
  }

  function Sizes<P>(queues: seq<seq<P>>): nat
  {
    if queues == [] then 0 else |queues[0]| + Sizes(queues[1..])
  }

  function Coming<P>(script: seq<Tick<P>>, polls: nat): nat
    decreases |script| - polls
  {
    if polls >= |script| then 0 else Sizes(script[polls].arrivals) + Coming(script, polls + 1)
  }

  lemma {:induction false} SizesUpdate<P>(queues: seq<seq<P>>, k: nat, q: seq<P>)
    requires k < |queues|
    ensures Sizes(queues[k := q]) == Sizes(queues) - |queues[k]| + |q|
  {
    if k > 0 {
      assert queues[k := q][1..] == queues[1..][k - 1 := q];
      SizesUpdate(queues[1..], k - 1, q);
    } else {
      assert queues[0 := q][1..] == queues[1..];
    }
  }

  lemma {:induction false} SizesAdd<P>(a: seq<seq<P>>, b: seq<seq<P>>, c: seq<seq<P>>)
    requires |a| == |b| == |c| && forall k :: 0 <= k < |a| ==> c[k] == a[k] + b[k]
    ensures Sizes(c) == Sizes(a) + Sizes(b)
  {
    if a != [] {
      SizesAdd(a[1..], b[1..], c[1..]);
    }
  }

  // ----- the loop -----

  /** Packets that come in before a poll go behind those waiting. */
  method Arrive<P>(queues: array<seq<P>>, script: seq<Tick<P>>, polls: nat) returns (fails: bool)
    requires queues.Length == LEVELS && WellFormed(script)
    modifies queues
    ensures queues[..] == Next(old(queues[..]), script, polls)
    ensures fails == CallFails(script, polls)
    ensures Sizes(queues[..]) + Coming(script, polls + 1) == Sizes(old(queues[..])) + Coming(script, polls)
    ensures script == [] ==> !fails && queues[..] == old(queues[..])
  {
    ghost var before := queues[..];
    if polls < |script| {
      for k := 0 to LEVELS
        invariant forall j :: 0 <= j < k ==> queues[j] == before[j] + script[polls].arrivals[j]
        invariant forall j :: k <= j < LEVELS ==> queues[j] == before[j]
      {
        queues[k] := queues[k] + script[polls].arrivals[k];
      }
      SizesAdd(before, script[polls].arrivals, queues[..]);
      fails := script[polls].fails;
    } else {
      forall k | 0 <= k < LEVELS ensures Next(before, script, polls)[k] == before[k] {
        assert before[k] + [] == before[k];
      }
      fails := false;
    }
  }

  /**
   One round of draining.  Whatever arrives meanwhile and whichever calls fail:
   the loop ends, in strict priority, no waiting packet is overlooked, every
   packet of a level is handled in the order of arrival, and none is lost.
   */
  method Drain<P>(queues: array<seq<P>>, script: seq<Tick<P>>) returns (trace: seq<Poll<P>>)
    requires queues.Length == LEVELS && WellFormed(script)
    modifies queues
    ensures StrictPriority(trace) && Satisfied(trace) && TrueToSockets(trace, old(queues[..]), script)
    ensures forall k :: 0 <= k < LEVELS ==>
              HandledAt(trace, k) + queues[k] == old(queues[k]) + Arrived(script, |trace|, k)
    ensures script == [] ==> AllHandled(trace) == old(queues[0] + queues[1] + queues[2] + queues[3])
  {
    hide StrictPriority, Probing, Accounted, HandledAt, AllHandled, Next, Sizes, Coming, Waiting, TrueToSockets,
         CallFails;
    trace := [];
    ghost var start := queues[..];
    NothingPolled(start, script);
    var noRxCounter, count, satisfied := 0, 0, false;
    while !satisfied
      invariant noRxCounter <= LEVELS && (satisfied <==> noRxCounter == LEVELS)
      invariant count == if satisfied then 0 else noRxCounter
      invariant Probing(trace, noRxCounter) && StrictPriority(trace)
      invariant Accounted(trace, queues[..], start, script, |trace|) && TrueToSockets(trace, start, script)
      invariant script == [] ==> forall j :: 0 <= j < noRxCounter ==> queues[j] == []
      invariant script == [] ==> AllHandled(trace) + Waiting(queues[..]) == Waiting(start)
      decreases Sizes(queues[..]) + Coming(script, |trace|), LEVELS - noRxCounter
    {
      ghost var before := trace;
      ArrivalsAccounted(trace, queues[..], start, script);
      var fails := Arrive(queues, script, |trace|);
      ghost var qs := queues[..];
      if !fails && queues[count] != [] {
        var packet := queues[count][0];
        TakeHead(before, qs, count);
        TrueSnoc(before, Handled(count, packet), qs, start, script);
        PacketAccounted(before, qs, start, script, |before| + 1, count);
        StrictSnoc(before, Handled(count, packet));
        ProbeAnew(before, count, packet);
        queues[count] := queues[count][1..];
        assert queues[..] == qs[count := qs[count][1..]];
        trace := trace + [Handled(count, packet)];
        noRxCounter := 0;
        count := 0;
      } else {
        TrueSnoc(before, Nothing(count), qs, start, script);
        ProbeAccounted(before, qs, start, script, |before| + 1, count);
        StrictSnoc(before, Nothing(count));
        ProbeAgain(before, count);
        HandledSnoc(before, Nothing(count), 0);
        trace := trace + [Nothing(count)];
        count := count + 1;
        noRxCounter := noRxCounter + 1;
      }
      if count == LEVELS {
        count := 0;
      }
      if noRxCounter == LEVELS {
        satisfied := true;
      }
    }
    NothingWaiting(queues[..], start);
    AccountedMeans(trace, queues[..], start, script, |trace|);
  }

  lemma NothingPolled<P>(start: seq<seq<P>>, script: seq<Tick<P>>)
    requires |start| == LEVELS && WellFormed(script)
    ensures Probing<P>([], 0) && StrictPriority<P>([]) && TrueToSockets([], start, script)
    ensures Accounted([], start, start, script, 0) && AllHandled<P>([]) + Waiting(start) == Waiting(start)
  {
    forall k | 0 <= k < LEVELS ensures HandledAt<P>([], k) + start[k] == start[k] + Arrived(script, 0, k) {
      assert [] + start[k] == start[k] + [];
    }
  }

  lemma AccountedMeans<P>(trace: seq<Poll<P>>, queues: seq<seq<P>>, start: seq<seq<P>>, script: seq<Tick<P>>,
                          polls: nat)
    requires |queues| == |start| == LEVELS && WellFormed(script) && Accounted(trace, queues, start, script, polls)
    ensures forall k :: 0 <= k < LEVELS ==> HandledAt(trace, k) + queues[k] == start[k] + Arrived(script, polls, k)
  {
  }

  /** All that waits, highest priority first. */
  function Waiting<P>(queues: seq<seq<P>>): seq<P>
    requires |queues| == LEVELS
  {
    queues[0] + queues[1] + queues[2] + queues[3]
  }

  lemma NothingWaiting<P>(queues: seq<seq<P>>, start: seq<seq<P>>)
    requires |queues| == |start| == LEVELS
    ensures (forall j :: 0 <= j < LEVELS ==> queues[j] == []) ==> Waiting(queues) == []
    ensures Waiting(start) == start[0] + start[1] + start[2] + start[3]
  {
  }

  lemma TakeHead<P>(trace: seq<Poll<P>>, queues: seq<seq<P>>, k: nat)
    requires |queues| == LEVELS && k < LEVELS && queues[k] != []
    ensures var rest := queues[k := queues[k][1..]];
            && Sizes(rest) == Sizes(queues) - 1
            && ((forall j :: 0 <= j < k ==> queues[j] == []) ==>
                  AllHandled(trace + [Handled(k, queues[k][0])]) + Waiting(rest) == AllHandled(trace) + Waiting(queues))
  {
    hide AllHandled, Sizes;
    SizesUpdate(queues, k, queues[k][1..]);
    HandledSnoc(trace, Handled(k, queues[k][0]), k);
    var rest := queues[k := queues[k][1..]];
    if forall j :: 0 <= j < k ==> queues[j] == [] {
      assert Waiting(queues) == [queues[k][0]] + Waiting(rest);
      assert AllHandled(trace) + ([queues[k][0]] + Waiting(rest)) == AllHandled(trace) + [queues[k][0]] + Waiting(rest);
    }
  }
}
