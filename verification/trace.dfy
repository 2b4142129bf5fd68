/**
 The filter over a whole stream of events. The run loop invokes the
 callback once per event, in order, and the globals carry the memory from
 one call to the next; here that is a left fold of `Step` over a sequence of
 observations.

 The central fact is `StateIsLastAccepted`: the memory before any event is
 the key and second clock reading of the most recent accepted key-down (or
 the initial memory if there was none). Everything else about traces
 follows from it: bursts are measured against the same accepted press,
 another key in between disarms the filter, and two accepted target-key
 presses with only suppressed ones between them have a `delta_us` beyond
 the window (and, on a clock that did not step back, more than the window
 of real time between them).
 */
module Trace {
  import opened Time
  import opened Debounce

  /** One invocation of the callback: the event delivered, the clock reading
      used to measure elapsed time, and the later reading stored as the new
      `start` if the event is accepted. */
  datatype Observation = Observation(event: Event, now: Timespec, restamp: Timespec)

  /** The events handed back, one per observation, and the memory left. */
  datatype Outcome = Outcome(outs: seq<Event>, final: FilterState)

  function Feed(s: FilterState, o: Observation): Reply
  {
    Step(s, o.event, o.now, o.restamp)
  }

  /** A key-down handed back unchanged: the callback let it through and
      reset its memory to it. */
  predicate Accepted(o: Observation, out: Event)
  {
    o.event.kind == KeyDown && out == o.event
  }

  predicate NoneAcceptedIn(obs: seq<Observation>, outs: seq<Event>, lo: int, hi: int)
    requires |outs| == |obs|
    requires 0 <= lo <= hi <= |obs|
  {
    forall i :: lo <= i < hi ==> !Accepted(obs[i], outs[i])
  }

  /** The callback applied to each observation in turn, threading the
      memory. Every event comes back, in order, with its type kept, either
      as it was or with only its keycode field replaced by -1. */
  function Run(s: FilterState, obs: seq<Observation>): (r: Outcome)
    ensures |r.outs| == |obs|
    ensures forall i {:trigger r.outs[i]} :: 0 <= i < |obs| ==>
              r.outs[i] == obs[i].event || r.outs[i] == obs[i].event.(keycodeField := SUPPRESSED_FIELD)
    ensures forall i {:trigger r.outs[i]} :: 0 <= i < |obs| ==> r.outs[i].kind == obs[i].event.kind
    decreases |obs|
  {
    if obs == [] then
      Outcome([], s)
    else
      var reply := Feed(s, obs[0]);
      var rest := Run(reply.state, obs[1..]);
      assert forall i :: 1 <= i < |obs| ==> obs[1..][i - 1] == obs[i];
      Outcome([reply.event] + rest.outs, rest.final)
  }

  /** The serial run loop: the callback invoked on each observation in turn
      with the memory carried between calls in variables, as the globals
      carry it. It hands back the same events and leaves the same memory as
      the fold `Run`. */
  method DeliverAll(s0: FilterState, obs: seq<Observation>) returns (outs: seq<Event>, s: FilterState)
    ensures outs == Run(s0, obs).outs
    ensures s == Run(s0, obs).final
  {
    outs := [];
    s := s0;
    var i := 0;
    while i < |obs|
      invariant 0 <= i <= |obs|
      invariant outs + Run(s, obs[i..]).outs == Run(s0, obs).outs
      invariant Run(s, obs[i..]).final == Run(s0, obs).final
    {
      var reply := Step(s, obs[i].event, obs[i].now, obs[i].restamp);
      var rest := Run(reply.state, obs[i + 1..]);
      assert obs[i..][0] == obs[i] && obs[i..][1..] == obs[i + 1..];
      assert Run(s, obs[i..]) == Outcome([reply.event] + rest.outs, rest.final);
      assert outs + ([reply.event] + rest.outs) == (outs + [reply.event]) + rest.outs;
      outs := outs + [reply.event];
      s := reply.state;
      i := i + 1;
    }
  }

  /** Running two streams one after the other is running their
      concatenation. */
  lemma {:induction false} RunAppend(s: FilterState, a: seq<Observation>, b: seq<Observation>)
    ensures Run(s, a + b).outs == Run(s, a).outs + Run(Run(s, a).final, b).outs
    ensures Run(s, a + b).final == Run(Run(s, a).final, b).final
    decreases |a|
  {
    if a == [] {
      assert a + b == b;
    } else {
      var ab := a + b;
      assert ab[0] == a[0] && ab[1..] == a[1..] + b;
      RunAppend(Feed(s, a[0]).state, a[1..], b);
    }
  }

  /** The event handed back at position `j` is what the callback makes of
      `obs[j]` given the memory left by the first `j` observations. */
  lemma {:induction false} RunAt(s: FilterState, obs: seq<Observation>, j: int)
    requires 0 <= j < |obs|
    ensures Run(s, obs[..j]).outs == Run(s, obs).outs[..j]
    ensures Run(s, obs).outs[j] == Feed(Run(s, obs[..j]).final, obs[j]).event
    ensures Run(s, obs[..j + 1]).final == Feed(Run(s, obs[..j]).final, obs[j]).state
  {
    assert obs == obs[..j] + obs[j..];
    RunAppend(s, obs[..j], obs[j..]);
    assert obs[..j + 1] == obs[..j] + [obs[j]];
    RunAppend(s, obs[..j], [obs[j]]);
  }

  /** The position of the most recent accepted key-down before `j`, or -1
      if there is none. */
  function LastAccepted(obs: seq<Observation>, outs: seq<Event>, j: int): (k: int)
    requires |outs| == |obs|
    requires 0 <= j <= |obs|
    ensures -1 <= k < j
    ensures 0 <= k ==> Accepted(obs[k], outs[k])
    ensures NoneAcceptedIn(obs, outs, k + 1, j)
    decreases j
  {
    if j == 0 then -1
    else if Accepted(obs[j - 1], outs[j - 1]) then j - 1
    else LastAccepted(obs, outs, j - 1)
  }

  /** The memory after a stream in which no key-down was accepted is the
      memory before it: a suppressed press changes nothing. */
  lemma {:induction false} QuietRunKeepsState(s: FilterState, obs: seq<Observation>)
    requires NoneAcceptedIn(obs, Run(s, obs).outs, 0, |obs|)
    ensures Run(s, obs).final == s
    decreases |obs|
  {
    if obs != [] {
      var reply := Feed(s, obs[0]);
      assert Run(s, obs).outs[0] == reply.event;
      assert reply.state == s;
      var outs := Run(s, obs).outs;
      assert Run(s, obs[1..]).outs == outs[1..];
      forall i | 0 <= i < |obs[1..]|
        ensures !Accepted(obs[1..][i], Run(s, obs[1..]).outs[i])
      {
        assert obs[1..][i] == obs[i + 1];
        assert !Accepted(obs[i + 1], outs[i + 1]);
      }
      QuietRunKeepsState(s, obs[1..]);
    }
  }

  /** The memory left by a stream whose last accepted key-down is at `j` is
      that key-down's key and second clock reading. */
  lemma {:induction false} FinalIsLastAccepted(s: FilterState, obs: seq<Observation>, j: int)
    requires 0 <= j < |obs|
    requires Accepted(obs[j], Run(s, obs).outs[j])
    requires NoneAcceptedIn(obs, Run(s, obs).outs, j + 1, |obs|)
    ensures Run(s, obs).final == FilterState(KeyOf(obs[j].event.keycodeField), obs[j].restamp)
    decreases |obs|
  {
    var reply := Feed(s, obs[0]);
    var outs := Run(s, obs).outs;
    var tail := Run(reply.state, obs[1..]).outs;
    assert tail == outs[1..];
    if j == 0 {
      assert reply.event == obs[0].event;
      assert reply.state == FilterState(KeyOf(obs[0].event.keycodeField), obs[0].restamp);
      forall i | 0 <= i < |obs[1..]|
        ensures !Accepted(obs[1..][i], tail[i])
      {
        assert obs[1..][i] == obs[i + 1];
        assert !Accepted(obs[i + 1], outs[i + 1]);
      }
      QuietRunKeepsState(reply.state, obs[1..]);
    } else {
      assert obs[1..][j - 1] == obs[j];
      forall i | j <= i < |obs[1..]|
        ensures !Accepted(obs[1..][i], tail[i])
      {
        assert obs[1..][i] == obs[i + 1];
        assert !Accepted(obs[i + 1], outs[i + 1]);
      }
      FinalIsLastAccepted(reply.state, obs[1..], j - 1);
    }
  }

  /** The memory the callback holds when `obs[j]` arrives: the key and
      second clock reading of the most recent accepted key-down before `j`,
      or the starting memory if no key-down has been accepted yet. */
  lemma {:induction false} StateIsLastAccepted(s: FilterState, obs: seq<Observation>, j: int)
    requires 0 <= j <= |obs|
    ensures var k := LastAccepted(obs, Run(s, obs).outs, j);
            Run(s, obs[..j]).final ==
              if k < 0 then s
              else FilterState(KeyOf(obs[k].event.keycodeField), obs[k].restamp)
  {
    var outs := Run(s, obs).outs;
    var k := LastAccepted(obs, outs, j);
    var prefix := obs[..j];
    assert prefix == obs[..j];
    var pouts := Run(s, prefix).outs;
    if j < |obs| {
      RunAt(s, obs, j);
    } else {
      assert prefix == obs;
    }
    assert pouts == outs[..j];
    forall i | k + 1 <= i < j
      ensures !Accepted(prefix[i], pouts[i])
    {
      assert !Accepted(obs[i], outs[i]);
    }
    if k < 0 {
      QuietRunKeepsState(s, prefix);
    } else {
      assert Accepted(prefix[k], pouts[k]);
      FinalIsLastAccepted(s, prefix, k);
    }
  }

  /** The decision over a stream started from the process's initial memory,
      in terms of the stream alone: a key-down is suppressed exactly when it
      is the target key, the most recent accepted key-down before it exists
      and is the target key too, and `delta_us` (the wrapped elapsed-time
      formula) from that press's second clock reading to this one's first
      reading is at most `WINDOW_US`. */
  lemma {:induction false} SuppressedIffBounceOfLastAccepted(t0: Timespec, obs: seq<Observation>, j: int)
    requires 0 <= j < |obs|
    requires obs[j].event.kind == KeyDown
    ensures var outs := Run(Initial(t0), obs).outs;
            var k := LastAccepted(obs, outs, j);
            outs[j] != obs[j].event <==>
              && KeyOf(obs[j].event.keycodeField) == TARGET_KEY
              && 0 <= k
              && KeyOf(obs[k].event.keycodeField) == TARGET_KEY
              && DeltaUs(obs[k].restamp, obs[j].now) <= WINDOW_US
  {
    StateIsLastAccepted(Initial(t0), obs, j);
    RunAt(Initial(t0), obs, j);
  }

  /** The first key-down of the process is accepted whatever it is: no
      key-down before it has set the memory to the target key. */
  lemma {:induction false} FirstKeyDownPasses(t0: Timespec, obs: seq<Observation>, j: int)
    requires 0 <= j < |obs|
    requires obs[j].event.kind == KeyDown
    requires forall i :: 0 <= i < j ==> obs[i].event.kind != KeyDown
    ensures Run(Initial(t0), obs).outs[j] == obs[j].event
  {
    SuppressedIffBounceOfLastAccepted(t0, obs, j);
  }

  /** Two accepted presses of the target key with no key-down accepted
      between them have a `delta_us` (the wrapped elapsed-time formula) of
      more than `WINDOW_US` from the first's second clock reading to the
      second's first reading. */
  lemma {:induction false} AcceptedTargetPressesAreSpaced(s: FilterState, obs: seq<Observation>, i: int, j: int)
    requires 0 <= i < j < |obs|
    requires KeyOf(obs[i].event.keycodeField) == TARGET_KEY
    requires KeyOf(obs[j].event.keycodeField) == TARGET_KEY
    requires Accepted(obs[i], Run(s, obs).outs[i])
    requires Accepted(obs[j], Run(s, obs).outs[j])
    requires NoneAcceptedIn(obs, Run(s, obs).outs, i + 1, j)
    ensures DeltaUs(obs[i].restamp, obs[j].now) > WINDOW_US
  {
    var outs := Run(s, obs).outs;
    assert LastAccepted(obs, outs, j) == i;
    StateIsLastAccepted(s, obs, j);
    RunAt(s, obs, j);
  }

  /** The same spacing in real time, for a clock that did not step back
      between the two presses: more than 200 ms of exact elapsed time
      separate the first press's clock reading from the second's. Without
      that assumption `delta_us` can exceed the window because a negative
      difference wrapped around. */
  lemma AcceptedTargetPressesAreSpacedInRealTime(s: FilterState, obs: seq<Observation>, i: int, j: int)
    requires 0 <= i < j < |obs|
    requires KeyOf(obs[i].event.keycodeField) == TARGET_KEY
    requires KeyOf(obs[j].event.keycodeField) == TARGET_KEY
    requires Accepted(obs[i], Run(s, obs).outs[i])
    requires Accepted(obs[j], Run(s, obs).outs[j])
    requires NoneAcceptedIn(obs, Run(s, obs).outs, i + 1, j)
    requires ElapsedNanos(obs[i].restamp, obs[j].now) >= 0
    ensures ElapsedNanos(obs[i].restamp, obs[j].now) > WINDOW_US * NANOS_PER_MICRO
  {
    AcceptedTargetPressesAreSpaced(s, obs, i, j);
  }

  /** A key-down of any other key disarms the filter: the next key-down
      after it, with only non-key-down events in between, is accepted
      however soon it comes. */
  lemma {:induction false} OtherKeyDisarms(s: FilterState, obs: seq<Observation>, i: int, j: int)
    requires 0 <= i < j < |obs|
    requires obs[i].event.kind == KeyDown
    requires KeyOf(obs[i].event.keycodeField) != TARGET_KEY
    requires obs[j].event.kind == KeyDown
    requires forall m :: i < m < j ==> obs[m].event.kind != KeyDown
    ensures Run(s, obs).outs[j] == obs[j].event
  {
    var outs := Run(s, obs).outs;
    RunAt(s, obs, i);
    assert Accepted(obs[i], outs[i]);
    assert LastAccepted(obs, outs, j) == i;
    StateIsLastAccepted(s, obs, j);
    RunAt(s, obs, j);
  }

  /** A burst after an accepted target-key press: while the memory holds the
      target key and every key-down is the target key with a `delta_us`
      (the wrapped elapsed-time formula) of at most `WINDOW_US` from the
      remembered clock reading, every key-down is suppressed and the memory never
      moves, so each is measured against the same accepted press. */
  lemma {:induction false} BurstIsSuppressed(s: FilterState, obs: seq<Observation>)
    requires s.prevKey == TARGET_KEY
    requires forall i :: 0 <= i < |obs| && obs[i].event.kind == KeyDown ==>
               KeyOf(obs[i].event.keycodeField) == TARGET_KEY && DeltaUs(s.start, obs[i].now) <= WINDOW_US
    ensures Run(s, obs).final == s
    ensures forall i :: 0 <= i < |obs| ==>
              Run(s, obs).outs[i] ==
                if obs[i].event.kind == KeyDown then obs[i].event.(keycodeField := SUPPRESSED_FIELD)
                else obs[i].event
    decreases |obs|
  {
    if obs != [] {
      var outs := Run(s, obs).outs;
      assert Feed(s, obs[0]).state == s;
      forall i | 0 <= i < |obs[1..]| && obs[1..][i].event.kind == KeyDown
        ensures KeyOf(obs[1..][i].event.keycodeField) == TARGET_KEY && DeltaUs(s.start, obs[1..][i].now) <= WINDOW_US
      {
        assert obs[1..][i] == obs[i + 1];
      }
      BurstIsSuppressed(s, obs[1..]);
      forall i | 1 <= i < |obs|
        ensures outs[i] == if obs[i].event.kind == KeyDown then obs[i].event.(keycodeField := SUPPRESSED_FIELD)
                           else obs[i].event
      {
        assert outs[i] == Run(s, obs[1..]).outs[i - 1];
        assert obs[1..][i - 1] == obs[i];
      }
    }
  }

  /** After such a burst the filter re-arms: the first target-key press
      whose `delta_us` from the remembered clock reading exceeds `WINDOW_US`
      is accepted and becomes the new reference. */
  lemma {:induction false} BurstThenRearm(s: FilterState, burst: seq<Observation>, o: Observation)
    requires s.prevKey == TARGET_KEY
    requires forall i :: 0 <= i < |burst| && burst[i].event.kind == KeyDown ==>
               KeyOf(burst[i].event.keycodeField) == TARGET_KEY && DeltaUs(s.start, burst[i].now) <= WINDOW_US
    requires o.event.kind == KeyDown && KeyOf(o.event.keycodeField) == TARGET_KEY
    requires DeltaUs(s.start, o.now) > WINDOW_US
    ensures Run(s, burst + [o]).outs[|burst|] == o.event
    ensures Run(s, burst + [o]).final == FilterState(TARGET_KEY, o.restamp)
  {
    BurstIsSuppressed(s, burst);
    RunAppend(s, burst, [o]);
  }

  /** Two memories the callback cannot tell apart: equal, or holding the
      same key that is not the target key (then `start` is never consulted
      before it is overwritten). */
  predicate Indistinguishable(a: FilterState, b: FilterState)
  {
    a == b || (a.prevKey == b.prevKey && a.prevKey != TARGET_KEY)
  }

  /** Indistinguishable memories make identical decisions on every stream
      and stay indistinguishable. */
  lemma {:induction false} IndistinguishableStatesAgree(a: FilterState, b: FilterState, obs: seq<Observation>)
    requires Indistinguishable(a, b)
    ensures Run(a, obs).outs == Run(b, obs).outs
    ensures Indistinguishable(Run(a, obs).final, Run(b, obs).final)
    decreases |obs|
  {
    if obs != [] {
      var ra := Feed(a, obs[0]);
      var rb := Feed(b, obs[0]);
      assert ra.event == rb.event;
      assert Indistinguishable(ra.state, rb.state);
      IndistinguishableStatesAgree(ra.state, rb.state, obs[1..]);
    }
  }

  /** The initial value of `start` never influences a decision: runs from
      the process's initial memory with any two start readings hand back
      the same events. */
  lemma {:induction false} InitialStartIrrelevant(t1: Timespec, t2: Timespec, obs: seq<Observation>)
    ensures Run(Initial(t1), obs).outs == Run(Initial(t2), obs).outs
  {
    IndistinguishableStatesAgree(Initial(t1), Initial(t2), obs);
  }
}
