/**
  Runs of the scheduler: sequences of the host's calls (add, merge,
  dispatch, tunable store) applied one after another. The properties that
  span several calls are stated here: the starvation bound on read
  batches, the length bound on one batch, FIFO order per direction,
  draining, and the invariant kept along any run.
 */
module Runs {
  import opened Options
  import opened Osio
  import opened Sysfs

  /** One call from the host into the scheduler. */
  datatype Event = Add(rq: Req) | Merge(next: Req) | DispatchCall | Set(t: Tunable, v: int)

  function Apply(s: State, e: Event): State {
    match e
    case Add(rq) => AddRequest(s, rq)
    case Merge(next) => MergedRequests(s, next)
    case DispatchCall => Dispatch(s).next
    case Set(t, v) => Store(s, t, v)
  }

  function Run(s: State, evs: seq<Event>): State
    decreases |evs|
  {
    if evs == [] then s else Run(Apply(s, evs[0]), evs[1..])
  }

  /** The run never stores into tunable `t`. */
  predicate Keeps(evs: seq<Event>, t: Tunable) {
    forall i :: 0 <= i < |evs| ==> !(evs[i].Set? && evs[i].t == t)
  }

  lemma KeepsTail(evs: seq<Event>, t: Tunable)
    requires |evs| > 0 && Keeps(evs, t)
    ensures Keeps(evs[1..], t)
  {
  }

  /** The tunable that bounds batches of direction `d`. */
  function BatchTunable(d: Dir): Tunable {
    match d
    case Read => FifoReadBatch
    case Write => FifoWriteBatch
  }

  /** A dispatch call in state `s` ends any batch in progress and opens a new one in direction `d`. */
  predicate Opens(s: State, d: Dir) {
    !Continues(s) && Dispatch(s).next.fifoDir == Active(d)
  }

  // ---------------------------------------------------------------------
  // Starvation
  // ---------------------------------------------------------------------

  /** Number of dispatch calls in the run that open a read batch. */
  function ReadBatches(s: State, evs: seq<Event>): nat
    decreases |evs|
  {
    if evs == [] then 0
    else (if evs[0].DispatchCall? && Opens(s, Read) then 1 else 0) + ReadBatches(Apply(s, evs[0]), evs[1..])
  }

  /**
    Writes are waiting at every dispatch call of the run, and none of those
    calls opens a write batch.
   */
  ghost predicate WritesPassedOver(s: State, evs: seq<Event>)
    decreases |evs|
  {
    evs == [] ||
    ((evs[0].DispatchCall? ==> s.NonEmpty(Write) && !Opens(s, Write))
     && WritesPassedOver(Apply(s, evs[0]), evs[1..]))
  }

  /**
    While writes wait and `writes_starved` is left alone, reads can win at
    most `writes_starved` new-batch selections in a row (none when the
    threshold is negative); more precisely the counter never passes the
    threshold, so only `writes_starved - starved` more read batches fit.
   */
  lemma {:induction false} StarvationBound(s: State, evs: seq<Event>)
    requires WritesPassedOver(s, evs)
    requires Keeps(evs, WritesStarved)
    ensures s.starved + ReadBatches(s, evs) <= (if s.writesStarved > s.starved then s.writesStarved else s.starved)
    ensures ReadBatches(s, evs) <= (if s.writesStarved > 0 then s.writesStarved else 0)
    decreases |evs|
  {
    if evs != [] {
      var t := Apply(s, evs[0]);
      KeepsTail(evs, WritesStarved);
      StarvationBound(t, evs[1..]);
      assert t.writesStarved == s.writesStarved by {
        if evs[0].Set? { assert evs[0].t != WritesStarved; }
      }
      if evs[0].DispatchCall? && Opens(s, Read) {
        ReadChosenWithinThreshold(s);
        assert t.starved == s.starved + 1 <= s.writesStarved;
      } else {
        assert t.starved == s.starved;
      }
    }
  }

  // ---------------------------------------------------------------------
  // Batch length
  // ---------------------------------------------------------------------

  /** Number of dispatch calls in the run. */
  function Dispatches(evs: seq<Event>): nat
    decreases |evs|
  {
    if evs == [] then 0 else (if evs[0].DispatchCall? then 1 else 0) + Dispatches(evs[1..])
  }

  /** Every dispatch call of the run carries on the batch already in progress. */
  ghost predicate Continuing(s: State, evs: seq<Event>)
    decreases |evs|
  {
    evs == [] || ((evs[0].DispatchCall? ==> Continues(s)) && Continuing(Apply(s, evs[0]), evs[1..]))
  }

  /**
    Within a batch of direction `d` whose limit is not re-tuned, `batching`
    counts the dispatches, and a dispatch continues the batch only while
    the count is at most the limit, so the count ends at most one past it.
   */
  lemma {:induction false} BatchBound(s: State, evs: seq<Event>, d: Dir)
    requires s.fifoDir == Active(d)
    requires Continuing(s, evs)
    requires Keeps(evs, BatchTunable(d))
    ensures Dispatches(evs) == 0 || s.batching + Dispatches(evs) <= s.FifoBatch(d) + 1
    ensures Run(s, evs).fifoDir == Active(d)
    ensures Run(s, evs).batching == s.batching + Dispatches(evs)
    decreases |evs|
  {
    if evs != [] {
      var t := Apply(s, evs[0]);
      KeepsTail(evs, BatchTunable(d));
      assert t.fifoDir == Active(d);
      assert t.FifoBatch(d) == s.FifoBatch(d) by {
        if evs[0].Set? { assert evs[0].t != BatchTunable(d); }
      }
      BatchBound(t, evs[1..], d);
    }
  }

  /**
    A batch is at most `fifo_batch + 1` dispatches long: the call that opens
    it plus the calls that carry it on.
   */
  lemma BatchLength(s: State, evs: seq<Event>)
    requires Dispatch(s).rq.Some? && !Continues(s)
    requires Continuing(Dispatch(s).next, evs)
    requires Keeps(evs, BatchTunable(Dispatch(s).next.fifoDir.dir))
    ensures 1 + Dispatches(evs) <= s.FifoBatch(Dispatch(s).next.fifoDir.dir) + 1
  {
    var t := Dispatch(s).next;
    BatchBound(t, evs, t.fifoDir.dir);
  }

  // ---------------------------------------------------------------------
  // FIFO order
  // ---------------------------------------------------------------------

  /** The request of direction `d` that one call releases, if any. */
  function StepReleased(s: State, e: Event, d: Dir): seq<Req> {
    var out := Dispatch(s).rq;
    if e.DispatchCall? && out.Some? && out.value.dir == d then [out.value] else []
  }

  /** The request of direction `d` that one call adds, if any. */
  function StepAdded(e: Event, d: Dir): seq<Req> {
    if e.Add? && e.rq.dir == d then [e.rq] else []
  }

  /** The requests of direction `d` that the run's dispatch calls release, in release order. */
  function Released(s: State, evs: seq<Event>, d: Dir): seq<Req>
    decreases |evs|
  {
    if evs == [] then [] else StepReleased(s, evs[0], d) + Released(Apply(s, evs[0]), evs[1..], d)
  }

  /** The requests of direction `d` the run adds, in arrival order. */
  function Added(evs: seq<Event>, d: Dir): seq<Req>
    decreases |evs|
  {
    if evs == [] then [] else StepAdded(evs[0], d) + Added(evs[1..], d)
  }

  /** The request of direction `d` that one call merges away, if it is queued there. */
  function StepMerged(s: State, e: Event, d: Dir): seq<Req> {
    if e.Merge? && e.next.dir == d && e.next in s.Fifo(d) then [e.next] else []
  }

  /** The requests of direction `d` the run's merges take out of the queue, in merge order. */
  function Merged(s: State, evs: seq<Event>, d: Dir): seq<Req>
    decreases |evs|
  {
    if evs == [] then [] else StepMerged(s, evs[0], d) + Merged(Apply(s, evs[0]), evs[1..], d)
  }

  predicate NoMerges(evs: seq<Event>) {
    forall i :: 0 <= i < |evs| ==> !evs[i].Merge?
  }

  /**
    One call other than a merge moves requests of direction `d` only at the
    ends of its queue: a dispatch takes from the head what it releases, an
    add puts at the tail what arrives.
   */
  lemma FifoStep(s: State, e: Event, d: Dir)
    requires Filed(s) && !e.Merge?
    ensures StepReleased(s, e, d) + Apply(s, e).Fifo(d) == s.Fifo(d) + StepAdded(e, d)
    ensures Filed(Apply(s, e))
  {
  }

  /**
    Without merges, every request of a direction is released in the order
    it was queued: what has been released followed by what still waits is
    exactly what waited at the start followed by what arrived.
   */
  lemma {:induction false} FifoOrder(s: State, evs: seq<Event>, d: Dir)
    requires Filed(s)
    requires NoMerges(evs)
    ensures Released(s, evs, d) + Run(s, evs).Fifo(d) == s.Fifo(d) + Added(evs, d)
    decreases |evs|
  {
    if evs != [] {
      var t := Apply(s, evs[0]);
      assert NoMerges(evs[1..]) by {
        forall i | 0 <= i < |evs| - 1 ensures !evs[1..][i].Merge? { assert evs[1..][i] == evs[i + 1]; }
      }
      assert !evs[0].Merge?;
      FifoStep(s, evs[0], d);
      FifoOrder(t, evs[1..], d);
      assert Released(s, evs, d) == StepReleased(s, evs[0], d) + Released(t, evs[1..], d);
      assert Added(evs, d) == StepAdded(evs[0], d) + Added(evs[1..], d);
      Fifo.ConcatShift(StepReleased(s, evs[0], d), Released(t, evs[1..], d), Run(t, evs[1..]).Fifo(d),
                       t.Fifo(d), Added(evs[1..], d), s.Fifo(d), StepAdded(evs[0], d));
    }
  }

  /** A merge releases and adds nothing, and only drops entries from a queue. */
  lemma MergeStep(s: State, next: Req, d: Dir)
    requires Filed(s)
    ensures StepReleased(s, Merge(next), d) == [] && StepAdded(Merge(next), d) == []
    ensures Fifo.Sub(Apply(s, Merge(next)).Fifo(d), s.Fifo(d))
    ensures multiset(Apply(s, Merge(next)).Fifo(d)) + multiset(StepMerged(s, Merge(next), d)) == multiset(s.Fifo(d))
    ensures Filed(Apply(s, Merge(next)))
  {
    var t := Apply(s, Merge(next));
    if next.dir == d {
      Fifo.RemoveSub(s.Fifo(d), next);
      Fifo.RemoveMultiset(s.Fifo(d), next);
    } else {
      assert d == next.dir.Other();
      Fifo.SubRefl(s.Fifo(d));
    }
  }

  /**
    With merges allowed, order within a direction is still kept, modulo the
    requests merged away: what has been released followed by what still
    waits is a subsequence of what waited at the start followed by what
    arrived.
   */
  lemma {:induction false} FifoOrderWithMerges(s: State, evs: seq<Event>, d: Dir)
    requires Filed(s)
    ensures Fifo.Sub(Released(s, evs, d) + Run(s, evs).Fifo(d), s.Fifo(d) + Added(evs, d))
    decreases |evs|
  {
    if evs == [] {
      assert Released(s, evs, d) + Run(s, evs).Fifo(d) == s.Fifo(d) + Added(evs, d);
      Fifo.SubRefl(s.Fifo(d) + Added(evs, d));
    } else {
      var t := Apply(s, evs[0]);
      var r, a := StepReleased(s, evs[0], d), StepAdded(evs[0], d);
      var rest, left, z := Released(t, evs[1..], d), Run(t, evs[1..]).Fifo(d), Added(evs[1..], d);
      assert Released(s, evs, d) == r + rest;
      assert Run(s, evs) == Run(t, evs[1..]);
      assert Added(evs, d) == a + z;
      if evs[0].Merge? {
        MergeStep(s, evs[0].next, d);
        FifoOrderWithMerges(t, evs[1..], d);
        Fifo.SubGlueDrop(rest, left, t.Fifo(d), z, s.Fifo(d));
        assert r + rest == rest && a + z == z;
      } else {
        FifoStep(s, evs[0], d);
        FifoOrderWithMerges(t, evs[1..], d);
        Fifo.SubGlueStep(r, rest, left, t.Fifo(d), z, s.Fifo(d), a);
      }
    }
  }

  /**
    No request goes missing except by a merge: what has been released, what
    still waits and what was merged away are, as a multiset, exactly what
    waited at the start and what arrived.
   */
  lemma {:induction false} FifoConserve(s: State, evs: seq<Event>, d: Dir)
    requires Filed(s)
    ensures multiset(Released(s, evs, d)) + multiset(Run(s, evs).Fifo(d)) + multiset(Merged(s, evs, d))
         == multiset(s.Fifo(d)) + multiset(Added(evs, d))
    ensures |Released(s, evs, d)| + |Run(s, evs).Fifo(d)| + |Merged(s, evs, d)| == |s.Fifo(d)| + |Added(evs, d)|
    decreases |evs|
  {
    if evs != [] {
      var t := Apply(s, evs[0]);
      var r, a, m := StepReleased(s, evs[0], d), StepAdded(evs[0], d), StepMerged(s, evs[0], d);
      var x, y, z, mr := Released(t, evs[1..], d), Run(t, evs[1..]).Fifo(d), Added(evs[1..], d), Merged(t, evs[1..], d);
      assert Released(s, evs, d) == r + x;
      assert Added(evs, d) == a + z;
      assert Merged(s, evs, d) == m + mr;
      assert Run(s, evs) == Run(t, evs[1..]);
      if evs[0].Merge? {
        MergeStep(s, evs[0].next, d);
      } else {
        FifoStep(s, evs[0], d);
        assert multiset(r + t.Fifo(d)) == multiset(s.Fifo(d) + a);
      }
      FifoConserve(t, evs[1..], d);
      MultisetGlue(r, x, y, mr, t.Fifo(d), z, s.Fifo(d), a, m);
    }
    MultisetLengths(Released(s, evs, d), Run(s, evs).Fifo(d), Merged(s, evs, d), s.Fifo(d), Added(evs, d));
  }

  /** Multiset algebra behind FifoConserve: one step glued in front of the rest of a run. */
  lemma MultisetGlue<T>(r: seq<T>, x: seq<T>, y: seq<T>, mr: seq<T>, t: seq<T>, z: seq<T>, s: seq<T>, a: seq<T>, m: seq<T>)
    requires multiset(x) + multiset(y) + multiset(mr) == multiset(t) + multiset(z)
    requires multiset(r) + multiset(t) + multiset(m) == multiset(s) + multiset(a)
    ensures multiset(r + x) + multiset(y) + multiset(m + mr) == multiset(s) + multiset(a + z)
  {
    calc {
      multiset(r + x) + multiset(y) + multiset(m + mr);
      multiset(r) + multiset(m) + (multiset(x) + multiset(y) + multiset(mr));
      multiset(r) + multiset(m) + (multiset(t) + multiset(z));
      multiset(r) + multiset(t) + multiset(m) + multiset(z);
      multiset(s) + multiset(a) + multiset(z);
    }
  }

  /** Equal multisets have equal sizes. */
  lemma MultisetLengths<T>(x: seq<T>, y: seq<T>, m: seq<T>, s: seq<T>, a: seq<T>)
    requires multiset(x) + multiset(y) + multiset(m) == multiset(s) + multiset(a)
    ensures |x| + |y| + |m| == |s| + |a|
  {
    assert |multiset(x) + multiset(y) + multiset(m)| == |multiset(s) + multiset(a)|;
  }

  /**
    From a fresh scheduler, each direction releases its arrivals in arrival
    order. Every arrival is released, still waits, or was merged away;
    without merges what it releases is a prefix of its arrivals.
   */
  lemma FifoFromInit(evs: seq<Event>, d: Dir)
    ensures Fifo.Sub(Released(InitQueue(), evs, d), Added(evs, d))
    ensures multiset(Released(InitQueue(), evs, d)) + multiset(Run(InitQueue(), evs).Fifo(d))
          + multiset(Merged(InitQueue(), evs, d)) == multiset(Added(evs, d))
    ensures NoMerges(evs) ==> Released(InitQueue(), evs, d) <= Added(evs, d)
  {
    var s := InitQueue();
    assert s.Fifo(d) == [];
    FifoOrderWithMerges(s, evs, d);
    FifoConserve(s, evs, d);
    assert s.Fifo(d) + Added(evs, d) == Added(evs, d);
    Fifo.SubPrefix(Released(s, evs, d), Run(s, evs).Fifo(d), Added(evs, d));
    if NoMerges(evs) {
      FifoOrder(s, evs, d);
      assert Released(s, evs, d) + Run(s, evs).Fifo(d) == Added(evs, d);
      assert Released(s, evs, d) == Added(evs, d)[..|Released(s, evs, d)|];
    }
  }

  // ---------------------------------------------------------------------
  // Draining and teardown
  // ---------------------------------------------------------------------

  /** `n` dispatch calls in a row. */
  function Calls(n: nat): seq<Event> {
    seq(n, _ => DispatchCall)
  }

  /**
    Each dispatch call with work pending releases one request, so as many
    calls as there are queued requests empty both queues, after which
    teardown succeeds.
   */
  lemma {:induction false} DrainThenExit(s: State, n: nat)
    requires n >= |s.Fifo(Read)| + |s.Fifo(Write)|
    ensures Run(s, Calls(n)).Fifo(Read) == [] && Run(s, Calls(n)).Fifo(Write) == []
    ensures ExitQueue(Run(s, Calls(n))) == Freed
    decreases n
  {
    if n > 0 {
      var t := Dispatch(s).next;
      assert Calls(n)[0] == DispatchCall;
      assert Calls(n)[1..] == Calls(n - 1);
      assert |t.Fifo(Read)| + |t.Fifo(Write)| <= n - 1 by {
        if Dispatch(s).rq.Some? {
          var e := t.fifoDir.dir;
          assert |t.Fifo(e)| == |s.Fifo(e)| - 1;
          assert t.Fifo(e.Other()) == s.Fifo(e.Other());
          assert e == Read || e.Other() == Read;
        }
      }
      DrainThenExit(t, n - 1);
    }
  }

  // ---------------------------------------------------------------------
  // Invariant along runs
  // ---------------------------------------------------------------------

  /** Every add of the run links a request that is not queued at that moment. */
  ghost predicate FreshAdds(s: State, evs: seq<Event>)
    decreases |evs|
  {
    evs == [] ||
    ((evs[0].Add? ==> evs[0].rq !in s.Fifo(evs[0].rq.dir)) && FreshAdds(Apply(s, evs[0]), evs[1..]))
  }

  /**
    Any run that only links requests not already queued keeps the
    scheduler valid: requests filed by direction and linked once, `starved`
    zero throughout a write batch, tunables in range.
   */
  lemma {:induction false} RunKeepsValid(s: State, evs: seq<Event>)
    requires Valid(s) && FreshAdds(s, evs)
    ensures Valid(Run(s, evs))
    decreases |evs|
  {
    if evs != [] {
      RunKeepsValid(Apply(s, evs[0]), evs[1..]);
    }
  }

  /** From a fresh scheduler, a write batch is never in progress with `starved` above zero. */
  lemma WriteBatchNotStarved(evs: seq<Event>)
    requires FreshAdds(InitQueue(), evs)
    ensures Run(InitQueue(), evs).fifoDir == Active(Write) ==> Run(InitQueue(), evs).starved == 0
  {
    RunKeepsValid(InitQueue(), evs);
  }

  // ---------------------------------------------------------------------
  // Scenarios
  // ---------------------------------------------------------------------

  /** On a fresh scheduler: nothing to dispatch; after one read arrives it is released, then nothing again. */
  lemma OneReadScenario(a: Req)
    requires a.dir == Read
    ensures Dispatch(InitQueue()).rq == None
    ensures Dispatch(AddRequest(InitQueue(), a)).rq == Some(a)
    ensures Dispatch(Dispatch(AddRequest(InitQueue(), a)).next).rq == None
  {
  }

  /** Storing 0 as the read batch limit on a fresh scheduler and queuing three reads and a write. */
  lemma WriteForcedSetup(a: Req, b: Req, c: Req, w: Req)
    requires a.dir == Read && b.dir == Read && c.dir == Read && w.dir == Write
    ensures
      var tuned := Store(InitQueue(), FifoReadBatch, 0);
      AddRequest(AddRequest(AddRequest(AddRequest(tuned, a), b), c), w)
        == State([a, b, c], [w], 0, Undef, 0, 0, 8, 2)
  {
    var tuned := Store(InitQueue(), FifoReadBatch, 0);
    assert tuned == State([], [], 0, Undef, 0, 0, 8, 2);
  }

  /**
    With one-request read batches (`fifo_read_batch` 0) and the default
    threshold 2, a write queued behind three reads goes out third: the
    third selection bumps `starved` to 3, which passes the threshold.
   */
  lemma WriteForcedScenario(a: Req, b: Req, c: Req, w: Req)
    requires a.dir == Read && b.dir == Read && c.dir == Read && w.dir == Write
    ensures
      var d1 := Dispatch(State([a, b, c], [w], 0, Undef, 0, 0, 8, 2));
      var d2 := Dispatch(d1.next);
      var d3 := Dispatch(d2.next);
      var d4 := Dispatch(d3.next);
      d1.rq == Some(a) && d2.rq == Some(b) && d3.rq == Some(w) && d4.rq == Some(c)
  {
    var s1 := State([b, c], [w], 1, Active(Read), 1, 0, 8, 2);
    var s2 := State([c], [w], 1, Active(Read), 2, 0, 8, 2);
    var s3 := State([c], [], 1, Active(Write), 0, 0, 8, 2);
    assert Dispatch(State([a, b, c], [w], 0, Undef, 0, 0, 8, 2)) == Dispatched(s1, Some(a));
    assert Dispatch(s1) == Dispatched(s2, Some(b));
    assert Dispatch(s2) == Dispatched(s3, Some(w));
  }
}
