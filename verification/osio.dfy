/**
  The osio elevator: a block I/O scheduler that keeps one FIFO queue per
  data direction (read, write) and releases one request per dispatch call.
  Reads are preferred; requests are released in batches of one direction;
  a counter of read selections forces a write batch once it passes the
  `writes_starved` threshold.

  The state is an immutable record; each scheduler entry point is a pure
  function from the old record to the new one.
 */
module Osio {
  import opened Options
  import Fifo

  /** The data direction of a request, as `rq_data_dir` reports it. */
  datatype Dir = Read | Write {
    function Other(): Dir {
      match this
      case Read => Write
      case Write => Read
    }
  }

  /** A request as the scheduler sees it: an identity and a data direction. */
  datatype Req = Req(id: nat, dir: Dir)

  /** The direction of the batch in progress, or UNDEF when none is. */
  datatype FifoDir = Active(dir: Dir) | Undef

  /** Defaults installed by the initialiser. */
  const FIFO_READ_BATCH: nat := 16
  const FIFO_WRITE_BATCH: nat := 8
  const WRITES_STARVED: int := 2

  /** Range of the C `int` that holds each tunable. */
  const INT_MIN: int := -0x8000_0000
  const INT_MAX: int := 0x7fff_ffff

  /**
    The scheduler data. `batching` counts dispatches since the current
    direction was selected; `starved` counts read selections since the last
    write selection. The batch limits are never negative (their setters clamp
    at 0), so they are naturals here.
   */
  datatype State = State(
    readFifo: seq<Req>,
    writeFifo: seq<Req>,
    batching: nat,
    fifoDir: FifoDir,
    starved: nat,
    readBatch: nat,
    writeBatch: nat,
    writesStarved: int)
  {
    function Fifo(d: Dir): seq<Req> {
      match d
      case Read => readFifo
      case Write => writeFifo
    }

    function FifoBatch(d: Dir): nat {
      match d
      case Read => readBatch
      case Write => writeBatch
    }

    predicate NonEmpty(d: Dir) {
      |Fifo(d)| > 0
    }

    function WithFifo(d: Dir, q: seq<Req>): State {
      match d
      case Read => this.(readFifo := q)
      case Write => this.(writeFifo := q)
    }
  }

  /** Every queued request sits in the queue of its own direction. */
  ghost predicate Filed(s: State) {
    forall d: Dir, i :: 0 <= i < |s.Fifo(d)| ==> s.Fifo(d)[i].dir == d
  }

  /** Replacing one queue of a filed state by a queue of that direction keeps it filed. */
  lemma FiledWithFifo(s: State, d: Dir, q: seq<Req>)
    requires Filed(s)
    requires forall i :: 0 <= i < |q| ==> q[i].dir == d
    ensures Filed(s.WithFifo(d, q))
  {
    var t := s.WithFifo(d, q);
    forall e: Dir, i | 0 <= i < |t.Fifo(e)| ensures t.Fifo(e)[i].dir == e {
      if e != d { assert t.Fifo(e) == s.Fifo(e); }
    }
  }

  /**
    The invariant the scheduler keeps: requests filed by direction, each
    linked once, a write batch always starts with `starved` reset, and the
    tunables inside the range of their C type.
   */
  ghost predicate Valid(s: State) {
    && Filed(s)
    && Fifo.Distinct(s.readFifo)
    && Fifo.Distinct(s.writeFifo)
    && (s.fifoDir == Active(Write) ==> s.starved == 0)
    && INT_MIN <= s.writesStarved <= INT_MAX
    && s.readBatch <= INT_MAX
    && s.writeBatch <= INT_MAX
  }

  /** Two states agree on the three tunables. */
  predicate SameTunables(s: State, t: State) {
    s.readBatch == t.readBatch && s.writeBatch == t.writeBatch && s.writesStarved == t.writesStarved
  }

  /**
    A freshly initialised scheduler: both queues empty, no batch in
    progress, counters zero, tunables at their defaults.
   */
  function InitQueue(): (s: State)
    ensures s.Fifo(Read) == [] && s.Fifo(Write) == []
    ensures s.fifoDir == Undef && s.batching == 0 && s.starved == 0
    ensures s.FifoBatch(Read) == 16 && s.FifoBatch(Write) == 8 && s.writesStarved == 2
    ensures Valid(s)
  {
    State([], [], 0, Undef, 0, FIFO_READ_BATCH, FIFO_WRITE_BATCH, WRITES_STARVED)
  }

  /** Outcome of tearing a scheduler down: freed, or the BUG_ON that fires. */
  datatype Teardown = Freed | Bug(nonEmpty: Dir)

  /**
    Teardown succeeds exactly when both queues are empty; otherwise the
    read queue's assertion is checked first.
   */
  function ExitQueue(s: State): (r: Teardown)
    ensures r == Freed <==> s.Fifo(Read) == [] && s.Fifo(Write) == []
    ensures r == Bug(Read) <==> s.NonEmpty(Read)
    ensures r == Bug(Write) <==> !s.NonEmpty(Read) && s.NonEmpty(Write)
  {
    if s.readFifo != [] then Bug(Read)
    else if s.writeFifo != [] then Bug(Write)
    else Freed
  }

  /**
    Queues `rq` at the tail of the queue for its direction. Everything else
    is as before: restoring that queue gives back the old state.
   */
  function AddRequest(s: State, rq: Req): (r: State)
    ensures r.Fifo(rq.dir) == s.Fifo(rq.dir) + [rq]
    ensures r.Fifo(rq.dir.Other()) == s.Fifo(rq.dir.Other())
    ensures r.WithFifo(rq.dir, s.Fifo(rq.dir)) == s
    ensures Filed(s) ==> Filed(r)
    ensures Valid(s) && rq !in s.Fifo(rq.dir) ==> Valid(r)
  {
    var r := s.WithFifo(rq.dir, s.Fifo(rq.dir) + [rq]);
    assert Valid(s) && rq !in s.Fifo(rq.dir) ==> Fifo.Distinct(r.Fifo(rq.dir));
    r
  }

  /**
    Unlinks `next` after the host merged it into another request: `next`
    leaves its direction's queue, the rest of that queue keeps its order,
    and nothing else changes.
   */
  function MergedRequests(s: State, next: Req): (r: State)
    ensures next in s.Fifo(next.dir) ==>
      var q := s.Fifo(next.dir);
      var i := Fifo.IndexOf(q, next);
      r.Fifo(next.dir) == q[..i] + q[i + 1..]
    ensures next !in s.Fifo(next.dir) ==> r == s
    ensures r.Fifo(next.dir.Other()) == s.Fifo(next.dir.Other())
    ensures r.WithFifo(next.dir, s.Fifo(next.dir)) == s
    ensures Filed(s) ==> Filed(r)
    ensures Valid(s) ==> Valid(r) && next !in r.Fifo(next.dir)
  {
    var q := s.Fifo(next.dir);
    var r := s.WithFifo(next.dir, Fifo.Remove(q, next));
    assert Filed(s) ==> Filed(r) by {
      if Filed(s) && next in q {
        var i := Fifo.IndexOf(q, next);
        var q' := Fifo.Remove(q, next);
        forall k | 0 <= k < |q'| ensures q'[k].dir == next.dir {
          assert q'[k] == q[if k < i then k else k + 1];
        }
        FiledWithFifo(s, next.dir, q');
      }
    }
    assert Valid(s) ==> next !in r.Fifo(next.dir) && Fifo.Distinct(r.Fifo(next.dir)) by {
      if Valid(s) { Fifo.RemoveDistinct(q, next); }
    }
    r
  }

  /** Merging away the request just added undoes the add. */
  lemma MergeUndoesAdd(s: State, rq: Req)
    requires rq !in s.Fifo(rq.dir)
    ensures MergedRequests(AddRequest(s, rq), rq) == s
  {
    Fifo.RemoveUndoesAppend(s.Fifo(rq.dir), rq);
  }

  /**
    The request queued immediately before `rq` in its direction's queue, or
    None when `rq` is at the head.
   */
  function FormerRequest(s: State, rq: Req): (r: Option<Req>)
    requires rq in s.Fifo(rq.dir) && Fifo.Distinct(s.Fifo(rq.dir))
    ensures r.None? <==> s.Fifo(rq.dir)[0] == rq
    ensures r.Some? ==> Fifo.Adjacent(s.Fifo(rq.dir), r.value, rq)
  {
    Fifo.Former(s.Fifo(rq.dir), rq)
  }

  /**
    The request queued immediately after `rq` in its direction's queue, or
    None when `rq` is at the tail.
   */
  function LatterRequest(s: State, rq: Req): (r: Option<Req>)
    requires rq in s.Fifo(rq.dir) && Fifo.Distinct(s.Fifo(rq.dir))
    ensures r.None? <==> s.Fifo(rq.dir)[|s.Fifo(rq.dir)| - 1] == rq
    ensures r.Some? ==> Fifo.Adjacent(s.Fifo(rq.dir), rq, r.value)
  {
    Fifo.Latter(s.Fifo(rq.dir), rq)
  }

  /** In a valid state the neighbour queries are mutual inverses and stay within one direction. */
  lemma NeighboursInverse(s: State, rq: Req, other: Req)
    requires Valid(s) && rq in s.Fifo(rq.dir) && other in s.Fifo(other.dir)
    ensures FormerRequest(s, rq) == Some(other) <==> LatterRequest(s, other) == Some(rq)
    ensures FormerRequest(s, rq) == Some(other) ==> other.dir == rq.dir
  {
  }

  // ---------------------------------------------------------------------
  // Dispatch
  // ---------------------------------------------------------------------

  /**
    Phase one: the batch in progress carries on unless it has run past its
    limit (strictly more dispatches than `fifo_batch`) or its queue is empty.
   */
  predicate Continues(s: State) {
    && s.fifoDir.Active?
    && s.batching <= s.FifoBatch(s.fifoDir.dir)
    && s.NonEmpty(s.fifoDir.dir)
  }

  function EndBatch(s: State): FifoDir {
    match s.fifoDir
    case Undef => Undef
    case Active(d) =>
      if s.batching > s.FifoBatch(d) then Undef
      else if !s.NonEmpty(d) then Undef
      else s.fifoDir
  }

  /** Result of choosing a new direction: the direction and the new `starved`. */
  datatype Choice = Choice(dir: FifoDir, starved: nat)

  /**
    Phase two: picks the direction of a new batch from which queues are
    non-empty. Read is preferred and bumps `starved`; write is taken, with
    `starved` reset, when reads are absent or when the bumped counter
    exceeds `writes_starved` while writes wait. Nothing is chosen only when
    both queues are empty.
   */
  function ChooseDir(nonEmptyRead: bool, nonEmptyWrite: bool, starved: nat, writesStarved: int): (c: Choice)
    ensures c.dir == Active(Read) <==>
      nonEmptyRead && !(nonEmptyWrite && starved + 1 > writesStarved)
    ensures c.dir == Active(Write) <==>
      nonEmptyWrite && (!nonEmptyRead || starved + 1 > writesStarved)
    ensures c.dir == Undef <==> !nonEmptyRead && !nonEmptyWrite
    ensures c.dir == Active(Read) ==> c.starved == starved + 1
    ensures c.dir == Active(Write) ==> c.starved == 0
    ensures c.dir == Undef ==> c.starved == starved
  {
    var first :=
      if nonEmptyRead then Choice(Active(Read), starved + 1)
      else if nonEmptyWrite then Choice(Active(Write), 0)
      else Choice(Undef, starved);
    if first.starved > writesStarved && nonEmptyWrite then Choice(Active(Write), 0)
    else first
  }

  /** The direction and counter a new batch gets in state `s`. */
  function Selection(s: State): Choice {
    ChooseDir(s.NonEmpty(Read), s.NonEmpty(Write), s.starved, s.writesStarved)
  }

  /** What one dispatch call leaves behind and releases (Some exactly when it returns 1). */
  datatype Dispatched = Dispatched(next: State, rq: Option<Req>)

  /**
    One call of the dispatcher. It releases a request exactly when some
    queue is non-empty, and then it is the head of the queue of the
    direction now active; the other queue is untouched. A new batch starts
    with the direction `Selection` picks and `batching` at 1; a continuing
    batch only counts one more dispatch. No batch is ever observed past
    `fifo_batch + 1` dispatches.
   */
  function Dispatch(s: State): (r: Dispatched)
    ensures r.rq.None? <==> !s.NonEmpty(Read) && !s.NonEmpty(Write)
    ensures r.rq.None? ==> r.next == s.(fifoDir := Undef, batching := 0)
    ensures r.rq.Some? <==> r.next.fifoDir.Active?
    ensures r.rq.Some? ==>
      var d := r.next.fifoDir.dir;
      && s.NonEmpty(d)
      && r.rq.value == s.Fifo(d)[0]
      && r.next.Fifo(d) == s.Fifo(d)[1..]
      && r.next.Fifo(d.Other()) == s.Fifo(d.Other())
    ensures SameTunables(r.next, s)
    ensures r.next.fifoDir.Active? ==> 1 <= r.next.batching <= r.next.FifoBatch(r.next.fifoDir.dir) + 1
    ensures Continues(s) ==>
      r.next.fifoDir == s.fifoDir && r.next.batching == s.batching + 1 && r.next.starved == s.starved
    ensures !Continues(s) && r.rq.Some? ==>
      r.next.fifoDir == Selection(s).dir && r.next.starved == Selection(s).starved && r.next.batching == 1
    ensures Filed(s) ==> Filed(r.next)
    ensures Valid(s) ==> Valid(r.next)
  {
    var nonEmptyRead, nonEmptyWrite := s.NonEmpty(Read), s.NonEmpty(Write);
    var ended := s.(fifoDir := EndBatch(s));
    var chosen :=
      if ended.fifoDir == Undef then
        var c := ChooseDir(nonEmptyRead, nonEmptyWrite, s.starved, s.writesStarved);
        ended.(fifoDir := c.dir, starved := c.starved, batching := 0)
      else ended;
    match chosen.fifoDir
    case Undef => Dispatched(chosen, None)
    case Active(d) =>
      var q := chosen.Fifo(d);
      var popped := chosen.WithFifo(d, q[1..]).(batching := chosen.batching + 1);
      assert Filed(s) ==> Filed(popped) by {
        if Filed(s) {
          forall e: Dir, i | 0 <= i < |popped.Fifo(e)| ensures popped.Fifo(e)[i].dir == e {
            if e == d { assert popped.Fifo(e)[i] == s.Fifo(e)[i + 1]; }
          }
        }
      }
      assert Fifo.Distinct(s.Fifo(d)) ==> Fifo.Distinct(q[1..]);
      Dispatched(popped, Some(q[0]))
  }

  /** Read pressure never starves writes past the threshold: read is chosen only while the bumped counter stays within it. */
  lemma ReadChosenWithinThreshold(s: State)
    requires s.NonEmpty(Write) && Selection(s).dir == Active(Read)
    ensures Selection(s).starved == s.starved + 1 <= s.writesStarved
  {
  }
}
