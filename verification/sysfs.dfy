/**
  The three run-time tunables of the osio scheduler and their accessors.
  A store takes an already parsed integer, clamps it into the tunable's
  range and writes it; a show reads the current value back.
 */
module Sysfs {
  import opened Osio

  datatype Tunable = WritesStarved | FifoReadBatch | FifoWriteBatch

  /** Lower end of the range a store clamps into. */
  function Min(t: Tunable): int {
    match t
    case WritesStarved => INT_MIN
    case FifoReadBatch => 0
    case FifoWriteBatch => 0
  }

  /** Upper end of the range a store clamps into. */
  function Max(t: Tunable): int {
    match t
    case WritesStarved => INT_MAX
    case FifoReadBatch => INT_MAX
    case FifoWriteBatch => INT_MAX
  }

  /** Distance between two integers. */
  function Dist(a: int, b: int): nat {
    if a <= b then b - a else a - b
  }

  /**
    Clamping puts `v` into `[lo, hi]` at the point of that range nearest to
    `v`, so values already inside the range are kept.
   */
  function Clamp(v: int, lo: int, hi: int): (r: int)
    requires lo <= hi
    ensures lo <= r <= hi
    ensures forall w :: lo <= w <= hi ==> Dist(v, r) <= Dist(v, w)
  {
    if v < lo then lo
    else if v > hi then hi
    else v
  }

  /** A value already in range is a fixed point of Clamp, and Clamp is idempotent. */
  lemma ClampIdempotent(v: int, lo: int, hi: int)
    requires lo <= hi
    ensures lo <= v <= hi ==> Clamp(v, lo, hi) == v
    ensures Clamp(Clamp(v, lo, hi), lo, hi) == Clamp(v, lo, hi)
  {
  }

  /**
    The current value of a tunable. In a valid state it already lies in the
    range a store clamps into.
   */
  function Show(s: State, t: Tunable): (r: int)
    ensures Valid(s) ==> Min(t) <= r <= Max(t)
    ensures t != WritesStarved ==> r >= 0
  {
    match t
    case WritesStarved => s.writesStarved
    case FifoReadBatch => s.readBatch
    case FifoWriteBatch => s.writeBatch
  }

  /**
    Stores `v` into tunable `t` after clamping. The value read back is the
    clamped input, the batch limits never go negative, and the queues, the
    batch state and the other tunables are left alone.
   */
  function Store(s: State, t: Tunable, v: int): (r: State)
    ensures Show(r, t) == Clamp(v, Min(t), Max(t))
    ensures Show(r, t) >= Min(t) && Show(r, t) <= Max(t)
    ensures forall u: Tunable :: u != t ==> Show(r, u) == Show(s, u)
    ensures r.readFifo == s.readFifo && r.writeFifo == s.writeFifo
    ensures r.fifoDir == s.fifoDir && r.batching == s.batching && r.starved == s.starved
    ensures Filed(s) ==> Filed(r)
    ensures Valid(s) ==> Valid(r)
  {
    var data := Clamp(v, Min(t), Max(t));
    var r := match t
      case WritesStarved => s.(writesStarved := data)
      case FifoReadBatch => s.(readBatch := data)
      case FifoWriteBatch => s.(writeBatch := data);
    assert forall d: Dir :: r.Fifo(d) == s.Fifo(d);
    r
  }

  /** Writing back the value just shown changes nothing in a valid state. */
  lemma StoreShowRoundTrip(s: State, t: Tunable)
    requires Valid(s)
    ensures Store(s, t, Show(s, t)) == s
  {
  }

  /** Storing an already clamped value gives back exactly that value. */
  lemma StoreClampedValue(s: State, t: Tunable, v: int)
    ensures Show(Store(s, t, Clamp(v, Min(t), Max(t))), t) == Clamp(v, Min(t), Max(t))
    ensures Store(Store(s, t, v), t, Clamp(v, Min(t), Max(t))) == Store(s, t, v)
  {
  }
}
