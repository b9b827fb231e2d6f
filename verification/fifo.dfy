/**
  A FIFO queue of requests, modelled as a sequence whose head is the oldest
  entry. The scheduler links requests into such queues through an intrusive
  list; a linked node occupies exactly one position, which is what
  `Distinct` captures.
 */
module Fifo {
  import opened Options

  /** No element occupies two positions of the queue. */
  ghost predicate Distinct<T>(q: seq<T>) {
    forall i, j :: 0 <= i < j < |q| ==> q[i] != q[j]
  }

  /** `a` sits immediately before `b` somewhere in `q`. */
  ghost predicate Adjacent<T>(q: seq<T>, a: T, b: T) {
    exists i :: 0 <= i < |q| - 1 && q[i] == a && q[i + 1] == b
  }

  /** The position of the first occurrence of `x`. */
  function IndexOf<T(==)>(q: seq<T>, x: T): (i: nat)
    requires x in q
    ensures i < |q| && q[i] == x
    ensures forall j :: 0 <= j < i ==> q[j] != x
  {
    if q[0] == x then 0 else 1 + IndexOf(q[1..], x)
  }

  /** In a queue without repeats, the only position holding `x` is its index. */
  lemma IndexOfUnique<T>(q: seq<T>, x: T, k: nat)
    requires Distinct(q) && k < |q| && q[k] == x
    ensures IndexOf(q, x) == k
  {
  }

  /**
    Unlinks `x` from the queue. The entries that stay keep their relative
    order: the result is the queue with the one position holding `x` cut out.
    Unlinking an element that is not queued changes nothing.
   */
  function Remove<T(==)>(q: seq<T>, x: T): (r: seq<T>)
    ensures x !in q ==> r == q
    ensures x in q ==> |r| == |q| - 1 && r == q[..IndexOf(q, x)] + q[IndexOf(q, x) + 1..]
  {
    if |q| == 0 then []
    else if q[0] == x then q[1..]
    else
      var rest := Remove(q[1..], x);
      assert x !in q ==> [q[0]] + rest == q by {
        if x !in q { assert q == [q[0]] + q[1..]; }
      }
      assert x in q ==> [q[0]] + rest == q[..IndexOf(q, x)] + q[IndexOf(q, x) + 1..] by {
        if x in q {
          assert IndexOf(q, x) == 1 + IndexOf(q[1..], x);
          ConsCut(q, IndexOf(q[1..], x), rest);
        }
      }
      [q[0]] + rest
  }

  /** Sequence algebra behind Remove: cutting from the tail, then putting the head back. */
  lemma ConsCut<T>(q: seq<T>, j: nat, rest: seq<T>)
    requires j + 1 < |q| && rest == q[1..][..j] + q[1..][j + 1..]
    ensures [q[0]] + rest == q[..j + 1] + q[j + 2..]
  {
    assert q[..j + 1] == [q[0]] + q[1..][..j];
    assert q[j + 2..] == q[1..][j + 1..];
  }

  /** Unlinking from a queue without repeats leaves a queue without repeats and without `x`. */
  lemma RemoveDistinct<T>(q: seq<T>, x: T)
    requires Distinct(q)
    ensures Distinct(Remove(q, x)) && x !in Remove(q, x)
  {
  }

  /** Unlinking the element that was just appended gives back the queue before the append. */
  lemma RemoveUndoesAppend<T>(q: seq<T>, x: T)
    requires x !in q
    ensures Remove(q + [x], x) == q
  {
  }

  /** The element linked immediately before `x`, or None when `x` is the head. */
  function Former<T(==)>(q: seq<T>, x: T): (r: Option<T>)
    requires x in q && Distinct(q)
    ensures r.None? <==> q[0] == x
    ensures r.Some? ==> Adjacent(q, r.value, x)
  {
    var i := IndexOf(q, x);
    if i == 0 then None else Some(q[i - 1])
  }

  /** The element linked immediately after `x`, or None when `x` is the tail. */
  function Latter<T(==)>(q: seq<T>, x: T): (r: Option<T>)
    requires x in q && Distinct(q)
    ensures r.None? <==> q[|q| - 1] == x
    ensures r.Some? ==> Adjacent(q, x, r.value)
  {
    var i := IndexOf(q, x);
    IndexOfUnique(q, q[|q| - 1], |q| - 1);
    if i == |q| - 1 then None else Some(q[i + 1])
  }

  /** Former finds exactly the adjacent predecessor: the adjacency relation determines it. */
  lemma FormerIsAdjacent<T>(q: seq<T>, x: T, a: T)
    requires x in q && Distinct(q)
    ensures Former(q, x) == Some(a) <==> Adjacent(q, a, x)
  {
  }

  /** Latter finds exactly the adjacent successor. */
  lemma LatterIsAdjacent<T>(q: seq<T>, x: T, b: T)
    requires x in q && Distinct(q)
    ensures Latter(q, x) == Some(b) <==> Adjacent(q, x, b)
  {
  }

  /** Stepping back and then forward returns to where one started. */
  lemma FormerLatterInverse<T>(q: seq<T>, x: T, y: T)
    requires x in q && y in q && Distinct(q)
    ensures Former(q, x) == Some(y) <==> Latter(q, y) == Some(x)
  {
  }

  /**
    `a` is a subsequence of `b`: `b` with some entries dropped and the rest
    kept in order.
   */
  ghost predicate Sub<T>(a: seq<T>, b: seq<T>)
    decreases |b|
  {
    a == [] || (b != [] && ((a[0] == b[0] && Sub(a[1..], b[1..])) || Sub(a, b[1..])))
  }

  lemma {:induction false} SubRefl<T>(a: seq<T>)
    ensures Sub(a, a)
    decreases |a|
  {
    if a != [] { SubRefl(a[1..]); }
  }

  /** Anything is a subsequence of itself with entries put in front. */
  lemma {:induction false} SubSuffix<T>(p: seq<T>, c: seq<T>)
    ensures Sub(c, p + c)
    decreases |p|
  {
    if p == [] {
      SubRefl(c);
      assert p + c == c;
    } else {
      SubSuffix(p[1..], c);
      assert (p + c)[1..] == p[1..] + c;
    }
  }

  lemma {:induction false} SubPrepend<T>(c: seq<T>, a: seq<T>, b: seq<T>)
    requires Sub(a, b)
    ensures Sub(c + a, c + b)
    decreases |c|
  {
    if c == [] {
      assert c + a == a && c + b == b;
    } else {
      SubPrepend(c[1..], a, b);
      assert (c + a)[1..] == c[1..] + a;
      assert (c + b)[1..] == c[1..] + b;
    }
  }

  lemma {:induction false} SubAppend<T>(a: seq<T>, b: seq<T>, c: seq<T>)
    requires Sub(a, b)
    ensures Sub(a + c, b + c)
    decreases |b|
  {
    if a == [] {
      SubSuffix(b, c);
      assert a + c == c;
    } else {
      assert (a + c)[1..] == a[1..] + c;
      assert (b + c)[1..] == b[1..] + c;
      if a[0] == b[0] && Sub(a[1..], b[1..]) {
        SubAppend(a[1..], b[1..], c);
      } else {
        SubAppend(a, b[1..], c);
      }
    }
  }

  lemma {:induction false} SubTrans<T>(a: seq<T>, b: seq<T>, c: seq<T>)
    requires Sub(a, b) && Sub(b, c)
    ensures Sub(a, c)
    decreases |c|
  {
    if a != [] {
      if Sub(b, c[1..]) {
        SubTrans(a, b, c[1..]);
      } else if a[0] == b[0] && Sub(a[1..], b[1..]) {
        SubTrans(a[1..], b[1..], c[1..]);
      } else {
        SubTrans(a, b[1..], c[1..]);
      }
    }
  }

  /** A prefix of a subsequence is a subsequence. */
  lemma SubPrefix<T>(x: seq<T>, y: seq<T>, z: seq<T>)
    requires Sub(x + y, z)
    ensures Sub(x, z)
  {
    SubSuffix(y, []);
    SubPrepend(x, [], y);
    assert x + [] == x;
    SubTrans(x, x + y, z);
  }

  /** Unlinking keeps the remaining entries in their order. */
  lemma {:induction false} RemoveSub<T>(q: seq<T>, x: T)
    ensures Sub(Remove(q, x), q)
    decreases |q|
  {
    if q != [] {
      if q[0] == x {
        SubSuffix([q[0]], q[1..]);
        assert [q[0]] + q[1..] == q;
      } else {
        RemoveSub(q[1..], x);
        assert ([q[0]] + Remove(q[1..], x))[1..] == Remove(q[1..], x);
      }
    }
  }

  /** Unlinking takes out exactly one copy of `x` when it is queued, and nothing otherwise. */
  lemma RemoveMultiset<T>(q: seq<T>, x: T)
    ensures x in q ==> multiset(Remove(q, x)) + multiset{x} == multiset(q)
    ensures x !in q ==> multiset(Remove(q, x)) == multiset(q)
  {
    if x in q {
      var i := IndexOf(q, x);
      var p, u := q[..i], q[i + 1..];
      assert q == p + [x] + u;
      assert Remove(q, x) == p + u;
      MultisetCut(p, x, u);
    }
  }

  /** Multiset algebra behind RemoveMultiset, kept apart from Remove. */
  lemma MultisetCut<T>(p: seq<T>, x: T, u: seq<T>)
    ensures multiset(p + u) + multiset{x} == multiset(p + [x] + u)
  {
    calc {
      multiset(p + [x] + u);
      multiset(p) + multiset([x]) + multiset(u);
      multiset(p) + multiset(u) + multiset{x};
    }
  }

  /** Reassociating a step glued in front of the rest of a run, kept apart from any subsequence facts. */
  lemma ConcatShift<T>(r: seq<T>, x: seq<T>, y: seq<T>, t: seq<T>, z: seq<T>, s: seq<T>, a: seq<T>)
    requires r + t == s + a
    ensures r + (x + y) == (r + x) + y
    ensures r + (t + z) == s + (a + z)
  {
    calc {
      r + (t + z);
      (r + t) + z;
      (s + a) + z;
      s + (a + z);
    }
  }

  /** Putting one step that moves entries only at the ends in front of a subsequence fact. */
  lemma SubGlueStep<T>(r: seq<T>, x: seq<T>, y: seq<T>, t: seq<T>, z: seq<T>, s: seq<T>, a: seq<T>)
    requires Sub(x + y, t + z) && r + t == s + a
    ensures Sub((r + x) + y, s + (a + z))
  {
    SubPrepend(r, x + y, t + z);
    ConcatShift(r, x, y, t, z, s, a);
  }

  /** Putting one step that only drops entries in front of a subsequence fact. */
  lemma SubGlueDrop<T>(x: seq<T>, y: seq<T>, t: seq<T>, z: seq<T>, s: seq<T>)
    requires Sub(x + y, t + z) && Sub(t, s)
    ensures Sub(x + y, s + z)
  {
    SubAppend(t, s, z);
    SubTrans(x + y, t + z, s + z);
  }
}
