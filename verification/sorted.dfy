/**
 * Ascending sequences of naturals and the early-stopping visitor protocol.
 *
 * Every enumeration of the bit set hands positions to a caller-supplied
 * visitor in ascending order and stops as soon as the visitor answers false.
 * `Walk` is that protocol over an explicit list; `Enumerate` is the ascending
 * list of a finite set, the reference every enumeration is proved against.
 */
module Sorted {

  /** Strictly increasing sequence of naturals. */
  predicate Increasing(s: seq<nat>)
  {
    forall i, j :: 0 <= i < j < |s| ==> s[i] < s[j]
  }

  lemma IncreasingTail(s: seq<nat>)
    requires Increasing(s) && |s| > 0
    ensures Increasing(s[1..])
    ensures forall x :: x in s[1..] ==> s[0] < x
  {
  }

  lemma Prepend(x: nat, s: seq<nat>)
    requires Increasing(s)
    requires forall y :: y in s ==> x < y
    ensures Increasing([x] + s)
  {
    forall i, j | 0 <= i < j < |[x] + s| ensures ([x] + s)[i] < ([x] + s)[j] {
      assert s[j - 1] in s;
      if i > 0 {
        assert s[i - 1] < s[j - 1];
      }
    }
  }

  /** Two increasing runs, the first wholly below the second, concatenate to one. */
  lemma IncreasingConcat(a: seq<nat>, b: seq<nat>)
    requires Increasing(a) && Increasing(b)
    requires forall x, y :: x in a && y in b ==> x < y
    ensures Increasing(a + b)
  {
    forall i, j | 0 <= i < j < |a + b|
      ensures (a + b)[i] < (a + b)[j]
    {
      if i < |a| && j >= |a| {
        assert a[i] in a && b[j - |a|] in b;
      }
    }
  }

  /** An increasing sequence within [lo, hi) has at most hi - lo elements. */
  lemma {:induction false} IncreasingWithin(s: seq<nat>, lo: nat, hi: nat)
    requires Increasing(s) && lo <= hi
    requires forall x :: x in s ==> lo <= x < hi
    ensures |s| <= hi - lo
    decreases |s|
  {
    if |s| > 0 {
      IncreasingTail(s);
      HeadIn(s);
      forall x | x in s[1..]
        ensures s[0] + 1 <= x < hi
      {
        var i :| 0 <= i < |s[1..]| && s[1..][i] == x;
        assert s[i + 1] in s;
      }
      IncreasingWithin(s[1..], s[0] + 1, hi);
    }
  }

  lemma HeadIn(s: seq<nat>)
    ensures |s| > 0 ==> s[0] in s
  {
  }

  /** Two increasing sequences with the same elements are the same sequence. */
  lemma {:induction false} IncreasingUnique(a: seq<nat>, b: seq<nat>)
    requires Increasing(a) && Increasing(b)
    requires forall x :: x in a <==> x in b
    ensures a == b
  {
    if |a| > 0 && |b| > 0 {
      IncreasingTail(a);
      IncreasingTail(b);
      assert a[0] in b && b[0] in a;
      assert a[0] == b[0];
      forall x ensures x in a[1..] <==> x in b[1..] {
        assert x in a <==> x in b;
        if x in a[1..] {
          assert x != b[0];
        }
        if x in b[1..] {
          assert x != a[0];
        }
      }
      IncreasingUnique(a[1..], b[1..]);
      assert a == [a[0]] + a[1..] && b == [b[0]] + b[1..];
    } else {
      HeadIn(a);
      HeadIn(b);
    }
  }

  /** A set listed by an increasing sequence has as many members as the sequence. */
  lemma {:induction false} IncreasingCard(s: seq<nat>, S: set<nat>)
    requires Increasing(s)
    requires forall x :: x in S <==> x in s
    ensures |S| == |s|
  {
    if |s| > 0 {
      IncreasingTail(s);
      var rest := S - {s[0]};
      forall x ensures x in rest <==> x in s[1..] {
        assert x in s <==> x == s[0] || x in s[1..] by {
          assert s == [s[0]] + s[1..];
        }
      }
      IncreasingCard(s[1..], rest);
      assert S == rest + {s[0]};
    } else {
      assert forall x :: x !in S;
      assert S == {};
    }
  }

  /** The members of S within [lo, hi), ascending. */
  function Enumerate(S: set<nat>, lo: nat, hi: nat): (r: seq<nat>)
    ensures Increasing(r)
    ensures forall x :: x in r <==> x in S && lo <= x < hi
    decreases hi - lo
  {
    if lo >= hi then []
    else
      var rest := Enumerate(S, lo + 1, hi);
      if lo in S then Prepend(lo, rest); [lo] + rest else rest
  }

  /**
   * What a visitor-driven enumeration did: the arguments the visitor was
   * called with, in order, and whether the enumeration ran to completion
   * (the value the enumeration returns).
   */
  datatype Visit = Visit(calls: seq<nat>, completed: bool)

  /**
   * Offers xs to the visitor f in order, stopping right after the first
   * element f rejects: the `advance` protocol.
   */
  function Walk(xs: seq<nat>, f: nat -> bool): Visit
  {
    if |xs| == 0 then Visit([], true)
    else if !f(xs[0]) then Visit([xs[0]], false)
    else
      var rest := Walk(xs[1..], f);
      Visit([xs[0]] + rest.calls, rest.completed)
  }

  /**
   * The walk offers a prefix of xs; it completes exactly when f accepts every
   * element, having then offered all of them, and otherwise stops at the
   * first element f rejects.
   */
  lemma {:induction false} WalkMeaning(xs: seq<nat>, f: nat -> bool)
    ensures var v := Walk(xs, f);
            v.calls <= xs &&
            (v.completed <==> forall k :: 0 <= k < |xs| ==> f(xs[k])) &&
            (v.completed ==> v.calls == xs) &&
            (!v.completed ==>
               |v.calls| > 0 && !f(v.calls[|v.calls| - 1]) &&
               forall k :: 0 <= k < |v.calls| - 1 ==> f(v.calls[k]))
  {
    if |xs| > 0 && f(xs[0]) {
      WalkMeaning(xs[1..], f);
      var rest := Walk(xs[1..], f);
      if rest.completed {
        forall k | 0 <= k < |xs| ensures f(xs[k]) {
          if k > 0 { assert xs[k] == xs[1..][k - 1]; }
        }
      }
    }
  }

  /** Runs `second` only if `first` completed: two enumeration loops in sequence. */
  function Then(first: Visit, second: Visit): Visit
  {
    if first.completed then Visit(first.calls + second.calls, second.completed) else first
  }

  lemma {:induction false} WalkAppend(xs: seq<nat>, ys: seq<nat>, f: nat -> bool)
    ensures Walk(xs + ys, f) == Then(Walk(xs, f), Walk(ys, f))
  {
    if |xs| == 0 {
      assert xs + ys == ys;
    } else {
      var zs := xs + ys;
      assert zs[0] == xs[0];
      assert zs[1..] == xs[1..] + ys;
      if f(xs[0]) {
        WalkAppend(xs[1..], ys, f);
      }
    }
  }
}

/** The optional value iterators return. */
module Options {
  datatype Option<T> = None | Some(value: T)
}
