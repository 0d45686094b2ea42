/**
  The shape shared by the author loop and the file loop of app.py: walk a
  sequence and append, for each element, the zero or more items it yields.
 */
module Gather {

  /** What such a loop has appended once it has visited the first `n` elements. */
  function GatherUpTo<A, B>(f: A -> seq<B>, xs: seq<A>, n: nat): seq<B>
    requires n <= |xs|
  {
    if n == 0 then [] else GatherUpTo(f, xs, n - 1) + f(xs[n - 1])
  }

  /** What such a loop has appended after visiting every element. */
  function GatherAll<A, B>(f: A -> seq<B>, xs: seq<A>): seq<B> {
    GatherUpTo(f, xs, |xs|)
  }

  /** Visiting one more element appends what it yields. */
  lemma GatherStep<A, B>(f: A -> seq<B>, xs: seq<A>, n: nat)
    requires n < |xs|
    ensures GatherUpTo(f, xs, n + 1) == GatherUpTo(f, xs, n) + f(xs[n])
  {
  }

  /** Elements after the first `n` do not change what those yielded. */
  lemma {:induction false} GatherPrefix<A, B>(f: A -> seq<B>, a: seq<A>, b: seq<A>, n: nat)
    requires n <= |a|
    ensures GatherUpTo(f, a + b, n) == GatherUpTo(f, a, n)
  {
    if n > 0 {
      assert (a + b)[n - 1] == a[n - 1];
      GatherPrefix(f, a, b, n - 1);
    }
  }

  lemma {:induction false} GatherAppendUpTo<A, B>(f: A -> seq<B>, a: seq<A>, b: seq<A>, k: nat)
    requires k <= |b|
    ensures GatherUpTo(f, a + b, |a| + k) == GatherAll(f, a) + GatherUpTo(f, b, k)
  {
    if k == 0 {
      GatherPrefix(f, a, b, |a|);
    } else {
      assert (a + b)[|a| + k - 1] == b[k - 1];
      GatherAppendUpTo(f, a, b, k - 1);
      var front, rest := GatherAll(f, a), GatherUpTo(f, b, k - 1);
      assert GatherUpTo(f, a + b, |a| + k) == front + rest + f(b[k - 1]);
      assert front + rest + f(b[k - 1]) == front + (rest + f(b[k - 1]));
    }
  }

  /** Gathering a concatenation gathers its parts, in the same order. */
  lemma GatherAppend<A, B>(f: A -> seq<B>, a: seq<A>, b: seq<A>)
    ensures GatherAll(f, a + b) == GatherAll(f, a) + GatherAll(f, b)
  {
    GatherAppendUpTo(f, a, b, |b|);
  }

  lemma GatherSingle<A, B>(f: A -> seq<B>, x: A)
    ensures GatherAll(f, [x]) == f(x)
  {
    assert GatherUpTo(f, [x], 0) == [];
  }

  /** An item is gathered exactly when one of the visited elements yields it. */
  lemma {:induction false} GatherMembers<A, B>(f: A -> seq<B>, xs: seq<A>, n: nat, y: B)
    requires n <= |xs|
    ensures y in GatherUpTo(f, xs, n) <==> exists i :: 0 <= i < n && y in f(xs[i])
  {
    if n > 0 {
      GatherMembers(f, xs, n - 1, y);
    }
  }
}
