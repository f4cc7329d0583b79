/** Sums of a weight over the elements of a sequence, and the facts about
    them the listing total needs: splitting, removing one element, and
    independence from the order of the elements. */
module Sums {
  import opened Combinators

  /** The sum of `weight(x)` over the elements `x` of `xs`, taken from the
      back of the sequence. */
  function SumBy<T>(xs: seq<T>, weight: T -> int): int {
    if |xs| == 0 then 0 else SumBy(xs[..|xs| - 1], weight) + weight(xs[|xs| - 1])
  }

  lemma SumBySingle<T>(x: T, weight: T -> int)
    ensures SumBy([x], weight) == weight(x)
  {
    assert [x][..0] == [];
  }

  lemma {:induction false} SumByAppend<T>(a: seq<T>, b: seq<T>, weight: T -> int)
    ensures SumBy(a + b, weight) == SumBy(a, weight) + SumBy(b, weight)
    decreases |b|
  {
    if |b| == 0 {
      assert a + b == a;
    } else {
      assert (a + b)[..|a + b| - 1] == a + b[..|b| - 1];
      SumByAppend(a, b[..|b| - 1], weight);
    }
  }

  /** The first element's weight comes on top of the rest's sum. */
  lemma SumByFirst<T>(xs: seq<T>, weight: T -> int)
    requires |xs| > 0
    ensures SumBy(xs, weight) == weight(xs[0]) + SumBy(xs[1..], weight)
  {
    assert xs == [xs[0]] + xs[1..];
    SumByAppend([xs[0]], xs[1..], weight);
    SumBySingle(xs[0], weight);
  }

  /** Appending one element adds its weight. */
  lemma SumBySnoc<T>(xs: seq<T>, x: T, weight: T -> int)
    ensures SumBy(xs + [x], weight) == SumBy(xs, weight) + weight(x)
  {
    assert (xs + [x])[..|xs|] == xs;
  }

  /** An element in the middle adds its weight. */
  lemma SumByMiddle<T>(front: seq<T>, x: T, back: seq<T>, weight: T -> int)
    ensures SumBy(front + [x] + back, weight) == SumBy(front + back, weight) + weight(x)
  {
    SumBySnoc(front, x, weight);
    SumByAppend(front + [x], back, weight);
    SumByAppend(front, back, weight);
  }

  /** Removing the element at position `i` removes exactly its weight. */
  lemma SumByRemove<T>(xs: seq<T>, i: nat, weight: T -> int)
    requires i < |xs|
    ensures SumBy(xs, weight) == SumBy(xs[..i] + xs[i + 1..], weight) + weight(xs[i])
  {
    SplitAt(xs, i);
    SumByMiddle(xs[..i], xs[i], xs[i + 1..], weight);
  }

  /** The last element of `a` occurs in any `b` with the same elements, and
      taking one occurrence out of each leaves equal multisets. */
  lemma MatchLast<T>(a: seq<T>, b: seq<T>) returns (i: nat)
    requires |a| > 0 && multiset(a) == multiset(b)
    ensures i < |b| && b[i] == a[|a| - 1]
    ensures multiset(a[..|a| - 1]) == multiset(b[..i] + b[i + 1..])
  {
    var last := a[|a| - 1];
    assert last in multiset(b);
    i :| 0 <= i < |b| && b[i] == last;
    assert b == b[..i] + [b[i]] + b[i + 1..];
    assert multiset(b) == multiset(b[..i] + b[i + 1..]) + multiset{last};
    assert a == a[..|a| - 1] + [last];
    assert multiset(a) == multiset(a[..|a| - 1]) + multiset{last};
    assert multiset(a[..|a| - 1]) == multiset(a) - multiset{last};
    assert multiset(b[..i] + b[i + 1..]) == multiset(b) - multiset{last};
  }

  /** The sum does not depend on the order of the elements. */
  lemma {:induction false} SumByPermutation<T>(a: seq<T>, b: seq<T>, weight: T -> int)
    requires multiset(a) == multiset(b)
    ensures SumBy(a, weight) == SumBy(b, weight)
    decreases |a|
  {
    if |a| > 0 {
      var i := MatchLast(a, b);
      SumByPermutation(a[..|a| - 1], b[..i] + b[i + 1..], weight);
      SumByRemove(b, i, weight);
    } else {
      assert |multiset(b)| == 0;
    }
  }
}
