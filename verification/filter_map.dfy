/** `Iterator::filter_map` over a sequence: apply a partial function to every
    element and keep the defined results, in order. */
module FilterMaps {
  import opened Combinators

  /** The results `f` gives for the elements of `xs`, in order, skipping the
      elements on which it gives nothing. */
  function FilterMap<T, U>(xs: seq<T>, f: T -> Option<U>): (ys: seq<U>)
    ensures |ys| <= |xs|
  {
    if |xs| == 0 then []
    else
      match f(xs[0])
      case None => FilterMap(xs[1..], f)
      case Some(y) => [y] + FilterMap(xs[1..], f)
  }

  /** One element gives its result if it has one, and nothing otherwise. */
  lemma FilterMapOne<T, U>(x: T, f: T -> Option<U>)
    ensures FilterMap([x], f) == if f(x).Some? then [f(x).value] else []
  {
    assert [x][1..] == [];
  }

  /** The filter works element by element: filtering two sequences one after
      the other gives the results of the first followed by those of the
      second. */
  lemma {:induction false} FilterMapAppend<T, U>(a: seq<T>, b: seq<T>, f: T -> Option<U>)
    ensures FilterMap(a + b, f) == FilterMap(a, f) + FilterMap(b, f)
    decreases |a|
  {
    if |a| == 0 {
      assert a + b == b;
    } else {
      assert (a + b)[0] == a[0];
      assert (a + b)[1..] == a[1..] + b;
      FilterMapAppend(a[1..], b, f);
    }
  }

  /** The result of the element at position `i`, when it has one, sits
      between the results of the elements before it and after it. */
  lemma FilterMapKept<T, U>(xs: seq<T>, i: nat, f: T -> Option<U>)
    requires i < |xs| && f(xs[i]).Some?
    ensures FilterMap(xs, f) == FilterMap(xs[..i], f) + [f(xs[i]).value] + FilterMap(xs[i + 1..], f)
  {
    FilterMapAround(xs, i, f);
    FilterMapOne(xs[i], f);
  }

  /** The element at position `i`, when it has no result, is skipped. */
  lemma FilterMapSkipped<T, U>(xs: seq<T>, i: nat, f: T -> Option<U>)
    requires i < |xs| && f(xs[i]).None?
    ensures FilterMap(xs, f) == FilterMap(xs[..i], f) + FilterMap(xs[i + 1..], f)
  {
    FilterMapAround(xs, i, f);
    FilterMapOne(xs[i], f);
    assert FilterMap(xs[..i], f) + [] == FilterMap(xs[..i], f);
  }

  /** Filtering splits around any position. */
  lemma FilterMapAround<T, U>(xs: seq<T>, i: nat, f: T -> Option<U>)
    requires i < |xs|
    ensures FilterMap(xs, f) == FilterMap(xs[..i], f) + FilterMap([xs[i]], f) + FilterMap(xs[i + 1..], f)
  {
    SplitAt(xs, i);
    FilterMapAppend(xs[..i] + [xs[i]], xs[i + 1..], f);
    FilterMapAppend(xs[..i], [xs[i]], f);
  }

  /** Every result kept is the result of some element. */
  lemma {:induction false} FilterMapSound<T, U>(xs: seq<T>, f: T -> Option<U>)
    ensures forall y :: y in FilterMap(xs, f) ==> exists i :: 0 <= i < |xs| && f(xs[i]) == Some(y)
    decreases |xs|
  {
    if |xs| > 0 {
      FilterMapSound(xs[1..], f);
      forall y | y in FilterMap(xs, f)
        ensures exists i :: 0 <= i < |xs| && f(xs[i]) == Some(y)
      {
        if f(xs[0]) != Some(y) {
          assert y in FilterMap(xs[1..], f);
          var j :| 0 <= j < |xs[1..]| && f(xs[1..][j]) == Some(y);
          assert xs[1..][j] == xs[j + 1];
        }
      }
    }
  }
}
