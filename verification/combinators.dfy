/** The observable behaviour of the few `nom` parser combinators the recognizer
    is built from, over complete (non-streaming) `&str` input. A parser either
    fails or succeeds with the text it consumed and the unconsumed tail. */
module Combinators {

  /** Failure-compatible optional value, so that parsers chain with `:-` the
      way the Rust code chains them with `?`. */
  datatype Option<+T> = None | Some(value: T) {

    predicate IsFailure() {
      None?
    }

    function PropagateFailure<U>(): Option<U>
      requires None?
    {
      None
    }

    function Extract(): T
      requires Some?
    {
      value
    }
  }

  /** A successful parse step: what was consumed and what remains. */
  datatype Split = Split(matched: string, tail: string)

  /** True when every character of `s` satisfies `p`. */
  predicate All(s: string, p: char -> bool) {
    forall i :: 0 <= i < |s| ==> p(s[i])
  }

  /** `All` distributes over concatenation. */
  lemma AllConcat(a: string, b: string, p: char -> bool)
    requires All(a, p) && All(b, p)
    ensures All(a + b, p)
  {
    assert forall i :: |a| <= i < |a + b| ==> (a + b)[i] == b[i - |a|];
  }

  /** A sequence is its prefix, one element, and its suffix. */
  lemma SplitAt<T>(xs: seq<T>, i: nat)
    requires i < |xs|
    ensures xs == xs[..i] + [xs[i]] + xs[i + 1..]
  {
  }

  /** Length of the longest prefix of `s` whose characters all satisfy `p`. */
  function SpanLength(s: string, p: char -> bool): (n: nat)
    ensures n <= |s|
    ensures All(s[..n], p)
    ensures n < |s| ==> !p(s[n])
  {
    if |s| == 0 || !p(s[0]) then 0
    else
      var n := 1 + SpanLength(s[1..], p);
      assert s[..n] == [s[0]] + s[1..][..n - 1];
      n
  }

  /** The `take_while1` family (`hex_digit1`, `multispace1`, `is_a`): the longest
      non-empty prefix of characters satisfying `p`; fails when the first
      character does not satisfy `p` or the input is empty. */
  function TakeWhile1(s: string, p: char -> bool): (r: Option<Split>)
    ensures r.Some? <==> |s| > 0 && p(s[0])
    ensures r.Some? ==> s == r.value.matched + r.value.tail
    ensures r.Some? ==> |r.value.matched| > 0 && All(r.value.matched, p)
    ensures r.Some? ==> |r.value.tail| == 0 || !p(r.value.tail[0])
  {
    var n := SpanLength(s, p);
    if n == 0 then None
    else
      assert s == s[..n] + s[n..];
      Some(Split(s[..n], s[n..]))
  }

  /** The character class of `multispace1`: space, tab, carriage return, line feed. */
  predicate IsMultispace(c: char) {
    c == ' ' || c == '\t' || c == '\r' || c == '\n'
  }

  /** `multispace1`: the longest non-empty run of whitespace. */
  function Multispace1(s: string): (r: Option<Split>)
    ensures r.Some? <==> |s| > 0 && IsMultispace(s[0])
    ensures r.Some? ==> s == r.value.matched + r.value.tail && |r.value.matched| > 0
    ensures r.Some? ==> All(r.value.matched, IsMultispace) && (|r.value.tail| == 0 || !IsMultispace(r.value.tail[0]))
  {
    TakeWhile1(s, IsMultispace)
  }

  /** `tag(lit)`: succeeds with the tail exactly when `lit` is a prefix of `s`. */
  function Tag(lit: string, s: string): (r: Option<string>)
    ensures r.Some? <==> lit <= s
    ensures r.Some? ==> s == lit + r.value
  {
    if |lit| <= |s| && s[..|lit|] == lit then
      assert s == s[..|lit|] + s[|lit|..];
      Some(s[|lit|..])
    else None
  }

  /** The span of a `p` run followed by a non-`p` character is the run. */
  lemma {:induction false} SpanLengthExact(run: string, rest: string, p: char -> bool)
    requires All(run, p)
    requires |rest| == 0 || !p(rest[0])
    ensures SpanLength(run + rest, p) == |run|
  {
    if |run| > 0 {
      assert (run + rest)[1..] == run[1..] + rest;
      SpanLengthExact(run[1..], rest, p);
    }
  }

  /** Maximal munch: a non-empty run of `p` characters followed by something
      that is not a `p` character is consumed exactly. */
  lemma TakeWhile1Exact(run: string, rest: string, p: char -> bool)
    requires |run| > 0 && All(run, p)
    requires |rest| == 0 || !p(rest[0])
    ensures TakeWhile1(run + rest, p) == Some(Split(run, rest))
  {
    SpanLengthExact(run, rest, p);
    assert (run + rest)[..|run|] == run;
    assert (run + rest)[|run|..] == rest;
  }

  /** A literal followed by anything is consumed exactly. */
  lemma TagExact(lit: string, rest: string)
    ensures Tag(lit, lit + rest) == Some(rest)
  {
    assert lit <= lit + rest;
    var r := Tag(lit, lit + rest);
    assert (lit + rest)[|lit|..] == rest;
  }
}
