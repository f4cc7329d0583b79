/** Rust's `str::lines`: the text is cut after every line feed; a line that
    ended in `\r\n` loses the carriage return too; a final line feed does not
    start an extra empty line. */
module TextLines {
  import opened Combinators

  predicate IsNotLineFeed(c: char) {
    c != '\n'
  }

  /** A line as `str::lines` can return it: it holds no line feed. */
  predicate IsLine(line: string) {
    All(line, IsNotLineFeed)
  }

  predicate EndsInCarriageReturn(line: string) {
    |line| > 0 && line[|line| - 1] == '\r'
  }

  /** Lines that a line-feed join keeps apart and a split gives back as they
      are: no line feed inside, no carriage return at the end. */
  predicate PlainLines(lines: seq<string>) {
    forall i :: 0 <= i < |lines| ==> IsLine(lines[i]) && !EndsInCarriageReturn(lines[i])
  }

  /** Removes the carriage return of a `\r\n` line ending. */
  function StripCarriageReturn(line: string): (r: string)
    ensures |r| <= |line| && r == line[..|r|]
    ensures EndsInCarriageReturn(line) ==> |r| == |line| - 1
    ensures !EndsInCarriageReturn(line) ==> r == line
  {
    if EndsInCarriageReturn(line) then line[..|line| - 1] else line
  }

  /** The lines of `text`, top to bottom. */
  function Lines(text: string): (ls: seq<string>)
    ensures |ls| <= |text|
    ensures |ls| == 0 <==> |text| == 0
    ensures forall i :: 0 <= i < |ls| ==> IsLine(ls[i])
    decreases |text|
  {
    if |text| == 0 then []
    else
      var n := SpanLength(text, IsNotLineFeed);
      if n == |text| then
        assert text[..n] == text;
        [text]
      else
        [StripCarriageReturn(text[..n])] + Lines(text[n + 1..])
  }

  /** The text of `lines`, each one terminated by a line feed. */
  function JoinLines(lines: seq<string>): string {
    if |lines| == 0 then "" else lines[0] + "\n" + JoinLines(lines[1..])
  }

  /** The text of `lines`, each one terminated by a carriage return and a line
      feed. */
  function JoinCrlfLines(lines: seq<string>): string {
    if |lines| == 0 then "" else lines[0] + "\r\n" + JoinCrlfLines(lines[1..])
  }

  /** A text without a line feed is a line. */
  lemma LineWithoutLineFeed(text: string)
    requires '\n' !in text
    ensures IsLine(text)
  {
    assert forall i :: 0 <= i < |text| ==> text[i] in text;
  }

  /** The first line of a text that has a line feed is the text before it. */
  lemma FirstLine(line: string, rest: string)
    requires IsLine(line)
    ensures Lines(line + "\n" + rest) == [StripCarriageReturn(line)] + Lines(rest)
  {
    var text := line + "\n" + rest;
    assert text == line + ("\n" + rest);
    SpanLengthExact(line, "\n" + rest, IsNotLineFeed);
    assert text[..|line|] == line;
    assert text[|line| + 1..] == rest;
  }

  /** Splitting undoes joining with line feeds, for lines that hold no line
      feed and do not end in a carriage return. */
  lemma {:induction false} LinesOfJoin(lines: seq<string>)
    requires PlainLines(lines)
    ensures Lines(JoinLines(lines)) == lines
  {
    if |lines| > 0 {
      FirstLine(lines[0], JoinLines(lines[1..]));
      LinesOfJoin(lines[1..]);
      assert lines == [lines[0]] + lines[1..];
    }
  }

  /** Splitting undoes joining with `\r\n`, for any lines without line feeds:
      exactly one carriage return is removed from each. */
  lemma {:induction false} LinesOfCrlfJoin(lines: seq<string>)
    requires forall i :: 0 <= i < |lines| ==> IsLine(lines[i])
    ensures Lines(JoinCrlfLines(lines)) == lines
  {
    if |lines| > 0 {
      var line := lines[0] + "\r";
      assert IsLine(line);
      assert lines[0] + "\r\n" + JoinCrlfLines(lines[1..]) == line + "\n" + JoinCrlfLines(lines[1..]);
      FirstLine(line, JoinCrlfLines(lines[1..]));
      assert StripCarriageReturn(line) == lines[0];
      LinesOfCrlfJoin(lines[1..]);
      assert lines == [lines[0]] + lines[1..];
    }
  }

  /** A non-empty text without line feeds is one line. */
  lemma SingleLine(line: string)
    requires |line| > 0 && IsLine(line)
    ensures Lines(line) == [line]
  {
    assert line + "" == line;
    SpanLengthExact(line, "", IsNotLineFeed);
  }

  /** The line feed after the last line is optional. */
  lemma {:induction false} LastLineUnterminated(lines: seq<string>, last: string)
    requires PlainLines(lines)
    requires |last| > 0 && IsLine(last)
    ensures Lines(JoinLines(lines) + last) == lines + [last]
  {
    if |lines| == 0 {
      assert JoinLines(lines) + last == last;
      SingleLine(last);
    } else {
      assert PlainLines(lines[1..]);
      LastLineUnterminated(lines[1..], last);
      JoinedFirstLine(lines, last);
      assert lines + [last] == [lines[0]] + (lines[1..] + [last]);
    }
  }

  /** The first of the joined lines comes back first, whatever text follows
      the join. */
  lemma JoinedFirstLine(lines: seq<string>, text: string)
    requires |lines| > 0 && IsLine(lines[0]) && !EndsInCarriageReturn(lines[0])
    ensures Lines(JoinLines(lines) + text) == [lines[0]] + Lines(JoinLines(lines[1..]) + text)
  {
    JoinThen(lines, text);
    PlainFirstLine(lines[0], JoinLines(lines[1..]) + text);
  }

  /** Text after a join follows the last line's line feed. */
  lemma JoinThen(lines: seq<string>, text: string)
    requires |lines| > 0
    ensures JoinLines(lines) + text == lines[0] + "\n" + (JoinLines(lines[1..]) + text)
  {}

  /** The first line of a text is kept whole when it does not end in a
      carriage return. */
  lemma PlainFirstLine(line: string, rest: string)
    requires IsLine(line) && !EndsInCarriageReturn(line)
    ensures Lines(line + "\n" + rest) == [line] + Lines(rest)
  {
    FirstLine(line, rest);
  }
}
