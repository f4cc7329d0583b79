/** `sum_heap_lines` of `src/lib.rs`: split the listing into lines, keep the
    ranges of the lines the recognizer accepts, and add up `end - start`. */
module HeapSum {
  import opened Combinators
  import opened Hex
  import opened HeapMaps
  import opened TextLines
  import opened Sums
  import opened FilterMaps

  /** `range.end - range.start`, as a mathematical integer: non-negative
      exactly when the range is ordered. */
  function Size(range: AddressRange): (size: int)
    ensures size >= 0 <==> range.start <= range.end
  {
    range.end - range.start
  }

  /** The range a line contributes: present exactly when the recognizer
      accepts the line, and then a range of `usize` bounds. */
  function RangeOfLine(line: string): (r: Option<AddressRange>)
    ensures r.Some? <==> RecognizeHeap(line).Some?
    ensures r.Some? ==> r.value.start < WordModulus && r.value.end < WordModulus
    ensures r.Some? ==> exists m: MapLine, tail: string ::
              WellFormed(m) && Fits(m) && line == Layout(m, tail) && RangeOf(m) == r.value
  {
    match RecognizeHeap(line)
    case None => None
    case Some(rec) =>
      AcceptedLineHasLayout(line);
      Some(rec.range)
  }

  /** `filter_map(|line| recognize_heap(line).ok())`: the ranges of the
      accepted lines, in order; rejected lines are dropped silently. */
  function AcceptedRanges(lines: seq<string>): (ranges: seq<AddressRange>)
    ensures |ranges| <= |lines|
  {
    FilterMap(lines, RangeOfLine)
  }

  /** A single line gives its range when it is accepted and nothing otherwise. */
  lemma AcceptedRangesOne(line: string)
    ensures AcceptedRanges([line])
            == if RangeOfLine(line).Some? then [RangeOfLine(line).value] else []
  {
    FilterMapOne(line, RangeOfLine);
  }

  /** The filter works line by line: the ranges of two listings one after the
      other are the ranges of the first followed by those of the second. */
  lemma AcceptedRangesAppend(a: seq<string>, b: seq<string>)
    ensures AcceptedRanges(a + b) == AcceptedRanges(a) + AcceptedRanges(b)
  {
    FilterMapAppend(a, b, RangeOfLine);
  }

  /** No accepted line is dropped: the range of every accepted line is kept at
      its own position, after the ranges of the lines before it and before
      those of the lines after it, even when another line has the same range. */
  lemma AcceptedRangesComplete(lines: seq<string>)
    ensures forall i :: 0 <= i < |lines| && RangeOfLine(lines[i]).Some?
              ==> AcceptedRanges(lines)
                  == AcceptedRanges(lines[..i]) + [RangeOfLine(lines[i]).value] + AcceptedRanges(lines[i + 1..])
    ensures forall i :: 0 <= i < |lines| && RangeOfLine(lines[i]).Some?
              ==> RangeOfLine(lines[i]).value in AcceptedRanges(lines)
  {
    forall i | 0 <= i < |lines| && RangeOfLine(lines[i]).Some?
      ensures AcceptedRanges(lines)
              == AcceptedRanges(lines[..i]) + [RangeOfLine(lines[i]).value] + AcceptedRanges(lines[i + 1..])
    {
      FilterMapKept(lines, i, RangeOfLine);
    }
  }

  /** Every range kept comes from an accepted line. */
  lemma AcceptedRangesSound(lines: seq<string>)
    ensures forall r :: r in AcceptedRanges(lines)
              ==> exists i :: 0 <= i < |lines| && RangeOfLine(lines[i]) == Some(r)
  {
    FilterMapSound(lines, RangeOfLine);
  }

  /** `.map(|range| range.end - range.start).sum()`, added up from the front
      as the iterator does; it agrees with the reference sum `SumBy`. */
  function TotalSize(ranges: seq<AddressRange>): (total: int)
    ensures total == SumBy(ranges, Size)
  {
    if |ranges| == 0 then 0
    else
      SumByFirst(ranges, Size);
      Size(ranges[0]) + TotalSize(ranges[1..])
  }

  /** `sum_heap_lines`: the total size of the heap-like mappings of a listing.
      It is the sum, over the lines `str::lines` yields, of what each line
      contributes. */
  function SumHeapLines(listing: string): (total: int)
    ensures total == SumBy(Lines(listing), LineContribution)
  {
    PipelineSumsContributions(Lines(listing));
    TotalSize(AcceptedRanges(Lines(listing)))
  }

  /** What one line adds to the total: its range's size if it is accepted,
      nothing otherwise. This is the total of the one-line listing. */
  function LineContribution(line: string): (c: int)
    ensures c == TotalSize(AcceptedRanges([line]))
  {
    AcceptedRangesOne(line);
    match RangeOfLine(line)
    case None => 0
    case Some(r) =>
      assert [r][1..] == [];
      Size(r)
  }

  /** The pipeline of `sum_heap_lines` adds exactly the contribution of every
      line: accepted lines count with their size, rejected lines with 0. */
  lemma {:induction false} PipelineSumsContributions(lines: seq<string>)
    ensures TotalSize(AcceptedRanges(lines)) == SumBy(lines, LineContribution)
  {
    if |lines| > 0 {
      PipelineSumsContributions(lines[1..]);
      PipelineStep(lines);
      SumByFirst(lines, LineContribution);
    }
  }

  /** The first line adds its contribution to the total of the lines after it. */
  lemma PipelineStep(lines: seq<string>)
    requires |lines| > 0
    ensures TotalSize(AcceptedRanges(lines))
            == LineContribution(lines[0]) + TotalSize(AcceptedRanges(lines[1..]))
  {
  }

  /** A listing in which no line is accepted (an empty one included) totals 0. */
  lemma {:induction false} NothingAcceptedSumsToZero(lines: seq<string>)
    requires forall i :: 0 <= i < |lines| ==> RecognizeHeap(lines[i]).None?
    ensures TotalSize(AcceptedRanges(lines)) == 0
  {
    if |lines| > 0 {
      assert forall i :: 0 <= i < |lines| - 1 ==> lines[1..][i] == lines[i + 1];
      NothingAcceptedSumsToZero(lines[1..]);
    }
  }

  /** A rejected line anywhere in the listing changes nothing. */
  lemma RejectedLineIgnored(before: seq<string>, line: string, after: seq<string>)
    requires RecognizeHeap(line).None?
    ensures TotalSize(AcceptedRanges(before + [line] + after))
            == TotalSize(AcceptedRanges(before + after))
  {
    var lines := before + [line] + after;
    assert lines[..|before|] == before && lines[|before|] == line;
    assert lines[|before| + 1..] == after;
    FilterMapSkipped(lines, |before|, RangeOfLine);
    AcceptedRangesAppend(before, after);
  }

  /** Permuting the lines of a listing does not change its total. */
  lemma OrderIndependent(a: seq<string>, b: seq<string>)
    requires multiset(a) == multiset(b)
    ensures TotalSize(AcceptedRanges(a)) == TotalSize(AcceptedRanges(b))
  {
    PipelineSumsContributions(a);
    PipelineSumsContributions(b);
    SumByPermutation(a, b, LineContribution);
  }

  /** When every accepted range is ordered (`start <= end`, as the kernel
      always writes it), the total is a byte count. */
  lemma {:induction false} OrderedRangesSumNonNegative(lines: seq<string>)
    requires forall i :: 0 <= i < |lines| && RangeOfLine(lines[i]).Some?
               ==> RangeOfLine(lines[i]).value.start <= RangeOfLine(lines[i]).value.end
    ensures TotalSize(AcceptedRanges(lines)) >= 0
  {
    if |lines| > 0 {
      assert forall i :: 0 <= i < |lines| - 1 ==> lines[1..][i] == lines[i + 1];
      OrderedRangesSumNonNegative(lines[1..]);
    }
  }

  /** The total of a listing written line by line with line feeds is the sum
      of the lines' contributions. */
  lemma SumOfJoinedListing(lines: seq<string>)
    requires PlainLines(lines)
    ensures SumHeapLines(JoinLines(lines)) == SumBy(lines, LineContribution)
  {
    LinesOfJoin(lines);
    PipelineSumsContributions(lines);
  }
}
