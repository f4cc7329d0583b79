/** Concrete lines and listings: the two recognizer tests of `src/lib.rs`, an
    excerpt of its example listing, and edge cases of the parser.

    Each line is a named constant concatenated from short pieces (a digit run
    as `"7ff6" + "ad5f" + "8000"`), so that facts about a line follow from
    facts about its pieces instead of from character-by-character evaluation
    of one long literal, which the prover handles poorly. */
module HeapExamples {
  import opened Combinators
  import opened Hex
  import opened HeapMaps
  import opened TextLines
  import opened Sums
  import opened HeapSum

  /** The single-space layout `start-end perms 00000000 00:00 0`. */
  function Spaced(startDigits: string, endDigits: string, perms: string): MapLine {
    MapLine(startDigits, endDigits, " ", perms, " ", " ", " ")
  }

  /** The value of a digit run from the values of its three pieces. */
  lemma HexValueOfPieces(digits: string, a: string, b: string, c: string, va: nat, vab: nat, value: nat)
    requires digits == a + b + c && |a| > 0
    requires All(a, IsHexDigit) && All(b, IsHexDigit) && All(c, IsHexDigit)
    requires HexValue(a) == va && HexFrom(va, b) == vab && HexFrom(vab, c) == value
    ensures IsHexRun(digits) && HexValue(digits) == value
  {
    AllConcat(a, b, IsHexDigit);
    AllConcat(a + b, c, IsHexDigit);
    HexFromAppend(0, a, b);
    HexFromAppend(0, a + b, c);
  }

  /** The single-space layout, written out field by field. */
  lemma SpacedLayout(startDigits: string, endDigits: string, perms: string, tail: string)
    ensures startDigits + "-" + endDigits + " " + perms + " " + "00000000" + " " + "00:00" + " " + "0" + tail
            == Layout(Spaced(startDigits, endDigits, perms), "") + tail
  {
    assert AnonymousInode + "" == "0";
  }

  /** A line in the single-space layout is accepted with the values of its
      digit runs when both fit a `usize`, and rejected otherwise. */
  lemma SpacedLine(line: string, startDigits: string, endDigits: string, perms: string, tail: string)
    requires IsHexRun(startDigits) && IsHexRun(endDigits)
    requires |perms| > 0 && All(perms, IsPermissionChar)
    requires line == startDigits + "-" + endDigits + " " + perms + " " + "00000000" + " " + "00:00" + " " + "0" + tail
    ensures RecognizeHeap(line)
            == if HexValue(startDigits) < WordModulus && HexValue(endDigits) < WordModulus
               then Some(Recognized(tail, AddressRange(HexValue(startDigits), HexValue(endDigits))))
               else None
  {
    assert IsSeparator(" ");
    SpacedLayout(startDigits, endDigits, perms, tail);
    LayoutThenTail(Spaced(startDigits, endDigits, perms), tail);
    AcceptsLayout(Spaced(startDigits, endDigits, perms), tail);
  }

  /** A line in the single-space layout whose digit runs have values that
      fit a `usize` is accepted with those values. */
  lemma SpacedLineAccepted(line: string, startDigits: string, endDigits: string, perms: string, tail: string,
                           start: nat, end: nat)
    requires IsHexRun(startDigits) && HexValue(startDigits) == start && start < WordModulus
    requires IsHexRun(endDigits) && HexValue(endDigits) == end && end < WordModulus
    requires |perms| > 0 && All(perms, IsPermissionChar)
    requires line == startDigits + "-" + endDigits + " " + perms + " " + "00000000" + " " + "00:00" + " " + "0" + tail
    ensures RecognizeHeap(line) == Some(Recognized(tail, AddressRange(start, end)))
  {
    SpacedLine(line, startDigits, endDigits, perms, tail);
  }

  /** The same, for a line that ends with its inode field. */
  lemma SpacedBareLineAccepted(line: string, startDigits: string, endDigits: string, perms: string,
                               start: nat, end: nat)
    requires IsHexRun(startDigits) && HexValue(startDigits) == start && start < WordModulus
    requires IsHexRun(endDigits) && HexValue(endDigits) == end && end < WordModulus
    requires |perms| > 0 && All(perms, IsPermissionChar)
    requires line == startDigits + "-" + endDigits + " " + perms + " " + "00000000" + " " + "00:00" + " " + "0"
    ensures RecognizeHeap(line) == Some(Recognized("", AddressRange(start, end)))
  {
    assert line == line + "";
    SpacedLineAccepted(line, startDigits, endDigits, perms, "", start, end);
  }

  /** A line in the single-space layout whose offset field is not
      `00000000` is rejected. */
  lemma SpacedOffsetRejected(line: string, startDigits: string, endDigits: string, perms: string, rest: string)
    requires IsHexRun(startDigits) && IsHexRun(endDigits)
    requires |perms| > 0 && All(perms, IsPermissionChar)
    requires |rest| > 0 && !IsMultispace(rest[0]) && !(ZeroOffset <= rest)
    requires line == Head(Spaced(startDigits, endDigits, perms), "") + rest
    ensures RecognizeHeap(line) == None
  {
    assert IsSeparator(" ");
    var m := Spaced(startDigits, endDigits, perms);
    assert Head(m, "") + rest == Head(m, rest);
    OffsetMismatchRejected(m, rest);
  }

  /** A line in the single-space layout whose device field is not `00:00`
      is rejected. */
  lemma SpacedDeviceRejected(line: string, startDigits: string, endDigits: string, perms: string, rest: string)
    requires IsHexRun(startDigits) && IsHexRun(endDigits)
    requires |perms| > 0 && All(perms, IsPermissionChar)
    requires |rest| > 0 && !IsMultispace(rest[0]) && !(AnonymousDevice <= rest)
    requires line == Head(Spaced(startDigits, endDigits, perms), "") + (ZeroOffset + " ") + rest
    ensures RecognizeHeap(line) == None
  {
    assert IsSeparator(" ");
    var m := Spaced(startDigits, endDigits, perms);
    assert Head(m, "") + (ZeroOffset + " ") + rest == Head(m, ZeroOffset + (" " + rest));
    DeviceMismatchRejected(m, rest);
  }

  /** A line whose permission run is followed by a character that is neither
      a permission character nor whitespace is rejected. */
  lemma SpacedPermissionRejected(line: string, startDigits: string, endDigits: string, perms: string, rest: string)
    requires IsHexRun(startDigits) && IsHexRun(endDigits)
    requires |perms| > 0 && All(perms, IsPermissionChar)
    requires |rest| > 0 && !IsPermissionChar(rest[0]) && !IsMultispace(rest[0])
    requires line == startDigits + "-" + endDigits + " " + perms + rest
    ensures RecognizeHeap(line) == None
  {
    assert IsSeparator(" ");
    assert line == startDigits + ("-" + (endDigits + (" " + (perms + rest))));
    PermissionOutsideAlphabetRejected(Spaced(startDigits, endDigits, perms), rest);
  }

  /** The sum of a weight over three elements. */
  lemma SumByThree<T>(a: T, b: T, c: T, weight: T -> int)
    ensures SumBy([a, b, c], weight) == weight(a) + weight(b) + weight(c)
  {
    assert [a, b, c][..2] == [a, b];
    assert [a, b][..1] == [a];
    SumBySingle(a, weight);
  }

  // ---------------------------------------------------------------------
  // The `heap_region` and `non_heap_region` tests.

  const HeapRegionStart: string := "7ff6" + "ad5f" + "8000"
  const HeapRegionEnd: string := "7ff6" + "ad7f" + "5000"

  const HeapRegionInput: string :=
    HeapRegionStart + "-" + HeapRegionEnd + " " + "rw-p" + " " + "00000000" + " " + "00:00" + " " + "0"
  const NonHeapRegionInput: string :=
    HeapRegionStart + "-" + HeapRegionEnd + " " + "rw-p" + " " + "00037000" + " " + "fd:01" + " " + "23470072"

  lemma HeapRegionStartValue()
    ensures IsHexRun(HeapRegionStart) && HexValue(HeapRegionStart) == 0x7ff6ad5f8000
  {
    HexValueOfPieces(HeapRegionStart, "7ff6", "ad5f", "8000", 0x7ff6, 0x7ff6ad5f, 0x7ff6ad5f8000);
  }

  lemma HeapRegionEndValue()
    ensures IsHexRun(HeapRegionEnd) && HexValue(HeapRegionEnd) == 0x7ff6ad7f5000
  {
    HexValueOfPieces(HeapRegionEnd, "7ff6", "ad7f", "5000", 0x7ff6, 0x7ff6ad7f, 0x7ff6ad7f5000);
  }

  /** The anonymous read-write mapping of the `heap_region` test is accepted
      with its start and end. */
  lemma HeapRegionAccepted()
    ensures RecognizeHeap(HeapRegionInput)
            == Some(Recognized("", AddressRange(0x7ff6ad5f8000, 0x7ff6ad7f5000)))
  {
    HeapRegionStartValue();
    HeapRegionEndValue();
    assert All("rw-p", IsPermissionChar);
    SpacedBareLineAccepted(HeapRegionInput, HeapRegionStart, HeapRegionEnd, "rw-p", 0x7ff6ad5f8000, 0x7ff6ad7f5000);
  }

  lemma NonHeapRegionLayout()
    ensures NonHeapRegionInput
            == Head(Spaced(HeapRegionStart, HeapRegionEnd, "rw-p"), "") + ("00037000" + " " + "fd:01" + " " + "23470072")
  {}

  /** The file-backed mapping of the `non_heap_region` test (offset
      `00037000`, device `fd:01`) is rejected. */
  lemma NonHeapRegionRejected()
    ensures RecognizeHeap(NonHeapRegionInput) == None
  {
    var rest := "00037000" + " " + "fd:01" + " " + "23470072";
    NonHeapRegionLayout();
    assert IsHexRun(HeapRegionStart) && IsHexRun(HeapRegionEnd);
    assert All("rw-p", IsPermissionChar);
    assert rest[3] == '3' && ZeroOffset[3] == '0';
    SpacedOffsetRejected(NonHeapRegionInput, HeapRegionStart, HeapRegionEnd, "rw-p", rest);
  }

  // ---------------------------------------------------------------------
  // Lines 74 to 79 of the example listing of `src/lib.rs`: three mappings
  // of the `java` executable, the `[heap]` mapping, a guard page and an
  // anonymous arena.

  const JavaPath: string := "                   " + "/usr/bin/java"
  const HeapName: string := "                          " + "[heap]"

  const JavaText: string :=
    "5650a3a00000" + "-" + "5650a3a01000" + " " + "r-xp" + " " + "00000000" + " " + "fd:01" + " " + "23470129" + JavaPath
  const JavaRodata: string :=
    "5650a3c01000" + "-" + "5650a3c02000" + " " + "r--p" + " " + "00001000" + " " + "fd:01" + " " + "23470129" + JavaPath
  const JavaData: string :=
    "5650a3c02000" + "-" + "5650a3c03000" + " " + "rw-p" + " " + "00002000" + " " + "fd:01" + " " + "23470129" + JavaPath
  const HeapLine: string :=
    HeapStart + "-" + HeapEnd + " " + "rw-p" + " " + "00000000" + " " + "00:00" + " " + "0" + HeapName
  const GuardLine: string :=
    GuardStart + "-" + GuardEnd + " " + "---p" + " " + "00000000" + " " + "00:00" + " " + "0"
  const ArenaLine: string :=
    GuardEnd + "-" + ArenaEnd + " " + "rw-p" + " " + "00000000" + " " + "00:00" + " " + "0"

  const JavaLines: seq<string> := [JavaText, JavaRodata, JavaData]
  const AnonymousLines: seq<string> := [HeapLine, GuardLine, ArenaLine]
  const MapsExcerpt: seq<string> := JavaLines + AnonymousLines

  lemma JavaTextLayout()
    ensures JavaText
            == Head(Spaced("5650a3a00000", "5650a3a01000", "r-xp"), "") + (ZeroOffset + " ") + ("fd:01" + " " + "23470129" + JavaPath)
  {}

  /** The executable's text is file-backed: its device is `fd:01`. */
  lemma JavaTextRejected()
    ensures RecognizeHeap(JavaText) == None
  {
    var rest := "fd:01" + " " + "23470129" + JavaPath;
    JavaTextLayout();
    assert IsHexRun("5650a3a00000") && IsHexRun("5650a3a01000");
    assert All("r-xp", IsPermissionChar);
    assert rest[0] == 'f' && AnonymousDevice[0] == '0';
    SpacedDeviceRejected(JavaText, "5650a3a00000", "5650a3a01000", "r-xp", rest);
  }

  lemma JavaRodataLayout()
    ensures JavaRodata
            == Head(Spaced("5650a3c01000", "5650a3c02000", "r--p"), "") + ("00001000" + " " + "fd:01" + " " + "23470129" + JavaPath)
  {}

  /** The executable's read-only data has a non-zero offset. */
  lemma JavaRodataRejected()
    ensures RecognizeHeap(JavaRodata) == None
  {
    var rest := "00001000" + " " + "fd:01" + " " + "23470129" + JavaPath;
    JavaRodataLayout();
    assert IsHexRun("5650a3c01000") && IsHexRun("5650a3c02000");
    assert All("r--p", IsPermissionChar);
    assert rest[4] == '1' && ZeroOffset[4] == '0';
    SpacedOffsetRejected(JavaRodata, "5650a3c01000", "5650a3c02000", "r--p", rest);
  }

  lemma JavaDataLayout()
    ensures JavaData
            == Head(Spaced("5650a3c02000", "5650a3c03000", "rw-p"), "") + ("00002000" + " " + "fd:01" + " " + "23470129" + JavaPath)
  {}

  /** The executable's writable data has a non-zero offset. */
  lemma JavaDataRejected()
    ensures RecognizeHeap(JavaData) == None
  {
    var rest := "00002000" + " " + "fd:01" + " " + "23470129" + JavaPath;
    JavaDataLayout();
    assert IsHexRun("5650a3c02000") && IsHexRun("5650a3c03000");
    assert All("rw-p", IsPermissionChar);
    assert rest[4] == '2' && ZeroOffset[4] == '0';
    SpacedOffsetRejected(JavaData, "5650a3c02000", "5650a3c03000", "rw-p", rest);
  }

  const HeapStart: string := "5650" + "a4d0" + "a000"
  const HeapEnd: string := "5650" + "a4d2" + "b000"

  lemma HeapStartValue()
    ensures IsHexRun(HeapStart) && HexValue(HeapStart) == 0x5650a4d0a000
  {
    HexValueOfPieces(HeapStart, "5650", "a4d0", "a000", 0x5650, 0x5650a4d0, 0x5650a4d0a000);
  }

  lemma HeapEndValue()
    ensures IsHexRun(HeapEnd) && HexValue(HeapEnd) == 0x5650a4d2b000
  {
    HexValueOfPieces(HeapEnd, "5650", "a4d2", "b000", 0x5650, 0x5650a4d2, 0x5650a4d2b000);
  }

  /** The `[heap]` mapping counts, and its name is left in the tail. */
  lemma HeapLineAccepted()
    ensures RecognizeHeap(HeapLine)
            == Some(Recognized(HeapName, AddressRange(0x5650a4d0a000, 0x5650a4d2b000)))
  {
    HeapStartValue();
    HeapEndValue();
    assert All("rw-p", IsPermissionChar);
    SpacedLineAccepted(HeapLine, HeapStart, HeapEnd, "rw-p", HeapName, 0x5650a4d0a000, 0x5650a4d2b000);
  }

  const GuardStart: string := "7ff6" + "acdf" + "0000"
  const GuardEnd: string := "7ff6" + "acdf" + "4000"
  const ArenaEnd: string := "7ff6" + "acff" + "1000"

  lemma GuardStartValue()
    ensures IsHexRun(GuardStart) && HexValue(GuardStart) == 0x7ff6acdf0000
  {
    HexValueOfPieces(GuardStart, "7ff6", "acdf", "0000", 0x7ff6, 0x7ff6acdf, 0x7ff6acdf0000);
  }

  lemma GuardEndValue()
    ensures IsHexRun(GuardEnd) && HexValue(GuardEnd) == 0x7ff6acdf4000
  {
    HexValueOfPieces(GuardEnd, "7ff6", "acdf", "4000", 0x7ff6, 0x7ff6acdf, 0x7ff6acdf4000);
  }

  lemma ArenaEndValue()
    ensures IsHexRun(ArenaEnd) && HexValue(ArenaEnd) == 0x7ff6acff1000
  {
    HexValueOfPieces(ArenaEnd, "7ff6", "acff", "1000", 0x7ff6, 0x7ff6acff, 0x7ff6acff1000);
  }

  /** An inaccessible guard page counts: the permission value is not checked. */
  lemma GuardLineAccepted()
    ensures RecognizeHeap(GuardLine)
            == Some(Recognized("", AddressRange(0x7ff6acdf0000, 0x7ff6acdf4000)))
  {
    GuardStartValue();
    GuardEndValue();
    assert All("---p", IsPermissionChar);
    SpacedBareLineAccepted(GuardLine, GuardStart, GuardEnd, "---p", 0x7ff6acdf0000, 0x7ff6acdf4000);
  }

  /** An unnamed anonymous arena counts. */
  lemma ArenaLineAccepted()
    ensures RecognizeHeap(ArenaLine)
            == Some(Recognized("", AddressRange(0x7ff6acdf4000, 0x7ff6acff1000)))
  {
    GuardEndValue();
    ArenaEndValue();
    assert All("rw-p", IsPermissionChar);
    SpacedBareLineAccepted(ArenaLine, GuardEnd, ArenaEnd, "rw-p", 0x7ff6acdf4000, 0x7ff6acff1000);
  }

  /** A text without a line feed and not ending in a carriage return comes
      back unchanged from a split. */
  lemma PlainLine(line: string)
    requires '\n' !in line && (|line| == 0 || line[|line| - 1] != '\r')
    ensures IsLine(line) && !EndsInCarriageReturn(line)
  {
    LineWithoutLineFeed(line);
  }

  // One lemma per line: checked together, the six literals exceed the prover's budget.
  lemma JavaTextPlain()
    ensures IsLine(JavaText) && !EndsInCarriageReturn(JavaText)
  {
    PlainLine(JavaText);
  }

  lemma JavaRodataPlain()
    ensures IsLine(JavaRodata) && !EndsInCarriageReturn(JavaRodata)
  {
    PlainLine(JavaRodata);
  }

  lemma JavaDataPlain()
    ensures IsLine(JavaData) && !EndsInCarriageReturn(JavaData)
  {
    PlainLine(JavaData);
  }

  lemma HeapLinePlain()
    ensures IsLine(HeapLine) && !EndsInCarriageReturn(HeapLine)
  {
    PlainLine(HeapLine);
  }

  lemma GuardLinePlain()
    ensures IsLine(GuardLine) && !EndsInCarriageReturn(GuardLine)
  {
    PlainLine(GuardLine);
  }

  lemma ArenaLinePlain()
    ensures IsLine(ArenaLine) && !EndsInCarriageReturn(ArenaLine)
  {
    PlainLine(ArenaLine);
  }

  /** Every line of the excerpt comes back unchanged from a split. */
  lemma MapsExcerptPlain()
    ensures PlainLines(MapsExcerpt)
  {
    JavaTextPlain();
    JavaRodataPlain();
    JavaDataPlain();
    HeapLinePlain();
    GuardLinePlain();
    ArenaLinePlain();
  }

  /** What each line of the excerpt adds to the total. */
  lemma MapsExcerptContributions()
    ensures LineContribution(JavaText) == 0 && LineContribution(JavaRodata) == 0
    ensures LineContribution(JavaData) == 0 && LineContribution(HeapLine) == 0x21000
    ensures LineContribution(GuardLine) == 0x4000 && LineContribution(ArenaLine) == 0x1fd000
  {
    JavaTextRejected();
    JavaRodataRejected();
    JavaDataRejected();
    HeapLineAccepted();
    GuardLineAccepted();
    ArenaLineAccepted();
  }

  /** The excerpt written as a listing totals its three anonymous mappings:
      0x21000 + 0x4000 + 0x1fd000 bytes. */
  lemma MapsExcerptSum()
    ensures SumHeapLines(JoinLines(MapsExcerpt)) == 0x222000
  {
    MapsExcerptPlain();
    SumOfJoinedListing(MapsExcerpt);
    MapsExcerptContributions();
    SumByAppend(JavaLines, AnonymousLines, LineContribution);
    SumByThree(JavaText, JavaRodata, JavaData, LineContribution);
    SumByThree(HeapLine, GuardLine, ArenaLine, LineContribution);
  }

  // ---------------------------------------------------------------------
  // Edge cases of the parser.

  /** A shared mapping of the example listing (line 143 of `src/lib.rs`). */
  const SharedMappingInput: string :=
    "7ff6c33ff000" + "-" + "7ff6c35ff000" + " " + "rw-s" + " " + "00000000" + " " + "00:05" + " " + "714"
    + "                        " + "/dev/nvidiactl"

  lemma SharedMappingLayout()
    ensures SharedMappingInput
            == "7ff6c33ff000" + "-" + "7ff6c35ff000" + " " + "rw-"
               + ("s" + " " + "00000000" + " " + "00:05" + " " + "714" + "                        " + "/dev/nvidiactl")
  {
    assert "rw-s" == "rw-" + "s";
  }

  /** A shared mapping is rejected: `s` is not a permission character and is
      not whitespace, so the step after the permission run fails. */
  lemma SharedMappingRejected()
    ensures RecognizeHeap(SharedMappingInput) == None
  {
    var rest := "s" + " " + "00000000" + " " + "00:05" + " " + "714" + "                        " + "/dev/nvidiactl";
    SharedMappingLayout();
    assert IsHexRun("7ff6c33ff000") && IsHexRun("7ff6c35ff000");
    assert All("rw-", IsPermissionChar);
    assert rest[0] == 's';
    SpacedPermissionRejected(SharedMappingInput, "7ff6c33ff000", "7ff6c35ff000", "rw-", rest);
  }

  const InodePrefixInput: string := "0" + "-" + "1000" + " " + "rw-p" + " " + "00000000" + " " + "00:00" + " " + "0" + "1"

  /** `tag("0")` matches a prefix only: an inode `01` is accepted, and the `1`
      is returned as the tail. */
  lemma InodePrefixAccepted()
    ensures RecognizeHeap(InodePrefixInput) == Some(Recognized("1", AddressRange(0, 0x1000)))
  {
    assert "01" == "0" + "1";
    assert IsHexRun("0") && IsHexRun("1000") && HexValue("0") == 0 && HexValue("1000") == 0x1000;
    assert All("rw-p", IsPermissionChar);
    SpacedLineAccepted(InodePrefixInput, "0", "1000", "rw-p", "1", 0, 0x1000);
  }

  const UnorderedRangeInput: string := "1000" + "-" + "0" + " " + "rw-p" + " " + "00000000" + " " + "00:00" + " " + "0"

  /** The recognizer does not order the bounds: a start above the end is
      returned as it was written. */
  lemma UnorderedRangeAccepted()
    ensures RecognizeHeap(UnorderedRangeInput) == Some(Recognized("", AddressRange(0x1000, 0)))
  {
    assert IsHexRun("0") && IsHexRun("1000") && HexValue("0") == 0 && HexValue("1000") == 0x1000;
    assert All("rw-p", IsPermissionChar);
    SpacedBareLineAccepted(UnorderedRangeInput, "1000", "0", "rw-p", 0x1000, 0);
  }

  /** Such a line reaches the subtraction of `sum_heap_lines` with a start
      above the end; on unbounded integers it contributes `0 - 0x1000`. */
  lemma UnorderedRangeContributes()
    ensures LineContribution(UnorderedRangeInput) == -0x1000
  {
    UnorderedRangeAccepted();
  }

  /** Seventeen digits: one more than a 64-bit word holds. */
  const OversizedHigh: string := "1000" + "0000" + "0000"
  const OversizedStart: string := OversizedHigh + "0" + "0000"
  const OversizedAddressInput: string :=
    OversizedStart + "-" + "0" + " " + "rw-p" + " " + "00000000" + " " + "00:00" + " " + "0"

  lemma OversizedStartValue()
    ensures IsHexRun(OversizedStart) && HexValue(OversizedStart) == WordModulus
  {
    HexValueOfPieces(OversizedHigh, "1000", "0000", "0000", 0x1000, 0x1000_0000, 0x1000_0000_0000);
    HexValueOfPieces(OversizedStart, OversizedHigh, "0", "0000", 0x1000_0000_0000, 0x1_0000_0000_0000, WordModulus);
  }

  /** A start of 2^64 does not fit a `usize`: the conversion fails and the
      line is rejected rather than wrapped. */
  lemma OversizedAddressRejected()
    ensures RecognizeHeap(OversizedAddressInput) == None
  {
    OversizedStartValue();
    assert IsHexRun("0");
    assert All("rw-p", IsPermissionChar);
    SpacedLine(OversizedAddressInput, OversizedStart, "0", "rw-p", "");
  }
}
