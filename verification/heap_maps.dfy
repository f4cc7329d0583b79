/** The heap-line recognizer of `src/lib.rs`: one line of a Linux
    `/proc/<pid>/maps` listing is accepted when it describes an anonymous,
    zero-offset mapping, and yields that mapping's address range. */
module HeapMaps {
  import opened Combinators
  import opened Hex

  /** `Range<usize>` as the recognizer builds it: `start..end`, not ordered. */
  datatype AddressRange = AddressRange(start: nat, end: nat)

  /** The recognizer's success value: the unconsumed tail and the range. */
  datatype Recognized = Recognized(tail: string, range: AddressRange)

  /** The alphabet of `is_a("rwpx-")`. */
  const PermissionChars: string := "rwpx-"

  /** The offset field of a mapping with no file offset. */
  const ZeroOffset: string := "00000000"

  /** The device field of a mapping with no backing device. */
  const AnonymousDevice: string := "00:00"

  /** The inode field of a mapping with no backing inode. */
  const AnonymousInode: string := "0"

  /** The shortest accepted line is `0-0 r 00000000 00:00 0`. */
  const MinLineLength: nat := 22

  predicate IsPermissionChar(c: char) {
    c in PermissionChars
  }

  /** The separated pair of `recognize_heap`: a hex start, `-` and a hex end,
      each hex run converted to a `usize`; yields the range and the rest. */
  function RecognizeRange(line: string): (r: Option<(AddressRange, string)>)
    ensures r.Some? ==> r.value.0.start < WordModulus && r.value.0.end < WordModulus
  {
    var lo :- HexDigit1(line);
    var start :- ParseUsizeHex(lo.matched);
    var afterDash :- Tag("-", lo.tail);
    var hi :- HexDigit1(afterDash);
    var end :- ParseUsizeHex(hi.matched);
    Some((AddressRange(start, end), hi.tail))
  }

  /** The permissions step of `recognize_heap`: whitespace, a run of
      permission characters, whitespace; yields the rest. The value of the
      permission run is not inspected. */
  function PermissionsField(s: string): (r: Option<string>)
    ensures |s| == 0 || !IsMultispace(s[0]) ==> r.None?
    ensures r.Some? ==> |r.value| + 3 <= |s|
    ensures r.Some? ==> |r.value| == 0 || !IsMultispace(r.value[0])
  {
    var sep1 :- Multispace1(s);
    var perms :- TakeWhile1(sep1.tail, IsPermissionChar);
    var sep2 :- Multispace1(perms.tail);
    Some(sep2.tail)
  }

  /** The anonymous-mapping signature of `recognize_heap`: `00000000`,
      whitespace, `00:00`, whitespace and `0`; yields the unconsumed tail. */
  function AnonymousSignature(s: string): (r: Option<string>)
    ensures !(ZeroOffset <= s) ==> r.None?
    ensures r.Some? ==> |r.value| + 16 <= |s|
  {
    var afterOffset :- Tag(ZeroOffset, s);
    var sep3 :- Multispace1(afterOffset);
    var afterDevice :- Tag(AnonymousDevice, sep3.tail);
    var sep4 :- Multispace1(afterDevice);
    Tag(AnonymousInode, sep4.tail)
  }

  /** Everything `recognize_heap` reads after the range. */
  function AnonymousFields(s: string): (r: Option<string>)
    ensures |s| == 0 || !IsMultispace(s[0]) ==> r.None?
    ensures r.Some? ==> |r.value| + 19 <= |s|
  {
    var rest :- PermissionsField(s);
    AnonymousSignature(rest)
  }

  /** `recognize_heap`: the range part followed by the anonymous-mapping
      fields; any failing step rejects the whole line. */
  function RecognizeHeap(line: string): (r: Option<Recognized>)
    ensures r.Some? ==> r.value.range.start < WordModulus && r.value.range.end < WordModulus
  {
    var (range, rest) :- RecognizeRange(line);
    var tail :- AnonymousFields(rest);
    Some(Recognized(tail, range))
  }

  /** The variable parts of an accepted line, in order: the two hex runs, the
      four whitespace separators and the permission run. The literal fields
      between them are fixed. */
  datatype MapLine = MapLine(
    startDigits: string, endDigits: string, sep1: string, perms: string,
    sep2: string, sep3: string, sep4: string)

  /** The anonymous-mapping signature `00000000 00:00 0`, separators as
      given, followed by `tail`. */
  function Signature(m: MapLine, tail: string): string {
    ZeroOffset + (m.sep3 + (AnonymousDevice + (m.sep4 + (AnonymousInode + tail))))
  }

  /** The fields after the range, ` perms 00000000 00:00 0`, followed by
      `tail`. */
  function Fields(m: MapLine, tail: string): string {
    m.sep1 + (m.perms + (m.sep2 + Signature(m, tail)))
  }

  /** The range, the permissions field and the separator after it, followed
      by `rest` in place of the offset, device and inode fields. */
  function Head(m: MapLine, rest: string): string {
    m.startDigits + ("-" + (m.endDigits + (m.sep1 + (m.perms + (m.sep2 + rest)))))
  }

  /** A whole line with the anonymous, zero-offset signature, followed by
      `tail`: `start-end perms 00000000 00:00 0tail`. */
  function Layout(m: MapLine, tail: string): string {
    m.startDigits + ("-" + (m.endDigits + Fields(m, tail)))
  }

  predicate IsSeparator(sep: string) {
    |sep| > 0 && All(sep, IsMultispace)
  }

  predicate IsHexRun(digits: string) {
    |digits| > 0 && All(digits, IsHexDigit)
  }

  /** The pieces after the range are non-empty and drawn from their classes. */
  predicate FieldsWellFormed(m: MapLine) {
    && IsSeparator(m.sep1)
    && |m.perms| > 0 && All(m.perms, IsPermissionChar)
    && IsSeparator(m.sep2) && IsSeparator(m.sep3) && IsSeparator(m.sep4)
  }

  predicate WellFormed(m: MapLine) {
    IsHexRun(m.startDigits) && IsHexRun(m.endDigits) && FieldsWellFormed(m)
  }

  /** Both hex runs denote `usize` values. */
  predicate Fits(m: MapLine)
    requires IsHexRun(m.startDigits) && IsHexRun(m.endDigits)
  {
    HexValue(m.startDigits) < WordModulus && HexValue(m.endDigits) < WordModulus
  }

  /** The range the hex runs spell, `start..end`. */
  function RangeOf(m: MapLine): AddressRange
    requires IsHexRun(m.startDigits) && IsHexRun(m.endDigits)
  {
    AddressRange(HexValue(m.startDigits), HexValue(m.endDigits))
  }

  /** The range part reads two hex runs around a dash exactly, and stops at
      the first character that is not a hex digit. */
  lemma RangeExactly(lo: string, hi: string, rest: string)
    requires IsHexRun(lo) && IsHexRun(hi)
    requires |rest| == 0 || !IsHexDigit(rest[0])
    ensures RecognizeRange(lo + ("-" + (hi + rest)))
            == if HexValue(lo) < WordModulus && HexValue(hi) < WordModulus
               then Some((AddressRange(HexValue(lo), HexValue(hi)), rest))
               else None
  {
    TakeWhile1Exact(hi, rest, IsHexDigit);
    TagExact("-", hi + rest);
    TakeWhile1Exact(lo, "-" + (hi + rest), IsHexDigit);
  }

  /** A range part that is accepted was two hex runs around a dash. */
  lemma RangeHasLayout(line: string)
    requires RecognizeRange(line).Some?
    ensures exists lo: string, hi: string ::
              IsHexRun(lo) && IsHexRun(hi)
              && line == lo + ("-" + (hi + RecognizeRange(line).value.1))
              && RecognizeRange(line).value.0 == AddressRange(HexValue(lo), HexValue(hi))
  {
    var lo := HexDigit1(line).value;
    var afterDash := Tag("-", lo.tail).value;
    var hi := HexDigit1(afterDash).value;
    assert line == lo.matched + ("-" + (hi.matched + hi.tail));
  }

  /** The signature of a well-formed layout is consumed exactly. */
  lemma SignatureExactly(m: MapLine, tail: string)
    requires IsSeparator(m.sep3) && IsSeparator(m.sep4)
    ensures AnonymousSignature(Signature(m, tail)) == Some(tail)
  {
    var r11 := AnonymousInode + tail;
    TagExact(AnonymousInode, tail);
    var r10 := m.sep4 + r11;
    TakeWhile1Exact(m.sep4, r11, IsMultispace);
    var r9 := AnonymousDevice + r10;
    TagExact(AnonymousDevice, r10);
    var r8 := m.sep3 + r9;
    TakeWhile1Exact(m.sep3, r9, IsMultispace);
    TagExact(ZeroOffset, r8);
  }

  /** The permissions field of a well-formed layout is consumed exactly when
      what follows it does not start with whitespace. */
  lemma PermissionsExactly(m: MapLine, rest: string)
    requires IsSeparator(m.sep1) && IsSeparator(m.sep2)
    requires |m.perms| > 0 && All(m.perms, IsPermissionChar)
    requires |rest| == 0 || !IsMultispace(rest[0])
    ensures PermissionsField(m.sep1 + (m.perms + (m.sep2 + rest))) == Some(rest)
  {
    TakeWhile1Exact(m.sep2, rest, IsMultispace);
    TakeWhile1Exact(m.perms, m.sep2 + rest, IsPermissionChar);
    TakeWhile1Exact(m.sep1, m.perms + (m.sep2 + rest), IsMultispace);
  }

  /** The fields of a well-formed layout are consumed exactly. */
  lemma FieldsExactly(m: MapLine, tail: string)
    requires FieldsWellFormed(m)
    ensures AnonymousFields(Fields(m, tail)) == Some(tail)
  {
    SignatureExactly(m, tail);
    PermissionsExactly(m, Signature(m, tail));
  }

  /** An accepted permissions field is whitespace, a permission run and
      whitespace. */
  lemma PermissionsHaveLayout(s: string)
    requires PermissionsField(s).Some?
    ensures exists sep1: string, perms: string, sep2: string ::
              IsSeparator(sep1) && |perms| > 0 && All(perms, IsPermissionChar) && IsSeparator(sep2)
              && s == sep1 + (perms + (sep2 + PermissionsField(s).value))
  {
    var sep1 := Multispace1(s).value;
    var perms := TakeWhile1(sep1.tail, IsPermissionChar).value;
    var sep2 := Multispace1(perms.tail).value;
    assert s == sep1.matched + (perms.matched + (sep2.matched + sep2.tail));
    assert PermissionsField(s).value == sep2.tail;
    assert IsSeparator(sep1.matched) && IsSeparator(sep2.matched);
  }

  /** An accepted signature is `00000000`, whitespace, `00:00`, whitespace and
      `0`, followed by the tail. */
  lemma SignatureHasLayout(s: string)
    requires AnonymousSignature(s).Some?
    ensures exists sep3: string, sep4: string ::
              IsSeparator(sep3) && IsSeparator(sep4)
              && s == ZeroOffset + (sep3 + (AnonymousDevice + (sep4 + (AnonymousInode + AnonymousSignature(s).value))))
  {
    var afterOffset := Tag(ZeroOffset, s).value;
    var sep3 := Multispace1(afterOffset).value;
    var afterDevice := Tag(AnonymousDevice, sep3.tail).value;
    var sep4 := Multispace1(afterDevice).value;
    var tail := Tag(AnonymousInode, sep4.tail).value;
    assert s == ZeroOffset + (sep3.matched + (AnonymousDevice + (sep4.matched + (AnonymousInode + tail))));
    assert AnonymousSignature(s).value == tail;
    assert IsSeparator(sep3.matched) && IsSeparator(sep4.matched);
  }

  /** Accepted fields have the anonymous, zero-offset layout. The hex runs of
      the witness are placeholders: only the field pieces are meaningful. */
  lemma FieldsHaveLayout(s: string)
    requires AnonymousFields(s).Some?
    ensures exists m: MapLine :: FieldsWellFormed(m) && s == Fields(m, AnonymousFields(s).value)
  {
    var rest := PermissionsField(s).value;
    var tail := AnonymousSignature(rest).value;
    PermissionsHaveLayout(s);
    var sep1: string, perms: string, sep2: string :|
      IsSeparator(sep1) && |perms| > 0 && All(perms, IsPermissionChar) && IsSeparator(sep2)
      && s == sep1 + (perms + (sep2 + rest));
    SignatureHasLayout(rest);
    var sep3: string, sep4: string :|
      IsSeparator(sep3) && IsSeparator(sep4)
      && rest == ZeroOffset + (sep3 + (AnonymousDevice + (sep4 + (AnonymousInode + tail))));
    var m := MapLine("0", "0", sep1, perms, sep2, sep3, sep4);
    assert s == Fields(m, tail);
  }

  /** Completeness: every line with the anonymous, zero-offset layout is
      accepted, with the tail after the inode and the range its hex runs
      spell, unless one of the hex runs overflows the word. */
  lemma AcceptsLayout(m: MapLine, tail: string)
    requires WellFormed(m)
    ensures RecognizeHeap(Layout(m, tail))
            == if Fits(m) then Some(Recognized(tail, RangeOf(m))) else None
  {
    FieldsExactly(m, tail);
    RangeExactly(m.startDigits, m.endDigits, Fields(m, tail));
  }

  /** Soundness: an accepted line has the anonymous, zero-offset layout, and
      the range returned is the one its hex runs spell. */
  lemma AcceptedLineHasLayout(line: string)
    requires RecognizeHeap(line).Some?
    ensures exists m: MapLine :: WellFormed(m) && Fits(m)
              && line == Layout(m, RecognizeHeap(line).value.tail)
              && RangeOf(m) == RecognizeHeap(line).value.range
  {
    var (range, rest) := RecognizeRange(line).value;
    var tail := AnonymousFields(rest).value;
    RangeHasLayout(line);
    var lo: string, hi: string :| IsHexRun(lo) && IsHexRun(hi)
      && line == lo + ("-" + (hi + rest)) && range == AddressRange(HexValue(lo), HexValue(hi));
    FieldsHaveLayout(rest);
    var f: MapLine :| FieldsWellFormed(f) && rest == Fields(f, tail);
    assert RecognizeHeap(line) == Some(Recognized(tail, range));
    LayoutOfParts(lo, hi, f, tail);
    var m := f.(startDigits := lo, endDigits := hi);
    assert Fits(m);
  }

  /** Hex runs put in front of well-formed fields give a well-formed layout. */
  lemma LayoutOfParts(lo: string, hi: string, f: MapLine, tail: string)
    requires IsHexRun(lo) && IsHexRun(hi) && FieldsWellFormed(f)
    ensures var m := f.(startDigits := lo, endDigits := hi);
            && WellFormed(m)
            && Layout(m, tail) == lo + ("-" + (hi + Fields(f, tail)))
            && RangeOf(m) == AddressRange(HexValue(lo), HexValue(hi))
  {
  }

  /** Acceptance, exactly: a line is accepted with a given tail and range if
      and only if it is the anonymous, zero-offset layout followed by that
      tail, with hex runs that fit the word and spell that range. */
  lemma RecognizeHeapExactly(line: string, tail: string, range: AddressRange)
    ensures RecognizeHeap(line) == Some(Recognized(tail, range))
            <==> exists m: MapLine :: WellFormed(m) && Fits(m)
                   && line == Layout(m, tail) && RangeOf(m) == range
  {
    if RecognizeHeap(line) == Some(Recognized(tail, range)) {
      AcceptedLineHasLayout(line);
    }
    if exists m: MapLine :: WellFormed(m) && Fits(m) && line == Layout(m, tail) && RangeOf(m) == range {
      var m: MapLine :| WellFormed(m) && Fits(m) && line == Layout(m, tail) && RangeOf(m) == range;
      AcceptsLayout(m, tail);
    }
  }

  /** A line is its layout without tail followed by the tail. */
  lemma LayoutThenTail(m: MapLine, tail: string)
    ensures Layout(m, tail) == Layout(m, "") + tail
    ensures |Layout(m, tail)| == |m.startDigits| + |m.endDigits| + |m.sep1| + |m.perms|
                                 + |m.sep2| + |m.sep3| + |m.sep4| + 15 + |tail|
  {
    assert Signature(m, tail) == Signature(m, "") + tail;
    assert Fields(m, tail) == Fields(m, "") + tail;
  }

  /** The tail is never inspected: an accepted line is a prefix of at least
      `MinLineLength` characters followed by the returned tail, and any other
      text in place of that tail is accepted with the same range. */
  lemma TailNotInspected(line: string, other: string)
    requires RecognizeHeap(line).Some?
    ensures var r := RecognizeHeap(line).value;
            && |r.tail| + MinLineLength <= |line|
            && line == line[..|line| - |r.tail|] + r.tail
            && RecognizeHeap(line[..|line| - |r.tail|] + other) == Some(Recognized(other, r.range))
  {
    var r := RecognizeHeap(line).value;
    AcceptedLineHasLayout(line);
    var m: MapLine :| WellFormed(m) && Fits(m) && line == Layout(m, r.tail) && RangeOf(m) == r.range;
    LayoutThenTail(m, r.tail);
    LayoutThenTail(m, other);
    assert line[..|line| - |r.tail|] == Layout(m, "");
    AcceptsLayout(m, other);
  }

  /** The permission run is a character class, not a value: after the range
      and the first separator, any non-empty run of `r`, `w`, `p`, `x` and `-`
      characters followed by whitespace gives the same outcome, whatever
      follows. */
  lemma PermissionsNotInspected(m: MapLine, perms: string, rest: string)
    requires IsHexRun(m.startDigits) && IsHexRun(m.endDigits)
    requires IsSeparator(m.sep1) && IsSeparator(m.sep2)
    requires |m.perms| > 0 && All(m.perms, IsPermissionChar)
    requires |perms| > 0 && All(perms, IsPermissionChar)
    ensures RecognizeHeap(Head(m.(perms := perms), rest)) == RecognizeHeap(Head(m, rest))
  {
    var k := SpanLength(rest, IsMultispace);
    var wide := m.(sep2 := m.sep2 + rest[..k]);
    HeadWidened(m, rest);
    HeadWidened(m.(perms := perms), rest);
    assert m.(perms := perms).(sep2 := wide.sep2) == wide.(perms := perms);
    HeadThen(wide, rest[k..]);
    HeadThen(wide.(perms := perms), rest[k..]);
  }

  /** Whitespace at the start of `rest` belongs to the separator before it. */
  lemma HeadWidened(m: MapLine, rest: string)
    requires IsSeparator(m.sep2)
    ensures var k := SpanLength(rest, IsMultispace);
            && IsSeparator(m.sep2 + rest[..k])
            && (|rest[k..]| == 0 || !IsMultispace(rest[k..][0]))
            && Head(m, rest) == Head(m.(sep2 := m.sep2 + rest[..k]), rest[k..])
  {
    var k := SpanLength(rest, IsMultispace);
    assert rest == rest[..k] + rest[k..];
    AllConcat(m.sep2, rest[..k], IsMultispace);
    assert m.sep2 + rest == (m.sep2 + rest[..k]) + rest[k..];
  }

  /** The part of a line up to the offset field parses, so the outcome is that
      of the signature steps on what follows. */
  lemma HeadThen(m: MapLine, rest: string)
    requires IsHexRun(m.startDigits) && IsHexRun(m.endDigits)
    requires IsSeparator(m.sep1) && IsSeparator(m.sep2)
    requires |m.perms| > 0 && All(m.perms, IsPermissionChar)
    requires |rest| == 0 || !IsMultispace(rest[0])
    ensures RecognizeHeap(Head(m, rest))
            == if !Fits(m) || AnonymousSignature(rest).None? then None
               else Some(Recognized(AnonymousSignature(rest).value, RangeOf(m)))
  {
    PermissionsExactly(m, rest);
    RangeExactly(m.startDigits, m.endDigits, m.sep1 + (m.perms + (m.sep2 + rest)));
  }

  /** A non-zero (or otherwise different) offset field rejects the line. */
  lemma OffsetMismatchRejected(m: MapLine, rest: string)
    requires IsHexRun(m.startDigits) && IsHexRun(m.endDigits)
    requires IsSeparator(m.sep1) && IsSeparator(m.sep2)
    requires |m.perms| > 0 && All(m.perms, IsPermissionChar)
    requires |rest| == 0 || !IsMultispace(rest[0])
    requires !(ZeroOffset <= rest)
    ensures RecognizeHeap(Head(m, rest)) == None
  {
    HeadThen(m, rest);
  }

  /** A device other than `00:00` after a zero offset rejects the line. */
  lemma DeviceMismatchRejected(m: MapLine, rest: string)
    requires IsHexRun(m.startDigits) && IsHexRun(m.endDigits)
    requires IsSeparator(m.sep1) && IsSeparator(m.sep2) && IsSeparator(m.sep3)
    requires |m.perms| > 0 && All(m.perms, IsPermissionChar)
    requires |rest| == 0 || !IsMultispace(rest[0])
    requires !(AnonymousDevice <= rest)
    ensures RecognizeHeap(Head(m, ZeroOffset + (m.sep3 + rest))) == None
  {
    TakeWhile1Exact(m.sep3, rest, IsMultispace);
    TagExact(ZeroOffset, m.sep3 + rest);
    HeadThen(m, ZeroOffset + (m.sep3 + rest));
  }

  /** An inode field that does not start with `0` rejects the line. */
  lemma InodeMismatchRejected(m: MapLine, rest: string)
    requires IsHexRun(m.startDigits) && IsHexRun(m.endDigits)
    requires FieldsWellFormed(m)
    requires |rest| == 0 || !IsMultispace(rest[0])
    requires !(AnonymousInode <= rest)
    ensures RecognizeHeap(Head(m, ZeroOffset + (m.sep3 + (AnonymousDevice + (m.sep4 + rest))))) == None
  {
    TakeWhile1Exact(m.sep4, rest, IsMultispace);
    TagExact(AnonymousDevice, m.sep4 + rest);
    TakeWhile1Exact(m.sep3, AnonymousDevice + (m.sep4 + rest), IsMultispace);
    TagExact(ZeroOffset, m.sep3 + (AnonymousDevice + (m.sep4 + rest)));
    HeadThen(m, ZeroOffset + (m.sep3 + (AnonymousDevice + (m.sep4 + rest))));
  }

  /** A permission run followed by a character that is neither a permission
      character nor whitespace (such as the `s` of a shared mapping) rejects
      the line. */
  lemma PermissionOutsideAlphabetRejected(m: MapLine, rest: string)
    requires IsHexRun(m.startDigits) && IsHexRun(m.endDigits) && IsSeparator(m.sep1)
    requires |m.perms| > 0 && All(m.perms, IsPermissionChar)
    requires |rest| > 0 && !IsPermissionChar(rest[0]) && !IsMultispace(rest[0])
    ensures RecognizeHeap(m.startDigits + ("-" + (m.endDigits + (m.sep1 + (m.perms + rest))))) == None
  {
    TakeWhile1Exact(m.perms, rest, IsPermissionChar);
    TakeWhile1Exact(m.sep1, m.perms + rest, IsMultispace);
    RangeExactly(m.startDigits, m.endDigits, m.sep1 + (m.perms + rest));
  }

  /** An anonymous mapping line with its bounds spelled as the kernel's
      `%08lx` spells them (lower-case hex, zero-padded to at least eight
      digits), single spaces between the fields, followed by `tail`. */
  function FormatAnonymousMapping(range: AddressRange, perms: string, tail: string): string {
    Layout(MapLine(PaddedHex(range.start, 8), PaddedHex(range.end, 8), " ", perms, " ", " ", " "), tail)
  }

  /** Round trip: formatting an anonymous mapping whose bounds are `usize`
      values and recognizing the line gives back the range and the tail. */
  lemma RecognizeFormatted(range: AddressRange, perms: string, tail: string)
    requires range.start < WordModulus && range.end < WordModulus
    requires |perms| > 0 && All(perms, IsPermissionChar)
    ensures RecognizeHeap(FormatAnonymousMapping(range, perms, tail)) == Some(Recognized(tail, range))
  {
    var m := MapLine(PaddedHex(range.start, 8), PaddedHex(range.end, 8), " ", perms, " ", " ", " ");
    assert WellFormed(m);
    AcceptsLayout(m, tail);
  }
}
