# read-heap-size, modelled in Dafny

`read-heap-size` estimates how much heap memory a Linux process uses. It reads
the process's `/proc/<pid>/maps` listing and adds up the sizes of the mappings
that look like heap: anonymous and at file offset zero. This project models
the two pure functions behind that estimate and proves what they do.

- `recognize_heap` is a nom parser for one listing line. It reads a hex start
  address, `-`, a hex end address, whitespace, a run of permission characters
  from `rwpx-`, whitespace, `00000000`, whitespace, `00:00`, whitespace and `0`.
  It returns the unread tail and the range `start..end`. Each address is
  converted with `usize::from_str_radix(_, 16)`.
- `sum_heap_lines` splits the listing with `str::lines`, keeps the ranges of
  the lines the recognizer accepts, and adds up `end - start`.

The model has eight modules:

| module | file | what it holds |
|---|---|---|
| `Combinators` | `combinators.dfy` | the nom steps used: `hex_digit1`, `multispace1` and `is_a` as longest non-empty runs, and `tag` |
| `Hex` | `hex.dfy` | hex digit values; `from_str_radix` on a 64-bit target applied to `hex_digit1`'s runs, as a function and as its checked-arithmetic loop; `ToHex`, the printing inverse |
| `HeapMaps` | `heap_maps.dfy` | the recognizer, and the exact layout of the lines it accepts |
| `TextLines` | `lines.dfy` | `str::lines` and the line joins that invert it |
| `Sums` | `sums.dfy` | sums over sequences: splitting, removing one element, order independence |
| `FilterMaps` | `filter_map.dfy` | `Iterator::filter_map` over a sequence, and how it splits over concatenation |
| `HeapSum` | `heap_sum.dfy` | `sum_heap_lines` and its properties |
| `HeapExamples` | `heap_examples.dfy` | the two recognizer tests, lines 74-79 of the example listing, and parser edge cases |

A parser failure is `None` in the model. nom's error value is not modelled.

The recognizer's main result is `HeapMaps.RecognizeHeapExactly`. A line is
accepted with tail `t` and range `r` exactly when the line is
`start-end perms 00000000 00:00 0` followed by `t`, where:

- the separators are non-empty whitespace runs;
- the permission run is non-empty;
- both hex runs denote values below 2^64, and those values are `r`.

The sum's main result is `HeapSum.PipelineSumsContributions`. The total is the
sum, over all lines, of each accepted line's size; a rejected line adds 0.
Order independence and the total of the example excerpt follow from it.

### Behaviour worth knowing

- **Inode field.** `tag("0")` matches a prefix, so an inode field `01` is
  accepted and `1` is returned as the tail
  (`HeapMaps.InodeMismatchRejected` for inodes not starting with `0`,
  `HeapExamples.InodePrefixAccepted` for `01`).
- **Permissions.** A run followed by `s`, as in `rw-s` and `r-xs`, is rejected:
  `s` is neither in the `is_a("rwpx-")` alphabet nor whitespace
  (`HeapMaps.PermissionOutsideAlphabetRejected`,
  `HeapExamples.SharedMappingRejected`).
- **Line endings.** `str::lines` ends a line only at `\n`, dropping one `\r`
  before it; a bare `\r` does not end a line (`TextLines.FirstLine`,
  `TextLines.LinesOfCrlfJoin`).
- **Unordered ranges.** The recognizer does not order the bounds, so a start
  above the end reaches the subtraction (`HeapExamples.UnorderedRangeAccepted`,
  `HeapExamples.UnorderedRangeContributes`).

## Model

| member | source | states |
|---|---|---|
| Combinators.TakeWhile1 | src/lib.rs:33 | `is_a` (and the other take-while steps) fails exactly when the input is empty or starts outside the class. On success the input is the match followed by the tail, the match is a non-empty run of class characters, and the tail does not start with one (longest match). |
| Combinators.Multispace1 | src/lib.rs:32 | `multispace1` succeeds exactly when the input starts with a space, tab, carriage return or line feed. It consumes the whole whitespace run, and the tail does not start with whitespace. |
| Combinators.Tag | src/lib.rs:35 | `tag(lit)` succeeds exactly when `lit` is a prefix of the input, and the input is `lit` followed by the tail. |
| Combinators.TakeWhile1Exact | src/lib.rs:32-38 | Maximal munch: a non-empty run of class characters followed by a non-class character (or the end) is consumed exactly. |
| Hex.HexDigit1 | src/lib.rs:27 | `hex_digit1` succeeds exactly when the input starts with a hex digit (either case). It takes the longest digit run, and the tail does not start with a hex digit. |
| Hex.ParseUsizeHex | src/lib.rs:27 | On the runs `hex_digit1` yields, the conversion succeeds exactly when the base-16 value is below 2^64, and the result is that value. Every other string is rejected. |
| Hex.FromStrRadix16 | src/lib.rs:27 | The digit loop with checked multiply and add gives exactly the same answer as `ParseUsizeHex`'s characterisation: it returns the base-16 value if and only if that value fits 64 bits. |
| Hex.OverflowIsFinal | src/lib.rs:27 | Once a prefix of the digits overflows the word, the whole string overflows (or has a non-digit later). This justifies the loop's early rejection. |
| Hex.HexFromAppend | src/lib.rs:27 | The value of a digit string can be computed piece by piece: evaluating `a + b` is evaluating `b` starting from the value of `a`. |
| Hex.ToHex | src/lib.rs:27 | Printing inverse of the conversion: every natural number has a non-empty hex spelling in `[0-9a-f]` with no leading zero (unless it is the single digit `0`), and that spelling parses back to the number. |
| Hex.LeadingZerosIgnored | src/lib.rs:27 | Any number of leading `0` digits leaves the parsed value unchanged, so zero-padded addresses parse to the same number. |
| Hex.PaddedHex | src/lib.rs:27 | The `%08lx`-style spelling: the shortest spelling padded with zeros to at least the given width, still parsing back to the number. |
| HeapMaps.RecognizeRange | src/lib.rs:26-30 | Whenever the separated pair succeeds, both bounds are below 2^64. |
| HeapMaps.RangeExactly | src/lib.rs:26-30 | Two hex runs around `-`, followed by a non-hex character or the end, give exactly the range of their values with the rest as tail. They are rejected if either value reaches 2^64. |
| HeapMaps.RangeHasLayout | src/lib.rs:26-30 | Conversely, an accepted range part is two hex runs around `-`, and the range holds their values. |
| HeapMaps.PermissionsExactly | src/lib.rs:32-34 | Whitespace, a non-empty permission run and whitespace, followed by a non-whitespace character, are consumed exactly. |
| HeapMaps.PermissionsHaveLayout | src/lib.rs:32-34 | Conversely, an accepted permissions step read whitespace, a non-empty run over `rwpx-`, and whitespace. |
| HeapMaps.SignatureExactly | src/lib.rs:35-39 | `00000000`, whitespace, `00:00`, whitespace and `0` are consumed exactly, with any tail left over. |
| HeapMaps.SignatureHasLayout | src/lib.rs:35-39 | Conversely, an accepted signature is exactly those five pieces followed by the returned tail. |
| HeapMaps.FieldsExactly | src/lib.rs:32-39 | The fields after the range, in the anonymous layout, are consumed exactly. |
| HeapMaps.FieldsHaveLayout | src/lib.rs:32-39 | Conversely, accepted fields have the anonymous layout with well-formed separators and permission run. |
| HeapMaps.PermissionsField | src/lib.rs:32-34 | Fails when the input does not start with whitespace. On success it consumed at least three characters (whitespace, a permission character, whitespace), and what remains does not start with whitespace. |
| HeapMaps.AnonymousSignature | src/lib.rs:35-39 | Fails when the input does not start with `00000000`. On success it consumed at least the 16 characters of `00000000 00:00 0`. |
| HeapMaps.AnonymousFields | src/lib.rs:32-39 | Fails when the input does not start with whitespace. On success it consumed at least 19 characters. |
| HeapMaps.RecognizeHeap | src/lib.rs:25-42 | Every range the recognizer returns has both bounds below 2^64. |
| HeapMaps.AcceptsLayout | src/lib.rs:25-42 | Completeness: every well-formed line `start-end perms 00000000 00:00 0tail` is accepted with its tail and the range of its hex runs, unless a run overflows the word, in which case it is rejected. |
| HeapMaps.AcceptedLineHasLayout | src/lib.rs:25-42 | Soundness: every accepted line has that layout, with hex runs that fit the word and spell the returned range. |
| HeapMaps.RecognizeHeapExactly | src/lib.rs:25-42 | Both directions at once: a line is accepted with tail `t` and range `r` if and only if it is a well-formed anonymous layout followed by `t`, whose hex runs fit and spell `r`. |
| HeapMaps.TailNotInspected | src/lib.rs:39-41 | The tail is never read. An accepted line is a prefix of at least 22 characters followed by its tail, and any other text in place of the tail is accepted with the same range. |
| HeapMaps.PermissionsNotInspected | src/lib.rs:32-39 | The permission run is a character class, not a value. After a range and a separator, swapping one non-empty run over `rwpx-` for another, before a separator, does not change the outcome, whatever follows. |
| HeapMaps.HeadThen | src/lib.rs:26-39 | Once the range and permissions have parsed, the outcome is decided by the signature steps on what follows. |
| HeapMaps.OffsetMismatchRejected | src/lib.rs:35 | An offset field that does not start with `00000000` rejects the line. |
| HeapMaps.DeviceMismatchRejected | src/lib.rs:37 | A device field that does not start with `00:00` rejects the line. |
| HeapMaps.InodeMismatchRejected | src/lib.rs:39 | An inode field that does not start with `0` rejects the line. |
| HeapMaps.PermissionOutsideAlphabetRejected | src/lib.rs:33-34 | A permission run followed by a character outside `rwpx-` that is not whitespace (the `s` of a shared mapping) rejects the line. |
| HeapMaps.RecognizeFormatted | src/lib.rs:25-42 | Round trip: an anonymous mapping line whose bounds are spelled as `%08lx` spells them (lower-case, zero-padded to eight digits), with single spaces between the fields and bounds below 2^64, is recognized with the same range and tail. |
| TextLines.StripCarriageReturn | src/lib.rs:19 | Removes exactly one final `\r` when there is one, and otherwise leaves the line unchanged. The result is always a prefix of the line. |
| TextLines.Lines | src/lib.rs:19 | `str::lines` returns no more lines than the text has characters, none for exactly the empty text, and none of them contains a line feed. |
| TextLines.FirstLine | src/lib.rs:19 | The first line of a text is what comes before its first line feed, minus a final `\r`; the rest of the split is the split of what follows. |
| TextLines.LinesOfJoin | src/lib.rs:19 | Inverse: splitting lines joined with `\n` gives them back, for lines without `\n` and not ending in `\r`. |
| TextLines.LinesOfCrlfJoin | src/lib.rs:19 | Inverse: splitting lines joined with `\r\n` gives back any lines without `\n`. |
| TextLines.SingleLine | src/lib.rs:19 | A non-empty text without a line feed is exactly one line, itself. |
| TextLines.LastLineUnterminated | src/lib.rs:19 | The final line feed is optional: an unterminated last line is still a line. |
| Sums.SumByAppend | src/lib.rs:22 | The sum over a concatenation is the sum of the two sums. |
| Sums.SumByRemove | src/lib.rs:22 | Removing one element removes exactly its weight from the sum. |
| Sums.SumByPermutation | src/lib.rs:22 | Two sequences with the same elements have the same sum. |
| HeapSum.Size | src/lib.rs:21 | `end - start` is non-negative exactly when the range is ordered. |
| HeapSum.RangeOfLine | src/lib.rs:20 | `recognize_heap(line).ok()` gives a range exactly when the recognizer accepts the line. That range is the one the line's hex runs spell, in a well-formed anonymous layout, and both bounds are below 2^64. |
| HeapSum.AcceptedRanges | src/lib.rs:19-20 | `filter_map` keeps at most one range per line. Its exact content is fixed by `HeapSum.AcceptedRangesOne` and `HeapSum.AcceptedRangesAppend`. |
| HeapSum.AcceptedRangesOne | src/lib.rs:20 | One line gives its range if it is accepted, and nothing otherwise. |
| HeapSum.AcceptedRangesAppend | src/lib.rs:20 | The ranges of two listings one after the other are the ranges of the first followed by those of the second. |
| HeapSum.AcceptedRangesComplete | src/lib.rs:20 | Every accepted line's range is kept at its own position: the result is the ranges of the lines before it, then its range, then the ranges of the lines after it. |
| HeapSum.AcceptedRangesSound | src/lib.rs:20 | Every kept range is the range of some accepted line. |
| HeapSum.TotalSize | src/lib.rs:21-22 | `.sum()` taken from the front equals the reference sum of the sizes. |
| HeapSum.LineContribution | src/lib.rs:20-21 | One line's contribution is the total of the one-line listing. |
| HeapSum.SumHeapLines | src/lib.rs:18-23 | The total is the sum, over the lines `str::lines` yields, of each line's contribution. |
| HeapSum.PipelineSumsContributions | src/lib.rs:18-23 | The total equals the sum over all lines of each line's contribution: its size if the line is accepted, 0 if not. |
| HeapSum.NothingAcceptedSumsToZero | src/lib.rs:18-23 | A listing with no accepted line, the empty listing included, totals 0. |
| HeapSum.RejectedLineIgnored | src/lib.rs:20 | Inserting a rejected line anywhere in the listing leaves the total unchanged. |
| HeapSum.OrderIndependent | src/lib.rs:18-23 | Any permutation of the lines gives the same total. |
| HeapSum.OrderedRangesSumNonNegative | src/lib.rs:21 | When every accepted range has `start <= end`, the total is non-negative. |
| HeapSum.SumOfJoinedListing | src/lib.rs:18-23 | For a listing written as `\n`-terminated plain lines, `sum_heap_lines` is the sum of the lines' contributions. |
| HeapExamples.HeapRegionAccepted | src/lib.rs:50-54 | The `heap_region` test line is accepted with start 0x7ff6ad5f8000, end 0x7ff6ad7f5000 and an empty tail. |
| HeapExamples.NonHeapRegionRejected | src/lib.rs:57-60 | The `non_heap_region` test line (offset `00037000`) is rejected. |
| HeapExamples.JavaTextRejected | src/lib.rs:74 | The executable's text mapping (device `fd:01`) is rejected. |
| HeapExamples.JavaRodataRejected | src/lib.rs:75 | The executable's read-only data (offset `00001000`) is rejected. |
| HeapExamples.JavaDataRejected | src/lib.rs:76 | The executable's writable data (offset `00002000`) is rejected. |
| HeapExamples.HeapLineAccepted | src/lib.rs:77 | The `[heap]` mapping is accepted with its range. The padded name is left in the tail. |
| HeapExamples.GuardLineAccepted | src/lib.rs:78 | A `---p` guard page is accepted: the permission value is not checked. |
| HeapExamples.ArenaLineAccepted | src/lib.rs:79 | An unnamed anonymous arena is accepted with its range. |
| HeapExamples.MapsExcerptContributions | src/lib.rs:74-79 | Per line of the excerpt: 0, 0, 0, 0x21000, 0x4000 and 0x1fd000 bytes. |
| HeapExamples.MapsExcerptSum | src/lib.rs:74-79 | `sum_heap_lines` of those six lines, as a listing, is 0x222000. |
| HeapExamples.SharedMappingRejected | src/lib.rs:143 | The shared `rw-s` mapping of `/dev/nvidiactl` is rejected. |
| HeapExamples.InodePrefixAccepted | src/lib.rs:39-41 | An inode field `01` is accepted, with `1` returned as the tail. |
| HeapExamples.UnorderedRangeAccepted | src/lib.rs:41 | A start above the end is accepted and returned as written: the bounds are not ordered. |
| HeapExamples.UnorderedRangeContributes | src/lib.rs:21 | That line contributes `0 - 0x1000` on unbounded integers. |
| HeapExamples.OversizedAddressRejected | src/lib.rs:27 | A 17-digit start address, 2^64, makes the conversion fail, and the line is rejected rather than wrapped. |

## Left out

- `read_heap_size` (src/lib.rs:9-16) builds the `/proc` path and reads the file. That is I/O; the model starts from the listing text.
- nom's error values (`Err::Error`, error kinds and positions) are collapsed into `None`. The caller discards them with `.ok()`.
- HeapSum.Size: `range.end - range.start` is computed on unbounded integers. In Rust it is a `usize` subtraction, which panics in a debug build and wraps in a release build when `start > end`. `HeapSum.Size`, `HeapSum.SumHeapLines` and `HeapSum.PipelineSumsContributions` are defined for unordered ranges too: the line of `HeapExamples.UnorderedRangeContributes` contributes -0x1000, where Rust panics or wraps.
- HeapSum.SumHeapLines: `.sum()` of `usize` values is not reduced modulo 2^64. An overflowing total would panic or wrap in Rust. It cannot overflow for a real listing, whose mappings lie inside one address space.
- HeapExamples.MapsExcerptSum: the `test_sum_heap_lines` total of 3494903808 (src/lib.rs:65) over the whole 90-line example listing (src/lib.rs:68-157) is not proved. Evaluating every line is too costly for the prover. Instead the model proves the exact total of lines 74-79 and the per-line results of lines 143 and 50-60.
- Hex.ParseUsizeHex: `from_str_radix` also accepts one leading `+` sign (`"+f"` gives 15). `hex_digit1` never yields one, so the model treats `+` as a non-digit; `Hex.FromStrRadix16` likewise leaves the sign out.
- `usize` is taken to be 64 bits wide (2^64 values). On a 32-bit target `from_str_radix` would reject every value of 2^32 or more.
- `str::lines` is modelled as current Rust documents it: a final line without a line feed keeps a trailing `\r`. Older Rust versions removed it.
- Text is a sequence of characters. Rust's UTF-8 byte indexing is not modelled; every character the recognizer consumes is ASCII.
