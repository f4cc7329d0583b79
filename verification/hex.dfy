/** Hexadecimal digits and `usize::from_str_radix(digits, 16)` on a 64-bit
    target, applied to what `hex_digit1` yields: base-16 value of a digit
    string, rejected when it does not fit the machine word. */
module Hex {
  import opened Combinators

  /** Number of distinct `usize` values on a 64-bit target (`usize::MAX + 1`). */
  const WordModulus: nat := 0x1_0000_0000_0000_0000

  /** The character class of `hex_digit1`: `[0-9a-fA-F]`. */
  predicate IsHexDigit(c: char) {
    '0' <= c <= '9' || 'a' <= c <= 'f' || 'A' <= c <= 'F'
  }

  /** Value of one hexadecimal digit, upper or lower case. */
  function DigitValue(c: char): (d: nat)
    requires IsHexDigit(c)
    ensures d < 16
  {
    if '0' <= c <= '9' then c as nat - '0' as nat
    else if 'a' <= c <= 'f' then c as nat - 'a' as nat + 10
    else c as nat - 'A' as nat + 10
  }

  /** Horner evaluation of `digits` continuing from the accumulated value `acc`,
      most significant digit first. */
  function HexFrom(acc: nat, digits: string): nat
    requires All(digits, IsHexDigit)
    decreases |digits|
  {
    if |digits| == 0 then acc
    else HexFrom(acc * 16 + DigitValue(digits[0]), digits[1..])
  }

  /** The base-16 value of a digit string (0 for the empty string). */
  function HexValue(digits: string): nat
    requires All(digits, IsHexDigit)
  {
    HexFrom(0, digits)
  }

  /** Evaluation splits at any point of the digit string. */
  lemma {:induction false} HexFromAppend(acc: nat, a: string, b: string)
    requires All(a, IsHexDigit) && All(b, IsHexDigit)
    ensures All(a + b, IsHexDigit)
    ensures HexFrom(acc, a + b) == HexFrom(HexFrom(acc, a), b)
    decreases |a|
  {
    assert forall i :: 0 <= i < |a + b| ==> (a + b)[i] == if i < |a| then a[i] else b[i - |a|];
    if |a| > 0 {
      assert (a + b)[1..] == a[1..] + b;
      HexFromAppend(acc * 16 + DigitValue(a[0]), a[1..], b);
    } else {
      assert a + b == b;
    }
  }

  /** Appending one digit multiplies by the base and adds the digit. */
  lemma HexValueSnoc(digits: string, c: char)
    requires All(digits, IsHexDigit) && IsHexDigit(c)
    ensures All(digits + [c], IsHexDigit)
    ensures HexValue(digits + [c]) == HexValue(digits) * 16 + DigitValue(c)
  {
    HexFromAppend(0, digits, [c]);
    assert [c][1..] == [];
  }

  /** Evaluation never decreases the accumulated value: reading more digits can
      only make the number larger. */
  lemma {:induction false} HexFromGrows(acc: nat, digits: string)
    requires All(digits, IsHexDigit)
    ensures HexFrom(acc, digits) >= acc
    decreases |digits|
  {
    if |digits| > 0 {
      HexFromGrows(acc * 16 + DigitValue(digits[0]), digits[1..]);
    }
  }

  /** `map_res(hex_digit1, |num| usize::from_str_radix(num, 16))`'s conversion
      on a run of hex digits: the value of the digits when it is a `usize`, and
      failure when it overflows the word. Any other string (empty, or holding a
      non-digit such as the optional `+` sign, which `hex_digit1` never yields)
      is rejected. */
  function ParseUsizeHex(digits: string): (r: Option<nat>)
    ensures r.Some? <==> |digits| > 0 && All(digits, IsHexDigit) && HexValue(digits) < WordModulus
    ensures r.Some? ==> r.value == HexValue(digits) && r.value < WordModulus
  {
    if |digits| == 0 || !All(digits, IsHexDigit) then None
    else if HexValue(digits) < WordModulus then Some(HexValue(digits))
    else None
  }

  /** The digit loop of `from_str_radix` on unsigned input without a sign:
      reject empty input, then for each character reject a non-digit, and
      multiply and add with checked arithmetic, rejecting on the first
      overflow. */
  method FromStrRadix16(digits: string) returns (r: Option<nat>)
    ensures r.Some? <==> |digits| > 0 && All(digits, IsHexDigit) && HexValue(digits) < WordModulus
    ensures r.Some? ==> r.value == HexValue(digits)
  {
    if |digits| == 0 {
      return None;
    }
    var acc: nat := 0;
    var i := 0;
    while i < |digits|
      invariant 0 <= i <= |digits|
      invariant acc < WordModulus
      invariant All(digits[..i], IsHexDigit)
      invariant acc == HexValue(digits[..i])
    {
      var c := digits[i];
      if !IsHexDigit(c) {
        return None;
      }
      assert digits[..i + 1] == digits[..i] + [c];
      HexValueSnoc(digits[..i], c);
      var shifted := acc * 16;
      if shifted >= WordModulus {
        OverflowIsFinal(digits, i + 1);
        return None;
      }
      var next := shifted + DigitValue(c);
      if next >= WordModulus {
        OverflowIsFinal(digits, i + 1);
        return None;
      }
      acc := next;
      i := i + 1;
    }
    assert digits[..i] == digits;
    r := Some(acc);
  }

  /** Once a prefix of the digits is too large for the word, so is the whole
      string, or the string holds a non-digit further on. */
  lemma OverflowIsFinal(digits: string, k: nat)
    requires k <= |digits|
    requires All(digits[..k], IsHexDigit)
    requires HexValue(digits[..k]) >= WordModulus
    ensures !All(digits, IsHexDigit) || HexValue(digits) >= WordModulus
  {
    if All(digits, IsHexDigit) {
      assert digits == digits[..k] + digits[k..];
      HexFromAppend(0, digits[..k], digits[k..]);
      HexFromGrows(HexValue(digits[..k]), digits[k..]);
    }
  }

  /** `hex_digit1`: the longest non-empty run of hexadecimal digits. */
  function HexDigit1(s: string): (r: Option<Split>)
    ensures r.Some? <==> |s| > 0 && IsHexDigit(s[0])
    ensures r.Some? ==> s == r.value.matched + r.value.tail && |r.value.matched| > 0
    ensures r.Some? ==> All(r.value.matched, IsHexDigit) && (|r.value.tail| == 0 || !IsHexDigit(r.value.tail[0]))
  {
    TakeWhile1(s, IsHexDigit)
  }

  /** The lower-case digit for a value below 16, as the kernel prints it. */
  function HexChar(d: nat): (c: char)
    requires d < 16
    ensures IsHexDigit(c) && DigitValue(c) == d
  {
    "0123456789abcdef"[d]
  }

  /** The digits `%x` prints: `[0-9a-f]`. */
  predicate IsLowerHexDigit(c: char) {
    '0' <= c <= '9' || 'a' <= c <= 'f'
  }

  /** Shortest lower-case hexadecimal spelling of `n`: the inverse of
      `HexValue` on canonical digit strings. */
  function ToHex(n: nat): (s: string)
    ensures |s| > 0 && All(s, IsHexDigit) && All(s, IsLowerHexDigit)
    ensures HexValue(s) == n
    ensures |s| == 1 || s[0] != '0'
    decreases n
  {
    if n < 16 then
      HexValueSnoc([], HexChar(n));
      assert [] + [HexChar(n)] == [HexChar(n)];
      [HexChar(n)]
    else
      var high := ToHex(n / 16);
      HexValueSnoc(high, HexChar(n % 16));
      assert |high| == 1 ==> HexValue(high) == DigitValue(high[0]);
      high + [HexChar(n % 16)]
  }

  /** A run of `k` zero digits, worth 0. */
  function Zeros(k: nat): (z: string)
    ensures |z| == k && All(z, IsHexDigit) && All(z, IsLowerHexDigit)
    ensures HexValue(z) == 0
  {
    if k == 0 then []
    else
      HexValueSnoc(Zeros(k - 1), '0');
      Zeros(k - 1) + "0"
  }

  /** Leading zeros do not change the value. */
  lemma LeadingZerosIgnored(k: nat, digits: string)
    requires All(digits, IsHexDigit)
    ensures All(Zeros(k) + digits, IsHexDigit)
    ensures HexValue(Zeros(k) + digits) == HexValue(digits)
  {
    HexFromAppend(0, Zeros(k), digits);
  }

  /** `%0<width>lx`: the shortest lower-case spelling of `n`, left-padded with
      zeros to at least `width` digits, as the kernel prints addresses with
      `%08lx`. */
  function PaddedHex(n: nat, width: nat): (s: string)
    ensures |s| > 0 && |s| >= width && All(s, IsHexDigit) && All(s, IsLowerHexDigit)
    ensures HexValue(s) == n
    ensures |s| == if |ToHex(n)| < width then width else |ToHex(n)|
  {
    var digits := ToHex(n);
    var pad := if |digits| < width then width - |digits| else 0;
    LeadingZerosIgnored(pad, digits);
    AllConcat(Zeros(pad), digits, IsLowerHexDigit);
    Zeros(pad) + digits
  }
}
