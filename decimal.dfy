/**
 * Decimal numerals: Rust's `Display` for unsigned integers (`format!("{n}")`)
 * and `FromStr` for `u8`/`u64` (`str::parse`), which both reduce to
 * `from_str_radix(s, 10)`.
 */
module Decimal {
  import opened Wrappers

  predicate IsDigit(c: char) {
    '0' <= c <= '9'
  }

  predicate AllDigits(s: string) {
    forall i :: 0 <= i < |s| ==> IsDigit(s[i])
  }

  function DigitValue(c: char): (d: nat)
    requires IsDigit(c)
    ensures d < 10
  {
    c as int - '0' as int
  }

  function DigitChar(d: nat): (c: char)
    requires d < 10
    ensures IsDigit(c) && DigitValue(c) == d
  {
    ('0' as int + d) as char
  }

  /** The number a digit string denotes (leading zeros allowed). */
  function Value(ds: string): nat
    requires AllDigits(ds)
    decreases |ds|
  {
    if ds == [] then 0 else Value(ds[..|ds| - 1]) * 10 + DigitValue(ds[|ds| - 1])
  }

  /** `format!("{n}")`: the shortest decimal numeral of `n`. */
  function Dec(n: nat): (s: string)
    ensures 1 <= |s| && AllDigits(s)
    ensures Value(s) == n
    ensures |s| > 1 ==> s[0] != '0'
    decreases n
  {
    if n < 10 then [DigitChar(n)]
    else
      var init := Dec(n / 10);
      assert (init + [DigitChar(n % 10)])[..|init|] == init;
      init + [DigitChar(n % 10)]
  }

  /** Rust's `IntErrorKind` for unsigned parsing. */
  datatype IntErrorKind = Empty | InvalidDigit | PosOverflow

  /**
   * The digit loop of `from_str_radix`, left to right: a non-digit is
   * `InvalidDigit`; `acc * 10 + d` above `max` (the `checked_mul`/`checked_add`
   * of the target width) is `PosOverflow`, whichever comes first.
   */
  function ParseDigits(acc: nat, rest: string, max: nat): (r: Result<nat, IntErrorKind>)
    ensures r.Ok? ==> r.value <= max || (rest == [] && r.value == acc)
    decreases |rest|
  {
    if rest == [] then Ok(acc)
    else if !IsDigit(rest[0]) then Err(InvalidDigit)
    else
      var next := acc * 10 + DigitValue(rest[0]);
      if next > max then Err(PosOverflow) else ParseDigits(next, rest[1..], max)
  }

  /**
   * `str::parse::<uN>()` with `uN::MAX == max`: the empty string is `Empty`,
   * a lone sign is `InvalidDigit`, one leading `+` is skipped, and a `-` is an
   * invalid digit because the type is unsigned.
   */
  function ParseUnsigned(s: string, max: nat): (r: Result<nat, IntErrorKind>)
    ensures r.Ok? ==> r.value <= max
  {
    if s == [] then Err(Empty)
    else if s == ['+'] || s == ['-'] then Err(InvalidDigit)
    else ParseDigits(0, if s[0] == '+' then s[1..] else s, max)
  }

  /** The digits of a numeral: `s` without its optional leading `+`. */
  function NumeralDigits(s: string): string {
    if |s| > 0 && s[0] == '+' then s[1..] else s
  }

  /** What `from_str_radix` accepts, leaving aside the range: an optional `+` and at least one digit. */
  predicate IsNumeral(s: string) {
    |NumeralDigits(s)| > 0 && AllDigits(NumeralDigits(s))
  }

  /** Left-to-right accumulation, the order in which the parser reads the digits. */
  function Fold(acc: nat, ds: string): nat
    requires AllDigits(ds)
    decreases |ds|
  {
    if ds == [] then acc else Fold(acc * 10 + DigitValue(ds[0]), ds[1..])
  }

  lemma {:induction false} FoldGrows(acc: nat, ds: string)
    requires AllDigits(ds)
    ensures acc <= Fold(acc, ds)
    decreases |ds|
  {
    if ds != [] {
      FoldGrows(acc * 10 + DigitValue(ds[0]), ds[1..]);
    }
  }

  lemma {:induction false} FoldSnoc(acc: nat, ds: string, c: char)
    requires AllDigits(ds) && IsDigit(c)
    ensures AllDigits(ds + [c]) && Fold(acc, ds + [c]) == Fold(acc, ds) * 10 + DigitValue(c)
    decreases |ds|
  {
    if ds == [] {
      assert ([c])[1..] == [];
    } else {
      assert (ds + [c])[1..] == ds[1..] + [c];
      FoldSnoc(acc * 10 + DigitValue(ds[0]), ds[1..], c);
    }
  }

  /** Reading left to right and reading right to left agree. */
  lemma {:induction false} FoldIsValue(ds: string)
    requires AllDigits(ds)
    ensures Fold(0, ds) == Value(ds)
    decreases |ds|
  {
    if ds != [] {
      var init := ds[..|ds| - 1];
      FoldIsValue(init);
      FoldSnoc(0, init, ds[|ds| - 1]);
      assert init + [ds[|ds| - 1]] == ds;
    }
  }

  /** The digit loop succeeds exactly on all-digit input whose value fits, and yields that value. */
  lemma {:induction false} ParseDigitsCharacterized(acc: nat, rest: string, max: nat)
    ensures ParseDigits(acc, rest, max).Ok? <==> AllDigits(rest) && (rest == [] || Fold(acc, rest) <= max)
    ensures ParseDigits(acc, rest, max).Ok? ==> ParseDigits(acc, rest, max).value == Fold(acc, rest)
    decreases |rest|
  {
    if rest != [] && IsDigit(rest[0]) {
      var next := acc * 10 + DigitValue(rest[0]);
      ParseDigitsCharacterized(next, rest[1..], max);
      if AllDigits(rest) {
        FoldGrows(next, rest[1..]);
      }
    }
  }

  /** `parse::<uN>` accepts exactly the numerals whose value is at most `uN::MAX`, and returns that value. */
  lemma ParseUnsignedCharacterized(s: string, max: nat)
    ensures ParseUnsigned(s, max).Ok? <==> IsNumeral(s) && Value(NumeralDigits(s)) <= max
    ensures ParseUnsigned(s, max).Ok? ==> ParseUnsigned(s, max).value == Value(NumeralDigits(s))
  {
    var ds := NumeralDigits(s);
    ParseDigitsCharacterized(0, ds, max);
    if AllDigits(ds) {
      FoldIsValue(ds);
    }
  }

  /** Round trip: the rendering of any in-range value parses back to it. */
  lemma ParseDec(n: nat, max: nat)
    requires n <= max
    ensures ParseUnsigned(Dec(n), max) == Ok(n)
  {
    ParseUnsignedCharacterized(Dec(n), max);
  }

  /** Anything that is not an optional `+` followed by digits is rejected, in particular any text containing a non-digit. */
  lemma RejectsNonNumerals(s: string, max: nat)
    requires !IsNumeral(s)
    ensures ParseUnsigned(s, max).Err?
  {
    ParseUnsignedCharacterized(s, max);
  }

  /** Any numeral above the maximum is rejected (for `u8`: everything above 255). */
  lemma RejectsOutOfRange(s: string, max: nat)
    requires IsNumeral(s) && Value(NumeralDigits(s)) > max
    ensures ParseUnsigned(s, max).Err?
  {
    ParseUnsignedCharacterized(s, max);
  }
}
