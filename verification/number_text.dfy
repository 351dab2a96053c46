/** When the numbers that `Number(text)` and `BigInt(text)` build from a numeric
    default text are falsy. The values themselves are never computed; only the
    shape of the text decides whether the value is zero (or, for `Number`, NaN). */
module NumberText {

  import opened JsText

  predicate AllZero(s: string) {
    forall i :: 0 <= i < |s| ==> s[i] == '0'
  }

  predicate IsHexDigit(c: char) {
    IsDigit(c) || ('a' <= c <= 'f') || ('A' <= c <= 'F')
  }

  predicate IsOctalDigit(c: char) {
    '0' <= c <= '7'
  }

  predicate IsBinaryDigit(c: char) {
    c == '0' || c == '1'
  }

  /** Non-empty and made of decimal digits only. */
  predicate IsDecimalDigits(s: string) {
    s != [] && forall i :: 0 <= i < |s| ==> IsDigit(s[i])
  }

  /** A `0x`, `0o` or `0b` literal with at least one digit of its radix. */
  predicate IsNonDecimal(t: string) {
    && |t| >= 3
    && t[0] == '0'
    && var digits := t[2..];
       || ((t[1] == 'x' || t[1] == 'X') && forall i :: 0 <= i < |digits| ==> IsHexDigit(digits[i]))
       || ((t[1] == 'o' || t[1] == 'O') && forall i :: 0 <= i < |digits| ==> IsOctalDigit(digits[i]))
       || ((t[1] == 'b' || t[1] == 'B') && forall i :: 0 <= i < |digits| ==> IsBinaryDigit(digits[i]))
  }

  /** Length of the run of decimal digits at the start of `s`. */
  function DigitRun(s: string): (n: nat)
    ensures n <= |s|
    ensures forall k :: 0 <= k < n ==> IsDigit(s[k])
    ensures n == |s| || !IsDigit(s[n])
    decreases |s|
  {
    if s != [] && IsDigit(s[0]) then 1 + DigitRun(s[1..]) else 0
  }

  /** A decimal literal cut into its integer digits, its fraction digits (after
      an optional `.`) and whatever follows them. */
  function DecimalParts(t: string): (string, string, string)
  {
    var w := DigitRun(t);
    var rest := t[w..];
    if rest != [] && rest[0] == '.' then
      var f := DigitRun(rest[1..]);
      (t[..w], rest[1..][..f], rest[1..][f..])
    else
      (t[..w], [], rest)
  }

  /** An empty text, or `e`/`E`, an optional sign and at least one digit. */
  predicate IsExponent(e: string) {
    || e == []
    || ((e[0] == 'e' || e[0] == 'E')
        && IsDecimalDigits(if |e| > 1 && (e[1] == '+' || e[1] == '-') then e[2..] else e[1..]))
  }

  /** StrUnsignedDecimalLiteral for a text that starts with a digit:
      digits, optionally `.` and more digits, optionally an exponent. */
  predicate IsDecimal(t: string) {
    var parts := DecimalParts(t);
    parts.0 != [] && IsExponent(parts.2)
  }

  /** `Number(t)` is `0` or `NaN` for a default text that begins with a digit:
      a text that is no numeric literal gives NaN, a literal gives zero when all
      its digits are zero. */
  predicate NumberIsZeroOrNaN(t: string) {
    if IsNonDecimal(t) then AllZero(t[2..])
    else if IsDecimal(t) then
      var parts := DecimalParts(t);
      AllZero(parts.0) && AllZero(parts.1)
    else true
  }

  /** `BigInt(t)` is `0n`. StringToBigInt trims white space and reads an empty
      text as zero. */
  predicate BigIntIsZero(t: string) {
    var u := Trim(t);
    || u == []
    || AllZero(u)
    || (IsNonDecimal(u) && AllZero(u[2..]))
  }
}
