/** Decimal numerals as strings: JavaScript's `String(n)` for integers, the
    pattern `^-?\d+(\.\d+)?$` that `pretty` tests its argument against, and
    `parseInt` on the strings that pattern admits. */
module Numerals {
  import opened Results

  function Abs(i: int): (a: nat)
    ensures a == i || a == -i
  {
    if i < 0 then -i else i
  }

  function Pow10(k: nat): (p: nat)
    ensures p >= 1
  {
    if k == 0 then 1 else 10 * Pow10(k - 1)
  }

  // ---------------------------------------------------------------- digits

  /** `\d` in a JavaScript regular expression without the `u` flag. */
  predicate IsDigit(c: char) {
    '0' <= c <= '9'
  }

  predicate AllDigits(s: string) {
    forall i :: 0 <= i < |s| ==> IsDigit(s[i])
  }

  function DigitValue(c: char): (d: nat)
    requires IsDigit(c)
    ensures d < 10
  {
    c as int - '0' as int
  }

  function DigitChar(d: nat): (c: char)
    requires d < 10
    ensures IsDigit(c) && DigitValue(c) == d
  {
    ('0' as int + d) as char
  }

  /** The number a string of decimal digits denotes (most significant first). */
  function Value(s: string): nat
    requires AllDigits(s)
  {
    if s == [] then 0 else 10 * Value(s[..|s| - 1]) + DigitValue(s[|s| - 1])
  }

  /** Decimal digits of a natural number, without leading zeros. */
  function NatToString(n: nat): (s: string)
    ensures |s| > 0 && AllDigits(s)
    ensures |s| > 1 ==> s[0] != '0'
    decreases n
  {
    if n < 10 then [DigitChar(n)] else NatToString(n / 10) + [DigitChar(n % 10)]
  }

  /** Appending a digit to a positive number appends its character. */
  lemma NatToStringAppend(n: nat, d: nat)
    requires n >= 1 && d < 10
    ensures NatToString(10 * n + d) == NatToString(n) + [DigitChar(d)]
  {
  }

  /** JavaScript's `String(n)` (and the template `${n}`) for an integer. */
  function IntToString(i: int): string {
    if i < 0 then "-" + NatToString(-i) else NatToString(i)
  }

  /** `String(-n)` is a minus sign followed by `String(n)`. */
  lemma IntToStringNegated(n: int)
    requires n > 0
    ensures IntToString(-n) == "-" + IntToString(n)
  {
  }

  // ------------------------------------------------ numerals and their parts

  /** The text of a numeral built from its sign, its integer digits and its
      optional fractional digits. */
  function Numeral(negative: bool, whole: string, fraction: Option<string>): string {
    (if negative then "-" else "")
    + whole
    + (match fraction case None => "" case Some(f) => "." + f)
  }

  /** The parts that the pattern `-?\d+(\.\d+)?` allows. */
  predicate WellFormedParts(whole: string, fraction: Option<string>) {
    && |whole| > 0 && AllDigits(whole)
    && (fraction.Some? ==> |fraction.value| > 0 && AllDigits(fraction.value))
  }

  predicate IsNegative(s: string) {
    |s| > 0 && s[0] == '-'
  }

  function Unsigned(s: string): string {
    if IsNegative(s) then s[1..] else s
  }

  /** The longest prefix of `s` made of digits. */
  function LeadingDigits(s: string): (r: string)
    ensures |r| <= |s| && AllDigits(r) && r == s[..|r|]
    ensures |r| < |s| ==> !IsDigit(s[|r|])
  {
    if |s| > 0 && IsDigit(s[0]) then [s[0]] + LeadingDigits(s[1..]) else []
  }

  /** The integer digits of a numeral, after its optional sign. */
  function WholePart(s: string): string {
    LeadingDigits(Unsigned(s))
  }

  /** The digits after the decimal point, when the integer digits are
      followed by one. */
  function FractionPart(s: string): Option<string> {
    var u := Unsigned(s);
    var rest := u[|WholePart(s)|..];
    if |rest| > 0 && rest[0] == '.' then Some(rest[1..]) else None
  }

  // ------------------------------------------- the pattern, as an automaton

  /** `/^-?\d+(\.\d+)?$/.test(s)`: the whole string is an optionally negative
      decimal numeral with an optional fractional part. */
  predicate Matches(s: string) {
    if IsNegative(s) then MatchesWhole(s[1..]) else MatchesWhole(s)
  }

  /** At `\d+`: at least one digit must follow. */
  predicate MatchesWhole(s: string) {
    |s| > 0 && IsDigit(s[0]) && MatchesAfterWholeDigit(s[1..])
  }

  /** Inside `\d+`: the end, another digit, or the decimal point. */
  predicate MatchesAfterWholeDigit(s: string) {
    || |s| == 0
    || (IsDigit(s[0]) && MatchesAfterWholeDigit(s[1..]))
    || (s[0] == '.' && MatchesFraction(s[1..]))
  }

  /** After the decimal point: one or more digits, then the end. */
  predicate MatchesFraction(s: string) {
    |s| > 0 && AllDigits(s)
  }

  // ---------------------------------------------------------------- parseInt

  /** `parseInt(s)` on a string that starts with an optional minus sign and
      decimal digits: the sign applied to the leading digits (the integer
      part, truncated toward zero); no value when no digit follows the sign. */
  function ParseInt(s: string): Option<int> {
    var w := WholePart(s);
    var v: int := Value(w);
    if w == [] then None else Some(if IsNegative(s) then -v else v)
  }

  /** The numeral's exact value is `ScaledValue(s) / Pow10(|fraction|)`. */
  function ScaledValue(s: string): int
    requires Matches(s)
  {
    MatchesSound(s);
    var f := match FractionPart(s) case None => "" case Some(f) => f;
    var m := Value(WholePart(s)) * Pow10(|f|) + Value(f);
    if IsNegative(s) then -m else m
  }

  function FractionLength(s: string): nat {
    match FractionPart(s) case None => 0 case Some(f) => |f|
  }

  /** Division of `a` by a positive `b`, truncated toward zero. */
  function TruncatedDiv(a: int, b: nat): int
    requires b > 0
  {
    if a < 0 then -((-a) / b) else a / b
  }

  // ------------------------------------------------------------------ lemmas

  /** Decoding the digits of `n` gives back `n`. */
  lemma {:induction false} ValueOfNatToString(n: nat)
    ensures Value(NatToString(n)) == n
    decreases n
  {
    if n >= 10 {
      var s := NatToString(n);
      assert s[..|s| - 1] == NatToString(n / 10);
      ValueOfNatToString(n / 10);
    }
  }

  /** A digit string's value is below ten to the power of its length. */
  lemma {:induction false} ValueBound(s: string)
    requires AllDigits(s)
    ensures Value(s) < Pow10(|s|)
  {
    if s != [] {
      ValueBound(s[..|s| - 1]);
    }
  }

  lemma {:induction false} LeadingDigitsOfNumber(w: string, rest: string)
    requires AllDigits(w)
    requires |rest| > 0 ==> !IsDigit(rest[0])
    ensures LeadingDigits(w + rest) == w
  {
    if w != [] {
      assert (w + rest)[1..] == w[1..] + rest;
      LeadingDigitsOfNumber(w[1..], rest);
      assert [w[0]] + w[1..] == w;
    }
  }

  /** The automaton after a digit accepts digits followed optionally by a
      decimal point and fractional digits. */
  lemma {:induction false} AfterWholeDigitComplete(w: string, fraction: Option<string>)
    requires AllDigits(w)
    requires fraction.Some? ==> |fraction.value| > 0 && AllDigits(fraction.value)
    ensures MatchesAfterWholeDigit(w + (match fraction case None => "" case Some(f) => "." + f))
  {
    var tail := match fraction case None => "" case Some(f) => "." + f;
    if w == [] {
      assert w + tail == tail;
      if fraction.Some? {
        assert tail[1..] == fraction.value;
      }
    } else {
      assert (w + tail)[1..] == w[1..] + tail;
      AfterWholeDigitComplete(w[1..], fraction);
    }
  }

  /** What the automaton after a digit accepts is digits followed by an
      optional point and fractional digits. */
  lemma {:induction false} AfterWholeDigitSound(s: string)
    requires MatchesAfterWholeDigit(s)
    ensures |LeadingDigits(s)| == |s| || (s[|LeadingDigits(s)|] == '.' && MatchesFraction(s[|LeadingDigits(s)| + 1..]))
  {
    if |s| > 0 && IsDigit(s[0]) {
      AfterWholeDigitSound(s[1..]);
      var k := |LeadingDigits(s[1..])|;
      assert |LeadingDigits(s)| == k + 1;
      if k < |s[1..]| {
        assert s[k + 1] == s[1..][k];
        assert s[k + 2..] == s[1..][k + 1..];
      }
    }
  }

  lemma NumeralParts(negative: bool, whole: string, fraction: Option<string>)
    requires WellFormedParts(whole, fraction)
    ensures IsNegative(Numeral(negative, whole, fraction)) == negative
    ensures WholePart(Numeral(negative, whole, fraction)) == whole
    ensures FractionPart(Numeral(negative, whole, fraction)) == fraction
  {
    var tail := match fraction case None => "" case Some(f) => "." + f;
    var s := Numeral(negative, whole, fraction);
    assert Unsigned(s) == whole + tail;
    LeadingDigitsOfNumber(whole, tail);
    assert Unsigned(s)[|whole|..] == tail;
    if fraction.Some? {
      assert tail[1..] == fraction.value;
    }
  }

  /** Completeness of the pattern: every well-formed numeral matches, and its
      parts can be read back from its text. */
  lemma MatchesComplete(negative: bool, whole: string, fraction: Option<string>)
    requires WellFormedParts(whole, fraction)
    ensures Matches(Numeral(negative, whole, fraction))
    ensures IsNegative(Numeral(negative, whole, fraction)) == negative
    ensures WholePart(Numeral(negative, whole, fraction)) == whole
    ensures FractionPart(Numeral(negative, whole, fraction)) == fraction
  {
    var tail := match fraction case None => "" case Some(f) => "." + f;
    var s := Numeral(negative, whole, fraction);
    NumeralParts(negative, whole, fraction);
    assert Unsigned(s) == whole + tail;
    assert (whole + tail)[1..] == whole[1..] + tail;
    AfterWholeDigitComplete(whole[1..], fraction);
  }

  /** At `\d+`, what the automaton accepts is one or more digits followed by
      an optional point and fractional digits. */
  lemma WholeSound(u: string)
    requires MatchesWhole(u)
    ensures |LeadingDigits(u)| > 0
    ensures |LeadingDigits(u)| == |u|
            || (u[|LeadingDigits(u)|] == '.' && MatchesFraction(u[|LeadingDigits(u)| + 1..]))
  {
    AfterWholeDigitSound(u[1..]);
    var k := |LeadingDigits(u[1..])|;
    assert |LeadingDigits(u)| == k + 1;
    if k < |u[1..]| {
      assert u[k + 1] == u[1..][k];
      assert u[k + 2..] == u[1..][k + 1..];
    }
  }

  /** The text after the sign of a matching string is its integer digits
      followed by its optional point and fractional digits. */
  lemma UnsignedSound(s: string)
    requires MatchesWhole(Unsigned(s))
    ensures WellFormedParts(WholePart(s), FractionPart(s))
    ensures Unsigned(s) == WholePart(s) + (match FractionPart(s) case None => "" case Some(f) => "." + f)
  {
    var u := Unsigned(s);
    WholeSound(u);
    var w := WholePart(s);
    assert w == u[..|w|];
    if |w| < |u| {
      var f := u[|w| + 1..];
      assert u[|w|..] == "." + f;
      assert FractionPart(s) == Some(f);
      assert u == w + "." + f;
    } else {
      assert FractionPart(s) == None;
      assert u == w;
    }
  }

  /** Soundness of the pattern: a matching string is the numeral of its own
      sign, integer digits and fractional digits. */
  lemma MatchesSound(s: string)
    requires Matches(s)
    ensures WellFormedParts(WholePart(s), FractionPart(s))
    ensures s == Numeral(IsNegative(s), WholePart(s), FractionPart(s))
  {
    UnsignedSound(s);
    NumeralUnfolds(IsNegative(s), WholePart(s), FractionPart(s));
    assert s == (if IsNegative(s) then "-" else "") + Unsigned(s);
  }

  /** A numeral is its sign followed by its unsigned text. */
  lemma NumeralUnfolds(negative: bool, whole: string, fraction: Option<string>)
    ensures Numeral(negative, whole, fraction)
            == (if negative then "-" else "") + (whole + (match fraction case None => "" case Some(f) => "." + f))
  {
  }

  /** A numeral without a fraction matches and denotes its integer digits. */
  lemma ScaledWhole(negative: bool, whole: string)
    requires |whole| > 0 && AllDigits(whole)
    ensures Matches(Numeral(negative, whole, None))
    ensures IsNegative(Numeral(negative, whole, None)) == negative
    ensures FractionLength(Numeral(negative, whole, None)) == 0
    ensures ScaledValue(Numeral(negative, whole, None)) == if negative then -(Value(whole) as int) else Value(whole) as int
  {
    MatchesComplete(negative, whole, None);
    assert Pow10(0) == 1;
  }

  /** A numeral with one fractional digit matches and denotes its tenths. */
  lemma ScaledTenths(negative: bool, whole: string, c: char)
    requires |whole| > 0 && AllDigits(whole) && IsDigit(c)
    ensures Matches(Numeral(negative, whole, Some([c])))
    ensures IsNegative(Numeral(negative, whole, Some([c]))) == negative
    ensures FractionLength(Numeral(negative, whole, Some([c]))) == 1
    ensures ScaledValue(Numeral(negative, whole, Some([c])))
            == if negative then -(10 * Value(whole) + DigitValue(c)) else 10 * Value(whole) + DigitValue(c)
  {
    MatchesComplete(negative, whole, Some([c]));
    SingleDigitValue(c);
    assert Pow10(|[c]|) == 10;
    assert Value(whole) * Pow10(|[c]|) == 10 * Value(whole);
  }

  lemma SingleDigitValue(c: char)
    requires IsDigit(c)
    ensures Value([c]) == DigitValue(c)
  {
    assert [c][..0] == [];
  }

  /** `String(i)` passes the pattern, and `parseInt` reads it back. */
  lemma IntToStringRoundTrip(i: int)
    ensures Matches(IntToString(i))
    ensures FractionPart(IntToString(i)) == None
    ensures ParseInt(IntToString(i)) == Some(i)
  {
    var digits := NatToString(Abs(i));
    assert IntToString(i) == Numeral(i < 0, digits, None);
    MatchesComplete(i < 0, digits, None);
    ValueOfNatToString(Abs(i));
  }

  /** `parseInt` of a numeral built from the digits of `n` is `n` with the
      numeral's sign, whatever fraction follows. */
  lemma ParseIntOfNumeral(negative: bool, n: nat, fraction: Option<string>)
    requires WellFormedParts(NatToString(n), fraction)
    ensures Matches(Numeral(negative, NatToString(n), fraction))
    ensures ParseInt(Numeral(negative, NatToString(n), fraction)) == Some(if negative then -(n as int) else n as int)
  {
    MatchesComplete(negative, NatToString(n), fraction);
    ValueOfNatToString(n);
    ParseIntOfParts(Numeral(negative, NatToString(n), fraction), negative, NatToString(n), n);
  }

  /** `parseInt` reads the sign and the integer digits of a string. */
  lemma ParseIntOfParts(s: string, negative: bool, whole: string, v: nat)
    requires IsNegative(s) == negative && WholePart(s) == whole && |whole| > 0 && Value(whole) == v
    ensures ParseInt(s) == Some(if negative then -(v as int) else v as int)
  {
  }

  /** On a matching string, `parseInt` yields the numeral's value truncated
      toward zero. */
  lemma ParseIntTruncates(s: string)
    requires Matches(s)
    ensures ParseInt(s) == Some(TruncatedDiv(ScaledValue(s), Pow10(FractionLength(s))))
  {
    MatchesSound(s);
    var f := match FractionPart(s) case None => "" case Some(f) => f;
    assert FractionLength(s) == |f|;
    var w := Value(WholePart(s));
    var p := Pow10(|f|);
    assert ScaledValue(s) == (if IsNegative(s) then -(w * p + Value(f)) else w * p + Value(f));
    ValueBound(f);
    TruncatedScaled(IsNegative(s), w, p, Value(f));
  }

  /** Truncating a signed scaled value drops its fractional digits. */
  lemma TruncatedScaled(negative: bool, w: nat, p: nat, r: nat)
    requires r < p
    ensures TruncatedDiv(if negative then -(w * p + r) else w * p + r, p) == (if negative then -(w as int) else w as int)
  {
    DivOfScaled(w, p, r);
  }

  lemma DivOfScaled(w: nat, p: nat, r: nat)
    requires r < p
    ensures (w * p + r) / p == w
  {
    DivUnique(w * p + r, p, w, r);
  }

  /** Quotient and remainder of Euclidean division are the only pair that
      satisfies the division identity with the remainder in range. */
  lemma DivUnique(a: int, b: int, q: int, r: int)
    requires b > 0 && 0 <= r < b && a == q * b + r
    ensures a / b == q && a % b == r
  {
    var q', r' := a / b, a % b;
    assert (q - q') * b == r' - r;
    if q > q' {
      MulAtLeast(q - q', b);
    } else if q < q' {
      MulAtLeast(q' - q, b);
    }
  }

  lemma MulAtLeast(x: int, b: int)
    requires x >= 1 && b > 0
    ensures x * b >= b
  {
  }
}
