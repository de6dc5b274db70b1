/** One order of magnitude: the abbreviation shown after a rounded number
    and the power of ten it stands for (`OrderOfMagnitude` in
    pretty-numbers.js). */
module OrderOfMagnitude {
  import opened Results
  import opened Numerals

  datatype Tier = Tier(abbreviation: char, magnitude: nat)

  /** `isInRange`: the value, with its sign dropped, has exactly the three
      integer digits this tier covers. */
  predicate IsInRange(t: Tier, n: int) {
    var m := if n < 0 then n * -1 else n;
    m >= t.magnitude && m <= t.magnitude * 1000 - 1
  }

  /** `Math.round(num / den)`: the integer nearest to the quotient; a quotient
      exactly halfway between two integers goes to the larger one. */
  function RoundHalfUp(num: int, den: int): (k: int)
    requires den > 0
    ensures 2 * den * k <= 2 * num + den < 2 * den * (k + 1)
  {
    var k := (2 * num + den) / (2 * den);
    DivBounds(2 * num + den, 2 * den);
    k
  }

  /** The quotient `num / den` lies exactly halfway between two integers. */
  predicate IsHalfway(num: int, den: int)
    requires den > 0
  {
    (2 * num) % (2 * den) == den
  }

  /** `(k / 10).toFixed(1)`: the tenths `k` written with exactly one digit
      after the decimal point, a minus sign in front when `k` is negative. */
  function ToFixed1(k: int): string {
    Numeral(k < 0, NatToString(Abs(k) / 10), Some([DigitChar(Abs(k) % 10)]))
  }

  predicate EndsWithPointZero(s: string) {
    |s| >= 2 && s[|s| - 2..] == ".0"
  }

  /** Drops a trailing ".0", as `round` does before appending the abbreviation. */
  function StripPointZero(s: string): string {
    if EndsWithPointZero(s) then s[..|s| - 2] else s
  }

  /** `toUpperCase` on one character (the Latin letters; the tiers' own
      abbreviations are upper case already). */
  function Upper(c: char): char {
    if 'a' <= c <= 'z' then (c as int - 32) as char else c
  }

  /** `round`: refuses a value outside the tier; otherwise divides by the
      magnitude, rounds to tenths with `Math.round`, writes the tenths with one
      decimal, drops a ".0" and appends the upper-cased abbreviation. */
  function Round(t: Tier, n: int): Result<string, Error> {
    if !IsInRange(t, n) then Failure(OutOfRange)
    else
      var k := RoundHalfUp(10 * n, t.magnitude);
      Success(StripPointZero(ToFixed1(k)) + [Upper(t.abbreviation)])
  }

  // ------------------------------------------------------------ arithmetic

  lemma DivBounds(a: int, b: int)
    requires b > 0
    ensures b * (a / b) <= a < b * (a / b + 1)
  {
  }

  lemma MulLessCancel(a: int, x: int, y: int)
    requires a > 0 && a * x < a * y
    ensures x < y
  {
    if x >= y {
      assert a * x - a * y == a * (x - y);
      MulNonNegative(a, x - y);
    }
  }

  lemma MulNonNegative(a: int, b: int)
    requires a >= 0 && b >= 0
    ensures a * b >= 0
  {
  }

  // ---------------------------------------------------------------- lemmas

  /** `isInRange` looks only at the absolute value, and holds exactly when
      `magnitude <= |n| <= magnitude * 1000 - 1`; only a positive magnitude
      admits any value. */
  lemma IsInRangeIgnoresSign(t: Tier, n: int)
    ensures IsInRange(t, n) == IsInRange(t, -n)
    ensures IsInRange(t, n) <==> t.magnitude <= Abs(n) <= t.magnitude * 1000 - 1
    ensures IsInRange(t, n) ==> t.magnitude >= 1
  {
  }

  /** `Math.round` is characterised by its contract: no other integer lies
      within half of the quotient with ties going up. */
  lemma RoundHalfUpUnique(num: int, den: int, j: int)
    requires den > 0
    requires 2 * den * j <= 2 * num + den < 2 * den * (j + 1)
    ensures j == RoundHalfUp(num, den)
  {
    var k := RoundHalfUp(num, den);
    if j < k {
      assert 2 * den * (j + 1) <= 2 * den * k by {
        MulMonotone(2 * den, j + 1, k);
      }
    } else if j > k {
      assert 2 * den * (k + 1) <= 2 * den * j by {
        MulMonotone(2 * den, k + 1, j);
      }
    }
  }

  lemma MulMonotone(a: int, x: int, y: int)
    requires a > 0 && x <= y
    ensures a * x <= a * y
  {
    assert a * y - a * x == a * (y - x);
    MulNonNegative(a, y - x);
  }

  /** A quotient is halfway exactly when the rounding bound is tight. */
  lemma HalfwayIffTight(num: int, den: int)
    requires den > 0
    ensures IsHalfway(num, den) <==> 2 * num + den == 2 * den * RoundHalfUp(num, den)
  {
    var k := RoundHalfUp(num, den);
    var r := 2 * num + den - 2 * den * k;
    assert 0 <= r < 2 * den;
    if r < den {
      DivUnique(2 * num, 2 * den, k - 1, r + den);
    } else {
      DivUnique(2 * num, 2 * den, k, r - den);
    }
  }

  /** Negating the quotient negates its rounding, except at a tie, where the
      negative side rounds toward zero (`Math.round(-2.5) == -2`). */
  lemma RoundHalfUpNegated(num: int, den: int)
    requires den > 0
    ensures RoundHalfUp(-num, den) ==
              if IsHalfway(num, den) then 1 - RoundHalfUp(num, den) else -RoundHalfUp(num, den)
  {
    var k := RoundHalfUp(num, den);
    HalfwayIffTight(num, den);
    if IsHalfway(num, den) {
      RoundHalfUpUnique(-num, den, 1 - k);
    } else {
      RoundHalfUpUnique(-num, den, -k);
    }
  }

  /** `round` fails exactly on the values outside its tier, and then with the
      out-of-range error. */
  lemma RoundFailsOutsideRange(t: Tier, n: int)
    ensures Round(t, n).Failure? <==> !IsInRange(t, n)
    ensures Round(t, n).Failure? ==> Round(t, n).error == OutOfRange
  {
  }

  /** What `toFixed(1)` followed by dropping ".0" writes for tenths `k`. */
  lemma StrippedToFixed1(k: int)
    ensures StripPointZero(ToFixed1(k)) ==
              Numeral(k < 0, NatToString(Abs(k) / 10),
                      if Abs(k) % 10 == 0 then None else Some([DigitChar(Abs(k) % 10)]))
  {
    var w := NatToString(Abs(k) / 10);
    var c := DigitChar(Abs(k) % 10);
    var s := ToFixed1(k);
    var sign := if k < 0 then "-" else "";
    assert s == sign + w + ['.', c];
    assert s[|s| - 2..] == ['.', c];
    if c == '0' {
      assert s[..|s| - 2] == sign + w;
      assert Numeral(k < 0, w, None) == sign + w;
    }
  }

  /** In its tier, the rounded tenths lie between 10 and 10000 (so the shown
      number is between 1 and 1000) and carry the sign of the value. */
  lemma RoundedTenthsBounds(t: Tier, n: int)
    requires IsInRange(t, n)
    ensures t.magnitude > 0
    ensures 10 <= Abs(RoundHalfUp(10 * n, t.magnitude)) <= 10000
    ensures RoundHalfUp(10 * n, t.magnitude) < 0 <==> n < 0
  {
    var m := t.magnitude;
    var k := RoundHalfUp(10 * n, m);
    TenthsBounds(m, n, k);
  }

  /** The arithmetic of RoundedTenthsBounds, over plain integers. */
  lemma TenthsBounds(m: int, n: int, k: int)
    requires m > 0
    requires m <= n <= m * 1000 - 1 || -(m * 1000 - 1) <= n <= -m
    requires 2 * m * k <= 2 * (10 * n) + m < 2 * m * (k + 1)
    ensures 10 <= k <= 10000 || -10000 <= k <= -10
    ensures k < 0 <==> n < 0
  {
    if n >= 0 {
      assert m * 21 < m * (2 * k + 2) by { assert 2 * m * (k + 1) == m * (2 * k + 2); }
      MulLessCancel(m, 21, 2 * k + 2);
      assert m * (2 * k) < m * 20001 by { assert 2 * m * k == m * (2 * k); }
      MulLessCancel(m, 2 * k, 20001);
    } else {
      assert m * (2 * k) < m * -18 by { assert 2 * m * k == m * (2 * k); }
      MulLessCancel(m, 2 * k, -18);
      assert m * -19999 < m * (2 * k + 2) by { assert 2 * m * (k + 1) == m * (2 * k + 2); }
      MulLessCancel(m, -19999, 2 * k + 2);
    }
  }

  /** The text `round` produces in its tier: the sign of `n`, the whole tenths
      of `Math.round(10 n / magnitude)`, their last digit unless it is zero,
      and the upper-cased abbreviation. */
  lemma RoundText(t: Tier, n: int)
    requires IsInRange(t, n)
    ensures t.magnitude > 0
    ensures
      var k := RoundHalfUp(10 * n, t.magnitude);
      Round(t, n) == Success(Numeral(n < 0, NatToString(Abs(k) / 10),
                                     if Abs(k) % 10 == 0 then None else Some([DigitChar(Abs(k) % 10)]))
                             + [Upper(t.abbreviation)])
  {
    RoundedTenthsBounds(t, n);
    StrippedToFixed1(RoundHalfUp(10 * n, t.magnitude));
  }

  /** What `round` writes before the abbreviation for tenths `k`: a numeral
      the pattern accepts, with the sign of `k`, at most one digit after the
      point, never ending in ".0", and denoting exactly `k / 10`. */
  lemma ShownDigits(k: int)
    ensures
      var d := StripPointZero(ToFixed1(k));
      && Matches(d)
      && !EndsWithPointZero(d)
      && FractionLength(d) <= 1
      && (IsNegative(d) <==> k < 0)
      && ScaledValue(d) * 10 == k * Pow10(FractionLength(d))
  {
    StrippedToFixed1(k);
    var q := Abs(k) / 10;
    var r := Abs(k) % 10;
    var d := StripPointZero(ToFixed1(k));
    assert k == (if k < 0 then -(10 * q + r) else 10 * q + r);
    if r == 0 {
      ShownWhole(k < 0, q);
      assert d == Numeral(k < 0, NatToString(q), None);
      assert Pow10(0) == 1;
    } else {
      ShownWithFraction(k < 0, q, r);
      assert d == Numeral(k < 0, NatToString(q), Some([DigitChar(r)]));
      assert Pow10(1) == 10;
    }
  }

  /** ShownDigits when the tenths digit is zero and nothing follows the
      integer digits. */
  lemma ShownWhole(negative: bool, q: nat)
    ensures
      var d := Numeral(negative, NatToString(q), None);
      && Matches(d)
      && !EndsWithPointZero(d)
      && FractionLength(d) == 0
      && (IsNegative(d) <==> negative)
      && ScaledValue(d) == (if negative then -(q as int) else q as int)
  {
    ScaledWhole(negative, NatToString(q));
    ValueOfNatToString(q);
    WholeNotPointZero(negative, NatToString(q));
  }

  /** A numeral without a fraction does not end in ".0". */
  lemma WholeNotPointZero(negative: bool, whole: string)
    requires AllDigits(whole)
    ensures !EndsWithPointZero(Numeral(negative, whole, None))
  {
    if |whole| >= 2 {
      assert Numeral(negative, whole, None)[|Numeral(negative, whole, None)| - 2] == whole[|whole| - 2];
    } else if |whole| == 1 && negative {
      assert Numeral(negative, whole, None) == ['-', whole[0]];
    }
  }

  /** ShownDigits when a nonzero tenths digit follows the point. */
  lemma ShownWithFraction(negative: bool, q: nat, r: nat)
    requires 0 < r < 10
    ensures
      var d := Numeral(negative, NatToString(q), Some([DigitChar(r)]));
      && Matches(d)
      && !EndsWithPointZero(d)
      && FractionLength(d) == 1
      && (IsNegative(d) <==> negative)
      && ScaledValue(d) == (if negative then -(10 * q + r) as int else (10 * q + r) as int)
  {
    ScaledTenths(negative, NatToString(q), DigitChar(r));
    ValueOfNatToString(q);
    FractionNotPointZero(negative, NatToString(q), r);
  }

  /** A numeral whose one fractional digit is not zero does not end in ".0". */
  lemma FractionNotPointZero(negative: bool, whole: string, r: nat)
    requires 0 < r < 10
    ensures !EndsWithPointZero(Numeral(negative, whole, Some([DigitChar(r)])))
  {
    var d := Numeral(negative, whole, Some([DigitChar(r)]));
    assert d[|d| - 1] == DigitChar(r);
  }

  /** What a tiered result says: its last character is the upper-cased
      abbreviation, and the rest is a numeral the pattern accepts, with at
      most one digit after the point, never ending in ".0", with the sign of
      `n`, denoting exactly `Math.round(10 n / magnitude) / 10`, and lying
      between 1 and 1000 in absolute value. */
  lemma RoundedDigits(t: Tier, n: int)
    requires IsInRange(t, n)
    ensures Round(t, n).Success?
    ensures |Round(t, n).value| >= 2
    ensures
      var s := Round(t, n).value;
      var d := s[..|s| - 1];
      && s[|s| - 1] == Upper(t.abbreviation)
      && Matches(d)
      && !EndsWithPointZero(d)
      && FractionLength(d) <= 1
      && (IsNegative(d) <==> n < 0)
      && ScaledValue(d) * 10 == RoundHalfUp(10 * n, t.magnitude) * Pow10(FractionLength(d))
      && Pow10(FractionLength(d)) <= Abs(ScaledValue(d)) <= 1000 * Pow10(FractionLength(d))
  {
    RoundedTenthsBounds(t, n);
    var k := RoundHalfUp(10 * n, t.magnitude);
    var d := StripPointZero(ToFixed1(k));
    ShownDigits(k);
    var s := Round(t, n).value;
    assert s == d + [Upper(t.abbreviation)];
    assert s[..|s| - 1] == d;
    var v := ScaledValue(d);
    if FractionLength(d) == 0 {
      assert Pow10(0) == 1;
      assert v * 10 == k;
    } else {
      assert Pow10(1) == 10;
      assert v * 10 == k * 10;
      assert v == k;
    }
  }

  /** `toFixed(1)` and the pattern agree: its output is a numeral with one
      fractional digit whose value is `k / 10`. */
  lemma ToFixed1ReadsBack(k: int)
    ensures Matches(ToFixed1(k))
    ensures FractionLength(ToFixed1(k)) == 1
    ensures ScaledValue(ToFixed1(k)) == k
  {
    var q := Abs(k) / 10;
    var f := [DigitChar(Abs(k) % 10)];
    var d := ToFixed1(k);
    assert d == Numeral(k < 0, NatToString(q), Some(f));
    MatchesComplete(k < 0, NatToString(q), Some(f));
    ValueOfNatToString(q);
    assert f[..0] == [];
    assert Value(f) == Abs(k) % 10;
    assert Pow10(1) == 10;
    assert FractionLength(d) == 1;
    assert Abs(k) == q * 10 + Abs(k) % 10;
  }

  /** Negative tenths are written as a minus sign and the positive tenths. */
  lemma ShownNegated(k: int)
    requires k > 0
    ensures StripPointZero(ToFixed1(-k)) == "-" + StripPointZero(ToFixed1(k))
  {
    StrippedToFixed1(k);
    StrippedToFixed1(-k);
  }

  /** For a positive in-range value whose scaled quotient is not a tie, `round`
      of its negation is a minus sign followed by `round` of the value. */
  lemma RoundNegated(t: Tier, n: int)
    requires n > 0 && IsInRange(t, n)
    requires !IsHalfway(10 * n, t.magnitude)
    ensures Round(t, n).Success? && Round(t, -n).Success?
    ensures Round(t, -n).value == "-" + Round(t, n).value
  {
    IsInRangeIgnoresSign(t, n);
    RoundedTenthsBounds(t, n);
    var k := RoundHalfUp(10 * n, t.magnitude);
    assert 10 * -n == -(10 * n);
    RoundHalfUpNegated(10 * n, t.magnitude);
    assert RoundHalfUp(10 * -n, t.magnitude) == -k;
    ShownNegated(k);
    RoundSignedText(t, -n, n);
  }

  /** At a tie, `round` of the negated value shows what `round` shows for the
      next smaller positive value: the negative side rounds toward zero. */
  lemma RoundNegatedHalfway(t: Tier, n: int)
    requires n > 0 && IsInRange(t, n) && t.magnitude >= 10
    requires IsHalfway(10 * n, t.magnitude)
    ensures IsInRange(t, n - 1)
    ensures Round(t, n - 1).Success? && Round(t, -n).Success?
    ensures Round(t, -n).value == "-" + Round(t, n - 1).value
  {
    var m := t.magnitude;
    TieRounding(m, n);
    assert IsInRange(t, n - 1);
    IsInRangeIgnoresSign(t, n);
    RoundedTenthsBounds(t, n - 1);
    var k := RoundHalfUp(10 * (n - 1), m);
    assert RoundHalfUp(10 * -n, m) == -k;
    ShownNegated(k);
    RoundSignedText(t, -n, n - 1);
  }

  /** Different tenths are written differently. */
  lemma ShownInjective(j: int, k: int)
    requires j != k
    ensures StripPointZero(ToFixed1(j)) != StripPointZero(ToFixed1(k))
  {
    ShownDigits(j);
    ShownDigits(k);
    var d := StripPointZero(ToFixed1(j));
    if d == StripPointZero(ToFixed1(k)) {
      MulCancel(Pow10(FractionLength(d)), j, k);
    }
  }

  lemma MulCancel(a: int, x: int, y: int)
    requires a > 0 && x * a == y * a
    ensures x == y
  {
    if x < y {
      MulMonotone(a, x + 1, y);
    } else if y < x {
      MulMonotone(a, y + 1, x);
    }
  }

  /** At a tie, `round` shows the value one less differently from the tie
      itself: the tie's tenths are one higher. */
  lemma RoundTieDiffers(t: Tier, n: int)
    requires n > 0 && IsInRange(t, n) && t.magnitude >= 10
    requires IsHalfway(10 * n, t.magnitude)
    ensures IsInRange(t, n - 1)
    ensures Round(t, n).Success? && Round(t, n - 1).Success?
    ensures Round(t, n - 1).value != Round(t, n).value
  {
    var k := RoundHalfUp(10 * n, t.magnitude);
    TieRounding(t.magnitude, n);
    ShownInjective(k - 1, k);
    var a := StripPointZero(ToFixed1(k - 1));
    var b := StripPointZero(ToFixed1(k));
    var c := [Upper(t.abbreviation)];
    assert Round(t, n - 1).value == a + c;
    assert Round(t, n).value == b + c;
    assert (a + c)[..|a|] == a;
    assert (b + c)[..|b|] == b;
  }

  /** When the digits `round` writes for `a` are a minus sign followed by
      those it writes for `b`, so is its whole result. */
  lemma RoundSignedText(t: Tier, a: int, b: int)
    requires IsInRange(t, a) && IsInRange(t, b)
    requires StripPointZero(ToFixed1(RoundHalfUp(10 * a, t.magnitude)))
             == "-" + StripPointZero(ToFixed1(RoundHalfUp(10 * b, t.magnitude)))
    ensures Round(t, a).Success? && Round(t, b).Success?
    ensures Round(t, a).value == "-" + Round(t, b).value
  {
    var da := StripPointZero(ToFixed1(RoundHalfUp(10 * a, t.magnitude)));
    var db := StripPointZero(ToFixed1(RoundHalfUp(10 * b, t.magnitude)));
    var c := [Upper(t.abbreviation)];
    assert Round(t, a).value == da + c;
    assert Round(t, b).value == db + c;
    assert da + c == "-" + (db + c);
  }

  /** The arithmetic of RoundNegatedHalfway: a tie lies above the magnitude,
      the value one less rounds one tenth lower, and the negated tie rounds
      to the negation of that. */
  lemma TieRounding(m: int, n: int)
    requires m >= 10 && m <= n
    requires IsHalfway(10 * n, m)
    ensures n > m
    ensures RoundHalfUp(10 * (n - 1), m) == RoundHalfUp(10 * n, m) - 1
    ensures RoundHalfUp(10 * -n, m) == -RoundHalfUp(10 * (n - 1), m)
  {
    var k := RoundHalfUp(10 * n, m);
    HalfwayIffTight(10 * n, m);
    // 10 m / m is a whole number, so a tie needs n > m
    DivUnique(2 * (10 * m), 2 * m, 10, 0);
    TieStepsDown(m, n, k);
    RoundHalfUpUnique(10 * (n - 1), m, k - 1);
    assert 10 * -n == -(10 * n);
    RoundHalfUpNegated(10 * n, m);
  }

  /** One less than a tie rounds one tenth lower when the magnitude is at
      least ten. */
  lemma TieStepsDown(m: int, n: int, k: int)
    requires m >= 10
    requires 2 * (10 * n) + m == 2 * m * k
    ensures 2 * m * (k - 1) <= 2 * (10 * (n - 1)) + m < 2 * m * k
  {
  }
}
