/** The formatter (`PrettyNumbers` in pretty-numbers.js): validates its
    argument, picks the first breakpoint whose range holds the value, and
    either rounds the value in that tier or writes it out in full. */
module PrettyNumbers {
  import opened Results
  import opened Numerals
  import opened OrderOfMagnitude

  /** `pretty` accepts a number or a string; numbers here are integers. */
  datatype Input = Num(n: int) | Str(s: string)

  const Millions: Tier := Tier('M', 1000000)
  const Billions: Tier := Tier('B', 1000000000)
  const Trillions: Tier := Tier('T', 1000000000000)

  /** The frozen breakpoints set by the constructor, smallest first. */
  const Breakpoints: seq<Tier> := [Millions, Billions, Trillions]

  /** `Array.prototype.find` with `isInRange`: the first tier whose range
      holds `n`, if any. */
  function Find(ts: seq<Tier>, n: int): (r: Option<Tier>)
    ensures r.Some? ==>
              exists i :: 0 <= i < |ts| && ts[i] == r.value && IsInRange(ts[i], n)
                          && forall j :: 0 <= j < i ==> !IsInRange(ts[j], n)
    ensures r.None? ==> forall i :: 0 <= i < |ts| ==> !IsInRange(ts[i], n)
  {
    if ts == [] then None
    else if IsInRange(ts[0], n) then Some(ts[0])
    else
      var r := Find(ts[1..], n);
      assert r.Some? ==> exists i :: 0 <= i < |ts[1..]| && ts[1..][i] == r.value && IsInRange(ts[1..][i], n)
                                     && forall j :: 0 <= j < i ==> !IsInRange(ts[1..][j], n);
      assert r.Some? ==> exists i :: 1 <= i < |ts| && ts[i] == r.value && IsInRange(ts[i], n)
                                     && forall j :: 1 <= j < i ==> !IsInRange(ts[j], n);
      r
  }

  /** What `pretty` does once its argument is validated: the tier's rounding
      when a breakpoint holds `n`, `${n}` otherwise. The tier's own range
      check can never fail here. */
  function Format(n: int): (r: Result<string, Error>)
    ensures r.Success?
  {
    match Find(Breakpoints, n)
    case Some(t) => Round(t, n)
    case None => Success(IntToString(n))
  }

  /** `pretty`: a string is read with `parseInt`; the argument (a number as
      `String(n)`) must match `^-?\d+(\.\d+)?$` and give a number, or the
      call fails. */
  function Pretty(input: Input): Result<string, Error> {
    match input
    case Num(i) =>
      if !Matches(IntToString(i)) then Failure(NotANumber) else Format(i)
    case Str(s) =>
      var n := ParseInt(s);
      if n.None? || !Matches(s) then Failure(NotANumber) else Format(n.value)
  }

  /** Values that some tier abbreviates: at least a million and below a
      thousand trillion, in absolute value. */
  predicate Abbreviated(n: int) {
    1000000 <= Abs(n) < 1000000000000000
  }

  /** The tier an abbreviated value belongs to, by its number of digits. */
  function TierFor(n: int): (t: Tier)
    requires Abbreviated(n)
    ensures t.magnitude <= Abs(n) < 1000 * t.magnitude
  {
    if Abs(n) < 1000000000 then Millions
    else if Abs(n) < 1000000000000 then Billions
    else Trillions
  }

  /** The scaled quotient `10 n / magnitude` of an abbreviated value is an
      exact half. */
  predicate IsTie(n: int) {
    Abbreviated(n) && IsHalfway(10 * n, TierFor(n).magnitude)
  }

  // ---------------------------------------------------------------- lemmas

  /** Each breakpoint begins where the previous one ends, with upper-case
      abbreviations. */
  lemma BreakpointsContiguous()
    ensures forall i :: 0 <= i < |Breakpoints| - 1 ==>
              Breakpoints[i].magnitude * 1000 == Breakpoints[i + 1].magnitude
    ensures forall i :: 0 <= i < |Breakpoints| ==>
              Upper(Breakpoints[i].abbreviation) == Breakpoints[i].abbreviation
  {
  }

  /** No value lies in two breakpoints. */
  lemma BreakpointsDisjoint(n: int, i: int, j: int)
    requires 0 <= i < |Breakpoints| && 0 <= j < |Breakpoints|
    requires IsInRange(Breakpoints[i], n) && IsInRange(Breakpoints[j], n)
    ensures i == j
  {
  }

  /** A value lies in some breakpoint exactly when it is abbreviated, and
      then in the one `TierFor` names. */
  lemma BreakpointsCover(n: int)
    ensures (exists i :: 0 <= i < |Breakpoints| && IsInRange(Breakpoints[i], n)) <==> Abbreviated(n)
    ensures Abbreviated(n) ==> IsInRange(TierFor(n), n)
  {
    if Abbreviated(n) {
      var t := TierFor(n);
      var i := if t == Millions then 0 else if t == Billions then 1 else 2;
      assert Breakpoints[i] == t;
    }
  }

  /** The search finds the tier by digit count, and nothing for a value that
      no tier abbreviates. */
  lemma FindBreakpoint(n: int)
    ensures Find(Breakpoints, n) == if Abbreviated(n) then Some(TierFor(n)) else None
  {
    BreakpointsCover(n);
    var r := Find(Breakpoints, n);
    if r.Some? {
      var i :| 0 <= i < |Breakpoints| && Breakpoints[i] == r.value && IsInRange(Breakpoints[i], n);
      var j := if TierFor(n) == Millions then 0 else if TierFor(n) == Billions then 1 else 2;
      BreakpointsDisjoint(n, i, j);
    }
  }

  /** An abbreviated value is formatted by its own tier's `round`. */
  lemma PrettyInTier(n: int)
    requires Abbreviated(n)
    ensures IsInRange(TierFor(n), n)
    ensures Pretty(Num(n)) == Round(TierFor(n), n)
  {
    PrettyNumberNeverFails(n);
    FindBreakpoint(n);
    BreakpointsCover(n);
  }

  /** A value no tier abbreviates is written as `String(n)`. */
  lemma PrettyInFull(n: int)
    requires !Abbreviated(n)
    ensures Pretty(Num(n)) == Success(IntToString(n))
  {
    PrettyNumberNeverFails(n);
    FindBreakpoint(n);
  }

  /** Whether a value is abbreviated does not depend on its sign. */
  lemma AbbreviatedNegated(n: int)
    ensures Abbreviated(-n) == Abbreviated(n)
  {
    assert Abs(-n) == Abs(n);
  }

  /** A number is never rejected: `String(n)` of an integer always matches. */
  lemma PrettyNumberNeverFails(n: int)
    ensures Pretty(Num(n)) == Format(n)
    ensures Pretty(Num(n)).Success?
  {
    IntToStringRoundTrip(n);
  }

  /** Below a million or from a thousand trillion on, the value is written in
      full, with its sign and without a suffix. */
  lemma PrettyPlain(n: int)
    requires !Abbreviated(n)
    ensures Pretty(Num(n)) == Success(IntToString(n))
    ensures ParseInt(Pretty(Num(n)).value) == Some(n)
  {
    PrettyInFull(n);
    IntToStringRoundTrip(n);
  }

  /** An abbreviated value is rounded in its own tier: the result ends in that
      tier's letter, and before it stands a numeral with the sign of `n`, at
      most one digit after the point, never ending in ".0", whose value is
      `Math.round(10 n / magnitude) / 10`, between 1 and 1000 in absolute
      value. */
  lemma PrettyTiered(n: int)
    requires Abbreviated(n)
    ensures Pretty(Num(n)) == Round(TierFor(n), n)
    ensures Pretty(Num(n)).Success? && |Pretty(Num(n)).value| >= 2
    ensures
      var s := Pretty(Num(n)).value;
      var d := s[..|s| - 1];
      && s[|s| - 1] == TierFor(n).abbreviation
      && Matches(d)
      && !EndsWithPointZero(d)
      && FractionLength(d) <= 1
      && (IsNegative(d) <==> n < 0)
      && ScaledValue(d) * 10 == RoundHalfUp(10 * n, TierFor(n).magnitude) * Pow10(FractionLength(d))
      && Pow10(FractionLength(d)) <= Abs(ScaledValue(d)) <= 1000 * Pow10(FractionLength(d))
  {
    PrettyInTier(n);
    RoundedDigits(TierFor(n), n);
    TierLetterUpper(n);
  }

  /** The letter of an abbreviated value's tier is already upper case. */
  lemma TierLetterUpper(n: int)
    requires Abbreviated(n)
    ensures Upper(TierFor(n).abbreviation) == TierFor(n).abbreviation
  {
  }

  /** A string is rejected exactly when it is not a whole numeral. */
  lemma PrettyStringRejected(s: string)
    ensures Pretty(Str(s)).Failure? <==> !Matches(s)
    ensures Pretty(Str(s)).Failure? ==> Pretty(Str(s)).error == NotANumber
  {
    if Matches(s) {
      ParseIntTruncates(s);
      var n := ParseInt(s).value;
      assert Pretty(Str(s)) == Format(n);
    }
  }

  /** A numeral string is formatted as the number it denotes truncated toward
      zero. */
  lemma PrettyStringAsNumber(s: string)
    requires Matches(s)
    ensures Pretty(Str(s)) == Pretty(Num(TruncatedDiv(ScaledValue(s), Pow10(FractionLength(s)))))
  {
    ParseIntTruncates(s);
    PrettyNumberNeverFails(TruncatedDiv(ScaledValue(s), Pow10(FractionLength(s))));
  }

  /** A numeral with a fraction is formatted as its integer part: `parseInt`
      drops the point and the digits after it. */
  lemma PrettyStringNumeral(negative: bool, n: nat, f: string)
    requires |f| > 0 && AllDigits(f)
    ensures Pretty(Str(Numeral(negative, NatToString(n), Some(f)))) == Pretty(Num(if negative then -(n as int) else n as int))
  {
    ParseIntOfNumeral(negative, n, Some(f));
    PrettyNumberNeverFails(if negative then -(n as int) else n as int);
  }

  /** A string of digits and the number it denotes give the same result. */
  lemma PrettyStringOfNumber(n: int)
    ensures Pretty(Str(IntToString(n))) == Pretty(Num(n))
  {
    IntToStringRoundTrip(n);
    PrettyNumberNeverFails(n);
  }

  /** Away from ties, negating a positive value only puts a minus sign in
      front of its pretty form. */
  lemma PrettyNegated(n: int)
    requires n > 0 && !IsTie(n)
    ensures Pretty(Num(n)).Success?
    ensures Pretty(Num(-n)) == Success("-" + Pretty(Num(n)).value)
  {
    if Abbreviated(n) {
      PrettyNegatedInTier(n);
    } else {
      PrettyNegatedInFull(n);
    }
  }

  /** PrettyNegated for an abbreviated value. */
  lemma PrettyNegatedInTier(n: int)
    requires n > 0 && !IsTie(n) && Abbreviated(n)
    ensures Pretty(Num(n)).Success?
    ensures Pretty(Num(-n)) == Success("-" + Pretty(Num(n)).value)
  {
    PrettyInTier(n);
    PrettyInSameTier(n, -n);
    RoundNegated(TierFor(n), n);
    MinusSigned(Pretty(Num(-n)), Pretty(Num(n)), Round(TierFor(n), -n), Round(TierFor(n), n));
  }

  /** PrettyNegated for a value written in full. */
  lemma PrettyNegatedInFull(n: int)
    requires n > 0 && !Abbreviated(n)
    ensures Pretty(Num(n)).Success?
    ensures Pretty(Num(-n)) == Success("-" + Pretty(Num(n)).value)
  {
    AbbreviatedNegated(n);
    PrettyInFull(n);
    PrettyInFull(-n);
    IntToStringNegated(n);
    MinusSigned(Pretty(Num(-n)), Pretty(Num(n)), Success(IntToString(-n)), Success(IntToString(n)));
  }

  /** At a tie the negative side rounds toward zero: `pretty(-n)` is a minus
      sign followed by `pretty(n - 1)`, not by `pretty(n)`. */
  lemma PrettyNegatedTie(n: int)
    requires n > 0 && IsTie(n)
    ensures Abbreviated(n - 1) && TierFor(n - 1) == TierFor(n)
    ensures Pretty(Num(n - 1)).Success?
    ensures Pretty(Num(-n)) == Success("-" + Pretty(Num(n - 1)).value)
  {
    TieNeighbour(n);
    RoundNegatedHalfway(TierFor(n), n);
    TieSides(n);
    MinusSigned(Pretty(Num(-n)), Pretty(Num(n - 1)), Round(TierFor(n), -n), Round(TierFor(n), n - 1));
  }

  /** At a tie, `pretty(-n)` is not `"-" + pretty(n)`: the other half of
      PrettyNegated. */
  lemma PrettyNegatedTieDiffers(n: int)
    requires n > 0 && IsTie(n)
    ensures Pretty(Num(n)).Success?
    ensures Pretty(Num(-n)) != Success("-" + Pretty(Num(n)).value)
  {
    PrettyNegatedTie(n);
    TieNeighbour(n);
    RoundTieDiffers(TierFor(n), n);
    TieSides(n);
    PrettyInTierOf(n, TierFor(n));
    var x := Pretty(Num(n - 1)).value;
    var y := Pretty(Num(n)).value;
    assert ("-" + x)[1..] == x;
    assert ("-" + y)[1..] == y;
  }

  /** Both sides of a positive tie's negation are rounded in its tier. */
  lemma TieSides(n: int)
    requires n > 0 && IsTie(n)
    ensures Abbreviated(n - 1) && TierFor(n - 1) == TierFor(n)
    ensures Pretty(Num(-n)) == Round(TierFor(n), -n)
    ensures Pretty(Num(n - 1)) == Round(TierFor(n), n - 1)
  {
    TieNeighbour(n);
    PrettyInTierOf(n - 1, TierFor(n));
    PrettyInSameTier(n, -n);
  }

  /** PrettyInTier, for a tier named by the caller. */
  lemma PrettyInTierOf(n: int, t: Tier)
    requires Abbreviated(n) && TierFor(n) == t
    ensures Pretty(Num(n)) == Round(t, n)
  {
    PrettyInTier(n);
  }

  /** A value of the same size as an abbreviated one (its negation, say) is
      rounded in the same tier. */
  lemma PrettyInSameTier(n: int, m: int)
    requires Abbreviated(n) && Abs(m) == Abs(n)
    ensures Pretty(Num(m)) == Round(TierFor(n), m)
  {
    PrettyInTierOf(m, TierFor(n));
  }

  /** Two results equal to successes whose texts differ by a leading minus
      sign differ by it too. */
  lemma MinusSigned(a: Result<string, Error>, b: Result<string, Error>,
                    x: Result<string, Error>, y: Result<string, Error>)
    requires a == x && b == y && x.Success? && y.Success?
    requires x.value == "-" + y.value
    ensures b.Success? && a == Success("-" + b.value)
  {
  }

  /** The value just below a positive tie lies in the same tier. */
  lemma TieNeighbour(n: int)
    requires n > 0 && IsTie(n)
    ensures IsInRange(TierFor(n), n) && TierFor(n).magnitude >= 10
    ensures Abbreviated(n - 1) && TierFor(n - 1) == TierFor(n)
  {
    BreakpointsCover(n);
    TieRounding(TierFor(n).magnitude, n);
  }
}
