/** Concrete inputs and the results the model gives for them: the pairs of
    pretty-numbers.test.js, and the behaviour at ties, at the top of a tier
    and for malformed strings. */
module Scenarios {
  import opened Results
  import opened Numerals
  import opened OrderOfMagnitude
  import opened PrettyNumbers

  /** `pretty(n)` is `s` when `n` is abbreviated, `Math.round` gives the
      tenths `k` in its tier, and `s` is what `round` writes for them. */
  lemma ShownInTier(n: int, k: int, s: string)
    requires Abbreviated(n)
    requires 2 * TierFor(n).magnitude * k <= 2 * (10 * n) + TierFor(n).magnitude < 2 * TierFor(n).magnitude * (k + 1)
    requires StripPointZero(ToFixed1(k)) + [TierFor(n).abbreviation] == s
    ensures Pretty(Num(n)) == Success(s)
  {
    RoundHalfUpUnique(10 * n, TierFor(n).magnitude, k);
    PrettyNumberNeverFails(n);
    FindBreakpoint(n);
    BreakpointsCover(n);
  }

  /** `pretty(n)` is `s` when no tier holds `n` and `s` is `String(n)`. */
  lemma ShownInFull(n: int, s: string)
    requires !Abbreviated(n) && IntToString(n) == s
    ensures Pretty(Num(n)) == Success(s)
  {
    PrettyNumberNeverFails(n);
    FindBreakpoint(n);
  }

  /** A string that spells `n` is formatted as `n` is. */
  lemma ShownAsString(s: string, n: int, r: string)
    requires IntToString(n) == s && Pretty(Num(n)) == Success(r)
    ensures Pretty(Str(s)) == Success(r)
  {
    PrettyStringOfNumber(n);
  }

  // Values below a million come back unaltered.

  lemma Shows2()
    ensures Pretty(Num(2)) == Success("2")
  {
    assert IntToString(2) == "2";
    ShownInFull(2, "2");
  }

  lemma Shows25()
    ensures Pretty(Num(25)) == Success("25")
  {
    assert IntToString(25) == "25";
    ShownInFull(25, "25");
  }

  lemma Shows253()
    ensures Pretty(Num(253)) == Success("253")
  {
    assert IntToString(253) == "253";
    ShownInFull(253, "253");
  }

  lemma Shows2534()
    ensures Pretty(Num(2534)) == Success("2534")
  {
    assert IntToString(2534) == "2534";
    ShownInFull(2534, "2534");
  }

  lemma Shows25345()
    ensures Pretty(Num(25345)) == Success("25345")
  {
    assert IntToString(25345) == "25345";
    ShownInFull(25345, "25345");
  }

  lemma Shows253450()
    ensures Pretty(Num(253450)) == Success("253450")
  {
    assert IntToString(253450) == "253450";
    ShownInFull(253450, "253450");
  }

  lemma Shows999999()
    ensures Pretty(Num(999999)) == Success("999999")
  {
    assert IntToString(999999) == "999999";
    ShownInFull(999999, "999999");
  }

  lemma ShowsMinus999999()
    ensures Pretty(Num(-999999)) == Success("-999999")
  {
    assert IntToString(-999999) == "-999999";
    ShownInFull(-999999, "-999999");
  }

  lemma Shows0()
    ensures Pretty(Num(0)) == Success("0")
  {
    assert IntToString(0) == "0";
    ShownInFull(0, "0");
  }

  // Whole millions, billions and trillions show no decimal.

  lemma Shows1000000()
    ensures Pretty(Num(1000000)) == Success("1M")
  {
    StrippedToFixed1(10);
    ShownInTier(1000000, 10, "1M");
  }

  lemma Shows1000000000()
    ensures Pretty(Num(1000000000)) == Success("1B")
  {
    StrippedToFixed1(10);
    ShownInTier(1000000000, 10, "1B");
  }

  lemma Shows1000000000000()
    ensures Pretty(Num(1000000000000)) == Success("1T")
  {
    StrippedToFixed1(10);
    ShownInTier(1000000000000, 10, "1T");
  }

  lemma Shows99000000()
    ensures Pretty(Num(99000000)) == Success("99M")
  {
    StrippedToFixed1(990);
    ShownInTier(99000000, 990, "99M");
  }

  lemma Shows99000000000()
    ensures Pretty(Num(99000000000)) == Success("99B")
  {
    StrippedToFixed1(990);
    ShownInTier(99000000000, 990, "99B");
  }

  lemma Shows99000000000000()
    ensures Pretty(Num(99000000000000)) == Success("99T")
  {
    StrippedToFixed1(990);
    ShownInTier(99000000000000, 990, "99T");
  }

  // Negative values keep their minus sign.

  lemma ShowsMinus1000000()
    ensures Pretty(Num(-1000000)) == Success("-1M")
  {
    StrippedToFixed1(-10);
    ShownInTier(-1000000, -10, "-1M");
  }

  lemma ShowsMinus1000000000()
    ensures Pretty(Num(-1000000000)) == Success("-1B")
  {
    StrippedToFixed1(-10);
    ShownInTier(-1000000000, -10, "-1B");
  }

  lemma ShowsMinus1000000000000()
    ensures Pretty(Num(-1000000000000)) == Success("-1T")
  {
    StrippedToFixed1(-10);
    ShownInTier(-1000000000000, -10, "-1T");
  }

  lemma ShowsMinus99000000()
    ensures Pretty(Num(-99000000)) == Success("-99M")
  {
    StrippedToFixed1(-990);
    ShownInTier(-99000000, -990, "-99M");
  }

  lemma ShowsMinus99000000000()
    ensures Pretty(Num(-99000000000)) == Success("-99B")
  {
    StrippedToFixed1(-990);
    ShownInTier(-99000000000, -990, "-99B");
  }

  lemma ShowsMinus99000000000000()
    ensures Pretty(Num(-99000000000000)) == Success("-99T")
  {
    StrippedToFixed1(-990);
    ShownInTier(-99000000000000, -990, "-99T");
  }

  // A second decimal below five is dropped, and the ".0" left behind with it.

  lemma Shows1020000()
    ensures Pretty(Num(1020000)) == Success("1M")
  {
    StrippedToFixed1(10);
    ShownInTier(1020000, 10, "1M");
  }

  lemma Shows1020000000()
    ensures Pretty(Num(1020000000)) == Success("1B")
  {
    StrippedToFixed1(10);
    ShownInTier(1020000000, 10, "1B");
  }

  lemma Shows1020000000000()
    ensures Pretty(Num(1020000000000)) == Success("1T")
  {
    StrippedToFixed1(10);
    ShownInTier(1020000000000, 10, "1T");
  }

  lemma Shows75020000()
    ensures Pretty(Num(75020000)) == Success("75M")
  {
    StrippedToFixed1(750);
    ShownInTier(75020000, 750, "75M");
  }

  lemma Shows203020000000()
    ensures Pretty(Num(203020000000)) == Success("203B")
  {
    StrippedToFixed1(2030);
    ShownInTier(203020000000, 2030, "203B");
  }

  lemma Shows64020000000000()
    ensures Pretty(Num(64020000000000)) == Success("64T")
  {
    StrippedToFixed1(640);
    ShownInTier(64020000000000, 640, "64T");
  }

  // A second decimal below five leaves the first decimal as it is.

  lemma Shows1320000()
    ensures Pretty(Num(1320000)) == Success("1.3M")
  {
    StrippedToFixed1(13);
    ShownInTier(1320000, 13, "1.3M");
  }

  lemma Shows1320000000()
    ensures Pretty(Num(1320000000)) == Success("1.3B")
  {
    StrippedToFixed1(13);
    ShownInTier(1320000000, 13, "1.3B");
  }

  lemma Shows1320000000000()
    ensures Pretty(Num(1320000000000)) == Success("1.3T")
  {
    StrippedToFixed1(13);
    ShownInTier(1320000000000, 13, "1.3T");
  }

  lemma Shows75820000()
    ensures Pretty(Num(75820000)) == Success("75.8M")
  {
    StrippedToFixed1(758);
    ShownInTier(75820000, 758, "75.8M");
  }

  lemma Shows203820000000()
    ensures Pretty(Num(203820000000)) == Success("203.8B")
  {
    StrippedToFixed1(2038);
    ShownInTier(203820000000, 2038, "203.8B");
  }

  lemma Shows64820000000000()
    ensures Pretty(Num(64820000000000)) == Success("64.8T")
  {
    StrippedToFixed1(648);
    ShownInTier(64820000000000, 648, "64.8T");
  }

  // A second decimal of five or more rounds the first decimal up.

  lemma Shows1350000()
    ensures Pretty(Num(1350000)) == Success("1.4M")
  {
    StrippedToFixed1(14);
    ShownInTier(1350000, 14, "1.4M");
  }

  lemma Shows1360000000()
    ensures Pretty(Num(1360000000)) == Success("1.4B")
  {
    StrippedToFixed1(14);
    ShownInTier(1360000000, 14, "1.4B");
  }

  lemma Shows1370000000000()
    ensures Pretty(Num(1370000000000)) == Success("1.4T")
  {
    StrippedToFixed1(14);
    ShownInTier(1370000000000, 14, "1.4T");
  }

  lemma Shows75880000()
    ensures Pretty(Num(75880000)) == Success("75.9M")
  {
    StrippedToFixed1(759);
    ShownInTier(75880000, 759, "75.9M");
  }

  lemma Shows203870000000()
    ensures Pretty(Num(203870000000)) == Success("203.9B")
  {
    StrippedToFixed1(2039);
    ShownInTier(203870000000, 2039, "203.9B");
  }

  lemma Shows64850000000000()
    ensures Pretty(Num(64850000000000)) == Success("64.9T")
  {
    StrippedToFixed1(649);
    ShownInTier(64850000000000, 649, "64.9T");
  }

  // Ties go toward positive infinity, so a negative tie rounds toward zero.

  lemma ShowsMinus1350000()
    ensures Pretty(Num(-1350000)) == Success("-1.3M")
  {
    StrippedToFixed1(-13);
    ShownInTier(-1350000, -13, "-1.3M");
  }

  lemma ShowsMinus64850000000000()
    ensures Pretty(Num(-64850000000000)) == Success("-64.8T")
  {
    StrippedToFixed1(-648);
    ShownInTier(-64850000000000, -648, "-64.8T");
  }

  // The top of the millions shows as "1000M": there is no carry into the next
  // tier.

  lemma Shows999950000()
    ensures Pretty(Num(999950000)) == Success("1000M")
  {
    StrippedToFixed1(10000);
    ShownInTier(999950000, 10000, "1000M");
  }

  lemma Shows999999999()
    ensures Pretty(Num(999999999)) == Success("1000M")
  {
    StrippedToFixed1(10000);
    ShownInTier(999999999, 10000, "1000M");
  }

  lemma ShowsMinus999950000()
    ensures Pretty(Num(-999950000)) == Success("-999.9M")
  {
    StrippedToFixed1(-9999);
    ShownInTier(-999950000, -9999, "-999.9M");
  }

  lemma ShowsMinus999950001()
    ensures Pretty(Num(-999950001)) == Success("-1000M")
  {
    StrippedToFixed1(-10000);
    ShownInTier(-999950001, -10000, "-1000M");
  }

  lemma Shows999949999()
    ensures Pretty(Num(999949999)) == Success("999.9M")
  {
    StrippedToFixed1(9999);
    ShownInTier(999949999, 9999, "999.9M");
  }

  // Numeric strings give the same results as the numbers they spell. The
  // Spells lemmas take their number as a parameter: with a literal argument
  // the verifier would unfold `String` of it all at once.

  /** `String(1350000)`, one digit at a time. */
  lemma Spells1350000(n: int)
    requires n == 1350000
    ensures IntToString(n) == "1350000"
  {
    NatToStringAppend(1, 3);
    NatToStringAppend(13, 5);
    NatToStringAppend(135, 0);
    NatToStringAppend(1350, 0);
    NatToStringAppend(13500, 0);
    NatToStringAppend(135000, 0);
  }

  lemma ShowsString1350000()
    ensures Pretty(Str("1350000")) == Success("1.4M")
  {
    Spells1350000(1350000);
    Shows1350000();
    ShownAsString("1350000", 1350000, "1.4M");
  }

  /** `String(1360000000)`, one digit at a time. */
  lemma Spells1360000000(n: int)
    requires n == 1360000000
    ensures IntToString(n) == "1360000000"
  {
    NatToStringAppend(1, 3);
    NatToStringAppend(13, 6);
    NatToStringAppend(136, 0);
    NatToStringAppend(1360, 0);
    NatToStringAppend(13600, 0);
    NatToStringAppend(136000, 0);
    NatToStringAppend(1360000, 0);
    NatToStringAppend(13600000, 0);
    NatToStringAppend(136000000, 0);
  }

  lemma ShowsString1360000000()
    ensures Pretty(Str("1360000000")) == Success("1.4B")
  {
    Spells1360000000(1360000000);
    Shows1360000000();
    ShownAsString("1360000000", 1360000000, "1.4B");
  }

  /** `String(1370000000000)`, one digit at a time. */
  lemma Spells1370000000000(n: int)
    requires n == 1370000000000
    ensures IntToString(n) == "1370000000000"
  {
    NatToStringAppend(1, 3);
    NatToStringAppend(13, 7);
    NatToStringAppend(137, 0);
    NatToStringAppend(1370, 0);
    NatToStringAppend(13700, 0);
    NatToStringAppend(137000, 0);
    NatToStringAppend(1370000, 0);
    NatToStringAppend(13700000, 0);
    NatToStringAppend(137000000, 0);
    NatToStringAppend(1370000000, 0);
    NatToStringAppend(13700000000, 0);
    NatToStringAppend(137000000000, 0);
  }

  lemma ShowsString1370000000000()
    ensures Pretty(Str("1370000000000")) == Success("1.4T")
  {
    Spells1370000000000(1370000000000);
    Shows1370000000000();
    ShownAsString("1370000000000", 1370000000000, "1.4T");
  }

  /** `String(75880000)`, one digit at a time. */
  lemma Spells75880000(n: int)
    requires n == 75880000
    ensures IntToString(n) == "75880000"
  {
    NatToStringAppend(7, 5);
    NatToStringAppend(75, 8);
    NatToStringAppend(758, 8);
    NatToStringAppend(7588, 0);
    NatToStringAppend(75880, 0);
    NatToStringAppend(758800, 0);
    NatToStringAppend(7588000, 0);
  }

  lemma ShowsString75880000()
    ensures Pretty(Str("75880000")) == Success("75.9M")
  {
    Spells75880000(75880000);
    Shows75880000();
    ShownAsString("75880000", 75880000, "75.9M");
  }

  /** `String(203870000000)`, one digit at a time. */
  lemma Spells203870000000(n: int)
    requires n == 203870000000
    ensures IntToString(n) == "203870000000"
  {
    NatToStringAppend(2, 0);
    NatToStringAppend(20, 3);
    NatToStringAppend(203, 8);
    NatToStringAppend(2038, 7);
    NatToStringAppend(20387, 0);
    NatToStringAppend(203870, 0);
    NatToStringAppend(2038700, 0);
    NatToStringAppend(20387000, 0);
    NatToStringAppend(203870000, 0);
    NatToStringAppend(2038700000, 0);
    NatToStringAppend(20387000000, 0);
  }

  lemma ShowsString203870000000()
    ensures Pretty(Str("203870000000")) == Success("203.9B")
  {
    Spells203870000000(203870000000);
    Shows203870000000();
    ShownAsString("203870000000", 203870000000, "203.9B");
  }

  /** `String(64850000000000)`, one digit at a time. */
  lemma Spells64850000000000(n: int)
    requires n == 64850000000000
    ensures IntToString(n) == "64850000000000"
  {
    NatToStringAppend(6, 4);
    NatToStringAppend(64, 8);
    NatToStringAppend(648, 5);
    NatToStringAppend(6485, 0);
    NatToStringAppend(64850, 0);
    NatToStringAppend(648500, 0);
    NatToStringAppend(6485000, 0);
    NatToStringAppend(64850000, 0);
    NatToStringAppend(648500000, 0);
    NatToStringAppend(6485000000, 0);
    NatToStringAppend(64850000000, 0);
    NatToStringAppend(648500000000, 0);
    NatToStringAppend(6485000000000, 0);
  }

  lemma ShowsString64850000000000()
    ensures Pretty(Str("64850000000000")) == Success("64.9T")
  {
    Spells64850000000000(64850000000000);
    Shows64850000000000();
    ShownAsString("64850000000000", 64850000000000, "64.9T");
  }

  // A decimal string is formatted as its integer part.

  lemma ShowsStringWithFraction()
    ensures Pretty(Str("1350000.99")) == Success("1.4M")
  {
    Spells1350000(1350000);
    assert "1350000.99" == Numeral(false, NatToString(1350000), Some("99"));
    PrettyStringNumeral(false, 1350000, "99");
    Shows1350000();
  }

  lemma ShowsStringNegativeWithFraction()
    ensures Pretty(Str("-2.5")) == Success("-2")
  {
    assert "-2.5" == Numeral(true, NatToString(2), Some("5"));
    PrettyStringNumeral(true, 2, "5");
    assert IntToString(-2) == "-2";
    ShownInFull(-2, "-2");
  }

  // Strings that are not whole numerals are refused, even where `parseInt`
  // alone would read a number from their start.

  lemma RefusesLetters()
    ensures Pretty(Str("ABCD")) == Failure(NotANumber)
  {
    PrettyStringRejected("ABCD");
  }

  lemma RefusesExpression()
    ensures ParseInt("1 * 6") == Some(1)
    ensures Pretty(Str("1 * 6")) == Failure(NotANumber)
  {
    assert "1 * 6" == "1" + " * 6";
    LeadingDigitsOfNumber("1", " * 6");
    SingleDigitValue('1');
    PrettyStringRejected("1 * 6");
  }

  lemma RefusesThousandsSeparator()
    ensures ParseInt("25,000") == Some(25)
    ensures Pretty(Str("25,000")) == Failure(NotANumber)
  {
    assert "25,000" == "25" + ",000";
    LeadingDigitsOfNumber("25", ",000");
    assert "25"[..1] == "2";
    SingleDigitValue('2');
    assert "25,000"[1..][1..] == "25,000"[2..] && "25,000"[2..][0] == ',';
    assert !MatchesAfterWholeDigit("25,000"[1..]);
    PrettyStringRejected("25,000");
  }

  lemma RefusesEmpty()
    ensures Pretty(Str("")) == Failure(NotANumber)
  {
    PrettyStringRejected("");
  }

  lemma RefusesTrailingPoint()
    ensures Pretty(Str("1.")) == Failure(NotANumber)
  {
    PrettyStringRejected("1.");
  }

  lemma RefusesLeadingPoint()
    ensures Pretty(Str(".5")) == Failure(NotANumber)
  {
    PrettyStringRejected(".5");
  }

  lemma RefusesPlusSign()
    ensures Pretty(Str("+5")) == Failure(NotANumber)
  {
    PrettyStringRejected("+5");
  }

  lemma RefusesLeadingSpace()
    ensures Pretty(Str(" 12")) == Failure(NotANumber)
  {
    PrettyStringRejected(" 12");
  }
}
