# pretty-numbers in Dafny

A model of the number formatter in `pretty-numbers.js` and the properties it
has.

- **`OrderOfMagnitude`** (order_of_magnitude.dfy) models one tier: an
  abbreviation letter and a magnitude.
  - `IsInRange` is `isInRange`. It drops the sign and accepts exactly
    `magnitude <= |n| <= 1000 * magnitude - 1`.
  - `Round` is `round`:
    - it refuses a value outside the tier (`OutOfRange`);
    - it computes `Math.round(10 n / magnitude)`, which is the tenths the
      `fixedRounding` helper produces;
    - it writes them with `toFixed(1)` and drops a trailing `.0`;
    - it appends the upper-cased abbreviation.
- **`PrettyNumbers`** (pretty_numbers.dfy) models the formatter:
  - the constructor's fixed breakpoints M (10^6), B (10^9) and T (10^12);
  - the `find` over them;
  - `pretty`. A string argument is read with `parseInt`; the argument must
    match `^-?\d+(\.\d+)?$` (a number is matched as `String(n)`). Otherwise
    the call fails with `NotANumber`. A value some tier holds is rounded by
    that tier; any other value is written out as `${n}`.
- **`Numerals`** (numerals.dfy) holds the pieces of JavaScript this needs:
  - `String(n)` for integers;
  - the regular expression, as a small deterministic automaton;
  - `parseInt` on the strings that expression admits.
- **`Scenarios`** (scenarios.dfy) pins down the result for the concrete inputs
  of `pretty-numbers.test.js`, and for inputs at ties, at the top of a tier
  and for malformed strings.

The main results:

- Breakpoint search:
  - the breakpoints are contiguous and disjoint;
  - a value lies in one exactly when `10^6 <= |n| < 10^15`;
  - `find` returns the tier named by the value's digit count.
- Number arguments:
  - a number argument is never rejected;
  - a tiered result is a numeral the regular expression accepts, followed by
    the tier letter;
  - that numeral has at most one decimal, never ends in `.0`, carries the
    value's sign, lies between 1 and 1000 in absolute value and denotes
    exactly `Math.round(10 n / magnitude) / 10`.
- String arguments:
  - a string is rejected exactly when it does not match the regular
    expression;
  - a matching string is formatted as its value truncated toward zero;
  - `parseInt` reads `String(n)` back as `n`.
- Sign:
  - away from ties, `pretty(-n)` is `"-" + pretty(n)`;
  - at a tie, `pretty(-n)` is `"-" + pretty(n - 1)`.

Rounding follows the code. `Math.round` breaks ties toward positive
infinity. `fixedRounding` (pretty-numbers.js:57-60) avoids binary
floating-point errors at a trailing 5, but it keeps that tie direction for
negative values. So `pretty(-1350000)` is `"-1.3M"`, while `pretty(1350000)`
is `"1.4M"`. For the same reason, "`pretty(-n)` is
`"-" + pretty(n)`" fails exactly at the ties. `PrettyNegated` states it
away from ties; `PrettyNegatedTieDiffers` states that it fails at every
tie, and `PrettyNegatedTie` says what `pretty(-n)` is there. Rounding does not carry into the next
tier: `pretty(999950000)` is `"1000M"`.

The arithmetic is exact. `fixedRounding` shifts the quotient `n / m` (the
value over its tier's magnitude) one decimal place up through its string
form. It applies `Math.round`, shifts back, and prints with `toFixed(1)`.
That yields the tenths `k = floor((20 n + m) / (2 m))` written with one
decimal. For integers below 2^53 the floating-point path gives that same
result.

## Model

| member | source | states |
|---|---|---|
| Numerals.IntToString | pretty-numbers.js:110 | `String(n)` for an integer; no contract of its own: NatToString, IntToStringNegated and IntToStringRoundTrip state its behaviour |
| Numerals.Matches | pretty-numbers.js:100 | the test against `^-?\d+(\.\d+)?$`; no contract of its own: MatchesComplete and MatchesSound state that it accepts exactly that grammar |
| Numerals.ParseInt | pretty-numbers.js:97 | `parseInt` on the `-?digits` prefix; no contract of its own: LeadingDigits, ParseIntOfNumeral and ParseIntTruncates state its behaviour |
| Numerals.NatToString | pretty-numbers.js:109-111 | the decimal digits of a natural number: at least one digit, and no leading zero |
| Numerals.NatToStringAppend | pretty-numbers.js:109-111 | appending a digit `d` to the digits of `n >= 1` gives the digits of `10 n + d` |
| Numerals.IntToStringNegated | pretty-numbers.js:109-111 | `String(-n)` is `"-"` followed by `String(n)` for `n > 0` |
| Numerals.LeadingDigits | pretty-numbers.js:97 | the longest digit prefix `parseInt` reads: a prefix of the input, all digits, and followed by a non-digit or the end |
| Numerals.ValueOfNatToString | pretty-numbers.js:97 | reading the digits of `n` back as a number gives `n` |
| Numerals.MatchesComplete | pretty-numbers.js:100 | every optionally negative numeral with one or more integer digits, and optionally a point and one or more digits, passes `^-?\d+(\.\d+)?$`; its sign, integer digits and fraction can be read back from its text |
| Numerals.MatchesSound | pretty-numbers.js:100 | every string passing the expression is exactly such a numeral, built from its own sign, integer digits and fraction |
| Numerals.IntToStringRoundTrip | pretty-numbers.js:97-100 | `String(i)` of any integer passes the expression and has no fraction; `parseInt` reads it back as `i` |
| Numerals.ParseIntOfNumeral | pretty-numbers.js:97 | `parseInt` of a numeral with the digits of `n` is `±n` by the numeral's sign, whatever fraction follows |
| Numerals.ParseIntTruncates | pretty-numbers.js:97-100 | on a matching string, `parseInt` gives the string's exact value truncated toward zero |
| OrderOfMagnitude.Tier | pretty-numbers.js:15-25 | the tier's abbreviation and magnitude, as the `OrderOfMagnitude` constructor stores them; a datatype, with no contract |
| OrderOfMagnitude.IsInRange | pretty-numbers.js:32-41 | `isInRange`; no contract of its own: IsInRangeIgnoresSign states what it accepts |
| OrderOfMagnitude.Round | pretty-numbers.js:48-64 | `round`; no contract of its own: RoundFailsOutsideRange, RoundText and RoundedDigits state its behaviour |
| OrderOfMagnitude.ToFixed1 | pretty-numbers.js:59 | `toFixed(1)` of tenths; no contract of its own: ToFixed1ReadsBack and StrippedToFixed1 state its behaviour |
| OrderOfMagnitude.StripPointZero | pretty-numbers.js:63 | dropping a trailing `.0`; no contract of its own: StrippedToFixed1 and ShownDigits state its effect |
| OrderOfMagnitude.Upper | pretty-numbers.js:63 | `toUpperCase` on one character; no contract of its own: TierLetterUpper states it leaves the tier letters unchanged |
| OrderOfMagnitude.RoundHalfUp | pretty-numbers.js:59 | `Math.round(num / den)`: the unique `k` with `k - 1/2 <= num / den < k + 1/2` |
| OrderOfMagnitude.RoundHalfUpUnique | pretty-numbers.js:59 | no integer other than `Math.round`'s result satisfies that bound |
| OrderOfMagnitude.HalfwayIffTight | pretty-numbers.js:59 | a quotient is an exact half precisely when the lower rounding bound is tight |
| OrderOfMagnitude.RoundHalfUpNegated | pretty-numbers.js:59 | `Math.round(-x)` is `-Math.round(x)`, except at a tie, where it is `1 - Math.round(x)` |
| OrderOfMagnitude.IsInRangeIgnoresSign | pretty-numbers.js:32-41 | `isInRange(n) == isInRange(-n)`, and it holds exactly when `magnitude <= |n| <= 1000 * magnitude - 1` |
| OrderOfMagnitude.RoundFailsOutsideRange | pretty-numbers.js:53-55 | `round` fails exactly on values outside its tier, and the failure is the out-of-range error |
| OrderOfMagnitude.StrippedToFixed1 | pretty-numbers.js:59-63 | `toFixed(1)` with `.0` dropped gives the sign, the whole tenths, and the last tenths digit unless it is zero |
| OrderOfMagnitude.RoundedTenthsBounds | pretty-numbers.js:59-62 | inside the tier the rounded tenths lie between 10 and 10000 in absolute value and carry the value's sign |
| OrderOfMagnitude.RoundText | pretty-numbers.js:48-64 | the exact text `round` returns inside its tier: sign, whole tenths, the nonzero tenths digit, then the upper-cased letter |
| OrderOfMagnitude.ToFixed1ReadsBack | pretty-numbers.js:59 | `toFixed(1)` of tenths `k` passes the expression, has one decimal, and denotes `k / 10` |
| OrderOfMagnitude.ShownDigits | pretty-numbers.js:59-63 | what `round` writes before the letter passes the expression, has at most one decimal, never ends in `.0`, has the sign of `k` and denotes `k / 10` |
| OrderOfMagnitude.ShownNegated | pretty-numbers.js:59-63 | the numeral for `-k` is `"-"` followed by the numeral for `k` |
| OrderOfMagnitude.RoundedDigits | pretty-numbers.js:48-64 | a tiered result ends in the upper-cased letter after a numeral that passes the expression, never ends in `.0`, has at most one decimal and the sign of `n`, denotes `Math.round(10 n / magnitude) / 10`, and lies between 1 and 1000 |
| OrderOfMagnitude.RoundNegated | pretty-numbers.js:48-64 | away from a tie, `round(-n)` is `"-" + round(n)` |
| OrderOfMagnitude.RoundNegatedHalfway | pretty-numbers.js:48-64 | at a tie, `n - 1` is in the tier and `round(-n)` is `"-" + round(n - 1)` |
| OrderOfMagnitude.ShownInjective | pretty-numbers.js:59-63 | different tenths are written as different numerals |
| OrderOfMagnitude.RoundTieDiffers | pretty-numbers.js:48-64 | at a tie, `round(n - 1)` and `round(n)` give different text |
| OrderOfMagnitude.RoundSignedText | pretty-numbers.js:62-63 | when the numerals for `a` and `b` differ by a leading minus sign, so do the two `round` results |
| OrderOfMagnitude.TieRounding | pretty-numbers.js:59 | at a tie, `n - 1` rounds one tenth lower, to the same tenths as `-n` with the sign dropped |
| PrettyNumbers.Input | pretty-numbers.js:92 | the argument of `pretty`: a number or a string; a datatype, with no contract |
| PrettyNumbers.Millions | pretty-numbers.js:78 | the frozen M tier: the `MILLIONS` letter of pretty-numbers.js:6 and magnitude 10^6; a constant, with no contract, and the first entry of Breakpoints |
| PrettyNumbers.Billions | pretty-numbers.js:79 | the frozen B tier: the `BILLIONS` letter of pretty-numbers.js:7 and magnitude 10^9; a constant, with no contract, and the second entry of Breakpoints |
| PrettyNumbers.Trillions | pretty-numbers.js:80 | the frozen T tier: the `TRILLIONS` letter of pretty-numbers.js:8 and magnitude 10^12; a constant, with no contract, and the third entry of Breakpoints |
| PrettyNumbers.Breakpoints | pretty-numbers.js:77-81 | the M, B and T tiers (Millions, Billions, Trillions) in the constructor's order; a constant: BreakpointsContiguous, BreakpointsDisjoint and BreakpointsCover state its properties |
| PrettyNumbers.Pretty | pretty-numbers.js:95-112 | `pretty`; no contract of its own: PrettyStringRejected, PrettyStringAsNumber, PrettyTiered and PrettyPlain state its behaviour |
| PrettyNumbers.Find | pretty-numbers.js:104 | `find` returns the first tier whose range holds `n`, or none when no tier holds it |
| PrettyNumbers.Format | pretty-numbers.js:104-111 | once the argument is accepted, the result is never an error: the tier's range check cannot fail |
| PrettyNumbers.TierFor | pretty-numbers.js:77-81 | an abbreviated value lies between its tier's magnitude and a thousand times it |
| PrettyNumbers.BreakpointsContiguous | pretty-numbers.js:77-81 | each breakpoint starts a thousand times above the previous one, and the letters are already upper case |
| PrettyNumbers.BreakpointsDisjoint | pretty-numbers.js:77-81 | no value lies in two breakpoints |
| PrettyNumbers.BreakpointsCover | pretty-numbers.js:77-81 | a value lies in some breakpoint exactly when `10^6 <= |n| < 10^15`, and then in the one its digit count names |
| PrettyNumbers.FindBreakpoint | pretty-numbers.js:104 | `find` returns the tier by digit count for a value from `10^6` up to below `10^15`, and nothing otherwise |
| PrettyNumbers.PrettyInTier | pretty-numbers.js:104-108 | an abbreviated value is formatted by its own tier's `round`, which accepts it |
| PrettyNumbers.PrettyInFull | pretty-numbers.js:109-111 | any other value is written as `${n}` |
| PrettyNumbers.AbbreviatedNegated | pretty-numbers.js:38 | whether a value is abbreviated does not depend on its sign |
| PrettyNumbers.PrettyNumberNeverFails | pretty-numbers.js:100-101 | a number argument never throws: `String(n)` passes the expression |
| PrettyNumbers.PrettyPlain | pretty-numbers.js:109-111 | below a million or from 10^15 on, the result is `String(n)`, which `parseInt` reads back as `n` |
| PrettyNumbers.PrettyTiered | pretty-numbers.js:104-108 | a tiered result ends in the tier letter after a numeral that passes the expression, never ends in `.0`, has at most one decimal and the sign of `n`, equals `Math.round(10 n / magnitude) / 10`, and lies between 1 and 1000 |
| PrettyNumbers.TierLetterUpper | pretty-numbers.js:63 | upper-casing the letter of any tier leaves it unchanged |
| PrettyNumbers.PrettyStringRejected | pretty-numbers.js:97-101 | a string is rejected exactly when it does not pass the expression, and then with `NotANumber` |
| PrettyNumbers.PrettyStringAsNumber | pretty-numbers.js:97-111 | a matching string is formatted as the number it denotes truncated toward zero |
| PrettyNumbers.PrettyStringNumeral | pretty-numbers.js:97-111 | a numeral with a fraction is formatted as its integer part with its sign |
| PrettyNumbers.PrettyStringOfNumber | pretty-numbers.js:97-111 | `pretty(String(n)) == pretty(n)` |
| PrettyNumbers.PrettyNegated | pretty-numbers.js:95-112 | for `n > 0` not at a tie, `pretty(-n)` is `"-" + pretty(n)` |
| PrettyNumbers.PrettyNegatedInTier | pretty-numbers.js:104-108 | the same, for an abbreviated `n` |
| PrettyNumbers.PrettyNegatedInFull | pretty-numbers.js:109-111 | the same, for a value written in full |
| PrettyNumbers.PrettyNegatedTie | pretty-numbers.js:104-108 | at a tie `n > 0`, `n - 1` stays in the tier and `pretty(-n)` is `"-" + pretty(n - 1)` |
| PrettyNumbers.PrettyNegatedTieDiffers | pretty-numbers.js:104-108 | at a tie `n > 0`, `pretty(-n)` is not `"-" + pretty(n)` |
| PrettyNumbers.TieSides | pretty-numbers.js:104-108 | at a tie both `-n` and `n - 1` are rounded by the tier of `n` |
| PrettyNumbers.PrettyInTierOf | pretty-numbers.js:104-108 | an abbreviated value is formatted by the tier the caller names, when that is its tier |
| PrettyNumbers.PrettyInSameTier | pretty-numbers.js:38-40 | a value of the same absolute size as an abbreviated one (its negation) is rounded in the same tier |
| PrettyNumbers.TieNeighbour | pretty-numbers.js:40 | the value just below a positive tie is in the same tier |
| Scenarios.Shows2 | pretty-numbers.test.js:13 | `pretty(2) == "2"` |
| Scenarios.Shows25 | pretty-numbers.test.js:14 | `pretty(25) == "25"` |
| Scenarios.Shows253 | pretty-numbers.test.js:15 | `pretty(253) == "253"` |
| Scenarios.Shows2534 | pretty-numbers.test.js:16 | `pretty(2534) == "2534"` |
| Scenarios.Shows25345 | pretty-numbers.test.js:17 | `pretty(25345) == "25345"` |
| Scenarios.Shows253450 | pretty-numbers.test.js:18 | `pretty(253450) == "253450"` |
| Scenarios.Shows999999 | pretty-numbers.js:109-111 | `pretty(999999) == "999999"`: one below the M tier |
| Scenarios.ShowsMinus999999 | pretty-numbers.js:109-111 | `pretty(-999999) == "-999999"` |
| Scenarios.Shows0 | pretty-numbers.js:109-111 | `pretty(0) == "0"` |
| Scenarios.Shows1000000 | pretty-numbers.test.js:26 | `pretty(1000000) == "1M"` |
| Scenarios.Shows1000000000 | pretty-numbers.test.js:27 | `pretty(1000000000) == "1B"` |
| Scenarios.Shows1000000000000 | pretty-numbers.test.js:28 | `pretty(1000000000000) == "1T"` |
| Scenarios.Shows99000000 | pretty-numbers.test.js:31 | `pretty(99000000) == "99M"` |
| Scenarios.Shows99000000000 | pretty-numbers.test.js:32 | `pretty(99000000000) == "99B"` |
| Scenarios.Shows99000000000000 | pretty-numbers.test.js:33 | `pretty(99000000000000) == "99T"` |
| Scenarios.ShowsMinus1000000 | pretty-numbers.test.js:41 | `pretty(-1000000) == "-1M"` |
| Scenarios.ShowsMinus1000000000 | pretty-numbers.test.js:42 | `pretty(-1000000000) == "-1B"` |
| Scenarios.ShowsMinus1000000000000 | pretty-numbers.test.js:43 | `pretty(-1000000000000) == "-1T"` |
| Scenarios.ShowsMinus99000000 | pretty-numbers.test.js:46 | `pretty(-99000000) == "-99M"` |
| Scenarios.ShowsMinus99000000000 | pretty-numbers.test.js:47 | `pretty(-99000000000) == "-99B"` |
| Scenarios.ShowsMinus99000000000000 | pretty-numbers.test.js:48 | `pretty(-99000000000000) == "-99T"` |
| Scenarios.Shows1020000 | pretty-numbers.test.js:56 | `pretty(1020000) == "1M"` (also line 86) |
| Scenarios.Shows1020000000 | pretty-numbers.test.js:57 | `pretty(1020000000) == "1B"` (also line 87) |
| Scenarios.Shows1020000000000 | pretty-numbers.test.js:58 | `pretty(1020000000000) == "1T"` (also line 88) |
| Scenarios.Shows75020000 | pretty-numbers.test.js:61 | `pretty(75020000) == "75M"` (also line 91) |
| Scenarios.Shows203020000000 | pretty-numbers.test.js:62 | `pretty(203020000000) == "203B"` (also line 92) |
| Scenarios.Shows64020000000000 | pretty-numbers.test.js:63 | `pretty(64020000000000) == "64T"` (also line 93) |
| Scenarios.Shows1320000 | pretty-numbers.test.js:71 | `pretty(1320000) == "1.3M"` |
| Scenarios.Shows1320000000 | pretty-numbers.test.js:72 | `pretty(1320000000) == "1.3B"` |
| Scenarios.Shows1320000000000 | pretty-numbers.test.js:73 | `pretty(1320000000000) == "1.3T"` |
| Scenarios.Shows75820000 | pretty-numbers.test.js:76 | `pretty(75820000) == "75.8M"` |
| Scenarios.Shows203820000000 | pretty-numbers.test.js:77 | `pretty(203820000000) == "203.8B"` |
| Scenarios.Shows64820000000000 | pretty-numbers.test.js:78 | `pretty(64820000000000) == "64.8T"` |
| Scenarios.Shows1350000 | pretty-numbers.test.js:101 | `pretty(1350000) == "1.4M"`: a tie rounds up |
| Scenarios.Shows1360000000 | pretty-numbers.test.js:102 | `pretty(1360000000) == "1.4B"` |
| Scenarios.Shows1370000000000 | pretty-numbers.test.js:103 | `pretty(1370000000000) == "1.4T"` |
| Scenarios.Shows75880000 | pretty-numbers.test.js:106 | `pretty(75880000) == "75.9M"` |
| Scenarios.Shows203870000000 | pretty-numbers.test.js:107 | `pretty(203870000000) == "203.9B"` |
| Scenarios.Shows64850000000000 | pretty-numbers.test.js:108 | `pretty(64850000000000) == "64.9T"` |
| Scenarios.ShowsMinus1350000 | pretty-numbers.js:59 | `pretty(-1350000) == "-1.3M"`: a negative tie rounds toward zero |
| Scenarios.ShowsMinus64850000000000 | pretty-numbers.js:59 | `pretty(-64850000000000) == "-64.8T"` |
| Scenarios.Shows999950000 | pretty-numbers.js:59-63 | `pretty(999950000) == "1000M"`: rounding does not carry into the next tier |
| Scenarios.Shows999999999 | pretty-numbers.js:59-63 | `pretty(999999999) == "1000M"` |
| Scenarios.ShowsMinus999950000 | pretty-numbers.js:59-63 | `pretty(-999950000) == "-999.9M"` |
| Scenarios.ShowsMinus999950001 | pretty-numbers.js:59-63 | `pretty(-999950001) == "-1000M"` |
| Scenarios.Shows999949999 | pretty-numbers.js:59-63 | `pretty(999949999) == "999.9M"` |
| Scenarios.Spells1350000 | pretty-numbers.test.js:115 | `String(1350000) == "1350000"` |
| Scenarios.ShowsString1350000 | pretty-numbers.test.js:115 | `pretty("1350000") == "1.4M"` |
| Scenarios.Spells1360000000 | pretty-numbers.test.js:116 | `String(1360000000) == "1360000000"` |
| Scenarios.ShowsString1360000000 | pretty-numbers.test.js:116 | `pretty("1360000000") == "1.4B"` |
| Scenarios.Spells1370000000000 | pretty-numbers.test.js:117 | `String(1370000000000) == "1370000000000"` |
| Scenarios.ShowsString1370000000000 | pretty-numbers.test.js:117 | `pretty("1370000000000") == "1.4T"` |
| Scenarios.Spells75880000 | pretty-numbers.test.js:120 | `String(75880000) == "75880000"` |
| Scenarios.ShowsString75880000 | pretty-numbers.test.js:120 | `pretty("75880000") == "75.9M"` |
| Scenarios.Spells203870000000 | pretty-numbers.test.js:121 | `String(203870000000) == "203870000000"` |
| Scenarios.ShowsString203870000000 | pretty-numbers.test.js:121 | `pretty("203870000000") == "203.9B"` |
| Scenarios.Spells64850000000000 | pretty-numbers.test.js:122 | `String(64850000000000) == "64850000000000"` |
| Scenarios.ShowsString64850000000000 | pretty-numbers.test.js:122 | `pretty("64850000000000") == "64.9T"` |
| Scenarios.ShowsStringWithFraction | pretty-numbers.js:97-108 | `pretty("1350000.99") == "1.4M"`: `parseInt` drops the fraction before rounding |
| Scenarios.ShowsStringNegativeWithFraction | pretty-numbers.js:97-111 | `pretty("-2.5") == "-2"` |
| Scenarios.RefusesLetters | pretty-numbers.test.js:129 | `pretty("ABCD")` fails with `NotANumber` |
| Scenarios.RefusesExpression | pretty-numbers.test.js:135 | `pretty("1 * 6")` fails with `NotANumber`, although `parseInt` reads 1 |
| Scenarios.RefusesThousandsSeparator | pretty-numbers.js:99-101 | `pretty("25,000")` fails with `NotANumber`, although `parseInt` reads 25 |
| Scenarios.RefusesEmpty | pretty-numbers.js:100-101 | `pretty("")` fails |
| Scenarios.RefusesTrailingPoint | pretty-numbers.js:100-101 | `pretty("1.")` fails |
| Scenarios.RefusesLeadingPoint | pretty-numbers.js:100-101 | `pretty(".5")` fails |
| Scenarios.RefusesPlusSign | pretty-numbers.js:100-101 | `pretty("+5")` fails |
| Scenarios.RefusesLeadingSpace | pretty-numbers.js:100-101 | `pretty(" 12")` fails |

## Left out

- index.js, the prompt-and-print loop around the formatter, is user I/O and
  is not part of this model.
- Numbers that are not integers are outside the model: `Num` carries an
  `int`. Inside a tier such a number is abbreviated like an integer
  (`pretty(1350000.5)` is "1.4M"). Between tiers (`pretty(999999999.5)`) or
  below a million (`pretty(1.5)` is "1.5") it is printed raw. String
  arguments with fractions are modelled.
- Floating-point artifacts are not modelled: values past 2^53, and `String(n)`
  switching to exponent notation from 10^21 on. The model's exact integer
  arithmetic equals the code's floating-point path for integers below 2^53.
- Negative zero: `pretty("-0.5")` gives `parseInt` = -0, which prints as "0".
  The model's integer 0 prints the same.
- The `breakpoints` getter's defensive copy and the `Object.freeze` calls:
  they affect aliasing only; the model's tier list is an immutable constant.
- The `typeof`/`isNaN` argument checks in `isInRange` and `round`: every value
  reaching them here is an integer, so they cannot fire.
- The `isNaN(n)` half of the check in `pretty` is folded into `ParseInt`
  returning no value. Only the `-?digits` prefix form of `parseInt` is
  modelled. Leading whitespace, `+` and hexadecimal prefixes are not
  modelled: the regular expression rejects those strings anyway.
- Numerals.IntToString: `String(n)` is modelled for integers only, not for
  floating-point values.
- OrderOfMagnitude.Upper: models `toUpperCase` on ASCII letters only. The
  three tier letters are ASCII.
- Scenarios: no concrete scenario covers a value of 16 or more digits. Those
  values fall back to plain digits, as PrettyNumbers.PrettyPlain states for
  all of them.
- Error messages: they are the two `Error` constructors, not the strings the
  code throws.
