# Gold price comparison: number conversions and comparison engine

This project models the computing core of the gold price comparator, `MainBackend` in `main.py`. The core has three parts:

- **`parse_european_number`** reads a number written the European way (`"1.234,56"`). It strips the text, deletes every `.` and turns every `,` into `.`. It then hands the result to Python's `Decimal`.
- **`format_european_number`** writes a number that way with a fixed count of fractional digits. It rounds with `'{:.Nf}'`, splits at the point, and groups the integer part in threes with a loop. The groups are separated by `.` and the fraction follows a `,`.
- **`calculateResults`** does the work behind the window. It reads the four numbers and checks that each is positive, in a fixed order. It then converts the Thai price per baht of 96.5 % gold into local currency per troy ounce of fine gold. It also divides the local price by the local purity 0.9999, which gives local currency per troy ounce of fine gold, and compares the two adjusted prices. It picks a verdict, works out the gold each market buys for the investment, and writes the report.

The model has four modules:

- `Strings` holds the Python `str` operations used (`strip`, `replace`, `split`, join).
- `Decimals` holds decimal digit strings and half-even rounding.
- `EuropeanNumber` holds the parser and the formatter. The formatter appears both as a specification function and as the loop method.
- `GoldComparison` holds validation, the computation, the report and the whole call.

A number is a `Decimal` value: a sign, a natural coefficient and `places`, the count of fractional digits (the negated exponent of `Decimal.as_tuple()`). The value it denotes is an exact `real`.

## Model

| member | source | states |
|---|---|---|
| Strings.TrimStart | main.py:21 | `lstrip` keeps a suffix of the text. Everything it cuts off is whitespace, and what is left is empty or starts with a non-whitespace character. |
| Strings.TrimEnd | main.py:21 | `rstrip` keeps a prefix of the text. Everything it cuts off is whitespace, and what is left is empty or ends with a non-whitespace character. |
| Strings.Strip | main.py:21 | The stripped text is empty, or it neither starts nor ends with whitespace. |
| Strings.StripCutsSpace | main.py:21 | `strip` keeps the slice of the text that starts at its first non-whitespace character. Everything before and after that slice is whitespace. Together with `Strip`'s contract this fixes the result. |
| Strings.StripKeeps | main.py:21 | `strip` removes only whitespace: every character that is not whitespace is counted as often after it as before. |
| Strings.StripKeepsDigits | main.py:21 | The digits after `strip` are the digits of the input, in order. |
| Strings.RemoveChar | main.py:21 | After `replace('.', '')` no `.` is left. |
| Strings.ReplaceChar | main.py:21 | `replace` of one character by another keeps the length. |
| Strings.ReplaceCharKeeps | main.py:21 | `replace(a, b)` keeps the count of every character other than `a` and `b`. |
| Strings.ReplaceCharCount | main.py:21 | After `replace(',', '.')` no `,` is left. The `.` count becomes the old `,` count plus the old `.` count. |
| Strings.SplitOn | main.py:33 | `split` on one character gives one more piece than there are separators, and no piece holds the separator. |
| Strings.JoinSplit | main.py:33 | Joining the pieces of `split` with the separator gives back the text. |
| Strings.SplitJoin | main.py:33 | Splitting a join of pieces that hold no separator gives back the pieces. |
| Decimals.RoundHalfEven | main.py:31-32 | Rounds to an integer at most one half away. On a tie it picks the even neighbour, as the default `Decimal` context does. |
| Decimals.NatToDecimal | main.py:31-32 | The digits of a natural number have no leading zero and read back as that number. |
| Decimals.DigitsValueSplit | main.py:22 | The value of two digit strings put together is the left value shifted by the length of the right one, plus the right value. |
| EuropeanNumber.Normalize | main.py:21 | The text handed to `Decimal` holds no `,`. |
| EuropeanNumber.NormalizeKeeps | main.py:21-22 | Every character other than `.`, `,` and whitespace is counted as often in the stripped rewrite as in the input. |
| EuropeanNumber.NormalizeKeepsDigits | main.py:21 | After the rewrite there is no `,`. The `.` count equals the input's `,` count. The digits are the input's, in order. |
| EuropeanNumber.NormalizeEnds | main.py:21 | If the stripped input neither starts nor ends with `.`, the rewritten text starts and ends with a non-whitespace character. |
| EuropeanNumber.ParseEuropean | main.py:18-24 | A text with two or more `,`, or with no digit, is never read as a number. The converse, that every well-formed text is read, is `ParseEuropeanComma` and `ParseEuropeanWhole`. |
| EuropeanNumber.ParseEuropeanStrip | main.py:21 | The parser strips its input first: a text and its stripped form read the same. |
| EuropeanNumber.ParseEuropeanComma | main.py:18-24 | Every text of the form: optional `+`/`-`, digits with any `.` separators, `,`, digits, with a digit somewhere, is read. Its coefficient is all the digits, its places the count after the `,`, and its sign is set exactly after `-` (`",5"` is 0.5, `"+1.234,5"` is 1234.5). |
| EuropeanNumber.ParseEuropeanWhole | main.py:18-24 | Every text of the form: optional `+`/`-`, then digits with any `.` separators, holding a digit, is read as the integer its digits spell. |
| EuropeanNumber.NormalizeComma | main.py:21 | The rewrite of such a text deletes the separators and turns the `,` into the point. |
| EuropeanNumber.NormalizeWhole | main.py:21 | The rewrite of a signed integer with separators deletes the separators. |
| EuropeanNumber.DotsRemoved | main.py:21 | Deleting `.` from digits with separators leaves exactly the digits, in order. |
| EuropeanNumber.ParseEuropeanChars | main.py:18-24 | A text read as a number holds only whitespace, digits, `.`, `,` and at most one sign. Any other character (a letter, say) makes `Decimal` raise. |
| EuropeanNumber.ParseEuropeanLiteral | main.py:21-22 | What a text read as a number hands to `Decimal`, stripped, holds only digits and `.`, with a sign allowed only in front. |
| EuropeanNumber.ParseEuropeanSigns | main.py:18-24 | A text read as a number holds at most one sign. |
| EuropeanNumber.ParseUnsigned | main.py:22 | An accepted unsigned literal holds at most one `.`. The converse is `ParseUnsignedPoint` and `ParseUnsignedWhole`. |
| EuropeanNumber.ParseUnsignedWhole | main.py:22 | A run of digits is accepted as that integer, with no fractional places. |
| EuropeanNumber.UnsignedChars | main.py:22 | An accepted unsigned literal holds only digits and `.`. |
| EuropeanNumber.ParseDecimal | main.py:22 | `Decimal` accepts a text only if, stripped, it holds only digits and `.`, with a sign allowed only in front. The converse is `ParseDecimalPoint` and `ParseDecimalWhole`. |
| EuropeanNumber.ParseDecimalSign | main.py:22 | With no sign, `+` or `-` in front of a body that has no whitespace at its ends and no sign of its own, the body is read, negated after `-`. |
| EuropeanNumber.ParseDecimalPoint | main.py:22 | Every literal of an optional `+`/`-`, digits, `.` and digits, with a digit on at least one side, is accepted (`".5"` is 0.5, `"+5."` is 5). The coefficient is all the digits, the places the count after `.`, and the sign is set exactly after `-`. |
| EuropeanNumber.ParseDecimalWhole | main.py:22 | Every literal of an optional `+`/`-` and digits is accepted as that integer, with the sign set exactly after `-`. |
| EuropeanNumber.UnsignedNeedsDigits | main.py:22 | A literal without a sign that the number reader accepts has at most one point and at least one digit. |
| EuropeanNumber.ParseDecimalNeedsDigits | main.py:22 | An accepted literal, with or without a sign, has at most one point and at least one digit. |
| EuropeanNumber.ParseUnsignedPoint | main.py:22 | Digits, a point and digits, with a digit on at least one side, read as all the digits, with as many fractional places as follow the point. |
| EuropeanNumber.ParseEuropeanDigits | main.py:18-22 | A plain run of digits reads as the integer it spells. |
| EuropeanNumber.ParseFixedText | main.py:22 | The fixed-point text of a sign and a magnitude reads back as that signed magnitude with `places` fractional digits. |
| EuropeanNumber.ScaledSign | main.py:31-32 | Rounding keeps the sign. The rounded count of units is the magnitude with the value's sign. |
| EuropeanNumber.Rounded | main.py:31-32 | The rounded number has exactly `places` fractional digits and the sign of the value. |
| EuropeanNumber.RoundedValue | main.py:31-32 | The rounded `Decimal` denotes the half-even rounded count of units of `10^-places`. |
| EuropeanNumber.RoundedExact | main.py:31-32 | Rounding a `Decimal` to its own count of fractional digits changes nothing (a negative zero is excluded). |
| EuropeanNumber.UnitsExact | main.py:31-32 | A whole count of units needs no rounding. |
| EuropeanNumber.PaddedDigits | main.py:32 | The digits of the magnitude have more than `places` digits and spell the magnitude. |
| EuropeanNumber.DigitRuns | main.py:32-33 | The fixed-point digits split into at least one whole digit and exactly `places` fractional digits. |
| EuropeanNumber.WholeDigitsCanonical | main.py:32 | The whole digits start with `0` only when they are just `"0"`. |
| EuropeanNumber.IntegerPartChars | main.py:32-33 | The integer part starts with the sign or a digit and holds nothing else. |
| EuropeanNumber.FixedTextSplit | main.py:31-33 | The fixed-point text splits at `.` into two pieces (integer part, fraction) exactly when `places > 0`. Otherwise it stays in one piece. |
| EuropeanNumber.Groups | main.py:35-39 | The groups of the integer part: the leftmost has one to three characters, every other exactly three, and together they are the integer part. |
| EuropeanNumber.GroupJoinsGroups | main.py:35-39 | The grouped text is those groups joined by `.`. |
| EuropeanNumber.GroupRemoveDots | main.py:35-39 | Deleting the separators from the grouped text gives back the characters that were grouped, in order. |
| EuropeanNumber.GroupCount | main.py:35-39 | Grouping adds no character other than `.`. |
| EuropeanNumber.GroupEnds | main.py:35-39 | Grouping keeps the first and the last character. |
| EuropeanNumber.GroupCons | main.py:36-39 | One more character on the left gets a `.` after it exactly when the rest is a non-empty multiple of three long. |
| EuropeanNumber.GroupStep | main.py:36-39 | One turn of the loop puts the next character in front, after a `.` when a multiple of three are done. This is the loop invariant's step. |
| EuropeanNumber.European | main.py:33-41 | The unpacking of `split('.')` succeeds exactly when the rounded text has exactly one `.`. |
| EuropeanNumber.FormatEuropeanNumber | main.py:26-41 | The loop method builds the same text as the grouping specification. It fails, as the tuple unpacking does, exactly when the rounded text has no `.`. |
| EuropeanNumber.FormatEuropean | main.py:26-41 | Formatting fails exactly when `places` is 0. |
| EuropeanNumber.EuropeanShape | main.py:33-41 | The text is the grouped integer part, one `,`, then the fractional digits. |
| EuropeanNumber.EuropeanChars | main.py:31-41 | The text has exactly one `,`, followed by exactly `places` digits. Its only other characters are digits, `.` and the sign. |
| EuropeanNumber.EuropeanGroups | main.py:35-41 | The integer part of the text is the groups joined by `.`. Without the separators it is the sign and the whole digits, in order. |
| EuropeanNumber.NormalizeEuropean | main.py:18-41 | The parser's rewrite turns the European text back into the fixed-point text. |
| EuropeanNumber.ParseFormatRounds | main.py:18-41 | Parsing the formatted text gives the value rounded to `places` digits, sign included. |
| EuropeanNumber.RoundTrip | main.py:18-41 | A `Decimal` with `places > 0` fractional digits (not a negative zero) is read back exactly, sign, coefficient and count of fractional places, from its text. |
| EuropeanNumber.RoundTripValue | main.py:18-41 | A value with at most `places` fractional digits is read back as the same number (5.1 is written "5,10" and read as 5.1). |
| EuropeanNumber.NegativeSignGrouped | main.py:36-39 | As written, when the whole digits of a negative value are a multiple of three long, a `.` follows the `-`. |
| EuropeanNumber.NegativeSignGroupedExample | main.py:26-41 | As written, -123.45 is formatted as `"-.123,45"`. |
| EuropeanNumber.UnsignedEuropean | main.py:26-41 | The text of a magnitude is the grouped whole digits, `,` and the fraction, and it starts with a digit. |
| EuropeanNumber.FormatEuropeanSigned | main.py:26-41 | Corrected formatter: the character after the optional `-` is a digit. For a value that is not negative it is the text the original writes. |
| EuropeanNumber.ParseFormatSigned | main.py:18-41 | The corrected text reads back as the value rounded to `places` digits, sign included. |
| EuropeanNumber.FormatEuropeanSignedExample | main.py:26-41 | The corrected formatter writes -123.45 as `"-123,45"`. |
| GoldComparison.Validate | main.py:67-75 | Passes exactly when all four numbers are positive. Otherwise it gives the message of the first non-positive field, in the order exchange rate, local price, Thai price, investment. Each message is exact (both directions). |
| GoldComparison.Decide | main.py:92-101 | Exactly one verdict. It is "Thailand" iff the local price is higher, "local" iff the Thai price is higher, and "same" iff they are equal. The difference is the absolute difference, is never negative, and is zero exactly for "same". |
| GoldComparison.BahtWeightPositive | main.py:78-82 | One baht, `GOLD_BAHT_WEIGHT_GRAMS / TROY_OUNCE_IN_GRAMS` troy ounces, times the grams per ounce is the grams per baht. It lies between 0 and one half. |
| GoldComparison.AdjustedLocalPrice | main.py:84-85 | The adjusted local price times the local purity 0.9999 is the quoted local price. |
| GoldComparison.AdjustedThailandPrice | main.py:87-90 | The adjusted Thai price times the Thai purity 0.965, the baht weight in ounces and the exchange rate is the quoted Thai price per baht. |
| GoldComparison.Compare | main.py:77-105 | With four positive numbers, the adjusted local price times 0.9999 is the local price. The adjusted Thai price times 0.965, the baht weight in ounces and the exchange rate is the Thai price. Both adjusted prices are positive, and the local one exceeds the quoted price. Each gold amount times its price is the investment. The verdict and the difference follow the prices. |
| GoldComparison.PurityRaisesPrice | main.py:84-85 | Dividing by the local purity 0.9999 raises the price. |
| GoldComparison.CheaperBuysMore | main.py:92-105 | The market the verdict names buys strictly more gold for the investment. With equal prices both buy the same amount. |
| GoldComparison.MoreForLess | main.py:103-105 | At the lower of two prices the same money buys more. |
| GoldComparison.Formatted | main.py:111-120 | Every number in the report is on one line and reads back as the number rounded to its places. |
| GoldComparison.VerdictSingle | main.py:93-101 | Each verdict text is one line. |
| GoldComparison.TemplateLinesSingle | main.py:108-121 | No filled-in line of the template holds a line break. |
| GoldComparison.TemplateSplits | main.py:108-121 | The filled-in template splits at its line breaks into its fourteen lines, the seventh being the verdict. |
| GoldComparison.ReportSplits | main.py:107-121 | The report splits back into its fourteen lines, with the verdict on the seventh. |
| GoldComparison.CalculateResults | main.py:57-63 | The call ends in an exception that escapes it exactly when one of the four texts is not a number. |
| GoldComparison.RejectsFirstInvalid | main.py:67-75 | With four numbers read but one not positive, the call shows `"Error: "` and the first failing field's message. |
| GoldComparison.ShowsReport | main.py:57-121 | With four positive numbers and a symbol whose stripped form has no line break, the call shows the report for the stripped symbol. The report splits into the template's fourteen lines, with the verdict on the seventh. |
| GoldComparison.CalculateShown | main.py:57-121 | With four positive numbers, the call shows the report of their comparison. |

## Left out

- The Qt/QML window, `main()`, `set_root` and the output step (`setProperty` or `print`, main.py:123-134) are left out. The model returns the text that would be shown.
- The 20-digit context of `Decimal` (main.py:8) is left out. The divisions of the computation are exact `real` divisions, so the rounding of each quotient to 20 significant digits is not modelled. The only rounding modelled is the final fixed-point rounding of the formatter.
- CheaperBuysMore and Decide hold in exact arithmetic only. Under the 20-digit context, two adjusted prices that differ only in the 20th digit can give equal rounded gold amounts, so the market the verdict names need not buy strictly more gold. Prices equal after rounding but not before would also give a verdict the exact model does not.
- The context's trapped `Overflow` (exponent limit 999999) is not modelled: an extreme literal such as `"1e999999"` cannot be written in the modelled syntax, but a quotient beyond the limit would raise in the source while `CalculateResults` returns `Shown`.
- The `Decimal` constructor is modelled only for an optional sign, ASCII digits and one optional point, with surrounding whitespace. Exponents, `NaN`, `Infinity` and `_` separators are not modelled. Nor are non-ASCII decimal digits (full-width `１２`, Arabic-Indic `١٢`), which `Decimal` accepts and maps to ASCII. All of these read as not a number here.
- Negative zero: `"-0"` reads as a `Decimal` with the sign set and value 0. Python writes `Decimal('-0')` with two places as `"-0.00"`, so `format_european_number` gives `"-0,00"`. The model formats a real value, which has no negative zero, and writes `"0,00"`. So `RoundTrip` excludes a negative zero. No value formatted inside `calculateResults` is a negative zero: every formatted value is positive or a difference computed from two prices.
- Malformed numbers: `Decimal` raises `decimal.InvalidOperation`, which is not a `ValueError`. The `except ValueError` clauses at main.py:23 and main.py:129 therefore do not catch it, and it escapes `calculateResults`. The model returns `Raised` and no text. An "Invalid number format" message is never produced by this code.
- The parser's rewrite does not always leave a text without whitespace at its ends. A `.` that stood next to whitespace at an end of the stripped input is deleted and uncovers that whitespace. `EuropeanNumber.NormalizeEnds` therefore requires that the stripped input neither starts nor ends with `.`. The number reader strips whitespace again itself, so the result is unaffected.
- `format_european_number` with 0 places fails: `'{:.0f}'` has no `.`, so unpacking the split raises `ValueError`. The model returns `None`. `calculateResults` never calls it that way.
- The `isinstance` conversion at main.py:28-29 is left out. Every value formatted here is already a `Decimal`.
- The model does not state the price bound of exact rounding (the rounded value within half a unit of the value) as a single lemma. `EuropeanNumber.RoundedValue` ties the rounded value to `Decimals.RoundHalfEven`, whose contract states that bound on the count of units.

## Findings

| source | as written | input that shows it | evidently intended | confidence | as-written member | corrected member |
|---|---|---|---|---|---|---|
| main.py:36-39 | The grouping loop walks the whole integer part, sign included, so a `-` counts as a digit. | -123.45 with 2 places gives `"-.123,45"` | `"-123,45"`: the sign stays outside the grouping, as it does for -1234.5 (`"-1.234,50"`) | not executed | EuropeanNumber.NegativeSignGroupedExample | EuropeanNumber.FormatEuropeanSigned |

The as-written formatter keeps the defect. `EuropeanNumber.NegativeSignGrouped` states it for every magnitude whose whole digits are a multiple of three long. The corrected formatter, `EuropeanNumber.FormatEuropeanSigned`, puts the sign in front of the grouped magnitude. `EuropeanNumber.ParseFormatSigned` proves that it reads back as the rounded value. Every number the report formats is at least zero, and on those values the two formatters give the same text (second `ensures` of `FormatEuropeanSigned`). So the report is modelled with the formatter as written. Reading the text back loses nothing even with the defect: the parser deletes the stray `.` (`EuropeanNumber.ParseFormatRounds` holds for negative values too).
