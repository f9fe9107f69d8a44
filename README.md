# MathGen in Dafny

MathGen is a console program that prints arithmetic practice sheets. It asks
for an operation choice ("1" for addition/subtraction, "2" for
multiplication/division) and an outcome range "<min>-<max>", generates
20 * 40 problems such as `"7 + 5 = "` by rejection sampling, and lays them
out as a PDF: pages of 40 problems, each page a two-column table of rows.

This project models the program's logic and proves what it promises:

- `RangeParser` — `TryParseRange`: split at `'-'`, two `int.TryParse` calls,
  `min <= max`. Accepted bounds are never negative, a leading minus is
  rejected, and a formatted range parses back to itself.
- `SumGenerator` — `GenerateSums`: the `while` loop as a method over an
  explicit sequence of random draws. It is proved against the function
  `Produced`, the strings of the problems `Accepted` keeps. Every kept
  string is a valid problem for the choice and the range. The loop stops as
  soon as the list is full. For each choice there is an exact condition
  under which the loop can make progress at all.
- `PageLayout` — the nested loops of `CreatePdfDocument` as a method over
  sequences. The section's tables are `Paginate(sums)`, with one page break
  fewer than tables. Reading the cells back gives exactly the list, and each
  page and row holds the items the loop indices say.
- `FontResolver` — `CustomFontResolver.ResolveTypeface`: the Courier file for
  a family and the bold/italic flags.
- `Strings`, `Numerals`, `Wrappers` — the .NET behaviour these rely on:
  `string.Split(char)`, `int.TryParse`, decimal formatting in interpolated
  strings, truncating `/` and `%`, and 32-bit wrap-around.

The program generates 20 * 40 = 800 problems (20 pages of 40), although
its comment at MathGen/Program.cs:31 says "10 pages, 20 sums per page". Only
operation choices "1" and "2" exist. Any other choice makes the loop run
forever.

## Model

| member | source | states |
|---|---|---|
| `Strings.Split` | MathGen/Program.cs:49 | `input.Split('-')`: joining the parts with the separator gives the input back, and no part contains the separator |
| `Strings.SplitJoin` | MathGen/Program.cs:49 | splitting undoes joining when no part holds the separator |
| `Numerals.ShowInt` | MathGen/Program.cs:84 | `{a}` in an interpolated string: reading the text back as a sign and digits gives a |
| `Numerals.ShowIntShape` | MathGen/Program.cs:84 | `{a}` in an interpolated string: a `'-'` exactly for negative values, then the decimal digits of the magnitude with no `'+'` and no leading zero; non-empty, with no spaces and no surrounding white space |
| `Numerals.TrimWhite` | MathGen/Program.cs:50 | the token `int.TryParse` reads is what is left of its input after dropping leading and trailing white space, and only white space: everything dropped is white space, and the token has no white space at either end |
| `Numerals.ParseInt` | MathGen/Program.cs:50 | `int.TryParse` yields only values inside the 32-bit int range, and a negative value only from a token containing `'-'` |
| `Numerals.ParseShowInt` | MathGen/Program.cs:50 | `int.TryParse` reads back every formatted int |
| `Numerals.TruncDivTowardZero` | MathGen/Program.cs:97 | C# `a / b` rounds toward zero: its magnitude is abs(a) / abs(b) rounded down, and a nonzero quotient is negative exactly when the operands have opposite signs |
| `Numerals.TruncRem` | MathGen/Program.cs:97 | C# `a % b` satisfies `a == (a / b) * b + a % b` with `|a % b| < |b|`, and takes the sign of `a` |
| `Numerals.TruncAgreesOnNonNegative` | MathGen/Program.cs:97 | for non-negative operands C#'s truncating `/` and `%` equal Dafny's |
| `Numerals.Wrap32` | MathGen/Program.cs:82 | an unchecked int result lies in the 32-bit range, is congruent to the exact value modulo 2^32, and equals it when the exact value fits |
| `RangeParser.TryParseRange` | MathGen/Program.cs:40-55 | a null input is rejected, and every accepted range has `0 <= min <= max <= int.MaxValue` |
| `Strings.SplitAtTwoSeparators` | MathGen/Program.cs:49 | an input with two separators splits into at least three parts |
| `RangeParser.OneSeparatorRange` | MathGen/Program.cs:49-54 | `"<x>-<y>"` with no other `'-'` is accepted if and only if both sides parse as ints and the first is not above the second, and the range is then those two ints |
| `RangeParser.NoSeparatorRejected` | MathGen/Program.cs:49-51 | an input without `'-'` is rejected |
| `RangeParser.TwoSeparatorsRejected` | MathGen/Program.cs:49-51 | an input with two or more `'-'` is rejected |
| `RangeParser.LeadingMinusRejected` | MathGen/Program.cs:49-50 | an input starting with `'-'` is rejected |
| `RangeParser.ParseFormattedRange` | MathGen/Program.cs:40-55 | `"<min>-<max>"` printed from any `0 <= min <= max <= int.MaxValue` parses back to exactly that range |
| `RangeParser.ReversedRangeRejected` | MathGen/Program.cs:50 | `"5-3"` is rejected because min > max |
| `SumGenerator.Render` | MathGen/Program.cs:84-99 | each of the four interpolated problem strings `"a op b = "` reads back as its operands and operation |
| `SumGenerator.Attempt` | MathGen/Program.cs:76-101 | a kept problem carries the drawn operands and meets its operation's constraint; with in-range draws it is valid for the choice and range; any other choice keeps nothing |
| `SumGenerator.Accepted` | MathGen/Program.cs:74-107 | the problems kept over a run of passes never outnumber the passes |
| `SumGenerator.AcceptedGrowth` | MathGen/Program.cs:74-107 | from one pass to a later one the list never shrinks and grows by at most one item per pass |
| `SumGenerator.AcceptedSatisfy` | MathGen/Program.cs:76-106 | with in-range draws, every kept problem is valid for the choice and range |
| `SumGenerator.GenerateSums` | MathGen/Program.cs:57-110 | the result is the list `Produced` gives for the draws consumed; it has exactly `count` items unless the draws ran out first; the loop stopped at the first pass that filled the list; every item is a valid problem for the choice and range |
| `SumGenerator.ProducedFacts` | MathGen/Program.cs:80-106 | every kept `"a + b = "` has a, b in [min, max] and a + b <= max; every `"a - b = "` has a - b >= min; every `"a * b = "` has a * b <= max; every `"a / b = "` has b != 0, a % b == 0 and a / b >= min |
| `SumGenerator.AcceptedAnswerInRange` | MathGen/Program.cs:82-99 | for ranges with min >= 0, the answer of every kept problem lies in [min, max], and a kept division is exact |
| `SumGenerator.AddSubAcceptsIff` | MathGen/Program.cs:80-90 | choice "1" can keep some draw in range if and only if 2 * min <= max |
| `SumGenerator.MulDivKeptBound` | MathGen/Program.cs:91-101 | for min >= 0, a problem kept under choice "2" shows min * min <= max |
| `SumGenerator.MulDivAcceptsIff` | MathGen/Program.cs:91-101 | choice "2" can keep some draw in range if and only if min * min <= max |
| `SumGenerator.NothingAcceptedNothingProduced` | MathGen/Program.cs:74-107 | when no draw in range can be kept, the list stays empty however many passes run, so with count > 0 the loop never ends |
| `SumGenerator.OtherChoiceNeverGrows` | MathGen/Program.cs:63-106 | for a choice other than "1" or "2" the list stays empty whatever is drawn |
| `SumGenerator.RepeatedDrawCompletes` | MathGen/Program.cs:74-107 | when some draw is kept, `count` copies of it fill the list to exactly `count` items |
| `SumGenerator.StallingRanges` | MathGen/Program.cs:80-101 | choice "1" with range 5-5 or 3-5, and choice "2" with range 2-2, keep nothing |
| `SumGenerator.SingleValueMulDivFinishes` | MathGen/Program.cs:91-101 | with range 1-1, choice "2" keeps `"1 * 1 = "` or `"1 / 1 = "` on every pass |
| `SumGenerator.AttemptAsWritten` | MathGen/Program.cs:80-101 | the loop body with the sum and product wrapping in 32-bit int, for int operands from a range `TryParseRange` accepts: a kept problem carries the drawn operands |
| `SumGenerator.ProductOverflowKept` | MathGen/Program.cs:93 | as written, range 0-70000 keeps `"65536 * 65536 = "`, whose product exceeds max |
| `SumGenerator.SumOverflowKept` | MathGen/Program.cs:82 | as written, range 0-2147483646 keeps `"2000000000 + 2000000000 = "`, whose sum exceeds max |
| `SumGenerator.AsWrittenAgreesOnSmallRanges` | MathGen/Program.cs:82-95 | for 0 <= min and max <= 46340 the wrapping loop body keeps exactly what the model keeps |
| `PageLayout.Paginate` | MathGen/Program.cs:118-140 | the tables the loops build: there is always at least one, even for an empty list; `PaginateCells` and `PaginateAt` state their contents |
| `PageLayout.RowsCells` | MathGen/Program.cs:129-140 | reading one page's rows cell by cell, left then right, gives back the page's items |
| `PageLayout.PaginateCells` | MathGen/Program.cs:127-140 | reading all pages cell by cell gives back exactly the list, with nothing dropped, duplicated or reordered |
| `PageLayout.RowsAt` | MathGen/Program.cs:129-139 | `Rows`, the rows of one page: a page of t items has ceil(t / 2) rows, and row k holds items 2k and 2k + 1 |
| `PageLayout.PaginateLength` | MathGen/Program.cs:118-149 | there are ceil(n / 40) tables, and one for an empty list |
| `PageLayout.PaginateAt` | MathGen/Program.cs:127-140 | page p holds items 40p .. min(40p + 40, n) - 1 |
| `PageLayout.PageShape` | MathGen/Program.cs:129-139 | page p has at most 20 rows; row k is `(sums[40p + 2k], sums[40p + 2k + 1])`; the right cell is missing exactly when 40p + 2k + 1 == n |
| `PageLayout.FillPage` | MathGen/Program.cs:129-140 | the rows the inner loop adds for the page starting at item i are exactly page i / 40 of `Paginate(sums)` |
| `PageLayout.CreateLayout` | MathGen/Program.cs:118-150 | the tables the nested loops build are `Paginate(sums)`, and the page breaks number one fewer than the tables |
| `PageLayout.PageBreakCount` | MathGen/Program.cs:142-149 | the number of page breaks is ceil(n / 40) - 1, zero exactly when n <= 40 |
| `PageLayout.EightyProblems` | MathGen/Program.cs:127-149 | 80 problems make two pages of 20 rows each |
| `PageLayout.ProgramDocument` | MathGen/Program.cs:127-149 | the 20 * 40 problems the program generates make 20 pages of 20 rows each |
| `FontResolver.EqualsIgnoreCase` | MathGen/CustomFontResolver.cs:9 | `Equals(..., StringComparison.OrdinalIgnoreCase)`: two names are equal exactly when they are equal once both are upper-cased |
| `FontResolver.ResolveTypeface` | MathGen/CustomFontResolver.cs:7-24 | the result is always one of `cour.ttf`, `courbd.ttf`, `couri.ttf`, `courbi.ttf` |
| `FontResolver.CourierStyleRoundTrip` | MathGen/CustomFontResolver.cs:9-19 | for Courier, the chosen file records both flags: `cour.ttf` for neither, `courbi.ttf` for both, `courbd.ttf` for bold only, `couri.ttf` for italic only |
| `FontResolver.CourierStylesDistinct` | MathGen/CustomFontResolver.cs:11-17 | the four Courier styles get four different files |
| `FontResolver.OtherFamilyIsRegular` | MathGen/CustomFontResolver.cs:22-23 | any family other than Courier gets `cour.ttf` whatever the flags |
| `FontResolver.CaseInsensitiveFamily` | MathGen/CustomFontResolver.cs:9 | two family names equal up to case resolve alike |
| `FontResolver.CourierSpellings` | MathGen/CustomFontResolver.cs:9 | "courier", "COURIER" and "Courier" all match Courier; "Courier New" does not |

## Findings

| source | as written | input that shows it | evidently intended | confidence | as-written member | corrected member |
|---|---|---|---|---|---|---|
| MathGen/Program.cs:93 | `a * b <= max` is evaluated in unchecked 32-bit int, so a product past `int.MaxValue` wraps before the comparison | choice "2", range `0-70000`, a = b = 65536, heads: the product wraps to 0 and `"65536 * 65536 = "` is kept | keep a product only when the true product is at most max | medium: assumes the project does not turn on checked arithmetic, which C# leaves off by default; not executed | `SumGenerator.ProductOverflowKept` | `SumGenerator.AcceptedAnswerInRange` |
| MathGen/Program.cs:82 | `a + b <= max` is evaluated in unchecked 32-bit int, so a sum past `int.MaxValue` wraps negative | choice "1", range `0-2147483646`, a = b = 2000000000, heads: the sum wraps to -294967296 and `"2000000000 + 2000000000 = "` is kept | keep a sum only when the true sum is at most max | medium: as above; not executed | `SumGenerator.SumOverflowKept` | `SumGenerator.AcceptedAnswerInRange` |

The loop body as written is `SumGenerator.AttemptAsWritten`. The rest of the
model uses `SumGenerator.Attempt`, which compares the exact sum and product.
`SumGenerator.AsWrittenAgreesOnSmallRanges` shows the two agree whenever
max <= 46340, where neither a sum nor a product can leave the int range.

## Left out

- Console I/O in `Main` is not modelled: the prompts, the `ReadLine` calls, the null-input check and the messages. A null line is `None` in `TryParseRange`.
- `System.Random` is not modelled. `GenerateSums` takes the draws as a sequence instead. `rand.Next(min, max + 1)` is modelled by the requirement that every drawn operand lies in [min, max], and `rand.Next(2) == 0` by the `heads` flag. No distribution or probabilistic termination property is stated.
- SumGenerator.GenerateSums: the number of draws bounds the number of passes. When the draws run out before the list is full, the source would keep looping; the model returns the partial list and reports that every draw was used.
- For choices other than "1" and "2", the source draws no coin. The `heads` field of a draw is then unused.
- The `operations` list built at MathGen/Program.cs:61-72 is never used by the source, so it is not modelled.
- `rand.Next(min, max + 1)` with max == int.MaxValue would overflow `max + 1` and throw. The model does not represent that exception.
- Numerals.ParseInt: models `int.TryParse` with NumberStyles.Integer for ASCII digits. It does not model culture-specific sign symbols, non-ASCII white space or digits, or trailing NUL characters.
- FontResolver.ResolveTypeface: a null family name, on which the source throws, is not represented.
- FontResolver.EqualsIgnoreCase: upper-cases only the ASCII letters. Non-ASCII case mappings of ordinal case-insensitive comparison are not modelled.
- `TryParseRange` also sets its out parameters when it returns false. The caller discards them, so the model does not keep them.
- The MigraDoc document is reduced to its tables and a page-break count. Not modelled: Letter page format, 9 cm columns, font size 18, zero borders, and the blank spacer paragraph under each cell. `sumsPerColumn` is never used by the source.
- `SavePdfDocument` (PDF rendering and file writing) and `CustomFontResolver.GetFont` (reading font files from the system fonts folder) are I/O and are not modelled.
