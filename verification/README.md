# CSV filter and aggregate, modelled in Dafny

The modelled program is a command-line tool. It reads a CSV file into a list
of rows, where each row maps a column name to its cell text. It can then keep
the rows that meet a condition such as `price>70`, and it can reduce one
column with `avg`, `min` or `max`. It prints the rows as an aligned text
table, or it prints the single aggregate value. This project models the core
of that tool:

- parsing of the condition (`column` then one of `>`, `<`, `=` then an operand);
- parsing of the aggregate call (`func(column)`);
- row filtering, which compares numerically when the operand reads as a
  number and as text otherwise;
- aggregation, which is strict: a non-numeric cell is an error;
- the layout of the printed table, modelled as the list of lines it prints.

A row is a `map<string, string>` and a table is a sequence of rows. Every
error the program raises becomes a `Failure` of a `Result`. The error keeps
the kind of failure and the text it names, not the message. Four kinds are
told apart. `InvalidExpression` covers three raises: the bad-condition message
(main.py:36), the bad-aggregate message (main.py:75), and the unpacking
`ValueError` when the text has no `(` (main.py:76). The other kinds are a
missing column, a non-numeric cell and an unknown function. Python's
`float(text)` is modelled by `Numbers.ParseNum`, a decimal numeral grammar with
exact rational values. The grammar is an optional `+` or `-`, then ASCII digits `0`
to `9`, then optionally `.` and more such digits, with at least one digit in
all.
`round(x, 2)` is modelled by `Numbers.Round2`, which rounds exactly to the
nearest hundredth with ties to even. Python's ordering of `str` values is
`Lex.Less`, the code-point lexicographic order.

Modules:

- `Wrappers`: `Option` and `Result`.
- `Strings`: first-occurrence search, repetition and joining.
- `Numbers`: numerals and rounding.
- `Lex`: string order.
- `Seqs`: an order-preserving filter and its characterisation.
- `Tables`: rows, tables and errors.
- `Expressions`: the two parsers.
- `Filtering`, `Aggregation` and `Layout`: the three operations.
- `Scenarios`: the program's own example table (Apple, Banana, Orange, Milk)
  worked through every operation.

## Model

| member | source | states |
|---|---|---|
| Expressions.ParseFilter | main.py:28-36 | Parsing succeeds exactly when the text holds one of `>`, `<`, `=`. On success, the column holds no operator character, so the split is at the first one, and column, operator and operand spell the text back. Otherwise the error is an invalid-expression error naming the text. |
| Expressions.ParseFilterInverse | main.py:28-36 | Every condition whose column has no operator character is recovered exactly by parsing its text, so the parser is the inverse of printing a condition. |
| Expressions.ParseAgg | main.py:73-77 | Parsing succeeds exactly when the text ends in `)` and contains `(`. On success, `func(column)` spells the text back with the split at the first `(`. Otherwise the error is an invalid-expression error naming the text. |
| Expressions.ParseAggInverse | main.py:73-77 | Every call whose function name has no `(` is recovered exactly by parsing `func(column)`. |
| Strings.FindFirst | main.py:30-31 | The search returns the first index whose element satisfies the test. It finds nothing exactly when no element does. |
| Filtering.ResolveMode | main.py:45-49 | The comparison is numeric exactly when the operand reads as a number, and then it uses that number. Otherwise it compares against the operand text. |
| Filtering.ApplyFilter | main.py:39-70 | An empty table is returned unchanged. A column missing from the first row is a column-not-found error. Otherwise the result holds exactly the rows that satisfy the condition: it is a subsequence of the input in input order, every kept row satisfies it, and the number kept equals the number that satisfy it. |
| Filtering.ApplyFilterMembership | main.py:52-69 | A row of the input appears in the result if and only if it satisfies the condition. |
| Filtering.NumericModeDropsNonNumbers | main.py:54-58 | With a numeric operand, a row whose cell is not a number is left out silently, not reported as an error. |
| Filtering.NumericModeComparesNumbers | main.py:54-69 | With an operand that reads as the number `b`, a row is kept if and only if its cell reads as a number `v` and `v` compares with `b` under the chosen operator. |
| Filtering.TextModeComparesText | main.py:60-69 | With a non-numeric operand, a row is kept if and only if its cell text compares with the operand text under the chosen operator, even when the cell holds a number. |
| Filtering.ApplyFilterUniform | main.py:51-70 | The filtered rows keep the column set of the input. |
| Filtering.ApplyFilterIdempotent | main.py:39-70 | Filtering the result again with the same condition returns the same result. |
| Seqs.FilterSelectsExactly | main.py:51-70 | The order-preserving filter is a subsequence, all of its elements pass the test, and it holds as many elements as pass the test. |
| Seqs.SelectionIsFilter | main.py:51-70 | Any sequence with those three properties is the filter itself, so that description determines the result uniquely. |
| Seqs.FilterMembership | main.py:64-69 | An element of the input is in the filter result exactly when it passes the test. |
| Seqs.FilterIdempotent | main.py:51-70 | Filtering twice with the same test is the same as filtering once. |
| Lex.LessIsLexicographic | main.py:66-68 | The recursive string comparison holds in both directions exactly when the first string is a proper prefix of the second, or is smaller at the first position where they differ. |
| Lex.LessIrreflexive | main.py:66-68 | No string is less than itself. |
| Lex.LessTransitive | main.py:66-68 | The string order is transitive. |
| Lex.LessTotal | main.py:64-68 | Any two distinct strings are ordered one way or the other. |
| Numbers.ParseNum | main.py:46 | Models `float()` at main.py:46, 56 and 89, returning `None` where Python raises `ValueError`. Its contract is stated by `ParseNumeral` and `ParseNumReadsNumeral`, which together say exactly which texts read as numbers and what value each gives. |
| Numbers.ParseNumeral | main.py:46 | Every numeral reads back as the value it denotes. This holds with or without a sign, and with or without a point and fractional digits. A fraction such as `-3.25` gives its exact value, and `5.` and `.5` read as five and one half. |
| Numbers.ParseNumReadsNumeral | main.py:56 | Conversely, text reads as a number only when it is the spelling of such a numeral, and then it gives that numeral's value. With `ParseNumeral` this pins down both when parsing succeeds and what it returns. |
| Numbers.ParseNumOfNat | main.py:46 | The decimal spelling of a natural number, with or without a leading `-`, reads back as that number. This is the inverse of spelling a number. |
| Numbers.ParseNumOnlyNumerals | main.py:56 | Text that reads as a number has a digit and only digits, signs and points, so a word such as a product name never reads as a number. |
| Numbers.Round2 | main.py:94 | The result is a whole number of hundredths within half a hundredth of the input. |
| Numbers.Round2Nearest | main.py:94 | No whole number of hundredths is closer to the input than the rounded value. |
| Numbers.Round2TiesToEven | main.py:94 | A value exactly halfway between two hundredths goes to the even one. |
| Numbers.Round2OfHundredths | main.py:94 | A value that already is a whole number of hundredths is unchanged. |
| Aggregation.Min | main.py:96 | The least value is one of the values and is no greater than any of them. |
| Aggregation.Max | main.py:98 | The greatest value is one of the values and is no less than any of them. |
| Aggregation.MeanBetweenMinMax | main.py:94 | The mean of a non-empty list lies between its least and its greatest value. |
| Aggregation.CollectNumbers | main.py:86-91 | Reading the column succeeds exactly when every cell is a number, and then it gives the cells' numbers in row order. Otherwise the error names the first non-numeric cell. |
| Aggregation.ApplyAgg | main.py:80-100 | The checks happen in this order. An empty table gives no value. Then a missing column is an error, then the first non-numeric cell is an error, and only then is the function name examined. With an all-numeric column the call succeeds exactly for `avg`, `min` and `max`, and any other name is an unknown-function error. A success on a non-empty table always carries a value. |
| Aggregation.NonNumericBeforeFunction | main.py:86-100 | A non-numeric cell is reported with the same error whatever the function name, known or unknown. |
| Aggregation.AggMinIsLeast | main.py:95-96 | `min` returns the number of one of the column's cells, and it is no greater than any of them. |
| Aggregation.AggMaxIsGreatest | main.py:97-98 | `max` returns the number of one of the column's cells, and it is no less than any of them. |
| Aggregation.AggAvgIsRoundedMean | main.py:93-94 | `avg` is the column's sum divided by its row count, rounded to hundredths. The exact mean lies between `min` and `max`, and the result is within half a hundredth of it. |
| Layout.ColumnWidth | main.py:113-121 | A column is at least as wide as its header and as each of its cells, and exactly as wide as one of them. |
| Layout.ColumnWidthIsMax | main.py:113-121 | The same width property, stated on the rows' own cells, so only rows that have the column count. |
| Layout.PadRight | main.py:124 | Padding keeps the text as a prefix, fills with spaces, and reaches the width unless the text is already longer. |
| Layout.RenderTable | main.py:103-131 | An empty table prints only the no-data line. Otherwise it prints a header line, a rule of dashes exactly as long as the header line, and one line per row. |
| Layout.LinesEqualLength | main.py:124-131 | The header line, the rule and every row line all have the same length. |
| Layout.ColumnsAligned | main.py:124-130 | In the header line and in every row line, column `j` occupies the same character positions. There it holds its header or cell padded with spaces, and the empty text stands for a missing cell. |
| Layout.TextShownAt | main.py:124-130 | Each header, and each row's cell for that column, appears in its line at the column's offset. |
| Layout.TextShown | main.py:124-131 | Each header occurs in the printed header line, and each cell occurs in its row's printed line. |
| Strings.JoinLength | main.py:124 | A joined line is as long as its parts plus one separator between each pair of parts. |
| Strings.JoinFieldAt | main.py:124 | Each part sits at its computed offset in the joined line. |
| Scenarios.ParseFilterExample | test_main.py:49-54 | `price>100` parses to column `price`, operator `>`, operand `100`. |
| Scenarios.ParseFilterRejectsNoOperator | test_main.py:56-59 | `price_100` has no operator and is rejected. |
| Scenarios.FilterPriceAbove70 | test_main.py:61-68 | On the example table, `price>70` keeps Apple, Orange and Milk, in that order. |
| Scenarios.FilterProductIsBanana | test_main.py:70-75 | `product=Banana` compares text and keeps only Banana. |
| Scenarios.FilterMissingColumn | test_main.py:77-81 | Filtering on the absent column `color` is a column-not-found error. |
| Scenarios.ParseAggExample | test_main.py:83-87 | `avg(price)` parses to function `avg` and column `price`. |
| Scenarios.ParseAggRejectsMissingParen | test_main.py:89-92 | `avg(price` lacks the closing parenthesis and is rejected. |
| Scenarios.AvgPrice | test_main.py:94-98 | The average price of the example table is 86.25. |
| Scenarios.MinPrice | test_main.py:100-104 | The least price is 50. |
| Scenarios.MaxPrice | test_main.py:106-110 | The greatest price is 120. |
| Scenarios.AggMissingColumn | test_main.py:112-116 | Aggregating the absent column `color` is a column-not-found error. |
| Scenarios.AggNonNumericColumn | test_main.py:118-122 | Averaging `product` fails on its first cell, `Apple`. |
| Scenarios.WhereAbove70Parses | test_main.py:127 | `price>70` parses to column `price`, operator `>`, operand `70`. |
| Expressions.CallText | main.py:169 | The label `func(column)` printed over an aggregate's value. `ParseAgg` spells its input back through it, and `ParseAggInverse` makes it the inverse of parsing. `FilterThenAverage` shows the label `avg(stock)` for the example run. |
| Scenarios.FilterThenAverage | test_main.py:124-131 | `price>70` followed by `avg(stock)` yields 51.67 under the label `avg(stock)`. |
| Scenarios.ProductsTableShown | test_main.py:133-141 | Printing the example table gives six lines. The header line contains `product`, `price` and `stock`, and the first row's line contains `Apple`. |
| Scenarios.WhereOnMissingColumn | test_main.py:150-155 | `invalid>100` parses, and filtering then fails because the column is missing. |
| Scenarios.AggUnknownFunction | test_main.py:157-162 | `sum(price)` parses, and aggregating then fails because the function is unknown. |

## Left out

- `parse_args`, `read_csv` and `main` (main.py:6-25 and 141-175) are argument handling, file I/O and the wiring of the steps with their error messages. The model starts from the rows that `csv.DictReader` would produce.
- `print_agg_result` (main.py:134-138) only prints a label, a rule and a value. The empty-table case of `ApplyAgg` is its `None`.
- The `--order-by` argument is declared (main.py:11) but never used.
- Numbers.ParseNum: models only the ASCII decimal part of Python's `float()` grammar. It leaves out `inf`, `nan`, exponents, surrounding whitespace, `_` separators and non-ASCII decimal digits, because the tool's data are plain ASCII decimals. Each omission changes results for text that uses it. For `price> 70` the operand is ` 70`. Python reads it as 70.0 and compares numerically. The model reads it as text and compares strings, so it keeps different rows. On the example table the model also keeps Banana, because `"50"` is greater than `" 70"` as text, while Python drops it because 50 is less than 70. Likewise Python reads `１００` (fullwidth digits) and `١٠٠` (Arabic-Indic digits) as 100.0, while the model does not read them as numbers. So `price>１００` compares text in the model and numbers in Python. A cell written with spaces or such digits is dropped by the model's numeric filter and rejected by its aggregation, while Python reads it as a number. The value is also different: `ParseNum` gives the exact decimal, while Python gives the nearest binary double. So `price=0.1` keeps a cell `0.10000000000000000001` in Python, because both texts round to the same double, and drops it in the model.
- Numbers.Round2: rounds the exact rational value. Python rounds a binary double, so values that a double cannot represent exactly may round differently at a tie.
- Aggregation.AggAvgIsRoundedMean: the sum is exact. Floating-point summation error is not modelled.
- Layout.RenderTable: takes the column order as a `headers` parameter, because a Dafny map carries no key order. The requirement `ListsKeys` says that `headers` lists the first row's keys once each. `str(value)` is the identity, since every cell is already text.
- Inputs are never modified, because every value in the model is immutable. The program also never modifies them.
- Expressions.ParseAgg: text that ends in `)` but has no `(` fails in the program when the one-element split result is unpacked into two names. The model reports this case as the same invalid-expression error it uses when the closing parenthesis is missing. The program's two messages differ, and the model keeps only the error's kind.
- Tables.Uniform: that every row has the first row's columns is an assumption of the model. `csv.DictReader` does not guarantee it. DictReader gives a short row every header key but fills the missing fields with `None`. It puts a long row's extra fields in a list under the key `None`. Cells are modelled as text, so `None` cells are not modelled, and a long row's extra key is excluded by `Uniform`, a precondition of filtering and aggregation. In the program, a `None` cell behaves differently by case:
  - Under `=` in text mode it is silently dropped, because `None == value` is false (main.py:64).
  - Under `>` or `<` in text mode it raises `TypeError` (main.py:66-68).
  - In `float()` it raises `TypeError` in numeric filtering (main.py:56) and in aggregation (main.py:89).
  - `print_table` prints it as `None` (main.py:118 and 130).
