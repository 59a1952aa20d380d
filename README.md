# Bank statement parser — a verified model

This project models the parsing engine behind the statement converter's
`/parse` endpoint (`main.py`). The engine turns the words of a PDF bank
statement into transaction rows. Each word arrives with its position on the
page. The engine works in six steps:

1. It detects the bank and account type from the page text.
2. It looks up that layout's ruleset in the `PARSING_RULES` table (`rules.py`).
3. It rebuilds text lines from the word positions.
4. It cuts the lines into one block per dated entry.
5. It routes every token of a block into a description, debit, credit or balance
   column by its x position, and normalises the amounts.
6. It reconciles each row against the running balance, and overrides an amount
   that disagrees with the balance movement by more than a cent.

Units and representations:
- Coordinates are whole numbers of tenths of a point. The table's zone
  `(95, 305)` is therefore `Zone(950, 3050)`, and `round(y0, 1)` is the identity.
- Amounts are whole numbers of cents.
- Strings are `seq<char>`.
- The ways a parse fails are values of `Errors.ParseError`. The handler
  itself rejects with HTTP 400:
  - `UndetectedDocument`
  - `UnsupportedConfiguration(key)`
  - `NoTransactions`

  One more value, `MalformedAmount(text)`, stands for a token `float()`
  rejects. The handler does not catch that error, so it surfaces as an
  HTTP 500 (`Errors.Status`).

Modules, following the program's stages:

| module | models |
|---|---|
| `Text` | `split`, `join`, `strip`, `lower`/`upper`, `replace` and digit strings |
| `Patterns` | `datetime.strptime`, `strftime("%Y-%m-%d")` and the block-header regular expression, as a small backtracking matcher |
| `Rules` | the `PARSING_RULES` table |
| `Amounts` | `normalize_amount_string`; `float()` and `%.2f` on cents |
| `Lines` | `extract_lines_by_y` |
| `Segmentation` | the block-cutting loop |
| `Classification` | the column-zone loop |
| `Reconciliation` | the per-block reconciliation loop |
| `Statement` | the handler from detection to the final result |

The loops of the handler are methods:
- `ExtractLinesByY` and `GroupByY`;
- `MakeBlocks`;
- `ClassifyBlock`, `ClassifyLine` and `PlaceToken`;
- `ReconcileBlocks`, `ReconcileRow` and `ReconcileAmounts`;
- `DetectType`, `CollectLines` and `ParsePdf`.

Each method is proved equal to a specification function, and the lemmas
state the properties of those functions.

`is_date` in the source tries its formats with `strptime`. Here it is
`Patterns.IsDate`, which tries the same formats with the regular expressions
`strptime` builds for them (`%d`, `%m`, `%Y`, blanks as `\s+`), with one
alternative left out. CPython's `%d` also accepts a space followed by a
digit (` [1-9]`). That alternative cannot apply here: both callers turn
every space into `/` before parsing. `IsDate` also checks the calendar:
day in month, leap years, and a missing year defaulting to 1900. Segmentation
and classification take the date test as a parameter `isDate: string -> bool`.
The handler passes them `Reconciliation.DateTest(rules)`.

## Model

| member | source | states |
|---|---|---|
| Lines.ExtractLinesByY | main.py:25-47 | the lines built by grouping on y, sorting the keys and sorting each group by x are exactly `LinesByY(words)` |
| Lines.GroupByY | main.py:30-34 | after the loop every y key maps to the entries of the words with that y, in input order, and to nothing else |
| Lines.SortedKeys | main.py:37 | the keys are strictly increasing and are exactly the y values of the words |
| Lines.InsertKey | main.py:37 | inserting a key keeps the list strictly increasing and adds exactly that key |
| Lines.SortByX | main.py:38 | the entries come out in non-decreasing x and are a permutation of the input |
| Lines.InsertByX | main.py:38 | inserting one entry keeps x order and adds exactly that entry to the multiset |
| Lines.SortByXStable | main.py:38 | the sort is stable: entries sharing an x keep their input order |
| Lines.LinesIncreasing | main.py:37-45 | line y keys are strictly increasing |
| Lines.LineOrder | main.py:38-43 | each line's `xmap` is sorted by x, with equal-x words in their input order |
| Lines.LineContents | main.py:38-44 | a line holds exactly the words of its y key, is never empty, and its `positions` are the x values of its `xmap` |
| Lines.WordPlaced | main.py:31-45 | every input word appears in the line of its own y key |
| Lines.EveryWordOnce | main.py:31-45 | the lines hold as many entries as there are input words, so no word is duplicated or lost |
| Lines.NoWordsNoLines | main.py:27-28 | there are no lines exactly when there are no words |
| Lines.LineTextWords | main.py:41 | splitting a line's text gives back its words and its first word is the leftmost token |
| Text.Split | main.py:114 | `str.split()` yields only non-empty words free of whitespace |
| Text.SplitJoin | main.py:41 | splitting words joined by single spaces gives back those words |
| Text.FirstWordOfJoin | main.py:114 | the first word of joined words is the first of them |
| Text.StripJoin | main.py:160 | `strip` leaves joined words unchanged |
| Text.TrimStart | main.py:160 | the result is a suffix that starts with a non-blank, and only blanks were removed |
| Text.TrimEnd | main.py:160 | the result is a prefix that ends with a non-blank, and only blanks were removed |
| Text.ReplaceChar | main.py:61 | replacing keeps the length; each position holds the new character where the old one stood and is unchanged elsewhere, so none of the old character remains |
| Text.RemoveChar | main.py:60 | removing leaves no copy of the character and introduces nothing new |
| Text.Strip | main.py:160 | the result neither starts nor ends with whitespace, and the input is the result with only whitespace before and after it |
| Text.JoinEnds | main.py:41 | words joined by single spaces start with the first word's first character and end with the last word's last character |
| Text.Lower | main.py:78 | lower-casing keeps the length, leaves no capital letter, moves each capital to its small letter and keeps every other character |
| Text.Upper | main.py:87 | upper-casing keeps the length, leaves no small letter, moves each small letter to its capital and keeps every other character |
| Text.LowerIgnoresCase | main.py:78-79 | lower-casing an upper-cased text gives the lower-cased text, and lower-casing twice changes nothing |
| Text.ContainsAt | main.py:79 | `t in s` holds exactly when `t` occurs in `s` at some index |
| Text.PadDigitsSound | main.py:134 | zero padding to a width gives that many digits spelling the same number |
| Patterns.Strptime | main.py:52 | a parsed date is a valid calendar date |
| Patterns.HeaderDate | main.py:128-136 | a block's date, when one is read, is a valid calendar date |
| Patterns.IsoDateShape | main.py:134 | the output date is `YYYY-MM-DD`: ten characters, dashes at 4 and 7, digits spelling the year, month and day |
| Patterns.DmyRoundTrip | main.py:133 | `%d/%m/%Y` parses a rendered `dd/mm/yyyy` back to the same date |
| Patterns.PrepareDmy | main.py:52 | turning ` ` and `-` into `/` maps any of the three separators to the slashed form |
| Patterns.DmyIsDate | main.py:49-56 | any valid date written `dd/mm/yyyy`, `dd-mm-yyyy` or `dd mm yyyy` is a date under the ABSA formats |
| Patterns.HeaderDateDmy | main.py:128-134 | a first line starting with a rendered date (then a non-digit) yields exactly that date |
| Patterns.Match | main.py:129 | on success, the unread rest is a suffix of the input |
| Patterns.MatchFiveSound | main.py:129 | whatever a number-separator-number-separator-number pattern matches is three digit fields of accepted lengths and values with accepted separators, captured in order, followed by the rest |
| Patterns.DmySound | main.py:52 | whatever `%d/%m/%Y` accepts is the whole text: a 1-2 digit day, `/`, a 1-2 digit month, `/`, a 4-digit year, spelling the returned date |
| Patterns.DmyComplete | main.py:52 | every valid date so spelled, padded or not (`1/2/2024`), is accepted and returned |
| Patterns.DmyExact | main.py:52 | `%d/%m/%Y` returns `d` exactly when `d` is valid and the text spells it with slashes |
| Patterns.PrepareSpells | main.py:52 | after the blank and dash replacement, a slashed spelling is exactly a spelling with `/`, `-` or space separators |
| Patterns.IsDateSomeFormat | main.py:49-56 | `is_date` holds exactly when some format parses the prepared text |
| Patterns.IsDateDmy | main.py:49-56 | under the ABSA formats a text is a date exactly when it is a valid date spelled day, month, four-digit year with `/`, `-` or space separators |
| Patterns.HeaderDateSound | main.py:128-134 | a block date read under the ABSA formats is spelled at the start of the first line |
| Patterns.HeaderDateComplete | main.py:128-134 | a first line starting with a spelled valid date yields that date, whatever follows |
| Patterns.HeaderDateExact | main.py:128-134 | the block date under the ABSA formats is `d` exactly when the first line starts with a spelling of valid `d` |
| Patterns.NoMatchWithoutSpace | main.py:52 | a pattern with a blank never matches a text without whitespace |
| Patterns.SpacedFormatsNeverDate | main.py:49-56 | a text whose only blanks are spaces is never a date under formats that all contain a blank, because the blanks were turned into `/` first |
| Rules.GetRules | rules.py:2-49 | a lookup succeeds exactly for the two keys of the table |
| Rules.ParsingRulesWellFormed | rules.py:2-49 | every ruleset has non-empty, ascending, non-overlapping zones, distinct separators, `Y`/`N` flags and at least one date format |
| Amounts.StripSeparators | main.py:60 | the result has no ASCII, no-break, thin or narrow no-break space and no thousands separator, and only characters of the input |
| Amounts.NormalizeAmount | main.py:58-64 | no space variant remains; no thousands or decimal separator remains unless it is `.`; only input characters or `.` appear; the text never grows |
| Amounts.NormalizeDecimal | main.py:58-64 | the decimal separator becomes `.` in place: a whole part and a fraction without it normalise to the whole part stripped of spaces and thousands separators, `.`, and the fraction stripped the same way (so `800,00` under `,` gives `800.00`) |
| Amounts.NormalizeFormatted | main.py:58-64 | a rendered amount is left as it is by any format with `.` as decimal separator and a thousands separator that is not a digit, `-` or `.` |
| Amounts.NormalizeKeepsDigits | main.py:58-64 | normalisation keeps the digits of the amount, in order |
| Amounts.NormalizeIdempotent | main.py:58-64 | without trailing minus, normalising twice equals normalising once |
| Amounts.AbsaNormalizeIdempotent | main.py:58-64 | under the ABSA format (`" "`, `"."`, no trailing minus) normalisation is idempotent |
| Amounts.NormalizeTrailingMinus | main.py:62-63 | with trailing minus on, a trailing `-` moves to the front; with it off, it stays at the end |
| Amounts.StripGrouped | main.py:60 | a thousands separator between two groups is removed and the groups are joined |
| Amounts.NegativeExample | rules.py:36-38 | under the Standard Bank format, `800,00-` normalises to `-800.00` |
| Amounts.GroupedExample | rules.py:36-38 | under the Standard Bank format, `40.929,08` normalises to `40929.08` |
| Amounts.ParseCents | main.py:156-158 | an amount is read only from non-empty text, and a negative one only from text starting with `-` |
| Amounts.FormatCents | main.py:181-182 | formatting has a leading `-` exactly for negative amounts, ends in a digit, and holds only digits and `.` after the first character |
| Amounts.ParseFormatCents | main.py:181-182 | reading back a formatted amount gives the same number of cents |
| Segmentation.MakeBlocks | main.py:109-123 | the loop's blocks are exactly `Segment(lines, isDate, threshold)` |
| Segmentation.SegmentFlattens | main.py:112-123 | concatenating the blocks gives the input lines in order, minus those starting left of the threshold whose first word is not a date |
| Segmentation.SegmentShape | main.py:117-123 | no block is empty; every block after the first starts with a dated line; no dated line occurs inside a block |
| Segmentation.ScanInvariantHolds | main.py:112-121 | at every point of the loop the closed blocks and the current block partition the lines kept so far |
| Segmentation.NoDatesOneBlock | main.py:117-123 | without any dated line all kept lines form one block, or none when nothing is kept |
| Classification.Route | main.py:147-154 | a token goes to description exactly when in its zone; an ignored token lies in no zone and left of the balance zone |
| Classification.RouteExact | main.py:147-154 | with ordered zones each column takes exactly the x values of its half-open zone, balance any x from its lower bound, and tokens in the gaps are ignored |
| Classification.ClassifyBlock | main.py:143-154 | the nested loop's fields are exactly `Classify(block, zones, isDate)` |
| Classification.ClassifyLine | main.py:144-154 | after line `i` the fields are the classification of all tokens up to and including that line |
| Classification.PlaceToken | main.py:147-154 | one token is added to the one field its x selects |
| Classification.TokenStep | main.py:145-146 | only the first token of the first line, and only when it is a date, is skipped |
| Classification.DescriptionInOrder | main.py:147-148 | the description parts are the description-zone words in reading order |
| Classification.LastTokenWins | main.py:149-154 | a debit, credit or balance field is empty exactly when no token fell in it, and otherwise holds the last such token |
| Classification.DescriptionJoined | main.py:160 | the description is its parts joined by single spaces |
| Reconciliation.KindOf | main.py:184 | the type is credit exactly for a positive amount and debit exactly for a negative one |
| Reconciliation.Reconcile | main.py:161-183 | the row keeps its date and description; the balance is the stated one, else the carried one, else 0; the error is empty exactly when there is no carried balance or the stated amount matches the movement to a cent, and then the amount is the stated one; otherwise the amount is the movement itself and the error is `Mismatch(movement, stated)`; the type follows the final amount |
| Reconciliation.ReconcileAmounts | main.py:161-176 | the handler's branches compute exactly `Reconcile` |
| Reconciliation.ReconcileOverride | main.py:170-174 | a mismatch of more than a cent replaces the amount by the balance movement and records `Expected <movement>, got <stated>` |
| Reconciliation.ReconcileKeep | main.py:161-176 | otherwise the stated amount stands and no error is recorded |
| Reconciliation.MismatchReadsBack | main.py:173 | the diagnostic is `Expected `, the movement, `, got ` and the stated amount, with nothing else, and both amounts read back as the same numbers of cents |
| Reconciliation.ParseAmount | main.py:156-158 | an absent or empty token gives no amount; a non-empty token succeeds exactly when its normalised text reads as cents, and then gives those cents; otherwise it fails with `MalformedAmount` of the normalised text |
| Reconciliation.ParseAmountRoundTrip | main.py:156-158 | a token rendered with two decimals reads back as the same cents under any format with decimal separator `.` and a thousands separator that is not a digit, `-` or `.` |
| Reconciliation.AbsaAmountRoundTrip | main.py:156-158 | under the ABSA format every rendered amount reads back as itself |
| Reconciliation.BlockAmounts | main.py:156-158 | the three tokens convert exactly when each of debit, credit and balance converts, giving their values; otherwise the first failure in that order is the result |
| Reconciliation.RowOf | main.py:127-186 | a block without a readable leading date yields no row; a dated block yields a row exactly when its amounts convert, otherwise their failure; the row has the ISO form of the header date, the block's description and the stated-or-carried balance, keeps the stated amount when it agrees with the movement and otherwise records `Mismatch`; it follows the carried balance |
| Reconciliation.ReconcileRow | main.py:127-186 | the loop body for one block computes exactly `RowOf` |
| Reconciliation.ReconcileBlocks | main.py:125-187 | the loop succeeds exactly when `ProcessBlocks` does, with the same rows or the same error |
| Reconciliation.ChainedAt | main.py:170-176 | every row follows the balance of the row before it, and the first row follows no balance |
| Reconciliation.AppendConsistent | main.py:176-178 | appending a row that follows the carried balance keeps the ledger consistent, with that row's balance carried |
| Reconciliation.ProcessBlockConsistent | main.py:127-186 | handling one block keeps the carried balance equal to the last row's balance and every row reconciled |
| Reconciliation.RunningBalance | main.py:125-186 | after all blocks the carried balance is the last row's balance and every row is reconciled against its predecessor |
| Reconciliation.RowsReconciled | main.py:161-184 | the first row has no diagnostic; every later row's amount moves the previous row's balance to its own within a cent, and exactly when the row carries a diagnostic; its type follows the sign of its amount |
| Reconciliation.SkippedBlock | main.py:128-136 | a block without a readable leading date adds no row and leaves the carried balance untouched |
| Reconciliation.DatedBlock | main.py:128-186 | a dated block appends exactly one row, dated `YYYY-MM-DD` from its header, after the earlier rows |
| Reconciliation.RowsAppended | main.py:127-186 | there are never more rows than blocks |
| Reconciliation.DatedBlocks | main.py:128-131 | the number of dated blocks is at most the number of blocks |
| Reconciliation.RowsOfBlock | main.py:127-186 | one step of the loop adds a row for a dated block and none for any other |
| Reconciliation.OneRowPerDatedBlock | main.py:127-186 | a completed loop has exactly one row per block whose first line starts with a date |
| Reconciliation.OnlyAmountsFail | main.py:156-158 | the loop can fail only on an unreadable amount |
| Reconciliation.AmountFailureStops | main.py:156 | an unreadable debit in a dated block stops the parse with that error |
| Statement.Detect | main.py:77-82 | a detected page always yields the ABSA bank and the cheque account statement type |
| Statement.DetectFinds | main.py:77-85 | detection succeeds exactly when some page names both, ignoring case |
| Statement.DetectType | main.py:77-82 | the loop sets both names or neither, and agrees with `Detect` |
| Statement.CollectLines | main.py:104-107 | the lines of all pages, page by page, are exactly `AllLines(pages)` |
| Statement.ConfigKey | main.py:87 | the key is the bank, `_`, then the account type: its length is the sum plus one, no blank follows the `_`, and no small letter remains |
| Statement.DetectedKeyIsAbsa | main.py:87-88 | the key built from the detected names is `ABSA_CHEQUE_ACCOUNT_STATEMENT`, and the table has a ruleset for it |
| Statement.NeverUnsupported | main.py:87-91 | the unsupported-configuration error never occurs; a detected document is parsed with the ABSA ruleset |
| Statement.Undetected | main.py:84-85 | a document no page of which names both is rejected as undetected |
| Statement.Transactions | main.py:109-189 | the blocks are those of `Segment` and none is empty; a failing block loop gives its error; a completed one succeeds exactly when some block is dated, with the loop's rows, one per dated block, and otherwise fails with `NoTransactions` |
| Statement.ParseStatement | main.py:73-189 | an undetected document fails with `UndetectedDocument`; a detected one is parsed with the ABSA ruleset over the lines of all its pages; a successful parse has at least one row |
| Errors.Status | main.py:85-91 | the status is 400 or 500, and 500 exactly for the uncaught amount conversion error |
| Errors.DetailTellsApart | main.py:85-91 | two errors with the same message are the same error, except that every unreadable amount gives the same generic message |
| Statement.ParsePdf | main.py:73-189 | the handler's steps compute exactly `ParseStatement` |
| Statement.ParsedRowsReconcile | main.py:125-189 | every row of a successful parse is reconciled against the one before it |
| Statement.StandardBankNeverDates | rules.py:40-44 | under the Standard Bank formats no line with ordinary blanks is a date, and no block header date is read |
| Statement.StandardBankSkipsAll | main.py:127-136 | with the Standard Bank ruleset every block is skipped, so no row is ever produced |

## Left out

- PDF reading (PyMuPDF): the pages are given as their plain text plus their words with positions. `Lines.Word` keeps only x0, the y key and the text, the fields the parser reads.
- The web layer: the FastAPI app, CORS, the upload, the `preview` switch and the JSON and CSV responses (main.py:3-23, 66-71, 191-206). The handler's result is `Result<seq<Transaction>, ParseError>`. `Errors.Status` and `Errors.Detail` give each error's HTTP status and message.
- Unicode NFKD normalisation of amounts: amounts are taken as already normalised.
- `lower()`, `upper()` and `\d` act on ASCII letters and digits only.
- Amounts.ParseCents: reads an optional `+` or `-`, digits, and an optional `.` with at most two digits. `float()` would also accept exponents, `_` groupings, `inf`/`nan` and more decimals. Such tokens are reported as `MalformedAmount` here.
- Reconciliation.Reconcile: amounts are exact cents and the tolerance is "more than one cent". The floating-point subtraction and `round` of the source, and its `-0.00` output, are not modelled. Neither is a 1-cent difference that a float computes as slightly over 0.01.
- Errors.ParseError: `MalformedAmount` carries the normalised text. The source lets the `ValueError` of `float()` escape instead.
- `strftime("%Y")` for years below 1000 (header text such as `01/01/0999`): `IsoDate` pads the year to four digits. The C library's `%Y` may print it without padding.
- The `year_optional` and `multiline` settings are in the table but are not read by the parser (the second is read at main.py:98 and then unused). They are modelled as data only.
- The `date_x_threshold` default of 95: both rulesets set it, so the default is never taken.
