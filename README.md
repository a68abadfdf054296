# cotizador — a Dafny model of the quote core

The cotizador is a Streamlit page for writing quotes (cotizaciones) in Chilean pesos. The user fills in item rows and asks the database for the next per-year quote number. The page then stores the quote and its items and hands out a one-page PDF with the item table, subtotal, discount, total and wrapped notes.

This project models the deterministic core of that program in Dafny:

- `utils.py`: the rounded line total `QuoteItem.line_total`, the peso rendering `money_clp`, and the total parser `to_decimal`.
- `pdf_generator.py`: what `build_quote_pdf_bytes` computes before drawing:
  - the item table and subtotal loop,
  - the discount and the total,
  - the greedy notes-wrapping loop.
- `db.py`: the per-year counter behind `next_quote_number`, the `"{year}-{seq:04d}"` number, and the rows `insert_quote` writes.
- `app.py`:
  - the loop that builds the items from the form rows,
  - the gates of the generate button,
  - the year check,
  - the session's number, seq and rows, with the assign, add, delete and generate transitions.

How the model represents the program:

- A Python `Decimal` is a Dafny `real`, the exact rational it denotes. A quantized amount is an `int`.
- Two rounding modes are defined in `Decimal`, and both are proved unique:
  - `RoundHalfUp` is `ROUND_HALF_UP`.
  - `RoundHalfEven` is the default-context `quantize`.
- `Decimal(str)` is `ParseDecimal`, which returns an `Option`. `None` stands for the exception `to_decimal` catches.
- Python's string operations live in `Text`: `str.isspace`, `strip`, `split()`, `split(sep)`, `" ".join`, `str(n)` and the `04d` padding.
- The font metric `c.stringWidth` is the parameter `width: string -> real`. The printable width is the parameter `maxWidth`.
- Whether the database is configured, reachable, and whether the insert succeeds are boolean parameters.

Modules, one per source file, plus the helpers:

- `Wrappers`: `Option`.
- `Text`: Python string helpers.
- `Decimal`: rounding and `Decimal(str)`.
- `Utils`: `utils.py`.
- `PdfGenerator`: `pdf_generator.py`.
- `Db`: `db.py`.
- `FormRows` and `App`: `app.py`.

Some parts are classes with state, each proved against the specification functions beside them:

- `Db.QuoteCounters` holds the counter table as a `map<int, int>`.
- `Db.QuoteStore` holds the stored rows as sequences.
- `App.Session` holds `st.session_state`.

The three loops of the source are methods with loop invariants, each tied to a recursive specification function:

- `PdfGenerator.BuildItemTable`.
- `PdfGenerator.WrapParagraph` and `PdfGenerator.WrapNotes`.
- `FormRows.BuildItems`.

Where written descriptions of this tool and its code differ, the model follows the code:

- There is no tax step. The total is the subtotal minus the discount (pdf_generator.py:113).
- There is no pagination. Everything goes on one page (pdf_generator.py:153).
- The discount is quantized in the default context, so it rounds half to even. Only the line totals and `money_clp` round half up.
- An empty item list is not rejected by `insert_quote` or by `build_quote_pdf_bytes`. Only the generate button's gate keeps it out (app.py:217, 229).

## Model

| member | source | states |
|---|---|---|
| Text.Strip | app.py:202 | `s.strip()` is the stretch `s[a..b]` of `s` with only whitespace before `a` and from `b` on, and it neither starts nor ends with whitespace, so exactly the surrounding whitespace is cut |
| Text.StripBlank | app.py:217 | `s.strip()` is empty exactly when every character of `s` is whitespace, so `bool(client_name.strip())` tests for a non-whitespace character |
| Text.StripUntouched | app.py:202 | text that neither starts nor ends with whitespace is left unchanged by `strip` |
| Text.StripIdempotent | app.py:202 | stripping twice is stripping once, so a stored description is already stripped |
| Text.SplitWords | pdf_generator.py:140 | every piece of `paragraph.split()` is non-empty and free of whitespace; what the pieces are is stated by Text.SplitWordsChars and Text.SplitWordsRuns |
| Text.SplitWordsChars | pdf_generator.py:140 | the words of `s.split()` put back to back are the non-whitespace characters of `s`, all of them and in order |
| Text.SplitWordsRuns | pdf_generator.py:140 | every word of `s.split()` is a stretch of `s` with whitespace or an end of `s` on each side, a whole run |
| Text.SplitJoin | pdf_generator.py:140-141 | splitting words that were joined with single spaces gives the words back |
| Text.StripJoinWord | pdf_generator.py:141 | the wrapper's test `(line + " " + word).strip()` is the open line's words joined with one more word, also when the line is still empty |
| Text.SplitOn | pdf_generator.py:138 | `notes.split("\n")` has at least one part, and no part holds a newline |
| Text.SplitOnJoin | pdf_generator.py:138 | joining the parts with the separator gives the text back, so the split loses nothing |
| Text.FlatWordsSplitOn | pdf_generator.py:138-140 | splitting on newlines and then into words gives the words of the whole text |
| Text.PrefixBefore | app.py:113 | `s.split("-")[0]` is the longest prefix without `-`, followed in `s` by a `-` when it is not all of `s` |
| Text.NatToString | db.py:43 | `str(n)` is a non-empty digit string that starts with `0` only for 0 |
| Text.IntToString | db.py:43 | `str(i)` starts with a minus exactly for negative `i` and holds no other minus |
| Text.NatToStringValue | db.py:43 | reading the digits of `str(n)` back gives `n` |
| Text.NatToStringInjective | app.py:113 | two numbers with the same `str` are equal |
| Text.NatToStringLength | db.py:43 | a number below `10 ** k` has at most `k` digits |
| Text.CanonicalDigits | utils.py:8 | `str(n)` is the only digit string without a leading zero that denotes `n` |
| Text.ZeroPadValue | db.py:43 | zero padding keeps the digits at the end and the value, and reaches the width without cutting |
| Decimal.RoundHalfUp | utils.py:7 | the half-up quantize is within half a unit of `x`, and an exact half moves away from zero |
| Decimal.RoundHalfEven | pdf_generator.py:112 | the default-context quantize is within half a unit of `x`, and an exact half goes to the even neighbour |
| Decimal.RoundHalfUpUnique | utils.py:7 | any integer meeting the half-up contract is the half-up result |
| Decimal.RoundHalfEvenUnique | pdf_generator.py:112 | any integer meeting the half-even contract is the half-even result |
| Decimal.RoundingModesAgreeOffTies | pdf_generator.py:112 | away from exact halves the two rounding modes agree |
| Decimal.RoundingModesDifferOnTies | pdf_generator.py:112 | on ties they part: 0.5 goes to 1 and 0, 2.5 to 3 and 2, -2.5 to -3 and -2 |
| Decimal.ParsePointLiteral | utils.py:13 | `Decimal` of a literal `[-]digits.digits` is its exact value |
| Decimal.PointValueQuotient | utils.py:13 | that value is the literal's digits over ten to the number of fraction digits |
| Decimal.ParseIntToString | utils.py:13 | `Decimal(str(i)) == i` for every integer |
| Decimal.ParsedCharacters | utils.py:12-15 | a string `Decimal` accepts holds only whitespace, digits, signs, points and exponent markers |
| Decimal.ParseDecimal | utils.py:13 | `Decimal(s)`, or None where it raises; it has no contract of its own, and what it accepts and returns is stated by Decimal.ParsePointLiteral, Decimal.ParseIntToString and Decimal.ParsedCharacters |
| Utils.QuoteItem.LineTotal | utils.py:23-25 | `line_total` is within half a peso of `qty * unit_price`, with an exact half moving away from zero |
| Utils.LineTotalUnique | utils.py:25 | the line total is the only integer meeting that contract |
| Utils.LineTotalExact | utils.py:25 | a product that is already whole is kept exactly |
| Utils.LineTotalNonNegative | utils.py:25 | a non-negative quantity and price give a non-negative line total |
| Utils.LineTotalExamples | utils.py:25 | 3 x 333.33 is billed as 1000, and 1 x 2.5 as 3 |
| Utils.GroupDigitsLayout | utils.py:8 | `f"{n:,}".replace(",", ".")` starts with a digit, holds only digits and dots, and has a dot exactly at every fourth place from the right |
| Utils.GroupDigitsDigits | utils.py:8 | taking the dots out of the grouped text gives `str(n)` |
| Utils.MoneyClpLayout | utils.py:5-9 | `money_clp` is `"$ "`, then a minus exactly for a negative rounded amount, then digit groups of three separated by dots |
| Utils.MoneyClpDigits | utils.py:5-9 | after `"$ "`, removing the dots leaves `str` of the half-up rounded amount |
| Utils.MoneyClpRoundTrip | utils.py:7-8 | dropping `"$ "` and the dots and parsing the rest gives back the rounded amount |
| Utils.MoneyClpSmall | utils.py:8-9 | an amount that rounds to 0..999 prints as `"$ "` and its digits, with no dot |
| Utils.MoneyClpMillions | utils.py:6-9 | `money_clp(1234567)` is `"$ 1.234.567"` |
| Utils.MoneyClpNegative | utils.py:8-9 | `money_clp(-1234)` is `"$ -1.234"`, with the minus before the first group |
| Utils.MoneyClpHalfUp | utils.py:7-9 | 999.5 rounds up into a new, zero-padded group: `"$ 1.000"` |
| Utils.MoneyClp | utils.py:5-9 | `money_clp`; it has no contract of its own, and its layout, digits and round trip are stated by Utils.MoneyClpLayout, Utils.MoneyClpDigits and Utils.MoneyClpRoundTrip |
| Utils.ToDecimalOfInt | utils.py:11-13 | `to_decimal` of the text of an integer is that integer |
| Utils.ToDecimalOfPoint | utils.py:11-13 | `to_decimal` of a point literal is its digits over a power of ten, with its sign |
| Utils.ToDecimalRejects | utils.py:11-15 | text holding a character that is neither whitespace nor part of a numeric literal gives 0 instead of raising |
| Utils.ToDecimalBlank | utils.py:11-15 | empty or blank text gives 0 |
| Utils.ToDecimalWord | utils.py:14-15 | `to_decimal("abc")` is 0 |
| Utils.ToDecimalCents | utils.py:13 | `to_decimal("333.33")` is exactly 333.33 |
| Utils.ToDecimalFloatText | utils.py:13 | `to_decimal("50000.0")`, the text of a float widget value, is exactly 50000 |
| Utils.ToDecimal | utils.py:11-15 | `to_decimal`; it has no contract of its own, and its results are stated by Utils.ToDecimalOfInt, Utils.ToDecimalOfPoint, Utils.ToDecimalRejects and Utils.ToDecimalBlank |
| PdfGenerator.BuildItemTable | pdf_generator.py:77-88 | the table is the header row followed by one row per item in order, whose last cell is `money_clp(line_total)`, and the subtotal is the sum of the rounded line totals |
| PdfGenerator.ItemRow | pdf_generator.py:83-88 | one table row; it has no contract of its own, and it is what PdfGenerator.BuildItemTable puts after the header for each item |
| PdfGenerator.TableRows | pdf_generator.py:83-88 | one row per item, as PdfGenerator.TableRowsAll states row by row |
| PdfGenerator.SumLineTotals | pdf_generator.py:78-82 | the subtotal; it has no contract of its own, and its properties are stated by PdfGenerator.SumLineTotalsAppend, PdfGenerator.SumLineTotalsNonNegative and PdfGenerator.SumLineTotalsDrift |
| PdfGenerator.TableStep | pdf_generator.py:80-88 | one more item adds exactly its row and its line total |
| PdfGenerator.TableRowsAll | pdf_generator.py:83-88 | row `i` of the item rows is the row of item `i` |
| PdfGenerator.SumLineTotalsAppend | pdf_generator.py:78-82 | the subtotal of two runs of items is the sum of their subtotals |
| PdfGenerator.SumLineTotalsNonNegative | pdf_generator.py:78-82 | non-negative quantities and prices give a non-negative subtotal |
| PdfGenerator.SumLineTotalsDrift | pdf_generator.py:80-82 | rounding each line first moves the subtotal at most half a peso per item away from the exact sum of the products |
| PdfGenerator.DiscountAmount | pdf_generator.py:112 | the discount is within half a peso of `subtotal * pct / 100`, and a tie goes to the even neighbour |
| PdfGenerator.Total | pdf_generator.py:113 | total plus discount is the subtotal, with no tax added |
| PdfGenerator.DiscountUnique | pdf_generator.py:112 | the discount is the only integer meeting its contract |
| PdfGenerator.NoDiscount | pdf_generator.py:112-113 | with 0 percent the discount is 0 and the total is the subtotal |
| PdfGenerator.DiscountBounds | pdf_generator.py:112-113 | for 0..100 percent of a non-negative subtotal, discount and total both lie between 0 and the subtotal |
| PdfGenerator.DiscountTies | pdf_generator.py:112 | 10% of 5 is discounted as 0, where half-up would give 1, and 10% of 15 as 2 |
| PdfGenerator.DefaultQuoteTotals | pdf_generator.py:78-113 | the two default items sum to 170000, and 10% off leaves 17000 of discount and 153000 to pay |
| PdfGenerator.QuoteTotalsBounded | pdf_generator.py:78-113 | non-negative items and a discount of 0..100 percent give a subtotal, discount and total that are not negative and not above the subtotal |
| PdfGenerator.WrapKeepsWords | pdf_generator.py:140-148 | the wrapped lines hold the open line's words and then the remaining words, none lost, repeated or moved |
| PdfGenerator.WrapAllWords | pdf_generator.py:140-146 | every wrapped line is made of words |
| PdfGenerator.WrapKeepsOpenLine | pdf_generator.py:141-143 | an open line with words stays at the head of the first emitted line |
| PdfGenerator.WrapFromWellWrapped | pdf_generator.py:140-148 | only the first line can be empty, every line fits or is one word, and every break happened because the next word did not fit |
| PdfGenerator.WrapFirstLineEmpty | pdf_generator.py:144-146 | the first line is empty exactly when the first word alone is too wide, and there are no lines exactly when there are no words |
| PdfGenerator.ParagraphLinesShape | pdf_generator.py:139-149 | a paragraph's lines end with one blank line; an earlier blank line is the first line before an over-wide first word; every line fits or is one word; every break is forced by the `strip`ped test line |
| PdfGenerator.NoteLinesKeepWords | pdf_generator.py:138-149 | splitting the emitted lines into words gives exactly the words of the notes, in order |
| PdfGenerator.NoteLinesFit | pdf_generator.py:138-149 | every emitted line fits or holds at most one word, and the last line is blank |
| PdfGenerator.WrapStep | pdf_generator.py:141-146 | one word either joins the open line or closes it and opens the next one |
| PdfGenerator.WrapClose | pdf_generator.py:147-148 | after the last word the open line is emitted exactly when it is not empty |
| PdfGenerator.WrapParagraph | pdf_generator.py:139-149 | the inner loop emits the lines of the paragraph's greedy wrapping and then a blank line |
| PdfGenerator.WrapNotes | pdf_generator.py:138-149 | the outer loop emits the lines of every paragraph in order |
| PdfGenerator.WrapFrom | pdf_generator.py:139-148 | the greedy wrapping of one paragraph's words; it has no contract of its own, and its meaning is stated by PdfGenerator.WrapKeepsWords, PdfGenerator.WrapFromWellWrapped and PdfGenerator.WrapFirstLineEmpty |
| PdfGenerator.ParagraphLines | pdf_generator.py:139-149 | the lines of one paragraph; it has no contract of its own, and its shape is stated by PdfGenerator.ParagraphLinesShape |
| PdfGenerator.NoteLines | pdf_generator.py:138-149 | the lines of the notes; it has no contract of its own, and its meaning is stated by PdfGenerator.NoteLinesKeepWords and PdfGenerator.NoteLinesFit |
| PdfGenerator.QuoteDoc | pdf_generator.py:54-149 | the page carries the number in its title, the header and then the item rows (one per item, by PdfGenerator.TableRowsAll), the subtotal of the line totals, the half-even discount, and a total that with the discount makes up the subtotal |
| PdfGenerator.BuildQuotePdf | pdf_generator.py:15-156 | the built page is QuoteDoc's: the title, item table, subtotal, discount, total, their printed amounts, the notes heading, validity line and note lines, each as the functions above give them |
| Db.Upsert | db.py:30-35 | the upsert puts the year's next seq in the table and leaves every other year's counter as it was |
| Db.CountersCount | db.py:30-35 | after any run of calls, a year has a counter exactly when it was asked for, and its counter is the number of calls for it |
| Db.IssuedCount | db.py:26-40 | a call returns how many calls so far were for its year |
| Db.IssuedIncreasing | db.py:33-35 | a later call for the same year returns a larger seq, so no seq repeats within a year |
| Db.IssuedFirst | db.py:31-32 | the first call for a year returns 1 |
| Db.NextSeq | db.py:31-35 | the seq the upsert returns; it has no contract of its own, and Db.Upsert, Db.IssuedFirst and Db.IssuedCount state what it gives |
| Db.Counters | db.py:30-35 | the counter table after a run of calls; it has no contract of its own, and Db.CountersCount states it |
| Db.QuoteCounters.NextQuoteNumber | db.py:26-44 | the call bumps only its year's counter and returns that seq and `f"{year}-{seq:04d}"` |
| Db.QuoteNumberYear | db.py:43 | for a year that is not negative, the text before the first `-` of the number is `str(year)` |
| Db.QuoteNumberSeq | db.py:43 | after the year and its `-` come digits that denote the seq: four of them below 10000, and all of `str(seq)` from there on |
| Db.Pad04Digits | db.py:43 | `f"{seq:04d}"` of a non-negative seq is digits denoting the seq, four below 10000 and `str(seq)` from there on |
| Db.QuoteNumberInjective | db.py:43 | two seqs of one year with the same number are equal |
| Db.Pad04 | db.py:43 | `f"{seq:04d}"`; it has no contract of its own, and Db.Pad04Digits states it |
| Db.FormatQuoteNumber | db.py:43 | `f"{year}-{seq:04d}"`; it has no contract of its own, and Db.QuoteNumberYear, Db.QuoteNumberSeq and Db.QuoteNumberInjective state it |
| Db.ItemRows | db.py:96 | one row per item, each carrying the quote id |
| Db.ItemRowsRoundTrip | db.py:96 | reading the rows back gives the items unchanged and in order |
| Db.RowsAfterInsert | db.py:88-97 | after the rows of a new id are appended, that id's rows are exactly the new ones, and every older id's rows are unchanged |
| Db.QuoteStore.InsertQuote | db.py:68-101 | one `quotes` row and one `quote_items` row per item are appended under the next id, which is returned, and no other quote's items change |
| FormRows.SelectKeeps | app.py:200-213 | the selection keeps the usable read rows and only those, in their order |
| FormRows.SelectNonEmpty | app.py:200-213 | some item survives exactly when some read row is usable |
| FormRows.FormItemsSelect | app.py:200-213 | item `k` is what the loop reads from the `k`-th row with a non-blank description and a positive quantity, and every such row gives an item |
| FormRows.FormItemsValid | app.py:202-213 | every built item has a non-empty description without surrounding whitespace and a positive quantity |
| FormRows.CandidateStripped | app.py:202 | a read description is already stripped |
| FormRows.SelectStep | app.py:201-213 | reading one more row extends the items by that row exactly when it is usable |
| FormRows.BuildItems | app.py:200-213 | the loop builds exactly the items of the form |
| FormRows.FormItemsNonEmpty | app.py:200-213 | the form has items exactly when some row has a non-blank description and a positive quantity |
| FormRows.Candidate | app.py:202-208 | what the loop reads from one row; it has no contract of its own, and FormRows.CandidateStripped and FormRows.FormItemsSelect state it |
| FormRows.Select | app.py:203-213 | the usable read rows in order; it has no contract of its own, and FormRows.SelectKeeps, FormRows.SelectNonEmpty and FormRows.SelectStep state it |
| FormRows.FormItems | app.py:200-213 | the items of the form; it has no contract of its own, and FormRows.FormItemsSelect, FormRows.FormItemsValid and FormRows.FormItemsNonEmpty state it |
| App.ButtonEnabled | app.py:217-229 | the generate button is enabled exactly when the client name has a non-whitespace character, some row reads as usable, and a number is assigned |
| App.GateOpen | app.py:217-229 | the same gate over built items: a non-blank client name, at least one item, and a number |
| App.CanGenerate | app.py:217 | `can_generate`; it has no contract of its own, and App.GateOpen states it |
| App.HasNumber | app.py:224 | `has_number`; it has no contract of its own, and App.GateOpen states it |
| App.ButtonDisabled | app.py:229 | `btn_disabled`; it has no contract of its own, and App.ButtonEnabled and App.GateOpen state it |
| App.NoMismatchAfterAssign | app.py:113 | right after a number is assigned for a year, the year warning does not show |
| App.MismatchOnOtherYear | app.py:113 | once the issue date moves to another year, the warning shows |
| App.YearMismatch | app.py:113 | the year warning's condition; it has no contract of its own, and App.NoMismatchAfterAssign and App.MismatchOnOtherYear state it |
| App.DownloadName | app.py:281 | the file name is `cotizacion_`, then the number or `0001` when it is blank, then `.pdf` |
| App.Cleaned | app.py:247-252 | each contact and client field passed on is that field's `strip()`; the brand name is its `strip()`, or the company's own name when that is blank, so it is never empty |
| App.CleanedFields | app.py:247-255 | every text passed on is free of surrounding whitespace; the brand name becomes the company's own exactly when it was blank (or already was that name); notes, discount and validity pass untouched |
| App.StoredQuote | app.py:242-257 | the `quotes` row passed to `insert_quote`; it has no contract of its own, and App.SaveAndPrint states that it is what is stored |
| App.GeneratedTotalsBounded | app.py:177-183 | for a discount within the widget's 0..90 percent and non-negative prices, the discount and total of the built items lie between 0 and the subtotal |
| App.SaveAndPrint | app.py:242-288 | the quote and its items are stored under the next id, with every other quote's rows unchanged, then the file name and the whole document (QuoteDoc) are built for the number |
| App.Session.constructor | app.py:133-137 | a new session has no number, seq 0 and the two default rows |
| App.Session.AssignNumber | app.py:99-107 | a reachable database gives the year's next seq and its number, after which the year warning is off; otherwise nothing changes |
| App.Session.DeleteRow | app.py:164-166 | the row goes and the others keep their order |
| App.Session.AddRow | app.py:169-171 | a row with an empty description, quantity 1 and price 0 is appended |
| App.Session.Generate | app.py:231-292 | without a database or on a failed insert, nothing is stored, no document is made and the session is unchanged; otherwise the quote and its rows are stored under the next id with every other quote's rows unchanged, the whole document (QuoteDoc) and the file name are made for the stripped number, and the number and seq are cleared |
| App.Session.Issue | app.py:232-292 | past the database check, the stripped number is used to store the quote and its rows (other quotes' rows unchanged) and to build the whole document (QuoteDoc), and the number and seq are cleared |

## Left out

- The Streamlit widgets, layout and messages, and the password gate on `APP_PASSWORD`, are user interface and secrets handling (app.py:14-97, 115-131, 173-197).
- The widget loop that rewrites each row in place (app.py:139-162) is interactive input. A row keeps the text of its numeric fields, and the model reads that text.
- The widgets' own ranges are not modelled, so a row may hold any text. The 0..90 discount range appears only as the precondition of `App.GeneratedTotalsBounded`.
- psycopg2 connections, SQL, commit and rollback, and the atomicity of the upsert across requests are I/O and concurrency. The counter and the tables are sequential maps and sequences.
- Database ids are modelled as positions counted from 1, as a fresh serial key hands them out.
- A missing or failed database is one boolean per call. `st.stop()` on failure is a return with nothing done.
- `issue_date` is not stored and not printed. Only its year is a parameter, because `strftime` and the date widget are out of scope.
- `storage.py` is not part of this model. `app.py` does not import it.
- All reportlab drawing is left out: canvas, fonts, colours, the logo image with its swallowed exception, `Table.wrapOn` heights and the `y` cursor. So are the brand, contact and client lines (pdf_generator.py:31-75, 90-110). The notes heading at pdf_generator.py:126 is kept as the text of `QuoteDocument.notesHeading`.
- PdfGenerator.BuildQuotePdf: the discount line keeps only `"- " + money_clp(discount)`, without the label `Descuento ({discount_pct}%): `, because printing a `Decimal` is not modelled.
- PdfGenerator.ItemRow: the quantity cell keeps the quantity itself, not the text of `qty.normalize()`, whose exponent notation is not modelled.
- Decimal.ParseDecimal: there is no NaN, Infinity, underscore or non-ASCII digit, and no `str` of non-string inputs. `to_decimal` is modelled on the text `str(x)`.
- Utils.QuoteItem.LineTotal: the product `qty * unit_price` is exact, while Python rounds it to the context's 28 significant digits. The two differ only for products with more than 28 significant digits, and `quantize` raising InvalidOperation for a result of more than 28 digits is not modelled either.
- PdfGenerator.DiscountAmount: the quotient `discount_pct / 100` and the product with the subtotal are exact, while Python rounds each to 28 significant digits. The two differ only past 28 significant digits, and `quantize` raising InvalidOperation for a result of more than 28 digits is not modelled either.
- App.Session.Generate: it receives the items and the cleaned form fields, as `FormRows.BuildItems` and `App.Cleaned` produce them, instead of reading widgets. `logo_path` is not modelled.
- App.Session: a missing `quote_number` or `quote_seq` key is kept as `""` and `0`, the defaults every read of them supplies.
- Db.QuoteNumberYear: it is proved for years that are not negative, which a date's year always is.
- The font metric is a `real`-valued function parameter rather than a natural number. Nothing proved depends on the metric.
