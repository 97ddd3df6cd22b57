# Rebate calculator engine

A model of the engine inside the rebate calculator, a small desktop program.
It has one input for a performance amount and a drop-down of eight rebate tiers.
It also has three buttons:

- **calculate** checks the two inputs in a fixed order. It computes amount × rate and puts a record at the top of two parallel histories: the on-screen table and the list that is exported.
- **clear** empties both histories.
- **export** refuses an empty list. Otherwise it hands the list to a spreadsheet writer under a time-stamped file name.

The modules follow the program's concerns:

- `Options`: the option type.
- `Numerals`: decimal digit strings, zero padding as `strftime` does it, `str()` of an `int`, and `int()` of a float.
- `Text`: Python's `str.split(sep)` and the whitespace stripping `float()` applies (space and `\t` to `\r` only).
- `PyFloat`: Python's `float()` on decimal text, as a lexer into a literal datatype and the exact real it denotes.
- `RateCatalog`: the eight tiers and the percent label a record stores.
- `Clock`: the wall-clock reading and the two `strftime` formats, the record time and the export stamp.
- `Ledger`:
  - `Evaluate`, the calculate step as a value;
  - the class `RebateEngine`, whose fields are the two error texts, the shown payout, the table rows, the export list and the notification bar. Its methods are `Calculate`, `Clear` and `Export`.

`RebateEngine.Valid()` is the invariant every method keeps:

- the table and the list have the same length;
- row `i` shows record `i`;
- the list is the history of calculations since the last clear, newest first.

## Model

| member | source | states |
|---|---|---|
| Ledger.Evaluate | main.py:52-98 | The calculate step as a value: empty amount, then empty rate, then a `float()` failure of either input, else the record {time, amount, "int(rate*100)%", amount×rate}. |
| Ledger.Payout | main.py:68 | The payout is amount × rate. |
| Ledger.RebateEngine.Valid | main.py:83-102 | The invariant: table and list have equal length, row `i` describes record `i`, and the list is the history newest first. |
| RateCatalog.Tiers | main.py:17-28 | The eight drop-down entries, value string and display text, in their listed order. |
| RateCatalog.PercentLabel | main.py:90 | The rate label `f"{int(rate * 100)}%"`. |
| PyFloat.Parse | main.py:66-67 | `float(text)`: strip the whitespace, lex a decimal literal, and give its exact value; `None` stands for `ValueError`. |
| Text.Split | main.py:77 | `str.split(sep)`: the pieces between separators, empty pieces kept, at least one piece. |
| Clock.RecordTime | main.py:69 | `strftime("%Y-%m-%d %H:%M:%S")` of the reading. |
| Clock.Stamp | main.py:118 | `strftime('%Y%m%d%H%M%S')` of the reading. |
| Clock.ExportFileName | main.py:118 | "返利记录_", the stamp, ".xlsx". |
| Ledger.RebateEngine.Calculate | main.py:52-98 | An empty amount sets only the amount error "请输入金额": the rate error, the result line, the table and the list keep their state. An empty rate sets only the rate error "请选择点位". With both present, both errors are cleared first; a `float()` failure of either number then sets the amount error "数字格式错误" and adds nothing. Success shows the payout, puts the record {time, amount, "int(rate*100)%", amount×rate} at index 0 of the list with every older record one place further down, and a row showing the same record at index 0 of the table. The engine invariant is kept. |
| Ledger.RebateEngine.Convert | main.py:62-98 | The try block: both errors cleared, then either the format error with the list and table untouched, or the new record prepended. |
| Ledger.RebateEngine.Accept | main.py:68-92 | Shows amount × rate and prepends the record and its row, which shows the time of day, the amount, the label and the payout. |
| Ledger.RebateEngine.Prepend | main.py:83-87 | The row and the record are inserted together at index 0 of the table and of the list; the invariant is kept. |
| Ledger.RebateEngine.Clear | main.py:100-103 | Both sequences are empty afterwards whatever they held, so a second clear leaves the same state; the invariant holds. |
| Ledger.RebateEngine.Export | main.py:106-131 | An empty list gives "表格是空的，没东西可导出！" and no sheet. Otherwise the sheet is the list itself, in its own order, under `ExportFileName(now)`, reported as "成功导出: " plus the name, or "导出失败: " plus the writer's error. The list and the table are never modified. |
| Ledger.RebateEngine.constructor | main.py:45-50 | Empty table and list, no error texts, the result line still waiting, the notification bar holding its initial text, closed, and `float()` as the reader, which reads every catalog value as its percent. |
| Ledger.RebateEngine.TableMatchesList | main.py:83-92 | Under the invariant, row `i` of the table shows record `i` of the list: the same amount, label and payout, and the time-of-day part of its time. |
| Ledger.RebateEngine.ListIsNewestFirst | main.py:87 | Under the invariant, the export list is the reversed history of calculations. |
| Ledger.EvaluateCatalogRate | main.py:20-27 | With any reader that reads the catalog as `float()` does, choosing tier `i` records the amount, the label "p%" for that tier's percent `p` (1, 5, 10, 15, 20, 30, 45 or 60), and the payout amount × p/100. |
| Ledger.EvaluatePercent | main.py:66-92 | A rate that reads as `p`/100 records the label "p%" and the payout amount × p/100. |
| Ledger.AmountWithoutDigit | main.py:65-98 | With both fields filled and the decimal notation PyFloat.Parse models, an amount with no digit in it is a format error, whatever the rate. |
| Ledger.RejectedInputs | main.py:53-98 | Guard order: "abc" is a format error; two empty fields report the missing amount, not the missing rate; an amount with no rate reports the missing rate. |
| Ledger.ReversedAt | main.py:83-87 | Position `i` of the newest-first sequence holds the record `i` places from the newest. |
| Ledger.RowsDescribeAt | main.py:83-87 | Tables that describe lists position by position have equal length, and each row describes its record. |
| RateCatalog.ParseReadsCatalog | main.py:20-27 | `float()` reads each tier's value string, "0.01" to "0.60", as exactly that tier's percent over one hundred. |
| RateCatalog.CatalogFromPercents | main.py:20-27 | Any reader of every "0.pp" as pp hundredths reads the whole catalog. |
| RateCatalog.ParsePercent | main.py:67 | `float("0.pp")` is pp/100 for every two-digit pp. |
| RateCatalog.TierValue | main.py:20-27 | Each tier's value string is "0." followed by its percent in two digits. |
| RateCatalog.TierLabel | main.py:17-28 | The label a record stores for a tier, "int(rate*100)%", is the percent in parentheses at the end of that tier's drop-down text. |
| RateCatalog.TiersAscending | main.py:20-27 | The drop-down lists the tiers from the smallest rate to the largest. |
| RateCatalog.PercentLabelOf | main.py:90 | A rate of exactly p/100 is labelled with the decimal digits of `p` and a percent sign. |
| PyFloat.LexRender | main.py:66-67 | Every well-formed decimal literal is read back as itself. |
| PyFloat.RenderLex | main.py:66-67 | Whatever the lexer accepts is exactly the text of the literal it returns. |
| PyFloat.ParseRender | main.py:66-67 | `float()` of a literal's text, with whitespace around it, is the literal's exact value. |
| PyFloat.ParseNeedsDigit | main.py:65-98 | The decimal notation PyFloat.Parse models accepts no text without a digit. |
| PyFloat.ParseNat | main.py:66 | `float(str(n))` is `n` for every natural `n`. |
| PyFloat.ParseDecimal | main.py:66-67 | `float("w.ff")` for digit strings is the whole part plus the fraction's digits over ten to their count. |
| PyFloat.ParseHundredths | main.py:67 | `float("0.dd")` is dd/100. |
| Clock.StampRoundTrip | main.py:118 | The export stamp is fourteen digits from which year, month, day, hour, minute and second are read back. |
| Clock.ExportFileNameShape | main.py:118 | The file name is "返利记录_", fourteen digits and ".xlsx". |
| Clock.ExportFileNameCollides | main.py:117-118 | Two exports get the same file name exactly when they happen within the same second. |
| Clock.RecordTimeFields | main.py:69-77 | Splitting the record time at the space gives the date and the time of day, so index 1 is "HH:MM:SS". |
| Text.JoinSplit | main.py:77 | `split(" ")` loses nothing: joining the pieces with the separator gives the string back. |
| Text.SplitAtFirst | main.py:77 | A separator after a separator-free prefix ends the first piece there. |
| Text.SplitNoSeparator | main.py:77 | A string without the separator splits into itself alone. |
| Text.StripPadded | main.py:66-67 | `float()` strips exactly the whitespace (space and `\t` to `\r`) added around a text that starts and ends in another character. |
| Numerals.Pad | main.py:118 | `strftime`'s zero-padded fields have exactly the field width, only digits, and denote the number. |
| Numerals.NatToString | main.py:90 | `str(n)` is at least one digit, denotes `n`, and has no leading zero. |
| Numerals.Trunc | main.py:90 | `int(x)` truncates toward zero. |

## Left out

- The Flet interface: page settings, widget construction, layout, `page.update()` and `ft.app`. The widgets' `error_text`, the result line and the notification bar are engine fields, so their state is modelled.
- Display formats: the result line's and the table cells' `:,.2f` and `:,.0f` renderings. A row holds the numbers it shows, with the time of day as text.
- Floating point: amounts, rates and payouts are exact reals, so IEEE rounding of `float()` and of `money * rate` is not modelled. For the eight catalog values, `int(rate * 100)` gives the same labels with exact reals.
- PyFloat.Parse: models decimal text with the ASCII whitespace `float()` strips (space and `\t` to `\r`). `inf`, `nan`, underscores between digits, non-ASCII digits and non-ASCII whitespace are left out.
- PyFloat.ParseNeedsDigit: holds only for the decimal notation modelled; the real `float()` also accepts the digit-free `inf`, `infinity` and `nan`, in any case and with a sign.
- Ledger.AmountWithoutDigit: for the same reason, an amount such as "inf" or "nan" is recorded by the program, where the model reports a format error.
- Ledger.RebateEngine.Calculate: an error other than `ValueError`, such as `int()` of an infinite rate, cannot happen with exact reals and is not modelled.
- Widget values: both a missing value (`None`) and an empty text stand as `""`, since the source tests both with `not value`.
- The wall clock: `datetime.now()` is a parameter, a `DateTime` that Clock.Valid admits. `%Y` is always four zero-padded digits; a platform that does not pad years below 1000 is not modelled.
- pandas: building the DataFrame and `to_excel` are left out. Ledger.RebateEngine.Export receives the writer's failure, if any, as a parameter and returns the sheet it would hand over. Any exception text stands for `str(ex)`.
- Clear being idempotent follows from Ledger.RebateEngine.Clear's postcondition, which fixes the new state whatever the old one was. It is not a separate lemma, because a lemma cannot call a method.
