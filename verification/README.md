# Account details lookup — a Dafny model

This project models the logic behind a small account-reference tool. The tool
loads an account sheet, which is a spreadsheet whose columns include
`ACCOUNT NAME` and `CURRENCIES`. It lets the user filter the sheet by account
name and currency, shows the first matching row and renders it as plain text.

The model has these parts:

- `table.dfy` (`AccountTable`): the loaded sheet. A `Table` has an ordered
  column list and rows that map each column to a string value. `Frame` is the
  subset of tables the spreadsheet reader can produce: the header names are
  distinct (the reader renames repeated headers) and every row has exactly the
  table's columns. `ToRecord` turns a row into a record, the row's dictionary
  form, with fields in column order.
- `lookup.dfy` (`AccountLookup`): `get_account_details`. A criterion is
  *active* when it is non-empty and its column exists. With no active
  criterion the answer is `NoCriteria`. Otherwise the query keeps the rows
  that equal every active criterion (`Filter`), and the first of them is
  returned. app.py returns `None` and shows a warning in each failure
  case; here each case is an `Outcome` variant (`NoTable`, `NoCriteria`,
  `NotFound`, `Found`). `Outcome.Details()` gives back the plain
  record-or-nothing value app.py returns.
- `format.dfy` (`AccountFormat`): `format_account_details`. `Lines` splits
  text at line breaks, so the output's line structure can be stated exactly.
- `options.dfy` (`FilterOptions`): the choice lists offered for each filter
  column. Each list is an empty choice followed by the column's distinct
  values in first-appearance order (`Unique`), or a single placeholder when
  the column is missing.
- `retrieve.dfy` (`Retrieve`): how these pieces fit together on the page:
  choices, then lookup, then text.

Lookup is a pure function of the table and the criteria. Repeated calls with
the same inputs therefore give the same answer, and the table is never
changed.

A criterion whose column is missing is not reported as an error. app.py
(lines 21-24) drops such a criterion silently, and `MissingColumnIsIgnored`
proves that the model behaves as if that argument had been left out. An absent
table is checked before anything else (app.py:17-18), and the model does the
same.

## Model

| member | source | states |
|---|---|---|
| AccountTable.ToRecord | app.py:34 | the returned dictionary has one field per table column, in column order, each holding the row's value for that column |
| AccountTable.ToRecordRoundTrip | app.py:34 | reading the record of a row back as a dictionary gives the row again, so the conversion loses nothing |
| AccountLookup.ActiveCriteria | app.py:20-24 | a criterion is active exactly when its argument is present and non-empty and its column is in the sheet; at most two are active, and when both are, the account name comes first |
| AccountLookup.Filter | app.py:30-32 | the query result holds exactly the sheet's rows that equal every active criterion, and it is never longer than the sheet |
| AccountLookup.FirstMatch | app.py:33-34 | reference definition of the answer: the lowest row index meeting every criterion, with no earlier row meeting them; none when no row does |
| AccountLookup.FilterHeadIsFirstMatch | app.py:32-34 | the query result is non-empty exactly when a first match exists, and its first row is the row at the first-match index |
| AccountLookup.GetAccountDetails | app.py:15-37 | absent table gives NoTable before criteria are looked at; NoCriteria exactly when no criterion is active, whatever the rows; NotFound exactly when criteria are active and no row meets them; a found record lists every column in table order and holds each active criterion's value in its column |
| AccountLookup.LookupReturnsFirstMatch | app.py:30-37 | a found record is the record of the lowest-indexed row meeting every active criterion; no earlier row meets them; read back as a dictionary the record is exactly that row |
| AccountLookup.ReturnedDetails | app.py:15-37 | the value the lookup returns is a record exactly when a table is present, some criterion is active and some row meets every active criterion, and it is then the record of the first such row; otherwise it is None |
| AccountLookup.MissingColumnIsIgnored | app.py:21-24 | a criterion whose column is missing is dropped: the answer equals the one obtained with that argument left out |
| AccountLookup.EmptySheetIsNotFound | app.py:33-37 | a sheet with no rows never yields a record; with any active criterion the answer is NotFound |
| AccountLookup.AcmeByNameAndCurrency | app.py:30-34 | with two "Acme" rows in USD and EUR, name plus "EUR" returns the EUR row |
| AccountLookup.AcmeByNameOnly | app.py:33-34 | on the same sheet, the name alone matches both rows and the first (USD) row is returned |
| AccountLookup.AcmeUnknownName | app.py:35-37 | on the same sheet, an account name no row holds is NotFound |
| AccountFormat.FormatAccountDetails | app.py:45-52 | an absent or empty record gives exactly "No account details to display."; any other record's text starts with the header line "Account Details:" and ends with a line break |
| AccountFormat.FieldLinesAppend | app.py:49-50 | the field text of two records in sequence is the first's text followed by the second's, for any keys and values |
| AccountFormat.FormatAppendsField | app.py:48-51 | for any keys and values, a one-field record gives the header line, the field's "- key: value" and a line break; each further field appends its "- key: value" and a line break to the text so far |
| AccountFormat.FieldLinesSplit | app.py:49-50 | for keys and values without line breaks, the field lines split back into one "- key: value" line per field, in record order |
| AccountFormat.FormattedLines | app.py:47-51 | for a non-empty record with single-line keys and values, the text has exactly 1 + number-of-fields lines: the header, then each field's line in order |
| AccountFormat.FallbackIsDistinct | app.py:47-52 | the fallback sentence is one line, and the formatter gives it exactly when the record is absent or empty |
| FilterOptions.Unique | app.py:65-66 | the distinct values of a column: no repeats, the same values as the column, ordered by where each value first appears |
| FilterOptions.Options | app.py:65-66 | a present column gives the empty choice followed by distinct choices that are exactly the column's values, ordered by where each first appears in the column; a missing column gives only the placeholder "No <column> Column" |
| Retrieve.Retrieve | app.py:72-73 | the shown text is the fallback sentence exactly when no non-empty record was found; otherwise it starts with the header line and ends with a line break |
| Retrieve.AccountNameChoiceOutcome | app.py:65-72 | with the currency left at its empty choice, the empty account-name choice or the placeholder gives NoCriteria, and any other account-name choice finds a record carrying that name |
| Retrieve.CurrencyChoiceOutcome | app.py:66-72 | with the account name left at its empty choice, the empty currency choice or the placeholder gives NoCriteria, and any other currency choice finds a record carrying that currency |
| Retrieve.RetrievedText | app.py:72-75 | the shown text is the fallback sentence unless a record was found; for a found record (non-empty columns, single-line cells) it is the header and then one line per column, in column order |

## Left out

- Loading the spreadsheet (`load_account_details`, app.py:6-13) is not modelled because it is file I/O. The sheet is a parameter that has already been loaded. An absent table stands for the one failure app.py catches, a file that is not found (app.py:11-13); every other read error propagates out of the loader and is not modelled.
- The page itself (`main`, the `st.*` calls, app.py:54-80) is left out because it is UI. Warnings and errors are `Outcome` variants, not side effects. The selection widgets are modelled only as "some element of the choice list".
- The query-string engine (app.py:30-32) is modelled as direct equality on column values. The program pastes each value between single quotes into an expression, and the engine parses it. A value containing a quote therefore changes or breaks the expression. A value containing a backslash is read with escapes, so a cell `a\tb` is compared as "a, tab, b" and does not match its own row. This engine-specific behaviour is not modelled. Retrieve.AccountNameChoiceOutcome and Retrieve.CurrencyChoiceOutcome hold only under the equality model: in the program, a choice containing a quote or a backslash may fail to find its own row.
- The exception branches (app.py:38-43) are left out. The undefined-name branch cannot be reached through a column name, because both columns are checked before the query is built. It can be reached only through a value of the kind the query-engine line above leaves out: for example, the account name `a' + b + 'c` makes `b` an undefined name in the expression. The generic branch depends on the dataframe library's internals.
- Cell values are strings. Numeric columns, missing cells (NaN), type coercion when comparing, and how non-string values are rendered into text are not modelled.
- AccountFormat.FormattedLines: the line-count promise is proved only for keys and values without line breaks. A cell containing a line break adds lines to the output.
- Retrieve.AccountNameChoiceOutcome and Retrieve.CurrencyChoiceOutcome pick one filter and leave the other at its empty choice. With both filters picked, the answer can be NotFound.
- Email sending and diagram generation are not part of this model. app.py has no code for either.
