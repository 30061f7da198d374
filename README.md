# File tracking ledger in Dafny

A model of the lending ledger behind the File Tracking System desktop
application (`file_tracking.py`). The application keeps three SQLite tables:
`files`, `users` and `transactions`. Four form handlers change them:

- Register File inserts a file.
- Register User inserts a user.
- Lend File inserts an outstanding transaction.
- Return File records a return on a transaction.

Two procedures only read the tables. The combobox refresh (`load_data`) lists
files, users and outstanding loans as labels `"<id> - <text>"`. The report
(`generate_report`) joins every transaction with its file and its user.

The model has four modules:

- `Tables` (tables.dfy): the three row types, the SQLite rowid rule (a new row
  gets one more than the largest id, or 1 in an empty table), the
  primary-key lookups, and the `UPDATE` of a return as a function of the
  old table. It also defines the predicate `Evolves`: a transaction is never
  deleted, and once returned it never becomes outstanding again.
- `Queries` (queries.dfy): the inner join of transactions with users and
  files, the outstanding-loans query, and the report query. Each is proved
  sound and complete against the tables, with one row per joinable
  transaction. No row order is promised, because neither SELECT has an
  `ORDER BY`.
- `Labels` (labels.dfy): the combobox labels and the handlers' way of
  reading an id back, `selection.split(" - ")[0]`. The round trip is proved:
  the selected id of a label is the id it was built from.
- `LendingLedger` (ledger.dfy): a class `Ledger` with the three tables as
  sequence fields. The four handlers are methods that change them, and the
  two read procedures are methods that return what the code computes. A
  whole session (register, lend, return, report) is proved end to end on
  concrete values (the ensures of `InvoiceSession`).

The guards and SQL effects are modelled as the code has them, which is
looser than a stricter design would be:

- A field passes its guard when it is non-empty. There is no trimming, so a
  field of spaces is accepted.
- Lending checks neither the file id nor the user id against its table. The
  declared foreign keys are not enforced, so a lend with an unknown id
  simply inserts a row. Such a row drops out of both joins.
- Lending does not check whether the file is already lent.
- Returning does not test `date_returned IS NULL`. A second return
  overwrites the first, and an unknown transaction id changes nothing.
- An empty condition is stored as the empty string, not as NULL.

## Model

| member | source | states |
|---|---|---|
| `Tables.MaxId` | file_tracking.py:14 | the largest id in a table: at least every id, one of them, or 0 when the table is empty |
| `Tables.NextRowid` | file_tracking.py:50 | the id an INSERT without an id receives: not used yet, above every existing id, 1 in an empty table, otherwise one more than an existing id |
| `Tables.AppendFreshId` | file_tracking.py:13-35 | inserting a row under an unused id keeps the primary key unique |
| `Tables.FindFile` | file_tracking.py:116 | the file lookup of a join returns a file row with the requested id, and returns nothing exactly when no file has that id |
| `Tables.FindUser` | file_tracking.py:116 | the user lookup of a join returns a user row with the requested id, and returns nothing exactly when no user has that id |
| `Tables.FindFileUnique` | file_tracking.py:13-17 | under the primary key, the lookup finds the one file row that has the id |
| `Tables.FindUserUnique` | file_tracking.py:19-24 | under the primary key, the lookup finds the one user row that has the id |
| `Tables.ApplyReturn` | file_tracking.py:96-97 | the return UPDATE keeps every row and every id; a row with another id is unchanged; every row with the id gets the date and the condition and stays the same transaction; an unknown id changes nothing; return date and condition stay NULL together, since both are written at once |
| `Tables.EvolvesAlong` | file_tracking.py:78-97 | over any run of inserts and returns, no transaction disappears or changes its file, user or date taken, and a returned transaction never becomes outstanding again |
| `Labels.Decimal` | file_tracking.py:110 | the id printed in a label is a non-empty run of digits with no leading zero except for id 0 |
| `Labels.ParseDecimal` | file_tracking.py:96-97 | the digits a handler binds denote a rowid; a numeral of `k` digits denotes less than `10^k` |
| `Labels.FirstPiece` | file_tracking.py:74 | `split(" - ")[0]` is a prefix of the selection |
| `Labels.ParseDecimalOfDecimal` | file_tracking.py:74-75 | the decimal text of an id reads back as that id |
| `Labels.FirstPieceIsLeftmost` | file_tracking.py:74 | `split(" - ")[0]` is a prefix of the text that ends at the leftmost separator, or is the whole text when there is none |
| `Labels.FirstPieceOfDigits` | file_tracking.py:74-75 | splitting `"<digits> - <anything>"` gives back the digits, whatever the rest contains |
| `Labels.SelectedId` | file_tracking.py:74-78 | an id is read exactly when the first piece is a non-empty decimal numeral, and it is less than `10^k` for a first piece of `k` digits; an empty selection yields no id, so the guard fails |
| `Labels.IdLabel` | file_tracking.py:110 | the selected id of a label `"<id> - <text>"` is `id`, and the label ends with `text` |
| `Labels.FileLabels` | file_tracking.py:108-110 | one file label per file row, and each label selects its file's id |
| `Labels.UserLabels` | file_tracking.py:112-114 | one user label per user row, and each label selects its user's id |
| `Labels.LoanLabels` | file_tracking.py:118 | one label per outstanding loan, and each label selects its transaction's id |
| `Queries.Join` | file_tracking.py:116 | every joined row combines a transaction, a user and a file from the tables that meet both join conditions; there are no more joined rows than transactions |
| `Queries.JoinComplete` | file_tracking.py:121 | every transaction whose file and user exist appears in the join with them |
| `Queries.JoinIdsDistinct` | file_tracking.py:121 | no two joined rows come from the same transaction |
| `Queries.JoinAppend` | file_tracking.py:79-80 | inserting a transaction leaves the earlier joined rows as they were and adds only the new transaction's own joined row |
| `Queries.JoinSingle` | file_tracking.py:116 | a single transaction joins to one row when its file and user exist and to none otherwise |
| `Queries.Unreturned` | file_tracking.py:116 | `WHERE t.date_returned IS NULL` keeps exactly the outstanding transactions |
| `Queries.UnreturnedIdsUnique` | file_tracking.py:116 | the filtered transactions keep unique ids |
| `Queries.UnreturnedAppend` | file_tracking.py:116 | the filter of an extended table extends the old filter by the new row when that row is outstanding |
| `Queries.OutstandingLoans` | file_tracking.py:116-117 | every listed loan comes from an outstanding transaction whose user and file exist, with the columns id, first name, last name, file name, date taken |
| `Queries.OutstandingComplete` | file_tracking.py:116 | every outstanding transaction whose user and file exist is listed |
| `Queries.OutstandingIdsDistinct` | file_tracking.py:116 | no transaction is listed twice |
| `Queries.LendListsLoan` | file_tracking.py:78-80 | after a lend, in the model's table order, the listed loans are the earlier ones followed by the new loan; the new loan is listed only when its file and user exist |
| `Queries.LendAddsLoan` | file_tracking.py:78-80 | up to order: after a lend, the listed loans are the earlier ones together with the new loan, which is listed exactly when its file and user exist |
| `Queries.ReturnClosesLoan` | file_tracking.py:95-97 | right after a return of transaction `t`, no listed loan has id `t` |
| `Queries.ReportRows` | file_tracking.py:121-138 | every report row comes from a transaction whose file and user exist; its seven columns follow the header order; no more rows than transactions |
| `Queries.ReportNullsPaired` | file_tracking.py:121-138 | while return date and condition are written together, a report row's return date is NULL exactly when its condition is NULL |
| `Queries.ReportComplete` | file_tracking.py:121 | every transaction whose file and user exist is reported |
| `Queries.ReportIdsDistinct` | file_tracking.py:121 | no transaction is reported twice |
| `LendingLedger.Ledger.constructor` | file_tracking.py:13-35 | a new database has three empty tables with unique keys, and return date and condition are NULL together |
| `LendingLedger.Ledger.RegisterFile` | file_tracking.py:45-56 | inserts exactly one file row, under a fresh rowid and with the given name and unique number, exactly when both are non-empty; otherwise nothing changes; users and transactions never change |
| `LendingLedger.Ledger.RegisterUser` | file_tracking.py:58-71 | inserts exactly one user row, under a fresh rowid, exactly when first name, last name and department are all non-empty; otherwise nothing changes; files and transactions never change |
| `LendingLedger.Ledger.LendFile` | file_tracking.py:73-88 | when both selections yield an id and the date is non-empty, appends one outstanding transaction with those values and a fresh id, with no existence check; otherwise nothing changes; files and users never change |
| `LendingLedger.Ledger.ReturnFile` | file_tracking.py:90-105 | when the selection yields an id and the date is non-empty, applies the return UPDATE to the rows with that id, after which that transaction is not listed as outstanding; otherwise nothing changes; files and users never change |
| `LendingLedger.Ledger.LoadData` | file_tracking.py:107-118 | returns the file, user and outstanding-loan labels of the current tables, the loan labels built from the listed loans, and each label selects its row's id |
| `LendingLedger.Ledger.GenerateReport` | file_tracking.py:120-138 | returns the report rows of the current tables, one per joinable transaction, with return date and condition NULL together, and changes no table |
| `LendingLedger.InvoiceSession` | file_tracking.py:45-138 | on a new database: register "Invoice-2024" and Ada Lovelace, lend by label, and one loan is listed; return it by label, and none is listed; the report is the single row `1, Invoice-2024, Ada, Lovelace, 2024-01-10, 2024-01-15, Good` |

## Left out

- The Tkinter user interface is not modelled: windows, tabs, entries, buttons, message boxes, clearing the fields, and assigning combobox values. It has no domain behaviour. The handlers' accepted/rejected outcome is returned as `ok` instead of a message box.
- The SQLite connection, cursor, `commit` and `CREATE TABLE` statements are not modelled. The tables are sequences of rows, and the `NOT NULL` columns are non-optional fields.
- Dates are opaque strings supplied by the caller. The date pickers, `strftime` and `datetime.now()` are a foreign widget and a clock.
- The CSV file is not modelled. Opening and writing `file_tracking_report.csv`, quoting, and how the `csv` module renders NULL are file I/O in a library outside the model. Only the list of rows the report writes is modelled.
- Labels.SelectedId: a hand-typed selection whose first piece is non-empty but not a decimal numeral yields no id, and the model rejects the lend or the return. The code instead binds the text itself and leaves it to SQLite's type affinity. Text that affinity reads as a number (such as "+1", "1.0" or "1e0", all read as 1) is stored or matched as that integer, so the lend inserts a transaction for that id and the return updates that transaction. Any other text is stored as text: a lend stores a transaction whose file or user id never joins, and a return matches no row.
- LendingLedger.Ledger.LendFile: inherits the deviation of `Labels.SelectedId` for hand-typed selections whose first piece is not a decimal numeral.
- LendingLedger.Ledger.ReturnFile: inherits the deviation of `Labels.SelectedId` for hand-typed selections whose first piece is not a decimal numeral.
- Tables.NextRowid: ids are unbounded. SQLite's fallback to a random rowid once the largest rowid reaches 2^63-1 is not modelled.
- Row order is not promised by the program: neither SELECT has an `ORDER BY`. The model builds every query in table order. `Queries.LendListsLoan`, `Queries.JoinAppend` and `Queries.UnreturnedAppend` are equations between sequences, so they also state that the new row comes last. That holds for the model's table order, and for the program only up to order. `Queries.LendAddsLoan` states the lend fact up to order, as a multiset equation.
- `LendingLedger.Ledger.constructor` models a new, empty database. A database file left by earlier runs is covered only when those runs used these same operations.
