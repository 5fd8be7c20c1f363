# dbcc schema differ, modelled in Dafny

dbcc checks a candidate database against the deployed one for breaking
changes. It reflects both databases into schema snapshots. It then compares
every old table with the new snapshot by qualified name (`schema.name`, or
the bare name when there is no schema). For every matched table it compares
the old columns by name. The comparison produces two lists:

- errors: a table or a column that is gone;
- warnings: a column whose type string changed.

Tables and columns that exist only in the new snapshot are never mentioned.
Finally dbcc prints the warnings, then the errors, and exits with status 1
when there is at least one error.

This project models that comparison and the exit decision, and proves what
they promise.

- `schema.dfy` (module `Schema`) holds the snapshot shape (`Table`, `Column`), the
  qualified-name rule, and the two first-match lookups `FindTable` and
  `FindColumn`. Both lookups are built on one first-hit scan, `FirstIndex`.
- `messages.dfy` (module `Messages`) holds the three message texts, exactly
  as the code builds them, and the facts that let a message be traced back
  to its table.
- `reports.dfy` (module `Reports`) holds the report: two append-only lists. It
  also holds `ConcatMap`, the report produced by running one step per
  element in order, with its generic laws (appending, membership,
  emptiness, counting, bounds).
- `differ.dfy` (module `Differ`) states, per column, per table and for the
  whole run, which messages must appear (`ColumnMessages`, `TableMessages`,
  `ExpectedMessages`). It also holds the imperative nested-loop algorithm:
  - `CompareColumn` is the inner scan, with its `column_found` flag and `break`;
  - `CompareColumns` is the column loop;
  - `CompareTable` is the table scan, with its `table_found` flag and `break`;
  - `Diff` is the outer loop.

  Each method is proved to produce exactly the specified report.
- `diff_properties.dfy` (module `DiffProperties`) proves the properties of
  that report: when a table or a column is reported, that the first match
  wins, where every message comes from, the bounds, the order, when the
  report is clean, and that additions are silent.
- `reporter.dfy` (module `Reporter`) covers the end of the run: the printed
  lines (warnings first, then errors, each tagged) and the exit status.
- `scenarios.dfy` (module `Scenarios`) gives concrete runs on small snapshots.

## Model

| member | source | states |
|---|---|---|
| `Schema.QualifiedName` | dbcc.py:34-40 | The qualified name is never shorter than the table name. It has exactly the table name's length when there is no schema. |
| `Schema.QualifiedNameShape` | dbcc.py:34-40 | The qualified name ends with the table name. It equals the bare name exactly when the schema is empty. Otherwise it is the schema, a dot, and the name. Old and new tables use this one rule. |
| `Schema.FirstIndex` | dbcc.py:37-42 | The scan returns the index of the first element that passes the test, with every earlier element failing it. It returns None exactly when no element passes. |
| `Schema.FindTable` | dbcc.py:37-42 | Finds the index of the FIRST new table whose qualified name equals the old one, and no earlier table matches. It returns None exactly when no new table has that name. |
| `Schema.FindColumn` | dbcc.py:48-51 | Finds the index of the FIRST new column with the old column's name, and no earlier column matches. It returns None exactly when no new column has that name. |
| `Schema.FindTableInUnique` | dbcc.py:38-42 | In a snapshot with unique qualified names, each table is the first match for its own name. |
| `Schema.FindColumnInUnique` | dbcc.py:48-51 | In a table with unique column names, each column is the first match for its own name. |
| `Messages.TableMissing` | dbcc.py:69 | The table-level error is `table `, then the qualified name, then ` not found in new DB`. |
| `Messages.ColumnMissing` | dbcc.py:62-64 | The column-level error is `column `, then `table.column`, then ` not found in new DB`. |
| `Messages.TypeChanged` | dbcc.py:54-57 | The type-change warning starts with `in old DB column ` and ends with the new type string. |
| `Messages.MissingTableRoundTrip` | dbcc.py:69 | The table name can be read back from the table-level error text. |
| `Messages.TableMissingInjective` | dbcc.py:69 | Two table-level errors are equal if and only if they name the same table. |
| `Messages.ColumnMissingIsNotTableMissing` | dbcc.py:62-69 | A column-level error never equals a table-level error. |
| `Messages.TypeChangedIsNotAnError` | dbcc.py:54-69 | A type-change warning never equals an error of either kind. |
| `Differ.ColumnMessages` | dbcc.py:45-64 | Specification of one old column's messages. They are at most one message in all, and an error exactly when no new column has the column's name. |
| `Differ.ColumnsMessages` | dbcc.py:44-64 | Specification of a matched table's column messages: each old column's messages, in old-column order. Its properties are the `DiffProperties.Column*` lemmas. |
| `Differ.TableMessages` | dbcc.py:33-69 | Specification of one old table's messages: the table-level error when no new table has its qualified name, else its column messages against the first match. Its properties are the `DiffProperties.Table*` lemmas. |
| `Differ.ExpectedMessages` | dbcc.py:31-69 | Specification of the whole report: each old table's messages, in old-table order. Its properties are the whole-report lemmas of `DiffProperties`. |
| `Differ.ColumnMessagesWhenFound` | dbcc.py:49-59 | When new column k is the first with the old column's name, the outcome depends on k's type string alone: one warning carrying both type strings if it differs, nothing if it is equal. |
| `Differ.TableMessagesWhenFound` | dbcc.py:38-45 | When new table j is the first with the old table's qualified name, the old table's messages are those of its columns compared with table j's columns. |
| `Differ.CompareColumn` | dbcc.py:46-64 | The inner scan with its found flag and `break`. It produces exactly the specified messages for one old column: one error if no new column has its name, else a warning if the first match's type differs. |
| `Differ.CompareColumns` | dbcc.py:44-64 | The column loop produces the specified messages of a matched table's columns, in old-column order. |
| `Differ.CompareTable` | dbcc.py:33-69 | The table scan with its found flag and `break` produces the specified messages for one old table. A table with no match gets one table-level error. A matched table gets its column messages against the first match. |
| `Differ.Diff` | dbcc.py:31-69 | The whole diff loop returns exactly the specified warnings and errors, in old-table order. |
| `DiffProperties.ColumnOutcome` | dbcc.py:45-64 | An old column yields exactly one error if and only if no new column has its name. It never yields both an error and a warning. It yields at most one warning, and does so if and only if the first same-named column's type string differs. |
| `DiffProperties.ColumnMessagesShape` | dbcc.py:53-64 | A column error names that column. A column warning carries its old type string and the type string of a new column. |
| `DiffProperties.ColumnsMessagesBound` | dbcc.py:45-64 | A matched table yields at most one message per old column. |
| `DiffProperties.ColumnErrorsFromOldColumns` | dbcc.py:61-64 | Every column error of a matched table names one of its old columns under the table's qualified name. |
| `DiffProperties.ColumnWarningsFromOldColumns` | dbcc.py:53-57 | Every warning of a matched table names one of its old columns, with that column's old type string and a new column's type string. |
| `DiffProperties.ColumnsCleanIff` | dbcc.py:45-64 | A matched table has no column errors if and only if every old column is found. It has no warnings if and only if every found column keeps its type string. |
| `DiffProperties.FirstTableMatchWins` | dbcc.py:41-66 | New tables after the first match do not change an old table's messages, whatever they contain. |
| `DiffProperties.FirstColumnMatchWins` | dbcc.py:50-59 | New columns after the first same-named one do not change an old column's messages. |
| `DiffProperties.TableMissingOutcome` | dbcc.py:38-69 | An old table yields exactly the single table-level error, and no column messages, if and only if no new table has its qualified name. |
| `DiffProperties.TableMessagesFromOldTable` | dbcc.py:33-69 | An old table yields at most 1 + #columns messages, and at most #columns warnings. Each message names the table's qualified name and, for column messages, one of its old columns. |
| `DiffProperties.TableMissingOnlyForItself` | dbcc.py:68-69 | An old table's messages contain a table-level error for q if and only if q is its own qualified name and q has no match. The error then appears exactly once. |
| `DiffProperties.MessagesInOldTableOrder` | dbcc.py:32-69 | The report for old tables `first + second` is the report for `first` followed by the report for `second`. Nothing is sorted, merged or dropped. |
| `DiffProperties.SingleTableReport` | dbcc.py:32-69 | The report over one old table is that table's messages. |
| `DiffProperties.SingleColumnMessages` | dbcc.py:45-64 | The messages over one old column are that column's messages. |
| `DiffProperties.MessagesArePrefixExtended` | dbcc.py:54-69 | Both lists after i old tables are prefixes of the lists after k ≥ i old tables (append-only). |
| `DiffProperties.MessagesBound` | dbcc.py:32-69 | \|errors\| + \|warnings\| ≤ #old tables + #old columns, and \|warnings\| ≤ #old columns. |
| `DiffProperties.ErrorsNameOldTables` | dbcc.py:61-69 | Every error names an old table: either that the table is missing, or one of its old columns. |
| `DiffProperties.WarningsNameOldColumns` | dbcc.py:53-57 | Every warning names an old column of an old table, with its old type string and a new column's type string. |
| `DiffProperties.TableMissingReported` | dbcc.py:68-69 | An old table's table-level error is in the report if and only if no new table has its qualified name. |
| `DiffProperties.TableMissingExactlyOnce` | dbcc.py:68-69 | With unique old qualified names, that error occurs exactly once when the name has no match, and zero times otherwise. |
| `DiffProperties.CleanReportIff` | dbcc.py:31-69 | There are no errors if and only if every old table and all of its columns are found. There are no warnings if and only if no found column changed its type string. |
| `DiffProperties.IdenticalSchemasAreClean` | dbcc.py:41-64 | Comparing a snapshot with unique names with itself gives empty warnings and empty errors. |
| `DiffProperties.AddedTableIsSilent` | dbcc.py:38-42 | Inserting a new table anywhere, under a qualified name that no old table has, leaves the report unchanged. |
| `DiffProperties.AddedColumnIsSilent` | dbcc.py:38-51 | Inserting a new column anywhere into a new table leaves the report unchanged. The only condition is that no old table with that new table's qualified name has a column of that name. |
| `DiffProperties.FirstIndexSkipsInserted` | dbcc.py:38-42 | Inserting an element that fails the test moves the first hit one place when it lay after the insertion point, and keeps it otherwise. |
| `DiffProperties.FirstIndexReplaced` | dbcc.py:38-42 | Replacing an element with one that has the same test outcome leaves the first hit unchanged. |
| `DiffProperties.FirstIndexAppend` | dbcc.py:38-42 | The first hit in `a + b` is the first hit in `a`, or else the first hit in `b` shifted past `a`. |
| `Reporter.Tagged` | dbcc.py:72-77 | Each printed line is its message with the tag in front, in the same order. |
| `Reporter.Transcript` | dbcc.py:71-77 | The printed lines are all warnings (tagged `WARNING: `) followed by all errors (tagged `ERROR: `). |
| `Reporter.ExitStatus` | dbcc.py:75-79 | The exit status is 0 or 1, and 1 exactly when there is an error. |
| `Reporter.WarningsNeverFail` | dbcc.py:71-79 | The exit status does not depend on the warnings. Warnings alone give status 0. |
| `Reporter.CheckFailsIff` | dbcc.py:61-79 | A run exits with 1 if and only if some old table, or some column of a found old table, is missing from the new snapshot. |
| `Reporter.IdenticalSchemasPass` | dbcc.py:31-79 | A snapshot with unique names compared with itself prints nothing and exits with 0. |
| `Reporter.Report` | dbcc.py:71-79 | The two print loops produce exactly the transcript, and the status is the exit status of the report. |
| `Reporter.Check` | dbcc.py:31-79 | A whole run prints the transcript of the specified report. It exits with 1 if and only if something old is missing. |
| `Scenarios.MissingQualifiedTable` | dbcc.py:34-35 | `sales.orders` gone from the new snapshot gives exactly one error naming `sales.orders`, no column messages, and status 1. |
| `Scenarios.MissingQualifiedTableText` | dbcc.py:69 | That error reads `table sales.orders not found in new DB`. |
| `Scenarios.TypeChangeOnlyWarns` | dbcc.py:53-57 | `t.age` going from INTEGER to BIGINT gives one warning, no error, and status 0. |
| `Scenarios.DiscrepanciesAccumulate` | dbcc.py:31-69 | A missing table and a changed column of another table are both reported in one run. A new-only table is not mentioned. |
| `Scenarios.AccumulateMissingTable` | dbcc.py:68-69 | In that run, table `a` yields only its table-level error. |
| `Scenarios.AccumulateChangedColumn` | dbcc.py:41-59 | In that run, table `b` yields only the warning for `x`. |
| `Scenarios.DuplicateColumnNamesAreNotClean` | dbcc.py:49-59 | With two columns named `v`, a snapshot compared with itself warns: the second `v` is compared with the first match. |

## Left out

- Argument parsing (dbcc.py:12-21) is left out. It is command-line plumbing.
- Engine creation and `MetaData.reflect` (dbcc.py:23-29) are left out. They are database I/O in a foreign library. The two reflected snapshots are the inputs of `Differ.Diff`.
- The order that `sorted_tables` gives the tables (a dependency sort done by the library) is not modelled. Each snapshot's table order is taken as given.
- How a column type renders through `str(column.type)` is not modelled. A type is an opaque string, compared only for equality.
- `print` and `exit` (dbcc.py:71-79) are not performed. `Reporter.Report` returns the printed lines and the exit status as values.
- The table's schema is a string. Python's `None` and the empty string are both falsy and both drop the prefix, so both are modelled as `""`.
- The four nested loops of `main()` are split into four methods, one per loop level, with the flags and `break`s kept. Each method is proved against its own part of the specification.
- Duplicate table or column names have no special handling in the code beyond first-match-wins, and the model follows that exactly. Uniqueness is required only by lemmas about counts and about a snapshot compared with itself. These are `Schema.FindTableInUnique`, `Schema.FindColumnInUnique`, `DiffProperties.TableMissingExactlyOnce`, `DiffProperties.IdenticalSchemasAreClean` and `Reporter.IdenticalSchemasPass`. `Scenarios.DuplicateColumnNamesAreNotClean` shows that the self-comparison lemmas need it.
- The type-change warning uses the text dbcc.py:54-57 builds: `in old DB column {q}.{c} has type {old}, while in new DB type changed to {new}`.
