/** Concrete runs of the differ on small snapshots, with the exact report and
    exit status each one produces. */
module Scenarios {
  import opened Schema
  import opened Reports
  import opened Differ
  import opened Reporter
  import opened Messages
  import opened DiffProperties

  /** A table in a named schema that is gone from the new snapshot is
      reported once, under its schema-qualified name, and nothing is said
      about its columns; the run fails. */
  lemma MissingQualifiedTable()
    ensures var oldTables := [Table("sales", "orders", [Column("id", "INTEGER")])];
      && ExpectedMessages(oldTables, []) == DiffReport([], [TableMissing("sales.orders")])
      && ExitStatus(ExpectedMessages(oldTables, [])) == 1
  {
    var t := Table("sales", "orders", [Column("id", "INTEGER")]);
    assert QualifiedName(t) == "sales.orders";
    SingleTableReport(t, []);
  }

  /** The text of that error, spelled out. */
  lemma MissingQualifiedTableText()
    ensures TableMissing("sales.orders") == "table sales.orders not found in new DB"
  {
  }

  /** A changed type string is a warning only, and the run succeeds. */
  lemma TypeChangeOnlyWarns()
    ensures var oldTables := [Table("", "t", [Column("age", "INTEGER")])];
            var newTables := [Table("", "t", [Column("age", "BIGINT")])];
      && ExpectedMessages(oldTables, newTables)
         == DiffReport([TypeChanged("t", "age", "INTEGER", "BIGINT")], [])
      && ExitStatus(ExpectedMessages(oldTables, newTables)) == 0
  {
    var c, c' := Column("age", "INTEGER"), Column("age", "BIGINT");
    var t, t' := Table("", "t", [c]), Table("", "t", [c']);
    assert QualifiedName(t) == "t" && QualifiedName(t') == "t";
    SingleTableReport(t, [t']);
    TableMessagesWhenFound(t, [t'], 0);
    SingleColumnMessages("t", c, [c']);
    ColumnMessagesWhenFound("t", c, [c'], 0);
  }

  /** One run collects every discrepancy: a missing table is an error and a
      changed column of another table is a warning; a table that exists only
      in the new snapshot is not mentioned. */
  lemma DiscrepanciesAccumulate()
    ensures var oldTables := [Table("", "a", []), Table("", "b", [Column("x", "INTEGER")])];
            var newTables := [Table("", "audit_log", []), Table("", "b", [Column("x", "TEXT")])];
      ExpectedMessages(oldTables, newTables)
        == DiffReport([TypeChanged("b", "x", "INTEGER", "TEXT")], [TableMissing("a")])
  {
    var x, x' := Column("x", "INTEGER"), Column("x", "TEXT");
    var a, b := Table("", "a", []), Table("", "b", [x]);
    var newTables := [Table("", "audit_log", []), Table("", "b", [x'])];
    assert [a] + [b] == [a, b];
    MessagesInOldTableOrder([a], [b], newTables);
    SingleTableReport(a, newTables);
    SingleTableReport(b, newTables);
    AccumulateMissingTable();
    AccumulateChangedColumn();
  }

  lemma AccumulateMissingTable()
    ensures TableMessages(Table("", "a", []), [Table("", "audit_log", []), Table("", "b", [Column("x", "TEXT")])])
         == DiffReport([], [TableMissing("a")])
  {
    var newTables := [Table("", "audit_log", []), Table("", "b", [Column("x", "TEXT")])];
    assert QualifiedName(newTables[0]) == "audit_log" && QualifiedName(newTables[1]) == "b";
    assert "audit_log" != "a" && "b" != "a";
    TableMissingOutcome(Table("", "a", []), newTables);
  }

  lemma AccumulateChangedColumn()
    ensures TableMessages(Table("", "b", [Column("x", "INTEGER")]),
                          [Table("", "audit_log", []), Table("", "b", [Column("x", "TEXT")])])
         == DiffReport([TypeChanged("b", "x", "INTEGER", "TEXT")], [])
  {
    var x, x' := Column("x", "INTEGER"), Column("x", "TEXT");
    var b := Table("", "b", [x]);
    var newTables := [Table("", "audit_log", []), Table("", "b", [x'])];
    assert QualifiedName(newTables[0]) == "audit_log" && QualifiedName(newTables[1]) == "b";
    assert "audit_log" != "b";
    TableMessagesWhenFound(b, newTables, 1);
    SingleColumnMessages("b", x, [x']);
    ColumnMessagesWhenFound("b", x, [x'], 0);
  }

  /** Without unique column names a snapshot is not clean against itself:
      the second `v` column is compared with the first one, the first match,
      and its type string differs. */
  lemma DuplicateColumnNamesAreNotClean()
    ensures var tables := [Table("", "t", [Column("v", "INTEGER"), Column("v", "TEXT")])];
      ExpectedMessages(tables, tables).warnings
        == [TypeChanged("t", "v", "TEXT", "INTEGER")]
  {
    var v, v' := Column("v", "INTEGER"), Column("v", "TEXT");
    var cols := [v, v'];
    var t := Table("", "t", cols);
    assert QualifiedName(t) == "t";
    SingleTableReport(t, [t]);
    TableMessagesWhenFound(t, [t], 0);
    assert [v] + [v'] == cols;
    ConcatMapAppend(col => ColumnMessages("t", col, cols), [v], [v']);
    SingleColumnMessages("t", v, cols);
    SingleColumnMessages("t", v', cols);
    ColumnMessagesWhenFound("t", v, cols, 0);
    ColumnMessagesWhenFound("t", v', cols, 0);
  }
}
