/** The schema differ: compares every old table with the first new table of
    the same qualified name, and every column of a matched old table with the
    first new column of the same name. Missing tables and columns become
    errors, changed type strings become warnings, additions are silent.

    `ExpectedMessages` states, table by table and column by column, what the
    report must hold; `Diff` is the nested-loop algorithm, proved to produce
    exactly that report. */
module Differ {
  import opened Schema
  import opened Messages
  import opened Reports

  /** What one old column contributes, given the columns of the new table its
      table matched: an error when no new column has its name, a warning when
      the first same-named new column has another type string, else nothing. */
  function ColumnMessages(q: string, c: Column, newColumns: seq<Column>): (r: DiffReport)
    ensures |r.errors| + |r.warnings| <= 1
    ensures r.errors != [] <==> FindColumn(c.name, newColumns).None?
  {
    match FindColumn(c.name, newColumns)
    case None => DiffReport([], [ColumnMissing(q, c.name)])
    case Some(k) =>
      if c.typ != newColumns[k].typ
      then DiffReport([TypeChanged(q, c.name, c.typ, newColumns[k].typ)], [])
      else NoMessages
  }

  /** What the columns of a matched old table contribute, in old-column order. */
  function ColumnsMessages(q: string, oldColumns: seq<Column>, newColumns: seq<Column>): DiffReport {
    ConcatMap(col => ColumnMessages(q, col, newColumns), oldColumns)
  }

  /** What one old table contributes: a single table-level error when no new
      table has its qualified name, else the messages of its columns against
      the first new table with that name. */
  function TableMessages(t: Table, newTables: seq<Table>): DiffReport {
    var q := QualifiedName(t);
    match FindTable(q, newTables)
    case None => DiffReport([], [TableMissing(q)])
    case Some(j) => ColumnsMessages(q, t.columns, newTables[j].columns)
  }

  /** The whole report, in old-table order. */
  function ExpectedMessages(oldTables: seq<Table>, newTables: seq<Table>): DiffReport {
    ConcatMap(t => TableMessages(t, newTables), oldTables)
  }

  /** The first same-named new column decides what an old column
      contributes. */
  lemma ColumnMessagesWhenFound(q: string, c: Column, newColumns: seq<Column>, k: nat)
    requires k < |newColumns| && newColumns[k].name == c.name
    requires forall l :: 0 <= l < k ==> newColumns[l].name != c.name
    ensures ColumnMessages(q, c, newColumns)
         == if c.typ != newColumns[k].typ
            then DiffReport([TypeChanged(q, c.name, c.typ, newColumns[k].typ)], [])
            else NoMessages
  {
    assert FindColumn(c.name, newColumns) == Some(k);
  }

  lemma TableMessagesWhenFound(t: Table, newTables: seq<Table>, j: nat)
    requires j < |newTables| && QualifiedName(newTables[j]) == QualifiedName(t)
    requires forall l :: 0 <= l < j ==> QualifiedName(newTables[l]) != QualifiedName(t)
    ensures TableMessages(t, newTables) == ColumnsMessages(QualifiedName(t), t.columns, newTables[j].columns)
  {
    assert FindTable(QualifiedName(t), newTables) == Some(j);
  }

  /** The search for one old column: scans the new table's columns in order
      and stops at the first one with the same name; a changed type string is
      a warning, a name that is not found an error. */
  method CompareColumn(q: string, oldColumn: Column, newColumns: seq<Column>)
    returns (warnings: seq<string>, errors: seq<string>)
    ensures DiffReport(warnings, errors) == ColumnMessages(q, oldColumn, newColumns)
  {
    warnings, errors := [], [];
    var columnFound := false;
    var k := 0;
    while k < |newColumns|
      invariant 0 <= k <= |newColumns|
      invariant !columnFound && warnings == [] && errors == []
      invariant forall l :: 0 <= l < k ==> newColumns[l].name != oldColumn.name
    {
      var newColumn := newColumns[k];
      if oldColumn.name == newColumn.name {
        columnFound := true;
        ColumnMessagesWhenFound(q, oldColumn, newColumns, k);
        if oldColumn.typ != newColumn.typ {
          warnings := warnings + [TypeChanged(q, oldColumn.name, oldColumn.typ, newColumn.typ)];
        }
        break;
      }
      k := k + 1;
    }
    if !columnFound {
      errors := errors + [ColumnMissing(q, oldColumn.name)];
    }
  }

  /** The column loop for one matched pair of tables, in old-column order. */
  method CompareColumns(q: string, oldColumns: seq<Column>, newColumns: seq<Column>)
    returns (warnings: seq<string>, errors: seq<string>)
    ensures DiffReport(warnings, errors) == ColumnsMessages(q, oldColumns, newColumns)
  {
    warnings, errors := [], [];
    for c := 0 to |oldColumns|
      invariant DiffReport(warnings, errors) == ColumnsMessages(q, oldColumns[..c], newColumns)
    {
      ConcatMapStep(col => ColumnMessages(q, col, newColumns), oldColumns, c);
      var columnWarnings, columnErrors := CompareColumn(q, oldColumns[c], newColumns);
      warnings, errors := warnings + columnWarnings, errors + columnErrors;
    }
    assert oldColumns[..|oldColumns|] == oldColumns;
  }

  /** The search for one old table: scans the new tables in order and stops
      at the first one with the same qualified name, whose columns are then
      compared; a table that is not found is an error. */
  method CompareTable(oldTable: Table, newTables: seq<Table>) returns (warnings: seq<string>, errors: seq<string>)
    ensures DiffReport(warnings, errors) == TableMessages(oldTable, newTables)
  {
    warnings, errors := [], [];
    var tableFound := false;
    var oldTableName := QualifiedName(oldTable);
    var j := 0;
    while j < |newTables|
      invariant 0 <= j <= |newTables|
      invariant !tableFound && warnings == [] && errors == []
      invariant forall l :: 0 <= l < j ==> QualifiedName(newTables[l]) != oldTableName
    {
      var newTable := newTables[j];
      var newTableName := QualifiedName(newTable);
      if oldTableName == newTableName {
        tableFound := true;
        TableMessagesWhenFound(oldTable, newTables, j);
        warnings, errors := CompareColumns(oldTableName, oldTable.columns, newTable.columns);
        break;
      }
      j := j + 1;
    }
    if !tableFound {
      errors := errors + [TableMissing(oldTableName)];
    }
  }

  /** The diff loop over the old tables, in their given order. */
  method Diff(oldTables: seq<Table>, newTables: seq<Table>) returns (warnings: seq<string>, errors: seq<string>)
    ensures DiffReport(warnings, errors) == ExpectedMessages(oldTables, newTables)
  {
    warnings, errors := [], [];
    for i := 0 to |oldTables|
      invariant DiffReport(warnings, errors) == ExpectedMessages(oldTables[..i], newTables)
    {
      ConcatMapStep(t => TableMessages(t, newTables), oldTables, i);
      var tableWarnings, tableErrors := CompareTable(oldTables[i], newTables);
      warnings, errors := warnings + tableWarnings, errors + tableErrors;
    }
    assert oldTables[..|oldTables|] == oldTables;
  }
}
