/** What the differ promises about its report: when a table or a column is
    reported, that only the first match counts, where every message comes
    from, that additions are silent, the order of the messages, and when the
    report is clean. */
module DiffProperties {
  import opened Schema
  import opened Messages
  import opened Reports
  import opened Differ

  // ---------------------------------------------------------------------
  // One old column

  /** An old column yields exactly one error when no new column has its
      name, and otherwise at most one warning, issued exactly when the FIRST
      same-named new column has a different type string. */
  lemma ColumnOutcome(q: string, c: Column, newColumns: seq<Column>)
    ensures var r := ColumnMessages(q, c, newColumns);
      && (r.errors == if forall k :: 0 <= k < |newColumns| ==> newColumns[k].name != c.name
                      then [ColumnMissing(q, c.name)] else [])
      && |r.warnings| <= 1
      && (r.errors == [] || r.warnings == [])
      && (r.warnings != [] <==>
            exists k :: 0 <= k < |newColumns| && newColumns[k].name == c.name
                        && (forall l :: 0 <= l < k ==> newColumns[l].name != c.name)
                        && newColumns[k].typ != c.typ)
  {
    match FindColumn(c.name, newColumns)
    case None =>
    case Some(k) =>
      forall k' | 0 <= k' < |newColumns| && newColumns[k'].name == c.name
        && (forall l :: 0 <= l < k' ==> newColumns[l].name != c.name)
        ensures k' == k
      {
      }
  }

  /** The error an old column yields names it; the warning it yields carries
      its old type string and the type string of a new column. */
  lemma ColumnMessagesShape(q: string, c: Column, newColumns: seq<Column>)
    ensures forall e :: e in ColumnMessages(q, c, newColumns).errors ==> e == ColumnMissing(q, c.name)
    ensures forall w :: w in ColumnMessages(q, c, newColumns).warnings ==>
      exists d :: d in newColumns && w == TypeChanged(q, c.name, c.typ, d.typ)
  {
    match FindColumn(c.name, newColumns)
    case None =>
    case Some(k) =>
      assert newColumns[k] in newColumns;
  }

  /** The first new column named like `c`, if any, has `c`'s type string. */
  predicate SameTypeAsFirstMatch(c: Column, newColumns: seq<Column>) {
    match FindColumn(c.name, newColumns)
    case None => true
    case Some(k) => newColumns[k].typ == c.typ
  }

  // ---------------------------------------------------------------------
  // The columns of one matched table

  /** Each old column of a matched table yields at most one message. */
  lemma ColumnsMessagesBound(q: string, oldColumns: seq<Column>, newColumns: seq<Column>)
    ensures var r := ColumnsMessages(q, oldColumns, newColumns);
      |r.errors| + |r.warnings| <= |oldColumns|
  {
    var step := col => ColumnMessages(q, col, newColumns);
    forall c | c in oldColumns
      ensures |step(c).errors| + |step(c).warnings| <= 1
    {
      ColumnOutcome(q, c, newColumns);
    }
    ConcatMapBounds(step, oldColumns, _ => 1, _ => 1);
    SumOfOnes(oldColumns);
  }

  /** Every error about a matched table's columns names an old column of
      that table under the table's qualified name. */
  lemma ColumnErrorsFromOldColumns(q: string, oldColumns: seq<Column>, newColumns: seq<Column>)
    ensures forall e :: e in ColumnsMessages(q, oldColumns, newColumns).errors ==>
      exists c :: c in oldColumns && e == ColumnMissing(q, c.name)
  {
    var step := col => ColumnMessages(q, col, newColumns);
    forall e | e in ColumnsMessages(q, oldColumns, newColumns).errors
      ensures exists c :: c in oldColumns && e == ColumnMissing(q, c.name)
    {
      ConcatMapMember(step, oldColumns, e);
      var i :| 0 <= i < |oldColumns| && e in step(oldColumns[i]).errors;
      ColumnMessagesShape(q, oldColumns[i], newColumns);
    }
  }

  /** Every warning about a matched table's columns names an old column of
      that table under the table's qualified name, with its old type string
      and the type string of a new column. */
  lemma ColumnWarningsFromOldColumns(q: string, oldColumns: seq<Column>, newColumns: seq<Column>)
    ensures forall w :: w in ColumnsMessages(q, oldColumns, newColumns).warnings ==>
      exists c, d :: c in oldColumns && d in newColumns && w == TypeChanged(q, c.name, c.typ, d.typ)
  {
    var step := col => ColumnMessages(q, col, newColumns);
    forall w | w in ColumnsMessages(q, oldColumns, newColumns).warnings
      ensures exists c, d :: c in oldColumns && d in newColumns && w == TypeChanged(q, c.name, c.typ, d.typ)
    {
      ConcatMapMember(step, oldColumns, w);
      var i :| 0 <= i < |oldColumns| && w in step(oldColumns[i]).warnings;
      ColumnMessagesShape(q, oldColumns[i], newColumns);
      var d :| d in newColumns && w == TypeChanged(q, oldColumns[i].name, oldColumns[i].typ, d.typ);
    }
  }

  lemma {:induction false} SumOfOnes<T>(xs: seq<T>)
    ensures Sum(_ => 1, xs) == |xs|
    decreases |xs|
  {
    if xs != [] {
      SumOfOnes(xs[..|xs| - 1]);
    }
  }

  /** A matched table's columns produce no error exactly when every old
      column has a same-named column in the new table, and no warning exactly
      when every old column keeps the type string of its first same-named
      new column. */
  lemma ColumnsCleanIff(q: string, oldColumns: seq<Column>, newColumns: seq<Column>)
    ensures ColumnsMessages(q, oldColumns, newColumns).errors == []
        <==> forall c :: c in oldColumns ==> FindColumn(c.name, newColumns).Some?
    ensures ColumnsMessages(q, oldColumns, newColumns).warnings == []
        <==> forall c :: c in oldColumns ==> SameTypeAsFirstMatch(c, newColumns)
  {
    var step := col => ColumnMessages(q, col, newColumns);
    ConcatMapNoErrorsIff(step, oldColumns);
    ConcatMapNoWarningsIff(step, oldColumns);
    forall c | c in oldColumns
      ensures step(c).errors == [] <==> FindColumn(c.name, newColumns).Some?
      ensures step(c).warnings == [] <==> SameTypeAsFirstMatch(c, newColumns)
    {
      match FindColumn(c.name, newColumns)
      case None =>
      case Some(k) =>
    }
  }

  // ---------------------------------------------------------------------
  // One old table

  /** First match wins: the columns of an old table are compared only with
      those of the FIRST new table that has its qualified name; tables after
      it are never consulted. */
  lemma FirstTableMatchWins(t: Table, newTables: seq<Table>, j: nat, later: seq<Table>)
    requires j < |newTables| && QualifiedName(newTables[j]) == QualifiedName(t)
    requires forall l :: 0 <= l < j ==> QualifiedName(newTables[l]) != QualifiedName(t)
    ensures TableMessages(t, newTables[..j + 1] + later) == TableMessages(t, newTables)
  {
    var n' := newTables[..j + 1] + later;
    TableMessagesWhenFound(t, newTables, j);
    assert n'[j] == newTables[j];
    TableMessagesWhenFound(t, n', j);
  }

  /** First match wins for columns too: new columns after the first one
      with an old column's name are never consulted. */
  lemma FirstColumnMatchWins(q: string, c: Column, newColumns: seq<Column>, k: nat, later: seq<Column>)
    requires k < |newColumns| && newColumns[k].name == c.name
    requires forall l :: 0 <= l < k ==> newColumns[l].name != c.name
    ensures ColumnMessages(q, c, newColumns[..k + 1] + later) == ColumnMessages(q, c, newColumns)
  {
    var n' := newColumns[..k + 1] + later;
    ColumnMessagesWhenFound(q, c, newColumns, k);
    assert n'[k] == newColumns[k];
    ColumnMessagesWhenFound(q, c, n', k);
  }

  /** An old table yields the single table-level error, and nothing about its
      columns, exactly when no new table has its qualified name. */
  lemma TableMissingOutcome(t: Table, newTables: seq<Table>)
    ensures TableMessages(t, newTables) == DiffReport([], [TableMissing(QualifiedName(t))])
        <==> forall j :: 0 <= j < |newTables| ==> QualifiedName(newTables[j]) != QualifiedName(t)
  {
    var q := QualifiedName(t);
    match FindTable(q, newTables)
    case None =>
    case Some(j) =>
      var r := ColumnsMessages(q, t.columns, newTables[j].columns);
      ColumnErrorsFromOldColumns(q, t.columns, newTables[j].columns);
      forall c | c in t.columns ensures ColumnMissing(q, c.name) != TableMissing(q) {
        ColumnMissingIsNotTableMissing(q, c.name, q);
      }
      assert TableMissing(q) !in r.errors;
  }

  /** Every message about one old table names that table's qualified name;
      a missing table yields one message, a matched one at most one per old
      column. */
  lemma TableMessagesFromOldTable(t: Table, newTables: seq<Table>)
    ensures var r := TableMessages(t, newTables); var q := QualifiedName(t);
      && |r.errors| + |r.warnings| <= 1 + |t.columns|
      && |r.warnings| <= |t.columns|
      && (forall e :: e in r.errors ==>
            e == TableMissing(q) || exists c :: c in t.columns && e == ColumnMissing(q, c.name))
      && (forall w :: w in r.warnings ==>
            exists c, j, d :: c in t.columns && 0 <= j < |newTables| && d in newTables[j].columns
                              && w == TypeChanged(q, c.name, c.typ, d.typ))
  {
    var q := QualifiedName(t);
    match FindTable(q, newTables)
    case None =>
    case Some(j) =>
      ColumnsMessagesBound(q, t.columns, newTables[j].columns);
      ColumnErrorsFromOldColumns(q, t.columns, newTables[j].columns);
      ColumnWarningsFromOldColumns(q, t.columns, newTables[j].columns);
      var r := TableMessages(t, newTables);
      forall w | w in r.warnings
        ensures exists c, j, d :: c in t.columns && 0 <= j < |newTables| && d in newTables[j].columns
                                  && w == TypeChanged(q, c.name, c.typ, d.typ)
      {
        var c, d :| c in t.columns && d in newTables[j].columns && w == TypeChanged(q, c.name, c.typ, d.typ);
      }
  }

  /** A table-level error among one old table's messages is always about that
      table's own qualified name, and appears (once) only when that name is
      missing from the new snapshot. */
  lemma TableMissingOnlyForItself(t: Table, newTables: seq<Table>, q: string)
    ensures TableMissing(q) in TableMessages(t, newTables).errors
        <==> q == QualifiedName(t) && FindTable(q, newTables).None?
    ensures multiset(TableMessages(t, newTables).errors)[TableMissing(q)]
         == if q == QualifiedName(t) && FindTable(q, newTables).None? then 1 else 0
  {
    var r := TableMessages(t, newTables);
    match FindTable(QualifiedName(t), newTables)
    case None =>
      TableMissingInjective(q, QualifiedName(t));
    case Some(j) =>
      ColumnErrorsFromOldColumns(QualifiedName(t), t.columns, newTables[j].columns);
      forall c | c in t.columns ensures ColumnMissing(QualifiedName(t), c.name) != TableMissing(q) {
        ColumnMissingIsNotTableMissing(QualifiedName(t), c.name, q);
      }
  }

  // ---------------------------------------------------------------------
  // The whole report

  /** Messages come in old-table order: the report over two runs of old
      tables is the report over the first followed by that over the second. */
  lemma MessagesInOldTableOrder(first: seq<Table>, second: seq<Table>, newTables: seq<Table>)
    ensures ExpectedMessages(first + second, newTables)
         == Concat(ExpectedMessages(first, newTables), ExpectedMessages(second, newTables))
  {
    ConcatMapAppend(t => TableMessages(t, newTables), first, second);
  }

  /** The report over a single old table is that table's messages. */
  lemma SingleTableReport(t: Table, newTables: seq<Table>)
    ensures ExpectedMessages([t], newTables) == TableMessages(t, newTables)
  {
    ConcatMapStep(t => TableMessages(t, newTables), [t], 0);
    assert [t][..1] == [t] && [t][..0] == [];
  }

  /** The messages about a single old column of a matched table are that
      column's messages. */
  lemma SingleColumnMessages(q: string, c: Column, newColumns: seq<Column>)
    ensures ColumnsMessages(q, [c], newColumns) == ColumnMessages(q, c, newColumns)
  {
    ConcatMapStep(col => ColumnMessages(q, col, newColumns), [c], 0);
    assert [c][..1] == [c] && [c][..0] == [];
  }

  /** Append-only: the report after the first `i` old tables is a prefix of
      the report after the first `k`, for both lists. */
  lemma MessagesArePrefixExtended(oldTables: seq<Table>, newTables: seq<Table>, i: nat, k: nat)
    requires i <= k <= |oldTables|
    ensures var a := ExpectedMessages(oldTables[..i], newTables);
            var b := ExpectedMessages(oldTables[..k], newTables);
            a.warnings <= b.warnings && a.errors <= b.errors
  {
    assert oldTables[..k] == oldTables[..i] + oldTables[i..k];
    MessagesInOldTableOrder(oldTables[..i], oldTables[i..k], newTables);
  }

  /** Number of columns over all tables of a snapshot. */
  function TotalColumns(tables: seq<Table>): nat {
    Sum((t: Table) => |t.columns|, tables)
  }

  /** At most one message per old table and per old column, and at most one
      warning per old column. */
  lemma MessagesBound(oldTables: seq<Table>, newTables: seq<Table>)
    ensures var r := ExpectedMessages(oldTables, newTables);
      && |r.warnings| <= TotalColumns(oldTables)
      && |r.errors| + |r.warnings| <= |oldTables| + TotalColumns(oldTables)
  {
    var step := t => TableMessages(t, newTables);
    forall t | t in oldTables
      ensures |step(t).errors| + |step(t).warnings| <= 1 + |t.columns|
      ensures |step(t).warnings| <= |t.columns|
    {
      TableMessagesFromOldTable(t, newTables);
    }
    ConcatMapBounds(step, oldTables, (t: Table) => 1 + |t.columns|, (t: Table) => |t.columns|);
    SumOfOnePlus(oldTables);
  }

  /** Additions are silent: every error names an old table by its qualified
      name, either as a missing table or together with one of that table's
      old columns. */
  lemma ErrorsNameOldTables(oldTables: seq<Table>, newTables: seq<Table>)
    ensures forall e :: e in ExpectedMessages(oldTables, newTables).errors ==>
      exists i :: 0 <= i < |oldTables| &&
        (|| e == TableMissing(QualifiedName(oldTables[i]))
         || exists c :: c in oldTables[i].columns && e == ColumnMissing(QualifiedName(oldTables[i]), c.name))
  {
    var step := t => TableMessages(t, newTables);
    forall e | e in ExpectedMessages(oldTables, newTables).errors
      ensures exists i :: (0 <= i < |oldTables| &&
                (|| e == TableMissing(QualifiedName(oldTables[i]))
                 || exists c :: c in oldTables[i].columns && e == ColumnMissing(QualifiedName(oldTables[i]), c.name)))
    {
      ConcatMapMember(step, oldTables, e);
      var i :| 0 <= i < |oldTables| && e in step(oldTables[i]).errors;
      TableMessagesFromOldTable(oldTables[i], newTables);
    }
  }

  /** Additions are silent: every warning names an old column of an old
      table, with its old type string and the type string of a column of
      some new table. */
  lemma WarningsNameOldColumns(oldTables: seq<Table>, newTables: seq<Table>)
    ensures forall w :: w in ExpectedMessages(oldTables, newTables).warnings ==>
      exists i, c, j, d :: 0 <= i < |oldTables| && c in oldTables[i].columns
                           && 0 <= j < |newTables| && d in newTables[j].columns
                           && w == TypeChanged(QualifiedName(oldTables[i]), c.name, c.typ, d.typ)
  {
    var step := t => TableMessages(t, newTables);
    forall w | w in ExpectedMessages(oldTables, newTables).warnings
      ensures exists i, c, j, d :: 0 <= i < |oldTables| && c in oldTables[i].columns
                                   && 0 <= j < |newTables| && d in newTables[j].columns
                                   && w == TypeChanged(QualifiedName(oldTables[i]), c.name, c.typ, d.typ)
    {
      ConcatMapMember(step, oldTables, w);
      var i :| 0 <= i < |oldTables| && w in step(oldTables[i]).warnings;
      TableMessagesFromOldTable(oldTables[i], newTables);
      var c, j, d :| c in oldTables[i].columns && 0 <= j < |newTables| && d in newTables[j].columns
                     && w == TypeChanged(QualifiedName(oldTables[i]), c.name, c.typ, d.typ);
    }
  }

  lemma {:induction false} SumOfOnePlus(tables: seq<Table>)
    ensures Sum((t: Table) => 1 + |t.columns|, tables) == |tables| + TotalColumns(tables)
    decreases |tables|
  {
    if tables != [] {
      SumOfOnePlus(tables[..|tables| - 1]);
    }
  }

  /** An old table's table-level error is in the report exactly when no new
      table has its qualified name. */
  lemma TableMissingReported(oldTables: seq<Table>, newTables: seq<Table>, i: nat)
    requires i < |oldTables|
    ensures TableMissing(QualifiedName(oldTables[i])) in ExpectedMessages(oldTables, newTables).errors
        <==> forall j :: 0 <= j < |newTables| ==> QualifiedName(newTables[j]) != QualifiedName(oldTables[i])
  {
    var q := QualifiedName(oldTables[i]);
    var step := t => TableMessages(t, newTables);
    ConcatMapMember(step, oldTables, TableMissing(q));
    TableMissingOnlyForItself(oldTables[i], newTables, q);
    forall l | 0 <= l < |oldTables| && TableMissing(q) in step(oldTables[l]).errors
      ensures FindTable(q, newTables).None?
    {
      TableMissingOnlyForItself(oldTables[l], newTables, q);
    }
  }

  /** With unique qualified names among the old tables, each old table has
      exactly one table-level error in the report when no new table has its
      qualified name, and none otherwise. */
  lemma TableMissingExactlyOnce(oldTables: seq<Table>, newTables: seq<Table>, i: nat)
    requires UniqueTableNames(oldTables) && i < |oldTables|
    ensures var q := QualifiedName(oldTables[i]);
      multiset(ExpectedMessages(oldTables, newTables).errors)[TableMissing(q)]
        == if forall j :: 0 <= j < |newTables| ==> QualifiedName(newTables[j]) != q then 1 else 0
  {
    var q := QualifiedName(oldTables[i]);
    var step := t => TableMessages(t, newTables);
    forall l | 0 <= l < |oldTables| && l != i
      ensures TableMissing(q) !in step(oldTables[l]).errors
    {
      TableMissingOnlyForItself(oldTables[l], newTables, q);
    }
    ConcatMapCountFromOne(step, oldTables, i, TableMissing(q));
    TableMissingOnlyForItself(oldTables[i], newTables, q);
  }

  /** `t` is found in the new snapshot and all its columns are found in the
      first matching new table. */
  predicate TableCovered(t: Table, newTables: seq<Table>) {
    match FindTable(QualifiedName(t), newTables)
    case None => false
    case Some(j) => forall c :: c in t.columns ==> FindColumn(c.name, newTables[j].columns).Some?
  }

  /** If `t` is found in the new snapshot, none of its columns changed type
      string in the first matching new table. */
  predicate TypesKept(t: Table, newTables: seq<Table>) {
    match FindTable(QualifiedName(t), newTables)
    case None => true
    case Some(j) => forall c :: c in t.columns ==> SameTypeAsFirstMatch(c, newTables[j].columns)
  }

  /** The report has no error exactly when every old table and every one of
      its columns is found; it has no warning exactly when no found column
      changed its type string. */
  lemma CleanReportIff(oldTables: seq<Table>, newTables: seq<Table>)
    ensures ExpectedMessages(oldTables, newTables).errors == []
        <==> forall i :: 0 <= i < |oldTables| ==> TableCovered(oldTables[i], newTables)
    ensures ExpectedMessages(oldTables, newTables).warnings == []
        <==> forall i :: 0 <= i < |oldTables| ==> TypesKept(oldTables[i], newTables)
  {
    var step := t => TableMessages(t, newTables);
    ConcatMapNoErrorsIff(step, oldTables);
    ConcatMapNoWarningsIff(step, oldTables);
    forall i | 0 <= i < |oldTables|
      ensures step(oldTables[i]).errors == [] <==> TableCovered(oldTables[i], newTables)
      ensures step(oldTables[i]).warnings == [] <==> TypesKept(oldTables[i], newTables)
    {
      var t := oldTables[i];
      match FindTable(QualifiedName(t), newTables)
      case None =>
      case Some(j) => ColumnsCleanIff(QualifiedName(t), t.columns, newTables[j].columns);
    }
  }

  /** Comparing a well-formed snapshot with itself reports nothing. */
  lemma IdenticalSchemasAreClean(tables: seq<Table>)
    requires WellFormed(tables)
    ensures ExpectedMessages(tables, tables) == NoMessages
  {
    forall i | 0 <= i < |tables|
      ensures TableCovered(tables[i], tables) && TypesKept(tables[i], tables)
    {
      FindTableInUnique(tables, i);
      var cols := tables[i].columns;
      forall c | c in cols
        ensures FindColumn(c.name, cols).Some? && SameTypeAsFirstMatch(c, cols)
      {
        var k :| 0 <= k < |cols| && cols[k] == c;
        FindColumnInUnique(cols, k);
      }
    }
    CleanReportIff(tables, tables);
  }

  // ---------------------------------------------------------------------
  // Additions are silent

  /** A table inserted anywhere into the new snapshot, under a qualified name
      that no old table has, changes nothing in the report. */
  lemma AddedTableIsSilent(oldTables: seq<Table>, front: seq<Table>, back: seq<Table>, added: Table)
    requires forall i :: 0 <= i < |oldTables| ==> QualifiedName(oldTables[i]) != QualifiedName(added)
    ensures ExpectedMessages(oldTables, front + [added] + back) == ExpectedMessages(oldTables, front + back)
  {
    var n, n' := front + back, front + [added] + back;
    forall i | 0 <= i < |oldTables|
      ensures TableMessages(oldTables[i], n') == TableMessages(oldTables[i], n)
    {
      TableMessagesSkipInserted(oldTables[i], front, back, added);
    }
    ConcatMapPointwise(t => TableMessages(t, n'), t => TableMessages(t, n), oldTables);
  }

  lemma TableMessagesSkipInserted(t: Table, front: seq<Table>, back: seq<Table>, added: Table)
    requires QualifiedName(added) != QualifiedName(t)
    ensures TableMessages(t, front + [added] + back) == TableMessages(t, front + back)
  {
    var n, n' := front + back, front + [added] + back;
    var q := QualifiedName(t);
    FirstIndexSkipsInserted(HasQualifiedName(q), front, back, added);
    if FindTable(q, n).Some? {
      InsertionKeepsElement(front, added, back, FindTable(q, n).value);
    }
  }

  /** A column inserted anywhere into a new table, under a name that no
      column of the old tables with that table's qualified name has, changes
      nothing in the report. */
  lemma AddedColumnIsSilent(oldTables: seq<Table>, newTables: seq<Table>, j: nat,
                            front: seq<Column>, back: seq<Column>, added: Column)
    requires j < |newTables| && newTables[j].columns == front + back
    requires forall i, c ::
      0 <= i < |oldTables| && QualifiedName(oldTables[i]) == QualifiedName(newTables[j]) && c in oldTables[i].columns
      ==> c.name != added.name
    ensures ExpectedMessages(oldTables, newTables[j := newTables[j].(columns := front + [added] + back)])
         == ExpectedMessages(oldTables, newTables)
  {
    var n' := newTables[j := newTables[j].(columns := front + [added] + back)];
    forall i | 0 <= i < |oldTables|
      ensures TableMessages(oldTables[i], n') == TableMessages(oldTables[i], newTables)
    {
      TableMessagesSkipInsertedColumn(oldTables[i], newTables, j, front, back, added);
    }
    ConcatMapPointwise(t => TableMessages(t, n'), t => TableMessages(t, newTables), oldTables);
  }

  lemma TableMessagesSkipInsertedColumn(t: Table, newTables: seq<Table>, j: nat,
                                        front: seq<Column>, back: seq<Column>, added: Column)
    requires j < |newTables| && newTables[j].columns == front + back
    requires QualifiedName(t) == QualifiedName(newTables[j]) ==> forall c :: c in t.columns ==> c.name != added.name
    ensures TableMessages(t, newTables[j := newTables[j].(columns := front + [added] + back)])
         == TableMessages(t, newTables)
  {
    var n' := newTables[j := newTables[j].(columns := front + [added] + back)];
    var q := QualifiedName(t);
    FirstIndexReplaced(HasQualifiedName(q), newTables, j, newTables[j].(columns := front + [added] + back));
    match FindTable(q, newTables)
    case None =>
    case Some(j0) =>
      if j0 == j {
        ColumnsMessagesSkipInserted(q, t.columns, front, back, added);
      }
  }

  lemma ColumnsMessagesSkipInserted(q: string, oldColumns: seq<Column>,
                                    front: seq<Column>, back: seq<Column>, added: Column)
    requires forall c :: c in oldColumns ==> c.name != added.name
    ensures ColumnsMessages(q, oldColumns, front + [added] + back) == ColumnsMessages(q, oldColumns, front + back)
  {
    var cols, cols' := front + back, front + [added] + back;
    forall k | 0 <= k < |oldColumns|
      ensures ColumnMessages(q, oldColumns[k], cols') == ColumnMessages(q, oldColumns[k], cols)
    {
      assert oldColumns[k] in oldColumns;
      FirstIndexSkipsInserted(HasColumnName(oldColumns[k].name), front, back, added);
      if FindColumn(oldColumns[k].name, cols).Some? {
        InsertionKeepsElement(front, added, back, FindColumn(oldColumns[k].name, cols).value);
      }
    }
    ConcatMapPointwise(col => ColumnMessages(q, col, cols'), col => ColumnMessages(q, col, cols), oldColumns);
  }

  // ---------------------------------------------------------------------
  // The first-match scan

  /** A hit index moved one place down when it lies at or after `p`. */
  function ShiftedFrom(r: Option<nat>, p: nat): Option<nat> {
    match r
    case None => None
    case Some(j) => Some(if j < p then j else j + 1)
  }

  /** The first hit in a concatenation, from the first hits `r` in its first
      part (of length `n`) and `s` in its second part. */
  function FirstOf(r: Option<nat>, s: Option<nat>, n: nat): Option<nat> {
    match r
    case Some(j) => Some(j)
    case None =>
      match s
      case None => None
      case Some(k) => Some(n + k)
  }

  lemma FirstOfShifted(r: Option<nat>, s: Option<nat>, n: nat)
    requires r.Some? ==> r.value < n
    ensures FirstOf(r, ShiftedFrom(s, 0), n) == ShiftedFrom(FirstOf(r, s, n), n)
  {
  }

  lemma FirstOfPastHead(r: Option<nat>, s: Option<nat>, n: nat)
    ensures ShiftedFrom(FirstOf(r, s, n), 0) == FirstOf(ShiftedFrom(r, 0), s, n + 1)
  {
  }

  /** After an insertion, each element sits at its index shifted past the
      inserted one. */
  lemma InsertionKeepsElement<T>(front: seq<T>, added: T, back: seq<T>, j: nat)
    requires j < |front + back|
    ensures ShiftedFrom(Some(j), |front|).value < |front + [added] + back|
    ensures (front + [added] + back)[ShiftedFrom(Some(j), |front|).value] == (front + back)[j]
  {
  }

  lemma InsertionRegroups<T>(front: seq<T>, added: T, back: seq<T>)
    ensures front + [added] + back == front + ([added] + back)
  {
  }

  /** Inserting an element that fails the test after `front` moves the
      first hit one place down when it lay in `back`, and keeps it
      otherwise. */
  lemma FirstIndexSkipsInserted<T>(p: T -> bool, front: seq<T>, back: seq<T>, added: T)
    requires !p(added)
    ensures FirstIndex(p, front + [added] + back) == ShiftedFrom(FirstIndex(p, front + back), |front|)
  {
    InsertionRegroups(front, added, back);
    FirstIndexSkipsHead(p, added, back);
    FirstIndexAppend(p, front, back);
    FirstIndexAppend(p, front, [added] + back);
    FirstOfShifted(FirstIndex(p, front), FirstIndex(p, back), |front|);
  }

  /** Replacing an element by one with the same test outcome leaves the
      first hit unchanged. */
  lemma FirstIndexReplaced<T>(p: T -> bool, xs: seq<T>, j: nat, x: T)
    requires j < |xs| && p(x) == p(xs[j])
    ensures FirstIndex(p, xs[j := x]) == FirstIndex(p, xs)
  {
    var front, back := xs[..j], xs[j + 1..];
    assert xs == front + ([xs[j]] + back);
    assert xs[j := x] == front + ([x] + back);
    FirstIndexAppend(p, front, [xs[j]] + back);
    FirstIndexAppend(p, front, [x] + back);
    if p(x) {
      assert ([x] + back)[0] == x && ([xs[j]] + back)[0] == xs[j];
    } else {
      FirstIndexSkipsHead(p, x, back);
      FirstIndexSkipsHead(p, xs[j], back);
    }
  }

  /** A first element that fails the test only shifts the first hit. */
  lemma FirstIndexSkipsHead<T>(p: T -> bool, head: T, rest: seq<T>)
    requires !p(head)
    ensures FirstIndex(p, [head] + rest) == ShiftedFrom(FirstIndex(p, rest), 0)
  {
    assert ([head] + rest)[1..] == rest;
  }

  /** The first hit in `a + b` is the first hit in `a`, or else the first
      hit in `b` shifted past `a`. */
  lemma {:induction false} FirstIndexAppend<T>(p: T -> bool, a: seq<T>, b: seq<T>)
    ensures FirstIndex(p, a + b) == FirstOf(FirstIndex(p, a), FirstIndex(p, b), |a|)
    decreases |a|
  {
    if a == [] {
      assert a + b == b;
    } else if !p(a[0]) {
      assert a == [a[0]] + a[1..];
      assert a + b == [a[0]] + (a[1..] + b);
      FirstIndexSkipsHead(p, a[0], a[1..]);
      FirstIndexSkipsHead(p, a[0], a[1..] + b);
      FirstIndexAppend(p, a[1..], b);
      FirstOfPastHead(FirstIndex(p, a[1..]), FirstIndex(p, b), |a| - 1);
    } else {
      assert (a + b)[0] == a[0];
    }
  }
}
