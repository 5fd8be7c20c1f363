/** The three message texts the differ emits, with the facts that let a
    message be traced back to what produced it: the table-level error names
    its table uniquely, and no two kinds of message ever coincide. */
module Messages {

  const TableMissingPrefix: string := "table "
  const ColumnMissingPrefix: string := "column "
  const TypeChangedPrefix: string := "in old DB column "
  const NotFoundSuffix: string := " not found in new DB"

  /** Error for an old table with no counterpart in the new snapshot: the
      table's qualified name between the table prefix and the not-found
      suffix. */
  function TableMissing(q: string): (m: string)
    ensures |m| == |TableMissingPrefix| + |q| + |NotFoundSuffix|
    ensures m[..|TableMissingPrefix|] == TableMissingPrefix
    ensures m[|TableMissingPrefix|..|m| - |NotFoundSuffix|] == q
    ensures m[|m| - |NotFoundSuffix|..] == NotFoundSuffix
  {
    var m := TableMissingPrefix + q + NotFoundSuffix;
    assert m == TableMissingPrefix + (q + NotFoundSuffix);
    assert m[|TableMissingPrefix|..] == q + NotFoundSuffix;
    m
  }

  /** Error for an old column with no same-named column in the matched new
      table: `table.column` between the column prefix and the not-found
      suffix. */
  function ColumnMissing(q: string, column: string): (m: string)
    ensures |m| == |ColumnMissingPrefix| + |q| + 1 + |column| + |NotFoundSuffix|
    ensures m[..|ColumnMissingPrefix|] == ColumnMissingPrefix
    ensures m[|ColumnMissingPrefix|..|m| - |NotFoundSuffix|] == q + "." + column
    ensures m[|m| - |NotFoundSuffix|..] == NotFoundSuffix
  {
    var m := ColumnMissingPrefix + q + "." + column + NotFoundSuffix;
    assert m == ColumnMissingPrefix + ((q + "." + column) + NotFoundSuffix);
    assert m[|ColumnMissingPrefix|..] == (q + "." + column) + NotFoundSuffix;
    m
  }

  /** Warning for an old column whose first same-named new column has a
      different type string: it starts with the type-change prefix and ends
      with the new type string. */
  function TypeChanged(q: string, column: string, oldType: string, newType: string): (m: string)
    ensures |TypeChangedPrefix| + |newType| <= |m|
    ensures m[..|TypeChangedPrefix|] == TypeChangedPrefix
    ensures m[|m| - |newType|..] == newType
  {
    var m := TypeChangedPrefix + q + "." + column + " has type " + oldType
      + ", while in new DB type changed to " + newType;
    assert m == TypeChangedPrefix + (q + "." + column + " has type " + oldType
      + ", while in new DB type changed to " + newType);
    m
  }

  /** The table name can be read back from a table-level error. */
  function MissingTableOf(m: string): (q: string)
    requires |m| >= |TableMissingPrefix| + |NotFoundSuffix|
  {
    m[|TableMissingPrefix|..|m| - |NotFoundSuffix|]
  }

  lemma MissingTableRoundTrip(q: string)
    ensures |TableMissing(q)| == |TableMissingPrefix| + |q| + |NotFoundSuffix|
    ensures MissingTableOf(TableMissing(q)) == q
  {
  }

  /** Two table-level errors are equal only for equal table names. */
  lemma TableMissingInjective(q1: string, q2: string)
    ensures TableMissing(q1) == TableMissing(q2) <==> q1 == q2
  {
    if TableMissing(q1) == TableMissing(q2) {
      MissingTableRoundTrip(q1);
      MissingTableRoundTrip(q2);
    }
  }

  /** A column-level error is never a table-level error: they start with
      different words. */
  lemma ColumnMissingIsNotTableMissing(q: string, column: string, q': string)
    ensures ColumnMissing(q, column) != TableMissing(q')
  {
    assert ColumnMissing(q, column)[0] == ColumnMissingPrefix[0];
    assert TableMissing(q')[0] == TableMissingPrefix[0];
  }

  /** A type-change warning is never an error of either kind: it starts with
      a different word. */
  lemma TypeChangedIsNotAnError(q: string, column: string, oldType: string, newType: string,
                                q': string, column': string)
    ensures TypeChanged(q, column, oldType, newType) != TableMissing(q')
    ensures TypeChanged(q, column, oldType, newType) != ColumnMissing(q', column')
  {
    assert TypeChanged(q, column, oldType, newType)[0] == TypeChangedPrefix[0];
    assert TableMissing(q')[0] == TableMissingPrefix[0];
    assert ColumnMissing(q', column')[0] == ColumnMissingPrefix[0];
  }
}
