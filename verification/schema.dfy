/** The shape of a reflected database schema, as the differ sees it: an ordered
    sequence of tables, each with an ordered sequence of columns, and the two
    lookups the differ performs on them (first table with a qualified name,
    first column with a name). */
module Schema {

  datatype Option<T> = None | Some(value: T)

  /** A reflected column: its name and its declared type, kept as the opaque
      string that the type renders to. */
  datatype Column = Column(name: string, typ: string)

  /** A reflected table. `schema` is "" when the table has no schema prefix:
      both an absent schema and an empty one are falsy, and both drop the
      prefix. */
  datatype Table = Table(schema: string, name: string, columns: seq<Column>)

  /** The matching key of a table: `schema.name`, or the bare name when there
      is no schema. Old and new tables use this same rule. */
  function QualifiedName(t: Table): (q: string)
    ensures |t.name| <= |q|
    ensures |q| == |t.name| <==> t.schema == ""
  {
    if t.schema != "" then t.schema + "." + t.name else t.name
  }

  /** A qualified name ends with the table name; it is the bare name exactly
      when there is no schema, and otherwise starts with the schema and a dot. */
  lemma QualifiedNameShape(t: Table)
    ensures var q := QualifiedName(t);
      && |t.name| <= |q| && q[|q| - |t.name|..] == t.name
      && (q == t.name <==> t.schema == "")
      && (t.schema != "" ==>
            |q| == |t.schema| + 1 + |t.name| && q[..|t.schema|] == t.schema && q[|t.schema|] == '.')
  {
    var q := QualifiedName(t);
    if t.schema != "" {
      assert q == t.schema + ("." + t.name);
      assert q[..|t.schema|] == t.schema;
      assert q[|t.schema| + 1..] == t.name;
      assert |q| != |t.name|;
    }
  }

  /** The index of the FIRST element of `xs` that satisfies `p`, or None
      when there is none: a scan from the front that stops at the first
      hit. */
  function FirstIndex<T>(p: T -> bool, xs: seq<T>): (r: Option<nat>)
    ensures r.Some? ==>
      && r.value < |xs|
      && p(xs[r.value])
      && forall j :: 0 <= j < r.value ==> !p(xs[j])
    ensures r.None? <==> forall j :: 0 <= j < |xs| ==> !p(xs[j])
  {
    if |xs| == 0 then None
    else if p(xs[0]) then Some(0)
    else match FirstIndex(p, xs[1..])
      case None => None
      case Some(j) => Some(j + 1)
  }

  /** The test the table scan applies: same qualified name as `q`. */
  function HasQualifiedName(q: string): Table -> bool {
    (t: Table) => QualifiedName(t) == q
  }

  /** The test the column scan applies: same name as `name`. */
  function HasColumnName(name: string): Column -> bool {
    (c: Column) => c.name == name
  }

  /** The index of the FIRST table in `tables` whose qualified name is `q`,
      or None when there is none. */
  function FindTable(q: string, tables: seq<Table>): (r: Option<nat>)
    ensures r.Some? ==>
      && r.value < |tables|
      && QualifiedName(tables[r.value]) == q
      && forall j :: 0 <= j < r.value ==> QualifiedName(tables[j]) != q
    ensures r.None? <==> forall j :: 0 <= j < |tables| ==> QualifiedName(tables[j]) != q
  {
    FirstIndex(HasQualifiedName(q), tables)
  }

  /** The index of the FIRST column in `columns` named `name`, or None when
      there is none. */
  function FindColumn(name: string, columns: seq<Column>): (r: Option<nat>)
    ensures r.Some? ==>
      && r.value < |columns|
      && columns[r.value].name == name
      && forall k :: 0 <= k < r.value ==> columns[k].name != name
    ensures r.None? <==> forall k :: 0 <= k < |columns| ==> columns[k].name != name
  {
    FirstIndex(HasColumnName(name), columns)
  }

  /** No two tables of a snapshot share a qualified name. */
  predicate UniqueTableNames(tables: seq<Table>) {
    forall i, j :: 0 <= i < j < |tables| ==> QualifiedName(tables[i]) != QualifiedName(tables[j])
  }

  /** No two columns of a table share a name. */
  predicate UniqueColumnNames(columns: seq<Column>) {
    forall k, l :: 0 <= k < l < |columns| ==> columns[k].name != columns[l].name
  }

  /** The uniqueness that introspection guarantees for a snapshot. */
  predicate WellFormed(tables: seq<Table>) {
    && UniqueTableNames(tables)
    && forall i :: 0 <= i < |tables| ==> UniqueColumnNames(tables[i].columns)
  }

  /** In a snapshot with unique names, each table is the first match for its
      own qualified name. */
  lemma FindTableInUnique(tables: seq<Table>, i: nat)
    requires UniqueTableNames(tables) && i < |tables|
    ensures FindTable(QualifiedName(tables[i]), tables) == Some(i)
  {
    var r := FindTable(QualifiedName(tables[i]), tables);
    assert r.Some?;
  }

  /** In a table with unique column names, each column is the first match for
      its own name. */
  lemma FindColumnInUnique(columns: seq<Column>, k: nat)
    requires UniqueColumnNames(columns) && k < |columns|
    ensures FindColumn(columns[k].name, columns) == Some(k)
  {
    var r := FindColumn(columns[k].name, columns);
    assert r.Some?;
  }
}
