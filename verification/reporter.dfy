/** The end of a run: every warning is printed, then every error, each on its
    own line with its tag, and the process exits with status 1 when there is
    at least one error and with status 0 otherwise. The printed lines are
    returned as a sequence instead of being written to standard output. */
module Reporter {
  import opened Schema
  import opened Reports
  import opened Differ
  import opened DiffProperties

  const WarningTag: string := "WARNING: "
  const ErrorTag: string := "ERROR: "

  /** Each message with `tag` in front, in the same order. */
  function Tagged(tag: string, messages: seq<string>): (lines: seq<string>)
    ensures |lines| == |messages|
    ensures forall i :: 0 <= i < |messages| ==> lines[i] == tag + messages[i]
    decreases |messages|
  {
    if messages == [] then []
    else Tagged(tag, messages[..|messages| - 1]) + [tag + messages[|messages| - 1]]
  }

  /** What a run prints for a report: all warnings first, then all errors. */
  function Transcript(r: DiffReport): (lines: seq<string>)
    ensures |lines| == |r.warnings| + |r.errors|
    ensures forall i :: 0 <= i < |r.warnings| ==> lines[i] == WarningTag + r.warnings[i]
    ensures forall i :: 0 <= i < |r.errors| ==> lines[|r.warnings| + i] == ErrorTag + r.errors[i]
  {
    Tagged(WarningTag, r.warnings) + Tagged(ErrorTag, r.errors)
  }

  /** The process exit status for a report. */
  function ExitStatus(r: DiffReport): (status: int)
    ensures status == 0 || status == 1
    ensures status == 1 <==> r.errors != []
  {
    if |r.errors| > 0 then 1 else 0
  }

  /** Warnings never make a run fail: the exit status is the same with or
      without them. */
  lemma WarningsNeverFail(warnings: seq<string>, errors: seq<string>)
    ensures ExitStatus(DiffReport(warnings, errors)) == ExitStatus(DiffReport([], errors))
    ensures warnings != [] && errors == [] ==> ExitStatus(DiffReport(warnings, errors)) == 0
  {
  }

  /** Comparing two snapshots fails exactly when some old table, or some
      column of an old table, is missing from the new snapshot; a changed
      type string alone never fails. */
  lemma CheckFailsIff(oldTables: seq<Table>, newTables: seq<Table>)
    ensures ExitStatus(ExpectedMessages(oldTables, newTables)) == 1
        <==> exists i :: 0 <= i < |oldTables| && !TableCovered(oldTables[i], newTables)
  {
    CleanReportIff(oldTables, newTables);
  }

  /** Comparing a well-formed snapshot with itself prints nothing and
      succeeds. */
  lemma IdenticalSchemasPass(tables: seq<Table>)
    requires WellFormed(tables)
    ensures Transcript(ExpectedMessages(tables, tables)) == []
    ensures ExitStatus(ExpectedMessages(tables, tables)) == 0
  {
    IdenticalSchemasAreClean(tables);
  }

  /** Prints the warnings and then the errors, and decides the exit status. */
  method Report(warnings: seq<string>, errors: seq<string>) returns (lines: seq<string>, status: int)
    ensures lines == Transcript(DiffReport(warnings, errors))
    ensures status == ExitStatus(DiffReport(warnings, errors))
  {
    lines := [];
    if |warnings| > 0 {
      for i := 0 to |warnings|
        invariant lines == Tagged(WarningTag, warnings[..i])
      {
        assert warnings[..i + 1][..i] == warnings[..i];
        lines := lines + [WarningTag + warnings[i]];
      }
    }
    assert warnings[..|warnings|] == warnings;
    ghost var warningLines := lines;
    status := 0;
    if |errors| > 0 {
      for i := 0 to |errors|
        invariant lines == warningLines + Tagged(ErrorTag, errors[..i])
      {
        assert errors[..i + 1][..i] == errors[..i];
        lines := lines + [ErrorTag + errors[i]];
      }
      status := 1;
    }
    assert errors[..|errors|] == errors;
  }

  /** A whole run on two reflected snapshots: the diff, then the report. */
  method Check(oldTables: seq<Table>, newTables: seq<Table>) returns (lines: seq<string>, status: int)
    ensures lines == Transcript(ExpectedMessages(oldTables, newTables))
    ensures status == 1 <==> exists i :: 0 <= i < |oldTables| && !TableCovered(oldTables[i], newTables)
    ensures status == 0 || status == 1
  {
    var warnings, errors := Diff(oldTables, newTables);
    lines, status := Report(warnings, errors);
    CheckFailsIff(oldTables, newTables);
  }
}
