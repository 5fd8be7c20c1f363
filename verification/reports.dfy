/** The diff report: two append-only lists of messages, warnings and errors,
    and the report built by running one step per element of a sequence and
    appending what each step produces, in order. */
module Reports {

  /** The two message lists, each in the order the messages were produced. */
  datatype DiffReport = DiffReport(warnings: seq<string>, errors: seq<string>)

  const NoMessages := DiffReport([], [])

  function Concat(a: DiffReport, b: DiffReport): DiffReport {
    DiffReport(a.warnings + b.warnings, a.errors + b.errors)
  }

  /** The messages of `step` applied to each element of `xs`, in order. */
  function ConcatMap<T>(step: T -> DiffReport, xs: seq<T>): DiffReport
    decreases |xs|
  {
    if xs == [] then NoMessages
    else Concat(ConcatMap(step, xs[..|xs| - 1]), step(xs[|xs| - 1]))
  }

  lemma ConcatAssociative(a: DiffReport, b: DiffReport, c: DiffReport)
    ensures Concat(Concat(a, b), c) == Concat(a, Concat(b, c))
  {
  }

  /** One more element appends its step's messages. */
  lemma ConcatMapStep<T>(step: T -> DiffReport, xs: seq<T>, i: nat)
    requires i < |xs|
    ensures ConcatMap(step, xs[..i + 1]) == Concat(ConcatMap(step, xs[..i]), step(xs[i]))
  {
    assert xs[..i + 1][..i] == xs[..i];
  }

  /** Running over `xs + ys` appends the messages of `ys` to those of `xs`:
      nothing is sorted, merged or dropped. */
  lemma {:induction false} ConcatMapAppend<T>(step: T -> DiffReport, xs: seq<T>, ys: seq<T>)
    ensures ConcatMap(step, xs + ys) == Concat(ConcatMap(step, xs), ConcatMap(step, ys))
    decreases |ys|
  {
    if ys == [] {
      assert xs + ys == xs;
    } else {
      var front := ys[..|ys| - 1];
      var all := xs + ys;
      assert all[..|all| - 1] == xs + front;
      assert all[|all| - 1] == ys[|ys| - 1];
      ConcatMapAppend(step, xs, front);
      ConcatAssociative(ConcatMap(step, xs), ConcatMap(step, front), step(ys[|ys| - 1]));
    }
  }

  /** A message is in the combined report exactly when some element's step
      produced it. */
  lemma {:induction false} ConcatMapMember<T>(step: T -> DiffReport, xs: seq<T>, m: string)
    ensures m in ConcatMap(step, xs).errors <==> exists i :: 0 <= i < |xs| && m in step(xs[i]).errors
    ensures m in ConcatMap(step, xs).warnings <==> exists i :: 0 <= i < |xs| && m in step(xs[i]).warnings
    decreases |xs|
  {
    if xs != [] {
      var n := |xs| - 1;
      ConcatMapMember(step, xs[..n], m);
      assert forall i :: 0 <= i < n ==> xs[..n][i] == xs[i];
    }
  }

  /** The combined report has no error exactly when no step produced one. */
  lemma {:induction false} ConcatMapNoErrorsIff<T>(step: T -> DiffReport, xs: seq<T>)
    ensures ConcatMap(step, xs).errors == [] <==> forall i :: 0 <= i < |xs| ==> step(xs[i]).errors == []
    decreases |xs|
  {
    if xs != [] {
      var n := |xs| - 1;
      var front := xs[..n];
      ConcatMapNoErrorsIff(step, front);
      assert ConcatMap(step, xs).errors == ConcatMap(step, front).errors + step(xs[n]).errors;
      assert forall i :: 0 <= i < n ==> front[i] == xs[i];
    }
  }

  /** The combined report has no warning exactly when no step produced one. */
  lemma {:induction false} ConcatMapNoWarningsIff<T>(step: T -> DiffReport, xs: seq<T>)
    ensures ConcatMap(step, xs).warnings == [] <==> forall i :: 0 <= i < |xs| ==> step(xs[i]).warnings == []
    decreases |xs|
  {
    if xs != [] {
      var n := |xs| - 1;
      var front := xs[..n];
      ConcatMapNoWarningsIff(step, front);
      assert ConcatMap(step, xs).warnings == ConcatMap(step, front).warnings + step(xs[n]).warnings;
      assert forall i :: 0 <= i < n ==> front[i] == xs[i];
    }
  }

  /** When only the element at `i` can produce the error `m`, the combined
      report holds `m` exactly as often as that element's messages do. */
  lemma {:induction false} ConcatMapCountFromOne<T>(step: T -> DiffReport, xs: seq<T>, i: nat, m: string)
    requires i < |xs|
    requires forall l :: 0 <= l < |xs| && l != i ==> m !in step(xs[l]).errors
    ensures multiset(ConcatMap(step, xs).errors)[m] == multiset(step(xs[i]).errors)[m]
    decreases |xs|
  {
    var n := |xs| - 1;
    var r := ConcatMap(step, xs);
    assert multiset(r.errors) == multiset(ConcatMap(step, xs[..n]).errors) + multiset(step(xs[n]).errors);
    if i < n {
      assert forall l :: 0 <= l < n ==> xs[..n][l] == xs[l];
      ConcatMapCountFromOne(step, xs[..n], i, m);
    } else {
      ConcatMapMember(step, xs[..n], m);
      assert forall l :: 0 <= l < n ==> xs[..n][l] == xs[l];
    }
  }

  /** When every step yields at most `perStep(x)` messages, and at most
      `perStepWarnings(x)` warnings, the combined report is bounded by the
      sums. */
  lemma {:induction false} ConcatMapBounds<T>(step: T -> DiffReport, xs: seq<T>, perStep: T -> nat, perStepWarnings: T -> nat)
    requires forall x :: x in xs ==> |step(x).errors| + |step(x).warnings| <= perStep(x)
    requires forall x :: x in xs ==> |step(x).warnings| <= perStepWarnings(x)
    ensures |ConcatMap(step, xs).errors| + |ConcatMap(step, xs).warnings| <= Sum(perStep, xs)
    ensures |ConcatMap(step, xs).warnings| <= Sum(perStepWarnings, xs)
    decreases |xs|
  {
    if xs != [] {
      var n := |xs| - 1;
      assert forall x :: x in xs[..n] ==> x in xs;
      assert xs[n] in xs;
      ConcatMapBounds(step, xs[..n], perStep, perStepWarnings);
    }
  }

  /** Steps that agree on every element give the same report. */
  lemma {:induction false} ConcatMapPointwise<T>(step: T -> DiffReport, step': T -> DiffReport, xs: seq<T>)
    requires forall i :: 0 <= i < |xs| ==> step(xs[i]) == step'(xs[i])
    ensures ConcatMap(step, xs) == ConcatMap(step', xs)
    decreases |xs|
  {
    if xs != [] {
      var n := |xs| - 1;
      assert forall l :: 0 <= l < n ==> xs[..n][l] == xs[l];
      ConcatMapPointwise(step, step', xs[..n]);
    }
  }

  /** The sum of `f` over the elements of `xs`. */
  function Sum<T>(f: T -> nat, xs: seq<T>): nat
    decreases |xs|
  {
    if xs == [] then 0 else Sum(f, xs[..|xs| - 1]) + f(xs[|xs| - 1])
  }
}
