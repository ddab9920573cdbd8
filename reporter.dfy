/** The run summary of `check_syntax.py`'s `main`: every file found under
    the model directory is checked in turn, the lengths of the error and
    warning lists are added to running totals, and the exit status is
    decided from the totals. The directory walk is given as the sequence of
    the files' texts, in walk order, and the existence test of the root
    directory as a boolean. */
module Reporter {
  import opened Lexical
  import opened Checker
  import opened Scenarios

  /** The sum of a sequence of counts, added up from the front. */
  function Sum(counts: seq<nat>): nat {
    if counts == [] then 0 else Sum(counts[..|counts| - 1]) + counts[|counts| - 1]
  }

  /** The length of each file's error list, in walk order. */
  ghost function ErrorCounts(files: seq<string>): (counts: seq<nat>)
    ensures |counts| == |files|
    ensures forall k :: 0 <= k < |files| ==> counts[k] == |FileErrors(files[k])|
  {
    seq(|files|, k requires 0 <= k < |files| => |FileErrors(files[k])|)
  }

  /** The length of each file's warning list, in walk order. */
  ghost function WarningCounts(files: seq<string>): (counts: seq<nat>)
    ensures |counts| == |files|
    ensures forall k :: 0 <= k < |files| ==> counts[k] == |FileWarnings(files[k])|
  {
    seq(|files|, k requires 0 <= k < |files| => |FileWarnings(files[k])|)
  }

  /** Some file of the run has at least one error. */
  ghost predicate SomeFileHasErrors(files: seq<string>) {
    exists k :: 0 <= k < |files| && FileErrors(files[k]) != []
  }

  /** `main`: the counters of the file loop and the exit status. Without
      the root directory nothing is checked and the status is 1. */
  method RunChecks(rootExists: bool, files: seq<string>)
    returns (filesChecked: nat, totalErrors: nat, totalWarnings: nat, status: int)
    ensures !rootExists ==> filesChecked == 0 && totalErrors == 0 && totalWarnings == 0
    ensures rootExists ==> filesChecked == |files| && totalErrors == Sum(ErrorCounts(files))
                           && totalWarnings == Sum(WarningCounts(files))
    ensures status == (if !rootExists || totalErrors > 0 then 1 else 0)
    ensures status == 1 <==> !rootExists || SomeFileHasErrors(files)
  {
    if !rootExists {
      return 0, 0, 0, 1;
    }
    filesChecked, totalErrors, totalWarnings := CheckFiles(files);
    ErrorTotalPositiveIff(files);
    if totalErrors > 0 {
      status := 1;
    } else if totalWarnings > 0 {
      status := 0;
    } else {
      status := 0;
    }
  }

  /** The `for` loop over the files: one more file checked each round, and
      the lengths of its non-empty lists added to the totals. */
  method CheckFiles(files: seq<string>) returns (filesChecked: nat, totalErrors: nat, totalWarnings: nat)
    ensures filesChecked == |files|
    ensures totalErrors == Sum(ErrorCounts(files))
    ensures totalWarnings == Sum(WarningCounts(files))
  {
    ghost var errorCounts, warningCounts := ErrorCounts(files), WarningCounts(files);
    filesChecked, totalErrors, totalWarnings := 0, 0, 0;
    for i := 0 to |files|
      invariant filesChecked == i
      invariant totalErrors == Sum(errorCounts[..i])
      invariant totalWarnings == Sum(warningCounts[..i])
    {
      filesChecked := filesChecked + 1;
      var fileErrors, fileWarnings := CheckFile(files[i]);
      SumStep(errorCounts, i);
      SumStep(warningCounts, i);
      totalErrors := totalErrors + fileErrors;
      totalWarnings := totalWarnings + fileWarnings;
    }
    assert errorCounts[..|files|] == errorCounts;
    assert warningCounts[..|files|] == warningCounts;
  }

  /** The body of the file loop: one file checked, and the lengths of its
      lists, added to the totals only when the list is not empty. */
  method CheckFile(content: string) returns (errorCount: nat, warningCount: nat)
    ensures errorCount == |FileErrors(content)|
    ensures warningCount == |FileWarnings(content)|
  {
    var errors, warnings := CheckModelicaFile(content);
    errorCount, warningCount := 0, 0;
    if errors != [] {
      errorCount := |errors|;
    }
    if warnings != [] {
      warningCount := |warnings|;
    }
  }

  /** One more count added to a running sum. */
  lemma SumStep(counts: seq<nat>, i: nat)
    requires i < |counts|
    ensures Sum(counts[..i + 1]) == Sum(counts[..i]) + counts[i]
  {
    assert counts[..i + 1][..i] == counts[..i];
  }

  /** Sums of two stretches of counts back to back add up. */
  lemma {:induction false} SumAppend(a: seq<nat>, b: seq<nat>)
    ensures Sum(a + b) == Sum(a) + Sum(b)
    decreases |b|
  {
    if b != [] {
      var b' := b[..|b| - 1];
      assert (a + b)[..|a + b| - 1] == a + b';
      assert (a + b)[|a + b| - 1] == b[|b| - 1];
      SumAppend(a, b');
    } else {
      assert a + b == a;
    }
  }

  /** A sum of counts is positive exactly when one of them is. */
  lemma {:induction false} SumPositiveIff(counts: seq<nat>)
    ensures Sum(counts) > 0 <==> exists k :: 0 <= k < |counts| && counts[k] > 0
  {
    if counts != [] {
      var init := counts[..|counts| - 1];
      SumPositiveIff(init);
      if exists k :: 0 <= k < |init| && init[k] > 0 {
        var k :| 0 <= k < |init| && init[k] > 0;
        assert counts[k] == init[k];
      }
      if exists k :: 0 <= k < |counts| && counts[k] > 0 {
        var k :| 0 <= k < |counts| && counts[k] > 0;
        if k < |init| {
          assert counts[k] == init[k];
        }
      }
    }
  }

  /** The error total is positive exactly when some file has an error. */
  lemma ErrorTotalPositiveIff(files: seq<string>)
    ensures Sum(ErrorCounts(files)) > 0 <==> SomeFileHasErrors(files)
  {
    var counts := ErrorCounts(files);
    SumPositiveIff(counts);
    if SomeFileHasErrors(files) {
      var k :| 0 <= k < |files| && FileErrors(files[k]) != [];
      assert counts[k] > 0;
    }
  }

  /** A file has no error exactly when it has a definition and balanced
      parentheses. */
  lemma FileErrorsEmptyIff(content: string)
    ensures FileErrors(content) == []
            <==> HasDefinition(content) && CountChar(content, '(') == CountChar(content, ')')
  {
  }

  /** A run with the root directory fails exactly when some file lacks a
      definition or has unbalanced parentheses; warnings never fail it. */
  lemma RunFailsIff(files: seq<string>)
    ensures Sum(ErrorCounts(files)) > 0
            <==> exists k :: 0 <= k < |files|
                   && (!HasDefinition(files[k]) || CountChar(files[k], '(') != CountChar(files[k], ')'))
  {
    ErrorTotalPositiveIff(files);
    if SomeFileHasErrors(files) {
      var k :| 0 <= k < |files| && FileErrors(files[k]) != [];
      FileErrorsEmptyIff(files[k]);
    }
    if exists k :: 0 <= k < |files|
         && (!HasDefinition(files[k]) || CountChar(files[k], '(') != CountChar(files[k], ')'))
    {
      var k :| 0 <= k < |files|
               && (!HasDefinition(files[k]) || CountChar(files[k], '(') != CountChar(files[k], ')'));
      FileErrorsEmptyIff(files[k]);
    }
  }

  /** A run over two files adds up their lists. */
  lemma TwoFileErrors(a: string, b: string)
    ensures Sum(ErrorCounts([a, b])) == |FileErrors(a)| + |FileErrors(b)|
  {
    SumOfTwo(ErrorCounts([a, b]));
    assert [a, b][0] == a && [a, b][1] == b;
  }

  lemma TwoFileWarnings(a: string, b: string)
    ensures Sum(WarningCounts([a, b])) == |FileWarnings(a)| + |FileWarnings(b)|
  {
    SumOfTwo(WarningCounts([a, b]));
    assert [a, b][0] == a && [a, b][1] == b;
  }

  /** Two counts back to back, by `SumAppend`. */
  lemma SumOfTwo(counts: seq<nat>)
    requires |counts| == 2
    ensures Sum(counts) == counts[0] + counts[1]
  {
    SumAppend([counts[0]], [counts[1]]);
    assert [counts[0]] + [counts[1]] == counts;
    assert [counts[0]][..0] == [] && [counts[1]][..0] == [];
  }

  /** The two example files checked in one run: no error and one warning,
      so the run passes. */
  lemma ExampleRun()
    ensures Sum(ErrorCounts([CleanModel, UnterminatedEquation])) == 0
    ensures Sum(WarningCounts([CleanModel, UnterminatedEquation])) == 1
  {
    CleanModelNoDiagnostics();
    UnterminatedEquationDiagnostics();
    TwoFileErrors(CleanModel, UnterminatedEquation);
    TwoFileWarnings(CleanModel, UnterminatedEquation);
  }
}
