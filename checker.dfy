/** The per-file structural checker of `check_syntax.py`: five lexical
    checks over the text of one Modelica file, run in a fixed order, each
    appending messages to an error list or a warning list. */
module Checker {
  import opened Lexical
  import opened Patterns

  const DefinitionKeywords: seq<string> := ["model", "package", "class"]
  const BlockKeywords: seq<string> := ["model", "package", "class", "function", "block"]
  const TypeKeywords: seq<string> := ["Real", "Integer", "Boolean"]
  const ControlKeywords: seq<string> := ["if", "for", "when", "while"]
  const StatementEndings: seq<string> := [";", "then", "else", ")"]

  /** The regular expressions, in the order the checker uses them. */
  const DefinitionPattern: Pattern := Word(DefinitionKeywords)
  const BlockStartPattern: Pattern := WordThenIdent(BlockKeywords)
  const BlockEndPattern: Pattern := EndThenIdent
  const DeclarationPattern: Pattern := WordThenIdent(TypeKeywords)
  const EquationPattern: Pattern := Word(["equation"])
  const AlgorithmPattern: Pattern := Word(["algorithm"])
  const ControlPattern: Pattern := Literal(ControlKeywords)

  // ---- Messages ----

  const NoDefinitionMessage: string := "No model, package, or class definition found"
  // Written in two pieces: the verifier reads characters out of shorter literals.
  const VariablesMessage: string := "Variables declared but no " + "equation or algorithm section"

  function MismatchedMessage(starts: nat, ends: nat): string {
    "Mismatched definitions: " + DecimalString(starts) + " starts, " + DecimalString(ends) + " ends"
  }

  function UnmatchedParensMessage(open: nat, close: nat): string {
    "Unmatched parentheses: " + DecimalString(open) + " open, " + DecimalString(close) + " close"
  }

  function MissingSemicolonMessage(line: nat): string {
    "Line " + DecimalString(line) + ": Possible missing semicolon"
  }

  // ---- The quantities the checks compare ----

  /** The number of leftmost non-overlapping matches of the block-start
      pattern. */
  function BlockStarts(content: string): nat {
    |FindAll(BlockStartPattern, content, 0)|
  }

  /** The number of leftmost non-overlapping matches of the block-end
      pattern. */
  function BlockEnds(content: string): nat {
    |FindAll(BlockEndPattern, content, 0)|
  }

  predicate EndsWithAny(s: string, endings: seq<string>) {
    exists k :: 0 <= k < |endings| && EndsWith(s, endings[k])
  }

  /** The test the semicolon check applies to one line. */
  predicate MissingSemicolonSuspect(line: string) {
    StrippedLineSuspect(Strip(line))
  }

  /** The same test on the line with its surrounding whitespace removed. */
  predicate StrippedLineSuspect(stripped: string) {
    && stripped != []
    && !StartsWith(stripped, "//")
    && !Search(EquationPattern, stripped)
    && '=' in stripped
    && !EndsWithAny(stripped, StatementEndings)
    && !Search(ControlPattern, stripped)
  }

  /** The warnings the semicolon check gives the first `n` lines. */
  function LineWarnings(lines: seq<string>, n: nat): seq<string>
    requires n <= |lines|
  {
    if n == 0 then []
    else
      LineWarnings(lines, n - 1)
      + (if MissingSemicolonSuspect(lines[n - 1]) then [MissingSemicolonMessage(n)] else [])
  }

  /** The 1-based numbers of the suspect lines among the first `n`, in
      ascending order. */
  function SuspectLines(lines: seq<string>, n: nat): seq<nat>
    requires n <= |lines|
  {
    if n == 0 then []
    else SuspectLines(lines, n - 1) + (if MissingSemicolonSuspect(lines[n - 1]) then [n] else [])
  }

  /** Line `m` is listed among the first `n` exactly when it is one of
      them and passes the semicolon test. */
  lemma {:induction false} SuspectLinesMember(lines: seq<string>, n: nat, m: nat)
    requires n <= |lines|
    ensures m in SuspectLines(lines, n) <==> 1 <= m <= n && MissingSemicolonSuspect(lines[m - 1])
  {
    if n > 0 {
      SuspectLinesMember(lines, n - 1, m);
      var p := SuspectLines(lines, n - 1);
      assert SuspectLines(lines, n) == p + (if MissingSemicolonSuspect(lines[n - 1]) then [n] else []);
    }
  }

  /** The suspect line numbers ascend strictly: each line appears once. */
  lemma {:induction false} SuspectLinesAscending(lines: seq<string>, n: nat)
    requires n <= |lines|
    ensures forall k :: 0 <= k < |SuspectLines(lines, n)| ==> SuspectLines(lines, n)[k] <= n
    ensures forall a, b :: 0 <= a < b < |SuspectLines(lines, n)| ==>
              SuspectLines(lines, n)[a] < SuspectLines(lines, n)[b]
  {
    if n > 0 {
      SuspectLinesAscending(lines, n - 1);
      var p := SuspectLines(lines, n - 1);
      var r := SuspectLines(lines, n);
      assert r == p + (if MissingSemicolonSuspect(lines[n - 1]) then [n] else []);
      forall k | 0 <= k < |r| ensures r[k] <= n {
        if k < |p| {
          assert r[k] == p[k];
        }
      }
      forall a, b | 0 <= a < b < |r|
        ensures r[a] < r[b]
      {
        assert r[a] == p[a];
        if b < |p| {
          assert r[b] == p[b];
        }
      }
    }
  }

  function LineMessages(numbers: seq<nat>): seq<string> {
    seq(|numbers|, k requires 0 <= k < |numbers| => MissingSemicolonMessage(numbers[k]))
  }

  // ---- What the checks look for, stated without the scanners ----

  ghost predicate HasWholeWord(s: string, w: string) {
    exists i :: 0 <= i <= |s| && WholeWordAt(s, w, i)
  }

  /** A whole-word `model`, `package` or `class`. */
  ghost predicate HasDefinition(content: string) {
    exists k :: 0 <= k < |DefinitionKeywords| && HasWholeWord(content, DefinitionKeywords[k])
  }

  /** A whole-word `Real`, `Integer` or `Boolean`, then whitespace and an
      identifier. */
  ghost predicate HasTypedDeclaration(content: string) {
    exists k, i :: 0 <= k < |TypeKeywords| && 0 <= i <= |content| && WordThenIdentAt(content, TypeKeywords[k], i)
  }

  ghost predicate ContainsAny(s: string, words: seq<string>) {
    exists k, i :: 0 <= k < |words| && 0 <= i <= |s| && OccursAt(s, words[k], i)
  }

  // ---- The diagnostics the checker owes a file, check by check ----

  ghost function DefinitionErrors(content: string): seq<string> {
    if HasDefinition(content) then [] else [NoDefinitionMessage]
  }

  ghost function ParenthesesErrors(content: string): seq<string> {
    var open, close := CountChar(content, '('), CountChar(content, ')');
    if open != close then [UnmatchedParensMessage(open, close)] else []
  }

  ghost function BalanceWarnings(content: string): seq<string> {
    var starts, ends := BlockStarts(content), BlockEnds(content);
    if starts != ends then [MismatchedMessage(starts, ends)] else []
  }

  ghost function VariablesWarnings(content: string): seq<string> {
    if HasTypedDeclaration(content) && !HasWholeWord(content, "equation")
       && !HasWholeWord(content, "algorithm")
    then [VariablesMessage] else []
  }

  ghost function SemicolonWarnings(content: string): seq<string> {
    var lines := Split(content, '\n');
    LineWarnings(lines, |lines|)
  }

  ghost function FileErrors(content: string): seq<string> {
    DefinitionErrors(content) + ParenthesesErrors(content)
  }

  ghost function FileWarnings(content: string): seq<string> {
    BalanceWarnings(content) + VariablesWarnings(content) + SemicolonWarnings(content)
  }

  // ---- The checker ----

  /** `check_modelica_file`, on the text the file read produced. */
  method CheckModelicaFile(content: string) returns (errors: seq<string>, warnings: seq<string>)
    ensures errors == FileErrors(content)
    ensures warnings == FileWarnings(content)
  {
    errors := [];
    warnings := [];
    var lines := Split(content, '\n');

    // Definition presence.
    if !Search(DefinitionPattern, content) {
      errors := errors + [NoDefinitionMessage];
    }
    assert errors == DefinitionErrors(content) by {
      SearchDefinition(content);
    }

    // Block balance.
    var starts := BlockStarts(content);
    var ends := BlockEnds(content);
    if starts != ends {
      warnings := warnings + [MismatchedMessage(starts, ends)];
    }
    ghost var balance := warnings;
    assert balance == BalanceWarnings(content);

    // Variables without an equation or algorithm section.
    var hasVars := Search(DeclarationPattern, content);
    var hasEquations := Search(EquationPattern, content);
    var hasAlgorithm := Search(AlgorithmPattern, content);
    if hasVars && !(hasEquations || hasAlgorithm) {
      warnings := warnings + [VariablesMessage];
    }
    assert warnings == balance + VariablesWarnings(content) by {
      SearchWordThenIdentIff(TypeKeywords, content);
      SearchSingleWord("equation", content);
      SearchSingleWord("algorithm", content);
    }

    // Parentheses.
    var openParens := CountChar(content, '(');
    var closeParens := CountChar(content, ')');
    if openParens != closeParens {
      errors := errors + [UnmatchedParensMessage(openParens, closeParens)];
    }
    assert errors == FileErrors(content);

    // Possible missing semicolons, line by line.
    var lineWarnings := CheckSemicolons(lines);
    warnings := warnings + lineWarnings;
  }

  /** The `for` loop over the lines of the file: the warnings it appends,
      in order. */
  method CheckSemicolons(lines: seq<string>) returns (lineWarnings: seq<string>)
    ensures lineWarnings == LineWarnings(lines, |lines|)
  {
    lineWarnings := [];
    for i := 0 to |lines|
      invariant lineWarnings == LineWarnings(lines, i)
    {
      var stripped := Strip(lines[i]);
      if StrippedLineSuspect(stripped) {
        lineWarnings := lineWarnings + [MissingSemicolonMessage(i + 1)];
      }
    }
  }

  lemma SearchDefinition(content: string)
    ensures Search(DefinitionPattern, content) <==> HasDefinition(content)
  {
    SearchWordIff(DefinitionKeywords, content);
  }

  lemma SearchSingleWord(w: string, content: string)
    ensures Search(Word([w]), content) <==> HasWholeWord(content, w)
  {
    SearchWordIff([w], content);
    if HasWholeWord(content, w) {
      var i :| 0 <= i <= |content| && WholeWordAt(content, w, i);
      assert [w][0] == w;
    }
  }
}
