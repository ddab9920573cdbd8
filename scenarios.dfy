/** Three small Modelica files and the diagnostics the checker gives them:
    both lists for the first two, the errors for the third. */
module Scenarios {
  import opened Lexical
  import opened Patterns
  import opened Checker
  import opened CheckerProperties

  /** A well-formed model: one definition, closed by its `end`. */
  const CleanModel: string := "model Foo\nequation\nend Foo;\n"

  /** The same with an equation line that has no semicolon. */
  const UnterminatedEquation: string := "model Foo\nequation\n" + "  y = x\nend Foo;\n"

  /** A definition with an opening parenthesis and no closing one. */
  const UnclosedParenthesis: string := "model Foo " + "(" + "a equation end Foo;"

  /** The first letters of the block keywords. */
  const BlockLetters: seq<char> := ['m', 'p', 'c', 'f', 'b']

  // ---- Helpers ----

  /** `findall` that finds one match and nothing after it. */
  lemma FindAllSingle(p: Pattern, s: string, i: nat, e: nat)
    requires ValidPattern(p)
    requires i <= |s| && FirstMatch(p, s, 0) == Some(i) && MatchEnd(p, s, i) == Some(e)
    requires FirstMatch(p, s, e).None?
    ensures FindAll(p, s, 0) == [i]
  {
    assert FindAll(p, s, e) == [];
  }

  lemma CountAbsent(s: string, c: char)
    requires c !in s
    ensures CountChar(s, c) == 0
  {
  }

  /** A text that opens with the word `model` has a definition. */
  lemma OpeningDefinition(s: string)
    requires |s| > 5 && s[..5] == "model" && !IsWordChar(s[5])
    ensures HasDefinition(s)
  {
    assert s[0..5] == s[..5];
    assert WholeWordAt(s, DefinitionKeywords[0], 0);
  }

  /** A file with a definition and balanced parentheses has no error.
      Stated for any text, so that the example texts below are not unfolded
      through every check at once. */
  lemma NoErrorsFromChecks(s: string)
    requires HasDefinition(s) && ParenthesesErrors(s) == []
    ensures FileErrors(s) == []
  {
  }

  /** With balanced blocks and an `equation` section only the semicolon
      check can warn. */
  lemma OnlySemicolonWarnings(s: string)
    requires BalanceWarnings(s) == [] && HasWholeWord(s, "equation")
    ensures FileWarnings(s) == SemicolonWarnings(s)
  {
  }

  // ---- The clean model ----

  lemma CleanModelDefinition()
    ensures HasDefinition(CleanModel)
  {
    assert CleanModel[..10] == "model Foo\n";
    assert CleanModel[..5] == CleanModel[..10][..5] && CleanModel[5] == CleanModel[..10][5];
    OpeningDefinition(CleanModel);
  }

  lemma CleanModelEquation()
    ensures HasWholeWord(CleanModel, "equation")
  {
    assert WholeWordAt(CleanModel, "equation", 10);
  }

  lemma CleanModelNoParentheses()
    ensures '(' !in CleanModel && ')' !in CleanModel
  {
  }

  lemma CleanModelParentheses()
    ensures ParenthesesErrors(CleanModel) == []
  {
    CleanModelNoParentheses();
    CountAbsent(CleanModel, '(');
    CountAbsent(CleanModel, ')');
  }

  lemma CleanModelOpening()
    ensures MatchEnd(BlockStartPattern, CleanModel, 0) == Some(9)
  {
    var s := CleanModel;
    assert s[0..5] == "model";
    assert s[5] == ' ' && s[6] == 'F' && s[9] == '\n';
    assert SkipSpaces(s, 6) == 6;
    assert SkipWord(s, 9) == 9;
    assert SkipWord(s, 6) == 9;
    assert SpaceIdentEnd(s, 5) == Some(9);
  }

  /** After `model Foo` no letter starts a block keyword. */
  lemma CleanModelNoLaterBlockStart()
    ensures FirstMatch(BlockStartPattern, CleanModel, 9).None?
  {
    FirstMatchSkipLetters(BlockStartPattern, CleanModel, 9, |CleanModel| + 1, BlockLetters);
  }

  lemma CleanModelBlockStarts()
    ensures BlockStarts(CleanModel) == 1
  {
    CleanModelOpening();
    assert FirstMatch(BlockStartPattern, CleanModel, 0) == Some(0);
    CleanModelNoLaterBlockStart();
    FindAllSingle(BlockStartPattern, CleanModel, 0, 9);
  }


  /** Before index 19 no `end` clause starts: `e` occurs only at 3, inside
      `model`, and at 10, starting `equation`. */
  lemma CleanModelNoEarlyEnd()
    ensures FirstMatch(BlockEndPattern, CleanModel, 0) == FirstMatch(BlockEndPattern, CleanModel, 19)
  {
    CleanModelSkip0();
    CleanModelStep3();
    CleanModelSkip4();
    CleanModelStep10();
    CleanModelSkip11();
  }

  /** The stretches without the letter `e` hold no `end` clause. */
  lemma CleanModelSkip0()
    ensures FirstMatch(BlockEndPattern, CleanModel, 0) == FirstMatch(BlockEndPattern, CleanModel, 3)
  {
    FirstMatchSkipLetters(BlockEndPattern, CleanModel, 0, 3, ['e']);
  }

  lemma CleanModelSkip4()
    ensures FirstMatch(BlockEndPattern, CleanModel, 4) == FirstMatch(BlockEndPattern, CleanModel, 10)
  {
    FirstMatchSkipLetters(BlockEndPattern, CleanModel, 4, 10, ['e']);
  }

  lemma CleanModelSkip11()
    ensures FirstMatch(BlockEndPattern, CleanModel, 11) == FirstMatch(BlockEndPattern, CleanModel, 19)
  {
    FirstMatchSkipLetters(BlockEndPattern, CleanModel, 11, 19, ['e']);
  }

  lemma CleanModelStep3()
    ensures FirstMatch(BlockEndPattern, CleanModel, 3) == FirstMatch(BlockEndPattern, CleanModel, 4)
  {
    CleanModelNoEndAt3();
    FirstMatchSkip(BlockEndPattern, CleanModel, 3, 4);
  }

  lemma CleanModelStep10()
    ensures FirstMatch(BlockEndPattern, CleanModel, 10) == FirstMatch(BlockEndPattern, CleanModel, 11)
  {
    CleanModelNoEndAt10();
    FirstMatchSkip(BlockEndPattern, CleanModel, 10, 11);
  }

  /** The `e` of `model` follows a word character: no `\b` before it. */
  lemma CleanModelNoEndAt3()
    ensures MatchEnd(BlockEndPattern, CleanModel, 3).None?
  {
    assert IsWordChar(CleanModel[2]) && IsWordChar(CleanModel[3]);
    assert !Boundary(CleanModel, 3);
  }

  /** `equation` does not start with `end`. */
  lemma CleanModelNoEndAt10()
    ensures MatchEnd(BlockEndPattern, CleanModel, 10).None?
  {
    assert CleanModel[11] == 'q';
    assert !OccursAt(CleanModel, "end", 10);
  }

  /** `end Foo;` at index 19 is an end clause. */
  lemma CleanModelClosing()
    ensures MatchEnd(BlockEndPattern, CleanModel, 19) == Some(27)
  {
    var s := CleanModel;
    assert s[19..22] == "end";
    assert SpaceIdentEnd(s, 22) == Some(26);
    assert MatchEnd(BlockEndPattern, s, 19) == Some(27);
  }

  /** Nothing after the closing clause starts another. */
  lemma CleanModelNoLaterEnd()
    ensures FirstMatch(BlockEndPattern, CleanModel, 27).None?
  {
    FirstMatchSkipLetters(BlockEndPattern, CleanModel, 27, |CleanModel| + 1, ['e']);
  }

  lemma CleanModelBlockEnds()
    ensures BlockEnds(CleanModel) == 1
  {
    CleanModelNoEarlyEnd();
    CleanModelClosing();
    CleanModelNoLaterEnd();
    FindAllSingle(BlockEndPattern, CleanModel, 19, 27);
  }


  lemma CleanModelBalanced()
    ensures BalanceWarnings(CleanModel) == []
  {
    CleanModelBlockStarts();
    CleanModelBlockEnds();
  }

  /** The model has no `=` at all, so no line is suspect; the empty line
      after the last newline is skipped as blank. */
  lemma CleanModelNoSemicolonWarnings()
    ensures SemicolonWarnings(CleanModel) == []
  {
    assert '=' !in CleanModel;
    NoEqualsNoSemicolonWarnings(CleanModel);
  }

  /** `model Foo`, `equation`, `end Foo;`: no error and no warning. */
  lemma CleanModelNoDiagnostics()
    ensures FileErrors(CleanModel) == []
    ensures FileWarnings(CleanModel) == []
  {
    CleanModelDefinition();
    CleanModelParentheses();
    NoErrorsFromChecks(CleanModel);
    CleanModelBalanced();
    CleanModelEquation();
    CleanModelNoSemicolonWarnings();
    OnlySemicolonWarnings(CleanModel);
  }

  // ---- The unterminated equation ----

  lemma UnterminatedEquationDefinition()
    ensures HasDefinition(UnterminatedEquation)
  {
    assert UnterminatedEquation[..10] == "model Foo\n";
    assert UnterminatedEquation[..5] == UnterminatedEquation[..10][..5] && UnterminatedEquation[5] == UnterminatedEquation[..10][5];
    OpeningDefinition(UnterminatedEquation);
  }

  lemma UnterminatedEquationEquation()
    ensures HasWholeWord(UnterminatedEquation, "equation")
  {
    var s := UnterminatedEquation;
    assert s[10..18] == "equation";
    assert s[9] == '\n' && s[10] == 'e' && s[17] == 'n' && s[18] == '\n';
    assert WholeWordAt(s, "equation", 10);
  }

  lemma UnterminatedEquationNoParentheses()
    ensures '(' !in UnterminatedEquation && ')' !in UnterminatedEquation
  {
  }

  lemma UnterminatedEquationParentheses()
    ensures ParenthesesErrors(UnterminatedEquation) == []
  {
    UnterminatedEquationNoParentheses();
    CountAbsent(UnterminatedEquation, '(');
    CountAbsent(UnterminatedEquation, ')');
  }

  lemma UnterminatedEquationOpening()
    ensures MatchEnd(BlockStartPattern, UnterminatedEquation, 0) == Some(9)
  {
    var s := UnterminatedEquation;
    assert s[0..5] == "model";
    assert s[5] == ' ' && s[6] == 'F' && s[9] == '\n';
    assert SkipSpaces(s, 6) == 6;
    assert SkipWord(s, 9) == 9;
    assert SkipWord(s, 6) == 9;
    assert SpaceIdentEnd(s, 5) == Some(9);
  }

  /** After `model Foo` no letter starts a block keyword. */
  lemma UnterminatedEquationNoLaterBlockStart()
    ensures FirstMatch(BlockStartPattern, UnterminatedEquation, 9).None?
  {
    FirstMatchSkipLetters(BlockStartPattern, UnterminatedEquation, 9, |UnterminatedEquation| + 1, BlockLetters);
  }

  lemma UnterminatedEquationBlockStarts()
    ensures BlockStarts(UnterminatedEquation) == 1
  {
    UnterminatedEquationOpening();
    assert FirstMatch(BlockStartPattern, UnterminatedEquation, 0) == Some(0);
    UnterminatedEquationNoLaterBlockStart();
    FindAllSingle(BlockStartPattern, UnterminatedEquation, 0, 9);
  }


  /** Before index 27 no `end` clause starts: `e` occurs only at 3 and 10. */
  lemma UnterminatedEquationNoEarlyEnd()
    ensures FirstMatch(BlockEndPattern, UnterminatedEquation, 0)
            == FirstMatch(BlockEndPattern, UnterminatedEquation, 27)
  {
    UnterminatedEquationSkip0();
    UnterminatedEquationStep3();
    UnterminatedEquationSkip4();
    UnterminatedEquationStep10();
    UnterminatedEquationSkip11();
  }

  /** The stretches without the letter `e` hold no `end` clause. */
  lemma UnterminatedEquationSkip0()
    ensures FirstMatch(BlockEndPattern, UnterminatedEquation, 0) == FirstMatch(BlockEndPattern, UnterminatedEquation, 3)
  {
    FirstMatchSkipLetters(BlockEndPattern, UnterminatedEquation, 0, 3, ['e']);
  }

  lemma UnterminatedEquationSkip4()
    ensures FirstMatch(BlockEndPattern, UnterminatedEquation, 4) == FirstMatch(BlockEndPattern, UnterminatedEquation, 10)
  {
    FirstMatchSkipLetters(BlockEndPattern, UnterminatedEquation, 4, 10, ['e']);
  }

  lemma UnterminatedEquationSkip11()
    ensures FirstMatch(BlockEndPattern, UnterminatedEquation, 11) == FirstMatch(BlockEndPattern, UnterminatedEquation, 27)
  {
    FirstMatchSkipLetters(BlockEndPattern, UnterminatedEquation, 11, 27, ['e']);
  }

  lemma UnterminatedEquationStep3()
    ensures FirstMatch(BlockEndPattern, UnterminatedEquation, 3) == FirstMatch(BlockEndPattern, UnterminatedEquation, 4)
  {
    UnterminatedEquationNoEndAt3();
    FirstMatchSkip(BlockEndPattern, UnterminatedEquation, 3, 4);
  }

  lemma UnterminatedEquationStep10()
    ensures FirstMatch(BlockEndPattern, UnterminatedEquation, 10) == FirstMatch(BlockEndPattern, UnterminatedEquation, 11)
  {
    UnterminatedEquationNoEndAt10();
    FirstMatchSkip(BlockEndPattern, UnterminatedEquation, 10, 11);
  }

  lemma UnterminatedEquationNoEndAt3()
    ensures MatchEnd(BlockEndPattern, UnterminatedEquation, 3).None?
  {
    assert IsWordChar(UnterminatedEquation[2]) && IsWordChar(UnterminatedEquation[3]);
    assert !Boundary(UnterminatedEquation, 3);
  }

  lemma UnterminatedEquationNoEndAt10()
    ensures MatchEnd(BlockEndPattern, UnterminatedEquation, 10).None?
  {
    assert UnterminatedEquation[11] == 'q';
    assert !OccursAt(UnterminatedEquation, "end", 10);
  }

  /** `end Foo;` at index 27 is an end clause. */
  lemma UnterminatedEquationClosing()
    ensures MatchEnd(BlockEndPattern, UnterminatedEquation, 27) == Some(35)
  {
    var s := UnterminatedEquation;
    assert s[27] == 'e' && s[28] == 'n' && s[29] == 'd';
    assert s[27..30] == "end";
    assert s[30] == ' ' && s[31] == 'F' && s[34] == ';';
    assert SkipSpaces(s, 31) == 31;
    assert SkipWord(s, 34) == 34;
    assert SkipWord(s, 31) == 34;
    assert SpaceIdentEnd(s, 30) == Some(34);
    assert MatchEnd(BlockEndPattern, s, 27) == Some(35);
  }

  /** Nothing after the closing clause starts another. */
  lemma UnterminatedEquationNoLaterEnd()
    ensures FirstMatch(BlockEndPattern, UnterminatedEquation, 35).None?
  {
    FirstMatchSkipLetters(BlockEndPattern, UnterminatedEquation, 35, |UnterminatedEquation| + 1, ['e']);
  }

  lemma UnterminatedEquationBlockEnds()
    ensures BlockEnds(UnterminatedEquation) == 1
  {
    UnterminatedEquationNoEarlyEnd();
    UnterminatedEquationClosing();
    UnterminatedEquationNoLaterEnd();
    FindAllSingle(BlockEndPattern, UnterminatedEquation, 27, 35);
  }


  /** The lines of the second file, the last one empty. */
  const UnterminatedEquationLines: seq<string> := ["model Foo", "equation", "  y = x", "end Foo;", ""]

  lemma UnterminatedEquationJoined()
    ensures Join(UnterminatedEquationLines, '\n') == UnterminatedEquation
  {
  }

  lemma UnterminatedEquationSplit()
    ensures Split(UnterminatedEquation, '\n') == UnterminatedEquationLines
  {
    UnterminatedEquationJoined();
    SplitJoin(UnterminatedEquationLines, '\n');
  }

  lemma EquationLineStripped()
    ensures Strip("  y = x") == "y = x"
  {
  }

  lemma EquationLineNoKeywords()
    ensures !Search(EquationPattern, "y = x") && !Search(ControlPattern, "y = x")
  {
    FirstMatchSkipLetters(EquationPattern, "y = x", 0, 6, ['e']);
    FirstMatchSkipLetters(ControlPattern, "y = x", 0, 6, ['i', 'f', 'w']);
  }

  lemma EquationLineUnterminated()
    ensures !EndsWithAny("y = x", StatementEndings)
  {
    var t := "y = x";
    forall k | 0 <= k < |StatementEndings| ensures !EndsWith(t, StatementEndings[k]) {
      assert t[|t| - 1] == 'x';
      if k == 1 || k == 2 {
        assert t[1..] == " = x";
      }
    }
  }

  /** `y = x` passes every part of the semicolon test. */
  lemma UnterminatedLineSuspect()
    ensures MissingSemicolonSuspect("  y = x")
  {
    EquationLineStripped();
    EquationLineNoKeywords();
    EquationLineUnterminated();
    assert "y = x"[..2] == "y ";
    assert "y = x"[2] == '=';
  }

  /** Five lines of which only the third is suspect give one warning,
      for line 3. */
  lemma OnlyThirdLineSuspect(lines: seq<string>)
    requires |lines| == 5
    requires !MissingSemicolonSuspect(lines[0]) && !MissingSemicolonSuspect(lines[1])
    requires MissingSemicolonSuspect(lines[2])
    requires !MissingSemicolonSuspect(lines[3]) && !MissingSemicolonSuspect(lines[4])
    ensures LineWarnings(lines, 5) == [MissingSemicolonMessage(3)]
  {
    NoSuspectNoLineWarnings(lines, 2);
    assert LineWarnings(lines, 3) == LineWarnings(lines, 2) + [MissingSemicolonMessage(3)];
    assert LineWarnings(lines, 4) == LineWarnings(lines, 3);
    assert LineWarnings(lines, 5) == LineWarnings(lines, 4);
  }

  /** Only the third line is suspect. */
  lemma UnterminatedEquationLineWarnings()
    ensures LineWarnings(UnterminatedEquationLines, 5) == [MissingSemicolonMessage(3)]
  {
    var lines := UnterminatedEquationLines;
    NoEqualsNotSuspect(lines[0]);
    NoEqualsNotSuspect(lines[1]);
    UnterminatedLineSuspect();
    NoEqualsNotSuspect(lines[3]);
    NoEqualsNotSuspect(lines[4]);
    OnlyThirdLineSuspect(lines);
  }


  lemma LineThreeMessage()
    ensures MissingSemicolonMessage(3) == "Line 3: Possible missing semicolon"
  {
    assert DigitChar(3) == '3';
    assert DecimalString(3) == "3";
  }

  lemma UnterminatedEquationSemicolonWarnings()
    ensures SemicolonWarnings(UnterminatedEquation) == [MissingSemicolonMessage(3)]
  {
    UnterminatedEquationSplit();
    UnterminatedEquationLineWarnings();
  }

  lemma UnterminatedEquationBalanced()
    ensures BalanceWarnings(UnterminatedEquation) == []
  {
    UnterminatedEquationBlockStarts();
    UnterminatedEquationBlockEnds();
  }

  /** An equation line without a semicolon: the only diagnostic is the
      warning for line 3. */
  lemma UnterminatedEquationDiagnostics()
    ensures FileErrors(UnterminatedEquation) == []
    ensures FileWarnings(UnterminatedEquation) == ["Line 3: Possible missing semicolon"]
  {
    UnterminatedEquationDefinition();
    UnterminatedEquationParentheses();
    NoErrorsFromChecks(UnterminatedEquation);
    UnterminatedEquationBalanced();
    UnterminatedEquationEquation();
    UnterminatedEquationSemicolonWarnings();
    OnlySemicolonWarnings(UnterminatedEquation);
    LineThreeMessage();
  }

  // ---- The unclosed parenthesis ----

  /** Counting in a text made of two pieces around one character. */
  lemma CountAround(a: string, c: char, b: string, x: char)
    ensures CountChar(a + [c] + b, x) == CountChar(a, x) + (if c == x then 1 else 0) + CountChar(b, x)
  {
    assert multiset(a + [c] + b) == multiset(a) + multiset([c]) + multiset(b);
  }

  lemma UnclosedParenthesisPieces()
    ensures '(' !in "model Foo " && ')' !in "model Foo "
    ensures '(' !in "a equation end Foo;" && ')' !in "a equation end Foo;"
  {
  }

  /** One `(` between two pieces without parentheses. */
  lemma OneOpeningBetween(a: string, b: string)
    requires '(' !in a && ')' !in a && '(' !in b && ')' !in b
    ensures CountChar(a + ['('] + b, '(') == 1 && CountChar(a + ['('] + b, ')') == 0
  {
    CountAbsent(a, '(');
    CountAbsent(b, '(');
    CountAbsent(a, ')');
    CountAbsent(b, ')');
    CountAround(a, '(', b, '(');
    CountAround(a, '(', b, ')');
  }

  lemma UnclosedParenthesisCounts()
    ensures CountChar(UnclosedParenthesis, '(') == 1 && CountChar(UnclosedParenthesis, ')') == 0
  {
    assert UnclosedParenthesis == "model Foo " + ['('] + "a equation end Foo;";
    UnclosedParenthesisPieces();
    OneOpeningBetween("model Foo ", "a equation end Foo;");
  }

  /** The text has one `(` and no `)`, and the error echoes those counts. */
  lemma UnclosedParenthesisError()
    ensures ParenthesesErrors(UnclosedParenthesis) == [UnmatchedParensMessage(1, 0)]
  {
    UnclosedParenthesisCounts();
  }

  lemma UnclosedParenthesisDefinition()
    ensures HasDefinition(UnclosedParenthesis)
  {
    assert UnclosedParenthesis[..5] == "model" && UnclosedParenthesis[5] == ' ';
    OpeningDefinition(UnclosedParenthesis);
  }

  /** The only error is the parentheses error: the file opens with a
      definition. */
  lemma UnclosedParenthesisErrors()
    ensures FileErrors(UnclosedParenthesis) == [UnmatchedParensMessage(1, 0)]
  {
    UnclosedParenthesisDefinition();
    UnclosedParenthesisError();
  }
}
