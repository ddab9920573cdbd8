/** What the checker's output means: each diagnostic appears exactly when
    its condition holds and gives back the counts it was built from; the
    errors and the warnings come in a fixed order. */
module CheckerProperties {
  import opened Lexical
  import opened Patterns
  import opened Checker

  // ---- Reading a number back out of a message ----

  /** A message made of a fixed prefix, a rendered number and a tail that
      starts with a non-digit determines the number and the tail. */
  lemma NumberAfterPrefix(p: string, a: nat, q: string, b: nat, r: string)
    requires q != [] && !IsDigit(q[0]) && r != [] && !IsDigit(r[0])
    requires p + DecimalString(a) + q == p + DecimalString(b) + r
    ensures a == b && q == r
  {
    assert (p + DecimalString(a) + q)[|p|..] == DecimalString(a) + q;
    assert (p + DecimalString(b) + r)[|p|..] == DecimalString(b) + r;
    DigitsPrefixCancel(DecimalString(a), q, DecimalString(b), r);
    DecimalStringInjective(a, b);
  }

  /** The same for a message that embeds two numbers. */
  lemma TwoNumbersAfterPrefix(p: string, a: nat, q: string, b: nat, r: string, a': nat, b': nat)
    requires q != [] && !IsDigit(q[0]) && r != [] && !IsDigit(r[0])
    requires p + DecimalString(a) + q + DecimalString(b) + r
             == p + DecimalString(a') + q + DecimalString(b') + r
    ensures a == a' && b == b'
  {
    var tail := q + DecimalString(b) + r;
    var tail' := q + DecimalString(b') + r;
    RegroupTail(p, DecimalString(a), q, DecimalString(b), r);
    RegroupTail(p, DecimalString(a'), q, DecimalString(b'), r);
    NumberAfterPrefix(p, a, tail, a', tail');
    NumberAfterPrefix(q, b, r, b', r);
  }

  /** Associativity, stated over plain strings so that the numbers above
      are not unfolded while regrouping. */
  lemma RegroupTail(p: string, x: string, q: string, y: string, r: string)
    ensures p + x + q + y + r == p + x + (q + y + r)
  {
  }

  lemma MismatchedMessageInjective(starts: nat, ends: nat, starts': nat, ends': nat)
    requires MismatchedMessage(starts, ends) == MismatchedMessage(starts', ends')
    ensures starts == starts' && ends == ends'
  {
    TwoNumbersAfterPrefix("Mismatched definitions: ", starts, " starts, ", ends, " ends", starts', ends');
  }

  lemma UnmatchedParensMessageInjective(open: nat, close: nat, open': nat, close': nat)
    requires UnmatchedParensMessage(open, close) == UnmatchedParensMessage(open', close')
    ensures open == open' && close == close'
  {
    TwoNumbersAfterPrefix("Unmatched parentheses: ", open, " open, ", close, " close", open', close');
  }

  lemma MissingSemicolonMessageInjective(line: nat, line': nat)
    requires MissingSemicolonMessage(line) == MissingSemicolonMessage(line')
    ensures line == line'
  {
    NumberAfterPrefix("Line ", line, ": Possible missing semicolon", line',
                      ": Possible missing semicolon");
  }

  /** A per-line warning, whatever its line. */
  ghost predicate IsLineWarning(w: string) {
    exists n: nat :: w == MissingSemicolonMessage(n)
  }

  /** The five kinds of message start with five different letters. */
  lemma MessagesDistinct(a: nat, b: nat, c: nat, d: nat, n: nat)
    ensures NoDefinitionMessage[0] == 'N' && UnmatchedParensMessage(a, b)[0] == 'U'
    ensures MismatchedMessage(c, d)[0] == 'M' && VariablesMessage[0] == 'V'
    ensures MissingSemicolonMessage(n)[0] == 'L'
  {
    assert MissingSemicolonMessage(n) == "Line " + (DecimalString(n) + ": Possible missing semicolon");
  }

  lemma NotLineWarning(w: string)
    requires w != [] && w[0] != 'L'
    ensures !IsLineWarning(w)
  {
    forall n: nat ensures w != MissingSemicolonMessage(n) {
      MessagesDistinct(0, 0, 0, 0, n);
    }
  }

  // ---- Errors ----

  /** The definition error is reported exactly when no whole-word `model`,
      `package` or `class` occurs; a keyword inside a longer word does not
      count, since a whole word needs a boundary on both sides. */
  lemma NoDefinitionErrorIff(content: string)
    ensures NoDefinitionMessage in FileErrors(content) <==> !HasDefinition(content)
  {
    var open, close := CountChar(content, '('), CountChar(content, ')');
    MessagesDistinct(open, close, 0, 0, 0);
    assert NoDefinitionMessage != UnmatchedParensMessage(open, close);
  }

  /** The parentheses error is reported exactly when the counts of `(` and
      `)` differ, and the message gives back both counts. */
  lemma UnmatchedParensErrorIff(content: string, open: nat, close: nat)
    ensures UnmatchedParensMessage(open, close) in FileErrors(content)
            <==> open == CountChar(content, '(') && close == CountChar(content, ')')
                 && open != close
  {
    var o, c := CountChar(content, '('), CountChar(content, ')');
    MessagesDistinct(open, close, 0, 0, 0);
    assert NoDefinitionMessage != UnmatchedParensMessage(open, close);
    if UnmatchedParensMessage(open, close) in FileErrors(content) {
      assert UnmatchedParensMessage(open, close) == UnmatchedParensMessage(o, c);
      UnmatchedParensMessageInjective(open, close, o, c);
    }
  }

  /** Two errors at most; the definition error, when present, is the first,
      and every error is one of the two kinds with the file's own counts. */
  lemma ErrorsShape(content: string)
    ensures |FileErrors(content)| <= 2
    ensures forall k :: 0 <= k < |FileErrors(content)| ==>
              FileErrors(content)[k] == NoDefinitionMessage
              || FileErrors(content)[k]
                 == UnmatchedParensMessage(CountChar(content, '('), CountChar(content, ')'))
    ensures forall k :: 0 <= k < |FileErrors(content)| && FileErrors(content)[k] == NoDefinitionMessage
              ==> k == 0
  {
    var e := FileErrors(content);
    MessagesDistinct(CountChar(content, '('), CountChar(content, ')'), 0, 0, 0);
    if |e| == 2 {
      assert e[1] != NoDefinitionMessage;
    } else if |e| == 1 {
      assert e[0] in e;
    }
  }

  // ---- Warnings ----

  /** The per-line warnings are the messages for the suspect line numbers,
      in the order of those numbers. */
  lemma {:induction false} LineWarningsAreMessages(lines: seq<string>, n: nat)
    requires n <= |lines|
    ensures LineWarnings(lines, n) == LineMessages(SuspectLines(lines, n))
  {
    if n > 0 {
      LineWarningsAreMessages(lines, n - 1);
      var p := SuspectLines(lines, n - 1);
      if MissingSemicolonSuspect(lines[n - 1]) {
        assert LineMessages(p + [n]) == LineMessages(p) + [MissingSemicolonMessage(n)];
      } else {
        assert SuspectLines(lines, n) == p;
      }
    }
  }

  /** The warnings that are not per-line come first: at most one balance
      warning, then at most one variables warning. */
  lemma GlobalWarningsNotLineWarnings(content: string)
    ensures |BalanceWarnings(content) + VariablesWarnings(content)| <= 2
    ensures forall k :: 0 <= k < |BalanceWarnings(content) + VariablesWarnings(content)| ==>
              !IsLineWarning((BalanceWarnings(content) + VariablesWarnings(content))[k])
  {
    var g := BalanceWarnings(content) + VariablesWarnings(content);
    MessagesDistinct(0, 0, BlockStarts(content), BlockEnds(content), 0);
    forall k | 0 <= k < |g| ensures !IsLineWarning(g[k]) {
      NotLineWarning(g[k]);
    }
  }

  /** Every per-line warning is a line warning. */
  lemma SemicolonWarningsAreLineWarnings(content: string)
    ensures forall k :: 0 <= k < |SemicolonWarnings(content)| ==> IsLineWarning(SemicolonWarnings(content)[k])
  {
    var lines := Split(content, '\n');
    LineWarningsAreMessages(lines, |lines|);
    var s := SuspectLines(lines, |lines|);
    forall k | 0 <= k < |SemicolonWarnings(content)| ensures IsLineWarning(SemicolonWarnings(content)[k]) {
      assert SemicolonWarnings(content)[k] == MissingSemicolonMessage(s[k]);
    }
  }

  /** The mismatch warning is given exactly when the counts of block starts
      and block ends differ, and it gives back both counts. */
  lemma MismatchedWarningIff(content: string, starts: nat, ends: nat)
    ensures MismatchedMessage(starts, ends) in FileWarnings(content)
            <==> starts == BlockStarts(content) && ends == BlockEnds(content) && starts != ends
  {
    var m := MismatchedMessage(starts, ends);
    MessagesDistinct(0, 0, starts, ends, 0);
    NotLineWarning(m);
    SemicolonWarningsAreLineWarnings(content);
    assert m !in SemicolonWarnings(content);
    if m in BalanceWarnings(content) {
      MismatchedMessageInjective(starts, ends, BlockStarts(content), BlockEnds(content));
    }
  }

  /** The variables warning is given exactly when a typed declaration
      occurs and neither a whole-word `equation` nor `algorithm` does. */
  lemma VariablesWarningIff(content: string)
    ensures VariablesMessage in FileWarnings(content)
            <==> HasTypedDeclaration(content) && !HasWholeWord(content, "equation")
                 && !HasWholeWord(content, "algorithm")
  {
    MessagesDistinct(0, 0, BlockStarts(content), BlockEnds(content), 0);
    NotLineWarning(VariablesMessage);
    SemicolonWarningsAreLineWarnings(content);
    assert VariablesMessage !in SemicolonWarnings(content);
  }

  /** The message for line `n` is among the messages for the numbers `s`
      exactly when `n` is among them. */
  lemma LineMessagesMember(s: seq<nat>, n: nat)
    ensures MissingSemicolonMessage(n) in LineMessages(s) <==> n in s
  {
    var l := LineMessages(s);
    if MissingSemicolonMessage(n) in l {
      var k :| 0 <= k < |l| && l[k] == MissingSemicolonMessage(n);
      MissingSemicolonMessageInjective(s[k], n);
    }
    if n in s {
      var k :| 0 <= k < |s| && s[k] == n;
      assert l[k] == MissingSemicolonMessage(n);
    }
  }

  /** Messages that are not line warnings, followed by the messages for
      strictly ascending line numbers: line warnings only follow line
      warnings, and their numbers ascend. */
  lemma LineMessagesAfter(g: seq<string>, s: seq<nat>)
    requires forall k :: 0 <= k < |g| ==> !IsLineWarning(g[k])
    requires forall a, b :: 0 <= a < b < |s| ==> s[a] < s[b]
    ensures forall a, b :: 0 <= a < b < |g + LineMessages(s)| && IsLineWarning((g + LineMessages(s))[a])
              ==> IsLineWarning((g + LineMessages(s))[b])
    ensures forall a, b, n: nat, m: nat ::
              0 <= a < b < |g + LineMessages(s)|
              && (g + LineMessages(s))[a] == MissingSemicolonMessage(n)
              && (g + LineMessages(s))[b] == MissingSemicolonMessage(m)
              ==> n < m
  {
    var l := LineMessages(s);
    var w := g + l;
    forall a, b | 0 <= a < b < |w| && IsLineWarning(w[a]) ensures IsLineWarning(w[b]) {
      assert a >= |g|;
      assert w[b] == l[b - |g|];
    }
    forall a, b, n: nat, m: nat | 0 <= a < b < |w| && w[a] == MissingSemicolonMessage(n)
                                  && w[b] == MissingSemicolonMessage(m)
      ensures n < m
    {
      assert a >= |g|;
      assert w[a] == l[a - |g|];
      assert w[b] == l[b - |g|];
      MissingSemicolonMessageInjective(n, s[a - |g|]);
      MissingSemicolonMessageInjective(m, s[b - |g|]);
    }
  }

  /** Among the per-line warnings, line `n` is warned about exactly when
      it exists and passes the semicolon test. */
  lemma LineWarningPresentIff(lines: seq<string>, n: nat)
    ensures MissingSemicolonMessage(n) in LineWarnings(lines, |lines|)
            <==> 1 <= n <= |lines| && MissingSemicolonSuspect(lines[n - 1])
  {
    LineWarningsAreMessages(lines, |lines|);
    LineMessagesMember(SuspectLines(lines, |lines|), n);
    SuspectLinesMember(lines, |lines|, n);
  }

  /** Line `n` (counted from 1 over the `\n`-separated lines) is warned
      about exactly when it exists and passes the semicolon test. */
  lemma MissingSemicolonWarningIff(content: string, n: nat)
    ensures MissingSemicolonMessage(n) in FileWarnings(content)
            <==> var lines := Split(content, '\n');
                 1 <= n <= |lines| && MissingSemicolonSuspect(lines[n - 1])
  {
    var w := MissingSemicolonMessage(n);
    GlobalWarningsNotLineWarnings(content);
    assert IsLineWarning(w);
    assert w !in BalanceWarnings(content) + VariablesWarnings(content);
    LineWarningPresentIff(Split(content, '\n'), n);
  }

  /** The per-line warnings come after the other warnings, each line is
      warned about at most once, and in ascending line order. */
  lemma LineWarningsInOrder(content: string)
    ensures forall a, b :: 0 <= a < b < |FileWarnings(content)| && IsLineWarning(FileWarnings(content)[a])
              ==> IsLineWarning(FileWarnings(content)[b])
    ensures forall a, b, n: nat, m: nat ::
              0 <= a < b < |FileWarnings(content)|
              && FileWarnings(content)[a] == MissingSemicolonMessage(n)
              && FileWarnings(content)[b] == MissingSemicolonMessage(m)
              ==> n < m
  {
    var lines := Split(content, '\n');
    var g := BalanceWarnings(content) + VariablesWarnings(content);
    LineWarningsAreMessages(lines, |lines|);
    assert FileWarnings(content) == g + LineMessages(SuspectLines(lines, |lines|));
    GlobalWarningsNotLineWarnings(content);
    SuspectLinesAscending(lines, |lines|);
    LineMessagesAfter(g, SuspectLines(lines, |lines|));
  }

  // ---- The per-line test ----

  /** The semicolon test on a stripped line, stated without the scanners:
      a non-empty line that is not a `//` comment, with no whole-word
      `equation`, that contains `=`, does not end with `;`, `then`, `else`
      or `)`, and contains none of `if`, `for`, `when`, `while` anywhere,
      even inside a longer word. */
  lemma StrippedLineSuspectIff(t: string)
    ensures StrippedLineSuspect(t)
            <==> t != [] && !StartsWith(t, "//") && !HasWholeWord(t, "equation") && '=' in t
                 && !EndsWithAny(t, StatementEndings) && !ContainsAny(t, ControlKeywords)
  {
    SearchSingleWord("equation", t);
    SearchLiteralIff(ControlKeywords, t);
  }

  /** A control keyword inside a longer word still exempts the line:
      `diff = x` contains `if`. */
  lemma ControlKeywordInsideWordExempts()
    ensures !StrippedLineSuspect("diff = x")
  {
    var t := "diff = x";
    assert OccursAt(t, ControlKeywords[0], 1);
    assert ContainsAny(t, ControlKeywords);
    StrippedLineSuspectIff(t);
  }

  /** A line without `=` is never suspect. */
  lemma NoEqualsNotSuspect(line: string)
    requires '=' !in line
    ensures !MissingSemicolonSuspect(line)
  {
    var a := StripSpec(line);
  }

  /** No per-line warnings among lines none of which is suspect. */
  lemma {:induction false} NoSuspectNoLineWarnings(lines: seq<string>, n: nat)
    requires n <= |lines|
    requires forall k :: 0 <= k < n ==> !MissingSemicolonSuspect(lines[k])
    ensures LineWarnings(lines, n) == []
  {
    if n > 0 {
      NoSuspectNoLineWarnings(lines, n - 1);
    }
  }

  /** A file without `=` gets no semicolon warning. */
  lemma NoEqualsNoSemicolonWarnings(content: string)
    requires '=' !in content
    ensures SemicolonWarnings(content) == []
  {
    var lines := Split(content, '\n');
    forall k | 0 <= k < |lines| ensures !MissingSemicolonSuspect(lines[k]) {
      if '=' in lines[k] {
        SplitPartsFromString(content, '\n', k, '=');
      }
      NoEqualsNotSuspect(lines[k]);
    }
    NoSuspectNoLineWarnings(lines, |lines|);
  }
}
