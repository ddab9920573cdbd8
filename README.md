# Modelica syntax checker — a verified model

`check_syntax.py` is a lightweight structural linter for Modelica source
files. For one file it runs five lexical checks, in a fixed order, over the
file's text. Each check appends zero or more messages to an error list or a
warning list:

1. **Definition presence.** If there is no whole-word `model`, `package` or
   `class`, it reports the error "No model, package, or class definition
   found".
2. **Block balance.** It counts the non-overlapping matches of a block
   keyword (`model`, `package`, `class`, `function`, `block`) followed by
   whitespace and an identifier. It also counts the matches of `end`
   followed by whitespace, an identifier and `;`. If the two counts differ,
   it warns "Mismatched definitions: {starts} starts, {ends} ends".
3. **Variables without a body.** If a typed declaration (`Real`, `Integer`
   or `Boolean`, whitespace, an identifier) appears and there is no
   whole-word `equation` and no whole-word `algorithm`, it gives a warning.
4. **Parentheses.** If the number of `(` differs from the number of `)`, it
   reports the error "Unmatched parentheses: {open} open, {close} close".
5. **Missing semicolon.** Each `\n`-separated line is stripped and tested.
   A line is flagged with "Line {n}: Possible missing semicolon" when all of
   these hold:
   - the stripped line is not blank and not a `//` comment;
   - it has no whole-word `equation`;
   - it contains `=`;
   - it does not end with `;`, `then`, `else` or `)`;
   - it contains no `if`, `for`, `when` or `while`, even inside a word.

The driver `main` checks every file under the model directory. It adds the
lengths of each file's lists to running totals. It exits with status 1 when
the total error count is positive or the root directory is missing, and
with status 0 otherwise.

The project has these modules:

- **`Lexical`** (`lexical.dfy`): the character classes of Python's `\w`
  and `\s`, and `str.strip`. It also has `str.split('\n')` with its inverse
  `Join`, `str.count`, and the decimal rendering of counts with its parser.
- **`Patterns`** (`patterns.dfy`): the seven regular expressions of the
  checker as hand-written scanners.
  - `MatchEnd` is one match attempt at a position, using the regex's
    alternation order and backtracking.
  - `FirstMatch`/`Search` model `re.search`.
  - `FindAll` models the leftmost, non-overlapping scan of `re.findall`.
  - Each scanner is proved equal to a plain statement of what it looks
    for, such as a whole word at a position. Separate lemmas say where
    each match ends: after the longest identifier run for a block start,
    just past the `;` for a block end. That end decides where `findall`
    resumes.
- **`Checker`** (`checker.dfy`):
  - the messages;
  - the diagnostics a file is owed, check by check, as ghost functions;
  - the imperative checker `CheckModelicaFile`, which appends to its two
    lists and loops over the lines, as the Python function does.
- **`CheckerProperties`** (`checker_properties.dfy`): when and in what
  order each message appears.
- **`Scenarios`** (`scenarios.dfy`): three concrete files: both
  diagnostic lists for the first two, and the errors for the third.
- **`Reporter`** (`reporter.dfy`): `main`'s file loop, its counters and the
  exit status, over the sequence of file texts the directory walk yields.

## Model

| member | source | states |
|---|---|---|
| Checker.CheckModelicaFile | check_syntax.py:18-58 | the two lists are exactly the ones the file is owed: the definition error then the parentheses error; the balance warning, the variables warning, then one warning per suspect line |
| Checker.CheckSemicolons | check_syntax.py:46-56 | the warnings the line loop appends are the messages for the suspect lines, in line order |
| Checker.SearchDefinition | check_syntax.py:21 | the definition regex finds a match iff a whole-word `model`, `package` or `class` occurs |
| Checker.SearchSingleWord | check_syntax.py:33-34 | `\bequation\b` / `\balgorithm\b` find a match iff the word occurs as a whole word |
| Checker.SuspectLinesMember | check_syntax.py:46-56 | line number `m` is listed iff 1 <= m <= number of lines and line `m` passes the semicolon test |
| Checker.SuspectLinesAscending | check_syntax.py:46 | the listed line numbers strictly ascend and do not exceed the number of lines |
| CheckerProperties.NoDefinitionErrorIff | check_syntax.py:21-22 | the definition error is reported iff no whole-word definition keyword occurs |
| CheckerProperties.UnmatchedParensErrorIff | check_syntax.py:40-43 | the parentheses error with counts (o, c) is reported iff o and c are the numbers of `(` and `)` and differ |
| CheckerProperties.ErrorsShape | check_syntax.py:21-43 | at most two errors; each is the definition error or the parentheses error with the file's own counts; the definition error can only be first |
| CheckerProperties.MismatchedWarningIff | check_syntax.py:25-29 | the mismatch warning with counts (s, e) is present iff s and e are the block-start and block-end match counts and differ |
| CheckerProperties.VariablesWarningIff | check_syntax.py:32-37 | the variables warning is present iff a typed declaration occurs and neither `equation` nor `algorithm` occurs as a whole word |
| CheckerProperties.MissingSemicolonWarningIff | check_syntax.py:18-56 | the warning for line n is present iff n is a 1-based line number of the `\n` split and that line passes the semicolon test |
| CheckerProperties.LineWarningPresentIff | check_syntax.py:46-56 | over any list of lines, the warning for line n is appended iff line n exists and is suspect |
| CheckerProperties.LineWarningsAreMessages | check_syntax.py:46-56 | the loop's warnings are the messages for the suspect line numbers, one per number |
| CheckerProperties.LineWarningsInOrder | check_syntax.py:28-56 | once a line warning appears, every later warning is a line warning, and line warnings name strictly increasing lines |
| CheckerProperties.GlobalWarningsNotLineWarnings | check_syntax.py:28-37 | at most one balance warning and one variables warning, neither a line warning |
| CheckerProperties.SemicolonWarningsAreLineWarnings | check_syntax.py:56 | every warning of the line loop is a line warning |
| CheckerProperties.StrippedLineSuspectIff | check_syntax.py:47-55 | the semicolon test on a stripped line, stated with whole words and substrings instead of the scanners |
| CheckerProperties.ControlKeywordInsideWordExempts | check_syntax.py:55 | `diff = x` is exempt because `if` occurs inside `diff` |
| CheckerProperties.NoEqualsNotSuspect | check_syntax.py:54 | a line without `=` is never flagged |
| CheckerProperties.NoEqualsNoSemicolonWarnings | check_syntax.py:46-56 | a file without `=` gets no line warning |
| CheckerProperties.NoSuspectNoLineWarnings | check_syntax.py:46-56 | lines none of which is suspect give no line warning |
| CheckerProperties.MismatchedMessageInjective | check_syntax.py:29 | the mismatch message determines both counts it echoes |
| CheckerProperties.UnmatchedParensMessageInjective | check_syntax.py:43 | the parentheses message determines both counts it echoes |
| CheckerProperties.MissingSemicolonMessageInjective | check_syntax.py:56 | the line warning determines its line number |
| CheckerProperties.MessagesDistinct | check_syntax.py:22-56 | the five kinds of message start with five different letters |
| CheckerProperties.NotLineWarning | check_syntax.py:56 | a message not starting with `L` is not a line warning |
| CheckerProperties.NumberAfterPrefix | check_syntax.py:29 | a rendered count followed by a non-digit can be read back from the message |
| CheckerProperties.TwoNumbersAfterPrefix | check_syntax.py:29 | the same for a message with two counts |
| CheckerProperties.LineMessagesMember | check_syntax.py:56 | the message for line n is among the messages for a list of numbers iff n is in the list |
| CheckerProperties.LineMessagesAfter | check_syntax.py:28-56 | messages that are not line warnings followed by messages for ascending numbers keep line warnings last and in ascending order |
| Patterns.MatchEnd | check_syntax.py:21-55 | a match attempt ends within the text and, for the checker's patterns, consumes at least one character; where it ends is stated by the `…MatchEnd` lemmas below |
| Patterns.FirstMatchLeftmost | check_syntax.py:21 | `re.search` reports the leftmost position where the pattern matches, or none when it matches nowhere |
| Patterns.SearchIff | check_syntax.py:21 | a search succeeds iff the pattern matches at some position |
| Patterns.FindAll | check_syntax.py:25-26 | the reported matches are real, in increasing order, do not overlap, and are empty iff the pattern matches nowhere |
| Patterns.FindAllCovers | check_syntax.py:25-26 | every position where the pattern matches lies inside a reported match, so the scan is leftmost and misses nothing |
| Patterns.SpaceIdentEndIff | check_syntax.py:25-26 | `\s+\w+` matches iff a whitespace run is followed by a word character |
| Patterns.WordMatchIff | check_syntax.py:21 | a whole-word alternation such as `\bequation\b` matches at i iff one alternative stands at i as a whole word |
| Patterns.WordThenIdentMatchIff | check_syntax.py:25 | a keyword alternation followed by `\s+\w+` matches at i iff an alternative starts a word at i followed by whitespace and a word character |
| Patterns.EndThenIdentMatchIff | check_syntax.py:26 | `\bend\s+\w+;` matches at i iff `end` starts a word at i followed by whitespace, an identifier and `;` right after it |
| Patterns.LiteralMatchIff | check_syntax.py:55 | the control-keyword alternation matches at i iff one of `if`, `for`, `when`, `while` occurs at i |
| Patterns.SearchWordIff | check_syntax.py:21 | a search for whole-word alternatives succeeds iff one occurs as a whole word |
| Patterns.SearchWordThenIdentIff | check_syntax.py:32 | a search for the declaration pattern succeeds iff a typed declaration occurs |
| Patterns.SearchLiteralIff | check_syntax.py:55 | a search for the control keywords succeeds iff one occurs as a substring |
| Patterns.WordAltEndIff | check_syntax.py:21 | the whole-word alternation matches at i iff some alternative occurs at i and ends at a word boundary |
| Patterns.IdentAltEndIff | check_syntax.py:25 | the keyword-then-identifier alternation matches at i iff some alternative occurs at i and `\s+\w+` matches after it |
| Patterns.LiteralAltEndIff | check_syntax.py:55 | the plain alternation matches at i iff some alternative occurs at i |
| Patterns.NoLeadNoMatch | check_syntax.py:25 | a pattern cannot match at a character none of its alternatives starts with |
| Patterns.SpaceIdentEndAt | check_syntax.py:25-26 | `\s+\w+` from j ends at e iff a whitespace run from j is followed by a word run that ends at e, with no word character at e |
| Patterns.WordAltEndAt | check_syntax.py:21 | the whole-word alternation ends just past the first alternative that occurs at i with a boundary after it |
| Patterns.FirstIdentFit | check_syntax.py:25 | the index of the first keyword alternative followed by whitespace and a word character; no earlier one fits |
| Patterns.IdentAltEndFirst | check_syntax.py:25 | the keyword alternation ends where `\s+\w+` ends after the first fitting alternative, and fails when none fits |
| Patterns.LiteralAltEndAt | check_syntax.py:55 | the plain alternation ends just past the first alternative that occurs at i |
| Patterns.WordMatchEnd | check_syntax.py:21 | a whole-word match ends just past the first alternative that is a whole word there |
| Patterns.WordThenIdentMatchEnd | check_syntax.py:25 | a block-start match ends after the whole identifier: the first fitting keyword, a whitespace run, then the longest word run |
| Patterns.EndThenIdentMatchEnd | check_syntax.py:26 | a block-end match ends just past the `;` at d iff `end` starts a word, whitespace follows, and an identifier fills the gap up to d |
| Patterns.LiteralMatchEnd | check_syntax.py:55 | a control-keyword match ends just past the first keyword that occurs there |
| Patterns.FirstMatchSkip | check_syntax.py:21 | positions without a match do not change the leftmost match |
| Lexical.CountChar | check_syntax.py:40-41 | `str.count` of a character is its multiplicity in the text |
| Lexical.Split | check_syntax.py:18 | splitting on `\n` gives one more part than there are separators |
| Lexical.SplitPartLacksSeparator | check_syntax.py:18 | no part contains the separator |
| Lexical.JoinSplit | check_syntax.py:18 | joining the parts with `\n` gives back the text |
| Lexical.SplitJoin | check_syntax.py:18 | splitting the join of separator-free parts gives back the parts |
| Lexical.SplitNoSeparator | check_syntax.py:18 | text without a separator is one part |
| Lexical.SplitFirstSeparator | check_syntax.py:18 | the text before the first separator is the first part, and the rest splits into the remaining parts |
| Lexical.TrimStartSpec | check_syntax.py:47 | removing leading whitespace keeps a suffix that starts with no whitespace, and only whitespace is dropped |
| Lexical.TrimEndSpec | check_syntax.py:47 | the same for trailing whitespace |
| Lexical.StripSpec | check_syntax.py:47 | `strip` keeps the infix between the leading and the trailing whitespace run; it is empty iff the line is all whitespace |
| Lexical.DecimalString | check_syntax.py:29 | a count renders as a non-empty digit string with no leading zero |
| Lexical.DecimalRoundTrip | check_syntax.py:29 | the rendered count parses back to the count |
| Lexical.DecimalStringInjective | check_syntax.py:29 | different counts render differently |
| Lexical.DigitsPrefixCancel | check_syntax.py:29 | a digit string followed by a non-digit is determined by the combined text |
| Scenarios.CleanModelNoDiagnostics | check_syntax.py:18-58 | `model Foo\nequation\nend Foo;\n` gets no error and no warning |
| Scenarios.UnterminatedEquationDiagnostics | check_syntax.py:18-58 | `model Foo\nequation\n  y = x\nend Foo;\n` gets no error and exactly the warning "Line 3: Possible missing semicolon" |
| Scenarios.UnterminatedEquationSplit | check_syntax.py:18 | that file splits into five lines, the last empty |
| Scenarios.UnclosedParenthesisError | check_syntax.py:40-43 | `model Foo (a equation end Foo;` gets the parentheses error "1 open, 0 close" |
| Scenarios.UnclosedParenthesisErrors | check_syntax.py:21-43 | that file's error list is exactly that parentheses error: it opens with a definition |
| Reporter.RunChecks | check_syntax.py:68-112 | without the root: nothing counted, status 1. With the root: every file counted, the totals are the sums of the list lengths, and the status is 1 iff the error total is positive, i.e. iff some file has an error |
| Reporter.CheckFiles | check_syntax.py:72-89 | the file loop counts every file and sums the error and warning list lengths |
| Reporter.CheckFile | check_syntax.py:80-89 | one loop round adds exactly the lengths of the file's two lists |
| Reporter.SumAppend | check_syntax.py:83-89 | totals over two stretches of files add up |
| Reporter.SumPositiveIff | check_syntax.py:103 | a total is positive iff some count is |
| Reporter.ErrorTotalPositiveIff | check_syntax.py:82-83 | the error total is positive iff some file has an error |
| Reporter.FileErrorsEmptyIff | check_syntax.py:21-43 | a file has no error iff it has a definition and balanced parentheses |
| Reporter.RunFailsIff | check_syntax.py:103-112 | a run fails iff some file lacks a definition or has unbalanced parentheses; warnings never fail it |
| Reporter.TwoFileErrors | check_syntax.py:76-83 | over two files the error total is the sum of their error counts |
| Reporter.TwoFileWarnings | check_syntax.py:76-89 | the same for warnings |
| Reporter.ExampleRun | check_syntax.py:72-112 | the clean file and the unterminated-equation file together: no error and one warning, so the run passes |

## Left out

- `run_simulation.py` is not part of this model. It only drives an external
  OpenModelica session: loading, simulation, plotting and floating-point
  results.
- Reading the file (check_syntax.py:16-17) is not modelled. The checker
  works on the text the read returns. Python's universal-newline
  translation of `\r\n` is therefore not modelled, and neither is a read
  that fails and aborts the run.
- The directory handling of `main` is reduced to inputs:
  - the existence test of the root directory is a boolean;
  - the recursive `*.mo` walk is the sequence of the files' texts, in walk
    order;
  - `relative_to` path rendering is not modelled.
- Every `print` (banner, per-file blocks, summary, closing message) is not
  modelled. Only the counters and the status they depend on are modelled.
- `\w` is modelled as ASCII letters, digits and underscore. Python's
  Unicode `\w` also accepts non-ASCII letters and digits. `\s` follows
  Python's whitespace list.
- Python's `re` engine is not modelled in general. Only the seven patterns the
  checker uses are modelled, each as a scanner that gives the same match
  the engine's backtracking would give.

## Notes on the code

- `model Foo (a equation end Foo;` holds one `(`. The check counts
  characters, so it reports "1 open, 0 close"
  (`Scenarios.UnclosedParenthesisError`).
- `endswith` is a plain suffix test. So `q = xthen` counts as terminated,
  as does any line ending in `else`, even inside a longer word
  (`EndsWithAny`).
- Only the keyword of a block start needs a word boundary before it. The
  identifier after it may run into anything (`WordThenIdentAt`).
- Nothing checks that the identifier after `end` names the block it
  closes. Only the two totals are compared.
