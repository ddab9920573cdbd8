/** The regular expressions of the checker as hand-written scanners that
    follow Python's `re`: an attempt at one index (`MatchEnd`), the leftmost
    match (`re.search`) and the leftmost non-overlapping matches
    (`re.findall`). */
module Patterns {
  import opened Lexical

  datatype Option<T> = None | Some(value: T)

  /** The four shapes of regular expression the checker uses. */
  datatype Pattern =
    | Word(alts: seq<string>)           // \b(a|b|...)\b
    | WordThenIdent(alts: seq<string>)  // \b(a|b|...)\s+\w+
    | EndThenIdent                      // \bend\s+\w+;
    | Literal(alts: seq<string>)        // (a|b|...)

  /** No alternative of a `Word` or `Literal` is empty, so no match is empty
      and `FindAll` always moves forward. */
  predicate ValidPattern(p: Pattern) {
    (p.Word? || p.Literal?) ==> forall k :: 0 <= k < |p.alts| ==> p.alts[k] != []
  }

  predicate IsWordAt(s: string, j: int) {
    0 <= j < |s| && IsWordChar(s[j])
  }

  /** `\b` at index `i`: exactly one of the characters on either side of `i`
      is a word character (outside the string counts as not one). */
  predicate Boundary(s: string, i: int) {
    IsWordAt(s, i - 1) != IsWordAt(s, i)
  }

  predicate SpacesBetween(s: string, a: int, b: int)
    requires 0 <= a <= b <= |s|
  {
    forall t :: a <= t < b ==> IsSpace(s[t])
  }

  predicate WordCharsBetween(s: string, a: int, b: int)
    requires 0 <= a <= b <= |s|
  {
    forall t :: a <= t < b ==> IsWordChar(s[t])
  }

  /** Greedy `\s*` from `j`: the end of the whitespace run starting there. */
  function SkipSpaces(s: string, j: nat): (k: nat)
    requires j <= |s|
    ensures j <= k <= |s| && SpacesBetween(s, j, k)
    ensures k == |s| || !IsSpace(s[k])
    decreases |s| - j
  {
    if j < |s| && IsSpace(s[j]) then SkipSpaces(s, j + 1) else j
  }

  /** Greedy `\w*` from `j`: the end of the word run starting there. */
  function SkipWord(s: string, j: nat): (k: nat)
    requires j <= |s|
    ensures j <= k <= |s| && WordCharsBetween(s, j, k)
    ensures k == |s| || !IsWordChar(s[k])
    decreases |s| - j
  {
    if j < |s| && IsWordChar(s[j]) then SkipWord(s, j + 1) else j
  }

  /** `\s+\w+` attempted at `j`. After the longest whitespace run a word
      character must follow; backtracking into the run cannot help, since a
      whitespace character is never a word character. The match takes the
      longest word run. */
  function SpaceIdentEnd(s: string, j: nat): (r: Option<nat>)
    requires j <= |s|
    ensures r.Some? ==> j < r.value <= |s|
  {
    var k := SkipSpaces(s, j);
    if j < k < |s| && IsWordChar(s[k]) then Some(SkipWord(s, k)) else None
  }

  /** `(a|b|...)\b` at `i`, alternatives tried in order. */
  function WordAltEnd(alts: seq<string>, s: string, i: nat): (r: Option<nat>)
    requires i <= |s|
    ensures r.Some? ==> i <= r.value <= |s|
    ensures r.Some? && (forall k :: 0 <= k < |alts| ==> alts[k] != []) ==> i < r.value
  {
    if alts == [] then None
    else if OccursAt(s, alts[0], i) && Boundary(s, i + |alts[0]|) then Some(i + |alts[0]|)
    else WordAltEnd(alts[1..], s, i)
  }

  /** `(a|b|...)\s+\w+` at `i`, alternatives tried in order. */
  function IdentAltEnd(alts: seq<string>, s: string, i: nat): (r: Option<nat>)
    requires i <= |s|
    ensures r.Some? ==> i < r.value <= |s|
  {
    if alts == [] then None
    else if OccursAt(s, alts[0], i) && SpaceIdentEnd(s, i + |alts[0]|).Some? then
      SpaceIdentEnd(s, i + |alts[0]|)
    else IdentAltEnd(alts[1..], s, i)
  }

  /** `(a|b|...)` at `i`, alternatives tried in order. */
  function LiteralAltEnd(alts: seq<string>, s: string, i: nat): (r: Option<nat>)
    requires i <= |s|
    ensures r.Some? ==> i <= r.value <= |s|
    ensures r.Some? && (forall k :: 0 <= k < |alts| ==> alts[k] != []) ==> i < r.value
  {
    if alts == [] then None
    else if OccursAt(s, alts[0], i) then Some(i + |alts[0]|)
    else LiteralAltEnd(alts[1..], s, i)
  }

  /** One attempt of pattern `p` anchored at index `i`: the index just past
      the match, or `None`. */
  function MatchEnd(p: Pattern, s: string, i: nat): (r: Option<nat>)
    requires i <= |s|
    ensures r.Some? ==> i <= r.value <= |s|
    ensures r.Some? && ValidPattern(p) ==> i < r.value
  {
    match p
    case Word(alts) => if Boundary(s, i) then WordAltEnd(alts, s, i) else None
    case WordThenIdent(alts) => if Boundary(s, i) then IdentAltEnd(alts, s, i) else None
    case EndThenIdent =>
      if Boundary(s, i) && OccursAt(s, "end", i) then
        match SpaceIdentEnd(s, i + 3)
        case Some(m) => if m < |s| && s[m] == ';' then Some(m + 1) else None
        case None => None
      else None
    case Literal(alts) => LiteralAltEnd(alts, s, i)
  }

  /** The leftmost index at or after `from` where `p` matches. */
  function FirstMatch(p: Pattern, s: string, from: nat): Option<nat>
    decreases |s| + 1 - from
  {
    if from > |s| then None
    else if MatchEnd(p, s, from).Some? then Some(from)
    else FirstMatch(p, s, from + 1)
  }

  lemma {:induction false} FirstMatchLeftmost(p: Pattern, s: string, from: nat)
    ensures FirstMatch(p, s, from).Some? ==>
              from <= FirstMatch(p, s, from).value <= |s|
              && MatchEnd(p, s, FirstMatch(p, s, from).value).Some?
    ensures FirstMatch(p, s, from).Some? ==>
              forall i :: from <= i < FirstMatch(p, s, from).value ==> MatchEnd(p, s, i).None?
    ensures FirstMatch(p, s, from).None? ==>
              forall i :: from <= i <= |s| ==> MatchEnd(p, s, i).None?
    decreases |s| + 1 - from
  {
    if from <= |s| && MatchEnd(p, s, from).None? {
      FirstMatchLeftmost(p, s, from + 1);
      assert FirstMatch(p, s, from) == FirstMatch(p, s, from + 1);
      forall i | from <= i < from + 1 ensures MatchEnd(p, s, i).None? {
        assert i == from;
      }
    }
  }

  /** `re.search(p, s)` is truthy: some index of `s` starts a match. */
  function Search(p: Pattern, s: string): bool {
    FirstMatch(p, s, 0).Some?
  }

  lemma SearchIff(p: Pattern, s: string)
    ensures Search(p, s) <==> exists i :: 0 <= i <= |s| && MatchEnd(p, s, i).Some?
  {
    FirstMatchLeftmost(p, s, 0);
  }

  /** The start indices of `re.findall(p, s[from..])`: the leftmost match,
      then the leftmost match from where that one ended, and so on. */
  function FindAll(p: Pattern, s: string, from: nat): (r: seq<nat>)
    requires ValidPattern(p)
    ensures forall k :: 0 <= k < |r| ==> from <= r[k] <= |s| && MatchEnd(p, s, r[k]).Some?
    ensures forall k :: 0 <= k < |r| - 1 ==> MatchEnd(p, s, r[k]).value <= r[k + 1]
    ensures r == [] <==> forall i :: from <= i <= |s| ==> MatchEnd(p, s, i).None?
    decreases |s| + 1 - from
  {
    FirstMatchLeftmost(p, s, from);
    match FirstMatch(p, s, from)
    case None => []
    case Some(i) =>
      var rest := FindAll(p, s, MatchEnd(p, s, i).value);
      ConsMatch(p, s, from, i, rest);
      [i] + rest
  }

  /** A match at `i`, then matches from where it ends: the reported
      matches stay real, in order and disjoint. */
  lemma ConsMatch(p: Pattern, s: string, from: nat, i: nat, rest: seq<nat>)
    requires from <= i <= |s| && MatchEnd(p, s, i).Some?
    requires forall k :: 0 <= k < |rest| ==>
               MatchEnd(p, s, i).value <= rest[k] <= |s| && MatchEnd(p, s, rest[k]).Some?
    requires forall k :: 0 <= k < |rest| - 1 ==> MatchEnd(p, s, rest[k]).value <= rest[k + 1]
    ensures forall k :: 0 <= k < |[i] + rest| ==>
              from <= ([i] + rest)[k] <= |s| && MatchEnd(p, s, ([i] + rest)[k]).Some?
    ensures forall k :: 0 <= k < |[i] + rest| - 1 ==>
              MatchEnd(p, s, ([i] + rest)[k]).value <= ([i] + rest)[k + 1]
    ensures [i] + rest != [] && !(forall j :: from <= j <= |s| ==> MatchEnd(p, s, j).None?)
  {
    ConsMatchesReal(p, s, from, i, rest);
    ConsMatchesOrdered(p, s, i, rest);
  }

  lemma ConsMatchesReal(p: Pattern, s: string, from: nat, i: nat, rest: seq<nat>)
    requires from <= i <= |s| && MatchEnd(p, s, i).Some?
    requires forall k :: 0 <= k < |rest| ==>
               MatchEnd(p, s, i).value <= rest[k] <= |s| && MatchEnd(p, s, rest[k]).Some?
    ensures forall k :: 0 <= k < |[i] + rest| ==>
              from <= ([i] + rest)[k] <= |s| && MatchEnd(p, s, ([i] + rest)[k]).Some?
  {
    var r := [i] + rest;
    forall k | 0 <= k < |r| ensures from <= r[k] <= |s| && MatchEnd(p, s, r[k]).Some? {
      if k > 0 {
        assert r[k] == rest[k - 1];
      }
    }
  }

  lemma ConsMatchesOrdered(p: Pattern, s: string, i: nat, rest: seq<nat>)
    requires i <= |s| && MatchEnd(p, s, i).Some?
    requires forall k :: 0 <= k < |rest| ==> MatchEnd(p, s, i).value <= rest[k]
    requires forall k :: 0 <= k < |rest| - 1 ==>
               rest[k] <= |s| && MatchEnd(p, s, rest[k]).Some? && MatchEnd(p, s, rest[k]).value <= rest[k + 1]
    ensures forall k :: 0 <= k < |[i] + rest| - 1 ==>
              ([i] + rest)[k] <= |s| && MatchEnd(p, s, ([i] + rest)[k]).Some?
              && MatchEnd(p, s, ([i] + rest)[k]).value <= ([i] + rest)[k + 1]
  {
    var r := [i] + rest;
    forall k | 0 <= k < |r| - 1
      ensures r[k] <= |s| && MatchEnd(p, s, r[k]).Some? && MatchEnd(p, s, r[k]).value <= r[k + 1]
    {
      assert r[k + 1] == rest[k];
      if k > 0 {
        assert r[k] == rest[k - 1];
      }
    }
  }

  /** Every index at or after `from` where `p` matches lies inside the span
      of one of the matches `FindAll` reports. With the ensures of `FindAll`
      (all reported matches are real, in order and disjoint) this pins the
      result down to exactly the leftmost non-overlapping scan. */
  lemma {:induction false} FindAllCovers(p: Pattern, s: string, from: nat, i: nat)
    requires ValidPattern(p)
    requires from <= i <= |s| && MatchEnd(p, s, i).Some?
    ensures exists k :: 0 <= k < |FindAll(p, s, from)|
              && FindAll(p, s, from)[k] <= i < MatchEnd(p, s, FindAll(p, s, from)[k]).value
    decreases |s| + 1 - from
  {
    var r := FindAll(p, s, from);
    FirstMatchLeftmost(p, s, from);
    var first := FirstMatch(p, s, from).value;
    var next := MatchEnd(p, s, first).value;
    assert r == [first] + FindAll(p, s, next);
    if i < next {
      assert r[0] <= i < MatchEnd(p, s, r[0]).value;
    } else {
      FindAllCovers(p, s, next, i);
      var k :| 0 <= k < |FindAll(p, s, next)|
               && FindAll(p, s, next)[k] <= i < MatchEnd(p, s, FindAll(p, s, next)[k]).value;
      assert r[k + 1] == FindAll(p, s, next)[k];
    }
  }

  // ---- What each shape means, stated without the scanners ----

  /** `w` stands at `i` as a whole word. */
  predicate WholeWordAt(s: string, w: string, i: int) {
    OccursAt(s, w, i) && Boundary(s, i) && Boundary(s, i + |w|)
  }

  /** `w` starts a whole word at `i` and is followed by whitespace and then
      a word character. */
  predicate WordThenIdentAt(s: string, w: string, i: int) {
    OccursAt(s, w, i) && Boundary(s, i)
    && exists m :: i + |w| < m < |s| && SpacesBetween(s, i + |w|, m) && IsWordChar(s[m])
  }

  /** `end` starts a word at `i` and is followed by whitespace, an identifier
      and a semicolon right after it. */
  predicate EndClauseAt(s: string, i: int) {
    OccursAt(s, "end", i) && Boundary(s, i)
    && exists m, e :: i + 3 < m < e < |s| && SpacesBetween(s, i + 3, m)
                      && WordCharsBetween(s, m, e) && s[e] == ';'
  }

  lemma SpaceIdentEndIff(s: string, j: nat)
    requires j <= |s|
    ensures SpaceIdentEnd(s, j).Some?
            <==> exists m :: j < m < |s| && SpacesBetween(s, j, m) && IsWordChar(s[m])
  {
    var k := SkipSpaces(s, j);
    if m :| j < m < |s| && SpacesBetween(s, j, m) && IsWordChar(s[m]) {
      WordCharIsNotSpace(s[m]);
      assert k == m;
    }
  }

  lemma {:induction false} WordAltEndIff(alts: seq<string>, s: string, i: nat)
    requires i <= |s|
    ensures WordAltEnd(alts, s, i).Some?
            <==> exists k :: 0 <= k < |alts| && OccursAt(s, alts[k], i) && Boundary(s, i + |alts[k]|)
  {
    if alts != [] && !(OccursAt(s, alts[0], i) && Boundary(s, i + |alts[0]|)) {
      WordAltEndIff(alts[1..], s, i);
      forall k | 1 <= k < |alts| ensures alts[1..][k - 1] == alts[k] {
      }
    }
  }

  lemma {:induction false} IdentAltEndIff(alts: seq<string>, s: string, i: nat)
    requires i <= |s|
    ensures IdentAltEnd(alts, s, i).Some?
            <==> exists k :: 0 <= k < |alts| && OccursAt(s, alts[k], i)
                             && SpaceIdentEnd(s, i + |alts[k]|).Some?
  {
    if alts != [] && !(OccursAt(s, alts[0], i) && SpaceIdentEnd(s, i + |alts[0]|).Some?) {
      IdentAltEndIff(alts[1..], s, i);
      forall k | 1 <= k < |alts| ensures alts[1..][k - 1] == alts[k] {
      }
    }
  }

  lemma {:induction false} LiteralAltEndIff(alts: seq<string>, s: string, i: nat)
    requires i <= |s|
    ensures LiteralAltEnd(alts, s, i).Some? <==> exists k :: 0 <= k < |alts| && OccursAt(s, alts[k], i)
  {
    if alts != [] {
      LiteralAltEndIff(alts[1..], s, i);
      if k :| 0 <= k < |alts| && OccursAt(s, alts[k], i) {
        if k > 0 {
          assert alts[1..][k - 1] == alts[k];
        }
      }
    }
  }

  /** `\b(a|...)\b` matches at `i` exactly when one alternative is a whole
      word there. */
  lemma WordMatchIff(alts: seq<string>, s: string, i: nat)
    requires i <= |s|
    ensures MatchEnd(Word(alts), s, i).Some?
            <==> exists k :: 0 <= k < |alts| && WholeWordAt(s, alts[k], i)
  {
    WordAltEndIff(alts, s, i);
  }

  /** `\b(a|...)\s+\w+` matches at `i` exactly when an alternative starts a
      word there and whitespace and a word character follow it. */
  lemma WordThenIdentMatchIff(alts: seq<string>, s: string, i: nat)
    requires i <= |s|
    ensures MatchEnd(WordThenIdent(alts), s, i).Some?
            <==> exists k :: 0 <= k < |alts| && WordThenIdentAt(s, alts[k], i)
  {
    IdentAltEndIff(alts, s, i);
    forall k | 0 <= k < |alts| && OccursAt(s, alts[k], i)
      ensures SpaceIdentEnd(s, i + |alts[k]|).Some?
              <==> exists m :: i + |alts[k]| < m < |s| && SpacesBetween(s, i + |alts[k]|, m) && IsWordChar(s[m])
    {
      SpaceIdentEndIff(s, i + |alts[k]|);
    }
  }

  /** `\bend\s+\w+;` matches at `i` exactly when an end clause starts there. */
  lemma EndThenIdentMatchIff(s: string, i: nat)
    requires i <= |s|
    ensures MatchEnd(EndThenIdent, s, i).Some? <==> EndClauseAt(s, i)
  {
    if OccursAt(s, "end", i) && Boundary(s, i) {
      var k := SkipSpaces(s, i + 3);
      if m, e :| i + 3 < m < e < |s| && SpacesBetween(s, i + 3, m)
                 && WordCharsBetween(s, m, e) && s[e] == ';' {
        WordCharIsNotSpace(s[m]);
        assert k == m;
        var w := SkipWord(s, m);
        assert w == e;
      }
    }
  }

  /** `(a|...)` matches at `i` exactly when an alternative occurs there. */
  lemma LiteralMatchIff(alts: seq<string>, s: string, i: nat)
    requires i <= |s|
    ensures MatchEnd(Literal(alts), s, i).Some? <==> exists k :: 0 <= k < |alts| && OccursAt(s, alts[k], i)
  {
    LiteralAltEndIff(alts, s, i);
  }

  // ---- Where a match ends ----

  /** `\s+\w+` from `j` ends at `e` exactly when a whitespace run from `j`
      is followed by the longest word run, which ends at `e`. */
  lemma SpaceIdentEndAt(s: string, j: nat, e: nat)
    requires j <= |s|
    ensures SpaceIdentEnd(s, j) == Some(e)
            <==> exists m :: j < m < e <= |s| && SpacesBetween(s, j, m) && WordCharsBetween(s, m, e)
                             && (e == |s| || !IsWordChar(s[e]))
  {
    var k := SkipSpaces(s, j);
    if m :| j < m < e <= |s| && SpacesBetween(s, j, m) && WordCharsBetween(s, m, e)
            && (e == |s| || !IsWordChar(s[e])) {
      WordCharIsNotSpace(s[m]);
      assert k == m;
      assert SkipWord(s, m) == e;
    }
  }

  /** `(a|b|...)\b` ends just past the first alternative that stands at `i`
      with a boundary after it. */
  lemma {:induction false} WordAltEndAt(alts: seq<string>, s: string, i: nat)
    requires i <= |s|
    ensures WordAltEnd(alts, s, i).Some? ==>
              exists k :: 0 <= k < |alts| && OccursAt(s, alts[k], i) && Boundary(s, i + |alts[k]|)
                          && WordAltEnd(alts, s, i) == Some(i + |alts[k]|)
                          && forall j :: 0 <= j < k ==> !(OccursAt(s, alts[j], i) && Boundary(s, i + |alts[j]|))
  {
    if alts != [] && !(OccursAt(s, alts[0], i) && Boundary(s, i + |alts[0]|)) {
      var t := alts[1..];
      WordAltEndAt(t, s, i);
      if WordAltEnd(alts, s, i).Some? {
        var k' :| 0 <= k' < |t| && OccursAt(s, t[k'], i) && Boundary(s, i + |t[k']|)
                  && WordAltEnd(t, s, i) == Some(i + |t[k']|)
                  && forall j :: 0 <= j < k' ==> !(OccursAt(s, t[j], i) && Boundary(s, i + |t[j]|));
        assert alts[k' + 1] == t[k'];
        forall j | 0 <= j < k' + 1 ensures !(OccursAt(s, alts[j], i) && Boundary(s, i + |alts[j]|)) {
          if j > 0 {
            assert alts[j] == t[j - 1];
          }
        }
      }
    }
  }

  /** Alternative `w` stands at `i` with whitespace and a word character
      after it. */
  predicate IdentFits(s: string, w: string, i: nat) {
    OccursAt(s, w, i) && SpaceIdentEnd(s, i + |w|).Some?
  }

  /** The index of the first alternative that fits at `i`, or `|alts|`
      when none does: the alternative `(a|b|...)\s+\w+` settles on. */
  function FirstIdentFit(alts: seq<string>, s: string, i: nat): (k: nat)
    ensures k <= |alts|
    ensures k < |alts| ==> IdentFits(s, alts[k], i)
    ensures forall j :: 0 <= j < k ==> !IdentFits(s, alts[j], i)
  {
    if alts == [] || IdentFits(s, alts[0], i) then 0
    else
      var k' := FirstIdentFit(alts[1..], s, i);
      assert forall j :: 0 < j < k' + 1 ==> alts[j] == alts[1..][j - 1];
      k' + 1
  }

  /** `(a|b|...)\s+\w+` ends where `\s+\w+` ends after the first
      alternative that fits. */
  lemma {:induction false} IdentAltEndFirst(alts: seq<string>, s: string, i: nat)
    requires i <= |s|
    ensures IdentAltEnd(alts, s, i)
            == if FirstIdentFit(alts, s, i) < |alts|
               then SpaceIdentEnd(s, i + |alts[FirstIdentFit(alts, s, i)]|) else None
  {
    if alts == [] {
    } else if IdentFits(s, alts[0], i) {
      assert FirstIdentFit(alts, s, i) == 0;
    } else {
      var t := alts[1..];
      IdentAltEndFirst(t, s, i);
      var k' := FirstIdentFit(t, s, i);
      assert FirstIdentFit(alts, s, i) == k' + 1;
      assert IdentAltEnd(alts, s, i) == IdentAltEnd(t, s, i);
      if k' < |t| {
        assert alts[k' + 1] == t[k'];
      }
    }
  }

  /** `(a|b|...)` ends just past the first alternative that occurs at `i`. */
  lemma {:induction false} LiteralAltEndAt(alts: seq<string>, s: string, i: nat)
    requires i <= |s|
    ensures LiteralAltEnd(alts, s, i).Some? ==>
              exists k :: 0 <= k < |alts| && OccursAt(s, alts[k], i)
                          && LiteralAltEnd(alts, s, i) == Some(i + |alts[k]|)
                          && forall j :: 0 <= j < k ==> !OccursAt(s, alts[j], i)
  {
    if alts != [] && !OccursAt(s, alts[0], i) {
      var t := alts[1..];
      LiteralAltEndAt(t, s, i);
      if LiteralAltEnd(alts, s, i).Some? {
        var k' :| 0 <= k' < |t| && OccursAt(s, t[k'], i)
                  && LiteralAltEnd(t, s, i) == Some(i + |t[k']|)
                  && forall j :: 0 <= j < k' ==> !OccursAt(s, t[j], i);
        assert alts[k' + 1] == t[k'];
        forall j | 0 <= j < k' + 1 ensures !OccursAt(s, alts[j], i) {
          if j > 0 {
            assert alts[j] == t[j - 1];
          }
        }
      }
    }
  }

  /** A match of `\b(a|...)\b` at `i` ends just past the first alternative
      that is a whole word at `i`. */
  lemma WordMatchEnd(alts: seq<string>, s: string, i: nat, e: nat)
    requires i <= |s|
    ensures MatchEnd(Word(alts), s, i) == Some(e) ==>
              exists k :: 0 <= k < |alts| && WholeWordAt(s, alts[k], i) && e == i + |alts[k]|
                          && forall j :: 0 <= j < k ==> !WholeWordAt(s, alts[j], i)
  {
    WordAltEndAt(alts, s, i);
  }

  /** A match of `\b(a|...)\s+\w+` at `i` ends at the end of the longest
      word run after the whitespace that follows the first fitting
      alternative: `findall` resumes after the whole identifier. */
  lemma WordThenIdentMatchEnd(alts: seq<string>, s: string, i: nat, e: nat)
    requires i <= |s|
    ensures MatchEnd(WordThenIdent(alts), s, i) == Some(e) ==>
              && Boundary(s, i)
              && FirstIdentFit(alts, s, i) < |alts|
              && OccursAt(s, alts[FirstIdentFit(alts, s, i)], i)
              && exists m :: i + |alts[FirstIdentFit(alts, s, i)]| < m < e <= |s|
                             && SpacesBetween(s, i + |alts[FirstIdentFit(alts, s, i)]|, m)
                             && WordCharsBetween(s, m, e) && (e == |s| || !IsWordChar(s[e]))
  {
    if MatchEnd(WordThenIdent(alts), s, i) == Some(e) {
      IdentAltEndFirst(alts, s, i);
      var k := FirstIdentFit(alts, s, i);
      SpaceIdentEndAt(s, i + |alts[k]|, e);
    }
  }

  /** A match of `\bend\s+\w+;` at `i` ends just past the `;` at `d`,
      which is the first character after the identifier. */
  lemma EndThenIdentMatchEnd(s: string, i: nat, d: nat)
    requires i <= |s|
    ensures MatchEnd(EndThenIdent, s, i) == Some(d + 1)
            <==> OccursAt(s, "end", i) && Boundary(s, i)
                 && exists m :: i + 3 < m < d < |s| && SpacesBetween(s, i + 3, m)
                                && WordCharsBetween(s, m, d) && s[d] == ';'
  {
    if OccursAt(s, "end", i) && Boundary(s, i) {
      SpaceIdentEndAt(s, i + 3, d);
    }
  }

  /** A match of `(a|...)` at `i` ends just past the first alternative that
      occurs at `i`. */
  lemma LiteralMatchEnd(alts: seq<string>, s: string, i: nat, e: nat)
    requires i <= |s|
    ensures MatchEnd(Literal(alts), s, i) == Some(e) ==>
              exists k :: 0 <= k < |alts| && OccursAt(s, alts[k], i) && e == i + |alts[k]|
                          && forall j :: 0 <= j < k ==> !OccursAt(s, alts[j], i)
  {
    LiteralAltEndAt(alts, s, i);
  }

  /** `re.search(r'\b(a|...)\b', s)`: some alternative occurs as a whole word. */
  lemma SearchWordIff(alts: seq<string>, s: string)
    ensures Search(Word(alts), s)
            <==> exists k, i :: 0 <= k < |alts| && 0 <= i <= |s| && WholeWordAt(s, alts[k], i)
  {
    SearchIff(Word(alts), s);
    if Search(Word(alts), s) {
      var i :| 0 <= i <= |s| && MatchEnd(Word(alts), s, i).Some?;
      WordMatchIff(alts, s, i);
    } else {
      forall k, i | 0 <= k < |alts| && 0 <= i <= |s| ensures !WholeWordAt(s, alts[k], i) {
        WordMatchIff(alts, s, i);
      }
    }
  }

  /** `re.search(r'\b(a|...)\s+\w+', s)`. */
  lemma SearchWordThenIdentIff(alts: seq<string>, s: string)
    ensures Search(WordThenIdent(alts), s)
            <==> exists k, i :: 0 <= k < |alts| && 0 <= i <= |s| && WordThenIdentAt(s, alts[k], i)
  {
    SearchIff(WordThenIdent(alts), s);
    if Search(WordThenIdent(alts), s) {
      var i :| 0 <= i <= |s| && MatchEnd(WordThenIdent(alts), s, i).Some?;
      WordThenIdentMatchIff(alts, s, i);
    } else {
      forall k, i | 0 <= k < |alts| && 0 <= i <= |s| ensures !WordThenIdentAt(s, alts[k], i) {
        WordThenIdentMatchIff(alts, s, i);
      }
    }
  }

  /** `re.search(r'(a|...)', s)`: some alternative is a substring. */
  lemma SearchLiteralIff(alts: seq<string>, s: string)
    ensures Search(Literal(alts), s)
            <==> exists k, i :: 0 <= k < |alts| && 0 <= i <= |s| && OccursAt(s, alts[k], i)
  {
    SearchIff(Literal(alts), s);
    if Search(Literal(alts), s) {
      var i :| 0 <= i <= |s| && MatchEnd(Literal(alts), s, i).Some?;
      LiteralMatchIff(alts, s, i);
    } else {
      forall k, i | 0 <= k < |alts| && 0 <= i <= |s| ensures !OccursAt(s, alts[k], i) {
        LiteralMatchIff(alts, s, i);
      }
    }
  }

  // ---- Ruling matches out by their first character ----

  /** Every match of `p` starts with one of `letters`: the first characters
      of its alternatives, or the `e` of `end`. */
  predicate LeadsWith(p: Pattern, letters: seq<char>) {
    match p
    case EndThenIdent => 'e' in letters
    case Word(alts) => forall k :: 0 <= k < |alts| ==> alts[k] != [] && alts[k][0] in letters
    case WordThenIdent(alts) => forall k :: 0 <= k < |alts| ==> alts[k] != [] && alts[k][0] in letters
    case Literal(alts) => forall k :: 0 <= k < |alts| ==> alts[k] != [] && alts[k][0] in letters
  }

  /** No alternative of `alts` occurs at an index whose character leads none
      of them. */
  lemma NoLeadNoOccurrence(alts: seq<string>, s: string, i: nat, letters: seq<char>)
    requires forall k :: 0 <= k < |alts| ==> alts[k] != [] && alts[k][0] in letters
    requires i <= |s| && (i < |s| ==> s[i] !in letters)
    ensures forall k :: 0 <= k < |alts| ==> !OccursAt(s, alts[k], i)
  {
    forall k | 0 <= k < |alts| ensures !OccursAt(s, alts[k], i) {
      if i + |alts[k]| <= |s| {
        assert s[i..i + |alts[k]|][0] == s[i];
      }
    }
  }

  /** `p` cannot match at an index whose character leads none of its
      matches. */
  lemma NoLeadNoMatch(p: Pattern, s: string, i: nat, letters: seq<char>)
    requires LeadsWith(p, letters)
    requires i <= |s| && (i < |s| ==> s[i] !in letters)
    ensures MatchEnd(p, s, i).None?
  {
    match p
    case Word(alts) =>
      NoLeadNoOccurrence(alts, s, i, letters);
      WordMatchIff(alts, s, i);
    case WordThenIdent(alts) =>
      NoLeadNoOccurrence(alts, s, i, letters);
      WordThenIdentMatchIff(alts, s, i);
    case Literal(alts) =>
      NoLeadNoOccurrence(alts, s, i, letters);
      LiteralMatchIff(alts, s, i);
    case EndThenIdent =>
      NoLeadNoOccurrence(["end"], s, i, letters);
      assert !OccursAt(s, ["end"][0], i);
  }

  /** The leftmost search passes over a stretch where `p` cannot match. */
  lemma {:induction false} FirstMatchSkip(p: Pattern, s: string, from: nat, to: nat)
    requires from <= to <= |s| + 1
    requires forall i :: from <= i < to ==> MatchEnd(p, s, i).None?
    ensures FirstMatch(p, s, from) == FirstMatch(p, s, to)
    decreases |s| + 1 - from
  {
    if from < to {
      FirstMatchSkip(p, s, from + 1, to);
    }
  }

  /** The same over a stretch none of whose characters leads a match. */
  lemma FirstMatchSkipLetters(p: Pattern, s: string, from: nat, to: nat, letters: seq<char>)
    requires LeadsWith(p, letters)
    requires from <= to <= |s| + 1
    requires forall i :: from <= i < to && i < |s| ==> s[i] !in letters
    ensures FirstMatch(p, s, from) == FirstMatch(p, s, to)
  {
    forall i | from <= i < to ensures MatchEnd(p, s, i).None? {
      NoLeadNoMatch(p, s, i, letters);
    }
    FirstMatchSkip(p, s, from, to);
  }
}
