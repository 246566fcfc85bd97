/**
 * The two header patterns of `extract`, `^([A-Z])\.\s*(.+)` for a category
 * and `^([A-Z])(\d+)\.\s*(.+)` for a section, as functions that do what the
 * backtracking matcher does, and what they are proved to accept and capture.
 */
module Patterns {
  import opened Wrappers
  import opened Text

  predicate IsUpper(c: char) {
    'A' <= c <= 'Z'
  }

  /** `\d`, taken as the ASCII digits. */
  predicate IsDigit(c: char) {
    '0' <= c <= '9'
  }

  /** Length of the longest prefix of `s` made of characters satisfying the digit test. */
  function DigitRun(s: string): (n: nat)
    ensures n <= |s|
  {
    if s != [] && IsDigit(s[0]) then 1 + DigitRun(s[1..]) else 0
  }

  /** Length of the longest prefix of `s` that `\s*` can take. */
  function SpaceRun(s: string): (n: nat)
    ensures n <= |s|
  {
    if s != [] && s[0] in Whitespace then 1 + SpaceRun(s[1..]) else 0
  }

  /** Length of the longest prefix of `s` that `.` can take repeatedly: everything up to the first newline. */
  function LineRun(s: string): (n: nat)
    ensures n <= |s|
  {
    if s != [] && s[0] != '\n' then 1 + LineRun(s[1..]) else 0
  }

  /**
   * The group of `\s*(.+)` matched at the start of `rest` once `\s*` has
   * given back all but `k` characters: `(.+)` needs a character other than
   * a newline at `k`, and otherwise `\s*` backtracks one more character.
   */
  function SpacedTailFrom(rest: string, k: nat): Option<string>
    requires k <= |rest|
  {
    if k < |rest| && rest[k] != '\n' then Some(rest[k..k + LineRun(rest[k..])])
    else if k == 0 then None
    else SpacedTailFrom(rest, k - 1)
  }

  /** The group of `\s*(.+)` matched at the start of `rest`, if the pattern matches at all. */
  function SpacedTail(rest: string): Option<string> {
    SpacedTailFrom(rest, SpaceRun(rest))
  }

  /** A category header: the letter and the raw group 2 of `^([A-Z])\.\s*(.+)`. */
  datatype CategoryHead = CategoryHead(letter: char, rest: string)

  /** A section header: the groups of `^([A-Z])(\d+)\.\s*(.+)`. */
  datatype SectionHead = SectionHead(letter: char, digits: string, rest: string)

  /** `category_pattern.match(text)`. */
  function MatchCategory(text: string): Option<CategoryHead> {
    if |text| >= 2 && IsUpper(text[0]) && text[1] == '.' then
      match SpacedTail(text[2..])
      case Some(g) => Some(CategoryHead(text[0], g))
      case None => None
    else None
  }

  /** `section_pattern.match(text)`; `(\d+)` cannot give digits back, since `\.` is not a digit. */
  function MatchSection(text: string): Option<SectionHead> {
    if text != [] && IsUpper(text[0]) then
      var n := DigitRun(text[1..]);
      if n >= 1 && 1 + n < |text| && text[1 + n] == '.' then
        match SpacedTail(text[2 + n..])
        case Some(g) => Some(SectionHead(text[0], text[1..1 + n], g))
        case None => None
      else None
    else None
  }

  /** `DigitRun` takes digits only, and all of them up to the first non-digit. */
  lemma {:induction false} DigitRunFacts(s: string)
    ensures forall i :: 0 <= i < DigitRun(s) ==> IsDigit(s[i])
    ensures DigitRun(s) < |s| ==> !IsDigit(s[DigitRun(s)])
    decreases |s|
  {
    if s != [] && IsDigit(s[0]) {
      DigitRunFacts(s[1..]);
    }
  }

  /** `SpaceRun` takes whitespace only, and all of it up to the first other character. */
  lemma {:induction false} SpaceRunFacts(s: string)
    ensures forall i :: 0 <= i < SpaceRun(s) ==> s[i] in Whitespace
    ensures SpaceRun(s) < |s| ==> s[SpaceRun(s)] !in Whitespace
    decreases |s|
  {
    if s != [] && s[0] in Whitespace {
      SpaceRunFacts(s[1..]);
    }
  }

  /** `LineRun` takes everything up to the first newline. */
  lemma {:induction false} LineRunFacts(s: string)
    ensures forall i :: 0 <= i < LineRun(s) ==> s[i] != '\n'
    ensures LineRun(s) < |s| ==> s[LineRun(s)] == '\n'
    decreases |s|
  {
    if s != [] && s[0] != '\n' {
      LineRunFacts(s[1..]);
    }
  }

  /** `g` is what `(.+)` takes at offset `j` of `s`: a non-empty run of non-newlines reaching the end of its line. */
  ghost predicate LineAt(s: string, j: nat, g: string) {
    j + |g| <= |s| && g == s[j..j + |g|] && g != []
    && (forall i :: 0 <= i < |g| ==> g[i] != '\n')
    && (j + |g| == |s| || s[j + |g|] == '\n')
  }

  /** The first `j` characters of `s` are whitespace, so `\s*` can stop at offset `j`. */
  ghost predicate SpacesUpTo(s: string, j: nat) {
    j <= |s| && forall i :: 0 <= i < j ==> s[i] in Whitespace
  }

  /** `\s*` can stop at offset `j`, `(.+)` can start there, and `\s*` can stop at no later such offset. */
  ghost predicate GreedyStart(s: string, j: nat) {
    SpacesUpTo(s, j) && j < |s| && s[j] != '\n'
    && forall i {:trigger SpacesUpTo(s, i)} :: j < i < |s| && SpacesUpTo(s, i) ==> s[i] == '\n'
  }

  /**
   * `g` is what `\s*(.+)` captures at the start of `s`: the line taken
   * after leading whitespace, where `\s*` stops as late as it can.
   * Backtracking gives back only newlines, which `.` does not match.
   */
  ghost predicate LineAfterSpaces(s: string, g: string) {
    exists j: nat :: GreedyStart(s, j) && LineAt(s, j, g)
  }

  /** Only one offset is the greedy start. */
  lemma GreedyStartUnique(s: string, j1: nat, j2: nat)
    requires GreedyStart(s, j1) && GreedyStart(s, j2)
    ensures j1 == j2
  {
  }

  /** `(.+)` at a given offset can take only the rest of that line. */
  lemma LineAtUnique(s: string, j: nat, g1: string, g2: string)
    requires LineAt(s, j, g1) && LineAt(s, j, g2)
    ensures g1 == g2
  {
  }

  /** The greedy `\s*` leaves `(.+)` only one place to start, so the capture is unique. */
  lemma LineAfterSpacesUnique(s: string, g1: string, g2: string)
    requires LineAfterSpaces(s, g1) && LineAfterSpaces(s, g2)
    ensures g1 == g2
  {
    var j1: nat :| GreedyStart(s, j1) && LineAt(s, j1, g1);
    var j2: nat :| GreedyStart(s, j2) && LineAt(s, j2, g2);
    GreedyStartUnique(s, j1, j2);
    LineAtUnique(s, j1, g1, g2);
  }

  /** After a space and a newline, `\s*` also crosses the newline and the space after it: the title of `" \n foo"` is `"foo"`. */
  lemma SpacesCrossNewline(g: string)
    requires LineAfterSpaces(" \n foo", g)
    ensures g == "foo"
  {
    var s := " \n foo";
    assert IsSpace(' ') && IsSpace('\n');
    assert SpacesUpTo(s, 3);
    assert LineAt(s, 3, "foo");
    forall i | 3 < i < |s|
      ensures !SpacesUpTo(s, i)
    {
      assert s[3] !in Whitespace;
    }
    assert LineAfterSpaces(s, "foo");
    LineAfterSpacesUnique(s, g, "foo");
  }

  lemma {:induction false} SpacedTailFromFacts(rest: string, k: nat)
    requires k <= |rest|
    ensures SpacedTailFrom(rest, k).None? <==> forall i :: 0 <= i <= k && i < |rest| ==> rest[i] == '\n'
    ensures SpacedTailFrom(rest, k).Some? ==>
      exists j: nat :: j <= k && LineAt(rest, j, SpacedTailFrom(rest, k).value)
        && forall i :: j < i <= k && i < |rest| ==> rest[i] == '\n'
    decreases k
  {
    if k < |rest| && rest[k] != '\n' {
      LineRunFacts(rest[k..]);
      var n := LineRun(rest[k..]);
      var g := rest[k..k + n];
      assert rest[k..][0] == rest[k];
      assert n > 0;
      forall i | 0 <= i < |g|
        ensures g[i] != '\n'
      {
        assert g[i] == rest[k..][i];
      }
      if k + n < |rest| {
        assert rest[k + n] == rest[k..][n];
      }
      assert LineAt(rest, k, g);
    } else if k > 0 {
      SpacedTailFromFacts(rest, k - 1);
    }
  }

  /** `\s*(.+)` matches unless the text is made of newlines only, and then captures the line after the greedy `\s*`. */
  lemma SpacedTailFacts(rest: string)
    ensures SpacedTail(rest).None? <==> forall i :: 0 <= i < |rest| ==> rest[i] == '\n'
    ensures SpacedTail(rest).Some? ==> LineAfterSpaces(rest, SpacedTail(rest).value)
  {
    var k := SpaceRun(rest);
    SpaceRunFacts(rest);
    SpacedTailFromFacts(rest, k);
    assert IsSpace('\n');
    if k < |rest| {
      assert rest[k] !in Whitespace;
    }
    if SpacedTail(rest).Some? {
      var j: nat :| j <= k && LineAt(rest, j, SpacedTail(rest).value)
        && forall i :: j < i <= k && i < |rest| ==> rest[i] == '\n';
      var g := SpacedTail(rest).value;
      assert SpacesUpTo(rest, j) && rest[j] == g[0];
      forall i | j < i < |rest| && SpacesUpTo(rest, i)
        ensures rest[i] == '\n'
      {
      }
      assert GreedyStart(rest, j);
    }
  }

  /**
   * `^([A-Z])\.\s*(.+)` matches exactly the texts made of a capital letter,
   * a dot, and something that is not only newlines; it then captures the
   * letter and a line after the dot. Such a text never matches the section
   * pattern, so `not sec_match` never changes the outcome.
   */
  lemma CategoryMatchFacts(text: string)
    ensures MatchCategory(text).Some? <==>
      |text| >= 2 && IsUpper(text[0]) && text[1] == '.' && exists i :: 2 <= i < |text| && text[i] != '\n'
    ensures MatchCategory(text).Some? ==>
      MatchCategory(text).value.letter == text[0] && LineAfterSpaces(text[2..], MatchCategory(text).value.rest)
    ensures MatchCategory(text).Some? ==> MatchSection(text).None?
  {
    if |text| >= 2 && IsUpper(text[0]) && text[1] == '.' {
      var rest := text[2..];
      SpacedTailFacts(rest);
      if exists i :: 2 <= i < |text| && text[i] != '\n' {
        var i :| 2 <= i < |text| && text[i] != '\n';
        assert rest[i - 2] == text[i];
      }
      assert text[1..][0] == '.';
    }
  }

  /** The digit run `DigitRun` finds is the one that stops at the first non-digit. */
  lemma {:induction false} DigitRunExact(s: string, n: nat)
    requires n < |s| && !IsDigit(s[n])
    requires forall i :: 0 <= i < n ==> IsDigit(s[i])
    ensures DigitRun(s) == n
    decreases n
  {
    if n > 0 {
      DigitRunExact(s[1..], n - 1);
    }
  }

  /** After the letter: `n` digits, a dot, and something that is not only newlines. */
  ghost predicate SectionShape(text: string, n: nat) {
    1 <= n && 1 + n < |text| && (forall i :: 1 <= i <= n ==> IsDigit(text[i])) && text[1 + n] == '.'
    && exists i :: 2 + n <= i < |text| && text[i] != '\n'
  }

  /** The captures of a section header that matched. */
  ghost predicate SectionCaptures(text: string, h: SectionHead) {
    var n := |h.digits|;
    text != [] && h.letter == text[0] && IsUpper(h.letter) && SectionShape(text, n)
    && h.digits == text[1..1 + n] && LineAfterSpaces(text[2 + n..], h.rest)
  }

  /**
   * `^([A-Z])(\d+)\.\s*(.+)` matches exactly the texts made of a capital
   * letter, one or more digits, a dot, and something that is not only
   * newlines; it then captures the letter, all the digits, and a line after
   * the dot.
   */
  lemma SectionMatchFacts(text: string)
    ensures MatchSection(text).Some? <==> text != [] && IsUpper(text[0]) && exists n :: SectionShape(text, n)
    ensures MatchSection(text).Some? ==> SectionCaptures(text, MatchSection(text).value)
  {
    if text != [] && IsUpper(text[0]) && exists n :: SectionShape(text, n) {
      var n :| SectionShape(text, n);
      SectionMatchIf(text, n);
    }
    if MatchSection(text).Some? {
      SectionMatchOnly(text);
    }
  }

  /** The digit run before the dot has only one possible length. */
  lemma SectionShapeUnique(text: string, n1: nat, n2: nat)
    requires SectionShape(text, n1) && SectionShape(text, n2)
    ensures n1 == n2
  {
  }

  /** A text has at most one set of section captures: `(\d+)` must stop at the dot, and the title follows the greedy `\s*`. */
  lemma SectionCapturesUnique(text: string, h1: SectionHead, h2: SectionHead)
    requires SectionCaptures(text, h1) && SectionCaptures(text, h2)
    ensures h1 == h2
  {
    var n := |h1.digits|;
    SectionShapeUnique(text, n, |h2.digits|);
    RestUnique(text, n, h1.rest, h2.rest);
  }

  lemma RestUnique(text: string, n: nat, g1: string, g2: string)
    requires 2 + n <= |text|
    requires LineAfterSpaces(text[2 + n..], g1) && LineAfterSpaces(text[2 + n..], g2)
    ensures g1 == g2
  {
    LineAfterSpacesUnique(text[2 + n..], g1, g2);
  }

  lemma SectionMatchIf(text: string, n: nat)
    requires text != [] && IsUpper(text[0]) && SectionShape(text, n)
    ensures MatchSection(text).Some?
  {
    var s := text[1..];
    assert !IsDigit(s[n]);
    forall i | 0 <= i < n
      ensures IsDigit(s[i])
    {
      assert s[i] == text[i + 1];
    }
    DigitRunExact(s, n);
    var i :| 2 + n <= i < |text| && text[i] != '\n';
    SpacedTailFacts(text[2 + n..]);
    assert text[2 + n..][i - 2 - n] == text[i];
  }

  lemma SectionMatchOnly(text: string)
    requires MatchSection(text).Some?
    ensures SectionCaptures(text, MatchSection(text).value)
  {
    var s := text[1..];
    var m := DigitRun(s);
    DigitRunFacts(s);
    var rest := text[2 + m..];
    SpacedTailFacts(rest);
    forall i | 1 <= i <= m
      ensures IsDigit(text[i])
    {
      assert text[i] == s[i - 1];
    }
    var k :| 0 <= k < |rest| && rest[k] != '\n';
    assert text[2 + m + k] == rest[k];
    assert SectionShape(text, m);
  }

  /** The code a section header gives its section: the letter, then one or more digits. */
  ghost predicate HeadWellFormed(h: SectionHead) {
    IsUpper(h.letter) && h.digits != [] && forall i :: 0 <= i < |h.digits| ==> IsDigit(h.digits[i])
  }

  /** The captures of a section header make a well-formed section code. */
  lemma SectionHeadWellFormed(text: string)
    requires MatchSection(text).Some?
    ensures HeadWellFormed(MatchSection(text).value)
  {
    SectionMatchFacts(text);
    var h := MatchSection(text).value;
    forall i | 0 <= i < |h.digits|
      ensures IsDigit(h.digits[i])
    {
      assert h.digits[i] == text[1 + i];
    }
  }
}
