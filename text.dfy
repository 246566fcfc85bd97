/** Option and Result, the failure-compatible wrappers the rest of the model uses. */
module Wrappers {
  datatype Option<+T> = None | Some(value: T)

  datatype Result<+T, +E> = Ok(value: T) | Err(error: E)
}

/**
 * Small facts about sequences, stated over plain variables so that the
 * proofs that use them need not unfold the functions whose results they are.
 */
module Seqs {
  /** Dropping the last element of `a + b`, for a non-empty `b`, drops the last element of `b`. */
  lemma AppendInit<T>(a: seq<T>, b: seq<T>)
    requires b != []
    ensures (a + b)[..|a + b| - 1] == a + b[..|b| - 1]
  {
  }

  lemma AppendAssoc<T>(x: seq<T>, y: seq<T>, z: seq<T>)
    ensures (x + y) + z == x + (y + z)
  {
  }

  /** Updating the last element of `xs` is dropping it and appending the new one. */
  lemma UpdateLast<T>(xs: seq<T>, x: T)
    requires xs != []
    ensures xs[|xs| - 1 := x] == xs[..|xs| - 1] + [x]
  {
  }

  /** A suffix of `xs[k..]` is a suffix of `xs`. */
  lemma SuffixOfDrop<T>(xs: seq<T>, k: nat, r: seq<T>)
    requires k <= |xs| && |r| <= |xs| - k && r == xs[k..][|xs| - k - |r|..]
    ensures r == xs[|xs| - |r|..]
  {
  }

  /** Appending one element and dropping it again gives back the original. */
  lemma AppendOneInit<T>(xs: seq<T>, x: T)
    ensures (xs + [x])[..|xs|] == xs
  {
  }
}

/**
 * The Python string built-ins the extractor relies on: `strip`, `lstrip`,
 * `rstrip` (with and without a character argument), ASCII `lower`,
 * `startswith`, `endswith` and `str.join`.
 */
module Text {
  import opened Seqs

  /**
   * The characters for which Python's `str.isspace()` holds; `strip()` with
   * no argument removes them. Written as ranges so that the verifier reasons
   * about them arithmetically; `WhitespaceListed` lists them one by one.
   */
  predicate IsSpace(c: char) {
    '\t' <= c <= '\r' || '\U{001C}' <= c <= ' ' || c == '\U{0085}' || c == '\U{00A0}' || c == '\U{1680}'
    || '\U{2000}' <= c <= '\U{200A}' || c == '\U{2028}' || c == '\U{2029}' || c == '\U{202F}' || c == '\U{205F}'
    || c == '\U{3000}'
  }

  const Whitespace: set<char> := set c: char | '\t' <= c <= '\U{3000}' && IsSpace(c)

  lemma WhitespaceListed()
    ensures Whitespace == {
      '\t', '\n', '\U{000B}', '\U{000C}', '\r', '\U{001C}', '\U{001D}', '\U{001E}', '\U{001F}', ' ',
      '\U{0085}', '\U{00A0}', '\U{1680}',
      '\U{2000}', '\U{2001}', '\U{2002}', '\U{2003}', '\U{2004}', '\U{2005}', '\U{2006}',
      '\U{2007}', '\U{2008}', '\U{2009}', '\U{200A}',
      '\U{2028}', '\U{2029}', '\U{202F}', '\U{205F}', '\U{3000}'
    }
  {
  }

  /** The characters of the argument `" -:–—,.;()[]{}"` of the label cleaner's `strip`/`rstrip` calls. */
  predicate IsTrimChar(c: char) {
    c == ' ' || c == '-' || c == ':' || c == '\U{2013}' || c == '\U{2014}' || c == ',' || c == '.' || c == ';'
    || c == '(' || c == ')' || c == '[' || c == ']' || c == '{' || c == '}'
  }

  const TrimChars: set<char> := set c: char | ' ' <= c <= '\U{2014}' && IsTrimChar(c)

  lemma TrimCharsListed()
    ensures TrimChars == {' ', '-', ':', '\U{2013}', '\U{2014}', ',', '.', ';', '(', ')', '[', ']', '{', '}'}
  {
  }

  /** `a` occurs in `b` starting at offset `k`. */
  ghost predicate InfixAt(a: string, b: string, k: int) {
    0 <= k && k + |a| <= |b| && b[k..k + |a|] == a
  }

  /** `a` is a contiguous substring of `b`. */
  ghost predicate IsInfix(a: string, b: string) {
    exists k :: InfixAt(a, b, k)
  }

  lemma InfixAtTrans(a: string, b: string, c: string, i: int, j: int)
    requires InfixAt(a, b, i) && InfixAt(b, c, j)
    ensures InfixAt(a, c, i + j)
  {
    forall k | 0 <= k < |a|
      ensures c[i + j + k] == a[k]
    {
      assert c[j..j + |b|][i + k] == c[j + i + k];
    }
    assert c[i + j..i + j + |a|] == a;
  }

  lemma InfixTrans(a: string, b: string, c: string)
    requires IsInfix(a, b) && IsInfix(b, c)
    ensures IsInfix(a, c)
  {
    var i :| InfixAt(a, b, i);
    var j :| InfixAt(b, c, j);
    InfixAtTrans(a, b, c, i, j);
  }

  lemma PrefixInfix(a: string, b: string)
    requires a <= b
    ensures InfixAt(a, b, 0)
  {
  }

  lemma SuffixInfix(a: string, b: string)
    requires |a| <= |b| && a == b[|b| - |a|..]
    ensures InfixAt(a, b, |b| - |a|)
  {
    assert b[|b| - |a|..|b| - |a| + |a|] == b[|b| - |a|..];
  }

  /** `s.lstrip(cs)`: the longest suffix of `s` that does not start with a character of `cs`. */
  function LStrip(s: string, cs: set<char>): (r: string)
    ensures |r| <= |s|
    ensures r == [] || r[0] !in cs
    decreases |s|
  {
    if s != [] && s[0] in cs then LStrip(s[1..], cs) else s
  }

  /** `s.rstrip(cs)`: the longest prefix of `s` that does not end with a character of `cs`. */
  function RStrip(s: string, cs: set<char>): (r: string)
    ensures r <= s
    ensures r == [] || r[|r| - 1] !in cs
    decreases |s|
  {
    if s != [] && s[|s| - 1] in cs then RStrip(s[..|s| - 1], cs) else s
  }

  /** `s.strip(cs)`: both ends of `s` stripped of characters of `cs`. */
  function Strip(s: string, cs: set<char>): (r: string)
    ensures r == [] || (r[0] !in cs && r[|r| - 1] !in cs)
  {
    RStrip(LStrip(s, cs), cs)
  }

  /** What `lstrip` keeps is a suffix of its input. */
  lemma {:induction false} LStripSuffix(s: string, cs: set<char>)
    ensures LStrip(s, cs) == s[|s| - |LStrip(s, cs)|..]
    decreases |s|
  {
    if s != [] && s[0] in cs {
      LStripSuffix(s[1..], cs);
      assert s[1..][|s| - 1 - |LStrip(s, cs)|..] == s[|s| - |LStrip(s, cs)|..];
    }
  }

  /** `lstrip` removes only characters of `cs`. */
  lemma {:induction false} LStripRemoves(s: string, cs: set<char>)
    ensures forall i :: 0 <= i < |s| - |LStrip(s, cs)| ==> s[i] in cs
    decreases |s|
  {
    if s != [] && s[0] in cs {
      LStripRemoves(s[1..], cs);
    }
  }

  /** `rstrip` removes only characters of `cs`. */
  lemma {:induction false} RStripRemoves(s: string, cs: set<char>)
    ensures forall i :: |RStrip(s, cs)| <= i < |s| ==> s[i] in cs
    decreases |s|
  {
    if s != [] && s[|s| - 1] in cs {
      RStripRemoves(s[..|s| - 1], cs);
    }
  }

  /** `strip(cs)` leaves nothing exactly when every character is in `cs`. */
  lemma StripEmpty(s: string, cs: set<char>)
    ensures (forall i :: 0 <= i < |s| ==> s[i] in cs) <==> Strip(s, cs) == []
  {
    var l := LStrip(s, cs);
    LStripSuffix(s, cs);
    LStripRemoves(s, cs);
    RStripRemoves(l, cs);
    if Strip(s, cs) == [] {
      assert l == [];
    }
  }

  /** What `strip` keeps is a contiguous piece of its input. */
  lemma StripInfix(s: string, cs: set<char>)
    ensures InfixAt(Strip(s, cs), s, |s| - |LStrip(s, cs)|)
  {
    var l := LStrip(s, cs);
    var k := |s| - |l|;
    var r := RStrip(l, cs);
    LStripSuffix(s, cs);
    assert r == l[..|r|];
    assert l[..|r|] == s[k..k + |r|];
  }

  /** Stripping is idempotent: a stripped string has nothing left to strip. */
  lemma StripIdempotent(s: string, cs: set<char>)
    ensures Strip(Strip(s, cs), cs) == Strip(s, cs)
  {
    var r := Strip(s, cs);
    assert LStrip(r, cs) == r;
    assert RStrip(r, cs) == r;
  }

  /** A string whose two ends are outside `cs` is left unchanged by `strip(cs)`. */
  lemma StripNoop(s: string, cs: set<char>)
    requires s == [] || (s[0] !in cs && s[|s| - 1] !in cs)
    ensures Strip(s, cs) == s
  {
    assert LStrip(s, cs) == s;
    assert RStrip(s, cs) == s;
  }

  /** `t` is something `strip()` with no argument could have returned: it is empty or has no whitespace at either end. */
  predicate Stripped(t: string) {
    t == [] || (t[0] !in Whitespace && t[|t| - 1] !in Whitespace)
  }

  /** A prefix whose ends are outside `cs` survives `strip(cs)`: stripping cannot reach into it from either side. */
  lemma StripKeepsPrefix(d: string, t: string, cs: set<char>)
    requires d != [] && d[0] !in cs && d[|d| - 1] !in cs && d <= t
    ensures d <= Strip(t, cs)
  {
    assert LStrip(t, cs) == t;
    var r := RStrip(t, cs);
    RStripRemoves(t, cs);
    assert t[|d| - 1] !in cs;
    assert |d| <= |r|;
    assert r[..|d|] == t[..|d|];
  }

  /** Joining stripped texts, blank ones dropped, gives a stripped text, whatever the separator. */
  lemma JoinStrippedParts(sep: string, parts: seq<string>)
    requires forall i :: 0 <= i < |parts| ==> Stripped(parts[i])
    ensures Stripped(Join(sep, NonEmpty(parts)))
  {
    var texts := NonEmpty(parts);
    if texts != [] {
      JoinEnds(sep, texts);
      NonEmptyFrom(parts);
      assert texts[0] in parts && texts[|texts| - 1] in parts;
    }
  }

  function LowerChar(c: char): char {
    if 'A' <= c <= 'Z' then (c as int + 32) as char else c
  }

  /** `s.lower()` restricted to ASCII letters; every other character is kept. */
  function Lower(s: string): (r: string)
    ensures |r| == |s|
    ensures forall i :: 0 <= i < |s| ==> r[i] == LowerChar(s[i])
  {
    seq(|s|, i requires 0 <= i < |s| => LowerChar(s[i]))
  }

  /**
   * Lower-casing works character by character, so lower-casing a slice is
   * slicing the lower-cased text: a phrase `text.lower()` ends with is the
   * lower-cased form of the characters `text[:-len(phrase)]` cuts off.
   */
  lemma LowerSlice(s: string, a: nat, b: nat)
    requires a <= b <= |s|
    ensures Lower(s[a..b]) == Lower(s)[a..b]
  {
    forall i | 0 <= i < b - a
      ensures Lower(s[a..b])[i] == Lower(s)[a..b][i]
    {
      assert s[a..b][i] == s[a + i];
    }
  }

  predicate StartsWith(s: string, p: string) {
    |p| <= |s| && s[..|p|] == p
  }

  predicate EndsWith(s: string, p: string) {
    |p| <= |s| && s[|s| - |p|..] == p
  }

  /** `"".join(parts)`. */
  function Concat(parts: seq<string>): string {
    if parts == [] then [] else Concat(parts[..|parts| - 1]) + parts[|parts| - 1]
  }

  /** `sep.join(parts)`. */
  function Join(sep: string, parts: seq<string>): string {
    if parts == [] then []
    else if |parts| == 1 then parts[0]
    else Join(sep, parts[..|parts| - 1]) + sep + parts[|parts| - 1]
  }

  /** `[p for p in parts if p]`, also `filter(None, parts)` on strings. */
  function NonEmpty(parts: seq<string>): (r: seq<string>)
    ensures forall i :: 0 <= i < |r| ==> r[i] != []
    ensures |r| <= |parts|
  {
    if parts == [] then []
    else NonEmpty(parts[..|parts| - 1]) + (if parts[|parts| - 1] == [] then [] else [parts[|parts| - 1]])
  }

  /** Every string `NonEmpty` keeps comes from its input. */
  lemma {:induction false} NonEmptyFrom(parts: seq<string>)
    ensures forall i :: 0 <= i < |NonEmpty(parts)| ==> NonEmpty(parts)[i] in parts
    decreases |parts|
  {
    if parts != [] {
      NonEmptyFrom(parts[..|parts| - 1]);
    }
  }

  lemma {:induction false} ConcatAppend(a: seq<string>, b: seq<string>)
    ensures Concat(a + b) == Concat(a) + Concat(b)
    decreases |b|
  {
    if b == [] {
      assert a + b == a;
    } else {
      ConcatAppend(a, b[..|b| - 1]);
      AppendInit(a, b);
      AppendAssoc(Concat(a), Concat(b[..|b| - 1]), b[|b| - 1]);
    }
  }

  /** Dropping the empty strings does not change a concatenation, and a concatenation is empty exactly when nothing non-empty is left. */
  lemma {:induction false} ConcatNonEmpty(parts: seq<string>)
    ensures Concat(NonEmpty(parts)) == Concat(parts)
    ensures Concat(parts) == [] <==> NonEmpty(parts) == []
    decreases |parts|
  {
    if parts != [] {
      var init, last := parts[..|parts| - 1], parts[|parts| - 1];
      ConcatNonEmpty(init);
      ConcatAppend(NonEmpty(init), if last == [] then [] else [last]);
      assert Concat([last]) == Concat([]) + last;
    }
  }

  /**
   * The ends of `sep.join(parts)` are the first character of the first part
   * and the last character of the last part, when no part is empty.
   */
  lemma {:induction false} JoinEnds(sep: string, parts: seq<string>)
    requires parts != []
    requires forall i :: 0 <= i < |parts| ==> parts[i] != []
    ensures var j := Join(sep, parts);
      j != [] && j[0] == parts[0][0] && j[|j| - 1] == parts[|parts| - 1][|parts[|parts| - 1]| - 1]
    decreases |parts|
  {
    if |parts| > 1 {
      JoinEnds(sep, parts[..|parts| - 1]);
    }
  }
}
