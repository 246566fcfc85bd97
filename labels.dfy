/**
 * The label heuristic of the resource extractor: the lookup tables, the
 * cleaner `_clean_label` (a method with its two fixpoint loops, proved equal
 * to the specification `Cleaned`) and the choice of a hyperlink's label
 * (`ResolveLabel`).
 */
module Labels {
  import opened Wrappers
  import opened Seqs
  import opened Text

  /** Link texts that say nothing about the resource (already lower case). */
  const PlaceholderLabels: set<string> := {
    "here", "here.", "click here", "click here.", "link", "the link",
    "this link", "this link.", "here..", "available here", "available here."
  }

  /** Trailing "where to find it" phrases, tried in this order; the first suffix match wins. */
  const TrailingPhrases: seq<string> := [
    "can be found", "can be accessed", "can be viewed", "can be downloaded",
    "can be located", "can be obtained", "is located", "is stored", "are stored",
    "are located", "are found", "are available", "can be found on",
    "can be found in", "can be found at", "can be accessed via",
    "can be accessed at", "can be found via", "can be viewed on",
    "can be viewed in", "can be downloaded from", "can be accessed from",
    "can be accessed through", "can be accessed online", "can be located here",
    "can be seen", "is available", "are available to", "are available for",
    "are available from", "is available from", "is available on",
    "is available at", "are available on", "is accessible", "are accessible",
    "can be used", "can be found here", "can be located here",
    "link can be found", "link is here", "link is available",
    "links can be found", "links can be accessed", "can be found using",
    "be found", "be accessed", "found here", "found on", "found in", "found at",
    "found via", "available here", "available on", "available at",
    "available in", "available via", "to access", "to be found", "located here",
    "located on", "located at", "located in", "can be downloaded via",
    "can be downloaded at", "can be accessed here", "is stored on",
    "are stored on", "are stored in", "can be downloaded", "can be viewed here"
  ]

  /** Leading determiners, each removed at most once, case-sensitively, in this order. */
  const StopPrefixes: seq<string> := ["A ", "The ", "This ", "These ", "An ", "For ", "To "]

  /** Leading connectives, removed case-insensitively until none is left. */
  const LeadPhrases: seq<string> := ["and ", "or ", "for ", "to ", "via "]

  /** The characters on which `re.split(r"[\.;!?\n]", ...)` cuts the text before a link. */
  const SentenceBreaks: set<char> := {'.', ';', '!', '?', '\n'}

  /** How many characters before a link the second attempt looks at. */
  const ContextWindow: nat := 160

  const FallbackLabel: string := "Resource link"

  /**
   * Python's `text[:-n]` for `0 <= n <= |text|`: everything but the last `n`
   * characters, except that `-0` is `0`, so `n == 0` gives the empty string.
   */
  function DropLast(text: string, n: nat): (r: string)
    requires n <= |text|
    ensures text != [] ==> |r| < |text|
    ensures r <= text
  {
    if n == 0 then [] else text[..|text| - n]
  }

  /** Index of the first phrase of `ps` (from `from` on) that `s` ends with. */
  function FirstSuffix(s: string, ps: seq<string>, from: nat): (r: Option<nat>)
    requires from <= |ps|
    ensures r.Some? ==> from <= r.value < |ps| && EndsWith(s, ps[r.value])
    ensures r.Some? ==> forall k :: from <= k < r.value ==> !EndsWith(s, ps[k])
    ensures r.None? ==> forall k :: from <= k < |ps| ==> !EndsWith(s, ps[k])
    decreases |ps| - from
  {
    if from == |ps| then None
    else if EndsWith(s, ps[from]) then Some(from)
    else FirstSuffix(s, ps, from + 1)
  }

  /** Index of the first phrase of `ps` (from `from` on) that `s` starts with. */
  function FirstPrefix(s: string, ps: seq<string>, from: nat): (r: Option<nat>)
    requires from <= |ps|
    ensures r.Some? ==> from <= r.value < |ps| && StartsWith(s, ps[r.value])
    ensures r.Some? ==> forall k :: from <= k < r.value ==> !StartsWith(s, ps[k])
    ensures r.None? ==> forall k :: from <= k < |ps| ==> !StartsWith(s, ps[k])
    decreases |ps| - from
  {
    if from == |ps| then None
    else if StartsWith(s, ps[from]) then Some(from)
    else FirstPrefix(s, ps, from + 1)
  }

  /**
   * The first fixpoint loop: strip the first trailing phrase the lower-cased
   * text ends with, then the punctuation before it, until no phrase matches.
   * The result is a prefix of the input that is empty or ends with no phrase.
   */
  function TrailingTrimmed(text: string): (r: string)
    ensures r <= text
    decreases |text|
  {
    if text == [] then text
    else match FirstSuffix(Lower(text), TrailingPhrases, 0)
      case None => text
      case Some(i) =>
        var shorter := RStrip(DropLast(text, |TrailingPhrases[i]|), TrimChars);
        assert shorter == text[..|shorter|];
        TrailingTrimmed(shorter)
  }

  /**
   * How many leading characters the single ordered pass over `StopPrefixes`,
   * from prefix `from` on, removes: each prefix is removed at most once,
   * when the text left by the earlier ones starts with it.
   */
  function StopPrefixLength(text: string, from: nat): (n: nat)
    requires from <= |StopPrefixes|
    ensures n <= |text|
    decreases |StopPrefixes| - from
  {
    if from == |StopPrefixes| then 0
    else
      var p := StopPrefixes[from];
      if StartsWith(text, p) then |p| + StopPrefixLength(text[|p|..], from + 1)
      else StopPrefixLength(text, from + 1)
  }

  /** The text left by the pass over `StopPrefixes`. */
  function StopPrefixStripped(text: string): string {
    text[StopPrefixLength(text, 0)..]
  }

  /**
   * The second fixpoint loop: remove the first leading connective the
   * lower-cased text starts with, until none does. The result is a suffix
   * of the input that is empty or starts with no connective.
   */
  function LeadStripped(text: string): (r: string)
    ensures |r| <= |text|
    decreases |text|
  {
    if text == [] then text
    else match FirstPrefix(Lower(text), LeadPhrases, 0)
      case None => text
      case Some(i) => LeadStripped(text[|LeadPhrases[i]|..])
  }

  /** What the second loop leaves is a suffix of its input. */
  lemma {:induction false} LeadStrippedSuffix(text: string)
    ensures LeadStripped(text) == text[|text| - |LeadStripped(text)|..]
    decreases |text|
  {
    if text != [] {
      var found := FirstPrefix(Lower(text), LeadPhrases, 0);
      if found.Some? {
        var n := |LeadPhrases[found.value]|;
        var rest := text[n..];
        assert LeadStripped(text) == LeadStripped(rest);
        LeadStrippedSuffix(rest);
        SuffixOfDrop(text, n, LeadStripped(rest));
      }
    }
  }

  /** The first loop stops only when no trailing phrase is left. */
  lemma {:induction false} TrailingTrimmedDone(text: string)
    ensures var r := TrailingTrimmed(text);
      r == [] || forall k :: 0 <= k < |TrailingPhrases| ==> !EndsWith(Lower(r), TrailingPhrases[k])
    decreases |text|
  {
    if text != [] {
      match FirstSuffix(Lower(text), TrailingPhrases, 0)
      case None =>
      case Some(i) =>
        TrailingTrimmedDone(RStrip(DropLast(text, |TrailingPhrases[i]|), TrimChars));
    }
  }

  /** The second loop stops only when no leading connective is left. */
  lemma {:induction false} LeadStrippedDone(text: string)
    ensures var r := LeadStripped(text);
      r == [] || forall k :: 0 <= k < |LeadPhrases| ==> !StartsWith(Lower(r), LeadPhrases[k])
    decreases |text|
  {
    if text != [] {
      match FirstPrefix(Lower(text), LeadPhrases, 0)
      case None =>
      case Some(i) =>
        LeadStrippedDone(text[|LeadPhrases[i]|..]);
    }
  }

  /** `text.strip(" -:–—,.;()[]{}") or None`, the cleaner's last step. */
  function Finished(text: string): (r: Option<string>)
    ensures r.Some? ==> r.value != [] && r.value[0] !in TrimChars && r.value[|r.value| - 1] !in TrimChars
  {
    var t := Strip(text, TrimChars);
    if t == [] then None else Some(t)
  }

  /**
   * What `_clean_label(candidate)` returns: None for a missing, empty or
   * blank candidate, otherwise the candidate with trailing phrases, edge
   * punctuation, determiners and connectives removed, or None if nothing is left.
   */
  function Cleaned(candidate: Option<string>): (r: Option<string>)
    ensures candidate.None? ==> r.None?
    ensures r.Some? ==> r.value != [] && r.value[0] !in TrimChars && r.value[|r.value| - 1] !in TrimChars
  {
    if candidate.None? || candidate.value == [] then None
    else
      var text := Strip(candidate.value, Whitespace);
      if text == [] then None
      else Finished(LeadStripped(StopPrefixStripped(Strip(TrailingTrimmed(text), TrimChars))))
  }

  /** A blank candidate (empty or whitespace only) cleans to nothing. */
  lemma CleanedBlank(candidate: string)
    requires forall i :: 0 <= i < |candidate| ==> candidate[i] in Whitespace
    ensures Cleaned(Some(candidate)).None?
  {
    StripEmpty(candidate, Whitespace);
  }

  /**
   * Every step of the cleaner only removes a prefix or a suffix, so a cleaned
   * label is a contiguous piece of the whitespace-stripped candidate.
   */
  lemma CleanedInfix(candidate: string)
    ensures Cleaned(Some(candidate)).Some? ==> IsInfix(Cleaned(Some(candidate)).value, Strip(candidate, Whitespace))
  {
    var text := Strip(candidate, Whitespace);
    if candidate != [] && text != [] {
      var t2 := Strip(TrailingTrimmed(text), TrimChars);
      var t3 := StopPrefixStripped(t2);
      var t4 := LeadStripped(t3);
      assert Cleaned(Some(candidate)) == Finished(t4);
      if Finished(t4).Some? {
        TrimmedInfix(text);
        StopInfix(t2);
        LeadInfix(t3);
        FinishedInfix(t4);
        InfixChain(Finished(t4).value, t4, t3, t2, text);
      }
    }
  }

  lemma InfixChain(a: string, b: string, c: string, d: string, e: string)
    requires IsInfix(a, b) && IsInfix(b, c) && IsInfix(c, d) && IsInfix(d, e)
    ensures IsInfix(a, e)
  {
    InfixTrans(a, b, c);
    InfixTrans(a, c, d);
    InfixTrans(a, d, e);
  }

  lemma StopInfix(text: string)
    ensures IsInfix(StopPrefixStripped(text), text)
  {
    SuffixInfix(StopPrefixStripped(text), text);
  }

  lemma LeadInfix(text: string)
    ensures IsInfix(LeadStripped(text), text)
  {
    LeadStrippedSuffix(text);
    SuffixInfix(LeadStripped(text), text);
  }

  lemma TrimmedInfix(text: string)
    ensures IsInfix(Strip(TrailingTrimmed(text), TrimChars), text)
  {
    var t1 := TrailingTrimmed(text);
    PrefixInfix(t1, text);
    StripInfix(t1, TrimChars);
    InfixTrans(Strip(t1, TrimChars), t1, text);
  }

  lemma FinishedInfix(text: string)
    ensures Finished(text).Some? ==> IsInfix(Finished(text).value, text)
  {
    StripInfix(text, TrimChars);
  }

  /** The inner `for phrase in TRAILING_PHRASES` loop: the first phrase `lowered` ends with. */
  method FindTrailingPhrase(lowered: string) returns (found: Option<nat>)
    ensures found == FirstSuffix(lowered, TrailingPhrases, 0)
  {
    var i := 0;
    while i < |TrailingPhrases|
      invariant 0 <= i <= |TrailingPhrases|
      invariant FirstSuffix(lowered, TrailingPhrases, i) == FirstSuffix(lowered, TrailingPhrases, 0)
    {
      if EndsWith(lowered, TrailingPhrases[i]) {
        return Some(i);
      }
      i := i + 1;
    }
    return None;
  }

  /** The `while changed` loop of `_clean_label`: strip trailing phrases until none matches. */
  method TrimTrailingPhrases(start: string) returns (text: string)
    ensures text == TrailingTrimmed(start)
  {
    text := start;
    var changed := true;
    while changed && text != []
      invariant TrailingTrimmed(text) == TrailingTrimmed(start)
      invariant !changed ==> TrailingTrimmed(text) == text
      decreases |text| + (if changed then 1 else 0)
    {
      changed := false;
      var found := FindTrailingPhrase(Lower(text));
      if found.Some? {
        text := RStrip(DropLast(text, |TrailingPhrases[found.value]|), TrimChars);
        changed := true;
      }
    }
  }

  /** The `for prefix in STOP_PREFIXES` pass of `_clean_label`. */
  method StripStopPrefixes(start: string) returns (text: string)
    ensures text == StopPrefixStripped(start)
  {
    text := start;
    for j := 0 to |StopPrefixes|
      invariant text[StopPrefixLength(text, j)..] == StopPrefixStripped(start)
    {
      if StartsWith(text, StopPrefixes[j]) {
        text := text[|StopPrefixes[j]|..];
      }
    }
  }

  /** The inner `for phrase in LEAD_PHRASES` loop: the first connective `lowered` starts with. */
  method FindLeadPhrase(lowered: string) returns (found: Option<nat>)
    ensures found == FirstPrefix(lowered, LeadPhrases, 0)
  {
    var i := 0;
    while i < |LeadPhrases|
      invariant 0 <= i <= |LeadPhrases|
      invariant FirstPrefix(lowered, LeadPhrases, i) == FirstPrefix(lowered, LeadPhrases, 0)
    {
      if StartsWith(lowered, LeadPhrases[i]) {
        return Some(i);
      }
      i := i + 1;
    }
    return None;
  }

  /** The `while trimmed` loop of `_clean_label`: remove leading connectives until none is left. */
  method StripLeadPhrases(start: string) returns (text: string)
    ensures text == LeadStripped(start)
  {
    text := start;
    var trimmed := true;
    while trimmed && text != []
      invariant LeadStripped(text) == LeadStripped(start)
      invariant !trimmed ==> LeadStripped(text) == text
      decreases |text| + (if trimmed then 1 else 0)
    {
      trimmed := false;
      var found := FindLeadPhrase(Lower(text));
      if found.Some? {
        text := text[|LeadPhrases[found.value]|..];
        trimmed := true;
      }
    }
  }

  /** `_clean_label(candidate)`. */
  method CleanLabel(candidate: Option<string>) returns (r: Option<string>)
    ensures r == Cleaned(candidate)
  {
    if candidate.None? || candidate.value == [] {
      return None;
    }
    var text := Strip(candidate.value, Whitespace);
    if text == [] {
      return None;
    }
    text := TrimTrailingPhrases(text);
    text := Strip(text, TrimChars);
    text := StripStopPrefixes(text);
    text := StripLeadPhrases(text);
    text := Strip(text, TrimChars);
    r := if text == [] then None else Some(text);
  }

  /** `re.split(r"[\.;!?\n]", s)[-1]`: the text after the last sentence break. */
  function LastSegment(s: string): (r: string)
    ensures |r| <= |s|
    ensures forall i :: 0 <= i < |r| ==> r[i] !in SentenceBreaks
    ensures |r| < |s| ==> s[|s| - |r| - 1] in SentenceBreaks
    decreases |s|
  {
    if s == [] then []
    else if s[|s| - 1] in SentenceBreaks then []
    else LastSegment(s[..|s| - 1]) + [s[|s| - 1]]
  }

  /** The text after the last sentence break is a suffix of the text. */
  lemma {:induction false} LastSegmentSuffix(s: string)
    ensures LastSegment(s) == s[|s| - |LastSegment(s)|..]
    decreases |s|
  {
    if s != [] && s[|s| - 1] !in SentenceBreaks {
      var init := s[..|s| - 1];
      LastSegmentSuffix(init);
      assert init[|init| - |LastSegment(init)|..] + [s[|s| - 1]] == s[|s| - |LastSegment(s)|..];
    }
  }

  /** `before[-160:]`: at most the last `ContextWindow` characters. */
  function ContextTail(before: string): (r: string)
    ensures |r| == if |before| <= ContextWindow then |before| else ContextWindow
    ensures r == before[|before| - |r|..]
  {
    if |before| <= ContextWindow then before else before[|before| - ContextWindow..]
  }

  /** The raw link text counts as a placeholder: blank, or one of `PlaceholderLabels` in lower case. */
  predicate IsPlaceholder(rawLabel: string) {
    var t := Strip(rawLabel, Whitespace);
    t == [] || Lower(t) in PlaceholderLabels
  }

  /**
   * The label `_parse_cell` gives a hyperlink whose target resolved: the
   * authored text if it is not a placeholder, otherwise the cleaned last
   * sentence before the link, else the cleaned last 160 characters before
   * it, else `"Resource link"`.
   */
  function ResolveLabel(rawLabel: string, before: string): (r: string)
    ensures r != []
    ensures !IsPlaceholder(rawLabel) ==> r == Strip(rawLabel, Whitespace)
  {
    var raw := Strip(rawLabel, Whitespace);
    if raw == [] || Lower(raw) in PlaceholderLabels then
      var candidate := Cleaned(Some(LastSegment(before)));
      var candidate := if candidate.None? || candidate.value == [] then Cleaned(Some(ContextTail(before))) else candidate;
      if candidate.Some? && candidate.value != [] then candidate.value else FallbackLabel
    else
      StripIdempotent(rawLabel, Whitespace);
      Strip(raw, Whitespace)
  }

  /** A cleaned piece of `before` is still a piece of `before`. */
  lemma CleanedWithin(s: string, before: string)
    requires IsInfix(s, before)
    ensures Cleaned(Some(s)).Some? ==> IsInfix(Cleaned(Some(s)).value, before)
  {
    if Cleaned(Some(s)).Some? {
      CleanedInfix(s);
      StripInfix(s, Whitespace);
      InfixTrans(Cleaned(Some(s)).value, Strip(s, Whitespace), s);
      InfixTrans(Cleaned(Some(s)).value, s, before);
    }
  }

  /**
   * A placeholder link is labelled with text that stood before it in the
   * paragraph, or with `"Resource link"` when nothing usable is there.
   */
  lemma ResolvedFromContext(rawLabel: string, before: string)
    requires IsPlaceholder(rawLabel)
    ensures ResolveLabel(rawLabel, before) == FallbackLabel || IsInfix(ResolveLabel(rawLabel, before), before)
  {
    var segment := LastSegment(before);
    var tail := ContextTail(before);
    LastSegmentSuffix(before);
    SuffixInfix(segment, before);
    SuffixInfix(tail, before);
    CleanedWithin(segment, before);
    CleanedWithin(tail, before);
  }

  /** Lines 198-208 of `_parse_cell`: the label given to a hyperlink whose target resolved. */
  method LinkLabel(rawLabel: string, before: string) returns (r: string)
    ensures r == ResolveLabel(rawLabel, before)
  {
    var raw := Strip(rawLabel, Whitespace);
    if raw == [] || Lower(raw) in PlaceholderLabels {
      var candidate := LastSegment(before);
      var labelCandidate := CleanLabel(Some(candidate));
      if labelCandidate.None? || labelCandidate.value == [] {
        labelCandidate := CleanLabel(Some(ContextTail(before)));
      }
      r := if labelCandidate.Some? && labelCandidate.value != [] then labelCandidate.value else FallbackLabel;
    } else {
      r := Strip(raw, Whitespace);
    }
  }
}
