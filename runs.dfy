/**
 * `_parse_runs`: one paragraph of a table cell flattened into text parts and
 * hyperlink parts. A hyperlink part remembers the paragraph text before it
 * and, after the second pass, the paragraph text after it.
 */
module Runs {
  import opened Wrappers
  import opened Seqs
  import opened Text

  /**
   * A direct child of a `w:p` element: a `w:hyperlink` with its optional
   * `r:id` attribute, or any other child (a run, a bookmark, ...). `texts`
   * are the `w:t` texts found beneath it in document order, `""` standing
   * for a `w:t` without text.
   */
  datatype Node =
    | Hyperlink(rid: Option<string>, texts: seq<string>)
    | Other(texts: seq<string>)

  /** The relationship map of the document: relationship id to target. */
  type Rels = map<string, string>

  /** One entry of the list `_parse_runs` returns. */
  datatype Part =
    | TextPart(text: string)
    | LinkPart(rawLabel: string, url: Option<string>, before: string, after: string)

  /** `rels.get(rid)`, where a missing attribute (`None`) finds nothing. */
  function Lookup(rels: Rels, rid: Option<string>): Option<string> {
    if rid.Some? && rid.value in rels then Some(rels[rid.value]) else None
  }

  /** `"".join(t.text for t in child.findall('.//w:t') if t.text)`. */
  function JoinedText(texts: seq<string>): string {
    Concat(NonEmpty(texts))
  }

  /** `part.get("text", part.get("raw_label", ""))`. */
  function PartText(p: Part): string {
    match p
    case TextPart(text) => text
    case LinkPart(rawLabel, _, _, _) => rawLabel
  }

  /** The paragraph text the parts spell out, in order. */
  function Plain(parts: seq<Part>): string {
    if parts == [] then [] else Plain(parts[..|parts| - 1]) + PartText(parts[|parts| - 1])
  }

  /** What the first loop appends for one child, given the text `plain` seen so far. */
  function NodeParts(n: Node, plain: string, rels: Rels): seq<Part> {
    match n
    case Hyperlink(rid, texts) => [LinkPart(JoinedText(texts), Lookup(rels, rid), plain, [])]
    case Other(texts) => if NonEmpty(texts) == [] then [] else [TextPart(JoinedText(texts))]
  }

  /** The parts after the first loop, before any `after` is filled in. */
  function FirstPass(nodes: seq<Node>, rels: Rels): seq<Part> {
    if nodes == [] then []
    else
      var parts := FirstPass(nodes[..|nodes| - 1], rels);
      parts + NodeParts(nodes[|nodes| - 1], Plain(parts), rels)
  }

  /** Python's `s[from:]`, which is empty when `from` is past the end. */
  function Slice(s: string, from: nat): string {
    if from <= |s| then s[from..] else []
  }

  /** The second loop's update of one part: a link gets the text of `full` that follows it. */
  function WithAfter(p: Part, full: string): Part {
    if p.LinkPart? then p.(after := Slice(full, |p.before| + |p.rawLabel|)) else p
  }

  /** The second loop: every link part gets the text of `full` that follows it. */
  function AfterFilled(parts: seq<Part>, full: string): (r: seq<Part>)
    ensures |r| == |parts|
    ensures forall i :: 0 <= i < |parts| ==> r[i] == WithAfter(parts[i], full)
  {
    seq(|parts|, i requires 0 <= i < |parts| => WithAfter(parts[i], full))
  }

  /** What `_parse_runs` returns for a paragraph with children `nodes`. */
  function RunsOf(nodes: seq<Node>, rels: Rels): seq<Part> {
    var parts := FirstPass(nodes, rels);
    AfterFilled(parts, Plain(parts))
  }

  /** The visible text of each child, in order: the reference for the paragraph text. */
  function NodeTexts(nodes: seq<Node>): (r: seq<string>)
    ensures |r| == |nodes|
    ensures forall i :: 0 <= i < |nodes| ==> r[i] == JoinedText(nodes[i].texts)
  {
    seq(|nodes|, i requires 0 <= i < |nodes| => JoinedText(nodes[i].texts))
  }

  /** `_parse_runs(element, rels)`: the two loops over the children and over the parts. */
  method ParseRuns(nodes: seq<Node>, rels: Rels) returns (result: seq<Part>)
    ensures result == RunsOf(nodes, rels)
  {
    var parts: seq<Part> := [];
    var plain: string := [];
    for i := 0 to |nodes|
      invariant parts == FirstPass(nodes[..i], rels)
      invariant plain == Plain(parts)
    {
      FirstPassStep(nodes, i, rels);
      ghost var previous := parts;
      match nodes[i]
      case Hyperlink(rid, texts) =>
        var url := Lookup(rels, rid);
        var linkText := JoinedText(texts);
        parts := parts + [LinkPart(linkText, url, plain, [])];
        plain := plain + linkText;
      case Other(texts) =>
        var kept := NonEmpty(texts);
        if kept != [] {
          var text := Concat(kept);
          parts := parts + [TextPart(text)];
          plain := plain + text;
        }
      assert parts == previous + NodeParts(nodes[i], Plain(previous), rels);
      PlainAppend(previous, NodeParts(nodes[i], Plain(previous), rels));
      PlainNodeParts(nodes[i], Plain(previous), rels);
    }
    assert nodes[..|nodes|] == nodes;
    result := FillAfter(parts, Plain(parts));
  }

  /** The second loop of `_parse_runs`: each link part gets the text of `full` after it. */
  method FillAfter(parts: seq<Part>, full: string) returns (result: seq<Part>)
    ensures result == AfterFilled(parts, full)
  {
    result := parts;
    for j := 0 to |parts|
      invariant |result| == |parts|
      invariant forall k :: 0 <= k < j ==> result[k] == WithAfter(parts[k], full)
      invariant forall k :: j <= k < |parts| ==> result[k] == parts[k]
    {
      if result[j].LinkPart? {
        var linkText := result[j].rawLabel;
        var start := |result[j].before|;
        result := result[j := result[j].(after := Slice(full, start + |linkText|))];
      }
    }
  }

  lemma FirstPassStep(nodes: seq<Node>, i: nat, rels: Rels)
    requires i < |nodes|
    ensures FirstPass(nodes[..i + 1], rels) == FirstPass(nodes[..i], rels) + NodeParts(nodes[i], Plain(FirstPass(nodes[..i], rels)), rels)
  {
    assert nodes[..i + 1][..i] == nodes[..i];
  }

  /** The parts made for one child spell out exactly that child's visible text. */
  lemma PlainNodeParts(n: Node, plain: string, rels: Rels)
    ensures Plain(NodeParts(n, plain, rels)) == JoinedText(n.texts)
  {
    var added := NodeParts(n, plain, rels);
    if added != [] {
      assert added[..0] == [];
    } else {
      ConcatNonEmpty(n.texts);
    }
  }

  lemma {:induction false} PlainAppend(a: seq<Part>, b: seq<Part>)
    ensures Plain(a + b) == Plain(a) + Plain(b)
    decreases |b|
  {
    if b == [] {
      assert a + b == a;
    } else {
      PlainAppend(a, b[..|b| - 1]);
      AppendInit(a, b);
      AppendAssoc(Plain(a), Plain(b[..|b| - 1]), PartText(b[|b| - 1]));
    }
  }

  /** Two part lists that show the same texts spell out the same paragraph. */
  lemma {:induction false} PlainSameTexts(a: seq<Part>, b: seq<Part>)
    requires |a| == |b|
    requires forall i :: 0 <= i < |a| ==> PartText(a[i]) == PartText(b[i])
    ensures Plain(a) == Plain(b)
    decreases |a|
  {
    if a != [] {
      PlainSameTexts(a[..|a| - 1], b[..|b| - 1]);
    }
  }

  /** The parts of the first loop spell out the visible text of all children. */
  lemma {:induction false} FirstPassPlain(nodes: seq<Node>, rels: Rels)
    ensures Plain(FirstPass(nodes, rels)) == Concat(NodeTexts(nodes))
    decreases |nodes|
  {
    if nodes != [] {
      var init := nodes[..|nodes| - 1];
      var n := nodes[|nodes| - 1];
      var ps := FirstPass(init, rels);
      FirstPassPlain(init, rels);
      PlainAppend(ps, NodeParts(n, Plain(ps), rels));
      PlainNodeParts(n, Plain(ps), rels);
      NodeTextsInit(nodes);
    }
  }

  lemma NodeTextsInit(nodes: seq<Node>)
    requires nodes != []
    ensures NodeTexts(nodes)[..|nodes| - 1] == NodeTexts(nodes[..|nodes| - 1])
  {
  }

  /**
   * Every part of the first loop is either a non-empty text or a link that
   * records exactly the text of the parts before it and a target from `rels`.
   */
  lemma {:induction false} FirstPassParts(nodes: seq<Node>, rels: Rels)
    ensures forall k :: 0 <= k < |FirstPass(nodes, rels)| ==> PartShape(FirstPass(nodes, rels), k, rels)
    decreases |nodes|
  {
    if nodes != [] {
      var init := nodes[..|nodes| - 1];
      var ps := FirstPass(init, rels);
      FirstPassParts(init, rels);
      var parts := FirstPass(nodes, rels);
      assert parts[..|ps|] == ps;
      forall k | 0 <= k < |parts|
        ensures PartShape(parts, k, rels)
      {
        if k < |ps| {
          assert parts[..k] == ps[..k];
          assert PartShape(ps, k, rels);
        }
      }
    }
  }

  /** Part `k` of `parts` is a non-empty text, or a link whose `before` is the text of the parts before it and whose target comes from `rels`. */
  ghost predicate PartShape(parts: seq<Part>, k: nat, rels: Rels)
    requires k < |parts|
  {
    match parts[k]
    case TextPart(text) => text != []
    case LinkPart(_, url, before, _) => before == Plain(parts[..k]) && (url.Some? ==> url.value in rels.Values)
  }

  /** The parts `_parse_runs` returns spell out the visible text of the paragraph's children. */
  lemma RunsText(nodes: seq<Node>, rels: Rels)
    ensures Plain(RunsOf(nodes, rels)) == Concat(NodeTexts(nodes))
  {
    FirstPassPlain(nodes, rels);
    PlainSameTexts(RunsOf(nodes, rels), FirstPass(nodes, rels));
  }

  /**
   * Part `k` of `_parse_runs`' result is a non-empty text, or a link that
   * splits the paragraph text into exactly what stands before it, its own
   * label and what stands after it, with a target (if any) from `rels`.
   */
  ghost predicate InContext(r: seq<Part>, k: nat, rels: Rels)
    requires k < |r|
  {
    match r[k]
    case TextPart(text) => text != []
    case LinkPart(_, url, before, after) =>
      && before == Plain(r[..k])
      && after == Plain(r[k + 1..])
      && (url.Some? ==> url.value in rels.Values)
  }

  /** What `_parse_runs` promises its caller about each part it returns. */
  lemma RunsParts(nodes: seq<Node>, rels: Rels)
    ensures forall k :: 0 <= k < |RunsOf(nodes, rels)| ==> InContext(RunsOf(nodes, rels), k, rels)
  {
    FirstPassParts(nodes, rels);
    forall k | 0 <= k < |RunsOf(nodes, rels)|
      ensures InContext(RunsOf(nodes, rels), k, rels)
    {
      RunsPart(nodes, rels, k);
    }
  }

  lemma RunsPart(nodes: seq<Node>, rels: Rels, k: nat)
    requires k < |RunsOf(nodes, rels)|
    requires forall i :: 0 <= i < |FirstPass(nodes, rels)| ==> PartShape(FirstPass(nodes, rels), i, rels)
    ensures InContext(RunsOf(nodes, rels), k, rels)
  {
    var parts := FirstPass(nodes, rels);
    assert PartShape(parts, k, rels);
    FilledPart(parts, k, rels);
  }

  /** Filling in the `after` texts turns a well-shaped part into one that knows its whole context. */
  lemma FilledPart(parts: seq<Part>, k: nat, rels: Rels)
    requires k < |parts| && PartShape(parts, k, rels)
    ensures InContext(AfterFilled(parts, Plain(parts)), k, rels)
  {
    var r := AfterFilled(parts, Plain(parts));
    if r[k].LinkPart? {
      LinkContext(parts, k);
      FilledTexts(parts, Plain(parts), k);
    }
  }

  /** Filling in the `after` texts changes no part's text, so the text on either side of a part stays the same. */
  lemma FilledTexts(parts: seq<Part>, full: string, k: nat)
    requires k < |parts|
    ensures Plain(AfterFilled(parts, full)[..k]) == Plain(parts[..k])
    ensures Plain(AfterFilled(parts, full)[k + 1..]) == Plain(parts[k + 1..])
  {
    var r := AfterFilled(parts, full);
    var a, b := r[..k], parts[..k];
    forall i | 0 <= i < |a|
      ensures PartText(a[i]) == PartText(b[i])
    {
      assert a[i] == WithAfter(parts[i], full);
    }
    PlainSameTexts(a, b);
    var c, d := r[k + 1..], parts[k + 1..];
    forall i | 0 <= i < |c|
      ensures PartText(c[i]) == PartText(d[i])
    {
      assert c[i] == WithAfter(d[i], full);
    }
    PlainSameTexts(r[k + 1..], parts[k + 1..]);
  }

  /** The text after link `k` is what `full[len(before) + len(label):]` cuts off, when `before` is all the text before it. */
  lemma LinkContext(parts: seq<Part>, k: nat)
    requires k < |parts| && parts[k].LinkPart? && parts[k].before == Plain(parts[..k])
    ensures Slice(Plain(parts), |parts[k].before| + |parts[k].rawLabel|) == Plain(parts[k + 1..])
  {
    assert parts == parts[..k] + [parts[k]] + parts[k + 1..];
    PlainAppend(parts[..k] + [parts[k]], parts[k + 1..]);
    PlainAppend(parts[..k], [parts[k]]);
    assert [parts[k]][..0] == [];
  }
}
