/**
 * `_parse_cell`: the text of a table cell (its non-blank paragraphs joined
 * by newlines) and the hyperlinks in it whose targets resolved, each with a
 * label chosen by `Labels.ResolveLabel`.
 */
module Cells {
  import opened Wrappers
  import opened Text
  import opened Labels
  import opened Runs

  /** A `w:tc` element, as the children of each `w:p` found beneath it, in document order. */
  type Cell = seq<seq<Node>>

  /** A `{"label": ..., "url": ...}` entry of a cell's links; `label` is a keyword here, so the field is `text`. */
  datatype Link = Link(text: string, url: string)

  /** `{"text": ..., "links": ...}`, what `_parse_cell` returns. */
  datatype CellData = CellData(text: string, links: seq<Link>)

  /**
   * The stripped text of one paragraph: the visible texts of its children,
   * concatenated. `ParseParagraph` computes it from the parts, as the
   * extractor does, and `Runs.RunsText` shows the two agree.
   */
  function ParagraphText(p: seq<Node>): (r: string)
    ensures Stripped(r)
  {
    Strip(Concat(NodeTexts(p)), Whitespace)
  }

  /** The link a part contributes: only a hyperlink part with a non-empty target does. */
  function LinkOf(part: Part): Option<Link> {
    if part.LinkPart? && part.url.Some? && part.url.value != [] then
      Some(Link(ResolveLabel(part.rawLabel, part.before), part.url.value))
    else None
  }

  /** The links of a paragraph's parts, in order. */
  function PartLinks(parts: seq<Part>): seq<Link> {
    if parts == [] then []
    else
      var l := LinkOf(parts[|parts| - 1]);
      PartLinks(parts[..|parts| - 1]) + (if l.Some? then [l.value] else [])
  }

  /** The texts of all paragraphs, blank ones included. */
  function ParagraphTexts(cell: Cell): (r: seq<string>)
    ensures |r| == |cell|
    ensures forall i :: 0 <= i < |r| ==> Stripped(r[i])
  {
    if cell == [] then [] else ParagraphTexts(cell[..|cell| - 1]) + [ParagraphText(cell[|cell| - 1])]
  }

  /** The links of one paragraph. */
  function ParagraphLinksOf(p: seq<Node>, rels: Rels): seq<Link> {
    PartLinks(RunsOf(p, rels))
  }

  /** The links of all paragraphs, in order. */
  function CellLinks(cell: Cell, rels: Rels): seq<Link> {
    if cell == [] then []
    else CellLinks(cell[..|cell| - 1], rels) + ParagraphLinksOf(cell[|cell| - 1], rels)
  }

  /** `"\n".join(paragraphs).strip()`: the cell's text. */
  function CellText(cell: Cell): string {
    Strip(Join("\n", NonEmpty(ParagraphTexts(cell))), Whitespace)
  }

  /** What `_parse_cell` returns for a cell. */
  function CellOf(cell: Cell, rels: Rels): CellData {
    CellData(CellText(cell), CellLinks(cell, rels))
  }

  /** `_parse_cell(tc, rels)`. */
  method ParseCell(cell: Cell, rels: Rels) returns (c: CellData)
    ensures c == CellOf(cell, rels)
  {
    var paragraphs: seq<string> := [];
    var links: seq<Link> := [];
    for i := 0 to |cell|
      invariant paragraphs == NonEmpty(ParagraphTexts(cell[..i]))
      invariant links == CellLinks(cell[..i], rels)
    {
      CellStep(cell, i, rels);
      var paragraphText, found := ParseParagraph(cell[i], rels);
      if paragraphText != [] {
        paragraphs := paragraphs + [paragraphText];
      }
      links := links + found;
    }
    assert cell[..|cell|] == cell;
    c := CellData(Strip(Join("\n", paragraphs), Whitespace), links);
  }

  /** One pass of the paragraph loop of `_parse_cell`: the paragraph's text and its links. */
  method ParseParagraph(p: seq<Node>, rels: Rels) returns (text: string, links: seq<Link>)
    ensures text == ParagraphText(p)
    ensures links == ParagraphLinksOf(p, rels)
  {
    var runs := ParseRuns(p, rels);
    RunsText(p, rels);
    text := Strip(Plain(runs), Whitespace);
    links := ParagraphLinks(runs);
  }

  /** The inner `for part in runs` loop of `_parse_cell`: the links of one paragraph. */
  method ParagraphLinks(runs: seq<Part>) returns (links: seq<Link>)
    ensures links == PartLinks(runs)
  {
    links := [];
    for j := 0 to |runs|
      invariant links == PartLinks(runs[..j])
    {
      PartLinksStep(runs, j);
      var part := runs[j];
      if !part.LinkPart? || part.url.None? || part.url.value == [] {
        continue;
      }
      var linkLabel := LinkLabel(part.rawLabel, part.before);
      links := links + [Link(linkLabel, part.url.value)];
    }
    assert runs[..|runs|] == runs;
  }

  /** A link `_parse_cell` reports has a label and a target, and the target is one of the document's relationships. */
  ghost predicate ValidLink(l: Link, rels: Rels) {
    l.text != [] && l.url != [] && l.url in rels.Values
  }

  lemma {:induction false} PartLinksValid(parts: seq<Part>, rels: Rels)
    requires forall k :: 0 <= k < |parts| && parts[k].LinkPart? && parts[k].url.Some? ==> parts[k].url.value in rels.Values
    ensures forall i :: 0 <= i < |PartLinks(parts)| ==> ValidLink(PartLinks(parts)[i], rels)
    decreases |parts|
  {
    if parts != [] {
      PartLinksValid(parts[..|parts| - 1], rels);
    }
  }

  /** Every link of a cell has a non-empty label and a non-empty target taken from the relationships. */
  lemma {:induction false} CellLinksValid(cell: Cell, rels: Rels)
    ensures forall i :: 0 <= i < |CellLinks(cell, rels)| ==> ValidLink(CellLinks(cell, rels)[i], rels)
    decreases |cell|
  {
    if cell != [] {
      var runs := RunsOf(cell[|cell| - 1], rels);
      CellLinksValid(cell[..|cell| - 1], rels);
      RunsParts(cell[|cell| - 1], rels);
      forall k | 0 <= k < |runs| && runs[k].LinkPart? && runs[k].url.Some?
        ensures runs[k].url.value in rels.Values
      {
        assert InContext(runs, k, rels);
      }
      PartLinksValid(runs, rels);
    }
  }

  /**
   * The cell text is the non-blank paragraph texts joined by newlines: the
   * final `strip()` never removes anything, and the text is empty exactly
   * when every paragraph is blank.
   */
  lemma CellTextJoined(cell: Cell)
    ensures var texts := NonEmpty(ParagraphTexts(cell));
      && CellText(cell) == Join("\n", texts)
      && (CellText(cell) == [] <==> texts == [])
  {
    JoinStripped(ParagraphTexts(cell));
  }

  /** Joining stripped texts by newlines leaves nothing for a final `strip()` to remove. */
  lemma JoinStripped(all: seq<string>)
    requires forall i :: 0 <= i < |all| ==> Stripped(all[i])
    ensures var texts := NonEmpty(all);
      && Strip(Join("\n", texts), Whitespace) == Join("\n", texts)
      && (Join("\n", texts) == [] <==> texts == [])
  {
    var texts := NonEmpty(all);
    if texts != [] {
      JoinEnds("\n", texts);
      NonEmptyFrom(all);
      var first := texts[0];
      var last := texts[|texts| - 1];
      assert first in all && last in all;
      StripNoop(Join("\n", texts), Whitespace);
    }
  }

  lemma CellStep(cell: Cell, i: nat, rels: Rels)
    requires i < |cell|
    ensures var text := ParagraphText(cell[i]);
      NonEmpty(ParagraphTexts(cell[..i + 1])) == NonEmpty(ParagraphTexts(cell[..i])) + (if text == [] then [] else [text])
    ensures CellLinks(cell[..i + 1], rels) == CellLinks(cell[..i], rels) + ParagraphLinksOf(cell[i], rels)
  {
    assert cell[..i + 1][..i] == cell[..i];
  }

  lemma PartLinksStep(parts: seq<Part>, j: nat)
    requires j < |parts|
    ensures var l := LinkOf(parts[j]);
      PartLinks(parts[..j + 1]) == PartLinks(parts[..j]) + (if l.Some? then [l.value] else [])
  {
    assert parts[..j + 1][..j] == parts[..j];
  }
}
