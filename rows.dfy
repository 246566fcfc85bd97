/**
 * The row walk of `extract`: every row after the header is classified by
 * its first cell's text as a category header (`A. Title`), a section header
 * (`A12. Title`) or a continuation of the last section, and the list of
 * categories is assembled in place.
 */
module Rows {
  import opened Wrappers
  import opened Seqs
  import opened Text
  import opened Runs
  import opened Cells
  import opened Patterns

  /** A section of a category, as `extract` builds it. */
  datatype Section = Section(code: string, title: string, status: string, description: string, links: seq<Link>)

  /** A category, as `extract` builds it. */
  datatype Category = Category(code: string, title: string, description: string, links: seq<Link>, sections: seq<Section>)

  /** The title of a category that a section header opens. */
  const MiscTitle: string := "Misc"

  /** A row of the table after `_parse_cell` has run on each of its cells. */
  type ParsedRow = seq<CellData>

  /** `cell_parsed[i]["text"] if len(cell_parsed) > i else ""`. */
  function TextAt(row: ParsedRow, i: nat): string {
    if |row| > i then row[i].text else []
  }

  /** `cell_parsed[i]["links"] if len(cell_parsed) > i else []`. */
  function LinksAt(row: ParsedRow, i: nat): seq<Link> {
    if |row| > i then row[i].links else []
  }

  /** The links of the given cells, in order. */
  function ParsedCellsLinks(cells: seq<CellData>): seq<Link> {
    if cells == [] then [] else ParsedCellsLinks(cells[..|cells| - 1]) + cells[|cells| - 1].links
  }

  /** The texts of the given cells, in order. */
  function CellsTexts(cells: seq<CellData>): (r: seq<string>)
    ensures |r| == |cells|
    ensures forall i :: 0 <= i < |cells| ==> r[i] == cells[i].text
  {
    seq(|cells|, i requires 0 <= i < |cells| => cells[i].text)
  }

  /** The cells after the first one. */
  function Others(row: ParsedRow): seq<CellData> {
    if row == [] then [] else row[1..]
  }

  /** `current_category`: always the category appended last, if any. */
  function LastIndex(categories: seq<Category>): Option<nat> {
    if categories == [] then None else Some(|categories| - 1)
  }

  /** The category a header row opens. */
  function NewCategory(head: CategoryHead, row: ParsedRow): Category {
    Category([head.letter], Strip(head.rest, Whitespace), TextAt(row, 1), LinksAt(row, 1), [])
  }

  /** The section a section row adds: status from the second cell, description from the third (else the second), links of the third then the second. */
  function NewSection(head: SectionHead, row: ParsedRow): Section {
    var description := if |row| > 2 then TextAt(row, 2) else TextAt(row, 1);
    Section([head.letter] + head.digits, Strip(head.rest, Whitespace), TextAt(row, 1), description, LinksAt(row, 2) + LinksAt(row, 1))
  }

  /** The last section after a continuation row whose other cells are `rest`: its description extended by their texts, its links by their links. */
  function Continued(s: Section, rest: seq<CellData>): Section {
    var extra := Join(" ", NonEmpty(CellsTexts(rest)));
    s.(description := Strip(Join(" ", NonEmpty([s.description, extra])), Whitespace),
       links := s.links + ParsedCellsLinks(rest))
  }

  /** Append `s` to the last category. */
  function AddSection(categories: seq<Category>, s: Section): seq<Category>
    requires categories != []
  {
    var last := categories[|categories| - 1];
    categories[|categories| - 1 := last.(sections := last.sections + [s])]
  }

  /** `current_category and current_category.get("sections")`: there is a last section to continue. */
  predicate HasLastSection(categories: seq<Category>) {
    categories != [] && categories[|categories| - 1].sections != []
  }

  /** `current_category["sections"][-1]`. */
  function LastSection(categories: seq<Category>): Section
    requires HasLastSection(categories)
  {
    var last := categories[|categories| - 1];
    last.sections[|last.sections| - 1]
  }

  /** The categories with the last section of the last category replaced by `s`. */
  function ReplaceLastSection(categories: seq<Category>, s: Section): seq<Category>
    requires HasLastSection(categories)
  {
    var last := categories[|categories| - 1];
    categories[|categories| - 1 := last.(sections := last.sections[|last.sections| - 1 := s])]
  }

  /** The categories a section with letter `letter` goes into: a new `Misc` category is appended unless the last one has that letter. */
  function WithCategory(categories: seq<Category>, letter: char): (r: seq<Category>)
    ensures r != []
  {
    if categories == [] || categories[|categories| - 1].code != [letter] then
      categories + [Category([letter], MiscTitle, [], [], [])]
    else categories
  }

  /** The categories after a section row: the section goes at the end of the category `WithCategory` makes last. */
  function SectionAdded(categories: seq<Category>, head: SectionHead, row: ParsedRow): seq<Category> {
    AddSection(WithCategory(categories, head.letter), NewSection(head, row))
  }

  /** The categories after a continuation row: unchanged unless there is a last section to continue. */
  function Continuation(categories: seq<Category>, row: ParsedRow): seq<Category> {
    if HasLastSection(categories) then ReplaceLastSection(categories, Continued(LastSection(categories), Others(row)))
    else categories
  }

  /** Which of the four things the loop body does a row triggers. */
  datatype RowKind = Skipped | CategoryRow(c: CategoryHead) | SectionRow(s: SectionHead) | ContinuationRow

  function Classify(row: ParsedRow): RowKind {
    var first := TextAt(row, 0);
    if first == [] then Skipped
    else
      var cat := MatchCategory(first);
      var sec := MatchSection(first);
      if cat.Some? && sec.None? then CategoryRow(cat.value)
      else if sec.Some? then SectionRow(sec.value)
      else ContinuationRow
  }

  /** What a row kind must satisfy for its step to keep the categories well-formed. */
  ghost predicate KindWellFormed(kind: RowKind) {
    match kind
    case CategoryRow(head) => IsUpper(head.letter)
    case SectionRow(head) => HeadWellFormed(head)
    case _ => true
  }

  /** The letter of a category header is a capital letter, and a section header's captures make a well-formed code. */
  lemma ClassifyWellFormed(row: ParsedRow)
    ensures KindWellFormed(Classify(row))
  {
    var text := TextAt(row, 0);
    match Classify(row)
    case CategoryRow(head) =>
      assert head == MatchCategory(text).value;
      CategoryMatchFacts(text);
    case SectionRow(head) =>
      assert head == MatchSection(text).value;
      SectionHeadWellFormed(text);
    case _ =>
  }

  /** What the loop body does to the categories for a row of the given kind. */
  function StepKind(categories: seq<Category>, kind: RowKind, row: ParsedRow): seq<Category> {
    match kind
    case Skipped => categories
    case CategoryRow(head) => categories + [NewCategory(head, row)]
    case SectionRow(head) => SectionAdded(categories, head, row)
    case ContinuationRow => Continuation(categories, row)
  }

  /** One pass of the loop body of `extract` (lines 244-313) on the list of categories. */
  function StepRow(categories: seq<Category>, row: ParsedRow): seq<Category> {
    StepKind(categories, Classify(row), row)
  }

  /** The categories after the loop has seen `rows` (the rows after the header). */
  function WalkedRows(rows: seq<ParsedRow>): seq<Category> {
    if rows == [] then [] else StepRow(WalkedRows(rows[..|rows| - 1]), rows[|rows| - 1])
  }

  /** The body of the row loop of `extract`, with `current_category` as an index into `categories`. */
  method WalkRow(categories: seq<Category>, current: Option<nat>, row: ParsedRow)
    returns (cats: seq<Category>, cur: Option<nat>)
    requires current == LastIndex(categories)
    ensures cats == StepRow(categories, row)
    ensures cur == LastIndex(cats)
  {
    var kind := ClassifyRow(row);
    cats, cur := ApplyKind(categories, current, kind, row);
  }

  /** Lines 246-253: which branch of the loop body a row takes. */
  method ClassifyRow(row: ParsedRow) returns (kind: RowKind)
    ensures kind == Classify(row)
    ensures KindWellFormed(kind)
  {
    ClassifyWellFormed(row);
    var firstText := TextAt(row, 0);
    if firstText == [] {
      return Skipped;
    }
    var catMatch := MatchCategory(firstText);
    var secMatch := MatchSection(firstText);
    if catMatch.Some? && secMatch.None? {
      return CategoryRow(catMatch.value);
    }
    if secMatch.Some? {
      return SectionRow(secMatch.value);
    }
    return ContinuationRow;
  }

  /** Lines 253-313: the branch for a row of the given kind. */
  method ApplyKind(categories: seq<Category>, current: Option<nat>, kind: RowKind, row: ParsedRow)
    returns (cats: seq<Category>, cur: Option<nat>)
    requires current == LastIndex(categories)
    ensures cats == StepKind(categories, kind, row)
    ensures cur == LastIndex(cats)
  {
    match kind
    case Skipped =>
      cats, cur := categories, current;
    case CategoryRow(head) =>
      cats := AddCategoryRow(categories, head, row);
      CategoryStep(categories, head, row);
      cur := Some(|cats| - 1);
    case SectionRow(head) =>
      cats, cur := AddSectionRow(categories, current, head, row);
      SectionStep(categories, head, row);
    case ContinuationRow =>
      cats := ContinueRow(categories, current, row);
      ContinuationStep(categories, row);
      cur := current;
  }

  lemma CategoryStep(categories: seq<Category>, head: CategoryHead, row: ParsedRow)
    ensures StepKind(categories, CategoryRow(head), row) == categories + [NewCategory(head, row)]
  {
  }

  lemma SectionStep(categories: seq<Category>, head: SectionHead, row: ParsedRow)
    ensures StepKind(categories, SectionRow(head), row) == SectionAdded(categories, head, row)
  {
  }

  /** A continuation row never changes the number of categories. */
  lemma ContinuationStep(categories: seq<Category>, row: ParsedRow)
    ensures StepKind(categories, ContinuationRow, row) == Continuation(categories, row)
    ensures |Continuation(categories, row)| == |categories|
  {
  }

  /** Lines 253-264: a category row opens a new category. */
  method AddCategoryRow(categories: seq<Category>, head: CategoryHead, row: ParsedRow) returns (cats: seq<Category>)
    ensures cats == categories + [NewCategory(head, row)]
  {
    var description := TextAt(row, 1);
    var links := LinksAt(row, 1);
    cats := categories + [Category([head.letter], Strip(head.rest, Whitespace), description, links, [])];
  }

  /** Lines 300-313: a continuation row extends the last section of the current category, if it has one. */
  method ContinueRow(categories: seq<Category>, current: Option<nat>, row: ParsedRow) returns (cats: seq<Category>)
    requires current == LastIndex(categories)
    ensures cats == Continuation(categories, row)
  {
    cats := categories;
    if current.Some? && cats[current.value].sections != [] {
      var c := cats[current.value];
      var n := |c.sections|;
      var section := ContinueSection(c.sections[n - 1], Others(row));
      cats := cats[current.value := c.(sections := c.sections[n - 1 := section])];
    }
  }

  /** Lines 266-298: a section row, put into the current category or into a new `Misc` one. */
  method AddSectionRow(categories: seq<Category>, current: Option<nat>, head: SectionHead, row: ParsedRow)
    returns (cats: seq<Category>, cur: Option<nat>)
    requires current == LastIndex(categories)
    ensures cats == SectionAdded(categories, head, row)
    ensures cur == LastIndex(cats)
  {
    cats, cur := categories, current;
    if cur.None? || cats[cur.value].code != [head.letter] {
      cats := cats + [Category([head.letter], MiscTitle, [], [], [])];
      cur := Some(|cats| - 1);
    }
    var section := SectionOf(head, row);
    var c := cats[cur.value];
    cats := cats[cur.value := c.(sections := c.sections + [section])];
  }

  /** Lines 277-296: the section a section row describes. */
  method SectionOf(head: SectionHead, row: ParsedRow) returns (section: Section)
    ensures section == NewSection(head, row)
  {
    var status := TextAt(row, 1);
    var description := if |row| > 2 then TextAt(row, 2) else TextAt(row, 1);
    var links: seq<Link> := [];
    if |row| > 2 {
      links := links + row[2].links;
    }
    assert links == LinksAt(row, 2);
    if |row| > 1 {
      links := links + row[1].links;
    }
    assert links == LinksAt(row, 2) + LinksAt(row, 1);
    section := Section([head.letter] + head.digits, Strip(head.rest, Whitespace), status, description, links);
  }

  /** Lines 300-313: the last section extended by a continuation row's other cells. */
  method ContinueSection(s: Section, rest: seq<CellData>) returns (section: Section)
    ensures section == Continued(s, rest)
  {
    var extraText := Join(" ", NonEmpty([s.description, Join(" ", NonEmpty(CellsTexts(rest)))]));
    section := s.(description := Strip(extraText, Whitespace));
    var links := ExtendLinks(section.links, rest);
    section := section.(links := links);
  }

  /** Lines 312-313: the links of every cell appended, in order, to `links`. */
  method ExtendLinks(start: seq<Link>, rest: seq<CellData>) returns (links: seq<Link>)
    ensures links == start + ParsedCellsLinks(rest)
  {
    links := start;
    for j := 0 to |rest|
      invariant links == start + ParsedCellsLinks(rest[..j])
    {
      ParsedCellsLinksStep(rest, j);
      assert start + ParsedCellsLinks(rest[..j + 1]) == (start + ParsedCellsLinks(rest[..j])) + rest[j].links;
      links := links + rest[j].links;
    }
    assert rest[..|rest|] == rest;
  }

  lemma ParsedCellsLinksStep(cells: seq<CellData>, j: nat)
    requires j < |cells|
    ensures ParsedCellsLinks(cells[..j + 1]) == ParsedCellsLinks(cells[..j]) + cells[j].links
  {
    assert cells[..j + 1][..j] == cells[..j];
  }

  /** `[_parse_cell(cell, rel_map) for cell in cells]`. */
  function RowOf(cells: seq<Cell>, rels: Rels): (r: ParsedRow)
    ensures |r| == |cells|
    ensures forall j :: 0 <= j < |cells| ==> r[j] == CellOf(cells[j], rels)
  {
    seq(|cells|, j requires 0 <= j < |cells| => CellOf(cells[j], rels))
  }

  /** Line 245: every cell of a row through `_parse_cell`. */
  method ParseRow(cells: seq<Cell>, rels: Rels) returns (parsed: ParsedRow)
    ensures parsed == RowOf(cells, rels)
  {
    parsed := [];
    for j := 0 to |cells|
      invariant |parsed| == j
      invariant forall k :: 0 <= k < j ==> parsed[k] == CellOf(cells[k], rels)
    {
      var c := ParseCell(cells[j], rels);
      forall k | 0 <= k < j + 1
        ensures (parsed + [c])[k] == CellOf(cells[k], rels)
      {
        if k < j {
          assert (parsed + [c])[k] == parsed[k];
        } else {
          assert (parsed + [c])[k] == c;
        }
      }
      parsed := parsed + [c];
    }
    var expected := RowOf(cells, rels);
    forall k | 0 <= k < |cells|
      ensures parsed[k] == expected[k]
    {
    }
  }

  /** A row of the table: its `w:tc` cells. */
  type Row = seq<Cell>

  /** A `w:tbl` element: its `w:tr` rows. */
  type Table = seq<Row>

  /** The three `RuntimeError`s `extract` raises. */
  datatype ExtractError = BodyNotFound | TableNotFound | NoRows

  /** The rows after the header, parsed. */
  function ParsedRows(rows: seq<Row>, rels: Rels): (r: seq<ParsedRow>)
    ensures |r| == |rows|
  {
    if rows == [] then [] else ParsedRows(rows[..|rows| - 1], rels) + [RowOf(rows[|rows| - 1], rels)]
  }

  /**
   * What `extract` returns, given the tables of the document body (`None`
   * when there is no body): only the first table is read, and its first
   * row is skipped as the header.
   */
  function ExtractOf(body: Option<seq<Table>>, rels: Rels): Result<seq<Category>, ExtractError> {
    if body.None? then Err(BodyNotFound)
    else if body.value == [] then Err(TableNotFound)
    else if body.value[0] == [] then Err(NoRows)
    else Ok(WalkedRows(ParsedRows(body.value[0][1..], rels)))
  }

  /** Lines 225-315 of `extract`. */
  method Extract(body: Option<seq<Table>>, rels: Rels) returns (r: Result<seq<Category>, ExtractError>)
    ensures r == ExtractOf(body, rels)
  {
    if body.None? {
      return Err(BodyNotFound);
    }
    if body.value == [] {
      return Err(TableNotFound);
    }
    var rows := body.value[0];
    if rows == [] {
      return Err(NoRows);
    }
    var categories: seq<Category> := [];
    var current: Option<nat> := None;
    var data := rows[1..];
    for i := 0 to |data|
      invariant categories == WalkedRows(ParsedRows(data[..i], rels))
      invariant current == LastIndex(categories)
    {
      var parsed := ParseRow(data[i], rels);
      ExtractStep(data, i, rels);
      categories, current := WalkRow(categories, current, parsed);
    }
    assert data[..|data|] == data;
    return Ok(categories);
  }

  lemma ExtractStep(data: seq<Row>, i: nat, rels: Rels)
    requires i < |data|
    ensures WalkedRows(ParsedRows(data[..i + 1], rels)) == StepRow(WalkedRows(ParsedRows(data[..i], rels)), RowOf(data[i], rels))
  {
    assert data[..i + 1][..i] == data[..i];
    var rows := ParsedRows(data[..i + 1], rels);
    assert rows[..i] == ParsedRows(data[..i], rels);
  }
}
