/**
 * What the row walk of `extract` guarantees: how one row, and then the
 * whole table, changes the list of categories.
 */
module RowProperties {
  import opened Wrappers
  import opened Seqs
  import opened Text
  import opened Runs
  import opened Cells
  import opened Patterns
  import opened Rows

  /** A section of the category with letter `letter`: its code is that letter followed by one or more digits, and its description is stripped. */
  ghost predicate SectionWellFormed(s: Section, letter: char) {
    |s.code| >= 2 && s.code[0] == letter && (forall i :: 1 <= i < |s.code| ==> IsDigit(s.code[i]))
    && Stripped(s.description)
  }

  /** A category code is one capital letter, and each of its sections is well-formed for that letter. */
  ghost predicate CategoryWellFormed(c: Category) {
    |c.code| == 1 && IsUpper(c.code[0])
    && forall j :: 0 <= j < |c.sections| ==> SectionWellFormed(c.sections[j], c.code[0])
  }

  ghost predicate WellFormed(categories: seq<Category>) {
    forall i :: 0 <= i < |categories| ==> CategoryWellFormed(categories[i])
  }

  /** `b` is `a` after more rows: its code, title and status kept, its description and links only added to. */
  ghost predicate SectionExtends(a: Section, b: Section) {
    b.code == a.code && b.title == a.title && b.status == a.status
    && a.description <= b.description && a.links <= b.links
  }

  /** `b` is `a` after more rows: its own fields kept, its sections only extended and added to. */
  ghost predicate CategoryExtends(a: Category, b: Category) {
    b.code == a.code && b.title == a.title && b.description == a.description && b.links == a.links
    && |a.sections| <= |b.sections|
    && forall j :: 0 <= j < |a.sections| ==> SectionExtends(a.sections[j], b.sections[j])
  }

  /** `b` is `a` after more rows: categories are only appended and extended, never removed, reordered or renamed. */
  ghost predicate Extends(a: seq<Category>, b: seq<Category>) {
    |a| <= |b| && forall i :: 0 <= i < |a| ==> CategoryExtends(a[i], b[i])
  }

  lemma ExtendsTransitive(a: seq<Category>, b: seq<Category>, c: seq<Category>)
    requires Extends(a, b) && Extends(b, c)
    ensures Extends(a, c)
  {
    forall i | 0 <= i < |a|
      ensures CategoryExtends(a[i], c[i])
    {
      assert CategoryExtends(a[i], b[i]) && CategoryExtends(b[i], c[i]);
      forall j | 0 <= j < |a[i].sections|
        ensures SectionExtends(a[i].sections[j], c[i].sections[j])
      {
        assert SectionExtends(a[i].sections[j], b[i].sections[j]);
        assert SectionExtends(b[i].sections[j], c[i].sections[j]);
      }
    }
  }

  /** The category a section row goes into: the last one if it has the section's letter, else a new empty `Misc` one. */
  function Target(categories: seq<Category>, letter: char): Category {
    if categories != [] && categories[|categories| - 1].code == [letter] then categories[|categories| - 1]
    else Category([letter], MiscTitle, [], [], [])
  }

  /** The categories before the target: all but the last when the last is reused, all otherwise. */
  function BeforeTarget(categories: seq<Category>, letter: char): seq<Category> {
    if categories != [] && categories[|categories| - 1].code == [letter] then categories[..|categories| - 1]
    else categories
  }

  /** A section `s` with letter `letter` lands at the end of the target category; nothing else changes. */
  lemma AddSectionLands(categories: seq<Category>, letter: char, s: Section)
    ensures var target := Target(categories, letter);
      AddSection(WithCategory(categories, letter), s)
        == BeforeTarget(categories, letter) + [target.(sections := target.sections + [s])]
  {
    var w := WithCategory(categories, letter);
    var last := w[|w| - 1];
    UpdateLast(w, last.(sections := last.sections + [s]));
    if !(categories != [] && categories[|categories| - 1].code == [letter]) {
      AppendOneInit(categories, Category([letter], MiscTitle, [], [], []));
    }
  }

  /**
   * A section row puts its section at the end of a category with the
   * section's letter: the last category if it has that letter, else a new
   * `Misc` one; nothing else changes.
   */
  lemma SectionRowLands(categories: seq<Category>, head: SectionHead, row: ParsedRow)
    ensures var target := Target(categories, head.letter);
      SectionAdded(categories, head, row)
        == BeforeTarget(categories, head.letter) + [target.(sections := target.sections + [NewSection(head, row)])]
  {
    AddSectionLands(categories, head.letter, NewSection(head, row));
  }

  /** Replacing the last section touches only the last category, and in it only the last section. */
  lemma ReplaceLastSectionEffect(categories: seq<Category>, s: Section)
    requires HasLastSection(categories)
    ensures var last := categories[|categories| - 1];
      ReplaceLastSection(categories, s)
        == categories[..|categories| - 1] + [last.(sections := last.sections[..|last.sections| - 1] + [s])]
  {
    var last := categories[|categories| - 1];
    UpdateLast(last.sections, s);
    UpdateLast(categories, last.(sections := last.sections[|last.sections| - 1 := s]));
  }

  /** A continuation row replaces the last section of the last category by its continuation; nothing else changes. */
  lemma ContinuationEffect(categories: seq<Category>, row: ParsedRow)
    requires HasLastSection(categories)
    ensures var last := categories[|categories| - 1];
      Continuation(categories, row)
        == categories[..|categories| - 1] + [last.(sections := last.sections[..|last.sections| - 1] + [Continued(LastSection(categories), Others(row))])]
  {
    ReplaceLastSectionEffect(categories, Continued(LastSection(categories), Others(row)));
  }

  /** Every cell text of a parsed row is stripped, as `_parse_cell` leaves it. */
  ghost predicate RowStripped(row: ParsedRow) {
    forall i :: 0 <= i < |row| ==> Stripped(row[i].text)
  }

  lemma RowOfStripped(cells: seq<Cell>, rels: Rels)
    ensures RowStripped(RowOf(cells, rels))
  {
    var row := RowOf(cells, rels);
    forall i | 0 <= i < |row|
      ensures Stripped(row[i].text)
    {
      CellTextStripped(cells[i]);
    }
  }

  /** `_parse_cell` returns a stripped text. */
  lemma CellTextStripped(cell: Cell)
    ensures Stripped(CellText(cell))
  {
    var joined := Join("\n", NonEmpty(ParagraphTexts(cell)));
    assert CellText(cell) == Strip(joined, Whitespace);
  }

  /** Every row `ParsedRows` gives has stripped cell texts. */
  lemma {:induction false} ParsedRowsStripped(rows: seq<Row>, rels: Rels)
    ensures forall k :: 0 <= k < |ParsedRows(rows, rels)| ==> RowStripped(ParsedRows(rows, rels)[k])
    decreases |rows|
  {
    if rows != [] {
      ParsedRowsStripped(rows[..|rows| - 1], rels);
      RowOfStripped(rows[|rows| - 1], rels);
    }
  }

  /** `filter(None, [d, extra])`, spelled out. */
  lemma PairNonEmpty(d: string, extra: string)
    ensures NonEmpty([d, extra]) == (if d == [] then [] else [d]) + (if extra == [] then [] else [extra])
  {
    assert [d, extra][..1] == [d];
    assert [d][..0] == [];
  }

  /**
   * `" ".join(filter(None, [d, extra])).strip()` for stripped `d` and
   * `extra`: `d`, a space and `extra`, or whichever of the two is non-empty.
   */
  lemma PairJoined(d: string, extra: string)
    requires Stripped(d) && Stripped(extra)
    ensures Strip(Join(" ", NonEmpty([d, extra])), Whitespace)
      == if extra == [] then d else if d == [] then extra else d + " " + extra
  {
    PairNonEmpty(d, extra);
    var j := Join(" ", NonEmpty([d, extra]));
    if d != [] && extra != [] {
      assert j == Join(" ", [d]) + " " + extra;
    }
    StripNoop(j, Whitespace);
  }

  /** A stripped `d` stays at the front of `" ".join(filter(None, [d, extra])).strip()`, whatever `extra` is. */
  lemma PairKeepsFirst(d: string, extra: string)
    requires Stripped(d)
    ensures d <= Strip(Join(" ", NonEmpty([d, extra])), Whitespace)
  {
    PairNonEmpty(d, extra);
    var j := Join(" ", NonEmpty([d, extra]));
    if d != [] {
      if extra != [] {
        assert j == Join(" ", [d]) + " " + extra;
      }
      StripKeepsPrefix(d, j, Whitespace);
    }
  }

  /**
   * A continuation appends the other cells' texts to the description: the
   * old description, a space and the new text, or whichever of the two is
   * non-empty.
   */
  lemma ContinuedAppends(s: Section, rest: seq<CellData>)
    requires Stripped(s.description) && RowStripped(rest)
    ensures var extra := Join(" ", NonEmpty(CellsTexts(rest)));
      Continued(s, rest).description
        == if extra == [] then s.description
           else if s.description == [] then extra
           else s.description + " " + extra
  {
    var texts := CellsTexts(rest);
    JoinStrippedParts(" ", texts);
    PairJoined(s.description, Join(" ", NonEmpty(texts)));
  }

  /** A continuation keeps the section's code, title and status; the old description stays at the front of the new one, and links are only added. */
  lemma ContinuedExtends(s: Section, rest: seq<CellData>)
    requires Stripped(s.description)
    ensures SectionExtends(s, Continued(s, rest))
  {
    PairKeepsFirst(s.description, Join(" ", NonEmpty(CellsTexts(rest))));
  }

  lemma AppendWellFormed(categories: seq<Category>, c: Category)
    requires WellFormed(categories) && CategoryWellFormed(c)
    ensures WellFormed(categories + [c])
  {
  }

  lemma WithSectionWellFormed(c: Category, s: Section, keep: nat)
    requires CategoryWellFormed(c) && keep <= |c.sections| && SectionWellFormed(s, c.code[0])
    ensures CategoryWellFormed(c.(sections := c.sections[..keep] + [s]))
  {
  }

  /** A well-formed section with letter `letter` keeps the categories well-formed, wherever it lands. */
  lemma AddSectionWellFormed(categories: seq<Category>, letter: char, s: Section)
    requires WellFormed(categories) && IsUpper(letter) && SectionWellFormed(s, letter)
    ensures WellFormed(AddSection(WithCategory(categories, letter), s))
  {
    var target := Target(categories, letter);
    AddSectionLands(categories, letter, s);
    assert CategoryWellFormed(target);
    WithSectionWellFormed(target, s, |target.sections|);
    assert target.sections[..|target.sections|] == target.sections;
    AppendWellFormed(BeforeTarget(categories, letter), target.(sections := target.sections + [s]));
  }

  lemma SectionAddedWellFormed(categories: seq<Category>, head: SectionHead, row: ParsedRow)
    requires WellFormed(categories) && HeadWellFormed(head) && RowStripped(row)
    ensures WellFormed(SectionAdded(categories, head, row))
  {
    assert Stripped(NewSection(head, row).description);
    var code := NewSection(head, row).code;
    assert code == [head.letter] + head.digits;
    forall i | 1 <= i < |code|
      ensures IsDigit(code[i])
    {
      assert code[i] == head.digits[i - 1];
    }
    AddSectionWellFormed(categories, head.letter, NewSection(head, row));
  }

  /** Replacing the last section by one with the same code and a stripped description keeps the categories well-formed. */
  lemma ReplaceLastSectionWellFormed(categories: seq<Category>, s: Section)
    requires WellFormed(categories) && HasLastSection(categories)
    requires s.code == LastSection(categories).code && Stripped(s.description)
    ensures WellFormed(ReplaceLastSection(categories, s))
  {
    var last := categories[|categories| - 1];
    ReplaceLastSectionEffect(categories, s);
    assert CategoryWellFormed(last);
    WithSectionWellFormed(last, s, |last.sections| - 1);
    AppendWellFormed(categories[..|categories| - 1], last.(sections := last.sections[..|last.sections| - 1] + [s]));
  }

  lemma ContinuationWellFormed(categories: seq<Category>, row: ParsedRow)
    requires WellFormed(categories)
    ensures WellFormed(Continuation(categories, row))
  {
    if HasLastSection(categories) {
      ReplaceLastSectionWellFormed(categories, Continued(LastSection(categories), Others(row)));
    }
  }

  lemma StepKindWellFormed(categories: seq<Category>, kind: RowKind, row: ParsedRow)
    requires WellFormed(categories) && KindWellFormed(kind) && RowStripped(row)
    ensures WellFormed(StepKind(categories, kind, row))
  {
    match kind
    case Skipped =>
    case CategoryRow(head) =>
      AppendWellFormed(categories, NewCategory(head, row));
    case SectionRow(head) =>
      SectionAddedWellFormed(categories, head, row);
    case ContinuationRow =>
      ContinuationWellFormed(categories, row);
  }

  /** One row with stripped cell texts keeps the categories well-formed. */
  lemma StepRowWellFormed(categories: seq<Category>, row: ParsedRow)
    requires WellFormed(categories) && RowStripped(row)
    ensures WellFormed(StepRow(categories, row))
  {
    ClassifyWellFormed(row);
    StepKindWellFormed(categories, Classify(row), row);
  }

  lemma ReplaceLastExtends(categories: seq<Category>, c: Category)
    requires categories != [] && CategoryExtends(categories[|categories| - 1], c)
    ensures Extends(categories, categories[..|categories| - 1] + [c])
  {
  }

  lemma AppendExtends(categories: seq<Category>, c: Category)
    ensures Extends(categories, categories + [c])
  {
  }

  lemma WithSectionExtends(c: Category, s: Section, keep: nat)
    requires keep <= |c.sections|
    requires keep < |c.sections| ==> keep == |c.sections| - 1 && SectionExtends(c.sections[keep], s)
    ensures CategoryExtends(c, c.(sections := c.sections[..keep] + [s]))
  {
  }

  /** Adding a section, wherever it lands, only appends. */
  lemma AddSectionExtends(categories: seq<Category>, letter: char, s: Section)
    ensures Extends(categories, AddSection(WithCategory(categories, letter), s))
  {
    var target := Target(categories, letter);
    AddSectionLands(categories, letter, s);
    assert target.sections[..|target.sections|] == target.sections;
    if categories != [] && categories[|categories| - 1].code == [letter] {
      WithSectionExtends(target, s, |target.sections|);
      ReplaceLastExtends(categories, target.(sections := target.sections + [s]));
    } else {
      AppendExtends(categories, target.(sections := target.sections + [s]));
    }
  }

  /** Replacing the last section by an extension of it only extends. */
  lemma ReplaceLastSectionExtends(categories: seq<Category>, s: Section)
    requires HasLastSection(categories) && SectionExtends(LastSection(categories), s)
    ensures Extends(categories, ReplaceLastSection(categories, s))
  {
    var last := categories[|categories| - 1];
    ReplaceLastSectionEffect(categories, s);
    WithSectionExtends(last, s, |last.sections| - 1);
    ReplaceLastExtends(categories, last.(sections := last.sections[..|last.sections| - 1] + [s]));
  }

  lemma ContinuationExtends(categories: seq<Category>, row: ParsedRow)
    requires WellFormed(categories)
    ensures Extends(categories, Continuation(categories, row))
  {
    if HasLastSection(categories) {
      assert CategoryWellFormed(categories[|categories| - 1]);
      ContinuedExtends(LastSection(categories), Others(row));
      ReplaceLastSectionExtends(categories, Continued(LastSection(categories), Others(row)));
    }
  }

  lemma StepKindExtends(categories: seq<Category>, kind: RowKind, row: ParsedRow)
    requires WellFormed(categories)
    ensures Extends(categories, StepKind(categories, kind, row))
  {
    match kind
    case Skipped =>
    case CategoryRow(head) =>
      AppendExtends(categories, NewCategory(head, row));
    case SectionRow(head) =>
      AddSectionExtends(categories, head.letter, NewSection(head, row));
    case ContinuationRow =>
      ContinuationExtends(categories, row);
  }

  /** On well-formed categories, one row only appends categories and sections and extends descriptions and links. */
  lemma StepRowExtends(categories: seq<Category>, row: ParsedRow)
    requires WellFormed(categories)
    ensures Extends(categories, StepRow(categories, row))
  {
    StepKindExtends(categories, Classify(row), row);
  }

  /** Every prefix of the table: the categories stay well-formed. */
  lemma {:induction false} WalkedRowsWellFormed(rows: seq<ParsedRow>)
    requires forall k :: 0 <= k < |rows| ==> RowStripped(rows[k])
    ensures WellFormed(WalkedRows(rows))
    decreases |rows|
  {
    if rows != [] {
      assert forall k :: 0 <= k < |rows| - 1 ==> rows[..|rows| - 1][k] == rows[k];
      WalkedRowsWellFormed(rows[..|rows| - 1]);
      StepRowWellFormed(WalkedRows(rows[..|rows| - 1]), rows[|rows| - 1]);
    }
  }

  /** What the first `k` rows built is never undone by the rows after them. */
  lemma {:induction false} WalkedRowsExtend(rows: seq<ParsedRow>, k: nat)
    requires k <= |rows|
    requires forall i :: 0 <= i < |rows| ==> RowStripped(rows[i])
    ensures Extends(WalkedRows(rows[..k]), WalkedRows(rows))
    decreases |rows| - k
  {
    if k == |rows| {
      assert rows[..k] == rows;
    } else {
      var init := rows[..|rows| - 1];
      assert init[..k] == rows[..k];
      assert forall i :: 0 <= i < |init| ==> init[i] == rows[i];
      WalkedRowsExtend(init, k);
      WalkedRowsWellFormed(init);
      StepRowExtends(WalkedRows(init), rows[|rows| - 1]);
      ExtendsTransitive(WalkedRows(rows[..k]), WalkedRows(init), WalkedRows(rows));
    }
  }

  /** `extract` fails exactly on a missing body, table or row, and otherwise returns well-formed categories. */
  lemma ExtractFacts(body: Option<seq<Table>>, rels: Rels)
    ensures ExtractOf(body, rels).Err? <==> body.None? || body.value == [] || body.value[0] == []
    ensures ExtractOf(body, rels).Ok? ==> WellFormed(ExtractOf(body, rels).value)
  {
    if ExtractOf(body, rels).Ok? {
      ParsedRowsStripped(body.value[0][1..], rels);
      WalkedRowsWellFormed(ParsedRows(body.value[0][1..], rels));
    }
  }

  /** Only the first table of the body is read. */
  lemma ExtractFirstTable(first: Table, others: seq<Table>, rels: Rels)
    ensures ExtractOf(Some([first] + others), rels) == ExtractOf(Some([first]), rels)
  {
  }
}
