/**
 * The page assembly of main.go: every sheet whose name classifies as a
 * number becomes one page of the output document, and each page holds
 * fourteen sections, each read by one extractor: twelve at fixed grid
 * coordinates, plus the header row and the signoff row.
 * The layout is kept as data (`Layout`), one entry per section in the order
 * main.go assigns them.
 */
module Pages {
  import opened Objects
  import opened Numbers
  import opened Cells
  import opened Headers
  import opened Pairs
  import opened Tables

  /** Which extractor reads a section, with the coordinates it is called with. */
  datatype Extractor =
    | RowFirst
    | Operator
    | Horizontal(x: int, y: int, width: int)
    | TableHorizontal(g: Region)
    | TableVertical(g: Region)
    | MultiVertical(x: int, y: int, width: int, height: int)

  datatype Section = Section(name: string, from: Extractor)

  /** The fourteen sections of a page, in the order main.go fills them. */
  const Layout: seq<Section> := [
    Section("基础信息", RowFirst),
    Section("操作人员", Operator),
    Section("炉号工艺卡", Horizontal(0, 1, 26)),
    Section("成分表", TableHorizontal(Region(0, 3, 26, 10))),
    Section("操作时间", TableVertical(Region(0, 14, 4, 16))),
    Section("治炼时间", TableVertical(Region(4, 14, 3, 16))),
    Section("操作造渣参数", TableVertical(Region(7, 14, 3, 5))),
    Section("治炼造渣参数", TableVertical(Region(10, 14, 4, 5))),
    Section("操作温度参数", TableVertical(Region(7, 20, 3, 5))),
    Section("治炼温度参数", TableVertical(Region(10, 20, 4, 5))),
    Section("电能消耗", MultiVertical(7, 26, 7, 4)),
    Section("成分调整时间", TableVertical(Region(14, 14, 6, 16))),
    Section("渣料统计", TableVertical(Region(20, 14, 5, 8))),
    Section("治炼结果", TableHorizontal(Region(0, 30, 10, 8)))
  ]

  /** The cells extractor `e` reads exist in `rows` (Go panics otherwise). */
  predicate CanRead(rows: Grid, e: Extractor)
  {
    match e
    case RowFirst => |rows| > 0
    case Operator => true
    case Horizontal(x, y, width) => HorizontalInBounds(rows, x, y, width)
    case TableHorizontal(g) => TableHorizontalInBounds(rows, g)
    case TableVertical(g) => TableVerticalInBounds(rows, g)
    case MultiVertical(x, y, width, height) => MultiVerticalInBounds(rows, x, y, width, height)
  }

  /** Runs one extractor and keeps only its object: the table extractors' names are discarded, as in main.go. */
  function Extract(rows: Grid, e: Extractor): (v: Value)
    requires CanRead(rows, e)
    ensures v.Obj?
  {
    match e
    case RowFirst => Obj(UnmarshalRowFirst(rows[0]))
    case Operator => Obj(UnmarshalOperator(rows))
    case Horizontal(x, y, width) => Obj(UnmarshalHorizontal(rows, x, y, width))
    case TableHorizontal(g) => Obj(UnmarshalTableHorizontal(rows, g).1)
    case TableVertical(g) => Obj(UnmarshalTableVertical(rows, g).1)
    case MultiVertical(x, y, width, height) => Obj(UnmarshalMultiVertical(rows, x, y, width, height))
  }

  /**
   * What each extractor's object is, by that extractor's own characterisation:
   * the header record of row 0, the signoff record of the trailer row (`{}`
   * when every row is blank), the pair map (`{}` for no columns), the
   * column- or row-wise sub-tables (never under ""), or the lead map (`{}`
   * for no rows or a slice one cell wide).
   */
  ghost predicate Characterised(rows: Grid, e: Extractor, o: Object)
    requires CanRead(rows, e)
  {
    match e
    case RowFirst => o == UnmarshalRowFirst(rows[0])
    case Operator =>
      && ((forall i :: 0 <= i < |rows| ==> AllIsNil(rows[i])) ==> o == map[])
      && (forall i :: IsTrailerRow(rows, i) ==> o == Consume(Compact(rows[i])))
    case Horizontal(x, y, width) =>
      && (width <= 0 ==> o == map[])
      && (width > 0 ==> IsRowPairMap(o, rows, y, y + 1, x, x + width))
    case TableHorizontal(g) => IsColumnTables(o, rows, g) && "" !in o
    case TableVertical(g) => IsRowTables(o, rows, g) && "" !in o
    case MultiVertical(x, y, width, height) =>
      && (height <= 0 || width <= 1 ==> o == map[])
      && (height > 0 ==> IsLeadMap(o, rows, x, width, y, y + height))
  }

  /** Each section's object is the one its extractor's own characterisation describes. */
  lemma ExtractMeaning(rows: Grid, e: Extractor)
    requires CanRead(rows, e)
    ensures Characterised(rows, e, Extract(rows, e).fields)
  {
    var o := Extract(rows, e).fields;
    match e
    case RowFirst =>
    case Operator =>
      assert o == UnmarshalOperator(rows);
    case Horizontal(x, y, width) =>
      assert o == UnmarshalHorizontal(rows, x, y, width);
    case TableHorizontal(g) =>
      assert o == UnmarshalTableHorizontal(rows, g).1;
    case TableVertical(g) =>
      assert o == UnmarshalTableVertical(rows, g).1;
    case MultiVertical(x, y, width, height) =>
      assert o == UnmarshalMultiVertical(rows, x, y, width, height);
  }

  predicate ReadsAll(rows: Grid, ls: seq<Section>)
  {
    forall i :: 0 <= i < |ls| ==> CanRead(rows, ls[i].from)
  }

  /** Every section of a page can be read from `rows`. */
  predicate PageInBounds(rows: Grid)
  {
    ReadsAll(rows, Layout)
  }

  predicate DistinctNames(ls: seq<Section>)
  {
    forall i, j :: 0 <= i < j < |ls| ==> ls[i].name != ls[j].name
  }

  function SectionWrites(rows: Grid, ls: seq<Section>): (ws: seq<Write<Value>>)
    requires ReadsAll(rows, ls)
    ensures |ws| == |ls|
    ensures forall i :: 0 <= i < |ws| ==> ws[i] == Put(ls[i].name, Extract(rows, ls[i].from))
  {
    seq(|ls|, i requires 0 <= i < |ls| => Put(ls[i].name, Extract(rows, ls[i].from)))
  }

  /**
   * Fills a page section by section: its keys are the sections' names, and
   * when the names are distinct each holds what its extractor reads.
   */
  function RunLayout(rows: Grid, ls: seq<Section>): (page: Object)
    requires ReadsAll(rows, ls)
    ensures forall k :: k in page <==> exists i :: 0 <= i < |ls| && ls[i].name == k
    ensures DistinctNames(ls) ==>
              forall i :: 0 <= i < |ls| ==> ls[i].name in page && page[ls[i].name] == Extract(rows, ls[i].from)
  {
    var ws := SectionWrites(rows, ls);
    LayoutMeaning(rows, ls, ws, Apply(map[], ws));
    Apply(map[], ws)
  }

  lemma LayoutMeaning(rows: Grid, ls: seq<Section>, ws: seq<Write<Value>>, page: Object)
    requires ReadsAll(rows, ls)
    requires |ws| == |ls|
    requires forall i :: 0 <= i < |ws| ==> ws[i] == Put(ls[i].name, Extract(rows, ls[i].from))
    requires LastWriteWins(page, map[], ws)
    ensures forall k :: k in page <==> exists i :: 0 <= i < |ls| && ls[i].name == k
    ensures DistinctNames(ls) ==>
              forall i :: 0 <= i < |ls| ==> ls[i].name in page && page[ls[i].name] == Extract(rows, ls[i].from)
  {
    forall k
      ensures Written(ws, k) <==> exists i :: 0 <= i < |ls| && ls[i].name == k
    {
      if exists i :: 0 <= i < |ls| && ls[i].name == k {
        var i :| 0 <= i < |ls| && ls[i].name == k;
        assert ws[i].Put? && ws[i].key == k;
      }
    }
    if DistinctNames(ls) {
      forall i | 0 <= i < |ls|
        ensures LastWrite(ws, i)
      {
        assert ws[i].key == ls[i].name;
      }
    }
  }

  /** The names of the sections of `ls`. */
  ghost function NameSet(ls: seq<Section>): set<string>
  {
    set i | 0 <= i < |ls| :: ls[i].name
  }

  /** Distinct names give a page one key per section. */
  lemma {:induction false} DistinctNamesCount(ls: seq<Section>)
    requires DistinctNames(ls)
    ensures |NameSet(ls)| == |ls|
  {
    if |ls| > 0 {
      var front := ls[..|ls| - 1];
      assert DistinctNames(front);
      DistinctNamesCount(front);
      assert NameSet(ls) == NameSet(front) + {ls[|ls| - 1].name} by {
        forall k | k in NameSet(ls)
          ensures k in NameSet(front) + {ls[|ls| - 1].name}
        {
          var i :| 0 <= i < |ls| && ls[i].name == k;
          if i < |ls| - 1 {
            assert front[i].name == k;
          }
        }
      }
      assert ls[|ls| - 1].name !in NameSet(front);
    }
  }

  /** No two sections of the layout share a name. */
  lemma LayoutNamesDistinct()
    ensures DistinctNames(Layout)
  {
    LayoutFrontDistinct();
    LayoutBackDistinct();
    LayoutHalvesDistinct();
  }

  lemma LayoutFrontDistinct()
    ensures forall i, j :: 0 <= i < j < 7 ==> Layout[i].name != Layout[j].name
  {
  }

  lemma LayoutBackDistinct()
    ensures forall i, j :: 7 <= i < j < 14 ==> Layout[i].name != Layout[j].name
  {
  }

  lemma LayoutHalvesDistinct()
    ensures forall i, j :: 0 <= i < 7 <= j < 14 ==> Layout[i].name != Layout[j].name
  {
  }

  /**
   * One page: one key per section of the layout, fourteen in all, each
   * holding the object its extractor reads at the section's coordinates.
   */
  function AssemblePage(rows: Grid): (page: Object)
    requires PageInBounds(rows)
    ensures page.Keys == NameSet(Layout) && |page| == 14
    ensures forall i :: 0 <= i < |Layout| ==> Layout[i].name in page && page[Layout[i].name] == Extract(rows, Layout[i].from)
  {
    var page := RunLayout(rows, Layout);
    PageKeys(rows, page);
    page
  }

  lemma PageKeys(rows: Grid, page: Object)
    requires PageInBounds(rows)
    requires page == RunLayout(rows, Layout)
    ensures page.Keys == NameSet(Layout) && |page| == 14
    ensures forall i :: 0 <= i < |Layout| ==> Layout[i].name in page && page[Layout[i].name] == Extract(rows, Layout[i].from)
  {
    LayoutNamesDistinct();
    RunLayoutKeys(rows, Layout, page);
  }

  /** With distinct names, the page has exactly one key per section. */
  lemma RunLayoutKeys(rows: Grid, ls: seq<Section>, page: Object)
    requires ReadsAll(rows, ls) && DistinctNames(ls)
    requires page == RunLayout(rows, ls)
    ensures page.Keys == NameSet(ls) && |page| == |ls|
  {
    DistinctNamesCount(ls);
    assert page.Keys == NameSet(ls);
  }

  // ---- the document ----

  /** A worksheet: its name and its rows as the spreadsheet reader returns them. */
  datatype Sheet = Sheet(name: string, rows: Grid)

  /** Every sheet that becomes a page can be read in full. */
  predicate DocumentInBounds(sheets: seq<Sheet>)
  {
    forall i :: 0 <= i < |sheets| ==> (IsNumber(sheets[i].name) ==> PageInBounds(sheets[i].rows))
  }

  /** A sheet adds its page under its own name when the name classifies as a number, and nothing otherwise. */
  function SheetWrite(s: Sheet): Write<Value>
    requires IsNumber(s.name) ==> PageInBounds(s.rows)
  {
    if IsNumber(s.name) then Put(s.name, Obj(AssemblePage(s.rows))) else Skip
  }

  function SheetWrites(sheets: seq<Sheet>): (ws: seq<Write<Value>>)
    requires DocumentInBounds(sheets)
    ensures |ws| == |sheets|
    ensures forall i :: 0 <= i < |ws| ==> ws[i] == SheetWrite(sheets[i])
  {
    seq(|sheets|, i requires 0 <= i < |sheets| => SheetWrite(sheets[i]))
  }

  /** Sheet `i` becomes a page, and no later sheet that becomes a page has its name. */
  ghost predicate LastPage(sheets: seq<Sheet>, i: int)
  {
    && 0 <= i < |sheets|
    && IsNumber(sheets[i].name)
    && forall j :: i < j < |sheets| && IsNumber(sheets[j].name) ==> sheets[j].name != sheets[i].name
  }

  /**
   * The document of one workbook: its keys are exactly the names of the
   * sheets that classify as numbers, and each holds the page of the last
   * such sheet with that name. Other sheets leave no trace.
   */
  function AssembleDocument(sheets: seq<Sheet>): (doc: Object)
    requires DocumentInBounds(sheets)
    ensures forall k :: k in doc <==> exists i :: 0 <= i < |sheets| && IsNumber(sheets[i].name) && sheets[i].name == k
    ensures forall i :: LastPage(sheets, i) ==>
              sheets[i].name in doc && doc[sheets[i].name] == Obj(AssemblePage(sheets[i].rows))
  {
    var ws := SheetWrites(sheets);
    DocumentMeaning(sheets, ws, Apply(map[], ws));
    Apply(map[], ws)
  }

  lemma DocumentMeaning(sheets: seq<Sheet>, ws: seq<Write<Value>>, doc: Object)
    requires DocumentInBounds(sheets)
    requires |ws| == |sheets|
    requires forall i :: 0 <= i < |ws| ==> ws[i] == SheetWrite(sheets[i])
    requires LastWriteWins(doc, map[], ws)
    ensures forall k :: k in doc <==> exists i :: 0 <= i < |sheets| && IsNumber(sheets[i].name) && sheets[i].name == k
    ensures forall i :: LastPage(sheets, i) ==>
              sheets[i].name in doc && doc[sheets[i].name] == Obj(AssemblePage(sheets[i].rows))
  {
    DocumentKeys(sheets, ws, doc);
    forall i | LastPage(sheets, i)
      ensures sheets[i].name in doc && doc[sheets[i].name] == Obj(AssemblePage(sheets[i].rows))
    {
      LastPageWrites(sheets, ws, i);
      SheetWriteAt(sheets, ws, i);
    }
  }

  /** The write of sheet `i` puts exactly when its name is a number, under that name. */
  lemma SheetWriteAt(sheets: seq<Sheet>, ws: seq<Write<Value>>, i: int)
    requires DocumentInBounds(sheets)
    requires |ws| == |sheets|
    requires forall i :: 0 <= i < |ws| ==> ws[i] == SheetWrite(sheets[i])
    requires 0 <= i < |ws|
    ensures ws[i].Put? <==> IsNumber(sheets[i].name)
    ensures ws[i].Put? ==> ws[i].key == sheets[i].name && ws[i].val == Obj(AssemblePage(sheets[i].rows))
  {
    assert ws[i] == SheetWrite(sheets[i]);
  }

  lemma DocumentKeys(sheets: seq<Sheet>, ws: seq<Write<Value>>, doc: Object)
    requires DocumentInBounds(sheets)
    requires |ws| == |sheets|
    requires forall i :: 0 <= i < |ws| ==> ws[i] == SheetWrite(sheets[i])
    requires LastWriteWins(doc, map[], ws)
    ensures forall k :: k in doc <==> exists i :: 0 <= i < |sheets| && IsNumber(sheets[i].name) && sheets[i].name == k
  {
    forall k | Written(ws, k)
      ensures exists i :: 0 <= i < |sheets| && IsNumber(sheets[i].name) && sheets[i].name == k
    {
      var i :| 0 <= i < |ws| && ws[i].Put? && ws[i].key == k;
      SheetWriteAt(sheets, ws, i);
    }
    forall i | 0 <= i < |sheets| && IsNumber(sheets[i].name)
      ensures Written(ws, sheets[i].name)
    {
      SheetWriteAt(sheets, ws, i);
    }
  }

  /** The last sheet to become a page under a name makes the last write to it. */
  lemma LastPageWrites(sheets: seq<Sheet>, ws: seq<Write<Value>>, i: int)
    requires DocumentInBounds(sheets)
    requires |ws| == |sheets|
    requires forall i :: 0 <= i < |ws| ==> ws[i] == SheetWrite(sheets[i])
    requires LastPage(sheets, i)
    ensures LastWrite(ws, i)
  {
    SheetWriteAt(sheets, ws, i);
    forall j | i < j < |ws|
      ensures !(ws[j].Put? && ws[j].key == ws[i].key)
    {
      SheetWriteAt(sheets, ws, j);
    }
  }
}
