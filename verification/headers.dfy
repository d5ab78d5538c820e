/**
 * The two heuristic extractors of main.go: `unmarshalRowFirst`, which reads
 * a sheet's identity from its first row, and `unmarshalOperator`, which reads
 * the signoff record from the bottom-most non-blank row. Both work on the
 * compacted row (blank cells dropped, order kept), so spacer cells between a
 * label and its value do not matter.
 */
module Headers {
  import opened Objects
  import opened Cells

  /** The key the third non-blank cell of the first row is stored under ("date"). */
  const DateKey: string := "日期"

  /**
   * unmarshalRowFirst: the first two non-blank cells become a pair, and a
   * third non-blank cell is stored under `DateKey`; any further cells are
   * ignored. The date write comes second, so it wins when the first cell is
   * itself `DateKey`.
   */
  function UnmarshalRowFirst(row: Row): (r: Object)
    ensures var s := Compact(row);
      && (|s| < 2 ==> r == map[])
      && (|s| == 2 ==> r == map[s[0] := Str(s[1])])
      && (|s| > 2 ==> r.Keys == {s[0], DateKey} && r[DateKey] == Str(s[2]))
      && (|s| > 2 && s[0] != DateKey ==> r[s[0]] == Str(s[1]))
    ensures |r| <= 2
  {
    var slice := Compact(row);
    var obj: Object := map[];
    var obj := if |slice| > 1 then obj[slice[0] := Str(slice[1])] else obj;
    if |slice| > 2 then obj[DateKey := Str(slice[2])] else obj
  }

  /** Blank cells anywhere in the first row do not change what it yields. */
  lemma RowFirstIgnoresBlank(a: Row, s: string, b: Row)
    requires IsSpace(s)
    ensures UnmarshalRowFirst(a + [s] + b) == UnmarshalRowFirst(a + b)
  {
    CompactDropsBlank(a, s, b);
  }

  /** The index of the bottom-most row at or above `i` that is not blank, scanning upwards. */
  function LastNonBlank(rows: Grid, i: int): (r: Option<nat>)
    requires i < |rows|
    ensures r.Some? ==> r.value <= i && !AllIsNil(rows[r.value])
    ensures r.Some? ==> forall j :: r.value < j <= i ==> AllIsNil(rows[j])
    ensures r.None? ==> forall j :: 0 <= j <= i ==> AllIsNil(rows[j])
    decreases i + 1
  {
    if i < 0 then None
    else if !AllIsNil(rows[i]) then Some(i)
    else LastNonBlank(rows, i - 1)
  }

  /**
   * The destructive consumption of the compacted trailer row: a front pair,
   * then a tail pair of what is left, then the first remaining cell mapped to
   * the list of the others. Each step only fires while at least two cells
   * remain, and later writes win on equal keys. In index terms, for `n`
   * cells: fewer than 2 give nothing; 2 or 3 give the front pair; 4 or 5 add
   * the tail pair `s[n-2] -> s[n-1]`; 6 or more also map `s[2]` to
   * `s[3..n-2]`.
   */
  function Consume(slice: seq<string>): (r: Object)
    ensures var n := |slice|;
      && (n < 2 ==> r == map[])
      && (2 <= n < 4 ==> r == map[slice[0] := Str(slice[1])])
      && (4 <= n < 6 ==> r == map[slice[0] := Str(slice[1]), slice[n - 2] := Str(slice[n - 1])])
      && (6 <= n ==> r == map[slice[0] := Str(slice[1]), slice[n - 2] := Str(slice[n - 1]),
                              slice[2] := Arr(slice[3..n - 2])])
  {
    var opt: Object := map[];
    var (opt, slice') := if |slice| > 1 then (opt[slice[0] := Str(slice[1])], slice[2..]) else (opt, slice);
    var (opt, slice'') :=
      if |slice'| > 1 then (opt[slice'[|slice'| - 2] := Str(slice'[|slice'| - 1])], slice'[..|slice'| - 2])
      else (opt, slice');
    assert |slice| >= 6 ==> slice''[0] == slice[2] && slice''[1..] == slice[3..|slice| - 2];
    if |slice''| > 1 then opt[slice''[0] := Arr(slice''[1..])] else opt
  }

  /** `rows[i]` is the row the trailer is read from: not blank, and only blank rows below it. */
  ghost predicate IsTrailerRow(rows: Grid, i: int)
  {
    && 0 <= i < |rows|
    && !AllIsNil(rows[i])
    && forall j :: i < j < |rows| ==> AllIsNil(rows[j])
  }

  /**
   * unmarshalOperator: the trailer record is read from the bottom-most row
   * that has a non-blank cell; the rows above it and the blank rows below it
   * play no part, and a grid with no such row yields the empty object.
   */
  function UnmarshalOperator(rows: Grid): (r: Object)
    ensures (forall i :: 0 <= i < |rows| ==> AllIsNil(rows[i])) ==> r == map[]
    ensures forall i :: IsTrailerRow(rows, i) ==> r == Consume(Compact(rows[i]))
  {
    match LastNonBlank(rows, |rows| - 1)
    case None => Consume([])
    case Some(k) =>
      assert forall i :: IsTrailerRow(rows, i) ==> i == k;
      Consume(Compact(rows[k]))
  }

  /** Rows above the trailer row do not change the record. */
  lemma OperatorIgnoresRowsAbove(above: Grid, row: Row, below: Grid)
    requires !AllIsNil(row)
    requires forall j :: 0 <= j < |below| ==> AllIsNil(below[j])
    ensures UnmarshalOperator(above + [row] + below) == UnmarshalOperator([row] + below)
  {
    TrailerAbove(above + [row] + below, |above|, row, below);
    TrailerAbove([row] + below, 0, row, below);
  }

  /** A non-blank row followed by blank rows only is the trailer row. */
  lemma TrailerAbove(g: Grid, i: nat, row: Row, below: Grid)
    requires i < |g| && g[i] == row && g[i + 1..] == below
    requires !AllIsNil(row)
    requires forall j :: 0 <= j < |below| ==> AllIsNil(below[j])
    ensures IsTrailerRow(g, i) && UnmarshalOperator(g) == Consume(Compact(row))
  {
    forall j | i < j < |g|
      ensures AllIsNil(g[j])
    {
      assert g[j] == below[j - i - 1];
    }
    assert IsTrailerRow(g, i);
  }

  /** The sample signoff row: two pairs, and no list since nothing is left after them. */
  lemma OperatorSample()
    ensures UnmarshalOperator([["x"], ["", "张三", "班长", "", "李四", "组长"], [], ["", " "]])
      == map["张三" := Str("班长"), "李四" := Str("组长")]
  {
    var row := ["", "张三", "班长", "", "李四", "组长"];
    var g := [["x"], row, [], ["", " "]];
    SampleRowCompacts();
    SampleConsume();
    SampleBlankRows();
    assert IsTrailerRow(g, 1);
  }

  lemma SampleBlankRows()
    ensures !AllIsNil(["", "张三", "班长", "", "李四", "组长"])
    ensures AllIsNil([]) && AllIsNil(["", " "])
  {
    var row := ["", "张三", "班长", "", "李四", "组长"];
    assert !IsSpace(row[1]);
    var tail := ["", " "];
    assert IsSpace(tail[1]);
  }

  lemma SampleConsume()
    ensures Consume(["张三", "班长", "李四", "组长"]) == map["张三" := Str("班长"), "李四" := Str("组长")]
  {
  }

  lemma SampleRowCompacts()
    ensures Compact(["", "张三", "班长", "", "李四", "组长"]) == ["张三", "班长", "李四", "组长"]
  {
    assert !IsSpace("张三") && !IsSpace("班长") && !IsSpace("李四") && !IsSpace("组长");
    CompactTwoGaps("", "张三", "班长", "", "李四", "组长");
  }

  /** The sample row's shape: a blank, two cells, a blank, two cells. */
  lemma CompactTwoGaps(e1: string, a: string, b: string, e2: string, c: string, d: string)
    requires IsSpace(e1) && IsSpace(e2)
    requires !IsSpace(a) && !IsSpace(b) && !IsSpace(c) && !IsSpace(d)
    ensures Compact([e1, a, b, e2, c, d]) == [a, b, c, d]
  {
    var row, rest, kept := [e1, a, b, e2, c, d], [a, b, e2, c, d], [a, b, c, d];
    assert row == [e1] + rest;
    DropFront(e1, rest);
    DropMiddle(a, b, e2, c, d);
    assert forall i :: 0 <= i < |kept| ==> !IsSpace(kept[i]);
    CompactKeepsNonBlank(kept);
    assert Compact(row) == Compact(rest) == Compact(kept) == kept;
  }

  lemma DropFront(e: string, rest: Row)
    requires IsSpace(e)
    ensures Compact([e] + rest) == Compact(rest)
  {
    assert [] + [e] + rest == [e] + rest;
    assert [] + rest == rest;
    CompactDropsBlank([], e, rest);
  }

  lemma DropMiddle(a: string, b: string, e: string, c: string, d: string)
    requires IsSpace(e)
    ensures Compact([a, b, e, c, d]) == Compact([a, b, c, d])
  {
    assert [a, b] + [e] + [c, d] == [a, b, e, c, d];
    assert [a, b] + [c, d] == [a, b, c, d];
    CompactDropsBlank([a, b], e, [c, d]);
  }
}
