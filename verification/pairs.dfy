/**
 * The flat key/value extractors of main.go: `unmarshalHorizontal` (keys in
 * one row, values in the row below), `unmarshalVertical` (keys in one
 * column, values in the column to its right) and `unmarshalMultiVertical`
 * (each row compacted, its first two survivors a pair).
 *
 * The first two test cells against the empty string exactly: a cell of
 * spaces is a key or a value like any other. A pair is dropped only when
 * both its key and its value are "", so `"" -> v` and `k -> ""` are kept.
 */
module Pairs {
  import opened Objects
  import opened Cells

  /** A key cell and a value cell are stored unless both are exactly "". */
  predicate Emits(key: string, val: string)
  {
    key != "" || val != ""
  }

  /** One iteration of the pair loops. */
  function PairWrite(key: string, val: string): Write<Value>
  {
    if Emits(key, val) then Put(key, Str(val)) else Skip
  }

  // ---- Keys in row `kr`, values in row `vr`, columns `lo` to `hi - 1` ----

  ghost predicate RowsHold(rows: Grid, kr: int, vr: int, lo: int, hi: int)
  {
    0 <= kr < |rows| && 0 <= vr < |rows| && 0 <= lo <= hi && hi <= |rows[kr]| && hi <= |rows[vr]|
  }

  /**
   * `r` is the object the pair loop builds over columns `lo..hi-1`: a key is
   * present iff some column emits it, and it holds the value of the
   * right-most column that emits it.
   */
  ghost predicate IsRowPairMap(r: Object, rows: Grid, kr: int, vr: int, lo: int, hi: int)
    requires RowsHold(rows, kr, vr, lo, hi)
  {
    && (forall k :: k in r <==> exists c :: lo <= c < hi && Emits(rows[kr][c], rows[vr][c]) && rows[kr][c] == k)
    && (forall c ::
          (&& lo <= c < hi
           && Emits(rows[kr][c], rows[vr][c])
           && (forall c' :: c < c' < hi && Emits(rows[kr][c'], rows[vr][c']) ==> rows[kr][c'] != rows[kr][c]))
          ==> rows[kr][c] in r && r[rows[kr][c]] == Str(rows[vr][c]))
  }

  /** The pair loop over columns `lo..hi-1` of rows `kr` (keys) and `vr` (values). */
  function RowPairs(rows: Grid, kr: int, vr: int, lo: int, hi: int): (r: Object)
    requires RowsHold(rows, kr, vr, lo, hi)
    ensures IsRowPairMap(r, rows, kr, vr, lo, hi)
    ensures |r| <= hi - lo
  {
    var ws := RowWrites(rows, kr, vr, lo, hi);
    RowPairsMeaning(rows, kr, vr, lo, hi, ws, Apply(map[], ws));
    Apply(map[], ws)
  }

  function RowWrites(rows: Grid, kr: int, vr: int, lo: int, hi: int): (ws: seq<Write<Value>>)
    requires RowsHold(rows, kr, vr, lo, hi)
    ensures |ws| == hi - lo
    ensures forall i :: 0 <= i < |ws| ==> ws[i] == PairWrite(rows[kr][lo + i], rows[vr][lo + i])
  {
    seq(hi - lo, i requires 0 <= i < hi - lo => PairWrite(rows[kr][lo + i], rows[vr][lo + i]))
  }

  lemma RowPairsMeaning(rows: Grid, kr: int, vr: int, lo: int, hi: int, ws: seq<Write<Value>>, r: Object)
    requires RowsHold(rows, kr, vr, lo, hi)
    requires |ws| == hi - lo
    requires forall i :: 0 <= i < |ws| ==> ws[i] == PairWrite(rows[kr][lo + i], rows[vr][lo + i])
    requires LastWriteWins(r, map[], ws)
    ensures IsRowPairMap(r, rows, kr, vr, lo, hi)
  {
    forall k
      ensures Written(ws, k) <==> exists c :: lo <= c < hi && Emits(rows[kr][c], rows[vr][c]) && rows[kr][c] == k
    {
      if Written(ws, k) {
        var i :| 0 <= i < |ws| && ws[i].Put? && ws[i].key == k;
        assert rows[kr][lo + i] == k;
      }
      if exists c :: lo <= c < hi && Emits(rows[kr][c], rows[vr][c]) && rows[kr][c] == k {
        var c :| lo <= c < hi && Emits(rows[kr][c], rows[vr][c]) && rows[kr][c] == k;
        assert ws[c - lo].Put? && ws[c - lo].key == k;
      }
    }
    forall c | lo <= c < hi && Emits(rows[kr][c], rows[vr][c]) &&
        (forall c' :: c < c' < hi && Emits(rows[kr][c'], rows[vr][c']) ==> rows[kr][c'] != rows[kr][c])
      ensures rows[kr][c] in r && r[rows[kr][c]] == Str(rows[vr][c])
    {
      forall j | c - lo < j < |ws|
        ensures !(ws[j].Put? && ws[j].key == ws[c - lo].key)
      {
        assert ws[j] == PairWrite(rows[kr][lo + j], rows[vr][lo + j]);
      }
      assert LastWrite(ws, c - lo);
    }
  }

  // ---- unmarshalHorizontal ----

  /** The cells `unmarshalHorizontal` reads exist (Go panics otherwise); nothing is read when `width <= 0`. */
  predicate HorizontalInBounds(rows: Grid, x: int, y: int, width: int)
  {
    width > 0 ==> 0 <= x && 0 <= y && y + 1 < |rows| && x + width <= |rows[y]| && x + width <= |rows[y + 1]|
  }

  /**
   * unmarshalHorizontal: row `y` holds `width` keys from column `x`, row
   * `y + 1` the values under them; a column is stored unless both cells are
   * "", and a repeated key takes the value of its right-most column.
   */
  function UnmarshalHorizontal(rows: Grid, x: int, y: int, width: int): (r: Object)
    requires HorizontalInBounds(rows, x, y, width)
    ensures width <= 0 ==> r == map[]
    ensures width > 0 ==> IsRowPairMap(r, rows, y, y + 1, x, x + width) && |r| <= width
  {
    if width <= 0 then map[] else RowPairs(rows, y, y + 1, x, x + width)
  }

  // ---- unmarshalVertical ----

  /** The cells `unmarshalVertical` reads exist; nothing is read when `height <= 0`. */
  predicate VerticalInBounds(rows: Grid, x: int, y: int, height: int)
  {
    height > 0 ==>
      && 0 <= x && 0 <= y && y + height <= |rows|
      && forall r :: y <= r < y + height ==> x + 1 < |rows[r]|
  }

  /**
   * `r` is the object the pair loop builds down rows `lo..hi-1` with keys in
   * column `x` and values in column `x + 1`: a key is present iff some row
   * emits it, and it holds the value of the bottom-most row that emits it.
   */
  ghost predicate IsColumnPairMap(r: Object, rows: Grid, x: int, lo: int, hi: int)
    requires 0 <= x && 0 <= lo <= hi <= |rows|
    requires forall row :: lo <= row < hi ==> x + 1 < |rows[row]|
  {
    && (forall k :: k in r <==>
          exists row :: lo <= row < hi && Emits(rows[row][x], rows[row][x + 1]) && rows[row][x] == k)
    && (forall row ::
          (&& lo <= row < hi
           && Emits(rows[row][x], rows[row][x + 1])
           && (forall row' :: row < row' < hi && Emits(rows[row'][x], rows[row'][x + 1]) ==>
                 rows[row'][x] != rows[row][x]))
          ==> rows[row][x] in r && r[rows[row][x]] == Str(rows[row][x + 1]))
  }

  /**
   * unmarshalVertical: column `x` holds `height` keys from row `y`, column
   * `x + 1` the values beside them; a row is stored unless both cells are
   * "", and a repeated key takes the value of its bottom-most row.
   */
  function UnmarshalVertical(rows: Grid, x: int, y: int, height: int): (r: Object)
    requires VerticalInBounds(rows, x, y, height)
    ensures height <= 0 ==> r == map[]
    ensures height > 0 ==> IsColumnPairMap(r, rows, x, y, y + height) && |r| <= height
  {
    if height <= 0 then map[]
    else
      var ws := ColumnWrites(rows, x, y, height);
      VerticalMeaning(rows, x, y, height, ws, Apply(map[], ws));
      Apply(map[], ws)
  }

  function ColumnWrites(rows: Grid, x: int, y: int, height: int): (ws: seq<Write<Value>>)
    requires height > 0 && VerticalInBounds(rows, x, y, height)
    ensures |ws| == height
    ensures forall i :: 0 <= i < |ws| ==> ws[i] == PairWrite(rows[y + i][x], rows[y + i][x + 1])
  {
    seq(height, i requires 0 <= i < height => PairWrite(rows[y + i][x], rows[y + i][x + 1]))
  }

  lemma VerticalMeaning(rows: Grid, x: int, y: int, height: int, ws: seq<Write<Value>>, r: Object)
    requires height > 0 && VerticalInBounds(rows, x, y, height)
    requires |ws| == height
    requires forall i :: 0 <= i < |ws| ==> ws[i] == PairWrite(rows[y + i][x], rows[y + i][x + 1])
    requires LastWriteWins(r, map[], ws)
    ensures IsColumnPairMap(r, rows, x, y, y + height)
  {
    VerticalKeys(rows, x, y, height, ws, r);
    VerticalValues(rows, x, y, height, ws, r);
  }

  lemma VerticalKeys(rows: Grid, x: int, y: int, height: int, ws: seq<Write<Value>>, r: Object)
    requires height > 0 && VerticalInBounds(rows, x, y, height)
    requires |ws| == height
    requires forall i :: 0 <= i < |ws| ==> ws[i] == PairWrite(rows[y + i][x], rows[y + i][x + 1])
    requires LastWriteWins(r, map[], ws)
    ensures forall k :: k in r <==>
              exists row :: y <= row < y + height && Emits(rows[row][x], rows[row][x + 1]) && rows[row][x] == k
  {
    forall k
      ensures Written(ws, k) <==>
        exists row :: y <= row < y + height && Emits(rows[row][x], rows[row][x + 1]) && rows[row][x] == k
    {
      if Written(ws, k) {
        var i :| 0 <= i < |ws| && ws[i].Put? && ws[i].key == k;
        assert rows[y + i][x] == k;
      }
      if exists row :: y <= row < y + height && Emits(rows[row][x], rows[row][x + 1]) && rows[row][x] == k {
        var row :| y <= row < y + height && Emits(rows[row][x], rows[row][x + 1]) && rows[row][x] == k;
        assert ws[row - y].Put? && ws[row - y].key == k;
      }
    }
  }

  lemma VerticalValues(rows: Grid, x: int, y: int, height: int, ws: seq<Write<Value>>, r: Object)
    requires height > 0 && VerticalInBounds(rows, x, y, height)
    requires |ws| == height
    requires forall i :: 0 <= i < |ws| ==> ws[i] == PairWrite(rows[y + i][x], rows[y + i][x + 1])
    requires LastWriteWins(r, map[], ws)
    ensures forall row ::
              (&& y <= row < y + height
               && Emits(rows[row][x], rows[row][x + 1])
               && (forall row' :: row < row' < y + height && Emits(rows[row'][x], rows[row'][x + 1]) ==>
                     rows[row'][x] != rows[row][x]))
              ==> rows[row][x] in r && r[rows[row][x]] == Str(rows[row][x + 1])
  {
    forall row |
        && y <= row < y + height
        && Emits(rows[row][x], rows[row][x + 1])
        && (forall row' :: row < row' < y + height && Emits(rows[row'][x], rows[row'][x + 1]) ==>
              rows[row'][x] != rows[row][x])
      ensures rows[row][x] in r && r[rows[row][x]] == Str(rows[row][x + 1])
    {
      VerticalWriteAt(rows, x, y, height, ws, row);
    }
  }

  /** The write of a row that no lower row's key overrides is the last write of its key. */
  lemma VerticalWriteAt(rows: Grid, x: int, y: int, height: int, ws: seq<Write<Value>>, row: int)
    requires height > 0 && VerticalInBounds(rows, x, y, height)
    requires |ws| == height
    requires forall i :: 0 <= i < |ws| ==> ws[i] == PairWrite(rows[y + i][x], rows[y + i][x + 1])
    requires y <= row < y + height && Emits(rows[row][x], rows[row][x + 1])
    requires forall row' :: row < row' < y + height && Emits(rows[row'][x], rows[row'][x + 1]) ==>
               rows[row'][x] != rows[row][x]
    ensures LastWrite(ws, row - y) && ws[row - y] == Put(rows[row][x], Str(rows[row][x + 1]))
  {
    forall j | row - y < j < |ws|
      ensures !(ws[j].Put? && ws[j].key == ws[row - y].key)
    {
      assert ws[j] == PairWrite(rows[y + j][x], rows[y + j][x + 1]);
    }
  }

  // ---- unmarshalMultiVertical ----

  /** The slices `unmarshalMultiVertical` takes exist (Go panics otherwise); nothing is taken when `height <= 0`. */
  predicate MultiVerticalInBounds(rows: Grid, x: int, y: int, width: int, height: int)
  {
    height > 0 ==>
      && 0 <= x && 0 <= width && 0 <= y && y + height <= |rows|
      && forall r :: y <= r < y + height ==> x + width <= |rows[r]|
  }

  /** Row `row` yields a pair: its slice is wider than one cell and has two non-blank cells. */
  ghost predicate Leads(rows: Grid, x: int, width: int, row: int)
  {
    && 0 <= row < |rows| && 0 <= x && 1 < width && x + width <= |rows[row]|
    && |Compact(rows[row][x..x + width])| > 1
  }

  /**
   * `r` is the object built from rows `lo..hi-1`: a key is present iff it is
   * the first non-blank cell of a row that yields a pair, and it holds the
   * second non-blank cell of the bottom-most such row.
   */
  ghost predicate IsLeadMap(r: Object, rows: Grid, x: int, width: int, lo: int, hi: int)
  {
    && (forall k :: k in r <==>
          exists row :: lo <= row < hi && Leads(rows, x, width, row) && Compact(rows[row][x..x + width])[0] == k)
    && (forall row ::
          (&& lo <= row < hi
           && Leads(rows, x, width, row)
           && (forall row' :: row < row' < hi && Leads(rows, x, width, row') ==>
                 Compact(rows[row'][x..x + width])[0] != Compact(rows[row][x..x + width])[0]))
          ==> var c := Compact(rows[row][x..x + width]); c[0] in r && r[c[0]] == Str(c[1]))
  }

  /** What row `row` contributes to `unmarshalMultiVertical`. */
  function MultiWrite(rows: Grid, x: int, width: int, row: int): Write<Value>
    requires 0 <= row < |rows| && 0 <= x && 0 <= width && x + width <= |rows[row]|
  {
    if width > 1 then
      var slice := Compact(rows[row][x..x + width]);
      if |slice| > 1 then Put(slice[0], Str(slice[1])) else Skip
    else Skip
  }

  /**
   * unmarshalMultiVertical: each of `height` rows from `y` contributes the
   * first two non-blank cells of its `width`-wide slice from column `x` as a
   * pair, any further cells being discarded; a slice one cell wide
   * contributes nothing, and a repeated key takes its bottom-most value.
   */
  function UnmarshalMultiVertical(rows: Grid, x: int, y: int, width: int, height: int): (r: Object)
    requires MultiVerticalInBounds(rows, x, y, width, height)
    ensures width <= 1 ==> r == map[]
    ensures height > 0 ==> IsLeadMap(r, rows, x, width, y, y + height) && |r| <= height
    ensures height <= 0 ==> r == map[]
  {
    if height <= 0 then map[]
    else
      var ws := MultiWrites(rows, x, y, width, height);
      MultiVerticalMeaning(rows, x, y, width, height, ws, Apply(map[], ws));
      Apply(map[], ws)
  }

  function MultiWrites(rows: Grid, x: int, y: int, width: int, height: int): (ws: seq<Write<Value>>)
    requires height > 0 && MultiVerticalInBounds(rows, x, y, width, height)
    ensures |ws| == height
    ensures forall i :: 0 <= i < |ws| ==> ws[i] == MultiWrite(rows, x, width, y + i)
  {
    seq(height, i requires 0 <= i < height => MultiWrite(rows, x, width, y + i))
  }

  lemma MultiVerticalMeaning(rows: Grid, x: int, y: int, width: int, height: int, ws: seq<Write<Value>>, r: Object)
    requires height > 0 && MultiVerticalInBounds(rows, x, y, width, height)
    requires |ws| == height
    requires forall i :: 0 <= i < |ws| ==> ws[i] == MultiWrite(rows, x, width, y + i)
    requires LastWriteWins(r, map[], ws)
    ensures width <= 1 ==> r == map[]
    ensures IsLeadMap(r, rows, x, width, y, y + height)
  {
    MultiWritesLead(rows, x, y, width, height, ws);
    MultiVerticalKeys(rows, x, y, width, height, ws, r);
    MultiVerticalValues(rows, x, y, width, height, ws, r);
  }

  /** Which rows write, and what: the lead pair of their slice. */
  lemma MultiWritesLead(rows: Grid, x: int, y: int, width: int, height: int, ws: seq<Write<Value>>)
    requires height > 0 && MultiVerticalInBounds(rows, x, y, width, height)
    requires |ws| == height
    requires forall i :: 0 <= i < |ws| ==> ws[i] == MultiWrite(rows, x, width, y + i)
    ensures forall i :: 0 <= i < |ws| ==> (ws[i].Put? <==> Leads(rows, x, width, y + i))
    ensures forall i :: 0 <= i < |ws| && Leads(rows, x, width, y + i) ==>
      ws[i].key == Compact(rows[y + i][x..x + width])[0] && ws[i].val == Str(Compact(rows[y + i][x..x + width])[1])
  {
  }

  lemma MultiVerticalKeys(rows: Grid, x: int, y: int, width: int, height: int, ws: seq<Write<Value>>, r: Object)
    requires height > 0 && MultiVerticalInBounds(rows, x, y, width, height)
    requires |ws| == height
    requires forall i :: 0 <= i < |ws| ==> (ws[i].Put? <==> Leads(rows, x, width, y + i))
    requires forall i :: 0 <= i < |ws| && Leads(rows, x, width, y + i) ==> ws[i].key == Compact(rows[y + i][x..x + width])[0]
    requires forall k :: k in r <==> Written(ws, k)
    ensures width <= 1 ==> r == map[]
    ensures forall k :: k in r <==>
      exists row :: y <= row < y + height && Leads(rows, x, width, row) && Compact(rows[row][x..x + width])[0] == k
  {
    forall k
      ensures Written(ws, k) <==>
        exists row :: y <= row < y + height && Leads(rows, x, width, row) && Compact(rows[row][x..x + width])[0] == k
    {
      if Written(ws, k) {
        var i :| 0 <= i < |ws| && ws[i].Put? && ws[i].key == k;
        assert Leads(rows, x, width, y + i);
      }
      if exists row :: y <= row < y + height && Leads(rows, x, width, row) && Compact(rows[row][x..x + width])[0] == k {
        var row :| y <= row < y + height && Leads(rows, x, width, row) && Compact(rows[row][x..x + width])[0] == k;
        assert ws[row - y].Put? && ws[row - y].key == k;
      }
    }
    if width <= 1 {
      assert forall i :: 0 <= i < |ws| ==> !ws[i].Put?;
    }
  }

  lemma MultiVerticalValues(rows: Grid, x: int, y: int, width: int, height: int, ws: seq<Write<Value>>, r: Object)
    requires height > 0 && MultiVerticalInBounds(rows, x, y, width, height)
    requires |ws| == height
    requires forall i :: 0 <= i < |ws| ==> (ws[i].Put? <==> Leads(rows, x, width, y + i))
    requires forall i :: 0 <= i < |ws| && Leads(rows, x, width, y + i) ==>
      ws[i].key == Compact(rows[y + i][x..x + width])[0] && ws[i].val == Str(Compact(rows[y + i][x..x + width])[1])
    requires forall i :: LastWrite(ws, i) ==> ws[i].key in r && r[ws[i].key] == ws[i].val
    ensures forall row ::
      (&& y <= row < y + height
       && Leads(rows, x, width, row)
       && (forall row' :: row < row' < y + height && Leads(rows, x, width, row') ==>
             Compact(rows[row'][x..x + width])[0] != Compact(rows[row][x..x + width])[0]))
      ==> var c := Compact(rows[row][x..x + width]); c[0] in r && r[c[0]] == Str(c[1])
  {
    forall row |
        && y <= row < y + height
        && Leads(rows, x, width, row)
        && (forall row' :: row < row' < y + height && Leads(rows, x, width, row') ==>
              Compact(rows[row'][x..x + width])[0] != Compact(rows[row][x..x + width])[0])
      ensures var c := Compact(rows[row][x..x + width]); c[0] in r && r[c[0]] == Str(c[1])
    {
      forall j | row - y < j < |ws|
        ensures !(ws[j].Put? && ws[j].key == ws[row - y].key)
      {
        if ws[j].Put? {
          assert Leads(rows, x, width, y + j);
        }
      }
      assert LastWrite(ws, row - y);
    }
  }

  /**
   * A key of spaces is a key like any other, and a column whose key and
   * value are both exactly "" is skipped.
   */
  lemma HorizontalKeepsSpaces()
    ensures UnmarshalHorizontal([[" ", ""], ["", ""]], 0, 0, 2) == map[" " := Str("")]
  {
    var rows: Grid := [[" ", ""], ["", ""]];
    var r := UnmarshalHorizontal(rows, 0, 0, 2);
    assert Emits(rows[0][0], rows[1][0]) && !Emits(rows[0][1], rows[1][1]);
    assert r.Keys == {" "};
  }

  /** Blank cells between a label and its value are skipped, and cells after the second survivor are dropped. */
  lemma MultiVerticalSkipsBlanks()
    ensures UnmarshalMultiVertical([["k", " ", "v", "w"]], 0, 0, 4, 1) == map["k" := Str("v")]
  {
    SkipSample([["k", " ", "v", "w"]]);
  }

  lemma SkipSample(rows: Grid)
    requires rows == [["k", " ", "v", "w"]]
    ensures UnmarshalMultiVertical(rows, 0, 0, 4, 1) == map["k" := Str("v")]
  {
    SkipSampleRow(rows);
    SingleLeadRow(UnmarshalMultiVertical(rows, 0, 0, 4, 1), rows, 0, 4, 0);
  }

  lemma SkipSampleRow(rows: Grid)
    requires rows == [["k", " ", "v", "w"]]
    ensures Compact(rows[0][0..4]) == ["k", "v", "w"] && Leads(rows, 0, 4, 0)
  {
    assert rows[0][0..4] == ["k", " ", "v", "w"];
    assert !IsSpace("k") && IsSpace(" ") && !IsSpace("v") && !IsSpace("w");
    CompactOneGap("k", " ", "v", "w");
  }

  /** A single row that yields a pair gives an object of that one pair. */
  lemma SingleLeadRow(r: Object, rows: Grid, x: int, width: int, y: int)
    requires IsLeadMap(r, rows, x, width, y, y + 1) && Leads(rows, x, width, y)
    ensures var c := Compact(rows[y][x..x + width]); r == map[c[0] := Str(c[1])]
  {
    var c := Compact(rows[y][x..x + width]);
    assert c[0] in r;
    assert r.Keys == {c[0]};
  }

  lemma CompactOneGap(a: string, e: string, b: string, c: string)
    requires !IsSpace(a) && IsSpace(e) && !IsSpace(b) && !IsSpace(c)
    ensures Compact([a, e, b, c]) == [a, b, c]
  {
    var row, kept := [a, e, b, c], [a, b, c];
    assert row == [a] + [e] + [b, c] && kept == [a] + [b, c];
    CompactDropsBlank([a], e, [b, c]);
    assert forall i :: 0 <= i < |kept| ==> !IsSpace(kept[i]);
    CompactKeepsNonBlank(kept);
  }
}
