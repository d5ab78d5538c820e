/**
 * The table extractors of main.go. `unmarshalTableVertical` reads one
 * sub-table per data row (row names down column `x`, column headers along
 * row `y`); `unmarshalTableHorizontal` reads one sub-table per column (table
 * names along row `y`, row keys down column `x`). Both return the corner
 * cell `rows[y][x]` as the table's name. Both test cells against the empty
 * string exactly, not with the whitespace test.
 */
module Tables {
  import opened Objects
  import opened Pairs

  /** A rectangle of the grid: origin column `x`, origin row `y`, and its extent. */
  datatype Region = Region(x: int, y: int, width: int, height: int)

  // ---- unmarshalTableVertical ----

  /**
   * The cells `unmarshalTableVertical` reads exist (Go panics otherwise): the
   * corner, the name cell of every data row, and, for rows whose name is not
   * "", the data cells and the header cells above them.
   */
  predicate TableVerticalInBounds(rows: Grid, g: Region)
  {
    && 0 <= g.x && 0 <= g.y && g.y < |rows| && g.x < |rows[g.y]|
    && forall r :: g.y < r < g.y + g.height ==> DataRowInBounds(rows, g, r)
  }

  /** Data row `r` has its name cell and, when that is not "", all its data and header cells. */
  predicate DataRowInBounds(rows: Grid, g: Region, r: int)
  {
    && 0 <= r < |rows|
    && 0 <= g.x < |rows[r]|
    && (rows[r][g.x] != "" ==> g.x + g.width <= |rows[r]| && 0 <= g.y < |rows| && g.x + g.width <= |rows[g.y]|)
  }

  /** Row `r` of the region names a sub-table: its name cell is not exactly "". */
  ghost predicate NamesRow(rows: Grid, g: Region, r: int)
  {
    g.y < r < g.y + g.height && 0 <= r < |rows| && 0 <= g.x < |rows[r]| && rows[r][g.x] != ""
  }

  /** The sub-table row `r` builds: header cells of row `y` paired with the cells of row `r`. */
  function RowTable(rows: Grid, g: Region, r: int): (t: Object)
    requires TableVerticalInBounds(rows, g) && NamesRow(rows, g, r)
    ensures g.width > 1 ==> IsRowPairMap(t, rows, g.y, r, g.x + 1, g.x + g.width)
    ensures g.width <= 1 ==> t == map[]
  {
    assert DataRowInBounds(rows, g, r);
    if g.width > 1 then RowPairs(rows, g.y, r, g.x + 1, g.x + g.width) else map[]
  }

  /** What data row `r` does: nothing if its name is "", else (re)place the sub-table under its name. */
  function RowTableWrite(rows: Grid, g: Region, r: int): Write<Value>
    requires TableVerticalInBounds(rows, g) && g.y < r < g.y + g.height
  {
    assert DataRowInBounds(rows, g, r);
    if rows[r][g.x] == "" then Skip else Put(rows[r][g.x], Obj(RowTable(rows, g, r)))
  }

  function RowTableWrites(rows: Grid, g: Region): (ws: seq<Write<Value>>)
    requires TableVerticalInBounds(rows, g)
    ensures |ws| == if g.height > 1 then g.height - 1 else 0
    ensures forall i :: 0 <= i < |ws| ==> ws[i] == RowTableWrite(rows, g, g.y + 1 + i)
  {
    if g.height <= 1 then []
    else seq(g.height - 1, i requires 0 <= i < g.height - 1 => RowTableWrite(rows, g, g.y + 1 + i))
  }

  /**
   * `t` is the table `unmarshalTableVertical` builds: its keys are exactly
   * the names of the data rows that are not "", and each holds the sub-table
   * of the bottom-most row with that name (a repeated name replaces the
   * earlier sub-table, it does not merge with it).
   */
  ghost predicate IsRowTables(t: Object, rows: Grid, g: Region)
    requires TableVerticalInBounds(rows, g)
  {
    && (forall k :: k in t <==> exists r :: NamesRow(rows, g, r) && rows[r][g.x] == k)
    && (forall r ::
          (&& NamesRow(rows, g, r)
           && (forall r' :: r < r' && NamesRow(rows, g, r') ==> rows[r'][g.x] != rows[r][g.x]))
          ==> rows[r][g.x] in t && t[rows[r][g.x]] == Obj(RowTable(rows, g, r)))
  }

  /**
   * unmarshalTableVertical: returns the corner cell as the table's name and
   * one sub-table per named data row, in which each header cell maps to the
   * row's cell below it unless both are "".
   */
  function UnmarshalTableVertical(rows: Grid, g: Region): (r: (string, Object))
    requires TableVerticalInBounds(rows, g)
    ensures r.0 == rows[g.y][g.x]
    ensures IsRowTables(r.1, rows, g)
    ensures "" !in r.1
  {
    var ws := RowTableWrites(rows, g);
    RowTablesMeaning(rows, g, ws, Apply(map[], ws));
    (rows[g.y][g.x], Apply(map[], ws))
  }

  lemma RowTablesMeaning(rows: Grid, g: Region, ws: seq<Write<Value>>, t: Object)
    requires TableVerticalInBounds(rows, g)
    requires |ws| == if g.height > 1 then g.height - 1 else 0
    requires forall i :: 0 <= i < |ws| ==> ws[i] == RowTableWrite(rows, g, g.y + 1 + i)
    requires LastWriteWins(t, map[], ws)
    ensures IsRowTables(t, rows, g)
  {
    RowTableKeys(rows, g, ws, t);
    RowTableValues(rows, g, ws, t);
  }

  /** The write of data row `r` puts exactly when the row is named, under its name. */
  lemma RowTableWriteAt(rows: Grid, g: Region, ws: seq<Write<Value>>, i: int)
    requires TableVerticalInBounds(rows, g)
    requires |ws| == if g.height > 1 then g.height - 1 else 0
    requires forall i :: 0 <= i < |ws| ==> ws[i] == RowTableWrite(rows, g, g.y + 1 + i)
    requires 0 <= i < |ws|
    ensures ws[i].Put? <==> NamesRow(rows, g, g.y + 1 + i)
    ensures ws[i].Put? ==> ws[i].key == rows[g.y + 1 + i][g.x] && ws[i].val == Obj(RowTable(rows, g, g.y + 1 + i))
  {
    assert ws[i] == RowTableWrite(rows, g, g.y + 1 + i);
    assert DataRowInBounds(rows, g, g.y + 1 + i);
  }

  lemma RowTableKeys(rows: Grid, g: Region, ws: seq<Write<Value>>, t: Object)
    requires TableVerticalInBounds(rows, g)
    requires |ws| == if g.height > 1 then g.height - 1 else 0
    requires forall i :: 0 <= i < |ws| ==> ws[i] == RowTableWrite(rows, g, g.y + 1 + i)
    requires LastWriteWins(t, map[], ws)
    ensures forall k :: k in t <==> exists r :: NamesRow(rows, g, r) && rows[r][g.x] == k
  {
    forall k
      ensures Written(ws, k) <==> exists r :: NamesRow(rows, g, r) && rows[r][g.x] == k
    {
      if Written(ws, k) {
        var i :| 0 <= i < |ws| && ws[i].Put? && ws[i].key == k;
        RowTableWriteAt(rows, g, ws, i);
      }
      if exists r :: NamesRow(rows, g, r) && rows[r][g.x] == k {
        var r :| NamesRow(rows, g, r) && rows[r][g.x] == k;
        RowTableWriteAt(rows, g, ws, r - g.y - 1);
      }
    }
  }

  lemma RowTableValues(rows: Grid, g: Region, ws: seq<Write<Value>>, t: Object)
    requires TableVerticalInBounds(rows, g)
    requires |ws| == if g.height > 1 then g.height - 1 else 0
    requires forall i :: 0 <= i < |ws| ==> ws[i] == RowTableWrite(rows, g, g.y + 1 + i)
    requires LastWriteWins(t, map[], ws)
    ensures forall r ::
              (&& NamesRow(rows, g, r)
               && (forall r' :: r < r' && NamesRow(rows, g, r') ==> rows[r'][g.x] != rows[r][g.x]))
              ==> rows[r][g.x] in t && t[rows[r][g.x]] == Obj(RowTable(rows, g, r))
  {
    forall r |
        && NamesRow(rows, g, r)
        && (forall r' :: r < r' && NamesRow(rows, g, r') ==> rows[r'][g.x] != rows[r][g.x])
      ensures rows[r][g.x] in t && t[rows[r][g.x]] == Obj(RowTable(rows, g, r))
    {
      var i := r - g.y - 1;
      LastNamedRow(rows, g, ws, r);
      RowTableWriteAt(rows, g, ws, i);
    }
  }

  /** The write of a row no later row shares its name with is the last write to that name. */
  lemma LastNamedRow(rows: Grid, g: Region, ws: seq<Write<Value>>, r: int)
    requires TableVerticalInBounds(rows, g)
    requires |ws| == if g.height > 1 then g.height - 1 else 0
    requires forall i :: 0 <= i < |ws| ==> ws[i] == RowTableWrite(rows, g, g.y + 1 + i)
    requires NamesRow(rows, g, r)
    requires forall r' :: r < r' && NamesRow(rows, g, r') ==> rows[r'][g.x] != rows[r][g.x]
    ensures LastWrite(ws, r - g.y - 1)
  {
    var i := r - g.y - 1;
    RowTableWriteAt(rows, g, ws, i);
    forall j | i < j < |ws|
      ensures !(ws[j].Put? && ws[j].key == ws[i].key)
    {
      RowTableWriteAt(rows, g, ws, j);
    }
  }

  // ---- unmarshalTableHorizontal ----

  /** Sub-tables under construction, keyed by table name. */
  type SubTables = map<string, Object>

  /**
   * The cells `unmarshalTableHorizontal` reads exist (Go panics otherwise):
   * the corner and, when there is at least one data column, every data row
   * of the region together with the cells its column loop reaches.
   */
  predicate TableHorizontalInBounds(rows: Grid, g: Region)
  {
    && 0 <= g.x && 0 <= g.y && g.y < |rows| && g.x < |rows[g.y]|
    && (g.width > 1 ==> forall r :: g.y < r < g.y + g.height ==> ColumnRowInBounds(rows, g, r))
  }

  /**
   * Row `r` exists; every column the loop does not skip by the row's length
   * has its header cell, and, when the header is not "", its key and value
   * cells on row `r`.
   */
  predicate ColumnRowInBounds(rows: Grid, g: Region, r: int)
  {
    && 0 <= r < |rows|
    && forall c :: g.x < c < g.x + g.width ==> ColumnCellInBounds(rows, g, r, c)
  }

  /**
   * Column `c` of row `r`, when the loop does not skip it by the row's
   * length, has its header cell and, when the header is not "", its key and
   * value cells.
   */
  predicate ColumnCellInBounds(rows: Grid, g: Region, r: int, c: int)
  {
    0 <= r < |rows| && c - g.x < |rows[r]| ==>
      && 0 <= g.y < |rows| && 0 <= c < |rows[g.y]|
      && (rows[g.y][c] != "" ==> 0 <= g.x && c < |rows[r]|)
  }

  /**
   * Cell `(r, c)` of the region opens the sub-table named by its header: the
   * row is long enough by main.go's test (which compares the row's length
   * with the column's offset `c - x`, not with `c`), and the header cell on
   * row `y` is not "".
   */
  ghost predicate Opens(rows: Grid, g: Region, r: int, c: int)
  {
    && g.y < r < g.y + g.height && g.x < c < g.x + g.width
    && 0 <= g.x && 0 <= g.y && 0 <= r < |rows|
    && c - g.x < |rows[r]| && c < |rows[r]| && c < |rows[g.y]|
    && rows[g.y][c] != ""
  }

  /** Cell `(r, c)` stores its value: it opens its sub-table, and its row key and value are not both "". */
  ghost predicate Stores(rows: Grid, g: Region, r: int, c: int)
  {
    Opens(rows, g, r, c) && Emits(rows[r][g.x], rows[r][c])
  }

  /** The slot an opening cell writes: its column's header, and its row's key. */
  function Slot(rows: Grid, g: Region, r: int, c: int): (string, string)
    requires Opens(rows, g, r, c)
  {
    (rows[g.y][c], rows[r][g.x])
  }

  /** `(r, c)` comes at or after `(r0, c0)` in the row-by-row, column-by-column order of the loops. */
  predicate After(r0: int, c0: int, r: int, c: int)
  {
    r0 < r || (r0 == r && c0 <= c)
  }

  /** Cell `(r, c)` stores, and no cell after it in loop order stores into the same slot. */
  ghost predicate LastStore(rows: Grid, g: Region, r: int, c: int)
  {
    && Stores(rows, g, r, c)
    && forall r', c' :: After(r, c + 1, r', c') && Stores(rows, g, r', c') ==> Slot(rows, g, r', c') != Slot(rows, g, r, c)
  }

  /** One iteration of the inner loop, at data row `r` and column `c`. */
  function CellStep(t: SubTables, rows: Grid, g: Region, r: int, c: int): (t': SubTables)
    requires TableHorizontalInBounds(rows, g)
    requires g.y < r < g.y + g.height && g.x < c < g.x + g.width
    ensures forall h :: h in t' <==> h in t || (Opens(rows, g, r, c) && h == rows[g.y][c])
    ensures forall h, k :: h in t' ==>
              (k in t'[h] <==> (h in t && k in t[h]) || (Stores(rows, g, r, c) && Slot(rows, g, r, c) == (h, k)))
    ensures Stores(rows, g, r, c) ==>
              var (h, k) := Slot(rows, g, r, c); h in t' && k in t'[h] && t'[h][k] == Str(rows[r][c])
    ensures forall h, k :: h in t && k in t[h] && !(Stores(rows, g, r, c) && Slot(rows, g, r, c) == (h, k)) ==>
              h in t' && k in t'[h] && t'[h][k] == t[h][k]
  {
    assert ColumnRowInBounds(rows, g, r) && ColumnCellInBounds(rows, g, r, c);
    if |rows[r]| <= c - g.x || rows[g.y][c] == "" then t
    else
      var h := rows[g.y][c];
      var ready := if h !in t then t[h := map[]] else t;
      if Emits(rows[r][g.x], rows[r][c]) then ready[h := ready[h][rows[r][g.x] := Str(rows[r][c])]]
      else ready
  }

  /**
   * The two loops of unmarshalTableHorizontal from cell `(r, c)` on: the
   * rest of row `r` from column `c`, then every later data row from column
   * `x + 1`.
   */
  function Sweep(t: SubTables, rows: Grid, g: Region, r: int, c: int): (t': SubTables)
    requires TableHorizontalInBounds(rows, g) && g.y < r && g.x < c
    ensures Swept(t', t, rows, g, r, c)
    decreases g.y + g.height - r, g.x + g.width - c
  {
    if r >= g.y + g.height then
      SweepDone(t, rows, g, r, c);
      t
    else if c >= g.x + g.width then
      var t' := Sweep(t, rows, g, r + 1, g.x + 1);
      SweepNextRow(t', t, rows, g, r, c);
      t'
    else
      var mid := CellStep(t, rows, g, r, c);
      var t' := Sweep(mid, rows, g, r, c + 1);
      SweepCellKeys(t', mid, t, rows, g, r, c);
      SweepCellFields(t', mid, t, rows, g, r, c);
      SweepCellLast(t', mid, t, rows, g, r, c);
      SweepCellKept(t', mid, t, rows, g, r, c);
      t'
  }

  /** Table names: those of `t`, and the headers of the cells from `(r0, c0)` on that open. */
  ghost predicate SweptKeys(t': SubTables, t: SubTables, rows: Grid, g: Region, r0: int, c0: int)
  {
    forall h :: h in t' <==> h in t || exists r, c :: After(r0, c0, r, c) && Opens(rows, g, r, c) && rows[g.y][c] == h
  }

  /** Row keys of each sub-table: those it had in `t`, and the slots of the cells from `(r0, c0)` on that store. */
  ghost predicate SweptFields(t': SubTables, t: SubTables, rows: Grid, g: Region, r0: int, c0: int)
  {
    forall h, k :: h in t' ==>
      (k in t'[h] <==>
         || (h in t && k in t[h])
         || exists r, c :: After(r0, c0, r, c) && Stores(rows, g, r, c) && Slot(rows, g, r, c) == (h, k))
  }

  /** Every cell from `(r0, c0)` on that is the last to store into its slot leaves its value there. */
  ghost predicate SweptLast(t': SubTables, rows: Grid, g: Region, r0: int, c0: int)
  {
    forall r, c :: After(r0, c0, r, c) && LastStore(rows, g, r, c) ==>
      var (h, k) := Slot(rows, g, r, c); h in t' && k in t'[h] && t'[h][k] == Str(rows[r][c])
  }

  /** A slot of `t` that no cell from `(r0, c0)` on stores into keeps its value. */
  ghost predicate SweptKept(t': SubTables, t: SubTables, rows: Grid, g: Region, r0: int, c0: int)
  {
    forall h, k ::
      (&& h in t && k in t[h]
       && !exists r, c :: After(r0, c0, r, c) && Stores(rows, g, r, c) && Slot(rows, g, r, c) == (h, k))
      ==> h in t' && k in t'[h] && t'[h][k] == t[h][k]
  }

  ghost predicate Swept(t': SubTables, t: SubTables, rows: Grid, g: Region, r0: int, c0: int)
  {
    && SweptKeys(t', t, rows, g, r0, c0)
    && SweptFields(t', t, rows, g, r0, c0)
    && SweptLast(t', rows, g, r0, c0)
    && SweptKept(t', t, rows, g, r0, c0)
  }

  /** Past the last data row no cell remains, so the tables are unchanged. */
  lemma SweepDone(t: SubTables, rows: Grid, g: Region, r0: int, c0: int)
    requires r0 >= g.y + g.height
    ensures Swept(t, t, rows, g, r0, c0)
  {
  }

  /** Past the last column of a row, the cells left are those of the later rows. */
  lemma SweepNextRow(t': SubTables, t: SubTables, rows: Grid, g: Region, r0: int, c0: int)
    requires c0 >= g.x + g.width
    requires Swept(t', t, rows, g, r0 + 1, g.x + 1)
    ensures Swept(t', t, rows, g, r0, c0)
  {
    forall r, c | Opens(rows, g, r, c)
      ensures After(r0, c0, r, c) <==> After(r0 + 1, g.x + 1, r, c)
    {
    }
  }

  lemma SweepCellKeys(t': SubTables, mid: SubTables, t: SubTables, rows: Grid, g: Region, r0: int, c0: int)
    requires TableHorizontalInBounds(rows, g)
    requires g.y < r0 < g.y + g.height && g.x < c0 < g.x + g.width
    requires mid == CellStep(t, rows, g, r0, c0)
    requires SweptKeys(t', mid, rows, g, r0, c0 + 1)
    ensures SweptKeys(t', t, rows, g, r0, c0)
  {
  }

  lemma SweepCellFields(t': SubTables, mid: SubTables, t: SubTables, rows: Grid, g: Region, r0: int, c0: int)
    requires TableHorizontalInBounds(rows, g)
    requires g.y < r0 < g.y + g.height && g.x < c0 < g.x + g.width
    requires mid == CellStep(t, rows, g, r0, c0)
    requires SweptKeys(t', mid, rows, g, r0, c0 + 1)
    requires SweptFields(t', mid, rows, g, r0, c0 + 1)
    ensures SweptFields(t', t, rows, g, r0, c0)
  {
  }

  lemma SweepCellLast(t': SubTables, mid: SubTables, t: SubTables, rows: Grid, g: Region, r0: int, c0: int)
    requires TableHorizontalInBounds(rows, g)
    requires g.y < r0 < g.y + g.height && g.x < c0 < g.x + g.width
    requires mid == CellStep(t, rows, g, r0, c0)
    requires SweptLast(t', rows, g, r0, c0 + 1)
    requires SweptKept(t', mid, rows, g, r0, c0 + 1)
    ensures SweptLast(t', rows, g, r0, c0)
  {
  }

  lemma SweepCellKept(t': SubTables, mid: SubTables, t: SubTables, rows: Grid, g: Region, r0: int, c0: int)
    requires TableHorizontalInBounds(rows, g)
    requires g.y < r0 < g.y + g.height && g.x < c0 < g.x + g.width
    requires mid == CellStep(t, rows, g, r0, c0)
    requires SweptKept(t', mid, rows, g, r0, c0 + 1)
    ensures SweptKept(t', t, rows, g, r0, c0)
  {
  }

  /**
   * `o` is the table `unmarshalTableHorizontal` builds: its keys are exactly
   * the headers of the opening cells; each holds a sub-table whose keys are
   * exactly the row keys stored under that header, each with the value of
   * the last cell, in loop order, to store into that slot. Columns sharing a
   * header merge into one sub-table.
   */
  ghost predicate IsColumnTables(o: Object, rows: Grid, g: Region)
  {
    && (forall h :: h in o <==> exists r, c :: Opens(rows, g, r, c) && rows[g.y][c] == h)
    && (forall h :: h in o ==> o[h].Obj?)
    && (forall h, k :: h in o && o[h].Obj? ==>
          (k in o[h].fields <==> exists r, c :: Stores(rows, g, r, c) && Slot(rows, g, r, c) == (h, k)))
    && (forall r, c :: LastStore(rows, g, r, c) ==>
          var (h, k) := Slot(rows, g, r, c);
          h in o && o[h].Obj? && k in o[h].fields && o[h].fields[k] == Str(rows[r][c]))
  }

  /** The finished sub-tables as one JSON object of objects. */
  function Nest(t: SubTables): (o: Object)
    ensures forall h :: h in o <==> h in t
    ensures forall h :: h in t ==> o[h] == Obj(t[h])
  {
    map h | h in t :: Obj(t[h])
  }

  /**
   * unmarshalTableHorizontal: returns the corner cell as the table's name
   * and one sub-table per distinct header of row `y`, keyed by the row keys
   * of column `x`.
   */
  function UnmarshalTableHorizontal(rows: Grid, g: Region): (r: (string, Object))
    requires TableHorizontalInBounds(rows, g)
    ensures r.0 == rows[g.y][g.x]
    ensures IsColumnTables(r.1, rows, g)
    ensures "" !in r.1
  {
    var t := Sweep(map[], rows, g, g.y + 1, g.x + 1);
    ColumnTablesMeaning(t, rows, g);
    (rows[g.y][g.x], Nest(t))
  }

  lemma ColumnTablesMeaning(t: SubTables, rows: Grid, g: Region)
    requires Swept(t, map[], rows, g, g.y + 1, g.x + 1)
    ensures IsColumnTables(Nest(t), rows, g)
  {
    forall r, c | Opens(rows, g, r, c)
      ensures After(g.y + 1, g.x + 1, r, c)
    {
    }
  }

  /**
   * A repeated row name replaces the earlier row's sub-table: the second
   * "n" row stores nothing, and its empty sub-table is what remains.
   */
  lemma TableVerticalReplaces()
    ensures UnmarshalTableVertical([["t", ""], ["n", "1"], ["n", ""]], Region(0, 0, 2, 3)) == ("t", map["n" := Obj(map[])])
  {
    var rows: Grid := [["t", ""], ["n", "1"], ["n", ""]];
    ReplaceSample(rows, Region(0, 0, 2, 3));
  }

  lemma ReplaceSample(rows: Grid, g: Region)
    requires rows == [["t", ""], ["n", "1"], ["n", ""]] && g == Region(0, 0, 2, 3)
    ensures TableVerticalInBounds(rows, g)
    ensures UnmarshalTableVertical(rows, g).1 == map["n" := Obj(map[])]
  {
    ReplaceSampleRows(rows, g);
    SingleNameTable(UnmarshalTableVertical(rows, g).1, rows, g, 2);
    EmptyRowTable(rows, g, 2);
  }

  lemma ReplaceSampleRows(rows: Grid, g: Region)
    requires rows == [["t", ""], ["n", "1"], ["n", ""]] && g == Region(0, 0, 2, 3)
    ensures TableVerticalInBounds(rows, g)
    ensures NamesRow(rows, g, 2) && rows[2][g.x] == "n"
    ensures forall r :: NamesRow(rows, g, r) ==> rows[r][g.x] == rows[2][g.x]
    ensures forall r :: 2 < r ==> !NamesRow(rows, g, r)
    ensures forall c :: g.x < c < g.x + g.width && c < |rows[g.y]| && c < |rows[2]| ==> !Emits(rows[g.y][c], rows[2][c])
  {
    assert DataRowInBounds(rows, g, 1) && DataRowInBounds(rows, g, 2);
  }

  /** When every named row carries the same name, the table is that one name with the last row's sub-table. */
  lemma SingleNameTable(t: Object, rows: Grid, g: Region, r0: int)
    requires TableVerticalInBounds(rows, g) && IsRowTables(t, rows, g)
    requires NamesRow(rows, g, r0)
    requires forall r :: NamesRow(rows, g, r) ==> rows[r][g.x] == rows[r0][g.x]
    requires forall r :: r0 < r ==> !NamesRow(rows, g, r)
    ensures t == map[rows[r0][g.x] := Obj(RowTable(rows, g, r0))]
  {
    assert rows[r0][g.x] in t;
    assert t.Keys == {rows[r0][g.x]};
  }

  /** A named row none of whose columns stores anything yields the empty sub-table. */
  lemma EmptyRowTable(rows: Grid, g: Region, r: int)
    requires TableVerticalInBounds(rows, g) && NamesRow(rows, g, r)
    requires forall c :: g.x < c < g.x + g.width && c < |rows[g.y]| && c < |rows[r]| ==> !Emits(rows[g.y][c], rows[r][c])
    ensures RowTable(rows, g, r) == map[]
  {
    var t := RowTable(rows, g, r);
    assert DataRowInBounds(rows, g, r);
    if g.width > 1 {
      assert forall k :: k !in t;
    }
  }

  /**
   * Two columns under the same header share one sub-table: the second column
   * visits the sub-table the first one filled and keeps its entry, even
   * though it stores nothing itself. Had it started a fresh sub-table, the
   * result would be `{"h": {}}`.
   */
  lemma TableHorizontalMerges()
    ensures UnmarshalTableHorizontal([["t", "h", "h"], ["", "1", ""]], Region(0, 0, 3, 2)) == ("t", map["h" := Obj(map["" := Str("1")])])
  {
    var rows: Grid := [["t", "h", "h"], ["", "1", ""]];
    var g := Region(0, 0, 3, 2);
    MergeSampleCells(rows, g);
    SingleSlotTable(UnmarshalTableHorizontal(rows, g).1, rows, g, 1, 1);
  }

  lemma MergeSampleCells(rows: Grid, g: Region)
    requires rows == [["t", "h", "h"], ["", "1", ""]] && g == Region(0, 0, 3, 2)
    ensures TableHorizontalInBounds(rows, g)
    ensures LastStore(rows, g, 1, 1)
    ensures forall r, c :: Opens(rows, g, r, c) ==> rows[g.y][c] == rows[g.y][1]
    ensures forall r, c :: Stores(rows, g, r, c) ==> Slot(rows, g, r, c) == Slot(rows, g, 1, 1)
  {
    assert ColumnRowInBounds(rows, g, 1) by {
      assert ColumnCellInBounds(rows, g, 1, 1) && ColumnCellInBounds(rows, g, 1, 2);
    }
  }

  /**
   * When every opening cell has the same header and every storing cell
   * stores into one slot, the table holds that one slot, with the value of
   * the last cell to store into it.
   */
  lemma SingleSlotTable(o: Object, rows: Grid, g: Region, r0: int, c0: int)
    requires IsColumnTables(o, rows, g)
    requires LastStore(rows, g, r0, c0)
    requires forall r, c :: Opens(rows, g, r, c) ==> rows[g.y][c] == rows[g.y][c0]
    requires forall r, c :: Stores(rows, g, r, c) ==> Slot(rows, g, r, c) == Slot(rows, g, r0, c0)
    ensures o == map[rows[g.y][c0] := Obj(map[rows[r0][g.x] := Str(rows[r0][c0])])]
  {
    var (h, k) := Slot(rows, g, r0, c0);
    assert h in o && o[h].Obj? && k in o[h].fields && o[h].fields[k] == Str(rows[r0][c0]);
    forall h' | h' in o
      ensures h' == h
    {
      var r, c :| Opens(rows, g, r, c) && rows[g.y][c] == h';
    }
    forall k' | k' in o[h].fields
      ensures k' == k
    {
      var r, c :| Stores(rows, g, r, c) && Slot(rows, g, r, c) == (h, k');
    }
    assert o[h].fields == map[k := Str(rows[r0][c0])];
  }
}
