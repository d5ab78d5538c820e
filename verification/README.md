# Template extraction engine of sunyan, in Dafny

sunyan converts steel-smelting record sheets into one JSON document per
workbook. Each sheet has a fixed layout. Its core is a set of extractors,
all in `main.go`. Each extractor reads part of a sheet's grid of cell
strings and turns it into a JSON object. The part is the first row, the
last non-blank row found by scanning upwards, or a rectangle at fixed
coordinates:

- a header extractor for the first row;
- a signoff extractor for the last non-blank row;
- three flat key/value extractors: a horizontal pair row, a vertical pair
  column, and a multi-cell row with spacer cells;
- two table extractors: one sub-table per row, or one per column.

A page has fourteen sections. Twelve run a region extractor at literal
coordinates, and the other two are the header and the signoff. Only the
sheets whose name is a number become pages.

The model:

| file | module | what it holds |
|---|---|---|
| `objects.dfy` | `Objects` | JSON values; grids as sequences of rows; `Apply`, the last-write-wins map-building loop of the pair extractors, the vertical table, the page and the document |
| `cells.dfy` | `Cells` | `isSpace` with Go's `unicode.IsSpace` table; `allIsNil`; compaction (blank cells dropped, order kept) |
| `numbers.dfy` | `Numbers` | `isNumber`: `json.Unmarshal` into a `json.Number`, with the number grammar of section 6 of RFC 8259 stated declaratively, and a scanner proved equal to it |
| `headers.dfy` | `Headers` | `unmarshalRowFirst`, `unmarshalOperator` |
| `pairs.dfy` | `Pairs` | `unmarshalHorizontal`, `unmarshalVertical`, `unmarshalMultiVertical` |
| `tables.dfy` | `Tables` | `unmarshalTableVertical`, and `unmarshalTableHorizontal` with its own two-level sweep over the region's cells |
| `pages.dfy` | `Pages` | the page layout as data (section name, extractor, coordinates), the page, and the document of one workbook |

Most extractors have a contract made of a declarative predicate over grid
cells, in absolute coordinates. Examples are `IsRowPairMap`,
`IsColumnPairMap`, `IsLeadMap`, `IsRowTables` and `IsColumnTables`. Each says:

- which keys exist, as an if-and-only-if over the cells;
- which cell's value each key holds: the last one written, in loop order.

The functions build their results the way the Go loops do, and proofs
connect the two.

Four behaviours of `main.go` are kept as written:

- The pair and table extractors test a cell against `""` exactly. A cell of
  spaces is a real key or value there. The header, signoff and
  multi-vertical extractors use the whitespace test instead.
- `unmarshalTableVertical` replaces the sub-table when a row name repeats.
- `unmarshalTableHorizontal` merges columns that share a header into one
  sub-table.
- `unmarshalTableHorizontal` skips short rows by comparing the row's length
  with the column offset `j`, not with the absolute column `x + j`.

Go's out-of-range index panics become preconditions. Each region extractor has an
`…InBounds` predicate that states exactly which cells it reads. For example,
the vertical table only needs a row's data cells when that row's name cell
is not `""`.

## Model

| member | source | states |
|---|---|---|
| Objects.Apply | main.go:191-197 | A map-building loop leaves each written key holding the value of its last write and every other key unchanged. It adds at most one key per iteration. |
| Cells.IsSpaceChar | main.go:45 | The code points Go's `unicode.IsSpace` accepts, stated as its table: U+0009–U+000D, U+0020, U+0085, U+00A0, U+1680, U+2000–U+200A, U+2028, U+2029, U+202F, U+205F, U+3000. The predicate has no contract; its meaning is this body. |
| Cells.IsSpace | main.go:43-50 | A string is blank exactly when every character is white space by Go's `unicode.IsSpace`; the empty string is blank. |
| Cells.AllIsNil | main.go:52-60 | A row is blank exactly when every cell is blank; the empty row is blank. |
| Cells.Compact | main.go:67-71 | The compacted row has no blank cell and is no longer than the row, and every non-blank cell of the row survives. |
| Cells.CompactAppend | main.go:67-71 | Compaction keeps order: compacting a concatenation concatenates the compacted parts. |
| Cells.CompactSubMultiset | main.go:67-71 | Compaction only drops cells: the result is a sub-multiset of the row. |
| Cells.CompactKeepsNonBlank | main.go:67-71 | A row with no blank cell compacts to itself. |
| Cells.CompactDropsBlank | main.go:67-71 | Inserting a blank cell anywhere in a row does not change its compaction. |
| Cells.CompactEmptyIffBlank | main.go:52-71 | A row compacts to nothing exactly when `allIsNil` holds for it. |
| Cells.CompactIdempotent | main.go:67-71 | Compacting twice is the same as compacting once. |
| Numbers.ScanNumber | main.go:30-36 | The left-to-right scanner accepts exactly the number literals of the JSON grammar: optional minus, integer without leading zeros, optional fraction, optional exponent. |
| Numbers.IsNumber | main.go:38-41 | A name is a number exactly when, after some JSON-whitespace padding is set aside, what remains is a number literal, `null`, or a quoted number literal. |
| Numbers.IsNumberComplete | main.go:30-41 | Padding around a decodable text is always exactly the leading and trailing JSON whitespace, so trimming once decides the question. |
| Numbers.IsNumberAcceptsLiterals | main.go:38-41 | `"3.14"` and `"-2"` are numbers. |
| Numbers.IsNumberAcceptsPadded | main.go:38-41 | `" 7 "` and `"null"` are accepted: the decoder skips padding and accepts `null` without error. |
| Numbers.IsNumberRejects | main.go:38-41 | `"abc"`, `""`, `"01"` and `"1."` are not numbers. |
| Headers.UnmarshalRowFirst | main.go:63-82 | Fewer than two non-blank cells give `{}`; two give the pair first → second; three or more also put the third under the date key, which wins if the first cell is the date key itself; at most two keys. |
| Headers.RowFirstIgnoresBlank | main.go:63-82 | Blank spacer cells anywhere in the first row do not change the header. |
| Headers.LastNonBlank | main.go:89-98 | The upward scan finds the bottom-most non-blank row at or above its start, with only blank rows below it, or reports that every row is blank. |
| Headers.Consume | main.go:100-113 | For `n` compacted cells: fewer than 2 give nothing; 2-3 give the front pair; 4-5 add the tail pair `s[n-2] → s[n-1]`; 6 or more also map `s[2]` to the list `s[3..n-2]`. Later writes win. |
| Headers.UnmarshalOperator | main.go:85-115 | The signoff comes from the bottom-most non-blank row only, through `Consume` on its compacted cells; an all-blank grid gives `{}`. |
| Headers.OperatorIgnoresRowsAbove | main.go:89-98 | Rows above the signoff row never affect the result. |
| Headers.OperatorSample | main.go:85-115 | The row `["", 张三, 班长, "", 李四, 组长]` above blank rows gives `{张三: 班长, 李四: 组长}` and no list. |
| Pairs.RowPairs | main.go:191-197 | Pairing a key row with a value row over a column range: a key exists exactly when some column emits it (key or value not `""`), and it holds the value of the right-most emitting column. |
| Pairs.UnmarshalHorizontal | main.go:188-200 | The keys are exactly the row-`y` cells of the emitting columns; each holds the row-`y+1` value of its right-most emitting column; at most `width` keys. |
| Pairs.HorizontalKeepsSpaces | main.go:194-196 | A key of spaces is stored; a column whose key and value are both `""` is skipped. |
| Pairs.UnmarshalVertical | main.go:216-228 | The keys are exactly the column-`x` cells of the emitting rows; each holds the column-`x+1` value of its bottom-most emitting row; at most `height` keys. |
| Pairs.UnmarshalMultiVertical | main.go:244-262 | The keys are exactly the first non-blank cells of rows whose slice is wider than one cell and has two non-blank cells. Each holds the second non-blank cell of the bottom-most such row; a width of one or less gives `{}`. |
| Pairs.MultiVerticalSkipsBlanks | main.go:248-257 | A spacer cell between label and value is skipped, and cells after the second non-blank one are dropped. |
| Pairs.SingleLeadRow | main.go:247-259 | A single row that yields a pair gives exactly that one pair. |
| Tables.RowTable | main.go:133-140 | A named row's sub-table pairs the header cells of row `y` with the row's own cells, with the same rules as the pair row. A table one column wide gives `{}`. |
| Tables.UnmarshalTableVertical | main.go:127-144 | The name is the corner cell. The keys are exactly the data-row names that are not `""`, and each holds the sub-table of the bottom-most row with that name. |
| Tables.TableVerticalReplaces | main.go:129-134 | A repeated row name replaces the earlier sub-table rather than merging with it. |
| Tables.SingleNameTable | main.go:127-144 | When every named row has the same name, the table is that one name holding the last row's sub-table. |
| Tables.EmptyRowTable | main.go:135-140 | A named row none of whose columns emits gives an empty sub-table. |
| Tables.CellStep | main.go:160-174 | One inner iteration: it opens the header's sub-table exactly when the row is long enough by the offset test and the header is not `""`. It stores into slot (header, row key) exactly when it opens and key or value is not `""`. No other slot changes. |
| Tables.Sweep | main.go:158-176 | The two loops from any cell on: table keys grow by the headers of opening cells; each sub-table's keys grow by the storing cells' row keys. The last store into a slot leaves its value; untouched slots keep theirs. |
| Tables.UnmarshalTableHorizontal | main.go:156-178 | The name is the corner cell. The tables are exactly the headers of opening cells. A sub-table's keys are exactly the row keys stored under its header, each holding the value of the last storing cell in loop order; `""` is never a table name. |
| Tables.TableHorizontalMerges | main.go:166-173 | A second column under the same header reuses the sub-table the first column filled. On `[[t, h, h], ["", 1, ""]]` the entry `"" → 1` from the first column survives the second column, which stores nothing; a fresh sub-table would give `{h: {}}`. |
| Tables.SingleSlotTable | main.go:156-178 | When every opening cell has the same header and every storing cell stores into one slot, the table is that one slot holding the last storing cell's value. |
| Pages.Layout | main.go:304-353 | The fourteen section bindings of a page, in main.go's order: each section name with its extractor and literal (x, y, width, height). The constant has no contract; its meaning is this body. |
| Pages.ExtractMeaning | main.go:304-353 | Running a section's extractor gives an object, and the table extractors' names are dropped. The object is the one that extractor's own characterisation describes: the header record; the signoff record, or `{}` when every row is blank; the pair map, or `{}` for no columns; the lead map, or `{}` for no rows or a one-cell slice; or the row- or column-wise sub-tables, never under `""`. |
| Pages.RunLayout | main.go:300-351 | Filling a page from a layout: its keys are exactly the section names. When the names are distinct, each section holds what its extractor reads at its coordinates. |
| Pages.DistinctNamesCount | main.go:300-351 | With distinct section names, the page has exactly one key per section. |
| Pages.LayoutNamesDistinct | main.go:300-351 | The fourteen section names of the page are pairwise distinct. |
| Pages.AssemblePage | main.go:300-352 | A page has exactly fourteen keys, the layout's section names, and each holds the object its extractor reads: the first row, the scanned-for signoff row, or its literal coordinates. |
| Pages.AssembleDocument | main.go:289-354 | The document's keys are exactly the names of the sheets that classify as numbers. Each holds the page of the last such sheet with that name; other sheets leave no trace. |

## Left out

- Directory scan, spreadsheet reading, JSON formatting and file output (main.go:264-299, 356-367). These are I/O. The model starts from a list of sheets, each a name and a grid of cell strings, and ends at the document as a value.
- `toFloat64` and `toInt64` (main.go:14-28): nothing in the core calls them.
- Panics. An out-of-range index makes Go panic, and every panic site is a precondition instead. A caller must show the cells exist before extracting. The model does not degrade missing cells to blanks, because main.go does not.
- Key order and output formatting of the JSON document: objects are maps.
- The `jsons` library is not part of this model. The tables assume that `obj.Get(name).Object()` returns the stored sub-table by reference, so writes through it land in the table. This is how a Go map held in an interface behaves.
- Numbers.IsNumber: quoted numbers written with escape sequences (such as `"\u0031"`) are accepted by Go's decoder but rejected by the model. Go releases before 1.14 accepted any quoted string as a `json.Number`; the model follows 1.14 and later.
- Pairs.UnmarshalMultiVertical: Go's slice expression `rows[y+i][x:x+width]` only needs `x+width` within the row's capacity. The precondition asks for the row's length, which is stricter for slices with spare capacity.
