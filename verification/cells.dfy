/**
 * Cell classification (main.go `isSpace`, `allIsNil`) and compaction, the
 * "drop the blank cells, keep the order" loop that the header, trailer and
 * multi-column extractors all run over a row.
 */
module Cells {
  import opened Objects

  /**
   * The code points Go's `unicode.IsSpace` accepts: tab, line feed, vertical
   * tab, form feed, carriage return, space, U+0085, U+00A0, and the rest of
   * Unicode's White_Space property (U+1680, U+2000-U+200A, U+2028, U+2029,
   * U+202F, U+205F, U+3000).
   */
  predicate IsSpaceChar(c: char)
  {
    || '\t' <= c <= '\r'
    || c == ' '
    || c == '\U{85}'
    || c == '\U{A0}'
    || c == '\U{1680}'
    || '\U{2000}' <= c <= '\U{200A}'
    || c == '\U{2028}'
    || c == '\U{2029}'
    || c == '\U{202F}'
    || c == '\U{205F}'
    || c == '\U{3000}'
  }

  /** A cell is blank when the scan finds no non-space character; the empty cell is blank. */
  function IsSpace(s: string): (b: bool)
    ensures b <==> forall i :: 0 <= i < |s| ==> IsSpaceChar(s[i])
  {
    if |s| == 0 then true
    else if !IsSpaceChar(s[0]) then false
    else IsSpace(s[1..])
  }

  /** A row is blank when every cell is blank; the row with no cells is blank. */
  function AllIsNil(row: Row): (b: bool)
    ensures b <==> forall i :: 0 <= i < |row| ==> IsSpace(row[i])
  {
    if |row| == 0 then true
    else if !IsSpace(row[0]) then false
    else AllIsNil(row[1..])
  }

  /**
   * The non-blank cells of `row`, in order: the loop that appends each
   * non-blank cell to an initially empty list.
   */
  function Compact(row: Row): (c: Row)
    ensures |c| <= |row|
    ensures forall i :: 0 <= i < |c| ==> !IsSpace(c[i])
    ensures forall i :: 0 <= i < |row| && !IsSpace(row[i]) ==> row[i] in c
  {
    if |row| == 0 then []
    else
      var front, last := row[..|row| - 1], row[|row| - 1];
      assert row == front + [last];
      Compact(front) + (if IsSpace(last) then [] else [last])
  }

  /** Compaction preserves order: compacting a concatenation compacts each part. */
  lemma {:induction false} CompactAppend(a: Row, b: Row)
    ensures Compact(a + b) == Compact(a) + Compact(b)
    decreases |b|
  {
    if |b| == 0 {
      assert a + b == a;
    } else {
      var b', last := b[..|b| - 1], b[|b| - 1];
      assert (a + b)[..|a + b| - 1] == a + b';
      CompactAppend(a, b');
    }
  }

  /** Compaction only drops cells: every survivor occurs in the row at least as often. */
  lemma {:induction false} CompactSubMultiset(row: Row)
    ensures multiset(Compact(row)) <= multiset(row)
    decreases |row|
  {
    if |row| > 0 {
      var front, last := row[..|row| - 1], row[|row| - 1];
      CompactSubMultiset(front);
      assert row == front + [last];
      assert multiset(row) == multiset(front) + multiset{last};
      if !IsSpace(last) {
        assert multiset(Compact(row)) == multiset(Compact(front)) + multiset{last};
      }
    }
  }

  /** A single cell compacts to itself unless it is blank. */
  lemma CompactCell(s: string)
    ensures Compact([s]) == if IsSpace(s) then [] else [s]
  {
    assert [s][..0] == [];
  }

  /** A row without blank cells compacts to itself. */
  lemma {:induction false} CompactKeepsNonBlank(row: Row)
    requires forall i :: 0 <= i < |row| ==> !IsSpace(row[i])
    ensures Compact(row) == row
    decreases |row|
  {
    if |row| > 0 {
      var front := row[..|row| - 1];
      CompactKeepsNonBlank(front);
      assert row == front + [row[|row| - 1]];
    }
  }

  /** A blank cell anywhere in a row leaves the compacted row unchanged. */
  lemma CompactDropsBlank(a: Row, s: string, b: Row)
    requires IsSpace(s)
    ensures Compact(a + [s] + b) == Compact(a + b)
  {
    CompactAppend(a + [s], b);
    CompactAppend(a, [s]);
    CompactCell(s);
    CompactAppend(a, b);
  }

  /** A row compacts to nothing exactly when it is blank. */
  lemma {:induction false} CompactEmptyIffBlank(row: Row)
    ensures Compact(row) == [] <==> AllIsNil(row)
    decreases |row|
  {
    if |row| > 0 {
      var front, last := row[..|row| - 1], row[|row| - 1];
      CompactEmptyIffBlank(front);
      assert forall i :: 0 <= i < |front| ==> front[i] == row[i];
    }
  }

  /** Compacting twice is compacting once. */
  lemma {:induction false} CompactIdempotent(row: Row)
    ensures Compact(Compact(row)) == Compact(row)
    decreases |row|
  {
    if |row| > 0 {
      var front, last := row[..|row| - 1], row[|row| - 1];
      CompactIdempotent(front);
      CompactAppend(Compact(front), if IsSpace(last) then [] else [last]);
      if !IsSpace(last) {
        CompactCell(last);
      }
    }
  }
}
