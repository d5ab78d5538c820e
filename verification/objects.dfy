/**
 * Values, grids, and the last-write-wins map-building loop.
 *
 * A sheet arrives as a ragged grid of cell strings; the extractors build JSON
 * objects out of it. An object is a map from string keys to values. The pair
 * extractors, the vertical table, the page and the document all build theirs
 * with one loop that, at each step, either stores one value under one key
 * (overwriting whatever was there) or does nothing. `Apply` is that loop; its
 * contract is the last-write-wins rule. The header and signoff extractors
 * update their object in straight-line code, and the horizontal table has a
 * two-level sweep of its own.
 */
module Objects {

  datatype Option<T> = None | Some(value: T)

  /** A JSON value as the extractors build it: a cell string, a list of cell strings, or a nested object. */
  datatype Value = Str(s: string) | Arr(items: seq<string>) | Obj(fields: map<string, Value>)

  type Object = map<string, Value>

  /** One row of a sheet and a whole sheet; rows may differ in length. */
  type Row = seq<string>
  type Grid = seq<Row>

  /** What one iteration of a map-building loop does: nothing, or store `val` under `key`. */
  datatype Write<V> = Skip | Put(key: string, val: V)

  /** Some write in `ws` stores under `k`. */
  ghost predicate Written<V>(ws: seq<Write<V>>, k: string)
  {
    exists i :: 0 <= i < |ws| && ws[i].Put? && ws[i].key == k
  }

  /** `ws[i]` is a store and no later write in `ws` stores under the same key. */
  ghost predicate LastWrite<V>(ws: seq<Write<V>>, i: int)
  {
    && 0 <= i < |ws|
    && ws[i].Put?
    && forall j :: i < j < |ws| ==> !(ws[j].Put? && ws[j].key == ws[i].key)
  }

  /**
   * `r` is what performing the writes of `ws` on `m`, first to last, leaves:
   * a key is present iff it was present or written, a written key holds the
   * value of its last write, and a key never written keeps its value.
   */
  ghost predicate LastWriteWins<V>(r: map<string, V>, m: map<string, V>, ws: seq<Write<V>>)
  {
    && (forall k :: k in r <==> k in m || Written(ws, k))
    && (forall i :: LastWrite(ws, i) ==> ws[i].key in r && r[ws[i].key] == ws[i].val)
    && (forall k :: k in m && !Written(ws, k) ==> k in r && r[k] == m[k])
  }

  /** Performs the writes of `ws` on `m`, first to last; each write adds at most one key. */
  function Apply<V>(m: map<string, V>, ws: seq<Write<V>>): (r: map<string, V>)
    ensures LastWriteWins(r, m, ws)
    ensures |r| <= |m| + |ws|
    decreases |ws|
  {
    if |ws| == 0 then m
    else
      var r' := Apply(m, ws[..|ws| - 1]);
      ApplyStep(r', m, ws);
      match ws[|ws| - 1]
      case Skip => r'
      case Put(k, v) => r'[k := v]
  }

  /** One more write extends `LastWriteWins` from a prefix to the whole run. */
  lemma ApplyStep<V>(r': map<string, V>, m: map<string, V>, ws: seq<Write<V>>)
    requires |ws| > 0
    requires LastWriteWins(r', m, ws[..|ws| - 1])
    ensures ws[|ws| - 1].Skip? ==> LastWriteWins(r', m, ws)
    ensures ws[|ws| - 1].Put? ==> LastWriteWins(r'[ws[|ws| - 1].key := ws[|ws| - 1].val], m, ws)
  {
    var front, w := ws[..|ws| - 1], ws[|ws| - 1];
    forall k
      ensures Written(ws, k) <==> Written(front, k) || (w.Put? && w.key == k)
    {
      if Written(front, k) {
        var i :| 0 <= i < |front| && front[i].Put? && front[i].key == k;
        assert ws[i] == front[i];
      }
      if w.Put? && w.key == k {
        assert ws[|ws| - 1] == w;
      }
    }
    forall i | LastWrite(ws, i) && i < |ws| - 1
      ensures LastWrite(front, i)
    {
    }
  }
}
