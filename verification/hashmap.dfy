/**
 * The chained coordinate map of code.cpp lines 278-347: 1009 fixed buckets,
 * each a chain of entries with the newest first. Its meaning is a partial
 * map from (row, col) to node id, with -1 for "not found".
 */
module CoordMap {
  import opened Seqs

  const TableSize: int := 1009

  datatype Entry = Entry(row: int, col: int, nodeId: int)

  datatype HashMap = HashMap(table: seq<seq<Entry>>) {
    ghost predicate Valid() {
      |table| == TableSize
    }
  }

  /** The single integer both coordinates are folded into before reduction. */
  function Key(row: int, col: int): int {
    row * 1000 + col
  }

  /** C++ `key % TableSize`: the remainder takes the sign of the dividend. */
  function TruncRem(a: int): (r: int)
    ensures a >= 0 ==> 0 <= r < TableSize
    ensures a < 0 ==> -TableSize < r <= 0
    ensures (a - r) % TableSize == 0
  {
    if a >= 0 then a % TableSize else -((-a) % TableSize)
  }

  /** `hash` exactly as written: negative whenever the key is negative and not a multiple of 1009. */
  function HashAsWritten(row: int, col: int): (idx: int)
    ensures Key(row, col) >= 0 ==> 0 <= idx < TableSize
    ensures Key(row, col) < 0 ==> -TableSize < idx <= 0
    ensures (Key(row, col) - idx) % TableSize == 0
  {
    TruncRem(Key(row, col))
  }

  /**
   * `hash` as evidently intended: the bucket index is the non-negative
   * remainder, so it lies inside the table for every coordinate, including
   * the out-of-grid probes of row -1 and column -1. On non-negative keys it
   * agrees with the source; on the others it picks the same residue class.
   */
  function Hash(row: int, col: int): (idx: int)
    ensures 0 <= idx < TableSize
    ensures Key(row, col) >= 0 ==> idx == HashAsWritten(row, col)
    ensures (idx - HashAsWritten(row, col)) % TableSize == 0
  {
    Key(row, col) % TableSize
  }

  /** The up-probe from any cell of row 0 lands on a negative bucket index. */
  lemma {:induction false} TopRowProbeIndexNegative(col: int)
    requires 0 <= col < 1000
    ensures HashAsWritten(0 - 1, col) < 0
  {
    assert Key(-1, col) == col - 1000;
  }

  /** The left-probe from cell (0, 0) lands on a negative bucket index. */
  lemma LeftProbeFromOriginIndexNegative()
    ensures HashAsWritten(0, 0 - 1) == -1
  {
  }

  function NewHashMap(): (m: HashMap)
    ensures m.Valid()
    ensures forall row, col :: Get(m, row, col) == -1
  {
    HashMap(seq(TableSize, _ => []))
  }

  /** The node id of the first entry of `bucket` for (row, col), or -1. */
  function Find(bucket: seq<Entry>, row: int, col: int): int
  {
    if |bucket| == 0 then -1
    else if bucket[0].row == row && bucket[0].col == col then bucket[0].nodeId
    else Find(bucket[1..], row, col)
  }

  /** `Find` answers the node id of the first entry for (row, col), and -1 when the bucket has none. */
  lemma {:induction false} FindFirst(bucket: seq<Entry>, row: int, col: int)
    ensures (forall i :: 0 <= i < |bucket| ==> (bucket[i].row, bucket[i].col) != (row, col)) ==> Find(bucket, row, col) == -1
    ensures forall i :: 0 <= i < |bucket| && (bucket[i].row, bucket[i].col) == (row, col) &&
                        (forall j :: 0 <= j < i ==> (bucket[j].row, bucket[j].col) != (row, col))
                        ==> Find(bucket, row, col) == bucket[i].nodeId
    decreases |bucket|
  {
    if |bucket| > 0 && !(bucket[0].row == row && bucket[0].col == col) {
      FindFirst(bucket[1..], row, col);
      assert forall i :: 1 <= i < |bucket| ==> bucket[1..][i - 1] == bucket[i];
    }
  }

  /**
   * `get` walks the bucket of (row, col): it answers the node id of the
   * first, that is newest, entry for the coordinate, and -1 when the bucket
   * holds none.
   */
  function Get(m: HashMap, row: int, col: int): (id: int)
    requires m.Valid()
    ensures (forall e :: e in m.table[Hash(row, col)] ==> (e.row, e.col) != (row, col)) ==> id == -1
    ensures forall i :: 0 <= i < |m.table[Hash(row, col)]| && m.table[Hash(row, col)][i].row == row &&
                        m.table[Hash(row, col)][i].col == col &&
                        (forall j :: 0 <= j < i ==> (m.table[Hash(row, col)][j].row, m.table[Hash(row, col)][j].col) != (row, col))
                        ==> id == m.table[Hash(row, col)][i].nodeId
  {
    FindFirst(m.table[Hash(row, col)], row, col);
    Find(m.table[Hash(row, col)], row, col)
  }

  /**
   * Prepends an entry to the bucket: afterwards (row, col) maps to `nodeId`
   * and every other coordinate, same bucket or not, maps to what it did.
   */
  function Insert(m: HashMap, row: int, col: int, nodeId: int): (m': HashMap)
    requires m.Valid()
    ensures m'.Valid()
    ensures Get(m', row, col) == nodeId
    ensures forall r, c :: (r, c) != (row, col) ==> Get(m', r, c) == Get(m, r, c)
  {
    var idx := Hash(row, col);
    var m' := HashMap(m.table[idx := [Entry(row, col, nodeId)] + m.table[idx]]);
    assert forall r, c :: (r, c) != (row, col) && Hash(r, c) == idx ==>
      Find(m'.table[idx], r, c) == Find(m.table[idx], r, c) by {
      forall r, c | (r, c) != (row, col) && Hash(r, c) == idx
        ensures Find(m'.table[idx], r, c) == Find(m.table[idx], r, c)
      {
        assert m'.table[idx][1..] == m.table[idx];
      }
    }
    m'
  }

  /** The map sends every coordinate to its position in `keys`, and to -1 when it is absent. */
  ghost predicate Indexes(m: HashMap, keys: seq<(int, int)>) {
    m.Valid() && forall r, c {:trigger Get(m, r, c)} :: Get(m, r, c) == IndexOf(keys, (r, c))
  }

  /** The partial map a history of insertions denotes: later insertions win. */
  ghost function Denotation(inserts: seq<Entry>): map<(int, int), int> {
    if inserts == [] then map[]
    else
      var e := inserts[|inserts| - 1];
      Denotation(inserts[..|inserts| - 1])[(e.row, e.col) := e.nodeId]
  }

  function InsertAll(m: HashMap, inserts: seq<Entry>): (m': HashMap)
    requires m.Valid()
    ensures m'.Valid()
    decreases |inserts|
  {
    if inserts == [] then m
    else
      var e := inserts[|inserts| - 1];
      Insert(InsertAll(m, inserts[..|inserts| - 1]), e.row, e.col, e.nodeId)
  }

  /**
   * The table refines a partial map: after any history of insertions into a
   * fresh table, `Get` answers the most recent id for the coordinate, and -1
   * for a coordinate never inserted.
   */
  lemma {:induction false} GetDenotes(inserts: seq<Entry>, row: int, col: int)
    ensures var d := Denotation(inserts);
            Get(InsertAll(NewHashMap(), inserts), row, col) == if (row, col) in d then d[(row, col)] else -1
    decreases |inserts|
  {
    if inserts != [] {
      GetDenotes(inserts[..|inserts| - 1], row, col);
    }
  }
}
