/** An input on which a chunked scan never returns: 66 keys in one of two partitions, chunks of one pair, and one
    PutItem after the first chunk (internal/table/table.go:257-288). */
module HangingScan {
  import opened Keys
  import opened RecordPage
  import opened TreeShape
  import opened TreeContents
  import opened SortedListing
  import opened BTree
  import opened LoneSplit
  import opened WalRecord
  import opened Table
  import opened ChunkedScan

  function Everything(c: Pair): bool {
    true
  }

  // ---- when the first chunk of one pair is enough ----

  /** The first chunk ends at the first key. */
  lemma FirstEnd(m: map<Key, Value>, m': map<Key, Value>)
    requires |m| > 65
    ensures var ends := FullEnds([m, m'], 1, Everything);
      |ends| > 0 && ends[0] in m && forall k :: k in m ==> Rank(ends[0]) <= Rank(k)
  {
    hide Rank;
    assert m != map[];
    AfterNone(m);
    var k0 :| k0 in m;
    assert Cell(k0, m[k0]) in Listing(m);
    var L := Listing(m);
    assert Rest([m, m'], 0, None) == L;
    forall k | k in m ensures Rank(L[0].key) <= Rank(k) {
      assert Cell(k, m[k]) in L;
    }
    assert L[0] in L;
  }

  /** Whatever the map is after the PutItem. */
  lemma FirstChunkHangs(m: map<Key, Value>, m': map<Key, Value>)
    requires |m| > 65
    ensures Stuck([[m, map[]], [m', map[]]], [{0}], FullEnds([m, m'], 1, Everything), 0)
  {
    hide *;
    var mss := [[m, map[]], [m', map[]]];
    var ends := FullEnds([m, m'], 1, Everything);
    FirstEnd(m, m');
    FirstKeyLocks(m, ends[0]);
    NextLocked(mss, ends, 0);
    ThenIs(mss, 0, 0);
    TwoPartitions(m, m');
    FirstTouched();
    StuckIff(mss, [{0}], ends, 0);
    assert 0 in Touched([{0}], 0) * LockedBy(mss, ends[..1]);
  }

  lemma FirstTouched()
    ensures 0 in Touched([{0}], 0)
  {
  }

  lemma TwoPartitions(m: map<Key, Value>, m': map<Key, Value>)
    ensures SamePartitions([[m, map[]], [m', map[]]]) && Untouched([m, map[]], [m', map[]], {0})
  {
  }

  // ---- a table of 66 keys ----

  const ROWS: nat := 66

  function Row(i: nat): Pair
    requires i < 256
  {
    Cell([i], [])
  }

  function Rows(n: nat): (rows: seq<Pair>)
    requires n <= 256
    ensures |rows| == n && forall i :: 0 <= i < n ==> rows[i] == Row(i)
  {
    if n == 0 then [] else Rows(n - 1) + [Row(n - 1)]
  }

  function RowMap(n: nat): (m: map<Key, Value>)
    requires n <= 256
    ensures |m| == n && forall k :: k in m <==> |k| == 1 && k[0] < n
    ensures forall k :: k in m ==> m[k] == []
  {
    assert forall k: Key :: n > 0 && |k| == 1 && k[0] == n - 1 ==> k == [n-1];
    if n == 0 then map[] else RowMap(n - 1)[[n-1] := []]
  }

  lemma RowsList(n: nat)
    requires n <= 256
    ensures Lists(Rows(n), RowMap(n))
  {
    hide *;
    forall i, j | 0 <= i < j < n ensures Rank(Rows(n)[i].key) < Rank(Rows(n)[j].key) {
      RowsInOrder(n, i, j);
    }
    forall c: Pair ensures c in Rows(n) <==> c.key in RowMap(n) && RowMap(n)[c.key] == c.data {
      RowsHave(n, c);
    }
    ListsIs(Rows(n), RowMap(n));
  }

  lemma RowsInOrder(n: nat, i: nat, j: nat)
    requires i < j < n <= 256
    ensures Rank(Rows(n)[i].key) < Rank(Rows(n)[j].key)
  {
    hide Rank, Rows;
    RankAtDifference(Row(i).key, Row(j).key, 0);
  }

  lemma RowsHave(n: nat, c: Pair)
    requires n <= 256
    ensures c in Rows(n) <==> c.key in RowMap(n) && RowMap(n)[c.key] == c.data
  {
    hide Rows, RowMap;
    if c.key in RowMap(n) && c.data == [] {
      assert c == Row(c.key[0]) == Rows(n)[c.key[0]];
    }
  }

  lemma ListsIs(out: seq<Pair>, m: map<Key, Value>)
    requires forall i, j :: 0 <= i < j < |out| ==> Rank(out[i].key) < Rank(out[j].key)
    requires forall c: Pair :: c in out <==> c.key in m && m[c.key] == c.data
    ensures Lists(out, m)
  {
  }

  /** A tree of a single leaf. */
  function OneLeaf(rows: seq<Pair>, freeEnd: nat): Pages {
    map[1 := Leaf(0, rows, freeEnd)]
  }

  ghost function OnePlace(): Shape {
    map[1 := Place(0, 0.0, 1.0, 0.0, 1.0)]
  }

  lemma OneLeafTree(rows: seq<Pair>, freeEnd: nat, m: map<Key, Value>)
    requires Lists(rows, m)
    ensures Represents(1, OneLeaf(rows, freeEnd), OnePlace(), Settled, m)
  {
    hide Rank, Lookup;
    forall k ensures Lookup(rows, k) == Get(m, k) {
      if k in m {
        LookupIff(rows, k, m[k]);
      } else {
        LookupMissing(rows, k);
      }
    }
  }

  lemma {:induction false} RowsCost(n: nat)
    requires n <= 256
    ensures Cost(Rows(n), PairSize) == 9 * n
  {
    if n > 0 {
      RowsCost(n - 1);
      assert Rows(n)[..n-1] == Rows(n - 1);
    }
  }

  function FreeEnd(n: nat): nat
    requires n <= 256
  {
    PAGE_SIZE - 7 * n
  }

  lemma RowsFit(n: nat)
    requires n <= 256
    ensures AllFit(OneLeaf(Rows(n), FreeEnd(n))) && AllSmall(OneLeaf(Rows(n), FreeEnd(n)))
  {
    RowsCost(n);
    hide Cost, Rows;
  }

  function AllToFirst(k: Key): U64Value {
    0
  }

  lemma RoutedToFirst(m: map<Key, Value>)
    ensures Routed(AllToFirst, [m, map[]], m)
  {
  }

  /** Every key goes to the first tree; its only leaf is its root. */
  ghost predicate Flat(t: Table)
    reads t, t.partitions
  {
    && t.Valid() && t.hash == AllToFirst && |t.partitions| == 2
    && t.partitions[0].root in t.partitions[0].pages && t.partitions[0].pages[t.partitions[0].root].Leaf?
  }

  method RowTable(n: nat) returns (t: Table)
    requires n <= 256
    ensures Flat(t) && t.Small() && t.contents == RowMap(n) && fresh(t) && fresh(t.partitions)
  {
    hide *;
    RowsList(n);
    OneLeafTree(Rows(n), FreeEnd(n), RowMap(n));
    RowsFit(n);
    RoutedToFirst(RowMap(n));
    var full := new BPlusTree.Open(1, OneLeaf(Rows(n), FreeEnd(n)), OnePlace(), RowMap(n));
    var empty := new BPlusTree();
    t := new Table.Open(AllToFirst, [full, empty], [RowMap(n), map[]], RowMap(n));
    RootIsLeaf(Rows(n), FreeEnd(n));
    FlatIs(t);
    SmallIs(t);
  }

  lemma RootIsLeaf(rows: seq<Pair>, freeEnd: nat)
    ensures 1 in OneLeaf(rows, freeEnd) && OneLeaf(rows, freeEnd)[1].Leaf?
  {
  }

  lemma FlatIs(t: Table)
    requires t.Valid() && t.hash == AllToFirst && |t.partitions| == 2
    requires t.partitions[0].root in t.partitions[0].pages && t.partitions[0].pages[t.partitions[0].root].Leaf?
    ensures Flat(t)
  {
  }

  lemma FlatMeans(t: Table)
    requires Flat(t)
    ensures t.Valid() && t.hash == AllToFirst && |t.partitions| == 2
  {
  }

  lemma Numbers()
    ensures 65 < ROWS <= 256 && LeafCellSize([0], [1]) <= MAX_CELL && ChunkSize(1) == 1
  {
  }

  lemma SmallIs(t: Table)
    requires |t.partitions| == 2 && AllSmall(t.partitions[0].pages) && AllSmall(t.partitions[1].pages)
    ensures t.Small()
  {
    hide AllSmall;
  }

  /** In a flat table no separator can be repeated. */
  lemma FlatNeverRepeats(t: Table, key: Key, value: Value)
    requires Flat(t)
    ensures t.TreeOf(key).Valid() && !t.TreeOf(key).RepeatsSeparator(key, value)
  {
    hide BPlusTree.Valid, BPlusTree.RepeatsSeparator, Routed;
    var tree := t.TreeOf(key);
    assert tree == t.partitions[0];
    RepeatsIff(tree, key, value);
    LinkedPages(tree.pages, tree.PathOf(key), key);
  }

  lemma NoneInSecond(ms: seq<map<Key, Value>>, m: map<Key, Value>)
    requires Routed(AllToFirst, ms, m) && |ms| == 2
    ensures forall k :: k !in ms[1]
  {
    forall k ensures k !in ms[1] {
      assert PartitionForKey(AllToFirst, k, 2) == 0;
    }
  }

  /** All keys of a table whose keys all go to the first of two partitions are there. */
  lemma FlatMaps(t: Table)
    requires t.Valid() && t.hash == AllToFirst && |t.partitions| == 2
    ensures t.Maps() == [t.contents, map[]]
  {
    hide BPlusTree.Valid;
    var ms := t.Maps();
    assert forall k :: k !in ms[1] by {
      NoneInSecond(ms, t.contents);
    }
    assert ms[1] == map[];
    forall k ensures Get(t.contents, k) == Get(ms[0], k) {
    }
    assert forall k :: k in ms[0] <==> Get(ms[0], k).Some?;
    assert forall k :: k in t.contents <==> Get(t.contents, k).Some?;
    assert forall k :: k in t.contents ==> Get(t.contents, k) == Some(t.contents[k]) && Get(ms[0], k) == Some(ms[0][k]);
    assert ms[0] == t.contents;
  }

  /** A small key is put into a flat table. */
  method PutFlat(t: Table, key: Key, value: Value)
    requires Flat(t) && t.Small() && LeafCellSize(key, value) <= MAX_CELL
    modifies t`contents, t.partitions
    ensures t.Valid() && t.contents == old(t.contents)[key := value] && t.Maps() == [t.contents, map[]]
  {
    hide *;
    FlatNeverRepeats(t, key, value);
    FlatMeans(t);
    var r := t.PutItem(key, value);
    FlatMaps(t);
  }

  /** The scan never comes back, whatever the writer does to the partition. */
  method FirstPutHangs(before: Table, after: Table) returns (out: seq<Pair>, hung: bool, held: set<nat>)
    requires before.Valid() && before.Maps() == [before.contents, map[]] && |before.contents| > 65
    requires after.Valid() && after.Maps() == [after.contents, map[]]
    ensures hung
  {
    hide *;
    ghost var m, m' := before.contents, after.contents;
    Numbers();
    TwoPartitions(m, m');
    FirstChunkHangs(m, m');
    out, hung, held := ScanChunked([before, after], [{0}], 1, Everything, [m, m'], [[m, map[]], [m', map[]]]);
  }

  /** From new tables to the scan: 66 keys, one PutItem. */
  method OnePutHangs() returns (out: seq<Pair>, hung: bool, held: set<nat>)
    ensures hung
  {
    hide *;
    Numbers();
    var before := RowTable(ROWS);
    var after := RowTable(ROWS);
    FlatMeans(before);
    FlatMaps(before);
    PutFlat(after, [0], [1]);
    out, hung, held := FirstPutHangs(before, after);
  }
}
