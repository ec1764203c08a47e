/** A table over hash-partitioned B+ trees (internal/table/table.go). */
module Table {
  import opened Keys
  import opened Division
  import opened RecordPage
  import opened TreeShape
  import opened WalRecord
  import opened SortedListing
  import opened Descent
  import opened BTree
  import opened TreeDelete
  import opened Producers
  import opened TreeScan
  import opened MergedScan

  /** The hash of a key (FNV-1a, 64 bits): a deterministic function, otherwise unknown. */
  type Hash = Key -> U64Value

  function PartitionForKey(hash: Hash, key: Key, n: nat): (i: nat)
    ensures n > 0 ==> i < n
  {
    if n <= 1 then 0 else hash(key) % n
  }

  /** Of n partitions, the only one that the hash exceeds by a multiple of n. */
  lemma PartitionIs(hash: Hash, key: Key, n: nat, i: nat)
    requires i < n
    ensures PartitionForKey(hash, key, n) == i <==> exists q: nat :: hash(key) == q * n + i
  {
    Remainder(hash(key), n, i);
  }

  /** The partitions hold the map: every key in its own partition, and nowhere else. */
  ghost predicate Routed(hash: Hash, ms: seq<map<Key, Value>>, m: map<Key, Value>) {
    && |ms| > 0
    && (forall k :: Get(m, k) == Get(ms[PartitionForKey(hash, k, |ms|)], k))
    && (forall i, k :: 0 <= i < |ms| && k in ms[i] ==> i == PartitionForKey(hash, k, |ms|))
  }

  /** Changing one key in its own partition changes that key of the table and no other. */
  lemma RoutedPut(hash: Hash, ms: seq<map<Key, Value>>, m: map<Key, Value>, i: nat, key: Key, value: Value)
    requires Routed(hash, ms, m) && i == PartitionForKey(hash, key, |ms|)
    ensures Routed(hash, ms[i := ms[i][key := value]], m[key := value])
  {
  }

  /** The table's map when partition i of n comes to hold another map. */
  ghost function Replaced(hash: Hash, m: map<Key, Value>, n: nat, i: nat, mi: map<Key, Value>): map<Key, Value> {
    map k | k in m.Keys + mi.Keys && (if PartitionForKey(hash, k, n) == i then k in mi else k in m) ::
      if PartitionForKey(hash, k, n) == i then mi[k] else m[k]
  }

  lemma RoutedReplace(hash: Hash, ms: seq<map<Key, Value>>, m: map<Key, Value>, i: nat, mi: map<Key, Value>)
    requires Routed(hash, ms, m) && i < |ms| && forall k :: k in mi ==> PartitionForKey(hash, k, |ms|) == i
    ensures Routed(hash, ms[i := mi], Replaced(hash, m, |ms|, i, mi))
  {
    hide PartitionForKey;
  }

  lemma RoutedWithin(hash: Hash, ms: seq<map<Key, Value>>, m: map<Key, Value>, i: nat, key: Key, mi: map<Key, Value>)
    requires Routed(hash, ms, m) && i == PartitionForKey(hash, key, |ms|) && i < |ms| && mi.Keys <= ms[i].Keys + {key}
    ensures forall k :: k in mi ==> PartitionForKey(hash, k, |ms|) == i
  {
  }

  lemma RoutedDelete(hash: Hash, ms: seq<map<Key, Value>>, m: map<Key, Value>, i: nat, key: Key)
    requires Routed(hash, ms, m) && i == PartitionForKey(hash, key, |ms|)
    ensures Routed(hash, ms[i := ms[i] - {key}], m - {key})
  {
  }

  lemma RoutedHas(hash: Hash, ms: seq<map<Key, Value>>, m: map<Key, Value>, c: Pair)
    requires Routed(hash, ms, m)
    ensures (c.key in m && m[c.key] == c.data) <==>
      exists i :: 0 <= i < |ms| && c.key in ms[i] && ms[i][c.key] == c.data
  {
    var p := PartitionForKey(hash, c.key, |ms|);
    assert Get(m, c.key) == Get(ms[p], c.key);
  }

  /** The scans of the partitions, taken together, send the table. */
  lemma ScansAreStreams(hash: Hash, ms: seq<map<Key, Value>>, m: map<Key, Value>, streams: seq<seq<Pair>>)
    requires Routed(hash, ms, m) && |streams| == |ms|
    requires forall i :: 0 <= i < |ms| ==> streams[i] == Listing(ms[i])
    ensures Streams(streams, m)
  {
    hide Rank, Sorted, Routed;
    forall i, j | At(streams, i, j)
      ensures streams[i][j] in Listing(m) && i == PartitionForKey(hash, streams[i][j].key, |ms|)
    {
      SentOnce(hash, ms, m, i, streams[i][j]);
    }
    forall c | c in Listing(m) ensures exists i, j :: At(streams, i, j) && streams[i][j] == c {
      var i := SentBy(hash, ms, m, c);
      var j :| 0 <= j < |streams[i]| && streams[i][j] == c;
      assert At(streams, i, j);
    }
    forall i | 0 <= i < |streams| ensures Sorted(streams[i]) {
      assert Lists(streams[i], ms[i]);
    }
  }

  lemma SentOnce(hash: Hash, ms: seq<map<Key, Value>>, m: map<Key, Value>, i: nat, c: Pair)
    requires Routed(hash, ms, m) && i < |ms| && c in Listing(ms[i])
    ensures c in Listing(m) && i == PartitionForKey(hash, c.key, |ms|)
  {
    hide Rank, Sorted, PartitionForKey;
    assert c.key in ms[i] && ms[i][c.key] == c.data;
    RoutedHas(hash, ms, m, c);
  }

  lemma SentBy(hash: Hash, ms: seq<map<Key, Value>>, m: map<Key, Value>, c: Pair) returns (i: nat)
    requires Routed(hash, ms, m) && c in Listing(m)
    ensures i < |ms| && c in Listing(ms[i])
  {
    hide Rank, Sorted, PartitionForKey;
    RoutedHas(hash, ms, m, c);
    i :| 0 <= i < |ms| && c.key in ms[i] && ms[i][c.key] == c.data;
  }

  /** The keys of partitions 0 to n - 1. */
  ghost function KeysUpTo(ms: seq<map<Key, Value>>, n: nat): set<Key>
    requires n <= |ms|
  {
    if n == 0 then {} else KeysUpTo(ms, n - 1) + ms[n-1].Keys
  }

  lemma {:induction false} KeysUpToHas(ms: seq<map<Key, Value>>, n: nat, k: Key)
    requires n <= |ms|
    ensures k in KeysUpTo(ms, n) <==> exists i :: 0 <= i < n && k in ms[i]
  {
    if n > 0 {
      KeysUpToHas(ms, n - 1, k);
    }
  }

  lemma KeysDisjoint(hash: Hash, ms: seq<map<Key, Value>>, m: map<Key, Value>, n: nat)
    requires Routed(hash, ms, m) && n < |ms|
    ensures KeysUpTo(ms, n) !! ms[n].Keys
  {
    forall k | k in KeysUpTo(ms, n) ensures k !in ms[n] {
      KeysUpToHas(ms, n, k);
      var i :| 0 <= i < n && k in ms[i];
      assert i == PartitionForKey(hash, k, |ms|);
    }
  }

  lemma AllKeys(hash: Hash, ms: seq<map<Key, Value>>, m: map<Key, Value>)
    requires Routed(hash, ms, m)
    ensures |KeysUpTo(ms, |ms|)| == |m|
  {
    hide PartitionForKey;
    forall k ensures k in KeysUpTo(ms, |ms|) <==> k in m {
      KeysUpToHas(ms, |ms|, k);
      assert Get(m, k) == Get(ms[PartitionForKey(hash, k, |ms|)], k);
    }
    assert KeysUpTo(ms, |ms|) == m.Keys;
    assert |m.Keys| == |m|;
  }

  /** The partitions whose goroutines never come to the end of their scans after a merge has stopped at the key: those
      with more pairs left than their channels have slots. A single partition is scanned without any channel. */
  ghost function LeftLocked(ms: seq<map<Key, Value>>, last: Option<Key>): set<nat> {
    if last.None? || |ms| == 1 then {} else set i | 0 <= i < |ms| && Unread(ms[i], last.value) > SLOTS
  }

  /** They are those whose producer, left alone by the merge, never gives up its tree's lock. */
  lemma LeftLockedIff(ms: seq<map<Key, Value>>, last: Key, i: nat, before: seq<Producer>, after: seq<Producer>)
    requires |ms| > 1 && i < |ms|
    requires Run(|ms[i]|, before) && LeftAlone(|ms[i]|, after) && after[0] == before[|before|-1]
    requires |ms[i]| - after[0].received == Unread(ms[i], last) && Blocked(|ms[i]|, after[|after|-1])
    ensures after[|after|-1].locked <==> i in LeftLocked(ms, Some(last))
  {
    hide Unread;
    ReleasedIff(|ms[i]|, before, after);
  }

  /** Stopping after the first key of a table whose pairs all lie in one of two partitions is enough exactly if there
      are more than 65 of them. */
  lemma FirstKeyLocks(m: map<Key, Value>, first: Key)
    requires first in m && forall k :: k in m ==> Rank(first) <= Rank(k)
    ensures 0 in LeftLocked([m, map[]], Some(first)) <==> |m| > 65
  {
    var rest := After(m, Some(first));
    forall k | k in m.Keys - {first} ensures k in rest.Keys {
      RankIsLexicographic(first, k);
    }
    hide Rank;
    assert rest.Keys == m.Keys - {first};
    assert |rest.Keys| == |rest| && |m.Keys| == |m|;
  }

  class Table {
    const hash: Hash
    const partitions: seq<BPlusTree>
    ghost var contents: map<Key, Value>

    ghost function Maps(): (ms: seq<map<Key, Value>>)
      reads partitions
      ensures |ms| == |partitions| && forall i :: 0 <= i < |ms| ==> ms[i] == partitions[i].contents
    {
      seq(|partitions|, i requires 0 <= i < |partitions| reads partitions => partitions[i].contents)
    }

    /** Separate trees, each a search tree. */
    ghost predicate Trees()
      reads partitions
    {
      && (forall i, j :: 0 <= i < j < |partitions| ==> partitions[i] != partitions[j])
      && (forall i :: 0 <= i < |partitions| ==> partitions[i].Valid())
    }

    ghost predicate Valid()
      reads this, partitions
    {
      Trees() && Routed(hash, Maps(), contents)
    }

    lemma Unfolded()
      requires Valid()
      ensures Trees() && Routed(hash, Maps(), contents) && |partitions| > 0
    {
    }

    lemma Folded(ms: seq<map<Key, Value>>)
      requires Trees() && Maps() == ms && Routed(hash, ms, contents)
      ensures Valid()
    {
    }

    /** OpenTable: a table that was written as a single file stays one partition, whatever the options say; otherwise
        a new directory gets empty partitions, 8 unless told otherwise. */
    constructor (hash: Hash, partitionCount: int, legacy: Option<BPlusTree>)
      requires legacy.Some? ==> legacy.value.Valid()
      ensures Valid()
      ensures legacy.Some? ==> partitions == [legacy.value] && contents == legacy.value.contents
      ensures legacy.None? ==> fresh(partitions) && contents == map[] && Small()
      ensures legacy.None? ==> |partitions| == if partitionCount <= 0 then 8 else partitionCount
    {
      hide BPlusTree.Valid, AllSmall;
      var count: nat := if partitionCount <= 0 then 8 else partitionCount;
      if legacy.Some? {
        count := 1;
      }
      var ps: seq<BPlusTree> := [];
      if legacy.Some? {
        ps := [legacy.value];
      } else {
        for i := 0 to count
          invariant |ps| == i && fresh(ps)
          invariant forall j, k :: 0 <= j < k < i ==> ps[j] != ps[k]
          invariant forall j :: 0 <= j < i ==> ps[j].Valid() && ps[j].contents == map[] && AllSmall(ps[j].pages)
        {
          var t := new BPlusTree();
          ps := ps + [t];
        }
      }
      this.hash := hash;
      partitions := ps;
      contents := if legacy.Some? then legacy.value.contents else map[];
    }

    /** OpenTable on a directory of partition files: each is opened as it is. */
    constructor Open(hash: Hash, trees: seq<BPlusTree>, ghost ms: seq<map<Key, Value>>, ghost m: map<Key, Value>)
      requires forall i, j :: 0 <= i < j < |trees| ==> trees[i] != trees[j]
      requires |ms| == |trees| && forall i :: 0 <= i < |trees| ==> trees[i].Valid() && trees[i].contents == ms[i]
      requires Routed(hash, ms, m)
      ensures Valid() && this.hash == hash && partitions == trees && contents == m && Maps() == ms
    {
      hide BPlusTree.Valid, Routed;
      this.hash := hash;
      partitions := trees;
      contents := m;
      new;
      assert Maps() == ms;
    }

    /** GetItem reads the one partition that the key is routed to. */
    method GetItem(key: Key) returns (r: Option<Value>)
      requires Valid()
      ensures r == Get(contents, key)
    {
      hide BPlusTree.Valid, Routed;
      var idx := Route(key);
      r := partitions[idx].Search(key);
    }

    /** The tree that a key is routed to. */
    ghost function TreeOf(key: Key): (t: BPlusTree)
      requires |partitions| > 0
      ensures t in partitions
    {
      partitions[PartitionForKey(hash, key, |partitions|)]
    }

    /** Deleting the key would leave its partition with an empty leaf that the tree cannot do without. */
    ghost predicate Breaks(key: Key)
      requires |partitions| > 0
      reads partitions
    {
      var t := TreeOf(key);
      exists id :: t.RunsEmpty(id, key) && !FirstOfSeveral(t.pages, t.shape, id)
    }

    /** Every cell of every tree is small enough for splits to fit. */
    ghost predicate Small()
      reads partitions
    {
      forall i :: 0 <= i < |partitions| ==> AllSmall(partitions[i].pages)
    }

    /** PutItem does to the map what Insert does to the key's partition, and nothing to the other partitions. */
    method PutItem(key: Key, value: Value) returns (r: Outcome)
      requires Valid()
      modifies this`contents, partitions
      ensures r == old(TreeOf(key).InsertOutcome(key, value))
      ensures old(Room(TreeOf(key).LeafFor(key))) >= LeafCellSize(key, value) + CELL_PTR_SIZE ==>
        r.Done? && Valid() && contents == old(contents)[key := value]
      ensures r.Done? && !old(TreeOf(key).RepeatsSeparator(key, value)) ==>
        Valid() && contents == old(contents)[key := value]
      ensures r.Done? ==>
        (Finds(TreeOf(key).pages, TreeOf(key).root, key, Some(value)) <==> !old(TreeOf(key).LosesPair(key, value)))
      ensures var idx := PartitionForKey(hash, key, |partitions|); var kept := old(TreeOf(key).KeptByLeaf(key, value));
        r.LeafFull? ==> Valid() && contents == Replaced(hash, old(contents), |partitions|, idx, kept)
      ensures r.NodeFull? && !old(TreeOf(key).RepeatsSeparator(key, value)) ==>
        FindsAll(TreeOf(key).pages, TreeOf(key).root, old(TreeOf(key).KeptByNode(key, value)))
      ensures forall t :: t in partitions && t != TreeOf(key) ==> t.Valid() && t.contents == old(t.contents)
      ensures old(Small()) && LeafCellSize(key, value) <= MAX_CELL ==> r.Done? && Small()
    {
      hide *;
      Unfolded();
      var idx := Route(key);
      ghost var ms := Maps();
      RoutedPut(hash, ms, contents, idx, key, value);
      ghost var kept := TreeOf(key).KeptByLeaf(key, value);
      TreeOf(key).KeptWithin(key, value);
      RoutedWithin(hash, ms, contents, idx, key, kept);
      RoutedReplace(hash, ms, contents, idx, kept);
      r := InsertAt(idx, key, value, ms);
      if r.LeafFull? {
        contents := Replaced(hash, contents, |partitions|, idx, kept);
        Folded(Maps());
        return;
      }
      contents := contents[key := value];
      if Trees() && Maps() == ms[idx := ms[idx][key := value]] {
        Folded(Maps());
      }
    }

    method Route(key: Key) returns (idx: nat)
      requires Valid()
      ensures idx < |partitions| && idx == PartitionForKey(hash, key, |partitions|) && partitions[idx] == TreeOf(key)
      ensures Get(Maps()[idx], key) == Get(contents, key)
    {
      hide BPlusTree.Valid;
      idx := PartitionForKey(hash, key, |partitions|);
      assert Get(contents, key) == Get(Maps()[idx], key);
    }

    method InsertAt(idx: nat, key: Key, value: Value, ghost ms: seq<map<Key, Value>>) returns (r: Outcome)
      requires ms == Maps() && Trees() && idx < |partitions| && partitions[idx] == TreeOf(key)
      modifies partitions[idx]
      ensures r == old(partitions[idx].InsertOutcome(key, value))
      ensures old(Room(partitions[idx].LeafFor(key))) >= LeafCellSize(key, value) + CELL_PTR_SIZE ==>
        r.Done? && Trees() && Maps() == ms[idx := ms[idx][key := value]]
      ensures r.Done? && !old(partitions[idx].RepeatsSeparator(key, value)) ==>
        Trees() && Maps() == ms[idx := ms[idx][key := value]]
      ensures r.Done? ==>
        (Finds(partitions[idx].pages, partitions[idx].root, key, Some(value)) <==>
            !old(partitions[idx].LosesPair(key, value)))
      ensures r.LeafFull? ==> Trees() && Maps() == ms[idx := old(partitions[idx].KeptByLeaf(key, value))]
      ensures r.NodeFull? && !old(partitions[idx].RepeatsSeparator(key, value)) ==>
        FindsAll(partitions[idx].pages, partitions[idx].root, old(partitions[idx].KeptByNode(key, value)))
      ensures forall t :: t in partitions && t != partitions[idx] ==> t.Valid() && t.contents == old(t.contents)
      ensures old(Small()) && LeafCellSize(key, value) <= MAX_CELL ==> r.Done? && Small()
    {
      hide BPlusTree.Valid, BPlusTree.InsertOutcome, BPlusTree.RepeatsSeparator, BPlusTree.LosesPair;
      hide BPlusTree.KeptByLeaf;
      hide BPlusTree.KeptByNode, FindsAll, BPlusTree.ParentTakes, BPlusTree.LeafFor, Room;
      hide Finds, LogsTo, Inv, AllSmall, PartitionForKey;
      r := partitions[idx].Insert(key, value);
    }

    /** DeleteItem takes the key out of the map, unless the leaf it leaves empty is not the first of several: then the
        partition is a search tree no more. */
    method DeleteItem(key: Key) returns (r: Outcome)
      requires Valid()
      modifies this`contents, partitions
      ensures r == if key in old(contents) then Done else KeyNotFound
      ensures !old(Breaks(key)) ==> Valid() && contents == old(contents) - {key}
      ensures old(Breaks(key)) ==>
        r.Done? && forall shape' :: !Inv(TreeOf(key).root, TreeOf(key).pages, shape', Settled)
      ensures old(Small()) ==> Small()
      ensures forall t :: t in partitions && t != TreeOf(key) ==> t.Valid() && t.contents == old(t.contents)
    {
      hide *;
      Unfolded();
      var idx := Route(key);
      ghost var ms := Maps();
      RoutedDelete(hash, ms, contents, idx, key);
      r := DeleteAt(idx, key, ms);
      contents := contents - {key};
      if Trees() && Maps() == ms[idx := ms[idx] - {key}] {
        Folded(Maps());
      }
      GetSome(old(contents), key);
      GetSome(ms[idx], key);
    }

    method DeleteAt(idx: nat, key: Key, ghost ms: seq<map<Key, Value>>) returns (r: Outcome)
      requires ms == Maps() && Trees() && idx < |partitions| && partitions[idx] == TreeOf(key)
      modifies partitions[idx]
      ensures r == if key in ms[idx] then Done else KeyNotFound
      ensures !old(Breaks(key)) ==> Trees() && Maps() == ms[idx := ms[idx] - {key}]
      ensures old(Breaks(key)) ==>
        r.Done? && forall shape' :: !Inv(partitions[idx].root, partitions[idx].pages, shape', Settled)
      ensures old(Small()) ==> Small()
      ensures forall t :: t in partitions && t != partitions[idx] ==> t.Valid() && t.contents == old(t.contents)
    {
      hide BPlusTree.Valid, BPlusTree.RunsEmpty, LogsTo, Inv, FirstOfSeveral, PartitionForKey, AllSmall;
      ghost var m, t := partitions[idx].contents, partitions[idx];
      if Breaks(key) {
        var id :| t.RunsEmpty(id, key) && !FirstOfSeveral(t.pages, t.shape, id);
        t.EmptyHasKey(id, key);
      }
      r := partitions[idx].Delete(key);
      assert m - {key} == if key in m then m - {key} else m;
    }

    /** Scans each partition to its end: what its goroutine sends. */
    method ScanPartitions() returns (streams: seq<seq<Pair>>)
      requires Valid()
      ensures Streams(streams, contents) && Sending(streams, Maps())
    {
      hide BPlusTree.Valid, Routed, Streams, Listing;
      streams := [];
      for i := 0 to |partitions|
        invariant |streams| == i && forall j :: 0 <= j < i ==> streams[j] == Listing(partitions[j].contents)
      {
        var out := TreeScan.Scan(partitions[i], (c: Pair) => true);
        AcceptAll(Listing(partitions[i].contents));
        streams := streams + [out];
      }
      ScansAreStreams(hash, Maps(), contents, streams);
    }

    /** Scan lists the whole table in key order, up to the first refusal. Stopped before the end, it leaves partitions
        read-locked: those in `held`. */
    method Scan(accept: Pair -> bool) returns (out: seq<Pair>, held: set<nat>)
      requires Valid()
      ensures out == TakeUntil(Listing(contents), accept)
      ensures held == LeftLocked(Maps(), if AllAccepted(out, accept) then None else LastKey(out))
    {
      hide BPlusTree.Valid, Routed, Streams, Sending, Listing, TakeUntil, AllAccepted, LastKey, Unread;
      if |partitions| == 1 {
        out := TreeScan.Scan(partitions[0], accept);
        OnlyPartition(hash, Maps(), contents);
        held := {};
      } else {
        var streams := ScanPartitions();
        var unread;
        out, unread := ScanMerged(streams, accept, contents, Maps());
        held := set i | 0 <= i < |unread| && unread[i] > SLOTS;
      }
    }

    /** One chunk beyond a key, from the only tree or from the merge of all of them. */
    method ScanOneChunk(size: nat, afterKey: Option<Key>, accept: Pair -> bool)
      returns (chunk: seq<Pair>, done: bool, held: set<nat>)
      requires Valid() && size > 0
      ensures var L := Listing(After(contents, afterKey));
        && chunk == TakeUntil(Limited(L, Some(size)), accept)
        && (done <==> !AllAccepted(chunk, accept) || |L| < size)
      ensures held == LeftLocked(Maps(), if AllAccepted(chunk, accept) && |chunk| < size then None else LastKey(chunk))
    {
      hide Rank, Listing, TakeUntil, After, Limited, AllAccepted, Routed, Streams, Sending, LastKey, Unread;
      hide BPlusTree.Valid;
      if |partitions| == 1 {
        chunk, done := TreeScan.ScanOneChunk(partitions[0], size, afterKey, accept);
        OnlyPartition(hash, Maps(), contents);
        held := {};
      } else {
        var streams := ScanPartitions();
        var unread;
        chunk, done, unread := ScanMergedChunk(streams, size, afterKey, accept, contents, Maps());
        held := set i | 0 <= i < |unread| && unread[i] > SLOTS;
      }
    }

    /** Count is the size of the table. */
    method Count() returns (sum: nat)
      requires Valid()
      ensures sum == |contents|
    {
      hide BPlusTree.Valid, Routed;
      ghost var ms := Maps();
      sum := 0;
      for i := 0 to |partitions|
        invariant sum == |KeysUpTo(ms, i)|
      {
        var c := TreeScan.Count(partitions[i]);
        KeysDisjoint(hash, ms, contents, i);
        assert |ms[i]| == |ms[i].Keys|;
        sum := sum + c;
      }
      AllKeys(hash, ms, contents);
    }
  }

  lemma GetSome(m: map<Key, Value>, k: Key)
    ensures k in m <==> Get(m, k).Some?
  {
  }

  lemma OnlyPartition(hash: Hash, ms: seq<map<Key, Value>>, m: map<Key, Value>)
    requires Routed(hash, ms, m) && |ms| == 1
    ensures ms[0] == m
  {
    assert forall k :: Get(m, k) == Get(ms[0], k);
    assert forall k :: k in m <==> Get(m, k).Some?;
    assert forall k :: k in ms[0] <==> Get(ms[0], k).Some?;
    assert forall k :: k in m ==> Get(m, k) == Some(m[k]) && Get(ms[0], k) == Some(ms[0][k]);
  }
}
