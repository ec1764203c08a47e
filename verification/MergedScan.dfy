/** The k-way merge behind Table.Scan and Table.ScanChunked (internal/table/table.go:290-377). */
module MergedScan {
  import opened Keys
  import opened RecordPage
  import opened SortedListing
  import opened TreeScan

  /** An entry of the heap: the next pair of partition i. */
  datatype MergeItem = MergeItem(pair: Pair, i: nat)

  /** The pair at (i, j) of the partitions' scans. */
  predicate At(streams: seq<seq<Pair>>, i: int, j: int) {
    0 <= i < |streams| && 0 <= j < |streams[i]|
  }

  /** Each partition sends its pairs in key order, no key is sent by two partitions, and together they send the map. */
  ghost predicate Streams(streams: seq<seq<Pair>>, m: map<Key, Value>) {
    && (forall i :: 0 <= i < |streams| ==> Sorted(streams[i]))
    && (forall i, j, i', j' :: At(streams, i, j) && At(streams, i', j') && streams[i][j].key == streams[i'][j'].key ==>
          i == i')
    && (forall i, j :: At(streams, i, j) ==> streams[i][j] in Listing(m))
    && (forall c :: c in Listing(m) ==> exists i, j :: At(streams, i, j) && streams[i][j] == c)
  }

  /** The first n pairs of the listing are emitted, pos[i] of them taken from partition i, each in its order. */
  ghost predicate Emitted(streams: seq<seq<Pair>>, L: seq<Pair>, pos: seq<nat>, n: nat) {
    && n <= |L| && |pos| == |streams|
    && (forall i :: 0 <= i < |streams| ==> pos[i] <= |streams[i]|)
    && (forall i, j :: At(streams, i, j) ==> if j < pos[i] then streams[i][j] in L[..n] else streams[i][j] in L[n..])
  }

  /** The heap holds the next pair of every partition that has one, but for the partition given. */
  ghost predicate HeadsBut(streams: seq<seq<Pair>>, pos: seq<nat>, heap: set<MergeItem>, p: Option<nat>) {
    && |pos| == |streams|
    && (forall x :: x in heap ==>
          x.i < |streams| && At(streams, x.i, pos[x.i]) && x.pair == streams[x.i][pos[x.i]] && p != Some(x.i))
    && (forall i :: 0 <= i < |streams| && At(streams, i, pos[i]) && p != Some(i) ==>
          MergeItem(streams[i][pos[i]], i) in heap)
  }

  ghost predicate Heads(streams: seq<seq<Pair>>, pos: seq<nat>, heap: set<MergeItem>) {
    HeadsBut(streams, pos, heap, None)
  }

  /** What has been received from each partition: the pairs emitted, and one more where the heap holds the next one. */
  ghost predicate Received(streams: seq<seq<Pair>>, pos: seq<nat>, received: seq<nat>, p: Option<nat>) {
    && |received| == |pos| == |streams|
    && forall i :: 0 <= i < |streams| ==>
         received[i] == pos[i] + if At(streams, i, pos[i]) && p != Some(i) then 1 else 0
  }

  ghost predicate Least(heap: set<MergeItem>, x: MergeItem) {
    x in heap && forall y :: y in heap ==> Rank(x.pair.key) <= Rank(y.pair.key)
  }

  /** What heap.Pop promises: an item that none of the others precedes. */
  method PopLeast(heap: set<MergeItem>) returns (x: MergeItem)
    requires heap != {}
    ensures Least(heap, x)
  {
    hide Rank;
    x :| x in heap;
    var todo := heap - {x};
    while todo != {}
      invariant todo <= heap && Least(heap - todo, x)
      decreases todo
    {
      var y :| y in todo;
      todo := todo - {y};
      var c := CompareKeys(y.pair.key, x.pair.key);
      if c < 0 {
        x := y;
      }
    }
    assert heap - todo == heap;
  }

  /** The next pair of the listing has not been taken from the partition that sends it. */
  lemma NextPlace(streams: seq<seq<Pair>>, m: map<Key, Value>, pos: seq<nat>, n: nat) returns (i: nat, j: nat)
    requires Streams(streams, m) && Emitted(streams, Listing(m), pos, n) && n < |Listing(m)|
    ensures i < |streams| && pos[i] <= j < |streams[i]| && streams[i][j] == Listing(m)[n]
  {
    hide Rank, Sorted;
    var L := Listing(m);
    assert L[n] in L;
    i, j :| At(streams, i, j) && streams[i][j] == L[n];
    NotEarlier(L, n);
  }

  lemma TopAtMost(streams: seq<seq<Pair>>, m: map<Key, Value>, pos: seq<nat>, n: nat, heap: set<MergeItem>,
                  top: MergeItem)
    requires Streams(streams, m) && Emitted(streams, Listing(m), pos, n) && Heads(streams, pos, heap)
    requires Least(heap, top)
    requires n < |Listing(m)|
    ensures Rank(top.pair.key) <= Rank(Listing(m)[n].key)
  {
    hide Rank, Sorted, Emitted;
    var i, j := NextPlace(streams, m, pos, n);
    assert Sorted(streams[i]);
    hide Streams;
    var head := MergeItem(streams[i][pos[i]], i);
    assert At(streams, i, pos[i]);
    assert head in heap;
    InOrderOf(streams[i], pos[i], j);
  }

  lemma InOrderOf(s: seq<Pair>, i: nat, j: nat)
    requires Sorted(s) && i <= j < |s|
    ensures Rank(s[i].key) <= Rank(s[j].key)
  {
  }

  lemma FirstOf(L: seq<Pair>, n: nat, t: nat)
    requires Sorted(L) && n <= t < |L| && Rank(L[t].key) <= Rank(L[n].key)
    ensures t == n
  {
  }

  /** The least head of the heap is the next pair of the listing. */
  lemma LeastIsNext(streams: seq<seq<Pair>>, m: map<Key, Value>, pos: seq<nat>, n: nat, heap: set<MergeItem>,
                    top: MergeItem)
    requires Streams(streams, m) && Emitted(streams, Listing(m), pos, n) && Heads(streams, pos, heap)
    requires Least(heap, top)
    ensures n < |Listing(m)| && top.pair == Listing(m)[n]
  {
    hide Rank, Sorted;
    var L := Listing(m);
    assert top.pair in L[n..];
    var t :| n <= t < |L| && L[t] == top.pair;
    TopAtMost(streams, m, pos, n, heap, top);
    FirstOf(L, n, t);
  }

  lemma NotEarlier(L: seq<Pair>, n: nat)
    requires Sorted(L) && n < |L|
    ensures L[n] !in L[..n]
  {
  }

  /** Taking it moves on in its own partition and leaves the others where they are. */
  lemma EmitNext(streams: seq<seq<Pair>>, m: map<Key, Value>, pos: seq<nat>, n: nat, p: nat)
    requires Streams(streams, m) && Emitted(streams, Listing(m), pos, n) && n < |Listing(m)|
    requires p < |streams| && At(streams, p, pos[p]) && streams[p][pos[p]] == Listing(m)[n]
    ensures Emitted(streams, Listing(m), pos[p := pos[p] + 1], n + 1)
  {
    hide Rank, Listing, Streams;
    forall i, j | At(streams, i, j)
      ensures
        if j < pos[p := pos[p] + 1][i] then streams[i][j] in Listing(m)[..n+1] else streams[i][j] in Listing(m)[n+1..]
    {
      SentOnceOnly(streams, m, p, pos[p], i, j);
      EmitAt(streams, Listing(m), pos, n, p, i, j);
    }
  }

  lemma SentOnceOnly(streams: seq<seq<Pair>>, m: map<Key, Value>, p: nat, t: nat, i: nat, j: nat)
    requires Streams(streams, m) && At(streams, p, t) && At(streams, i, j)
    ensures Sorted(streams[p]) && (i != p ==> streams[i][j] != streams[p][t])
  {
    hide Rank, Sorted;
  }

  lemma EmitAt(streams: seq<seq<Pair>>, L: seq<Pair>, pos: seq<nat>, n: nat, p: nat, i: nat, j: nat)
    requires Emitted(streams, L, pos, n) && n < |L| && At(streams, i, j)
    requires p < |streams| && At(streams, p, pos[p]) && streams[p][pos[p]] == L[n] && Sorted(streams[p])
    requires i != p ==> streams[i][j] != L[n]
    ensures if j < pos[i] || (i == p && j == pos[p]) then streams[i][j] in L[..n+1] else streams[i][j] in L[n+1..]
  {
    hide Rank, Sorted;
    assert L[..n+1] == L[..n] + [L[n]] && L[n..] == [L[n]] + L[n+1..];
    if i == p && j > pos[p] {
      LaterDiffers(streams[p], pos[p], j);
    }
  }

  lemma LaterDiffers(s: seq<Pair>, i: nat, j: nat)
    requires Sorted(s) && i < j < |s|
    ensures s[i] != s[j]
  {
  }

  /** Nothing on the heap: everything has been emitted. */
  lemma EmptyHeap(streams: seq<seq<Pair>>, m: map<Key, Value>, pos: seq<nat>, n: nat)
    requires Streams(streams, m) && Emitted(streams, Listing(m), pos, n) && Heads(streams, pos, {})
    ensures n == |Listing(m)|
  {
    hide Rank;
    if n < |Listing(m)| {
      var i, j := NextPlace(streams, m, pos, n);
    }
  }

  lemma NothingEmitted(streams: seq<seq<Pair>>, m: map<Key, Value>)
    requires Streams(streams, m)
    ensures Emitted(streams, Listing(m), seq(|streams|, _ => 0), 0)
  {
  }

  /** The state of one merge: how many pairs each partition's channel has been read for, and the heap. */
  class Merge {
    const streams: seq<seq<Pair>>
    var heap: set<MergeItem>
    var received: seq<nat>
    ghost const m: map<Key, Value>
    ghost var pos: seq<nat>
    ghost var emitted: nat

    /** Between two pairs; after a pair has been popped, its partition p still has to be read again. */
    ghost predicate Holds(p: Option<nat>)
      reads this
    {
      && Streams(streams, m) && Emitted(streams, Listing(m), pos, emitted)
      && HeadsBut(streams, pos, heap, p) && Received(streams, pos, received, p)
      && (p.Some? ==> p.value < |streams|)
    }

    ghost predicate Valid()
      reads this
    {
      Holds(None)
    }

    /** Prime the heap with the first pair of each partition. */
    constructor (streams: seq<seq<Pair>>, ghost m: map<Key, Value>)
      requires Streams(streams, m)
      ensures Valid() && this.m == m && this.streams == streams && emitted == 0
    {
      this.streams := streams;
      this.m := m;
      emitted := 0;
      heap := {};
      pos := seq(|streams|, _ => 0);
      received := [];
      new;
      hide Streams, Emitted, Rank, Listing;
      NothingEmitted(streams, m);
      Prime();
    }

    method Prime()
      requires pos == seq(|streams|, _ => 0)
      modifies this`heap, this`received
      ensures Heads(streams, pos, heap) && Received(streams, pos, received, None)
    {
      heap := {};
      received := [];
      for i := 0 to |streams|
        invariant forall x :: x in heap ==> x.i < i && 0 < |streams[x.i]| && x.pair == streams[x.i][0]
        invariant forall k :: 0 <= k < i && 0 < |streams[k]| ==> MergeItem(streams[k][0], k) in heap
        invariant |received| == i && forall k :: 0 <= k < i ==> received[k] == if 0 < |streams[k]| then 1 else 0
      {
        received := received + [0];
        if 0 < |streams[i]| {
          received := received[i := 1];
          heap := heap + {MergeItem(streams[i][0], i)};
        }
      }
    }

    /** Pops a least item: the next pair of the sorted listing. */
    method Pop() returns (item: MergeItem)
      requires Valid() && heap != {}
      modifies this`heap, this`pos, this`emitted
      ensures Holds(Some(item.i)) && emitted == old(emitted) + 1
      ensures old(emitted) < |Listing(m)| && item.pair == Listing(m)[old(emitted)]
      ensures item.i < |streams| && item.pair in streams[item.i]
    {
      hide *;
      Unfolded(None);
      item := PopLeast(heap);
      LeastIsNext(streams, m, pos, emitted, heap, item);
      assert item in heap by { InHeap(heap, item); }
      HeadIs(streams, pos, heap, item);
      EmitNext(streams, m, pos, emitted, item.i);
      PopStep(streams, pos, heap, item, received);
      heap := heap - {item};
      pos := pos[item.i := pos[item.i] + 1];
      emitted := emitted + 1;
      Folded(Some(item.i));
    }

    /** Reads the channel of the partition whose pair was popped last. */
    method Refill(p: nat)
      requires Holds(Some(p)) && p < |streams|
      modifies this`heap, this`received
      ensures Valid()
    {
      hide *;
      Unfolded(Some(p));
      RefillStep(streams, pos, heap, received, p);
      var r := received[p];
      if r < |streams[p]| {
        heap := heap + {MergeItem(streams[p][r], p)};
        received := received[p := r + 1];
      }
      Folded(None);
    }

    /** The merge returns after this pair and reads no channel any more. */
    method Stop(last: MergeItem, ghost ms: seq<map<Key, Value>>) returns (unread: seq<nat>)
      requires Holds(Some(last.i)) && Sending(streams, ms) && 0 < emitted
      requires last.pair == Listing(m)[emitted-1] && last.pair in streams[last.i]
      ensures UnreadAfter(unread, ms, Some(last.pair.key))
    {
      hide *;
      Unfolded(Some(last.i));
      ReceivedWithin(streams, Listing(m), pos, emitted, received, Some(last.i));
      unread := CountUnread(streams, received);
      StoppedUnread(streams, m, ms, pos, emitted, received, last.i, unread);
    }

    lemma Unfolded(p: Option<nat>)
      requires Holds(p) || (p == None && Valid())
      ensures Streams(streams, m) && Emitted(streams, Listing(m), pos, emitted)
      ensures HeadsBut(streams, pos, heap, p) && Received(streams, pos, received, p)
      ensures p.Some? ==> p.value < |streams|
      ensures p == None ==> Heads(streams, pos, heap)
    {
    }

    lemma Folded(p: Option<nat>)
      requires Streams(streams, m) && Emitted(streams, Listing(m), pos, emitted)
      requires HeadsBut(streams, pos, heap, p) && Received(streams, pos, received, p)
      requires p.Some? ==> p.value < |streams|
      ensures Holds(p) && (p == None ==> Valid())
    {
    }

    /** With nothing on the heap the listing has been emitted to its end and every channel read to its end. */
    lemma Exhausted()
      requires Valid() && heap == {}
      ensures emitted == |Listing(m)|
      ensures |received| == |streams| && forall i :: 0 <= i < |streams| ==> received[i] == |streams[i]|
    {
      hide Rank, Listing, Streams, Emitted;
      EmptyHeap(streams, m, pos, emitted);
      assert forall i :: 0 <= i < |streams| ==> !At(streams, i, pos[i]);
      assert forall i :: 0 <= i < |streams| ==> pos[i] <= |streams[i]| by {
        EmittedWithin(streams, Listing(m), pos, emitted);
      }
    }
  }

  lemma EmittedWithin(streams: seq<seq<Pair>>, L: seq<Pair>, pos: seq<nat>, n: nat)
    requires Emitted(streams, L, pos, n)
    ensures n <= |L| && |pos| == |streams| && forall i :: 0 <= i < |streams| ==> pos[i] <= |streams[i]|
  {
  }

  lemma HeadIs(streams: seq<seq<Pair>>, pos: seq<nat>, heap: set<MergeItem>, x: MergeItem)
    requires Heads(streams, pos, heap) && x in heap
    ensures x.i < |streams| && |pos| == |streams| && At(streams, x.i, pos[x.i]) && pos[x.i] < |streams[x.i]|
    ensures x.pair == streams[x.i][pos[x.i]]
  {
  }

  lemma PopStep(streams: seq<seq<Pair>>, pos: seq<nat>, heap: set<MergeItem>, x: MergeItem, received: seq<nat>)
    requires Heads(streams, pos, heap) && x in heap && Received(streams, pos, received, None)
    requires x.i < |streams| && |pos| == |streams|
    ensures HeadsBut(streams, pos[x.i := pos[x.i] + 1], heap - {x}, Some(x.i))
    ensures Received(streams, pos[x.i := pos[x.i] + 1], received, Some(x.i))
  {
    assert forall y :: y in heap && y.i == x.i ==> y == x;
  }

  lemma RefillStep(streams: seq<seq<Pair>>, pos: seq<nat>, heap: set<MergeItem>, received: seq<nat>, p: nat)
    requires HeadsBut(streams, pos, heap, Some(p)) && Received(streams, pos, received, Some(p)) && p < |streams|
    ensures |received| == |streams| && received[p] == pos[p]
    ensures if received[p] < |streams[p]| then
        Heads(streams, pos, heap + {MergeItem(streams[p][received[p]], p)})
        && HeadsBut(streams, pos, heap + {MergeItem(streams[p][received[p]], p)}, None)
        && Received(streams, pos, received[p := received[p] + 1], None)
      else HeadsBut(streams, pos, heap, None) && Received(streams, pos, received, None)
  {
  }

  lemma InHeap(heap: set<MergeItem>, x: MergeItem)
    requires Least(heap, x)
    ensures x in heap
  {
  }

  /** While a chunk is read: n pairs of the merge have gone by, the first `skip` of them handed over before. */
  ghost predicate Reading(whole: seq<Pair>, skip: nat, n: nat, waiting: bool, out: seq<Pair>, accept: Pair -> bool) {
    && skip <= |whole| && n <= |whole| && AllAccepted(out, accept)
    && (if n <= skip then out == [] else out == whole[skip..n])
    && (n > skip ==> !waiting)
  }

  lemma ReadNext(whole: seq<Pair>, skip: nat, n: nat, waiting: bool, out: seq<Pair>, accept: Pair -> bool, L: seq<Pair>)
    requires Reading(whole, skip, n, waiting, out, accept) && n < |whole| && L == whole[skip..]
    ensures n < skip ==> Reading(whole, skip, n + 1, waiting, out, accept)
    ensures n >= skip && accept(whole[n]) ==>
      Reading(whole, skip, n + 1, false, out + [whole[n]], accept) && AllAccepted(out + [whole[n]], accept)
    ensures n >= skip ==> |out| < |L| && out + [whole[n]] == L[..|out|+1]
    ensures AllAccepted((out + [whole[n]])[..|out|], accept)
    ensures !accept(whole[n]) ==> !AllAccepted(out + [whole[n]], accept)
    ensures LastKey(out + [whole[n]]) == Some(whole[n].key)
  {
    var all := out + [whole[n]];
    assert all[..|out|] == out && all[|out|] == whole[n];
  }

  lemma ReadAll(whole: seq<Pair>, skip: nat, waiting: bool, out: seq<Pair>, accept: Pair -> bool)
    requires Reading(whole, skip, |whole|, waiting, out, accept)
    ensures out == whole[skip..] && AllAccepted(out, accept)
  {
  }

  // ---- what is left unread when the merge stops ----

  /** The pairs of a partition that the merge has not received when it stops after the key: those beyond it, but for
      the one on the heap, which stands there unless the key came from this partition. */
  ghost function Unread(m: map<Key, Value>, last: Key): nat {
    var n := |After(m, Some(last))|;
    if last in m || n == 0 then n else n - 1
  }

  /** Stopped after the last key, or at the end of everything when there is none. */
  ghost predicate UnreadAfter(unread: seq<nat>, ms: seq<map<Key, Value>>, last: Option<Key>) {
    && |unread| == |ms|
    && forall i :: 0 <= i < |ms| ==> unread[i] == if last.None? then 0 else Unread(ms[i], last.value)
  }

  /** The partitions are scanned to send these maps. */
  ghost predicate Sending(streams: seq<seq<Pair>>, ms: seq<map<Key, Value>>) {
    |streams| == |ms| && forall i :: 0 <= i < |ms| ==> streams[i] == Listing(ms[i])
  }

  lemma TakenUpTo(streams: seq<seq<Pair>>, m: map<Key, Value>, pos: seq<nat>, n: nat, i: nat, j: nat)
    requires Streams(streams, m) && Emitted(streams, Listing(m), pos, n) && n > 0 && At(streams, i, j)
    ensures j < pos[i] <==> Rank(streams[i][j].key) <= Rank(Listing(m)[n-1].key)
  {
    hide Rank;
    var L := Listing(m);
    assert Sorted(L);
    if j < pos[i] {
      assert streams[i][j] in L[..n];
      var t :| 0 <= t < n && L[t] == streams[i][j];
      InOrderOf(L, t, n - 1);
    } else {
      assert streams[i][j] in L[n..];
      var t :| n <= t < |L| && L[t] == streams[i][j];
      assert Rank(L[n-1].key) < Rank(L[t].key);
    }
  }

  lemma OnlySender(streams: seq<seq<Pair>>, m: map<Key, Value>, ms: seq<map<Key, Value>>, p: nat, c: Pair, i: nat)
    requires Streams(streams, m) && Sending(streams, ms) && p < |streams| && c in streams[p] && i < |streams|
    ensures c.key in ms[i] <==> i == p
  {
    hide Rank, Sorted;
    var j :| 0 <= j < |streams[p]| && streams[p][j] == c;
    assert At(streams, p, j);
    assert Lists(streams[p], ms[p]) && Lists(streams[i], ms[i]);
    if c.key in ms[i] {
      assert Cell(c.key, ms[i][c.key]) in streams[i];
      var j' :| 0 <= j' < |streams[i]| && streams[i][j'] == Cell(c.key, ms[i][c.key]);
      assert At(streams, i, j');
    }
  }

  lemma PositionIs(streams: seq<seq<Pair>>, m: map<Key, Value>, ms: seq<map<Key, Value>>, pos: seq<nat>, n: nat, i: nat)
    requires Streams(streams, m) && Sending(streams, ms) && Emitted(streams, Listing(m), pos, n) && n > 0
    requires i < |streams|
    ensures pos[i] <= |streams[i]| && |After(ms[i], Some(Listing(m)[n-1].key))| == |streams[i]| - pos[i]
  {
    var last := Listing(m)[n-1].key;
    var skip := ListingAfter(ms[i], Some(last));
    ListingSize(After(ms[i], Some(last)));
    hide Rank, Streams, After;
    var x := if skip < pos[i] then skip else pos[i];
    if skip != pos[i] {
      assert At(streams, i, x);
      TakenUpTo(streams, m, pos, n, i, x);
    }
  }

  lemma StoppedUnread(streams: seq<seq<Pair>>, m: map<Key, Value>, ms: seq<map<Key, Value>>, pos: seq<nat>, n: nat,
                      received: seq<nat>, p: nat, unread: seq<nat>)
    requires Streams(streams, m) && Sending(streams, ms) && Emitted(streams, Listing(m), pos, n) && n > 0
    requires p < |streams| && Listing(m)[n-1] in streams[p] && Received(streams, pos, received, Some(p))
    requires |unread| == |streams| && forall i :: 0 <= i < |streams| ==> unread[i] == |streams[i]| - received[i]
    ensures UnreadAfter(unread, ms, Some(Listing(m)[n-1].key))
  {
    hide Rank, Streams, Emitted, Listing, After;
    EmittedWithin(streams, Listing(m), pos, n);
    forall i | 0 <= i < |streams| ensures unread[i] == Unread(ms[i], Listing(m)[n-1].key) {
      PositionIs(streams, m, ms, pos, n, i);
      OnlySender(streams, m, ms, p, Listing(m)[n-1], i);
    }
  }

  /** Counts what each partition has not been asked for. */
  method CountUnread(streams: seq<seq<Pair>>, received: seq<nat>) returns (unread: seq<nat>)
    requires |received| == |streams| && forall i :: 0 <= i < |streams| ==> received[i] <= |streams[i]|
    ensures |unread| == |streams| && forall i :: 0 <= i < |streams| ==> unread[i] == |streams[i]| - received[i]
  {
    unread := [];
    for i := 0 to |streams|
      invariant |unread| == i && forall j :: 0 <= j < i ==> unread[j] == |streams[j]| - received[j]
    {
      unread := unread + [|streams[i]| - received[i]];
    }
  }

  lemma ReceivedWithin(streams: seq<seq<Pair>>, L: seq<Pair>, pos: seq<nat>, n: nat, received: seq<nat>, p: Option<nat>)
    requires Emitted(streams, L, pos, n) && Received(streams, pos, received, p)
    ensures |received| == |streams| && forall i :: 0 <= i < |streams| ==> received[i] <= |streams[i]|
  {
  }

  /** The last pair of a scan that was stopped. */
  ghost function LastKey(out: seq<Pair>): Option<Key> {
    if |out| == 0 then None else Some(out[|out|-1].key)
  }

  /** scanMerged: every pair of the map exactly once, in key order, up to the first refusal. Each partition is then
      left with the pairs that have not been received from it. */
  method ScanMerged(streams: seq<seq<Pair>>, accept: Pair -> bool, ghost m: map<Key, Value>,
                    ghost ms: seq<map<Key, Value>>)
    returns (out: seq<Pair>, unread: seq<nat>)
    requires Streams(streams, m) && Sending(streams, ms)
    ensures out == TakeUntil(Listing(m), accept)
    ensures UnreadAfter(unread, ms, if AllAccepted(out, accept) then None else LastKey(out))
  {
    hide Streams, Listing, TakeUntil, Rank, Sorted, Lists, Emitted, HeadsBut, Received, Unread, Sending;
    out := [];
    ghost var L := Listing(m);
    var merge := new Merge(streams, m);
    while merge.heap != {}
      invariant merge.Valid() && merge.m == m && merge.streams == streams && fresh(merge)
      invariant merge.emitted == |out| <= |L| && out == L[..|out|] && AllAccepted(out, accept)
      decreases |L| - merge.emitted
    {
      var top := merge.Pop();
      TakeUntilStop(L, |out|, accept);
      out := out + [top.pair];
      if !accept(top.pair) {
        unread := merge.Stop(top, ms);
        return;
      }
      merge.Refill(top.i);
    }
    merge.Exhausted();
    TakeUntilStop(L, |out|, accept);
    unread := CountUnread(streams, merge.received);
    NoneUnread(streams, ms, unread);
  }

  lemma NoneUnread(streams: seq<seq<Pair>>, ms: seq<map<Key, Value>>, unread: seq<nat>)
    requires Sending(streams, ms) && |unread| == |streams| && forall i :: 0 <= i < |streams| ==> unread[i] == 0
    ensures UnreadAfter(unread, ms, None)
  {
  }

  /** A chunk that stopped at a refusal or at its full size. */
  lemma ChunkStops(L: seq<Pair>, chunkSize: nat, out: seq<Pair>, accept: Pair -> bool)
    requires 0 < |out| <= |L| && out == L[..|out|] && |out| <= chunkSize && AllAccepted(out[..|out|-1], accept)
    requires accept(out[|out|-1]) ==> |out| == chunkSize
    ensures out == TakeUntil(Limited(L, Some(chunkSize)), accept)
    ensures AllAccepted(out, accept) <==> accept(out[|out|-1])
    ensures AllAccepted(out, accept) ==> |out| == chunkSize <= |L|
  {
    hide TakeUntil, Limited;
    WalkEnds(L, Some(chunkSize), out, if accept(out[|out|-1]) then Full else Refused, accept);
  }

  lemma ChunkRunsOut(L: seq<Pair>, chunkSize: nat, out: seq<Pair>, accept: Pair -> bool)
    requires out == L && |out| < chunkSize && AllAccepted(out, accept)
    ensures out == TakeUntil(Limited(L, Some(chunkSize)), accept)
  {
    hide TakeUntil, Limited;
    assert L[..|L|] == L;
    WalkEnds(L, Some(chunkSize), out, Running, accept);
  }

  /** scanMergedChunk: a full merge that skips what was already handed over and stops after chunkSize pairs. */
  method ScanMergedChunk(streams: seq<seq<Pair>>, chunkSize: nat, afterKey: Option<Key>, accept: Pair -> bool,
                         ghost m: map<Key, Value>, ghost ms: seq<map<Key, Value>>)
    returns (out: seq<Pair>, done: bool, unread: seq<nat>)
    requires Streams(streams, m) && Sending(streams, ms) && chunkSize > 0
    ensures var L := Listing(After(m, afterKey));
      && out == TakeUntil(Limited(L, Some(chunkSize)), accept)
      && (done <==> !AllAccepted(out, accept) || |L| < chunkSize)
    ensures UnreadAfter(unread, ms, if AllAccepted(out, accept) && |out| < chunkSize then None else LastKey(out))
  {
    hide *;
    out := [];
    var after := afterKey;
    var count := 0;
    ghost var whole := Listing(m);
    ghost var L := Listing(After(m, afterKey));
    ghost var skip := ListingAfter(m, afterKey);
    var merge := new Merge(streams, m);
    ReadNone(whole, skip, after.Some?, accept);
    while merge.heap != {}
      invariant merge.Valid() && merge.m == m && merge.streams == streams && fresh(merge)
      invariant merge.emitted <= |whole| && Reading(whole, skip, merge.emitted, after.Some?, out, accept)
      invariant count == |out| < chunkSize && (after == afterKey || (after.None? && skip <= merge.emitted))
      decreases |whole| - merge.emitted
    {
      ghost var n := merge.emitted;
      var top := merge.Pop();
      ReadNext(whole, skip, n, after.Some?, out, accept, L);
      if after.Some? {
        var c := CompareKeys(top.pair.key, after.value);
        if c <= 0 {
          merge.Refill(top.i);
          continue;
        }
      }
      after := None;
      out := out + [top.pair];
      if !accept(top.pair) {
        ChunkStops(L, chunkSize, out, accept);
        unread := merge.Stop(top, ms);
        return out, true, unread;
      }
      count := count + 1;
      if !(count < chunkSize) {
        ChunkStops(L, chunkSize, out, accept);
        unread := merge.Stop(top, ms);
        return out, count < chunkSize, unread;
      }
      merge.Refill(top.i);
    }
    merge.Exhausted();
    ReadAll(whole, skip, after.Some?, out, accept);
    ChunkRunsOut(L, chunkSize, out, accept);
    done := count < chunkSize;
    unread := CountUnread(streams, merge.received);
    NoneUnread(streams, ms, unread);
  }

  lemma ReadNone(whole: seq<Pair>, skip: nat, waiting: bool, accept: Pair -> bool)
    requires skip <= |whole|
    ensures Reading(whole, skip, 0, waiting, [], accept)
  {
  }
}
