/** Scan, ScanChunked and Count of internal/storage/btree.go. */
module TreeScan {
  import opened Keys
  import opened RecordPage
  import opened Sets
  import opened TreeShape
  import opened TreeContents
  import opened TreeTheorems
  import opened SortedListing
  import opened BTree

  /** The pairs from index s on are those beyond the key. */
  ghost predicate StartsAfter(pairs: seq<Pair>, s: nat, after: Option<Key>) {
    && s <= |pairs|
    && forall i :: 0 <= i < |pairs| ==> (i < s <==> after.Some? && Rank(pairs[i].key) <= Rank(after.value))
  }

  /** A leaf's pairs are its slice of the listing. */
  lemma LeafSlice(root: PageId, pages: Pages, shape: Shape, m: map<Key, Value>, id: PageId, after: Option<Key>, s: nat)
    requires Represents(root, pages, shape, Settled, m)
    requires id in pages && pages[id].Leaf? && StartsAfter(pages[id].pairs, s, after)
    ensures id in shape
    ensures var L := Listing(After(m, after));
      Below(L, shape[id].lo) <= Below(L, shape[id].hi) &&
      pages[id].pairs[s..] == L[Below(L, shape[id].lo)..Below(L, shape[id].hi)]
  {
    hide Rank, Lookup, Below, Listing, Disjoint, Children, Chained;
    var at, pairs, L := shape[id], pages[id].pairs, Listing(After(m, after));
    assert NodeOk(pages[id], at) && Agrees(pages[id], at, m);
    BelowSlice(L, at.lo, at.hi);
    forall c: Pair ensures c in pairs[s..] <==> c in L && at.lo <= Rank(c.key) < at.hi {
      if InRange(c.key, at) {
        LookupIff(pairs, c.key, c.data);
      }
      assert c in pairs[s..] <==> c in pairs && (after.Some? ==> Rank(after.value) < Rank(c.key)) by {
        DropAfter(pairs, s, after, c);
      }
    }
    SortedUnique(pairs[s..], L[Below(L, at.lo)..Below(L, at.hi)]);
  }

  lemma DropAfter(pairs: seq<Pair>, s: nat, after: Option<Key>, c: Pair)
    requires StartsAfter(pairs, s, after)
    ensures c in pairs[s..] <==> c in pairs && (after.Some? ==> Rank(after.value) < Rank(c.key))
  {
  }

  /** The leaf a scan starts from: the first one, or the one that would hold the last key seen. */
  method FindStart(t: BPlusTree, after: Option<Key>) returns (id: PageId, s: nat)
    requires t.Valid()
    ensures id in t.pages && t.pages[id].Leaf? && id in t.shape && StartsAfter(t.pages[id].pairs, s, after)
    ensures if after.None? then t.shape[id].lo == 0.0 else InRange(after.value, t.shape[id])
  {
    hide Rank, Nodes, Disjoint, Chained, Answers, AllFit, Sorted;
    if after.None? {
      id, s := t.root, 0;
      while t.pages[id].Internal?
        invariant id in t.pages && id in t.shape && t.shape[id].lo == 0.0
        decreases t.shape[id].level
      {
        assert ChildOk(t.pages, t.shape, Settled, id, 0);
        if |t.pages[id].seps| > 0 {
          id := t.pages[id].seps[0].data;
        } else {
          id := t.pages[id].right;
        }
      }
      return;
    }
    var path := t.FindLeafPath(after.value);
    id := path[|path|-1];
    LeafSorted(t.root, t.pages, t.shape, id);
    var pairs := t.pages[id].pairs;
    s := |pairs|;
    for i := 0 to |pairs|
      invariant s == |pairs|
      invariant forall j :: 0 <= j < i ==> Rank(pairs[j].key) <= Rank(after.value)
    {
      var cmp := CompareKeys(pairs[i].key, after.value);
      if cmp > 0 {
        assert forall j :: i < j < |pairs| ==> Rank(pairs[i].key) < Rank(pairs[j].key) by { SortedFrom(pairs, i); }
        s := i;
        return;
      }
    }
  }

  lemma SortedFrom(pairs: seq<Pair>, i: nat)
    requires Sorted(pairs) && i < |pairs|
    ensures forall j :: i < j < |pairs| ==> Rank(pairs[i].key) < Rank(pairs[j].key)
  {
  }

  /** The first n pairs, or all of them when there is no limit. */
  ghost function Limited(L: seq<Pair>, limit: Option<nat>): seq<Pair> {
    if limit.Some? && limit.value < |L| then L[..limit.value] else L
  }

  /** The state of a chain walk: out is the accepted start of the listing up to the current leaf. */
  ghost predicate Walked(t: BPlusTree, after: Option<Key>, L: seq<Pair>, out: seq<Pair>, pageID: PageId, s: nat,
                         leaves: seq<PageId>, j: nat)
    reads t
  {
    && |out| <= |L| && out == L[..|out|]
    && j <= |leaves|
    && (pageID == 0 <==> j == |leaves|)
    && (pageID == 0 ==> |out| == |L|)
    && (pageID != 0 ==>
          && pageID == leaves[j] && pageID in t.pages && pageID in t.shape && t.pages[pageID].Leaf?
          && s <= |t.pages[pageID].pairs| && StartsAfter(t.pages[pageID].pairs, s, after)
          && |out| == Below(L, t.shape[pageID].lo))
  }

  /** Leaving a leaf at its end arrives at the start of the next one. */
  lemma NextLeaf(t: BPlusTree, after: Option<Key>, L: seq<Pair>, pageID: PageId, leaves: seq<PageId>, j: nat, s: nat,
                 out: seq<Pair>)
    requires t.Valid() && L == Listing(After(t.contents, after))
    requires leaves == InOrder(t.pages, t.root, t.shape[t.root].level) && j < |leaves| && leaves[j] == pageID
    requires pageID in t.pages && t.pages[pageID].Leaf? && pageID in t.shape
    requires after.Some? ==> Rank(after.value) < t.shape[pageID].hi
    requires |out| == Below(L, t.shape[pageID].hi) && out == L[..|out|]
    ensures Walked(t, after, L, out, t.pages[pageID].right, 0, leaves, j + 1)
    ensures t.pages[pageID].right != 0 ==>
      t.pages[pageID].right in t.shape && t.shape[t.pages[pageID].right].lo == t.shape[pageID].hi
      && t.shape[pageID].hi <= t.shape[t.pages[pageID].right].hi
  {
    hide Rank, Answers, AllFit, Disjoint, Children, Below, Listing, InOrder;
    ChainIsInOrder(t.root, t.pages, t.shape);
    assert ChainOk(t.pages, t.shape, pageID);
    var r := t.pages[pageID].right;
    BelowEnds(L);
    assert j + 1 < |leaves| ==> leaves[j+1] in t.pages && t.pages[leaves[j+1-1]].right == leaves[j+1];
    if r != 0 {
      assert NodeOk(t.pages[r], t.shape[r]);
    }
  }

  datatype Status = Running | Refused | Full

  /** Hands over the pairs of one leaf from index s on. */
  method WalkLeaf(pairs: seq<Pair>, s: nat, before: seq<Pair>, limit: Option<nat>, accept: Pair -> bool,
                  ghost L: seq<Pair>, ghost end: nat)
    returns (out: seq<Pair>, status: Status)
    requires s <= |pairs| && |before| <= end <= |L| && before == L[..|before|] && pairs[s..] == L[|before|..end]
    requires AllAccepted(before, accept) && (limit.Some? ==> |before| < limit.value)
    ensures |out| <= |L| && out == L[..|out|]
    ensures status.Running? ==> |out| == end && AllAccepted(out, accept) && (limit.Some? ==> |out| < limit.value)
    ensures status.Full? ==> limit == Some(|out|) && AllAccepted(out, accept)
    ensures status.Refused? ==> |out| > 0 && AllAccepted(out[..|out|-1], accept) && !accept(out[|out|-1])
    ensures status.Refused? && limit.Some? ==> |out| <= limit.value
  {
    out := before;
    for i := s to |pairs|
      invariant |before| + (i - s) <= end && out == L[..|before| + (i - s)]
      invariant AllAccepted(out, accept) && (limit.Some? ==> |out| < limit.value)
    {
      assert pairs[i] == pairs[s..][i - s] == L[|before|..end][i - s] == L[|out|];
      out := out + [pairs[i]];
      if !accept(pairs[i]) {
        return out, Refused;
      }
      if limit.Some? && |out| >= limit.value {
        return out, Full;
      }
    }
    status := Running;
  }

  /** Walks the leaf chain, handing over pairs until the limit or a refusal. */
  method WalkChain(t: BPlusTree, startID: PageId, startIdx: nat, limit: Option<nat>, accept: Pair -> bool,
                   ghost after: Option<Key>)
    returns (out: seq<Pair>, done: bool)
    requires t.Valid() && (limit.Some? ==> limit.value > 0)
    requires startID in t.pages && t.pages[startID].Leaf? && startID in t.shape
    requires StartsAfter(t.pages[startID].pairs, startIdx, after)
    requires if after.None? then t.shape[startID].lo == 0.0 else InRange(after.value, t.shape[startID])
    ensures var L := Listing(After(t.contents, after));
      && out == TakeUntil(Limited(L, limit), accept)
      && (done <==> !AllAccepted(out, accept) || limit.None? || |L| < limit.value)
  {
    hide Rank, Nodes, Disjoint, Chained, Children, Answers, AllFit, Sorted, Below, Listing, InOrder, StartsAfter;
    hide Limited, TakeUntil;
    ghost var L := Listing(After(t.contents, after));
    ghost var leaves := InOrder(t.pages, t.root, t.shape[t.root].level);
    ghost var j := StartOf(t, startID, startIdx, after, L);
    var pageID := startID;
    var s: nat := startIdx;
    out := [];
    while pageID != 0
      invariant Walked(t, after, L, out, pageID, s, leaves, j)
      invariant AllAccepted(out, accept) && (limit.Some? ==> |out| < limit.value)
      invariant pageID != 0 && after.Some? ==> Rank(after.value) < t.shape[pageID].hi
      decreases |leaves| - j
    {
      LeafSlice(t.root, t.pages, t.shape, t.contents, pageID, after, s);
      var status;
      out, status := WalkLeaf(t.pages[pageID].pairs, s, out, limit, accept, L, Below(L, t.shape[pageID].hi));
      if status != Running {
        WalkEnds(L, limit, out, status, accept);
        return out, status.Refused?;
      }
      NextLeaf(t, after, L, pageID, leaves, j, s, out);
      pageID, s, j := t.pages[pageID].right, 0, j + 1;
    }
    WalkEnds(L, limit, out, Running, accept);
    done := true;
  }

  /** How a walk ends decides what it handed over and whether data may remain. */
  lemma WalkEnds(L: seq<Pair>, limit: Option<nat>, out: seq<Pair>, status: Status, accept: Pair -> bool)
    requires |out| <= |L| && out == L[..|out|] && (limit.Some? ==> |out| <= limit.value)
    requires status.Running? ==> |out| == |L| && AllAccepted(out, accept) && (limit.Some? ==> |out| < limit.value)
    requires status.Full? ==> limit == Some(|out|) && AllAccepted(out, accept)
    requires status.Refused? ==> |out| > 0 && AllAccepted(out[..|out|-1], accept) && !accept(out[|out|-1])
    ensures out == TakeUntil(Limited(L, limit), accept)
    ensures status.Refused? <==> !AllAccepted(out, accept)
    ensures status.Full? ==> limit.Some? && limit.value <= |L|
  {
    var M := Limited(L, limit);
    var n := if status.Refused? then |out| - 1 else |out|;
    assert out[..n] == M[..n];
    TakeUntilStop(M, n, accept);
  }

  /** A scan starts at a leaf below which nothing is left to list. */
  lemma StartOf(t: BPlusTree, id: PageId, s: nat, after: Option<Key>, L: seq<Pair>) returns (j: nat)
    requires t.Valid() && L == Listing(After(t.contents, after))
    requires id in t.pages && t.pages[id].Leaf? && id in t.shape && StartsAfter(t.pages[id].pairs, s, after)
    requires if after.None? then t.shape[id].lo == 0.0 else InRange(after.value, t.shape[id])
    ensures Walked(t, after, L, [], id, s, InOrder(t.pages, t.root, t.shape[t.root].level), j)
  {
    hide Rank, Answers, AllFit, Disjoint, Children, Nodes, InOrder;
    ChainIsInOrder(t.root, t.pages, t.shape);
    var leaves := InOrder(t.pages, t.root, t.shape[t.root].level);
    j :| 0 <= j < |leaves| && leaves[j] == id;
    if |L| > 0 {
      assert L[0] in L;
    }
  }

  /** Scan hands over the whole map in key order, up to the first refusal. */
  method Scan(t: BPlusTree, accept: Pair -> bool) returns (out: seq<Pair>)
    requires t.Valid()
    ensures out == TakeUntil(Listing(t.contents), accept)
  {
    AfterNone(t.contents);
    var id, s := FindStart(t, None);
    var done;
    out, done := WalkChain(t, id, s, None, accept, None);
  }

  lemma {:induction false} ListingSize(m: map<Key, Value>)
    ensures |Listing(m)| == |m|
    decreases |m|
  {
    if m != map[] {
      LeastKeyExists(m);
      var c := Listing(m)[0];
      assert c in Listing(m);
      assert (m - {c.key}).Keys == m.Keys - {c.key};
      ListingTail(m);
      ListingSize(m - {c.key});
    }
  }

  lemma ListingTail(m: map<Key, Value>)
    requires |Listing(m)| > 0
    ensures Listing(m)[1..] == Listing(m - {Listing(m)[0].key})
  {
  }

  method Count(t: BPlusTree) returns (n: nat)
    requires t.Valid()
    ensures n == |t.contents|
  {
    var out := Scan(t, (c: Pair) => true);
    AcceptAll(Listing(t.contents));
    ListingSize(t.contents);
    n := |out|;
  }

  lemma AcceptAll(s: seq<Pair>)
    ensures TakeUntil(s, (c: Pair) => true) == s
  {
    assert s[..|s|] == s;
    TakeUntilStop(s, |s|, (c: Pair) => true);
  }

  // ---- chunks ----

  /** One chunk, read from the tree as it is while the lock is held. */
  method ScanOneChunk(t: BPlusTree, chunkSize: nat, after: Option<Key>, accept: Pair -> bool)
    returns (out: seq<Pair>, done: bool)
    requires t.Valid() && chunkSize > 0
    ensures var L := Listing(After(t.contents, after));
      && out == TakeUntil(Limited(L, Some(chunkSize)), accept)
      && (done <==> !AllAccepted(out, accept) || |L| < chunkSize)
  {
    var id, s := FindStart(t, after);
    out, done := WalkChain(t, id, s, Some(chunkSize), accept, after);
  }

  lemma {:induction false} TakeUntilPrefix(s: seq<Pair>, accept: Pair -> bool)
    ensures var r := TakeUntil(s, accept);
      |r| <= |s| && r == s[..|r|] && (|s| > 0 ==> |r| > 0) && (AllAccepted(r, accept) ==> r == s)
  {
    if |s| > 0 {
      var r := TakeUntil(s[1..], accept);
      TakeUntilPrefix(s[1..], accept);
      if accept(s[0]) {
        assert s[..|r|+1] == [s[0]] + s[1..][..|r|];
        assert TakeUntil(s, accept) == [s[0]] + r;
        assert forall i :: 0 <= i < |r| ==> r[i] == ([s[0]] + r)[i+1];
      }
    }
  }

  ghost predicate Beyond(k: Key, after: Option<Key>) {
    after.Some? ==> Rank(after.value) < Rank(k)
  }

  /** One chunk is a gap-free ascending stretch of the map beyond the key. */
  ghost predicate IsChunk(out: seq<Pair>, m: map<Key, Value>, after: Option<Key>, complete: bool) {
    && Sorted(out)
    && (forall c :: c in out ==> c.key in m && m[c.key] == c.data && Beyond(c.key, after))
    && (forall k | k in m && Beyond(k, after) && (complete || UpTo(out, k)) :: Cell(k, m[k]) in out)
  }

  ghost predicate UpTo(out: seq<Pair>, k: Key) {
    |out| > 0 && Rank(k) <= Rank(out[|out|-1].key)
  }

  lemma ChunkPrefix(L: seq<Pair>, size: nat, accept: Pair -> bool, out: seq<Pair>)
    requires size > 0 && out == TakeUntil(Limited(L, Some(size)), accept)
    ensures |out| <= |L| && out == L[..|out|] && (|L| > 0 ==> |out| > 0)
    ensures AllAccepted(out, accept) ==> out == Limited(L, Some(size))
  {
    TakeUntilPrefix(Limited(L, Some(size)), accept);
  }

  lemma PrefixHas(L: seq<Pair>, n: nat, c: Pair)
    requires Sorted(L) && n <= |L| && c in L
    requires n == |L| || UpTo(L[..n], c.key)
    ensures c in L[..n]
  {
  }

  /** The first n pairs beyond a key are a chunk, complete when they are all. */
  lemma PrefixIsChunk(m: map<Key, Value>, after: Option<Key>, n: nat, out: seq<Pair>)
    requires n <= |Listing(After(m, after))| && out == Listing(After(m, after))[..n]
    ensures IsChunk(out, m, after, n == |Listing(After(m, after))|)
  {
    hide Rank, Listing, UpTo, Sorted, After;
    var L := Listing(After(m, after));
    ListedBeyond(m, after);
    SliceSorted(L, 0, n);
    forall c | c in out ensures c.key in m && m[c.key] == c.data && Beyond(c.key, after) {
      assert c in L;
    }
    forall k | k in m && Beyond(k, after) && (n == |L| || UpTo(out, k)) ensures Cell(k, m[k]) in out {
      assert Cell(k, m[k]) in L;
      PrefixHas(L, n, Cell(k, m[k]));
    }
  }

  lemma ListedBeyond(m: map<Key, Value>, after: Option<Key>)
    ensures Sorted(Listing(After(m, after)))
    ensures forall c :: c in Listing(After(m, after)) <==> c.key in m && m[c.key] == c.data && Beyond(c.key, after)
  {
    hide Rank, Sorted;
    assert Lists(Listing(After(m, after)), After(m, after));
  }

  /** Restarting beyond the last key handed over continues the listing. */
  lemma Resume(m: map<Key, Value>, n: nat)
    requires 0 < n <= |Listing(m)|
    ensures Listing(After(m, Some(Listing(m)[n-1].key))) == Listing(m)[n..]
  {
    hide Rank, After;
    var L := Listing(m);
    var skip := ListingAfter(m, Some(L[n-1].key));
    assert n - 1 < skip;
    assert n < |L| ==> Rank(L[n-1].key) < Rank(L[n].key);
    assert n < |L| ==> !(n < skip);
  }

  ghost predicate HasKey(out: seq<Pair>, k: Key) {
    exists i :: 0 <= i < |out| && out[i].key == k
  }

  /** The key is there whenever a chunk is read. */
  ghost predicate InAll(k: Key, ms: seq<map<Key, Value>>) {
    forall i :: 0 <= i < |ms| ==> k in ms[i]
  }

  ghost predicate InSome(c: Pair, ms: seq<map<Key, Value>>) {
    exists i :: 0 <= i < |ms| && c.key in ms[i] && ms[i][c.key] == c.data
  }

  /** What the chunks read so far from the trees have handed over. */
  ghost predicate Gathered(out: seq<Pair>, ms: seq<map<Key, Value>>, complete: bool) {
    && Sorted(out)
    && (forall c :: c in out ==> InSome(c, ms))
    && (forall k | InAll(k, ms) && (complete || UpTo(out, k)) :: HasKey(out, k))
  }

  lemma GatherChunk(out: seq<Pair>, ms: seq<map<Key, Value>>, i: nat, after: Option<Key>, chunk: seq<Pair>,
                    complete: bool)
    requires Gathered(out, ms, false) && i < |ms| && IsChunk(chunk, ms[i], after, complete)
    requires after == if |out| == 0 then None else Some(out[|out|-1].key)
    ensures Gathered(out + chunk, ms, complete)
  {
    hide Rank;
    var all := out + chunk;
    forall j | 0 <= j < |chunk| ensures forall l :: 0 <= l < |out| ==> Rank(out[l].key) < Rank(chunk[j].key) {
      assert chunk[j] in chunk;
    }
    forall c | c in all ensures InSome(c, ms) {
      assert c in out || c in chunk;
    }
    forall k | InAll(k, ms) && (complete || UpTo(all, k)) ensures HasKey(all, k) {
      if UpTo(out, k) {
        var l :| 0 <= l < |out| && out[l].key == k;
        assert all[l].key == k;
      } else {
        assert Cell(k, ms[i][k]) in chunk;
        var l :| 0 <= l < |chunk| && chunk[l] == Cell(k, ms[i][k]);
        assert all[|out| + l].key == k;
      }
    }
  }

  /** Between two chunks; with a single tree, what is handed over is the start of its listing. */
  ghost predicate Between(out: seq<Pair>, ms: seq<map<Key, Value>>, lastKey: Option<Key>, accept: Pair -> bool) {
    && Gathered(out, ms, false) && AllAccepted(out, accept)
    && lastKey == (if |out| == 0 then None else Some(out[|out|-1].key))
    && (|ms| == 1 ==> FromStart(out, ms[0], lastKey))
  }

  ghost predicate FromStart(out: seq<Pair>, m: map<Key, Value>, lastKey: Option<Key>) {
    var L := Listing(m);
    |out| <= |L| && out == L[..|out|] && Listing(After(m, lastKey)) == L[|out|..]
  }

  lemma ChunkStep(out: seq<Pair>, ms: seq<map<Key, Value>>, i: nat, lastKey: Option<Key>, size: nat,
                  accept: Pair -> bool, chunk: seq<Pair>)
    requires i < |ms| && size > 0 && Between(out, ms, lastKey, accept)
    requires chunk == TakeUntil(Limited(Listing(After(ms[i], lastKey)), Some(size)), accept)
    ensures var done := !AllAccepted(chunk, accept) || |Listing(After(ms[i], lastKey))| < size;
      && (done ==> Gathered(out + chunk, ms, AllAccepted(out + chunk, accept)))
      && (!done ==> |chunk| > 0 && Between(out + chunk, ms, Some(chunk[|chunk|-1].key), accept))
      && (done && |ms| == 1 ==> out + chunk == TakeUntil(Listing(ms[0]), accept))
  {
    hide *;
    var L := Listing(After(ms[i], lastKey));
    BetweenMeans(out, ms, lastKey, accept);
    ChunkPrefix(L, size, accept, chunk);
    PrefixIsChunk(ms[i], lastKey, |chunk|, chunk);
    GatherChunk(out, ms, i, lastKey, chunk, |chunk| == |L|);
    GatheredLess(out + chunk, ms);
    AcceptedBoth(out, chunk, accept);
    if |ms| == 1 {
      WholeStep(out, ms[0], lastKey, size, accept, chunk);
    }
    if AllAccepted(chunk, accept) {
      LimitedIs(L, size, chunk);
      if size <= |L| {
        BetweenIs(out + chunk, ms, Some(chunk[|chunk|-1].key), accept);
      }
    }
  }

  lemma BetweenMeans(out: seq<Pair>, ms: seq<map<Key, Value>>, lastKey: Option<Key>, accept: Pair -> bool)
    requires Between(out, ms, lastKey, accept)
    ensures Gathered(out, ms, false) && AllAccepted(out, accept)
    ensures lastKey == if |out| == 0 then None else Some(out[|out|-1].key)
    ensures |ms| == 1 ==> FromStart(out, ms[0], lastKey)
  {
  }

  lemma BetweenIs(out: seq<Pair>, ms: seq<map<Key, Value>>, lastKey: Option<Key>, accept: Pair -> bool)
    requires Gathered(out, ms, false) && AllAccepted(out, accept)
    requires lastKey == if |out| == 0 then None else Some(out[|out|-1].key)
    requires |ms| == 1 ==> FromStart(out, ms[0], lastKey)
    ensures Between(out, ms, lastKey, accept)
  {
  }

  lemma AcceptedBoth(out: seq<Pair>, chunk: seq<Pair>, accept: Pair -> bool)
    ensures AllAccepted(out + chunk, accept) <==> AllAccepted(out, accept) && AllAccepted(chunk, accept)
  {
    assert forall i :: 0 <= i < |out| ==> out[i] == (out + chunk)[i];
    assert forall i :: 0 <= i < |chunk| ==> chunk[i] == (out + chunk)[|out| + i];
  }

  lemma GatheredLess(out: seq<Pair>, ms: seq<map<Key, Value>>)
    ensures Gathered(out, ms, true) ==> Gathered(out, ms, false)
  {
  }

  lemma WholeStep(out: seq<Pair>, m: map<Key, Value>, lastKey: Option<Key>, size: nat, accept: Pair -> bool,
                  chunk: seq<Pair>)
    requires size > 0 && FromStart(out, m, lastKey) && AllAccepted(out, accept)
    requires chunk == TakeUntil(Limited(Listing(After(m, lastKey)), Some(size)), accept)
    ensures !AllAccepted(chunk, accept) || |Listing(After(m, lastKey))| < size ==>
      out + chunk == TakeUntil(Listing(m), accept)
    ensures AllAccepted(chunk, accept) && |chunk| > 0 ==> FromStart(out + chunk, m, Some(chunk[|chunk|-1].key))
  {
    hide *;
    ChunkPrefix(Listing(After(m, lastKey)), size, accept, chunk);
    if AllAccepted(chunk, accept) {
      WholeAccepted(out, m, lastKey, size, accept, chunk);
    } else {
      WholeRefused(out, m, lastKey, size, accept, chunk);
    }
  }

  lemma WholeAccepted(out: seq<Pair>, m: map<Key, Value>, lastKey: Option<Key>, size: nat, accept: Pair -> bool,
                      chunk: seq<Pair>)
    requires size > 0 && FromStart(out, m, lastKey) && AllAccepted(out, accept) && AllAccepted(chunk, accept)
    requires chunk == Limited(Listing(After(m, lastKey)), Some(size))
    ensures |Listing(After(m, lastKey))| < size ==> out + chunk == TakeUntil(Listing(m), accept)
    ensures |chunk| > 0 ==> FromStart(out + chunk, m, Some(chunk[|chunk|-1].key))
  {
    hide *;
    var L, rest := Listing(m), Listing(After(m, lastKey));
    var n := |out| + |chunk|;
    StartMeans(out, m, lastKey);
    LimitedIs(rest, size, chunk);
    Glued(L, out, rest, chunk);
    if |chunk| > 0 {
      Resume(m, n);
      StartIs(out + chunk, m, Some(L[n-1].key));
    }
    if |rest| < size {
      AcceptedBoth(out, chunk, accept);
      TakeUntilStop(L, n, accept);
    }
  }

  lemma StartMeans(out: seq<Pair>, m: map<Key, Value>, lastKey: Option<Key>)
    requires FromStart(out, m, lastKey)
    ensures var L := Listing(m); |out| <= |L| && out == L[..|out|] && Listing(After(m, lastKey)) == L[|out|..]
  {
  }

  lemma StartIs(out: seq<Pair>, m: map<Key, Value>, lastKey: Option<Key>)
    requires var L := Listing(m); |out| <= |L| && out == L[..|out|] && Listing(After(m, lastKey)) == L[|out|..]
    ensures FromStart(out, m, lastKey)
  {
  }

  lemma LimitedIs(rest: seq<Pair>, size: nat, chunk: seq<Pair>)
    requires chunk == Limited(rest, Some(size))
    ensures chunk <= rest && (|rest| < size ==> chunk == rest) && (size <= |rest| ==> |chunk| == size)
  {
  }

  lemma Glued(L: seq<Pair>, out: seq<Pair>, rest: seq<Pair>, chunk: seq<Pair>)
    requires |out| <= |L| && out == L[..|out|] && rest == L[|out|..] && chunk <= rest
    ensures |out + chunk| <= |L| && out + chunk == L[..|out|+|chunk|]
    ensures chunk == rest ==> |out| + |chunk| == |L|
    ensures |chunk| > 0 ==> chunk[|chunk|-1] == L[|out|+|chunk|-1]
  {
  }

  lemma WholeRefused(out: seq<Pair>, m: map<Key, Value>, lastKey: Option<Key>, size: nat, accept: Pair -> bool,
                     chunk: seq<Pair>)
    requires FromStart(out, m, lastKey) && AllAccepted(out, accept) && !AllAccepted(chunk, accept)
    requires chunk == TakeUntil(Limited(Listing(After(m, lastKey)), Some(size)), accept)
    ensures out + chunk == TakeUntil(Listing(m), accept)
  {
    hide Rank, Listing, After, AllAccepted, TakeUntil;
    var rest := Listing(After(m, lastKey));
    TakeUntilAfter(Listing(m), |out|, accept);
    TakeUntilCut(rest, Limited(rest, Some(size)), accept);
  }

  /** A refusal within the first pairs is a refusal in the whole. */
  lemma {:induction false} TakeUntilCut(s: seq<Pair>, p: seq<Pair>, accept: Pair -> bool)
    requires |p| <= |s| && p == s[..|p|] && !AllAccepted(TakeUntil(p, accept), accept)
    ensures TakeUntil(s, accept) == TakeUntil(p, accept)
  {
    if |p| > 0 && accept(p[0]) {
      var r := TakeUntil(p[1..], accept);
      assert TakeUntil(p, accept) == [p[0]] + r;
      assert p[1..] == s[1..][..|p|-1];
      TakeUntilCut(s[1..], p[1..], accept);
    }
  }

  lemma {:induction false} TakeUntilAfter(s: seq<Pair>, n: nat, accept: Pair -> bool)
    requires n <= |s| && AllAccepted(s[..n], accept)
    ensures TakeUntil(s, accept) == s[..n] + TakeUntil(s[n..], accept)
  {
    if n > 0 {
      assert s[..n][0] == s[0];
      assert s[1..][..n-1] == s[..n][1..] && s[1..][n-1..] == s[n..];
      TakeUntilAfter(s[1..], n - 1, accept);
      assert s[..n] == [s[0]] + s[..n][1..];
    } else {
      assert s[n..] == s;
    }
  }

  /** Each chunk shrinks what is left of the tree it was read from. */
  lemma LessLeft(m: map<Key, Value>, lastKey: Option<Key>, c: Pair)
    requires c in Listing(After(m, lastKey))
    ensures |After(m, Some(c.key))| < |After(m, lastKey)|
  {
    hide Rank;
    assert c.key in After(m, lastKey);
    assert After(m, Some(c.key)).Keys <= After(m, lastKey).Keys - {c.key};
    SubsetSize(After(m, Some(c.key)).Keys, After(m, lastKey).Keys - {c.key});
  }

  /** ScanChunked: chunk number i is read from snapshots[i], the tree the writers left in between;
      after the last of them the tree no longer changes. */
  method ScanChunked(snapshots: seq<BPlusTree>, chunkSize: int, accept: Pair -> bool, ghost ms: seq<map<Key, Value>>)
    returns (out: seq<Pair>)
    requires |snapshots| > 0 && |ms| == |snapshots|
    requires forall i :: 0 <= i < |snapshots| ==> snapshots[i].Valid() && snapshots[i].contents == ms[i]
    ensures Gathered(out, ms, AllAccepted(out, accept))
    ensures |ms| == 1 ==> out == TakeUntil(Listing(ms[0]), accept)
  {
    hide *;
    var size: nat := if chunkSize <= 0 then 500 else chunkSize;
    var lastKey: Option<Key> := None;
    out := [];
    var i := 0;
    BetweenNone(ms, accept);
    while true
      invariant i < |snapshots| && Between(out, ms, lastKey, accept)
      decreases |snapshots| - i, |After(ms[|ms|-1], lastKey)|
    {
      var chunk, done := ScanOneChunk(snapshots[i], size, lastKey, accept);
      ChunkStep(out, ms, i, lastKey, size, accept, chunk);
      BetweenMeans(out, ms, lastKey, accept);
      AcceptedBoth(out, chunk, accept);
      out := out + chunk;
      if done {
        return;
      }
      ChunkPrefix(Listing(After(ms[i], lastKey)), size, accept, chunk);
      assert chunk[|chunk|-1] in Listing(After(ms[i], lastKey));
      LessLeft(ms[i], lastKey, chunk[|chunk|-1]);
      lastKey := Some(chunk[|chunk|-1].key);
      if i + 1 < |snapshots| {
        i := i + 1;
      }
    }
  }

  lemma BetweenNone(ms: seq<map<Key, Value>>, accept: Pair -> bool)
    requires |ms| > 0
    ensures Between([], ms, None, accept)
  {
    AfterNone(ms[0]);
  }
}
