/** ScanChunked on a partitioned table, with writers between its chunks (internal/table/table.go:257-288). */
module ChunkedScan {
  import opened Keys
  import opened RecordPage
  import opened Sets
  import opened SortedListing
  import opened Producers
  import opened TreeLock
  import opened TreeScan
  import opened MergedScan
  import opened Table

  /** What the table held when chunk number c was read: after the last snapshot it no longer changes. */
  ghost function Then<T>(snapshots: seq<T>, c: nat): T
    requires |snapshots| > 0
  {
    snapshots[if c < |snapshots| then c else |snapshots| - 1]
  }

  /** The partitions that writers are after between chunks d and d + 1. */
  function Touched(touched: seq<set<nat>>, d: nat): set<nat> {
    if d < |touched| then touched[d] else {}
  }

  function ChunkSize(chunkSize: int): nat {
    if chunkSize <= 0 then 500 else chunkSize
  }

  ghost predicate Untouched(before: seq<map<Key, Value>>, after: seq<map<Key, Value>>, touched: set<nat>) {
    |before| == |after| && forall j :: 0 <= j < |before| && j !in touched ==> before[j] == after[j]
  }

  // ---- the chunks, as the tables and the callback determine them ----

  /** The pairs beyond the last key when chunk c is read. */
  ghost function Rest(ms: seq<map<Key, Value>>, c: nat, last: Option<Key>): (L: seq<Pair>)
    requires |ms| > 0
  {
    Listing(After(Then(ms, c), last))
  }

  /** Chunk c is full and no pair of it is refused. */
  ghost predicate FullAt(ms: seq<map<Key, Value>>, size: nat, accept: Pair -> bool, c: nat, last: Option<Key>)
    requires |ms| > 0
  {
    size <= |Rest(ms, c, last)| && AllAccepted(Rest(ms, c, last)[..size], accept)
  }

  /** The last keys of the full chunks from chunk c on. */
  ghost function EndsFrom(ms: seq<map<Key, Value>>, size: nat, accept: Pair -> bool, c: nat,
                          last: Option<Key>): seq<Key>
    requires |ms| > 0 && size > 0
    decreases if c < |ms| then |ms| - c else 0, |After(ms[|ms|-1], last)|
  {
    if !FullAt(ms, size, accept, c, last) then []
    else
      var end := Rest(ms, c, last)[size-1];
      LessLeft(Then(ms, c), last, end);
      [end.key] + EndsFrom(ms, size, accept, c + 1, Some(end.key))
  }

  /** The last keys of all full chunks, one after the other until the first that is short or refused. */
  ghost function FullEnds(ms: seq<map<Key, Value>>, size: nat, accept: Pair -> bool): seq<Key>
    requires |ms| > 0 && size > 0
  {
    EndsFrom(ms, size, accept, 0, None)
  }

  ghost function EndBefore(ends: seq<Key>, c: nat): Option<Key>
    requires c <= |ends|
  {
    if c == 0 then None else Some(ends[c-1])
  }

  /** What the first n chunks hand over. */
  ghost function Handed(ms: seq<map<Key, Value>>, size: nat, accept: Pair -> bool, ends: seq<Key>, n: nat): seq<Pair>
    requires |ms| > 0 && n <= |ends| + 1
  {
    if n == 0 then []
    else
      Handed(ms, size, accept, ends, n - 1)
      + TakeUntil(Limited(Rest(ms, n - 1, EndBefore(ends, n - 1)), Some(size)), accept)
  }

  // ---- what the chunks leave locked, and who waits for it ----

  /** The partitions left locked by the chunks that ended at the given keys. */
  ghost function LockedBy(mss: seq<seq<map<Key, Value>>>, ends: seq<Key>): set<nat>
    requires |mss| > 0
  {
    if |ends| == 0 then {}
    else LockedBy(mss, ends[..|ends|-1]) + LeftLocked(Then(mss, |ends| - 1), Some(ends[|ends|-1]))
  }

  /** The lock of partition j between chunk d and the next one: the goroutine of each chunk so far was left with what
      the merge had not received, and a writer waits if one is after the partition. */
  ghost predicate GapAfter(mss: seq<seq<map<Key, Value>>>, touched: seq<set<nat>>, ends: seq<Key>, d: nat, j: nat,
                           ns: seq<nat>, s: Gap)
    requires |mss| > 0 && d < |ends|
  {
    && GapStart(ns, s) && |ns| == d + 1 && (s.writer.Waiting? <==> j in Touched(touched, d))
    && forall c :: 0 <= c <= d ==>
         && j < |Then(mss, c)| && ns[c] == |Then(mss, c)[j]|
         && ns[c] - s.behind[c].received == Unread(Then(mss, c)[j], ends[c])
  }

  /** After chunk d the scan never gets on: there is a partition from which the next chunk's merge receives nothing,
      however the goroutines and the writer go on. */
  ghost predicate Stuck(mss: seq<seq<map<Key, Value>>>, touched: seq<set<nat>>, ends: seq<Key>, d: nat)
    requires |mss| > 0
  {
    d < |ends| && |mss[0]| > 1 && exists j: nat :: StuckOn(mss, touched, ends, d, j)
  }

  ghost predicate StuckOn(mss: seq<seq<map<Key, Value>>>, touched: seq<set<nat>>, ends: seq<Key>, d: nat, j: nat)
    requires |mss| > 0 && d < |ends|
  {
    && j < |mss[0]|
    && forall ns, n: nat, s :: GapAfter(mss, touched, ends, d, j, ns, s) ==> NeverServed(ns, n, s)
  }

  lemma UnreadWithin(m: map<Key, Value>, last: Key)
    ensures Unread(m, last) <= |m|
  {
    var rest := After(m, Some(last));
    assert rest.Keys <= m.Keys;
    SubsetSize(rest.Keys, m.Keys);
    assert |rest.Keys| == |rest| && |m.Keys| == |m|;
  }

  /** The tables of all snapshots have the same partitions. */
  ghost predicate SamePartitions(mss: seq<seq<map<Key, Value>>>) {
    forall i :: 0 <= i < |mss| ==> |mss[i]| == |mss[0]|
  }

  lemma ThenSame(mss: seq<seq<map<Key, Value>>>, c: nat)
    requires |mss| > 0 && SamePartitions(mss)
    ensures |Then(mss, c)| == |mss[0]|
  {
  }

  /** There is such a state. */
  lemma {:induction false} SomeGap(mss: seq<seq<map<Key, Value>>>, touched: seq<set<nat>>, ends: seq<Key>, d: nat,
                                   j: nat)
    returns (ns: seq<nat>, s: Gap)
    requires |mss| > 0 && SamePartitions(mss) && d < |ends| && j < |mss[0]|
    ensures GapAfter(mss, touched, ends, d, j, ns, s)
  {
    hide Unread, SamePartitions;
    ns := [];
    var behind: seq<Producer> := [];
    for c := 0 to d + 1
      invariant |ns| == |behind| == c
      invariant forall b :: 0 <= b < c ==> Sound(ns[b], behind[b])
      invariant forall b :: 0 <= b < c ==>
        && j < |Then(mss, b)| && ns[b] == |Then(mss, b)[j]|
        && ns[b] - behind[b].received == Unread(Then(mss, b)[j], ends[b])
    {
      ThenSame(mss, c);
      UnreadWithin(Then(mss, c)[j], ends[c]);
      var n := |Then(mss, c)[j]|;
      var received := n - Unread(Then(mss, c)[j], ends[c]);
      ns, behind := ns + [n], behind + [Producer(received, received, true)];
    }
    s := Gap(behind, if j in Touched(touched, d) then Waiting else Absent, Asking);
  }

  lemma {:induction false} LockedByHas(mss: seq<seq<map<Key, Value>>>, ends: seq<Key>, j: nat)
    requires |mss| > 0
    ensures j in LockedBy(mss, ends) <==> exists c :: 0 <= c < |ends| && j in LeftLocked(Then(mss, c), Some(ends[c]))
  {
    hide LeftLocked;
    if |ends| > 0 {
      var front := ends[..|ends|-1];
      LockedByHas(mss, front, j);
      forall c | 0 <= c < |front| ensures front[c] == ends[c] {
      }
    }
  }

  lemma HeldIff(mss: seq<seq<map<Key, Value>>>, touched: seq<set<nat>>, ends: seq<Key>, d: nat, j: nat, ns: seq<nat>,
                s: Gap)
    requires |mss| > 0 && SamePartitions(mss) && d < |ends| && |mss[0]| > 1 && GapAfter(mss, touched, ends, d, j, ns, s)
    ensures HeldForever(ns, s) <==> j in LockedBy(mss, ends[..d+1])
  {
    hide Unread, LockedBy;
    GapMeans(mss, touched, ends, d, j, ns, s);
    LockedByHas(mss, ends[..d+1], j);
    forall c | 0 <= c <= d
      ensures ns[c] - s.behind[c].received > SLOTS <==> j in LeftLocked(Then(mss, c), Some(ends[..d+1][c]))
    {
      ThenSame(mss, c);
    }
    if HeldForever(ns, s) {
      var k :| 0 <= k < |ns| && ns[k] - s.behind[k].received > SLOTS;
      assert j in LeftLocked(Then(mss, k), Some(ends[..d+1][k]));
    }
  }

  /** From the partition the next chunk is served by every run of goroutines and writer that goes on as long as it
      can. */
  ghost predicate Passes(mss: seq<seq<map<Key, Value>>>, touched: seq<set<nat>>, ends: seq<Key>, d: nat, j: nat)
    requires |mss| > 0 && d < |ends|
  {
    forall ns, n: nat, s, run | GapAfter(mss, touched, ends, d, j, ns, s) && GapRun(ns, n, run) && run[0] == s ::
      GapStuck(ns, n, run[|run|-1]) ==> Served(n, run[|run|-1])
  }

  /** What the scan can check: it is stuck on a partition exactly when a writer is after it and it was left locked. */
  lemma StuckOnIff(mss: seq<seq<map<Key, Value>>>, touched: seq<set<nat>>, ends: seq<Key>, d: nat, j: nat)
    requires |mss| > 0 && SamePartitions(mss) && d < |ends| && |mss[0]| > 1 && j < |mss[0]|
    ensures StuckOn(mss, touched, ends, d, j) <==> j in Touched(touched, d) && j in LockedBy(mss, ends[..d+1])
    ensures !StuckOn(mss, touched, ends, d, j) ==> Passes(mss, touched, ends, d, j)
  {
    hide HeldForever, GapAfter, NeverServed, GapStep, GapStuck, Served, Touched, LockedBy, GapStart, SamePartitions;
    hide StepsLeft;
    if j in Touched(touched, d) && j in LockedBy(mss, ends[..d+1]) {
      forall ns, n: nat, s | GapAfter(mss, touched, ends, d, j, ns, s) ensures NeverServed(ns, n, s) {
        GapDecides(mss, touched, ends, d, j, ns, n, s);
      }
    } else {
      var ns0, s0 := SomeGap(mss, touched, ends, d, j);
      GapDecides(mss, touched, ends, d, j, ns0, 0, s0);
      forall ns, n: nat, s, run | GapAfter(mss, touched, ends, d, j, ns, s) && GapRun(ns, n, run) && run[0] == s
        ensures GapStuck(ns, n, run[|run|-1]) ==> Served(n, run[|run|-1])
      {
        GapDecides(mss, touched, ends, d, j, ns, n, s);
        GapMeans(mss, touched, ends, d, j, ns, s);
        NeverServedIff(ns, n, s);
      }
    }
  }

  lemma GapDecides(mss: seq<seq<map<Key, Value>>>, touched: seq<set<nat>>, ends: seq<Key>, d: nat, j: nat,
                   ns: seq<nat>, n: nat, s: Gap)
    requires |mss| > 0 && SamePartitions(mss) && d < |ends| && |mss[0]| > 1 && GapAfter(mss, touched, ends, d, j, ns, s)
    ensures NeverServed(ns, n, s) <==> j in Touched(touched, d) && j in LockedBy(mss, ends[..d+1])
  {
    hide *;
    GapMeans(mss, touched, ends, d, j, ns, s);
    HeldIff(mss, touched, ends, d, j, ns, s);
    NeverServedIff(ns, n, s);
  }

  lemma GapMeans(mss: seq<seq<map<Key, Value>>>, touched: seq<set<nat>>, ends: seq<Key>, d: nat, j: nat, ns: seq<nat>,
                 s: Gap)
    requires |mss| > 0 && d < |ends| && GapAfter(mss, touched, ends, d, j, ns, s)
    ensures GapStart(ns, s) && |ns| == |s.behind| && (s.writer.Waiting? <==> j in Touched(touched, d))
  {
  }

  lemma {:induction false} LockedWithin(mss: seq<seq<map<Key, Value>>>, ends: seq<Key>)
    requires |mss| > 0 && SamePartitions(mss)
    ensures forall j :: j in LockedBy(mss, ends) ==> 0 <= j < |mss[0]| && |mss[0]| > 1
  {
    hide Unread;
    if |ends| > 0 {
      LockedWithin(mss, ends[..|ends|-1]);
      ThenSame(mss, |ends| - 1);
    }
  }

  lemma StuckIff(mss: seq<seq<map<Key, Value>>>, touched: seq<set<nat>>, ends: seq<Key>, d: nat)
    requires |mss| > 0 && SamePartitions(mss) && d < |ends|
    ensures Stuck(mss, touched, ends, d) <==> Touched(touched, d) * LockedBy(mss, ends[..d+1]) != {}
  {
    hide SamePartitions, StuckOn, Touched, LockedBy;
    LockedWithin(mss, ends[..d+1]);
    var both := Touched(touched, d) * LockedBy(mss, ends[..d+1]);
    if both != {} {
      var j :| j in both;
      assert j in LockedBy(mss, ends[..d+1]);
      StuckOnIff(mss, touched, ends, d, j);
    }
    if Stuck(mss, touched, ends, d) {
      var j: nat :| StuckOn(mss, touched, ends, d, j);
      StuckOnWithin(mss, touched, ends, d, j);
      StuckOnIff(mss, touched, ends, d, j);
      assert j in both;
    }
  }

  lemma StuckOnWithin(mss: seq<seq<map<Key, Value>>>, touched: seq<set<nat>>, ends: seq<Key>, d: nat, j: nat)
    requires |mss| > 0 && d < |ends| && StuckOn(mss, touched, ends, d, j)
    ensures j < |mss[0]|
  {
  }

  // ---- the scan ----

  /** Between two chunks: the first d chunks were full, the scan got on after each of them, and it has handed over and
      left locked what they do. */
  ghost predicate Reached(ms: seq<map<Key, Value>>, mss: seq<seq<map<Key, Value>>>, touched: seq<set<nat>>, size: nat,
                          accept: Pair -> bool, d: nat, lastKey: Option<Key>, held: set<nat>, out: seq<Pair>)
    requires |ms| > 0 && |mss| > 0 && size > 0
  {
    var ends := FullEnds(ms, size, accept);
    && d <= |ends| && lastKey == EndBefore(ends, d) && EndsFrom(ms, size, accept, d, lastKey) == ends[d..]
    && held == LockedBy(mss, ends[..d]) && out == Handed(ms, size, accept, ends, d)
    && forall c :: 0 <= c < d ==> !Stuck(mss, touched, ends, c)
  }

  lemma ReachedNone(ms: seq<map<Key, Value>>, mss: seq<seq<map<Key, Value>>>, touched: seq<set<nat>>, size: nat,
                    accept: Pair -> bool)
    requires |ms| > 0 && |mss| > 0 && size > 0
    ensures Reached(ms, mss, touched, size, accept, 0, None, {}, [])
    ensures Between([], ms, None, accept)
  {
    hide EndsFrom, Rank, Gathered, Listing, FromStart, Stuck;
    BetweenNone(ms, accept);
    var ends := FullEnds(ms, size, accept);
    assert ends[0..] == ends;
  }

  /** A chunk that reports more to come is full: it has handed over the first `size` pairs beyond the last key. */
  lemma FullIff(L: seq<Pair>, size: nat, accept: Pair -> bool, chunk: seq<Pair>)
    requires size > 0 && chunk == TakeUntil(Limited(L, Some(size)), accept)
    ensures AllAccepted(chunk, accept) && size <= |L| <==> size <= |L| && AllAccepted(L[..size], accept)
    ensures AllAccepted(chunk, accept) && size <= |L| ==>
      |chunk| == size && LastKey(chunk) == Some(L[size-1].key) && chunk[|chunk|-1] == L[size-1] && L[size-1] in L
    ensures AllAccepted(chunk, accept) && |L| < size ==> |chunk| < size
    ensures !AllAccepted(chunk, accept) ==> |chunk| > 0
  {
    ChunkPrefix(L, size, accept, chunk);
    if size <= |L| && AllAccepted(L[..size], accept) {
      var M := L[..size];
      assert M[..size] == M;
      TakeUntilStop(M, size, accept);
    }
  }

  lemma ThenIs<T>(s: seq<T>, c: nat, i: nat)
    requires i < |s| && i == (if c < |s| then c else |s| - 1)
    ensures Then(s, c) == s[i]
  {
  }

  /** The last chunk: the scan is over, with no more ends to come. */
  lemma ReachedEnd(ms: seq<map<Key, Value>>, mss: seq<seq<map<Key, Value>>>, touched: seq<set<nat>>, size: nat,
                   accept: Pair -> bool, d: nat, lastKey: Option<Key>, held: set<nat>, out: seq<Pair>, chunk: seq<Pair>)
    requires |ms| > 0 && |mss| > 0 && size > 0 && Reached(ms, mss, touched, size, accept, d, lastKey, held, out)
    requires chunk == TakeUntil(Limited(Rest(ms, d, lastKey), Some(size)), accept)
    requires !FullAt(ms, size, accept, d, lastKey)
    ensures var ends := FullEnds(ms, size, accept);
      && d == |ends| && held == LockedBy(mss, ends) && out + chunk == Handed(ms, size, accept, ends, |ends| + 1)
      && forall c :: !Stuck(mss, touched, ends, c)
  {
    hide Rest, FullAt, TakeUntil, Limited, LockedBy, StuckOn;
    var ends := FullEnds(ms, size, accept);
    assert ends[..d] == ends;
  }

  /** One more full chunk. */
  lemma ReachedNext(ms: seq<map<Key, Value>>, mss: seq<seq<map<Key, Value>>>, touched: seq<set<nat>>, size: nat,
                    accept: Pair -> bool, d: nat, lastKey: Option<Key>, held: set<nat>, out: seq<Pair>,
                    chunk: seq<Pair>, locked: set<nat>)
    requires |ms| > 0 && |mss| > 0 && SamePartitions(mss) && size > 0
    requires Reached(ms, mss, touched, size, accept, d, lastKey, held, out)
    requires chunk == TakeUntil(Limited(Rest(ms, d, lastKey), Some(size)), accept)
    requires FullAt(ms, size, accept, d, lastKey)
    requires locked == LeftLocked(Then(mss, d), Some(Rest(ms, d, lastKey)[size-1].key))
    ensures var ends := FullEnds(ms, size, accept); var end := Rest(ms, d, lastKey)[size-1].key;
      && d < |ends| && out + chunk == Handed(ms, size, accept, ends, d + 1)
      && held + locked == LockedBy(mss, ends[..d+1])
      && (Stuck(mss, touched, ends, d) <==> Touched(touched, d) * (held + locked) != {})
      && (forall c :: 0 <= c < d ==> !Stuck(mss, touched, ends, c))
      && (!Stuck(mss, touched, ends, d) ==>
            Reached(ms, mss, touched, size, accept, d + 1, Some(end), held + locked, out + chunk))
  {
    hide *;
    NextEnd(ms, mss, touched, size, accept, d, lastKey, held, out);
    var ends := FullEnds(ms, size, accept);
    NextHanded(ms, size, accept, ends, d);
    NextLocked(mss, ends, d);
    StuckIff(mss, touched, ends, d);
    if !Stuck(mss, touched, ends, d) {
      ReachedIs(ms, mss, touched, size, accept, d + 1, Some(Rest(ms, d, lastKey)[size-1].key), held + locked,
                out + chunk);
    }
  }

  lemma NextEnd(ms: seq<map<Key, Value>>, mss: seq<seq<map<Key, Value>>>, touched: seq<set<nat>>, size: nat,
                accept: Pair -> bool, d: nat, lastKey: Option<Key>, held: set<nat>, out: seq<Pair>)
    requires |ms| > 0 && |mss| > 0 && size > 0 && Reached(ms, mss, touched, size, accept, d, lastKey, held, out)
    requires FullAt(ms, size, accept, d, lastKey)
    ensures var ends := FullEnds(ms, size, accept);
      && d < |ends| && size <= |Rest(ms, d, lastKey)| && ends[d] == Rest(ms, d, lastKey)[size-1].key
      && EndBefore(ends, d) == lastKey && EndBefore(ends, d + 1) == Some(ends[d])
      && EndsFrom(ms, size, accept, d + 1, Some(ends[d])) == ends[d+1..]
      && held == LockedBy(mss, ends[..d]) && out == Handed(ms, size, accept, ends, d)
      && forall c :: 0 <= c < d ==> !Stuck(mss, touched, ends, c)
  {
    hide Rest, LockedBy, Stuck, Handed;
    var ends := FullEnds(ms, size, accept);
    var rest := EndsFrom(ms, size, accept, d, lastKey);
    assert rest == ends[d..] && |rest| > 0;
    assert ends[d] == rest[0] && ends[d+1..] == rest[1..];
  }

  lemma NextHanded(ms: seq<map<Key, Value>>, size: nat, accept: Pair -> bool, ends: seq<Key>, d: nat)
    requires |ms| > 0 && d < |ends|
    ensures Handed(ms, size, accept, ends, d + 1) ==
      Handed(ms, size, accept, ends, d) + TakeUntil(Limited(Rest(ms, d, EndBefore(ends, d)), Some(size)), accept)
  {
    hide TakeUntil, Limited, Rest, EndBefore;
  }

  lemma NextLocked(mss: seq<seq<map<Key, Value>>>, ends: seq<Key>, d: nat)
    requires |mss| > 0 && d < |ends|
    ensures LockedBy(mss, ends[..d+1]) == LockedBy(mss, ends[..d]) + LeftLocked(Then(mss, d), Some(ends[d]))
  {
    hide LeftLocked;
    assert ends[..d+1][..d] == ends[..d];
  }

  lemma ReachedIs(ms: seq<map<Key, Value>>, mss: seq<seq<map<Key, Value>>>, touched: seq<set<nat>>, size: nat,
                  accept: Pair -> bool, d: nat, lastKey: Option<Key>, held: set<nat>, out: seq<Pair>)
    requires |ms| > 0 && |mss| > 0 && size > 0
    requires var ends := FullEnds(ms, size, accept);
      && d <= |ends| && lastKey == EndBefore(ends, d) && EndsFrom(ms, size, accept, d, lastKey) == ends[d..]
      && held == LockedBy(mss, ends[..d]) && out == Handed(ms, size, accept, ends, d)
      && forall c :: 0 <= c < d ==> !Stuck(mss, touched, ends, c)
    ensures Reached(ms, mss, touched, size, accept, d, lastKey, held, out)
  {
  }

  lemma LockedAtEnd(ms: seq<map<Key, Value>>, out: seq<Pair>, chunk: seq<Pair>, size: nat, accept: Pair -> bool,
                    locked: set<nat>)
    requires locked == LeftLocked(ms, if AllAccepted(chunk, accept) && |chunk| < size then None else LastKey(chunk))
    requires AllAccepted(out, accept) && if AllAccepted(chunk, accept) then |chunk| < size else |chunk| > 0
    ensures locked == if AllAccepted(out + chunk, accept) then {} else LeftLocked(ms, LastKey(out + chunk))
  {
    hide Unread;
    AcceptedBoth(out, chunk, accept);
  }

  lemma ChunkSizeIs(chunkSize: int)
    ensures ChunkSize(chunkSize) > 0
    ensures chunkSize <= 0 ==> ChunkSize(chunkSize) == 500
    ensures chunkSize > 0 ==> ChunkSize(chunkSize) == chunkSize
  {
  }

  lemma {:induction false} PartitionsStay(mss: seq<seq<map<Key, Value>>>, touched: seq<set<nat>>, i: nat)
    requires |mss| == |touched| + 1 && i < |mss|
    requires forall d :: 0 <= d < |touched| ==> Untouched(mss[d], mss[d+1], touched[d])
    ensures |mss[i]| == |mss[0]|
  {
    if i > 0 {
      PartitionsStay(mss, touched, i - 1);
      assert Untouched(mss[i-1], mss[i-1+1], touched[i-1]);
    }
  }

  lemma AllSame(mss: seq<seq<map<Key, Value>>>, touched: seq<set<nat>>)
    requires |mss| == |touched| + 1
    requires forall d :: 0 <= d < |touched| ==> Untouched(mss[d], mss[d+1], touched[d])
    ensures SamePartitions(mss)
  {
    hide Untouched;
    forall i | 0 <= i < |mss| ensures |mss[i]| == |mss[0]| {
      PartitionsStay(mss, touched, i);
    }
  }

  lemma NobodyStuck(mss: seq<seq<map<Key, Value>>>, touched: seq<set<nat>>, held: set<nat>, d: nat)
    requires |touched| == 0
    ensures Touched(touched, d) * held == {}
  {
  }

  /** ScanChunked on a table whose partitions may be written between chunks: chunk number i is read from
      snapshots[i], to which writers that touch the partitions touched[i-1] have led. It never returns exactly when
      the next chunk is stuck after one of the full chunks; it has then handed over the chunks up to that one. If it
      returns, it has handed over all of them and the last, and every key present all the time exactly once, in
      strictly increasing order; on an unchanged table, any chunk size gives what Scan gives. */
  method ScanChunked(snapshots: seq<Table>, touched: seq<set<nat>>, chunkSize: int, accept: Pair -> bool,
                     ghost ms: seq<map<Key, Value>>, ghost mss: seq<seq<map<Key, Value>>>)
    returns (out: seq<Pair>, hung: bool, held: set<nat>)
    requires |snapshots| == |ms| == |mss| == |touched| + 1
    requires forall i :: 0 <= i < |snapshots| ==>
      snapshots[i].Valid() && snapshots[i].contents == ms[i] && snapshots[i].Maps() == mss[i]
    requires forall d :: 0 <= d < |touched| ==> Untouched(mss[d], mss[d+1], touched[d])
    ensures ChunkSize(chunkSize) > 0
    ensures hung <==> exists d :: Stuck(mss, touched, FullEnds(ms, ChunkSize(chunkSize), accept), d)
    ensures hung ==> exists d :: FirstStuck(ms, mss, touched, ChunkSize(chunkSize), accept, d, out, held)
    ensures !hung ==> var ends := FullEnds(ms, ChunkSize(chunkSize), accept);
      && out == Handed(ms, ChunkSize(chunkSize), accept, ends, |ends| + 1)
      && held == LockedBy(mss, ends)
           + if AllAccepted(out, accept) then {} else LeftLocked(Then(mss, |ends|), LastKey(out))
    ensures Gathered(out, ms, !hung && AllAccepted(out, accept))
    ensures |ms| == 1 ==> !hung && out == TakeUntil(Listing(ms[0]), accept)
  {
    hide *;
    var size := ChunkSize(chunkSize);
    var lastKey: Option<Key> := None;
    out, held := [], {};
    var i, d := 0, 0;
    ChunkSizeIs(chunkSize);
    AllSame(mss, touched);
    ReachedNone(ms, mss, touched, size, accept);
    while true
      invariant i == (if d < |snapshots| then d else |snapshots| - 1)
      invariant Between(out, ms, lastKey, accept) && Reached(ms, mss, touched, size, accept, d, lastKey, held, out)
      decreases |snapshots| - i, |After(ms[|ms|-1], lastKey)|
    {
      var chunk, done, locked := snapshots[i].ScanOneChunk(size, lastKey, accept);
      ChunkStep(out, ms, i, lastKey, size, accept, chunk);
      ThenIs(ms, d, i);
      ThenIs(mss, d, i);
      FullAtIs(ms, size, accept, d, lastKey);
      FullIff(Listing(After(ms[i], lastKey)), size, accept, chunk);
      BetweenMeans(out, ms, lastKey, accept);
      if done {
        ReachedEnd(ms, mss, touched, size, accept, d, lastKey, held, out, chunk);
        LockedAtEnd(mss[i], out, chunk, size, accept, locked);
        return out + chunk, false, held + locked;
      }
      ReachedNext(ms, mss, touched, size, accept, d, lastKey, held, out, chunk, locked);
      LessLeft(ms[i], lastKey, chunk[|chunk|-1]);
      lastKey := Some(chunk[|chunk|-1].key);
      out, held := out + chunk, held + locked;
      BetweenMeans(out, ms, lastKey, accept);
      if Touched(touched, d) * held != {} {
        if |touched| == 0 {
          NobodyStuck(mss, touched, held, d);
        }
        FirstStuckIs(ms, mss, touched, size, accept, d, out, held);
        return out, true, held;
      }
      d := d + 1;
      if i + 1 < |snapshots| {
        i := i + 1;
      }
    }
  }

  lemma FullAtIs(ms: seq<map<Key, Value>>, size: nat, accept: Pair -> bool, c: nat, last: Option<Key>)
    requires |ms| > 0
    ensures Rest(ms, c, last) == Listing(After(Then(ms, c), last))
    ensures FullAt(ms, size, accept, c, last) <==>
      size <= |Rest(ms, c, last)| && AllAccepted(Rest(ms, c, last)[..size], accept)
  {
  }

  /** The scan has come as far as the first chunk after which it is stuck. */
  ghost predicate FirstStuck(ms: seq<map<Key, Value>>, mss: seq<seq<map<Key, Value>>>, touched: seq<set<nat>>,
                             size: nat, accept: Pair -> bool, d: nat, out: seq<Pair>, held: set<nat>)
    requires |ms| > 0 && |mss| > 0 && size > 0
  {
    var ends := FullEnds(ms, size, accept);
    && Stuck(mss, touched, ends, d) && (forall c :: 0 <= c < d ==> !Stuck(mss, touched, ends, c))
    && out == Handed(ms, size, accept, ends, d + 1) && held == LockedBy(mss, ends[..d+1])
  }

  lemma FirstStuckIs(ms: seq<map<Key, Value>>, mss: seq<seq<map<Key, Value>>>, touched: seq<set<nat>>, size: nat,
                     accept: Pair -> bool, d: nat, out: seq<Pair>, held: set<nat>)
    requires |ms| > 0 && |mss| > 0 && size > 0
    requires var ends := FullEnds(ms, size, accept);
      && d < |ends| && Stuck(mss, touched, ends, d) && (forall c :: 0 <= c < d ==> !Stuck(mss, touched, ends, c))
      && out == Handed(ms, size, accept, ends, d + 1) && held == LockedBy(mss, ends[..d+1])
    ensures FirstStuck(ms, mss, touched, size, accept, d, out, held)
  {
  }
}
