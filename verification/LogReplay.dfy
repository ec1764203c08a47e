/** From the log back to the tree: what recovery writes over the old pages after a crash
    (internal/table/table.go:136-154) when the log holds committed operations of a B+ tree. */
module LogReplay {
  import opened Keys
  import opened RecordPage
  import opened SlottedPage
  import opened TreeShape
  import opened BTree
  import opened WalRecord
  import opened WalRecovery

  type Disk = map<PageId, Bytes>

  /** The bytes on disk hold the pages. */
  ghost predicate OnDisk(disk: Disk, pages: Pages) {
    forall id :: id in pages ==> id in disk && Holds(disk[id], pages[id])
  }

  /** A recovered image replaces the page on disk. */
  function Written(disk: Disk, images: Images): (d: Disk)
    ensures forall id :: id in d <==> id in disk || id in images
    ensures forall id :: id in d ==> d[id] == if id in images then images[id] else disk[id]
  {
    map id | id in disk.Keys + images.Keys :: if id in images then images[id] else disk[id]
  }

  /** The page writes carry the bytes of the images, in the same order. */
  ghost predicate Carry(ws: seq<Record>, images: seq<Image>) {
    && |ws| == |images|
    && forall i :: 0 <= i < |ws| ==> ws[i].pageId == images[i].id && Holds(ws[i].data, images[i].page)
  }

  /** The last image of a page. */
  function LastOf(images: seq<Image>, id: PageId): (p: Option<Page>) {
    if |images| == 0 then None
    else if images[|images|-1].id == id then Some(images[|images|-1].page)
    else LastOf(images[..|images|-1], id)
  }

  /** Replaying leaves each page as its last image has it, or as it was. */
  lemma {:induction false} ReplayAt(pages: Pages, images: seq<Image>, id: PageId)
    ensures var r, last := Replay(pages, images), LastOf(images, id);
      && (id in r <==> id in pages || last.Some?)
      && (id in r ==> r[id] == if last.Some? then last.value else pages[id])
  {
    if |images| > 0 {
      ReplayAt(pages, images[..|images|-1], id);
    }
  }

  /** So do the writes that carry the images. */
  lemma {:induction false} ApplyAt(m: Images, ws: seq<Record>, images: seq<Image>, p: U32Value)
    requires Carry(ws, images)
    ensures var r, last := Apply(m, ws), LastOf(images, p);
      && (p in r <==> p in m || last.Some?)
      && (p in r ==> if last.Some? then Holds(r[p], last.value) else r[p] == m[p])
  {
    hide Holds;
    if |ws| > 0 {
      ApplyAt(m, ws[..|ws|-1], images[..|images|-1], p);
    }
  }

  /** The transaction wrote the page exactly when it has an image of it, and then its last record of the page holds
      its last image. */
  lemma WritesHold(rs: seq<Record>, tx: U64Value, images: seq<Image>, p: U32Value, data: Bytes)
    requires Carry(WritesOf(rs, tx), images)
    ensures Wrote(rs, tx, p) <==> LastOf(images, p).Some?
    ensures LastImage(rs, tx, p, data) ==> LastOf(images, p).Some? && Holds(data, LastOf(images, p).value)
  {
    hide *;
    ApplyWrites(map[], rs, tx, p);
    ApplyAt(map[], WritesOf(rs, tx), images, p);
    if LastImage(rs, tx, p, data) {
      LastWrote(rs, tx, p, data);
      LastImageUnique(rs, tx, p, data, Apply(map[], WritesOf(rs, tx))[p]);
    }
  }

  // ---- a sequence of operations ----

  /** Each operation leads from one set of pages to the next, as Insert and Delete promise of pages and log. */
  ghost predicate Chain(states: seq<Pages>, logs: seq<seq<Image>>, n: nat) {
    && |states| == |logs| == n + 1
    && forall k :: 0 <= k < n ==> LogsTo(states[k], logs[k], states[k+1], logs[k+1])
  }

  /** The images of operation k. */
  function ImagesOf(logs: seq<seq<Image>>, k: nat): seq<Image>
    requires k + 1 < |logs|
  {
    if |logs[k]| <= |logs[k+1]| then logs[k+1][|logs[k]|..] else []
  }

  /** The records since the last checkpoint hold the images of each operation, under a transaction number of its own;
      these are the transactions that have committed. There may be others that have not. */
  ghost predicate Recorded(rs: seq<Record>, txs: seq<U64Value>, logs: seq<seq<Image>>) {
    && |logs| == |txs| + 1
    && (forall k :: 0 <= k < |txs| ==> Carry(WritesOf(rs, txs[k]), ImagesOf(logs, k)))
    && (forall tx :: Committed(rs, tx) <==> tx in txs)
  }

  /** Some operation has an image of the page. */
  ghost predicate Imaged(logs: seq<seq<Image>>, id: PageId) {
    exists k: nat :: k + 1 < |logs| && LastOf(ImagesOf(logs, k), id).Some?
  }

  /** The pages that no operation has written are on disk as they were before the first one. Of the others any bytes
      may be there: the flush loop may have written some of them already. */
  ghost predicate OldOnDisk(disk: Disk, states: seq<Pages>, logs: seq<seq<Image>>) {
    |states| > 0 && forall id :: id in states[0] && !Imaged(logs, id) ==> id in disk && Holds(disk[id], states[0][id])
  }

  /** Every operation that wrote a page left it as it is in the end. */
  ghost predicate WritersAgree(states: seq<Pages>, logs: seq<seq<Image>>) {
    && |states| > 0
    && forall k: nat, id :: k + 1 < |logs| && LastOf(ImagesOf(logs, k), id).Some? ==>
         id in states[|states|-1] && LastOf(ImagesOf(logs, k), id) == Some(states[|states|-1][id])
  }

  lemma {:induction false} Unimaged(states: seq<Pages>, logs: seq<seq<Image>>, n: nat, k: nat, id: PageId)
    requires Chain(states, logs, n) && k <= n && !Imaged(logs, id)
    ensures (id in states[k] <==> id in states[0]) && (id in states[k] ==> states[k][id] == states[0][id])
  {
    if k > 0 {
      Unimaged(states, logs, n, k - 1, id);
      assert LogsTo(states[k-1], logs[k-1], states[k-1+1], logs[k-1+1]);
      assert LastOf(ImagesOf(logs, k - 1), id).None?;
      hide Replay, LastOf;
      ReplayAt(states[k-1], ImagesOf(logs, k - 1), id);
    }
  }

  lemma {:induction false} ImagedStays(states: seq<Pages>, logs: seq<seq<Image>>, n: nat, k: nat, j: nat, id: PageId)
    requires Chain(states, logs, n) && k < j <= n && LastOf(ImagesOf(logs, k), id).Some?
    ensures id in states[j]
    decreases j
  {
    assert LogsTo(states[j-1], logs[j-1], states[j-1+1], logs[j-1+1]);
    hide Replay, LastOf;
    ReplayAt(states[j-1], ImagesOf(logs, j - 1), id);
    if k < j - 1 {
      ImagedStays(states, logs, n, k, j - 1, id);
    }
  }

  /** What is recovered of one page when the writers agree. */
  lemma AgreedAt(rs: seq<Record>, txs: seq<U64Value>, logs: seq<seq<Image>>, states: seq<Pages>, disk: Disk,
                 result: Images, id: PageId)
    requires Chain(states, logs, |txs|) && Recorded(rs, txs, logs) && OldOnDisk(disk, states, logs)
    requires WritersAgree(states, logs)
    requires AllOrNothing(rs, result) && id in states[|txs|]
    ensures id in Written(disk, result) && Holds(Written(disk, result)[id], states[|txs|][id])
  {
    hide Holds, WritesOf, Committed, Wrote, LastImage, LogsTo, LastOf, Carry, Imaged;
    if id in result {
      var tx :| Committed(rs, tx) && LastImage(rs, tx, id, result[id]);
      var k :| 0 <= k < |txs| && txs[k] == tx;
      WritesHold(rs, tx, ImagesOf(logs, k), id, result[id]);
    } else if Imaged(logs, id) {
      var k := ImagedBy(logs, id);
      assert Carry(WritesOf(rs, txs[k]), ImagesOf(logs, k));
      CarriedIds(WritesOf(rs, txs[k]), ImagesOf(logs, k), id);
      WritesHold(rs, txs[k], ImagesOf(logs, k), id, []);
    } else {
      Unimaged(states, logs, |txs|, |txs|, id);
    }
  }

  lemma ImagedBy(logs: seq<seq<Image>>, id: PageId) returns (k: nat)
    requires Imaged(logs, id)
    ensures k + 1 < |logs| && LastOf(ImagesOf(logs, k), id).Some?
  {
    k :| k + 1 < |logs| && LastOf(ImagesOf(logs, k), id).Some?;
  }

  lemma {:induction false} CarriedIds(ws: seq<Record>, images: seq<Image>, id: PageId)
    requires Carry(ws, images) && LastOf(images, id).Some?
    ensures id < 0x1_0000_0000
  {
    hide Holds;
    if images[|images|-1].id != id {
      CarriedIds(ws[..|ws|-1], images[..|images|-1], id);
    }
  }

  /** A merge order that takes the given operation last recovers the page as that operation left it. */
  lemma LastMerged(rs: seq<Record>, txs: seq<U64Value>, logs: seq<seq<Image>>, k: nat, id: PageId)
    returns (result: Images)
    requires Recorded(rs, txs, logs) && k < |txs| && LastOf(ImagesOf(logs, k), id).Some?
    ensures MergedInSomeOrder(rs, result) && id in result && Holds(result[id], LastOf(ImagesOf(logs, k), id).value)
  {
    hide Holds, WritesOf, Committed, Wrote, LastImage, LastOf, Carry, Merge, Writers, IsOrder;
    assert Carry(WritesOf(rs, txs[k]), ImagesOf(logs, k));
    CarriedIds(WritesOf(rs, txs[k]), ImagesOf(logs, k), id);
    WritesHold(rs, txs[k], ImagesOf(logs, k), id, []);
    WroteIsWriter(rs, txs[k], id);
    var order := LastInOrder(rs, Writers(rs), txs[k], id);
    result := Merge(rs, order);
    WritesHold(rs, txs[k], ImagesOf(logs, k), id, result[id]);
  }

  lemma WroteIsWriter(rs: seq<Record>, tx: U64Value, p: U32Value)
    requires Wrote(rs, tx, p)
    ensures tx in Writers(rs)
  {
    var i :| 0 <= i < |rs| && IsWrite(rs[i], tx, p);
    assert rs[i].tx in Writers(rs);
  }

  /** Recovery after any number of committed operations: whatever order the transactions are merged in, the images
      written over the disk give the final pages, if and only if every operation that wrote a page left it as it is
      in the end. */
  lemma SequenceRecoveredIff(rs: seq<Record>, txs: seq<U64Value>, logs: seq<seq<Image>>, states: seq<Pages>, disk: Disk)
    requires Chain(states, logs, |txs|) && Recorded(rs, txs, logs) && OldOnDisk(disk, states, logs)
    ensures (forall result :: MergedInSomeOrder(rs, result) ==> OnDisk(Written(disk, result), states[|txs|]))
      <==> WritersAgree(states, logs)
  {
    hide MergedInSomeOrder, Recorded, OldOnDisk, AllOrNothing, LogsTo, Holds, LastOf, ImagesOf;
    if WritersAgree(states, logs) {
      forall result | MergedInSomeOrder(rs, result) ensures OnDisk(Written(disk, result), states[|txs|]) {
        RecoveredImages(rs, result);
        forall id | id in states[|txs|]
          ensures id in Written(disk, result) && Holds(Written(disk, result)[id], states[|txs|][id])
        {
          AgreedAt(rs, txs, logs, states, disk, result, id);
        }
      }
    }
    if forall result :: MergedInSomeOrder(rs, result) ==> OnDisk(Written(disk, result), states[|txs|]) {
      forall k: nat, id | k + 1 < |logs| && LastOf(ImagesOf(logs, k), id).Some?
        ensures id in states[|txs|] && LastOf(ImagesOf(logs, k), id) == Some(states[|txs|][id])
      {
        ImagedStays(states, logs, |txs|, k, |txs|, id);
        var result := LastMerged(rs, txs, logs, k, id);
        assert OnDisk(Written(disk, result), states[|txs|]);
        HoldsOne(result[id], LastOf(ImagesOf(logs, k), id).value, states[|txs|][id]);
      }
    }
  }

  /** In particular a single committed operation is always recovered. */
  lemma CommittedIsRecovered(pages: Pages, log: seq<Image>, pages': Pages, log': seq<Image>,
                             rs: seq<Record>, tx: U64Value, result: Images, disk: Disk)
    requires LogsTo(pages, log, pages', log')
    requires forall id :: id in pages && LastOf(log'[|log|..], id).None? ==> id in disk && Holds(disk[id], pages[id])
    requires Carry(WritesOf(rs, tx), log'[|log|..])
    requires MergedInSomeOrder(rs, result) && forall t :: Committed(rs, t) <==> t == tx
    ensures OnDisk(Written(disk, result), pages')
  {
    hide MergedInSomeOrder, Holds, LastOf, Replay, Committed, WritesOf, Carry;
    var states, logs := [pages, pages'], [log, log'];
    assert ImagesOf(logs, 0) == log'[|log|..];
    forall id | id in pages && !Imaged(logs, id) ensures id in disk && Holds(disk[id], pages[id]) {
      assert LastOf(ImagesOf(logs, 0), id).None?;
    }
    forall k: nat, id | k + 1 < |logs| && LastOf(ImagesOf(logs, k), id).Some?
      ensures id in pages' && LastOf(ImagesOf(logs, k), id) == Some(pages'[id])
    {
      ReplayAt(pages, log'[|log|..], id);
    }
    SequenceRecoveredIff(rs, [tx], logs, states, disk);
  }

  // ---- two insertions into one leaf ----

  /** The log of two operations that write page 1, and commit. */
  function TwoWrites(d: Bytes, e: Bytes): seq<Record> {
    [Record(1, 1, PAGE_WRITE, 1, d), Record(2, 1, COMMIT, 0, []), Record(3, 2, PAGE_WRITE, 1, e),
     Record(4, 2, COMMIT, 0, [])]
  }

  function TwoLogs(p: Page, q: Page): seq<seq<Image>> {
    [[], [Image(1, p)], [Image(1, p), Image(1, q)]]
  }

  lemma WritesMore(rs: seq<Record>, r: Record, tx: U64Value)
    ensures WritesOf(rs + [r], tx) == WritesOf(rs, tx) + if r.kind == PAGE_WRITE && r.tx == tx then [r] else []
  {
    assert (rs + [r])[..|rs|] == rs;
  }

  lemma WritesFour(rs: seq<Record>, tx: U64Value)
    requires |rs| == 4 && rs[1].kind != PAGE_WRITE && rs[3].kind != PAGE_WRITE
    ensures WritesOf(rs, tx) == (if rs[0].kind == PAGE_WRITE && rs[0].tx == tx then [rs[0]] else [])
                              + (if rs[2].kind == PAGE_WRITE && rs[2].tx == tx then [rs[2]] else [])
  {
    hide *;
    WritesNone(tx);
    var r1 := [] + [rs[0]];
    var r2 := r1 + [rs[1]];
    var r3 := r2 + [rs[2]];
    assert rs == r3 + [rs[3]];
    WritesMore([], rs[0], tx);
    WritesMore(r1, rs[1], tx);
    WritesMore(r2, rs[2], tx);
    WritesMore(r3, rs[3], tx);
  }

  lemma WritesNone(tx: U64Value)
    ensures WritesOf([], tx) == []
  {
  }

  lemma TwoWritesOf(d: Bytes, e: Bytes)
    ensures WritesOf(TwoWrites(d, e), 1) == [TwoWrites(d, e)[0]] && WritesOf(TwoWrites(d, e), 2) == [TwoWrites(d, e)[2]]
    ensures forall tx :: Committed(TwoWrites(d, e), tx) <==> tx in [1, 2]
  {
    var rs := TwoWrites(d, e);
    WritesFour(rs, 1);
    WritesFour(rs, 2);
    assert rs[1].kind == COMMIT && rs[3].kind == COMMIT;
  }

  lemma TwoImages(p: Page, q: Page)
    ensures ImagesOf(TwoLogs(p, q), 0) == [Image(1, p)] && ImagesOf(TwoLogs(p, q), 1) == [Image(1, q)]
    ensures LastOf([Image(1, p)], 1) == Some(p) && LastOf([Image(1, q)], 1) == Some(q)
  {
  }

  lemma TwoRecorded(d: Bytes, e: Bytes, p: Page, q: Page)
    requires Holds(d, p) && Holds(e, q)
    ensures Recorded(TwoWrites(d, e), [1, 2], TwoLogs(p, q))
  {
    hide Holds, WritesOf, Committed;
    TwoWritesOf(d, e);
    TwoImages(p, q);
  }

  /** An input: two different keys inserted into an empty tree and acknowledged. Some merge order recovers the leaf
      without the second one. */
  method SecondInsertLost(a: Key, v: Value, b: Key, w: Value) returns (rs: seq<Record>, ghost result: Images)
    requires a != b && LeafCellSize(a, v) + LeafCellSize(b, w) + 2 * CELL_PTR_SIZE <= USABLE
    ensures var p := LeafInsert(EmptyLeaf(0), a, v).value; var q := LeafInsert(p, b, w).value;
      && Recorded(rs, [1, 2], TwoLogs(p, q)) && Lookup(q.pairs, b) == Some(w)
      && MergedInSomeOrder(rs, result) && 1 in result && Holds(result[1], p) && Lookup(p.pairs, b) == None
  {
    var raw := new RawPage(1, true);
    var ok := raw.InsertLeafCell(a, v);
    ghost var p := raw.page;
    var d := raw.data[..];
    assert Holds(d, p);
    ok := raw.InsertLeafCell(b, w);
    ghost var q := raw.page;
    var e := raw.data[..];
    assert Holds(e, q);
    rs := TwoWrites(d, e);
    hide Holds, Recorded, MergedInSomeOrder, ImagesOf, TwoWrites, TwoLogs, LastOf, Rank;
    assert Lookup(p.pairs, b) == None && Lookup(q.pairs, b) == Some(w) by { InsertedLast(a, v, b, w); }
    TwoRecorded(d, e, p, q);
    TwoImages(p, q);
    result := LastMerged(rs, [1, 2], TwoLogs(p, q), 0, 1);
  }

  lemma InsertedLast(a: Key, v: Value, b: Key, w: Value)
    requires a != b && LeafCellSize(a, v) + LeafCellSize(b, w) + 2 * CELL_PTR_SIZE <= USABLE
    ensures var p := LeafInsert(EmptyLeaf(0), a, v);
      && p.Some? && Lookup(p.value.pairs, b) == None
      && var q := LeafInsert(p.value, b, w);
      && q.Some? && Lookup(q.value.pairs, b) == Some(w)
  {
    var pairs := [Cell(a, v)];
    assert LeafInsert(EmptyLeaf(0), a, v).value.pairs == pairs;
    hide Rank, LowerBound, Lookup;
    LookupMissing(pairs, b);
    LookupInsert(pairs, Cell(b, w), b);
  }
}
