/** Recovery from the write-ahead log: Recover of internal/storage/wal.go. */
module WalRecovery {
  import opened Keys
  import opened WalRecord

  type Images = map<U32Value, Bytes>

  /** The records after the last checkpoint: a checkpoint clears everything collected before it. */
  function SinceCheckpoint(rs: seq<Record>): (s: seq<Record>)
    ensures |s| <= |rs| && s == rs[|rs|-|s|..]
    ensures forall i :: 0 <= i < |s| ==> s[i].kind != CHECKPOINT
    ensures |s| < |rs| ==> rs[|rs|-|s|-1].kind == CHECKPOINT
  {
    if |rs| == 0 || rs[|rs|-1].kind == CHECKPOINT then []
    else SinceCheckpoint(rs[..|rs|-1]) + [rs[|rs|-1]]
  }

  predicate IsWrite(r: Record, tx: U64Value, p: U32Value) {
    r.kind == PAGE_WRITE && r.tx == tx && r.pageId == p
  }

  ghost predicate Wrote(rs: seq<Record>, tx: U64Value, p: U32Value) {
    exists i :: 0 <= i < |rs| && IsWrite(rs[i], tx, p)
  }

  ghost predicate Committed(rs: seq<Record>, tx: U64Value) {
    exists i :: 0 <= i < |rs| && rs[i].kind == COMMIT && rs[i].tx == tx
  }

  /** The page writes of a transaction, in log order. */
  function WritesOf(rs: seq<Record>, tx: U64Value): seq<Record> {
    if |rs| == 0 then []
    else
      var r := rs[|rs|-1];
      WritesOf(rs[..|rs|-1], tx) + if r.kind == PAGE_WRITE && r.tx == tx then [r] else []
  }

  /** Later writes of a page replace earlier ones. */
  function Apply(m: Images, ws: seq<Record>): Images {
    if |ws| == 0 then m else Apply(m, ws[..|ws|-1])[ws[|ws|-1].pageId := ws[|ws|-1].data]
  }

  /** The transactions merged one after the other; only committed ones count. */
  ghost function Merge(rs: seq<Record>, order: seq<U64Value>): Images {
    if |order| == 0 then map[]
    else
      var m := Merge(rs, order[..|order|-1]);
      var tx := order[|order|-1];
      if Committed(rs, tx) then Apply(m, WritesOf(rs, tx)) else m
  }

  // ---- what a transaction leaves behind ----

  /** The image is the transaction's last one of the page. */
  ghost predicate LastImage(rs: seq<Record>, tx: U64Value, p: U32Value, data: Bytes) {
    exists i :: 0 <= i < |rs| && IsWrite(rs[i], tx, p) && rs[i].data == data
      && forall j :: i < j < |rs| ==> !IsWrite(rs[j], tx, p)
  }

  lemma {:induction false} ApplyWrites(m: Images, rs: seq<Record>, tx: U64Value, p: U32Value)
    ensures var m' := Apply(m, WritesOf(rs, tx));
      && (Wrote(rs, tx, p) ==> p in m' && LastImage(rs, tx, p, m'[p]))
      && (!Wrote(rs, tx, p) ==> (p in m' <==> p in m) && (p in m ==> m'[p] == m[p]))
  {
    hide LastImage, Wrote;
    if |rs| == 0 {
      assert !Wrote(rs, tx, p) by { NotWritten(rs, tx, p); }
    } else {
      var n := |rs| - 1;
      var init := rs[..n];
      ApplyWrites(m, init, tx, p);
      var ws := WritesOf(init, tx);
      if rs[n].kind == PAGE_WRITE && rs[n].tx == tx {
        assert (ws + [rs[n]])[..|ws|] == ws;
      } else {
        assert WritesOf(rs, tx) == ws;
      }
      WroteStep(rs, tx, p);
      if IsWrite(rs[n], tx, p) {
        LastIsImage(rs, tx, p);
      } else if Wrote(init, tx, p) {
        LastImageStep(rs, tx, p, Apply(m, ws)[p]);
      }
    }
  }

  lemma NotWritten(rs: seq<Record>, tx: U64Value, p: U32Value)
    requires |rs| == 0
    ensures !Wrote(rs, tx, p)
  {
  }

  lemma LastIsImage(rs: seq<Record>, tx: U64Value, p: U32Value)
    requires |rs| > 0 && IsWrite(rs[|rs|-1], tx, p)
    ensures LastImage(rs, tx, p, rs[|rs|-1].data)
  {
  }

  lemma WroteStep(rs: seq<Record>, tx: U64Value, p: U32Value)
    requires |rs| > 0
    ensures Wrote(rs, tx, p) <==> Wrote(rs[..|rs|-1], tx, p) || IsWrite(rs[|rs|-1], tx, p)
  {
  }

  lemma LastImageStep(rs: seq<Record>, tx: U64Value, p: U32Value, data: Bytes)
    requires |rs| > 0 && LastImage(rs[..|rs|-1], tx, p, data) && !IsWrite(rs[|rs|-1], tx, p)
    ensures LastImage(rs, tx, p, data)
  {
  }

  lemma LastImageUnique(rs: seq<Record>, tx: U64Value, p: U32Value, a: Bytes, b: Bytes)
    requires LastImage(rs, tx, p, a) && LastImage(rs, tx, p, b)
    ensures a == b
  {
  }

  // ---- what recovery returns ----

  /** Some committed transaction of the order wrote the page. */
  ghost predicate WrittenIn(rs: seq<Record>, order: seq<U64Value>, p: U32Value) {
    exists k :: 0 <= k < |order| && Committed(rs, order[k]) && Wrote(rs, order[k], p)
  }

  /** Transaction k is the last of the order that is committed and wrote the page. */
  ghost predicate MergedLast(rs: seq<Record>, order: seq<U64Value>, p: U32Value, k: nat) {
    && k < |order| && Committed(rs, order[k])
    && forall l :: k < l < |order| ==> !(Committed(rs, order[l]) && Wrote(rs, order[l], p))
  }

  /** The image is the last one of the transaction merged last among those that count. */
  ghost predicate RecoveredAs(rs: seq<Record>, order: seq<U64Value>, p: U32Value, data: Bytes) {
    exists k: nat :: MergedLast(rs, order, p, k) && LastImage(rs, order[k], p, data)
  }

  lemma RecoveredStep(rs: seq<Record>, order: seq<U64Value>, p: U32Value, data: Bytes)
    requires |order| > 0
    requires RecoveredAs(rs, order[..|order|-1], p, data)
    requires !(Committed(rs, order[|order|-1]) && Wrote(rs, order[|order|-1], p))
    ensures RecoveredAs(rs, order, p, data)
  {
  }

  lemma WrittenStep(rs: seq<Record>, order: seq<U64Value>, p: U32Value)
    requires |order| > 0
    ensures WrittenIn(rs, order, p) <==>
      WrittenIn(rs, order[..|order|-1], p) || (Committed(rs, order[|order|-1]) && Wrote(rs, order[|order|-1], p))
  {
  }

  /** All or nothing: a page is recovered exactly when a committed transaction wrote it, and with the last
      image of such a transaction, namely the last one merged. */
  lemma {:induction false} MergeImages(rs: seq<Record>, order: seq<U64Value>, p: U32Value)
    ensures p in Merge(rs, order) <==> WrittenIn(rs, order, p)
    ensures p in Merge(rs, order) ==> RecoveredAs(rs, order, p, Merge(rs, order)[p])
  {
    hide LastImage, Wrote, Committed, Apply, WritesOf, WrittenIn, RecoveredAs;
    if |order| == 0 {
      assert !WrittenIn(rs, order, p) by { NothingWritten(rs, order, p); }
    } else {
      var n := |order| - 1;
      MergeImages(rs, order[..n], p);
      WrittenStep(rs, order, p);
      if Committed(rs, order[n]) {
        ApplyWrites(Merge(rs, order[..n]), rs, order[n], p);
      }
      if Committed(rs, order[n]) && Wrote(rs, order[n], p) {
        RecoveredLast(rs, order, p, Merge(rs, order)[p]);
      } else if WrittenIn(rs, order[..n], p) {
        RecoveredStep(rs, order, p, Merge(rs, order)[p]);
      }
    }
  }

  lemma NothingWritten(rs: seq<Record>, order: seq<U64Value>, p: U32Value)
    requires |order| == 0
    ensures !WrittenIn(rs, order, p)
  {
  }

  lemma RecoveredLast(rs: seq<Record>, order: seq<U64Value>, p: U32Value, data: Bytes)
    requires |order| > 0 && Committed(rs, order[|order|-1]) && LastImage(rs, order[|order|-1], p, data)
    ensures RecoveredAs(rs, order, p, data)
  {
  }

  ghost predicate IsOrder(order: seq<U64Value>, txs: set<U64Value>) {
    && (forall i, j :: 0 <= i < j < |order| ==> order[i] != order[j])
    && (forall tx :: tx in order <==> tx in txs)
  }

  lemma {:induction false} OrderExists(txs: set<U64Value>) returns (order: seq<U64Value>)
    ensures IsOrder(order, txs)
  {
    if txs == {} {
      order := [];
    } else {
      var tx :| tx in txs;
      var rest := OrderExists(txs - {tx});
      order := rest + [tx];
    }
  }

  /** A page written by a single committed transaction is recovered with that transaction's last image. */
  lemma SingleWriter(rs: seq<Record>, order: seq<U64Value>, txs: set<U64Value>, tx: U64Value, p: U32Value, data: Bytes)
    requires IsOrder(order, txs) && tx in txs && Committed(rs, tx) && LastImage(rs, tx, p, data)
    requires forall t :: t in txs && t != tx && Committed(rs, t) ==> !Wrote(rs, t, p)
    ensures p in Merge(rs, order) && Merge(rs, order)[p] == data
  {
    hide Merge, Committed, LastImage;
    var i :| 0 <= i < |order| && order[i] == tx;
    assert Wrote(rs, tx, p) by { LastWrote(rs, tx, p, data); }
    MergeImages(rs, order, p);
    var k: nat :| MergedLast(rs, order, p, k) && LastImage(rs, order[k], p, Merge(rs, order)[p]);
    LastWrote(rs, order[k], p, Merge(rs, order)[p]);
    assert order[k] in txs;
    LastImageUnique(rs, tx, p, data, Merge(rs, order)[p]);
  }

  lemma LastWrote(rs: seq<Record>, tx: U64Value, p: U32Value, data: Bytes)
    requires LastImage(rs, tx, p, data)
    ensures Wrote(rs, tx, p)
  {
  }

  /** Go iterates over the transactions in an unspecified order. Every order recovers the image exactly when
      every committed transaction that wrote the page wrote that image last: log order between transactions
      does not count. */
  lemma OrderIndependent(rs: seq<Record>, txs: set<U64Value>, p: U32Value, data: Bytes)
    requires exists tx :: tx in txs && Committed(rs, tx) && Wrote(rs, tx, p)
    ensures (forall order :: IsOrder(order, txs) ==> p in Merge(rs, order) && Merge(rs, order)[p] == data)
      <==> (forall tx :: tx in txs && Committed(rs, tx) && Wrote(rs, tx, p) ==> LastImage(rs, tx, p, data))
  {
    hide Merge, Committed, LastImage, Wrote, IsOrder;
    if forall order :: IsOrder(order, txs) ==> p in Merge(rs, order) && Merge(rs, order)[p] == data {
      forall tx | tx in txs && Committed(rs, tx) && Wrote(rs, tx, p) ensures LastImage(rs, tx, p, data) {
        var order := LastInOrder(rs, txs, tx, p);
      }
    }
    if forall tx :: tx in txs && Committed(rs, tx) && Wrote(rs, tx, p) ==> LastImage(rs, tx, p, data) {
      forall order | IsOrder(order, txs) ensures p in Merge(rs, order) && Merge(rs, order)[p] == data {
        AgreedImage(rs, order, txs, p, data);
      }
    }
  }

  /** An order that merges the given transaction last. */
  lemma LastInOrder(rs: seq<Record>, txs: set<U64Value>, tx: U64Value, p: U32Value) returns (order: seq<U64Value>)
    requires tx in txs && Committed(rs, tx) && Wrote(rs, tx, p)
    ensures IsOrder(order, txs) && p in Merge(rs, order) && LastImage(rs, tx, p, Merge(rs, order)[p])
  {
    hide Committed, LastImage, Wrote;
    var rest := OrderExists(txs - {tx});
    order := rest + [tx];
    assert order[..|order|-1] == rest;
    ApplyWrites(Merge(rs, rest), rs, tx, p);
  }

  lemma AgreedImage(rs: seq<Record>, order: seq<U64Value>, txs: set<U64Value>, p: U32Value, data: Bytes)
    requires IsOrder(order, txs)
    requires exists tx :: tx in txs && Committed(rs, tx) && Wrote(rs, tx, p)
    requires forall tx :: tx in txs && Committed(rs, tx) && Wrote(rs, tx, p) ==> LastImage(rs, tx, p, data)
    ensures p in Merge(rs, order) && Merge(rs, order)[p] == data
  {
    hide Merge, Committed, LastImage, Wrote;
    var tx :| tx in txs && Committed(rs, tx) && Wrote(rs, tx, p);
    var i :| 0 <= i < |order| && order[i] == tx;
    MergeImages(rs, order, p);
    var k: nat :| MergedLast(rs, order, p, k) && LastImage(rs, order[k], p, Merge(rs, order)[p]);
    LastWrote(rs, order[k], p, Merge(rs, order)[p]);
    assert order[k] in txs;
    LastImageUnique(rs, order[k], p, data, Merge(rs, order)[p]);
  }

  // ---- Recover ----

  ghost function Writers(rs: seq<Record>): set<U64Value> {
    set i | 0 <= i < |rs| && rs[i].kind == PAGE_WRITE :: rs[i].tx
  }

  ghost predicate Collected(rs: seq<Record>, txWrites: map<U64Value, seq<Record>>, committed: set<U64Value>) {
    && txWrites.Keys == Writers(rs)
    && (forall tx :: tx in txWrites ==> txWrites[tx] == WritesOf(rs, tx))
    && (forall tx :: tx in committed <==> Committed(rs, tx))
  }

  lemma CollectNone()
    ensures Collected([], map[], {})
  {
  }

  /** One more record: a write is appended to its transaction, a commit marks it, anything else is ignored. */
  lemma CollectOne(rs: seq<Record>, r: Record, txWrites: map<U64Value, seq<Record>>, committed: set<U64Value>)
    requires Collected(rs, txWrites, committed)
    ensures r.kind == PAGE_WRITE ==>
      Collected(rs + [r], txWrites[r.tx := (if r.tx in txWrites then txWrites[r.tx] else []) + [r]], committed)
    ensures r.kind == COMMIT ==> Collected(rs + [r], txWrites, committed + {r.tx})
    ensures r.kind != PAGE_WRITE && r.kind != COMMIT ==> Collected(rs + [r], txWrites, committed)
  {
    hide Committed;
    var all := rs + [r];
    assert all[..|rs|] == rs;
    assert Writers(all) == Writers(rs) + if r.kind == PAGE_WRITE then {r.tx} else {} by { WritersStep(rs, r); }
    forall tx ensures Committed(all, tx) <==> Committed(rs, tx) || (r.kind == COMMIT && r.tx == tx) {
      CommittedStep(rs, r, tx);
    }
    if r.kind == PAGE_WRITE && r.tx !in txWrites {
      NoWrites(rs, r.tx);
    }
  }

  lemma WritersStep(rs: seq<Record>, r: Record)
    ensures Writers(rs + [r]) == Writers(rs) + if r.kind == PAGE_WRITE then {r.tx} else {}
  {
    var all := rs + [r];
    forall tx | tx in Writers(rs) ensures tx in Writers(all) {
      var i :| 0 <= i < |rs| && rs[i].kind == PAGE_WRITE && rs[i].tx == tx;
      assert all[i] == rs[i];
    }
    assert r.kind == PAGE_WRITE ==> all[|rs|].tx in Writers(all);
  }

  lemma CommittedStep(rs: seq<Record>, r: Record, tx: U64Value)
    ensures Committed(rs + [r], tx) <==> Committed(rs, tx) || (r.kind == COMMIT && r.tx == tx)
  {
    var all := rs + [r];
    if Committed(rs, tx) {
      var i :| 0 <= i < |rs| && rs[i].kind == COMMIT && rs[i].tx == tx;
      assert all[i] == rs[i];
    }
    assert all[|rs|] == r;
  }

  lemma {:induction false} NoWrites(rs: seq<Record>, tx: U64Value)
    requires tx !in Writers(rs)
    ensures WritesOf(rs, tx) == []
  {
    if |rs| > 0 {
      assert rs == rs[..|rs|-1] + [rs[|rs|-1]];
      WritersStep(rs[..|rs|-1], rs[|rs|-1]);
      NoWrites(rs[..|rs|-1], tx);
    }
  }

  lemma SinceCheckpointStep(rs: seq<Record>, i: nat)
    requires i < |rs|
    ensures rs[i].kind == CHECKPOINT ==> SinceCheckpoint(rs[..i+1]) == []
    ensures rs[i].kind != CHECKPOINT ==> SinceCheckpoint(rs[..i+1]) == SinceCheckpoint(rs[..i]) + [rs[i]]
  {
    assert rs[..i+1][..i] == rs[..i];
  }

  /** What recovery may return: the transactions merged in some order. */
  ghost predicate MergedInSomeOrder(rs: seq<Record>, result: Images) {
    exists order :: IsOrder(order, Writers(rs)) && result == Merge(rs, order)
  }

  /** Recover: collects the records since the last checkpoint by transaction and merges the committed ones,
      in whatever order the map iteration takes them. */
  method Recover(c: Checksum, file: Bytes) returns (result: Images)
    ensures MergedInSomeOrder(SinceCheckpoint(ParseAll(c, file)), result)
    ensures exists rs :: ReadsAs(c, file, rs) && AllOrNothing(SinceCheckpoint(rs), result)
  {
    hide Committed, WritesOf, Collected, MergedInSomeOrder, SinceCheckpoint, AllOrNothing, ReadsAs, ParseAll;
    var records := ReadRecords(c, file);
    ReadsIff(c, file, records);
    var txWrites: map<U64Value, seq<Record>> := map[];
    var committedTxns: set<U64Value> := {};
    CollectNone();
    assert records[..0] == [];
    assert SinceCheckpoint([]) == [];
    for i := 0 to |records|
      invariant Collected(SinceCheckpoint(records[..i]), txWrites, committedTxns)
    {
      var record := records[i];
      SinceCheckpointStep(records, i);
      ghost var rs := SinceCheckpoint(records[..i]);
      CollectOne(rs, record, txWrites, committedTxns);
      if record.kind == PAGE_WRITE {
        txWrites := txWrites[record.tx := (if record.tx in txWrites then txWrites[record.tx] else []) + [record]];
      } else if record.kind == COMMIT {
        committedTxns := committedTxns + {record.tx};
      } else if record.kind == CHECKPOINT {
        txWrites := map[];
        committedTxns := {};
        CollectNone();
      }
    }
    assert records[..|records|] == records;
    result := MergeAll(SinceCheckpoint(records), txWrites, committedTxns);
    RecoveredImages(SinceCheckpoint(records), result);
  }

  /** The file begins with the encodings of the records, and behind them with none. */
  ghost predicate ReadsAs(c: Checksum, file: Bytes, rs: seq<Record>) {
    AllOk(rs) && EncodeAll(c, rs) <= file && NoRecord(c, file[|EncodeAll(c, rs)|..])
  }

  lemma ReadsIff(c: Checksum, file: Bytes, rs: seq<Record>)
    ensures ReadsAs(c, file, rs) <==> ParseAll(c, file) == rs
  {
    ParseAllIff(c, file, rs);
  }

  method MergeAll(ghost rs: seq<Record>, txWrites: map<U64Value, seq<Record>>, committedTxns: set<U64Value>)
    returns (result: Images)
    requires Collected(rs, txWrites, committedTxns)
    ensures MergedInSomeOrder(rs, result)
  {
    hide Committed, WritesOf, Writers;
    result := map[];
    ghost var order: seq<U64Value> := [];
    var todo := txWrites.Keys;
    while todo != {}
      invariant todo <= txWrites.Keys && IsOrder(order, txWrites.Keys - todo) && result == Merge(rs, order)
      decreases todo
    {
      var tx :| tx in todo;
      todo := todo - {tx};
      assert (order + [tx])[..|order|] == order;
      if tx in committedTxns {
        result := ApplyAll(result, txWrites[tx]);
      }
      order := order + [tx];
    }
  }

  method ApplyAll(m: Images, writes: seq<Record>) returns (result: Images)
    ensures result == Apply(m, writes)
  {
    result := m;
    for i := 0 to |writes|
      invariant result == Apply(m, writes[..i])
    {
      result := result[writes[i].pageId := writes[i].data];
      assert writes[..i+1][..i] == writes[..i];
    }
    assert writes[..|writes|] == writes;
  }

  /** The pages recovered are exactly those that some committed transaction wrote. */
  lemma RecoveredPages(rs: seq<Record>, order: seq<U64Value>, p: U32Value)
    requires IsOrder(order, Writers(rs))
    ensures p in Merge(rs, order) <==> exists tx :: Committed(rs, tx) && Wrote(rs, tx, p)
  {
    hide Merge, Committed;
    MergeImages(rs, order, p);
    forall tx | Committed(rs, tx) && Wrote(rs, tx, p) ensures WrittenIn(rs, order, p) {
      var i :| 0 <= i < |rs| && IsWrite(rs[i], tx, p);
      assert rs[i].tx in Writers(rs);
      var k :| 0 <= k < |order| && order[k] == tx;
    }
  }

  /** The pages that committed transactions wrote, each with the last image of one of them, and no others. */
  ghost predicate AllOrNothing(rs: seq<Record>, result: Images) {
    && (forall p :: p in result <==> exists tx :: Committed(rs, tx) && Wrote(rs, tx, p))
    && (forall p :: p in result ==> exists tx :: Committed(rs, tx) && LastImage(rs, tx, p, result[p]))
  }

  lemma RecoveredImages(rs: seq<Record>, result: Images)
    requires MergedInSomeOrder(rs, result)
    ensures AllOrNothing(rs, result)
  {
    hide Merge, Committed, Wrote, LastImage, Writers, IsOrder;
    var order :| IsOrder(order, Writers(rs)) && result == Merge(rs, order);
    forall p: U32Value
      ensures p in result <==> exists tx :: Committed(rs, tx) && Wrote(rs, tx, p)
      ensures p in result ==> exists tx :: Committed(rs, tx) && LastImage(rs, tx, p, result[p])
    {
      RecoveredPages(rs, order, p);
      MergeImages(rs, order, p);
    }
  }

  /** Recovery of a log that a crash cut after n bytes: what comes back is decided by the records complete in those
      bytes alone. A page comes back exactly when it was written, after the last of their checkpoints, by a
      transaction whose commit is among them, and then with such a transaction's last image. */
  lemma RecoverAfterCrash(c: Checksum, log: seq<Record>, n: nat, result: Images) returns (k: nat)
    requires AllOk(log) && n <= |EncodeAll(c, log)|
    requires MergedInSomeOrder(SinceCheckpoint(ParseAll(c, EncodeAll(c, log)[..n])), result)
    ensures Completes(c, log, n, k) && k <= |log| && AllOrNothing(SinceCheckpoint(log[..k]), result)
  {
    hide EncodeAll, ParseAll, SinceCheckpoint, MergedInSomeOrder, AllOrNothing;
    k := CutLog(c, log, n);
    RecoveredImages(SinceCheckpoint(log[..k]), result);
  }

  /** Recovery takes nothing from a damaged record nor from behind it. */
  lemma RecoverDamaged(c: Checksum, log: seq<Record>, file: Bytes, result: Images)
    requires AllOk(log) && EncodeAll(c, log) <= file && Damaged(c, file[|EncodeAll(c, log)|..])
    requires MergedInSomeOrder(SinceCheckpoint(ParseAll(c, file)), result)
    ensures AllOrNothing(SinceCheckpoint(log), result)
  {
    hide *;
    DamagedLog(c, log, file);
    RecoveredImages(SinceCheckpoint(log), result);
  }

  const WRITE := Record(1, 1, PAGE_WRITE, 1, [1])
  const COMMITTED := Record(2, 1, COMMIT, 0, [])

  /** An input: a committed page write whose only data byte has turned from 1 to 2. Unless the checksum is the same for
      both, no page is recovered. */
  lemma DamagedByte(c: Checksum, file: Bytes, result: Images)
    requires file == EncodeAll(c, [WRITE, COMMITTED])[HEADER_SIZE := 2]
    requires c.update(c.sum(Head(WRITE)), [2]) != c.update(c.sum(Head(WRITE)), [1])
    requires MergedInSomeOrder(SinceCheckpoint(ParseAll(c, file)), result)
    ensures result == map[]
  {
    hide *;
    Numbers();
    var rest := FirstEncoded(c, [WRITE, COMMITTED]);
    DamagedWrite(c, rest, file);
    NoLog(c, file);
    RecoverDamaged(c, [], file, result);
    NothingRecovered(result);
  }

  lemma DamagedWrite(c: Checksum, rest: Bytes, file: Bytes)
    requires file == (Encoded(c, WRITE) + rest)[HEADER_SIZE := 2]
    requires c.update(c.sum(Head(WRITE)), [2]) != c.update(c.sum(Head(WRITE)), [1])
    ensures Damaged(c, file)
  {
    hide *;
    Numbers();
    OneByte(Encoded(c, WRITE), rest, file, HEADER_SIZE);
    DamagedIff(c, WRITE, file);
  }

  lemma Numbers()
    ensures RecordOk(WRITE) && AllOk([WRITE, COMMITTED]) && WRITE.data == [1] && HEADER_SIZE == 29
  {
  }

  lemma FirstEncoded(c: Checksum, rs: seq<Record>) returns (rest: Bytes)
    requires AllOk(rs) && |rs| > 0
    ensures EncodeAll(c, rs) == Encoded(c, rs[0]) + rest
  {
    rest := EncodeAll(c, rs[1..]);
  }

  lemma OneByte(e: Bytes, rest: Bytes, file: Bytes, n: nat)
    requires n < |e| && file == (e + rest)[n := 2]
    ensures file[..n] == e[..n] && file[n..n+1] == [2]
  {
  }

  lemma NoLog(c: Checksum, file: Bytes)
    ensures AllOk([]) && EncodeAll(c, []) <= file && file[|EncodeAll(c, [])|..] == file
  {
  }

  lemma NothingRecovered(result: Images)
    requires AllOrNothing(SinceCheckpoint([]), result)
    ensures result == map[]
  {
    assert forall p :: p !in result;
  }
}
