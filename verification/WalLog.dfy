/** The appending side of the write-ahead log: opening, transaction and sequence numbers, and what becomes of
    records appended behind a torn one (internal/storage/wal.go:122-160, 270-362). */
module WalLog {
  import opened Keys
  import opened WalRecord

  const MAX_U64: U64Value := 0xFFFF_FFFF_FFFF_FFFF

  /** uint64 increment. */
  function Succ(n: U64Value): U64Value { if n == MAX_U64 then 0 else n + 1 }

  lemma {:induction false} EncodeSplit(c: Checksum, rs: seq<Record>, more: seq<Record>)
    requires AllOk(rs) && AllOk(more)
    ensures AllOk(rs + more) && EncodeAll(c, rs + more) == EncodeAll(c, rs) + EncodeAll(c, more)
  {
    hide Encoded;
    if |rs| == 0 {
      assert rs + more == more;
    } else {
      assert (rs + more)[1..] == rs[1..] + more;
      EncodeSplit(c, rs[1..], more);
    }
  }

  /** Parsing goes through complete records whatever follows them. */
  lemma {:induction false} ParseThrough(c: Checksum, rs: seq<Record>, rest: Bytes)
    requires AllOk(rs)
    ensures ParseAll(c, EncodeAll(c, rs) + rest) == rs + ParseAll(c, rest)
  {
    hide Encoded, ParseOne;
    if |rs| == 0 {
      assert EncodeAll(c, rs) + rest == rest;
    } else {
      var e, tail := Encoded(c, rs[0]), EncodeAll(c, rs[1..]) + rest;
      assert EncodeAll(c, rs) + rest == e + tail;
      ParseEncoded(c, rs[0], tail);
      assert (e + tail)[|e|..] == tail;
      ParseThrough(c, rs[1..], rest);
    }
  }

  lemma ParseWhole(c: Checksum, rs: seq<Record>)
    requires AllOk(rs)
    ensures ParseAll(c, EncodeAll(c, rs)) == rs
  {
    hide EncodeAll, ParseAll;
    ParseThrough(c, rs, []);
    ParseEmpty(c);
    assert EncodeAll(c, rs) + [] == EncodeAll(c, rs);
  }

  /** The first byte of a record that is read is the low byte of its sequence number. */
  lemma FirstByte(c: Checksum, s: Bytes)
    requires ParseOne(c, s).Some?
    ensures |s| > 0 && ParseOne(c, s).value.lsn % 256 == s[0]
  {
  }

  /** After a crash that cut the log at any byte, every record appended later is read back by the next recovery,
      if and only if the cut fell between two records: behind a torn record, appends are not all recovered. */
  lemma AppendsAreReadIff(c: Checksum, log: seq<Record>, n: nat, k: nat)
    requires AllOk(log) && n <= |EncodeAll(c, log)| && Completes(c, log, n, k)
    ensures var cut := EncodeAll(c, log)[..n];
      (forall more | AllOk(more) :: ParseAll(c, cut + EncodeAll(c, more)) == log[..k] + more)
      <==> n == |EncodeAll(c, log[..k])|
  {
    hide EncodeAll, ParseAll, Encoded;
    var cut := EncodeAll(c, log)[..n];
    var whole := EncodeAll(c, log[..k]);
    EncodeSplit(c, log[..k], log[k..]);
    assert log[..k] + log[k..] == log;
    var tail := cut[|whole|..];
    assert cut == whole + tail;
    if tail == [] {
      forall more | AllOk(more) ensures ParseAll(c, cut + EncodeAll(c, more)) == log[..k] + more {
        assert cut == whole;
        ParseThrough(c, log[..k], EncodeAll(c, more));
        ParseWhole(c, more);
      }
    } else {
      var lsn: U64Value := if tail[0] == 0 then 1 else 0;
      var r := Record(lsn, 0, COMMIT, 0, []);
      var e := EncodeAll(c, [r]);
      assert cut + e == whole + (tail + e);
      ParseThrough(c, log[..k], tail + e);
      TornFirst(c, tail, r);
      assert AllOk([r]);
      assert (log[..k] + ParseAll(c, tail + e))[|log[..k]|..] == ParseAll(c, tail + e);
      assert (log[..k] + [r])[|log[..k]|..] == [r];
    }
  }

  lemma TornFirst(c: Checksum, tail: Bytes, r: Record)
    requires RecordOk(r) && tail != [] && r.lsn % 256 != tail[0] as nat
    ensures ParseAll(c, tail + EncodeAll(c, [r])) != [r]
  {
    hide EncodeAll, ParseOne;
    var s := tail + EncodeAll(c, [r]);
    if ParseOne(c, s).Some? {
      FirstByte(c, s);
      assert s[0] == tail[0];
      assert ParseAll(c, s)[0] == ParseOne(c, s).value;
    }
  }

  /** The counters are beyond the first n records, unless one of those has the last number there is. */
  ghost predicate Counted(records: seq<Record>, n: nat, lsn: U64Value, tx: U64Value) {
    n <= |records| &&
    ((forall r :: r in records ==> r.lsn < MAX_U64 && r.tx < MAX_U64) ==>
      && (forall j :: 0 <= j < n ==> records[j].lsn < lsn && records[j].tx < tx)
      && (lsn == 1 || exists r :: r in records && r.lsn + 1 == lsn)
      && (tx == 1 || exists r :: r in records && r.tx + 1 == tx))
  }

  lemma CountedNone(records: seq<Record>)
    ensures Counted(records, 0, 1, 1)
  {
  }

  lemma CountedNext(records: seq<Record>, n: nat, lsn: U64Value, tx: U64Value)
    requires Counted(records, n, lsn, tx) && n < |records|
    ensures var r := records[n];
      Counted(records, n + 1, if r.lsn >= lsn then Succ(r.lsn) else lsn, if r.tx >= tx then Succ(r.tx) else tx)
  {
    assert records[n] in records;
  }

  /** The log file with its counters. */
  class Wal {
    const c: Checksum
    var file: Bytes
    var nextLsn: U64Value
    var nextTx: U64Value

    function Logged(): seq<Record>
      reads this
    {
      ParseAll(c, file)
    }

    /** The file is made of complete records. */
    ghost predicate Clean()
      reads this
    {
      AllOk(Logged()) && file == EncodeAll(c, Logged())
    }

    ghost predicate Ahead()
      reads this
    {
      forall r :: r in Logged() ==> r.lsn < nextLsn && r.tx < nextTx
    }

    /** OpenWAL with scanExisting: the counters move past every record that can be read. */
    constructor (c: Checksum, bytes: Bytes)
      ensures this.c == c && file == bytes
      ensures (forall r :: r in ParseAll(c, bytes) ==> r.lsn < MAX_U64 && r.tx < MAX_U64) ==>
        && Ahead()
        && (nextLsn == 1 || exists r :: r in ParseAll(c, bytes) && r.lsn + 1 == nextLsn)
        && (nextTx == 1 || exists r :: r in ParseAll(c, bytes) && r.tx + 1 == nextTx)
    {
      this.c := c;
      file := bytes;
      nextLsn := 1;
      nextTx := 1;
      new;
      hide *;
      var records := ReadRecords(c, bytes);
      CountedNone(records);
      for i := 0 to |records|
        invariant this.c == c && file == bytes
        invariant Counted(records, i, nextLsn, nextTx)
      {
        var record := records[i];
        CountedNext(records, i, nextLsn, nextTx);
        if record.lsn >= nextLsn {
          nextLsn := Succ(record.lsn);
        }
        if record.tx >= nextTx {
          nextTx := Succ(record.tx);
        }
      }
      AheadOf(records);
    }

    lemma AheadOf(records: seq<Record>)
      requires records == ParseAll(c, file) && Counted(records, |records|, nextLsn, nextTx)
      ensures (forall r :: r in records ==> r.lsn < MAX_U64 && r.tx < MAX_U64) ==>
        && Ahead()
        && (nextLsn == 1 || exists r :: r in ParseAll(c, file) && r.lsn + 1 == nextLsn)
        && (nextTx == 1 || exists r :: r in ParseAll(c, file) && r.tx + 1 == nextTx)
    {
      hide ParseAll;
    }

    /** A new transaction number: none of the records in the log carries it. */
    method BeginTx() returns (tx: U64Value)
      modifies `nextTx
      ensures tx == old(nextTx) && nextTx == if tx == MAX_U64 then 0 else tx + 1
      ensures old(Ahead()) ==> forall r :: r in Logged() ==> r.tx != tx
      ensures old(Ahead()) && tx < MAX_U64 ==> Ahead()
    {
      tx := nextTx;
      nextTx := Succ(nextTx);
    }

    method Append(record: Record)
      requires RecordOk(record) && record.lsn == nextLsn
      modifies `file, `nextLsn
      ensures file == old(file) + Encoded(c, record) && nextLsn == Succ(record.lsn)
      ensures old(Clean()) ==> Clean() && Logged() == old(Logged()) + [record]
      ensures old(Clean() && Ahead()) && record.lsn < MAX_U64 && record.tx < nextTx ==> Ahead()
    {
      hide EncodeAll, Encoded, ParseAll;
      nextLsn := Succ(nextLsn);
      var buf := Serialize(c, record);
      ghost var rs := Logged();
      if Clean() {
        EncodeSplit(c, rs, [record]);
        EncodeOne(c, record);
        ParseWhole(c, rs + [record]);
      }
      file := file + buf[..];
    }

    method LogPageWrite(tx: U64Value, pageId: U32Value, data: Bytes) returns (lsn: U64Value)
      requires |data| < 0x1_0000_0000
      modifies `file, `nextLsn
      ensures lsn == old(nextLsn) && nextLsn == if lsn == MAX_U64 then 0 else lsn + 1
      ensures file == old(file) + Encoded(c, Record(lsn, tx, PAGE_WRITE, pageId, data))
      ensures old(Clean()) ==> Clean() && Logged() == old(Logged()) + [Record(lsn, tx, PAGE_WRITE, pageId, data)]
      ensures old(Clean() && Ahead()) && lsn < MAX_U64 && tx < nextTx ==> Ahead()
    {
      hide Clean, Ahead, Logged, RecordOk;
      lsn := nextLsn;
      var record := Record(lsn, tx, PAGE_WRITE, pageId, data);
      assert RecordOk(record) by { DataFits(record); }
      Append(record);
    }

    /** The commit record; with group commit the call then waits for its batch (module GroupCommit). */
    method LogCommit(tx: U64Value) returns (lsn: U64Value)
      modifies `file, `nextLsn
      ensures lsn == old(nextLsn) && nextLsn == if lsn == MAX_U64 then 0 else lsn + 1
      ensures file == old(file) + Encoded(c, Record(lsn, tx, COMMIT, 0, []))
      ensures old(Clean()) ==> Clean() && Logged() == old(Logged()) + [Record(lsn, tx, COMMIT, 0, [])]
      ensures old(Clean() && Ahead()) && lsn < MAX_U64 && tx < nextTx ==> Ahead()
    {
      lsn := nextLsn;
      Append(Record(lsn, tx, COMMIT, 0, []));
    }

    method LogCheckpoint() returns (lsn: U64Value)
      modifies `file, `nextLsn
      ensures lsn == old(nextLsn) && nextLsn == if lsn == MAX_U64 then 0 else lsn + 1
      ensures file == old(file) + Encoded(c, Record(lsn, 0, CHECKPOINT, 0, []))
      ensures old(Clean()) ==> Clean() && Logged() == old(Logged()) + [Record(lsn, 0, CHECKPOINT, 0, [])]
      ensures old(Clean() && Ahead()) && lsn < MAX_U64 && 0 < nextTx ==> Ahead()
    {
      lsn := nextLsn;
      Append(Record(lsn, 0, CHECKPOINT, 0, []));
    }
  }

  lemma DataFits(r: Record)
    requires |r.data| < 0x1_0000_0000
    ensures RecordOk(r)
  {
  }

  lemma EncodeOne(c: Checksum, r: Record)
    requires RecordOk(r)
    ensures EncodeAll(c, [r]) == Encoded(c, r)
  {
  }
}
