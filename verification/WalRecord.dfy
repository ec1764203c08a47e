/** Write-ahead log records as bytes (internal/storage/wal.go) and what a log cut anywhere still contains. */
module WalRecord {
  import opened Keys
  import opened RecordPage
  import opened PageBytes

  const HEADER_SIZE := 29
  const PAGE_WRITE: Byte := 1
  const COMMIT: Byte := 2
  const CHECKPOINT: Byte := 3

  type U32Value = n: nat | n < 0x1_0000_0000
  type U64Value = n: nat | n < 0x1_0000_0000_0000_0000

  /** CRC32 of a header, and its continuation over data: deterministic, otherwise unknown. */
  datatype Checksum = Checksum(sum: Bytes -> U32Value, update: (U32Value, Bytes) -> U32Value)

  datatype Record = Record(lsn: U64Value, tx: U64Value, kind: Byte, pageId: U32Value, data: Bytes)

  /** Data lengths are written as uint32. */
  predicate RecordOk(r: Record) { |r.data| < 0x1_0000_0000 }

  function Le64(n: nat): (s: Bytes)
    requires n < 0x1_0000_0000_0000_0000
    ensures |s| == 8
  {
    Le32(n % 0x1_0000_0000) + Le32(n / 0x1_0000_0000)
  }

  function U64(d: Bytes, i: nat): (n: U64Value)
    requires i + 8 <= |d|
  {
    U32(d, i) + 0x1_0000_0000 * U32(d, i + 4)
  }

  /** LSN(8) TxID(8) Type(1) PageID(4) DataLen(4): the part the checksum covers. */
  function Head(r: Record): (s: Bytes)
    requires RecordOk(r)
    ensures |s| == 25
  {
    Le64(r.lsn) + Le64(r.tx) + [r.kind] + Le32(r.pageId) + Le32(|r.data|)
  }

  function Crc(c: Checksum, head: Bytes, data: Bytes): U32Value {
    if |data| > 0 then c.update(c.sum(head), data) else c.sum(head)
  }

  function Encoded(c: Checksum, r: Record): (s: Bytes)
    requires RecordOk(r)
    ensures |s| == HEADER_SIZE + |r.data|
  {
    Head(r) + Le32(Crc(c, Head(r), r.data)) + r.data
  }

  /** DeserializeWALRecord at the start of a stream: None for a short read or a checksum mismatch. */
  function ParseOne(c: Checksum, s: Bytes): (r: Option<Record>)
    ensures r.Some? ==> RecordOk(r.value) && HEADER_SIZE + |r.value.data| <= |s|
  {
    if |s| < HEADER_SIZE then None
    else
      var dataLen := U32(s, 21);
      if |s| < HEADER_SIZE + dataLen then None
      else
        var data := s[HEADER_SIZE..HEADER_SIZE + dataLen];
        if Crc(c, s[..25], data) != U32(s, 25) then None
        else Some(Record(U64(s, 0), U64(s, 8), s[16], U32(s, 17), data))
  }

  /** The records read until the first error. */
  function ParseAll(c: Checksum, s: Bytes): seq<Record> {
    var r := ParseOne(c, s);
    if r.None? then [] else [r.value] + ParseAll(c, s[HEADER_SIZE + |r.value.data|..])
  }

  ghost predicate AllOk(rs: seq<Record>) {
    forall i :: 0 <= i < |rs| ==> RecordOk(rs[i])
  }

  /** The log after the records have been appended one after the other. */
  function EncodeAll(c: Checksum, rs: seq<Record>): Bytes
    requires AllOk(rs)
  {
    if |rs| == 0 then [] else Encoded(c, rs[0]) + EncodeAll(c, rs[1..])
  }

  lemma U64Le(d: Bytes, i: nat, n: nat)
    requires n < 0x1_0000_0000_0000_0000 && i + 8 <= |d| && d[i..i+8] == Le64(n)
    ensures U64(d, i) == n
  {
    hide U32, Le32;
    assert d[i..i+4] == Le64(n)[..4] == Le32(n % 0x1_0000_0000) by { Part(d, i, Le64(n), 0, 4); }
    assert d[i+4..i+8] == Le64(n)[4..] == Le32(n / 0x1_0000_0000) by { Part(d, i, Le64(n), 4, 8); }
    U32Le(d, i, n % 0x1_0000_0000);
    U32Le(d, i + 4, n / 0x1_0000_0000);
  }

  /** The fields of a header can be read back. */
  lemma HeadFields(d: Bytes, r: Record)
    requires RecordOk(r) && |d| >= 25 && d[..25] == Head(r)
    ensures U64(d, 0) == r.lsn && U64(d, 8) == r.tx && d[16] == r.kind && U32(d, 17) == r.pageId
    ensures U32(d, 21) == |r.data|
  {
    hide U32, Le32, U64, Le64;
    var h := Head(r);
    assert d[0..25] == h;
    Part(d, 0, h, 0, 8);
    assert h[0..8] == Le64(r.lsn);
    U64Le(d, 0, r.lsn);
    Part(d, 0, h, 8, 16);
    assert h[8..16] == Le64(r.tx);
    U64Le(d, 8, r.tx);
    Part(d, 0, h, 16, 17);
    assert d[16] == d[16..17][0] == h[16];
    Part(d, 0, h, 17, 21);
    assert h[17..21] == Le32(r.pageId);
    U32Le(d, 17, r.pageId);
    Part(d, 0, h, 21, 25);
    assert h[21..25] == Le32(|r.data|);
    U32Le(d, 21, |r.data|);
  }

  /** A serialized record is read back whatever follows it. */
  lemma ParseEncoded(c: Checksum, r: Record, rest: Bytes)
    requires RecordOk(r)
    ensures ParseOne(c, Encoded(c, r) + rest) == Some(r)
  {
    hide U32, Le32, U64, Le64, Head;
    var e := Encoded(c, r);
    var s := e + rest;
    assert s[..25] == e[..25] == Head(r);
    HeadFields(s, r);
    assert s[25..29] == e[25..29] == Le32(Crc(c, Head(r), r.data));
    U32Le(s, 25, Crc(c, Head(r), r.data));
    assert s[HEADER_SIZE..HEADER_SIZE + |r.data|] == r.data;
  }

  /** A record cut short is never read. */
  lemma ParseCut(c: Checksum, r: Record, n: nat)
    requires RecordOk(r) && n < |Encoded(c, r)|
    ensures ParseOne(c, Encoded(c, r)[..n]) == None
  {
    hide U32, Le32, U64, Le64, Head;
    var s := Encoded(c, r)[..n];
    if n >= HEADER_SIZE {
      assert s[..25] == Head(r);
      HeadFields(s, r);
    }
  }

  // ---- what is read, and nothing else ----

  lemma LowByte(a: Byte, n: nat)
    ensures var m: nat := a as nat + 256 * n; m % 256 == a && m / 256 == n
  {
  }

  lemma Quarters(n: nat)
    ensures n / 0x1_0000 == n / 256 / 256 && n / 0x100_0000 == n / 256 / 256 / 256
  {
  }

  lemma Le32U32(d: Bytes, i: nat)
    requires i + 4 <= |d|
    ensures Le32(U32(d, i)) == d[i..i+4]
  {
    var b0: nat, b1: nat, b2: nat, b3: nat := d[i], d[i+1], d[i+2], d[i+3];
    var n2: nat := b2 + 256 * b3;
    var n1: nat := b1 + 256 * n2;
    assert U32(d, i) == b0 + 256 * n1;
    LowByte(d[i], n1);
    LowByte(d[i+1], n2);
    LowByte(d[i+2], b3);
    Quarters(U32(d, i));
    hide U32;
  }

  lemma Le64U64(d: Bytes, i: nat)
    requires i + 8 <= |d|
    ensures Le64(U64(d, i)) == d[i..i+8]
  {
    hide U32, Le32;
    Le32U32(d, i);
    Le32U32(d, i + 4);
    TwoWords(U32(d, i), U32(d, i + 4));
    assert d[i..i+8] == d[i..i+4] + d[i+4..i+8];
  }

  lemma TwoWords(a: nat, b: nat)
    requires a < 0x1_0000_0000 && b < 0x1_0000_0000
    ensures (a + 0x1_0000_0000 * b) % 0x1_0000_0000 == a && (a + 0x1_0000_0000 * b) / 0x1_0000_0000 == b
  {
  }

  /** The head of the record whose fields are read from the bytes is those bytes. */
  lemma HeadBack(s: Bytes, r: Record)
    requires |s| >= 25 && RecordOk(r)
    requires r.lsn == U64(s, 0) && r.tx == U64(s, 8) && r.kind == s[16] && r.pageId == U32(s, 17)
    requires |r.data| == U32(s, 21)
    ensures Head(r) == s[..25]
  {
    Le64U64(s, 0);
    Le64U64(s, 8);
    Le32U32(s, 17);
    Le32U32(s, 21);
    hide U32, Le32, U64, Le64;
    assert s[..25] == s[0..8] + s[8..16] + [s[16]] + s[17..21] + s[21..25];
  }

  /** A record is read from the bytes exactly when they begin with its encoding, checksum included. */
  lemma ParseIff(c: Checksum, s: Bytes, r: Record)
    ensures ParseOne(c, s) == Some(r) <==> RecordOk(r) && Encoded(c, r) <= s
  {
    hide U32, Le32, U64, Le64, Head;
    if ParseOne(c, s) == Some(r) {
      HeadBack(s, r);
      Le32U32(s, 25);
      assert s[..HEADER_SIZE + |r.data|] == s[..25] + s[25..29] + s[HEADER_SIZE..HEADER_SIZE + |r.data|];
    }
    if RecordOk(r) && Encoded(c, r) <= s {
      var e := Encoded(c, r);
      assert s == e + s[|e|..];
      ParseEncoded(c, r, s[|e|..]);
    }
  }

  /** No record begins the bytes. */
  ghost predicate NoRecord(c: Checksum, s: Bytes) {
    forall r :: RecordOk(r) ==> !(Encoded(c, r) <= s)
  }

  lemma NoneIff(c: Checksum, s: Bytes)
    ensures ParseOne(c, s) == None <==> NoRecord(c, s)
  {
    hide ParseOne, Encoded;
    if ParseOne(c, s) == None {
      forall r | RecordOk(r) ensures !(Encoded(c, r) <= s) {
        ParseIff(c, s, r);
      }
    } else {
      ParseIff(c, s, ParseOne(c, s).value);
    }
  }

  /** The records read are exactly the encodings that the bytes begin with, one behind the other, up to a place where
      none begins. */
  lemma {:induction false} ParseAllIff(c: Checksum, s: Bytes, rs: seq<Record>)
    ensures ParseAll(c, s) == rs <==>
      AllOk(rs) && EncodeAll(c, rs) <= s && NoRecord(c, s[|EncodeAll(c, rs)|..])
    decreases |s|
  {
    hide ParseOne, Encoded, NoRecord;
    var r := ParseOne(c, s);
    NoneIff(c, s);
    assert s[0..] == s;
    if |rs| > 0 {
      var x := rs[0];
      ParseIff(c, s, x);
      if RecordOk(x) && Encoded(c, x) <= s {
        var e := Encoded(c, x);
        var rest := s[|e|..];
        ParseAllIff(c, rest, rs[1..]);
        assert s == e + rest;
        assert rs == [x] + rs[1..];
        if AllOk(rs) && EncodeAll(c, rs[1..]) <= rest {
          assert s[|EncodeAll(c, rs)|..] == rest[|EncodeAll(c, rs[1..])|..];
        }
        if AllOk(rs) && EncodeAll(c, rs) <= s {
          assert EncodeAll(c, rs)[|e|..] == EncodeAll(c, rs[1..]);
        }
      }
      assert AllOk(rs) ==> Encoded(c, x) <= EncodeAll(c, rs);
    }
  }

  /** At the place of a record the bytes are too short for what they claim to hold, or the checksum is not theirs. */
  predicate Damaged(c: Checksum, s: Bytes) {
    || |s| < HEADER_SIZE
    || |s| < HEADER_SIZE + U32(s, 21)
    || var n := U32(s, 21);
       U32(s, 25) != if n == 0 then c.sum(s[..25]) else c.update(c.sum(s[..25]), s[HEADER_SIZE..HEADER_SIZE + n])
  }

  /** Behind an intact header, data are damaged exactly when their checksum is not that of the data written. */
  lemma DamagedIff(c: Checksum, r: Record, s: Bytes)
    requires RecordOk(r) && |s| >= HEADER_SIZE + |r.data| && s[..HEADER_SIZE] == Encoded(c, r)[..HEADER_SIZE]
    ensures Damaged(c, s) <==>
      && |r.data| > 0
      && c.update(c.sum(Head(r)), s[HEADER_SIZE..HEADER_SIZE + |r.data|]) != c.update(c.sum(Head(r)), r.data)
  {
    hide U32, Le32, Head;
    var e := Encoded(c, r);
    assert s[..25] == s[..HEADER_SIZE][..25] == e[..HEADER_SIZE][..25] == Head(r);
    HeadFields(s, r);
    assert s[25..29] == s[..HEADER_SIZE][25..29] == e[..HEADER_SIZE][25..29] == Le32(Crc(c, Head(r), r.data));
    U32Le(s, 25, Crc(c, Head(r), r.data));
  }

  /** A log that is damaged behind its first i records is read up to there, whatever follows. */
  lemma DamagedLog(c: Checksum, rs: seq<Record>, s: Bytes)
    requires AllOk(rs) && EncodeAll(c, rs) <= s
    ensures ParseAll(c, s) == rs <==> Damaged(c, s[|EncodeAll(c, rs)|..])
  {
    hide Encoded, EncodeAll, NoRecord, U32;
    ParseAllIff(c, s, rs);
    NoneIff(c, s[|EncodeAll(c, rs)|..]);
  }

  /** Cutting the log after n bytes leaves its first k records complete, and no more. */
  ghost predicate Completes(c: Checksum, rs: seq<Record>, n: nat, k: nat)
    requires AllOk(rs)
  {
    k <= |rs| && |EncodeAll(c, rs[..k])| <= n && (k < |rs| ==> n < |EncodeAll(c, rs[..k+1])|)
  }

  /** A log of serialized records, cut after any byte, parses to exactly the records that are complete in it. */
  lemma {:induction false} CutLog(c: Checksum, rs: seq<Record>, n: nat) returns (k: nat)
    requires AllOk(rs) && n <= |EncodeAll(c, rs)|
    ensures Completes(c, rs, n, k) && ParseAll(c, EncodeAll(c, rs)[..n]) == rs[..k]
  {
    hide Encoded, ParseOne;
    var s := EncodeAll(c, rs);
    if |rs| == 0 {
      k := 0;
      assert s[..n] == [];
      ParseEmpty(c);
    } else {
      var e := Encoded(c, rs[0]);
      if n < |e| {
        k := 0;
        assert s[..n] == e[..n];
        ParseCut(c, rs[0], n);
        assert rs[..1][1..] == [];
      } else {
        var k' := CutLog(c, rs[1..], n - |e|);
        k := k' + 1;
        var rest := EncodeAll(c, rs[1..])[..n - |e|];
        assert s[..n] == e + rest;
        ParseEncoded(c, rs[0], rest);
        assert (e + rest)[|e|..] == rest;
        ConsSlice(rs, k);
        if k < |rs| {
          ConsSlice(rs, k + 1);
        }
      }
    }
  }

  lemma ConsSlice(rs: seq<Record>, k: nat)
    requires 0 < k <= |rs|
    ensures rs[..k] == [rs[0]] + rs[1..][..k-1] && rs[..k][1..] == rs[1..][..k-1]
  {
  }

  lemma ParseEmpty(c: Checksum)
    ensures ParseAll(c, []) == []
  {
  }

  // ---- the buffers ----

  /** Serialize fills a buffer by offset. */
  method Serialize(c: Checksum, r: Record) returns (buf: array<Byte>)
    requires RecordOk(r)
    ensures fresh(buf) && buf[..] == Encoded(c, r)
  {
    hide U32, Le32, U64, Le64;
    buf := new Byte[HEADER_SIZE + |r.data|](_ => 0);
    CopyIn(buf, 0, 0, Le64(r.lsn), []);
    CopyIn(buf, 0, 8, Le64(r.tx), buf[0..8]);
    CopyIn(buf, 0, 16, [r.kind], buf[0..16]);
    CopyIn(buf, 0, 17, Le32(r.pageId), buf[0..17]);
    CopyIn(buf, 0, 21, Le32(|r.data|), buf[0..21]);
    assert buf[0..25] == Head(r);
    var csum := c.sum(buf[0..25]);
    if |r.data| > 0 {
      csum := c.update(csum, r.data);
    }
    CopyIn(buf, 0, 25, Le32(csum), buf[0..25]);
    CopyIn(buf, 0, 29, r.data, buf[0..29]);
    assert buf[0..29 + |r.data|] == buf[..];
  }

  /** Reads records from the start of a file until an error, and gives the position where it stopped. */
  method ReadRecords(c: Checksum, file: Bytes) returns (records: seq<Record>)
    ensures records == ParseAll(c, file)
  {
    hide ParseOne;
    records := [];
    var pos := 0;
    while true
      invariant 0 <= pos <= |file|
      invariant ParseAll(c, file) == records + ParseAll(c, file[pos..])
      decreases |file| - pos
    {
      var r := ParseOne(c, file[pos..]);
      if r.None? {
        return;
      }
      var next := pos + HEADER_SIZE + |r.value.data|;
      assert file[pos..][HEADER_SIZE + |r.value.data|..] == file[next..];
      records := records + [r.value];
      pos := next;
    }
  }
}
