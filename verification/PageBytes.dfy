/** The byte layout of a page (internal/storage/page.go): headers, cell pointers and cells. */
module PageBytes {
  import opened Keys
  import opened RecordPage

  const TYPE_INTERNAL: Byte := 1
  const TYPE_LEAF: Byte := 2

  /** Little-endian numbers. */
  function U16(d: Bytes, i: nat): (n: nat)
    requires i + 2 <= |d|
    ensures n < 0x1_0000
  {
    (d[i] as int) + 256 * (d[i+1] as int)
  }

  function U32(d: Bytes, i: nat): (n: nat)
    requires i + 4 <= |d|
    ensures n < 0x1_0000_0000
  {
    (d[i] as int) + 256 * (d[i+1] as int) + 0x1_0000 * (d[i+2] as int) + 0x100_0000 * (d[i+3] as int)
  }

  ghost predicate SameOn(d: Bytes, e: Bytes, lo: nat, hi: nat) {
    |d| == |e| && forall j :: lo <= j < hi && j < |d| ==> d[j] == e[j]
  }

  /** The two agree except possibly on [lo, hi). */
  ghost predicate SameOutside(d: Bytes, e: Bytes, lo: nat, hi: nat) {
    |d| == |e| && forall j :: 0 <= j < |d| && !(lo <= j < hi) ==> d[j] == e[j]
  }

  method PutU16(data: array<Byte>, i: nat, n: nat)
    requires i + 2 <= data.Length && n < 0x1_0000
    modifies data
    ensures U16(data[..], i) == n && SameOutside(old(data[..]), data[..], i, i + 2)
  {
    data[i], data[i+1] := n % 256, n / 256;
  }

  method PutU32(data: array<Byte>, i: nat, n: nat)
    requires i + 4 <= data.Length && n < 0x1_0000_0000
    modifies data
    ensures U32(data[..], i) == n && SameOutside(old(data[..]), data[..], i, i + 4)
  {
    PutU16(data, i, n % 0x1_0000);
    PutU16(data, i + 2, n / 0x1_0000);
  }

  /** Copies s to position pos, after what has been written since offset. */
  method CopyIn(data: array<Byte>, offset: nat, pos: nat, s: Bytes, ghost before: Bytes)
    requires offset <= pos && pos + |s| <= data.Length && data[offset..pos] == before
    modifies data
    ensures data[offset..pos+|s|] == before + s && SameOutside(old(data[..]), data[..], pos, pos + |s|)
  {
    for k := 0 to |s|
      invariant data[offset..pos+k] == before + s[..k]
      invariant SameOutside(old(data[..]), data[..], pos, pos + k)
    {
      data[pos+k] := s[k];
      assert data[offset..pos+k+1] == data[offset..pos+k] + [s[k]];
    }
    assert s[..|s|] == s;
  }

  // ---- cells ----

  function Le16(n: nat): (s: Bytes)
    requires n < 0x1_0000
    ensures |s| == 2
  {
    [n % 256, n / 256]
  }

  function Le32(n: nat): (s: Bytes)
    requires n < 0x1_0000_0000
    ensures |s| == 4
  {
    [n % 256, n / 256 % 256, n / 0x1_0000 % 256, n / 0x100_0000]
  }

  /** Cells small enough for a page; their lengths fit the length fields. */
  predicate PairOk(c: Pair) { PairSize(c) <= PAGE_SIZE }
  predicate SepOk(c: Separator) { SepSize(c) <= PAGE_SIZE && c.data < 0x1_0000_0000 }

  /** keyLen(2) key valLen(4) value */
  function LeafCellBytes(c: Pair): (s: Bytes)
    requires PairOk(c)
    ensures |s| == PairSize(c)
  {
    Le16(|c.key|) + c.key + Le32(|c.data|) + c.data
  }

  /** child(4) keyLen(2) key */
  function InternalCellBytes(c: Separator): (s: Bytes)
    requires SepOk(c)
    ensures |s| == SepSize(c)
  {
    Le32(c.data) + Le16(|c.key|) + c.key
  }

  lemma U16Le(d: Bytes, i: nat, n: nat)
    requires n < 0x1_0000 && i + 2 <= |d| && d[i..i+2] == Le16(n)
    ensures U16(d, i) == n
  {
  }

  lemma U32Le(d: Bytes, i: nat, n: nat)
    requires n < 0x1_0000_0000 && i + 4 <= |d| && d[i..i+4] == Le32(n)
    ensures U32(d, i) == n
  {
    assert d[i] == d[i..i+4][0] && d[i+1] == d[i..i+4][1] && d[i+2] == d[i..i+4][2] && d[i+3] == d[i..i+4][3];
    FourDigits(n);
  }

  /** A number is the sum of its four bytes. */
  lemma FourDigits(n: nat)
    requires n < 0x1_0000_0000
    ensures n == n % 256 + 256 * (n / 256 % 256) + 0x1_0000 * (n / 0x1_0000 % 256) + 0x100_0000 * (n / 0x100_0000)
  {
    var m := n / 256;
    var k := m / 256;
    assert k == n / 0x1_0000 && k / 256 == n / 0x100_0000;
  }

  /** A slice of a slice. */
  lemma Part(d: Bytes, o: nat, s: Bytes, i: nat, j: nat)
    requires o + |s| <= |d| && d[o..o+|s|] == s && i <= j <= |s|
    ensures d[o+i..o+j] == s[i..j]
  {
    forall k | 0 <= k < j - i ensures d[o+i..o+j][k] == s[i..j][k] {
      assert d[o..o+|s|][i+k] == d[o+i+k];
    }
  }

  method WriteLeafCell(data: array<Byte>, offset: nat, key: Key, value: Value)
    requires PairOk(Cell(key, value)) && offset + LeafCellSize(key, value) <= data.Length
    modifies data
    ensures data[offset..offset + LeafCellSize(key, value)] == LeafCellBytes(Cell(key, value))
    ensures SameOutside(old(data[..]), data[..], offset, offset + LeafCellSize(key, value))
  {
    hide U16, U32, Le16, Le32;
    var pos := offset;
    CopyIn(data, offset, pos, Le16(|key|), []);
    pos := pos + 2;
    CopyIn(data, offset, pos, key, [] + Le16(|key|));
    pos := pos + |key|;
    CopyIn(data, offset, pos, Le32(|value|), [] + Le16(|key|) + key);
    pos := pos + 4;
    CopyIn(data, offset, pos, value, [] + Le16(|key|) + key + Le32(|value|));
    assert [] + Le16(|key|) == Le16(|key|);
  }

  /** Reading back a written cell gives its key and value. */
  method ReadLeafCell(data: array<Byte>, offset: nat, ghost c: Pair) returns (key: Key, value: Value)
    requires PairOk(c) && offset + PairSize(c) <= data.Length && data[offset..offset+PairSize(c)] == LeafCellBytes(c)
    ensures Cell(key, value) == c
  {
    ghost var s := LeafCellBytes(c);
    LeafCellParts(data[..], offset, c);
    var pos := offset;
    var keyLen := U16(data[..], pos);
    pos := pos + 2;
    key := data[pos..pos+keyLen];
    pos := pos + keyLen;
    var valLen := U32(data[..], pos);
    pos := pos + 4;
    value := data[pos..pos+valLen];
  }

  lemma LeafCellParts(d: Bytes, o: nat, c: Pair)
    requires PairOk(c) && o + PairSize(c) <= |d| && d[o..o+PairSize(c)] == LeafCellBytes(c)
    ensures U16(d, o) == |c.key| && d[o+2..o+2+|c.key|] == c.key
    ensures U32(d, o + 2 + |c.key|) == |c.data| && d[o+6+|c.key|..o+PairSize(c)] == c.data
  {
    hide U16, U32, Le16, Le32;
    var s := LeafCellBytes(c);
    var k := |c.key|;
    Part(d, o, s, 0, 2);
    U16Le(d, o, k);
    Part(d, o, s, 2, 2 + k);
    assert s[2..2+k] == c.key;
    Part(d, o, s, 2 + k, 6 + k);
    assert s[2+k..6+k] == Le32(|c.data|);
    U32Le(d, o + 2 + k, |c.data|);
    Part(d, o, s, 6 + k, |s|);
    assert s[6+k..] == c.data;
  }

  method WriteInternalCell(data: array<Byte>, offset: nat, child: PageId, key: Key)
    requires SepOk(Cell(key, child)) && offset + InternalCellSize(key) <= data.Length
    modifies data
    ensures data[offset..offset + InternalCellSize(key)] == InternalCellBytes(Cell(key, child))
    ensures SameOutside(old(data[..]), data[..], offset, offset + InternalCellSize(key))
  {
    hide U16, U32, Le16, Le32;
    var pos := offset;
    CopyIn(data, offset, pos, Le32(child), []);
    pos := pos + 4;
    CopyIn(data, offset, pos, Le16(|key|), [] + Le32(child));
    pos := pos + 2;
    CopyIn(data, offset, pos, key, [] + Le32(child) + Le16(|key|));
    assert [] + Le32(child) == Le32(child);
  }

  method ReadInternalCell(data: array<Byte>, offset: nat, ghost c: Separator) returns (child: PageId, key: Key)
    requires SepOk(c) && offset + SepSize(c) <= data.Length && data[offset..offset+SepSize(c)] == InternalCellBytes(c)
    ensures Cell(key, child) == c
  {
    InternalCellParts(data[..], offset, c);
    var pos := offset;
    child := U32(data[..], pos);
    pos := pos + 4;
    var keyLen := U16(data[..], pos);
    pos := pos + 2;
    key := data[pos..pos+keyLen];
  }

  lemma InternalCellParts(d: Bytes, o: nat, c: Separator)
    requires SepOk(c) && o + SepSize(c) <= |d| && d[o..o+SepSize(c)] == InternalCellBytes(c)
    ensures U32(d, o) == c.data && U16(d, o + 4) == |c.key| && d[o+6..o+SepSize(c)] == c.key
  {
    hide U16, U32, Le16, Le32;
    var s := InternalCellBytes(c);
    Part(d, o, s, 0, 4);
    U32Le(d, o, c.data);
    Part(d, o, s, 4, 6);
    assert s[4..6] == Le16(|c.key|);
    U16Le(d, o + 4, |c.key|);
    Part(d, o, s, 6, |s|);
    assert s[6..] == c.key;
  }
}
