/** The slotted page of internal/storage/page.go on raw bytes, and the record page it stands for. */
module SlottedPage {
  import opened Keys
  import opened RecordPage
  import opened PageBytes

  // ---- header and cell pointers ----

  function CountOf(d: Bytes): nat requires |d| == PAGE_SIZE { U16(d, 2) }
  function StartOf(d: Bytes): nat requires |d| == PAGE_SIZE { U16(d, 4) }
  function EndOf(d: Bytes): nat requires |d| == PAGE_SIZE { U16(d, 6) }
  function ParentOf(d: Bytes): nat requires |d| == PAGE_SIZE { U32(d, 8) }
  function RightOf(d: Bytes): nat requires |d| == PAGE_SIZE { U32(d, 12) }

  function PtrPos(i: nat): nat { PAGE_HEADER_SIZE + i * CELL_PTR_SIZE }

  function Ptr(d: Bytes, i: nat): nat
    requires PtrPos(i + 1) <= |d|
  {
    U16(d, PtrPos(i))
  }

  /** Cell i, as bytes, lies between the free end and the end of the page. */
  ghost predicate Slot(d: Bytes, i: nat, freeEnd: nat, raw: Bytes) {
    && PtrPos(i + 1) <= |d| && freeEnd <= Ptr(d, i) && Ptr(d, i) + |raw| <= |d|
    && d[Ptr(d, i)..Ptr(d, i) + |raw|] == raw
  }

  /** Cells i and j do not overlap. */
  ghost predicate Apart(d: Bytes, raws: seq<Bytes>, i: nat, j: nat)
    requires i < |raws| && j < |raws|
  {
    && PtrPos(i + 1) <= |d| && PtrPos(j + 1) <= |d|
    && (Ptr(d, i) + |raws[i]| <= Ptr(d, j) || Ptr(d, j) + |raws[j]| <= Ptr(d, i))
  }

  ghost predicate Slots(d: Bytes, raws: seq<Bytes>, freeEnd: nat) {
    && (forall i :: 0 <= i < |raws| ==> Slot(d, i, freeEnd, raws[i]))
    && (forall i, j :: 0 <= i < j < |raws| ==> Apart(d, raws, i, j))
  }

  ghost predicate Header(d: Bytes, pageType: Byte, right: PageId, count: nat, freeEnd: nat) {
    && |d| == PAGE_SIZE && d[0] == pageType && RightOf(d) == right
    && CountOf(d) == count && StartOf(d) == PtrPos(count) && EndOf(d) == freeEnd
    && PtrPos(count) <= freeEnd <= PAGE_SIZE
  }

  ghost predicate Encodable(p: Page) {
    && p.right < 0x1_0000_0000
    && if p.Leaf? then forall i :: 0 <= i < |p.pairs| ==> PairOk(p.pairs[i])
       else forall i :: 0 <= i < |p.seps| ==> SepOk(p.seps[i])
  }

  ghost function Raws(p: Page): (raws: seq<Bytes>)
    requires Encodable(p)
    ensures |raws| == if p.Leaf? then |p.pairs| else |p.seps|
  {
    if p.Leaf? then seq(|p.pairs|, i requires 0 <= i < |p.pairs| => LeafCellBytes(p.pairs[i]))
    else seq(|p.seps|, i requires 0 <= i < |p.seps| => InternalCellBytes(p.seps[i]))
  }

  /** The bytes hold the record page: header, pointers and pairwise disjoint cells. */
  ghost predicate Holds(d: Bytes, p: Page) {
    && Encodable(p)
    && Header(d, if p.Leaf? then TYPE_LEAF else TYPE_INTERNAL, p.right, |Raws(p)|, p.freeEnd)
    && Slots(d, Raws(p), p.freeEnd)
  }

  /** The bytes determine the record page. */
  lemma HoldsOne(d: Bytes, p: Page, q: Page)
    requires Holds(d, p) && Holds(d, q)
    ensures p == q
  {
    hide U16, U32, LeafCellBytes, InternalCellBytes;
    if p.Leaf? {
      forall i | 0 <= i < |p.pairs| ensures p.pairs[i] == q.pairs[i] {
        assert Slot(d, i, p.freeEnd, Raws(p)[i]) && Slot(d, i, q.freeEnd, Raws(q)[i]);
        LeafCellParts(d, Ptr(d, i), p.pairs[i]);
        LeafCellParts(d, Ptr(d, i), q.pairs[i]);
      }
      assert p.pairs == q.pairs;
    } else {
      forall i | 0 <= i < |p.seps| ensures p.seps[i] == q.seps[i] {
        assert Slot(d, i, p.freeEnd, Raws(p)[i]) && Slot(d, i, q.freeEnd, Raws(q)[i]);
        InternalCellParts(d, Ptr(d, i), p.seps[i]);
        InternalCellParts(d, Ptr(d, i), q.seps[i]);
      }
      assert p.seps == q.seps;
    }
  }

  /** Keys in order, repetitions allowed: what the binary searches need. */
  ghost predicate Ordered<V>(cells: seq<Cell<V>>) {
    forall i, j :: 0 <= i < j < |cells| ==> Rank(cells[i].key) <= Rank(cells[j].key)
  }

  lemma OrderedInsert<V>(cells: seq<Cell<V>>, c: Cell<V>)
    requires Ordered(cells)
    ensures Ordered(InsertAt(cells, LowerBound(cells, c.key), c))
  {
    hide Rank;
  }

  /** Where a binary search is: the cells before lo are below the key, those from hi on are not. */
  ghost predicate Searching<V>(cells: seq<Cell<V>>, key: Key, lo: nat, hi: nat) {
    && lo <= hi <= |cells|
    && (forall i :: 0 <= i < lo ==> Rank(cells[i].key) < Rank(key))
    && (forall i :: hi <= i < |cells| ==> Rank(key) <= Rank(cells[i].key))
  }

  lemma SearchNarrows<V>(cells: seq<Cell<V>>, key: Key, lo: nat, hi: nat, mid: nat)
    requires Ordered(cells) && Searching(cells, key, lo, hi) && lo <= mid < hi
    ensures Rank(cells[mid].key) < Rank(key) ==> Searching(cells, key, mid + 1, hi)
    ensures Rank(key) <= Rank(cells[mid].key) ==> Searching(cells, key, lo, mid)
  {
    hide Rank;
  }

  lemma SearchStarts<V>(cells: seq<Cell<V>>, key: Key)
    ensures Searching(cells, key, 0, |cells|)
  {
  }

  lemma SearchEnds<V>(cells: seq<Cell<V>>, key: Key, n: nat)
    requires Searching(cells, key, n, n)
    ensures LowerBound(cells, key) == n
  {
    LowerBoundAt(cells, key, n);
  }

  lemma SearchWithin<V>(cells: seq<Cell<V>>, key: Key, lo: nat, hi: nat)
    requires Searching(cells, key, lo, hi)
    ensures lo <= hi <= |cells|
  {
  }

  lemma LowerBoundAt<V>(cells: seq<Cell<V>>, key: Key, n: nat)
    requires n <= |cells|
    requires forall i :: 0 <= i < n ==> Rank(cells[i].key) < Rank(key)
    requires forall i :: n <= i < |cells| ==> Rank(key) <= Rank(cells[i].key)
    ensures LowerBound(cells, key) == n
  {
    hide Rank;
    var m := LowerBound(cells, key);
    assert m < |cells| ==> Rank(key) <= Rank(cells[m].key);
    assert 0 < m ==> Rank(cells[m-1].key) < Rank(key);
  }

  // ---- pointer shifts ----

  method ShiftRight(data: array<Byte>, count: nat, idx: nat)
    requires data.Length == PAGE_SIZE && idx <= count && PtrPos(count + 1) <= PAGE_SIZE
    modifies data
    ensures SameOutside(old(data[..]), data[..], PtrPos(idx), PtrPos(count + 1))
    ensures forall k :: idx <= k < count ==> Ptr(data[..], k + 1) == Ptr(old(data[..]), k)
  {
    var i := count;
    while i > idx
      invariant idx <= i <= count
      invariant
        || SameOutside(old(data[..]), data[..], PtrPos(i + 1), PtrPos(count + 1))
        || (i == count && data[..] == old(data[..]))
      invariant forall k :: i <= k < count ==> Ptr(data[..], k + 1) == Ptr(old(data[..]), k)
    {
      PutU16(data, PtrPos(i), Ptr(data[..], i - 1));
      i := i - 1;
    }
  }

  method ShiftLeft(data: array<Byte>, count: nat, idx: nat)
    requires data.Length == PAGE_SIZE && idx < count && PtrPos(count) <= PAGE_SIZE
    modifies data
    ensures SameOutside(old(data[..]), data[..], PtrPos(idx), PtrPos(count - 1))
    ensures forall k :: idx <= k < count - 1 ==> Ptr(data[..], k) == Ptr(old(data[..]), k + 1)
  {
    var i := idx;
    while i < count - 1
      invariant idx <= i <= count - 1
      invariant SameOutside(old(data[..]), data[..], PtrPos(idx), PtrPos(i))
      invariant forall k :: idx <= k < i ==> Ptr(data[..], k) == Ptr(old(data[..]), k + 1)
    {
      assert Ptr(data[..], i + 1) == Ptr(old(data[..]), i + 1);
      ghost var d := data[..];
      PutU16(data, PtrPos(i), Ptr(data[..], i + 1));
      assert forall k :: idx <= k < i ==> Ptr(data[..], k) == Ptr(d, k);
      i := i + 1;
    }
  }

  // ---- linking and unlinking a cell ----

  /** e is d with a pointer to a new cell at index idx and the header counting it. */
  ghost predicate Linked(d: Bytes, e: Bytes, count: nat, idx: nat, newEnd: nat) {
    && Pointed(d, e, count, idx, newEnd)
    && e[0] == d[0] && RightOf(e) == RightOf(d)
    && CountOf(e) == count + 1 && StartOf(e) == PtrPos(count + 1) && EndOf(e) == newEnd
    && SameOn(d, e, newEnd, PAGE_SIZE)
  }

  ghost predicate Pointed(d: Bytes, e: Bytes, count: nat, idx: nat, newEnd: nat) {
    && |d| == PAGE_SIZE && |e| == PAGE_SIZE && idx <= count && PtrPos(count + 1) <= newEnd <= PAGE_SIZE
    && (forall k :: 0 <= k < idx ==> Ptr(e, k) == Ptr(d, k))
    && Ptr(e, idx) == newEnd
    && (forall k :: idx < k <= count ==> Ptr(e, k) == Ptr(d, k - 1))
  }

  method LinkCell(data: array<Byte>, count: nat, idx: nat, newEnd: nat)
    requires data.Length == PAGE_SIZE && idx <= count && PtrPos(count + 1) <= newEnd <= PAGE_SIZE
    modifies data
    ensures Linked(old(data[..]), data[..], count, idx, newEnd)
  {
    ghost var d := data[..];
    PutU16(data, 6, newEnd);
    ghost var d1 := data[..];
    ShiftRight(data, count, idx);
    ghost var d2 := data[..];
    PutU16(data, PtrPos(idx), newEnd);
    ghost var d3 := data[..];
    PutU16(data, 2, count + 1);
    PutU16(data, 4, PtrPos(count + 1));
    ghost var e := data[..];
    forall k | idx < k <= count ensures Ptr(e, k) == Ptr(d, k - 1) {
      assert Ptr(d2, (k - 1) + 1) == Ptr(d1, k - 1);
    }
  }

  /** e is d without pointer idx. */
  ghost predicate Unlinked(d: Bytes, e: Bytes, count: nat, idx: nat) {
    && |d| == PAGE_SIZE && |e| == PAGE_SIZE && idx < count && PtrPos(count) <= PAGE_SIZE
    && e[0] == d[0] && RightOf(e) == RightOf(d) && EndOf(e) == EndOf(d)
    && CountOf(e) == count - 1 && StartOf(e) == PtrPos(count - 1)
    && (forall k :: 0 <= k < idx ==> Ptr(e, k) == Ptr(d, k))
    && (forall k :: idx <= k < count - 1 ==> Ptr(e, k) == Ptr(d, k + 1))
    && SameOn(d, e, PtrPos(count), PAGE_SIZE)
  }

  method UnlinkCell(data: array<Byte>, count: nat, idx: nat)
    requires data.Length == PAGE_SIZE && idx < count && PtrPos(count) <= PAGE_SIZE
    modifies data
    ensures Unlinked(old(data[..]), data[..], count, idx)
  {
    ShiftLeft(data, count, idx);
    ghost var d1 := data[..];
    PutU16(data, 2, count - 1);
    PutU16(data, 4, PtrPos(count - 1));
    assert forall k :: 0 <= k < count ==> Ptr(data[..], k) == Ptr(d1, k);
  }

  lemma SlotMoved(d: Bytes, k0: nat, freeEnd: nat, raw: Bytes, e: Bytes, k: nat, newEnd: nat)
    requires Slot(d, k0, freeEnd, raw) && newEnd <= freeEnd && SameOn(d, e, freeEnd, |d|)
    requires PtrPos(k + 1) <= |e| && Ptr(e, k) == Ptr(d, k0)
    ensures Slot(e, k, newEnd, raw)
  {
  }

  function Insert<T>(s: seq<T>, i: nat, x: T): seq<T>
    requires i <= |s|
  {
    s[..i] + [x] + s[i..]
  }

  function Remove<T>(s: seq<T>, i: nat): seq<T>
    requires i < |s|
  {
    s[..i] + s[i+1..]
  }

  /** Writing a cell into the free space and then linking it changes nothing else. */
  lemma LinkedThrough(d: Bytes, d1: Bytes, e: Bytes, count: nat, idx: nat, newEnd: nat, freeEnd: nat)
    requires |d| == PAGE_SIZE && SameOutside(d, d1, newEnd, freeEnd) && Linked(d1, e, count, idx, newEnd)
    requires newEnd <= freeEnd <= PAGE_SIZE
    ensures Pointed(d, e, count, idx, newEnd) && SameOn(d, e, freeEnd, PAGE_SIZE)
    ensures e[0] == d[0] && RightOf(e) == RightOf(d) && e[newEnd..freeEnd] == d1[newEnd..freeEnd]
  {
  }

  lemma InsertedSlot(d: Bytes, e: Bytes, raws: seq<Bytes>, freeEnd: nat, idx: nat, raw: Bytes, k: nat)
    requires |d| == PAGE_SIZE && Slots(d, raws, freeEnd) && idx <= |raws| && |raw| <= freeEnd <= PAGE_SIZE
    requires SameOn(d, e, freeEnd, PAGE_SIZE) && Pointed(d, e, |raws|, idx, freeEnd - |raw|)
    requires e[freeEnd - |raw|..freeEnd] == raw && k <= |raws|
    ensures Slot(e, k, freeEnd - |raw|, Insert(raws, idx, raw)[k])
    ensures k != idx ==> var k0 := if k < idx then k else k - 1;
      Ptr(e, k) == Ptr(d, k0) >= freeEnd && Insert(raws, idx, raw)[k] == raws[k0]
  {
    hide U16, U32, SameOn;
    if k != idx {
      var k0 := if k < idx then k else k - 1;
      assert Slot(d, k0, freeEnd, raws[k0]);
      SlotMoved(d, k0, freeEnd, raws[k0], e, k, freeEnd - |raw|);
    }
  }

  /** A cell written below the free end and pointed to in place is an insertion among the cells. */
  lemma InsertedSlots(d: Bytes, e: Bytes, raws: seq<Bytes>, freeEnd: nat, idx: nat, raw: Bytes)
    requires |d| == PAGE_SIZE && Slots(d, raws, freeEnd) && idx <= |raws| && |raw| <= freeEnd <= PAGE_SIZE
    requires SameOn(d, e, freeEnd, PAGE_SIZE) && Pointed(d, e, |raws|, idx, freeEnd - |raw|)
    requires e[freeEnd - |raw|..freeEnd] == raw
    ensures Slots(e, Insert(raws, idx, raw), freeEnd - |raw|)
  {
    hide U16, U32, SameOn, Slot;
    var all := Insert(raws, idx, raw);
    forall k | 0 <= k < |all| ensures Slot(e, k, freeEnd - |raw|, all[k]) {
      InsertedSlot(d, e, raws, freeEnd, idx, raw, k);
    }
    forall i, j | 0 <= i < j < |all| ensures Apart(e, all, i, j) {
      InsertedSlot(d, e, raws, freeEnd, idx, raw, i);
      InsertedSlot(d, e, raws, freeEnd, idx, raw, j);
      if i != idx && j != idx {
        assert Apart(d, raws, if i < idx then i else i - 1, if j < idx then j else j - 1);
      }
    }
  }

  /** Taking a pointer out removes the cell and leaves all others as they were. */
  lemma RemovedSlots(d: Bytes, e: Bytes, raws: seq<Bytes>, freeEnd: nat, idx: nat)
    requires |d| == PAGE_SIZE && Slots(d, raws, freeEnd) && idx < |raws| && Unlinked(d, e, |raws|, idx)
    requires PtrPos(|raws|) <= freeEnd
    ensures Slots(e, Remove(raws, idx), freeEnd)
  {
    hide U16, U32;
    var rest := Remove(raws, idx);
    forall k | 0 <= k < |rest| ensures Slot(e, k, freeEnd, rest[k]) {
      var k0 := if k < idx then k else k + 1;
      assert Slot(d, k0, freeEnd, raws[k0]);
      SlotMoved(d, k0, freeEnd, raws[k0], e, k, freeEnd);
    }
    forall i, j | 0 <= i < j < |rest| ensures Apart(e, rest, i, j) {
      assert Apart(d, raws, if i < idx then i else i + 1, if j < idx then j else j + 1);
    }
  }

  /** Overwriting one cell with another of the same length leaves all others as they were. */
  lemma RewrittenSlots(d: Bytes, e: Bytes, raws: seq<Bytes>, freeEnd: nat, idx: nat, raw: Bytes)
    requires |d| == PAGE_SIZE && Slots(d, raws, freeEnd) && idx < |raws| && |raw| == |raws[idx]|
    requires PtrPos(|raws|) <= freeEnd
    requires PtrPos(idx + 1) <= |d| && SameOutside(d, e, Ptr(d, idx), Ptr(d, idx) + |raw|)
    requires Ptr(d, idx) + |raw| <= |e| && e[Ptr(d, idx)..Ptr(d, idx) + |raw|] == raw
    ensures Slots(e, raws[idx := raw], freeEnd)
  {
    var raws' := raws[idx := raw];
    assert Slot(d, idx, freeEnd, raws[idx]);
    forall k | 0 <= k < |raws| ensures Slot(e, k, freeEnd, raws'[k]) && Ptr(e, k) == Ptr(d, k) {
      assert Slot(d, k, freeEnd, raws[k]);
      if k != idx {
        assert Apart(d, raws, if k < idx then k else idx, if k < idx then idx else k);
        assert d[Ptr(d, k)..Ptr(d, k) + |raws[k]|] == e[Ptr(d, k)..Ptr(d, k) + |raws[k]|];
      }
    }
    forall i, j | 0 <= i < j < |raws| ensures Apart(e, raws', i, j) {
      assert Apart(d, raws, i, j);
    }
  }

  /** Replaying an operation on cells and on their bytes comes to the same. */
  lemma RawsInsertLeaf(p: Page, idx: nat, c: Pair, freeEnd: nat)
    requires p.Leaf? && Encodable(p) && idx <= |p.pairs| && PairOk(c)
    ensures var p' := Leaf(p.right, InsertAt(p.pairs, idx, c), freeEnd);
      Encodable(p') && Raws(p') == Insert(Raws(p), idx, LeafCellBytes(c))
  {
  }

  lemma EncodableInternal(p: Page, idx: nat, c: Separator, freeEnd: nat)
    requires p.Internal? && Encodable(p) && idx <= |p.seps| && SepOk(c)
    ensures Encodable(Internal(p.right, InsertAt(p.seps, idx, c), freeEnd))
  {
  }

  lemma RawsInternalAt(p: Page, idx: nat, c: Separator, freeEnd: nat, k: nat)
    requires p.Internal? && Encodable(p) && idx <= |p.seps| && SepOk(c) && k <= |p.seps|
    requires Encodable(Internal(p.right, InsertAt(p.seps, idx, c), freeEnd))
    ensures Raws(Internal(p.right, InsertAt(p.seps, idx, c), freeEnd))[k] ==
      Insert(Raws(p), idx, InternalCellBytes(c))[k]
  {
    hide SepOk, InternalCellBytes;
  }

  lemma RawsInsertInternal(p: Page, idx: nat, c: Separator, freeEnd: nat)
    requires p.Internal? && Encodable(p) && idx <= |p.seps| && SepOk(c)
    ensures var p' := Internal(p.right, InsertAt(p.seps, idx, c), freeEnd);
      Encodable(p') && Raws(p') == Insert(Raws(p), idx, InternalCellBytes(c))
  {
    EncodableInternal(p, idx, c, freeEnd);
    var r, r' := Insert(Raws(p), idx, InternalCellBytes(c)), Raws(Internal(p.right, InsertAt(p.seps, idx, c), freeEnd));
    assert |r| == |r'| == |p.seps| + 1;
    hide *;
    forall k | 0 <= k < |r| ensures r[k] == r'[k] {
      RawsInternalAt(p, idx, c, freeEnd, k);
    }
  }

  lemma RawsRight(p: Page, right: PageId)
    requires Encodable(p) && right < 0x1_0000_0000
    ensures var p' := if p.Leaf? then Leaf(right, p.pairs, p.freeEnd) else Internal(right, p.seps, p.freeEnd);
      Encodable(p') && Raws(p') == Raws(p)
  {
  }

  lemma RawsRemoveLeaf(p: Page, idx: nat)
    requires p.Leaf? && Encodable(p) && idx < |p.pairs|
    ensures var p' := Leaf(p.right, RemoveAt(p.pairs, idx), p.freeEnd);
      Encodable(p') && Raws(p') == Remove(Raws(p), idx)
  {
  }

  lemma RawsRewrite(p: Page, idx: nat, child: PageId)
    requires p.Internal? && Encodable(p) && idx < |p.seps| && child < 0x1_0000_0000
    ensures var c := Cell(p.seps[idx].key, child); var p' := Internal(p.right, p.seps[idx := c], p.freeEnd);
      SepOk(c) && Encodable(p') && Raws(p') == Raws(p)[idx := InternalCellBytes(c)]
  {
  }

  method ResetHeader(data: array<Byte>, pageType: Byte, parentID: nat, rightPtr: nat)
    requires data.Length == PAGE_SIZE && parentID < 0x1_0000_0000 && rightPtr < 0x1_0000_0000
    modifies data
    ensures Header(data[..], pageType, rightPtr, 0, PAGE_SIZE) && ParentOf(data[..]) == parentID
    ensures forall i :: PAGE_HEADER_SIZE <= i < PAGE_SIZE ==> data[i] == old(data[i])
  {
    data[0] := pageType;
    PutU16(data, 2, 0);
    PutU16(data, 4, PAGE_HEADER_SIZE);
    PutU16(data, 6, PAGE_SIZE);
    PutU32(data, 8, parentID);
    PutU32(data, 12, rightPtr);
  }

  /** A page in memory. */
  class RawPage {
    const id: PageId
    const data: array<Byte>
    var dirty: bool
    ghost var page: Page

    ghost predicate Valid()
      reads this, data
    {
      && data.Length == PAGE_SIZE
      && Holds(data[..], page)
      && Fits(page)
      && if page.Leaf? then Ordered(page.pairs) else Ordered(page.seps)
    }

    /** What the header says about the cells. */
    lemma Unfolded()
      requires Valid()
      ensures data.Length == PAGE_SIZE && CountOf(data[..]) == if page.Leaf? then |page.pairs| else |page.seps|
      ensures if page.Leaf? then Ordered(page.pairs) else Ordered(page.seps)
    {
      hide Rank, U16, U32, LeafCellBytes, InternalCellBytes;
    }

    /** NewPage: an empty page, not marked dirty. */
    constructor (id: PageId, leaf: bool)
      ensures Valid() && !dirty && fresh(data) && this.id == id
      ensures page == if leaf then EmptyLeaf(0) else EmptyInternal(0)
    {
      this.id := id;
      data := new Byte[PAGE_SIZE](_ => 0);
      dirty := false;
      page := if leaf then EmptyLeaf(0) else EmptyInternal(0);
      new;
      data[0] := if leaf then TYPE_LEAF else TYPE_INTERNAL;
      PutU16(data, 4, PAGE_HEADER_SIZE);
      PutU16(data, 6, PAGE_SIZE);
    }

    /** leafSearchIndex: binary search over the cell pointers. */
    method LeafSearchIndex(key: Key) returns (idx: nat)
      requires Valid() && page.Leaf?
      ensures idx == LowerBound(page.pairs, key)
    {
      hide *;
      Unfolded();
      SearchStarts(page.pairs, key);
      var lo: nat, hi: nat := 0, CountOf(data[..]);
      while lo < hi
        invariant lo <= hi && Searching(page.pairs, key, lo, hi)
      {
        var mid: nat := (lo + hi) / 2;
        SearchWithin(page.pairs, key, lo, hi);
        var existing, _ := GetLeafKeyValueAt(mid);
        var cmp := CompareKeys(existing, key);
        SearchNarrows(page.pairs, key, lo, hi, mid);
        if cmp < 0 {
          lo := mid + 1;
        } else {
          hi := mid;
        }
      }
      SearchEnds(page.pairs, key, lo);
      idx := lo;
    }

    method GetLeafKeyValueAt(i: nat) returns (key: Key, value: Value)
      requires Valid() && page.Leaf? && i < |page.pairs|
      ensures Cell(key, value) == page.pairs[i]
    {
      hide U16, U32, LeafCellBytes, Cost;
      assert Slot(data[..], i, page.freeEnd, Raws(page)[i]);
      key, value := ReadLeafCell(data, Ptr(data[..], i), page.pairs[i]);
    }

    /** SearchLeaf finds what the decoded pairs say about the key. */
    method SearchLeaf(key: Key) returns (r: Option<Value>)
      requires Valid() && page.Leaf?
      ensures r == Lookup(page.pairs, key)
    {
      hide Rank, U16, U32, LeafCellBytes, LowerBound, Cost;
      var idx := LeafSearchIndex(key);
      if idx < CountOf(data[..]) {
        var k, v := GetLeafKeyValueAt(idx);
        var cmp := CompareKeys(k, key);
        if cmp == 0 {
          return Some(v);
        }
      }
      r := None;
    }

    /** InsertLeafCell: ErrPageFull (false) or insertion of the pair in its place. */
    method InsertLeafCell(key: Key, value: Value) returns (ok: bool)
      requires Valid() && page.Leaf?
      modifies this, data
      ensures Valid()
      ensures ok <==> old(EndOf(data[..]) - StartOf(data[..])) >= LeafCellSize(key, value) + CELL_PTR_SIZE
      ensures ok <==> LeafInsert(old(page), key, value).Some?
      ensures page == if ok then LeafInsert(old(page), key, value).value else old(page)
      ensures ok ==> var pairs := old(page).pairs;
        && page == Leaf(old(page).right, InsertAt(pairs, LowerBound(pairs, key), Cell(key, value)), EndOf(data[..]))
        && EndOf(data[..]) == old(EndOf(data[..])) - LeafCellSize(key, value)
        && StartOf(data[..]) == old(StartOf(data[..])) + CELL_PTR_SIZE
      ensures !ok ==> data[..] == old(data[..]) && dirty == old(dirty)
      ensures ok ==> dirty
    {
      hide Rank, U16, U32, LeafCellBytes, LowerBound, Cost, Slots, Raws;
      var cellSize := LeafCellSize(key, value);
      var needed := cellSize + CELL_PTR_SIZE;
      if EndOf(data[..]) - StartOf(data[..]) < needed {
        return false;
      }
      var count := CountOf(data[..]);
      var insertIdx := LeafSearchIndex(key);
      var newEnd := EndOf(data[..]) - cellSize;
      ghost var d := data[..];
      WriteLeafCell(data, newEnd, key, value);
      ghost var d1 := data[..];
      LinkCell(data, count, insertIdx, newEnd);
      dirty := true;
      LinkedThrough(d, d1, data[..], count, insertIdx, newEnd, page.freeEnd);
      InsertedSlots(d, data[..], Raws(page), page.freeEnd, insertIdx, LeafCellBytes(Cell(key, value)));
      RawsInsertLeaf(page, insertIdx, Cell(key, value), newEnd);
      OrderedInsert(page.pairs, Cell(key, value));
      LeafInsertFits(page, key, value);
      page := Leaf(page.right, InsertAt(page.pairs, insertIdx, Cell(key, value)), newEnd);
      ok := true;
    }

    /** DeleteLeafCell: the pair goes, its bytes stay behind as dead space. */
    method DeleteLeafCell(key: Key) returns (found: bool)
      requires Valid() && page.Leaf?
      modifies this, data
      ensures Valid()
      ensures found <==> Lookup(old(page).pairs, key).Some?
      ensures page == if found then LeafDelete(old(page), key).value else old(page)
      ensures found ==> var pairs := old(page).pairs;
        && page == Leaf(old(page).right, RemoveAt(pairs, LowerBound(pairs, key)), EndOf(data[..]))
        && EndOf(data[..]) == old(EndOf(data[..])) && StartOf(data[..]) == old(StartOf(data[..])) - CELL_PTR_SIZE
      ensures !found ==> data[..] == old(data[..]) && dirty == old(dirty)
      ensures found ==> dirty
    {
      hide Rank, U16, U32, LeafCellBytes, LowerBound, Cost, Slots, Raws;
      var idx := LeafSearchIndex(key);
      var count := CountOf(data[..]);
      if idx >= count {
        return false;
      }
      var k, _ := GetLeafKeyValueAt(idx);
      var cmp := CompareKeys(k, key);
      if cmp != 0 {
        return false;
      }
      ghost var d := data[..];
      UnlinkCell(data, count, idx);
      dirty := true;
      RemovedSlots(d, data[..], Raws(page), page.freeEnd, idx);
      RawsRemoveLeaf(page, idx);
      LeafDeleteFits(page, key);
      page := Leaf(page.right, RemoveAt(page.pairs, idx), page.freeEnd);
      found := true;
    }

    method GetInternalCellAt(i: nat) returns (child: PageId, key: Key)
      requires Valid() && page.Internal? && i < |page.seps|
      ensures Cell(key, child) == page.seps[i]
    {
      hide U16, U32, InternalCellBytes, Cost;
      assert Slot(data[..], i, page.freeEnd, Raws(page)[i]);
      child, key := ReadInternalCell(data, Ptr(data[..], i), page.seps[i]);
    }

    method InternalSearchIndex(key: Key) returns (idx: nat)
      requires Valid() && page.Internal?
      ensures idx == LowerBound(page.seps, key)
    {
      hide *;
      Unfolded();
      SearchStarts(page.seps, key);
      var lo: nat, hi: nat := 0, CountOf(data[..]);
      while lo < hi
        invariant lo <= hi && Searching(page.seps, key, lo, hi)
      {
        var mid: nat := (lo + hi) / 2;
        SearchWithin(page.seps, key, lo, hi);
        var _, existing := GetInternalCellAt(mid);
        var cmp := CompareKeys(existing, key);
        SearchNarrows(page.seps, key, lo, hi, mid);
        if cmp < 0 {
          lo := mid + 1;
        } else {
          hi := mid;
        }
      }
      SearchEnds(page.seps, key, lo);
      idx := lo;
    }

    method InsertInternalCell(child: PageId, key: Key) returns (ok: bool)
      requires Valid() && page.Internal? && child < 0x1_0000_0000
      modifies this, data
      ensures Valid()
      ensures ok <==> old(EndOf(data[..]) - StartOf(data[..])) >= InternalCellSize(key) + CELL_PTR_SIZE
      ensures ok <==> InternalInsert(old(page), child, key).Some?
      ensures page == if ok then InternalInsert(old(page), child, key).value else old(page)
      ensures ok ==> var seps := old(page).seps;
        && page == Internal(old(page).right, InsertAt(seps, LowerBound(seps, key), Cell(key, child)), EndOf(data[..]))
        && EndOf(data[..]) == old(EndOf(data[..])) - InternalCellSize(key)
        && StartOf(data[..]) == old(StartOf(data[..])) + CELL_PTR_SIZE
      ensures !ok ==> data[..] == old(data[..]) && dirty == old(dirty)
      ensures ok ==> dirty
    {
      hide Rank, U16, U32, InternalCellBytes, LowerBound, Cost, Slots, Raws;
      var cellSize := InternalCellSize(key);
      var needed := cellSize + CELL_PTR_SIZE;
      if EndOf(data[..]) - StartOf(data[..]) < needed {
        return false;
      }
      var count := CountOf(data[..]);
      var insertIdx := InternalSearchIndex(key);
      var newEnd := EndOf(data[..]) - cellSize;
      ghost var d := data[..];
      WriteInternalCell(data, newEnd, child, key);
      ghost var d1 := data[..];
      LinkCell(data, count, insertIdx, newEnd);
      dirty := true;
      LinkedThrough(d, d1, data[..], count, insertIdx, newEnd, page.freeEnd);
      InsertedSlots(d, data[..], Raws(page), page.freeEnd, insertIdx, InternalCellBytes(Cell(key, child)));
      RawsInsertInternal(page, insertIdx, Cell(key, child), newEnd);
      OrderedInsert(page.seps, Cell(key, child));
      InternalInsertFits(page, child, key);
      page := Internal(page.right, InsertAt(page.seps, insertIdx, Cell(key, child)), newEnd);
      ok := true;
    }

    /** FindChild's linear scan takes the child the separators call for. */
    method FindChildFor(key: Key) returns (child: PageId)
      requires Valid() && page.Internal?
      ensures child == FindChild(page, key)
    {
      hide Rank, U16, U32, InternalCellBytes, Cost, UpperBound;
      var count := CountOf(data[..]);
      for i := 0 to count
        invariant i <= UpperBound(page.seps, key)
      {
        var childID, cellKey := GetInternalCellAt(i);
        var cmp := CompareKeys(key, cellKey);
        if cmp < 0 {
          return childID;
        }
      }
      child := RightOf(data[..]);
    }

    /** WriteInternalCell over cell i with the same key, as fixInternalPointers does. */
    method RewriteChild(i: nat, child: PageId)
      requires Valid() && page.Internal? && i < |page.seps| && child < 0x1_0000_0000
      modifies this, data
      ensures Valid() && dirty
      ensures page == Internal(old(page).right, old(page).seps[i := Cell(old(page).seps[i].key, child)],
                               old(page).freeEnd)
    {
      hide Rank, U16, U32, InternalCellBytes, Cost, Slots, Raws;
      var _, key := GetInternalCellAt(i);
      SlotAt(data[..], page, i);
      ghost var d := data[..];
      WriteInternalCell(data, Ptr(data[..], i), child, key);
      dirty := true;
      RewrittenSlots(d, data[..], Raws(page), page.freeEnd, i, InternalCellBytes(Cell(key, child)));
      RawsRewrite(page, i, child);
      RewrittenFits(page.seps, i, child);
      HeaderKept(d, data[..], Ptr(d, i), Ptr(d, i) + SepSize(page.seps[i]));
      page := Internal(page.right, page.seps[i := Cell(key, child)], page.freeEnd);
    }

    method SetRightPointer(right: PageId)
      requires Valid() && right < 0x1_0000_0000
      modifies this, data
      ensures Valid() && dirty
      ensures page == if old(page).Leaf? then Leaf(right, old(page).pairs, old(page).freeEnd)
                      else Internal(right, old(page).seps, old(page).freeEnd)
    {
      hide Rank, Cost, Slots;
      ghost var d := data[..];
      PutU32(data, 12, right);
      dirty := true;
      ghost var p := if page.Leaf? then Leaf(right, page.pairs, page.freeEnd)
        else Internal(right, page.seps, page.freeEnd);
      RawsRight(page, right);
      hide Raws;
      SlotsKept(d, data[..], Raws(page), page.freeEnd);
      page := p;
    }

    /** clearPageCells: an empty page of the same type, parent and right pointer, and zeros behind the header. */
    method Clear()
      requires Valid()
      modifies this, data
      ensures Valid() && dirty && ParentOf(data[..]) == old(ParentOf(data[..]))
      ensures forall i :: PAGE_HEADER_SIZE <= i < PAGE_SIZE ==> data[i] == 0
      ensures page == if old(page).Leaf? then EmptyLeaf(old(page).right) else EmptyInternal(old(page).right)
    {
      hide Rank, Slots, U16, U32;
      var pageType, rightPtr, parentID := data[0], RightOf(data[..]), ParentOf(data[..]);
      for i := 1 to PAGE_SIZE
        invariant data[0] == pageType && forall j :: 1 <= j < i ==> data[j] == 0
        modifies data
      {
        data[i] := 0;
      }
      ResetHeader(data, pageType, parentID, rightPtr);
      dirty := true;
      page := if page.Leaf? then EmptyLeaf(page.right) else EmptyInternal(page.right);
      assert Slots(data[..], Raws(page), page.freeEnd) by { NoSlots(data[..], Raws(page), page.freeEnd); }
    }
  }

  lemma NoSlots(d: Bytes, raws: seq<Bytes>, freeEnd: nat)
    requires |raws| == 0
    ensures Slots(d, raws, freeEnd)
  {
  }

  lemma SlotAt(d: Bytes, p: Page, i: nat)
    requires Holds(d, p) && i < |Raws(p)|
    ensures Slot(d, i, p.freeEnd, Raws(p)[i])
    ensures p.Internal? ==> Raws(p)[i] == InternalCellBytes(p.seps[i])
  {
  }

  lemma SlotsKept(d: Bytes, e: Bytes, raws: seq<Bytes>, freeEnd: nat)
    requires |d| == PAGE_SIZE && Slots(d, raws, freeEnd) && SameOutside(d, e, 12, 16) && freeEnd >= PAGE_HEADER_SIZE
    ensures Slots(e, raws, freeEnd)
  {
    forall k | 0 <= k < |raws| ensures Slot(e, k, freeEnd, raws[k]) && Ptr(e, k) == Ptr(d, k) {
      assert Slot(d, k, freeEnd, raws[k]);
      assert d[Ptr(d, k)..Ptr(d, k) + |raws[k]|] == e[Ptr(d, k)..Ptr(d, k) + |raws[k]|];
    }
    forall i, j | 0 <= i < j < |raws| ensures Apart(e, raws, i, j) {
      assert Apart(d, raws, i, j);
    }
  }

  lemma HeaderKept(d: Bytes, e: Bytes, lo: nat, hi: nat)
    requires |d| == PAGE_SIZE && SameOutside(d, e, lo, hi) && PAGE_HEADER_SIZE <= lo
    ensures e[0] == d[0] && CountOf(e) == CountOf(d) && StartOf(e) == StartOf(d) && EndOf(e) == EndOf(d)
    ensures RightOf(e) == RightOf(d)
  {
  }

  lemma RewrittenFits(seps: seq<Separator>, i: nat, child: PageId)
    requires i < |seps|
    ensures Cost(seps[i := Cell(seps[i].key, child)], SepSize) == Cost(seps, SepSize)
    ensures Ordered(seps) ==> Ordered(seps[i := Cell(seps[i].key, child)])
  {
    var c := Cell(seps[i].key, child);
    CostRemove(seps, i, SepSize);
    CostRemove(seps[i := c], i, SepSize);
    assert RemoveAt(seps, i) == RemoveAt(seps[i := c], i);
  }
}
