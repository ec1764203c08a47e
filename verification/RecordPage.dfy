/** Pages as records: what the bytes of a slotted page (internal/storage/page.go) stand for. */
module RecordPage {
  import opened Keys

  const PAGE_SIZE := 4096
  const PAGE_HEADER_SIZE := 16
  const CELL_PTR_SIZE := 2
  /** Page bytes left for cell pointers and cells. */
  const USABLE := PAGE_SIZE - PAGE_HEADER_SIZE

  /** Page 0 is the file header, so 0 stands for "no page". */
  type PageId = nat

  /** A cell of a leaf carries a value, a cell of an internal page a child. */
  datatype Cell<V> = Cell(key: Key, data: V)

  type Pair = Cell<Value>
  type Separator = Cell<PageId>

  /** freeEnd is the page's FreeSpaceEnd. Deleting a cell does not move it back. */
  datatype Page =
    | Leaf(right: PageId, pairs: seq<Pair>, freeEnd: nat)
    | Internal(right: PageId, seps: seq<Separator>, freeEnd: nat)

  datatype Option<+T> = None | Some(value: T)

  // ---- sorted sequences of cells ----

  ghost predicate Sorted<V>(cells: seq<Cell<V>>) {
    forall i, j :: 0 <= i < j < |cells| ==> Rank(cells[i].key) < Rank(cells[j].key)
  }

  /** Number of leading cells whose key is below the given one. */
  function LowerBound<V>(cells: seq<Cell<V>>, key: Key): (n: nat)
    ensures n <= |cells|
    ensures forall i :: 0 <= i < n ==> Rank(cells[i].key) < Rank(key)
    ensures n < |cells| ==> Rank(key) <= Rank(cells[n].key)
  {
    if |cells| == 0 || Rank(key) <= Rank(cells[0].key) then 0
    else 1 + LowerBound(cells[1..], key)
  }

  function InsertAt<V>(cells: seq<Cell<V>>, i: nat, c: Cell<V>): (r: seq<Cell<V>>)
    requires i <= |cells|
  {
    cells[..i] + [c] + cells[i..]
  }

  function RemoveAt<V>(cells: seq<Cell<V>>, i: nat): (r: seq<Cell<V>>)
    requires i < |cells|
  {
    cells[..i] + cells[i+1..]
  }

  /** What the cells say about a key. */
  function Lookup<V>(cells: seq<Cell<V>>, key: Key): Option<V> {
    var i := LowerBound(cells, key);
    if i < |cells| && cells[i].key == key then Some(cells[i].data) else None
  }

  /** Number of leading separators that are not above the key. */
  function UpperBound(seps: seq<Separator>, key: Key): (n: nat)
    ensures n <= |seps|
    ensures forall i :: 0 <= i < n ==> Rank(seps[i].key) <= Rank(key)
    ensures n < |seps| ==> Rank(key) < Rank(seps[n].key)
  {
    if |seps| == 0 || Rank(key) < Rank(seps[0].key) then 0
    else 1 + UpperBound(seps[1..], key)
  }

  lemma LookupFound<V>(cells: seq<Cell<V>>, i: nat)
    requires Sorted(cells) && i < |cells|
    ensures LowerBound(cells, cells[i].key) == i
    ensures Lookup(cells, cells[i].key) == Some(cells[i].data)
  {
  }

  lemma LookupMissing<V>(cells: seq<Cell<V>>, key: Key)
    requires forall i :: 0 <= i < |cells| ==> cells[i].key != key
    ensures Lookup(cells, key) == None
  {
  }

  /** Lookup says exactly which key is bound to what. */
  lemma LookupIff<V>(cells: seq<Cell<V>>, key: Key, v: V)
    requires Sorted(cells)
    ensures Lookup(cells, key) == Some(v) <==> Cell(key, v) in cells
  {
  }

  /** Equal answers for a key follow from holding the same cells for it. */
  lemma LookupSame<V>(a: seq<Cell<V>>, b: seq<Cell<V>>, key: Key)
    requires Sorted(a) && Sorted(b)
    requires forall v :: Cell(key, v) in a <==> Cell(key, v) in b
    ensures Lookup(a, key) == Lookup(b, key)
  {
  }

  lemma InsertSorted<V>(cells: seq<Cell<V>>, c: Cell<V>)
    requires Sorted(cells) && Lookup(cells, c.key) == None
    ensures Sorted(InsertAt(cells, LowerBound(cells, c.key), c))
  {
    var n := LowerBound(cells, c.key);
    if n < |cells| {
      RankIsLexicographic(cells[n].key, c.key);
    }
    assert n < |cells| ==> cells[n].key != c.key;
    hide Rank, LowerBound, Lookup;
    InsertInGap(cells, n, c);
  }

  lemma InsertInGap<V>(cells: seq<Cell<V>>, n: nat, c: Cell<V>)
    requires Sorted(cells) && n <= |cells|
    requires (n > 0 ==> Rank(cells[n-1].key) < Rank(c.key)) && (n < |cells| ==> Rank(c.key) < Rank(cells[n].key))
    ensures Sorted(InsertAt(cells, n, c))
  {
    hide Rank;
  }

  lemma LookupInsert<V>(cells: seq<Cell<V>>, c: Cell<V>, key: Key)
    requires Sorted(cells) && Lookup(cells, c.key) == None
    ensures Lookup(InsertAt(cells, LowerBound(cells, c.key), c), key) ==
      if key == c.key then Some(c.data) else Lookup(cells, key)
  {
    var n := LowerBound(cells, c.key);
    var r := InsertAt(cells, n, c);
    InsertSorted(cells, c);
    if key == c.key {
      LookupFound(r, n);
    } else {
      assert forall x :: x in r <==> x == c || x in cells by {
        assert cells == cells[..n] + cells[n..];
      }
      LookupSame(r, cells, key);
    }
  }

  lemma LookupRemove<V>(cells: seq<Cell<V>>, i: nat, key: Key)
    requires Sorted(cells) && i < |cells|
    ensures Sorted(RemoveAt(cells, i))
    ensures Lookup(RemoveAt(cells, i), key) == if key == cells[i].key then None else Lookup(cells, key)
  {
    var r := RemoveAt(cells, i);
    if key == cells[i].key {
      LookupMissing(r, key);
    } else {
      assert forall x :: x in cells <==> x == cells[i] || x in r by {
        assert cells == cells[..i] + [cells[i]] + cells[i+1..];
      }
      LookupSame(r, cells, key);
    }
  }

  /** Each half of a sorted sequence answers for the keys on its side of the cut. */
  lemma LookupHalves<V>(cells: seq<Cell<V>>, mid: nat, key: Key)
    requires Sorted(cells) && mid < |cells|
    ensures Sorted(cells[..mid]) && Sorted(cells[mid..])
    ensures Rank(key) < Rank(cells[mid].key) ==> Lookup(cells[..mid], key) == Lookup(cells, key)
    ensures Rank(cells[mid].key) <= Rank(key) ==> Lookup(cells[mid..], key) == Lookup(cells, key)
  {
    hide *;
    HalvesOrder(cells, mid);
    assert cells == cells[..mid] + cells[mid..];
    if Rank(key) < Rank(cells[mid].key) {
      assert forall v :: Cell(key, v) !in cells[mid..];
      LookupSame(cells[..mid], cells, key);
    } else {
      assert forall v :: Cell(key, v) !in cells[..mid];
      LookupSame(cells[mid..], cells, key);
    }
  }

  lemma HalvesOrder<V>(cells: seq<Cell<V>>, mid: nat)
    requires Sorted(cells) && mid < |cells|
    ensures Sorted(cells[..mid]) && Sorted(cells[mid..])
    ensures forall c :: c in cells[..mid] ==> Rank(c.key) < Rank(cells[mid].key)
    ensures forall c :: c in cells[mid..] ==> Rank(cells[mid].key) <= Rank(c.key)
  {
    hide Rank;
  }

  /** The upper bound is the only place where the separators pass the key. */
  lemma RankAtUpper(seps: seq<Separator>, k: Key, u: nat)
    requires Sorted(seps) && u <= |seps|
    requires u > 0 ==> Rank(seps[u-1].key) <= Rank(k)
    requires u < |seps| ==> Rank(k) < Rank(seps[u].key)
    ensures UpperBound(seps, k) == u
  {
  }

  /** Both bounds agree unless the key is a separator. */
  lemma Bounds(seps: seq<Separator>, sep: Key)
    requires Sorted(seps)
    ensures var j, i := LowerBound(seps, sep), UpperBound(seps, sep);
      if Lookup(seps, sep) == None then j == i else j + 1 == i && i <= |seps| && seps[j].key == sep
  {
    var j := LowerBound(seps, sep);
    if j < |seps| && seps[j].key == sep {
      RankAtUpper(seps, sep, j + 1);
    } else {
      if j < |seps| {
        RankIsLexicographic(sep, seps[j].key);
      }
      RankAtUpper(seps, sep, j);
    }
  }

  // ---- space ----

  function LeafCellSize(key: Key, value: Value): nat {
    2 + |key| + 4 + |value|
  }

  function InternalCellSize(key: Key): nat {
    4 + 2 + |key|
  }

  function PairSize(c: Pair): nat {
    LeafCellSize(c.key, c.data)
  }

  function SepSize(c: Separator): nat {
    InternalCellSize(c.key)
  }

  /** Bytes taken by cells together with their cell pointers. */
  function Cost<V>(cells: seq<Cell<V>>, size: Cell<V> -> nat): nat {
    if |cells| == 0 then 0
    else Cost(cells[..|cells|-1], size) + size(cells[|cells|-1]) + CELL_PTR_SIZE
  }

  /** How many of the cells, from the front, an empty page takes. */
  function Fitting<V>(cells: seq<Cell<V>>, size: Cell<V> -> nat): (n: nat)
    ensures n <= |cells|
  {
    if Cost(cells, size) <= USABLE then |cells| else Fitting(cells[..|cells|-1], size)
  }

  lemma {:induction false} FittingIs<V>(cells: seq<Cell<V>>, n: nat, size: Cell<V> -> nat)
    requires n <= |cells| && Cost(cells[..n], size) <= USABLE && (n < |cells| ==> Cost(cells[..n+1], size) > USABLE)
    ensures Fitting(cells, size) == n
    decreases |cells|
  {
    if n == |cells| {
      assert cells[..n] == cells;
    } else {
      assert cells == cells[..n+1] + cells[n+1..];
      CostAppend(cells[..n+1], cells[n+1..], size);
      hide Cost;
      var front := cells[..|cells|-1];
      assert front[..n] == cells[..n] && (n < |front| ==> front[..n+1] == cells[..n+1]);
      FittingIs(front, n, size);
    }
  }

  lemma {:induction false} FittingFits<V>(cells: seq<Cell<V>>, size: Cell<V> -> nat)
    ensures var n := Fitting(cells, size);
      Cost(cells[..n], size) <= USABLE && (n < |cells| ==> Cost(cells[..n+1], size) > USABLE)
  {
    if Cost(cells, size) <= USABLE {
      assert cells[..|cells|] == cells;
    } else {
      var front := cells[..|cells|-1];
      FittingFits(front, size);
      hide Cost;
      var n := Fitting(front, size);
      assert front[..n] == cells[..n];
      assert if n < |front| then front[..n+1] == cells[..n+1] else cells[..n+1] == cells;
    }
  }

  /** That is, as many as can be written before the first that has no room. */
  lemma FittingIff<V>(cells: seq<Cell<V>>, n: nat, size: Cell<V> -> nat)
    requires n <= |cells|
    ensures Fitting(cells, size) == n <==>
      Cost(cells[..n], size) <= USABLE && (n < |cells| ==> Cost(cells[..n+1], size) > USABLE)
  {
    hide Cost, Fitting;
    FittingFits(cells, size);
    if Cost(cells[..n], size) <= USABLE && (n < |cells| ==> Cost(cells[..n+1], size) > USABLE) {
      FittingIs(cells, n, size);
    }
  }

  function FreeSpace(count: nat, freeEnd: nat): int {
    freeEnd - (PAGE_HEADER_SIZE + count * CELL_PTR_SIZE)
  }

  function Room(p: Page): int {
    FreeSpace(if p.Leaf? then |p.pairs| else |p.seps|, p.freeEnd)
  }

  function Used(p: Page): nat {
    if p.Leaf? then Cost(p.pairs, PairSize) else Cost(p.seps, SepSize)
  }

  /** The cells and the room left lie within the page; the rest is dead space. */
  predicate Fits(p: Page) {
    0 <= Room(p) && Used(p) + Room(p) <= USABLE
  }

  lemma {:induction false} CostAppend<V>(a: seq<Cell<V>>, b: seq<Cell<V>>, size: Cell<V> -> nat)
    ensures Cost(a + b, size) == Cost(a, size) + Cost(b, size)
  {
    if |b| == 0 {
      assert a + b == a;
    } else {
      assert (a + b)[..|a + b| - 1] == a + b[..|b|-1];
      CostAppend(a, b[..|b|-1], size);
    }
  }

  lemma CostInsert<V>(cells: seq<Cell<V>>, i: nat, c: Cell<V>, size: Cell<V> -> nat)
    requires i <= |cells|
    ensures Cost(InsertAt(cells, i, c), size) == Cost(cells, size) + size(c) + CELL_PTR_SIZE
  {
    assert cells == cells[..i] + cells[i..];
    CostAppend(cells[..i], cells[i..], size);
    CostAppend(cells[..i] + [c], cells[i..], size);
    assert (cells[..i] + [c])[..i] == cells[..i];
  }

  lemma CostRemove<V>(cells: seq<Cell<V>>, i: nat, size: Cell<V> -> nat)
    requires i < |cells|
    ensures Cost(RemoveAt(cells, i), size) + size(cells[i]) + CELL_PTR_SIZE == Cost(cells, size)
  {
    hide Cost;
    assert InsertAt(RemoveAt(cells, i), i, cells[i]) == cells;
    CostInsert(RemoveAt(cells, i), i, cells[i], size);
  }

  // ---- page operations ----

  function EmptyLeaf(right: PageId): Page {
    Leaf(right, [], PAGE_SIZE)
  }

  function EmptyInternal(right: PageId): Page {
    Internal(right, [], PAGE_SIZE)
  }

  /** None stands for ErrPageFull. */
  function LeafInsert(p: Page, key: Key, value: Value): (r: Option<Page>)
    requires p.Leaf?
  {
    var size := LeafCellSize(key, value);
    if Room(p) < size + CELL_PTR_SIZE then None
    else Some(p.(pairs := InsertAt(p.pairs, LowerBound(p.pairs, key), Cell(key, value)), freeEnd := p.freeEnd - size))
  }

  /** None stands for "key not found". */
  function LeafDelete(p: Page, key: Key): (r: Option<Page>)
    requires p.Leaf?
  {
    var i := LowerBound(p.pairs, key);
    if i < |p.pairs| && p.pairs[i].key == key then Some(p.(pairs := RemoveAt(p.pairs, i))) else None
  }

  function InternalInsert(p: Page, child: PageId, key: Key): (r: Option<Page>)
    requires p.Internal?
  {
    var size := InternalCellSize(key);
    if Room(p) < size + CELL_PTR_SIZE then None
    else Some(p.(seps := InsertAt(p.seps, LowerBound(p.seps, key), Cell(key, child)), freeEnd := p.freeEnd - size))
  }

  /** The child whose range holds the key. */
  function FindChild(p: Page, key: Key): PageId
    requires p.Internal?
  {
    var i := UpperBound(p.seps, key);
    if i < |p.seps| then p.seps[i].data else p.right
  }

  /** A leaf takes a pair exactly when the bytes between the cell pointers and the cells are enough for cell and
      pointer. */
  lemma LeafTakes(p: Page, key: Key, value: Value)
    requires p.Leaf?
    ensures var needed := LeafCellSize(key, value) + CELL_PTR_SIZE;
      LeafInsert(p, key, value).Some? <==> PAGE_HEADER_SIZE + |p.pairs| * CELL_PTR_SIZE + needed <= p.freeEnd
    ensures LeafInsert(p, key, value).Some? <==> Room(p) >= LeafCellSize(key, value) + CELL_PTR_SIZE
  {
  }

  /** The same of an internal page. */
  lemma InternalTakes(p: Page, child: PageId, key: Key)
    requires p.Internal?
    ensures var needed := InternalCellSize(key) + CELL_PTR_SIZE;
      InternalInsert(p, child, key).Some? <==> PAGE_HEADER_SIZE + |p.seps| * CELL_PTR_SIZE + needed <= p.freeEnd
    ensures InternalInsert(p, child, key).Some? ==>
      var q := InternalInsert(p, child, key).value;
      q == Internal(p.right, InsertAt(p.seps, LowerBound(p.seps, key), Cell(key, child)),
                    p.freeEnd - InternalCellSize(key))
  {
  }

  lemma LeafInsertFits(p: Page, key: Key, value: Value)
    requires p.Leaf? && Fits(p)
    ensures LeafInsert(p, key, value).Some? ==> Fits(LeafInsert(p, key, value).value)
  {
    CostInsert(p.pairs, LowerBound(p.pairs, key), Cell(key, value), PairSize);
  }

  lemma LeafDeleteFits(p: Page, key: Key)
    requires p.Leaf? && Fits(p)
    ensures LeafDelete(p, key).Some? ==> Fits(LeafDelete(p, key).value)
  {
    if LeafDelete(p, key).Some? {
      CostRemove(p.pairs, LowerBound(p.pairs, key), PairSize);
    }
  }

  lemma InternalInsertFits(p: Page, child: PageId, key: Key)
    requires p.Internal? && Fits(p)
    ensures InternalInsert(p, child, key).Some? ==> Fits(InternalInsert(p, child, key).value)
  {
    CostInsert(p.seps, LowerBound(p.seps, key), Cell(key, child), SepSize);
  }

  // ---- capacity of count-based halving ----

  const MAX_CELL := 175
  const MIN_CELL := 6

  lemma {:induction false} CostBounds<V>(cells: seq<Cell<V>>, size: Cell<V> -> nat)
    requires forall i :: 0 <= i < |cells| ==> MIN_CELL <= size(cells[i]) <= MAX_CELL
    ensures (MIN_CELL + CELL_PTR_SIZE) * |cells| <= Cost(cells, size) <= (MAX_CELL + CELL_PTR_SIZE) * |cells|
  {
    if |cells| > 0 {
      CostBounds(cells[..|cells|-1], size);
    }
  }

  lemma PartBounds<V>(cells: seq<Cell<V>>, part: seq<Cell<V>>, size: Cell<V> -> nat)
    requires forall i :: 0 <= i < |cells| ==> MIN_CELL <= size(cells[i]) <= MAX_CELL
    requires forall c :: c in part ==> c in cells
    ensures (MIN_CELL + CELL_PTR_SIZE) * |part| <= Cost(part, size) <= (MAX_CELL + CELL_PTR_SIZE) * |part|
  {
    hide Cost;
    forall i | 0 <= i < |part| ensures MIN_CELL <= size(part[i]) <= MAX_CELL {
      assert part[i] in cells;
    }
    CostBounds(part, size);
  }

  /** A page that overflows by one small cell can always be cut at half its count:
      whatever the sizes, both halves fit an empty page. */
  lemma HalvesFit<V>(cells: seq<Cell<V>>, size: Cell<V> -> nat)
    requires forall i :: 0 <= i < |cells| ==> MIN_CELL <= size(cells[i]) <= MAX_CELL
    requires Cost(cells, size) <= USABLE + MAX_CELL + CELL_PTR_SIZE
    ensures Cost(cells[..|cells|/2], size) <= USABLE
    ensures Cost(cells[|cells|/2..], size) <= USABLE
  {
    hide Cost;
    var mid := |cells| / 2;
    assert cells == cells[..mid] + cells[mid..];
    CostAppend(cells[..mid], cells[mid..], size);
    PartBounds(cells, cells[..mid], size);
    PartBounds(cells, cells[mid..], size);
    HalfBound(|cells|, mid, Cost(cells[..mid], size), Cost(cells[mid..], size));
  }

  /** The arithmetic of the halving: neither half can be large while the other is almost empty. */
  lemma HalfBound(n: nat, mid: nat, l: nat, r: nat)
    requires mid == n / 2
    requires (MIN_CELL + CELL_PTR_SIZE) * mid <= l <= (MAX_CELL + CELL_PTR_SIZE) * mid
    requires (MIN_CELL + CELL_PTR_SIZE) * (n - mid) <= r <= (MAX_CELL + CELL_PTR_SIZE) * (n - mid)
    requires l + r <= USABLE + MAX_CELL + CELL_PTR_SIZE
    ensures l <= USABLE && r <= USABLE
  {
  }
}
