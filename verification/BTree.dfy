/** The B+ tree of internal/storage/btree.go, updating pages in place. */
module BTree {
  import opened Keys
  import opened RecordPage
  import opened TreeShape
  import opened TreeContents
  import opened Rewrite
  import opened TreeDelete
  import opened DeleteRouting
  import opened Descent
  import opened SplitRouting
  import opened SplitPath
  import opened SplitFailure

  /** An after-image handed to the write-ahead log. */
  datatype Image = Image(id: PageId, page: Page)

  ghost function Replay(pages: Pages, log: seq<Image>): Pages {
    if |log| == 0 then pages
    else Replay(pages, log[..|log|-1])[log[|log|-1].id := log[|log|-1].page]
  }

  lemma {:induction false} ReplayAppend(pages: Pages, a: seq<Image>, b: seq<Image>)
    ensures Replay(pages, a + b) == Replay(Replay(pages, a), b)
  {
    if |b| == 0 {
      assert a + b == a;
    } else {
      assert (a + b)[..|a + b| - 1] == a + b[..|b|-1];
      ReplayAppend(pages, a, b[..|b|-1]);
    }
  }

  /** Replaying what was appended to the log leads from one set of pages to the other. */
  ghost predicate LogsTo(pages: Pages, log: seq<Image>, pages': Pages, log': seq<Image>) {
    log <= log' && Replay(pages, log'[|log|..]) == pages'
  }

  lemma LogsOne(pages: Pages, log: seq<Image>, id: PageId, p: Page)
    ensures LogsTo(pages, log, pages[id := p], log + [Image(id, p)])
  {
  }

  lemma LogsChain(pages: Pages, log: seq<Image>, pages1: Pages, log1: seq<Image>, pages2: Pages, log2: seq<Image>)
    requires LogsTo(pages, log, pages1, log1) && LogsTo(pages1, log1, pages2, log2)
    ensures LogsTo(pages, log, pages2, log2)
  {
    ReplayAppend(pages, log1[|log|..], log2[|log1|..]);
    assert log2[|log|..] == log1[|log|..] + log2[|log1|..];
  }

  lemma LogsTwo(pages: Pages, log: seq<Image>, a: PageId, p: Page, b: PageId, q: Page)
    ensures LogsTo(pages, log, pages[a := p][b := q], log + [Image(a, p)] + [Image(b, q)])
  {
    LogsOne(pages, log, a, p);
    LogsOne(pages[a := p], log + [Image(a, p)], b, q);
    LogsChain(pages, log, pages[a := p], log + [Image(a, p)], pages[a := p][b := q],
              log + [Image(a, p)] + [Image(b, q)]);
  }

  /** LeafFull: a half of the leaf does not fit a page; NodeFull: the same in an internal page. */
  datatype Outcome = Done | LeafFull | NodeFull | KeyNotFound

  ghost predicate Small(p: Page) {
    if p.Leaf? then forall i :: 0 <= i < |p.pairs| ==> PairSize(p.pairs[i]) <= MAX_CELL
    else forall i :: 0 <= i < |p.seps| ==> SepSize(p.seps[i]) <= MAX_CELL
  }

  ghost predicate AllSmall(pages: Pages) {
    forall p :: p in pages ==> Small(pages[p])
  }

  ghost predicate AllFit(pages: Pages) {
    forall p :: p in pages ==> Fits(pages[p])
  }

  /** The loops over the cells of a parent come to the page predicted. */
  lemma LinkedPage(p: Page, left: PageId, sep: Key, right: PageId, freeEnd: nat, cells: seq<Separator>,
                   seps: seq<Separator>, rightPtr: PageId)
    requires p.Internal? && cells == InsertAt(p.seps, LowerBound(p.seps, sep), Cell(sep, left))
    requires var b := LowerBound(p.seps, sep);
      && rightPtr == (if b + 1 < |cells| then p.right else right)
      && seps == if b + 1 < |cells| then cells[b := Cell(sep, left)][b+1 := Cell(cells[b+1].key, right)]
        else cells[b := Cell(sep, left)]
    ensures Internal(rightPtr, seps, freeEnd) == ParentAfter(p, left, sep, right, freeEnd)
    ensures Cost(seps, SepSize) == Cost(p.seps, SepSize) + SepSize(Cell(sep, 0)) + CELL_PTR_SIZE
  {
    hide Cost, LowerBound;
    LinkedCost(p.seps, LowerBound(p.seps, sep), sep, left, cells, seps);
  }

  lemma LinkedCost(before: seq<Separator>, b: nat, sep: Key, left: PageId, cells: seq<Separator>, seps: seq<Separator>)
    requires b <= |before| && cells == InsertAt(before, b, Cell(sep, left))
    requires |seps| == |cells| && forall i :: 0 <= i < |cells| ==> seps[i].key == cells[i].key
    ensures Cost(seps, SepSize) == Cost(before, SepSize) + SepSize(Cell(sep, 0)) + CELL_PTR_SIZE
  {
    CostInsert(before, b, Cell(sep, left), SepSize);
    hide Cost;
    SameKeysCost(cells, seps);
  }

  lemma FirstOfKey(seps: seq<Separator>, sep: Key, left: PageId)
    ensures var b := LowerBound(seps, sep);
      var cells := InsertAt(seps, b, Cell(sep, left));
      b < |cells| && cells[b].key == sep && forall j :: 0 <= j < b ==> cells[j].key != sep
  {
  }

  lemma AfterSmall(p: Page, left: PageId, sep: Key, right: PageId, freeEnd: nat)
    requires p.Internal? && Small(p) && InternalCellSize(sep) <= MAX_CELL
    ensures Small(ParentAfter(p, left, sep, right, freeEnd))
  {
    var p' := ParentAfter(p, left, sep, right, freeEnd);
    forall j | 0 <= j < |p'.seps| ensures SepSize(p'.seps[j]) <= MAX_CELL {
      KeysAfter(p, left, sep, right, freeEnd, j);
    }
  }

  lemma FitsAt(pages: Pages, id: PageId)
    requires AllFit(pages) && id in pages
    ensures Fits(pages[id]) && (AllSmall(pages) ==> Small(pages[id]))
  {
  }

  lemma OneFits(pages: Pages, id: PageId, p: Page)
    requires AllFit(pages) && Fits(p)
    ensures AllFit(pages[id := p])
    ensures AllSmall(pages) && Small(p) ==> AllSmall(pages[id := p])
  {
  }

  /** The leaf after the old pair of the key has been deleted from it. */
  function Erased(p: Page, key: Key): (p': Page)
    requires p.Leaf?
    ensures p'.Leaf?
  {
    var d := LeafDelete(p, key);
    if d.Some? then d.value else p
  }

  /** Erasing the key's pair in the leaf it routes to erases it from the map. */
  lemma EraseStep(root: PageId, pages: Pages, shape: Shape, m: map<Key, Value>, id: PageId, key: Key, path: seq<PageId>)
    requires Represents(root, pages, shape, Settled, m) && AllFit(pages)
    requires id in pages && pages[id].Leaf? && InRange(key, shape[id]) && Linked(pages, path, key)
    ensures var p := Erased(pages[id], key);
      && Represents(root, pages[id := p], shape, Settled, m - {key}) && AllFit(pages[id := p])
      && Lookup(p.pairs, key) == None && Linked(pages[id := p], path, key)
      && (AllSmall(pages) ==> AllSmall(pages[id := p]))
      && (key in m <==> LeafDelete(pages[id], key).Some?)
  {
    hide Rank, Nodes, Disjoint, Chained, Children, Fits, LowerBound;
    var p := pages[id];
    var i := LowerBound(p.pairs, key);
    LeafSorted(root, pages, shape, id);
    assert Lookup(p.pairs, key) == Get(m, key) by { assert Agrees(p, shape[id], m); }
    if LeafDelete(p, key).Some? {
      LeafEraseStep(root, pages, shape, m, id, i);
      LookupRemove(p.pairs, i, key);
      LeafDeleteFits(p, key);
    } else {
      assert pages[id := p] == pages && m - {key} == m;
    }
  }

  /** A leaf with room takes the pair in place of the erased one. */
  lemma PutStep(root: PageId, pages: Pages, shape: Shape, m: map<Key, Value>, id: PageId, key: Key, value: Value)
    requires Represents(root, pages, shape, Settled, m) && AllFit(pages)
    requires id in pages && pages[id].Leaf? && id in shape && InRange(key, shape[id])
    requires Lookup(pages[id].pairs, key) == None
    requires LeafInsert(pages[id], key, value).Some?
    ensures var p := LeafInsert(pages[id], key, value).value;
      && Represents(root, pages[id := p], shape, Settled, m[key := value]) && AllFit(pages[id := p])
      && (AllSmall(pages) && LeafCellSize(key, value) <= MAX_CELL ==> AllSmall(pages[id := p]))
  {
    hide Rank, Inv, Answers, Fits, LowerBound;
    var p := LeafInsert(pages[id], key, value).value;
    LeafWriteStep(root, pages, shape, m, id, Cell(key, value), p.freeEnd);
    LeafInsertFits(pages[id], key, value);
  }

  lemma LeafSorted(root: PageId, pages: Pages, shape: Shape, id: PageId)
    requires Inv(root, pages, shape, Settled) && id in pages && pages[id].Leaf?
    ensures Sorted(pages[id].pairs) && LeafOk(pages[id], shape[id].lo, shape[id].hi) && id in shape
  {
  }

  lemma DropFits(pages: Pages, pid: PageId, id: PageId)
    requires AllFit(pages) && pid in pages && pages[pid].Internal? && |pages[pid].seps| > 0
    ensures AllFit(pages[pid := DropCell(pages[pid], 0)] - {id})
  {
    CostRemove(pages[pid].seps, 0, SepSize);
  }

  /** The path ends at the last child of the page before. */
  ghost predicate IsLast(pages: Pages, path: seq<PageId>, key: Key) {
    && |path| > 1 && path[|path|-2] in pages && pages[path[|path|-2]].Internal?
    && UpperBound(pages[path[|path|-2]].seps, key) == |pages[path[|path|-2]].seps|
  }

  lemma LastIs(root: PageId, pages: Pages, shape: Shape, path: seq<PageId>, key: Key)
    requires Inv(root, pages, shape, Settled) && |path| > 1 && path[0] == root && Linked(pages, path, key)
    ensures var pid := path[|path|-2];
      && pid in pages && pages[pid].Internal? && ChildAt(pages[pid], UpperBound(pages[pid].seps, key)) == path[|path|-1]
      && (IsLast(pages, path, key) <==> !(UpperBound(pages[pid].seps, key) < |pages[pid].seps|))
  {
    assert path[|path|-2] in pages && FindChild(pages[path[|path|-2]], key) == path[|path|-2+1];
  }

  /** An erased pair does not change which child is the last. */
  lemma LastSame(pages: Pages, path: seq<PageId>, key: Key, p: Page)
    requires |path| > 0 && Linked(pages, path, key) && path[|path|-1] in pages && pages[path[|path|-1]].Leaf? && p.Leaf?
    ensures IsLast(pages[path[|path|-1] := p], path, key) == IsLast(pages, path, key)
  {
  }

  /** Taking out pairs, cells and pages leaves no cell that is larger. */
  lemma SmallKept(pages: Pages, id: PageId, key: Key)
    requires id in pages && pages[id].Leaf? && LeafDelete(pages[id], key).Some?
    ensures AllSmall(pages) ==> AllSmall(pages[id := LeafDelete(pages[id], key).value])
  {
  }

  lemma SmallTaken(pages: Pages, pid: PageId, id: PageId)
    requires pid in pages && pages[pid].Internal?
    ensures AllSmall(pages) ==> AllSmall(pages[pid := Taken(pages[pid], id)] - {id})
  {
    hide CellOf;
  }

  /** Whether a leaf is the first of several does not depend on its pairs. */
  lemma FirstSame(pages: Pages, shape: Shape, id: PageId, p: Page)
    requires id in pages && pages[id].Leaf? && p.Leaf?
    ensures FirstOfSeveral(pages, shape, id) <==> FirstOfSeveral(pages[id := p], shape, id)
  {
    hide Rank;
    var pages' := pages[id := p];
    assert forall q :: q in pages && pages[q].Internal? ==> q in pages' && pages'[q] == pages[q];
    assert forall q :: q in pages' && pages'[q].Internal? ==> pages'[q] == pages[q];
  }

  /** A path has a single page exactly when its leaf is the root; otherwise it gives the leaf's parent. */
  lemma PathEnds(root: PageId, pages: Pages, shape: Shape, path: seq<PageId>, key: Key) returns (i: nat)
    requires Inv(root, pages, shape, Settled) && |path| > 0 && path[0] == root && Linked(pages, path, key)
    ensures path[|path|-1] == root <==> |path| <= 1
    ensures |path| > 1 ==> var pid := path[|path|-2];
      && pid in pages && pages[pid].Internal? && i <= |pages[pid].seps| && ChildAt(pages[pid], i) == path[|path|-1]
      && (|path| > 2 || pid == root)
  {
    hide Rank, Nodes, Disjoint, Chained;
    i := 0;
    if |path| > 1 {
      PathDescends(pages, shape, Settled, path, key, 0, |path| - 1);
      i := UpperBound(pages[path[|path|-2]].seps, key);
    }
  }

  /** The leaf of a key is emptied by deleting it exactly when it was its only pair. */
  lemma EmptiedLeaf(root: PageId, pages: Pages, shape: Shape, m: map<Key, Value>, id: PageId, key: Key)
    requires Represents(root, pages, shape, Settled, m)
    requires id in pages && pages[id].Leaf? && InRange(key, shape[id]) && LeafDelete(pages[id], key).Some?
    ensures |LeafDelete(pages[id], key).value.pairs| == 0 <==> |pages[id].pairs| == 1 && pages[id].pairs[0].key == key
    ensures id in shape && forall q :: q in pages && q in shape && pages[q].Leaf? && InRange(key, shape[q]) ==> q == id
  {
  }

  /** The pairs of a full leaf with the new one, rewritten in two pages as far as they fit. */
  method GatherPairs(leaf: Page, c: Pair, rid: PageId)
    returns (all: seq<Pair>, l: Page, q: Page, ok: bool, ghost n: nat)
    requires leaf.Leaf? && Sorted(leaf.pairs) && Lookup(leaf.pairs, c.key) == None
    ensures all == InsertAt(leaf.pairs, LowerBound(leaf.pairs, c.key), c) && Sorted(all) && |all| > 0
    ensures n == Fitting(all[..|all|/2], PairSize) && l.Leaf? && l.right == (if ok then rid else leaf.right)
    ensures n <= |all| / 2 && l.pairs == all[..n] && Fits(l)
    ensures ok ==> n == |all| / 2 && q.Leaf? && q.right == leaf.right && q.pairs == all[n..] && Fits(q)
    ensures ok <==> Cost(all[..|all|/2], PairSize) <= USABLE && Cost(all[|all|/2..], PairSize) <= USABLE
    ensures Fits(leaf) && Small(leaf) && PairSize(c) <= MAX_CELL ==>
      ok && Small(l) && Small(q) && InternalCellSize(all[|all|/2].key) <= MAX_CELL
  {
    hide Rank, Cost, LowerBound, Lookup;
    all := MergeCell(leaf.pairs, c);
    InsertSorted(leaf.pairs, c);
    CostInsert(leaf.pairs, LowerBound(leaf.pairs, c.key), c, PairSize);
    if Fits(leaf) && Small(leaf) && PairSize(c) <= MAX_CELL {
      HalvesFit(all, PairSize);
    }
    var mid := |all| / 2;
    q := EmptyLeaf(0);
    l, ok, n := WriteLeaf(EmptyLeaf(leaf.right), all[..mid]);
    if !ok {
      return;
    }
    var k;
    q, ok, k := WriteLeaf(EmptyLeaf(0), all[mid..]);
    if ok {
      l, q := Leaf(rid, l.pairs, l.freeEnd), Leaf(leaf.right, q.pairs, q.freeEnd);
    }
  }

  /** LeafSplitStep together with what the path and the page sizes need. */
  lemma SplitLeaf(root: PageId, pages: Pages, shape: Shape, m: map<Key, Value>, path: seq<PageId>, key: Key,
                  value: Value, all: seq<Pair>, mid: nat, l: Page, rid: PageId, q: Page)
    requires Represents(root, pages, shape, Settled, m) && AllFit(pages)
    requires |path| > 0 && path[0] == root && Linked(pages, path, key)
    requires var id := path[|path|-1];
      && id in pages && pages[id].Leaf? && InRange(key, shape[id]) && Lookup(pages[id].pairs, key) == None
      && all == InsertAt(pages[id].pairs, LowerBound(pages[id].pairs, key), Cell(key, value))
      && l.Leaf? && l.right == rid && q.Leaf? && q.right == pages[id].right
    requires mid == |all| / 2 && rid !in pages && rid != 0
    requires l.pairs == all[..mid] && q.pairs == all[mid..] && Fits(l) && Fits(q)
    ensures var id := path[|path|-1]; var pages' := pages[id := l][rid := q];
      && Represents(root, pages', Cut(shape, id, Rank(all[mid].key), Middle(shape[id]), rid),
                    Split(id, all[mid].key, rid), m[key := value])
      && AllFit(pages')
      && Above(root, pages', path[..|path|-1], id, key)
    ensures AllSmall(pages) && Small(l) && Small(q) ==> AllSmall(pages[path[|path|-1] := l][rid := q])
  {
    hide *;
    var id := path[|path|-1];
    InsertAtSize(pages[id].pairs, LowerBound(pages[id].pairs, key), Cell(key, value));
    LeafSplitStep(root, pages, shape, m, id, Cell(key, value), all, mid, l, rid, q);
    LeafAbove(root, pages, path, key, pages[id := l][rid := q]);
    TwoFit(pages, id, l, rid, q);
  }

  lemma InsertAtSize<V>(cells: seq<Cell<V>>, i: nat, c: Cell<V>)
    requires i <= |cells|
    ensures |InsertAt(cells, i, c)| == |cells| + 1 && InsertAt(cells, i, c)[i] == c
  {
  }

  lemma TwoFit(pages: Pages, id: PageId, l: Page, rid: PageId, q: Page)
    requires AllFit(pages) && Fits(l) && Fits(q)
    ensures AllFit(pages[id := l][rid := q])
    ensures AllSmall(pages) && Small(l) && Small(q) ==> AllSmall(pages[id := l][rid := q])
  {
  }

  lemma LeafAbove(root: PageId, pages: Pages, path: seq<PageId>, key: Key, pages': Pages)
    requires |path| > 0 && path[0] == root && Linked(pages, path, key)
    requires path[|path|-1] in pages && pages[path[|path|-1]].Leaf?
    requires forall q :: q in pages && pages[q].Internal? ==> q in pages' && pages'[q] == pages[q]
    ensures Above(root, pages', path[..|path|-1], path[|path|-1], key)
  {
  }

  lemma TruncateLeaf(root: PageId, pages: Pages, shape: Shape, m: map<Key, Value>, id: PageId, c: Pair,
                     all: seq<Pair>, n: nat, l: Page)
    requires Represents(root, pages, shape, Settled, m) && AllFit(pages)
    requires id in pages && id in shape && pages[id].Leaf? && InRange(c.key, shape[id])
    requires Lookup(pages[id].pairs, c.key) == None
    requires all == InsertAt(pages[id].pairs, LowerBound(pages[id].pairs, c.key), c) && n < |all|
    requires l.Leaf? && l.right == pages[id].right && l.pairs == all[..n] && Fits(l)
    ensures Represents(root, pages[id := l], shape, Settled,
                       Without(m[c.key := c.data], Rank(all[n].key), shape[id].hi))
    ensures Without(m[c.key := c.data], Rank(all[n].key), shape[id].hi) != m[c.key := c.data]
    ensures AllFit(pages[id := l])
  {
    hide Rank, LowerBound, Inv, Answers, Fits;
    var pages1 := pages[id := Leaf(l.right, all, 0)];
    LeafWriteStep(root, pages, shape, m, id, c, 0);
    LeafTruncateStep(root, pages1, shape, m[c.key := c.data], id, n, l.freeEnd);
    assert pages1[id := l] == pages[id := l];
    LeafHasAll(root, pages1, shape, m[c.key := c.data], id, n);
  }

  /** Every pair of a leaf is in the map. */
  lemma LeafHasAll(root: PageId, pages: Pages, shape: Shape, m: map<Key, Value>, id: PageId, n: nat)
    requires Represents(root, pages, shape, Settled, m)
    requires id in pages && pages[id].Leaf? && n < |pages[id].pairs|
    ensures id in shape && InRange(pages[id].pairs[n].key, shape[id])
    ensures pages[id].pairs[n].key in m && m[pages[id].pairs[n].key] == pages[id].pairs[n].data
  {
    assert NodeOk(pages[id], shape[id]) && Agrees(pages[id], shape[id], m);
    LookupFound(pages[id].pairs, n);
  }

  /** NodeSplitStep together with what the page sizes need. */
  lemma SplitNode(root: PageId, pages: Pages, shape: Shape, pend: Pending, m: map<Key, Value>, id: PageId, i: nat,
                  all: Page, mid: nat, l: Page, rid: PageId, q: Page, pages1: Pages, pages2: Pages)
    requires pend.Split? && Represents(root, pages, shape, pend, m) && id in shape
    requires pages1 == pages[id := all] && pages2 == pages[id := l][rid := q]
    requires id in pages && pages[id].Internal? && i <= |pages[id].seps| && ChildAt(pages[id], i) == pend.left
    requires Lookup(pages[id].seps, pend.sep) == None
    requires all == ParentAfter(pages[id], pend.left, pend.sep, pend.right, 0)
    requires mid == |all.seps| / 2 && rid !in pages && rid != 0 && Halves(all, mid, l, q) && Fits(l) && Fits(q)
    ensures Represents(root, pages2, CutNode(pages1, shape, id, mid, rid), Split(id, all.seps[mid].key, rid), m)
  {
    hide Rank, Nodes, Disjoint, Chained, Children, Answers, LowerBound, UpperBound, Lookup, Cost, Fits, InsertChild;
    hide CutNode;
    SepPosition(root, pages, shape, pend, id, i);
    AfterIsInsertChild(pages[id], i, pend.left, pend.sep, pend.right, 0);
    AscendingAfter(pages[id], pend.left, pend.sep, pend.right, 0);
    HalvesSorted(all, mid, l, q);
    NodeSplitStep(root, pages, shape, pend, m, id, i, all, mid, l.freeEnd, q.freeEnd, rid);
  }

  lemma HalvesSorted(all: Page, mid: nat, l: Page, q: Page)
    requires Halves(all, mid, l, q) && Sorted(all.seps)
    ensures l == LeftHalf(all, mid, l.freeEnd) && q == RightHalf(all, mid, q.freeEnd)
  {
    CopiedSorted(l.seps, all.seps[..mid]) by { hide Rank; }
    CopiedSorted(q.seps, all.seps[mid+1..]) by { hide Rank; }
  }

  /** The cells of a full internal page with the new separator and both halves of its child. */
  method GatherSeps(node: Page, left: PageId, sep: Key, right: PageId)
    returns (seps: seq<Separator>, rightPtr: PageId)
    requires node.Internal? && Sorted(node.seps)
    ensures Internal(rightPtr, seps, 0) == ParentAfter(node, left, sep, right, 0)
    ensures Ascending(seps) && |seps| > 0
    ensures Fits(node) && Small(node) && InternalCellSize(sep) <= MAX_CELL ==>
      Cost(seps[..|seps|/2], SepSize) <= USABLE && Cost(seps[|seps|/2+1..], SepSize) <= USABLE
      && Small(Internal(rightPtr, seps, 0))
  {
    hide Rank, Cost, LowerBound, Lookup, Ascending;
    var cells := MergeCell(node.seps, Cell(sep, left));
    FirstOfKey(node.seps, sep, left);
    seps, rightPtr := FixPointers(cells, node.right, sep, left, right, LowerBound(node.seps, sep));
    LinkedPage(node, left, sep, right, 0, cells, seps, rightPtr);
    AscendingAfter(node, left, sep, right, 0);
    if Fits(node) && Small(node) && InternalCellSize(sep) <= MAX_CELL {
      AfterSmall(node, left, sep, right, 0);
      NodeHalvesFit(seps);
    }
  }

  /** Writes the cells below the middle into the cleared page and those above it into a new one.
      The middle separator stays in neither; its child ends the left page. */
  method RewriteHalves(oldRight: PageId, all: Page) returns (l: Page, q: Page, ok: bool, ghost n: nat)
    requires all.Internal? && Ascending(all.seps) && |all.seps| > 0
    ensures ok <==>
      Cost(all.seps[..|all.seps|/2], SepSize) <= USABLE && Cost(all.seps[|all.seps|/2+1..], SepSize) <= USABLE
    ensures ok ==> Halves(all, |all.seps| / 2, l, q) && Fits(l) && Fits(q)
    ensures n == Fitting(all.seps[..|all.seps|/2], SepSize) && n <= |all.seps| / 2 && l.Internal?
    ensures Copied(l.seps, all.seps[..n])
    ensures l.right == if n == |all.seps| / 2 then all.seps[n].data else oldRight
    ensures ok && Small(all) ==> Small(l) && Small(q)
  {
    hide Rank, Cost, Ascending, Copied;
    var mid := |all.seps| / 2;
    AscendingHalves(all.seps, mid);
    q := EmptyInternal(0);
    l, ok, n := WriteInternal(EmptyInternal(oldRight), all.seps[..mid]);
    assert all.seps[..mid][..n] == all.seps[..n];
    if !ok {
      return;
    }
    l := Internal(all.seps[mid].data, l.seps, l.freeEnd);
    var k;
    q, ok, k := WriteInternal(EmptyInternal(0), all.seps[mid+1..]);
    if !ok {
      return;
    }
    q := Internal(all.right, q.seps, q.freeEnd);
    assert all.seps[mid+1..][..k] == all.seps[mid+1..];
    if Small(all) {
      CopiedSmall(all, l, 0, mid);
      CopiedSmall(all, q, mid + 1, |all.seps|);
    }
  }

  lemma CopiedSmall(all: Page, p: Page, a: nat, b: nat)
    requires all.Internal? && Small(all) && a <= b <= |all.seps| && p.Internal? && Copied(p.seps, all.seps[a..b])
    ensures Small(p)
  {
    forall i | 0 <= i < |p.seps| ensures SepSize(p.seps[i]) <= MAX_CELL {
      assert p.seps[i].key == all.seps[a..b][i].key == all.seps[a+i].key;
    }
  }

  lemma AscendingHalves(seps: seq<Separator>, mid: nat)
    requires Ascending(seps) && mid < |seps|
    ensures Ascending(seps[..mid]) && Ascending(seps[mid+1..])
    ensures seps[..mid] == seps[0..mid] && seps[mid+1..] == seps[mid+1..|seps|]
  {
  }

  lemma SepSizes(seps: seq<Separator>)
    ensures forall i :: 0 <= i < |seps| ==> MIN_CELL <= SepSize(seps[i])
  {
  }

  lemma NodeHalvesFit(seps: seq<Separator>)
    requires (forall i :: 0 <= i < |seps| ==> SepSize(seps[i]) <= MAX_CELL) && |seps| > 0
    requires Cost(seps, SepSize) <= USABLE + MAX_CELL + CELL_PTR_SIZE
    ensures Cost(seps[..|seps|/2], SepSize) <= USABLE && Cost(seps[|seps|/2+1..], SepSize) <= USABLE
  {
    hide *;
    SepSizes(seps);
    HalvesFit(seps, SepSize);
    assert seps[|seps|/2..] == [seps[|seps|/2]] + seps[|seps|/2+1..];
    CostAppend([seps[|seps|/2]], seps[|seps|/2+1..], SepSize);
  }

  lemma FreshId(s: set<PageId>)
    ensures exists id: PageId :: id != 0 && id !in s
  {
    var bound := UpTo(s);
    assert bound + 1 !in s;
  }

  lemma {:induction false} UpTo(s: set<PageId>) returns (bound: nat)
    ensures forall x :: x in s ==> x <= bound
  {
    if s == {} {
      bound := 0;
    } else {
      var x :| x in s;
      bound := UpTo(s - {x});
      assert forall y :: y in s ==> y == x || y in s - {x};
      if bound < x {
        bound := x;
      }
    }
  }

  // ---- the ghost side of the steps of a split ----

  lemma TopOfPath(root: PageId, pages: Pages, path: seq<PageId>, left: PageId, sep: Key, key: Key)
    requires Ladder(root, pages, path, left, sep, key) && |path| == 0
    ensures root == left && path == []
  {
    assert path + [left] == [left];
  }

  lemma RoomMeans(pages: Pages, path: seq<PageId>, sep: Key)
    requires |path| > 0 && path[|path|-1] in pages && pages[path[|path|-1]].Internal?
    requires InternalInsert(pages[path[|path|-1]], 0, sep).Some?
    ensures !Overflows(pages, path, sep)
    ensures Repeats(pages, path, sep) <==> Lookup(pages[path[|path|-1]].seps, sep) != None
  {
  }

  /** The first cell of a new root. */
  lemma RootRoom(pages: Pages, left: PageId, sep: Key, right: PageId)
    ensures EmptyInternal(0).Internal?
    ensures var p := InternalInsert(EmptyInternal(0), left, sep);
      && (p.None? <==> Overflows(pages, [], sep))
      && (InternalCellSize(sep) <= MAX_CELL ==> p.Some?)
      && (p.Some? ==>
            && p.value.Internal? && p.value.seps == [Cell(sep, left)]
            && var page := Internal(right, p.value.seps, p.value.freeEnd);
            && page == RootOver(Split(left, sep, right), page.freeEnd) && Fits(page)
            && (InternalCellSize(sep) <= MAX_CELL ==> Small(page)))
  {
    InternalInsertFits(EmptyInternal(0), left, sep);
  }

  lemma Inserted(parent: Page, left: PageId, sep: Key, p: Page)
    requires parent.Internal? && InternalInsert(parent, left, sep) == Some(p)
    ensures p.Internal? && p.seps == InsertAt(parent.seps, LowerBound(parent.seps, sep), Cell(sep, left))
    ensures |p.seps| == |parent.seps| + 1 && InternalInsert(parent, 0, sep).Some?
  {
  }

  lemma AfterIs(p: Page, left: PageId, sep: Key, right: PageId, freeEnd: nat)
    requires p.Internal?
    ensures var p' := ParentAfter(p, left, sep, right, freeEnd);
      p'.Internal? && |p'.seps| == |p.seps| + 1 && p'.freeEnd == freeEnd
  {
  }

  lemma SmallSep(p: Page, i: nat)
    requires p.Internal? && i < |p.seps| && Small(p)
    ensures InternalCellSize(p.seps[i].key) <= MAX_CELL
  {
    assert SepSize(p.seps[i]) <= MAX_CELL;
  }

  /** A page of the path that has room for the separator. */
  lemma LinkSteps(root: PageId, pages: Pages, shape: Shape, m: map<Key, Value>, path: seq<PageId>, left: PageId,
                  sep: Key, right: PageId, key: Key, whole: bool, page: Page, p: Page)
    requires AllFit(pages) && Ladder(root, pages, path, left, sep, key) && |path| > 0
    requires path[|path|-1] in pages && pages[path[|path|-1]].Internal?
    requires InternalInsert(pages[path[|path|-1]], left, sep) == Some(p)
    requires page == ParentAfter(pages[path[|path|-1]], left, sep, right, p.freeEnd)
    requires Cost(page.seps, SepSize) ==
      Cost(pages[path[|path|-1]].seps, SepSize) + SepSize(Cell(sep, 0)) + CELL_PTR_SIZE
    requires whole ==>
      Represents(root, pages, shape, Split(left, sep, right), m) && Lookup(pages[path[|path|-1]].seps, sep) == None
    ensures var id := path[|path|-1]; var pages' := pages[id := page];
      && (whole ==> Represents(root, pages', shape, Settled, m))
      && AllFit(pages')
      && Reaches(pages', root, key, Target(pages, path, left, sep, right, key))
      && (Lookup(pages[id].seps, sep) != None ==> Broken(pages', id, id))
      && (AllSmall(pages) && InternalCellSize(sep) <= MAX_CELL ==> AllSmall(pages'))
  {
    hide *;
    var id := path[|path|-1];
    var parent := pages[id];
    FitsAt(pages, id);
    Inserted(parent, left, sep, p);
    AfterIs(parent, left, sep, right, p.freeEnd);
    LinkFits(parent, left, sep, p, page);
    LastRung(root, pages, path, left, sep, key);
    LinkTarget(root, pages, path, left, sep, right, key, p.freeEnd);
    if Lookup(parent.seps, sep) != None {
      RepeatedMisorders(parent, left, sep, right, p.freeEnd);
      MisorderedIs(pages[id := page], id);
      BrokenIs(pages[id := page], id, id);
    } else if whole {
      LinkWhole(root, pages, shape, Split(left, sep, right), m, id, UpperBound(parent.seps, sep), p.freeEnd);
    }
    OneFits(pages, id, page);
    if AllSmall(pages) && InternalCellSize(sep) <= MAX_CELL {
      AfterSmall(parent, left, sep, right, p.freeEnd);
    }
  }

  lemma LinkWhole(root: PageId, pages: Pages, shape: Shape, pend: Pending, m: map<Key, Value>, id: PageId, i: nat,
                  freeEnd: nat)
    requires pend.Split? && Represents(root, pages, shape, pend, m)
    requires id in pages && pages[id].Internal? && i <= |pages[id].seps| && ChildAt(pages[id], i) == pend.left
    requires Sorted(pages[id].seps) && Lookup(pages[id].seps, pend.sep) == None
    requires UpperBound(pages[id].seps, pend.sep) == i
    ensures Represents(root, pages[id := ParentAfter(pages[id], pend.left, pend.sep, pend.right, freeEnd)], shape,
                       Settled, m)
  {
    hide *;
    ParentStep(root, pages, shape, pend, m, id, i, freeEnd);
    AfterIsInsertChild(pages[id], i, pend.left, pend.sep, pend.right, freeEnd);
  }

  lemma LinkFits(parent: Page, left: PageId, sep: Key, p: Page, page: Page)
    requires parent.Internal? && Fits(parent) && InternalInsert(parent, left, sep) == Some(p)
    requires page.Internal? && page.freeEnd == p.freeEnd && |page.seps| == |p.seps|
    requires Cost(page.seps, SepSize) == Cost(parent.seps, SepSize) + SepSize(Cell(sep, 0)) + CELL_PTR_SIZE
    ensures Fits(page)
  {
  }

  /** A page of the path without room, when both halves fit. */
  lemma SplitSteps(root: PageId, pages: Pages, shape: Shape, m: map<Key, Value>, path: seq<PageId>, left: PageId,
                   sep: Key, right: PageId, key: Key, whole: bool, l: Page, rid: PageId, q: Page)
    requires AllFit(pages) && Ladder(root, pages, path, left, sep, key) && |path| > 0 && rid !in pages && rid != 0
    requires path[|path|-1] in pages && pages[path[|path|-1]].Internal?
    requires InternalInsert(pages[path[|path|-1]], 0, sep).None?
    requires var all := ParentAfter(pages[path[|path|-1]], left, sep, right, 0); Halves(all, |all.seps| / 2, l, q)
    requires Fits(l) && Fits(q)
    requires whole ==> Represents(root, pages, shape, Split(left, sep, right), m) && !Repeats(pages, path, sep)
    ensures var id, up := path[|path|-1], path[..|path|-1];
      var all := ParentAfter(pages[id], left, sep, right, 0);
      var mid := |all.seps| / 2;
      var pages1 := pages[id := l][rid := q];
      && Ladder(root, pages1, up, id, all.seps[mid].key, key) && AllFit(pages1) && id !in up && rid !in up && id != rid
      && (whole ==>
            && id in shape
            && Represents(root, pages1, CutNode(pages[id := all], shape, id, mid, rid),
                          Split(id, all.seps[mid].key, rid), m))
      && (whole ==> !Repeats(pages1, up, all.seps[mid].key))
      && (Lookup(pages[id].seps, sep) != None ==> Broken(pages1, id, rid))
      && (AllSmall(pages) && Small(l) && Small(q) ==> AllSmall(pages1))
  {
    hide *;
    var n := |path| - 1;
    var id, up := path[n], path[..n];
    var p := pages[id];
    var all := ParentAfter(p, left, sep, right, 0);
    var mid := |all.seps| / 2;
    var pages1 := pages[id := l][rid := q];
    assert rid !in path by { PathInPages(root, pages, path, left, sep, key); }
    RepeatsWithoutRoom(pages, path, sep);
    GatheredKeys(p, left, sep, right);
    RungsStay(root, pages, path, left, sep, key, pages1);
    LastRung(root, pages, path, left, sep, key);
    LadderUp(root, pages, path, left, sep, key, pages1, mid);
    TwoFit(pages, id, l, rid, q);
    SplitCases(root, pages, path, left, sep, right, key, pages1);
    if Lookup(p.seps, sep) != None {
      RepeatedBreaks(p, left, sep, right, l, q, pages1, id, rid);
    } else if whole {
      RepresentsMeans(root, pages, shape, Split(left, sep, right), m);
      SplitNode(root, pages, shape, Split(left, sep, right), m, id, UpperBound(p.seps, sep), all, mid, l, rid, q,
                pages[id := all], pages1);
    }
  }

  lemma PathInPages(root: PageId, pages: Pages, path: seq<PageId>, left: PageId, sep: Key, key: Key)
    requires Ladder(root, pages, path, left, sep, key)
    ensures forall x :: x in path ==> x in pages
  {
    forall x | x in path ensures x in pages {
      var i :| 0 <= i < |path| && path[i] == x;
      assert Rung(pages, path[i], key, sep);
    }
  }

  /** A page of the path without room, when a half does not fit. */
  lemma FullSteps(root: PageId, pages: Pages, shape: Shape, m: map<Key, Value>, path: seq<PageId>, left: PageId,
                  sep: Key, right: PageId, key: Key, l: Page, n: nat)
    requires Ladder(root, pages, path, left, sep, key) && |path| > 0
    requires path[|path|-1] in pages && pages[path[|path|-1]].Internal?
    requires Represents(root, pages, shape, Split(left, sep, right), m)
    requires Lookup(pages[path[|path|-1]].seps, sep) == None
    requires var all := ParentAfter(pages[path[|path|-1]], left, sep, right, 0).seps;
      && n == Fitting(all[..|all|/2], SepSize) && n <= |all| / 2 && l.Internal? && Copied(l.seps, all[..n])
      && !(Cost(all[..|all|/2], SepSize) <= USABLE && Cost(all[|all|/2+1..], SepSize) <= USABLE)
      && l.right == if n == |all| / 2 then all[n].data else pages[path[|path|-1]].right
    ensures FindsAll(pages[path[|path|-1] := l], root, KeptMap(pages, shape, m, path, sep))
  {
    hide *;
    var id := path[|path|-1];
    var p := pages[id];
    var all := ParentAfter(p, left, sep, right, 0);
    var mid := |all.seps| / 2;
    LastRung(root, pages, path, left, sep, key);
    AscendingAfter(p, left, sep, right, 0);
    SortedPrefix(all.seps, n);
    CopiedSorted(l.seps, all.seps[..n]);
    LinkWhole(root, pages, shape, Split(left, sep, right), m, id, UpperBound(p.seps, sep), 0);
    var r := if n == mid then n else OldRightIndex(p, sep);
    OldRight(p, left, sep, right);
    ChildIs(all, n);
    RepresentsMeans(root, pages, shape, Split(left, sep, right), m);
    KeptHere(pages, shape, m, path, left, sep, right);
    PageFull(root, pages[id := all], shape, m, id, n, r, l);
    assert pages[id := all][id := l] == pages[id := l];
  }

  lemma SortedPrefix(seps: seq<Separator>, n: nat)
    requires Sorted(seps) && n <= |seps|
    ensures Sorted(seps[..n])
  {
  }

  /** The right pointer a page had leads to its last child, or to the last but one when that was the one cut. */
  lemma OldRight(p: Page, left: PageId, sep: Key, right: PageId)
    requires p.Internal? && Sorted(p.seps) && Lookup(p.seps, sep) == None && ChildAt(p, UpperBound(p.seps, sep)) == left
    ensures var all := ParentAfter(p, left, sep, right, 0); var r := OldRightIndex(p, sep);
      r <= |all.seps| == |p.seps| + 1 && ChildAt(all, r) == p.right
  {
    Bounds(p.seps, sep);
    ChildrenAfter(p, left, sep, right, 0, OldRightIndex(p, sep));
  }

  /** What would be kept is told by the pages above, which the cut of this one leaves alone. */
  lemma KeptSteps(root: PageId, pages: Pages, shape: Shape, m: map<Key, Value>, path: seq<PageId>, left: PageId,
                  sep: Key, right: PageId, key: Key, pages1: Pages, rid: PageId)
    requires Ladder(root, pages, path, left, sep, key) && |path| > 0 && path[|path|-1] in pages
    requires pages[path[|path|-1]].Internal?
    requires shape.Keys == pages.Keys && rid !in pages
    requires var all := ParentAfter(pages[path[|path|-1]], left, sep, right, 0).seps;
      && Cost(all[..|all|/2], SepSize) <= USABLE && Cost(all[|all|/2+1..], SepSize) <= USABLE
    requires forall q :: q in pages && q != path[|path|-1] ==> q in pages1 && pages1[q] == pages[q]
    ensures var id, up := path[|path|-1], path[..|path|-1];
      var all := ParentAfter(pages[id], left, sep, right, 0); var mid := |all.seps| / 2;
      KeptMap(pages1, CutNode(pages[id := all], shape, id, mid, rid), m, up, all.seps[mid].key) ==
        KeptMap(pages, shape, m, path, sep)
  {
    hide *;
    var id, up := path[|path|-1], path[..|path|-1];
    var all := ParentAfter(pages[id], left, sep, right, 0);
    var mid := |all.seps| / 2;
    RungsStay(root, pages, path, left, sep, key, pages1);
    LastRung(root, pages, path, left, sep, key);
    PathInPages(root, pages, path, left, sep, key);
    KeptAbove(pages, shape, m, path, left, sep, right);
    CutElsewhere(pages[id := all], shape, id, mid, rid);
    SameKept(pages, shape, pages1, CutNode(pages[id := all], shape, id, mid, rid), m, up, all.seps[mid].key);
  }

  lemma CutElsewhere(pages: Pages, shape: Shape, id: PageId, mid: nat, rid: PageId)
    requires id in pages && id in shape && pages[id].Internal? && mid < |pages[id].seps|
    ensures var cut := CutNode(pages, shape, id, mid, rid);
      forall x :: x in shape && x != id && x != rid ==> x in cut && cut[x] == shape[x]
  {
  }

  // ---- the leaf ----

  /** The pairs of a leaf with the new one. */
  function WithPair(leaf: Page, key: Key, value: Value): (all: seq<Pair>)
    requires leaf.Leaf?
    ensures |all| == |leaf.pairs| + 1
  {
    InsertAt(leaf.pairs, LowerBound(leaf.pairs, key), Cell(key, value))
  }

  /** The key that a split of the leaf promotes. */
  function Promoted(leaf: Page, key: Key, value: Value): Key
    requires leaf.Leaf?
  {
    var all := WithPair(leaf, key, value);
    all[|all|/2].key
  }

  /** A half of the pairs does not fit a page. */
  predicate LeafOverflows(leaf: Page, key: Key, value: Value)
    requires leaf.Leaf?
  {
    var all := WithPair(leaf, key, value);
    !(Cost(all[..|all|/2], PairSize) <= USABLE && Cost(all[|all|/2..], PairSize) <= USABLE)
  }

  /** The map after a leaf has been rewritten with as many of its pairs as fit a page, of those below the middle. */
  ghost function LeafKept(m: map<Key, Value>, leaf: Page, at: Place, key: Key, value: Value): map<Key, Value>
    requires leaf.Leaf?
  {
    var all := WithPair(leaf, key, value);
    Without(m[key := value], Rank(all[Fitting(all[..|all|/2], PairSize)].key), at.hi)
  }

  lemma LeafKeptIs(m: map<Key, Value>, leaf: Page, at: Place, key: Key, value: Value, all: seq<Pair>, n: nat)
    requires leaf.Leaf? && all == WithPair(leaf, key, value) && n == Fitting(all[..|all|/2], PairSize)
    ensures n < |all| && LeafKept(m, leaf, at, key, value) == Without(m[key := value], Rank(all[n].key), at.hi)
  {
    hide Fitting, WithPair, Without, Rank;
  }

  lemma LeafKeptSame(m: map<Key, Value>, m': map<Key, Value>, leaf: Page, at: Place, key: Key, value: Value)
    requires leaf.Leaf? && m[key := value] == m'[key := value]
    ensures LeafKept(m, leaf, at, key, value) == LeafKept(m', leaf, at, key, value)
  {
  }

  /** The cut of a leaf leaves the pages above it and their places alone. */
  lemma LeafKeptSteps(pages: Pages, shape: Shape, m: map<Key, Value>, path: seq<PageId>, key: Key, pages1: Pages,
                      mid: real, rid: PageId, sep: Key)
    requires |path| > 0 && Linked(pages, path, key) && pages.Keys == shape.Keys && path[|path|-1] in shape
    requires SameOn(pages, pages1, path[..|path|-1]) && path[|path|-1] !in path[..|path|-1] && rid !in path[..|path|-1]
    ensures var id, up := path[|path|-1], path[..|path|-1];
      KeptMap(pages1, Cut(shape, id, mid, Middle(shape[id]), rid), m, up, sep) == KeptMap(pages, shape, m, up, sep)
  {
    hide KeptMap, FindChild, SameOn, Middle;
    var id, up := path[|path|-1], path[..|path|-1];
    forall x | x in up ensures x in shape {
      var i :| 0 <= i < |up| && up[i] == x;
      assert up[i] == path[i];
    }
    SameKept(pages, shape, pages1, Cut(shape, id, mid, Middle(shape[id]), rid), m, up, sep);
  }

  /** The pages above a leaf that has been cut. */
  lemma LeafLadder(root: PageId, pages: Pages, shape: Shape, path: seq<PageId>, key: Key, all: seq<Pair>,
                   l: Page, rid: PageId, q: Page, lo: real)
    requires |path| > 0 && path[|path|-1] in pages && rid !in pages && |all| > 0
    requires var id := path[|path|-1]; var pages1 := pages[id := l][rid := q];
      && Inv(root, pages1, shape, Split(id, all[|all|/2].key, rid)) && shape[id].lo == lo
      && Above(root, pages1, path[..|path|-1], id, key)
      && (forall i :: 0 <= i < |path| - 1 ==> path[i] in pages && pages[path[i]].Internal?) && l.Leaf? && q.Leaf?
    requires Sorted(all) && lo <= Rank(all[0].key)
    ensures var id, up := path[|path|-1], path[..|path|-1]; var pages1 := pages[id := l][rid := q];
      && Ladder(root, pages1, up, id, all[|all|/2].key, key) && SameOn(pages, pages1, up) && id !in up && rid !in up
      && (|all| > 1 ==> NowhereOn(pages1, up, all[|all|/2].key))
  {
    hide *;
    var id, up := path[|path|-1], path[..|path|-1];
    var pages1 := pages[id := l][rid := q];
    var sep := all[|all|/2].key;
    LadderHolds(root, pages1, shape, id, sep, rid, up, key);
    PathInPages(root, pages1, up, id, sep, key);
    forall i | 0 <= i < |up| ensures up[i] in pages && up[i] != id && up[i] != rid {
      LadderInternal(root, pages1, up, id, sep, key, i);
      assert up[i] == path[i];
    }
    SameOnPath(pages, pages1, up);
    if |all| > 1 {
      SepAbove(all, lo);
      InsideIsNew(root, pages1, shape, id, sep, rid, up, key);
    }
  }

  lemma SameOnPath(pages: Pages, pages': Pages, path: seq<PageId>)
    requires forall i :: 0 <= i < |path| ==> path[i] in pages && path[i] in pages' && pages'[path[i]] == pages[path[i]]
    ensures SameOn(pages, pages', path)
  {
  }

  lemma SepAbove(all: seq<Pair>, lo: real)
    requires Sorted(all) && |all| > 1 && lo <= Rank(all[0].key)
    ensures lo < Rank(all[|all|/2].key)
  {
    hide Rank;
    assert Rank(all[0].key) < Rank(all[|all|/2].key);
  }

  lemma LinkedPages(pages: Pages, path: seq<PageId>, key: Key)
    requires Linked(pages, path, key)
    ensures forall i :: 0 <= i < |path| - 1 ==> path[i] in pages && pages[path[i]].Internal?
  {
  }

  lemma LadderInternal(root: PageId, pages: Pages, path: seq<PageId>, left: PageId, sep: Key, key: Key, i: nat)
    requires Ladder(root, pages, path, left, sep, key) && i < |path|
    ensures path[i] in pages && pages[path[i]].Internal?
  {
    assert Rung(pages, path[i], key, sep);
  }

  /** The search for the inserted key, once it is known in which half it ends. */
  lemma LeafEnds(pages: Pages, root: PageId, key: Key, value: Value, all: seq<Pair>, left: PageId, right: PageId,
                 lands: bool)
    requires Sorted(all) && Cell(key, value) in all && (!lands ==> |all| == 1)
    requires left in pages && right in pages && pages[left].Leaf? && pages[right].Leaf?
    requires pages[left].pairs == all[..|all|/2] && pages[right].pairs == all[|all|/2..]
    requires Reaches(pages, root, key, if Rank(key) < Rank(all[|all|/2].key) || !lands then left else right)
    ensures Finds(pages, root, key, Some(value)) <==> lands
  {
    hide Rank, Reaches, Sorted;
    var sep := all[|all|/2].key;
    var to := if Rank(key) < Rank(sep) || !lands then left else right;
    FindsThere(pages, root, key, to);
    if lands {
      LookupHalves(all, |all| / 2, key);
      LookupIff(all, key, value);
    } else {
      assert pages[left].pairs == [];
      if Finds(pages, root, key, Some(value)) {
        FindsOnce(pages, root, key, Some(value), None);
      }
    }
  }

  lemma PairsAre(leaf: Page, key: Key, value: Value, all: seq<Pair>)
    requires leaf.Leaf? && all == InsertAt(leaf.pairs, LowerBound(leaf.pairs, key), Cell(key, value))
    ensures all == WithPair(leaf, key, value) && |all| == |leaf.pairs| + 1
    ensures Promoted(leaf, key, value) == all[|all|/2].key
    ensures Cell(key, value) in all && PairSize(Cell(key, value)) == LeafCellSize(key, value)
    ensures LeafOverflows(leaf, key, value) <==>
      !(Cost(all[..|all|/2], PairSize) <= USABLE && Cost(all[|all|/2..], PairSize) <= USABLE)
  {
  }

  lemma AllInRange(leaf: Page, key: Key, value: Value, all: seq<Pair>, at: Place)
    requires LeafOk(leaf, at.lo, at.hi) && InRange(key, at) && all == WithPair(leaf, key, value)
    ensures at.lo <= Rank(all[0].key)
  {
  }

  lemma CutLo(shape: Shape, id: PageId, m: real, rid: PageId)
    requires id in shape && rid != id
    ensures var cut := Cut(shape, id, m, Middle(shape[id]), rid); id in cut && cut[id].lo == shape[id].lo
  {
  }

  lemma LonePromoted(pages: Pages, path: seq<PageId>, sep: Key, n: nat)
    requires n > 1 ==> NowhereOn(pages, path, sep)
    ensures !Lands(pages, path, sep) ==> n <= 1 && Repeats(pages, path, sep)
  {
    hide *;
    if !Lands(pages, path, sep) {
      LostIsRepeated(pages, path, sep);
    }
    if n > 1 {
      NowhereRepeated(pages, path, sep);
    }
  }

  /** What the pages above a cut leaf are in for. */
  lemma CutSteps(root: PageId, pages: Pages, shape: Shape, shape1: Shape, m: map<Key, Value>, path: seq<PageId>,
                 key: Key, all: seq<Pair>, l: Page, rid: PageId, q: Page, lo: real)
    requires |path| > 0 && path[|path|-1] in pages && path[|path|-1] in shape && rid !in pages && |all| > 0
    requires Linked(pages, path, key) && pages.Keys == shape.Keys
    requires var id := path[|path|-1]; var pages1 := pages[id := l][rid := q];
      && shape1 == Cut(shape, id, Rank(all[|all|/2].key), Middle(shape[id]), rid)
      && Inv(root, pages1, shape1, Split(id, all[|all|/2].key, rid)) && id in shape1 && shape1[id].lo == lo
      && Above(root, pages1, path[..|path|-1], id, key)
      && (forall i :: 0 <= i < |path| - 1 ==> path[i] in pages && pages[path[i]].Internal?) && l.Leaf? && q.Leaf?
    requires Sorted(all) && lo <= Rank(all[0].key)
    ensures var id, up, sep := path[|path|-1], path[..|path|-1], all[|all|/2].key;
      var pages1 := pages[id := l][rid := q];
      && Ladder(root, pages1, up, id, sep, key)
      && Overflows(pages1, up, sep) == Overflows(pages, up, sep) && Lands(pages1, up, sep) == Lands(pages, up, sep)
      && Repeats(pages1, up, sep) == Repeats(pages, up, sep)
      && KeptMap(pages1, shape1, m, up, sep) == KeptMap(pages, shape, m, up, sep)
      && (!Lands(pages1, up, sep) ==> |all| <= 1 && Repeats(pages1, up, sep))
  {
    hide *;
    var id, up, sep := path[|path|-1], path[..|path|-1], all[|all|/2].key;
    var pages1 := pages[id := l][rid := q];
    LeafLadder(root, pages, shape1, path, key, all, l, rid, q, lo);
    SameOutcome(pages, pages1, up, sep);
    LeafKeptSteps(pages, shape, m, path, key, pages1, Rank(sep), rid, sep);
    LonePromoted(pages1, up, sep, |all|);
  }

  lemma NoTree(root: PageId, pages: Pages)
    ensures (exists a, b :: Broken(pages, a, b)) ==> forall shape :: !Inv(root, pages, shape, Settled)
  {
    hide Inv, Broken;
    if a, b :| Broken(pages, a, b) {
      forall shape ensures !Inv(root, pages, shape, Settled) {
        BrokenIsNoTree(pages, a, b, root, shape);
      }
    }
  }

  /** Erasing a pair in the leaf does not touch the pages above it. */
  lemma EraseOutcome(pages: Pages, shape: Shape, m: map<Key, Value>, path: seq<PageId>, erased: Page, key: Key,
                     sep: Key)
    requires pages.Keys == shape.Keys
    requires |path| > 0 && Linked(pages, path, key) && path[|path|-1] in pages && pages[path[|path|-1]].Leaf?
    ensures var up, pages' := path[..|path|-1], pages[path[|path|-1] := erased];
      && Repeats(pages', up, sep) == Repeats(pages, up, sep)
      && Lands(pages', up, sep) == Lands(pages, up, sep)
      && Overflows(pages', up, sep) == Overflows(pages, up, sep)
      && KeptMap(pages', shape, m, up, sep) == KeptMap(pages, shape, m, up, sep)
  {
    hide FindChild, Repeats, Lands, Overflows, KeptMap;
    SameOutcome(pages, pages[path[|path|-1] := erased], path[..|path|-1], sep);
    SameKept(pages, shape, pages[path[|path|-1] := erased], shape, m, path[..|path|-1], sep);
  }

  lemma FindsKey(pages: Pages, root: PageId, m: map<Key, Value>, key: Key)
    requires FindsAll(pages, root, m) && key in m
    ensures Finds(pages, root, key, Some(m[key]))
  {
    hide Finds;
    assert Finds(pages, root, key, Get(m, key));
  }

  lemma {:induction false} DescendEnds(root: PageId, pages: Pages, shape: Shape, id: PageId, key: Key)
    requires Inv(root, pages, shape, Settled) && id in pages && InRange(key, shape[id])
    ensures var path := Descend(pages, id, key, shape[id].level);
      path[|path|-1] in pages && pages[path[|path|-1]].Leaf? && InRange(key, shape[path[|path|-1]])
    decreases shape[id].level
  {
    hide Nodes, Disjoint, Chained, Children, Rank, FindChild;
    InternalAbove(root, pages, shape, id);
    if pages[id].Internal? {
      Routes(root, pages, shape, id, key);
      DescendEnds(root, pages, shape, FindChild(pages[id], key), key);
    }
  }

  /** One page further down the path that a search takes. */
  lemma DescendStep(root: PageId, pages: Pages, shape: Shape, id: PageId, key: Key, before: seq<PageId>)
    requires Inv(root, pages, shape, Settled) && id in pages && id in shape && InRange(key, shape[id])
    ensures pages[id].Leaf? ==> before + Descend(pages, id, key, shape[id].level) == before + [id]
    ensures pages[id].Internal? ==> var c := FindChild(pages[id], key);
      && c in pages && c in shape && InRange(key, shape[c]) && shape[c].level < shape[id].level
      && before + Descend(pages, id, key, shape[id].level) == (before + [id]) + Descend(pages, c, key, shape[c].level)
  {
    hide Nodes, Disjoint, Chained, Children, Rank, FindChild;
    InternalAbove(root, pages, shape, id);
    if pages[id].Internal? {
      Routes(root, pages, shape, id, key);
      var c := FindChild(pages[id], key);
      assert before + ([id] + Descend(pages, c, key, shape[c].level)) ==
        (before + [id]) + Descend(pages, c, key, shape[c].level);
    }
  }

  // ---- what a deletion leaves ----

  /** The emptied leaf at the end of the path is freed and its parent has lost a cell; a root left with one child gives
      way to it. */
  ghost predicate Unlinked(root: PageId, pages: Pages, path: seq<PageId>, root': PageId, pages': Pages) {
    && |path| > 1 && path[|path|-2] in pages && pages[path[|path|-2]].Internal?
    && var id, pid := path[|path|-1], path[|path|-2];
       var p := Taken(pages[pid], id);
       if root == pid && p.Internal? && |p.seps| == 0 && (|path| > 2 || p.right != 0) then
         root' == p.right && pages' == pages[pid := p] - {id} - {pid}
       else root' == root && pages' == pages[pid := p] - {id}
  }

  /** One pair has gone from the leaf, and with the last one, below the root, the leaf. */
  ghost predicate DeletedFrom(root: PageId, pages: Pages, path: seq<PageId>, key: Key, root': PageId, pages': Pages) {
    && |path| > 0 && path[|path|-1] in pages && pages[path[|path|-1]].Leaf?
    && var id := path[|path|-1];
       var i := LowerBound(pages[id].pairs, key);
       && i < |pages[id].pairs| && pages[id].pairs[i].key == key
       && var pages1 := pages[id := pages[id].(pairs := RemoveAt(pages[id].pairs, i))];
          if |pages[id].pairs| > 1 || id == root then root' == root && pages' == pages1
          else Unlinked(root, pages1, path, root', pages')
  }

  /** The images of a deletion: the leaf, and after it the parent of an emptied one. */
  ghost predicate DeletionLogs(root: PageId, pages: Pages, path: seq<PageId>, key: Key, log: seq<Image>,
                               log': seq<Image>)
  {
    && |path| > 0 && path[|path|-1] in pages && pages[path[|path|-1]].Leaf?
    && var id := path[|path|-1];
       var leaf := Image(id, Erased(pages[id], key));
       if |pages[id].pairs| > 1 || id == root then log' == log + [leaf]
       else
         && |path| > 1 && path[|path|-2] in pages && pages[path[|path|-2]].Internal?
         && log' == log + [leaf] + [Image(path[|path|-2], Taken(pages[path[|path|-2]], id))]
  }

  lemma UnlinkedIs(root: PageId, pages: Pages, path: seq<PageId>, root': PageId, pages': Pages)
    requires |path| > 1 && path[|path|-2] in pages && pages[path[|path|-2]].Internal?
    requires var id, pid := path[|path|-1], path[|path|-2];
      var p := Taken(pages[pid], id);
      && p.Internal?
      && if root == pid && |p.seps| == 0 && (|path| > 2 || p.right != 0) then
           root' == p.right && pages' == pages[pid := p] - {id} - {pid}
         else root' == root && pages' == pages[pid := p] - {id}
    ensures Unlinked(root, pages, path, root', pages')
  {
  }

  // ---- what a split of the root leaf leaves ----

  /** A new root over the two halves of the old one. */
  ghost predicate Rerooted(pages: Pages, left: PageId, sep: Key, right: PageId, root': PageId, pages': Pages) {
    && root' != 0 && root' !in pages && InternalCellSize(sep) <= PAGE_SIZE
    && pages' == pages[root' := Internal(right, [Cell(sep, left)], PAGE_SIZE - InternalCellSize(sep))]
  }

  /** Both halves of a leaf and the new pair. */
  ghost predicate Halved(leaf: Page, key: Key, value: Value, l: Page, rid: PageId, q: Page)
    requires leaf.Leaf?
  {
    var all := WithPair(leaf, key, value);
    && l.Leaf? && l.right == rid && l.pairs == all[..|all|/2]
    && q.Leaf? && q.right == leaf.right && q.pairs == all[|all|/2..]
  }

  ghost predicate RootCut(pages: Pages, id: PageId, leaf: Page, key: Key, value: Value, root': PageId, pages': Pages)
    requires leaf.Leaf?
  {
    exists l, rid, q ::
      && rid != 0 && rid !in pages && Halved(leaf, key, value, l, rid, q)
      && Rerooted(pages[id := l][rid := q], id, Promoted(leaf, key, value), rid, root', pages')
  }

  lemma RootCutIs(pages: Pages, id: PageId, leaf: Page, key: Key, value: Value, all: seq<Pair>, l: Page, rid: PageId,
                  q: Page, pages1: Pages, root': PageId, pages': Pages)
    requires leaf.Leaf? && all == WithPair(leaf, key, value) && pages1 == pages[id := l][rid := q] && rid != 0
    requires rid !in pages
    requires l.Leaf? && l.right == rid && l.pairs == all[..|all|/2] && q.Leaf? && q.right == leaf.right
    requires q.pairs == all[|all|/2..]
    requires Rerooted(pages1, id, all[|all|/2].key, rid, root', pages')
    ensures RootCut(pages, id, leaf, key, value, root', pages')
  {
    hide Rerooted;
    assert Halved(leaf, key, value, l, rid, q);
  }

  lemma RerootedIs(pages: Pages, left: PageId, sep: Key, right: PageId, id: PageId)
    requires id != 0 && id !in pages && InternalInsert(EmptyInternal(0), left, sep).Some?
    ensures var p := InternalInsert(EmptyInternal(0), left, sep).value;
      p.Internal? && Rerooted(pages, left, sep, right, id, pages[id := Internal(right, p.seps, p.freeEnd)])
  {
    assert InternalInsert(EmptyInternal(0), left, sep).value.seps == [Cell(sep, left)];
  }

  class BPlusTree {
    var root: PageId
    var pages: Pages
    var issued: set<PageId>
    var log: seq<Image>
    ghost var shape: Shape
    ghost var contents: map<Key, Value>

    ghost predicate Valid()
      reads this
    {
      Holds(Settled)
    }

    /** The invariant, possibly with a cut that the parents do not know of yet. */
    ghost predicate Holds(pend: Pending)
      reads this
    {
      && Represents(root, pages, shape, pend, contents)
      && AllFit(pages)
      && pages.Keys <= issued
    }

    /** OpenBPlusTree on a new file: a single empty leaf. */
    constructor ()
      ensures Valid() && contents == map[] && AllSmall(pages) && log == []
      ensures root == 1 && pages == map[1 := EmptyLeaf(0)]
    {
      root := 1;
      pages := map[1 := EmptyLeaf(0)];
      issued := {1};
      log := [];
      shape := map[1 := Place(0, 0.0, 1.0, 0.0, 1.0)];
      contents := map[];
    }

    /** OpenBPlusTree on an existing root: the pages are taken as they are. */
    constructor Open(root: PageId, pages: Pages, ghost shape: Shape, ghost m: map<Key, Value>)
      requires Represents(root, pages, shape, Settled, m) && AllFit(pages)
      ensures Valid() && this.root == root && this.pages == pages && this.shape == shape && contents == m && log == []
    {
      hide *;
      this.root := root;
      this.pages := pages;
      issued := pages.Keys;
      log := [];
      this.shape := shape;
      contents := m;
      new;
      NowHolds(Settled);
    }

    /** The pages a search for the key goes through. */
    ghost function PathOf(key: Key): (path: seq<PageId>)
      reads this
      ensures |path| > 0 && path[0] == root && Linked(pages, path, key)
    {
      Descend(pages, root, key, if root in shape then shape[root].level else 0)
    }

    method FindLeafPath(key: Key) returns (path: seq<PageId>)
      requires Valid()
      ensures path == PathOf(key)
      ensures path[|path|-1] in pages && pages[path[|path|-1]].Leaf? && InRange(key, shape[path[|path|-1]])
    {
      hide *;
      NowUnfolded();
      PathStarts(key);
      path := [];
      var pageID := root;
      while true
        invariant pageID in pages && pageID in shape && InRange(key, shape[pageID])
        invariant path + Descend(pages, pageID, key, shape[pageID].level) == PathOf(key)
        decreases shape[pageID].level
      {
        DescendStep(root, pages, shape, pageID, key, path);
        if pages[pageID].Leaf? {
          path := path + [pageID];
          return;
        }
        path := path + [pageID];
        pageID := FindChild(pages[pageID], key);
      }
    }

    lemma PathStarts(key: Key)
      requires Inv(root, pages, shape, Settled)
      ensures root in pages && root in shape && InRange(key, shape[root])
      ensures [] + Descend(pages, root, key, shape[root].level) == PathOf(key)
    {
      RootHoldsAll(root, pages, shape, key);
    }

    /** Looks a key up; the map decides the answer. */
    method Search(key: Key) returns (r: Option<Value>)
      requires Valid()
      ensures r == Get(contents, key)
    {
      var pageID := root;
      RootHoldsAll(root, pages, shape, key);
      while true
        invariant pageID in pages && InRange(key, shape[pageID])
        decreases shape[pageID].level
      {
        hide Nodes, Disjoint, Chained, Children, AllFit, Lookup;
        if pages[pageID].Leaf? {
          assert Agrees(pages[pageID], shape[pageID], contents);
          return Lookup(pages[pageID].pairs, key);
        }
        Routes(root, pages, shape, pageID, key);
        pageID := FindChild(pages[pageID], key);
      }
    }

    // ---- insertion ----

    /** The allocator hands out any page that is not in use (FreeList proves this of the free list). */
    method NewPageId() returns (id: PageId)
      modifies this`issued
      ensures id != 0 && id !in old(issued) && issued == old(issued) + {id}
    {
      FreshId(issued);
      id :| id != 0 && id !in issued;
      issued := issued + {id};
    }

    /** flushPage: appends the page's image to the log of the running transaction. */
    method FlushPage(id: PageId)
      requires id in pages
      modifies this`log
      ensures log == old(log) + [Image(id, pages[id])]
    {
      log := log + [Image(id, pages[id])];
    }

    /** What every step of a split can rely on, whatever has become of the tree. */
    ghost predicate Sane()
      reads this
    {
      AllFit(pages) && pages.Keys <= issued
    }

    lemma NowHolds(pend: Pending)
      requires Represents(root, pages, shape, pend, contents) && AllFit(pages) && pages.Keys <= issued
      ensures Holds(pend) && (pend.Settled? ==> Valid())
    {
    }

    lemma NowSane()
      requires AllFit(pages) && pages.Keys <= issued
      ensures Sane()
    {
    }

    lemma Unfolded(pend: Pending)
      ensures Sane() ==> AllFit(pages) && pages.Keys <= issued
      ensures Holds(pend) ==> Represents(root, pages, shape, pend, contents)
    {
    }

    lemma NowUnfolded()
      requires Valid()
      ensures Represents(root, pages, shape, Settled, contents) && AllFit(pages) && pages.Keys <= issued
      ensures Inv(root, pages, shape, Settled) && pages.Keys == shape.Keys
    {
    }

    /** When `whole` holds the pages are a search tree with one cut; otherwise a separator has been repeated below. */
    method CreateNewRoot(left: PageId, sep: Key, right: PageId, ghost key: Key, ghost whole: bool) returns (r: Outcome)
      requires Sane() && left == root && (whole ==> Holds(Split(left, sep, right)))
      modifies this
      ensures contents == old(contents) && r == if old(Overflows(pages, [], sep)) then NodeFull else Done
      ensures r.Done? ==> LogsTo(old(pages), old(log), pages, log)
      ensures r.Done? ==> Reaches(pages, root, key, old(Target(pages, [], left, sep, right, key)))
      ensures r.Done? && whole ==> Valid()
      ensures r.Done? ==> Rerooted(old(pages), left, sep, right, root, pages)
      ensures r.NodeFull? && whole ==> FindsAll(pages, root, Without(contents, Rank(sep), 1.0))
      ensures old(AllSmall(pages)) && InternalCellSize(sep) <= MAX_CELL ==> r.Done? && AllSmall(pages)
      ensures forall q :: q in old(pages) ==> q in pages && pages[q] == old(pages)[q]
    {
      hide *;
      Unfolded(Split(left, sep, right));
      var id := NewPageId();
      RootRoom(pages, left, sep, right);
      var p := InternalInsert(EmptyInternal(0), left, sep);
      if p.None? {
        if whole {
          RootFull(pages, shape, left, sep, right, contents, id);
        }
        return NodeFull;
      }
      var page := Internal(right, p.value.seps, p.value.freeEnd);
      if whole {
        NewRootStep(pages, shape, Split(left, sep, right), contents, id, page.freeEnd);
        shape := Grown(shape, Split(left, sep, right), id);
      }
      LogsOne(pages, log, id, page);
      RootTarget(pages, left, sep, right, key, id, page.freeEnd);
      OneFits(pages, id, page);
      RerootedIs(pages, left, sep, right, id);
      pages := pages[id := page];
      root := id;
      FlushPage(id);
      if whole {
        NowHolds(Settled);
      }
      r := Done;
    }

    /** The separator of a cut goes to the lowest page of the path, which may have to be cut itself. */
    method InsertIntoParent(path: seq<PageId>, left: PageId, sep: Key, right: PageId, ghost key: Key, ghost whole: bool)
      returns (r: Outcome)
      requires Sane() && Ladder(root, pages, path, left, sep, key)
      requires whole ==> Holds(Split(left, sep, right)) && !Repeats(pages, path, sep)
      modifies this
      ensures contents == old(contents) && r == if old(Overflows(pages, path, sep)) then NodeFull else Done
      ensures r.Done? ==> LogsTo(old(pages), old(log), pages, log)
      ensures r.Done? ==> Reaches(pages, root, key, old(Target(pages, path, left, sep, right, key)))
      ensures r.Done? && whole ==> Valid()
      ensures r.Done? && old(Repeats(pages, path, sep)) ==> exists a, b :: Broken(pages, a, b)
      ensures r.NodeFull? && whole ==> FindsAll(pages, root, old(KeptMap(pages, shape, contents, path, sep)))
      ensures r.Done? && |path| == 0 ==> Rerooted(old(pages), left, sep, right, root, pages)
      ensures old(AllSmall(pages)) && InternalCellSize(sep) <= MAX_CELL ==> r.Done? && AllSmall(pages)
      ensures forall q :: q in old(pages) && q !in path ==> q in pages && pages[q] == old(pages)[q]
      decreases |path|, 1
    {
      if |path| == 0 {
        hide *;
        TopOfPath(root, pages, path, left, sep, key);
        r := CreateNewRoot(left, sep, right, key, whole);
        return;
      }
      var parentID := path[|path|-1];
      assert Rung(pages, parentID, key, sep);
      var parent := pages[parentID];
      var p := InternalInsert(parent, left, sep);
      assert InternalInsert(parent, 0, sep).Some? == p.Some?;
      hide *;
      if p.None? {
        r := SplitInternalNode(path, left, sep, right, key, whole);
        return;
      }
      RoomMeans(pages, path, sep);
      LinkHalf(path, left, sep, right, key, whole, p.value);
      r := Done;
    }

    /** The parent has room: the new separator goes in and the pointers around it are put right. */
    method LinkHalf(path: seq<PageId>, left: PageId, sep: Key, right: PageId, ghost key: Key, ghost whole: bool,
                    p: Page)
      requires Sane() && Ladder(root, pages, path, left, sep, key) && |path| > 0
      requires whole ==> Holds(Split(left, sep, right)) && Lookup(pages[path[|path|-1]].seps, sep) == None
      requires path[|path|-1] in pages && pages[path[|path|-1]].Internal?
      requires InternalInsert(pages[path[|path|-1]], left, sep) == Some(p)
      modifies this
      ensures contents == old(contents) && LogsTo(old(pages), old(log), pages, log)
      ensures Reaches(pages, root, key, old(Target(pages, path, left, sep, right, key)))
      ensures whole ==> Valid()
      ensures old(Lookup(pages[path[|path|-1]].seps, sep)) != None ==> exists a, b :: Broken(pages, a, b)
      ensures old(AllSmall(pages)) && InternalCellSize(sep) <= MAX_CELL ==> AllSmall(pages)
      ensures forall q :: q in old(pages) && q !in path ==> q in pages && pages[q] == old(pages)[q]
    {
      hide *;
      var parentID := path[|path|-1];
      var parent := pages[parentID];
      LastRung(root, pages, path, left, sep, key);
      Inserted(parent, left, sep, p);
      Unfolded(Split(left, sep, right));
      FirstOfKey(parent.seps, sep, left);
      var seps, rightPtr := FixPointers(p.seps, parent.right, sep, left, right, LowerBound(parent.seps, sep));
      LinkedPage(parent, left, sep, right, p.freeEnd, p.seps, seps, rightPtr);
      var page := Internal(rightPtr, seps, p.freeEnd);
      LinkSteps(root, pages, shape, contents, path, left, sep, right, key, whole, page, p);
      LogsOne(pages, log, parentID, page);
      pages := pages[parentID := page];
      FlushPage(parentID);
      if whole {
        NowHolds(Settled);
      }
    }

    /** Both halves of a page that has been cut, written and flushed. */
    method WriteHalves(id: PageId, l: Page, rid: PageId, q: Page)
      requires id != rid
      modifies this`pages, this`log
      ensures pages == old(pages)[id := l][rid := q]
      ensures log == old(log) + [Image(id, l)] + [Image(rid, q)] && LogsTo(old(pages), old(log), pages, log)
    {
      hide *;
      LogsTwo(pages, log, id, l, rid, q);
      pages := pages[id := l][rid := q];
      FlushPage(id);
      FlushPage(rid);
    }

    /** The parent has no room: its cells and the new one are written to two pages, around a middle one. */
    method SplitInternalNode(path: seq<PageId>, left: PageId, sep: Key, right: PageId, ghost key: Key,
                             ghost whole: bool)
      returns (r: Outcome)
      requires Sane() && Ladder(root, pages, path, left, sep, key) && |path| > 0
      requires path[|path|-1] in pages && pages[path[|path|-1]].Internal?
      requires InternalInsert(pages[path[|path|-1]], 0, sep).None?
      requires whole ==> Holds(Split(left, sep, right)) && !Repeats(pages, path, sep)
      modifies this
      ensures contents == old(contents) && r == if old(Overflows(pages, path, sep)) then NodeFull else Done
      ensures r.Done? ==> LogsTo(old(pages), old(log), pages, log)
      ensures r.Done? ==> Reaches(pages, root, key, old(Target(pages, path, left, sep, right, key)))
      ensures r.Done? && whole ==> Valid()
      ensures r.Done? && old(Repeats(pages, path, sep)) ==> exists a, b :: Broken(pages, a, b)
      ensures r.NodeFull? && whole ==> FindsAll(pages, root, old(KeptMap(pages, shape, contents, path, sep)))
      ensures old(AllSmall(pages)) && InternalCellSize(sep) <= MAX_CELL ==> r.Done? && AllSmall(pages)
      ensures forall q :: q in old(pages) && q !in path ==> q in pages && pages[q] == old(pages)[q]
      decreases |path|, 0
    {
      hide *;
      var nodeID := path[|path|-1];
      var node := pages[nodeID];
      LastRung(root, pages, path, left, sep, key);
      Unfolded(Split(left, sep, right));
      FitsAt(pages, nodeID);
      var seps, rightPtr := GatherSeps(node, left, sep, right);
      var all := Internal(rightPtr, seps, 0);
      var mid := |seps| / 2;
      var rightID := NewPageId();
      var l, q, ok, n := RewriteHalves(node.right, all);
      ghost var root0, pages0, log0 := root, pages, log;
      RepeatsWithoutRoom(pages, path, sep);
      RungsStay(root, pages, path, left, sep, key, pages[nodeID := l][rightID := q]);
      SplitCases(root, pages, path, left, sep, right, key, pages[nodeID := l][rightID := q]);
      if !ok {
        if whole {
          RepresentsMeans(root, pages, shape, Split(left, sep, right), contents);
          FullSteps(root, pages, shape, contents, path, left, sep, right, key, l, n);
        }
        pages := pages[nodeID := l];
        return NodeFull;
      }
      SplitSteps(root, pages, shape, contents, path, left, sep, right, key, whole, l, rightID, q);
      if whole {
        RepresentsMeans(root, pages, shape, Split(left, sep, right), contents);
        KeptSteps(root, pages, shape, contents, path, left, sep, right, key, pages[nodeID := l][rightID := q], rightID);
        shape := CutNode(pages[nodeID := all], shape, nodeID, mid, rightID);
      }
      WriteHalves(nodeID, l, rightID, q);
      ghost var pages1, log1 := pages, log;
      NowSane();
      if Small(all) {
        SmallSep(all, mid);
      }
      if whole {
        NowHolds(Split(nodeID, seps[mid].key, rightID));
      }
      r := InsertIntoParent(path[..|path|-1], nodeID, seps[mid].key, rightID, key, whole);
      if r.Done? {
        LogsChain(pages0, log0, pages1, log1, pages, log);
        SplitTarget(root0, pages0, path, left, sep, right, key, l, q, rightID, root, pages);
        if Lookup(node.seps, sep) != None {
          BrokenKept(pages1, nodeID, rightID, pages);
        }
      }
    }

    /** Rewrites the leaf as two and hands the first key of the right one to the parent.
        When a half does not fit, the leaf has lost what was not rewritten. */
    method SplitAndInsert(path: seq<PageId>, key: Key, value: Value, ghost before: Pages) returns (r: Outcome)
      requires Valid() && |path| > 0 && path[0] == root && Linked(pages, path, key)
      requires var id := path[|path|-1];
        && id in pages && pages[id].Leaf? && InRange(key, shape[id]) && Lookup(pages[id].pairs, key) == None
        && before.Keys == pages.Keys && before[id := pages[id]] == pages
      modifies this
      ensures var leaf, up := old(pages[path[|path|-1]]), path[..|path|-1];
        var sep := Promoted(leaf, key, value);
        && r == (if LeafOverflows(leaf, key, value) then LeafFull
                 else if old(Overflows(pages, up, sep)) then NodeFull else Done)
        && (r.Done? ==> LogsTo(before, old(log), pages, log))
        && (r.Done? ==> (Finds(pages, root, key, Some(value)) <==> old(Lands(pages, up, sep))))
        && (r.Done? && !old(Repeats(pages, up, sep)) ==> Valid() && contents == old(contents)[key := value])
        && (r.Done? && old(Repeats(pages, up, sep)) ==> exists a, b :: Broken(pages, a, b))
        && (r.LeafFull? ==>
              && Valid() && contents == LeafKept(old(contents), leaf, old(shape[path[|path|-1]]), key, value)
              && contents != old(contents)[key := value])
        && (r.NodeFull? && !old(Repeats(pages, up, sep)) ==>
              FindsAll(pages, root, old(KeptMap(pages, shape, contents[key := value], up, sep))))
      ensures r.Done? && |path| == 1 ==> RootCut(before, path[0], old(pages[path[0]]), key, value, root, pages)
      ensures old(AllSmall(pages)) && LeafCellSize(key, value) <= MAX_CELL ==> r.Done? && AllSmall(pages)
    {
      hide *;
      var leafID := path[|path|-1];
      var leaf := pages[leafID];
      NowUnfolded();
      LeafSorted(root, pages, shape, leafID);
      FitsAt(pages, leafID);
      ghost var up := path[..|path|-1];
      LinkedPages(pages, path, key);
      var rightID := NewPageId();
      var all, l, q, ok, n := GatherPairs(leaf, Cell(key, value), rightID);
      var mid := |all| / 2;
      PairsAre(leaf, key, value, all);
      LeafKeptIs(contents, leaf, shape[leafID], key, value, all, n);
      if !ok {
        TruncateLeaf(root, pages, shape, contents, leafID, Cell(key, value), all, n, l);
        contents := Without(contents[key := value], Rank(all[n].key), shape[leafID].hi);
        pages := pages[leafID := l];
        NowHolds(Settled);
        return LeafFull;
      }
      ghost var pages0 := pages;
      SplitLeaf(root, pages, shape, contents, path, key, value, all, mid, l, rightID, q);
      LogsTwo(before, log, leafID, l, rightID, q);
      assert before[leafID := l][rightID := q] == pages[leafID := l][rightID := q];
      AllInRange(leaf, key, value, all, shape[leafID]);
      CutLo(shape, leafID, Rank(all[mid].key), rightID);
      ghost var shape0 := shape;
      shape := Cut(shape, leafID, Rank(all[mid].key), Middle(shape[leafID]), rightID);
      contents := contents[key := value];
      pages := pages[leafID := l][rightID := q];
      RepresentsMeans(root, pages, shape, Split(leafID, all[mid].key, rightID), contents);
      FlushPage(leafID);
      FlushPage(rightID);
      ghost var pages1, log1 := pages, log;
      NowSane();
      NowHolds(Split(leafID, all[mid].key, rightID));
      CutSteps(root, pages0, shape0, shape, contents, path, key, all, l, rightID, q, shape[leafID].lo);
      ghost var whole := !Repeats(pages1, up, all[mid].key);
      r := InsertIntoParent(path[..|path|-1], leafID, all[mid].key, rightID, key, whole);
      if r.Done? {
        LogsChain(before, old(log), pages1, log1, pages, log);
        TargetIs(pages1, up, leafID, all[mid].key, rightID, key);
        LeafEnds(pages, root, key, value, all, leafID, rightID, Lands(pages1, up, all[mid].key));
        if |path| == 1 {
          RootCutIs(before, leafID, leaf, key, value, all, l, rightID, q, pages1, root, pages);
        }
      }
    }

    lemma LeafAtEnd(key: Key)
      requires Valid()
      ensures var path := PathOf(key);
        var id := path[|path|-1];
        id in pages && pages[id].Leaf? && id in shape && InRange(key, shape[id])
    {
      hide Nodes, Disjoint, Chained, Children, Answers, Rank, Descend, AllFit;
      InRoot(root, pages, shape, key);
      DescendEnds(root, pages, shape, root, key);
    }

    /** The leaf that the key belongs to, with any old pair of the key taken out. */
    ghost function LeafFor(key: Key): (leaf: Page)
      requires Valid()
      reads this
      ensures leaf.Leaf?
    {
      LeafAtEnd(key);
      Erased(pages[PathOf(key)[|PathOf(key)|-1]], key)
    }

    /** The page has no room for the pair. */
    ghost predicate Splits(key: Key, value: Value)
      requires Valid()
      reads this
    {
      LeafInsert(LeafFor(key), key, value).None?
    }

    /** The split promotes a key that the page which has to keep it has already. */
    ghost predicate RepeatsSeparator(key: Key, value: Value)
      requires Valid()
      reads this
    {
      Splits(key, value) && Repeats(pages, PathOf(key)[..|PathOf(key)|-1], Promoted(LeafFor(key), key, value))
    }

    /** The new pair is not found any more. */
    ghost predicate LosesPair(key: Key, value: Value)
      requires Valid()
      reads this
    {
      Splits(key, value) && !Lands(pages, PathOf(key)[..|PathOf(key)|-1], Promoted(LeafFor(key), key, value))
    }

    /** How an insertion ends. */
    ghost function InsertOutcome(key: Key, value: Value): Outcome
      requires Valid()
      reads this
    {
      if !Splits(key, value) then Done
      else if LeafOverflows(LeafFor(key), key, value) then LeafFull
      else if Overflows(pages, PathOf(key)[..|PathOf(key)|-1], Promoted(LeafFor(key), key, value)) then NodeFull
      else Done
    }

    lemma OutcomeIs(key: Key, value: Value, path: seq<PageId>, erased: Page)
      requires Valid() && path == PathOf(key)
      requires path[|path|-1] in pages && pages[path[|path|-1]].Leaf? && erased == Erased(pages[path[|path|-1]], key)
      ensures erased.Leaf? && path[0] == root && Linked(pages, path, key)
      ensures var up, sep := path[..|path|-1], Promoted(erased, key, value);
        var splits := LeafInsert(erased, key, value).None?;
        && InsertOutcome(key, value) == (if !splits then Done else if LeafOverflows(erased, key, value) then LeafFull
                                         else if Overflows(pages, up, sep) then NodeFull else Done)
        && LeafFor(key) == erased && RepeatsSeparator(key, value) == (splits && Repeats(pages, up, sep))
        && LosesPair(key, value) == (splits && !Lands(pages, up, sep))
        && ParentTakes(key, value) == Takes(pages, up, sep)
        && KeptByNode(key, value) == KeptMap(pages, shape, contents[key := value], up, sep)
        && path[|path|-1] in shape
        && KeptByLeaf(key, value) == LeafKept(contents, erased, shape[path[|path|-1]], key, value)
    {
      LeafAtEnd(key);
      hide Repeats, Lands, Takes, Overflows, LeafOverflows, Promoted, LeafInsert, Holds, Erased, KeptMap, LeafKept;
    }

    /** What an insertion that ends with LeafFull leaves of the map. */
    ghost function KeptByLeaf(key: Key, value: Value): map<Key, Value>
      requires Valid()
      reads this
    {
      LeafAtEnd(key);
      LeafKept(contents, LeafFor(key), shape[PathOf(key)[|PathOf(key)|-1]], key, value)
    }

    lemma KeptWithin(key: Key, value: Value)
      requires Valid()
      ensures KeptByLeaf(key, value).Keys <= contents.Keys + {key}
    {
      hide Holds, Promoted, WithPair, Fitting;
      LeafAtEnd(key);
    }

    /** What is still found after an insertion that ends with NodeFull. */
    ghost function KeptByNode(key: Key, value: Value): map<Key, Value>
      requires Valid()
      reads this
    {
      KeptMap(pages, shape, contents[key := value], PathOf(key)[..|PathOf(key)|-1], Promoted(LeafFor(key), key, value))
    }

    /** The parent of the leaf has room for the promoted key, or more than two separators to share out. */
    ghost predicate ParentTakes(key: Key, value: Value)
      requires Valid()
      reads this
    {
      Takes(pages, PathOf(key)[..|PathOf(key)|-1], Promoted(LeafFor(key), key, value))
    }

    /** Insert. On success the tree is valid again and the map updated at the key, and nowhere else, exactly unless the
        split repeats a separator: then the pages are a search tree for no map at all. The new pair is found exactly
        unless it has been sent to the wrong half. */
    method Insert(key: Key, value: Value) returns (r: Outcome)
      requires Valid()
      modifies this
      ensures r == old(InsertOutcome(key, value))
      ensures old(Room(LeafFor(key))) >= LeafCellSize(key, value) + CELL_PTR_SIZE ==>
        r.Done? && root == old(root) && Valid() && contents == old(contents)[key := value]
      ensures r.Done? && !old(RepeatsSeparator(key, value)) ==> Valid() && contents == old(contents)[key := value]
      ensures r.Done? && old(RepeatsSeparator(key, value)) ==> forall shape' :: !Inv(root, pages, shape', Settled)
      ensures r.Done? ==> (Finds(pages, root, key, Some(value)) <==> !old(LosesPair(key, value)))
      ensures r.Done? && old(ParentTakes(key, value)) ==>
        (FindsAll(pages, root, old(contents)[key := value]) <==> !old(RepeatsSeparator(key, value)))
      ensures r.Done? ==> LogsTo(old(pages), old(log), pages, log)
      ensures var path, p := old(PathOf(key)), old(LeafInsert(LeafFor(key), key, value));
        && (p.Some? ==> root == old(root) && pages == old(pages)[path[|path|-1] := p.value])
        && (r.Done? && p.None? && |path| == 1 ==>
              RootCut(old(pages), path[0], old(LeafFor(key)), key, value, root, pages))
      ensures r.LeafFull? ==>
        Valid() && contents == old(KeptByLeaf(key, value)) && contents != old(contents)[key := value]
      ensures r.NodeFull? && !old(RepeatsSeparator(key, value)) ==> FindsAll(pages, root, old(KeptByNode(key, value)))
      ensures old(AllSmall(pages)) && LeafCellSize(key, value) <= MAX_CELL ==> r.Done? && AllSmall(pages)
    {
      hide *;
      NowUnfolded();
      var path := FindLeafPath(key);
      var leafID := path[|path|-1];
      ghost var before := pages;
      var erased := Erased(pages[leafID], key);
      OutcomeIs(key, value, path, erased);
      LeafSorted(root, pages, shape, leafID);
      EraseStep(root, pages, shape, contents, leafID, key, path);
      EraseOutcome(pages, shape, contents[key := value], path, erased, key, Promoted(erased, key, value));
      pages := pages[leafID := erased];
      contents := contents - {key};
      assert contents[key := value] == old(contents)[key := value];
      LeafKeptSame(old(contents), contents, erased, shape[leafID], key, value);
      NowHolds(Settled);
      var p := LeafInsert(erased, key, value);
      LeafTakes(erased, key, value);
      if p.Some? {
        PutStep(root, pages, shape, contents, leafID, key, value);
        LogsOne(before, log, leafID, p.value);
        assert before[leafID := p.value] == pages[leafID := p.value];
        contents := contents[key := value];
        pages := pages[leafID := p.value];
        FlushPage(leafID);
        NowHolds(Settled);
        TreeFindsAll(root, pages, shape, contents);
        FindsKey(pages, root, contents, key);
        return Done;
      }
      TakenOrLost(before, path[..|path|-1], Promoted(erased, key, value));
      ghost var m := contents[key := value];
      r := SplitAndInsert(path, key, value, before);
      if r.Done? {
        NoTree(root, pages);
        if Valid() {
          NowUnfolded();
          TreeFindsAll(root, pages, shape, contents);
        }
        if FindsAll(pages, root, m) {
          FindsKey(pages, root, m, key);
        }
      }
    }

    // ---- deletion ----

    /** Deleting the key leaves its leaf empty though it is not the root: the case handleUnderflow is for. */
    ghost predicate RunsEmpty(id: PageId, key: Key)
      reads this
    {
      && id in pages && id in shape && pages[id].Leaf? && InRange(key, shape[id])
      && |pages[id].pairs| == 1 && pages[id].pairs[0].key == key && id != root
    }

    lemma EmptyHasKey(id: PageId, key: Key)
      requires Valid() && RunsEmpty(id, key)
      ensures key in contents
    {
      hide Rank;
      LookupFound(pages[id].pairs, 0);
      assert Agrees(pages[id], shape[id], contents);
    }

    /** The leaf of the key is the last child of its parent. */
    ghost predicate LastChild(key: Key)
      reads this
    {
      IsLast(pages, PathOf(key), key)
    }

    method Delete(key: Key) returns (r: Outcome)
      requires Valid()
      modifies this
      ensures r == if key in old(contents) then Done else KeyNotFound
      ensures r.KeyNotFound? ==>
        pages == old(pages) && root == old(root) && log == old(log) && Valid() && contents == old(contents)
      ensures r.Done? && (forall id :: !old(RunsEmpty(id, key))) ==>
        Valid() && contents == old(contents) - {key} && LogsTo(old(pages), old(log), pages, log)
      ensures r.Done? ==> forall id :: old(RunsEmpty(id, key)) ==>
        if old(FirstOfSeveral(pages, shape, id)) then Valid() && contents == old(contents) - {key}
        else forall shape' :: !Inv(root, pages, shape', Settled)
      ensures r.Done? ==> forall id :: old(RunsEmpty(id, key)) ==>
        (FindsAll(pages, root, old(contents) - {key}) <==> !old(LastChild(key)))
      ensures r.Done? ==> DeletedFrom(old(root), old(pages), old(PathOf(key)), key, root, pages)
      ensures r.Done? ==> DeletionLogs(old(root), old(pages), old(PathOf(key)), key, old(log), log)
      ensures old(AllSmall(pages)) ==> AllSmall(pages)
    {
      hide Rank, Nodes, Disjoint, Chained, Children, Answers, LowerBound, LogsTo, Cost, Sorted, Lookup, Linked, Small;
      hide Fits, Inv;
      hide FindsAll, IsLast;
      var path := FindLeafPath(key);
      var leafID := path[|path|-1];
      EraseStep(root, pages, shape, contents, leafID, key, path);
      var d := LeafDelete(pages[leafID], key);
      if d.None? {
        return KeyNotFound;
      }
      ghost var pages0 := pages;
      LogsOne(pages, log, leafID, d.value);
      SmallKept(pages, leafID, key);
      LastSame(pages, path, key, d.value);
      EmptiedLeaf(root, pages, shape, contents, leafID, key);
      assert RunsEmpty(leafID, key) <==> |d.value.pairs| == 0 && leafID != root;
      assert forall id :: RunsEmpty(id, key) ==> id == leafID;
      FirstSame(pages, shape, leafID, d.value);
      pages := pages[leafID := d.value];
      contents := contents - {key};
      FlushPage(leafID);
      HandleUnderflow(path, key);
      r := Done;
    }

    /** FreePage: the page leaves the pool and its ID can be handed out again. */
    method FreePage(id: PageId)
      modifies this`pages, this`issued
      ensures pages == old(pages) - {id} && issued == old(issued) - {id}
    {
      pages := pages - {id};
      issued := issued - {id};
    }

    /** handleUnderflow: an empty leaf's cell is taken out of the parent and the leaf is freed. */
    method HandleUnderflow(path: seq<PageId>, ghost key: Key)
      requires Valid() && |path| > 0 && path[0] == root && Linked(pages, path, key)
      requires var id := path[|path|-1]; id in pages && pages[id].Leaf? && InRange(key, shape[id])
      modifies this
      ensures var id := path[|path|-1];
        if id == old(root) || |old(pages)[id].pairs| > 0 then
          pages == old(pages) && root == old(root) && log == old(log) && Valid() && contents == old(contents)
        else if old(FirstOfSeveral(pages, shape, id)) then Valid() && contents == old(contents)
        else forall shape' :: !Inv(root, pages, shape', Settled)
      ensures var id := path[|path|-1];
        id != old(root) && |old(pages)[id].pairs| == 0 ==>
          (FindsAll(pages, root, old(contents)) <==> !old(IsLast(pages, path, key)))
      ensures var id := path[|path|-1];
        id != old(root) && |old(pages)[id].pairs| == 0 ==>
          && Unlinked(old(root), old(pages), path, root, pages)
          && log == old(log) + [Image(path[|path|-2], Taken(old(pages)[path[|path|-2]], id))]
      ensures old(AllSmall(pages)) ==> AllSmall(pages)
    {
      hide *;
      NowUnfolded();
      var leafID := path[|path|-1];
      ghost var i := PathEnds(root, pages, shape, path, key);
      if |path| <= 1 || |pages[leafID].pairs| > 0 {
        return;
      }
      var parentID := path[|path|-2];
      ghost var root0, pages0, shape0 := root, pages, shape;
      LastIs(root, pages, shape, path, key);
      ghost var first := FirstOfSeveral(pages, shape, leafID);
      var parent := TakeCell(pages[parentID], leafID);
      SmallTaken(pages, parentID, leafID);
      if first {
        TakeOut(root, pages, shape, contents, leafID, parentID, i);
        shape := Merged(shape, leafID, ChildAt(pages[parentID], 1));
        DropFits(pages, parentID, leafID);
      }
      TakenInternal(pages[parentID], leafID);
      pages := pages[parentID := parent];
      FlushPage(parentID);
      FreePage(leafID);
      if first {
        NowHolds(Settled);
      }
      CollapseIfLone(|path|, parentID, first);
      UnlinkedIs(root0, pages0, path, root, pages);
      UnderflowFinds(root0, pages0, shape0, old(contents), path, key, root, pages);
      if !first {
        PointsAtFreed(root0, pages0, shape0, leafID, parentID, i, root, pages);
      }
    }

    /** The end of handleUnderflow: a root left with a single child gives way to it. */
    method CollapseIfLone(pathLen: nat, parentID: PageId, ghost valid: bool)
      requires parentID in pages && pages[parentID].Internal?
      requires pathLen > 2 || parentID == root
      requires valid ==> Valid()
      modifies this
      ensures valid ==> Valid() && contents == old(contents)
      ensures old(AllSmall(pages)) ==> AllSmall(pages)
      ensures log == old(log)
      ensures var parent := old(pages)[parentID];
        if parentID == old(root) && |parent.seps| == 0 && (pathLen > 2 || parent.right != 0) then
          pages == old(pages) - {parentID} && root == parent.right
        else pages == old(pages) && root == old(root)
    {
      hide Rank, Nodes, Disjoint, Chained, Children, Answers, Cost, Sorted, Fits;
      var parent := pages[parentID];
      if pathLen > 2 {
        if |parent.seps| == 0 && parentID == root {
          if valid {
            CollapseRoot(root, pages, shape, contents);
            shape := shape - {root};
          }
          root := parent.right;
          FreePage(parentID);
        }
      } else if parentID == root {
        if |parent.seps| == 0 && parent.right != 0 {
          if valid {
            CollapseRoot(root, pages, shape, contents);
            shape := shape - {root};
          }
          root := parent.right;
          FreePage(parentID);
        }
      }
    }
  }
}
