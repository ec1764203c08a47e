/** Which insertions repeat a separator (internal/storage/btree.go:242-375), told from the tree before the call, and
    an input on which one does. */
module LoneSplit {
  import opened Keys
  import opened RecordPage
  import opened TreeShape
  import opened Descent
  import opened SplitPath
  import opened TreeDelete
  import opened BTree

  /** A separator strictly inside the range of the page at the end of a path is new to every page before it. */
  lemma StrictlyInside(root: PageId, pages: Pages, shape: Shape, path: seq<PageId>, key: Key, sep: Key)
    requires Inv(root, pages, shape, Settled) && Linked(pages, path, key) && |path| > 0
    requires var id := path[|path|-1]; id in shape && shape[id].lo < Rank(sep) < shape[id].hi
    ensures NowhereOn(pages, path[..|path|-1], sep)
  {
    hide Rank, Disjoint, Chained, Children, UpperBound, Lookup;
    var n := |path| - 1;
    forall i | 0 <= i < n ensures Lookup(pages[path[i]].seps, sep) == None {
      RangesNarrow(root, pages, shape, Settled, path, key, i, n);
      assert NodeOk(pages[path[i]], shape[path[i]]);
      InGap(pages[path[i]], shape[path[i]].lo, shape[path[i]].hi, key, sep);
      NewInGap(pages[path[i]], shape[path[i]].lo, key, sep);
    }
  }

  /** The leaf would be split though it holds no pair but the new one. */
  ghost predicate Lone(t: BPlusTree, key: Key, value: Value)
    requires t.Valid()
    reads t
  {
    t.Splits(key, value) && t.LeafFor(key).pairs == []
  }

  /** The leaf of the key stands behind a separator of its parent that is the key itself: it is not the first child. */
  ghost predicate StartsAt(t: BPlusTree, key: Key)
    reads t
  {
    var path := t.PathOf(key);
    && |path| > 1 && path[|path|-2] in t.pages && t.pages[path[|path|-2]].Internal?
    && var seps := t.pages[path[|path|-2]].seps;
       var i := UpperBound(seps, key);
       i > 0 && seps[i-1].key == key
  }

  /** A key of a leaf that keeps another pair is promoted from strictly inside the leaf's range. */
  lemma PromotedInside(leaf: Page, at: Place, key: Key, value: Value)
    requires LeafOk(leaf, at.lo, at.hi) && InRange(key, at) && Lookup(leaf.pairs, key) == None && leaf.pairs != []
    ensures at.lo < Rank(Promoted(leaf, key, value)) < at.hi
  {
    hide Rank, LowerBound, Lookup;
    var all := WithPair(leaf, key, value);
    InsertSorted(leaf.pairs, Cell(key, value));
    assert Rank(all[0].key) < Rank(all[|all|/2].key);
  }

  lemma ErasedOk(leaf: Page, at: Place, key: Key)
    requires LeafOk(leaf, at.lo, at.hi)
    ensures LeafOk(Erased(leaf, key), at.lo, at.hi) && Lookup(Erased(leaf, key).pairs, key) == None
  {
    hide Rank;
    if LeafDelete(leaf, key).Some? {
      LookupRemove(leaf.pairs, LowerBound(leaf.pairs, key), key);
    }
  }

  /** Repeating a separator takes a lone split. With a separator in the parent it takes no more than that the lone key
      is the parent's separator before the leaf, so a first child is never concerned, nor is the root. */
  lemma RepeatsIff(t: BPlusTree, key: Key, value: Value)
    requires t.Valid()
    ensures t.RepeatsSeparator(key, value) ==> Lone(t, key, value) && |t.PathOf(key)| > 1
    ensures var path := t.PathOf(key);
      |path| > 1 ==>
        && path[|path|-2] in t.pages && t.pages[path[|path|-2]].Internal?
        && (|t.pages[path[|path|-2]].seps| > 0 ==>
              (t.RepeatsSeparator(key, value) <==> Lone(t, key, value) && StartsAt(t, key)))
  {
    hide *;
    t.NowUnfolded();
    t.LeafAtEnd(key);
    var path := t.PathOf(key);
    var id, up := path[|path|-1], path[..|path|-1];
    LeafSorted(t.root, t.pages, t.shape, id);
    ErasedOk(t.pages[id], t.shape[id], key);
    var leaf := Erased(t.pages[id], key);
    var sep := Promoted(leaf, key, value);
    t.OutcomeIs(key, value, path, leaf);
    LoneIs(t, key, value, path, leaf);
    LinkedPages(t.pages, path, key);
    if leaf.pairs == [] {
      PromotedAlone(leaf, key, value);
    } else {
      PromotedInside(leaf, t.shape[id], key, value);
      StrictlyInside(t.root, t.pages, t.shape, path, key, sep);
      NowhereRepeated(t.pages, up, sep);
    }
    if |path| > 1 {
      assert up[|up|-1] == path[|path|-2];
      ParentSorted(t.root, t.pages, t.shape, path[|path|-2]);
      StartsIs(t, key, path);
      if |t.pages[path[|path|-2]].seps| > 0 {
        RepeatsBelow(t.pages, up, sep);
      }
    } else {
      RepeatsNowhere(t.pages, up, sep);
    }
  }

  lemma LoneIs(t: BPlusTree, key: Key, value: Value, path: seq<PageId>, leaf: Page)
    requires t.Valid() && path == t.PathOf(key) && path[|path|-1] in t.pages && t.pages[path[|path|-1]].Leaf?
    requires leaf == Erased(t.pages[path[|path|-1]], key)
    ensures Lone(t, key, value) <==> LeafInsert(leaf, key, value).None? && leaf.pairs == []
  {
    hide LeafInsert, Erased, BPlusTree.Holds;
  }

  lemma PromotedAlone(leaf: Page, key: Key, value: Value)
    requires leaf.Leaf? && leaf.pairs == []
    ensures Promoted(leaf, key, value) == key
  {
  }

  lemma ParentSorted(root: PageId, pages: Pages, shape: Shape, id: PageId)
    requires Inv(root, pages, shape, Settled) && id in pages && pages[id].Internal?
    ensures Sorted(pages[id].seps)
  {
    assert NodeOk(pages[id], shape[id]);
  }

  lemma StartsIs(t: BPlusTree, key: Key, path: seq<PageId>)
    requires path == t.PathOf(key) && |path| > 1 && path[|path|-2] in t.pages && t.pages[path[|path|-2]].Internal?
    requires Sorted(t.pages[path[|path|-2]].seps)
    ensures StartsAt(t, key) <==> Lookup(t.pages[path[|path|-2]].seps, key) != None
  {
    Bounds(t.pages[path[|path|-2]].seps, key);
  }

  /** A page that has separators keeps the one that is passed up to it. */
  lemma RepeatsBelow(pages: Pages, up: seq<PageId>, sep: Key)
    requires |up| > 0 && up[|up|-1] in pages && pages[up[|up|-1]].Internal? && |pages[up[|up|-1]].seps| > 0
    ensures Repeats(pages, up, sep) <==> Lookup(pages[up[|up|-1]].seps, sep) != None
  {
  }

  lemma RepeatsNowhere(pages: Pages, up: seq<PageId>, sep: Key)
    requires |up| == 0
    ensures !Repeats(pages, up, sep)
  {
  }

  // ---- an input: two insertions into an empty tree ----

  const A: Key := [97]
  const B: Key := [98]

  /** A page for each of A and B, under a root. */
  predicate UnderRoot(root: PageId, pages: Pages, l: PageId, r: PageId, v: Value, w: Value) {
    && l != r && root != l && root != r && root in pages && l in pages && r in pages
    && pages[root] == Internal(r, [Cell(B, l)], PAGE_SIZE - InternalCellSize(B))
    && pages[l].Leaf? && pages[l].right == r && pages[l].pairs == [Cell(A, v)]
    && pages[r].Leaf? && pages[r].right == 0 && pages[r].pairs == [Cell(B, w)]
  }

  lemma TwoRanks()
    ensures 0.0 < Rank(A) < Rank(B) < 1.0
  {
    assert RankFrom(A, 0) == (97.0 + 1.0 + RankFrom(A, 1)) / 257.0;
    assert RankFrom(B, 0) == (98.0 + 1.0 + RankFrom(B, 1)) / 257.0;
  }

  lemma OneCost<V>(c: Cell<V>, size: Cell<V> -> nat)
    ensures Cost([c], size) == size(c) + CELL_PTR_SIZE
  {
    assert [c][..0] == [];
  }

  /** A tree whose root is a leaf. */
  lemma LeafRoot(t: BPlusTree, key: Key)
    requires t.root in t.pages && t.pages[t.root].Leaf?
    ensures t.PathOf(key) == [t.root]
  {
  }

  lemma FirstErased(v: Value)
    ensures Erased(EmptyLeaf(0), A) == EmptyLeaf(0)
    ensures |v| == 2040 ==> LeafInsert(EmptyLeaf(0), A, v) == Some(Leaf(0, [Cell(A, v)], 2049))
  {
    assert InsertAt([], 0, Cell(A, v)) == [Cell(A, v)];
  }

  lemma SecondErased(v: Value, w: Value)
    requires |v| == 2040 && |w| == 2040
    ensures var leaf := Leaf(0, [Cell(A, v)], 2049);
      && Erased(leaf, B) == leaf && LeafInsert(leaf, B, w).None? && !LeafOverflows(leaf, B, w)
      && WithPair(leaf, B, w) == [Cell(A, v), Cell(B, w)] && Promoted(leaf, B, w) == B
  {
    TwoRanks();
    hide Rank;
    var all := [Cell(A, v), Cell(B, w)];
    assert LowerBound([Cell(A, v)], B) == 1;
    assert WithPair(Leaf(0, [Cell(A, v)], 2049), B, w) == all;
    assert all[..1] == [Cell(A, v)] && all[1..] == [Cell(B, w)];
    OneCost(Cell(A, v), PairSize);
    OneCost(Cell(B, w), PairSize);
  }

  lemma NothingAbove(pages: Pages)
    ensures !Repeats(pages, [], B) && !Overflows(pages, [], B)
  {
  }

  lemma HalvedRoot(pages: Pages, v: Value, w: Value, root: PageId, pages': Pages) returns (r: PageId)
    requires |v| == 2040 && |w| == 2040 && 1 in pages
    requires RootCut(pages, 1, Leaf(0, [Cell(A, v)], 2049), B, w, root, pages')
    ensures UnderRoot(root, pages', 1, r, v, w)
  {
    SecondErased(v, w);
    var leaf := Leaf(0, [Cell(A, v)], 2049);
    var l, rid, q :|
      && rid != 0 && rid !in pages && Halved(leaf, B, w, l, rid, q)
      && Rerooted(pages[1 := l][rid := q], 1, Promoted(leaf, B, w), rid, root, pages');
    r := rid;
    hide Promoted, WithPair, Cost;
    var all := [Cell(A, v), Cell(B, w)];
    assert all[..1] == [Cell(A, v)] && all[1..] == [Cell(B, w)];
  }

  /** Inserting A and B with values of 2040 bytes into an empty tree. */
  method TwoInserts(v: Value, w: Value) returns (t: BPlusTree, ghost r: PageId)
    requires |v| == 2040 && |w| == 2040
    ensures fresh(t) && t.Valid() && t.contents == map[A := v, B := w] && UnderRoot(t.root, t.pages, 1, r, v, w)
  {
    hide *;
    t := new BPlusTree();
    LeafRoot(t, A) by { EmptyIsLeaf(); }
    FirstErased(v);
    EmptyIsLeaf();
    t.OutcomeIs(A, v, [1], EmptyLeaf(0));
    var done := t.Insert(A, v);
    LeafRoot(t, B);
    SecondErased(v, w);
    assert [1][..0] == [];
    NothingAbove(t.pages);
    t.OutcomeIs(B, w, [1], Leaf(0, [Cell(A, v)], 2049));
    ghost var pages := t.pages;
    done := t.Insert(B, w);
    r := HalvedRoot(pages, v, w, t.root, t.pages);
  }

  lemma EmptyIsLeaf()
    ensures EmptyLeaf(0).Leaf?
  {
  }

  lemma UnderRootPath(t: BPlusTree, l: PageId, r: PageId, v: Value, w: Value)
    requires t.Valid() && UnderRoot(t.root, t.pages, l, r, v, w)
    ensures t.PathOf(B) == [t.root, r]
  {
    assert FindChild(t.pages[t.root], B) == r by { TwoRanks(); }
    hide Rank, FindChild, Answers, Nodes, Chained, Disjoint, Children, AllFit;
    InternalAbove(t.root, t.pages, t.shape, t.root);
    var h := t.shape[t.root].level;
    assert Descend(t.pages, r, B, h - 1) == [r];
    assert Descend(t.pages, t.root, B, h) == [t.root] + Descend(t.pages, r, B, h - 1);
  }

  /** What is left of the leaf of B has no room for another value of 2040 bytes. */
  lemma UnderRootErased(p: Page, w: Value, x: Value)
    requires p.Leaf? && p.pairs == [Cell(B, w)] && Fits(p) && |w| == 2040 && |x| == 2040
    ensures var e := Erased(p, B);
      && e == Leaf(p.right, [], p.freeEnd) && Promoted(e, B, x) == B
      && LeafInsert(e, B, x).None? && !LeafOverflows(e, B, x)
  {
    hide Rank;
    var e := Leaf(p.right, [], p.freeEnd);
    var all := WithPair(e, B, x);
    assert all == [Cell(B, x)] && all[..0] == [] && all[0..] == [Cell(B, x)];
    OneCost(Cell(B, w), PairSize);
    OneCost(Cell(B, x), PairSize);
  }

  lemma UnderRootAbove(root: PageId, pages: Pages, l: PageId, r: PageId, v: Value, w: Value)
    requires UnderRoot(root, pages, l, r, v, w)
    ensures Repeats(pages, [root], B) && !Lands(pages, [root], B) && !Overflows(pages, [root], B)
  {
    LookupFound([Cell(B, l)], 0) by { TwoRanks(); }
  }

  /** Writing B once more repeats the root's separator. */
  lemma UnderRootOutcome(t: BPlusTree, l: PageId, r: PageId, v: Value, w: Value, x: Value)
    requires t.Valid() && UnderRoot(t.root, t.pages, l, r, v, w) && |w| == 2040 && |x| == 2040
    ensures t.InsertOutcome(B, x) == Done && t.RepeatsSeparator(B, x) && t.LosesPair(B, x)
  {
    hide *;
    t.NowUnfolded();
    UnderRootPath(t, l, r, v, w);
    UnderRootPage(t.root, t.pages, l, r, v, w);
    FitsAt(t.pages, r);
    UnderRootErased(t.pages[r], w, x);
    UnderRootAbove(t.root, t.pages, l, r, v, w);
    t.OutcomeIs(B, x, [t.root, r], Erased(t.pages[r], B));
    assert [t.root, r][..1] == [t.root];
  }

  lemma UnderRootPage(root: PageId, pages: Pages, l: PageId, r: PageId, v: Value, w: Value)
    requires UnderRoot(root, pages, l, r, v, w)
    ensures r in pages && pages[r].Leaf? && pages[r].pairs == [Cell(B, w)]
  {
  }

  /** An empty tree, an insertion of A, one of B and another one of B, all with values of 2040 bytes: the last one
      reports success as well, yet the new value of B is not found, and no search tree is left. */
  method UpdateIsLost(v: Value, w: Value, x: Value) returns (t: BPlusTree, r: Outcome)
    requires |v| == 2040 && |w| == 2040 && |x| == 2040
    ensures r == Done && !Finds(t.pages, t.root, B, Some(x)) && forall shape' :: !Inv(t.root, t.pages, shape', Settled)
  {
    hide *;
    ghost var rid;
    t, rid := TwoInserts(v, w);
    UnderRootOutcome(t, 1, rid, v, w, x);
    r := t.Insert(B, x);
  }

  lemma UnderRootEmptied(t: BPlusTree, l: PageId, r: PageId, v: Value, w: Value)
    requires t.Valid() && UnderRoot(t.root, t.pages, l, r, v, w)
    ensures t.RunsEmpty(r, B) && !FirstOfSeveral(t.pages, t.shape, r) && t.LastChild(B)
  {
    UnderRootPath(t, l, r, v, w);
    t.LeafAtEnd(B);
    TwoRanks();
    hide Rank, Answers, Chained, Disjoint, AllFit;
    assert ChildOk(t.pages, t.shape, Settled, t.root, 0);
    assert ChildAt(t.pages[t.root], 1) == r;
    assert NodeOk(t.pages[l], t.shape[l]);
  }

  lemma TwoKeys(v: Value, w: Value)
    ensures B in map[A := v, B := w] && map[A := v, B := w] - {B} == map[A := v]
  {
    assert A[0] != B[0];
  }

  /** Deleting B again empties the last child: Delete reports success, yet searches do not answer from what is left. */
  method DeleteLosesMore(v: Value, w: Value) returns (t: BPlusTree, r: Outcome)
    requires |v| == 2040 && |w| == 2040
    ensures r == Done && !FindsAll(t.pages, t.root, map[A := v])
    ensures forall shape' :: !Inv(t.root, t.pages, shape', Settled)
  {
    hide *;
    ghost var rid;
    t, rid := TwoInserts(v, w);
    UnderRootEmptied(t, 1, rid, v, w);
    TwoKeys(v, w);
    r := t.Delete(B);
  }
}
