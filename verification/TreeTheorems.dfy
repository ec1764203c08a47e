/** What the local invariant of TreeShape says about the tree as a whole. */
module TreeTheorems {
  import opened Keys
  import opened RecordPage
  import opened TreeShape

  // ---- reference definitions, by recursion from the root and without any ghost shape ----

  /** A subtree of height h whose keys lie in [lo, hi), with separators bounding the children. */
  ghost predicate IsSearchTree(pages: Pages, id: PageId, h: nat, lo: real, hi: real)
    decreases h
  {
    && id in pages
    && if h == 0 then LeafOk(pages[id], lo, hi)
       else InternalOk(pages[id], lo, hi)
            && forall i :: 0 <= i <= |pages[id].seps| ==>
                 IsSearchTree(pages, ChildAt(pages[id], i), h - 1, ChildLo(pages[id], lo, i), ChildHi(pages[id], hi, i))
  }

  /** The leaves under a page, in order. */
  ghost function InOrder(pages: Pages, id: PageId, h: nat): seq<PageId>
    decreases h, 0
  {
    if id !in pages then []
    else if pages[id].Leaf? || h == 0 then [id]
    else InOrderFrom(pages, pages[id], 0, h)
  }

  ghost function InOrderFrom(pages: Pages, p: Page, i: nat, h: nat): seq<PageId>
    requires p.Internal? && i <= |p.seps| && h > 0
    decreases h - 1, |p.seps| + 1 - i
  {
    InOrder(pages, ChildAt(p, i), h - 1) + if i < |p.seps| then InOrderFrom(pages, p, i + 1, h) else []
  }

  // ---- every subtree is a search tree of its height ----

  lemma {:induction false} SubtreeOk(root: PageId, pages: Pages, shape: Shape, id: PageId)
    requires Inv(root, pages, shape, Settled) && id in pages
    ensures IsSearchTree(pages, id, shape[id].level, shape[id].lo, shape[id].hi)
    decreases shape[id].level
  {
    hide Rank, Sorted, Disjoint, Chained;
    assert NodeOk(pages[id], shape[id]);
    if shape[id].level > 0 {
      forall i | 0 <= i <= |pages[id].seps|
        ensures IsSearchTree(pages, ChildAt(pages[id], i), shape[id].level - 1,
                             ChildLo(pages[id], shape[id].lo, i), ChildHi(pages[id], shape[id].hi, i))
      {
        assert ChildOk(pages, shape, Settled, id, i);
        SubtreeOk(root, pages, shape, ChildAt(pages[id], i));
      }
    }
  }

  // ---- the leaf chain ----

  /** Consecutive leaves that take up a stretch and answer for a range of keys, without gaps. */
  ghost predicate Tiles(pages: Pages, shape: Shape, leaves: seq<PageId>, first: Place, last: Place) {
    && |leaves| > 0
    && (forall j :: 0 <= j < |leaves| ==> leaves[j] in pages && leaves[j] in shape && pages[leaves[j]].Leaf?)
    && shape[leaves[0]].from == first.from && shape[leaves[0]].lo == first.lo
    && shape[leaves[|leaves|-1]].to == last.to && shape[leaves[|leaves|-1]].hi == last.hi
    && forall j :: 0 < j < |leaves| ==> Adjoin(shape[leaves[j-1]], shape[leaves[j]])
  }

  ghost predicate Adjoin(a: Place, b: Place) { a.to == b.from && a.hi == b.lo }

  lemma {:induction false} InOrderTiles(root: PageId, pages: Pages, shape: Shape, id: PageId)
    requires Inv(root, pages, shape, Settled) && id in pages
    ensures Tiles(pages, shape, InOrder(pages, id, shape[id].level), shape[id], shape[id])
    decreases shape[id].level, 0
  {
    hide Rank, Sorted, Disjoint, Chained;
    assert NodeOk(pages[id], shape[id]);
    if shape[id].level > 0 {
      assert ChildOk(pages, shape, Settled, id, 0);
      InOrderFromTiles(root, pages, shape, id, 0);
    }
  }

  lemma {:induction false} InOrderFromTiles(root: PageId, pages: Pages, shape: Shape, id: PageId, i: nat)
    requires Inv(root, pages, shape, Settled) && id in pages && pages[id].Internal? && i <= |pages[id].seps|
    requires shape[id].level > 0
    ensures ChildAt(pages[id], i) in shape
    ensures Tiles(pages, shape, InOrderFrom(pages, pages[id], i, shape[id].level), shape[ChildAt(pages[id], i)],
                  shape[id])
    decreases shape[id].level - 1, |pages[id].seps| + 1 - i
  {
    hide Rank, Sorted, Disjoint, Chained, Nodes, InOrder, Tiles;
    assert ChildOk(pages, shape, Settled, id, i);
    var c := ChildAt(pages[id], i);
    InOrderTiles(root, pages, shape, c);
    if i < |pages[id].seps| {
      assert ChildOk(pages, shape, Settled, id, i + 1);
      InOrderFromTiles(root, pages, shape, id, i + 1);
      TilesJoin(pages, shape, InOrder(pages, c, shape[c].level), shape[c], shape[c],
                InOrderFrom(pages, pages[id], i + 1, shape[id].level), shape[ChildAt(pages[id], i + 1)], shape[id]);
    } else {
      TilesEnd(pages, shape, InOrder(pages, c, shape[c].level), shape[c], shape[c], shape[id]);
    }
  }

  lemma TilesJoin(pages: Pages, shape: Shape, a: seq<PageId>, a0: Place, a1: Place, b: seq<PageId>, b0: Place,
                  b1: Place)
    requires Tiles(pages, shape, a, a0, a1) && Tiles(pages, shape, b, b0, b1) && Adjoin(a1, b0)
    ensures Tiles(pages, shape, a + b, a0, b1)
  {
  }

  lemma TilesEnd(pages: Pages, shape: Shape, a: seq<PageId>, a0: Place, a1: Place, b1: Place)
    requires Tiles(pages, shape, a, a0, a1) && a1.to == b1.to && a1.hi == b1.hi
    ensures Tiles(pages, shape, a + [], a0, b1)
  {
    assert a + [] == a;
  }

  /** The place in a tiling that covers the position x. */
  lemma {:induction false} TileAt(pages: Pages, shape: Shape, leaves: seq<PageId>, first: Place, last: Place, x: real)
    returns (j: nat)
    requires Tiles(pages, shape, leaves, first, last) && first.from <= x < last.to
    ensures j < |leaves| && shape[leaves[j]].from <= x < shape[leaves[j]].to
  {
    j := 0;
    while shape[leaves[j]].to <= x
      invariant j < |leaves| && shape[leaves[j]].from <= x
      decreases |leaves| - j
    {
      assert j + 1 < |leaves| ==> Adjoin(shape[leaves[j+1-1]], shape[leaves[j+1]]);
      j := j + 1;
    }
  }

  /** The right pointers, followed from the first leaf, visit the leaves in tree order and miss none. */
  lemma ChainIsInOrder(root: PageId, pages: Pages, shape: Shape)
    requires Inv(root, pages, shape, Settled)
    ensures var leaves := InOrder(pages, root, shape[root].level);
      && |leaves| > 0
      && (forall j :: 0 <= j < |leaves| ==> leaves[j] in pages && pages[leaves[j]].Leaf?)
      && (forall j :: 0 < j < |leaves| ==> pages[leaves[j-1]].right == leaves[j])
      && pages[leaves[|leaves|-1]].right == 0
      && (forall id :: id in pages && pages[id].Leaf? ==> id in leaves)
  {
    hide Rank, Sorted, Children, InOrder, Nodes, Chained, Disjoint;
    var leaves := InOrder(pages, root, shape[root].level);
    InOrderTiles(root, pages, shape, root);
    forall j | 0 < j < |leaves| ensures pages[leaves[j-1]].right == leaves[j] {
      assert Adjoin(shape[leaves[j-1]], shape[leaves[j]]);
      NextInChain(root, pages, shape, leaves[j-1], leaves[j]);
    }
    EndOfChain(root, pages, shape, leaves[|leaves|-1]);
    forall id | id in pages && pages[id].Leaf? ensures id in leaves {
      LeafStretch(root, pages, shape, id);
      var j := TileAt(pages, shape, leaves, shape[root], shape[root], shape[id].from);
      LeafStretch(root, pages, shape, leaves[j]);
      SamePosition(root, pages, shape, id, leaves[j], shape[id].from);
    }
  }

  lemma LeafStretch(root: PageId, pages: Pages, shape: Shape, id: PageId)
    requires Inv(root, pages, shape, Settled) && id in pages
    ensures 0.0 <= shape[id].from < shape[id].to <= 1.0 && shape[id].lo <= shape[id].hi
    ensures shape[id].level == 0 <==> pages[id].Leaf?
  {
    assert NodeOk(pages[id], shape[id]);
  }

  /** A level has one page at a position. */
  lemma SamePosition(root: PageId, pages: Pages, shape: Shape, a: PageId, b: PageId, x: real)
    requires Inv(root, pages, shape, Settled) && a in pages && b in pages && shape[a].level == shape[b].level
    requires shape[a].from <= x < shape[a].to && shape[b].from <= x < shape[b].to
    ensures a == b
  {
  }

  lemma NextInChain(root: PageId, pages: Pages, shape: Shape, a: PageId, b: PageId)
    requires Inv(root, pages, shape, Settled)
    requires a in pages && pages[a].Leaf? && b in pages && pages[b].Leaf? && shape[a].to == shape[b].from
    ensures pages[a].right == b
  {
    assert ChainOk(pages, shape, a) && NodeOk(pages[b], shape[b]);
    var r := pages[a].right;
    if r != 0 {
      assert NodeOk(pages[r], shape[r]);
      SamePosition(root, pages, shape, r, b, shape[b].from);
    }
  }

  lemma EndOfChain(root: PageId, pages: Pages, shape: Shape, a: PageId)
    requires Inv(root, pages, shape, Settled) && a in pages && pages[a].Leaf? && shape[a].to == 1.0
    ensures pages[a].right == 0
  {
    assert ChainOk(pages, shape, a);
    var r := pages[a].right;
    if r != 0 {
      LeafStretch(root, pages, shape, r);
    }
  }
}
