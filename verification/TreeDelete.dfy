/** What handleUnderflow of internal/storage/btree.go does to the invariant when a leaf has run empty. */
module TreeDelete {
  import opened Keys
  import opened RecordPage
  import opened TreeShape
  import opened TreeContents
  import opened TreeTheorems

  /** The parent without its cell i: the next child takes over the range. */
  function DropCell(p: Page, i: nat): (p': Page)
    requires p.Internal? && i < |p.seps|
    ensures p'.Internal? && |p'.seps| == |p.seps| - 1
  {
    Internal(p.right, RemoveAt(p.seps, i), p.freeEnd)
  }

  /** The first leaf is gone and the second one answers from the bottom of the range. */
  ghost function Merged(shape: Shape, id: PageId, next: PageId): Shape
    requires next in shape
  {
    shape[next := shape[next].(lo := 0.0, from := 0.0)] - {id}
  }

  /** The leaf is the first of the tree, empty, and its parent has a separator for it. */
  ghost predicate FirstEmpty(root: PageId, pages: Pages, shape: Shape, id: PageId, pid: PageId) {
    && Inv(root, pages, shape, Settled)
    && id in pages && pages[id].Leaf? && |pages[id].pairs| == 0 && shape[id].from == 0.0
    && pid in pages && pages[pid].Internal? && |pages[pid].seps| > 0 && ChildAt(pages[pid], 0) == id
  }

  /** The first page of its level answers from the bottom on. */
  lemma FirstStartsAtZero(root: PageId, pages: Pages, shape: Shape, id: PageId)
    requires Inv(root, pages, shape, Settled) && id in pages && pages[id].Leaf? && shape[id].from == 0.0
    ensures shape[id].lo == 0.0
  {
    hide Rank, Sorted, Disjoint, Children, Chained, InOrder, Nodes;
    InOrderTiles(root, pages, shape, root);
    var first := InOrder(pages, root, shape[root].level)[0];
    LeafStretch(root, pages, shape, id);
    LeafStretch(root, pages, shape, first);
    SamePosition(root, pages, shape, id, first, 0.0);
  }

  lemma DropPlaces(root: PageId, pages: Pages, shape: Shape, id: PageId, pid: PageId)
    requires FirstEmpty(root, pages, shape, id, pid)
    ensures var c := ChildAt(pages[pid], 1);
      && c in pages && c != id && c in shape && pages[c].Leaf? && shape[c].lo == shape[id].hi
      && shape[c].level == 0 == shape[id].level
      && shape[pid].level == 1 && shape[pid].lo == 0.0 == shape[id].lo && id != root
      && shape[c].lo == Rank(pages[pid].seps[0].key)
      && shape[pid].from == 0.0 && shape[c].from == shape[id].to
  {
    FirstStartsAtZero(root, pages, shape, id);
    hide Rank, Sorted, Disjoint, Chained;
    assert ChildOk(pages, shape, Settled, pid, 0) && ChildOk(pages, shape, Settled, pid, 1);
    assert NodeOk(pages[id], shape[id]) && NodeOk(pages[pid], shape[pid]);
    assert NodeOk(pages[ChildAt(pages[pid], 1)], shape[ChildAt(pages[pid], 1)]);
  }

  lemma DropDisjoint(root: PageId, pages: Pages, shape: Shape, id: PageId, pid: PageId)
    requires FirstEmpty(root, pages, shape, id, pid)
    ensures var c := ChildAt(pages[pid], 1); c in shape && Disjoint(Merged(shape, id, c))
  {
    hide Rank, Sorted, Chained, Children;
    DropPlaces(root, pages, shape, id, pid);
    var c := ChildAt(pages[pid], 1);
    var shape' := Merged(shape, id, c);
    forall p, q | p in shape' && q in shape' && p != q ensures Apart(shape'[p], shape'[q]) {
      assert Apart(shape[p], shape[q]);
      assert NodeOk(pages[p], shape[p]) && NodeOk(pages[q], shape[q]) && NodeOk(pages[id], shape[id]);
      assert Apart(shape[p], shape[id]) && Apart(shape[q], shape[id]);
    }
  }

  lemma DropNodes(root: PageId, pages: Pages, shape: Shape, id: PageId, pid: PageId)
    requires FirstEmpty(root, pages, shape, id, pid)
    ensures var c := ChildAt(pages[pid], 1);
      c in shape && Nodes(pages[pid := DropCell(pages[pid], 0)] - {id}, Merged(shape, id, c))
  {
    hide Rank, Disjoint, Chained, Children;
    DropPlaces(root, pages, shape, id, pid);
    assert NodeOk(pages[pid], shape[pid]);
    var pages', shape' := pages[pid := DropCell(pages[pid], 0)] - {id}, Merged(shape, id, ChildAt(pages[pid], 1));
    forall q | q in pages' && q in shape' ensures NodeOk(pages'[q], shape'[q]) {
      assert NodeOk(pages[q], shape[q]);
    }
  }

  lemma DropChain(root: PageId, pages: Pages, shape: Shape, id: PageId, pid: PageId)
    requires FirstEmpty(root, pages, shape, id, pid)
    ensures var c := ChildAt(pages[pid], 1);
      c in shape && Chained(pages[pid := DropCell(pages[pid], 0)] - {id}, Merged(shape, id, c))
  {
    hide Rank, Sorted, Disjoint, Children;
    DropPlaces(root, pages, shape, id, pid);
    var c := ChildAt(pages[pid], 1);
    var pages', shape' := pages[pid := DropCell(pages[pid], 0)] - {id}, Merged(shape, id, c);
    forall q | q in pages' && pages'[q].Leaf? ensures ChainOk(pages', shape', q) {
      assert ChainOk(pages, shape, q);
      assert NodeOk(pages[q], shape[q]) && NodeOk(pages[id], shape[id]);
      if pages[q].right == c {
        SameEnd(root, pages, shape, q, id);
      }
    }
  }

  lemma SameEnd(root: PageId, pages: Pages, shape: Shape, a: PageId, b: PageId)
    requires Inv(root, pages, shape, Settled)
    requires a in pages && b in pages && shape[a].level == shape[b].level && shape[a].to == shape[b].to
    ensures a == b
  {
    LeafStretch(root, pages, shape, a);
    LeafStretch(root, pages, shape, b);
  }

  lemma DropCellLayout(p: Page, lo: real, hi: real, j: nat)
    requires p.Internal? && j < |p.seps|
    ensures var p' := DropCell(p, 0);
      && |p'.seps| == |p.seps| - 1 && ChildAt(p', j) == ChildAt(p, j + 1)
      && (j < |p'.seps| ==> ChildAt(p', j + 1) == ChildAt(p, j + 2))
      && ChildLo(p', lo, j) == (if j == 0 then lo else ChildLo(p, lo, j + 1))
      && ChildHi(p', hi, j) == ChildHi(p, hi, j + 1)
  {
  }

  lemma NotAgain(pages: Pages, shape: Shape, p: PageId, i: nat, q: PageId, j: nat)
    requires shape.Keys == pages.Keys && Nodes(pages, shape) && Children(pages, shape, Settled) && Disjoint(shape)
    requires p in pages && pages[p].Internal? && i <= |pages[p].seps|
    requires q in pages && pages[q].Internal? && j <= |pages[q].seps| && (p != q || i != j)
    ensures ChildAt(pages[p], i) != ChildAt(pages[q], j)
  {
    if ChildAt(pages[p], i) == ChildAt(pages[q], j) {
      UniqueParent(pages, shape, Settled, p, i, q, j);
    }
  }

  lemma DropChild(root: PageId, pages: Pages, shape: Shape, id: PageId, pid: PageId, q: PageId, j: nat)
    requires FirstEmpty(root, pages, shape, id, pid)
    requires var pages' := pages[pid := DropCell(pages[pid], 0)] - {id};
      q in pages' && pages'[q].Internal? && j <= |pages'[q].seps|
    ensures var c := ChildAt(pages[pid], 1);
      && c in shape && q in Merged(shape, id, c)
      && ChildOk(pages[pid := DropCell(pages[pid], 0)] - {id}, Merged(shape, id, c), Settled, q, j)
  {
    hide Rank, Sorted, Disjoint, Chained, NodeOk, Nodes, DropCell;
    DropPlaces(root, pages, shape, id, pid);
    var c := ChildAt(pages[pid], 1);
    if q == pid {
      DropCellLayout(pages[pid], shape[pid].lo, shape[pid].hi, j);
      assert ChildOk(pages, shape, Settled, pid, j + 1);
      NotAgain(pages, shape, pid, 0, pid, j + 1);
      if j > 0 {
        NotAgain(pages, shape, pid, 1, pid, j + 1);
      }
      if j + 1 < |pages[pid].seps| {
        NotAgain(pages, shape, pid, 0, pid, j + 2);
        NotAgain(pages, shape, pid, 1, pid, j + 2);
      }
    } else {
      assert ChildOk(pages, shape, Settled, q, j);
      NotAgain(pages, shape, pid, 0, q, j);
      NotAgain(pages, shape, pid, 1, q, j);
      if j < |pages[q].seps| {
        NotAgain(pages, shape, pid, 0, q, j + 1);
        NotAgain(pages, shape, pid, 1, q, j + 1);
      }
    }
  }

  /** Dropping the empty first leaf keeps the tree, with one leaf less. */
  lemma DropFirst(root: PageId, pages: Pages, shape: Shape, id: PageId, pid: PageId)
    requires FirstEmpty(root, pages, shape, id, pid)
    ensures var c := ChildAt(pages[pid], 1);
      c in shape && Inv(root, pages[pid := DropCell(pages[pid], 0)] - {id}, Merged(shape, id, c), Settled)
  {
    hide Rank, Sorted, Disjoint, Chained, Nodes, ChildOk;
    DropPlaces(root, pages, shape, id, pid);
    DropDisjoint(root, pages, shape, id, pid);
    DropNodes(root, pages, shape, id, pid);
    DropChain(root, pages, shape, id, pid);
    var pages', shape' := pages[pid := DropCell(pages[pid], 0)] - {id}, Merged(shape, id, ChildAt(pages[pid], 1));
    forall q, j | q in pages' && pages'[q].Internal? && 0 <= j <= |pages'[q].seps|
      ensures q in shape' && ChildOk(pages', shape', Settled, q, j)
    {
      DropChild(root, pages, shape, id, pid, q, j);
    }
  }

  lemma DropAnswers(root: PageId, pages: Pages, shape: Shape, m: map<Key, Value>, id: PageId, pid: PageId)
    requires FirstEmpty(root, pages, shape, id, pid) && Answers(pages, shape, m)
    ensures var c := ChildAt(pages[pid], 1);
      c in shape && Answers(pages[pid := DropCell(pages[pid], 0)] - {id}, Merged(shape, id, c), m)
  {
    hide Rank, Disjoint, Chained, Children, Nodes, Sorted;
    DropPlaces(root, pages, shape, id, pid);
    var c := ChildAt(pages[pid], 1);
    var shape' := Merged(shape, id, c);
    assert Agrees(pages[c], shape'[c], m) by {
      assert NodeOk(pages[c], shape[c]) by { assert Nodes(pages, shape); NodeAt(pages, shape, c); }
      assert Agrees(pages[c], shape[c], m) && Agrees(pages[id], shape[id], m);
      AgreesWider(pages[id], shape[id], pages[c], shape[c], m);
    }
    forall q | q in pages && q != id && q != pid && q != c && pages[q].Leaf? ensures Agrees(pages[q], shape'[q], m) {
      assert Agrees(pages[q], shape[q], m);
    }
  }

  lemma NodeAt(pages: Pages, shape: Shape, id: PageId)
    requires Nodes(pages, shape) && id in pages && id in shape
    ensures NodeOk(pages[id], shape[id])
  {
  }

  /** An empty leaf's range can be answered by the leaf after it. */
  lemma AgreesWider(empty: Page, at: Place, p: Page, pat: Place, m: map<Key, Value>)
    requires empty.Leaf? && |empty.pairs| == 0 && Agrees(empty, at, m) && at.lo == 0.0 && at.hi == pat.lo
    requires pat.level == 0 && NodeOk(p, pat) && Agrees(p, pat, m)
    ensures Agrees(p, pat.(lo := 0.0, from := 0.0), m)
  {
  }

  /** A root left with its right pointer alone gives way to that child. */
  lemma CollapseRoot(root: PageId, pages: Pages, shape: Shape, m: map<Key, Value>)
    requires Represents(root, pages, shape, Settled, m)
    requires pages[root].Internal? && |pages[root].seps| == 0
    ensures var c := pages[root].right;
      c != 0 && c in pages && Represents(c, pages - {root}, shape - {root}, Settled, m)
  {
    hide *;
    RepresentsMeans(root, pages, shape, Settled, m);
    InvMeans(root, pages, shape, Settled);
    var c := pages[root].right;
    var pages', shape' := pages - {root}, shape - {root};
    OnlyChild(root, pages, shape);
    forall q, j: nat | q in pages' && pages'[q].Internal? && j <= |pages'[q].seps|
      ensures ChildOk(pages', shape', Settled, q, j)
    {
      ChildStays(root, pages, shape, q, j);
    }
    ChainStays(root, pages, shape);
    InvIs(c, pages', shape');
    AnswersStay(pages, shape, m, root);
    RepresentsIs(c, pages', shape', Settled, m);
  }

  lemma OnlyChild(root: PageId, pages: Pages, shape: Shape)
    requires Inv(root, pages, shape, Settled) && pages[root].Internal? && |pages[root].seps| == 0
    ensures var c := pages[root].right;
      && c != 0 && c in pages && Rooted(c, pages - {root}, shape - {root}, Settled)
      && Nodes(pages - {root}, shape - {root}) && Disjoint(shape - {root})
  {
    hide Rank, Sorted, Chained;
    var c := pages[root].right;
    assert ChildOk(pages, shape, Settled, root, 0);
    forall q | q in pages && q != root ensures shape[q].level <= shape[c].level {
      assert Apart(shape[root], shape[q]) && NodeOk(pages[q], shape[q]);
    }
  }

  lemma ChildStays(root: PageId, pages: Pages, shape: Shape, q: PageId, j: nat)
    requires Inv(root, pages, shape, Settled)
    requires q in pages && q != root && pages[q].Internal? && j <= |pages[q].seps|
    ensures ChildOk(pages - {root}, shape - {root}, Settled, q, j)
  {
    hide Rank, Sorted, Chained, Nodes, Disjoint;
    assert ChildOk(pages, shape, Settled, q, j);
    assert j < |pages[q].seps| ==> ChildOk(pages, shape, Settled, q, j + 1);
  }

  lemma ChainStays(root: PageId, pages: Pages, shape: Shape)
    requires Inv(root, pages, shape, Settled) && pages[root].Internal?
    ensures Chained(pages - {root}, shape - {root})
  {
    hide Rank, Sorted, Children, Disjoint;
    forall q | q in pages && q != root && pages[q].Leaf? ensures ChainOk(pages - {root}, shape - {root}, q) {
      assert ChainOk(pages, shape, q) && NodeOk(pages[root], shape[root]);
    }
  }

  lemma AnswersStay(pages: Pages, shape: Shape, m: map<Key, Value>, id: PageId)
    requires Answers(pages, shape, m)
    ensures Answers(pages - {id}, shape - {id}, m)
  {
    hide Agrees;
  }

  // ---- when the leaf is not the first one ----

  /** The leaf before another one in the chain. */
  lemma Predecessor(root: PageId, pages: Pages, shape: Shape, id: PageId) returns (p: PageId)
    requires Inv(root, pages, shape, Settled) && id in pages && pages[id].Leaf? && shape[id].from > 0.0
    ensures p in pages && pages[p].Leaf? && pages[p].right == id && p != id
  {
    hide Rank, Sorted, Disjoint, Children, Chained, InOrder;
    var leaves := InOrder(pages, root, shape[root].level);
    ChainIsInOrder(root, pages, shape);
    InOrderTiles(root, pages, shape, root);
    var j :| 0 <= j < |leaves| && leaves[j] == id;
    p := leaves[j-1];
    assert Adjoin(shape[p], shape[id]) && NodeOk(pages[p], shape[p]) && NodeOk(pages[id], shape[id]);
  }

  lemma RightPointsIn(root: PageId, pages: Pages, shape: Shape, p: PageId)
    requires Inv(root, pages, shape, Settled) && p in pages
    requires pages[p].Leaf? || |pages[p].seps| == 0
    ensures pages[p].right == 0 || pages[p].right in pages
  {
    if pages[p].Leaf? {
      assert ChainOk(pages, shape, p);
    } else {
      assert ChildOk(pages, shape, Settled, p, 0);
    }
  }

  /** Pages in which a live page still points to a page that is gone are no tree, whatever the shape. */
  lemma Dangling(pages: Pages, p: PageId, id: PageId)
    requires p in pages && pages[p].right == id && id != 0 && id !in pages
    requires pages[p].Leaf? || |pages[p].seps| == 0
    ensures forall root, shape :: !Inv(root, pages, shape, Settled)
  {
    forall root, shape | Inv(root, pages, shape, Settled) ensures false {
      RightPointsIn(root, pages, shape, p);
    }
  }

  lemma Rootless(root: PageId, pages: Pages)
    requires root !in pages
    ensures forall shape :: !Inv(root, pages, shape, Settled)
  {
  }

  // ---- the cell of the empty leaf ----

  /** The leaf is the first of the tree and its parent has a separator. */
  ghost predicate FirstOfSeveral(pages: Pages, shape: Shape, id: PageId) {
    && id in shape && shape[id].from == 0.0
    && exists p :: p in pages && pages[p].Internal? && |pages[p].seps| > 0 && ChildAt(pages[p], 0) == id
  }

  /** The first cell that points to the page, or the number of cells. */
  function CellOf(seps: seq<Separator>, id: PageId): (i: nat)
    ensures i <= |seps| && (i < |seps| ==> seps[i].data == id)
    ensures forall j :: 0 <= j < i ==> seps[j].data != id
  {
    if |seps| == 0 || seps[0].data == id then 0 else 1 + CellOf(seps[1..], id)
  }

  /** The parent as handleUnderflow leaves it: without the leaf's own cell, or, when the leaf is the
      last child, without the last cell and with the right pointer as it was. */
  function Taken(parent: Page, id: PageId): Page
    requires parent.Internal?
  {
    var i := CellOf(parent.seps, id);
    if i < |parent.seps| then DropCell(parent, i)
    else if parent.right == id && |parent.seps| > 0 then
      Internal(parent.right, parent.seps[..|parent.seps|-1], parent.freeEnd)
    else parent
  }

  ghost predicate IsFirstCell(seps: seq<Separator>, id: PageId, i: int) {
    0 <= i < |seps| && seps[i].data == id && forall j :: 0 <= j < i ==> seps[j].data != id
  }

  method TakeCell(parent: Page, id: PageId) returns (p: Page)
    requires parent.Internal?
    ensures p == Taken(parent, id) && p.Internal? && p.right == parent.right && p.freeEnd == parent.freeEnd
    ensures forall i :: IsFirstCell(parent.seps, id, i) ==> p.seps == parent.seps[..i] + parent.seps[i+1..]
    ensures (forall i :: 0 <= i < |parent.seps| ==> parent.seps[i].data != id) ==>
      p.seps == if parent.right == id && |parent.seps| > 0 then parent.seps[..|parent.seps|-1] else parent.seps
  {
    hide CellOf;
    for i := 0 to |parent.seps|
      invariant i <= CellOf(parent.seps, id)
    {
      if parent.seps[i].data == id {
        return DropCell(parent, i);
      }
    }
    p := parent;
    if parent.right == id && |parent.seps| > 0 {
      p := Internal(parent.right, parent.seps[..|parent.seps|-1], parent.freeEnd);
    }
  }

  /** A child at the very start of its level is its parent's first child. */
  lemma FirstChild(root: PageId, pages: Pages, shape: Shape, pid: PageId, i: nat)
    requires Inv(root, pages, shape, Settled) && pid in pages && pages[pid].Internal? && i <= |pages[pid].seps|
    requires var c := ChildAt(pages[pid], i); c in shape ==> shape[c].from == 0.0
    ensures i == 0
  {
    if i > 0 {
      ChildrenInOrder(pages, shape, Settled, pid, 0, i);
    }
    hide Rank, Disjoint, Chained;
    assert ChildOk(pages, shape, Settled, pid, i) && NodeOk(pages[pid], shape[pid]);
  }

  /** Taking out the empty first leaf of several keeps tree and map. */
  lemma TakeOut(root: PageId, pages: Pages, shape: Shape, m: map<Key, Value>, id: PageId, pid: PageId, i: nat)
    requires Represents(root, pages, shape, Settled, m) && FirstOfSeveral(pages, shape, id)
    requires id in pages && pages[id].Leaf? && |pages[id].pairs| == 0
    requires pid in pages && pages[pid].Internal? && i <= |pages[pid].seps| && ChildAt(pages[pid], i) == id
    ensures var p := Taken(pages[pid], id);
      && |pages[pid].seps| > 0 && p == DropCell(pages[pid], 0) && ChildAt(pages[pid], 1) in shape
      && Represents(root, pages[pid := p] - {id}, Merged(shape, id, ChildAt(pages[pid], 1)), Settled, m)
      && id != root
  {
    hide Rank, Nodes, Disjoint, Chained, Children, Agrees;
    var q :| q in pages && pages[q].Internal? && |pages[q].seps| > 0 && ChildAt(pages[q], 0) == id;
    UniqueParent(pages, shape, Settled, q, 0, pid, i);
    assert FirstEmpty(root, pages, shape, id, pid);
    DropFirst(root, pages, shape, id, pid);
    DropAnswers(root, pages, shape, m, id, pid);
    DropPlaces(root, pages, shape, id, pid);
  }

  /** Otherwise some page that stays keeps pointing to the leaf that goes. */
  lemma StillPointing(root: PageId, pages: Pages, shape: Shape, id: PageId, pid: PageId, i: nat) returns (w: PageId)
    requires Inv(root, pages, shape, Settled) && !FirstOfSeveral(pages, shape, id)
    requires id in pages && pages[id].Leaf?
    requires pid in pages && pages[pid].Internal? && i <= |pages[pid].seps| && ChildAt(pages[pid], i) == id
    ensures w in pages && pages[w].right == id && w != id && id != 0
    ensures pages[w].Leaf? || (w == pid && |pages[pid].seps| == 0)
  {
    hide Rank, Nodes, Disjoint, Chained, Children;
    if shape[id].from > 0.0 {
      w := Predecessor(root, pages, shape, id);
    } else {
      NodeAt(pages, shape, id);
      FirstChild(root, pages, shape, pid, i);
      w := pid;
    }
  }

  lemma TakenInternal(p: Page, id: PageId)
    requires p.Internal?
    ensures Taken(p, id).Internal? && Taken(p, id).right == p.right && (|p.seps| == 0 ==> |Taken(p, id).seps| == 0)
  {
  }

  /** Unless the leaf was the first of several, what handleUnderflow leaves still leads to it. */
  lemma PointsAtFreed(root: PageId, pages: Pages, shape: Shape, id: PageId, pid: PageId, i: nat,
                      root': PageId, pages': Pages)
    requires Inv(root, pages, shape, Settled) && !FirstOfSeveral(pages, shape, id)
    requires id in pages && pages[id].Leaf?
    requires pid in pages && pages[pid].Internal? && i <= |pages[pid].seps| && ChildAt(pages[pid], i) == id
    requires var p := Taken(pages[pid], id); var taken := pages[pid := p] - {id};
      || (root' == root && pages' == taken)
      || (root == pid && p.Internal? && |p.seps| == 0 && root' == p.right && pages' == taken - {pid})
    ensures forall shape' :: !Inv(root', pages', shape', Settled)
  {
    hide Rank, Inv, FirstOfSeveral, Taken, ChildAt;
    TakenInternal(pages[pid], id);
    var w := StillPointing(root, pages, shape, id, pid, i);
    if w in pages' {
      Dangling(pages', w, id);
    } else {
      Rootless(root', pages');
    }
  }
}
