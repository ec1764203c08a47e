/** The invariant of the B+ tree of internal/storage/btree.go, over a map of record pages. */
module TreeShape {
  import opened Keys
  import opened RecordPage

  type Pages = map<PageId, Page>

  /** Where a page sits: its height above the leaves, the key ranks [lo, hi) it answers for, and the stretch [from, to)
      it takes up among the pages of its level. A page can answer for no key at all, but it always takes up room. */
  datatype Place = Place(level: nat, lo: real, hi: real, from: real, to: real)
  type Shape = map<PageId, Place>

  /** During a split the right half is already a page but its parent does not point to it yet. */
  datatype Pending = Settled | Split(left: PageId, sep: Key, right: PageId)

  function ChildAt(p: Page, i: nat): PageId
    requires p.Internal? && i <= |p.seps|
  {
    if i < |p.seps| then p.seps[i].data else p.right
  }

  ghost function ChildLo(p: Page, lo: real, i: nat): real
    requires p.Internal? && i <= |p.seps|
  {
    if i == 0 then lo else Rank(p.seps[i-1].key)
  }

  ghost function ChildHi(p: Page, hi: real, i: nat): real
    requires p.Internal? && i <= |p.seps|
  {
    if i == |p.seps| then hi else Rank(p.seps[i].key)
  }

  /** Upper end of what a parent sees under a child: both halves of a pending split. */
  ghost function SpanHi(shape: Shape, pend: Pending, c: PageId): real
    requires c in shape && (pend.Split? ==> pend.right in shape)
  {
    if pend.Split? && c == pend.left then shape[pend.right].hi else shape[c].hi
  }

  ghost function SpanTo(shape: Shape, pend: Pending, c: PageId): real
    requires c in shape && (pend.Split? ==> pend.right in shape)
  {
    if pend.Split? && c == pend.left then shape[pend.right].to else shape[c].to
  }

  ghost predicate LeafOk(p: Page, lo: real, hi: real) {
    && p.Leaf?
    && Sorted(p.pairs)
    && forall i :: 0 <= i < |p.pairs| ==> lo <= Rank(p.pairs[i].key) < hi
  }

  ghost predicate InternalOk(p: Page, lo: real, hi: real) {
    && p.Internal?
    && Sorted(p.seps)
    && forall i :: 0 <= i < |p.seps| ==> lo <= Rank(p.seps[i].key) < hi
  }

  ghost predicate NodeOk(p: Page, at: Place) {
    && 0.0 <= at.lo <= at.hi <= 1.0 && 0.0 <= at.from < at.to <= 1.0
    && if at.level == 0 then LeafOk(p, at.lo, at.hi) else InternalOk(p, at.lo, at.hi)
  }

  /** The leaf after a leaf starts where it ends; the last leaf ends at the top. */
  ghost predicate ChainOk(pages: Pages, shape: Shape, id: PageId)
    requires id in pages && id in shape
  {
    var r := pages[id].right;
    if r == 0 then shape[id].hi == 1.0 && shape[id].to == 1.0
    else r in shape && shape[r].level == 0 && shape[r].lo == shape[id].hi && shape[r].from == shape[id].to
  }

  ghost predicate ChildOk(pages: Pages, shape: Shape, pend: Pending, id: PageId, i: nat)
    requires id in pages && id in shape && pages[id].Internal? && i <= |pages[id].seps|
    requires pend.Split? ==> pend.right in shape
  {
    var c := ChildAt(pages[id], i);
    && c in shape
    && shape[c].level + 1 == shape[id].level
    && shape[c].lo == ChildLo(pages[id], shape[id].lo, i)
    && SpanHi(shape, pend, c) == ChildHi(pages[id], shape[id].hi, i)
    && shape[id].from <= shape[c].from && SpanTo(shape, pend, c) <= shape[id].to
    && (i == 0 ==> shape[c].from == shape[id].from)
    && (i == |pages[id].seps| ==> SpanTo(shape, pend, c) == shape[id].to)
    && (i < |pages[id].seps| ==> Follows(shape, pend, c, ChildAt(pages[id], i + 1)))
  }

  ghost predicate Follows(shape: Shape, pend: Pending, c: PageId, d: PageId)
    requires c in shape && (pend.Split? ==> pend.right in shape)
  {
    d in shape && shape[d].from == SpanTo(shape, pend, c)
  }

  /** Pages of a level lie one after the other. */
  ghost predicate Ahead(a: Place, b: Place) {
    a.to <= b.from && a.hi <= b.lo
  }

  ghost predicate Apart(a: Place, b: Place) {
    a.level == b.level ==> Ahead(a, b) || Ahead(b, a)
  }

  ghost predicate PendingOk(shape: Shape, pend: Pending) {
    pend.Split? ==>
      && pend.left in shape && pend.right in shape && pend.left != pend.right
      && shape[pend.left].level == shape[pend.right].level
      && shape[pend.left].hi == Rank(pend.sep) == shape[pend.right].lo < shape[pend.right].hi
      && shape[pend.left].to == shape[pend.right].from
  }

  ghost predicate Rooted(root: PageId, pages: Pages, shape: Shape, pend: Pending) {
    && shape.Keys == pages.Keys
    && 0 !in pages
    && PendingOk(shape, pend)
    && root in shape && shape[root].lo == 0.0 && SpanHi(shape, pend, root) == 1.0
    && shape[root].from == 0.0 && SpanTo(shape, pend, root) == 1.0
    && forall p :: p in shape ==> shape[p].level <= shape[root].level
  }

  ghost predicate Nodes(pages: Pages, shape: Shape) {
    forall p :: p in pages && p in shape ==> NodeOk(pages[p], shape[p])
  }

  ghost predicate Chained(pages: Pages, shape: Shape) {
    forall p :: p in pages && p in shape && pages[p].Leaf? ==> ChainOk(pages, shape, p)
  }

  ghost predicate Children(pages: Pages, shape: Shape, pend: Pending)
    requires pend.Split? ==> pend.right in shape
  {
    forall p, i :: p in pages && p in shape && pages[p].Internal? && 0 <= i <= |pages[p].seps| ==>
      ChildOk(pages, shape, pend, p, i)
  }

  ghost predicate Disjoint(shape: Shape) {
    forall p, q :: p in shape && q in shape && p != q ==> Apart(shape[p], shape[q])
  }

  ghost predicate Inv(root: PageId, pages: Pages, shape: Shape, pend: Pending) {
    && Rooted(root, pages, shape, pend)
    && Nodes(pages, shape)
    && Chained(pages, shape)
    && Children(pages, shape, pend)
    && Disjoint(shape)
  }

  ghost function Get(m: map<Key, Value>, k: Key): Option<Value> {
    if k in m then Some(m[k]) else None
  }

  ghost predicate InRange(k: Key, at: Place) {
    at.lo <= Rank(k) < at.hi
  }

  /** Within its range a leaf answers exactly as the map does. */
  ghost predicate Agrees(p: Page, at: Place, m: map<Key, Value>)
    requires p.Leaf?
  {
    forall k :: InRange(k, at) ==> Lookup(p.pairs, k) == Get(m, k)
  }

  ghost predicate Answers(pages: Pages, shape: Shape, m: map<Key, Value>) {
    forall p :: p in pages && p in shape && pages[p].Leaf? ==> Agrees(pages[p], shape[p], m)
  }

  // ---- steps ----

  lemma LeafUpdate(root: PageId, pages: Pages, shape: Shape, id: PageId, p: Page)
    requires Inv(root, pages, shape, Settled)
    requires id in pages && pages[id].Leaf?
    requires LeafOk(p, shape[id].lo, shape[id].hi) && p.right == pages[id].right
    ensures Inv(root, pages[id := p], shape, Settled)
  {
    var pages' := pages[id := p];
    forall q, i | q in pages' && pages'[q].Internal? && 0 <= i <= |pages'[q].seps|
      ensures ChildOk(pages', shape, Settled, q, i)
    {
      assert ChildOk(pages, shape, Settled, q, i);
    }
    forall q | q in pages' && pages'[q].Leaf? ensures ChainOk(pages', shape, q) {
      assert ChainOk(pages, shape, q);
    }
  }

  /** The places after a page is cut in two at the rank m and the position x. */
  function Cut(shape: Shape, id: PageId, m: real, x: real, rid: PageId): Shape
    requires id in shape
  {
    shape[id := shape[id].(hi := m, to := x)][rid := shape[id].(lo := m, from := x)]
  }

  /** A leaf is cut in the middle of its stretch. */
  function Middle(at: Place): real { (at.from + at.to) / 2.0 }

  lemma CutDisjoint(shape: Shape, id: PageId, m: real, x: real, rid: PageId)
    requires Disjoint(shape) && id in shape && rid !in shape
    requires shape[id].lo <= m <= shape[id].hi && shape[id].from < x < shape[id].to
    ensures Disjoint(Cut(shape, id, m, x, rid))
  {
  }

  /** Parents see the same span under a page that has been cut. */
  lemma CutChild(pages: Pages, shape: Shape, id: PageId, sep: Key, x: real, rid: PageId, pages': Pages, q: PageId,
                 i: nat)
    requires pages.Keys == shape.Keys && id in shape && rid !in shape
    requires q in pages && q != id && pages[q].Internal? && i <= |pages[q].seps|
    requires ChildOk(pages, shape, Settled, q, i)
    requires q in pages' && pages'[q] == pages[q]
    ensures ChildOk(pages', Cut(shape, id, Rank(sep), x, rid), Split(id, sep, rid), q, i)
  {
  }

  lemma CutChain(pages: Pages, shape: Shape, id: PageId, l: Page, sep: Key, x: real, rid: PageId, r: Page)
    requires pages.Keys == shape.Keys && Chained(pages, shape)
    requires id in pages && pages[id].Leaf? && shape[id].level == 0 && rid !in pages && rid != 0
    requires l.right == rid && r.right == pages[id].right && pages[id].right != id
    ensures Chained(pages[id := l][rid := r], Cut(shape, id, Rank(sep), x, rid))
  {
  }

  lemma CutChildren(pages: Pages, shape: Shape, id: PageId, sep: Key, x: real, rid: PageId, pages': Pages)
    requires pages.Keys == shape.Keys && Children(pages, shape, Settled)
    requires id in shape && rid !in shape && pages'.Keys == pages.Keys + {rid}
    requires forall q :: q in pages && q != id ==> pages'[q] == pages[q]
    requires pages'[id].Leaf? && pages'[rid].Leaf?
    ensures Children(pages', Cut(shape, id, Rank(sep), x, rid), Split(id, sep, rid))
  {
    forall q, i | q in pages' && pages'[q].Internal? && 0 <= i <= |pages'[q].seps|
      ensures ChildOk(pages', Cut(shape, id, Rank(sep), x, rid), Split(id, sep, rid), q, i)
    {
      CutChild(pages, shape, id, sep, x, rid, pages', q, i);
    }
  }

  lemma CutRooted(root: PageId, pages: Pages, shape: Shape, id: PageId, sep: Key, x: real, rid: PageId, pages': Pages)
    requires Rooted(root, pages, shape, Settled)
    requires id in shape && rid !in shape && rid != 0 && pages'.Keys == pages.Keys + {rid} && Rank(sep) < shape[id].hi
    ensures Rooted(root, pages', Cut(shape, id, Rank(sep), x, rid), Split(id, sep, rid))
  {
  }

  lemma CutNodes(pages: Pages, shape: Shape, id: PageId, l: Page, m: real, x: real, rid: PageId, r: Page)
    requires pages.Keys == shape.Keys && Nodes(pages, shape) && id in shape && rid !in shape
    requires NodeOk(l, shape[id].(hi := m, to := x)) && NodeOk(r, shape[id].(lo := m, from := x))
    ensures Nodes(pages[id := l][rid := r], Cut(shape, id, m, x, rid))
  {
  }

  /** Cutting a leaf in two leaves the tree valid with the cut pending in the parent. */
  lemma LeafSplit(root: PageId, pages: Pages, shape: Shape, id: PageId, l: Page, sep: Key, rid: PageId, r: Page)
    requires Inv(root, pages, shape, Settled)
    requires id in pages && pages[id].Leaf? && rid !in pages && rid != 0
    requires shape[id].lo <= Rank(sep) < shape[id].hi
    requires LeafOk(l, shape[id].lo, Rank(sep)) && LeafOk(r, Rank(sep), shape[id].hi)
    requires l.right == rid && r.right == pages[id].right
    ensures Inv(root, pages[id := l][rid := r], Cut(shape, id, Rank(sep), Middle(shape[id]), rid), Split(id, sep, rid))
  {
    hide Sorted, Rank, Disjoint, SpanHi, Apart;
    var pages' := pages[id := l][rid := r];
    var x := Middle(shape[id]);
    assert NodeOk(pages[id], shape[id]) && ChainOk(pages, shape, id);
    CutDisjoint(shape, id, Rank(sep), x, rid);
    CutChain(pages, shape, id, l, sep, x, rid, r);
    CutChildren(pages, shape, id, sep, x, rid, pages');
    CutRooted(root, pages, shape, id, sep, x, rid, pages');
    CutNodes(pages, shape, id, l, Rank(sep), x, rid, r);
  }

  // ---- inserting a separator into a parent ----

  /** The parent after child i has been cut at sep: sep follows child i and r is the next child. */
  function InsertChild(p: Page, i: nat, sep: Key, r: PageId, freeEnd: nat): (p': Page)
    requires p.Internal? && i <= |p.seps|
    ensures p'.Internal? && |p'.seps| == |p.seps| + 1
  {
    if i < |p.seps| then
      Internal(p.right, p.seps[..i] + [Cell(sep, p.seps[i].data), Cell(p.seps[i].key, r)] + p.seps[i+1..], freeEnd)
    else
      Internal(r, p.seps + [Cell(sep, p.right)], freeEnd)
  }

  lemma InsertChildLayout(p: Page, i: nat, sep: Key, r: PageId, freeEnd: nat, lo: real, hi: real, j: nat)
    requires p.Internal? && i <= |p.seps| && j <= |p.seps| + 1
    ensures var p' := InsertChild(p, i, sep, r, freeEnd);
      && |p'.seps| == |p.seps| + 1
      && ChildAt(p', j) == (if j <= i then ChildAt(p, j) else if j == i + 1 then r else ChildAt(p, j - 1))
      && ChildLo(p', lo, j) ==
           (if j <= i then ChildLo(p, lo, j) else if j == i + 1 then Rank(sep) else ChildLo(p, lo, j - 1))
      && ChildHi(p', hi, j) ==
           (if j < i then ChildHi(p, hi, j) else if j == i then Rank(sep) else ChildHi(p, hi, j - 1))
  {
  }

  lemma InsertChildOrdered(p: Page, i: nat, sep: Key, r: PageId, freeEnd: nat, lo: real, hi: real)
    requires InternalOk(p, lo, hi) && i <= |p.seps|
    requires ChildLo(p, lo, i) <= Rank(sep) < ChildHi(p, hi, i) && (i > 0 ==> p.seps[i-1].key != sep)
    ensures InternalOk(InsertChild(p, i, sep, r, freeEnd), lo, hi)
  {
    assert i > 0 ==> Rank(p.seps[i-1].key) != Rank(sep) by {
      RankIsLexicographic(if i > 0 then p.seps[i-1].key else sep, sep);
    }
    hide Rank;
  }

  /** The children of a page lie one after the other. */
  lemma {:induction false} ChildrenInOrder(pages: Pages, shape: Shape, pend: Pending, p: PageId, i: nat, j: nat)
    requires shape.Keys == pages.Keys && PendingOk(shape, pend)
    requires Nodes(pages, shape) && Children(pages, shape, pend)
    requires p in pages && pages[p].Internal? && i < j <= |pages[p].seps|
    ensures var c, d := ChildAt(pages[p], i), ChildAt(pages[p], j);
      c in shape && d in shape && shape[c].from < shape[d].from
    decreases j - i
  {
    hide Rank;
    var c := ChildAt(pages[p], i);
    assert ChildOk(pages, shape, pend, p, i);
    assert NodeOk(pages[c], shape[c]);
    assert shape[c].from < SpanTo(shape, pend, c) by { SpanAfter(pages, shape, pend, c); }
    if i + 1 < j {
      ChildrenInOrder(pages, shape, pend, p, i + 1, j);
    }
  }

  lemma SpanAfter(pages: Pages, shape: Shape, pend: Pending, c: PageId)
    requires shape.Keys == pages.Keys && PendingOk(shape, pend) && Nodes(pages, shape) && c in pages
    ensures shape[c].from < SpanTo(shape, pend, c) && shape[c].lo <= SpanHi(shape, pend, c)
  {
    assert NodeOk(pages[c], shape[c]);
    if pend.Split? {
      assert NodeOk(pages[pend.right], shape[pend.right]);
    }
  }

  /** No page has two parents, or two places under one parent. */
  lemma UniqueParent(pages: Pages, shape: Shape, pend: Pending, p: PageId, i: nat, q: PageId, j: nat)
    requires shape.Keys == pages.Keys && PendingOk(shape, pend)
    requires Nodes(pages, shape) && Children(pages, shape, pend) && Disjoint(shape)
    requires p in pages && pages[p].Internal? && i <= |pages[p].seps|
    requires q in pages && pages[q].Internal? && j <= |pages[q].seps|
    requires ChildAt(pages[p], i) == ChildAt(pages[q], j)
    ensures p == q && i == j
  {
    hide Rank;
    assert ChildOk(pages, shape, pend, p, i) && ChildOk(pages, shape, pend, q, j);
    SpanAfter(pages, shape, pend, ChildAt(pages[p], i));
    if p == q && i < j {
      ChildrenInOrder(pages, shape, pend, p, i, j);
    } else if p == q && j < i {
      ChildrenInOrder(pages, shape, pend, p, j, i);
    }
  }

  /** Pointing the parent to the right half settles every child of every page. */
  lemma SettledChild(pages: Pages, shape: Shape, pend: Pending, id: PageId, i: nat, freeEnd: nat, q: PageId, j: nat)
    requires shape.Keys == pages.Keys && PendingOk(shape, pend) && pend.Split?
    requires Nodes(pages, shape) && Children(pages, shape, pend) && Disjoint(shape)
    requires id in pages && pages[id].Internal? && i <= |pages[id].seps| && ChildAt(pages[id], i) == pend.left
    requires q in pages && pages[q].Internal?
    requires var pages' := pages[id := InsertChild(pages[id], i, pend.sep, pend.right, freeEnd)]; j <= |pages'[q].seps|
    ensures ChildOk(pages[id := InsertChild(pages[id], i, pend.sep, pend.right, freeEnd)], shape, Settled, q, j)
  {
    hide Rank, Sorted, Disjoint;
    if q == id {
      SettledHere(pages, shape, pend, id, i, freeEnd, j);
    } else {
      assert ChildOk(pages, shape, pend, id, i);
      assert ChildOk(pages, shape, pend, q, j);
      if ChildAt(pages[q], j) == pend.left {
        UniqueParent(pages, shape, pend, id, i, q, j);
      }
    }
  }

  lemma SettledHere(pages: Pages, shape: Shape, pend: Pending, id: PageId, i: nat, freeEnd: nat, j: nat)
    requires shape.Keys == pages.Keys && PendingOk(shape, pend) && pend.Split?
    requires Nodes(pages, shape) && Children(pages, shape, pend) && Disjoint(shape)
    requires id in pages && pages[id].Internal? && i <= |pages[id].seps| && ChildAt(pages[id], i) == pend.left
    requires j <= |pages[id].seps| + 1
    ensures ChildOk(pages[id := InsertChild(pages[id], i, pend.sep, pend.right, freeEnd)], shape, Settled, id, j)
  {
    hide Rank, Sorted, Disjoint;
    assert ChildOk(pages, shape, pend, id, i);
    InsertChildLayout(pages[id], i, pend.sep, pend.right, freeEnd, shape[id].lo, shape[id].hi, j);
    var j0 := if j <= i then j else j - 1;
    assert ChildOk(pages, shape, pend, id, j0);
    if j0 != i && ChildAt(pages[id], j0) == pend.left {
      UniqueParent(pages, shape, pend, id, i, id, j0);
    }
  }

  lemma NotAmong(seps: seq<Separator>, key: Key)
    requires Sorted(seps) && Lookup(seps, key) == None
    ensures forall j :: 0 <= j < |seps| ==> seps[j].key != key
  {
    forall j: nat | j < |seps| ensures seps[j].key != key {
      LookupFound(seps, j);
    }
  }

  /** Pointing the parent to the right half settles a pending cut. */
  lemma ParentInsert(root: PageId, pages: Pages, shape: Shape, pend: Pending, id: PageId, i: nat, freeEnd: nat)
    requires Inv(root, pages, shape, pend) && pend.Split?
    requires id in pages && pages[id].Internal? && i <= |pages[id].seps|
    requires ChildAt(pages[id], i) == pend.left && Lookup(pages[id].seps, pend.sep) == None
    ensures Inv(root, pages[id := InsertChild(pages[id], i, pend.sep, pend.right, freeEnd)], shape, Settled)
  {
    hide *;
    InvMeans(root, pages, shape, pend);
    var pages' := pages[id := InsertChild(pages[id], i, pend.sep, pend.right, freeEnd)];
    ParentNodes(root, pages, shape, pend, id, i, freeEnd);
    ParentChained(pages, shape, id, InsertChild(pages[id], i, pend.sep, pend.right, freeEnd));
    ParentRooted(root, pages, shape, pend, id, i, InsertChild(pages[id], i, pend.sep, pend.right, freeEnd));
    forall q, j: nat | q in pages' && pages'[q].Internal? && j <= |pages'[q].seps|
      ensures ChildOk(pages', shape, Settled, q, j)
    {
      SettledChild(pages, shape, pend, id, i, freeEnd, q, j);
    }
    InvIs(root, pages', shape);
  }

  lemma InvMeans(root: PageId, pages: Pages, shape: Shape, pend: Pending)
    requires Inv(root, pages, shape, pend)
    ensures shape.Keys == pages.Keys && PendingOk(shape, pend) && Rooted(root, pages, shape, pend)
    ensures pend.Split? ==> pend.right in shape
    ensures Nodes(pages, shape) && Chained(pages, shape) && Children(pages, shape, pend) && Disjoint(shape)
  {
    hide Nodes, Chained, Disjoint;
  }

  lemma InvIs(root: PageId, pages: Pages, shape: Shape)
    requires Rooted(root, pages, shape, Settled) && Nodes(pages, shape) && Chained(pages, shape) && Disjoint(shape)
    requires forall q, j: nat :: q in pages && q in shape && pages[q].Internal? && j <= |pages[q].seps| ==>
      ChildOk(pages, shape, Settled, q, j)
    ensures Inv(root, pages, shape, Settled)
  {
    hide Rooted, Nodes, Chained, Disjoint, ChildOk;
  }

  lemma ParentNodes(root: PageId, pages: Pages, shape: Shape, pend: Pending, id: PageId, i: nat, freeEnd: nat)
    requires Inv(root, pages, shape, pend) && pend.Split?
    requires id in pages && pages[id].Internal? && i <= |pages[id].seps|
    requires ChildAt(pages[id], i) == pend.left && Lookup(pages[id].seps, pend.sep) == None
    ensures Nodes(pages[id := InsertChild(pages[id], i, pend.sep, pend.right, freeEnd)], shape)
  {
    hide Rank, Sorted, Disjoint, Chained;
    assert NodeOk(pages[id], shape[id]) && NodeOk(pages[pend.left], shape[pend.left]);
    assert NodeOk(pages[pend.right], shape[pend.right]) && ChildOk(pages, shape, pend, id, i);
    NotAmong(pages[id].seps, pend.sep);
    InsertChildOrdered(pages[id], i, pend.sep, pend.right, freeEnd, shape[id].lo, shape[id].hi);
  }

  lemma ParentChained(pages: Pages, shape: Shape, id: PageId, p: Page)
    requires Chained(pages, shape) && id in pages && pages[id].Internal? && p.Internal?
    ensures Chained(pages[id := p], shape)
  {
    hide ChainOk;
    forall q | q in pages[id := p] && q in shape && pages[id := p][q].Leaf? ensures ChainOk(pages[id := p], shape, q) {
      ChainSame(pages, shape, id, p, q);
    }
  }

  lemma ChainSame(pages: Pages, shape: Shape, id: PageId, p: Page, q: PageId)
    requires Chained(pages, shape) && q in pages && q in shape && pages[q].Leaf? && q != id
    ensures ChainOk(pages[id := p], shape, q)
  {
    assert ChainOk(pages, shape, q);
  }

  lemma ParentRooted(root: PageId, pages: Pages, shape: Shape, pend: Pending, id: PageId, i: nat, p: Page)
    requires Inv(root, pages, shape, pend) && pend.Split?
    requires id in pages && pages[id].Internal? && i <= |pages[id].seps| && ChildAt(pages[id], i) == pend.left
    ensures Rooted(root, pages[id := p], shape, Settled)
  {
    hide Rank, Disjoint, Chained, Nodes;
    assert ChildOk(pages, shape, pend, id, i);
  }

  // ---- splitting an internal page ----

  function LeftHalf(p: Page, mid: nat, freeEnd: nat): Page
    requires p.Internal? && mid < |p.seps|
  {
    Internal(p.seps[mid].data, p.seps[..mid], freeEnd)
  }

  function RightHalf(p: Page, mid: nat, freeEnd: nat): Page
    requires p.Internal? && mid < |p.seps|
  {
    Internal(p.right, p.seps[mid+1..], freeEnd)
  }

  /** An internal page is cut where the child below its middle separator ends. */
  ghost function CutAt(pages: Pages, shape: Shape, id: PageId, mid: nat): real
    requires id in pages && pages[id].Internal? && mid < |pages[id].seps|
  {
    var c := ChildAt(pages[id], mid);
    if c in shape then shape[c].to else 0.0
  }

  /** The places after an internal page is cut at its separator mid. */
  ghost function CutNode(pages: Pages, shape: Shape, id: PageId, mid: nat, rid: PageId): Shape
    requires id in pages && id in shape && pages[id].Internal? && mid < |pages[id].seps|
  {
    Cut(shape, id, Rank(pages[id].seps[mid].key), CutAt(pages, shape, id, mid), rid)
  }

  lemma HalvesOk(p: Page, mid: nat, fl: nat, fr: nat, at: Place, x: real)
    requires p.Internal? && mid < |p.seps| && NodeOk(p, at) && at.level > 0 && at.from < x < at.to
    ensures at.lo <= Rank(p.seps[mid].key) < at.hi
    ensures NodeOk(LeftHalf(p, mid, fl), at.(hi := Rank(p.seps[mid].key), to := x))
    ensures NodeOk(RightHalf(p, mid, fr), at.(lo := Rank(p.seps[mid].key), from := x))
  {
  }

  /** The cut of an internal page lies inside its stretch. */
  lemma CutInside(pages: Pages, shape: Shape, id: PageId, mid: nat)
    requires shape.Keys == pages.Keys && Nodes(pages, shape) && Children(pages, shape, Settled)
    requires id in pages && pages[id].Internal? && mid < |pages[id].seps|
    ensures shape[id].from < CutAt(pages, shape, id, mid) < shape[id].to
  {
    hide Rank;
    var c, d := ChildAt(pages[id], mid), ChildAt(pages[id], mid + 1);
    assert ChildOk(pages, shape, Settled, id, mid) && ChildOk(pages, shape, Settled, id, mid + 1);
    assert NodeOk(pages[c], shape[c]) && NodeOk(pages[d], shape[d]);
  }

  lemma HalvesChildren(pages: Pages, shape: Shape, id: PageId, mid: nat, fl: nat, fr: nat, rid: PageId, q: PageId,
                       j: nat)
    requires pages.Keys == shape.Keys && Nodes(pages, shape) && Children(pages, shape, Settled)
    requires id in pages && pages[id].Internal? && mid < |pages[id].seps| && rid !in pages
    requires var pages' := pages[id := LeftHalf(pages[id], mid, fl)][rid := RightHalf(pages[id], mid, fr)];
      q in pages' && pages'[q].Internal? && j <= |pages'[q].seps|
    ensures var p := pages[id];
      ChildOk(pages[id := LeftHalf(p, mid, fl)][rid := RightHalf(p, mid, fr)],
              CutNode(pages, shape, id, mid, rid), Split(id, p.seps[mid].key, rid), q, j)
  {
    hide Rank, Nodes;
    var p := pages[id];
    var pages' := pages[id := LeftHalf(p, mid, fl)][rid := RightHalf(p, mid, fr)];
    if q != id && q != rid {
      CutChild(pages, shape, id, p.seps[mid].key, CutAt(pages, shape, id, mid), rid, pages', q, j);
    } else {
      var i := if q == id then j else mid + 1 + j;
      assert ChildOk(pages, shape, Settled, id, i);
      HalfChildren(p, mid, fl, fr, if q == id then 0 else mid + 1, j);
      ChildInHalf(pages, shape, id, mid, i);
    }
  }

  lemma HalfChildren(p: Page, mid: nat, fl: nat, fr: nat, skip: nat, j: nat)
    requires p.Internal? && mid < |p.seps| && (skip == 0 || skip == mid + 1)
    requires var h := if skip == 0 then LeftHalf(p, mid, fl) else RightHalf(p, mid, fr); j <= |h.seps|
    ensures var h := if skip == 0 then LeftHalf(p, mid, fl) else RightHalf(p, mid, fr);
      && ChildAt(h, j) == ChildAt(p, skip + j)
      && (j < |h.seps| ==> ChildAt(h, j + 1) == ChildAt(p, skip + j + 1) && h.seps[j] == p.seps[skip + j])
      && (j > 0 ==> h.seps[j-1] == p.seps[skip + j - 1])
  {
  }

  /** Children up to the middle separator lie before the cut, the others behind it. */
  lemma ChildInHalf(pages: Pages, shape: Shape, id: PageId, mid: nat, i: nat)
    requires pages.Keys == shape.Keys && Nodes(pages, shape) && Children(pages, shape, Settled)
    requires id in pages && pages[id].Internal? && mid < |pages[id].seps| && i <= |pages[id].seps|
    ensures var c := ChildAt(pages[id], i);
      && c in shape && c != id
      && (i <= mid ==> shape[c].to <= CutAt(pages, shape, id, mid))
      && (i > mid ==> CutAt(pages, shape, id, mid) <= shape[c].from)
    ensures var d := ChildAt(pages[id], mid + 1);
      d in shape && CutAt(pages, shape, id, mid) == shape[d].from
  {
    hide Rank;
    assert ChildOk(pages, shape, Settled, id, i) && ChildOk(pages, shape, Settled, id, mid);
    if i < mid {
      var next := ChildAt(pages[id], i + 1);
      if i + 1 < mid {
        ChildrenInOrder(pages, shape, Settled, id, i + 1, mid);
      }
      assert NodeOk(pages[ChildAt(pages[id], mid)], shape[ChildAt(pages[id], mid)]);
    } else if mid + 1 < i {
      ChildrenInOrder(pages, shape, Settled, id, mid + 1, i);
    }
  }

  lemma HalvesChain(pages: Pages, shape: Shape, id: PageId, l: Page, m: real, x: real, rid: PageId, r: Page)
    requires pages.Keys == shape.Keys && Chained(pages, shape)
    requires id in pages && pages[id].Internal? && shape[id].level > 0 && rid !in pages && rid != 0
    requires l.Internal? && r.Internal?
    ensures Chained(pages[id := l][rid := r], Cut(shape, id, m, x, rid))
  {
  }

  /** Cutting an internal page at one of its separators moves that separator up, as a pending cut. */
  lemma NodeSplit(root: PageId, pages: Pages, shape: Shape, id: PageId, mid: nat, fl: nat, fr: nat, rid: PageId)
    requires Inv(root, pages, shape, Settled)
    requires id in pages && pages[id].Internal? && mid < |pages[id].seps| && rid !in pages && rid != 0
    ensures var p := pages[id];
      Inv(root, pages[id := LeftHalf(p, mid, fl)][rid := RightHalf(p, mid, fr)],
          CutNode(pages, shape, id, mid, rid), Split(id, p.seps[mid].key, rid))
  {
    hide Rank, Sorted, Disjoint, SpanHi, SpanTo, Apart, CutAt;
    var p := pages[id];
    var l, r, sep, x := LeftHalf(p, mid, fl), RightHalf(p, mid, fr), p.seps[mid].key, CutAt(pages, shape, id, mid);
    var pages' := pages[id := l][rid := r];
    var shape' := Cut(shape, id, Rank(sep), x, rid);
    assert NodeOk(p, shape[id]);
    CutInside(pages, shape, id, mid);
    HalvesOk(p, mid, fl, fr, shape[id], x);
    CutDisjoint(shape, id, Rank(sep), x, rid);
    CutNodes(pages, shape, id, l, Rank(sep), x, rid, r);
    CutRooted(root, pages, shape, id, sep, x, rid, pages');
    HalvesChain(pages, shape, id, l, Rank(sep), x, rid, r);
    forall q, j | q in pages' && pages'[q].Internal? && 0 <= j <= |pages'[q].seps|
      ensures ChildOk(pages', shape', Split(id, sep, rid), q, j)
    {
      HalvesChildren(pages, shape, id, mid, fl, fr, rid, q, j);
    }
  }

  // ---- a new root ----

  function RootOver(pend: Pending, freeEnd: nat): Page
    requires pend.Split?
  {
    Internal(pend.right, [Cell(pend.sep, pend.left)], freeEnd)
  }

  ghost function Grown(shape: Shape, pend: Pending, id: PageId): Shape
    requires pend.Split? && pend.left in shape
  {
    shape[id := Place(shape[pend.left].level + 1, 0.0, 1.0, 0.0, 1.0)]
  }

  lemma NewRootChild(pages: Pages, shape: Shape, pend: Pending, id: PageId, freeEnd: nat, q: PageId, j: nat)
    requires pend.Split? && Rooted(pend.left, pages, shape, pend) && Children(pages, shape, pend)
    requires id !in pages && NodeOk(pages[pend.left], shape[pend.left])
    requires var pages' := pages[id := RootOver(pend, freeEnd)];
      q in pages' && pages'[q].Internal? && j <= |pages'[q].seps|
    ensures ChildOk(pages[id := RootOver(pend, freeEnd)], Grown(shape, pend, id), Settled, q, j)
  {
    hide Rank;
    if q != id {
      assert ChildOk(pages, shape, pend, q, j);
      assert ChildAt(pages[q], j) != pend.left;
    } else {
      assert ChildAt(RootOver(pend, freeEnd), 0) == pend.left && ChildAt(RootOver(pend, freeEnd), 1) == pend.right;
    }
  }

  lemma NewRootNodes(pages: Pages, shape: Shape, pend: Pending, id: PageId, freeEnd: nat)
    requires pend.Split? && Rooted(pend.left, pages, shape, pend) && id !in pages
    requires Nodes(pages, shape) && Disjoint(shape) && Chained(pages, shape)
    ensures Nodes(pages[id := RootOver(pend, freeEnd)], Grown(shape, pend, id))
    ensures Disjoint(Grown(shape, pend, id))
    ensures Chained(pages[id := RootOver(pend, freeEnd)], Grown(shape, pend, id))
  {
    hide Rank;
    assert NodeOk(pages[pend.left], shape[pend.left]) && NodeOk(pages[pend.right], shape[pend.right]);
    var pages' := pages[id := RootOver(pend, freeEnd)];
    forall q | q in pages' && pages'[q].Leaf? ensures ChainOk(pages', Grown(shape, pend, id), q) {
      assert ChainOk(pages, shape, q);
    }
  }

  /** A pending cut of the root is settled by a root above both halves. */
  lemma NewRoot(pages: Pages, shape: Shape, pend: Pending, id: PageId, freeEnd: nat)
    requires pend.Split? && Inv(pend.left, pages, shape, pend)
    requires id !in pages && id != 0
    ensures Inv(id, pages[id := RootOver(pend, freeEnd)], Grown(shape, pend, id), Settled)
  {
    assert NodeOk(pages[pend.left], shape[pend.left]);
    hide Nodes, Disjoint, Chained, ChildOk, NodeOk;
    var pages' := pages[id := RootOver(pend, freeEnd)];
    NewRootNodes(pages, shape, pend, id, freeEnd);
    forall q, j | q in pages' && pages'[q].Internal? && 0 <= j <= |pages'[q].seps|
      ensures ChildOk(pages', Grown(shape, pend, id), Settled, q, j)
    {
      NewRootChild(pages, shape, pend, id, freeEnd, q, j);
    }
  }
}
