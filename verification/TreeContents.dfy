/** How the steps of the tree change the map it stands for. */
module TreeContents {
  import opened Keys
  import opened RecordPage
  import opened TreeShape

  /** The two maps differ at most within the range. */
  ghost predicate OnlyIn(m: map<Key, Value>, m': map<Key, Value>, at: Place) {
    forall k :: !InRange(k, at) ==> Get(m', k) == Get(m, k)
  }

  /** The map without the keys whose rank lies in [lo, hi). */
  ghost function Without(m: map<Key, Value>, lo: real, hi: real): map<Key, Value> {
    map k | k in m && !(lo <= Rank(k) < hi) :: m[k]
  }

  /** Changing one leaf changes the map only inside that leaf's range. */
  lemma AnswersUpdate(pages: Pages, shape: Shape, m: map<Key, Value>, id: PageId, p: Page, m': map<Key, Value>)
    requires shape.Keys == pages.Keys && Answers(pages, shape, m) && Nodes(pages, shape) && Disjoint(shape)
    requires id in pages && pages[id].Leaf? && p.Leaf? && Agrees(p, shape[id], m')
    requires OnlyIn(m, m', shape[id])
    ensures Answers(pages[id := p], shape, m')
  {
  }

  lemma AnswersCut(pages: Pages, shape: Shape, m: map<Key, Value>, id: PageId, all: Page, mid: nat, l: Page, x: real,
                   rid: PageId, r: Page)
    requires shape.Keys == pages.Keys && Answers(pages[id := all], shape, m)
    requires id in pages && rid !in pages
    requires all.Leaf? && Sorted(all.pairs) && mid < |all.pairs|
    requires shape[id].lo <= Rank(all.pairs[mid].key) < shape[id].hi
    requires l.Leaf? && l.pairs == all.pairs[..mid] && r.Leaf? && r.pairs == all.pairs[mid..]
    ensures Answers(pages[id := l][rid := r], Cut(shape, id, Rank(all.pairs[mid].key), x, rid), m)
  {
    var m0 := Rank(all.pairs[mid].key);
    hide Rank, Lookup;
    var pages' := pages[id := l][rid := r];
    var shape' := Cut(shape, id, m0, x, rid);
    forall q | q in pages' && pages'[q].Leaf? ensures Agrees(pages'[q], shape'[q], m) {
      assert Agrees(pages[id := all][if q == rid then id else q], shape[if q == rid then id else q], m);
      if q == id || q == rid {
        forall k | InRange(k, shape'[q]) ensures Lookup(pages'[q].pairs, k) == Get(m, k) {
          assert InRange(k, shape[id]);
          LookupHalves(all.pairs, mid, k);
        }
      }
    }
  }

  /** Leaves that stay as they are keep their answers. */
  lemma AnswersSame(pages: Pages, shape: Shape, pages': Pages, shape': Shape, m: map<Key, Value>)
    requires Answers(pages, shape, m)
    requires forall q :: q in pages' && q in shape' && pages'[q].Leaf? ==>
      q in pages && q in shape && pages[q] == pages'[q] && shape[q] == shape'[q]
    ensures Answers(pages', shape', m)
  {
  }

  /** Deleting or inserting one pair in a leaf is the same change of the map within the range. */
  lemma AgreesInsert(p: Page, at: Place, m: map<Key, Value>, c: Pair)
    requires p.Leaf? && Sorted(p.pairs) && Agrees(p, at, m) && Lookup(p.pairs, c.key) == None
    ensures Agrees(p.(pairs := InsertAt(p.pairs, LowerBound(p.pairs, c.key), c)), at, m[c.key := c.data])
  {
    hide Lookup;
    var r := InsertAt(p.pairs, LowerBound(p.pairs, c.key), c);
    forall k | InRange(k, at) ensures Lookup(r, k) == Get(m[c.key := c.data], k) {
      LookupInsert(p.pairs, c, k);
    }
  }

  lemma AgreesRemove(p: Page, at: Place, m: map<Key, Value>, i: nat)
    requires p.Leaf? && Sorted(p.pairs) && Agrees(p, at, m) && i < |p.pairs|
    ensures Agrees(p.(pairs := RemoveAt(p.pairs, i)), at, m - {p.pairs[i].key})
  {
    hide Lookup;
    forall k | InRange(k, at) ensures Lookup(RemoveAt(p.pairs, i), k) == Get(m - {p.pairs[i].key}, k) {
      LookupRemove(p.pairs, i, k);
    }
  }

  // ---- routing ----

  /** FindChild stays inside the range that holds the key, one level down. */
  lemma Routes(root: PageId, pages: Pages, shape: Shape, id: PageId, key: Key)
    requires Inv(root, pages, shape, Settled)
    requires id in pages && pages[id].Internal? && InRange(key, shape[id])
    ensures var c := FindChild(pages[id], key);
      c in pages && shape[c].level + 1 == shape[id].level && InRange(key, shape[c])
  {
    hide Rank, Disjoint, Nodes, Chained;
    assert ChildOk(pages, shape, Settled, id, UpperBound(pages[id].seps, key));
  }

  /** The root answers for every key. */
  lemma RootHoldsAll(root: PageId, pages: Pages, shape: Shape, key: Key)
    requires Rooted(root, pages, shape, Settled)
    ensures InRange(key, shape[root])
  {
  }

  // ---- the steps of Insert on invariant and map together ----

  ghost predicate Represents(root: PageId, pages: Pages, shape: Shape, pend: Pending, m: map<Key, Value>) {
    Inv(root, pages, shape, pend) && Answers(pages, shape, m)
  }

  lemma RepresentsMeans(root: PageId, pages: Pages, shape: Shape, pend: Pending, m: map<Key, Value>)
    requires Represents(root, pages, shape, pend, m)
    ensures Inv(root, pages, shape, pend) && Answers(pages, shape, m) && pages.Keys == shape.Keys && root in pages
  {
  }

  lemma RepresentsIs(root: PageId, pages: Pages, shape: Shape, pend: Pending, m: map<Key, Value>)
    requires Inv(root, pages, shape, pend) && Answers(pages, shape, m)
    ensures Represents(root, pages, shape, pend, m)
  {
  }

  lemma LeafWriteStep(root: PageId, pages: Pages, shape: Shape, m: map<Key, Value>, id: PageId, c: Pair, freeEnd: nat)
    requires Represents(root, pages, shape, Settled, m)
    requires id in pages && pages[id].Leaf? && InRange(c.key, shape[id])
    requires Lookup(pages[id].pairs, c.key) == None
    ensures var p := pages[id];
      Represents(root, pages[id := Leaf(p.right, InsertAt(p.pairs, LowerBound(p.pairs, c.key), c), freeEnd)], shape,
                 Settled, m[c.key := c.data])
  {
    hide Rank, Lookup, Disjoint, Children, Chained, Inv, Agrees;
    var p := pages[id];
    var n := LowerBound(p.pairs, c.key);
    var p' := Leaf(p.right, InsertAt(p.pairs, n, c), freeEnd);
    assert Inv(root, pages, shape, Settled);
    InvParts(root, pages, shape, Settled);
    assert NodeOk(p, shape[id]) && Agrees(p, shape[id], m);
    InsertSorted(p.pairs, c);
    assert LeafOk(p', shape[id].lo, shape[id].hi) by { hide Sorted; InsertAtInRange(p.pairs, n, c, shape[id]); }
    LeafUpdate(root, pages, shape, id, p');
    AgreesInsert(p, shape[id], m, c);
    AgreesFreeEnd(p.(pairs := p'.pairs), freeEnd, shape[id], m[c.key := c.data]);
    AnswersUpdate(pages, shape, m, id, p', m[c.key := c.data]);
  }

  lemma InvParts(root: PageId, pages: Pages, shape: Shape, pend: Pending)
    requires Inv(root, pages, shape, pend)
    ensures Rooted(root, pages, shape, pend) && Nodes(pages, shape) && Disjoint(shape)
  {
  }

  lemma AgreesFreeEnd(p: Page, freeEnd: nat, at: Place, m: map<Key, Value>)
    requires p.Leaf? && Agrees(p, at, m)
    ensures Agrees(Leaf(p.right, p.pairs, freeEnd), at, m)
  {
  }

  lemma InsertAtInRange(pairs: seq<Pair>, n: nat, c: Pair, at: Place)
    requires n <= |pairs| && InRange(c.key, at)
    requires forall i :: 0 <= i < |pairs| ==> at.lo <= Rank(pairs[i].key) < at.hi
    ensures var r := InsertAt(pairs, n, c); forall i :: 0 <= i < |r| ==> at.lo <= Rank(r[i].key) < at.hi
  {
  }

  lemma LeafEraseStep(root: PageId, pages: Pages, shape: Shape, m: map<Key, Value>, id: PageId, i: nat)
    requires Represents(root, pages, shape, Settled, m)
    requires id in pages && pages[id].Leaf? && i < |pages[id].pairs|
    ensures var p := pages[id];
      Represents(root, pages[id := p.(pairs := RemoveAt(p.pairs, i))], shape, Settled, m - {p.pairs[i].key})
  {
    hide Rank, Lookup, Disjoint, Children, Chained, Inv, Agrees;
    var p := pages[id];
    var p' := p.(pairs := RemoveAt(p.pairs, i));
    assert Inv(root, pages, shape, Settled);
    InvParts(root, pages, shape, Settled);
    assert NodeOk(p, shape[id]) && Agrees(p, shape[id], m);
    LookupRemove(p.pairs, i, p.pairs[i].key);
    LeafUpdate(root, pages, shape, id, p');
    AgreesRemove(p, shape[id], m, i);
    AnswersUpdate(pages, shape, m, id, p', m - {p.pairs[i].key});
  }

  /** A leaf that keeps only its first n pairs forgets the rest of its range. */
  lemma LeafTruncateStep(root: PageId, pages: Pages, shape: Shape, m: map<Key, Value>, id: PageId, n: nat, freeEnd: nat)
    requires Represents(root, pages, shape, Settled, m)
    requires id in pages && pages[id].Leaf? && n < |pages[id].pairs|
    ensures var p := pages[id];
      Represents(root, pages[id := Leaf(p.right, p.pairs[..n], freeEnd)], shape, Settled,
                 Without(m, Rank(p.pairs[n].key), shape[id].hi))
  {
    hide Rank, Lookup, Disjoint, Children, Chained, Inv;
    var p := pages[id];
    var p' := Leaf(p.right, p.pairs[..n], freeEnd);
    InvParts(root, pages, shape, Settled);
    var m' := Without(m, Rank(p.pairs[n].key), shape[id].hi);
    assert NodeOk(p, shape[id]) && Agrees(p, shape[id], m);
    LeafUpdate(root, pages, shape, id, p');
    assert Agrees(p', shape[id], m') by { AgreesTruncate(p, n, freeEnd, shape[id], m); }
    AnswersUpdate(pages, shape, m, id, p', m');
  }

  lemma AgreesTruncate(p: Page, n: nat, freeEnd: nat, at: Place, m: map<Key, Value>)
    requires LeafOk(p, at.lo, at.hi) && n < |p.pairs| && Agrees(p, at, m)
    ensures Agrees(Leaf(p.right, p.pairs[..n], freeEnd), at, Without(m, Rank(p.pairs[n].key), at.hi))
  {
    hide Rank;
    forall k | InRange(k, at)
      ensures Lookup(p.pairs[..n], k) == Get(Without(m, Rank(p.pairs[n].key), at.hi), k)
    {
      LookupHalves(p.pairs, n, k);
    }
  }

  lemma LeafCutStep(root: PageId, pages: Pages, shape: Shape, m: map<Key, Value>, id: PageId, mid: nat,
                    l: Page, rid: PageId, r: Page)
    requires Represents(root, pages, shape, Settled, m)
    requires id in pages && pages[id].Leaf? && rid !in pages && rid != 0
    requires mid < |pages[id].pairs|
    requires l.Leaf? && r.Leaf? && l.right == rid && r.right == pages[id].right
    requires l.pairs == pages[id].pairs[..mid] && r.pairs == pages[id].pairs[mid..]
    ensures var sep := pages[id].pairs[mid].key;
      Represents(root, pages[id := l][rid := r], Cut(shape, id, Rank(sep), Middle(shape[id]), rid), Split(id, sep, rid),
                 m)
  {
    hide Rank, Lookup, Disjoint, Children, Chained, Agrees;
    var p := pages[id];
    InvParts(root, pages, shape, Settled);
    assert NodeOk(p, shape[id]);
    LeafHalvesOk(p, l, r, mid, shape[id]);
    LeafSplit(root, pages, shape, id, l, p.pairs[mid].key, rid, r);
    assert pages[id := p] == pages;
    AnswersCut(pages, shape, m, id, p, mid, l, Middle(shape[id]), rid, r);
  }

  /** A leaf rewritten as two halves, with the pair added, leaves a pending cut. */
  lemma LeafSplitStep(root: PageId, pages: Pages, shape: Shape, m: map<Key, Value>, id: PageId, c: Pair,
                      all: seq<Pair>, mid: nat, l: Page, rid: PageId, r: Page)
    requires Represents(root, pages, shape, Settled, m)
    requires id in pages && pages[id].Leaf? && InRange(c.key, shape[id])
    requires Lookup(pages[id].pairs, c.key) == None && rid !in pages && rid != 0
    requires all == InsertAt(pages[id].pairs, LowerBound(pages[id].pairs, c.key), c) && mid < |all|
    requires l.Leaf? && r.Leaf? && l.right == rid && r.right == pages[id].right
    requires l.pairs == all[..mid] && r.pairs == all[mid..]
    ensures Represents(root, pages[id := l][rid := r], Cut(shape, id, Rank(all[mid].key), Middle(shape[id]), rid),
                       Split(id, all[mid].key, rid), m[c.key := c.data])
  {
    hide *;
    var p := pages[id];
    var pages1 := pages[id := Leaf(p.right, all, p.freeEnd)];
    LeafWriteStep(root, pages, shape, m, id, c, p.freeEnd);
    LeafCutStep(root, pages1, shape, m[c.key := c.data], id, mid, l, rid, r);
    assert pages1[id := l][rid := r] == pages[id := l][rid := r];
  }

  lemma LeafHalvesOk(p: Page, l: Page, r: Page, mid: nat, at: Place)
    requires LeafOk(p, at.lo, at.hi) && mid < |p.pairs|
    requires l.Leaf? && l.pairs == p.pairs[..mid] && r.Leaf? && r.pairs == p.pairs[mid..]
    ensures at.lo <= Rank(p.pairs[mid].key) < at.hi
    ensures LeafOk(l, at.lo, Rank(p.pairs[mid].key)) && LeafOk(r, Rank(p.pairs[mid].key), at.hi)
  {
    hide Rank;
    assert mid > 0 ==> Rank(p.pairs[0].key) < Rank(p.pairs[mid].key);
  }

  /** Binary search and the linear scans of the parent both find the place of the child, provided the separator
      is new to the parent. */
  lemma SepPosition(root: PageId, pages: Pages, shape: Shape, pend: Pending, id: PageId, i: nat)
    requires Inv(root, pages, shape, pend) && pend.Split?
    requires id in pages && pages[id].Internal? && i <= |pages[id].seps| && ChildAt(pages[id], i) == pend.left
    ensures Sorted(pages[id].seps) && UpperBound(pages[id].seps, pend.sep) == i
    ensures ChildLo(pages[id], shape[id].lo, i) <= Rank(pend.sep) < ChildHi(pages[id], shape[id].hi, i)
    ensures Lookup(pages[id].seps, pend.sep) == None ==> LowerBound(pages[id].seps, pend.sep) == i
  {
    hide Rank, Disjoint, Chained;
    assert ChildOk(pages, shape, pend, id, i);
    assert NodeOk(pages[id], shape[id]) && NodeOk(pages[pend.left], shape[pend.left]);
    assert NodeOk(pages[pend.right], shape[pend.right]);
    RankAtUpper(pages[id].seps, pend.sep, i);
    Bounds(pages[id].seps, pend.sep);
  }

  lemma ParentStep(root: PageId, pages: Pages, shape: Shape, pend: Pending, m: map<Key, Value>, id: PageId, i: nat,
                   freeEnd: nat)
    requires Represents(root, pages, shape, pend, m) && pend.Split?
    requires id in pages && pages[id].Internal? && i <= |pages[id].seps| && ChildAt(pages[id], i) == pend.left
    requires Lookup(pages[id].seps, pend.sep) == None
    ensures Represents(root, pages[id := InsertChild(pages[id], i, pend.sep, pend.right, freeEnd)], shape, Settled, m)
  {
    hide Rank, Agrees, Inv;
    var pages' := pages[id := InsertChild(pages[id], i, pend.sep, pend.right, freeEnd)];
    ParentInsert(root, pages, shape, pend, id, i, freeEnd);
    AnswersSame(pages, shape, pages', shape, m);
  }

  lemma NodeCutStep(root: PageId, pages: Pages, shape: Shape, m: map<Key, Value>, id: PageId,
                    mid: nat, fl: nat, fr: nat, rid: PageId)
    requires Represents(root, pages, shape, Settled, m)
    requires id in pages && pages[id].Internal? && mid < |pages[id].seps| && rid !in pages && rid != 0
    ensures var all := pages[id];
      Represents(root, pages[id := LeftHalf(all, mid, fl)][rid := RightHalf(all, mid, fr)],
                 CutNode(pages, shape, id, mid, rid), Split(id, all.seps[mid].key, rid), m)
  {
    hide Rank, Agrees, Nodes, Disjoint, Chained, Children;
    var all := pages[id];
    var pages2 := pages[id := LeftHalf(all, mid, fl)][rid := RightHalf(all, mid, fr)];
    NodeSplit(root, pages, shape, id, mid, fl, fr, rid);
    AnswersSame(pages, shape, pages2, CutNode(pages, shape, id, mid, rid), m);
  }

  /** An internal page rewritten as two halves, with the separator added, moves the pending cut up. */
  lemma NodeSplitStep(root: PageId, pages: Pages, shape: Shape, pend: Pending, m: map<Key, Value>, id: PageId, i: nat,
                      all: Page, mid: nat, fl: nat, fr: nat, rid: PageId)
    requires Represents(root, pages, shape, pend, m) && pend.Split?
    requires id in pages && pages[id].Internal? && i <= |pages[id].seps| && ChildAt(pages[id], i) == pend.left
    requires Lookup(pages[id].seps, pend.sep) == None
    requires all == InsertChild(pages[id], i, pend.sep, pend.right, 0) && mid < |all.seps|
    requires rid !in pages && rid != 0
    ensures Represents(root, pages[id := LeftHalf(all, mid, fl)][rid := RightHalf(all, mid, fr)],
                       CutNode(pages[id := all], shape, id, mid, rid), Split(id, all.seps[mid].key, rid), m)
  {
    hide *;
    ParentStep(root, pages, shape, pend, m, id, i, 0);
    NodeCutStep(root, pages[id := all], shape, m, id, mid, fl, fr, rid);
    assert pages[id := all][id := LeftHalf(all, mid, fl)][rid := RightHalf(all, mid, fr)]
        == pages[id := LeftHalf(all, mid, fl)][rid := RightHalf(all, mid, fr)];
  }

  lemma NewRootStep(pages: Pages, shape: Shape, pend: Pending, m: map<Key, Value>, id: PageId, freeEnd: nat)
    requires pend.Split? && Represents(pend.left, pages, shape, pend, m)
    requires id !in pages && id != 0
    ensures pend.left in shape
    ensures Represents(id, pages[id := RootOver(pend, freeEnd)], Grown(shape, pend, id), Settled, m)
  {
    hide Rank, Agrees, Nodes, Disjoint, Chained, Children;
    NewRoot(pages, shape, pend, id, freeEnd);
    AnswersSame(pages, shape, pages[id := RootOver(pend, freeEnd)], Grown(shape, pend, id), m);
  }
}
