/** What a search still finds after a split on the way up has failed half done (internal/storage/btree.go:376-489). */
module SplitFailure {
  import opened Keys
  import opened RecordPage
  import opened TreeShape
  import opened TreeContents
  import opened Rewrite
  import opened Descent
  import opened SplitRouting
  import opened SplitPath

  /** A root that could not be put above the halves: exactly the keys from the separator on are not found any more. */
  lemma RootFull(pages: Pages, shape: Shape, left: PageId, sep: Key, right: PageId, m: map<Key, Value>, id: PageId)
    requires Represents(left, pages, shape, Split(left, sep, right), m) && id !in pages && id != 0
    ensures FindsAll(pages, left, Without(m, Rank(sep), 1.0)) && Rank(sep) < 1.0
  {
    hide Rank, Nodes, Disjoint, Chained, Children, Answers, Finds;
    var pend := Split(left, sep, right);
    var grown, places := pages[id := RootOver(pend, 0)], Grown(shape, pend, id);
    NewRootStep(pages, shape, pend, m, id, 0);
    RootStart(pages, shape, left, sep, right);
    var m' := Without(m, Rank(sep), 1.0);
    forall k ensures Finds(pages, left, k, Get(m', k)) {
      SubtreeAnswers(id, grown, places, m, pages, left, k);
      InRoot(id, grown, places, k);
    }
    assert FindsAll(pages, left, m');
  }

  lemma RootStart(pages: Pages, shape: Shape, left: PageId, sep: Key, right: PageId)
    requires Inv(left, pages, shape, Split(left, sep, right))
    ensures left in pages && left in shape && shape[left].lo == 0.0 && shape[left].hi == Rank(sep) < 1.0
    ensures forall q :: q in pages ==> q in shape && shape[q].level <= shape[left].level
  {
    assert NodeOk(pages[right], shape[right]);
  }

  /** The first cells of a page with another right child: the keys behind them go to that child. */
  lemma PartRoutes(all: Page, n: nat, r: nat, l: Page, k: Key)
    requires all.Internal? && Sorted(all.seps) && n <= r <= |all.seps|
    requires l.Internal? && l.seps == all.seps[..n] && l.right == ChildAt(all, r)
    ensures var u := UpperBound(all.seps, k);
      FindChild(l, k) == ChildAt(all, if u < n then u else r)
  {
    hide Rank;
    var u := UpperBound(all.seps, k);
    RankAtUpper(l.seps, k, if u < n then u else n);
  }

  /** The map without the keys that a page no longer routes to their child: those of the children from n on, except
      for child r. */
  ghost function KeptKeys(m: map<Key, Value>, p: Page, at: Place, n: nat, r: nat): map<Key, Value>
    requires p.Internal? && n <= r <= |p.seps|
  {
    Without(Without(m, ChildLo(p, at.lo, n), ChildLo(p, at.lo, r)), ChildHi(p, at.hi, r), at.hi)
  }

  /** A page of a search tree that is left with its first n cells and child r as its right child. */
  lemma PageFull(root: PageId, pages: Pages, shape: Shape, m: map<Key, Value>, nid: PageId, n: nat, r: nat, l: Page)
    requires Represents(root, pages, shape, Settled, m) && nid in pages && pages[nid].Internal?
    requires n <= r <= |pages[nid].seps| && (r < |pages[nid].seps| || (n < r && r >= 2))
    requires l.Internal? && l.seps == pages[nid].seps[..n] && l.right == ChildAt(pages[nid], r)
    ensures nid in shape && FindsAll(pages[nid := l], root, KeptKeys(m, pages[nid], shape[nid], n, r))
    ensures var all, at := pages[nid], shape[nid];
      ChildLo(all, at.lo, n) < ChildLo(all, at.lo, r) || ChildHi(all, at.hi, r) < at.hi
  {
    hide Rank, Nodes, Disjoint, Chained, Children, Answers, Finds;
    var all, at := pages[nid], shape[nid];
    var x, y := ChildLo(all, at.lo, n), ChildLo(all, at.lo, r);
    var z, w := ChildHi(all, at.hi, r), at.hi;
    StretchesLie(root, pages, shape, nid, n, r);
    var m' := Without(Without(m, x, y), z, w);
    forall k
      ensures var c := FindChild(l, k); c in pages && shape[c].level + 1 == at.level
      ensures Get(m', k) == if InRange(k, at) then Ranged(m, shape[FindChild(l, k)], k) else Get(m, k)
    {
      PartRoutes(all, n, r, l, k);
      PartAnswers(root, pages, shape, m, nid, n, r, k);
    }
    RewrittenFinds(root, pages, shape, m, nid, l, m');
  }

  lemma StretchesLie(root: PageId, pages: Pages, shape: Shape, nid: PageId, n: nat, r: nat)
    requires Inv(root, pages, shape, Settled) && nid in pages && pages[nid].Internal?
    requires n <= r <= |pages[nid].seps| && (r < |pages[nid].seps| || (n < r && r >= 2))
    ensures nid in shape && Sorted(pages[nid].seps)
    ensures var all, at := pages[nid], shape[nid];
      && (ChildLo(all, at.lo, n) < ChildLo(all, at.lo, r) || ChildHi(all, at.hi, r) < at.hi)
      && at.lo <= ChildLo(all, at.lo, n) <= ChildLo(all, at.lo, r) <= ChildHi(all, at.hi, r) <= at.hi
  {
    assert NodeOk(pages[nid], shape[nid]);
    hide Rank;
    var seps := pages[nid].seps;
    assert r >= 2 ==> Rank(seps[0].key) < Rank(seps[r-1].key);
    PartOrder(seps, 0, n, r);
  }

  lemma PartAnswers(root: PageId, pages: Pages, shape: Shape, m: map<Key, Value>, nid: PageId, n: nat, r: nat, k: Key)
    requires Inv(root, pages, shape, Settled) && nid in pages && pages[nid].Internal? && n <= r <= |pages[nid].seps|
    requires nid in shape
    ensures var all, at := pages[nid], shape[nid];
      var u := UpperBound(all.seps, k);
      var c := ChildAt(all, if u < n then u else r);
      && c in pages && c in shape && shape[c].level + 1 == at.level
      && Get(Without(Without(m, ChildLo(all, at.lo, n), ChildLo(all, at.lo, r)), ChildHi(all, at.hi, r), at.hi), k)
         == if InRange(k, at) then Ranged(m, shape[c], k) else Get(m, k)
  {
    hide Rank, Disjoint, Chained;
    var all, at := pages[nid], shape[nid];
    var u := UpperBound(all.seps, k);
    assert ChildOk(pages, shape, Settled, nid, if u < n then u else r);
    assert NodeOk(all, at);
    PartOrder(all.seps, u, n, r);
  }

  lemma PartOrder(seps: seq<Separator>, u: nat, n: nat, r: nat)
    requires Sorted(seps) && n <= r <= |seps| && u <= |seps|
    ensures u < n ==> Rank(seps[u].key) <= Rank(seps[n-1].key)
    ensures 0 < n <= u ==> Rank(seps[n-1].key) <= Rank(seps[u-1].key)
    ensures 0 < n ==> Rank(seps[n-1].key) <= Rank(seps[r-1].key)
    ensures r < |seps| && n > 0 ==> Rank(seps[n-1].key) <= Rank(seps[r].key)
    ensures 0 < r < |seps| ==> Rank(seps[r-1].key) <= Rank(seps[r].key)
  {
    hide Rank;
  }

  // ---- the map that is left, told from the pages before the split ----

  /** Among the children of a page after its child with the separator has been cut, the one its right pointer led to. */
  function OldRightIndex(p: Page, sep: Key): (r: nat)
    requires p.Internal?
    ensures |p.seps| <= r <= |p.seps| + 1
  {
    if UpperBound(p.seps, sep) == |p.seps| then |p.seps| else |p.seps| + 1
  }

  /** What is still found when the separator on its way up the path comes to a page without room whose halves do not
      fit pages, or to a new root that has no room for it. The page is left with as many of its cells as fit a page, of
      those below the middle one. */
  ghost function KeptMap(pages: Pages, shape: Shape, m: map<Key, Value>, path: seq<PageId>, sep: Key): map<Key, Value> {
    if |path| == 0 || path[|path|-1] !in pages || pages[path[|path|-1]].Leaf? || path[|path|-1] !in shape then
      Without(m, Rank(sep), 1.0)
    else
      var p := pages[path[|path|-1]];
      var all := Gathered(p, sep);
      var mid := |all| / 2;
      if Cost(all[..mid], SepSize) <= USABLE && Cost(all[mid+1..], SepSize) <= USABLE then
        KeptMap(pages, shape, m, path[..|path|-1], all[mid].key)
      else
        var n := Fitting(all[..mid], SepSize);
        KeptKeys(m, Internal(0, all, 0), shape[path[|path|-1]], n, if n == mid then n else OldRightIndex(p, sep))
  }

  /** It depends on nothing but the pages of the path and their places. */
  lemma {:induction false} SameKept(pages: Pages, shape: Shape, pages': Pages, shape': Shape, m: map<Key, Value>,
                                    path: seq<PageId>, sep: Key)
    requires SameOn(pages, pages', path)
    requires forall x :: x in path ==> x in shape && x in shape' && shape'[x] == shape[x]
    ensures KeptMap(pages', shape', m, path, sep) == KeptMap(pages, shape, m, path, sep)
    decreases |path|
  {
    hide Cost, Gathered, KeptKeys, Without, Fitting;
    if |path| > 0 && pages[path[|path|-1]].Internal? {
      var all := Gathered(pages[path[|path|-1]], sep);
      SameKept(pages, shape, pages', shape', m, path[..|path|-1], all[|all|/2].key);
    }
  }

  /** Where the halves fit, the page above decides. */
  lemma KeptAbove(pages: Pages, shape: Shape, m: map<Key, Value>, path: seq<PageId>, left: PageId, sep: Key,
                  right: PageId)
    requires |path| > 0 && path[|path|-1] in pages && pages[path[|path|-1]].Internal? && path[|path|-1] in shape
    requires var all := ParentAfter(pages[path[|path|-1]], left, sep, right, 0).seps; var mid := |all| / 2;
      Cost(all[..mid], SepSize) <= USABLE && Cost(all[mid+1..], SepSize) <= USABLE
    ensures var all := ParentAfter(pages[path[|path|-1]], left, sep, right, 0).seps;
      KeptMap(pages, shape, m, path, sep) == KeptMap(pages, shape, m, path[..|path|-1], all[|all|/2].key)
  {
    var p := pages[path[|path|-1]];
    GatheredCost(p, left, sep, right);
    hide Cost, Gathered, KeptKeys, Without, Fitting, ParentAfter;
  }

  lemma GatheredCost(p: Page, left: PageId, sep: Key, right: PageId)
    requires p.Internal?
    ensures var all, g := ParentAfter(p, left, sep, right, 0).seps, Gathered(p, sep); var mid := |all| / 2;
      && |all| == |g| && all[mid].key == g[mid].key
      && Cost(all[..mid], SepSize) == Cost(g[..mid], SepSize)
      && Cost(all[mid+1..], SepSize) == Cost(g[mid+1..], SepSize)
      && Fitting(all[..mid], SepSize) == Fitting(g[..mid], SepSize)
  {
    var all, g := ParentAfter(p, left, sep, right, 0).seps, Gathered(p, sep);
    GatheredKeys(p, left, sep, right);
    hide Cost, ParentAfter, Gathered, Fitting;
    var mid := |all| / 2;
    SameKeysCost(all[..mid], g[..mid]);
    SameKeysCost(all[mid+1..], g[mid+1..]);
    SameKeysFit(all[..mid], g[..mid]);
  }

  lemma {:induction false} SameKeysFit(a: seq<Separator>, b: seq<Separator>)
    requires |a| == |b| && forall i :: 0 <= i < |a| ==> a[i].key == b[i].key
    ensures Fitting(a, SepSize) == Fitting(b, SepSize)
    decreases |a|
  {
    hide Cost;
    SameKeysCost(a, b);
    if Cost(a, SepSize) > USABLE {
      assert Cost([], SepSize) <= USABLE by { CostEmpty<PageId>([], SepSize); }
      SameKeysFit(a[..|a|-1], b[..|b|-1]);
    }
  }

  lemma SameKeptKeys(m: map<Key, Value>, p: Page, q: Page, at: Place, n: nat, r: nat)
    requires p.Internal? && q.Internal? && |p.seps| == |q.seps| && n <= r <= |p.seps|
    requires forall i :: 0 <= i < |p.seps| ==> p.seps[i].key == q.seps[i].key
    ensures KeptKeys(m, p, at, n, r) == KeptKeys(m, q, at, n, r)
  {
    hide Without, Rank;
  }

  /** Where they do not fit, this page does. */
  lemma KeptHere(pages: Pages, shape: Shape, m: map<Key, Value>, path: seq<PageId>, left: PageId, sep: Key,
                 right: PageId)
    requires |path| > 0 && path[|path|-1] in pages && pages[path[|path|-1]].Internal? && path[|path|-1] in shape
    requires var all := ParentAfter(pages[path[|path|-1]], left, sep, right, 0).seps; var mid := |all| / 2;
      !(Cost(all[..mid], SepSize) <= USABLE && Cost(all[mid+1..], SepSize) <= USABLE)
    ensures var p := pages[path[|path|-1]];
      var all := ParentAfter(p, left, sep, right, 0);
      var mid := |all.seps| / 2;
      var n := Fitting(all.seps[..mid], SepSize);
      KeptMap(pages, shape, m, path, sep) ==
        KeptKeys(m, all, shape[path[|path|-1]], n, if n == mid then n else OldRightIndex(p, sep))
  {
    var p := pages[path[|path|-1]];
    var all := ParentAfter(p, left, sep, right, 0);
    GatheredCost(p, left, sep, right);
    GatheredKeys(p, left, sep, right);
    var n := Fitting(all.seps[..|all.seps|/2], SepSize);
    SameKeptKeys(m, Internal(0, Gathered(p, sep), 0), all, shape[path[|path|-1]], n,
                 if n == |all.seps| / 2 then n else OldRightIndex(p, sep));
    hide Cost, Gathered, Without, Fitting, ParentAfter, OldRightIndex, KeptKeys;
  }
}
