/** What a split does to the routing of the pages above it, and when it loses keys: insertIntoParent,
    fixInternalPointers, splitInternalNode and createNewRoot of internal/storage/btree.go, for any promoted key. */
module SplitRouting {
  import opened Keys
  import opened RecordPage
  import opened TreeShape
  import opened Rewrite

  /** The parent after InsertInternalCell and fixInternalPointers, whatever its cells are. */
  function ParentAfter(p: Page, left: PageId, sep: Key, right: PageId, freeEnd: nat): (p': Page)
    requires p.Internal?
    ensures p'.Internal? && |p'.seps| == |p.seps| + 1
    ensures forall j :: 0 <= j < |p'.seps| ==>
      p'.seps[j].key == InsertAt(p.seps, LowerBound(p.seps, sep), Cell(sep, left))[j].key
  {
    var j := LowerBound(p.seps, sep);
    var seps := InsertAt(p.seps, j, Cell(sep, left));
    if j + 1 < |seps| then Internal(p.right, seps[j+1 := Cell(seps[j+1].key, right)], freeEnd)
    else Internal(right, seps, freeEnd)
  }

  ghost predicate DistinctChildren(p: Page)
    requires p.Internal?
  {
    forall i, j :: 0 <= i < j <= |p.seps| ==> ChildAt(p, i) != ChildAt(p, j)
  }

  // ---- one parent ----

  /** The keys of the parent, from which routing can be read off. */
  lemma KeysAfter(p: Page, left: PageId, sep: Key, right: PageId, freeEnd: nat, j: nat)
    requires p.Internal? && j <= |p.seps|
    ensures var b := LowerBound(p.seps, sep);
      ParentAfter(p, left, sep, right, freeEnd).seps[j].key ==
        if j < b then p.seps[j].key else if j == b then sep else p.seps[j-1].key
  {
  }

  /** The children of the parent: the new cell points to the left half, whatever comes behind it to the right half. */
  lemma ChildrenAfter(p: Page, left: PageId, sep: Key, right: PageId, freeEnd: nat, j: nat)
    requires p.Internal? && j <= |p.seps| + 1
    ensures var b := LowerBound(p.seps, sep);
      ChildAt(ParentAfter(p, left, sep, right, freeEnd), j) ==
        if j < b then ChildAt(p, j) else if j == b then left else if j == b + 1 then right else ChildAt(p, j - 1)
  {
  }

  lemma AscendingAfter(p: Page, left: PageId, sep: Key, right: PageId, freeEnd: nat)
    requires p.Internal? && Sorted(p.seps)
    ensures Ascending(ParentAfter(p, left, sep, right, freeEnd).seps)
    ensures Lookup(p.seps, sep) == None ==> Sorted(ParentAfter(p, left, sep, right, freeEnd).seps)
  {
    var p', b := ParentAfter(p, left, sep, right, freeEnd), LowerBound(p.seps, sep);
    assert Lookup(p.seps, sep) == None && b < |p.seps| ==> Rank(sep) < Rank(p.seps[b].key) by {
      if b < |p.seps| {
        RankIsLexicographic(sep, p.seps[b].key);
      }
    }
    forall i, j | 0 <= i < j < |p'.seps|
      ensures Rank(p'.seps[i].key) <= Rank(p'.seps[j].key)
      ensures Lookup(p.seps, sep) == None ==> Rank(p'.seps[i].key) < Rank(p'.seps[j].key)
    {
      KeysAfter(p, left, sep, right, freeEnd, i);
      KeysAfter(p, left, sep, right, freeEnd, j);
      OrderAfter(p.seps, sep, b, i, j);
    }
  }

  lemma OrderAfter(seps: seq<Separator>, sep: Key, b: nat, i: nat, j: nat)
    requires Sorted(seps) && b == LowerBound(seps, sep) && i < j <= |seps|
    ensures var x := if i < b then seps[i].key else if i == b then sep else seps[i-1].key;
      var y := if j < b then seps[j].key else if j == b then sep else seps[j-1].key;
      Rank(x) <= Rank(y) && ((b < |seps| ==> Rank(sep) < Rank(seps[b].key)) ==> Rank(x) < Rank(y))
  {
    hide Rank;
  }

  /** For a new separator of the child's range the parent is the one in which the cut child makes way for its halves. */
  lemma AfterIsInsertChild(p: Page, i: nat, left: PageId, sep: Key, right: PageId, freeEnd: nat)
    requires p.Internal? && Sorted(p.seps) && Lookup(p.seps, sep) == None
    requires i <= |p.seps| && UpperBound(p.seps, sep) == i && ChildAt(p, i) == left
    ensures ParentAfter(p, left, sep, right, freeEnd) == InsertChild(p, i, sep, right, freeEnd)
  {
    Bounds(p.seps, sep);
    hide Rank, UpperBound, LowerBound, Lookup;
    var q, r := ParentAfter(p, left, sep, right, freeEnd), InsertChild(p, i, sep, right, freeEnd);
    forall j | 0 <= j < |q.seps| ensures q.seps[j] == r.seps[j] {
    }
  }

  /** The key lies in the same gap between separators as the other one. */
  ghost predicate SameGap(p: Page, key: Key, k: Key)
    requires p.Internal?
  {
    UpperBound(p.seps, k) == UpperBound(p.seps, key)
  }

  /** Where a key of the cut child's range goes: to its half if the separator is new, otherwise to the left one in
      any case. */
  lemma LinkRoutes(p: Page, left: PageId, sep: Key, right: PageId, freeEnd: nat, key: Key)
    requires p.Internal? && Sorted(p.seps) && FindChild(p, key) == left && SameGap(p, key, sep)
    ensures Lookup(p.seps, sep) != None ==> Rank(sep) <= Rank(key)
    ensures FindChild(ParentAfter(p, left, sep, right, freeEnd), key) ==
      if Lookup(p.seps, sep) == None && Rank(sep) <= Rank(key) then right else left
  {
    var p' := ParentAfter(p, left, sep, right, freeEnd);
    var u := UpperBound(p.seps, key);
    Bounds(p.seps, sep);
    UpperAfter(p, left, sep, right, freeEnd, key);
    ChildrenAfter(p, left, sep, right, freeEnd, u);
    ChildrenAfter(p, left, sep, right, freeEnd, u + 1);
  }

  lemma UpperAfter(p: Page, left: PageId, sep: Key, right: PageId, freeEnd: nat, key: Key)
    requires p.Internal? && Sorted(p.seps)
    ensures UpperBound(ParentAfter(p, left, sep, right, freeEnd).seps, key)
         == UpperBound(p.seps, key) + if Rank(sep) <= Rank(key) then 1 else 0
  {
    var p' := ParentAfter(p, left, sep, right, freeEnd);
    var u := UpperBound(p.seps, key) + if Rank(sep) <= Rank(key) then 1 else 0;
    AscendingAfter(p, left, sep, right, freeEnd);
    if u > 0 {
      KeysAfter(p, left, sep, right, freeEnd, u - 1);
    }
    if u < |p'.seps| {
      KeysAfter(p, left, sep, right, freeEnd, u);
    }
    UpperAscending(p'.seps, key, u);
  }

  lemma UpperAscending(seps: seq<Separator>, k: Key, u: nat)
    requires Ascending(seps) && u <= |seps|
    requires u > 0 ==> Rank(seps[u-1].key) <= Rank(k)
    requires u < |seps| ==> Rank(k) < Rank(seps[u].key)
    ensures UpperBound(seps, k) == u
  {
    hide Rank;
    assert forall j :: 0 <= j < u ==> Rank(seps[j].key) <= Rank(seps[u-1].key);
    assert forall j :: u <= j < |seps| ==> Rank(seps[u].key) <= Rank(seps[j].key);
  }

  /** Keys that do not belong to the child that was cut are routed as before. */
  ghost predicate RoutingKept(p: Page, p': Page, i: nat)
    requires p.Internal? && p'.Internal?
  {
    forall k :: UpperBound(p.seps, k) != i ==> FindChild(p', k) == FindChild(p, k)
  }

  /** With a new separator, routing is kept. */
  lemma FreshKeeps(p: Page, i: nat, sep: Key, right: PageId)
    requires p.Internal? && Sorted(p.seps) && UpperBound(p.seps, sep) == i && Lookup(p.seps, sep) == None
    ensures RoutingKept(p, ParentAfter(p, ChildAt(p, i), sep, right, p.freeEnd), i)
  {
    Bounds(p.seps, sep);
    forall k | UpperBound(p.seps, k) != i
      ensures FindChild(ParentAfter(p, ChildAt(p, i), sep, right, p.freeEnd), k) == FindChild(p, k)
    {
      var u := UpperBound(p.seps, k);
      UpperAfter(p, ChildAt(p, i), sep, right, p.freeEnd, k);
      ChildrenAfter(p, ChildAt(p, i), sep, right, p.freeEnd, u + if Rank(sep) <= Rank(k) then 1 else 0);
      GapOrder(p.seps, sep, k);
    }
  }

  lemma GapOrder(seps: seq<Separator>, a: Key, b: Key)
    requires Sorted(seps)
    ensures UpperBound(seps, a) < UpperBound(seps, b) ==> Rank(a) < Rank(b)
    ensures UpperBound(seps, b) < UpperBound(seps, a) ==> Rank(b) < Rank(a)
  {
  }

  /** With a separator the parent already has, no key reaches the right half, where the new pair is, nor the sibling
      before the cut page; both their keys and the cut page's own are sent to the left half. */
  lemma RepeatedLosesSibling(p: Page, i: nat, sep: Key, right: PageId, k: Key)
    requires p.Internal? && Sorted(p.seps) && UpperBound(p.seps, sep) == i && Lookup(p.seps, sep) != None
    requires DistinctChildren(p) && forall j :: 0 <= j <= |p.seps| ==> ChildAt(p, j) != right
    ensures i > 0
    ensures var p' := ParentAfter(p, ChildAt(p, i), sep, right, p.freeEnd);
      && FindChild(p, sep) == ChildAt(p, i) == FindChild(p', sep)
      && FindChild(p', k) != right && FindChild(p', k) != ChildAt(p, i - 1)
      && (UpperBound(p.seps, k) == i - 1 ==> FindChild(p, k) == ChildAt(p, i - 1) && FindChild(p', k) == ChildAt(p, i))
  {
    Bounds(p.seps, sep);
    var u := UpperBound(p.seps, k);
    LinkRoutes(p, ChildAt(p, i), sep, right, p.freeEnd, sep);
    UpperAfter(p, ChildAt(p, i), sep, right, p.freeEnd, k);
    ChildrenAfter(p, ChildAt(p, i), sep, right, p.freeEnd, u);
    ChildrenAfter(p, ChildAt(p, i), sep, right, p.freeEnd, u + 1);
    GapOrder(p.seps, sep, k);
    hide UpperBound, LowerBound, Lookup;
    assert u != i - 1 && u < i ==> ChildAt(p, u) != ChildAt(p, i - 1);
    assert u > i ==> ChildAt(p, u) != ChildAt(p, i - 1);
    assert ChildAt(p, i) != ChildAt(p, i - 1);
    RepeatedAt(p.seps, sep, i, k);
  }

  lemma RepeatedAt(seps: seq<Separator>, sep: Key, i: nat, k: Key)
    requires Sorted(seps) && 0 < i <= |seps| && UpperBound(seps, sep) == i && seps[i-1].key == sep
    ensures UpperBound(seps, k) < i <==> Rank(k) < Rank(sep)
  {
  }

  /** Splitting below a parent keeps the routing of all other children exactly when the promoted key is not one of the
      parent's separators yet, or is the empty key: no key comes before that one, so the sibling answers for none. */
  lemma RoutingIff(p: Page, i: nat, sep: Key, right: PageId)
    requires p.Internal? && Sorted(p.seps) && UpperBound(p.seps, sep) == i
    requires DistinctChildren(p) && forall j :: 0 <= j <= |p.seps| ==> ChildAt(p, j) != right
    ensures RoutingKept(p, ParentAfter(p, ChildAt(p, i), sep, right, p.freeEnd), i) <==>
      Lookup(p.seps, sep) == None || sep == []
  {
    hide Rank, UpperBound, LowerBound;
    if Lookup(p.seps, sep) == None {
      FreshKeeps(p, i, sep, right);
    } else if sep == [] {
      EmptyKeeps(p, i, sep, right);
    } else {
      Bounds(p.seps, sep);
      var k := if i - 1 == 0 then [] else p.seps[i-2].key;
      assert Rank(k) < Rank(p.seps[i-1].key) by {
        EmptyIsFirst(sep);
      }
      RankAtUpper(p.seps, k, i - 1);
      RepeatedLosesSibling(p, i, sep, right, k);
    }
  }

  lemma EmptyIsFirst(k: Key)
    ensures Rank([]) <= Rank(k) && (k != [] ==> Rank([]) < Rank(k))
  {
    if k != [] {
      RankIsLexicographic([], k);
      assert k[..0] == [];
      assert Before([], k);
    }
  }

  /** Repeating the empty key: the child before it has no keys of its own. */
  lemma EmptyKeeps(p: Page, i: nat, sep: Key, right: PageId)
    requires p.Internal? && Sorted(p.seps) && UpperBound(p.seps, sep) == i && sep == [] && Lookup(p.seps, sep) != None
    ensures RoutingKept(p, ParentAfter(p, ChildAt(p, i), sep, right, p.freeEnd), i)
  {
    Bounds(p.seps, sep);
    EmptyFound(p.seps, i);
    hide Rank, UpperBound, LowerBound, Lookup;
    forall k | UpperBound(p.seps, k) != i
      ensures FindChild(ParentAfter(p, ChildAt(p, i), sep, right, p.freeEnd), k) == FindChild(p, k)
    {
      var u := UpperBound(p.seps, k);
      EmptyIsFirst(k);
      UpperAfter(p, ChildAt(p, i), sep, right, p.freeEnd, k);
      ChildrenAfter(p, ChildAt(p, i), sep, right, p.freeEnd, u + 1);
      GapOrder(p.seps, sep, k);
    }
  }

  lemma EmptyFound(seps: seq<Separator>, i: nat)
    requires Sorted(seps) && 0 < i <= |seps| && seps[i-1].key == []
    ensures i == 1
  {
    if i > 1 {
      EmptyIsFirst(seps[0].key);
    }
  }

  /** The promoted key lies strictly above the leaf's lower separator exactly when the split is not a
      lone one: a leaf holding nothing but the new pair, whose key is that separator. */
  lemma PromotedIsNew(lo: Key, pairs: seq<Pair>, c: Pair)
    requires Sorted(pairs) && Lookup(pairs, c.key) == None && Rank(lo) <= Rank(c.key)
    requires forall i :: 0 <= i < |pairs| ==> Rank(lo) <= Rank(pairs[i].key)
    ensures var all := InsertAt(pairs, LowerBound(pairs, c.key), c);
      Rank(lo) < Rank(all[|all|/2].key) <==> !(|pairs| == 0 && c.key == lo)
  {
    hide Rank, LowerBound, Lookup;
    var all := InsertAt(pairs, LowerBound(pairs, c.key), c);
    InsertSorted(pairs, c);
    RankIsLexicographic(lo, c.key);
    if |pairs| > 0 {
      assert Rank(all[0].key) < Rank(all[|all|/2].key);
      assert all[0] == c || all[0] == pairs[0];
    }
  }

  // ---- an internal page cut in two ----

  /** What is left of a page after its cells have been rewritten as two halves around the middle one. */
  ghost predicate Halves(all: Page, mid: nat, l: Page, q: Page) {
    && all.Internal? && mid < |all.seps| && l.Internal? && q.Internal?
    && Copied(l.seps, all.seps[..mid]) && l.right == all.seps[mid].data
    && Copied(q.seps, all.seps[mid+1..]) && q.right == all.right
  }

  /** The cell with a key above the given one occurs once. */
  ghost predicate SingleAbove(seps: seq<Separator>, key: Key) {
    forall i, j :: 0 <= i < j < |seps| && Rank(key) < Rank(seps[j].key) ==> seps[i].key != seps[j].key
  }

  /** Each half routes the keys on its side as the whole page did; the left one sends all others to its last child. */
  lemma HalvesRoute(all: Page, mid: nat, l: Page, q: Page, key: Key)
    requires Halves(all, mid, l, q) && Ascending(all.seps) && SingleAbove(all.seps, key)
    ensures FindChild(if Rank(key) < Rank(all.seps[mid].key) then l else q, key) == FindChild(all, key)
    ensures Rank(all.seps[mid].key) <= Rank(key) ==> FindChild(l, key) == all.seps[mid].data
  {
    hide *;
    HalvesParts(all, mid, l, q);
    var u := UpperBound(all.seps, key);
    UpperMeans(all.seps, key, u);
    PartAscending(all.seps, l.seps, 0, mid);
    PartAscending(all.seps, q.seps, mid + 1, |all.seps|);
    PartSize(all.seps, l.seps, 0, mid);
    PartSize(all.seps, q.seps, mid + 1, |all.seps|);
    UpperSide(all.seps, key, u, mid);
    if Rank(key) < Rank(all.seps[mid].key) {
      PartKey(all.seps, l.seps, 0, mid, u, key);
    } else {
      PartTop(all.seps, l.seps, mid, key);
      PartKey(all.seps, q.seps, mid + 1, |all.seps|, u, key);
    }
    FindIs(all, key);
    FindIs(l, key);
    FindIs(q, key);
  }

  lemma FindIs(p: Page, key: Key)
    requires p.Internal?
    ensures var u := UpperBound(p.seps, key); FindChild(p, key) == if u < |p.seps| then p.seps[u].data else p.right
  {
  }

  lemma HalvesParts(all: Page, mid: nat, l: Page, q: Page)
    requires Halves(all, mid, l, q)
    ensures all.Internal? && mid < |all.seps| && l.Internal? && q.Internal?
    ensures Copied(l.seps, all.seps[0..mid]) && Copied(l.seps, all.seps[..mid])
    ensures Copied(q.seps, all.seps[mid+1..|all.seps|])
    ensures l.right == all.seps[mid].data && q.right == all.right
  {
    assert all.seps[0..mid] == all.seps[..mid] && all.seps[mid+1..|all.seps|] == all.seps[mid+1..];
  }

  lemma UpperSide(seps: seq<Separator>, key: Key, u: nat, mid: nat)
    requires Ascending(seps) && mid < |seps| && u == UpperBound(seps, key)
    ensures Rank(key) < Rank(seps[mid].key) <==> u <= mid
  {
    hide Rank;
  }

  lemma PartAscending(seps: seq<Separator>, out: seq<Separator>, a: nat, b: nat)
    requires Ascending(seps) && a <= b <= |seps| && Copied(out, seps[a..b])
    ensures Ascending(out)
  {
    hide Rank;
    forall i, j | 0 <= i < j < |out| ensures Rank(out[i].key) <= Rank(out[j].key) {
      assert out[i].key == seps[a..b][i].key == seps[a+i].key && out[j].key == seps[a..b][j].key == seps[a+j].key;
    }
  }

  lemma PartKey(seps: seq<Separator>, out: seq<Separator>, a: nat, b: nat, u: nat, key: Key)
    requires Ascending(seps) && SingleAbove(seps, key) && a <= u <= b <= |seps| && Copied(out, seps[a..b])
    requires Ascending(out)
    requires u == UpperBound(seps, key)
    ensures UpperBound(out, key) == u - a && (u < b ==> out[u-a] == seps[u])
  {
    hide *;
    UpperMeans(seps, key, u);
    PartSize(seps, out, a, b);
    if u > a {
      PartAt(seps, out, a, b, u - 1);
    }
    if u < b {
      PartAt(seps, out, a, b, u);
      PartAlone(seps, a, b, u, key);
      CopiedAlone(out, seps[a..b], u - a);
    }
    UpperAscending(out, key, u - a);
  }

  lemma UpperMeans(seps: seq<Separator>, key: Key, u: nat)
    requires u == UpperBound(seps, key)
    ensures u <= |seps|
    ensures u > 0 ==> Rank(seps[u-1].key) <= Rank(key)
    ensures u < |seps| ==> Rank(key) < Rank(seps[u].key)
  {
  }

  lemma PartSize(seps: seq<Separator>, out: seq<Separator>, a: nat, b: nat)
    requires a <= b <= |seps| && Copied(out, seps[a..b])
    ensures |out| == b - a
  {
  }

  lemma PartAt(seps: seq<Separator>, out: seq<Separator>, a: nat, b: nat, i: nat)
    requires a <= i < b <= |seps| && Copied(out, seps[a..b])
    ensures i - a < |out| && out[i-a].key == seps[i].key && seps[a..b][i-a] == seps[i]
  {
  }

  lemma PartAlone(seps: seq<Separator>, a: nat, b: nat, u: nat, key: Key)
    requires Ascending(seps) && SingleAbove(seps, key) && a <= u < b <= |seps| && Rank(key) < Rank(seps[u].key)
    ensures Alone(seps[a..b], u - a)
  {
    hide Rank;
    forall j | 0 <= j < b - a && j != u - a ensures seps[a..b][j].key != seps[a..b][u-a].key {
      SingleOne(seps, key, u, a + j);
    }
  }

  lemma SingleOne(seps: seq<Separator>, key: Key, u: nat, v: nat)
    requires Ascending(seps) && SingleAbove(seps, key) && u < |seps| && v < |seps| && u != v
    requires Rank(key) < Rank(seps[u].key)
    ensures seps[v].key != seps[u].key
  {
    hide Rank;
  }

  lemma PartTop(seps: seq<Separator>, out: seq<Separator>, mid: nat, key: Key)
    requires Ascending(seps) && mid < |seps| && Copied(out, seps[..mid]) && Rank(seps[mid].key) <= Rank(key)
    ensures UpperBound(out, key) == mid
  {
    hide Rank;
    CopiedSize(out, seps[..mid]);
    forall j: nat | j < mid ensures Rank(out[j].key) <= Rank(key) {
      CopiedKey(out, seps, mid, j);
    }
  }

  lemma SingleAfter(p: Page, left: PageId, sep: Key, right: PageId, freeEnd: nat, key: Key)
    requires p.Internal? && Sorted(p.seps) && (Lookup(p.seps, sep) != None ==> Rank(sep) <= Rank(key))
    ensures SingleAbove(ParentAfter(p, left, sep, right, freeEnd).seps, key)
  {
    var p' := ParentAfter(p, left, sep, right, freeEnd);
    AscendingAfter(p, left, sep, right, freeEnd);
    Bounds(p.seps, sep);
    forall i, j | 0 <= i < j < |p'.seps| && Rank(key) < Rank(p'.seps[j].key) ensures p'.seps[i].key != p'.seps[j].key {
      KeysAfter(p, left, sep, right, freeEnd, i);
      KeysAfter(p, left, sep, right, freeEnd, j);
    }
  }
}
