/** A promoted separator on its way up the path of a split (internal/storage/btree.go:319-489): where it stays,
    when no room is found for it, and which half a key is sent to in the end. */
module SplitPath {
  import opened Keys
  import opened RecordPage
  import opened TreeShape
  import opened Rewrite
  import opened Descent
  import opened SplitRouting

  /** The path leads from the root to the parent of child. */
  ghost predicate Above(root: PageId, pages: Pages, path: seq<PageId>, child: PageId, key: Key) {
    Linked(pages, path + [child], key) && (path + [child])[0] == root
  }

  /** The pages above a cut, from the root down: sorted, all different, and with the separator and all that lies
      below in the gap that the key falls into. */
  ghost predicate Ladder(root: PageId, pages: Pages, path: seq<PageId>, child: PageId, sep: Key, key: Key) {
    && Above(root, pages, path, child, key)
    && (forall i :: 0 <= i < |path| ==> Rung(pages, path[i], key, sep))
    && (forall i, j :: 0 <= i < j < |path| ==> path[i] != path[j] && Nested(pages, path[i], path[j], key))
  }

  ghost predicate Rung(pages: Pages, id: PageId, key: Key, sep: Key) {
    id in pages && pages[id].Internal? && Sorted(pages[id].seps) && SameGap(pages[id], key, sep)
  }

  /** The separators of the lower page fall into one gap of the upper page. */
  ghost predicate Nested(pages: Pages, upper: PageId, lower: PageId, key: Key) {
    && upper in pages && pages[upper].Internal? && lower in pages && pages[lower].Internal?
    && forall t :: 0 <= t < |pages[lower].seps| ==> SameGap(pages[upper], key, pages[lower].seps[t].key)
  }

  // ---- where the separator stays ----

  /** The separators of a full page with the new one. */
  function Gathered(p: Page, sep: Key): (all: seq<Separator>)
    requires p.Internal?
    ensures |all| == |p.seps| + 1
  {
    InsertAt(p.seps, LowerBound(p.seps, sep), Cell(sep, 0))
  }

  /** The first page on the way up that keeps the separator has it already. A page without separators that has no
      room for it passes it on. */
  predicate Repeats(pages: Pages, path: seq<PageId>, sep: Key) {
    |path| > 0 && path[|path|-1] in pages && pages[path[|path|-1]].Internal? &&
    var p := pages[path[|path|-1]];
    if Lookup(p.seps, sep) != None then true
    else |p.seps| == 0 && InternalInsert(p, 0, sep).None? && Repeats(pages, path[..|path|-1], sep)
  }

  /** The keys from the separator on arrive at the right half. */
  predicate Lands(pages: Pages, path: seq<PageId>, sep: Key) {
    if |path| == 0 || path[|path|-1] !in pages || pages[path[|path|-1]].Leaf? then true
    else
      var p := pages[path[|path|-1]];
      var above := path[..|path|-1];
      if InternalInsert(p, 0, sep).Some? then Lookup(p.seps, sep) == None
      else if |p.seps| == 0 then Lands(pages, above, sep)
      else if Lookup(p.seps, sep) == None then true
      else p.seps[0].key == sep && |p.seps| <= 2 && !Lands(pages, above, sep)
  }

  /** The page above takes the separator in, or shares more than two of its own between its halves. */
  predicate Takes(pages: Pages, path: seq<PageId>, sep: Key) {
    |path| > 0 && path[|path|-1] in pages && pages[path[|path|-1]].Internal? ==>
      InternalInsert(pages[path[|path|-1]], 0, sep).Some? || |pages[path[|path|-1]].seps| > 2
  }

  /** Some page on the way up has no room and its halves do not fit pages either. */
  predicate Overflows(pages: Pages, path: seq<PageId>, sep: Key) {
    if |path| == 0 || path[|path|-1] !in pages || pages[path[|path|-1]].Leaf? then
      InternalInsert(EmptyInternal(0), 0, sep).None?
    else
      var p := pages[path[|path|-1]];
      if InternalInsert(p, 0, sep).Some? then false
      else
        var all := Gathered(p, sep);
        var mid := |all| / 2;
        !(Cost(all[..mid], SepSize) <= USABLE && Cost(all[mid+1..], SepSize) <= USABLE)
        || Overflows(pages, path[..|path|-1], all[mid].key)
  }

  // ---- they depend on the path alone ----

  ghost predicate SameOn(pages: Pages, pages': Pages, path: seq<PageId>) {
    forall i :: 0 <= i < |path| ==> path[i] in pages && path[i] in pages' && pages'[path[i]] == pages[path[i]]
  }

  lemma {:induction false} SameRepeats(pages: Pages, pages': Pages, path: seq<PageId>, sep: Key)
    requires SameOn(pages, pages', path)
    ensures Repeats(pages', path, sep) == Repeats(pages, path, sep)
    decreases |path|
  {
    hide Lookup, InternalInsert;
    if |path| > 0 {
      SameRepeats(pages, pages', path[..|path|-1], sep);
    }
  }

  lemma {:induction false} SameLands(pages: Pages, pages': Pages, path: seq<PageId>, sep: Key)
    requires SameOn(pages, pages', path)
    ensures Lands(pages', path, sep) == Lands(pages, path, sep)
    decreases |path|
  {
    hide Lookup, InternalInsert;
    if |path| > 0 {
      SameLands(pages, pages', path[..|path|-1], sep);
    }
  }

  lemma {:induction false} SameOverflows(pages: Pages, pages': Pages, path: seq<PageId>, sep: Key)
    requires SameOn(pages, pages', path)
    ensures Overflows(pages', path, sep) == Overflows(pages, path, sep)
    decreases |path|
  {
    hide LowerBound, Cost, InternalInsert, Gathered;
    if |path| > 0 && pages[path[|path|-1]].Internal? {
      var all := Gathered(pages[path[|path|-1]], sep);
      SameOverflows(pages, pages', path[..|path|-1], all[|all|/2].key);
    }
  }

  lemma SameOutcome(pages: Pages, pages': Pages, path: seq<PageId>, sep: Key)
    requires SameOn(pages, pages', path)
    ensures Repeats(pages', path, sep) == Repeats(pages, path, sep)
    ensures Lands(pages', path, sep) == Lands(pages, path, sep)
    ensures Overflows(pages', path, sep) == Overflows(pages, path, sep)
  {
    hide *;
    SameRepeats(pages, pages', path, sep);
    SameLands(pages, pages', path, sep);
    SameOverflows(pages, pages', path, sep);
  }

  /** A separator above another one of the same gaps is new to every page of the path. */
  lemma {:induction false} FreshAbove(pages: Pages, path: seq<PageId>, key: Key, low: Key, sep: Key)
    requires forall i :: 0 <= i < |path| ==> Rung(pages, path[i], key, sep) && Rung(pages, path[i], key, low)
    requires Rank(low) < Rank(sep)
    ensures !Repeats(pages, path, sep) && Lands(pages, path, sep)
    decreases |path|
  {
    hide Rank, LowerBound, InternalInsert, Sorted, UpperBound;
    if |path| > 0 {
      var id := path[|path|-1];
      assert Rung(pages, id, key, sep) && Rung(pages, id, key, low);
      FreshInGap(pages[id], key, low, sep);
      FreshAbove(pages, path[..|path|-1], key, low, sep);
    }
  }

  lemma FreshInGap(p: Page, key: Key, low: Key, sep: Key)
    requires p.Internal? && Sorted(p.seps) && SameGap(p, key, sep) && SameGap(p, key, low) && Rank(low) < Rank(sep)
    ensures Lookup(p.seps, sep) == None
  {
    Bounds(p.seps, sep);
  }

  // ---- the ladder of a search tree ----

  /** Descending the path narrows the range. */
  lemma {:induction false} RangesNarrow(root: PageId, pages: Pages, shape: Shape, pend: Pending, full: seq<PageId>,
                                        key: Key, i: nat, j: nat)
    requires Inv(root, pages, shape, pend) && Linked(pages, full, key) && i < j < |full|
    requires forall n :: 0 <= n < j ==> pend.Split? ==> full[n] != pend.left
    ensures full[i] in shape && full[j] in shape && shape[full[j]].level < shape[full[i]].level
    ensures full[i] in pages && pages[full[i]].Internal?
    ensures var u := UpperBound(pages[full[i]].seps, key);
      && ChildLo(pages[full[i]], shape[full[i]].lo, u) <= shape[full[j]].lo
      && SpanHi(shape, pend, full[j]) <= ChildHi(pages[full[i]], shape[full[i]].hi, u)
    decreases j - i
  {
    hide Rank, Disjoint, Chained, Sorted;
    var id := full[i];
    var u := UpperBound(pages[id].seps, key);
    assert full[i+1] == FindChild(pages[id], key) == ChildAt(pages[id], u);
    assert ChildOk(pages, shape, pend, id, u);
    if i + 1 < j {
      RangesNarrow(root, pages, shape, pend, full, key, i + 1, j);
      var v := UpperBound(pages[full[i+1]].seps, key);
      assert NodeOk(pages[full[i+1]], shape[full[i+1]]);
    }
  }

  lemma {:induction false} PathDescends(pages: Pages, shape: Shape, pend: Pending, path: seq<PageId>, key: Key, i: nat,
                                        j: nat)
    requires shape.Keys == pages.Keys && PendingOk(shape, pend) && Children(pages, shape, pend)
    requires Linked(pages, path, key) && i < j < |path|
    ensures path[i] in shape && path[j] in shape && shape[path[i]].level > shape[path[j]].level
  {
    hide Rank;
    assert ChildOk(pages, shape, pend, path[j-1], UpperBound(pages[path[j-1]].seps, key));
    if i < j - 1 {
      PathDescends(pages, shape, pend, path, key, i, j - 1);
    }
  }

  lemma InGap(p: Page, lo: real, hi: real, key: Key, k: Key)
    requires p.Internal? && Sorted(p.seps)
    requires var u := UpperBound(p.seps, key); ChildLo(p, lo, u) <= Rank(k) < ChildHi(p, hi, u)
    ensures SameGap(p, key, k)
  {
    hide Rank;
    RankAtUpper(p.seps, k, UpperBound(p.seps, key));
  }

  lemma RungHolds(root: PageId, pages: Pages, shape: Shape, left: PageId, sep: Key, right: PageId, path: seq<PageId>,
                  key: Key, i: nat)
    requires Inv(root, pages, shape, Split(left, sep, right)) && Above(root, pages, path, left, key) && i < |path|
    ensures Rung(pages, path[i], key, sep)
  {
    hide Rank, Disjoint, Chained, UpperBound;
    var full := path + [left];
    forall n | 0 <= n < |path| ensures full[n] != left {
      PathDescends(pages, shape, Split(left, sep, right), full, key, n, |path|);
    }
    RangesNarrow(root, pages, shape, Split(left, sep, right), full, key, i, |path|);
    assert full[|path|] == left && full[i] == path[i];
    assert NodeOk(pages[left], shape[left]) && NodeOk(pages[path[i]], shape[path[i]]);
    InGap(pages[path[i]], shape[path[i]].lo, shape[path[i]].hi, key, sep);
  }

  lemma NestedHolds(root: PageId, pages: Pages, shape: Shape, left: PageId, sep: Key, right: PageId, path: seq<PageId>,
                    key: Key, i: nat, j: nat)
    requires Inv(root, pages, shape, Split(left, sep, right)) && Above(root, pages, path, left, key) && i < j < |path|
    ensures path[i] != path[j] && Nested(pages, path[i], path[j], key)
  {
    hide Rank, Disjoint, Chained, UpperBound;
    var full := path + [left];
    forall n | 0 <= n < |path| ensures full[n] != left {
      PathDescends(pages, shape, Split(left, sep, right), full, key, n, |path|);
    }
    RangesNarrow(root, pages, shape, Split(left, sep, right), full, key, i, j);
    RangesNarrow(root, pages, shape, Split(left, sep, right), full, key, j, |path|);
    assert full[j] == path[j] && full[i] == path[i];
    var lower := pages[path[j]];
    assert NodeOk(lower, shape[path[j]]) && NodeOk(pages[path[i]], shape[path[i]]);
    forall t | 0 <= t < |lower.seps| ensures SameGap(pages[path[i]], key, lower.seps[t].key) {
      InGap(pages[path[i]], shape[path[i]].lo, shape[path[i]].hi, key, lower.seps[t].key);
    }
  }

  lemma LadderHolds(root: PageId, pages: Pages, shape: Shape, left: PageId, sep: Key, right: PageId, path: seq<PageId>,
                    key: Key)
    requires Inv(root, pages, shape, Split(left, sep, right)) && Above(root, pages, path, left, key)
    ensures Ladder(root, pages, path, left, sep, key)
  {
    hide Inv, Above, Rung, Nested;
    forall i | 0 <= i < |path| ensures Rung(pages, path[i], key, sep) {
      RungHolds(root, pages, shape, left, sep, right, path, key, i);
    }
    forall i, j | 0 <= i < j < |path| ensures path[i] != path[j] && Nested(pages, path[i], path[j], key) {
      NestedHolds(root, pages, shape, left, sep, right, path, key, i, j);
    }
  }

  // ---- one step up ----

  lemma LastRung(root: PageId, pages: Pages, path: seq<PageId>, left: PageId, sep: Key, key: Key)
    requires Ladder(root, pages, path, left, sep, key) && |path| > 0
    ensures var id := path[|path|-1];
      && id in pages && pages[id].Internal? && Sorted(pages[id].seps) && SameGap(pages[id], key, sep)
      && FindChild(pages[id], key) == left && ChildAt(pages[id], UpperBound(pages[id].seps, sep)) == left
      && id !in path[..|path|-1]
  {
    var n := |path| - 1;
    assert Rung(pages, path[n], key, sep);
    assert (path + [left])[n] == path[n] && (path + [left])[n+1] == left;
    forall i | 0 <= i < n ensures path[i] != path[n] {
      assert path[i] != path[n] && Nested(pages, path[i], path[n], key);
    }
  }

  /** The middle key of a gathered page, which is promoted, lies in the gaps above like all its keys. */
  lemma GatheredRung(root: PageId, pages: Pages, path: seq<PageId>, child: PageId, sep: Key, key: Key, i: nat, t: nat)
    requires Ladder(root, pages, path, child, sep, key) && i < |path| - 1
    requires var p := pages[path[|path|-1]]; t <= |p.seps|
    ensures var p := pages[path[|path|-1]]; Rung(pages, path[i], key, Gathered(p, sep)[t].key)
  {
    hide Rank, Sorted, Above;
    var n := |path| - 1;
    var p := pages[path[n]];
    assert Rung(pages, path[i], key, sep) && Rung(pages, path[n], key, sep) && Nested(pages, path[i], path[n], key);
    var b := LowerBound(p.seps, sep);
    assert Gathered(p, sep)[t].key == if t < b then p.seps[t].key else if t == b then sep else p.seps[t-1].key;
  }

  lemma LadderUp(root: PageId, pages: Pages, path: seq<PageId>, child: PageId, sep: Key, key: Key, pages': Pages,
                 t: nat)
    requires Ladder(root, pages, path, child, sep, key) && |path| > 0 && SameOn(pages, pages', path[..|path|-1])
    requires t <= |pages[path[|path|-1]].seps|
    ensures Ladder(root, pages', path[..|path|-1], path[|path|-1], Gathered(pages[path[|path|-1]], sep)[t].key, key)
  {
    hide Rank, Sorted, Gathered, SameGap, FindChild;
    var n := |path| - 1;
    var up, k := path[..n], Gathered(pages[path[n]], sep)[t].key;
    forall i | 0 <= i < |up| ensures Rung(pages', up[i], key, k) {
      GatheredRung(root, pages, path, child, sep, key, i, t);
      assert pages'[up[i]] == pages[up[i]];
    }
    forall i, j | 0 <= i < j < |up| ensures up[i] != up[j] && Nested(pages', up[i], up[j], key) {
      assert path[i] != path[j] && Nested(pages, path[i], path[j], key);
      assert pages'[up[i]] == pages[up[i]] && pages'[up[j]] == pages[up[j]];
    }
    assert Above(root, pages', up, path[n], key) by { AboveUp(root, pages, path, child, key, pages'); }
  }

  lemma AboveUp(root: PageId, pages: Pages, path: seq<PageId>, child: PageId, key: Key, pages': Pages)
    requires Above(root, pages, path, child, key) && |path| > 0 && SameOn(pages, pages', path[..|path|-1])
    ensures Above(root, pages', path[..|path|-1], path[|path|-1], key)
  {
    hide FindChild;
    var n := |path| - 1;
    var full := path + [child];
    assert path[..n] + [path[n]] == path;
    forall i | 0 <= i < n
      ensures path[i] in pages' && pages'[path[i]].Internal? && FindChild(pages'[path[i]], key) == path[i+1]
    {
      assert full[i] == path[i] && full[i+1] == path[i+1];
      assert path[..n][i] == path[i];
    }
  }

  /** The half that a key below the cut is sent to in the end. */
  function Target(pages: Pages, path: seq<PageId>, left: PageId, sep: Key, right: PageId, key: Key): PageId {
    if Rank(key) < Rank(sep) || !Lands(pages, path, sep) then left else right
  }

  lemma AboveReaches(root: PageId, pages: Pages, path: seq<PageId>, child: PageId, key: Key)
    requires Above(root, pages, path, child, key)
    ensures Reaches(pages, root, key, child)
  {
    assert Leads(pages, root, path + [child], key, child);
  }

  lemma RootTarget(pages: Pages, left: PageId, sep: Key, right: PageId, key: Key, id: PageId, freeEnd: nat)
    ensures Reaches(pages[id := RootOver(Split(left, sep, right), freeEnd)], id, key,
                    Target(pages, [], left, sep, right, key))
  {
    hide Rank, Reaches;
    var p := RootOver(Split(left, sep, right), freeEnd);
    ReachesChild(pages[id := p], id, key);
    assert UpperBound(p.seps, key) == if Rank(key) < Rank(sep) then 0 else 1 by {
      assert UpperBound(p.seps[1..], key) == 0;
    }
  }

  lemma LinkTarget(root: PageId, pages: Pages, path: seq<PageId>, left: PageId, sep: Key, right: PageId, key: Key,
                   freeEnd: nat)
    requires Ladder(root, pages, path, left, sep, key) && |path| > 0
    requires InternalInsert(pages[path[|path|-1]], 0, sep).Some?
    ensures var id := path[|path|-1];
      Reaches(pages[id := ParentAfter(pages[id], left, sep, right, freeEnd)], root, key,
              Target(pages, path, left, sep, right, key))
  {
    var id := path[|path|-1];
    var p := pages[id];
    var pages' := pages[id := ParentAfter(p, left, sep, right, freeEnd)];
    assert Rung(pages, id, key, sep);
    assert FindChild(p, key) == left by { assert (path + [left])[|path|-1] == id && (path + [left])[|path|] == left; }
    assert SameOn(pages, pages', path[..|path|-1]) by { RungsStay(root, pages, path, left, sep, key, pages'); }
    hide *;
    LinkRoutes(p, left, sep, right, freeEnd, key);
    AboveUp(root, pages, path, left, key, pages') by { LadderAbove(root, pages, path, left, sep, key); }
    AboveReaches(root, pages', path[..|path|-1], id, key);
    ReachesChild(pages', id, key);
    ReachesOn(pages', root, id, FindChild(pages'[id], key), key);
    LandsWithRoom(pages, path, sep);
    TargetIs(pages, path, left, sep, right, key);
  }

  lemma LadderAbove(root: PageId, pages: Pages, path: seq<PageId>, left: PageId, sep: Key, key: Key)
    requires Ladder(root, pages, path, left, sep, key)
    ensures Above(root, pages, path, left, key)
  {
  }

  lemma RungsStay(root: PageId, pages: Pages, path: seq<PageId>, left: PageId, sep: Key, key: Key, pages': Pages)
    requires Ladder(root, pages, path, left, sep, key) && |path| > 0
    requires forall q :: q in pages && q != path[|path|-1] ==> q in pages' && pages'[q] == pages[q]
    ensures SameOn(pages, pages', path[..|path|-1])
  {
    forall i | 0 <= i < |path| - 1 ensures path[i] in pages && path[i] in pages' && pages'[path[i]] == pages[path[i]] {
      assert Rung(pages, path[i], key, sep) && path[i] != path[|path|-1];
    }
  }

  lemma LandsWithRoom(pages: Pages, path: seq<PageId>, sep: Key)
    requires |path| > 0 && path[|path|-1] in pages && pages[path[|path|-1]].Internal?
    requires InternalInsert(pages[path[|path|-1]], 0, sep).Some?
    ensures Lands(pages, path, sep) <==> Lookup(pages[path[|path|-1]].seps, sep) == None
  {
  }

  lemma TargetIs(pages: Pages, path: seq<PageId>, left: PageId, sep: Key, right: PageId, key: Key)
    ensures Target(pages, path, left, sep, right, key) ==
      if Rank(key) < Rank(sep) || !Lands(pages, path, sep) then left else right
  {
  }

  /** What decides the outcome of a page without room. */
  lemma LandsWithoutRoom(pages: Pages, path: seq<PageId>, sep: Key)
    requires |path| > 0 && path[|path|-1] in pages && pages[path[|path|-1]].Internal?
    requires InternalInsert(pages[path[|path|-1]], 0, sep).None?
    ensures var p, above := pages[path[|path|-1]], path[..|path|-1];
      && (|p.seps| == 0 ==> Lands(pages, path, sep) == Lands(pages, above, sep))
      && (|p.seps| > 0 && Lookup(p.seps, sep) == None ==> Lands(pages, path, sep))
      && (Lookup(p.seps, sep) != None ==>
            Lands(pages, path, sep) == (p.seps[0].key == sep && |p.seps| <= 2 && !Lands(pages, above, sep)))
  {
  }

  /** The promoted key is above the first one, except when a page of at most two separators starts with the repeated
      one: then it is promoted once more. */
  lemma PromotedAbove(p: Page, left: PageId, sep: Key, right: PageId)
    requires p.Internal? && Sorted(p.seps) && |p.seps| > 0
    ensures var all := ParentAfter(p, left, sep, right, 0).seps;
      var k := all[|all|/2].key;
      if Lookup(p.seps, sep) != None && p.seps[0].key == sep && |p.seps| <= 2 then
        k == sep && |all| / 2 == 1 && all[1].data == right
      else Rank(all[0].key) < Rank(k)
  {
    var all, b := ParentAfter(p, left, sep, right, 0).seps, LowerBound(p.seps, sep);
    var mid := |all| / 2;
    KeysAfter(p, left, sep, right, 0, 0);
    KeysAfter(p, left, sep, right, 0, mid);
    Bounds(p.seps, sep);
    hide Rank, LowerBound, UpperBound;
    if Lookup(p.seps, sep) != None && p.seps[0].key == sep {
      assert b == 0;
      assert |p.seps| > 2 ==> mid >= 2;
    } else {
      PromotedStrict(p.seps, sep, b, mid);
    }
  }

  lemma PromotedStrict(seps: seq<Separator>, sep: Key, b: nat, mid: nat)
    requires Sorted(seps) && |seps| > 0 && b == LowerBound(seps, sep) && 0 < mid <= |seps|
    requires !(Lookup(seps, sep) != None && seps[0].key == sep)
    ensures var x := if b == 0 then sep else seps[0].key;
      var y := if mid < b then seps[mid].key else if mid == b then sep else seps[mid-1].key;
      Rank(x) < Rank(y)
  {
    if b == 0 {
      RankIsLexicographic(sep, seps[0].key);
    }
    assert mid > 1 ==> Rank(seps[0].key) < Rank(seps[mid-1].key);
  }

  /** Where a key goes below a page cut in two, by the half that the page above sends it to. */
  lemma HalfTarget(p: Page, left: PageId, sep: Key, right: PageId, key: Key, l: Page, q: Page, toLeft: bool)
    requires p.Internal? && Sorted(p.seps) && FindChild(p, key) == left && SameGap(p, key, sep)
    requires var all := ParentAfter(p, left, sep, right, 0); Halves(all, |all.seps| / 2, l, q)
    requires var all := ParentAfter(p, left, sep, right, 0).seps; Rank(key) < Rank(all[|all|/2].key) ==> toLeft
    ensures var all := ParentAfter(p, left, sep, right, 0).seps;
      var k := all[|all|/2].key;
      && (|p.seps| == 0 ==> FindChild(if toLeft then l else q, key) == if toLeft then left else right)
      && (toLeft == (Rank(key) < Rank(k)) ==>
            FindChild(if toLeft then l else q, key) ==
              if Lookup(p.seps, sep) == None && Rank(sep) <= Rank(key) then right else left)
      && (toLeft && Rank(k) <= Rank(key) ==> FindChild(l, key) == all[|all|/2].data)
  {
    var all := ParentAfter(p, left, sep, right, 0);
    LinkRoutes(p, left, sep, right, 0, key);
    AscendingAfter(p, left, sep, right, 0);
    SingleAfter(p, left, sep, right, 0, key);
    HalvesRoute(all, |all.seps| / 2, l, q, key);
    if |p.seps| == 0 {
      assert |l.seps| == 0 && |q.seps| == 0;
      ChildrenAfter(p, left, sep, right, 0, 0);
      ChildrenAfter(p, left, sep, right, 0, 1);
    }
  }

  /** HalfTarget, when it is known what becomes of the promoted separator. */
  lemma HalfEnds(p: Page, left: PageId, sep: Key, right: PageId, key: Key, l: Page, q: Page, landsUp: bool, lands: bool)
    requires p.Internal? && Sorted(p.seps) && FindChild(p, key) == left && SameGap(p, key, sep)
    requires var all := ParentAfter(p, left, sep, right, 0); Halves(all, |all.seps| / 2, l, q)
    requires var all := ParentAfter(p, left, sep, right, 0).seps;
      var k := all[|all|/2].key;
      && (Lookup(p.seps, sep) != None ==> Rank(sep) <= Rank(key))
      && (|p.seps| == 0 ==> k == sep && lands == landsUp)
      && (|p.seps| > 0 && Lookup(p.seps, sep) == None ==> landsUp && lands)
      && (Lookup(p.seps, sep) != None ==>
            if p.seps[0].key == sep && |p.seps| <= 2 then k == sep && all[|all|/2].data == right && lands == !landsUp
            else landsUp && !lands)
    ensures var all := ParentAfter(p, left, sep, right, 0).seps;
      FindChild(if Rank(key) < Rank(all[|all|/2].key) || !landsUp then l else q, key) ==
        if Rank(key) < Rank(sep) || !lands then left else right
  {
    var all := ParentAfter(p, left, sep, right, 0).seps;
    var toLeft := Rank(key) < Rank(all[|all|/2].key) || !landsUp;
    hide *;
    HalfTarget(p, left, sep, right, key, l, q, toLeft);
  }

  /** Splitting a page on the way up: if the promoted separator ends where it should, so does this one. */
  lemma SplitTarget(root: PageId, pages: Pages, path: seq<PageId>, left: PageId, sep: Key, right: PageId, key: Key,
                    l: Page, q: Page, rid: PageId, root': PageId, pages2: Pages)
    requires Ladder(root, pages, path, left, sep, key) && |path| > 0 && rid !in pages
    requires InternalInsert(pages[path[|path|-1]], 0, sep).None?
    requires var all := ParentAfter(pages[path[|path|-1]], left, sep, right, 0); Halves(all, |all.seps| / 2, l, q)
    requires path[|path|-1] in pages2 && rid in pages2 && pages2[path[|path|-1]] == l && pages2[rid] == q
    requires var all := ParentAfter(pages[path[|path|-1]], left, sep, right, 0).seps;
      var id := path[|path|-1];
      Reaches(pages2, root', key, Target(pages[id := l][rid := q], path[..|path|-1], id, all[|all|/2].key, rid, key))
    ensures Reaches(pages2, root', key, Target(pages, path, left, sep, right, key))
  {
    hide *;
    LastRung(root, pages, path, left, sep, key);
    var n := |path| - 1;
    var id, up := path[n], path[..n];
    var p := pages[id];
    var all := ParentAfter(p, left, sep, right, 0).seps;
    var k := all[|all|/2].key;
    var pages1 := pages[id := l][rid := q];
    RungsStay(root, pages, path, left, sep, key, pages1);
    var landsUp, lands := Lands(pages1, up, k), Lands(pages, path, sep);
    HalvesAre(ParentAfter(p, left, sep, right, 0), |all| / 2, l, q);
    SplitCases(root, pages, path, left, sep, right, key, pages1);
    HalfEnds(p, left, sep, right, key, l, q, landsUp, lands);
    TargetIs(pages1, up, id, k, rid, key);
    TargetIs(pages, path, left, sep, right, key);
    var half := if Rank(key) < Rank(k) || !landsUp then id else rid;
    ReachesChild(pages2, half, key);
    ReachesOn(pages2, root', half, Target(pages, path, left, sep, right, key), key);
  }

  /** The three ways in which a page without room passes a separator on. */
  lemma SplitCases(root: PageId, pages: Pages, path: seq<PageId>, left: PageId, sep: Key, right: PageId, key: Key,
                   pages1: Pages)
    requires Ladder(root, pages, path, left, sep, key) && |path| > 0 && SameOn(pages, pages1, path[..|path|-1])
    requires InternalInsert(pages[path[|path|-1]], 0, sep).None?
    ensures var p := pages[path[|path|-1]];
      var all := ParentAfter(p, left, sep, right, 0).seps;
      var k := all[|all|/2].key;
      var up := path[..|path|-1];
      && (Lookup(p.seps, sep) != None ==> Rank(sep) <= Rank(key))
      && (|p.seps| == 0 ==>
            && k == sep && Lands(pages, path, sep) == Lands(pages1, up, k)
            && Repeats(pages, path, sep) == Repeats(pages1, up, k))
      && (|p.seps| > 0 && Lookup(p.seps, sep) == None ==>
            Lands(pages1, up, k) && Lands(pages, path, sep) && !Repeats(pages1, up, k) && !Repeats(pages, path, sep))
      && (Lookup(p.seps, sep) != None ==>
            if p.seps[0].key == sep && |p.seps| <= 2 then
              k == sep && all[|all|/2].data == right && Lands(pages, path, sep) == !Lands(pages1, up, k)
            else Lands(pages1, up, k) && !Repeats(pages1, up, k) && !Lands(pages, path, sep))
      && Overflows(pages, path, sep) ==
           (|| !(Cost(all[..|all|/2], SepSize) <= USABLE && Cost(all[|all|/2+1..], SepSize) <= USABLE)
            || Overflows(pages1, up, k))
  {
    var n := |path| - 1;
    var id, up := path[n], path[..n];
    var p := pages[id];
    var all := ParentAfter(p, left, sep, right, 0).seps;
    var mid := |all| / 2;
    var k := all[mid].key;
    assert Rung(pages, id, key, sep);
    LandsWithoutRoom(pages, path, sep);
    RepeatsWithoutRoom(pages, path, sep);
    SameOutcome(pages, pages1, up, k);
    KeptOutcome(pages, path, left, sep, right);
    Bounds(p.seps, sep);
    if |p.seps| > 0 {
      PromotedAbove(p, left, sep, right);
      if Rank(all[0].key) < Rank(k) {
        forall i | 0 <= i < |up| ensures Rung(pages, up[i], key, k) && Rung(pages, up[i], key, all[0].key) {
          GatheredRung(root, pages, path, left, sep, key, i, mid);
          GatheredRung(root, pages, path, left, sep, key, i, 0);
        }
        FreshAbove(pages, up, key, all[0].key, k);
      }
    }
  }

  lemma RepeatsWithoutRoom(pages: Pages, path: seq<PageId>, sep: Key)
    requires |path| > 0 && path[|path|-1] in pages && pages[path[|path|-1]].Internal?
    requires InternalInsert(pages[path[|path|-1]], 0, sep).None?
    ensures var p := pages[path[|path|-1]];
      Repeats(pages, path, sep) <==>
        Lookup(p.seps, sep) != None || (|p.seps| == 0 && Repeats(pages, path[..|path|-1], sep))
  {
  }

  /** The gathered cells of the code and of the prediction have the same keys, so they take the same room. */
  lemma KeptOutcome(pages: Pages, path: seq<PageId>, left: PageId, sep: Key, right: PageId)
    requires |path| > 0 && path[|path|-1] in pages && pages[path[|path|-1]].Internal?
    requires InternalInsert(pages[path[|path|-1]], 0, sep).None?
    ensures var p := pages[path[|path|-1]];
      var all := ParentAfter(p, left, sep, right, 0).seps;
      var mid := |all| / 2;
      && all[mid].key == Gathered(p, sep)[mid].key
      && Overflows(pages, path, sep) ==
           (!(Cost(all[..mid], SepSize) <= USABLE && Cost(all[mid+1..], SepSize) <= USABLE)
            || Overflows(pages, path[..|path|-1], all[mid].key))
  {
    var p := pages[path[|path|-1]];
    var all, g := ParentAfter(p, left, sep, right, 0).seps, Gathered(p, sep);
    var mid := |all| / 2;
    GatheredKeys(p, left, sep, right);
    hide Cost;
    SameKeysCost(all[..mid], g[..mid]);
    SameKeysCost(all[mid+1..], g[mid+1..]);
  }

  lemma GatheredKeys(p: Page, left: PageId, sep: Key, right: PageId)
    requires p.Internal?
    ensures var all, g := ParentAfter(p, left, sep, right, 0).seps, Gathered(p, sep);
      |all| == |g| && forall i :: 0 <= i < |all| ==> all[i].key == g[i].key
  {
  }

  // ---- what a repeated separator leaves behind ----

  ghost predicate Misordered(pages: Pages, id: PageId) {
    id in pages && pages[id].Internal? && !Sorted(pages[id].seps)
  }

  ghost predicate Shared(pages: Pages, a: PageId, i: nat, b: PageId, j: nat) {
    && a in pages && pages[a].Internal? && i <= |pages[a].seps|
    && b in pages && pages[b].Internal? && j <= |pages[b].seps|
    && (a != b || i != j) && ChildAt(pages[a], i) == ChildAt(pages[b], j)
  }

  /** A page out of order, or a child in two places. */
  ghost predicate Broken(pages: Pages, a: PageId, b: PageId) {
    Misordered(pages, a) || Misordered(pages, b) || exists i: nat, j: nat :: Shared(pages, a, i, b, j)
  }

  lemma BrokenIsNoTree(pages: Pages, a: PageId, b: PageId, root: PageId, shape: Shape)
    requires Broken(pages, a, b)
    ensures !Inv(root, pages, shape, Settled)
  {
    hide Rank, ChildOk, Chained, Apart;
    if Inv(root, pages, shape, Settled) {
      assert forall q :: q in pages ==> NodeOk(pages[q], shape[q]);
      if i: nat, j: nat :| Shared(pages, a, i, b, j) {
        UniqueParent(pages, shape, Settled, a, i, b, j);
      }
    }
  }

  lemma BrokenKept(pages: Pages, a: PageId, b: PageId, pages': Pages)
    requires Broken(pages, a, b) && a in pages && b in pages
    requires a in pages' && b in pages' && pages'[a] == pages[a] && pages'[b] == pages[b]
    ensures Broken(pages', a, b)
  {
    hide Sorted;
    if i: nat, j: nat :| Shared(pages, a, i, b, j) {
      assert Shared(pages', a, i, b, j);
    }
  }

  /** Put in where there is room, a repeated separator stands beside itself. */
  lemma RepeatedMisorders(p: Page, left: PageId, sep: Key, right: PageId, freeEnd: nat)
    requires p.Internal? && Lookup(p.seps, sep) != None
    ensures !Sorted(ParentAfter(p, left, sep, right, freeEnd).seps)
  {
    var b := LowerBound(p.seps, sep);
    KeysAfter(p, left, sep, right, freeEnd, b);
    KeysAfter(p, left, sep, right, freeEnd, b + 1);
    var seps := ParentAfter(p, left, sep, right, freeEnd).seps;
    assert seps[b].key == seps[b+1].key;
  }

  /** A page cut in two keeps the two side by side in one half, or the left half of the cut below in both. */
  lemma RepeatedBreaks(p: Page, left: PageId, sep: Key, right: PageId, l: Page, q: Page, pages: Pages, id: PageId,
                       rid: PageId)
    requires p.Internal? && Sorted(p.seps) && Lookup(p.seps, sep) != None && ChildAt(p, UpperBound(p.seps, sep)) == left
    requires var all := ParentAfter(p, left, sep, right, 0); Halves(all, |all.seps| / 2, l, q)
    requires id in pages && rid in pages && id != rid && pages[id] == l && pages[rid] == q
    ensures Broken(pages, id, rid)
  {
    hide *;
    var all := ParentAfter(p, left, sep, right, 0);
    var mid, b := |all.seps| / 2, LowerBound(p.seps, sep);
    RepeatedPlace(p, left, sep, right);
    HalvesAre(all, mid, l, q);
    if b + 1 < mid {
      SideBySide(all.seps, l.seps, 0, mid, b);
      MisorderedIs(pages, id);
      BrokenIs(pages, id, rid);
    } else if mid < b {
      SideBySide(all.seps, q.seps, mid + 1, |all.seps|, b);
      MisorderedIs(pages, rid);
      BrokenIs(pages, id, rid);
    } else {
      LeftInLeft(p, left, sep, right, l, q, mid, b);
      LeftInRight(p, left, sep, right, l, q, mid, b);
      SharedIs(pages, id, b, rid, if mid == b then 1 else 0);
    }
  }

  lemma RepeatedPlace(p: Page, left: PageId, sep: Key, right: PageId)
    requires p.Internal? && Sorted(p.seps) && Lookup(p.seps, sep) != None
    ensures var all, b := ParentAfter(p, left, sep, right, 0), LowerBound(p.seps, sep);
      b + 1 < |all.seps| && all.seps[b].key == all.seps[b+1].key
  {
    var b := LowerBound(p.seps, sep);
    KeysAfter(p, left, sep, right, 0, b);
    KeysAfter(p, left, sep, right, 0, b + 1);
  }

  lemma MisorderedIs(pages: Pages, id: PageId)
    requires id in pages && pages[id].Internal? && !Sorted(pages[id].seps)
    ensures Misordered(pages, id)
  {
  }

  lemma BrokenIs(pages: Pages, a: PageId, b: PageId)
    requires Misordered(pages, a) || Misordered(pages, b)
    ensures Broken(pages, a, b)
  {
  }

  lemma SharedIs(pages: Pages, a: PageId, i: nat, b: PageId, j: nat)
    requires a in pages && pages[a].Internal? && i <= |pages[a].seps|
    requires b in pages && pages[b].Internal? && j <= |pages[b].seps|
    requires a != b && ChildAt(pages[a], i) == ChildAt(pages[b], j)
    ensures Broken(pages, a, b)
  {
    assert Shared(pages, a, i, b, j);
  }

  lemma HalvesAre(all: Page, mid: nat, l: Page, q: Page)
    requires Halves(all, mid, l, q)
    ensures all.Internal? && mid < |all.seps|
    ensures l.Internal? && q.Internal? && Copied(l.seps, all.seps[0..mid])
    ensures Copied(q.seps, all.seps[mid+1..|all.seps|])
    ensures q.right == all.right
  {
    assert all.seps[0..mid] == all.seps[..mid] && all.seps[mid+1..|all.seps|] == all.seps[mid+1..];
  }

  lemma SideBySide(seps: seq<Separator>, out: seq<Separator>, a: nat, b: nat, i: nat)
    requires a <= b <= |seps| && Copied(out, seps[a..b]) && a <= i < i + 1 < b && seps[i].key == seps[i+1].key
    ensures !Sorted(out)
  {
    assert out[i-a].key == seps[a..b][i-a].key == seps[i].key;
    assert out[i+1-a].key == seps[a..b][i+1-a].key == seps[i+1].key;
  }

  lemma LeftInLeft(p: Page, left: PageId, sep: Key, right: PageId, l: Page, q: Page, mid: nat, b: nat)
    requires p.Internal? && Sorted(p.seps) && Lookup(p.seps, sep) != None
    requires var all := ParentAfter(p, left, sep, right, 0); mid == |all.seps| / 2 && Halves(all, mid, l, q)
    requires b == LowerBound(p.seps, sep) && b <= mid <= b + 1
    ensures b <= |l.seps| && ChildAt(l, b) == left
  {
    var seps := ParentAfter(p, left, sep, right, 0).seps;
    RepeatedPlace(p, left, sep, right);
    ChildrenAfter(p, left, sep, right, 0, b);
    HalvesAre(ParentAfter(p, left, sep, right, 0), mid, l, q);
    CopiedSize(l.seps, seps[0..mid]);
    if mid == b + 1 {
      AloneIn(p, left, sep, right, 0, mid, b);
      hide ParentAfter, Sorted, Lookup, LowerBound, Alone;
      CopiedAlone(l.seps, seps[0..mid], b);
    }
  }

  lemma LeftInRight(p: Page, left: PageId, sep: Key, right: PageId, l: Page, q: Page, mid: nat, b: nat)
    requires p.Internal? && Sorted(p.seps) && Lookup(p.seps, sep) != None && ChildAt(p, UpperBound(p.seps, sep)) == left
    requires var all := ParentAfter(p, left, sep, right, 0); mid == |all.seps| / 2 && Halves(all, mid, l, q)
    requires b == LowerBound(p.seps, sep) && b <= mid <= b + 1
    ensures var j := if mid == b then 1 else 0; j <= |q.seps| && ChildAt(q, j) == left
  {
    hide *;
    var all := ParentAfter(p, left, sep, right, 0);
    Bounds(p.seps, sep);
    RepeatedPlace(p, left, sep, right);
    ChildrenAfter(p, left, sep, right, 0, b + 2);
    HalvesAre(all, mid, l, q);
    CopiedSize(q.seps, all.seps[mid+1..|all.seps|]);
    var j: nat := if mid == b then 1 else 0;
    if b + 2 < |all.seps| {
      AloneIn(p, left, sep, right, mid + 1, |all.seps|, b + 2);
      CopiedAlone(q.seps, all.seps[mid+1..|all.seps|], j);
    }
    ChildIs(p, b + 1);
    ChildIs(all, b + 2);
    ChildIs(q, j);
  }

  lemma ChildIs(p: Page, i: nat)
    requires p.Internal? && i <= |p.seps|
    ensures ChildAt(p, i) == if i < |p.seps| then p.seps[i].data else p.right
  {
  }

  /** Of the two equal separators a stretch holds one, or the cell does not carry their key. */
  lemma AloneIn(p: Page, left: PageId, sep: Key, right: PageId, a: nat, c: nat, i: nat)
    requires p.Internal? && Sorted(p.seps) && Lookup(p.seps, sep) != None && a <= i < c <= |p.seps| + 1
    requires var b := LowerBound(p.seps, sep); (i == b && c <= b + 1) || i == b + 2
    ensures Alone(ParentAfter(p, left, sep, right, 0).seps[a..c], i - a)
  {
    var seps := ParentAfter(p, left, sep, right, 0).seps;
    hide ParentAfter, Sorted, Lookup, Rank, LowerBound;
    forall j | 0 <= j < c - a && j != i - a ensures seps[a..c][j].key != seps[a..c][i-a].key {
      KeysDiffer(p, left, sep, right, i, a + j);
      assert seps[a..c][j] == seps[a+j] && seps[a..c][i-a] == seps[i];
    }
  }

  lemma KeysDiffer(p: Page, left: PageId, sep: Key, right: PageId, i: nat, v: nat)
    requires p.Internal? && Sorted(p.seps) && Lookup(p.seps, sep) != None && i <= |p.seps| && v <= |p.seps| && i != v
    requires var b := LowerBound(p.seps, sep); (i == b && v <= b) || i == b + 2
    ensures var seps := ParentAfter(p, left, sep, right, 0).seps; seps[v].key != seps[i].key
  {
    KeysAfter(p, left, sep, right, 0, i);
    KeysAfter(p, left, sep, right, 0, v);
    hide ParentAfter;
  }

  // ---- when the separator is new all the way up ----

  ghost predicate NowhereOn(pages: Pages, path: seq<PageId>, sep: Key) {
    forall i :: 0 <= i < |path| && path[i] in pages && pages[path[i]].Internal? ==>
      Lookup(pages[path[i]].seps, sep) == None
  }

  lemma {:induction false} NowhereRepeated(pages: Pages, path: seq<PageId>, sep: Key)
    requires NowhereOn(pages, path, sep)
    ensures !Repeats(pages, path, sep) && Lands(pages, path, sep)
    decreases |path|
  {
    hide Lookup, InternalInsert;
    if |path| > 0 {
      NowhereRepeated(pages, path[..|path|-1], sep);
    }
  }

  /** A separator repeated in such a page fails to land. */
  lemma TakenOrLost(pages: Pages, path: seq<PageId>, sep: Key)
    ensures Takes(pages, path, sep) && Repeats(pages, path, sep) ==> !Lands(pages, path, sep)
  {
  }

  /** Only a separator that is repeated can fail to land. */
  lemma {:induction false} LostIsRepeated(pages: Pages, path: seq<PageId>, sep: Key)
    requires !Lands(pages, path, sep)
    ensures Repeats(pages, path, sep)
    decreases |path|
  {
    hide Lookup, InternalInsert;
    if |path| > 0 && path[|path|-1] in pages && pages[path[|path|-1]].Internal? && |pages[path[|path|-1]].seps| == 0 {
      if !Lands(pages, path[..|path|-1], sep) {
        LostIsRepeated(pages, path[..|path|-1], sep);
      }
    }
  }

  /** A separator inside the range of the page that was cut is new to every page above. */
  lemma InsideIsNew(root: PageId, pages: Pages, shape: Shape, left: PageId, sep: Key, right: PageId, path: seq<PageId>,
                    key: Key)
    requires Inv(root, pages, shape, Split(left, sep, right)) && Above(root, pages, path, left, key)
    requires shape[left].lo < Rank(sep)
    ensures NowhereOn(pages, path, sep)
  {
    hide Rank, Disjoint, Chained, UpperBound, LowerBound, Lookup;
    var full := path + [left];
    forall n | 0 <= n < |path| ensures full[n] != left {
      PathDescends(pages, shape, Split(left, sep, right), full, key, n, |path|);
    }
    forall i | 0 <= i < |path| && path[i] in pages && pages[path[i]].Internal?
      ensures Lookup(pages[path[i]].seps, sep) == None
    {
      RungHolds(root, pages, shape, left, sep, right, path, key, i);
      RangesNarrow(root, pages, shape, Split(left, sep, right), full, key, i, |path|);
      assert full[|path|] == left && full[i] == path[i];
      NewInGap(pages[path[i]], shape[path[i]].lo, key, sep);
    }
  }

  lemma NewInGap(p: Page, lo: real, key: Key, sep: Key)
    requires p.Internal? && Sorted(p.seps) && SameGap(p, key, sep)
    requires ChildLo(p, lo, UpperBound(p.seps, key)) < Rank(sep)
    ensures Lookup(p.seps, sep) == None
  {
    Bounds(p.seps, sep);
  }
}
