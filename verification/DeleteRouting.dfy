/** What searches find after handleUnderflow (internal/storage/btree.go:512-631) has taken an emptied leaf out. */
module DeleteRouting {
  import opened Keys
  import opened RecordPage
  import opened TreeShape
  import opened TreeContents
  import opened TreeDelete
  import opened Descent
  import opened SplitPath

  /** Without cell i its keys go to the next child, all others where they went before. */
  lemma DropRoutes(p: Page, i: nat, k: Key)
    requires p.Internal? && Sorted(p.seps) && i < |p.seps|
    ensures var u := UpperBound(p.seps, k);
      FindChild(DropCell(p, i), k) == ChildAt(p, if u == i then i + 1 else u)
  {
    hide Rank;
    var u := UpperBound(p.seps, k);
    var rest := RemoveAt(p.seps, i);
    assert Sorted(rest);
    RankAtUpper(rest, k, if u <= i then u else u - 1);
  }

  /** In the place of an empty child, the next one answers as the map does. */
  lemma DropAnswersAt(root: PageId, pages: Pages, shape: Shape, m: map<Key, Value>, pid: PageId, i: nat, k: Key)
    requires Represents(root, pages, shape, Settled, m)
    requires pid in pages && pages[pid].Internal? && i < |pages[pid].seps|
    requires var id := ChildAt(pages[pid], i); id in pages && pages[id].Leaf? && |pages[id].pairs| == 0
    ensures pid in shape && Sorted(pages[pid].seps)
    ensures var u := UpperBound(pages[pid].seps, k);
      var c := ChildAt(pages[pid], if u == i then i + 1 else u);
      && c in pages && c in shape && shape[c].level + 1 == shape[pid].level
      && Get(m, k) == if InRange(k, shape[pid]) then Ranged(m, shape[c], k) else Get(m, k)
  {
    hide Rank, Disjoint, Chained;
    var p := pages[pid];
    var u := UpperBound(p.seps, k);
    assert NodeOk(p, shape[pid]);
    assert ChildOk(pages, shape, Settled, pid, u);
    assert ChildOk(pages, shape, Settled, pid, i) && ChildOk(pages, shape, Settled, pid, i + 1);
    var id := ChildAt(p, i);
    assert Agrees(pages[id], shape[id], m);
    assert u == i && InRange(k, shape[pid]) ==> Lookup(pages[id].pairs, k) == None == Get(m, k);
  }

  /** A page that no page points to and that is not the root is not missed. */
  lemma UnreachedGone(pages: Pages, root: PageId, m: map<Key, Value>, id: PageId)
    requires FindsAll(pages, root, m) && id in pages && pages[id].Leaf? && id != root
    requires forall q, j: nat :: q in pages && pages[q].Internal? && j <= |pages[q].seps| ==> ChildAt(pages[q], j) != id
    ensures FindsAll(pages - {id}, root, m)
  {
    hide Lookup, FindChild, Finds;
    forall k ensures Finds(pages - {id}, root, k, Get(m, k)) {
      assert Finds(pages, root, k, Get(m, k));
      UnreachedAt(pages, root, id, k, Get(m, k));
    }
  }

  lemma UnreachedAt(pages: Pages, root: PageId, id: PageId, k: Key, answer: Option<Value>)
    requires Finds(pages, root, k, answer) && id in pages && pages[id].Leaf? && id != root
    requires forall q, j: nat :: q in pages && pages[q].Internal? && j <= |pages[q].seps| ==> ChildAt(pages[q], j) != id
    ensures Finds(pages - {id}, root, k, answer)
  {
    hide Lookup, UpperBound;
    var to :| Reaches(pages, root, k, to) && to in pages && pages[to].Leaf? && Lookup(pages[to].pairs, k) == answer;
    var path :| Leads(pages, root, path, k, to);
    if |path| > 1 {
      var q := path[|path|-2];
      assert q in pages && pages[q].Internal? && FindChild(pages[q], k) == path[|path|-2+1];
      UpperWithin(pages[q].seps, k);
      assert FindChild(pages[q], k) == ChildAt(pages[q], UpperBound(pages[q].seps, k));
    }
    assert to != id;
    forall i | 0 <= i < |path| - 1
      ensures path[i] in pages - {id} && pages[path[i]].Internal? && FindChild(pages[path[i]], k) == path[i+1]
    {
    }
    assert Leads(pages - {id}, root, path, k, to);
    FindsThere(pages - {id}, root, k, to);
  }

  /** The leaf had a cell of its own: every search finds what the map holds. */
  lemma DroppedFinds(root: PageId, pages: Pages, shape: Shape, m: map<Key, Value>, id: PageId, pid: PageId, i: nat)
    requires Represents(root, pages, shape, Settled, m)
    requires id in pages && pages[id].Leaf? && |pages[id].pairs| == 0 && id != root
    requires pid in pages && pages[pid].Internal? && i < |pages[pid].seps| && ChildAt(pages[pid], i) == id
    ensures FindsAll(pages[pid := DropCell(pages[pid], i)] - {id}, root, m)
  {
    hide *;
    var p := DropCell(pages[pid], i);
    RepresentsMeans(root, pages, shape, Settled, m);
    forall k
      ensures var c := FindChild(p, k); c in pages && c in shape && shape[c].level + 1 == shape[pid].level
      ensures Get(m, k) == if InRange(k, shape[pid]) then Ranged(m, shape[FindChild(p, k)], k) else Get(m, k)
    {
      DropAnswersAt(root, pages, shape, m, pid, i, k);
      DropRoutes(pages[pid], i, k);
    }
    RewrittenFinds(root, pages, shape, m, pid, p, m);
    var after := pages[pid := p];
    forall q, j: nat | q in after && after[q].Internal? && j <= |after[q].seps| ensures ChildAt(after[q], j) != id {
      NoOther(root, pages, shape, id, pid, i, q, j);
    }
    UnreachedGone(after, root, m, id);
  }

  lemma NoOther(root: PageId, pages: Pages, shape: Shape, id: PageId, pid: PageId, i: nat, q: PageId, j: nat)
    requires Inv(root, pages, shape, Settled)
    requires pid in pages && pages[pid].Internal? && i < |pages[pid].seps| && ChildAt(pages[pid], i) == id
    requires var pages' := pages[pid := DropCell(pages[pid], i)];
      q in pages' && pages'[q].Internal? && j <= |pages'[q].seps|
    ensures ChildAt(pages[pid := DropCell(pages[pid], i)][q], j) != id
  {
    hide Rank, Nodes, Disjoint, Chained, Children;
    if q != pid {
      if ChildAt(pages[q], j) == id {
        UniqueParent(pages, shape, Settled, pid, i, q, j);
      }
    } else {
      var j0 := if j < i then j else j + 1;
      if ChildAt(pages[pid], j0) == id {
        UniqueParent(pages, shape, Settled, pid, i, pid, j0);
      }
    }
  }

  /** A search that arrives at a page that is gone finds nothing. */
  lemma GoneFindsNothing(pages: Pages, root: PageId, key: Key, id: PageId, answer: Option<Value>)
    requires Reaches(pages, root, key, id) && id !in pages
    ensures !Finds(pages, root, key, answer)
  {
    hide FindChild, Lookup;
    if Finds(pages, root, key, answer) {
      var to :|
        Reaches(pages, root, key, to) && to in pages && pages[to].Leaf? && Lookup(pages[to].pairs, key) == answer;
      var p :| Leads(pages, root, p, key, id);
      var q :| Leads(pages, root, q, key, to);
      if |p| <= |q| {
        SamePath(pages, root, p, q, key, |p| - 1);
      } else {
        SamePath(pages, root, p, q, key, |q| - 1);
      }
    }
  }

  /** The leaf was the last child: the right pointer still leads to it. */
  lemma LastReaches(root: PageId, pages: Pages, shape: Shape, path: seq<PageId>, key: Key)
    requires Inv(root, pages, shape, Settled) && |path| > 1 && path[0] == root && Linked(pages, path, key)
    requires path[|path|-2] in pages && pages[path[|path|-2]].Internal? && path[|path|-1] in pages
    requires pages[path[|path|-1]].Leaf?
    requires UpperBound(pages[path[|path|-2]].seps, key) == |pages[path[|path|-2]].seps|
    ensures var id, pid := path[|path|-1], path[|path|-2];
      var p := Taken(pages[pid], id);
      && p.Internal? && p.right == id && Reaches(pages[pid := p] - {id}, root, key, id)
  {
    var n := |path| - 1;
    var id, pid := path[n], path[n-1];
    var p := Taken(pages[pid], id);
    assert path[n-1] in pages && FindChild(pages[path[n-1]], key) == path[n-1+1];
    LastTaken(root, pages, shape, id, pid, key);
    hide Rank, Disjoint, Chained, Nodes, Children, FindChild, Taken;
    var pages' := pages[pid := p] - {id};
    forall j | 0 <= j < n
      ensures path[j] in pages' && pages'[path[j]].Internal? && FindChild(pages'[path[j]], key) == path[j+1]
    {
      PathApart(root, pages, shape, path, key, j);
    }
    assert Leads(pages', root, path, key, id);
  }

  lemma PathApart(root: PageId, pages: Pages, shape: Shape, path: seq<PageId>, key: Key, j: nat)
    requires Inv(root, pages, shape, Settled) && Linked(pages, path, key) && j + 1 < |path| && path[|path|-1] in pages
    ensures path[j] in pages && pages[path[j]].Internal? && path[j] != path[|path|-1]
    ensures j + 2 < |path| ==> path[j] != path[|path|-2]
  {
    hide Rank, Disjoint, Chained, Nodes, FindChild;
    PathDescends(pages, shape, Settled, path, key, j, |path| - 1);
    if j + 2 < |path| {
      PathDescends(pages, shape, Settled, path, key, j, |path| - 2);
    }
  }

  lemma LastTaken(root: PageId, pages: Pages, shape: Shape, id: PageId, pid: PageId, key: Key)
    requires Inv(root, pages, shape, Settled) && pid in pages && pages[pid].Internal? && pages[pid].right == id
    requires UpperBound(pages[pid].seps, key) == |pages[pid].seps|
    ensures var p := Taken(pages[pid], id); p.Internal? && p.right == id && FindChild(p, key) == id
  {
    var parent := pages[pid];
    assert NodeOk(parent, shape[pid]);
    hide Rank, Disjoint, Chained, Nodes, Children;
    if CellOf(parent.seps, id) < |parent.seps| {
      UniqueParent(pages, shape, Settled, pid, CellOf(parent.seps, id), pid, |parent.seps|);
    }
    if |parent.seps| > 0 {
      var front := parent.seps[..|parent.seps|-1];
      assert Sorted(front);
      assert |front| > 0 ==> Rank(front[|front|-1].key) <= Rank(key);
      RankAtUpper(front, key, |front|);
    }
  }

  lemma OwnTaken(root: PageId, pages: Pages, shape: Shape, id: PageId, pid: PageId, i: nat)
    requires Inv(root, pages, shape, Settled) && pid in pages && pages[pid].Internal? && i < |pages[pid].seps|
    requires ChildAt(pages[pid], i) == id
    ensures Taken(pages[pid], id) == DropCell(pages[pid], i)
  {
    hide Rank, Disjoint, Chained, Nodes, Children;
    var j := CellOf(pages[pid].seps, id);
    UniqueParent(pages, shape, Settled, pid, i, pid, j);
  }

  /** A root without separators gives way to its only child. */
  lemma CollapsedFinds(pages: Pages, root: PageId, m: map<Key, Value>)
    requires FindsAll(pages, root, m) && root in pages && pages[root].Internal? && |pages[root].seps| == 0
    requires var c := pages[root].right; c in pages && pages[c].Leaf?
    ensures FindsAll(pages - {root}, pages[root].right, m)
  {
    hide Lookup, Finds, Reaches;
    var c := pages[root].right;
    forall k ensures Finds(pages - {root}, c, k, Get(m, k)) {
      assert Finds(pages, root, k, Get(m, k));
      ReachesChild(pages, root, k);
      FindsThere(pages, root, k, c);
      FindsOnce(pages, root, k, Get(m, k), Lookup(pages[c].pairs, k));
      ReachesSelf(pages - {root}, c, k);
      FindsThere(pages - {root}, c, k, c);
    }
  }

  /** After handleUnderflow every search still finds what the map holds exactly when the leaf was not its parent's
      last child. */
  lemma UnderflowFinds(root: PageId, pages: Pages, shape: Shape, m: map<Key, Value>, path: seq<PageId>, key: Key,
                       root': PageId, pages': Pages)
    requires Represents(root, pages, shape, Settled, m) && |path| > 1 && path[0] == root && Linked(pages, path, key)
    requires var id, pid := path[|path|-1], path[|path|-2];
      && id in pages && pages[id].Leaf? && |pages[id].pairs| == 0 && id != root && pid in pages && pages[pid].Internal?
      && ChildAt(pages[pid], UpperBound(pages[pid].seps, key)) == id
      && var p := Taken(pages[pid], id); var taken := pages[pid := p] - {id};
      || (root' == root && pages' == taken)
      || (root == pid && p.Internal? && |p.seps| == 0 && root' == p.right && pages' == taken - {pid})
    ensures var pid := path[|path|-2];
      FindsAll(pages', root', m) <==> UpperBound(pages[pid].seps, key) < |pages[pid].seps|
  {
    hide *;
    var id, pid := path[|path|-1], path[|path|-2];
    var i := UpperBound(pages[pid].seps, key);
    var p := Taken(pages[pid], id);
    var taken := pages[pid := p] - {id};
    RepresentsMeans(root, pages, shape, Settled, m);
    UpperWithin(pages[pid].seps, key);
    if i < |pages[pid].seps| {
      OwnTaken(root, pages, shape, id, pid, i);
      DroppedFinds(root, pages, shape, m, id, pid, i);
      if !(root' == root && pages' == taken) {
        NextIsLeaf(root, pages, shape, id, pid, i);
        CollapsedFinds(taken, root, m);
      }
    } else {
      LastReaches(root, pages, shape, path, key);
      if root' == root && pages' == taken {
        GoneFindsNothing(taken, root, key, id, Get(m, key));
        NotAll(taken, root, m, key);
      } else {
        ReachesSelf(pages', id, key);
        GoneFindsNothing(pages', id, key, id, Get(m, key));
        NotAll(pages', id, m, key);
      }
    }
  }

  lemma UpperWithin(seps: seq<Separator>, key: Key)
    ensures UpperBound(seps, key) <= |seps|
  {
  }

  lemma NotAll(pages: Pages, root: PageId, m: map<Key, Value>, key: Key)
    requires !Finds(pages, root, key, Get(m, key))
    ensures !FindsAll(pages, root, m)
  {
  }

  lemma NextIsLeaf(root: PageId, pages: Pages, shape: Shape, id: PageId, pid: PageId, i: nat)
    requires Inv(root, pages, shape, Settled) && id in pages && pages[id].Leaf?
    requires pid in pages && pages[pid].Internal? && i < |pages[pid].seps| && ChildAt(pages[pid], i) == id
    ensures var p := DropCell(pages[pid], i);
      |p.seps| == 0 ==> p.right in pages && pages[p.right].Leaf? && p.right != id && p.right != pid
  {
    hide Rank, Disjoint, Chained;
    assert ChildOk(pages, shape, Settled, pid, i) && ChildOk(pages, shape, Settled, pid, |pages[pid].seps|);
    var c := pages[pid].right;
    assert NodeOk(pages[id], shape[id]) && NodeOk(pages[c], shape[c]) && NodeOk(pages[pid], shape[pid]);
    if c == id {
      UniqueParent(pages, shape, Settled, pid, i, pid, |pages[pid].seps|);
    }
  }
}
