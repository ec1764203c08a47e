/** Searching without any invariant: which leaf a key's descent through the pages ends in, and what it finds there. */
module Descent {
  import opened Keys
  import opened RecordPage
  import opened TreeShape
  import opened TreeContents

  /** Each link of a path is the child that the key routes to. */
  ghost predicate Linked(pages: Pages, path: seq<PageId>, key: Key) {
    forall i :: 0 <= i < |path| - 1 ==>
      path[i] in pages && pages[path[i]].Internal? && FindChild(pages[path[i]], key) == path[i+1]
  }

  ghost predicate Leads(pages: Pages, from: PageId, path: seq<PageId>, key: Key, to: PageId) {
    |path| > 0 && path[0] == from && path[|path|-1] == to && Linked(pages, path, key)
  }

  /** The descent of a key from one page arrives at the other. */
  ghost predicate Reaches(pages: Pages, from: PageId, key: Key, to: PageId) {
    exists path :: Leads(pages, from, path, key, to)
  }

  /** The leaf that the descent ends in says this about the key. */
  ghost predicate Finds(pages: Pages, from: PageId, key: Key, answer: Option<Value>) {
    exists to ::
      Reaches(pages, from, key, to) && to in pages && pages[to].Leaf? && Lookup(pages[to].pairs, key) == answer
  }

  /** Every key is found to be bound as in the map. */
  ghost predicate FindsAll(pages: Pages, root: PageId, m: map<Key, Value>) {
    forall k :: Finds(pages, root, k, Get(m, k))
  }

  // ---- descents compose and are determined ----

  lemma ReachesSelf(pages: Pages, id: PageId, key: Key)
    ensures Reaches(pages, id, key, id)
  {
    assert Leads(pages, id, [id], key, id);
  }

  lemma ReachesChild(pages: Pages, id: PageId, key: Key)
    requires id in pages && pages[id].Internal?
    ensures Reaches(pages, id, key, FindChild(pages[id], key))
  {
    assert Leads(pages, id, [id, FindChild(pages[id], key)], key, FindChild(pages[id], key));
  }

  lemma ReachesOn(pages: Pages, a: PageId, b: PageId, c: PageId, key: Key)
    requires Reaches(pages, a, key, b) && Reaches(pages, b, key, c)
    ensures Reaches(pages, a, key, c)
  {
    hide FindChild;
    var p :| Leads(pages, a, p, key, b);
    var q :| Leads(pages, b, q, key, c);
    var r := p[..|p|-1] + q;
    forall i | 0 <= i < |r| - 1
      ensures r[i] in pages && pages[r[i]].Internal? && FindChild(pages[r[i]], key) == r[i+1]
    {
      if i < |p| - 1 {
        assert r[i] == p[i] && r[i+1] == p[i+1];
      } else {
        assert r[i] == q[i - (|p| - 1)] && r[i+1] == q[i + 1 - (|p| - 1)];
      }
    }
    assert Leads(pages, a, r, key, c);
  }

  lemma {:induction false} SamePath(pages: Pages, from: PageId, p: seq<PageId>, q: seq<PageId>, key: Key, n: nat)
    requires |p| > 0 && |q| > 0 && p[0] == from == q[0] && Linked(pages, p, key) && Linked(pages, q, key)
    requires n < |p| && n < |q|
    ensures p[n] == q[n]
  {
    hide FindChild;
    if n > 0 {
      SamePath(pages, from, p, q, key, n - 1);
      assert FindChild(pages[p[n-1]], key) == p[n-1+1];
      assert FindChild(pages[q[n-1]], key) == q[n-1+1];
    }
  }

  /** A search has one outcome. */
  lemma FindsOnce(pages: Pages, from: PageId, key: Key, a: Option<Value>, b: Option<Value>)
    requires Finds(pages, from, key, a) && Finds(pages, from, key, b)
    ensures a == b
  {
    hide FindChild, Lookup;
    var s :| Reaches(pages, from, key, s) && s in pages && pages[s].Leaf? && Lookup(pages[s].pairs, key) == a;
    var t :| Reaches(pages, from, key, t) && t in pages && pages[t].Leaf? && Lookup(pages[t].pairs, key) == b;
    var p :| Leads(pages, from, p, key, s);
    var q :| Leads(pages, from, q, key, t);
    if |p| <= |q| {
      SamePath(pages, from, p, q, key, |p| - 1);
    } else {
      SamePath(pages, from, p, q, key, |q| - 1);
    }
  }

  lemma FindsThere(pages: Pages, from: PageId, key: Key, to: PageId)
    requires Reaches(pages, from, key, to) && to in pages && pages[to].Leaf?
    ensures Finds(pages, from, key, Lookup(pages[to].pairs, key))
  {
  }

  lemma FindsFrom(pages: Pages, a: PageId, b: PageId, key: Key, answer: Option<Value>)
    requires Reaches(pages, a, key, b) && Finds(pages, b, key, answer)
    ensures Finds(pages, a, key, answer)
  {
    hide Lookup;
    var to :| Reaches(pages, b, key, to) && to in pages && pages[to].Leaf? && Lookup(pages[to].pairs, key) == answer;
    ReachesOn(pages, a, b, to, key);
  }

  /** The pages a descent of at most h steps goes through. */
  ghost function Descend(pages: Pages, id: PageId, key: Key, h: nat): (path: seq<PageId>)
    ensures |path| > 0 && path[0] == id && Linked(pages, path, key)
    decreases h
  {
    if h == 0 || id !in pages || pages[id].Leaf? then [id]
    else [id] + Descend(pages, FindChild(pages[id], key), key, h - 1)
  }

  // ---- what a subtree answers ----

  /** The answer of a subtree: the map's within its range, nothing outside it. */
  ghost function Ranged(m: map<Key, Value>, at: Place, key: Key): Option<Value> {
    if InRange(key, at) then Get(m, key) else None
  }

  /** The child a key is sent to has the key in its range just if the page has. */
  lemma RoutesAny(root: PageId, pages: Pages, shape: Shape, id: PageId, key: Key)
    requires Inv(root, pages, shape, Settled) && id in pages && pages[id].Internal?
    ensures var c := FindChild(pages[id], key);
      && c in pages && c in shape && shape[c].level + 1 == shape[id].level
      && (InRange(key, shape[c]) <==> InRange(key, shape[id]))
  {
    hide Rank, Disjoint, Chained;
    var u := UpperBound(pages[id].seps, key);
    assert ChildOk(pages, shape, Settled, id, u);
    assert NodeOk(pages[id], shape[id]);
  }

  lemma {:induction false} SubtreeAnswers(root: PageId, pages: Pages, shape: Shape, m: map<Key, Value>, pages': Pages,
                                          id: PageId, key: Key)
    requires Represents(root, pages, shape, Settled, m) && id in pages
    requires forall q :: q in pages && shape[q].level <= shape[id].level ==> q in pages' && pages'[q] == pages[q]
    ensures Finds(pages', id, key, Ranged(m, shape[id], key))
    decreases shape[id].level
  {
    hide Rank, Disjoint, Chained, Children, Answers, FindChild, Lookup, Sorted, Finds, Reaches;
    if pages[id].Leaf? {
      ReachesSelf(pages', id, key);
      FindsThere(pages', id, key, id);
      LeafAnswers(root, pages, shape, m, id, key);
    } else {
      RoutesAny(root, pages, shape, id, key);
      var c := FindChild(pages[id], key);
      SubtreeAnswers(root, pages, shape, m, pages', c, key);
      ReachesChild(pages', id, key);
      FindsFrom(pages', id, c, key, Ranged(m, shape[id], key));
    }
  }

  lemma LeafAnswers(root: PageId, pages: Pages, shape: Shape, m: map<Key, Value>, id: PageId, key: Key)
    requires Represents(root, pages, shape, Settled, m) && id in pages && pages[id].Leaf?
    ensures Lookup(pages[id].pairs, key) == Ranged(m, shape[id], key)
  {
    hide Disjoint, Chained, Children;
    assert NodeOk(pages[id], shape[id]) && Agrees(pages[id], shape[id], m);
    if !InRange(key, shape[id]) {
      LookupMissing(pages[id].pairs, key);
    }
  }

  /** In a search tree every search finds what the map holds. */
  lemma TreeFindsAll(root: PageId, pages: Pages, shape: Shape, m: map<Key, Value>)
    requires Represents(root, pages, shape, Settled, m)
    ensures FindsAll(pages, root, m)
  {
    hide Inv, Answers, Finds;
    forall k ensures Finds(pages, root, k, Get(m, k)) {
      InRoot(root, pages, shape, k);
      SubtreeAnswers(root, pages, shape, m, pages, root, k);
    }
  }

  lemma InRoot(root: PageId, pages: Pages, shape: Shape, key: Key)
    requires Inv(root, pages, shape, Settled)
    ensures root in pages && root in shape && shape.Keys == pages.Keys && InRange(key, shape[root])
  {
    RootHoldsAll(root, pages, shape, key);
  }

  // ---- one page rewritten ----

  /** After one page of a search tree has been rewritten, a key is found unless the page sends it to a child
      that does not answer for it. */
  lemma {:induction false} RewrittenAnswers(root: PageId, pages: Pages, shape: Shape, m: map<Key, Value>,
                                            nid: PageId, p: Page, id: PageId, key: Key)
    requires Represents(root, pages, shape, Settled, m)
    requires nid in pages && pages[nid].Internal? && p.Internal?
    requires var c := FindChild(p, key); c in pages && shape[c].level + 1 == shape[nid].level
    requires id in pages && shape[id].level >= shape[nid].level && InRange(key, shape[id])
    ensures var c := FindChild(p, key);
      Finds(pages[nid := p], id, key, if InRange(key, shape[nid]) then Ranged(m, shape[c], key) else Get(m, key))
    decreases shape[id].level
  {
    hide Rank, Disjoint, Chained, Children, Answers, Nodes, FindChild, Finds, Reaches, Ranged;
    var pages' := pages[nid := p];
    var c := FindChild(p, key);
    if id == nid {
      SubtreeAnswers(root, pages, shape, m, pages', c, key);
      ReachesChild(pages', id, key);
      FindsFrom(pages', id, c, key, Ranged(m, shape[c], key));
    } else if shape[id].level == shape[nid].level {
      NotBoth(root, pages, shape, id, nid, key);
      OtherSubtree(root, pages, shape, m, nid, p, id, key);
    } else {
      InternalAbove(root, pages, shape, id);
      RoutesAny(root, pages, shape, id, key);
      var d := FindChild(pages[id], key);
      RewrittenAnswers(root, pages, shape, m, nid, p, d, key);
      ReachesChild(pages', id, key);
      FindsFrom(pages', id, d, key, if InRange(key, shape[nid]) then Ranged(m, shape[c], key) else Get(m, key));
    }
  }

  lemma InternalAbove(root: PageId, pages: Pages, shape: Shape, id: PageId)
    requires Inv(root, pages, shape, Settled) && id in pages
    ensures id in shape && (shape[id].level > 0 <==> pages[id].Internal?)
  {
    assert NodeOk(pages[id], shape[id]);
  }

  lemma NotBoth(root: PageId, pages: Pages, shape: Shape, a: PageId, b: PageId, key: Key)
    requires Inv(root, pages, shape, Settled) && a in pages && b in pages && a != b && shape[a].level == shape[b].level
    requires InRange(key, shape[a])
    ensures !InRange(key, shape[b])
  {
  }

  lemma OtherSubtree(root: PageId, pages: Pages, shape: Shape, m: map<Key, Value>, nid: PageId, p: Page, id: PageId,
                     key: Key)
    requires Represents(root, pages, shape, Settled, m)
    requires nid in pages && pages[nid].Internal? && id in pages && id != nid && shape[id].level == shape[nid].level
    requires InRange(key, shape[id])
    ensures Finds(pages[nid := p], id, key, Get(m, key))
  {
    hide Rank, Disjoint, Chained, Children, Answers, FindChild, Finds, Reaches;
    var pages' := pages[nid := p];
    InternalAbove(root, pages, shape, id);
    InternalAbove(root, pages, shape, nid);
    RoutesAny(root, pages, shape, id, key);
    var c := FindChild(pages[id], key);
    SubtreeAnswers(root, pages, shape, m, pages', c, key);
    ReachesChild(pages', id, key);
    FindsFrom(pages', id, c, key, Get(m, key));
  }

  /** The keys that a rewritten page no longer sends to the child that answers for them. */
  lemma RewrittenFinds(root: PageId, pages: Pages, shape: Shape, m: map<Key, Value>, nid: PageId, p: Page,
                       m': map<Key, Value>)
    requires Represents(root, pages, shape, Settled, m)
    requires nid in pages && pages[nid].Internal? && p.Internal?
    requires forall k :: var c := FindChild(p, k); c in pages && shape[c].level + 1 == shape[nid].level
    requires forall k ::
      Get(m', k) == if InRange(k, shape[nid]) then Ranged(m, shape[FindChild(p, k)], k) else Get(m, k)
    ensures FindsAll(pages[nid := p], root, m')
  {
    hide FindChild, Answers, Finds, Ranged, Nodes, Chained, Children, Disjoint;
    forall k ensures Finds(pages[nid := p], root, k, Get(m', k)) {
      InRoot(root, pages, shape, k);
      RewrittenAnswers(root, pages, shape, m, nid, p, root, k);
    }
  }
}
