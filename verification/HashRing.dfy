/** Consistent hashing: preference lists, and what joins and departures do to them (internal/cluster/ring.go). */
module HashRing {
  type NodeID = string
  type Hash32 = n: nat | n < 0x1_0000_0000

  datatype VNode = VNode(hash: Hash32, node: NodeID, idx: nat)

  /** Where the i-th virtual node of a node lies (FNV-1a of "node#i"): deterministic, otherwise unknown. */
  type Placement = (NodeID, nat) -> Hash32

  predicate SortedByHash(vs: seq<VNode>) {
    forall i, j :: 0 <= i < j < |vs| ==> vs[i].hash <= vs[j].hash
  }

  // ---- the walk ----

  /** The first virtual node at or after a hash. */
  function First(vs: seq<VNode>, h: Hash32): (i: nat)
    ensures i <= |vs|
    ensures forall k :: 0 <= k < i ==> vs[k].hash < h
    ensures i < |vs| ==> h <= vs[i].hash
  {
    if |vs| == 0 || h <= vs[0].hash then 0 else 1 + First(vs[1..], h)
  }

  /** Once around the ring, clockwise from a hash. */
  function Walk(vs: seq<VNode>, h: Hash32): seq<VNode> {
    vs[First(vs, h)..] + vs[..First(vs, h)]
  }

  /** The nodes of a walk in the order in which they are met. */
  function Distinct(w: seq<VNode>): (ns: seq<NodeID>) {
    if |w| == 0 then []
    else
      var ns := Distinct(w[..|w|-1]);
      if w[|w|-1].node in ns then ns else ns + [w[|w|-1].node]
  }

  /** The full preference list of a hash: coordinator first, then the replicas. */
  function Preference(vs: seq<VNode>, h: Hash32): seq<NodeID> {
    Distinct(Walk(vs, h))
  }

  function NodesOf(vs: seq<VNode>): set<NodeID> {
    set v | v in vs :: v.node
  }

  predicate NoDuplicates(ns: seq<NodeID>) {
    forall i, j :: 0 <= i < j < |ns| ==> ns[i] != ns[j]
  }

  /** A preference list names every node of the ring exactly once. */
  lemma {:induction false} DistinctNames(w: seq<VNode>)
    ensures NoDuplicates(Distinct(w)) && (forall x :: x in Distinct(w) <==> x in NodesOf(w))
  {
    if |w| > 0 {
      DistinctNames(w[..|w|-1]);
      assert w == w[..|w|-1] + [w[|w|-1]];
    }
  }

  lemma WalkNodes(vs: seq<VNode>, h: Hash32)
    ensures NodesOf(Walk(vs, h)) == NodesOf(vs)
  {
  }

  lemma {:induction false} CountNames(ns: seq<NodeID>)
    requires NoDuplicates(ns)
    ensures |set x | x in ns| == |ns|
  {
    if |ns| > 0 {
      var n := |ns| - 1;
      CountNames(ns[..n]);
      assert (set x | x in ns) == (set x | x in ns[..n]) + {ns[n]};
    }
  }

  lemma PreferenceNames(vs: seq<VNode>, h: Hash32)
    ensures NoDuplicates(Preference(vs, h)) && |Preference(vs, h)| == |NodesOf(vs)|
    ensures forall x :: x in Preference(vs, h) <==> x in NodesOf(vs)
  {
    hide First, Distinct;
    DistinctNames(Walk(vs, h));
    WalkNodes(vs, h);
    CountNames(Preference(vs, h));
    assert (set x | x in Preference(vs, h)) == NodesOf(vs);
  }

  /** A longer walk only appends. */
  lemma {:induction false} DistinctPrefix(w: seq<VNode>, i: nat)
    requires i <= |w|
    ensures Distinct(w[..i]) <= Distinct(w)
    decreases |w|
  {
    if i < |w| {
      assert w[..|w|-1][..i] == w[..i];
      DistinctPrefix(w[..|w|-1], i);
    } else {
      assert w[..i] == w;
    }
  }

  // ---- clockwise order ----

  /** How far it is clockwise from one hash to another. */
  function Distance(h: Hash32, to: Hash32): nat {
    if h <= to then to - h else 0x1_0000_0000 + to - h
  }

  lemma WalkByDistance(vs: seq<VNode>, h: Hash32, i: nat, j: nat)
    requires SortedByHash(vs) && i < j < |Walk(vs, h)|
    ensures Distance(h, Walk(vs, h)[i].hash) <= Distance(h, Walk(vs, h)[j].hash)
  {
    var n := First(vs, h);
    hide First;
    assert forall k :: n <= k < |vs| ==> h <= vs[k].hash;
  }

  /** Of two nodes the one that comes first in the list is met first on the walk. */
  ghost predicate MetFirst(w: seq<VNode>, x: NodeID, y: NodeID, a: int) {
    0 <= a < |w| && w[a].node == x && forall b :: 0 <= b <= a ==> w[b].node != y
  }

  lemma {:induction false} DistinctOrder(w: seq<VNode>, i: nat, j: nat) returns (a: nat)
    requires i < j < |Distinct(w)|
    ensures MetFirst(w, Distinct(w)[i], Distinct(w)[j], a)
  {
    var front := w[..|w|-1];
    if j < |Distinct(front)| {
      a := DistinctOrder(front, i, j);
    } else {
      DistinctNames(front);
      assert Distinct(front)[i] in NodesOf(front);
      a :| 0 <= a < |front| && front[a].node == Distinct(front)[i];
      forall b | 0 <= b <= a ensures w[b].node != Distinct(w)[j] {
        assert front[b] in front && front[b].node in NodesOf(front);
      }
    }
  }

  ghost predicate NoneNearer(vs: seq<VNode>, h: Hash32, v: VNode, x: NodeID) {
    forall u :: u in vs && u.node == x ==> Distance(h, v.hash) <= Distance(h, u.hash)
  }

  /** A preference list names the nodes by how far their nearest virtual nodes lie clockwise from the key's hash. */
  lemma NearestFirst(vs: seq<VNode>, h: Hash32, i: nat, j: nat)
    requires SortedByHash(vs) && i < j < |Preference(vs, h)|
    ensures exists v :: v in vs && v.node == Preference(vs, h)[i] && NoneNearer(vs, h, v, Preference(vs, h)[j])
  {
    var w := Walk(vs, h);
    var a := DistinctOrder(w, i, j);
    hide Distinct, Distance;
    assert forall x :: x in w <==> x in vs by { WalkHas(vs, h); }
    forall u | u in vs && u.node == Preference(vs, h)[j] ensures Distance(h, w[a].hash) <= Distance(h, u.hash) {
      var b :| 0 <= b < |w| && w[b] == u;
      WalkByDistance(vs, h, a, b);
    }
    assert w[a] in vs && NoneNearer(vs, h, w[a], Preference(vs, h)[j]);
  }

  lemma WalkHas(vs: seq<VNode>, h: Hash32)
    ensures forall x :: x in Walk(vs, h) <==> x in vs
  {
    hide First;
    assert vs == vs[..First(vs, h)] + vs[First(vs, h)..];
  }

  // ---- departures ----

  function Others(vs: seq<VNode>, x: NodeID): (r: seq<VNode>)
    ensures forall v :: v in r <==> v in vs && v.node != x
  {
    if |vs| == 0 then []
    else Others(vs[..|vs|-1], x) + if vs[|vs|-1].node != x then [vs[|vs|-1]] else []
  }

  function Without(ns: seq<NodeID>, x: NodeID): (r: seq<NodeID>)
    ensures forall n :: n in r <==> n in ns && n != x
  {
    if |ns| == 0 then []
    else Without(ns[..|ns|-1], x) + if ns[|ns|-1] != x then [ns[|ns|-1]] else []
  }

  lemma {:induction false} OthersConcat(a: seq<VNode>, b: seq<VNode>, x: NodeID)
    ensures Others(a + b, x) == Others(a, x) + Others(b, x)
  {
    if |b| == 0 {
      assert a + b == a;
    } else {
      assert (a + b)[..|a + b|-1] == a + b[..|b|-1];
      OthersConcat(a, b[..|b|-1], x);
    }
  }

  lemma OthersAppend(w: seq<VNode>, v: VNode, x: NodeID)
    ensures Others(w + [v], x) == if v.node != x then Others(w, x) + [v] else Others(w, x)
  {
  }

  lemma DistinctAppend(w: seq<VNode>, v: VNode)
    ensures Distinct(w + [v]) == if v.node in Distinct(w) then Distinct(w) else Distinct(w) + [v.node]
  {
  }

  lemma WithoutAppend(ns: seq<NodeID>, n: NodeID, x: NodeID)
    ensures Without(ns + [n], x) == if n != x then Without(ns, x) + [n] else Without(ns, x)
  {
  }

  lemma {:induction false} OthersDistinct(w: seq<VNode>, x: NodeID)
    ensures Distinct(Others(w, x)) == Without(Distinct(w), x)
  {
    hide *;
    if |w| == 0 {
      NobodyElse(w, x);
    } else {
      var init, v := w[..|w|-1], w[|w|-1];
      OthersDistinct(init, x);
      assert w == init + [v];
      OthersAppend(init, v, x);
      DistinctAppend(init, v);
      DistinctAppend(Others(init, x), v);
      WithoutAppend(Distinct(init), v.node, x);
    }
  }

  lemma NobodyElse(w: seq<VNode>, x: NodeID)
    requires |w| == 0
    ensures Distinct(Others(w, x)) == Without(Distinct(w), x)
    ensures Others(w, x) == []
  {
  }

  lemma FirstIs(vs: seq<VNode>, h: Hash32, i: nat)
    requires i <= |vs| && (forall k :: 0 <= k < i ==> vs[k].hash < h) && (forall k :: i <= k < |vs| ==> h <= vs[k].hash)
    ensures First(vs, h) == i
  {
    FirstAtLeast(vs, h, i);
    FirstAtMost(vs, h, i);
  }

  lemma FirstAtLeast(vs: seq<VNode>, h: Hash32, i: nat)
    requires i <= |vs| && forall k :: 0 <= k < i ==> vs[k].hash < h
    ensures i <= First(vs, h)
  {
  }

  lemma FirstAtMost(vs: seq<VNode>, h: Hash32, i: nat)
    requires i <= |vs| && (i < |vs| ==> h <= vs[i].hash)
    ensures First(vs, h) <= i
  {
  }

  lemma OthersWalk(vs: seq<VNode>, x: NodeID, h: Hash32)
    requires SortedByHash(vs)
    ensures Walk(Others(vs, x), h) == Others(Walk(vs, h), x)
  {
    var i := First(vs, h);
    hide First, Others;
    var a, b := Others(vs[..i], x), Others(vs[i..], x);
    assert vs == vs[..i] + vs[i..];
    OthersConcat(vs[..i], vs[i..], x);
    OthersConcat(vs[i..], vs[..i], x);
    assert forall v :: v in a ==> v.hash < h;
    assert forall v :: v in vs[i..] ==> h <= v.hash;
    assert forall v :: v in b ==> h <= v.hash;
    SplitFirst(a, b, h);
  }

  lemma SplitFirst(a: seq<VNode>, b: seq<VNode>, h: Hash32)
    requires (forall v :: v in a ==> v.hash < h) && (forall v :: v in b ==> h <= v.hash)
    ensures Walk(a + b, h) == b + a
  {
    FirstIs(a + b, h, |a|);
  }

  /** Taking a node away takes it out of every key's preference list and changes nothing else. */
  lemma RemovalIsStable(vs: seq<VNode>, x: NodeID, h: Hash32)
    requires SortedByHash(vs)
    ensures Preference(Others(vs, x), h) == Without(Preference(vs, h), x)
  {
    hide Walk, Distinct, Others, Without;
    OthersWalk(vs, x, h);
    OthersDistinct(Walk(vs, h), x);
  }

  // ---- joins ----

  lemma MultisetRemove(b: seq<VNode>, j: nat)
    requires j < |b|
    ensures multiset(b) == multiset(b[..j] + b[j+1..]) + multiset{b[j]}
  {
    assert b == b[..j] + [b[j]] + b[j+1..];
  }

  /** Removing the same element from permutations leaves permutations. */
  lemma RemoveSame(a: seq<VNode>, i: nat, b: seq<VNode>, j: nat)
    requires i < |a| && j < |b| && a[i] == b[j] && multiset(a) == multiset(b)
    ensures multiset(a[..i] + a[i+1..]) == multiset(b[..j] + b[j+1..])
  {
    MultisetRemove(a, i);
    MultisetRemove(b, j);
    var ma, mb := multiset(a[..i] + a[i+1..]), multiset(b[..j] + b[j+1..]);
    assert ma + multiset{a[i]} == mb + multiset{a[i]};
    assert ma == (ma + multiset{a[i]}) - multiset{a[i]};
    assert mb == (mb + multiset{a[i]}) - multiset{a[i]};
  }

  lemma MultisetIn(a: seq<VNode>, b: seq<VNode>)
    requires multiset(a) == multiset(b)
    ensures |a| == |b| && forall v :: v in a <==> v in b
  {
    assert |multiset(a)| == |a| && |multiset(b)| == |b|;
    assert forall v :: v in a <==> v in multiset(a);
    assert forall v :: v in b <==> v in multiset(b);
  }

  /** Sorting the same virtual nodes gives the same sequence of hashes, whatever the sort does with equal ones. */
  lemma {:induction false} SameHashes(a: seq<VNode>, b: seq<VNode>)
    requires SortedByHash(a) && SortedByHash(b) && multiset(a) == multiset(b)
    ensures |a| == |b| && forall i :: 0 <= i < |a| ==> a[i].hash == b[i].hash
  {
    MultisetIn(a, b);
    if |a| > 0 {
      var n := |a| - 1;
      var x := a[n];
      assert x in b;
      var j :| 0 <= j < |b| && b[j] == x;
      var b' := b[..j] + b[j+1..];
      RemoveSame(a, n, b, j);
      assert a[..n] + a[n+1..] == a[..n];
      SameHashes(a[..n], b');
      TopOnward(a, b, j);
      hide SortedByHash;
      PutBack(a, a[..n], b, b', j);
    }
  }

  lemma PutBack(a: seq<VNode>, a': seq<VNode>, b: seq<VNode>, b': seq<VNode>, j: nat)
    requires |a| == |b| && j < |b| && a' == a[..|a|-1] && b' == b[..j] + b[j+1..]
    requires forall i :: 0 <= i < |a'| ==> a'[i].hash == b'[i].hash
    requires forall i :: j <= i < |b| ==> b[i].hash == a[|a|-1].hash
    ensures forall i :: 0 <= i < |a| ==> a[i].hash == b[i].hash
  {
  }

  lemma TopOnward(a: seq<VNode>, b: seq<VNode>, j: nat)
    requires SortedByHash(a) && SortedByHash(b) && |a| == |b| > 0 && (forall v :: v in b ==> v in a)
    requires j < |b| && b[j] == a[|a|-1]
    ensures forall i :: j <= i < |b| ==> b[i].hash == a[|a|-1].hash
  {
    forall i | j <= i < |b| ensures b[i].hash == a[|a|-1].hash {
      assert b[i] in a;
    }
  }

  /** Virtual nodes of different nodes never share a hash. */
  predicate NoCollisions(vs: seq<VNode>) {
    forall i, j :: 0 <= i < |vs| && 0 <= j < |vs| && vs[i].hash == vs[j].hash ==> vs[i].node == vs[j].node
  }

  /** Without collisions the preference lists depend only on which virtual nodes there are, not on the history
      of joins and departures or on how equal hashes were sorted. */
  lemma SameMembersSamePreference(a: seq<VNode>, b: seq<VNode>, h: Hash32)
    requires SortedByHash(a) && SortedByHash(b) && multiset(a) == multiset(b) && NoCollisions(b)
    ensures Preference(a, h) == Preference(b, h)
  {
    hide Distinct;
    SameHashes(a, b);
    MultisetIn(a, b);
    forall i | 0 <= i < |a| ensures a[i].node == b[i].node {
      assert a[i] in b;
    }
    FirstIs(a, h, First(b, h));
    SameNodes(Walk(a, h), Walk(b, h));
  }

  lemma {:induction false} SameNodes(a: seq<VNode>, b: seq<VNode>)
    requires |a| == |b| && forall i :: 0 <= i < |a| ==> a[i].node == b[i].node
    ensures Distinct(a) == Distinct(b)
  {
    if |a| > 0 {
      SameNodes(a[..|a|-1], b[..|b|-1]);
    }
  }

  lemma {:induction false} OthersMultiset(a: seq<VNode>, b: seq<VNode>, x: NodeID)
    requires multiset(a) == multiset(b)
    ensures multiset(Others(a, x)) == multiset(Others(b, x))
  {
    MultisetIn(a, b);
    if |a| > 0 {
      var n := |a| - 1;
      assert a[n] in b;
      var j :| 0 <= j < |b| && b[j] == a[n];
      RemoveSame(a, n, b, j);
      assert a[..n] + a[n+1..] == a[..n];
      OthersMultiset(a[..n], b[..j] + b[j+1..], x);
      OthersRemove(a, n, x);
      OthersRemove(b, j, x);
    }
  }

  lemma OthersRemove(b: seq<VNode>, j: nat, x: NodeID)
    requires j < |b|
    ensures multiset(Others(b, x)) ==
            multiset(Others(b[..j] + b[j+1..], x)) + if b[j].node != x then multiset{b[j]} else multiset{}
  {
    hide Others;
    assert b == b[..j] + ([b[j]] + b[j+1..]);
    OthersConcat(b[..j], [b[j]] + b[j+1..], x);
    OthersConcat([b[j]], b[j+1..], x);
    OthersConcat(b[..j], b[j+1..], x);
    OthersOne(b[j], x);
  }

  lemma OthersOne(v: VNode, x: NodeID)
    ensures Others([v], x) == if v.node != x then [v] else []
  {
  }

  lemma {:induction false} OthersAll(vs: seq<VNode>, x: NodeID)
    ensures x !in NodesOf(vs) ==> Others(vs, x) == vs
    ensures NodesOf(vs) <= {x} ==> Others(vs, x) == []
  {
    hide *;
    if |vs| == 0 {
      NobodyElse(vs, x);
    } else {
      var init, v := vs[..|vs|-1], vs[|vs|-1];
      assert vs == init + [v];
      OthersAll(init, x);
      OthersAppend(init, v, x);
      NodesAppend(init, v);
    }
  }

  lemma NodesAppend(w: seq<VNode>, v: VNode)
    ensures NodesOf(w + [v]) == NodesOf(w) + {v.node}
  {
    assert v in w + [v];
  }

  lemma OthersSorted(vs: seq<VNode>, x: NodeID)
    requires SortedByHash(vs)
    ensures SortedByHash(Others(vs, x))
    decreases |vs|
  {
    if |vs| > 0 {
      OthersSorted(vs[..|vs|-1], x);
    }
  }

  /** The ring after a join, as any sort may leave it. */
  ghost predicate Joined(vs: seq<VNode>, added: seq<VNode>, vs': seq<VNode>) {
    SortedByHash(vs') && multiset(vs') == multiset(vs + added)
  }

  /** Stability of a join, for every key and whatever the sort does with equal hashes. */
  ghost predicate JoinStable(vs: seq<VNode>, x: NodeID, added: seq<VNode>) {
    forall vs', h | Joined(vs, added, vs') :: Without(Preference(vs', h), x) == Preference(vs, h)
  }

  lemma JoinIsStable(vs: seq<VNode>, x: NodeID, added: seq<VNode>, vs': seq<VNode>, h: Hash32)
    requires SortedByHash(vs) && x !in NodesOf(vs) && NodesOf(added) == {x} && Joined(vs, added, vs')
    requires NoCollisions(vs)
    ensures Without(Preference(vs', h), x) == Preference(vs, h)
  {
    hide Preference, Without, Others, NoCollisions, SortedByHash;
    RemovalIsStable(vs', x, h);
    OthersMultiset(vs', vs + added, x);
    OthersConcat(vs, added, x);
    OthersAll(vs, x);
    OthersAll(added, x);
    assert vs + [] == vs;
    OthersSorted(vs', x);
    SameMembersSamePreference(Others(vs', x), vs, h);
  }

  // ---- sorting ----

  function Insert(vs: seq<VNode>, v: VNode): seq<VNode> {
    vs[..First(vs, v.hash)] + [v] + vs[First(vs, v.hash)..]
  }

  lemma InsertKeepsOrder(vs: seq<VNode>, v: VNode)
    requires SortedByHash(vs)
    ensures SortedByHash(Insert(vs, v))
  {
  }

  lemma InsertAdds(vs: seq<VNode>, v: VNode)
    ensures multiset(Insert(vs, v)) == multiset(vs) + multiset{v}
  {
    var k := First(vs, v.hash);
    hide First;
    assert vs == vs[..k] + vs[k..];
  }

  lemma InsertOthers(vs: seq<VNode>, v: VNode)
    ensures Others(Insert(vs, v), v.node) == Others(vs, v.node)
  {
    var k := First(vs, v.hash);
    hide First, Others;
    assert vs == vs[..k] + vs[k..];
    OthersConcat(vs[..k], vs[k..], v.node);
    OthersConcat(vs[..k] + [v], vs[k..], v.node);
    OthersAppend(vs[..k], v, v.node);
  }

  lemma InsertSorts(vs: seq<VNode>, v: VNode)
    requires SortedByHash(vs)
    ensures SortedByHash(Insert(vs, v)) && multiset(Insert(vs, v)) == multiset(vs) + multiset{v}
    ensures Others(Insert(vs, v), v.node) == Others(vs, v.node)
  {
    hide Insert, SortedByHash, Others;
    InsertKeepsOrder(vs, v);
    InsertAdds(vs, v);
    InsertOthers(vs, v);
  }

  function InsertAll(vs: seq<VNode>, added: seq<VNode>): seq<VNode> {
    if |added| == 0 then vs else Insert(InsertAll(vs, added[..|added|-1]), added[|added|-1])
  }

  lemma {:induction false} InsertAllSorts(vs: seq<VNode>, added: seq<VNode>)
    requires SortedByHash(vs)
    ensures SortedByHash(InsertAll(vs, added)) && multiset(InsertAll(vs, added)) == multiset(vs + added)
  {
    hide Insert, SortedByHash, Others;
    if |added| == 0 {
      assert vs + added == vs;
    } else {
      var n := |added| - 1;
      InsertAllSorts(vs, added[..n]);
      InsertSorts(InsertAll(vs, added[..n]), added[n]);
      assert vs + added == (vs + added[..n]) + [added[n]];
      assert multiset(vs + added) == multiset(vs + added[..n]) + multiset{added[n]};
    }
  }

  lemma {:induction false} InsertAllOthers(vs: seq<VNode>, added: seq<VNode>, x: NodeID)
    requires SortedByHash(vs) && NodesOf(added) <= {x}
    ensures Others(InsertAll(vs, added), x) == Others(vs, x)
  {
    hide Insert, Others;
    if |added| > 0 {
      var n := |added| - 1;
      assert added[n].node in NodesOf(added);
      assert NodesOf(added[..n]) <= NodesOf(added);
      InsertAllOthers(vs, added[..n], x);
      InsertAllSorts(vs, added[..n]);
      InsertSorts(InsertAll(vs, added[..n]), added[n]);
    }
  }

  // ---- exactly when joins are stable ----

  lemma {:induction false} DistinctHead(w: seq<VNode>)
    requires |w| > 0
    ensures |Distinct(w)| > 0 && Distinct(w)[0] == w[0].node
  {
    if |w| > 1 {
      DistinctHead(w[..|w|-1]);
    }
  }

  /** The coordinator is the first virtual node at or after the hash, or the first of all past the end. */
  lemma Head(vs: seq<VNode>, h: Hash32)
    requires |vs| > 0
    ensures |Preference(vs, h)| > 0
    ensures Preference(vs, h)[0] == (if First(vs, h) < |vs| then vs[First(vs, h)] else vs[0]).node
  {
    hide First, Distinct;
    DistinctHead(Walk(vs, h));
  }

  /** Two virtual nodes with the same hash, put the other way round. */
  lemma Swapped(vs: seq<VNode>, f: nat, t: nat)
    requires SortedByHash(vs) && f < t < |vs| && vs[f].hash == vs[t].hash
    ensures var vs' := vs[f := vs[t]][t := vs[f]];
      SortedByHash(vs') && multiset(vs') == multiset(vs) && First(vs', vs[f].hash) == First(vs, vs[f].hash)
  {
    FirstIs(vs[f := vs[t]][t := vs[f]], vs[f].hash, First(vs, vs[f].hash));
  }

  /** The ring with two colliding virtual nodes swapped has another coordinator for their hash. */
  lemma SwapMoves(vs: seq<VNode>, i: nat, j: nat) returns (swapped: seq<VNode>)
    requires SortedByHash(vs) && i < |vs| && j < |vs| && vs[i].hash == vs[j].hash && vs[i].node != vs[j].node
    ensures SortedByHash(swapped) && multiset(swapped) == multiset(vs)
    ensures Preference(swapped, vs[i].hash) != Preference(vs, vs[i].hash)
  {
    var h := vs[i].hash;
    var f := First(vs, h);
    assert f <= i && f <= j by { FirstAtMost(vs, h, i); FirstAtMost(vs, h, j); }
    hide First, Preference;
    var t := if vs[i].node != vs[f].node then i else j;
    swapped := vs[f := vs[t]][t := vs[f]];
    Swapped(vs, f, t);
    Head(vs, h);
    Head(swapped, h);
  }

  /** A collision between two nodes lets a join of a third one change the order of the two. */
  lemma CollisionsReorder(vs: seq<VNode>, x: NodeID, added: seq<VNode>, i: nat, j: nat)
    requires SortedByHash(vs) && x !in NodesOf(vs) && NodesOf(added) == {x}
    requires i < |vs| && j < |vs| && vs[i].hash == vs[j].hash && vs[i].node != vs[j].node
    ensures !JoinStable(vs, x, added)
  {
    var swapped := SwapMoves(vs, i, j);
    var vs' := InsertAll(swapped, added);
    var h := vs[i].hash;
    hide InsertAll, Preference, Others, Without, SortedByHash;
    InsertAllSorts(swapped, added);
    InsertAllOthers(swapped, added, x);
    MultisetIn(swapped, vs);
    OthersAll(swapped, x);
    RemovalIsStable(vs', x, h);
    assert Joined(vs, added, vs');
    assert Without(Preference(vs', h), x) != Preference(vs, h);
  }

  /** A join is stable for every key, whatever the sort does, exactly when no two nodes of the ring collide. */
  lemma JoinStableIff(vs: seq<VNode>, x: NodeID, added: seq<VNode>)
    requires SortedByHash(vs) && x !in NodesOf(vs) && NodesOf(added) == {x}
    ensures JoinStable(vs, x, added) <==> NoCollisions(vs)
  {
    hide Preference, Without, Joined;
    if NoCollisions(vs) {
      forall vs', h | Joined(vs, added, vs') ensures Without(Preference(vs', h), x) == Preference(vs, h) {
        JoinIsStable(vs, x, added, vs', h);
      }
    } else {
      var i, j :| 0 <= i < |vs| && 0 <= j < |vs| && vs[i].hash == vs[j].hash && vs[i].node != vs[j].node;
      CollisionsReorder(vs, x, added, i, j);
    }
  }

  /** So after a join a key's coordinator is the one it had, or the new node. */
  lemma CoordinatorMoves(vs: seq<VNode>, x: NodeID, added: seq<VNode>, vs': seq<VNode>, h: Hash32)
    requires SortedByHash(vs) && x !in NodesOf(vs) && NodesOf(added) == {x} && Joined(vs, added, vs')
    requires NoCollisions(vs)
    requires |vs| > 0
    ensures |Preference(vs', h)| > 0 && |Preference(vs, h)| > 0
    ensures Preference(vs', h)[0] == x || Preference(vs', h)[0] == Preference(vs, h)[0]
  {
    hide Preference, Distinct;
    JoinIsStable(vs, x, added, vs', h);
    Head(vs, h);
    MultisetIn(vs', vs + added);
    Head(vs', h);
    var ns := Preference(vs', h);
    if ns[0] != x {
      FirstStays(ns, x);
    }
  }

  lemma {:induction false} FirstStays(ns: seq<NodeID>, x: NodeID)
    requires |ns| > 0 && ns[0] != x
    ensures |Without(ns, x)| > 0 && Without(ns, x)[0] == ns[0]
  {
    if |ns| > 1 {
      FirstStays(ns[..|ns|-1], x);
    }
  }

  // ---- each virtual node once ----

  predicate Unique(vs: seq<VNode>) {
    forall i, j :: 0 <= i < j < |vs| ==> vs[i] != vs[j]
  }

  lemma {:induction false} UniqueOnce(vs: seq<VNode>, v: VNode)
    requires Unique(vs)
    ensures multiset(vs)[v] == if v in vs then 1 else 0
  {
    if |vs| > 0 {
      var n := |vs| - 1;
      UniqueOnce(vs[..n], v);
      assert vs == vs[..n] + [vs[n]];
    }
  }

  lemma {:induction false} OnceUnique(vs: seq<VNode>)
    requires forall v :: multiset(vs)[v] <= 1
    ensures Unique(vs)
  {
    forall i, j | 0 <= i < j < |vs| ensures vs[i] != vs[j] {
      MultisetRemove(vs, i);
      var rest := vs[..i] + vs[i+1..];
      assert rest[j-1] == vs[j];
      assert multiset(rest)[vs[j]] > 0;
      assert vs[i] == vs[j] ==> multiset(vs)[vs[i]] >= 2;
    }
  }

  /** The virtual nodes of one node. */
  function VNodesOf(place: Placement, x: NodeID, count: nat): (vs: seq<VNode>)
    ensures |vs| == count && Unique(vs)
    ensures forall v :: v in vs <==> v.node == x && v.idx < count && v.hash == place(x, v.idx)
  {
    if count == 0 then [] else VNodesOf(place, x, count - 1) + [VNode(place(x, count - 1), x, count - 1)]
  }

  lemma DistinctEmpty()
    ensures Distinct([]) == []
  {
  }

  lemma WrapsAround(x: nat, n: nat)
    requires 0 < n && x < 2 * n
    ensures x % n == if x < n then x else x - n
  {
  }

  lemma WalkAt(vs: seq<VNode>, h: Hash32, idx: nat)
    requires |vs| > 0 && idx == if First(vs, h) == |vs| then 0 else First(vs, h)
    ensures |Walk(vs, h)| == |vs| && forall i :: 0 <= i < |vs| ==> Walk(vs, h)[i] == vs[(idx + i) % |vs|]
  {
    hide First;
    forall i | 0 <= i < |vs| ensures Walk(vs, h)[i] == vs[(idx + i) % |vs|] {
      WrapsAround(idx + i, |vs|);
    }
  }

  lemma Resorted(all: seq<VNode>, sorted: seq<VNode>)
    requires Unique(all) && multiset(sorted) == multiset(all)
    ensures Unique(sorted) && forall v :: v in sorted <==> v in all
  {
    forall v ensures multiset(sorted)[v] <= 1 {
      UniqueOnce(all, v);
    }
    OnceUnique(sorted);
    MultisetIn(sorted, all);
  }

  lemma {:induction false} OthersUnique(vs: seq<VNode>, x: NodeID)
    requires Unique(vs)
    ensures Unique(Others(vs, x))
  {
    if |vs| > 0 {
      OthersUnique(vs[..|vs|-1], x);
    }
  }

  lemma UniqueConcat(a: seq<VNode>, b: seq<VNode>)
    requires Unique(a) && Unique(b) && forall v :: v in a ==> v !in b
    ensures Unique(a + b) && forall v :: v in a + b <==> v in a || v in b
  {
    forall i, j | 0 <= i < j < |a + b| ensures (a + b)[i] != (a + b)[j] {
      if i < |a| <= j {
        assert a[i] in a && b[j - |a|] in b;
      }
    }
  }
}
