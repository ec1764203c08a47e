/** The consistent-hash ring (internal/cluster/ring.go). */
module Ring {
  import opened HashRing

  method SortByHash(vs: seq<VNode>) returns (sorted: seq<VNode>)
    ensures SortedByHash(sorted) && multiset(sorted) == multiset(vs)
  {
    hide Insert;
    sorted := [];
    for i := 0 to |vs|
      invariant SortedByHash(sorted) && multiset(sorted) == multiset(vs[..i])
    {
      InsertSorts(sorted, vs[i]);
      assert vs[..i+1] == vs[..i] + [vs[i]];
      sorted := Insert(sorted, vs[i]);
    }
    assert vs[..|vs|] == vs;
  }

  /** The virtual node is the first one at or after the hash. */
  ghost predicate IsFirst(vs: seq<VNode>, h: Hash32, i: int) {
    0 <= i < |vs| && h <= vs[i].hash && forall k :: 0 <= k < i ==> vs[k].hash < h
  }

  class Ring {
    const place: Placement
    const hashKey: string -> Hash32
    const vnodeCount: nat
    var vnodes: seq<VNode>
    var physicalNodes: set<NodeID>

    /** The virtual node is one the ring should have. */
    predicate Belongs(v: VNode)
      reads this
    {
      v.node in physicalNodes && v.idx < vnodeCount && v.hash == place(v.node, v.idx)
    }

    /** Sorted, and holding each virtual node of each physical node exactly once. */
    ghost predicate Valid()
      reads this
    {
      vnodeCount > 0 && SortedByHash(vnodes) && Unique(vnodes) && forall v :: v in vnodes <==> Belongs(v)
    }

    constructor (place: Placement, hashKey: string -> Hash32, vnodesPerNode: int)
      ensures Valid() && physicalNodes == {} && this.place == place && this.hashKey == hashKey
      ensures vnodeCount == if vnodesPerNode <= 0 then 128 else vnodesPerNode
    {
      this.place := place;
      this.hashKey := hashKey;
      vnodeCount := if vnodesPerNode <= 0 then 128 else vnodesPerNode;
      vnodes := [];
      physicalNodes := {};
    }

    lemma Members()
      requires Valid()
      ensures NodesOf(vnodes) == physicalNodes
    {
      forall x | x in physicalNodes ensures x in NodesOf(vnodes) {
        assert Belongs(VNode(place(x, 0), x, 0));
      }
    }

    method AddNode(x: NodeID)
      requires Valid()
      modifies this
      ensures Valid() && physicalNodes == old(physicalNodes) + {x}
      ensures x in old(physicalNodes) ==> vnodes == old(vnodes)
      ensures x !in old(physicalNodes) ==> Joined(old(vnodes), VNodesOf(place, x, vnodeCount), vnodes)
    {
      if x in physicalNodes {
        return;
      }
      physicalNodes := physicalNodes + {x};
      ghost var added := VNodesOf(place, x, vnodeCount);
      UniqueConcat(vnodes, added);
      hide SortedByHash, Unique;
      var made := MakeVNodes(x);
      vnodes := vnodes + made;
      ghost var all := vnodes;
      assert forall v :: v in all <==> Belongs(v);
      vnodes := SortByHash(vnodes);
      Resorted(all, vnodes);
    }

    method MakeVNodes(x: NodeID) returns (added: seq<VNode>)
      ensures added == VNodesOf(place, x, vnodeCount)
    {
      added := [];
      for i := 0 to vnodeCount
        invariant added == VNodesOf(place, x, i)
      {
        added := added + [VNode(place(x, i), x, i)];
      }
    }

    method RemoveNode(x: NodeID)
      requires Valid()
      modifies this
      ensures Valid() && physicalNodes == old(physicalNodes) - {x} && vnodes == Others(old(vnodes), x)
    {
      if x !in physicalNodes {
        Members();
        OthersAll(vnodes, x);
        return;
      }
      physicalNodes := physicalNodes - {x};
      hide SortedByHash, Unique;
      OthersSorted(vnodes, x);
      OthersUnique(vnodes, x);
      vnodes := Filtered(vnodes, x);
    }

    method Filtered(vnodes: seq<VNode>, x: NodeID) returns (filtered: seq<VNode>)
      ensures filtered == Others(vnodes, x)
    {
      filtered := [];
      assert Others(vnodes[..0], x) == [];
      hide Others;
      for i := 0 to |vnodes|
        invariant filtered == Others(vnodes[..i], x)
      {
        assert vnodes[..i+1] == vnodes[..i] + [vnodes[i]];
        OthersAppend(vnodes[..i], vnodes[i], x);
        if vnodes[i].node != x {
          filtered := filtered + [vnodes[i]];
        }
      }
      assert vnodes[..|vnodes|] == vnodes;
    }

    /** sort.Search for the first virtual node at or after a hash. */
    method Search(h: Hash32) returns (idx: nat)
      requires Valid()
      ensures idx == First(vnodes, h)
      ensures idx < |vnodes| ==> IsFirst(vnodes, h, idx)
      ensures idx >= |vnodes| ==> idx == |vnodes| && forall v :: v in vnodes ==> v.hash < h
    {
      var lo: nat, hi: nat := 0, |vnodes|;
      while lo < hi
        invariant lo <= hi <= |vnodes|
        invariant forall k :: 0 <= k < lo ==> vnodes[k].hash < h
        invariant forall k :: hi <= k < |vnodes| ==> h <= vnodes[k].hash
      {
        var mid := (lo + hi) / 2;
        if vnodes[mid].hash >= h {
          hi := mid;
        } else {
          lo := mid + 1;
        }
      }
      FirstIs(vnodes, h, lo);
      idx := lo;
    }

    /** The coordinator of a key is the head of its preference list; "" on an empty ring. */
    method GetNode(key: string) returns (x: NodeID)
      requires Valid()
      ensures var p := Preference(vnodes, hashKey(key)); x == if |p| == 0 then "" else p[0]
      ensures physicalNodes != {} ==> x in physicalNodes
      ensures |vnodes| == 0 ==> x == ""
      ensures forall i :: IsFirst(vnodes, hashKey(key), i) ==> x == vnodes[i].node
      ensures |vnodes| > 0 && (forall v :: v in vnodes ==> v.hash < hashKey(key)) ==> x == vnodes[0].node
    {
      Members();
      PreferenceNames(vnodes, hashKey(key));
      if |vnodes| == 0 {
        return "";
      }
      var idx := Search(hashKey(key));
      if idx == |vnodes| {
        idx := 0;
      }
      Head(vnodes, hashKey(key));
      x := vnodes[idx].node;
    }

    /** The first n nodes of the key's preference list: min(n, size) nodes of the ring, all different. */
    method GetNodes(key: string, n: nat) returns (result: seq<NodeID>)
      requires Valid()
      ensures result <= Preference(vnodes, hashKey(key))
      ensures |result| == if n < |physicalNodes| then n else |physicalNodes|
      ensures NoDuplicates(result) && forall x :: x in result ==> x in physicalNodes
    {
      ghost var w := Walk(vnodes, hashKey(key));
      Members();
      PreferenceNames(vnodes, hashKey(key));
      result := [];
      if |vnodes| == 0 {
        return;
      }
      var idx := Search(hashKey(key));
      hide First, SortedByHash, Distinct;
      if idx == |vnodes| {
        idx := 0;
      }
      WalkAt(vnodes, hashKey(key), idx);
      result := Collect(w, idx, n);
    }

    /** The walk itself, starting at a place on the ring. */
    method Collect(ghost w: seq<VNode>, idx: nat, n: nat) returns (result: seq<NodeID>)
      requires idx < |vnodes| == |w| && forall i :: 0 <= i < |w| ==> w[i] == vnodes[(idx + i) % |vnodes|]
      ensures result <= Distinct(w) && |result| == if n < |Distinct(w)| then n else |Distinct(w)|
    {
      hide Distinct;
      result := [];
      var seen: set<NodeID> := {};
      var i: nat := 0;
      assert w[..0] == [];
      DistinctEmpty();
      while i < |vnodes| && |result| < n
        invariant i <= |vnodes| && |result| <= n
        invariant result == Distinct(w[..i]) && forall x :: x in seen <==> x in result
      {
        var vnode := vnodes[(idx + i) % |vnodes|];
        assert vnode == w[i];
        assert w[..i+1] == w[..i] + [w[i]];
        DistinctAppend(w[..i], w[i]);
        if vnode.node !in seen {
          seen := seen + {vnode.node};
          result := result + [vnode.node];
        }
        i := i + 1;
      }
      DistinctPrefix(w, i);
      assert w[..|w|] == w;
    }
  }

  /** Two rings with the same members give every key the same preference list, however each came to be. */
  lemma RingsAgree(a: Ring, b: Ring, h: Hash32)
    requires a.Valid() && b.Valid() && a.place == b.place && a.vnodeCount == b.vnodeCount
    requires a.physicalNodes == b.physicalNodes && NoCollisions(b.vnodes)
    ensures Preference(a.vnodes, h) == Preference(b.vnodes, h)
  {
    hide Preference, NoCollisions;
    forall v ensures multiset(a.vnodes)[v] == multiset(b.vnodes)[v] {
      UniqueOnce(a.vnodes, v);
      UniqueOnce(b.vnodes, v);
      assert v in a.vnodes <==> a.Belongs(v);
      assert v in b.vnodes <==> b.Belongs(v);
    }
    SameMembersSamePreference(a.vnodes, b.vnodes, h);
  }
}
