/** Vector clocks (internal/consistency/vectorclock.go): a lattice, and loops that decide its order. */
module VectorClock {
  type Count = n: nat | n < 0x1_0000_0000_0000_0000
  type Clocks = map<string, Count>

  const MAX_COUNT: Count := 0xFFFF_FFFF_FFFF_FFFF

  /** A missing entry counts as 0. */
  function At(c: Clocks, n: string): Count { if n in c then c[n] else 0 }

  ghost predicate Leq(a: Clocks, b: Clocks) { forall n :: At(a, n) <= At(b, n) }

  /** The strict pointwise order: happened before. */
  ghost predicate Less(a: Clocks, b: Clocks) { Leq(a, b) && !Leq(b, a) }

  ghost predicate Same(a: Clocks, b: Clocks) { forall n :: At(a, n) == At(b, n) }

  /** Merge: the greater count of each node. */
  function Merged(a: Clocks, b: Clocks): Clocks {
    map n | n in a.Keys + (set m | m in b && b[m] > At(a, m)) :: if n in b && b[n] > At(a, n) then b[n] else At(a, n)
  }

  lemma MergedAt(a: Clocks, b: Clocks, n: string)
    ensures At(Merged(a, b), n) == if At(a, n) < At(b, n) then At(b, n) else At(a, n)
  {
  }

  lemma MergedNone(a: Clocks)
    ensures Merged(a, map[]) == a
  {
  }

  lemma MergeStep(a: Clocks, b: Clocks, n: string, v: Count)
    requires n !in b
    ensures Merged(a, b[n := v]) == if v > At(Merged(a, b), n) then Merged(a, b)[n := v] else Merged(a, b)
  {
  }

  /** Merging gives the least upper bound. */
  lemma MergedIsLeast(a: Clocks, b: Clocks, c: Clocks)
    ensures Leq(Merged(a, b), c) <==> Leq(a, c) && Leq(b, c)
  {
  }

  lemma MergeLaws(a: Clocks, b: Clocks, c: Clocks)
    ensures Same(Merged(a, b), Merged(b, a))
    ensures Same(Merged(Merged(a, b), c), Merged(a, Merged(b, c)))
    ensures Same(Merged(a, a), a)
  {
    hide Merged, At;
    forall n
      ensures At(Merged(a, b), n) == At(Merged(b, a), n)
      ensures At(Merged(Merged(a, b), c), n) == At(Merged(a, Merged(b, c)), n)
      ensures At(Merged(a, a), n) == At(a, n)
    {
      MergedAt(a, b, n);
      MergedAt(b, a, n);
      MergedAt(Merged(a, b), c, n);
      MergedAt(b, c, n);
      MergedAt(a, Merged(b, c), n);
      MergedAt(a, a, n);
    }
  }

  lemma LessIsOrder(a: Clocks, b: Clocks, c: Clocks)
    ensures !(Less(a, b) && Less(b, a))
    ensures Less(a, b) && Less(b, c) ==> Less(a, c)
    ensures Leq(a, b) && Leq(b, a) ==> Same(a, b)
  {
  }

  class VectorClock {
    var clocks: Clocks
    var timestamp: int

    constructor (now: int)
      ensures clocks == map[] && timestamp == now
    {
      clocks := map[];
      timestamp := now;
    }

    /** Increment moves the clock forward, unless the count is at its maximum: then uint64 wraps and it moves back. */
    method Increment(nodeID: string, now: int)
      modifies this
      ensures timestamp == now && forall n :: n != nodeID ==> At(clocks, n) == At(old(clocks), n)
      ensures At(old(clocks), nodeID) < MAX_COUNT ==> At(clocks, nodeID) == At(old(clocks), nodeID) + 1
      ensures Less(old(clocks), clocks) <==> At(old(clocks), nodeID) < MAX_COUNT
      ensures Less(clocks, old(clocks)) <==> At(old(clocks), nodeID) == MAX_COUNT
    {
      var count: Count := At(clocks, nodeID);
      clocks := clocks[nodeID := if count == MAX_COUNT then 0 else count + 1];
      timestamp := now;
      assert At(clocks, nodeID) != At(old(clocks), nodeID);
    }

    method Merge(other: VectorClock)
      requires other != this
      modifies this
      ensures clocks == Merged(old(clocks), other.clocks) && timestamp == old(timestamp)
    {
      ghost var before, seen: Clocks := clocks, map[];
      MergedNone(before);
      hide Merged, At;
      var todo := other.clocks.Keys;
      while todo != {}
        invariant todo <= other.clocks.Keys && timestamp == old(timestamp) && other.clocks == old(other.clocks)
        invariant seen == other.clocks - todo && clocks == Merged(before, seen)
        decreases todo
      {
        var nodeID :| nodeID in todo;
        todo := todo - {nodeID};
        var otherClock := other.clocks[nodeID];
        MergeStep(before, seen, nodeID, otherClock);
        if otherClock > At(clocks, nodeID) {
          clocks := clocks[nodeID := otherClock];
        }
        seen := seen[nodeID := otherClock];
      }
      assert seen == other.clocks;
    }

    /** -1, 1 or 0 exactly as the strict pointwise order says, whatever order the maps are walked in. */
    method Compare(other: VectorClock) returns (r: int)
      ensures r == -1 || r == 0 || r == 1
      ensures r == -1 <==> Less(clocks, other.clocks)
      ensures r == 1 <==> Less(other.clocks, clocks)
    {
      var vcLess, otherLess := false, false;
      var todo := clocks.Keys;
      while todo != {}
        invariant todo <= clocks.Keys
        invariant vcLess <==> exists n :: n in clocks.Keys - todo && At(clocks, n) < At(other.clocks, n)
        invariant otherLess <==> exists n :: n in clocks.Keys - todo && At(clocks, n) > At(other.clocks, n)
        decreases todo
      {
        var nodeID :| nodeID in todo;
        ghost var done := clocks.Keys - todo;
        todo := todo - {nodeID};
        assert clocks.Keys - todo == done + {nodeID};
        var otherClock := At(other.clocks, nodeID);
        if clocks[nodeID] < otherClock {
          vcLess := true;
        }
        if clocks[nodeID] > otherClock {
          otherLess := true;
        }
      }
      assert clocks.Keys - {} == clocks.Keys;
      ghost var some := vcLess;
      todo := other.clocks.Keys;
      while todo != {}
        invariant todo <= other.clocks.Keys
        invariant vcLess <==> some || exists n :: n in other.clocks.Keys - todo && n !in clocks && other.clocks[n] > 0
        decreases todo
      {
        var nodeID :| nodeID in todo;
        ghost var done := other.clocks.Keys - todo;
        todo := todo - {nodeID};
        assert other.clocks.Keys - todo == done + {nodeID};
        if nodeID !in clocks && other.clocks[nodeID] > 0 {
          vcLess := true;
        }
      }
      assert other.clocks.Keys - {} == other.clocks.Keys;
      Decided(clocks, other.clocks, some, vcLess, otherLess);
      if vcLess && !otherLess {
        return -1;
      }
      if otherLess && !vcLess {
        return 1;
      }
      return 0;
    }
  }

  /** What the two loops find out. */
  lemma Decided(a: Clocks, b: Clocks, some: bool, less: bool, greater: bool)
    requires some <==> exists n :: n in a.Keys && At(a, n) < At(b, n)
    requires greater <==> exists n :: n in a.Keys && At(a, n) > At(b, n)
    requires less <==> some || exists n :: n in b.Keys && n !in a && b[n] > 0
    ensures less <==> !Leq(b, a)
    ensures greater <==> !Leq(a, b)
  {
    if n :| At(a, n) < At(b, n) {
      assert n in a.Keys || (n in b.Keys && n !in a && b[n] > 0);
      assert !Leq(b, a);
    }
    if n :| At(a, n) > At(b, n) {
      assert n in a.Keys;
      assert !Leq(a, b);
    }
    assert less ==> exists n :: At(a, n) < At(b, n) by { LessWitness(a, b, some, less); }
  }

  lemma LessWitness(a: Clocks, b: Clocks, some: bool, less: bool)
    requires some <==> exists n :: n in a.Keys && At(a, n) < At(b, n)
    requires less <==> some || exists n :: n in b.Keys && n !in a && b[n] > 0
    ensures less ==> exists n :: At(a, n) < At(b, n)
  {
    if less && !some {
      var n :| n in b.Keys && n !in a && b[n] > 0;
      assert At(a, n) < At(b, n);
    }
  }

  /** The survivor of a conflict is one of the two and never happened strictly before the other. */
  method ResolveConcurrent(a: VectorClock, b: VectorClock) returns (r: VectorClock)
    ensures r == a || r == b
    ensures !Less(r.clocks, a.clocks) && !Less(r.clocks, b.clocks)
    ensures !Less(a.clocks, b.clocks) && !Less(b.clocks, a.clocks) ==> r == if a.timestamp > b.timestamp then a else b
  {
    var cmp := a.Compare(b);
    if cmp == 1 {
      return a;
    } else if cmp == -1 {
      return b;
    } else if a.timestamp > b.timestamp {
      return a;
    } else {
      return b;
    }
  }
}
