/** The membership manager driving the ring (internal/cluster/membership.go): each method is one step of
    MembershipSpec. */
module Membership {
  import opened HashRing
  import opened Ring
  import opened MembershipSpec

  class Membership {
    const selfID: NodeID
    const failureTimeout: int
    const ring: Ring
    var nodes: map<NodeID, NodeInfo>
    var onRecovery: bool

    ghost predicate Valid()
      reads this, ring
    {
      ring.Valid()
    }

    ghost function Abs(): State
      reads this, ring
    {
      State(nodes, ring.physicalNodes, onRecovery)
    }

    ghost function Conf(): Config {
      Config(selfID, failureTimeout)
    }

    constructor (selfID: NodeID, selfAddr: string, ring: Ring, failureTimeout: int, now: int)
      requires ring.Valid()
      modifies ring
      ensures Valid() && this.ring == ring && Conf() == Config(selfID, failureTimeout)
      ensures Abs() == State(map[selfID := NodeInfo(selfAddr, Alive, now)], old(ring.physicalNodes) + {selfID}, false)
    {
      this.selfID := selfID;
      this.failureTimeout := failureTimeout;
      this.ring := ring;
      nodes := map[selfID := NodeInfo(selfAddr, Alive, now)];
      onRecovery := false;
      new;
      ring.AddNode(selfID);
    }

    method SetRecoveryCallback()
      modifies this
      ensures Abs() == Step(Conf(), old(Abs()), SetCallback)
    {
      onRecovery := true;
    }

    method AddNode(id: NodeID, addr: string, now: int)
      requires Valid()
      modifies this, ring
      ensures Valid() && Abs() == Step(Conf(), old(Abs()), Join(id, addr, now))
      ensures id in nodes && nodes[id] == NodeInfo(addr, Alive, now)
    {
      hide Joined, Preference;
      if id in nodes {
        nodes := nodes[id := nodes[id].(addr := addr, status := Alive, lastSeen := now)];
        return;
      }
      nodes := nodes[id := NodeInfo(addr, Alive, now)];
      ring.AddNode(id);
    }

    /** False stands for ErrCannotRemoveSelf. */
    method RemoveNode(nodeID: NodeID) returns (ok: bool)
      requires Valid()
      modifies this, ring
      ensures ok <==> nodeID != selfID
      ensures Valid() && Abs() == Step(Conf(), old(Abs()), Leave(nodeID))
    {
      if nodeID == selfID {
        return false;
      }
      if nodeID !in nodes {
        return true;
      }
      nodes := nodes - {nodeID};
      ring.RemoveNode(nodeID);
      return true;
    }

    method HandleHeartbeat(fromID: NodeID, fromAddr: string, now: int)
      requires Valid()
      modifies this, ring
      ensures Valid() && Abs() == Step(Conf(), old(Abs()), Heartbeat(fromID, fromAddr, now))
      ensures fromID in nodes && nodes[fromID] == NodeInfo(fromAddr, Alive, now)
    {
      hide Joined, Others;
      if fromID !in nodes {
        var seedID := SeedID(fromAddr);
        if seedID in nodes && nodes[seedID].addr == fromAddr {
          nodes := nodes - {seedID};
          ring.RemoveNode(seedID);
        }
        nodes := nodes[fromID := NodeInfo(fromAddr, Alive, now)];
        ring.AddNode(fromID);
        return;
      }
      var oldStatus := nodes[fromID].status;
      nodes := nodes[fromID := NodeInfo(fromAddr, Alive, now)];
      if (oldStatus == Suspect || oldStatus == Dead) && onRecovery {
        if oldStatus == Dead {
          ring.AddNode(fromID);
        }
      }
    }

    /** detectFailures goes through the nodes in whatever order the map gives them. */
    method DetectFailures(now: int)
      requires Valid()
      modifies this, ring
      ensures Valid() && Abs() == Step(Conf(), old(Abs()), Detect(now))
      ensures nodes.Keys == old(nodes).Keys
      ensures selfID in nodes ==> nodes[selfID] == old(nodes)[selfID].(lastSeen := now)
      ensures forall id :: id in nodes && id != selfID ==> var n := old(nodes)[id]; var silent := now - n.lastSeen;
        && nodes[id].addr == n.addr && nodes[id].lastSeen == n.lastSeen
        && (nodes[id].status.Alive? <==> n.status.Alive? && silent <= failureTimeout)
        && (nodes[id].status.Dead? <==> n.status.Dead? || (n.status.Suspect? && silent > failureTimeout * 2))
      ensures forall id :: id in ring.physicalNodes <==>
        && id in old(ring.physicalNodes)
        && !(id in nodes && id != selfID && nodes[id].status.Dead? && !old(nodes)[id].status.Dead?)
    {
      hide Others;
      ghost var before := nodes;
      ghost var done: set<NodeID> := {};
      var todo := nodes.Keys;
      while todo != {}
        invariant todo !! done && todo + done == before.Keys == nodes.Keys && Valid() && onRecovery == old(onRecovery)
        invariant forall id :: id in todo ==> nodes[id] == before[id]
        invariant forall id :: id in done ==> nodes[id] == Aged(Conf(), id, before[id], now)
        invariant ring.physicalNodes == old(ring.physicalNodes) - (Dying(Conf(), before, now) - todo)
        decreases todo
      {
        var id :| id in todo;
        var n := nodes[id];
        todo := todo - {id};
        done := done + {id};
        if id == selfID {
          nodes := nodes[id := n.(lastSeen := now)];
          continue;
        }
        var elapsed := now - n.lastSeen;
        if n.status.Alive? {
          if elapsed > failureTimeout {
            nodes := nodes[id := n.(status := Suspect)];
          }
        } else if n.status.Suspect? {
          if elapsed > failureTimeout * 2 {
            nodes := nodes[id := n.(status := Dead)];
            ring.RemoveNode(id);
          }
        }
      }
      assert nodes == AllAged(Conf(), before, now);
    }
  }
}
