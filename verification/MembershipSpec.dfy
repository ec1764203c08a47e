/** Cluster membership as a state machine (internal/cluster/membership.go): what every run keeps. */
module MembershipSpec {
  import opened HashRing

  datatype Status = Alive | Suspect | Dead

  datatype NodeInfo = NodeInfo(addr: string, status: Status, lastSeen: int)

  /** The known nodes, the nodes on the ring, and whether a recovery callback is registered. */
  datatype State = State(nodes: map<NodeID, NodeInfo>, ring: set<NodeID>, callback: bool)

  datatype Event =
    | Join(id: NodeID, addr: string, now: int)
    | Leave(id: NodeID)
    | Heartbeat(id: NodeID, addr: string, now: int)
    | Detect(now: int)
    | SetCallback

  /** What does not change: this node, and how long a node may be silent before it is suspected. */
  datatype Config = Config(self: NodeID, timeout: int)

  function SeedID(addr: string): NodeID { "seed-" + addr }

  /** One node at a failure detection. */
  function Aged(c: Config, id: NodeID, n: NodeInfo, now: int): NodeInfo {
    if id == c.self then n.(lastSeen := now)
    else if n.status.Alive? && now - n.lastSeen > c.timeout then n.(status := Suspect)
    else if n.status.Suspect? && now - n.lastSeen > c.timeout * 2 then n.(status := Dead)
    else n
  }

  function AllAged(c: Config, nodes: map<NodeID, NodeInfo>, now: int): map<NodeID, NodeInfo> {
    map id | id in nodes :: Aged(c, id, nodes[id], now)
  }

  /** The nodes that a failure detection declares dead. */
  function Dying(c: Config, nodes: map<NodeID, NodeInfo>, now: int): set<NodeID> {
    set id | id in nodes && nodes[id].status.Suspect? && Aged(c, id, nodes[id], now).status.Dead?
  }

  /** A placeholder known only by its address, which a first heartbeat from there replaces. */
  predicate HasSeed(nodes: map<NodeID, NodeInfo>, addr: string) {
    SeedID(addr) in nodes && nodes[SeedID(addr)].addr == addr
  }

  function Step(c: Config, s: State, e: Event): State {
    match e
    case Join(id, addr, now) =>
      State(s.nodes[id := NodeInfo(addr, Alive, now)], if id in s.nodes then s.ring else s.ring + {id}, s.callback)
    case Leave(id) =>
      if id == c.self || id !in s.nodes then s else State(s.nodes - {id}, s.ring - {id}, s.callback)
    case Heartbeat(id, addr, now) =>
      if id !in s.nodes then
        var gone := if HasSeed(s.nodes, addr) then {SeedID(addr)} else {};
        State((s.nodes - gone)[id := NodeInfo(addr, Alive, now)], s.ring - gone + {id}, s.callback)
      else
        var back := s.nodes[id].status.Dead? && s.callback;
        State(s.nodes[id := NodeInfo(addr, Alive, now)], if back then s.ring + {id} else s.ring, s.callback)
    case Detect(now) =>
      State(AllAged(c, s.nodes, now), s.ring - Dying(c, s.nodes, now), s.callback)
    case SetCallback => s.(callback := true)
  }

  // ---- the ring and the members ----

  function Live(nodes: map<NodeID, NodeInfo>): set<NodeID> {
    set id | id in nodes && !nodes[id].status.Dead?
  }

  /** Nodes on the ring are known and not dead. */
  predicate RingIsLive(s: State) { s.ring <= Live(s.nodes) }

  /** The ring holds exactly the members that are not dead. */
  predicate RingIsExact(s: State) { s.ring == Live(s.nodes) }

  /** A dead member comes back to life without being put back on the ring. */
  predicate Stranded(s: State, e: Event) {
    || (e.Join? && e.id in s.nodes && s.nodes[e.id].status.Dead?)
    || (e.Heartbeat? && e.id in s.nodes && s.nodes[e.id].status.Dead? && !s.callback)
  }

  lemma RingStaysLive(c: Config, s: State, e: Event)
    requires RingIsLive(s)
    ensures RingIsLive(Step(c, s, e))
  {
  }

  /** What a step does to the set of members that are not dead. */
  lemma LiveStep(c: Config, s: State, e: Event)
    ensures var live, live' := Live(s.nodes), Live(Step(c, s, e).nodes);
      match e
      case Join(id, _, _) => live' == live + {id}
      case Leave(id) => live' == if id == c.self || id !in s.nodes then live else live - {id}
      case Heartbeat(id, addr, _) =>
        live' == (if id !in s.nodes && HasSeed(s.nodes, addr) then live - {SeedID(addr)} else live) + {id}
      case Detect(now) => live' == live - Dying(c, s.nodes, now)
      case SetCallback => live' == live
  {
  }

  lemma LiveHas(nodes: map<NodeID, NodeInfo>, id: NodeID)
    ensures id in Live(nodes) <==> id in nodes && !nodes[id].status.Dead?
  {
  }

  /** From an exact ring a step leads to an exact ring, except precisely when it strands a dead member. */
  lemma ExactIff(c: Config, s: State, e: Event)
    requires RingIsExact(s)
    ensures RingIsExact(Step(c, s, e)) <==> !Stranded(s, e)
  {
    hide Live, AllAged, Dying, HasSeed, SeedID;
    LiveStep(c, s, e);
    if e.Join? || e.Heartbeat? {
      LiveHas(s.nodes, e.id);
    }
  }

  // ---- this node ----

  predicate SelfAlive(c: Config, s: State) {
    c.self in s.nodes && s.nodes[c.self].status.Alive?
  }

  /** An unknown node reports from the address for which this node itself passes as the seed. */
  predicate ReplacesSelf(c: Config, s: State, e: Event) {
    && e.Heartbeat? && e.id !in s.nodes && c.self == "seed-" + e.addr && c.self in s.nodes
    && s.nodes[c.self].addr == e.addr
  }

  lemma SelfAliveIff(c: Config, s: State, e: Event)
    requires SelfAlive(c, s)
    ensures SelfAlive(c, Step(c, s, e)) <==> !ReplacesSelf(c, s, e)
  {
  }

  /** An ID that is not of seed form is never replaced. */
  predicate IsSeedID(id: NodeID) { |id| >= 5 && id[..5] == "seed-" }

  lemma OnlySeedsReplaced(c: Config, s: State, e: Event)
    requires !IsSeedID(c.self)
    ensures !ReplacesSelf(c, s, e)
  {
  }

  // ---- runs ----

  ghost predicate IsRun(c: Config, run: seq<State>, events: seq<Event>) {
    && |run| == |events| + 1
    && (exists addr, now :: run[0] == State(map[c.self := NodeInfo(addr, Alive, now)], {c.self}, false))
    && forall i :: 0 <= i < |events| ==> run[i+1] == Step(c, run[i], events[i])
  }

  /** In every state of every run the ring holds only known members that are not dead, and this node is alive. */
  lemma {:induction false} RunKeeps(c: Config, run: seq<State>, events: seq<Event>, n: nat)
    requires IsRun(c, run, events) && n < |run|
    ensures RingIsLive(run[n])
    ensures !IsSeedID(c.self) ==> SelfAlive(c, run[n])
  {
    hide Step, IsSeedID;
    if n > 0 {
      RunKeeps(c, run, events, n - 1);
      RingStaysLive(c, run[n-1], events[n-1]);
      if !IsSeedID(c.self) {
        OnlySeedsReplaced(c, run[n-1], events[n-1]);
        SelfAliveIff(c, run[n-1], events[n-1]);
      }
    }
  }

  /** In a run that strands nobody the ring is always exactly the members that are not dead. */
  lemma {:induction false} RunExact(c: Config, run: seq<State>, events: seq<Event>, n: nat)
    requires IsRun(c, run, events) && n < |run|
    requires forall i :: 0 <= i < n ==> !Stranded(run[i], events[i])
    ensures RingIsExact(run[n])
  {
    hide Step;
    if n > 0 {
      RunExact(c, run, events, n - 1);
      ExactIff(c, run[n-1], events[n-1]);
    }
  }

  predicate Has(s: State, id: NodeID, status: Status) {
    id in s.nodes && s.nodes[id].status == status
  }

  /** Anything is heard of the node. */
  predicate Hears(e: Event, id: NodeID) {
    (e.Join? || e.Heartbeat?) && e.id == id
  }

  /** The node leaves, or is the seed that the first heartbeat from its address replaces. */
  predicate Forgets(c: Config, s: State, e: Event, id: NodeID) {
    || (e.Leave? && e.id == id && id != c.self)
    || (e.Heartbeat? && e.id !in s.nodes && e.id != id && id == "seed-" + e.addr && id in s.nodes
        && s.nodes[id].addr == e.addr)
  }

  /** A failure detection that finds the node silent beyond the limit. */
  predicate FindsSilent(e: Event, lastSeen: int, limit: int) {
    e.Detect? && e.now - lastSeen > limit
  }

  /** What a step knows of a node: it is known if it has just been heard of, or was and is not forgotten. Whoever is
      heard of is alive at that address and time. */
  lemma KnownStep(c: Config, s: State, e: Event, id: NodeID)
    ensures var nodes' := Step(c, s, e).nodes;
      && (id in nodes' <==> Hears(e, id) || (id in s.nodes && !Forgets(c, s, e, id)))
      && (Hears(e, id) ==> nodes'[id] == NodeInfo(e.addr, Alive, e.now))
      && (id in nodes' && !Hears(e, id) ==> nodes'[id].addr == s.nodes[id].addr)
      && (id in nodes' && !Hears(e, id) ==>
            nodes'[id].lastSeen == if id == c.self && e.Detect? then e.now else s.nodes[id].lastSeen)
  {
  }

  /** The status of another node of which nothing is heard, exactly: an alive one becomes suspect, and a suspect one
      dead, if and only if a detection finds it silent for long enough. */
  lemma StatusStep(c: Config, s: State, e: Event, id: NodeID)
    requires id in s.nodes && !Hears(e, id) && !Forgets(c, s, e, id)
    ensures var s', seen := Step(c, s, e), s.nodes[id].lastSeen;
      && id in s'.nodes
      && (id == c.self ==> s'.nodes[id].status == s.nodes[id].status)
      && (id != c.self ==>
            && (Has(s', id, Alive) <==> Has(s, id, Alive) && !FindsSilent(e, seen, c.timeout))
            && (Has(s', id, Suspect) <==>
                  || (Has(s, id, Alive) && FindsSilent(e, seen, c.timeout))
                  || (Has(s, id, Suspect) && !FindsSilent(e, seen, c.timeout * 2)))
            && (Has(s', id, Dead) <==>
                  Has(s, id, Dead) || (Has(s, id, Suspect) && FindsSilent(e, seen, c.timeout * 2))))
  {
  }

  /** Which nodes a step leaves on the ring. */
  lemma RingStep(c: Config, s: State, e: Event, id: NodeID)
    ensures id in Step(c, s, e).ring <==>
      match e
      case Join(x, _, _) => id in s.ring || (id == x && x !in s.nodes)
      case Leave(x) => id in s.ring && !(id == x && x != c.self && x in s.nodes)
      case Heartbeat(x, _, _) =>
        || (id in s.ring && !Forgets(c, s, e, id))
        || (id == x && (x !in s.nodes || (s.nodes[x].status.Dead? && s.callback)))
      case Detect(_) =>
        && id in s.ring
        && !(id != c.self && Has(s, id, Suspect) && FindsSilent(e, s.nodes[id].lastSeen, c.timeout * 2))
      case SetCallback => id in s.ring
    ensures Step(c, s, e).callback <==> s.callback || e.SetCallback?
  {
  }

  /** The status of another node, from the events since it was last heard of: it has been suspected exactly if some
      detection found it silent beyond the timeout, and is dead exactly if a later one found it silent beyond twice the
      timeout. */
  lemma {:induction false} StatusIff(c: Config, run: seq<State>, events: seq<Event>, i: nat, n: nat, id: NodeID)
    requires IsRun(c, run, events) && i < n <= |events| && Hears(events[i], id) && id != c.self
    requires forall k :: i < k < n ==> !Hears(events[k], id) && !Forgets(c, run[k], events[k], id)
    ensures var seen := events[i].now;
      && id in run[n].nodes && run[n].nodes[id].lastSeen == seen && run[n].nodes[id].addr == events[i].addr
      && (!Has(run[n], id, Alive) <==> exists a :: i < a < n && FindsSilent(events[a], seen, c.timeout))
      && (Has(run[n], id, Dead) <==> exists a, b ::
            i < a < b < n && FindsSilent(events[a], seen, c.timeout) && FindsSilent(events[b], seen, c.timeout * 2))
    decreases n
  {
    hide Step, Forgets, FindsSilent;
    KnownStep(c, run[n-1], events[n-1], id);
    if n > i + 1 {
      StatusIff(c, run, events, i, n - 1, id);
      StatusStep(c, run[n-1], events[n-1], id);
    }
  }

  /** Two detections beyond twice the timeout, with nothing heard in between, leave the node dead and off the ring. */
  lemma SilentIsRemoved(c: Config, run: seq<State>, events: seq<Event>, i: nat, a: nat, b: nat, n: nat, id: NodeID)
    requires IsRun(c, run, events) && i < a < b < n <= |events| && Hears(events[i], id) && id != c.self
    requires c.timeout >= 0
    requires forall k :: i < k < n ==> !Hears(events[k], id) && !Forgets(c, run[k], events[k], id)
    requires events[a].Detect? && events[a].now - events[i].now > c.timeout * 2
    requires events[b].Detect? && events[b].now - events[i].now > c.timeout * 2
    ensures Has(run[n], id, Dead) && id !in run[n].ring
  {
    assert FindsSilent(events[a], events[i].now, c.timeout) && FindsSilent(events[b], events[i].now, c.timeout * 2);
    hide FindsSilent, Step;
    StatusIff(c, run, events, i, n, id);
    RunKeeps(c, run, events, n);
  }

  /** No detection within the timeout suspects a node, and a node that is heard of in time stays on the ring. */
  lemma HeardStays(c: Config, run: seq<State>, events: seq<Event>, i: nat, n: nat, id: NodeID)
    requires IsRun(c, run, events) && i < n <= |events| && Hears(events[i], id) && id != c.self && id in run[i+1].ring
    requires forall k :: i < k < n ==> !Hears(events[k], id) && !Forgets(c, run[k], events[k], id)
    requires forall k :: i < k < n && events[k].Detect? ==> events[k].now - events[i].now <= c.timeout
    ensures Has(run[n], id, Alive) && id in run[n].ring
    decreases n
  {
    forall k | i < k < n ensures !FindsSilent(events[k], events[i].now, c.timeout) {
    }
    hide Step, Forgets;
    StatusIff(c, run, events, i, n, id);
    if n > i + 1 {
      HeardStays(c, run, events, i, n - 1, id);
      RingStep(c, run[n-1], events[n-1], id);
      LeaveForgets(c, run[n-1], events[n-1], id);
    }
  }

  lemma LeaveForgets(c: Config, s: State, e: Event, id: NodeID)
    ensures e.Leave? && e.id == id && id != c.self ==> Forgets(c, s, e, id)
  {
  }

  /** A dead member was suspected first: an earlier detection found it alive but silent beyond the timeout, a later
      one found it still silent beyond twice the timeout, and from the first on nothing was heard of it. */
  lemma DeadWasSuspected(c: Config, run: seq<State>, events: seq<Event>, n: nat, id: NodeID) returns (i: nat, j: nat)
    requires IsRun(c, run, events) && n < |run| && Has(run[n], id, Dead)
    ensures i < j < n && events[i].Detect? && events[j].Detect?
    ensures Has(run[i], id, Alive) && Has(run[j], id, Suspect) && run[i].nodes[id].lastSeen == run[j].nodes[id].lastSeen
    ensures events[i].now - run[i].nodes[id].lastSeen > c.timeout
    ensures events[j].now - run[i].nodes[id].lastSeen > c.timeout * 2
    ensures forall k :: i <= k < n ==> !Hears(events[k], id)
  {
    hide Step, Hears;
    j := DiedAt(c, run, events, n, id);
    i := SuspectedAt(c, run, events, j, id);
  }

  lemma {:induction false} DiedAt(c: Config, run: seq<State>, events: seq<Event>, n: nat, id: NodeID) returns (j: nat)
    requires IsRun(c, run, events) && n < |run| && Has(run[n], id, Dead)
    ensures j < n && events[j].Detect? && Has(run[j], id, Suspect)
    ensures events[j].now - run[j].nodes[id].lastSeen > c.timeout * 2
    ensures forall k :: j <= k < n ==> !Hears(events[k], id)
  {
    hide Step, Hears, Forgets;
    assert n > 0;
    j := n - 1;
    KnownStep(c, run[j], events[j], id);
    if !Hears(events[j], id) {
      StatusStep(c, run[j], events[j], id);
    }
    if Has(run[j], id, Dead) {
      j := DiedAt(c, run, events, j, id);
    }
  }

  lemma {:induction false} SuspectedAt(c: Config, run: seq<State>, events: seq<Event>, n: nat, id: NodeID)
    returns (i: nat)
    requires IsRun(c, run, events) && n < |run| && Has(run[n], id, Suspect)
    ensures i < n && events[i].Detect? && Has(run[i], id, Alive)
    ensures run[i].nodes[id].lastSeen == run[n].nodes[id].lastSeen
    ensures events[i].now - run[i].nodes[id].lastSeen > c.timeout && id != c.self
    ensures forall k :: i <= k < n ==> !Hears(events[k], id)
  {
    hide Step, Hears, Forgets;
    assert n > 0;
    i := n - 1;
    KnownStep(c, run[i], events[i], id);
    if !Hears(events[i], id) {
      StatusStep(c, run[i], events[i], id);
    }
    if Has(run[i], id, Suspect) {
      i := SuspectedAt(c, run, events, i, id);
    }
  }
}
