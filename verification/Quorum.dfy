/** Quorum configuration and the loops that count replies (internal/consistency/quorum.go:12-29,
    internal/cluster/coordinator.go:246-327). */
module Quorum {
  import opened RecordPage
  import opened Sets
  import opened HashRing

  datatype QuorumConfig = QuorumConfig(N: int, R: int, W: int) {
    predicate IsStrong() { R + W > N }
  }

  /** None stands for the error of an invalid configuration. */
  function NewQuorumConfig(n: int, r: int, w: int): (q: Option<QuorumConfig>)
    ensures q.Some? <==> 1 <= r <= n && 1 <= w <= n
    ensures q.Some? && q.value.IsStrong() ==> r > n - w && w > n - r
  {
    if n < 1 then None
    else if r < 1 || r > n then None
    else if w < 1 || w > n then None
    else Some(QuorumConfig(n, r, w))
  }

  /** A replica's answer: None for an error, else the document read (which may be nil) or the write's success. */
  datatype Arrival<D> = Arrival(node: NodeID, reply: Option<D>)

  /** The nodes that answered without error. */
  function Acked<D>(arrivals: seq<Arrival<D>>): set<NodeID> {
    set i | 0 <= i < |arrivals| && arrivals[i].reply.Some? :: arrivals[i].node
  }

  function Successes<D>(arrivals: seq<Arrival<D>>): (s: seq<Arrival<D>>)
    ensures |s| <= |arrivals|
    ensures forall i :: 0 <= i < |s| ==> s[i].reply.Some?
  {
    if |arrivals| == 0 then []
    else
      Successes(arrivals[..|arrivals|-1])
      + if arrivals[|arrivals|-1].reply.Some? then [arrivals[|arrivals|-1]] else []
  }

  /** Each node of the list answers once, in any order. */
  predicate Answers<D>(arrivals: seq<Arrival<D>>, nodes: seq<NodeID>) {
    && |arrivals| == |nodes|
    && (forall i, j :: 0 <= i < j < |arrivals| ==> arrivals[i].node != arrivals[j].node)
    && (forall i :: 0 <= i < |arrivals| ==> arrivals[i].node in nodes)
  }

  lemma AckedStep<D>(arrivals: seq<Arrival<D>>)
    requires |arrivals| > 0
    ensures var a := arrivals[|arrivals|-1];
      Acked(arrivals) == Acked(arrivals[..|arrivals|-1]) + if a.reply.Some? then {a.node} else {}
  {
  }

  /** Counting successes counts the different nodes that answered. */
  lemma {:induction false} SuccessesAreNodes<D>(arrivals: seq<Arrival<D>>)
    requires forall i, j :: 0 <= i < j < |arrivals| ==> arrivals[i].node != arrivals[j].node
    ensures |Successes(arrivals)| == |Acked(arrivals)|
  {
    if |arrivals| > 0 {
      var n := |arrivals| - 1;
      SuccessesAreNodes(arrivals[..n]);
      AckedStep(arrivals);
      assert arrivals[n].node !in Acked(arrivals[..n]);
    }
  }

  lemma {:induction false} SuccessesGrow<D>(arrivals: seq<Arrival<D>>, i: nat)
    requires i <= |arrivals|
    ensures Successes(arrivals[..i]) <= Successes(arrivals)
    decreases |arrivals|
  {
    if i < |arrivals| {
      assert arrivals[..|arrivals|-1][..i] == arrivals[..i];
      SuccessesGrow(arrivals[..|arrivals|-1], i);
    } else {
      assert arrivals[..i] == arrivals;
    }
  }

  lemma SuccessesStep<D>(arrivals: seq<Arrival<D>>, i: nat)
    requires i < |arrivals|
    ensures Successes(arrivals[..i+1]) ==
      Successes(arrivals[..i]) + if arrivals[i].reply.Some? then [arrivals[i]] else []
    ensures Successes(arrivals[..0]) == []
  {
    assert arrivals[..i+1][..i] == arrivals[..i];
  }

  /** quorumWrite succeeds, for whatever order of arrival, exactly when at least W replicas acknowledge. */
  method QuorumWrite(nodes: seq<NodeID>, arrivals: seq<Arrival<()>>, writeQuorum: int) returns (ok: bool)
    requires Answers(arrivals, nodes)
    ensures ok <==> |nodes| > 0 && |Acked(arrivals)| >= writeQuorum
  {
    SuccessesAreNodes(arrivals);
    assert Successes(arrivals[..0]) == [];
    hide Acked, Successes;
    var successCount := 0;
    for i := 0 to |nodes|
      invariant successCount == |Successes(arrivals[..i])|
      invariant i > 0 ==> successCount < writeQuorum
    {
      SuccessesStep(arrivals, i);
      SuccessesGrow(arrivals, i + 1);
      if arrivals[i].reply.Some? {
        successCount := successCount + 1;
      }
      if successCount >= writeQuorum {
        return true;
      }
    }
    assert arrivals[..|arrivals|] == arrivals;
    return false;
  }

  /** With this answer the quorum is complete, and with none before it. */
  ghost predicate CompletesQuorum<D>(arrivals: seq<Arrival<D>>, t: int, quorum: int) {
    0 <= t < |arrivals| && arrivals[t].reply.Some? && |Successes(arrivals[..t+1])| == quorum
  }

  /** What a read returns: a document (None: nil) or an error. */
  datatype ReadResult<D> = Read(doc: Option<D>) | ReadFailed

  /** The R-th document to arrive; when fewer than R arrive, the last of them all the same, unless it is nil. */
  function ReadOutcome<D>(arrivals: seq<Arrival<Option<D>>>, readQuorum: int): ReadResult<D> {
    var s := Successes(arrivals);
    if readQuorum <= 0 then
      if |arrivals| == 0 then ReadFailed else Read(if arrivals[0].reply.Some? then arrivals[0].reply.value else None)
    else if |s| >= readQuorum then Read(s[readQuorum-1].reply.value)
    else if |s| > 0 && s[|s|-1].reply.value.Some? then Read(s[|s|-1].reply.value)
    else ReadFailed
  }

  method QuorumRead<D>(nodes: seq<NodeID>, arrivals: seq<Arrival<Option<D>>>, readQuorum: int)
    returns (r: ReadResult<D>)
    requires Answers(arrivals, nodes)
    ensures r == ReadOutcome(arrivals, readQuorum)
    ensures forall t :: CompletesQuorum(arrivals, t, readQuorum) ==> r == Read(arrivals[t].reply.value)
  {
    hide *;
    ReadAtQuorum(arrivals, readQuorum);
    SuccessesNone(arrivals);
    AsManyAnswers(arrivals, nodes);
    var lastDoc: Option<D> := None;
    var successCount := 0;
    for i := 0 to |nodes|
      invariant successCount == |Successes(arrivals[..i])| && (i > 0 ==> successCount < readQuorum)
      invariant lastDoc == LastDoc(Successes(arrivals[..i]))
    {
      LastStep(arrivals, i);
      if arrivals[i].reply.Some? {
        successCount := successCount + 1;
        lastDoc := arrivals[i].reply.value;
      }
      if successCount >= readQuorum {
        ReadsEarly(arrivals, i, readQuorum);
        return Read(lastDoc);
      }
    }
    assert arrivals[..|arrivals|] == arrivals;
    ReadsLate(arrivals, readQuorum);
    if lastDoc.Some? {
      return Read(lastDoc);
    }
    return ReadFailed;
  }

  /** The document that completes the quorum is the one returned. */
  lemma ReadAtQuorum<D>(arrivals: seq<Arrival<Option<D>>>, readQuorum: int)
    ensures forall t :: CompletesQuorum(arrivals, t, readQuorum) ==>
      ReadOutcome(arrivals, readQuorum) == Read(arrivals[t].reply.value)
  {
    forall t: nat | CompletesQuorum(arrivals, t, readQuorum)
      ensures ReadOutcome(arrivals, readQuorum) == Read(arrivals[t].reply.value)
    {
      SuccessesStep(arrivals, t);
      SuccessesGrow(arrivals, t + 1);
      hide Successes;
    }
  }

  lemma SuccessesNone<D>(arrivals: seq<Arrival<Option<D>>>)
    ensures |Successes(arrivals[..0])| == 0 && LastDoc(Successes(arrivals[..0])) == None
  {
  }

  lemma AsManyAnswers<D>(arrivals: seq<Arrival<D>>, nodes: seq<NodeID>)
    requires Answers(arrivals, nodes)
    ensures |arrivals| == |nodes|
  {
  }

  lemma LastStep<D>(arrivals: seq<Arrival<Option<D>>>, i: nat)
    requires i < |arrivals|
    ensures var before, after := Successes(arrivals[..i]), Successes(arrivals[..i+1]);
      && |after| == |before| + (if arrivals[i].reply.Some? then 1 else 0)
      && LastDoc(after) == if arrivals[i].reply.Some? then arrivals[i].reply.value else LastDoc(before)
  {
    hide Successes;
    SuccessesStep(arrivals, i);
  }

  /** The read returns with the arrival that completes the quorum, or with the first one if none is asked for. */
  lemma ReadsEarly<D>(arrivals: seq<Arrival<Option<D>>>, i: nat, readQuorum: int)
    requires i < |arrivals| && |Successes(arrivals[..i+1])| >= readQuorum
    requires i > 0 ==> |Successes(arrivals[..i])| < readQuorum
    ensures ReadOutcome(arrivals, readQuorum) == Read(LastDoc(Successes(arrivals[..i+1])))
  {
    SuccessesNone(arrivals);
    SuccessesStep(arrivals, i);
    SuccessesGrow(arrivals, i + 1);
    hide Successes;
  }

  lemma ReadsLate<D>(arrivals: seq<Arrival<Option<D>>>, readQuorum: int)
    requires |arrivals| > 0 ==> |Successes(arrivals)| < readQuorum
    ensures var doc := LastDoc(Successes(arrivals));
      ReadOutcome(arrivals, readQuorum) == if doc.Some? then Read(doc) else ReadFailed
  {
    if |arrivals| > 0 {
      hide Successes;
    }
  }

  function LastDoc<D>(s: seq<Arrival<Option<D>>>): Option<D>
    requires forall i :: 0 <= i < |s| ==> s[i].reply.Some?
  {
    if |s| == 0 then None else s[|s|-1].reply.value
  }

  // ---- overlap ----

  /** Any r nodes and any w nodes of the set have a node in common. */
  ghost predicate AlwaysMeet(nodes: set<NodeID>, r: int, w: int) {
    forall a, b | a <= nodes && b <= nodes && |a| >= w && |b| >= r :: a * b != {}
  }

  lemma {:induction false} SubsetOfSize(nodes: set<NodeID>, k: nat) returns (s: set<NodeID>)
    requires k <= |nodes|
    ensures s <= nodes && |s| == k
  {
    if k == 0 {
      s := {};
    } else {
      var x :| x in nodes;
      var s' := SubsetOfSize(nodes - {x}, k - 1);
      s := s' + {x};
    }
  }

  /** Reads and writes are bound to meet exactly when R + W exceeds the number of replicas. */
  lemma MeetIff(nodes: set<NodeID>, r: nat, w: nat)
    requires r <= |nodes| && w <= |nodes|
    ensures AlwaysMeet(nodes, r, w) <==> r + w > |nodes|
  {
    if r + w > |nodes| {
      forall a, b | a <= nodes && b <= nodes && |a| >= w && |b| >= r ensures a * b != {} {
        if a * b == {} {
          assert |a + b| == |a| + |b|;
          SubsetSize(a + b, nodes);
        }
      }
    } else {
      var a := SubsetOfSize(nodes, w);
      assert |nodes - a| == |nodes| - w;
      var b := SubsetOfSize(nodes - a, r);
      assert a * b == {};
    }
  }

  lemma AckedInNodes<D>(arrivals: seq<Arrival<D>>, nodes: seq<NodeID>)
    requires Answers(arrivals, nodes)
    ensures Acked(arrivals) <= set x | x in nodes
  {
  }

  lemma {:induction false} ListSize(nodes: seq<NodeID>)
    ensures |set x | x in nodes| <= |nodes|
  {
    if |nodes| > 0 {
      var n := |nodes| - 1;
      ListSize(nodes[..n]);
      assert (set x | x in nodes) == (set x | x in nodes[..n]) + {nodes[n]};
    }
  }

  /** With a strong configuration, a read that R replicas answered has heard from a replica that acknowledged the
      write, for every order of arrival; the replica list is the one GetNodes gives for N. */
  lemma StrongReadMeetsWrite<D>(q: QuorumConfig, nodes: seq<NodeID>, writes: seq<Arrival<()>>, answers: seq<Arrival<D>>)
    requires NewQuorumConfig(q.N, q.R, q.W) == Some(q) && q.IsStrong() && |nodes| <= q.N
    requires Answers(writes, nodes) && Answers(answers, nodes) && |Acked(writes)| >= q.W && |Acked(answers)| >= q.R
    ensures exists x :: x in Acked(writes) && x in Acked(answers) && x in nodes
  {
    hide Acked;
    var all := set x | x in nodes;
    ListSize(nodes);
    AckedInNodes(writes, nodes);
    AckedInNodes(answers, nodes);
    SubsetSize(Acked(writes), all);
    SubsetSize(Acked(answers), all);
    MeetIff(all, q.R, q.W);
    var x :| x in Acked(writes) * Acked(answers);
  }

  /** The arrival after which no replica answers any more. */
  ghost predicate LastAnswer<D>(arrivals: seq<Arrival<D>>, t: int) {
    0 <= t < |arrivals| && arrivals[t].reply.Some? && forall u :: t < u < |arrivals| ==> arrivals[u].reply.None?
  }

  lemma {:induction false} LastSuccess<D>(arrivals: seq<Arrival<D>>)
    ensures forall t :: LastAnswer(arrivals, t) ==>
      |Successes(arrivals)| > 0 && Successes(arrivals)[|Successes(arrivals)|-1] == arrivals[t]
    ensures |Successes(arrivals)| > 0 ==> exists t :: LastAnswer(arrivals, t)
  {
    if |arrivals| > 0 {
      var n := |arrivals| - 1;
      LastSuccess(arrivals[..n]);
      if arrivals[n].reply.Some? {
        assert LastAnswer(arrivals, n);
      } else {
        forall t ensures LastAnswer(arrivals, t) <==> LastAnswer(arrivals[..n], t) {
        }
      }
    }
  }

  /** Fewer than R replicas answer and the read returns a document all the same, exactly when some replica answers
      with one and every reply that arrives after it is a failure. */
  lemma ReadBelowQuorumIff<D>(nodes: seq<NodeID>, arrivals: seq<Arrival<Option<D>>>, readQuorum: int)
    requires Answers(arrivals, nodes) && |Acked(arrivals)| < readQuorum
    ensures ReadOutcome(arrivals, readQuorum).Read? <==>
      exists t :: LastAnswer(arrivals, t) && arrivals[t].reply.value.Some?
  {
    hide Successes, Acked;
    SuccessesAreNodes(arrivals);
    LastSuccess(arrivals);
  }

  /** So even a strong configuration can return a document from a replica that missed an acknowledged write. */
  lemma ReadMissesWrite<D>(d: D)
    returns (q: QuorumConfig, nodes: seq<NodeID>, writes: seq<Arrival<()>>, answers: seq<Arrival<Option<D>>>)
    ensures NewQuorumConfig(q.N, q.R, q.W) == Some(q) && q.IsStrong() && |nodes| == q.N
    ensures Answers(writes, nodes) && Answers(answers, nodes) && |Acked(writes)| >= q.W
    ensures ReadOutcome(answers, q.R) == Read(Some(d)) && Acked(writes) !! Acked(answers)
  {
    hide Successes, Acked;
    q := QuorumConfig(3, 2, 2);
    nodes := ["a", "b", "c"];
    writes := [Arrival("a", Some(())), Arrival("b", Some(())), Arrival("c", None)];
    answers := [Arrival("a", None), Arrival("b", None), Arrival("c", Some(Some(d)))];
    AckedOfThree(writes);
    AckedOfThree(answers);
    SuccessesOfThree(answers);
  }

  lemma AckedOfThree<D>(arrivals: seq<Arrival<D>>)
    requires |arrivals| == 3
    ensures Acked(arrivals) == (if arrivals[0].reply.Some? then {arrivals[0].node} else {})
                        + (if arrivals[1].reply.Some? then {arrivals[1].node} else {})
                        + (if arrivals[2].reply.Some? then {arrivals[2].node} else {})
  {
  }

  lemma SuccessesOfThree<D>(arrivals: seq<Arrival<D>>)
    requires |arrivals| == 3 && arrivals[0].reply.None? && arrivals[1].reply.None? && arrivals[2].reply.Some?
    ensures Successes(arrivals) == [arrivals[2]]
  {
    assert Successes(arrivals[..2][..1][..0]) == [];
    assert Successes(arrivals[..2][..1]) == [];
    assert Successes(arrivals[..2]) == [];
  }
}
