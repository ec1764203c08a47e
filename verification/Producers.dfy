/** A partition's goroutine in a merged scan (internal/table/table.go:297-309): it scans its tree under the tree's read
    lock (internal/storage/btree.go:633-635) and sends every pair on a channel of 64 slots. */
module Producers {

  const SLOTS := 64

  /** How many pairs it has sent, how many of them the merge has received, and whether its scan is still running and
      so holds the lock. */
  datatype Producer = Producer(sent: nat, received: nat, locked: bool)

  const STARTED := Producer(0, 0, true)

  /** A send goes through while a slot is free. */
  ghost predicate Sends(n: nat, s: Producer, s': Producer) {
    s.locked && s.sent < n && s.sent - s.received < SLOTS && s' == s.(sent := s.sent + 1)
  }

  /** After the last of n pairs the scan returns, the lock is given up and the channel closed. */
  ghost predicate Ends(n: nat, s: Producer, s': Producer) {
    s.locked && s.sent == n && s' == s.(locked := false)
  }

  ghost predicate Receives(s: Producer, s': Producer) {
    s.received < s.sent && s' == s.(received := s.received + 1)
  }

  ghost predicate OwnStep(n: nat, s: Producer, s': Producer) {
    Sends(n, s, s') || Ends(n, s, s')
  }

  ghost predicate Blocked(n: nat, s: Producer) {
    forall s' :: !OwnStep(n, s, s')
  }

  /** Any interleaving of the producer's steps and the merge's. */
  ghost predicate Run(n: nat, run: seq<Producer>) {
    && |run| > 0 && run[0] == STARTED
    && forall i :: 0 < i < |run| ==> OwnStep(n, run[i-1], run[i]) || Receives(run[i-1], run[i])
  }

  /** What the producer goes on to do once nobody receives any more. */
  ghost predicate LeftAlone(n: nat, run: seq<Producer>) {
    |run| > 0 && forall i :: 0 < i < |run| ==> OwnStep(n, run[i-1], run[i])
  }

  ghost predicate Sound(n: nat, s: Producer) {
    s.received <= s.sent <= n && s.sent <= s.received + SLOTS && (!s.locked ==> s.sent == n)
  }

  lemma {:induction false} RunSound(n: nat, run: seq<Producer>, i: nat)
    requires Run(n, run) && i < |run|
    ensures Sound(n, run[i])
  {
    if i > 0 {
      RunSound(n, run, i - 1);
      assert OwnStep(n, run[i-1], run[i-1+1]) || Receives(run[i-1], run[i-1+1]);
    }
  }

  /** While the merge waits for a pair, the producer can go on: the merge itself never deadlocks. */
  lemma MergeIsServed(n: nat, run: seq<Producer>)
    requires Run(n, run)
    ensures var s := run[|run|-1]; s.received == s.sent && s.locked ==> !Blocked(n, s)
  {
    var s := run[|run|-1];
    RunSound(n, run, |run| - 1);
    if s.received == s.sent && s.locked {
      assert OwnStep(n, s, if s.sent < n then s.(sent := s.sent + 1) else s.(locked := false));
    }
  }

  lemma {:induction false} AloneSound(n: nat, run: seq<Producer>, i: nat)
    requires LeftAlone(n, run) && Sound(n, run[0]) && i < |run|
    ensures Sound(n, run[i]) && run[i].received == run[0].received
    ensures run[i].sent + (if run[i].locked then 0 else 1) == run[0].sent + (if run[0].locked then 0 else 1) + i
  {
    if i > 0 {
      AloneSound(n, run, i - 1);
      assert OwnStep(n, run[i-1], run[i-1+1]);
    }
  }

  /** A producer that is left alone keeps its tree's lock forever exactly when it has more pairs left than the channel
      has slots; otherwise it comes to its end within as many steps as it has pairs to send, and one. */
  lemma ReleasedIff(n: nat, before: seq<Producer>, after: seq<Producer>)
    requires Run(n, before) && LeftAlone(n, after) && after[0] == before[|before|-1]
    ensures var unread := n - after[0].received; var last := after[|after|-1];
      && (unread > SLOTS ==> forall i :: 0 <= i < |after| ==> after[i].locked)
      && |after| <= n - after[0].sent + 2
      && (Blocked(n, last) ==> (!last.locked <==> unread <= SLOTS))
  {
    RunSound(n, before, |before| - 1);
    forall i | 0 <= i < |after| ensures Sound(n, after[i]) && after[i].received == after[0].received {
      AloneSound(n, after, i);
    }
    AloneSound(n, after, |after| - 1);
    var last := after[|after|-1];
    if last.locked && n - last.received <= SLOTS {
      assert OwnStep(n, last, if last.sent < n then last.(sent := last.sent + 1) else last.(locked := false));
    }
  }
}
