/** A tree's read-write lock between two chunks of a merged scan (internal/table/table.go:272-287, 297-309;
    internal/storage/btree.go:107-109, 633-635): the goroutines that earlier chunks have left behind hold it for
    reading, a writer may ask for it, and the next chunk's goroutine asks for it for reading. */
module TreeLock {
  import opened Producers

  datatype Writer = Absent | Waiting | Writing | Gone

  /** The next chunk's goroutine waits for the lock, or scans. */
  datatype Next = Asking | Scanning(p: Producer)

  datatype Gap = Gap(behind: seq<Producer>, writer: Writer, next: Next)

  /** A goroutine of an earlier chunk, which nobody reads from any more, goes on. */
  ghost predicate OldStep(ns: seq<nat>, s: Gap, s': Gap)
    requires |ns| == |s.behind|
  {
    exists k, p :: 0 <= k < |ns| && OwnStep(ns[k], s.behind[k], p) && s' == s.(behind := s.behind[k := p])
  }

  /** The writer gets the lock when no reader holds it. */
  ghost predicate Enters(s: Gap, s': Gap) {
    && s.writer.Waiting? && s' == s.(writer := Writing)
    && (forall k :: 0 <= k < |s.behind| ==> !s.behind[k].locked)
    && (s.next.Scanning? ==> !s.next.p.locked)
  }

  ghost predicate Leaves(s: Gap, s': Gap) {
    s.writer.Writing? && s' == s.(writer := Gone)
  }

  /** A new reader gets the lock unless a writer has it or waits for it. */
  ghost predicate Admitted(s: Gap, s': Gap) {
    s.next.Asking? && !s.writer.Waiting? && !s.writer.Writing? && s' == s.(next := Scanning(STARTED))
  }

  /** The admitted goroutine sends, and the merge takes its first pair. */
  ghost predicate Primes(n: nat, s: Gap, s': Gap) {
    && s.next.Scanning?
    && exists p ::
         && (OwnStep(n, s.next.p, p) || (s.next.p.received == 0 && Receives(s.next.p, p)))
         && s' == s.(next := Scanning(p))
  }

  ghost predicate GapStep(ns: seq<nat>, n: nat, s: Gap, s': Gap)
    requires |ns| == |s.behind|
  {
    OldStep(ns, s, s') || Enters(s, s') || Leaves(s, s') || Admitted(s, s') || Primes(n, s, s')
  }

  ghost predicate GapRun(ns: seq<nat>, n: nat, run: seq<Gap>) {
    && |run| > 0
    && (forall i :: 0 <= i < |run| ==> |run[i].behind| == |ns|)
    && forall i :: 0 < i < |run| ==> GapStep(ns, n, run[i-1], run[i])
  }

  ghost predicate GapStuck(ns: seq<nat>, n: nat, s: Gap)
    requires |ns| == |s.behind|
  {
    forall s' :: !GapStep(ns, n, s, s')
  }

  /** The merge's first receive from the partition has completed: with a pair, or with the end of an empty scan. */
  predicate Served(n: nat, s: Gap) {
    s.next.Scanning? && (s.next.p.received > 0 || (n == 0 && !s.next.p.locked))
  }

  ghost predicate GapSound(ns: seq<nat>, n: nat, s: Gap) {
    && |ns| == |s.behind| && (forall k :: 0 <= k < |ns| ==> Sound(ns[k], s.behind[k]))
    && (s.next.Scanning? ==> Sound(n, s.next.p) && !s.writer.Waiting? && !s.writer.Writing?)
  }

  /** Before the next chunk starts: a writer waits, or there is none. */
  ghost predicate GapStart(ns: seq<nat>, s: Gap) {
    && |ns| == |s.behind| && (forall k :: 0 <= k < |ns| ==> Sound(ns[k], s.behind[k]))
    && s.next.Asking? && (s.writer.Waiting? || s.writer.Absent?)
  }

  /** One of the goroutines left behind has more pairs to send than its channel has slots. */
  ghost predicate HeldForever(ns: seq<nat>, s: Gap)
    requires |ns| == |s.behind|
  {
    exists k :: 0 <= k < |ns| && ns[k] - s.behind[k].received > SLOTS
  }

  lemma GapStepSound(ns: seq<nat>, n: nat, s: Gap, s': Gap)
    requires GapSound(ns, n, s) && GapStep(ns, n, s, s')
    ensures GapSound(ns, n, s') && (HeldForever(ns, s') <==> HeldForever(ns, s))
    ensures s.writer.Absent? <==> s'.writer.Absent?
  {
    forall k | 0 <= k < |ns| ensures Sound(ns[k], s'.behind[k]) && s'.behind[k].received == s.behind[k].received {
      assert Sound(ns[k], s.behind[k]);
    }
  }

  lemma {:induction false} GapRunSound(ns: seq<nat>, n: nat, run: seq<Gap>, i: nat)
    requires GapRun(ns, n, run) && GapStart(ns, run[0]) && i < |run|
    ensures GapSound(ns, n, run[i]) && (HeldForever(ns, run[i]) <==> HeldForever(ns, run[0]))
    ensures run[i].writer.Absent? <==> run[0].writer.Absent?
  {
    hide GapStep, HeldForever;
    if i > 0 {
      GapRunSound(ns, n, run, i - 1);
      assert GapStep(ns, n, run[i-1], run[i-1+1]);
      GapStepSound(ns, n, run[i-1], run[i]);
    }
  }

  // ---- a writer behind a lock that is never given up ----

  lemma {:induction false} WaitsForever(ns: seq<nat>, n: nat, run: seq<Gap>, i: nat)
    requires GapRun(ns, n, run) && GapStart(ns, run[0]) && i < |run|
    requires run[0].writer.Waiting? && HeldForever(ns, run[0])
    ensures run[i].writer.Waiting? && run[i].next.Asking?
  {
    if i > 0 {
      WaitsForever(ns, n, run, i - 1);
      GapRunSound(ns, n, run, i - 1);
      assert GapStep(ns, n, run[i-1], run[i-1+1]);
      StaysLocked(ns, n, run[i-1]);
    }
  }

  lemma StaysLocked(ns: seq<nat>, n: nat, s: Gap)
    requires GapSound(ns, n, s) && HeldForever(ns, s)
    ensures exists k :: 0 <= k < |s.behind| && s.behind[k].locked
  {
    var k :| 0 <= k < |ns| && ns[k] - s.behind[k].received > SLOTS;
    assert Sound(ns[k], s.behind[k]);
    assert s.behind[k].locked;
  }

  // ---- otherwise every run comes to its end, with the merge served ----

  function Left(n: nat, p: Producer): int {
    n - p.sent + if p.locked then 1 else 0
  }

  function AllLeft(ns: seq<nat>, behind: seq<Producer>): int
    requires |ns| == |behind|
  {
    if |ns| == 0 then 0 else AllLeft(ns[..|ns|-1], behind[..|behind|-1]) + Left(ns[|ns|-1], behind[|behind|-1])
  }

  function WriterLeft(w: Writer): nat {
    match w
    case Waiting => 2
    case Writing => 1
    case _ => 0
  }

  function NextLeft(n: nat, next: Next): int {
    match next
    case Asking => n + 3
    case Scanning(p) => Left(n, p) + if p.received == 0 then 1 else 0
  }

  /** How many steps are left at most. */
  function StepsLeft(ns: seq<nat>, n: nat, s: Gap): int
    requires |ns| == |s.behind|
  {
    AllLeft(ns, s.behind) + WriterLeft(s.writer) + NextLeft(n, s.next)
  }

  lemma {:induction false} AllLeftUpdate(ns: seq<nat>, behind: seq<Producer>, k: nat, p: Producer)
    requires |ns| == |behind| && k < |ns|
    ensures AllLeft(ns, behind[k := p]) == AllLeft(ns, behind) - Left(ns[k], behind[k]) + Left(ns[k], p)
  {
    hide Left;
    var n := |ns| - 1;
    if k == n {
      assert behind[k := p][..n] == behind[..n];
    } else {
      assert behind[k := p][..n] == behind[..n][k := p];
      AllLeftUpdate(ns[..n], behind[..n], k, p);
    }
  }

  lemma {:induction false} AllLeftNat(ns: seq<nat>, behind: seq<Producer>)
    requires |ns| == |behind| && forall k :: 0 <= k < |ns| ==> Sound(ns[k], behind[k])
    ensures AllLeft(ns, behind) >= 0
  {
    if |ns| > 0 {
      AllLeftNat(ns[..|ns|-1], behind[..|behind|-1]);
    }
  }

  lemma GapStepLess(ns: seq<nat>, n: nat, s: Gap, s': Gap)
    requires GapSound(ns, n, s) && GapStep(ns, n, s, s')
    ensures StepsLeft(ns, n, s') == StepsLeft(ns, n, s) - 1
         || (s.next.Asking? && StepsLeft(ns, n, s') < StepsLeft(ns, n, s))
  {
    if OldStep(ns, s, s') {
      var k, p :| 0 <= k < |ns| && OwnStep(ns[k], s.behind[k], p) && s' == s.(behind := s.behind[k := p]);
      AllLeftUpdate(ns, s.behind, k, p);
    }
  }

  lemma StepsLeftNat(ns: seq<nat>, n: nat, s: Gap)
    requires GapSound(ns, n, s)
    ensures StepsLeft(ns, n, s) >= 0
  {
    AllLeftNat(ns, s.behind);
  }

  lemma {:induction false} RunIsShort(ns: seq<nat>, n: nat, run: seq<Gap>, i: nat)
    requires GapRun(ns, n, run) && GapStart(ns, run[0]) && i < |run|
    ensures StepsLeft(ns, n, run[i]) + i <= StepsLeft(ns, n, run[0])
  {
    hide GapStep, StepsLeft, HeldForever;
    if i > 0 {
      RunIsShort(ns, n, run, i - 1);
      GapRunSound(ns, n, run, i - 1);
      assert GapStep(ns, n, run[i-1], run[i-1+1]);
      GapStepLess(ns, n, run[i-1], run[i]);
    }
  }

  /** With nothing left to do, the merge has been served. */
  lemma StuckIsServed(ns: seq<nat>, n: nat, s: Gap)
    requires GapSound(ns, n, s) && GapStuck(ns, n, s) && (s.writer.Absent? || !HeldForever(ns, s))
    ensures Served(n, s)
  {
    if s.writer.Waiting? {
      forall k | 0 <= k < |ns| ensures !s.behind[k].locked {
        assert Sound(ns[k], s.behind[k]);
        if s.behind[k].locked {
          var p := if s.behind[k].sent < ns[k] then s.behind[k].(sent := s.behind[k].sent + 1)
            else s.behind[k].(locked := false);
          assert OwnStep(ns[k], s.behind[k], p);
          assert OldStep(ns, s, s.(behind := s.behind[k := p]));
          assert GapStep(ns, n, s, s.(behind := s.behind[k := p]));
        }
      }
      assert GapStep(ns, n, s, s.(writer := Writing));
    } else if s.writer.Writing? {
      assert GapStep(ns, n, s, s.(writer := Gone));
    } else if s.next.Asking? {
      assert GapStep(ns, n, s, s.(next := Scanning(STARTED)));
    } else if !Served(n, s) {
      var q := s.next.p;
      var p := if q.sent > 0 then q.(received := 1) else if q.sent < n then q.(sent := 1) else q.(locked := false);
      assert Primes(n, s, s.(next := Scanning(p)));
      assert GapStep(ns, n, s, s.(next := Scanning(p)));
    }
  }

  lemma {:induction false} MaximalRun(ns: seq<nat>, n: nat, s: Gap) returns (run: seq<Gap>)
    requires GapSound(ns, n, s)
    ensures GapRun(ns, n, run) && run[0] == s && GapStuck(ns, n, run[|run|-1])
    decreases StepsLeft(ns, n, s)
  {
    hide GapStep, StepsLeft, HeldForever, GapSound;
    assert |ns| == |s.behind| by { SoundSize(ns, n, s); }
    if s' :| GapStep(ns, n, s, s') {
      GapStepSound(ns, n, s, s');
      GapStepLess(ns, n, s, s');
      StepsLeftNat(ns, n, s);
      var rest := MaximalRun(ns, n, s');
      run := [s] + rest;
      assert forall i :: 0 < i < |run| ==> run[i] == rest[i-1];
      forall i | 0 < i < |run| ensures GapStep(ns, n, run[i-1], run[i]) {
        if i > 1 {
          assert GapStep(ns, n, rest[i-1-1], rest[i-1]);
        }
      }
    } else {
      run := [s];
    }
  }

  lemma SoundSize(ns: seq<nat>, n: nat, s: Gap)
    requires GapSound(ns, n, s)
    ensures |ns| == |s.behind|
  {
  }

  /** The merge's first receive from the partition completes in no continuation. */
  ghost predicate NeverServed(ns: seq<nat>, n: nat, s: Gap) {
    forall run :: GapRun(ns, n, run) && run[0] == s ==> !Served(n, run[|run|-1])
  }

  /** That is so exactly when a writer waits behind a goroutine that never gives the lock up. Otherwise every run that
      goes on as long as it can, which is not for ever, serves the merge. */
  lemma NeverServedIff(ns: seq<nat>, n: nat, s: Gap)
    requires GapStart(ns, s)
    ensures NeverServed(ns, n, s) <==> s.writer.Waiting? && HeldForever(ns, s)
    ensures forall run :: GapRun(ns, n, run) && run[0] == s ==>
      && |run| <= StepsLeft(ns, n, s) + 1
      && (!NeverServed(ns, n, s) && GapStuck(ns, n, run[|run|-1]) ==> Served(n, run[|run|-1]))
  {
    hide GapStep, HeldForever, StepsLeft, Served;
    if s.writer.Waiting? && HeldForever(ns, s) {
      forall run | GapRun(ns, n, run) && run[0] == s ensures !Served(n, run[|run|-1]) {
        WaitsForever(ns, n, run, |run| - 1);
        AskingIsNot(n, run[|run|-1]);
      }
    } else {
      var run := MaximalRun(ns, n, s);
      EndServed(ns, n, run);
    }
    forall run | GapRun(ns, n, run) && run[0] == s
      ensures |run| <= StepsLeft(ns, n, s) + 1
      ensures !NeverServed(ns, n, s) && GapStuck(ns, n, run[|run|-1]) ==> Served(n, run[|run|-1])
    {
      RunIsShort(ns, n, run, |run| - 1);
      GapRunSound(ns, n, run, |run| - 1);
      StepsLeftNat(ns, n, run[|run|-1]);
      if !NeverServed(ns, n, s) && GapStuck(ns, n, run[|run|-1]) {
        EndServed(ns, n, run);
      }
    }
  }

  lemma AskingIsNot(n: nat, s: Gap)
    requires s.next.Asking?
    ensures !Served(n, s)
  {
  }

  lemma EndServed(ns: seq<nat>, n: nat, run: seq<Gap>)
    requires GapRun(ns, n, run) && GapStart(ns, run[0]) && GapStuck(ns, n, run[|run|-1])
    requires !(run[0].writer.Waiting? && HeldForever(ns, run[0]))
    ensures Served(n, run[|run|-1])
  {
    hide GapStep, HeldForever, Served;
    GapRunSound(ns, n, run, |run| - 1);
    StuckIsServed(ns, n, run[|run|-1]);
  }
}
