/** What the callers of LogCommit get back from the group commit loop (internal/storage/wal.go:189-250, 306-339), told
    from the events of a run. */
module GroupReplies {
  import opened WalRecord
  import opened GroupCommit

  // ---- the log and the requests, in order ----

  function RecordOf(e: Event): seq<Record> {
    match e
    case AppendWrite(r) => [r]
    case AppendCommit(_, r) => [r]
    case Checkpoint(r, _) => [r]
    case _ => []
  }

  /** The records that the events append. */
  function Records(events: seq<Event>): seq<Record> {
    if |events| == 0 then [] else Records(events[..|events|-1]) + RecordOf(events[|events|-1])
  }

  lemma RecordsStep(events: seq<Event>, n: nat)
    requires n < |events|
    ensures Records(events[..n+1]) == Records(events[..n]) + RecordOf(events[n])
  {
    hide RecordOf;
    assert events[..n+1][..n] == events[..n];
  }

  lemma LogStep(s: State, e: Event)
    requires Enabled(s, e)
    ensures Next(s, e).log == s.log + RecordOf(e)
  {
  }

  /** The calls whose requests have been sent. */
  function Sends(events: seq<Event>): seq<Client> {
    if |events| == 0 then []
    else Sends(events[..|events|-1]) + if events[|events|-1].Send? then [events[|events|-1].client] else []
  }

  /** The log is what has been appended, in that order. */
  lemma {:induction false} LogIsAppends(run: seq<State>, events: seq<Event>, n: nat)
    requires IsRun(run, events) && n <= |events|
    ensures run[n].log == run[0].log + Records(events[..n])
  {
    hide *;
    if n == 0 {
      assert Records(events[..0]) == [] by { NoRecords(events); }
    } else {
      LogIsAppends(run, events, n - 1);
      StepOf(run, events, n - 1);
      LogStep(run[n-1], events[n-1]);
      RecordsStep(events, n - 1);
    }
  }

  lemma NoRecords(events: seq<Event>)
    ensures Records(events[..0]) == []
  {
  }

  /** Requests are answered in the order in which they were sent: first those replied to, then the batch, then those on
      the channel. */
  lemma {:induction false} AnsweredInOrder(run: seq<State>, events: seq<Event>, n: nat)
    requires IsRun(run, events) && n <= |events|
    ensures run[n].replied + run[n].pending + run[n].queue == Sends(events[..n])
  {
    if n > 0 {
      AnsweredInOrder(run, events, n - 1);
      assert events[..n][..n-1] == events[..n-1];
      InOrderStep(run[n-1], events[n-1]);
    }
  }

  lemma InOrderStep(s: State, e: Event)
    requires Enabled(s, e)
    ensures var t := Next(s, e);
      t.replied + t.pending + t.queue ==
        s.replied + s.pending + s.queue + if e.Send? then [e.client] else []
  {
    if e.Take? {
      assert s.queue == [s.queue[0]] + s.queue[1..];
    }
    if e.Reply? {
      assert s.pending == [s.pending[0]] + s.pending[1..];
    }
  }

  // ---- batches ----

  /** A request that stays alone for the short wait is synced alone; a second one makes the batch wait for the
      window. */
  lemma {:induction false} BatchSize(run: seq<State>, events: seq<Event>, n: nat)
    requires IsRun(run, events) && n <= |events|
    ensures run[n].phase.Quick? ==> |run[n].pending| == 1
    ensures run[n].phase.Gathering? ==> |run[n].pending| >= 2
    ensures n < |events| && events[n].QuickExpires? ==> |run[n].pending| == 1
    ensures n < |events| && events[n].WindowEnds? ==> |run[n].pending| >= 2
    ensures |run[n].queue| <= 4096
  {
    if n > 0 {
      BatchSize(run, events, n - 1);
      RunKeeps(run, events, n - 1);
    }
  }

  // ---- what is durable ----

  /** The step makes the first m records durable. */
  ghost predicate Hardens(s: State, e: Event, m: nat) {
    || (e == SyncReturns(true) && s.phase.Syncing? && m <= s.phase.mark)
    || (e.Checkpoint? && e.ok && m <= |s.log| + 1)
  }

  /** The first m records are durable exactly when they were to begin with, or a Sync that began with them in the file
      has succeeded. */
  lemma {:induction false} SyncedIff(run: seq<State>, events: seq<Event>, n: nat, m: nat)
    requires IsRun(run, events) && n <= |events|
    ensures m <= run[n].synced <==>
      m <= run[0].synced || exists i :: 0 <= i < n && Hardens(run[i], events[i], m)
  {
    if n > 0 {
      SyncedIff(run, events, n - 1, m);
      RunKeeps(run, events, n - 1);
    }
  }

  // ---- the outcome of a Sync is what its batch is told ----

  lemma InOnePlace(s: State, c: Client)
    requires Conserved(s)
    ensures c in s.pending ==> c !in s.replied
    ensures c in s.acked ==> c in s.sent
  {
    var q, p, r := multiset(s.queue)[c], multiset(s.pending)[c], multiset(s.replied)[c];
    assert multiset(s.sent)[c] <= 1;
    assert q + p + r == (multiset(s.queue) + multiset(s.pending) + multiset(s.replied))[c];
    assert (c in s.pending <==> p > 0) && (c in s.replied <==> r > 0);
  }

  lemma {:induction false} AckedIsReplied(run: seq<State>, events: seq<Event>, n: nat, c: Client)
    requires IsRun(run, events) && n <= |events|
    ensures c in run[n].acked ==> c in run[n].replied
  {
    if n > 0 {
      AckedIsReplied(run, events, n - 1, c);
    }
  }

  /** The call has been told the outcome, or is about to be. */
  ghost predicate TellsOutcome(s: State, c: Client, ok: bool) {
    if c in s.replied then c in s.acked <==> ok
    else s.phase == Replying(ok) && c in s.pending && c !in s.acked
  }

  lemma FirstTold(s: State, c: Client, ok: bool)
    requires Enabled(s, SyncReturns(ok)) && c in s.pending && c !in s.replied && c !in s.acked
    ensures TellsOutcome(Next(s, SyncReturns(ok)), c, ok)
  {
  }

  lemma StaysTold(s: State, e: Event, c: Client, ok: bool)
    requires Enabled(s, e) && TellsOutcome(s, c, ok) && (c in s.pending ==> c !in s.replied)
    ensures TellsOutcome(Next(s, e), c, ok)
  {
    if e.Reply? {
      assert s.pending == [s.pending[0]] + s.pending[1..];
    }
  }

  /** The Sync of the call's batch returns. */
  ghost predicate SyncOf(s: State, e: Event, c: Client, ok: bool) {
    e == SyncReturns(ok) && c in s.pending
  }

  /** Once a Sync has returned, every call of its batch is told its outcome: until then the call waits, and afterwards
      it has been acknowledged exactly if the Sync succeeded. */
  lemma {:induction false} ToldOutcome(run: seq<State>, events: seq<Event>, i: nat, n: nat, c: Client, ok: bool)
    requires IsRun(run, events) && i < n <= |events| && SyncOf(run[i], events[i], c, ok)
    ensures TellsOutcome(run[n], c, ok)
    decreases n
  {
    hide *;
    StepOf(run, events, n - 1);
    RunKeeps(run, events, n - 1);
    InvMeans(run[n-1]);
    InOnePlace(run[n-1], c);
    AckedIsReplied(run, events, n - 1, c);
    if n > i + 1 {
      ToldOutcome(run, events, i, n - 1, c, ok);
      StaysTold(run[n-1], events[n-1], c, ok);
    } else {
      SyncMeans(run[i], events[i], c, ok);
      FirstTold(run[i], c, ok);
    }
  }

  lemma StepOf(run: seq<State>, events: seq<Event>, i: nat)
    requires IsRun(run, events) && i < |events|
    ensures |run| == |events| + 1 && Enabled(run[i], events[i]) && run[i+1] == Next(run[i], events[i])
  {
  }

  lemma SyncMeans(s: State, e: Event, c: Client, ok: bool)
    requires SyncOf(s, e, c, ok)
    ensures e == SyncReturns(ok) && c in s.pending
  {
  }

  lemma InvMeans(s: State)
    requires Inv(s)
    ensures Conserved(s)
  {
  }

  /** Every reply follows the return of a Sync of the call's batch. */
  lemma {:induction false} RepliedAt(run: seq<State>, events: seq<Event>, n: nat, c: Client)
    returns (i: nat, ok: bool)
    requires IsRun(run, events) && n <= |events|
    requires c in run[n].replied || (run[n].phase.Replying? && c in run[n].pending)
    ensures i < n && SyncOf(run[i], events[i], c, ok)
  {
    assert n > 0;
    i := n - 1;
    if events[i].SyncReturns? && c in run[i].pending {
      ok := events[i].ok;
    } else {
      i, ok := RepliedAt(run, events, i, c);
    }
  }

  /** A call is acknowledged without error exactly when it has been answered and the Sync of its batch succeeded. */
  lemma AckedIff(run: seq<State>, events: seq<Event>, n: nat, c: Client)
    requires IsRun(run, events) && n <= |events|
    ensures c in run[n].acked <==>
      c in run[n].replied && exists i :: 0 <= i < n && SyncOf(run[i], events[i], c, true)
  {
    hide *;
    RunSize(run, events);
    AckedIsReplied(run, events, n, c);
    if c in run[n].replied {
      var i, ok := RepliedAt(run, events, n, c);
      ToldOutcome(run, events, i, n, c, ok);
      TellsMeans(run[n], c, ok);
      forall j | 0 <= j < n && SyncOf(run[j], events[j], c, true) ensures c in run[n].acked {
        ToldOutcome(run, events, j, n, c, true);
        TellsMeans(run[n], c, true);
      }
    }
  }

  lemma RunSize(run: seq<State>, events: seq<Event>)
    requires IsRun(run, events)
    ensures |run| == |events| + 1
  {
  }

  lemma TellsMeans(s: State, c: Client, ok: bool)
    requires TellsOutcome(s, c, ok) && c in s.replied
    ensures c in s.acked <==> ok
  {
  }

  /** If no Sync fails, everybody answered is acknowledged, and when the loop has nothing left to do these are all the
      calls whose requests were sent. */
  lemma AllAcked(run: seq<State>, events: seq<Event>, n: nat)
    requires IsRun(run, events) && n <= |events|
    requires forall i :: 0 <= i < n && events[i].SyncReturns? ==> events[i].ok
    ensures forall c :: c in run[n].acked <==> c in run[n].replied
    ensures (forall e | LoopStep(e) :: !Enabled(run[n], e)) ==> run[n].acked == run[n].sent
  {
    hide *;
    RunSize(run, events);
    forall c ensures c in run[n].acked <==> c in run[n].replied {
      AckedIff(run, events, n, c);
      if c in run[n].replied {
        var i, ok := RepliedAt(run, events, n, c);
        SyncMeans(run[i], events[i], c, ok);
      }
    }
    RunKeeps(run, events, n);
    InvMeans(run[n]);
    IdleIff(run[n]);
    if forall e | LoopStep(e) :: !Enabled(run[n], e) {
      forall c ensures c in run[n].acked <==> c in run[n].sent {
        assert c in run[n].replied <==> c in multiset(run[n].replied);
        assert c in run[n].sent <==> c in multiset(run[n].sent);
      }
    }
  }
}
