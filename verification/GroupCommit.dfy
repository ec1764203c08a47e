/** Group commit as a system of interleaved steps: writers in LogCommit and the running groupCommitLoop
    (internal/storage/wal.go:189-250, 279-362). Shutdown is not part of this model. */
module GroupCommit {
  import opened Keys
  import opened WalRecord
  import opened WalRecovery

  /** One call of LogCommit. */
  type Client = nat

  /** Where the loop is: waiting for a first request, waiting briefly for a second, gathering for the window,
      inside Sync, or sending the outcome to the batch. A Sync covers the first `mark` records of the log. */
  datatype Phase = Waiting | Quick | Gathering | Syncing(mark: nat) | Replying(ok: bool)

  /** The first `synced` records are durable. `requests` holds the place of each call's commit record; a call is
      `sent` once its request is on the channel, and `acked` once it has been told that its commit is durable. */
  datatype State = State(
    log: seq<Record>,
    synced: nat,
    requests: map<Client, nat>,
    sent: set<Client>,
    queue: seq<Client>,
    phase: Phase,
    pending: seq<Client>,
    replied: seq<Client>,
    acked: set<Client>)

  datatype Event =
    | AppendWrite(record: Record)
    | AppendCommit(client: Client, record: Record)
    | Checkpoint(record: Record, ok: bool)
    | Send(client: Client)
    | Take
    | QuickExpires
    | WindowEnds
    | SyncReturns(ok: bool)
    | Reply

  const CHANNEL_SIZE := 4096

  predicate Enabled(s: State, e: Event) {
    match e
    case AppendWrite(r) => RecordOk(r) && r.kind == PAGE_WRITE
    case AppendCommit(c, r) => RecordOk(r) && r.kind == COMMIT && c !in s.requests
    case Checkpoint(r, ok) => RecordOk(r) && r.kind == CHECKPOINT
    case Send(c) => c in s.requests && c !in s.sent && |s.queue| < CHANNEL_SIZE
    case Take => s.queue != [] && (s.phase.Waiting? || s.phase.Quick? || s.phase.Gathering?)
    case QuickExpires => s.phase.Quick?
    case WindowEnds => s.phase.Gathering?
    case SyncReturns(ok) => s.phase.Syncing?
    case Reply => s.phase.Replying? && s.pending != []
  }

  function Max(a: nat, b: nat): nat { if a < b then b else a }

  /** What one step does. A Sync makes durable what was in the file when it began; one that fails promises nothing. */
  function Next(s: State, e: Event): State
    requires Enabled(s, e)
  {
    match e
    case AppendWrite(r) => s.(log := s.log + [r])
    case AppendCommit(c, r) => s.(log := s.log + [r], requests := s.requests[c := |s.log|])
    case Checkpoint(r, ok) => s.(log := s.log + [r], synced := if ok then |s.log| + 1 else s.synced)
    case Send(c) => s.(sent := s.sent + {c}, queue := s.queue + [c])
    case Take =>
      s.(queue := s.queue[1..], pending := s.pending + [s.queue[0]],
         phase := if s.phase.Waiting? then Quick else Gathering)
    case QuickExpires => s.(phase := Syncing(|s.log|))
    case WindowEnds => s.(phase := Syncing(|s.log|))
    case SyncReturns(ok) => s.(synced := if ok then Max(s.synced, s.phase.mark) else s.synced, phase := Replying(ok))
    case Reply =>
      s.(pending := s.pending[1..], replied := s.replied + [s.pending[0]],
         acked := if s.phase.ok then s.acked + {s.pending[0]} else s.acked,
         phase := if |s.pending| == 1 then Waiting else s.phase)
  }

  /** Opening a log that already holds some records. */
  ghost predicate Initial(s: State) {
    && AllOk(s.log) && s.synced <= |s.log|
    && s.requests == map[] && s.sent == {} && s.queue == [] && s.phase.Waiting?
    && s.pending == [] && s.replied == [] && s.acked == {}
  }

  ghost predicate Placed(s: State) {
    && AllOk(s.log) && s.synced <= |s.log| && s.sent <= s.requests.Keys
    && (forall c :: c in s.requests ==> s.requests[c] < |s.log| && s.log[s.requests[c]].kind == COMMIT)
  }

  /** Every request sent is in exactly one place, once: on the channel, in the batch, or answered. */
  ghost predicate Conserved(s: State) {
    && multiset(s.queue) + multiset(s.pending) + multiset(s.replied) == multiset(s.sent)
    && (s.phase.Waiting? <==> s.pending == [])
    && s.acked <= s.sent
  }

  ghost predicate Before(s: State, c: Client, mark: nat) {
    c in s.requests && s.requests[c] < mark
  }

  /** A batch being synced was appended before the Sync began; one being acknowledged is durable. */
  ghost predicate Covered(s: State) {
    && (s.phase.Syncing? ==> s.phase.mark <= |s.log| && forall c :: c in s.pending ==> Before(s, c, s.phase.mark))
    && (s.phase.Replying? && s.phase.ok ==> forall c :: c in s.pending ==> Before(s, c, s.synced))
    && (forall c :: c in s.acked ==> Before(s, c, s.synced))
  }

  ghost predicate Inv(s: State) { Placed(s) && Conserved(s) && Covered(s) }

  // ---- every step keeps the invariant ----

  lemma PlacedKept(s: State, e: Event)
    requires Placed(s) && Covered(s) && Enabled(s, e)
    ensures Placed(Next(s, e))
  {
  }

  lemma SendKeeps(s: State, c: Client)
    requires Conserved(s) && Enabled(s, Send(c))
    ensures Conserved(Next(s, Send(c)))
  {
    assert multiset(s.sent + {c}) == multiset(s.sent) + multiset{c};
    assert multiset(s.queue + [c]) == multiset(s.queue) + multiset{c};
  }

  lemma TakeKeeps(s: State)
    requires Conserved(s) && Enabled(s, Take)
    ensures Conserved(Next(s, Take))
  {
    var c := s.queue[0];
    assert s.queue == [c] + s.queue[1..];
    assert multiset(s.queue) == multiset{c} + multiset(s.queue[1..]);
    assert multiset(s.pending + [c]) == multiset(s.pending) + multiset{c};
  }

  lemma ReplyKeeps(s: State)
    requires Conserved(s) && Enabled(s, Reply)
    ensures Conserved(Next(s, Reply))
  {
    var c := s.pending[0];
    assert s.pending == [c] + s.pending[1..];
    assert multiset(s.pending) == multiset{c} + multiset(s.pending[1..]);
    assert multiset(s.replied + [c]) == multiset(s.replied) + multiset{c};
    WaitingIsSent(s, c);
  }

  lemma ConservedKept(s: State, e: Event)
    requires Conserved(s) && Enabled(s, e)
    ensures Conserved(Next(s, e))
  {
    match e
    case Send(c) => SendKeeps(s, c);
    case Take => TakeKeeps(s);
    case Reply => ReplyKeeps(s);
    case _ =>
  }

  lemma WaitingIsSent(s: State, c: Client)
    requires Conserved(s) && (c in s.queue || c in s.pending)
    ensures c in s.sent
  {
    assert c in multiset(s.queue) + multiset(s.pending);
    assert c in multiset(s.sent);
  }

  lemma CoveredKept(s: State, e: Event)
    requires Inv(s) && Enabled(s, e)
    ensures Covered(Next(s, e))
  {
    var t := Next(s, e);
    forall c | c in s.queue || c in s.pending ensures Before(s, c, |s.log|) {
      WaitingIsSent(s, c);
    }
    forall c, m: nat | Before(s, c, m) ensures Before(t, c, m) {
    }
  }

  lemma StepKeeps(s: State, e: Event)
    requires Inv(s) && Enabled(s, e)
    ensures Inv(Next(s, e))
  {
    hide Placed, Conserved, Covered;
    PlacedKept(s, e);
    ConservedKept(s, e);
    CoveredKept(s, e);
  }

  ghost predicate IsRun(run: seq<State>, events: seq<Event>) {
    && |run| == |events| + 1 && Initial(run[0])
    && forall i :: 0 <= i < |events| ==> Enabled(run[i], events[i]) && run[i+1] == Next(run[i], events[i])
  }

  lemma {:induction false} RunKeeps(run: seq<State>, events: seq<Event>, n: nat)
    requires IsRun(run, events) && n < |run|
    ensures Inv(run[n])
  {
    hide Inv, Next, Enabled;
    if n == 0 {
      assert Inv(run[0]) by { InitialInv(run[0]); }
    } else {
      RunKeeps(run, events, n - 1);
      StepKeeps(run[n-1], events[n-1]);
    }
  }

  lemma InitialInv(s: State)
    requires Initial(s)
    ensures Inv(s)
  {
  }

  /** The history of a run: no call is acknowledged without error before a successful Sync that began after the
      append of its commit record. */
  lemma AckFollowsSync(run: seq<State>, events: seq<Event>, n: nat, c: Client)
    returns (append: nat, begin: nat, sync: nat)
    requires IsRun(run, events) && n < |run| && c in run[n].acked
    ensures append < begin < sync < n
    ensures events[append].AppendCommit? && events[append].client == c
    ensures events[begin].QuickExpires? || events[begin].WindowEnds?
    ensures events[sync] == SyncReturns(true) && run[sync].phase == Syncing(|run[begin].log|)
  {
    hide Inv;
    var reply := AckedAt(run, events, n, c);
    sync := SyncedAt(run, events, reply, c);
    begin := BegunAt(run, events, sync);
    RunKeeps(run, events, sync);
    assert Before(run[sync], c, run[sync].phase.mark) by {
      assert Covered(run[sync]) by { assert Inv(run[sync]); CoveredOf(run[sync]); }
    }
    append := AppendedAt(run, events, sync, c);
    if begin <= append {
      LogGrows(run, events, begin, append);
    }
    assert append != begin;
  }

  lemma CoveredOf(s: State)
    requires Inv(s)
    ensures Covered(s)
  {
  }

  lemma {:induction false} AckedAt(run: seq<State>, events: seq<Event>, n: nat, c: Client) returns (i: nat)
    requires IsRun(run, events) && n < |run| && c in run[n].acked
    ensures i < n && run[i].phase == Replying(true) && c in run[i].pending
  {
    assert n > 0;
    i := n - 1;
    if c in run[i].acked {
      i := AckedAt(run, events, i, c);
    }
  }

  lemma {:induction false} SyncedAt(run: seq<State>, events: seq<Event>, n: nat, c: Client) returns (i: nat)
    requires IsRun(run, events) && n < |run| && run[n].phase == Replying(true) && c in run[n].pending
    ensures i < n && events[i] == SyncReturns(true) && run[i].phase.Syncing? && c in run[i].pending
  {
    assert n > 0;
    i := n - 1;
    if events[i] != SyncReturns(true) {
      i := SyncedAt(run, events, i, c);
    }
  }

  lemma {:induction false} BegunAt(run: seq<State>, events: seq<Event>, n: nat) returns (i: nat)
    requires IsRun(run, events) && n < |run| && run[n].phase.Syncing?
    ensures i < n && (events[i].QuickExpires? || events[i].WindowEnds?) && run[n].phase.mark == |run[i].log|
  {
    assert n > 0;
    i := n - 1;
    if !events[i].QuickExpires? && !events[i].WindowEnds? {
      i := BegunAt(run, events, i);
    }
  }

  lemma {:induction false} AppendedAt(run: seq<State>, events: seq<Event>, n: nat, c: Client) returns (i: nat)
    requires IsRun(run, events) && n < |run| && c in run[n].requests
    ensures i < n && events[i].AppendCommit? && events[i].client == c && run[n].requests[c] == |run[i].log|
  {
    assert n > 0;
    i := n - 1;
    if c in run[i].requests {
      i := AppendedAt(run, events, i, c);
    }
  }

  lemma {:induction false} LogGrows(run: seq<State>, events: seq<Event>, i: nat, j: nat)
    requires IsRun(run, events) && i <= j < |run|
    ensures run[i].log <= run[j].log
  {
    if i < j {
      LogGrows(run, events, i, j - 1);
    }
  }

  // ---- exactly one reply ----

  predicate LoopStep(e: Event) {
    e.Take? || e.QuickExpires? || e.WindowEnds? || e.SyncReturns? || e.Reply?
  }

  /** The steps the loop still has to make for the requests already sent. */
  function Work(s: State): nat {
    5 * |s.queue| + |s.pending| + match s.phase
      case Waiting => 0
      case Replying(_) => 0
      case Syncing(_) => 1
      case Quick => 2
      case Gathering => 2
  }

  lemma LoopProgress(s: State, e: Event)
    requires Conserved(s) && Enabled(s, e) && LoopStep(e)
    ensures Work(Next(s, e)) < Work(s) && Next(s, e).sent == s.sent
  {
  }

  /** Left alone, the loop answers every request it was sent, each exactly once, within Work(s) steps, whatever
      batches it forms and whatever Sync returns. */
  lemma {:induction false} EveryRequestAnsweredOnce(run: seq<State>, events: seq<Event>)
    requires |run| == |events| + 1 && Inv(run[0])
    requires forall i :: 0 <= i < |events| ==>
      LoopStep(events[i]) && Enabled(run[i], events[i]) && run[i+1] == Next(run[i], events[i])
    ensures var last := run[|events|];
      && |events| + Work(last) <= Work(run[0]) && last.sent == run[0].sent
      && ((forall e | LoopStep(e) :: !Enabled(last, e)) <==> multiset(last.replied) == multiset(run[0].sent))
    decreases |events|
  {
    hide Placed, Covered, Work, Next;
    if |events| > 0 {
      assert Inv(run[1]) by { StepKeeps(run[0], events[0]); assert run[1] == Next(run[0], events[0]); }
      LoopProgress(run[0], events[0]);
      EveryRequestAnsweredOnce(run[1..], events[1..]);
    } else {
      IdleIff(run[0]);
    }
  }

  lemma IdleIff(s: State)
    requires Conserved(s)
    ensures (forall e | LoopStep(e) :: !Enabled(s, e)) <==> multiset(s.replied) == multiset(s.sent)
  {
    if s.queue == [] && s.pending == [] {
      assert multiset(s.queue) + multiset(s.pending) + multiset(s.replied) == multiset(s.replied);
    } else {
      assert |multiset(s.queue) + multiset(s.pending) + multiset(s.replied)| > |multiset(s.replied)|;
      var e := match s.phase
        case Waiting => Take
        case Quick => QuickExpires
        case Gathering => WindowEnds
        case Syncing(_) => SyncReturns(true)
        case Replying(_) => Reply;
      assert LoopStep(e) && Enabled(s, e);
    }
  }

  // ---- what an acknowledgement is worth ----

  lemma {:induction false} EncodedLength(c: Checksum, rs: seq<Record>, i: nat, j: nat)
    requires AllOk(rs) && i <= j <= |rs|
    ensures |EncodeAll(c, rs[..i])| <= |EncodeAll(c, rs[..j])|
  {
    hide Encoded;
    if i > 0 {
      assert rs[..i][1..] == rs[1..][..i-1] && rs[..j][1..] == rs[1..][..j-1];
      EncodedLength(c, rs[1..], i - 1, j - 1);
    }
  }

  lemma AckedPlace(s: State, client: Client)
    requires Inv(s) && client in s.acked
    ensures client in s.requests && s.requests[client] < s.synced <= |s.log|
  {
  }

  /** A crash keeps the synced records and cuts the log at any byte after them. Whatever commit was acknowledged
      is then found in the file, with everything logged before it. */
  lemma AckedSurvivesCrash(c: Checksum, s: State, client: Client, file: Bytes)
    requires Inv(s) && client in s.acked
    requires |EncodeAll(c, s.log[..s.synced])| <= |file| <= |EncodeAll(c, s.log)|
    requires file == EncodeAll(c, s.log)[..|file|]
    ensures var at := s.requests[client];
      var found := ParseAll(c, file);
      at < |found| && found <= s.log && found[at].kind == COMMIT && Committed(found, s.log[at].tx)
  {
    hide EncodeAll, ParseAll, Conserved;
    assert Before(s, client, s.synced);
    var k := CutLog(c, s.log, |file|);
    if k < s.synced {
      EncodedLength(c, s.log, k + 1, s.synced);
    }
  }

  /** No other committed transaction of the log wrote the page. */
  ghost predicate SoleWriter(rs: seq<Record>, tx: U64Value, p: U32Value) {
    forall t :: t != tx && Committed(rs, t) ==> !Wrote(rs, t, p)
  }

  /** The page of a write is recovered: with the last image of a committed transaction, and with the image written if
      that is the transaction's last one in the log and no other committed transaction wrote the page. */
  ghost predicate BroughtBack(log: seq<Record>, write: nat, rs: seq<Record>, result: Images)
    requires write < |log|
  {
    var p, tx := log[write].pageId, log[write].tx;
    && p in result && (exists t :: Committed(rs, t) && LastImage(rs, t, p, result[p]))
    && (SoleWriter(log, tx, p) && (forall j :: write < j < |log| ==> !IsWrite(log[j], tx, p)) ==>
          result[p] == log[write].data)
  }

  /** So recovery brings back every page the acknowledged transaction wrote before its commit, unless a checkpoint
      came after the write. */
  lemma AckedPagesRecovered(c: Checksum, s: State, client: Client, file: Bytes, write: nat, result: Images)
    requires Inv(s) && client in s.acked
    requires |EncodeAll(c, s.log[..s.synced])| <= |file| <= |EncodeAll(c, s.log)|
    requires file == EncodeAll(c, s.log)[..|file|]
    requires write < s.requests[client] && s.log[write].kind == PAGE_WRITE
    requires s.log[write].tx == s.log[s.requests[client]].tx
    requires forall j :: write < j < |s.log| ==> s.log[j].kind != CHECKPOINT
    requires MergedInSomeOrder(SinceCheckpoint(ParseAll(c, file)), result)
    ensures BroughtBack(s.log, write, SinceCheckpoint(ParseAll(c, file)), result)
  {
    hide *;
    var found := ParseAll(c, file);
    AckedPlace(s, client);
    var at := s.requests[client];
    AckedSurvivesCrash(c, s, client, file);
    RecoveredImages(SinceCheckpoint(found), result);
    ImageBack(s.log, found, write, at, result);
  }

  lemma ImageBack(log: seq<Record>, found: seq<Record>, write: nat, at: nat, result: Images)
    requires found <= log && write < at < |found| && log[write].kind == PAGE_WRITE
    requires found[at].kind == COMMIT && found[at].tx == log[write].tx
    requires forall j :: write < j < |log| ==> log[j].kind != CHECKPOINT
    requires AllOrNothing(SinceCheckpoint(found), result)
    ensures BroughtBack(log, write, SinceCheckpoint(found), result)
  {
    hide SinceCheckpoint, AllOrNothing, Committed, Wrote, LastImage, SoleWriter;
    WrittenSince(found, write, at);
    RecoveredIf(SinceCheckpoint(found), result, found[at].tx, log[write].pageId);
    SoleImage(log, found, write, result);
  }

  lemma SoleImage(log: seq<Record>, found: seq<Record>, write: nat, result: Images)
    requires found <= log && write < |found| && log[write].kind == PAGE_WRITE
    requires forall j :: write < j < |found| ==> found[j].kind != CHECKPOINT
    requires var p, tx, rs := log[write].pageId, log[write].tx, SinceCheckpoint(found);
      p in result && exists t :: Committed(rs, t) && LastImage(rs, t, p, result[p])
    ensures var p, tx := log[write].pageId, log[write].tx;
      SoleWriter(log, tx, p) && (forall j :: write < j < |log| ==> !IsWrite(log[j], tx, p)) ==>
        result[p] == log[write].data
  {
    hide SinceCheckpoint, Committed, Wrote, LastImage;
    var p, tx, rs := log[write].pageId, log[write].tx, SinceCheckpoint(found);
    var skip := |found| - |rs|;
    assert rs == found[skip..] && skip <= write;
    var t :| Committed(rs, t) && LastImage(rs, t, p, result[p]);
    WithinLog(log, rs, skip, t, p);
    LastWrote(rs, t, p, result[p]);
    if SoleWriter(log, tx, p) && forall j :: write < j < |log| ==> !IsWrite(log[j], tx, p) {
      LastWithin(log, rs, skip, write, tx, p);
      LastImageUnique(rs, tx, p, result[p], log[write].data);
    }
  }

  lemma LastWithin(log: seq<Record>, rs: seq<Record>, skip: nat, write: nat, tx: U64Value, p: U32Value)
    requires skip <= write < skip + |rs| <= |log| && rs == log[skip..][..|rs|] && IsWrite(log[write], tx, p)
    requires forall j :: write < j < |log| ==> !IsWrite(log[j], tx, p)
    ensures LastImage(rs, tx, p, log[write].data)
  {
    assert rs[write-skip] == log[write];
    assert forall j :: 0 <= j < |rs| ==> rs[j] == log[skip+j];
  }

  lemma WithinLog(log: seq<Record>, rs: seq<Record>, skip: nat, t: U64Value, p: U32Value)
    requires skip + |rs| <= |log| && rs == log[skip..][..|rs|]
    ensures Committed(rs, t) ==> Committed(log, t)
    ensures Wrote(rs, t, p) ==> Wrote(log, t, p)
  {
    if i :| 0 <= i < |rs| && rs[i].kind == COMMIT && rs[i].tx == t {
      assert log[skip+i] == rs[i];
    }
    if i :| 0 <= i < |rs| && IsWrite(rs[i], t, p) {
      assert log[skip+i] == rs[i];
    }
  }

  lemma WrittenSince(found: seq<Record>, write: nat, at: nat)
    requires write < at < |found| && found[write].kind == PAGE_WRITE
    requires found[at].kind == COMMIT && found[at].tx == found[write].tx
    requires forall j :: write < j < |found| ==> found[j].kind != CHECKPOINT
    ensures Committed(SinceCheckpoint(found), found[at].tx)
    ensures Wrote(SinceCheckpoint(found), found[at].tx, found[write].pageId)
  {
    hide Committed, Wrote, SinceCheckpoint;
    var skip := SinceIs(found);
    assert found[skip..][write-skip] == found[write] && found[skip..][at-skip] == found[at];
    HasBoth(found[skip..], write - skip, at - skip);
  }

  lemma SinceIs(found: seq<Record>) returns (skip: nat)
    ensures skip <= |found| && SinceCheckpoint(found) == found[skip..]
    ensures skip > 0 ==> found[skip-1].kind == CHECKPOINT
  {
    hide SinceCheckpoint;
    skip := |found| - |SinceCheckpoint(found)|;
  }

  lemma RecoveredIf(rs: seq<Record>, result: Images, tx: U64Value, p: U32Value)
    requires AllOrNothing(rs, result) && Committed(rs, tx) && Wrote(rs, tx, p)
    ensures p in result && exists t :: Committed(rs, t) && LastImage(rs, t, p, result[p])
  {
    hide Committed, Wrote, LastImage;
  }

  lemma HasBoth(rs: seq<Record>, write: nat, at: nat)
    requires write < |rs| && at < |rs| && rs[write].kind == PAGE_WRITE && rs[at].kind == COMMIT
    requires rs[at].tx == rs[write].tx
    ensures Committed(rs, rs[at].tx) && Wrote(rs, rs[at].tx, rs[write].pageId)
  {
    assert IsWrite(rs[write], rs[at].tx, rs[write].pageId);
  }
}
