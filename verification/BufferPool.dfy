/** The sharded pool of internal/storage/bufferpool.go: how capacity is divided, and why the shards
    together still read as one map of pages. */
module BufferPool {
  import opened Keys
  import opened Division
  import opened RecordPage
  import opened CacheSpec

  const DEFAULT_BUFFER_POOL_SIZE := 1024
  const DEFAULT_SHARD_COUNT := 16

  function Sum(s: seq<nat>): nat {
    if |s| == 0 then 0 else Sum(s[..|s|-1]) + s[|s|-1]
  }

  /** NewBufferPool's division: every shard can hold a page and the capacities add up to the pool's. */
  method ShardCapacities(capacity: int) returns (caps: seq<nat>)
    ensures Sum(caps) == if capacity <= 0 then 1024 else capacity
    ensures |caps| == if 0 < capacity < 16 then capacity else 16
    ensures forall i, j :: 0 <= i < j < |caps| ==> 0 < caps[j] <= caps[i] <= caps[j] + 1
    ensures caps[0] > 0
  {
    var size := if capacity <= 0 then DEFAULT_BUFFER_POOL_SIZE else capacity;
    var nShards := DEFAULT_SHARD_COUNT;
    if nShards > size {
      nShards := size;
    }
    var perShard, remainder := size / nShards, size % nShards;
    assert perShard >= 1 && perShard * nShards + remainder == size;
    caps := [];
    ghost var total := 0;
    for i := 0 to nShards
      invariant |caps| == i
      invariant forall j :: 0 <= j < i ==> caps[j] == perShard + if j < remainder then 1 else 0
      invariant total == i * perShard && Sum(caps) == total + if i < remainder then i else remainder
    {
      var c := perShard;
      if i < remainder {
        c := c + 1;
      }
      assert (caps + [c])[..i] == caps;
      caps := caps + [c];
      total := total + perShard;
      NextMultiple(i, perShard);
    }
  }

  lemma NextMultiple(i: nat, n: nat)
    ensures (i + 1) * n == i * n + n
  {
  }

  // ---- one disk under many shards ----

  datatype Pool = Pool(shards: seq<Cache>, disk: Disk)

  function Home(p: Pool, id: PageId): nat
    requires |p.shards| > 0
  {
    id % |p.shards|
  }

  /** Of the shards, the only one whose number differs from the page ID by a multiple of how many there are. */
  lemma HomeIs(p: Pool, id: PageId, i: nat)
    requires i < |p.shards|
    ensures Home(p, id) == i <==> exists q: nat :: id == q * |p.shards| + i
  {
    Remainder(id, |p.shards|, i);
  }

  /** Every cached page is in the shard its ID belongs to, and every shard is sound. */
  ghost predicate Sound(p: Pool, caps: seq<nat>) {
    && |caps| == |p.shards| > 0
    && (forall i :: 0 <= i < |p.shards| ==> WellFormed(p.shards[i], caps[i]) && Coherent(p.shards[i], p.disk))
    && (forall i, id :: 0 <= i < |p.shards| && id in p.shards[i].frames ==> Home(p, id) == i)
  }

  function PoolView(p: Pool, id: PageId): Option<Bytes>
    requires |p.shards| > 0
  {
    View(p.shards[Home(p, id)], p.disk, id)
  }

  /** The operation names a page of the shard, or none. */
  predicate Belongs(p: Pool, i: nat, op: Op)
    requires |p.shards| > 0
  {
    op.FlushAllOp? || op.FlushUnpinnedOp? || Home(p, op.id) == i
  }

  ghost function PoolStep(p: Pool, caps: seq<nat>, i: nat, op: Op): Pool
    requires i < |p.shards| == |caps| && WellFormed(p.shards[i], caps[i]) && Legal(p.shards[i], op)
  {
    var t := Step(State(p.shards[i], p.disk), caps[i], op);
    Pool(p.shards[i := t.cache], t.disk)
  }

  /** A step of a shard writes only pages that the shard caches, and caches at most the page it names. */
  lemma StepFootprint(s: State, cap: nat, op: Op)
    requires WellFormed(s.cache, cap) && Legal(s.cache, op)
    ensures var t := Step(s, cap, op);
      && (forall q :: q !in s.cache.frames ==>
            (q in t.disk <==> q in s.disk) && (q in s.disk ==> t.disk[q] == s.disk[q]))
      && (forall q :: q in t.cache.frames && q !in s.cache.frames ==> (op.FetchOp? || op.NewOp?) && q == op.id)
  {
    if op.FetchOp? || op.NewOp? {
      hide LastUnpinned;
      assert Linked(s.cache);
      EvictFootprint(s.cache, s.disk, cap);
    } else {
      hide WellFormed;
    }
  }

  lemma EvictFootprint(c: Cache, disk: Disk, cap: nat)
    requires WellFormed(c, cap)
    ensures Linked(c)
    ensures var r := MakeRoom(c, disk, cap);
      && r.cache.frames.Keys <= c.frames.Keys
      && (forall q :: q !in c.frames ==> (q in r.disk <==> q in disk) && (q in disk ==> r.disk[q] == disk[q]))
  {
    LinkedOf(c, cap);
    if Victim(c).Some? {
      assert c.recency[Victim(c).value] in c.recency;
    }
  }

  /** No operation on one shard changes what the pool reads for any page it is not meant to touch,
      in that shard or another. */
  lemma PoolTransparent(p: Pool, caps: seq<nat>, i: nat, op: Op)
    requires Sound(p, caps) && i < |p.shards| && Legal(p.shards[i], op) && Belongs(p, i, op)
    ensures var q := PoolStep(p, caps, i, op);
      && Sound(q, caps)
      && forall id :: !Touches(op, id) && !Unwritten(p.shards[Home(p, id)], id) ==>
           PoolView(q, id) == PoolView(p, id) && !Unwritten(q.shards[Home(q, id)], id)
  {
    hide WellFormed, Coherent, Step;
    var s := State(p.shards[i], p.disk);
    var t := Step(s, caps[i], op);
    var q := PoolStep(p, caps, i, op);
    StepKeeps(s, caps[i], op);
    StepFootprint(s, caps[i], op);
    forall j | 0 <= j < |p.shards| ensures WellFormed(q.shards[j], caps[j]) && Coherent(q.shards[j], q.disk) {
      if j != i {
        CoherentElsewhere(p, caps, i, j, t.disk);
      }
    }
    forall j, id | 0 <= j < |q.shards| && id in q.shards[j].frames ensures Home(q, id) == j {
      assert Home(q, id) == Home(p, id);
      assert j == i ==> id in t.cache.frames;
      assert j != i ==> id in p.shards[j].frames;
    }
    forall id | !Touches(op, id) && !Unwritten(p.shards[Home(p, id)], id)
      ensures PoolView(q, id) == PoolView(p, id) && !Unwritten(q.shards[Home(q, id)], id)
    {
      if Home(p, id) != i {
        assert id !in p.shards[i].frames;
      } else {
        assert Same(s.cache, s.disk, t.cache, t.disk, id);
      }
    }
  }

  lemma CoherentElsewhere(p: Pool, caps: seq<nat>, i: nat, j: nat, disk: Disk)
    requires Sound(p, caps) && i < |p.shards| && j < |p.shards| && i != j
    requires forall q :: q !in p.shards[i].frames ==>
      (q in disk <==> q in p.disk) && (q in p.disk ==> disk[q] == p.disk[q])
    ensures Coherent(p.shards[j], disk)
  {
    assert Coherent(p.shards[j], p.disk);
    forall id | id in p.shards[j].frames ensures id !in p.shards[i].frames {
      assert Home(p, id) == j;
    }
  }

  // ---- runs ----

  /** A run of the pool: states[k+1] is what operation k, on the shard it is meant for, makes of states[k]. */
  ghost predicate IsRun(states: seq<Pool>, caps: seq<nat>, ops: seq<(nat, Op)>) {
    && |states| == |ops| + 1 && Sound(states[0], caps)
    && forall k :: 0 <= k < |ops| ==> IsStep(states[k], caps, ops[k].0, ops[k].1, states[k+1])
  }

  ghost predicate IsStep(p: Pool, caps: seq<nat>, i: nat, op: Op, q: Pool) {
    && i < |p.shards| == |caps| && WellFormed(p.shards[i], caps[i]) && Legal(p.shards[i], op) && Belongs(p, i, op)
    && q == PoolStep(p, caps, i, op)
  }

  lemma {:induction false} RunSound(states: seq<Pool>, caps: seq<nat>, ops: seq<(nat, Op)>, n: nat)
    requires IsRun(states, caps, ops) && n <= |ops|
    ensures Sound(states[n], caps)
  {
    hide Sound, PoolStep, Legal;
    if n > 0 {
      RunSound(states, caps, ops, n - 1);
      assert IsStep(states[n-1], caps, ops[n-1].0, ops[n-1].1, states[n-1+1]);
      PoolTransparent(states[n-1], caps, ops[n-1].0, ops[n-1].1);
    }
  }

  /** Between operations meant for it, a page of the pool reads the same through everything that the operations on
      its own shard and on the others evict, write back and flush. */
  lemma {:induction false} RunTransparent(states: seq<Pool>, caps: seq<nat>, ops: seq<(nat, Op)>, id: PageId, i: nat,
                                          j: nat)
    requires IsRun(states, caps, ops) && i <= j <= |ops|
    requires |states[i].shards| > 0 && !Unwritten(states[i].shards[Home(states[i], id)], id)
    requires forall k :: i <= k < j ==> !Touches(ops[k].1, id)
    ensures |states[j].shards| == |states[i].shards| && PoolView(states[j], id) == PoolView(states[i], id)
    ensures !Unwritten(states[j].shards[Home(states[j], id)], id)
    decreases j - i
  {
    hide Sound, PoolStep, PoolView, Legal, Unwritten;
    if i < j {
      RunTransparent(states, caps, ops, id, i, j - 1);
      RunSound(states, caps, ops, j - 1);
      assert IsStep(states[j-1], caps, ops[j-1].0, ops[j-1].1, states[j-1+1]);
      PoolTransparent(states[j-1], caps, ops[j-1].0, ops[j-1].1);
      SameShards(states[j-1], caps, ops[j-1].0, ops[j-1].1);
    }
  }

  lemma SameShards(p: Pool, caps: seq<nat>, i: nat, op: Op)
    requires i < |p.shards| == |caps| && WellFormed(p.shards[i], caps[i]) && Legal(p.shards[i], op)
    ensures var q := PoolStep(p, caps, i, op);
      && |q.shards| == |p.shards|
      && forall j :: 0 <= j < |p.shards| && j != i ==> q.shards[j] == p.shards[j]
    ensures PoolStep(p, caps, i, op).shards[i] == Step(State(p.shards[i], p.disk), caps[i], op).cache
  {
    hide Step, WellFormed;
  }

  /** What a setter wrote is what the page reads as until the next operation meant for it. */
  lemma ReadsLastSet(states: seq<Pool>, caps: seq<nat>, ops: seq<(nat, Op)>, id: PageId, data: Bytes, i: nat, j: nat)
    requires IsRun(states, caps, ops) && i < j <= |ops|
    requires ops[i].1 == SetOp(id, data) && forall k :: i < k < j ==> !Touches(ops[k].1, id)
    ensures |states[j].shards| > 0 && PoolView(states[j], id) == Some(data)
  {
    assert IsStep(states[i], caps, ops[i].0, ops[i].1, states[i+1]);
    SameShards(states[i], caps, ops[i].0, ops[i].1);
    assert id in states[i+1].shards[ops[i].0].frames && states[i+1].shards[ops[i].0].frames[id].data == data;
    hide IsRun, Sound, PoolStep;
    RunTransparent(states, caps, ops, id, i + 1, j);
  }

  // ---- what a flush is worth ----

  /** The bytes are on disk, and the cache, if it has the page, has no others. */
  predicate Stored(c: Cache, disk: Disk, id: PageId, data: Bytes) {
    id in disk && disk[id] == data && (id in c.frames ==> c.frames[id].data == data)
  }

  /** A flush stores what the page reads as. */
  lemma FlushStores(s: State, cap: nat, op: Op, id: PageId, data: Bytes)
    requires WellFormed(s.cache, cap) && Coherent(s.cache, s.disk) && (op == FlushOp(id) || op == FlushAllOp)
    requires View(s.cache, s.disk, id) == Some(data) && !Unwritten(s.cache, id)
    ensures Stored(Step(s, cap, op).cache, Step(s, cap, op).disk, id, data)
  {
    hide WellFormed;
  }

  /** Nothing but an operation meant for the page takes that away, whatever is evicted, dropped or written. */
  lemma StaysStored(s: State, cap: nat, op: Op, id: PageId, data: Bytes)
    requires WellFormed(s.cache, cap) && Legal(s.cache, op) && !Touches(op, id)
    requires Stored(s.cache, s.disk, id, data)
    ensures Stored(Step(s, cap, op).cache, Step(s, cap, op).disk, id, data)
  {
    if op.FetchOp? {
      FetchStored(s.cache, s.disk, cap, op.id, id, data);
    } else if op.NewOp? {
      NewStored(s.cache, s.disk, cap, op.id, op.data, id, data);
    } else if op.FreeOp? {
      FreeIs(s.cache, op.id);
      hide WellFormed, Free, Without;
    } else {
      hide WellFormed;
    }
  }

  lemma FetchStored(c: Cache, disk: Disk, cap: nat, q: PageId, id: PageId, data: Bytes)
    requires WellFormed(c, cap) && Stored(c, disk, id, data)
    ensures var r := Fetch(c, disk, cap, q); Stored(r.cache, r.disk, id, data)
  {
    if q in c.frames {
      FetchHit(c, disk, cap, q);
      hide WellFormed, Fetch;
    } else {
      hide WellFormed, MakeRoom, Fetch, MadeRoom, Add, Stored;
      MakeRoomExactly(c, disk, cap);
      FetchMiss(c, disk, cap, q);
      var m := MakeRoom(c, disk, cap);
      RoomStored(c, disk, cap, m.cache, m.disk, id, data);
      if q in m.disk {
        AddStored(m.cache, m.disk, q, Frame(m.disk[q], false, 1, false), id, data);
      }
    }
  }

  lemma NewStored(c: Cache, disk: Disk, cap: nat, q: PageId, bytes: Bytes, id: PageId, data: Bytes)
    requires WellFormed(c, cap) && q != id && Stored(c, disk, id, data)
    ensures var r := New(c, disk, cap, q, bytes); Stored(r.cache, r.disk, id, data)
  {
    hide WellFormed, MakeRoom, MadeRoom, Add, Stored;
    MakeRoomExactly(c, disk, cap);
    var m := MakeRoom(c, disk, cap);
    RoomStored(c, disk, cap, m.cache, m.disk, id, data);
    AddStored(m.cache, m.disk, q, Frame(bytes, false, 1, true), id, data);
  }

  lemma AddStored(c: Cache, disk: Disk, q: PageId, f: Frame, id: PageId, data: Bytes)
    requires Stored(c, disk, id, data) && (q == id ==> f.data == disk[id])
    ensures Stored(Add(c, q, f), disk, id, data)
  {
  }

  lemma RoomStored(c: Cache, disk: Disk, cap: nat, c': Cache, disk': Disk, id: PageId, data: Bytes)
    requires MadeRoom(c, disk, cap, c', disk') || (c' == c && disk' == disk)
    requires Stored(c, disk, id, data)
    ensures Stored(c', disk', id, data)
  {
  }

  ghost predicate PoolStored(p: Pool, id: PageId, data: Bytes) {
    |p.shards| > 0 && Stored(p.shards[Home(p, id)], p.disk, id, data)
  }

  lemma PoolStaysStored(p: Pool, caps: seq<nat>, i: nat, op: Op, id: PageId, data: Bytes)
    requires Sound(p, caps) && i < |p.shards| && Legal(p.shards[i], op) && !Touches(op, id) && PoolStored(p, id, data)
    ensures PoolStored(PoolStep(p, caps, i, op), id, data)
  {
    hide Step, Coherent;
    var s := State(p.shards[i], p.disk);
    SameShards(p, caps, i, op);
    if Home(p, id) == i {
      StaysStored(s, caps[i], op, id, data);
    } else {
      StepFootprint(s, caps[i], op);
    }
  }

  /** A page that has been set and then flushed is on disk, until an operation meant for it comes: no eviction, no
      dropped shard and no other flush takes it away. */
  lemma {:induction false} FlushedIsOnDisk(states: seq<Pool>, caps: seq<nat>, ops: seq<(nat, Op)>, id: PageId,
                                           data: Bytes, i: nat, j: nat, n: nat)
    requires IsRun(states, caps, ops) && i < j < n <= |ops| && ops[i].1 == SetOp(id, data)
    requires ops[j].1 == FlushOp(id) || (ops[j].1 == FlushAllOp && ops[j].0 == ops[i].0)
    requires forall k :: i < k < n ==> !Touches(ops[k].1, id)
    ensures PoolStored(states[n], id, data) && id in states[n].disk && states[n].disk[id] == data
    decreases n
  {
    hide Sound, PoolStep, Step, Legal, Coherent;
    RunSound(states, caps, ops, n - 1);
    var p, k, op := states[n-1], ops[n-1].0, ops[n-1].1;
    assert IsStep(p, caps, k, op, states[n-1+1]);
    if n > j + 1 {
      FlushedIsOnDisk(states, caps, ops, id, data, i, j, n - 1);
      PoolStaysStored(p, caps, k, op, id, data);
    } else {
      SetStays(states, caps, ops, id, data, i, j);
      PoolFlush(p, caps, k, op, id, data);
    }
  }

  /** From the setter on the page is no longer an unwritten one, and it is in the same shard. */
  lemma SetStays(states: seq<Pool>, caps: seq<nat>, ops: seq<(nat, Op)>, id: PageId, data: Bytes, i: nat, j: nat)
    requires IsRun(states, caps, ops) && i < j <= |ops| && ops[i].1 == SetOp(id, data)
    requires forall k :: i < k < j ==> !Touches(ops[k].1, id)
    ensures |states[j].shards| > 0 && PoolView(states[j], id) == Some(data)
    ensures Home(states[j], id) == ops[i].0 && !Unwritten(states[j].shards[ops[i].0], id)
  {
    ReadsLastSet(states, caps, ops, id, data, i, j);
    assert IsStep(states[i], caps, ops[i].0, ops[i].1, states[i+1]);
    SameShards(states[i], caps, ops[i].0, ops[i].1);
    assert id in states[i+1].shards[ops[i].0].frames && !states[i+1].shards[ops[i].0].frames[id].isNew;
    hide IsRun, Sound, PoolStep, PoolView, WellFormed, Legal, Step;
    RunTransparent(states, caps, ops, id, i + 1, j);
  }

  lemma PoolFlush(p: Pool, caps: seq<nat>, i: nat, op: Op, id: PageId, data: Bytes)
    requires Sound(p, caps) && i < |p.shards| && Legal(p.shards[i], op) && Home(p, id) == i
    requires op == FlushOp(id) || op == FlushAllOp
    requires PoolView(p, id) == Some(data) && !Unwritten(p.shards[i], id)
    ensures PoolStored(PoolStep(p, caps, i, op), id, data)
  {
    hide Step, Coherent, View, Unwritten, Stored;
    SameShards(p, caps, i, op);
    FlushStores(State(p.shards[i], p.disk), caps[i], op, id, data);
  }

  // ---- least recently used, by time ----

  /** The last operation before number n that fetched or created the page; -1 when there is none. */
  function LastUse(ops: seq<(nat, Op)>, n: nat, id: PageId): (k: int)
    requires n <= |ops|
    ensures -1 <= k < n
    ensures k >= 0 ==> Uses(ops[k].1, id)
    ensures forall j :: k < j < n ==> !Uses(ops[j].1, id)
  {
    if n == 0 then -1 else if Uses(ops[n-1].1, id) then n - 1 else LastUse(ops, n - 1, id)
  }

  /** The list has the most recently used page in front. */
  ghost predicate ByLastUse(recency: seq<PageId>, ops: seq<(nat, Op)>, n: nat)
    requires n <= |ops|
  {
    forall a, b :: 0 <= a < b < |recency| ==> LastUse(ops, n, recency[a]) > LastUse(ops, n, recency[b])
  }

  lemma ShrunkByLastUse(s: seq<PageId>, r: seq<PageId>, ops: seq<(nat, Op)>, n: nat)
    requires n <= |ops| && ByLastUse(s, ops, n) && Shrunk(s, r)
    ensures ByLastUse(r, ops, n)
  {
    hide LastUse;
  }

  lemma UnusedByLastUse(s: seq<PageId>, ops: seq<(nat, Op)>, n: nat)
    requires n < |ops| && ByLastUse(s, ops, n) && forall id :: id in s ==> !Uses(ops[n].1, id)
    ensures ByLastUse(s, ops, n + 1)
  {
    assert forall a :: 0 <= a < |s| ==> s[a] in s && LastUse(ops, n + 1, s[a]) == LastUse(ops, n, s[a]);
    hide LastUse;
  }

  lemma FrontByLastUse(s: seq<PageId>, ops: seq<(nat, Op)>, n: nat, id: PageId)
    requires n < |ops| && ByLastUse(s, ops, n + 1) && id !in s && Uses(ops[n].1, id)
    requires forall x :: x in s ==> !Uses(ops[n].1, x)
    ensures ByLastUse([id] + s, ops, n + 1)
  {
    assert LastUse(ops, n + 1, id) == n;
    assert forall a :: 0 <= a < |s| ==> s[a] in s && LastUse(ops, n + 1, s[a]) < n;
    hide LastUse;
  }

  /** One operation on the shard itself. */
  lemma StepByLastUse(s: State, cap: nat, ops: seq<(nat, Op)>, n: nat)
    requires n < |ops| && WellFormed(s.cache, cap) && Legal(s.cache, ops[n].1) && ByLastUse(s.cache.recency, ops, n)
    ensures ByLastUse(Step(s, cap, ops[n].1).cache.recency, ops, n + 1)
  {
    hide ByLastUse, LastUse, WellFormed, Step, Shrunk, Legal;
    var rest := StepRecency(s, cap, ops[n].1);
    ShrunkByLastUse(s.cache.recency, rest, ops, n);
    UnusedByLastUse(rest, ops, n);
    if ops[n].1.FetchOp? || ops[n].1.NewOp? {
      FrontByLastUse(rest, ops, n, ops[n].1.id);
    }
  }

  /** After any run of a pool that starts empty, each shard's list is ordered by the time of the last fetch or
      creation of its pages. */
  lemma {:induction false} RecencyIsByTime(states: seq<Pool>, caps: seq<nat>, ops: seq<(nat, Op)>, n: nat, i: nat)
    requires IsRun(states, caps, ops) && n <= |ops| && i < |states[0].shards|
    requires forall j :: 0 <= j < |states[0].shards| ==> states[0].shards[j].recency == []
    ensures |states[n].shards| == |states[0].shards| && ByLastUse(states[n].shards[i].recency, ops, n)
    decreases n
  {
    hide Sound, PoolStep, ByLastUse, LastUse, Legal, Uses;
    if n == 0 {
      assert ByLastUse([], ops, 0) by { NothingByLastUse(ops); }
    } else {
      RecencyIsByTime(states, caps, ops, n - 1, i);
      RunSound(states, caps, ops, n - 1);
      var p, j, op := states[n-1], ops[n-1].0, ops[n-1].1;
      assert IsStep(p, caps, j, op, states[n-1+1]);
      SameShards(p, caps, j, op);
      if i == j {
        StepByLastUse(State(p.shards[i], p.disk), caps[i], ops, n - 1);
      } else {
        OtherUnused(p, caps, i, j, op);
        UnusedByLastUse(p.shards[i].recency, ops, n - 1);
      }
    }
  }

  lemma NothingByLastUse(ops: seq<(nat, Op)>)
    ensures ByLastUse([], ops, 0)
  {
  }

  /** An operation meant for another shard uses none of this shard's pages. */
  lemma OtherUnused(p: Pool, caps: seq<nat>, i: nat, j: nat, op: Op)
    requires Sound(p, caps) && i < |p.shards| && j < |p.shards| && i != j && Belongs(p, j, op)
    ensures forall id :: id in p.shards[i].recency ==> !Uses(op, id)
  {
    hide Coherent;
    forall id | id in p.shards[i].recency ensures !Uses(op, id) {
      assert id in p.shards[i].frames;
      assert Home(p, id) == i;
    }
  }

  /** So the page that an eviction drops is, of those that nobody has pinned, the one whose last fetch or creation
      lies furthest back. */
  lemma VictimIsOldest(states: seq<Pool>, caps: seq<nat>, ops: seq<(nat, Op)>, n: nat, i: nat, id: PageId)
    requires IsRun(states, caps, ops) && n <= |ops| && i < |states[0].shards|
    requires forall j :: 0 <= j < |states[0].shards| ==> states[0].shards[j].recency == []
    ensures |states[n].shards| == |states[0].shards| && Linked(states[n].shards[i])
    ensures var c := states[n].shards[i];
      Victim(c).Some? && id in c.frames && c.frames[id].pins == 0 && id != c.recency[Victim(c).value] ==>
        LastUse(ops, n, c.recency[Victim(c).value]) < LastUse(ops, n, id)
  {
    hide LastUse, Victim, PoolStep, Sound, IsStep, ByLastUse;
    RecencyIsByTime(states, caps, ops, n, i);
    RunSound(states, caps, ops, n);
    SoundShard(states[n], caps, i);
    OldestUnpinned(states[n].shards[i], ops, n, id);
  }

  lemma OldestUnpinned(c: Cache, ops: seq<(nat, Op)>, n: nat, id: PageId)
    requires Linked(c) && n <= |ops| && ByLastUse(c.recency, ops, n) && (id in c.frames ==> id in c.recency)
    ensures Victim(c).Some? && id in c.frames && c.frames[id].pins == 0 && id != c.recency[Victim(c).value] ==>
      LastUse(ops, n, c.recency[Victim(c).value]) < LastUse(ops, n, id)
  {
    hide LastUse, Victim;
    if Victim(c).Some? && id in c.frames && c.frames[id].pins == 0 && id != c.recency[Victim(c).value] {
      VictimUnpinned(c);
      assert IndexOf(c.recency, id) < Victim(c).value;
    }
  }

  lemma SoundShard(p: Pool, caps: seq<nat>, i: nat)
    requires Sound(p, caps) && i < |p.shards|
    ensures Linked(p.shards[i]) && forall id :: id in p.shards[i].frames ==> id in p.shards[i].recency
  {
  }
}
