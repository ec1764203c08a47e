/** The buffer pool shard as a value: what each operation does to cached frames, recency and disk. */
module CacheSpec {
  import opened Keys
  import opened RecordPage

  type Disk = map<PageId, Bytes>

  /** isNew: created by NewPage and not touched by a setter since. */
  datatype Frame = Frame(data: Bytes, dirty: bool, pins: nat, isNew: bool)

  /** recency lists the cached pages, most recently used first. */
  datatype Cache = Cache(frames: map<PageId, Frame>, recency: seq<PageId>)

  function Without<T>(s: seq<T>, k: nat): seq<T>
    requires k < |s|
  {
    s[..k] + s[k+1..]
  }

  ghost predicate Distinct<T>(s: seq<T>) {
    forall i, j :: 0 <= i < j < |s| ==> s[i] != s[j]
  }

  /** The recency list holds exactly the cached pages, once each, within the capacity. */
  ghost predicate WellFormed(c: Cache, cap: nat) {
    && Distinct(c.recency)
    && (forall id :: id in c.recency <==> id in c.frames)
    && |c.recency| == |c.frames| <= cap && 0 < cap && 0 !in c.frames
  }

  /** Number of pages in the recency list up to and including the last unpinned one; 0 when all are pinned. */
  ghost function LastUnpinned(c: Cache, n: nat): (k: nat)
    requires n <= |c.recency| && forall id :: id in c.recency ==> id in c.frames
    ensures k <= n
    ensures k > 0 ==> c.frames[c.recency[k-1]].pins == 0
    ensures forall i :: k <= i < n ==> c.frames[c.recency[i]].pins > 0
  {
    if n == 0 then 0
    else if c.frames[c.recency[n-1]].pins == 0 then n
    else LastUnpinned(c, n - 1)
  }

  ghost function Victim(c: Cache): (v: Option<nat>)
    requires forall id :: id in c.recency ==> id in c.frames
    ensures v.Some? ==> v.value < |c.recency|
  {
    var k := LastUnpinned(c, |c.recency|);
    if k == 0 then None else Some(k - 1)
  }

  function WriteBack(disk: Disk, id: PageId, f: Frame): Disk {
    if f.dirty then disk[id := f.data] else disk
  }

  function Drop(c: Cache, k: nat): Cache
    requires k < |c.recency|
  {
    Cache(c.frames - {c.recency[k]}, Without(c.recency, k))
  }

  datatype Result = Result(cache: Cache, disk: Disk, ok: bool)

  ghost predicate Linked(c: Cache) {
    forall id :: id in c.recency ==> id in c.frames
  }

  ghost function Evict(c: Cache, disk: Disk): Result
    requires Linked(c)
  {
    var v := Victim(c);
    if v.None? then Result(c, disk, false)
    else
      var id := c.recency[v.value];
      Result(Drop(c, v.value), WriteBack(disk, id, c.frames[id]), true)
  }

  /** Makes room when the shard is at its capacity. */
  ghost function MakeRoom(c: Cache, disk: Disk, cap: nat): Result
    requires Linked(c)
  {
    if |c.frames| >= cap then Evict(c, disk) else Result(c, disk, true)
  }

  function Add(c: Cache, id: PageId, f: Frame): Cache {
    Cache(c.frames[id := f], [id] + c.recency)
  }

  function IndexOf(s: seq<PageId>, id: PageId): (k: nat)
    requires id in s
    ensures k < |s| && s[k] == id
  {
    if s[0] == id then 0 else 1 + IndexOf(s[1..], id)
  }

  /** A hit: one more pin, and the page becomes the most recently used. */
  function Touch(c: Cache, id: PageId): Cache
    requires id in c.frames && id in c.recency
  {
    var f := c.frames[id];
    Cache(c.frames[id := Frame(f.data, f.dirty, f.pins + 1, f.isNew)],
          [id] + Without(c.recency, IndexOf(c.recency, id)))
  }

  ghost function Fetch(c: Cache, disk: Disk, cap: nat, id: PageId): Result
    requires WellFormed(c, cap)
  {
    if id in c.frames then Result(Touch(c, id), disk, true)
    else
      var r := MakeRoom(c, disk, cap);
      if !r.ok then r
      else if id == 0 || id !in r.disk then Result(r.cache, r.disk, false)
      else Result(Add(r.cache, id, Frame(r.disk[id], false, 1, false)), r.disk, true)
  }

  ghost function New(c: Cache, disk: Disk, cap: nat, id: PageId, data: Bytes): Result
    requires WellFormed(c, cap)
  {
    var r := MakeRoom(c, disk, cap);
    if !r.ok then r else Result(Add(r.cache, id, Frame(data, false, 1, true)), r.disk, true)
  }

  function Unpin(c: Cache, id: PageId): Cache {
    if id in c.frames && c.frames[id].pins > 0 then
      var f := c.frames[id];
      Cache(c.frames[id := Frame(f.data, f.dirty, f.pins - 1, f.isNew)], c.recency)
    else c
  }

  /** A page setter through the pointer FetchPage or NewPage returned. */
  function Set(c: Cache, id: PageId, data: Bytes): Cache
    requires id in c.frames
  {
    Cache(c.frames[id := Frame(data, true, c.frames[id].pins, false)], c.recency)
  }

  function Clean(f: Frame): Frame {
    if f.dirty then Frame(f.data, false, f.pins, false) else f
  }

  /** Writing a dirty cached page to disk. */
  function FlushOne(c: Cache, disk: Disk, id: PageId): (Cache, Disk)
    requires id in c.frames
  {
    (Cache(c.frames[id := Clean(c.frames[id])], c.recency), WriteBack(disk, id, c.frames[id]))
  }

  /** Writing every dirty page of a set to disk. */
  function FlushSet(c: Cache, disk: Disk, ids: set<PageId>): (Cache, Disk) {
    (Cache(map id | id in c.frames :: if id in ids then Clean(c.frames[id]) else c.frames[id], c.recency),
     map id | id in disk.Keys + (set i | i in c.frames && i in ids && c.frames[i].dirty) ::
       if id in c.frames && id in ids && c.frames[id].dirty then c.frames[id].data else disk[id])
  }

  function Free(c: Cache, id: PageId): Cache
  {
    if id in c.frames && id in c.recency then Drop(c, IndexOf(c.recency, id)) else c
  }

  // ---- what the operations do, outright ----

  /** Entry k of the recency list is unpinned, and everything behind it is pinned. */
  ghost predicate LeastRecentFree(c: Cache, k: nat) {
    && k < |c.recency| && c.recency[k] in c.frames && c.frames[c.recency[k]].pins == 0
    && forall i :: k < i < |c.recency| ==> c.recency[i] in c.frames && c.frames[c.recency[i]].pins > 0
  }

  /** One page has been evicted, and written to disk if it was dirty; nothing else has changed. */
  ghost predicate Evicted(c: Cache, disk: Disk, c': Cache, disk': Disk) {
    exists k: nat :: LeastRecentFree(c, k) && var id := c.recency[k];
      && c' == Cache(c.frames - {id}, c.recency[..k] + c.recency[k+1..])
      && disk' == if c.frames[id].dirty then disk[id := c.frames[id].data] else disk
  }

  ghost predicate HasUnpinned(c: Cache) {
    exists id :: id in c.frames && c.frames[id].pins == 0
  }

  /** Room is made by evicting one page, and only if the shard is full. */
  ghost predicate MadeRoom(c: Cache, disk: Disk, cap: nat, c': Cache, disk': Disk) {
    if |c.frames| < cap then c' == c && disk' == disk else Evicted(c, disk, c', disk')
  }

  /** Room has been made and the page put in front. */
  ghost predicate InFront(c: Cache, disk: Disk, cap: nat, id: PageId, f: Frame, c': Cache, disk': Disk) {
    exists m :: MadeRoom(c, disk, cap, m, disk') && c' == Cache(m.frames[id := f], [id] + m.recency)
  }

  /** A flush writes the page. */
  predicate Due(f: Frame, pinnedToo: bool) {
    f.dirty && (pinnedToo || f.pins == 0)
  }

  /** Every page that is due is on disk and clean, and nothing else has changed. */
  ghost predicate Flushed(frames: map<PageId, Frame>, disk: Disk, pinnedToo: bool, frames': map<PageId, Frame>,
                          disk': Disk) {
    && frames'.Keys == frames.Keys
    && (forall id :: id in frames ==>
          var f := frames[id];
          frames'[id] == if Due(f, pinnedToo) then Frame(f.data, false, f.pins, false) else f)
    && (forall id :: id in frames && Due(frames[id], pinnedToo) ==> id in disk' && disk'[id] == frames[id].data)
    && (forall id :: !(id in frames && Due(frames[id], pinnedToo)) ==>
          (id in disk' <==> id in disk) && (id in disk ==> disk'[id] == disk[id]))
  }

  lemma FlushExactly(s: State, cap: nat, pinnedToo: bool)
    requires WellFormed(s.cache, cap)
    ensures var t := Step(s, cap, if pinnedToo then FlushAllOp else FlushUnpinnedOp);
      t.cache.recency == s.cache.recency && Flushed(s.cache.frames, s.disk, pinnedToo, t.cache.frames, t.disk)
  {
    hide WellFormed;
  }

  lemma MakeRoomExactly(c: Cache, disk: Disk, cap: nat)
    requires WellFormed(c, cap)
    ensures Linked(c)
    ensures var r := MakeRoom(c, disk, cap);
      && (r.ok <==> |c.frames| < cap || HasUnpinned(c))
      && (if r.ok then MadeRoom(c, disk, cap, r.cache, r.disk) else r.cache == c && r.disk == disk)
  {
    hide *;
    LinkedOf(c, cap);
    SomeUnpinned(c, cap);
    UnpinnedIs(c);
    SizeOf(c, cap);
    RoomIs(c, disk, cap);
    if Victim(c).Some? {
      VictimUnpinned(c);
      FreeIsVictim(c, disk);
    }
  }

  lemma UnpinnedIs(c: Cache)
    ensures HasUnpinned(c) <==> exists id :: id in c.frames && c.frames[id].pins == 0
  {
  }

  lemma RoomIs(c: Cache, disk: Disk, cap: nat)
    requires Linked(c)
    ensures var r := MakeRoom(c, disk, cap);
      if |c.frames| < cap then r == Result(c, disk, true) && MadeRoom(c, disk, cap, c, disk)
      else if Victim(c).None? then r == Result(c, disk, false)
      else
        var k := Victim(c).value;
        && c.recency[k] in c.frames
        && r == Result(Drop(c, k), WriteBack(disk, c.recency[k], c.frames[c.recency[k]]), true)
        && forall c', disk' :: MadeRoom(c, disk, cap, c', disk') <==> Evicted(c, disk, c', disk')
  {
    hide Victim, Drop, WriteBack, Evicted;
  }

  lemma FreeIsVictim(c: Cache, disk: Disk)
    requires Linked(c) && Victim(c).Some? && c.recency[Victim(c).value] in c.frames
    requires var k := Victim(c).value;
      && c.frames[c.recency[k]].pins == 0
      && forall i :: k < i < |c.recency| ==> c.frames[c.recency[i]].pins > 0
    ensures var k := Victim(c).value; var id := c.recency[k];
      Evicted(c, disk, Drop(c, k), WriteBack(disk, id, c.frames[id]))
  {
    hide Victim;
    assert LeastRecentFree(c, Victim(c).value);
  }

  /** FetchPage on a cached page: one more pin, the page in front, and nothing else. */
  lemma FetchHit(c: Cache, disk: Disk, cap: nat, id: PageId)
    requires WellFormed(c, cap) && id in c.frames
    ensures var r, f := Fetch(c, disk, cap, id), c.frames[id];
      && r.ok && r.disk == disk && r.cache.frames == c.frames[id := Frame(f.data, f.dirty, f.pins + 1, f.isNew)]
      && exists k :: 0 <= k < |c.recency| && c.recency[k] == id
           && r.cache.recency == [id] + (c.recency[..k] + c.recency[k+1..])
  {
    assert c.recency[IndexOf(c.recency, id)] == id;
  }

  /** FetchPage on a page that is not cached: it succeeds exactly if room can be made and the page is on disk, and then
      the page is cached as it is there, with one pin and in front. */
  lemma FetchMissExactly(c: Cache, disk: Disk, cap: nat, id: PageId)
    requires WellFormed(c, cap) && id !in c.frames
    ensures var r := Fetch(c, disk, cap, id);
      && (r.ok <==> (|c.frames| < cap || HasUnpinned(c)) && id != 0 && id in disk)
      && (r.ok ==> InFront(c, disk, cap, id, Frame(disk[id], false, 1, false), r.cache, r.disk))
  {
    hide WellFormed, MadeRoom, HasUnpinned, MakeRoom;
    MakeRoomExactly(c, disk, cap);
    var m := MakeRoom(c, disk, cap);
    if m.ok {
      RoomElsewhere(c, disk, cap, m.cache, m.disk, id);
    }
  }

  lemma RoomElsewhere(c: Cache, disk: Disk, cap: nat, c': Cache, disk': Disk, id: PageId)
    requires MadeRoom(c, disk, cap, c', disk') && id !in c.frames
    ensures (id in disk' <==> id in disk) && (id in disk ==> disk'[id] == disk[id])
  {
  }

  /** NewPage succeeds exactly if room can be made; the page is then cached as given: clean, new, pinned and in
      front. */
  lemma NewExactly(c: Cache, disk: Disk, cap: nat, id: PageId, data: Bytes)
    requires WellFormed(c, cap)
    ensures var r := New(c, disk, cap, id, data);
      && (r.ok <==> |c.frames| < cap || HasUnpinned(c))
      && (r.ok ==> InFront(c, disk, cap, id, Frame(data, false, 1, true), r.cache, r.disk))
  {
    hide WellFormed, MadeRoom, HasUnpinned, MakeRoom;
    MakeRoomExactly(c, disk, cap);
  }

  // ---- transparency ----

  /** The logical page: the cached bytes, or else what is on disk. */
  function View(c: Cache, disk: Disk, id: PageId): Option<Bytes> {
    if id in c.frames then Some(c.frames[id].data)
    else if id != 0 && id in disk then Some(disk[id])
    else None
  }

  /** A clean cached page is the page on disk, unless it is new. */
  ghost predicate Coherent(c: Cache, disk: Disk) {
    forall id :: id in c.frames && !c.frames[id].dirty && !c.frames[id].isNew ==>
      id in disk && disk[id] == c.frames[id].data
  }

  lemma WithoutMembers<T>(s: seq<T>, k: nat)
    requires Distinct(s) && k < |s|
    ensures Distinct(Without(s, k)) && |Without(s, k)| == |s| - 1
    ensures forall e :: e in Without(s, k) <==> e in s && e != s[k]
  {
  }

  lemma DropWellFormed(c: Cache, cap: nat, k: nat)
    requires WellFormed(c, cap) && k < |c.recency|
    ensures WellFormed(Drop(c, k), cap) && |Drop(c, k).frames| == |c.frames| - 1
  {
  }

  /** Dropping a page after writing it back keeps every logical page but possibly its own; its own is kept
      exactly when it was dirty or was what the disk holds. */
  lemma DropTransparent(c: Cache, disk: Disk, cap: nat, k: nat)
    requires WellFormed(c, cap) && Coherent(c, disk) && k < |c.recency|
    ensures var id := c.recency[k]; var d' := WriteBack(disk, id, c.frames[id]);
      && Coherent(Drop(c, k), d')
      && (forall q :: q != id ==> View(Drop(c, k), d', q) == View(c, disk, q))
      && (View(Drop(c, k), d', id) == View(c, disk, id) <==>
            c.frames[id].dirty || (id in disk && disk[id] == c.frames[id].data))
  {
  }

  /** A page whose logical bytes an eviction may lose: new, and no setter called yet. */
  predicate Unwritten(c: Cache, id: PageId) {
    id in c.frames && c.frames[id].isNew && !c.frames[id].dirty
  }

  /** The transparency of a step that may evict but touches no page itself. */
  ghost predicate Transparent(c: Cache, disk: Disk, c': Cache, disk': Disk) {
    && Coherent(c', disk')
    && (forall id :: !Unwritten(c, id) ==> View(c', disk', id) == View(c, disk, id) && !Unwritten(c', id))
    && (forall id :: id in c.frames && c.frames[id].pins > 0 ==> id in c'.frames && c'.frames[id] == c.frames[id])
  }

  lemma DropUnpinned(c: Cache, disk: Disk, cap: nat, k: nat)
    requires WellFormed(c, cap) && Coherent(c, disk) && k < |c.recency|
    requires c.recency[k] in c.frames && c.frames[c.recency[k]].pins == 0
    ensures Transparent(c, disk, Drop(c, k), WriteBack(disk, c.recency[k], c.frames[c.recency[k]]))
    ensures Drop(c, k).frames.Keys <= c.frames.Keys
  {
  }

  lemma SomeUnpinned(c: Cache, cap: nat)
    requires WellFormed(c, cap)
    ensures Victim(c).Some? <==> exists id :: id in c.frames && c.frames[id].pins == 0
    ensures Victim(c).Some? ==> c.recency[Victim(c).value] in c.frames
  {
  }

  /** Eviction succeeds exactly when some page is unpinned; it drops the least recently used one of those. */
  lemma EvictTransparent(c: Cache, disk: Disk, cap: nat)
    requires WellFormed(c, cap) && Coherent(c, disk)
    ensures var r := Evict(c, disk);
      && (r.ok <==> exists id :: id in c.frames && c.frames[id].pins == 0)
      && (r.ok ==> WellFormed(r.cache, cap) && |r.cache.frames| == |c.frames| - 1)
      && (!r.ok ==> r.cache == c)
      && Transparent(c, disk, r.cache, r.disk)
      && r.cache.frames.Keys <= c.frames.Keys
  {
    SomeUnpinned(c, cap);
    hide LastUnpinned, Victim, View, WriteBack, Drop, WellFormed, Coherent, Unwritten;
    assert Linked(c) by { assert WellFormed(c, cap); LinkedOf(c, cap); }
    var v := Victim(c);
    if v.Some? {
      VictimUnpinned(c);
      DropWellFormed(c, cap, v.value);
      DropUnpinned(c, disk, cap, v.value);
    } else {
      Unchanged(c, disk);
    }
  }

  lemma LinkedOf(c: Cache, cap: nat)
    requires WellFormed(c, cap)
    ensures Linked(c)
  {
  }

  lemma Unchanged(c: Cache, disk: Disk)
    requires Coherent(c, disk)
    ensures Transparent(c, disk, c, disk)
  {
  }

  lemma VictimUnpinned(c: Cache)
    requires Linked(c) && Victim(c).Some?
    ensures Victim(c).value < |c.recency| && c.recency[Victim(c).value] in c.frames
    ensures c.frames[c.recency[Victim(c).value]].pins == 0
    ensures forall i :: Victim(c).value < i < |c.recency| ==> c.frames[c.recency[i]].pins > 0
  {
  }

  lemma MakeRoomTransparent(c: Cache, disk: Disk, cap: nat)
    requires WellFormed(c, cap) && Coherent(c, disk)
    ensures var r := MakeRoom(c, disk, cap);
      && Transparent(c, disk, r.cache, r.disk) && r.cache.frames.Keys <= c.frames.Keys
      && WellFormed(r.cache, cap) && (r.ok ==> |r.cache.frames| < cap)
      && (!r.ok ==> r.cache == c)
  {
    hide WellFormed, Evict, Coherent, Transparent;
    assert Linked(c) && |c.frames| <= cap by { LinkedOf(c, cap); SizeOf(c, cap); }
    EvictTransparent(c, disk, cap);
    Unchanged(c, disk);
  }

  lemma SizeOf(c: Cache, cap: nat)
    requires WellFormed(c, cap)
    ensures |c.frames| <= cap
  {
  }

  lemma AddWellFormed(c: Cache, cap: nat, id: PageId, f: Frame)
    requires WellFormed(c, cap) && |c.frames| < cap && id !in c.frames && id != 0
    ensures WellFormed(Add(c, id, f), cap)
  {
  }

  lemma TouchWellFormed(c: Cache, cap: nat, id: PageId)
    requires WellFormed(c, cap) && id in c.frames && id in c.recency
    ensures WellFormed(Touch(c, id), cap)
  {
    hide *;
    WellFormedMeans(c, cap);
    TouchIs(c, id);
    FrontMembers(c.recency, IndexOf(c.recency, id), id);
    SameFrames(c.frames, id, Touch(c, id).frames[id]);
    WellFormedIs(Touch(c, id), cap);
  }

  lemma WellFormedMeans(c: Cache, cap: nat)
    requires WellFormed(c, cap)
    ensures Distinct(c.recency) && (forall id :: id in c.recency <==> id in c.frames)
    ensures |c.recency| == |c.frames| <= cap && 0 < cap && 0 !in c.frames
  {
  }

  lemma WellFormedIs(c: Cache, cap: nat)
    requires Distinct(c.recency) && (forall id :: id in c.recency <==> id in c.frames)
    requires |c.recency| == |c.frames| <= cap && 0 < cap && 0 !in c.frames
    ensures WellFormed(c, cap)
  {
  }

  lemma TouchIs(c: Cache, id: PageId)
    requires id in c.frames && id in c.recency
    ensures var k := IndexOf(c.recency, id);
      k < |c.recency| && c.recency[k] == id && Touch(c, id).recency == [id] + Without(c.recency, k)
    ensures id in Touch(c, id).frames && Touch(c, id).frames == c.frames[id := Touch(c, id).frames[id]]
  {
    hide Without;
  }

  lemma FrontMembers<T>(s: seq<T>, k: nat, e: T)
    requires Distinct(s) && k < |s| && s[k] == e
    ensures var r := [e] + Without(s, k); Distinct(r) && |r| == |s| && forall x :: x in r <==> x in s
  {
    WithoutMembers(s, k);
    hide Without;
  }

  lemma SameFrames(frames: map<PageId, Frame>, id: PageId, f: Frame)
    requires id in frames
    ensures |frames[id := f]| == |frames| && frames[id := f].Keys == frames.Keys
  {
    assert |frames[id := f].Keys| == |frames[id := f]|;
    assert frames[id := f].Keys == frames.Keys;
  }

  /** The logical page stays, unless an eviction was allowed to lose it. */
  ghost predicate Same(c: Cache, disk: Disk, c': Cache, disk': Disk, id: PageId) {
    !Unwritten(c, id) ==> View(c', disk', id) == View(c, disk, id) && !Unwritten(c', id)
  }

  /** Caching a page that is not cached shows what the frame holds and changes nothing else. */
  lemma AddSame(c: Cache, disk: Disk, id: PageId, f: Frame)
    requires id !in c.frames && Coherent(c, disk)
    ensures forall q :: q != id ==> Same(c, disk, Add(c, id, f), disk, q)
    ensures View(Add(c, id, f), disk, id) == Some(f.data)
    ensures f.isNew || (id in disk && disk[id] == f.data) ==> Coherent(Add(c, id, f), disk)
    ensures id != 0 && id in disk && disk[id] == f.data && !f.isNew ==> Same(c, disk, Add(c, id, f), disk, id)
  {
  }

  lemma SameTwice(c: Cache, disk: Disk, c1: Cache, disk1: Disk, c2: Cache, disk2: Disk, id: PageId)
    requires Transparent(c, disk, c1, disk1) && Same(c1, disk1, c2, disk2, id)
    ensures Same(c, disk, c2, disk2, id)
  {
  }

  /** FetchPage evicts if it must and reads the page from disk if it is not cached; no page reads differently. */
  lemma FetchTransparent(c: Cache, disk: Disk, cap: nat, id: PageId)
    requires WellFormed(c, cap) && Coherent(c, disk)
    ensures var r := Fetch(c, disk, cap, id);
      && WellFormed(r.cache, cap) && Coherent(r.cache, r.disk)
      && (forall q :: Same(c, disk, r.cache, r.disk, q))
      && (r.ok ==> id in r.cache.frames && r.cache.frames[id].pins > 0)
  {
    hide *;
    if id in c.frames {
      TouchSame(c, disk, cap, id);
    } else {
      MakeRoomTransparent(c, disk, cap);
      LinkedOf(c, cap);
      var m := MakeRoom(c, disk, cap);
      FetchMiss(c, disk, cap, id);
      TransparentSame(c, disk, m.cache, m.disk);
      if m.ok && id != 0 && id in m.disk {
        var f := Frame(m.disk[id], false, 1, false);
        AddWellFormed(m.cache, cap, id, f);
        AddSame(m.cache, m.disk, id, f);
        forall q ensures Same(c, disk, Add(m.cache, id, f), m.disk, q) {
          SameTwice(c, disk, m.cache, m.disk, Add(m.cache, id, f), m.disk, q);
        }
        AddPins(m.cache, id, f);
      }
    }
  }

  lemma TouchSame(c: Cache, disk: Disk, cap: nat, id: PageId)
    requires WellFormed(c, cap) && Coherent(c, disk) && id in c.frames
    ensures var r := Fetch(c, disk, cap, id);
      && WellFormed(r.cache, cap) && Coherent(r.cache, r.disk)
      && (forall q :: Same(c, disk, r.cache, r.disk, q))
      && r.ok && id in r.cache.frames && r.cache.frames[id].pins > 0
  {
    assert id in c.recency;
    TouchWellFormed(c, cap, id);
    hide WellFormed;
  }

  lemma FetchMiss(c: Cache, disk: Disk, cap: nat, id: PageId)
    requires WellFormed(c, cap) && Linked(c) && id !in c.frames
    ensures var r := MakeRoom(c, disk, cap);
      Fetch(c, disk, cap, id) ==
        if r.ok && id != 0 && id in r.disk then
          Result(Add(r.cache, id, Frame(r.disk[id], false, 1, false)), r.disk, true)
        else Result(r.cache, r.disk, false)
  {
    hide WellFormed, MakeRoom, Add;
  }

  lemma AddPins(c: Cache, id: PageId, f: Frame)
    ensures id in Add(c, id, f).frames && Add(c, id, f).frames[id] == f
  {
  }

  lemma TransparentSame(c: Cache, disk: Disk, c': Cache, disk': Disk)
    requires Transparent(c, disk, c', disk')
    ensures Coherent(c', disk') && forall q :: Same(c, disk, c', disk', q)
  {
  }

  /** NewPage: the new page reads as the bytes it was created with; all others as before. */
  lemma NewTransparent(c: Cache, disk: Disk, cap: nat, id: PageId, data: Bytes)
    requires WellFormed(c, cap) && Coherent(c, disk) && id !in c.frames && id != 0
    ensures var r := New(c, disk, cap, id, data);
      && WellFormed(r.cache, cap) && Coherent(r.cache, r.disk)
      && (forall q :: q != id ==> Same(c, disk, r.cache, r.disk, q))
      && (r.ok ==> View(r.cache, r.disk, id) == Some(data))
  {
    MakeRoomTransparent(c, disk, cap);
    hide WellFormed, MakeRoom, Transparent, View, Coherent, Same;
    var m := MakeRoom(c, disk, cap);
    TransparentSame(c, disk, m.cache, m.disk);
    if m.ok {
      var f := Frame(data, false, 1, true);
      AddWellFormed(m.cache, cap, id, f);
      AddSame(m.cache, m.disk, id, f);
      forall q | q != id ensures Same(c, disk, Add(m.cache, id, f), m.disk, q) {
        SameTwice(c, disk, m.cache, m.disk, Add(m.cache, id, f), m.disk, q);
      }
    }
  }

  // ---- runs ----

  datatype Op =
    | FetchOp(id: PageId) | NewOp(id: PageId, data: Bytes) | UnpinOp(id: PageId) | SetOp(id: PageId, data: Bytes)
    | MarkDirtyOp(id: PageId) | FlushOp(id: PageId) | FlushAllOp | FlushUnpinnedOp | FreeOp(id: PageId)

  datatype State = State(cache: Cache, disk: Disk)

  function MarkDirty(c: Cache, id: PageId): Cache {
    if id in c.frames then
      var f := c.frames[id];
      Cache(c.frames[id := Frame(f.data, true, f.pins, f.isNew)], c.recency)
    else c
  }

  function Unpinned(c: Cache): set<PageId> {
    set id | id in c.frames && c.frames[id].pins == 0
  }

  /** New pages get an ID that is not in use; setters go through the pointer of a cached page. */
  predicate Legal(c: Cache, op: Op) {
    && (op.NewOp? ==> op.id !in c.frames && op.id != 0)
    && (op.SetOp? ==> op.id in c.frames)
  }

  ghost function Step(s: State, cap: nat, op: Op): State
    requires WellFormed(s.cache, cap) && Legal(s.cache, op)
  {
    match op
    case FetchOp(id) => var r := Fetch(s.cache, s.disk, cap, id); State(r.cache, r.disk)
    case NewOp(id, data) => var r := New(s.cache, s.disk, cap, id, data); State(r.cache, r.disk)
    case UnpinOp(id) => State(Unpin(s.cache, id), s.disk)
    case SetOp(id, data) => State(Set(s.cache, id, data), s.disk)
    case MarkDirtyOp(id) => State(MarkDirty(s.cache, id), s.disk)
    case FlushOp(id) => if id in s.cache.frames then var (c, d) := FlushOne(s.cache, s.disk, id); State(c, d) else s
    case FlushAllOp => var (c, d) := FlushSet(s.cache, s.disk, s.cache.frames.Keys); State(c, d)
    case FlushUnpinnedOp => var (c, d) := FlushSet(s.cache, s.disk, Unpinned(s.cache)); State(c, d)
    case FreeOp(id) => State(Free(s.cache, id), s.disk)
  }

  /** The operations that are meant to change what a page reads as. */
  predicate Touches(op: Op, id: PageId) {
    (op.SetOp? || op.NewOp? || op.FreeOp?) && op.id == id
  }

  lemma SameKeys(c: Cache, frames: map<PageId, Frame>, cap: nat)
    requires WellFormed(c, cap) && frames.Keys == c.frames.Keys
    ensures WellFormed(Cache(frames, c.recency), cap)
  {
  }

  /** Operations that neither evict nor cache anything. */
  lemma LocalKeeps(s: State, cap: nat, op: Op)
    requires WellFormed(s.cache, cap) && Coherent(s.cache, s.disk) && Legal(s.cache, op)
    requires !op.FetchOp? && !op.NewOp? && !op.FreeOp? && !op.FlushAllOp? && !op.FlushUnpinnedOp?
    ensures var t := Step(s, cap, op);
      && t.cache.recency == s.cache.recency && t.cache.frames.Keys == s.cache.frames.Keys
      && Coherent(t.cache, t.disk)
      && forall id :: !Touches(op, id) ==> Same(s.cache, s.disk, t.cache, t.disk, id)
  {
    hide WellFormed;
  }

  lemma FlushKeeps(c: Cache, disk: Disk, ids: set<PageId>)
    requires Coherent(c, disk)
    ensures var (c', disk') := FlushSet(c, disk, ids);
      && c'.recency == c.recency && c'.frames.Keys == c.frames.Keys && Coherent(c', disk')
      && forall id :: Same(c, disk, c', disk', id)
  {
  }

  lemma FreeKeeps(c: Cache, disk: Disk, cap: nat, id: PageId)
    requires WellFormed(c, cap) && Coherent(c, disk)
    ensures WellFormed(Free(c, id), cap) && Coherent(Free(c, id), disk)
    ensures forall q :: q != id ==> Same(c, disk, Free(c, id), disk, q)
  {
    hide *;
    FreeIs(c, id);
    if id in c.frames && id in c.recency {
      DropWellFormed(c, cap, IndexOf(c.recency, id));
      DropUnwritten(c, disk, IndexOf(c.recency, id));
    } else {
      Unchanged(c, disk);
      TransparentSame(c, disk, c, disk);
    }
  }

  lemma FreeIs(c: Cache, id: PageId)
    ensures if id in c.frames && id in c.recency then
        && Free(c, id) == Drop(c, IndexOf(c.recency, id)) && IndexOf(c.recency, id) < |c.recency|
        && c.recency[IndexOf(c.recency, id)] == id
      else Free(c, id) == c
  {
    hide Drop;
  }

  /** Dropping a page without writing it back concerns no other page. */
  lemma DropUnwritten(c: Cache, disk: Disk, k: nat)
    requires Coherent(c, disk) && k < |c.recency|
    ensures Coherent(Drop(c, k), disk) && forall q :: q != c.recency[k] ==> Same(c, disk, Drop(c, k), disk, q)
  {
    hide Without;
  }

  /** What every operation keeps: the shard stays well formed and coherent, and no operation changes the
      logical bytes of a page that it is not meant to touch. */
  lemma StepKeeps(s: State, cap: nat, op: Op)
    requires WellFormed(s.cache, cap) && Coherent(s.cache, s.disk) && Legal(s.cache, op)
    ensures var t := Step(s, cap, op);
      && WellFormed(t.cache, cap) && Coherent(t.cache, t.disk)
      && forall id :: !Touches(op, id) ==> Same(s.cache, s.disk, t.cache, t.disk, id)
  {
    hide WellFormed, Coherent, Same, Fetch, New, FlushSet, Free, Unpinned;
    var c, t := s.cache, Step(s, cap, op);
    match op
    case FetchOp(id) => FetchTransparent(c, s.disk, cap, id);
    case NewOp(id, data) => NewTransparent(c, s.disk, cap, id, data);
    case FreeOp(id) => FreeKeeps(c, s.disk, cap, id);
    case FlushAllOp =>
      FlushKeeps(c, s.disk, c.frames.Keys);
      SameKeys(c, t.cache.frames, cap);
    case FlushUnpinnedOp =>
      FlushKeeps(c, s.disk, Unpinned(c));
      SameKeys(c, t.cache.frames, cap);
    case _ =>
      LocalKeeps(s, cap, op);
      SameKeys(c, t.cache.frames, cap);
  }

  // ---- the recency list ----

  /** Fetching and creating a page are what moves it to the front. */
  predicate Uses(op: Op, id: PageId) {
    (op.FetchOp? || op.NewOp?) && op.id == id
  }

  /** At most one entry has gone. */
  ghost predicate Shrunk<T>(s: seq<T>, r: seq<T>) {
    r == s || exists k: nat :: k < |s| && r == Without(s, k)
  }

  lemma MakeRoomShrinks(c: Cache, disk: Disk, cap: nat)
    requires Linked(c)
    ensures Shrunk(c.recency, MakeRoom(c, disk, cap).cache.recency)
  {
    hide Without, LastUnpinned;
  }

  lemma ShrunkMembers<T>(s: seq<T>, r: seq<T>)
    requires Shrunk(s, r)
    ensures forall e :: e in r ==> e in s
  {
  }

  /** An operation that uses a page puts it in front or, when it fails, leaves it out; apart from that each operation
      keeps the list but for one entry at most. */
  lemma StepRecency(s: State, cap: nat, op: Op) returns (rest: seq<PageId>)
    requires WellFormed(s.cache, cap) && Legal(s.cache, op)
    ensures var r := Step(s, cap, op).cache.recency;
      && Shrunk(s.cache.recency, rest)
      && (if op.FetchOp? || op.NewOp? then op.id !in rest && (r == [op.id] + rest || r == rest) else r == rest)
  {
    var c := s.cache;
    rest := c.recency;
    if op.FetchOp? && op.id in c.frames {
      assert op.id in c.recency;
      TouchIs(c, op.id);
      WithoutMembers(c.recency, IndexOf(c.recency, op.id));
      rest := Without(c.recency, IndexOf(c.recency, op.id));
    } else if op.FetchOp? || op.NewOp? {
      LinkedOf(c, cap);
      assert op.id !in c.recency;
      hide WellFormed, MakeRoom, Touch;
      MakeRoomShrinks(c, s.disk, cap);
      rest := MakeRoom(c, s.disk, cap).cache.recency;
      ShrunkMembers(c.recency, rest);
    } else if op.FreeOp? && op.id in c.frames && op.id in c.recency {
      rest := Without(c.recency, IndexOf(c.recency, op.id));
    }
  }
}
