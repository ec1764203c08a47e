/** One shard of the buffer pool (internal/storage/bufferpool.go): a page map and a doubly linked LRU list
    updated in place, each method proved to do what CacheSpec says. */
module LruShard {
  import opened Keys
  import opened RecordPage
  import opened CacheSpec
  import opened Pager

  /** A node of the LRU list. */
  class BufferEntry {
    const id: PageId
    var prev: BufferEntry?
    var next: BufferEntry?

    constructor (id: PageId)
      ensures this.id == id
    {
      this.id, prev, next := id, null, null;
    }
  }

  /** Entry i of the order is the entry of page i of the recency list. */
  ghost predicate Aligned(pages: map<PageId, BufferEntry>, order: seq<BufferEntry>, recency: seq<PageId>) {
    && |order| == |recency|
    && forall i :: 0 <= i < |order| ==>
         order[i].id == recency[i] && recency[i] in pages && pages[recency[i]] == order[i]
  }

  lemma AlignedRemove(pages: map<PageId, BufferEntry>, order: seq<BufferEntry>, recency: seq<PageId>, k: nat)
    requires Aligned(pages, order, recency) && k < |order| && Distinct(recency)
    ensures Aligned(pages - {recency[k]}, Without(order, k), Without(recency, k))
  {
  }

  class Shard {
    var pages: map<PageId, BufferEntry>
    var frames: map<PageId, Frame>      // bytes, dirty flag and pin count of the cached pages
    const cap: nat
    var head: BufferEntry?
    var tail: BufferEntry?
    ghost var order: seq<BufferEntry>   // the list, most recently used first
    ghost var recency: seq<PageId>      // its page IDs

    constructor (cap: nat)
      requires cap > 0
      ensures Valid() && Abs() == Cache(map[], []) && this.cap == cap && order == []
    {
      pages, frames, this.cap, head, tail := map[], map[], cap, null, null;
      order, recency := [], [];
    }

    /** head, tail, prev and next spell out the order, in both directions. */
    ghost predicate ListOk()
      reads this`head, this`tail, this`order, order`prev, order`next
    {
      && Distinct(order)
      && head == (if |order| == 0 then null else order[0])
      && tail == (if |order| == 0 then null else order[|order|-1])
      && (forall i {:trigger order[i].prev} :: 0 <= i < |order| ==>
            order[i].prev == if i == 0 then null else order[i-1])
      && (forall i {:trigger order[i].next} :: 0 <= i < |order| ==>
            order[i].next == if i == |order| - 1 then null else order[i+1])
    }

    method PushFront(entry: BufferEntry)
      requires ListOk() && entry !in order
      modifies this`head, this`tail, this`order, entry`prev, entry`next, order`prev
      ensures ListOk() && order == [entry] + old(order)
    {
      entry.prev := null;
      entry.next := head;
      if head != null {
        head.prev := entry;
      }
      head := entry;
      if tail == null {
        tail := entry;
      }
      order := [entry] + order;
    }

    method RemoveFromList(entry: BufferEntry, ghost k: nat)
      requires ListOk() && k < |order| && order[k] == entry
      modifies this`head, this`tail, this`order, order`prev, order`next
      ensures ListOk() && order == Without(old(order), k)
      ensures entry.prev == null && entry.next == null
    {
      if entry.prev != null {
        entry.prev.next := entry.next;
      } else {
        head := entry.next;
      }
      if entry.next != null {
        entry.next.prev := entry.prev;
      } else {
        tail := entry.prev;
      }
      entry.prev := null;
      entry.next := null;
      order := Without(order, k);
    }

    method MoveToFront(entry: BufferEntry, ghost k: nat)
      requires ListOk() && k < |order| && order[k] == entry
      modifies this`head, this`tail, this`order, order`prev, order`next
      ensures ListOk() && order == [entry] + Without(old(order), k)
    {
      if entry == head {
        assert k == 0 && order == [entry] + Without(order, 0);
        return;
      }
      RemoveFromList(entry, k);
      PushFront(entry);
    }

    /** The shard as a value. */
    ghost function Abs(): Cache
      reads this`frames, this`recency
    {
      Cache(frames, recency)
    }

    /** The linked list holds exactly the entries of the page map, once each, and never more than cap. */
    ghost predicate Valid()
      reads this`head, this`tail, this`order, this`pages, this`frames, this`recency, order`prev, order`next
    {
      ListOk() && Aligned(pages, order, recency) && pages.Keys == frames.Keys && WellFormed(Abs(), cap)
    }

    lemma Unfolded()
      requires Valid()
      ensures ListOk() && Aligned(pages, order, recency) && pages.Keys == frames.Keys
      ensures WellFormed(Abs(), cap) && Abs() == Cache(frames, recency) && Distinct(recency) && |order| == |recency|
    {
    }

    lemma Folded()
      requires ListOk() && Aligned(pages, order, recency) && pages.Keys == frames.Keys
      requires WellFormed(Cache(frames, recency), cap)
      ensures Valid() && Abs() == Cache(frames, recency)
    {
    }

    method FindVictim() returns (entry: BufferEntry?, ghost k: nat)
      requires Valid()
      ensures entry == null <==> Victim(Abs()).None?
      ensures entry != null ==> Victim(Abs()) == Some(k) && k < |order| && order[k] == entry
    {
      hide WellFormed, Distinct;
      assert Linked(Abs()) by { LinkedOf(Abs(), cap); }
      entry := tail;
      k := |order|;
      while entry != null
        invariant k <= |order| && entry == if k == 0 then null else order[k-1]
        invariant LastUnpinned(Abs(), |recency|) == LastUnpinned(Abs(), k)
        decreases k
      {
        if frames[entry.id].pins == 0 {
          k := k - 1;
          return;
        }
        entry := entry.prev;
        k := k - 1;
      }
    }

    /** pager.WritePage on a cached page, if it is dirty. */
    method WriteIfDirty(pager: Pager, id: PageId)
      requires Valid() && id in pages
      modifies this`frames, pager`disk
      ensures Valid() && (Abs(), pager.disk) == FlushOne(old(Abs()), old(pager.disk), id)
    {
      hide ListOk, Aligned, Distinct;
      SameKeys(Abs(), frames[id := Clean(frames[id])], cap);
      if frames[id].dirty {
        var ok := pager.WritePage(id, frames[id].data);
      }
      frames := frames[id := Clean(frames[id])];
    }

    /** Takes an entry out of list and map. */
    method Forget(entry: BufferEntry, ghost k: nat)
      requires Valid() && k < |order| && order[k] == entry
      modifies this`head, this`tail, this`order, this`pages, this`frames, this`recency, order`prev, order`next
      ensures Valid() && Abs() == Drop(old(Abs()), k) && order == Without(old(order), k)
    {
      hide *;
      Unfolded();
      ForgetStep(pages, frames, order, recency, cap, k, entry.id);
      RemoveFromList(entry, k);
      pages := pages - {entry.id};
      frames := frames - {entry.id};
      recency := Without(recency, k);
      Folded();
    }

    /** evict: drops the least recently used page that nobody has pinned, after writing it back if dirty. */
    method Evict(pager: Pager) returns (ok: bool)
      requires Valid()
      modifies this, order, pager`disk
      ensures Valid() && Result(Abs(), pager.disk, ok) == CacheSpec.Evict(old(Abs()), old(pager.disk))
      ensures forall i :: 0 <= i < |order| ==> order[i] in old(order)
    {
      hide ListOk, WellFormed, LastUnpinned, Distinct;
      var entry, k := FindVictim();
      if entry == null {
        return false;
      }
      WriteIfDirty(pager, entry.id);
      Forget(entry, k);
      assert Drop(FlushOne(old(Abs()), old(pager.disk), entry.id).0, k) == Drop(old(Abs()), k);
      ok := true;
    }

    /** Adds a page in front of the list. */
    method Insert(id: PageId, frame: Frame)
      requires Valid() && id !in pages && id != 0 && |frames| < cap
      modifies this, order`prev
      ensures Valid() && Abs() == Add(old(Abs()), id, frame)
    {
      hide *;
      Unfolded();
      var entry := new BufferEntry(id);
      InsertStep(pages, frames, order, recency, cap, entry, frame);
      pages := pages[id := entry];
      frames := frames[id := frame];
      recency := [id] + recency;
      PushFront(entry);
      Folded();
    }

    method MakeRoom(pager: Pager) returns (ok: bool)
      requires Valid()
      modifies this, order, pager`disk
      ensures Valid() && Result(Abs(), pager.disk, ok) == CacheSpec.MakeRoom(old(Abs()), old(pager.disk), cap)
      ensures forall i :: 0 <= i < |order| ==> order[i] in old(order)
    {
      hide ListOk, WellFormed, Distinct;
      assert |pages| == |frames| by { SameSize(pages, frames); }
      ok := true;
      if |pages| >= cap {
        ok := Evict(pager);
      }
    }

    /** FetchPage: pins a cached page, or reads it in, evicting another page if the shard is full. */
    method FetchPage(pager: Pager, id: PageId) returns (ok: bool)
      requires Valid()
      modifies this, order, pager`disk
      ensures Valid() && Result(Abs(), pager.disk, ok) == Fetch(old(Abs()), old(pager.disk), cap, id)
    {
      hide ListOk, WellFormed, Distinct, CacheSpec.MakeRoom;
      if id in pages {
        var entry := pages[id];
        ListedId(Abs(), cap, id);
        ghost var k := IndexOf(recency, id);
        TouchWellFormed(Abs(), cap, id);
        AlignedFront(pages, order, recency, k);
        MoveToFront(entry, k);
        frames := frames[id := Frame(frames[id].data, frames[id].dirty, frames[id].pins + 1, frames[id].isNew)];
        recency := [id] + Without(recency, k);
        return true;
      }
      ghost var c := Abs();
      var room := MakeRoom(pager);
      if !room {
        return false;
      }
      var page := pager.ReadPage(id);
      if page.None? {
        return false;
      }
      RoomMade(c, old(pager.disk), cap);
      Insert(id, Frame(page.value, false, 1, false));
      ok := true;
    }

    /** NewPage, after the free list has handed out the ID: an empty page, pinned and clean. */
    method NewPage(pager: Pager, id: PageId, data: Bytes) returns (ok: bool)
      requires Valid() && id !in pages && id != 0
      modifies this, order, pager`disk
      ensures Valid() && Result(Abs(), pager.disk, ok) == New(old(Abs()), old(pager.disk), cap, id, data)
    {
      hide ListOk, WellFormed, Distinct, CacheSpec.MakeRoom, Aligned;
      ghost var c := Abs();
      ok := MakeRoom(pager);
      if ok {
        RoomMade(c, old(pager.disk), cap);
        Insert(id, Frame(data, false, 1, true));
      }
    }

    /** Changes to one frame leave list and map alone. */
    method Update(id: PageId, frame: Frame)
      requires Valid() && id in pages
      modifies this`frames
      ensures Valid() && Abs() == Cache(old(frames)[id := frame], old(recency))
    {
      hide ListOk, Aligned, Distinct, WellFormed;
      SameKeys(Abs(), frames[id := frame], cap);
      frames := frames[id := frame];
    }

    method Unpin(id: PageId)
      requires Valid()
      modifies this`frames
      ensures Valid() && Abs() == CacheSpec.Unpin(old(Abs()), id)
      ensures frames.Keys == old(frames).Keys && forall q :: q in frames && q != id ==> frames[q] == old(frames)[q]
      ensures id in frames ==> var f := old(frames)[id]; frames[id] == f.(pins := if f.pins > 0 then f.pins - 1 else 0)
    {
      hide ListOk, Aligned, Distinct, WellFormed;
      if id in pages && frames[id].pins > 0 {
        Update(id, Frame(frames[id].data, frames[id].dirty, frames[id].pins - 1, frames[id].isNew));
      }
    }

    method MarkDirty(id: PageId)
      requires Valid()
      modifies this`frames
      ensures Valid() && Abs() == CacheSpec.MarkDirty(old(Abs()), id)
      ensures frames.Keys == old(frames).Keys && forall q :: q in frames && q != id ==> frames[q] == old(frames)[q]
      ensures id in frames ==> frames[id] == old(frames)[id].(dirty := true)
    {
      hide ListOk, Aligned, Distinct, WellFormed;
      if id in pages {
        Update(id, Frame(frames[id].data, true, frames[id].pins, frames[id].isNew));
      }
    }

    /** What the page setters do to a cached page. */
    method SetPage(id: PageId, data: Bytes)
      requires Valid() && id in pages
      modifies this`frames
      ensures Valid() && Abs() == Set(old(Abs()), id, data)
      ensures frames.Keys == old(frames).Keys && forall q :: q in frames && q != id ==> frames[q] == old(frames)[q]
      ensures frames[id] == Frame(data, true, old(frames)[id].pins, false)
    {
      hide ListOk, Aligned, Distinct, WellFormed;
      Update(id, Frame(data, true, frames[id].pins, false));
    }

    method FlushPage(pager: Pager, id: PageId)
      requires Valid()
      modifies this`frames, pager`disk
      ensures Valid() && State(Abs(), pager.disk) == Step(old(State(Abs(), pager.disk)), cap, FlushOp(id))
      ensures id in old(frames) && old(frames)[id].dirty ==>
        var f := old(frames)[id];
        && pager.disk == old(pager.disk)[id := f.data]
        && frames == old(frames)[id := Frame(f.data, false, f.pins, false)]
      ensures id !in old(frames) || !old(frames)[id].dirty ==> pager.disk == old(pager.disk) && frames == old(frames)
    {
      hide ListOk, Aligned, Distinct, WellFormed;
      if id in pages {
        WriteIfDirty(pager, id);
      }
    }

    /** FlushAll, and flushDirtyPages which leaves pinned pages alone: the dirty pages are written in any order. */
    method FlushDirty(pager: Pager, pinnedToo: bool)
      requires Valid()
      modifies this`frames, pager`disk
      ensures Valid() && State(Abs(), pager.disk) ==
        Step(old(State(Abs(), pager.disk)), cap, if pinnedToo then FlushAllOp else FlushUnpinnedOp)
      ensures recency == old(recency) && Flushed(old(frames), old(pager.disk), pinnedToo, frames, pager.disk)
    {
      hide *;
      Unfolded();
      ghost var c, d := Abs(), pager.disk;
      var dirtyPages := set id | id in frames && frames[id].dirty && (pinnedToo || frames[id].pins == 0);
      FlushDirtyStep(State(c, d), cap, pinnedToo, dirtyPages);
      FlushExactly(State(c, d), cap, pinnedToo);
      var todo := dirtyPages;
      FlushNone(c, d);
      NoneDone(dirtyPages);
      while todo != {}
        invariant Valid() && todo <= dirtyPages <= frames.Keys == c.frames.Keys
        invariant (Abs(), pager.disk) == FlushSet(c, d, dirtyPages - todo)
        decreases todo
      {
        var id :| id in todo;
        FlushMore(c, d, dirtyPages - todo, id);
        Unfolded();
        WriteIfDirty(pager, id);
        OneMore(dirtyPages, todo, id);
        todo := todo - {id};
        Unfolded();
        FlushKeys(c, d, dirtyPages - todo);
      }
      Unfolded();
    }

    /** FreePage's part in the pool: the page leaves list and map, whatever its state. */
    method FreePage(id: PageId)
      requires Valid()
      modifies this, order`prev, order`next
      ensures Valid() && Abs() == Free(old(Abs()), id)
      ensures frames == old(frames) - {id} && id !in pages && id !in recency
    {
      hide ListOk, WellFormed, Distinct;
      ListedId(Abs(), cap, id);
      if id in pages {
        Forget(pages[id], IndexOf(recency, id));
      }
    }
  }

  lemma ForgetStep(pages: map<PageId, BufferEntry>, frames: map<PageId, Frame>, order: seq<BufferEntry>,
                   recency: seq<PageId>, cap: nat, k: nat, id: PageId)
    requires Aligned(pages, order, recency) && pages.Keys == frames.Keys && WellFormed(Cache(frames, recency), cap)
    requires k < |order| && order[k].id == id
    ensures k < |recency| && Aligned(pages - {id}, Without(order, k), Without(recency, k))
    ensures (pages - {id}).Keys == (frames - {id}).Keys
    ensures WellFormed(Cache(frames - {id}, Without(recency, k)), cap)
    ensures Cache(frames - {id}, Without(recency, k)) == Drop(Cache(frames, recency), k)
  {
    hide Without;
    AlignedRemove(pages, order, recency, k);
    DropWellFormed(Cache(frames, recency), cap, k);
  }

  lemma InsertStep(pages: map<PageId, BufferEntry>, frames: map<PageId, Frame>, order: seq<BufferEntry>,
                   recency: seq<PageId>, cap: nat, e: BufferEntry, f: Frame)
    requires Aligned(pages, order, recency) && pages.Keys == frames.Keys && WellFormed(Cache(frames, recency), cap)
    requires e.id !in pages && e.id != 0 && |frames| < cap
    ensures e !in order && Aligned(pages[e.id := e], [e] + order, [e.id] + recency)
    ensures WellFormed(Cache(frames[e.id := f], [e.id] + recency), cap)
    ensures Cache(frames[e.id := f], [e.id] + recency) == Add(Cache(frames, recency), e.id, f)
  {
    hide WellFormed;
    AlignedAdd(pages, order, recency, e);
    AddWellFormed(Cache(frames, recency), cap, e.id, f);
  }

  lemma AlignedAdd(pages: map<PageId, BufferEntry>, order: seq<BufferEntry>, recency: seq<PageId>, e: BufferEntry)
    requires Aligned(pages, order, recency) && e.id !in pages
    ensures e !in order && Aligned(pages[e.id := e], [e] + order, [e.id] + recency)
  {
  }

  lemma SameSize<V, W>(a: map<PageId, V>, b: map<PageId, W>)
    requires a.Keys == b.Keys
    ensures |a| == |b|
  {
  }

  lemma AlignedFront(pages: map<PageId, BufferEntry>, order: seq<BufferEntry>, recency: seq<PageId>, k: nat)
    requires Aligned(pages, order, recency) && k < |order|
    ensures Aligned(pages, [order[k]] + Without(order, k), [recency[k]] + Without(recency, k))
  {
  }

  lemma ListedId(c: Cache, cap: nat, id: PageId)
    requires WellFormed(c, cap)
    ensures id in c.recency <==> id in c.frames
  {
  }

  lemma RoomMade(c: Cache, disk: Disk, cap: nat)
    requires WellFormed(c, cap)
    ensures Linked(c)
    ensures var r := CacheSpec.MakeRoom(c, disk, cap);
      r.ok ==> |r.cache.frames| < cap && r.cache.frames.Keys <= c.frames.Keys
  {
  }

  lemma OneMore(all: set<PageId>, todo: set<PageId>, id: PageId)
    requires id in todo && todo <= all
    ensures all - (todo - {id}) == all - todo + {id}
  {
  }

  lemma NoneDone(all: set<PageId>)
    ensures all - all == {} && all - {} == all
  {
  }

  lemma FlushKeys(c: Cache, d: Disk, ids: set<PageId>)
    ensures FlushSet(c, d, ids).0.frames.Keys == c.frames.Keys
  {
  }

  /** Flushing the dirty pages that were found is the step of the specification. */
  lemma FlushDirtyStep(s: State, cap: nat, pinnedToo: bool, dirty: set<PageId>)
    requires WellFormed(s.cache, cap)
    requires dirty ==
      set id | id in s.cache.frames && s.cache.frames[id].dirty && (pinnedToo || s.cache.frames[id].pins == 0)
    ensures var (c, d) := FlushSet(s.cache, s.disk, dirty);
      State(c, d) == Step(s, cap, if pinnedToo then FlushAllOp else FlushUnpinnedOp)
  {
    hide WellFormed, FlushSet;
    FlushOnlyDirty(s.cache, s.disk, dirty, if pinnedToo then s.cache.frames.Keys else Unpinned(s.cache));
  }

  lemma FlushNone(c: Cache, d: Disk)
    ensures FlushSet(c, d, {}) == (c, d)
  {
    assert FlushSet(c, d, {}).0.frames == c.frames;
    assert FlushSet(c, d, {}).1 == d;
  }

  lemma FlushMore(c: Cache, d: Disk, ids: set<PageId>, id: PageId)
    requires id in c.frames && id !in ids
    ensures FlushSet(c, d, ids + {id}) == FlushOne(FlushSet(c, d, ids).0, FlushSet(c, d, ids).1, id)
  {
    var (c1, d1) := FlushOne(FlushSet(c, d, ids).0, FlushSet(c, d, ids).1, id);
    assert FlushSet(c, d, ids + {id}).0.frames == c1.frames;
    assert FlushSet(c, d, ids + {id}).1 == d1;
  }

  lemma FlushOnlyDirty(c: Cache, d: Disk, dirty: set<PageId>, ids: set<PageId>)
    requires forall id :: id in dirty <==> id in ids && id in c.frames && c.frames[id].dirty
    ensures FlushSet(c, d, dirty) == FlushSet(c, d, ids)
  {
    assert FlushSet(c, d, dirty).0.frames == FlushSet(c, d, ids).0.frames;
    assert FlushSet(c, d, dirty).1 == FlushSet(c, d, ids).1;
  }
}
