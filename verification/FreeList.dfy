/** The free list of internal/storage/freelist.go: a linked stack of pages, each a stack of page IDs. */
module FreeList {
  import opened Keys
  import opened RecordPage
  import opened PageBytes
  import opened Pager

  const FREELIST_HEADER_SIZE := 7
  const FREELIST_ENTRY_SIZE := 4
  const MAX_ENTRIES := (PAGE_SIZE - FREELIST_HEADER_SIZE) / FREELIST_ENTRY_SIZE
  const TYPE_FREELIST: Byte := 3

  /** What a page ID is used for. List pages are numbered from the oldest, which is the end of the chain. */
  datatype Role = Live | ListPage(k: nat) | Entry(k: nat, i: nat)

  datatype Block = Block(id: PageId, entries: seq<PageId>)

  type Disk = map<PageId, Bytes>

  function EntryPos(i: nat): nat { FREELIST_HEADER_SIZE + i * FREELIST_ENTRY_SIZE }

  /** The page bytes: type(1) count(2) next(4) and the entries. */
  ghost predicate Decodes(d: Bytes, entries: seq<PageId>, next: PageId) {
    && |d| == PAGE_SIZE && |entries| <= MAX_ENTRIES
    && U16(d, 1) == |entries| && U32(d, 3) == next
    && forall i :: 0 <= i < |entries| ==> U32(d, EntryPos(i)) == entries[i]
  }

  function NextOf(blocks: seq<Block>, k: nat): PageId
    requires k < |blocks|
  {
    if k == 0 then 0 else blocks[k-1].id
  }

  function HeadOf(blocks: seq<Block>): PageId {
    if |blocks| == 0 then 0 else blocks[|blocks|-1].id
  }

  ghost predicate BlockOk(blocks: seq<Block>, roles: map<PageId, Role>, disk: Disk, k: nat)
    requires k < |blocks|
  {
    && blocks[k].id in roles && roles[blocks[k].id] == ListPage(k)
    && blocks[k].id in disk && Decodes(disk[blocks[k].id], blocks[k].entries, NextOf(blocks, k))
  }

  ghost predicate EntryOk(blocks: seq<Block>, roles: map<PageId, Role>, k: nat, i: nat)
    requires k < |blocks| && i < |blocks[k].entries|
  {
    blocks[k].entries[i] in roles && roles[blocks[k].entries[i]] == Entry(k, i)
  }

  ghost predicate RoleOk(blocks: seq<Block>, roles: map<PageId, Role>, id: PageId)
    requires id in roles
  {
    match roles[id]
    case Live => true
    case ListPage(k) => k < |blocks| && blocks[k].id == id
    case Entry(k, i) => k < |blocks| && i < |blocks[k].entries| && blocks[k].entries[i] == id
  }

  /** Every page ID below TotalPages has exactly one role: live, listed as free, or holding the list. */
  ghost predicate Partition(blocks: seq<Block>, roles: map<PageId, Role>, disk: Disk, total: nat) {
    && 1 <= total < ID_LIMIT
    && (forall id :: id in roles <==> 1 <= id < total)
    && (forall id :: id in roles ==> RoleOk(blocks, roles, id))
    && (forall k :: 0 <= k < |blocks| ==> BlockOk(blocks, roles, disk, k))
    && (forall k, i :: 0 <= k < |blocks| && 0 <= i < |blocks[k].entries| ==> EntryOk(blocks, roles, k, i))
  }

  ghost function LiveIds(roles: map<PageId, Role>): set<PageId> {
    set id | id in roles && roles[id].Live?
  }

  /** The page an allocation takes from a list that is not empty. */
  function Top(blocks: seq<Block>): PageId
    requires |blocks| > 0
  {
    var b := blocks[|blocks|-1];
    if |b.entries| == 0 then b.id else b.entries[|b.entries|-1]
  }

  function Popped(blocks: seq<Block>): seq<Block>
    requires |blocks| > 0
  {
    var n := |blocks| - 1;
    var b := blocks[n];
    if |b.entries| == 0 then blocks[..n] else blocks[n := Block(b.id, b.entries[..|b.entries|-1])]
  }

  function Pushed(blocks: seq<Block>, id: PageId): seq<Block>
    requires |blocks| > 0
  {
    var n := |blocks| - 1;
    blocks[n := Block(blocks[n].id, blocks[n].entries + [id])]
  }

  // ---- what each operation does to the partition ----

  lemma TopNotLive(blocks: seq<Block>, roles: map<PageId, Role>, disk: Disk, total: nat)
    requires Partition(blocks, roles, disk, total) && |blocks| > 0
    ensures Top(blocks) in roles && !roles[Top(blocks)].Live? && Top(blocks) != 0
  {
    var n := |blocks| - 1;
    assert BlockOk(blocks, roles, disk, n);
    if |blocks[n].entries| > 0 {
      assert EntryOk(blocks, roles, n, |blocks[n].entries| - 1);
    }
  }

  lemma PopListPage(blocks: seq<Block>, roles: map<PageId, Role>, disk: Disk, total: nat)
    requires Partition(blocks, roles, disk, total) && |blocks| > 0 && |blocks[|blocks|-1].entries| == 0
    ensures Partition(Popped(blocks), roles[Top(blocks) := Role.Live], disk, total)
  {
    hide Decodes;
    var n := |blocks| - 1;
    var blocks', roles' := Popped(blocks), roles[Top(blocks) := Role.Live];
    assert BlockOk(blocks, roles, disk, n);
    forall k | 0 <= k < |blocks'| ensures BlockOk(blocks', roles', disk, k) {
      assert BlockOk(blocks, roles, disk, k) && NextOf(blocks', k) == NextOf(blocks, k);
    }
    forall k, i | 0 <= k < |blocks'| && 0 <= i < |blocks'[k].entries| ensures EntryOk(blocks', roles', k, i) {
      assert EntryOk(blocks, roles, k, i);
    }
    forall id | id in roles' ensures RoleOk(blocks', roles', id) {
      assert id in roles ==> RoleOk(blocks, roles, id);
    }
  }

  lemma PopEntry(blocks: seq<Block>, roles: map<PageId, Role>, disk: Disk, total: nat, d: Bytes)
    requires Partition(blocks, roles, disk, total) && |blocks| > 0 && |blocks[|blocks|-1].entries| > 0
    requires var b := blocks[|blocks|-1]; Decodes(d, b.entries[..|b.entries|-1], NextOf(blocks, |blocks| - 1))
    ensures Partition(Popped(blocks), roles[Top(blocks) := Role.Live], disk[blocks[|blocks|-1].id := d], total)
  {
    hide Decodes;
    var n := |blocks| - 1;
    var blocks', roles', disk' := Popped(blocks), roles[Top(blocks) := Role.Live], disk[blocks[n].id := d];
    assert EntryOk(blocks, roles, n, |blocks[n].entries| - 1);
    forall k | 0 <= k < |blocks'| ensures BlockOk(blocks', roles', disk', k) {
      assert BlockOk(blocks, roles, disk, k) && BlockOk(blocks, roles, disk, n);
      assert NextOf(blocks', k) == NextOf(blocks, k);
    }
    forall k, i | 0 <= k < |blocks'| && 0 <= i < |blocks'[k].entries| ensures EntryOk(blocks', roles', k, i) {
      assert EntryOk(blocks, roles, k, i);
    }
    forall id | id in roles' ensures RoleOk(blocks', roles', id) {
      assert id in roles ==> RoleOk(blocks, roles, id);
    }
  }

  lemma PushEntry(blocks: seq<Block>, roles: map<PageId, Role>, disk: Disk, total: nat, id: PageId, d: Bytes)
    requires Partition(blocks, roles, disk, total) && |blocks| > 0 && id in LiveIds(roles)
    requires var b := blocks[|blocks|-1]; Decodes(d, b.entries + [id], NextOf(blocks, |blocks| - 1))
    ensures var n := |blocks| - 1;
      Partition(Pushed(blocks, id), roles[id := Entry(n, |blocks[n].entries|)], disk[blocks[n].id := d], total)
  {
    hide Decodes;
    var n := |blocks| - 1;
    var blocks', roles', disk' :=
      Pushed(blocks, id), roles[id := Entry(n, |blocks[n].entries|)], disk[blocks[n].id := d];
    forall k | 0 <= k < |blocks'| ensures BlockOk(blocks', roles', disk', k) {
      assert BlockOk(blocks, roles, disk, k) && BlockOk(blocks, roles, disk, n);
      assert NextOf(blocks', k) == NextOf(blocks, k);
    }
    forall k, i | 0 <= k < |blocks'| && 0 <= i < |blocks'[k].entries| ensures EntryOk(blocks', roles', k, i) {
      if k < n || i < |blocks[n].entries| {
        assert EntryOk(blocks, roles, k, i);
      }
    }
    forall q | q in roles' ensures RoleOk(blocks', roles', q) {
      assert q in roles ==> RoleOk(blocks, roles, q);
    }
  }

  lemma PushListPage(blocks: seq<Block>, roles: map<PageId, Role>, disk: Disk, total: nat, id: PageId, d: Bytes)
    requires Partition(blocks, roles, disk, total) && id in LiveIds(roles) && total + 1 < ID_LIMIT
    requires Decodes(d, [id], HeadOf(blocks))
    ensures var n := |blocks|;
      Partition(blocks + [Block(total, [id])], roles[id := Entry(n, 0)][total := ListPage(n)], disk[total := d],
                total + 1)
  {
    hide Decodes;
    var n := |blocks|;
    var blocks', roles', disk' :=
      blocks + [Block(total, [id])], roles[id := Entry(n, 0)][total := ListPage(n)], disk[total := d];
    forall k | 0 <= k < |blocks'| ensures BlockOk(blocks', roles', disk', k) {
      if k < n {
        assert BlockOk(blocks, roles, disk, k) && NextOf(blocks', k) == NextOf(blocks, k);
      }
    }
    forall k, i | 0 <= k < |blocks'| && 0 <= i < |blocks'[k].entries| ensures EntryOk(blocks', roles', k, i) {
      if k < n {
        assert EntryOk(blocks, roles, k, i);
      }
    }
    forall q | q in roles' ensures RoleOk(blocks', roles', q) {
      assert q in roles ==> RoleOk(blocks, roles, q);
    }
  }

  lemma Grow(blocks: seq<Block>, roles: map<PageId, Role>, disk: Disk, total: nat)
    requires Partition(blocks, roles, disk, total) && total + 1 < ID_LIMIT
    ensures Partition(blocks, roles[total := Role.Live], disk[total := Zeros()], total + 1)
  {
    hide Decodes;
    var roles', disk' := roles[total := Role.Live], disk[total := Zeros()];
    forall k | 0 <= k < |blocks| ensures BlockOk(blocks, roles', disk', k) {
      assert BlockOk(blocks, roles, disk, k);
    }
    forall k, i | 0 <= k < |blocks| && 0 <= i < |blocks[k].entries| ensures EntryOk(blocks, roles', k, i) {
      assert EntryOk(blocks, roles, k, i);
    }
    forall q | q in roles' ensures RoleOk(blocks, roles', q) {
      assert q in roles ==> RoleOk(blocks, roles, q);
    }
  }

  ghost function EntryIds(blocks: seq<Block>): set<PageId> {
    set k, i | 0 <= k < |blocks| && 0 <= i < |blocks[k].entries| :: blocks[k].entries[i]
  }

  ghost function ListPageIds(blocks: seq<Block>): set<PageId> {
    set k | 0 <= k < |blocks| :: blocks[k].id
  }

  /** The three uses of page IDs are disjoint and together are all IDs of the file. */
  lemma Conservation(blocks: seq<Block>, roles: map<PageId, Role>, disk: Disk, total: nat)
    requires Partition(blocks, roles, disk, total)
    ensures LiveIds(roles) !! EntryIds(blocks) !! ListPageIds(blocks)
    ensures forall id :: id in LiveIds(roles) + EntryIds(blocks) + ListPageIds(blocks) <==> 1 <= id < total
  {
    hide Decodes;
    forall id | id in EntryIds(blocks) ensures id in roles && roles[id].Entry? {
      var k, i :| 0 <= k < |blocks| && 0 <= i < |blocks[k].entries| && blocks[k].entries[i] == id;
      assert EntryOk(blocks, roles, k, i);
    }
    forall id | id in ListPageIds(blocks) ensures id in roles && roles[id].ListPage? {
      var k :| 0 <= k < |blocks| && blocks[k].id == id;
      assert BlockOk(blocks, roles, disk, k);
    }
    forall id | 1 <= id < total ensures id in LiveIds(roles) + EntryIds(blocks) + ListPageIds(blocks) {
      assert RoleOk(blocks, roles, id);
    }
  }

  /** No ID is listed twice. */
  lemma ListedOnce(blocks: seq<Block>, roles: map<PageId, Role>, disk: Disk, total: nat, k: nat, i: nat, k': nat,
                   i': nat)
    requires Partition(blocks, roles, disk, total)
    requires k < |blocks| && i < |blocks[k].entries| && k' < |blocks| && i' < |blocks[k'].entries|
    requires blocks[k].entries[i] == blocks[k'].entries[i']
    ensures k == k' && i == i'
  {
    hide Decodes;
    assert EntryOk(blocks, roles, k, i) && EntryOk(blocks, roles, k', i');
  }

  // ---- page bytes ----

  lemma EntryDropped(d: Bytes, e: Bytes, entries: seq<PageId>, next: PageId)
    requires Decodes(d, entries, next) && |entries| > 0
    requires SameOutside(d, e, 1, 3) && U16(e, 1) == |entries| - 1
    ensures Decodes(e, entries[..|entries|-1], next)
  {
  }

  lemma EntryAppended(d: Bytes, d1: Bytes, e: Bytes, entries: seq<PageId>, next: PageId, id: PageId)
    requires Decodes(d, entries, next) && |entries| < MAX_ENTRIES
    requires SameOutside(d, d1, EntryPos(|entries|), EntryPos(|entries|) + 4) && U32(d1, EntryPos(|entries|)) == id
    requires SameOutside(d1, e, 1, 3) && U16(e, 1) == |entries| + 1
    ensures Decodes(e, entries + [id], next)
  {
  }

  // ---- the operations ----

  class FreeList {
    const pager: Pager
    ghost var blocks: seq<Block>
    ghost var roles: map<PageId, Role>

    constructor (pager: Pager)
      requires pager.totalPages == 1 && pager.freeListHead == 0
      ensures Valid() && LiveIds(roles) == {} && this.pager == pager
    {
      this.pager := pager;
      blocks, roles := [], map[];
    }

    ghost predicate Valid()
      reads this, pager
    {
      Partition(blocks, roles, pager.disk, pager.totalPages) && pager.freeListHead == HeadOf(blocks)
    }

    /** The next page added to the file would take the last uint32 page number. */
    ghost predicate AtLimit()
      reads pager
    {
      pager.totalPages == ID_LIMIT - 1
    }

    /** Listing one more page takes a new list page. */
    ghost predicate HeadFull()
      reads this
    {
      |blocks| == 0 || EntryPos(|blocks[|blocks|-1].entries|) + FREELIST_ENTRY_SIZE > PAGE_SIZE
    }

    lemma Unfolded()
      requires Valid()
      ensures Partition(blocks, roles, pager.disk, pager.totalPages) && pager.freeListHead == HeadOf(blocks)
      ensures pager.freeListHead != 0 <==> |blocks| > 0
      ensures |blocks| > 0 ==>
        var head := pager.freeListHead; head == blocks[|blocks|-1].id && head in pager.disk && head !in LiveIds(roles)
      ensures 1 <= pager.totalPages < ID_LIMIT && (AtLimit() <==> pager.totalPages + 1 == ID_LIMIT)
      ensures forall id :: id in LiveIds(roles) ==> id in roles && 1 <= id < pager.totalPages
      ensures forall id :: id in roles ==> 1 <= id < pager.totalPages
    {
      hide Decodes;
      assert |blocks| > 0 ==> BlockOk(blocks, roles, pager.disk, |blocks| - 1);
    }

    lemma Folded()
      requires Partition(blocks, roles, pager.disk, pager.totalPages) && pager.freeListHead == HeadOf(blocks)
      ensures Valid()
    {
    }

    /** A page count that has wrapped around. */
    lemma Wrapped()
      requires pager.totalPages == 0
      ensures !Valid()
    {
    }

    /** Reads the list page at the head. */
    method ReadHead() returns (page: array<Byte>)
      requires Valid() && |blocks| > 0
      ensures fresh(page) && pager.freeListHead != 0
      ensures Decodes(page[..], blocks[|blocks|-1].entries, NextOf(blocks, |blocks| - 1))
    {
      assert BlockOk(blocks, roles, pager.disk, |blocks| - 1);
      var r := pager.ReadPage(pager.freeListHead);
      var d := r.value;
      page := new Byte[PAGE_SIZE](i requires 0 <= i < PAGE_SIZE => d[i]);
      assert page[..] == d;
    }

    /** AllocatePage: the most recently freed page, then emptied list pages themselves, then a new page.
        What it returns was not live and now is, and no live page's bytes change. */
    method AllocatePage() returns (id: PageId)
      requires Valid()
      modifies this, pager
      ensures id !in LiveIds(old(roles))
      ensures Valid() <==> !(old(|blocks|) == 0 && old(AtLimit()))
      ensures Valid() ==> id != 0 && LiveIds(roles) == LiveIds(old(roles)) + {id}
      ensures |old(blocks)| > 0 ==>
        pager.totalPages == old(pager.totalPages) && id == Top(old(blocks)) && blocks == Popped(old(blocks))
      ensures |old(blocks)| == 0 ==>
        && id == old(pager.totalPages) && pager.totalPages == (id + 1) % ID_LIMIT && blocks == []
        && id in pager.disk && pager.disk[id] == Zeros()
      ensures forall q :: q in LiveIds(old(roles)) && q in old(pager.disk) ==>
        q in pager.disk && pager.disk[q] == old(pager.disk)[q]
    {
      hide *;
      Unfolded();
      var headID := pager.freeListHead;
      if headID == 0 {
        if pager.totalPages + 1 < ID_LIMIT {
          Grow(blocks, roles, pager.disk, pager.totalPages);
        }
        NewlyLive(roles, pager.totalPages);
        Wraps(pager.totalPages);
        id := pager.AllocatePage();
        roles := roles[id := Role.Live];
        if pager.totalPages == 0 {
          Wrapped();
        } else {
          Folded();
        }
        return;
      }
      TopNotLive(blocks, roles, pager.disk, pager.totalPages);
      TopIs(blocks, roles);
      var page := ReadHead();
      var count := CountIn(page, blocks[|blocks|-1].entries, NextOf(blocks, |blocks| - 1));
      if count == 0 {
        var nextPage := NextIn(page, blocks[|blocks|-1].entries, NextOf(blocks, |blocks| - 1));
        id := headID;
        PopListPage(blocks, roles, pager.disk, pager.totalPages);
        pager.SetFreeListHead(nextPage);
      } else {
        id := TakeLast(page, count - 1, blocks[|blocks|-1].entries, NextOf(blocks, |blocks| - 1));
        PopEntry(blocks, roles, pager.disk, pager.totalPages, page[..]);
        var ok := pager.WritePage(headID, page[..]);
      }
      roles := roles[id := Role.Live];
      blocks := Popped(blocks);
      Folded();
    }

    /** FreePage: the page's ID goes on the head list page, or on a new one when that is full. The page is no
        longer live, everything live stays so, and the next allocation takes it back. */
    method FreePage(id: PageId)
      requires Valid() && id in LiveIds(roles)
      modifies this, pager
      ensures var full := old(HeadFull());
        && (Valid() <==> !(full && old(AtLimit())))
        && (Valid() ==> LiveIds(roles) == LiveIds(old(roles)) - {id} && |blocks| > 0 && Top(blocks) == id)
        && blocks == (if full then old(blocks) + [Block(old(pager.totalPages), [id])] else Pushed(old(blocks), id))
        && pager.totalPages == (if full then (old(pager.totalPages) + 1) % ID_LIMIT else old(pager.totalPages))
      ensures forall q :: q in LiveIds(old(roles)) && q in old(pager.disk) ==>
        q in pager.disk && pager.disk[q] == old(pager.disk)[q]
    {
      hide Decodes, RoleOk, EntryOk;
      var headID := pager.freeListHead;
      if |blocks| > 0 {
        assert BlockOk(blocks, roles, pager.disk, |blocks| - 1);
      }
      if headID != 0 {
        var page := ReadHead();
        ghost var n := |blocks| - 1;
        var count := CountIn(page, blocks[n].entries, NextOf(blocks, n));
        if count < MAX_ENTRIES {
          PutLast(page, count, id, blocks[n].entries, NextOf(blocks, n));
          PushEntry(blocks, roles, pager.disk, pager.totalPages, id, page[..]);
          var ok := pager.WritePage(headID, page[..]);
          roles := roles[id := Entry(n, count)];
          blocks := Pushed(blocks, id);
          return;
        }
        assert count == MAX_ENTRIES by { DecodesFits(page[..], blocks[n].entries, NextOf(blocks, n)); }
      }
      AddListPage(id);
    }

    method AddListPage(id: PageId)
      requires Valid() && id in LiveIds(roles)
      modifies this, pager
      ensures Valid() <==> !old(AtLimit())
      ensures Valid() ==> LiveIds(roles) == LiveIds(old(roles)) - {id} && |blocks| > 0 && Top(blocks) == id
      ensures blocks == old(blocks) + [Block(old(pager.totalPages), [id])]
      ensures pager.totalPages == (old(pager.totalPages) + 1) % ID_LIMIT
      ensures forall q :: q in LiveIds(old(roles)) && q in old(pager.disk) ==>
        q in pager.disk && pager.disk[q] == old(pager.disk)[q]
    {
      hide *;
      Unfolded();
      ghost var total: nat := pager.totalPages;
      ghost var d: Disk := pager.disk;
      var headID := pager.freeListHead;
      HeadBelow(blocks, roles, pager.disk, pager.totalPages);
      Wraps(total);
      var newPageID := pager.AllocatePage();
      var page := NewListPage(id, headID);
      ListedTop(blocks, roles, id, newPageID);
      var ok := pager.WritePage(newPageID, page[..]);
      assert pager.disk == d[total := page[..]];
      pager.SetFreeListHead(newPageID);
      ghost var blocks0, roles0 := blocks, roles;
      roles := roles[id := Entry(|blocks|, 0)][newPageID := ListPage(|blocks|)];
      blocks := blocks + [Block(newPageID, [id])];
      if pager.totalPages == 0 {
        Wrapped();
      } else {
        PushListPage(blocks0, roles0, d, total, id, page[..]);
        Folded();
      }
    }

    /** Freeing a page and allocating one gives the same page back, across list page boundaries too. */
    method FreeThenAllocate(id: PageId) returns (again: PageId)
      requires Valid() && id in LiveIds(roles) && !(HeadFull() && AtLimit())
      modifies this, pager
      ensures Valid() && again == id && LiveIds(roles) == LiveIds(old(roles))
    {
      FreePage(id);
      again := AllocatePage();
    }
  }

  lemma TopIs(blocks: seq<Block>, roles: map<PageId, Role>)
    requires |blocks| > 0
    ensures var n := |blocks| - 1; var b := blocks[n];
      && Top(blocks) == (if |b.entries| == 0 then b.id else b.entries[|b.entries|-1])
      && HeadOf(Popped(blocks)) == if |b.entries| == 0 then NextOf(blocks, n) else b.id
    ensures Top(blocks) in roles && !roles[Top(blocks)].Live? ==> Top(blocks) !in LiveIds(roles)
    ensures LiveIds(roles[Top(blocks) := Role.Live]) == LiveIds(roles) + {Top(blocks)}
  {
  }

  lemma Wraps(total: nat)
    requires total < ID_LIMIT
    ensures (total + 1) % ID_LIMIT == if total + 1 == ID_LIMIT then 0 else total + 1
  {
  }

  lemma ListedTop(blocks: seq<Block>, roles: map<PageId, Role>, id: PageId, page: PageId)
    requires id in roles && page !in roles
    ensures var blocks' := blocks + [Block(page, [id])];
      && HeadOf(blocks') == page && Top(blocks') == id
      && LiveIds(roles[id := Entry(|blocks|, 0)][page := ListPage(|blocks|)]) == LiveIds(roles) - {id}
  {
  }

  lemma NewlyLive(roles: map<PageId, Role>, id: PageId)
    ensures LiveIds(roles[id := Role.Live]) == LiveIds(roles) + {id}
  {
  }

  method NextIn(page: array<Byte>, ghost entries: seq<PageId>, ghost next: PageId) returns (id: PageId)
    requires Decodes(page[..], entries, next)
    ensures id == next
  {
    DecodesNext(page[..], entries, next);
    id := U32(page[..], 3);
  }

  lemma DecodesNext(d: Bytes, entries: seq<PageId>, next: PageId)
    requires Decodes(d, entries, next)
    ensures |d| == PAGE_SIZE && U32(d, 3) == next
  {
  }

  lemma DecodesFits(d: Bytes, entries: seq<PageId>, next: PageId)
    requires Decodes(d, entries, next)
    ensures |entries| <= MAX_ENTRIES
  {
  }

  lemma HeadBelow(blocks: seq<Block>, roles: map<PageId, Role>, disk: Disk, total: nat)
    requires Partition(blocks, roles, disk, total)
    ensures HeadOf(blocks) < total
  {
    if |blocks| > 0 {
      assert BlockOk(blocks, roles, disk, |blocks| - 1);
    }
  }

  method CountIn(page: array<Byte>, ghost entries: seq<PageId>, ghost next: PageId) returns (count: nat)
    requires Decodes(page[..], entries, next)
    ensures count == |entries| && page.Length == PAGE_SIZE
  {
    count := U16(page[..], 1);
  }

  /** Reads the last entry and lowers the count. */
  method TakeLast(page: array<Byte>, count: nat, ghost entries: seq<PageId>, ghost next: PageId) returns (id: PageId)
    requires Decodes(page[..], entries, next) && |entries| == count + 1
    modifies page
    ensures id == entries[count] && Decodes(page[..], entries[..count], next)
  {
    ghost var d := page[..];
    id := U32(page[..], EntryPos(count));
    PutU16(page, 1, count);
    EntryDropped(d, page[..], entries, next);
  }

  /** Writes one more entry and raises the count. */
  method PutLast(page: array<Byte>, count: nat, id: PageId, ghost entries: seq<PageId>, ghost next: PageId)
    requires Decodes(page[..], entries, next) && |entries| == count < MAX_ENTRIES && id < ID_LIMIT
    modifies page
    ensures Decodes(page[..], entries + [id], next)
  {
    ghost var d := page[..];
    PutU32(page, EntryPos(count), id);
    ghost var d1 := page[..];
    PutU16(page, 1, count + 1);
    EntryAppended(d, d1, page[..], entries, next, id);
  }

  /** A new list page with one entry. */
  method NewListPage(id: PageId, next: PageId) returns (page: array<Byte>)
    requires id < ID_LIMIT && next < ID_LIMIT
    ensures fresh(page) && Decodes(page[..], [id], next)
  {
    page := new Byte[PAGE_SIZE](_ => 0);
    PutU16(page, 4, PAGE_HEADER_SIZE);
    PutU16(page, 6, PAGE_SIZE);
    page[0] := TYPE_FREELIST;
    PutU16(page, 1, 1);
    PutU32(page, 3, next);
    ghost var d := page[..];
    PutU32(page, EntryPos(0), id);
  }
}
