/** The pager (internal/storage/pager.go): a file as a map from page ID to bytes, and its header. */
module Pager {
  import opened Keys
  import opened RecordPage

  const ID_LIMIT := 0x1_0000_0000

  function Zeros(): (s: Bytes)
    ensures |s| == PAGE_SIZE
  {
    seq(PAGE_SIZE, i => 0)
  }

  class Pager {
    var disk: map<PageId, Bytes>
    var totalPages: nat
    var freeListHead: PageId

    /** A new file: the header page alone. */
    constructor ()
      ensures disk == map[] && totalPages == 1 && freeListHead == 0
    {
      disk, totalPages, freeListHead := map[], 1, 0;
    }

    /** None stands for the error returns: page 0, and pages beyond the end of the file. */
    method ReadPage(id: PageId) returns (r: Option<Bytes>)
      ensures r == if id != 0 && id in disk then Some(disk[id]) else None
    {
      if id == 0 || id !in disk {
        return None;
      }
      r := Some(disk[id]);
    }

    method WritePage(id: PageId, data: Bytes) returns (ok: bool)
      modifies this`disk
      ensures ok <==> id != 0
      ensures disk == if ok then old(disk)[id := data] else old(disk)
    {
      if id == 0 {
        return false;
      }
      disk := disk[id := data];
      ok := true;
    }

    /** Extends the file by a zeroed page. TotalPages is a uint32. */
    method AllocatePage() returns (id: PageId)
      modifies this`disk, this`totalPages
      ensures id == old(totalPages)
      ensures totalPages == (old(totalPages) + 1) % ID_LIMIT
      ensures disk == old(disk)[id := Zeros()]
    {
      id := totalPages;
      totalPages := (totalPages + 1) % ID_LIMIT;
      disk := disk[id := Zeros()];
    }

    method SetFreeListHead(id: PageId)
      modifies this`freeListHead
      ensures freeListHead == id
    {
      freeListHead := id;
    }
  }
}
