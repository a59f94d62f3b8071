/**
 Splitting a user buffer into page-sized scatter-gather entries (xdma-sgm.c). The
 page table is a parameter, and so is how many pages could be pinned.
 */
module Pages {
  import opened Words

  const PAGE_SIZE := 4096
  const EINVAL := 22
  const ENOMEM := 12

  /** One scatterlist entry: bytes offset .. offset + length of a page frame. */
  datatype SgEntry = SgEntry(page: nat, offset: nat, length: nat)

  /** The physical address of a user address. */
  function Phys(pageTable: nat -> nat, u: nat): nat {
    pageTable(u / PAGE_SIZE) * PAGE_SIZE + u % PAGE_SIZE
  }

  /** The physical addresses of n user bytes from `start` on. */
  function Mapped(pageTable: nat -> nat, start: nat, n: nat): (r: seq<int>)
    ensures |r| == n
  {
    seq(n, (k: nat) requires k < n => Phys(pageTable, start + k))
  }

  function EntryBytes(e: SgEntry): (r: seq<int>)
    ensures |r| == e.length
  {
    seq(e.length, (k: nat) requires k < e.length => e.page * PAGE_SIZE + e.offset + k)
  }

  /** Every byte a scatterlist covers, in order. */
  function SgBytes(entries: seq<SgEntry>): seq<int> {
    if entries == [] then []
    else SgBytes(entries[..|entries| - 1]) + EntryBytes(entries[|entries| - 1])
  }

  lemma MappedAppend(pageTable: nat -> nat, start: nat, n: nat, m: nat)
    ensures Mapped(pageTable, start, n) + Mapped(pageTable, start + n, m) == Mapped(pageTable, start, n + m)
  {
  }

  /** A stretch inside one page is one entry. */
  lemma OnePage(pageTable: nat -> nat, u: nat, n: nat)
    requires u % PAGE_SIZE + n <= PAGE_SIZE
    ensures EntryBytes(SgEntry(pageTable(u / PAGE_SIZE), u % PAGE_SIZE, n)) == Mapped(pageTable, u, n)
  {
    var entry := EntryBytes(SgEntry(pageTable(u / PAGE_SIZE), u % PAGE_SIZE, n));
    forall k | 0 <= k < n
      ensures entry[k] == Mapped(pageTable, u, n)[k]
    {
      PhysInPage(pageTable, u, k);
    }
  }

  lemma PhysInPage(pageTable: nat -> nat, u: nat, k: nat)
    requires u % PAGE_SIZE + k < PAGE_SIZE
    ensures Phys(pageTable, u + k) == pageTable(u / PAGE_SIZE) * PAGE_SIZE + u % PAGE_SIZE + k
  {
    var page := (u + k) / PAGE_SIZE;
    assert page == u / PAGE_SIZE;
    assert pageTable(page) == pageTable(u / PAGE_SIZE);
  }

  lemma SgBytesAppend(entries: seq<SgEntry>, e: SgEntry)
    ensures SgBytes(entries + [e]) == SgBytes(entries) + EntryBytes(e)
  {
    assert (entries + [e])[..|entries|] == entries;
  }

  /** first and last page numbers, as the source computes them in unsigned 64-bit arithmetic. */
  function FirstPage(start: Addr): nat {
    start / PAGE_SIZE
  }

  function LastPage(start: Addr, count: nat): nat {
    ((start + count - 1) % TWO_64) / PAGE_SIZE
  }

  function NrPages(start: Addr, count: nat): int {
    ToInt((LastPage(start, count) - FirstPage(start) + 1) % TWO_64)
  }

  /** The page count a mapper for at most maxLen bytes is created with. */
  function MaxPages(maxLen: nat): nat {
    maxLen / PAGE_SIZE + 2
  }

  /** A mapper created for the length of the buffer always has room, wherever the buffer starts. */
  lemma CapacitySuffices(start: Addr, count: nat)
    requires 0 < count && start + count < TWO_64 && MaxPages(count) < 0x8000_0000
    ensures NrPages(start, count) == (start + count - 1) / PAGE_SIZE - start / PAGE_SIZE + 1
    ensures 1 <= NrPages(start, count) <= MaxPages(count)
  {
    var first, last := start / PAGE_SIZE, (start + count - 1) / PAGE_SIZE;
    assert (start + count - 1) % TWO_64 == start + count - 1;
    assert 1 <= last - first + 1 <= count / PAGE_SIZE + 2;
  }

  /** The rounding up to two extra pages is needed: two bytes across a page boundary take two pages. */
  lemma CapacityIsTight()
    ensures NrPages(4095, 2) == 2 && MaxPages(2) == 2
  {
  }

  /** The bytes end in the last page. */
  lemma PagesNeeded(start: nat, count: nat, nrPages: int)
    requires 0 < count && nrPages == (start + count - 1) / PAGE_SIZE - start / PAGE_SIZE + 1
    ensures (nrPages - 1) * PAGE_SIZE < start % PAGE_SIZE + count <= nrPages * PAGE_SIZE
  {
  }

  /** The capacity is the least that always suffices, unless the bytes are one more than whole pages or none. */
  lemma CapacityIsNeeded(count: nat)
    requires 0 < count < 0x1000_0000_0000_0000 && MaxPages(count) < 0x8000_0000 && count % 4096 >= 2
    ensures NrPages(4095, count) == MaxPages(count)
  {
    CapacitySuffices(4095, count);
  }

  class SgMapping {
    const maxPages: nat
    const sgl: array<SgEntry>
    const pages: array<nat>
    var mappedPages: nat

    ghost predicate Valid()
      reads this
    {
      sgl.Length == pages.Length == maxPages && mappedPages <= maxPages
    }

    /** sg_create_mapper; the page count must fit the int it is stored in. */
    constructor (maxLen: nat)
      requires 0 < maxLen && MaxPages(maxLen) < 0x8000_0000
      ensures Valid() && maxPages == MaxPages(maxLen) && mappedPages == 0
      ensures fresh(sgl) && fresh(pages)
    {
      maxPages := MaxPages(maxLen);
      mappedPages := 0;
      sgl := new SgEntry[MaxPages(maxLen)](i => SgEntry(0, 0, 0));
      pages := new nat[MaxPages(maxLen)](i => 0);
    }

    /**
     sgm_get_user_pages. `pinned` is how many pages could be pinned. On success the
     entries cover exactly the user bytes start .. start + count, in order.
     */
    method GetUserPages(start: Addr, count: nat, pageTable: nat -> nat, pinned: int) returns (rc: int)
      requires Valid() && mappedPages == 0
      requires count < TWO_64 && MaxPages(count) < 0x8000_0000
      requires pinned <= NrPages(start, count)
      modifies this`mappedPages, sgl, pages
      ensures Valid()
      ensures rc == (if start + count >= TWO_64 then -EINVAL
                     else if NrPages(start, count) > maxPages then -EINVAL
                     else if count == 0 then 0
                     else if pinned < NrPages(start, count) then -ENOMEM
                     else NrPages(start, count))
      ensures rc > 0 ==> mappedPages == rc && rc <= sgl.Length && SgBytes(sgl[..rc]) == Mapped(pageTable, start, count)
      ensures rc > 0 ==> forall i :: 0 <= i < rc ==> 0 < sgl[i].length && sgl[i].offset + sgl[i].length <= PAGE_SIZE
      ensures rc <= 0 ==> mappedPages == 0 && unchanged(sgl)
    {
      var first := FirstPage(start);
      var nrPages := NrPages(start, count);
      if (start + count) % TWO_64 < start {
        return -EINVAL;
      }
      if nrPages > maxPages {
        return -EINVAL;
      }
      if count == 0 {
        return 0;
      }
      CapacitySuffices(start, count);
      if pinned < nrPages {
        if pinned > 0 {
          mappedPages := pinned;
        }
        mappedPages := 0;
        return -ENOMEM;
      }
      mappedPages := nrPages;
      PinPages(first, nrPages, pageTable);
      PagesNeeded(start, count, nrPages);
      Populate(start, count, pageTable, nrPages);
      return nrPages;
    }

    /** The effect of get_user_pages_fast when it succeeds. */
    method PinPages(first: nat, nrPages: nat, pageTable: nat -> nat)
      requires nrPages <= pages.Length
      modifies pages
      ensures forall i :: 0 <= i < nrPages ==> pages[i] == pageTable(first + i)
    {
      for i := 0 to nrPages
        invariant forall j :: 0 <= j < i ==> pages[j] == pageTable(first + j)
      {
        pages[i] := pageTable(first + i);
      }
    }

    /** The part of sgm_get_user_pages that fills the scatterlist; the assertions are its BUG_ONs. */
    method Populate(start: Addr, count: nat, pageTable: nat -> nat, nrPages: nat)
      requires sgl.Length == pages.Length && 1 <= nrPages <= sgl.Length && 0 < count
      requires (nrPages - 1) * PAGE_SIZE < start % PAGE_SIZE + count <= nrPages * PAGE_SIZE
      requires forall i :: 0 <= i < nrPages ==> pages[i] == pageTable(start / PAGE_SIZE + i)
      modifies sgl
      ensures SgBytes(sgl[..nrPages]) == Mapped(pageTable, start, count)
      ensures forall i :: 0 <= i < nrPages ==> 0 < sgl[i].length && sgl[i].offset + sgl[i].length <= PAGE_SIZE
    {
      var offset := start % PAGE_SIZE;
      if nrPages == 1 {
        FirstEntry(start, count, pageTable);
        return;
      }
      FirstEntry(start, PAGE_SIZE - offset, pageTable);
      var remaining: int := count - sgl[0].length;
      var i := 1;
      while i < nrPages - 1
        invariant 1 <= i <= nrPages - 1
        invariant remaining == count - (i * PAGE_SIZE - offset)
        invariant SgBytes(sgl[..i]) == Mapped(pageTable, start, i * PAGE_SIZE - offset)
        invariant forall j :: 0 <= j < i ==> 0 < sgl[j].length && sgl[j].offset + sgl[j].length <= PAGE_SIZE
      {
        assert remaining >= PAGE_SIZE;
        AppendPage(start, i, PAGE_SIZE, pageTable);
        remaining := remaining - PAGE_SIZE;
        i := i + 1;
      }
      assert remaining <= PAGE_SIZE;
      AppendPage(start, i, remaining, pageTable);
    }

    /** sg_set_page for the first page, which the buffer may enter anywhere. */
    method FirstEntry(start: Addr, length: nat, pageTable: nat -> nat)
      requires 0 < sgl.Length == pages.Length && 0 < length && start % PAGE_SIZE + length <= PAGE_SIZE
      requires pages[0] == pageTable(start / PAGE_SIZE)
      modifies sgl
      ensures sgl[0].offset == start % PAGE_SIZE && sgl[0].length == length
      ensures SgBytes(sgl[..1]) == Mapped(pageTable, start, length)
    {
      sgl[0] := SgEntry(pages[0], start % PAGE_SIZE, 0);
      sgl[0] := sgl[0].(length := length);
      OnePage(pageTable, start, length);
      SgBytesAppend([], sgl[0]);
      assert sgl[..1] == [] + [sgl[0]];
    }

    /** sg_set_page for a page after the first: its first `length` bytes continue the buffer. */
    method AppendPage(start: Addr, i: nat, length: nat, pageTable: nat -> nat)
      requires 1 <= i < sgl.Length == pages.Length && 0 < length <= PAGE_SIZE
      requires pages[i] == pageTable(start / PAGE_SIZE + i)
      requires SgBytes(sgl[..i]) == Mapped(pageTable, start, i * PAGE_SIZE - start % PAGE_SIZE)
      modifies sgl
      ensures sgl[..i] == old(sgl[..i]) && sgl[i].offset == 0 && sgl[i].length == length
      ensures SgBytes(sgl[..i + 1]) == Mapped(pageTable, start, i * PAGE_SIZE - start % PAGE_SIZE + length)
    {
      var done := i * PAGE_SIZE - start % PAGE_SIZE;
      sgl[i] := SgEntry(pages[i], 0, length);
      assert sgl[..i] == old(sgl[..i]);
      assert sgl[..i + 1] == sgl[..i] + [sgl[i]];
      SgBytesAppend(sgl[..i], sgl[i]);
      assert (start + done) / PAGE_SIZE == start / PAGE_SIZE + i && (start + done) % PAGE_SIZE == 0;
      OnePage(pageTable, start + done, length);
      MappedAppend(pageTable, start, done, length);
    }
  }
}
