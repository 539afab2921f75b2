/** Describing the target's address space: region queries and the list of dirty pages. */
module MemoryMap {
  import opened MachTypes
  import opened Paging
  import opened PageMap
  import opened TargetVM
  import opened MachVMRegions

  // ---- dirty pages ----

  /** MAX_STACK_ALLOC_DISPOSITIONS: the most pages asked about in one query. */
  const MAX_DISPOSITIONS: nat := 4096

  /** One pass over pages [p, p + k): the start addresses of the dirty ones. */
  function DirtyIn(task: Target, p: nat, k: nat): seq<nat> {
    if k == 0 then []
    else DirtyIn(task, p, k - 1) + if task.Dirty(p + k - 1) then [PageStart(p + k - 1, task.pageSize)] else []
  }

  /** Of `k` pages from `p`, the number in the chunks before the first chunk whose query fails, from chunk start `done`
      on. */
  function Answered(task: Target, p: nat, done: nat, k: nat): nat
    decreases k - done
  {
    if done >= k then k
    else if p + done in task.queryRefused then done
    else Answered(task, p, done + MAX_DISPOSITIONS, k)
  }

  /** A page is dirty when the kernel's word for it has bit 3. */
  lemma DirtyExactly(task: Target, p: nat)
    ensures task.Dirty(p) <==> p in task.disposition && task.disposition[p] & 0x8 != 0
  {
  }

  /** When not every page is answered for, the first chunk of 4096 pages whose query fails is where the answers end. */
  lemma {:induction false} AnsweredUpTo(task: Target, p: nat, done: nat, k: nat)
    requires Answered(task, p, done, k) < k
    ensures exists c: nat :: FirstFailing(task, p, done, k, c) && Answered(task, p, done, k) == done + ChunkStart(c)
    decreases k - done
  {
    if p + done in task.queryRefused {
      assert FirstFailing(task, p, done, k, 0);
    } else {
      AnsweredUpTo(task, p, done + MAX_DISPOSITIONS, k);
      var c: nat :| FirstFailing(task, p, done + MAX_DISPOSITIONS, k, c) &&
                    Answered(task, p, done + MAX_DISPOSITIONS, k) == done + MAX_DISPOSITIONS + ChunkStart(c);
      forall b: nat | b < c + 1 ensures p + done + ChunkStart(b) !in task.queryRefused {
        assert b > 0 ==> done + ChunkStart(b) == done + MAX_DISPOSITIONS + ChunkStart(b - 1);
      }
      assert FirstFailing(task, p, done, k, c + 1);
    }
  }

  /** Of the chunks from page `p + done` on, number `c` is the first whose query fails. */
  ghost predicate FirstFailing(task: Target, p: nat, done: nat, k: nat, c: nat) {
    && done + ChunkStart(c) < k && p + done + ChunkStart(c) in task.queryRefused
    && forall b: nat | b < c :: p + done + ChunkStart(b) !in task.queryRefused
  }

  lemma ChunkExactly(c: nat)
    ensures ChunkStart(c) == 4096 * c
  {
  }

  lemma {:induction false} DirtyJoin(task: Target, p: nat, k: nat, j: nat)
    ensures DirtyIn(task, p, k + j) == DirtyIn(task, p, k) + DirtyIn(task, p + k, j)
  {
    if j > 0 { DirtyJoin(task, p, k, j - 1); }
  }

  /** `x` is the start of a dirty page among [p, p + k). */
  ghost predicate DirtyStart(task: Target, p: nat, k: nat, x: nat) {
    exists q: nat :: p <= q < p + k && task.Dirty(q) && x == PageStart(q, task.pageSize)
  }

  ghost predicate Increasing(s: seq<nat>) {
    forall i, j | 0 <= i < j < |s| :: s[i] < s[j]
  }

  lemma IncreasingAppend(s: seq<nat>, x: nat)
    requires Increasing(s) && forall y | y in s :: y < x
    ensures Increasing(s + [x])
  {
    assert forall i | 0 <= i < |s| :: s[i] in s;
  }

  lemma {:induction false} DirtyBelow(task: Target, p: nat, k: nat)
    requires task.pageSize > 0
    ensures forall x | x in DirtyIn(task, p, k) :: x < PageStart(p + k, task.pageSize)
  {
    if k > 0 {
      DirtyBelow(task, p, k - 1);
      StartMono(p + k - 1, p + k, task.pageSize);
    }
  }

  /** The one-pass list is strictly increasing and holds exactly the starts of the dirty pages. */
  lemma {:induction false} DirtyInExact(task: Target, p: nat, k: nat)
    requires task.pageSize > 0
    ensures var d := DirtyIn(task, p, k);
            && Increasing(d)
            && (forall x :: x in d <==> DirtyStart(task, p, k, x))
  {
    if k > 0 {
      DirtyInExact(task, p, k - 1);
      var d, rest, last := DirtyIn(task, p, k), DirtyIn(task, p, k - 1), p + k - 1;
      DirtyBelow(task, p, k - 1);
      if task.Dirty(last) {
        IncreasingAppend(rest, PageStart(last, task.pageSize));
      }
      forall x ensures x in d <==> DirtyStart(task, p, k, x) {
        assert x in d <==> x in rest || (task.Dirty(last) && x == PageStart(last, task.pageSize));
        if DirtyStart(task, p, k, x) {
          var q: nat :| p <= q < p + k && task.Dirty(q) && x == PageStart(q, task.pageSize);
          assert q < p + (k - 1) ==> DirtyStart(task, p, k - 1, x);
        }
        if x in rest {
          assert DirtyStart(task, p, k - 1, x);
          var q: nat :| p <= q < p + (k - 1) && task.Dirty(q) && x == PageStart(q, task.pageSize);
          assert p <= q < p + k;
        }
      }
    }
  }

  /** Every page is answered for exactly when no chunk's query fails. */
  lemma {:induction false} AnsweredAll(task: Target, p: nat, done: nat, k: nat)
    requires done <= k
    ensures done <= Answered(task, p, done, k) <= k
    ensures Answered(task, p, done, k) == k <==>
            forall c: nat | done + ChunkStart(c) < k :: p + done + ChunkStart(c) !in task.queryRefused
    decreases k - done
  {
    var next := done + MAX_DISPOSITIONS;
    if done < k && p + done in task.queryRefused {
      assert done + ChunkStart(0) < k && p + done + ChunkStart(0) in task.queryRefused;
    } else if next < k {
      AnsweredAll(task, p, next, k);
      forall c: nat | done + ChunkStart(c) < k && Answered(task, p, done, k) == k
        ensures p + done + ChunkStart(c) !in task.queryRefused
      {
        assert c > 0 ==> done + ChunkStart(c) == next + ChunkStart(c - 1);
      }
      if forall c: nat | done + ChunkStart(c) < k :: p + done + ChunkStart(c) !in task.queryRefused {
        forall c: nat | next + ChunkStart(c) < k ensures p + next + ChunkStart(c) !in task.queryRefused {
          assert next + ChunkStart(c) == done + ChunkStart(c + 1);
        }
      }
    } else {
      assert forall c: nat | c > 0 :: done + ChunkStart(c) >= k;
    }
  }

  /** The pages in the chunks before chunk `c`. */
  function ChunkStart(c: nat): nat {
    c * MAX_DISPOSITIONS
  }

  /** The dirty pages of one answered chunk, appended to those before it. */
  method PushDirty(task: Target, found: seq<nat>, ghost p: nat, chunkAddr: nat, dispositions: array<bv32>, count: nat)
    returns (dirtyPages: seq<nat>)
    requires chunkAddr == PageStart(p, task.pageSize) && count <= dispositions.Length
    requires forall j | 0 <= j < count :: dispositions[j] == task.Disposition(p + j)
    ensures dirtyPages == found + DirtyIn(task, p, count)
  {
    hide PageStart;
    dirtyPages := found;
    var i := 0;
    while i < count
      invariant i <= count
      invariant dirtyPages == found + DirtyIn(task, p, i)
    {
      StartAdd(p, i, task.pageSize);
      var dirtyAddr := chunkAddr + PageStart(i, task.pageSize);
      if dispositions[i] & VM_PAGE_QUERY_PAGE_DIRTY != 0 {
        dirtyPages := dirtyPages + [dirtyAddr];
      }
      i := i + 1;
    }
  }

  /** The chunked queries list what one pass over the answered pages lists. The page count is a 32-bit int, and None
      stands for the undefined outcome of reserving an array of a negative count. */
  method GetDirtyPages(task: Target, addr: nat, size: nat) returns (result: Option<seq<nat>>)
    requires task.Valid() && Aligned(addr, task.pageSize) && addr + size < TWO_64
    ensures var p, k := PageOf(addr, task.pageSize), Int32(size / task.pageSize);
            result == if k < 0 then None else Some(DirtyIn(task, p, Answered(task, p, 0, k)))
  {
    hide PageOf, PageStart, PagesValid;
    var dirtyPages := [];
    var ps := task.pageSize;
    var pagesToQuery := Int32(size / ps);
    if pagesToQuery < 0 {
      return None;
    }
    var dispositionsSize := Min(pagesToQuery, MAX_DISPOSITIONS);
    var dispositions := new bv32[dispositionsSize];
    var chunkCount := (pagesToQuery + MAX_DISPOSITIONS - 1) / MAX_DISPOSITIONS;
    ghost var p := PageOf(addr, ps);
    var chunk := 0;
    while chunk < chunkCount
      invariant chunk <= chunkCount && (chunk < chunkCount ==> ChunkStart(chunk) < pagesToQuery)
      invariant Answered(task, p, 0, pagesToQuery) == Answered(task, p, ChunkStart(chunk), pagesToQuery)
      invariant dirtyPages == DirtyIn(task, p, Min(ChunkStart(chunk), pagesToQuery))
    {
      var alreadyQueried := chunk * MAX_DISPOSITIONS;
      var chunkPages := Min(pagesToQuery - alreadyQueried, dispositionsSize);
      var chunkAddr := addr + PageStart(alreadyQueried, ps);
      PagesInSpan(chunkPages, ps);
      StartAdd(p, alreadyQueried, ps);
      StartIsAligned(p + alreadyQueried, ps);
      var kr, count := task.PageRangeQuery(chunkAddr, PageStart(chunkPages, ps), dispositions);
      if kr != KERN_SUCCESS {
        return Some(dirtyPages);
      }
      dirtyPages := PushDirty(task, dirtyPages, p + alreadyQueried, chunkAddr, dispositions, count);
      DirtyJoin(task, p, alreadyQueried, count);
      chunk := chunk + 1;
    }
    return Some(dirtyPages);
  }

  /** How many pages the list covers: all of a region under 2^31 pages, but only the low 32 bits of the count of a
      larger one whose low 32 bits read as a positive int. */
  lemma PagesCovered(k: nat, ps: nat)
    requires ps > 0
    ensures Int32(PageStart(k, ps) / ps) == k <==> k < 0x8000_0000
    ensures -0x8000_0000 <= Int32(PageStart(k, ps) / ps) < 0x8000_0000
    ensures (k - Int32(PageStart(k, ps) / ps)) % 0x1_0000_0000 == 0
  {
    hide Int32, PageStart;
    PagesInSpan(k, ps);
    Int32Exactly(k);
  }

  // ---- region queries ----

  const PERMISSION_WRITABLE: nat := 1
  const PERMISSION_READABLE: nat := 2
  const PERMISSION_EXECUTABLE: nat := 4

  function Permissions(p: Prot): nat {
    (if p.read then PERMISSION_READABLE else 0) + (if p.write then PERMISSION_WRITABLE else 0)
    + (if p.exec then PERMISSION_EXECUTABLE else 0)
  }

  /** The permissions bit by bit: 1 to write, 2 to read, 4 to execute. */
  lemma PermissionBits(p: Prot)
    ensures 0 <= Permissions(p) < 8
    ensures Permissions(p) % 2 == 1 <==> p.write
    ensures Permissions(p) / 2 % 2 == 1 <==> p.read
    ensures Permissions(p) / 4 == 1 <==> p.exec
  {
  }

  datatype Range = Range(addr: nat, size: nat, permissions: nat)

  /** What a query at `a` reports: the region of `a`, else the gap from `a` to the next region, else all that is
      left. */
  function RangeAt(pages: Pages, limit: nat, ps: nat, a: nat): Range
    requires ps > 0 && a < TWO_64 && PageStart(limit, ps) < TWO_64
  {
    var r := RegionFrom(pages, limit, PageOf(a, ps));
    if r.None? then Range(a, INVALID_ADDRESS - a, 0)
    else if r.value.first <= PageOf(a, ps) then
      Range(PageStart(r.value.first, ps), PageStart(r.value.end - r.value.first, ps), Permissions(r.value.prot))
    else
      PageSpan(a, r.value.first, r.value.end, limit, ps);
      Range(a, PageStart(r.value.first, ps) - a, 0)
  }

  method GetDNBPermissions(vmRegion: MachVMRegion) returns (permissions: nat)
    ensures permissions ==
            if vmRegion.addr == INVALID_ADDRESS || vmRegion.start == INVALID_ADDRESS || vmRegion.size == 0 then 0
            else Permissions(vmRegion.protection)
  {
    if vmRegion.addr == INVALID_ADDRESS || vmRegion.start == INVALID_ADDRESS || vmRegion.size == 0 {
      return 0;
    }
    permissions := 0;
    if vmRegion.protection.read {
      permissions := permissions + PERMISSION_READABLE;
    }
    if vmRegion.protection.write {
      permissions := permissions + PERMISSION_WRITABLE;
    }
    if vmRegion.protection.exec {
      permissions := permissions + PERMISSION_EXECUTABLE;
    }
  }

  /** Reports the region of the address with its dirty pages, or the gap it is in; for the dirty pages None stands for
      the same undefined outcome. */
  method GetMemoryRegionInfo(task: Target, address: nat) returns (info: Range, dirtyPages: Option<seq<nat>>)
    requires task.Valid() && address < TWO_64
    modifies task`pages
    ensures task.Valid() && task.pages == old(task.pages)
    ensures info == RangeAt(task.pages, task.pageLimit, task.pageSize, address)
    ensures Mapped(task.pages, task.pageSize, address) ==>
              var r := RegionFrom(task.pages, task.pageLimit, PageOf(address, task.pageSize)).value;
              var k := Int32(r.end - r.first);
              dirtyPages == if k < 0 then None else Some(DirtyIn(task, r.first, Answered(task, r.first, 0, k)))
    ensures !Mapped(task.pages, task.pageSize, address) ==> dirtyPages == Some([])
  {
    hide PageOf, PageStart, RegionFrom, PagesValid, Recorded, DirtyIn, Answered, SetProt;
    var vmRegion := new MachVMRegion(task);
    LookupFacts(task.pages, task.pageLimit, PageOf(address, task.pageSize), task.pageSize);
    var found := vmRegion.GetRegionForAddress(address);
    if found {
      PageSpan(address, vmRegion.first, vmRegion.end, task.pageLimit, task.pageSize);
      StartIsAligned(vmRegion.first, task.pageSize);
      PagesInSpan(vmRegion.end - vmRegion.first, task.pageSize);
      var permissions := GetDNBPermissions(vmRegion);
      info := Range(vmRegion.StartAddress(), vmRegion.size, permissions);
      dirtyPages := GetDirtyPages(task, vmRegion.StartAddress(), vmRegion.size);
    } else {
      var size := 0;
      if vmRegion.err == KERN_SUCCESS {
        var startAddr := vmRegion.StartAddress();
        if address < startAddr {
          size := startAddr - address;
        }
      }
      if size == 0 {
        size := INVALID_ADDRESS - address;
      }
      info, dirtyPages := Range(address, size, 0), Some([]);
    }
    vmRegion.Destroy();
  }

  /** Every dirty page reported for a region lies inside the region's range. */
  lemma DirtyInsideRegion(task: Target, a: nat)
    requires task.Valid() && Mapped(task.pages, task.pageSize, a) && a < TWO_64
    ensures var r, range := RegionFrom(task.pages, task.pageLimit, PageOf(a, task.pageSize)).value,
                            RangeAt(task.pages, task.pageLimit, task.pageSize, a);
            forall k: nat, x | k <= r.end - r.first && x in DirtyIn(task, r.first, k) ::
              range.addr <= x && x + task.pageSize <= range.addr + range.size
  {
    hide PageOf, PageStart, RegionFrom, DirtyIn;
    var ps := task.pageSize;
    LookupFacts(task.pages, task.pageLimit, PageOf(a, ps), ps);
    var r := RegionFrom(task.pages, task.pageLimit, PageOf(a, ps)).value;
    var range := RangeAt(task.pages, task.pageLimit, ps, a);
    PageSpan(a, r.first, r.end, task.pageLimit, ps);
    forall k: nat, x | k <= r.end - r.first && x in DirtyIn(task, r.first, k)
      ensures range.addr <= x && x + ps <= range.addr + range.size
    {
      DirtyInExact(task, r.first, k);
      assert DirtyStart(task, r.first, k, x);
      var q: nat :| r.first <= q < r.first + k && x == PageStart(q, ps);
      StartMono(r.first, q, ps);
      StartMono(q, r.end, ps);
    }
  }

  /** What is reported for a mapped address is its whole region: every page like its own around it, and no other. */
  lemma RangeIsRegion(pages: Pages, limit: nat, ps: nat, a: nat)
    requires ps > 0 && PagesValid(pages, limit) && PageStart(limit, ps) < TWO_64 && a < TWO_64 && Mapped(pages, ps, a)
    ensures var r, pg := RangeAt(pages, limit, ps, a), pages[PageOf(a, ps)];
            && r.addr <= a < r.addr + r.size
            && (forall b: nat | r.addr <= b < r.addr + r.size :: Mapped(pages, ps, b) && pages[PageOf(b, ps)] == pg)
            && (r.addr > 0 && Mapped(pages, ps, r.addr - 1) ==> pages[PageOf(r.addr - 1, ps)] != pg)
            && (Mapped(pages, ps, r.addr + r.size) ==> pages[PageOf(r.addr + r.size, ps)] != pg)
  {
    hide PageOf, PageStart, RegionFrom, Permissions;
    var p := PageOf(a, ps);
    RegionOfMapped(pages, limit, p);
    var s, e := RunStart(pages, p), RunEnd(pages, limit, p);
    var r := RangeAt(pages, limit, ps, a);
    PageSpan(a, s, e, limit, ps);
    StartIsAligned(s, ps);
    StartIsAligned(e, ps);
    forall b: nat | r.addr <= b < r.addr + r.size ensures Mapped(pages, ps, b) && pages[PageOf(b, ps)] == pages[p] {
      PageSpan(b, s, e, limit, ps);
    }
    if s > 0 { PageBefore(s, ps); }
  }

  /** What is reported for an address that is not mapped is the rest of its gap, without permissions: up to the next
      mapped byte or the end of the address space. */
  lemma RangeIsGap(pages: Pages, limit: nat, ps: nat, a: nat)
    requires ps > 0 && PagesValid(pages, limit) && PageStart(limit, ps) < TWO_64 && a < TWO_64 && !Mapped(pages, ps, a)
    ensures var r := RangeAt(pages, limit, ps, a);
            && r.addr == a && r.permissions == 0
            && (forall b: nat | a <= b < a + r.size :: !Mapped(pages, ps, b))
            && (Mapped(pages, ps, a + r.size) || a + r.size == 0xFFFF_FFFF_FFFF_FFFF)
  {
    hide PageOf, PageStart, Permissions, RunStart, RunEnd;
    var p := PageOf(a, ps);
    var q := if p <= limit then NextMapped(pages, limit, p) else p;
    var r := RangeAt(pages, limit, ps, a);
    if RegionFrom(pages, limit, p).Some? {
      var found := RegionFrom(pages, limit, p).value;
      StartsRegion(pages, limit, p);
      PageSpan(a, found.first, found.end, limit, ps);
      StartIsAligned(found.first, ps);
      forall b: nat | a <= b < a + r.size ensures !Mapped(pages, ps, b) {
        PageMono(a, b, ps);
        PageSpan(b, found.first, found.end, limit, ps);
      }
    } else {
      forall b: nat | a <= b < a + r.size ensures !Mapped(pages, ps, b) {
        PageMono(a, b, ps);
      }
    }
  }

  /** A region found above an unmapped page begins at the next mapped one. */
  lemma StartsRegion(pages: Pages, limit: nat, p: nat)
    requires p !in pages && RegionFrom(pages, limit, p).Some?
    ensures var r := RegionFrom(pages, limit, p).value;
            p < r.first < r.end && r.first in pages && forall q | p <= q < r.first :: q !in pages
  {
    var n := NextMapped(pages, limit, p);
    assert RunStart(pages, n) <= n && !(RunStart(pages, n) <= p <= n);
  }

  lemma PageBefore(s: nat, ps: nat)
    requires ps > 0 && s > 0
    ensures PageStart(s, ps) > 0 && PageOf(PageStart(s, ps) - 1, ps) == s - 1
  {
    var x := PageStart(s, ps) - 1;
    BelowPage(x, s, ps);
    BelowPage(x, s - 1, ps);
  }

  // ---- walking the address space ----

  /** All pages of a region give the same answer. */
  lemma {:induction false} SameRegion(pages: Pages, limit: nat, p: nat, q: nat)
    requires p in pages && p <= q < limit
    requires forall r | p <= r <= q :: r in pages && pages[r] == pages[p]
    ensures RunStart(pages, p) == RunStart(pages, q) && RunEnd(pages, limit, p) == RunEnd(pages, limit, q)
    decreases q - p
  {
    if p < q { SameRegion(pages, limit, p + 1, q); }
  }

  lemma {:induction false} NextMappedInside(pages: Pages, limit: nat, p: nat, q: nat)
    requires p <= limit && p <= q <= NextMapped(pages, limit, p)
    ensures NextMapped(pages, limit, q) == NextMapped(pages, limit, p)
    decreases q - p
  {
    if p < q { NextMappedInside(pages, limit, p + 1, q); }
  }

  /** Up to the end of the region it finds, a lookup finds the same region from every page. */
  lemma RegionFromInside(pages: Pages, limit: nat, p: nat, q: nat)
    requires RegionFrom(pages, limit, p).Some? && p <= q < RegionFrom(pages, limit, p).value.end
    ensures RegionFrom(pages, limit, q) == RegionFrom(pages, limit, p)
  {
    hide RunStart, RunEnd;
    var n := NextMapped(pages, limit, p);
    if q <= n {
      NextMappedInside(pages, limit, p, q);
    } else {
      assert forall r | n <= r <= q :: r in pages && pages[r] == pages[n];
      SameRegion(pages, limit, n, q);
    }
  }

  /** A region found at or above `p` starts at `p`'s own region, or at its own first page; the page after it starts
      afresh. */
  lemma RegionEdges(pages: Pages, limit: nat, p: nat)
    requires RegionFrom(pages, limit, p).Some?
    ensures var r := RegionFrom(pages, limit, p).value;
            && (r.first > p ==> r.first in pages && RunStart(pages, r.first) == r.first)
            && (r.end in pages && r.end < limit ==> RunStart(pages, r.end) == r.end)
            && (p in pages ==> r.first == RunStart(pages, p))
  {
  }

  /** The walk may stand at `a`: the end of the address space, or a page start that is not inside a region. */
  ghost predicate Boundary(pages: Pages, limit: nat, ps: nat, a: nat)
    requires ps > 0
  {
    a == INVALID_ADDRESS ||
    (a < INVALID_ADDRESS && Aligned(a, ps) &&
     (PageOf(a, ps) in pages ==> RunStart(pages, PageOf(a, ps)) == PageOf(a, ps)))
  }

  /** Byte `b` is mapped with the range's permissions, and a query at it gives this very range. */
  ghost predicate InRegion(pages: Pages, limit: nat, ps: nat, r: Range, b: nat)
    requires ps > 0 && PageStart(limit, ps) < TWO_64 && b < TWO_64
  {
    Mapped(pages, ps, b) && Permissions(pages[PageOf(b, ps)].prot) == r.permissions && RangeAt(pages, limit, ps, b) == r
  }

  /** Byte `b` is not mapped, the range gives no permission, and a query at it gives the rest of the range. */
  ghost predicate InGap(pages: Pages, limit: nat, ps: nat, r: Range, b: nat)
    requires ps > 0 && PageStart(limit, ps) < TWO_64 && b < TWO_64
  {
    !Mapped(pages, ps, b) && r.permissions == 0 && RangeAt(pages, limit, ps, b).permissions == 0 &&
    RangeAt(pages, limit, ps, b).addr == b && b + RangeAt(pages, limit, ps, b).size == r.addr + r.size
  }

  /** A range is a whole region, or a gap. */
  ghost predicate Describes(pages: Pages, limit: nat, ps: nat, r: Range)
    requires ps > 0 && PageStart(limit, ps) < TWO_64
  {
    && r.size > 0 && r.addr + r.size <= INVALID_ADDRESS
    && ((forall b: nat | r.addr <= b < r.addr + r.size :: InRegion(pages, limit, ps, r, b))
        || (forall b: nat | r.addr <= b < r.addr + r.size :: InGap(pages, limit, ps, r, b)))
  }

  /** A page start that is not inside a region is a boundary. */
  lemma PageIsBoundary(pages: Pages, limit: nat, ps: nat, q: nat)
    requires ps > 0 && q <= limit && PagesValid(pages, limit) && PageStart(limit, ps) < TWO_64
    requires q in pages ==> RunStart(pages, q) == q
    ensures PageStart(q, ps) <= INVALID_ADDRESS && Boundary(pages, limit, ps, PageStart(q, ps))
  {
    hide PageOf, PageStart, RunStart, PagesValid;
    StartMono(q, limit, ps);
    StartIsAligned(q, ps);
  }

  lemma BoundaryStarts(pages: Pages, limit: nat, ps: nat, a: nat)
    requires ps > 0 && Boundary(pages, limit, ps, a) && a < INVALID_ADDRESS
    ensures a == PageStart(PageOf(a, ps), ps)
    ensures PageOf(a, ps) in pages ==> RunStart(pages, PageOf(a, ps)) == PageOf(a, ps)
  {
    hide PageOf, PageStart, RunStart;
  }

  /** From a boundary, a query's range starts there and ends at a later boundary. */
  lemma StepToBoundary(pages: Pages, limit: nat, ps: nat, a: nat)
    requires ps > 0 && PagesValid(pages, limit) && PageStart(limit, ps) < TWO_64
    requires Boundary(pages, limit, ps, a) && a < INVALID_ADDRESS
    ensures var r := RangeAt(pages, limit, ps, a);
            r.addr == a && r.size > 0 && a + r.size <= INVALID_ADDRESS && Boundary(pages, limit, ps, a + r.size)
  {
    hide PageOf, PageStart, RegionFrom, RunStart, Permissions, Boundary, PagesValid;
    var p := PageOf(a, ps);
    var found := RegionFrom(pages, limit, p);
    LookupFacts(pages, limit, p, ps);
    BoundaryStarts(pages, limit, ps, a);
    if found.Some? {
      var first, end := found.value.first, found.value.end;
      PageSpan(a, first, end, limit, ps);
      RegionEdges(pages, limit, p);
      BelowLimit(pages, limit, end);
      if p in pages {
        PageIsBoundary(pages, limit, ps, end);
      } else {
        PageIsBoundary(pages, limit, ps, first);
      }
    } else {
      EndIsBoundary(pages, limit, ps);
    }
  }

  lemma BelowLimit(pages: Pages, limit: nat, q: nat)
    requires PagesValid(pages, limit)
    ensures q in pages ==> q < limit
  {
  }

  lemma EndIsBoundary(pages: Pages, limit: nat, ps: nat)
    requires ps > 0
    ensures Boundary(pages, limit, ps, INVALID_ADDRESS)
  {
  }

  /** Every byte of a range gives an answer that agrees with it. */
  lemma ByteAgrees(pages: Pages, limit: nat, ps: nat, a: nat, b: nat)
    requires ps > 0 && PagesValid(pages, limit) && PageStart(limit, ps) < TWO_64
    requires a <= b < TWO_64
    requires var r := RangeAt(pages, limit, ps, a);
             r.addr == a && b < a + r.size
    ensures var r := RangeAt(pages, limit, ps, a);
            if PageOf(a, ps) in pages then InRegion(pages, limit, ps, r, b) else InGap(pages, limit, ps, r, b)
  {
    hide PageOf, PageStart, RegionFrom, RunStart, RunEnd, NextMapped, PagesValid, Permissions;
    var p, q := PageOf(a, ps), PageOf(b, ps);
    var found := RegionFrom(pages, limit, p);
    PageMono(a, b, ps);
    LookupFacts(pages, limit, p, ps);
    LookupFacts(pages, limit, q, ps);
    if found.Some? {
      PageSpan(a, found.value.first, found.value.end, limit, ps);
      PageSpan(b, found.value.first, found.value.end, limit, ps);
      RegionFromInside(pages, limit, p, q);
    }
  }

  /** From a boundary, a query describes its range truly, and every byte of the range agrees. */
  lemma StepDescribes(pages: Pages, limit: nat, ps: nat, a: nat)
    requires ps > 0 && PagesValid(pages, limit) && PageStart(limit, ps) < TWO_64
    requires Boundary(pages, limit, ps, a) && a < INVALID_ADDRESS
    ensures Describes(pages, limit, ps, RangeAt(pages, limit, ps, a))
  {
    hide PageOf, PageStart, PagesValid, Boundary, RangeAt, InRegion, InGap;
    var r := RangeAt(pages, limit, ps, a);
    StepToBoundary(pages, limit, ps, a);
    forall b: nat | a <= b < a + r.size
      ensures if PageOf(a, ps) in pages then InRegion(pages, limit, ps, r, b) else InGap(pages, limit, ps, r, b)
    {
      ByteAgrees(pages, limit, ps, a, b);
    }
  }

  /** The ranges met by asking at `a`, then at the end of each answer. */
  function Walk(pages: Pages, limit: nat, ps: nat, a: nat): seq<Range>
    requires ps > 0 && PagesValid(pages, limit) && PageStart(limit, ps) < TWO_64
    requires Boundary(pages, limit, ps, a)
    decreases INVALID_ADDRESS - a
  {
    if a == INVALID_ADDRESS then []
    else
      StepToBoundary(pages, limit, ps, a);
      var r := RangeAt(pages, limit, ps, a);
      [r] + Walk(pages, limit, ps, r.addr + r.size)
  }

  lemma ZeroIsBoundary(pages: Pages, limit: nat, ps: nat)
    requires ps > 0
    ensures Boundary(pages, limit, ps, 0)
  {
  }

  /** The walk tiles [a, 2^64 - 1): ranges follow one another without gap or overlap up to the invalid address, and each
      describes its bytes. */
  lemma {:induction false} WalkTiles(pages: Pages, limit: nat, ps: nat, a: nat)
    requires ps > 0 && PagesValid(pages, limit) && PageStart(limit, ps) < TWO_64
    requires Boundary(pages, limit, ps, a)
    ensures var w := Walk(pages, limit, ps, a);
            && (forall i | 0 <= i < |w| :: Describes(pages, limit, ps, w[i]))
            && (forall i | 0 < i < |w| :: w[i].addr == w[i - 1].addr + w[i - 1].size)
            && (a < INVALID_ADDRESS ==>
                  w != [] && w[0].addr == a && w[|w| - 1].addr + w[|w| - 1].size == INVALID_ADDRESS)
    decreases INVALID_ADDRESS - a
  {
    hide RangeAt, Describes, PageOf, PageStart, RunStart;
    if a < INVALID_ADDRESS {
      StepToBoundary(pages, limit, ps, a);
      StepDescribes(pages, limit, ps, a);
      var r := RangeAt(pages, limit, ps, a);
      var w, rest := Walk(pages, limit, ps, a), Walk(pages, limit, ps, a + r.size);
      WalkTiles(pages, limit, ps, a + r.size);
      assert w == [r] + rest;
      assert forall i | 0 < i < |w| :: w[i] == rest[i - 1];
      assert a + r.size == INVALID_ADDRESS ==> rest == [];
    }
  }

  ghost predicate InSome(w: seq<Range>, b: nat) {
    exists i :: 0 <= i < |w| && w[i].addr <= b < w[i].addr + w[i].size
  }

  /** Ranges that follow one another leave no byte between their ends out, and share none. */
  lemma {:induction false} ChainCovers(w: seq<Range>, b: nat)
    requires w != [] && forall i | 0 < i < |w| :: w[i].addr == w[i - 1].addr + w[i - 1].size
    ensures w[0].addr <= b < w[|w| - 1].addr + w[|w| - 1].size ==> InSome(w, b)
    ensures forall i | 0 <= i < |w| :: w[i].addr + w[i].size <= w[|w| - 1].addr + w[|w| - 1].size
    ensures forall i, j | 0 <= i < j < |w| :: w[i].addr + w[i].size <= w[j].addr
    decreases |w|
  {
    var n := |w| - 1;
    if n > 0 {
      ChainCovers(w[..n], b);
      if w[0].addr <= b < w[n].addr {
        var i :| 0 <= i < n && w[..n][i].addr <= b < w[..n][i].addr + w[..n][i].size;
        assert w[i] == w[..n][i];
      }
      assert forall i | 0 <= i < n :: w[i] == w[..n][i];
    }
  }

  /** The walk from zero: every address below the invalid one lies in exactly one of its ranges, and that range is the
      whole region of the address, or the gap it is in. */
  lemma WalkFromZero(pages: Pages, limit: nat, ps: nat)
    requires ps > 0 && PagesValid(pages, limit) && PageStart(limit, ps) < TWO_64
    ensures Boundary(pages, limit, ps, 0)
    ensures var w := Walk(pages, limit, ps, 0);
            && (forall i | 0 <= i < |w| :: Describes(pages, limit, ps, w[i]))
            && (forall b: nat | b < 0xFFFF_FFFF_FFFF_FFFF :: InSome(w, b))
            && (forall i, j | 0 <= i < j < |w| :: w[i].addr + w[i].size <= w[j].addr)
  {
    hide Walk, Describes, PageStart, PagesValid;
    ZeroIsBoundary(pages, limit, ps);
    WalkTiles(pages, limit, ps, 0);
    var w := Walk(pages, limit, ps, 0);
    forall b: nat | b < INVALID_ADDRESS ensures InSome(w, b) {
      ChainCovers(w, b);
    }
    ChainCovers(w, 0);
  }
}
