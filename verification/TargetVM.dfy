/** The kernel's side of a debuggee: its address space and the Mach calls the debugger makes on it.
    Each call's contract is all the debugger's classes know about it. */
module TargetVM {
  import opened MachTypes
  import opened Paging
  import opened PageMap

  const VM_PAGE_QUERY_PAGE_DIRTY: bv32 := 0x8

  /** A memory request the debugger issued; a write keeps the protection its first page had then. */
  datatype Request = ReadRequest(addr: nat, size: nat) | WriteRequest(addr: nat, size: nat, prot: Prot)

  class Target {
    const pageSize: nat
    const pageLimit: nat                // pages are numbered below this; none ends at 2^64
    const taskInfoAnswers: bool         // task_info(TASK_VM_INFO) succeeds
    const hostPageSize: Option<nat>     // host_page_size, None when it fails
    const flushRefused: set<nat>        // pages on which a cache flush fails
    const disposition: map<nat, bv32>   // mach_vm_page_range_query words
    const queryRefused: set<nat>        // a page range query starting at such a page fails

    var pages: Pages
    var mem: Memory
    ghost var requests: seq<Request>

    ghost predicate Valid()
      reads this
    {
      && 0 < pageSize < TWO_32
      && PageStart(pageLimit, pageSize) < TWO_64
      && PagesValid(pages, pageLimit)
    }

    constructor (pageSize: nat, pageLimit: nat, taskInfoAnswers: bool, hostPageSize: Option<nat>,
                 flushRefused: set<nat>, disposition: map<nat, bv32>, queryRefused: set<nat>, pages: Pages, mem: Memory)
      requires 0 < pageSize < TWO_32 && PageStart(pageLimit, pageSize) < TWO_64 && PagesValid(pages, pageLimit)
      ensures Valid() && this.pages == pages && this.mem == mem && requests == []
      ensures this.pageSize == pageSize && this.pageLimit == pageLimit
      ensures this.taskInfoAnswers == taskInfoAnswers && this.hostPageSize == hostPageSize
      ensures this.flushRefused == flushRefused && this.disposition == disposition && this.queryRefused == queryRefused
    {
      this.pageSize, this.pageLimit := pageSize, pageLimit;
      this.taskInfoAnswers, this.hostPageSize := taskInfoAnswers, hostPageSize;
      this.flushRefused, this.disposition, this.queryRefused := flushRefused, disposition, queryRefused;
      this.pages, this.mem, this.requests := pages, mem, [];
    }

    /** mach_vm_read: all the bytes when every page is readable and 32 bits hold their number, else an error. */
    method VmRead(addr: nat, size: nat) returns (kr: nat, bytes: seq<bv8>)
      requires Valid()
      modifies this`requests
      ensures kr == KERN_SUCCESS <==>
              size < TWO_32 && forall b: nat | addr <= b < addr + size :: Readable(pages, pageSize, b)
      ensures kr == KERN_SUCCESS ==> bytes == Bytes(mem, addr, size)
      ensures requests == old(requests) + [ReadRequest(addr, size)]
    {
      requests := requests + [ReadRequest(addr, size)];
      if size < TWO_32 && forall b: nat | addr <= b < addr + size :: Readable(pages, pageSize, b) {
        kr, bytes := KERN_SUCCESS, Bytes(mem, addr, size);
      } else {
        kr, bytes := KERN_PROTECTION_FAILURE, [];
      }
    }

    /** mach_vm_write: stores the bytes when every page is writable, else stores nothing. */
    method VmWrite(addr: nat, bytes: seq<bv8>) returns (kr: nat)
      requires Valid()
      modifies this`mem, this`requests
      ensures kr == KERN_SUCCESS <==> forall b: nat | addr <= b < addr + |bytes| :: Writable(pages, pageSize, b)
      ensures mem == if kr == KERN_SUCCESS then Poke(old(mem), addr, bytes) else old(mem)
      ensures requests == old(requests) + [WriteRequest(addr, |bytes|, ProtAt(addr))]
    {
      requests := requests + [WriteRequest(addr, |bytes|, ProtAt(addr))];
      if forall b: nat | addr <= b < addr + |bytes| :: Writable(pages, pageSize, b) {
        mem := Poke(mem, addr, bytes);
        kr := KERN_SUCCESS;
      } else {
        kr := KERN_PROTECTION_FAILURE;
      }
    }

    function ProtAt(a: nat): Prot
      requires pageSize > 0
      reads this`pages
    {
      if Mapped(pages, pageSize, a) then pages[PageOf(a, pageSize)].prot else NONE
    }

    /** vm_machine_attribute(MATTR_CACHE, MATTR_VAL_CACHE_FLUSH). */
    method FlushCache(addr: nat, size: nat) returns (kr: nat)
      requires Valid()
      ensures kr == KERN_SUCCESS <==> Flushable(addr, size)
    {
      kr := if Flushable(addr, size) then KERN_SUCCESS else KERN_FAILURE;
    }

    predicate Flushable(addr: nat, size: nat)
      requires pageSize > 0
    {
      forall b: nat | addr <= b < addr + size :: PageOf(b, pageSize) !in flushRefused
    }

    /** mach_vm_protect with set_maximum false: rounds outward to whole pages, and may split regions. */
    method VmProtect(addr: nat, size: nat, prot: Prot, copy: bool) returns (kr: nat)
      requires Valid()
      modifies this`pages
      ensures Valid()
      ensures var lo, hi := PageOf(addr, pageSize), PageUp(addr + size, pageSize);
              && (kr == KERN_SUCCESS <==> CanProtect(old(pages), lo, hi, prot, copy))
              && pages == if kr == KERN_SUCCESS then SetProt(old(pages), lo, hi, prot, copy) else old(pages)
    {
      var lo, hi := PageOf(addr, pageSize), PageUp(addr + size, pageSize);
      if CanProtect(pages, lo, hi, prot, copy) {
        pages := SetProt(pages, lo, hi, prot, copy);
        kr := KERN_SUCCESS;
      } else {
        kr := KERN_PROTECTION_FAILURE;
      }
    }

    /** mach_vm_region_recurse: the region holding `start`, else the next one above; fails past the last
        and then leaves its in-out arguments alone. */
    method RegionRecurse(start: nat, size: nat) returns (kr: nat, start': nat, size': nat, prot: Prot)
      requires Valid()
      ensures var r := RegionFrom(pages, pageLimit, PageOf(start, pageSize));
              && (kr == KERN_SUCCESS <==> r.Some?)
              && (r.Some? ==> start' == PageStart(r.value.first, pageSize)
                              && size' == PageStart(r.value.end - r.value.first, pageSize)
                              && prot == r.value.prot)
              && (r.None? ==> start' == start && size' == size && prot == NONE)
    {
      match RegionFrom(pages, pageLimit, PageOf(start, pageSize))
      case None => kr, start', size', prot := KERN_INVALID_ADDRESS, start, size, NONE;
      case Some(r) =>
        kr, start', prot := KERN_SUCCESS, PageStart(r.first, pageSize), r.prot;
        size' := PageStart(r.end - r.first, pageSize);
    }

    /** mach_vm_page_range_query: one disposition word for each page, or an error. */
    method PageRangeQuery(addr: nat, size: nat, dispositions: array<bv32>) returns (kr: nat, count: nat)
      requires Valid() && size / pageSize <= dispositions.Length
      modifies dispositions
      ensures kr == KERN_SUCCESS <==> PageOf(addr, pageSize) !in queryRefused
      ensures kr == KERN_SUCCESS ==> count == size / pageSize
      ensures kr == KERN_SUCCESS ==>
                forall i | 0 <= i < count :: dispositions[i] == Disposition(PageOf(addr, pageSize) + i)
    {
      count := size / pageSize;
      if PageOf(addr, pageSize) in queryRefused {
        return KERN_FAILURE, count;
      }
      for i := 0 to count
        invariant forall j | 0 <= j < i :: dispositions[j] == Disposition(PageOf(addr, pageSize) + j)
      {
        dispositions[i] := Disposition(PageOf(addr, pageSize) + i);
      }
      kr := KERN_SUCCESS;
    }

    function Disposition(p: nat): bv32 {
      if p in disposition then disposition[p] else 0
    }

    predicate Dirty(p: nat) {
      Disposition(p) & VM_PAGE_QUERY_PAGE_DIRTY != 0
    }
  }
}
