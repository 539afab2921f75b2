/** The target's address space as values: a map of pages with their protections, and the
    bytes in memory. A VM region is a maximal run of equal page records, so changing the
    protection of part of a region splits it, and putting it back joins it again. */
module PageMap {
  import opened MachTypes
  import opened Paging

  /** VM_PROT_READ, VM_PROT_WRITE and VM_PROT_EXECUTE. */
  datatype Prot = Prot(read: bool, write: bool, exec: bool)

  const NONE := Prot(false, false, false)
  const READ_WRITE := Prot(true, true, false)

  predicate Within(p: Prot, q: Prot) {
    (p.read ==> q.read) && (p.write ==> q.write) && (p.exec ==> q.exec)
  }

  function Join(p: Prot, q: Prot): Prot {
    Prot(p.read || q.read, p.write || q.write, p.exec || q.exec)
  }

  /** One mapped page. `entry` names the kernel's map entry, so that neighbouring mappings with
      the same protection can still be different regions; `max` is the most that a plain
      protection change may grant; `copyable` says VM_PROT_COPY may raise that limit. */
  datatype Page = Page(entry: nat, prot: Prot, max: Prot, copyable: bool)

  type Pages = map<nat, Page>
  type Memory = map<nat, bv8>

  // ---- regions ----

  /** The first page of the region of page `p`. */
  function RunStart(pages: Pages, p: nat): (s: nat)
    requires p in pages
    ensures s <= p && forall q | s <= q <= p :: q in pages && pages[q] == pages[p]
    ensures s > 0 && s - 1 in pages ==> pages[s - 1] != pages[p]
  {
    if p > 0 && p - 1 in pages && pages[p - 1] == pages[p] then RunStart(pages, p - 1) else p
  }

  /** One past the last page of the region of page `p`. */
  function RunEnd(pages: Pages, limit: nat, p: nat): (e: nat)
    requires p in pages && p < limit
    ensures p < e <= limit && forall q | p <= q < e :: q in pages && pages[q] == pages[p]
    ensures e < limit && e in pages ==> pages[e] != pages[p]
    decreases limit - p
  {
    if p + 1 < limit && p + 1 in pages && pages[p + 1] == pages[p] then RunEnd(pages, limit, p + 1) else p + 1
  }

  /** The first mapped page at or above `p`, or `limit` when there is none. */
  function NextMapped(pages: Pages, limit: nat, p: nat): (q: nat)
    requires p <= limit
    ensures p <= q <= limit && (q < limit ==> q in pages)
    ensures forall r | p <= r < q :: r !in pages
    decreases limit - p
  {
    if p == limit || p in pages then p else NextMapped(pages, limit, p + 1)
  }

  /** A VM region: pages [first, end) and their protection. */
  datatype Region = Region(first: nat, end: nat, prot: Prot)

  /** The region holding page `p`, else the next one above it. */
  function RegionFrom(pages: Pages, limit: nat, p: nat): (r: Option<Region>)
    ensures r.None? <==> forall q | p <= q < limit :: q !in pages
    ensures r.Some? ==> r.value.first < r.value.end <= limit
    ensures r.Some? ==> p < r.value.end && forall q | p <= q < r.value.first :: q !in pages
    ensures r.Some? ==> forall q | r.value.first <= q < r.value.end :: q in pages && pages[q].prot == r.value.prot
    ensures p < limit && p in pages ==> r.Some? && r.value.first <= p && r.value.prot == pages[p].prot
  {
    if p >= limit then None
    else
      var q := NextMapped(pages, limit, p);
      if q == limit then None
      else Some(Region(RunStart(pages, q), RunEnd(pages, limit, q), pages[q].prot))
  }

  /** All pages of a region share one record. */
  lemma RegionUniform(pages: Pages, limit: nat, p: nat)
    requires RegionFrom(pages, limit, p).Some?
    ensures var r := RegionFrom(pages, limit, p).value;
            forall q, q' | r.first <= q < r.end && r.first <= q' < r.end ::
              q in pages && q' in pages && pages[q] == pages[q']
  {
    var n := NextMapped(pages, limit, p);
    var r := RegionFrom(pages, limit, p).value;
    forall q | r.first <= q < r.end ensures q in pages && pages[q] == pages[n] {}
  }

  // ---- protection changes ----

  /** A protection change may be applied to pages [lo, hi). */
  predicate CanProtect(pages: Pages, lo: nat, hi: nat, prot: Prot, copy: bool) {
    forall p | lo <= p < hi :: p in pages && (Within(prot, pages[p].max) || (copy && pages[p].copyable))
  }

  /** A page given protection `prot`. Copying makes the new rights permanent in `max`. */
  function Granted(pg: Page, prot: Prot, copy: bool): Page {
    pg.(prot := prot, max := if copy then Join(pg.max, prot) else pg.max)
  }

  /** How a change can be had: plainly, by copying, or not at all. */
  function Grant(pages: Pages, lo: nat, hi: nat, prot: Prot): (copy: Option<bool>) {
    if CanProtect(pages, lo, hi, prot, false) then Some(false)
    else if CanProtect(pages, lo, hi, prot, true) then Some(true)
    else None
  }

  /** The pages after setting the protection of [lo, hi). */
  function SetProt(pages: Pages, lo: nat, hi: nat, prot: Prot, copy: bool): Pages {
    map p | p in pages :: if lo <= p < hi then Granted(pages[p], prot, copy) else pages[p]
  }

  ghost predicate PagesValid(pages: Pages, limit: nat) {
    forall p | p in pages :: p < limit && Within(pages[p].prot, pages[p].max)
  }

  /** `now` has the mappings and protections of `was`; only the limit of copyable pages may have grown. */
  ghost predicate SameProtections(was: Pages, now: Pages) {
    was.Keys == now.Keys && forall p | p in was :: SamePage(was[p], now[p])
  }

  predicate SamePage(was: Page, now: Page) {
    && now.prot == was.prot && now.entry == was.entry && now.copyable == was.copyable
    && (now.max == was.max || (was.copyable && Within(was.max, now.max)))
  }

  lemma SameProtectionsReflexive(a: Pages)
    ensures SameProtections(a, a)
  {
  }

  lemma SameProtectionsTransitive(a: Pages, b: Pages, c: Pages)
    requires SameProtections(a, b) && SameProtections(b, c)
    ensures SameProtections(a, c)
  {
    forall p | p in a ensures SamePage(a[p], c[p]) {
      assert p in b && p in c;
    }
  }

  /** Pages [first, end) have protection `was`, except those in [lo, hi), which have `now`; all of them could
      be given `was`. */
  ghost predicate Recorded(pages: Pages, first: nat, end: nat, lo: nat, hi: nat, was: Prot, now: Prot) {
    forall p | first <= p < end ::
      p in pages && Within(was, pages[p].max) && pages[p].prot == if lo <= p < hi then now else was
  }

  /** What a lookup says about its page, and that the region it gives has one protection throughout. */
  lemma LookupFacts(pages: Pages, limit: nat, p: nat, ps: nat)
    requires PagesValid(pages, limit) && ps > 0
    ensures var r := RegionFrom(pages, limit, p);
            && (p in pages <==> r.Some? && r.value.first <= p)
            && (r.Some? ==>
                  && r.value.first < r.value.end <= limit && p < r.value.end
                  && PageStart(r.value.end - r.value.first, ps) > 0
                  && Recorded(pages, r.value.first, r.value.end, 0, 0, r.value.prot, r.value.prot))
  {
    var r := RegionFrom(pages, limit, p);
    if r.Some? { StartMono(1, r.value.end - r.value.first, ps); }
  }

  predicate AllHave(pages: Pages, lo: nat, hi: nat, prot: Prot) {
    forall p | lo <= p < hi :: p in pages && pages[p].prot == prot
  }

  /** Changing part of a uniform run leaves a recorded change, and undoing it gives every protection back,
      whether or not the change copied. */
  lemma ChangeIsRecorded(pages: Pages, limit: nat, first: nat, end: nat, lo: nat, hi: nat,
                         was: Prot, prot: Prot, copy: bool)
    requires PagesValid(pages, limit) && Grant(pages, lo, hi, prot) == Some(copy)
    requires Recorded(pages, first, end, 0, 0, was, was) && first <= lo < hi <= end
    ensures var changed := SetProt(pages, lo, hi, prot, copy);
            && PagesValid(changed, limit)
            && Recorded(changed, first, end, lo, hi, was, prot)
            && CanProtect(changed, lo, hi, was, false)
            && AllHave(changed, lo, hi, prot)
            && SameProtections(pages, SetProt(changed, lo, hi, was, false))
  {
    var changed := SetProt(pages, lo, hi, prot, copy);
    var undone := SetProt(changed, lo, hi, was, false);
    forall p | p in pages
      ensures SamePage(pages[p], undone[p])
      ensures Within(changed[p].prot, changed[p].max) && Within(pages[p].max, changed[p].max)
    {
      if lo <= p < hi { GrantedPage(pages[p], prot, copy); }
    }
  }

  lemma GrantedPage(pg: Page, prot: Prot, copy: bool)
    requires Within(prot, pg.max) || (copy && pg.copyable)
    ensures var g := Granted(pg, prot, copy);
            Within(g.prot, g.max) && Within(pg.max, g.max) && SamePage(pg, Granted(g, pg.prot, false))
  {
  }

  /** A recorded change may be undone, and undoing it leaves the run uniform. */
  lemma UndoIsAllowed(pages: Pages, limit: nat, first: nat, end: nat, lo: nat, hi: nat, was: Prot, now: Prot)
    requires PagesValid(pages, limit) && Recorded(pages, first, end, lo, hi, was, now) && first <= lo < hi <= end
    ensures CanProtect(pages, lo, hi, was, false)
    ensures Recorded(SetProt(pages, lo, hi, was, false), first, end, 0, 0, was, was)
  {
  }

  // ---- what each address allows ----

  predicate Mapped(pages: Pages, ps: nat, a: nat)
    requires ps > 0
  {
    PageOf(a, ps) in pages
  }

  predicate Readable(pages: Pages, ps: nat, a: nat)
    requires ps > 0
  {
    Mapped(pages, ps, a) && pages[PageOf(a, ps)].prot.read
  }

  predicate Writable(pages: Pages, ps: nat, a: nat)
    requires ps > 0
  {
    Mapped(pages, ps, a) && pages[PageOf(a, ps)].prot.write
  }

  /** Protection changes that keep what `SameProtections` keeps do not change what can be opened. */
  lemma OpenableKept(was: Pages, now: Pages, ps: nat, a: nat)
    requires ps > 0 && SameProtections(was, now)
    ensures Openable(was, ps, a) <==> Openable(now, ps, a)
    ensures Openable(was, ps, a) ==> Mapped(now, ps, a)
  {
  }

  /** Whether the kernel opens part of a region depends only on any one page of it, and not on the changes made
      and undone before. */
  lemma RegionOpens(was: Pages, pages: Pages, limit: nat, ps: nat, a: nat, k: nat)
    requires ps > 0 && k > 0 && SameProtections(was, pages)
    requires var r := RegionFrom(pages, limit, PageOf(a, ps));
             r.Some? && r.value.first <= PageOf(a, ps) && PageUp(a + k, ps) <= r.value.end
    ensures var r, lo, hi := RegionFrom(pages, limit, PageOf(a, ps)).value, PageOf(a, ps), PageUp(a + k, ps);
            && (r.prot == READ_WRITE || Grant(pages, lo, hi, READ_WRITE).Some? <==> Openable(was, ps, a))
            && (r.prot == READ_WRITE ==> AllHave(pages, lo, hi, READ_WRITE))
            && (Openable(was, ps, a) ==> forall b: nat | a <= b < a + k :: Openable(was, ps, b))
  {
    hide PageOf, PageUp, RegionFrom, Join;
    RegionUniform(pages, limit, PageOf(a, ps));
    RoundedRange(a, k, ps);
    OpenableKept(was, pages, ps, a);
    var r, p, hi := RegionFrom(pages, limit, PageOf(a, ps)).value, PageOf(a, ps), PageUp(a + k, ps);
    assert forall q | p <= q < hi :: q in pages && pages[q] == pages[p];
    assert pages[p].prot == r.prot;
    assert CanProtect(pages, p, hi, READ_WRITE, false) <==> Within(READ_WRITE, pages[p].max);
    assert CanProtect(pages, p, hi, READ_WRITE, true) <==> Within(READ_WRITE, pages[p].max) || pages[p].copyable;
    forall b: nat | a <= b < a + k ensures Openable(was, ps, b) <==> Openable(was, ps, a) {
      OpenableKept(was, pages, ps, b);
    }
  }

  /** A piece of one page is readable throughout exactly when its first byte is. */
  lemma ReadableChunk(pages: Pages, ps: nat, a: nat, c: nat)
    requires ps > 0 && 0 < c <= LeftInPage(a, ps)
    ensures (forall b: nat | a <= b < a + c :: Readable(pages, ps, b)) <==> Readable(pages, ps, a)
  {
    ChunkInOnePage(a, c, ps);
    assert Readable(pages, ps, a) || !Readable(pages, ps, a);
  }

  /** The page is read-write already, or can be made so. */
  predicate PageOpenable(pg: Page) {
    pg.prot == READ_WRITE || Within(READ_WRITE, pg.max) || pg.copyable
  }

  /** That is: it can be read and written and not executed, or may have that within its limit, or may be copied. */
  lemma PageOpenableExactly(pg: Page)
    ensures PageOpenable(pg) <==>
            || (pg.prot.read && pg.prot.write && !pg.prot.exec)
            || (pg.max.read && pg.max.write)
            || pg.copyable
  {
  }

  predicate Openable(pages: Pages, ps: nat, a: nat)
    requires ps > 0
  {
    Mapped(pages, ps, a) && PageOpenable(pages[PageOf(a, ps)])
  }

  // ---- regions from some page on ----

  /** Of `count` bytes from `a`, those up to the end of the region that a lookup at `a` gives. */
  function RegionPart(pages: Pages, limit: nat, ps: nat, a: nat, count: nat): (c: nat)
    requires ps > 0
    ensures c <= count
  {
    var r := RegionFrom(pages, limit, PageOf(a, ps));
    if r.None? || PageStart(r.value.end, ps) <= a then 0 else Min(count, PageStart(r.value.end, ps) - a)
  }

  /** The part ends with the range, or where the pages stop being like the first one; and till there they are like
      it. */
  lemma PartIsRegion(pages: Pages, limit: nat, ps: nat, a: nat, count: nat)
    requires ps > 0 && PagesValid(pages, limit) && Mapped(pages, ps, a) && count > 0
    ensures var c := RegionPart(pages, limit, ps, a, count);
            && c > 0
            && (forall b: nat | a <= b < a + c :: Mapped(pages, ps, b) && pages[PageOf(b, ps)] == pages[PageOf(a, ps)])
            && (c < count ==>
                  Mapped(pages, ps, a + c) && PageOf(a + c, ps) < limit ==>
                    pages[PageOf(a + c, ps)] != pages[PageOf(a, ps)])
  {
    hide PageOf, PageStart, RunStart, RegionFrom;
    var p, c := PageOf(a, ps), RegionPart(pages, limit, ps, a, count);
    var e := RunEnd(pages, limit, p);
    RegionOfMapped(pages, limit, p);
    BelowPage(a, e, ps);
    StartIsAligned(e, ps);
    forall b: nat | a <= b < a + c ensures Mapped(pages, ps, b) && pages[PageOf(b, ps)] == pages[p] {
      PageMono(a, b, ps);
      BelowPage(b, e, ps);
    }
  }

  lemma RegionOfMapped(pages: Pages, limit: nat, p: nat)
    requires p in pages && p < limit
    ensures RegionFrom(pages, limit, p) == Some(Region(RunStart(pages, p), RunEnd(pages, limit, p), pages[p].prot))
  {
  }

  /** From page `q` on nothing differs. */
  ghost predicate SameFrom(was: Pages, now: Pages, q: nat) {
    forall p | p >= q :: (p in was <==> p in now) && (p in was ==> p in now && now[p] == was[p])
  }

  lemma SameFromHere(pages: Pages, q: nat)
    ensures SameFrom(pages, pages, q)
  {
  }

  lemma SameFromLater(was: Pages, now: Pages, later: Pages, q: nat, r: nat)
    requires SameFrom(was, now, q) && SameFrom(now, later, r) && q <= r
    ensures SameFrom(was, later, r)
  {
  }

  /** A change to pages below `hi`, undone or not. */
  lemma ChangedBelow(pages: Pages, lo: nat, hi: nat, prot: Prot, copy: bool, was: Prot)
    ensures SameFrom(pages, pages, hi)
    ensures SameFrom(pages, SetProt(pages, lo, hi, prot, copy), hi)
    ensures SameFrom(pages, SetProt(SetProt(pages, lo, hi, prot, copy), lo, hi, was, false), hi)
  {
  }

  lemma {:induction false} SameNext(was: Pages, now: Pages, limit: nat, p: nat)
    requires p <= limit && SameFrom(was, now, p)
    ensures NextMapped(now, limit, p) == NextMapped(was, limit, p)
    decreases limit - p
  {
    if p < limit { SameNext(was, now, limit, p + 1); }
  }

  lemma {:induction false} SameEnd(was: Pages, now: Pages, limit: nat, p: nat)
    requires p in was && p < limit && SameFrom(was, now, p)
    ensures p in now && RunEnd(now, limit, p) == RunEnd(was, limit, p)
    decreases limit - p
  {
    if p + 1 < limit && p + 1 in was { SameEnd(was, now, limit, p + 1); }
  }

  /** Changes below the page of `a` do not matter to a write that begins there. */
  lemma SamePart(was: Pages, now: Pages, limit: nat, ps: nat, a: nat, count: nat)
    requires ps > 0 && SameFrom(was, now, PageOf(a, ps))
    ensures RegionPart(now, limit, ps, a, count) == RegionPart(was, limit, ps, a, count)
    ensures Openable(now, ps, a) <==> Openable(was, ps, a)
  {
    hide PageOf, PageStart, NextMapped, RunEnd, RunStart;
    var p := PageOf(a, ps);
    if p < limit {
      SameNext(was, now, limit, p);
      var q := NextMapped(was, limit, p);
      if q < limit { SameEnd(was, now, limit, q); }
    }
  }

  // ---- bytes ----

  /** The byte at `a`; memory never written reads as zero. */
  function At(mem: Memory, a: nat): bv8 {
    if a in mem then mem[a] else 0
  }

  function Bytes(mem: Memory, a: nat, n: nat): (s: seq<bv8>)
    ensures |s| == n && forall i | 0 <= i < n :: s[i] == At(mem, a + i)
  {
    seq(n, i requires 0 <= i < n => At(mem, a + i))
  }

  lemma BytesAppend(mem: Memory, a: nat, n: nat, c: nat)
    ensures Bytes(mem, a, n) + Bytes(mem, a + n, c) == Bytes(mem, a, n + c)
  {
  }

  predicate InSpan(b: nat, a: nat, n: nat) {
    a <= b < a + n
  }

  /** Memory with `data` stored from `a` on. */
  function Poke(mem: Memory, a: nat, data: seq<bv8>): Memory {
    mem + map b: nat | a <= b < a + |data| && InSpan(b, a, |data|) :: data[b - a]
  }

  /** Exactly the bytes from `a` on are those of `data`; every other byte is as it was. */
  lemma PokeFrame(mem: Memory, a: nat, data: seq<bv8>)
    ensures forall b: nat :: b in Poke(mem, a, data) <==> b in mem || InSpan(b, a, |data|)
    ensures forall b: nat :: At(Poke(mem, a, data), b) == if InSpan(b, a, |data|) then data[b - a] else At(mem, b)
  {
  }

  /** Storing bytes n to m of `data` in place after bytes 0 to s, where n is at most s, leaves the longer of the two
      stored. */
  lemma PokeFrom(mem: Memory, a: nat, data: seq<bv8>, n: nat, s: nat, m: nat)
    requires n <= m <= |data| && n <= s <= |data|
    ensures Poke(Poke(mem, a, data[..s]), a + n, data[n..m]) == Poke(mem, a, data[..if s <= m then m else s])
  {
    hide Poke;
    var e := if s <= m then m else s;
    PokeFrame(mem, a, data[..s]);
    PokeFrame(Poke(mem, a, data[..s]), a + n, data[n..m]);
    PokeFrame(mem, a, data[..e]);
    var l, r := Poke(Poke(mem, a, data[..s]), a + n, data[n..m]), Poke(mem, a, data[..e]);
    assert forall b: nat :: b in l <==> b in r;
    assert forall b: nat :: At(l, b) == At(r, b);
    assert forall b | b in l :: l[b] == At(l, b) == At(r, b) == r[b];
  }

  lemma PokeNothing(mem: Memory, a: nat)
    ensures Poke(mem, a, []) == mem
  {
  }
}
