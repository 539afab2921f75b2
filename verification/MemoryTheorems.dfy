/** What the write and read contracts come to, byte by byte. */
module MemoryTheorems {
  import opened MachTypes
  import opened Paging
  import opened PageMap
  import opened TargetVM
  import opened Pieces
  import opened MachVMMemories

  /** The effect of a write that counted `n` bytes and stored `stored`, with any page size: memory differs from what it
      was only in the bytes stored, the counted ones are there, and the bytes past them are untouched if and only if
      those stored past them were there already. */
  lemma WriteEffect(mem0: Memory, mem: Memory, a: nat, data: seq<bv8>, n: nat, stored: nat)
    requires n <= stored <= |data| && mem == Poke(mem0, a, data[..stored])
    ensures Bytes(mem, a, n) == data[..n]
    ensures forall b: nat | !InSpan(b, a, stored) :: At(mem, b) == At(mem0, b)
    ensures (forall b: nat | !InSpan(b, a, n) :: At(mem, b) == At(mem0, b)) <==>
            data[n..stored] == Bytes(mem0, a + n, stored - n)
  {
    hide Poke;
    PokeFrame(mem0, a, data[..stored]);
    var rest := Bytes(mem0, a + n, stored - n);
    if data[n..stored] == rest {
      forall b: nat | !InSpan(b, a, n) ensures At(mem, b) == At(mem0, b) {
        if InSpan(b, a, stored) {
          assert data[..stored][b - a] == data[n..stored][b - a - n] == rest[b - a - n];
        }
      }
    } else {
      var i :| 0 <= i < stored - n && data[n..stored][i] != rest[i];
      assert !InSpan(a + n + i, a, n) && InSpan(a + n + i, a, stored);
    }
  }

  /** With the target's page size, every write request of a Write lies in one page that is read-write when it is issued;
      those for the counted bytes tile them. */
  lemma WriteRequestsArePageWrites(j: WriteJob, s: Shot, t: Tally)
    requires j.u > 0 && Progress(j, s, t) && t.stored <= t.n + LeftInPage(j.a + t.n, j.u)
    ensures |s.reqs| >= |j.start.reqs| && s.reqs[..|j.start.reqs|] == j.start.reqs
    ensures forall r | r in s.reqs[|j.start.reqs|..] :: PageWrite(r, j.a, t.stored, j.u)
  {
    hide Poke, PageOf, PageStart, LeftInPage, Aligned, Tiles;
    var tiles, reqs0 := Tiles(j.a, t.n, j.u), j.start.reqs;
    var piece := WriteRequest(j.a + t.n, t.stored - t.n, READ_WRITE);
    assert s.reqs[|reqs0|..] == AsWrites(tiles) + Repeat(piece, t.again);
    forall r | r in s.reqs[|reqs0|..] ensures PageWrite(r, j.a, t.stored, j.u) {
      if r in AsWrites(tiles) { TileWrite(j, t.n, t.stored, r); }
    }
  }

  lemma TileWrite(j: WriteJob, n: nat, m: nat, r: Request)
    requires j.u > 0 && n <= m && r in AsWrites(Tiles(j.a, n, j.u))
    ensures PageWrite(r, j.a, m, j.u)
  {
    hide PageOf, PageStart, LeftInPage, Aligned, Tiles;
    var tiles := Tiles(j.a, n, j.u);
    TilesCover(j.a, n, j.u);
    TilesInside(j.a, n, j.u);
    var i :| 0 <= i < |tiles| && r == WriteRequest(tiles[i].0, tiles[i].1, READ_WRITE);
    assert j.a <= tiles[i].0 && tiles[i].0 + tiles[i].1 <= j.a + n;
  }

  /** A request to write part of [a, a + n) that is not empty and lies in one page, then read-write. */
  predicate PageWrite(r: Request, a: nat, n: nat, ps: nat)
    requires ps > 0
  {
    && r.WriteRequest? && r.prot.read && r.prot.write && !r.prot.exec
    && 0 < r.size <= LeftInPage(r.addr, ps)
    && a <= r.addr && r.addr + r.size <= a + n
  }

  lemma {:induction false} TilesInside(a: nat, n: nat, ps: nat)
    requires ps > 0
    ensures forall i | 0 <= i < |Tiles(a, n, ps)| ::
              a <= Tiles(a, n, ps)[i].0 && Tiles(a, n, ps)[i].0 + Tiles(a, n, ps)[i].1 <= a + n
    decreases n
  {
    hide PageOf, PageStart, LeftInPage;
    if n > 0 {
      AfterChunk(a, 0, ps);
      var c := Min(n, LeftInPage(a, ps));
      var t, rest := Tiles(a, n, ps), Tiles(a + c, n - c, ps);
      TilesInside(a + c, n - c, ps);
      assert t == [(a, c)] + rest;
      forall i | 0 <= i < |t| ensures a <= t[i].0 && t[i].0 + t[i].1 <= a + n {
        if i > 0 { assert t[i] == rest[i - 1]; }
      }
    }
  }

  // ---- when nothing is stored that is not counted ----

  /** Every byte before the `i`th is counted. */
  ghost predicate Reaches(memory: MachVMMemory, task: Target, pages: Pages, a: nat, i: nat)
    requires task.pageSize > 0
  {
    forall b: nat | a <= b < a + i :: memory.Accepts(task, pages, b)
  }

  /** No byte that the write reaches and whose page can be opened has its flush refused. */
  ghost predicate FlushesReached(memory: MachVMMemory, task: Target, pages: Pages, a: nat, count: nat)
    requires task.pageSize > 0
  {
    forall i: nat | i < count && Reaches(memory, task, pages, a, i) && Openable(pages, task.pageSize, a + i) ::
      memory.Accepts(task, pages, a + i)
  }

  /** What Write will count and store is fixed before the call: it stores exactly what it counts if and only if no flush
      it reaches is refused. `n` is the longest prefix that is accepted. */
  lemma StoresWhatItCounts(memory: MachVMMemory, task: Target, pages: Pages, a: nat, n: nat, count: nat)
    requires task.pageSize > 0 && n <= count && Reaches(memory, task, pages, a, n)
    requires n < count ==> !memory.Accepts(task, pages, a + n)
    ensures memory.Stored(task, pages, a, n, count) == n <==> FlushesReached(memory, task, pages, a, count)
  {
    hide Openable, Piece;
    PieceFacts(a + n, count - n, task.pageSize);
    assert forall i: nat | i < count && Reaches(memory, task, pages, a, i) :: i <= n;
    if FlushesReached(memory, task, pages, a, count) && n < count {
      assert !Openable(pages, task.pageSize, a + n);
    }
  }

  /** With any page size, a processor that does not flush stores exactly what it counts, up to the first page that
      cannot be opened. */
  lemma WithoutFlushes(memory: MachVMMemory, task: Target, pages: Pages, j: WriteJob, s: Shot, t: Tally)
    requires task.pageSize > 0 && memory.Partly(task, pages, j, s, t) && !memory.flushes
    ensures t.stored == t.n
  {
  }

  // ---- plain memory ----

  /** A range whose pages are all plain read-write memory is written in full, on a processor that does not flush, by a
      debugger that can learn the page size; every byte is there, every other byte and every page is as before. */
  method WritesPlainMemory(task: Target, address: nat, bytes: seq<bv8>) returns (n: nat)
    requires task.Valid() && task.taskInfoAnswers && address < TWO_64 && 0 < |bytes| < TWO_64
    requires forall b: nat | address <= b < address + |bytes| :: Plain(task.pages, task.pageSize, b)
    modifies task
    ensures n == |bytes|
    ensures Bytes(task.mem, address, |bytes|) == bytes
    ensures forall b: nat | !InSpan(b, address, |bytes|) :: At(task.mem, b) == At(old(task.mem), b)
    ensures SameProtections(old(task.pages), task.pages)
  {
    hide PageOf, PageStart, LeftInPage, Progress, PagesValid, Tiles, AsReads, Piece, Aligned, MachVMMemory.Sticks,
      SameProtections, Plain, Poke, Inside, Openable;
    var memory := new MachVMMemory(false);
    ghost var pages, j := task.pages, WriteJob(Snap(task), address, bytes, memory.Unit(task));
    ghost var t;
    var stuck;
    assert bytes[..|bytes|] == bytes;
    n, stuck, t := memory.Write(task, address, Some(bytes), |bytes|);
    WithoutFlushes(memory, task, pages, j, Snap(task), t);
    if n < |bytes| { PlainIsOpenable(pages, task.pageSize, address + n); }
    WriteEffect(j.start.mem, task.mem, address, bytes, n, t.stored);
  }

  /** A range whose pages can all be read is read in full by a debugger that can learn the page size. */
  method ReadsReadableMemory(task: Target, address: nat, back: array<bv8>) returns (n: nat)
    requires task.Valid() && task.taskInfoAnswers && address < TWO_64 && 0 < back.Length < TWO_64
    requires forall b: nat | address <= b < address + back.Length :: MayRead(task.pages, task.pageSize, b)
    modifies task, back
    ensures n == back.Length
    ensures forall i | 0 <= i < back.Length :: back[i] == At(task.mem, address + i)
    ensures task.mem == old(task.mem) && task.pages == old(task.pages)
  {
    hide PageOf, PageStart, LeftInPage, PagesValid, Tiles, AsReads, Piece, Aligned, MachVMMemory.PieceReadable, MayRead;
    var memory := new MachVMMemory(false);
    forall b: nat | address <= b < address + back.Length ensures Readable(task.pages, task.pageSize, b) {
      ReadableIs(task.pages, task.pageSize, b);
    }
    n := memory.Read(task, address, back, back.Length);
    assert back[..n] == back[..];
    forall i | 0 <= i < back.Length ensures back[i] == At(task.mem, address + i) {
      assert back[..][i] == Bytes(task.mem, address, n)[i];
    }
  }

  predicate MayRead(pages: Pages, ps: nat, a: nat)
    requires ps > 0
  {
    PageOf(a, ps) in pages && pages[PageOf(a, ps)].prot.read
  }

  lemma ReadableIs(pages: Pages, ps: nat, a: nat)
    requires ps > 0
    ensures Readable(pages, ps, a) <==> MayRead(pages, ps, a)
  {
  }

  /** Byte `a` can be read and written and not executed. */
  predicate Plain(pages: Pages, ps: nat, a: nat)
    requires ps > 0
  {
    Mapped(pages, ps, a) &&
    var prot := pages[PageOf(a, ps)].prot;
    prot.read && prot.write && !prot.exec
  }

  lemma PlainIsOpenable(pages: Pages, ps: nat, a: nat)
    requires ps > 0 && Plain(pages, ps, a)
    ensures Openable(pages, ps, a)
  {
    PageOpenableExactly(pages[PageOf(a, ps)]);
  }

  // ---- the round trip ----

  /** Writing a buffer and reading the same range back, with any page size whose pieces 32 bits can count: both calls do
      the full count exactly when every byte of the range can be written and read, and what is read back of what was
      written is the buffer. */
  method WriteThenRead(memory: MachVMMemory, task: Target, address: nat, bytes: seq<bv8>, back: array<bv8>)
    returns (written: nat, read: nat)
    requires task.Valid() && address < TWO_64 && 0 < |bytes| < TWO_64 && back.Length == |bytes|
    requires FitsCast(memory.Unit(task), |bytes|)
    modifies memory, task, back
    ensures written <= |bytes| && read <= |bytes|
    ensures written == |bytes| && read == |bytes| <==>
            forall b: nat | address <= b < address + |bytes| ::
              old(memory.Accepts(task, task.pages, b) && Readable(task.pages, task.pageSize, b))
    ensures forall i | 0 <= i < written && i < read :: back[i] == bytes[i]
  {
    hide PageOf, PageStart, LeftInPage, Progress, PagesValid, Tiles, AsReads, Piece, Aligned, MachVMMemory.Partly,
      MachVMMemory.Sticks, Readable, Openable, MachVMMemory.PieceReadable, SameProtections;
    ghost var pages, j := task.pages, WriteJob(Snap(task), address, bytes, memory.Unit(task));
    ghost var t;
    var stuck;
    assert bytes[..|bytes|] == bytes;
    written, stuck, t := memory.Write(task, address, Some(bytes), |bytes|);
    WrittenInFull(memory, task, pages, j, Snap(task), t);
    ghost var mem := task.mem;
    read := memory.Read(task, address, back, |bytes|);
    if read < |bytes| { PieceFits(address + read, |bytes| - read, memory.Unit(task), |bytes|); }
    ReadInFull(memory, task, pages, address, read, |bytes|);
    ReadBack(mem, address, bytes, back[..], written, read);
  }

  /** Protections that are the same let the same bytes be read. */
  lemma StillReadable(was: Pages, now: Pages, ps: nat)
    requires ps > 0 && SameProtections(was, now)
    ensures forall b: nat :: Readable(now, ps, b) <==> Readable(was, ps, b)
  {
    hide PageOf;
  }

  lemma ReadBack(mem: Memory, a: nat, bytes: seq<bv8>, back: seq<bv8>, written: nat, read: nat)
    requires written <= |bytes| && read <= |back| == |bytes|
    requires Bytes(mem, a, written) == bytes[..written] && Bytes(mem, a, read) == back[..read]
    ensures forall i | 0 <= i < written && i < read :: back[i] == bytes[i]
  {
    forall i | 0 <= i < written && i < read ensures back[i] == bytes[i] {
      assert back[..read][i] == Bytes(mem, a, read)[i] == At(mem, a + i);
      assert At(mem, a + i) == Bytes(mem, a, written)[i] == bytes[..written][i];
    }
  }

  lemma WrittenInFull(memory: MachVMMemory, task: Target, pages: Pages, j: WriteJob, s: Shot, t: Tally)
    requires task.pageSize > 0 && memory.Partly(task, pages, j, s, t)
    requires t.n == t.stored < |j.data| ==> !Openable(pages, task.pageSize, j.a + t.n)
    ensures t.n == |j.data| <==> forall b: nat | j.a <= b < j.a + |j.data| :: memory.Accepts(task, pages, b)
    ensures t.n <= |j.data| && Bytes(s.mem, j.a, t.n) == j.data[..t.n]
  {
    hide Poke, Openable, Inside;
    WriteEffect(j.start.mem, s.mem, j.a, j.data, t.n, t.stored);
    var n, stored, a, data := t.n, t.stored, j.a, j.data;
    if n < stored {
      var b: nat :| a + n <= b < a + n + (stored - n) && memory.FlushRefused(task, b);
      assert a <= b < a + |data| && !memory.Accepts(task, pages, b);
    } else if n < |data| {
      assert !memory.Accepts(task, pages, a + n);
    } else {
      forall b: nat | a <= b < a + |data| ensures memory.Accepts(task, pages, b) {
        assert !memory.FlushRefused(task, b);
      }
    }
  }

  /** A read whose pieces are short enough is done in full exactly when every byte could be read before protections were
      changed and put back. */
  lemma ReadInFull(memory: MachVMMemory, task: Target, was: Pages, a: nat, n: nat, count: nat)
    requires task.pageSize > 0 && n <= count && SameProtections(was, task.pages)
    requires forall b: nat | a <= b < a + n :: Readable(task.pages, task.pageSize, b)
    requires n < count ==>
               Piece(a + n, count - n, memory.Unit(task)) < TWO_32 && !memory.PieceReadable(task, a, n, count)
    ensures n == count <==> forall b: nat | a <= b < a + count :: Readable(was, task.pageSize, b)
  {
    hide Piece, Readable, SameProtections;
    StillReadable(was, task.pages, task.pageSize);
    PieceFacts(a + n, count - n, memory.Unit(task));
    if n == count {
      forall b: nat | a <= b < a + count ensures Readable(was, task.pageSize, b) {
        assert Readable(task.pages, task.pageSize, b);
      }
    } else {
      var b: nat :| a + n <= b < a + n + Piece(a + n, count - n, memory.Unit(task)) &&
                    !Readable(task.pages, task.pageSize, b);
      assert !Readable(was, task.pageSize, b);
    }
  }

  /** A write counted short can still have changed memory: on a processor that flushes, one byte is stored and zero is
      the answer. */
  method RefusedFlushStillStores() returns (n: nat, byte: bv8)
    ensures n == 0 && byte == 7
  {
    hide Progress, Poke;
    var page := Page(0, READ_WRITE, READ_WRITE, false);
    var task := new Target(16384, 1, true, None, {0}, map[], {}, map[0 := page], map[]);
    var memory := new MachVMMemory(true);
    ghost var t;
    var stuck;
    assert memory.FlushRefused(task, 0);
    assert Openable(task.pages, task.pageSize, 0);
    var data: seq<bv8> := [7];
    assert data[..1] == data;
    n, stuck, t := memory.Write(task, 0, Some(data), 1);
    assert !memory.Accepts(task, map[0 := page], 0);
    WriteEffect(map[], task.mem, 0, data, n, t.stored);
    PokeFrame(map[], 0, data);
    assert data[..t.stored] == data;
    byte := if 0 in task.mem then task.mem[0] else 0;
  }

  /** A write can repeat a pass for ever: no page size can be had, and 2^32 bytes lie in one read-write region. */
  method WriteForEver(data: seq<bv8>) returns (stuck: bool)
    requires |data| == 0x1_0000_0000
    ensures stuck
  {
    var page := Page(0, READ_WRITE, READ_WRITE, false);
    var pages := map[0 := page, 1 := page];
    assert PageStart(1, TWO_31) == TWO_31 && PageStart(2, TWO_31) == TWO_32;
    var task := new Target(TWO_31, 2, false, None, {}, map[], {}, pages, map[]);
    var memory := new MachVMMemory(false);
    assert RegionPart(pages, 2, TWO_31, 0, TWO_32) == TWO_32 by {
      assert NextMapped(pages, 2, 0) == 0 && RunEnd(pages, 2, 1) == 2 && RunEnd(pages, 2, 0) == 2;
    }
    assert Openable(pages, TWO_31, 0);
    assert memory.Sticks(task, pages, 0, TWO_32);
    hide PageStart, RegionPart;
    var n;
    ghost var t;
    n, stuck, t := memory.Write(task, 0, Some(data), TWO_32);
  }
}
