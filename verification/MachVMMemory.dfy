/** MachVMMemory: reading and writing the target's memory in pieces the kernel accepts. */
module MachVMMemories {
  import opened MachTypes
  import opened Paging
  import opened PageMap
  import opened TargetVM
  import opened MachVMRegions
  import opened Pieces

  /** kInvalidPageSize: nothing cached yet. */
  const INVALID_PAGE_SIZE: nat := TWO_64 - 1

  class MachVMMemory {
    const flushes: bool     // built for a processor whose instruction cache must be flushed: not x86
    var pageSize: nat       // m_page_size
    var err: nat

    constructor (flushes: bool)
      ensures this.flushes == flushes && pageSize == INVALID_PAGE_SIZE
      ensures forall task: Target :: task.taskInfoAnswers ==> KnowsPageSize(task)
    {
      this.flushes := flushes;
      pageSize := INVALID_PAGE_SIZE;
      err := 0;
    }

    /** The page size this object goes by: the cached one, else the task's, else the host's, else zero. */
    function Unit(task: Target): nat
      reads this
    {
      if pageSize != INVALID_PAGE_SIZE then pageSize
      else if task.taskInfoAnswers then task.pageSize
      else if task.hostPageSize.Some? then task.hostPageSize.value
      else 0
    }

    /** That page size is the target's. */
    predicate KnowsPageSize(task: Target)
      reads this
    {
      Unit(task) == task.pageSize
    }

    method PageSize(task: Target) returns (ps: nat)
      modifies this
      ensures ps == pageSize == old(Unit(task)) == Unit(task)
      ensures ps == if old(pageSize) != 0xFFFF_FFFF_FFFF_FFFF then old(pageSize)
                    else if task.taskInfoAnswers then task.pageSize
                    else if task.hostPageSize.Some? then task.hostPageSize.value else 0
    {
      if pageSize == INVALID_PAGE_SIZE {
        if task.taskInfoAnswers {
          pageSize := task.pageSize;
          return pageSize;
        }
        if task.hostPageSize.Some? {
          err, pageSize := KERN_SUCCESS, task.hostPageSize.value;
        } else {
          err, pageSize := KERN_FAILURE, 0;
        }
      }
      return pageSize;
    }

    method MaxBytesLeftInPage(task: Target, addr: nat, count: nat) returns (n: nat)
      modifies this
      ensures n == Piece(addr, count, old(Unit(task))) && Unit(task) == old(Unit(task))
    {
      n := count;
      var ps := PageSize(task);
      if ps > 0 {
        var pageOffset := addr % ps;
        var bytesLeftInPage := ps - pageOffset;
        if n > bytesLeftInPage {
          n := bytesLeftInPage;
        }
        PageOfIsQuotient(addr, ps);
      }
    }

    /** The piece after `n` bytes of a read can be read. */
    ghost predicate PieceReadable(task: Target, a: nat, n: nat, count: nat)
      requires task.pageSize > 0 && n <= count
      reads this, task
    {
      var c := Piece(a + n, count - n, Unit(task));
      c < TWO_32 && forall b: nat | a + n <= b < a + n + c :: Readable(task.pages, task.pageSize, b)
    }

    /** Reads piece after piece, up to the first that cannot be read. With the target's page size that is the longest
        readable prefix of the range, and no request is for bytes of two pages. */
    method Read(task: Target, address: nat, data: array?<bv8>, dataCount: nat) returns (n: nat)
      requires task.Valid() && address < TWO_64 && dataCount < TWO_64
      requires data != null ==> dataCount <= data.Length
      modifies this, task`requests, if data == null then {} else {data}
      ensures Unit(task) == old(Unit(task))
      ensures data == null || dataCount == 0 ==> n == 0 && task.requests == old(task.requests)
      ensures data != null && dataCount > 0 ==>
                && n <= dataCount
                && (forall b: nat | address <= b < address + n :: Readable(task.pages, task.pageSize, b))
                && (n < dataCount ==> !PieceReadable(task, address, n, dataCount))
                && (n == 0 || n == dataCount || CutAt(address + n, Unit(task)))
                && data[..n] == Bytes(task.mem, address, n)
                && data[n..] == old(data[..])[n..]
                && task.requests == old(task.requests)
                                    + AsReads(Tiles(address, Attempted(address, n, dataCount, Unit(task)), Unit(task)))
      ensures data != null && KnowsPageSize(task) && n < dataCount ==> !Readable(task.pages, task.pageSize, address + n)
    {
      hide PageOf, PageStart, PagesValid, Tiles, AsReads, Bytes, Piece, CutAt, Readable, Got;
      if data == null || dataCount == 0 {
        return 0;
      }
      ghost var u := Unit(task);
      ghost var job := ReadJob(Snap(task), address, dataCount, u);
      GotNothing(task.pages, task.pageSize, job);
      var totalBytesRead := 0;
      var currAddr := address;
      var currData := 0;
      while totalBytesRead < dataCount
        invariant Unit(task) == u
        invariant totalBytesRead <= dataCount && currData == totalBytesRead
        invariant currAddr == address + totalBytesRead < TWO_64
        invariant Got(task.pages, task.pageSize, job, task.requests, data[..currData], totalBytesRead)
        invariant forall i | currData <= i < data.Length :: data[i] == old(data[i])
        decreases dataCount - totalBytesRead
      {
        GotMore(task.pages, task.pageSize, job, task.requests, data[..currData], totalBytesRead);
        GotSoFar(task.pages, task.pageSize, job, task.requests, data[..currData], totalBytesRead);
        var currSize := MaxBytesLeftInPage(task, currAddr, dataCount - totalBytesRead);
        var bytes;
        err, bytes := task.VmRead(currAddr, currSize);
        if err == KERN_SUCCESS {
          var currBytesRead := |bytes|;
          ReadableBelow(task, currAddr, currSize);
          ghost var before := data[..currData];
          forall i | 0 <= i < currBytesRead {
            data[currData + i] := bytes[i];
          }
          assert data[..currData + currBytesRead] == before + bytes;
          totalBytesRead := totalBytesRead + currBytesRead;
          currAddr := Add64(currAddr, currBytesRead);
          currData := currData + currBytesRead;
        } else {
          PieceIsReadable(task, address, totalBytesRead, dataCount);
          return totalBytesRead;
        }
      }
      GotSoFar(task.pages, task.pageSize, job, task.requests, data[..currData], totalBytesRead);
      PieceFacts(currAddr, 0, u);
      return totalBytesRead;
    }

    /** With the target's page size, a piece can be read exactly when its first byte can. */
    lemma PieceIsReadable(task: Target, a: nat, n: nat, count: nat)
      requires task.Valid() && n < count
      ensures KnowsPageSize(task) ==> (PieceReadable(task, a, n, count) <==> Readable(task.pages, task.pageSize, a + n))
    {
      PieceFacts(a + n, count - n, task.pageSize);
      ReadableChunk(task.pages, task.pageSize, a + n, Piece(a + n, count - n, task.pageSize));
    }

    // ---- writing ----

    /** The flush of a piece with byte `a` in it fails, and its status is what the write reports. */
    predicate FlushRefused(task: Target, a: nat)
      requires task.pageSize > 0
    {
      flushes && PageOf(a, task.pageSize) in task.flushRefused
    }

    ghost predicate RefusedIn(task: Target, a: nat, c: nat)
      requires task.pageSize > 0
    {
      exists b: nat :: a <= b < a + c && FlushRefused(task, b)
    }

    /** The write of the byte at `a` reports success: on a processor that flushes that is the flush's success, whatever
        became of the write. */
    predicate StatusOk(task: Target, pages: Pages, a: nat)
      requires task.pageSize > 0
    {
      if flushes then !FlushRefused(task, a) else Writable(pages, task.pageSize, a)
    }

    ghost predicate PieceOk(task: Target, pages: Pages, a: nat, c: nat)
      requires task.pageSize > 0
    {
      forall b: nat | a <= b < a + c :: StatusOk(task, pages, b)
    }

    /** Of a range, `n` bytes count and were all reported as written; `stored` have been tried, and if those are more,
        the piece that does not count was not reported as written. */
    ghost predicate Reported(task: Target, pages: Pages, j: WriteJob, n: nat, stored: nat)
      requires task.pageSize > 0
    {
      && n <= stored <= |j.data|
      && PieceOk(task, pages, j.a, n) && (stored > n ==> !PieceOk(task, pages, j.a + n, stored - n))
      && (FitsCast(j.u, |j.data|) && stored > n ==> stored == Attempted(j.a, n, |j.data|, j.u))
      && (j.u == 0 ==> n == 0 || n == |j.data| % TWO_32)
      && (j.u == 0 && stored > n ==> n == 0 && stored == |j.data| % TWO_32)
    }

    /** What trying `stored` bytes leaves in memory, whatever the pages allow: the other bytes are untouched. Without
        flushes the `n` counted bytes are there; and for pages of the target's size a tried byte is there exactly when
        its page is writable. */
    ghost predicate Tried(task: Target, pages: Pages, j: WriteJob, mem: Memory, n: nat, stored: nat)
      requires task.pageSize > 0 && n <= stored <= |j.data|
    {
      && (forall b: nat | !InSpan(b, j.a, stored) :: At(mem, b) == At(j.start.mem, b))
      && (!flushes ==> forall b: nat | InSpan(b, j.a, n) :: At(mem, b) == j.data[b - j.a])
      && (j.u == task.pageSize ==>
            forall b: nat | InSpan(b, j.a, stored) ::
              At(mem, b) == if Writable(pages, task.pageSize, b) then j.data[b - j.a] else At(j.start.mem, b))
    }

    /** Part of a range that is read-write has been written in pieces: `n` bytes count, `stored` bytes are in memory,
        and no flush was refused but that of the piece that does not count. When the pieces survive the cast to 32
        bits, the requests are those pieces in order. */
    ghost predicate Written(task: Target, j: WriteJob, s: Shot, n: nat, stored: nat)
      requires task.pageSize > 0
    {
      && n <= stored <= |j.data|
      && s.mem == Poke(j.start.mem, j.a, j.data[..stored])
      && !RefusedIn(task, j.a, n) && (stored > n ==> RefusedIn(task, j.a + n, stored - n))
      && Inside(j.start.reqs, s.reqs, j.a, stored, j.u)
      && (FitsCast(j.u, |j.data|) ==>
            && (n == 0 || n == |j.data| || CutAt(j.a + n, j.u))
            && (stored > n ==> stored == Attempted(j.a, n, |j.data|, j.u))
            && s.reqs == j.start.reqs + AsWrites(Tiles(j.a, stored, j.u)))
    }

    /** The target after a request to write `c` bytes more, which stored them or not. */
    ghost function Requested(j: WriteJob, s: Shot, n: nat, c: nat, prot: Prot, stores: bool): Shot
      requires n + c <= |j.data|
    {
      Shot(if stores then Poke(s.mem, j.a + n, j.data[n..n + c]) else s.mem, s.reqs + [WriteRequest(j.a + n, c, prot)])
    }

    lemma RequestedIs(j: WriteJob, s: Shot, n: nat, c: nat, prot: Prot, stores: bool)
      requires n + c <= |j.data|
      ensures Requested(j, s, n, c, prot, stores).mem ==
              if stores then Poke(s.mem, j.a + n, j.data[n..n + c]) else s.mem
      ensures Requested(j, s, n, c, prot, stores).reqs == s.reqs + [WriteRequest(j.a + n, c, prot)]
    {
    }

    /** One more piece of a range whose pages are read-write. */
    lemma WrittenStep(task: Target, j: WriteJob, s: Shot, n: nat, c: nat)
      requires task.pageSize > 0 && n < |j.data| && c == Piece(j.a + n, |j.data| - n, j.u) % TWO_32
      requires Written(task, j, s, n, n)
      ensures c <= |j.data| - n
      ensures Written(task, j, Requested(j, s, n, c, READ_WRITE, true),
                      if RefusedIn(task, j.a + n, c) then n else n + c, n + c)
    {
      hide PageOf, PageStart, LeftInPage, Tiles, AsWrites, Aligned, Poke, Piece, CutAt, RefusedIn, Inside;
      PieceOfWrite(j.a, n, |j.data|, j.u);
      PokeFrom(j.start.mem, j.a, j.data, n, n, n + c);
      FlushedPiece(task, j.a, n, c);
      NothingRefused(task, j.a + n);
      InsideStep(j.start.reqs, s.reqs, j.a, n, c, j.u);
      if FitsCast(j.u, |j.data|) {
        TilesStep(j.a, n, c, j.u);
        AsWritesStep(Tiles(j.a, n, j.u), j.a + n, c);
      }
    }

    /** One more piece of any range: what is reported of it. */
    lemma ReportedStep(task: Target, pages: Pages, j: WriteJob, n: nat, c: nat)
      requires task.pageSize > 0 && n < |j.data| && c == Piece(j.a + n, |j.data| - n, j.u) % TWO_32
      requires Reported(task, pages, j, n, n)
      ensures c <= |j.data| - n
      ensures Reported(task, pages, j, if PieceOk(task, pages, j.a + n, c) then n + c else n, n + c)
    {
      hide LeftInPage, Piece, PieceOk;
      PieceOfWrite(j.a, n, |j.data|, j.u);
      PieceOkJoin(task, pages, j.a, n, c);
      NothingToReport(task, pages, j.a + n);
    }

    /** And what it leaves in memory. */
    lemma TriedStep(task: Target, pages: Pages, j: WriteJob, s: Shot, n: nat, c: nat, prot: Prot, stores: bool)
      requires task.pageSize > 0 && n < |j.data| && c == Piece(j.a + n, |j.data| - n, j.u) % TWO_32
      requires Tried(task, pages, j, s.mem, n, n)
      requires stores <==> forall b: nat | j.a + n <= b < j.a + n + c :: Writable(pages, task.pageSize, b)
      ensures c <= |j.data| - n
      ensures Tried(task, pages, j, Requested(j, s, n, c, prot, stores).mem,
                    if PieceOk(task, pages, j.a + n, c) then n + c else n, n + c)
    {
      hide LeftInPage, Piece, PieceOk, Writable, Requested;
      PieceOfWrite(j.a, n, |j.data|, j.u);
      PieceStatus(task, pages, j.a + n, c);
      RequestedBytes(j, s, n, c, prot, stores);
      if j.u == task.pageSize { PieceIsWritable(pages, j.a + n, |j.data| - n, task.pageSize, c); }
    }

    lemma RequestedBytes(j: WriteJob, s: Shot, n: nat, c: nat, prot: Prot, stores: bool)
      requires n + c <= |j.data|
      ensures var r := Requested(j, s, n, c, prot, stores);
              forall b: nat :: At(r.mem, b) == if stores && InSpan(b, j.a + n, c) then j.data[b - j.a] else At(s.mem, b)
    {
      hide Poke;
      PokeFrame(s.mem, j.a + n, j.data[n..n + c]);
    }

    lemma PieceOkJoin(task: Target, pages: Pages, a: nat, n: nat, c: nat)
      requires task.pageSize > 0
      ensures PieceOk(task, pages, a, n + c) <==> PieceOk(task, pages, a, n) && PieceOk(task, pages, a + n, c)
    {
      hide StatusOk;
    }

    lemma NothingToReport(task: Target, pages: Pages, a: nat)
      requires task.pageSize > 0
      ensures PieceOk(task, pages, a, 0)
    {
    }

    /** What the status of a piece says of its bytes. */
    lemma PieceStatus(task: Target, pages: Pages, a: nat, c: nat)
      requires task.pageSize > 0
      ensures flushes ==> (PieceOk(task, pages, a, c) <==> !RefusedIn(task, a, c))
      ensures !flushes ==>
                (PieceOk(task, pages, a, c) <==> forall b: nat | a <= b < a + c :: Writable(pages, task.pageSize, b))
    {
      hide PageOf, Writable;
      if flushes {
        if RefusedIn(task, a, c) {
          var b: nat :| a <= b < a + c && FlushRefused(task, b);
          assert !StatusOk(task, pages, b);
        }
      } else if PieceOk(task, pages, a, c) {
        forall b: nat | a <= b < a + c ensures Writable(pages, task.pageSize, b) {
          assert StatusOk(task, pages, b);
        }
      }
    }

    lemma PieceIsWritable(pages: Pages, a: nat, left: nat, ps: nat, c: nat)
      requires ps > 0 && left > 0 && c == Piece(a, left, ps) % TWO_32
      ensures forall b: nat | a <= b < a + c :: Writable(pages, ps, b) <==> Writable(pages, ps, a)
    {
      ChunkInOnePage(a, c, ps);
    }

    lemma NothingRefused(task: Target, a: nat)
      requires task.pageSize > 0
      ensures !RefusedIn(task, a, 0)
    {
    }

    /** The flush of one more piece. */
    lemma FlushedPiece(task: Target, a: nat, n: nat, c: nat)
      requires task.pageSize > 0
      ensures RefusedIn(task, a, n + c) <==> RefusedIn(task, a, n) || RefusedIn(task, a + n, c)
    {
      hide PageOf;
      if RefusedIn(task, a, n) {
        var b: nat :| a <= b < a + n && FlushRefused(task, b);
        assert a <= b < a + (n + c);
      }
      if RefusedIn(task, a + n, c) {
        var b: nat :| a + n <= b < a + n + c && FlushRefused(task, b);
        assert a <= b < a + (n + c);
      }
      if RefusedIn(task, a, n + c) {
        var b: nat :| a <= b < a + (n + c) && FlushRefused(task, b);
        assert b < a + n || a + n <= b < a + n + c;
      }
    }

    lemma FlushStatus(task: Target, a: nat, c: nat)
      requires task.pageSize > 0
      ensures RefusedIn(task, a, c) <==> flushes && !task.Flushable(a, c)
    {
      if RefusedIn(task, a, c) {
        var b: nat :| a <= b < a + c && FlushRefused(task, b);
        assert PageOf(b, task.pageSize) in task.flushRefused;
      } else if flushes {
        forall b: nat | a <= b < a + c ensures PageOf(b, task.pageSize) !in task.flushRefused {
          assert !FlushRefused(task, b);
        }
      }
    }

    /** With the target's page size, the write stops at the first byte that is not reported as written. */
    lemma StopsAtFirst(task: Target, pages: Pages, j: WriteJob, n: nat, stored: nat)
      requires task.pageSize > 0 && Reported(task, pages, j, n, stored) && n < stored
      requires j.u == task.pageSize && FitsCast(j.u, |j.data|)
      ensures !StatusOk(task, pages, j.a + n)
    {
      PieceFacts(j.a + n, |j.data| - n, j.u);
      ChunkInOnePage(j.a + n, stored - n, j.u);
    }

    /** Without a page size, a region's part of a write is repeated for ever exactly when 32 bits do not hold its
        length and the first piece, whose length is what the cast leaves, is reported as written. When pages are known
        to be smaller than 2^32 bytes it always ends. */
    lemma StuckExactly(task: Target, pages: Pages, j: WriteJob, n: nat, stored: nat, stuck: bool)
      requires task.pageSize > 0 && Reported(task, pages, j, n, stored)
      requires stuck ==> n == stored < |j.data| && Piece(j.a + n, |j.data| - n, j.u) % TWO_32 == 0
      requires !stuck ==> n == |j.data| || stored > n
      ensures 0 < j.u < TWO_32 ==> !stuck
      ensures j.u == 0 ==> (stuck <==> |j.data| >= TWO_32 && PieceOk(task, pages, j.a, |j.data| % TWO_32))
    {
      hide PageOf, PageStart, LeftInPage, PieceOk;
      if n < |j.data| { PieceOfWrite(j.a, n, |j.data|, j.u); }
    }

    lemma NothingTried(task: Target, pages: Pages, j: WriteJob)
      requires task.pageSize > 0
      ensures Pieced(task, pages, j, j.start, 0, 0, true) && Pieced(task, pages, j, j.start, 0, 0, false)
    {
      hide Poke, CutAt;
      PokeNothing(j.start.mem, j.a);
      TilesNothing(j.a, j.u);
      assert j.start.reqs + [] == j.start.reqs && j.data[..0] == [];
    }

    predicate PagesWritable(task: Target, a: nat, c: nat)
      requires task.pageSize > 0
      reads task`pages
    {
      forall b: nat | a <= b < a + c :: Writable(task.pages, task.pageSize, b)
    }

    /** One request of WriteRegion: for what is left in the page, cast to 32 bits, and with its flush. */
    method WritePiece(task: Target, addr: nat, data: seq<bv8>, left: nat) returns (count: nat)
      requires task.Valid() && 0 < left <= |data|
      modifies this, task`mem, task`requests
      ensures Unit(task) == old(Unit(task))
      ensures count == Piece(addr, left, Unit(task)) % TWO_32 <= left
      ensures task.mem ==
              if PagesWritable(task, addr, count) then Poke(old(task.mem), addr, data[..count]) else old(task.mem)
      ensures task.requests == old(task.requests) + [WriteRequest(addr, count, task.ProtAt(addr))]
      ensures err == KERN_SUCCESS <==> if flushes then task.Flushable(addr, count) else PagesWritable(task, addr, count)
    {
      hide PageOf, PagesValid, Poke, Piece, Writable, Mapped;
      PieceFacts(addr, left, Unit(task));
      var bytes := MaxBytesLeftInPage(task, addr, left);
      count := bytes % TWO_32;
      err := task.VmWrite(addr, data[..count]);
      if flushes {
        err := task.FlushCache(addr, count);
      }
    }

    /** Writes piece by piece, up to the first piece that is not reported as written. On read-write pages that is one
        whose flush is refused, and it has been stored all the same. `stuck` when the cast to 32 bits leaves nothing of
        a piece: the source then repeats that pass for ever. */
    method WriteRegion(task: Target, address: nat, data: Option<seq<bv8>>, dataCount: nat)
      returns (n: nat, stuck: bool, ghost stored: nat)
      requires task.Valid() && address + dataCount < TWO_64
      requires data.Some? ==> dataCount <= |data.value|
      modifies this, task`mem, task`requests
      ensures Unit(task) == old(Unit(task))
      ensures data.None? || dataCount == 0 ==>
                n == stored == 0 && !stuck && task.mem == old(task.mem) && task.requests == old(task.requests)
      ensures data.Some? && dataCount > 0 ==>
                && var j := WriteJob(old(Snap(task)), address, data.value[..dataCount], Unit(task));
                && Reported(task, task.pages, j, n, stored) && Tried(task, task.pages, j, task.mem, n, stored)
                && (n < dataCount && !stuck ==> stored > n)
                && (stuck ==> n == stored < dataCount && Piece(address + n, dataCount - n, j.u) % TWO_32 == 0)
                && (j.u == 0 ==>
                      (stuck <==> dataCount >= TWO_32 && PieceOk(task, task.pages, address, dataCount % TWO_32)))
                && (j.u == task.pageSize && n < dataCount ==> !StatusOk(task, task.pages, address + n))
                && (AllHave(task.pages, PageOf(address, task.pageSize), PageUp(address + dataCount, task.pageSize),
                            READ_WRITE) ==>
                      Written(task, j, Snap(task), n, stored))
    {
      hide PageOf, PageUp, PageStart, PagesValid, Poke, AllHave, Piece, Written, Reported, Tried, Pieced, PieceOk,
        Writable, Mapped, StatusOk, Requested;
      n, stuck, stored := 0, false, 0;
      if data.None? || dataCount == 0 {
        return;
      }
      var bytes := data.value[..dataCount];
      ghost var j := WriteJob(Snap(task), address, bytes, Unit(task));
      ghost var open := AllHave(task.pages, PageOf(address, task.pageSize), PageUp(address + dataCount, task.pageSize),
                                READ_WRITE);
      NothingTried(task, task.pages, j);
      var totalBytesWritten := 0;
      var currAddr := address;
      var currData := 0;
      while totalBytesWritten < dataCount
        invariant Unit(task) == j.u
        invariant stored == totalBytesWritten
        invariant currData == totalBytesWritten <= dataCount && currAddr == address + totalBytesWritten
        invariant Pieced(task, task.pages, j, Snap(task), totalBytesWritten, totalBytesWritten, open)
        decreases dataCount - totalBytesWritten
      {
        ghost var s, done := Snap(task), totalBytesWritten;
        var currDataCount := WritePiece(task, currAddr, bytes[currData..], dataCount - totalBytesWritten);
        ghost var stores := PagesWritable(task, currAddr, currDataCount);
        assert Snap(task) == Requested(j, s, done, currDataCount, task.ProtAt(currAddr), stores) by {
          assert bytes[currData..][..currDataCount] == bytes[done..done + currDataCount];
          RequestedIs(j, s, done, currDataCount, task.ProtAt(currAddr), stores);
        }
        PieceStep(task, task.pages, j, s, done, currDataCount, task.ProtAt(currAddr), stores, open);
        stored := done + currDataCount;
        if err == KERN_SUCCESS {
          if currDataCount == 0 {
            PiecedEnd(task, task.pages, j, Snap(task), done, done, open, true);
            return totalBytesWritten, true, stored;
          }
          totalBytesWritten := totalBytesWritten + currDataCount;
          currAddr := Add64(currAddr, currDataCount);
          currData := currData + currDataCount;
        } else {
          NothingToReport(task, task.pages, currAddr);
          PiecedEnd(task, task.pages, j, Snap(task), done, stored, open, false);
          return totalBytesWritten, false, stored;
        }
      }
      PiecedEnd(task, task.pages, j, Snap(task), dataCount, dataCount, open, false);
      return totalBytesWritten, false, stored;
    }

    /** What writing a region's part piece by piece keeps. `open` says that its pages are read-write. */
    ghost predicate Pieced(task: Target, pages: Pages, j: WriteJob, s: Shot, n: nat, stored: nat, open: bool)
      requires task.pageSize > 0
    {
      && Reported(task, pages, j, n, stored) && Tried(task, pages, j, s.mem, n, stored)
      && (open ==> Written(task, j, s, n, stored))
    }

    /** What that comes to when the region's part is done, or can go no further. */
    lemma PiecedEnd(task: Target, pages: Pages, j: WriteJob, s: Shot, n: nat, stored: nat, open: bool, stuck: bool)
      requires task.pageSize > 0 && Pieced(task, pages, j, s, n, stored, open)
      requires stuck ==> n == stored < |j.data| && Piece(j.a + n, |j.data| - n, j.u) % TWO_32 == 0
      requires !stuck ==> n == |j.data| || stored > n
      ensures Reported(task, pages, j, n, stored) && Tried(task, pages, j, s.mem, n, stored)
      ensures open ==> Written(task, j, s, n, stored)
      ensures j.u == 0 ==> (stuck <==> |j.data| >= TWO_32 && PieceOk(task, pages, j.a, |j.data| % TWO_32))
      ensures 0 < j.u < TWO_32 ==> !stuck
      ensures 0 < j.u < TWO_32 && j.u == task.pageSize && n < |j.data| ==> !StatusOk(task, pages, j.a + n)
    {
      hide Written, Tried, Piece, PieceOk, StatusOk;
      StuckExactly(task, pages, j, n, stored, stuck);
      if 0 < j.u < TWO_32 && j.u == task.pageSize && n < |j.data| { StopsAtFirst(task, pages, j, n, stored); }
    }

    /** All that one more piece does. */
    lemma PieceStep(task: Target, pages: Pages, j: WriteJob, s: Shot, n: nat, c: nat, prot: Prot,
                    stores: bool, open: bool)
      requires task.pageSize > 0 && n < |j.data| && c == Piece(j.a + n, |j.data| - n, j.u) % TWO_32
      requires Pieced(task, pages, j, s, n, n, open)
      requires stores <==> forall b: nat | j.a + n <= b < j.a + n + c :: Writable(pages, task.pageSize, b)
      requires prot ==
               if Mapped(pages, task.pageSize, j.a + n) then pages[PageOf(j.a + n, task.pageSize)].prot else NONE
      requires open ==> AllHave(pages, PageOf(j.a, task.pageSize), PageUp(j.a + |j.data|, task.pageSize), READ_WRITE)
      ensures c <= |j.data| - n
      ensures var r, n' := Requested(j, s, n, c, prot, stores), if PieceOk(task, pages, j.a + n, c) then n + c else n;
              Pieced(task, pages, j, r, n', n + c, open)
      ensures PieceOk(task, pages, j.a + n, c) <==> if flushes then task.Flushable(j.a + n, c) else stores
    {
      hide PageOf, PageUp, Piece, Written, Reported, Tried, PieceOk, Writable, Requested, AllHave, Mapped;
      ReportedStep(task, pages, j, n, c);
      TriedStep(task, pages, j, s, n, c, prot, stores);
      PieceStatus(task, pages, j.a + n, c);
      FlushStatus(task, j.a + n, c);
      if open {
        ChunkWritable(pages, task.pageSize, j.a, |j.data|, j.a + n, c);
        if !flushes { NeverRefused(task, j.a + n, c); }
        WrittenStep(task, j, s, n, c);
      }
    }

    lemma NeverRefused(task: Target, a: nat, c: nat)
      requires task.pageSize > 0 && !flushes
      ensures !RefusedIn(task, a, c)
    {
    }

    // ---- region by region ----

    /** The write of the byte at `a` is counted: its page can be opened and its flush succeeds. */
    ghost predicate Accepts(task: Target, pages: Pages, a: nat)
      requires task.pageSize > 0
    {
      Openable(pages, task.pageSize, a) && !FlushRefused(task, a)
    }

    /** How many bytes have been stored when Write returns `n`: one more piece if that was refused by its flush only. */
    ghost function Stored(task: Target, pages: Pages, a: nat, n: nat, count: nat): nat
      requires task.pageSize > 0 && n <= count
    {
      if n < count && Openable(pages, task.pageSize, a + n) then Attempted(a, n, count, task.pageSize) else n
    }

    /** A write without a page size repeats a pass for ever: some region that it comes to, all before it having been
        opened and flushed, can be opened, has a part in the range whose length 32 bits do not hold, and is not refused
        the flush of what the cast leaves of that. */
    ghost predicate Sticks(task: Target, pages: Pages, a: nat, count: nat)
      requires task.pageSize > 0
      decreases count
    {
      var c := RegionPart(pages, task.pageLimit, task.pageSize, a, count);
      && c > 0 && Openable(pages, task.pageSize, a)
      && if c >= TWO_32 then !RefusedIn(task, a, c % TWO_32)
         else !RefusedIn(task, a, c) && Sticks(task, pages, a + c, count - c)
    }

    /** What holds of a write whatever page size it goes by: `t.n` bytes count and `t.stored` are in memory, every one
        of them in a page that can be opened; the flushes of the counted ones succeeded, and one of the others was
        refused; and every request was for part of a page, inside the bytes stored, that was read-write then. */
    ghost predicate Partly(task: Target, pages: Pages, j: WriteJob, s: Shot, t: Tally)
      requires task.pageSize > 0
    {
      && t.n <= t.stored <= |j.data|
      && s.mem == Poke(j.start.mem, j.a, j.data[..t.stored])
      && (forall b: nat | j.a <= b < j.a + t.stored :: Openable(pages, task.pageSize, b))
      && !RefusedIn(task, j.a, t.n) && (t.stored > t.n ==> RefusedIn(task, j.a + t.n, t.stored - t.n))
      && Inside(j.start.reqs, s.reqs, j.a, t.stored, j.u)
    }

    /** What every pass of Write's loop keeps; with the target's page size, the exact progress as well. */
    ghost predicate Going(task: Target, pages: Pages, j: WriteJob, s: Shot, t: Tally)
      requires task.pageSize > 0
    {
      && Partly(task, pages, j, s, t)
      && (0 < j.u < TWO_32 && j.u == task.pageSize ==>
            && (t.n == 0 || t.n == |j.data| || Aligned(j.a + t.n, j.u))
            && Progress(j, s, t)
            && (t.stored > t.n ==> t.n < |j.data| && t.stored == Attempted(j.a, t.n, |j.data|, j.u)))
    }

    /** The part of a write that is in one region. */
    function Part(j: WriteJob, s: Shot, n: nat, cut: nat): WriteJob
      requires n + cut <= |j.data|
    {
      WriteJob(s, j.a + n, j.data[n..n + cut], j.u)
    }

    lemma PartlyStep(task: Target, pages: Pages, j: WriteJob, s: Shot, t: Tally, s': Shot, cut: nat, w: nat, m: nat)
      requires task.pageSize > 0 && Partly(task, pages, j, s, t) && t.n + cut <= |j.data|
      requires Written(task, Part(j, s, t.n, cut), s', w, m)
      requires forall b: nat | j.a + t.n <= b < j.a + t.n + cut :: Openable(pages, task.pageSize, b)
      ensures t.n <= t.stored && w <= m <= cut
      ensures Partly(task, pages, j, s', Counted(t, w, m))
    {
      hide Poke, Openable, CutAt, Piece, RefusedIn, FitsCast, AsWrites, Tiles, Inside;
      var x, all := j.a + t.n, Counted(t, w, m).stored;
      assert j.data[t.n..t.n + cut][..m] == j.data[t.n..t.n + m];
      PokeFrom(j.start.mem, j.a, j.data, t.n, t.stored, t.n + m);
      InsideWiden(j.start.reqs, s.reqs, j.a, t.stored, all, j.u);
      InsideJoin(j.start.reqs, s.reqs, s'.reqs, j.a, t.n, m, all, j.u);
      FlushedPiece(task, j.a, t.n, w);
      if t.stored > t.n { RefusedPast(task, x, w, t.stored - t.n, all - t.n); }
      if m > w {
        FlushedPiece(task, x, w, m - w);
        RefusedPast(task, x, w, m, all - t.n);
      }
    }

    /** A refused flush among the first `c` bytes but not the first `w` is one past them. */
    lemma RefusedPast(task: Target, a: nat, w: nat, c: nat, d: nat)
      requires task.pageSize > 0 && c <= d && RefusedIn(task, a, c)
      ensures !RefusedIn(task, a, w) ==> w < c && RefusedIn(task, a + w, d - w)
    {
      hide FlushRefused;
      var b: nat :| a <= b < a + c && FlushRefused(task, b);
      if !RefusedIn(task, a, w) {
        assert a + w <= b < a + w + (d - w);
      }
    }

    lemma GoingStep(task: Target, pages: Pages, j: WriteJob, s: Shot, t: Tally, s': Shot, cut: nat, w: nat, m: nat)
      requires task.pageSize > 0 && Going(task, pages, j, s, t)
      requires 0 < cut <= |j.data| - t.n && (cut == |j.data| - t.n || Aligned(j.a + t.n + cut, task.pageSize))
      requires Written(task, Part(j, s, t.n, cut), s', w, m) && (w < cut ==> m > w)
      requires forall b: nat | j.a + t.n <= b < j.a + t.n + cut :: Openable(pages, task.pageSize, b)
      ensures w <= m <= cut
      ensures Going(task, pages, j, s', Counted(t, w, m))
    {
      hide PageOf, PageStart, Aligned, LeftInPage, Poke, Openable, AsWrites, Tiles, Partly, Progress, RefusedIn, Inside;
      PartlyStep(task, pages, j, s, t, s', cut, w, m);
      if 0 < j.u < TWO_32 && j.u == task.pageSize {
        var p := Part(j, s, t.n, cut);
        WrittenPages(task, p, s', w, m);
        assert p.data[..m] == j.data[t.n..t.n + m];
        if t.stored > t.n { RefusedAgain(task, pages, j, s, t, w); }
        ProgressStep(j, s, t, cut, w);
      }
    }

    /** The same, for a region opened in pages that differ from the first ones by changes made and undone. */
    lemma GoingOn(task: Target, pages: Pages, was: Pages, j: WriteJob, s: Shot, t: Tally, s': Shot,
                  cut: nat, w: nat, m: nat)
      requires task.pageSize > 0 && SameProtections(pages, was) && Going(task, pages, j, s, t)
      requires 0 < cut <= |j.data| - t.n && (cut == |j.data| - t.n || Aligned(j.a + t.n + cut, task.pageSize))
      requires Written(task, Part(j, s, t.n, cut), s', w, m) && (w < cut ==> m > w)
      requires forall b: nat | j.a + t.n <= b < j.a + t.n + cut :: Openable(was, task.pageSize, b)
      ensures w <= m <= cut
      ensures Going(task, pages, j, s', Counted(t, w, m))
    {
      hide Going, Written, Openable, PageOf, Aligned, SameProtections;
      forall b: nat | j.a + t.n <= b < j.a + t.n + cut ensures Openable(pages, task.pageSize, b) {
        OpenableKept(pages, was, task.pageSize, b);
      }
      GoingStep(task, pages, j, s, t, s', cut, w, m);
    }

    /** A refused flush of a piece of one page is refused at its first byte. */
    lemma RefusedPiece(task: Target, a: nat, c: nat)
      requires task.pageSize > 0 && c <= LeftInPage(a, task.pageSize) && RefusedIn(task, a, c)
      ensures FlushRefused(task, a)
    {
      ChunkInOnePage(a, c, task.pageSize);
    }

    /** A page whose flush was refused refuses it again. */
    lemma RefusedAgain(task: Target, pages: Pages, j: WriteJob, s: Shot, t: Tally, w: nat)
      requires task.pageSize > 0 && Partly(task, pages, j, s, t)
      requires t.n < t.stored <= t.n + LeftInPage(j.a + t.n, task.pageSize) && !RefusedIn(task, j.a + t.n, w)
      ensures w == 0
    {
      hide PageOf, LeftInPage, Poke, Openable;
      RefusedPiece(task, j.a + t.n, t.stored - t.n);
    }

    /** What a region's part of a write comes to when pages are known. */
    lemma WrittenPages(task: Target, j: WriteJob, s: Shot, w: nat, m: nat)
      requires task.pageSize > 0 && 0 < j.u < TWO_32 && Written(task, j, s, w, m) && (w < |j.data| ==> m > w)
      ensures w <= |j.data| && m == Attempted(j.a, w, |j.data|, j.u) && s == Wrote(j.start, j.a, j.data[..m], j.u)
      ensures w == 0 || w == |j.data| || Aligned(j.a + w, j.u)
    {
      hide Poke, AsWrites, Tiles, RefusedIn;
      PieceFacts(j.a + w, |j.data| - w, j.u);
    }

    lemma NothingGoing(task: Target, pages: Pages, j: WriteJob)
      requires task.pageSize > 0
      ensures Going(task, pages, j, j.start, Tally(0, 0, 0))
    {
      hide Poke, PageOf, PageStart, Openable, Progress;
      PokeNothing(j.start.mem, j.a);
      assert j.data[..0] == [];
      NothingRefused(task, j.a);
      if j.u > 0 { NoProgress(j); }
    }

    /** What the loop has come to when it ends. */
    lemma GoneAsFarAs(task: Target, pages: Pages, j: WriteJob, s: Shot, t: Tally)
      requires task.pageSize > 0 && Ended(task, pages, j, s, t)
      ensures Partly(task, pages, j, s, t)
      ensures t.n == t.stored < |j.data| ==> !Openable(pages, task.pageSize, j.a + t.n)
      ensures j.u == 0 ==> !Sticks(task, pages, j.a, |j.data|)
      ensures 0 < j.u < TWO_32 && j.u == task.pageSize ==>
                && t.n <= |j.data|
                && (t.n < |j.data| ==> !Accepts(task, pages, j.a + t.n))
                && t.stored == Stored(task, pages, j.a, t.n, |j.data|)
                && Progress(j, s, t)
    {
      hide PageOf, PageStart, LeftInPage, Poke, Openable, Progress, RefusedIn, Aligned, Sticks;
      if 0 < j.u < TWO_32 && j.u == task.pageSize && t.stored > t.n {
        RefusedPiece(task, j.a + t.n, t.stored - t.n);
        assert Openable(pages, task.pageSize, j.a + t.n);
      }
    }

    // ---- when a write repeats a pass for ever ----

    /** A pass without a page size, in pages that agree with the first ones from `a` on: it is stuck, or it takes the
        whole part and leaves the rest to tell whether the write sticks, or it counts nothing and the write ends. */
    lemma SticksStep(task: Target, pages: Pages, was: Pages, j: WriteJob, s: Shot, a: nat, left: nat,
                     w: nat, m: nat, stuck: bool)
      requires task.pageSize > 0 && SameFrom(pages, was, PageOf(a, task.pageSize))
      requires Openable(was, task.pageSize, a) && j.a == a && j.u == 0
      requires |j.data| == RegionPart(was, task.pageLimit, task.pageSize, a, left) > 0
      requires Written(task, j, s, w, m) && (!stuck && w < |j.data| ==> m > w)
      requires !stuck ==> w == 0 || (w == |j.data| && w < TWO_32)
      requires stuck <==> |j.data| >= TWO_32 && !RefusedIn(task, a, |j.data| % TWO_32)
      ensures stuck ==> Sticks(task, pages, a, left)
      ensures !stuck && w == |j.data| ==>
                (Sticks(task, pages, a, left) <==> Sticks(task, pages, a + w, left - w))
      ensures !stuck && w < |j.data| ==> w == 0 && !Sticks(task, pages, a, left)
    {
      hide PageOf, RegionPart, Openable, RefusedIn, Poke, Inside, Tiles, AsWrites;
      SamePart(pages, was, task.pageLimit, task.pageSize, a, left);
    }

    lemma NothingSticks(task: Target, pages: Pages, a: nat, count: nat)
      requires task.pageSize > 0
      ensures count == 0 || !Openable(pages, task.pageSize, a) ==> !Sticks(task, pages, a, count)
    {
    }

    // ---- the loop ----

    /** Looks up the region of `address` and makes the part of it that is wanted read-write. `cut` is how many of the
        `dataCount` bytes lie in the region, or zero when its pages cannot be opened. */
    method OpenRegion(vmRegion: MachVMRegion, task: Target, address: nat, dataCount: nat) returns (cut: nat)
      requires vmRegion.task == task && vmRegion.Inv() && address < TWO_64 && dataCount > 0
      modifies task`pages, vmRegion
      ensures vmRegion.Inv() && SameProtections(old(vmRegion.Baseline()), vmRegion.Baseline())
      ensures cut > 0 <==> Openable(old(vmRegion.Baseline()), task.pageSize, address)
      ensures cut > 0 ==>
                && cut == RegionPart(old(vmRegion.Baseline()), task.pageLimit, task.pageSize, address, dataCount)
                && cut <= dataCount && address + cut < TWO_64
                && (cut == dataCount || Aligned(address + cut, task.pageSize))
                && (forall b: nat | address <= b < address + cut ::
                      Openable(old(vmRegion.Baseline()), task.pageSize, b))
                && AllHave(task.pages, PageOf(address, task.pageSize), PageUp(address + cut, task.pageSize), READ_WRITE)
                && SameFrom(old(vmRegion.Baseline()), vmRegion.Baseline(), PageUp(address + cut, task.pageSize))
    {
      hide PageOf, PageUp, PageStart, PagesValid, Aligned, AllHave, SameProtections, RegionFrom, Grant, SetProt,
        Openable, Mapped, Recorded, SameFrom;
      cut := 0;
      var found := vmRegion.GetRegionForAddress(address);
      SameProtectionsReflexive(task.pages);
      OpenableKept(task.pages, task.pages, task.pageSize, address);
      if found {
        var currDataCount := dataCount;
        var regionBytesLeft := vmRegion.BytesRemaining(address);
        vmRegion.ContainsIsPageMembership(address);
        if regionBytesLeft == 0 {
          assert false;
          return;
        }
        if currDataCount > regionBytesLeft {
          currDataCount := regionBytesLeft;
        }
        ghost var pages, lo := task.pages, PageOf(address, task.pageSize);
        ghost var hi := PageUp(address + currDataCount, task.pageSize);
        ghost var was, copy := vmRegion.protection, vmRegion.GrantIn(address, currDataCount, READ_WRITE);
        vmRegion.ClampedPages(address, currDataCount);
        RegionOpens(task.pages, task.pages, task.pageLimit, task.pageSize, address, currDataCount);
        StartIsAligned(vmRegion.end, task.pageSize);
        ChangedBelow(pages, lo, hi, READ_WRITE, copy.Some? && copy.value, was);
        var writable := vmRegion.SetProtections(address, currDataCount, READ_WRITE);
        if writable {
          cut := currDataCount;
        }
      }
    }

    /** One pass of Write's loop: opens the part of the region that is wanted, and writes it. */
    method WriteInOneRegion(vmRegion: MachVMRegion, task: Target, address: nat, data: Option<seq<bv8>>, dataCount: nat)
      returns (n: nat, stuck: bool, ghost cut: nat, ghost stored: nat)
      requires vmRegion.task == task && vmRegion.Inv()
      requires address < TWO_64 && dataCount > 0 && (data.Some? ==> dataCount <= |data.value|)
      modifies this, task, vmRegion
      ensures vmRegion.Inv() && Unit(task) == old(Unit(task))
      ensures SameProtections(old(vmRegion.Baseline()), vmRegion.Baseline())
      ensures data.None? || !Openable(old(vmRegion.Baseline()), task.pageSize, address) ==>
                n == 0 && !stuck && task.mem == old(task.mem) && task.requests == old(task.requests)
      ensures data.Some? && Openable(old(vmRegion.Baseline()), task.pageSize, address) ==>
                && cut == RegionPart(old(vmRegion.Baseline()), task.pageLimit, task.pageSize, address, dataCount)
                && 0 < cut <= dataCount && (cut == dataCount || Aligned(address + cut, task.pageSize))
                && address + cut < TWO_64
                && (forall b: nat | address <= b < address + cut ::
                      Openable(old(vmRegion.Baseline()), task.pageSize, b))
                && SameFrom(old(vmRegion.Baseline()), vmRegion.Baseline(), PageUp(address + cut, task.pageSize))
                && Written(task, WriteJob(old(Snap(task)), address, data.value[..cut], Unit(task)), Snap(task),
                           n, stored)
                && (n < cut && !stuck ==> stored > n)
                && (stuck ==> n == stored < cut && Piece(address + n, cut - n, Unit(task)) % TWO_32 == 0)
                && (Unit(task) == 0 ==>
                      && (stuck <==> cut >= TWO_32 && !RefusedIn(task, address, cut % TWO_32))
                      && (!stuck ==> n == 0 || (n == cut && n < TWO_32)))
    {
      hide PageOf, PageUp, PageStart, PagesValid, Aligned, AllHave, SameProtections, SetProt, Openable, Recorded,
        Written, Piece, Reported, Tried, PieceOk, RefusedIn, RegionPart, SameFrom;
      n, stuck, stored := 0, false, 0;
      var currDataCount := OpenRegion(vmRegion, task, address, dataCount);
      cut := currDataCount;
      if currDataCount > 0 {
        n, stuck, stored := WriteRegion(task, address, data, currDataCount);
        if data.Some? {
          ReportedWhole(task, task.pages, WriteJob(old(Snap(task)), address, data.value[..cut], Unit(task)), n, stored);
          OpenStatus(task, task.pages, address, cut, cut % TWO_32);
        }
      }
    }

    lemma ReportedWhole(task: Target, pages: Pages, j: WriteJob, n: nat, stored: nat)
      requires task.pageSize > 0 && Reported(task, pages, j, n, stored)
      ensures j.u == 0 && (n < |j.data| ==> stored > n) ==> n == 0 || (n == |j.data| && n < TWO_32)
    {
    }

    /** On read-write pages the status of a piece is that of its flush. */
    lemma OpenStatus(task: Target, pages: Pages, a: nat, n: nat, c: nat)
      requires task.pageSize > 0 && c <= n && n > 0
      requires AllHave(pages, PageOf(a, task.pageSize), PageUp(a + n, task.pageSize), READ_WRITE)
      ensures PieceOk(task, pages, a, c) <==> !RefusedIn(task, a, c)
    {
      hide PageOf, PageUp, PieceOk, RefusedIn, AllHave, Writable, Mapped;
      ChunkWritable(pages, task.pageSize, a, n, a, c);
      PieceStatus(task, pages, a, c);
      if !flushes { NeverRefused(task, a, c); }
    }

    /** Writes the longest prefix of the range whose pages can all be opened and flushed, and leaves every page's
        protection as it was on every path out. `stuck` when a pass repeats for ever: without a page size exactly when
        `Sticks` says so, never with pages of fewer than 2^32 bytes. */
    method Write(task: Target, address: nat, data: Option<seq<bv8>>, dataCount: nat)
      returns (n: nat, stuck: bool, ghost t: Tally)
      requires task.Valid() && address < TWO_64 && dataCount < TWO_64
      requires data.Some? ==> dataCount <= |data.value|
      modifies this, task
      ensures Unit(task) == old(Unit(task))
      ensures stuck ==> data.Some? && !FitsCast(Unit(task), dataCount)
      ensures Unit(task) == 0 && data.Some? ==> (stuck <==> Sticks(task, old(task.pages), address, dataCount))
      ensures !stuck ==> task.Valid() && SameProtections(old(task.pages), task.pages)
      ensures data.None? ==> n == 0 && task.mem == old(task.mem) && task.requests == old(task.requests)
      ensures data.Some? && !stuck ==>
                && var j := WriteJob(old(Snap(task)), address, data.value[..dataCount], Unit(task));
                && n == t.n && Partly(task, old(task.pages), j, Snap(task), t)
                && (n == t.stored < dataCount ==> !Openable(old(task.pages), task.pageSize, address + n))
      ensures data.Some? && KnowsPageSize(task) ==>
                && var j := WriteJob(old(Snap(task)), address, data.value[..dataCount], Unit(task));
                && !stuck && n <= dataCount && t.again <= 2
                && (n < dataCount ==> !Accepts(task, old(task.pages), address + n))
                && t.stored == Stored(task, old(task.pages), address, n, dataCount)
                && Progress(j, Snap(task), t)
    {
      hide PageOf, PageUp, PageStart, LeftInPage, PagesValid, Aligned, Poke, SameProtections, SetProt, Openable,
        Recorded, Progress, Going, Written, Piece, RefusedIn, Partly, RegionPart, SameFrom, Sticks, UnderWay, Ended,
        MachVMRegion.Placed, MachVMRegion.Baseline;
      var vmRegion := new MachVMRegion(task);
      ghost var pages := task.pages;
      ghost var bytes := if data.Some? then data.value[..dataCount] else [];
      ghost var j := WriteJob(Snap(task), address, bytes, Unit(task));
      t := Tally(0, 0, 0);
      SameProtectionsReflexive(pages);
      NothingUnderWay(task, pages, j);
      var totalBytesWritten := 0;
      var currAddr := address;
      var currData := 0;
      while totalBytesWritten < dataCount
        invariant fresh(vmRegion) && vmRegion.task == task && vmRegion.Inv() && Unit(task) == j.u
        invariant SameProtections(pages, vmRegion.Baseline())
        invariant currData == totalBytesWritten <= dataCount && currAddr == address + totalBytesWritten < TWO_64
        invariant data.None? ==> totalBytesWritten == 0 && Snap(task) == j.start
        invariant data.Some? ==>
                    && t.n == totalBytesWritten && t.again <= 1
                    && UnderWay(task, pages, vmRegion.Baseline(), j, Snap(task), t)
        decreases dataCount - totalBytesWritten
      {
        ghost var s, was := Snap(task), vmRegion.Baseline();
        ghost var cut, m;
        var bytesWritten;
        bytesWritten, stuck, cut, m := WriteInOneRegion(vmRegion, task, currAddr,
                                                        if data.Some? then Some(data.value[currData..]) else None,
                                                        dataCount - totalBytesWritten);
        SameProtectionsTransitive(pages, was, vmRegion.Baseline());
        if data.Some? {
          PassOver(task, pages, was, vmRegion.Baseline(), j, s, t, Snap(task), data.value, cut, bytesWritten, m, stuck);
        }
        if stuck {
          return totalBytesWritten + bytesWritten, true, t;
        }
        if data.Some? {
          t := if Openable(was, task.pageSize, currAddr) then Counted(t, bytesWritten, m) else t;
        }
        if bytesWritten <= 0 {
          break;
        } else {
          totalBytesWritten := totalBytesWritten + bytesWritten;
          currAddr := Add64(currAddr, bytesWritten);
          currData := currData + bytesWritten;
        }
      }
      if data.Some? {
        if t.n == dataCount { AllWritten(task, pages, vmRegion.Baseline(), j, Snap(task), t); }
        GoneAsFarAs(task, pages, j, Snap(task), t);
      }
      vmRegion.Destroy();
      return totalBytesWritten, false, t;
    }

    /** What one pass leaves for the next, and whether the write sticks. */
    lemma PassDone(task: Target, pages: Pages, was: Pages, now: Pages, j: WriteJob, s: Shot, t: Tally, s': Shot,
                   data: seq<bv8>, cut: nat, w: nat, m: nat, stuck: bool)
      requires task.pageSize > 0 && |j.data| <= |data| && j.data == data[..|j.data|]
      requires SameProtections(pages, was) && UnderWay(task, pages, was, j, s, t) && t.n < |j.data|
      requires Openable(was, task.pageSize, j.a + t.n)
      requires cut == RegionPart(was, task.pageLimit, task.pageSize, j.a + t.n, |j.data| - t.n) > 0
      requires cut == |j.data| - t.n || Aligned(j.a + t.n + cut, task.pageSize)
      requires forall b: nat | j.a + t.n <= b < j.a + t.n + cut :: Openable(was, task.pageSize, b)
      requires SameFrom(was, now, PageUp(j.a + t.n + cut, task.pageSize))
      requires Written(task, WriteJob(s, j.a + t.n, data[t.n..][..cut], j.u), s', w, m)
      requires w < cut && !stuck ==> m > w
      requires j.u == 0 ==>
                 && (stuck <==> cut >= TWO_32 && !RefusedIn(task, j.a + t.n, cut % TWO_32))
                 && (!stuck ==> w == 0 || (w == cut && w < TWO_32))
      ensures w <= m <= cut
      ensures stuck && j.u == 0 ==> Sticks(task, pages, j.a, |j.data|)
      ensures !stuck && w > 0 ==> UnderWay(task, pages, now, j, s', Counted(t, w, m))
      ensures !stuck && w == 0 ==> Ended(task, pages, j, s', Counted(t, w, m))
    {
      hide Going, Written, Openable, PageOf, PageUp, Aligned, SameProtections, RegionPart, RefusedIn, Sticks, SameFrom;
      var x := j.a + t.n;
      var p := Part(j, s, t.n, cut);
      assert data[t.n..][..cut] == p.data;
      WrittenBounds(task, p, s', w, m);
      if !stuck { GoingOn(task, pages, was, j, s, t, s', cut, w, m); }
      if j.u == 0 {
        SticksStep(task, pages, was, p, s', x, |j.data| - t.n, w, m, stuck);
        if !stuck && 0 < w < |j.data| - t.n {
          AlignedUp(x + w, task.pageSize);
          PageMono(x, x + w, task.pageSize);
          SameFromLater(pages, was, now, PageOf(x, task.pageSize), PageOf(x + w, task.pageSize));
        }
      }
      if !stuck && w == 0 { GoingBounds(task, pages, j, s, t); }
    }

    /** The same of a pass that may have found that it cannot open the region. */
    lemma PassOver(task: Target, pages: Pages, was: Pages, now: Pages, j: WriteJob, s: Shot, t: Tally, s': Shot,
                   data: seq<bv8>, cut: nat, w: nat, m: nat, stuck: bool)
      requires task.pageSize > 0 && |j.data| <= |data| && j.data == data[..|j.data|]
      requires SameProtections(pages, was) && UnderWay(task, pages, was, j, s, t) && t.n < |j.data|
      requires !Openable(was, task.pageSize, j.a + t.n) ==> w == 0 && !stuck && s' == s
      requires Openable(was, task.pageSize, j.a + t.n) ==>
                 && cut == RegionPart(was, task.pageLimit, task.pageSize, j.a + t.n, |j.data| - t.n)
                 && 0 < cut <= |j.data| - t.n
                 && (cut == |j.data| - t.n || Aligned(j.a + t.n + cut, task.pageSize))
                 && (forall b: nat | j.a + t.n <= b < j.a + t.n + cut :: Openable(was, task.pageSize, b))
                 && SameFrom(was, now, PageUp(j.a + t.n + cut, task.pageSize))
                 && Written(task, WriteJob(s, j.a + t.n, data[t.n..][..cut], j.u), s', w, m)
                 && (w < cut && !stuck ==> m > w)
                 && (stuck ==> w == m < cut && Piece(j.a + t.n + w, cut - w, j.u) % TWO_32 == 0)
                 && (j.u == 0 ==>
                       && (stuck <==> cut >= TWO_32 && !RefusedIn(task, j.a + t.n, cut % TWO_32))
                       && (!stuck ==> w == 0 || (w == cut && w < TWO_32)))
      ensures w <= |j.data| - t.n && (w > 0 ==> Openable(was, task.pageSize, j.a + t.n) && w <= cut)
      ensures stuck ==> !FitsCast(j.u, |j.data|) && (j.u == 0 ==> Sticks(task, pages, j.a, |j.data|))
      ensures var t' := if Openable(was, task.pageSize, j.a + t.n) then Counted(t, w, m) else t;
              && t'.n == t.n + w && (w > 0 ==> t'.again <= 1) && (t.again <= 1 ==> t'.again <= 2)
              && (!stuck && w > 0 ==> UnderWay(task, pages, now, j, s', t'))
              && (!stuck && w == 0 ==> Ended(task, pages, j, s', t'))
    {
      hide UnderWay, Ended, Written, Openable, PageOf, PageUp, Aligned, SameProtections, RegionPart, RefusedIn, Sticks,
        SameFrom, Piece;
      OpenableKept(pages, was, task.pageSize, j.a + t.n);
      if Openable(was, task.pageSize, j.a + t.n) {
        PassDone(task, pages, was, now, j, s, t, s', data, cut, w, m, stuck);
        if stuck { PieceOfWriteFits(j.a + t.n + w, cut - w, j.u, |j.data|); }
      } else {
        NotOpened(task, pages, was, j, s, t);
      }
    }

    lemma GoingBounds(task: Target, pages: Pages, j: WriteJob, s: Shot, t: Tally)
      requires task.pageSize > 0 && Going(task, pages, j, s, t)
      ensures t.n <= t.stored <= |j.data|
    {
      hide Poke, Openable, RefusedIn, Inside;
    }

    /** The state of Write's loop: the progress made, and that the pages to come are as they were, so that the rest of
        the range tells whether the write sticks. */
    ghost predicate UnderWay(task: Target, pages: Pages, now: Pages, j: WriteJob, s: Shot, t: Tally)
      requires task.pageSize > 0
    {
      && Going(task, pages, j, s, t) && t.n <= |j.data|
      && (j.u == 0 ==>
            && (t.n < |j.data| ==> SameFrom(pages, now, PageOf(j.a + t.n, task.pageSize)))
            && (Sticks(task, pages, j.a, |j.data|) <==> Sticks(task, pages, j.a + t.n, |j.data| - t.n)))
    }

    /** Its state when there is no more to write or no way to go on. */
    ghost predicate Ended(task: Target, pages: Pages, j: WriteJob, s: Shot, t: Tally)
      requires task.pageSize > 0
    {
      && Going(task, pages, j, s, t)
      && (j.u == 0 ==> !Sticks(task, pages, j.a, |j.data|))
      && (t.n == t.stored < |j.data| ==> !Openable(pages, task.pageSize, j.a + t.n))
    }

    lemma NothingUnderWay(task: Target, pages: Pages, j: WriteJob)
      requires task.pageSize > 0
      ensures UnderWay(task, pages, pages, j, j.start, Tally(0, 0, 0))
    {
      hide Going, SameFrom, Sticks, PageOf;
      SameFromHere(pages, PageOf(j.a, task.pageSize));
      NothingGoing(task, pages, j);
    }

    lemma NotOpened(task: Target, pages: Pages, now: Pages, j: WriteJob, s: Shot, t: Tally)
      requires task.pageSize > 0 && UnderWay(task, pages, now, j, s, t)
      requires !Openable(pages, task.pageSize, j.a + t.n)
      ensures Ended(task, pages, j, s, t)
    {
      hide Going, SameFrom, Sticks, PageOf, Openable;
      NothingSticks(task, pages, j.a + t.n, |j.data| - t.n);
    }

    lemma AllWritten(task: Target, pages: Pages, now: Pages, j: WriteJob, s: Shot, t: Tally)
      requires task.pageSize > 0 && UnderWay(task, pages, now, j, s, t) && t.n == |j.data|
      ensures Ended(task, pages, j, s, t)
    {
      hide Going, SameFrom, Sticks, PageOf, Openable;
      NothingSticks(task, pages, j.a + t.n, 0);
    }

    lemma WrittenBounds(task: Target, j: WriteJob, s: Shot, w: nat, m: nat)
      requires task.pageSize > 0 && Written(task, j, s, w, m)
      ensures w <= m <= |j.data|
    {
    }

    lemma PieceOfWriteFits(a: nat, left: nat, u: nat, count: nat)
      requires 0 < left <= count && Piece(a, left, u) % TWO_32 == 0
      ensures !FitsCast(u, count)
    {
      PieceFacts(a, left, u);
      if FitsCast(u, count) { PieceFits(a, left, u, count); }
    }
  }
}
