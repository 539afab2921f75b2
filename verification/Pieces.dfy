/** The pieces that reads and writes are cut into, the requests for them, and the progress they make. */
module Pieces {
  import opened MachTypes
  import opened Paging
  import opened PageMap
  import opened TargetVM

  /** How much of the `left` bytes from `a` one request is for: what lies in the page of `a`, for pages of `u` bytes;
      all of it when the page size is unknown, which is zero. */
  function Piece(a: nat, left: nat, u: nat): nat {
    if u == 0 then left else Min(left, LeftInPage(a, u))
  }

  /** A page of `u` bytes begins at `x`. */
  predicate CutAt(x: nat, u: nat) {
    u > 0 && Aligned(x, u)
  }

  lemma PieceFacts(a: nat, left: nat, u: nat)
    ensures Piece(a, left, u) <= left && (left > 0 ==> Piece(a, left, u) > 0)
    ensures Piece(a, Piece(a, left, u), u) == Piece(a, left, u)
    ensures Piece(a, left, u) < left ==> CutAt(a + Piece(a, left, u), u)
    ensures u > 0 ==> Piece(a, left, u) <= u
  {
    if u > 0 {
      PageBounds(a, u);
      StartIsAligned(PageOf(a, u) + 1, u);
    }
  }

  /** A piece in numbers. */
  lemma PieceIsRemainder(a: nat, left: nat, u: nat)
    ensures u == 0 ==> Piece(a, left, u) == left
    ensures u > 0 ==> Piece(a, left, u) == if left <= u - a % u then left else u - a % u
  {
    if u > 0 { PageOfIsQuotient(a, u); }
  }

  /** The requests that cover [a, a + n), piece by piece. */
  function Tiles(a: nat, n: nat, u: nat): seq<(nat, nat)>
    decreases n
  {
    if n == 0 then []
    else
      PieceFacts(a, n, u);
      var c := Piece(a, n, u);
      [(a, c)] + Tiles(a + c, n - c, u)
  }

  /** The tiles follow one another from `a` to `a + n`; none is empty and none leaves its page, and each but the first
      begins a page. */
  ghost predicate Covers(t: seq<(nat, nat)>, a: nat, n: nat, ps: nat)
    requires ps > 0
  {
    && (forall i | 0 <= i < |t| :: 0 < t[i].1 <= LeftInPage(t[i].0, ps))
    && (forall i | 0 < i < |t| :: t[i].0 == t[i - 1].0 + t[i - 1].1 && Aligned(t[i].0, ps))
    && (n == 0 <==> t == [])
    && (n > 0 ==> t[0].0 == a && t[|t| - 1].0 + t[|t| - 1].1 == a + n)
  }

  lemma {:induction false} TilesCover(a: nat, n: nat, ps: nat)
    requires ps > 0
    ensures Covers(Tiles(a, n, ps), a, n, ps)
    decreases n
  {
    hide PageOf, PageStart, Aligned, LeftInPage, Covers;
    if n > 0 {
      var c := Piece(a, n, ps);
      PieceFacts(a, n, ps);
      TilesCover(a + c, n - c, ps);
      OneMoreCovers(Tiles(a + c, n - c, ps), a, c, n, ps);
    } else {
      assert Covers([], a, n, ps) by { NothingCovers(a, ps); }
    }
  }

  lemma NothingCovers(a: nat, ps: nat)
    requires ps > 0
    ensures Covers([], a, 0, ps)
  {
  }

  lemma OneMoreCovers(rest: seq<(nat, nat)>, a: nat, c: nat, n: nat, ps: nat)
    requires ps > 0 && 0 < c <= n && c <= LeftInPage(a, ps) && (c < n ==> Aligned(a + c, ps))
    requires Covers(rest, a + c, n - c, ps)
    ensures Covers([(a, c)] + rest, a, n, ps)
  {
    hide Aligned, LeftInPage;
    var t := [(a, c)] + rest;
    assert forall i | 0 < i < |t| :: t[i] == rest[i - 1];
  }

  /** Tiling to a page boundary and then onward is tiling in one go. */
  lemma {:induction false} TilesJoin(a: nat, n: nat, m: nat, u: nat)
    requires n == 0 || CutAt(a + n, u)
    ensures Tiles(a, n + m, u) == Tiles(a, n, u) + Tiles(a + n, m, u)
    decreases n
  {
    hide PageOf, PageStart, LeftInPage, Aligned;
    if n > 0 {
      var c := LeftInPage(a, u);
      AlignedPast(a, n, u);
      TilesJoin(a + c, n - c, m, u);
    } else {
      assert Tiles(a, n, u) == [];
    }
  }

  /** A range that ends at a page boundary reaches the end of its first page. */
  lemma AlignedPast(a: nat, n: nat, u: nat)
    requires u > 0 && n > 0 && Aligned(a + n, u)
    ensures 0 < LeftInPage(a, u) <= n
  {
    PageBounds(a, u);
    PageMono(a, a + n, u);
    BelowPage(a, PageOf(a + n, u), u);
    StartMono(PageOf(a, u) + 1, PageOf(a + n, u), u);
  }

  /** One more piece. */
  lemma TilesStep(a: nat, n: nat, c: nat, u: nat)
    requires (n == 0 || CutAt(a + n, u)) && c > 0 && Piece(a + n, c, u) == c
    ensures Tiles(a, n + c, u) == Tiles(a, n, u) + [(a + n, c)]
  {
    hide Piece, CutAt;
    TilesJoin(a, n, c, u);
    assert Tiles(a + n, c, u) == [(a + n, c)] + Tiles(a + n + c, 0, u);
  }

  function AsReads(t: seq<(nat, nat)>): seq<Request> {
    seq(|t|, i requires 0 <= i < |t| => ReadRequest(t[i].0, t[i].1))
  }

  function AsWrites(t: seq<(nat, nat)>): seq<Request> {
    seq(|t|, i requires 0 <= i < |t| => WriteRequest(t[i].0, t[i].1, READ_WRITE))
  }

  lemma TilesNothing(a: nat, u: nat)
    ensures AsReads(Tiles(a, 0, u)) == [] && AsWrites(Tiles(a, 0, u)) == []
  {
  }

  lemma AsReadsStep(t: seq<(nat, nat)>, a: nat, c: nat)
    ensures AsReads(t + [(a, c)]) == AsReads(t) + [ReadRequest(a, c)]
  {
  }

  /** What a request changes or leaves in the target: the bytes, and the log of requests. */
  datatype Shot = Shot(mem: Memory, reqs: seq<Request>)

  ghost function Snap(task: Target): Shot
    reads task
  {
    Shot(task.mem, task.requests)
  }

  /** A read or a write: how the target was when it began, from where on, how much or what, and for pages of `u`
      bytes. */
  datatype ReadJob = ReadJob(start: Shot, a: nat, count: nat, u: nat)
  datatype WriteJob = WriteJob(start: Shot, a: nat, data: seq<bv8>, u: nat)

  // ---- the progress of a read ----

  /** The first `n` bytes of a read have come: they are readable and are `data`, and the requests sent are their
      pieces. */
  ghost predicate Got(pages: Pages, ps: nat, j: ReadJob, reqs: seq<Request>, data: seq<bv8>, n: nat)
    requires ps > 0
  {
    && n <= j.count && data == Bytes(j.start.mem, j.a, n)
    && (forall b: nat | j.a <= b < j.a + n :: Readable(pages, ps, b))
    && reqs == j.start.reqs + AsReads(Tiles(j.a, n, j.u))
    && (n == 0 || n == j.count || CutAt(j.a + n, j.u))
  }

  lemma GotNothing(pages: Pages, ps: nat, j: ReadJob)
    requires ps > 0
    ensures Got(pages, ps, j, j.start.reqs, [], 0)
  {
    TilesNothing(j.a, j.u);
  }

  /** One more piece of a read. */
  lemma GotMore(pages: Pages, ps: nat, j: ReadJob, reqs: seq<Request>, data: seq<bv8>, n: nat)
    requires ps > 0 && n < j.count && Got(pages, ps, j, reqs, data, n)
    ensures var x, c := j.a + n, Piece(j.a + n, j.count - n, j.u);
            && 0 < c <= j.count - n
            && reqs + [ReadRequest(x, c)] == j.start.reqs + AsReads(Tiles(j.a, n + c, j.u))
            && ((forall b: nat | x <= b < x + c :: Readable(pages, ps, b)) ==>
                  Got(pages, ps, j, reqs + [ReadRequest(x, c)], data + Bytes(j.start.mem, x, c), n + c))
  {
    hide Piece, CutAt, Tiles, AsReads, Readable, Bytes;
    PieceFacts(j.a + n, j.count - n, j.u);
    var c := Piece(j.a + n, j.count - n, j.u);
    TilesStep(j.a, n, c, j.u);
    AsReadsStep(Tiles(j.a, n, j.u), j.a + n, c);
    BytesAppend(j.start.mem, j.a, n, c);
  }

  lemma GotSoFar(pages: Pages, ps: nat, j: ReadJob, reqs: seq<Request>, data: seq<bv8>, n: nat)
    requires ps > 0 && Got(pages, ps, j, reqs, data, n)
    ensures data == Bytes(j.start.mem, j.a, n) && (n == 0 || n == j.count || CutAt(j.a + n, j.u))
    ensures forall b: nat | j.a <= b < j.a + n :: Readable(pages, ps, b)
    ensures n == j.count ==> reqs == j.start.reqs + AsReads(Tiles(j.a, n, j.u))
  {
  }

  lemma AsWritesStep(t: seq<(nat, nat)>, a: nat, c: nat)
    ensures AsWrites(t + [(a, c)]) == AsWrites(t) + [WriteRequest(a, c, READ_WRITE)]
  {
  }

  /** A chunk that uses up its page ends at a page boundary. */
  lemma AfterChunk(a: nat, c: nat, ps: nat)
    requires ps > 0
    ensures LeftInPage(a, ps) > 0 && (c == LeftInPage(a, ps) ==> Aligned(a + c, ps))
  {
    PageBounds(a, ps);
    StartIsAligned(PageOf(a, ps) + 1, ps);
  }

  /** The pieces of a range survive the cast to 32 bits. */
  predicate FitsCast(u: nat, count: nat) {
    0 < u < TWO_32 || (u == 0 && count < TWO_32)
  }

  lemma PieceFits(a: nat, left: nat, u: nat, count: nat)
    requires FitsCast(u, count) && left <= count
    ensures Piece(a, left, u) % TWO_32 == Piece(a, left, u)
  {
    PieceFacts(a, left, u);
  }

  /** A piece of a read-write range is writable, and the kernel's record of it will say read-write. */
  lemma ChunkWritable(pages: Pages, ps: nat, a: nat, n: nat, x: nat, c: nat)
    requires ps > 0 && AllHave(pages, PageOf(a, ps), PageUp(a + n, ps), READ_WRITE)
    requires a <= x < a + n && x + c <= a + n
    ensures forall b: nat | x <= b < x + c :: Writable(pages, ps, b)
    ensures Mapped(pages, ps, x) && pages[PageOf(x, ps)].prot == READ_WRITE
  {
    RoundedRange(a, n, ps);
  }

  /** Of `count` bytes from `a`, those taken up when `n` of them went well and the piece after them failed. */
  function Attempted(a: nat, n: nat, count: nat, u: nat): nat
    requires n <= count
  {
    n + Piece(a + n, count - n, u)
  }

  // ---- the progress of a write ----

  /** `n` bytes count, `stored` bytes are in memory, and the piece after the counted ones has been tried `again`
      times. */
  datatype Tally = Tally(n: nat, stored: nat, again: nat)

  /** The write requests tile the counted bytes and are followed by the attempts at the piece after them, and memory
      holds exactly the bytes stored. */
  ghost predicate Progress(j: WriteJob, s: Shot, t: Tally)
    requires j.u > 0
  {
    && t.n <= t.stored <= |j.data| && (t.stored == t.n <==> t.again == 0)
    && s.mem == Poke(j.start.mem, j.a, j.data[..t.stored])
    && s.reqs == j.start.reqs + AsWrites(Tiles(j.a, t.n, j.u))
                 + Repeat(WriteRequest(j.a + t.n, t.stored - t.n, READ_WRITE), t.again)
  }

  /** After writing `data` from `a` on, piece by piece. */
  function Wrote(s: Shot, a: nat, data: seq<bv8>, u: nat): Shot {
    Shot(Poke(s.mem, a, data), s.reqs + AsWrites(Tiles(a, |data|, u)))
  }

  lemma NoProgress(j: WriteJob)
    requires j.u > 0
    ensures Progress(j, j.start, Tally(0, 0, 0))
  {
    PokeNothing(j.start.mem, j.a);
    TilesNothing(j.a, j.u);
  }

  function Repeat<T>(x: T, k: nat): seq<T> {
    seq(k, _ => x)
  }

  /** The requests for `m` bytes of which the last piece, if any, comes after the first `w`. */
  lemma AsWritesSplit(x: nat, w: nat, m: nat, u: nat)
    requires u > 0 && 0 < w <= m && (w < m ==> m - w <= LeftInPage(x + w, u) && Aligned(x + w, u))
    ensures AsWrites(Tiles(x, m, u)) ==
            AsWrites(Tiles(x, w, u)) + Repeat(WriteRequest(x + w, m - w, READ_WRITE), if w == m then 0 else 1)
  {
    hide PageOf, PageStart, LeftInPage, Tiles, Aligned, AsWrites;
    if w < m {
      TilesStep(x, w, m - w, u);
      AsWritesStep(Tiles(x, w, u), x + w, m - w);
    }
  }

  /** A call of WriteRegion that counted `w > 0` bytes and stored `m`: settled progress goes on. */
  lemma ProgressOn(j: WriteJob, s: Shot, n: nat, w: nat, m: nat)
    requires j.u > 0 && Progress(j, s, Tally(n, n, 0))
    requires (n == 0 || Aligned(j.a + n, j.u)) && 0 < w <= m && n + m <= |j.data|
    requires w < m ==> m - w <= LeftInPage(j.a + n + w, j.u) && Aligned(j.a + n + w, j.u)
    ensures Progress(j, Wrote(s, j.a + n, j.data[n..n + m], j.u), Tally(n + w, n + m, if w == m then 0 else 1))
  {
    hide Poke, PageOf, PageStart, LeftInPage, Tiles, Aligned, AsWrites;
    var x := j.a + n;
    PokeFrom(j.start.mem, j.a, j.data, n, n, n + m);
    TilesJoin(j.a, n, w, j.u);
    AsWritesJoin(Tiles(j.a, n, j.u), Tiles(x, w, j.u));
    AsWritesSplit(x, w, m, j.u);
    var last := Repeat(WriteRequest(x + w, m - w, READ_WRITE), if w == m then 0 else 1);
    var none := Repeat(WriteRequest(x, 0, READ_WRITE), 0);
    assert |j.data[n..n + m]| == m && none == [];
    Regroup(j.start.reqs, AsWrites(Tiles(j.a, n, j.u)), none, AsWrites(Tiles(x, w, j.u)), last);
  }

  lemma Regroup<T>(a: seq<T>, b: seq<T>, none: seq<T>, c: seq<T>, d: seq<T>)
    requires none == []
    ensures a + b + none + (c + d) == a + (b + c) + d
  {
  }

  /** A call of WriteRegion that counted nothing but stored a piece of `m` bytes, perhaps not for the first time. */
  lemma ProgressAgain(j: WriteJob, s: Shot, t: Tally, m: nat)
    requires j.u > 0 && Progress(j, s, t)
    requires t.stored == t.n || t.stored == t.n + m
    requires 0 < m <= LeftInPage(j.a + t.n, j.u) && t.n + m <= |j.data|
    ensures Progress(j, Wrote(s, j.a + t.n, j.data[t.n..t.n + m], j.u), Tally(t.n, t.n + m, t.again + 1))
  {
    hide Poke, PageOf, PageStart, LeftInPage, Tiles, Aligned, AsWrites;
    var x := j.a + t.n;
    PokeFrom(j.start.mem, j.a, j.data, t.n, t.stored, t.n + m);
    TilesNothing(x, j.u);
    TilesStep(x, 0, m, j.u);
    AsWritesStep(Tiles(x, 0, j.u), x, m);
    var piece := WriteRequest(x, m, READ_WRITE);
    assert Repeat(WriteRequest(x, t.stored - t.n, READ_WRITE), t.again) + [piece] == Repeat(piece, t.again + 1);
  }

  lemma AsWritesJoin(t: seq<(nat, nat)>, u: seq<(nat, nat)>)
    ensures AsWrites(t + u) == AsWrites(t) + AsWrites(u)
  {
  }

  /** In a range cut at a page boundary, the piece at any point is the piece in the uncut range. */
  lemma CutAtBoundary(a: nat, w: nat, cut: nat, count: nat, ps: nat)
    requires ps > 0 && w < cut <= count && (cut == count || Aligned(a + cut, ps))
    ensures Attempted(a, w, cut, ps) == Attempted(a, w, count, ps)
  {
    if cut < count {
      AlignedPast(a + w, cut - w, ps);
    }
  }

  /** The tally after a call of WriteRegion that counted `w` bytes and stored `m`. */
  function Counted(t: Tally, w: nat, m: nat): Tally {
    Tally(t.n + w, if t.stored <= t.n + m then t.n + m else t.stored,
          if w == 0 then t.again + 1 else if m == w then 0 else 1)
  }

  /** What one call of WriteRegion, on `cut` of the bytes to go, does to the progress made. */
  lemma ProgressStep(j: WriteJob, s: Shot, t: Tally, cut: nat, w: nat)
    requires j.u > 0 && Progress(j, s, t) && (t.n == 0 || Aligned(j.a + t.n, j.u))
    requires t.stored == t.n || (w == 0 && t.stored == Attempted(j.a, t.n, |j.data|, j.u))
    requires 0 < cut <= |j.data| - t.n && (cut == |j.data| - t.n || Aligned(j.a + t.n + cut, j.u))
    requires w <= cut && (w == 0 || w == cut || Aligned(j.a + t.n + w, j.u))
    ensures var m := Attempted(j.a + t.n, w, cut, j.u);
            && (if w == cut then m == w else m > w && t.n + m == Attempted(j.a, t.n + w, |j.data|, j.u))
            && t.n + m <= |j.data|
            && Progress(j, Wrote(s, j.a + t.n, j.data[t.n..t.n + m], j.u), Counted(t, w, m))
  {
    hide PageOf, PageStart, Aligned, LeftInPage, Progress, Tiles, AsWrites, Poke, Wrote;
    var x := j.a + t.n;
    AfterChunk(x + w, 0, j.u);
    if w < cut { CutAtBoundary(x, w, cut, |j.data| - t.n, j.u); }
    var m := Attempted(x, w, cut, j.u);
    ProgressSettled(j, s, t);
    if w == 0 {
      ProgressAgain(j, s, t, m);
    } else {
      ProgressOn(j, s, t.n, w, m);
    }
  }

  lemma ProgressSettled(j: WriteJob, s: Shot, t: Tally)
    requires j.u > 0 && Progress(j, s, t)
    ensures t.n <= t.stored <= |j.data| && (t.stored == t.n <==> t.again == 0)
  {
  }

  /** A request to write part of [a, a + n) that lies in one page of `u` bytes and is read-write then. */
  predicate PieceWrite(r: Request, a: nat, n: nat, u: nat) {
    && r.WriteRequest? && r.prot.read && r.prot.write && !r.prot.exec
    && (u > 0 ==> r.size <= LeftInPage(r.addr, u))
    && a <= r.addr && r.addr + r.size <= a + n
  }

  /** The requests sent since `reqs0` are all such writes. */
  ghost predicate Inside(reqs0: seq<Request>, reqs: seq<Request>, a: nat, n: nat, u: nat) {
    && |reqs0| <= |reqs| && reqs[..|reqs0|] == reqs0
    && forall r | r in reqs[|reqs0|..] :: PieceWrite(r, a, n, u)
  }

  lemma InsideStep(reqs0: seq<Request>, reqs: seq<Request>, a: nat, n: nat, c: nat, u: nat)
    requires Inside(reqs0, reqs, a, n, u) && (u > 0 ==> c <= LeftInPage(a + n, u))
    ensures Inside(reqs0, reqs + [WriteRequest(a + n, c, READ_WRITE)], a, n + c, u)
  {
    hide LeftInPage;
    var more := reqs + [WriteRequest(a + n, c, READ_WRITE)];
    assert more[|reqs0|..] == reqs[|reqs0|..] + [WriteRequest(a + n, c, READ_WRITE)];
    assert more[..|reqs0|] == reqs[..|reqs0|];
  }

  lemma InsideJoin(reqs0: seq<Request>, reqs1: seq<Request>, reqs2: seq<Request>,
                   a: nat, n: nat, m: nat, all: nat, u: nat)
    requires Inside(reqs0, reqs1, a, all, u) && Inside(reqs1, reqs2, a + n, m, u)
    ensures n + m <= all ==> Inside(reqs0, reqs2, a, all, u)
  {
    hide LeftInPage;
    assert reqs2[|reqs0|..] == reqs1[|reqs0|..] + reqs2[|reqs1|..];
    assert reqs2[..|reqs0|] == reqs1[..|reqs0|];
  }

  lemma InsideWiden(reqs0: seq<Request>, reqs: seq<Request>, a: nat, n: nat, all: nat, u: nat)
    requires Inside(reqs0, reqs, a, n, u) && n <= all
    ensures Inside(reqs0, reqs, a, all, u)
  {
    hide LeftInPage;
  }

  /** A mapped range ends below 2^64. */
  lemma MappedBelow(task: Target, a: nat, c: nat)
    requires task.Valid() && c > 0 && Mapped(task.pages, task.pageSize, a + c - 1)
    ensures a + c < TWO_64
  {
    var last := a + c - 1;
    PageBounds(last, task.pageSize);
    StartMono(PageOf(last, task.pageSize) + 1, task.pageLimit, task.pageSize);
  }

  lemma ReadableBelow(task: Target, a: nat, c: nat)
    requires task.Valid() && c > 0 && forall b: nat | a <= b < a + c :: Readable(task.pages, task.pageSize, b)
    ensures a + c < TWO_64
  {
    hide PageOf;
    assert Readable(task.pages, task.pageSize, a + c - 1);
    MappedBelow(task, a, c);
  }

  /** The next piece of a write, cast to 32 bits. */
  lemma PieceOfWrite(a: nat, done: nat, count: nat, u: nat)
    requires done < count
    ensures var left := Piece(a + done, count - done, u);
            && 0 < left <= count - done && left % TWO_32 <= left
            && Piece(a + done, left, u) == left
            && (u > 0 ==> left <= LeftInPage(a + done, u))
            && (left < count - done ==> CutAt(a + done + left, u))
            && (FitsCast(u, count) ==> left % TWO_32 == left)
            && (u == 0 ==> left == count - done)
  {
    hide CutAt;
    PieceFacts(a + done, count - done, u);
    if FitsCast(u, count) { PieceFits(a + done, count - done, u, count); }
  }
}
