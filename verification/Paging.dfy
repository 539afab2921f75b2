/** Page arithmetic shared by the kernel model and the debugger's memory classes. Page numbers and page
    starts are defined by counting, so that no proof below has to multiply or divide two variables;
    `PageOfIsQuotient` says that they are the usual quotient and product. */
module Paging {

  import opened MachTypes

  /** INVALID_NUB_ADDRESS: all ones in 64 bits. */
  const INVALID_ADDRESS: nat := TWO_64 - 1

  /** Addition of two 64-bit unsigned values. */
  function Add64(a: nat, b: nat): nat {
    (a + b) % TWO_64
  }

  /** The number of the page holding address `a`. */
  function PageOf(a: nat, ps: nat): nat
    requires ps > 0
  {
    if a < ps then 0 else PageOf(a - ps, ps) + 1
  }

  /** The first address of page `p`, and the length of `p` pages. */
  function PageStart(p: nat, ps: nat): nat {
    if p == 0 then 0 else PageStart(p - 1, ps) + ps
  }

  /** The first page number at or above address `a`: the outward rounding of an end address. */
  function PageUp(a: nat, ps: nat): nat
    requires ps > 0
  {
    if a == 0 then 0 else PageOf(a - 1, ps) + 1
  }

  /** Bytes from `a` to the end of its page. */
  function LeftInPage(a: nat, ps: nat): (n: nat)
    requires ps > 0
  {
    PageBounds(a, ps);
    PageStart(PageOf(a, ps) + 1, ps) - a
  }

  function Min(a: nat, b: nat): nat {
    if a <= b then a else b
  }

  /** `a` is the first address of a page. */
  predicate Aligned(a: nat, ps: nat)
    requires ps > 0
  {
    a == PageStart(PageOf(a, ps), ps)
  }

  lemma {:induction false} PageBounds(a: nat, ps: nat)
    requires ps > 0
    ensures PageStart(PageOf(a, ps), ps) <= a < PageStart(PageOf(a, ps) + 1, ps) == PageStart(PageOf(a, ps), ps) + ps
  {
    if a >= ps { PageBounds(a - ps, ps); }
  }

  lemma {:induction false} StartMono(p: nat, q: nat, ps: nat)
    requires p <= q
    ensures PageStart(p, ps) <= PageStart(q, ps)
    ensures p < q ==> PageStart(p, ps) + ps <= PageStart(q, ps)
  {
    if p < q { StartMono(p, q - 1, ps); }
  }

  lemma {:induction false} StartAdd(p: nat, q: nat, ps: nat)
    ensures PageStart(p + q, ps) == PageStart(p, ps) + PageStart(q, ps)
  {
    if q > 0 { StartAdd(p, q - 1, ps); }
  }

  lemma StartIsAligned(p: nat, ps: nat)
    requires ps > 0
    ensures PageOf(PageStart(p, ps), ps) == p && Aligned(PageStart(p, ps), ps)
  {
    var a := PageStart(p, ps);
    PageBounds(a, ps);
    BelowPage(a, p, ps);
    BelowPage(a, p + 1, ps);
  }

  /** An address is below a page exactly when its page number is. */
  lemma BelowPage(a: nat, p: nat, ps: nat)
    requires ps > 0
    ensures a < PageStart(p, ps) <==> PageOf(a, ps) < p
  {
    PageBounds(a, ps);
    if PageOf(a, ps) < p { StartMono(PageOf(a, ps) + 1, p, ps); } else { StartMono(p, PageOf(a, ps), ps); }
  }

  /** A page boundary is rounded up to itself. */
  lemma AlignedUp(a: nat, ps: nat)
    requires ps > 0 && Aligned(a, ps)
    ensures PageUp(a, ps) == PageOf(a, ps)
  {
    if a > 0 {
      PageBounds(a - 1, ps);
      BelowPage(a - 1, PageOf(a, ps), ps);
      BelowPage(a, PageOf(a - 1, ps) + 1, ps);
    }
  }

  /** Where an address lies relative to the pages [s, e), and that their bytes end below 2^64. */
  lemma PageSpan(a: nat, s: nat, e: nat, limit: nat, ps: nat)
    requires ps > 0 && s <= e <= limit && PageStart(limit, ps) < TWO_64
    ensures PageStart(s, ps) + PageStart(e - s, ps) == PageStart(e, ps) < TWO_64
    ensures a < PageStart(s, ps) <==> PageOf(a, ps) < s
    ensures a < PageStart(e, ps) <==> PageOf(a, ps) < e
  {
    StartAdd(s, e - s, ps);
    StartMono(e, limit, ps);
    BelowPage(a, s, ps);
    BelowPage(a, e, ps);
  }

  lemma PageMono(a: nat, b: nat, ps: nat)
    requires ps > 0 && a <= b
    ensures PageOf(a, ps) <= PageOf(b, ps)
  {
    PageBounds(a, ps);
    BelowPage(b, PageOf(a, ps), ps);
  }

  /** A chunk no longer than what is left in its page stays in that page. */
  lemma ChunkInOnePage(a: nat, n: nat, ps: nat)
    requires ps > 0 && n <= LeftInPage(a, ps)
    ensures forall b: nat | a <= b < a + n :: PageOf(b, ps) == PageOf(a, ps)
  {
    forall b: nat | a <= b < a + n ensures PageOf(b, ps) == PageOf(a, ps) {
      PageMono(a, b, ps);
      BelowPage(b, PageOf(a, ps) + 1, ps);
    }
  }

  /** The pages touched by a non-empty byte interval are those between its rounded ends. */
  lemma RoundedRange(a: nat, n: nat, ps: nat)
    requires ps > 0 && n > 0
    ensures PageOf(a, ps) < PageUp(a + n, ps)
    ensures forall b: nat | a <= b < a + n :: PageOf(a, ps) <= PageOf(b, ps) < PageUp(a + n, ps)
  {
    forall b: nat | a <= b < a + n ensures PageOf(a, ps) <= PageOf(b, ps) < PageUp(a + n, ps) {
      PageMono(a, b, ps);
      PageMono(b, a + n - 1, ps);
    }
    assert PageOf(a, ps) <= PageOf(a, ps) < PageUp(a + n, ps);
  }

  lemma DivUnique(a: nat, p: nat, ps: nat)
    requires ps > 0 && p * ps <= a < p * ps + ps
    ensures a / ps == p && a % ps == a - p * ps
  {
    var q, r := a / ps, a % ps;
    assert a == q * ps + r;
    assert q < p ==> (q + 1) * ps <= p * ps;
    assert p < q ==> (p + 1) * ps <= q * ps;
  }

  lemma {:induction false} StartIsProduct(p: nat, ps: nat)
    ensures PageStart(p, ps) == p * ps
  {
    if p > 0 { StartIsProduct(p - 1, ps); }
  }

  /** Counting pages is dividing by the page size, and the offset in a page is the remainder. */
  lemma PageOfIsQuotient(a: nat, ps: nat)
    requires ps > 0
    ensures PageOf(a, ps) == a / ps
    ensures a % ps == a - PageStart(PageOf(a, ps), ps) && LeftInPage(a, ps) == ps - a % ps
  {
    PageBounds(a, ps);
    StartIsProduct(PageOf(a, ps), ps);
    DivUnique(a, PageOf(a, ps), ps);
  }

  /** Rounding an end address outward is dividing with the quotient rounded up. */
  lemma PageUpIsQuotient(a: nat, ps: nat)
    requires ps > 0
    ensures PageUp(a, ps) == (a + ps - 1) / ps
  {
    if a == 0 {
      DivUnique(ps - 1, 0, ps);
    } else {
      var p := PageOf(a - 1, ps);
      PageBounds(a - 1, ps);
      StartIsProduct(p, ps);
      StartIsProduct(p + 1, ps);
      DivUnique(a + ps - 1, p + 1, ps);
    }
  }

  /** A whole number of pages divides back to that number. */
  lemma PagesInSpan(p: nat, ps: nat)
    requires ps > 0
    ensures PageStart(p, ps) / ps == p
  {
    StartIsProduct(p, ps);
    DivUnique(p * ps, p, ps);
  }
}
