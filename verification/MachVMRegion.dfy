/** MachVMRegion: one VM region of the target, and the undo record of the protection change made in it. */
module MachVMRegions {
  import opened MachTypes
  import opened Paging
  import opened PageMap
  import opened TargetVM

  class MachVMRegion {
    const task: Target
    var addr: nat
    var err: nat
    var start: nat
    var size: nat
    var protection: Prot        // m_data.protection, as the lookup gave it
    var currProtection: Prot    // the same until SetProtections succeeds, then what it set
    var protectionAddr: nat     // the undo record: the range SetProtections
    var protectionSize: nat     // asked the kernel to change
    ghost var first: nat        // the region's pages are [first, end)
    ghost var end: nat

    // ---- the undo record ----

    predicate Outstanding()
      reads this
    {
      currProtection != protection && protectionSize > 0
    }

    ghost function Lo(): nat
      requires task.pageSize > 0
      reads this
    {
      PageOf(protectionAddr, task.pageSize)
    }

    ghost function Hi(): nat
      requires task.pageSize > 0
      reads this
    {
      PageUp(protectionAddr + protectionSize, task.pageSize)
    }

    /** The kernel would allow the recorded change to be undone. */
    ghost predicate Undoable()
      requires task.pageSize > 0
      reads this, task
    {
      Outstanding() && CanProtect(task.pages, Lo(), Hi(), protection, false)
    }

    /** The target's pages as they will be once this object has tried to undo its change. */
    ghost function Baseline(): Pages
      requires task.pageSize > 0
      reads this, task
    {
      if Undoable() then SetProt(task.pages, Lo(), Hi(), protection, false) else task.pages
    }

    /** The pages of the change, or none. */
    ghost function Window(): (nat, nat)
      requires task.pageSize > 0
      reads this
    {
      if Outstanding() then (Lo(), Hi()) else (0, 0)
    }

    /** A loaded object describes the pages [first, end), and an outstanding change lies inside them. */
    ghost predicate Placed()
      requires task.pageSize > 0
      reads this
    {
      && first < end <= task.pageLimit
      && start == PageStart(first, task.pageSize)
      && size == PageStart(end - first, task.pageSize)
      && (if Outstanding()
          then start <= protectionAddr && protectionAddr + protectionSize <= start + size && first <= Lo() < Hi() <= end
          else currProtection == protection)
    }

    /** The region's pages inside the record, rounded outward, have `currProtection`, and those outside it
        have `protection`. */
    ghost predicate Inv()
      reads this, task
    {
      && task.Valid()
      && (if size == 0 then !Outstanding()
          else Placed() && Recorded(task.pages, first, end, Window().0, Window().1, protection, currProtection))
    }

    // ---- address queries ----

    function StartAddress(): nat
      reads this
    {
      start
    }

    function EndAddress(): nat
      reads this
    {
      Add64(start, size)
    }

    predicate ContainsAddress(a: nat)
      reads this
    {
      a >= StartAddress() && a < EndAddress()
    }

    function BytesRemaining(a: nat): int
      reads this
    {
      if ContainsAddress(a) then size - (a - start) else 0
    }

    /** Under the invariant an address is contained exactly when its page is one of the region's, and the
        bytes remaining reach exactly to the first page past the region: never zero, never wrapping. */
    lemma ContainsIsPageMembership(a: nat)
      requires Inv() && size > 0
      ensures EndAddress() == start + size == PageStart(end, task.pageSize) < TWO_64
      ensures ContainsAddress(a) <==> first <= PageOf(a, task.pageSize) < end
      ensures a < start <==> PageOf(a, task.pageSize) < first
      ensures ContainsAddress(a) ==> BytesRemaining(a) > 0 && a + BytesRemaining(a) == PageStart(end, task.pageSize)
    {
      PageSpan(a, first, end, task.pageLimit, task.pageSize);
    }

    // ---- operations ----

    constructor (task: Target)
      requires task.Valid()
      ensures this.task == task && Inv() && !Outstanding() && err == KERN_SUCCESS && Baseline() == task.pages
    {
      this.task := task;
      addr, err, start, size := INVALID_ADDRESS, KERN_SUCCESS, INVALID_ADDRESS, 0;
      protection, currProtection := NONE, NONE;
      protectionAddr, protectionSize := INVALID_ADDRESS, 0;
      first, end := 0, 0;
    }

    /** Undoes the recorded change if the kernel lets it, as under the invariant it must. */
    method RestoreProtections() returns (ok: bool)
      requires task.Valid()
      modifies this`err, this`protectionSize, this`protectionAddr, this`currProtection, task`pages
      ensures task.Valid()
      ensures ok <==> !old(Outstanding()) || old(Undoable())
      ensures task.pages == old(Baseline())
      ensures ok ==> err == KERN_SUCCESS && !Outstanding()
      ensures old(Inv()) ==> ok && Inv()
    {
      hide PageOf, PageStart, PageUp, SetProt, CanProtect, PagesValid, Recorded;
      if Inv() && Outstanding() {
        UndoIsAllowed(task.pages, task.pageLimit, first, end, Lo(), Hi(), protection, currProtection);
      }
      if currProtection != protection && protectionSize > 0 {
        err := task.VmProtect(protectionAddr, protectionSize, protection, false);
        if err == KERN_SUCCESS {
          protectionSize := 0;
          protectionAddr := INVALID_ADDRESS;
          currProtection := protection;
          return true;
        }
      } else {
        err := KERN_SUCCESS;
        return true;
      }
      return false;
    }

    /** Forgets the region, and its change even when that could not be undone. */
    method Clear()
      requires task.Valid()
      modifies this, task`pages
      ensures Inv() && !Outstanding() && size == 0 && err == KERN_SUCCESS
      ensures protectionSize == 0 && protection == currProtection == NONE
      ensures task.pages == old(Baseline())
    {
      var _ := RestoreProtections();
      addr := INVALID_ADDRESS;
      err := KERN_SUCCESS;
      start := INVALID_ADDRESS;
      size := 0;
      protection := NONE;
      currProtection := NONE;
      protectionAddr := INVALID_ADDRESS;
      protectionSize := 0;
    }

    /** The destructor. */
    method Destroy()
      requires task.Valid()
      modifies this, task`pages
      ensures task.Valid()
      ensures task.pages == old(Baseline())
    {
      Clear();
    }

    /** Undoes any change, then looks up the region of `a`: true exactly when the page of `a` is mapped.
        When it is not but some page above it is, `err` is a success and the object describes the next region. */
    method GetRegionForAddress(a: nat) returns (found: bool)
      requires task.Valid() && a < TWO_64
      modifies this, task`pages
      ensures Inv() && !Outstanding() && Baseline() == task.pages == old(Baseline())
      ensures found <==> Mapped(task.pages, task.pageSize, a)
      ensures found ==> ContainsAddress(a) && size > 0
      ensures var r := RegionFrom(task.pages, task.pageLimit, PageOf(a, task.pageSize));
              && (err == KERN_SUCCESS <==> r.Some?)
              && (r.None? ==> size == 0)
              && (r.Some? ==> size > 0 && first == r.value.first && end == r.value.end && protection == r.value.prot)
      ensures addr == a && (err == KERN_SUCCESS && !found ==> a < start)
    {
      hide PageOf, PageStart, PageUp, SetProt, PagesValid, RegionFrom, Recorded;
      Clear();
      LookupFacts(task.pages, task.pageLimit, PageOf(a, task.pageSize), task.pageSize);
      err := KERN_SUCCESS;
      addr := a;
      start := a;
      err, start, size, protection := task.RegionRecurse(start, size);
      if err != KERN_SUCCESS {
        return false;
      }
      currProtection := protection;
      ghost var r := RegionFrom(task.pages, task.pageLimit, PageOf(a, task.pageSize)).value;
      first, end := r.first, r.end;
      LoadedInv();
      ContainsIsPageMembership(a);
      return !(a < start || a >= Add64(start, size));
    }

    /** An object that has just looked up its region owes nothing. */
    lemma LoadedInv()
      requires task.Valid() && first < end <= task.pageLimit
      requires start == PageStart(first, task.pageSize) && size == PageStart(end - first, task.pageSize) && size > 0
      requires currProtection == protection && protectionSize == 0
      requires Recorded(task.pages, first, end, 0, 0, protection, protection)
      ensures Inv() && !Outstanding() && Baseline() == task.pages
    {
      hide PageStart, PageOf, PagesValid, Recorded;
    }

    /** How many bytes SetProtections changes when asked for `n` from `a`. */
    function ClampToRegion(a: nat, n: nat): nat
      requires ContainsAddress(a)
      reads this
    {
      if n > EndAddress() - a then EndAddress() - a else n
    }

    /** Whether, and how, the kernel lets [a, a + n), clamped to the region, have `prot`. */
    function GrantIn(a: nat, n: nat, prot: Prot): Option<bool>
      requires task.pageSize > 0
      reads this, task
    {
      if ContainsAddress(a) && n > 0
      then Grant(task.pages, PageOf(a, task.pageSize), PageUp(a + ClampToRegion(a, n), task.pageSize), prot)
      else None
    }

    lemma ClampedPages(a: nat, n: nat)
      requires Inv() && ContainsAddress(a) && n > 0
      ensures var k := ClampToRegion(a, n);
              && 0 < k <= n && a + k <= start + size && (k == n || a + k == start + size)
              && first <= PageOf(a, task.pageSize) < PageUp(a + k, task.pageSize) <= end
    {
      var k := ClampToRegion(a, n);
      ContainsIsPageMembership(a);
      ContainsIsPageMembership(a + k - 1);
      RoundedRange(a, k, task.pageSize);
    }

    /** A plain change and, if that fails, another try that may make a copy. */
    method ProtectOrCopy(a: nat, n: nat, prot: Prot)
      requires task.Valid()
      modifies this`err, task`pages
      ensures task.Valid()
      ensures var lo, hi := PageOf(a, task.pageSize), PageUp(a + n, task.pageSize);
              var grant := Grant(old(task.pages), lo, hi, prot);
              && (err == KERN_SUCCESS <==> grant.Some?)
              && (CanProtect(old(task.pages), lo, hi, prot, false) ==>
                    err == KERN_SUCCESS && task.pages == SetProt(old(task.pages), lo, hi, prot, false))
              && (err == KERN_SUCCESS <==>
                  CanProtect(old(task.pages), lo, hi, prot, false) || CanProtect(old(task.pages), lo, hi, prot, true))
              && task.pages ==
                 if grant.Some? then SetProt(old(task.pages), lo, hi, prot, grant.value) else old(task.pages)
    {
      hide PageOf, PageUp, SetProt, CanProtect, PagesValid;
      err := task.VmProtect(a, n, prot, false);
      if err != KERN_SUCCESS {
        err := task.VmProtect(a, n, prot, true);
      }
    }

    /** The first four clauses hold on every call. The last says that the first change after a lookup keeps the
        invariant, and with it the undo; `SecondChangeIsUndone` says when a second change does. */
    method SetProtections(a: nat, n: nat, prot: Prot) returns (ok: bool)
      requires task.Valid() && a < TWO_64
      modifies this`err, this`currProtection, this`protectionAddr, this`protectionSize, task`pages
      ensures task.Valid()
      ensures ok <==> old(ContainsAddress(a) && n > 0 && (prot == currProtection || GrantIn(a, n, prot).Some?))
      ensures ok && prot != old(currProtection) ==>
                && currProtection == prot && protectionAddr == a && protectionSize == old(ClampToRegion(a, n))
                && task.pages == SetProt(old(task.pages), Lo(), Hi(), prot, old(GrantIn(a, n, prot)).value)
      ensures !ok || prot == old(currProtection) ==>
                && task.pages == old(task.pages) && currProtection == old(currProtection)
                && protectionAddr == old(protectionAddr) && protectionSize == old(protectionSize)
      ensures old(Inv() && !Outstanding()) ==>
                && Inv()
                && SameProtections(old(Baseline()), Baseline())
                && (ok && prot != old(currProtection) ==> AllHave(task.pages, Lo(), Hi(), prot))
    {
      hide PageOf, PageStart, PageUp, SetProt, CanProtect, AllHave, Grant, PagesValid, Recorded, SameProtections;
      ghost var before, grant := Baseline(), GrantIn(a, n, prot);
      SameProtectionsReflexive(before);
      if ContainsAddress(a) {
        var protSize := n;
        var endAddr := EndAddress();
        if protSize > endAddr - a {
          protSize := endAddr - a;
        }
        if protSize > 0 {
          if Inv() { ClampedPages(a, n); }
          if prot == currProtection {
            return true;
          } else {
            ProtectOrCopy(a, protSize, prot);
            if err == KERN_SUCCESS {
              currProtection := prot;
              protectionAddr := a;
              protectionSize := protSize;
              assert old(Inv() && !Outstanding()) ==>
                       Inv() && SameProtections(before, Baseline()) && AllHave(task.pages, Lo(), Hi(), prot) by {
                if old(Inv() && !Outstanding()) {
                  ChangeIsRecorded(old(task.pages), task.pageLimit, first, end, Lo(), Hi(), protection, prot,
                                   grant.value);
                }
              }
              return true;
            }
          }
        }
      }
      return false;
    }
  }
  /** Two changes in one lookup, to `p1` and then to a different `p2`: only the second is recorded, so clearing
      the object gives every page its protection back if and only if the second range covers the first. */
  lemma SecondChangeIsUndone(pages: Pages, first: nat, end: nat, was: Prot,
                             lo1: nat, hi1: nat, p1: Prot, copy1: bool, lo2: nat, hi2: nat, p2: Prot, copy2: bool)
    requires Recorded(pages, first, end, 0, 0, was, was)
    requires first <= lo1 < hi1 <= end && first <= lo2 < hi2 <= end && p1 != was && p2 != p1
    ensures var changed := SetProt(SetProt(pages, lo1, hi1, p1, copy1), lo2, hi2, p2, copy2);
            var cleared := if p2 != was then SetProt(changed, lo2, hi2, was, false) else changed;
            (forall p | p in pages :: cleared[p].prot == pages[p].prot) <==> lo2 <= lo1 && hi1 <= hi2
  {
    var changed := SetProt(SetProt(pages, lo1, hi1, p1, copy1), lo2, hi2, p2, copy2);
    var cleared := if p2 != was then SetProt(changed, lo2, hi2, was, false) else changed;
    if lo1 < lo2 {
      assert cleared[lo1].prot == p1;
    } else if hi2 < hi1 {
      assert cleared[hi1 - 1].prot == p1;
    }
  }

  /** A second request in one lookup for the protection already set answers true without a kernel call: its
      pages have that protection if and only if the first change covered them. */
  lemma RepeatedRequestHolds(pages: Pages, first: nat, end: nat, was: Prot,
                             lo1: nat, hi1: nat, prot: Prot, copy: bool, lo2: nat, hi2: nat)
    requires Recorded(pages, first, end, 0, 0, was, was)
    requires first <= lo1 < hi1 <= end && first <= lo2 < hi2 <= end && prot != was
    ensures var changed := SetProt(pages, lo1, hi1, prot, copy);
            (forall p | lo2 <= p < hi2 :: p in changed && changed[p].prot == prot) <==> lo1 <= lo2 && hi2 <= hi1
  {
    var changed := SetProt(pages, lo1, hi1, prot, copy);
    if lo2 < lo1 {
      assert changed[lo2].prot == was;
    } else if hi1 < hi2 {
      assert changed[hi2 - 1].prot == was;
    }
  }
}
