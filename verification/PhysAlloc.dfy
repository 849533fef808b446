/** A value that may be missing (std::optional). */
module Optional {
  datatype Option<+T> = None | Some(value: T)
}

/**
 First-fit allocation of physical pages: `allocate_physpage` of the arm64 shim, and
 `ppagealloc_locked` / `ppagefree` of the kernel.
 */
module PhysAlloc {
  import opened Optional
  import opened PhysPageMap
  import opened WindowMap

  type u64 = x: nat | x < 0x1_0000_0000_0000_0000

  /** Pages for a byte size, rounded up with the 64-bit wrap of `size += 4096`. */
  function PagesFor(size: u64): nat {
    (if size % 4096 != 0 then (size + 4096) % 0x1_0000_0000_0000_0000 else size) / 4096
  }

  /** Enough pages and not one more, or none where the size is too near to 2^64. */
  lemma PagesForIs(size: u64)
    ensures if size <= 0xFFFF_FFFF_FFFF_F000 then size <= 4096 * PagesFor(size) < size + 4096 else PagesFor(size) == 0
  {
  }

  /** n pages from s on lie in [lo, hi) and none of them is claimed. */
  ghost predicate FreeRun(claimed: set<nat>, lo: nat, hi: nat, n: nat, s: nat) {
    lo <= s && s + n <= hi && forall p: nat :: s <= p < s + n ==> p !in claimed
  }

  /** No run of n free pages starts below `limit`. */
  ghost predicate NoRunBelow(claimed: set<nat>, lo: nat, hi: nat, n: nat, limit: nat) {
    forall t: nat :: t < limit ==> !FreeRun(claimed, lo, hi, n, t)
  }

  /** The lowest run of n free pages in [lo, hi) starts at s. */
  ghost predicate FirstFit(claimed: set<nat>, lo: nat, hi: nat, n: nat, s: nat) {
    FreeRun(claimed, lo, hi, n, s) && NoRunBelow(claimed, lo, hi, n, s)
  }

  /** A claimed page rules out every run that would contain it. */
  lemma SkipClaimed(claimed: set<nat>, lo: nat, hi: nat, n: nat, start: nat, page: nat)
    requires NoRunBelow(claimed, lo, hi, n, start)
    requires page in claimed && page < start + n
    ensures NoRunBelow(claimed, lo, hi, n, page + 1)
  {
  }

  /** So does a whole stretch of claimed pages, however long. */
  lemma SkipBlock(claimed: set<nat>, lo: nat, hi: nat, n: nat, start: nat, page: nat, end: nat)
    requires NoRunBelow(claimed, lo, hi, n, start)
    requires n > 0 && page < start + n
    requires forall p: nat :: page <= p < end ==> p in claimed
    ensures page < end ==> NoRunBelow(claimed, lo, hi, n, end)
  {
    if page < end {
      forall t: nat | t < end
        ensures !FreeRun(claimed, lo, hi, n, t)
      {
        if start <= t <= page {
          assert page in claimed;
        } else if page < t {
          assert t in claimed;
        }
      }
    }
  }

  /** The scan of `allocate_physpage`: n free pages from `start` on, n == pages on success. */
  method ScanRun(m: PageMap, pages: u32) returns (start: nat, n: nat)
    requires m.Valid() && pages > 0
    ensures n == pages ==> FirstFit(m.pages, m.base, m.Max(), pages, start)
    ensures n != pages ==> n < pages && forall s: nat :: !FreeRun(m.pages, m.base, m.Max(), pages, s)
  {
    ghost var claimed := m.pages;
    start, n := 0, 0;
    var p: nat := m.base;
    while p < m.Max() && n < pages
      invariant m.base <= p - n && (p <= m.Max() || p == m.base) && n <= pages
      invariant n > 0 ==> start == p - n
      invariant forall q: nat :: p - n <= q < p ==> q !in claimed
      invariant NoRunBelow(claimed, m.base, m.Max(), pages, p - n)
    {
      var taken := m.IsClaimed(p);
      if !taken {
        if n == 0 {
          start := p;
        }
        n := n + 1;
      } else {
        SkipClaimed(claimed, m.base, m.Max(), pages, p - n, p);
        n := 0;
      }
      p := p + 1;
    }
  }

  /** Claims a run of pages one by one. */
  method ClaimRun(m: PageMap, start: nat, pages: nat)
    requires m.Valid() && m.base <= start && start + pages <= m.Max()
    modifies m`pages, m.bits`claimed, m.bits.words
    ensures m.Valid()
    ensures m.pages == old(m.pages) + Range(start, start + pages)
  {
    for i := 0 to pages
      invariant m.Valid() && m.pages == old(m.pages) + Range(start, start + i)
    {
      m.Claim(start + i);
    }
  }

  /** `allocate_physpage`: sound, lowest and complete. */
  method AllocatePhyspage(m: PageMap, pages: u32) returns (r: Option<u32>)
    requires m.Valid()
    modifies m`pages, m.bits`claimed, m.bits.words
    ensures m.Valid()
    ensures r.Some? ==>
      && pages > 0 && FirstFit(old(m.pages), m.base, m.Max(), pages, r.value)
      && m.pages == old(m.pages) + Range(r.value, r.value + pages)
    ensures r.None? ==>
      && m.pages == old(m.pages)
      && (pages == 0 || forall s: nat :: !FreeRun(old(m.pages), m.base, m.Max(), pages, s))
  {
    if pages <= 0 {
      return None;
    }
    var start, n := ScanRun(m, pages);
    if n >= pages {
      ClaimRun(m, start, pages);
      return Some(start);
    } else {
      return None;
    }
  }

  class PhysAllocator {
    const pm: PageMap
    var allocatedPages: int

    constructor (pm: PageMap)
      requires pm.Valid()
      ensures this.pm == pm && allocatedPages == 0
    {
      this.pm := pm;
      allocatedPages := 0;
    }

    /** Page 0 is free and a single page is wanted: the one request whose success looks like failure. */
    ghost predicate TakesPageZero(n: nat)
      reads pm
    {
      n == 1 && pm.base == 0 && 0 !in pm.pages
    }

    /** Address 0 is the failure value, so no run is made to start at page 0. */
    function Lowest(): (p: nat)
      ensures p > 0 && p >= pm.base && (p == 1 || p == pm.base)
    {
      if pm.base == 0 then 1 else pm.base
    }

    /** The scan of `ppagealloc_locked`: the start page of the run it is about to claim. */
    method Scan(n: nat) returns (r: Option<nat>)
      requires pm.Valid()
      ensures r == Some(0) <==> TakesPageZero(n)
      ensures r.Some? && r.value != 0 ==>
        n > 0 && FirstFit(pm.pages, Lowest(), pm.Max(), n, r.value)
      ensures r.None? ==>
        n == 0 || forall s: nat :: !FreeRun(pm.pages, Lowest(), pm.Max(), n, s)
    {
      var start: nat, count: nat := 0, 0;
      ghost var claimed, lo, hi := pm.pages, Lowest(), pm.Max();
      var page: nat := pm.base;
      while page < pm.Max()
        invariant pm.base <= page && (page <= hi || page == pm.base)
        invariant page > 0 ==> !TakesPageZero(n)
        invariant start != 0 ==> lo <= start < page && count == page - start && (n == 0 || count < n)
        invariant start != 0 ==> n != 1 && forall q: nat :: start <= q < page ==> q !in claimed
        invariant n > 0 ==> NoRunBelow(claimed, lo, hi, n, if start != 0 then start else page)
      {
        var taken := pm.IsClaimed(page);
        if !taken {
          if start != 0 {
            count := count + 1;
            if count == n {
              return Some(start);
            }
          } else {
            start := page;
            if n == 1 {
              return Some(start);
            }
            count := 1;
          }
        } else {
          if n > 0 {
            SkipClaimed(claimed, lo, hi, n, if start != 0 then start else page, page);
          }
          start := 0;
        }
        page := page + 1;
      }
      return None;
    }

    /**
     `ppagealloc_locked`: the lowest free run above page 0, or 0 when there is none. With
     page 0 free, a one-page request claims page 0 and still returns 0.
     */
    method Alloc(size: u64) returns (addr: u64)
      requires pm.Valid()
      modifies this, pm`pages, pm.bits`claimed, pm.bits.words
      ensures pm.Valid()
      ensures old(TakesPageZero(PagesFor(size))) ==>
        addr == 0 && pm.pages == old(pm.pages) + {0} && allocatedPages == old(allocatedPages) + 1
      ensures !old(TakesPageZero(PagesFor(size))) && addr != 0 ==>
        var n := PagesFor(size);
        && n > 0 && addr % 4096 == 0
        && FirstFit(old(pm.pages), Lowest(), pm.Max(), n, addr / 4096)
        && pm.pages == old(pm.pages) + Range(addr / 4096, addr / 4096 + n)
        && allocatedPages == old(allocatedPages) + n
      ensures !old(TakesPageZero(PagesFor(size))) && addr == 0 ==>
        var n := PagesFor(size);
        && pm.pages == old(pm.pages) && allocatedPages == old(allocatedPages)
        && (n == 0 || forall s: nat :: !FreeRun(old(pm.pages), Lowest(), pm.Max(), n, s))
    {
      var n := PagesFor(size);
      var start := Scan(n);
      if start.None? {
        return 0;
      }
      ClaimRun(pm, start.value, n);
      allocatedPages := allocatedPages + n;
      return start.value * 4096;
    }

    /** Whether `ppagefree` passes this page without a panic. */
    ghost predicate Freeable(claimed: set<nat>, page: nat) {
      page < pm.Max() && (page in claimed || page < pm.base)
    }

    /** `ppagefree`; ok is false where the source panics. */
    method Free(addr: u64, size: u64) returns (ok: bool)
      requires pm.Valid()
      modifies this, pm`pages, pm.bits`claimed, pm.bits.words
      ensures pm.Valid()
      ensures var first, n := addr / 4096, PagesFor(size);
        && (ok <==> forall p: nat :: first <= p < first + n ==> Freeable(old(pm.pages), p))
        && (ok ==> pm.pages == old(pm.pages) - Range(first, first + n))
        && (ok ==> allocatedPages == old(allocatedPages) - n)
    {
      var page: nat, left: nat := addr / 4096, PagesFor(size);
      ghost var first, n, claimed := page, left, pm.pages;
      while left > 0
        invariant page + left == first + n
        invariant forall p: nat :: first <= p < page ==> Freeable(claimed, p)
        invariant pm.Valid() && pm.pages == claimed - Range(first, page)
        invariant allocatedPages == old(allocatedPages) - (page - first)
      {
        var taken := pm.IsClaimed(page % 0x1_0000_0000);
        assert page < pm.Max() ==> page % 0x1_0000_0000 == page;
        assert page !in Range(first, page);
        if !taken || page >= pm.Max() {
          assert !Freeable(claimed, page);
          return false;
        }
        assert Freeable(claimed, page);
        pm.Release(page);
        page := page + 1;
        left := left - 1;
        allocatedPages := allocatedPages - 1;
      }
      return true;
    }

    /** Freeing what `ppagealloc` returned never panics and restores the bitmap and the count. */
    method FreeUndoesAlloc(size: u64) returns (addr: u64, ok: bool)
      requires pm.Valid()
      modifies this, pm`pages, pm.bits`claimed, pm.bits.words
      ensures pm.Valid()
      ensures addr != 0 ==> ok && pm.pages == old(pm.pages) && allocatedPages == old(allocatedPages)
    {
      addr := Alloc(size);
      ok := true;
      if addr != 0 {
        ok := Free(addr, size);
      }
    }
  }

  /** A map from page 0 on with every page free: one page is asked for, page 0 is taken, and the answer is 0. */
  method PageZeroExample() returns (a: PhysAllocator, addr: u64)
    ensures addr == 0 && a.pm.pages == {0} && a.allocatedPages == 1
  {
    var bits := new Bitmap();
    var pm := new PageMap(bits, 0);
    assert pm.pages == {};
    a := new PhysAllocator(pm);
    assert a.TakesPageZero(PagesFor(4096));
    addr := a.Alloc(4096);
  }
}
