/**
 The arm64 shim's view of RAM (arm64shim/shim.cpp): the search for the first free page over
 the RAM banks, and the filling of the page map from banks and reserved regions. Banks and
 regions are input lists; their addresses stay two pages clear of the top of the 64-bit space,
 where the sums of the search would wrap.
 */
module Banks {
  import opened Optional
  import opened PhysPageMap
  import opened WindowMap
  import opened PhysAlloc

  const TOP := 0xFFFF_FFFF_FFFF_E000

  datatype Bank = Bank(base: nat, size: nat)
  datatype Region = Region(start: nat, end: nat)

  predicate Fits(banks: seq<Bank>) {
    forall b :: b in banks ==> b.base + b.size <= TOP
  }

  predicate RegionsFit(res: seq<Region>) {
    forall r :: r in res ==> r.start <= TOP && r.end <= TOP
  }

  /** The page number of the first page boundary at or above x. */
  function CeilPage(x: nat): (p: nat)
    ensures forall q: nat {:trigger 4096 * q} :: p <= q <==> x <= 4096 * q
  {
    (x + 4095) / 4096
  }

  function PageAlignUp(x: nat): (r: nat)
    ensures x <= r && r % 4096 == 0 && (x <= TOP ==> r <= TOP)
  {
    4096 * CeilPage(x)
  }

  /** Page p shares a byte with the region: the test of the bump loop. */
  predicate Touches(r: Region, p: nat) {
    4096 * p < r.end && r.start < 4096 * p + 4096
  }

  predicate Clear(res: seq<Region>, p: nat) {
    forall i :: 0 <= i < |res| ==> !Touches(res[i], p)
  }

  /** Page p lies wholly inside the bank. */
  predicate InBank(b: Bank, p: nat) {
    b.base <= 4096 * p && 4096 * p + 4096 <= b.base + b.size
  }

  ghost predicate InRam(banks: seq<Bank>, p: nat) {
    exists i :: 0 <= i < |banks| && InBank(banks[i], p)
  }

  /** p is the least page from `first` on that touches no reserved region. */
  ghost predicate LeastClear(res: seq<Region>, first: nat, p: nat) {
    first <= p && Clear(res, p) && forall q: nat :: first <= q < p ==> !Clear(res, q)
  }

  // ---- The bump loop -----------------------------------------------------------------------

  /** How many of the regions end above a candidate address. */
  ghost function Ahead(res: seq<Region>, cand: nat): nat {
    if res == [] then 0 else Ahead(res[1..], cand) + if cand < res[0].end then 1 else 0
  }

  lemma {:induction false} AheadShrinks(res: seq<Region>, before: nat, after: nat)
    requires before <= after
    ensures Ahead(res, after) <= Ahead(res, before)
  {
    if res != [] {
      AheadShrinks(res[1..], before, after);
    }
  }

  /** Moving past the end of a region takes that region out for good. */
  lemma {:induction false} AheadDrops(res: seq<Region>, i: nat, before: nat, after: nat)
    requires i < |res| && before < res[i].end <= after
    ensures Ahead(res, after) < Ahead(res, before)
  {
    if i == 0 {
      AheadShrinks(res[1..], before, after);
    } else {
      AheadDrops(res[1..], i - 1, before, after);
    }
  }

  lemma {:induction false} AheadBound(res: seq<Region>, cand: nat)
    ensures Ahead(res, cand) <= |res|
  {
    if res != [] {
      AheadBound(res[1..], cand);
    }
  }

  /** Every page from a touched one up to the end of the region touches it too. */
  lemma BumpSkips(res: seq<Region>, i: nat, page: nat, q: nat)
    requires i < |res| && Touches(res[i], page) && page <= q < CeilPage(res[i].end)
    ensures !Clear(res, q)
  {
  }

  /**
   The bump loop of `scan_bank`. `moves` counts the times the candidate moves. The candidate
   stays at or below TOP, so that no sum of the loop wraps.
   */
  method Bump(res: seq<Region>, start: nat, ghost first: nat)
      returns (cand: nat, ghost page: nat, ghost moves: nat)
    requires start == 4096 * first && start <= TOP && RegionsFit(res)
    ensures cand <= TOP
    ensures cand == 4096 * page && LeastClear(res, first, page)
    ensures cand % 4096 == 0 && LeastClear(res, start / 4096, cand / 4096)
    ensures moves <= |res|
  {
    cand, page, moves := start, first, 0;
    AheadBound(res, cand);
    var moved := true;
    while moved
      invariant cand == 4096 * page <= TOP && first <= page
      invariant forall q: nat :: first <= q < page ==> !Clear(res, q)
      invariant moves + Ahead(res, cand) <= |res|
      invariant !moved ==> Clear(res, page)
      decreases Ahead(res, cand), moved
    {
      moved := false;
      ghost var before := cand;
      for i := 0 to |res|
        invariant cand == 4096 * page <= TOP && first <= page && before <= cand
        invariant forall q: nat :: first <= q < page ==> !Clear(res, q)
        invariant moves + Ahead(res, cand) <= |res|
        invariant if moved then Ahead(res, cand) < Ahead(res, before) else cand == before
        invariant !moved ==> forall j :: 0 <= j < i ==> !Touches(res[j], page)
      {
        if cand < res[i].end && cand + 4096 > res[i].start {
          ghost var last := page;
          forall q: nat | page <= q < CeilPage(res[i].end)
            ensures !Clear(res, q)
          {
            BumpSkips(res, i, page, q);
          }
          cand, page, moved, moves := PageAlignUp(res[i].end), CeilPage(res[i].end), true, moves + 1;
          AheadDrops(res, i, 4096 * last, cand);
        }
      }
    }
  }

  // ---- The search --------------------------------------------------------------------------

  /** A page the search may return: inside a bank and clear of every region. */
  ghost predicate Usable(banks: seq<Bank>, res: seq<Region>, p: nat) {
    InRam(banks, p) && Clear(res, p)
  }

  ghost predicate LowestUsable(banks: seq<Bank>, res: seq<Region>, p: nat) {
    Usable(banks, res, p) && forall q: nat :: Usable(banks, res, q) ==> p <= q
  }

  /** p is the lowest first page over the banks. */
  ghost predicate LowestStart(banks: seq<Bank>, p: nat) {
    && (exists i :: 0 <= i < |banks| && p == CeilPage(banks[i].base))
    && (forall i :: 0 <= i < |banks| ==> p <= CeilPage(banks[i].base))
  }

  /** What the search knows after `banks`: the lowest usable page, or that there is none. */
  ghost predicate Lowest(banks: seq<Bank>, res: seq<Region>, found: bool, page: nat) {
    if found then page % 4096 == 0 && LowestUsable(banks, res, page / 4096)
    else page == 0 && forall p: nat :: !Usable(banks, res, p)
  }

  ghost predicate FirstPage(banks: seq<Bank>, known: bool, first: nat) {
    && (known <==> banks != [])
    && first % 4096 == 0
    && (known ==> LowestStart(banks, first / 4096))
  }

  ghost predicate Highest(banks: seq<Bank>, max: nat) {
    && (forall i :: 0 <= i < |banks| ==> banks[i].base + banks[i].size <= max)
    && (max == 0 || exists i :: 0 <= i < |banks| && max == banks[i].base + banks[i].size)
  }

  lemma UsableMore(banks: seq<Bank>, b: Bank, res: seq<Region>, p: nat)
    ensures Usable(banks + [b], res, p) <==> Usable(banks, res, p) || (InBank(b, p) && Clear(res, p))
  {
    var more := banks + [b];
    assert more[|banks|] == b && forall i :: 0 <= i < |banks| ==> more[i] == banks[i];
  }

  /** The least clear page at or above a bank either fits in the bank, or no clear page does. */
  lemma LowestMore(banks: seq<Bank>, b: Bank, res: seq<Region>, found: bool, page: nat, k: nat)
    requires Lowest(banks, res, found, page) && LeastClear(res, CeilPage(b.base), k)
    ensures var fits := 4096 * k + 4096 <= b.base + b.size;
      Lowest(banks + [b], res, found || fits, if fits && (!found || 4096 * k < page) then 4096 * k else page)
  {
    forall p: nat
      ensures Usable(banks + [b], res, p) <==> Usable(banks, res, p) || (InBank(b, p) && Clear(res, p))
    {
      UsableMore(banks, b, res, p);
    }
    assert forall p: nat :: InBank(b, p) && Clear(res, p) ==> k <= p;
  }

  lemma FirstPageMore(banks: seq<Bank>, b: Bank, known: bool, first: nat)
    requires FirstPage(banks, known, first)
    ensures FirstPage(banks + [b], true, if !known || first > PageAlignUp(b.base) then PageAlignUp(b.base) else first)
  {
    var more := banks + [b];
    assert more[|banks|] == b && forall i :: 0 <= i < |banks| ==> more[i] == banks[i];
  }

  lemma HighestMore(banks: seq<Bank>, b: Bank, max: nat)
    requires Highest(banks, max)
    ensures Highest(banks + [b], if b.base + b.size > max then b.base + b.size else max)
  {
    var more := banks + [b];
    assert more[|banks|] == b && forall i :: 0 <= i < |banks| ==> more[i] == banks[i];
  }

  class FreePageSearch {
    const res: seq<Region>
    var found: bool
    var firstMemoryPage: nat
    var firstMemoryPageSet: bool
    var maxMemoryAddr: nat
    var page: nat
    ghost var banks: seq<Bank>  // the banks scanned so far

    constructor (res: seq<Region>)
      ensures Valid() && banks == [] && this.res == res
    {
      this.res := res;
      found, firstMemoryPage, firstMemoryPageSet, maxMemoryAddr, page := false, 0, false, 0, 0;
      banks := [];
    }

    ghost predicate Valid()
      reads this
    {
      && Lowest(banks, res, found, page)
      && FirstPage(banks, firstMemoryPageSet, firstMemoryPage)
      && Highest(banks, maxMemoryAddr)
    }

    /** The first part of `scan_bank`: the highest address and the first page seen so far. */
    method Extent(base: nat, size: nat)
      requires FirstPage(banks, firstMemoryPageSet, firstMemoryPage) && Highest(banks, maxMemoryAddr)
      modifies `maxMemoryAddr, `firstMemoryPage, `firstMemoryPageSet
      ensures FirstPage(banks + [Bank(base, size)], firstMemoryPageSet, firstMemoryPage)
      ensures Highest(banks + [Bank(base, size)], maxMemoryAddr)
    {
      HighestMore(banks, Bank(base, size), maxMemoryAddr);
      FirstPageMore(banks, Bank(base, size), firstMemoryPageSet, firstMemoryPage);
      if base + size > maxMemoryAddr {
        maxMemoryAddr := base + size;
      }
      var cand := PageAlignUp(base);
      if !firstMemoryPageSet || firstMemoryPage > cand {
        firstMemoryPage := cand;
        firstMemoryPageSet := true;
      }
    }

    /** The last part: the candidate is kept if it fits in the bank and is the lowest so far. */
    method Keep(cand: nat, base: nat, size: nat, ghost k: nat)
      requires Lowest(banks, res, found, page) && LeastClear(res, CeilPage(base), k) && cand == 4096 * k
      modifies `found, `page
      ensures Lowest(banks + [Bank(base, size)], res, found, page)
    {
      LowestMore(banks, Bank(base, size), res, found, page, k);
      if cand + 4096 <= base + size {
        if !found || cand < page {
          found := true;
          page := cand;
        }
      }
    }

    /** `scan_bank`: keeps the lowest usable page over all banks seen. */
    method ScanBank(base: nat, size: nat)
      requires Valid() && base + size <= TOP && RegionsFit(res)
      modifies this
      ensures Valid() && banks == old(banks) + [Bank(base, size)]
    {
      Extent(base, size);
      var cand, k, moves := Bump(res, PageAlignUp(base), CeilPage(base));
      Keep(cand, base, size, k);
      banks := banks + [Bank(base, size)];
    }
  }

  /** `get_first_free_page`: the lowest page inside a bank that touches no reserved region. */
  method GetFirstFreePage(banks: seq<Bank>, res: seq<Region>) returns (s: FreePageSearch)
    requires Fits(banks) && RegionsFit(res)
    ensures fresh(s) && s.Valid() && s.banks == banks && s.res == res
  {
    s := new FreePageSearch(res);
    for i := 0 to |banks|
      invariant fresh(s) && s.Valid() && s.banks == banks[..i] && s.res == res
    {
      s.ScanBank(banks[i].base, banks[i].size);
    }
  }

  // ---- Filling the page map ----------------------------------------------------------------

  lemma BankPages(b: Bank, p: nat)
    ensures InBank(b, p) <==> CeilPage(b.base) <= p < (b.base + b.size) / 4096
  {
  }

  /** `release_usable_bank`: releases the pages of the window that lie wholly inside the bank. */
  method ReleaseUsableBank(m: PageMap, b: Bank)
    requires m.Valid() && b.base + b.size <= TOP
    modifies m`pages, m.bits`claimed, m.bits.words
    ensures m.Valid()
    ensures forall p: nat :: m.base <= p < m.Max() ==>
      (p in m.pages <==> p in old(m.pages) && !InBank(b, p))
  {
    var first, end := CeilPage(b.base), (b.base + b.size) / 4096;
    if first < m.base {
      first := m.base;
    }
    if end > m.Max() {
      end := m.Max();
    }
    forall q: nat | m.base <= q < m.Max()
      ensures InBank(b, q) <==> first <= q < end
    {
      BankPages(b, q);
    }
    var p := first;
    while p < end
      invariant first <= p && (p <= end || p == first) && m.Valid() && m.pages == old(m.pages) - Range(first, p)
    {
      m.Release(p);
      p := p + 1;
    }
  }

  /** The page numbers a region is rounded out to are the pages it touches. */
  lemma RegionPages(r: Region, p: nat)
    ensures Touches(r, p) <==> r.start / 4096 <= p < CeilPage(r.end)
  {
  }

  /** A page number cut to 32 bits. */
  function Cut(page: nat): u32 {
    page % 0x1_0000_0000
  }

  /** Page p is claimed for the region, whose page numbers are cut to 32 bits. */
  predicate Claimed(r: Region, p: nat) {
    Cut(r.start / 4096) <= p < Cut(CeilPage(r.end))
  }

  predicate Unclaimed(res: seq<Region>, p: nat) {
    forall i :: 0 <= i < |res| ==> !Claimed(res[i], p)
  }

  /**
   The region survives the cut: if it covers a page with a 32-bit number, it ends at one; if it
   does not, its cut numbers are not in order, so that nothing is claimed for it.
   */
  predicate Numbered(r: Region) {
    var first, end := r.start / 4096, CeilPage(r.end);
    if first < end && first < 0x1_0000_0000 then end < 0x1_0000_0000 else Cut(end) <= Cut(first)
  }

  /** What is claimed for a region is what it touches, exactly when it survives the cut. */
  lemma ClaimedExact(r: Region)
    ensures Numbered(r) <==> forall p: u32 :: Claimed(r, p) <==> Touches(r, p)
  {
    var first, end := r.start / 4096, CeilPage(r.end);
    forall p: nat
      ensures Touches(r, p) <==> first <= p < end
    {
      RegionPages(r, p);
    }
    if first < 0x1_0000_0000 <= end {
      assert Touches(r, 0xFFFF_FFFF) && !Claimed(r, 0xFFFF_FFFF);
    } else if Cut(first) < Cut(end) {
      assert Claimed(r, Cut(first));
    }
  }

  /** A region of all memory up to one page past 2^44: only page 0 is claimed for it. */
  lemma CutExample()
    ensures var r := Region(0, 0x1000_0000_1000);
      !Numbered(r) && forall p: nat :: Claimed(r, p) <==> p == 0
  {
  }

  lemma NumberedClaims(res: seq<Region>, p: u32)
    requires forall r :: r in res ==> Numbered(r)
    ensures Unclaimed(res, p) <==> Clear(res, p)
  {
    forall i | 0 <= i < |res|
      ensures Claimed(res[i], p) <==> Touches(res[i], p)
    {
      assert res[i] in res;
      ClaimedExact(res[i]);
    }
  }

  /** `claim_clipped` of a region, for those that cover a page number at all. */
  method ClaimRegion(m: PageMap, r: Region)
    requires m.Valid() && r.start <= TOP && r.end <= TOP
    modifies m`pages, m.bits`claimed, m.bits.words
    ensures m.Valid()
    ensures forall p: nat :: m.base <= p < m.Max() ==> (p in m.pages <==> p in old(m.pages) || Claimed(r, p))
  {
    var first, end := Cut(r.start / 4096), Cut(CeilPage(r.end));
    if end > first {
      m.ClaimMany(first, end - first);
    }
  }

  /**
   `populate_physpagemap`: afterwards a page of the window is free exactly when it lies wholly
   inside a RAM bank, is not claimed for a reserved region and is not the seed page. When the
   regions survive the cut of their page numbers, that means that it touches none of them.
   */
  method Populate(m: PageMap, banks: seq<Bank>, res: seq<Region>, seedAddr: nat)
    requires m.Valid() && Fits(banks) && RegionsFit(res)
    modifies m`pages, m.bits`claimed, m.bits.words
    ensures m.Valid()
    ensures forall p: nat :: m.base <= p < m.Max() ==>
      (p !in m.pages <==> InRam(banks, p) && Unclaimed(res, p) && p != Cut(seedAddr / 4096))
    ensures (forall r :: r in res ==> Numbered(r)) ==> forall p: nat :: m.base <= p < m.Max() ==>
      (p !in m.pages <==> Usable(banks, res, p) && p != Cut(seedAddr / 4096))
  {
    m.ClaimMany(m.base, (m.Max() - m.base) % 0x1_0000_0000);
    for i := 0 to |banks|
      invariant m.Valid()
      invariant forall p: nat :: m.base <= p < m.Max() ==> (p !in m.pages <==> InRam(banks[..i], p))
    {
      ReleaseUsableBank(m, banks[i]);
      RamMore(banks, i);
    }
    assert banks[..|banks|] == banks;
    for i := 0 to |res|
      invariant m.Valid()
      invariant forall p: nat :: m.base <= p < m.Max() ==>
        (p !in m.pages <==> InRam(banks, p) && Unclaimed(res[..i], p))
    {
      ClaimRegion(m, res[i]);
      UnclaimedMore(res, i);
    }
    assert res[..|res|] == res;
    m.ClaimMany(Cut(seedAddr / 4096), 1);
    if forall r :: r in res ==> Numbered(r) {
      forall p: u32
        ensures Unclaimed(res, p) <==> Clear(res, p)
      {
        NumberedClaims(res, p);
      }
    }
  }

  lemma RamMore(banks: seq<Bank>, i: nat)
    requires i < |banks|
    ensures forall p: nat :: InRam(banks[..i + 1], p) <==> InRam(banks[..i], p) || InBank(banks[i], p)
  {
  }

  lemma UnclaimedMore(res: seq<Region>, i: nat)
    requires i < |res|
    ensures forall p: nat :: Unclaimed(res[..i + 1], p) <==> Unclaimed(res[..i], p) && !Claimed(res[i], p)
  {
  }

  // ---- Allocating after boot ---------------------------------------------------------------

  /** The pages of an allocation. */
  ghost predicate Holds(r: Option<u32>, pages: u32, p: nat) {
    r.Some? && r.value <= p < r.value + pages
  }

  ghost predicate Apart(r: Option<u32>, pages: u32, r': Option<u32>, pages': u32) {
    forall p: nat :: !(Holds(r, pages, p) && Holds(r', pages', p))
  }

  /** The allocation took free pages of the window, and they are claimed now. */
  ghost predicate Taken(r: Option<u32>, pages: u32, lo: nat, hi: nat, before: set<nat>, now: set<nat>) {
    forall p: nat :: Holds(r, pages, p) ==> lo <= p < hi && p !in before && p in now
  }

  /**
   Boot and then any requests at all: no allocation holds a page outside RAM, in a reserved
   region or the seed page, and no page is handed out twice.
   */
  method BootAndAllocate(m: PageMap, banks: seq<Bank>, res: seq<Region>, seedAddr: nat, requests: seq<u32>)
      returns (got: seq<Option<u32>>)
    requires m.Valid() && Fits(banks) && RegionsFit(res)
    modifies m`pages, m.bits`claimed, m.bits.words
    ensures |got| == |requests|
    ensures forall i, p: nat :: 0 <= i < |got| && Holds(got[i], requests[i], p) ==>
      InRam(banks, p) && Unclaimed(res, p) && p != Cut(seedAddr / 4096)
    ensures (forall r :: r in res ==> Numbered(r)) ==>
      forall i, p: nat :: 0 <= i < |got| && Holds(got[i], requests[i], p) ==> Clear(res, p)
    ensures forall i, j :: 0 <= i < j < |got| ==> Apart(got[i], requests[i], got[j], requests[j])
  {
    Populate(m, banks, res, seedAddr);
    ghost var boot := m.pages;
    assert forall p: nat :: m.base <= p < m.Max() && p !in boot ==>
      InRam(banks, p) && Unclaimed(res, p) && p != Cut(seedAddr / 4096);
    got := [];
    for n := 0 to |requests|
      invariant m.Valid() && |got| == n && boot <= m.pages
      invariant forall i :: 0 <= i < n ==> Taken(got[i], requests[i], m.base, m.Max(), boot, m.pages)
      invariant forall i, j :: 0 <= i < j < n ==> Apart(got[i], requests[i], got[j], requests[j])
    {
      ghost var before := m.pages;
      var r := AllocatePhyspage(m, requests[n]);
      assert Taken(r, requests[n], m.base, m.Max(), before, m.pages);
      got := got + [r];
    }
    forall i, p: nat | 0 <= i < |got| && Holds(got[i], requests[i], p)
      ensures InRam(banks, p) && Unclaimed(res, p) && p != Cut(seedAddr / 4096)
      ensures (forall r :: r in res ==> Numbered(r)) ==> Clear(res, p)
    {
      assert Taken(got[i], requests[i], m.base, m.Max(), boot, m.pages);
      if forall r :: r in res ==> Numbered(r) {
        NumberedClaims(res, p);
      }
    }
  }
}
