/**
 Kernel stacks (kernel/pagealloc.cpp): a guard page without a mapping below the stack's
 pages, in one virtual block over one physical run.
 */
module Stacks {
  import opened PhysPageMap
  import opened PhysAlloc
  import opened PageTree
  import opened Ledger
  import opened VirtAddr
  import opened VirtAlloc

  /** `size + 4096` on 64-bit numbers. */
  function WithGuard(size: u64): u64 {
    (size + 4096) % 0x1_0000_0000_0000_0000
  }

  /** The virtual block is one page longer than the physical run, unless the request was hopeless. */
  lemma GuardPage(size: u64)
    requires 0 < PagesFor(size) < 0x1_0000_0000
    ensures size <= 0x1000_0000_0000 && PagesFor(WithGuard(size)) == PagesFor(size) + 1
  {
  }

  /** In the view: guard page s and n mapped pages over the physical pages from q on. */
  ghost predicate Laid(view: View, s: nat, n: nat, q: nat) {
    && StackRun(view, s, s + 1 + n)
    && (forall v: nat :: s < v <= s + n && v in view ==> view[v].ppn == Frame(q + (v - s - 1)))
    && (forall v: nat :: s < v <= s + n && v in view ==> ForStack(view[v].attrs))
  }

  /** No entry of a page that was in use has changed, nor of any page beside the block. */
  ghost predicate Unharmed(view: View, view': View, s: nat, n: nat) {
    && view'.Keys == view.Keys
    && (forall v: nat :: v in view && !Avail(view, v) ==> view'[v] == view[v])
    && (forall v: nat :: v in view && !(s <= v < s + n) ==> view'[v] == view[v])
  }

  // `Unharmed` for clients that carry it around without unfolding it: `OpenBeside` gives it back.
  predicate Look(u: int) {
    true
  }

  ghost predicate Beside(view: View, view': View, s: nat, n: nat) {
    forall u: int {:trigger Look(u)} :: Look(u) ==> Unharmed(view, view', s, n)
  }

  lemma OpenBeside(view: View, view': View, s: nat, n: nat)
    requires Beside(view, view', s, n)
    ensures Unharmed(view, view', s, n)
  {
    assert Look(0);
  }

  lemma MappedBeside(before: View, grabbed: View, view: View, s: nat, n: nat, q: nat)
    requires Grabbed(before, grabbed, s, n + 1) && Mapped(grabbed, view, s + 1, n, q)
    requires forall v: nat :: s <= v < s + n + 1 ==> Avail(before, v)
    ensures Beside(before, view, s, n + 1)
  {
    assert Unharmed(before, view, s, n + 1);
  }

  lemma GivenBackBeside(before: View, grabbed: View, view: View, s: nat, n: nat)
    requires Grabbed(before, grabbed, s, n) && Freed(grabbed, view, s, n)
    requires forall v: nat :: s <= v < s + n ==> Avail(before, v)
    ensures Beside(before, view, s, n)
  {
    assert Unharmed(before, view, s, n);
  }

  lemma SameBeside(view: View, s: nat, n: nat)
    ensures Beside(view, view, s, n)
  {
  }

  lemma LaidOut(before: View, grabbed: View, view: View, s: nat, n: nat, q: nat)
    requires WellMarked(before) && Grabbed(before, grabbed, s, n + 1) && Mapped(grabbed, view, s + 1, n, q)
    requires forall v: nat :: s <= v < s + n + 1 ==> Avail(before, v)
    ensures Laid(view, s, n, q)
  {
  }

  /** The frame of the lowest mapped page, 0 when only the guard page is there. */
  ghost function LowFrame(view: View, s: nat, page: nat): nat {
    if s + 1 < page && s + 1 in view then Frame(view[s + 1].ppn) else 0
  }

  lemma BlockRun(view: View, blocks: Blocks, covered: set<nat>, s: nat)
    requires Recorded(view, blocks, covered) && s in blocks
    ensures Run(view, s, blocks[s])
  {
    OpenRecorded(view, blocks, covered);
    assert Block(view, s, blocks[s]);
  }

  /** At most one stack ends at a page. */
  lemma StackUnique(view: View, s: nat, page: nat)
    requires StackRun(view, s, page)
    ensures forall t: nat :: StackRun(view, t, page) ==> t == s
  {
    forall t: nat | StackRun(view, t, page)
      ensures t == s
    {
      var m := if s < t then t else s;
      assert StackPage(view, s, m) && StackPage(view, t, m);
    }
  }

  lemma WholePages(n: nat, frame: nat)
    requires n <= 0x10_0000_0000 && frame < 0x1000_0000
    ensures PagesFor(n * 4096) == n && frame * 4096 / 4096 == frame
  {
  }

  /** Neither above 4 GB nor in the range below it is there a run of n available pages. */
  ghost predicate NoVirtualRun(view: View, n: nat) {
    || n == 0
    || ((forall s: nat :: !FreeRun(Unavailable(view, 0x10_0000, 0x8000_0000), 0x10_0000, 0x8000_0000, n, s))
        && (forall s: nat :: !FreeRun(Unavailable(view, 0xC_0200, 0x10_0000), 0xC_0200, 0x10_0000, n, s)))
  }

  /** The lowest run of n available pages above 4 GB, or if there is none, the lowest below. */
  ghost predicate LowestVirtualRun(view: View, n: nat, s: nat)
    requires n > 0
  {
    if s >= 0x10_0000 then
      FirstFit(Unavailable(view, 0x10_0000, 0x8000_0000), 0x10_0000, 0x8000_0000, n, s)
    else
      && (forall t: nat :: !FreeRun(Unavailable(view, 0x10_0000, 0x8000_0000), 0x10_0000, 0x8000_0000, n, t))
      && FirstFit(Unavailable(view, 0xC_0200, 0x10_0000), 0xC_0200, 0x10_0000, n, s)
  }

  /** The page after the one the walk of `free_stack` starts at; bits above the 48th do not take part. */
  function StackTop(top: u64): nat {
    var page := VPage(top);
    if page == 0 then 0x10_0000_0000 else page
  }

  lemma StackTopIs(top: u64)
    requires 0 < top / 4096 <= 0x10_0000_0000
    ensures StackTop(top) == top / 4096
  {
  }

  class StackAllocator {
    const virt: VirtAllocator
    const phys: PhysAllocator

    ghost predicate Valid()
      reads virt, phys.pm, phys.pm.bits, phys.pm.bits.words
    {
      virt.Valid() && phys.pm.Valid()
    }

    constructor (virt: VirtAllocator, phys: PhysAllocator)
      requires virt.Valid() && phys.pm.Valid()
      ensures Valid() && this.virt == virt && this.phys == phys
    {
      this.virt, this.phys := virt, phys;
    }

    /** The mapping half of `alloc_stack`, on a block just taken. */
    method MapStack(s: nat, n: nat, q: nat, ghost before: View)
      requires virt.Valid() && s + 1 + n <= 0x10_0000_0000
      requires WellMarked(before) && Grabbed(before, virt.view, s, n + 1)
      requires forall v: nat :: s <= v < s + n + 1 ==> Avail(before, v)
      modifies virt`mem, virt`view
      ensures virt.Valid() && Laid(virt.view, s, n, q) && Beside(before, virt.view, s, n + 1)
    {
      ghost var grabbed := virt.view;
      virt.MapRun(s + 1, n, q);
      MapRecorded(grabbed, virt.view, virt.blocks, virt.covered);
      LaidOut(before, grabbed, virt.view, s, n, q);
      MappedBeside(before, grabbed, virt.view, s, n, q);
    }

    /** `ppagealloc` answers 0: nothing asked for, page 0 taken by mistake, or no run. */
    ghost predicate NoPhysicalRun(n: nat)
      reads phys.pm
    {
      n == 0 || phys.TakesPageZero(n) || forall s: nat :: !FreeRun(phys.pm.pages, phys.Lowest(), phys.pm.Max(), n, s)
    }

    /** The block for a stack: 0 exactly when there is no run for it. */
    method Reserve(size: u64) returns (bottom: u64)
      requires virt.Valid()
      modifies virt
      ensures virt.Valid() && (bottom == 0 <==> NoVirtualRun(old(virt.view), PagesFor(size)))
      ensures bottom == 0 ==>
        && virt.view == old(virt.view) && virt.blocks == old(virt.blocks)
        && virt.allocatedPages == old(virt.allocatedPages)
      ensures bottom != 0 ==> var s, n := bottom / 4096, PagesFor(size);
        && n > 0 && bottom == s * 4096 && s + n <= 0x8000_0000 && LowestVirtualRun(old(virt.view), n, s)
        && (forall v: nat :: s <= v < s + n ==> Avail(old(virt.view), v))
        && Grabbed(old(virt.view), virt.view, s, n)
        && s !in old(virt.blocks) && virt.blocks == old(virt.blocks)[s := n]
        && virt.allocatedPages == old(virt.allocatedPages) + n
    {
      bottom := virt.VpageAlloc(size);
    }

    /** Undoes `Reserve`. */
    method GiveBack(bottom: u64)
      requires virt.Valid() && bottom / 4096 < 0x10_0000_0000 && bottom / 4096 in virt.blocks
      modifies virt
      ensures virt.Valid() && virt.blocks == old(virt.blocks) - {bottom / 4096}
      ensures Freed(old(virt.view), virt.view, bottom / 4096, old(virt.blocks)[bottom / 4096])
      ensures virt.allocatedPages == old(virt.allocatedPages) - old(virt.blocks)[bottom / 4096]
    {
      var freed := virt.VpageFree(bottom);
    }

    /** The pages behind a stack: 0 exactly when there is no run for them. */
    method Back(size: u64) returns (paddr: u64)
      requires phys.pm.Valid()
      modifies phys, phys.pm`pages, phys.pm.bits`claimed, phys.pm.bits.words
      ensures phys.pm.Valid() && (paddr == 0 <==> old(NoPhysicalRun(PagesFor(size))))
      ensures paddr == 0 ==> var zero := old(phys.TakesPageZero(PagesFor(size)));
        && phys.pm.pages == old(phys.pm.pages) + (if zero then {0} else {})
        && phys.allocatedPages == old(phys.allocatedPages) + (if zero then 1 else 0)
      ensures paddr != 0 ==> var q, n := paddr / 4096, PagesFor(size);
        && n > 0 && FirstFit(old(phys.pm.pages), phys.Lowest(), phys.pm.Max(), n, q)
        && phys.pm.pages == old(phys.pm.pages) + Range(q, q + n)
        && phys.allocatedPages == old(phys.allocatedPages) + n
    {
      paddr := phys.Alloc(size);
    }

    /** `alloc_stack`: the address just above the stack, or 0. */
    method AllocStack(size: u64) returns (top: u64, ghost s: nat, ghost q: nat)
      requires Valid()
      modifies virt, phys, phys.pm`pages, phys.pm.bits`claimed, phys.pm.bits.words
      ensures Valid()
      ensures Beside(old(virt.view), virt.view, s, PagesFor(WithGuard(size)))
      ensures top != 0 ==>
        var n := PagesFor(size);
        && n > 0 && top == (s + 1) * 4096 + size && s + 1 + n <= 0x10_0000_0000
        && LowestVirtualRun(old(virt.view), n + 1, s)
        && s !in old(virt.blocks) && virt.blocks == old(virt.blocks)[s := n + 1]
        && Laid(virt.view, s, n, q)
        && FirstFit(old(phys.pm.pages), phys.Lowest(), phys.pm.Max(), n, q)
        && phys.pm.pages == old(phys.pm.pages) + Range(q, q + n)
        && virt.allocatedPages == old(virt.allocatedPages) + n + 1
        && phys.allocatedPages == old(phys.allocatedPages) + n
      ensures top == 0 <==>
        NoVirtualRun(old(virt.view), PagesFor(WithGuard(size))) ||
        old(NoPhysicalRun(PagesFor(size)))
      ensures top == 0 ==>
        var zero := !NoVirtualRun(old(virt.view), PagesFor(WithGuard(size))) &&
                    old(phys.TakesPageZero(PagesFor(size)));
        && virt.blocks == old(virt.blocks) && virt.allocatedPages == old(virt.allocatedPages)
        && phys.pm.pages == old(phys.pm.pages) + (if zero then {0} else {})
        && phys.allocatedPages == old(phys.allocatedPages) + (if zero then 1 else 0)
    {
      top, s, q := 0, 0, 0;
      assert WellMarked(virt.view) by {
        OpenRecorded(virt.view, virt.blocks, virt.covered);
      }
      var n := PagesFor(size);
      SameBeside(virt.view, s, PagesFor(WithGuard(size)));
      var bottom := Reserve(WithGuard(size));
      ghost var grabbed := virt.view;
      if bottom != 0 {
        s := bottom / 4096;
        var paddr := Back(size);
        if paddr != 0 {
          q := paddr / 4096;
          GuardPage(size);
          MapStack(bottom / 4096, n, paddr / 4096, old(virt.view));
          top := bottom + 4096 + size;
        } else {
          GiveBack(bottom);
          GivenBackBeside(old(virt.view), grabbed, virt.view, s, PagesFor(WithGuard(size)));
        }
      }
    }

    /**
     `free_stack`; ok is false where the source panics. When the stack is a whole recorded
     block, the ledger loses exactly that block.
     */
    method FreeStack(top: u64) returns (ok: bool, ghost s: nat, ghost page: nat)
      requires Valid()
      modifies virt, phys, phys.pm`pages, phys.pm.bits`claimed, phys.pm.bits.words
      ensures phys.pm.Valid() && page == StackTop(top)
      ensures ok <==> exists t: nat ::
        StackRun(old(virt.view), t, page) && Backed(old(virt.view), old(phys.pm.pages), t, page)
      ensures ok ==> var view := old(virt.view);
        && StackRun(view, s, page) && Freed(view, virt.view, s, page - s)
        && phys.pm.pages ==
           old(phys.pm.pages) - Range(LowFrame(view, s, page), LowFrame(view, s, page) + (page - s - 1))
        && virt.allocatedPages == old(virt.allocatedPages) - (page - s)
        && phys.allocatedPages == old(phys.allocatedPages) - (page - s - 1)
      ensures ok && s in old(virt.blocks) && page == s + old(virt.blocks)[s] ==>
        virt.Valid() && virt.blocks == old(virt.blocks) - {s}
    {
      var last := StackTop(top);
      page := last;
      var found, first, ppn := FreeVirtual(last);
      s := first;
      ghost var view := old(virt.view);
      if !found {
        return false, first, last;
      }
      StackUnique(view, s, page);
      WholePages(last - first - 1, Frame(ppn));
      ok := phys.Free(Frame(ppn) * 4096, (last - first - 1) * 4096);
      assert ok <==> Backed(view, old(phys.pm.pages), s, page);
    }

    /** The locked half of `free_stack`: everything up to the call of `ppagefree`. */
    method FreeVirtual(page: nat) returns (ok: bool, s: nat, ppn: nat)
      requires virt.Valid() && 0 < page <= 0x10_0000_0000
      modifies virt
      ensures ok <==> exists t: nat :: StackRun(old(virt.view), t, page)
      ensures ok ==> StackRun(old(virt.view), s, page) && Freed(old(virt.view), virt.view, s, page - s)
      ensures ok ==> Frame(ppn) == LowFrame(old(virt.view), s, page)
      ensures ok ==> virt.allocatedPages == old(virt.allocatedPages) - (page - s)
      ensures ok && s in old(virt.blocks) && page == s + old(virt.blocks)[s] ==>
        virt.Valid() && virt.blocks == old(virt.blocks) - {s}
    {
      ok, s, ppn := virt.ReleaseStack(page);
      if !ok {
        return;
      }
      virt.allocatedPages := virt.allocatedPages - (page - s);
      if s in virt.blocks && page == s + virt.blocks[s] {
        BlockRun(old(virt.view), virt.blocks, virt.covered, s);
        virt.Forget(old(virt.view), s, page - s);
      }
      assert s + 1 < page ==> StackPage(old(virt.view), s, s + 1);
    }

    /** Every physical page behind the stack can be freed. */
    ghost predicate Backed(view: View, claimed: set<nat>, s: nat, page: nat) {
      var q := LowFrame(view, s, page);
      forall p: nat :: q <= p < q + (page - s - 1) ==> phys.Freeable(claimed, p)
    }

    /**
     Freeing a stack just allocated. It never panics and restores the ledger, the bitmap and
     both page counts, precisely when the size is a whole number of pages and the physical
     run starts below page 2^28, the limit of the frame field.
     */
    method FreeUndoesAllocStack(size: u64) returns (top: u64, ok: bool, ghost q: nat)
      requires Valid()
      modifies virt, phys, phys.pm`pages, phys.pm.bits`claimed, phys.pm.bits.words
      ensures top != 0 ==>
        PagesFor(size) > 0 && FirstFit(old(phys.pm.pages), phys.Lowest(), phys.pm.Max(), PagesFor(size), q)
      ensures top != 0 ==> (size % 4096 == 0 && q < 0x1000_0000 <==> ok && phys.pm.pages == old(phys.pm.pages))
      ensures top != 0 && size % 4096 == 0 && q < 0x1000_0000 ==>
        && Valid() && virt.blocks == old(virt.blocks)
        && virt.allocatedPages == old(virt.allocatedPages)
        && phys.allocatedPages == old(phys.allocatedPages)
    {
      ghost var s;
      top, s, q := AllocStack(size);
      ok := true;
      if top != 0 {
        PagesRestored(old(phys.pm.pages), q, PagesFor(size), size % 4096 == 0);
        ok := FreeLaid(top, size, s, q);
      }
    }

    /** `free_stack` on a stack as `alloc_stack` leaves it. */
    method FreeLaid(top: u64, size: u64, ghost s: nat, ghost q: nat) returns (ok: bool)
      requires Valid() && 0 < PagesFor(size) <= 0x8000 && size <= 0x1000_0000_0000
      requires top == (s + 1) * 4096 + size && s + 1 + PagesFor(size) <= 0x10_0000_0000
      requires Laid(virt.view, s, PagesFor(size), q) && Range(q, q + PagesFor(size)) <= phys.pm.pages
      requires q + PagesFor(size) <= phys.pm.Max()
      requires s in virt.blocks && virt.blocks[s] == PagesFor(size) + 1
      modifies virt, phys, phys.pm`pages, phys.pm.bits`claimed, phys.pm.bits.words
      ensures ok ==> phys.pm.pages == old(phys.pm.pages) - Returned(q, PagesFor(size), size % 4096 == 0)
      ensures size % 4096 == 0 && q < 0x1000_0000 ==>
        && ok && Valid() && virt.blocks == old(virt.blocks) - {s}
        && virt.allocatedPages == old(virt.allocatedPages) - (PagesFor(size) + 1)
        && phys.allocatedPages == old(phys.allocatedPages) - PagesFor(size)
    {
      ghost var n, page, view := PagesFor(size), top / 4096, virt.view;
      TopPage(size, s, n);
      StackTopIs(top);
      Walked(view, s, n, q, page);
      assert size % 4096 == 0 && q < 0x1000_0000 ==> Backed(view, phys.pm.pages, s, page);
      ghost var t, last;
      ok, t, last := FreeStack(top);
    }
  }

  /** What `free_stack` finds from a page of the stack on down. */
  lemma Walked(view: View, s: nat, n: nat, q: nat, page: nat)
    requires Laid(view, s, n, q) && s < page <= s + 1 + n
    ensures StackRun(view, s, page)
    ensures forall t: nat :: StackRun(view, t, page) ==> t == s
    ensures LowFrame(view, s, page) == if s + 1 < page then Frame(q) else 0
  {
    StackPrefix(view, s, s + 1 + n, page);
    StackUnique(view, s, page);
    assert s + 1 < page ==> StackPage(view, s, s + 1);
  }

  /** The pages that `free_stack` gives back for n pages from q on, the last of them perhaps only begun. */
  ghost function Returned(q: nat, n: nat, whole: bool): set<nat>
    requires n > 0
  {
    if whole then Range(Frame(q), Frame(q) + n)
    else if n > 1 then Range(Frame(q), Frame(q) + (n - 1)) else Range(0, 0)
  }

  /** They are the pages that were taken exactly for whole pages and a frame number that was not cut. */
  lemma PagesRestored(before: set<nat>, q: nat, n: nat, whole: bool)
    requires 0 < n <= 0x8000 && before !! Range(q, q + n)
    ensures before + Range(q, q + n) - Returned(q, n, whole) == before <==> whole && q < 0x1000_0000
    ensures whole && q < 0x1000_0000 ==> Frame(q) == q
  {
    var after := before + Range(q, q + n) - Returned(q, n, whole);
    if !(whole && q < 0x1000_0000) {
      var kept := if whole then q else q + n - 1;
      assert kept !in before && kept in after;
    }
  }

  /** A stack of 100 bytes over page 16: the page stays claimed. */
  lemma PartialPageExample()
    ensures PagesFor(100) == 1 && 100 % 4096 != 0
    ensures {} + Range(16, 17) - Returned(16, 1, false) == {16}
  {
  }

  /** A stack of one whole page over page 2^28: page 0 is given back in its place. */
  lemma CutFrameExample()
    ensures Returned(0x1000_0000, 1, true) == {0}
    ensures {} + Range(0x1000_0000, 0x1000_0001) - Returned(0x1000_0000, 1, true) == {0x1000_0000}
  {
  }

  lemma TopPage(size: u64, s: nat, n: nat)
    requires n == PagesFor(size) && 0 < n && size <= 0x1000_0000_0000
    ensures ((s + 1) * 4096 + size) / 4096 == if size % 4096 == 0 then s + 1 + n else s + n
  {
  }

  lemma StackPrefix(view: View, s: nat, top: nat, page: nat)
    requires StackRun(view, s, top) && s < page <= top
    ensures StackRun(view, s, page)
  {
  }
}
