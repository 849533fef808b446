/**
 The x86 virtual page allocator (kernel/pagealloc.cpp): it keeps its ledger in the
 available and start bits of the leaf entries, and finds free runs by walking the tables.
 */
module VirtAlloc {
  import opened Optional
  import opened PhysPageMap
  import opened PhysAlloc
  import opened PageTree
  import opened VirtAddr
  import opened Ledger

  const USERSPACE_LOW_END: nat := 3
  const PMLT4_USERSPACE_HIGH_START: nat := 16

  /** A leaf entry in memory. */
  datatype Slot = Slot(table: nat, index: nat)

  /** The run the scan is in: how many pages, and its first page. */
  datatype Cursor = Cursor(count: nat, start: nat)

  /** The view read off the tables; used only where `Probe` is mentioned. */
  ghost predicate Tied(mem: Memory, at: Places, view: View) {
    forall v: nat {:trigger Probe(v)} ::
      (if v in view then Some(view[v]) else None) == Leaf(mem, at, v)
  }

  ghost function Unavailable(view: View, lo: nat, hi: nat): set<nat> {
    set v: nat | lo <= v < hi && !Avail(view, v)
  }

  // ---- One step of a walk -------------------------------------------------------------

  lemma TreeStep(mem: Memory, root: nat, at: Places, d: nat, x: nat)
    requires IsTree(mem, root, at) && 1 <= d <= 3 && Place(d - 1, x / 512) in at
    ensures at[Place(d - 1, x / 512)] in mem
    ensures var e := mem[at[Place(d - 1, x / 512)]][x % 512];
      (e.present <==> Place(d, x) in at) && (e.present ==> at[Place(d, x)] == e.ppn && e.ppn in mem)
  {
    OpenTree(mem, root, at);
    assert Place(d, x) in at <==> Linked(mem, at, d, x);
  }

  /** Without a table at (d, x) there is no leaf table below it either. */
  lemma NoTableBelow(mem: Memory, root: nat, at: Places, d: nat, x: nat, y: nat)
    requires IsTree(mem, root, at) && 1 <= d <= 3 && Place(d, x) !in at
    requires x == if d == 1 then y / 512 / 512 else if d == 2 then y / 512 else y
    ensures Place(3, y) !in at
  {
    OpenTree(mem, root, at);
    assert Place(3, y) in at <==> Linked(mem, at, 3, y);
    assert Place(2, y / 512) in at <==> Linked(mem, at, 2, y / 512);
  }

  /** A walk starts at the root. */
  lemma TreeRoot(mem: Memory, root: nat, at: Places)
    requires IsTree(mem, root, at)
    ensures Place(0, 0) in at && at[Place(0, 0)] == root && root in mem
    ensures Place(3, 0x800_0000) !in at
  {
    OpenTree(mem, root, at);
    WalkFollowsTree(mem, root, at, 3, 0x800_0000);
    assert Walk(mem, root, 0, 1) == None;
    assert Walk(mem, root, 1, 512) == None;
    assert Walk(mem, root, 2, 0x4_0000) == None;
  }

  lemma TableInMemory(mem: Memory, root: nat, at: Places, k: Place)
    requires IsTree(mem, root, at) && k in at
    ensures at[k] in mem
  {
    OpenTree(mem, root, at);
  }

  /** Writing a leaf entry keeps the tree and changes the view at one page. */
  lemma SetTied(mem: Memory, root: nat, at: Places, view: View, v: nat, e: Entry)
    requires IsTree(mem, root, at) && Tied(mem, at, view) && v in view && Place(3, v / 512) in at
    requires at[Place(3, v / 512)] in mem
    ensures var mem' := SetEntry(mem, at[Place(3, v / 512)], v % 512, e);
      IsTree(mem', root, at) && Tied(mem', at, view[v := e])
  {
    OpenTree(mem, root, at);
    SetLeaf(mem, root, at, v, e);
    var mem' := SetEntry(mem, at[Place(3, v / 512)], v % 512, e);
    forall w: nat
      ensures (if w in view[v := e] then Some(view[v := e][w]) else None) == Leaf(mem', at, w)
    {
      assert Probe(w);
    }
  }

  // ---- Mapping ------------------------------------------------------------------------

  /** A page frame number as the 28-bit field of an entry holds it. */
  function Frame(page: nat): nat {
    page % 0x1000_0000
  }

  /** What a page of a stack may be used for: written, never executed, with the cache in its usual mode. */
  predicate ForStack(a: Attrs) {
    a.X86? && a.writeable && a.executionDisabled && !a.writeThrough && !a.cacheDisabled
  }

  /** What `alloc_stack` makes of the entry of a page; the fields it does not set stay. */
  function StackEntry(e: Entry, page: nat): Entry {
    e.(ppn := Frame(page), present := true, attrs :=
      if e.attrs.X86? then
        e.attrs.(writeable := true, writeThrough := false, cacheDisabled := false, executionDisabled := true)
      else X86(true, false, false, false, false, false, true))
  }

  /** n pages from s on have been mapped to the physical pages from q on. */
  ghost predicate Mapped(view: View, view': View, s: nat, n: nat, q: nat) {
    && SameMarks(view, view')
    && (forall v: nat :: s <= v < s + n ==> v in view' && view'[v].present)
    && (forall v: nat :: s <= v < s + n ==> view'[v].ppn == Frame(q + (v - s)))
    && (forall v: nat :: s <= v < s + n ==> ForStack(view'[v].attrs) && SameUse(view, view', v))
    && (forall v: nat :: v in view && !(s <= v < s + n) ==> view'[v] == view[v])
  }

  /** The fields of a page's entry that the processor sets, and who may use the page, are as before. */
  ghost predicate SameUse(view: View, view': View, v: nat) {
    && v in view && v in view' && view'[v].attrs.X86?
    && var a, a' := view[v].attrs, view'[v].attrs;
       if a.X86? then a'.user == a.user && a'.accessed == a.accessed && a'.dirty == a.dirty
       else !a'.user && !a'.accessed && !a'.dirty
  }

  lemma MappedStep(view: View, mid: View, s: nat, i: nat, q: nat)
    requires Mapped(view, mid, s, i, q) && s + i in mid
    ensures Mapped(view, mid[s + i := StackEntry(mid[s + i], q + i)], s, i + 1, q)
  {
  }

  /** The slot of a virtual page's leaf entry; unfolded only where `Key` is mentioned. */
  ghost predicate Locates(mem: Memory, at: Places, slot: Slot, v: nat) {
    forall u: int {:trigger Key(u)} :: Key(u) ==>
      Place(3, v / 512) in at && slot == Slot(at[Place(3, v / 512)], v % 512) && slot.table in mem
  }

  ghost predicate Holds(mem: Memory, slot: Slot, e: Entry) {
    slot.table in mem && slot.index < 512 && mem[slot.table][slot.index] == e
  }

  // ---- The scan ------------------------------------------------------------------------

  /** What the scan knows when it has reached page p. */
  ghost predicate Scanning(taken: set<nat>, lo: nat, hi: nat, n: nat, p: nat, c: Cursor) {
    && lo <= p <= hi && lo + c.count <= p
    && (c.count > 0 ==> c.start == p - c.count)
    && (forall q: nat :: p - c.count <= q < p ==> q !in taken)
    && (n > 0 ==> c.count < n && NoRunBelow(taken, lo, hi, n, p - c.count))
  }

  lemma ScanTaken(taken: set<nat>, lo: nat, hi: nat, n: nat, p: nat, p': nat, c: Cursor)
    requires Scanning(taken, lo, hi, n, p, c) && p <= p' <= hi
    requires forall q: nat :: p <= q < p' ==> q in taken
    ensures p < p' ==> Scanning(taken, lo, hi, n, p', Cursor(0, c.start))
  {
    if n > 0 {
      SkipBlock(taken, lo, hi, n, p - c.count, p, p');
    }
  }

  lemma ScanFree(taken: set<nat>, lo: nat, hi: nat, n: nat, p: nat, c: Cursor)
    requires Scanning(taken, lo, hi, n, p, c) && p < hi && p !in taken
    ensures var c' := Cursor(c.count + 1, if c.count == 0 then p else c.start);
      if c'.count == n then FirstFit(taken, lo, hi, n, c'.start) else Scanning(taken, lo, hi, n, p + 1, c')
  {
  }

  class VirtAllocator {
    const root: nat
    var mem: Memory
    var allocatedPages: int
    ghost const at: Places
    ghost var view: View
    ghost var blocks: Blocks
    ghost var covered: set<nat>

    /** The tables are a tree with nothing at page 0, and their bits record the ledger. */
    ghost predicate Valid()
      reads this
    {
      Consistent() && allocatedPages == |covered|
    }

    ghost predicate Consistent()
      reads this
    {
      Tables() && Recorded(view, blocks, covered)
    }

    ghost predicate Tables()
      reads this
    {
      IsTree(mem, root, at) && Tied(mem, at, view) && 0 !in view
    }

    constructor (root: nat, mem: Memory, ghost at: Places, ghost view: View)
      requires Tree(mem, root, at) && Tied(mem, at, view) && 0 !in view && WellMarked(view)
      ensures Valid() && this.root == root && this.mem == mem && this.view == view && blocks == map[]
    {
      this.root, this.mem, this.at, this.view := root, mem, at, view;
      allocatedPages := 0;
      blocks := map[];
      covered := {};
    }

    /** `get_pageentr64`: bits above the 48th do not take part. */
    method GetPageEntry64(addr: u64) returns (r: Option<Slot>)
      requires Tables()
      ensures r.Some? <==> VPage(addr) in view
      ensures r.Some? ==> Locates(mem, at, r.value, VPage(addr)) && Holds(mem, r.value, view[VPage(addr)])
    {
      r := FindLeaf(VPage(addr));
    }

    /** The walk down the four levels for a page; the page after the last one is page 0 again. */
    method FindLeaf(page: nat) returns (r: Option<Slot>)
      requires Tables() && page <= 0x10_0000_0000
      ensures r.Some? <==> page in view
      ensures r.Some? ==> page < 0x10_0000_0000
      ensures r.Some? ==> Locates(mem, at, r.value, page) && Holds(mem, r.value, view[page])
    {
      EndOfSpace();
      var addr := page * 4096;
      ghost var v := VPage(addr);
      assert v == if page == 0x10_0000_0000 then 0 else page;
      assert Probe(v);
      TreeRoot(mem, root, at);
      var table := root;
      IndexIsSlot(addr, 3);
      for level := 0 to 3
        invariant Place(level, Prefix(v, level)) in at && at[Place(level, Prefix(v, level))] == table
      {
        IndexIsSlot(addr, level);
        ghost var x := Prefix(v, level + 1);
        TreeStep(mem, root, at, level + 1, x);
        var entry := mem[table][Index(addr, level)];
        if !entry.present {
          NoTableBelow(mem, root, at, level + 1, x, v / 512);
          return None;
        }
        table := entry.ppn;
      }
      TableInMemory(mem, root, at, Place(3, v / 512));
      return Some(Slot(table, Index(addr, 3)));
    }

    // ---- vpagealloc: the four nested loops, innermost first ---------------------------

    /** The l loop, over the leaf table at (3, x). */
    method ScanPt(table: nat, ghost x: nat, page: nat, n: nat, c: Cursor, ghost lo: nat, ghost hi: nat)
        returns (found: bool, c': Cursor)
      requires Tables() && Place(3, x) in at && at[Place(3, x)] == table
      requires page == 512 * x && page + 512 <= hi
      requires Scanning(Unavailable(view, lo, hi), lo, hi, n, page, c)
      ensures found ==> n > 0 && FirstFit(Unavailable(view, lo, hi), lo, hi, n, c'.start)
      ensures !found ==> Scanning(Unavailable(view, lo, hi), lo, hi, n, page + 512, c')
    {
      ghost var taken := Unavailable(view, lo, hi);
      TableInMemory(mem, root, at, Place(3, x));
      c' := c;
      for l := 0 to 512
        invariant Scanning(taken, lo, hi, n, page + l, c')
      {
        var p := page + l;
        assert Probe(p) && p / 512 == x && p % 512 == l;
        if mem[table][l].avail {
          assert p !in taken;
          ScanFree(taken, lo, hi, n, p, c');
          c' := Cursor(c'.count + 1, if c'.count == 0 then p else c'.start);
          if c'.count == n {
            return true, c';
          }
        } else {
          assert p in taken;
          ScanTaken(taken, lo, hi, n, p, p + 1, c');
          c' := Cursor(0, c'.start);
        }
      }
      return false, c';
    }

    /** Pages below a missing table are unavailable. */
    lemma MissingTaken(d: nat, x: nat, lo: nat, hi: nat, p: nat, p': nat)
      requires Tables() && 1 <= d <= 3 && Place(d, x) !in at && lo <= p && p' <= hi
      requires d == 3 ==> p == x * 512 && p' == p + 512
      requires d == 2 ==> x * 0x4_0000 <= p && p' == x * 0x4_0000 + 0x4_0000
      requires d == 1 ==> x * 0x800_0000 <= p && p' == x * 0x800_0000 + 0x800_0000
      ensures forall q: nat :: p <= q < p' ==> q in Unavailable(view, lo, hi)
    {
      forall q: nat | p <= q < p'
        ensures q in Unavailable(view, lo, hi)
      {
        assert Probe(q);
        NoTableBelow(mem, root, at, d, x, q / 512);
      }
    }

    /** The k loop, over the directory at (2, x), from slot k0 on. */
    method ScanPdt(table: nat, ghost x: nat, page: nat, k0: nat, n: nat, c: Cursor, ghost lo: nat, ghost hi: nat)
        returns (found: bool, c': Cursor)
      requires Tables() && Place(2, x) in at && at[Place(2, x)] == table
      requires page == 0x4_0000 * x && k0 <= 512 && page + 0x4_0000 <= hi
      requires Scanning(Unavailable(view, lo, hi), lo, hi, n, page + 512 * k0, c)
      ensures found ==> n > 0 && FirstFit(Unavailable(view, lo, hi), lo, hi, n, c'.start)
      ensures !found ==> Scanning(Unavailable(view, lo, hi), lo, hi, n, page + 0x4_0000, c')
    {
      c' := c;
      for k := k0 to 512
        invariant Scanning(Unavailable(view, lo, hi), lo, hi, n, page + 512 * k, c')
      {
        ghost var y := 512 * x + k;
        TreeStep(mem, root, at, 3, y);
        var entry := mem[table][k];
        if entry.present {
          found, c' := ScanPt(entry.ppn, y, page + 512 * k, n, c', lo, hi);
          if found {
            return;
          }
        } else {
          MissingTaken(3, y, lo, hi, page + 512 * k, page + 512 * k + 512);
          ScanTaken(Unavailable(view, lo, hi), lo, hi, n, page + 512 * k, page + 512 * k + 512, c');
          c' := Cursor(0, c'.start);
        }
      }
      return false, c';
    }

    /** One turn of the j loop. */
    method ScanSlot(table: nat, i: nat, j: nat, n: nat, c: Cursor, ghost lo: nat, ghost hi: nat)
        returns (found: bool, c': Cursor)
      requires Tables() && Place(1, i) in at && at[Place(1, i)] == table
      requires j < 512 && 0x800_0000 * i + 0x4_0000 * j + 0x4_0000 <= hi
      requires Scanning(Unavailable(view, lo, hi), lo, hi, n, FirstPage(i, j), c)
      ensures found ==> n > 0 && FirstFit(Unavailable(view, lo, hi), lo, hi, n, c'.start)
      ensures !found ==>
        Scanning(Unavailable(view, lo, hi), lo, hi, n, 0x800_0000 * i + 0x4_0000 * j + 0x4_0000, c')
    {
      ghost var y := 512 * i + j;
      var page := 0x800_0000 * i + 0x4_0000 * j;
      TreeStep(mem, root, at, 2, y);
      var entry := mem[table][j];
      var k := if i != 0 || j != USERSPACE_LOW_END then 0 else 1;
      if entry.present {
        found, c' := ScanPdt(entry.ppn, y, page, k, n, c, lo, hi);
      } else {
        MissingTaken(2, y, lo, hi, page + 512 * k, page + 0x4_0000);
        ScanTaken(Unavailable(view, lo, hi), lo, hi, n, page + 512 * k, page + 0x4_0000, c);
        found, c' := false, Cursor(0, c.start);
      }
    }

    /** The j loop, over slots j0 to j1 of the table at (1, i). */
    method ScanPdpt(table: nat, i: nat, j0: nat, j1: nat, n: nat, c: Cursor, ghost lo: nat, ghost hi: nat)
        returns (found: bool, c': Cursor)
      requires Tables() && Place(1, i) in at && at[Place(1, i)] == table
      requires j0 <= j1 <= 512 && 0x800_0000 * i + 0x4_0000 * j1 <= hi
      requires i == 0 ==> j0 >= USERSPACE_LOW_END
      requires j0 < j1
      requires Scanning(Unavailable(view, lo, hi), lo, hi, n, FirstPage(i, j0), c)
      ensures found ==> n > 0 && FirstFit(Unavailable(view, lo, hi), lo, hi, n, c'.start)
      ensures !found ==> Scanning(Unavailable(view, lo, hi), lo, hi, n, 0x800_0000 * i + 0x4_0000 * j1, c')
    {
      c' := c;
      var j := j0;
      while j < j1
        invariant j0 <= j <= j1
        invariant Scanning(Unavailable(view, lo, hi), lo, hi, n,
                           if j == j0 then FirstPage(i, j0) else 0x800_0000 * i + 0x4_0000 * j, c')
      {
        found, c' := ScanSlot(table, i, j, n, c', lo, hi);
        if found {
          return;
        }
        j := j + 1;
      }
      return false, c';
    }

    /** The first page the loops look at in directory (i, j). */
    static function FirstPage(i: nat, j: nat): nat {
      0x800_0000 * i + 0x4_0000 * j + (if i != 0 || j != USERSPACE_LOW_END then 0 else 512)
    }

    /** All of `vpagealloc`'s loops: pages above 4 GB, up to slot 16 of the root. */
    method ScanHigh(n: nat) returns (r: Option<nat>)
      requires Tables()
      ensures r.Some? ==>
        n > 0 && FirstFit(Unavailable(view, 0x10_0000, 0x8000_0000), 0x10_0000, 0x8000_0000, n, r.value)
      ensures r.None? && n > 0 ==> forall s: nat ::
        !FreeRun(Unavailable(view, 0x10_0000, 0x8000_0000), 0x10_0000, 0x8000_0000, n, s)
    {
      ghost var lo, hi := 0x10_0000, 0x8000_0000;
      var c := Cursor(0, 0);
      for i := 0 to PMLT4_USERSPACE_HIGH_START
        invariant Scanning(Unavailable(view, lo, hi), lo, hi, n, if i == 0 then lo else 0x800_0000 * i, c)
      {
        TreeRoot(mem, root, at);
        TreeStep(mem, root, at, 1, i);
        var entry := mem[root][i];
        if entry.present {
          var found;
          found, c := ScanPdpt(entry.ppn, i, if i != 0 then 0 else 4, 512, n, c, lo, hi);
          if found {
            return Some(c.start);
          }
        } else {
          ghost var p := if i == 0 then lo else 0x800_0000 * i;
          MissingTaken(1, i, lo, hi, p, 0x800_0000 * i + 0x800_0000);
          ScanTaken(Unavailable(view, lo, hi), lo, hi, n, p, 0x800_0000 * i + 0x800_0000, c);
          c := Cursor(0, c.start);
        }
      }
      return None;
    }

    /** The loops of `vpagealloc32`: the gigabyte below 4 GB, without its first 2 MB. */
    method ScanLow(n: nat) returns (r: Option<nat>)
      requires Tables()
      ensures r.Some? ==> n > 0 && FirstFit(Unavailable(view, 0xC_0200, 0x10_0000), 0xC_0200, 0x10_0000, n, r.value)
      ensures r.None? && n > 0 ==> forall s: nat ::
        !FreeRun(Unavailable(view, 0xC_0200, 0x10_0000), 0xC_0200, 0x10_0000, n, s)
    {
      ghost var lo, hi := 0xC_0200, 0x10_0000;
      var c := Cursor(0, 0);
      TreeRoot(mem, root, at);
      TreeStep(mem, root, at, 1, 0);
      var entry := mem[root][0];
      if entry.present {
        var found;
        found, c := ScanPdpt(entry.ppn, 0, USERSPACE_LOW_END, 4, n, c, lo, hi);
        if found {
          return Some(c.start);
        }
      } else {
        forall q: nat | lo <= q < hi
          ensures q in Unavailable(view, lo, hi)
        {
          assert Probe(q);
          NoTableBelow(mem, root, at, 1, 0, q / 512);
        }
        ScanTaken(Unavailable(view, lo, hi), lo, hi, n, lo, hi, c);
      }
      return None;
    }

    // ---- Grabbing, freeing, measuring ---------------------------------------------------

    /** Writes one leaf entry in place. */
    method WriteLeaf(slot: Slot, ghost v: nat, e: Entry)
      requires Tables() && v in view && Locates(mem, at, slot, v)
      modifies this`mem, this`view
      ensures Tables() && view == old(view)[v := e]
    {
      assert Key(0);
      SetTied(mem, root, at, view, v, e);
      mem := SetEntry(mem, slot.table, slot.index, e);
      view := view[v := e];
    }

    /** Takes n available pages: clears the available bit, and sets the start bit on the first. */
    method Grab(s: nat, n: nat)
      requires Tables() && s + n <= 0x10_0000_0000
      requires forall v: nat :: s <= v < s + n ==> Avail(view, v)
      modifies this`mem, this`view
      ensures Tables() && Grabbed(old(view), view, s, n)
    {
      for i := 0 to n
        invariant Tables() && Grabbed(old(view), view, s, i)
      {
        var v := s + i;
        assert Avail(old(view), v);
        var slot := FindLeaf(v);
        var pe := mem[slot.value.table][slot.value.index];
        pe := pe.(avail := false);
        if i == 0 {
          pe := pe.(start := true);
        }
        WriteLeaf(slot.value, v, pe.(present := false));
      }
    }

    /** Records a found run in the bits, the ledger and the page count. */
    method Take(s: nat, n: nat)
      requires Valid() && n > 0 && s + n <= 0x10_0000_0000
      requires forall v: nat :: s <= v < s + n ==> Avail(view, v)
      modifies this`mem, this`view, this`blocks, this`covered, this`allocatedPages
      ensures Valid() && Grabbed(old(view), view, s, n)
      ensures s !in old(blocks) && blocks == old(blocks)[s := n]
      ensures allocatedPages == old(allocatedPages) + n
    {
      Grab(s, n);
      GrabRecorded(old(view), view, blocks, covered, s, n);
      blocks, covered := blocks[s := n], covered + Range(s, s + n);
      allocatedPages := allocatedPages + n;
    }

    /** `vpagealloc32` */
    method VpageAlloc32(size: u64) returns (addr: u64)
      requires Valid()
      modifies this`mem, this`view, this`blocks, this`covered, this`allocatedPages
      ensures Valid()
      ensures addr != 0 ==> var n := PagesFor(size);
        && n > 0 && addr % 4096 == 0
        && FirstFit(Unavailable(old(view), 0xC_0200, 0x10_0000), 0xC_0200, 0x10_0000, n, addr / 4096)
        && (forall v: nat :: addr / 4096 <= v < addr / 4096 + n ==> Avail(old(view), v))
        && Grabbed(old(view), view, addr / 4096, n)
        && addr / 4096 !in old(blocks) && blocks == old(blocks)[addr / 4096 := n]
        && allocatedPages == old(allocatedPages) + n
      ensures addr == 0 ==> var n := PagesFor(size);
        && mem == old(mem) && view == old(view) && blocks == old(blocks) && allocatedPages == old(allocatedPages)
        && (n == 0 || forall s: nat ::
             !FreeRun(Unavailable(view, 0xC_0200, 0x10_0000), 0xC_0200, 0x10_0000, n, s))
    {
      var r := ScanLow(PagesFor(size));
      if r.None? {
        return 0;
      }
      AllAvail(0xC_0200, 0x10_0000, PagesFor(size), r.value);
      Take(r.value, PagesFor(size));
      return r.value * 4096;
    }

    lemma AllAvail(lo: nat, hi: nat, n: nat, s: nat)
      requires FreeRun(Unavailable(view, lo, hi), lo, hi, n, s)
      ensures forall v: nat :: s <= v < s + n ==> Avail(view, v)
    {
      forall v: nat | s <= v < s + n
        ensures Avail(view, v)
      {
        assert v !in Unavailable(view, lo, hi);
      }
    }

    /** `vpagealloc`: the lowest run above 4 GB, else the lowest run `vpagealloc32` finds. */
    method VpageAlloc(size: u64) returns (addr: u64)
      requires Valid()
      modifies this`mem, this`view, this`blocks, this`covered, this`allocatedPages
      ensures Valid()
      ensures addr != 0 ==> var n := PagesFor(size);
        && n > 0 && addr % 4096 == 0
        && (if addr / 4096 >= 0x10_0000
            then FirstFit(Unavailable(old(view), 0x10_0000, 0x8000_0000), 0x10_0000, 0x8000_0000, n, addr / 4096)
            else FirstFit(Unavailable(old(view), 0xC_0200, 0x10_0000), 0xC_0200, 0x10_0000, n, addr / 4096))
        && (forall v: nat :: addr / 4096 <= v < addr / 4096 + n ==> Avail(old(view), v))
        && Grabbed(old(view), view, addr / 4096, n)
        && addr / 4096 !in old(blocks) && blocks == old(blocks)[addr / 4096 := n]
        && allocatedPages == old(allocatedPages) + n
      ensures (addr == 0 || addr / 4096 < 0x10_0000) && PagesFor(size) > 0 ==> forall s: nat ::
        !FreeRun(Unavailable(old(view), 0x10_0000, 0x8000_0000), 0x10_0000, 0x8000_0000, PagesFor(size), s)
      ensures addr == 0 ==> var n := PagesFor(size);
        && mem == old(mem) && view == old(view) && blocks == old(blocks) && allocatedPages == old(allocatedPages)
        && (n == 0 || forall s: nat ::
             !FreeRun(Unavailable(view, 0xC_0200, 0x10_0000), 0xC_0200, 0x10_0000, n, s))
    {
      var r := ScanHigh(PagesFor(size));
      if r.None? {
        addr := VpageAlloc32(size);
        return;
      }
      AllAvail(0x10_0000, 0x8000_0000, PagesFor(size), r.value);
      Take(r.value, PagesFor(size));
      return r.value * 4096;
    }

    /** `vpagesize`: for the start of a recorded block, its size. */
    method VpageSize(addr: u64) returns (size: u64)
      requires Valid()
      ensures size % 4096 == 0 && Run(view, VPage(addr), size / 4096)
      ensures VPage(addr) in blocks ==> size == blocks[VPage(addr)] * 4096
    {
      var first := VPage(addr);
      var page, n := first, 0;
      while true
        invariant page == first + n && page <= 0x10_0000_0000
        invariant forall v: nat :: first <= v < page ==> !Stops(view, first, v)
        decreases 0x10_0000_0000 - page
      {
        var slot := FindLeaf(page);
        if slot.None? {
          break;
        }
        var pe := mem[slot.value.table][slot.value.index];
        if pe.avail || (first != page && pe.start) {
          break;
        }
        page := page + 1;
        n := n + 1;
      }
      RecordedLength(view, blocks, covered, first, n);
      return n * 4096;
    }

    /** The page after the last one wraps to page 0, which has no table. */
    lemma EndOfSpace()
      requires Tables()
      ensures 0x10_0000_0000 !in view
    {
      assert Probe(0x10_0000_0000);
      TreeRoot(mem, root, at);
    }

    /** The loop of `vpagefree`. */
    method ReleaseRun(first: nat) returns (n: nat)
      requires Tables() && first < 0x10_0000_0000
      modifies this`mem, this`view
      ensures Tables() && Run(old(view), first, n) && Freed(old(view), view, first, n)
      ensures first + n <= 0x10_0000_0000
    {
      var page := first;
      n := 0;
      while true
        invariant page == first + n && page <= 0x10_0000_0000
        invariant Tables() && Freed(old(view), view, first, n)
        invariant forall v: nat :: first <= v < page ==> !Stops(old(view), first, v)
        decreases 0x10_0000_0000 - page
      {
        var slot := FindLeaf(page);
        if slot.None? {
          break;
        }
        var pe := mem[slot.value.table][slot.value.index];
        if pe.avail || (first != page && pe.start) {
          break;
        }
        WriteLeaf(slot.value, page, pe.(avail := true, start := false, present := false));
        page := page + 1;
        n := n + 1;
      }
    }

    /**
     `vpagefree`: gives back the pages from addr up to the next available page, the next
     start bit or the end of the tables. At the start of a recorded block that is exactly
     the block; inside one it is the rest of it.
     */
    method VpageFree(addr: u64) returns (size: u64)
      requires Consistent()
      modifies this`mem, this`view, this`blocks, this`covered, this`allocatedPages
      ensures Consistent() && size % 4096 == 0
      ensures Run(old(view), VPage(addr), size / 4096) && Freed(old(view), view, VPage(addr), size / 4096)
      ensures blocks == Cut(old(blocks), VPage(addr))
      ensures allocatedPages == old(allocatedPages) - size / 4096
      ensures old(Valid()) && (VPage(addr) in old(covered) || size == 0) ==> Valid()
      ensures VPage(addr) in old(blocks) ==>
        size == old(blocks)[VPage(addr)] * 4096 && blocks == old(blocks) - {VPage(addr)}
      ensures VPage(addr) in old(blocks) ==> VPage(addr) in old(covered)
    {
      var first := VPage(addr);
      var n := ReleaseRun(first);
      allocatedPages := allocatedPages - n;
      FreeRecorded(old(view), view, blocks, covered, first, n);
      blocks, covered := Cut(blocks, first), covered - Range(first, first + n);
      return n * 4096;
    }

    /** Strikes a block out of the ledger once its pages have been given back. */
    ghost method Forget(before: View, s: nat, n: nat)
      requires Tables() && Recorded(before, blocks, covered) && Run(before, s, n) && Freed(before, view, s, n)
      requires s in blocks
      modifies this`blocks, this`covered
      ensures Consistent() && blocks == old(blocks) - {s} && |covered| == |old(covered)| - n
    {
      FreeRecorded(before, view, blocks, covered, s, n);
      blocks, covered := Cut(blocks, s), covered - Range(s, s + n);
    }

    // ---- Mapping pages, and the walk down a stack -------------------------------------------

    /** `update_pageentr`: copies the mapping fields and leaves the allocation bits alone. */
    method UpdateEntry(page: nat, update: Entry) returns (ok: bool)
      requires Tables() && page < 0x10_0000_0000
      modifies this`mem, this`view
      ensures Tables() && (ok <==> page in old(view))
      ensures ok ==> view == old(view)[page := old(view)[page].(
        present := update.present, ppn := update.ppn, attrs := update.attrs)]
      ensures !ok ==> view == old(view)
    {
      var slot := FindLeaf(page);
      if slot.None? {
        return false;
      }
      var pe := mem[slot.value.table][slot.value.index];
      WriteLeaf(slot.value, page, pe.(present := update.present, ppn := update.ppn, attrs := update.attrs));
      return true;
    }

    /** The same for an address. */
    method UpdatePageEntry(addr: u64, update: Entry) returns (ok: bool)
      requires Tables()
      modifies this`mem, this`view
      ensures Tables() && (ok <==> VPage(addr) in old(view))
      ensures ok ==> view == old(view)[VPage(addr) := old(view)[VPage(addr)].(
        present := update.present, ppn := update.ppn, attrs := update.attrs)]
      ensures !ok ==> view == old(view)
    {
      ok := UpdateEntry(VPage(addr), update);
    }

    /** The mapping loop of `alloc_stack`. */
    method MapRun(s: nat, n: nat, q: nat)
      requires Tables() && s + n <= 0x10_0000_0000
      requires forall v: nat :: s <= v < s + n ==> v in view
      modifies this`mem, this`view
      ensures Tables() && Mapped(old(view), view, s, n, q)
    {
      for i := 0 to n
        invariant Tables() && Mapped(old(view), view, s, i, q)
      {
        var slot := FindLeaf(s + i);
        var pe := mem[slot.value.table][slot.value.index];
        ghost var mid := view;
        var ok := UpdateEntry(s + i, StackEntry(pe, q + i));
        MappedStep(old(view), mid, s, i, q);
      }
    }

    /**
     The loop of `free_stack`: down from `top` to the first start bit. `ok` is false where
     the source panics; then the pages below `top` are not a guard page and mapped pages.
     */
    method ReleaseStack(top: nat) returns (ok: bool, s: nat, ppn: nat)
      requires Tables() && 0 < top <= 0x10_0000_0000
      modifies this`mem, this`view
      ensures Tables()
      ensures ok <==> exists t: nat :: StackRun(old(view), t, top)
      ensures ok ==> StackRun(old(view), s, top) && Freed(old(view), view, s, top - s)
      ensures ok ==> ppn == if s + 1 < top then old(view)[s + 1].ppn else 0
    {
      var page := top;
      ppn := 0;
      while true
        invariant 0 < page <= top && Tables()
        invariant Freed(old(view), view, page, top - page)
        invariant forall v: nat :: page <= v < top ==> StackBody(old(view), v)
        invariant ppn == if page < top then old(view)[page].ppn else 0
        decreases page
      {
        page := page - 1;
        NoStack(old(view), page, top);
        var slot := FindLeaf(page);
        if slot.None? {
          return false, 0, 0;
        }
        var pe := mem[slot.value.table][slot.value.index];
        if pe.avail {
          return false, 0, 0;
        }
        var firstPage := pe.start;
        if pe.present {
          if firstPage {
            return false, 0, 0;
          }
          ppn := pe.ppn;
        } else {
          if !firstPage {
            return false, 0, 0;
          }
        }
        pe := pe.(avail := true, start := false);
        FreedBelow(old(view), view, page, top - page - 1, pe.(present := false));
        if firstPage {
          WriteLeaf(slot.value, page, pe);
          return true, page, ppn;
        }
        WriteLeaf(slot.value, page, pe.(present := false));
      }
    }
  }

  /** One more page given back, below those given back already. */
  lemma FreedBelow(view: View, mid: View, page: nat, n: nat, e: Entry)
    requires Freed(view, mid, page + 1, n) && page in view
    requires e == view[page].(avail := true, start := false, present := false)
    ensures page in mid && mid[page] == view[page]
    ensures Freed(view, mid[page := e], page, n + 1)
  {
  }

  ghost predicate StackBody(view: View, v: nat) {
    v in view && !view[v].avail && !view[v].start && view[v].present
  }

  /** A page that is neither a guard page nor mapped ends every hope of a stack through it. */
  lemma NoStack(view: View, page: nat, top: nat)
    requires page < top
    requires forall v: nat :: page < v < top ==> StackBody(view, v)
    ensures page !in view || view[page].avail || view[page].start == view[page].present ==>
      forall t: nat :: !StackRun(view, t, top)
    ensures page in view && !view[page].avail && view[page].start && !view[page].present ==>
      StackRun(view, page, top)
  {
    forall t: nat | page !in view || view[page].avail || view[page].start == view[page].present
      ensures !StackRun(view, t, top)
    {
      if t <= page {
        assert !StackPage(view, t, page);
      } else if t < top {
        assert StackBody(view, t) && !StackPage(view, t, t);
      }
    }
    forall v: nat | page < v < top
      ensures StackPage(view, page, v)
    {
      assert StackBody(view, v);
    }
  }
}
