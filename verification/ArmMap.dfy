/**
 The arm64 boot mapper (arm64shim/shim.cpp): `map_page` grows a four-level table out of
 the same bitmap that hands out all other physical pages.
 */
module ArmMap {
  import opened Optional
  import opened WindowMap
  import opened PhysAlloc
  import opened PageTree
  import opened VirtAddr

  datatype MapFlags = MapFlags(write: bool, executable: bool, user: bool, device: bool)

  function LeafEntry(old_: Entry, paddr: u64, flags: MapFlags): Entry {
    old_.(
      present := true,
      ppn := (paddr / 4096) % 0x10_0000_0000,
      attrs := Arm(
        true,
        if flags.device then 0 else 1,
        (if flags.write then 0 else 2) + (if flags.user then 1 else 0),
        if flags.device then 2 else 3,
        true,
        !flags.executable,
        !(flags.executable && flags.user)))
  }

  /**
   The rights of a mapping: AP[2] clear lets it be written, AP[1] set lets user code use it, and
   PXN and UXN forbid the kernel and user code to execute it. Memory type 0 is device memory,
   outer shareable; type 1 is normal memory, inner shareable.
   */
  predicate Grants(a: Attrs, flags: MapFlags) {
    && a.Arm? && a.table && a.af && a.ap < 4
    && (a.ap / 2 == 0 <==> flags.write) && (a.ap % 2 == 1 <==> flags.user)
    && (!a.pxn <==> flags.executable) && (!a.uxn <==> flags.executable && flags.user)
    && a.attrIndx == (if flags.device then 0 else 1) && a.sh == (if flags.device then 2 else 3)
  }

  /** The leaf entry grants what was asked for, on the page that was asked for, and keeps the allocation bits. */
  lemma LeafGrants(e: Entry, paddr: u64, flags: MapFlags)
    ensures var leaf := LeafEntry(e, paddr, flags);
      && Grants(leaf.attrs, flags) && leaf.present && leaf.avail == e.avail && leaf.start == e.start
      && leaf.ppn < 0x10_0000_0000 && leaf.ppn % 0x10_0000_0000 == (paddr / 4096) % 0x10_0000_0000
  {
  }

  /** An entry the processor follows: valid, and with the table bit that VMSAv8-64 demands at every level. */
  predicate Followed(e: Entry) {
    e.present && e.attrs.Arm? && e.attrs.table
  }

  /** The walk of the processor. */
  function HardwareWalk(mem: Memory, root: nat, depth: nat, prefix: nat): Option<nat> {
    if depth == 0 then
      if prefix == 0 then Some(root) else None
    else
      var up := HardwareWalk(mem, root, depth - 1, prefix / 512);
      if up.Some? && up.value in mem && Followed(mem[up.value][prefix % 512]) then
        Some(mem[up.value][prefix % 512].ppn)
      else
        None
  }

  /** Every valid entry of the tables is one that the processor follows. */
  ghost predicate Descriptors(mem: Memory, at: Places) {
    forall k, i :: k in at && at[k] in mem && 0 <= i < 512 ==>
      mem[at[k]][i].attrs.Arm? && (mem[at[k]][i].present ==> mem[at[k]][i].attrs.table)
  }

  /** Then the processor sees the mapping that the code sees. */
  lemma {:induction false} HardwareSees(mem: Memory, root: nat, at: Places, d: nat, x: nat)
    requires Tree(mem, root, at) && Descriptors(mem, at) && d <= 4
    ensures HardwareWalk(mem, root, d, x) == Walk(mem, root, d, x)
  {
    if d > 0 {
      HardwareSees(mem, root, at, d - 1, x / 512);
      WalkFollowsTree(mem, root, at, d - 1, x / 512);
    }
  }

  lemma HardwareReadsLeaf(mem: Memory, root: nat, at: Places, v: nat)
    requires Tree(mem, root, at) && Descriptors(mem, at)
    ensures HardwareWalk(mem, root, 4, v) == Mapping(mem, at, v)
  {
    HardwareSees(mem, root, at, 4, v);
    TranslateReadsLeaf(mem, root, at, v);
  }

  lemma AddDescriptor(mem: Memory, root: nat, at: Places, d: nat, x: nat, page: nat, e: Entry)
    requires Tree(mem, root, at) && Descriptors(mem, at) && 1 <= d <= 3 && Place(d - 1, x / 512) in at
    requires (forall k :: k in at ==> at[k] != page) && Followed(e)
    ensures var up := at[Place(d - 1, x / 512)];
      Descriptors(SetEntry(mem[page := ZeroTable()], up, x % 512, e), at[Place(d, x) := page])
  {
  }

  lemma SetDescriptor(mem: Memory, at: Places, page: nat, slot: nat, e: Entry)
    requires Descriptors(mem, at) && page in mem && slot < 512 && Followed(e)
    ensures Descriptors(SetEntry(mem, page, slot, e), at)
  {
  }

  /** Every table kept its place, and every page claimed since is a table. */
  ghost predicate Grown(pages: set<nat>, at: Places, pages': set<nat>, at': Places) {
    && pages <= pages'
    && (forall k :: k in at ==> k in at' && at'[k] == at[k])
    && (forall p :: p in pages' && p !in pages ==> exists k :: k in at' && at'[k] == p)
  }

  lemma GrownTransitive(p: set<nat>, a: Places, p': set<nat>, a': Places, p'': set<nat>, a'': Places)
    requires Grown(p, a, p', a') && Grown(p', a', p'', a'')
    ensures Grown(p, a, p'', a'')
  {
  }

  class Mapper {
    const pm: PageMap
    const root: nat
    var mem: Memory
    ghost var at: Places

    /** The reachable tables form a tree of distinct pages, all of them claimed. */
    ghost predicate Valid()
      reads this, pm, pm.bits, pm.bits.words
    {
      && pm.Valid()
      && Tree(mem, root, at) && Descriptors(mem, at)
      && forall k :: k in at ==> at[k] in pm.pages
    }

    /** A zeroed root table on a page already taken from the bitmap: nothing is mapped. */
    constructor (pm: PageMap, root: nat)
      requires pm.Valid() && root in pm.pages
      ensures Valid() && this.pm == pm && this.root == root
      ensures forall v: nat :: HardwareWalk(mem, root, 4, v) == None
    {
      this.pm, this.root := pm, root;
      mem := map[root := ZeroTable()];
      at := map[Place(0, 0) := root];
      new;
      forall d: nat, x: nat | 1 <= d <= 3
        ensures !Linked(mem, at, d, x)
      {
      }
      assert Tree(mem, root, at);
      forall v: nat
        ensures HardwareWalk(mem, root, 4, v) == None
      {
        HardwareReadsLeaf(mem, root, at, v);
      }
    }

    /** `alloc_pt_page`: a fresh page out of the bitmap, zeroed. */
    method AllocPtPage() returns (r: Option<nat>)
      requires pm.Valid()
      modifies this`mem, pm`pages, pm.bits`claimed, pm.bits.words
      ensures pm.Valid()
      ensures r.Some? ==>
        && r.value !in old(pm.pages) && pm.pages == old(pm.pages) + {r.value}
        && mem == old(mem)[r.value := ZeroTable()]
      ensures r.None? ==>
        && pm.pages == old(pm.pages) && mem == old(mem)
        && forall s: nat :: !FreeRun(pm.pages, pm.base, pm.Max(), 1, s)
    {
      var page := AllocatePhyspage(pm, 1);
      if page.None? {
        return None;
      }
      mem := mem[page.value := ZeroTable()];
      return Some(page.value);
    }

    /** One level of the walk in `get_pageentr`: the table below, created when missing. */
    method Descend(table: nat, ghost d: nat, ghost x: nat, slot: nat, grow: bool) returns (r: Option<nat>)
      requires Valid() && 1 <= d <= 3 && slot == x % 512
      requires Place(d - 1, x / 512) in at && at[Place(d - 1, x / 512)] == table
      modifies this`mem, this`at, pm`pages, pm.bits`claimed, pm.bits.words
      ensures Valid() && Grown(old(pm.pages), old(at), pm.pages, at)
      ensures forall v: nat :: Mapping(mem, at, v) == old(Mapping(mem, at, v))
      ensures r.Some? ==> Place(d, x) in at && at[Place(d, x)] == r.value
      ensures r.None? ==>
        && mem == old(mem) && at == old(at) && pm.pages == old(pm.pages) && Place(d, x) !in at
        && (grow ==> forall s: nat :: !FreeRun(pm.pages, pm.base, pm.Max(), 1, s))
      ensures !grow ==> mem == old(mem) && at == old(at) && pm.pages == old(pm.pages)
    {
      var entry := mem[table][slot];
      assert Place(d, x) in at <==> Linked(mem, at, d, x);
      if !entry.present {
        if !grow {
          return None;
        }
        var page := AllocPtPage();
        if page.None? {
          return None;
        }
        entry := entry.(present := true, ppn := page.value, attrs := entry.attrs.(table := true));
        AddTable(old(mem), root, at, d, x, page.value, entry);
        AddDescriptor(old(mem), root, at, d, x, page.value, entry);
        mem := SetEntry(mem, table, slot, entry);
        at := at[Place(d, x) := page.value];
        assert at[Place(d, x)] == page.value;
        return Some(page.value);
      }
      return Some(entry.ppn);
    }

    /** The same step, for the slot that an address selects at a level. */
    method DescendFor(vaddr: u64, level: nat, table: nat, grow: bool) returns (r: Option<nat>)
      requires Valid() && level < 3
      requires Place(level, Prefix(VPage(vaddr), level)) in at
      requires at[Place(level, Prefix(VPage(vaddr), level))] == table
      modifies this`mem, this`at, pm`pages, pm.bits`claimed, pm.bits.words
      ensures Valid() && Grown(old(pm.pages), old(at), pm.pages, at)
      ensures forall v: nat :: Mapping(mem, at, v) == old(Mapping(mem, at, v))
      ensures r.Some? ==> var below := Place(level + 1, Prefix(VPage(vaddr), level + 1));
        below in at && at[below] == r.value
      ensures r.None? && grow ==> forall s: nat :: !FreeRun(pm.pages, pm.base, pm.Max(), 1, s)
      ensures !grow ==> mem == old(mem) && at == old(at) && pm.pages == old(pm.pages)
    {
      IndexIsSlot(vaddr, level);
      r := Descend(table, level + 1, Prefix(VPage(vaddr), level + 1), Index(vaddr, level), grow);
    }

    /** `get_pageentr`: the page of the leaf table for an address; its slot is `Index(vaddr, 3)`. */
    method GetPageEntry(vaddr: u64, grow: bool) returns (r: Option<nat>)
      requires Valid()
      modifies this`mem, this`at, pm`pages, pm.bits`claimed, pm.bits.words
      ensures Valid() && Grown(old(pm.pages), old(at), pm.pages, at)
      ensures forall v: nat :: Mapping(mem, at, v) == old(Mapping(mem, at, v))
      ensures r.Some? ==> Place(3, VPage(vaddr) / 512) in at && at[Place(3, VPage(vaddr) / 512)] == r.value
      ensures r.None? && grow ==> forall s: nat :: !FreeRun(pm.pages, pm.base, pm.Max(), 1, s)
      ensures !grow ==> mem == old(mem) && at == old(at) && pm.pages == old(pm.pages)
    {
      ghost var v := VPage(vaddr);
      IndexIsSlot(vaddr, 0);
      var table := root;
      for level := 0 to 3
        invariant Valid() && Grown(old(pm.pages), old(at), pm.pages, at)
        invariant forall v: nat :: Mapping(mem, at, v) == old(Mapping(mem, at, v))
        invariant Place(level, Prefix(v, level)) in at && at[Place(level, Prefix(v, level))] == table
        invariant !grow ==> mem == old(mem) && at == old(at) && pm.pages == old(pm.pages)
      {
        ghost var pages', at' := pm.pages, at;
        var next := DescendFor(vaddr, level, table, grow);
        GrownTransitive(old(pm.pages), old(at), pages', at', pm.pages, at);
        if next.None? {
          return None;
        }
        table := next.value;
      }
      return Some(table);
    }

    /**
     `map_page`. On success exactly the page of vaddr gets a new translation; when the bitmap
     has run out of pages for the missing tables, no translation changes at all.
     */
    method MapPage(vaddr: u64, paddr: u64, flags: MapFlags) returns (ok: bool)
      requires Valid()
      modifies this`mem, this`at, pm`pages, pm.bits`claimed, pm.bits.words
      ensures Valid() && Grown(old(pm.pages), old(at), pm.pages, at)
      ensures ok ==> HardwareWalk(mem, root, 4, VPage(vaddr)) == Some((paddr / 4096) % 0x10_0000_0000)
      ensures ok ==> var e := Leaf(mem, at, VPage(vaddr)); 
        e.Some? && e.value == LeafEntry(e.value, paddr, flags) && Grants(e.value.attrs, flags)
      ensures forall w: nat :: !ok || w != VPage(vaddr) ==>
        HardwareWalk(mem, root, 4, w) == old(HardwareWalk(mem, root, 4, w))
      ensures !ok ==> forall s: nat :: !FreeRun(pm.pages, pm.base, pm.Max(), 1, s)
    {
      ghost var v := VPage(vaddr);
      var leaf := GetPageEntry(vaddr, true);
      ok := leaf.Some?;
      if ok {
        IndexIsSlot(vaddr, 3);
        var slot := Index(vaddr, 3);
        var entry := LeafEntry(mem[leaf.value][slot], paddr, flags);
        LeafGrants(mem[leaf.value][slot], paddr, flags);
        SetLeaf(mem, root, at, v, entry);
        SetDescriptor(mem, at, leaf.value, slot, entry);
        mem := SetEntry(mem, leaf.value, slot, entry);
      }
      forall w: nat
        ensures HardwareWalk(mem, root, 4, w) == Mapping(mem, at, w)
        ensures old(HardwareWalk(mem, root, 4, w)) == old(Mapping(mem, at, w))
      {
        HardwareReadsLeaf(mem, root, at, w);
        HardwareReadsLeaf(old(mem), root, old(at), w);
      }
    }
  }
}
