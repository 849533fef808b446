/**
 Four-level page tables in physical memory, shared by the arm64 mapper and the x86
 virtual allocator. A virtual page number v < 2^36 selects, from the root down, the
 nine-bit slots of v; the table at depth d is identified by the leading bits of v.
 */
module PageTree {
  import opened Optional

  /** What the walk and the allocators read of a 64-bit entry; `attrs` are the remaining mapping fields. */
  datatype Entry = Entry(present: bool, ppn: nat, avail: bool, start: bool, attrs: Attrs)

  datatype Attrs =
    | Arm(table: bool, attrIndx: nat, ap: nat, sh: nat, af: bool, pxn: bool, uxn: bool)
    | X86(writeable: bool, user: bool, writeThrough: bool, cacheDisabled: bool,
          accessed: bool, dirty: bool, executionDisabled: bool)

  const ZERO_ATTRS := Arm(false, 0, 0, 0, false, false, false)
  const ZERO_ENTRY := Entry(false, 0, false, false, ZERO_ATTRS)

  type Table = t: seq<Entry> | |t| == 512 witness seq(512, _ => ZERO_ENTRY)

  function ZeroTable(): (t: Table)
    ensures forall i :: 0 <= i < 512 ==> t[i] == ZERO_ENTRY
  {
    seq(512, _ => ZERO_ENTRY)
  }

  type Memory = map<nat, Table>

  const VPAGES: nat := 0x10_0000_0000

  /** The table (or, at depth 4, the page) that following the present entries leads to. */
  function Walk(mem: Memory, root: nat, depth: nat, prefix: nat): Option<nat> {
    if depth == 0 then
      if prefix == 0 then Some(root) else None
    else
      var up := Walk(mem, root, depth - 1, prefix / 512);
      if up.Some? && up.value in mem && mem[up.value][prefix % 512].present then
        Some(mem[up.value][prefix % 512].ppn)
      else
        None
  }

  /** The physical page a virtual page is mapped to. */
  function Translate(mem: Memory, root: nat, v: nat): Option<nat> {
    Walk(mem, root, 4, v)
  }

  /** A table's place in the tree. */
  datatype Place = Place(depth: nat, prefix: nat)

  type Places = map<Place, nat>

  /** `at` lists every table of the tree under root, by place; no page is at two places. */
  ghost predicate Tree(mem: Memory, root: nat, at: Places) {
    && (forall x: nat :: Place(0, x) in at <==> x == 0)
    && at[Place(0, 0)] == root
    && (forall k :: k in at ==> k.depth <= 3 && at[k] in mem)
    && (forall k, l :: k in at && l in at && at[k] == at[l] ==> k == l)
    && (forall d: nat, x: nat :: 1 <= d <= 3 ==> (Place(d, x) in at <==> Linked(mem, at, d, x)))
    && (forall d: nat, x: nat :: 1 <= d && Place(d, x) in at ==> at[Place(d, x)] == Link(mem, at, d, x).ppn)
  }

  // `Tree` for clients that carry it around without unfolding it: `OpenTree` gives it back.
  predicate Key(u: int) {
    true
  }

  ghost predicate IsTree(mem: Memory, root: nat, at: Places) {
    forall u: int {:trigger Key(u)} :: Key(u) ==> Tree(mem, root, at)
  }

  lemma OpenTree(mem: Memory, root: nat, at: Places)
    requires IsTree(mem, root, at)
    ensures Tree(mem, root, at)
  {
    assert Key(0);
  }

  ghost predicate Linked(mem: Memory, at: Places, d: nat, x: nat)
    requires d >= 1
  {
    var up := Place(d - 1, x / 512);
    up in at && at[up] in mem && mem[at[up]][x % 512].present
  }

  /** The entry that links the table at (d, x) into its parent. */
  ghost function Link(mem: Memory, at: Places, d: nat, x: nat): Entry {
    var up := if d >= 1 then Place(d - 1, x / 512) else Place(0, 0);
    if up in at && at[up] in mem then mem[at[up]][x % 512] else ZERO_ENTRY
  }

  lemma {:induction false} WalkFollowsTree(mem: Memory, root: nat, at: Places, d: nat, x: nat)
    requires Tree(mem, root, at) && d <= 3
    ensures Walk(mem, root, d, x) == if Place(d, x) in at then Some(at[Place(d, x)]) else None
  {
    if d > 0 {
      WalkFollowsTree(mem, root, at, d - 1, x / 512);
      assert Place(d, x) in at <==> Linked(mem, at, d, x);
    }
  }

  /** The leaf entry of a virtual page, when its last-level table exists. */
  ghost function Leaf(mem: Memory, at: Places, v: nat): Option<Entry> {
    var k := Place(3, v / 512);
    if k in at && at[k] in mem then Some(mem[at[k]][v % 512]) else None
  }

  lemma TranslateReadsLeaf(mem: Memory, root: nat, at: Places, v: nat)
    requires Tree(mem, root, at)
    ensures Translate(mem, root, v) == Mapping(mem, at, v)
  {
    WalkFollowsTree(mem, root, at, 3, v / 512);
  }

  /** Tables reached along different paths are different pages. */
  lemma TablesDistinct(mem: Memory, root: nat, at: Places, d: nat, x: nat, e: nat, y: nat)
    requires Tree(mem, root, at) && d <= 3 && e <= 3
    requires Walk(mem, root, d, x).Some? && Walk(mem, root, d, x) == Walk(mem, root, e, y)
    ensures d == e && x == y
  {
    WalkFollowsTree(mem, root, at, d, x);
    WalkFollowsTree(mem, root, at, e, y);
  }

  /** What a virtual page is mapped to, read off the tree's leaf tables. */
  ghost function Mapping(mem: Memory, at: Places, v: nat): Option<nat> {
    var e := Leaf(mem, at, v);
    if e.Some? && e.value.present then Some(e.value.ppn) else None
  }

  // ---- The two updates ------------------------------------------------------------

  function SetEntry(mem: Memory, page: nat, slot: nat, e: Entry): Memory
    requires page in mem && slot < 512
  {
    mem[page := mem[page][slot := e]]
  }

  /** Writing the leaf entry of v keeps the tree and the leaf entries of every other page. */
  lemma SetLeaf(mem: Memory, root: nat, at: Places, v: nat, e: Entry)
    requires Tree(mem, root, at) && Place(3, v / 512) in at
    ensures var mem' := SetEntry(mem, at[Place(3, v / 512)], v % 512, e);
      && Tree(mem', root, at)
      && Leaf(mem', at, v) == Some(e)
      && forall w: nat :: w != v ==> Leaf(mem', at, w) == Leaf(mem, at, w)
  {
    var k := Place(3, v / 512);
    var mem' := SetEntry(mem, at[k], v % 512, e);
    forall d: nat, x: nat | 1 <= d <= 3
      ensures Linked(mem', at, d, x) <==> Linked(mem, at, d, x)
      ensures Link(mem', at, d, x) == Link(mem, at, d, x)
    {
      assert Place(d - 1, x / 512) != k;
    }
    forall w: nat | w != v
      ensures Leaf(mem', at, w) == Leaf(mem, at, w)
    {
      assert w / 512 != v / 512 || w % 512 != v % 512;
    }
  }

  /** Hanging a zeroed page that is not yet a table into an empty slot adds one table and changes no mapping. */
  lemma AddTable(mem: Memory, root: nat, at: Places, d: nat, x: nat, page: nat, e: Entry)
    requires Tree(mem, root, at) && 1 <= d <= 3
    requires Place(d - 1, x / 512) in at && Place(d, x) !in at
    requires forall k :: k in at ==> at[k] != page
    requires e.present && e.ppn == page
    ensures var up := at[Place(d - 1, x / 512)];
      var mem' := SetEntry(mem[page := ZeroTable()], up, x % 512, e);
      && Tree(mem', root, at[Place(d, x) := page])
      && forall v: nat :: Mapping(mem', at[Place(d, x) := page], v) == Mapping(mem, at, v)
  {
    AddTableTree(mem, root, at, d, x, page, e);
    var mem', at' := SetEntry(mem[page := ZeroTable()], at[Place(d - 1, x / 512)], x % 512, e), at[Place(d, x) := page];
    forall v: nat
      ensures Mapping(mem', at', v) == Mapping(mem, at, v)
    {
      AddTableLeaf(mem, root, at, d, x, page, e, v);
    }
  }

  lemma AddTableTree(mem: Memory, root: nat, at: Places, d: nat, x: nat, page: nat, e: Entry)
    requires Tree(mem, root, at) && 1 <= d <= 3
    requires Place(d - 1, x / 512) in at && Place(d, x) !in at
    requires forall k :: k in at ==> at[k] != page
    requires e.present && e.ppn == page
    ensures var up := at[Place(d - 1, x / 512)];
      Tree(SetEntry(mem[page := ZeroTable()], up, x % 512, e), root, at[Place(d, x) := page])
  {
    var up := at[Place(d - 1, x / 512)];
    var mem' := SetEntry(mem[page := ZeroTable()], up, x % 512, e);
    var at' := at[Place(d, x) := page];
    forall c: nat, y: nat | 1 <= c <= 3
      ensures Place(c, y) in at' <==> Linked(mem', at', c, y)
      ensures Place(c, y) in at' ==> at'[Place(c, y)] == Link(mem', at', c, y).ppn
    {
      AddTableAt(mem, root, at, d, x, page, e, c, y);
    }
  }

  lemma AddTableLeaf(mem: Memory, root: nat, at: Places, d: nat, x: nat, page: nat, e: Entry, v: nat)
    requires Tree(mem, root, at) && 1 <= d <= 3
    requires Place(d - 1, x / 512) in at && Place(d, x) !in at
    requires forall k :: k in at ==> at[k] != page
    ensures var up := at[Place(d - 1, x / 512)];
      var mem' := SetEntry(mem[page := ZeroTable()], up, x % 512, e);
      Mapping(mem', at[Place(d, x) := page], v) == Mapping(mem, at, v)
  {
    var k, up := Place(3, v / 512), at[Place(d - 1, x / 512)];
    if k in at {
      assert at[k] != up && at[k] != page;
    }
  }

  lemma AddTableAt(mem: Memory, root: nat, at: Places, d: nat, x: nat, page: nat, e: Entry, c: nat, y: nat)
    requires Tree(mem, root, at) && 1 <= d <= 3
    requires Place(d - 1, x / 512) in at && Place(d, x) !in at
    requires forall k :: k in at ==> at[k] != page
    requires e.present && e.ppn == page
    requires 1 <= c <= 3
    ensures var up := at[Place(d - 1, x / 512)];
      var mem' := SetEntry(mem[page := ZeroTable()], up, x % 512, e);
      var at' := at[Place(d, x) := page];
      && (Place(c, y) in at' <==> Linked(mem', at', c, y))
      && (Place(c, y) in at' ==> at'[Place(c, y)] == Link(mem', at', c, y).ppn)
  {
    assert Place(c, y) in at <==> Linked(mem, at, c, y);
    var parent := Place(c - 1, y / 512);
    if parent == Place(d, x) {
      assert Place(c, y) !in at;
    } else if parent == Place(d - 1, x / 512) {
      assert y % 512 == x % 512 ==> y == x;
    }
  }
}
