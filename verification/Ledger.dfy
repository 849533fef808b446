/**
 The block ledger of the x86 virtual allocator, as the two bits per page-table entry
 encode it. A view gives the leaf entry of every virtual page that has a table.
 */
module Ledger {
  import opened PhysPageMap
  import opened PageTree

  type View = imap<nat, Entry>

  /** Block starts and their lengths in pages. */
  type Blocks = map<nat, nat>

  ghost predicate Avail(view: View, v: nat) {
    v in view && view[v].avail
  }

  /** Where the loops of `vpagefree` and `vpagesize` that started at `first` stop. */
  ghost predicate Stops(view: View, first: nat, v: nat) {
    v !in view || view[v].avail || (v != first && view[v].start)
  }

  /** The pages from s up to the first stop are s, ..., s + n - 1. */
  ghost predicate Run(view: View, s: nat, n: nat) {
    (forall v: nat :: s <= v < s + n ==> !Stops(view, s, v)) && Stops(view, s, s + n)
  }

  ghost predicate Block(view: View, s: nat, n: nat) {
    n > 0 && Run(view, s, n) && s in view && view[s].start
  }

  /** Available pages carry no start bit, and an unavailable page after an available one carries it. */
  ghost predicate WellMarked(view: View) {
    && (forall v: nat :: Avail(view, v) ==> !view[v].start)
    && (forall v: nat :: Avail(view, v) && v + 1 in view && !view[v + 1].avail ==> view[v + 1].start)
  }

  ghost predicate Records(view: View, blocks: Blocks) {
    WellMarked(view) && forall s :: s in blocks ==> Block(view, s, blocks[s])
  }

  ghost predicate InBlock(blocks: Blocks, s: nat, v: nat) {
    s in blocks && s <= v < s + blocks[s]
  }

  /** `covered` is the set of pages of all recorded blocks. */
  ghost predicate Covers(blocks: Blocks, covered: set<nat>) {
    && (forall v: nat :: v in covered ==> exists s: nat :: InBlock(blocks, s, v))
    && (forall s: nat, v: nat :: InBlock(blocks, s, v) ==> v in covered)
  }

  // ---- What the bits determine ----------------------------------------------------

  /** The two bits determine a block's length. */
  lemma RunUnique(view: View, s: nat, n: nat, m: nat)
    requires Run(view, s, n) && Run(view, s, m)
    ensures n == m
  {
  }

  lemma BlockPages(view: View, s: nat, n: nat, v: nat)
    requires Block(view, s, n) && s <= v < s + n
    ensures v in view && !view[v].avail && (view[v].start <==> v == s)
  {
    assert !Stops(view, s, v);
  }

  /** Recorded blocks are disjoint. */
  lemma BlocksDisjoint(view: View, blocks: Blocks, s: nat, t: nat, v: nat)
    requires Records(view, blocks)
    requires InBlock(blocks, s, v) && InBlock(blocks, t, v)
    ensures s == t
  {
    BlockPages(view, s, blocks[s], v);
    BlockPages(view, t, blocks[t], v);
    if s < t {
      BlockPages(view, s, blocks[s], t);
    } else if t < s {
      BlockPages(view, t, blocks[t], s);
    }
  }

  lemma {:induction false} RangeSize(lo: nat, hi: nat)
    requires lo <= hi
    ensures |Range(lo, hi)| == hi - lo
    decreases hi - lo
  {
    if lo < hi {
      RangeSize(lo + 1, hi);
      assert Range(lo, hi) == {lo} + Range(lo + 1, hi);
    } else {
      assert Range(lo, hi) == {};
    }
  }

  // ---- Allocation -----------------------------------------------------------------

  /** The bits after `vpagealloc` grabbed n pages from s on. */
  ghost predicate Grabbed(view: View, view': View, s: nat, n: nat) {
    && view'.Keys == view.Keys
    && (forall v: nat :: s <= v < s + n ==> v in view)
    && (forall v: nat :: s <= v < s + n ==>
         view'[v] == view[v].(avail := false, start := v == s || view[v].start, present := false))
    && (forall v: nat :: v in view && !(s <= v < s + n) ==> view'[v] == view[v])
  }

  lemma GrabRecords(view: View, view': View, blocks: Blocks, covered: set<nat>, s: nat, n: nat)
    requires Records(view, blocks) && Covers(blocks, covered) && n > 0
    requires forall v: nat :: s <= v < s + n ==> Avail(view, v)
    requires Grabbed(view, view', s, n)
    ensures Records(view', blocks[s := n])
    ensures Covers(blocks[s := n], covered + Range(s, s + n))
    ensures Range(s, s + n) !! covered
  {
    GrabMarks(view, view', s, n);
    forall t | t in blocks
      ensures t != s && Block(view', t, blocks[t])
    {
      GrabKeeps(view, view', s, n, t, blocks[t]);
    }
    forall v: nat | v in covered
      ensures !Avail(view, v)
    {
      var t: nat :| InBlock(blocks, t, v);
      BlockPages(view, t, blocks[t], v);
    }
    CoversAdd(blocks, covered, s, n);
  }

  lemma CoversAdd(blocks: Blocks, covered: set<nat>, s: nat, n: nat)
    requires Covers(blocks, covered) && s !in blocks
    ensures Covers(blocks[s := n], covered + Range(s, s + n))
  {
    var blocks', grown := blocks[s := n], covered + Range(s, s + n);
    forall v | v in grown
      ensures exists t :: InBlock(blocks', t, v)
    {
      if v in covered {
        var t :| InBlock(blocks, t, v);
        assert InBlock(blocks', t, v);
      } else {
        assert InBlock(blocks', s, v);
      }
    }
    forall t, v: nat | InBlock(blocks', t, v)
      ensures v in covered + Range(s, s + n)
    {
      assert t != s ==> InBlock(blocks, t, v);
    }
  }

  lemma GrabMarks(view: View, view': View, s: nat, n: nat)
    requires WellMarked(view) && n > 0
    requires forall v: nat :: s <= v < s + n ==> Avail(view, v)
    requires Grabbed(view, view', s, n)
    ensures WellMarked(view') && Block(view', s, n)
  {
    forall v: nat | Avail(view', v)
      ensures !view'[v].start
      ensures v + 1 in view' && !view'[v + 1].avail ==> view'[v + 1].start
    {
      assert Avail(view, v);
    }
    assert Avail(view, s + n - 1);
  }

  lemma GrabKeeps(view: View, view': View, s: nat, n: nat, t: nat, m: nat)
    requires n > 0 && Block(view, t, m)
    requires forall v: nat :: s <= v < s + n ==> Avail(view, v)
    requires Grabbed(view, view', s, n)
    ensures t != s && Block(view', t, m)
  {
    BlockPages(view, t, m, t);
    assert Avail(view, s);
    forall v: nat | t <= v < t + m
      ensures !Stops(view', t, v)
    {
      BlockPages(view, t, m, v);
    }
    BlockPages(view, t, m, t + m - 1);
    assert Stops(view, t, t + m);
    if s <= t + m < s + n {
      assert s != t + m ==> Avail(view, t + m - 1);
    }
  }

  // ---- Freeing ----------------------------------------------------------------------

  /** The bits after `vpagefree` gave back n pages from p on. */
  ghost predicate Freed(view: View, view': View, p: nat, n: nat) {
    && view'.Keys == view.Keys
    && (forall v: nat :: p <= v < p + n ==> v in view)
    && (forall v: nat :: p <= v < p + n ==>
         view'[v] == view[v].(avail := true, start := false, present := false))
    && (forall v: nat :: v in view && !(p <= v < p + n) ==> view'[v] == view[v])
  }

  /** The ledger without what lies at or after p in p's block. */
  function Cut(blocks: Blocks, p: nat): Blocks {
    map s | s in blocks && s != p :: if s < p < s + blocks[s] then p - s else blocks[s]
  }

  /** A run that starts inside a block ends where the block ends. */
  lemma RunInBlock(view: View, s: nat, m: nat, p: nat, n: nat)
    requires Block(view, s, m) && s <= p < s + m && Run(view, p, n)
    ensures p + n == s + m
  {
    forall v: nat | p <= v < s + m
      ensures !Stops(view, p, v)
    {
      BlockPages(view, s, m, v);
    }
    assert Stops(view, p, s + m);
  }

  /** A run that starts outside a block does not reach into it. */
  lemma RunOutsideBlock(view: View, s: nat, m: nat, p: nat, n: nat)
    requires Block(view, s, m) && !(s <= p < s + m) && Run(view, p, n)
    ensures p + n <= s || s + m <= p
  {
    BlockPages(view, s, m, s);
    assert p != s ==> Stops(view, p, s);
  }

  lemma FreeMarks(view: View, view': View, p: nat, n: nat)
    requires WellMarked(view) && Run(view, p, n) && Freed(view, view', p, n)
    ensures WellMarked(view')
  {
    forall v: nat | Avail(view', v)
      ensures !view'[v].start
      ensures v + 1 in view' && !view'[v + 1].avail ==> view'[v + 1].start
    {
      if p <= v < p + n {
        assert v + 1 == p + n || !(v + 1 in view' && !view'[v + 1].avail);
      } else {
        assert Avail(view, v);
      }
    }
  }

  lemma FreeKeeps(view: View, view': View, s: nat, m: nat, p: nat, n: nat)
    requires Block(view, s, m) && s != p && Run(view, p, n) && Freed(view, view', p, n)
    ensures Block(view', s, if s < p < s + m then p - s else m)
  {
    var m' := if s < p < s + m then p - s else m;
    if s < p < s + m {
      RunInBlock(view, s, m, p, n);
    } else {
      RunOutsideBlock(view, s, m, p, n);
    }
    forall v: nat | s <= v < s + m'
      ensures !Stops(view', s, v)
    {
      BlockPages(view, s, m, v);
    }
    BlockPages(view, s, m, s);
    assert Stops(view', s, s + m');
  }

  lemma FreeRecords(view: View, view': View, blocks: Blocks, covered: set<nat>, p: nat, n: nat)
    requires Records(view, blocks) && Covers(blocks, covered)
    requires Run(view, p, n) && Freed(view, view', p, n)
    ensures Records(view', Cut(blocks, p))
    ensures Covers(Cut(blocks, p), covered - Range(p, p + n))
    ensures p in covered ==> Range(p, p + n) <= covered
  {
    FreeMarks(view, view', p, n);
    var blocks' := Cut(blocks, p);
    forall s | s in blocks'
      ensures Block(view', s, blocks'[s])
    {
      FreeKeeps(view, view', s, blocks[s], p, n);
    }
    FreeCovers(view, blocks, covered, p, n);
  }

  lemma FreeCovers(view: View, blocks: Blocks, covered: set<nat>, p: nat, n: nat)
    requires Records(view, blocks) && Covers(blocks, covered) && Run(view, p, n)
    ensures Covers(Cut(blocks, p), covered - Range(p, p + n))
    ensures p in covered ==> Range(p, p + n) <= covered
  {
    var blocks', covered' := Cut(blocks, p), covered - Range(p, p + n);
    forall v: nat | v in covered'
      ensures exists s: nat :: InBlock(blocks', s, v)
    {
      var s: nat :| InBlock(blocks, s, v);
      if s <= p < s + blocks[s] {
        RunInBlock(view, s, blocks[s], p, n);
      }
      assert InBlock(blocks', s, v);
    }
    forall s: nat, v: nat | InBlock(blocks', s, v)
      ensures v in covered'
    {
      assert InBlock(blocks, s, v);
      if !(s <= p < s + blocks[s]) {
        RunOutsideBlock(view, s, blocks[s], p, n);
      }
    }
    if p in covered {
      var s: nat :| InBlock(blocks, s, p);
      RunInBlock(view, s, blocks[s], p, n);
      forall v: nat | v in Range(p, p + n)
        ensures v in covered
      {
        assert InBlock(blocks, s, v);
      }
    }
  }

  /** Freeing at a block's start removes that block and leaves every other one alone. */
  lemma CutStart(view: View, blocks: Blocks, p: nat, n: nat)
    requires Records(view, blocks) && p in blocks && Run(view, p, n)
    ensures n == blocks[p] && Cut(blocks, p) == blocks - {p}
  {
    RunUnique(view, p, n, blocks[p]);
    forall s: nat | s in blocks && s != p
      ensures !(s < p < s + blocks[s])
    {
      if s < p < s + blocks[s] {
        BlocksDisjoint(view, blocks, s, p, p);
      }
    }
  }

  // ---- The ledger as the allocator carries it ------------------------------------------

  /** The bits record the blocks, and `covered` holds their pages. */
  ghost predicate Recorded(view: View, blocks: Blocks, covered: set<nat>) {
    forall u: int {:trigger Key(u)} :: Key(u) ==> Records(view, blocks) && Covers(blocks, covered)
  }

  lemma OpenRecorded(view: View, blocks: Blocks, covered: set<nat>)
    requires Recorded(view, blocks, covered)
    ensures Records(view, blocks) && Covers(blocks, covered)
  {
    assert Key(0);
  }

  /** Grabbing available pages records one new block of that length. */
  lemma GrabRecorded(view: View, view': View, blocks: Blocks, covered: set<nat>, s: nat, n: nat)
    requires Recorded(view, blocks, covered) && n > 0
    requires forall v: nat :: s <= v < s + n ==> Avail(view, v)
    requires Grabbed(view, view', s, n)
    ensures s !in blocks && Recorded(view', blocks[s := n], covered + Range(s, s + n))
    ensures |covered + Range(s, s + n)| == |covered| + n
  {
    OpenRecorded(view, blocks, covered);
    GrabRecords(view, view', blocks, covered, s, n);
    RangeSize(s, s + n);
    if s in blocks {
      GrabKeeps(view, view', s, n, s, blocks[s]);
    }
  }

  /** Freeing from p on removes p's block, or the rest of it when p lies inside. */
  lemma FreeRecorded(view: View, view': View, blocks: Blocks, covered: set<nat>, p: nat, n: nat)
    requires Recorded(view, blocks, covered)
    requires Run(view, p, n) && Freed(view, view', p, n)
    ensures Recorded(view', Cut(blocks, p), covered - Range(p, p + n))
    ensures p in covered || n == 0 ==> |covered - Range(p, p + n)| == |covered| - n
    ensures p in blocks ==> n == blocks[p] && p in covered && Cut(blocks, p) == blocks - {p}
  {
    OpenRecorded(view, blocks, covered);
    assert Records(view', Cut(blocks, p)) && Covers(Cut(blocks, p), covered - Range(p, p + n))
        && (p in covered ==> Range(p, p + n) <= covered) by {
      FreeRecords(view, view', blocks, covered, p, n);
    }
    RemovedSize(covered, p, n);
    if p in blocks {
      CutStart(view, blocks, p, n);
      BlockCovered(view, blocks, covered, p);
    }
  }

  lemma RemovedSize(covered: set<nat>, p: nat, n: nat)
    ensures Range(p, p + n) <= covered ==> |covered - Range(p, p + n)| == |covered| - n
    ensures n == 0 ==> covered - Range(p, p + n) == covered
  {
    RangeSize(p, p + n);
    var r := Range(p, p + n);
    if r <= covered {
      assert covered == (covered - r) + r;
    }
  }

  lemma BlockCovered(view: View, blocks: Blocks, covered: set<nat>, p: nat)
    requires Records(view, blocks) && Covers(blocks, covered) && p in blocks
    ensures p in covered
  {
    assert Block(view, p, blocks[p]);
    assert InBlock(blocks, p, p);
  }

  /** The bits of a recorded block give back its recorded length. */
  lemma RecordedLength(view: View, blocks: Blocks, covered: set<nat>, p: nat, n: nat)
    requires Recorded(view, blocks, covered) && Run(view, p, n)
    ensures p in blocks ==> n == blocks[p]
  {
    OpenRecorded(view, blocks, covered);
    if p in blocks {
      RunUnique(view, p, n, blocks[p]);
    }
  }

  // ---- Mapping ---------------------------------------------------------------------------

  /** The allocation bits of every entry are the same in both views. */
  ghost predicate SameMarks(view: View, view': View) {
    && view'.Keys == view.Keys
    && (forall v: nat :: v in view ==> view'[v].avail == view[v].avail && view'[v].start == view[v].start)
  }

  /** Changing only mapping fields keeps the ledger. */
  lemma MapRecorded(view: View, view': View, blocks: Blocks, covered: set<nat>)
    requires Recorded(view, blocks, covered) && SameMarks(view, view')
    ensures Recorded(view', blocks, covered)
  {
    OpenRecorded(view, blocks, covered);
    forall v: nat | Avail(view', v)
      ensures !view'[v].start
      ensures v + 1 in view' && !view'[v + 1].avail ==> view'[v + 1].start
    {
      assert Avail(view, v);
    }
    forall s | s in blocks
      ensures Block(view', s, blocks[s])
    {
      assert Block(view, s, blocks[s]);
      forall v: nat
        ensures Stops(view', s, v) <==> Stops(view, s, v)
      {
      }
    }
  }

  /** The pages below `top` down to the first start bit: a guard page without a mapping, then mapped pages. */
  ghost predicate StackRun(view: View, s: nat, top: nat) {
    s < top && forall v: nat :: s <= v < top ==> StackPage(view, s, v)
  }

  ghost predicate StackPage(view: View, s: nat, v: nat) {
    v in view && !view[v].avail && (view[v].start <==> v == s) && (view[v].present <==> v != s)
  }
}
