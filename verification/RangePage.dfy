/**
 One page of the interval free list (include/vpallocator.h): up to 254 free address ranges,
 kept sorted, non-empty and apart from each other.
 */
module RangePage {
  import opened Optional
  import PhysAlloc

  const NUM_RECORDS: nat := 254

  type u64 = PhysAlloc.u64

  datatype Range = Range(start: u64, end: u64)
  datatype Outcome = Done | NoSpace | Error

  // ---- Canonical lists of ranges -----------------------------------------------------------

  /** Sorted, non-empty and strictly separated. */
  ghost predicate Canonical(s: seq<Range>) {
    && (forall i :: 0 <= i < |s| ==> s[i].start < s[i].end)
    && (forall i, j :: 0 <= i < j < |s| ==> s[i].end < s[j].start)
  }

  /** Address a is free. */
  ghost predicate Free(s: seq<Range>, a: nat) {
    exists i :: 0 <= i < |s| && s[i].start <= a < s[i].end
  }

  /** `a + b` on 64-bit numbers. */
  function Plus(a: u64, b: u64): u64 {
    if a + b < 0x1_0000_0000_0000_0000 then a + b else a + b - 0x1_0000_0000_0000_0000
  }

  /** Range r starts at or below addr and ends at or above end. */
  predicate Reaches(r: Range, addr: nat, end: nat) {
    r.start <= addr && end <= r.end
  }

  /** Some range does: for addr <= end, it holds all of [addr, end). */
  ghost predicate Covers(s: seq<Range>, addr: nat, end: nat) {
    exists i :: 0 <= i < |s| && Reaches(s[i], addr, end)
  }

  /** Some address of [addr, addr + size) is free. */
  ghost predicate Meets(s: seq<Range>, addr: nat, size: nat) {
    exists a: nat :: addr <= a < addr + size && Free(s, a)
  }

  /** [addr, addr + size) borders on a range. */
  ghost predicate Borders(s: seq<Range>, addr: nat, size: nat) {
    exists i :: 0 <= i < |s| && (s[i].end == addr || s[i].start == addr + size)
  }

  ghost predicate Adds(s: seq<Range>, t: seq<Range>, addr: nat, size: nat) {
    forall a: nat :: Free(t, a) <==> Free(s, a) || addr <= a < addr + size
  }

  ghost predicate Removes(s: seq<Range>, t: seq<Range>, addr: nat, size: nat) {
    forall a: nat :: Free(t, a) <==> Free(s, a) && !(addr <= a < addr + size)
  }

  /** For a canonical list, one range holds a non-empty stretch exactly when all of it is free. */
  lemma CoversIsAllFree(s: seq<Range>, addr: nat, size: nat)
    requires Canonical(s) && size > 0
    ensures Covers(s, addr, addr + size) <==> forall a: nat :: addr <= a < addr + size ==> Free(s, a)
  {
    if forall a: nat :: addr <= a < addr + size ==> Free(s, a) {
      assert Free(s, addr);
      var i :| 0 <= i < |s| && s[i].start <= addr < s[i].end;
      assert s[i].end < addr + size ==> Free(s, s[i].end);
    }
  }

  /** The free set determines the canonical list. */
  lemma {:induction false} CanonicalUnique(s: seq<Range>, t: seq<Range>)
    requires Canonical(s) && Canonical(t)
    requires forall a: nat :: Free(s, a) <==> Free(t, a)
    ensures s == t
  {
    if s == [] {
      if t != [] { assert Free(t, t[0].start); }
    } else if t == [] {
      assert Free(s, s[0].start);
    } else {
      FirstsAgree(s, t);
      FirstsAgree(t, s);
      TailsAgree(s, t);
      CanonicalUnique(s[1..], t[1..]);
      assert s == [s[0]] + s[1..] && t == [t[0]] + t[1..];
    }
  }

  lemma TailsAgree(s: seq<Range>, t: seq<Range>)
    requires Canonical(s) && Canonical(t) && s != [] && t != [] && s[0] == t[0]
    requires forall a: nat :: Free(s, a) <==> Free(t, a)
    ensures Canonical(s[1..]) && Canonical(t[1..])
    ensures forall a: nat :: Free(s[1..], a) <==> Free(t[1..], a)
  {
    forall a: nat
      ensures Free(s[1..], a) <==> Free(t[1..], a)
    {
      TailFree(s, a);
      TailFree(t, a);
    }
  }

  lemma FirstsAgree(s: seq<Range>, t: seq<Range>)
    requires Canonical(s) && Canonical(t) && s != [] && t != []
    requires forall a: nat :: Free(s, a) <==> Free(t, a)
    ensures t[0].start <= s[0].start && s[0].end <= t[0].end
  {
    assert Free(s, s[0].start);
    assert Free(t, s[0].start);
    assert Free(t, t[0].start);
    assert Free(s, t[0].start);
    assert t[0].end < s[0].end ==> Free(s, t[0].end);
    assert !Free(t, t[0].end);
  }

  lemma TailFree(s: seq<Range>, a: nat)
    requires Canonical(s) && s != []
    ensures Free(s[1..], a) <==> Free(s, a) && a >= s[0].end
  {
  }

  // ---- List surgery ------------------------------------------------------------------------

  /** The list with the `drop` ranges from i on replaced by `put`. */
  function Splice(s: seq<Range>, i: nat, drop: nat, put: seq<Range>): seq<Range>
    requires i + drop <= |s|
  {
    s[..i] + put + s[i + drop..]
  }

  lemma SpliceFree(s: seq<Range>, i: nat, drop: nat, put: seq<Range>, a: nat)
    requires i + drop <= |s|
    ensures Free(Splice(s, i, drop, put), a) <==> Free(s[..i], a) || Free(put, a) || Free(s[i + drop..], a)
    ensures Free(s, a) <==> Free(s[..i], a) || Free(s[i..i + drop], a) || Free(s[i + drop..], a)
  {
    var head, tail := s[..i], s[i + drop..];
    ConcatFree(head, put, a);
    ConcatFree(head + put, tail, a);
    ConcatFree(head, s[i..i + drop], a);
    ConcatFree(head + s[i..i + drop], tail, a);
    assert s == head + s[i..i + drop] + tail;
  }

  lemma ConcatFree(s: seq<Range>, t: seq<Range>, a: nat)
    ensures Free(s + t, a) <==> Free(s, a) || Free(t, a)
  {
    var u := s + t;
    assert forall i :: 0 <= i < |s| ==> u[i] == s[i];
    assert forall i :: 0 <= i < |t| ==> u[|s| + i] == t[i];
  }

  /** Replacing ranges by ranges that stay within the same gap keeps the list canonical. */
  lemma SpliceCanonical(s: seq<Range>, i: nat, drop: nat, put: seq<Range>)
    requires Canonical(s) && Canonical(put) && i + drop <= |s|
    requires i > 0 && put != [] ==> s[i - 1].end < put[0].start
    requires i + drop < |s| && put != [] ==> put[|put| - 1].end < s[i + drop].start
    ensures Canonical(Splice(s, i, drop, put))
  {
    var front, tail := s[..i] + put, s[i + drop..];
    FrontCanonical(s, i, put);
    PartCanonical(s, i + drop, |s|);
    assert put == [] && i > 0 && i + drop < |s| ==> s[i - 1].end < s[i + drop].start;
    ConcatCanonical(front, tail);
  }

  lemma FrontCanonical(s: seq<Range>, i: nat, put: seq<Range>)
    requires Canonical(s) && Canonical(put) && i <= |s|
    requires i > 0 && put != [] ==> s[i - 1].end < put[0].start
    ensures Canonical(s[..i] + put)
  {
  }

  lemma PartCanonical(s: seq<Range>, lo: nat, hi: nat)
    requires Canonical(s) && lo <= hi <= |s|
    ensures Canonical(s[lo..hi])
  {
  }

  lemma ConcatCanonical(s: seq<Range>, t: seq<Range>)
    requires Canonical(s) && Canonical(t)
    requires s != [] && t != [] ==> s[|s| - 1].end < t[0].start
    ensures Canonical(s + t)
  {
  }

  // ---- Taking a stretch out of a range ------------------------------------------------------

  /** A range, or nothing when it would be empty. */
  function Piece(start: u64, end: u64): seq<Range> {
    if start < end then [Range(start, end)] else []
  }

  /** What is left when [addr, end) is cut out of range i: what lies below addr and what lies from end on. */
  function Without(s: seq<Range>, i: nat, addr: u64, end: u64): seq<Range>
    requires i < |s|
  {
    Splice(s, i, 1, Piece(s[i].start, addr) + Piece(end, s[i].end))
  }

  /** The same, case by case. */
  lemma WithoutIs(s: seq<Range>, i: nat, addr: u64, end: u64)
    requires i < |s| && Reaches(s[i], addr, end) && s[i].start < s[i].end
    ensures var left, right := s[i].start < addr, end < s[i].end;
      Without(s, i, addr, end) ==
        if left && right
        then (s[..i + 1] + [Range(end, s[i].end)] + s[i + 1..])[i := Range(s[i].start, addr)]
        else if left then s[i := Range(s[i].start, addr)]
        else if right then s[i := Range(end, s[i].end)]
        else s[..i] + s[i + 1..]
  {
  }

  lemma WithoutExact(s: seq<Range>, i: nat, addr: u64, size: nat)
    requires Canonical(s) && i < |s| && Reaches(s[i], addr, addr + size)
    requires size > 0 || addr == s[i].start || addr == s[i].end
    ensures Canonical(Without(s, i, addr, addr + size))
    ensures Removes(s, Without(s, i, addr, addr + size), addr, size)
  {
    SpliceCanonical(s, i, 1, Piece(s[i].start, addr) + Piece(addr + size, s[i].end));
    forall a: nat
      ensures Free(Without(s, i, addr, addr + size), a) <==> Free(s, a) && !(addr <= a < addr + size)
    {
      WithoutFree(s, i, addr, size, a);
    }
  }

  lemma WithoutFree(s: seq<Range>, i: nat, addr: u64, size: nat, a: nat)
    requires Canonical(s) && i < |s| && Reaches(s[i], addr, addr + size)
    ensures Free(Without(s, i, addr, addr + size), a) <==> Free(s, a) && !(addr <= a < addr + size)
  {
    var left, right := Piece(s[i].start, addr), Piece(addr + size, s[i].end);
    SpliceFree(s, i, 1, left + right, a);
    ConcatFree(left, right, a);
    PieceFree(s[i].start, addr, a);
    PieceFree(addr + size, s[i].end, a);
    PieceFree(s[i].start, s[i].end, a);
    assert s[i..i + 1] == Piece(s[i].start, s[i].end);
    if s[i].start <= a < s[i].end {
      Elsewhere(s, i, a);
    }
  }

  /** Range i is the first that reaches over the stretch. */
  ghost predicate First(s: seq<Range>, i: nat, addr: nat, end: nat) {
    i < |s| && Reaches(s[i], addr, end) && forall j :: 0 <= j < i ==> !Reaches(s[j], addr, end)
  }

  /**
   The cut that `TryAllocateFromAddress` makes is the intended one exactly when the stretch does
   not run over the top of the address space and does not split a range at a single point.
   */
  lemma WithoutWhen(s: seq<Range>, i: nat, addr: u64, size: u64)
    requires Canonical(s) && First(s, i, addr, Plus(addr, size))
    ensures var t := Without(s, i, addr, Plus(addr, size));
      Canonical(t) && Removes(s, t, addr, size) <==>
      addr + size < 0x1_0000_0000_0000_0000 && (size > 0 || addr == s[i].start || addr == s[i].end)
  {
    var end := Plus(addr, size);
    var t := Without(s, i, addr, end);
    WithoutIs(s, i, addr, end);
    if addr + size < 0x1_0000_0000_0000_0000 {
      if size > 0 || addr == s[i].start || addr == s[i].end {
        WithoutExact(s, i, addr, size);
      } else {
        assert t[i].end == t[i + 1].start;
      }
    } else {
      WrappedCut(s, i, addr, end);
    }
  }

  /** Where the sum wraps, the cut frees the address it wraps to, or leaves two ranges out of order. */
  lemma WrappedCut(s: seq<Range>, i: nat, addr: u64, end: u64)
    requires Canonical(s) && First(s, i, addr, end) && end < addr
    ensures var t := Without(s, i, addr, end); !Canonical(t) || (Free(t, end) && !Free(s, end))
  {
    var t := Without(s, i, addr, end);
    WithoutIs(s, i, addr, end);
    if s[i].start < addr && end < s[i].end {
      assert t[i].end > t[i + 1].start;
    } else {
      assert t[i].start <= end < t[i].end;
      assert forall j :: 0 <= j < i ==> s[j].end < end;
    }
  }

  lemma PieceFree(start: u64, end: u64, a: nat)
    ensures Free(Piece(start, end), a) <==> start <= a < end
  {
    if start < end {
      assert Piece(start, end)[0] == Range(start, end);
    }
  }

  /** An address of range i lies in no other range. */
  lemma Elsewhere(s: seq<Range>, i: nat, a: nat)
    requires Canonical(s) && i < |s| && s[i].start <= a < s[i].end
    ensures !Free(s[..i], a) && !Free(s[i + 1..], a)
  {
  }

  // ---- Putting a stretch back ----------------------------------------------------------------

  /** A stretch in the gap below range g meets no range. */
  lemma GapMeetsNone(s: seq<Range>, g: nat, addr: nat, size: nat)
    requires Canonical(s) && Gap(s, g, addr, addr + size)
    ensures !Meets(s, addr, size)
  {
  }

  /** Replacing `drop` ranges from i on by their union with the stretch adds exactly the stretch. */
  lemma JoinExact(s: seq<Range>, i: nat, drop: nat, mid: seq<Range>, r: Range, addr: nat, size: nat)
    requires Canonical(s) && i + drop <= |s| && r.start < r.end && mid == s[i..i + drop]
    requires i > 0 ==> s[i - 1].end < r.start
    requires i + drop < |s| ==> r.end < s[i + drop].start
    requires forall a: nat :: Free(mid, a) || addr <= a < addr + size <==> r.start <= a < r.end
    ensures Canonical(Splice(s, i, drop, [r]))
    ensures Adds(s, Splice(s, i, drop, [r]), addr, size)
  {
    SpliceCanonical(s, i, drop, [r]);
    forall a: nat
      ensures Free(Splice(s, i, drop, [r]), a) <==> Free(s, a) || addr <= a < addr + size
    {
      SpliceFree(s, i, drop, [r], a);
      PieceFree(r.start, r.end, a);
      assert [r] == Piece(r.start, r.end);
    }
  }

  /** The stretch [addr, end) in the gap below range g, joined to the neighbours it borders on. */
  function With(s: seq<Range>, g: nat, addr: u64, end: u64): seq<Range>
    requires g <= |s|
  {
    var left := g > 0 && s[g - 1].end == addr;
    var right := g < |s| && s[g].start == end;
    if left && right then Splice(s, g - 1, 2, [Range(s[g - 1].start, s[g].end)])
    else if left then Splice(s, g - 1, 1, [Range(s[g - 1].start, end)])
    else if right then Splice(s, g, 1, [Range(addr, s[g].end)])
    else Splice(s, g, 0, [Range(addr, end)])
  }

  /** The same between two ranges, case by case. */
  lemma WithIs(s: seq<Range>, g: nat, addr: u64, end: u64)
    requires 0 < g < |s|
    ensures var left, right := s[g - 1].end == addr, s[g].start == end;
      With(s, g, addr, end) ==
        if left && right then
          var t := s[g - 1 := Range(s[g - 1].start, s[g].end)];
          t[..g] + t[g + 1..]
        else if left then s[g - 1 := Range(s[g - 1].start, end)]
        else if right then s[g := Range(addr, s[g].end)]
        else s[..g] + [Range(addr, end)] + s[g..]
  {
  }

  /** addr lies in the gap below range g. */
  ghost predicate Gap(s: seq<Range>, g: nat, addr: nat, end: nat) {
    g <= |s| && (g > 0 ==> s[g - 1].end <= addr) && (g < |s| ==> end <= s[g].start)
  }

  lemma WithExact(s: seq<Range>, g: nat, addr: u64, size: nat)
    requires Canonical(s) && size > 0 && addr + size < 0x1_0000_0000_0000_0000 && Gap(s, g, addr, addr + size)
    ensures var t := With(s, g, addr, addr + size); Canonical(t) && Adds(s, t, addr, size)
  {
    var left := g > 0 && s[g - 1].end == addr;
    var right := g < |s| && s[g].start == addr + size;
    var i, drop := if left then g - 1 else g, (if left then 1 else 0) + (if right then 1 else 0);
    var r := Range(if left then s[g - 1].start else addr, if right then s[g].end else addr + size);
    var mid := s[i..i + drop];
    forall a: nat
      ensures Free(mid, a) || addr <= a < addr + size <==> r.start <= a < r.end
    {
      JoinedFree(s, g, addr, size, a, left, right);
    }
    JoinExact(s, i, drop, mid, r, addr, size);
  }

  /** Where the sum wraps, the new range is inside out, or a range shrinks. */
  lemma WrappedJoin(s: seq<Range>, g: nat, addr: u64, end: u64)
    requires Canonical(s) && Gap(s, g, addr, addr + 1) && end < addr
    ensures var t := With(s, g, addr, end); !Canonical(t) || !Free(t, addr)
    ensures !Free(s, addr)
  {
    var t := With(s, g, addr, end);
    if g > 0 && s[g - 1].end == addr {
      assert t == s[g - 1 := Range(s[g - 1].start, end)];
    } else {
      assert t[g] == Range(addr, end);
    }
  }

  lemma JoinedFree(s: seq<Range>, g: nat, addr: nat, size: nat, a: nat, left: bool, right: bool)
    requires Canonical(s) && g <= |s| && size > 0
    requires left ==> g > 0 && s[g - 1].end == addr
    requires right ==> g < |s| && s[g].start == addr + size
    ensures var i, drop := if left then g - 1 else g, (if left then 1 else 0) + (if right then 1 else 0);
      Free(s[i..i + drop], a) <==>
      (left && s[g - 1].start <= a < addr) || (right && addr + size <= a < s[g].end)
  {
  }

  // ---- The page ----------------------------------------------------------------------------

  /** Some range holds addr and ends at or above end: the test of `IsFree`. */
  ghost predicate Inside(s: seq<Range>, addr: nat, end: nat) {
    exists i :: 0 <= i < |s| && s[i].start <= addr < s[i].end && end <= s[i].end
  }

  /** A page size up, with the 64-bit wrap of `size += overrun`. */
  function RoundUp(size: u64): u64 {
    Plus(size, if size % 4096 > 0 then 4096 - size % 4096 else 0)
  }

  /** The least multiple of the page size that is not below the size, or 0 if it does not fit in 64 bits. */
  lemma RoundUpIs(size: u64)
    ensures RoundUp(size) % 4096 == 0
    ensures if size <= 0xFFFF_FFFF_FFFF_F000 then size <= RoundUp(size) < size + 4096 else RoundUp(size) == 0
  {
  }

  /**
   `IsFree` and `TryAllocateFromAddress` agree exactly when the address is free or no range ends
   between the 64-bit sum and the address.
   */
  lemma IsFreeAgrees(s: seq<Range>, addr: u64, size: u64)
    requires Canonical(s)
    ensures var end := Plus(addr, size);
      (Inside(s, addr, end) <==> Covers(s, addr, end)) <==>
      Free(s, addr) || forall i :: 0 <= i < |s| ==> !(end <= s[i].end <= addr)
  {
  }

  /** So they agree on every non-empty stretch that does not run over the top of the address space. */
  lemma IsFreeAgreesInSpace(s: seq<Range>, addr: u64, size: u64)
    requires Canonical(s) && size > 0 && addr + size < 0x1_0000_0000_0000_0000
    ensures Inside(s, addr, Plus(addr, size)) <==> Covers(s, addr, Plus(addr, size))
  {
    IsFreeAgrees(s, addr, size);
  }

  /** One range [0x1000, 0x2000) and the rest of the address space from 0x5000 on: not free, yet taken. */
  lemma WrapExample()
    ensures var s, addr, size := [Range(0x1000, 0x2000)], 0x5000, 0xFFFF_FFFF_FFFF_B000;
      && Canonical(s) && Plus(addr, size) == 0
      && !Inside(s, addr, 0) && Covers(s, addr, 0)
      && Without(s, 0, addr, 0) == [Range(0x1000, 0x5000), Range(0, 0x2000)]
  {
    var s := [Range(0x1000, 0x2000)];
    assert Reaches(s[0], 0x5000, 0);
  }

  /** Nothing at all at the end of that range: not free, yet taken. */
  lemma EmptyStretchExample()
    ensures var s := [Range(0x1000, 0x2000)];
      Canonical(s) && !Inside(s, 0x2000, Plus(0x2000, 0)) && Covers(s, 0x2000, Plus(0x2000, 0))
  {
    var s := [Range(0x1000, 0x2000)];
    assert Reaches(s[0], 0x2000, 0x2000);
  }

  /** The branch of `TryFree` that puts a new range in front of the others. */
  ghost predicate FrontInsert(s: seq<Range>, addr: nat, size: nat) {
    0 < |s| < NUM_RECORDS && addr + size < s[0].start
  }

  /** What that branch leaves: range 0 overwritten, and the ranges high up in the page shifted. */
  function FrontInserted(s: seq<Range>, addr: u64, size: nat): seq<Range>
    requires 0 < |s| < NUM_RECORDS && addr + size < 0x1_0000_0000_0000_0000
  {
    seq(|s|, k requires 0 <= k < |s| =>
      if k == 0 then Range(addr, addr + size) else if k >= 255 - |s| then s[k - 1] else s[k])
  }

  /** It always loses the range that was first. */
  lemma FrontInsertLoses(s: seq<Range>, addr: u64, size: nat)
    requires Canonical(s) && FrontInsert(s, addr, size)
    ensures Free(s, s[0].start) && !Free(FrontInserted(s, addr, size), s[0].start)
  {
  }

  /** With 128 ranges or more it also leaves a range twice. */
  lemma FrontInsertedShape(s: seq<Range>, addr: u64, size: nat)
    requires Canonical(s) && FrontInsert(s, addr, size) && size > 0
    ensures Canonical(FrontInserted(s, addr, size)) <==> |s| < 128
    ensures |s| < 128 ==> FrontInserted(s, addr, size) == [Range(addr, addr + size)] + s[1..]
  {
    var t := FrontInserted(s, addr, size);
    if |s| >= 128 {
      var k := 255 - |s|;
      assert t[k] == s[k - 1] == t[k - 1];
      assert t[k - 1].start < t[k - 1].end;
    }
  }

  /** One range at 8192, and one page freed at 0: the range at 8192 is gone. */
  lemma FrontInsertExample()
    ensures var s := [Range(8192, 12288)];
      && Canonical(s) && FrontInsert(s, 0, 4096)
      && FrontInserted(s, 0, 4096) == [Range(0, 4096)]
      && !Adds(s, FrontInserted(s, 0, 4096), 0, 4096)
  {
    FrontInsertLoses([Range(8192, 12288)], 0, 4096);
  }

  /** What freeing a non-empty stretch of the address space does to the ranges, and what it answers. */
  ghost predicate Freed(s: seq<Range>, t: seq<Range>, addr: u64, size: nat, r: Outcome) {
    && (r == Error <==> Meets(s, addr, size))
    && (r == NoSpace <==> |s| == NUM_RECORDS && !Meets(s, addr, size) && !Borders(s, addr, size))
    && (r != Done ==> t == s)
    && (r == Done ==> (Canonical(t) && Adds(s, t, addr, size) <==> !FrontInsert(s, addr, size)))
    && (FrontInsert(s, addr, size) ==> t == FrontInserted(s, addr, size))
  }

  /** The address of a stretch that runs over the top of the address space is free, or below the first range. */
  ghost predicate Refused(s: seq<Range>, addr: nat) {
    s != [] && (addr < s[0].start || Free(s, addr))
  }

  /** What freeing such a stretch does: it may be accepted, and is then never what was asked for. */
  ghost predicate Overrun(s: seq<Range>, t: seq<Range>, addr: u64, end: u64, r: Outcome) {
    && (r == Error <==> Refused(s, addr))
    && (r == NoSpace <==>
          |s| == NUM_RECORDS && !Refused(s, addr) && forall i :: 0 <= i < |s| ==> s[i].end != addr)
    && (r != Done ==> t == s)
    && (r == Done ==> !(Canonical(t) && Free(t, addr)))
    && (r == Done ==> exists g: nat :: Gap(s, g, addr, addr + 1) && t == With(s, g, addr, end))
  }

  ghost predicate FreeAnswer(s: seq<Range>, t: seq<Range>, addr: u64, size: u64, r: Outcome) {
    if addr + size < 0x1_0000_0000_0000_0000 then Freed(s, t, addr, size, r)
    else Overrun(s, t, addr, Plus(addr, size), r)
  }

  /** `TryFree` does what was asked for exactly when the stretch fits and is not put in front. */
  lemma FreeExactWhen(s: seq<Range>, t: seq<Range>, addr: u64, size: u64)
    requires FreeAnswer(s, t, addr, size, Done) && size > 0
    ensures Canonical(t) && Adds(s, t, addr, size) <==>
      addr + size < 0x1_0000_0000_0000_0000 && !FrontInsert(s, addr, size)
  {
    if addr + size >= 0x1_0000_0000_0000_0000 && Adds(s, t, addr, size) {
      assert Free(t, addr);
    }
  }

  /** A stretch added in the gap below range g. */
  lemma FreedInGap(s: seq<Range>, g: nat, addr: u64, size: nat)
    requires Canonical(s) && size > 0 && addr + size < 0x1_0000_0000_0000_0000
    requires Gap(s, g, addr, addr + size) && !FrontInsert(s, addr, size)
    ensures |s| < NUM_RECORDS || Borders(s, addr, size) ==>
      Freed(s, With(s, g, addr, addr + size), addr, size, Done)
    ensures Borders(s, addr, size) <==> (g > 0 && s[g - 1].end == addr) || (g < |s| && s[g].start == addr + size)
    ensures |s| == NUM_RECORDS && !Borders(s, addr, size) ==> Freed(s, s, addr, size, NoSpace)
  {
    GapMeetsNone(s, g, addr, size);
    WithExact(s, g, addr, size);
  }

  lemma OverrunInGap(s: seq<Range>, g: nat, addr: u64, end: u64)
    requires Canonical(s) && Gap(s, g, addr, addr + 1) && end < addr && (s == [] || s[0].start <= addr)
    ensures (exists i :: 0 <= i < |s| && s[i].end == addr) <==> g > 0 && s[g - 1].end == addr
    ensures |s| < NUM_RECORDS || (g > 0 && s[g - 1].end == addr) ==>
      Overrun(s, With(s, g, addr, end), addr, end, Done)
    ensures |s| == NUM_RECORDS && !(g > 0 && s[g - 1].end == addr) ==> Overrun(s, s, addr, end, NoSpace)
  {
    WrappedJoin(s, g, addr, end);
  }

  /** Both, for the code that does not tell them apart. */
  lemma AnswerInGap(s: seq<Range>, g: nat, addr: u64, size: u64)
    requires Canonical(s) && size > 0 && !FrontInsert(s, addr, size) && (s == [] || g > 0 || addr + size == s[0].start)
    requires Gap(s, g, addr, Plus(addr, size)) && (g < |s| ==> addr < s[g].start)
    ensures var end := Plus(addr, size);
      var joins := (g > 0 && s[g - 1].end == addr) || (g < |s| && s[g].start == end);
      && (|s| < NUM_RECORDS || joins ==> FreeAnswer(s, With(s, g, addr, end), addr, size, Done))
      && (|s| == NUM_RECORDS && !joins ==> FreeAnswer(s, s, addr, size, NoSpace))
  {
    if addr + size < 0x1_0000_0000_0000_0000 {
      FreedInGap(s, g, addr, size);
    } else {
      OverrunInGap(s, g, addr, Plus(addr, size));
    }
  }

  /** A stretch that meets a range is refused. */
  lemma FreedMeeting(s: seq<Range>, addr: u64, size: u64, a: nat)
    requires Canonical(s) && addr <= a < addr + size && Free(s, a) && !FrontInsert(s, addr, size)
    requires addr + size < 0x1_0000_0000_0000_0000 || Refused(s, addr)
    ensures FreeAnswer(s, s, addr, size, Error)
  {
  }

  lemma FreedInFront(s: seq<Range>, addr: u64, size: nat)
    requires Canonical(s) && FrontInsert(s, addr, size) && size > 0
    ensures Freed(s, FrontInserted(s, addr, size), addr, size, Done)
  {
    GapMeetsNone(s, 0, addr, size);
    FrontInsertLoses(s, addr, size);
  }

  /** After cutting, the stretch is free of free addresses, and there is room to put it back. */
  lemma TakenIsGap(s: seq<Range>, t: seq<Range>, i: nat, addr: u64, size: nat)
    requires Canonical(s) && i < |s| && Reaches(s[i], addr, addr + size) && size > 0
    requires |s| <= NUM_RECORDS && t == Without(s, i, addr, addr + size) && Removes(s, t, addr, size)
    ensures !Meets(t, addr, size) && (|t| < NUM_RECORDS || Borders(t, addr, size))
    ensures FrontInsert(t, addr, size) <==> |s| > 1 && s[0] == Range(addr, addr + size)
    ensures forall a: nat :: Free(s, a) <==> Free(t, a) || addr <= a < addr + size
  {
    var put := Piece(s[i].start, addr) + Piece(addr + size, s[i].end);
    if put != [] {
      assert t[i] == put[0];
      assert t[i].end == addr || t[i].start == addr + size;
    }
  }

  /** Putting the stretch back gives the old list, unless it goes through the front-insert branch. */
  lemma PutBack(s: seq<Range>, t: seq<Range>, u: seq<Range>, i: nat, addr: u64, size: nat, r: Outcome)
    requires Canonical(s) && i < |s| && Reaches(s[i], addr, addr + size) && size > 0
    requires |s| <= NUM_RECORDS && t == Without(s, i, addr, addr + size) && Canonical(t) && Removes(s, t, addr, size)
    requires Freed(t, u, addr, size, r)
    ensures r == Done
    ensures u == s <==> !(|s| > 1 && s[0] == Range(addr, addr + size))
  {
    TakenIsGap(s, t, i, addr, size);
    if FrontInsert(t, addr, size) {
      FrontInsertLoses(t, addr, size);
    } else {
      CanonicalUnique(u, s);
    }
  }

  /** Giving back more than was taken never gives the old list. */
  lemma PutBackMore(s: seq<Range>, t: seq<Range>, u: seq<Range>, i: nat, addr: u64, size: u64, n: u64, r: Outcome)
    requires Canonical(s) && i < |s| && Reaches(s[i], addr, addr + size) && 0 < size < n
    requires t == Without(s, i, addr, addr + size) && Removes(s, t, addr, size) && FreeAnswer(t, u, addr, n, r)
    ensures u != s
  {
    assert Free(s, addr) && !Free(t, addr);
    assert Free(s, addr + size) ==> Free(t, addr + size);
    if r == Done && addr + n < 0x1_0000_0000_0000_0000 {
      if FrontInsert(t, addr, n) {
        WithoutIs(s, i, addr, addr + size);
        assert u[0] == Range(addr, addr + n);
      } else {
        assert Free(u, addr + size) && !Free(t, addr + size);
      }
    }
  }

  class AllocatorPage {
    const ranges: array<Range>
    var num: nat
    var next: AllocatorPage?

    constructor ()
      ensures Valid() && Contents() == [] && next == null && fresh(ranges)
    {
      ranges := new Range[NUM_RECORDS](_ => Range(0, 0));
      num := 0;
      next := null;
    }

    ghost predicate Valid()
      reads this, ranges
    {
      ranges.Length == NUM_RECORDS && num <= NUM_RECORDS
    }

    ghost function Contents(): seq<Range>
      requires Valid()
      reads this, ranges
    {
      ranges[..num]
    }

    method IsFree(addr: u64, size: u64) returns (r: bool)
      requires Valid() && Canonical(Contents())
      ensures r <==> Inside(Contents(), addr, Plus(addr, size))
    {
      if num <= 0 {
        return false;
      }
      ghost var s := Contents();
      for i := 0 to num
        invariant forall j :: 0 <= j < i ==> s[j].end <= addr
      {
        assert ranges[i] == s[i];
        if ranges[i].start == addr {
          return ranges[i].end >= Plus(addr, size);
        } else if ranges[i].start < addr && ranges[i].end > addr {
          return ranges[i].end >= Plus(addr, size);
        } else if ranges[i].start > addr {
          return false;
        }
      }
      return false;
    }

    /** The loop that closes the gap of a range that is gone. */
    method RemoveAt(i: nat)
      requires Valid() && i < num
      modifies this`num, ranges
      ensures Valid() && Contents() == old(Contents()[..i] + Contents()[i + 1..])
    {
      ghost var was := Contents();
      for j := i + 1 to num
        invariant num == old(num)
        invariant forall k :: 0 <= k < i ==> ranges[k] == was[k]
        invariant forall k :: i <= k < j - 1 ==> ranges[k] == was[k + 1]
        invariant forall k :: j - 1 <= k < num ==> ranges[k] == was[k]
      {
        ranges[j - 1] := ranges[j];
      }
      num := num - 1;
      ghost var now := was[..i] + was[i + 1..];
      forall k | 0 <= k < num
        ensures ranges[k] == now[k]
      {
        assert now[k] == if k < i then was[k] else was[k + 1];
      }
    }

    /** The loop that moves the ranges after range i up by one. */
    method OpenAfter(i: nat)
      requires Valid() && i < num < NUM_RECORDS
      modifies this`num, ranges
      ensures Valid() && num == old(num) + 1
      ensures ranges[..i + 1] == old(ranges[..i + 1])
      ensures ranges[i + 2..num] == old(ranges[i + 1..num])
    {
      ghost var was := Contents();
      for j := 0 to num - i - 1
        invariant num == old(num)
        invariant forall k :: 0 <= k < num - j ==> ranges[k] == was[k]
        invariant forall k :: num - j < k <= num ==> ranges[k] == was[k - 1]
      {
        ranges[num - j] := ranges[num - j - 1];
      }
      num := num + 1;
      assert was[..i + 1] == old(ranges[..i + 1]) && was[i + 1..] == old(ranges[i + 1..num]);
      ghost var now, tail := ranges[i + 2..num], was[i + 1..];
      assert |now| == |tail|;
      forall k | 0 <= k < |tail|
        ensures now[k] == tail[k]
      {
        assert ranges[i + 2 + k] == was[i + 1 + k];
      }
    }

    /** Puts a range in the place after range i. */
    method InsertAfter(i: nat, r: Range)
      requires Valid() && i < num < NUM_RECORDS
      modifies this`num, ranges
      ensures Valid() && Contents() == old(Contents()[..i + 1] + [r] + Contents()[i + 1..])
    {
      ghost var s := Contents();
      OpenAfter(i);
      assert ranges[..i + 1] == s[..i + 1] && ranges[i + 2..num] == s[i + 1..];
      ranges[i + 1] := r;
      assert ranges[..num] == ranges[..i + 1] + [ranges[i + 1]] + ranges[i + 2..num];
    }

    /** Cuts [addr, end) out of range i: the range goes, shrinks or is split in two. */
    method TakeFrom(i: nat, addr: u64, end: u64) returns (r: Outcome)
      requires Valid() && i < num && Reaches(ranges[i], addr, end) && ranges[i].start < ranges[i].end
      modifies this`num, ranges
      ensures Valid() && r != Error
      ensures r == NoSpace <==>
        old(num) == NUM_RECORDS && old(ranges[i]).start < addr && end < old(ranges[i]).end
      ensures Contents() == if r == Done then Without(old(Contents()), i, addr, end) else old(Contents())
    {
      ghost var s, r0 := Contents(), ranges[i];
      WithoutIs(s, i, addr, end);
      if ranges[i].start == addr {
        if ranges[i].end == end {
          RemoveAt(i);
        } else {
          ranges[i] := ranges[i].(start := end);
          assert Contents() == s[i := Range(end, r0.end)];
        }
      } else if ranges[i].end == end {
        ranges[i] := ranges[i].(end := addr);
        assert Contents() == s[i := Range(r0.start, addr)];
      } else {
        if num >= NUM_RECORDS {
          return NoSpace;
        }
        InsertAfter(i, Range(end, ranges[i].end));
        ghost var t := Contents();
        ranges[i] := ranges[i].(end := addr);
        assert Contents() == t[i := Range(r0.start, addr)];
      }
      return Done;
    }

    /** The loop of `TryAllocateFromAddress`: stops at the first range that decides. */
    method FindCovering(addr: u64, size: u64) returns (found: bool, i: nat)
      requires Valid() && Canonical(Contents())
      ensures found <==> Covers(Contents(), addr, Plus(addr, size))
      ensures found ==> i < num && First(Contents(), i, addr, Plus(addr, size))
    {
      ghost var s := Contents();
      i := 0;
      while i < num
        invariant i <= num
        invariant forall j :: 0 <= j < i ==> s[j].end <= addr && s[j].end < Plus(addr, size)
      {
        assert ranges[i] == s[i];
        if ranges[i].start <= addr && Plus(addr, size) <= ranges[i].end {
          assert Reaches(s[i], addr, Plus(addr, size));
          return true, i;
        } else if ranges[i].start < addr && ranges[i].end <= addr {
          i := i + 1;
        } else {
          return false, i;
        }
      }
      return false, i;
    }

    /**
     `TryAllocateFromAddress`, with the 64-bit sum of the source; `at` is the range the stretch is
     cut out of.
     */
    method TryAllocateFromAddress(addr: u64, size: u64) returns (r: Outcome, ghost at: nat)
      requires Valid() && Canonical(Contents())
      modifies this`num, ranges
      ensures Valid()
      ensures r != Error <==> Covers(old(Contents()), addr, Plus(addr, size))
      ensures r != Error ==> First(old(Contents()), at, addr, Plus(addr, size))
      ensures r != Error ==> var s := old(Contents());
        r == NoSpace <==> |s| == NUM_RECORDS && s[at].start < addr && Plus(addr, size) < s[at].end
      ensures r != Done ==> Contents() == old(Contents())
      ensures r == Done ==> var s := old(Contents());
        && Contents() == Without(s, at, addr, Plus(addr, size))
        && (Canonical(Contents()) && Removes(s, Contents(), addr, size) <==>
            addr + size < 0x1_0000_0000_0000_0000 && (size > 0 || addr == s[at].start || addr == s[at].end))
    {
      ghost var s := Contents();
      var found, i := FindCovering(addr, size);
      at := i;
      if !found {
        return Error, at;
      }
      WithoutWhen(s, i, addr, size);
      r := TakeFrom(i, addr, Plus(addr, size));
    }

    /** The loop of `TryAllocate`. */
    method FindFit(n: nat) returns (found: bool, i: nat)
      requires Valid() && Canonical(Contents())
      ensures found <==> exists j :: 0 <= j < num && n <= Contents()[j].end - Contents()[j].start
      ensures found ==> i < num && n <= ranges[i].end - ranges[i].start
      ensures found ==> forall j :: 0 <= j < i ==> Contents()[j].end - Contents()[j].start < n
    {
      ghost var s := Contents();
      i := 0;
      while i < num
        invariant i <= num && forall j :: 0 <= j < i ==> s[j].end - s[j].start < n
      {
        assert ranges[i] == s[i];
        var avail := ranges[i].end - ranges[i].start;
        if avail >= n {
          return true, i;
        }
        i := i + 1;
      }
      return false, i;
    }

    /** The first range of at least n bytes, cut from its start. */
    method TakeFit(n: u64) returns (r: Option<u64>, ghost at: nat)
      requires Valid() && Canonical(Contents())
      modifies this`num, ranges
      ensures Valid() && Canonical(Contents())
      ensures r.None? ==> Contents() == old(Contents())
      ensures r.None? <==> forall j :: 0 <= j < |old(Contents())| ==>
        old(Contents())[j].end - old(Contents())[j].start < n
      ensures r.Some? ==> var s := old(Contents());
        && at < |s| && r.value == s[at].start && n <= s[at].end - s[at].start
        && (forall j :: 0 <= j < at ==> s[j].end - s[j].start < n)
        && Removes(s, Contents(), r.value, n)
    {
      ghost var s := Contents();
      var found, i := FindFit(n);
      at := i;
      if !found {
        return None, at;
      }
      var addr := ranges[i].start;
      WithoutExact(s, i, addr, n);
      var done := TakeFrom(i, addr, addr + n);
      return Some(addr), at;
    }

    /** `TryAllocate`: the first range that is long enough for the rounded size. */
    method TryAllocate(size: u64) returns (r: Option<u64>, ghost at: nat)
      requires Valid() && Canonical(Contents())
      modifies this`num, ranges
      ensures Valid() && Canonical(Contents())
      ensures r.None? ==> Contents() == old(Contents())
      ensures r.None? <==> forall j :: 0 <= j < |old(Contents())| ==>
        old(Contents())[j].end - old(Contents())[j].start < RoundUp(size)
      ensures r.Some? ==> var s := old(Contents());
        && at < |s| && r.value == s[at].start && RoundUp(size) <= s[at].end - s[at].start
        && (forall j :: 0 <= j < at ==> s[j].end - s[j].start < RoundUp(size))
        && Removes(s, Contents(), r.value, RoundUp(size))
    {
      if num <= 0 {
        return None, 0;
      }
      r, at := TakeFit(RoundUp(size));
    }

    /** The branch of `TryFree` for a stretch that lies wholly below the first range. */
    method InsertInFront(addr: u64, size: nat)
      requires Valid() && 0 < num < NUM_RECORDS && addr + size < 0x1_0000_0000_0000_0000
      modifies ranges
      ensures Contents() == FrontInserted(old(Contents()), addr, size)
    {
      for i := 1 to num
        invariant forall k :: 0 <= k < NUM_RECORDS - i + 1 ==> ranges[k] == old(ranges[k])
        invariant forall k :: NUM_RECORDS - i + 1 <= k < NUM_RECORDS ==> ranges[k] == old(ranges[k - 1])
      {
        ranges[NUM_RECORDS - i] := ranges[NUM_RECORDS - i - 1];
      }
      ranges[0] := Range(addr, addr + size);
      assert forall k :: 0 <= k < num ==> ranges[k] == FrontInserted(old(Contents()), addr, size)[k];
    }

    /** The stretch [addr, end), known to lie in the gap below range g, is added there. */
    method AddInGap(g: nat, addr: u64, end: u64) returns (r: Outcome)
      requires Valid() && 0 < g < num && ranges[g - 1].end <= addr && end <= ranges[g].start
      modifies this`num, ranges
      ensures Valid() && r != Error
      ensures r == NoSpace <==>
        old(num) == NUM_RECORDS && old(ranges[g - 1]).end != addr && old(ranges[g]).start != end
      ensures Contents() == if r == Done then With(old(Contents()), g, addr, end) else old(Contents())
    {
      ghost var s := Contents();
      WithIs(s, g, addr, end);
      var i := g - 1;
      if addr == ranges[i].end {
        if ranges[i + 1].start == end {
          ranges[i] := ranges[i].(end := ranges[i + 1].end);
          assert Contents() == s[i := Range(s[i].start, s[g].end)];
          RemoveAt(i + 1);
        } else {
          ranges[i] := ranges[i].(end := end);
          assert Contents() == s[i := Range(s[i].start, end)];
        }
      } else if end == ranges[i + 1].start {
        ranges[i + 1] := ranges[i + 1].(start := addr);
        assert Contents() == s[g := Range(addr, s[g].end)];
      } else {
        if num >= NUM_RECORDS {
          return NoSpace;
        }
        InsertAfter(i, Range(addr, end));
      }
      return Done;
    }

    /** The last part of `TryFree`: a stretch from the first range on and below the end of the last. */
    method FreeBetween(addr: u64, size: u64) returns (r: Outcome)
      requires Valid() && Canonical(Contents()) && num > 0 && size > 0
      requires ranges[0].start <= addr < ranges[num - 1].end
      modifies this`num, ranges
      ensures Valid() && FreeAnswer(old(Contents()), Contents(), addr, size, r)
    {
      ghost var s := Contents();
      for i := 0 to num - 1
        invariant num == old(num) && Contents() == s
        invariant Free(s, addr) || s[i].start <= addr
      {
        assert ranges[i] == s[i] && ranges[i + 1] == s[i + 1];
        if addr == ranges[i].end || (ranges[i].end < addr && ranges[i + 1].start > addr) {
          if Plus(addr, size) <= ranges[i + 1].start {
            AnswerInGap(s, i + 1, addr, size);
            r := AddInGap(i + 1, addr, Plus(addr, size));
          } else {
            assert Free(s, s[i + 1].start);
            FreedMeeting(s, addr, size, s[i + 1].start);
            r := Error;
          }
          return;
        }
        assert s[i].start <= addr < s[i].end ==> Free(s, addr);
      }
      assert Free(s, addr);
      FreedMeeting(s, addr, size, addr);
      return Error;
    }

    /** `TryFree`, with the 64-bit sums of the source. */
    method TryFree(addr: u64, size: u64) returns (r: Outcome)
      requires Valid() && Canonical(Contents())
      modifies this`num, ranges
      ensures Valid()
      ensures RoundUp(size) > 0 ==> FreeAnswer(old(Contents()), Contents(), addr, RoundUp(size), r)
      ensures RoundUp(size) == 0 ==>
        && r == Done
        && Contents() == if old(num) == 0 then [Range(addr, addr)] else old(Contents())
    {
      ghost var s := Contents();
      var n := RoundUp(size);
      if num == 0 {
        if n > 0 { AnswerInGap(s, 0, addr, n); }
        ranges[0] := Range(addr, Plus(addr, n));
        num := num + 1;
        return Done;
      }
      if n <= 0 {
        return Done;
      }
      if ranges[0].start > addr {
        r := FreeBelow(addr, n);
        return;
      }
      if ranges[num - 1].end <= addr {
        r := FreeAbove(addr, n);
        return;
      }
      r := FreeBetween(addr, n);
    }

    method FreeBelow(addr: u64, size: u64) returns (r: Outcome)
      requires Valid() && Canonical(Contents()) && num > 0 && size > 0 && addr < ranges[0].start
      modifies this`num, ranges
      ensures Valid() && FreeAnswer(old(Contents()), Contents(), addr, size, r)
    {
      ghost var s := Contents();
      assert s[0] == ranges[0];
      var availToFree := ranges[0].start - addr;
      if availToFree > size {
        if num >= NUM_RECORDS {
          FreedInGap(s, 0, addr, size);
          return NoSpace;
        }
        FreedInFront(s, addr, size);
        InsertInFront(addr, size);
        return Done;
      } else if availToFree == size {
        FreedInGap(s, 0, addr, size);
        ranges[0] := ranges[0].(start := addr);
        assert Contents() == With(s, 0, addr, addr + size);
        return Done;
      } else {
        assert Free(s, s[0].start);
        FreedMeeting(s, addr, size, s[0].start);
        return Error;
      }
    }

    method FreeAbove(addr: u64, size: u64) returns (r: Outcome)
      requires Valid() && Canonical(Contents()) && num > 0 && size > 0
      requires ranges[num - 1].end <= addr && ranges[0].start <= addr
      modifies this`num, ranges
      ensures Valid() && FreeAnswer(old(Contents()), Contents(), addr, size, r)
    {
      ghost var s := Contents();
      assert s[num - 1] == ranges[num - 1];
      AnswerInGap(s, num, addr, size);
      if ranges[num - 1].end < addr {
        if num >= NUM_RECORDS {
          return NoSpace;
        }
        ranges[num] := Range(addr, Plus(addr, size));
        num := num + 1;
      } else {
        ranges[num - 1] := ranges[num - 1].(end := Plus(addr, size));
      }
      assert Contents() == With(s, |s|, addr, Plus(addr, size));
      return Done;
    }

    /**
     Taking a stretch from an address and freeing it again restores the page exactly when the
     size is whole pages and the stretch was not all of the first of several ranges.
     */
    method FreeUndoesAllocate(addr: u64, size: u64) returns (r: Outcome, back: Outcome)
      requires Valid() && Canonical(Contents()) && size > 0 && addr + size < 0x1_0000_0000_0000_0000
      modifies this`num, ranges
      ensures Valid()
      ensures r == Done ==> var s := old(Contents());
        && (Contents() == s <==> size % 4096 == 0 && !(|s| > 1 && s[0] == Range(addr, addr + size)))
        && (size % 4096 == 0 ==> back == Done)
    {
      ghost var s, at := Contents(), 0;
      back := Done;
      r, at := TryAllocateFromAddress(addr, size);
      if r == Done {
        ghost var t := Contents();
        RoundUpIs(size);
        back := TryFree(addr, size);
        Restored(s, t, Contents(), at, addr, size, back);
      }
    }
  }

  lemma Restored(s: seq<Range>, t: seq<Range>, u: seq<Range>, i: nat, addr: u64, size: u64, r: Outcome)
    requires Canonical(s) && i < |s| && Reaches(s[i], addr, addr + size) && size > 0
    requires |s| <= NUM_RECORDS && t == Without(s, i, addr, addr + size) && Canonical(t) && Removes(s, t, addr, size)
    requires RoundUp(size) > 0 ==> FreeAnswer(t, u, addr, RoundUp(size), r)
    requires RoundUp(size) == 0 ==> u == if t == [] then [Range(addr, addr)] else t
    ensures u == s <==> size % 4096 == 0 && !(|s| > 1 && s[0] == Range(addr, addr + size))
    ensures size % 4096 == 0 ==> r == Done
  {
    RoundUpIs(size);
    if size % 4096 == 0 {
      PutBack(s, t, u, i, addr, size, r);
    } else if RoundUp(size) > 0 {
      PutBackMore(s, t, u, i, addr, size, RoundUp(size), r);
    } else {
      assert Free(s, addr) && !Free(t, addr);
    }
  }
}
