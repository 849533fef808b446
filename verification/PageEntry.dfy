/**
 The 64-bit page-table entry and its bit-field views (include/pagetable.h), and the two places
 that assign fields one by one: `update_pageentr` (kernel/pagetable.cpp) and the leaf set-up of
 `map_page` (arm64shim/shim.cpp). A word is its 64 bits, lowest first.
 */
module PageEntry {
  import opened MachineWord
  import opened PageTree
  import opened ArmMap
  import VirtAlloc
  import opened PhysAlloc

  type Word = b: seq<bool> | |b| == 64 witness seq(64, _ => false)

  /** `uint64_mask_for_bits`: the lowest `size` bits. */
  function MaskFor(size: nat): Word {
    LowBits(64, size)
  }

  // ---- Fields ------------------------------------------------------------------------------

  /** The read view of the field of `size` bits from bit n on. */
  function Read(v: Word, n: nat, size: nat): Word {
    And(ShiftRight(v, n), MaskFor(size))
  }

  /** The assigning view of the field. */
  function Write(v: Word, n: nat, size: nat, x: Word): Word {
    Or(And(v, Not(ShiftLeft(MaskFor(size), n))), ShiftLeft(And(x, MaskFor(size)), n))
  }

  /** Assigning a field replaces exactly its own bits. */
  lemma WriteBits(v: Word, n: nat, size: nat, x: Word, i: nat)
    requires n + size <= 64 && i < 64
    ensures Write(v, n, size, x)[i] == if n <= i < n + size then x[i - n] else v[i]
  {
  }

  lemma ReadBits(v: Word, n: nat, size: nat, i: nat)
    requires n + size <= 64 && i < 64
    ensures Read(v, n, size)[i] == (i < size && v[n + i])
  {
  }

  /** A field reads back what was assigned to it, cut to its size; every field beside it is unchanged. */
  lemma FieldsIndependent(v: Word, n: nat, size: nat, x: Word, m: nat, size': nat)
    requires n + size <= 64 && m + size' <= 64
    ensures Read(Write(v, n, size, x), n, size) == And(x, MaskFor(size))
    ensures m + size' <= n || n + size <= m ==> Read(Write(v, n, size, x), m, size') == Read(v, m, size')
  {
  }

  // ---- Numbers -----------------------------------------------------------------------------

  function Pow2(n: nat): (p: nat)
    ensures p > 0
  {
    if n == 0 then 1 else 2 * Pow2(n - 1)
  }

  function Number(bits: seq<bool>): nat {
    if bits == [] then 0 else (if bits[0] then 1 else 0) + 2 * Number(bits[1..])
  }

  function ToBits(x: nat, count: nat): (b: seq<bool>)
    ensures |b| == count
  {
    if count == 0 then [] else [x % 2 == 1] + ToBits(x / 2, count - 1)
  }

  lemma SmallField(x: nat, size: nat)
    requires x < 4 && 2 <= size <= 3
    ensures x % Pow2(size) == x
  {
  }

  lemma NextPower(n: nat)
    ensures Pow2(n + 4) == 16 * Pow2(n)
  {
    assert Pow2(n + 2) == 4 * Pow2(n);
  }

  lemma FramePowers()
    ensures Pow2(28) == 0x1000_0000 && Pow2(36) == 0x10_0000_0000
  {
    NextPower(0); NextPower(4); NextPower(8); NextPower(12); NextPower(16);
    NextPower(20); NextPower(24); NextPower(28); NextPower(32);
  }

  lemma SameMod(x: nat, p: nat, q: nat)
    requires p == q > 0
    ensures x % p == x % q
  {
  }

  lemma FrameFields(x: nat)
    ensures x % Pow2(28) == x % 0x1000_0000 && x % Pow2(36) == x % 0x10_0000_0000
  {
    FramePowers();
    SameMod(x, Pow2(28), 0x1000_0000);
    SameMod(x, Pow2(36), 0x10_0000_0000);
  }

  lemma HalfMod(x: nat, m: nat)
    requires m > 0
    ensures x % (2 * m) == x % 2 + 2 * (x / 2 % m)
  {
    var q, r := x / 2 / m, x / 2 % m;
    assert x == (2 * m) * q + (2 * r + x % 2);
    DivUnique(x, 2 * m, q, 2 * r + x % 2);
  }

  lemma MulOrder(m: nat, a: nat, b: nat)
    requires a < b
    ensures m * a + m <= m * b
  {
    assert m * b == m * (a + 1) + m * (b - a - 1);
  }

  lemma DivUnique(x: nat, m: nat, q: nat, r: nat)
    requires m > 0 && x == m * q + r && r < m
    ensures x / m == q && x % m == r
  {
    var q' := x / m;
    if q < q' {
      MulOrder(m, q, q');
    } else if q' < q {
      MulOrder(m, q', q);
    }
  }

  lemma {:induction false} NumberOfBits(x: nat, count: nat)
    ensures Number(ToBits(x, count)) == x % Pow2(count)
  {
    if count > 0 {
      NumberOfBits(x / 2, count - 1);
      HalfMod(x, Pow2(count - 1));
    }
  }

  /** A field assigned the number x reads as x modulo two to the size of the field. */
  lemma FieldNumber(v: Word, n: nat, size: nat, x: nat)
    requires n + size <= 64
    ensures Number(Write(v, n, size, ToBits(x, 64))[n..n + size]) == x % Pow2(size)
  {
    var w, b := Write(v, n, size, ToBits(x, 64)), ToBits(x, 64);
    forall i: nat | i < size
      ensures w[n + i] == b[i]
    {
      WriteBits(v, n, size, b, n + i);
    }
    BitsPrefix(x, size, 64);
    assert w[n..n + size] == b[..size];
    NumberOfBits(x, size);
  }

  lemma {:induction false} BitsPrefix(x: nat, short: nat, long: nat)
    requires short <= long
    ensures ToBits(x, long)[..short] == ToBits(x, short)
  {
    if short > 0 {
      BitsPrefix(x / 2, short - 1, long - 1);
    }
  }

  // ---- Updating an entry -------------------------------------------------------------------

  /** The x86 fields that describe the mapping: bits 0-6, the frame number, and execute-disable. */
  predicate MappingBit(i: nat) {
    i < 7 || 12 <= i < 40 || i == 63
  }

  /** The arm64 fields that `update_pageentr` copies. */
  predicate ArmMappingBit(i: nat) {
    i < 11 || 12 <= i < 48 || 51 <= i < 55
  }

  /** What the allocators and the walk read of an x86 entry. */
  function Decode(v: Word): Entry {
    Entry(v[0], Number(v[12..40]), v[11], v[52], X86(v[1], v[2], v[3], v[4], v[5], v[6], v[63]))
  }

  /** What the mapper and the walk read of an arm64 entry. */
  function DecodeArm(v: Word): Entry {
    Entry(v[0], Number(v[12..48]), v[55], v[56],
          Arm(v[1], Number(v[2..5]), Number(v[6..8]), Number(v[8..10]), v[10], v[53], v[54]))
  }

  /** The one-bit fields of an x86 entry by their place. */
  function WithX86Bit(e: Entry, i: nat, b: bool): Entry
    requires e.attrs.X86?
  {
    match i
    case 0 => e.(present := b)
    case 1 => e.(attrs := e.attrs.(writeable := b))
    case 2 => e.(attrs := e.attrs.(user := b))
    case 3 => e.(attrs := e.attrs.(writeThrough := b))
    case 4 => e.(attrs := e.attrs.(cacheDisabled := b))
    case 5 => e.(attrs := e.attrs.(accessed := b))
    case 6 => e.(attrs := e.attrs.(dirty := b))
    case 11 => e.(avail := b)
    case 52 => e.(start := b)
    case 63 => e.(attrs := e.attrs.(executionDisabled := b))
    case _ => e
  }

  /** Changing one bit outside the frame number changes just the field at that place, if there is one. */
  lemma DecodePlaces(v: Word, i: nat, b: bool)
    requires i < 12 || 40 <= i < 64
    ensures Decode(v[i := b]) == WithX86Bit(Decode(v), i, b)
  {
    SameField(v[i := b], v, 12, 40);
  }

  /** The one-bit fields of an arm64 entry by their place. */
  function WithArmBit(e: Entry, i: nat, b: bool): Entry
    requires e.attrs.Arm?
  {
    match i
    case 0 => e.(present := b)
    case 1 => e.(attrs := e.attrs.(table := b))
    case 10 => e.(attrs := e.attrs.(af := b))
    case 53 => e.(attrs := e.attrs.(pxn := b))
    case 54 => e.(attrs := e.attrs.(uxn := b))
    case 55 => e.(avail := b)
    case 56 => e.(start := b)
    case _ => e
  }

  lemma DecodeArmPlaces(v: Word, i: nat, b: bool)
    requires i < 2 || i == 5 || 10 <= i < 12 || 48 <= i < 64
    ensures DecodeArm(v[i := b]) == WithArmBit(DecodeArm(v), i, b)
  {
    SameField(v[i := b], v, 12, 48);
    SameField(v[i := b], v, 2, 5);
    SameField(v[i := b], v, 6, 8);
    SameField(v[i := b], v, 8, 10);
  }

  lemma SameField(v: Word, w: Word, lo: nat, hi: nat)
    requires lo <= hi <= 64 && forall i: nat :: lo <= i < hi ==> v[i] == w[i]
    ensures v[lo..hi] == w[lo..hi]
  {
  }

  class PageEntr {
    var value: Word

    constructor (value: Word)
      ensures this.value == value
    {
      this.value := value;
    }

    /** `pe->field() = x` for a number x. */
    method Set(n: nat, size: nat, x: nat)
      requires n + size <= 64
      modifies this
      ensures forall i: nat :: i < 64 && !(n <= i < n + size) ==> value[i] == old(value)[i]
      ensures Number(value[n..n + size]) == x % Pow2(size)
    {
      FieldNumber(value, n, size, x);
      ghost var before := value;
      value := Write(value, n, size, ToBits(x, 64));
      forall i: nat | i < 64 && !(n <= i < n + size)
        ensures value[i] == before[i]
      {
        WriteBits(before, n, size, ToBits(x, 64), i);
      }
    }

    /** `pe->field() = u.field()`. */
    method Copy(n: nat, size: nat, u: Word)
      requires n + size <= 64
      modifies this
      ensures forall i: nat :: i < 64 ==> value[i] == if n <= i < n + size then u[i] else old(value)[i]
    {
      ghost var before, x := value, Read(u, n, size);
      value := Write(value, n, size, Read(u, n, size));
      forall i: nat | i < 64
        ensures value[i] == if n <= i < n + size then u[i] else before[i]
      {
        WriteBits(before, n, size, x, i);
        if n <= i < n + size {
          ReadBits(u, n, size, i - n);
        }
      }
    }

    method CopyX86Flags(u: Word)
      modifies this
      ensures forall i: nat :: i < 64 ==> value[i] == if i < 5 || i == 63 then u[i] else old(value)[i]
    {
      Copy(0, 1, u);
      Copy(1, 1, u);
      Copy(63, 1, u);
      Copy(4, 1, u);
      Copy(3, 1, u);
      Copy(2, 1, u);
    }

    /**
     `update_pageentr` on x86: exactly the mapping bits come from u. The allocation bits and
     all others stay, so what is decoded changes in the mapping fields only.
     */
    method Update(u: Word)
      modifies this
      ensures forall i: nat :: i < 64 ==> value[i] == if MappingBit(i) then u[i] else old(value)[i]
      ensures Decode(value) == Decode(old(value)).(
        present := Decode(u).present, ppn := Decode(u).ppn, attrs := Decode(u).attrs)
    {
      CopyX86Flags(u);
      Copy(5, 1, u);
      Copy(6, 1, u);
      Copy(12, 28, u);
      SameField(value, u, 12, 40);
    }

    method CopyArmFlags(u: Word)
      modifies this
      ensures forall i: nat :: i < 64 ==> value[i] == if i < 8 || 53 <= i < 55 then u[i] else old(value)[i]
    {
      Copy(0, 1, u);
      Copy(1, 1, u);
      Copy(2, 3, u);
      Copy(5, 1, u);
      Copy(6, 2, u);
      Copy(53, 1, u);
      Copy(54, 1, u);
    }

    /** `update_pageentr` on arm64; here the allocation bits are 55 and 56. */
    method UpdateArm(u: Word)
      modifies this
      ensures forall i: nat :: i < 64 ==> value[i] == if ArmMappingBit(i) then u[i] else old(value)[i]
      ensures DecodeArm(value) == DecodeArm(old(value)).(
        present := DecodeArm(u).present, ppn := DecodeArm(u).ppn, attrs := DecodeArm(u).attrs)
    {
      CopyArmFlags(u);
      Copy(8, 2, u);
      Copy(10, 1, u);
      Copy(51, 1, u);
      Copy(12, 36, u);
      Copy(52, 1, u);
      SameField(value, u, 12, 48);
      SameField(value, u, 2, 5);
      SameField(value, u, 6, 8);
      SameField(value, u, 8, 10);
    }

    method SetBit(n: nat, b: bool)
      requires n < 64
      modifies this
      ensures value == old(value)[n := b]
    {
      ghost var before := value;
      Set(n, 1, if b then 1 else 0);
      assert value[n..n + 1] == [value[n]];
      assert Number([value[n]]) == if value[n] then 1 else 0;
      assert value == before[n := b];
    }

    /** A field of two or three bits. */
    method SetSmall(n: nat, size: nat, x: nat)
      requires n + size <= 64 && 2 <= size <= 3 && x < 4
      modifies this
      ensures forall i: nat :: i < 64 && !(n <= i < n + size) ==> value[i] == old(value)[i]
      ensures Number(value[n..n + size]) == x
    {
      SmallField(x, size);
      Set(n, size, x);
    }

    /** The arm64 frame field. */
    method SetFrame36(page: nat)
      modifies this
      ensures forall i: nat :: i < 64 && !(12 <= i < 48) ==> value[i] == old(value)[i]
      ensures Number(value[12..48]) == page % 0x10_0000_0000
    {
      FrameFields(page);
      Set(12, 36, page);
    }

    /** The x86 frame field: a page number is kept modulo 2^28. */
    method SetFrame(page: nat)
      modifies this
      ensures Decode(value) == Decode(old(value)).(ppn := page % 0x1000_0000)
    {
      FrameFields(page);
      Set(12, 28, page);
    }

    /** The field assignments of `alloc_stack` make the entry the abstract one of a stack page. */
    method MapStackPage(page: nat)
      modifies this
      ensures Decode(value) == VirtAlloc.StackEntry(Decode(old(value)), page)
    {
      SetFrame(page);
      ghost var framed := value;
      SetBit(0, true);
      SetBit(1, true);
      SetBit(3, false);
      SetBit(4, false);
      SetBit(63, true);
      SameField(framed, value, 12, 40);
    }

    /** The first assignments of `map_page`: everything but the frame and the memory type. */
    method MapLeafRights(flags: MapFlags)
      modifies this
      ensures value[0] && value[1] && value[10]
      ensures Number(value[6..8]) == (if flags.write then 0 else 2) + (if flags.user then 1 else 0)
      ensures value[53] == !flags.executable && value[54] == !(flags.executable && flags.user)
      ensures value[55] == old(value)[55] && value[56] == old(value)[56]
    {
      SetBit(0, true);
      SetBit(1, true);
      SetBit(10, true);
      SetSmall(6, 2, (if flags.write then 0 else 2) + (if flags.user then 1 else 0));
      ghost var before := value;
      SetBit(53, !flags.executable);
      SetBit(54, !(flags.executable && flags.user));
      SameField(before, value, 6, 8);
    }

    /** The field assignments of `map_page` make the leaf the mapper's abstract leaf entry. */
    method MapLeaf(paddr: u64, flags: MapFlags)
      modifies this
      ensures DecodeArm(value) == LeafEntry(DecodeArm(old(value)), paddr, flags)
    {
      MapLeafRights(flags);
      ghost var rights := value;
      SetFrame36(paddr / 4096);
      ghost var framed := value;
      SetSmall(2, 3, if flags.device then 0 else 1);
      ghost var typed := value;
      SetSmall(8, 2, if flags.device then 2 else 3);
      SameField(rights, value, 6, 8);
      SameField(framed, value, 12, 48);
      SameField(typed, value, 2, 5);
    }
  }
}
