/**
 The physical page bitmap (include/physpagemap.h), proved against a plain set of page numbers.
 */
module PhysPageMap {
  import opened MachineWord

  const U32: nat := 0x1_0000_0000
  type u32 = x: nat | x < 0x1_0000_0000

  const MAP_SIZE: nat := 1024
  const MAP_PAGES: nat := 32768

  /** The page numbers lo, lo + 1, ..., hi - 1. */
  function Range(lo: nat, hi: nat): (r: set<nat>)
    ensures forall p: nat :: p in r <==> lo <= p < hi
  {
    set p: nat | lo <= p < hi && Between(lo, p, hi)
  }

  predicate Between(lo: nat, p: nat, hi: nat) {
    lo <= p < hi
  }

  // ---- Bits of one 32-bit word ---------------------------------------------

  type Word = b: seq<bool> | |b| == 32 witness seq(32, _ => false)

  const ZERO: Word := LowBits(32, 0)
  const ONE: Word := LowBits(32, 1)
  const ONES: Word := LowBits(32, 32)

  /** `w & (1 << bit) != 0` */
  predicate BitSet(w: Word, bit: nat) {
    And(w, ShiftLeft(ONE, bit)) != ZERO
  }

  lemma BitSetIs(w: Word, bit: nat)
    requires bit < 32
    ensures BitSet(w, bit) == w[bit]
  {
    var masked := And(w, ShiftLeft(ONE, bit));
    assert masked[bit] == w[bit] && ZERO[bit] == false;
    forall i | 0 <= i < 32 && i != bit
      ensures masked[i] == ZERO[i]
    {
    }
  }

  /** w' is w with bit b turned on or off. */
  ghost predicate OneBit(w: Word, w': Word, b: nat, on: bool) {
    forall i: nat | i < 32 :: BitSet(w', i) == if i == b then on else BitSet(w, i)
  }

  /** `w | (1 << b)` turns on bit b, `w & ~(1 << b)` turns it off, and no other bit changes. */
  lemma OneBitUpdate(w: Word, b: nat)
    requires b < 32
    ensures OneBit(w, Or(w, ShiftLeft(ONE, b)), b, true)
    ensures OneBit(w, And(w, Not(ShiftLeft(ONE, b))), b, false)
  {
    var set', cleared := Or(w, ShiftLeft(ONE, b)), And(w, Not(ShiftLeft(ONE, b)));
    forall i: nat | i < 32
      ensures BitSet(set', i) == (i == b || BitSet(w, i))
      ensures BitSet(cleared, i) == (i != b && BitSet(w, i))
    {
      BitSetIs(w, i);
      BitSetIs(set', i);
      BitSetIs(cleared, i);
    }
  }

  // ---- Bits of the whole map -----------------------------------------------

  /** The pages marked by a sequence of 32-page words, for any word type and bit test. */
  ghost function Marked<W>(words: seq<W>, test: (W, nat) -> bool): set<nat> {
    set p | 0 <= p < 32 * |words| && test(words[p / 32], p % 32)
  }

  lemma MarkedBit(words: seq<Word>, p: nat, w: Word, on: bool)
    requires p < 32 * |words|
    requires OneBit(words[p / 32], w, p % 32, on)
    ensures Marked(words[p / 32 := w], BitSet)
         == if on then Marked(words, BitSet) + {p} else Marked(words, BitSet) - {p}
  {
  }

  lemma FillAt(words: seq<Word>, index: nat)
    requires index < |words|
    ensures Marked(words[index := ONES], BitSet)
         == Marked(words, BitSet) + Range(32 * index, 32 * index + 32)
  {
    forall i: nat | i < 32
      ensures BitSet(ONES, i)
    {
      BitSetIs(ONES, i);
    }
  }

  // Set equality that clients carry around without unfolding it: it is used only where
  // `Probe` is mentioned, in the two lemmas below.
  predicate Probe(p: nat) {
    true
  }

  ghost predicate Same(a: set<nat>, b: set<nat>) {
    forall p: nat {:trigger Probe(p)} :: p in a <==> p in b
  }

  lemma SameIsEqual(a: set<nat>, b: set<nat>)
    requires Same(a, b)
    ensures a == b
  {
    forall p: nat
      ensures p in a <==> p in b
    {
      assert Probe(p);
    }
  }

  // ---- struct PhyspageMap ----------------------------------------------------

  method SetBit(w: Word, bit: nat) returns (r: Word)
    requires bit < 32
    ensures OneBit(w, r, bit, true)
  {
    r := Or(w, ShiftLeft(ONE, bit));
    OneBitUpdate(w, bit);
  }

  method ClearBit(w: Word, bit: nat) returns (r: Word)
    requires bit < 32
    ensures OneBit(w, r, bit, false)
  {
    var mask := ShiftLeft(ONE, bit);
    r := And(w, Not(mask));
    OneBitUpdate(w, bit);
  }

  class Bitmap {
    const words: array<Word>
    ghost var claimed: set<nat>  // claimed pages, counted from the start of the window

    ghost predicate Valid()
      reads this, words
    {
      words.Length == MAP_SIZE && Same(claimed, Marked(words[..], BitSet))
    }

    constructor ()
      ensures Valid() && fresh(words) && claimed == {}
    {
      words := new Word[MAP_SIZE](_ => ZERO);
      claimed := {};
      new;
      forall i: nat | i < 32
        ensures !BitSet(ZERO, i)
      {
        BitSetIs(ZERO, i);
      }
    }

    method Claim(page: u32)
      requires Valid() && page < MAP_PAGES
      modifies this`claimed, words
      ensures Valid() && claimed == old(claimed) + {page}
    {
      SameIsEqual(claimed, Marked(words[..], BitSet));
      var index, bit := page / 32, page % 32;
      var w := SetBit(words[index], bit);
      MarkedBit(words[..], page, w, true);
      words[index] := w;
      claimed := claimed + {page};
      assert words[..] == old(words[..])[index := w];
    }

    method FillWord(index: nat)
      requires Valid() && index < MAP_SIZE
      modifies this`claimed, words
      ensures Valid() && claimed == old(claimed) + Range(32 * index, 32 * index + 32)
    {
      SameIsEqual(claimed, Marked(words[..], BitSet));
      FillAt(words[..], index);
      words[index] := ONES;
      claimed := claimed + Range(32 * index, 32 * index + 32);
      assert words[..] == old(words[..])[index := ONES];
    }

    /** The bulk claim: whole words where it can, single bits where it must. */
    method ClaimMany(start: u32, count: u32)
      requires Valid() && start + count <= MAP_PAGES
      modifies this`claimed, words
      ensures Valid() && claimed == old(claimed) + Range(start, start + count)
    {
      var page: nat, num: nat := start, count;
      while num > 0
        invariant Valid() && page + num == start + count
        invariant claimed == old(claimed) + Range(start, page)
        decreases num
      {
        var index: nat, bit: nat := page / 32, page % 32;
        if bit == 0 && num > 0x1F {
          ghost var outer := num;
          while num > 0x1F
            invariant num == outer || num < outer
            invariant Valid() && page + num == start + count && page == 32 * index
            invariant claimed == old(claimed) + Range(start, page)
            decreases num
          {
            FillWord(index);
            page := page + 0x20;
            num := num - 0x20;
            index := index + 1;
          }
          continue;
        }
        Claim(page);
        page := page + 1;
        num := num - 1;
      }
    }

    method Release(page: u32)
      requires Valid() && page < MAP_PAGES
      modifies this`claimed, words
      ensures Valid() && claimed == old(claimed) - {page}
    {
      SameIsEqual(claimed, Marked(words[..], BitSet));
      var index, bit := page / 32, page % 32;
      var w := ClearBit(words[index], bit);
      MarkedBit(words[..], page, w, false);
      words[index] := w;
      claimed := claimed - {page};
      assert words[..] == old(words[..])[index := w];
    }

    method IsClaimed(page: u32) returns (r: bool)
      requires Valid() && page < MAP_PAGES
      ensures r <==> page in claimed
    {
      SameIsEqual(claimed, Marked(words[..], BitSet));
      var index, bit := page / 32, page % 32;
      r := And(words[index], ShiftLeft(ONE, bit)) != ZERO;
      assert r == BitSet(words[..][index], bit);
    }
  }
}
