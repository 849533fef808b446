/**
 `memmove` (kernel/strings.cpp): bytes one by one for short or backward copies, and for
 longer forward copies whole 64-bit words that are shifted and merged.
 Memory is an array of bytes; an index is an address. A shift by the whole width of a word,
 which the source writes out as 0, is 0 here too.
 */
module Memmove {
  import opened MachineWord

  // ---- Words ----------------------------------------------------------------------------

  type Byte = b: seq<bool> | |b| == 8 witness seq(8, _ => false)

  /** A 64-bit word in memory: its bytes, least significant first. */
  type Word = w: seq<Byte> | |w| == 8 witness seq(8, _ => seq(8, _ => false))

  /** The number a word stands for, as its 64 bits. */
  function Number(w: Word): (x: seq<bool>)
    ensures |x| == 64
  {
    seq(64, i requires 0 <= i < 64 => w[i / 8][i % 8])
  }

  /** The bytes of a 64-bit number. */
  function Bytes(x: seq<bool>): Word
    requires |x| == 64
  {
    seq(8, k requires 0 <= k < 8 => x[8 * k..8 * k + 8])
  }

  lemma NumberBit(w: Word, k: nat, b: nat)
    requires k < 8 && b < 8
    ensures Number(w)[8 * k + b] == w[k][b]
  {
    assert (8 * k + b) / 8 == k && (8 * k + b) % 8 == b;
  }

  /** A number is the bytes of a word exactly when its bits are theirs, byte by byte. */
  lemma BytesAre(x: seq<bool>, r: Word)
    requires |x| == 64 && forall k: nat, b: nat :: k < 8 && b < 8 ==> x[8 * k + b] == r[k][b]
    ensures Bytes(x) == r
  {
    forall k: nat | k < 8
      ensures Bytes(x)[k] == r[k]
    {
      ByteIs(x, k, r[k]);
    }
  }

  lemma ByteIs(x: seq<bool>, k: nat, y: Byte)
    requires |x| == 64 && k < 8 && forall b: nat :: b < 8 ==> x[8 * k + b] == y[b]
    ensures x[8 * k..8 * k + 8] == y
  {
  }

  /** Loading a word and storing its number gives the word back, so the number determines the word. */
  lemma LoadStore(w: Word)
    ensures Bytes(Number(w)) == w
  {
    forall k: nat, b: nat | k < 8 && b < 8
      ensures Number(w)[8 * k + b] == w[k][b]
    {
      NumberBit(w, k, b);
    }
    BytesAre(Number(w), w);
  }

  /**
   Two neighbouring words shifted against each other and joined, as the word loop computes it,
   give the word at byte offset a between them.
   */
  lemma Merge(v: Word, w: Word, a: nat)
    requires a < 8
    ensures Bytes(Or(ShiftRight(Number(v), 8 * a), ShiftLeft(Number(w), 64 - 8 * a))) == (v + w)[a..a + 8]
  {
    var x := Or(ShiftRight(Number(v), 8 * a), ShiftLeft(Number(w), 64 - 8 * a));
    var r: Word := (v + w)[a..a + 8];
    forall k: nat, b: nat | k < 8 && b < 8
      ensures x[8 * k + b] == r[k][b]
    {
      MergeBit(v, w, a, k, b);
    }
    BytesAre(x, r);
  }

  lemma MergeBit(v: Word, w: Word, a: nat, k: nat, b: nat)
    requires a < 8 && k < 8 && b < 8
    ensures Or(ShiftRight(Number(v), 8 * a), ShiftLeft(Number(w), 64 - 8 * a))[8 * k + b] ==
      if a + k < 8 then v[a + k][b] else w[a + k - 8][b]
  {
    var i := 8 * k + b;
    if a + k < 8 {
      NumberBit(v, a + k, b);
      assert i + 8 * a == 8 * (a + k) + b;
    } else {
      NumberBit(w, a + k - 8, b);
      assert i - (64 - 8 * a) == 8 * (a + k - 8) + b;
    }
  }

  // ---- Copying -----------------------------------------------------------------------------

  /** The first k bytes from src have been copied to dest, and nothing else has changed. */
  ghost predicate Moved(orig: seq<Byte>, now: seq<Byte>, dest: nat, src: nat, k: nat) {
    && |now| == |orig| && dest + k <= |orig| && src + k <= |orig|
    && (forall i :: dest <= i < dest + k ==> now[i] == orig[src + (i - dest)])
    && (forall i :: 0 <= i < |orig| && !(dest <= i < dest + k) ==> now[i] == orig[i])
  }

  /** Where copying upwards is safe: the condition `memmove` tests. */
  predicate Upwards(dest: nat, src: nat, n: nat) {
    dest < src || dest > src + n
  }

  /** Reads one source byte: inside the source, and not yet overwritten. */
  method ReadByte(mem: array<Byte>, addr: nat, ghost src: nat, ghost n: nat, ghost orig: seq<Byte>) returns (b: Byte)
    requires src <= addr < src + n <= mem.Length == |orig| && mem[addr] == orig[addr]
    ensures b == orig[addr]
  {
    b := mem[addr];
  }

  /** Reads one aligned source word: inside the source, and no byte of it overwritten yet. */
  method ReadWord(mem: array<Byte>, addr: nat, ghost src: nat, ghost n: nat, ghost orig: seq<Byte>,
                  ghost q: nat)
      returns (w: Word)
    requires src <= addr && addr + 8 <= src + n <= mem.Length == |orig|
    requires addr == 8 * q && mem[addr..addr + 8] == orig[addr..addr + 8]
    ensures w == orig[addr..addr + 8]
  {
    w := mem[addr..addr + 8];
  }

  /** Writes one aligned word. */
  method WriteWord(mem: array<Byte>, addr: nat, w: Word, ghost q: nat)
    requires addr + 8 <= mem.Length && addr == 8 * q
    modifies mem
    ensures mem[addr..addr + 8] == w
    ensures forall i :: 0 <= i < mem.Length && !(addr <= i < addr + 8) ==> mem[i] == old(mem[i])
  {
    for j := 0 to 8
      invariant mem[addr..addr + j] == w[..j]
      invariant forall i :: 0 <= i < mem.Length && !(addr <= i < addr + j) ==> mem[i] == old(mem[i])
    {
      mem[addr + j] := w[j];
    }
  }

  /** The upward byte loops, from byte `from` to byte `to` of the copy. */
  method CopyBytes(mem: array<Byte>, dest: nat, src: nat, from: nat, to: nat, ghost n: nat, ghost orig: seq<Byte>)
    requires Upwards(dest, src, n) && from <= to <= n && dest + n <= mem.Length && src + n <= mem.Length
    requires Moved(orig, mem[..], dest, src, from)
    modifies mem
    ensures Moved(orig, mem[..], dest, src, to)
  {
    for k := from to to
      invariant Moved(orig, mem[..], dest, src, k)
    {
      assert !(dest <= src + k < dest + k);
      assert mem[..][src + k] == orig[src + k];
      var b := ReadByte(mem, src + k, src, n, orig);
      mem[dest + k] := b;
    }
  }

  /** Bytes up to the next multiple of 8. */
  function ToAlign(addr: nat): (r: nat)
    ensures r < 8 && (addr + r) % 8 == 0
  {
    if 8 - addr % 8 == 8 then 0 else 8 - addr % 8
  }

  /** The next source word lies above everything written so far, or outside the destination. */
  lemma StillFresh(orig: seq<Byte>, now: seq<Byte>, dest: nat, src: nat, n: nat, k: nat, addr: nat)
    requires Upwards(dest, src, n) && Moved(orig, now, dest, src, k) && k <= n
    requires src <= addr && addr + 8 <= src + n <= |orig|
    requires dest < src ==> dest + k <= addr
    ensures now[addr..addr + 8] == orig[addr..addr + 8]
  {
  }

  lemma MovedWord(orig: seq<Byte>, before: seq<Byte>, now: seq<Byte>, dest: nat, src: nat, k: nat)
    requires Moved(orig, before, dest, src, k) && dest + k + 8 <= |orig| && src + k + 8 <= |orig|
    requires |now| == |orig|
    requires now[dest + k..dest + k + 8] == orig[src + k..src + k + 8]
    requires forall i :: 0 <= i < |orig| && !(dest + k <= i < dest + k + 8) ==> now[i] == before[i]
    ensures Moved(orig, now, dest, src, k + 8)
  {
  }

  lemma WordAt(orig: seq<Byte>, v1: Word, v2: Word, at: nat, shift: nat)
    requires shift < 8 && at + 16 <= |orig|
    requires v1 == orig[at..at + 8] && v2 == orig[at + 8..at + 16]
    ensures (v1 + v2)[shift..shift + 8] == orig[at + shift..at + shift + 8]
  {
    var both: seq<Byte> := v1 + v2;
    var l, r := both[shift..shift + 8], orig[at + shift..at + shift + 8];
    forall i | 0 <= i < 8
      ensures l[i] == r[i]
    {
      assert both[shift + i] == orig[at + shift + i];
    }
  }

  /**
   One turn of the word loop: reads the next source word and writes the word merged from it and the
   last. A shift by all 64 bits gives 0 here; the code tests for it to the same effect.
   */
  method CopyWord(mem: array<Byte>, dest: nat, src: nat, n: nat, srcOpt: nat, dstOpt: nat, shift: nat, v1: Word,
                  ghost orig: seq<Byte>, ghost sq: nat, ghost dq: nat)
      returns (v2: Word)
    requires Upwards(dest, src, n) && dest + n <= mem.Length && src + n <= mem.Length == |orig|
    requires srcOpt == 8 * sq && dstOpt == 8 * dq && shift < 8
    requires src + 8 <= srcOpt && srcOpt + 8 <= src + n && dstOpt - dest == srcOpt - 8 - src + shift
    requires v1 == orig[srcOpt - 8..srcOpt]
    requires Moved(orig, mem[..], dest, src, dstOpt - dest)
    modifies mem
    ensures v2 == orig[srcOpt..srcOpt + 8]
    ensures Moved(orig, mem[..], dest, src, dstOpt - dest + 8)
  {
    StillFresh(orig, mem[..], dest, src, n, dstOpt - dest, srcOpt);
    v2 := ReadWord(mem, srcOpt, src, n, orig, sq);
    var rightShift, leftShift := 8 * shift, 64 - 8 * shift;
    var dstIns := Or(ShiftRight(Number(v1), rightShift), ShiftLeft(Number(v2), leftShift));
    Merge(v1, v2, shift);
    WordAt(orig, v1, v2, srcOpt - 8, shift);
    ghost var before := mem[..];
    WriteWord(mem, dstOpt, Bytes(dstIns), dq);
    MovedWord(orig, before, mem[..], dest, src, dstOpt - dest);
  }

  /** The word loop. Returns how many bytes of the copy are then done. */
  method WordLoop(mem: array<Byte>, dest: nat, src: nat, n: nat, start: nat, dst: nat, end: nat, shift: nat,
                  ghost orig: seq<Byte>, ghost sq: nat, ghost dq: nat, ghost eq: nat)
      returns (copied: nat)
    requires Upwards(dest, src, n) && dest + n <= mem.Length && src + n <= mem.Length == |orig|
    requires start == 8 * sq && dst == 8 * dq && end == 8 * eq && shift < 8
    requires src <= start < end <= src + n && dst - dest == start - src + shift
    requires dest < src ==> dst <= start
    requires Moved(orig, mem[..], dest, src, dst - dest)
    modifies mem
    ensures copied <= n && Moved(orig, mem[..], dest, src, copied)
  {
    StillFresh(orig, mem[..], dest, src, n, dst - dest, start);
    var v1 := ReadWord(mem, start, src, n, orig, sq);
    var srcOpt, dstOpt := start + 8, dst;
    ghost var words := 1;
    while srcOpt < end
      invariant 1 <= words && sq + words <= eq && srcOpt == start + 8 * words && dstOpt == dst + 8 * words - 8
      invariant v1 == orig[srcOpt - 8..srcOpt]
      invariant Moved(orig, mem[..], dest, src, dstOpt - dest)
    {
      v1 := CopyWord(mem, dest, src, n, srcOpt, dstOpt, shift, v1, orig, sq + words, dq + words - 1);
      srcOpt, dstOpt, words := srcOpt + 8, dstOpt + 8, words + 1;
    }
    return dstOpt - dest;
  }

  /** Where the two byte loops before the word loop end up, in words. */
  lemma Alignments(dest: nat, src: nat, n: nat, a: nat, b: nat) returns (sq: nat, dq: nat, eq: nat)
    requires n > 32 && a == ToAlign(src) && b == ToAlign(dest + a)
    ensures src + a == 8 * sq && dest + a + b == 8 * dq && (src + n) - (src + n) % 8 == 8 * eq
    ensures sq < eq && 8 * eq <= src + n
    ensures dest < src ==> dq <= sq
  {
    sq, dq, eq := (src + a) / 8, (dest + a + b) / 8, (src + n) / 8;
  }

  /** `memmove_impl<uint64_t, uint64_t>`, which its caller uses for more than 32 bytes. */
  method MoveWords(mem: array<Byte>, dest: nat, src: nat, n: nat)
    requires n > 32 && Upwards(dest, src, n) && dest + n <= mem.Length && src + n <= mem.Length
    modifies mem
    ensures Moved(old(mem[..]), mem[..], dest, src, n)
  {
    ghost var orig := mem[..];
    var srcAlignment := ToAlign(src);
    var dstAlignment := ToAlign(dest + srcAlignment);
    ghost var sq, dq, eq := Alignments(dest, src, n, srcAlignment, dstAlignment);
    CopyBytes(mem, dest, src, 0, srcAlignment, n, orig);
    CopyBytes(mem, dest, src, srcAlignment, srcAlignment + dstAlignment, n, orig);
    var srcOpt, dstOpt := src + srcAlignment, dest + srcAlignment + dstAlignment;
    var srcOptEnd := (src + n) - (src + n) % 8;
    var copied := srcAlignment + dstAlignment;
    if srcOpt < srcOptEnd {
      copied := WordLoop(mem, dest, src, n, srcOpt, dstOpt, srcOptEnd, dstAlignment, orig, sq, dq, eq);
      CopyBytes(mem, dest, src, copied, n, n, orig);
    }
  }

  /** The backward byte loop, for a destination inside or right after the source. */
  method MoveBackwards(mem: array<Byte>, dest: nat, src: nat, n: nat)
    requires src <= dest <= src + n && dest + n <= mem.Length
    modifies mem
    ensures Moved(old(mem[..]), mem[..], dest, src, n)
  {
    ghost var orig := mem[..];
    var left := n;
    while left > 0
      invariant 0 <= left <= n
      invariant forall i :: dest + left <= i < dest + n ==> mem[i] == orig[src + (i - dest)]
      invariant forall i :: 0 <= i < mem.Length && !(dest + left <= i < dest + n) ==> mem[i] == orig[i]
    {
      left := left - 1;
      var b := ReadByte(mem, src + left, src, n, orig);
      mem[dest + left] := b;
    }
  }

  /**
   `memmove`: whatever the overlap and the alignments, the n bytes at dest become the old n bytes
   at src, and no other byte changes.
   */
  method Move(mem: array<Byte>, dest: nat, src: nat, n: nat)
    requires dest + n <= mem.Length && src + n <= mem.Length
    modifies mem
    ensures mem[dest..dest + n] == old(mem[src..src + n])
    ensures mem[..dest] == old(mem[..dest]) && mem[dest + n..] == old(mem[dest + n..])
  {
    ghost var orig := mem[..];
    if dest != src {
      if Upwards(dest, src, n) {
        if n > 32 {
          MoveWords(mem, dest, src, n);
        } else {
          CopyBytes(mem, dest, src, 0, n, n, orig);
        }
      } else {
        MoveBackwards(mem, dest, src, n);
      }
    }
    MovedWhole(orig, mem[..], dest, src, n);
  }

  lemma MovedWhole(orig: seq<Byte>, now: seq<Byte>, dest: nat, src: nat, n: nat)
    requires Moved(orig, now, dest, src, n)
    ensures now[dest..dest + n] == orig[src..src + n]
    ensures now[..dest] == orig[..dest] && now[dest + n..] == orig[dest + n..]
  {
  }
}
