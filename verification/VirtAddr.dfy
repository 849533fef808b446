/**
 How a 64-bit virtual address selects table slots: nine bits per level above the twelve
 offset bits (section 4.5 of the Intel SDM volume 3A, and the 4KB granule of VMSAv8-64).
 */
module VirtAddr {

  /** The virtual page the four slots of an address select; bits 48 and up do not take part. */
  function VPage(addr: nat): nat {
    (addr / 0x1000) % 0x10_0000_0000
  }

  /** The slot at each level: `(addr >> 39) & 511`, `(addr >> 30) & 511`, ... */
  function Index(addr: nat, level: nat): nat
    requires level <= 3
  {
    if level == 0 then (addr / 0x80_0000_0000) % 512
    else if level == 1 then (addr / 0x4000_0000) % 512
    else if level == 2 then (addr / 0x20_0000) % 512
    else (addr / 0x1000) % 512
  }

  /** The leading 9 * depth bits of a virtual page number. */
  function Prefix(v: nat, depth: nat): nat
    requires depth <= 4
  {
    if depth == 0 then v / 0x10_0000_0000
    else if depth == 1 then v / 0x800_0000
    else if depth == 2 then v / 0x4_0000
    else if depth == 3 then v / 512
    else v
  }

  lemma Digits(a: nat, h: nat, i: nat, j: nat, k: nat, l: nat, o: nat)
    requires i < 512 && j < 512 && k < 512 && l < 512 && o < 4096
    requires a == ((((h * 512 + i) * 512 + j) * 512 + k) * 512 + l) * 4096 + o
    ensures a / 0x1000 == (((h * 512 + i) * 512 + j) * 512 + k) * 512 + l
    ensures a / 0x20_0000 == ((h * 512 + i) * 512 + j) * 512 + k
    ensures a / 0x4000_0000 == (h * 512 + i) * 512 + j
    ensures a / 0x80_0000_0000 == h * 512 + i
  {
  }

  lemma LowDigits(v: nat, h: nat, i: nat, j: nat, k: nat, l: nat)
    requires i < 512 && j < 512 && k < 512 && l < 512
    requires v == (((h * 512 + i) * 512 + j) * 512 + k) * 512 + l
    ensures v % 0x10_0000_0000 == ((i * 512 + j) * 512 + k) * 512 + l
  {
  }

  lemma LastDigit(x: nat, y: nat)
    requires y < 512
    ensures (x * 512 + y) % 512 == y && (x * 512 + y) / 512 == x
  {
  }

  /** The prefixes of a virtual page written with its four slots. */
  lemma PrefixDigits(v: nat, i: nat, j: nat, k: nat, l: nat)
    requires i < 512 && j < 512 && k < 512 && l < 512
    requires v == ((i * 512 + j) * 512 + k) * 512 + l
    ensures Prefix(v, 0) == 0 && Prefix(v, 1) == i
    ensures Prefix(v, 2) == i * 512 + j
    ensures Prefix(v, 3) == (i * 512 + j) * 512 + k
  {
  }

  /** The slots of an address are the base-512 digits of its virtual page. */
  lemma IndexIsSlot(addr: nat, level: nat)
    requires level <= 3
    ensures Prefix(VPage(addr), level + 1) % 512 == Index(addr, level)
    ensures Prefix(VPage(addr), level + 1) / 512 == Prefix(VPage(addr), level)
    ensures Prefix(VPage(addr), 0) == 0
  {
    var o, l, q := addr % 4096, (addr / 4096) % 512, addr / 4096 / 512;
    var k, j, i, h := q % 512, (q / 512) % 512, (q / 512 / 512) % 512, q / 512 / 512 / 512;
    Digits(addr, h, i, j, k, l, o);
    LowDigits(addr / 0x1000, h, i, j, k, l);
    PrefixDigits(VPage(addr), i, j, k, l);
    LastDigit(h, i);
    LastDigit(h * 512 + i, j);
    LastDigit((h * 512 + i) * 512 + j, k);
    LastDigit(((h * 512 + i) * 512 + j) * 512 + k, l);
    LastDigit(i * 512 + j, k);
    LastDigit(i, j);
    LastDigit((i * 512 + j) * 512 + k, l);
  }
}
