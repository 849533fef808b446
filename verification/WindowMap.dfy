/**
 The windowed page map (kernel/physpagemap.cpp): one bitmap page that covers the
 physical pages from `base` on. All arithmetic on 32-bit values is written with
 the wrap-around the source has.
 */
module WindowMap {
  import opened PhysPageMap

  /** `max()`: the 32-bit sum wraps for a window at the very top of the page numbers. */
  function WindowMax(base: u32): u32 {
    if base + 32768 < U32 then base + 32768 else base + 32768 - U32
  }

  /** The pages the bitmap has bits for. */
  function Window(base: u32): set<nat> {
    Range(base, base + MAP_PAGES)
  }

  /** The pages a bulk claim of [start, start + count) adds. */
  function BulkEffect(base: u32, start: u32, count: u32): set<nat> {
    if start < WindowMax(base) then Range(start, start + count) * Window(base) else {}
  }

  /** The pages of the window whose bit is set. */
  ghost function Shifted(base: u32, claimed: set<nat>): set<nat> {
    set p | p in Window(base) && p - base in claimed
  }

  class PageMap {
    const bits: Bitmap
    const base: u32
    ghost var pages: set<nat>  // the claimed pages of the window, as absolute page numbers

    ghost predicate Valid()
      reads this, bits, bits.words
    {
      && bits.Valid()
      && pages == Shifted(base, bits.claimed)
    }

    constructor (bits: Bitmap, base: u32)
      requires bits.Valid()
      ensures Valid() && this.bits == bits && this.base == base
      ensures pages == Shifted(base, bits.claimed)
    {
      this.bits, this.base, this.pages := bits, base, Shifted(base, bits.claimed);
    }

    function Max(): u32 {
      WindowMax(base)
    }

    method Claim(page: u32)
      requires Valid()
      modifies this`pages, bits`claimed, bits.words
      ensures Valid()
      ensures pages == if base <= page < Max() then old(pages) + {page} else old(pages)
    {
      if page >= Max() {
        return;
      }
      if page < base {
        return;
      }
      bits.Claim(page - base);
      pages := pages + {page};
    }

    /** Claims the part of [start, start + count) that lies in the window, for every
        start and count, also when start + count does not fit in 32 bits. */
    method ClaimMany(start: u32, count: u32)
      requires Valid()
      modifies this`pages, bits`claimed, bits.words
      ensures Valid()
      ensures pages == old(pages) + BulkEffect(base, start, count)
    {
      var page: nat, num: nat := start, count;
      if page >= Max() {
        return;
      }
      if page >= base {
        page := page - base;
      } else {
        var diff := base - page;
        if diff >= num {
          return;
        }
        page := 0;
        num := num - diff;
      }
      var overflmax := 0xFFFF_FFFF - page;
      if num > overflmax {
        num := overflmax;
      }
      var relMax := (Max() - base) % 0x1_0000_0000;
      assert relMax == MAP_PAGES;
      if (page + num) % 0x1_0000_0000 > relMax {
        num := relMax - page;
      }
      ghost var before := bits.claimed;
      bits.ClaimMany(page, num);
      ghost var added := Range(start, start + count);
      pages := pages + added * Window(base);
      forall p | p in Window(base)
        ensures p - base in bits.claimed <==> p - base in before || p in added
      {
      }
    }

    method Release(page: u32)
      requires Valid()
      modifies this`pages, bits`claimed, bits.words
      ensures Valid()
      ensures pages == if base <= page < Max() then old(pages) - {page} else old(pages)
    {
      if page >= Max() {
        return;
      }
      if page < base {
        return;
      }
      bits.Release(page - base);
      pages := pages - {page};
    }

    /** Pages outside the window read as claimed. */
    method IsClaimed(page: u32) returns (r: bool)
      requires Valid()
      ensures r <==> page in pages || !(base <= page < Max())
    {
      if page >= Max() {
        return true;
      }
      if page < base {
        return true;
      }
      r := bits.IsClaimed(page - base);
    }
  }

  /** The window as the interface presents it: from base() up to max(). */
  function Reported(base: u32): set<nat> {
    Range(base, WindowMax(base))
  }

  /**
   A bulk claim clips to exactly the reported window [base(), max()), and a single claim
   reaches every page the bitmap has a bit for, precisely when base + 32768 fits in 32 bits.
   */
  lemma WindowExact(base: u32)
    ensures base + MAP_PAGES < U32 <==>
            forall start: u32, count: u32 ::
              BulkEffect(base, start, count) == Range(start, start + count) * Window(base)
    ensures base + MAP_PAGES < U32 <==> Reported(base) == Window(base)
  {
    if base + MAP_PAGES < U32 {
      forall start: u32, count: u32
        ensures BulkEffect(base, start, count) == Range(start, start + count) * Window(base)
      {
      }
    } else {
      assert base in Range(base, base + 1) * Window(base);
      assert BulkEffect(base, base, 1) == {};
      assert base in Window(base) && base !in Reported(base);
    }
  }
}
