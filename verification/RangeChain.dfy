/**
 Growing a chain of range pages (include/vpallocator.h): `MoveOneUp` and `MoreRoom` move ranges
 to the next page, taking a new page when the next one is full or missing.
 */
module RangeChain {
  import opened RangePage

  ghost function Arrays(pages: seq<AllocatorPage>): set<object> {
    set p | p in pages :: p.ranges
  }

  ghost predicate Distinct(pages: seq<AllocatorPage>) {
    forall i, j :: 0 <= i < j < |pages| ==> pages[i] != pages[j] && pages[i].ranges != pages[j].ranges
  }

  /** The pages are distinct and each links to the next; the last links to none. */
  ghost predicate Chain(pages: seq<AllocatorPage>)
    reads pages
  {
    && Distinct(pages)
    && (forall i :: 0 <= i < |pages| - 1 ==> pages[i].next == pages[i + 1])
    && (pages != [] ==> pages[|pages| - 1].next == null)
  }

  /** `lists` are the ranges of the pages, page by page, and every page is within its capacity. */
  ghost predicate Holds(pages: seq<AllocatorPage>, lists: seq<seq<Range>>)
    reads pages, Arrays(pages)
  {
    && |pages| == |lists|
    && forall i :: 0 <= i < |pages| ==> pages[i].Valid() && pages[i].Contents() == lists[i]
  }

  /** All ranges of a chain, with their multiplicities. */
  ghost function Sum(lists: seq<seq<Range>>): multiset<Range> {
    if lists == [] then multiset{} else multiset(lists[0]) + Sum(lists[1..])
  }

  lemma Regroup(a: multiset<Range>, b: multiset<Range>, c: multiset<Range>, d: multiset<Range>, rest: multiset<Range>)
    requires a + b == c + d
    ensures a + (b + rest) == c + (d + rest)
  {
    assert a + (b + rest) == a + b + rest;
    assert c + (d + rest) == c + d + rest;
  }

  /** Only what two neighbouring pages hold together matters to the sum. */
  lemma {:induction false} SumTwo(lists: seq<seq<Range>>, k: nat, x: seq<Range>, y: seq<Range>)
    requires k + 1 < |lists|
    requires multiset(x) + multiset(y) == multiset(lists[k]) + multiset(lists[k + 1])
    ensures Sum(lists[k := x][k + 1 := y]) == Sum(lists)
  {
    var lists' := lists[k := x][k + 1 := y];
    if k == 0 {
      assert lists'[1..][1..] == lists[1..][1..];
      assert Sum(lists'[1..]) == multiset(y) + Sum(lists[1..][1..]);
      assert Sum(lists[1..]) == multiset(lists[1]) + Sum(lists[1..][1..]);
      assert lists'[0] == x;
      Regroup(multiset(x), multiset(y), multiset(lists[0]), multiset(lists[1]), Sum(lists[1..][1..]));
    } else {
      assert lists'[1..] == lists[1..][k - 1 := x][k := y];
      SumTwo(lists[1..], k - 1, x, y);
    }
  }

  lemma {:induction false} SumInsertEmpty(lists: seq<seq<Range>>, k: nat)
    requires k <= |lists|
    ensures Sum(lists[..k] + [[]] + lists[k..]) == Sum(lists)
  {
    var lists' := lists[..k] + [[]] + lists[k..];
    if k == 0 {
      assert lists'[1..] == lists;
    } else {
      assert lists'[1..] == lists[1..][..k - 1] + [[]] + lists[1..][k - 1..];
      SumInsertEmpty(lists[1..], k - 1);
    }
  }

  /** `MoveOneUp`: the last range of page becomes the last range of next, if there are both range and room. */
  method MoveOneUp(page: AllocatorPage, next: AllocatorPage)
    requires page.Valid() && next.Valid() && page != next && page.ranges != next.ranges
    modifies page`num, next`num, next.ranges
    ensures page.Valid() && next.Valid()
    ensures var moves := old(next.num) < NUM_RECORDS && old(page.num) > 0;
      var p, n := old(page.Contents()), old(next.Contents());
      && page.Contents() == (if moves then p[..|p| - 1] else p)
      && next.Contents() == (if moves then n + [p[|p| - 1]] else n)
  {
    if next.num >= NUM_RECORDS || page.num <= 0 {
      return;
    }
    page.num := page.num - 1;
    next.ranges[next.num] := page.ranges[page.num];
    next.num := next.num + 1;
  }

  lemma MovedLast(p: seq<Range>, n: seq<Range>)
    requires p != []
    ensures multiset(p[..|p| - 1]) + multiset(n + [p[|p| - 1]]) == multiset(p) + multiset(n)
  {
    assert p == p[..|p| - 1] + [p[|p| - 1]];
  }

  /** One move, counted. */
  method MoveCounted(page: AllocatorPage, next: AllocatorPage)
    requires page.Valid() && next.Valid() && page != next && page.ranges != next.ranges
    modifies page`num, next`num, next.ranges
    ensures page.Valid() && next.Valid()
    ensures var one := if old(next.num) < NUM_RECORDS && old(page.num) > 0 then 1 else 0;
      page.num == old(page.num) - one && next.num == old(next.num) + one
    ensures multiset(page.Contents()) + multiset(next.Contents())
         == old(multiset(page.Contents()) + multiset(next.Contents()))
  {
    if page.num > 0 { MovedLast(page.Contents(), next.Contents()); }
    MoveOneUp(page, next);
    assert |page.Contents()| == page.num && |next.Contents()| == next.num;
  }

  function Min(a: nat, b: nat): (m: nat)
    ensures m <= a && m <= b && (m == a || m == b)
  {
    if a < b then a else b
  }

  /** `count` times `MoveOneUp`, which stops moving when page is empty or next is full. */
  method MoveSome(page: AllocatorPage, next: AllocatorPage, count: nat)
    requires page.Valid() && next.Valid() && page != next && page.ranges != next.ranges
    modifies page`num, next`num, next.ranges
    ensures page.Valid() && next.Valid()
    ensures page.Contents() <= old(page.Contents())
    ensures page.num == old(page.num) - Min(count, Min(old(page.num), NUM_RECORDS - old(next.num)))
    ensures multiset(page.Contents()) + multiset(next.Contents())
         == old(multiset(page.Contents()) + multiset(next.Contents()))
  {
    for i := 0 to count
      invariant page.Valid() && next.Valid()
      invariant var done := Min(i, Min(old(page.num), NUM_RECORDS - old(next.num)));
        page.num == old(page.num) - done && next.num == old(next.num) + done
      invariant multiset(page.Contents()) + multiset(next.Contents())
             == old(multiset(page.Contents()) + multiset(next.Contents()))
    {
      MoveCounted(page, next);
    }
    assert page.Contents() == old(page.Contents())[..page.num];
  }

  /** Moving ranges from page k to page k + 1 keeps the chain and all its ranges. */
  method MoveInChain(page: AllocatorPage, next: AllocatorPage, count: nat,
                     ghost pages: seq<AllocatorPage>, ghost lists: seq<seq<Range>>, ghost k: nat)
      returns (ghost lists': seq<seq<Range>>)
    requires Chain(pages) && Holds(pages, lists)
    requires k + 1 < |pages| && page == pages[k] && next == pages[k + 1]
    modifies page`num, next`num, next.ranges
    ensures Chain(pages) && Holds(pages, lists') && Sum(lists') == Sum(lists)
    ensures page.Contents() <= old(page.Contents())
    ensures page.num == old(page.num) - Min(count, Min(old(page.num), NUM_RECORDS - old(next.num)))
  {
    MoveSome(page, next, count);
    lists' := lists[k := page.Contents()][k + 1 := next.Contents()];
    SumTwo(lists, k, page.Contents(), next.Contents());
  }

  /** The chain with a spare page after page k. */
  ghost function Inserted<T>(s: seq<T>, k: nat, x: T): (t: seq<T>)
    requires k < |s|
    ensures |t| == |s| + 1
    ensures forall i :: 0 <= i <= k ==> t[i] == s[i]
    ensures t[k + 1] == x
    ensures forall i :: k + 1 < i < |t| ==> t[i] == s[i - 1]
  {
    s[..k + 1] + [x] + s[k + 1..]
  }

  lemma DistinctInserted(pages: seq<AllocatorPage>, k: nat, spare: AllocatorPage)
    requires Distinct(pages) && k < |pages| && spare !in pages && spare.ranges !in Arrays(pages)
    ensures Distinct(Inserted(pages, k, spare))
  {
  }

  lemma HoldsInserted(pages: seq<AllocatorPage>, lists: seq<seq<Range>>, k: nat, spare: AllocatorPage)
    requires Holds(pages, lists) && k < |pages| && spare.Valid() && spare.num == 0
    ensures Holds(Inserted(pages, k, spare), Inserted(lists, k, []))
    ensures Sum(Inserted(lists, k, [])) == Sum(lists)
  {
    SumInsertEmpty(lists, k + 1);
  }

  /** A spare page linked in after page k. */
  method LinkIn(page: AllocatorPage, spare: AllocatorPage, hasNext: bool, ghost pages: seq<AllocatorPage>, ghost k: nat)
    requires Chain(pages) && k < |pages| && page == pages[k] && (hasNext <==> page.next != null)
    requires spare !in pages && spare.ranges !in Arrays(pages) && spare.next == null
    modifies page`next, spare`next
    ensures Chain(Inserted(pages, k, spare))
  {
    if hasNext {
      spare.next := page.next;
    }
    page.next := spare;
    DistinctInserted(pages, k, spare);
  }

  /** Half of the ranges, but at least one if there are any. */
  function HalfNum(num: nat): (half: nat)
    ensures num != 1 ==> 2 * half <= num < 2 * half + 2
    ensures num == 1 ==> half == 1
  {
    if num / 2 <= 0 && num > 0 then 1 else num / 2
  }

  /** The branch of `MoreRoom` that takes a spare page. */
  method TakeSpare(page: AllocatorPage, next: AllocatorPage?, spare: AllocatorPage,
                   ghost pages: seq<AllocatorPage>, ghost lists: seq<seq<Range>>, ghost k: nat)
      returns (ghost lists': seq<seq<Range>>)
    requires Chain(pages) && Holds(pages, lists) && k < |pages| && page == pages[k] && next == page.next
    requires spare !in pages && spare.ranges !in Arrays(pages)
    requires spare.Valid() && spare.num == 0 && spare.next == null
    modifies page`num, page`next, spare, spare.ranges
    ensures Chain(Inserted(pages, k, spare)) && Holds(Inserted(pages, k, spare), lists') && Sum(lists') == Sum(lists)
    ensures page.next == spare
    ensures page.Contents() <= old(page.Contents())
    ensures page.num == old(page.num) - HalfNum(old(page.num))
  {
    ghost var before := page.Contents();
    LinkIn(page, spare, next != null, pages, k);
    assert page.Contents() == before;
    HoldsInserted(pages, lists, k, spare);
    ghost var longer := Inserted(pages, k, spare);
    lists' := MoveInChain(page, spare, HalfNum(page.num), longer, Inserted(lists, k, []), k);
    assert longer[k].next == longer[k + 1];
  }

  /**
   `MoreRoom`. Whatever the chain and its fill level, and whether or not a spare page can be had,
   the chain stays finite, keeps its old pages in order, and holds the same ranges as before.
   The page gives up its last two ranges when the next page has room for them, else half of its
   ranges (at least one) to the spare page, else none.
   */
  method MoreRoom(page: AllocatorPage, next: AllocatorPage?, spare: AllocatorPage?,
                  ghost pages: seq<AllocatorPage>, ghost lists: seq<seq<Range>>, ghost k: nat)
      returns (r: AllocatorPage?, ghost pages': seq<AllocatorPage>, ghost lists': seq<seq<Range>>)
    requires Chain(pages) && Holds(pages, lists) && k < |pages| && page == pages[k] && next == page.next
    requires spare != null ==>
      && spare !in pages && spare.ranges !in Arrays(pages)
      && spare.Valid() && spare.num == 0 && spare.next == null
    modifies page, next, if next != null then {next.ranges} else {}
    modifies spare, if spare != null then {spare.ranges} else {}
    ensures Chain(pages') && Holds(pages', lists') && Sum(lists') == Sum(lists)
    ensures pages' == pages || (spare != null && pages' == Inserted(pages, k, spare))
    ensures r == page.next
    ensures page.Valid() && page.Contents() <= old(page.Contents())
    ensures var room := next != null && NUM_RECORDS - old(next.num) >= 2;
      var moved := if room then Min(2, old(page.num)) else if spare != null then HalfNum(old(page.num)) else 0;
      page.num == old(page.num) - moved
  {
    pages', lists' := pages, lists;
    if next == null || NUM_RECORDS - next.num < 2 {
      if spare == null {
        return next, pages', lists';
      }
      pages' := Inserted(pages, k, spare);
      lists' := TakeSpare(page, next, spare, pages, lists, k);
      return spare, pages', lists';
    }
    assert next == pages[k + 1];
    lists' := MoveInChain(page, next, 2, pages', lists', k);
    return next, pages', lists';
  }
}
