/**
 The block lists of one writeable filesystem (kernel/blockdevsystem/blockdev_writer.cpp): the
 loops of `Collect` and `Submit` that fill and drain them.
 */
module DirtyLists {

  /** A dirty block: its number, the collection it came in, and its group in that collection. */
  datatype Block = Block(id: nat, batch: nat, group: nat)

  /** `flushNow` and the groups of `dirtyBlocks`, which are to be written one after the other. */
  datatype Lists = Lists(now: seq<Block>, dirty: seq<seq<Block>>)

  /** Group g of a collection joins group g of what is still dirty. */
  function Merged(dirty: seq<seq<Block>>, batch: seq<seq<Block>>): (r: seq<seq<Block>>)
    ensures |r| == if |dirty| < |batch| then |batch| else |dirty|
    ensures forall g :: 0 <= g < |r| ==>
      r[g] == (if g < |dirty| then dirty[g] else []) + (if g < |batch| then batch[g] else [])
  {
    if batch == [] then dirty
    else if dirty == [] then batch
    else [dirty[0] + batch[0]] + Merged(dirty[1..], batch[1..])
  }

  /** The blocks of the final flush join the first group. */
  function Flushed(dirty: seq<seq<Block>>, blocks: seq<Block>): seq<seq<Block>> {
    if dirty != [] then dirty[0 := dirty[0] + blocks] else [blocks]
  }

  lemma FlushedTwice(dirty: seq<seq<Block>>, x: seq<Block>, y: seq<Block>)
    ensures Flushed(Flushed(dirty, x), y) == Flushed(dirty, x + y)
  {
    if dirty != [] {
      assert dirty[0] + x + y == dirty[0] + (x + y);
    }
  }

  /** Moves groups to `now` until it is non-empty or none is left. */
  function Advanced(l: Lists): Lists
    decreases |l.dirty|
  {
    if l.now == [] && l.dirty != [] then Advanced(Lists(l.dirty[0], l.dirty[1..])) else l
  }

  class WriteableFilesystem {
    var dirtyBlocks: seq<seq<Block>>
    var flushNow: seq<Block>

    constructor (blocks: seq<Block>)
      ensures flushNow == blocks && dirtyBlocks == []
    {
      flushNow, dirtyBlocks := blocks, [];
    }

    /** The two loops of `Collect` over a collection. */
    method Merge(blocks: seq<seq<Block>>)
      modifies this`dirtyBlocks
      ensures dirtyBlocks == Merged(old(dirtyBlocks), blocks)
    {
      ghost var was := dirtyBlocks;
      var i := 0;
      while i < |blocks| && i < |dirtyBlocks|
        invariant i <= |blocks| && i <= |was| == |dirtyBlocks|
        invariant forall g :: 0 <= g < |was| ==>
          dirtyBlocks[g] == if g < i then was[g] + blocks[g] else was[g]
      {
        dirtyBlocks := dirtyBlocks[i := dirtyBlocks[i] + blocks[i]];
        i := i + 1;
      }
      while i < |blocks|
        invariant i <= |blocks| && |dirtyBlocks| == if |was| < i then i else |was|
        invariant |was| <= i || i == |blocks|
        invariant forall g :: 0 <= g < |dirtyBlocks| ==>
          dirtyBlocks[g] == (if g < |was| then was[g] else []) + (if g < i then blocks[g] else [])
      {
        dirtyBlocks := dirtyBlocks + [blocks[i]];
        i := i + 1;
      }
      assert dirtyBlocks == Merged(was, blocks);
    }

    /** The append of `Collect` for a filesystem that is being closed. */
    method AddFlushed(blocks: seq<Block>)
      modifies this`dirtyBlocks
      ensures dirtyBlocks == Flushed(old(dirtyBlocks), blocks)
    {
      if dirtyBlocks == [] {
        dirtyBlocks := [[]];
      }
      ghost var was := dirtyBlocks;
      for i := 0 to |blocks|
        invariant |dirtyBlocks| == |was| && dirtyBlocks[1..] == was[1..]
        invariant dirtyBlocks[0] == was[0] + blocks[..i]
      {
        assert was[0] + blocks[..i + 1] == was[0] + blocks[..i] + [blocks[i]];
        dirtyBlocks := dirtyBlocks[0 := dirtyBlocks[0] + [blocks[i]]];
      }
      assert dirtyBlocks[0] == was[0] + blocks;
      assert dirtyBlocks == [dirtyBlocks[0]] + dirtyBlocks[1..];
      assert dirtyBlocks == was[0 := was[0] + blocks];
      assert [] + blocks == blocks;
    }

    /** The part of `Submit` that takes the blocks to write in this round. */
    method TakeNow() returns (taken: seq<Block>)
      modifies this
      ensures var l := Advanced(Lists(old(flushNow), old(dirtyBlocks)));
        taken == l.now && flushNow == [] && dirtyBlocks == l.dirty
    {
      while flushNow == [] && dirtyBlocks != []
        invariant Advanced(Lists(flushNow, dirtyBlocks)) == Advanced(Lists(old(flushNow), old(dirtyBlocks)))
        decreases |dirtyBlocks|
      {
        flushNow := dirtyBlocks[0];
        dirtyBlocks := dirtyBlocks[1..];
      }
      taken := flushNow;
      flushNow := [];
    }
  }

  /** Which group `Advanced` stops at: everything before it is empty. */
  lemma {:induction false} AdvancedAt(l: Lists) returns (k: nat)
    ensures k <= |l.dirty| && Advanced(l).dirty == l.dirty[k..]
    ensures k == 0 ==> Advanced(l).now == l.now
    ensures k > 0 ==> l.now == [] && Advanced(l).now == l.dirty[k - 1]
    ensures forall i :: 0 <= i < k - 1 ==> l.dirty[i] == []
    ensures Advanced(l).now == [] ==> Advanced(l).dirty == []
    decreases |l.dirty|
  {
    k := 0;
    if l.now == [] && l.dirty != [] {
      var k' := AdvancedAt(Lists(l.dirty[0], l.dirty[1..]));
      k := k' + 1;
    }
  }

  // ---- Counting ----------------------------------------------------------------------------

  /** How often block `id` occurs in a list, in groups, and in the lists of a filesystem. */
  function Count(s: seq<Block>, id: nat): nat {
    if s == [] then 0 else Count(s[1..], id) + if s[0].id == id then 1 else 0
  }

  function CountGroups(d: seq<seq<Block>>, id: nat): nat {
    if d == [] then 0 else Count(d[0], id) + CountGroups(d[1..], id)
  }

  function Pending(l: Lists, id: nat): nat {
    Count(l.now, id) + CountGroups(l.dirty, id)
  }

  lemma {:induction false} CountConcat(s: seq<Block>, t: seq<Block>, id: nat)
    ensures Count(s + t, id) == Count(s, id) + Count(t, id)
  {
    if s == [] {
      assert s + t == t;
    } else {
      assert (s + t)[1..] == s[1..] + t;
      CountConcat(s[1..], t, id);
    }
  }

  lemma {:induction false} CountMerged(d: seq<seq<Block>>, b: seq<seq<Block>>, id: nat)
    ensures CountGroups(Merged(d, b), id) == CountGroups(d, id) + CountGroups(b, id)
  {
    if b != [] && d != [] {
      CountConcat(d[0], b[0], id);
      CountMerged(d[1..], b[1..], id);
      assert Merged(d, b)[1..] == Merged(d[1..], b[1..]);
    }
  }

  lemma CountFlushed(d: seq<seq<Block>>, x: seq<Block>, id: nat)
    ensures CountGroups(Flushed(d, x), id) == CountGroups(d, id) + Count(x, id)
  {
    if d != [] {
      CountConcat(d[0], x, id);
      assert Flushed(d, x)[1..] == d[1..];
    }
  }

  /** n new blocks of one group, and the groups of a new collection. */
  function Numbered(n: nat, next: nat, batch: nat, group: nat): (s: seq<Block>)
    ensures |s| == n && forall i :: 0 <= i < n ==> s[i] == Block(next + i, batch, group)
  {
    if n == 0 then [] else [Block(next, batch, group)] + Numbered(n - 1, next + 1, batch, group)
  }

  function Sum(sizes: seq<nat>): nat {
    if sizes == [] then 0 else sizes[0] + Sum(sizes[1..])
  }

  function Collected(sizes: seq<nat>, next: nat, batch: nat, group: nat): (d: seq<seq<Block>>)
    ensures |d| == |sizes|
    ensures forall g, b :: 0 <= g < |d| && b in d[g] ==> b.batch == batch && b.group == group + g
  {
    if sizes == [] then []
    else [Numbered(sizes[0], next, batch, group)] + Collected(sizes[1..], next + sizes[0], batch, group + 1)
  }

  lemma {:induction false} CountNumbered(n: nat, next: nat, batch: nat, group: nat, id: nat)
    ensures Count(Numbered(n, next, batch, group), id) == if next <= id < next + n then 1 else 0
  {
    if n > 0 {
      CountNumbered(n - 1, next + 1, batch, group, id);
    }
  }

  lemma {:induction false} CountCollected(sizes: seq<nat>, next: nat, batch: nat, group: nat, id: nat)
    ensures CountGroups(Collected(sizes, next, batch, group), id) == if next <= id < next + Sum(sizes) then 1 else 0
  {
    if sizes != [] {
      CountNumbered(sizes[0], next, batch, group, id);
      CountCollected(sizes[1..], next + sizes[0], batch, group + 1, id);
    }
  }
}

/**
 The write-back pipeline as a state machine: the collecting thread, the submitting thread, and
 calls of `OpenForWrite` and `CloseForWrite` at any time. A thread visits the filesystems of
 its snapshot one by one, in any order. The collecting thread holds no lock while it appends
 the blocks of a final flush, so each append is a step of its own, and so are the parts of the
 loop in `Submit` that moves a group to `flushNow`.
 */
module WriteBack {
  import opened Optional
  import opened DirtyLists

  /** A block that was taken to be written, and the round of `Submit` that took it. */
  datatype Taken = Taken(block: Block, round: nat)

  /**
   `flushing` is the filesystem whose first group the collector holds a reference to. `locked`
   says that `Submit` is in its locked loop. `doomed` are the filesystems whose first group has
   been copied to `flushNow` and is about to be erased; their lists here are already without it.
   `lost` are the blocks appended to a group that was copied or gone. `owner` names the
   filesystem of every collection so far, `next` the next block number.
   */
  datatype State = State(
    fs: seq<Lists>,
    open: set<nat>, flush: set<nat>, finish: set<nat>,
    collecting: bool, toMerge: set<nat>, toFlush: set<nat>, flushing: Option<nat>, flushed: set<nat>,
    submitting: bool, toTake: set<nat>, locked: bool, doomed: set<nat>, round: nat,
    taken: seq<Taken>, lost: set<nat>, owner: seq<nat>, next: nat)

  datatype Action =
    | Open(n: nat)                        // with n blocks to write at once
    | Close(f: nat)
    | CollectStart
    | Merge(f: nat, sizes: seq<nat>)      // one GetWrites, by the sizes of its groups
    | Choose(f: nat)                      // FlushOrClose, and a reference to the first group
    | Append                              // one block of the flush, a collection of its own
    | FlushEnd(completed: bool)
    | CollectEnd
    | SubmitStart
    | Lock
    | Copy(f: nat)                        // the first group becomes flushNow
    | Erase(f: nat)
    | Take(f: nat)
    | SubmitEnd

  function Init(): State {
    State([], {}, {}, {}, false, {}, {}, None, {}, false, {}, false, {}, 0, [], {}, [], 0)
  }

  predicate Enabled(s: State, a: Action) {
    match a
    case Open(n) => !s.locked
    case Close(f) => f in s.open && !s.locked
    case CollectStart => !s.collecting && !s.locked
    case Merge(f, sizes) => f in s.toMerge && f < |s.fs| && !s.locked
    case Choose(f) => s.toMerge == {} && s.flushing.None? && f in s.toFlush && f < |s.fs|
    case Append => s.flushing.Some? && s.flushing.value < |s.fs|
    case FlushEnd(completed) => s.flushing.Some?
    case CollectEnd =>
      s.collecting && s.toMerge == {} && s.toFlush == {} && s.flushing.None? && (s.flushed == {} || !s.locked)
    case SubmitStart => !s.submitting
    case Lock => s.submitting && !s.locked
    case Copy(f) => s.locked && f in s.toTake - s.doomed && f < |s.fs| && s.fs[f].now == [] && s.fs[f].dirty != []
    case Erase(f) => s.locked && f in s.doomed
    case Take(f) =>
      s.locked && f in s.toTake - s.doomed && f < |s.fs| && (s.fs[f].now != [] || s.fs[f].dirty == [])
    case SubmitEnd => s.locked && s.toTake == {}
  }

  /** A filesystem with nothing left to write. */
  predicate Empty(s: State, f: nat) {
    f < |s.fs| && s.fs[f] == Lists([], [])
  }

  /** No group is left in `dirtyBlocks`. */
  predicate Gone(s: State, f: nat) {
    f < |s.fs| && s.fs[f].dirty == [] && f !in s.doomed
  }

  /** What is appended to the first group is lost: there is none, or it is about to be erased. */
  predicate Slotless(s: State, f: nat) {
    Gone(s, f) || f in s.doomed
  }

  function Tagged(blocks: seq<Block>, round: nat): (t: seq<Taken>)
    ensures |t| == |blocks| && forall i :: 0 <= i < |t| ==> t[i] == Taken(blocks[i], round)
  {
    seq(|blocks|, i requires 0 <= i < |blocks| => Taken(blocks[i], round))
  }

  function Step(s: State, a: Action): State {
    if !Enabled(s, a) then s else
    match a
    case Open(n) =>
      s.(fs := s.fs + [Lists(Numbered(n, s.next, |s.owner|, 0), [])], open := s.open + {|s.fs|},
         owner := s.owner + [|s.fs|], next := s.next + n)
    case Close(f) => s.(open := s.open - {f}, flush := s.flush + {f})
    case CollectStart => s.(collecting := true, toMerge := s.open, toFlush := s.flush, flushed := {})
    case Merge(f, sizes) =>
      var dirty := Merged(s.fs[f].dirty, Collected(sizes, s.next, |s.owner|, 0));
      s.(fs := s.fs[f := s.fs[f].(dirty := dirty)], toMerge := s.toMerge - {f},
         owner := s.owner + [f], next := s.next + Sum(sizes))
    case Choose(f) =>
      var dirty := if f in s.doomed then s.fs[f].dirty else Flushed(s.fs[f].dirty, []);
      s.(fs := s.fs[f := s.fs[f].(dirty := dirty)], toFlush := s.toFlush - {f}, flushing := Some(f))
    case Append =>
      var f, block := s.flushing.value, Block(s.next, |s.owner|, 0);
      var s' := s.(owner := s.owner + [f], next := s.next + 1);
      if Slotless(s, f) then s'.(lost := s.lost + {s.next})
      else s'.(fs := s.fs[f := s.fs[f].(dirty := Flushed(s.fs[f].dirty, [block]))])
    case FlushEnd(completed) =>
      s.(flushing := None, flushed := if completed then s.flushed + {s.flushing.value} else s.flushed)
    case CollectEnd =>
      s.(collecting := false, flushed := {}, flush := s.flush - s.flushed, finish := s.finish + s.flushed)
    case SubmitStart =>
      var kept := set f | f in s.finish && !Empty(s, f);
      s.(submitting := true, finish := kept, toTake := s.open + s.flush + kept)
    case Lock => s.(locked := true)
    case Copy(f) =>
      s.(fs := s.fs[f := Lists(s.fs[f].dirty[0], s.fs[f].dirty[1..])], doomed := s.doomed + {f})
    case Erase(f) => s.(doomed := s.doomed - {f})
    case Take(f) =>
      s.(fs := s.fs[f := s.fs[f].(now := [])], toTake := s.toTake - {f},
         taken := s.taken + Tagged(s.fs[f].now, s.round))
    case SubmitEnd => s.(submitting := false, locked := false, round := s.round + 1)
  }

  function Run(s: State, actions: seq<Action>): State {
    if actions == [] then s else Step(Run(s, actions[..|actions| - 1]), actions[|actions| - 1])
  }

  // ---- The three lists ---------------------------------------------------------------------

  ghost predicate Live(s: State, f: nat) {
    f in s.open || f in s.flush || f in s.finish
  }

  /**
   A filesystem is in one list at most; both threads work on filesystems that are still in a
   list, the collector never on one in `finish`; one in no list has nothing left to write.
   */
  ghost predicate Listed(s: State) {
    && s.open !! s.flush && s.open !! s.finish && s.flush !! s.finish
    && (forall f: nat :: Live(s, f) ==> f < |s.fs|)
    && s.toMerge <= s.open + s.flush && s.toFlush <= s.flush && s.flushed <= s.flush
    && (!s.collecting ==> s.toMerge == {} && s.toFlush == {} && s.flushing.None? && s.flushed == {})
    && (s.flushing.Some? ==> s.flushing.value in s.flush - s.toFlush - s.flushed && s.toMerge == {})
    && s.flushed !! s.toFlush
    && (forall f: nat :: f in s.toTake ==> Live(s, f))
    && (!s.submitting ==> s.toTake == {} && !s.locked) && s.doomed <= s.toTake
    && (forall f: nat :: f < |s.fs| && !Live(s, f) ==> Empty(s, f))
  }

  /** The steps of `Submit`. */
  predicate Submits(a: Action) {
    a.SubmitStart? || a.Lock? || a.Copy? || a.Erase? || a.Take? || a.SubmitEnd?
  }

  lemma SubmitListed(s: State, a: Action)
    requires Listed(s) && Submits(a)
    ensures Listed(Step(s, a))
  {
    forall f: nat
      ensures Live(Step(s, a), f) <==>
        Live(s, f) && !(a.SubmitStart? && Enabled(s, a) && f in s.finish && Empty(s, f))
    {
    }
  }

  lemma OpenListed(s: State, n: nat)
    requires Listed(s)
    ensures Listed(Step(s, Open(n)))
  {
    assert !Live(s, |s.fs|);
    forall f: nat
      ensures Live(Step(s, Open(n)), f) <==> Live(s, f) || (Enabled(s, Open(n)) && f == |s.fs|)
    {
    }
  }

  lemma CollectListed(s: State, a: Action)
    requires Listed(s) && !Submits(a) && !a.Open?
    ensures Listed(Step(s, a))
  {
    forall f: nat
      ensures Live(Step(s, a), f) <==> Live(s, f)
    {
    }
  }

  lemma StepListed(s: State, a: Action)
    requires Listed(s)
    ensures Listed(Step(s, a))
  {
    if Submits(a) {
      SubmitListed(s, a);
    } else if a.Open? {
      OpenListed(s, a.n);
    } else {
      CollectListed(s, a);
    }
  }

  /** While `Submit` is in its locked loop, the other threads can only append the blocks of a final flush. */
  lemma LockExcludes(s: State, a: Action)
    requires s.locked && !Submits(a)
    ensures var s' := Step(s, a);
      && s'.open == s.open && s'.flush == s.flush && s'.finish == s.finish && |s'.fs| == |s.fs|
      && forall f :: 0 <= f < |s.fs| && s'.fs[f] != s.fs[f] ==> s'.flushing == Some(f)
  {
  }

  // ---- Conservation ------------------------------------------------------------------------

  function All(fs: seq<Lists>, id: nat): nat {
    if fs == [] then 0 else Pending(fs[0], id) + All(fs[1..], id)
  }

  function CountTaken(taken: seq<Taken>, id: nat): nat {
    if taken == [] then 0
    else CountTaken(taken[..|taken| - 1], id) + if taken[|taken| - 1].block.id == id then 1 else 0
  }

  /** In how many places a block is: still in some list, taken, or lost. */
  function Places(s: State, id: nat): nat {
    All(s.fs, id) + CountTaken(s.taken, id) + if id in s.lost then 1 else 0
  }

  ghost predicate Conserved(s: State) {
    forall id: nat :: Places(s, id) == if id < s.next then 1 else 0
  }

  lemma {:induction false} AllUpdate(fs: seq<Lists>, f: nat, l: Lists, id: nat)
    requires f < |fs|
    ensures All(fs[f := l], id) == All(fs, id) - Pending(fs[f], id) + Pending(l, id)
  {
    if f == 0 {
      assert fs[f := l][1..] == fs[1..];
    } else {
      assert fs[f := l][1..] == fs[1..][f - 1 := l];
      AllUpdate(fs[1..], f - 1, l, id);
    }
  }

  lemma {:induction false} AllAppend(fs: seq<Lists>, l: Lists, id: nat)
    ensures All(fs + [l], id) == All(fs, id) + Pending(l, id)
  {
    if fs == [] {
      assert (fs + [l])[1..] == [];
    } else {
      assert (fs + [l])[1..] == fs[1..] + [l];
      AllAppend(fs[1..], l, id);
    }
  }

  lemma {:induction false} CountTagged(taken: seq<Taken>, blocks: seq<Block>, round: nat, id: nat)
    ensures CountTaken(taken + Tagged(blocks, round), id) == CountTaken(taken, id) + Count(blocks, id)
    decreases blocks
  {
    if blocks == [] {
      assert taken + Tagged(blocks, round) == taken;
    } else {
      var first := Taken(blocks[0], round);
      assert taken + Tagged(blocks, round) == (taken + [first]) + Tagged(blocks[1..], round);
      CountTagged(taken + [first], blocks[1..], round, id);
      assert (taken + [first])[..|taken|] == taken;
    }
  }

  lemma CollectPlaces(s: State, a: Action, id: nat)
    requires a.Open? || a.Merge?
    ensures Places(Step(s, a), id) == Places(s, id) + if s.next <= id < Step(s, a).next then 1 else 0
  {
    if Enabled(s, a) {
      match a
      case Open(n) =>
        CountNumbered(n, s.next, |s.owner|, 0, id);
        AllAppend(s.fs, Lists(Numbered(n, s.next, |s.owner|, 0), []), id);
      case Merge(f, sizes) =>
        CountCollected(sizes, s.next, |s.owner|, 0, id);
        CountMerged(s.fs[f].dirty, Collected(sizes, s.next, |s.owner|, 0), id);
        AllUpdate(s.fs, f, Step(s, a).fs[f], id);
    }
  }

  lemma ChoosePlaces(s: State, f: nat, id: nat)
    ensures var s' := Step(s, Choose(f)); s'.next == s.next && Places(s', id) == Places(s, id)
  {
    if Enabled(s, Choose(f)) {
      CountFlushed(s.fs[f].dirty, [], id);
      AllUpdate(s.fs, f, Step(s, Choose(f)).fs[f], id);
    }
  }

  lemma AppendPlaces(s: State, id: nat)
    requires s.next !in s.lost
    ensures Places(Step(s, Append), id) == Places(s, id) + if s.next <= id < Step(s, Append).next then 1 else 0
  {
    if Enabled(s, Append) && !Slotless(s, s.flushing.value) {
      var f, block := s.flushing.value, Block(s.next, |s.owner|, 0);
      var l := s.fs[f].(dirty := Flushed(s.fs[f].dirty, [block]));
      assert Count([block], id) == if id == s.next then 1 else 0;
      CountFlushed(s.fs[f].dirty, [block], id);
      AllUpdate(s.fs, f, l, id);
    }
  }

  lemma TakePlaces(s: State, a: Action, id: nat)
    requires a.Copy? || a.Take?
    ensures Step(s, a).next == s.next && Places(Step(s, a), id) == Places(s, id)
  {
    if Enabled(s, a) {
      AllUpdate(s.fs, a.f, Step(s, a).fs[a.f], id);
      CountTagged(s.taken, s.fs[a.f].now, s.round, id);
    }
  }

  lemma StepPlaces(s: State, a: Action, id: nat)
    requires s.next !in s.lost
    ensures Places(Step(s, a), id) == Places(s, id) + if s.next <= id < Step(s, a).next then 1 else 0
  {
    if a.Open? || a.Merge? {
      CollectPlaces(s, a, id);
    } else if a.Choose? {
      ChoosePlaces(s, a.f, id);
    } else if a.Append? {
      AppendPlaces(s, id);
    } else if a.Copy? || a.Take? {
      TakePlaces(s, a, id);
    }
  }

  lemma StepConserved(s: State, a: Action)
    requires Conserved(s)
    ensures Conserved(Step(s, a))
  {
    assert Places(s, s.next) == 0;
    forall id: nat
      ensures Places(Step(s, a), id) == if id < Step(s, a).next then 1 else 0
    {
      StepPlaces(s, a, id);
    }
  }

  // ---- Order within a collection -------------------------------------------------------------

  ghost predicate InGroup(l: Lists, i: int, b: Block) {
    0 <= i < |l.dirty| && b in l.dirty[i]
  }

  ghost predicate In(l: Lists, b: Block) {
    b in l.now || exists i :: InGroup(l, i, b)
  }

  /** Of one collection, lower groups lie before higher ones, and `now` holds one group that is before all others. */
  ghost predicate Staged(l: Lists) {
    && (forall i, j, b, c :: InGroup(l, i, b) && InGroup(l, j, c) && b.batch == c.batch && b.group < c.group ==> i < j)
    && (forall j, b, c :: InGroup(l, j, b) && c in l.now && b.batch == c.batch ==> c.group <= b.group)
    && (forall b, c :: b in l.now && c in l.now && b.batch == c.batch ==> b.group == c.group)
  }

  /** Every block belongs to the filesystem of its collection. */
  ghost predicate Owned(s: State) {
    && (forall f, b :: 0 <= f < |s.fs| && In(s.fs[f], b) ==> b.batch < |s.owner| && s.owner[b.batch] == f)
    && (forall t :: t in s.taken ==> t.block.batch < |s.owner|)
  }

  /** What was taken in the current round came from filesystems this round has visited. */
  ghost predicate Rounds(s: State) {
    forall t :: t in s.taken && t.block.batch < |s.owner| ==>
      && t.round <= s.round
      && (t.round == s.round ==> s.submitting && s.owner[t.block.batch] !in s.toTake)
  }

  /** Nothing still to be taken is of a lower group than something taken of the same collection. */
  ghost predicate Ahead(s: State) {
    forall f, b, t :: 0 <= f < |s.fs| && In(s.fs[f], b) && t in s.taken && b.batch == t.block.batch ==>
      t.block.group <= b.group
  }

  ghost predicate InOrder(taken: seq<Taken>) {
    forall t, t' :: t in taken && t' in taken && t.block.batch == t'.block.batch && t.block.group < t'.block.group ==>
      t.round < t'.round
  }

  ghost predicate Ordered(s: State) {
    && (forall f :: 0 <= f < |s.fs| ==> Staged(s.fs[f]))
    && Owned(s) && Rounds(s) && Ahead(s) && InOrder(s.taken)
  }

  /** A filesystem's lists after a collection or a flush of a new batch. */
  ghost predicate Extended(l: Lists, l': Lists, batch: nat) {
    && l'.now == l.now
    && (forall i, b :: InGroup(l', i, b) ==> InGroup(l, i, b) || (b.batch == batch && b.group == i))
  }

  lemma MergeExtends(l: Lists, sizes: seq<nat>, next: nat, batch: nat)
    ensures Extended(l, l.(dirty := Merged(l.dirty, Collected(sizes, next, batch, 0))), batch)
  {
  }

  lemma AppendExtends(l: Lists, next: nat, batch: nat)
    ensures Extended(l, l.(dirty := Flushed(l.dirty, [Block(next, batch, 0)])), batch)
  {
  }

  /** Filesystem f changes its lists, but not what is in them. */
  lemma SameOrdered(s: State, s': State, f: nat, l: Lists)
    requires Ordered(s) && f < |s.fs| && Staged(l) && (forall b :: In(l, b) ==> In(s.fs[f], b))
    requires s'.fs == s.fs[f := l] && s'.owner == s.owner
    requires s'.taken == s.taken && s'.round == s.round && s'.submitting == s.submitting && s'.toTake == s.toTake
    ensures Ordered(s')
  {
  }

  lemma ChooseStaged(l: Lists)
    requires Staged(l)
    ensures var l' := l.(dirty := Flushed(l.dirty, [])); Staged(l') && forall b :: In(l', b) ==> In(l, b)
  {
    var l' := l.(dirty := Flushed(l.dirty, []));
    assert forall i, b :: InGroup(l', i, b) ==> InGroup(l, i, b);
  }

  lemma CopyStaged(l: Lists)
    requires Staged(l) && l.now == [] && l.dirty != []
    ensures var l' := Lists(l.dirty[0], l.dirty[1..]); Staged(l') && forall b :: In(l', b) ==> In(l, b)
  {
    var l' := Lists(l.dirty[0], l.dirty[1..]);
    assert forall i, b :: InGroup(l', i, b) ==> InGroup(l, i + 1, b);
    assert forall b :: b in l'.now ==> InGroup(l, 0, b);
  }

  lemma ExtendedStaged(l: Lists, l': Lists, batch: nat)
    requires Staged(l) && Extended(l, l', batch)
    requires forall b :: In(l, b) ==> b.batch < batch
    ensures Staged(l')
    ensures forall b :: In(l', b) ==> In(l, b) || b.batch == batch
  {
  }

  /** Adding a new collection to filesystem f. */
  lemma ExtendOrdered(s: State, s': State, f: nat, l': Lists)
    requires Ordered(s) && f < |s.fs| && Extended(s.fs[f], l', |s.owner|)
    requires s'.fs == s.fs[f := l'] && s'.owner == s.owner + [f]
    requires s'.taken == s.taken && s'.round == s.round && s'.submitting == s.submitting && s'.toTake == s.toTake
    ensures Ordered(s')
  {
    ExtendedStaged(s.fs[f], l', |s.owner|);
  }

  lemma AppendOrdered(s: State, s': State, l: Lists)
    requires Ordered(s) && Staged(l) && (forall b :: In(l, b) ==> b.batch == |s.owner|)
    requires s'.fs == s.fs + [l] && s'.owner == s.owner + [|s.fs|]
    requires s'.taken == s.taken && s'.round == s.round && s'.submitting == s.submitting && s'.toTake == s.toTake
    ensures Ordered(s')
  {
  }

  lemma OpenOrdered(s: State, n: nat)
    requires Ordered(s) && Enabled(s, Open(n))
    ensures Ordered(Step(s, Open(n)))
  {
    AppendOrdered(s, Step(s, Open(n)), Lists(Numbered(n, s.next, |s.owner|, 0), []));
  }

  ghost predicate NewOrOld(s: State, taken: seq<Taken>, f: nat, now: seq<Block>) {
    forall t :: t in taken ==> t in s.taken || (t.round == s.round && t.block in now)
  }

  lemma TakeInOrder(s: State, taken: seq<Taken>, f: nat, now: seq<Block>)
    requires Ordered(s) && f in s.toTake && f < |s.fs| && NewOrOld(s, taken, f, now)
    requires forall b :: b in now ==> In(s.fs[f], b)
    requires forall b, c :: b in now && c in now && b.batch == c.batch ==> b.group == c.group
    ensures InOrder(taken)
  {
  }

  lemma TakeOrdered(s: State, f: nat)
    requires Ordered(s) && Enabled(s, Take(f)) && s.submitting
    ensures Ordered(Step(s, Take(f)))
  {
    var s', l := Step(s, Take(f)), s.fs[f];
    var rest := l.(now := []);
    assert forall i, b :: InGroup(rest, i, b) ==> InGroup(l, i, b);
    assert NewOrOld(s, s'.taken, f, l.now);
    TakeInOrder(s, s'.taken, f, l.now);
    forall g, b | 0 <= g < |s'.fs| && In(s'.fs[g], b)
      ensures In(s.fs[g], b) && (g == f ==> In(rest, b))
    {
    }
  }

  ghost predicate Sound(s: State) {
    Listed(s) && Conserved(s) && Ordered(s)
  }

  lemma AppendBlockOrdered(s: State)
    requires Ordered(s) && Enabled(s, Append)
    ensures Ordered(Step(s, Append))
  {
    var f := s.flushing.value;
    AppendExtends(s.fs[f], s.next, |s.owner|);
    ExtendOrdered(s, Step(s, Append), f, Step(s, Append).fs[f]);
  }

  lemma StepOrdered(s: State, a: Action)
    requires Ordered(s) && Listed(s)
    ensures Ordered(Step(s, a))
  {
    if Enabled(s, a) {
      match a
      case Open(n) => OpenOrdered(s, n);
      case Merge(f, sizes) =>
        MergeExtends(s.fs[f], sizes, s.next, |s.owner|);
        ExtendOrdered(s, Step(s, a), f, Step(s, a).fs[f]);
      case Choose(f) =>
        ChooseStaged(s.fs[f]);
        SameOrdered(s, Step(s, a), f, Step(s, a).fs[f]);
      case Append => AppendBlockOrdered(s);
      case Copy(f) =>
        CopyStaged(s.fs[f]);
        SameOrdered(s, Step(s, a), f, Step(s, a).fs[f]);
      case Take(f) => TakeOrdered(s, f);
      case _ =>
    }
  }

  lemma StepSound(s: State, a: Action)
    requires Sound(s)
    ensures Sound(Step(s, a))
  {
    StepListed(s, a);
    StepConserved(s, a);
    StepOrdered(s, a);
  }

  lemma {:induction false} RunSound(actions: seq<Action>)
    ensures Sound(Run(Init(), actions))
  {
    if actions != [] {
      RunSound(actions[..|actions| - 1]);
      StepSound(Run(Init(), actions[..|actions| - 1]), actions[|actions| - 1]);
    }
  }

  /**
   In every interleaving of collecting, submitting, opening and closing: every block is taken at
   most once, and until then it is in the lists of a filesystem that has not left `finish`,
   unless it is lost; and a lost block is in no list and never taken.
   */
  lemma NoBlockLost(actions: seq<Action>, id: nat)
    ensures var s := Run(Init(), actions);
      && CountTaken(s.taken, id) <= 1
      && (id < s.next && CountTaken(s.taken, id) == 0 ==>
            (id !in s.lost <==> exists f :: 0 <= f < |s.fs| && Pending(s.fs[f], id) == 1 && Live(s, f)))
      && (id in s.lost ==> CountTaken(s.taken, id) == 0)
  {
    RunSound(actions);
    var s := Run(Init(), actions);
    assert Places(s, id) <= 1;
    if id < s.next && CountTaken(s.taken, id) == 0 && id !in s.lost {
      var f := FindPending(s.fs, id);
      assert Live(s, f);
    }
    forall f | 0 <= f < |s.fs|
      ensures Pending(s.fs[f], id) <= All(s.fs, id)
    {
      AllBound(s.fs, f, id);
    }
  }

  lemma {:induction false} AllBound(fs: seq<Lists>, f: nat, id: nat)
    requires f < |fs|
    ensures Pending(fs[f], id) <= All(fs, id)
  {
    if f > 0 {
      AllBound(fs[1..], f - 1, id);
    }
  }

  lemma {:induction false} FindPending(fs: seq<Lists>, id: nat) returns (f: nat)
    requires All(fs, id) == 1
    ensures f < |fs| && Pending(fs[f], id) == 1
  {
    if Pending(fs[0], id) == 1 {
      f := 0;
    } else {
      var f' := FindPending(fs[1..], id);
      f := f' + 1;
    }
  }

  // ---- Which blocks are lost -----------------------------------------------------------------

  /** The step appends a block of a final flush to a group that is copied or gone. */
  predicate Drops(s: State, a: Action) {
    a.Append? && Enabled(s, a) && Slotless(s, s.flushing.value)
  }

  /** Some append of the run drops block `id`. */
  ghost predicate Dropped(actions: seq<Action>, id: nat) {
    actions != [] &&
    var before, a := actions[..|actions| - 1], actions[|actions| - 1];
    Dropped(before, id) || (Drops(Run(Init(), before), a) && id == Run(Init(), before).next)
  }

  lemma StepLost(s: State, a: Action)
    ensures Step(s, a).lost == if Drops(s, a) then s.lost + {s.next} else s.lost
    ensures s.next <= Step(s, a).next
  {
  }

  /** A block is lost exactly when some append of the run dropped it. */
  lemma {:induction false} LostExact(actions: seq<Action>, id: nat)
    ensures id in Run(Init(), actions).lost <==> Dropped(actions, id)
  {
    if actions != [] {
      LostExact(actions[..|actions| - 1], id);
      StepLost(Run(Init(), actions[..|actions| - 1]), actions[|actions| - 1]);
    }
  }

  /** A block that is not lost by the step that brought it is never lost. */
  lemma {:induction false} StaysKept(s: State, later: seq<Action>, id: nat)
    requires id < s.next && id !in s.lost
    ensures id < Run(s, later).next && id !in Run(s, later).lost
  {
    if later != [] {
      StaysKept(s, later[..|later| - 1], id);
      StepLost(Run(s, later[..|later| - 1]), later[|later| - 1]);
    }
  }

  /** The blocks of `OpenForWrite` and of a collection are never lost, whatever happens. */
  lemma CollectedKept(actions: seq<Action>, a: Action, later: seq<Action>, id: nat)
    requires !a.Append?
    requires var s := Run(Init(), actions); s.next <= id < Step(s, a).next
    ensures id !in Run(Step(Run(Init(), actions), a), later).lost
  {
    RunSound(actions);
    var s := Run(Init(), actions);
    assert Places(s, id) == 0;
    StepLost(s, a);
    StaysKept(Step(s, a), later, id);
  }

  /** `Submit` erases the last group of filesystem f. */
  predicate RemovesLast(s: State, a: Action, f: nat) {
    a == Erase(f) && Enabled(s, a) && f < |s.fs| && s.fs[f].dirty == []
  }

  /** Some step of a run from s does. */
  ghost predicate Removed(s: State, later: seq<Action>, f: nat) {
    later != [] &&
    var before, a := later[..|later| - 1], later[|later| - 1];
    Removed(s, before, f) || RemovesLast(Run(s, before), a, f)
  }

  lemma StepGone(s: State, a: Action, f: nat)
    requires Listed(s) && s.flushing == Some(f) && !a.FlushEnd?
    ensures Step(s, a).flushing == Some(f)
    ensures Gone(Step(s, a), f) <==> Gone(s, f) || RemovesLast(s, a, f)
  {
    assert Live(s, f);
  }

  lemma {:induction false} RunGone(s: State, later: seq<Action>, f: nat)
    requires Listed(s) && s.flushing == Some(f) && !Gone(s, f)
    requires forall a :: a in later ==> !a.FlushEnd?
    ensures Listed(Run(s, later)) && Run(s, later).flushing == Some(f)
    ensures Gone(Run(s, later), f) <==> Removed(s, later, f)
  {
    if later != [] {
      RunGone(s, later[..|later| - 1], f);
      StepListed(Run(s, later[..|later| - 1]), later[|later| - 1]);
      StepGone(Run(s, later[..|later| - 1]), later[|later| - 1], f);
    }
  }

  /**
   An append of a final flush is dropped exactly when, since the group was chosen, `Submit` has
   erased the last group of that filesystem, or when it is between the copy of the first group
   and its removal. `later` is whatever happens between the choice and the append.
   */
  lemma DropsExact(actions: seq<Action>, f: nat, later: seq<Action>)
    requires Enabled(Run(Init(), actions), Choose(f)) && forall a :: a in later ==> !a.FlushEnd?
    ensures var chosen := Step(Run(Init(), actions), Choose(f));
      Drops(Run(chosen, later), Append) <==> f in Run(chosen, later).doomed || Removed(chosen, later, f)
  {
    RunSound(actions);
    ChooseListed(Run(Init(), actions), f);
    RunGone(Step(Run(Init(), actions), Choose(f)), later, f);
    FlushingFits(Run(Step(Run(Init(), actions), Choose(f)), later), f);
  }

  lemma ChooseListed(s: State, f: nat)
    requires Listed(s) && Enabled(s, Choose(f))
    ensures var s' := Step(s, Choose(f)); Listed(s') && s'.flushing == Some(f) && !Gone(s', f)
  {
    StepListed(s, Choose(f));
  }

  lemma FlushingFits(s: State, f: nat)
    requires Listed(s) && s.flushing == Some(f)
    ensures Drops(s, Append) <==> f in s.doomed || Gone(s, f)
  {
    assert Live(s, f);
  }

  /** Of one collection, every block of a lower group is taken in an earlier round than one of a higher group. */
  lemma GroupsInOrder(actions: seq<Action>, t: Taken, t': Taken)
    requires var s := Run(Init(), actions); t in s.taken && t' in s.taken
    requires t.block.batch == t'.block.batch && t.block.group < t'.block.group
    ensures t.round < t'.round
  {
    RunSound(actions);
  }

  /** And nothing of a higher group is taken while a block of a lower group is still waiting. */
  lemma LowerGroupsFirst(actions: seq<Action>, f: nat, b: Block, t: Taken)
    requires var s := Run(Init(), actions); f < |s.fs| && In(s.fs[f], b) && t in s.taken
    requires t.block.batch == b.batch
    ensures t.block.group <= b.group
  {
    RunSound(actions);
  }

  // ---- The threads undisturbed -----------------------------------------------------------------

  lemma {:induction false} RunConcat(s: State, a: seq<Action>, b: seq<Action>)
    ensures Run(s, a + b) == Run(Run(s, a), b)
  {
    if b == [] {
      assert a + b == a;
    } else {
      assert (a + b)[..|a + b| - 1] == a + b[..|b| - 1];
      RunConcat(s, a, b[..|b| - 1]);
    }
  }

  lemma Steps(s: State, a: Action, b: Action)
    ensures Run(s, [a]) == Step(s, a) && Run(s, [a, b]) == Step(Step(s, a), b)
  {
    assert [a][..0] == [] && [a, b][..1] == [a];
  }

  /** The steps of `Submit` on one filesystem, with nothing in between, are `TakeNow`. */
  lemma {:induction false} UndisturbedTake(s: State, f: nat) returns (actions: seq<Action>)
    requires s.locked && f in s.toTake - s.doomed && f < |s.fs|
    ensures var l := Advanced(s.fs[f]);
      Run(s, actions) == s.(fs := s.fs[f := Lists([], l.dirty)], toTake := s.toTake - {f},
                            taken := s.taken + Tagged(l.now, s.round))
    decreases |s.fs[f].dirty|
  {
    Steps(s, Take(f), Take(f));
    actions := [Take(f)];
    if !Enabled(s, Take(f)) {
      Steps(s, Copy(f), Erase(f));
      var s' := Run(s, [Copy(f), Erase(f)]);
      assert s'.doomed == s.doomed;
      var more := UndisturbedTake(s', f);
      RunConcat(s, [Copy(f), Erase(f)], more);
      actions := [Copy(f), Erase(f)] + more;
    }
  }

  // ---- Every block is written in the end -------------------------------------------------------

  /** How many moves it takes at most to take everything from a filesystem, and from all of them. */
  function Size(l: Lists): nat {
    |l.dirty| + if l.now == [] then 0 else 1
  }

  function SizeAll(fs: seq<Lists>): nat {
    if fs == [] then 0 else Size(fs[0]) + SizeAll(fs[1..])
  }

  lemma {:induction false} SizeUpdate(fs: seq<Lists>, f: nat, l: Lists)
    requires f < |fs|
    ensures SizeAll(fs[f := l]) == SizeAll(fs) - Size(fs[f]) + Size(l)
  {
    if f == 0 {
      assert fs[f := l][1..] == fs[1..];
    } else {
      assert fs[f := l][1..] == fs[1..][f - 1 := l];
      SizeUpdate(fs[1..], f - 1, l);
    }
  }

  /** What a stretch of `Submit` keeps: it brings no block, loses none and never adds to the lists. */
  ghost predicate Drained(s: State, s': State) {
    && Listed(s') && s'.next == s.next && s'.lost == s.lost && |s'.fs| == |s.fs| && SizeAll(s'.fs) <= SizeAll(s.fs)
    && s'.open == s.open && s'.flush == s.flush
    && s'.collecting == s.collecting && s'.toMerge == s.toMerge && s'.toFlush == s.toFlush
    && s'.flushing == s.flushing && s'.flushed == s.flushed
  }

  lemma {:induction false} RunListed(s: State, actions: seq<Action>)
    requires Listed(s)
    ensures Listed(Run(s, actions))
  {
    if actions != [] {
      RunListed(s, actions[..|actions| - 1]);
      StepListed(Run(s, actions[..|actions| - 1]), actions[|actions| - 1]);
    }
  }

  /** One visit of `Submit`. */
  lemma TakeOne(s: State, f: nat) returns (actions: seq<Action>)
    requires Listed(s) && s.locked && s.doomed == {} && f in s.toTake
    ensures var s' := Run(s, actions);
      && Drained(s, s') && s'.locked && s'.doomed == {} && s'.submitting && s'.toTake == s.toTake - {f}
      && s'.finish == s.finish && s'.fs == s.fs[f := s'.fs[f]]
      && (!Empty(s, f) ==> SizeAll(s'.fs) < SizeAll(s.fs))
  {
    assert Live(s, f);
    actions := UndisturbedTake(s, f);
    RunListed(s, actions);
    var k := AdvancedAt(s.fs[f]);
    SizeUpdate(s.fs, f, Lists([], Advanced(s.fs[f]).dirty));
  }

  /** The rest of a round, once it has the lock: everything still to be visited is visited. */
  lemma {:induction false} TakeRest(s: State) returns (actions: seq<Action>)
    requires Listed(s) && s.locked && s.doomed == {}
    ensures var s' := Run(s, actions);
      && Drained(s, s') && s'.locked && s'.doomed == {} && s'.toTake == {} && s'.finish == s.finish
      && (forall f :: f in s.toTake && !Empty(s, f) ==> SizeAll(s'.fs) < SizeAll(s.fs))
    decreases |s.toTake|
  {
    actions := [];
    if s.toTake != {} {
      var f :| f in s.toTake;
      var first := TakeOne(s, f);
      var s' := Run(s, first);
      var more := TakeRest(s');
      RunConcat(s, first, more);
      actions := first + more;
      forall g | g in s.toTake && g != f && !Empty(s, g)
        ensures g in s'.toTake && !Empty(s', g)
      {
      }
    }
  }

  /** Groups that were copied when the round was left are erased. */
  lemma {:induction false} EraseRest(s: State) returns (actions: seq<Action>)
    requires Listed(s) && s.locked
    ensures var s' := Run(s, actions); s' == s.(doomed := {}) && Listed(s')
    decreases |s.doomed|
  {
    actions := [];
    if s.doomed == {} {
      assert s == s.(doomed := {});
    } else {
      var f :| f in s.doomed;
      Steps(s, Erase(f), Erase(f));
      StepListed(s, Erase(f));
      var more := EraseRest(Step(s, Erase(f)));
      RunConcat(s, [Erase(f)], more);
      actions := [Erase(f)] + more;
    }
  }

  lemma FinishLocked(s: State) returns (actions: seq<Action>)
    requires Listed(s) && s.locked
    ensures var s' := Run(s, actions);
      && Drained(s, s') && !s'.submitting && s'.finish == s.finish
      && (forall f :: f in s.toTake && !Empty(s, f) ==> SizeAll(s'.fs) < SizeAll(s.fs))
  {
    var erase := EraseRest(s);
    var s1 := Run(s, erase);
    var take := TakeRest(s1);
    RunConcat(s, erase, take);
    var s2 := Run(s1, take);
    Steps(s2, SubmitEnd, SubmitEnd);
    StepListed(s2, SubmitEnd);
    RunConcat(s, erase + take, [SubmitEnd]);
    actions := erase + take + [SubmitEnd];
  }

  /** A round of `Submit` under way can be finished. */
  lemma FinishRound(s: State) returns (actions: seq<Action>)
    requires Listed(s)
    ensures var s' := Run(s, actions);
      && Drained(s, s') && !s'.submitting && s'.finish == s.finish
      && (forall f :: f in s.toTake && !Empty(s, f) ==> SizeAll(s'.fs) < SizeAll(s.fs))
  {
    actions := [];
    if s.submitting && s.locked {
      actions := FinishLocked(s);
    } else if s.submitting {
      Steps(s, Lock, Lock);
      StepListed(s, Lock);
      var rest := FinishLocked(Step(s, Lock));
      RunConcat(s, [Lock], rest);
      actions := [Lock] + rest;
    }
  }

  /** A whole round takes something if there is anything in a list. */
  lemma NextRound(s: State) returns (actions: seq<Action>)
    requires Listed(s) && !s.submitting
    ensures var s' := Run(s, actions);
      && Drained(s, s') && !s'.submitting && s'.finish == (set f | f in s.finish && !Empty(s, f))
      && (forall f: nat :: Live(s, f) && !Empty(s, f) ==> SizeAll(s'.fs) < SizeAll(s.fs))
  {
    Steps(s, SubmitStart, SubmitStart);
    StepListed(s, SubmitStart);
    var s1 := Step(s, SubmitStart);
    var rest := FinishRound(s1);
    RunConcat(s, [SubmitStart], rest);
    actions := [SubmitStart] + rest;
    forall f: nat | Live(s, f) && !Empty(s, f)
      ensures SizeAll(Run(s, actions).fs) < SizeAll(s.fs)
    {
      assert f in s1.toTake;
    }
  }

  /** Rounds of `Submit` alone empty every list. */
  lemma {:induction false} DrainAll(s: State) returns (actions: seq<Action>)
    requires Listed(s) && !s.submitting
    ensures var s' := Run(s, actions);
      Drained(s, s') && !s'.submitting && forall f: nat :: f < |s'.fs| ==> Empty(s', f)
    decreases SizeAll(s.fs)
  {
    actions := [];
    if f: nat :| f < |s.fs| && !Empty(s, f) {
      assert Live(s, f);
      var first := NextRound(s);
      var more := DrainAll(Run(s, first));
      RunConcat(s, first, more);
      actions := first + more;
    }
  }

  lemma {:induction false} AllEmpty(fs: seq<Lists>, id: nat)
    requires forall f :: 0 <= f < |fs| ==> fs[f] == Lists([], [])
    ensures All(fs, id) == 0
  {
    if fs != [] {
      AllEmpty(fs[1..], id);
    }
  }

  /** From every state of every run, `Submit` alone can go on to take every block that is not lost, once. */
  lemma EveryBlockTaken(actions: seq<Action>) returns (later: seq<Action>)
    ensures var s, s' := Run(Init(), actions), Run(Run(Init(), actions), later);
      && s'.next == s.next && s'.lost == s.lost
      && forall id: nat :: id < s.next && id !in s.lost ==> CountTaken(s'.taken, id) == 1
  {
    RunSound(actions);
    var s := Run(Init(), actions);
    var finish := FinishRound(s);
    var drain := DrainAll(Run(s, finish));
    RunConcat(s, finish, drain);
    later := finish + drain;
    var s' := Run(s, later);
    RunConcat(Init(), actions, later);
    RunSound(actions + later);
    forall id: nat | id < s.next && id !in s.lost
      ensures CountTaken(s'.taken, id) == 1
    {
      forall f | 0 <= f < |s'.fs|
        ensures s'.fs[f] == Lists([], [])
      {
        assert Empty(s', f);
      }
      AllEmpty(s'.fs, id);
      assert Places(s', id) == 1;
    }
  }

  // ---- Every round visits every filesystem -----------------------------------------------------

  ghost predicate HasBlock(l: Lists) {
    exists b :: In(l, b)
  }

  /** A block of filesystem f was taken in the present round. */
  ghost predicate Served(s: State, f: nat) {
    exists t :: t in s.taken && t.round == s.round && t.block.batch < |s.owner| && s.owner[t.block.batch] == f
  }

  /** The round is under way and still has to visit filesystem f, which has a block, or has taken one. */
  ghost predicate Due(s: State, f: nat) {
    && s.submitting && f < |s.fs|
    && ((f in s.toTake && HasBlock(s.fs[f])) || Served(s, f))
  }

  lemma StillServed(s: State, s': State, f: nat)
    requires Served(s, f) && s'.round == s.round && s.taken <= s'.taken && s.owner <= s'.owner
    ensures Served(s', f)
  {
    var t :| t in s.taken && t.round == s.round && t.block.batch < |s.owner| && s.owner[t.block.batch] == f;
    assert t in s'.taken;
  }

  lemma StillHasBlock(l: Lists, l': Lists, b: Block)
    requires In(l, b) && (b in l.now ==> b in l'.now) && (forall i :: InGroup(l, i, b) ==> In(l', b))
    ensures HasBlock(l')
  {
    assert In(l', b);
  }

  lemma StepGrows(s: State, a: Action)
    ensures s.taken <= Step(s, a).taken && s.owner <= Step(s, a).owner && |s.fs| <= |Step(s, a).fs|
  {
  }

  /** A step that is not a visit leaves the blocks of f in its lists. */
  lemma StepHasBlock(s: State, a: Action, f: nat)
    requires f < |s.fs| && HasBlock(s.fs[f]) && a != Take(f)
    ensures f < |Step(s, a).fs| && HasBlock(Step(s, a).fs[f])
  {
    var b :| In(s.fs[f], b);
    var l, l' := s.fs[f], Step(s, a).fs[f];
    if a == Copy(f) && Enabled(s, a) {
      forall i | InGroup(l, i, b)
        ensures In(l', b)
      {
        assert if i == 0 then b in l'.now else InGroup(l', i - 1, b);
      }
    } else {
      forall i | InGroup(l, i, b)
        ensures In(l', b)
      {
        assert InGroup(l', i, b);
      }
    }
    StillHasBlock(l, l', b);
  }

  /** The visit takes a block. */
  lemma TakeServes(s: State, f: nat)
    requires Sound(s) && Enabled(s, Take(f)) && HasBlock(s.fs[f])
    ensures Served(Step(s, Take(f)), f)
  {
    var b :| In(s.fs[f], b);
    assert s.fs[f].dirty == [] ==> b in s.fs[f].now;
    var c := s.fs[f].now[0];
    assert In(s.fs[f], c);
    var s' := Step(s, Take(f));
    assert s'.taken[|s.taken|] == Taken(c, s.round);
  }

  lemma StepDue(s: State, a: Action, f: nat)
    requires Sound(s) && Due(s, f) && !a.SubmitEnd?
    ensures Due(Step(s, a), f) && Step(s, a).round == s.round
  {
    StepGrows(s, a);
    if Served(s, f) {
      StillServed(s, Step(s, a), f);
    } else if a == Take(f) {
      if Enabled(s, a) {
        TakeServes(s, f);
      }
    } else {
      StepHasBlock(s, a, f);
    }
  }

  lemma {:induction false} RunDue(s: State, later: seq<Action>, f: nat)
    requires Sound(s) && Due(s, f) && forall a :: a in later ==> !a.SubmitEnd?
    ensures Sound(Run(s, later)) && Due(Run(s, later), f)
  {
    if later != [] {
      RunDue(s, later[..|later| - 1], f);
      StepSound(Run(s, later[..|later| - 1]), later[|later| - 1]);
      StepDue(Run(s, later[..|later| - 1]), later[|later| - 1], f);
    }
  }

  /**
   In every run, whatever the other threads do meanwhile: a round of `Submit` does not end before
   a block has been taken from every filesystem that had one when the round began.
   */
  lemma RoundServesAll(actions: seq<Action>, f: nat, later: seq<Action>)
    requires var s := Run(Init(), actions); !s.submitting && Live(s, f) && f < |s.fs| && HasBlock(s.fs[f])
    requires forall a :: a in later ==> !a.SubmitEnd?
    requires Enabled(Run(Step(Run(Init(), actions), SubmitStart), later), SubmitEnd)
    ensures Served(Run(Step(Run(Init(), actions), SubmitStart), later), f)
  {
    RunSound(actions);
    var s := Run(Init(), actions);
    StepSound(s, SubmitStart);
    RoundBegins(s, f);
    RunDue(Step(s, SubmitStart), later, f);
  }

  lemma RoundBegins(s: State, f: nat)
    requires Listed(s) && !s.submitting && Live(s, f) && f < |s.fs| && HasBlock(s.fs[f])
    ensures Due(Step(s, SubmitStart), f)
  {
    var b :| In(s.fs[f], b);
    assert !Empty(s, f);
  }

  // ---- Every pass collects from every filesystem, and a closed one goes ---------------------------

  /** The pass still has to collect from filesystem f, or has done so since collection `base`. */
  ghost predicate Wanted(s: State, f: nat, base: nat) {
    f in s.toMerge || exists b :: base <= b < |s.owner| && s.owner[b] == f
  }

  lemma StepWanted(s: State, a: Action, f: nat, base: nat)
    requires Listed(s) && s.collecting && Wanted(s, f, base) && base <= |s.owner| && !a.CollectEnd?
    ensures var s' := Step(s, a); s'.collecting && base <= |s'.owner| && Wanted(s', f, base)
  {
    StepGrows(s, a);
    var s' := Step(s, a);
    if b :| base <= b < |s.owner| && s.owner[b] == f {
      assert s'.owner[b] == f;
    } else if a.Merge? && a.f == f && Enabled(s, a) {
      assert s'.owner[|s.owner|] == f;
    }
  }

  lemma {:induction false} RunWanted(s: State, later: seq<Action>, f: nat, base: nat)
    requires Listed(s) && s.collecting && Wanted(s, f, base) && base <= |s.owner|
    requires forall a :: a in later ==> !a.CollectEnd?
    ensures var s' := Run(s, later); Listed(s') && s'.collecting && base <= |s'.owner| && Wanted(s', f, base)
  {
    if later != [] {
      RunWanted(s, later[..|later| - 1], f, base);
      StepListed(Run(s, later[..|later| - 1]), later[|later| - 1]);
      StepWanted(Run(s, later[..|later| - 1]), later[|later| - 1], f, base);
    }
  }

  /** In every run, a pass of `Collect` does not end before it has collected from all that were open when it began. */
  lemma PassCollectsAll(actions: seq<Action>, f: nat, later: seq<Action>)
    requires var s := Run(Init(), actions); Enabled(s, CollectStart) && f in s.open
    requires forall a :: a in later ==> !a.CollectEnd?
    requires Enabled(Run(Step(Run(Init(), actions), CollectStart), later), CollectEnd)
    ensures var s, s' := Run(Init(), actions), Run(Step(Run(Init(), actions), CollectStart), later);
      exists b :: |s.owner| <= b < |s'.owner| && s'.owner[b] == f
  {
    RunSound(actions);
    var s := Run(Init(), actions);
    StepListed(s, CollectStart);
    RunWanted(Step(s, CollectStart), later, f, |s.owner|);
  }

  /** The pass is done with filesystem f, which moves on at its end or not. */
  ghost predicate FlushOver(s: State, f: nat, completed: bool) {
    && s.collecting && f in s.flush && f !in s.toFlush && s.flushing != Some(f)
    && (f in s.flushed <==> completed)
  }

  lemma StepFlushed(s: State, a: Action, f: nat, completed: bool)
    requires Listed(s) && FlushOver(s, f, completed) && !a.CollectEnd?
    ensures FlushOver(Step(s, a), f, completed)
  {
  }

  lemma {:induction false} RunFlushed(s: State, later: seq<Action>, f: nat, completed: bool)
    requires Listed(s) && FlushOver(s, f, completed) && forall a :: a in later ==> !a.CollectEnd?
    ensures Listed(Run(s, later)) && FlushOver(Run(s, later), f, completed)
  {
    if later != [] {
      RunFlushed(s, later[..|later| - 1], f, completed);
      StepListed(Run(s, later[..|later| - 1]), later[|later| - 1]);
      StepFlushed(Run(s, later[..|later| - 1]), later[|later| - 1], f, completed);
    }
  }

  /** In every run, a pass that has flushed a filesystem moves it to `finish` exactly if the flush was complete. */
  lemma CompletedMovesOn(actions: seq<Action>, f: nat, completed: bool, later: seq<Action>)
    requires Run(Init(), actions).flushing == Some(f) && forall a :: a in later ==> !a.CollectEnd?
    requires Enabled(Run(Step(Run(Init(), actions), FlushEnd(completed)), later), CollectEnd)
    ensures var s' := Step(Run(Step(Run(Init(), actions), FlushEnd(completed)), later), CollectEnd);
      (f in s'.finish <==> completed) && (f in s'.flush <==> !completed)
  {
    RunSound(actions);
    var s := Run(Init(), actions);
    StepListed(s, FlushEnd(completed));
    RunFlushed(Step(s, FlushEnd(completed)), later, f, completed);
  }

  /** What the collector keeps while `Submit` rests: filesystems only go from `flush` to `finish`. */
  ghost predicate Passed(s: State, s': State) {
    && Listed(s') && !s'.submitting && |s'.fs| == |s.fs| && s'.open == s.open
    && s.finish <= s'.finish && s'.flush + s'.finish == s.flush + s.finish
  }

  lemma {:induction false} MergeRest(s: State) returns (actions: seq<Action>)
    requires Listed(s) && !s.submitting
    ensures var s' := Run(s, actions);
      && Passed(s, s') && s'.toMerge == {} && s'.collecting == s.collecting
      && s'.toFlush == s.toFlush && s'.flushing == s.flushing && s'.flushed == s.flushed
    decreases |s.toMerge|
  {
    actions := [];
    if s.toMerge != {} {
      var f :| f in s.toMerge;
      assert Live(s, f);
      Steps(s, Merge(f, []), Merge(f, []));
      StepListed(s, Merge(f, []));
      var more := MergeRest(Step(s, Merge(f, [])));
      RunConcat(s, [Merge(f, [])], more);
      actions := [Merge(f, [])] + more;
    }
  }

  /** One final flush that brings nothing and is complete. */
  lemma FlushOne(s: State, f: nat)
    requires Listed(s) && !s.submitting && s.toMerge == {} && s.flushing.None? && f in s.toFlush
    ensures var s' := Step(Step(s, Choose(f)), FlushEnd(true));
      && Passed(s, s') && s'.toMerge == {} && s'.flushing.None? && s'.collecting == s.collecting
      && s'.toFlush == s.toFlush - {f} && s'.flushed == s.flushed + {f}
  {
    assert Live(s, f);
    StepListed(s, Choose(f));
    StepListed(Step(s, Choose(f)), FlushEnd(true));
  }

  lemma {:induction false} FlushRest(s: State) returns (actions: seq<Action>)
    requires Listed(s) && !s.submitting && s.toMerge == {} && s.flushing.None?
    ensures var s' := Run(s, actions);
      && Passed(s, s') && s'.toMerge == {} && s'.flushing.None? && s'.collecting == s.collecting
      && s'.toFlush == {} && s'.flushed == s.flushed + s.toFlush
    decreases |s.toFlush|
  {
    actions := [];
    if s.toFlush != {} {
      var f :| f in s.toFlush;
      FlushOne(s, f);
      Steps(s, Choose(f), FlushEnd(true));
      var more := FlushRest(Step(Step(s, Choose(f)), FlushEnd(true)));
      RunConcat(s, [Choose(f), FlushEnd(true)], more);
      actions := [Choose(f), FlushEnd(true)] + more;
    }
  }

  /** A pass under way can be ended, and what it has still to flush is then in `finish`. */
  lemma EndPass(s: State) returns (actions: seq<Action>)
    requires Listed(s) && !s.submitting && s.collecting && s.flushing.None?
    ensures var s' := Run(s, actions); Passed(s, s') && !s'.collecting && s.toFlush <= s'.finish
  {
    var merge := MergeRest(s);
    var s1 := Run(s, merge);
    var flush := FlushRest(s1);
    RunConcat(s, merge, flush);
    var s2 := Run(s1, flush);
    Steps(s2, CollectEnd, CollectEnd);
    StepListed(s2, CollectEnd);
    RunConcat(s, merge + flush, [CollectEnd]);
    actions := merge + flush + [CollectEnd];
  }

  lemma FinishPass(s: State) returns (actions: seq<Action>)
    requires Listed(s) && !s.submitting
    ensures var s' := Run(s, actions); Passed(s, s') && !s'.collecting
  {
    actions := [];
    if s.flushing.Some? {
      Steps(s, FlushEnd(false), FlushEnd(false));
      StepListed(s, FlushEnd(false));
      var rest := EndPass(Step(s, FlushEnd(false)));
      RunConcat(s, [FlushEnd(false)], rest);
      actions := [FlushEnd(false)] + rest;
    } else if s.collecting {
      actions := EndPass(s);
    }
  }

  /** A closed filesystem comes to `finish` in the next pass. */
  lemma ReachFinish(s: State, f: nat) returns (actions: seq<Action>)
    requires Listed(s) && !s.submitting && !s.collecting && f in s.flush + s.finish
    ensures var s' := Run(s, actions); Passed(s, s') && f in s'.finish
  {
    Steps(s, CollectStart, CollectStart);
    StepListed(s, CollectStart);
    var rest := EndPass(Step(s, CollectStart));
    RunConcat(s, [CollectStart], rest);
    actions := [CollectStart] + rest;
  }

  /** Once its lists are empty, the next round drops it. */
  lemma LeaveFinish(s: State, f: nat) returns (actions: seq<Action>)
    requires Listed(s) && !s.submitting && f in s.finish
    ensures var s' := Run(s, actions); !Live(s', f) && Empty(s', f)
  {
    var drain := DrainAll(s);
    var s1 := Run(s, drain);
    var round := NextRound(s1);
    RunConcat(s, drain, round);
    actions := drain + round;
    assert Live(s, f) && Empty(s1, f);
  }

  lemma CloseFirst(s: State, f: nat) returns (actions: seq<Action>)
    requires Listed(s) && !s.submitting && !s.collecting && Live(s, f)
    ensures var s' := Run(s, actions); Listed(s') && !s'.submitting && !s'.collecting && f in s'.flush + s'.finish
  {
    actions := [];
    if f in s.open {
      Steps(s, Close(f), Close(f));
      StepListed(s, Close(f));
      actions := [Close(f)];
    }
  }

  /** Both threads come to rest. */
  lemma RestLive(s: State, f: nat) returns (actions: seq<Action>)
    requires Listed(s) && Live(s, f)
    ensures var s' := Run(s, actions); Listed(s') && !s'.submitting && !s'.collecting && Live(s', f)
  {
    var round := FinishRound(s);
    var s1 := Run(s, round);
    var pass := FinishPass(s1);
    RunConcat(s, round, pass);
    actions := round + pass;
  }

  /** From every state of every run, every filesystem can still be closed for good, with nothing left to write. */
  lemma FilesystemCloses(actions: seq<Action>, f: nat) returns (later: seq<Action>)
    requires f < |Run(Init(), actions).fs|
    ensures var s' := Run(Run(Init(), actions), later); !Live(s', f) && Empty(s', f)
  {
    RunSound(actions);
    var s := Run(Init(), actions);
    later := [];
    if Live(s, f) {
      var rest := RestLive(s, f);
      var s1 := Run(s, rest);
      var close := CloseFirst(s1, f);
      var s2 := Run(s1, close);
      var reach := ReachFinish(s2, f);
      var leave := LeaveFinish(Run(s2, reach), f);
      RunConcat(s2, reach, leave);
      RunConcat(s1, close, reach + leave);
      RunConcat(s, rest, close + (reach + leave));
      later := rest + (close + (reach + leave));
    }
  }

  /** n blocks, each a collection of its own. */
  function Singles(n: nat, next: nat, batch: nat): (s: seq<Block>)
    ensures |s| == n && forall i :: 0 <= i < n ==> s[i] == Block(next + i, batch + i, 0)
  {
    seq(n, i requires 0 <= i < n => Block(next + i, batch + i, 0))
  }

  /** The steps of a final flush, with nothing in between, are `AddFlushed`, and lose nothing. */
  lemma {:induction false} UndisturbedFlush(s: State, f: nat, n: nat) returns (actions: seq<Action>)
    requires Enabled(s, Choose(f)) && f !in s.doomed
    ensures var s' := Run(s, actions);
      && s'.flushing == Some(f) && s'.doomed == s.doomed && s'.lost == s.lost
      && s'.next == s.next + n && |s'.owner| == |s.owner| + n
      && s'.fs == s.fs[f := s.fs[f].(dirty := Flushed(s.fs[f].dirty, Singles(n, s.next, |s.owner|)))]
  {
    if n == 0 {
      Steps(s, Choose(f), Choose(f));
      actions := [Choose(f)];
      assert Singles(0, s.next, |s.owner|) == [];
    } else {
      var before := UndisturbedFlush(s, f, n - 1);
      actions := before + [Append];
      AppendMore(s.fs[f].dirty, Run(s, before), f, n - 1, s.next, |s.owner|);
      RunConcat(s, before, [Append]);
      Steps(Run(s, before), Append, Append);
    }
  }

  lemma AppendMore(dirty: seq<seq<Block>>, s: State, f: nat, n: nat, next: nat, batch: nat)
    requires s.flushing == Some(f) && f < |s.fs| && f !in s.doomed && s.next == next + n && |s.owner| == batch + n
    requires s.fs[f].dirty == Flushed(dirty, Singles(n, next, batch))
    ensures var s' := Step(s, Append);
      && s'.flushing == Some(f) && s'.doomed == s.doomed && s'.lost == s.lost
      && s'.next == s.next + 1 && |s'.owner| == |s.owner| + 1
      && s'.fs == s.fs[f := s.fs[f].(dirty := Flushed(dirty, Singles(n + 1, next, batch)))]
  {
    FlushedTwice(dirty, Singles(n, next, batch), [Block(next + n, batch + n, 0)]);
    assert Singles(n + 1, next, batch) == Singles(n, next, batch) + [Block(next + n, batch + n, 0)];
  }

  // ---- A lost block ----------------------------------------------------------------------------

  lemma Extend(actions: seq<Action>, a: Action)
    ensures Run(Init(), actions + [a]) == Step(Run(Init(), actions), a)
  {
    assert (actions + [a])[..|actions|] == actions;
  }

  /** The only filesystem of the example, and who works on it. */
  function Example(l: Lists, collecting: bool, flushing: Option<nat>): State {
    Init().(fs := [l], flush := {0}, collecting := collecting, flushing := flushing, owner := [0, 0], next := 1)
  }

  /** It is opened with nothing to write. */
  lemma ExampleOpened(s: State, n: nat) returns (actions: seq<Action>)
    requires s == Init() && n == 0
    ensures Run(s, actions) ==
      s.(fs := [Lists([], [])], open := {0}, collecting := true, toMerge := {0}, owner := [0])
  {
    ExampleOpen(s, n);
    actions := [Open(n), CollectStart];
    Steps(s, Open(n), CollectStart);
  }

  lemma ExampleOpen(s: State, n: nat)
    requires s.fs == [] && s.open == {} && s.owner == [] && n == 0 && !s.locked && !s.collecting
    requires s.flush == {} && s.toFlush == {} && s.flushed == {} && s.next == 0
    ensures Step(Step(s, Open(n)), CollectStart) ==
      s.(fs := [Lists([], [])], open := {0}, collecting := true, toMerge := {0}, owner := [0])
  {
    assert Numbered(n, s.next, |s.owner|, 0) == [];
    assert Step(s, Open(n)) == s.(fs := [Lists([], [])], open := {0}, owner := [0]);
  }

  lemma ExampleMerge(s: State, sizes: seq<nat>)
    requires s.fs == [Lists([], [])] && s.toMerge == {0} && !s.locked && s.owner == [0] && s.next == 0 && sizes == [1]
    ensures Step(s, Merge(0, sizes)) ==
      s.(fs := [Lists([], [[Block(0, 1, 0)]])], toMerge := {}, owner := [0, 0], next := 1)
  {
    assert sizes[1..] == [];
    assert Numbered(sizes[0], 0, 1, 0) == [Block(0, 1, 0)];
    assert Collected(sizes, 0, 1, 0) == [[Block(0, 1, 0)]] && Sum(sizes) == 1;
    assert Merged([], Collected(sizes, 0, 1, 0)) == Collected(sizes, 0, 1, 0);
    assert s.toMerge - {0} == {} && s.owner + [0] == [0, 0];
  }

  /** One block is collected. */
  lemma ExampleCollected(sizes: seq<nat>) returns (actions: seq<Action>)
    requires sizes == [1]
    ensures Run(Init(), actions) ==
      Example(Lists([], [[Block(0, 1, 0)]]), true, None).(open := {0}, flush := {})
  {
    actions := ExampleOpened(Init(), 0);
    ExampleMerge(Run(Init(), actions), sizes);
    Extend(actions, Merge(0, sizes));
    actions := actions + [Merge(0, sizes)];
  }

  /** It is closed, and the final flush has chosen its first group. */
  lemma ExampleChosen() returns (actions: seq<Action>)
    ensures Run(Init(), actions) == Example(Lists([], [[Block(0, 1, 0)]]), true, Some(0))
  {
    actions := ExampleCollected([1]);
    var l := Lists([], [[Block(0, 1, 0)]]);
    Extend(actions, CollectEnd);
    actions := actions + [CollectEnd];
    Extend(actions, Close(0));
    actions := actions + [Close(0)];
    assert Run(Init(), actions) == Example(l, false, None);
    Extend(actions, CollectStart);
    actions := actions + [CollectStart];
    assert l.dirty[0] + [] == l.dirty[0] && Flushed(l.dirty, []) == l.dirty;
    Extend(actions, Choose(0));
    actions := actions + [Choose(0)];
  }

  /** `Submit` takes the block and erases the group. */
  lemma ExampleTaken() returns (actions: seq<Action>)
    ensures Run(Init(), actions) ==
      Example(Lists([], []), true, Some(0)).(taken := [Taken(Block(0, 1, 0), 0)], round := 1)
  {
    actions := ExampleChosen();
    Extend(actions, SubmitStart);
    actions := actions + [SubmitStart];
    Extend(actions, Lock);
    actions := actions + [Lock];
    var s := Example(Lists([], [[Block(0, 1, 0)]]), true, Some(0)).(submitting := true, toTake := {0}, locked := true);
    assert Run(Init(), actions) == s;
    assert Advanced(s.fs[0]) == Lists([Block(0, 1, 0)], []);
    var takes := UndisturbedTake(s, 0);
    RunConcat(Init(), actions, takes);
    actions := actions + takes;
    Extend(actions, SubmitEnd);
    actions := actions + [SubmitEnd];
  }

  /**
   Now the flush appends its block to the erased group. The filesystem is flushed, found empty
   and dropped, and the block is in no list and was never taken.
   */
  lemma FlushedBlockLost() returns (actions: seq<Action>)
    ensures var s := Run(Init(), actions);
      s.next == 2 && s.lost == {1} && !Live(s, 0) && CountTaken(s.taken, 1) == 0 && All(s.fs, 1) == 0
  {
    actions := ExampleTaken();
    Extend(actions, Append);
    actions := actions + [Append];
    Extend(actions, FlushEnd(true));
    actions := actions + [FlushEnd(true)];
    Extend(actions, CollectEnd);
    actions := actions + [CollectEnd];
    Extend(actions, SubmitStart);
    actions := actions + [SubmitStart];
  }
}
