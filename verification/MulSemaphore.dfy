/**
 The timed semaphore with many waiters (kernel/concurrency/mul_semaphore.cpp) as a state
 machine: every block under the spinlock, every allocation and every raw semaphore call is one
 step. A raw semaphore is a number of tokens; a slot is known by its address, which the
 allocator may hand out again once the slot is deleted.
 */
module MulSemaphore {

  datatype Pc =
    | Idle              // outside `acquire`; its next step looks for a banked release
    | Create            // found none; the slot is to be allocated
    | Push(slot: nat)   // slot allocated and timeout set, second look to come
    | Sleep(slot: nat)  // queued; goes on when the slot has a token
    | Remove(slot: nat) // woken; takes its slot off the queue if it is still there
    | Drop(slot: nat)   // drops the timeout, under the lock of the scheduler that also runs it
    | Delete(slot: nat)

  datatype State = State(
    banked: nat,               // release_count
    waiting: seq<nat>,
    slots: set<nat>,           // slots allocated now
    tokens: map<nat, nat>,
    armed: set<nat>,           // slots whose timeout has neither fired nor been dropped
    pcs: seq<Pc>,
    // History: calls of release, acquires without sleep, pushes so far, the push each queued slot
    // came with, and the pushes whose slots `release` has popped, in the order it did so.
    releases: nat, fast: nat, pushes: nat, stamps: map<nat, nat>, popped: seq<nat>)

  datatype Action =
    | Go(u: nat, addr: nat)   // thread u makes its next step; an allocation returns `addr`
    | Timeout(slot: nat)
    | Release

  function Init(threads: nat): State {
    State(0, [], {}, map[], {}, seq(threads, _ => Idle), 0, 0, 0, map[], [])
  }

  predicate HasSlot(p: Pc) {
    !p.Idle? && !p.Create?
  }

  /** Erases the first occurrence of x. */
  function Without(s: seq<nat>, x: nat): seq<nat> {
    if s == [] then [] else if s[0] == x then s[1..] else [s[0]] + Without(s[1..], x)
  }

  function AddToken(s: State, x: nat): State {
    s.(tokens := s.tokens[x := (if x in s.tokens then s.tokens[x] else 0) + 1])
  }

  function Stamp(s: State, x: nat): nat {
    if x in s.stamps then s.stamps[x] else 0
  }

  predicate Enabled(s: State, a: Action) {
    match a
    case Go(u, addr) =>
      && u < |s.pcs|
      && (s.pcs[u].Create? ==> addr !in s.slots)
      && (s.pcs[u].Sleep? ==> s.pcs[u].slot in s.tokens && s.tokens[s.pcs[u].slot] > 0)
    case Timeout(slot) => slot in s.armed
    case Release => true
  }

  function Step(s: State, a: Action): State {
    if !Enabled(s, a) then s else
    match a
    case Go(u, addr) => Next(s, u, addr)
    case Timeout(slot) => AddToken(s, slot).(armed := s.armed - {slot})
    case Release =>
      if s.waiting != []
      then AddToken(s, s.waiting[0]).(waiting := s.waiting[1..], releases := s.releases + 1,
                                      popped := s.popped + [Stamp(s, s.waiting[0])])
      else s.(banked := s.banked + 1, releases := s.releases + 1)
  }

  function At(s: State, u: nat, p: Pc): State
    requires u < |s.pcs|
  {
    s.(pcs := s.pcs[u := p])
  }

  /** The next step of `acquire`. */
  function Next(s: State, u: nat, addr: nat): State
    requires Enabled(s, Go(u, addr))
  {
    match s.pcs[u]
    case Idle =>
      if s.banked > 0 then s.(banked := s.banked - 1, fast := s.fast + 1) else At(s, u, Create)
    case Create =>
      At(s, u, Push(addr)).(slots := s.slots + {addr}, tokens := s.tokens[addr := 0], armed := s.armed + {addr})
    case Push(x) =>
      if s.banked == 0
      then At(s, u, Sleep(x)).(waiting := s.waiting + [x], pushes := s.pushes + 1, stamps := s.stamps[x := s.pushes])
      else At(s, u, Drop(x)).(banked := s.banked - 1, fast := s.fast + 1)
    case Sleep(x) => At(s, u, Remove(x)).(tokens := s.tokens[x := s.tokens[x] - 1])
    case Remove(x) => At(s, u, Drop(x)).(waiting := Without(s.waiting, x))
    case Drop(x) => At(s, u, Delete(x)).(armed := s.armed - {x})
    case Delete(x) => At(s, u, Idle).(slots := s.slots - {x})
  }

  function Run(s: State, actions: seq<Action>): State {
    if actions == [] then s else Step(Run(s, actions[..|actions| - 1]), actions[|actions| - 1])
  }

  // ---- Invariants --------------------------------------------------------------------------

  /** Releases are banked only while nobody waits, and every release is accounted for. */
  ghost predicate Balanced(s: State) {
    && (s.banked == 0 || s.waiting == [])
    && s.releases == s.banked + s.fast + |s.popped|
  }

  /** The allocated slots are those that threads hold, one each. */
  ghost predicate Owned(s: State) {
    && (forall u :: 0 <= u < |s.pcs| && HasSlot(s.pcs[u]) ==> s.pcs[u].slot in s.slots)
    && (forall u, v :: 0 <= u < v < |s.pcs| && HasSlot(s.pcs[u]) && HasSlot(s.pcs[v]) ==>
          s.pcs[u].slot != s.pcs[v].slot)
    && (forall x :: x in s.slots ==> exists u: nat :: Holds(s, u, x))
  }

  /** Armed timeouts are of allocated slots that are not about to be deleted. */
  ghost predicate Armed(s: State) {
    && s.armed <= s.slots
    && (forall u :: 0 <= u < |s.pcs| && s.pcs[u].Delete? ==> s.pcs[u].slot !in s.armed)
  }

  predicate Holds(s: State, u: nat, x: nat) {
    u < |s.pcs| && HasSlot(s.pcs[u]) && s.pcs[u].slot == x
  }

  predicate Waits(s: State, u: nat, x: nat) {
    u < |s.pcs| && (s.pcs[u] == Sleep(x) || s.pcs[u] == Remove(x))
  }

  /** A queued slot is queued once and belongs to a thread that has yet to take it off. */
  ghost predicate Queued(s: State) {
    && Distinct(s.waiting)
    && (forall x :: x in s.waiting ==> exists u: nat :: Waits(s, u, x))
  }

  /** One for a timeout that has fired, one for a slot that has been popped. */
  function Signals(s: State, x: nat): nat {
    (if x in s.armed then 0 else 1) + (if x in s.waiting then 0 else 1)
  }

  predicate Tokens(s: State, x: nat, n: int) {
    x in s.tokens && s.tokens[x] == n
  }

  /** The tokens of a slot are exactly its signals, less the one its thread has gone on with. */
  ghost predicate Signalled(s: State) {
    forall u :: 0 <= u < |s.pcs| ==>
      match s.pcs[u]
      case Push(x) => Tokens(s, x, if x in s.armed then 0 else 1)
      case Sleep(x) => Tokens(s, x, Signals(s, x))
      case Remove(x) => Tokens(s, x, Signals(s, x) - 1)
      case _ => true
  }

  ghost predicate Rising(s: State, waiting: seq<nat>) {
    forall i, j :: 0 <= i < j < |waiting| ==> Stamp(s, waiting[i]) < Stamp(s, waiting[j])
  }

  /** The queue is in the order of the pushes, and nothing popped came after what is still queued. */
  ghost predicate Fifo(s: State) {
    && Rising(s, s.waiting)
    && (forall i :: 0 <= i < |s.waiting| ==> Stamp(s, s.waiting[i]) < s.pushes)
    && (forall i, j :: 0 <= i < |s.popped| && 0 <= j < |s.waiting| ==> s.popped[i] < Stamp(s, s.waiting[j]))
    && (forall i :: 0 <= i < |s.popped| ==> s.popped[i] < s.pushes)
    && (forall i, j :: 0 <= i < j < |s.popped| ==> s.popped[i] < s.popped[j])
  }

  ghost predicate Sound(s: State) {
    Balanced(s) && Owned(s) && Armed(s) && Queued(s) && Signalled(s) && Fifo(s)
  }

  ghost predicate Distinct(s: seq<nat>) {
    forall i, j :: 0 <= i < j < |s| ==> s[i] != s[j]
  }

  lemma DistinctMore(s: seq<nat>, x: nat)
    requires Distinct(s) && x !in s
    ensures Distinct([x] + s) && Distinct(s + [x])
  {
  }

  lemma {:induction false} WithoutFacts(s: seq<nat>, x: nat)
    requires Distinct(s)
    ensures Distinct(Without(s, x))
    ensures forall y :: y in Without(s, x) <==> y in s && y != x
  {
    if s != [] && s[0] != x {
      WithoutFacts(s[1..], x);
      assert s[0] !in s[1..];
      DistinctMore(Without(s[1..], x), s[0]);
    }
  }

  lemma WaitsElsewhere(s: State, s': State, u: nat, x: nat)
    requires (exists v: nat :: Waits(s, v, x)) && u < |s.pcs| == |s'.pcs| && s'.pcs == s.pcs[u := s'.pcs[u]]
    requires Waits(s, u, x) ==> Waits(s', u, x)
    ensures exists v: nat :: Waits(s', v, x)
  {
    var v: nat :| Waits(s, v, x);
    assert Waits(s', v, x);
  }

  lemma GoBalanced(s: State, u: nat, addr: nat)
    requires Balanced(s) && Enabled(s, Go(u, addr))
    ensures Balanced(Next(s, u, addr))
  {
  }

  /** Thread u moves on and keeps its slot, or has none before and after. */
  lemma MoveOwned(s: State, s': State, u: nat)
    requires Owned(s) && u < |s.pcs| == |s'.pcs| && s'.pcs == s.pcs[u := s'.pcs[u]] && s'.slots == s.slots
    requires HasSlot(s'.pcs[u]) == HasSlot(s.pcs[u]) && (HasSlot(s.pcs[u]) ==> s'.pcs[u].slot == s.pcs[u].slot)
    ensures Owned(s')
  {
    forall x | x in s'.slots
      ensures exists v: nat :: Holds(s', v, x)
    {
      var v: nat :| Holds(s, v, x);
      assert Holds(s', v, x);
    }
  }

  lemma CreateOwned(s: State, s': State, u: nat, x: nat)
    requires Owned(s) && u < |s.pcs| && !HasSlot(s.pcs[u]) && x !in s.slots
    requires s'.pcs == s.pcs[u := Push(x)] && s'.slots == s.slots + {x}
    ensures Owned(s')
  {
    assert Holds(s', u, x);
    forall y | y in s.slots
      ensures exists v: nat :: Holds(s', v, y)
    {
      var v: nat :| Holds(s, v, y);
      assert Holds(s', v, y);
    }
  }

  lemma DeleteOwned(s: State, s': State, u: nat, x: nat)
    requires Owned(s) && Holds(s, u, x) && s'.pcs == s.pcs[u := Idle] && s'.slots == s.slots - {x}
    ensures Owned(s')
  {
    forall y | y in s'.slots
      ensures exists v: nat :: Holds(s', v, y)
    {
      var v: nat :| Holds(s, v, y);
      assert Holds(s', v, y);
    }
  }

  lemma GoOwned(s: State, u: nat, addr: nat)
    requires Owned(s) && Enabled(s, Go(u, addr))
    ensures Owned(Next(s, u, addr))
  {
    var s', p := Next(s, u, addr), s.pcs[u];
    if p.Create? {
      CreateOwned(s, s', u, addr);
    } else if p.Delete? {
      DeleteOwned(s, s', u, p.slot);
    } else {
      MoveOwned(s, s', u);
    }
  }

  lemma GoArmed(s: State, u: nat, addr: nat)
    requires Owned(s) && Armed(s) && Enabled(s, Go(u, addr))
    ensures Armed(Next(s, u, addr))
  {
  }

  lemma GoDistinct(s: State, u: nat, addr: nat)
    requires Owned(s) && Queued(s) && Enabled(s, Go(u, addr))
    ensures Distinct(Next(s, u, addr).waiting)
  {
    var p := s.pcs[u];
    if p.Remove? {
      WithoutFacts(s.waiting, p.slot);
    } else if p.Push? {
      NotQueuedYet(s, u);
      DistinctMore(s.waiting, p.slot);
    }
  }

  lemma GoQueued(s: State, u: nat, addr: nat)
    requires Owned(s) && Queued(s) && Enabled(s, Go(u, addr))
    ensures Queued(Next(s, u, addr))
  {
    GoDistinct(s, u, addr);
    var s', p := Next(s, u, addr), s.pcs[u];
    if p.Remove? {
      WithoutFacts(s.waiting, p.slot);
    }
    forall x | x in s'.waiting
      ensures exists v: nat :: Waits(s', v, x)
    {
      if x in s.waiting {
        WaitsElsewhere(s, s', u, x);
      } else {
        assert Waits(s', u, x);
      }
    }
  }

  /** Erasing a slot keeps the order of the others. */
  lemma {:induction false} WithoutRising(s: State, waiting: seq<nat>, x: nat)
    requires Distinct(waiting) && Rising(s, waiting)
    ensures Rising(s, Without(waiting, x))
    ensures forall y :: y in Without(waiting, x) ==> y in waiting
  {
    if waiting != [] && waiting[0] != x {
      WithoutRising(s, waiting[1..], x);
      var rest := Without(waiting[1..], x);
      forall i | 0 <= i < |rest|
        ensures Stamp(s, waiting[0]) < Stamp(s, rest[i])
      {
        assert rest[i] in waiting[1..];
      }
    }
  }

  lemma RemoveFifo(s: State, s': State, x: nat)
    requires Distinct(s.waiting) && Fifo(s) && s'.waiting == Without(s.waiting, x)
    requires s'.stamps == s.stamps && s'.pushes == s.pushes && s'.popped == s.popped
    ensures Fifo(s')
  {
    WithoutRising(s, s.waiting, x);
    forall i | 0 <= i < |s'.waiting|
      ensures exists j :: 0 <= j < |s.waiting| && s.waiting[j] == s'.waiting[i]
    {
      assert s'.waiting[i] in s.waiting;
    }
  }

  lemma PushFifo(s: State, s': State, x: nat)
    requires Fifo(s) && x !in s.waiting && s'.waiting == s.waiting + [x]
    requires s'.stamps == s.stamps[x := s.pushes] && s'.pushes == s.pushes + 1 && s'.popped == s.popped
    ensures Fifo(s')
  {
    forall i | 0 <= i < |s.waiting|
      ensures Stamp(s', s'.waiting[i]) == Stamp(s, s.waiting[i])
    {
      assert s.waiting[i] in s.waiting;
    }
  }

  lemma GoFifo(s: State, u: nat, addr: nat)
    requires Owned(s) && Queued(s) && Fifo(s) && Enabled(s, Go(u, addr))
    ensures Fifo(Next(s, u, addr))
  {
    var p, s' := s.pcs[u], Next(s, u, addr);
    if p.Remove? {
      RemoveFifo(s, s', p.slot);
    } else if p.Push? && s.banked == 0 {
      NotQueuedYet(s, u);
      PushFifo(s, s', p.slot);
    } else {
      assert s'.waiting == s.waiting && s'.stamps == s.stamps && s'.pushes == s.pushes && s'.popped == s.popped;
      assert forall i :: 0 <= i < |s.waiting| ==> Stamp(s', s'.waiting[i]) == Stamp(s, s.waiting[i]);
    }
  }

  /** Thread u has a slot of its own, and the slot of no other thread changes. */
  lemma OthersSignalled(s: State, s': State, u: nat)
    requires Owned(s) && Signalled(s) && u < |s.pcs| == |s'.pcs| && s'.pcs == s.pcs[u := s'.pcs[u]]
    requires forall v :: 0 <= v < |s.pcs| && v != u && HasSlot(s.pcs[v]) ==> var x := s.pcs[v].slot;
      && (x in s'.armed <==> x in s.armed) && (x in s'.waiting <==> x in s.waiting)
      && (x in s.tokens ==> x in s'.tokens && s'.tokens[x] == s.tokens[x])
    requires match s'.pcs[u]
      case Push(x) => Tokens(s', x, if x in s'.armed then 0 else 1)
      case Sleep(x) => Tokens(s', x, Signals(s', x))
      case Remove(x) => Tokens(s', x, Signals(s', x) - 1)
      case _ => true
    ensures Signalled(s')
  {
    forall v | 0 <= v < |s'.pcs| && v != u
      ensures match s'.pcs[v]
        case Push(x) => Tokens(s', x, if x in s'.armed then 0 else 1)
        case Sleep(x) => Tokens(s', x, Signals(s', x))
        case Remove(x) => Tokens(s', x, Signals(s', x) - 1)
        case _ => true
    {
      assert s'.pcs[v] == s.pcs[v];
    }
  }

  lemma NotQueuedYet(s: State, u: nat)
    requires Owned(s) && Queued(s) && u < |s.pcs| && s.pcs[u].Push?
    ensures s.pcs[u].slot !in s.waiting
  {
    forall x | x in s.waiting
      ensures x != s.pcs[u].slot
    {
      var v: nat :| Waits(s, v, x);
    }
  }

  lemma GoSignalled(s: State, u: nat, addr: nat)
    requires Owned(s) && Queued(s) && Armed(s) && Signalled(s) && Enabled(s, Go(u, addr))
    ensures Signalled(Next(s, u, addr))
  {
    var s', p := Next(s, u, addr), s.pcs[u];
    if p.Remove? {
      WithoutFacts(s.waiting, p.slot);
    } else if p.Push? {
      NotQueuedYet(s, u);
    }
    OthersSignalled(s, s', u);
  }

  lemma SignalOwned(s: State, a: Action)
    requires Owned(s) && Armed(s) && !a.Go?
    ensures Owned(Step(s, a)) && Armed(Step(s, a))
  {
    assert forall u: nat, x :: Holds(s, u, x) ==> Holds(Step(s, a), u, x);
  }

  lemma SignalQueued(s: State, a: Action)
    requires Queued(s) && !a.Go?
    ensures Queued(Step(s, a))
  {
    var s' := Step(s, a);
    forall x | x in s'.waiting
      ensures exists v: nat :: Waits(s', v, x)
    {
      assert x in s.waiting;
      var v: nat :| Waits(s, v, x);
      assert Waits(s', v, x);
    }
  }

  lemma TimeoutSignalled(s: State, slot: nat)
    requires Signalled(s) && slot in s.armed
    ensures Signalled(Step(s, Timeout(slot)))
  {
  }

  lemma ReleaseSignalled(s: State)
    requires Owned(s) && Queued(s) && Signalled(s)
    ensures Signalled(Step(s, Release))
  {
    if s.waiting != [] {
      var x := s.waiting[0];
      assert x in s.waiting;
      var w: nat :| Waits(s, w, x);
      assert forall y :: y in s.waiting[1..] <==> y in s.waiting && y != x;
      forall v | 0 <= v < |s.pcs| && s.pcs[v].Push?
        ensures s.pcs[v].slot != x
      {
      }
    }
  }

  lemma ReleaseFifo(s: State)
    requires Fifo(s)
    ensures Fifo(Step(s, Release))
  {
    if s.waiting != [] {
      var s' := Step(s, Release);
      forall i | 0 <= i < |s'.waiting|
        ensures s'.waiting[i] == s.waiting[i + 1] && Stamp(s', s'.waiting[i]) == Stamp(s, s.waiting[i + 1])
      {
      }
    }
  }

  lemma StepSound(s: State, a: Action)
    requires Sound(s)
    ensures Sound(Step(s, a))
  {
    match a
    case Go(u, addr) =>
      if Enabled(s, a) {
        GoBalanced(s, u, addr);
        GoOwned(s, u, addr);
        GoArmed(s, u, addr);
        GoQueued(s, u, addr);
        GoSignalled(s, u, addr);
        GoFifo(s, u, addr);
      }
    case Timeout(slot) =>
      SignalOwned(s, a);
      SignalQueued(s, a);
      if Enabled(s, a) {
        TimeoutSignalled(s, slot);
      }
    case Release =>
      SignalOwned(s, a);
      SignalQueued(s, a);
      ReleaseSignalled(s);
      ReleaseFifo(s);
  }

  lemma {:induction false} RunSound(threads: nat, actions: seq<Action>)
    ensures Sound(Run(Init(threads), actions))
  {
    if actions != [] {
      RunSound(threads, actions[..|actions| - 1]);
      StepSound(Run(Init(threads), actions[..|actions| - 1]), actions[|actions| - 1]);
    }
  }

  /**
   In every interleaving, with timeouts firing at any time: banked releases and waiters are
   never both present, every release is banked, taken at once or handed to a popped slot, the
   slots that `release` and timeouts signal are allocated, a sleeper can go on exactly when its
   slot was popped or its timeout has fired, with one token for each, and every slot allocated is
   still in the hands of a thread that will delete it. Slots are popped in the order they were
   pushed.
   */
  lemma SemaphoreSafe(threads: nat, actions: seq<Action>)
    ensures var s := Run(Init(threads), actions);
      && (s.banked == 0 || s.waiting == [])
      && s.releases == s.banked + s.fast + |s.popped|
      && (forall x :: x in s.waiting || Enabled(s, Timeout(x)) ==> x in s.slots)
      && (forall u :: 0 <= u < |s.pcs| && s.pcs[u].Sleep? ==>
            (Enabled(s, Go(u, 0)) <==> s.pcs[u].slot !in s.waiting || s.pcs[u].slot !in s.armed))
      && (forall u :: 0 <= u < |s.pcs| && s.pcs[u].Sleep? ==> Tokens(s, s.pcs[u].slot, Signals(s, s.pcs[u].slot)))
      && (forall x :: x in s.slots ==> exists u: nat :: Holds(s, u, x))
      && (forall i, j :: 0 <= i < j < |s.popped| ==> s.popped[i] < s.popped[j])
      && (forall i, j :: 0 <= i < |s.popped| && 0 <= j < |s.waiting| ==> s.popped[i] < Stamp(s, s.waiting[j]))
  {
    RunSound(threads, actions);
    var s := Run(Init(threads), actions);
    forall x | x in s.waiting
      ensures x in s.slots
    {
      var u: nat :| Waits(s, u, x);
    }
  }

  /** With a release in the bank, `acquire` takes it and returns at once: no slot, no sleep. */
  lemma FastAcquire(s: State, u: nat, addr: nat)
    requires u < |s.pcs| && s.pcs[u].Idle? && s.banked > 0
    ensures Step(s, Go(u, addr)) == s.(banked := s.banked - 1, fast := s.fast + 1)
  {
  }

  // ---- Every acquire returns -----------------------------------------------------------------

  /** How far a thread is from the end of `acquire`. */
  function Rank(s: State, u: nat): nat
    requires u < |s.pcs|
  {
    match s.pcs[u]
    case Idle => 0
    case Delete(_) => 1
    case Drop(_) => 2
    case Remove(_) => 3
    case Sleep(x) => if x in s.tokens && s.tokens[x] > 0 then 4 else 5
    case Push(_) => 6
    case Create => 7
  }

  /** An address that the allocator can return. */
  lemma {:induction false} FreshAddress(slots: set<nat>) returns (addr: nat)
    ensures forall x :: x in slots ==> x < addr
    decreases |slots|
  {
    addr := 0;
    if slots != {} {
      var x :| x in slots;
      var rest := FreshAddress(slots - {x});
      addr := if x < rest then rest else x + 1;
      assert slots == (slots - {x}) + {x};
    }
  }

  /** The next step of the thread, or its timeout if it sleeps without a token. */
  lemma Nearer(s: State, u: nat) returns (a: Action)
    requires Sound(s) && u < |s.pcs| && !s.pcs[u].Idle?
    ensures Sound(Step(s, a)) && |Step(s, a).pcs| == |s.pcs| && Rank(Step(s, a), u) < Rank(s, u)
    ensures a == Timeout(if s.pcs[u].Sleep? then s.pcs[u].slot else 0) || (a.Go? && a.u == u)
  {
    var addr := FreshAddress(s.slots);
    a := Go(u, addr);
    if Rank(s, u) == 5 {
      a := Timeout(s.pcs[u].slot);
    }
    StepSound(s, a);
  }

  /** A thread in `acquire` gets out of it by its own steps and its own timeout, whatever the others do not do. */
  lemma {:induction false} Returns(s: State, u: nat) returns (later: seq<Action>)
    requires Sound(s) && u < |s.pcs|
    ensures var s' := Run(s, later); |s'.pcs| == |s.pcs| && s'.pcs[u].Idle?
    ensures |later| <= Rank(s, u)
    decreases Rank(s, u)
  {
    later := [];
    if !s.pcs[u].Idle? {
      var a := Nearer(s, u);
      var more := Returns(Step(s, a), u);
      assert [a][..0] == [] && Run(s, [a]) == Step(s, a);
      RunTwice(s, [a], more);
      later := [a] + more;
    }
  }

  lemma {:induction false} RunTwice(s: State, a: seq<Action>, b: seq<Action>)
    ensures Run(s, a + b) == Run(Run(s, a), b)
  {
    if b == [] {
      assert a + b == a;
    } else {
      assert (a + b)[..|a + b| - 1] == a + b[..|b| - 1];
      RunTwice(s, a, b[..|b| - 1]);
    }
  }

  /** From every state of every run, every thread in `acquire` can return within seven steps of its own. */
  lemma AcquireReturns(threads: nat, actions: seq<Action>, u: nat) returns (later: seq<Action>)
    requires u < |Run(Init(threads), actions).pcs|
    ensures var s' := Run(Run(Init(threads), actions), later); u < |s'.pcs| && s'.pcs[u].Idle?
    ensures |later| <= 7
  {
    RunSound(threads, actions);
    later := Returns(Run(Init(threads), actions), u);
  }
}
