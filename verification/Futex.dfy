/** The futex queue (kernel/exec/futex.cpp): the methods that run under its spinlock. */
module FutexQueue {

  /** A queued wait. `id` stands for the call context that is to be completed. */
  datatype Entry = Entry(id: nat, addr: nat, pid: nat, tid: nat)

  predicate Matches(e: Entry, pid: nat, addr: nat) {
    e.pid == pid && e.addr == addr
  }

  /** The waits of process pid on addr, in queue order. */
  function Matching(q: seq<Entry>, pid: nat, addr: nat): seq<Entry> {
    if q == [] then []
    else Matching(q[..|q| - 1], pid, addr) + if Matches(q[|q| - 1], pid, addr) then [q[|q| - 1]] else []
  }

  /** All other waits, in queue order. */
  function Others(q: seq<Entry>, pid: nat, addr: nat): seq<Entry> {
    if q == [] then []
    else Others(q[..|q| - 1], pid, addr) + if Matches(q[|q| - 1], pid, addr) then [] else [q[|q| - 1]]
  }

  lemma Longer(q: seq<Entry>, c: nat, pid: nat, addr: nat)
    requires c < |q|
    ensures Matching(q[..c + 1], pid, addr) ==
            Matching(q[..c], pid, addr) + if Matches(q[c], pid, addr) then [q[c]] else []
    ensures Others(q[..c + 1], pid, addr) ==
            Others(q[..c], pid, addr) + if Matches(q[c], pid, addr) then [] else [q[c]]
  {
    assert q[..c + 1][..c] == q[..c];
  }

  /** Nothing that matches is left among the others, and all that was taken matches. */
  lemma {:induction false} Separated(q: seq<Entry>, pid: nat, addr: nat)
    ensures forall e :: e in Matching(q, pid, addr) ==> Matches(e, pid, addr)
    ensures forall e :: e in Others(q, pid, addr) ==> !Matches(e, pid, addr)
  {
    if q != [] {
      Separated(q[..|q| - 1], pid, addr);
    }
  }

  /** The loop position: `head` are the waits passed over, the rest of the queue is still to come. */
  lemma Erase(q: seq<Entry>, c: nat, head: seq<Entry>, queue: seq<Entry>)
    requires c < |q| && queue == head + q[c..]
    ensures queue[|head|] == q[c]
    ensures queue[..|head|] + queue[|head| + 1..] == head + q[c + 1..]
    ensures queue == head + [q[c]] + q[c + 1..]
  {
  }

  /** The index of the first wait of a thread on an address, or the length of the queue. */
  function Find(q: seq<Entry>, addr: nat, pid: nat, tid: nat): (i: nat)
    ensures i <= |q|
    ensures i < |q| ==> q[i].addr == addr && q[i].pid == pid && q[i].tid == tid
    ensures forall j :: 0 <= j < i ==> !(q[j].addr == addr && q[j].pid == pid && q[j].tid == tid)
  {
    if q == [] then 0
    else if q[0].addr == addr && q[0].pid == pid && q[0].tid == tid then 0
    else 1 + Find(q[1..], addr, pid, tid)
  }

  function RemovedAt(q: seq<Entry>, i: nat): (r: seq<Entry>)
    requires i < |q|
    ensures |r| == |q| - 1
    ensures forall j :: 0 <= j < |r| ==> r[j] == if j < i then q[j] else q[j + 1]
  {
    q[..i] + q[i + 1..]
  }

  class Queue {
    var waiting: seq<Entry>
    var aborters: map<(nat, nat), Entry>  // the aborter each thread has registered, by the wait it was made for

    constructor ()
      ensures waiting == [] && aborters == map[]
    {
      waiting, aborters := [], map[];
    }

    /**
     The locked loop of `Wake` (and, without a limit, of `WakeAll`): the queue is cut at some
     point c; of the part before c exactly the matching waits are taken, in order, and
     everything else stays in order.
     */
    method Take(pid: nat, addr: nat, limit: int, all: bool) returns (wakeups: seq<Entry>, ghost c: nat)
      modifies this`waiting
      ensures c <= |old(waiting)|
      ensures wakeups == Matching(old(waiting)[..c], pid, addr)
      ensures waiting == Others(old(waiting)[..c], pid, addr) + old(waiting)[c..]
      ensures if all then c == |old(waiting)| else |wakeups| <= limit || wakeups == []
      ensures !all && |wakeups| < limit ==> c == |old(waiting)|
    {
      ghost var q := waiting;
      ghost var head: seq<Entry> := [];
      wakeups, c := [], 0;
      var i := 0;
      while i < |waiting| && (all || |wakeups| < limit)
        invariant c <= |q| && i == |head| && head == Others(q[..c], pid, addr)
        invariant wakeups == Matching(q[..c], pid, addr)
        invariant waiting == head + q[c..]
        invariant all || |wakeups| <= limit || wakeups == []
        decreases |q| - c
      {
        Longer(q, c, pid, addr);
        Erase(q, c, head, waiting);
        var w := waiting[i];
        if w.pid == pid && w.addr == addr {
          wakeups := wakeups + [w];
          waiting := waiting[..i] + waiting[i + 1..];
        } else {
          i := i + 1;
          head := head + [w];
        }
        c := c + 1;
      }
    }

    /** `Wake`: takes exactly the first n matching waits, or all of them when there are fewer. */
    method Wake(pid: nat, addr: nat, n: int) returns (wakeups: seq<Entry>)
      modifies this`waiting
      ensures var all := Matching(old(waiting), pid, addr);
        wakeups == if n <= 0 then [] else if n < |all| then all[..n] else all
      ensures exists c ::
        && 0 <= c <= |old(waiting)| && wakeups == Matching(old(waiting)[..c], pid, addr)
        && waiting == Others(old(waiting)[..c], pid, addr) + old(waiting)[c..]
    {
      ghost var c;
      wakeups, c := Take(pid, addr, n, false);
      MatchingPrefix(old(waiting), c, pid, addr);
      assert old(waiting)[..|old(waiting)|] == old(waiting);
    }

    /** `WakeAll`: no matching wait stays behind, and the others keep their order. */
    method WakeAll(pid: nat, addr: nat) returns (wakeups: seq<Entry>)
      modifies this`waiting
      ensures wakeups == Matching(old(waiting), pid, addr)
      ensures waiting == Others(old(waiting), pid, addr)
    {
      ghost var c;
      wakeups, c := Take(pid, addr, 0, true);
      assert old(waiting)[..|old(waiting)|] == old(waiting);
    }

    /**
     `Wait`: `compared` is what the compare-and-exchange saw, `reread` what is in memory once the
     lock is held. Queued at the end, with an aborter registered, exactly when both are the
     expected value. With a signal pending the aborter runs at once and takes off the first wait
     of the thread on the address: the new one, unless the thread had queued one before.
     */
    method Wait(val: nat, compared: nat, reread: nat, e: Entry, pending: bool) returns (queued: bool, interrupted: bool)
      modifies this
      ensures queued <==> compared == val && reread == val
      ensures aborters == if queued then old(aborters)[(e.pid, e.tid) := e] else old(aborters)
      ensures interrupted <==> queued && pending
      ensures !queued ==> waiting == old(waiting)
      ensures queued && !pending ==> waiting == old(waiting) + [e]
      ensures interrupted ==> var q := old(waiting) + [e];
        var i := Find(q, e.addr, e.pid, e.tid);
        && i < |q| && waiting == RemovedAt(q, i)
        && (Find(old(waiting), e.addr, e.pid, e.tid) == |old(waiting)| ==> waiting == old(waiting))
    {
      queued, interrupted := false, false;
      if val == compared {
        if reread == compared {
          ghost var q := waiting + [e];
          waiting := waiting + [e];
          aborters := aborters[(e.pid, e.tid) := e];
          queued := true;
          assert q[|q| - 1] == e;
          if pending {
            var a := aborters[(e.pid, e.tid)];
            interrupted := Abort(a.addr, a.pid, a.tid);
            if Find(old(waiting), e.addr, e.pid, e.tid) == |old(waiting)| {
              assert forall j :: 0 <= j < |q| - 1 ==> q[j] == old(waiting)[j];
              assert Find(q, e.addr, e.pid, e.tid) == |q| - 1;
            }
          }
        }
      }
    }

    /** The locked part of the aborter: removes the first wait of that thread on that address. */
    method Abort(addr: nat, pid: nat, tid: nat) returns (found: bool)
      modifies this`waiting
      ensures var i := Find(old(waiting), addr, pid, tid);
        && (found <==> i < |old(waiting)|)
        && waiting == if found then RemovedAt(old(waiting), i) else old(waiting)
    {
      ghost var q := waiting;
      var i := 0;
      while i < |waiting|
        invariant i <= |waiting| && waiting == q
        invariant forall j :: 0 <= j < i ==> !(q[j].addr == addr && q[j].pid == pid && q[j].tid == tid)
      {
        if waiting[i].addr == addr && waiting[i].pid == pid && waiting[i].tid == tid {
          waiting := waiting[..i] + waiting[i + 1..];
          return true;
        }
        i := i + 1;
      }
      return false;
    }
  }

  /** The matching waits before a cut are the first of all matching waits. */
  lemma {:induction false} MatchingPrefix(q: seq<Entry>, c: nat, pid: nat, addr: nat)
    requires c <= |q|
    ensures Matching(q[..c], pid, addr) <= Matching(q, pid, addr)
  {
    if c == |q| {
      assert q[..c] == q;
    } else {
      MatchingPrefix(q[..|q| - 1], c, pid, addr);
      assert q[..|q| - 1][..c] == q[..c];
    }
  }
}

/**
 Completion of futex waits over whole runs. A wake takes waits off the queue under the lock and
 completes them later; an aborter removes the first wait of its thread and address, and then
 completes the wait it was made for.
 */
module FutexRuns {
  import opened FutexQueue

  datatype Thread = Thread(pid: nat, tid: nat)

  /**
   `made` are the waits ever queued, numbered in that order. `popped` are those taken off the queue but not yet
   completed, `done` the completions so far, `current` the last wait of each thread.
   */
  datatype State = State(
    made: seq<Entry>, waiting: seq<Entry>, popped: seq<nat>, done: seq<nat>, current: map<Thread, nat>)

  datatype Action =
    | Enqueue(addr: nat, th: Thread)
    | Wake(pid: nat, addr: nat, cut: nat)           // `Wake` or `WakeAll`, by where it stopped
    | Complete(i: nat)                              // the completion call for one popped wait
    | Abort(id: nat)                                // the aborter made for wait `id`

  function Init(): State {
    State([], [], [], [], map[])
  }

  /** The place of the wait the aborter of wait `id` finds: it looks for address and thread only. */
  function Found(s: State, id: nat): nat
    requires id < |s.made|
  {
    Find(s.waiting, s.made[id].addr, s.made[id].pid, s.made[id].tid)
  }

  function Aborted(s: State, id: nat): State
    requires id < |s.made|
  {
    var i := Found(s, id);
    if i < |s.waiting| then s.(waiting := s.waiting[..i] + s.waiting[i + 1..], popped := s.popped + [id]) else s
  }

  /** Any thread may wait at any time, and an aborter may run any time after it was made. */
  predicate Enabled(s: State, a: Action) {
    match a
    case Enqueue(addr, th) => true
    case Wake(pid, addr, cut) => cut <= |s.waiting|
    case Complete(i) => i < |s.popped|
    case Abort(id) => id < |s.made|
  }

  function Step(s: State, a: Action): State {
    if !Enabled(s, a) then s else
    match a
    case Enqueue(addr, th) =>
      var e := Entry(|s.made|, addr, th.pid, th.tid);
      s.(made := s.made + [e], waiting := s.waiting + [e], current := s.current[th := e.id])
    case Wake(pid, addr, cut) =>
      s.(waiting := Others(s.waiting[..cut], pid, addr) + s.waiting[cut..],
         popped := s.popped + Ids(Matching(s.waiting[..cut], pid, addr)))
    case Complete(i) => s.(popped := s.popped[..i] + s.popped[i + 1..], done := s.done + [s.popped[i]])
    case Abort(id) => Aborted(s, id)
  }

  function Run(s: State, actions: seq<Action>): State {
    if actions == [] then s else Step(Run(s, actions[..|actions| - 1]), actions[|actions| - 1])
  }

  function Ids(q: seq<Entry>): seq<nat> {
    if q == [] then [] else Ids(q[..|q| - 1]) + [q[|q| - 1].id]
  }

  function Count(s: seq<nat>, x: nat): nat {
    if s == [] then 0 else Count(s[..|s| - 1], x) + if s[|s| - 1] == x then 1 else 0
  }

  /** In how many places a wait is: queued, popped or completed. */
  function Places(s: State, id: nat): nat {
    Count(Ids(s.waiting), id) + Count(s.popped, id) + Count(s.done, id)
  }

  /** Every wait that was ever queued is in exactly one place. */
  ghost predicate Conserved(s: State) {
    forall id: nat :: Places(s, id) == if id < |s.made| then 1 else 0
  }

  function OfThread(e: Entry): Thread {
    Thread(e.pid, e.tid)
  }

  /** A queued wait is the last one of its thread. */
  ghost predicate OnePerThread(s: State) {
    && (forall th :: th in s.current ==> s.current[th] < |s.made|)
    && (forall e :: e in s.waiting ==> OfThread(e) in s.current && s.current[OfThread(e)] == e.id)
  }

  lemma {:induction false} IdsConcat(p: seq<Entry>, q: seq<Entry>)
    ensures Ids(p + q) == Ids(p) + Ids(q)
  {
    if q == [] {
      assert p + q == p;
    } else {
      assert (p + q)[..|p + q| - 1] == p + q[..|q| - 1];
      IdsConcat(p, q[..|q| - 1]);
    }
  }

  lemma {:induction false} CountConcat(p: seq<nat>, q: seq<nat>, x: nat)
    ensures Count(p + q, x) == Count(p, x) + Count(q, x)
  {
    if q == [] {
      assert p + q == p;
    } else {
      assert (p + q)[..|p + q| - 1] == p + q[..|q| - 1];
      CountConcat(p, q[..|q| - 1], x);
    }
  }

  lemma IdsCount(p: seq<Entry>, q: seq<Entry>, x: nat)
    ensures Count(Ids(p + q), x) == Count(Ids(p), x) + Count(Ids(q), x)
  {
    IdsConcat(p, q);
    CountConcat(Ids(p), Ids(q), x);
  }

  lemma OneId(e: Entry, x: nat)
    ensures Count(Ids([e]), x) == if e.id == x then 1 else 0
  {
  }

  /** The matching waits and the others are together the whole queue, one wait at a time. */
  lemma SplitStep(q: seq<Entry>, m: seq<Entry>, o: seq<Entry>, e: Entry, taken: bool, x: nat)
    requires Count(Ids(q), x) == Count(Ids(m), x) + Count(Ids(o), x)
    ensures Count(Ids(q + [e]), x) ==
      Count(Ids(m + if taken then [e] else []), x) + Count(Ids(o + if taken then [] else [e]), x)
  {
    IdsCount(q, [e], x);
    IdsCount(m, [e], x);
    IdsCount(o, [e], x);
    assert m + [] == m && o + [] == o;
  }

  lemma SliceLast(q: seq<Entry>, c: nat)
    requires 0 < c <= |q|
    ensures q[..c - 1] + [q[c - 1]] == q[..c]
  {
  }

  lemma {:induction false} IdsSplit(q: seq<Entry>, c: nat, pid: nat, addr: nat, x: nat)
    requires c <= |q|
    ensures Count(Ids(q[..c]), x) ==
      Count(Ids(Matching(q[..c], pid, addr)), x) + Count(Ids(Others(q[..c], pid, addr)), x)
  {
    if c > 0 {
      SliceLast(q, c);
      IdsSplit(q, c - 1, pid, addr, x);
      Longer(q, c - 1, pid, addr);
      SplitStep(q[..c - 1], Matching(q[..c - 1], pid, addr), Others(q[..c - 1], pid, addr), q[c - 1],
                Matches(q[c - 1], pid, addr), x);
    }
  }

  lemma IdsRemove(q: seq<Entry>, i: nat, x: nat)
    requires i < |q|
    ensures Count(Ids(q), x) == Count(Ids(q[..i] + q[i + 1..]), x) + if q[i].id == x then 1 else 0
  {
    assert q == q[..i] + [q[i]] + q[i + 1..];
    IdsCount(q[..i] + [q[i]], q[i + 1..], x);
    IdsCount(q[..i], [q[i]], x);
    IdsCount(q[..i], q[i + 1..], x);
    OneId(q[i], x);
  }

  lemma WakePlaces(s: State, pid: nat, addr: nat, cut: nat, x: nat)
    requires cut <= |s.waiting|
    ensures Places(Step(s, Wake(pid, addr, cut)), x) == Places(s, x)
  {
    var head, tail := s.waiting[..cut], s.waiting[cut..];
    assert s.waiting == head + tail;
    IdsCount(head, tail, x);
    IdsSplit(s.waiting, cut, pid, addr, x);
    IdsCount(Others(head, pid, addr), tail, x);
    CountConcat(s.popped, Ids(Matching(head, pid, addr)), x);
  }

  lemma CompletePlaces(s: State, i: nat, x: nat)
    requires i < |s.popped|
    ensures Places(Step(s, Complete(i)), x) == Places(s, x)
  {
    var a, b, e := s.popped[..i], s.popped[i + 1..], s.popped[i];
    assert s.popped == a + [e] + b;
    CountConcat(a + [e], b, x);
    CountConcat(a, [e], x);
    CountConcat(a, b, x);
    CountConcat(s.done, [e], x);
  }

  lemma EnqueuePlaces(s: State, addr: nat, th: Thread, x: nat)
    ensures Places(Step(s, Enqueue(addr, th)), x) == Places(s, x) + if x == |s.made| then 1 else 0
  {
  }

  /** An aborter replaces the wait it finds by the wait it was made for. */
  lemma AbortPlaces(s: State, id: nat, x: nat)
    requires id < |s.made|
    ensures var i := Found(s, id);
      Places(Aborted(s, id), x) == Places(s, x) +
        (if i < |s.waiting| && x == id then 1 else 0) - (if i < |s.waiting| && x == s.waiting[i].id then 1 else 0)
  {
    var i := Found(s, id);
    if i < |s.waiting| {
      IdsRemove(s.waiting, i, x);
      CountConcat(s.popped, [id], x);
    }
  }

  /** The aborter of wait `id` would find another wait of the same thread on the same address. */
  ghost predicate Stale(s: State, id: nat)
    requires id < |s.made|
  {
    Found(s, id) < |s.waiting| && s.waiting[Found(s, id)].id != id
  }

  /** Running an aborter keeps waits conserved exactly when it is not stale. */
  lemma AbortExact(s: State, id: nat)
    requires Conserved(s) && id < |s.made|
    ensures Conserved(Aborted(s, id)) <==> !Stale(s, id)
  {
    forall x: nat
      ensures var i := Found(s, id);
        Places(Aborted(s, id), x) == Places(s, x) +
          (if i < |s.waiting| && x == id then 1 else 0) - (if i < |s.waiting| && x == s.waiting[i].id then 1 else 0)
    {
      AbortPlaces(s, id, x);
    }
    assert Places(s, id) == 1;
    assert Stale(s, id) ==> Places(Aborted(s, id), id) == 2;
  }

  lemma {:induction false} CountIn(s: seq<nat>, x: nat)
    requires x in s
    ensures Count(s, x) >= 1
  {
    if s[|s| - 1] != x {
      CountIn(s[..|s| - 1], x);
    }
  }

  lemma {:induction false} IdIn(q: seq<Entry>, e: Entry)
    requires e in q
    ensures Count(Ids(q), e.id) >= 1
  {
    if q[|q| - 1] != e {
      IdIn(q[..|q| - 1], e);
    }
    IdsCount(q[..|q| - 1], [q[|q| - 1]], e.id);
    OneId(q[|q| - 1], e.id);
    assert q == q[..|q| - 1] + [q[|q| - 1]];
  }

  lemma {:induction false} OthersIn(q: seq<Entry>, c: nat, pid: nat, addr: nat)
    requires c <= |q|
    ensures forall e :: e in Others(q[..c], pid, addr) ==> e in q
  {
    if c > 0 {
      OthersIn(q, c - 1, pid, addr);
      Longer(q, c - 1, pid, addr);
    }
  }

  /** With one wait per thread at a time, the last aborter of a thread is never stale. */
  lemma CurrentNotStale(s: State, id: nat)
    requires OnePerThread(s) && id < |s.made|
    requires OfThread(s.made[id]) in s.current && s.current[OfThread(s.made[id])] == id
    ensures !Stale(s, id)
  {
  }

  /** The step is an aborter that would find another wait of its thread. */
  ghost predicate StaleStep(s: State, a: Action) {
    a.Abort? && Enabled(s, a) && Stale(s, a.id)
  }

  /** A step keeps every wait in exactly one place if and only if it is not a stale abort. */
  lemma StepConserved(s: State, a: Action)
    requires Conserved(s)
    ensures Conserved(Step(s, a)) <==> !StaleStep(s, a)
  {
    if Enabled(s, a) {
      if a.Abort? {
        AbortExact(s, a.id);
      } else {
        forall x: nat
          ensures Places(Step(s, a), x) == Places(s, x) + if a.Enqueue? && x == |s.made| then 1 else 0
        {
          match a
          case Enqueue(addr, th) => EnqueuePlaces(s, addr, th, x);
          case Wake(pid, addr, cut) => WakePlaces(s, pid, addr, cut, x);
          case Complete(i) => CompletePlaces(s, i, x);
        }
      }
    }
  }

  /** No abort of the run is stale when it runs. */
  ghost predicate NeverStale(actions: seq<Action>) {
    actions == [] ||
    var before := actions[..|actions| - 1];
    NeverStale(before) && !StaleStep(Run(Init(), before), actions[|actions| - 1])
  }

  /** Every state on the way has every wait in exactly one place. */
  ghost predicate AlwaysConserved(actions: seq<Action>) {
    Conserved(Run(Init(), actions)) && (actions == [] || AlwaysConserved(actions[..|actions| - 1]))
  }

  /** Over whole runs: waits are conserved all the way exactly when no abort is stale. */
  lemma {:induction false} RunExact(actions: seq<Action>)
    ensures AlwaysConserved(actions) <==> NeverStale(actions)
  {
    if actions != [] {
      var before := actions[..|actions| - 1];
      RunExact(before);
      if Conserved(Run(Init(), before)) {
        StepConserved(Run(Init(), before), actions[|actions| - 1]);
      }
    }
  }

  /** In every run without a stale abort each wait is completed at most once, and none disappears. */
  lemma CompletedOnce(actions: seq<Action>, id: nat)
    requires NeverStale(actions)
    ensures var s := Run(Init(), actions);
      && Count(s.done, id) <= 1
      && (id < |s.made| ==> Count(Ids(s.waiting), id) + Count(s.popped, id) == 1 - Count(s.done, id))
  {
    RunExact(actions);
    assert Places(Run(Init(), actions), id) <= 1;
  }

  // ---- Every wait can be completed -----------------------------------------------------------

  lemma {:induction false} RunTwice(s: State, a: seq<Action>, b: seq<Action>)
    ensures Run(s, a + b) == Run(Run(s, a), b)
  {
    if b == [] {
      assert a + b == a;
    } else {
      assert (a + b)[..|a + b| - 1] == a + b[..|b| - 1];
      RunTwice(s, a, b[..|b| - 1]);
    }
  }

  lemma OneStep(s: State, a: Action)
    ensures Run(s, [a]) == Step(s, a)
  {
    assert [a][..0] == [];
  }

  /** The completion calls for all that was taken off the queue. */
  lemma {:induction false} CompleteAll(s: State) returns (later: seq<Action>)
    requires Conserved(s)
    ensures var s' := Run(s, later);
      Conserved(s') && s'.popped == [] && s'.waiting == s.waiting && s'.made == s.made
    decreases |s.popped|
  {
    later := [];
    if s.popped != [] {
      OneStep(s, Complete(0));
      StepConserved(s, Complete(0));
      var more := CompleteAll(Step(s, Complete(0)));
      RunTwice(s, [Complete(0)], more);
      later := [Complete(0)] + more;
    }
  }

  lemma {:induction false} NotCounted(q: seq<Entry>, x: nat)
    requires forall e :: e in q ==> e.id != x
    ensures Count(Ids(q), x) == 0
  {
    if q != [] {
      NotCounted(q[..|q| - 1], x);
      IdsCount(q[..|q| - 1], [q[|q| - 1]], x);
      OneId(q[|q| - 1], x);
      assert q == q[..|q| - 1] + [q[|q| - 1]];
    }
  }

  /** A queued wait is the one that was made under its number. */
  ghost predicate Genuine(s: State) {
    && (forall i :: 0 <= i < |s.made| ==> s.made[i].id == i)
    && (forall e :: e in s.waiting ==> e.id < |s.made| && s.made[e.id] == e)
  }

  lemma StepGenuine(s: State, a: Action)
    requires Genuine(s)
    ensures Genuine(Step(s, a))
  {
    if a.Wake? && Enabled(s, a) {
      OthersIn(s.waiting, a.cut, a.pid, a.addr);
    }
  }

  lemma {:induction false} RunGenuine(actions: seq<Action>)
    ensures Genuine(Run(Init(), actions))
  {
    if actions != [] {
      RunGenuine(actions[..|actions| - 1]);
      StepGenuine(Run(Init(), actions[..|actions| - 1]), actions[|actions| - 1]);
    }
  }

  /**
   From every state of a run without a stale abort: a `WakeAll` and the completion calls it makes
   complete every wait of that process on that address, once.
   */
  lemma WakeAllCompletes(actions: seq<Action>, pid: nat, addr: nat) returns (later: seq<Action>)
    requires NeverStale(actions)
    ensures var s, s' := Run(Init(), actions), Run(Run(Init(), actions), later);
      && s'.made == s.made
      && forall id: nat :: id < |s.made| && Matches(s.made[id], pid, addr) ==> Count(s'.done, id) == 1
  {
    RunExact(actions);
    RunGenuine(actions);
    var s := Run(Init(), actions);
    var wake := Wake(pid, addr, |s.waiting|);
    OneStep(s, wake);
    StepConserved(s, wake);
    StepGenuine(s, wake);
    var s1 := Step(s, wake);
    var rest := CompleteAll(s1);
    RunTwice(s, [wake], rest);
    later := [wake] + rest;
    assert s.waiting[..|s.waiting|] == s.waiting;
    Separated(s.waiting, pid, addr);
    assert s1.waiting == Others(s.waiting, pid, addr);
    var s' := Run(s1, rest);
    forall id: nat | id < |s.made| && Matches(s.made[id], pid, addr)
      ensures Count(s'.done, id) == 1
    {
      NotCounted(s'.waiting, id);
      assert Places(s', id) == 1;
    }
  }

  // ---- One wait at a time --------------------------------------------------------------------

  /** A thread waits only after its last wait is completed, and is aborted through its last aborter. */
  ghost predicate Orderly(s: State, a: Action) {
    match a
    case Enqueue(addr, th) => th in s.current ==> s.current[th] in s.done
    case Abort(id) =>
      id < |s.made| ==> OfThread(s.made[id]) in s.current && s.current[OfThread(s.made[id])] == id
    case _ => true
  }

  ghost predicate OrderlyRun(actions: seq<Action>) {
    actions == [] ||
    var before := actions[..|actions| - 1];
    OrderlyRun(before) && Orderly(Run(Init(), before), actions[|actions| - 1])
  }

  lemma StepOnePerThread(s: State, a: Action)
    requires Conserved(s) && OnePerThread(s) && Orderly(s, a)
    ensures OnePerThread(Step(s, a))
  {
    if Enabled(s, a) {
      match a
      case Enqueue(addr, th) =>
        forall e | e in s.waiting
          ensures OfThread(e) != th
        {
          IdIn(s.waiting, e);
          if th in s.current {
            CountIn(s.done, s.current[th]);
            assert Places(s, e.id) == 1 && Places(s, s.current[th]) == 1;
          }
        }
      case Wake(pid, addr, cut) => OthersIn(s.waiting, cut, pid, addr);
      case Complete(i) =>
      case Abort(id) =>
    }
  }

  /** Threads that keep to one wait at a time never see a stale abort. */
  lemma {:induction false} OrderlyNeverStale(actions: seq<Action>)
    requires OrderlyRun(actions)
    ensures NeverStale(actions) && OnePerThread(Run(Init(), actions))
  {
    if actions != [] {
      var before, a := actions[..|actions| - 1], actions[|actions| - 1];
      OrderlyNeverStale(before);
      RunExact(before);
      if a.Abort? && Enabled(Run(Init(), before), a) {
        CurrentNotStale(Run(Init(), before), a.id);
      }
      StepOnePerThread(Run(Init(), before), a);
    }
  }

  lemma Extend(actions: seq<Action>, a: Action)
    ensures Run(Init(), actions + [a]) == Step(Run(Init(), actions), a)
  {
  }

  lemma ExampleEnqueue(s: State, addr: nat, th: Thread)
    ensures Step(s, Enqueue(addr, th)) ==
      var e := Entry(|s.made|, addr, th.pid, th.tid);
      State(s.made + [e], s.waiting + [e], s.popped, s.done, s.current[th := e.id])
  {
  }

  lemma ExampleWake(s: State, e: Entry)
    requires s.waiting == [e] && s.popped == []
    ensures Step(s, Wake(e.pid, e.addr, 1)) == State(s.made, [], [e.id], s.done, s.current)
  {
    assert s.waiting[..1] == [e];
    assert Matching([e], e.pid, e.addr) == [e] && Others([e], e.pid, e.addr) == [];
    assert [e][..0] == [];
    assert Ids([e]) == Ids([]) + [e.id];
  }

  lemma ExampleComplete(s: State, id: nat)
    requires s.popped == [id]
    ensures Step(s, Complete(0)) == State(s.made, s.waiting, [], s.done + [id], s.current)
  {
  }

  /** Thread (1, 2) has waited on address 8, been woken, and waits on it again. */
  lemma WaitedTwice() returns (actions: seq<Action>)
    ensures Run(Init(), actions) ==
      State([Entry(0, 8, 1, 2), Entry(1, 8, 1, 2)], [Entry(1, 8, 1, 2)], [], [0], map[Thread(1, 2) := 1])
  {
    var th := Thread(1, 2);
    actions := [];
    Extend(actions, Enqueue(8, th));
    ExampleEnqueue(Init(), 8, th);
    actions := actions + [Enqueue(8, th)];
    Extend(actions, Wake(1, 8, 1));
    ExampleWake(Run(Init(), actions), Entry(0, 8, 1, 2));
    actions := actions + [Wake(1, 8, 1)];
    Extend(actions, Complete(0));
    ExampleComplete(Run(Init(), actions), 0);
    actions := actions + [Complete(0)];
    Extend(actions, Enqueue(8, th));
    ExampleEnqueue(Run(Init(), actions), 8, th);
    actions := actions + [Enqueue(8, th)];
  }

  /**
   An aborter copied during wait 0 and run during wait 1 of the same thread on the same
   address: wait 0 is completed a second time and wait 1 is gone.
   */
  lemma StaleAborter() returns (actions: seq<Action>)
    ensures var s := Run(Init(), actions);
      |s.made| == 2 && !NeverStale(actions) && Count(s.done, 0) == 2 && Places(s, 1) == 0
  {
    var before := WaitedTwice();
    var s := Run(Init(), before);
    assert Find(s.waiting, 8, 1, 2) == 0;
    var abort := Abort(0);
    Extend(before, abort);
    var mid := before + [abort];
    assert mid[..|mid| - 1] == before && StaleStep(s, abort);
    assert Run(Init(), mid) == State(s.made, [], [0], [0], s.current);
    Extend(mid, Complete(0));
    ExampleComplete(Run(Init(), mid), 0);
    actions := mid + [Complete(0)];
    assert actions[..|actions| - 1] == mid;
    assert [0, 0] == [0] + [0] && [0, 0][..1] == [0] && [0][..0] == [];
    assert Count([0], 0) == 1 && Count([0, 0], 0) == 2;
    assert Count([0], 1) == 0 && Count([0, 0], 1) == 0;
  }
}

/**
 `Futex::Wait` against a store followed by `WakeAll`, on one futex word. The store does not take
 the queue's lock, so it may fall between the second comparison and the push.
 */
module FutexMemory {
  import opened Optional

  datatype Pc =
    | Idle
    | Compared(val: nat)  // the compare-and-exchange saw val; the lock is not taken yet
    | Locked(val: nat)    // holds the lock and has seen val again
    | Queued(val: nat)
    | Owes                // has stored and not yet called WakeAll

  datatype State = State(mem: nat, lock: Option<nat>, pcs: seq<Pc>)

  datatype Action =
    | Compare(val: nat)
    | Recheck
    | Push
    | Store(x: nat)
    | WakeAll
    | Leave  // taken off the queue by Wake or by an aborter

  function Init(mem: nat, threads: nat): State {
    State(mem, None, seq(threads, _ => Idle))
  }

  predicate Enabled(s: State, u: nat, a: Action) {
    && u < |s.pcs|
    && match a
       case Compare(val) => s.pcs[u].Idle?
       case Recheck => s.pcs[u].Compared? && s.lock.None?
       case Push => s.pcs[u].Locked?
       case Store(x) => s.pcs[u].Idle?
       case WakeAll => s.pcs[u].Owes? && s.lock.None?
       case Leave => s.pcs[u].Queued? && s.lock.None?
  }

  function At(s: State, u: nat, p: Pc): State
    requires u < |s.pcs|
  {
    s.(pcs := s.pcs[u := p])
  }

  function Step(s: State, u: nat, a: Action): State {
    if !Enabled(s, u, a) then s else
    match a
    case Compare(val) => At(s, u, if s.mem == val then Compared(val) else Idle)
    case Recheck =>
      var val := s.pcs[u].val;
      if s.mem == val then At(s, u, Locked(val)).(lock := Some(u)) else At(s, u, Idle)
    case Push => At(s, u, Queued(s.pcs[u].val)).(lock := None)
    case Store(x) => At(s, u, Owes).(mem := x)
    case WakeAll =>
      State(s.mem, None, seq(|s.pcs|, v requires 0 <= v < |s.pcs| =>
        if v == u || s.pcs[v].Queued? then Idle else s.pcs[v]))
    case Leave => At(s, u, Idle)
  }

  function Run(s: State, actions: seq<(nat, Action)>): State {
    if actions == [] then s
    else var last := actions[|actions| - 1]; Step(Run(s, actions[..|actions| - 1]), last.0, last.1)
  }

  ghost predicate SomeoneOwes(s: State) {
    exists v :: 0 <= v < |s.pcs| && s.pcs[v].Owes?
  }

  /** Whoever waits, or is about to, on a value that is gone, has a WakeAll still to come. */
  ghost predicate Covered(s: State) {
    && (forall u :: 0 <= u < |s.pcs| && s.pcs[u].Locked? ==> s.lock == Some(u))
    && (s.lock.Some? ==> s.lock.value < |s.pcs| && s.pcs[s.lock.value].Locked?)
    && (forall u :: 0 <= u < |s.pcs| && (s.pcs[u].Queued? || s.pcs[u].Locked?) && s.pcs[u].val != s.mem ==>
          SomeoneOwes(s))
  }

  lemma StepCovered(s: State, u: nat, a: Action)
    requires Covered(s)
    ensures Covered(Step(s, u, a))
  {
    if Enabled(s, u, a) {
      var s' := Step(s, u, a);
      if a.Store? {
        assert s'.pcs[u].Owes?;
      } else if !a.WakeAll? && SomeoneOwes(s) {
        var v :| 0 <= v < |s.pcs| && s.pcs[v].Owes?;
        assert s'.pcs[v].Owes?;
      }
    }
  }

  lemma {:induction false} RunCovered(mem: nat, threads: nat, actions: seq<(nat, Action)>)
    ensures Covered(Run(Init(mem, threads), actions)) && |Run(Init(mem, threads), actions).pcs| == threads
  {
    if actions != [] {
      var last := actions[|actions| - 1];
      RunCovered(mem, threads, actions[..|actions| - 1]);
      StepCovered(Run(Init(mem, threads), actions[..|actions| - 1]), last.0, last.1);
    }
  }

  /**
   In every run, a thread that is queued on a value other than the one in memory is so only
   while a storer has its WakeAll still to do; a WakeAll leaves nobody queued.
   */
  lemma NoneLeftBehind(mem: nat, threads: nat, actions: seq<(nat, Action)>, u: nat, w: nat)
    requires u < threads
    ensures var s := Run(Init(mem, threads), actions);
      && |s.pcs| == threads
      && (s.pcs[u].Queued? && s.pcs[u].val != s.mem ==> SomeoneOwes(s))
      && (Enabled(s, w, WakeAll) ==> !Step(s, w, WakeAll).pcs[u].Queued?)
  {
    RunCovered(mem, threads, actions);
  }

  /** A wait that nobody disturbs ends in the queue exactly when its value is the one in memory. */
  lemma WaitAlone(s: State, u: nat, val: nat)
    requires u < |s.pcs| && s.pcs[u].Idle? && s.lock.None?
    ensures var s' := Step(Step(Step(s, u, Compare(val)), u, Recheck), u, Push);
      && s' == s.(pcs := s.pcs[u := if s.mem == val then Queued(val) else Idle])
      && (s.mem == val ==> Step(s', u, Leave) == s)
  {
    assert s.pcs[u := Idle] == s.pcs;
  }

  /** A store that nobody disturbs changes the value, and its WakeAll sends everyone who was queued on. */
  lemma StoreAlone(s: State, u: nat, x: nat)
    requires u < |s.pcs| && s.pcs[u].Idle? && s.lock.None?
    ensures var s' := Step(Step(s, u, Store(x)), u, WakeAll);
      && s'.mem == x && s'.lock.None? && |s'.pcs| == |s.pcs|
      && forall v :: 0 <= v < |s.pcs| ==> s'.pcs[v] == if s.pcs[v].Queued? then Idle else s.pcs[v]
  {
  }

  /** Whoever is queued on a value that is gone can still be woken: by one who owes it, once the lock is free. */
  lemma LateWaiterWakes(mem: nat, threads: nat, actions: seq<(nat, Action)>, u: nat)
      returns (later: seq<(nat, Action)>)
    requires var s := Run(Init(mem, threads), actions); u < |s.pcs| && s.pcs[u].Queued? && s.pcs[u].val != s.mem
    ensures var s' := Run(Run(Init(mem, threads), actions), later);
      |s'.pcs| == threads && u < |s'.pcs| && s'.pcs[u].Idle? && s'.mem == Run(Init(mem, threads), actions).mem
  {
    RunCovered(mem, threads, actions);
    var s := Run(Init(mem, threads), actions);
    var w :| 0 <= w < |s.pcs| && s.pcs[w].Owes?;
    if s.lock.None? {
      later := [(w, WakeAll)];
      assert later[..0] == [];
    } else {
      later := [(s.lock.value, Push), (w, WakeAll)];
      assert later[..1] == [(s.lock.value, Push)] && later[..1][..0] == [];
      assert Run(s, later[..1]) == Step(s, s.lock.value, Push);
    }
  }
}
