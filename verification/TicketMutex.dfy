/**
 The blocking ticket mutex (kernel/concurrency/mutex.cpp) as a state machine. Every atomic
 counter operation and every scheduler call is one step. Tickets are numbered without wrap;
 the code sees them, and compares them, modulo 2^32.
 */
module TicketMutex {

  const WRAP: nat := 0x1_0000_0000

  /** The first ticket number that the handler treats as about to overflow. */
  const LATE: nat := 0xF800_0000

  /** Where a thread is. `t` is its ticket, `next` the ticket its event announces. */
  datatype Pc =
    | Idle
    | Check1(t: nat)      // ticket drawn, first comparison to come
    | Register(t: nat)    // the wait handler is to be added
    | Check2(t: nat)      // handler added, second comparison to come
    | Block(t: nat)       // about to mark itself blocked
    | Check3(t: nat)      // blocked, re-check to come
    | Unblock(t: nat)     // the re-check succeeded
    | Wait(t: nat)        // task switch requested; runs on only while not blocked
    | Clear(t: nat)       // own turn seen, own handlers to be removed
    | Owner(t: nat)       // between lock and unlock
    | Deliver(next: nat)  // released, event for the next ticket still to be sent

  /**
   At most `limit` tickets are outstanding at a time. `served` counts releases. `drew` lists the
   threads in the order of their tickets and `entered` in the order they got the lock. `handlers`
   maps a waiting thread to its ticket.
   */
  datatype State = State(limit: nat, served: nat, drew: seq<nat>, entered: seq<nat>, pcs: seq<Pc>,
                         blocked: set<nat>, handlers: map<nat, nat>)

  predicate HasTicket(p: Pc) {
    !p.Idle? && !p.Deliver?
  }

  function Init(threads: nat, limit: nat): State {
    State(limit, 0, [], [], seq(threads, _ => Idle), {}, map[])
  }

  /** Two ticket numbers are equal as 32-bit numbers. */
  predicate Same(a: nat, b: nat) {
    a % 0x1_0000_0000 == b % 0x1_0000_0000
  }

  /** A ticket is the current one, as the code compares them. */
  predicate Current(s: State, t: nat) {
    Same(t, s.served)
  }

  /** The handler of ticket `number` reacts to the event of ticket `ticket`. */
  predicate Reacts(ticket: nat, number: nat) {
    var e, h := ticket % 0x1_0000_0000, number % 0x1_0000_0000;
    e >= h || (h >= 0xF800_0000 && e < 0x0800_0000)
  }

  /** The event reaches every handler: an exact match wakes its thread, and all that react are removed. */
  function Delivered(s: State, ticket: nat): State {
    s.(blocked := (set u | u in s.blocked && !(u in s.handlers && Same(ticket, s.handlers[u]))),
       handlers := map u | u in s.handlers && !Reacts(ticket, s.handlers[u]) :: s.handlers[u])
  }

  /** A ticket is drawn only within the limit, and a blocked thread does not run. */
  predicate Enabled(s: State, u: nat) {
    && u < |s.pcs|
    && (s.pcs[u].Idle? ==> |s.drew| - s.served < s.limit)
    && (s.pcs[u].Wait? ==> u !in s.blocked)
  }

  function At(s: State, u: nat, p: Pc): State
    requires u < |s.pcs|
  {
    s.(pcs := s.pcs[u := p])
  }

  function Enter(s: State, u: nat, t: nat): State
    requires u < |s.pcs|
  {
    At(s, u, Owner(t)).(entered := s.entered + [u])
  }

  /** One step of thread u: the next operation of `lock`, or of `unlock` for the owner. */
  function Step(s: State, u: nat): State {
    if !Enabled(s, u) then s else
    match s.pcs[u]
    case Idle => At(s, u, Check1(|s.drew|)).(drew := s.drew + [u])
    case Check1(t) => if Current(s, t) then Enter(s, u, t) else At(s, u, Register(t))
    case Register(t) => At(s, u, Check2(t)).(handlers := s.handlers[u := t])
    case Check2(t) => At(s, u, if Current(s, t) then Wait(t) else Block(t))
    case Block(t) => At(s, u, Check3(t)).(blocked := s.blocked + {u})
    case Check3(t) => At(s, u, if Current(s, t) then Unblock(t) else Wait(t))
    case Unblock(t) => At(s, u, Wait(t)).(blocked := s.blocked - {u})
    case Wait(t) => if Current(s, t) then At(s, u, Clear(t)) else s
    case Clear(t) => Enter(s, u, t).(handlers := s.handlers - {u})
    case Owner(t) => At(s, u, Deliver(s.served + 1)).(served := s.served + 1)
    case Deliver(next) => At(Delivered(s, next), u, Idle)
  }

  /** The state after the threads of a schedule have made their steps. */
  function Run(s: State, schedule: seq<nat>): State {
    if schedule == [] then s else Step(Run(s, schedule[..|schedule| - 1]), schedule[|schedule| - 1])
  }

  // ---- Mutual exclusion and order ----------------------------------------------------------

  /** The thread that drew an outstanding ticket still has it, and nobody has another. */
  ghost predicate Tickets(s: State) {
    && s.served <= |s.drew| <= s.served + WRAP
    && (forall t :: s.served <= t < |s.drew| ==>
          s.drew[t] < |s.pcs| && HasTicket(s.pcs[s.drew[t]]) && s.pcs[s.drew[t]].t == t)
    && (forall u :: 0 <= u < |s.pcs| && HasTicket(s.pcs[u]) ==>
          s.served <= s.pcs[u].t < |s.drew| && s.drew[s.pcs[u].t] == u)
  }

  /** Only the current ticket is at or past the lock, and events are about tickets already current. */
  ghost predicate Order(s: State) {
    && (forall u :: 0 <= u < |s.pcs| && (s.pcs[u].Owner? || s.pcs[u].Clear? || s.pcs[u].Unblock?) ==>
          s.pcs[u].t == s.served)
    && (forall u :: 0 <= u < |s.pcs| && s.pcs[u].Deliver? ==> s.pcs[u].next <= s.served)
    && s.served <= |s.entered| <= s.served + 1
    && s.entered <= s.drew
    && (|s.entered| == s.served + 1 ==> s.drew[s.served] < |s.pcs| && s.pcs[s.drew[s.served]].Owner?)
    && (forall u :: 0 <= u < |s.pcs| && s.pcs[u].Owner? ==> |s.entered| == s.served + 1)
  }

  ghost predicate Ordered(s: State) {
    Tickets(s) && Order(s)
  }

  /** With at most 2^32 outstanding tickets, the comparison modulo 2^32 is exact. */
  lemma CurrentExact(s: State, t: nat)
    requires s.served <= t < |s.drew| <= s.served + WRAP
    ensures Current(s, t) <==> t == s.served
  {
  }

  lemma InitOrdered(threads: nat, limit: nat)
    ensures Ordered(Init(threads, limit))
  {
  }

  /** A step that changes only the place of a thread within `lock`. */
  lemma MoveOrdered(s: State, u: nat, p: Pc, s': State)
    requires Ordered(s) && u < |s.pcs| && HasTicket(s.pcs[u]) && HasTicket(p) && p.t == s.pcs[u].t
    requires !s.pcs[u].Owner? && !p.Owner?
    requires p.Clear? || p.Unblock? ==> Current(s, p.t)
    requires s' == At(s, u, p).(blocked := s'.blocked, handlers := s'.handlers)
    ensures Ordered(s')
  {
    CurrentExact(s, p.t);
  }

  lemma DrawOrdered(s: State, u: nat)
    requires Ordered(s) && Enabled(s, u) && s.pcs[u].Idle? && (s.limit <= WRAP || |s.drew| < WRAP)
    ensures Ordered(Step(s, u))
  {
  }

  /** Getting the lock: no one else has it, and it is the turn of this ticket. */
  lemma EnterOrdered(s: State, u: nat, t: nat)
    requires Ordered(s) && u < |s.pcs| && HasTicket(s.pcs[u]) && !s.pcs[u].Owner? && s.pcs[u].t == t
    requires Current(s, t)
    ensures Ordered(Enter(s, u, t))
  {
    CurrentExact(s, t);
    assert s.drew[t] == u;
  }

  lemma UnlockOrdered(s: State, u: nat)
    requires Ordered(s) && u < |s.pcs| && s.pcs[u].Owner?
    ensures Ordered(Step(s, u))
  {
  }

  lemma WaitOrdered(s: State, u: nat)
    requires Ordered(s) && Enabled(s, u) && HasTicket(s.pcs[u])
    requires !s.pcs[u].Check1? && !s.pcs[u].Clear? && !s.pcs[u].Owner?
    ensures Ordered(Step(s, u))
  {
    var s' := Step(s, u);
    if s' != s {
      MoveOrdered(s, u, s'.pcs[u], s');
    }
  }

  lemma StepOrdered(s: State, u: nat)
    requires Ordered(s) && (s.limit <= WRAP || |s.drew| < WRAP)
    ensures Ordered(Step(s, u))
  {
    if Enabled(s, u) {
      match s.pcs[u]
      case Idle => DrawOrdered(s, u);
      case Check1(t) =>
        if Current(s, t) { EnterOrdered(s, u, t); } else { MoveOrdered(s, u, Register(t), Step(s, u)); }
      case Clear(t) => EnterOrdered(s, u, t);
      case Owner(t) => UnlockOrdered(s, u);
      case Deliver(next) =>
      case _ => WaitOrdered(s, u);
    }
  }

  lemma {:induction false} RunOrdered(threads: nat, limit: nat, schedule: seq<nat>)
    requires limit <= WRAP
    ensures Ordered(Run(Init(threads, limit), schedule)) && Run(Init(threads, limit), schedule).limit == limit
  {
    if schedule == [] {
      InitOrdered(threads, limit);
    } else {
      RunOrdered(threads, limit, schedule[..|schedule| - 1]);
      StepOrdered(Run(Init(threads, limit), schedule[..|schedule| - 1]), schedule[|schedule| - 1]);
    }
  }

  ghost predicate TwoOwners(s: State) {
    exists u, v :: 0 <= u < v < |s.pcs| && s.pcs[u].Owner? && s.pcs[v].Owner?
  }

  /**
   Mutual exclusion and first-come-first-served: in every run with at most 2^32 outstanding
   tickets, no two threads are between `lock` and `unlock`, and the threads got the lock in the
   order they drew their tickets.
   */
  lemma MutualExclusion(threads: nat, limit: nat, schedule: seq<nat>)
    requires limit <= WRAP
    ensures var s := Run(Init(threads, limit), schedule); !TwoOwners(s) && s.entered <= s.drew
  {
    RunOrdered(threads, limit, schedule);
  }

  lemma Extend(s: State, schedule: seq<nat>, u: nat)
    ensures Run(s, schedule + [u]) == Step(Run(s, schedule), u)
  {
  }

  /** Thread 0 has the lock and threads 1 to k have drawn the tickets 1 to k. */
  ghost predicate Crowd(s: State, threads: nat, limit: nat, k: nat) {
    && s.limit == limit && s.served == 0 && |s.drew| == k + 1 && |s.pcs| == threads
    && (forall i :: 0 < i <= k && i < threads ==> s.pcs[i] == Check1(i))
    && (forall i :: k < i < threads ==> s.pcs[i] == Idle)
    && threads > 0 && s.pcs[0] == Owner(0)
  }

  lemma {:induction false} Gather(threads: nat, limit: nat, k: nat) returns (schedule: seq<nat>)
    requires k < threads && k < limit
    ensures Crowd(Run(Init(threads, limit), schedule), threads, limit, k)
  {
    if k == 0 {
      Extend(Init(threads, limit), [], 0);
      Extend(Init(threads, limit), [] + [0], 0);
      schedule := [] + [0] + [0];
    } else {
      var before := Gather(threads, limit, k - 1);
      Extend(Init(threads, limit), before, k);
      schedule := before + [k];
    }
  }

  /** The bound on outstanding tickets is exact: with one more, ticket 2^32 passes for ticket 0. */
  lemma ExclusionBound(limit: nat)
    ensures limit <= WRAP <==>
      forall threads: nat, schedule: seq<nat> :: !TwoOwners(Run(Init(threads, limit), schedule))
  {
    if limit <= WRAP {
      forall threads: nat, schedule: seq<nat>
        ensures !TwoOwners(Run(Init(threads, limit), schedule))
      {
        MutualExclusion(threads, limit, schedule);
      }
    } else {
      var schedule := Gather(WRAP + 1, limit, WRAP);
      var s := Run(Init(WRAP + 1, limit), schedule);
      Extend(Init(WRAP + 1, limit), schedule, WRAP);
      var s' := Step(s, WRAP);
      assert s'.pcs[0].Owner? && s'.pcs[WRAP].Owner?;
      assert TwoOwners(Run(Init(WRAP + 1, limit), schedule + [WRAP]));
    }
  }

  // ---- No lost wake-up ---------------------------------------------------------------------

  /** Some unlocker still has the event for ticket t to deliver. */
  ghost predicate Announced(s: State, t: nat) {
    exists v :: 0 <= v < |s.pcs| && s.pcs[v] == Deliver(t)
  }

  predicate Registered(p: Pc) {
    p.Check2? || p.Block? || p.Check3? || p.Unblock? || p.Wait? || p.Clear?
  }

  /** Handlers belong to threads that wait for just that ticket; only threads inside `lock` are blocked. */
  ghost predicate Tidy(s: State) {
    && (forall u :: u in s.handlers ==>
          u < |s.pcs| && Registered(s.pcs[u]) && s.pcs[u].t == s.handlers[u])
    && (forall u :: u in s.blocked ==>
          u < |s.pcs| && (s.pcs[u].Check3? || s.pcs[u].Unblock? || s.pcs[u].Wait?))
  }

  /** A thread that will re-check may have lost its handler only when it is its turn; a sleeper never has. */
  ghost predicate Wakeable(s: State) {
    && (forall u :: 0 <= u < |s.pcs| && (s.pcs[u].Check2? || s.pcs[u].Block? || s.pcs[u].Check3?) ==>
          u in s.handlers || s.pcs[u].t == s.served)
    && (forall u :: 0 <= u < |s.pcs| && s.pcs[u].Wait? && u in s.blocked ==>
          u in s.handlers && (s.pcs[u].t == s.served ==> Announced(s, s.pcs[u].t)))
  }

  ghost predicate Waking(s: State) {
    Ordered(s) && Tidy(s) && Wakeable(s)
  }

  /** Events are kept by every step but their own delivery. */
  lemma AnnouncedKept(s: State, s': State, u: nat, t: nat)
    requires Announced(s, t) && u < |s.pcs| == |s'.pcs| && s'.pcs == s.pcs[u := s'.pcs[u]] && s.pcs[u] != Deliver(t)
    ensures Announced(s', t)
  {
    var v :| 0 <= v < |s.pcs| && s.pcs[v] == Deliver(t);
    assert s'.pcs[v] == Deliver(t);
  }

  /** A step inside `lock`. */
  lemma MoveTidy(s: State, u: nat, s': State)
    requires Tidy(s) && Enabled(s, u) && HasTicket(s.pcs[u]) && !s.pcs[u].Owner? && s' == Step(s, u)
    ensures Tidy(s')
  {
  }

  lemma MoveWaking(s: State, u: nat, s': State)
    requires Waking(s) && Enabled(s, u) && HasTicket(s.pcs[u]) && !s.pcs[u].Owner? && s' == Step(s, u)
    ensures Wakeable(s')
  {
    CurrentExact(s, s.pcs[u].t);
    forall t | Announced(s, t)
      ensures Announced(s', t)
    {
      AnnouncedKept(s, s', u, t);
    }
  }

  lemma DrawWaking(s: State, u: nat, s': State)
    requires Waking(s) && Enabled(s, u) && s.pcs[u].Idle? && s' == Step(s, u)
    ensures Tidy(s') && Wakeable(s')
  {
    forall t | Announced(s, t)
      ensures Announced(s', t)
    {
      AnnouncedKept(s, s', u, t);
    }
  }

  /** Unlocking makes the next ticket current and takes on its event. */
  lemma UnlockWaking(s: State, u: nat, s': State)
    requires Waking(s) && u < |s.pcs| && s.pcs[u].Owner? && s' == Step(s, u)
    ensures Tidy(s') && Wakeable(s')
  {
    assert s'.pcs[u] == Deliver(s.served + 1);
  }

  /** Before the last 2^27 numbers, an event only removes handlers of tickets up to its own. */
  lemma ReactsInOrder(ticket: nat, number: nat)
    requires number < LATE && ticket <= LATE
    ensures Reacts(ticket, number) <==> number <= ticket
    ensures Same(ticket, number) <==> number == ticket
  {
  }

  /** A handler of the last 2^27 numbers also reacts to the first 2^27 events after the overflow. */
  lemma ReactsAcrossOverflow(ticket: nat, number: nat)
    ensures var e, h := ticket % WRAP, number % WRAP;
      if h < LATE then Reacts(ticket, number) <==> h <= e
      else Reacts(ticket, number) <==> h <= e || e < WRAP - LATE
  {
  }

  lemma DeliverWaking(s: State, u: nat, s': State)
    requires Waking(s) && |s.drew| <= LATE && u < |s.pcs| && s.pcs[u].Deliver? && s' == Step(s, u)
    ensures Tidy(s') && Wakeable(s')
  {
    var next := s.pcs[u].next;
    forall v | v in s.handlers
      ensures Reacts(next, s.handlers[v]) <==> s.handlers[v] == next == s.served
      ensures Same(next, s.handlers[v]) <==> s.handlers[v] == next
    {
      ReactsInOrder(next, s.handlers[v]);
    }
    forall t | Announced(s, t) && t != next
      ensures Announced(s', t)
    {
      AnnouncedKept(s, s', u, t);
    }
  }

  lemma StepWaking(s: State, u: nat)
    requires Waking(s) && |s.drew| <= LATE
    ensures Waking(Step(s, u))
  {
    StepOrdered(s, u);
    if Enabled(s, u) {
      var s' := Step(s, u);
      if s.pcs[u].Idle? {
        DrawWaking(s, u, s');
      } else if s.pcs[u].Owner? {
        UnlockWaking(s, u, s');
      } else if s.pcs[u].Deliver? {
        DeliverWaking(s, u, s');
      } else {
        MoveTidy(s, u, s');
        MoveWaking(s, u, s');
      }
    }
  }

  lemma {:induction false} RunWaking(threads: nat, limit: nat, schedule: seq<nat>)
    requires |Run(Init(threads, limit), schedule).drew| <= LATE
    ensures Waking(Run(Init(threads, limit), schedule))
  {
    if schedule != [] {
      var before := Run(Init(threads, limit), schedule[..|schedule| - 1]);
      assert before.drew <= Step(before, schedule[|schedule| - 1]).drew;
      RunWaking(threads, limit, schedule[..|schedule| - 1]);
      StepWaking(before, schedule[|schedule| - 1]);
    }
  }

  /** Some unlocker still has an event to deliver that names ticket t as a 32-bit number. */
  ghost predicate Pending(s: State, t: nat) {
    exists v :: 0 <= v < |s.pcs| && s.pcs[v].Deliver? && Same(s.pcs[v].next, t)
  }

  /** Thread u sleeps on its own turn, and no event can wake it: its handler or the event is gone. */
  ghost predicate Lost(s: State, u: nat) {
    && u < |s.pcs| && s.pcs[u].Wait? && u in s.blocked && Current(s, s.pcs[u].t)
    && !(u in s.handlers && Pending(s, s.pcs[u].t))
  }

  lemma NoLostWakeup(threads: nat, limit: nat, schedule: seq<nat>, u: nat)
    requires |Run(Init(threads, limit), schedule).drew| <= LATE
    ensures !Lost(Run(Init(threads, limit), schedule), u)
  {
    RunWaking(threads, limit, schedule);
    var s := Run(Init(threads, limit), schedule);
    if u < |s.pcs| && s.pcs[u].Wait? && u in s.blocked && Current(s, s.pcs[u].t) {
      CurrentExact(s, s.pcs[u].t);
      var v :| 0 <= v < |s.pcs| && s.pcs[v] == Deliver(s.pcs[u].t);
      assert s.pcs[v].Deliver? && Same(s.pcs[v].next, s.pcs[u].t);
    }
  }

  // ---- Every ticket is served ----------------------------------------------------------------

  /** How far a thread whose turn it is has to go until it has the lock. */
  function Rank(s: State, u: nat): nat
    requires u < |s.pcs|
  {
    match s.pcs[u]
    case Owner(_) => 0
    case Check1(_) => 1
    case Clear(_) => 1
    case Wait(_) => if u in s.blocked then 3 else 2
    case Check2(_) => 3
    case Unblock(_) => 4
    case Register(_) => 4
    case Check3(_) => 5
    case Block(_) => 6
    case _ => 7
  }

  /** It is the turn of thread u. */
  ghost predicate Turn(s: State, u: nat) {
    s.served < |s.drew| && s.drew[s.served] == u && u < |s.pcs|
  }

  /** A step of a thread, or of the unlocker that has the event for it, that brings thread u nearer to the lock. */
  ghost predicate Helps(s: State, u: nat, v: nat) {
    Enabled(s, v) && (v == u || s.pcs[v] == Deliver(s.served))
  }

  /** Whose step it is that brings the next thread nearer to the lock; there is always one. */
  lemma Helper(s: State, u: nat) returns (v: nat)
    requires Waking(s) && Turn(s, u)
    ensures Helps(s, u, v) && (v == u <==> !(s.pcs[u].Wait? && u in s.blocked))
  {
    v := u;
    if s.pcs[u].Wait? && u in s.blocked {
      v :| 0 <= v < |s.pcs| && s.pcs[v] == Deliver(s.served);
    }
  }

  /** Until the next thread has the lock, each of its own steps brings it nearer, and so does the event for it. */
  lemma StepNearer(s: State, u: nat, v: nat)
    requires Waking(s) && |s.drew| <= LATE && Turn(s, u) && !s.pcs[u].Owner?
    requires Helps(s, u, v) && (v == u || (s.pcs[u].Wait? && u in s.blocked))
    ensures var s' := Step(s, v); Turn(s', u) && s'.drew == s.drew && s'.served == s.served && Rank(s', u) < Rank(s, u)
  {
    assert HasTicket(s.pcs[u]) && s.pcs[u].t == s.served;
    if v != u {
      assert s.handlers[u] == s.served;
    }
  }

  /** And no step of any thread takes it further away. */
  lemma StepNoFurther(s: State, u: nat, v: nat)
    requires Waking(s) && |s.drew| <= LATE && Turn(s, u) && !s.pcs[u].Owner?
    ensures var s' := Step(s, v); Turn(s', u) && s'.served == s.served && Rank(s', u) <= Rank(s, u)
  {
    assert HasTicket(s.pcs[u]) && s.pcs[u].t == s.served;
    if v == u && Enabled(s, u) {
      StepNearer(s, u, u);
    }
  }

  /** The thread whose turn it is gets the lock within as many such steps as its rank says. */
  lemma {:induction false} GetsLock(s: State, u: nat) returns (later: seq<nat>)
    requires Waking(s) && |s.drew| <= LATE && Turn(s, u)
    ensures var s' := Run(s, later);
      && Waking(s') && s'.drew == s.drew && s'.served == s.served && Turn(s', u)
      && s'.pcs[u].Owner? && |s'.entered| == s.served + 1
    ensures |later| <= Rank(s, u)
    decreases Rank(s, u)
  {
    later := [];
    if !s.pcs[u].Owner? {
      var v := Helper(s, u);
      StepNearer(s, u, v);
      StepWaking(s, v);
      var more := GetsLock(Step(s, v), u);
      StepFirst(s, v, more);
      later := [v] + more;
    }
  }

  lemma {:induction false} StepFirst(s: State, u: nat, later: seq<nat>)
    ensures Run(s, [u] + later) == Run(Step(s, u), later)
  {
    if later == [] {
      assert [u] + later == [u] && [u][..0] == [];
    } else {
      assert ([u] + later)[..|later|] == [u] + later[..|later| - 1];
      StepFirst(s, u, later[..|later| - 1]);
    }
  }

  lemma {:induction false} RunTwice(s: State, a: seq<nat>, b: seq<nat>)
    ensures Run(s, a + b) == Run(Run(s, a), b)
  {
    if b == [] {
      assert a + b == a;
    } else {
      assert (a + b)[..|a + b| - 1] == a + b[..|b| - 1];
      RunTwice(s, a, b[..|b| - 1]);
    }
  }

  /** Every thread with a ticket gets the lock once those before it have had it; nobody has to draw another. */
  lemma {:induction false} GetsItsTurn(s: State, t: nat) returns (later: seq<nat>)
    requires Waking(s) && |s.drew| <= LATE && s.served <= t < |s.drew|
    ensures var s' := Run(s, later);
      && s'.drew == s.drew && s'.served == t && s.drew[t] < |s'.pcs| && s'.pcs[s.drew[t]] == Owner(t)
      && s'.entered == s.drew[..t + 1]
    decreases t - s.served
  {
    var u := s.drew[s.served];
    later := GetsLock(s, u);
    var s' := Run(s, later);
    if t > s.served {
      StepWaking(s', u);
      assert Step(s', u).drew == s.drew && Step(s', u).served == s.served + 1;
      var more := GetsItsTurn(Step(s', u), t);
      StepFirst(s', u, more);
      RunTwice(s, later, [u] + more);
      later := later + ([u] + more);
    }
  }

  /**
   In every run of at most 0xF8000000 tickets, from every state on the way: every thread that
   waits for the lock can still get it, in the order of the tickets.
   */
  lemma Progress(threads: nat, limit: nat, schedule: seq<nat>, t: nat) returns (later: seq<nat>)
    requires var s := Run(Init(threads, limit), schedule); |s.drew| <= LATE && s.served <= t < |s.drew|
    ensures var s, s' := Run(Init(threads, limit), schedule), Run(Run(Init(threads, limit), schedule), later);
      && s'.drew == s.drew && s'.served == t && s.drew[t] < |s'.pcs| && s'.pcs[s.drew[t]] == Owner(t)
      && s'.entered == s.drew[..t + 1]
  {
    RunWaking(threads, limit, schedule);
    later := GetsItsTurn(Run(Init(threads, limit), schedule), t);
  }

  // ---- The bound is exact ------------------------------------------------------------------

  /** Thread 0 has released ticket 0 and not delivered its event; k tickets have been served. */
  ghost predicate Stalled(s: State, k: nat) {
    && s.limit == WRAP && s.served == |s.drew| == k && s.blocked == {} && s.handlers == map[]
    && s.pcs == [Deliver(1), Idle, Idle]
  }

  /** Meanwhile thread 1 can lock and unlock once more. */
  lemma Cycle(s: State, k: nat)
    requires Stalled(s, k)
    ensures Stalled(Step(Step(Step(Step(s, 1), 1), 1), 1), k + 1)
  {
  }

  lemma {:induction false} Cycles(k: nat) returns (schedule: seq<nat>)
    requires k > 0
    ensures Stalled(Run(Init(3, WRAP), schedule), k)
  {
    if k == 1 {
      var s := Init(3, WRAP);
      Extend(s, [], 0);
      Extend(s, [] + [0], 0);
      Extend(s, [] + [0] + [0], 0);
      schedule := [] + [0] + [0] + [0];
      assert Step(s, 0).pcs == [Check1(0), Idle, Idle];
      assert Step(Step(s, 0), 0).pcs == [Owner(0), Idle, Idle];
    } else {
      var before := Cycles(k - 1);
      var s := Run(Init(3, WRAP), before);
      Cycle(s, k - 1);
      Extend(Init(3, WRAP), before, 1);
      Extend(Init(3, WRAP), before + [1], 1);
      Extend(Init(3, WRAP), before + [1] + [1], 1);
      Extend(Init(3, WRAP), before + [1] + [1] + [1], 1);
      schedule := before + [1] + [1] + [1] + [1];
    }
  }

  /** Thread 1 holds ticket LATE - 1 and thread 2 has gone to sleep on ticket LATE. */
  ghost predicate Asleep(s: State) {
    && s.limit == WRAP && s.served == LATE - 1 && |s.drew| == LATE + 1
    && s.pcs == [Deliver(1), Owner(LATE - 1), Wait(LATE)]
    && s.blocked == {2} && s.handlers == map[2 := LATE]
  }

  lemma FallAsleep(s: State)
    requires Stalled(s, LATE - 1)
    ensures Asleep(Step(Step(Step(Step(Step(Step(Step(Step(s, 1), 1), 2), 2), 2), 2), 2), 2))
  {
    var s2 := Step(Step(s, 1), 1);
    assert s2.pcs == [Deliver(1), Owner(LATE - 1), Idle];
    var s3 := Step(s2, 2);
    assert s3.pcs == [Deliver(1), Owner(LATE - 1), Check1(LATE)];
    var s4 := Step(s3, 2);
    assert s4.pcs == [Deliver(1), Owner(LATE - 1), Register(LATE)];
    var s5 := Step(s4, 2);
    assert s5.pcs == [Deliver(1), Owner(LATE - 1), Check2(LATE)];
    var s6 := Step(s5, 2);
    assert s6.pcs == [Deliver(1), Owner(LATE - 1), Block(LATE)];
    var s7 := Step(s6, 2);
    assert s7.pcs == [Deliver(1), Owner(LATE - 1), Check3(LATE)];
  }

  /** The stalled event for ticket 1 removes the handler of ticket LATE, and the real event finds none. */
  lemma Oversleep(s: State)
    requires Asleep(s)
    ensures Lost(Step(Step(Step(s, 0), 1), 1), 2) && Stranded(Step(Step(Step(s, 0), 1), 1), 2)
    ensures |Step(Step(Step(s, 0), 1), 1).drew| == LATE + 1
  {
  }

  /** Thread u sleeps and has no handler left. */
  ghost predicate Stranded(s: State, u: nat) {
    u < |s.pcs| && s.pcs[u].Wait? && u in s.blocked && u !in s.handlers
  }

  /** Nothing that any thread does wakes such a sleeper. */
  lemma {:induction false} StrandedForever(s: State, u: nat, schedule: seq<nat>)
    requires Stranded(s, u)
    ensures Stranded(Run(s, schedule), u)
  {
    if schedule != [] {
      StrandedForever(s, u, schedule[..|schedule| - 1]);
    }
  }

  /** One ticket more than the bound, and a thread sleeps on its own turn whatever happens next. */
  lemma LostRun() returns (schedule: seq<nat>)
    ensures Lost(Run(Init(3, WRAP), schedule), 2) && |Run(Init(3, WRAP), schedule).drew| == LATE + 1
    ensures forall later :: Stranded(Run(Run(Init(3, WRAP), schedule), later), 2)
  {
    var start := Cycles(LATE - 1);
    var s := Run(Init(3, WRAP), start);
    FallAsleep(s);
    Extend(Init(3, WRAP), start, 1);
    Extend(Init(3, WRAP), start + [1], 1);
    var a := start + [1] + [1];
    Extend(Init(3, WRAP), a, 2);
    Extend(Init(3, WRAP), a + [2], 2);
    Extend(Init(3, WRAP), a + [2] + [2], 2);
    var b := a + [2] + [2] + [2];
    Extend(Init(3, WRAP), b, 2);
    Extend(Init(3, WRAP), b + [2], 2);
    Extend(Init(3, WRAP), b + [2] + [2], 2);
    var c := b + [2] + [2] + [2];
    Oversleep(Run(Init(3, WRAP), c));
    Extend(Init(3, WRAP), c, 0);
    Extend(Init(3, WRAP), c + [0], 1);
    Extend(Init(3, WRAP), c + [0] + [1], 1);
    schedule := c + [0] + [1] + [1];
    forall later
      ensures Stranded(Run(Run(Init(3, WRAP), schedule), later), 2)
    {
      StrandedForever(Run(Init(3, WRAP), schedule), 2, later);
    }
  }

  /** No run loses a wake-up within its first n tickets: true exactly up to 0xF8000000 of them. */
  lemma WakeupBound(n: nat)
    ensures n <= LATE <==>
      forall threads: nat, limit: nat, schedule: seq<nat>, u: nat ::
        |Run(Init(threads, limit), schedule).drew| <= n ==> !Lost(Run(Init(threads, limit), schedule), u)
  {
    if n <= LATE {
      forall threads: nat, limit: nat, schedule: seq<nat>, u: nat | |Run(Init(threads, limit), schedule).drew| <= n
        ensures !Lost(Run(Init(threads, limit), schedule), u)
      {
        NoLostWakeup(threads, limit, schedule, u);
      }
    } else {
      var schedule := LostRun();
      assert Lost(Run(Init(3, WRAP), schedule), 2);
    }
  }
}
