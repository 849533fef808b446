/**
 The worker thread with a job queue (kernel/exec/blockthread.cpp): one worker, any number of
 callers of `Queue` and `Stop`. The semaphore starts without tokens.
 */
module BlockThread {

  datatype Worker =
    | Look                // at the top of the loop
    | Running(job: nat)
    | Acquire             // waits for a token
    | Stopped

  /** `submitted` and `ran` are histories of jobs, `stops` counts the calls of `Stop`. */
  datatype State = State(queue: seq<nat>, stop: bool, tokens: nat, worker: Worker,
                         submitted: seq<nat>, ran: seq<nat>, stops: nat)

  datatype Action = Work | Queue(job: nat) | Stop

  function Init(): State {
    State([], false, 0, Look, [], [], 0)
  }

  predicate Enabled(s: State, a: Action) {
    a.Work? ==> !s.worker.Stopped? && (s.worker.Acquire? ==> s.tokens > 0)
  }

  function Step(s: State, a: Action): State {
    if !Enabled(s, a) then s else
    match a
    case Work => (
      match s.worker
      case Look =>
        if s.stop then s.(worker := Stopped)
        else if s.queue != [] then s.(worker := Running(s.queue[0]), queue := s.queue[1..])
        else s.(worker := Acquire)
      case Running(job) => s.(worker := Acquire, ran := s.ran + [job])
      case Acquire => s.(worker := Look, tokens := s.tokens - 1)
      case Stopped => s)
    case Queue(job) => s.(queue := s.queue + [job], tokens := s.tokens + 1, submitted := s.submitted + [job])
    case Stop => s.(stop := true, tokens := s.tokens + 1, stops := s.stops + 1)
  }

  function Run(s: State, actions: seq<Action>): State {
    if actions == [] then s else Step(Run(s, actions[..|actions| - 1]), actions[|actions| - 1])
  }

  /**
   Once past its look at the queue, the worker has a token for every job it has not seen and
   one for every stop, and at most one more; before it, it may be one token short.
   */
  ghost predicate Paired(s: State) {
    && s.submitted == s.ran + (if s.worker.Running? then [s.worker.job] else []) + s.queue
    && (s.stop <==> s.stops > 0) && (s.worker.Stopped? ==> s.stop)
    && (s.worker.Stopped? ||
        var due := |s.queue| + s.stops;
        if s.worker.Look? then due - 1 <= s.tokens <= due else due <= s.tokens <= due + 1)
  }

  lemma StepPaired(s: State, a: Action)
    requires Paired(s)
    ensures Paired(Step(s, a))
  {
  }

  lemma {:induction false} RunPaired(actions: seq<Action>)
    ensures Paired(Run(Init(), actions))
  {
    if actions != [] {
      RunPaired(actions[..|actions| - 1]);
      StepPaired(Run(Init(), actions[..|actions| - 1]), actions[|actions| - 1]);
    }
  }

  /**
   In every run: the worker can be stuck waiting for a token only when its queue is empty and
   no stop was asked for, it has stopped only after a stop, it finds nothing to do for a token at
   most once in a row, and jobs run in the order they were queued, each at most once.
   */
  lemma NeverStuck(actions: seq<Action>)
    ensures var s := Run(Init(), actions);
      && (s.worker.Acquire? && s.tokens == 0 ==> s.queue == [] && !s.stop)
      && (s.stop <==> s.stops > 0) && (s.worker.Stopped? ==> s.stop)
      && (!s.worker.Stopped? ==> s.tokens <= |s.queue| + s.stops + 1)
      && s.ran <= s.submitted
  {
    RunPaired(actions);
  }

  /** How many steps of the worker are left at most before it waits for a token that is not there, or has stopped. */
  function Rank(s: State): nat {
    3 * |s.queue| + 3 * s.tokens +
      match s.worker
      case Running(_) => 3
      case Look => 2
      case Acquire => 1
      case Stopped => 0
  }

  /** The worker alone runs every job that was queued, in order; after a stop it stops. */
  lemma {:induction false} WorkerFinishes(s: State) returns (later: seq<Action>)
    requires Paired(s) && !s.worker.Stopped?
    ensures var s' := Run(s, later);
      if s.stop then s'.worker.Stopped? && s'.submitted == s.submitted
      else s'.worker.Acquire? && s'.queue == [] && s'.ran == s.submitted == s'.submitted
    decreases Rank(s)
  {
    later := [];
    if Enabled(s, Work) {
      StepPaired(s, Work);
      var s' := Step(s, Work);
      assert Rank(s') < Rank(s) && s'.stop == s.stop && s'.submitted == s.submitted;
      var more: seq<Action> := [];
      if !s'.worker.Stopped? {
        more := WorkerFinishes(s');
      }
      StepFirst(s, Work, more);
      later := [Work] + more;
    }
  }

  lemma {:induction false} StepFirst(s: State, a: Action, later: seq<Action>)
    ensures Run(s, [a] + later) == Run(Step(s, a), later)
  {
    if later == [] {
      assert [a] + later == [a] && [a][..0] == [];
    } else {
      assert ([a] + later)[..|later|] == [a] + later[..|later| - 1];
      StepFirst(s, a, later[..|later| - 1]);
    }
  }

  /** From every state of every run, every job that was queued before a stop can still be run. */
  lemma EveryJobRuns(actions: seq<Action>) returns (later: seq<Action>)
    requires !Run(Init(), actions).worker.Stopped?
    ensures var s, s' := Run(Init(), actions), Run(Run(Init(), actions), later);
      if s.stop then s'.worker.Stopped? && s'.submitted == s.submitted
      else s'.worker.Acquire? && s'.queue == [] && s'.ran == s.submitted == s'.submitted
  {
    RunPaired(actions);
    later := WorkerFinishes(Run(Init(), actions));
  }
}

/**
 The command queue of a block device (kernel/blockdevsystem/blockdev_interface.cpp), for any
 number of threads that submit and take commands. `Submit` pushes without the lock, so its
 push is two steps: it reads the size of the queue, and later writes the command behind the
 last one and the size it has worked out.
 */
module CommandQueue {

  datatype Pc =
    | Idle
    | Pushing(command: nat, size: nat)  // in Submit: `size` is the size to be written
    | Pushed                            // in Submit: command queued, semaphore not released yet
    | Holding                           // in NextCommand: token taken, lock not taken yet

  /** What a place of the queue holds: a command, or what is left of one that was taken. */
  datatype Slot = Command(id: nat) | Destroyed

  /**
   `submitted` are the commands whose push has ended. `stops` counts the calls of `Stop`, and
   `refused` the takes that found the queue stopped.
   */
  datatype State = State(queue: seq<Slot>, stop: bool, tokens: nat, pcs: seq<Pc>,
                         submitted: seq<Slot>, taken: seq<Slot>, stops: nat, refused: nat)

  datatype Action =
    | Read(u: nat, command: nat)
    | Write(u: nat)
    | Release(u: nat)
    | Acquire(u: nat)
    | Take(u: nat)
    | Stop

  function Init(threads: nat): State {
    State([], false, 0, seq(threads, _ => Idle), [], [], 0, 0)
  }

  predicate Enabled(s: State, a: Action) {
    match a
    case Read(u, _) => u < |s.pcs| && s.pcs[u].Idle?
    case Write(u) => u < |s.pcs| && s.pcs[u].Pushing?
    case Release(u) => u < |s.pcs| && s.pcs[u].Pushed?
    case Acquire(u) => u < |s.pcs| && s.pcs[u].Idle? && s.tokens > 0
    case Take(u) => u < |s.pcs| && s.pcs[u].Holding?
    case Stop => true
  }

  /** Taking the front of an empty queue, or no command, would be undefined; this must never happen. */
  predicate TakesNoCommand(s: State, a: Action) {
    a.Take? && Enabled(s, a) && !s.stop && (s.queue == [] || s.queue[0].Destroyed?)
  }

  /** The queue after the command is written behind its last place and the size is set. */
  function Written(queue: seq<Slot>, command: nat, size: nat): (r: seq<Slot>)
    ensures |r| == size
    ensures size == |queue| + 1 ==> r == queue + [Command(command)]
  {
    if size <= |queue| then queue[..size]
    else queue + [Command(command)] + seq(size - |queue| - 1, _ => Destroyed)
  }

  function Step(s: State, a: Action): State {
    if !Enabled(s, a) then s else
    match a
    case Read(u, command) => s.(pcs := s.pcs[u := Pushing(command, |s.queue| + 1)])
    case Write(u) =>
      s.(queue := Written(s.queue, s.pcs[u].command, s.pcs[u].size), pcs := s.pcs[u := Pushed],
         submitted := s.submitted + [Command(s.pcs[u].command)])
    case Release(u) => s.(tokens := s.tokens + 1, pcs := s.pcs[u := Idle])
    case Acquire(u) => s.(tokens := s.tokens - 1, pcs := s.pcs[u := Holding])
    case Take(u) =>
      if s.stop then s.(pcs := s.pcs[u := Idle], refused := s.refused + 1)
      else if s.queue == [] then s.(pcs := s.pcs[u := Idle])
      else s.(queue := s.queue[1..], taken := s.taken + [s.queue[0]], pcs := s.pcs[u := Idle])
    case Stop => s.(stop := true, tokens := s.tokens + 1, stops := s.stops + 1)
  }

  function Run(s: State, actions: seq<Action>): State {
    if actions == [] then s else Step(Run(s, actions[..|actions| - 1]), actions[|actions| - 1])
  }

  /** A thread between the end of a push and its release, or between an acquire and its take. */
  predicate Midway(p: Pc) {
    p.Pushed? || p.Holding?
  }

  /** How many such threads there are. */
  function Between(pcs: seq<Pc>): nat {
    if pcs == [] then 0 else Between(pcs[1..]) + if Midway(pcs[0]) then 1 else 0
  }

  lemma {:induction false} BetweenUpdate(pcs: seq<Pc>, u: nat, p: Pc)
    requires u < |pcs|
    ensures Between(pcs[u := p]) ==
      Between(pcs) + (if Midway(p) then 1 else 0) - (if Midway(pcs[u]) then 1 else 0)
  {
    if u > 0 {
      BetweenUpdate(pcs[1..], u - 1, p);
      assert pcs[u := p][1..] == pcs[1..][u - 1 := p];
    } else {
      assert pcs[u := p][1..] == pcs[1..];
    }
  }

  lemma {:induction false} BetweenSome(pcs: seq<Pc>, u: nat)
    requires u < |pcs| && Midway(pcs[u])
    ensures Between(pcs) > 0
  {
    if u > 0 {
      BetweenSome(pcs[1..], u - 1);
    }
  }

  lemma {:induction false} BetweenNone(pcs: seq<Pc>)
    requires forall u :: 0 <= u < |pcs| ==> !Midway(pcs[u])
    ensures Between(pcs) == 0
  {
    if pcs != [] {
      BetweenNone(pcs[1..]);
    }
  }

  /**
   Queued commands and calls of `Stop` pair up with tokens, threads on their way, and takes that
   were refused; commands are taken in order, and none is lost.
   */
  ghost predicate Paired(s: State) {
    && |s.queue| + s.stops == s.tokens + Between(s.pcs) + s.refused
    && (s.stop <==> s.stops > 0) && (!s.stop ==> s.refused == 0)
    && s.submitted == s.taken + s.queue
    && (forall i :: 0 <= i < |s.submitted| ==> s.submitted[i].Command?)
  }

  /** The step ends a push whose size is out of date: the queue has changed its length since it was read. */
  predicate Torn(s: State, a: Action) {
    a.Write? && Enabled(s, a) && s.pcs[a.u].size != |s.queue| + 1
  }

  /** Every step keeps the pairing, exactly when it does not end such a push. */
  lemma StepPaired(s: State, a: Action)
    requires Paired(s)
    ensures Paired(Step(s, a)) <==> !Torn(s, a)
    ensures !TakesNoCommand(s, a)
  {
    if Enabled(s, a) && !a.Stop? {
      BetweenUpdate(s.pcs, a.u, Step(s, a).pcs[a.u]);
      if a.Take? {
        BetweenSome(s.pcs, a.u);
        assert s.queue != [] ==> s.submitted[|s.taken|] == s.queue[0];
      }
    }
  }

  /** No step of the run ends a push whose size is out of date. */
  ghost predicate NeverTorn(threads: nat, actions: seq<Action>) {
    actions == [] ||
    var before := actions[..|actions| - 1];
    NeverTorn(threads, before) && !Torn(Run(Init(threads), before), actions[|actions| - 1])
  }

  ghost predicate AlwaysPaired(threads: nat, actions: seq<Action>) {
    Paired(Run(Init(threads), actions)) && (actions == [] || AlwaysPaired(threads, actions[..|actions| - 1]))
  }

  lemma {:induction false} RunExact(threads: nat, actions: seq<Action>)
    ensures AlwaysPaired(threads, actions) <==> NeverTorn(threads, actions)
  {
    if actions == [] {
      BetweenNone(Init(threads).pcs);
    } else {
      var before := actions[..|actions| - 1];
      RunExact(threads, before);
      if Paired(Run(Init(threads), before)) {
        StepPaired(Run(Init(threads), before), actions[|actions| - 1]);
      }
    }
  }

  /**
   In every run with any number of threads in which no push has its size out of date, no step
   takes from an empty queue before a stop, and commands are taken in the order of the pushes.
   */
  lemma NeverTakesFromEmpty(threads: nat, actions: seq<Action>, a: Action)
    requires NeverTorn(threads, actions)
    ensures var s := Run(Init(threads), actions);
      !TakesNoCommand(s, a) && s.taken <= s.submitted
  {
    RunExact(threads, actions);
    StepPaired(Run(Init(threads), actions), a);
  }

  /** Before a stop, a queued command has a token, a holder of one, or a submitter about to give one. */
  lemma NoneForgotten(threads: nat, actions: seq<Action>)
    requires NeverTorn(threads, actions)
    ensures var s := Run(Init(threads), actions);
      !s.stop && s.queue != [] ==> s.tokens > 0 || exists u :: 0 <= u < |s.pcs| && Midway(s.pcs[u])
  {
    RunExact(threads, actions);
    var s := Run(Init(threads), actions);
    if forall u :: 0 <= u < |s.pcs| ==> !Midway(s.pcs[u]) {
      BetweenNone(s.pcs);
    }
  }

  /** After a stop no command is taken any more. */
  lemma {:induction false} StopTakesNothing(s: State, later: seq<Action>)
    requires s.stop
    ensures Run(s, later).stop && Run(s, later).taken == s.taken
  {
    if later != [] {
      StopTakesNothing(s, later[..|later| - 1]);
    }
  }

  // ---- Every command is taken ----------------------------------------------------------------

  /** A step that brings the queue nearer to being empty: a release, a take, or an acquire of thread u. */
  lemma Nearer(s: State, u: nat) returns (later: seq<Action>)
    requires Paired(s) && !s.stop && u < |s.pcs| && !s.pcs[u].Pushing? && s.queue != []
    ensures var s' := Run(s, later);
      && Paired(s') && !s'.stop && |s'.pcs| == |s.pcs| && !s'.pcs[u].Pushing? && s'.submitted == s.submitted
      && 2 * |s'.queue| - s'.tokens < 2 * |s.queue| - s.tokens
  {
    if v :| 0 <= v < |s.pcs| && s.pcs[v].Pushed? {
      later := [Release(v)];
      OneStep(s, Release(v));
      StepPaired(s, Release(v));
    } else if v :| 0 <= v < |s.pcs| && s.pcs[v].Holding? {
      later := [Take(v)];
      OneStep(s, Take(v));
      StepPaired(s, Take(v));
    } else {
      BetweenNone(s.pcs);
      later := [Acquire(u), Take(u)];
      Steps(s, Acquire(u), Take(u));
      StepPaired(s, Acquire(u));
      StepPaired(Step(s, Acquire(u)), Take(u));
    }
  }

  lemma {:induction false} TakeAll(s: State, u: nat) returns (later: seq<Action>)
    requires Paired(s) && !s.stop && u < |s.pcs| && !s.pcs[u].Pushing?
    ensures var s' := Run(s, later); s'.queue == [] && s'.taken == s.submitted == s'.submitted
    decreases 2 * |s.queue| - s.tokens
  {
    later := [];
    if s.queue != [] {
      var first := Nearer(s, u);
      var s' := Run(s, first);
      assert s'.tokens <= |s'.queue|;
      var more := TakeAll(s', u);
      RunConcat(s, first, more);
      later := first + more;
    }
  }

  /**
   From every state of a run before a stop, in which no push has its size out of date: as long as
   one thread is not in the middle of a push, every command submitted can still be taken.
   */
  lemma EveryCommandTaken(threads: nat, actions: seq<Action>, u: nat) returns (later: seq<Action>)
    requires NeverTorn(threads, actions)
    requires var s := Run(Init(threads), actions); !s.stop && u < |s.pcs| && !s.pcs[u].Pushing?
    ensures var s, s' := Run(Init(threads), actions), Run(Run(Init(threads), actions), later);
      s'.queue == [] && s'.taken == s.submitted == s'.submitted
  {
    RunExact(threads, actions);
    later := TakeAll(Run(Init(threads), actions), u);
  }

  lemma OneStep(s: State, a: Action)
    ensures Run(s, [a]) == Step(s, a)
  {
    assert [a][..0] == [];
  }

  // ---- Pushes that overlap ------------------------------------------------------------------

  /** The step changes the queue while another thread is in the middle of a push. */
  ghost predicate Overlaps(s: State, a: Action) {
    (a.Write? || a.Take?) && Enabled(s, a) && exists v :: 0 <= v < |s.pcs| && v != a.u && s.pcs[v].Pushing?
  }

  ghost predicate NeverOverlaps(threads: nat, actions: seq<Action>) {
    actions == [] ||
    var before := actions[..|actions| - 1];
    NeverOverlaps(threads, before) && !Overlaps(Run(Init(threads), before), actions[|actions| - 1])
  }

  /** Every push under way has the size it read. */
  ghost predicate UpToDate(s: State) {
    forall u :: 0 <= u < |s.pcs| && s.pcs[u].Pushing? ==> s.pcs[u].size == |s.queue| + 1
  }

  /** A run in which pushes overlap with no push and no take has no push out of date. */
  lemma {:induction false} ApartNeverTorn(threads: nat, actions: seq<Action>)
    requires NeverOverlaps(threads, actions)
    ensures NeverTorn(threads, actions) && UpToDate(Run(Init(threads), actions))
  {
    if actions != [] {
      ApartNeverTorn(threads, actions[..|actions| - 1]);
      ApartStep(Run(Init(threads), actions[..|actions| - 1]), actions[|actions| - 1]);
    }
  }

  lemma ApartStep(s: State, a: Action)
    requires UpToDate(s) && !Overlaps(s, a)
    ensures !Torn(s, a) && UpToDate(Step(s, a))
  {
  }

  lemma Steps(s: State, a: Action, b: Action)
    ensures Run(s, [a, b]) == Step(Step(s, a), b)
  {
    assert [a, b][..1] == [a] && [a][..0] == [];
    assert Run(s, [a]) == Step(s, a);
  }

  lemma {:induction false} RunConcat(s: State, a: seq<Action>, b: seq<Action>)
    ensures Run(s, a + b) == Run(Run(s, a), b)
  {
    if b == [] {
      assert a + b == a;
    } else {
      assert (a + b)[..|a + b| - 1] == a + b[..|b| - 1];
      RunConcat(s, a, b[..|b| - 1]);
    }
  }

  /** Two pushes that overlap leave one command. */
  lemma OverlappingPushes(s: State, x: nat, y: nat)
    requires s == Init(2)
    ensures var t := Run(Run(s, [Read(0, x), Read(1, y)]), [Write(0), Write(1)]);
      t == s.(queue := [Command(x)], pcs := [Pushed, Pushed], submitted := [Command(x), Command(y)])
  {
    Steps(s, Read(0, x), Read(1, y));
    var r := Run(s, [Read(0, x), Read(1, y)]);
    assert r == s.(pcs := [Pushing(x, 1), Pushing(y, 1)]);
    Steps(r, Write(0), Write(1));
  }

  /** Two tokens for the one command: the second take finds the queue empty. */
  lemma TornRun(x: nat, y: nat) returns (actions: seq<Action>)
    ensures TakesNoCommand(Run(Init(2), actions), Take(1))
  {
    var s := Init(2);
    var looks, writes := [Read(0, x), Read(1, y)], [Write(0), Write(1)];
    OverlappingPushes(s, x, y);
    var t := Run(Run(s, looks), writes);
    Steps(t, Release(0), Release(1));
    var t1 := Run(t, [Release(0), Release(1)]);
    Steps(t1, Acquire(0), Acquire(1));
    var t2 := Run(t1, [Acquire(0), Acquire(1)]);
    Steps(t2, Take(0), Take(0));
    assert [Take(0)][..0] == [];
    var t3 := Run(t2, [Take(0)]);
    RunConcat(s, looks, writes);
    RunConcat(s, looks + writes, [Release(0), Release(1)]);
    RunConcat(s, looks + writes + [Release(0), Release(1)], [Acquire(0), Acquire(1)]);
    RunConcat(s, looks + writes + [Release(0), Release(1)] + [Acquire(0), Acquire(1)], [Take(0)]);
    actions := looks + writes + [Release(0), Release(1)] + [Acquire(0), Acquire(1)] + [Take(0)];
  }
}
