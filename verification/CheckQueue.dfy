/** The parallel verification queue (CCheckQueue, src/checkqueue.h) as a state
    machine: one master and any number of workers, one step per critical
    section or per stretch of work outside the lock. */
module CheckQueue {
  import opened Common

  /** A check is known by the result it would give. */
  type Check = bool

  ghost predicate All(checks: seq<Check>) {
    forall i :: 0 <= i < |checks| ==> checks[i]
  }

  /** Where a thread is. Thread 0 is the master. */
  datatype Thread =
    | Outside                               // not in Loop
    | Entering(done: nat, ok: bool)         // about to lock; done checks to report
    | Sleeping(notified: bool)              // in wait; a wake-up may be pending
    | Working(batch: seq<Check>, ok: bool)  // owns a batch

  datatype State = State(
    queue: seq<Check>,
    nIdle: int,
    nTotal: int,
    fAllOk: bool,
    nTodo: int,
    nBatchSize: nat,
    threads: seq<Thread>,
    added: seq<Check>)  // everything added since the last Wait returned

  /** A queue just made, with the given number of workers still to start. */
  function Initial(workers: nat, batchSize: nat): State {
    State([], 0, 0, true, 0, batchSize, seq(workers + 1, i => Outside), [])
  }

  datatype Step =
    | AddChecks(checks: seq<Check>, woken: nat)
    | CallWait
    | StartWorker(t: nat)
    | Acquire(t: nat)
    | Wake(t: nat)
    | Work(t: nat)

  // ---- the critical sections ----

  /** A batch is never empty and never larger than the queue. */
  function BatchSize(s: State): (n: int)
    requires s.nTotal >= 0 && s.nIdle >= 0 && s.queue != []
    ensures 1 <= n <= |s.queue|
  {
    QuotientBound(|s.queue|, s.nTotal + s.nIdle + 1);
    Max(1, Min(s.nBatchSize, |s.queue| / (s.nTotal + s.nIdle + 1)))
  }

  function Max(a: int, b: int): int { if a < b then b else a }
  function Min(a: int, b: int): int { if a < b then a else b }

  function Reversed(q: seq<Check>): (r: seq<Check>)
    ensures |r| == |q| && forall i :: 0 <= i < |q| ==> r[i] == q[|q| - 1 - i]
  {
    seq(|q|, i requires 0 <= i < |q| => q[|q| - 1 - i])
  }

  /** The loop `while (queue.empty())` and what follows it, for a thread that
      holds the lock: return, sleep or take a batch from the back. */
  function Decide(s: State, t: nat): State
    requires t < |s.threads| && s.nTotal >= 0 && s.nIdle >= 0
  {
    if s.queue == [] then
      if t == 0 && s.nTodo == 0 then
        s.(threads := s.threads[t := Outside], nTotal := s.nTotal - 1, fAllOk := true, added := [])
      else
        s.(threads := s.threads[t := Sleeping(false)], nIdle := s.nIdle + 1)
    else
      var n := |s.queue| - BatchSize(s);
      s.(threads := s.threads[t := Working(Reversed(s.queue[n..]), s.fAllOk)], queue := s.queue[..n])
  }

  /** Reporting a finished batch, and waking the master after the last check. */
  function Report(s: State, t: nat): State
    requires 0 < |s.threads| && t < |s.threads| && s.threads[t].Entering?
  {
    var done := s.threads[t].done;
    if done == 0 then s.(nTotal := s.nTotal + 1)
    else
      var u := s.(fAllOk := s.fAllOk && s.threads[t].ok, nTodo := s.nTodo - done);
      if u.nTodo == 0 && t != 0 && s.threads[0].Sleeping?
      then u.(threads := u.threads[0 := Sleeping(true)]) else u
  }

  function NotifyAll(ts: seq<Thread>): (r: seq<Thread>)
    ensures |r| == |ts|
  {
    seq(|ts|, i requires 0 <= i < |ts| => if i > 0 && ts[i].Sleeping? then Sleeping(true) else ts[i])
  }

  /** The conjunction of a batch, as the work loop computes it. */
  function Passed(batch: seq<Check>): (r: bool)
    ensures r <==> All(batch)
  {
    batch == [] || (batch[0] && Passed(batch[1..]))
  }

  /** The work loop: later checks are skipped once one fails. */
  method Execute(batch: seq<Check>, ok: bool) returns (r: bool)
    ensures r <==> ok && All(batch)
  {
    r := ok;
    for i := 0 to |batch|
      invariant r <==> ok && All(batch[..i])
    {
      assert All(batch[..i + 1]) <==> All(batch[..i]) && batch[i] by {
        assert batch[..i + 1] == batch[..i] + [batch[i]];
        assert batch[..i + 1][i] == batch[i];
        assert forall k :: 0 <= k < i ==> batch[..i + 1][k] == batch[..i][k];
      }
      if r { r := batch[i]; }
    }
    assert batch[..|batch|] == batch;
  }

  // ---- sums over threads ----

  function Sum(ts: seq<Thread>, f: Thread -> nat): nat {
    if ts == [] then 0 else f(ts[0]) + Sum(ts[1..], f)
  }

  lemma {:induction false} SumUpdate(ts: seq<Thread>, i: nat, x: Thread, f: Thread -> nat)
    requires i < |ts|
    ensures Sum(ts[i := x], f) == Sum(ts, f) - f(ts[i]) + f(x)
  {
    if i == 0 {
      assert ts[i := x][1..] == ts[1..];
    } else {
      SumUpdate(ts[1..], i - 1, x, f);
      assert ts[i := x][1..] == ts[1..][i - 1 := x];
    }
  }

  lemma {:induction false} SumSame(ts: seq<Thread>, us: seq<Thread>, f: Thread -> nat)
    requires |ts| == |us| && forall i :: 0 <= i < |ts| ==> f(ts[i]) == f(us[i])
    ensures Sum(ts, f) == Sum(us, f)
  {
    if ts != [] {
      SumSame(ts[1..], us[1..], f);
    }
  }

  lemma {:induction false} SumPart(ts: seq<Thread>, i: nat, f: Thread -> nat)
    requires i < |ts|
    ensures f(ts[i]) <= Sum(ts, f)
  {
    if i > 0 { SumPart(ts[1..], i - 1, f); }
  }

  lemma {:induction false} SumZero(ts: seq<Thread>, f: Thread -> nat)
    ensures Sum(ts, f) == 0 <==> forall i :: 0 <= i < |ts| ==> f(ts[i]) == 0
  {
    if ts != [] {
      SumZero(ts[1..], f);
      if forall i :: 0 <= i < |ts| ==> f(ts[i]) == 0 {
        assert forall i :: 0 <= i < |ts[1..]| ==> ts[1..][i] == ts[i + 1];
      } else if Sum(ts, f) == 0 {
        forall i | 0 <= i < |ts| ensures f(ts[i]) == 0 {
          if i > 0 { assert ts[i] == ts[1..][i - 1]; }
        }
      }
    }
  }

  function InFlight(t: Thread): nat {
    match t
    case Working(b, _) => |b|
    case Entering(n, _) => n
    case _ => 0
  }

  function Idle(t: Thread): nat {
    if t.Sleeping? then 1 else 0
  }

  function Active(t: Thread): nat {
    if t.Sleeping? || t.Working? || (t.Entering? && t.done > 0) then 1 else 0
  }

  // ---- the invariant ----

  /** What a thread has found or will find. */
  ghost predicate Sound(t: Thread) {
    match t
    case Working(b, ok) => ok && All(b)
    case Entering(n, ok) => n > 0 ==> ok
    case _ => true
  }

  ghost predicate AllSound(ts: seq<Thread>) {
    forall i :: 0 <= i < |ts| ==> Sound(ts[i])
  }

  ghost predicate Counts(s: State) {
    && s.nTodo == |s.queue| + Sum(s.threads, InFlight)
    && s.nTodo <= |s.added|
    && s.nIdle == Sum(s.threads, Idle)
    && s.nTotal == Sum(s.threads, Active)
  }

  ghost predicate Invariant(s: State) {
    && 0 < |s.threads|
    && Counts(s)
    && (forall i :: 0 <= i < |s.threads| && s.threads[i].Working? ==> s.threads[i].batch != [])
    && (s.fAllOk && AllSound(s.threads) && All(s.queue) <==> All(s.added))
    && (s.threads[0].Sleeping? ==> s.queue == [])
    && (s.threads[0].Sleeping? && s.nTodo == 0 ==> s.threads[0].notified)
  }

  predicate Enabled(s: State, a: Step) {
    && 0 < |s.threads|
    && match a
       case AddChecks(_, _) => s.threads[0] == Outside
       case CallWait => s.threads[0] == Outside
       case StartWorker(t) => 0 < t < |s.threads| && s.threads[t] == Outside
       case Acquire(t) => t < |s.threads| && s.threads[t].Entering?
       case Wake(t) => t < |s.threads| && s.threads[t].Sleeping?
       case Work(t) => t < |s.threads| && s.threads[t].Working?
  }

  /** The counters are such that the batch size can be computed. */
  predicate Defined(s: State, a: Step) {
    Enabled(s, a) && s.nTotal >= 0 && s.nIdle >= if a.Wake? then 1 else 0
  }

  lemma InvariantDefined(s: State, a: Step)
    requires Invariant(s) && Enabled(s, a)
    ensures Defined(s, a)
  {
    if a.Wake? { SumPart(s.threads, a.t, Idle); }
  }

  function Next(s: State, a: Step): State
    requires Defined(s, a)
  {
    match a
    case AddChecks(checks, woken) =>
      s.(queue := s.queue + checks, nTodo := s.nTodo + |checks|, added := s.added + checks,
         threads :=
           if |checks| == 1 && 0 < woken < |s.threads| && s.threads[woken].Sleeping?
           then s.threads[woken := Sleeping(true)]
           else if |checks| > 1 then NotifyAll(s.threads)
           else s.threads)
    case CallWait => s.(threads := s.threads[0 := Entering(0, true)])
    case StartWorker(t) => s.(threads := s.threads[t := Entering(0, true)])
    case Acquire(t) => Decide(Report(s, t), t)
    case Wake(t) => Decide(s.(nIdle := s.nIdle - 1), t)
    case Work(t) =>
      var w := s.threads[t];
      s.(threads := s.threads[t := Entering(|w.batch|, w.ok && Passed(w.batch))])
  }

  // ---- every step keeps the invariant ----

  /** Replacing one thread moves each sum by the difference. */
  lemma Sums(ts: seq<Thread>, i: nat, x: Thread)
    requires i < |ts|
    ensures Sum(ts[i := x], InFlight) == Sum(ts, InFlight) - InFlight(ts[i]) + InFlight(x)
    ensures Sum(ts[i := x], Idle) == Sum(ts, Idle) - Idle(ts[i]) + Idle(x)
    ensures Sum(ts[i := x], Active) == Sum(ts, Active) - Active(ts[i]) + Active(x)
    ensures InFlight(ts[i]) <= Sum(ts, InFlight) && Idle(ts[i]) <= Sum(ts, Idle) && Active(ts[i]) <= Sum(ts, Active)
  {
    SumUpdate(ts, i, x, InFlight);
    SumUpdate(ts, i, x, Idle);
    SumUpdate(ts, i, x, Active);
    SumPart(ts, i, InFlight);
    SumPart(ts, i, Idle);
    SumPart(ts, i, Active);
  }

  lemma SoundUpdate(ts: seq<Thread>, i: nat, x: Thread)
    requires i < |ts|
    ensures Sound(ts[i]) && AllSound(ts[i := x]) <==> Sound(x) && AllSound(ts)
  {
    if AllSound(ts) {
      assert Sound(ts[i]);
    }
    if AllSound(ts[i := x]) {
      assert Sound(ts[i := x][i]);
      forall k | 0 <= k < |ts| && k != i ensures Sound(ts[k]) {
        assert ts[i := x][k] == ts[k];
      }
    }
  }

  lemma AllSplit(q: seq<Check>, n: nat)
    requires n <= |q|
    ensures All(q) <==> All(q[..n]) && All(Reversed(q[n..]))
  {
    var r := Reversed(q[n..]);
    if All(r) && All(q[..n]) {
      forall i | 0 <= i < |q| ensures q[i] {
        if i < n { assert q[..n][i] == q[i]; } else { assert r[|q| - 1 - i] == q[i]; }
      }
    }
  }

  lemma AllAppend(q: seq<Check>, r: seq<Check>)
    ensures All(q + r) <==> All(q) && All(r)
  {
    if All(q + r) {
      assert forall i :: 0 <= i < |q| ==> q[i] == (q + r)[i];
      assert forall i :: 0 <= i < |r| ==> r[i] == (q + r)[|q| + i];
    }
  }

  /** The invariant while thread t holds the lock and has nothing in flight. */
  ghost predicate Locked(s: State, t: nat) {
    && t < |s.threads|
    && var others := s.threads[t := Outside];
    && s.nTodo == |s.queue| + Sum(others, InFlight)
    && s.nTodo <= |s.added|
    && s.nIdle == Sum(others, Idle)
    && s.nTotal == Sum(others, Active) + 1
    && (forall i :: 0 <= i < |others| && others[i].Working? ==> others[i].batch != [])
    && (s.fAllOk && AllSound(others) && All(s.queue) <==> All(s.added))
    && (t != 0 && s.threads[0].Sleeping? ==> s.queue == [] && (s.nTodo == 0 ==> s.threads[0].notified))
  }

  lemma ReportLocked(s: State, t: nat)
    requires Invariant(s) && t < |s.threads| && s.threads[t].Entering?
    ensures Locked(Report(s, t), t)
  {
    hide All;
    Sums(s.threads, t, Outside);
    SoundUpdate(s.threads, t, Outside);
    var u := Report(s, t);
    if t != 0 && s.threads[0].Sleeping? && u.threads != s.threads {
      var others := s.threads[t := Outside];
      assert u.threads[t := Outside] == others[0 := Sleeping(true)];
      Sums(others, 0, Sleeping(true));
      SoundUpdate(others, 0, Sleeping(true));
    }
  }

  lemma WakeLocked(s: State, t: nat)
    requires Invariant(s) && t < |s.threads| && s.threads[t].Sleeping?
    ensures Locked(s.(nIdle := s.nIdle - 1), t)
  {
    hide All;
    Sums(s.threads, t, Outside);
    SoundUpdate(s.threads, t, Outside);
  }

  ghost predicate Returns(s: State, t: nat) {
    t == 0 && s.queue == [] && s.nTodo == 0
  }

  /** With nothing queued or in flight, the flag is the conjunction of
      everything added, however many checks were skipped. */
  lemma ReturnExact(s: State, t: nat)
    requires Locked(s, t) && Returns(s, t)
    ensures s.fAllOk <==> All(s.added)
  {
    var others := s.threads[t := Outside];
    SumZero(others, InFlight);
    forall i | 0 <= i < |others| ensures Sound(others[i]) {
      assert InFlight(others[i]) == 0;
    }
  }

  lemma DecideInvariant(s: State, t: nat)
    requires Locked(s, t)
    ensures Invariant(Decide(s, t))
  {
    var others := s.threads[t := Outside];
    var u := Decide(s, t);
    assert u.threads == others[t := u.threads[t]];
    if Returns(s, t) {
      ReturnExact(s, t);
      SumZero(others, InFlight);
      forall i | 0 <= i < |others| ensures Sound(others[i]) {
        assert InFlight(others[i]) == 0;
      }
      assert u.threads == others;
    } else {
      Sums(others, t, u.threads[t]);
      SoundUpdate(others, t, u.threads[t]);
      if s.queue != [] {
        AllSplit(s.queue, |s.queue| - BatchSize(s));
      }
    }
  }

  lemma NotifySums(ts: seq<Thread>)
    ensures forall i :: 0 <= i < |ts| && NotifyAll(ts)[i].Working? ==> NotifyAll(ts)[i] == ts[i]
    ensures ts != [] ==> NotifyAll(ts)[0] == ts[0]
    ensures Sum(NotifyAll(ts), InFlight) == Sum(ts, InFlight)
    ensures Sum(NotifyAll(ts), Idle) == Sum(ts, Idle)
    ensures Sum(NotifyAll(ts), Active) == Sum(ts, Active)
    ensures AllSound(NotifyAll(ts)) <==> AllSound(ts)
  {
    var us := NotifyAll(ts);
    SumSame(us, ts, InFlight);
    SumSame(us, ts, Idle);
    SumSame(us, ts, Active);
    assert forall i :: 0 <= i < |ts| ==> (Sound(us[i]) <==> Sound(ts[i]));
  }

  lemma AddInvariant(s: State, checks: seq<Check>, woken: nat)
    requires Invariant(s) && Enabled(s, AddChecks(checks, woken))
    ensures Defined(s, AddChecks(checks, woken)) && Invariant(Next(s, AddChecks(checks, woken)))
  {
    hide All, Sum, AllSound, NotifyAll;
    AllAppend(s.queue, checks);
    AllAppend(s.added, checks);
    InvariantDefined(s, AddChecks(checks, woken));
    var ts := Next(s, AddChecks(checks, woken)).threads;
    if |checks| == 1 && 0 < woken < |s.threads| && s.threads[woken].Sleeping? {
      Sums(s.threads, woken, Sleeping(true));
      SoundUpdate(s.threads, woken, Sleeping(true));
    } else if |checks| > 1 {
      NotifySums(s.threads);
    }
    assert Woken(s.threads, ts);
  }

  /** The threads are the same up to pending wake-ups of workers. */
  ghost predicate Woken(ts: seq<Thread>, us: seq<Thread>) {
    && |us| == |ts| > 0 && us[0] == ts[0]
    && (forall i :: 0 <= i < |ts| && us[i].Working? ==> us[i] == ts[i])
    && Sum(us, InFlight) == Sum(ts, InFlight) && Sum(us, Idle) == Sum(ts, Idle) && Sum(us, Active) == Sum(ts, Active)
    && (AllSound(us) <==> AllSound(ts))
  }

  lemma StepInvariant(s: State, a: Step)
    requires Invariant(s) && Enabled(s, a)
    ensures Defined(s, a) && Invariant(Next(s, a))
  {
    hide All, Decide, Report;
    InvariantDefined(s, a);
    match a
    case AddChecks(checks, woken) =>
      AddInvariant(s, checks, woken);
    case CallWait =>
      ReplaceInvariant(s, 0, Entering(0, true));
    case StartWorker(t) =>
      ReplaceInvariant(s, t, Entering(0, true));
    case Acquire(t) =>
      ReportLocked(s, t);
      DecideInvariant(Report(s, t), t);
    case Wake(t) =>
      WakeLocked(s, t);
      DecideInvariant(s.(nIdle := s.nIdle - 1), t);
    case Work(t) =>
      var w := s.threads[t];
      ReplaceInvariant(s, t, Entering(|w.batch|, w.ok && Passed(w.batch)));
  }

  /** Steps outside the lock change one thread and nothing it is counted for. */
  lemma ReplaceInvariant(s: State, t: nat, x: Thread)
    requires Invariant(s) && t < |s.threads| && !s.threads[t].Sleeping? && x.Entering?
    requires if s.threads[t].Working?
             then x.done == |s.threads[t].batch| && (x.ok <==> Sound(s.threads[t]))
             else s.threads[t].Outside? && x.done == 0
    ensures Invariant(s.(threads := s.threads[t := x]))
  {
    var ts := s.threads[t := x];
    Sums(s.threads, t, x);
    SoundUpdate(s.threads, t, x);
    assert AllSound(ts) ==> Sound(ts[t]);
    assert AllSound(s.threads) ==> Sound(s.threads[t]);
  }

  // ---- whole runs ----

  /** A step of some thread. Where a counter has gone wrong anything may follow. */
  ghost predicate Follows(s: State, a: Step, s': State) {
    Enabled(s, a) && (Defined(s, a) ==> s' == Next(s, a))
  }

  ghost predicate Run(states: seq<State>, steps: seq<Step>) {
    && |states| == |steps| + 1
    && forall i :: 0 <= i < |steps| ==> Follows(states[i], steps[i], states[i + 1])
  }

  lemma {:induction false} RunInvariant(states: seq<State>, steps: seq<Step>, i: nat)
    requires Run(states, steps) && i <= |steps| && Invariant(states[0])
    ensures Invariant(states[i])
  {
    hide Invariant, Next, Defined, Enabled;
    if i > 0 {
      RunInvariant(states, steps, i - 1);
      assert Follows(states[i - 1], steps[i - 1], states[i]);
      StepInvariant(states[i - 1], steps[i - 1]);
    }
  }

  ghost predicate Starts(s: State) {
    exists workers: nat, batchSize: nat :: s == Initial(workers, batchSize)
  }

  /** Some run of any interleaving of the threads leads to the state. */
  ghost predicate Reachable(s: State) {
    exists states, steps :: Run(states, steps) && Starts(states[0]) && states[|steps|] == s
  }

  lemma InitialInvariant(s: State)
    requires Starts(s)
    ensures Invariant(s)
  {
    SumZero(s.threads, InFlight);
    SumZero(s.threads, Idle);
    SumZero(s.threads, Active);
  }

  lemma ReachableInvariant(s: State)
    requires Reachable(s)
    ensures Invariant(s)
  {
    hide Invariant, Starts;
    var states, steps :| Run(states, steps) && Starts(states[0]) && states[|steps|] == s;
    InitialInvariant(states[0]);
    RunInvariant(states, steps, |steps|);
  }

  /** The state in which a step's critical section reaches its decision. */
  ghost function Deciding(s: State, a: Step): State
    requires Invariant(s) && Enabled(s, a) && (a.Acquire? || a.Wake?)
  {
    if a.Acquire? then Report(s, a.t) else s.(nIdle := s.nIdle - 1)
  }

  /** Wait returns exactly the conjunction of the checks added since the last Wait. */
  lemma WaitExact(s: State, a: Step)
    requires Invariant(s) && Enabled(s, a) && (a.Acquire? || a.Wake?)
    requires Returns(Deciding(s, a), a.t)
    ensures Deciding(s, a).fAllOk <==> All(s.added)
    ensures Defined(s, a) && Next(s, a).threads[0] == Outside && Next(s, a).added == [] && Next(s, a).fAllOk
  {
    hide All;
    InvariantDefined(s, a);
    if a.Acquire? { ReportLocked(s, a.t); } else { WakeLocked(s, a.t); }
    ReturnExact(Deciding(s, a), a.t);
  }

  predicate IsIdle(s: State) {
    s.nTotal == s.nIdle && s.nTodo == 0 && s.fAllOk
  }

  /** Whenever the master is out of Wait and has added nothing since, the queue
      is idle: the assertion in CCheckQueueControl cannot fail. */
  lemma QuiescentIsIdle(s: State)
    requires Reachable(s) && s.threads != [] && s.threads[0] == Outside && s.added == []
    ensures IsIdle(s)
  {
    ReachableInvariant(s);
    SumZero(s.threads, InFlight);
    forall i | 0 <= i < |s.threads| ensures Active(s.threads[i]) == Idle(s.threads[i]) {
      assert InFlight(s.threads[i]) == 0;
    }
    SameSums(s.threads);
    assert All(s.added);
  }

  lemma {:induction false} SameSums(ts: seq<Thread>)
    requires forall i :: 0 <= i < |ts| ==> Active(ts[i]) == Idle(ts[i])
    ensures Sum(ts, Active) == Sum(ts, Idle)
  {
    if ts != [] { SameSums(ts[1..]); }
  }

  // ---- progress ----

  function Weight(t: Thread): nat {
    match t
    case Outside => 0
    case Entering(n, _) => 2 * n + 1
    case Sleeping(notified) => if notified then 1 else 0
    case Working(b, _) => 4 * |b|
  }

  /** How much is left to do before everyone sleeps or leaves. */
  function Remaining(s: State): nat {
    5 * |s.queue| + Sum(s.threads, Weight)
  }

  /** A step inside Loop. */
  predicate Inner(a: Step) { a.Acquire? || a.Wake? || a.Work? }

  /** A step inside Loop that is not a spurious wake-up. */
  predicate Effective(s: State, a: Step) {
    Enabled(s, a) && Inner(a) && (a.Wake? ==> s.threads[a.t].notified)
  }

  lemma DecideWeight(s: State, t: nat)
    requires t < |s.threads| && s.nTotal >= 0 && s.nIdle >= 0
    ensures Remaining(Decide(s, t)) <= Remaining(s) - Weight(s.threads[t])
    ensures s.queue != [] ==> Remaining(Decide(s, t)) < Remaining(s) - Weight(s.threads[t])
  {
    SumUpdate(s.threads, t, Decide(s, t).threads[t], Weight);
  }

  /** Reporting may wake the master, which weighs less than the checks reported. */
  lemma ReportWeight(s: State, t: nat)
    requires 0 < |s.threads| && t < |s.threads| && s.threads[t].Entering?
    ensures Report(s, t).threads[t] == s.threads[t]
    ensures Remaining(Report(s, t)) < Remaining(s) + Weight(s.threads[t])
  {
    SumUpdate(s.threads, 0, Sleeping(true), Weight);
  }

  /** Every effective step leaves less to do, and a spurious wake-up not more. */
  lemma EffectiveDecreases(s: State, a: Step)
    requires Invariant(s) && Enabled(s, a) && Inner(a)
    ensures Defined(s, a) && Remaining(Next(s, a)) <= Remaining(s) - if Effective(s, a) then 1 else 0
  {
    hide Invariant, Decide, Report, Remaining, Locked;
    InvariantDefined(s, a);
    match a
    case Acquire(t) =>
      ReportLocked(s, t);
      LockedCounts(Report(s, t), t);
      ReportWeight(s, t);
      DecideWeight(Report(s, t), t);
    case Wake(t) =>
      WokenWeight(s);
      DecideWeight(s.(nIdle := s.nIdle - 1), t);
    case Work(t) =>
      InvariantBatch(s, t);
      WorkWeight(s, t);
  }

  lemma LockedCounts(s: State, t: nat)
    requires Locked(s, t)
    ensures t < |s.threads| && s.nTotal >= 0 && s.nIdle >= 0
  {
  }

  lemma WokenWeight(s: State)
    ensures Remaining(s.(nIdle := s.nIdle - 1)) == Remaining(s)
  {
  }

  lemma InvariantBatch(s: State, t: nat)
    requires Invariant(s) && t < |s.threads| && s.threads[t].Working?
    ensures s.threads[t].batch != []
  {
  }

  lemma WorkWeight(s: State, t: nat)
    requires Defined(s, Work(t)) && s.threads[t].batch != []
    ensures Remaining(Next(s, Work(t))) < Remaining(s)
  {
    var w := s.threads[t];
    SumUpdate(s.threads, t, Entering(|w.batch|, w.ok && Passed(w.batch)), Weight);
  }

  lemma SomeEffective(s: State)
    requires Invariant(s) && s.threads[0] != Outside
    ensures exists a :: Effective(s, a)
  {
    match s.threads[0] {
      case Entering(_, _) => assert Effective(s, Acquire(0));
      case Working(_, _) => assert Effective(s, Work(0));
      case Sleeping(notified) =>
        if notified {
          assert Effective(s, Wake(0));
        } else {
          SumZero(s.threads, InFlight);
          var i :| 0 <= i < |s.threads| && InFlight(s.threads[i]) != 0;
          if s.threads[i].Working? {
            assert Effective(s, Work(i));
          } else {
            assert Effective(s, Acquire(i));
          }
        }
    }
  }

  /** While the master is inside Wait some effective step is enabled: no
      interleaving deadlocks and no wake-up of the master is lost. */
  lemma NoDeadlock(s: State)
    requires Reachable(s) && s.threads != [] && s.threads[0] != Outside
    ensures exists a :: Effective(s, a)
  {
    ReachableInvariant(s);
    SomeEffective(s);
  }

  ghost function EffectiveCount(states: seq<State>, steps: seq<Step>): nat
    requires |states| == |steps| + 1
    decreases |steps|
  {
    if steps == [] then 0
    else
      var n := |steps| - 1;
      EffectiveCount(states[..n + 1], steps[..n]) + if Effective(states[n], steps[n]) then 1 else 0
  }

  lemma {:induction false} RunBounded(states: seq<State>, steps: seq<Step>)
    requires Run(states, steps) && Invariant(states[0])
    requires forall i :: 0 <= i < |steps| ==> Inner(steps[i])
    ensures EffectiveCount(states, steps) + Remaining(states[|steps|]) <= Remaining(states[0])
    decreases |steps|
  {
    hide Invariant, Next, Defined, Enabled, Effective, Inner, Remaining;
    if steps != [] {
      var n := |steps| - 1;
      RunBounded(states[..n + 1], steps[..n]);
      RunInvariant(states, steps, n);
      assert Follows(states[n], steps[n], states[n + 1]);
      EffectiveDecreases(states[n], steps[n]);
    }
  }

  /** However the threads interleave, and however often they wake for nothing,
      at most Remaining effective steps are taken while nothing is added, and
      until the master has returned there is a next one. */
  lemma WaitProgress(states: seq<State>, steps: seq<Step>)
    requires Run(states, steps) && Reachable(states[0])
    requires forall i :: 0 <= i < |steps| ==> Inner(steps[i])
    ensures EffectiveCount(states, steps) <= Remaining(states[0])
    ensures var s := states[|steps|];
      s.threads != [] && (s.threads[0] == Outside || exists a :: Effective(s, a))
  {
    hide Follows, Remaining, EffectiveCount, Effective, Inner;
    ReachableInvariant(states[0]);
    RunBounded(states, steps);
    RunInvariant(states, steps, |steps|);
    if states[|steps|].threads[0] != Outside { SomeEffective(states[|steps|]); }
  }

  /** From any state in which the master waits, some run of at most Remaining
      effective steps brings it back. */
  lemma WaitReturns(s: State) returns (states: seq<State>, steps: seq<Step>)
    requires Reachable(s)
    ensures Run(states, steps) && states[0] == s && states[|steps|].threads != []
    ensures states[|steps|].threads[0] == Outside && |steps| <= Remaining(s)
    ensures forall i :: 0 <= i < |steps| ==> Effective(states[i], steps[i])
  {
    hide Invariant, Reachable, Follows, Effective, Remaining;
    ReachableInvariant(s);
    states, steps := Returning(s);
  }

  lemma {:induction false} Returning(s: State) returns (states: seq<State>, steps: seq<Step>)
    requires Invariant(s)
    ensures Run(states, steps) && states[0] == s && states[|steps|].threads != []
    ensures states[|steps|].threads[0] == Outside && |steps| <= Remaining(s)
    ensures forall i :: 0 <= i < |steps| ==> Effective(states[i], steps[i])
    decreases Remaining(s)
  {
    hide Next, Defined, Enabled, Remaining, Counts;
    if s.threads[0] == Outside { return [s], []; }
    SomeEffective(s);
    var a :| Effective(s, a);
    StepInvariant(s, a);
    EffectiveDecreases(s, a);
    var rest, more := Returning(Next(s, a));
    states, steps := [s] + rest, [a] + more;
    assert forall i :: 0 < i < |steps| ==> steps[i] == more[i - 1] && states[i] == rest[i - 1];
    forall i | 0 <= i < |steps| ensures Follows(states[i], steps[i], states[i + 1]) {
      if i > 0 { assert Follows(rest[i - 1], more[i - 1], rest[i]); }
    }
  }
}
