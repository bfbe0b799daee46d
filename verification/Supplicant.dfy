/**
 * The thread pool of tee-supplicant: every thread serves requests from the TEE
 * driver in a loop, and a thread that takes the last free slot spawns another
 * thread first. The pool is a state machine: one step is what one thread does
 * between two points where the other threads can observe it, and a run is any
 * interleaving of such steps.
 */
module Supplicant {
  import opened Common

  /** Where a thread stands, named after what it does next. */
  datatype Pc =
    | Starting       // spawned, not scheduled yet: num_waiters_dec() of thread_main()
    | LoopTest       // while (!arg->abort)
    | Announce       // num_waiters_inc() of process_one_request()
    | Receiving      // read_request() and find_params()
    | Retire         // num_waiters_dec() of process_one_request()
    | SpawnAnnounce  // num_waiters_inc() of spawn_thread()
    | SpawnCreate    // pthread_create()
    | SpawnUndo      // num_waiters_dec() of spawn_thread(), pthread_create() failed
    | Handling       // the request handler
    | Sending        // write_response()
    | Aborting       // arg->abort = true
    | Exited

  /** What the environment decides during a step. */
  datatype Event =
    | Proceed                     // the call made by the step succeeds
    | Fail                        // the call made by the step fails
    | Request(meta: seq<bool>)    // a request arrives; one flag per parameter

  /**
   * The shared fields of struct thread_arg and the program counters.
   * `assertFailed` records that assert(arg->num_waiters) fired. `leaked` is a
   * history variable: how many increments of process_one_request() are never
   * taken back, because the receive failed or the request had no meta parameter.
   */
  datatype Pool = Pool(threads: seq<Pc>, waiters: nat, abort: bool, assertFailed: bool, leaked: nat)

  /** main() enters the request loop itself. */
  const INITIAL := Pool([LoopTest], 0, false, false, 0)

  // ----- find_params() -----

  /** Number of meta parameters in front of the first other parameter. */
  function LeadingMeta(meta: seq<bool>): (n: nat)
    ensures n <= |meta|
    ensures forall i :: 0 <= i < n ==> meta[i]
    ensures n < |meta| ==> !meta[n]
  {
    if meta == [] || !meta[0] then 0 else 1 + LeadingMeta(meta[1..])
  }

  predicate MetaInFront(meta: seq<bool>) {
    forall i :: LeadingMeta(meta) <= i < |meta| ==> !meta[i]
  }

  /** Accepts a parameter list exactly when no meta parameter follows another parameter. */
  method FindParams(meta: seq<bool>) returns (ok: bool, numMeta: nat)
    ensures numMeta == LeadingMeta(meta)
    ensures ok <==> MetaInFront(meta)
    ensures ok <==> forall i, j :: 0 <= i < j < |meta| && meta[j] ==> meta[i]
  {
    var n := 0;
    while n < |meta| && meta[n]
      invariant n <= |meta|
      invariant forall i :: 0 <= i < n ==> meta[i]
    {
      n := n + 1;
    }
    numMeta := n;
    while n < |meta|
      invariant numMeta <= n <= |meta|
      invariant forall i :: numMeta <= i < n ==> !meta[i]
    {
      if meta[n] {
        assert meta[n] && !meta[numMeta];
        return false, numMeta;
      }
      n := n + 1;
    }
    ok := true;
  }

  // ----- The steps -----

  /** num_waiters_dec() by thread t, which goes on at `next`. */
  function Decrement(s: Pool, t: nat, next: Pc): (r: Pool)
    requires t < |s.threads|
  {
    if s.waiters == 0 then s.(assertFailed := true)
    else s.(waiters := s.waiters - 1, threads := s.threads[t := next])
  }

  function Increment(s: Pool, t: nat, next: Pc): (r: Pool)
    requires t < |s.threads|
  {
    s.(waiters := s.waiters + 1, threads := s.threads[t := next])
  }

  function Goto(s: Pool, t: nat, next: Pc): (r: Pool)
    requires t < |s.threads|
  {
    s.(threads := s.threads[t := next])
  }

  /** The counter increment of thread t is never taken back. */
  function Leak(s: Pool, t: nat, next: Pc): (r: Pool)
    requires t < |s.threads|
  {
    s.(leaked := s.leaked + 1, threads := s.threads[t := next])
  }

  function Receive(s: Pool, t: nat, e: Event): (r: Option<Pool>)
    requires t < |s.threads|
  {
    match e
    case Proceed => None
    case Fail => Some(Leak(s, t, Aborting))
    case Request(meta) =>
      if !MetaInFront(meta) then Some(Leak(s, t, Aborting))
      else if LeadingMeta(meta) == 0 then Some(Leak(s, t, Handling))
      else Some(Goto(s, t, Retire))
  }

  /** The step of thread t under event e; None when that event cannot happen there. */
  function Step(s: Pool, t: nat, e: Event): (r: Option<Pool>)
    requires t < |s.threads|
  {
    match s.threads[t]
    case Receiving => Receive(s, t, e)
    case SpawnCreate =>
      if e.Proceed? then Some(s.(threads := s.threads[t := Handling] + [Starting]))
      else if e.Fail? then Some(Goto(s, t, SpawnUndo))
      else None
    case Sending =>
      if e.Proceed? then Some(Goto(s, t, LoopTest))
      else if e.Fail? then Some(Goto(s, t, Aborting))
      else None
    case _ => if e.Proceed? then Internal(s, t) else None
  }

  /** The steps that involve no call that can fail. */
  function Internal(s: Pool, t: nat): (r: Option<Pool>)
    requires t < |s.threads|
  {
    match s.threads[t]
    case Starting => Some(Decrement(s, t, LoopTest))
    case LoopTest => Some(Goto(s, t, if s.abort then Exited else Announce))
    case Announce => Some(Increment(s, t, Receiving))
    case Retire => Some(Decrement(s, t, if s.waiters == 1 then SpawnAnnounce else Handling))
    case SpawnAnnounce => Some(Increment(s, t, SpawnCreate))
    case SpawnUndo => Some(Decrement(s, t, Aborting))
    case Handling => Some(Goto(s, t, Sending))
    case Aborting => Some(Goto(s, t, LoopTest).(abort := true))
    case _ => None
  }

  // ----- Runs -----

  datatype Move = Move(thread: nat, event: Event)

  /** The state after a run from `s`; None when the moves are not a run. A fired assert ends the process. */
  function Run(s: Pool, moves: seq<Move>): (r: Option<Pool>)
    decreases |moves|
  {
    if moves == [] then Some(s)
    else
      var before := Run(s, moves[..|moves| - 1]);
      var m := moves[|moves| - 1];
      if before.None? || before.value.assertFailed || m.thread >= |before.value.threads| then None
      else Step(before.value, m.thread, m.event)
  }

  /** No call fails and every request carries a meta parameter, in front. */
  predicate Clean(moves: seq<Move>) {
    forall i :: 0 <= i < |moves| ==> CleanEvent(moves[i].event)
  }

  predicate CleanEvent(e: Event) {
    match e
    case Proceed => true
    case Fail => false
    case Request(meta) => MetaInFront(meta) && LeadingMeta(meta) > 0
  }

  // ----- Counting threads -----

  /** 1 when the thread holds an increment of num_waiters that it, or the thread it spawns, will take back. */
  function Holds(p: Pc): (w: nat) {
    match p
    case Starting => 1
    case Receiving => 1
    case Retire => 1
    case SpawnCreate => 1
    case SpawnUndo => 1
    case _ => 0
  }

  /** 1 when the thread gets to the receive call, or spawns a thread that does, without finishing a handler. */
  function Comes(p: Pc): (w: nat) {
    match p
    case Starting => 1
    case LoopTest => 1
    case Announce => 1
    case Receiving => 1
    case Retire => 1
    case SpawnAnnounce => 1
    case SpawnCreate => 1
    case _ => 0
  }

  /** Upper bound on the steps a thread and the thread it spawns take before they wait. */
  function Work(p: Pc): (w: nat) {
    match p
    case Starting => 3
    case LoopTest => 2
    case Announce => 1
    case Retire => 6
    case SpawnAnnounce => 5
    case SpawnCreate => 4
    case SpawnUndo => 4
    case Sending => 4
    case Aborting => 3
    case _ => 0
  }

  function Sum(threads: seq<Pc>, weight: Pc -> nat): (n: nat)
  {
    if threads == [] then 0 else Sum(threads[..|threads| - 1], weight) + weight(threads[|threads| - 1])
  }

  lemma {:induction false} SumUpdate(threads: seq<Pc>, t: nat, p: Pc, weight: Pc -> nat)
    requires t < |threads|
    ensures Sum(threads[t := p], weight) == Sum(threads, weight) - weight(threads[t]) + weight(p)
    ensures Sum(threads, weight) >= weight(threads[t])
  {
    var last := |threads| - 1;
    if t == last {
      assert threads[t := p][..last] == threads[..last];
    } else {
      assert threads[t := p][..last] == threads[..last][t := p];
      SumUpdate(threads[..last], t, p, weight);
    }
  }

  lemma SumAppend(threads: seq<Pc>, p: Pc, weight: Pc -> nat)
    ensures Sum(threads + [p], weight) == Sum(threads, weight) + weight(p)
  {
    assert (threads + [p])[..|threads|] == threads;
  }

  lemma {:induction false} SumPositive(threads: seq<Pc>, weight: Pc -> nat) returns (t: nat)
    requires Sum(threads, weight) > 0
    ensures t < |threads| && weight(threads[t]) > 0
  {
    var last := |threads| - 1;
    if weight(threads[last]) > 0 {
      t := last;
    } else {
      t := SumPositive(threads[..last], weight);
    }
  }

  /** Every held increment comes from a thread that also counts as coming. */
  lemma {:induction false} HoldsAtMostComes(threads: seq<Pc>)
    requires SpawnUndo !in threads
    ensures Sum(threads, Holds) <= Sum(threads, Comes)
  {
    if threads != [] {
      HoldsAtMostComes(threads[..|threads| - 1]);
    }
  }

  // ----- What every run keeps -----

  /** num_waiters counts the held increments and the leaked ones, and no decrement finds it at zero. */
  predicate Accounted(s: Pool) {
    !s.assertFailed && s.waiters == Sum(s.threads, Holds) + s.leaked
  }

  /** A thread that holds an increment finds the counter above zero. */
  lemma HoldersFindIt(s: Pool, t: nat)
    requires t < |s.threads| && Accounted(s)
    ensures Holds(s.threads[t]) > 0 ==> s.waiters > 0
  {
    SumUpdate(s.threads, t, s.threads[t], Holds);
  }

  /** One thread moves to `p`; the counter and the leaks change with what the thread holds. */
  lemma MoveAccounts(s: Pool, t: nat, p: Pc, r: Pool)
    requires t < |s.threads| && Accounted(s) && !r.assertFailed
    requires r.threads == s.threads[t := p]
    requires r.waiters - r.leaked - Holds(p) == s.waiters - s.leaked - Holds(s.threads[t])
    ensures Accounted(r)
  {
    SumUpdate(s.threads, t, p, Holds);
  }

  /**
   * Every step but a successful pthread_create() moves one thread, and keeps the balance
   * of counter, leaks and what the thread holds.
   */
  lemma StepBalance(s: Pool, t: nat, e: Event)
    requires t < |s.threads| && !s.assertFailed && (Holds(s.threads[t]) > 0 ==> s.waiters > 0)
    requires Step(s, t, e).Some? && !(s.threads[t].SpawnCreate? && e.Proceed?)
    ensures var r := Step(s, t, e).value;
            && |r.threads| == |s.threads| && r.threads == s.threads[t := r.threads[t]] && !r.assertFailed
            && r.waiters - r.leaked - Holds(r.threads[t]) == s.waiters - s.leaked - Holds(s.threads[t])
  {
  }

  lemma StepAccounts(s: Pool, t: nat, e: Event)
    requires t < |s.threads| && Accounted(s)
    ensures Step(s, t, e).Some? ==> Accounted(Step(s, t, e).value)
  {
    var r := Step(s, t, e);
    if r.Some? {
      if s.threads[t].SpawnCreate? && e.Proceed? {
        SumUpdate(s.threads, t, Handling, Holds);
        SumAppend(s.threads[t := Handling], Starting, Holds);
      } else {
        HoldersFindIt(s, t);
        StepBalance(s, t, e);
        MoveAccounts(s, t, r.value.threads[t], r.value);
      }
    }
  }

  /** In every run, failures included, the counter is exact and its assert never fires. */
  lemma {:induction false} CounterIsExact(moves: seq<Move>)
    ensures Run(INITIAL, moves).Some? ==> Accounted(Run(INITIAL, moves).value)
    decreases |moves|
  {
    if moves == [] {
      assert Sum([LoopTest], Holds) == 0 by { SumAppend([], LoopTest, Holds); }
    } else {
      CounterIsExact(moves[..|moves| - 1]);
      var before := Run(INITIAL, moves[..|moves| - 1]);
      var m := moves[|moves| - 1];
      if before.Some? && m.thread < |before.value.threads| {
        StepAccounts(before.value, m.thread, m.event);
      }
    }
  }

  /** What a run without failures keeps besides: some thread is listening or on its way there. */
  predicate Attended(s: Pool) {
    && Accounted(s) && s.leaked == 0 && !s.abort
    && (forall t :: 0 <= t < |s.threads| ==>
          !s.threads[t].SpawnUndo? && !s.threads[t].Aborting? && !s.threads[t].Exited?)
    && Sum(s.threads, Comes) > 0
  }

  /** In a clean step, a thread that no longer comes leaves a positive counter behind. */
  lemma CleanBalance(s: Pool, t: nat, e: Event)
    requires t < |s.threads| && Attended(s) && CleanEvent(e) && (Holds(s.threads[t]) > 0 ==> s.waiters > 0)
    requires Step(s, t, e).Some? && !s.threads[t].SpawnCreate?
    ensures var r := Step(s, t, e).value;
            && !r.abort && r.leaked == 0 && !r.threads[t].SpawnUndo? && !r.threads[t].Aborting? && !r.threads[t].Exited?
            && (Comes(r.threads[t]) >= Comes(s.threads[t]) || r.waiters > 0)
  {
  }

  lemma StepAttends(s: Pool, t: nat, e: Event)
    requires t < |s.threads| && Attended(s) && CleanEvent(e)
    ensures Step(s, t, e).Some? ==> Attended(Step(s, t, e).value)
  {
    StepAccounts(s, t, e);
    var r := Step(s, t, e);
    if r.Some? {
      if s.threads[t].SpawnCreate? {
        SumUpdate(s.threads, t, Handling, Comes);
        SumAppend(s.threads[t := Handling], Starting, Comes);
      } else {
        HoldersFindIt(s, t);
        StepBalance(s, t, e);
        CleanBalance(s, t, e);
        OneMoved(s, t, r.value);
      }
    }
  }

  lemma OneMoved(s: Pool, t: nat, r: Pool)
    requires t < |s.threads| && Attended(s) && Accounted(r) && r.leaked == 0 && !r.abort
    requires |r.threads| == |s.threads| && r.threads == s.threads[t := r.threads[t]]
    requires !r.threads[t].SpawnUndo? && !r.threads[t].Aborting? && !r.threads[t].Exited?
    requires Comes(r.threads[t]) >= Comes(s.threads[t]) || r.waiters > 0
    ensures Attended(r)
  {
    SumUpdate(s.threads, t, r.threads[t], Comes);
    HoldsAtMostComes(r.threads);
  }

  lemma {:induction false} CleanRunsAttend(moves: seq<Move>)
    requires Clean(moves) && Run(INITIAL, moves).Some?
    ensures Attended(Run(INITIAL, moves).value)
    decreases |moves|
  {
    if moves == [] {
      SumAppend([], LoopTest, Holds);
      SumAppend([], LoopTest, Comes);
      assert [] + [LoopTest] == [LoopTest];
    } else {
      CleanRunsAttend(moves[..|moves| - 1]);
      var m := moves[|moves| - 1];
      StepAttends(Run(INITIAL, moves[..|moves| - 1]).value, m.thread, m.event);
    }
  }

  // ----- Availability -----

  /** No thread can move unless a request arrives or a handler finishes. */
  predicate Quiescent(s: Pool) {
    forall t :: 0 <= t < |s.threads| ==> s.threads[t].Receiving? || s.threads[t].Handling? || s.threads[t].Exited?
  }

  /** Moves other than the arrival of a request and the end of a handler. */
  predicate Unprompted(s: Pool, m: Move)
  {
    m.thread < |s.threads| && m.event.Proceed? && !s.threads[m.thread].Handling? && Step(s, m.thread, m.event).Some?
  }

  function Listeners(threads: seq<Pc>): (n: nat)
  {
    Sum(threads, (p: Pc) => if p.Receiving? then 1 else 0)
  }

  lemma {:induction false} QuiescentHoldersListen(threads: seq<Pc>)
    requires forall t :: 0 <= t < |threads| ==> threads[t].Receiving? || threads[t].Handling? || threads[t].Exited?
    ensures Sum(threads, Holds) == Listeners(threads)
  {
    if threads != [] {
      QuiescentHoldersListen(threads[..|threads| - 1]);
    }
  }

  /**
   * When nothing can move by itself, the counter tells exactly how many threads
   * listen, after any run; a request can be received iff the counter exceeds the
   * leaked increments.
   */
  lemma QuiescentCount(moves: seq<Move>)
    requires Run(INITIAL, moves).Some? && Quiescent(Run(INITIAL, moves).value)
    ensures var s := Run(INITIAL, moves).value;
            && s.waiters == Listeners(s.threads) + s.leaked
            && (Receiving in s.threads <==> s.waiters > s.leaked)
  {
    CounterIsExact(moves);
    var s := Run(INITIAL, moves).value;
    QuiescentHoldersListen(s.threads);
    var weight := (p: Pc) => if p.Receiving? then 1 else 0;
    if Listeners(s.threads) > 0 {
      var t := SumPositive(s.threads, weight);
      assert s.threads[t] == Receiving;
    } else if Receiving in s.threads {
      var t :| 0 <= t < |s.threads| && s.threads[t] == Receiving;
      SumUpdate(s.threads, t, Receiving, weight);
      assert false;
    }
  }

  /** A run without failures never ends up with every thread in a handler and nobody listening. */
  lemma AlwaysAListener(moves: seq<Move>)
    requires Clean(moves) && Run(INITIAL, moves).Some? && Quiescent(Run(INITIAL, moves).value)
    ensures Receiving in Run(INITIAL, moves).value.threads
  {
    CleanRunsAttend(moves);
    var s := Run(INITIAL, moves).value;
    var t := SumPositive(s.threads, Comes);
    assert s.threads[t].Receiving?;
  }

  lemma WorkShrinks(s: Pool, m: Move)
    requires Unprompted(s, m) && (Holds(s.threads[m.thread]) > 0 ==> s.waiters > 0) && !s.threads[m.thread].SpawnCreate?
    ensures var r := Step(s, m.thread, m.event).value;
            |r.threads| == |s.threads| && Work(r.threads[m.thread]) < Work(s.threads[m.thread])
  {
  }

  lemma UnpromptedMovesEnd(s: Pool, m: Move)
    requires Unprompted(s, m) && Accounted(s)
    ensures Sum(Step(s, m.thread, m.event).value.threads, Work) < Sum(s.threads, Work)
  {
    HoldersFindIt(s, m.thread);
    var r := Step(s, m.thread, m.event).value;
    if s.threads[m.thread].SpawnCreate? {
      SumUpdate(s.threads, m.thread, Handling, Work);
      SumAppend(s.threads[m.thread := Handling], Starting, Work);
    } else {
      StepBalance(s, m.thread, m.event);
      WorkShrinks(s, m);
      SumUpdate(s.threads, m.thread, r.threads[m.thread], Work);
    }
  }

  /** A state with a thread that can move by itself is not quiescent, and conversely. */
  lemma QuiescentOrMoves(s: Pool) returns (m: Move)
    ensures !Quiescent(s) ==> Unprompted(s, m)
    ensures Quiescent(s) ==> forall other :: !Unprompted(s, other)
  {
    m := Move(0, Proceed);
    if !Quiescent(s) {
      var t :| 0 <= t < |s.threads| && !s.threads[t].Receiving? && !s.threads[t].Handling? && !s.threads[t].Exited?;
      m := Move(t, Proceed);
    }
  }

  /** A run of such moves. */
  predicate UnpromptedRun(s: Pool, moves: seq<Move>)
    decreases |moves|
  {
    moves == [] ||
    var front := moves[..|moves| - 1];
    UnpromptedRun(s, front) && Run(s, front).Some? && Unprompted(Run(s, front).value, moves[|moves| - 1])
  }

  /**
   * However the scheduler picks the threads: after any run without failures, at
   * most Work more moves can follow before the pool waits, and as long as it can
   * still move it is not finished; when it waits, a thread is in the receive call.
   * No handler has to finish for that.
   */
  lemma {:induction false} EveryScheduleReachesAListener(s: Pool, moves: seq<Move>)
    requires Attended(s) && UnpromptedRun(s, moves)
    ensures Run(s, moves).Some? && Attended(Run(s, moves).value)
    ensures |moves| + Sum(Run(s, moves).value.threads, Work) <= Sum(s.threads, Work)
    ensures (exists m :: Unprompted(Run(s, moves).value, m)) || Receiving in Run(s, moves).value.threads
    decreases |moves|
  {
    if moves != [] {
      var front, m := moves[..|moves| - 1], moves[|moves| - 1];
      EveryScheduleReachesAListener(s, front);
      var before := Run(s, front).value;
      UnpromptedMovesEnd(before, m);
      StepAttends(before, m.thread, m.event);
    }
    MovesOrListens(Run(s, moves).value);
  }

  lemma MovesOrListens(s: Pool)
    requires Attended(s)
    ensures (exists m :: Unprompted(s, m)) || Receiving in s.threads
  {
    var m := QuiescentOrMoves(s);
    if Quiescent(s) {
      var t := SumPositive(s.threads, Comes);
      assert s.threads[t].Receiving?;
    }
  }

  // ----- Failures -----

  /** A call fails, or a request has a meta parameter behind another one. */
  predicate Failure(e: Event) {
    e.Fail? || (e.Request? && exists i, j :: 0 <= i < j < |e.meta| && !e.meta[i] && e.meta[j])
  }

  /** What the environment can decide at each point; a thread that has ended does nothing. */
  lemma PossibleIff(s: Pool, t: nat, e: Event)
    requires t < |s.threads|
    ensures Step(s, t, e).Some? <==>
            match s.threads[t]
            case Receiving => e.Fail? || e.Request?
            case SpawnCreate => e.Proceed? || e.Fail?
            case Sending => e.Proceed? || e.Fail?
            case Exited => false
            case _ => e.Proceed?
  {
  }

  /** The thread is on its way to setting the abort flag. */
  predicate Doomed(p: Pc) {
    p == SpawnUndo || p == Aborting
  }

  /** Some thread has set the flag or is going to. */
  predicate Ending(s: Pool) {
    s.abort || exists t :: 0 <= t < |s.threads| && Doomed(s.threads[t])
  }

  lemma FailureDooms(s: Pool, t: nat, e: Event)
    requires t < |s.threads| && Failure(e) && Step(s, t, e).Some?
    ensures var r := Step(s, t, e).value; t < |r.threads| && Doomed(r.threads[t]) && Ending(r)
  {
    var r := Step(s, t, e).value;
    if e.Request? {
      var i, j :| 0 <= i < j < |e.meta| && !e.meta[i] && e.meta[j];
      assert !MetaInFront(e.meta) by {
        assert LeadingMeta(e.meta) <= i;
      }
    }
    assert Doomed(r.threads[t]);
  }

  lemma EndingStays(s: Pool, t: nat, e: Event)
    requires t < |s.threads| && Accounted(s) && Ending(s) && Step(s, t, e).Some?
    ensures Ending(Step(s, t, e).value)
  {
    HoldersFindIt(s, t);
    var r := Step(s, t, e).value;
    if !s.abort {
      var d :| 0 <= d < |s.threads| && Doomed(s.threads[d]);
      if d != t {
        assert r.threads[d] == s.threads[d];
      } else if s.threads[t] == SpawnUndo {
        assert r.threads[t] == Aborting;
      }
    }
  }

  /**
   * Over every run: once a call has failed or a request was malformed, the abort flag
   * is set or about to be set, and when the pool comes to rest it is set.
   */
  lemma {:induction false} FailuresEndTheService(moves: seq<Move>, k: nat)
    requires Run(INITIAL, moves).Some? && k < |moves| && Failure(moves[k].event)
    ensures Ending(Run(INITIAL, moves).value)
    ensures Quiescent(Run(INITIAL, moves).value) ==> Run(INITIAL, moves).value.abort
    decreases |moves|
  {
    var front, m := moves[..|moves| - 1], moves[|moves| - 1];
    CounterIsExact(front);
    var s := Run(INITIAL, front).value;
    if k == |moves| - 1 {
      FailureDooms(s, m.thread, m.event);
    } else {
      assert front[k] == moves[k];
      FailuresEndTheService(front, k);
      EndingStays(s, m.thread, m.event);
    }
  }

  /** Once the flag is set it stays, and a thread that comes to the loop test then ends. */
  lemma AbortIsFinal(s: Pool, t: nat, e: Event)
    requires t < |s.threads| && s.abort && Step(s, t, e).Some?
    ensures var r := Step(s, t, e).value; r.abort && (s.threads[t] == LoopTest ==> r.threads == s.threads[t := Exited])
  {
  }

  // ----- How many threads there are -----

  /**
   * A thread turns to spawning only in the step that takes its increment back, and
   * in that step exactly when it leaves the counter at zero: nobody else waits then.
   * Otherwise it goes on to its handler.
   */
  lemma SpawnsExactlyAtZero(moves: seq<Move>, m: Move, k: nat)
    requires Run(INITIAL, moves + [m]).Some?
    ensures Run(INITIAL, moves).Some? && m.thread < |Run(INITIAL, moves).value.threads|
    ensures var s, r := Run(INITIAL, moves).value, Run(INITIAL, moves + [m]).value;
            && |s.threads| <= |r.threads|
            && (s.threads[m.thread] == Retire ==>
                  && r.threads[m.thread] == (if r.waiters == 0 then SpawnAnnounce else Handling)
                  && s.waiters == r.waiters + 1)
            && (k < |r.threads| && r.threads[k] == SpawnAnnounce ==>
                  k < |s.threads| && (s.threads[k] == SpawnAnnounce || (k == m.thread && s.threads[k] == Retire)))
  {
    assert (moves + [m])[..|moves|] == moves;
    CounterIsExact(moves);
    HoldersFindIt(Run(INITIAL, moves).value, m.thread);
  }

  /** 1 for a thread that is going to create another one. */
  function Spawns(p: Pc): (w: nat) {
    if p == SpawnAnnounce || p == SpawnCreate then 1 else 0
  }

  /** 1 for a thread that num_waiters does not count. */
  function Away(p: Pc): (w: nat) {
    1 - Holds(p)
  }

  lemma {:induction false} AwayOrHolding(threads: seq<Pc>)
    ensures Sum(threads, Away) + Sum(threads, Holds) == |threads|
  {
    if threads != [] {
      AwayOrHolding(threads[..|threads| - 1]);
    }
  }

  /** 1 for a thread that has decided to create another one and has not announced it yet. */
  function Deciding(p: Pc): (w: nat) {
    if p == SpawnAnnounce then 1 else 0
  }

  /** The greatest number of threads of a kind at one moment of a run. */
  function Peak(moves: seq<Move>, weight: Pc -> nat): (n: nat)
    requires Run(INITIAL, moves).Some?
    decreases |moves|
  {
    var now := Sum(Run(INITIAL, moves).value.threads, weight);
    if moves == [] then now
    else
      var before := Peak(moves[..|moves| - 1], weight);
      if now > before then now else before
  }

  /** Threads that are there and threads that are going to be created. */
  function Size(s: Pool): (n: nat) {
    |s.threads| + Sum(s.threads, Spawns)
  }

  /** This grows only in a step after which nobody waits. */
  lemma StepGrowth(s: Pool, t: nat, e: Event)
    requires t < |s.threads| && Accounted(s) && Step(s, t, e).Some?
    ensures var r := Step(s, t, e).value; Size(r) <= Size(s) || r.waiters == 0
  {
    HoldersFindIt(s, t);
    var r := Step(s, t, e).value;
    if s.threads[t].SpawnCreate? && e.Proceed? {
      SumUpdate(s.threads, t, Handling, Spawns);
      SumAppend(s.threads[t := Handling], Starting, Spawns);
    } else {
      StepBalance(s, t, e);
      SumUpdate(s.threads, t, r.threads[t], Spawns);
      SpawnsGrow(s, t, e);
    }
  }

  lemma SpawnsGrow(s: Pool, t: nat, e: Event)
    requires t < |s.threads| && (Holds(s.threads[t]) > 0 ==> s.waiters > 0)
    requires Step(s, t, e).Some? && !(s.threads[t].SpawnCreate? && e.Proceed?)
    ensures var r := Step(s, t, e).value;
            |r.threads| == |s.threads| && (Spawns(r.threads[t]) <= Spawns(s.threads[t]) || r.waiters == 0)
  {
  }

  /** Those that decide are away; when nobody holds an increment, they are all that is going to create threads. */
  lemma {:induction false} DecidingIsAway(threads: seq<Pc>)
    ensures Sum(threads, Deciding) <= Sum(threads, Away)
    ensures Sum(threads, Spawns) <= Sum(threads, Deciding) + Sum(threads, Holds)
  {
    if threads != [] {
      DecidingIsAway(threads[..|threads| - 1]);
    }
  }

  /** When the counter is zero, every thread is away. */
  lemma ZeroMeansAway(s: Pool)
    requires Accounted(s) && s.waiters == 0
    ensures Size(s) <= Sum(s.threads, Away) + Sum(s.threads, Deciding)
  {
    AwayOrHolding(s.threads);
    DecidingIsAway(s.threads);
  }

  lemma {:induction false} DecidingPeak(moves: seq<Move>)
    requires Run(INITIAL, moves).Some?
    ensures Peak(moves, Deciding) <= Peak(moves, Away)
    decreases |moves|
  {
    DecidingIsAway(Run(INITIAL, moves).value.threads);
    if moves != [] {
      DecidingPeak(moves[..|moves| - 1]);
    }
  }

  /**
   * In every run, failures included: the pool is no larger than the greatest number of
   * threads that were away at one moment, plus the greatest number that had decided to
   * spawn at one moment without having announced it. So it is at most one larger where
   * no two threads decide at the same time, and never more than twice as large.
   */
  lemma {:induction false} PoolIsBounded(moves: seq<Move>)
    requires Run(INITIAL, moves).Some?
    ensures |Run(INITIAL, moves).value.threads| <= Size(Run(INITIAL, moves).value)
    ensures Size(Run(INITIAL, moves).value) <= Peak(moves, Away) + Peak(moves, Deciding)
    ensures Peak(moves, Deciding) <= Peak(moves, Away)
    decreases |moves|
  {
    DecidingPeak(moves);
    if moves == [] {
      SumAppend([], LoopTest, Away);
      SumAppend([], LoopTest, Spawns);
      assert [] + [LoopTest] == [LoopTest];
    } else {
      var front, m := moves[..|moves| - 1], moves[|moves| - 1];
      PoolIsBounded(front);
      CounterIsExact(front);
      CounterIsExact(moves);
      var s := Run(INITIAL, moves).value;
      StepGrowth(Run(INITIAL, front).value, m.thread, m.event);
      if s.waiters == 0 {
        ZeroMeansAway(s);
      }
    }
  }

  // ----- How large it gets -----

  /** The run is clean and has led to `s`, with at most n threads of a kind at any moment. */
  predicate Led(moves: seq<Move>, s: Pool, weight: Pc -> nat, n: nat) {
    Clean(moves) && Run(INITIAL, moves) == Some(s) && Peak(moves, weight) <= n
  }

  lemma Then(moves: seq<Move>, s: Pool, t: nat, e: Event, r: Pool, weight: Pc -> nat, n: nat)
    returns (longer: seq<Move>)
    requires Led(moves, s, weight, n) && t < |s.threads| && !s.assertFailed && CleanEvent(e) && Step(s, t, e).Some?
    requires var q := Step(s, t, e).value; q.threads == r.threads && q == r.(threads := q.threads)
    requires Sum(r.threads, weight) <= n
    ensures Led(longer, r, weight, n)
  {
    longer := moves + [Move(t, e)];
    assert longer[..|moves|] == moves;
  }

  /** A kind of threads; one that is just created is not of it. */
  ghost predicate Kind(weight: Pc -> nat) {
    weight(Starting) == 0 && forall p :: weight(p) <= 1
  }

  /** Nothing has failed, and thread t can be anywhere without there being more than n of a kind. */
  ghost predicate Calm(s: Pool, t: nat, weight: Pc -> nat, n: nat) {
    && !s.abort && !s.assertFailed && s.leaked == 0 && t < |s.threads| && Kind(weight)
    && Sum(s.threads, weight) + 1 <= n + weight(s.threads[t])
  }

  lemma Anywhere(s: Pool, t: nat, p: Pc, weight: Pc -> nat, n: nat)
    requires Calm(s, t, weight, n)
    ensures Sum(s.threads[t := p], weight) <= n && Sum(s.threads[t := p] + [Starting], weight) <= n
  {
    SumUpdate(s.threads, t, p, weight);
    SumAppend(s.threads[t := p], Starting, weight);
  }

  /** A thread comes to the receive call while nobody else waits. */
  lemma Listens(moves: seq<Move>, s: Pool, t: nat, weight: Pc -> nat, n: nat) returns (longer: seq<Move>)
    requires Led(moves, s, weight, n) && Calm(s, t, weight, n) && s.threads[t] == LoopTest && s.waiters == 0
    ensures Led(longer, Goto(s, t, Receiving).(waiters := 1), weight, n)
  {
    Anywhere(s, t, Announce, weight, n);
    Anywhere(s, t, Receiving, weight, n);
    longer := Then(moves, s, t, Proceed, Goto(s, t, Announce), weight, n);
    longer := Then(longer, Goto(s, t, Announce), t, Proceed, Goto(s, t, Receiving).(waiters := 1), weight, n);
  }

  /** It takes a request. */
  lemma Decides(moves: seq<Move>, s: Pool, t: nat, weight: Pc -> nat, n: nat) returns (longer: seq<Move>)
    requires Led(moves, s, weight, n) && Calm(s, t, weight, n) && s.threads[t] == LoopTest && s.waiters == 0
    ensures Led(longer, Goto(s, t, SpawnAnnounce), weight, n)
  {
    Anywhere(s, t, Retire, weight, n);
    Anywhere(s, t, SpawnAnnounce, weight, n);
    var retiring := Goto(s, t, Retire).(waiters := 1);
    longer := Listens(moves, s, t, weight, n);
    longer := Then(longer, Goto(s, t, Receiving).(waiters := 1), t, Request([true]), retiring, weight, n);
    longer := Then(longer, retiring, t, Proceed, Goto(s, t, SpawnAnnounce), weight, n);
  }

  function WithNew(s: Pool, t: nat): (r: Pool)
    requires t < |s.threads|
  {
    s.(threads := s.threads[t := Handling] + [Starting], waiters := s.waiters + 1)
  }

  /** It creates a thread. */
  lemma Creates(moves: seq<Move>, s: Pool, t: nat, weight: Pc -> nat, n: nat) returns (longer: seq<Move>)
    requires Led(moves, s, weight, n) && Calm(s, t, weight, n) && s.threads[t] == SpawnAnnounce
    ensures Led(longer, WithNew(s, t), weight, n)
  {
    Anywhere(s, t, SpawnCreate, weight, n);
    Anywhere(s, t, Handling, weight, n);
    var announced := Increment(s, t, SpawnCreate);
    longer := Then(moves, s, t, Proceed, announced, weight, n);
    longer := Then(longer, announced, t, Proceed, WithNew(s, t), weight, n);
  }

  /** It is done with its request. */
  lemma Returns(moves: seq<Move>, s: Pool, t: nat, weight: Pc -> nat, n: nat) returns (longer: seq<Move>)
    requires Led(moves, s, weight, n) && Calm(s, t, weight, n) && s.threads[t] == Handling
    ensures Led(longer, Goto(s, t, LoopTest), weight, n)
  {
    Anywhere(s, t, Sending, weight, n);
    Anywhere(s, t, LoopTest, weight, n);
    longer := Then(moves, s, t, Proceed, Goto(s, t, Sending), weight, n);
    longer := Then(longer, Goto(s, t, Sending), t, Proceed, Goto(s, t, LoopTest), weight, n);
  }

  /** A new thread comes to the loop test. */
  lemma Begins(moves: seq<Move>, s: Pool, t: nat, weight: Pc -> nat, n: nat) returns (longer: seq<Move>)
    requires Led(moves, s, weight, n) && Calm(s, t, weight, n) && s.threads[t] == Starting && s.waiters > 0
    ensures Led(longer, Goto(s, t, LoopTest).(waiters := s.waiters - 1), weight, n)
  {
    Anywhere(s, t, LoopTest, weight, n);
    longer := Then(moves, s, t, Proceed, Goto(s, t, LoopTest).(waiters := s.waiters - 1), weight, n);
  }

  function Threads(threads: seq<Pc>, waiters: nat): (s: Pool) {
    Pool(threads, waiters, false, false, 0)
  }

  lemma TwoAway(a: Pc, b: Pc)
    ensures Sum([a, b], Away) == Away(a) + Away(b)
  {
    SumAppend([], a, Away);
    SumAppend([a], b, Away);
    assert [] + [a] == [a] && [a] + [b] == [a, b];
  }

  lemma OneAway(a: Pc)
    ensures Sum([a], Away) == Away(a)
  {
    SumAppend([], a, Away);
    assert [] + [a] == [a];
  }

  /** The first thread creates a second one. */
  lemma FirstCreates() returns (moves: seq<Move>)
    ensures Led(moves, Threads([Handling, Starting], 1), Away, 2)
  {
    OneAway(LoopTest);
    OneAway(SpawnAnnounce);
    moves := Decides([], Threads([LoopTest], 0), 0, Away, 2);
    assert [LoopTest][0 := SpawnAnnounce] == [SpawnAnnounce];
    moves := Creates(moves, Threads([SpawnAnnounce], 0), 0, Away, 2);
    assert [SpawnAnnounce][0 := Handling] + [Starting] == [Handling, Starting];
  }

  /** The second one decides to create a third one on the next request. */
  lemma SecondDecides() returns (moves: seq<Move>)
    ensures Led(moves, Threads([Handling, SpawnAnnounce], 0), Away, 2)
  {
    moves := FirstCreates();
    TwoAway(Handling, Starting);
    moves := Begins(moves, Threads([Handling, Starting], 1), 1, Away, 2);
    assert [Handling, Starting][1 := LoopTest] == [Handling, LoopTest];
    TwoAway(Handling, LoopTest);
    moves := Decides(moves, Threads([Handling, LoopTest], 0), 1, Away, 2);
    assert [Handling, LoopTest][1 := SpawnAnnounce] == [Handling, SpawnAnnounce];
  }

  /** Before it says so, the first thread is done, takes one more request and decides the same. */
  lemma BothDecide() returns (moves: seq<Move>)
    ensures Led(moves, Threads([SpawnAnnounce, SpawnAnnounce], 0), Away, 2)
  {
    moves := SecondDecides();
    TwoAway(Handling, SpawnAnnounce);
    moves := Returns(moves, Threads([Handling, SpawnAnnounce], 0), 0, Away, 2);
    assert [Handling, SpawnAnnounce][0 := LoopTest] == [LoopTest, SpawnAnnounce];
    TwoAway(LoopTest, SpawnAnnounce);
    moves := Decides(moves, Threads([LoopTest, SpawnAnnounce], 0), 0, Away, 2);
    assert [LoopTest, SpawnAnnounce][0 := SpawnAnnounce] == [SpawnAnnounce, SpawnAnnounce];
  }

  /**
   * Twice is not too much: four threads where no more than two were away at any
   * moment, in a run without failures.
   */
  lemma TwiceIsReached() returns (moves: seq<Move>)
    ensures Clean(moves) && Run(INITIAL, moves).Some?
    ensures Peak(moves, Away) == 2 && |Run(INITIAL, moves).value.threads| == 2 * Peak(moves, Away)
  {
    moves := BothDecide();
    TwoAway(SpawnAnnounce, SpawnAnnounce);
    moves := Creates(moves, Threads([SpawnAnnounce, SpawnAnnounce], 0), 0, Away, 2);
    var three := [Handling, SpawnAnnounce, Starting];
    assert [SpawnAnnounce, SpawnAnnounce][0 := Handling] + [Starting] == three;
    TwoAway(Handling, SpawnAnnounce);
    SumAppend([Handling, SpawnAnnounce], Starting, Away);
    assert [Handling, SpawnAnnounce] + [Starting] == three;
    moves := Creates(moves, Threads(three, 1), 1, Away, 2);
    PoolIsBounded(moves);
  }

  /** 1 for a thread that is between its receive call and the end of its request. */
  function Serving(p: Pc): (w: nat) {
    match p
    case Retire => 1
    case SpawnAnnounce => 1
    case SpawnCreate => 1
    case SpawnUndo => 1
    case Handling => 1
    case Sending => 1
    case _ => 0
  }

  function Idle(n: nat): (threads: seq<Pc>)
    ensures |threads| == n && forall t :: 0 <= t < n ==> threads[t] == LoopTest
  {
    seq(n, _ => LoopTest)
  }

  lemma {:induction false} IdleServesNothing(n: nat)
    ensures Sum(Idle(n), Serving) == 0
  {
    if n > 0 {
      assert Idle(n)[..n - 1] == Idle(n - 1);
      IdleServesNothing(n - 1);
    }
  }

  /** The last of n threads takes a request while the others are slow to come back to the receive call. */
  lemma TakesAlone(moves: seq<Move>, n: nat) returns (longer: seq<Move>)
    requires n > 0 && Led(moves, Threads(Idle(n), 0), Serving, 1)
    ensures Led(longer, Threads(Idle(n)[n - 1 := Handling] + [Starting], 1), Serving, 1)
  {
    var t, idle := n - 1, Idle(n);
    IdleServesNothing(n);
    longer := Decides(moves, Threads(idle, 0), t, Serving, 1);
    var deciding := idle[t := SpawnAnnounce];
    SumUpdate(idle, t, SpawnAnnounce, Serving);
    longer := Creates(longer, Threads(deciding, 0), t, Serving, 1);
    assert deciding[t := Handling] == idle[t := Handling];
  }

  /** It is done with it before the new thread takes one. */
  lemma ServesAlone(moves: seq<Move>, n: nat) returns (longer: seq<Move>)
    requires n > 0 && Led(moves, Threads(Idle(n), 0), Serving, 1)
    ensures Led(longer, Threads(Idle(n + 1), 0), Serving, 1)
  {
    var t, idle := n - 1, Idle(n);
    IdleServesNothing(n);
    longer := TakesAlone(moves, n);
    var handling, back := idle[t := Handling] + [Starting], idle + [Starting];
    SumUpdate(idle, t, Handling, Serving);
    SumAppend(idle[t := Handling], Starting, Serving);
    longer := Returns(longer, Threads(handling, 1), t, Serving, 1);
    assert handling[t := LoopTest] == back;
    SumAppend(idle, Starting, Serving);
    longer := Begins(longer, Threads(back, 1), n, Serving, 1);
    assert back[n := LoopTest] == Idle(n + 1);
  }

  /**
   * The number of requests that are served at one moment bounds nothing: for every n
   * there is a clean run with n threads in which no two requests were served at the
   * same time.
   */
  lemma {:induction false} ServingBoundsNothing(n: nat) returns (moves: seq<Move>)
    requires n > 0
    ensures Clean(moves) && Run(INITIAL, moves).Some? && |Run(INITIAL, moves).value.threads| == n
    ensures Peak(moves, Serving) <= 1
  {
    moves := AllIdle(n);
  }

  lemma {:induction false} AllIdle(n: nat) returns (moves: seq<Move>)
    requires n > 0
    ensures Led(moves, Threads(Idle(n), 0), Serving, 1)
  {
    if n == 1 {
      moves := [];
      assert Idle(1) == [LoopTest];
      IdleServesNothing(1);
    } else {
      moves := AllIdle(n - 1);
      moves := ServesAlone(moves, n - 1);
    }
  }

  /**
   * The meta parameter matters: a single request without one leaves the only
   * thread in its handler, with nobody listening, while num_waiters is 1.
   */
  lemma RequestWithoutMetaBlocksThePool() returns (moves: seq<Move>)
    ensures Run(INITIAL, moves).Some?
    ensures var s := Run(INITIAL, moves).value; s.threads == [Handling] && s.waiters == 1 && Quiescent(s)
  {
    var m0, m1, m2 := Move(0, Proceed), Move(0, Proceed), Move(0, Request([]));
    moves := [m0, m1, m2];
    assert Run(INITIAL, []) == Some(INITIAL);
    assert [m0][..0] == [] && [m0, m1][..1] == [m0] && moves[..2] == [m0, m1];
    var s1 := Goto(INITIAL, 0, Announce);
    assert Run(INITIAL, [m0]) == Some(s1);
    var s2 := Increment(s1, 0, Receiving);
    assert Run(INITIAL, [m0, m1]) == Some(s2);
    assert Run(INITIAL, moves) == Some(Leak(s2, 0, Handling));
    assert [LoopTest][0 := Announce][0 := Receiving][0 := Handling] == [Handling];
  }
}
