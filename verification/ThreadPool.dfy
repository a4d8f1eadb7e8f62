/** The worker pool as a transition system. Each critical section is one step; a call of
    notify_one or notify_all is a step of its own, after the lock has been given up; a waiting
    worker may also wake up for no reason. Tasks are values of T and are told apart by their
    position in the order of acceptance. */
module ThreadPools {
  import opened Prelude

  /** Checking: about to take the lock and look at the queue. Waiting: blocked on the condition. */
  datatype Worker<+T> = Checking | Waiting | Running(task: T) | Exited

  /** The destructor: not called, flag set with notify_all still to come, next worker to join. */
  datatype Closing = Open | Announcing | Joining(next: nat)

  datatype State<+T> = State(
    tasks: seq<T>,
    workers: seq<Worker<T>>,
    wakes: nat,           // calls of notify_one that are still to come
    closing: Closing,
    accepted: seq<T>,     // history: tasks in the order in which they were
    started: seq<T>,      // enqueued, taken from the queue,
    finished: seq<T>)     // and completed

  datatype Event<+T> =
    | Enqueue(t: T) | Reject(t: T)
    | NotifyOne(i: nat) | NotifyNobody | Spurious(i: nat)
    | Check(i: nat) | Finish(i: nat)
    | Stop | NotifyAll | Join

  function Initial<T>(threads: nat): State<T> {
    State([], seq(threads, _ => Checking), 0, Open, [], [], [])
  }

  function WakeAll<T>(ws: seq<Worker<T>>): seq<Worker<T>> {
    seq(|ws|, i requires 0 <= i < |ws| => if ws[i].Waiting? then Checking else ws[i])
  }

  /** What an event does; None where it cannot happen. */
  function Step<T>(s: State<T>, e: Event<T>): Option<State<T>> {
    match e
    case Enqueue(t) =>
      if s.closing.Open? then
        Some(s.(tasks := s.tasks + [t], accepted := s.accepted + [t], wakes := s.wakes + 1))
      else None
    case Reject(t) =>
      if s.closing.Open? then None else Some(s)
    case NotifyOne(i) =>
      if s.wakes > 0 && i < |s.workers| && s.workers[i].Waiting? then
        Some(s.(wakes := s.wakes - 1, workers := s.workers[i := Checking]))
      else None
    case NotifyNobody =>
      if s.wakes > 0 && forall i :: 0 <= i < |s.workers| ==> !s.workers[i].Waiting? then
        Some(s.(wakes := s.wakes - 1))
      else None
    case Spurious(i) =>
      if i < |s.workers| && s.workers[i].Waiting? then Some(s.(workers := s.workers[i := Checking]))
      else None
    case Check(i) =>
      if !(i < |s.workers| && s.workers[i].Checking?) then None
      else if s.closing.Open? && s.tasks == [] then Some(s.(workers := s.workers[i := Waiting]))
      else if s.tasks == [] then Some(s.(workers := s.workers[i := Exited]))
      else Some(s.(workers := s.workers[i := Running(s.tasks[0])], tasks := s.tasks[1..],
                   started := s.started + [s.tasks[0]]))
    case Finish(i) =>
      if i < |s.workers| && s.workers[i].Running? then
        Some(s.(workers := s.workers[i := Checking], finished := s.finished + [s.workers[i].task]))
      else None
    case Stop =>
      if s.closing.Open? then Some(s.(closing := Announcing)) else None
    case NotifyAll =>
      if s.closing.Announcing? then Some(s.(closing := Joining(0), workers := WakeAll(s.workers))) else None
    case Join =>
      if s.closing.Joining? && s.closing.next < |s.workers| && s.workers[s.closing.next].Exited? then
        Some(s.(closing := Joining(s.closing.next + 1)))
      else None
  }

  function Run<T>(s: State<T>, es: seq<Event<T>>): Option<State<T>>
    decreases |es|
  {
    if es == [] then Some(s)
    else match Step(s, es[0]) case Some(t) => Run(t, es[1..]) case None => None
  }

  // ---------------------------------------------------------------- sums over the workers

  /** The tasks that are being run. */
  ghost function RunningTasks<T>(ws: seq<Worker<T>>): multiset<T> {
    if ws == [] then multiset{}
    else
      var before, last := RunningTasks(ws[..|ws| - 1]), ws[|ws| - 1];
      if last.Running? then before + multiset{last.task} else before
  }

  lemma {:induction false} RunningAfterUpdate<T>(ws: seq<Worker<T>>, i: nat, w: Worker<T>)
    requires i < |ws|
    ensures var now, was := RunningTasks(ws[i := w]), RunningTasks(ws);
      && (!ws[i].Running? && !w.Running? ==> now == was)
      && (!ws[i].Running? && w.Running? ==> now == was + multiset{w.task})
      && (ws[i].Running? && !w.Running? ==> was == now + multiset{ws[i].task})
    decreases |ws|
  {
    var n := |ws| - 1;
    if i < n {
      RunningAfterUpdate(ws[..n], i, w);
      assert ws[i := w][..n] == ws[..n][i := w];
    } else {
      assert ws[i := w][..n] == ws[..n];
    }
  }

  /** How many workers are checking, and two measures of the steps they still have to make. */
  datatype Totals = Totals(checking: nat, busy: nat, awake: nat)

  ghost function Worth<T>(w: Worker<T>): Totals {
    match w
    case Checking => Totals(1, 1, 1)
    case Waiting => Totals(0, 2, 0)
    case Running(_) => Totals(0, 2, 2)
    case Exited => Totals(0, 0, 0)
  }

  ghost function Sum<T>(ws: seq<Worker<T>>): Totals {
    if ws == [] then Totals(0, 0, 0)
    else
      var before, last := Sum(ws[..|ws| - 1]), Worth(ws[|ws| - 1]);
      Totals(before.checking + last.checking, before.busy + last.busy, before.awake + last.awake)
  }

  lemma {:induction false} SumAfterUpdate<T>(ws: seq<Worker<T>>, i: nat, w: Worker<T>)
    requires i < |ws|
    ensures var now, was := Sum(ws[i := w]), Sum(ws);
      && now.checking + Worth(ws[i]).checking == was.checking + Worth(w).checking
      && now.busy + Worth(ws[i]).busy == was.busy + Worth(w).busy
      && now.awake + Worth(ws[i]).awake == was.awake + Worth(w).awake
    decreases |ws|
  {
    var n := |ws| - 1;
    if i < n {
      SumAfterUpdate(ws[..n], i, w);
      assert ws[i := w][..n] == ws[..n][i := w];
    } else {
      assert ws[i := w][..n] == ws[..n];
    }
  }

  lemma {:induction false} SumAfterWakeAll<T>(ws: seq<Worker<T>>)
    ensures RunningTasks(WakeAll(ws)) == RunningTasks(ws)
    ensures Sum(WakeAll(ws)).busy <= Sum(ws).busy
    decreases |ws|
  {
    if ws == [] {
    } else {
      var n := |ws| - 1;
      SumAfterWakeAll(ws[..n]);
      assert WakeAll(ws)[..n] == WakeAll(ws[..n]);
    }
  }

  lemma {:induction false} SumOfIdle<T>(ws: seq<Worker<T>>)
    requires forall i :: 0 <= i < |ws| ==> ws[i].Waiting? || ws[i].Exited?
    ensures Sum(ws).checking == 0 && RunningTasks(ws) == multiset{}
  {
    if ws == [] {
    } else {
      SumOfIdle(ws[..|ws| - 1]);
    }
  }

  lemma {:induction false} NothingRunsAtFirst<T>(threads: nat)
    ensures RunningTasks(Initial<T>(threads).workers) == multiset{}
  {
    if threads == 0 {
    } else {
      NothingRunsAtFirst<T>(threads - 1);
      assert Initial<T>(threads).workers[..threads - 1] == Initial<T>(threads - 1).workers;
    }
  }

  // ---------------------------------------------------------------- the invariant

  /** Tasks start in the order of acceptance, each once; what has started is running or finished. */
  ghost predicate Conserved<T>(s: State<T>) {
    && s.accepted == s.started + s.tasks
    && multiset(s.started) == RunningTasks(s.workers) + multiset(s.finished)
  }

  ghost predicate SomeoneWaits<T>(s: State<T>) {
    exists i :: 0 <= i < |s.workers| && s.workers[i].Waiting?
  }

  /** No lost wake-up: while a worker waits, every queued task is covered by a notification on
      its way or by a worker that is about to look at the queue. */
  ghost predicate Covered<T>(s: State<T>) {
    SomeoneWaits(s) ==> |s.tasks| <= s.wakes + Sum(s.workers).checking
  }

  /** Workers leave a stopped and drained pool only; after notify_all nobody waits; the workers
      joined so far have left. */
  ghost predicate Closes<T>(s: State<T>) {
    && (forall i :: 0 <= i < |s.workers| && s.workers[i].Exited? ==> !s.closing.Open? && s.tasks == [])
    && (s.closing.Joining? ==>
          && s.closing.next <= |s.workers|
          && !SomeoneWaits(s)
          && (forall i :: 0 <= i < s.closing.next ==> s.workers[i].Exited?))
  }

  ghost predicate Inv<T>(s: State<T>) {
    Conserved(s) && Covered(s) && Closes(s)
  }

  lemma CheckConserves<T>(s: State<T>, i: nat)
    requires Conserved(s) && Step(s, Check(i)).Some?
    ensures Conserved(Step(s, Check(i)).value)
  {
    if s.tasks != [] {
      TakeConserves(s, i);
    } else {
      RunningAfterUpdate(s.workers, i, Step(s, Check(i)).value.workers[i]);
    }
  }

  lemma TakeConserves<T>(s: State<T>, i: nat)
    requires Conserved(s) && i < |s.workers| && !s.workers[i].Running? && s.tasks != []
    ensures Conserved(s.(workers := s.workers[i := Running(s.tasks[0])], tasks := s.tasks[1..],
                         started := s.started + [s.tasks[0]]))
  {
    RunningAfterUpdate(s.workers, i, Running(s.tasks[0]));
    assert s.tasks == [s.tasks[0]] + s.tasks[1..];
    ConcatAssociative(s.started, [s.tasks[0]], s.tasks[1..]);
  }

  lemma FinishConserves<T>(s: State<T>, i: nat)
    requires Conserved(s) && Step(s, Finish(i)).Some?
    ensures Conserved(Step(s, Finish(i)).value)
  {
    var t := Step(s, Finish(i)).value;
    RunningAfterUpdate(s.workers, i, Checking);
    assert multiset(t.finished) == multiset(s.finished) + multiset{s.workers[i].task};
  }

  lemma WakeConserves<T>(s: State<T>, i: nat, wakes: nat)
    requires Conserved(s) && i < |s.workers| && s.workers[i].Waiting?
    ensures Conserved(s.(workers := s.workers[i := Checking], wakes := wakes))
  {
    RunningAfterUpdate(s.workers, i, Checking);
  }

  lemma StepConserves<T>(s: State<T>, e: Event<T>)
    requires Conserved(s) && Step(s, e).Some?
    ensures Conserved(Step(s, e).value)
  {
    match e
    case NotifyOne(i) => WakeConserves(s, i, s.wakes - 1);
    case Spurious(i) => WakeConserves(s, i, s.wakes);
    case Enqueue(x) => ConcatAssociative(s.started, s.tasks, [x]);
    case Check(i) => CheckConserves(s, i);
    case Finish(i) => FinishConserves(s, i);
    case NotifyAll => SumAfterWakeAll(s.workers);
    case _ =>
  }

  lemma WaitedBefore<T>(s: State<T>, i: nat, w: Worker<T>)
    requires i < |s.workers| && !w.Waiting? && SomeoneWaits(s.(workers := s.workers[i := w]))
    ensures SomeoneWaits(s)
  {
    var j :| 0 <= j < |s.workers| && s.workers[i := w][j].Waiting?;
    assert s.workers[j].Waiting?;
  }

  lemma StepKeepsCovered<T>(s: State<T>, e: Event<T>)
    requires Covered(s) && Step(s, e).Some?
    ensures Covered(Step(s, e).value)
  {
    var t := Step(s, e).value;
    match e
    case NotifyOne(i) => SumAfterUpdate(s.workers, i, Checking);
    case Spurious(i) => SumAfterUpdate(s.workers, i, Checking);
    case Check(i) =>
      SumAfterUpdate(s.workers, i, t.workers[i]);
      if t.tasks != [] && SomeoneWaits(t) { WaitedBefore(s, i, t.workers[i]); }
    case Finish(i) =>
      SumAfterUpdate(s.workers, i, Checking);
      if SomeoneWaits(t) { WaitedBefore(s, i, Checking); }
    case NotifyAll => assert !SomeoneWaits(t);
    case _ => assert t.workers == s.workers;
  }

  lemma StepKeepsCloses<T>(s: State<T>, e: Event<T>)
    requires Closes(s) && Step(s, e).Some?
    ensures Closes(Step(s, e).value)
  {
  }

  lemma StepKeepsInv<T>(s: State<T>, e: Event<T>)
    requires Inv(s) && Step(s, e).Some?
    ensures Inv(Step(s, e).value) && |Step(s, e).value.workers| == |s.workers|
  {
    StepConserves(s, e);
    StepKeepsCovered(s, e);
    StepKeepsCloses(s, e);
  }

  /** The state after some run of a pool with the given number of workers. */
  ghost predicate Reachable<T(!new)>(threads: nat, s: State<T>) {
    exists es: seq<Event<T>> :: Run(Initial<T>(threads), es) == Some(s)
  }

  lemma {:induction false} RunKeepsInv<T>(s: State<T>, es: seq<Event<T>>)
    requires Inv(s) && Run(s, es).Some?
    ensures Inv(Run(s, es).value) && |Run(s, es).value.workers| == |s.workers|
    decreases |es|
  {
    if es == [] {
    } else {
      StepKeepsInv(s, es[0]);
      RunKeepsInv(Step(s, es[0]).value, es[1..]);
    }
  }

  lemma ReachableInv<T(!new)>(threads: nat, s: State<T>)
    requires Reachable(threads, s)
    ensures Inv(s) && |s.workers| == threads
  {
    var es: seq<Event<T>> :| Run(Initial<T>(threads), es) == Some(s);
    NothingRunsAtFirst<T>(threads);
    RunKeepsInv(Initial<T>(threads), es);
  }

  /** The tasks that a run enqueues, in order. */
  function Enqueued<T>(es: seq<Event<T>>): seq<T> {
    if es == [] then []
    else (if es[0].Enqueue? then [es[0].t] else []) + Enqueued(es[1..])
  }

  /** Nothing is accepted but what is enqueued, in that order, and nothing enqueued is dropped. */
  lemma {:induction false} AcceptedIsEnqueued<T>(s: State<T>, es: seq<Event<T>>)
    requires Run(s, es).Some?
    ensures Run(s, es).value.accepted == s.accepted + Enqueued(es)
    decreases |es|
  {
    if es == [] {
    } else {
      StepAccepts(s, es[0]);
      AcceptedIsEnqueued(Step(s, es[0]).value, es[1..]);
      ConcatAssociative(s.accepted, if es[0].Enqueue? then [es[0].t] else [], Enqueued(es[1..]));
    }
  }

  lemma StepAccepts<T>(s: State<T>, e: Event<T>)
    requires Step(s, e).Some?
    ensures Step(s, e).value.accepted == s.accepted + if e.Enqueue? then [e.t] else []
  {
  }

  /** In every run: what has been enqueued has been started or is queued, in that order, and
      what has been started is running or has finished. */
  lemma EveryTaskIsAccountedFor<T(!new)>(threads: nat, es: seq<Event<T>>)
    requires Run(Initial<T>(threads), es).Some?
    ensures var s := Run(Initial<T>(threads), es).value;
      && Enqueued(es) == s.started + s.tasks
      && multiset(s.started) == RunningTasks(s.workers) + multiset(s.finished)
      && |s.workers| == threads
  {
    var s := Run(Initial<T>(threads), es).value;
    assert Reachable(threads, s);
    ReachableInv(threads, s);
    AcceptedIsEnqueued(Initial<T>(threads), es);
    EmptyConcat(Enqueued(es));
  }

  /** An open pool accepts any task; a stopped one never does. */
  lemma AcceptsWhileOpen<T>(s: State<T>, task: T)
    ensures Step(s, Enqueue(task)).Some? <==> s.closing.Open?
    ensures Step(s, Reject(task)).Some? <==> !s.closing.Open?
    ensures s.closing.Open? ==> Step(s, Enqueue(task)).value.tasks == s.tasks + [task]
  {
  }

  // ---------------------------------------------------------------- no lost wake-up

  /** A queued task with no notification on its way always has a worker awake to take it. */
  lemma NoLostWakeup<T(!new)>(threads: nat, s: State<T>)
    requires Reachable(threads, s) && threads > 0 && s.tasks != [] && s.wakes == 0
    ensures exists i :: 0 <= i < |s.workers| && (s.workers[i].Checking? || s.workers[i].Running?)
  {
    ReachableInv(threads, s);
    assert s.workers[0].Waiting? ==> SomeoneWaits(s);
    if forall i :: 0 <= i < |s.workers| ==> s.workers[i].Waiting? || s.workers[i].Exited? {
      SumOfIdle(s.workers);
    }
  }

  /** The steps the pool makes by itself: deliveries, and workers proceeding. */
  predicate Internal<T>(e: Event<T>) {
    e.NotifyOne? || e.NotifyNobody? || e.Check? || e.Finish?
  }

  ghost function Awake<T>(s: State<T>): nat {
    2 * |s.tasks| + 2 * s.wakes + Sum(s.workers).awake
  }

  lemma InternalStepsRunOut<T>(s: State<T>, e: Event<T>)
    requires Internal(e) && Step(s, e).Some?
    ensures Awake(Step(s, e).value) < Awake(s)
  {
    match e
    case NotifyOne(i) => SumAfterUpdate(s.workers, i, Checking);
    case Check(i) => SumAfterUpdate(s.workers, i, Step(s, e).value.workers[i]);
    case Finish(i) => SumAfterUpdate(s.workers, i, Checking);
    case _ =>
  }

  /** Left alone, a pool with at least one worker makes a bounded number of steps, and where
      it comes to rest every accepted task has finished: nothing is stranded in the queue. */
  lemma RestsOnlyWhenDrained<T(!new)>(threads: nat, s: State<T>)
    requires Reachable(threads, s) && threads > 0
    requires forall e: Event<T> :: Internal(e) ==> Step(s, e).None?
    ensures s.tasks == [] && multiset(s.finished) == multiset(s.accepted)
  {
    ReachableInv(threads, s);
    forall i | 0 <= i < |s.workers| ensures s.workers[i].Waiting? || s.workers[i].Exited? {
      assert Step(s, Event<T>.Check(i)).None? && Step(s, Event<T>.Finish(i)).None?;
    }
    SumOfIdle(s.workers);
    assert s.wakes == 0 by {
      assert Step(s, Event<T>.NotifyNobody).None?;
      if i :| 0 <= i < |s.workers| && s.workers[i].Waiting? {
        assert Step(s, Event<T>.NotifyOne(i)).None?;
      }
    }
    assert s.workers[0].Waiting? || s.workers[0].Exited?;
    assert s.accepted == s.started;
  }

  // ---------------------------------------------------------------- shutdown

  ghost function Remaining<T>(s: State<T>): int {
    2 * |s.tasks| + s.wakes + Sum(s.workers).busy +
    match s.closing
    case Open => |s.workers| + 2
    case Announcing => |s.workers| + 1
    case Joining(n) => |s.workers| - n
  }

  /** After the flag is set every step but a rejected enqueue brings the end nearer, and no
      task is accepted any more. */
  lemma StoppedStepsRunOut<T>(s: State<T>, e: Event<T>)
    requires Closes(s) && !s.closing.Open? && Step(s, e).Some?
    ensures var t := Step(s, e).value;
      && !t.closing.Open? && t.accepted == s.accepted
      && (if e.Reject? then t == s else 0 <= Remaining(t) < Remaining(s))
  {
    match e
    case NotifyOne(i) => SumAfterUpdate(s.workers, i, Checking);
    case Spurious(i) => SumAfterUpdate(s.workers, i, Checking);
    case Check(i) => StoppedCheckRunsOut(s, i);
    case Finish(i) => SumAfterUpdate(s.workers, i, Checking);
    case NotifyAll => SumAfterWakeAll(s.workers);
    case _ =>
  }

  lemma StoppedCheckRunsOut<T>(s: State<T>, i: nat)
    requires !s.closing.Open? && Step(s, Check(i)).Some?
    ensures Remaining(Step(s, Check(i)).value) < Remaining(s)
  {
    SumAfterUpdate(s.workers, i, Step(s, Check(i)).value.workers[i]);
  }

  ghost predicate Joined<T>(s: State<T>) {
    s.closing == Joining(|s.workers|)
  }

  /** No stopped state is stuck before the last join: the destructor, or the worker it is
      about to join, can always make a step. */
  lemma StoppedCanProceed<T(!new)>(threads: nat, s: State<T>) returns (e: Event<T>)
    requires Reachable(threads, s) && !s.closing.Open? && !Joined(s)
    ensures !e.Reject? && Step(s, e).Some?
  {
    ReachableInv(threads, s);
    if s.closing.Announcing? {
      e := NotifyAll;
    } else {
      var n := s.closing.next;
      match s.workers[n]
      case Exited => e := Join;
      case Checking => e := Check(n);
      case Running(_) => e := Finish(n);
    }
  }

  function Effective<T>(es: seq<Event<T>>): nat {
    if es == [] then 0 else (if es[0].Reject? then 0 else 1) + Effective(es[1..])
  }

  /** A shutdown cannot go on for ever: any run from a stopped state has at most so many steps
      besides rejected enqueues, and accepts nothing. */
  lemma {:induction false} ShutdownIsBounded<T>(s: State<T>, es: seq<Event<T>>)
    requires Inv(s) && !s.closing.Open? && Run(s, es).Some?
    ensures Effective(es) <= Remaining(s)
    ensures Run(s, es).value.accepted == s.accepted
    decreases |es|
  {
    if es == [] {
    } else {
      StepKeepsInv(s, es[0]);
      StoppedStepsRunOut(s, es[0]);
      ShutdownIsBounded(Step(s, es[0]).value, es[1..]);
    }
  }

  lemma StepStaysReachable<T(!new)>(threads: nat, s: State<T>, e: Event<T>)
    requires Reachable(threads, s) && Step(s, e).Some?
    ensures Reachable(threads, Step(s, e).value)
  {
    var es: seq<Event<T>> :| Run(Initial<T>(threads), es) == Some(s);
    RunOneMore(Initial<T>(threads), es, e);
  }

  lemma {:induction false} RunOneMore<T>(s: State<T>, es: seq<Event<T>>, e: Event<T>)
    requires Run(s, es).Some?
    ensures Run(s, es + [e]) == Step(Run(s, es).value, e)
    decreases |es|
  {
    if es == [] {
      assert [] + [e] == [e] && [e][1..] == [];
    } else {
      assert (es + [e])[1..] == es[1..] + [e];
      RunOneMore(Step(s, es[0]).value, es[1..], e);
    }
  }

  /** From every stopped state the shutdown can be completed. */
  lemma {:induction false} ShutdownCanComplete<T(!new)>(threads: nat, s: State<T>) returns (es: seq<Event<T>>)
    requires Reachable(threads, s) && !s.closing.Open?
    ensures Run(s, es).Some? && Joined(Run(s, es).value) && forall e :: e in es ==> !e.Reject?
    decreases if Joined(s) then 0 else 1 + Remaining(s)
  {
    if Joined(s) {
      es := [];
    } else {
      ReachableInv(threads, s);
      var e := StoppedCanProceed(threads, s);
      StoppedStepsRunOut(s, e);
      StepStaysReachable(threads, s, e);
      var more := ShutdownCanComplete(threads, Step(s, e).value);
      es := [e] + more;
      assert es[1..] == more;
    }
  }

  /** Left alone, a pool makes at most so many steps. */
  lemma {:induction false} InternalRunsAreBounded<T>(s: State<T>, es: seq<Event<T>>)
    requires Run(s, es).Some? && forall e :: e in es ==> Internal(e)
    ensures |es| + Awake(Run(s, es).value) <= Awake(s)
    decreases |es|
  {
    if es == [] {
    } else {
      InternalStepsRunOut(s, es[0]);
      InternalRunsAreBounded(Step(s, es[0]).value, es[1..]);
    }
  }

  /** When the destructor's joins have returned, all workers have left, and exactly the
      accepted tasks have been started, in order, and finished. */
  lemma JoinedMeansFinished<T(!new)>(threads: nat, s: State<T>)
    requires Reachable(threads, s) && threads > 0 && Joined(s)
    ensures s.tasks == [] && s.started == s.accepted
    ensures multiset(s.finished) == multiset(s.accepted)
    ensures forall i :: 0 <= i < |s.workers| ==> s.workers[i].Exited?
  {
    ReachableInv(threads, s);
    assert s.workers[0].Exited?;
    SumOfIdle(s.workers);
    assert s.started + [] == s.started;
  }

  /** A run whose joins have all returned has finished exactly the tasks that it enqueued, each
      once, after starting them in order. */
  lemma JoinedRunFinishesAll<T(!new)>(threads: nat, es: seq<Event<T>>)
    requires threads > 0 && Run(Initial<T>(threads), es).Some? && Joined(Run(Initial<T>(threads), es).value)
    ensures var s := Run(Initial<T>(threads), es).value;
      && s.started == Enqueued(es) && multiset(s.finished) == multiset(Enqueued(es))
      && |s.workers| == threads && forall i :: 0 <= i < threads ==> s.workers[i].Exited?
  {
    var s := Run(Initial<T>(threads), es).value;
    assert Reachable(threads, s);
    JoinedMeansFinished(threads, s);
    EveryTaskIsAccountedFor(threads, es);
  }

  /** A run after which the pool is at rest has finished exactly the tasks that it enqueued. */
  lemma RestingRunFinishesAll<T(!new)>(threads: nat, es: seq<Event<T>>)
    requires threads > 0 && Run(Initial<T>(threads), es).Some?
    requires forall e: Event<T> :: Internal(e) ==> Step(Run(Initial<T>(threads), es).value, e).None?
    ensures multiset(Run(Initial<T>(threads), es).value.finished) == multiset(Enqueued(es))
  {
    var s := Run(Initial<T>(threads), es).value;
    assert Reachable(threads, s);
    RestsOnlyWhenDrained(threads, s);
    AcceptedIsEnqueued(Initial<T>(threads), es);
    EmptyConcat(Enqueued(es));
  }

  // ---------------------------------------------------------------- the pool itself

  /** The fields of the pool, with the positions of its threads. */
  class ThreadPool<T(0)> {
    var isStop: bool
    var tasks: seq<T>
    var workers: seq<Worker<T>>
    ghost var wakes: nat
    ghost var closing: Closing
    ghost var accepted: seq<T>
    ghost var started: seq<T>
    ghost var finished: seq<T>

    ghost predicate Valid()
      reads this
    {
      isStop <==> !closing.Open?
    }

    ghost function Now(): State<T>
      reads this
    {
      State(tasks, workers, wakes, closing, accepted, started, finished)
    }

    constructor (threads: nat)
      ensures Valid() && Now() == Initial(threads)
    {
      isStop := false;
      tasks, workers := [], seq(threads, _ => Checking);
      wakes, closing, accepted, started, finished := 0, Open, [], [], [];
    }

    /** The locked part of an enqueue; false is the exception. The notification comes later. */
    method Enqueue(task: T) returns (ok: bool)
      requires Valid()
      modifies this
      ensures Valid() && ok == !old(isStop)
      ensures Step(old(Now()), if ok then Event.Enqueue(task) else Event.Reject(task)) == Some(Now())
      ensures tasks == old(tasks) + if ok then [task] else []
    {
      if isStop {
        return false;
      }
      tasks := tasks + [task];
      accepted, wakes := accepted + [task], wakes + 1;
      ok := true;
    }

    /** notify_one: `chosen` is the waiter the system picks, if there is one. */
    method NotifyOne(chosen: nat)
      requires Valid() && wakes > 0
      requires chosen < |workers| || forall i :: 0 <= i < |workers| ==> !workers[i].Waiting?
      requires chosen < |workers| ==> workers[chosen].Waiting?
      modifies this
      ensures Valid()
      ensures Step(old(Now()), if chosen < |workers| then Event.NotifyOne(chosen) else NotifyNobody) == Some(Now())
    {
      if chosen < |workers| {
        workers := workers[chosen := Checking];
      }
      wakes := wakes - 1;
    }

    /** One round of worker i under the lock: it blocks, leaves, or takes the front task. */
    method Check(i: nat)
      requires Valid() && i < |workers| && workers[i].Checking?
      modifies this
      ensures Valid() && Step(old(Now()), Event.Check(i)) == Some(Now())
      ensures old(tasks) != [] ==> tasks == old(tasks)[1..] && workers[i] == Running(old(tasks)[0])
    {
      if !(isStop || tasks != []) {
        workers := workers[i := Waiting];
        return;
      }
      if isStop && tasks == [] {
        workers := workers[i := Exited];
        return;
      }
      var task := tasks[0];
      tasks := tasks[1..];
      workers := workers[i := Running(task)];
      started := started + [task];
    }

    /** Worker i's task returns. */
    method Finish(i: nat)
      requires Valid() && i < |workers| && workers[i].Running?
      modifies this
      ensures Valid() && Step(old(Now()), Event.Finish(i)) == Some(Now())
    {
      finished := finished + [workers[i].task];
      workers := workers[i := Checking];
    }

    /** The destructor, up to its notify_all. */
    method Stop()
      requires Valid() && !isStop
      modifies this
      ensures Valid() && Step(old(Now()), Event.Stop) == Some(Now())
    {
      isStop := true;
      closing := Announcing;
    }

    method NotifyAll()
      requires Valid() && closing.Announcing?
      modifies this
      ensures Valid() && Step(old(Now()), Event.NotifyAll) == Some(Now())
    {
      workers := WakeAll(workers);
      closing := Joining(0);
    }

    /** The join of the next worker returns. */
    method Join()
      requires Valid() && closing.Joining? && closing.next < |workers| && workers[closing.next].Exited?
      modifies this
      ensures Valid() && Step(old(Now()), Event.Join) == Some(Now())
    {
      closing := Joining(closing.next + 1);
    }
  }
}
