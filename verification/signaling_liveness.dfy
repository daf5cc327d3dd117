/**
 Who waits is woken: every semaphore a thread waits on is given or still to be given, and the dispatcher gets
 through its queue by itself.
 */
module SignalingLiveness {
  import opened Signaling

  /** Running a node gives the semaphore of its entry and no other. */
  lemma InvokeGives<V>(s: State<V>, k: nat)
    requires s.dispatcher.Got? && k < |s.sems|
    ensures
      var r := After(s, Invoke);
      && |r.sems| == |s.sems|
      && (r.sems[k] <==> s.sems[k] || s.dispatcher.entry.sem == Semaphore(k))
  {
  }

  // ---------------------------------------------------------------- nobody is forgotten

  /** A thread on its way to sleep, or asleep. */
  predicate Waits<V>(c: Client<V>) {
    (c.Queued? || c.Waiting?) && !c.task.Publish?
  }

  /** One of the entries will give the semaphore. */
  predicate Queues<V>(es: seq<Entry<V>>, sem: Waiter) {
    exists i :: 0 <= i < |es| && es[i].sem == sem
  }

  predicate Served<V>(s: State<V>, sem: Waiter) {
    sem.Semaphore? && sem.id < |s.sems| && (s.sems[sem.id] || Queues(Pending(s), sem))
  }

  /** The semaphore of every waiting thread is given or will be, by an entry that is still to run. */
  ghost predicate Wakeable<V>(s: State<V>) {
    forall t :: 0 <= t < |s.clients| && Waits(s.clients[t]) ==> Served(s, s.clients[t].sem)
  }

  lemma InitialWakeable<V>(s: State<V>)
    requires Initial(s)
    ensures Wakeable(s)
  {
  }

  lemma QueuesMore<V>(a: seq<Entry<V>>, e: Entry<V>, sem: Waiter)
    ensures Queues(a + [e], sem) <==> Queues(a, sem) || e.sem == sem
  {
    assert (a + [e])[|a|] == e;
    if Queues(a, sem) {
      var i :| 0 <= i < |a| && a[i].sem == sem;
      assert (a + [e])[i] == a[i];
    }
  }

  lemma QueuesHead<V>(e: Entry<V>, b: seq<Entry<V>>, sem: Waiter)
    ensures Queues([e] + b, sem) ==> e.sem == sem || Queues(b, sem)
  {
    if Queues([e] + b, sem) {
      var i :| 0 <= i < |[e] + b| && ([e] + b)[i].sem == sem;
      if i > 0 {
        assert b[i - 1].sem == sem;
      }
    }
  }

  lemma ServedPut<V>(s: State<V>, r: State<V>, e: Entry<V>, sem: Waiter)
    requires Served(s, sem) && Pending(r) == Pending(s) + [e]
    requires |s.sems| <= |r.sems| && r.sems[..|s.sems|] == s.sems
    ensures Served(r, sem)
  {
    hide Pending, Queues;
    assert r.sems[sem.id] == r.sems[..|s.sems|][sem.id];
    QueuesMore(Pending(s), e, sem);
  }

  lemma ServedInvoke<V>(s: State<V>, sem: Waiter)
    requires Inv(s) && s.dispatcher.Got? && Served(s, sem)
    ensures Served(InvokeNode(s), sem)
  {
    hide Inv, Pending, Queues, Works;
    InvokePending(s);
    QueuesHead(s.dispatcher.entry, Pending(InvokeNode(s)), sem);
  }

  lemma InvokePending<V>(s: State<V>)
    requires s.dispatcher.Got?
    ensures Pending(s) == [s.dispatcher.entry] + Pending(InvokeNode(s))
  {
  }

  /** An action that leaves the queue and the semaphores alone and sends nobody to sleep. */
  lemma QuietWakeable<V>(s: State<V>, r: State<V>)
    requires Wakeable(s) && Pending(r) == Pending(s) && r.sems == s.sems && |r.clients| == |s.clients|
    requires
      forall t :: 0 <= t < |s.clients| && Waits(r.clients[t]) ==>
        Waits(s.clients[t]) && r.clients[t].sem == s.clients[t].sem
    ensures Wakeable(r)
  {
    hide Pending, Queues;
  }

  lemma PutWakeable<V>(s: State<V>, t: nat)
    requires Wakeable(s) && Enabled(s, Put(t))
    ensures Wakeable(After(s, Put(t)))
  {
    hide Served, Queues;
    var r := After(s, Put(t));
    PutPending(s, t);
    var e := r.fifo[|s.fifo|];
    hide Pending;
    assert r.sems[..|s.sems|] == s.sems;
    forall u | 0 <= u < |r.clients| && Waits(r.clients[u]) ensures Served(r, r.clients[u].sem) {
      if u == t {
        PutOwn(s, t);
      } else {
        ServedPut(s, r, e, s.clients[u].sem);
      }
    }
  }

  lemma PutOwn<V>(s: State<V>, t: nat)
    requires Enabled(s, Put(t)) && !s.clients[t].task.Publish?
    ensures Served(After(s, Put(t)), After(s, Put(t)).clients[t].sem)
  {
    hide Queues;
    var r := After(s, Put(t));
    PutPending(s, t);
    QueuesMore(Pending(s), r.fifo[|s.fifo|], r.clients[t].sem);
  }

  lemma InvokeWakeable<V>(s: State<V>)
    requires Inv(s) && Wakeable(s) && s.dispatcher.Got?
    ensures Wakeable(InvokeNode(s))
  {
    hide Served, Inv;
    forall t | 0 <= t < |s.clients| && Waits(s.clients[t]) ensures Served(InvokeNode(s), s.clients[t].sem) {
      ServedInvoke(s, s.clients[t].sem);
    }
  }

  lemma StepWakeable<V>(s: State<V>, step: Step<V>)
    requires Inv(s) && Wakeable(s) && Enabled(s, step)
    ensures Wakeable(After(s, step))
  {
    hide Inv, Wakeable, Served, Queues;
    match step {
      case Put(t) => PutWakeable(s, t);
      case Invoke => InvokeWakeable(s);
      case _ => OtherWakeable(s, step);
    }
  }

  lemma OtherWakeable<V>(s: State<V>, step: Step<V>)
    requires Wakeable(s) && Enabled(s, step) && !step.Put? && !step.Invoke?
    ensures Wakeable(After(s, step))
  {
    hide Served, Queues, Wakeable;
    var r := After(s, step);
    if step.Get? {
      assert [s.fifo[0]] + s.fifo[1..] == s.fifo;
    }
    assert Pending(r) == Pending(s);
    QuietWakeable(s, r);
  }

  lemma {:induction false} RunWakeable<V>(s: State<V>, steps: seq<Step<V>>)
    requires Inv(s) && Wakeable(s) && IsRun(s, steps)
    ensures Wakeable(Final(s, steps)) && Inv(Final(s, steps))
    decreases |steps|
  {
    hide Inv, Wakeable, After, Enabled;
    if steps != [] {
      StepWakeable(s, steps[0]);
      StepKeeps(s, steps[0]);
      RunWakeable(After(s, steps[0]), steps[1..]);
    }
  }

  /**
   No lost wake-up, over every interleaving: the semaphore of a sleeping thread has been given, so that the thread
   can go on, or an entry that is queued or being run will give it.
   */
  lemma NobodyForgotten<V>(s: State<V>, steps: seq<Step<V>>, t: nat)
    requires Initial(s) && IsRun(s, steps) && t < |Final(s, steps).clients| && Final(s, steps).clients[t].Waiting?
    ensures
      var r := Final(s, steps);
      var sem := r.clients[t].sem;
      && !r.clients[t].task.Publish?
      && (Enabled(r, TakeSemaphore(t)) ||
          exists i :: 0 <= i < |Pending(r)| && Pending(r)[i].sem == sem)
      && (r.fifo == [] && r.dispatcher.Idle? ==> Enabled(r, TakeSemaphore(t)))
  {
    hide Inv, Initial, Final, Pending;
    InitialInv(s);
    InitialWakeable(s);
    InitialSleepers(s);
    RunWakeable(s, steps);
    RunSleepers(s, steps);
    var r := Final(s, steps);
    assert Waits(r.clients[t]);
    assert Served(r, r.clients[t].sem);
    NothingPending(r);
  }

  lemma NothingPending<V>(s: State<V>)
    ensures s.fifo == [] && !s.dispatcher.Got? ==> Pending(s) == []
  {
  }

  /** Nobody who publishes goes to sleep. */
  ghost predicate Sleepers<V>(s: State<V>) {
    forall t :: 0 <= t < |s.clients| && s.clients[t].Waiting? ==> !s.clients[t].task.Publish?
  }

  lemma InitialSleepers<V>(s: State<V>)
    requires Initial(s)
    ensures Sleepers(s)
  {
  }

  lemma StepSleepers<V>(s: State<V>, step: Step<V>)
    requires Sleepers(s) && Enabled(s, step)
    ensures Sleepers(After(s, step))
  {
  }

  lemma {:induction false} RunSleepers<V>(s: State<V>, steps: seq<Step<V>>)
    requires Sleepers(s) && IsRun(s, steps)
    ensures Sleepers(Final(s, steps))
    decreases |steps|
  {
    hide Sleepers, After, Enabled;
    if steps != [] {
      StepSleepers(s, steps[0]);
      RunSleepers(After(s, steps[0]), steps[1..]);
    }
  }

  // ---------------------------------------------------------------- the dispatcher by itself

  /** What is left for the dispatcher to do, action by action. */
  function Backlog<V>(s: State<V>): nat {
    3 * |s.fifo| + (match s.dispatcher case Idle => 0 case Got(_) => 2 case Invoked(_) => 1)
  }

  /** The dispatcher's next actions until it has nothing to do. */
  function CatchUp<V>(s: State<V>): seq<Step<V>>
    decreases Backlog(s)
  {
    if s.dispatcher.Got? then [Invoke] + CatchUp(After(s, Invoke))
    else if s.dispatcher.Invoked? then [Free] + CatchUp(After(s, Free))
    else if s.fifo != [] then [Get] + CatchUp(After(s, Get))
    else []
  }

  lemma {:induction false} CatchesUp<V>(s: State<V>)
    ensures
      var steps := CatchUp(s);
      && IsRun(s, steps) && |steps| == Backlog(s)
      && (forall k :: 0 <= k < |steps| ==> steps[k].Get? || steps[k].Invoke? || steps[k].Free?)
      && var r := Final(s, steps);
         && r.fifo == [] && r.dispatcher.Idle? && r.clients == s.clients && r.lock == s.lock
         && r.generation == s.generation && r.accepted == s.accepted
         && s.free <= r.free && r.pool == s.pool
    decreases Backlog(s)
  {
    var steps := CatchUp(s);
    if s.dispatcher.Got? || s.dispatcher.Invoked? || s.fifo != [] {
      var r := After(s, steps[0]);
      assert steps[1..] == CatchUp(r);
      CatchesUp(r);
      assert Final(s, steps) == Final(r, steps[1..]);
    }
  }

  /**
   The dispatcher is never stuck: from every reachable state it empties its queue by itself, in at most three actions
   for each entry; then every accepted job has run, in order, and every sleeping thread can go on.
   */
  lemma DispatcherCatchesUp<V>(s: State<V>, steps: seq<Step<V>>)
    requires Initial(s) && IsRun(s, steps)
    ensures
      var m := Final(s, steps);
      exists more: seq<Step<V>> ::
        && IsRun(m, more) && |more| <= 3 * (|m.fifo| + 1)
        && (forall k :: 0 <= k < |more| ==> more[k].Get? || more[k].Invoke? || more[k].Free?)
        && var r := Final(m, more);
           && r.fifo == [] && r.dispatcher.Idle? && r.accepted == m.accepted == r.done && r.clients == m.clients
           && forall t :: 0 <= t < |r.clients| && r.clients[t].Waiting? ==> Enabled(r, TakeSemaphore(t))
  {
    hide Inv, Initial, IsRun, Final, Wakeable, Sleepers;
    InitialInv(s);
    InitialWakeable(s);
    InitialSleepers(s);
    RunWakeable(s, steps);
    RunSleepers(s, steps);
    var m := Final(s, steps);
    var more := CatchUp(m);
    CatchesUp(m);
    RunWakeable(m, more);
    RunSleepers(m, more);
    var r := Final(m, more);
    CaughtUp(r);
  }

  lemma CaughtUp<V>(r: State<V>)
    requires Inv(r) && Wakeable(r) && Sleepers(r) && r.fifo == [] && r.dispatcher.Idle?
    ensures r.done == r.accepted
    ensures forall t :: 0 <= t < |r.clients| && r.clients[t].Waiting? ==> Enabled(r, TakeSemaphore(t))
  {
    hide Inv;
    NothingPending(r);
    InOrderOf(r);
    assert r.done + [] == r.done;
    forall t | 0 <= t < |r.clients| && r.clients[t].Waiting? ensures Enabled(r, TakeSemaphore(t)) {
      assert Waits(r.clients[t]);
    }
  }

  // ---------------------------------------------------------------- the lock

  lemma RunOne<V>(s: State<V>, a: Step<V>)
    requires Enabled(s, a)
    ensures IsRun(s, [a]) && Final(s, [a]) == After(s, a)
  {
    hide After, Enabled;
    assert [a][1..] == [];
  }

  lemma {:induction false} RunJoin<V>(s: State<V>, a: seq<Step<V>>, b: seq<Step<V>>)
    requires IsRun(s, a) && IsRun(Final(s, a), b)
    ensures IsRun(s, a + b) && Final(s, a + b) == Final(Final(s, a), b)
    decreases |a|
  {
    hide After, Enabled;
    if a == [] {
      assert a + b == b;
    } else {
      assert (a + b)[0] == a[0] && (a + b)[1..] == a[1..] + b;
      RunJoin(After(s, a[0]), a[1..], b);
    }
  }

  lemma RunMore<V>(s: State<V>, a: seq<Step<V>>, b: Step<V>)
    requires IsRun(s, a) && Enabled(Final(s, a), b)
    ensures IsRun(s, a + [b]) && Final(s, a + [b]) == After(Final(s, a), b)
  {
    hide After, Enabled, IsRun, Final;
    RunOne(Final(s, a), b);
    RunJoin(s, a, [b]);
  }

  /** An action of this thread inside the lock. */
  predicate HasThread<V>(step: Step<V>, t: nat) {
    (step.Generation? || step.Put? || step.ReleaseLock?) && step.t == t
  }

  /** The lock is free and only thread `t` has moved. */
  ghost predicate Released<V>(s: State<V>, r: State<V>, t: nat) {
    && r.lock.Unheld? && |r.clients| == |s.clients|
    && forall u :: 0 <= u < |s.clients| && u != t ==> r.clients[u] == s.clients[u]
  }

  lemma ReleaseRun<V>(s: State<V>, t: nat)
    requires Enabled(s, ReleaseLock(t))
    ensures IsRun(s, [ReleaseLock(t)]) && Released(s, Final(s, [ReleaseLock(t)]), t)
  {
    RunOne(s, ReleaseLock(t));
  }

  /** One action before a run of the same thread. */
  lemma ReleaseLater<V>(s: State<V>, a: Step<V>, more: seq<Step<V>>, t: nat)
    requires Enabled(s, a) && IsRun(After(s, a), more) && Released(After(s, a), Final(After(s, a), more), t)
    requires |After(s, a).clients| == |s.clients|
    requires forall u :: 0 <= u < |s.clients| && u != t ==> After(s, a).clients[u] == s.clients[u]
    ensures IsRun(s, [a] + more) && Released(s, Final(s, [a] + more), t)
  {
    hide After, Enabled;
    assert ([a] + more)[0] == a && ([a] + more)[1..] == more;
  }

  lemma PutReleases<V>(s: State<V>, t: nat)
    requires Enabled(s, Put(t))
    ensures
      var steps: seq<Step<V>> := [Put(t)] + [ReleaseLock(t)];
      IsRun(s, steps) && Released(s, Final(s, steps), t)
  {
    hide IsRun, Final, Released;
    ReleaseRun(After(s, Put(t)), t);
    ReleaseLater(s, Put(t), [ReleaseLock(t)], t);
  }

  lemma GenerationReleases<V>(s: State<V>, t: nat)
    requires Enabled(s, Generation(t))
    ensures
      var steps: seq<Step<V>> :=
        [Generation(t)] + (if s.clients[t].Locked? then [Put(t)] + [ReleaseLock(t)] else [ReleaseLock(t)]);
      IsRun(s, steps) && Released(s, Final(s, steps), t)
  {
    hide IsRun, Final, Released;
    var r := After(s, Generation(t));
    if s.clients[t].Locked? {
      PutReleases(r, t);
      ReleaseLater(s, Generation(t), [Put(t)] + [ReleaseLock(t)], t);
    } else {
      ReleaseRun(r, t);
      ReleaseLater(s, Generation(t), [ReleaseLock(t)], t);
    }
  }

  lemma HolderHolds<V>(s: State<V>)
    requires Inv(s) && s.lock.HeldBy?
    ensures s.lock.thread < |s.clients| && HoldsLock(s.clients[s.lock.thread])
  {
    hide InOrder, Bounded, ClientInv, Counting;
  }

  /** The lock is never kept: from every reachable state its holder releases it in at most three actions of its own. */
  lemma LockIsReleased<V>(s: State<V>, steps: seq<Step<V>>)
    requires Initial(s) && IsRun(s, steps) && Final(s, steps).lock.HeldBy?
    ensures
      var m := Final(s, steps);
      exists more: seq<Step<V>> ::
        && IsRun(m, more) && |more| <= 3
        && (forall k :: 0 <= k < |more| ==> HasThread(more[k], m.lock.thread))
        && Released(m, Final(m, more), m.lock.thread)
  {
    hide Inv, Initial, IsRun, Final, Released;
    InitialInv(s);
    RunKeeps(s, steps);
    var m := Final(s, steps);
    HolderHolds(m);
    var t := m.lock.thread;
    var c := m.clients[t];
    if c.Locked? || c.Relocked? {
      GenerationReleases(m, t);
    } else if c.Ready? {
      PutReleases(m, t);
    } else {
      ReleaseRun(m, t);
    }
  }

  // ---------------------------------------------------------------- a drain comes to its end

  /** The steps of a drain that has been woken. */
  function Rest<V>(t: nat): seq<Step<V>> {
    [TakeSemaphore(t), TakeLock(t), Generation(t), ReleaseLock(t)]
  }

  lemma WokenDrain<V>(s: State<V>, t: nat)
    requires Enabled(s, TakeSemaphore(t)) && s.clients[t].task.Drain? && s.lock.Unheld?
    ensures IsRun(s, Rest(t))
    ensures Final(s, Rest(t)) ==
            s.(clients := s.clients[t := Compared(s.clients[t].before, s.generation, s.accepted)])
  {
    hide IsRun, Final;
    var before := s.clients[t].before;
    var a, b, c: Step<V>, d: Step<V> := TakeSemaphore(t), TakeLock(t), Generation(t), ReleaseLock(t);
    RunOne(s, a);
    RunMore(s, [a], b);
    RunMore(s, [a] + [b], c);
    RunMore(s, [a] + [b] + [c], d);
    assert [a] + [b] + [c] + [d] == Rest(t);
    assert s.clients[t := Woken(before)][t := Relocked(before)][t := Resampled(before, s.generation, s.accepted)]
      [t := Compared(before, s.generation, s.accepted)] ==
        s.clients[t := Compared(before, s.generation, s.accepted)];
  }

  /**
   A drain that sleeps comes to its end when the others let it: from every reachable state in which nobody holds the
   lock, the dispatcher's own actions and then the thread's own four bring it to its comparison, with every job
   accepted by then done; the samples are equal exactly when no job has been accepted since the first.
   */
  lemma DrainCompletes<V>(s: State<V>, steps: seq<Step<V>>, t: nat)
    requires Initial(s) && IsRun(s, steps) && t < |Final(s, steps).clients|
    requires Final(s, steps).clients[t].Waiting? && Final(s, steps).clients[t].task.Drain?
    requires Final(s, steps).lock.Unheld?
    ensures
      var m := Final(s, steps);
      exists more: seq<Step<V>> ::
        && IsRun(m, more + Rest(t)) && |more| <= 3 * (|m.fifo| + 1)
        && (forall k :: 0 <= k < |more| ==> more[k].Get? || more[k].Invoke? || more[k].Free?)
        && var r := Final(m, more + Rest(t));
           && |r.clients| == |m.clients|
           && r.clients[t] == Compared(m.clients[t].before, |m.accepted|, m.accepted)
           && r.done == r.accepted == m.accepted && r.fifo == [] && r.dispatcher.Idle?
  {
    hide Inv, Initial, IsRun, Final, Wakeable, Sleepers, Enabled, After;
    InitialInv(s);
    InitialWakeable(s);
    InitialSleepers(s);
    RunWakeable(s, steps);
    RunSleepers(s, steps);
    var m := Final(s, steps);
    var more := CatchUp(m);
    CatchesUp(m);
    RunWakeable(m, more);
    RunSleepers(m, more);
    var q := Final(m, more);
    CaughtUp(q);
    ExactGeneration(q);
    WokenDrain(q, t);
    RunJoin(m, more, Rest(t));
  }

  lemma ExactGeneration<V>(s: State<V>)
    requires Inv(s) && s.lock.Unheld?
    ensures s.generation == |s.accepted|
  {
    hide InOrder, Bounded, ClientInv, LockInv;
  }

  /** A step that counts a job. */
  predicate Counts<V>(s: State<V>, step: Step<V>) {
    step.Generation? && step.t < |s.clients| && s.clients[step.t].Locked? && !s.clients[step.t].task.Drain?
  }

  /** No step of the run counts a job, and thread `t` does not return. */
  predicate Undisturbed<V>(s: State<V>, steps: seq<Step<V>>, t: nat)
    requires IsRun(s, steps)
    decreases |steps|
  {
    steps == [] ||
    (!Counts(s, steps[0]) && steps[0] != Return(t) && Undisturbed(After(s, steps[0]), steps[1..], t))
  }

  /** Thread `t` is in a drain whose first sample is `g`, and so is the count. */
  predicate Sampled<V>(s: State<V>, t: nat, g: nat) {
    && t < |s.clients| && s.generation == g
    && match s.clients[t]
       case Ready(_, task, before) => task.Drain? && before == g
       case Queued(task, _, before) => task.Drain? && before == g
       case Waiting(task, _, before) => task.Drain? && before == g
       case Woken(before) => before == g
       case Relocked(before) => before == g
       case Resampled(before, after, _) => before == g && after == g
       case Compared(before, after, _) => before == g && after == g
       case _ => false
  }

  lemma SampledStep<V>(s: State<V>, step: Step<V>, t: nat, g: nat)
    requires Sampled(s, t, g) && Enabled(s, step) && !Counts(s, step) && step != Return(t)
    ensures Sampled(After(s, step), t, g)
  {
  }

  lemma {:induction false} SampledRun<V>(s: State<V>, steps: seq<Step<V>>, t: nat, g: nat)
    requires Sampled(s, t, g) && IsRun(s, steps) && Undisturbed(s, steps, t)
    ensures Sampled(Final(s, steps), t, g)
    decreases |steps|
  {
    hide Sampled, After, Enabled, Counts;
    if steps != [] {
      SampledStep(s, steps[0], t, g);
      SampledRun(After(s, steps[0]), steps[1..], t, g);
    }
  }

  /**
   A drain that no publish or synchronous dispatch overlaps succeeds at the first comparison: if none is counted from
   its first sample on, its samples are equal, and all accepted jobs it has seen have run.
   */
  lemma UndisturbedDrain<V>(s: State<V>, steps: seq<Step<V>>, t: nat, more: seq<Step<V>>)
    requires Initial(s) && IsRun(s, steps) && Enabled(Final(s, steps), Generation(t))
    requires Final(s, steps).clients[t].Locked? && Final(s, steps).clients[t].task.Drain?
    requires IsRun(After(Final(s, steps), Generation(t)), more)
    requires Undisturbed(After(Final(s, steps), Generation(t)), more, t)
    ensures
      var r := Final(After(Final(s, steps), Generation(t)), more);
      && t < |r.clients|
      && (r.clients[t].Compared? ==>
            && r.clients[t].before == r.clients[t].after == |r.clients[t].seen|
            && r.clients[t].seen <= r.done)
  {
    hide Inv, Initial, IsRun, Final, Undisturbed;
    InitialInv(s);
    RunKeeps(s, steps);
    var m := Final(s, steps);
    var first := After(m, Generation(t));
    StepKeeps(m, Generation(t));
    assert Sampled(first, t, m.generation);
    SampledRun(first, more, t, m.generation);
    RunKeeps(first, more);
    var r := Final(first, more);
    WaiterKnows(r, t);
    DoneFirst(r);
  }

  // ---------------------------------------------------------------- the other calls

  /** The actions of a publish or a synchronous dispatch up to its wait. */
  function Enqueue<V>(t: nat, task: Task<V>, node: nat): seq<Step<V>> {
    [Allocate(t, task, node), TakeLock(t), Generation(t), Put(t), ReleaseLock(t)]
  }

  /**
   A publish by itself: with a free node and the lock free, its five actions put its value on the queue, behind all
   that is there, and it has returned.
   */
  lemma PublishCompletes<V>(s: State<V>, t: nat, value: V, node: nat)
    requires t < |s.clients| && s.clients[t].Outside? && node in s.free && s.lock.Unheld?
    ensures
      var steps := Enqueue(t, Publish(value), node);
      && IsRun(s, steps)
      && var r := Final(s, steps);
         && r.fifo == s.fifo + [Entry(node, Work(value), Nobody)] && r.accepted == s.accepted + [value]
         && r.generation == s.generation + 1 && r.free == s.free - {node} && r.lock.Unheld?
         && r.clients == s.clients[t := Outside] && r.sems == s.sems
  {
    hide IsRun, Final;
    Enqueued(s, t, Publish(value), node);
  }

  /** A synchronous dispatch does the same with a semaphore of its own, and then waits for it. */
  lemma SyncQueues<V>(s: State<V>, t: nat, value: V, node: nat)
    requires t < |s.clients| && s.clients[t].Outside? && node in s.free && s.lock.Unheld?
    ensures
      var steps := Enqueue(t, DispatchSync(value), node);
      && IsRun(s, steps)
      && var r := Final(s, steps);
         && r.fifo == s.fifo + [Entry(node, Work(value), Semaphore(|s.sems|))] && r.accepted == s.accepted + [value]
         && r.generation == s.generation + 1 && r.free == s.free - {node} && r.lock.Unheld?
         && r.sems == s.sems + [false]
         && r.clients == s.clients[t := Waiting(DispatchSync(value), Semaphore(|s.sems|), s.generation)]
  {
    hide IsRun, Final;
    Enqueued(s, t, DispatchSync(value), node);
  }

  /** The five actions, one after the other. */
  lemma Enqueued<V>(s: State<V>, t: nat, task: Task<V>, node: nat)
    requires t < |s.clients| && s.clients[t].Outside? && node in s.free && s.lock.Unheld? && !task.Drain?
    ensures IsRun(s, Enqueue(t, task, node))
    ensures
      var sem := if task.Publish? then Nobody else Semaphore(|s.sems|);
      Final(s, Enqueue(t, task, node)) ==
      s.(free := s.free - {node}, generation := s.generation + 1, fifo := s.fifo + [Entry(node, Work(task.value), sem)],
         accepted := s.accepted + [task.value], sems := if task.Publish? then s.sems else s.sems + [false],
         bounds := if task.Publish? then s.bounds else s.bounds + [s.generation + 1],
         clients := s.clients[t := if task.Publish? then Outside else Waiting(task, sem, s.generation)])
  {
    hide IsRun, Final;
    var a, b: Step<V>, c: Step<V>, d: Step<V>, e: Step<V> :=
      Allocate(t, task, node), TakeLock(t), Generation(t), Put(t), ReleaseLock(t);
    var s1 := After(s, a);
    var s2 := After(s1, b);
    var s3 := After(s2, c);
    var s4 := After(s3, d);
    RunOne(s, a);
    RunMore(s, [a], b);
    RunMore(s, [a] + [b], c);
    RunMore(s, [a] + [b] + [c], d);
    RunMore(s, [a] + [b] + [c] + [d], e);
    assert [a] + [b] + [c] + [d] + [e] == Enqueue(t, task, node);
    var last := After(s4, e).clients[t];
    assert After(s4, e).clients == s.clients[t := last];
  }

  /** A synchronous dispatch that waits returns after the dispatcher's own actions and one of its thread. */
  lemma SyncCompletes<V>(s: State<V>, steps: seq<Step<V>>, t: nat)
    requires Initial(s) && IsRun(s, steps) && t < |Final(s, steps).clients|
    requires Final(s, steps).clients[t].Waiting? && Final(s, steps).clients[t].task.DispatchSync?
    ensures
      var m := Final(s, steps);
      exists more: seq<Step<V>> ::
        && IsRun(m, more + [TakeSemaphore(t)]) && |more| <= 3 * (|m.fifo| + 1)
        && (forall k :: 0 <= k < |more| ==> more[k].Get? || more[k].Invoke? || more[k].Free?)
        && var r := Final(m, more + [TakeSemaphore(t)]);
           r.clients == m.clients[t := Outside] && r.done == r.accepted == m.accepted
  {
    hide Inv, Initial, IsRun, Final, Wakeable, Sleepers, Enabled, After;
    InitialInv(s);
    InitialWakeable(s);
    InitialSleepers(s);
    RunWakeable(s, steps);
    RunSleepers(s, steps);
    var m := Final(s, steps);
    var more := CatchUp(m);
    CatchesUp(m);
    RunWakeable(m, more);
    RunSleepers(m, more);
    var q := Final(m, more);
    CaughtUp(q);
    RunMore(m, more, TakeSemaphore(t));
    SyncReturns(q, t);
  }

  lemma SyncReturns<V>(s: State<V>, t: nat)
    requires Enabled(s, TakeSemaphore(t)) && s.clients[t].task.DispatchSync?
    ensures After(s, TakeSemaphore(t)) == s.(clients := s.clients[t := Outside])
  {
  }
}
