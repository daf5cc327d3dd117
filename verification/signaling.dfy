/**
 The signaling dispatcher: any number of threads that publish, dispatch synchronously or drain, one
 dispatcher thread, a slab of nodes and a FIFO, as an interleaving of their individual actions.
 No stop is requested, so every check that the dispatcher is running succeeds.
 */
module Signaling {

  /** What a thread asks of the dispatcher. */
  datatype Task<V> = Publish(value: V) | DispatchSync(value: V) | Drain

  /** A queued node: a job to run, and the semaphore to give when it has run; a barrier has no job. */
  datatype Entry<V> = Entry(node: nat, job: Job<V>, sem: Waiter)
  datatype Job<V> = Work(value: V) | Barrier
  datatype Waiter = Nobody | Semaphore(id: nat)

  /**
   Where a thread is inside `publish`, `dispatch_sync` or `drain`.  `seen` is history: the jobs accepted
   when the drain took its last generation sample.
   */
  datatype Client<V> =
    | Outside
    | Prepared(node: nat, task: Task<V>)
    | Locked(node: nat, task: Task<V>)
    | Ready(node: nat, task: Task<V>, before: nat)
    | Queued(task: Task<V>, sem: Waiter, before: nat)
    | Waiting(task: Task<V>, sem: Waiter, before: nat)
    | Woken(before: nat)
    | Relocked(before: nat)
    | Resampled(before: nat, after: nat, seen: seq<V>)
    | Compared(before: nat, after: nat, seen: seq<V>)

  datatype Dispatcher<V> = Idle | Got(entry: Entry<V>) | Invoked(node: nat)

  datatype Lock = Unheld | HeldBy(thread: nat)

  /**
   The dispatcher's shared state.  `accepted`, `done` and `bounds` are history: the jobs put on the FIFO
   in order, the jobs that have run in order, and for each semaphore how many jobs must have run before it
   is given.
   */
  datatype State<V> = State(
    pool: set<nat>,
    free: set<nat>,
    fifo: seq<Entry<V>>,
    generation: nat,
    lock: Lock,
    clients: seq<Client<V>>,
    dispatcher: Dispatcher<V>,
    sems: seq<bool>,
    bounds: seq<nat>,
    accepted: seq<V>,
    done: seq<V>)

  datatype Step<V> =
    | Allocate(t: nat, task: Task<V>, node: nat)
    | TakeLock(t: nat)
    | Generation(t: nat)
    | Put(t: nat)
    | ReleaseLock(t: nat)
    | TakeSemaphore(t: nat)
    | Return(t: nat)
    | Get
    | Invoke
    | Free

  // ---------------------------------------------------------------- the actions

  predicate HoldsLock<V>(c: Client<V>) {
    c.Locked? || c.Ready? || c.Queued? || c.Relocked? || c.Resampled?
  }

  predicate Given(sems: seq<bool>, w: Waiter) {
    w.Semaphore? && w.id < |sems| && sems[w.id]
  }

  predicate Enabled<V>(s: State<V>, step: Step<V>) {
    match step
    case Allocate(t, task, node) =>
      && t < |s.clients| && node in s.free
      && (s.clients[t].Outside? ||
          (s.clients[t].Compared? && s.clients[t].before != s.clients[t].after && task.Drain?))
    case TakeLock(t) => t < |s.clients| && s.lock.Unheld? && (s.clients[t].Prepared? || s.clients[t].Woken?)
    case Generation(t) => t < |s.clients| && (s.clients[t].Locked? || s.clients[t].Relocked?)
    case Put(t) => t < |s.clients| && s.clients[t].Ready?
    case ReleaseLock(t) => t < |s.clients| && (s.clients[t].Queued? || s.clients[t].Resampled?)
    case TakeSemaphore(t) => t < |s.clients| && s.clients[t].Waiting? && Given(s.sems, s.clients[t].sem)
    case Return(t) => t < |s.clients| && s.clients[t].Compared?
    case Get => s.dispatcher.Idle? && s.fifo != []
    case Invoke => s.dispatcher.Got?
    case Free => s.dispatcher.Invoked?
  }

  function With<V>(s: State<V>, t: nat, c: Client<V>): State<V>
    requires t < |s.clients|
  {
    s.(clients := s.clients[t := c])
  }

  /** `try_enqueue` counts a job before it is put; a barrier only samples the count. */
  function TakeGeneration<V>(s: State<V>, t: nat): State<V>
    requires t < |s.clients| && (s.clients[t].Locked? || s.clients[t].Relocked?)
  {
    match s.clients[t]
    case Locked(node, task) =>
      With(if task.Drain? then s else s.(generation := s.generation + 1), t, Ready(node, task, s.generation))
    case Relocked(before) => With(s, t, Resampled(before, s.generation, s.accepted))
  }

  /** The node goes on the FIFO; a waiting task's semaphore is fresh, and known to nobody until now. */
  function PutNode<V>(s: State<V>, t: nat): State<V>
    requires t < |s.clients| && s.clients[t].Ready?
  {
    var c := s.clients[t];
    var newSem := Semaphore(|s.sems|);
    match c.task
    case Publish(value) =>
      With(s.(fifo := s.fifo + [Entry(c.node, Work(value), Nobody)], accepted := s.accepted + [value]),
           t, Queued(c.task, Nobody, c.before))
    case DispatchSync(value) =>
      With(s.(fifo := s.fifo + [Entry(c.node, Work(value), newSem)], accepted := s.accepted + [value],
              sems := s.sems + [false], bounds := s.bounds + [c.before + 1]),
           t, Queued(c.task, newSem, c.before))
    case Drain =>
      With(s.(fifo := s.fifo + [Entry(c.node, Barrier, newSem)],
              sems := s.sems + [false], bounds := s.bounds + [c.before]),
           t, Queued(c.task, newSem, c.before))
  }

  function Unlock<V>(s: State<V>, t: nat): State<V>
    requires t < |s.clients| && (s.clients[t].Queued? || s.clients[t].Resampled?)
  {
    match s.clients[t]
    case Queued(task, sem, before) =>
      With(s.(lock := Unheld), t, if task.Publish? then Outside else Waiting(task, sem, before))
    case Resampled(before, after, seen) => With(s.(lock := Unheld), t, Compared(before, after, seen))
  }

  /** The dispatcher runs the job of the node it took off the FIFO and gives its semaphore. */
  function InvokeNode<V>(s: State<V>): State<V>
    requires s.dispatcher.Got?
  {
    var e := s.dispatcher.entry;
    s.(dispatcher := Invoked(e.node),
       done := if e.job.Work? then s.done + [e.job.value] else s.done,
       sems := if e.sem.Semaphore? && e.sem.id < |s.sems| then s.sems[e.sem.id := true] else s.sems)
  }

  function After<V>(s: State<V>, step: Step<V>): State<V>
    requires Enabled(s, step)
  {
    match step
    case Allocate(t, task, node) => With(s.(free := s.free - {node}), t, Prepared(node, task))
    case TakeLock(t) =>
      var c := s.clients[t];
      With(s.(lock := HeldBy(t)), t, if c.Prepared? then Locked(c.node, c.task) else Relocked(c.before))
    case Generation(t) => TakeGeneration(s, t)
    case Put(t) => PutNode(s, t)
    case ReleaseLock(t) => Unlock(s, t)
    case TakeSemaphore(t) =>
      var c := s.clients[t];
      With(s, t, if c.task.Drain? then Woken(c.before) else Outside)
    case Return(t) => With(s, t, Outside)
    case Get => s.(dispatcher := Got(s.fifo[0]), fifo := s.fifo[1..])
    case Invoke => InvokeNode(s)
    case Free => s.(dispatcher := Idle, free := s.free + {s.dispatcher.node})
  }

  predicate Initial<V>(s: State<V>) {
    && s.free == s.pool && s.fifo == [] && s.generation == 0 && s.lock.Unheld?
    && (forall t :: 0 <= t < |s.clients| ==> s.clients[t].Outside?)
    && s.dispatcher.Idle? && s.sems == [] && s.bounds == [] && s.accepted == [] && s.done == []
  }

  predicate IsRun<V>(s: State<V>, steps: seq<Step<V>>)
    decreases |steps|
  {
    steps == [] || (Enabled(s, steps[0]) && IsRun(After(s, steps[0]), steps[1..]))
  }

  function Final<V>(s: State<V>, steps: seq<Step<V>>): State<V>
    requires IsRun(s, steps)
    decreases |steps|
  {
    if steps == [] then s else Final(After(s, steps[0]), steps[1..])
  }

  // ---------------------------------------------------------------- order of jobs

  /** The jobs of a row of entries, in order. */
  function Works<V>(es: seq<Entry<V>>): seq<V> {
    if es == [] then []
    else (if es[0].job.Work? then [es[0].job.value] else []) + Works(es[1..])
  }

  lemma {:induction false} WorksAppend<V>(a: seq<Entry<V>>, b: seq<Entry<V>>)
    ensures Works(a + b) == Works(a) + Works(b)
    decreases |a|
  {
    if a == [] {
      assert a + b == b;
    } else {
      assert (a + b)[0] == a[0] && (a + b)[1..] == a[1..] + b;
      WorksAppend(a[1..], b);
    }
  }

  /** What has been put on the FIFO and has not run yet. */
  function Pending<V>(s: State<V>): seq<Entry<V>> {
    (if s.dispatcher.Got? then [s.dispatcher.entry] else []) + s.fifo
  }

  /** Jobs run in the order they were accepted, once each. */
  ghost predicate InOrder<V>(s: State<V>) {
    s.accepted == s.done + Works(Pending(s))
  }

  /** Every semaphore is given only after the jobs it is bound to wait for. */
  ghost predicate Bounded<V>(s: State<V>) {
    var es := Pending(s);
    && |s.bounds| == |s.sems|
    && (forall i :: 0 <= i < |es| && es[i].sem.Semaphore? ==>
          es[i].sem.id < |s.sems| && s.bounds[es[i].sem.id] <= |s.done| + |Works(es[..i + 1])|)
    && (forall k :: 0 <= k < |s.sems| && s.sems[k] ==> s.bounds[k] <= |s.done|)
  }

  ghost predicate LockInv<V>(s: State<V>) {
    && (s.lock.HeldBy? ==> s.lock.thread < |s.clients|)
    && (forall t :: 0 <= t < |s.clients| ==> (HoldsLock(s.clients[t]) <==> s.lock == HeldBy(t)))
  }

  /** A job has been counted and not yet put. */
  predicate Counting<V>(s: State<V>) {
    && s.lock.HeldBy? && s.lock.thread < |s.clients|
    && s.clients[s.lock.thread].Ready? && !s.clients[s.lock.thread].task.Drain?
  }

  /** What a thread knows where it is. */
  ghost predicate ClientInv<V>(s: State<V>, c: Client<V>) {
    match c
    case Ready(_, _, before) => before == |s.accepted|
    case Queued(task, sem, before) => WaiterInv(s, task, sem, before)
    case Waiting(task, sem, before) => WaiterInv(s, task, sem, before)
    case Woken(before) => before <= |s.done|
    case Relocked(before) => before <= |s.done|
    case Resampled(before, after, seen) => before <= |s.done| && after == |seen| && seen <= s.accepted
    case Compared(before, after, seen) => before <= |s.done| && after == |seen| && seen <= s.accepted
    case _ => true
  }

  ghost predicate WaiterInv<V>(s: State<V>, task: Task<V>, sem: Waiter, before: nat) {
    match task
    case Publish(_) => true
    case DispatchSync(value) =>
      && sem.Semaphore? && sem.id < |s.bounds| && s.bounds[sem.id] == before + 1
      && before < |s.accepted| && s.accepted[before] == value
    case Drain => sem.Semaphore? && sem.id < |s.bounds| && s.bounds[sem.id] == before
  }

  ghost predicate Inv<V>(s: State<V>) {
    && InOrder(s) && Bounded(s) && LockInv(s)
    && s.generation == |s.accepted| + (if Counting(s) then 1 else 0)
    && (forall t :: 0 <= t < |s.clients| ==> ClientInv(s, s.clients[t]))
  }

  lemma InitialInv<V>(s: State<V>)
    requires Initial(s)
    ensures Inv(s)
  {
    assert s.done + [] == s.accepted;
  }

  /** History only grows. */
  predicate Grows<V(==)>(s: State<V>, r: State<V>) {
    s.accepted <= r.accepted && |s.done| <= |r.done| && s.bounds <= r.bounds
  }

  lemma ClientKeeps<V>(s: State<V>, r: State<V>, c: Client<V>)
    requires ClientInv(s, c) && Grows(s, r) && (c.Ready? ==> s.accepted == r.accepted)
    ensures ClientInv(r, c)
  {
  }

  /** Every thread but `t` keeps what it knows when the others' actions only let history grow. */
  lemma OthersKeep<V>(s: State<V>, r: State<V>, t: nat)
    requires Inv(s) && Grows(s, r) && t < |s.clients| == |r.clients|
    requires r.clients == s.clients[t := r.clients[t]]
    requires s.accepted == r.accepted || s.lock == HeldBy(t)
    requires ClientInv(r, r.clients[t])
    ensures forall u :: 0 <= u < |r.clients| ==> ClientInv(r, r.clients[u])
  {
    hide ClientInv, InOrder, Bounded, Counting;
    forall u | 0 <= u < |r.clients| ensures ClientInv(r, r.clients[u]) {
      if u != t {
        assert r.clients[u] == s.clients[u];
        ClientKeeps(s, r, s.clients[u]);
      }
    }
  }

  /** Actions that concern neither the FIFO nor the jobs. */
  lemma QuietStepKeeps<V>(s: State<V>, step: Step<V>)
    requires Inv(s) && Enabled(s, step)
    requires step.Allocate? || step.TakeLock? || step.ReleaseLock? || step.Return?
    ensures Inv(After(s, step))
  {
    hide InOrder, Works, Bounded;
    var r := After(s, step);
    assert Pending(r) == Pending(s);
    SameOrder(s, r);
    OthersKeep(s, r, step.t);
  }

  lemma SameOrder<V>(s: State<V>, r: State<V>)
    requires InOrder(s) && Bounded(s) && Pending(r) == Pending(s)
    requires r.accepted == s.accepted && r.done == s.done && r.sems == s.sems && r.bounds == s.bounds
    ensures InOrder(r) && Bounded(r)
  {
  }

  lemma GenerationKeeps<V>(s: State<V>, t: nat)
    requires Inv(s) && Enabled(s, Generation(t))
    ensures Inv(After(s, Generation(t)))
  {
    hide InOrder, Works, Bounded;
    var r := After(s, Generation(t));
    assert Pending(r) == Pending(s);
    SameOrder(s, r);
    OthersKeep(s, r, t);
  }

  /** Once its semaphore is given, the jobs a thread waits for have run. */
  lemma SemaphoreKeeps<V>(s: State<V>, t: nat)
    requires Inv(s) && Enabled(s, TakeSemaphore(t))
    ensures Inv(After(s, TakeSemaphore(t)))
  {
    hide InOrder, Works;
    var r := After(s, TakeSemaphore(t));
    assert Pending(r) == Pending(s);
    SameOrder(s, r);
    OthersKeep(s, r, t);
  }

  lemma DispatcherKeeps<V>(s: State<V>, step: Step<V>)
    requires Inv(s) && Enabled(s, step) && (step.Get? || step.Free?)
    ensures Inv(After(s, step))
  {
    hide InOrder, Works, Bounded, ClientInv;
    var r := After(s, step);
    if step.Get? {
      assert [s.fifo[0]] + s.fifo[1..] == s.fifo;
    }
    assert Pending(r) == Pending(s);
    SameOrder(s, r);
    forall u | 0 <= u < |r.clients| ensures ClientInv(r, r.clients[u]) {
      ClientKeeps(s, r, s.clients[u]);
    }
  }

  lemma Regroup<V>(a: seq<V>, b: seq<V>, c: seq<V>)
    ensures a + (b + c) == (a + b) + c
  {
  }

  /** A new entry at the end of the FIFO comes after every job accepted before it. */
  lemma PutOrder<V>(s: State<V>, r: State<V>, e: Entry<V>)
    requires InOrder(s) && Pending(r) == Pending(s) + [e] && r.done == s.done
    requires r.accepted == s.accepted + Works([e])
    ensures InOrder(r)
  {
    hide Works, Pending;
    WorksAppend(Pending(s), [e]);
    Regroup(s.done, Works(Pending(s)), Works([e]));
  }

  lemma PutBounded<V>(s: State<V>, r: State<V>, e: Entry<V>)
    requires InOrder(s) && Bounded(s) && InOrder(r) && Pending(r) == Pending(s) + [e] && r.done == s.done
    requires
      if e.sem.Nobody? then r.sems == s.sems && r.bounds == s.bounds
      else
        && e.sem.id == |s.sems| && r.sems == s.sems + [false]
        && |r.bounds| == |s.bounds| + 1 && r.bounds[..|s.bounds|] == s.bounds
        && r.bounds[|s.bounds|] <= |r.accepted|
    ensures Bounded(r)
  {
    hide InOrder, Works;
    var es, was := Pending(r), Pending(s);
    forall i | 0 <= i < |es| && es[i].sem.Semaphore?
      ensures es[i].sem.id < |r.sems| && r.bounds[es[i].sem.id] <= |r.done| + |Works(es[..i + 1])|
    {
      if i < |was| {
        assert es[i] == was[i] && es[..i + 1] == was[..i + 1];
        assert r.bounds[was[i].sem.id] == r.bounds[..|s.bounds|][was[i].sem.id];
      } else {
        assert es[..i + 1] == es;
        AllPending(r);
      }
    }
    forall k | 0 <= k < |r.sems| && r.sems[k] ensures r.bounds[k] <= |r.done| {
      assert r.bounds[k] == r.bounds[..|s.bounds|][k];
    }
  }

  lemma AllPending<V>(s: State<V>)
    requires InOrder(s)
    ensures |s.accepted| == |s.done| + |Works(Pending(s))|
  {
  }

  lemma OneWork<V>(e: Entry<V>)
    ensures Works([e]) == if e.job.Work? then [e.job.value] else []
  {
    assert [e][1..] == [];
  }

  lemma PutKeeps<V>(s: State<V>, t: nat)
    requires Inv(s) && Enabled(s, Put(t))
    ensures Inv(After(s, Put(t)))
  {
    hide InOrder, Bounded, Works, Pending;
    var r := After(s, Put(t));
    var e := r.fifo[|s.fifo|];
    PutPending(s, t);
    OneWork(e);
    assert s.accepted + [] == s.accepted;
    PutOrder(s, r, e);
    assert |s.bounds| == |s.sems| by { SameLength(s); }
    PutBounded(s, r, e);
    OthersKeep(s, r, t);
  }

  lemma SameLength<V>(s: State<V>)
    requires Bounded(s)
    ensures |s.bounds| == |s.sems|
  {
  }

  lemma PutPending<V>(s: State<V>, t: nat)
    requires Enabled(s, Put(t))
    ensures |After(s, Put(t)).fifo| == |s.fifo| + 1
    ensures Pending(After(s, Put(t))) == Pending(s) + [After(s, Put(t)).fifo[|s.fifo|]]
  {
  }

  /** Running the job at the head. */
  lemma InvokeOrder<V>(s: State<V>)
    requires InOrder(s) && s.dispatcher.Got?
    ensures InOrder(InvokeNode(s))
    ensures InvokeNode(s).done == s.done + Works([s.dispatcher.entry])
    ensures Pending(s) == [s.dispatcher.entry] + Pending(InvokeNode(s))
  {
    hide Works;
    var e := s.dispatcher.entry;
    OneWork(e);
    WorksAppend([e], s.fifo);
    assert [] + s.fifo == s.fifo;
    assert s.done + [] == s.done;
    Regroup(s.done, Works([e]), Works(s.fifo));
  }

  lemma InvokeBounded<V>(s: State<V>)
    requires InOrder(s) && Bounded(s) && s.dispatcher.Got?
    ensures Bounded(InvokeNode(s))
  {
    hide InOrder, Works, Pending;
    var r, e := InvokeNode(s), s.dispatcher.entry;
    InvokeOrder(s);
    var es, was := Pending(r), Pending(s);
    assert was[..1] == [e] && was[0] == e;
    forall i | 0 <= i < |es| && es[i].sem.Semaphore?
      ensures es[i].sem.id < |r.sems| && r.bounds[es[i].sem.id] <= |r.done| + |Works(es[..i + 1])|
    {
      assert was[i + 1] == es[i];
      assert was[..i + 2] == [e] + es[..i + 1];
      WorksAppend([e], es[..i + 1]);
    }
    forall k | 0 <= k < |r.sems| && r.sems[k] ensures r.bounds[k] <= |r.done| {
      if k < |s.sems| && s.sems[k] {
        assert s.bounds[k] <= |s.done|;
      } else {
        assert e.sem == Semaphore(k);
      }
    }
  }

  lemma InvokeKeeps<V>(s: State<V>)
    requires Inv(s) && s.dispatcher.Got?
    ensures Inv(After(s, Invoke))
  {
    hide InOrder, Bounded, Works, ClientInv, Pending;
    var r := After(s, Invoke);
    InvokeOrder(s);
    InvokeBounded(s);
    forall u | 0 <= u < |r.clients| ensures ClientInv(r, r.clients[u]) {
      ClientKeeps(s, r, s.clients[u]);
    }
  }

  lemma StepKeeps<V>(s: State<V>, step: Step<V>)
    requires Inv(s) && Enabled(s, step)
    ensures Inv(After(s, step))
  {
    hide Inv;
    match step {
      case Allocate(_, _, _) => QuietStepKeeps(s, step);
      case TakeLock(_) => QuietStepKeeps(s, step);
      case Generation(t) => GenerationKeeps(s, t);
      case Put(t) => PutKeeps(s, t);
      case ReleaseLock(_) => QuietStepKeeps(s, step);
      case TakeSemaphore(t) => SemaphoreKeeps(s, t);
      case Return(_) => QuietStepKeeps(s, step);
      case Get => DispatcherKeeps(s, step);
      case Invoke => InvokeKeeps(s);
      case Free => DispatcherKeeps(s, step);
    }
  }

  lemma {:induction false} RunKeeps<V>(s: State<V>, steps: seq<Step<V>>)
    requires Inv(s) && IsRun(s, steps)
    ensures Inv(Final(s, steps))
    decreases |steps|
  {
    hide Inv, After, Enabled;
    if steps != [] {
      StepKeeps(s, steps[0]);
      RunKeeps(After(s, steps[0]), steps[1..]);
    }
  }

  // ---------------------------------------------------------------- conservation of nodes

  predicate Holds<V>(c: Client<V>) {
    c.Prepared? || c.Locked? || c.Ready?
  }

  /** The node a thread has allocated and not yet handed over. */
  function HeldNode<V>(c: Client<V>): multiset<nat> {
    if Holds(c) then multiset{c.node} else multiset{}
  }

  predicate SameNode<V>(c: Client<V>, d: Client<V>) {
    (Holds(c) <==> Holds(d)) && (Holds(c) ==> c.node == d.node)
  }

  function Held<V>(cs: seq<Client<V>>): multiset<nat> {
    if cs == [] then multiset{} else HeldNode(cs[0]) + Held(cs[1..])
  }

  function QueuedNodes<V>(es: seq<Entry<V>>): multiset<nat> {
    if es == [] then multiset{} else multiset{es[0].node} + QueuedNodes(es[1..])
  }

  function Running<V>(d: Dispatcher<V>): multiset<nat> {
    match d
    case Idle => multiset{}
    case Got(e) => multiset{e.node}
    case Invoked(node) => multiset{node}
  }

  /** Each node of the pool is in exactly one place: free, held, queued or running. */
  ghost predicate Conserved<V>(s: State<V>) {
    multiset(s.free) + Held(s.clients) + QueuedNodes(s.fifo) + Running(s.dispatcher) == multiset(s.pool)
  }

  lemma BagRegroup(a: multiset<nat>, b: multiset<nat>, c: multiset<nat>)
    ensures (a + b) + c == a + (b + c) && (a + b) + c == (c + b) + a
  {
  }

  lemma {:induction false} HeldUpdate<V>(cs: seq<Client<V>>, t: nat, c: Client<V>)
    requires t < |cs|
    ensures Held(cs[t := c]) + HeldNode(cs[t]) == Held(cs) + HeldNode(c)
    decreases |cs|
  {
    var ds := cs[t := c];
    if t == 0 {
      assert ds[1..] == cs[1..];
      BagRegroup(HeldNode(c), Held(cs[1..]), HeldNode(cs[0]));
    } else {
      BagRegroup(HeldNode(cs[0]), Held(ds[1..]), HeldNode(cs[t]));
      BagRegroup(HeldNode(cs[0]), Held(cs[1..]), HeldNode(c));
      assert ds[1..] == cs[1..][t - 1 := c];
      HeldUpdate(cs[1..], t - 1, c);
    }
  }

  lemma {:induction false} QueuedAppend<V>(es: seq<Entry<V>>, e: Entry<V>)
    ensures QueuedNodes(es + [e]) == QueuedNodes(es) + multiset{e.node}
    decreases |es|
  {
    if es == [] {
      assert es + [e] == [e] && [e][1..] == [];
    } else {
      assert (es + [e])[0] == es[0] && (es + [e])[1..] == es[1..] + [e];
      QueuedAppend(es[1..], e);
    }
  }

  lemma {:induction false} NoneHeld<V>(cs: seq<Client<V>>)
    requires forall t :: 0 <= t < |cs| ==> cs[t].Outside?
    ensures Held(cs) == multiset{}
    decreases |cs|
  {
    if cs != [] {
      NoneHeld(cs[1..]);
    }
  }

  lemma TakeOut(free: set<nat>, node: nat)
    requires node in free
    ensures multiset(free - {node}) + multiset{node} == multiset(free)
  {
  }

  lemma PutBack(free: set<nat>, node: nat)
    requires node !in free
    ensures multiset(free + {node}) == multiset(free) + multiset{node}
  {
  }

  lemma BagCancel(a: multiset<nat>, b: multiset<nat>, x: multiset<nat>)
    requires a + x == b + x
    ensures a == b
  {
    forall e ensures a[e] == b[e] {
      assert (a + x)[e] == a[e] + x[e] && (b + x)[e] == b[e] + x[e];
    }
  }

  lemma BagMove(a: multiset<nat>, left: multiset<nat>, to: multiset<nat>, x: multiset<nat>, b: multiset<nat>)
    ensures a + left + (to + x) + b == a + (left + x) + to + b
  {
    assert a + left + (to + x) == a + (left + x) + to;
  }

  /** An action that leaves a thread with what it holds. */
  lemma SameHeld<V>(cs: seq<Client<V>>, t: nat, c: Client<V>)
    requires t < |cs| && SameNode(c, cs[t])
    ensures Held(cs[t := c]) == Held(cs)
  {
    HeldUpdate(cs, t, c);
    BagCancel(Held(cs[t := c]), Held(cs), HeldNode(c));
  }

  lemma PutConserves<V>(s: State<V>, t: nat)
    requires Conserved(s) && Enabled(s, Put(t))
    ensures Conserved(After(s, Put(t)))
  {
    hide Held, QueuedNodes, Running, PutNode;
    var r := After(s, Put(t));
    PutMoves(s, t);
    var e := r.fifo[|s.fifo|];
    QueuedAppend(s.fifo, e);
    BagMove(multiset(s.free), Held(r.clients), QueuedNodes(s.fifo), multiset{e.node}, Running(s.dispatcher));
  }

  /** The node that a thread holds goes to the end of the queue. */
  lemma PutMoves<V>(s: State<V>, t: nat)
    requires Enabled(s, Put(t))
    ensures
      var r := After(s, Put(t));
      && |s.fifo| < |r.fifo| && r.fifo == s.fifo + [r.fifo[|s.fifo|]]
      && r.free == s.free && r.pool == s.pool && r.dispatcher == s.dispatcher
      && Held(r.clients) + multiset{r.fifo[|s.fifo|].node} == Held(s.clients)
  {
    hide Held;
    var r := After(s, Put(t));
    HeldUpdate(s.clients, t, r.clients[t]);
  }

  lemma AllocateConserves<V>(s: State<V>, t: nat, task: Task<V>, node: nat)
    requires Conserved(s) && Enabled(s, Allocate(t, task, node))
    ensures Conserved(After(s, Allocate(t, task, node)))
  {
    hide Held, QueuedNodes, Running;
    var r := After(s, Allocate(t, task, node));
    var f, left, h, x := multiset(s.free), multiset(r.free), Held(s.clients), multiset{node};
    HeldUpdate(s.clients, t, r.clients[t]);
    assert Held(r.clients) == h + x;
    TakeOut(s.free, node);
    BagRegroup(left, x, h);
    assert left + (h + x) == f + h;
  }

  lemma FreeConserves<V>(s: State<V>)
    requires Conserved(s) && Enabled(s, Free)
    ensures Conserved(After(s, Free))
  {
    hide Held, QueuedNodes;
    NotFree(s);
    PutBack(s.free, s.dispatcher.node);
    BagMove(multiset{}, multiset(s.free), Held(s.clients) + QueuedNodes(s.fifo), multiset{s.dispatcher.node},
            multiset{});
  }

  lemma GetConserves<V>(s: State<V>)
    requires Conserved(s) && Enabled(s, Get)
    ensures Conserved(After(s, Get))
  {
    hide Held, QueuedNodes;
    QueuedHead(s.fifo);
    var rest := QueuedNodes(s.fifo[1..]);
    BagMove(multiset(s.free) + Held(s.clients), rest, multiset{}, multiset{s.fifo[0].node}, multiset{});
  }

  lemma Unmoved<V>(s: State<V>, r: State<V>)
    requires Conserved(s) && Held(r.clients) == Held(s.clients)
    requires r.free == s.free && r.pool == s.pool && r.fifo == s.fifo && Running(r.dispatcher) == Running(s.dispatcher)
    ensures Conserved(r)
  {
  }

  lemma InvokeConserves<V>(s: State<V>)
    requires Conserved(s) && s.dispatcher.Got?
    ensures Conserved(InvokeNode(s))
  {
  }

  lemma ClientOnly<V>(s: State<V>, r: State<V>, t: nat)
    requires Conserved(s) && t < |s.clients| == |r.clients| && r.clients == s.clients[t := r.clients[t]]
    requires SameNode(r.clients[t], s.clients[t])
    requires r.free == s.free && r.pool == s.pool && r.fifo == s.fifo && r.dispatcher == s.dispatcher
    ensures Conserved(r)
  {
    hide Held, Conserved;
    SameHeld(s.clients, t, r.clients[t]);
    Unmoved(s, r);
  }

  lemma LockConserves<V>(s: State<V>, step: Step<V>)
    requires Conserved(s) && Enabled(s, step) && (step.TakeLock? || step.Generation? || step.ReleaseLock?)
    ensures Conserved(After(s, step))
  {
    hide Conserved;
    ClientOnly(s, After(s, step), step.t);
  }

  lemma WakeConserves<V>(s: State<V>, step: Step<V>)
    requires Conserved(s) && Enabled(s, step) && (step.TakeSemaphore? || step.Return?)
    ensures Conserved(After(s, step))
  {
    hide Conserved;
    ClientOnly(s, After(s, step), step.t);
  }

  /** Every action moves at most one node from one place to the next. */
  lemma StepConserves<V>(s: State<V>, step: Step<V>)
    requires Conserved(s) && Enabled(s, step)
    ensures Conserved(After(s, step))
  {
    hide Conserved;
    match step {
      case Allocate(t, task, node) => AllocateConserves(s, t, task, node);
      case Put(t) => PutConserves(s, t);
      case Get => GetConserves(s);
      case Invoke => InvokeConserves(s);
      case Free => FreeConserves(s);
      case TakeLock(_) => LockConserves(s, step);
      case Generation(_) => LockConserves(s, step);
      case ReleaseLock(_) => LockConserves(s, step);
      case TakeSemaphore(t) => WakeConserves(s, step);
      case Return(t) => WakeConserves(s, step);
    }
  }

  lemma QueuedHead<V>(es: seq<Entry<V>>)
    requires es != []
    ensures QueuedNodes(es) == multiset{es[0].node} + QueuedNodes(es[1..])
  {
  }

  /** A running node cannot be free as well: the pool has it once. */
  lemma NotFree<V>(s: State<V>)
    requires Conserved(s) && s.dispatcher.Invoked?
    ensures s.dispatcher.node !in s.free
  {
    var node := s.dispatcher.node;
    assert multiset(s.pool)[node] <= 1 && Running(s.dispatcher)[node] == 1;
  }

  lemma {:induction false} RunConserves<V>(s: State<V>, steps: seq<Step<V>>)
    requires Conserved(s) && IsRun(s, steps)
    ensures Conserved(Final(s, steps))
    decreases |steps|
  {
    hide Conserved, After, Enabled;
    if steps != [] {
      StepConserves(s, steps[0]);
      RunConserves(After(s, steps[0]), steps[1..]);
    }
  }

  // ---------------------------------------------------------------- what the dispatcher guarantees

  /** Over every interleaving, jobs run once each, in the order in which they were accepted. */
  lemma RunsInOrder<V>(s: State<V>, steps: seq<Step<V>>)
    requires Initial(s) && IsRun(s, steps)
    ensures Final(s, steps).accepted == Final(s, steps).done + Works(Pending(Final(s, steps)))
  {
    hide Inv;
    InitialInv(s);
    RunKeeps(s, steps);
    InOrderOf(Final(s, steps));
  }

  lemma InOrderOf<V>(s: State<V>)
    requires Inv(s)
    ensures s.accepted == s.done + Works(Pending(s))
  {
  }

  /** No node is lost or used twice: free, held, queued and running nodes are together the pool. */
  lemma NodesConserved<V>(s: State<V>, steps: seq<Step<V>>)
    requires Initial(s) && IsRun(s, steps)
    ensures
      var r := Final(s, steps);
      multiset(r.free) + Held(r.clients) + QueuedNodes(r.fifo) + Running(r.dispatcher) == multiset(r.pool)
  {
    NoneHeld(s.clients);
    RunConserves(s, steps);
  }

  /** A generation sample taken under the lock counts exactly the jobs accepted so far. */
  lemma SampleIsExact<V>(s: State<V>, steps: seq<Step<V>>, t: nat)
    requires Initial(s) && IsRun(s, steps) && Enabled(Final(s, steps), Generation(t))
    ensures Final(s, steps).generation == |Final(s, steps).accepted|
  {
    hide InOrder, Bounded, ClientInv;
    InitialInv(s);
    RunKeeps(s, steps);
  }

  /**
   Drain quiescence: when a drain returns true, that is, with its two samples equal, every job accepted
   before the second sample has run, and they ran in the order in which they were accepted.
   */
  lemma DrainQuiesces<V>(s: State<V>, steps: seq<Step<V>>, t: nat)
    requires Initial(s) && IsRun(s, steps) && t < |Final(s, steps).clients|
    requires Final(s, steps).clients[t].Compared?
    requires Final(s, steps).clients[t].before == Final(s, steps).clients[t].after
    ensures
      var r := Final(s, steps);
      r.clients[t].seen <= r.done <= r.accepted
  {
    hide Bounded, LockInv;
    InitialInv(s);
    RunKeeps(s, steps);
    var r := Final(s, steps);
    assert ClientInv(r, r.clients[t]);
    assert r.done == r.accepted[..|r.done|];
  }

  /** When a synchronous dispatch is woken, its own job and every job accepted before it have run. */
  lemma SyncHasRun<V>(s: State<V>, steps: seq<Step<V>>, t: nat)
    requires Initial(s) && IsRun(s, steps) && Enabled(Final(s, steps), TakeSemaphore(t))
    requires Final(s, steps).clients[t].task.DispatchSync?
    ensures
      var r := Final(s, steps);
      var c := r.clients[t];
      && r.done <= r.accepted && c.before < |r.done|
      && r.done[c.before] == c.task.value && r.done[..c.before] == r.accepted[..c.before]
  {
    hide Inv, Initial, IsRun, Final;
    InitialInv(s);
    RunKeeps(s, steps);
    WokenHasRun(Final(s, steps), t);
  }

  /** A given semaphore was given after the jobs it is bound to wait for. */
  lemma GivenIsPast<V>(s: State<V>, sem: Waiter)
    requires Inv(s) && sem.Semaphore? && sem.id < |s.bounds| && Given(s.sems, sem)
    ensures s.bounds[sem.id] <= |s.done|
  {
    hide InOrder, LockInv, ClientInv, Counting;
  }

  lemma DoneFirst<V>(s: State<V>)
    requires Inv(s)
    ensures s.done <= s.accepted && s.done == s.accepted[..|s.done|]
  {
    hide Bounded, LockInv, ClientInv, Counting;
  }

  lemma WaiterKnows<V>(s: State<V>, t: nat)
    requires Inv(s) && t < |s.clients|
    ensures ClientInv(s, s.clients[t])
  {
    hide InOrder, Bounded, LockInv, ClientInv, Counting;
  }

  lemma WokenHasRun<V>(r: State<V>, t: nat)
    requires Inv(r) && Enabled(r, TakeSemaphore(t)) && r.clients[t].task.DispatchSync?
    ensures
      var c := r.clients[t];
      && r.done <= r.accepted && c.before < |r.done|
      && r.done[c.before] == c.task.value && r.done[..c.before] == r.accepted[..c.before]
  {
    hide Inv;
    DoneFirst(r);
    WaiterKnows(r, t);
    GivenIsPast(r, r.clients[t].sem);
  }
}
