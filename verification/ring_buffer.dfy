/**
 The lock-free ring buffer: the object as one thread uses it, and the single-producer, single-consumer
 protocol as an interleaving of individual loads, buffer accesses and stores.
 */
module RingBuffer {
  import opened Prelude

  /** The index after `index`, in a storage of `n` slots. */
  function Succ(index: nat, n: nat): (r: nat)
    requires index < n
    ensures r < n
  {
    if index + 1 >= n then 0 else index + 1
  }

  // ---------------------------------------------------------------- one thread

  class Ring<T(0)> {
    const maxSize: nat
    const overwriteOldest: bool
    const buffer: array<T>
    var head: nat
    var tail: nat

    predicate Valid()
      reads this
    {
      maxSize > 0 && buffer.Length == maxSize + 1 && head < buffer.Length && tail < buffer.Length
    }

    function Count(): nat
      requires Valid()
      reads this
    {
      if head >= tail then head - tail else buffer.Length + head - tail
    }

    /** The slot of the entry `i` places behind the oldest. */
    function SlotOf(i: nat): (slot: nat)
      requires Valid() && i < buffer.Length
      reads this
      ensures slot < buffer.Length
    {
      if tail + 1 + i < buffer.Length then tail + 1 + i else tail + 1 + i - buffer.Length
    }

    /** The queued entries, oldest first. */
    function Contents(): (s: seq<T>)
      requires Valid()
      reads this, buffer
      ensures |s| == Count() <= maxSize
    {
      seq(Count(), i requires Valid() && 0 <= i < Count() reads this, buffer => buffer[SlotOf(i)])
    }

    constructor (maxSize: nat, overwriteOldest: bool, zero: T)
      requires maxSize > 0
      ensures Valid() && Contents() == [] && fresh(buffer)
      ensures this.maxSize == maxSize && this.overwriteOldest == overwriteOldest
    {
      this.maxSize, this.overwriteOldest := maxSize, overwriteOldest;
      buffer := new T[maxSize + 1](_ => zero);
      head, tail := 0, 0;
    }

    method Size() returns (n: nat)
      requires Valid()
      ensures n == |Contents()|
    {
      if head >= tail {
        return head - tail;
      }
      return buffer.Length + head - tail;
    }

    method IsEmpty() returns (r: bool)
      requires Valid()
      ensures r <==> Contents() == []
    {
      return head == tail;
    }

    method IsFull() returns (r: bool)
      requires Valid()
      ensures r <==> |Contents()| == maxSize
    {
      var n := Size();
      return n == maxSize;
    }

    /** A full buffer refuses the entry, or gives up its oldest for it. */
    method Insert(data: T) returns (ok: bool)
      requires Valid()
      modifies this, buffer
      ensures Valid() && ok == (overwriteOldest || |old(Contents())| < maxSize)
      ensures
        Contents() ==
        if !ok then old(Contents())
        else (if |old(Contents())| < maxSize then old(Contents()) else old(Contents())[1..]) + [data]
    {
      var next := head + 1;
      if next >= buffer.Length {
        next := 0;
      }
      if tail == next {
        if !overwriteOldest {
          return false;
        }
        var newTail := tail + 1;
        if newTail >= buffer.Length {
          newTail := 0;
        }
        tail := newTail;
      }
      buffer[next] := data;
      head := next;
      return true;
    }

    method Peek() returns (r: Option<T>)
      requires Valid()
      ensures r == if Contents() == [] then None else Some(Contents()[0])
    {
      if head == tail {
        return None;
      }
      var next := tail + 1;
      if next >= buffer.Length {
        next := 0;
      }
      return Some(buffer[next]);
    }

    method Remove() returns (r: Option<T>)
      requires Valid()
      modifies this
      ensures Valid()
      ensures r == if old(Contents()) == [] then None else Some(old(Contents())[0])
      ensures Contents() == if old(Contents()) == [] then [] else old(Contents())[1..]
    {
      if head == tail {
        return None;
      }
      var next := tail + 1;
      if next >= buffer.Length {
        next := 0;
      }
      var value := buffer[next];
      tail := next;
      return Some(value);
    }

    method Reset()
      requires Valid()
      modifies this
      ensures Valid() && Contents() == []
    {
      tail := head;
    }
  }

  // ---------------------------------------------------------------- one inserter and one remover

  /** How far the inserter is in `insert`: what it has loaded and computed so far. */
  datatype Inserter<T> =
    | InsertIdle
    | HeadTaken(data: T, head: nat)
    | Cleared(data: T, next: nat)
    | Stored(data: T, next: nat)

  datatype Op = Remove | Peek | Reset

  /**
   How far the remover is.  `seen` is not a variable of the program: it records how many entries had been
   accepted when the head was loaded.
   */
  datatype Remover<T> =
    | RemoveIdle
    | HeadLoaded(op: Op, head: nat, seen: nat)
    | Claimed(op: Op, next: nat)
    | Fetched(value: T, next: nat)

  /**
   The shared variables, the two threads' progress, and the history: `accepted` are the entries published
   by inserts that returned true, `taken` how many of them have left the buffer, `removed` the values
   that removes returned, `resets` how often the buffer was reset.
   */
  datatype State<T> = State(
    buffer: seq<T>,
    head: nat,
    tail: nat,
    inserter: Inserter<T>,
    remover: Remover<T>,
    accepted: seq<T>,
    taken: nat,
    removed: seq<T>,
    resets: nat)

  /**
   One atomic action of one of the threads.  The action after `LoadHead` is the remover's own tail load,
   or the store that makes the tail the loaded head when it is resetting.
   */
  datatype Step<T> =
    | LoadOwnHead(data: T)
    | CheckTail
    | StoreSlot
    | PublishHead
    | LoadHead(op: Op)
    | LoadOwnTail
    | ReadSlot
    | PublishTail

  predicate Enabled<T>(s: State<T>, step: Step<T>) {
    match step
    case LoadOwnHead(_) => s.inserter.InsertIdle?
    case CheckTail => s.inserter.HeadTaken?
    case StoreSlot => s.inserter.Cleared?
    case PublishHead => s.inserter.Stored?
    case LoadHead(_) => s.remover.RemoveIdle?
    case LoadOwnTail => s.remover.HeadLoaded?
    case ReadSlot => s.remover.Claimed?
    case PublishTail => s.remover.Fetched?
  }

  predicate Sized<T>(s: State<T>) {
    && |s.buffer| >= 2 && s.head < |s.buffer| && s.tail < |s.buffer|
    && (s.inserter.HeadTaken? ==> s.inserter.head < |s.buffer|)
    && (s.inserter.Cleared? || s.inserter.Stored? ==> s.inserter.next < |s.buffer|)
    && (s.remover.HeadLoaded? ==> s.remover.head < |s.buffer| && s.remover.seen <= |s.accepted|)
    && (s.remover.Claimed? || s.remover.Fetched? ==> s.remover.next < |s.buffer|)
  }

  /** The effect of an action, with overwriting off. */
  function After<T>(s: State<T>, step: Step<T>): (r: State<T>)
    requires Sized(s) && Enabled(s, step)
    ensures Sized(r) && |r.buffer| == |s.buffer|
  {
    var n := |s.buffer|;
    match step
    case LoadOwnHead(data) => s.(inserter := HeadTaken(data, s.head))
    case CheckTail =>
      var next := Succ(s.inserter.head, n);
      s.(inserter := if s.tail == next then InsertIdle else Cleared(s.inserter.data, next))
    case StoreSlot =>
      s.(buffer := s.buffer[s.inserter.next := s.inserter.data], inserter := Stored(s.inserter.data, s.inserter.next))
    case PublishHead =>
      s.(head := s.inserter.next, inserter := InsertIdle, accepted := s.accepted + [s.inserter.data])
    case LoadHead(op) => s.(remover := HeadLoaded(op, s.head, |s.accepted|))
    case LoadOwnTail =>
      if s.remover.op == Reset then
        s.(tail := s.remover.head, remover := RemoveIdle, taken := s.remover.seen, resets := s.resets + 1)
      else if s.remover.head == s.tail then s.(remover := RemoveIdle)
      else s.(remover := Claimed(s.remover.op, Succ(s.tail, n)))
    case ReadSlot =>
      if s.remover.op == Peek then s.(remover := RemoveIdle)
      else s.(remover := Fetched(s.buffer[s.remover.next], s.remover.next))
    case PublishTail =>
      s.(tail := s.remover.next, remover := RemoveIdle, taken := s.taken + 1, removed := s.removed + [s.remover.value])
  }

  ghost predicate Initial<T>(s: State<T>) {
    && |s.buffer| >= 2 && s.head == s.tail == 0 && s.inserter.InsertIdle? && s.remover.RemoveIdle?
    && s.accepted == [] && s.taken == 0 && s.removed == [] && s.resets == 0
  }

  /** A run: each action is enabled where it happens; the list ends in the final state. */
  predicate IsRun<T>(s: State<T>, steps: seq<Step<T>>)
    requires Sized(s)
    decreases |steps|
  {
    steps == [] || (Enabled(s, steps[0]) && IsRun(After(s, steps[0]), steps[1..]))
  }

  function Final<T>(s: State<T>, steps: seq<Step<T>>): (r: State<T>)
    requires Sized(s) && IsRun(s, steps)
    ensures Sized(r) && |r.buffer| == |s.buffer|
    decreases |steps|
  {
    if steps == [] then s else Final(After(s, steps[0]), steps[1..])
  }

  // ---------------------------------------------------------------- the invariant

  /** The slot index reached after `count` advances from zero. */
  function Slot(count: nat, n: nat): (r: nat)
    requires n >= 2
    ensures r < n
  {
    count % n
  }

  lemma SlotSucc(count: nat, n: nat)
    requires n >= 2
    ensures Slot(count + 1, n) == Succ(Slot(count, n), n)
  {
    var q := count / n;
    assert count == q * n + Slot(count, n);
    if Slot(count, n) + 1 == n {
      assert count + 1 == (q + 1) * n + 0;
      Remainder(count + 1, q + 1, 0, n);
    } else {
      Remainder(count + 1, q, Slot(count, n) + 1, n);
    }
  }

  lemma SmallMultiple(k: int, n: int)
    requires 0 < n && -n < k * n < n
    ensures k == 0
  {
    if k >= 1 {
      ProductMonotone(1, k, n);
    }
  }

  lemma Remainder(x: nat, q: nat, r: nat, n: nat)
    requires n >= 2 && r < n && x == q * n + r
    ensures x % n == r
  {
    var d := x / n;
    assert (d - q) * n == r - x % n;
    SmallMultiple(d - q, n);
  }

  /** Counts less than one lap apart that fall in the same slot are the same. */
  lemma SlotInjective(a: nat, b: nat, n: nat)
    requires n >= 2 && a <= b < a + n && Slot(a, n) == Slot(b, n)
    ensures a == b
  {
    var d: int := b / n - a / n;
    SmallMultiple(d, n);
  }

  /**
   The protocol's invariant: the indices count the published and the taken entries, at most a capacity's
   worth of entries lies between them in order, the inserter owns the slot after the head while it
   writes, and the remover owns the slot after the tail while it reads.
   */
  ghost predicate Inv<T>(s: State<T>) {
    && Sized(s)
    && var n := |s.buffer|;
    && s.taken <= |s.accepted| < s.taken + n
    && s.head == Slot(|s.accepted|, n) && s.tail == Slot(s.taken, n)
    && (forall k :: s.taken <= k < |s.accepted| ==> s.buffer[Slot(k + 1, n)] == s.accepted[k])
    && InserterInv(s) && RemoverInv(s)
    && |s.removed| <= s.taken && (s.resets == 0 ==> s.removed == s.accepted[..s.taken])
  }

  ghost predicate InserterInv<T>(s: State<T>)
    requires Sized(s)
  {
    match s.inserter
    case InsertIdle => true
    case HeadTaken(_, head) => head == s.head
    case Cleared(_, next) => next == Succ(s.head, |s.buffer|) && next != s.tail
    case Stored(data, next) => next == Succ(s.head, |s.buffer|) && next != s.tail && s.buffer[next] == data
  }

  ghost predicate RemoverInv<T>(s: State<T>)
    requires Sized(s) && s.taken <= |s.accepted|
  {
    match s.remover
    case RemoveIdle => true
    case HeadLoaded(_, head, seen) => s.taken <= seen && head == Slot(seen, |s.buffer|)
    case Claimed(op, next) => op != Reset && next == Succ(s.tail, |s.buffer|) && s.taken < |s.accepted|
    case Fetched(value, next) =>
      next == Succ(s.tail, |s.buffer|) && s.taken < |s.accepted| && value == s.accepted[s.taken]
  }

  lemma InitialInv<T>(s: State<T>)
    requires Initial(s)
    ensures Inv(s)
  {
  }

  lemma InserterKeeps<T>(s: State<T>, step: Step<T>)
    requires Inv(s) && Enabled(s, step)
    requires step.LoadOwnHead? || step.CheckTail? || step.StoreSlot?
    ensures Inv(After(s, step))
  {
    hide Slot;
    var n := |s.buffer|;
    if step.StoreSlot? {
      var written := s.buffer[s.inserter.next := s.inserter.data];
      forall k | s.taken <= k < |s.accepted| ensures written[Slot(k + 1, n)] == s.accepted[k] {
        LiveSlotNotNext(s, k);
      }
    }
  }

  /** The slot after the head holds no live entry, unless the buffer is full. */
  lemma LiveSlotNotNext<T>(s: State<T>, k: nat)
    requires Inv(s) && s.taken <= k < |s.accepted| && Succ(s.head, |s.buffer|) != s.tail
    ensures Slot(k + 1, |s.buffer|) != Succ(s.head, |s.buffer|)
  {
    hide Slot;
    var n := |s.buffer|;
    SlotSucc(|s.accepted|, n);
    if Slot(k + 1, n) == Slot(|s.accepted| + 1, n) {
      SlotInjective(k + 1, |s.accepted| + 1, n);
    }
  }

  lemma PublishKeeps<T>(s: State<T>)
    requires Inv(s) && s.inserter.Stored?
    ensures Inv(After(s, PublishHead))
  {
    hide Slot;
    var n := |s.buffer|;
    var a := |s.accepted|;
    SlotSucc(a, n);
    if a + 1 == s.taken + n {
      SlotLap(s.taken, n);
    }
  }

  lemma SlotLap(count: nat, n: nat)
    requires n >= 2
    ensures Slot(count + n, n) == Slot(count, n)
  {
    Remainder(count + n, count / n + 1, count % n, n);
  }

  /** Freeing the slot after the tail does not touch the slot the inserter has claimed. */
  lemma TailMoves<T>(s: State<T>, taken: nat)
    requires Inv(s) && s.taken <= taken <= |s.accepted|
    ensures Slot(taken, |s.buffer|) != Succ(s.head, |s.buffer|) || s.inserter.InsertIdle? || s.inserter.HeadTaken?
  {
    hide Slot;
    var n := |s.buffer|;
    SlotSucc(|s.accepted|, n);
    if Slot(taken, n) == Slot(|s.accepted| + 1, n) {
      if taken + n == |s.accepted| + 1 {
        assert taken == s.taken;
      } else {
        SlotInjective(taken, |s.accepted| + 1, n);
      }
    }
  }

  lemma RemoverKeeps<T>(s: State<T>, step: Step<T>)
    requires Inv(s) && Enabled(s, step)
    requires step.LoadHead? || step.LoadOwnTail? || step.ReadSlot? || step.PublishTail?
    ensures Inv(After(s, step))
  {
    hide Slot;
    var n := |s.buffer|;
    match step {
      case LoadHead(_) =>
      case LoadOwnTail =>
        if s.remover.op == Reset {
          TailMoves(s, s.remover.seen);
        } else if s.remover.head != s.tail {
          assert s.remover.seen != s.taken;
        }
      case ReadSlot =>
        SlotSucc(s.taken, n);
      case PublishTail =>
        SlotSucc(s.taken, n);
        TailMoves(s, s.taken + 1);
    }
  }

  lemma StepKeeps<T>(s: State<T>, step: Step<T>)
    requires Inv(s) && Enabled(s, step)
    ensures Inv(After(s, step))
  {
    hide Inv, After;
    match step {
      case LoadOwnHead(_) => InserterKeeps(s, step);
      case CheckTail => InserterKeeps(s, step);
      case StoreSlot => InserterKeeps(s, step);
      case PublishHead => PublishKeeps(s);
      case LoadHead(_) => RemoverKeeps(s, step);
      case LoadOwnTail => RemoverKeeps(s, step);
      case ReadSlot => RemoverKeeps(s, step);
      case PublishTail => RemoverKeeps(s, step);
    }
  }

  lemma {:induction false} RunKeeps<T>(s: State<T>, steps: seq<Step<T>>)
    requires Inv(s) && IsRun(s, steps)
    ensures Inv(Final(s, steps))
    decreases |steps|
  {
    hide InserterInv, RemoverInv, Slot, After;
    if steps != [] {
      StepKeeps(s, steps[0]);
      RunKeeps(After(s, steps[0]), steps[1..]);
    }
  }

  // ---------------------------------------------------------------- what the protocol guarantees

  /**
   In every interleaving, what has been removed is a prefix of what has been accepted, in order and
   without a gap, and no more entries are held than the capacity.
   */
  lemma FirstInFirstOut<T>(s: State<T>, steps: seq<Step<T>>)
    requires Initial(s) && IsRun(s, steps)
    ensures
      var r := Final(s, steps);
      && r.taken <= |r.accepted| <= r.taken + (|s.buffer| - 1)
      && (r.resets == 0 ==> r.removed == r.accepted[..r.taken])
  {
    InitialInv(s);
    RunKeeps(s, steps);
  }

  /** The inserter never writes the slot the remover is about to read, nor one that holds an untaken entry. */
  lemma NoConflict<T>(s: State<T>, steps: seq<Step<T>>)
    requires Initial(s) && IsRun(s, steps) && Final(s, steps).inserter.Cleared?
    ensures
      var r := Final(s, steps);
      && (r.remover.Claimed? ==> r.inserter.next != r.remover.next)
      && forall k :: r.taken <= k < |r.accepted| ==>
           After(r, StoreSlot).buffer[Slot(k + 1, |r.buffer|)] == r.accepted[k]
  {
    hide Slot;
    InitialInv(s);
    RunKeeps(s, steps);
    var r := Final(s, steps);
    InserterKeeps(r, StoreSlot);
    if r.remover.Claimed? {
      SlotSucc(r.taken, |r.buffer|);
      LiveSlotNotNext(r, r.taken);
    }
  }

  /** An insert is refused exactly when the buffer is full at the moment it looks at the tail. */
  lemma RefusedIffFull<T>(s: State<T>, steps: seq<Step<T>>)
    requires Initial(s) && IsRun(s, steps) && Final(s, steps).inserter.HeadTaken?
    ensures
      var r := Final(s, steps);
      After(r, CheckTail).inserter.InsertIdle? <==> |r.accepted| - r.taken == |s.buffer| - 1
  {
    hide Slot;
    InitialInv(s);
    RunKeeps(s, steps);
    var r := Final(s, steps);
    var n := |r.buffer|;
    SlotSucc(|r.accepted|, n);
    if |r.accepted| + 1 == r.taken + n {
      SlotLap(r.taken, n);
    } else if Slot(r.taken, n) == Slot(|r.accepted| + 1, n) {
      SlotInjective(r.taken, |r.accepted| + 1, n);
    }
  }

  /**
   A remove or a peek finds nothing exactly when every entry accepted before it loaded the head had been
   taken; otherwise what it reads, however late, is the oldest entry still there.
   */
  lemma ReadsTheOldest<T>(s: State<T>, steps: seq<Step<T>>)
    requires Initial(s) && IsRun(s, steps)
    ensures
      var r := Final(s, steps);
      && (r.remover.HeadLoaded? && r.remover.op != Reset ==>
            (After(r, LoadOwnTail).remover.RemoveIdle? <==> r.remover.seen == r.taken))
      && (r.remover.Claimed? ==> r.taken < |r.accepted| && r.buffer[r.remover.next] == r.accepted[r.taken])
      && (r.remover.Fetched? ==> r.taken < |r.accepted| && r.remover.value == r.accepted[r.taken])
  {
    hide Slot;
    InitialInv(s);
    RunKeeps(s, steps);
    var r := Final(s, steps);
    var n := |r.buffer|;
    if r.remover.HeadLoaded? && r.remover.head == r.tail {
      SlotInjective(r.taken, r.remover.seen, n);
    }
    if r.remover.Claimed? {
      SlotSucc(r.taken, n);
    }
  }

  /** The difference of two index values, as `size` computes it. */
  function SizeFrom(head: nat, tail: nat, n: nat): int
    requires head < n && tail < n
  {
    if head >= tail then head - tail else n + head - tail
  }

  /** `size` is right whenever the head it loaded is not behind the tail it loaded, as for either thread. */
  lemma SizeIsDifference(seen: nat, taken: nat, n: nat)
    requires n >= 2 && taken <= seen < taken + n
    ensures SizeFrom(Slot(seen, n), Slot(taken, n), n) == seen - taken
  {
    var d: int := seen / n - taken / n;
    var rest: int := Slot(seen, n) - Slot(taken, n);
    if rest >= 0 {
      SmallMultiple(d, n);
    } else {
      assert (d - 1) * n == d * n - n;
      SmallMultiple(d - 1, n);
    }
  }

}
