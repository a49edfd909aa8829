/** The bounded queue in shared memory: three semaphores, two indices, any number of threads. */
module ShmQueue {
  import Words

  // ----- One thread

  // The next atomic step of a thread inside `queue_enqueue` (Put...) or `queue_dequeue` (Take...).
  datatype Phase =
    | Outside
    | PutWaitSlots(item: int)
    | PutWaitMutex(item: int)
    | PutWrite(item: int)
    | PutAdvance
    | PutPostMutex
    | PutPostItems
    | TakeWaitItems
    | TakeWaitMutex
    | TakeRead
    | TakeAdvance(item: int)
    | TakePostMutex(item: int)
    | TakePostSlots(item: int)

  // The struct in shared memory; semaphores are their counts.
  datatype Shared = Shared(buffer: seq<int>, head: nat, tail: nat, mutex: nat, slots: nat, items: nat)

  ghost predicate Sound(s: Shared) {
    |s.buffer| >= 1 && s.head < |s.buffer| && s.tail < |s.buffer|
  }

  /** A `sem_wait` can proceed only on a positive count; every other step always can. */
  predicate Enabled(s: Shared, p: Phase) {
    match p
    case Outside => false
    case PutWaitSlots(_) => s.slots > 0
    case TakeWaitItems => s.items > 0
    case PutWaitMutex(_) => s.mutex > 0
    case TakeWaitMutex => s.mutex > 0
    case _ => true
  }

  /** What one atomic step does to the shared struct and to the thread. */
  function StepOf(s: Shared, p: Phase): (r: (Shared, Phase))
    requires Sound(s) && Enabled(s, p)
    ensures Sound(r.0)
  {
    match p
    case PutWaitSlots(item) => (s.(slots := s.slots - 1), PutWaitMutex(item))
    case PutWaitMutex(item) => (s.(mutex := s.mutex - 1), PutWrite(item))
    case PutWrite(item) => (s.(buffer := s.buffer[s.tail := item]), PutAdvance)
    case PutAdvance => (s.(tail := (s.tail + 1) % |s.buffer|), PutPostMutex)
    case PutPostMutex => (s.(mutex := s.mutex + 1), PutPostItems)
    case PutPostItems => (s.(items := s.items + 1), Outside)
    case TakeWaitItems => (s.(items := s.items - 1), TakeWaitMutex)
    case TakeWaitMutex => (s.(mutex := s.mutex - 1), TakeRead)
    case TakeRead => (s, TakeAdvance(s.buffer[s.head]))
    case TakeAdvance(item) => (s.(head := (s.head + 1) % |s.buffer|), TakePostMutex(item))
    case TakePostMutex(item) => (s.(mutex := s.mutex + 1), TakePostSlots(item))
    case TakePostSlots(_) => (s.(slots := s.slots + 1), Outside)
  }

  class SharedQueue {
    var buffer: array<int>
    var head: nat
    var tail: nat
    var mutex: nat
    var slots: nat
    var items: nat

    ghost function Abs(): Shared
      reads this, buffer
    {
      Shared(buffer[..], head, tail, mutex, slots, items)
    }

    /** `queue_init` on a queue of `size` cells. */
    constructor (size: nat)
      requires size >= 1
      ensures fresh(buffer) && Initial(Abs(), size)
    {
      buffer := new int[size];
      head := 0;
      tail := 0;
      mutex := 1;
      slots := size;
      items := 0;
    }

    /** Performs the step a thread stands at. */
    method Step(p: Phase) returns (q: Phase)
      requires Sound(Abs()) && Enabled(Abs(), p)
      modifies this, buffer
      ensures buffer == old(buffer) && (Abs(), q) == StepOf(old(Abs()), p)
    {
      match p {
        case PutWaitSlots(item) => slots := slots - 1; q := PutWaitMutex(item);
        case PutWaitMutex(item) => mutex := mutex - 1; q := PutWrite(item);
        case PutWrite(item) => buffer[tail] := item; q := PutAdvance;
        case PutAdvance => tail := (tail + 1) % buffer.Length; q := PutPostMutex;
        case PutPostMutex => mutex := mutex + 1; q := PutPostItems;
        case PutPostItems => items := items + 1; q := Outside;
        case TakeWaitItems => items := items - 1; q := TakeWaitMutex;
        case TakeWaitMutex => mutex := mutex - 1; q := TakeRead;
        case TakeRead => q := TakeAdvance(buffer[head]);
        case TakeAdvance(item) => head := (head + 1) % buffer.Length; q := TakePostMutex(item);
        case TakePostMutex(item) => mutex := mutex + 1; q := TakePostSlots(item);
        case TakePostSlots(_) => slots := slots + 1; q := Outside;
      }
    }
  }

  // ----- All threads

  // `given` and `returned` record the arguments of `queue_enqueue` and the results of `queue_dequeue` so far,
  // `written` and `taken` the buffer writes and reads, all in order.
  datatype State = State(
    shared: Shared, threads: seq<Phase>, given: seq<int>, written: seq<int>, taken: seq<int>, returned: seq<int>)

  ghost predicate Initial(s: Shared, size: nat) {
    |s.buffer| == size && s.head == s.tail == 0 && s.mutex == 1 && s.slots == size && s.items == 0
  }

  ghost predicate Init(s: State, size: nat) {
    && size >= 1 && Initial(s.shared, size)
    && (forall t :: 0 <= t < |s.threads| ==> s.threads[t] == Outside)
    && s.given == s.written == s.taken == s.returned == []
  }

  ghost function Entered(s: State, t: nat, p: Phase): State
    requires t < |s.threads|
  {
    s.(threads := s.threads[t := p], given := if p.PutWaitSlots? then s.given + [p.item] else s.given)
  }

  /** Thread `t` enters one of the two functions. */
  ghost predicate Enter(s: State, t: nat, s': State) {
    && t < |s.threads| && s.threads[t] == Outside
    && exists p: Phase :: (p.PutWaitSlots? || p == TakeWaitItems) && s' == Entered(s, t, p)
  }

  /** Thread `t` takes the step it stands at. */
  ghost predicate Act(s: State, t: nat, s': State) {
    && t < |s.threads| && Sound(s.shared) && Enabled(s.shared, s.threads[t])
    && s' == After(s, t)
  }

  ghost function After(s: State, t: nat): State
    requires t < |s.threads| && Sound(s.shared) && Enabled(s.shared, s.threads[t])
  {
    var p := s.threads[t];
    var (shared, q) := StepOf(s.shared, p);
    State(
      shared, s.threads[t := q], s.given,
      if p.PutWrite? then s.written + [p.item] else s.written,
      if p.TakeRead? then s.taken + [s.shared.buffer[s.shared.head]] else s.taken,
      if p.TakePostSlots? then s.returned + [p.item] else s.returned)
  }

  ghost predicate Next(s: State, s': State) {
    exists t :: Enter(s, t, s') || Act(s, t, s')
  }

  // ----- Counting threads

  datatype Kind =
    | Reserving   // a producer that holds a slot it has not filled
    | Announcing  // a producer that has filled its slot and not yet said so
    | Claiming    // a consumer that has claimed an item it has not read
    | Freeing     // a consumer that has read its item and not yet returned the slot
    | InCritical  // a thread that holds the mutex
    | TailStale   // a producer between its write and its index update
    | HeadStale   // a consumer between its read and its index update

  predicate Is(p: Phase, k: Kind) {
    match k
    case Reserving => p.PutWaitMutex? || p.PutWrite?
    case Announcing => p.PutAdvance? || p.PutPostMutex? || p.PutPostItems?
    case Claiming => p.TakeWaitMutex? || p.TakeRead?
    case Freeing => p.TakeAdvance? || p.TakePostMutex? || p.TakePostSlots?
    case InCritical =>
      p.PutWrite? || p.PutAdvance? || p.PutPostMutex? || p.TakeRead? || p.TakeAdvance? || p.TakePostMutex?
    case TailStale => p.PutAdvance?
    case HeadStale => p.TakeAdvance?
  }

  function One(p: Phase, k: Kind): nat {
    if Is(p, k) then 1 else 0
  }

  function Count(threads: seq<Phase>, k: Kind): nat {
    if threads == [] then 0 else One(threads[0], k) + Count(threads[1..], k)
  }

  lemma {:induction false} CountUpdate(threads: seq<Phase>, t: nat, q: Phase, k: Kind)
    requires t < |threads|
    ensures Count(threads[t := q], k) + One(threads[t], k) == Count(threads, k) + One(q, k)
  {
    var updated := threads[t := q];
    if t == 0 {
      assert updated[1..] == threads[1..];
    } else {
      CountUpdate(threads[1..], t - 1, q, k);
      assert updated[1..] == threads[1..][t - 1 := q];
    }
  }

  lemma {:induction false} CountNone(threads: seq<Phase>, k: Kind)
    requires forall t :: 0 <= t < |threads| ==> !Is(threads[t], k)
    ensures Count(threads, k) == 0
  {
    if threads != [] {
      assert forall t :: 0 <= t < |threads[1..]| ==> threads[1..][t] == threads[t + 1];
      CountNone(threads[1..], k);
    }
  }

  lemma {:induction false} CountSome(threads: seq<Phase>, t: nat, k: Kind)
    requires t < |threads| && Is(threads[t], k)
    ensures Count(threads, k) >= 1
  {
    if t > 0 {
      CountSome(threads[1..], t - 1, k);
    }
  }

  lemma {:induction false} CountTwo(threads: seq<Phase>, t: nat, u: nat, k: Kind)
    requires t < u < |threads| && Is(threads[t], k) && Is(threads[u], k)
    ensures Count(threads, k) >= 2
  {
    if t > 0 {
      CountTwo(threads[1..], t - 1, u - 1, k);
    } else {
      CountSome(threads[1..], u - 1, k);
    }
  }

  lemma {:induction false} CountWitness(threads: seq<Phase>, k: Kind) returns (t: nat)
    requires Count(threads, k) >= 1
    ensures t < |threads| && Is(threads[t], k)
  {
    if Is(threads[0], k) {
      t := 0;
    } else {
      var u := CountWitness(threads[1..], k);
      t := u + 1;
    }
  }

  /** Past the first semaphore and not yet back outside. */
  predicate InFlight(p: Phase) {
    Is(p, Reserving) || Is(p, Announcing) || Is(p, Claiming) || Is(p, Freeing)
  }

  // ----- The invariant

  /** Where the `i`-th item of a run lives. */
  ghost function Cell(i: nat, n: nat): (c: nat)
    requires n >= 1
    ensures c < n
  {
    i % n
  }

  lemma CellStep(i: nat, n: nat)
    requires n >= 1
    ensures (Cell(i, n) + 1) % n == Cell(i + 1, n)
  {
    Words.ModStep(i, n);
  }

  ghost predicate Counts(s: State) {
    var n, live := |s.shared.buffer|, |s.written| - |s.taken|;
    && s.shared.mutex + Count(s.threads, InCritical) == 1
    && s.shared.slots + live + Count(s.threads, Reserving) + Count(s.threads, Freeing) == n
    && live == s.shared.items + Count(s.threads, Announcing) + Count(s.threads, Claiming)
  }

  ghost predicate Indices(s: State)
    requires Sound(s.shared)
  {
    var n := |s.shared.buffer|;
    var tail, head := |s.written| - Count(s.threads, TailStale), |s.taken| - Count(s.threads, HeadStale);
    tail >= 0 && head >= 0 && s.shared.tail == Cell(tail, n) && s.shared.head == Cell(head, n)
  }

  /** Every written and unread item is still in its cell. */
  ghost predicate Cells(s: State)
    requires Sound(s.shared)
  {
    var n := |s.shared.buffer|;
    forall i {:trigger s.written[i]} :: |s.taken| <= i < |s.written| ==> s.shared.buffer[Cell(i, n)] == s.written[i]
  }

  ghost predicate Inv(s: State) {
    && Sound(s.shared)
    && |s.taken| <= |s.written| && s.taken == s.written[..|s.taken|]
    && Counts(s) && Indices(s) && Cells(s)
  }

  // ----- Every step keeps the invariant

  lemma InitInv(s: State, size: nat)
    requires Init(s, size)
    ensures Inv(s)
  {
    forall k: Kind ensures Count(s.threads, k) == 0 {
      CountNone(s.threads, k);
    }
  }

  /** How every count moves when a thread goes from one phase to another. */
  lemma CountsMove(threads: seq<Phase>, t: nat, q: Phase)
    requires t < |threads|
    ensures forall k :: Count(threads[t := q], k) + One(threads[t], k) == Count(threads, k) + One(q, k)
    ensures forall k :: Count(threads, k) >= One(threads[t], k)
  {
    forall k: Kind
      ensures Count(threads[t := q], k) + One(threads[t], k) == Count(threads, k) + One(q, k)
      ensures Count(threads, k) >= One(threads[t], k)
    {
      CountUpdate(threads, t, q, k);
      if Is(threads[t], k) {
        CountSome(threads, t, k);
      }
    }
  }

  lemma EnterKeepsInv(s: State, t: nat, s': State)
    requires Inv(s) && Enter(s, t, s')
    ensures Inv(s')
  {
    hide Cell;
    CountsMove(s.threads, t, s'.threads[t]);
  }

  /** The step itself keeps the counting laws; a write finds a free cell, a read finds an unread item. */
  lemma ActKeepsCounts(s: State, t: nat)
    requires Inv(s) && t < |s.threads| && Enabled(s.shared, s.threads[t])
    ensures Counts(After(s, t))
    ensures s.threads[t].PutWrite? ==> |s.written| - |s.taken| < |s.shared.buffer| && Count(s.threads, TailStale) == 0
    ensures s.threads[t].TakeRead? ==> |s.taken| < |s.written| && Count(s.threads, HeadStale) == 0
  {
    hide Indices, Cells;
    var p := s.threads[t];
    var q := StepOf(s.shared, p).1;
    CountsMove(s.threads, t, q);
    assert After(s, t).threads == s.threads[t := q];
    if p.PutWrite? {
      AloneInside(s, t, TailStale);
    } else if p.TakeRead? {
      AloneInside(s, t, HeadStale);
    }
  }

  /** A thread that holds the mutex is the only one between a buffer access and an index update. */
  lemma AloneInside(s: State, t: nat, k: Kind)
    requires Inv(s) && t < |s.threads| && Is(s.threads[t], InCritical)
    requires (k == TailStale || k == HeadStale) && !Is(s.threads[t], k)
    ensures Count(s.threads, k) == 0
  {
    if Count(s.threads, k) >= 1 {
      var u := CountWitness(s.threads, k);
      assert Is(s.threads[u], InCritical);
      if t < u {
        CountTwo(s.threads, t, u, InCritical);
      } else {
        CountTwo(s.threads, u, t, InCritical);
      }
    }
  }

  lemma ActKeepsIndices(s: State, t: nat)
    requires Inv(s) && t < |s.threads| && Enabled(s.shared, s.threads[t])
    ensures Indices(After(s, t))
  {
    hide Cells, Counts, Cell;
    var p, n := s.threads[t], |s.shared.buffer|;
    var q := StepOf(s.shared, p).1;
    CountsMove(s.threads, t, q);
    ActKeepsCounts(s, t);
    var tail, head := |s.written| - Count(s.threads, TailStale), |s.taken| - Count(s.threads, HeadStale);
    if p.PutAdvance? {
      CellStep(tail, n);
    } else if p.TakeAdvance? {
      CellStep(head, n);
    } else {
      assert After(s, t).shared.tail == s.shared.tail && After(s, t).shared.head == s.shared.head;
    }
  }

  lemma LastCellApart(s: State, n: nat)
    requires |s.written| - |s.taken| < n
    ensures forall i :: |s.taken| <= i < |s.written| ==> Cell(i, n) != Cell(|s.written|, n)
  {
    forall i | |s.taken| <= i < |s.written| ensures Cell(i, n) != Cell(|s.written|, n) {
      Words.ModApart(i, |s.written|, n);
    }
  }

  lemma ActKeepsCells(s: State, t: nat)
    requires Inv(s) && t < |s.threads| && Enabled(s.shared, s.threads[t])
    ensures Cells(After(s, t))
    ensures var s' := After(s, t); |s'.taken| <= |s'.written| && s'.taken == s'.written[..|s'.taken|]
  {
    hide Counts;
    var p, n, s' := s.threads[t], |s.shared.buffer|, After(s, t);
    ActKeepsCounts(s, t);
    if p.PutWrite? {
      LastCellApart(s, n);
      assert s'.written[..|s.taken|] == s.written[..|s.taken|];
    } else if p.TakeRead? {
      assert s.shared.buffer[Cell(|s.taken|, n)] == s.written[|s.taken|];
      assert s.written[..|s.taken| + 1] == s.written[..|s.taken|] + [s.written[|s.taken|]];
    }
  }

  lemma NextKeepsInv(s: State, s': State)
    requires Inv(s) && Next(s, s')
    ensures Inv(s')
  {
    var t :| Enter(s, t, s') || Act(s, t, s');
    if Act(s, t, s') {
      ActKeepsCounts(s, t);
      ActKeepsIndices(s, t);
      ActKeepsCells(s, t);
    } else {
      EnterKeepsInv(s, t, s');
    }
  }

  // ----- Whole runs

  ghost predicate Run(run: seq<State>, size: nat) {
    && run != [] && Init(run[0], size)
    && forall i :: 0 <= i < |run| - 1 ==> Next(run[i], run[i + 1])
  }

  lemma {:induction false} RunKeepsInv(run: seq<State>, size: nat, i: nat)
    requires Run(run, size) && i < |run|
    ensures Inv(run[i]) && |run[i].shared.buffer| == size
  {
    if i == 0 {
      InitInv(run[0], size);
    } else {
      RunKeepsInv(run, size, i - 1);
      NextKeepsInv(run[i - 1], run[i]);
      SizeKept(run[i - 1], run[i]);
    }
  }

  lemma SizeKept(s: State, s': State)
    requires Next(s, s')
    ensures |s'.shared.buffer| == |s.shared.buffer|
  {
    var t :| Enter(s, t, s') || Act(s, t, s');
  }

  /** In every run, what was taken from the buffer is a prefix of what was put into it, in order. */
  lemma TakenIsPrefix(run: seq<State>, size: nat, i: nat)
    requires Run(run, size) && i < |run|
    ensures run[i].taken <= run[i].written
    ensures |run[i].written| - |run[i].taken| <= size
  {
    RunKeepsInv(run, size, i);
  }

  /** In every run, a write never lands on a cell that holds an unread item, and a read finds the oldest one. */
  lemma NoOverwrite(run: seq<State>, size: nat, i: nat, t: nat)
    requires Run(run, size) && i < |run| && t < |run[i].threads|
    ensures Sound(run[i].shared) && size >= 1
    ensures var s := run[i];
      && (s.threads[t].PutWrite? ==>
            forall j :: |s.taken| <= j < |s.written| ==> Cell(j, size) != s.shared.tail)
      && (s.threads[t].TakeRead? ==>
            |s.taken| < |s.written| && s.shared.buffer[s.shared.head] == s.written[|s.taken|])
  {
    var s := run[i];
    RunKeepsInv(run, size, i);
    if s.threads[t].PutWrite? {
      ActKeepsCounts(s, t);
      forall j | |s.taken| <= j < |s.written| ensures Cell(j, size) != s.shared.tail {
        Words.ModApart(j, |s.written|, size);
      }
    } else if s.threads[t].TakeRead? {
      ActKeepsCounts(s, t);
    }
  }

  /** In every run, free slots, available items and operations in flight add up to the capacity. */
  lemma Conservation(run: seq<State>, size: nat, i: nat)
    requires Run(run, size) && i < |run|
    ensures var s := run[i];
      s.shared.slots + s.shared.items + CountInFlight(s.threads) == size
  {
    RunKeepsInv(run, size, i);
    InFlightSplits(run[i].threads);
  }

  function CountInFlight(threads: seq<Phase>): nat {
    if threads == [] then 0 else (if InFlight(threads[0]) then 1 else 0) + CountInFlight(threads[1..])
  }

  lemma {:induction false} InFlightSplits(threads: seq<Phase>)
    ensures CountInFlight(threads) == Count(threads, Reserving) + Count(threads, Announcing)
      + Count(threads, Claiming) + Count(threads, Freeing)
  {
    if threads != [] {
      InFlightSplits(threads[1..]);
    }
  }

  /** When no operation is in flight, the two counting semaphores are not both zero. */
  lemma NotBothZero(run: seq<State>, size: nat, i: nat)
    requires Run(run, size) && i < |run|
    requires forall t :: 0 <= t < |run[i].threads| ==> !InFlight(run[i].threads[t])
    ensures run[i].shared.slots + run[i].shared.items == size >= 1
  {
    RunKeepsInv(run, size, i);
    forall k | k in {Reserving, Announcing, Claiming, Freeing} ensures Count(run[i].threads, k) == 0 {
      CountNone(run[i].threads, k);
    }
    assert size >= 1;
  }

  /**
   * When no operation is in flight, a producer is let in exactly while fewer than `size` items are stored, and a
   * consumer exactly while one is.
   */
  lemma LetInExactly(run: seq<State>, size: nat, i: nat, item: int)
    requires Run(run, size) && i < |run|
    requires forall t :: 0 <= t < |run[i].threads| ==> !InFlight(run[i].threads[t])
    ensures var s := run[i];
      && (Enabled(s.shared, PutWaitSlots(item)) <==> |s.written| - |s.taken| < size)
      && (Enabled(s.shared, TakeWaitItems) <==> |s.written| - |s.taken| > 0)
  {
    RunKeepsInv(run, size, i);
    forall k | k in {Reserving, Announcing, Claiming, Freeing} ensures Count(run[i].threads, k) == 0 {
      CountNone(run[i].threads, k);
    }
  }

  /** At most one thread holds the mutex. */
  lemma MutualExclusion(run: seq<State>, size: nat, i: nat, t: nat, u: nat)
    requires Run(run, size) && i < |run| && t < u < |run[i].threads|
    ensures !(Is(run[i].threads[t], InCritical) && Is(run[i].threads[u], InCritical))
  {
    RunKeepsInv(run, size, i);
    if Is(run[i].threads[t], InCritical) && Is(run[i].threads[u], InCritical) {
      CountTwo(run[i].threads, t, u, InCritical);
    }
  }

  /** While any operation is in flight, some thread in flight can take its step. */
  lemma NoDeadlock(run: seq<State>, size: nat, i: nat, t: nat) returns (u: nat)
    requires Run(run, size) && i < |run| && t < |run[i].threads| && InFlight(run[i].threads[t])
    ensures u < |run[i].threads| && InFlight(run[i].threads[u]) && Enabled(run[i].shared, run[i].threads[u])
  {
    var s := run[i];
    RunKeepsInv(run, size, i);
    if Enabled(s.shared, s.threads[t]) {
      u := t;
    } else {
      u := CountWitness(s.threads, InCritical);
    }
  }

  // ----- Which item goes where

  datatype Side = Putting | Taking

  /** The item a thread carries, on its way into the buffer or out of it. */
  function Carried(p: Phase, side: Side): seq<int> {
    match side
    case Putting => if p.PutWaitSlots? || p.PutWaitMutex? || p.PutWrite? then [p.item] else []
    case Taking => if p.TakeAdvance? || p.TakePostMutex? || p.TakePostSlots? then [p.item] else []
  }

  function Held(threads: seq<Phase>, side: Side): multiset<int> {
    if threads == [] then multiset{} else multiset(Carried(threads[0], side)) + Held(threads[1..], side)
  }

  lemma {:induction false} HeldUpdate(threads: seq<Phase>, t: nat, q: Phase, side: Side)
    requires t < |threads|
    ensures Held(threads[t := q], side) + multiset(Carried(threads[t], side))
      == Held(threads, side) + multiset(Carried(q, side))
  {
    hide Carried;
    var updated := threads[t := q];
    if t == 0 {
      assert updated[1..] == threads[1..];
    } else {
      HeldUpdate(threads[1..], t - 1, q, side);
      assert updated[1..] == threads[1..][t - 1 := q];
      Behind(multiset(Carried(threads[0], side)), Held(updated[1..], side), multiset(Carried(threads[t], side)),
             Held(threads[1..], side), multiset(Carried(q, side)));
    }
  }

  lemma Behind(first: multiset<int>, a: multiset<int>, b: multiset<int>, c: multiset<int>, d: multiset<int>)
    requires a + b == c + d
    ensures first + a + b == first + c + d
  {
    assert first + a + b == first + (a + b);
    assert first + c + d == first + (c + d);
  }

  lemma {:induction false} HeldNone(threads: seq<Phase>, side: Side)
    requires forall t :: 0 <= t < |threads| ==> threads[t] == Outside
    ensures Held(threads, side) == multiset{}
  {
    if threads != [] {
      assert threads[0] == Outside;
      HeldNone(threads[1..], side);
    }
  }

  /** No item is lost, doubled or changed between a caller and the buffer. */
  ghost predicate Items(s: State) {
    && multiset(s.given) == multiset(s.written) + Held(s.threads, Putting)
    && multiset(s.taken) == multiset(s.returned) + Held(s.threads, Taking)
  }

  /** A thread that has read and not yet advanced the head holds the item read last. */
  ghost predicate HoldsLast(s: State) {
    forall t :: 0 <= t < |s.threads| && s.threads[t].TakeAdvance? ==>
      s.taken != [] && s.threads[t].item == s.taken[|s.taken| - 1]
  }

  /** A thread that swaps what it carries hands the difference on. */
  lemma HandOver(
      from: multiset<int>, into: multiset<int>, held: multiset<int>, held': multiset<int>,
      before: multiset<int>, after: multiset<int>)
    requires from == into + held && held' + before == held + after
    ensures before == after ==> from == into + held'
    ensures before == multiset{} ==> from + after == into + held'
    ensures after == multiset{} ==> from == into + before + held'
  {
    forall x: int ensures held'[x] + before[x] == held[x] + after[x] {
      assert (held' + before)[x] == (held + after)[x];
    }
    if before == after {
      assert held' == held;
    }
    if before == multiset{} {
      assert held' == held + after;
      assert into + held' == into + held + after;
    }
    if after == multiset{} {
      assert held == before + held';
      assert into + before + held' == into + (before + held');
    }
  }

  /** A step leaves what the thread carries alone, takes it over from `from`, or passes it on to `into`. */
  ghost predicate Trade(
      from: seq<int>, from': seq<int>, into: seq<int>, into': seq<int>, before: seq<int>, after: seq<int>)
  {
    || (before == after && from' == from && into' == into)
    || (before == [] && from' == from + after && into' == into)
    || (after == [] && from' == from && into' == into + before)
  }

  lemma StepTrades(s: State, s': State, t: nat)
    requires Enter(s, t, s') || Act(s, t, s')
    ensures t < |s.threads| == |s'.threads| && s'.threads == s.threads[t := s'.threads[t]]
    ensures Trade(s.given, s'.given, s.written, s'.written,
                  Carried(s.threads[t], Putting), Carried(s'.threads[t], Putting))
    ensures Trade(s.taken, s'.taken, s.returned, s'.returned,
                  Carried(s.threads[t], Taking), Carried(s'.threads[t], Taking))
  {
  }

  lemma TradeKeeps(
      from: seq<int>, from': seq<int>, into: seq<int>, into': seq<int>, before: seq<int>, after: seq<int>,
      held: multiset<int>, held': multiset<int>)
    requires Trade(from, from', into, into', before, after)
    requires multiset(from) == multiset(into) + held && held' + multiset(before) == held + multiset(after)
    ensures multiset(from') == multiset(into') + held'
  {
    HandOver(multiset(from), multiset(into), held, held', multiset(before), multiset(after));
  }

  lemma NextKeepsItems(s: State, s': State)
    requires Items(s) && Next(s, s')
    ensures Items(s')
  {
    hide Held, Carried, Enter, Act, Trade;
    var t: nat :| Enter(s, t, s') || Act(s, t, s');
    StepTrades(s, s', t);
    var p, q := s.threads[t], s'.threads[t];
    HeldUpdate(s.threads, t, q, Putting);
    HeldUpdate(s.threads, t, q, Taking);
    TradeKeeps(s.given, s'.given, s.written, s'.written, Carried(p, Putting), Carried(q, Putting),
               Held(s.threads, Putting), Held(s'.threads, Putting));
    TradeKeeps(s.taken, s'.taken, s.returned, s'.returned, Carried(p, Taking), Carried(q, Taking),
               Held(s.threads, Taking), Held(s'.threads, Taking));
  }

  lemma NextKeepsLast(s: State, s': State)
    requires Inv(s) && HoldsLast(s) && Next(s, s')
    ensures HoldsLast(s')
  {
    hide Inv, Counts, Indices, Cells, Enabled;
    var t: nat :| Enter(s, t, s') || Act(s, t, s');
    if Act(s, t, s') && s.threads[t].TakeRead? {
      AloneInside(s, t, HeadStale);
      forall u | 0 <= u < |s'.threads| && s'.threads[u].TakeAdvance?
        ensures s'.taken != [] && s'.threads[u].item == s'.taken[|s'.taken| - 1]
      {
        if u != t {
          CountSome(s.threads, u, HeadStale);
        }
      }
    }
  }

  lemma InitItems(s: State, size: nat)
    requires Init(s, size)
    ensures Items(s) && HoldsLast(s)
  {
    HeldNone(s.threads, Putting);
    HeldNone(s.threads, Taking);
  }

  lemma {:induction false} RunKeepsItems(run: seq<State>, size: nat, i: nat)
    requires Run(run, size) && i < |run|
    ensures Items(run[i]) && HoldsLast(run[i])
  {
    hide Items, HoldsLast, Inv, Init, Next;
    if i == 0 {
      InitItems(run[0], size);
    } else {
      RunKeepsItems(run, size, i - 1);
      RunKeepsInv(run, size, i - 1);
      NextKeepsItems(run[i - 1], run[i]);
      NextKeepsLast(run[i - 1], run[i]);
    }
  }

  /**
   * In every run, the items written are those handed in and no longer carried towards the buffer, and the items
   * handed out are those taken and no longer carried away from it.
   */
  lemma ReturnsWhatWasTaken(run: seq<State>, size: nat, i: nat)
    requires Run(run, size) && i < |run|
    ensures var s := run[i];
      && multiset(s.given) == multiset(s.written) + Held(s.threads, Putting)
      && multiset(s.taken) == multiset(s.returned) + Held(s.threads, Taking)
  {
    RunKeepsItems(run, size, i);
  }

  /** In every run, a thread that has just read holds the item that stands at its turn in the order of writing. */
  lemma HoldsItemInTurn(run: seq<State>, size: nat, i: nat, t: nat)
    requires Run(run, size) && i < |run| && t < |run[i].threads| && run[i].threads[t].TakeAdvance?
    ensures var s := run[i];
      0 < |s.taken| <= |s.written| && s.threads[t].item == s.written[|s.taken| - 1]
  {
    hide Counts, Indices, Cells, Run, Items;
    RunKeepsInv(run, size, i);
    RunKeepsItems(run, size, i);
  }

  /** In every run, an item handed in is carried by a producer, in the buffer, carried by a consumer, or handed out. */
  lemma ItemsConserved(run: seq<State>, size: nat, i: nat)
    requires Run(run, size) && i < |run|
    ensures var s := run[i];
      && |s.taken| <= |s.written|
      && multiset(s.given)
         == Held(s.threads, Putting) + multiset(s.written[|s.taken|..])
            + Held(s.threads, Taking) + multiset(s.returned)
  {
    hide Counts, Indices, Cells, Run, Held;
    var s := run[i];
    RunKeepsInv(run, size, i);
    RunKeepsItems(run, size, i);
    assert s.written == s.written[..|s.taken|] + s.written[|s.taken|..];
  }
}
