/** The timer pass of the scheduler, driven by a clock that never goes back. */
module Timers {

  // ----- One visit of one timer

  /** A timer in the queue, with the clock reading at each call of its function. */
  datatype Timer = Timer(firstMs: int, repeatMs: int, stamp: int, delete: bool, fires: seq<int>)

  /** How often a pass that started at `start` calls the timer's function. */
  function Firings(t: Timer, start: int): nat {
    var interval := start - t.stamp;
    if t.firstMs == 0 then (if t.repeatMs > 0 && interval >= t.repeatMs then 2 else 1)
    else if t.firstMs > 0 then (if interval >= t.firstMs then 1 else 0)
    else if t.repeatMs > 0 && interval >= t.repeatMs then 1 else 0
  }

  /** Whether the timer is still in the queue after the pass. */
  predicate Stays(t: Timer) {
    !t.delete && (t.repeatMs > 0 || t.firstMs > 0)
  }

  /** `u` is `t` after its visit in a pass from `start` to `finish`. */
  ghost predicate Visited(t: Timer, start: int, finish: int, u: Timer) {
    var n := Firings(t, start);
    && u.repeatMs == t.repeatMs && u.delete == t.delete
    && u.firstMs == (if n > 0 && t.firstMs >= 0 then -1 else t.firstMs)
    && |u.fires| == |t.fires| + n && u.fires[..|t.fires|] == t.fires
    && (forall i :: |t.fires| <= i < |u.fires| ==> start <= u.fires[i] <= u.stamp)
    && (if n > 0 then start <= u.stamp <= finish else u.stamp == t.stamp)
  }

  // ----- Runs of one timer

  /**
   * A timer added at `created` and visited by passes as long as it is in the queue; it may be marked for deletion
   * before any of them.
   */
  ghost predicate Run(ts: seq<Timer>, created: int, first: int, repeatMs: int, starts: seq<int>, ends: seq<int>,
                      marks: seq<bool>)
  {
    && |ts| == |starts| + 1 && |ends| == |marks| == |starts|
    && ts[0].firstMs == first && ts[0].repeatMs == repeatMs && ts[0].stamp == created && ts[0].fires == []
    && (forall i :: 0 <= i < |starts| ==> Visited(Marked(ts[i], marks[i]), starts[i], ends[i], ts[i + 1]))
    && (forall i :: 0 <= i < |starts| - 1 ==> Stays(Marked(ts[i], marks[i])))
    && (forall i :: 0 <= i < |starts| ==> created <= starts[i] <= ends[i])
    && (forall i, j :: 0 <= i < j < |starts| ==> ends[i] <= starts[j])
  }

  function Marked(t: Timer, mark: bool): Timer {
    t.(delete := mark)
  }

  /** When the first call is due: a negative first delay means the timer starts out repeating. */
  function Base(created: int, first: int, repeatMs: int): int {
    created + if first < 0 then repeatMs else first
  }

  /** No call number `n` comes before this. */
  function Due(base: int, repeatMs: int, n: nat): int {
    if n == 0 then base else Due(base, repeatMs, n - 1) + repeatMs
  }

  /** What every visit of a repeating timer keeps. */
  ghost predicate OnTime(t: Timer, created: int, first: int) {
    var base, n := Base(created, first, t.repeatMs), |t.fires|;
    && (forall i :: 0 <= i < n ==> Due(base, t.repeatMs, i) <= t.fires[i] <= t.stamp)
    && (if n == 0 then t.firstMs == first && t.stamp == created
        else t.firstMs < 0 && Due(base, t.repeatMs, n) <= t.stamp + t.repeatMs)
  }

  lemma VisitKeepsOnTime(t: Timer, start: int, finish: int, u: Timer, created: int, first: int)
    requires t.repeatMs > 0 && OnTime(t, created, first) && created <= start && Visited(t, start, finish, u)
    ensures OnTime(u, created, first)
  {
    hide Due;
    var base, n, r := Base(created, first, t.repeatMs), |t.fires|, t.repeatMs;
    DueSteps(base, r, n);
    DueSteps(base, r, n + 1);
    DueSteps(base, r, 0);
    forall i | 0 <= i < |u.fires| ensures Due(base, r, i) <= u.fires[i] <= u.stamp {
      if i < n {
        assert u.fires[..n][i] == t.fires[i];
      }
    }
  }

  lemma DueSteps(base: int, r: int, n: nat)
    ensures Due(base, r, n + 1) == Due(base, r, n) + r && Due(base, r, 0) == base
  {
  }

  lemma {:induction false} RunIsOnTime(ts: seq<Timer>, created: int, first: int, repeatMs: int, starts: seq<int>,
                                       ends: seq<int>, marks: seq<bool>, k: nat)
    requires Run(ts, created, first, repeatMs, starts, ends, marks) && repeatMs > 0 && k < |ts|
    ensures ts[k].repeatMs == repeatMs && OnTime(ts[k], created, first)
  {
    hide OnTime, Visited;
    if k == 0 {
      NewIsOnTime(ts[0], created, first);
    } else {
      RunIsOnTime(ts, created, first, repeatMs, starts, ends, marks, k - 1);
      var t := Marked(ts[k - 1], marks[k - 1]);
      MarkedIsOnTime(ts[k - 1], marks[k - 1], created, first);
      assert Visited(t, starts[k - 1], ends[k - 1], ts[k]);
      RepeatStays(t, starts[k - 1], ends[k - 1], ts[k]);
      VisitKeepsOnTime(t, starts[k - 1], ends[k - 1], ts[k], created, first);
    }
  }

  lemma NewIsOnTime(t: Timer, created: int, first: int)
    requires t.fires == [] && t.firstMs == first && t.stamp == created
    ensures OnTime(t, created, first)
  {
  }

  lemma MarkedIsOnTime(t: Timer, mark: bool, created: int, first: int)
    requires OnTime(t, created, first)
    ensures OnTime(Marked(t, mark), created, first)
  {
  }

  lemma RepeatStays(t: Timer, start: int, finish: int, u: Timer)
    requires Visited(t, start, finish, u)
    ensures u.repeatMs == t.repeatMs
  {
  }

  /** The `n`-th due time is `n` periods after the first. */
  lemma {:induction false} DueIsProduct(base: int, r: int, n: nat)
    ensures Due(base, r, n) == base + n * r
  {
    if n > 0 {
      DueIsProduct(base, r, n - 1);
      assert n * r == (n - 1) * r + r;
    }
  }

  /**
   * A repeating timer calls nothing before its first call is due, and by any time `t` at most one call more than the
   * periods that have passed since.
   */
  lemma FiringBound(ts: seq<Timer>, created: int, first: int, repeatMs: int, starts: seq<int>, ends: seq<int>,
                    marks: seq<bool>, k: nat, t: int)
    requires Run(ts, created, first, repeatMs, starts, ends, marks) && repeatMs > 0 && k < |ts|
    requires forall i :: 0 <= i < |ts[k].fires| ==> ts[k].fires[i] <= t
    ensures forall i :: 0 <= i < |ts[k].fires| ==> Base(created, first, repeatMs) <= ts[k].fires[i]
    ensures ts[k].fires != [] ==> |ts[k].fires| <= 1 + (t - Base(created, first, repeatMs)) / repeatMs
  {
    hide Run, Due;
    var base, fires := Base(created, first, repeatMs), ts[k].fires;
    RunIsOnTime(ts, created, first, repeatMs, starts, ends, marks, k);
    forall i | 0 <= i < |fires| ensures base <= fires[i] {
      DueIsProduct(base, repeatMs, i);
      NotNegative(i, repeatMs);
    }
    if fires != [] {
      DueIsProduct(base, repeatMs, |fires| - 1);
      PeriodsPassed(|fires| - 1, repeatMs, t - base);
    }
  }

  lemma NotNegative(n: nat, r: int)
    requires r > 0
    ensures n * r >= 0
  {
  }

  lemma PeriodsPassed(n: nat, r: int, x: int)
    requires r > 0 && n * r <= x
    ensures n <= x / r
  {
    var d := x / r + 1 - n;
    assert x < (x / r) * r + r;
    assert d * r == (x / r) * r + r - n * r;
    PositiveFactor(d, r);
  }

  lemma PositiveFactor(d: int, r: int)
    requires r > 0 && d * r > 0
    ensures d > 0
  {
  }

  /** A first pass long after a timer without a first delay was added calls it twice. */
  predicate CalledTwice(created: int, first: int, repeatMs: int, start: int) {
    first == 0 && repeatMs > 0 && start - created >= repeatMs
  }

  lemma FirstPassCalls(ts: seq<Timer>, created: int, first: int, repeatMs: int, starts: seq<int>, ends: seq<int>,
                       marks: seq<bool>)
    requires Run(ts, created, first, repeatMs, starts, ends, marks) && |starts| > 0
    ensures |ts[1].fires| == 2 <==> CalledTwice(created, first, repeatMs, starts[0])
  {
    assert Visited(Marked(ts[0], marks[0]), starts[0], ends[0], ts[1]);
  }

  ghost predicate Spaced(fires: seq<int>, gap: int) {
    forall i :: 1 <= i < |fires| ==> fires[i] >= fires[i - 1] + gap
  }

  /** Calls are at least a period apart, unless the first pass makes two of them. */
  lemma {:induction false} CallsAreSpaced(ts: seq<Timer>, created: int, first: int, repeatMs: int, starts: seq<int>,
                                          ends: seq<int>, marks: seq<bool>, k: nat)
    requires Run(ts, created, first, repeatMs, starts, ends, marks) && repeatMs > 0 && k < |ts|
    requires |starts| > 0 ==> !CalledTwice(created, first, repeatMs, starts[0])
    ensures Spaced(ts[k].fires, repeatMs)
  {
    if k > 0 {
      CallsAreSpaced(ts, created, first, repeatMs, starts, ends, marks, k - 1);
      RunIsOnTime(ts, created, first, repeatMs, starts, ends, marks, k - 1);
      if k > 1 {
        FirstVisitEnds(ts, created, first, repeatMs, starts, ends, marks, k - 1);
      }
      var t := Marked(ts[k - 1], marks[k - 1]);
      assert Visited(t, starts[k - 1], ends[k - 1], ts[k]);
      OneCallIsSpaced(t, starts[k - 1], ends[k - 1], ts[k]);
    }
  }

  lemma OneCallIsSpaced(t: Timer, start: int, finish: int, u: Timer)
    requires Visited(t, start, finish, u) && t.repeatMs > 0 && Spaced(t.fires, t.repeatMs)
    requires Firings(t, start) <= 1 && (t.fires == [] || t.firstMs < 0)
    requires forall i :: 0 <= i < |t.fires| ==> t.fires[i] <= t.stamp
    ensures Spaced(u.fires, t.repeatMs)
  {
    var n := |t.fires|;
    forall i | 1 <= i < |u.fires| ensures u.fires[i] >= u.fires[i - 1] + t.repeatMs {
      assert u.fires[..n][i - 1] == u.fires[i - 1];
      if i < n {
        assert u.fires[..n][i] == u.fires[i];
      }
    }
  }

  /** Added at time 0 without a first delay, period 10: a pass at time 10 calls twice at once. */
  lemma TwoCallsAtOnce() returns (ts: seq<Timer>, at: seq<int>, marks: seq<bool>)
    ensures Run(ts, 0, 0, 10, at, at, marks) && |ts| == 2 && !Spaced(ts[1].fires, 10)
  {
    ts := [Timer(0, 10, 0, false, []), Timer(-1, 10, 10, false, [10, 10])];
    at, marks := [10], [false];
    assert ts[1].fires[1] == 10 && ts[1].fires[0] == 10;
  }

  /** A timer without a first delay has it used up by its first visit. */
  lemma {:induction false} FirstVisitEnds(ts: seq<Timer>, created: int, first: int, repeatMs: int, starts: seq<int>,
                                          ends: seq<int>, marks: seq<bool>, k: nat)
    requires Run(ts, created, first, repeatMs, starts, ends, marks) && 1 <= k < |ts|
    ensures ts[k].firstMs != 0
  {
    if k > 1 {
      FirstVisitEnds(ts, created, first, repeatMs, starts, ends, marks, k - 1);
    }
    assert Visited(Marked(ts[k - 1], marks[k - 1]), starts[k - 1], ends[k - 1], ts[k]);
  }

  /** What every visit of a timer that does not repeat keeps. */
  ghost predicate OneShot(t: Timer, created: int, first: int) {
    && t.repeatMs <= 0
    && if t.fires == [] then t.firstMs == first && t.stamp == created
       else |t.fires| == 1 && t.firstMs < 0 && t.fires[0] >= created + first
  }

  /** A timer that does not repeat is called at most once, and the next visit after that is its last. */
  lemma {:induction false} CalledOnce(ts: seq<Timer>, created: int, first: int, repeatMs: int, starts: seq<int>,
                                      ends: seq<int>, marks: seq<bool>, k: nat)
    requires Run(ts, created, first, repeatMs, starts, ends, marks) && repeatMs <= 0 && k < |ts|
    ensures OneShot(ts[k], created, first)
    ensures ts[k].fires != [] ==> |starts| <= k + 1
  {
    if k > 0 {
      CalledOnce(ts, created, first, repeatMs, starts, ends, marks, k - 1);
      var t := Marked(ts[k - 1], marks[k - 1]);
      assert Visited(t, starts[k - 1], ends[k - 1], ts[k]);
    }
  }

  /**
   * A timer that does not repeat has been called exactly once when a pass has started at or after its delay, and not
   * at all before; the pass after its call is the last one it is in the queue for. With a negative delay it is never
   * called.
   */
  lemma {:induction false} OneShotCalls(ts: seq<Timer>, created: int, first: int, repeatMs: int, starts: seq<int>,
                                        ends: seq<int>, marks: seq<bool>, k: nat)
    requires Run(ts, created, first, repeatMs, starts, ends, marks) && repeatMs <= 0 && k < |starts|
    ensures |ts[k + 1].fires| == if first >= 0 && starts[k] >= created + first then 1 else 0
    ensures ts[k + 1].fires != [] ==> ts[k + 1].fires[0] >= created + first && |starts| <= k + 2
  {
    var t := Marked(ts[k], marks[k]);
    CalledOnce(ts, created, first, repeatMs, starts, ends, marks, k);
    CalledOnce(ts, created, first, repeatMs, starts, ends, marks, k + 1);
    assert Visited(t, starts[k], ends[k], ts[k + 1]);
    if k > 0 {
      OneShotCalls(ts, created, first, repeatMs, starts, ends, marks, k - 1);
      assert starts[k - 1] <= ends[k - 1] <= starts[k];
      assert Stays(Marked(ts[k - 1], marks[k - 1]));
      StillWaiting(ts, created, first, repeatMs, starts, ends, marks, k);
    }
  }

  /** A timer that does not repeat is visited a second time only after a positive delay. */
  lemma StillWaiting(ts: seq<Timer>, created: int, first: int, repeatMs: int, starts: seq<int>, ends: seq<int>,
                     marks: seq<bool>, k: nat)
    requires Run(ts, created, first, repeatMs, starts, ends, marks) && repeatMs <= 0 && 0 < k < |starts|
    ensures first > 0
  {
    assert Stays(Marked(ts[0], marks[0]));
  }

  /** A timer that repeats or has a first delay has been called once a pass starts at or after that delay. */
  lemma CalledWhenDue(ts: seq<Timer>, created: int, first: int, repeatMs: int, starts: seq<int>, ends: seq<int>,
                      marks: seq<bool>, k: nat)
    requires Run(ts, created, first, repeatMs, starts, ends, marks) && k < |starts|
    requires (repeatMs > 0 || first >= 0) && starts[k] >= Base(created, first, repeatMs)
    ensures |ts[k + 1].fires| > 0
  {
    if repeatMs > 0 {
      RunIsOnTime(ts, created, first, repeatMs, starts, ends, marks, k);
      assert Visited(Marked(ts[k], marks[k]), starts[k], ends[k], ts[k + 1]);
    } else {
      OneShotCalls(ts, created, first, repeatMs, starts, ends, marks, k);
    }
  }

  /** The time stamp is that of the adding or of a pass that is over; it moves only with a call. */
  lemma {:induction false} StampIsPast(ts: seq<Timer>, created: int, first: int, repeatMs: int, starts: seq<int>,
                                       ends: seq<int>, marks: seq<bool>, j: nat, k: nat)
    requires Run(ts, created, first, repeatMs, starts, ends, marks) && j < k < |ts|
    ensures ts[j + 1].stamp <= ends[j]
    ensures |ts[j + 1].fires| <= |ts[k].fires|
    ensures |ts[j + 1].fires| == |ts[k].fires| ==> ts[k].stamp == ts[j + 1].stamp
    ensures ts[j + 1].fires != [] ==> ts[j + 1].firstMs < 0 && ts[k].firstMs < 0
    decreases k
  {
    assert Visited(Marked(ts[k - 1], marks[k - 1]), starts[k - 1], ends[k - 1], ts[k]);
    if j + 1 < k {
      StampIsPast(ts, created, first, repeatMs, starts, ends, marks, j, k - 1);
    } else if j > 0 {
      StampIsPast(ts, created, first, repeatMs, starts, ends, marks, j - 1, j);
    }
  }

  /** A repeating timer that has been called is called again by any pass that starts a period after the pass before. */
  lemma CalledAgain(ts: seq<Timer>, created: int, first: int, repeatMs: int, starts: seq<int>, ends: seq<int>,
                    marks: seq<bool>, j: nat, k: nat)
    requires Run(ts, created, first, repeatMs, starts, ends, marks) && repeatMs > 0 && j < k < |starts|
    requires ts[j + 1].fires != [] && starts[k] >= ends[j] + repeatMs
    ensures |ts[k + 1].fires| > |ts[j + 1].fires|
  {
    StampIsPast(ts, created, first, repeatMs, starts, ends, marks, j, k);
    RunIsOnTime(ts, created, first, repeatMs, starts, ends, marks, k);
    assert Visited(Marked(ts[k], marks[k]), starts[k], ends[k], ts[k + 1]);
  }

  /**
   * A pass takes a timer out of the queue exactly when it is marked, or does not repeat and has been called before
   * or had no delay to wait for.
   */
  lemma TakenOutExactly(ts: seq<Timer>, created: int, first: int, repeatMs: int, starts: seq<int>, ends: seq<int>,
                        marks: seq<bool>, k: nat)
    requires Run(ts, created, first, repeatMs, starts, ends, marks) && k < |starts|
    ensures Stays(Marked(ts[k], marks[k])) <==> !marks[k] && (repeatMs > 0 || (first > 0 && ts[k].fires == []))
  {
    if repeatMs > 0 {
      RunIsOnTime(ts, created, first, repeatMs, starts, ends, marks, k);
    } else {
      CalledOnce(ts, created, first, repeatMs, starts, ends, marks, k);
    }
  }

  // ----- The scheduler

  /** A clock after `n` more readings. */
  function Read(now: int, ahead: seq<nat>, n: nat): (int, seq<nat>)
    decreases n
  {
    if n == 0 || ahead == [] then (now, ahead) else Read(now + ahead[0], ahead[1..], n - 1)
  }

  /** A millisecond clock; `ahead` holds by how much it advances before each of its next readings. */
  class Clock {
    var now: int
    var ahead: seq<nat>

    constructor (now: int, ahead: seq<nat>)
      ensures this.now == now && this.ahead == ahead
    {
      this.now := now;
      this.ahead := ahead;
    }

    method GetTimeMs() returns (t: int)
      modifies this
      ensures t == now >= old(now) && (now, ahead) == Read(old(now), old(ahead), 1)
    {
      if ahead != [] {
        now := now + ahead[0];
        ahead := ahead[1..];
      }
      t := now;
    }
  }

  class TaskTimer {
    var firstMs: int
    const repeatMs: int
    var timeStamp: int
    var asyncDelFlags: bool
    ghost var fires: seq<int>

    constructor (firstMs: int, repeatMs: int, timeStamp: int)
      ensures Snapshot() == Timer(firstMs, repeatMs, timeStamp, false, [])
    {
      this.firstMs := firstMs;
      this.repeatMs := repeatMs;
      this.timeStamp := timeStamp;
      asyncDelFlags := false;
      fires := [];
    }

    ghost function Snapshot(): Timer
      reads this
    {
      Timer(firstMs, repeatMs, timeStamp, asyncDelFlags, fires)
    }

    /** Calls the timer's function and reads the clock afterwards. */
    method Fire(clock: Clock)
      modifies this`timeStamp, this`fires, clock
      ensures fires == old(fires) + [old(clock.now)]
      ensures timeStamp == clock.now >= old(clock.now)
      ensures (clock.now, clock.ahead) == Read(old(clock.now), old(clock.ahead), 1)
    {
      fires := fires + [clock.now];
      timeStamp := clock.GetTimeMs();
    }

    /** The body of the loop over the timers. */
    method Visit(clock: Clock, start: int) returns (gone: bool)
      requires start <= clock.now
      modifies this`firstMs, this`timeStamp, this`fires, clock
      ensures Visited(old(Snapshot()), start, clock.now, Snapshot())
      ensures gone == !Stays(old(Snapshot())) && clock.now >= old(clock.now)
      ensures var n := Firings(old(Snapshot()), start);
        && (clock.now, clock.ahead) == Read(old(clock.now), old(clock.ahead), n)
        && (n > 0 ==> timeStamp == clock.now)
        && (forall i :: 0 <= i < n ==> fires[old(|fires|) + i] == Read(old(clock.now), old(clock.ahead), i).0)
    {
      gone := false;
      var interval := start - timeStamp;
      if firstMs == 0 {
        firstMs := -1;
        Fire(clock);
      }
      if firstMs > 0 && interval >= firstMs {
        firstMs := -1;
        Fire(clock);
      } else if firstMs < 0 {
        if repeatMs <= 0 {
          gone := true;
        } else if repeatMs > 0 && interval >= repeatMs {
          Fire(clock);
        }
      }
      if asyncDelFlags {
        gone := true;
      }
    }
  }

  class TaskScheduler {
    const clock: Clock
    var timerQueue: seq<TaskTimer>

    constructor (clock: Clock)
      ensures this.clock == clock && timerQueue == []
    {
      this.clock := clock;
      timerQueue := [];
    }

    /** No timer is queued twice. */
    ghost predicate Valid()
      reads this
    {
      forall i, j :: 0 <= i < j < |timerQueue| ==> timerQueue[i] != timerQueue[j]
    }

    method AddTimerTask(firstMs: int, repeatMs: int) returns (timer: TaskTimer)
      requires Valid()
      modifies this`timerQueue, clock
      ensures Valid() && fresh(timer) && timerQueue == old(timerQueue) + [timer]
      ensures timer.Snapshot() == Timer(firstMs, repeatMs, clock.now, false, []) && clock.now >= old(clock.now)
      ensures (clock.now, clock.ahead) == Read(old(clock.now), old(clock.ahead), 1)
    {
      var now := clock.GetTimeMs();
      timer := new TaskTimer(firstMs, repeatMs, now);
      timerQueue := timerQueue + [timer];
    }

    method AsyncDeleteTimerTask(timer: TaskTimer)
      modifies timer`asyncDelFlags
      ensures timer.asyncDelFlags == (old(timer.asyncDelFlags) || timer in timerQueue)
    {
      if timer in timerQueue {
        timer.asyncDelFlags := true;
      }
    }

    /** One turn of the loop over the timers; the timer is unlinked or passed. */
    method VisitAt(i: nat, start: int) returns (next: nat)
      requires Valid() && i < |timerQueue| && start <= clock.now
      modifies this`timerQueue, clock, timerQueue[i]
      ensures Valid() && clock.now >= old(clock.now)
      ensures Visited(old(timerQueue[i].Snapshot()), start, clock.now, old(timerQueue[i]).Snapshot())
      ensures var stays := Stays(old(timerQueue[i].Snapshot()));
        && next == (if stays then i + 1 else i) <= |timerQueue|
        && timerQueue[..next] == old(timerQueue)[..i] + (if stays then [old(timerQueue)[i]] else [])
        && timerQueue[next..] == old(timerQueue)[i + 1..]
    {
      hide Visited, Stays;
      var gone := timerQueue[i].Visit(clock, start);
      if gone {
        timerQueue := timerQueue[..i] + timerQueue[i + 1..];
        next := i;
      } else {
        next := i + 1;
      }
    }

    /** The first `k` timers of the queue the pass began with have been visited, and `i` of them stayed. */
    ghost predicate Midway(queue: seq<TaskTimer>, was: seq<Timer>, k: nat, i: nat, start: int)
      reads this, clock, queue
    {
      && Valid() && k <= |queue| == |was| && i <= |timerQueue| && start <= clock.now
      && timerQueue[..i] == Staying(queue[..k], was[..k]) && timerQueue[i..] == queue[k..]
      && AllVisited(was, Snapshots(queue), k, start, clock.now) && Snapshots(queue)[k..] == was[k..]
      && forall a, b :: 0 <= a < b < |queue| ==> queue[a] != queue[b]
    }

    method VisitNext(i: nat, start: int, ghost queue: seq<TaskTimer>, ghost was: seq<Timer>, ghost k: nat)
      returns (next: nat)
      requires Midway(queue, was, k, i, start) && i < |timerQueue|
      modifies this`timerQueue, clock, queue
      ensures k < |queue| && Midway(queue, was, k + 1, next, start)
    {
      hide Visited, Stays, Staying, AllVisited;
      assert timerQueue[i] == timerQueue[i..][0] == queue[k];
      assert queue[k].Snapshot() == Snapshots(queue)[k..][0] == was[k];
      ghost var before, now := clock.now, Snapshots(queue);
      next := VisitAt(i, start);
      assert Snapshots(queue) == now[k := queue[k].Snapshot()];
      NextVisited(was, now, k, queue[k].Snapshot(), start, before, clock.now);
      NextStaying(queue, was, k);
    }

    /** One pass: every timer in the queue is visited, and those that do not stay are taken out. */
    method TimerEvent() returns (elapsed: int, ghost start: int)
      requires Valid()
      modifies this`timerQueue, clock, timerQueue
      ensures Valid() && old(clock.now) <= start <= clock.now && elapsed == clock.now - start
      ensures start == Read(old(clock.now), old(clock.ahead), 1).0
      ensures timerQueue == Staying(old(timerQueue), old(Snapshots(timerQueue)))
      ensures AllVisited(old(Snapshots(timerQueue)), Snapshots(old(timerQueue)), |old(timerQueue)|, start, clock.now)
    {
      hide Visited, Stays, Staying, AllVisited;
      ghost var queue, was, k := timerQueue, Snapshots(timerQueue), 0;
      var started := clock.GetTimeMs();
      start := started;
      var i: nat := 0;
      PassBegins(queue, was, start, clock.now);
      while i < |timerQueue|
        invariant Midway(queue, was, k, i, start)
        decreases |queue| - k
      {
        i := VisitNext(i, started, queue, was, k);
        k := k + 1;
      }
      ghost var before := clock.now;
      var now := clock.GetTimeMs();
      AllStand(was, Snapshots(queue), k, start, before, now);
      assert queue[..k] == queue && was[..k] == was && timerQueue[..i] == timerQueue;
      elapsed := now - started;
    }
  }

  ghost function Snapshots(queue: seq<TaskTimer>): (r: seq<Timer>)
    reads queue
    ensures |r| == |queue| && forall j :: 0 <= j < |queue| ==> r[j] == queue[j].Snapshot()
  {
    seq(|queue|, j requires 0 <= j < |queue| reads queue => queue[j].Snapshot())
  }

  /** The timers that stay, in order. */
  ghost function Staying(queue: seq<TaskTimer>, was: seq<Timer>): seq<TaskTimer>
    requires |queue| == |was|
  {
    if queue == [] then [] else
      var last := |queue| - 1;
      Staying(queue[..last], was[..last]) + if Stays(was[last]) then [queue[last]] else []
  }

  lemma NextStaying(queue: seq<TaskTimer>, was: seq<Timer>, k: nat)
    requires k < |queue| == |was|
    ensures Staying(queue[..k + 1], was[..k + 1])
      == Staying(queue[..k], was[..k]) + if Stays(was[k]) then [queue[k]] else []
  {
    assert queue[..k + 1][..k] == queue[..k] && was[..k + 1][..k] == was[..k];
  }

  /** The first `k` timers of the queue have been visited. */
  ghost predicate AllVisited(was: seq<Timer>, now: seq<Timer>, k: nat, start: int, finish: int)
    requires k <= |was| == |now|
  {
    forall j :: 0 <= j < k ==> Visited(was[j], start, finish, now[j])
  }

  lemma PassBegins(queue: seq<TaskTimer>, was: seq<Timer>, start: int, finish: int)
    requires |queue| == |was|
    ensures Staying(queue[..0], was[..0]) == [] && AllVisited(was, was, 0, start, finish)
  {
  }

  lemma NextVisited(was: seq<Timer>, now: seq<Timer>, k: nat, u: Timer, start: int, finish: int, later: int)
    requires k < |was| == |now| && finish <= later && AllVisited(was, now, k, start, finish)
    requires Visited(was[k], start, later, u)
    ensures AllVisited(was, now[k := u], k + 1, start, later)
  {
    hide Visited;
    AllStand(was, now, k, start, finish, later);
  }

  lemma AllStand(was: seq<Timer>, now: seq<Timer>, k: nat, start: int, finish: int, later: int)
    requires k <= |was| == |now| && finish <= later && AllVisited(was, now, k, start, finish)
    ensures AllVisited(was, now, k, start, later)
  {
    forall j | 0 <= j < k ensures Visited(was[j], start, later, now[j]) {
      VisitStands(was[j], start, finish, later, now[j]);
    }
  }

  lemma VisitStands(t: Timer, start: int, finish: int, later: int, u: Timer)
    requires Visited(t, start, finish, u) && finish <= later
    ensures Visited(t, start, later, u)
  {
  }
}
