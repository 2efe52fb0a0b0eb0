/** The recursive mutex and the condition variable over the scheduler.  `Lock`, `TryLock`, `Unlock` and the two
    halves of a wait, before the thread is switched out and after it is switched in, are the atomic steps. */
module Mutexes {
  import opened Scheduler

  /** The addresses of the mutex and of the condition variable, which threads wait on. */
  const MUTEX := 1
  const CONDVAR := 2

  const UINT16_RANGE := 0x1_0000

  /** Where a thread is: in the loop of `Lock`, or in `CondVar::Wait`, where it keeps the depth it held the mutex
      at, before or in the loop of its own call of `Lock`. */
  datatype Place = Outside | Locking | InWait(saved: nat) | Relocking(saved: nat)

  predicate InLoop(p: Place) { p.Locking? || p.Relocking? }

  predicate InCondVar(p: Place) { p.InWait? || p.Relocking? }

  function CountLoop(place: seq<Place>): nat {
    if place == [] then 0 else (if InLoop(place[0]) then 1 else 0) + CountLoop(place[1..])
  }

  function CountCond(place: seq<Place>): nat {
    if place == [] then 0 else (if InCondVar(place[0]) then 1 else 0) + CountCond(place[1..])
  }

  /** `nest` counts for each thread the calls of `Lock` and `TryLock` that succeeded, less the calls of `Unlock`. */
  ghost predicate Owned(place: seq<Place>, nest: seq<nat>, tid: int, count: int) {
    && |nest| == |place| && 0 <= count < UINT16_RANGE && (tid == NOBODY <==> count == 0)
    && (tid != NOBODY ==> 0 <= tid < |place| && place[tid].Outside?)
    && forall i {:trigger nest[i]} {:trigger place[i]} :: 0 <= i < |nest| ==>
         nest[i] == (if InCondVar(place[i]) then place[i].saved else if i == tid then count else 0)
         && (InCondVar(place[i]) ==> 0 < nest[i] < UINT16_RANGE)
  }

  /** The counters of the mutex and of the condition variable are the numbers of threads in their loops. */
  ghost predicate Counted(place: seq<Place>, waiters: int, condCount: int) {
    |place| < UINT16_RANGE && waiters == CountLoop(place) && condCount == CountCond(place)
  }

  /** Only threads in the loop of `Lock` wait for the mutex, only those in `CondVar::Wait` for the variable; and
      they wait for nothing else. */
  ghost predicate Blocked(q: seq<Thread>, place: seq<Place>) {
    && |q| == |place|
    && (forall i {:trigger Waits(q, i, MUTEX)} :: Waits(q, i, MUTEX) ==> InLoop(place[i]))
    && (forall i {:trigger Waits(q, i, CONDVAR)} :: Waits(q, i, CONDVAR) ==> place[i].InWait?)
    && (forall i {:trigger place[i]} :: 0 <= i < |q| && InLoop(place[i]) ==> Runs(q, i) || Waits(q, i, MUTEX))
    && (forall i {:trigger place[i]} :: 0 <= i < |q| && place[i].InWait? ==> Runs(q, i) || Waits(q, i, CONDVAR))
  }

  /** When the mutex is free and a thread waits for it, some thread has been woken to take it. */
  ghost predicate NotLost(q: seq<Thread>, place: seq<Place>, tid: int) {
    |q| == |place| && (tid == NOBODY && (exists i {:trigger Waits(q, i, MUTEX)} :: Waits(q, i, MUTEX)) ==>
      exists i {:trigger Runs(q, i)} :: Runs(q, i) && InLoop(place[i]))
  }

  datatype Until = Forever | Limit(at: int)

  /** The steps of the threads and of the scheduler. */
  datatype Op = Lock | TryLock | Unlock | CondWait(until: Until) | Resume | Signal | Broadcast | Reschedule(inCsw: bool)

  /** Thread `i` has locked the mutex more often than it unlocked it, and is not in a wait that gave it up. */
  predicate Holds(place: seq<Place>, nest: seq<nat>, i: int) {
    0 <= i < |place| == |nest| && nest[i] > 0 && !InCondVar(place[i])
  }

  class Synchronized {
    const kernel: Kernel
    var tid: int
    var count: int
    var waiters: int
    var condCount: int
    var place: seq<Place>
    ghost var nest: seq<nat>

    ghost predicate Valid()
      reads this, kernel, kernel.runq
    {
      && kernel.Valid() && |place| == kernel.runq.Length && Owned(place, nest, tid, count) && Counted(place, waiters, condCount)
      && Blocked(kernel.runq[..], place) && NotLost(kernel.runq[..], place, tid)
    }

    constructor (k: Kernel)
      requires k.Valid() && k.runq.Length < UINT16_RANGE
      requires forall i :: 0 <= i < k.runq.Length ==> k.runq[i].state.Run?
      ensures Valid() && kernel == k && tid == NOBODY && fresh(this)
      ensures place == seq(k.runq.Length, _ => Outside) && nest == seq(k.runq.Length, _ => 0)
    {
      kernel := k;
      tid, count, waiters, condCount := NOBODY, 0, 0, 0;
      place := seq(k.runq.Length, _ => Outside);
      nest := seq(k.runq.Length, _ => 0);
      NobodyInside(seq(k.runq.Length, _ => Outside));
    }

    /** `Mutex::TryLock`, which does not succeed for the owner either. */
    method TryLock() returns (ok: bool)
      requires Valid() && Runs(kernel.runq[..], kernel.cur) && place[kernel.cur].Outside?
      modifies this
      ensures Valid() && ok == (old(tid) == NOBODY)
      ensures waiters == old(waiters) && condCount == old(condCount) && place == old(place)
      ensures ok ==> tid == kernel.cur && count == 1 && nest == old(nest)[kernel.cur := 1]
      ensures !ok ==> tid == old(tid) && count == old(count) && nest == old(nest)
    {
      hide Owned, Counted, Blocked, NotLost;
      Ownership(place, nest, tid, count, kernel.cur);
      if count != 0 {
        return false;
      }
      Taken(kernel.runq[..], place, nest, tid, count, kernel.cur);
      SamePlace(place, kernel.cur);
      tid := kernel.cur;
      count := count + 1;
      nest := nest[kernel.cur := nest[kernel.cur] + 1];
      ok := true;
    }

    /** `Mutex::Lock` up to the wait in its loop. The depth is kept in 16 bits: an owner that exceeds them is
        recorded with no depth at all, and the mutex counts as free. */
    method Lock(now: int)
      requires Valid() && Runs(kernel.runq[..], kernel.cur) && place[kernel.cur].Outside?
      requires tid != NOBODY && tid != kernel.cur ==> OthersRunnable(kernel.runq[..], kernel.cur, now)
      modifies this, kernel, kernel.runq
      ensures kernel.cur == old(kernel.cur) && condCount == old(condCount)
      ensures Valid() <==> !(old(tid) == kernel.cur && old(count) == UINT16_RANGE - 1)
      ensures old(tid) == NOBODY || old(tid) == kernel.cur ==>
        && tid == kernel.cur && count == (old(count) + 1) % UINT16_RANGE && nest == old(nest)[kernel.cur := old(nest)[kernel.cur] + 1]
        && place == old(place) && waiters == old(waiters) && kernel.runq[..] == old(kernel.runq[..])
      ensures old(tid) != NOBODY && old(tid) != kernel.cur ==>
        && tid == old(tid) && count == old(count) && nest == old(nest)
        && place == old(place)[kernel.cur := Locking]
        && Blocks(old(kernel.runq[..]), kernel.runq[..], kernel.cur, MUTEX, Forever, now)
    {
      hide Owned, Counted, Blocked, NotLost, OthersRunnable;
      Ownership(place, nest, tid, count, kernel.cur);
      if count != 0 && tid != kernel.cur {
        Block(Locking, now);
      } else {
        Deepest(place, nest, tid, count, kernel.cur);
        if count + 1 < UINT16_RANGE {
          Taken(kernel.runq[..], place, nest, tid, count, kernel.cur);
        }
        SamePlace(place, kernel.cur);
        tid := kernel.cur;
        count := (count + 1) % UINT16_RANGE;
        nest := nest[kernel.cur := nest[kernel.cur] + 1];
      }
    }

    /** One more round of the loop of `Lock`: one more waiter, which is blocked. */
    method Block(p: Place, now: int)
      requires kernel.Valid() && Owned(place, nest, tid, count) && Blocked(kernel.runq[..], place)
      requires Runs(kernel.runq[..], kernel.cur) && kernel.cur < |place|
      requires tid != NOBODY && tid != kernel.cur && OthersRunnable(kernel.runq[..], kernel.cur, now)
      requires Counted(place, waiters + (if InLoop(place[kernel.cur]) then 1 else 0), condCount)
      requires InLoop(p) && InCondVar(p) == InCondVar(place[kernel.cur]) && (InCondVar(p) ==> p.saved == place[kernel.cur].saved)
      modifies this`waiters, this`place, kernel, kernel.runq
      ensures Valid() && kernel.cur == old(kernel.cur)
      ensures place == old(place)[kernel.cur := p] && waiters == old(waiters) + 1
      ensures Blocks(old(kernel.runq[..]), kernel.runq[..], kernel.cur, MUTEX, Forever, now)
    {
      hide Owned, Counted, Blocked, NotLost, OthersRunnable, SomeRunnable, CountLoop, CountCond;
      ghost var q, me := kernel.runq[..], kernel.cur;
      waiters := waiters + 1;
      OthersStay(q, kernel.cur, q[me].(state := Wait, waitob := MUTEX), now);
      kernel.WaitFor(MUTEX, now);
      Moved(q, place, nest, tid, count, me, p, kernel.runq[..], now);
      Recounted(place, me, p);
      CountedMoved(place, me, p, waiters - 1, condCount);
      place := place[kernel.cur := p];
    }

    /** The mutex taken in the loop of `Lock`, at the depth that the thread gave up when it called `CondVar::Wait`. */
    method Take()
      requires kernel.Valid() && |place| == kernel.runq.Length && Blocked(kernel.runq[..], place)
      requires Runs(kernel.runq[..], kernel.cur)
      requires Owned(place, nest, tid, count) && tid == NOBODY && !place[kernel.cur].Outside?
      requires Counted(place, waiters + (if InLoop(place[kernel.cur]) then 1 else 0), condCount)
      modifies this
      ensures Valid() && tid == kernel.cur && place == old(place)[kernel.cur := Outside] && waiters == old(waiters)
      ensures old(place)[kernel.cur].Locking? ==> count == 1 && nest == old(nest)[kernel.cur := 1]
      ensures InCondVar(old(place)[kernel.cur]) ==> count == old(place)[kernel.cur].saved == nest[kernel.cur] && nest == old(nest)
    {
      hide Counted, Blocked, NotLost, CountLoop, CountCond;
      ghost var me := kernel.cur;
      CountedMoved(place, me, Outside, waiters, condCount);
      Left(kernel.runq[..], place, me);
      tid := kernel.cur;
      count := count + 1;
      if InCondVar(place[kernel.cur]) {
        condCount := condCount - 1;
        count := place[kernel.cur].saved;
      } else {
        nest := nest[kernel.cur := 1];
      }
      place := place[kernel.cur := Outside];
    }

    /** The loop of `Lock` after its wait, when the thread runs again. */
    method Resume(now: int)
      requires Valid() && Runs(kernel.runq[..], kernel.cur) && InLoop(place[kernel.cur])
      requires tid != NOBODY ==> OthersRunnable(kernel.runq[..], kernel.cur, now)
      modifies this, kernel, kernel.runq
      ensures Valid() && kernel.cur == old(kernel.cur)
      ensures old(tid) == NOBODY ==>
        && tid == kernel.cur && place == old(place)[kernel.cur := Outside] && kernel.runq[..] == old(kernel.runq[..])
        && waiters == old(waiters) - 1 && nest == old(nest)[kernel.cur := count]
        && count == if old(place)[kernel.cur].Locking? then 1 else old(nest)[kernel.cur]
      ensures old(tid) != NOBODY ==>
        && tid == old(tid) && count == old(count) && nest == old(nest) && place == old(place) && waiters == old(waiters)
        && Blocks(old(kernel.runq[..]), kernel.runq[..], kernel.cur, MUTEX, Forever, now)
    {
      hide Counted, Blocked, NotLost, CountLoop, CountCond, OthersRunnable;
      SamePlace(place, kernel.cur);
      waiters := waiters - 1;
      if count != 0 && tid != kernel.cur {
        Block(place[kernel.cur], now);
      } else {
        Take();
      }
    }

    /** `CondVar::Wait` when the thread runs again, with its call of `Lock` up to the wait in that. */
    method CondWaitEnds(now: int)
      requires Valid() && Runs(kernel.runq[..], kernel.cur) && place[kernel.cur].InWait?
      requires tid != NOBODY ==> OthersRunnable(kernel.runq[..], kernel.cur, now)
      modifies this, kernel, kernel.runq
      ensures Valid() && kernel.cur == old(kernel.cur) && nest == old(nest)
      ensures old(tid) == NOBODY ==>
        && tid == kernel.cur && place == old(place)[kernel.cur := Outside] && kernel.runq[..] == old(kernel.runq[..])
        && waiters == old(waiters) && count == nest[kernel.cur]
      ensures old(tid) != NOBODY ==>
        && tid == old(tid) && count == old(count) && waiters == old(waiters) + 1
        && place == old(place)[kernel.cur := Relocking(old(place)[kernel.cur].saved)]
        && Blocks(old(kernel.runq[..]), kernel.runq[..], kernel.cur, MUTEX, Forever, now)
    {
      hide Counted, Blocked, NotLost, CountLoop, CountCond, OthersRunnable;
      if count != 0 && tid != kernel.cur {
        Block(Relocking(place[kernel.cur].saved), now);
      } else {
        Take();
      }
    }

    /** The body of `Mutex::Unlock`: the last call frees the mutex, and each call wakes a waiter. */
    method Drop()
      requires kernel.Valid() && |place| == kernel.runq.Length && Blocked(kernel.runq[..], place)
      requires Counted(place, waiters, condCount) && count > 0
      modifies this`count, this`tid, kernel, kernel.runq
      ensures kernel.Valid() && kernel.cur == old(kernel.cur)
      ensures count == old(count) - 1 && tid == if count == 0 then NOBODY else old(tid)
      ensures OneWoken(old(kernel.runq[..]), kernel.runq[..], MUTEX)
      ensures Blocked(kernel.runq[..], place) && NotLost(kernel.runq[..], place, tid)
    {
      hide Counted, Blocked, NotLost, OneWoken, FirstWaiter;
      count := count - 1;
      if count == 0 {
        tid := NOBODY;
      }
      ghost var q := kernel.runq[..];
      if waiters != 0 {
        kernel.WakeSingle(MUTEX);
      } else {
        NobodyWaits(q, place, waiters, condCount);
      }
      WokenForMutex(q, kernel.runq[..], place, tid);
    }

    /** `Mutex::Unlock`, by the owner */
    method Unlock()
      requires Valid() && tid == kernel.cur
      modifies this, kernel, kernel.runq
      ensures Valid() && kernel.cur == old(kernel.cur)
      ensures count == old(count) - 1 && tid == if count == 0 then NOBODY else old(tid)
      ensures nest == old(nest)[kernel.cur := old(nest)[kernel.cur] - 1] && place == old(place) && waiters == old(waiters)
      ensures OneWoken(old(kernel.runq[..]), kernel.runq[..], MUTEX)
    {
      hide Counted, Blocked, NotLost, OneWoken, FirstWaiter;
      Drop();
      nest := nest[kernel.cur := nest[kernel.cur] - 1];
    }

    /** `CondVar::Wait`, by the owner, up to its wait: the mutex is free, whatever its depth was. */
    method CondWait(now: int)
      requires Valid() && tid == kernel.cur && Runs(kernel.runq[..], kernel.cur)
      requires OthersRunnable(kernel.runq[..], kernel.cur, now)
      modifies this, kernel, kernel.runq
      ensures Valid() && kernel.cur == old(kernel.cur)
      ensures tid == NOBODY && nest == old(nest) && place == old(place)[kernel.cur := InWait(old(nest)[kernel.cur])]
      ensures waiters == old(waiters) && condCount == old(condCount) + 1
      ensures GivesWay(old(kernel.runq[..]), kernel.runq[..], kernel.cur, Forever, now)
    {
      hide Counted, Blocked, NotLost, OneWoken, FirstWaiter, OthersRunnable, SomeRunnable;
      ghost var q := kernel.runq[..];
      var saved := GiveUp();
      ghost var q1, me := kernel.runq[..], kernel.cur;
      OthersWoken(q, q1, MUTEX, me, now);
      OthersStay(q1, me, q1[me].(state := Wait, waitob := CONDVAR), now);
      kernel.WaitFor(CONDVAR, now);
      Rests(q1, place, me, saved, kernel.runq[..], tid, now);
      place := place[kernel.cur := InWait(saved)];
    }

    /** `CondVar::Wait` with a time limit, by the owner, up to its wait. */
    method CondWaitUntil(until: int, now: int)
      requires Valid() && tid == kernel.cur && Runs(kernel.runq[..], kernel.cur)
      requires OthersRunnable(kernel.runq[..], kernel.cur, now)
      modifies this, kernel, kernel.runq
      ensures Valid() && kernel.cur == old(kernel.cur)
      ensures tid == NOBODY && nest == old(nest) && place == old(place)[kernel.cur := InWait(old(nest)[kernel.cur])]
      ensures waiters == old(waiters) && condCount == old(condCount) + 1
      ensures GivesWay(old(kernel.runq[..]), kernel.runq[..], kernel.cur, Limit(until), now)
    {
      hide Counted, Blocked, NotLost, OneWoken, FirstWaiter, OthersRunnable, SomeRunnable;
      ghost var q := kernel.runq[..];
      var saved := GiveUp();
      ghost var q1, me := kernel.runq[..], kernel.cur;
      OthersWoken(q, q1, MUTEX, me, now);
      OthersStay(q1, me, q1[me].(state := TWait, waitob := CONDVAR, waittime := until), now);
      kernel.WaitUntil(CONDVAR, until, now);
      Rests(q1, place, me, saved, kernel.runq[..], tid, now);
      place := place[kernel.cur := InWait(saved)];
    }

    /** The start of `CondVar::Wait`: one call of `Unlock` frees the mutex at any depth. */
    method GiveUp() returns (saved: int)
      requires Valid() && tid == kernel.cur && Runs(kernel.runq[..], kernel.cur)
      modifies this`count, this`tid, this`condCount, kernel, kernel.runq
      ensures kernel.Valid() && kernel.cur == old(kernel.cur) && |place| == kernel.runq.Length
      ensures saved == old(count) == nest[kernel.cur] && 0 < saved && count == 0 && tid == NOBODY && condCount == old(condCount) + 1
      ensures OneWoken(old(kernel.runq[..]), kernel.runq[..], MUTEX) && Runs(kernel.runq[..], kernel.cur)
      ensures Blocked(kernel.runq[..], place) && NotLost(kernel.runq[..], place, tid)
      ensures Owned(place[kernel.cur := InWait(saved)], nest, tid, count)
      ensures Counted(place[kernel.cur := InWait(saved)], waiters, condCount)
    {
      hide Blocked, NotLost, OneWoken, FirstWaiter, CountLoop, CountCond;
      ghost var q := kernel.runq[..];
      saved := count;
      CountedMoved(place, kernel.cur, InWait(saved), waiters, condCount);
      count := 1;
      Drop();
      StillRuns(q, kernel.runq[..], kernel.cur);
      condCount := condCount + 1;
    }

    /** `CondVar::Signal`: the count of waiters tells truly whether to look for one. */
    method Signal()
      requires Valid()
      modifies kernel, kernel.runq
      ensures Valid() && kernel.cur == old(kernel.cur)
      ensures OneWoken(old(kernel.runq[..]), kernel.runq[..], CONDVAR)
    {
      hide Owned, Counted, Blocked, NotLost, OneWoken, FirstWaiter;
      ghost var q := kernel.runq[..];
      if condCount != 0 {
        kernel.WakeSingle(CONDVAR);
      } else {
        NobodyWaits(q, place, waiters, condCount);
      }
      WokenForCondVar(q, kernel.runq[..], place, tid);
    }

    /** `CondVar::Broadcast` */
    method Broadcast()
      requires Valid()
      modifies kernel, kernel.runq
      ensures Valid() && kernel.cur == old(kernel.cur)
      ensures forall i :: 0 <= i < kernel.runq.Length ==> kernel.runq[i] == Woken(old(kernel.runq[i]), CONDVAR)
    {
      hide Owned, Counted, Blocked, NotLost;
      ghost var q := kernel.runq[..];
      if condCount != 0 {
        kernel.WakeAll(CONDVAR);
      } else {
        NobodyWaits(q, place, waiters, condCount);
      }
      AllWoken(q, kernel.runq[..], place, tid);
    }

    /** The scheduler switches to another thread, or the timer interrupts. */
    method Reschedule(inCsw: bool, now: int)
      requires Valid() && SomeRunnable(kernel.runq[..], now)
      modifies kernel, kernel.runq
      ensures Valid() && (inCsw ==> Runs(kernel.runq[..], kernel.cur) && Unbeaten(kernel.runq[..], kernel.cur))
      ensures inCsw ==> kernel.runq[..] == AllReadied(old(kernel.runq[..]), now)
      ensures !inCsw ==> kernel.cur == old(kernel.cur)
      ensures kernel.runq[..] == old(kernel.runq[..]) || kernel.runq[..] == AllReadied(old(kernel.runq[..]), now)
    {
      hide Owned, Counted, Blocked, NotLost, TimerInTime, RoundRobins, SomeRunnable, TopOf, FirstPeer;
      ghost var q := kernel.runq[..];
      kernel.Rotate(inCsw, now);
      TimePasses(q, kernel.runq[..], place, tid);
    }

    ghost function Now(): Moment
      reads this, kernel, kernel.runq
    {
      Moment(kernel.runq[..], kernel.cur, tid, count, waiters, condCount, place, nest)
    }

    predicate Enabled(op: Op, now: int)
      requires Valid()
      reads this, kernel, kernel.runq
    {
      CanStep(kernel.runq[..], kernel.cur, tid, count, place, op, now)
    }

    /** One step of a thread or of the scheduler; a step that is not enabled is not taken. */
    method Step(op: Op, now: int)
      requires Valid()
      modifies this, kernel, kernel.runq
      ensures Valid()
      ensures if old(Enabled(op, now)) then Change(old(Now()), op, now, Now()) else Now() == old(Now())
    {
      hide Owned, Counted, Blocked, NotLost, OneWoken, OthersRunnable, Unbeaten;
      Ownership(place, nest, tid, count, kernel.cur);
      if Enabled(op, now) {
        match op {
          case Lock => Lock(now);
          case TryLock => var _ := TryLock();
          case Unlock => Unlock();
          case CondWait(until) =>
            if until.Limit? {
              CondWaitUntil(until.at, now);
            } else {
              CondWait(now);
            }
          case Resume =>
            if InLoop(place[kernel.cur]) {
              Resume(now);
            } else {
              CondWaitEnds(now);
            }
          case Signal => Signal();
          case Broadcast => Broadcast();
          case Reschedule(inCsw) => Reschedule(inCsw, now);
        }
      }
    }

    lemma NowSound()
      requires Valid()
      ensures MomentOk(Now())
    {
      hide Counted, Blocked;
      OneHolder(place, nest, tid, count);
    }

    /** Any run of steps: each does what it means, and at every moment the mutex has one holder at most, the counters
        are true, and no wake-up is lost. */
    method Run(ops: seq<(Op, int)>) returns (ghost trace: seq<Moment>)
      requires Valid()
      modifies this, kernel, kernel.runq
      ensures Valid() && |trace| == |ops| + 1 && trace[0] == old(Now()) && trace[|ops|] == Now()
      ensures forall k :: 0 <= k <= |ops| ==> MomentOk(trace[k])
      ensures IsRun(trace, ops)
    {
      hide Synchronized.Valid, MomentOk, Change, CanStep;
      trace := [Now()];
      NowSound();
      for k := 0 to |ops|
        invariant Valid() && |trace| == k + 1 && trace[0] == old(Now()) && trace[k] == Now()
        invariant forall j :: 0 <= j <= k ==> MomentOk(trace[j])
        invariant forall j :: 0 <= j < k ==> Stepped(trace[j], ops[j].0, ops[j].1, trace[j + 1])
      {
        Step(ops[k].0, ops[k].1);
        NowSound();
        trace := trace + [Now()];
      }
    }
  }

  /** Threads, mutex and condition variable between two steps. */
  datatype Moment = Moment(q: seq<Thread>, cur: int, tid: int, count: int, waiters: int, condCount: int,
                           place: seq<Place>, nest: seq<nat>)

  /** What holds between steps. */
  ghost predicate MomentOk(m: Moment) {
    && (forall i, j :: Holds(m.place, m.nest, i) && Holds(m.place, m.nest, j) ==> i == j)
    && (forall i :: Holds(m.place, m.nest, i) ==> m.tid == i && m.count == m.nest[i])
    && Counted(m.place, m.waiters, m.condCount) && Blocked(m.q, m.place) && NotLost(m.q, m.place, m.tid)
  }

  /** Whether the current thread can take a step: it runs, it is where the step starts, it owns the mutex where
      the source asserts that, the depth fits its 16 bits, and somebody else can run when it may block. */
  predicate CanStep(q: seq<Thread>, me: int, tid: int, count: int, place: seq<Place>, op: Op, now: int) {
    && |place| == |q| && 0 <= me < |q|
    && match op
       case Lock =>
         && Runs(q, me) && place[me].Outside? && !(tid == me && count == UINT16_RANGE - 1)
         && (tid == NOBODY || tid == me || OthersRunnable(q, me, now))
       case TryLock => Runs(q, me) && place[me].Outside?
       case Unlock => Runs(q, me) && tid == me
       case CondWait(_) => Runs(q, me) && tid == me && OthersRunnable(q, me, now)
       case Resume => Runs(q, me) && !place[me].Outside? && (tid == NOBODY || OthersRunnable(q, me, now))
       case Signal => true
       case Broadcast => true
       case Reschedule(_) => exists i {:trigger q[i]} :: 0 <= i < |q| && Readied(q[i], now).state.Run?
  }

  ghost predicate Stepped(m: Moment, op: Op, now: int, m': Moment) {
    if CanStep(m.q, m.cur, m.tid, m.count, m.place, op, now) then Change(m, op, now, m') else m' == m
  }

  /** Each step of a run does what it means. */
  ghost predicate IsRun(trace: seq<Moment>, ops: seq<(Op, int)>) {
    && |trace| == |ops| + 1
    && forall k {:trigger trace[k]} :: 0 <= k < |ops| ==> Stepped(trace[k], ops[k].0, ops[k].1, trace[k + 1])
  }

  /** The mutex is as it was. */
  ghost predicate SameMutex(m: Moment, m': Moment) {
    m'.tid == m.tid && m'.count == m.count && m'.nest == m.nest
  }

  /** Thread `m.cur` has taken the mutex, at depth `depth`. */
  ghost predicate HasTaken(m: Moment, m': Moment, depth: int) {
    m'.tid == m.cur && m'.count == depth && depth > 0 && m'.q == m.q && 0 <= m.cur < |m.nest| && m'.nest == m.nest[m.cur := depth]
  }

  /** What a step does. */
  ghost predicate Change(m: Moment, op: Op, now: int, m': Moment) {
    var me := m.cur;
    && (!op.Reschedule? ==> m'.cur == me) && 0 <= me < |m.place| == |m.nest|
    && match op
       case TryLock =>
         m'.place == m.place && if m.tid == NOBODY then HasTaken(m, m', 1) else m' == m
       case Lock =>
         if m.tid == NOBODY || m.tid == me then m'.place == m.place && HasTaken(m, m', m.nest[me] + 1)
         else SameMutex(m, m') && m'.place == m.place[me := Locking] && Blocks(m.q, m'.q, me, MUTEX, Forever, now)
       case Resume =>
         if m.tid == NOBODY then
           m'.place == m.place[me := Outside] && HasTaken(m, m', if m.place[me].Locking? then 1 else m.nest[me])
         else
           && SameMutex(m, m') && Blocks(m.q, m'.q, me, MUTEX, Forever, now)
           && m'.place == if m.place[me].InWait? then m.place[me := Relocking(m.place[me].saved)] else m.place
       case Unlock =>
         && m'.place == m.place && OneWoken(m.q, m'.q, MUTEX) && m.nest[me] > 0 && m'.nest == m.nest[me := m.nest[me] - 1]
         && m'.count == m.count - 1 && m'.tid == if m.nest[me] == 1 then NOBODY else me
       case CondWait(until) =>
         && m'.tid == NOBODY && m'.nest == m.nest && m'.place == m.place[me := InWait(m.nest[me])]
         && GivesWay(m.q, m'.q, me, until, now)
       case Signal =>
         SameMutex(m, m') && m'.place == m.place && OneWoken(m.q, m'.q, CONDVAR)
       case Broadcast =>
         SameMutex(m, m') && m'.place == m.place && |m'.q| == |m.q| && forall i :: 0 <= i < |m.q| ==> m'.q[i] == Woken(m.q[i], CONDVAR)
       case Reschedule(inCsw) =>
         && SameMutex(m, m') && m'.place == m.place && (m'.q == m.q || m'.q == AllReadied(m.q, now))
         && if inCsw then m'.q == AllReadied(m.q, now) && Runs(m'.q, m'.cur) && Unbeaten(m'.q, m'.cur) else m'.cur == me
  }

  // ---------------------------------------------------------------- how waits for the condition variable end

  predicate InTable(m: Moment) { 0 <= m.cur < |m.q| == |m.place| }

  /** A step leaves a waiter as it is, or wakes it: as a signal, or because its time limit is over.  When the scheduler
      switches threads at the limit or after it, the thread can run. */
  lemma WaitStep(m: Moment, op: Op, now: int, m': Moment, me: int, t: Thread, until: Until)
    requires Stepped(m, op, now, m') && InTable(m) && 0 <= me < |m.q| && m.q[me] == Asleep(t, CONDVAR, until)
    ensures InTable(m') && |m'.q| == |m.q|
    ensures m'.q[me] == m.q[me] || m'.q[me] == m.q[me].(state := Run)
    ensures m'.q[me] != m.q[me] ==> op.Signal? || op.Broadcast? || (until.Limit? && until.at <= now)
    ensures op == Reschedule(true) && until.Limit? && until.at <= now ==> Runs(m'.q, me)
  {
    assert until.Limit? && until.at <= now ==> Readied(m.q[me], now).state.Run?;
    if CanStep(m.q, m.cur, m.tid, m.count, m.place, op, now) && op.CondWait? {
      var q1 :| OneWoken(m.q, q1, MUTEX) && if op.until.Limit? && op.until.at <= now then m'.q == q1
        else Blocks(q1, m'.q, m.cur, CONDVAR, op.until, now);
      assert q1[me] == m.q[me];
    }
  }

  /** The thread that called `CondVar::Wait` waits, with the limit it gave, unless that was past. */
  lemma WaitBegins(m: Moment, until: Until, now: int, m': Moment)
    requires CanStep(m.q, m.cur, m.tid, m.count, m.place, CondWait(until), now) && Stepped(m, CondWait(until), now, m')
    ensures InTable(m) && InTable(m') && |m'.q| == |m.q| && m'.cur == m.cur
    ensures if until.Limit? && until.at <= now then Runs(m'.q, m.cur) else m'.q[m.cur] == Asleep(m.q[m.cur], CONDVAR, until)
  {
    var q1 :| OneWoken(m.q, q1, MUTEX) && if until.Limit? && until.at <= now then m'.q == q1
      else Blocks(q1, m'.q, m.cur, CONDVAR, until, now);
    assert q1[m.cur] == m.q[m.cur];
  }

  /** As long as it has not run it waits, with its limit. */
  lemma {:induction false} WaitGoesOn(trace: seq<Moment>, ops: seq<(Op, int)>, k: nat, j: nat, me: int, t: Thread, until: Until)
    requires IsRun(trace, ops) && k <= j <= |ops| && InTable(trace[k]) && 0 <= me < |trace[k].q|
    requires trace[k].q[me] == Asleep(t, CONDVAR, until)
    requires forall i :: k <= i <= j ==> !Runs(trace[i].q, me)
    ensures InTable(trace[j]) && |trace[j].q| == |trace[k].q| && trace[j].q[me] == Asleep(t, CONDVAR, until)
  {
    hide Stepped, Asleep, InTable;
    if k < j {
      WaitGoesOn(trace, ops, k, j - 1, me, t, until);
      WaitStep(trace[j - 1], ops[j - 1].0, ops[j - 1].1, trace[j], me, t, until);
      WaitingOrRunning(trace[j].q, me);
    }
  }

  lemma WaitingOrRunning(q: seq<Thread>, me: int)
    requires 0 <= me < |q| && !Runs(q, me)
    ensures forall t: Thread :: q[me] != t.(state := Run)
  {}

  /** A thread that waits with a time limit can run at the latest when threads are switched at that time or later. */
  lemma LimitWakes(trace: seq<Moment>, ops: seq<(Op, int)>, k: nat, j: nat, limit: int)
    requires IsRun(trace, ops) && k < j < |ops| && ops[k].0 == CondWait(Limit(limit))
    requires CanStep(trace[k].q, trace[k].cur, trace[k].tid, trace[k].count, trace[k].place, ops[k].0, ops[k].1)
    requires ops[j].0 == Reschedule(true) && ops[j].1 >= limit
    ensures exists i :: k < i <= j + 1 && Runs(trace[i].q, trace[k].cur)
  {
    hide Stepped, CanStep;
    WaitBegins(trace[k], Limit(limit), ops[k].1, trace[k + 1]);
    var me, t := trace[k].cur, trace[k].q[trace[k].cur];
    if forall i :: k < i <= j ==> !Runs(trace[i].q, me) {
      WaitGoesOn(trace, ops, k + 1, j, me, t, Limit(limit));
      WaitStep(trace[j], ops[j].0, ops[j].1, trace[j + 1], me, t, Limit(limit));
    }
  }

  /** Nothing but a signal, a broadcast or the time limit ends such a wait, and without a limit only the former. */
  lemma NoSpuriousWakeup(trace: seq<Moment>, ops: seq<(Op, int)>, k: nat, j: nat, until: Until)
    requires IsRun(trace, ops) && k < j < |ops| && ops[k].0 == CondWait(until)
    requires CanStep(trace[k].q, trace[k].cur, trace[k].tid, trace[k].count, trace[k].place, ops[k].0, ops[k].1)
    requires (forall i :: k < i <= j ==> !Runs(trace[i].q, trace[k].cur)) && Runs(trace[j + 1].q, trace[k].cur)
    ensures ops[j].0.Signal? || ops[j].0.Broadcast? || (until.Limit? && until.at <= ops[j].1)
  {
    hide Stepped, CanStep;
    WaitBegins(trace[k], until, ops[k].1, trace[k + 1]);
    var me, t := trace[k].cur, trace[k].q[trace[k].cur];
    WaitGoesOn(trace, ops, k + 1, j, me, t, until);
    WaitStep(trace[j], ops[j].0, ops[j].1, trace[j + 1], me, t, until);
  }

  lemma {:induction false} NobodyInside(place: seq<Place>)
    requires forall i :: 0 <= i < |place| ==> place[i] == Outside
    ensures CountLoop(place) == 0 && CountCond(place) == 0
  {
    if place != [] {
      NobodyInside(place[1..]);
    }
  }

  /** Some thread other than `me` can run, so that `me` may block. */
  predicate OthersRunnable(q: seq<Thread>, me: int, now: int) {
    exists i {:trigger q[i]} :: 0 <= i < |q| && i != me && Readied(q[i], now).state.Run?
  }

  lemma OthersStay(q: seq<Thread>, me: int, t: Thread, now: int)
    requires OthersRunnable(q, me, now) && 0 <= me < |q|
    ensures SomeRunnable(q[me := t], now)
  {
    var i :| 0 <= i < |q| && i != me && Readied(q[i], now).state.Run?;
    assert q[me := t][i] == q[i];
  }

  /** Apart from `me`, threads are as they were, or their timed waits are over. */
  ghost predicate Elsewhere(q: seq<Thread>, q': seq<Thread>, me: int, now: int) {
    |q'| == |q| && forall i {:trigger q'[i]} :: 0 <= i < |q| && i != me ==> q'[i] == q[i] || q'[i] == Readied(q[i], now)
  }

  /** A thread that waits, with a time limit or without. */
  function Asleep(t: Thread, ob: int, until: Until): Thread {
    if until.Limit? then t.(state := TWait, waitob := ob, waittime := until.at) else t.(state := Wait, waitob := ob)
  }

  /** Thread `me` is put to wait, and nothing else happens but that other timed waits may end. */
  ghost predicate Blocks(q: seq<Thread>, q': seq<Thread>, me: int, ob: int, until: Until, now: int) {
    0 <= me < |q| && Elsewhere(q, q', me, now) && q'[me] == Asleep(q[me], ob, until)
  }

  /** A waiter for the mutex is woken, and thread `me` waits for the condition variable, if its limit is not past. */
  ghost predicate GivesWay(q: seq<Thread>, q': seq<Thread>, me: int, until: Until, now: int) {
    exists q1 {:trigger OneWoken(q, q1, MUTEX)} :: OneWoken(q, q1, MUTEX) &&
      if until.Limit? && until.at <= now then q' == q1 else Blocks(q1, q', me, CONDVAR, until, now)
  }

  lemma Ownership(place: seq<Place>, nest: seq<nat>, tid: int, count: int, me: int)
    requires Owned(place, nest, tid, count) && 0 <= me < |place|
    ensures |nest| == |place| && (count == 0 <==> tid == NOBODY) && 0 <= count < UINT16_RANGE
    ensures (me == tid ==> place[me].Outside? && nest[me] == count) && (InCondVar(place[me]) ==> 0 < place[me].saved < UINT16_RANGE)
    ensures me != tid && !InCondVar(place[me]) ==> nest[me] == 0
    ensures InCondVar(place[me]) ==> nest[me] == place[me].saved
  {}

  /** The mutex is taken, or taken once more. */
  lemma Taken(q: seq<Thread>, place: seq<Place>, nest: seq<nat>, tid: int, count: int, me: int)
    requires Owned(place, nest, tid, count) && Blocked(q, place) && 0 <= me < |place| && |nest| == |place|
    requires (tid == NOBODY || tid == me) && place[me].Outside? && count + 1 < UINT16_RANGE
    ensures Owned(place, nest[me := nest[me] + 1], me, count + 1) && NotLost(q, place, me)
  {}

  lemma Deepest(place: seq<Place>, nest: seq<nat>, tid: int, count: int, me: int)
    requires 0 <= me < |place| && |nest| == |place|
    ensures count + 1 == UINT16_RANGE ==> !Owned(place, nest[me := nest[me] + 1], me, 0)
  {}

  lemma SamePlace(place: seq<Place>, me: int)
    requires 0 <= me < |place|
    ensures place[me := place[me]] == place
  {}

  /** A thread that is blocked, or blocked again, in the loop of `Lock`. */
  lemma Moved(q: seq<Thread>, place: seq<Place>, nest: seq<nat>, tid: int, count: int, me: int, p: Place, q': seq<Thread>,
              now: int)
    requires Owned(place, nest, tid, count) && Blocked(q, place) && Elsewhere(q, q', me, now)
    requires 0 <= me < |q| && tid != NOBODY && me != tid
    requires InLoop(p) && InCondVar(p) == InCondVar(place[me]) && (InCondVar(p) ==> p.saved == place[me].saved)
    requires Waits(q', me, MUTEX)
    ensures Owned(place[me := p], nest, tid, count) && Blocked(q', place[me := p]) && NotLost(q', place[me := p], tid)
  {
    forall i, ob | Waits(q, i, ob) && i != me
      ensures Waits(q', i, ob) || Runs(q', i)
    {
      assert q'[i] == q[i] || q'[i] == q[i].(state := Run);
    }
    forall i | Runs(q, i) && i != me
      ensures Runs(q', i)
    {
      assert q'[i] == q[i];
    }
    forall i | Waits(q', i, MUTEX)
      ensures InLoop(place[me := p][i])
    {
      assert i != me ==> Waits(q, i, MUTEX);
    }
    forall i | Waits(q', i, CONDVAR)
      ensures place[me := p][i].InWait?
    {
      assert i != me && Waits(q, i, CONDVAR);
    }
  }

  lemma {:induction false} Recounted(place: seq<Place>, i: int, p: Place)
    requires 0 <= i < |place|
    ensures CountLoop(place[i := p]) + (if InLoop(place[i]) then 1 else 0) == CountLoop(place) + (if InLoop(p) then 1 else 0)
    ensures CountCond(place[i := p]) + (if InCondVar(place[i]) then 1 else 0) == CountCond(place) + (if InCondVar(p) then 1 else 0)
  {
    if i == 0 {
      assert place[i := p][1..] == place[1..];
    } else {
      Recounted(place[1..], i - 1, p);
      assert place[i := p][1..] == place[1..][i - 1 := p];
    }
  }

  /** `others` counts the threads in the loop without thread `me`. */
  lemma CountedMoved(place: seq<Place>, me: int, p: Place, others: int, condCount: int)
    requires 0 <= me < |place| && Counted(place, others + (if InLoop(place[me]) then 1 else 0), condCount)
    ensures var in_ := if InCondVar(place[me]) then 1 else 0; var in' := if InCondVar(p) then 1 else 0;
            Counted(place[me := p], others + (if InLoop(p) then 1 else 0), condCount - in_ + in')
  {
    Recounted(place, me, p);
  }

  /** A running thread leaves the loop of `Lock` with the mutex. */
  lemma Left(q: seq<Thread>, place: seq<Place>, me: int)
    requires Blocked(q, place) && 0 <= me < |q| && Runs(q, me)
    ensures Blocked(q, place[me := Outside]) && NotLost(q, place[me := Outside], me)
  {}

  lemma {:induction false} CountedOne(place: seq<Place>, i: int)
    requires 0 <= i < |place|
    ensures InLoop(place[i]) ==> CountLoop(place) > 0
    ensures InCondVar(place[i]) ==> CountCond(place) > 0
  {
    if i > 0 {
      CountedOne(place[1..], i - 1);
    }
  }

  /** A count of zero means that there is nobody to wake. */
  lemma NobodyWaits(q: seq<Thread>, place: seq<Place>, waiters: int, condCount: int)
    requires Blocked(q, place) && Counted(place, waiters, condCount)
    ensures waiters == 0 ==> OneWoken(q, q, MUTEX)
    ensures condCount == 0 ==> OneWoken(q, q, CONDVAR) && forall i {:trigger q[i]} :: 0 <= i < |q| ==> !Waits(q, i, CONDVAR)
  {
    forall i | 0 <= i < |place|
      ensures InLoop(place[i]) ==> waiters > 0
      ensures InCondVar(place[i]) ==> condCount > 0
    {
      CountedOne(place, i);
    }
    assert waiters == 0 ==> FirstWaiter(q, |q|, MUTEX, NOBODY);
    assert condCount == 0 ==> FirstWaiter(q, |q|, CONDVAR, NOBODY);
  }

  lemma WokenForMutex(q: seq<Thread>, q': seq<Thread>, place: seq<Place>, tid: int)
    requires Blocked(q, place) && OneWoken(q, q', MUTEX)
    ensures Blocked(q', place) && NotLost(q', place, tid)
  {
    var top :| FirstWaiter(q, |q|, MUTEX, top) && q' == if top == NOBODY then q else q[top := q[top].(state := Run)];
    forall i, ob | Waits(q', i, ob)
      ensures Waits(q, i, ob)
    {}
    if top != NOBODY {
      assert Runs(q', top) && InLoop(place[top]);
    }
  }

  lemma WokenForCondVar(q: seq<Thread>, q': seq<Thread>, place: seq<Place>, tid: int)
    requires Blocked(q, place) && NotLost(q, place, tid) && OneWoken(q, q', CONDVAR)
    ensures Blocked(q', place) && NotLost(q', place, tid)
  {
    var top :| FirstWaiter(q, |q|, CONDVAR, top) && q' == if top == NOBODY then q else q[top := q[top].(state := Run)];
    Relaxed(q, q', place, tid);
  }

  lemma AllWoken(q: seq<Thread>, q': seq<Thread>, place: seq<Place>, tid: int)
    requires Blocked(q, place) && NotLost(q, place, tid) && |q'| == |q|
    requires forall i :: 0 <= i < |q| ==> q'[i] == Woken(q[i], CONDVAR)
    ensures Blocked(q', place) && NotLost(q', place, tid)
  {
    Relaxed(q, q', place, tid);
  }

  lemma TimePasses(q: seq<Thread>, q': seq<Thread>, place: seq<Place>, tid: int)
    requires Blocked(q, place) && NotLost(q, place, tid) && |q'| == |q|
    requires forall i {:trigger q'[i]} :: 0 <= i < |q| ==> q'[i] == q[i] || q'[i] == q[i].(state := Run)
    ensures Blocked(q', place) && NotLost(q', place, tid)
  {
    Relaxed(q, q', place, tid);
  }

  /** Threads that become runnable do no harm. */
  lemma Relaxed(q: seq<Thread>, q': seq<Thread>, place: seq<Place>, tid: int)
    requires Blocked(q, place) && NotLost(q, place, tid) && |q'| == |q|
    requires forall i {:trigger q'[i]} :: 0 <= i < |q| ==> q'[i] == q[i] || q'[i] == q[i].(state := Run)
    ensures Blocked(q', place) && NotLost(q', place, tid)
  {
    forall i, ob | Waits(q', i, ob)
      ensures Waits(q, i, ob)
    {}
    forall i | Runs(q, i)
      ensures Runs(q', i)
    {}
  }

  lemma OthersWoken(q: seq<Thread>, q': seq<Thread>, ob: int, me: int, now: int)
    requires OthersRunnable(q, me, now) && OneWoken(q, q', ob)
    ensures OthersRunnable(q', me, now)
  {
    var i :| 0 <= i < |q| && i != me && Readied(q[i], now).state.Run?;
    assert q'[i] == q[i] || q'[i] == q[i].(state := Run);
  }

  lemma StillRuns(q: seq<Thread>, q': seq<Thread>, me: int)
    requires OneWoken(q, q', MUTEX) && Runs(q, me)
    ensures Runs(q', me)
  {}

  /** The thread is in `CondVar::Wait`: blocked, or its time limit has passed already. */
  lemma Rests(q: seq<Thread>, place: seq<Place>, me: int, saved: nat, q': seq<Thread>, tid: int, now: int)
    requires Blocked(q, place) && NotLost(q, place, tid) && 0 <= me < |q| && Elsewhere(q, q', me, now)
    requires Runs(q, me) && place[me].Outside? && (q'[me] == q[me] || Waits(q', me, CONDVAR))
    ensures Blocked(q', place[me := InWait(saved)]) && NotLost(q', place[me := InWait(saved)], tid)
  {
    forall i, ob | Waits(q, i, ob) && i != me
      ensures Waits(q', i, ob) || Runs(q', i)
    {
      assert q'[i] == q[i] || q'[i] == q[i].(state := Run);
    }
    forall i, ob | Waits(q', i, ob) && i != me
      ensures Waits(q, i, ob)
    {}
    forall i | Runs(q, i) && i != me
      ensures Runs(q', i)
    {}
  }

  /** Mutual exclusion: the only thread that can hold the mutex is the owner it records, at the depth it records. */
  lemma OneHolder(place: seq<Place>, nest: seq<nat>, tid: int, count: int)
    requires Owned(place, nest, tid, count)
    ensures forall i :: Holds(place, nest, i) <==> i == tid != NOBODY
    ensures forall i :: Holds(place, nest, i) ==> count == nest[i]
  {}

  /** No wakeup is lost: when the mutex is free and its count of waiters is not zero, a thread that is about to
      take it can run. */
  lemma NoLostWakeup(q: seq<Thread>, place: seq<Place>, waiters: int, condCount: int)
    requires Blocked(q, place) && Counted(place, waiters, condCount) && NotLost(q, place, NOBODY) && waiters > 0
    ensures exists i {:trigger Runs(q, i)} :: Runs(q, i) && InLoop(place[i])
  {
    var i := SomeInLoop(place);
    assert Runs(q, i) || Waits(q, i, MUTEX);
  }

  lemma {:induction false} SomeInLoop(place: seq<Place>) returns (i: int)
    requires CountLoop(place) > 0
    ensures 0 <= i < |place| && InLoop(place[i])
  {
    if InLoop(place[0]) {
      i := 0;
    } else {
      i := SomeInLoop(place[1..]);
      i := i + 1;
    }
  }
}
