/** The thread table and the scheduler: picking the next thread, and waking threads that wait. */
module Scheduler {
  const RRQUANTUM := 20 * 1024
  const UPPER_BOUND := 10_000_000
  const NOBODY := -1
  const UINT_RANGE := 0x1_0000_0000

  datatype State = Run | Wait | TWait | Sleep | Stop

  /** Priorities are larger for more urgent threads; times are in microseconds. */
  datatype Thread = Thread(state: State, prio: int, waitob: int, waittime: int)

  /** A timed wait that is over. */
  predicate Expired(t: Thread, now: int) { t.state.TWait? && t.waittime <= now }

  /** The thread after the pass over the table: a timed wait that is over is runnable. */
  function Readied(t: Thread, now: int): Thread {
    if Expired(t, now) then t.(state := Run) else t
  }

  predicate Runs(q: seq<Thread>, i: int) { 0 <= i < |q| && q[i].state.Run? }

  /** Runnable, with the priority of thread `cur`. */
  predicate Equal(q: seq<Thread>, cur: int, i: int) {
    Runs(q, i) && 0 <= cur < |q| && q[i].prio == q[cur].prio
  }

  /** Another thread than `cur`, runnable, with the same priority. */
  predicate Peer(q: seq<Thread>, cur: int, i: int) {
    Equal(q, cur, i) && i != cur
  }

  class Kernel {
    const runq: array<Thread>
    var cur: int
    var qend: int
    var pendCsw: bool

    /** A context switch that was requested. */
    var posted: bool

    /** The time from now at which the timer interrupts. */
    var timer: int
    var iplCount: nat

    ghost predicate Valid()
      reads this, runq
    {
      0 <= cur < runq.Length
    }

    constructor (threads: array<Thread>, first: int, end: int)
      requires 0 <= first < threads.Length
      ensures Valid() && runq == threads && cur == first && qend == end
    {
      runq, cur, qend := threads, first, end;
      pendCsw, posted, timer, iplCount := false, false, 0, 0;
    }

    /** `SetTimer` */
    method SetTimer(usec: int)
      modifies this`timer
      ensures timer == if usec < 5 then 5 else usec
    {
      timer := if usec < 5 then 5 else usec;
    }

    /** The pass of `Rotate` over the table. */
    method Pass(now: int) returns (wake: int, top: int, numrun: int, firstrun: int, nextrun: int)
      requires Valid()
      modifies runq
      ensures runq[..] == AllReadied(old(runq[..]), now)
      ensures EarliestWait(runq[..], runq.Length, wake, now) && TopOf(runq[..], runq.Length, top)
      ensures numrun == CountEqual(runq[..], cur, runq.Length)
      ensures FirstPeer(runq[..], cur, 0, cur, firstrun) && FirstPeer(runq[..], cur, cur + 1, runq.Length, nextrun)
    {
      hide EarliestWait, TopOf, FirstPeer, CountEqual, AllReadied, Peer;
      wake, top, numrun, firstrun, nextrun := NOBODY, NOBODY, 0, NOBODY, NOBODY;
      var seencur := false;
      ghost var q, q' := runq[..], AllReadied(runq[..], now);
      PassStart(q, q', cur, now);
      for i := 0 to runq.Length
        invariant Passed(q, q', runq[..], i) && seencur == (cur < i)
        invariant EarliestWait(q', i, wake, now) && TopOf(q', i, top) && numrun == CountEqual(q', cur, i)
        invariant FirstPeer(q', cur, 0, if cur < i then cur else i, firstrun)
        invariant FirstPeer(q', cur, cur + 1, if cur < i then i else cur + 1, nextrun)
      {
        PassedAt(q, q', runq[..], i, now);
        PassStep(q', cur, i, now, wake, top, firstrun, nextrun);
        var t := runq[i];
        if i == cur {
          seencur := true;
        }
        if t.state.TWait? && t.waittime > now {
          if wake == NOBODY || t.waittime < runq[wake].waittime {
            wake := i;
          }
        } else {
          if t.state.TWait? {
            runq[i] := t.(state := Run);
          }
          if runq[i].state.Run? {
            if top == NOBODY || t.prio > runq[top].prio {
              top := i;
            }
            if t.prio == runq[cur].prio {
              if i != cur {
                if seencur {
                  if nextrun == NOBODY {
                    nextrun := i;
                  }
                } else {
                  if firstrun == NOBODY {
                    firstrun := i;
                  }
                }
              }
              numrun := numrun + 1;
            }
          }
        }
      }
      assert runq[..] == q';
    }

    /** The choice of the next thread in `Rotate`, and the timer it sets. */
    method PickNext(now: int) returns (next: int)
      requires Valid() && SomeRunnable(runq[..], now)
      modifies runq, this`qend, this`timer
      ensures runq[..] == AllReadied(old(runq[..]), now)
      ensures Chosen(runq[..], cur, now >= old(qend), next)
      ensures qend == if RoundRobins(runq[..], cur, now >= old(qend)) then now + RRQUANTUM else old(qend)
      ensures TimerInTime(runq[..], qend, now, timer)
    {
      hide EarliestWait, TopOf, FirstPeer, CountEqual, AllReadied, Peer, Chosen, TimerInTime, RoundRobins, Equal;
      var wake, top, numrun, firstrun, nextrun := Pass(now);
      PassedTable(old(runq[..]), runq[..], cur, now, wake, top, numrun, firstrun, nextrun);
      next := cur;
      var nextTimer := if wake != NOBODY then runq[wake].waittime else now + UPPER_BOUND;
      ChoiceMade(runq[..], cur, top, numrun, firstrun, nextrun, now >= qend);
      if runq[top].prio > runq[cur].prio {
        next := top;
      } else if numrun > 1 && now >= qend {
        next := if nextrun != NOBODY then nextrun else firstrun;
        qend := now + RRQUANTUM;
      } else if !runq[cur].state.Run? {
        next := top;
      }
      DeadlineMet(runq[..], qend, now, wake);
      if qend > now {
        SetTimer(((if nextTimer < qend then nextTimer else qend) - now) % UINT_RANGE);
      } else {
        SetTimer((nextTimer - now) % UINT_RANGE);
      }
    }

    /** `Rotate` */
    method Rotate(inCsw: bool, now: int)
      requires Valid() && SomeRunnable(runq[..], now)
      modifies runq, this
      ensures Valid() && iplCount == old(iplCount)
      ensures !inCsw && old(pendCsw) ==> runq[..] == old(runq[..]) && cur == old(cur) && pendCsw && posted == old(posted)
      ensures !inCsw && old(pendCsw) ==> qend == old(qend) && timer == old(timer)
      ensures inCsw || !old(pendCsw) ==> runq[..] == AllReadied(old(runq[..]), now) && TimerInTime(runq[..], qend, now, timer)
      ensures inCsw || !old(pendCsw) ==>
        qend == if RoundRobins(runq[..], old(cur), now >= old(qend)) then now + RRQUANTUM else old(qend)
      ensures inCsw ==> Chosen(runq[..], old(cur), now >= old(qend), cur) && posted == old(posted)
      ensures inCsw ==> pendCsw == (old(pendCsw) && cur == old(cur))
      ensures !inCsw ==> cur == old(cur)
      ensures !inCsw && !old(pendCsw) ==> Requested(runq[..], cur, now >= old(qend), iplCount, old(posted), posted, pendCsw)
    {
      hide TopOf, FirstPeer, CountEqual, AllReadied, Peer, TimerInTime, RoundRobins, Equal, SomeRunnable, Runs;
      if !inCsw && pendCsw {
        return;
      }
      var next := PickNext(now);
      if next != cur {
        pendCsw := false;
        if inCsw {
          cur := next;
        } else if iplCount == 0 {
          posted := true;
        } else {
          pendCsw := true;
        }
      }
    }

    /** `ContextSwitch`, but for the switch itself, which `Rotate` makes. */
    method ContextSwitch()
      modifies this`pendCsw, this`posted
      ensures posted && !pendCsw
    {
      pendCsw := false;
      posted := true;
    }

    /** `WakeAll` */
    method WakeAll(ob: int)
      requires Valid()
      modifies runq, this`pendCsw, this`posted
      ensures |runq[..]| == |old(runq[..])|
      ensures forall i :: 0 <= i < runq.Length ==> runq[i] == Woken(old(runq[i]), ob)
      ensures posted == (old(posted) || UrgentWaiter(old(runq[..]), cur, ob, runq.Length))
      ensures pendCsw == (old(pendCsw) && !UrgentWaiter(old(runq[..]), cur, ob, runq.Length))
    {
      var cx := false;
      ghost var q := runq[..];
      for i := 0 to runq.Length
        invariant forall j :: 0 <= j < runq.Length ==> runq[j] == if j < i then Woken(q[j], ob) else q[j]
        invariant cx == UrgentWaiter(q, cur, ob, i) && posted == old(posted) && pendCsw == old(pendCsw)
      {
        var t := runq[i];
        assert t == q[i] && runq[cur].prio == q[cur].prio;
        assert Waits(q, i, ob) == ((t.state.Wait? || t.state.TWait?) && t.waitob == ob);
        if (t.state.Wait? || t.state.TWait?) && t.waitob == ob {
          runq[i] := t.(state := Run);
          if t.prio > runq[cur].prio {
            cx := true;
          }
        }
      }
      if cx {
        ContextSwitch();
      }
    }

    /** `WakeSingle` */
    method WakeSingle(ob: int)
      requires Valid()
      modifies runq, this`pendCsw, this`posted
      ensures OneWoken(old(runq[..]), runq[..], ob)
      ensures var switch := exists i {:trigger old(runq[..])[i]} ::
                && FirstWaiter(old(runq[..]), runq.Length, ob, i) && i != NOBODY
                && (old(runq[..])[i].prio > runq[cur].prio || !runq[cur].state.Run?);
              posted == (old(posted) || switch) && pendCsw == (old(pendCsw) && !switch)
    {
      var top := NOBODY;
      ghost var q := runq[..];
      for i := 0 to runq.Length
        invariant FirstWaiter(q, i, ob, top)
      {
        var t := runq[i];
        if (t.state.Wait? || t.state.TWait?) && t.waitob == ob && (top == NOBODY || t.prio > runq[top].prio) {
          top := i;
        }
      }
      if top != NOBODY {
        runq[top] := runq[top].(state := Run);
        assert runq[..] == q[top := q[top].(state := Run)];
        if runq[top].prio > runq[cur].prio || !runq[cur].state.Run? {
          ContextSwitch();
        }
      }
    }

    /** `WaitFor` up to the wait for an interrupt: the thread is blocked, and a switch is under way. */
    method WaitFor(ob: int, now: int)
      requires Valid() && runq[cur].state.Run?
      requires SomeRunnable(runq[..][cur := runq[cur].(state := Wait, waitob := ob)], now)
      modifies runq, this
      ensures Valid() && cur == old(cur) && (posted || pendCsw)
      ensures runq[cur] == old(runq[cur]).(state := Wait, waitob := ob)
      ensures forall i :: 0 <= i < runq.Length && i != cur ==>
        runq[i] == if old(pendCsw) then old(runq[i]) else Readied(old(runq[i]), now)
    {
      ghost var q := runq[..];
      runq[cur] := runq[cur].(state := Wait, waitob := ob);
      assert runq[..] == q[cur := q[cur].(state := Wait, waitob := ob)];
      Rotate(false, now);
      assert forall i :: 0 <= i < runq.Length ==> runq[i] == runq[..][i];
    }

    /** `WaitFor` with a time limit: no wait at all when that has passed already. */
    method WaitUntil(ob: int, until: int, now: int)
      requires Valid() && runq[cur].state.Run?
      requires until > now ==> SomeRunnable(runq[..][cur := runq[cur].(state := TWait, waitob := ob, waittime := until)], now)
      modifies runq, this
      ensures Valid() && cur == old(cur)
      ensures until <= now ==> runq[..] == old(runq[..])
      ensures until > now ==> runq[cur] == old(runq[cur]).(state := TWait, waitob := ob, waittime := until) && (posted || pendCsw)
      ensures forall i :: 0 <= i < runq.Length && i != cur ==>
        runq[i] == if until <= now || old(pendCsw) then old(runq[i]) else Readied(old(runq[i]), now)
    {
      if until <= now {
        return;
      }
      ghost var q := runq[..];
      runq[cur] := runq[cur].(state := TWait, waitob := ob, waittime := until);
      assert runq[..] == q[cur := q[cur].(state := TWait, waitob := ob, waittime := until)];
      Rotate(false, now);
      assert forall i :: 0 <= i < runq.Length ==> runq[i] == runq[..][i];
    }

    /** Calls of `Rotate(true)`, each with the quantum over, while nothing more urgent runs or comes up: the
        threads as urgent as the current one take turns. */
    method TakeTurns(times: seq<int>)
      requires Valid() && Runs(runq[..], cur) && Unbeaten(runq[..], cur)
      requires times != [] ==> times[0] >= qend
      requires forall t {:trigger times[t]} :: 0 < t < |times| ==> times[t] >= times[t - 1] + RRQUANTUM
      requires forall i, t {:trigger runq[..][i], times[t]} :: 0 <= i < runq.Length && 0 <= t < |times| ==>
        runq[..][i] == Readied(runq[..][i], times[t])
      modifies runq, this
      ensures Valid() && runq[..] == old(runq[..])
      ensures InTurn(runq[..], old(cur), |times|, cur)
    {
      hide Chosen, TimerInTime, Equals, FirstPeer, TopOf, RoundRobins, NextPeer, InTurn;
      ghost var q, first := runq[..], cur;
      FirstTurn(q, cur);
      for t := 0 to |times|
        invariant Valid() && runq[..] == q && InTurn(q, first, t, cur)
        invariant Runs(q, cur) && Unbeaten(q, cur) && q[cur].prio == q[first].prio
        invariant t < |times| ==> times[t] >= qend
      {
        assert AllReadied(q, times[t]) == q by {
          assert forall i :: 0 <= i < runq.Length ==> q[i] == Readied(q[i], times[t]);
        }
        assert Readied(q[cur], times[t]).state.Run?;
        ghost var from := cur;
        Rotate(true, times[t]);
        NextTurn(q, first, t, from, cur);
      }
    }
  }

  /** The first `i` threads are readied. */
  ghost predicate Passed(q: seq<Thread>, q': seq<Thread>, mid: seq<Thread>, i: int) {
    && |q| == |q'| == |mid| && 0 <= i <= |q|
    && forall j {:trigger mid[j]} :: 0 <= j < |q| ==> mid[j] == if j < i then q'[j] else q[j]
  }

  lemma PassStart(q: seq<Thread>, q': seq<Thread>, cur: int, now: int)
    requires q' == AllReadied(q, now) && 0 <= cur < |q|
    ensures Passed(q, q', q, 0) && EarliestWait(q', 0, NOBODY, now) && TopOf(q', 0, NOBODY) && CountEqual(q', cur, 0) == 0
    ensures FirstPeer(q', cur, 0, 0, NOBODY) && FirstPeer(q', cur, cur + 1, cur + 1, NOBODY)
  {}

  lemma PassedAt(q: seq<Thread>, q': seq<Thread>, mid: seq<Thread>, i: int, now: int)
    requires q' == AllReadied(q, now) && Passed(q, q', mid, i) && i < |q|
    ensures mid[i] == q[i] && q'[i] == Readied(q[i], now) && Passed(q, q', mid[i := q'[i]], i + 1)
    ensures forall j {:trigger mid[j].prio} :: 0 <= j < |q| ==> mid[j].prio == q'[j].prio
    ensures forall j {:trigger mid[j].waittime} :: 0 <= j < |q| ==> mid[j].waittime == q'[j].waittime
  {}

  /** What one round of the pass makes of its results. */
  lemma PassStep(q: seq<Thread>, cur: int, i: int, now: int, wake: int, top: int, firstrun: int, nextrun: int)
    requires 0 <= cur < |q| && 0 <= i < |q| && (q[i].state.TWait? ==> q[i].waittime > now)
    requires EarliestWait(q, i, wake, now) && TopOf(q, i, top)
    requires FirstPeer(q, cur, 0, if cur < i then cur else i, firstrun)
    requires FirstPeer(q, cur, cur + 1, if cur < i then i else cur + 1, nextrun)
    ensures (wake != NOBODY ==> 0 <= wake < i) && (top != NOBODY ==> 0 <= top < i)
    ensures var wake' := if q[i].state.TWait? && (wake == NOBODY || q[i].waittime < q[wake].waittime) then i else wake;
            EarliestWait(q, i + 1, wake', now)
    ensures var top' := if q[i].state.Run? && (top == NOBODY || q[i].prio > q[top].prio) then i else top;
            TopOf(q, i + 1, top')
    ensures CountEqual(q, cur, i + 1) == CountEqual(q, cur, i) + if q[i].state.Run? && q[i].prio == q[cur].prio then 1 else 0
    ensures var peer := q[i].state.Run? && q[i].prio == q[cur].prio && i != cur;
      && FirstPeer(q, cur, 0, if cur < i + 1 then cur else i + 1, if peer && i < cur && firstrun == NOBODY then i else firstrun)
      && FirstPeer(q, cur, cur + 1, if cur < i + 1 then i + 1 else cur + 1,
                   if peer && cur < i && nextrun == NOBODY then i else nextrun)
  {}

  ghost function AllReadied(q: seq<Thread>, now: int): (r: seq<Thread>)
    ensures |r| == |q|
  {
    seq(|q|, i requires 0 <= i < |q| => Readied(q[i], now))
  }

  /** `wake` is the thread, of the first `n`, whose timed wait ends first. */
  ghost predicate EarliestWait(q: seq<Thread>, n: int, wake: int, now: int) {
    && 0 <= n <= |q|
    && if wake == NOBODY then forall i {:trigger q[i]} :: 0 <= i < n ==> !q[i].state.TWait?
       else
         && 0 <= wake < n && q[wake].state.TWait? && q[wake].waittime > now
         && forall i {:trigger q[i]} :: 0 <= i < n && q[i].state.TWait? ==> q[wake].waittime <= q[i].waittime
  }

  /** Of the first `n` threads, those that are runnable are less urgent than `top`, or as urgent and behind it. */
  ghost predicate Foremost(q: seq<Thread>, n: int, top: int)
    requires 0 <= top < |q|
  {
    forall i {:trigger Runs(q, i)} :: i < n && Runs(q, i) ==>
      q[i].prio <= q[top].prio && (i < top ==> q[i].prio < q[top].prio)
  }

  /** `top` is the first of the most urgent runnable threads among the first `n`. */
  ghost predicate TopOf(q: seq<Thread>, n: int, top: int) {
    && 0 <= n <= |q|
    && if top == NOBODY then forall i {:trigger Runs(q, i)} :: 0 <= i < n ==> !Runs(q, i)
       else 0 <= top < n && Runs(q, top) && Foremost(q, n, top)
  }

  /** `first` is the first peer from `lo` up to `hi`. */
  ghost predicate FirstPeer(q: seq<Thread>, cur: int, lo: int, hi: int, first: int) {
    if first == NOBODY then forall i {:trigger Peer(q, cur, i)} :: lo <= i < hi ==> !Peer(q, cur, i)
    else lo <= first < hi && Peer(q, cur, first) && forall i {:trigger Peer(q, cur, i)} :: lo <= i < first ==> !Peer(q, cur, i)
  }

  function CountEqual(q: seq<Thread>, cur: int, n: nat): nat {
    if n == 0 then 0 else CountEqual(q, cur, n - 1) + if Equal(q, cur, n - 1) then 1 else 0
  }

  /** Some thread is runnable after the pass; without one the source reads through a null pointer. */
  ghost predicate SomeRunnable(q: seq<Thread>, now: int) {
    exists i {:trigger q[i]} :: 0 <= i < |q| && Readied(q[i], now).state.Run?
  }

  /** No runnable thread is more urgent than thread `p`. */
  ghost predicate Unbeaten(q: seq<Thread>, p: int) {
    0 <= p < |q| && forall i {:trigger Runs(q, i)} :: Runs(q, i) ==> q[i].prio <= q[p].prio
  }

  /** The next peer in the round: the first one behind `cur`, or else the first one of all. */
  ghost predicate NextPeer(q: seq<Thread>, cur: int, next: int) {
    || (next != NOBODY && FirstPeer(q, cur, cur + 1, |q|, next))
    || (next != NOBODY && FirstPeer(q, cur, cur + 1, |q|, NOBODY) && FirstPeer(q, cur, 0, cur, next))
  }

  /** The quantum is over, nothing more urgent runs, and there is somebody to take turns with. */
  ghost predicate RoundRobins(q: seq<Thread>, cur: int, over: bool) {
    over && Unbeaten(q, cur) && CountEqual(q, cur, |q|) > 1
  }

  /** The choice: a runnable thread that none beats; the current one when its turn is not over. */
  ghost predicate Chosen(q: seq<Thread>, cur: int, over: bool, next: int) {
    && Runs(q, next) && Unbeaten(q, next)
    && (RoundRobins(q, cur, over) ==> NextPeer(q, cur, next))
    && (!RoundRobins(q, cur, over) ==>
          (if Runs(q, cur) && Unbeaten(q, cur) then next == cur else TopOf(q, |q|, next)))
  }

  /** A context switch is requested exactly when the choice is another thread. */
  ghost predicate Requested(q: seq<Thread>, cur: int, over: bool, iplCount: nat, was: bool, posted: bool, pendCsw: bool) {
    exists next {:trigger Chosen(q, cur, over, next)} ::
      && Chosen(q, cur, over, next)
      && pendCsw == (next != cur && iplCount > 0)
      && posted == (was || (next != cur && iplCount == 0))
  }

  /** The next time something has to happen: a timed wait ends, or the quantum, or ten seconds have passed. */
  ghost predicate IsDeadline(q: seq<Thread>, qend: int, now: int, d: int) {
    || (d == qend && qend > now)
    || (d == now + UPPER_BOUND && forall i {:trigger q[i]} :: 0 <= i < |q| ==> !q[i].state.TWait?)
    || exists i {:trigger q[i]} :: 0 <= i < |q| && q[i].state.TWait? && q[i].waittime == d
  }

  /** All deadlines are ahead, and the timer, if it is not set to its least delay, comes no later than any of
      them; it comes at one of them unless all are too far ahead for an unsigned 32-bit delay. */
  ghost predicate TimerInTime(q: seq<Thread>, qend: int, now: int, timer: int) {
    && 5 <= timer < UINT_RANGE
    && (forall d {:trigger IsDeadline(q, qend, now, d)} ::
          IsDeadline(q, qend, now, d) ==> d > now && (timer == 5 || now + timer <= d))
    && (|| timer == 5 || IsDeadline(q, qend, now, now + timer)
        || forall d {:trigger IsDeadline(q, qend, now, d)} :: IsDeadline(q, qend, now, d) ==> d - now >= UINT_RANGE)
  }

  lemma PassedTable(q: seq<Thread>, q': seq<Thread>, cur: int, now: int, wake: int, top: int, numrun: int, firstrun: int, nextrun: int)
    requires 0 <= cur < |q| && SomeRunnable(q, now) && q' == AllReadied(q, now)
    requires EarliestWait(q', |q'|, wake, now) && TopOf(q', |q'|, top) && numrun == CountEqual(q', cur, |q'|)
    requires FirstPeer(q', cur, 0, cur, firstrun) && FirstPeer(q', cur, cur + 1, |q'|, nextrun)
    ensures |q'| == |q| && (wake != NOBODY ==> 0 <= wake < |q|) && 0 <= top < |q|
  {
    var i :| 0 <= i < |q| && Readied(q[i], now).state.Run?;
    assert Runs(q', i);
  }

  lemma {:induction false} CountNoPeers(q: seq<Thread>, cur: int, n: nat)
    requires n <= |q| && 0 <= cur < |q|
    requires forall i {:trigger Peer(q, cur, i)} :: 0 <= i < n ==> !Peer(q, cur, i)
    ensures CountEqual(q, cur, n) <= 1 && (n <= cur ==> CountEqual(q, cur, n) == 0)
  {
    if n > 0 {
      CountNoPeers(q, cur, n - 1);
      assert !Peer(q, cur, n - 1);
    }
  }

  /** The three-way choice takes what `Chosen` asks for. */
  lemma ChoiceMade(q: seq<Thread>, cur: int, top: int, numrun: int, firstrun: int, nextrun: int, over: bool)
    requires 0 <= cur < |q| && 0 <= top < |q|
    requires TopOf(q, |q|, top) && numrun == CountEqual(q, cur, |q|)
    requires FirstPeer(q, cur, 0, cur, firstrun) && FirstPeer(q, cur, cur + 1, |q|, nextrun)
    ensures q[top].prio > q[cur].prio ==> !RoundRobins(q, cur, over) && Chosen(q, cur, over, top)
    ensures q[top].prio <= q[cur].prio && numrun > 1 && over ==>
      RoundRobins(q, cur, over) && Chosen(q, cur, over, if nextrun != NOBODY then nextrun else firstrun)
    ensures q[top].prio <= q[cur].prio && !(numrun > 1 && over) ==>
      !RoundRobins(q, cur, over) && Chosen(q, cur, over, if q[cur].state.Run? then cur else top)
  {
    if nextrun == NOBODY && firstrun == NOBODY {
      CountNoPeers(q, cur, |q|);
    }
  }

  lemma DeadlineMet(q: seq<Thread>, qend: int, now: int, wake: int)
    requires EarliestWait(q, |q|, wake, now)
    ensures wake != NOBODY ==> 0 <= wake < |q|
    ensures
      var due := if wake != NOBODY then q[wake].waittime else now + UPPER_BOUND;
      var usec := ((if qend > now && qend <= due then qend else due) - now) % UINT_RANGE;
      TimerInTime(q, qend, now, if usec < 5 then 5 else usec)
  {
    var due := if wake != NOBODY then q[wake].waittime else now + UPPER_BOUND;
    var at := if qend > now && qend <= due then qend else due;
    assert IsDeadline(q, qend, now, at);
    Reduced(at - now);
  }

  lemma Reduced(n: int)
    requires n > 0
    ensures 0 <= n % UINT_RANGE <= n && (n < UINT_RANGE ==> n % UINT_RANGE == n)
  {}

  predicate Waits(q: seq<Thread>, i: int, ob: int) {
    0 <= i < |q| && (q[i].state.Wait? || q[i].state.TWait?) && q[i].waitob == ob
  }

  /** One of the first `n` threads waits for `ob` and is more urgent than the current one. */
  ghost predicate UrgentWaiter(q: seq<Thread>, cur: int, ob: int, n: int)
    requires 0 <= cur < |q|
  {
    exists i {:trigger Waits(q, i, ob)} :: i < n && Waits(q, i, ob) && q[i].prio > q[cur].prio
  }

  function Woken(t: Thread, ob: int): Thread {
    if (t.state.Wait? || t.state.TWait?) && t.waitob == ob then t.(state := Run) else t
  }

  /** `top` is the first of the most urgent threads, of the first `n`, that wait for `ob`. */
  ghost predicate FirstWaiter(q: seq<Thread>, n: int, ob: int, top: int) {
    && 0 <= n <= |q|
    && if top == NOBODY then forall i {:trigger Waits(q, i, ob)} :: 0 <= i < n ==> !Waits(q, i, ob)
       else
         && 0 <= top < n && Waits(q, top, ob)
         && forall i {:trigger Waits(q, i, ob)} :: i < n && Waits(q, i, ob) ==>
              q[i].prio <= q[top].prio && (i < top ==> q[i].prio < q[top].prio)
  }

  /** Of the threads that wait for `ob`, the first of the most urgent ones is runnable now; nothing else changes. */
  ghost predicate OneWoken(q: seq<Thread>, q': seq<Thread>, ob: int) {
    exists top {:trigger FirstWaiter(q, |q|, ob, top)} ::
      FirstWaiter(q, |q|, ob, top) && q' == if top == NOBODY then q else q[top := q[top].(state := Run)]
  }

  /** The runnable threads with a priority, of the first `n`, in the order of the table. */
  function Equals(q: seq<Thread>, prio: int, n: nat): seq<int>
    requires n <= |q|
  {
    if n == 0 then []
    else Equals(q, prio, n - 1) + if q[n - 1].state.Run? && q[n - 1].prio == prio then [n - 1] else []
  }

  lemma {:induction false} EqualsMembers(q: seq<Thread>, prio: int, n: nat)
    requires n <= |q|
    ensures forall i :: i in Equals(q, prio, n) <==> 0 <= i < n && Runs(q, i) && q[i].prio == prio
    ensures Ascends(Equals(q, prio, n))
  {
    if n > 0 {
      EqualsMembers(q, prio, n - 1);
      var before := Equals(q, prio, n - 1);
      assert forall a :: 0 <= a < |before| ==> before[a] in before;
    }
  }

  predicate Ascends(s: seq<int>) {
    forall a, b :: 0 <= a < b < |s| ==> s[a] < s[b]
  }

  lemma {:induction false} EqualsCounted(q: seq<Thread>, cur: int, n: nat)
    requires n <= |q| && 0 <= cur < |q|
    ensures |Equals(q, q[cur].prio, n)| == CountEqual(q, cur, n)
  {
    if n > 0 {
      EqualsCounted(q, cur, n - 1);
    }
  }

  /** `round` lists the threads as urgent as `cur`. */
  ghost predicate Round(q: seq<Thread>, cur: int, round: seq<int>) {
    Ascends(round) && forall i {:trigger Equal(q, cur, i)} {:trigger i in round} :: i in round <==> Equal(q, cur, i)
  }

  lemma InRound(q: seq<Thread>, cur: int, round: seq<int>, a: int)
    requires Round(q, cur, round) && 0 <= a < |round|
    ensures Equal(q, cur, round[a])
  {
    assert round[a] in round;
  }

  lemma PlaceOf(q: seq<Thread>, cur: int, round: seq<int>, i: int) returns (m: int)
    requires Round(q, cur, round) && Equal(q, cur, i)
    ensures 0 <= m < |round| && round[m] == i
  {
    assert i in round;
    m :| 0 <= m < |round| && round[m] == i;
  }

  /** The next peer is the one behind the current thread in the list of its equals, which closes to a ring. */
  lemma NextInRing(q: seq<Thread>, cur: int, round: seq<int>, k: int, next: int)
    requires 0 <= cur < |q| && NextPeer(q, cur, next) && Round(q, cur, round) && 0 <= k < |round| && round[k] == cur
    ensures next == round[if k + 1 < |round| then k + 1 else 0]
  {
    hide Round;
    var m := PlaceOf(q, cur, round, next);
    var after := if k + 1 < |round| then k + 1 else 0;
    InRound(q, cur, round, after);
    assert Ascends(round) by { AscendsOf(q, cur, round); }
    assert k + 1 < |round| ==> Peer(q, cur, round[k + 1]);
    assert k + 1 == |round| && m > 0 ==> Peer(q, cur, round[0]);
  }

  lemma AscendsOf(q: seq<Thread>, cur: int, round: seq<int>)
    requires Round(q, cur, round)
    ensures Ascends(round)
  {}

  /** After `turns` turns from `first` on it is the turn of thread `cur`, the turns going round the threads with
      the priority of `first` in the order of the table. */
  ghost predicate InTurn(q: seq<Thread>, first: int, turns: nat, cur: int)
    requires 0 <= first < |q|
  {
    exists k {:trigger TurnAt(Equals(q, q[first].prio, |q|), k, first, turns, cur)} ::
      TurnAt(Equals(q, q[first].prio, |q|), k, first, turns, cur)
  }

  predicate TurnAt(round: seq<int>, k: int, first: int, turns: nat, cur: int) {
    0 <= k < |round| && round[k] == first && round[(k + turns) % |round|] == cur
  }

  lemma FirstTurn(q: seq<Thread>, cur: int)
    requires Runs(q, cur)
    ensures InTurn(q, cur, 0, cur)
  {
    EqualsMembers(q, q[cur].prio, |q|);
    var round := Equals(q, q[cur].prio, |q|);
    assert cur in round;
    var k :| 0 <= k < |round| && round[k] == cur;
    FirstTurnAt(round, k);
  }

  lemma FirstTurnAt(round: seq<int>, k: int)
    requires 0 <= k < |round|
    ensures TurnAt(round, k, round[k], 0, round[k])
  {
    assert k + 0 == k && k % |round| == k;
  }

  lemma NextTurn(q: seq<Thread>, first: int, turns: nat, from: int, cur: int)
    requires 0 <= first < |q| && InTurn(q, first, turns, from)
    requires Runs(q, from) && Unbeaten(q, from) && q[from].prio == q[first].prio
    requires Chosen(q, from, true, cur)
    ensures InTurn(q, first, turns + 1, cur)
    ensures Runs(q, cur) && Unbeaten(q, cur) && q[cur].prio == q[first].prio
  {
    ChosenAlike(q, from, cur);
    hide Chosen, Unbeaten, Runs, Equals;
    var round := Equals(q, q[first].prio, |q|);
    var k :| TurnAt(round, k, first, turns, from);
    TurnPasses(q, from, round, (k + turns) % |round|, cur);
    NextTurnAt(round, k, first, turns, from, cur);
  }

  lemma NextTurnAt(round: seq<int>, k: int, first: int, turns: nat, from: int, cur: int)
    requires TurnAt(round, k, first, turns, from)
    requires var at := (k + turns) % |round|; cur == round[if at + 1 < |round| then at + 1 else 0]
    ensures TurnAt(round, k, first, turns + 1, cur)
  {
    RingStep(k + turns, |round|);
  }

  lemma ChosenAlike(q: seq<Thread>, from: int, cur: int)
    requires Runs(q, from) && Unbeaten(q, from) && Chosen(q, from, true, cur)
    ensures Runs(q, cur) && Unbeaten(q, cur) && q[cur].prio == q[from].prio
  {}

  lemma TurnPasses(q: seq<Thread>, from: int, round: seq<int>, at: int, cur: int)
    requires Runs(q, from) && Unbeaten(q, from) && Chosen(q, from, true, cur)
    requires round == Equals(q, q[from].prio, |q|) && 0 <= at < |round| && round[at] == from
    ensures cur == round[if at + 1 < |round| then at + 1 else 0]
  {
    hide FirstPeer, TopOf;
    EqualsMembers(q, q[from].prio, |q|);
    EqualsCounted(q, from, |q|);
    assert Round(q, from, round);
    if RoundRobins(q, from, true) {
      NextInRing(q, from, round, at, cur);
    }
  }

  lemma RingStep(a: nat, n: nat)
    requires n > 0
    ensures (a + 1) % n == if a % n + 1 < n then a % n + 1 else 0
  {
    var r := a % n;
    assert a == a / n * n + r;
    if r + 1 < n {
      ModIs(a + 1, n, a / n, r + 1);
    } else {
      assert a + 1 == (a / n + 1) * n + 0;
      ModIs(a + 1, n, a / n + 1, 0);
    }
  }

  lemma ModIs(a: nat, n: nat, d: nat, r: nat)
    requires r < n && a == d * n + r
    ensures a % n == r
  {
    var e := a / n - d;
    assert e * n == r - a % n by {
      assert (d + e) * n == d * n + e * n;
    }
    assert e == 0 by {
      if e != 0 {
        Apart(e, n);
      }
    }
  }

  lemma Apart(e: int, n: nat)
    requires e != 0
    ensures e * n >= n || e * n + n <= 0
  {
    if e > 0 {
      Product(e - 1, n);
    } else {
      Product(-e - 1, n);
    }
  }

  lemma Product(x: nat, n: nat)
    ensures x * n >= 0 && (x + 1) * n == x * n + n && -(x + 1) * n == -(x * n) - n
  {}
}
