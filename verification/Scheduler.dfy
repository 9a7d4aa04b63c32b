/** The per-CPU scheduler: ready, sleeping, waiting and zombie queues, and stride selection with
per-thread cooldowns. The tick count is fixed within one call of `Schedule`. */
module Scheduler {
  import opened Common

  datatype ThreadState = Ready | Running | Blocked | Sleeping | Zombie | Terminated

  /** `Unlisted` stands for any value outside the enumeration. */
  datatype Priority = Idle | Low | Normal | High | Ultra | Super | KernelPriority | Unlisted

  function Stride(p: Priority): (r: nat)
    ensures 1 <= r <= 64
  {
    match p
    case KernelPriority => 1
    case Super => 2
    case Ultra => 4
    case High => 8
    case Normal => 16
    case Low => 32
    case Idle => 64
    case Unlisted => 16
  }

  datatype Thread = Thread(state: ThreadState, priority: Priority, cooldown: nat, wakeup: nat)

  type Threads = map<nat, Thread>

  /** A CPU's scheduler: thread records by id, the four queues, the running thread and the count. */
  datatype Cpu = Cpu(threads: Threads, ready: seq<nat>, sleeping: seq<nat>, waiting: seq<nat>,
                     zombie: seq<nat>, current: Option<nat>, readyCount: nat)
  {
    /** In how many places thread `t` is: the queues, with repetition, and running. */
    function Places(t: nat): nat {
      Count(ready, t) + Count(sleeping, t) + Count(waiting, t) + Count(zombie, t)
      + (if current == Some(t) then 1 else 0)
    }
  }

  function Count(q: seq<nat>, t: nat): nat {
    if q == [] then 0 else (if q[0] == t then 1 else 0) + Count(q[1..], t)
  }

  lemma {:induction false} CountConcat(a: seq<nat>, b: seq<nat>, t: nat)
    ensures Count(a + b, t) == Count(a, t) + Count(b, t)
  {
    if a == [] {
      assert a + b == b;
    } else {
      assert (a + b)[1..] == a[1..] + b;
      CountConcat(a[1..], b, t);
    }
  }

  lemma {:induction false} CountMember(q: seq<nat>, t: nat)
    ensures Count(q, t) > 0 <==> t in q
  {
    if q != [] {
      assert q == [q[0]] + q[1..];
      CountMember(q[1..], t);
    }
  }

  function Cd(th: Threads, t: nat): nat { if t in th then th[t].cooldown else 0 }

  function WithState(th: Threads, t: nat, st: ThreadState): Threads {
    if t in th then th[t := th[t].(state := st)] else th
  }

  /** No thread is in two places, the count is the ready queue's length, ready threads are marked
      ready, and cooldowns stay below the largest stride. */
  ghost predicate Inv(s: Cpu) {
    && (forall t :: s.Places(t) <= 1)
    && (forall t :: s.Places(t) > 0 ==> t in s.threads)
    && s.readyCount == |s.ready|
    && (forall t :: t in s.ready ==> t in s.threads && s.threads[t].state == Ready)
    && (forall t :: t in s.threads ==> s.threads[t].cooldown <= 63)
  }

  // ---- Queue operations ----

  function AddReady(s: Cpu, t: nat): Cpu {
    s.(threads := WithState(s.threads, t, Ready), ready := s.ready + [t], readyCount := s.readyCount + 1)
  }

  function AddWaiting(s: Cpu, t: nat): Cpu {
    s.(threads := WithState(s.threads, t, Blocked), waiting := [t] + s.waiting)
  }

  function AddZombie(s: Cpu, t: nat): Cpu {
    s.(threads := WithState(s.threads, t, Zombie), zombie := [t] + s.zombie)
  }

  function AddSleeping(s: Cpu, t: nat): Cpu {
    s.(threads := WithState(s.threads, t, Sleeping), sleeping := [t] + s.sleeping)
  }

  /** The running thread goes to the queue its state names; unknown states count as ready. */
  function Retire(s: Cpu): Cpu {
    if s.current == None || s.current.value !in s.threads then s.(current := None)
    else
      var t, s' := s.current.value, s.(current := None);
      match s.threads[t].state
      case Terminated => AddZombie(s', t)
      case Blocked => AddWaiting(s', t)
      case Sleeping => AddSleeping(s', t)
      case _ => AddReady(s', t)
  }

  predicate IsDue(th: Threads, now: nat, t: nat) { t in th && th[t].wakeup <= now }

  /** The due sleepers, in queue order. */
  function Due(th: Threads, now: nat, q: seq<nat>): seq<nat> {
    if q == [] then [] else (if IsDue(th, now, q[0]) then [q[0]] else []) + Due(th, now, q[1..])
  }

  function NotDue(th: Threads, now: nat, q: seq<nat>): seq<nat> {
    if q == [] then [] else (if IsDue(th, now, q[0]) then [] else [q[0]]) + NotDue(th, now, q[1..])
  }

  function Awake(th: Threads, woken: seq<nat>): (r: Threads)
    ensures r.Keys == th.Keys
  {
    map t | t in th :: if t in woken then th[t].(state := Ready, wakeup := 0) else th[t]
  }

  /** Exactly the due sleepers move to the ready tail, in order. */
  function Wake(s: Cpu, now: nat): Cpu {
    var due := Due(s.threads, now, s.sleeping);
    s.(threads := Awake(s.threads, due), sleeping := NotDue(s.threads, now, s.sleeping),
       ready := s.ready + due, readyCount := s.readyCount + |due|)
  }

  /** Zombies are destroyed; a record cannot be destroyed twice without touching freed memory. */
  function Reap(s: Cpu): Cpu {
    s.(threads := s.threads - (set t | t in s.zombie), zombie := [])
  }

  // ---- Selection in closed form ----

  /** The first index with the least cooldown. */
  function Pick(th: Threads, q: seq<nat>): (i: nat)
    requires q != []
    ensures i < |q| && IsPick(th, q, i)
  {
    if |q| == 1 then 0
    else
      var j := Pick(th, q[1..]) + 1;
      if Cd(th, q[0]) <= Cd(th, q[j]) then 0 else j
  }

  predicate IsPick(th: Threads, q: seq<nat>, i: nat) {
    && i < |q|
    && (forall j :: 0 <= j < |q| ==> Cd(th, q[i]) <= Cd(th, q[j]))
    && (forall j :: 0 <= j < i ==> Cd(th, q[j]) > Cd(th, q[i]))
  }

  /** Threads ahead of the pick cooled down once more than those behind it; the pick is running and
      starts a new stride. */
  function Cooled(th: Threads, q: seq<nat>, i: nat): (r: Threads)
    requires i < |q|
    ensures r.Keys == th.Keys
  {
    var m := Cd(th, q[i]);
    map t | t in th ::
      if t == q[i] then th[t].(cooldown := Stride(th[t].priority) - 1, state := Running)
      else if t in q[..i] then th[t].(cooldown := Less(th[t].cooldown, m + 1))
      else if t in q[i + 1..] then th[t].(cooldown := Less(th[t].cooldown, m))
      else th[t]
  }

  function Less(a: nat, b: nat): nat { if b <= a then a - b else 0 }

  function Dispatch(s: Cpu): Cpu
    requires s.ready != []
  {
    var i := Pick(s.threads, s.ready);
    s.(threads := Cooled(s.threads, s.ready, i), ready := s.ready[i + 1..] + s.ready[..i],
       current := Some(s.ready[i]), readyCount := Less(s.readyCount, 1))
  }

  function Finish(s: Cpu): Cpu {
    if s.ready == [] then s.(current := None) else Dispatch(s)
  }

  /** The records one call of `Schedule` destroys, one entry for every call of DestroyThread. */
  function Destroyed(s: Cpu): seq<nat> { Retire(s).zombie }

  /** What one call of `Schedule` does, with no loop in sight. */
  function ScheduleSpec(s: Cpu, now: nat): Cpu { Finish(Reap(Wake(Retire(s), now))) }

  // ---- The selection loop against the closed form ----

  /** One turn of the loop over a cooling thread: decrement and requeue at the tail. */
  function Rotate(s: Cpu): Cpu
    requires s.ready != [] && s.ready[0] in s.threads && s.threads[s.ready[0]].cooldown > 0
  {
    var t := s.ready[0];
    s.(threads := s.threads[t := s.threads[t].(cooldown := s.threads[t].cooldown - 1, state := Ready)],
       ready := s.ready[1..] + [t])
  }

  lemma PickUnique(th: Threads, q: seq<nat>, i: nat)
    requires IsPick(th, q, i)
    ensures Pick(th, q) == i
  {
    var j := Pick(th, q);
    assert j >= i && i >= j;
  }

  ghost predicate Ranked(s: Cpu) {
    && NoDup(s.ready)
    && forall t :: t in s.ready ==> t in s.threads && s.threads[t].state == Ready
  }

  /** Where the pick is after one turn. */
  lemma RotatePick(s: Cpu)
    requires Ranked(s) && s.ready != [] && s.threads[s.ready[0]].cooldown > 0
    ensures var i := Pick(s.threads, s.ready);
      Pick(Rotate(s).threads, Rotate(s).ready) == if i == 0 then |s.ready| - 1 else i - 1
  {
    var q, q', th, th' := s.ready, Rotate(s).ready, s.threads, Rotate(s).threads;
    var i := Pick(th, q);
    var i' := if i == 0 then |q| - 1 else i - 1;
    forall j | 0 <= j < |q| ensures Cd(th', q'[j]) == if j == |q| - 1 then Cd(th, q[0]) - 1 else Cd(th, q[j + 1]) {
      if j < |q| - 1 { assert q'[j] == q[j + 1] && q[j + 1] != q[0]; }
    }
    assert IsPick(th', q', i');
    PickUnique(th', q', i');
  }

  /** The heart of the closed form: a turn of the loop does not change what will be selected, what
      queue it leaves behind, or any cooldown it ends with. */
  lemma RotateDispatch(s: Cpu)
    requires Ranked(s) && s.ready != [] && s.threads[s.ready[0]].cooldown > 0
    ensures Dispatch(Rotate(s)) == Dispatch(s)
  {
    hide Pick, IsPick, Cooled;
    RotatePick(s);
    var q, i := s.ready, Pick(s.threads, s.ready);
    PickFacts(s.threads, q);
    if i == 0 {
      RotateCooledFirst(s);
      RotatedAt(q, |q| - 1);
    } else {
      RotateCooledLater(s, i);
      RotatedAt(q, i - 1);
    }
  }

  /** Removing index `i` of a rotated queue, against removing it from the queue itself. */
  lemma RotatedAt(q: seq<nat>, i: nat)
    requires i < |q|
    ensures var r := q[1..] + [q[0]];
      && (i == |q| - 1 ==> r[i] == q[0] && r[i + 1..] + r[..i] == q[1..] + q[..0])
      && (i < |q| - 1 ==> r[i] == q[i + 1] && r[i + 1..] + r[..i] == q[i + 2..] + q[..i + 1])
  {
    var r := q[1..] + [q[0]];
    if i == |q| - 1 {
      assert r[..i] == q[1..];
    } else {
      assert r[i + 1..] == q[i + 2..] + [q[0]];
      assert q[..i + 1] == [q[0]] + r[..i];
    }
  }

  lemma PickFacts(th: Threads, q: seq<nat>)
    requires q != []
    ensures var i := Pick(th, q);
      i < |q| && (forall j :: 0 <= j < |q| ==> Cd(th, q[i]) <= Cd(th, q[j]))
              && (forall j :: 0 <= j < i ==> Cd(th, q[j]) > Cd(th, q[i]))
  {
  }

  lemma RotateCooledFirst(s: Cpu)
    requires Ranked(s) && s.ready != [] && s.threads[s.ready[0]].cooldown > 0
    requires forall j :: 0 <= j < |s.ready| ==> Cd(s.threads, s.ready[0]) <= Cd(s.threads, s.ready[j])
    ensures Cooled(Rotate(s).threads, Rotate(s).ready, |s.ready| - 1) == Cooled(s.threads, s.ready, 0)
  {
    hide Stride;
    var q, q', th, th' := s.ready, Rotate(s).ready, s.threads, Rotate(s).threads;
    assert q'[..|q| - 1] == q[1..] && q'[|q| - 1] == q[0] && q'[|q|..] == [];
    assert th'.Keys == th.Keys;
    assert q[0] !in q[1..];
    forall t | t in th
      ensures Cooled(th', q', |q| - 1)[t] == Cooled(th, q, 0)[t]
    {
      assert t in q[1..] ==> t in q && t != q[0];
    }
  }

  lemma RotateCooledLater(s: Cpu, i: nat)
    requires Ranked(s) && s.ready != [] && s.threads[s.ready[0]].cooldown > 0 && 0 < i < |s.ready|
    requires forall j :: 0 <= j < |s.ready| ==> Cd(s.threads, s.ready[i]) <= Cd(s.threads, s.ready[j])
    requires forall j :: 0 <= j < i ==> Cd(s.threads, s.ready[j]) > Cd(s.threads, s.ready[i])
    ensures Cooled(Rotate(s).threads, Rotate(s).ready, i - 1) == Cooled(s.threads, s.ready, i)
  {
    hide Stride, Cooled;
    var q, q', th, th' := s.ready, Rotate(s).ready, s.threads, Rotate(s).threads;
    assert th'.Keys == th.Keys;
    forall t | t in th ensures Cooled(th', q', i - 1)[t] == Cooled(th, q, i)[t] { RotateCooledOne(s, i, t); }
  }

  /** One thread's record: the rotated head cooled one turn early, every other thread as before. */
  lemma RotateCooledOne(s: Cpu, i: nat, t: nat)
    requires Ranked(s) && s.ready != [] && s.threads[s.ready[0]].cooldown > 0 && 0 < i < |s.ready| && t in s.threads
    requires Cd(s.threads, s.ready[0]) > Cd(s.threads, s.ready[i])
    ensures Cooled(Rotate(s).threads, Rotate(s).ready, i - 1)[t] == Cooled(s.threads, s.ready, i)[t]
  {
    hide Stride;
    var q, q' := s.ready, Rotate(s).ready;
    RotatedParts(q, q', i);
    Apart(q, i, t);
  }

  /** The queue before and behind the pick, before and after the head went to the tail. */
  lemma RotatedParts(q: seq<nat>, q': seq<nat>, i: nat)
    requires NoDup(q) && 0 < i < |q| && q' == q[1..] + [q[0]]
    ensures q'[i - 1] == q[i] && q[i] != q[0] && q[0] !in q'[..i - 1] && q[0] in q'[i..]
    ensures q[0] in q[..i] && q[0] !in q[i + 1..]
    ensures forall t :: t != q[0] ==> (t in q'[..i - 1] <==> t in q[..i]) && (t in q'[i..] <==> t in q[i + 1..])
  {
    assert q'[i..] == q[i + 1..] + [q[0]];
    assert q'[..i - 1] == q[1..i];
    assert q[..i] == [q[0]] + q[1..i];
  }

  lemma Apart(q: seq<nat>, i: nat, t: nat)
    requires NoDup(q) && i < |q|
    ensures t in q[..i] ==> t != q[i] && t !in q[i + 1..]
    ensures t in q[i + 1..] ==> t != q[i]
  {
  }

  lemma {:induction false} DueAppend(th: Threads, now: nat, q: seq<nat>, t: nat)
    ensures Due(th, now, q + [t]) == Due(th, now, q) + (if IsDue(th, now, t) then [t] else [])
    ensures NotDue(th, now, q + [t]) == NotDue(th, now, q) + (if IsDue(th, now, t) then [] else [t])
  {
    if q != [] {
      assert (q + [t])[1..] == q[1..] + [t];
      DueAppend(th, now, q[1..], t);
    }
  }

  /** Waking splits the sleeping queue: every sleeper is due or stays, once. */
  lemma {:induction false} DueSplit(th: Threads, now: nat, q: seq<nat>)
    ensures forall t :: Count(Due(th, now, q), t) + Count(NotDue(th, now, q), t) == Count(q, t)
    ensures forall t :: t in Due(th, now, q) ==> t in q && IsDue(th, now, t)
    ensures forall t :: t in NotDue(th, now, q) ==> t in q && !IsDue(th, now, t)
  {
    if q != [] {
      DueSplit(th, now, q[1..]);
      assert q == [q[0]] + q[1..];
      var d := IsDue(th, now, q[0]);
      forall t ensures Count(Due(th, now, q), t) + Count(NotDue(th, now, q), t) == Count(q, t) {
        CountConcat(if d then [q[0]] else [], Due(th, now, q[1..]), t);
        CountConcat(if d then [] else [q[0]], NotDue(th, now, q[1..]), t);
      }
    }
  }

  /** With nobody due and no zombies, another turn of the loop head changes nothing. */
  lemma {:induction false} NothingDue(th: Threads, now: nat, q: seq<nat>)
    requires forall t :: t in q ==> !IsDue(th, now, t)
    ensures Due(th, now, q) == [] && NotDue(th, now, q) == q
  {
    if q != [] {
      NothingDue(th, now, q[1..]);
      assert q == [q[0]] + q[1..];
    }
  }

  /** The state of the wake-up loop after `done` sleepers, the first `i` of the queue being kept. */
  ghost predicate WakeMid(s: Cpu, mid: Cpu, now: nat, done: nat, i: nat) {
    && done <= |s.sleeping|
    && var seen := s.sleeping[..done];
       var due := Due(s.threads, now, seen);
       var kept := NotDue(s.threads, now, seen);
       && i == |kept|
       && mid == s.(threads := Awake(s.threads, due), sleeping := kept + s.sleeping[done..],
                    ready := s.ready + due, readyCount := s.readyCount + |due|)
  }

  lemma WakeStart(s: Cpu, now: nat)
    ensures WakeMid(s, s, now, 0, 0)
  {
    assert s.sleeping[..0] == [];
    assert Awake(s.threads, []) == s.threads;
  }

  lemma WakeTurn(s: Cpu, mid: Cpu, now: nat, done: nat, i: nat)
    requires WakeMid(s, mid, now, done, i) && i < |mid.sleeping|
    ensures done < |s.sleeping|
    ensures var t := mid.sleeping[i];
      if IsDue(mid.threads, now, t) then
        WakeMid(s, mid.(sleeping := mid.sleeping[..i] + mid.sleeping[i + 1..],
                        threads := mid.threads[t := mid.threads[t].(state := Ready, wakeup := 0)],
                        ready := mid.ready + [t], readyCount := mid.readyCount + 1), now, done + 1, i)
      else WakeMid(s, mid, now, done + 1, i + 1)
  {
    hide Due, NotDue, Awake, IsDue;
    var t, seen := s.sleeping[done], s.sleeping[..done];
    var due, kept := Due(s.threads, now, seen), NotDue(s.threads, now, seen);
    DueAppend(s.threads, now, seen, t);
    DueSplit(s.threads, now, seen);
    AwakeAppend(s.threads, now, due, t);
    SpliceOut(kept, s.sleeping, done);
    assert due + [] == due && kept + [] == kept && s.ready + (due + [t]) == s.ready + due + [t];
  }

  lemma AwakeAppend(th: Threads, now: nat, due: seq<nat>, t: nat)
    requires forall d :: d in due ==> IsDue(th, now, d)
    ensures IsDue(Awake(th, due), now, t) <==> IsDue(th, now, t)
    ensures IsDue(th, now, t) ==>
      t in Awake(th, due)
      && Awake(th, due + [t]) == Awake(th, due)[t := Awake(th, due)[t].(state := Ready, wakeup := 0)]
  {
  }

  lemma SpliceOut(kept: seq<nat>, q: seq<nat>, done: nat)
    requires done < |q|
    ensures var all, i := kept + q[done..], |kept|;
      && all[i] == q[done] && all[..i] + all[i + 1..] == kept + q[done + 1..]
      && all == kept + [q[done]] + q[done + 1..]
    ensures q[..done + 1] == q[..done] + [q[done]]
  {
  }

  lemma WakeEnd(s: Cpu, mid: Cpu, now: nat, done: nat, i: nat)
    requires WakeMid(s, mid, now, done, i) && i >= |mid.sleeping|
    ensures mid == Wake(s, now)
  {
    assert s.sleeping[..done] == s.sleeping;
  }

  function Sum(th: Threads, q: seq<nat>): nat {
    if q == [] then 0 else Cd(th, q[0]) + Sum(th, q[1..])
  }

  /** The sum of cooldowns over ready and sleeping threads: the termination measure of the
      selection loop. */
  function Measure(s: Cpu): nat { Sum(s.threads, s.ready) + Sum(s.threads, s.sleeping) }

  lemma {:induction false} SumSame(th: Threads, th': Threads, q: seq<nat>)
    requires forall t :: t in q ==> Cd(th', t) == Cd(th, t)
    ensures Sum(th', q) == Sum(th, q)
  {
    if q != [] { SumSame(th, th', q[1..]); }
  }

  lemma {:induction false} SumConcat(th: Threads, a: seq<nat>, b: seq<nat>)
    ensures Sum(th, a + b) == Sum(th, a) + Sum(th, b)
  {
    if a == [] {
      assert a + b == b;
    } else {
      assert (a + b)[1..] == a[1..] + b;
      SumConcat(th, a[1..], b);
    }
  }

  lemma {:induction false} SumSplit(th: Threads, now: nat, q: seq<nat>)
    ensures Sum(th, Due(th, now, q)) + Sum(th, NotDue(th, now, q)) == Sum(th, q)
  {
    if q != [] {
      SumSplit(th, now, q[1..]);
      var d, n := Due(th, now, q[1..]), NotDue(th, now, q[1..]);
      SumConcat(th, if IsDue(th, now, q[0]) then [q[0]] else [], d);
      SumConcat(th, if IsDue(th, now, q[0]) then [] else [q[0]], n);
    }
  }

  lemma WakeMeasure(s: Cpu, now: nat)
    ensures Measure(Wake(s, now)) == Measure(s)
  {
    hide Due, NotDue;
    var due, kept := Due(s.threads, now, s.sleeping), NotDue(s.threads, now, s.sleeping);
    SumSplit(s.threads, now, s.sleeping);
    SumConcat(s.threads, s.ready, due);
    SumSame(s.threads, Awake(s.threads, due), s.ready + due);
    SumSame(s.threads, Awake(s.threads, due), kept);
  }

  lemma ReapMeasure(s: Cpu)
    requires Inv(s)
    ensures Measure(Reap(s)) == Measure(s)
  {
    forall t | t in s.ready || t in s.sleeping ensures t !in s.zombie { OnePlace(s, t); }
    SumSame(s.threads, Reap(s).threads, s.ready);
    SumSame(s.threads, Reap(s).threads, s.sleeping);
  }

  /** Each retry of the loop lowers the measure. */
  lemma RotateMeasure(s: Cpu)
    requires Inv(s) && s.ready != [] && s.threads[s.ready[0]].cooldown > 0
    ensures Measure(Rotate(s)) == Measure(s) - 1
  {
    var t, th' := s.ready[0], Rotate(s).threads;
    InvFacts(s);
    assert s.ready == [t] + s.ready[1..];
    SumConcat(th', s.ready[1..], [t]);
    SumSame(s.threads, th', s.ready[1..]);
    SumSame(s.threads, th', s.sleeping);
  }

  /** The invariant in terms of positions. */
  lemma InvFacts(s: Cpu)
    requires Inv(s)
    ensures Ranked(s)
    ensures s.ready != [] ==> s.ready[0] !in s.ready[1..] && s.ready[0] !in s.sleeping && s.ready[0] in s.threads
  {
    forall i, j | 0 <= i < j < |s.ready| ensures s.ready[i] != s.ready[j] {
      TwiceCounts(s.ready, i, j);
      OnePlace(s, s.ready[i]);
    }
    if s.ready != [] { OnePlace(s, s.ready[0]); }
  }

  lemma {:induction false} TwiceCounts(q: seq<nat>, i: nat, j: nat)
    requires i < j < |q|
    ensures q[i] == q[j] ==> Count(q, q[i]) >= 2
  {
    if i == 0 {
      CountMember(q[1..], q[j]);
    } else {
      TwiceCounts(q[1..], i - 1, j - 1);
    }
  }

  /** A thread in one queue is in no other, and is known. */
  lemma OnePlace(s: Cpu, t: nat)
    requires Inv(s)
    ensures Count(s.ready, t) <= 1 && Count(s.zombie, t) <= 1
    ensures t in s.ready ==> t !in s.sleeping && t !in s.waiting && t !in s.zombie && s.current != Some(t)
    ensures t in s.sleeping ==> t !in s.ready && t !in s.waiting && t !in s.zombie && s.current != Some(t)
    ensures t in s.zombie ==> t !in s.ready && t !in s.sleeping && t !in s.waiting && s.current != Some(t)
    ensures s.current == Some(t) ==> t !in s.ready && t !in s.sleeping && t !in s.waiting && t !in s.zombie
    ensures t in s.ready || t in s.sleeping || t in s.waiting || t in s.zombie || s.current == Some(t) ==>
      t in s.threads
  {
    hide Count;
    CountMember(s.ready, t);
    CountMember(s.sleeping, t);
    CountMember(s.waiting, t);
    CountMember(s.zombie, t);
    assert s.Places(t) <= 1;
  }

  // ---- What every step keeps ----

  lemma RetireKeeps(s: Cpu)
    requires Inv(s)
    ensures Inv(Retire(s)) && Retire(s).current == None
    ensures forall t :: Retire(s).Places(t) == s.Places(t)
    ensures Retire(s).threads.Keys == s.threads.Keys
  {
    hide Count;
    if s.current.Some? {
      var c := s.current.value;
      OnePlace(s, c);
      forall t ensures Retire(s).Places(t) == s.Places(t) {
        CountConcat(s.ready, [c], t);
        CountConcat([c], s.waiting, t);
        CountConcat([c], s.sleeping, t);
        CountConcat([c], s.zombie, t);
        CountSingle(c, t);
      }
    }
  }

  lemma CountSingle(c: nat, t: nat)
    ensures Count([c], t) == if c == t then 1 else 0
  {
  }

  lemma WakeKeeps(s: Cpu, now: nat)
    requires Inv(s)
    ensures Inv(Wake(s, now)) && Wake(s, now).current == s.current
    ensures forall t :: Wake(s, now).Places(t) == s.Places(t)
    ensures forall t :: t in Wake(s, now).sleeping ==> !IsDue(Wake(s, now).threads, now, t)
    ensures Wake(s, now).threads.Keys == s.threads.Keys && Wake(s, now).zombie == s.zombie
  {
    hide Due, NotDue, Count;
    DueSplit(s.threads, now, s.sleeping);
    var due, kept := Due(s.threads, now, s.sleeping), NotDue(s.threads, now, s.sleeping);
    forall t ensures Wake(s, now).Places(t) == s.Places(t) { CountConcat(s.ready, due, t); }
    forall t | t in due ensures t in s.threads { OnePlace(s, t); }
  }

  lemma ReapKeeps(s: Cpu)
    requires Inv(s)
    ensures Inv(Reap(s))
    ensures forall t :: Reap(s).Places(t) + Count(s.zombie, t) == s.Places(t)
    ensures Reap(s).threads.Keys == s.threads.Keys - (set t | t in s.zombie)
  {
    forall t ensures Reap(s).Places(t) + Count(s.zombie, t) == s.Places(t) { EmptyCount(t); }
    hide Count;
    forall t | Reap(s).Places(t) > 0 ensures t !in s.zombie {
      CountMember(s.zombie, t);
      assert s.Places(t) <= 1;
    }
    forall t | t in s.ready ensures t !in s.zombie { OnePlace(s, t); }
  }

  lemma EmptyCount(t: nat)
    ensures Count([], t) == 0
  {
  }

  lemma DispatchKeeps(s: Cpu)
    requires Inv(s) && s.ready != [] && s.current == None
    ensures Inv(Dispatch(s)) && forall t :: Dispatch(s).Places(t) == s.Places(t)
    ensures Dispatch(s).threads.Keys == s.threads.Keys
  {
    hide Pick, IsPick, Count, Cooled, Cpu.Places;
    InvFacts(s);
    var i, q := Pick(s.threads, s.ready), s.ready;
    CooledBound(s.threads, q, i);
    forall t ensures Dispatch(s).Places(t) == s.Places(t) { DispatchPlaces(s, t); }
    forall t | t in Dispatch(s).ready ensures t in s.ready && t != q[i] { Apart(q, i, t); }
  }

  lemma DispatchPlaces(s: Cpu, t: nat)
    requires s.ready != [] && s.current == None
    ensures Dispatch(s).Places(t) == s.Places(t)
  {
    hide Pick, IsPick, Count, Cooled;
    var i, q := Pick(s.threads, s.ready), s.ready;
    assert q == q[..i] + ([q[i]] + q[i + 1..]);
    CountConcat(q[..i], [q[i]] + q[i + 1..], t);
    CountConcat([q[i]], q[i + 1..], t);
    CountConcat(q[i + 1..], q[..i], t);
    CountSingle(q[i], t);
  }

  lemma CooledBound(th: Threads, q: seq<nat>, i: nat)
    requires i < |q| && forall t :: t in th ==> th[t].cooldown <= 63
    ensures forall t :: t in th ==> Cooled(th, q, i)[t].cooldown <= 63
    ensures forall t :: t in th && t != q[i] ==> Cooled(th, q, i)[t].state == th[t].state
  {
    hide Cd;
  }

  lemma FinishKeeps(s: Cpu)
    requires Inv(s) && s.current == None
    ensures Inv(Finish(s)) && Finish(s).threads.Keys == s.threads.Keys
    ensures forall t :: Finish(s).Places(t) == s.Places(t)
  {
    hide Dispatch, Count;
    if s.ready != [] { DispatchKeeps(s); }
  }

  /** One call of `Schedule` keeps the invariant and loses no thread except the ones it destroys
      from the zombie queue. */
  lemma ScheduleKeeps(s: Cpu, now: nat)
    requires Inv(s)
    ensures Inv(ScheduleSpec(s, now))
    ensures forall t :: ScheduleSpec(s, now).Places(t) + Count(Destroyed(s), t) == s.Places(t)
    ensures ScheduleSpec(s, now).threads.Keys == s.threads.Keys - (set t | t in Destroyed(s))
    ensures NoDup(Destroyed(s)) && forall t :: t in Destroyed(s) ==> t in s.threads
  {
    hide Inv, Retire, Wake, Reap, Finish, Count, Cpu.Places;
    RetireKeeps(s);
    ZombiesOnce(Retire(s));
    WakeKeeps(Retire(s), now);
    ReapKeeps(Wake(Retire(s), now));
    ReapCurrent(Wake(Retire(s), now));
    FinishKeeps(Reap(Wake(Retire(s), now)));
  }

  lemma ZombiesOnce(s: Cpu)
    requires Inv(s)
    ensures NoDup(s.zombie) && forall t :: t in s.zombie ==> t in s.threads
  {
    forall i, j | 0 <= i < j < |s.zombie| ensures s.zombie[i] != s.zombie[j] {
      TwiceCounts(s.zombie, i, j);
      OnePlace(s, s.zombie[i]);
    }
    forall t | t in s.zombie ensures t in s.threads { OnePlace(s, t); }
  }

  lemma ReapCurrent(s: Cpu)
    ensures Reap(s).current == s.current && Reap(s).zombie == []
  {
  }

  /** The loop head: wake, reap, then select. */
  function Tail(s: Cpu, now: nat): Cpu { Finish(Reap(Wake(s, now))) }

  /** After the loop head, one more turn over a cooling thread leaves the outcome as it was. */
  lemma RetrySame(s: Cpu, now: nat)
    requires Inv(s) && s.current == None
    requires var x := Reap(Wake(s, now)); x.ready != [] && x.ready[0] in x.threads && x.threads[x.ready[0]].cooldown > 0
    ensures var x := Reap(Wake(s, now));
      && Tail(Rotate(x), now) == Tail(s, now) && Measure(Rotate(x)) == Measure(s) - 1
      && Inv(Rotate(x)) && Rotate(x).current == None
  {
    hide Inv, Wake, Reap, Finish, Measure, Rotate;
    WakeKeeps(s, now);
    ReapKeeps(Wake(s, now));
    ReapCurrent(Wake(s, now));
    WakeMeasure(s, now);
    ReapMeasure(Wake(s, now));
    var x := Reap(Wake(s, now));
    RotateMeasure(x);
    RotateKeeps(x);
    StillAsleep(s, now);
    SettledHead(Rotate(x), now);
    FinishRotate(x);
  }

  lemma FinishRotate(x: Cpu)
    requires Inv(x) && x.ready != [] && x.threads[x.ready[0]].cooldown > 0
    ensures Finish(Rotate(x)) == Finish(x)
  {
    hide Dispatch;
    InvFacts(x);
    RotateDispatch(x);
  }

  lemma RotateKeeps(s: Cpu)
    requires Inv(s) && s.ready != [] && s.threads[s.ready[0]].cooldown > 0
    ensures Inv(Rotate(s)) && Rotate(s).current == s.current
    ensures Rotate(s).zombie == s.zombie && Rotate(s).sleeping == s.sleeping
  {
    hide Count;
    InvFacts(s);
    forall t ensures Rotate(s).Places(t) == s.Places(t) {
      assert s.ready == [s.ready[0]] + s.ready[1..];
      CountConcat([s.ready[0]], s.ready[1..], t);
      CountConcat(s.ready[1..], [s.ready[0]], t);
    }
  }

  lemma StillAsleep(s: Cpu, now: nat)
    requires Inv(s)
    requires var x := Reap(Wake(s, now)); x.ready != [] && x.ready[0] in x.threads && x.threads[x.ready[0]].cooldown > 0
    ensures var x := Rotate(Reap(Wake(s, now)));
      forall t :: t in x.sleeping ==> !IsDue(x.threads, now, t)
  {
    hide Wake;
    WakeKeeps(s, now);
  }

  lemma SettledHead(s: Cpu, now: nat)
    requires s.zombie == [] && forall t :: t in s.sleeping ==> !IsDue(s.threads, now, t)
    ensures Reap(Wake(s, now)) == s
  {
    NothingDue(s.threads, now, s.sleeping);
    assert Awake(s.threads, []) == s.threads;
    assert s.ready + [] == s.ready;
  }

  class CpuScheduler {
    var threads: Threads
    var ready: seq<nat>
    var sleeping: seq<nat>
    var waiting: seq<nat>
    var zombie: seq<nat>
    var current: Option<nat>
    var readyCount: nat

    constructor ()
      ensures Snap() == Cpu(map[], [], [], [], [], None, 0) && Inv(Snap())
    {
      threads, ready, sleeping, waiting, zombie, current, readyCount := map[], [], [], [], [], None, 0;
    }

    function Snap(): Cpu
      reads this
    {
      Cpu(threads, ready, sleeping, waiting, zombie, current, readyCount)
    }

    method SetState(t: nat, st: ThreadState)
      modifies this`threads
      ensures threads == WithState(old(threads), t, st)
    {
      if t in threads {
        threads := threads[t := threads[t].(state := st)];
      }
    }

    method AddThreadToReadyQueue(t: nat)
      modifies this
      ensures Snap() == AddReady(old(Snap()), t)
    {
      SetState(t, Ready);
      ready := ready + [t];
      readyCount := readyCount + 1;
    }

    method RemoveThreadFromReadyQueue() returns (r: Option<nat>)
      modifies this`ready, this`readyCount
      ensures old(ready) == [] ==> r == None && Snap() == old(Snap())
      ensures old(ready) != [] ==>
        r == Some(old(ready)[0])
        && Snap() == old(Snap()).(ready := old(ready)[1..], readyCount := Less(old(readyCount), 1))
    {
      if ready == [] {
        return None;
      }
      r := Some(ready[0]);
      ready := ready[1..];
      if readyCount > 0 {
        readyCount := readyCount - 1;
      }
    }

    method AddThreadToWaitingQueue(t: nat)
      modifies this
      ensures Snap() == AddWaiting(old(Snap()), t)
    {
      SetState(t, Blocked);
      waiting := [t] + waiting;
    }

    method AddThreadToZombieQueue(t: nat)
      modifies this
      ensures Snap() == AddZombie(old(Snap()), t)
    {
      SetState(t, Zombie);
      zombie := [t] + zombie;
    }

    method AddThreadToSleepingQueue(t: nat)
      modifies this
      ensures Snap() == AddSleeping(old(Snap()), t)
    {
      SetState(t, Sleeping);
      sleeping := [t] + sleeping;
    }

    method WakeupSleepingThreads(now: nat)
      modifies this
      ensures Snap() == Wake(old(Snap()), now)
    {
      hide WakeMid, Wake;
      ghost var s, done := Snap(), 0;
      WakeStart(s, now);
      var i := 0;
      while i < |sleeping|
        invariant WakeMid(s, Snap(), now, done, i)
        decreases |s.sleeping| - done
      {
        WakeTurn(s, Snap(), now, done, i);
        var t := sleeping[i];
        if IsDue(threads, now, t) {
          sleeping := sleeping[..i] + sleeping[i + 1..];
          threads := threads[t := threads[t].(state := Ready, wakeup := 0)];
          ready := ready + [t];
          readyCount := readyCount + 1;
        } else {
          i := i + 1;
        }
        done := done + 1;
      }
      WakeEnd(s, Snap(), now, done, i);
    }

    /** `log` lists the records handed to DestroyThread. */
    method CleanupZombieThreads() returns (log: seq<nat>)
      modifies this
      ensures Snap() == Reap(old(Snap())) && log == old(zombie)
    {
      var current' := zombie;
      zombie := [];
      log := [];
      var i := 0;
      while i < |current'|
        invariant i <= |current'| && zombie == [] && log == current'[..i]
        invariant threads == old(threads) - (set t | t in current'[..i])
        invariant unchanged(`ready) && unchanged(`sleeping) && unchanged(`waiting) && unchanged(`current)
                  && unchanged(`readyCount)
      {
        log := log + [current'[i]];
        threads := threads - {current'[i]};
        i := i + 1;
      }
      assert current'[..i] == current';
    }

    /** `Schedule`: the retry loop refines the loop-free specification. */
    method Schedule(now: nat) returns (log: seq<nat>)
      requires Inv(Snap())
      modifies this
      ensures Snap() == ScheduleSpec(old(Snap()), now)
      ensures Inv(Snap())
      ensures log == Destroyed(old(Snap())) && NoDup(log)
    {
      hide NoDup, Inv, Tail, ScheduleSpec, Measure, Wake, Reap, Finish, Retire, AddReady;
      ScheduleKeeps(Snap(), now);
      RetireKeeps(Snap());
      TailAfterRetire(Snap(), now);
      RetireCurrent();
      ghost var s1 := Snap();
      log := [];
      while true
        invariant Inv(Snap()) && current == None && Tail(Snap(), now) == Tail(s1, now)
        invariant log + zombie == s1.zombie
        decreases Measure(Snap())
      {
        ghost var s := Snap();
        WakeupSleepingThreads(now);
        ZombiesStay(s, now);
        var more := CleanupZombieThreads();
        log := log + more;
        ZombiesGone(Wake(s, now));
        assert log + zombie == log;
        ghost var x := Snap();
        HeadFacts(s, x, now);
        var next := RemoveThreadFromReadyQueue();
        if next == None {
          current := None;
          return;
        }
        var t := next.value;
        if threads[t].cooldown > 0 {
          threads := threads[t := threads[t].(cooldown := threads[t].cooldown - 1)];
          AddThreadToReadyQueue(t);
          RetrySame(s, now);
          Requeued(x, Snap());
        } else {
          threads := threads[t := threads[t].(cooldown := Stride(threads[t].priority) - 1, state := Running)];
          current := Some(t);
          ImmediatePick(x);
          return;
        }
      }
    }

    method RetireCurrent()
      requires Inv(Snap())
      modifies this
      ensures Snap() == Retire(old(Snap()))
    {
      if current == None || current.value !in threads {
        current := None;
        return;
      }
      var t := current.value;
      current := None;
      match threads[t].state {
        case Terminated => AddThreadToZombieQueue(t);
        case Blocked => AddThreadToWaitingQueue(t);
        case Sleeping => AddThreadToSleepingQueue(t);
        case _ => AddThreadToReadyQueue(t);
      }
    }
  }

  lemma ZombiesStay(s: Cpu, now: nat)
    ensures Wake(s, now).zombie == s.zombie
  {
  }

  lemma ZombiesGone(s: Cpu)
    ensures Reap(s).zombie == []
  {
  }

  lemma TailAfterRetire(s: Cpu, now: nat)
    ensures Tail(Retire(s), now) == ScheduleSpec(s, now)
  {
  }

  lemma HeadFacts(s: Cpu, x: Cpu, now: nat)
    requires Inv(s) && s.current == None && x == Reap(Wake(s, now))
    ensures Inv(x) && x.current == None && x.readyCount == |x.ready|
    ensures Tail(s, now) == Finish(x)
    ensures x.ready == [] ==> Finish(x) == x
    ensures x.ready != [] ==> x.ready[0] in x.threads && x.ready[0] !in x.ready[1..]
  {
    hide Wake, Reap;
    WakeKeeps(s, now);
    ReapKeeps(Wake(s, now));
    ReapCurrent(Wake(s, now));
    InvFacts(x);
  }

  lemma Requeued(x: Cpu, y: Cpu)
    requires Inv(x) && x.ready != [] && x.threads[x.ready[0]].cooldown > 0
    requires var t := x.ready[0];
      y == AddReady(x.(ready := x.ready[1..], readyCount := Less(x.readyCount, 1),
                       threads := x.threads[t := x.threads[t].(cooldown := x.threads[t].cooldown - 1)]), t)
    ensures y == Rotate(x)
  {
  }

  /** A cool head is dispatched at once. */
  lemma ImmediatePick(x: Cpu)
    requires Inv(x) && x.ready != [] && x.threads[x.ready[0]].cooldown == 0
    ensures var t := x.ready[0];
      Finish(x) == x.(ready := x.ready[1..], readyCount := Less(x.readyCount, 1), current := Some(t),
                      threads := x.threads[t := x.threads[t].(cooldown := Stride(x.threads[t].priority) - 1,
                                                              state := Running)])
  {
    hide Pick, Cooled, Stride;
    PickUnique(x.threads, x.ready, 0);
    assert x.ready[1..] + x.ready[..0] == x.ready[1..];
    CooledHead(x.threads, x.ready);
  }

  lemma CooledHead(th: Threads, q: seq<nat>)
    requires q != [] && q[0] in th && th[q[0]].cooldown == 0
    ensures Cooled(th, q, 0) == th[q[0] := th[q[0]].(cooldown := Stride(th[q[0]].priority) - 1, state := Running)]
  {
    hide Stride;
  }
}
