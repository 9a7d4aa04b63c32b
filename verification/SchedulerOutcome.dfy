/** What one call of `Schedule` does to every thread, written out from the state before it. */
module SchedulerOutcome {
  import opened Common
  import opened Scheduler

  // ---- Strides ----

  /** Priorities from low to high. */
  function Rank(p: Priority): nat {
    match p
    case Idle => 0
    case Low => 1
    case Normal => 2
    case High => 3
    case Ultra => 4
    case Super => 5
    case KernelPriority => 6
    case Unlisted => 2
  }

  /** The strides are 64, 32, 16, 8, 4, 2 and 1 from idle to kernel, so a higher priority runs more often;
      a priority outside the enumeration counts as normal. */
  lemma StrideTable(p: Priority, p': Priority)
    ensures Stride(Idle) == 64 && Stride(Low) == 32 && Stride(Normal) == 16 && Stride(High) == 8
    ensures Stride(Ultra) == 4 && Stride(Super) == 2 && Stride(KernelPriority) == 1 && Stride(Unlisted) == 16
    ensures Rank(p) < Rank(p') <==> Stride(p') < Stride(p)
  {
  }

  // ---- Where the call finds its threads ----

  ghost predicate RunningIs(s: Cpu, states: set<ThreadState>) {
    s.current.Some? && s.current.value in s.threads && s.threads[s.current.value].state in states
  }

  /** The running thread as a list, when its state is one of these. */
  ghost function RunningIf(s: Cpu, states: set<ThreadState>): seq<nat> {
    if RunningIs(s, states) then [s.current.value] else []
  }

  /** Those of a queue whose wake-up time has come, or those whose time has not, in order. */
  function Split(th: Threads, now: nat, q: seq<nat>, come: bool): seq<nat> {
    if q == [] then []
    else
      var rest := Split(th, now, q[1..], come);
      if (q[0] in th && th[q[0]].wakeup <= now) == come then [q[0]] + rest else rest
  }

  /** The sleepers, the running thread first when it goes to sleep. */
  ghost function Sleepers(s: Cpu): seq<nat> { RunningIf(s, {Sleeping}) + s.sleeping }

  /** Who may run: the ready queue, the running thread unless it blocks, sleeps or ends, and the sleepers
      whose time has come. */
  ghost function Candidates(s: Cpu, now: nat): seq<nat> {
    s.ready + RunningIf(s, {Running, Ready, Zombie}) + Split(s.threads, now, Sleepers(s), true)
  }

  /** Who is destroyed: the zombies, and the running thread when it has ended. */
  ghost function Dead(s: Cpu): seq<nat> { RunningIf(s, {Terminated}) + s.zombie }

  ghost predicate FirstLeast(th: Threads, q: seq<nat>, i: nat) {
    && i < |q| && (forall j :: 0 <= j < |q| ==> q[j] in th)
    && (forall j :: 0 <= j < |q| ==> th[q[i]].cooldown <= th[q[j]].cooldown)
    && (forall j :: 0 <= j < i ==> th[q[i]].cooldown < th[q[j]].cooldown)
  }

  /** The queues after the call. */
  ghost predicate QueuesAfter(s: Cpu, now: nat, s': Cpu) {
    && s'.waiting == RunningIf(s, {Blocked}) + s.waiting
    && s'.sleeping == Split(s.threads, now, Sleepers(s), false)
    && s'.zombie == [] && s'.threads.Keys == s.threads.Keys - (set t | t in Dead(s))
    && s'.readyCount == |s'.ready|
  }

  /** The records of the candidates after candidate `i` was dispatched. */
  ghost predicate RecordsAfter(th: Threads, q: seq<nat>, i: nat, th': Threads)
    requires FirstLeast(th, q, i)
  {
    forall j :: 0 <= j < |q| ==>
      && q[j] in th'
      && th'[q[j]].state == (if j == i then Running else Ready) && th'[q[j]].priority == th[q[j]].priority
      && th'[q[j]].cooldown ==
         if j == i then Stride(th[q[i]].priority) - 1
         else if j < i then th[q[j]].cooldown - th[q[i]].cooldown - 1
         else th[q[j]].cooldown - th[q[i]].cooldown
  }

  /** The selection: the first candidate with the least cooldown runs, those behind it come before those
      ahead of it, and all have cooled down. */
  ghost predicate SelectionAfter(s: Cpu, now: nat, s': Cpu) {
    var q := Candidates(s, now);
    if q == [] then s'.current == None && s'.ready == []
    else exists i: nat :: FirstLeast(s.threads, q, i) && Selected(s, q, i, s')
  }

  ghost predicate Selected(s: Cpu, q: seq<nat>, i: nat, s': Cpu)
    requires FirstLeast(s.threads, q, i)
  {
    s'.current == Some(q[i]) && s'.ready == q[i + 1..] + q[..i] && RecordsAfter(s.threads, q, i, s'.threads)
  }

  /** Threads that are neither candidates nor dead keep their cooldown and wake-up time, and have the
      state of the queue they are in. */
  ghost predicate OthersAfter(s: Cpu, now: nat, s': Cpu) {
    && (forall t :: t in s'.threads && t !in Candidates(s, now) ==>
          && t in s.threads && s'.threads[t].cooldown == s.threads[t].cooldown
          && s'.threads[t].wakeup == s.threads[t].wakeup)
    && (forall t :: t in RunningIf(s, {Blocked}) && t in s'.threads ==> s'.threads[t].state == Blocked)
    && (forall t :: t in RunningIf(s, {Sleeping}) && t in s'.threads && t !in Candidates(s, now) ==>
          s'.threads[t].state == Sleeping)
    && (forall t :: t in Split(s.threads, now, Sleepers(s), true) && t in s'.threads ==> s'.threads[t].wakeup == 0)
  }

  // ---- The steps of the call ----

  lemma RetireOutcome(s: Cpu)
    requires Inv(s)
    ensures var r := Retire(s);
      && r.ready == s.ready + RunningIf(s, {Running, Ready, Zombie})
      && r.waiting == RunningIf(s, {Blocked}) + s.waiting && r.sleeping == Sleepers(s) && r.zombie == Dead(s)
      && r.threads.Keys == s.threads.Keys
      && (forall t :: t in s.threads ==> SameButState(s.threads[t], r.threads[t]))
      && (forall t :: t in RunningIf(s, {Blocked}) ==> r.threads[t].state == Blocked)
      && (forall t :: t in RunningIf(s, {Sleeping}) ==> r.threads[t].state == Sleeping)
  {
    if s.current.Some? { CurrentKnown(s); }
    hide Inv;
    if s.current.Some? { RetireByState(s, s.current.value); }
  }

  lemma RetireByState(s: Cpu, t: nat)
    requires s.current == Some(t) && t in s.threads
    ensures var r := Retire(s);
      && r.ready == s.ready + RunningIf(s, {Running, Ready, Zombie})
      && r.waiting == RunningIf(s, {Blocked}) + s.waiting && r.sleeping == Sleepers(s) && r.zombie == Dead(s)
      && r.threads.Keys == s.threads.Keys
      && (forall u :: u in s.threads ==> SameButState(s.threads[u], r.threads[u]))
      && (s.threads[t].state in {Blocked, Sleeping} ==> r.threads[t].state == s.threads[t].state)
  {
    assert s.ready + [] == s.ready && [] + s.waiting == s.waiting;
    assert [] + s.sleeping == s.sleeping && [] + s.zombie == s.zombie;
  }

  predicate SameButState(a: Thread, b: Thread) {
    b.priority == a.priority && b.cooldown == a.cooldown && b.wakeup == a.wakeup
  }

  lemma {:induction false} SplitIs(th: Threads, th': Threads, now: nat, q: seq<nat>)
    requires th'.Keys == th.Keys && forall t :: t in th ==> th'[t].wakeup == th[t].wakeup
    ensures Due(th', now, q) == Split(th, now, q, true) && NotDue(th', now, q) == Split(th, now, q, false)
  {
    if q != [] { SplitIs(th, th', now, q[1..]); }
  }

  /** The state before selection. */
  lemma SettledOutcome(s: Cpu, now: nat)
    requires Inv(s)
    ensures var x := Reap(Wake(Retire(s), now));
      && Inv(x) && x.current == None
      && x.ready == Candidates(s, now) && QueuesAfter(s, now, x)
      && (forall t :: t in x.threads ==> t in s.threads && x.threads[t].cooldown == s.threads[t].cooldown
                                         && x.threads[t].priority == s.threads[t].priority)
      && OthersAfter(s, now, x)
  {
    hide Retire, Due, NotDue, Split, Inv;
    var r := Retire(s);
    RetireOutcome(s);
    RetireKeeps(s);
    WakeKeeps(r, now);
    ReapKeeps(Wake(r, now));
    SplitIs(s.threads, r.threads, now, r.sleeping);
    InvCounts(Reap(Wake(r, now)));
    DueKeeps(r, now);
    var due := Due(r.threads, now, r.sleeping);
    forall t | t in RunningIf(s, {Blocked}) ensures t !in due { BlockedNotDue(s, r, now, t); }
  }

  lemma InvCounts(s: Cpu)
    requires Inv(s)
    ensures s.readyCount == |s.ready|
  {
  }

  lemma DueKeeps(r: Cpu, now: nat)
    ensures forall t :: t in Due(r.threads, now, r.sleeping) ==> t in r.sleeping
  {
    DueSplit(r.threads, now, r.sleeping);
  }

  lemma BlockedNotDue(s: Cpu, r: Cpu, now: nat, t: nat)
    requires Inv(r) && t in r.waiting
    ensures t !in Due(r.threads, now, r.sleeping)
  {
    hide Due;
    DueKeeps(r, now);
    WaitingAlone(r, t);
  }

  lemma WaitingAlone(r: Cpu, t: nat)
    requires Inv(r) && t in r.waiting
    ensures t !in r.sleeping
  {
    if t in r.sleeping { OnePlace(r, t); }
  }

  /** Dispatching from the settled state. */
  lemma FinishOutcome(x: Cpu, i: nat)
    requires Inv(x) && x.ready != [] && i == Pick(x.threads, x.ready)
    ensures FirstLeast(x.threads, x.ready, i) && Selected(x, x.ready, i, Finish(x))
    ensures Finish(x).readyCount == |Finish(x).ready|
    ensures Finish(x).waiting == x.waiting && Finish(x).sleeping == x.sleeping && Finish(x).zombie == x.zombie
    ensures Finish(x).threads.Keys == x.threads.Keys
    ensures forall t :: t in x.threads && t !in x.ready ==> Finish(x).threads[t] == x.threads[t]
    ensures forall t :: t in x.threads ==> Finish(x).threads[t].wakeup == x.threads[t].wakeup
  {
    hide Inv, Stride, IsPick, Pick, Cooled;
    InvFacts(x);
    PickFacts(x.threads, x.ready);
    InvCounts(x);
    CooledAll(x.threads, x.ready, i);
  }

  lemma CooledAll(th: Threads, q: seq<nat>, i: nat)
    requires NoDup(q) && FirstLeast(th, q, i) && forall j :: 0 <= j < |q| ==> th[q[j]].state == Ready
    ensures RecordsAfter(th, q, i, Cooled(th, q, i))
    ensures forall t :: t in th && t !in q ==> Cooled(th, q, i)[t] == th[t]
    ensures forall t :: t in th ==> Cooled(th, q, i)[t].wakeup == th[t].wakeup
  {
    hide Stride;
    forall t | t in th && t !in q ensures Cooled(th, q, i)[t] == th[t] {
      assert t !in q[..i] && t !in q[i + 1..] && t != q[i];
    }
    hide Cooled;
    forall j | 0 <= j < |q|
      ensures q[j] in Cooled(th, q, i)
      ensures var r := Cooled(th, q, i)[q[j]];
        && r.state == (if j == i then Running else Ready) && r.priority == th[q[j]].priority
        && r.cooldown ==
           if j == i then Stride(th[q[i]].priority) - 1
           else if j < i then th[q[j]].cooldown - th[q[i]].cooldown - 1
           else th[q[j]].cooldown - th[q[i]].cooldown
    {
      CooledOne(th, q, i, j);
    }
  }

  lemma CooledOne(th: Threads, q: seq<nat>, i: nat, j: nat)
    requires NoDup(q) && FirstLeast(th, q, i) && j < |q|
    ensures var r := Cooled(th, q, i)[q[j]];
      && r.state == (if j == i then Running else th[q[j]].state) && r.priority == th[q[j]].priority
      && r.cooldown ==
         if j == i then Stride(th[q[i]].priority) - 1
         else if j < i then th[q[j]].cooldown - th[q[i]].cooldown - 1
         else th[q[j]].cooldown - th[q[i]].cooldown
  {
    hide Stride;
    Apart(q, i, q[j]);
    if j < i {
      assert q[j] in q[..i];
    } else if j > i {
      assert q[i + 1..][j - i - 1] == q[j];
    }
  }

  /** What one call of `Schedule` does: the running thread goes where its state says, exactly the sleepers
      whose time has come may run, the dead are destroyed, and the first candidate with the least
      cooldown runs. */
  lemma ScheduleOutcome(s: Cpu, now: nat)
    requires Inv(s)
    ensures var s' := ScheduleSpec(s, now);
      QueuesAfter(s, now, s') && SelectionAfter(s, now, s') && OthersAfter(s, now, s') && Destroyed(s) == Dead(s)
  {
    hide Retire, Wake, Reap, Split, Inv, Pick, Candidates, Dispatch, Stride;
    var x := Reap(Wake(Retire(s), now));
    SettledOutcome(s, now);
    RetireOutcome(s);
    if x.ready != [] {
      var i := Pick(x.threads, x.ready);
      FinishOutcome(x, i);
      var s', q := Finish(x), x.ready;
      forall t | t in RunningIf(s, {Blocked}) ensures t !in q { Alone(x, t); }
      assert FirstLeast(s.threads, q, i);
      assert Selected(s, q, i, s');
    }
  }

  /** The running thread by its state: blocked threads wait, sleepers sleep until their time, ended threads
      are destroyed, and every other thread stays runnable. */
  lemma RunningGoes(s: Cpu, now: nat)
    requires Inv(s) && s.current.Some?
    ensures s.current.value in s.threads
    ensures var t, s' := s.current.value, ScheduleSpec(s, now);
      match s.threads[t].state
      case Blocked => t in s'.waiting && t !in s'.ready && t !in s'.sleeping && s'.current != Some(t)
      case Sleeping =>
        if s.threads[t].wakeup > now
        then t in s'.sleeping && t !in s'.ready && t !in s'.waiting && s'.current != Some(t)
        else t !in s'.sleeping && t !in s'.waiting && (t in s'.ready || s'.current == Some(t))
      case Terminated => t in Destroyed(s) && t !in s'.threads
      case _ => t !in s'.sleeping && t !in s'.waiting && (t in s'.ready || s'.current == Some(t))
  {
    hide ScheduleSpec, Split, Inv, Destroyed;
    var t, s' := s.current.value, ScheduleSpec(s, now);
    CurrentKnown(s);
    ScheduleOutcome(s, now);
    ScheduleKeeps(s, now);
    SplitHas(s.threads, now, Sleepers(s), t);
    if s.threads[t].state != Terminated {
      if t in Candidates(s, now) { CandidateRuns(s, now, t); }
      Alone(s', t);
    }
  }

  lemma CurrentKnown(s: Cpu)
    requires Inv(s) && s.current.Some?
    ensures s.current.value in s.threads
  {
    OnePlace(s, s.current.value);
  }

  lemma {:induction false} SplitHas(th: Threads, now: nat, q: seq<nat>, t: nat)
    requires t in th
    ensures t in Split(th, now, q, true) <==> t in q && th[t].wakeup <= now
    ensures t in Split(th, now, q, false) <==> t in q && th[t].wakeup > now
  {
    if q != [] {
      assert q == [q[0]] + q[1..];
      SplitHas(th, now, q[1..], t);
    }
  }

  lemma CandidateRuns(s: Cpu, now: nat, t: nat)
    requires SelectionAfter(s, now, ScheduleSpec(s, now)) && t in Candidates(s, now)
    ensures t in ScheduleSpec(s, now).ready || ScheduleSpec(s, now).current == Some(t)
  {
    hide Candidates, ScheduleSpec, RecordsAfter;
    var q, s' := Candidates(s, now), ScheduleSpec(s, now);
    var i: nat :| FirstLeast(s.threads, q, i) && Selected(s, q, i, s');
    assert q == q[..i] + [q[i]] + q[i + 1..];
  }

  lemma Alone(s: Cpu, t: nat)
    requires Inv(s)
    ensures t in s.waiting ==> t !in s.ready && t !in s.sleeping && s.current != Some(t)
    ensures t in s.sleeping ==> t !in s.ready && t !in s.waiting && s.current != Some(t)
    ensures t in s.ready || s.current == Some(t) ==> t !in s.sleeping && t !in s.waiting
  {
    OnePlace(s, t);
  }
}
