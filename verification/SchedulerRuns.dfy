/** Whole runs of a CPU's scheduler: conservation of threads and the starvation bound. */
module SchedulerRuns {
  import opened Common
  import opened Scheduler

  // ---- Conservation ----

  /** What happens between and at scheduler calls: a timer tick at a tick count, the running thread
      changing its own state, or a new thread entering the ready queue. */
  datatype Event =
    | Tick(now: nat)
    | Become(state: ThreadState, wakeup: nat)
    | Spawn(t: nat, priority: Priority)

  ghost predicate CanHappen(s: Cpu, e: Event) {
    match e
    case Tick(_) => true
    case Become(_, _) => s.current.Some?
    case Spawn(t, _) => t !in s.threads
  }

  function Next(s: Cpu, e: Event): Cpu {
    match e
    case Tick(now) => ScheduleSpec(s, now)
    case Become(st, wakeup) =>
      if s.current.Some? && s.current.value in s.threads then
        s.(threads := s.threads[s.current.value := s.threads[s.current.value].(state := st, wakeup := wakeup)])
      else s
    case Spawn(t, p) => AddReady(s.(threads := s.threads[t := Thread(Ready, p, 0, 0)]), t)
  }

  /** Threads an event destroys. */
  function Doomed(s: Cpu, e: Event): seq<nat> { if e.Tick? then Destroyed(s) else [] }

  function Born(e: Event): seq<nat> { if e.Spawn? then [e.t] else [] }

  lemma NextKeeps(s: Cpu, e: Event)
    requires Inv(s) && CanHappen(s, e)
    ensures Inv(Next(s, e))
    ensures forall t :: Next(s, e).Places(t) + Count(Doomed(s, e), t) == s.Places(t) + Count(Born(e), t)
  {
    match e {
      case Tick(now) => ScheduleKeeps(s, now);
      case Become(st, w) => BecomeKeeps(s, st, w);
      case Spawn(t, p) => SpawnKeeps(s, t, p);
    }
  }

  lemma BecomeKeeps(s: Cpu, st: ThreadState, w: nat)
    requires Inv(s) && s.current.Some?
    ensures Inv(Next(s, Become(st, w))) && forall t :: Next(s, Become(st, w)).Places(t) == s.Places(t)
  {
    hide Count;
    OnePlace(s, s.current.value);
    var s' := Next(s, Become(st, w));
    forall t ensures s'.Places(t) == s.Places(t) {}
  }

  lemma SpawnKeeps(s: Cpu, t: nat, p: Priority)
    requires Inv(s) && t !in s.threads
    ensures Inv(Next(s, Spawn(t, p)))
    ensures forall u :: Next(s, Spawn(t, p)).Places(u) == s.Places(u) + Count([t], u)
  {
    hide Count;
    var s' := Next(s, Spawn(t, p));
    forall u ensures s'.Places(u) == s.Places(u) + Count([t], u) {
      CountConcat(s.ready, [t], u);
    }
    OnePlace(s, t);
    forall u ensures s'.Places(u) <= 1 && (s'.Places(u) > 0 ==> u in s'.threads) {
      CountSingle(t, u);
      assert s.Places(t) == 0;
      assert s.Places(u) > 0 ==> u in s.threads;
    }
    assert forall u :: u in s'.ready ==> u == t || (u in s.ready && u in s.threads);
  }

  function After(s: Cpu, es: seq<Event>): Cpu
    decreases |es|
  {
    if es == [] then s else After(Next(s, es[0]), es[1..])
  }

  function AllDoomed(s: Cpu, es: seq<Event>): seq<nat>
    decreases |es|
  {
    if es == [] then [] else Doomed(s, es[0]) + AllDoomed(Next(s, es[0]), es[1..])
  }

  function AllBorn(es: seq<Event>): seq<nat>
    decreases |es|
  {
    if es == [] then [] else Born(es[0]) + AllBorn(es[1..])
  }

  ghost predicate Feasible(s: Cpu, es: seq<Event>)
    decreases |es|
  {
    es == [] || (CanHappen(s, es[0]) && Feasible(Next(s, es[0]), es[1..]))
  }

  /** Over any run, no thread is ever in two places, and each thread is where it was, or was born, or
      was destroyed out of the zombie queue: the counts balance exactly. */
  lemma {:induction false} Conservation(s: Cpu, es: seq<Event>)
    requires Inv(s) && Feasible(s, es)
    ensures Inv(After(s, es))
    ensures forall t :: After(s, es).Places(t) + Count(AllDoomed(s, es), t) == s.Places(t) + Count(AllBorn(es), t)
    decreases |es|
  {
    hide Inv, Next, Doomed, Born, Count, Cpu.Places, CanHappen;
    if es != [] {
      NextKeeps(s, es[0]);
      var s1 := Next(s, es[0]);
      Conservation(s1, es[1..]);
      forall t ensures After(s, es).Places(t) + Count(AllDoomed(s, es), t) == s.Places(t) + Count(AllBorn(es), t) {
        CountConcat(Doomed(s, es[0]), AllDoomed(s1, es[1..]), t);
        CountConcat(Born(es[0]), AllBorn(es[1..]), t);
      }
    } else {
      forall t { EmptyCount(t); }
    }
  }

  /** All that can be said of a CPU whose running thread may also sit on the zombie queue. */
  ghost predicate InvButZombie(s: Cpu) {
    && Inv(s.(current := None)) && s.current.Some? && s.current.value in s.threads
    && s.current.value !in s.ready && s.current.value !in s.sleeping && s.current.value !in s.waiting
  }

  /** What a call of `Schedule` is to keep: every thread in one place, and no record destroyed twice. */
  ghost predicate CallKeeps(s: Cpu, now: nat) { Inv(ScheduleSpec(s, now)) && NoDup(Destroyed(s)) }

  /** Exactly when a call keeps that: the running thread must not already be on the zombie queue. */
  lemma ScheduleKeepsIff(s: Cpu, now: nat)
    requires InvButZombie(s)
    ensures CallKeeps(s, now) <==> s.current.value !in s.zombie
  {
    hide Inv, ScheduleSpec, Destroyed, NoDup;
    var t := s.current.value;
    if t !in s.zombie {
      NotInZombies(s);
      ScheduleKeeps(s, now);
    } else if s.threads[t].state == Terminated {
      DestroyedTwice(s);
    } else {
      DestroyedButQueued(s, now);
    }
  }

  /** A terminated thread that is already a zombie is queued, and destroyed, once more. */
  lemma DestroyedTwice(s: Cpu)
    requires s.current.Some? && s.current.value in s.threads && s.current.value in s.zombie
    requires s.threads[s.current.value].state == Terminated
    ensures Destroyed(s) == [s.current.value] + s.zombie && !NoDup(Destroyed(s))
  {
    var t, d := s.current.value, Destroyed(s);
    var i :| 0 <= i < |s.zombie| && s.zombie[i] == t;
    assert d[0] == t && d[i + 1] == t;
  }

  lemma NotInZombies(s: Cpu)
    requires InvButZombie(s) && s.current.value !in s.zombie
    ensures Inv(s)
  {
    hide Count;
    var s0, t := s.(current := None), s.current.value;
    forall u ensures s.Places(u) <= 1 && (s.Places(u) > 0 ==> u in s.threads) {
      assert s0.Places(u) <= 1 && (s0.Places(u) > 0 ==> u in s.threads);
      CountMember(s.ready, u);
      CountMember(s.sleeping, u);
      CountMember(s.waiting, u);
      CountMember(s.zombie, u);
    }
  }

  lemma DestroyedButQueued(s: Cpu, now: nat)
    requires s.current.Some? && s.current.value in s.threads && s.current.value in s.zombie
    requires s.threads[s.current.value].state != Terminated
    ensures var t, s' := s.current.value, ScheduleSpec(s, now);
      t !in s'.threads && s'.Places(t) > 0 && !Inv(s')
  {
    hide Finish, Due, NotDue, Count, Cpu.Places;
    var t, r := s.current.value, Retire(s);
    var y := Reap(Wake(r, now));
    assert t !in y.threads && y.current == None;
    assert r.Places(t) > Count(r.zombie, t) by {
      CountMember(r.ready, t);
      CountMember(r.sleeping, t);
      CountMember(r.waiting, t);
      QueuedPlaces(r, t);
    }
    WakePlaces(r, now, t);
    ReapPlaces(Wake(r, now), t);
    FinishPlaces(y, t);
    assert Finish(y).Places(t) > 0 && t !in Finish(y).threads;
  }

  lemma QueuedPlaces(s: Cpu, t: nat)
    requires Count(s.ready, t) > 0 || Count(s.sleeping, t) > 0 || Count(s.waiting, t) > 0
    ensures s.Places(t) > Count(s.zombie, t)
  {
  }

  lemma WakePlaces(s: Cpu, now: nat, t: nat)
    ensures Wake(s, now).Places(t) == s.Places(t)
  {
    hide Count;
    DueSplit(s.threads, now, s.sleeping);
    CountConcat(s.ready, Due(s.threads, now, s.sleeping), t);
  }

  lemma ReapPlaces(s: Cpu, t: nat)
    ensures Reap(s).Places(t) + Count(s.zombie, t) == s.Places(t)
  {
    EmptyCount(t);
  }

  lemma FinishPlaces(s: Cpu, t: nat)
    requires s.current == None
    ensures Finish(s).Places(t) == s.Places(t) && Finish(s).threads.Keys == s.threads.Keys
  {
    hide Count, Cooled, Pick;
    if s.ready != [] { DispatchPlaces(s, t); }
  }

  /** What `ThreadExit` does before the next tick: the running thread, still running, is also put
      on the zombie queue, in state Zombie. */
  function ThreadExit(s: Cpu): Cpu
    requires s.current.Some?
  {
    AddZombie(s, s.current.value)
  }

  /** So after `ThreadExit` the next call always destroys the thread and leaves it queued or running. */
  lemma ThreadExitLosesConservation(s: Cpu, now: nat)
    requires Inv(s) && s.current.Some?
    ensures var t, s' := s.current.value, ScheduleSpec(ThreadExit(s), now);
      t !in s'.threads && s'.Places(t) > 0 && !CallKeeps(ThreadExit(s), now)
  {
    hide Inv, Count, ScheduleSpec;
    OnePlace(s, s.current.value);
    DestroyedButQueued(ThreadExit(s), now);
  }

  // ---- Starvation ----

  /** The order in which the CPU will look at its runnable threads. */
  function Line(s: Cpu): seq<nat> { s.ready + (if s.current.Some? then [s.current.value] else []) }

  /** A fixed set of runnable threads: the running thread is preempted, nobody sleeps past the
      tick, and there are no zombies. */
  ghost predicate Steady(s: Cpu, now: nat) {
    && Inv(s) && s.zombie == []
    && (forall t :: t in s.sleeping ==> !IsDue(s.threads, now, t))
    && (s.current.Some? ==> s.current.value in s.threads && s.threads[s.current.value].state in {Running, Ready})
  }

  /** How many turns of the selection loop are left before `t`, at position `p` of a line of `n`
      threads with cooldown `c`, is dispatched. */
  function TurnsLeft(n: nat, p: nat, c: nat): nat { p + c * n }

  /** The outcome of a tick on a steady CPU: the preempted thread joins the line and the closed
      form picks from it. */
  ghost predicate Ticked(s: Cpu, s': Cpu)
    requires Line(s) != []
  {
    var q, i := Line(s), Pick(s.threads, Line(s));
    && s'.ready == q[i + 1..] + q[..i] && s'.current == Some(q[i])
    && (forall t :: t in s.threads && t != q[i] ==> Cd(s'.threads, t) == Cd(Cooled(s.threads, q, i), t))
    && q[i] in s'.threads && s'.threads[q[i]].state == Running
    && s'.sleeping == s.sleeping && s'.zombie == [] && s'.threads.Keys == s.threads.Keys
    && (forall t :: t in s.threads && t in s'.threads ==> s'.threads[t].wakeup == s.threads[t].wakeup)
  }

  lemma SteadyTick(s: Cpu, now: nat)
    requires Steady(s, now) && Line(s) != []
    ensures Ticked(s, ScheduleSpec(s, now))
  {
    hide Pick, IsPick, Dispatch, Ticked, Inv;
    var r := Retire(s);
    SteadyRetire(s);
    assert forall t :: t in r.sleeping ==> !IsDue(r.threads, now, t);
    SettledHead(r, now);
    SamePick(s.threads, r.threads, r.ready);
    LineKnown(s);
    SteadyDispatch(s, r);
  }

  lemma SteadyRetire(s: Cpu)
    requires Inv(s)
    requires s.current.Some? ==> s.current.value in s.threads && s.threads[s.current.value].state in {Running, Ready}
    ensures var r := Retire(s);
      && r.ready == Line(s) && r.sleeping == s.sleeping && r.zombie == s.zombie && r.threads.Keys == s.threads.Keys
      && forall t :: t in s.threads ==> r.threads[t].(state := Ready) == s.threads[t].(state := Ready)
  {
  }

  lemma LineKnown(s: Cpu)
    requires Inv(s)
    ensures NoDup(Line(s)) && forall t :: t in Line(s) ==> t in s.threads
  {
    InvFacts(s);
    forall t | t in Line(s) ensures t in s.threads { OnePlace(s, t); }
    if s.current.Some? { OnePlace(s, s.current.value); }
  }

  lemma SteadyDispatch(s: Cpu, r: Cpu)
    requires r.ready == Line(s) != [] && r.threads.Keys == s.threads.Keys
    requires forall t :: t in Line(s) ==> t in s.threads
    requires forall t :: t in s.threads ==> r.threads[t].(state := Ready) == s.threads[t].(state := Ready)
    requires Pick(r.threads, r.ready) == Pick(s.threads, Line(s))
    requires r.sleeping == s.sleeping && r.zombie == []
    ensures Ticked(s, Dispatch(r))
  {
    hide Pick, IsPick, Line, Stride;
    var q, i := Line(s), Pick(s.threads, Line(s));
    assert q[i] in q;
  }

  lemma LineAfter(s: Cpu)
    requires s.current.Some?
    ensures Line(s) == s.ready + [s.current.value]
  {
  }

  lemma SamePick(th: Threads, th': Threads, q: seq<nat>)
    requires q != [] && forall t :: t in q ==> Cd(th', t) == Cd(th, t)
    ensures Pick(th', q) == Pick(th, q)
  {
    PickFacts(th, q);
    PickUnique(th', q, Pick(th, q));
  }

  /** A tick that does not dispatch `t` brings it closer by at least one turn of the loop. */
  lemma Closer(s: Cpu, now: nat, p: nat) returns (p': nat)
    requires Steady(s, now) && p < |Line(s)|
    requires Pick(s.threads, Line(s)) != p
    ensures var q, s', t := Line(s), ScheduleSpec(s, now), Line(s)[p];
      && p' < |Line(s')| == |q| && Line(s')[p'] == t
      && TurnsLeft(|q|, p', Cd(s'.threads, t)) < TurnsLeft(|q|, p, Cd(s.threads, t))
  {
    hide Pick, IsPick, ScheduleSpec, Cooled, Inv, NoDup, TurnsLeft, Line;
    var q, i, s', t := Line(s), Pick(s.threads, Line(s)), ScheduleSpec(s, now), Line(s)[p];
    SteadyTick(s, now);
    LineAfter(s');
    PickFacts(s.threads, q);
    LineKnown(s);
    var c, m := Cd(s.threads, t), Cd(s.threads, q[i]);
    CooledAt(s.threads, q, i, p);
    p' := if p < i then |q| - 1 - i + p else p - i - 1;
    Shifted(q, i, p);
    Arith(|q|, p, i, c, m, p', if p < i then c - (m + 1) else c - m);
  }

  lemma Shifted(q: seq<nat>, i: nat, p: nat)
    requires i < |q| && p < |q| && p != i
    ensures var r, p' := q[i + 1..] + q[..i] + [q[i]], if p < i then |q| - 1 - i + p else p - i - 1;
      |r| == |q| && p' < |q| && r[p'] == q[p]
  {
  }

  lemma Arith(n: nat, p: nat, i: nat, c: nat, m: nat, p': nat, c': nat)
    requires i < n && p < n && p' < n
    requires (p < i && p' == n - 1 - i + p && c' == c - (m + 1)) || (p > i && p' == p - i - 1 && c' == c - m)
    ensures TurnsLeft(n, p', c') == TurnsLeft(n, p, c) - (i + 1) - m * n
    ensures TurnsLeft(n, p', c') < TurnsLeft(n, p, c)
  {
    assert m * n >= 0;
  }

  lemma CooledAt(th: Threads, q: seq<nat>, i: nat, p: nat)
    requires NoDup(q) && i < |q| && p < |q| && p != i && q[p] in th
    requires Cd(th, q[i]) <= Cd(th, q[p]) && (p < i ==> Cd(th, q[p]) > Cd(th, q[i]))
    ensures q[p] != q[i]
    ensures Cd(Cooled(th, q, i), q[p]) ==
      if p < i then Cd(th, q[p]) - (Cd(th, q[i]) + 1) else Cd(th, q[p]) - Cd(th, q[i])
  {
    Apart(q, i, q[p]);
    if p < i {
      assert q[p] in q[..i];
    } else {
      assert q[i + 1..][p - i - 1] == q[p];
    }
  }

  /** The state after each of a sequence of ticks. */
  function Ticks(s: Cpu, nows: seq<nat>): Cpu
    decreases |nows|
  {
    if nows == [] then s else Ticks(ScheduleSpec(s, nows[0]), nows[1..])
  }

  ghost predicate SteadyRun(s: Cpu, nows: seq<nat>)
    decreases |nows|
  {
    nows == [] || (Steady(s, nows[0]) && SteadyRun(ScheduleSpec(s, nows[0]), nows[1..]))
  }

  lemma {:induction false} DispatchedWithin(s: Cpu, nows: seq<nat>, p: nat) returns (k: nat)
    requires SteadyRun(s, nows) && p < |Line(s)|
    requires TurnsLeft(|Line(s)|, p, Cd(s.threads, Line(s)[p])) < |nows|
    ensures 0 < k <= TurnsLeft(|Line(s)|, p, Cd(s.threads, Line(s)[p])) + 1
    ensures k <= |nows| && Ticks(s, nows[..k]).current == Some(Line(s)[p])
    decreases |nows|
  {
    hide Pick, IsPick, ScheduleSpec, Steady, TurnsLeft, Line;
    var s', t := ScheduleSpec(s, nows[0]), Line(s)[p];
    if Pick(s.threads, Line(s)) == p {
      SteadyTick(s, nows[0]);
      k := 1;
      assert nows[..1][1..] == [];
      assert Ticks(s, nows[..1]) == Ticks(s', nows[..1][1..]);
    } else {
      var p' := Closer(s, nows[0], p);
      k := DispatchedWithin(s', nows[1..], p');
      assert nows[..k + 1][1..] == nows[1..][..k];
      assert Ticks(s, nows[..k + 1]) == Ticks(s', nows[1..][..k]);
      k := k + 1;
    }
  }

  /** No starvation: on a fixed set of n runnable threads, every one of them is dispatched within
      64 * n calls. */
  lemma NoStarvation(s: Cpu, nows: seq<nat>, p: nat) returns (k: nat)
    requires SteadyRun(s, nows) && p < |Line(s)| && |nows| >= 64 * |Line(s)|
    ensures 0 < k <= 64 * |Line(s)| && Ticks(s, nows[..k]).current == Some(Line(s)[p])
  {
    hide SteadyRun, Steady, Line, Ticks, Inv;
    var n, c := |Line(s)|, Cd(s.threads, Line(s)[p]);
    SteadyFirst(s, nows, Line(s)[p]);
    MulBound(c, n);
    k := DispatchedWithin(s, nows, p);
  }

  lemma MulBound(c: nat, n: nat)
    requires c <= 63
    ensures c * n <= 63 * n
  {
  }

  lemma SteadyFirst(s: Cpu, nows: seq<nat>, t: nat)
    requires SteadyRun(s, nows) && nows != []
    ensures Cd(s.threads, t) <= 63
  {
    assert Steady(s, nows[0]);
  }

  /** A steady CPU stays steady as long as its sleepers stay asleep, so steady runs of every length
      exist. */
  lemma SteadyStays(s: Cpu, now: nat, later: nat)
    requires Steady(s, now) && Line(s) != []
    requires forall t :: t in s.sleeping ==> !IsDue(s.threads, later, t)
    ensures Steady(ScheduleSpec(s, now), later)
  {
    hide ScheduleSpec, Inv, Pick;
    SteadyTick(s, now);
    ScheduleKeeps(s, now);
    forall t | t in s.sleeping ensures t in s.threads { OnePlace(s, t); }
  }
}
