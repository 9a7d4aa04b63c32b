/** The manager's methods make the steps that the theorems about whole runs speak of. */
module Drivers {
  import opened Common
  import opened Pte
  import opened PageTables
  import opened Spaces
  import opened Teardown
  import opened Vmm
  import opened Runs

  datatype Request =
    | DoCreate
    | DoDestroy(k: nat)
    | DoMap(k: nat, va: nat, phys: nat, flags: nat)
    | DoUnmap(k: nat, va: nat)

  /** Mapping requests are for the user half. */
  predicate InUserSpace(q: Request) { q.DoMap? || q.DoUnmap? ==> UserHalf(VpnOf(q.va)) }

  ghost function Free(s: State): int { s.total - |s.used| }

  /** What a request asks for, and with which answer, in a given state. A request on a space that does not
      live, the destruction of the kernel space and a creation without memory ask for nothing. */
  ghost predicate Answers(s: State, q: Request, op: Option<Op>) {
    match q
    case DoCreate => if Free(s) < 2 then op == None else op.Some? && op.value.Create?
    case DoDestroy(k) =>
      op == if k !in s.spaces || k == s.kernel then None
            else Some(if s.spaces[k].refCount > 1 then Drop(k) else Destroy(k))
    case DoMap(k, va, phys, flags) =>
      op == if k !in s.spaces then None
            else Some(Map(k, VpnOf(va), LeafEntry(phys, flags), MapFits(s, s.spaces[k].pml4, va, phys)))
    case DoUnmap(k, va) =>
      op == if k !in s.spaces then None
            else Some(Unmap(k, VpnOf(va), va % 4096 == 0 && View(s, k, VpnOf(va)).Page?))
  }

  ghost predicate MapFits(s: State, root: nat, va: nat, phys: nat) {
    va % 4096 == 0 && phys % 4096 == 0 && phys <= ADDR_MASK && Missing(s.mem, root, VpnOf(va)) <= Free(s)
  }

  /** Carries out one request; `op` is the step it made. */
  method Perform(m: Manager, q: Request) returns (ghost op: Option<Op>)
    requires m.Valid() && InUserSpace(q)
    modifies m, m.pmm, m.pmm.bitmap
    ensures m.Valid() && Answers(old(m.Snap()), q, op)
    ensures op == None ==> m.Snap() == old(m.Snap())
    ensures op.Some? ==> Step(old(m.Snap()), op.value, m.Snap())
  {
    hide Inv, Grew, MapEffect, LeafEffect, SameTranslations, Created, Destroyed, UserHalf, VpnOf, LeafEntry, RootsKept;
    op := None;
    match q {
      case DoCreate =>
        var r := m.CreateVirtualSpace();
        if r.Some? { op := Some(Create(r.value, m.spaces[r.value].pml4)); }
      case DoDestroy(k) =>
        if k in m.spaces && k != m.kernel {
          op := Some(if m.spaces[k].refCount > 1 then Drop(k) else Destroy(k));
          LastReference(m.Snap(), k);
          var _ := m.DestroyVirtualSpace(Some(k));
        }
      case DoMap(k, va, phys, flags) =>
        if k in m.spaces {
          UserWalkable(m.Snap(), k, VpnOf(va));
          var r := m.MapPage(Some(k), va, phys, flags);
          op := Some(Map(k, VpnOf(va), LeafEntry(phys, flags), r == 1));
        }
      case DoUnmap(k, va) =>
        if k in m.spaces {
          UserWalkable(m.Snap(), k, VpnOf(va));
          var r := m.UnmapPage(Some(k), va);
          op := Some(Unmap(k, VpnOf(va), r == 1));
        }
    }
  }

  lemma LastReference(s: State, k: nat)
    requires Inv(s) && k in s.spaces
    ensures s.spaces[k].refCount >= 1
  {
    hide TreeInv, FramesWellFormed;
  }

  /** Each request got its answer and made its step, or changed nothing. */
  ghost predicate History(snaps: seq<State>, qs: seq<Request>, answers: seq<Option<Op>>) {
    && |answers| == |qs| && |snaps| == |qs| + 1
    && forall i :: 0 <= i < |qs| ==> Turn(snaps[i], qs[i], answers[i], snaps[i + 1])
  }

  ghost predicate Turn(s: State, q: Request, op: Option<Op>, s': State) {
    Answers(s, q, op) && if op == None then s' == s else Step(s, op.value, s')
  }

  /** The operations among the answers. */
  function Made(answers: seq<Option<Op>>): seq<Op> {
    if answers == [] then []
    else
      var n := |answers| - 1;
      Made(answers[..n]) + (if answers[n] == None then [] else [answers[n].value])
  }

  /** Carries out any sequence of requests. Every user page of every space that lives throughout ends as its
      own space's maps and unmaps of it make it, whatever the other requests were. */
  method PerformAll(m: Manager, qs: seq<Request>) returns (ghost snaps: seq<State>, ghost answers: seq<Option<Op>>)
    requires m.Valid() && forall i :: 0 <= i < |qs| ==> InUserSpace(qs[i])
    modifies m, m.pmm, m.pmm.bitmap
    ensures m.Valid() && History(snaps, qs, answers) && snaps[0] == old(m.Snap()) && snaps[|qs|] == m.Snap()
    ensures forall k, vpn: nat :: vpn < VPN_LIMIT && UserHalf(vpn) && LivesThrough(snaps, k) ==>
      View(m.Snap(), k, vpn) == Replay(Made(answers), k, vpn, View(old(m.Snap()), k, vpn))
  {
    hide Inv, Step, Answers, View, UserHalf, Replay, Made;
    snaps, answers := [m.Snap()], [];
    var i := 0;
    while i < |qs|
      invariant i <= |qs| && m.Valid() && History(snaps, qs[..i], answers)
      invariant snaps[0] == old(m.Snap()) && snaps[i] == m.Snap()
    {
      ghost var op := Perform(m, qs[i]);
      HistoryGrows(snaps, qs[..i], answers, qs[i], op, m.Snap());
      assert qs[..i + 1] == qs[..i] + [qs[i]];
      snaps, answers := snaps + [m.Snap()], answers + [op];
      i := i + 1;
    }
    assert qs[..i] == qs;
    forall k, vpn: nat | vpn < VPN_LIMIT && UserHalf(vpn) && LivesThrough(snaps, k)
      ensures View(m.Snap(), k, vpn) == Replay(Made(answers), k, vpn, View(old(m.Snap()), k, vpn))
    {
      HistoryIsolation(snaps, qs, answers, k, vpn);
    }
  }

  ghost predicate LivesThrough(states: seq<State>, k: nat) { forall i :: 0 <= i < |states| ==> k in states[i].spaces }

  lemma HistoryGrows(snaps: seq<State>, qs: seq<Request>, answers: seq<Option<Op>>,
                     q: Request, op: Option<Op>, s: State)
    requires History(snaps, qs, answers) && Turn(snaps[|qs|], q, op, s)
    ensures History(snaps + [s], qs + [q], answers + [op])
  {
    hide Turn;
    var ss, rs, os := snaps + [s], qs + [q], answers + [op];
    forall i | 0 <= i < |rs| ensures Turn(ss[i], rs[i], os[i], ss[i + 1]) {
      if i < |qs| { assert Turn(snaps[i], qs[i], answers[i], snaps[i + 1]); }
    }
  }

  /** The operations made form a run through the states between the requests. */
  lemma {:induction false} HistoryRun(snaps: seq<State>, qs: seq<Request>, answers: seq<Option<Op>>)
    returns (states: seq<State>)
    requires History(snaps, qs, answers)
    ensures Run(states, Made(answers)) && states[0] == snaps[0] && states[|Made(answers)|] == snaps[|qs|]
    ensures forall k :: LivesThrough(snaps, k) ==> LivesThrough(states, k)
    decreases |qs|
  {
    hide Step, Answers;
    if qs == [] {
      states := [snaps[0]];
    } else {
      var n := |qs| - 1;
      var snaps', op := snaps[..n + 1], answers[n];
      assert History(snaps', qs[..n], answers[..n]) by {
        forall i | 0 <= i < n ensures Turn(snaps'[i], qs[..n][i], answers[..n][i], snaps'[i + 1]) {
          assert Turn(snaps[i], qs[i], answers[i], snaps[i + 1]);
        }
      }
      assert Turn(snaps[n], qs[n], op, snaps[n + 1]);
      var before := HistoryRun(snaps', qs[..n], answers[..n]);
      states := before;
      if op.Some? {
        RunGrows(before, Made(answers[..n]), op.value, snaps[n + 1]);
        states := before + [snaps[n + 1]];
      }
      forall k | LivesThrough(snaps, k) ensures LivesThrough(states, k) {
        assert LivesThrough(snaps', k);
        assert LivesThrough(before, k) && k in snaps[n + 1].spaces;
      }
    }
  }

  lemma HistoryIsolation(snaps: seq<State>, qs: seq<Request>, answers: seq<Option<Op>>, k: nat, vpn: nat)
    requires History(snaps, qs, answers) && LivesThrough(snaps, k) && vpn < VPN_LIMIT && UserHalf(vpn)
    ensures View(snaps[|qs|], k, vpn) == Replay(Made(answers), k, vpn, View(snaps[0], k, vpn))
  {
    hide Step, View, UserHalf, Replay, Made, Turn;
    var states := HistoryRun(snaps, qs, answers);
    Isolation(states, Made(answers), k, vpn);
  }

  lemma RunGrows(states: seq<State>, ops: seq<Op>, op: Op, s: State)
    requires Run(states, ops) && Step(states[|ops|], op, s)
    ensures Run(states + [s], ops + [op])
  {
    hide Step;
    var ss, os := states + [s], ops + [op];
    forall i | 0 <= i < |os| ensures Step(ss[i], os[i], ss[i + 1]) {
      if i < |ops| { assert Step(states[i], ops[i], states[i + 1]); }
    }
  }
}
