/** Whole runs of the virtual memory manager: every space's user half behaves as a map of its own. */
module Runs {
  import opened Bits
  import opened Pte
  import opened PageTables
  import opened Spaces
  import opened Teardown
  import opened Vmm

  /** What can happen to the machine. The flag `ok` is the operation's answer. `Write`, `Take` and
      `Give` are the rest of the system: it writes, allocates and frees frames that the manager
      does not own. `UseTable` and `UsePage` are the processor: it sets the accessed bit of a table
      entry it walks, and the accessed or dirty bit of a page's entry. */
  datatype Op =
    | Create(k: nat, p: nat)
    | Destroy(k: nat)
    | Drop(k: nat)
    | Map(k: nat, vpn: nat, entry: nat, ok: bool)
    | Unmap(k: nat, vpn: nat, ok: bool)
    | Write(f: nat, words: seq<nat>)
    | Take(f: nat)
    | Give(f: nat)
    | UseTable(t: nat, i: nat)
    | UsePage(k: nat, vpn: nat, b: nat)

  /** One step, as the manager's methods guarantee it. */
  ghost predicate Step(s: State, op: Op, s': State) {
    && Inv(s) && Inv(s')
    && match op
       case Create(k, p) => Created(s, s', k, p)
       case Destroy(k) => k != s.kernel && Destroyed(s, s', k)
       case Drop(k) => k in s.spaces && s.spaces[k].refCount > 1
                       && s' == s.(spaces := s.spaces[k := s.spaces[k].(refCount := s.spaces[k].refCount - 1)])
       case Map(k, vpn, e, ok) =>
         && k in s.spaces && vpn < VPN_LIMIT && Grew(s, s') && RootsKept(s, s', s.spaces[k].pml4)
         && if ok then MapEffect(s, s', s.spaces[k].pml4, vpn, e)
            else SameTranslations(s.mem, s'.mem, s.Roots())
       case Unmap(k, vpn, ok) =>
         && k in s.spaces && vpn < VPN_LIMIT && Grew(s, s')
         && if ok then Translate(s.mem, s.spaces[k].pml4, vpn).Page?
                       && LeafEffect(s, s', s.spaces[k].pml4, vpn, 0)
            else s' == s
       case Write(f, words) => !s.Owned(f) && s' == s.(mem := s.mem[f := words])
       case Take(f) => f !in s.used && s' == s.(used := s.used + {f})
       case Give(f) => !s.Owned(f) && s' == s.(used := s.used - {f})
       case UseTable(t, i) =>
         && t in s.mem && i < |s.mem[t]| && CanUse(s.mem, s.tables, s.Roots(), t, i)
         && s' == s.(mem := Touched(s.mem, t, i, ACCESSED))
       case UsePage(k, vpn, b) =>
         && k in s.spaces && vpn < VPN_LIMIT && UseBit(b) && View(s, k, vpn).Page?
         && PageUsed(s, s', s.spaces[k].pml4, vpn, b)
  }

  /** The bit set in the entry that maps a page. */
  ghost predicate PageUsed(s: State, s': State, root: nat, vpn: nat, b: nat) {
    && Walk(s.mem, root, vpn, 1).Table?
    && var t := Walk(s.mem, root, vpn, 1).frame;
       t in s.mem && |s.mem[t]| == 512 && s' == s.(mem := Touched(s.mem, t, Ix(vpn, 1), b))
  }

  /** What an operation does to the page `vpn` of the space at `k`: the specification of one cell
      of one space. Operations on other spaces or other pages do not appear in it. */
  function Apply(op: Op, k: nat, vpn: nat, was: Mapping): Mapping {
    match op
    case Map(k', vpn', e, ok) => if ok && k' == k && vpn' == vpn && was == Unmapped then Page(e) else was
    case Unmap(k', vpn', ok) => if ok && k' == k && vpn' == vpn then Unmapped else was
    case UsePage(k', vpn', b) => if k' == k && vpn' == vpn && was.Page? then Page(Or(was.entry, b)) else was
    case _ => was
  }

  function Replay(ops: seq<Op>, k: nat, vpn: nat, was: Mapping): Mapping {
    if ops == [] then was else Replay(ops[1..], k, vpn, Apply(ops[0], k, vpn, was))
  }

  ghost function View(s: State, k: nat, vpn: nat): Mapping
    requires k in s.spaces
  {
    Translate(s.mem, s.spaces[k].pml4, vpn)
  }

  /** User halves never hold huge pages, so the walker's precondition always holds there. */
  lemma {:induction false} NoHugeInUserHalf(s: State, r: nat, vpn: nat, level: nat)
    requires Inv(s) && r in s.Roots() && UserHalf(vpn) && 1 <= level <= 4
    ensures !Walk(s.mem, r, vpn, level).Big?
    decreases 4 - level
  {
    hide Present, Huge, WalkFrame, TableEntry, Ix, SpacesDistinct, FramesWellFormed;
    if level < 4 {
      NoHugeInUserHalf(s, r, vpn, level + 1);
      if level < 3 && Walk(s.mem, r, vpn, level + 1).Table? {
        WalkFacts(s.mem, s.tables, s.Roots(), r, vpn, level + 1);
        assert ChildLink(s.mem, s.tables, Walk(s.mem, r, vpn, level + 1).frame, Ix(vpn, level + 1));
      }
    }
  }

  lemma UserWalkable(s: State, k: nat, vpn: nat)
    requires Inv(s) && k in s.spaces && UserHalf(vpn)
    ensures !Walk(s.mem, s.spaces[k].pml4, vpn, 1).Big? && s.spaces[k].pml4 in s.Roots()
  {
    hide Inv, Walk, UserHalf;
    assert s.spaces[k].pml4 in s.Roots();
    NoHugeInUserHalf(s, s.spaces[k].pml4, vpn, 1);
  }

  lemma MappedWalk(s: State, r: nat, vpn: nat)
    requires Translate(s.mem, r, vpn).Page?
    ensures Walk(s.mem, r, vpn, 3).Table?
  {
    hide Present, Huge, WalkFrame, Ix, LeafMapping;
    assert Walk(s.mem, r, vpn, 2).Table?;
  }

  /** A frame the manager does not own can change freely. */
  lemma WriteTranslate(s: State, s': State, f: nat, words: seq<nat>, r: nat, vpn: nat)
    requires Inv(s) && !s.Owned(f) && s' == s.(mem := s.mem[f := words]) && r in s.Roots()
    ensures Translate(s'.mem, r, vpn) == Translate(s.mem, r, vpn)
  {
    hide Present, Huge, WalkFrame, TableEntry, Ix, RootLink, ChildLink, ParentLink;
    assert f !in s.tables && f !in s.Roots();
    WalkStable(s.mem, s'.mem, s.tables, s.Roots(), r, vpn, 1);
    if Walk(s.mem, r, vpn, 1).Table? { WalkFacts(s.mem, s.tables, s.Roots(), r, vpn, 1); }
  }

  lemma MapView(s: State, op: Op, s': State, k: nat, vpn: nat)
    requires Step(s, op, s') && op.Map? && k in s.spaces && UserHalf(vpn) && vpn < VPN_LIMIT
    ensures k in s'.spaces && View(s', k, vpn) == Apply(op, k, vpn, View(s, k, vpn))
  {
    hide Inv, Translate, Walk, UserHalf;
    var root, r := s.spaces[op.k].pml4, s.spaces[k].pml4;
    assert root in s.Roots() && r in s.Roots() && s'.Roots() == s.Roots();
    if op.ok && vpn == op.vpn && View(s, op.k, vpn) == Unmapped {
      assert SharesTop(s', root, root, vpn);
      assert Translate(s'.mem, root, vpn) == Page(op.entry);
      MappedWalk(s', root, vpn);
      if r != root { UserUnshared(s', root, r, vpn); } else { DistinctPml4(s, k, op.k); }
    }
  }

  lemma DistinctPml4(s: State, k: nat, k': nat)
    requires Inv(s) && k in s.spaces && k' in s.spaces && s.spaces[k].pml4 == s.spaces[k'].pml4
    ensures k == k'
  {
  }

  lemma UnmapView(s: State, op: Op, s': State, k: nat, vpn: nat)
    requires Step(s, op, s') && op.Unmap? && k in s.spaces && UserHalf(vpn) && vpn < VPN_LIMIT
    ensures k in s'.spaces && View(s', k, vpn) == Apply(op, k, vpn, View(s, k, vpn))
  {
    hide Inv, Translate, Walk, UserHalf;
    var root, r := s.spaces[op.k].pml4, s.spaces[k].pml4;
    assert root in s.Roots() && r in s.Roots();
    if op.ok && vpn == op.vpn {
      ZeroEntry();
      MappedWalk(s, root, vpn);
      if r != root { UserUnshared(s, root, r, vpn); } else { DistinctPml4(s, k, op.k); }
    }
  }

  /** Setting a bit in a page's entry changes that translation's bit, and steps keep the invariant. */
  lemma UsePageStep(s: State, s': State, root: nat, vpn: nat, b: nat)
    requires Inv(s) && root in s.Roots() && vpn < VPN_LIMIT && UseBit(b) && Translate(s.mem, root, vpn).Page?
    requires PageUsed(s, s', root, vpn, b)
    ensures Inv(s') && Grew(s, s') && LeafEffect(s, s', root, vpn, Or(Translate(s.mem, root, vpn).entry, b))
    ensures Present(Or(Translate(s.mem, root, vpn).entry, b))
  {
    hide Inv, Walk, Grew, LeafEffect, Or, Present, Ix;
    var e := Translate(s.mem, root, vpn).entry;
    UseKeeps(e, b);
    var s1 := LeafStep(s, root, vpn, Or(e, b));
  }

  lemma UsePageView(s: State, op: Op, s': State, k: nat, vpn: nat)
    requires Step(s, op, s') && op.UsePage? && k in s.spaces && UserHalf(vpn) && vpn < VPN_LIMIT
    ensures k in s'.spaces && View(s', k, vpn) == Apply(op, k, vpn, View(s, k, vpn))
  {
    hide Inv, Translate, Walk, UserHalf, Or, Grew;
    var root, r := s.spaces[op.k].pml4, s.spaces[k].pml4;
    assert root in s.Roots() && r in s.Roots();
    UsePageStep(s, s', root, op.vpn, op.b);
    if vpn == op.vpn {
      MappedWalk(s, root, vpn);
      if r != root { UserUnshared(s, root, r, vpn); } else { DistinctPml4(s, k, op.k); }
    }
  }

  lemma UseTableKeeps(s: State, op: Op, s': State, r: nat, vpn: nat)
    requires Step(s, op, s') && op.UseTable? && r in s.Roots()
    ensures Translate(s'.mem, r, vpn) == Translate(s.mem, r, vpn)
    ensures Walk(s'.mem, r, vpn, 3) == Walk(s.mem, r, vpn, 3)
  {
    hide Inv, Translate, Walk, CanUse;
    TouchedTranslate(s.mem, s.tables, s.Roots(), op.t, op.i, ACCESSED, r, vpn);
    TouchedWalk(s.mem, s.tables, s.Roots(), op.t, op.i, ACCESSED, r, vpn, 3);
  }

  /** One step changes a user page of a living space exactly as the cell specification says. */
  lemma StepView(s: State, op: Op, s': State, k: nat, vpn: nat)
    requires Step(s, op, s') && k in s.spaces && k in s'.spaces && UserHalf(vpn) && vpn < VPN_LIMIT
    ensures View(s', k, vpn) == Apply(op, k, vpn, View(s, k, vpn))
  {
    hide Inv, Translate, Walk, UserHalf, MapEffect, LeafEffect, Grew, RootsKept, CanUse, PageUsed, Or;
    assert s.spaces[k].pml4 in s.Roots();
    match op {
      case Create(k', p) =>
        FreshKey(s, s', k', p);
        CreateTranslate(s, s', k', p, s.spaces[k].pml4, vpn);
      case Map(_, _, _, _) => MapView(s, op, s', k, vpn);
      case Unmap(_, _, _) => UnmapView(s, op, s', k, vpn);
      case Write(f, words) => WriteTranslate(s, s', f, words, s.spaces[k].pml4, vpn);
      case UseTable(_, _) => UseTableKeeps(s, op, s', s.spaces[k].pml4, vpn);
      case UsePage(_, _, _) => UsePageView(s, op, s', k, vpn);
      case _ =>
    }
  }

  lemma FreshKey(s: State, s': State, k: nat, p: nat)
    requires Inv(s) && Created(s, s', k, p)
    ensures k !in s.spaces
  {
    CreatedRoots(s, s', k, p);
  }

  ghost predicate Run(states: seq<State>, ops: seq<Op>) {
    && |states| == |ops| + 1
    && forall i :: 0 <= i < |ops| ==> Step(states[i], ops[i], states[i + 1])
  }

  /** Isolation over every run: the final translation of any user page of a space that lives through
      the run is what the run's own maps and unmaps of that page make of the first one, whatever
      the other spaces, the other pages and the rest of the system did in between. */
  lemma {:induction false} Isolation(states: seq<State>, ops: seq<Op>, k: nat, vpn: nat)
    requires Run(states, ops) && UserHalf(vpn) && vpn < VPN_LIMIT
    requires forall i :: 0 <= i < |states| ==> k in states[i].spaces
    ensures View(states[|ops|], k, vpn) == Replay(ops, k, vpn, View(states[0], k, vpn))
    decreases |ops|
  {
    hide Step, View, UserHalf, Apply;
    if ops != [] {
      assert Step(states[0], ops[0], states[1]);
      StepView(states[0], ops[0], states[1], k, vpn);
      assert Run(states[1..], ops[1..]) by {
        forall i | 0 <= i < |ops[1..]| ensures Step(states[1..][i], ops[1..][i], states[1..][i + 1]) {
          assert Step(states[i + 1], ops[i + 1], states[i + 2]);
        }
      }
      Isolation(states[1..], ops[1..], k, vpn);
    }
  }

  /** A space created during the run starts with an empty user half. */
  lemma BornEmpty(s: State, op: Op, s': State, vpn: nat)
    requires Step(s, op, s') && op.Create?
    ensures op.k !in s.spaces && op.k in s'.spaces && (UserHalf(vpn) ==> View(s', op.k, vpn) == Unmapped)
    ensures !UserHalf(vpn) ==> View(s', op.k, vpn) == View(s, s.kernel, vpn)
  {
    FreshKey(s, s', op.k, op.p);
    CreateTranslate(s, s', op.k, op.p, op.p, vpn);
  }

  /** Work on a user half never shows in any space's kernel half. */
  lemma KernelHalfUntouched(s: State, op: Op, s': State, k: nat, vpn: nat)
    requires Step(s, op, s') && (op.Map? || op.Unmap?) && UserHalf(op.vpn)
    requires k in s.spaces && !UserHalf(vpn) && vpn < VPN_LIMIT
    ensures k in s'.spaces && View(s', k, vpn) == View(s, k, vpn)
  {
    hide Inv, Translate, Walk, UserHalf;
    assert s.spaces[k].pml4 in s.Roots();
  }

  // ---- The tree of tables as a map ----

  /** The map a space's user half stands for: page number to leaf entry. */
  ghost function UserMap(s: State, k: nat): map<nat, nat>
    requires k in s.spaces
  {
    map v: nat | v < VPN_LIMIT && UserHalf(v) && View(s, k, v).Page? :: View(s, k, v).entry
  }

  /** A successful `MapPage` is insert-if-absent and a successful `UnmapPage` is delete, in the
      space they name; a failed call, and every call on another space, leaves the map alone. */
  lemma MapsRefine(s: State, op: Op, s': State, k: nat)
    requires Step(s, op, s') && (op.Map? || op.Unmap?) && UserHalf(op.vpn) && k in s.spaces
    ensures k in s'.spaces
    ensures UserMap(s', k) ==
      if !op.ok || op.k != k then UserMap(s, k)
      else if op.Unmap? then UserMap(s, k) - {op.vpn}
      else if op.vpn in UserMap(s, k) then UserMap(s, k)
      else UserMap(s, k)[op.vpn := op.entry]
  {
    hide Inv, Translate, Walk, UserHalf, MapEffect, LeafEffect, View;
    forall v: nat | v < VPN_LIMIT && UserHalf(v)
      ensures View(s', k, v) == Apply(op, k, v, View(s, k, v)) && !View(s, k, v).BigPage?
    {
      StepView(s, op, s', k, v);
      UserPagesSmall(s, k, v);
    }
  }

  lemma UserPagesSmall(s: State, k: nat, vpn: nat)
    requires Inv(s) && k in s.spaces && UserHalf(vpn)
    ensures !View(s, k, vpn).BigPage?
  {
    UserWalkable(s, k, vpn);
  }

  // ---- Kernel halves over runs ----

  /** The space's top entry leads where the kernel's does. */
  ghost predicate SharesKernel(s: State, k: nat, vpn: nat)
    requires k in s.spaces && s.kernel in s.spaces
  {
    var kr := s.spaces[s.kernel].pml4;
    Walk(s.mem, kr, vpn, 3).Table? && SharesTop(s, kr, s.spaces[k].pml4, vpn)
  }

  lemma KernelLives(s: State)
    requires Inv(s)
    ensures s.kernel in s.spaces && s.spaces[s.kernel].pml4 in s.Roots()
  {
    hide TreeInv, FramesWellFormed;
  }

  /** No step moves the table a top entry leads to. */
  lemma TopStays(s: State, op: Op, s': State, k: nat, vpn: nat)
    requires Step(s, op, s') && k in s.spaces && k in s'.spaces && vpn < VPN_LIMIT
    requires Walk(s.mem, s.spaces[k].pml4, vpn, 3).Table?
    ensures s'.spaces[k].pml4 == s.spaces[k].pml4 && s'.kernel == s.kernel && s.kernel in s'.spaces
    ensures Walk(s'.mem, s.spaces[k].pml4, vpn, 3) == Walk(s.mem, s.spaces[k].pml4, vpn, 3)
  {
    hide Inv, Translate, Walk, MapEffect, LeafEffect, CanUse, PageUsed, RootsKept;
    KernelLives(s);
    var r := s.spaces[k].pml4;
    assert r in s.Roots();
    match op {
      case Create(k', p) =>
        FreshKey(s, s', k', p);
        TopUntouched(s, s', r, vpn, p);
      case Write(f, words) => TopUnwritten(s, s', r, vpn, f, words);
      case UseTable(_, _) => UseTableKeeps(s, op, s', r, vpn);
      case UsePage(k', v, b) =>
        assert s.spaces[k'].pml4 in s.Roots();
        UsePageStep(s, s', s.spaces[k'].pml4, v, b);
        SameSpaces(s, s', s.spaces[k'].pml4, v, b);
      case _ =>
    }
  }

  lemma SameSpaces(s: State, s': State, root: nat, vpn: nat, b: nat)
    requires PageUsed(s, s', root, vpn, b)
    ensures s'.spaces == s.spaces && s'.kernel == s.kernel
  {
  }

  lemma TopUntouched(s: State, s': State, r: nat, vpn: nat, p: nat)
    requires Inv(s) && r in s.Roots() && p !in s.used && p in s'.mem && s'.mem == s.mem[p := s'.mem[p]]
    ensures Walk(s'.mem, r, vpn, 3) == Walk(s.mem, r, vpn, 3)
  {
    hide Present, Huge, WalkFrame, Ix, RootLink, ChildLink, ParentLink;
    assert !s.Owned(p);
    WalkStable(s.mem, s'.mem, s.tables, s.Roots(), r, vpn, 3);
  }

  lemma TopUnwritten(s: State, s': State, r: nat, vpn: nat, f: nat, words: seq<nat>)
    requires Inv(s) && r in s.Roots() && !s.Owned(f) && s'.mem == s.mem[f := words]
    ensures Walk(s'.mem, r, vpn, 3) == Walk(s.mem, r, vpn, 3)
  {
    hide Present, Huge, WalkFrame, Ix, RootLink, ChildLink, ParentLink;
    WalkStable(s.mem, s'.mem, s.tables, s.Roots(), r, vpn, 3);
  }

  lemma SharedStep(s: State, op: Op, s': State, k: nat, vpn: nat)
    requires Step(s, op, s') && k in s.spaces && k in s'.spaces && vpn < VPN_LIMIT
    requires s.kernel in s.spaces && SharesKernel(s, k, vpn)
    ensures s'.kernel == s.kernel && s'.kernel in s'.spaces && SharesKernel(s', k, vpn)
    ensures View(s', k, vpn) == View(s', s'.kernel, vpn)
  {
    hide Step, Walk;
    TopStays(s, op, s', k, vpn);
    TopStays(s, op, s', s.kernel, vpn);
    SharedBelow(s'.mem, s'.spaces[s.kernel].pml4, s'.spaces[k].pml4, vpn);
  }

  /** Over every run, a space that shares a present top entry with the kernel goes on seeing what the
      kernel sees there. */
  lemma {:induction false} KernelHalfShared(states: seq<State>, ops: seq<Op>, k: nat, vpn: nat)
    requires Run(states, ops) && vpn < VPN_LIMIT && forall i :: 0 <= i < |states| ==> k in states[i].spaces
    requires states[0].kernel in states[0].spaces && SharesKernel(states[0], k, vpn)
    ensures var s := states[|ops|];
      s.kernel in s.spaces && SharesKernel(s, k, vpn) && View(s, k, vpn) == View(s, s.kernel, vpn)
    decreases |ops|
  {
    hide Step, Walk;
    if ops == [] {
      var s := states[0];
      SharedBelow(s.mem, s.spaces[s.kernel].pml4, s.spaces[k].pml4, vpn);
    } else {
      assert Step(states[0], ops[0], states[1]);
      SharedStep(states[0], ops[0], states[1], k, vpn);
      assert Run(states[1..], ops[1..]) by {
        forall i | 0 <= i < |ops[1..]| ensures Step(states[1..][i], ops[1..][i], states[1..][i + 1]) {
          assert Step(states[i + 1], ops[i + 1], states[i + 2]);
        }
      }
      KernelHalfShared(states[1..], ops[1..], k, vpn);
    }
  }

  /** A new space has the kernel's top entries of that moment, so it shares exactly those present then. */
  lemma BornShared(s: State, op: Op, s': State, vpn: nat)
    requires Step(s, op, s') && op.Create? && !UserHalf(vpn)
    ensures s'.kernel in s'.spaces && op.k in s'.spaces
    ensures SharesTop(s', s'.spaces[s'.kernel].pml4, s'.spaces[op.k].pml4, vpn)
    ensures SharesKernel(s', op.k, vpn) <==> Walk(s'.mem, s'.spaces[s'.kernel].pml4, vpn, 3).Table?
  {
    KernelLives(s);
    CreatedRoots(s, s', op.k, op.p);
    hide Present, Huge, WalkFrame, Inv;
    var kr := s.spaces[s.kernel].pml4;
    assert Rd(s'.mem, op.p, Ix(vpn, 4)) == Rd(s'.mem, kr, Ix(vpn, 4));
  }

  /** The exact condition: while a space has the kernel's top entry, what the kernel maps there is seen
      by the space if and only if the entry was present before. A slot filled later stays invisible. */
  lemma FirstMapSeenIff(s: State, op: Op, s': State, k: nat)
    requires Step(s, op, s') && op.Map? && op.ok && op.k == s.kernel && k in s.spaces && k != s.kernel
    requires s.kernel in s.spaces && View(s, s.kernel, op.vpn) == Unmapped
    requires SharesTop(s, s.spaces[s.kernel].pml4, s.spaces[k].pml4, op.vpn)
    ensures k in s'.spaces && s.kernel in s'.spaces && View(s', s.kernel, op.vpn) == Page(op.entry)
    ensures View(s', k, op.vpn) == (if SharesKernel(s, k, op.vpn) then Page(op.entry) else Unmapped)
  {
    hide Inv, Translate, Walk, WalksKept, RootsKept;
    var kr, r := s.spaces[s.kernel].pml4, s.spaces[k].pml4;
    assert kr in s.Roots() && r in s.Roots();
    assert SharesTop(s', kr, kr, op.vpn);
    if SharesKernel(s, k, op.vpn) {
      SharedStep(s, op, s', k, op.vpn);
    } else {
      if r == kr { DistinctPml4(s, k, s.kernel); }
      SlotStaysEmpty(s, s', kr, r, op.vpn);
    }
  }

  lemma SlotStaysEmpty(s: State, s': State, kr: nat, r: nat, vpn: nat)
    requires Inv(s) && r in s.Roots() && r != kr && RootsKept(s, s', kr) && !Walk(s.mem, r, vpn, 3).Table?
    ensures Translate(s'.mem, r, vpn) == Unmapped
  {
    hide Present, Huge, WalkFrame, Ix;
    assert Walk(s.mem, r, vpn, 3) == Follow(Rd(s.mem, r, Ix(vpn, 4)), 4) == Absent;
    assert Rd(s'.mem, r, Ix(vpn, 4)) == Rd(s.mem, r, Ix(vpn, 4));
    assert Walk(s'.mem, r, vpn, 3) == Absent;
    assert Walk(s'.mem, r, vpn, 2) == Absent;
  }
}
