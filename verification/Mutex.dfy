/** The recursive mutex as a step machine: any number of CPUs, and every read, store and
compare-and-swap of a shared field is a step of its own. */
module Mutex {

  const NO_OWNER: nat := 0xFFFF_FFFF
  const WRAP: nat := 0x1_0000_0000

  /** Where a CPU is in the mutex code. `try` tells TryAcquireMutex from AcquireMutex; `v` is a value
      read from the recursion count and not yet stored back. */
  datatype Pc =
    | Idle
    | AcqReadOwner(try: bool)
    | AcqReadCount
    | AcqStoreCount(v: nat)
    | AcqSwap(try: bool)
    | AcqSetOwner
    | AcqSetCount
    | RelReadOwner
    | RelReadCount
    | RelStoreCount(v: nat)
    | RelTest
    | RelClearOwner
    | RelUnlock

  /** A CPU's place and how many of its acquisitions are not yet released. */
  datatype Local = Local(pc: Pc, depth: nat)

  datatype State = State(lock: nat, owner: nat, count: nat, cpus: map<nat, Local>)

  datatype Call = Acquire | TryAcquire | Release

  /** After InitializeMutex, with every CPU outside the mutex code. */
  function Initial(ids: set<nat>): State {
    State(0, NO_OWNER, 0, map c | c in ids :: Local(Idle, 0))
  }

  function At(s: State, c: nat, pc: Pc): State
    requires c in s.cpus
  {
    s.(cpus := s.cpus[c := s.cpus[c].(pc := pc)])
  }

  function AtDepth(s: State, c: nat, pc: Pc, depth: nat): State {
    s.(cpus := s.cpus[c := Local(pc, depth)])
  }

  /** One step of CPU `c`; `call` is the next call it makes when idle. */
  function Step(s: State, c: nat, call: Call): State
    requires c in s.cpus
  {
    var l := s.cpus[c];
    match l.pc
    case Idle =>
      (match call
       case Acquire => At(s, c, AcqReadOwner(false))
       case TryAcquire => At(s, c, AcqReadOwner(true))
       case Release => At(s, c, RelReadOwner))
    case AcqReadOwner(try) => At(s, c, if s.owner == c then AcqReadCount else AcqSwap(try))
    case AcqReadCount => At(s, c, AcqStoreCount(s.count))
    case AcqStoreCount(v) => AtDepth(s.(count := (v + 1) % WRAP), c, Idle, l.depth + 1)
    case AcqSwap(try) =>
      if s.lock == 0 then At(s.(lock := 1), c, AcqSetOwner)
      else if try then At(s, c, Idle)
      else s
    case AcqSetOwner => At(s.(owner := c), c, AcqSetCount)
    case AcqSetCount => AtDepth(s.(count := 1), c, Idle, 1)
    case RelReadOwner => At(s, c, if s.owner != c then Idle else RelReadCount)
    case RelReadCount => At(s, c, RelStoreCount(s.count))
    case RelStoreCount(v) =>
      AtDepth(s.(count := (v + WRAP - 1) % WRAP), c, RelTest, if l.depth > 0 then l.depth - 1 else 0)
    case RelTest => At(s, c, if s.count == 0 then RelClearOwner else Idle)
    case RelClearOwner => At(s.(owner := NO_OWNER), c, RelUnlock)
    case RelUnlock => At(s.(lock := 0), c, Idle)
  }

  /** A CPU holds the mutex from its successful swap to its unlocking store. */
  predicate Holds(l: Local) {
    l.depth > 0 || l.pc in {AcqSetOwner, AcqSetCount, RelTest, RelClearOwner, RelUnlock}
  }

  /** What the shared fields are while `c` holds the mutex, by where `c` is. */
  predicate HolderView(s: State, c: nat, l: Local) {
    match l.pc
    case AcqSetOwner => l.depth == 0 && s.owner == NO_OWNER && s.count == 0
    case AcqSetCount => l.depth == 0 && s.owner == c && s.count == 0
    case RelUnlock => l.depth == 0 && s.owner == NO_OWNER && s.count == 0
    case RelClearOwner => l.depth == 0 && s.owner == c && s.count == 0
    case RelTest => s.owner == c && s.count == l.depth
    case AcqStoreCount(v) => l.depth > 0 && s.owner == c && s.count == l.depth == v
    case RelStoreCount(v) => l.depth > 0 && s.owner == c && s.count == l.depth == v
    case AcqSwap(_) => false
    case _ => l.depth > 0 && s.owner == c && s.count == l.depth
  }

  predicate OutsiderView(l: Local) {
    l.depth == 0 && (l.pc.Idle? || l.pc.AcqReadOwner? || l.pc.AcqSwap? || l.pc.RelReadOwner?)
  }

  ghost predicate Inv(s: State) {
    && (forall c :: c in s.cpus ==> c < NO_OWNER)
    && (forall c, d :: c in s.cpus && d in s.cpus && Holds(s.cpus[c]) && Holds(s.cpus[d]) ==> c == d)
    && (forall c :: c in s.cpus ==>
          if Holds(s.cpus[c]) then s.lock == 1 && HolderView(s, c, s.cpus[c]) && s.cpus[c].depth < WRAP
          else OutsiderView(s.cpus[c]))
    && ((forall c :: c in s.cpus ==> !Holds(s.cpus[c])) ==> s.lock == 0 && s.owner == NO_OWNER && s.count == 0)
  }

  /** The one limit of the 32-bit count: a CPU never nests 2^32 - 1 times. */
  predicate NestsBelowWrap(s: State, c: nat, call: Call)
    requires c in s.cpus
  {
    s.cpus[c].pc.AcqStoreCount? ==> s.cpus[c].depth + 1 < WRAP
  }

  lemma InitialInv(ids: set<nat>)
    requires forall c :: c in ids ==> c < NO_OWNER
    ensures Inv(Initial(ids))
  {
  }

  /** Every single step of every CPU keeps the invariant. */
  lemma StepInv(s: State, c: nat, call: Call)
    requires Inv(s) && c in s.cpus && NestsBelowWrap(s, c, call)
    ensures Inv(Step(s, c, call)) && Step(s, c, call).cpus.Keys == s.cpus.Keys
  {
    hide Step, Holds, HolderView, OutsiderView, NestsBelowWrap;
    Others(s, c, call);
    if Holds(s.cpus[c]) {
      HolderStep(s, c, call);
    } else {
      NotOwner(s, c);
      OutsiderStep(s, c, call);
    }
  }

  /** A step touches only its own CPU's local state. */
  lemma Others(s: State, c: nat, call: Call)
    requires c in s.cpus
    ensures var s' := Step(s, c, call);
      s'.cpus.Keys == s.cpus.Keys && forall d :: d in s.cpus && d != c ==> s'.cpus[d] == s.cpus[d]
  {
  }

  lemma NotOwner(s: State, c: nat)
    requires Inv(s) && c in s.cpus && !Holds(s.cpus[c])
    ensures s.owner != c
  {
  }

  /** The holder's own step: it still holds and sees what it should, or it has just unlocked. */
  lemma HolderStep(s: State, c: nat, call: Call)
    requires c in s.cpus && NestsBelowWrap(s, c, call) && Holds(s.cpus[c])
    requires s.lock == 1 && HolderView(s, c, s.cpus[c]) && s.cpus[c].depth < WRAP
    ensures var s' := Step(s, c, call);
      && c in s'.cpus
      && (if Holds(s'.cpus[c]) then s'.lock == 1 && HolderView(s', c, s'.cpus[c]) && s'.cpus[c].depth < WRAP
          else OutsiderView(s'.cpus[c]) && s'.lock == 0 && s'.owner == NO_OWNER && s'.count == 0)
  {
  }

  /** Any other CPU's step: it changes no shared field, unless it wins the free lock. */
  lemma OutsiderStep(s: State, c: nat, call: Call)
    requires c in s.cpus && OutsiderView(s.cpus[c]) && s.owner != c
    ensures var s' := Step(s, c, call);
      && c in s'.cpus
      && (if Holds(s'.cpus[c])
          then s.lock == 0 && s' == AtDepth(s.(lock := 1), c, AcqSetOwner, 0)
               && (s.owner == NO_OWNER && s.count == 0 ==> HolderView(s', c, s'.cpus[c])) && s'.cpus[c].depth < WRAP
          else OutsiderView(s'.cpus[c]) && s'.lock == s.lock && s'.owner == s.owner && s'.count == s.count)
    ensures forall d, l ::
      HolderView(s, d, l) && !Holds(Step(s, c, call).cpus[c]) ==> HolderView(Step(s, c, call), d, l)
  {
  }

  // ---- Whole runs ----

  function After(s: State, moves: seq<(nat, Call)>): State
    requires forall i :: 0 <= i < |moves| ==> moves[i].0 in s.cpus
    decreases |moves|
  {
    if moves == [] then s
    else
      var s' := Step(s, moves[0].0, moves[0].1);
      assert s'.cpus.Keys == s.cpus.Keys;
      After(s', moves[1..])
  }

  ghost predicate Admissible(s: State, moves: seq<(nat, Call)>)
    decreases |moves|
  {
    moves == [] ||
    (&& moves[0].0 in s.cpus && NestsBelowWrap(s, moves[0].0, moves[0].1)
     && Admissible(Step(s, moves[0].0, moves[0].1), moves[1..]))
  }

  lemma {:induction false} RunInv(s: State, moves: seq<(nat, Call)>)
    requires Inv(s) && (forall i :: 0 <= i < |moves| ==> moves[i].0 in s.cpus) && Admissible(s, moves)
    ensures Inv(After(s, moves))
    decreases |moves|
  {
    hide Inv, Step, NestsBelowWrap;
    if moves != [] {
      StepInv(s, moves[0].0, moves[0].1);
      RunInv(Step(s, moves[0].0, moves[0].1), moves[1..]);
    }
  }

  /** Safety under every interleaving: at most one CPU is inside, the owner is nobody or the holder,
      the holder's nesting depth is the count once it is through, and the lock is set exactly
      while somebody holds it. */
  lemma Safety(ids: set<nat>, moves: seq<(nat, Call)>, c: nat, d: nat)
    requires forall i :: i in ids ==> i < NO_OWNER
    requires forall i :: 0 <= i < |moves| ==> moves[i].0 in ids
    requires Admissible(Initial(ids), moves) && c in ids && d in ids
    ensures var s := After(Initial(ids), moves);
      && c in s.cpus && d in s.cpus
      && (Holds(s.cpus[c]) && Holds(s.cpus[d]) ==> c == d)
      && (s.owner == c ==> Holds(s.cpus[c]))
      && (s.cpus[c].depth > 0 ==> s.owner == c && s.lock == 1 && s.count == s.cpus[c].depth)
      && (s.lock == 1 <==> exists e :: e in s.cpus && Holds(s.cpus[e]))
      && (s.owner == NO_OWNER || s.owner in s.cpus)
  {
    InitialInv(ids);
    RunInv(Initial(ids), moves);
    AfterKeys(Initial(ids), moves);
    InvFacts(After(Initial(ids), moves), c, d);
  }

  lemma {:induction false} AfterKeys(s: State, moves: seq<(nat, Call)>)
    requires forall i :: 0 <= i < |moves| ==> moves[i].0 in s.cpus
    ensures After(s, moves).cpus.Keys == s.cpus.Keys
    decreases |moves|
  {
    if moves != [] { AfterKeys(Step(s, moves[0].0, moves[0].1), moves[1..]); }
  }

  lemma InvFacts(s: State, c: nat, d: nat)
    requires Inv(s) && c in s.cpus && d in s.cpus
    ensures Holds(s.cpus[c]) && Holds(s.cpus[d]) ==> c == d
    ensures s.owner == c ==> Holds(s.cpus[c])
    ensures s.cpus[c].depth > 0 ==> s.owner == c && s.lock == 1 && s.count == s.cpus[c].depth
    ensures s.lock == 1 <==> exists e :: e in s.cpus && Holds(s.cpus[e])
    ensures s.owner == NO_OWNER || s.owner in s.cpus
  {
  }

  /** The recursive fast path is taken by the holder only. */
  lemma FastPathIsHolders(s: State, c: nat, call: Call)
    requires Inv(s) && c in s.cpus && s.cpus[c].pc.AcqReadOwner?
    ensures Step(s, c, call).cpus[c].pc == AcqReadCount <==> s.cpus[c].depth > 0
  {
    assert s.owner == c ==> Holds(s.cpus[c]);
  }

  /** The lock is dropped by exactly one kind of step: the last store of a release that brought the
      holder's depth to zero. */
  lemma LockDropsAtOutermostRelease(s: State, c: nat, call: Call)
    requires Inv(s) && c in s.cpus && s.lock == 1
    ensures Step(s, c, call).lock == 0 <==> s.cpus[c].pc == RelUnlock
    ensures s.cpus[c].pc == RelUnlock ==> s.cpus[c].depth == 0 && Holds(s.cpus[c]) && s.owner == NO_OWNER
  {
  }

  /** And a release that brings the depth to zero goes on to drop it, while an inner one does not. */
  lemma ReleaseTestsDepth(s: State, c: nat, call: Call)
    requires Inv(s) && c in s.cpus && s.cpus[c].pc == RelTest
    ensures Step(s, c, call).cpus[c].pc == if s.cpus[c].depth == 0 then RelClearOwner else Idle
  {
  }

  // ---- Whole calls ----

  /** CPU `c` makes one call from move `i` on and is done with it at move `j`, other CPUs moving in between
      as they like. */
  ghost predicate WholeCall(s: State, moves: seq<(nat, Call)>, c: nat, call: Call, i: nat, j: nat)
    requires forall n :: 0 <= n < |moves| ==> moves[n].0 in s.cpus
  {
    && c in s.cpus && i < j <= |moves| && moves[i] == (c, call)
    && LocalAt(s, moves, c, i).pc == Idle && LocalAt(s, moves, c, j).pc == Idle
    && forall n :: i < n < j ==> LocalAt(s, moves, c, n).pc != Idle
  }

  /** A run from a sound state in which nobody nests too deep. */
  ghost predicate Sound(s: State, moves: seq<(nat, Call)>) {
    Inv(s) && (forall n :: 0 <= n < |moves| ==> moves[n].0 in s.cpus) && Admissible(s, moves)
  }

  /** The state after `n` moves, and a CPU's own part of it. */
  function StateAt(s: State, moves: seq<(nat, Call)>, n: nat): (r: State)
    requires n <= |moves| && forall i :: 0 <= i < |moves| ==> moves[i].0 in s.cpus
    ensures r.cpus.Keys == s.cpus.Keys
  {
    AfterKeys(s, moves[..n]);
    After(s, moves[..n])
  }

  function LocalAt(s: State, moves: seq<(nat, Call)>, c: nat, n: nat): Local
    requires c in s.cpus && n <= |moves| && forall i :: 0 <= i < |moves| ==> moves[i].0 in s.cpus
  {
    StateAt(s, moves, n).cpus[c]
  }

  lemma {:induction false} AfterSnoc(s: State, moves: seq<(nat, Call)>, n: nat)
    requires n < |moves| && forall i :: 0 <= i < |moves| ==> moves[i].0 in s.cpus
    ensures StateAt(s, moves, n + 1) == Step(StateAt(s, moves, n), moves[n].0, moves[n].1)
    decreases n
  {
    hide Step;
    if n == 0 {
      var s' := Step(s, moves[0].0, moves[0].1);
      Others(s, moves[0].0, moves[0].1);
      assert moves[..0] == [] && moves[..1][1..] == [] && moves[..1][0] == moves[0];
      assert After(s', []) == s';
    } else {
      var s' := Step(s, moves[0].0, moves[0].1);
      Others(s, moves[0].0, moves[0].1);
      assert moves[..n + 1][1..] == moves[1..][..n] && moves[..n][1..] == moves[1..][..n - 1];
      AfterSnoc(s', moves[1..], n - 1);
    }
  }

  lemma {:induction false} InvAt(s: State, moves: seq<(nat, Call)>, n: nat)
    requires Inv(s) && (forall i :: 0 <= i < |moves| ==> moves[i].0 in s.cpus) && Admissible(s, moves) && n <= |moves|
    ensures Inv(StateAt(s, moves, n))
    decreases n
  {
    hide Inv, Step, NestsBelowWrap;
    if n > 0 {
      StepInv(s, moves[0].0, moves[0].1);
      assert moves[..n][1..] == moves[1..][..n - 1];
      InvAt(Step(s, moves[0].0, moves[0].1), moves[1..], n - 1);
    }
  }

  predicate SameShared(s: State, s': State) { s'.lock == s.lock && s'.owner == s.owner && s'.count == s.count }

  /** Where a CPU can be during a call it began at depth `d`. */
  predicate InCall(l: Local, call: Call, d: nat) {
    match call
    case Acquire => InAcquire(l, false, d)
    case TryAcquire => InAcquire(l, true, d)
    case Release =>
      if d == 0 then l == Local(RelReadOwner, 0)
      else
        || (l.depth == d && (l.pc in {RelReadOwner, RelReadCount} || l.pc.RelStoreCount?))
        || (l.depth == d - 1 && l.pc == RelTest)
        || (d == 1 && l.depth == 0 && l.pc in {RelClearOwner, RelUnlock})
  }

  predicate InAcquire(l: Local, try: bool, d: nat) {
    && l.depth == d
    && (l.pc == AcqReadOwner(try)
        || (if d > 0 then l.pc == AcqReadCount || l.pc.AcqStoreCount?
            else l.pc in {AcqSwap(try), AcqSetOwner, AcqSetCount}))
  }

  /** What the CPU's own step does during a call: it stays in the call or ends it. */
  lemma CallStep(s: State, c: nat, next: Call, call: Call, d: nat)
    requires Inv(s) && c in s.cpus && InCall(s.cpus[c], call, d)
    ensures var s' := Step(s, c, next);
      var l := s'.cpus[c];
      match call
      case Acquire => InCall(l, call, d) || l == Local(Idle, d + 1)
      case TryAcquire =>
        if d == 0 && s.cpus[c].pc == AcqSwap(true) then
          if s.lock == 0 then l == Local(AcqSetOwner, 0) else l == Local(Idle, 0)
        else InCall(l, call, d) || l == Local(Idle, d + 1)
      case Release =>
        if d == 0 then l == Local(Idle, 0) && SameShared(s, s')
        else
          && (InCall(l, call, d) || l == Local(Idle, d - 1))
          && (if d == 1 && l.pc == Idle then s.lock == 1 && s'.lock == 0 else s'.lock == s.lock == 1)
  {
    var l := s.cpus[c];
    NotOwnerOutside(s, c);
    if Holds(l) { assert HolderView(s, c, l) && s.lock == 1; } else { assert OutsiderView(l); }
  }

  lemma NotOwnerOutside(s: State, c: nat)
    requires Inv(s) && c in s.cpus
    ensures s.cpus[c].depth > 0 ==> s.owner == c && s.count == s.cpus[c].depth
    ensures !Holds(s.cpus[c]) ==> s.owner != c
  {
  }

  /** During the call the CPU is in it. */
  lemma {:induction false} InCallAt(s: State, moves: seq<(nat, Call)>, c: nat, call: Call, i: nat, j: nat, n: nat)
    requires Sound(s, moves) && WholeCall(s, moves, c, call, i, j) && i < n < j
    ensures InCall(LocalAt(s, moves, c, n), call, LocalAt(s, moves, c, i).depth)
    decreases n
  {
    hide Inv, StateAt, Admissible;
    var d, u := LocalAt(s, moves, c, i).depth, StateAt(s, moves, n - 1);
    AfterSnoc(s, moves, n - 1);
    if n > i + 1 {
      hide Step, InCall;
      InCallAt(s, moves, c, call, i, j, n - 1);
      Others(u, moves[n - 1].0, moves[n - 1].1);
      if moves[n - 1].0 == c {
        InvAt(s, moves, n - 1);
        CallStep(u, c, moves[n - 1].1, call, d);
        WinningSwap(call, d);
      }
    }
  }

  lemma WinningSwap(call: Call, d: nat)
    ensures call == TryAcquire && d == 0 ==> InCall(Local(AcqSetOwner, 0), call, d)
  {
  }

  /** The last step of the call is the CPU's own, from inside the call. */
  lemma LastStep(s: State, moves: seq<(nat, Call)>, c: nat, call: Call, i: nat, j: nat)
    requires Sound(s, moves) && WholeCall(s, moves, c, call, i, j)
    ensures i < j - 1 && moves[j - 1].0 == c && Inv(StateAt(s, moves, j - 1))
    ensures InCall(LocalAt(s, moves, c, j - 1), call, LocalAt(s, moves, c, i).depth)
    ensures StateAt(s, moves, j) == Step(StateAt(s, moves, j - 1), c, moves[j - 1].1)
  {
    hide Inv, StateAt, Admissible, InCall;
    AfterSnoc(s, moves, j - 1);
    InvAt(s, moves, j - 1);
    Others(StateAt(s, moves, j - 1), moves[j - 1].0, moves[j - 1].1);
    InCallAt(s, moves, c, call, i, j, j - 1);
  }

  /** A finished acquire has gained one level, under every interleaving. */
  lemma AcquireGains(s: State, moves: seq<(nat, Call)>, c: nat, i: nat, j: nat)
    requires Sound(s, moves) && WholeCall(s, moves, c, Acquire, i, j)
    ensures LocalAt(s, moves, c, j).depth == LocalAt(s, moves, c, i).depth + 1
  {
    hide Inv, StateAt, Admissible, Step;
    LastStep(s, moves, c, Acquire, i, j);
    CallStep(StateAt(s, moves, j - 1), c, moves[j - 1].1, Acquire, LocalAt(s, moves, c, i).depth);
    NeverIdle(Acquire, LocalAt(s, moves, c, i).depth);
  }

  lemma NeverIdle(call: Call, d: nat)
    ensures forall l: Local :: InCall(l, call, d) ==> l.pc != Idle
  {
  }

  /** A finished release has given up one level. The outermost one ends by dropping the lock; an inner one
      never touches it; and a release by a CPU that holds nothing changes no shared field. */
  lemma ReleaseGives(s: State, moves: seq<(nat, Call)>, c: nat, i: nat, j: nat)
    requires Sound(s, moves) && WholeCall(s, moves, c, Release, i, j)
    ensures var d := LocalAt(s, moves, c, i).depth;
      && LocalAt(s, moves, c, j).depth == (if d == 0 then 0 else d - 1)
      && (d == 1 ==> moves[j - 1].0 == c && StateAt(s, moves, j - 1).lock == 1 && StateAt(s, moves, j).lock == 0)
      && (d > 1 ==> forall n :: i <= n < j && moves[n].0 == c ==>
            StateAt(s, moves, n + 1).lock == StateAt(s, moves, n).lock)
      && (d == 0 ==> forall n :: i <= n < j && moves[n].0 == c ==>
            SameShared(StateAt(s, moves, n), StateAt(s, moves, n + 1)))
  {
    hide Inv, StateAt, Admissible, InCall;
    var d := LocalAt(s, moves, c, i).depth;
    LastStep(s, moves, c, Release, i, j);
    CallStep(StateAt(s, moves, j - 1), c, moves[j - 1].1, Release, d);
    NeverIdle(Release, d);
    forall n | i <= n < j && moves[n].0 == c
      ensures d > 1 ==> StateAt(s, moves, n + 1).lock == StateAt(s, moves, n).lock
      ensures d == 0 ==> SameShared(StateAt(s, moves, n), StateAt(s, moves, n + 1))
    {
      AfterSnoc(s, moves, n);
      if n > i {
        InCallAt(s, moves, c, Release, i, j, n);
        InvAt(s, moves, n);
        CallStep(StateAt(s, moves, n), c, moves[n].1, Release, d);
      }
    }
  }

  /** The CPU's swap found the lock free during the call. */
  ghost predicate MetFreeLock(s: State, moves: seq<(nat, Call)>, c: nat, i: nat, j: nat)
    requires c in s.cpus && j <= |moves| && forall n :: 0 <= n < |moves| ==> moves[n].0 in s.cpus
  {
    exists n :: i < n < j && moves[n].0 == c && SwapsFree(StateAt(s, moves, n), c)
  }

  predicate SwapsFree(s: State, c: nat) { c in s.cpus && s.cpus[c].pc == AcqSwap(true) && s.lock == 0 }

  /** Through the swap, on the way in. */
  predicate Inside(l: Local, d: nat) { InAcquire(l, true, d) && l.pc != AcqSwap(true) && l.pc != AcqReadOwner(true) }

  lemma InsideStep(s: State, c: nat, next: Call, d: nat)
    requires c in s.cpus && Inside(s.cpus[c], d)
    ensures var l := Step(s, c, next).cpus[c]; Inside(l, d) || l == Local(Idle, d + 1)
  {
  }

  lemma {:induction false} InsideStays(s: State, moves: seq<(nat, Call)>, c: nat, d: nat, n: nat, m: nat)
    requires (forall i :: 0 <= i < |moves| ==> moves[i].0 in s.cpus) && c in s.cpus && n <= m <= |moves|
    requires Inside(LocalAt(s, moves, c, n), d) && forall a :: n <= a < m ==> LocalAt(s, moves, c, a).pc != Idle
    ensures Inside(LocalAt(s, moves, c, m), d) || LocalAt(s, moves, c, m) == Local(Idle, d + 1)
    decreases m
  {
    hide Step, Inside, StateAt;
    if n < m {
      InsideStays(s, moves, c, d, n, m - 1);
      var u := StateAt(s, moves, m - 1);
      AfterSnoc(s, moves, m - 1);
      Others(u, moves[m - 1].0, moves[m - 1].1);
      assert LocalAt(s, moves, c, m - 1) != Local(Idle, d + 1);
      if moves[m - 1].0 == c { InsideStep(u, c, moves[m - 1].1, d); }
    }
  }

  /** While no swap found the lock free, a CPU that began outside is still trying. */
  lemma {:induction false} StillTrying(s: State, moves: seq<(nat, Call)>, c: nat, i: nat, j: nat, n: nat)
    requires Sound(s, moves) && WholeCall(s, moves, c, TryAcquire, i, j) && i < n < j
    requires LocalAt(s, moves, c, i).depth == 0 && !MetFreeLock(s, moves, c, i, j)
    ensures LocalAt(s, moves, c, n) in {Local(AcqReadOwner(true), 0), Local(AcqSwap(true), 0)}
    decreases n
  {
    hide Inv, StateAt, Admissible;
    var u := StateAt(s, moves, n - 1);
    AfterSnoc(s, moves, n - 1);
    if n > i + 1 {
      StillTrying(s, moves, c, i, j, n - 1);
      Others(u, moves[n - 1].0, moves[n - 1].1);
      if moves[n - 1].0 == c {
        InvAt(s, moves, n - 1);
        NotOwnerOutside(u, c);
        assert !SwapsFree(u, c);
      }
    }
  }

  /** A finished try has gained a level if and only if its CPU was inside already or its swap found the lock
      free; a try that gained nothing changed no shared field. */
  lemma TryGainsIff(s: State, moves: seq<(nat, Call)>, c: nat, i: nat, j: nat)
    requires Sound(s, moves) && WholeCall(s, moves, c, TryAcquire, i, j)
    ensures var d, d' := LocalAt(s, moves, c, i).depth, LocalAt(s, moves, c, j).depth;
      d' == if d > 0 || MetFreeLock(s, moves, c, i, j) then d + 1 else d
  {
    hide Inv, StateAt, Admissible, Step;
    var d := LocalAt(s, moves, c, i).depth;
    LastStep(s, moves, c, TryAcquire, i, j);
    CallStep(StateAt(s, moves, j - 1), c, moves[j - 1].1, TryAcquire, d);
    NeverIdle(TryAcquire, d);
    if d == 0 {
      if MetFreeLock(s, moves, c, i, j) {
        FreeLockWins(s, moves, c, i, j);
      } else {
        StillTrying(s, moves, c, i, j, j - 1);
        assert !SwapsFree(StateAt(s, moves, j - 1), c);
        TryEnds(StateAt(s, moves, j - 1), c, moves[j - 1].1);
      }
    }
  }

  lemma FreeLockWins(s: State, moves: seq<(nat, Call)>, c: nat, i: nat, j: nat)
    requires Sound(s, moves) && WholeCall(s, moves, c, TryAcquire, i, j)
    requires LocalAt(s, moves, c, i).depth == 0 && MetFreeLock(s, moves, c, i, j)
    ensures LocalAt(s, moves, c, j) == Local(Idle, 1)
  {
    hide Inv, StateAt, Admissible, Step, InCall;
    var n :| i < n < j && moves[n].0 == c && SwapsFree(StateAt(s, moves, n), c);
    AfterSnoc(s, moves, n);
    InCallAt(s, moves, c, TryAcquire, i, j, n);
    InvAt(s, moves, n);
    CallStep(StateAt(s, moves, n), c, moves[n].1, TryAcquire, 0);
    assert LocalAt(s, moves, c, n + 1) == Local(AcqSetOwner, 0);
    InsideStays(s, moves, c, 0, n + 1, j);
  }

  lemma TryEnds(s: State, c: nat, next: Call)
    requires Inv(s) && c in s.cpus && s.cpus[c] in {Local(AcqReadOwner(true), 0), Local(AcqSwap(true), 0)}
    requires !SwapsFree(s, c) && Step(s, c, next).cpus[c].pc == Idle
    ensures Step(s, c, next).cpus[c].depth == 0
  {
  }

  lemma FailedTryChangesNothing(s: State, moves: seq<(nat, Call)>, c: nat, i: nat, j: nat, n: nat)
    requires Sound(s, moves) && WholeCall(s, moves, c, TryAcquire, i, j)
    requires LocalAt(s, moves, c, j).depth == LocalAt(s, moves, c, i).depth && i <= n < j && moves[n].0 == c
    ensures SameShared(StateAt(s, moves, n), StateAt(s, moves, n + 1))
  {
    hide Inv, StateAt, Admissible;
    TryGainsIff(s, moves, c, i, j);
    AfterSnoc(s, moves, n);
    if n > i {
      StillTrying(s, moves, c, i, j, n);
      InvAt(s, moves, n);
      NotOwnerOutside(StateAt(s, moves, n), c);
      assert !SwapsFree(StateAt(s, moves, n), c);
    }
  }

  // ---- Calls end ----

  /** A swap of AcquireMutex that finds the lock taken: the one step that can be repeated. */
  predicate Spins(s: State, c: nat) { c in s.cpus && s.cpus[c].pc == AcqSwap(false) && s.lock == 1 }

  /** The moves of `c` among moves i..n that are not spins. */
  ghost function Work(s: State, moves: seq<(nat, Call)>, c: nat, i: nat, n: nat): nat
    requires i <= n <= |moves| && forall m :: 0 <= m < |moves| ==> moves[m].0 in s.cpus
    decreases n
  {
    if n == i then 0
    else
      Work(s, moves, c, i, n - 1) + if moves[n - 1].0 == c && !Spins(StateAt(s, moves, n - 1), c) then 1 else 0
  }

  /** Steps left in a call, spins apart. */
  function StepsLeft(pc: Pc): nat {
    match pc
    case Idle => 0
    case AcqReadOwner(_) => 4
    case AcqReadCount => 2
    case AcqStoreCount(_) => 1
    case AcqSwap(_) => 3
    case AcqSetOwner => 2
    case AcqSetCount => 1
    case RelReadOwner => 6
    case RelReadCount => 5
    case RelStoreCount(_) => 4
    case RelTest => 3
    case RelClearOwner => 2
    case RelUnlock => 1
  }

  lemma StepAdvances(s: State, c: nat, next: Call)
    requires c in s.cpus && s.cpus[c].pc != Idle && (s.lock == 0 || s.lock == 1)
    ensures StepsLeft(Step(s, c, next).cpus[c].pc) < StepsLeft(s.cpus[c].pc) || (Spins(s, c) && Step(s, c, next) == s)
  {
  }

  /** No call takes more than seven moves of its CPU besides spinning on a taken lock: a CPU still inside
      a call has made at most six. */
  lemma {:induction false} CallsEnd(s: State, moves: seq<(nat, Call)>, c: nat, i: nat, n: nat)
    requires Sound(s, moves) && c in s.cpus && i < n <= |moves| && moves[i].0 == c
    requires LocalAt(s, moves, c, i).pc == Idle && forall m :: i < m <= n ==> LocalAt(s, moves, c, m).pc != Idle
    ensures Work(s, moves, c, i, n) + StepsLeft(LocalAt(s, moves, c, n).pc) <= 7
    ensures Work(s, moves, c, i, n) <= 6
    decreases n
  {
    hide Inv, StateAt, Admissible, Step, StepsLeft;
    var u, v := StateAt(s, moves, n - 1), StateAt(s, moves, n);
    AfterSnoc(s, moves, n - 1);
    Others(u, moves[n - 1].0, moves[n - 1].1);
    InvAt(s, moves, n - 1);
    if n == i + 1 {
      assert Work(s, moves, c, i, i) == 0;
      FirstMove(u, c, moves[i].1);
    } else {
      CallsEnd(s, moves, c, i, n - 1);
      LockIsBit(u);
      if moves[n - 1].0 == c { StepAdvances(u, c, moves[n - 1].1); }
    }
    BusyLeft(v.cpus[c].pc);
  }

  lemma FirstMove(s: State, c: nat, call: Call)
    requires c in s.cpus && s.cpus[c].pc == Idle
    ensures StepsLeft(Step(s, c, call).cpus[c].pc) <= 6 && !Spins(s, c)
  {
  }

  lemma BusyLeft(pc: Pc)
    ensures pc != Idle ==> StepsLeft(pc) >= 1
  {
  }

  lemma LockIsBit(s: State)
    requires Inv(s)
    ensures s.lock == 0 || s.lock == 1
  {
  }

  /** Why the nesting limit is needed: one more nested acquire at depth 2^32 - 1 wraps the count to 0. */
  lemma WrapLosesCount(s: State, c: nat, call: Call)
    requires Inv(s) && c in s.cpus && s.cpus[c].pc.AcqStoreCount?
    ensures Inv(Step(s, c, call)) <==> NestsBelowWrap(s, c, call)
  {
    var l, s' := s.cpus[c], Step(s, c, call);
    assert Holds(l) && HolderView(s, c, l);
    if NestsBelowWrap(s, c, call) {
      StepInv(s, c, call);
    } else {
      assert s'.count == 0 && s'.cpus[c].depth == WRAP;
    }
  }
}
