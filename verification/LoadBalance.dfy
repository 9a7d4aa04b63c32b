/** Moving one ready thread from the busiest CPU to the idlest. */
module LoadBalance {
  import opened Scheduler

  /** The 32-bit value the scan starts its minimum from. */
  const NO_LOAD: nat := 0xFFFF_FFFF

  ghost predicate Loads(qs: seq<seq<nat>>) {
    |qs| <= 256 && forall i :: 0 <= i < |qs| ==> |qs[i]| < NO_LOAD - 2
  }

  function Total(qs: seq<seq<nat>>, t: nat): nat {
    if qs == [] then 0 else Count(qs[0], t) + Total(qs[1..], t)
  }

  ghost predicate SpreadWithin(qs: seq<seq<nat>>, lo: nat, hi: nat) {
    forall i :: 0 <= i < |qs| ==> lo <= |qs[i]| <= hi
  }

  /** The scan: the first most loaded and the first least loaded CPU. */
  method Scan(cpus: array<seq<nat>>) returns (maxCpu: nat, maxLoad: nat, minCpu: nat, minLoad: nat)
    requires Loads(cpus[..])
    ensures cpus.Length == 0 ==> maxLoad == 0 && minLoad == NO_LOAD
    ensures cpus.Length > 0 ==>
      && maxCpu < cpus.Length && maxLoad == |cpus[maxCpu]|
      && minCpu < cpus.Length && minLoad == |cpus[minCpu]|
      && (forall i :: 0 <= i < cpus.Length ==> minLoad <= |cpus[i]| <= maxLoad)
      && (forall i :: 0 <= i < minCpu ==> |cpus[i]| > minLoad)
      && (maxLoad > 0 ==> forall i :: 0 <= i < maxCpu ==> |cpus[i]| < maxLoad)
  {
    maxLoad, minLoad, maxCpu, minCpu := 0, NO_LOAD, 0, 0;
    var i := 0;
    while i < cpus.Length
      invariant i <= cpus.Length
      invariant i == 0 ==> maxLoad == 0 && minLoad == NO_LOAD && maxCpu == 0 == minCpu
      invariant i > 0 ==>
        && maxCpu < i && (maxLoad == |cpus[maxCpu]|) && minCpu < i && minLoad == |cpus[minCpu]|
        && (forall j :: 0 <= j < i ==> minLoad <= |cpus[j]| <= maxLoad)
        && (forall j :: 0 <= j < minCpu ==> |cpus[j]| > minLoad)
        && (maxLoad > 0 ==> forall j :: 0 <= j < maxCpu ==> |cpus[j]| < maxLoad)
    {
      assert |cpus[i]| == |cpus[..][i]|;
      if |cpus[i]| > maxLoad {
        maxLoad, maxCpu := |cpus[i]|, i;
      }
      if |cpus[i]| < minLoad {
        minLoad, minCpu := |cpus[i]|, i;
      }
      i := i + 1;
    }
  }

  /** The first most loaded and the first least loaded CPU. */
  ghost predicate Extremes(qs: seq<seq<nat>>, hi: nat, lo: nat) {
    && hi < |qs| && lo < |qs|
    && (forall i :: 0 <= i < |qs| ==> |qs[lo]| <= |qs[i]| <= |qs[hi]|)
    && (forall i :: 0 <= i < lo ==> |qs[i]| > |qs[lo]|)
    && (forall i :: 0 <= i < hi ==> |qs[i]| < |qs[hi]|)
  }

  /** What balancing makes of the queues when the gap between `hi` and `lo` is more than two: the head of
      the longer queue moves to the tail of the shorter, or to its own tail when it may not move. */
  function Shifted(qs: seq<seq<nat>>, hi: nat, lo: nat, may: bool): seq<seq<nat>>
    requires hi < |qs| && lo < |qs| && qs[hi] != []
  {
    if may then qs[hi := qs[hi][1..]][lo := qs[lo] + [qs[hi][0]]] else qs[hi := qs[hi][1..] + [qs[hi][0]]]
  }

  lemma OneExtreme(qs: seq<seq<nat>>, hi: nat, lo: nat, hi': nat, lo': nat)
    requires Extremes(qs, hi, lo) && Extremes(qs, hi', lo')
    ensures hi == hi' && lo == lo'
  {
    assert |qs[hi]| == |qs[hi']| && |qs[lo]| == |qs[lo']|;
  }

  /** `LoadBalanceThreads` over the CPUs' ready queues; `allowed(t, cpu)` is the affinity test. The
      gap test is 32-bit arithmetic. */
  method Balance(cpus: array<seq<nat>>, allowed: (nat, nat) -> bool)
    requires Loads(cpus[..])
    modifies cpus
    ensures forall t :: Total(cpus[..], t) == Total(old(cpus[..]), t)
    ensures forall lo, hi :: SpreadWithin(old(cpus[..]), lo, hi) ==> SpreadWithin(cpus[..], lo, hi)
    ensures forall t, c :: 0 <= c < cpus.Length && t in cpus[c] ==> t in old(cpus[c]) || allowed(t, c)
    ensures (forall i, j :: 0 <= i < cpus.Length && 0 <= j < cpus.Length ==> |old(cpus[i])| <= |old(cpus[j])| + 2) ==>
      cpus[..] == old(cpus[..])
    ensures forall hi: nat, lo: nat ::
      Extremes(old(cpus[..]), hi, lo) && |old(cpus[..])[hi]| > |old(cpus[..])[lo]| + 2 ==>
        cpus[..] == Shifted(old(cpus[..]), hi, lo, allowed(old(cpus[..])[hi][0], lo))
  {
    var maxCpu, maxLoad, minCpu, minLoad := Scan(cpus);
    if maxLoad <= (minLoad + 2) % 0x1_0000_0000 {
      return;
    }
    var t := cpus[maxCpu][0];
    ghost var q := cpus[..];
    assert Extremes(q, maxCpu, minCpu) by {
      assert forall i :: 0 <= i < |q| ==> q[i] == cpus[i];
    }
    forall hi: nat, lo: nat | Extremes(q, hi, lo) ensures hi == maxCpu && lo == minCpu {
      OneExtreme(q, hi, lo, maxCpu, minCpu);
    }
    if allowed(t, minCpu) {
      cpus[maxCpu] := cpus[maxCpu][1..];
      cpus[minCpu] := cpus[minCpu] + [t];
      Moved(q, maxCpu, minCpu);
      assert cpus[..] == q[maxCpu := q[maxCpu][1..]][minCpu := q[minCpu] + [t]];
    } else {
      cpus[maxCpu] := cpus[maxCpu][1..] + [t];
      PutBack(q, maxCpu);
      assert cpus[..] == q[maxCpu := q[maxCpu][1..] + [t]];
    }
  }

  lemma {:induction false} TotalUpdate(qs: seq<seq<nat>>, i: nat, q: seq<nat>, t: nat)
    requires i < |qs|
    ensures Total(qs[i := q], t) + Count(qs[i], t) == Total(qs, t) + Count(q, t)
  {
    if i > 0 {
      assert qs[i := q][1..] == qs[1..][i - 1 := q];
      TotalUpdate(qs[1..], i - 1, q, t);
    }
  }

  lemma Moved(qs: seq<seq<nat>>, from: nat, to: nat)
    requires from < |qs| && to < |qs| && |qs[from]| > |qs[to]| + 2
    ensures var qs' := qs[from := qs[from][1..]][to := qs[to] + [qs[from][0]]];
      && (forall t :: Total(qs', t) == Total(qs, t))
      && (forall lo, hi :: SpreadWithin(qs, lo, hi) ==> SpreadWithin(qs', lo, hi))
  {
    var x := qs[from][0];
    var mid := qs[from := qs[from][1..]];
    var qs' := mid[to := qs[to] + [x]];
    forall t ensures Total(qs', t) == Total(qs, t) {
      TotalUpdate(qs, from, qs[from][1..], t);
      TotalUpdate(mid, to, qs[to] + [x], t);
      CountConcat(qs[to], [x], t);
      CountSingle(x, t);
    }
  }

  lemma PutBack(qs: seq<seq<nat>>, from: nat)
    requires from < |qs| && qs[from] != []
    ensures var qs' := qs[from := qs[from][1..] + [qs[from][0]]];
      && (forall t :: Total(qs', t) == Total(qs, t))
      && (forall lo, hi :: SpreadWithin(qs, lo, hi) ==> SpreadWithin(qs', lo, hi))
  {
    var x := qs[from][0];
    forall t ensures Total(qs[from := qs[from][1..] + [x]], t) == Total(qs, t) {
      TotalUpdate(qs, from, qs[from][1..] + [x], t);
      CountConcat(qs[from][1..], [x], t);
      CountSingle(x, t);
    }
  }
}
