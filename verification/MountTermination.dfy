/** Exactly when mounting an image ends. */
module MountTermination {
  import opened Common
  import opened RamFs
  import opened Cpio

  /** The offset the parser stands at after `n` records, if it gets that far. */
  ghost function Visit(img: Str, n: nat): Option<nat> {
    if n == 0 then Some(0)
    else
      var p := Visit(img, n - 1);
      if p == None || Record(img, p.value) == Stop then None else Some(Record(img, p.value).next)
  }

  /** The parser never comes back to an offset it stood at before. */
  ghost predicate NeverReturns(img: Str) {
    forall i: nat, j: nat :: i < j && Visit(img, i).Some? ==> Visit(img, j) != Visit(img, i)
  }

  lemma {:induction false} VisitSmall(img: Str, n: nat)
    ensures Visit(img, n).Some? ==> Visit(img, n).value < WORD32
  {
    hide Slice, CString, ParseHex;
    if n > 0 && Visit(img, n).Some? { NextSmall(img, Visit(img, n - 1).value); }
  }

  lemma NextSmall(img: Str, off: nat)
    requires Record(img, off).Take?
    ensures Record(img, off).next < WORD32
  {
    hide Slice, CString, ParseHex, W, NameLen, DataLen, Mode, IsDir, CpioAlignUp;
  }

  /** Counting records from a visited offset is walking on. */
  lemma {:induction false} StopsVisit(img: Str, i: nat, off: nat, k: nat)
    requires Visit(img, i) == Some(off) && StopsIn(img, off, k)
    ensures Visit(img, i + k + 1) == None
    decreases k
  {
    hide Record;
    if k > 0 {
      assert Visit(img, i + 1) == Some(Record(img, off).next);
      StopsVisit(img, i + 1, Record(img, off).next, k - 1);
    }
  }

  lemma {:induction false} VisitStops(img: Str, i: nat, off: nat, m: nat) returns (k: nat)
    requires Visit(img, i) == Some(off) && Visit(img, i + m) == None
    ensures StopsIn(img, off, k)
    decreases m
  {
    hide Record;
    var r := Record(img, off);
    if r == Stop {
      k := 0;
    } else {
      assert Visit(img, i + 1) == Some(r.next);
      k := VisitStops(img, i + 1, r.next, m - 1);
      k := k + 1;
    }
  }

  /** After a return the parser goes round for ever. */
  lemma {:induction false} GoesRound(img: Str, i: nat, j: nat, n: nat)
    requires i < j && Visit(img, i).Some? && Visit(img, j) == Visit(img, i)
    ensures Visit(img, j + n) == Visit(img, i + n)
  {
    hide Record;
    if n > 0 { GoesRound(img, i, j, n - 1); }
  }

  lemma {:induction false} AlwaysThere(img: Str, i: nat, j: nat, n: nat)
    requires i < j && Visit(img, i).Some? && Visit(img, j) == Visit(img, i)
    ensures Visit(img, n).Some?
    decreases n
  {
    hide Record;
    if n <= j {
      VisitedBefore(img, n, j);
    } else {
      AlwaysThere(img, i, j, n - (j - i));
      GoesRound(img, i, j, n - j);
    }
  }

  lemma {:induction false} VisitedBefore(img: Str, n: nat, j: nat)
    requires n <= j && Visit(img, j).Some?
    ensures Visit(img, n).Some?
    decreases j
  {
    hide Record;
    if n < j { VisitedBefore(img, n, j - 1); }
  }

  // ---- Only so many offsets ----

  ghost function Visited(img: Str, n: nat): set<nat> {
    if n == 0 then {} else Visited(img, n - 1) + (if Visit(img, n - 1).Some? then {Visit(img, n - 1).value} else {})
  }

  lemma {:induction false} VisitedSeen(img: Str, n: nat, x: nat) returns (i: nat)
    requires x in Visited(img, n)
    ensures i < n && Visit(img, i) == Some(x) && x < WORD32
  {
    hide Visit;
    if x in Visited(img, n - 1) {
      i := VisitedSeen(img, n - 1, x);
    } else {
      i := n - 1;
      VisitSmall(img, i);
    }
  }

  lemma {:induction false} VisitedAll(img: Str, n: nat)
    requires NeverReturns(img) && forall i: nat :: i < n ==> Visit(img, i).Some?
    ensures |Visited(img, n)| == n
  {
    hide Visit;
    if n > 0 {
      VisitedAll(img, n - 1);
      var x := Visit(img, n - 1).value;
      NewOffset(img, n - 1, x);
      assert Visited(img, n) == Visited(img, n - 1) + {x};
    }
  }

  lemma NewOffset(img: Str, n: nat, x: nat)
    requires NeverReturns(img) && Visit(img, n) == Some(x)
    ensures x !in Visited(img, n)
  {
    hide Visit, Visited;
    if x in Visited(img, n) { var i := VisitedSeen(img, n, x); }
  }

  lemma {:induction false} SmallSet(s: set<nat>, bound: nat)
    requires forall x :: x in s ==> x < bound
    ensures |s| <= bound
    decreases bound
  {
    if bound > 0 {
      SmallSet(s - {bound - 1}, bound - 1);
      assert s <= (s - {bound - 1}) + {bound - 1};
    } else {
      assert s == {};
    }
  }

  /** The mount loop ends if and only if the parser never comes back to an offset it stood at. */
  lemma StopsIff(img: Str)
    ensures Stops(img) <==> NeverReturns(img)
  {
    hide Record, StopsIn, Visited;
    if Stops(img) {
      var k: nat :| StopsIn(img, 0, k);
      StopsVisit(img, 0, 0, k);
      forall i: nat, j: nat | i < j && Visit(img, i).Some? ensures Visit(img, j) != Visit(img, i) {
        if Visit(img, j) == Visit(img, i) { AlwaysThere(img, i, j, k + 1); }
      }
    }
    if NeverReturns(img) {
      if n: nat :| n <= WORD32 && Visit(img, n) == None {
        var k := VisitStops(img, 0, 0, n);
      } else {
        var n := WORD32 + 1;
        var seen := Visited(img, n);
        forall x | x in seen ensures x < WORD32 { var _ := VisitedSeen(img, n, x); }
        VisitedAll(img, n);
        SmallSet(seen, WORD32);
      }
    }
  }

  /** Every record the parser takes moves it forward. */
  ghost predicate Forward(img: Str) {
    forall n: nat :: TakesAt(img, n) ==> Record(img, Visit(img, n).value).next > Visit(img, n).value
  }

  ghost predicate TakesAt(img: Str, n: nat) {
    Visit(img, n).Some? && Record(img, Visit(img, n).value).Take?
  }

  lemma {:induction false} Climbs(img: Str, i: nat, j: nat)
    requires Forward(img) && i < j && Visit(img, j).Some?
    ensures Visit(img, i).Some? && Visit(img, i).value < Visit(img, j).value
    decreases j
  {
    hide Record;
    assert TakesAt(img, j - 1);
    if i < j - 1 { Climbs(img, i, j - 1); }
  }

  /** So a run that only moves forward ends. */
  lemma ForwardStops(img: Str)
    requires Forward(img)
    ensures Stops(img)
  {
    hide Visit, Forward;
    StopsIff(img);
    forall i: nat, j: nat | i < j && Visit(img, i).Some? ensures Visit(img, j) != Visit(img, i) {
      if Visit(img, j).Some? { Climbs(img, i, j); }
    }
  }

  /** And a run moves forward when no header it takes has lengths that wrap a 32-bit offset. */
  lemma NoWrapForward(img: Str)
    requires forall n: nat :: TakesAt(img, n) ==> Fits(img, Visit(img, n).value)
    ensures Forward(img)
  {
    hide Record, Fits, Visit;
    forall n: nat | TakesAt(img, n) ensures Record(img, Visit(img, n).value).next > Visit(img, n).value {
      Progress(img, Visit(img, n).value);
    }
  }
}
