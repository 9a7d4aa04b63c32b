/** The physical page allocator: one bit per page in an array of 64-bit words, a rotating search
hint and running statistics. */
module Pmm {
  import opened Common
  import opened Bits

  const NOT_FOUND: nat := 0xFFFF_FFFF_FFFF_FFFF

  // ---- The bitmap as a value ----

  predicate Test(words: seq<Word>, i: nat)
    requires i < 64 * |words|
  {
    And(words[i / 64], Pow2(i % 64)) != 0
  }

  function Set(words: seq<Word>, i: nat): (r: seq<Word>)
    requires i < 64 * |words|
    ensures |r| == |words|
  {
    BitWeight(i % 64);
    OrWord(words[i / 64], Pow2(i % 64));
    words[i / 64 := Or(words[i / 64], Pow2(i % 64))]
  }

  function Clear(words: seq<Word>, i: nat): (r: seq<Word>)
    requires i < 64 * |words|
    ensures |r| == |words|
  {
    BitWeight(i % 64);
    AndBelow(words[i / 64], Not(Pow2(i % 64)));
    words[i / 64 := And(words[i / 64], Not(Pow2(i % 64)))]
  }

  lemma BitWeight(b: nat)
    requires b < 64
    ensures Pow2(b) < WORD_LIMIT
  {
    Pow2At64();
    Pow2Below(b, 64);
  }

  /** Setting a bit marks that page and no other. */
  lemma SetTest(words: seq<Word>, i: nat, j: nat)
    requires i < 64 * |words| && j < 64 * |words|
    ensures Test(Set(words, i), j) <==> j == i || Test(words, j)
  {
    var w := words[i / 64];
    AndPow2(words[j / 64], j % 64);
    AndPow2(Or(w, Pow2(i % 64)), j % 64);
    OrBit(w, Pow2(i % 64), j % 64);
    Pow2Bit(i % 64, j % 64);
  }

  /** Clearing a bit releases that page and no other. */
  lemma ClearTest(words: seq<Word>, i: nat, j: nat)
    requires i < 64 * |words| && j < 64 * |words|
    ensures Test(Clear(words, i), j) <==> j != i && Test(words, j)
  {
    BitWeight(i % 64);
    var w, m := words[i / 64], Not(Pow2(i % 64));
    AndPow2(words[j / 64], j % 64);
    AndPow2(And(w, m), j % 64);
    AndBit(w, m, j % 64);
    NotBit(Pow2(i % 64), j % 64);
    Pow2Bit(i % 64, j % 64);
  }

  /** A bitmap is determined by its bits. */
  lemma SameBits(a: seq<Word>, b: seq<Word>)
    requires |a| == |b|
    requires forall i: nat :: i < 64 * |a| ==> Test(a, i) == Test(b, i)
    ensures a == b
  {
    forall w | 0 <= w < |a| ensures a[w] == b[w] {
      forall k: nat ensures Bit(a[w], k) == Bit(b[w], k) {
        Pow2At64();
        if k < 64 {
          assert Test(a, 64 * w + k) == Test(b, 64 * w + k);
          AndPow2(a[w], k);
          AndPow2(b[w], k);
        } else {
          HighBitsClear(a[w], 64, k);
          HighBitsClear(b[w], 64, k);
        }
      }
      Extensional(a[w], b[w]);
    }
  }

  function SetRange(words: seq<Word>, start: nat, n: nat): (r: seq<Word>)
    requires start + n <= 64 * |words|
    ensures |r| == |words|
  {
    if n == 0 then words else Set(SetRange(words, start, n - 1), start + n - 1)
  }

  function ClearRange(words: seq<Word>, start: nat, n: nat): (r: seq<Word>)
    requires start + n <= 64 * |words|
    ensures |r| == |words|
  {
    if n == 0 then words else Clear(ClearRange(words, start, n - 1), start + n - 1)
  }

  lemma {:induction false} SetRangeTest(words: seq<Word>, start: nat, n: nat, j: nat)
    requires start + n <= 64 * |words| && j < 64 * |words|
    ensures Test(SetRange(words, start, n), j) <==> start <= j < start + n || Test(words, j)
  {
    if n > 0 {
      SetTest(SetRange(words, start, n - 1), start + n - 1, j);
      SetRangeTest(words, start, n - 1, j);
    }
  }

  lemma {:induction false} ClearRangeTest(words: seq<Word>, start: nat, n: nat, j: nat)
    requires start + n <= 64 * |words| && j < 64 * |words|
    ensures Test(ClearRange(words, start, n), j) <==> !(start <= j < start + n) && Test(words, j)
  {
    if n > 0 {
      ClearTest(ClearRange(words, start, n - 1), start + n - 1, j);
      ClearRangeTest(words, start, n - 1, j);
    }
  }

  /** Releasing a run that was free before it was taken restores every word of the bitmap. */
  lemma RangeRoundTrip(words: seq<Word>, start: nat, n: nat)
    requires start + n <= 64 * |words|
    requires forall j: nat :: start <= j < start + n ==> !Test(words, j)
    ensures ClearRange(SetRange(words, start, n), start, n) == words
  {
    var r := ClearRange(SetRange(words, start, n), start, n);
    forall j: nat | j < 64 * |words| ensures Test(r, j) == Test(words, j) {
      ClearRangeTest(SetRange(words, start, n), start, n, j);
      SetRangeTest(words, start, n, j);
    }
    SameBits(r, words);
  }

  ghost function UsedIn(words: seq<Word>, total: nat): set<nat>
    requires total <= 64 * |words|
  {
    set i: nat | i < total && Test(words, i)
  }

  /** The `n` pages from `start` on. */
  ghost function Range(start: nat, n: nat): (r: set<nat>)
    ensures forall k :: k in r <==> start <= k < start + n
    ensures |r| == n
  {
    if n == 0 then {} else Range(start, n - 1) + {start + n - 1}
  }

  lemma UsedAfterSet(words: seq<Word>, total: nat, start: nat, n: nat)
    requires start + n <= total <= 64 * |words|
    ensures UsedIn(SetRange(words, start, n), total) == UsedIn(words, total) + Range(start, n)
  {
    forall j: nat | j < total
      ensures Test(SetRange(words, start, n), j) <==> start <= j < start + n || Test(words, j)
    {
      SetRangeTest(words, start, n, j);
    }
  }

  /** A run of `n` consecutive free pages starting at `start`. */
  ghost predicate FreeRun(used: set<nat>, total: nat, start: nat, n: nat) {
    start + n <= total && forall k :: start <= k < start + n ==> k !in used
  }

  lemma NoSingleRun(used: set<nat>, total: nat)
    ensures (forall s: nat :: !FreeRun(used, total, s, 1)) <==> forall k: nat :: k < total ==> k in used
  {
    if forall s: nat :: !FreeRun(used, total, s, 1) {
      forall k: nat | k < total ensures k in used { assert !FreeRun(used, total, k, 1); }
    } else {
      var s: nat :| FreeRun(used, total, s, 1);
      assert s !in used;
    }
  }

  lemma SingleRun(words: seq<Word>, used: set<nat>, total: nat, p: nat)
    requires p < total <= 64 * |words| && p !in used
    ensures FreeRun(used, total, p, 1)
    ensures SetRange(words, p, 1) == Set(words, p) && Range(p, 1) == {p}
  {
    assert SetRange(words, p, 0) == words;
  }

  /** The page a search from `hint` finds: the first free page at or after the hint, or else the
      first free page before it. */
  ghost predicate NextFit(used: set<nat>, total: nat, hint: nat, page: nat) {
    && page < total && page !in used
    && (hint <= page ==> forall k :: hint <= k < page ==> k in used)
    && (page < hint ==> forall k :: hint <= k < total || 0 <= k < page ==> k in used)
  }

  /** The address `FreePages` frees in turn `i`, in 64 bits. */
  function AddressAt(phys: nat, i: nat): nat { (phys + i * 4096) % WORD_LIMIT }

  /** What freeing one address can release: page 0 and unaligned addresses are refused. */
  function ReleasableAt(a: nat): set<nat> { if a != 0 && a % 4096 == 0 then {a / 4096} else {} }

  /** The pages `FreePages` can release. */
  ghost function Releasable(phys: nat, count: nat): set<nat> {
    if count == 0 then {} else Releasable(phys, count - 1) + ReleasableAt(AddressAt(phys, count - 1))
  }

  /** Without a wrap these are the pages of the range, but for page 0, and none when unaligned. */
  lemma {:induction false} ReleasableRange(phys: nat, count: nat)
    requires phys + count * 4096 <= WORD_LIMIT
    ensures Releasable(phys, count) == if phys % 4096 == 0 then Range(phys / 4096, count) - {0} else {}
  {
    hide Range, ReleasableAt, AddressAt;
    if count > 0 {
      ReleasableRange(phys, count - 1);
      RangeSnoc(phys / 4096, count - 1);
      LastReleasable(phys, count - 1);
    } else {
      RangeEmpty(phys / 4096);
    }
  }

  lemma RangeSnoc(start: nat, n: nat)
    ensures Range(start, n + 1) == Range(start, n) + {start + n}
  {
  }

  lemma RangeEmpty(start: nat)
    ensures Range(start, 0) == {}
  {
  }

  lemma SmallAddress(a: nat)
    requires a < WORD_LIMIT
    ensures a % WORD_LIMIT == a
  {
  }

  lemma LastReleasable(phys: nat, i: nat)
    requires phys + i * 4096 < WORD_LIMIT
    ensures ReleasableAt(AddressAt(phys, i)) == if phys % 4096 == 0 then {phys / 4096 + i} - {0} else {}
  {
    var a := phys + i * 4096;
    PageStep(phys, i);
    SmallAddress(a);
    assert AddressAt(phys, i) == a;
  }

  /** The bitmap after `FreePage`; a refused address leaves it alone. */
  function ReleaseOne(words: seq<Word>, total: nat, phys: nat): (r: seq<Word>)
    requires total <= 64 * |words|
    ensures |r| == |words|
  {
    if phys != 0 && phys % 4096 == 0 && phys / 4096 < total && Test(words, phys / 4096)
    then Clear(words, phys / 4096)
    else words
  }

  /** The bitmap after freeing `count` pages one by one. */
  function Release(words: seq<Word>, total: nat, phys: nat, count: nat): (r: seq<Word>)
    requires total <= 64 * |words|
    ensures |r| == |words|
  {
    if count == 0 then words
    else ReleaseOne(Release(words, total, phys, count - 1), total, AddressAt(phys, count - 1))
  }

  lemma UsedAfterClear(words: seq<Word>, total: nat, p: nat)
    requires p < total <= 64 * |words|
    ensures UsedIn(Clear(words, p), total) == UsedIn(words, total) - {p}
  {
    forall j: nat | j < total ensures Test(Clear(words, p), j) <==> j != p && Test(words, j) {
      ClearTest(words, p, j);
    }
  }

  lemma ReleaseOneUsed(words: seq<Word>, total: nat, phys: nat)
    requires total <= 64 * |words|
    ensures UsedIn(ReleaseOne(words, total, phys), total) == UsedIn(words, total) - ReleasableAt(phys)
  {
    hide Clear, Test;
    var p := phys / 4096;
    if phys != 0 && phys % 4096 == 0 && p < total && Test(words, p) {
      UsedAfterClear(words, total, p);
    }
  }

  lemma {:induction false} ReleaseUsed(words: seq<Word>, total: nat, phys: nat, count: nat)
    requires total <= 64 * |words|
    ensures UsedIn(Release(words, total, phys, count), total) == UsedIn(words, total) - Releasable(phys, count)
  {
    hide UsedIn, ReleaseOne, ReleasableAt, AddressAt;
    if count > 0 {
      ReleaseUsed(words, total, phys, count - 1);
      ReleaseOneUsed(Release(words, total, phys, count - 1), total, AddressAt(phys, count - 1));
    }
  }

  /** Freeing a run that is wholly used clears exactly that run... */
  lemma {:induction false} ReleaseRun(words: seq<Word>, total: nat, start: nat, count: nat)
    requires 0 < start && start + count <= total <= 64 * |words| && total * 4096 <= WORD_LIMIT
    requires forall j: nat :: start <= j < start + count ==> Test(words, j)
    ensures Release(words, total, start * 4096, count) == ClearRange(words, start, count)
  {
    hide Clear;
    if count > 0 {
      ReleaseRun(words, total, start, count - 1);
      var p := start + count - 1;
      SmallAddress(p * 4096);
      assert AddressAt(start * 4096, count - 1) == p * 4096;
      assert p * 4096 / 4096 == p && p * 4096 % 4096 == 0;
      ClearRangeTest(words, start, count - 1, start + count - 1);
    }
  }

  /** ...so `FreePages` after `AllocPages` gives back the bitmap the allocation found. */
  lemma AllocFreeRoundTrip(words: seq<Word>, total: nat, start: nat, count: nat)
    requires 0 < start && total <= 64 * |words| && total * 4096 <= WORD_LIMIT
    requires FreeRun(UsedIn(words, total), total, start, count)
    ensures Release(SetRange(words, start, count), total, start * 4096, count) == words
  {
    forall j: nat | start <= j < start + count ensures Test(SetRange(words, start, count), j) && !Test(words, j) {
      SetRangeTest(words, start, count, j);
      assert j !in UsedIn(words, total);
    }
    ReleaseRun(SetRange(words, start, count), total, start, count);
    RangeRoundTrip(words, start, count);
  }

  datatype FreeOutcome = Freed | InvalidAddress | DoubleFree

  class Allocator {
    const bitmap: array<Word>
    const totalPages: nat
    var hint: nat
    var usedPages: nat
    var freePages: nat

    ghost predicate Shape()
    {
      0 < totalPages <= 64 * bitmap.Length && totalPages * 4096 < WORD_LIMIT
    }

    ghost function Used(): (u: set<nat>)
      requires Shape()
      reads bitmap
      ensures forall i :: i in u ==> i < totalPages
    {
      UsedIn(bitmap[..], totalPages)
    }

    /** The accounting invariant: the counters count the bitmap, page 0 is never handed out and
        the hint stays inside the page range. */
    ghost predicate Valid()
      reads this, bitmap
    {
      && Shape()
      && hint <= totalPages
      && 0 in Used()
      && usedPages == |Used()|
      && usedPages + freePages == totalPages
    }

    /** A zeroed bitmap over `totalPages` pages, before any region is marked. */
    constructor Empty(totalPages: nat)
      requires 0 < totalPages && totalPages * 4096 < WORD_LIMIT
      ensures this.totalPages == totalPages && Shape() && hint == 0 && usedPages == 0 && freePages == 0
      ensures bitmap.Length == (totalPages + 63) / 64 && fresh(bitmap) && Used() == {}
    {
      this.totalPages := totalPages;
      bitmap := new Word[(totalPages + 63) / 64];
      hint, usedPages, freePages := 0, 0, 0;
      new;
      var i := 0;
      while i < bitmap.Length
        invariant i <= bitmap.Length && forall j :: 0 <= j < i ==> bitmap[j] == 0
        modifies bitmap
      {
        bitmap[i] := 0;
        i := i + 1;
      }
      forall p: nat | p < totalPages ensures !Test(bitmap[..], p) { assert bitmap[..][p / 64] == 0; }
    }

    lemma UsedBounded()
      requires Shape()
      ensures |Used()| <= totalPages
      ensures |Used()| == totalPages <==> forall k: nat :: k < totalPages ==> k in Used()
    {
      SubsetSize(Used(), Range(0, totalPages));
    }

    method TestBitmapBit(i: nat) returns (r: bool)
      requires Shape() && i < totalPages
      ensures r <==> i in Used()
    {
      r := And(bitmap[i / 64], Pow2(i % 64)) != 0;
    }

    method SetBitmapBit(i: nat)
      requires Shape() && i < totalPages
      modifies bitmap
      ensures bitmap[..] == Set(old(bitmap[..]), i)
      ensures Used() == old(Used()) + {i}
    {
      BitWeight(i % 64);
      OrWord(bitmap[i / 64], Pow2(i % 64));
      bitmap[i / 64] := Or(bitmap[i / 64], Pow2(i % 64));
      forall j: nat | j < totalPages ensures Test(bitmap[..], j) <==> j == i || Test(old(bitmap[..]), j) {
        SetTest(old(bitmap[..]), i, j);
      }
    }

    method ClearBitmapBit(i: nat)
      requires Shape() && i < totalPages
      modifies bitmap
      ensures bitmap[..] == Clear(old(bitmap[..]), i)
      ensures Used() == old(Used()) - {i}
    {
      BitWeight(i % 64);
      AndBelow(bitmap[i / 64], Not(Pow2(i % 64)));
      bitmap[i / 64] := And(bitmap[i / 64], Not(Pow2(i % 64)));
      UsedAfterClear(old(bitmap[..]), totalPages, i);
    }

    method FindFreePage() returns (page: nat)
      requires Shape() && hint <= totalPages
      modifies this`hint
      ensures page == NOT_FOUND <==> forall k: nat :: k < totalPages ==> k in Used()
      ensures page != NOT_FOUND ==> NextFit(Used(), totalPages, old(hint), page) && hint == page + 1
      ensures page == NOT_FOUND ==> hint == old(hint)
    {
      var start := hint;
      var i := start;
      while i < totalPages
        invariant start <= i <= totalPages && hint == start
        invariant forall k :: start <= k < i ==> k in Used()
      {
        var taken := TestBitmapBit(i);
        if !taken {
          hint := i + 1;
          assert i !in Used();
          return i;
        }
        i := i + 1;
      }
      i := 0;
      while i < start
        invariant i <= start == hint && start <= totalPages
        invariant forall k :: start <= k < totalPages || 0 <= k < i ==> k in Used()
      {
        var taken := TestBitmapBit(i);
        if !taken {
          hint := i + 1;
          assert i !in Used();
          return i;
        }
        i := i + 1;
      }
      return NOT_FOUND;
    }

    /** Returns 0 exactly when every page is used; otherwise marks and returns one free page. */
    method AllocPage() returns (phys: nat)
      requires Valid()
      modifies this, bitmap
      ensures Valid()
      ensures phys == 0 <==> old(freePages) == 0
      ensures phys == 0 <==> forall k: nat :: k < totalPages ==> k in old(Used())
      ensures phys == 0 ==> Used() == old(Used()) && freePages == old(freePages)
      ensures phys != 0 ==> phys % 4096 == 0 && 0 < phys / 4096 < totalPages && phys / 4096 !in old(Used())
      ensures phys != 0 ==> NextFit(old(Used()), totalPages, old(hint), phys / 4096)
      ensures phys != 0 ==> Used() == old(Used()) + {phys / 4096} && freePages == old(freePages) - 1
      ensures bitmap[..] == if phys == 0 then old(bitmap[..]) else Set(old(bitmap[..]), phys / 4096)
    {
      hide UsedIn, Set;
      UsedBounded();
      var page := FindFreePage();
      if page == NOT_FOUND {
        return 0;
      }
      SetBitmapBit(page);
      usedPages := usedPages + 1;
      freePages := freePages - 1;
      phys := page * 4096;
    }

    predicate ValidPage(phys: nat) {
      phys != 0 && phys % 4096 == 0 && phys / 4096 < totalPages
    }

    method FreePage(phys: nat) returns (r: FreeOutcome)
      requires Valid()
      modifies this`usedPages, this`freePages, bitmap
      ensures Valid()
      ensures r == InvalidAddress <==> !ValidPage(phys)
      ensures r == DoubleFree <==> ValidPage(phys) && phys / 4096 !in old(Used())
      ensures bitmap[..] == ReleaseOne(old(bitmap[..]), totalPages, phys)
      ensures Used() == if r == Freed then old(Used()) - {phys / 4096} else old(Used())
    {
      if !ValidPage(phys) {
        return InvalidAddress;
      }
      var page := phys / 4096;
      var taken := TestBitmapBit(page);
      if !taken {
        return DoubleFree;
      }
      ClearBitmapBit(page);
      usedPages := usedPages - 1;
      freePages := freePages + 1;
      return Freed;
    }

    method RunIsFree(start: nat, count: nat) returns (found: bool)
      requires Shape() && start + count <= totalPages
      ensures found <==> FreeRun(Used(), totalPages, start, count)
    {
      var off := 0;
      while off < count
        invariant off <= count
        invariant forall k :: start <= k < start + off ==> k !in Used()
      {
        var taken := TestBitmapBit(start + off);
        if taken {
          return false;
        }
        off := off + 1;
      }
      return true;
    }

    method MarkRun(start: nat, count: nat)
      requires Shape() && start + count <= totalPages
      modifies bitmap
      ensures bitmap[..] == SetRange(old(bitmap[..]), start, count)
      ensures Used() == old(Used()) + Range(start, count)
    {
      hide UsedIn, Set, Test;
      var off := 0;
      while off < count
        invariant off <= count
        invariant bitmap[..] == SetRange(old(bitmap[..]), start, off)
      {
        SetBitmapBit(start + off);
        off := off + 1;
      }
      UsedAfterSet(old(bitmap[..]), totalPages, start, count);
    }

    /** Two or more pages: the lowest run of free pages, or 0 exactly when there is none. */
    method AllocPages(count: nat) returns (phys: nat)
      requires Valid()
      modifies this, bitmap
      ensures Valid()
      ensures count == 0 ==> phys == 0
      ensures count >= 1 ==> (phys == 0 <==> forall s: nat :: !FreeRun(old(Used()), totalPages, s, count))
      ensures phys == 0 ==> bitmap[..] == old(bitmap[..]) && freePages == old(freePages)
      ensures phys != 0 ==> phys % 4096 == 0 && FreeRun(old(Used()), totalPages, phys / 4096, count)
      ensures phys != 0 && count >= 2 ==>
        forall s: nat :: s < phys / 4096 ==> !FreeRun(old(Used()), totalPages, s, count)
      ensures phys != 0 ==> bitmap[..] == SetRange(old(bitmap[..]), phys / 4096, count)
      ensures phys != 0 ==> Used() == old(Used()) + Range(phys / 4096, count)
      ensures phys != 0 ==> freePages == old(freePages) - count
    {
      hide UsedIn, SetRange, FreeRun, Set;
      if count == 0 {
        return 0;
      }
      if count == 1 {
        NoSingleRun(Used(), totalPages);
        phys := AllocPage();
        if phys != 0 { SingleRun(old(bitmap[..]), old(Used()), totalPages, phys / 4096); }
        return;
      }
      phys := AllocRun(count);
    }

    method AllocRun(count: nat) returns (phys: nat)
      requires Valid() && count >= 2
      modifies this, bitmap
      ensures Valid()
      ensures phys == 0 <==> forall s: nat :: !FreeRun(old(Used()), totalPages, s, count)
      ensures phys == 0 ==> bitmap[..] == old(bitmap[..]) && freePages == old(freePages)
      ensures phys != 0 ==> phys % 4096 == 0 && FreeRun(old(Used()), totalPages, phys / 4096, count)
      ensures phys != 0 ==> forall s: nat :: s < phys / 4096 ==> !FreeRun(old(Used()), totalPages, s, count)
      ensures phys != 0 ==> bitmap[..] == SetRange(old(bitmap[..]), phys / 4096, count)
      ensures phys != 0 ==> Used() == old(Used()) + Range(phys / 4096, count)
      ensures phys != 0 ==> freePages == old(freePages) - count
    {
      hide UsedIn, SetRange;
      if count > freePages {
        forall s: nat ensures !FreeRun(Used(), totalPages, s, count) {
          if FreeRun(Used(), totalPages, s, count) { RunFits(s, count); }
        }
        return 0;
      }
      var found, start := FindRun(count);
      if !found {
        return 0;
      }
      TakeRun(start, count);
      phys := start * 4096;
      assert phys / 4096 == start;
    }

    method TakeRun(start: nat, count: nat)
      requires Valid() && count > 0 && FreeRun(Used(), totalPages, start, count)
      modifies this`usedPages, this`freePages, bitmap
      ensures Valid() && start != 0
      ensures bitmap[..] == SetRange(old(bitmap[..]), start, count)
      ensures Used() == old(Used()) + Range(start, count)
      ensures freePages == old(freePages) - count
    {
      hide UsedIn, Set, Test, SetRange;
      RunFits(start, count);
      MarkRun(start, count);
      usedPages := usedPages + count;
      freePages := freePages - count;
    }

    /** The search loop of `AllocPages`: the lowest start of a free run. */
    method FindRun(count: nat) returns (found: bool, start: nat)
      requires Shape() && count <= totalPages
      ensures found ==> FreeRun(Used(), totalPages, start, count)
      ensures found ==> forall s: nat :: s < start ==> !FreeRun(Used(), totalPages, s, count)
      ensures !found ==> forall s: nat :: !FreeRun(Used(), totalPages, s, count)
    {
      start := 0;
      while start <= totalPages - count
        invariant forall s: nat :: s < start ==> !FreeRun(Used(), totalPages, s, count)
      {
        found := RunIsFree(start, count);
        if found {
          return;
        }
        start := start + 1;
      }
      found := false;
    }

    /** A free run is no longer than the number of free pages, and never starts at page 0. */
    lemma RunFits(s: nat, n: nat)
      requires Valid() && n > 0 && FreeRun(Used(), totalPages, s, n)
      ensures n <= freePages && s != 0
      ensures |Used() + Range(s, n)| == usedPages + n
    {
      assert Used() !! Range(s, n);
      SubsetSize(Used() + Range(s, n), Range(0, totalPages));
    }

    method FreePages(phys: nat, count: nat)
      requires Valid()
      modifies this`usedPages, this`freePages, bitmap
      ensures Valid()
      ensures bitmap[..] == Release(old(bitmap[..]), totalPages, phys, count)
      ensures Used() == old(Used()) - Releasable(phys, count)
    {
      hide UsedIn, ReleaseOne, Releasable, AddressAt;
      var i := 0;
      while i < count
        invariant i <= count && Valid()
        invariant bitmap[..] == Release(old(bitmap[..]), totalPages, phys, i)
      {
        var r := FreePage(AddressAt(phys, i));
        i := i + 1;
      }
      ReleaseUsed(old(bitmap[..]), totalPages, phys, count);
    }
  }

  lemma PageStep(phys: nat, i: nat)
    ensures (phys + i * 4096) % 4096 == phys % 4096
    ensures (phys + i * 4096) / 4096 == phys / 4096 + i
  {
  }
}
