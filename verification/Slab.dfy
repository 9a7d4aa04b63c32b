/** The slab heap: objects of eight sizes carved out of single pages, with the free list threaded
through the free objects themselves. */
module Slab {
  import opened Common
  import opened Bits
  import Pmm

  const HEADER: nat := 32
  const SLAB_MAGIC: nat := 0xDEAD_BEEF
  const FREE_MAGIC: nat := 0xFEED_FACE

  predicate SlabSize(size: nat) {
    size == 16 || size == 32 || size == 64 || size == 128 || size == 256 || size == 512 || size == 1024 || size == 2048
  }

  /** Memory cells by byte address; a pointer or magic field is one cell at its address. */
  type Words = map<nat, nat>

  function Rd(mem: Words, a: nat): nat { if a in mem then mem[a] else 0 }

  /** The header of a slab page. */
  datatype Header = Header(size: nat, freeCount: nat, freeList: nat, magic: nat)

  /** `free` lists each slab's free objects in list order; `live` holds the objects handed out. */
  datatype Heap = Heap(slabs: map<nat, Header>, mem: Words, free: map<nat, seq<nat>>, live: set<nat>)

  /** The page a pointer lies in: the mask KFree applies. */
  function PageOf(a: nat): nat { a - a % 4096 }

  /** `a` is one of the objects of a slab at `b`. */
  predicate IsSlot(b: nat, size: nat, a: nat) {
    size > 0 && b + HEADER <= a && a + size <= b + 4096 && (a - b - HEADER) % size == 0
  }

  /** The free list as it lies in memory: each free object's first word points to the next. */
  predicate Chain(mem: Words, head: nat, objects: seq<nat>)
    decreases |objects|
  {
    if objects == [] then head == 0
    else head == objects[0] && head != 0 && Chain(mem, Rd(mem, head), objects[1..])
  }

  ghost predicate SlabOk(h: Heap, b: nat)
    requires b in h.slabs && b in h.free
  {
    var hd, fs := h.slabs[b], h.free[b];
    && b % 4096 == 0 && b > 0 && SlabSize(hd.size) && hd.magic == SLAB_MAGIC
    && hd.freeCount == |fs| && NoDup(fs) && Chain(h.mem, hd.freeList, fs)
    && (forall a: nat :: IsSlot(b, hd.size, a) ==> (a in fs <==> a !in h.live))
    && (forall a :: a in fs ==> IsSlot(b, hd.size, a))
  }

  /** Every slab's objects split exactly into its free list and the live ones; every live object is
      an object of the slab in its own page. */
  ghost predicate Inv(h: Heap) {
    && h.slabs.Keys == h.free.Keys
    && (forall b :: b in h.slabs ==> SlabOk(h, b))
    && (forall a :: a in h.live ==> PageOf(a) in h.slabs && IsSlot(PageOf(a), h.slabs[PageOf(a)].size, a))
  }

  /** An object of a slab lies in the slab's page, past its header. */
  lemma SlotPage(b: nat, size: nat, a: nat)
    requires b % 4096 == 0 && IsSlot(b, size, a)
    ensures PageOf(a) == b && a >= b + HEADER && a + size <= b + 4096
  {
  }

  /** Two objects of one slab are a whole object apart. */
  lemma SlotsApart(b: nat, size: nat, a: nat, a': nat)
    requires SlabSize(size) && IsSlot(b, size, a) && IsSlot(b, size, a') && a != a'
    ensures a + size <= a' || a' + size <= a
  {
    if a < a' { MultiplesApart(size, a - b - HEADER, a' - b - HEADER); }
    else { MultiplesApart(size, a' - b - HEADER, a - b - HEADER); }
  }

  lemma MultiplesApart(size: nat, x: nat, y: nat)
    requires SlabSize(size) && x % size == 0 && y % size == 0 && x < y
    ensures x + size <= y
  {
    var k, m := x / size, y / size;
    assert x == k * size && y == m * size;
    assert k < m;
    assert m * size >= (k + 1) * size;
  }

  ghost function SizeOf(h: Heap, a: nat): nat
    requires Inv(h) && a in h.live
  {
    h.slabs[PageOf(a)].size
  }

  /** A slab's own fields, by offset and size: Next, FreeList, ObjectSize, FreeCount and Magic. */
  const FIELDS: seq<(nat, nat)> := [(0, 8), (8, 8), (16, 4), (20, 4), (24, 4)]

  /** Live objects never overlap each other or any field of any slab, and start on 16-byte boundaries. */
  lemma LiveDisjoint(h: Heap, a: nat, a': nat)
    requires Inv(h) && a in h.live && a' in h.live && a != a'
    ensures a + SizeOf(h, a) <= a' || a' + SizeOf(h, a') <= a
    ensures forall b, i :: b in h.slabs && 0 <= i < |FIELDS| ==>
      a + SizeOf(h, a) <= b + FIELDS[i].0 || b + FIELDS[i].0 + FIELDS[i].1 <= a
    ensures a % 16 == 0
  {
    hide Chain, NoDup;
    var b, b' := PageOf(a), PageOf(a');
    SlotPage(b, h.slabs[b].size, a);
    SlotPage(b', h.slabs[b'].size, a');
    if b == b' { SlotsApart(b, h.slabs[b].size, a, a'); } else { PagesApart(b, b'); }
    forall c | c in h.slabs ensures a + SizeOf(h, a) <= c || c + 28 <= a {
      assert SlabOk(h, c);
      if c != b { PagesApart(b, c); }
    }
    SlotAligned(b, h.slabs[b].size, a);
  }

  lemma SlotAligned(b: nat, size: nat, a: nat)
    requires b % 4096 == 0 && SlabSize(size) && IsSlot(b, size, a)
    ensures a % 16 == 0
  {
    hide SlabSize, IsSlot;
    var m := Sixteens(size);
    var x := SlotOffset(b, size, a);
    MultipleOf16(x, size, m);
    Sum16(b, x);
  }

  lemma SlotOffset(b: nat, size: nat, a: nat) returns (x: nat)
    requires IsSlot(b, size, a)
    ensures size > 0 && x % size == 0 && a == b + HEADER + x
  {
    x := a - b - HEADER;
  }

  lemma Sum16(b: nat, x: nat)
    requires b % 4096 == 0 && x % 16 == 0
    ensures (b + HEADER + x) % 16 == 0
  {
    assert b % 16 == 0;
  }

  lemma Sixteens(size: nat) returns (m: nat)
    requires SlabSize(size)
    ensures size == 16 * m && size > 0
  {
    m := size / 16;
  }

  lemma MultipleOf16(x: nat, size: nat, m: nat)
    requires size == 16 * m && size > 0 && x % size == 0
    ensures x % 16 == 0
  {
    var k := x / size;
    assert x == k * size;
    Regroup(k, m);
    ModUnique(x, 16, k * m, 0);
  }

  lemma Regroup(k: nat, m: nat)
    ensures k * (16 * m) == (k * m) * 16
  {
  }

  lemma PagesApart(b: nat, c: nat)
    requires b % 4096 == 0 && c % 4096 == 0 && b != c
    ensures b + 4096 <= c || c + 4096 <= b
  {
  }

  /** A chain does not notice writes away from its objects. */
  lemma {:induction false} ChainStable(mem: Words, mem': Words, head: nat, objects: seq<nat>)
    requires Chain(mem, head, objects)
    requires forall a :: a in objects ==> Rd(mem', a) == Rd(mem, a)
    ensures Chain(mem', head, objects)
    decreases |objects|
  {
    if objects != [] { ChainStable(mem, mem', Rd(mem, head), objects[1..]); }
  }

  /** Memory that changed only inside the object at `p`. */
  ghost predicate OnlyInside(mem: Words, mem': Words, p: nat, size: nat) {
    forall a: nat :: !(p <= a < p + size) ==> Rd(mem', a) == Rd(mem, a)
  }

  /** The words of an object are as they were. */
  ghost predicate Kept(mem: Words, mem': Words, q: nat, size: nat) {
    forall a: nat :: q <= a < q + size ==> Rd(mem', a) == Rd(mem, a)
  }

  /** Every live object but `p` is as it was. */
  ghost predicate LiveKept(h: Heap, mem': Words, p: nat)
    requires Inv(h)
  {
    forall q :: q in h.live && q != p ==> Kept(h.mem, mem', q, SizeOf(h, q))
  }

  /** Writes inside one object disturb no other slab, and no other object of its slab. */
  lemma OthersStable(h: Heap, mem': Words, p: nat, b: nat)
    requires Inv(h) && b in h.slabs && IsSlot(b, h.slabs[b].size, p)
    requires OnlyInside(h.mem, mem', p, h.slabs[b].size)
    ensures forall c :: c in h.slabs && c != b ==> Chain(mem', h.slabs[c].freeList, h.free[c])
    ensures LiveKept(h, mem', p)
  {
    hide Chain, SlabOk, IsSlot;
    SlabFacts(h, b);
    SlotPage(b, h.slabs[b].size, p);
    forall c | c in h.slabs && c != b ensures Chain(mem', h.slabs[c].freeList, h.free[c]) {
      SlabFacts(h, c);
      PagesApart(b, c);
      forall a | a in h.free[c] ensures Rd(mem', a) == Rd(h.mem, a) { SlotPage(c, h.slabs[c].size, a); }
      ChainStable(h.mem, mem', h.slabs[c].freeList, h.free[c]);
    }
    forall q | q in h.live && q != p ensures Kept(h.mem, mem', q, SizeOf(h, q)) {
      var d := PageOf(q);
      SlabFacts(h, d);
      SlotPage(d, h.slabs[d].size, q);
      if d == b { SlotsApart(b, h.slabs[b].size, p, q); } else { PagesApart(b, d); }
    }
  }

  lemma SlabFacts(h: Heap, b: nat)
    requires Inv(h) && b in h.slabs
    ensures b in h.free && b % 4096 == 0 && SlabSize(h.slabs[b].size)
    ensures Chain(h.mem, h.slabs[b].freeList, h.free[b])
    ensures forall a :: a in h.free[b] ==> IsSlot(b, h.slabs[b].size, a) && a !in h.live
  {
    assert SlabOk(h, b);
  }

  /** A slab whose header and list are untouched stays sound when the live set changes elsewhere. */
  lemma OtherOk(h: Heap, h': Heap, p: nat, c: nat)
    requires c in h.slabs && c in h.free && SlabOk(h, c) && PageOf(p) != c
    requires c in h'.slabs && c in h'.free && h'.slabs[c] == h.slabs[c] && h'.free[c] == h.free[c]
    requires Chain(h'.mem, h.slabs[c].freeList, h.free[c])
    requires forall a :: a != p ==> (a in h'.live <==> a in h.live)
    ensures SlabOk(h', c)
  {
    hide Chain, NoDup;
    forall a: nat | IsSlot(c, h.slabs[c].size, a) ensures a != p { SlotPage(c, h.slabs[c].size, a); }
  }

  // ---- KFree ----

  function FreedMem(mem: Words, p: nat, next: nat): Words { mem[p := next][p + 8 := FREE_MAGIC] }

  function Freed(h: Heap, p: nat): Heap
    requires PageOf(p) in h.slabs && PageOf(p) in h.free
  {
    var b := PageOf(p);
    var hd := h.slabs[b];
    Heap(h.slabs[b := hd.(freeList := p, freeCount := hd.freeCount + 1)], FreedMem(h.mem, p, hd.freeList),
         h.free[b := [p] + h.free[b]], h.live - {p})
  }

  /** Freeing a live object keeps the split: the object moves to the front of its slab's free list,
      and no other live object changes. */
  lemma FreeKeeps(h: Heap, p: nat)
    requires Inv(h) && p in h.live
    ensures Inv(Freed(h, p))
    ensures LiveKept(h, Freed(h, p).mem, p)
  {
    hide Chain, SlabOk, IsSlot, LiveKept;
    var b, h' := PageOf(p), Freed(h, p);
    SlabFacts(h, b);
    SlotPage(b, h.slabs[b].size, p);
    FreedInside(h.mem, p, h.slabs[b].freeList, h.slabs[b].size);
    OthersStable(h, h'.mem, p, b);
    FreeOwn(h, p);
    forall c | c in h'.slabs ensures SlabOk(h', c) {
      if c != b { OtherOk(h, h', p, c); }
    }
    assert h'.slabs.Keys == h'.free.Keys;
  }

  lemma FreedInside(mem: Words, p: nat, next: nat, size: nat)
    requires SlabSize(size)
    ensures OnlyInside(mem, FreedMem(mem, p, next), p, size)
  {
  }

  lemma FreeOwn(h: Heap, p: nat)
    requires Inv(h) && p in h.live
    ensures SlabOk(Freed(h, p), PageOf(p))
  {
    var b, h' := PageOf(p), Freed(h, p);
    var hd, fs := h.slabs[b], h.free[b];
    assert SlabOk(h, b);
    forall a | a in fs ensures Rd(h'.mem, a) == Rd(h.mem, a) { SlotsApart(b, hd.size, a, p); }
    ChainStable(h.mem, h'.mem, hd.freeList, fs);
    assert ([p] + fs)[1..] == fs;
    assert Rd(h'.mem, p) == hd.freeList;
  }

  /** An owner may write anything inside its live object: the heap and every other object stay sound. */
  lemma ClientWriteKeeps(h: Heap, p: nat, mem': Words)
    requires Inv(h) && p in h.live && OnlyInside(h.mem, mem', p, SizeOf(h, p))
    ensures Inv(h.(mem := mem')) && LiveKept(h, mem', p)
  {
    hide Chain, SlabOk, IsSlot, LiveKept;
    var b, h' := PageOf(p), h.(mem := mem');
    OthersStable(h, mem', p, b);
    ClientOwn(h, p, mem');
    forall c | c in h'.slabs ensures SlabOk(h', c) {
      if c != b { OtherOk(h, h', p, c); }
    }
  }

  lemma ClientOwn(h: Heap, p: nat, mem': Words)
    requires Inv(h) && p in h.live && OnlyInside(h.mem, mem', p, SizeOf(h, p))
    ensures SlabOk(h.(mem := mem'), PageOf(p))
  {
    var b := PageOf(p);
    var hd, fs := h.slabs[b], h.free[b];
    assert SlabOk(h, b);
    forall a | a in fs ensures Rd(mem', a) == Rd(h.mem, a) { SlotsApart(b, hd.size, a, p); }
    ChainStable(h.mem, mem', hd.freeList, fs);
  }

  // ---- KMalloc from a slab with a free object ----

  ghost predicate ZeroedObject(mem: Words, mem': Words, p: nat, size: nat) {
    OnlyInside(mem, mem', p, size) && forall a: nat :: p <= a < p + size ==> Rd(mem', a) == 0
  }

  /** The heap after the head of slab `b`'s free list was taken, with memory `mem'`. */
  ghost function Taken(h: Heap, b: nat, mem': Words): Heap
    requires b in h.slabs && b in h.free && h.free[b] != []
  {
    var hd, fs := h.slabs[b], h.free[b];
    Heap(h.slabs[b := hd.(freeList := Rd(h.mem, hd.freeList), freeCount := |fs| - 1)], mem',
         h.free[b := fs[1..]], h.live + {fs[0]})
  }

  /** Taking the head of a free list and clearing it keeps the split; the object was not live, and
      no live object changes. */
  lemma TakeKeeps(h: Heap, b: nat, mem': Words)
    requires Inv(h) && b in h.slabs && h.free[b] != []
    requires ZeroedObject(h.mem, mem', h.free[b][0], h.slabs[b].size)
    ensures Inv(Taken(h, b, mem')) && h.free[b][0] !in h.live && PageOf(h.free[b][0]) == b
    ensures h.slabs[b].freeList == h.free[b][0]
    ensures LiveKept(h, mem', h.free[b][0])
  {
    hide Chain, SlabOk, IsSlot, LiveKept;
    var p, h' := h.free[b][0], Taken(h, b, mem');
    SlabFacts(h, b);
    SlotPage(b, h.slabs[b].size, p);
    OthersStable(h, mem', p, b);
    TakeOwn(h, b, mem');
    forall c | c in h'.slabs ensures SlabOk(h', c) {
      if c != b { OtherOk(h, h', p, c); }
    }
    assert h'.slabs.Keys == h'.free.Keys;
  }

  lemma TakeOwn(h: Heap, b: nat, mem': Words)
    requires Inv(h) && b in h.slabs && h.free[b] != []
    requires ZeroedObject(h.mem, mem', h.free[b][0], h.slabs[b].size)
    ensures SlabOk(Taken(h, b, mem'), b) && h.slabs[b].freeList == h.free[b][0]
  {
    var hd, fs, h' := h.slabs[b], h.free[b], Taken(h, b, mem');
    assert SlabOk(h, b);
    forall a | a in fs[1..] ensures Rd(mem', a) == Rd(h.mem, a) && a != fs[0] {
      var i :| 0 <= i < |fs[1..]| && fs[1..][i] == a;
      assert fs[i + 1] == a;
      SlotsApart(b, hd.size, a, fs[0]);
    }
    ChainStable(h.mem, mem', Rd(h.mem, hd.freeList), fs[1..]);
    assert fs == [fs[0]] + fs[1..];
  }

  // ---- A new slab ----

  /** The free list a new slab is built with: the highest object first. */
  function Carved(b: nat, size: nat, n: nat): seq<nat> {
    if n == 0 then [] else [b + HEADER + (n - 1) * size] + Carved(b, size, n - 1)
  }

  lemma {:induction false} CarvedHas(b: nat, size: nat, n: nat, a: nat)
    requires size > 0
    ensures |Carved(b, size, n)| == n
    ensures a in Carved(b, size, n) <==> a >= b + HEADER && (a - b - HEADER) % size == 0 && (a - b - HEADER) / size < n
  {
    if n > 0 {
      CarvedHas(b, size, n - 1, a);
      if a >= b + HEADER { IsMultiple(a - b - HEADER, n - 1, size); }
    }
  }

  lemma IsMultiple(x: nat, k: nat, size: nat)
    requires size > 0
    ensures x == k * size <==> x % size == 0 && x / size == k
  {
    var q, r := x / size, x % size;
    assert x == q * size + r;
    if x == k * size { Quotient(k, size); }
  }

  lemma Quotient(k: nat, size: nat)
    requires size > 0
    ensures k * size / size == k && k * size % size == 0
  {
    ModUnique(k * size, size, k, 0);
  }

  lemma {:induction false} CarvedNoDup(b: nat, size: nat, n: nat)
    requires size > 0
    ensures NoDup(Carved(b, size, n))
  {
    if n > 0 {
      CarvedNoDup(b, size, n - 1);
      var top := b + HEADER + (n - 1) * size;
      CarvedHas(b, size, n - 1, top);
      Quotient(n - 1, size);
      var fs := Carved(b, size, n - 1);
      assert Carved(b, size, n) == [top] + fs;
    }
  }

  /** A fresh page carved into objects joins the heap with all of them free. */
  lemma CarveKeeps(h: Heap, b: nat, size: nat, mem': Words, n: nat)
    requires Inv(h) && b % 4096 == 0 && b > 0 && b !in h.slabs && SlabSize(size)
    requires n == (4096 - HEADER) / size
    requires OnlyInside(h.mem, mem', b, 4096)
    requires Chain(mem', if n == 0 then 0 else b + HEADER + (n - 1) * size, Carved(b, size, n))
    ensures var hd := Header(size, n, if n == 0 then 0 else b + HEADER + (n - 1) * size, SLAB_MAGIC);
      Inv(Heap(h.slabs[b := hd], mem', h.free[b := Carved(b, size, n)], h.live))
    ensures AllKept(h, mem')
  {
    hide Chain, Carved, SlabOk, IsSlot;
    var hd := Header(size, n, if n == 0 then 0 else b + HEADER + (n - 1) * size, SLAB_MAGIC);
    var h' := Heap(h.slabs[b := hd], mem', h.free[b := Carved(b, size, n)], h.live);
    NewOk(h, h', b, size, n);
    forall c | c in h.slabs ensures SlabOk(h', c) {
      SlabFacts(h, c);
      PagesApart(b, c);
      forall a | a in h.free[c] ensures Rd(mem', a) == Rd(h.mem, a) { SlotPage(c, h.slabs[c].size, a); }
      ChainStable(h.mem, mem', h.slabs[c].freeList, h.free[c]);
      PageOfPage(b);
      OtherOk(h, h', b, c);
    }
    forall q | q in h.live ensures Kept(h.mem, mem', q, SizeOf(h, q)) {
      var d := PageOf(q);
      SlabFacts(h, d);
      SlotPage(d, h.slabs[d].size, q);
      PagesApart(b, d);
    }
    assert h'.slabs.Keys == h'.free.Keys;
  }

  lemma PageOfPage(b: nat)
    requires b % 4096 == 0
    ensures PageOf(b) == b
  {
  }

  lemma NewOk(h: Heap, h': Heap, b: nat, size: nat, n: nat)
    requires Inv(h) && b % 4096 == 0 && b > 0 && b !in h.slabs && SlabSize(size) && n == (4096 - HEADER) / size
    requires b in h'.slabs && b in h'.free && h'.live == h.live && h'.free[b] == Carved(b, size, n)
    requires h'.slabs[b].size == size && h'.slabs[b].freeCount == n && h'.slabs[b].magic == SLAB_MAGIC
    requires Chain(h'.mem, h'.slabs[b].freeList, Carved(b, size, n))
    ensures SlabOk(h', b)
  {
    hide Chain, Carved, NoDup, IsSlot;
    CarvedNoDup(b, size, n);
    CarvedHas(b, size, n, 0);
    forall a: nat ensures a in Carved(b, size, n) <==> IsSlot(b, size, a) {
      CarvedHas(b, size, n, a);
      FitsIff(b, size, n, a);
    }
    forall a: nat | IsSlot(b, size, a) ensures a !in h.live { SlotPage(b, size, a); }
  }

  lemma FitsIff(b: nat, size: nat, n: nat, a: nat)
    requires SlabSize(size) && n == (4096 - HEADER) / size
    ensures IsSlot(b, size, a) <==> a >= b + HEADER && (a - b - HEADER) % size == 0 && (a - b - HEADER) / size < n
  {
    if a >= b + HEADER && (a - b - HEADER) % size == 0 {
      var k := (a - b - HEADER) / size;
      assert a - b - HEADER == k * size;
      Fits(k, size, 4096 - HEADER);
      assert a + size <= b + 4096 <==> k * size + size <= 4096 - HEADER;
    }
  }

  lemma Fits(k: nat, size: nat, room: nat)
    requires size > 0
    ensures k * size + size <= room <==> k < room / size
  {
    var q := room / size;
    assert q * size <= room < (q + 1) * size;
    assert k < q ==> (k + 1) * size <= q * size;
    assert k >= q ==> (k + 1) * size >= (q + 1) * size;
  }

  // ---- The allocator ----

  const SIZES: seq<nat> := [16, 32, 64, 128, 256, 512, 1024, 2048]

  ghost predicate Cached(caches: seq<seq<nat>>, b: nat) {
    exists i :: 0 <= i < |caches| && b in caches[i]
  }

  /** Caches hold exactly the slabs of their size, and slab pages belong to the heap. */
  ghost predicate CachesOk(slabs: map<nat, Header>, caches: seq<seq<nat>>, hhdm: nat, used: set<nat>) {
    && |caches| == 8 && hhdm % 4096 == 0 && hhdm > 0
    && (forall i, b :: 0 <= i < 8 && b in caches[i] ==> b in slabs && slabs[b].size == SIZES[i])
    && (forall b :: b in slabs ==> Cached(caches, b))
    && (forall b :: b in slabs ==> b >= hhdm && (b - hhdm) / 4096 in used)
  }

  lemma CachesGrow(slabs: map<nat, Header>, caches: seq<seq<nat>>, hhdm: nat, used: set<nat>,
                   i: nat, b: nat, hd: Header)
    requires CachesOk(slabs, caches, hhdm, used) && i < 8 && hd.size == SIZES[i] && b >= hhdm
    ensures CachesOk(slabs[b := hd], caches[i := [b] + caches[i]], hhdm, used + {(b - hhdm) / 4096}) || b in slabs
  {
    if b !in slabs {
      var caches' := caches[i := [b] + caches[i]];
      forall c | c in slabs || c == b ensures Cached(caches', c) {
        if c == b {
          assert b in caches'[i];
        } else {
          var j :| 0 <= j < |caches| && c in caches[j];
          assert c in caches'[j];
        }
      }
    }
  }

  lemma CachesUpdate(slabs: map<nat, Header>, caches: seq<seq<nat>>, hhdm: nat, used: set<nat>, b: nat, hd: Header)
    requires CachesOk(slabs, caches, hhdm, used) && b in slabs && hd.size == slabs[b].size
    ensures CachesOk(slabs[b := hd], caches, hhdm, used)
  {
  }

  /** Every live object is as it was. */
  ghost predicate AllKept(h: Heap, mem': Words)
    requires Inv(h)
  {
    forall q :: q in h.live ==> Kept(h.mem, mem', q, SizeOf(h, q))
  }

  /** The kernel heap: eight caches, each a list of slabs with the newest first. Pages come from the
      page allocator and are seen through the direct map at `hhdm`. */
  class KernelHeap {
    const pmm: Pmm.Allocator
    const hhdm: nat
    var slabs: map<nat, Header>
    var mem: Words
    var caches: seq<seq<nat>>
    ghost var free: map<nat, seq<nat>>
    ghost var live: set<nat>

    ghost function Snap(): Heap
      reads this
    {
      Heap(slabs, mem, free, live)
    }

    ghost predicate Valid()
      reads this, pmm, pmm.bitmap
    {
      pmm.Valid() && Inv(Snap()) && CachesOk(slabs, caches, hhdm, pmm.Used())
    }

    /** InitializeKHeap: no slabs yet. */
    constructor (pmm: Pmm.Allocator, hhdm: nat)
      requires pmm.Valid() && hhdm % 4096 == 0 && hhdm > 0
      ensures Valid() && this.pmm == pmm && this.hhdm == hhdm && live == {} && slabs == map[]
    {
      this.pmm := pmm;
      this.hhdm := hhdm;
      slabs, mem, free, live := map[], map[], map[], {};
      caches := [[], [], [], [], [], [], [], []];
    }

    /** The smallest size class that fits. */
    method GetSlabCache(size: nat) returns (i: nat)
      ensures i <= 8 && (i == 8 <==> size > 2048)
      ensures i < 8 ==> size <= SIZES[i] && SlabSize(SIZES[i]) && forall j :: 0 <= j < i ==> SIZES[j] < size
    {
      assert SIZES[7] == 2048;
      i := 0;
      while i < 8
        invariant i <= 8 && forall j :: 0 <= j < i ==> SIZES[j] < size
      {
        if size <= SIZES[i] {
          return;
        }
        i := i + 1;
      }
    }

    /** The first slab of a cache with a free object. */
    method FindFree(i: nat) returns (k: nat)
      requires Valid() && i < 8
      ensures k <= |caches[i]|
      ensures k < |caches[i]| ==> caches[i][k] in slabs && slabs[caches[i][k]].freeCount > 0
      ensures k == |caches[i]| ==> forall b :: b in caches[i] ==> b in slabs && slabs[b].freeCount == 0
    {
      hide Inv, Pmm.UsedIn, Pmm.Allocator.Valid;
      k := 0;
      while k < |caches[i]|
        invariant k <= |caches[i]|
        invariant forall j :: 0 <= j < k ==> caches[i][j] in slabs && slabs[caches[i][j]].freeCount == 0
      {
        assert caches[i][k] in caches[i];
        if slabs[caches[i][k]].freeCount > 0 {
          return;
        }
        k := k + 1;
      }
    }

    /** Clears an object byte by byte. */
    method ClearObject(p: nat, size: nat)
      requires SlabSize(size)
      modifies this`mem
      ensures ZeroedObject(old(mem), mem, p, size)
    {
      var k := 0;
      while k < size
        invariant k <= size
        invariant forall a: nat :: !(p <= a < p + size) ==> Rd(mem, a) == Rd(old(mem), a)
        invariant forall a: nat :: p <= a < p + k ==> Rd(mem, a) == 0
      {
        ghost var was := mem;
        mem := mem[p + k := 0];
        forall a: nat | p <= a < p + k + 1 ensures Rd(mem, a) == 0 {
          assert a != p + k ==> Rd(was, a) == 0;
        }
        k := k + 1;
      }
    }

    /** AllocateSlab plus linking it in front of its cache. */
    method GrowCache(i: nat) returns (b: nat)
      requires Valid() && i < 8
      modifies this, pmm, pmm.bitmap
      ensures Valid() && live == old(live)
      ensures b == 0 <==> old(pmm.freePages) == 0
      ensures b == 0 ==> Snap() == old(Snap())
      ensures b != 0 ==> b in slabs && slabs[b].size == SIZES[i] && slabs[b].freeCount > 0 && b !in old(slabs)
      ensures forall c :: c in old(slabs) ==> c in slabs && slabs[c] == old(slabs)[c]
      ensures AllKept(old(Snap()), mem)
    {
      hide Inv, Kept, AllKept, CachesOk, Pmm.UsedIn, Pmm.Set, Pmm.NextFit, Chain, OnlyInside, Carved;
      NothingMoved(Snap());
      CacheCount(slabs, caches, hhdm, pmm.Used());
      var phys := pmm.AllocPage();
      if phys == 0 {
        return 0;
      }
      ghost var h := Snap();
      b := phys + hhdm;
      FreshPage(slabs, caches, hhdm, old(pmm.Used()), phys);
      var size := SIZES[i];
      CarvedSome(size, i);
      var head, count := Carve(b, size);
      CarveKeeps(h, b, size, mem, count);
      CachesGrow(slabs, caches, hhdm, old(pmm.Used()), i, b, Header(size, count, head, SLAB_MAGIC));
      slabs := slabs[b := Header(size, count, head, SLAB_MAGIC)];
      free := free[b := Carved(b, size, count)];
      caches := caches[i := [b] + caches[i]];
    }

    /** KMalloc for sizes up to 2048; 0 for size 0 and when no page is left. */
    method KMalloc(size: nat) returns (p: nat)
      requires Valid() && size <= 2048
      modifies this, pmm, pmm.bitmap
      ensures Valid()
      ensures p == 0 ==> live == old(live)
      ensures p == 0 <==> size == 0 || (old(pmm.freePages) == 0 && NoneFree(old(slabs), Class(size)))
      ensures p != 0 ==> p !in old(live) && live == old(live) + {p}
      ensures p != 0 ==> size <= SizeOf(Snap(), p) && SizeOf(Snap(), p) == SIZES[Class(size)]
      ensures p != 0 ==> forall a: nat :: p <= a < p + SIZES[Class(size)] ==> Rd(mem, a) == 0
      ensures AllKept(old(Snap()), mem)
    {
      hide Inv, Kept, AllKept, CachesOk, Pmm.UsedIn, NoneFree;
      NothingMoved(Snap());
      if size == 0 {
        return 0;
      }
      var i := GetSlabCache(size);
      ClassIs(size, i);
      CacheCount(slabs, caches, hhdm, pmm.Used());
      var k := FindFree(i);
      var b;
      if k < |caches[i]| {
        b := caches[i][k];
        SomeFree(slabs, caches, hhdm, pmm.Used(), i, b);
      } else {
        NoneFreeHere(slabs, caches, hhdm, pmm.Used(), i);
        b := GrowCache(i);
        if b == 0 {
          return 0;
        }
      }
      ghost var h := Snap();
      p := TakeObject(b);
      AllKeptTrans(old(Snap()), h, mem);
    }

    /** Takes and clears the head of a slab's free list. */
    method TakeObject(b: nat) returns (p: nat)
      requires Valid() && b in slabs && slabs[b].freeCount > 0
      modifies this
      ensures Valid() && p != 0 && p !in old(live) && live == old(live) + {p}
      ensures PageOf(p) == b && b in slabs && slabs[b].size == old(slabs)[b].size
      ensures forall a: nat :: p <= a < p + slabs[b].size ==> Rd(mem, a) == 0
      ensures AllKept(old(Snap()), mem)
    {
      hide Inv, Kept, AllKept, CachesOk, Pmm.UsedIn, OnlyInside;
      ghost var h := Snap();
      HeadOfList(h, b);
      p := slabs[b].freeList;
      var hd := slabs[b].(freeList := Rd(mem, p), freeCount := slabs[b].freeCount - 1);
      ClearObject(p, hd.size);
      TakeKeeps(h, b, mem);
      TakeAllKept(h, mem, p);
      CachesUpdate(slabs, caches, hhdm, pmm.Used(), b, hd);
      slabs := slabs[b := hd];
      free := free[b := free[b][1..]];
      live := live + {p};
    }

    /** KFree of a live slab object: masking finds its slab, and the object heads the free list. */
    method KFree(p: nat)
      requires Valid() && (p == 0 || p in live)
      modifies this
      ensures Valid() && live == old(live) - {p}
      ensures p == 0 ==> Snap() == old(Snap())
      ensures p != 0 ==> Snap() == Freed(old(Snap()), p) && LiveKept(old(Snap()), mem, p)
    {
      hide Inv, LiveKept, CachesOk, Pmm.UsedIn;
      ghost var h := Snap();
      NullNotLive(h);
      if p == 0 {
        return;
      }
      OwningSlab(h, p);
      FreeKeeps(h, p);
      var b := PageOf(p);
      var hd := slabs[b];
      if hd.magic != SLAB_MAGIC {
        assert false;
      }
      CachesUpdate(slabs, caches, hhdm, pmm.Used(), b, hd.(freeList := p, freeCount := hd.freeCount + 1));
      mem := FreedMem(mem, p, hd.freeList);
      slabs := slabs[b := hd.(freeList := p, freeCount := hd.freeCount + 1)];
      free := free[b := [p] + free[b]];
      live := live - {p};
    }

    /** Threads the objects of a page into a list, low addresses first, so the highest is the head. */
    method Carve(b: nat, size: nat) returns (head: nat, count: nat)
      requires SlabSize(size) && b > 0
      modifies this`mem
      ensures count == (4096 - HEADER) / size && head == (if count == 0 then 0 else b + HEADER + (count - 1) * size)
      ensures Chain(mem, head, Carved(b, size, count)) && OnlyInside(old(mem), mem, b, 4096)
    {
      hide Chain, Carved, OnlyInside, FreedMem;
      head, count := 0, 0;
      CarveStart(mem, b, size);
      var p := b + HEADER;
      while p + size <= b + 4096
        invariant p == b + HEADER + count * size && p <= b + 4096
        invariant head == if count == 0 then 0 else p - size
        invariant Chain(mem, head, Carved(b, size, count))
        invariant OnlyInside(old(mem), mem, b, 4096)
      {
        CarveTurn(old(mem), mem, b, size, count, head);
        mem := FreedMem(mem, p, head);
        head := p;
        p := p + size;
        count := count + 1;
      }
      CarveCount(size, count);
    }
  }

  /** The index of the smallest class that fits. */
  function Class(size: nat): (i: nat)
    requires size <= 2048
    ensures i < 8 && size <= SIZES[i] && forall j :: 0 <= j < i ==> SIZES[j] < size
  {
    assert SIZES[7] == 2048;
    if size <= 16 then 0 else if size <= 32 then 1 else if size <= 64 then 2 else if size <= 128 then 3
    else if size <= 256 then 4 else if size <= 512 then 5 else if size <= 1024 then 6 else 7
  }

  lemma ClassIs(size: nat, i: nat)
    requires 0 < size <= 2048 && i < 8 && size <= SIZES[i] && forall j :: 0 <= j < i ==> SIZES[j] < size
    ensures i == Class(size)
  {
    assert i >= Class(size) && Class(size) >= i;
  }

  /** No slab of a class has a free object. */
  ghost predicate NoneFree(slabs: map<nat, Header>, i: nat)
    requires i < 8
  {
    forall b :: b in slabs && slabs[b].size == SIZES[i] ==> slabs[b].freeCount == 0
  }

  lemma CacheCount(slabs: map<nat, Header>, caches: seq<seq<nat>>, hhdm: nat, used: set<nat>)
    requires CachesOk(slabs, caches, hhdm, used)
    ensures |caches| == 8
  {
  }

  lemma SomeFree(slabs: map<nat, Header>, caches: seq<seq<nat>>, hhdm: nat, used: set<nat>, i: nat, b: nat)
    requires CachesOk(slabs, caches, hhdm, used) && i < 8 && b in caches[i] && b in slabs && slabs[b].freeCount > 0
    ensures slabs[b].size == SIZES[i] && !NoneFree(slabs, i)
  {
  }

  lemma NoneFreeHere(slabs: map<nat, Header>, caches: seq<seq<nat>>, hhdm: nat, used: set<nat>, i: nat)
    requires CachesOk(slabs, caches, hhdm, used) && i < 8
    requires forall b :: b in caches[i] ==> b in slabs && slabs[b].freeCount == 0
    ensures NoneFree(slabs, i)
  {
    forall b | b in slabs && slabs[b].size == SIZES[i] ensures slabs[b].freeCount == 0 {
      assert Cached(caches, b);
      var j :| 0 <= j < |caches| && b in caches[j];
      assert SIZES[j] == SIZES[i];
      SizesDistinct(i, j);
    }
  }

  lemma SizesDistinct(i: nat, j: nat)
    requires i < 8 && j < 8 && SIZES[i] == SIZES[j]
    ensures i == j
  {
  }

  lemma FreshPage(slabs: map<nat, Header>, caches: seq<seq<nat>>, hhdm: nat, used: set<nat>, phys: nat)
    requires CachesOk(slabs, caches, hhdm, used) && phys % 4096 == 0 && phys / 4096 !in used
    ensures phys + hhdm !in slabs && (phys + hhdm) % 4096 == 0 && phys + hhdm > 0
  {
  }

  lemma CarvedSome(size: nat, i: nat)
    requires i < 8 && size == SIZES[i]
    ensures SlabSize(size) && (4096 - HEADER) / size > 0
  {
  }

  lemma NothingMoved(h: Heap)
    requires Inv(h)
    ensures AllKept(h, h.mem)
  {
  }

  lemma TakeAllKept(h: Heap, mem': Words, p: nat)
    requires Inv(h) && LiveKept(h, mem', p) && p !in h.live
    ensures AllKept(h, mem')
  {
  }

  lemma AllKeptTrans(h0: Heap, h1: Heap, mem2: Words)
    requires Inv(h0) && Inv(h1) && AllKept(h0, h1.mem) && AllKept(h1, mem2) && h1.live == h0.live
    requires forall c :: c in h0.slabs ==> c in h1.slabs && h1.slabs[c].size == h0.slabs[c].size
    ensures AllKept(h0, mem2)
  {
    hide SlabOk, IsSlot;
    forall q | q in h0.live ensures Kept(h0.mem, mem2, q, SizeOf(h0, q)) {
      assert Kept(h0.mem, h1.mem, q, SizeOf(h0, q)) && Kept(h1.mem, mem2, q, SizeOf(h1, q));
    }
  }

  lemma HeadOfList(h: Heap, b: nat)
    requires Inv(h) && b in h.slabs && h.slabs[b].freeCount > 0
    ensures b in h.free && h.free[b] != [] && h.slabs[b].freeList == h.free[b][0] && h.free[b][0] != 0
    ensures SlabSize(h.slabs[b].size) && h.slabs[b].freeCount == |h.free[b]|
  {
    assert SlabOk(h, b);
  }

  /** Masking a live pointer down to its page finds the slab it came from. */
  lemma OwningSlab(h: Heap, p: nat)
    requires Inv(h) && p in h.live
    ensures PageOf(p) in h.slabs && PageOf(p) in h.free && h.slabs[PageOf(p)].magic == SLAB_MAGIC
    ensures IsSlot(PageOf(p), h.slabs[PageOf(p)].size, p)
  {
    assert SlabOk(h, PageOf(p));
  }

  lemma NullNotLive(h: Heap)
    requires Inv(h)
    ensures 0 !in h.live
  {
  }

  lemma CarveStart(mem: Words, b: nat, size: nat)
    ensures Chain(mem, 0, Carved(b, size, 0)) && OnlyInside(mem, mem, b, 4096)
  {
  }

  lemma CarveTurn(mem0: Words, mem: Words, b: nat, size: nat, n: nat, head: nat)
    requires SlabSize(size) && b > 0 && Chain(mem, head, Carved(b, size, n))
    requires OnlyInside(mem0, mem, b, 4096) && HEADER + n * size + size <= 4096
    ensures var p := b + HEADER + n * size;
      Chain(FreedMem(mem, p, head), p, Carved(b, size, n + 1)) && OnlyInside(mem0, FreedMem(mem, p, head), b, 4096)
    ensures n * size + size == (n + 1) * size
  {
    hide SlabSize, OnlyInside, Chain, FreedMem;
    var p := b + HEADER + n * size;
    forall a | a in Carved(b, size, n) ensures a < p {
      SizePositive(size);
      CarvedBelow(b, size, n, a);
    }
    assert n * size + size == (n + 1) * size;
    assert Carved(b, size, n + 1) == [p] + Carved(b, size, n);
    ChainPush(mem, head, Carved(b, size, n), p);
    PushInside(mem0, mem, b, size, p, head);
  }

  lemma SizePositive(size: nat)
    requires SlabSize(size)
    ensures size >= 16
  {
  }

  /** Linking an object above all the others in front of them. */
  lemma ChainPush(mem: Words, head: nat, objects: seq<nat>, p: nat)
    requires Chain(mem, head, objects) && p > 0 && forall a :: a in objects ==> a < p
    ensures Chain(FreedMem(mem, p, head), p, [p] + objects)
  {
    ChainStable(mem, FreedMem(mem, p, head), head, objects);
    assert ([p] + objects)[1..] == objects;
  }

  lemma PushInside(mem0: Words, mem: Words, b: nat, size: nat, p: nat, head: nat)
    requires OnlyInside(mem0, mem, b, 4096) && SlabSize(size) && b <= p && p + size <= b + 4096
    ensures OnlyInside(mem0, FreedMem(mem, p, head), b, 4096)
  {
  }

  lemma {:induction false} CarvedBelow(b: nat, size: nat, n: nat, a: nat)
    requires a in Carved(b, size, n)
    ensures size > 0 ==> a < b + HEADER + n * size
    ensures a <= b + HEADER + n * size
  {
    if n > 0 {
      assert (n - 1) * size + size == n * size;
      if a != b + HEADER + (n - 1) * size { CarvedBelow(b, size, n - 1, a); }
    }
  }

  lemma CarveCount(size: nat, count: nat)
    requires SlabSize(size) && HEADER + count * size <= 4096 < HEADER + count * size + size
    ensures count == (4096 - HEADER) / size
  {
    ModUnique(4096 - HEADER, size, count, 4096 - HEADER - count * size);
  }
}
