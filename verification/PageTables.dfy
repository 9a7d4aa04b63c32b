/** The four-level tree of page tables in physical memory, the ownership invariant that keeps it a
tree, and the effect of the three kinds of write the kernel makes to it: a leaf entry, a new empty
table, and a frame that is no table at all. */
module PageTables {
  import opened Bits
  import opened Pte

  /** Physical memory: frame number to its 512 words. */
  type Mem = map<nat, seq<nat>>

  function Rd(mem: Mem, f: nat, i: nat): nat {
    if f in mem && i < |mem[f]| then mem[f][i] else 0
  }

  /** Memory with one word of a frame overwritten. */
  function Put(mem: Mem, f: nat, i: nat, e: nat): Mem
    requires f in mem && i < |mem[f]|
  {
    var words: seq<nat> := mem[f][i := e];
    mem[f := words]
  }

  /** The nine-bit table index a page number uses at a level; level 4 is the PML4. */
  function Ix(vpn: nat, level: nat): (r: nat)
    ensures r < 512
  {
    if level == 1 then vpn % 512
    else if level == 2 then vpn / 512 % 512
    else if level == 3 then vpn / 0x4_0000 % 512
    else vpn / 0x800_0000 % 512
  }

  predicate UserHalf(vpn: nat) { Ix(vpn, 4) < 256 }

  datatype Reach = Table(frame: nat) | Absent | Big(entry: nat)

  /** What a walk from `root` reaches at `level`. A set page-size bit ends the walk early. */
  function Walk(mem: Mem, root: nat, vpn: nat, level: nat): Reach
    requires 1 <= level <= 4
    decreases 4 - level
  {
    if level == 4 then Table(root)
    else
      var up := Walk(mem, root, vpn, level + 1);
      if !up.Table? then up else Follow(Rd(mem, up.frame, Ix(vpn, level + 1)), level + 1)
  }

  function Follow(e: nat, level: nat): Reach {
    if !Present(e) then Absent
    else if level < 4 && Huge(e) then Big(e)
    else Table(WalkFrame(e))
  }

  datatype Mapping = Unmapped | Page(entry: nat) | BigPage(entry: nat)

  /** The translation of a page number, as the processor reads it from memory. */
  function Translate(mem: Mem, root: nat, vpn: nat): Mapping {
    match Walk(mem, root, vpn, 1)
    case Absent => Unmapped
    case Big(e) => BigPage(e)
    case Table(t) => LeafMapping(Rd(mem, t, Ix(vpn, 1)))
  }

  function LeafMapping(e: nat): Mapping {
    if Present(e) then Page(e) else Unmapped
  }

  /** Where a table hangs: its level, the PML4 it belongs to, its one parent entry, and whether it
      lies in a user half. */
  datatype Info = Info(level: nat, root: nat, parent: nat, index: nat, user: bool)

  ghost predicate RootLink(mem: Mem, tables: map<nat, Info>, r: nat, i: nat) {
    var e := Rd(mem, r, i);
    Present(e) ==>
      var c := WalkFrame(e);
      && c in tables && tables[c].level == 3 && tables[c].index == i
      && tables[c].user == (i < 256)
      && (i < 256 ==> tables[c].parent == tables[c].root == r && LinksTo(e, c))
  }

  ghost predicate ChildLink(mem: Mem, tables: map<nat, Info>, t: nat, i: nat)
    requires t in tables
  {
    var e, at := Rd(mem, t, i), tables[t];
    at.level > 1 && Present(e) ==>
      var c := WalkFrame(e);
      if Huge(e) then !at.user
      else
        && c in tables
        && tables[c] == Info(at.level - 1, at.root, t, i, at.user)
        && (at.user ==> LinksTo(e, c))
  }

  ghost predicate ParentLink(mem: Mem, tables: map<nat, Info>, roots: set<nat>, t: nat)
    requires t in tables
  {
    var at := tables[t];
    at.user ==>
      && at.index < 512
      && LinksTo(Rd(mem, at.parent, at.index), t)
      && (if at.level == 3 then at.parent in roots && at.parent == at.root && at.index < 256
          else at.parent in tables && tables[at.parent].level == at.level + 1
               && tables[at.parent].root == at.root && tables[at.parent].user)
  }

  /** Tree shape and ownership: every present entry of a table leads to a table that records that
      entry as its parent, so no table is reached through two entries and no user table is shared
      between two spaces. User halves hold no huge pages. */
  ghost predicate TreeInv(mem: Mem, tables: map<nat, Info>, roots: set<nat>) {
    && (forall r :: r in roots ==> r in mem && |mem[r]| == 512 && r !in tables)
    && (forall t :: t in tables ==> t in mem && |mem[t]| == 512 && t < FRAME_LIMIT && 1 <= tables[t].level <= 3)
    && (forall r, i :: r in roots && 0 <= i < 512 ==> RootLink(mem, tables, r, i))
    && (forall t, i :: t in tables && 0 <= i < 512 ==> ChildLink(mem, tables, t, i))
    && (forall t :: t in tables ==> ParentLink(mem, tables, roots, t))
  }

  /** A table reached by a walk is recorded at that level, under the table the walk came from. */
  lemma WalkFacts(mem: Mem, tables: map<nat, Info>, roots: set<nat>, r: nat, vpn: nat, level: nat)
    requires TreeInv(mem, tables, roots) && r in roots && 1 <= level <= 3
    requires Walk(mem, r, vpn, level).Table?
    ensures var t := Walk(mem, r, vpn, level).frame;
      && t in tables && tables[t].level == level && tables[t].index == Ix(vpn, level + 1)
      && tables[t].user == UserHalf(vpn) && (UserHalf(vpn) ==> tables[t].root == r)
      && Walk(mem, r, vpn, level + 1).Table?
      && (level < 3 || UserHalf(vpn) ==> tables[t].parent == Walk(mem, r, vpn, level + 1).frame)
    decreases 4 - level
  {
    hide Present, Huge, WalkFrame, TableEntry, LinksTo, LeafMapping, Ix;
    if level == 3 {
      assert RootLink(mem, tables, r, Ix(vpn, 4));
    } else {
      WalkFacts(mem, tables, roots, r, vpn, level + 1);
      assert ChildLink(mem, tables, Walk(mem, r, vpn, level + 1).frame, Ix(vpn, level + 1));
    }
  }

  /** Two walks that meet in a table came through the same indices, and in a user half from the
      same root. */
  lemma {:induction false} WalkUnique(mem: Mem, tables: map<nat, Info>, roots: set<nat>,
                     r: nat, vpn: nat, r': nat, vpn': nat, level: nat, upper: nat)
    requires TreeInv(mem, tables, roots) && r in roots && r' in roots && 1 <= level < upper <= 4
    requires Walk(mem, r, vpn, level).Table? && Walk(mem, r', vpn', level) == Walk(mem, r, vpn, level)
    ensures Ix(vpn, upper) == Ix(vpn', upper)
    ensures UserHalf(vpn) == UserHalf(vpn') && (UserHalf(vpn) ==> r == r')
    ensures Walk(mem, r, vpn, 3) == Walk(mem, r', vpn', 3)
    decreases 4 - level
  {
    hide Present, Huge, WalkFrame, TableEntry, LinksTo, LeafMapping, Ix;
    WalkFacts(mem, tables, roots, r, vpn, level);
    WalkFacts(mem, tables, roots, r', vpn', level);
    if level < 3 {
      WalkUnique(mem, tables, roots, r, vpn, r', vpn', level + 1, if upper == level + 1 then 4 else upper);
    }
  }

  /** A walk reads only roots and tables above its level. */
  lemma {:induction false} WalkStable(mem: Mem, mem': Mem, tables: map<nat, Info>, roots: set<nat>,
                     r: nat, vpn: nat, level: nat)
    requires TreeInv(mem, tables, roots) && r in roots && 1 <= level <= 4
    requires forall f :: f in roots || (f in tables && tables[f].level > 1) ==> f in mem' && mem'[f] == mem[f]
    ensures Walk(mem', r, vpn, level) == Walk(mem, r, vpn, level)
    decreases 4 - level
  {
    hide Present, Huge, WalkFrame, TableEntry, LinksTo, LeafMapping, Ix;
    if level < 4 {
      WalkStable(mem, mem', tables, roots, r, vpn, level + 1);
      if level < 3 && Walk(mem, r, vpn, level + 1).Table? {
        WalkFacts(mem, tables, roots, r, vpn, level + 1);
      }
    }
  }

  // ---- Writing a leaf entry ----

  lemma LeafWriteInv(mem: Mem, tables: map<nat, Info>, roots: set<nat>, t: nat, i: nat, e: nat)
    requires TreeInv(mem, tables, roots) && t in tables && tables[t].level == 1 && i < 512
    ensures TreeInv(Put(mem, t, i, e), tables, roots)
  {
    hide Present, Huge, WalkFrame, TableEntry, LinksTo, LeafMapping, Ix;
    var mem' := Put(mem, t, i, e);
    forall r, j | r in roots && 0 <= j < 512 ensures RootLink(mem', tables, r, j) {
      assert RootLink(mem, tables, r, j);
    }
    forall f, j | f in tables && 0 <= j < 512 ensures ChildLink(mem', tables, f, j) {
      assert ChildLink(mem, tables, f, j);
    }
    forall f | f in tables ensures ParentLink(mem', tables, roots, f) {
      assert ParentLink(mem, tables, roots, f);
    }
  }

  /** Writing one leaf entry changes exactly the translations that read it: that page number, in the
      spaces that share the table. */
  lemma LeafWriteTranslate(mem: Mem, tables: map<nat, Info>, roots: set<nat>,
                           r: nat, vpn: nat, e: nat, r': nat, vpn': nat)
    requires TreeInv(mem, tables, roots) && r in roots && r' in roots
    requires Walk(mem, r, vpn, 1).Table? && vpn < 0x10_0000_0000 && vpn' < 0x10_0000_0000
    ensures var t := Walk(mem, r, vpn, 1).frame;
      t in tables && tables[t].level == 1 &&
      var mem' := Put(mem, t, Ix(vpn, 1), e);
      && (forall l :: 1 <= l <= 4 ==> Walk(mem', r', vpn', l) == Walk(mem, r', vpn', l))
      && Translate(mem', r', vpn') ==
         if vpn' == vpn && Walk(mem, r', vpn, 3) == Walk(mem, r, vpn, 3) then LeafMapping(e)
         else Translate(mem, r', vpn')
    ensures UserHalf(vpn) && r != r' ==> Walk(mem, r', vpn, 3) != Walk(mem, r, vpn, 3)
  {
    hide Present, Huge, WalkFrame, TableEntry, LinksTo, LeafMapping, Ix;
    WalkFacts(mem, tables, roots, r, vpn, 1);
    var t := Walk(mem, r, vpn, 1).frame;
    var mem' := Put(mem, t, Ix(vpn, 1), e);
    forall l | 1 <= l <= 4 ensures Walk(mem', r', vpn', l) == Walk(mem, r', vpn', l) {
      WalkStable(mem, mem', tables, roots, r', vpn', l);
    }
    if Walk(mem, r', vpn', 1) == Table(t) {
      WalkUnique(mem, tables, roots, r, vpn, r', vpn', 1, 2);
      WalkUnique(mem, tables, roots, r, vpn, r', vpn', 1, 3);
      WalkUnique(mem, tables, roots, r, vpn, r', vpn', 1, 4);
      if Ix(vpn, 1) == Ix(vpn', 1) { SameVpn(vpn, vpn'); }
    } else if vpn' == vpn && Walk(mem, r', vpn, 3) == Walk(mem, r, vpn, 3) {
      SharedBelow(mem, r, r', vpn);
    }
    if UserHalf(vpn) && r != r' && Walk(mem, r', vpn, 3) == Walk(mem, r, vpn, 3) {
      SharedBelow(mem, r, r', vpn);
      WalkUnique(mem, tables, roots, r, vpn, r', vpn, 1, 4);
    }
  }

  lemma SharedBelow(mem: Mem, r: nat, r': nat, vpn: nat)
    requires Walk(mem, r', vpn, 3) == Walk(mem, r, vpn, 3)
    ensures Walk(mem, r', vpn, 1) == Walk(mem, r, vpn, 1)
  {
    assert Walk(mem, r', vpn, 2) == Walk(mem, r, vpn, 2);
  }

  /** The four indices determine a 36-bit page number. */
  lemma SameVpn(a: nat, b: nat)
    requires a < 0x10_0000_0000 && b < 0x10_0000_0000
    requires Ix(a, 1) == Ix(b, 1) && Ix(a, 2) == Ix(b, 2) && Ix(a, 3) == Ix(b, 3) && Ix(a, 4) == Ix(b, 4)
    ensures a == b
  {
    Decompose(a);
    Decompose(b);
    hide Ix;
  }

  lemma Decompose(a: nat)
    requires a < 0x10_0000_0000
    ensures a == Ix(a, 4) * 0x800_0000 + Ix(a, 3) * 0x4_0000 + Ix(a, 2) * 512 + Ix(a, 1)
  {
    assert a / 0x800_0000 == a / 0x4_0000 / 512;
    assert a / 0x4_0000 == a / 512 / 512;
  }

  // ---- Installing an empty table ----

  function ZeroFrame(): (z: seq<nat>)
    ensures |z| == 512 && forall i :: 0 <= i < 512 ==> z[i] == 0
  {
    seq(512, _ => 0)
  }

  /** The level a table in frame `t` is at, the PML4 counting as level 4. */
  ghost function LevelOf(tables: map<nat, Info>, t: nat): nat {
    if t in tables then tables[t].level else 4
  }

  ghost function ChildInfo(tables: map<nat, Info>, t: nat, i: nat): Info
    requires LevelOf(tables, t) >= 1
  {
    if t in tables then Info(tables[t].level - 1, tables[t].root, t, i, tables[t].user)
    else Info(3, t, t, i, i < 256)
  }

  ghost function Installed(mem: Mem, t: nat, i: nat, f: nat): Mem
    requires t in mem && i < |mem[t]| && t != f
  {
    Put(mem[f := ZeroFrame()], t, i, TableEntry(f))
  }

  ghost predicate CanInstall(mem: Mem, tables: map<nat, Info>, roots: set<nat>, t: nat, i: nat, f: nat) {
    && TreeInv(mem, tables, roots) && (t in tables || t in roots) && LevelOf(tables, t) > 1
    && i < 512 && !Present(Rd(mem, t, i))
    && f !in roots && f !in tables && f < FRAME_LIMIT
  }

  lemma InstallInv(mem: Mem, tables: map<nat, Info>, roots: set<nat>, t: nat, i: nat, f: nat)
    requires CanInstall(mem, tables, roots, t, i, f)
    ensures TreeInv(Installed(mem, t, i, f), tables[f := ChildInfo(tables, t, i)], roots)
  {
    hide Present, Huge, WalkFrame, TableEntry, LinksTo, LeafMapping, Ix;
    var mem', tables' := Installed(mem, t, i, f), tables[f := ChildInfo(tables, t, i)];
    TableEntryFacts(f);
    TableEntryLinks(f);
    ZeroEntry();
    forall r, j | r in roots && 0 <= j < 512 ensures RootLink(mem', tables', r, j) {
      assert RootLink(mem, tables, r, j);
    }
    forall g, j | g in tables' && 0 <= j < 512 ensures ChildLink(mem', tables', g, j) {
      if g in tables { assert ChildLink(mem, tables, g, j); }
    }
    forall g | g in tables' ensures ParentLink(mem', tables', roots, g) {
      if g in tables {
        assert ParentLink(mem, tables, roots, g);
        if tables[g].user { LinkIsPresent(Rd(mem, tables[g].parent, tables[g].index), g); }
      }
    }
  }

  lemma LinkIsPresent(e: nat, c: nat)
    requires LinksTo(e, c)
    ensures Present(e)
  {
  }

  /** An empty table changes no translation; it only extends walks that ended at the entry. */
  lemma {:induction false} InstallWalk(mem: Mem, tables: map<nat, Info>, roots: set<nat>, t: nat, i: nat, f: nat,
                      r: nat, vpn: nat, level: nat)
    requires CanInstall(mem, tables, roots, t, i, f) && r in roots && 1 <= level <= 4
    ensures var mem' := Installed(mem, t, i, f);
      var was, now := Walk(mem, r, vpn, level), Walk(mem', r, vpn, level);
      now == was || (was == Absent && (now == Absent || (now == Table(f) && level < LevelOf(tables, t))))
    ensures Walk(mem, r, vpn, level) == Table(t) && level == LevelOf(tables, t) && Ix(vpn, level) == i ==>
      Walk(Installed(mem, t, i, f), r, vpn, level) == Table(t)
      && (level > 1 ==> Walk(Installed(mem, t, i, f), r, vpn, level - 1) == Table(f))
    decreases 4 - level
  {
    hide Present, Huge, WalkFrame, TableEntry, LinksTo, LeafMapping, Ix;
    var mem' := Installed(mem, t, i, f);
    TableEntryFacts(f);
    ZeroEntry();
    if level < 4 {
      InstallWalk(mem, tables, roots, t, i, f, r, vpn, level + 1);
      if level < 3 && Walk(mem, r, vpn, level + 1).Table? {
        WalkFacts(mem, tables, roots, r, vpn, level + 1);
      }
    }
  }

  lemma InstallTranslate(mem: Mem, tables: map<nat, Info>, roots: set<nat>, t: nat, i: nat, f: nat, r: nat, vpn: nat)
    requires CanInstall(mem, tables, roots, t, i, f) && r in roots
    ensures Translate(Installed(mem, t, i, f), r, vpn) == Translate(mem, r, vpn)
  {
    hide Present, Huge, WalkFrame, TableEntry, Ix;
    InstallWalk(mem, tables, roots, t, i, f, r, vpn, 1);
    ZeroEntry();
    if Walk(mem, r, vpn, 1).Table? { WalkFacts(mem, tables, roots, r, vpn, 1); }
  }

  // ---- The processor uses an entry ----

  /** An entry above the leaves, other than a huge page, that the processor can use. */
  ghost predicate CanUse(mem: Mem, tables: map<nat, Info>, roots: set<nat>, t: nat, i: nat) {
    && TreeInv(mem, tables, roots) && (t in tables || t in roots) && LevelOf(tables, t) > 1
    && i < 512 && Present(Rd(mem, t, i)) && (t in tables ==> !Huge(Rd(mem, t, i)))
  }

  /** Memory with a bit set in an entry. */
  function Touched(mem: Mem, t: nat, i: nat, b: nat): Mem
    requires t in mem && i < |mem[t]|
  {
    Put(mem, t, i, Or(mem[t][i], b))
  }

  lemma TouchedInv(mem: Mem, tables: map<nat, Info>, roots: set<nat>, t: nat, i: nat, b: nat)
    requires CanUse(mem, tables, roots, t, i) && UseBit(b)
    ensures TreeInv(Touched(mem, t, i, b), tables, roots)
  {
    hide Present, Huge, WalkFrame, LinksTo, Or;
    var mem' := Touched(mem, t, i, b);
    UseKeeps(mem[t][i], b);
    forall r, j | r in roots && 0 <= j < 512 ensures RootLink(mem', tables, r, j) {
      assert RootLink(mem, tables, r, j);
    }
    forall g, j | g in tables && 0 <= j < 512 ensures ChildLink(mem', tables, g, j) {
      assert ChildLink(mem, tables, g, j);
    }
    forall g | g in tables ensures ParentLink(mem', tables, roots, g) {
      assert ParentLink(mem, tables, roots, g);
    }
  }

  /** Using an entry moves no walk and no translation. */
  lemma {:induction false} TouchedWalk(mem: Mem, tables: map<nat, Info>, roots: set<nat>, t: nat, i: nat, b: nat,
                                    r: nat, vpn: nat, level: nat)
    requires CanUse(mem, tables, roots, t, i) && UseBit(b) && r in roots && 1 <= level <= 4
    ensures Walk(Touched(mem, t, i, b), r, vpn, level) == Walk(mem, r, vpn, level)
    decreases 4 - level
  {
    hide Present, Huge, WalkFrame, Ix, Or, RootLink, ChildLink, ParentLink;
    UseKeeps(mem[t][i], b);
    if level < 4 {
      TouchedWalk(mem, tables, roots, t, i, b, r, vpn, level + 1);
      if level < 3 && Walk(mem, r, vpn, level + 1).Table? { WalkFacts(mem, tables, roots, r, vpn, level + 1); }
    }
  }

  lemma TouchedTranslate(mem: Mem, tables: map<nat, Info>, roots: set<nat>, t: nat, i: nat, b: nat, r: nat, vpn: nat)
    requires CanUse(mem, tables, roots, t, i) && UseBit(b) && r in roots
    ensures Translate(Touched(mem, t, i, b), r, vpn) == Translate(mem, r, vpn)
  {
    hide Present, Huge, WalkFrame, Ix, Or, RootLink, ChildLink, ParentLink, Walk;
    TouchedWalk(mem, tables, roots, t, i, b, r, vpn, 1);
    if Walk(mem, r, vpn, 1).Table? { WalkFacts(mem, tables, roots, r, vpn, 1); }
  }
}
