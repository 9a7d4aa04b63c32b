/** Which frames the teardown of an address space releases, and why each is released once. */
module Teardown {
  import opened Bits
  import opened Pte
  import opened PageTables
  import opened Spaces

  /** The ancestor of table `c` at `level`. */
  ghost function Top(tables: map<nat, Info>, c: nat, level: nat): nat
    decreases level - (if c in tables then tables[c].level else 0)
  {
    if c in tables && tables[c].level < level && tables[c].parent in tables
       && tables[tables[c].parent].level == tables[c].level + 1
    then Top(tables, tables[c].parent, level)
    else c
  }

  /** The user tables that hang below the first `n` entries of the table (or PML4) in frame `t`. */
  ghost function Below(s: State, t: nat, n: nat): set<nat> {
    set c | c in s.tables && Hangs(s, t, n, c)
  }

  ghost function CountBelow(s: State, t: nat, n: nat): nat {
    |Below(s, t, n)|
  }

  ghost predicate Hangs(s: State, t: nat, n: nat, c: nat)
    requires c in s.tables
  {
    && s.tables[c].user && s.tables[c].level < LevelOf(s.tables, t)
    && var a := Top(s.tables, c, LevelOf(s.tables, t) - 1);
       a in s.tables && s.tables[a].parent == t && s.tables[a].index < n
  }

  /** The user tables of the space with PML4 `r`. */
  ghost function UserTables(s: State, r: nat): set<nat> {
    set c | c in s.tables && s.tables[c].user && s.tables[c].root == r
  }

  lemma {:induction false} TopFacts(s: State, c: nat, level: nat)
    requires Inv(s) && c in s.tables && s.tables[c].user && s.tables[c].level <= level <= 3
    ensures var a := Top(s.tables, c, level);
      a in s.tables && s.tables[a].level == level && s.tables[a].user && s.tables[a].root == s.tables[c].root
    ensures s.tables[c].level < level ==>
      var b := Top(s.tables, c, level - 1);
      b in s.tables && Top(s.tables, c, level) == s.tables[b].parent
    decreases level - s.tables[c].level
  {
    hide RootLink, ChildLink, TableEntry, SpacesDistinct, FramesWellFormed;
    assert ParentLink(s.mem, s.tables, s.Roots(), c);
    if s.tables[c].level < level {
      var p := s.tables[c].parent;
      TopFacts(s, p, level);
      if s.tables[c].level < level - 1 { assert Top(s.tables, c, level - 1) == Top(s.tables, p, level - 1); }
    }
  }

  /** The one table an entry leads to. */
  lemma EntryChild(s: State, t: nat, i: nat)
    requires Inv(s) && i < 512
    requires (t in s.tables && s.tables[t].user && s.tables[t].level > 1) || (t in s.Roots() && i < 256)
    ensures t in s.mem && |s.mem[t]| == 512
    ensures Present(s.mem[t][i]) ==>
      var c := LeafFrame(s.mem[t][i]);
      && c in s.tables && s.tables[c].user && s.tables[c].parent == t && s.tables[c].index == i
      && s.tables[c].level == LevelOf(s.tables, t) - 1 && And(s.mem[t][i], ADDR_MASK) == c * 4096
      && c in s.used && 0 < c < s.total
    ensures forall a :: a in s.tables && s.tables[a].user && s.tables[a].parent == t && s.tables[a].index == i
                        && s.tables[a].level == LevelOf(s.tables, t) - 1 ==>
      Present(s.mem[t][i]) && LeafFrame(s.mem[t][i]) == a
  {
    hide Present, Huge, WalkFrame, LeafFrame, And;
    if t in s.tables {
      assert ChildLink(s.mem, s.tables, t, i);
    } else {
      assert RootLink(s.mem, s.tables, t, i);
    }
    if Present(s.mem[t][i]) {
      var c := WalkFrame(s.mem[t][i]);
      LinkFrame(s.mem[t][i], c);
      assert s.Owned(c);
    }
    forall a | a in s.tables && s.tables[a].user && s.tables[a].parent == t && s.tables[a].index == i
               && s.tables[a].level == LevelOf(s.tables, t) - 1
      ensures Present(s.mem[t][i]) && LeafFrame(s.mem[t][i]) == a
    {
      assert ParentLink(s.mem, s.tables, s.Roots(), a);
      LinkFrame(s.mem[t][i], a);
    }
  }

  lemma LinkFrame(e: nat, c: nat)
    requires LinksTo(e, c)
    ensures LeafFrame(e) == c && WalkFrame(e) == c
  {
    hide And;
  }

  /** One more entry adds its table and everything below that table, all of it new. */
  lemma BelowStep(s: State, t: nat, i: nat)
    requires Inv(s) && i < 512
    requires (t in s.tables && s.tables[t].user && s.tables[t].level > 1) || (t in s.Roots() && i < 256)
    requires t in s.mem && |s.mem[t]| == 512
    ensures !Present(s.mem[t][i]) ==> Below(s, t, i + 1) == Below(s, t, i)
    ensures Present(s.mem[t][i]) ==>
      var c := LeafFrame(s.mem[t][i]);
      && Below(s, t, i + 1) == Below(s, t, i) + Below(s, c, 512) + {c}
      && Below(s, t, i) !! Below(s, c, 512) && c !in Below(s, t, i) && c !in Below(s, c, 512)
  {
    EntryChild(s, t, i);
    hide Inv, Present, LeafFrame, TableEntry, Hangs;
    forall d | d in s.tables
      ensures Hangs(s, t, i + 1, d) <==> (Hangs(s, t, i, d) || (Present(s.mem[t][i]) && FromEntry(s, t, i, d)))
      ensures Present(s.mem[t][i]) && Hangs(s, t, i, d) ==> !FromEntry(s, t, i, d)
    {
      HangsStep(s, t, i, d);
    }
    if Present(s.mem[t][i]) {
      var c := LeafFrame(s.mem[t][i]);
      assert !Hangs(s, c, 512, c) by { NotBelowSelf(s, c); }
    }
  }

  ghost predicate FromEntry(s: State, t: nat, i: nat, d: nat)
    requires d in s.tables && t in s.mem && i < |s.mem[t]|
  {
    var c := LeafFrame(s.mem[t][i]);
    d == c || Hangs(s, c, 512, d)
  }

  lemma NotBelowSelf(s: State, c: nat)
    requires c in s.tables
    ensures !Hangs(s, c, 512, c)
  {
  }

  lemma HangsStep(s: State, t: nat, i: nat, d: nat)
    requires Inv(s) && i < 512 && d in s.tables
    requires (t in s.tables && s.tables[t].user && s.tables[t].level > 1) || (t in s.Roots() && i < 256)
    requires t in s.mem && |s.mem[t]| == 512
    ensures Hangs(s, t, i + 1, d) <==> (Hangs(s, t, i, d) || (Present(s.mem[t][i]) && FromEntry(s, t, i, d)))
    ensures Present(s.mem[t][i]) && Hangs(s, t, i, d) ==> !FromEntry(s, t, i, d)
  {
    EntryChild(s, t, i);
    hide Inv, Present, LeafFrame, TableEntry;
    var level := LevelOf(s.tables, t);
    if s.tables[d].user && s.tables[d].level < level {
      TopFacts(s, d, level - 1);
      if Present(s.mem[t][i]) { ChildOrBelow(s, LeafFrame(s.mem[t][i]), d); }
    }
  }

  lemma ChildOrBelow(s: State, c: nat, d: nat)
    requires Inv(s) && c in s.tables && s.tables[c].user && d in s.tables && s.tables[d].user
    requires s.tables[d].level <= s.tables[c].level
    ensures Top(s.tables, d, s.tables[c].level) == c <==> d == c || Hangs(s, c, 512, d)
  {
    var level := s.tables[c].level;
    TopFacts(s, d, level);
    if s.tables[d].level < level {
      TopFacts(s, d, level - 1);
      var a := Top(s.tables, d, level - 1);
      assert ParentLink(s.mem, s.tables, s.Roots(), a);
    }
  }

  /** Everything below the user half of a PML4 is that space's user tables. */
  lemma BelowRoot(s: State, r: nat)
    requires Inv(s) && r in s.Roots()
    ensures Below(s, r, 256) == UserTables(s, r)
  {
    forall c | c in s.tables && s.tables[c].user ensures Hangs(s, r, 256, c) <==> s.tables[c].root == r {
      TopFacts(s, c, 3);
      assert ParentLink(s.mem, s.tables, s.Roots(), Top(s.tables, c, 3));
    }
  }

  /** The whole effect of dropping the last reference to the space at `k`. */
  ghost predicate Destroyed(s: State, s': State, k: nat) {
    && k in s.spaces
    && var p := s.spaces[k].pml4;
       s' == s.(used := s.used - UserTables(s, p) - {p, k}, spaces := s.spaces - {k},
                tables := map t | t in s.tables && t !in UserTables(s, p) :: s.tables[t])
  }

  lemma DestroyedTree(s: State, s': State, k: nat)
    requires Inv(s) && Destroyed(s, s', k)
    ensures TreeInv(s'.mem, s'.tables, s'.Roots())
    ensures s'.Roots() == s.Roots() - {s.spaces[k].pml4}
  {
    hide Present, Huge, WalkFrame, TableEntry, LinksTo;
    assert s'.Roots() == s.Roots() - {s.spaces[k].pml4} by {
      forall r | r in s.Roots() && r != s.spaces[k].pml4 ensures r in s'.Roots() {
        var j :| j in s.spaces && s.spaces[j].pml4 == r;
        assert j in s'.spaces && s'.spaces[j].pml4 == r;
      }
    }
    forall r, i | r in s'.Roots() && 0 <= i < 512 ensures RootLink(s'.mem, s'.tables, r, i) {
      assert RootLink(s.mem, s.tables, r, i);
    }
    forall t, i | t in s'.tables && 0 <= i < 512 ensures ChildLink(s'.mem, s'.tables, t, i) {
      assert ChildLink(s.mem, s.tables, t, i);
    }
    forall t | t in s'.tables ensures ParentLink(s'.mem, s'.tables, s'.Roots(), t) {
      assert ParentLink(s.mem, s.tables, s.Roots(), t);
    }
  }

  /** Teardown keeps the invariant of everything that is left. */
  lemma DestroyedInv(s: State, s': State, k: nat)
    requires Inv(s) && Destroyed(s, s', k) && k != s.kernel
    ensures Inv(s')
  {
    DestroyedTree(s, s', k);
    hide TreeInv;
    var p := s.spaces[k].pml4;
    assert p in s.Roots();
    forall f: nat | s'.Owned(f) ensures f in s'.used && f != 0 {
      assert s.Owned(f);
    }
  }

  /** What one loop turn of the teardown needs to know. */
  lemma EntryRelease(s: State, t: nat, i: nat, n: nat, done: set<nat>)
    requires Inv(s) && i < n <= 512 && done !! Below(s, t, n)
    requires (t in s.tables && s.tables[t].user && s.tables[t].level > 1) || (t in s.Roots() && n <= 256)
    ensures t in s.mem && |s.mem[t]| == 512
    ensures !Present(s.mem[t][i]) ==>
      Below(s, t, i + 1) == Below(s, t, i) && CountBelow(s, t, i + 1) == CountBelow(s, t, i)
    ensures Present(s.mem[t][i]) ==>
      var c := LeafFrame(s.mem[t][i]);
      && c in s.tables && s.tables[c].user && s.tables[c].level == LevelOf(s.tables, t) - 1
      && And(s.mem[t][i], ADDR_MASK) == c * 4096 && c in s.used && 0 < c < s.total
      && Below(s, t, i + 1) == Below(s, t, i) + Below(s, c, 512) + {c}
      && CountBelow(s, t, i + 1) == CountBelow(s, t, i) + CountBelow(s, c, 512) + 1
      && (done + Below(s, t, i)) !! Below(s, c, 512)
      && c !in done + Below(s, t, i) + Below(s, c, 512)
      && (s.tables[c].level == 1 ==> Below(s, c, 512) == {} && CountBelow(s, c, 512) == 0)
  {
    EntryChild(s, t, i);
    BelowStep(s, t, i);
    AddrField(s.mem[t][i]);
    hide Inv, Present, TableEntry, Hangs;
    BelowMono(s, t, i + 1, n);
    if Present(s.mem[t][i]) {
      var c := LeafFrame(s.mem[t][i]);
      if s.tables[c].level == 1 { LeafTableBelow(s, c); }
    }
  }

  lemma BelowMono(s: State, t: nat, i: nat, n: nat)
    requires i <= n
    ensures Below(s, t, i) <= Below(s, t, n)
  {
  }

  lemma LeafTableBelow(s: State, c: nat)
    requires Inv(s) && c in s.tables && s.tables[c].level == 1
    ensures Below(s, c, 512) == {}
  {
  }
}
