/** The in-memory filesystem: a tree of nodes, attached and looked up by path. */
module RamFs {
  import opened Common

  /** C strings, without their terminator. */
  type Str = seq<Byte>

  const SLASH: Byte := '/' as int
  const MAX_CHILDREN: nat := 64

  /** A node; a file's size is the length of its data. */
  datatype Node = Node(name: Str, dir: bool, children: seq<nat>, data: seq<Byte>)

  /** All nodes ever created, by number; node 0 is the root. */
  type Tree = seq<Node>

  datatype Kind = File(data: seq<Byte>) | Directory

  // ---- Paths ----

  function FirstSlash(s: Str): (k: nat)
    ensures k <= |s| && (k < |s| ==> s[k] == SLASH) && forall i :: 0 <= i < k ==> s[i] != SLASH
  {
    if s == [] || s[0] == SLASH then 0 else FirstSlash(s[1..]) + 1
  }

  /** The non-empty segments that a slash follows. */
  function Mids(s: Str): seq<Str>
    decreases |s|
  {
    var k := FirstSlash(s);
    if k == |s| then [] else (if k > 0 then [s[..k]] else []) + Mids(s[k + 1..])
  }

  /** The last segment, empty after a trailing slash. */
  function Leaf(s: Str): Str
    decreases |s|
  {
    var k := FirstSlash(s);
    if k == |s| then s else Leaf(s[k + 1..])
  }

  /** The components of a path: repeated and trailing slashes do not count. */
  function Comps(s: Str): seq<Str> { Mids(s) + LeafSeq(Leaf(s)) }

  function LeafSeq(leaf: Str): seq<Str> { if leaf == [] then [] else [leaf] }

  lemma {:induction false} SlashAt(s: Str, k: nat)
    requires k <= |s| && (k < |s| ==> s[k] == SLASH) && forall i :: 0 <= i < k ==> s[i] != SLASH
    ensures FirstSlash(s) == k
  {
    var j := FirstSlash(s);
    assert j >= k && k >= j;
  }

  lemma {:induction false} CompsStep(s: Str)
    ensures var k := FirstSlash(s);
      Comps(s) == if k == |s| then (if s == [] then [] else [s])
                  else (if k > 0 then [s[..k]] else []) + Comps(s[k + 1..])
  {
    hide FirstSlash, Mids, Leaf;
    var k := FirstSlash(s);
    if k < |s| {
      var first, rest := if k > 0 then [s[..k]] else [], s[k + 1..];
      PartsStep(s, first, rest);
      Regroup(first, Mids(rest), LeafSeq(Leaf(rest)));
    } else {
      LastPart(s);
      assert [] + LeafSeq(s) == LeafSeq(s);
    }
  }

  lemma {:induction false} Regroup(a: seq<Str>, b: seq<Str>, c: seq<Str>)
    ensures (a + b) + c == a + (b + c)
  {
  }

  lemma {:induction false} LastPart(s: Str)
    requires FirstSlash(s) == |s|
    ensures Mids(s) == [] && Leaf(s) == s
  {
    hide FirstSlash;
  }

  lemma {:induction false} PartsStep(s: Str, first: seq<Str>, rest: Str)
    requires var k := FirstSlash(s); k < |s| && first == (if k > 0 then [s[..k]] else []) && rest == s[k + 1..]
    ensures Mids(s) == first + Mids(rest) && Leaf(s) == Leaf(rest)
  {
    hide FirstSlash;
  }

  /** What components are: nothing has none, a name is one, and a slash separates. So repeated, leading and
      trailing slashes do not count. */
  lemma {:induction false} CompsLaws(a: Str, b: Str, x: Str)
    ensures Comps([]) == []
    ensures x != [] && SLASH !in x ==> Comps(x) == [x]
    ensures Comps(a + [SLASH] + b) == Comps(a) + Comps(b)
    decreases |a|
  {
    hide Comps;
    CompsStep([]);
    if x != [] && SLASH !in x {
      SlashAt(x, |x|);
      CompsStep(x);
    }
    var s, k := a + [SLASH] + b, FirstSlash(a);
    SlashAt(s, k);
    CompsStep(s);
    CompsStep(a);
    assert s[..k] == a[..k];
    if k == |a| {
      assert s[k + 1..] == b && a[..k] == a;
    } else {
      assert s[k + 1..] == a[k + 1..] + [SLASH] + b;
      CompsLaws(a[k + 1..], b, x);
    }
  }

  // ---- Lookup ----

  /** The first child with a name, optionally among directories only. */
  function FindIn(t: Tree, children: seq<nat>, name: Str, dirsOnly: bool): (r: Option<nat>)
    ensures r.Some? ==> r.value < |t|
  {
    if children == [] then None
    else if children[0] < |t| && t[children[0]].name == name && (dirsOnly ==> t[children[0]].dir) then Some(children[0])
    else FindIn(t, children[1..], name, dirsOnly)
  }

  function Child(t: Tree, cur: nat, name: Str): Option<nat> {
    if cur < |t| then FindIn(t, t[cur].children, name, false) else None
  }

  /** The node a list of components leads to. */
  function Lookup(t: Tree, cur: nat, q: seq<Str>): Option<nat>
    decreases |q|
  {
    if q == [] then Some(cur)
    else
      var c := Child(t, cur, q[0]);
      if c == None then None else Lookup(t, c.value, q[1..])
  }

  /** A tree: children come after their parent, every node has one parent entry, siblings have
      different names, and files have no children. */
  ghost predicate TreeInv(t: Tree) {
    t != [] && t[0].dir && KidsAfter(t) && OneEntry(t) && NamesDiffer(t) && Shaped(t)
  }

  ghost predicate KidsAfter(t: Tree) {
    forall p, i :: 0 <= p < |t| && 0 <= i < |t[p].children| ==> p < t[p].children[i] < |t|
  }

  ghost predicate IsEntry(t: Tree, p: int, i: int) { 0 <= p < |t| && 0 <= i < |t[p].children| }

  ghost predicate OneEntry(t: Tree) {
    forall p, i, p', i' :: IsEntry(t, p, i) && IsEntry(t, p', i') && t[p].children[i] == t[p'].children[i'] ==>
      p == p' && i == i'
  }

  ghost predicate NamesDiffer(t: Tree) {
    forall p, i, j :: IsEntry(t, p, i) && IsEntry(t, p, j) && i < j
                      && t[p].children[i] < |t| && t[p].children[j] < |t| ==>
      t[t[p].children[i]].name != t[t[p].children[j]].name
  }

  ghost predicate Shaped(t: Tree) {
    forall p :: 0 <= p < |t| ==> |t[p].children| <= MAX_CHILDREN && (t[p].children != [] ==> t[p].dir)
  }

  lemma {:induction false} FindInFacts(t: Tree, children: seq<nat>, name: Str, dirsOnly: bool)
    ensures FindIn(t, children, name, dirsOnly).Some? ==>
      var c := FindIn(t, children, name, dirsOnly).value;
      c < |t| && c in children && t[c].name == name && (dirsOnly ==> t[c].dir)
    ensures FindIn(t, children, name, dirsOnly) == None ==>
      forall c :: c in children && c < |t| && (dirsOnly ==> t[c].dir) ==> t[c].name != name
  {
    if children != [] { FindInFacts(t, children[1..], name, dirsOnly); }
  }

  lemma ChildFacts(t: Tree, p: nat, name: Str)
    requires TreeInv(t) && p < |t|
    ensures Child(t, p, name).Some? ==>
      var c := Child(t, p, name).value; p < c < |t| && c in t[p].children && t[c].name == name
    ensures Child(t, p, name) == None ==> forall c :: c in t[p].children ==> t[c].name != name
    ensures forall c :: c in t[p].children ==> c < |t| && Child(t, p, t[c].name) == Some(c)
  {
    FindInFacts(t, t[p].children, name, false);
    forall c | c in t[p].children ensures c < |t| && Child(t, p, t[c].name) == Some(c) {
      FindInFacts(t, t[p].children, t[c].name, false);
      var i :| 0 <= i < |t[p].children| && t[p].children[i] == c;
      var d := Child(t, p, t[c].name).value;
      var j :| 0 <= j < |t[p].children| && t[p].children[j] == d;
      assert IsEntry(t, p, i) && IsEntry(t, p, j);
      assert i == j;
    }
  }

  lemma {:induction false} LookupSnoc(t: Tree, cur: nat, q: seq<Str>, x: Str)
    ensures Lookup(t, cur, q + [x]) ==
      if Lookup(t, cur, q).Some? then Child(t, Lookup(t, cur, q).value, x) else None
    decreases |q|
  {
    if q == [] {
      assert (q + [x])[1..] == [];
    } else {
      assert (q + [x])[1..] == q[1..] + [x];
      var c := Child(t, cur, q[0]);
      if c.Some? { LookupSnoc(t, c.value, q[1..], x); }
    }
  }

  lemma {:induction false} LookupInside(t: Tree, cur: nat, q: seq<Str>)
    requires TreeInv(t) && cur < |t|
    ensures Lookup(t, cur, q).Some? ==> Lookup(t, cur, q).value < |t| && (q != [] ==> Lookup(t, cur, q).value > cur)
    decreases |q|
  {
    if q != [] {
      ChildFacts(t, cur, q[0]);
      var c := Child(t, cur, q[0]);
      if c.Some? { LookupInside(t, c.value, q[1..]); }
    }
  }

  /** A node has one path: two component lists that lead to it are equal. */
  lemma {:induction false} OnePath(t: Tree, a: seq<Str>, b: seq<Str>)
    requires TreeInv(t) && Lookup(t, 0, a).Some? && Lookup(t, 0, b) == Lookup(t, 0, a)
    ensures a == b
    decreases |a|
  {
    hide TreeInv, Lookup;
    LookupRoot(t);
    if a == [] || b == [] {
      OnlyRootIsRoot(t, a);
      OnlyRootIsRoot(t, b);
    } else {
      var a', x, b', y := a[..|a| - 1], a[|a| - 1], b[..|b| - 1], b[|b| - 1];
      assert a == a' + [x] && b == b' + [y];
      LookupSnoc(t, 0, a', x);
      LookupSnoc(t, 0, b', y);
      LookupInside(t, 0, a');
      LookupInside(t, 0, b');
      var p, p', c := Lookup(t, 0, a').value, Lookup(t, 0, b').value, Lookup(t, 0, a).value;
      ChildFacts(t, p, x);
      ChildFacts(t, p', y);
      OneParent(t, p, p', c);
      OnePath(t, a', b');
    }
  }

  lemma LookupRoot(t: Tree)
    ensures Lookup(t, 0, []) == Some(0)
  {
  }

  lemma OnlyRootIsRoot(t: Tree, a: seq<Str>)
    requires TreeInv(t)
    ensures Lookup(t, 0, a) == Some(0) <==> a == []
  {
    LookupInside(t, 0, a);
  }

  lemma OneParent(t: Tree, p: nat, p': nat, c: nat)
    requires TreeInv(t) && p < |t| && p' < |t| && c in t[p].children && c in t[p'].children
    ensures p == p'
  {
    var i :| 0 <= i < |t[p].children| && t[p].children[i] == c;
    var j :| 0 <= j < |t[p'].children| && t[p'].children[j] == c;
    assert IsEntry(t, p, i) && IsEntry(t, p', j);
  }

  // ---- Adding a node ----

  /** RamFSCreateNode and RamFSAddChild: a full directory silently drops the link. */
  function AddNode(t: Tree, p: nat, node: Node): (r: Tree)
    requires p < |t|
    ensures |r| == |t| + 1
  {
    if |t[p].children| < MAX_CHILDREN then t[p := t[p].(children := t[p].children + [|t|])] + [node]
    else t + [node]
  }

  ghost predicate CanAdd(t: Tree, p: nat, node: Node) {
    && TreeInv(t) && p < |t| && t[p].dir && |t[p].children| < MAX_CHILDREN
    && Child(t, p, node.name) == None && node.children == []
  }

  lemma AddInv(t: Tree, p: nat, node: Node)
    requires CanAdd(t, p, node)
    ensures TreeInv(AddNode(t, p, node))
  {
    hide OneEntry, NamesDiffer;
    AddOneEntry(t, p, node);
    AddNames(t, p, node);
  }

  lemma AddOneEntry(t: Tree, p: nat, node: Node)
    requires CanAdd(t, p, node)
    ensures OneEntry(AddNode(t, p, node))
  {
    hide NamesDiffer, Shaped;
    var t' := AddNode(t, p, node);
    forall q, i, q', i' | IsEntry(t', q, i) && IsEntry(t', q', i') && t'[q].children[i] == t'[q'].children[i']
      ensures q == q' && i == i'
    {
      assert IsEntry(t, q, i) || (q == p && i == |t[p].children|);
      assert IsEntry(t, q', i') || (q' == p && i' == |t[p].children|);
    }
  }

  lemma AddNames(t: Tree, p: nat, node: Node)
    requires CanAdd(t, p, node)
    ensures NamesDiffer(AddNode(t, p, node))
  {
    ChildFacts(t, p, node.name);
    hide OneEntry, Shaped;
    var t' := AddNode(t, p, node);
    forall q, i, j | IsEntry(t', q, i) && IsEntry(t', q, j) && i < j
      && t'[q].children[i] < |t'| && t'[q].children[j] < |t'|
      ensures t'[t'[q].children[i]].name != t'[t'[q].children[j]].name
    {
      assert IsEntry(t, q, i);
      if q == p && j == |t[p].children| {
        assert t[p].children[i] in t[p].children;
      } else {
        assert IsEntry(t, q, j);
      }
    }
  }

  /** Children other than the new one are found as before. */
  lemma AddChildOf(t: Tree, p: nat, node: Node, n: nat, x: Str)
    requires CanAdd(t, p, node) && n < |t| + 1
    ensures Child(AddNode(t, p, node), n, x) ==
      if n == p && x == node.name then Some(|t|) else if n == |t| then None else Child(t, n, x)
  {
    hide TreeInv;
    var t' := AddNode(t, p, node);
    if n == |t| {
      assert t'[n].children == [];
    } else if n == p {
      FindInAppend(t', t[p].children, |t|, x);
      KidsInside(t, n);
      FindInSame(t, t', t[n].children, x);
      if x == node.name { assert FindIn(t, t[p].children, x, false) == None; }
    } else {
      KidsInside(t, n);
      FindInSame(t, t', t[n].children, x);
    }
  }

  lemma KidsInside(t: Tree, n: nat)
    requires TreeInv(t) && n < |t|
    ensures forall c :: c in t[n].children ==> c < |t|
  {
  }

  lemma {:induction false} FindInAppend(t: Tree, children: seq<nat>, c: nat, x: Str)
    requires c < |t|
    ensures FindIn(t, children + [c], x, false) ==
      if FindIn(t, children, x, false).Some? then FindIn(t, children, x, false)
      else if t[c].name == x then Some(c) else None
  {
    if children == [] {
      assert children + [c] == [c];
    } else {
      assert (children + [c])[1..] == children[1..] + [c];
      FindInAppend(t, children[1..], c, x);
    }
  }

  lemma {:induction false} FindInSame(t: Tree, t': Tree, children: seq<nat>, x: Str)
    requires forall c :: c in children ==> c < |t| && c < |t'| && t'[c].name == t[c].name
    ensures FindIn(t', children, x, false) == FindIn(t, children, x, false)
  {
    if children != [] {
      assert forall c :: c in children[1..] ==> c in children;
      FindInSame(t, t', children[1..], x);
    }
  }

  /** Adding a node extends the map from component lists to nodes by exactly one key. */
  lemma {:induction false} AddLookup(t: Tree, p: nat, node: Node, path: seq<Str>, q: seq<Str>)
    requires CanAdd(t, p, node) && Lookup(t, 0, path) == Some(p)
    ensures Lookup(AddNode(t, p, node), 0, q) == if q == path + [node.name] then Some(|t|) else Lookup(t, 0, q)
    decreases |q|
  {
    hide TreeInv, Lookup, Child;
    var t' := AddNode(t, p, node);
    LookupRoot(t);
    LookupRoot(t');
    if q != [] {
      var q', x := q[..|q| - 1], q[|q| - 1];
      assert q == q' + [x];
      LookupSnoc(t, 0, q', x);
      LookupSnoc(t', 0, q', x);
      AddLookup(t, p, node, path, q');
      AddAlong(t, p, node, path, q', x);
    } else {
      assert q != path + [node.name];
    }
  }

  lemma AddAlong(t: Tree, p: nat, node: Node, path: seq<Str>, q': seq<Str>, x: Str)
    requires CanAdd(t, p, node) && Lookup(t, 0, path) == Some(p)
    requires Lookup(AddNode(t, p, node), 0, q') == if q' == path + [node.name] then Some(|t|) else Lookup(t, 0, q')
    ensures var t' := AddNode(t, p, node);
      (if Lookup(t', 0, q').Some? then Child(t', Lookup(t', 0, q').value, x) else None) ==
      if q' + [x] == path + [node.name] then Some(|t|)
      else if Lookup(t, 0, q').Some? then Child(t, Lookup(t, 0, q').value, x) else None
  {
    hide Lookup, TreeInv;
    var t' := AddNode(t, p, node);
    LookupInside(t, 0, q');
    if q' == path + [node.name] {
      AddChildOf(t, p, node, |t|, x);
      LookupSnoc(t, 0, path, node.name);
      assert Lookup(t, 0, q') == None;
      assert |q' + [x]| != |path + [node.name]|;
    } else if Lookup(t, 0, q').Some? {
      var n := Lookup(t, 0, q').value;
      AddChildOf(t, p, node, n, x);
      assert q' + [x] == path + [node.name] <==> q' == path && x == node.name by { SnocEq(q', x, path, node.name); }
      if n == p { OnePath(t, path, q'); }
    } else {
      assert q' + [x] == path + [node.name] ==> q' == path by { SnocEq(q', x, path, node.name); }
    }
  }

  lemma SnocEq(a: seq<Str>, x: Str, b: seq<Str>, y: Str)
    ensures a + [x] == b + [y] <==> a == b && x == y
  {
    if a + [x] == b + [y] {
      assert (a + [x])[..|a|] == a && (b + [y])[..|b|] == b;
    }
  }

  // ---- Attaching a path ----

  function SetData(t: Tree, n: nat, kind: Kind): Tree
    requires n < |t|
  {
    if kind.File? then t[n := t[n].(data := kind.data)] else t
  }

  /** RamFSAttachPath from node `cur` on: directories found or created for the middle segments, then
      the leaf found or created. An empty leaf (a trailing slash) stops at the directory. */
  function Attach(t: Tree, cur: nat, mids: seq<Str>, leaf: Str, kind: Kind): (r: (Tree, nat))
    requires cur < |t|
    ensures |r.0| >= |t| && r.1 < |r.0|
    decreases |mids|
  {
    if mids != [] then
      var c := FindIn(t, t[cur].children, mids[0], true);
      if c.Some? then Attach(t, c.value, mids[1..], leaf, kind)
      else Attach(AddNode(t, cur, Node(mids[0], true, [], [])), |t|, mids[1..], leaf, kind)
    else if leaf == [] then (t, cur)
    else
      var c := FindIn(t, t[cur].children, leaf, false);
      if c.Some? then (SetData(t, c.value, kind), c.value)
      else (SetData(AddNode(t, cur, Node(leaf, kind.Directory?, [], [])), |t|, kind), |t|)
  }

  /** Nothing is in the way: the existing part of the path is directories, and where the path leaves
      the tree there is a free child slot. */
  ghost predicate Clear(t: Tree, cur: nat, mids: seq<Str>, leaf: Str)
    decreases |mids|
  {
    && cur < |t| && t[cur].dir
    && if mids != [] then
         var c := Child(t, cur, mids[0]);
         if c.Some? then Clear(t, c.value, mids[1..], leaf) else |t[cur].children| < MAX_CHILDREN
       else leaf == [] || Child(t, cur, leaf).Some? || |t[cur].children| < MAX_CHILDREN
  }

  /** The map from component lists to nodes gained exactly the missing prefixes of `full`, as new nodes. */
  ghost predicate PathsGrown(t: Tree, t': Tree, full: seq<Str>) {
    && (forall q :: Lookup(t, 0, q).Some? ==> Lookup(t', 0, q) == Lookup(t, 0, q))
    && (forall q :: Lookup(t, 0, q) == None ==> (Lookup(t', 0, q).Some? <==> q <= full))
    && (forall q :: Lookup(t, 0, q) == None && Lookup(t', 0, q).Some? ==> Lookup(t', 0, q).value >= |t|)
  }

  /** Old nodes keep their name, kind and data, except that a file's data is stored in `r`; new nodes
      are directories, except possibly `r`. */
  ghost predicate NodesKept(t: Tree, t': Tree, r: nat, kind: Kind, leaf: Str) {
    && |t| <= |t'| && r < |t'|
    && (forall n :: 0 <= n < |t| ==> t'[n].name == t[n].name && t'[n].dir == t[n].dir)
    && (forall n :: 0 <= n < |t| && (n != r || kind.Directory? || leaf == []) ==> t'[n].data == t[n].data)
    && (forall n :: |t| <= n < |t'| && n != r ==> t'[n].dir)
    && (kind.File? && leaf != [] ==> t'[r].data == kind.data)
    && (|t| <= r ==> t'[r].dir == (kind.Directory? || leaf == []))
  }

  ghost predicate Attached(t: Tree, t': Tree, full: seq<Str>, r: nat, kind: Kind, leaf: Str) {
    TreeInv(t') && Lookup(t', 0, full) == Some(r) && PathsGrown(t, t', full) && NodesKept(t, t', r, kind, leaf)
  }

  lemma DirFound(t: Tree, cur: nat, x: Str)
    requires TreeInv(t) && cur < |t|
    ensures Child(t, cur, x) == None ==> FindIn(t, t[cur].children, x, true) == None
    ensures Child(t, cur, x).Some? && t[Child(t, cur, x).value].dir ==>
      FindIn(t, t[cur].children, x, true) == Child(t, cur, x)
  {
    ChildFacts(t, cur, x);
    FindInFacts(t, t[cur].children, x, true);
  }

  /** Storing data in a node moves no path. */
  lemma SetDataKeeps(t: Tree, n: nat, kind: Kind)
    requires TreeInv(t) && n < |t|
    ensures TreeInv(SetData(t, n, kind))
    ensures forall q :: Lookup(SetData(t, n, kind), 0, q) == Lookup(t, 0, q)
  {
    hide Lookup;
    var t' := SetData(t, n, kind);
    SetDataInv(t, n, kind);
    forall q ensures Lookup(t', 0, q) == Lookup(t, 0, q) { SetDataLookup(t, n, kind, 0, q); }
  }

  lemma SetDataInv(t: Tree, n: nat, kind: Kind)
    requires TreeInv(t) && n < |t|
    ensures TreeInv(SetData(t, n, kind))
  {
    var t' := SetData(t, n, kind);
    assert forall p :: 0 <= p < |t| ==>
      t'[p].children == t[p].children && t'[p].name == t[p].name && t'[p].dir == t[p].dir;
    assert forall p, i :: IsEntry(t', p, i) <==> IsEntry(t, p, i);
  }

  lemma {:induction false} SetDataLookup(t: Tree, n: nat, kind: Kind, cur: nat, q: seq<Str>)
    requires TreeInv(t) && n < |t| && cur < |t|
    ensures Lookup(SetData(t, n, kind), cur, q) == Lookup(t, cur, q)
    decreases |q|
  {
    hide TreeInv;
    var t' := SetData(t, n, kind);
    if q != [] {
      KidsInside(t, cur);
      FindInSame(t, t', t[cur].children, q[0]);
      var c := Child(t, cur, q[0]);
      if c.Some? { SetDataLookup(t, n, kind, c.value, q[1..]); }
    }
  }

  /** Adding the node for the next component is one step of the attachment. */
  lemma AddStep(t: Tree, cur: nat, node: Node, path: seq<Str>, full: seq<Str>)
    requires CanAdd(t, cur, node) && Lookup(t, 0, path) == Some(cur) && path + [node.name] <= full
    ensures var t1 := AddNode(t, cur, node);
      && TreeInv(t1) && Lookup(t1, 0, path + [node.name]) == Some(|t|)
      && PathsGrown(t, t1, path + [node.name])
  {
    hide TreeInv, Lookup;
    AddInv(t, cur, node);
    var t1 := AddNode(t, cur, node);
    forall q ensures Lookup(t1, 0, q) == if q == path + [node.name] then Some(|t|) else Lookup(t, 0, q) {
      AddLookup(t, cur, node, path, q);
    }
    LookupSnoc(t, 0, path, node.name);
    forall q | q <= path + [node.name] && q != path + [node.name] ensures Lookup(t, 0, q).Some? {
      assert q <= path by { ProperPrefix(q, path, node.name); }
      PrefixFound(t, path, |q|);
      assert path[..|q|] == q;
    }
  }

  lemma ProperPrefix(q: seq<Str>, path: seq<Str>, x: Str)
    requires q <= path + [x] && q != path + [x]
    ensures q <= path
  {
    assert |q| <= |path|;
    assert q == (path + [x])[..|q|] == path[..|q|];
  }

  /** Every prefix of a path that leads somewhere leads somewhere. */
  lemma {:induction false} PrefixFound(t: Tree, path: seq<Str>, k: nat)
    requires Lookup(t, 0, path).Some? && k <= |path|
    ensures Lookup(t, 0, path[..k]).Some?
    decreases |path| - k
  {
    hide Lookup;
    if k == |path| {
      assert path[..k] == path;
    } else {
      PrefixFound(t, path, k + 1);
      assert path[..k + 1] == path[..k] + [path[k]];
      LookupSnoc(t, 0, path[..k], path[k]);
    }
  }

  lemma GrownTrans(t: Tree, t1: Tree, t2: Tree, mid: seq<Str>, full: seq<Str>)
    requires PathsGrown(t, t1, mid) && PathsGrown(t1, t2, full) && mid <= full && |t| <= |t1|
    ensures PathsGrown(t, t2, full)
  {
    hide Lookup;
    forall q | Lookup(t, 0, q) == None ensures Lookup(t2, 0, q).Some? <==> q <= full {
      if Lookup(t1, 0, q).Some? {
        assert q <= mid;
        assert q <= full by { PrefixTrans(q, mid, full); }
      }
    }
  }

  lemma PrefixTrans(a: seq<Str>, b: seq<Str>, c: seq<Str>)
    requires a <= b && b <= c
    ensures a <= c
  {
    assert a == b[..|a|] == c[..|b|][..|a|] == c[..|a|];
  }

  /** RamFSAttachPath refines insertion into the map from component lists to nodes. */
  lemma {:induction false} AttachEffect(t: Tree, path: seq<Str>, cur: nat, mids: seq<Str>, leaf: Str, kind: Kind)
    requires TreeInv(t) && Lookup(t, 0, path) == Some(cur) && Clear(t, cur, mids, leaf)
    ensures var (t', r) := Attach(t, cur, mids, leaf, kind);
      Attached(t, t', path + mids + LeafSeq(leaf), r, kind, leaf)
    decreases |mids|
  {
    hide TreeInv, Lookup, PathsGrown, NodesKept;
    if mids == [] {
      assert path + mids == path;
      AttachLeaf(t, path, cur, leaf, kind);
    } else {
      DirFound(t, cur, mids[0]);
      LookupSnoc(t, 0, path, mids[0]);
      assert path + mids == path + [mids[0]] + mids[1..];
      var c := Child(t, cur, mids[0]);
      if c.Some? {
        ClearDir(t, c.value, mids[1..], leaf);
        AttachEffect(t, path + [mids[0]], c.value, mids[1..], leaf, kind);
      } else {
        AttachMid(t, path, cur, mids, leaf, kind);
      }
    }
  }

  lemma ClearDir(t: Tree, cur: nat, mids: seq<Str>, leaf: Str)
    requires Clear(t, cur, mids, leaf)
    ensures cur < |t| && t[cur].dir
  {
  }

  lemma {:induction false} AttachMid(t: Tree, path: seq<Str>, cur: nat, mids: seq<Str>, leaf: Str, kind: Kind)
    requires TreeInv(t) && Lookup(t, 0, path) == Some(cur) && Clear(t, cur, mids, leaf)
    requires mids != [] && Child(t, cur, mids[0]) == None
    ensures var (t', r) := Attach(t, cur, mids, leaf, kind);
      Attached(t, t', path + mids + LeafSeq(leaf), r, kind, leaf)
    decreases |mids|, 0
  {
    hide TreeInv, Lookup, PathsGrown, NodesKept;
    DirFound(t, cur, mids[0]);
    var node := Node(mids[0], true, [], []);
    var t1, p1, full := AddNode(t, cur, node), path + [mids[0]], path + mids + LeafSeq(leaf);
    assert full == p1 + mids[1..] + LeafSeq(leaf);
    AddStep(t, cur, node, path, full);
    FreshClear(t1, |t|, mids[1..], leaf);
    AttachFresh(t1, p1, |t|, mids[1..], leaf, kind);
    var (t', r) := Attach(t1, |t|, mids[1..], leaf, kind);
    assert p1 <= full;
    GrownTrans(t, t1, t', p1, full);
    if r == |t| {
      NewDirIsElsewhere(t1, t', p1, full, r);
      assert |full| == |p1| + |mids[1..]| + |LeafSeq(leaf)|;
    }
    NodesTrans(t, cur, node, t', r, kind, leaf);
  }

  lemma NewDirIsElsewhere(t1: Tree, t': Tree, p1: seq<Str>, full: seq<Str>, r: nat)
    requires TreeInv(t') && Lookup(t1, 0, p1) == Some(r) && PathsGrown(t1, t', full) && Lookup(t', 0, full) == Some(r)
    ensures full == p1
  {
    OnePath(t', full, p1);
  }

  /** The induction for `AttachMid`, on a tree with one more node and a shorter path. */
  lemma {:induction false} AttachFresh(t: Tree, path: seq<Str>, cur: nat, mids: seq<Str>, leaf: Str, kind: Kind)
    requires TreeInv(t) && Lookup(t, 0, path) == Some(cur) && Clear(t, cur, mids, leaf)
    requires cur < |t| && t[cur].children == []
    ensures var (t', r) := Attach(t, cur, mids, leaf, kind);
      Attached(t, t', path + mids + LeafSeq(leaf), r, kind, leaf)
    decreases |mids|, 1
  {
    hide TreeInv, Lookup, PathsGrown, NodesKept;
    if mids == [] {
      assert path + mids == path;
      AttachLeaf(t, path, cur, leaf, kind);
    } else {
      AttachMid(t, path, cur, mids, leaf, kind);
    }
  }

  lemma FreshClear(t: Tree, n: nat, mids: seq<Str>, leaf: Str)
    requires n < |t| && t[n].children == [] && t[n].dir
    ensures Clear(t, n, mids, leaf)
  {
  }

  lemma NodesTrans(t: Tree, cur: nat, node: Node, t': Tree, r: nat, kind: Kind, leaf: Str)
    requires cur < |t| && node.dir
    requires NodesKept(AddNode(t, cur, node), t', r, kind, leaf) && (r == |t| ==> leaf == [] || kind.Directory?)
    ensures NodesKept(t, t', r, kind, leaf)
  {
    var t1 := AddNode(t, cur, node);
    assert forall n :: 0 <= n < |t| ==> t1[n].name == t[n].name && t1[n].dir == t[n].dir && t1[n].data == t[n].data;
    assert t1[|t|] == node;
  }

  lemma AttachLeaf(t: Tree, path: seq<Str>, cur: nat, leaf: Str, kind: Kind)
    requires TreeInv(t) && Lookup(t, 0, path) == Some(cur) && Clear(t, cur, [], leaf)
    ensures var (t', r) := Attach(t, cur, [], leaf, kind);
      Attached(t, t', path + LeafSeq(leaf), r, kind, leaf)
  {
    hide TreeInv, Lookup;
    if leaf == [] {
      assert path + LeafSeq(leaf) == path;
      PrefixesKnown(t, path);
    } else {
      LookupSnoc(t, 0, path, leaf);
      var c := Child(t, cur, leaf);
      if c.Some? {
        PrefixesKnown(t, path + [leaf]);
        SetDataKeeps(t, c.value, kind);
      } else {
        var node := Node(leaf, kind.Directory?, [], []);
        AddStep(t, cur, node, path, path + [leaf]);
        SetDataKeeps(AddNode(t, cur, node), |t|, kind);
      }
    }
  }

  lemma PrefixesKnown(t: Tree, path: seq<Str>)
    requires Lookup(t, 0, path).Some?
    ensures forall q :: Lookup(t, 0, q) == None ==> !(q <= path)
  {
    hide Lookup;
    forall q | Lookup(t, 0, q) == None ensures !(q <= path) {
      if q <= path {
        assert path[..|q|] == q;
        PrefixFound(t, path, |q|);
      }
    }
  }

  // ---- Exactly when attaching works ----

  /** Attaching below a node without children touches no other old node. */
  lemma {:induction false} AttachLocal(t: Tree, n: nat, mids: seq<Str>, leaf: Str, kind: Kind)
    requires n < |t| && t[n].children == []
    ensures var (t', r) := Attach(t, n, mids, leaf, kind);
      && |t| <= |t'| && (r == n || r >= |t|) && t'[n].name == t[n].name
      && forall m :: 0 <= m < |t| && m != n ==> t'[m] == t[m]
    decreases |mids|
  {
    if mids != [] {
      var t1 := AddNode(t, n, Node(mids[0], true, [], []));
      AttachLocal(t1, |t|, mids[1..], leaf, kind);
    }
  }

  /** Old nodes that are all as they were are found as they were. */
  lemma {:induction false} OldLookup(t: Tree, t': Tree, cur: nat, q: seq<Str>)
    requires TreeInv(t) && cur < |t| <= |t'| && forall m :: 0 <= m < |t| ==> t'[m] == t[m]
    ensures Lookup(t', cur, q) == Lookup(t, cur, q)
    decreases |q|
  {
    hide TreeInv;
    if q != [] {
      KidsInside(t, cur);
      FindInSame(t, t', t[cur].children, q[0]);
      var c := Child(t, cur, q[0]);
      if c.Some? { OldLookup(t, t', c.value, q[1..]); }
    }
  }

  /** A node that no directory links to is not found. */
  lemma UnlinkedLost(t: Tree, t': Tree, q: seq<Str>, r: nat)
    requires TreeInv(t) && |t| <= |t'| && (forall m :: 0 <= m < |t| ==> t'[m] == t[m]) && r >= |t|
    ensures Lookup(t', 0, q) != Some(r)
  {
    hide TreeInv, Lookup;
    NonEmpty(t);
    OldLookup(t, t', 0, q);
    LookupInside(t, 0, q);
  }

  lemma NonEmpty(t: Tree)
    requires TreeInv(t)
    ensures t != []
  {
  }

  /** A full directory drops the new node, and the path does not lead to it. */
  lemma FullFails(t: Tree, cur: nat, mids: seq<Str>, leaf: Str, kind: Kind, full: seq<Str>)
    requires TreeInv(t) && cur < |t| && |t[cur].children| >= MAX_CHILDREN
    requires if mids == [] then leaf != [] && FindIn(t, t[cur].children, leaf, false) == None
             else FindIn(t, t[cur].children, mids[0], true) == None
    ensures var (t', r) := Attach(t, cur, mids, leaf, kind); Lookup(t', 0, full) != Some(r)
  {
    hide TreeInv, Lookup, FindIn;
    var (t', r) := Attach(t, cur, mids, leaf, kind);
    if mids != [] { AttachLocal(AddNode(t, cur, Node(mids[0], true, [], [])), |t|, mids[1..], leaf, kind); }
    UnlinkedLost(t, t', full, r);
  }

  /** A file in the way gets a directory of the same name beside it. */
  lemma FileInTheWayFails(t: Tree, cur: nat, mids: seq<Str>, leaf: Str, kind: Kind)
    requires TreeInv(t) && cur < |t| && mids != [] && |t[cur].children| < MAX_CHILDREN
    requires Child(t, cur, mids[0]).Some? && FindIn(t, t[cur].children, mids[0], true) == None
    ensures !NamesDiffer(Attach(t, cur, mids, leaf, kind).0)
  {
    ChildFacts(t, cur, mids[0]);
    hide TreeInv, Child, FindIn;
    var c, n := Child(t, cur, mids[0]).value, |t[cur].children|;
    var t1 := AddNode(t, cur, Node(mids[0], true, [], []));
    AttachLocal(t1, |t|, mids[1..], leaf, kind);
    var t' := Attach(t, cur, mids, leaf, kind).0;
    var i :| 0 <= i < n && t[cur].children[i] == c;
    assert IsEntry(t', cur, i) && IsEntry(t', cur, n);
    assert t'[cur].children[i] == c && t'[cur].children[n] == |t|;
    assert t'[c].name == mids[0] && t'[|t|].name == mids[0];
  }

  /** A path that is not clear is not attached. */
  lemma {:induction false} AttachNeedsClear(t: Tree, path: seq<Str>, cur: nat, mids: seq<Str>, leaf: Str, kind: Kind)
    requires TreeInv(t) && Lookup(t, 0, path) == Some(cur) && cur < |t| && t[cur].dir && !Clear(t, cur, mids, leaf)
    ensures var (t', r) := Attach(t, cur, mids, leaf, kind);
      !(NamesDiffer(t') && Lookup(t', 0, path + mids + LeafSeq(leaf)) == Some(r))
    decreases |mids|
  {
    hide TreeInv, Lookup, NamesDiffer;
    var full := path + mids + LeafSeq(leaf);
    if mids == [] {
      FullFails(t, cur, mids, leaf, kind, full);
    } else {
      var x := mids[0];
      DirFound(t, cur, x);
      FindInFacts(t, t[cur].children, x, true);
      var c := Child(t, cur, x);
      ChildFacts(t, cur, x);
      if c == None {
        FullFails(t, cur, mids, leaf, kind, full);
      } else if t[c.value].dir {
        LookupSnoc(t, 0, path, x);
        assert path + [x] + mids[1..] == path + mids;
        AttachNeedsClear(t, path + [x], c.value, mids[1..], leaf, kind);
      } else {
        FileHidden(t, cur, x);
        if |t[cur].children| < MAX_CHILDREN {
          FileInTheWayFails(t, cur, mids, leaf, kind);
        } else {
          FullFails(t, cur, mids, leaf, kind, full);
        }
      }
    }
  }

  lemma FileHidden(t: Tree, cur: nat, x: Str)
    requires TreeInv(t) && cur < |t| && Child(t, cur, x).Some? && !t[Child(t, cur, x).value].dir
    ensures FindIn(t, t[cur].children, x, true) == None
  {
    FindInFacts(t, t[cur].children, x, true);
    ChildFacts(t, cur, x);
  }

  /** RamFSAttachPath inserts the path as promised if and only if nothing is in the way. */
  lemma AttachIff(t: Tree, mids: seq<Str>, leaf: Str, kind: Kind)
    requires TreeInv(t)
    ensures var (t', r) := Attach(t, 0, mids, leaf, kind);
      Attached(t, t', mids + LeafSeq(leaf), r, kind, leaf) <==> Clear(t, 0, mids, leaf)
  {
    hide Lookup, PathsGrown, NodesKept, Clear;
    LookupRoot(t);
    assert [] + mids + LeafSeq(leaf) == mids + LeafSeq(leaf);
    if Clear(t, 0, mids, leaf) {
      AttachEffect(t, [], 0, mids, leaf, kind);
    } else {
      AttachNeedsClear(t, [], 0, mids, leaf, kind);
    }
  }
}
