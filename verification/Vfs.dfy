/** The two path walkers over the in-memory tree, and reading a whole file through the VFS. */
module Vfs {
  import opened Common
  import opened RamFs

  const COMP_MAX: nat := 255

  lemma SegStep(path: Str, st: nat, i: nat)
    requires st <= i < |path| && path[i] == SLASH && SLASH !in path[st..i]
    ensures Mids(path[st..]) == (if st < i then [path[st..i]] else []) + Mids(path[i + 1..])
    ensures Leaf(path[st..]) == Leaf(path[i + 1..])
    ensures Comps(path[st..]) == (if st < i then [path[st..i]] else []) + Comps(path[i + 1..])
  {
    hide FirstSlash, Mids, Leaf, Comps;
    var s, first := path[st..], if st < i then [path[st..i]] else [];
    FirstAt(path, st, i);
    assert s[..i - st] == path[st..i] && s[i - st + 1..] == path[i + 1..];
    PartsStep(s, first, path[i + 1..]);
    CompsStep(s);
  }

  lemma FirstAt(path: Str, st: nat, i: nat)
    requires st <= i < |path| && path[i] == SLASH && SLASH !in path[st..i]
    ensures FirstSlash(path[st..]) == i - st
  {
    var s := path[st..];
    assert forall k :: 0 <= k < i - st ==> s[k] == path[st..i][k];
    SlashAt(s, i - st);
  }

  lemma SegEnd(path: Str, st: nat)
    requires st <= |path| && SLASH !in path[st..]
    ensures Mids(path[st..]) == [] && Leaf(path[st..]) == path[st..]
    ensures Comps(path[st..]) == if st == |path| then [] else [path[st..]]
  {
    SlashAt(path[st..], |path| - st);
  }

  lemma NoSlashGrows(path: Str, st: nat, i: nat)
    requires st <= i < |path| && SLASH !in path[st..i] && path[i] != SLASH
    ensures SLASH !in path[st..i + 1]
  {
    assert path[st..i + 1] == path[st..i] + [path[i]];
  }

  /** What RamFSLookup answers. */
  function LookupPath(t: Tree, path: Str): Option<nat> {
    if path == [] || path[0] != SLASH then None else Lookup(t, 0, Comps(path[1..]))
  }

  function Cut(x: Str): Str { if |x| <= COMP_MAX then x else x[..COMP_MAX] }

  /** One RamVfsLookup per component: files have no entries, and components are cut to the buffer. */
  function WalkSpec(t: Tree, cur: nat, q: seq<Str>): Option<nat>
    decreases |q|
  {
    if q == [] then Some(cur)
    else if cur >= |t| || !t[cur].dir then None
    else
      var c := Child(t, cur, Cut(q[0]));
      if c == None then None else WalkSpec(t, c.value, q[1..])
  }

  /** What VfsResolve answers when the tree is mounted at "/" alone. */
  function ResolveSpec(t: Tree, path: Str): Option<nat> { WalkSpec(t, 0, Comps(path)) }

  ghost predicate ShortComps(q: seq<Str>) { forall i :: 0 <= i < |q| ==> |q[i]| <= 255 }

  lemma {:induction false} WalkAgrees(t: Tree, cur: nat, q: seq<Str>)
    requires TreeInv(t) && cur < |t| && ShortComps(q)
    ensures WalkSpec(t, cur, q) == Lookup(t, cur, q)
    decreases |q|
  {
    if q != [] {
      ChildFacts(t, cur, q[0]);
      var c := Child(t, cur, q[0]);
      if t[cur].dir && c.Some? { WalkAgrees(t, c.value, q[1..]); }
    }
  }

  lemma LeadingSlash(path: Str)
    requires path != [] && path[0] == SLASH
    ensures Comps(path) == Comps(path[1..])
  {
    assert path[0..0] == [] && path[0..] == path;
    SegStep(path, 0, 0);
  }

  /** The two walkers agree on every absolute path: VfsResolve reaches a node exactly when RamFSLookup
      does, and it is the same one. */
  lemma WalkersAgree(t: Tree, path: Str)
    requires TreeInv(t) && ShortComps(Comps(path))
    ensures path != [] && path[0] == SLASH ==> ResolveSpec(t, path) == LookupPath(t, path)
    ensures !(path != [] && path[0] == SLASH) ==> LookupPath(t, path) == None
                                                  && ResolveSpec(t, path) == LookupPath(t, [SLASH] + path)
  {
    WalkAgrees(t, 0, Comps(path));
    if path != [] && path[0] == SLASH {
      LeadingSlash(path);
    } else {
      assert ([SLASH] + path)[1..] == path;
    }
  }

  /** What VfsReadAll stores: the first `len` bytes of a file. */
  function ReadAllSpec(t: Tree, path: Str, len: int): Option<seq<Byte>> {
    var n := ResolveSpec(t, path);
    if n == None || n.value >= |t| then None
    else if len <= 0 then Some([])
    else if t[n.value].dir then None
    else Some(if len <= |t[n.value].data| then t[n.value].data[..len] else t[n.value].data)
  }

  /** The mount a path belongs to: the longest mount path that is a prefix of it, the first of equals;
      empty mount paths do not count. */
  ghost predicate BestMount(mounts: seq<Str>, path: Str, i: nat) {
    && i < |mounts| && mounts[i] != [] && mounts[i] <= path
    && (forall j :: 0 <= j < |mounts| && mounts[j] <= path ==> |mounts[j]| <= |mounts[i]|)
    && (forall j :: 0 <= j < i && mounts[j] <= path ==> |mounts[j]| < |mounts[i]|)
  }

  method FindMount(mounts: seq<Str>, path: Str) returns (best: Option<nat>)
    ensures best.Some? ==> BestMount(mounts, path, best.value)
    ensures best == None <==> forall j :: 0 <= j < |mounts| && mounts[j] <= path ==> mounts[j] == []
  {
    best := None;
    var bestLen := -1;
    var i := 0;
    while i < |mounts|
      invariant i <= |mounts| && (best == None ==> bestLen == -1)
      invariant best.Some? ==> best.value < i && mounts[best.value] != [] && mounts[best.value] <= path
                               && bestLen == |mounts[best.value]|
      invariant forall j :: 0 <= j < i && mounts[j] <= path && mounts[j] != [] ==> |mounts[j]| <= bestLen
      invariant best.Some? ==> forall j :: 0 <= j < best.value && mounts[j] <= path ==> |mounts[j]| < bestLen
    {
      if mounts[i] != [] && mounts[i] <= path && |mounts[i]| > bestLen {
        best, bestLen := Some(i), |mounts[i]|;
      }
      i := i + 1;
    }
  }

  class FileSystem {
    var nodes: Tree

    /** RamFSEnsureRoot: a root directory named "/". */
    constructor ()
      ensures TreeInv(nodes) && nodes == [Node([SLASH], true, [], [])]
    {
      nodes := [Node([SLASH], true, [], [])];
    }

    method FindChild(cur: nat, name: Str, dirsOnly: bool) returns (r: Option<nat>)
      requires cur < |nodes|
      ensures r == FindIn(nodes, nodes[cur].children, name, dirsOnly)
    {
      var kids := nodes[cur].children;
      var i := 0;
      assert kids[0..] == kids;
      while i < |kids|
        invariant i <= |kids|
        invariant FindIn(nodes, kids[i..], name, dirsOnly) == FindIn(nodes, kids, name, dirsOnly)
      {
        assert kids[i..][1..] == kids[i + 1..];
        var c := kids[i];
        if c < |nodes| && nodes[c].name == name && (dirsOnly ==> nodes[c].dir) {
          return Some(c);
        }
        i := i + 1;
      }
      return None;
    }

    method RamFSAddNode(cur: nat, node: Node) returns (n: nat)
      requires cur < |nodes|
      modifies this
      ensures nodes == AddNode(old(nodes), cur, node) && n == |old(nodes)|
    {
      n := |nodes|;
      if |nodes[cur].children| < MAX_CHILDREN {
        nodes := nodes[cur := nodes[cur].(children := nodes[cur].children + [n])];
      }
      nodes := nodes + [node];
    }

    /** The cursor loop over the path, against the recursion over its segments. */
    method RamFSAttachPath(path: Str, kind: Kind) returns (r: Option<nat>)
      requires nodes != []
      modifies this
      ensures path == [] || path[0] != SLASH ==> r == None && nodes == old(nodes)
      ensures path != [] && path[0] == SLASH ==>
        r.Some? && (nodes, r.value) == Attach(old(nodes), 0, Mids(path[1..]), Leaf(path[1..]), kind)
    {
      hide AddNode, FindIn, Mids, Leaf, Comps, Attach;
      if path == [] || path[0] != SLASH {
        return None;
      }
      var i: nat, st: nat, cur: nat := 1, 1, 0;
      assert path[1..1] == [];
      while i < |path|
        invariant 1 <= st <= i <= |path| && SLASH !in path[st..i] && cur < |nodes|
        invariant Attach(nodes, cur, Mids(path[st..]), Leaf(path[st..]), kind) ==
                  Attach(old(nodes), 0, Mids(path[1..]), Leaf(path[1..]), kind)
      {
        if path[i] == SLASH {
          AttachSegment(nodes, cur, path, st, i, kind);
          if st < i {
            var next := FindChild(cur, path[st..i], true);
            if next == None {
              var n := RamFSAddNode(cur, Node(path[st..i], true, [], []));
              cur := n;
            } else {
              cur := next.value;
            }
          }
          st := i + 1;
          assert path[st..i + 1] == [];
        } else {
          NoSlashGrows(path, st, i);
        }
        i := i + 1;
      }
      assert path[st..] == path[st..i];
      AttachLast(nodes, cur, path, st, kind);
      if st == |path| {
        return Some(cur);
      }
      var leaf := FindChild(cur, path[st..], false);
      var n: nat;
      if leaf == None {
        n := RamFSAddNode(cur, Node(path[st..], kind.Directory?, [], []));
      } else {
        n := leaf.value;
      }
      if kind.File? {
        nodes := nodes[n := nodes[n].(data := kind.data)];
      }
      return Some(n);
    }

    method RamFSLookup(path: Str) returns (r: Option<nat>)
      requires nodes != []
      ensures r == LookupPath(nodes, path)
    {
      hide FindIn, Comps, Lookup;
      if path == [] || path[0] != SLASH {
        return None;
      }
      var i: nat, st: nat, cur: nat := 1, 1, 0;
      assert path[1..1] == [];
      while i < |path|
        invariant 1 <= st <= i <= |path| && SLASH !in path[st..i] && cur < |nodes|
        invariant Lookup(nodes, cur, Comps(path[st..])) == LookupPath(nodes, path)
      {
        if path[i] == SLASH {
          LookupSegment(nodes, cur, path, st, i);
          if st < i {
            var next := FindChild(cur, path[st..i], false);
            if next == None {
              return None;
            }
            cur := next.value;
          }
          st := i + 1;
          assert path[st..i + 1] == [];
        } else {
          NoSlashGrows(path, st, i);
        }
        i := i + 1;
      }
      assert path[st..] == path[st..i];
      LookupLast(nodes, cur, path, st);
      if st == |path| {
        return Some(cur);
      }
      r := FindChild(cur, path[st..], false);
    }

    /** The component walker: skip separators, take one component, look it up. */
    method Walk(path: Str) returns (r: Option<nat>)
      requires nodes != []
      ensures r == ResolveSpec(nodes, path)
    {
      hide FindIn, Comps;
      var i := SkipSep(path, 0);
      assert path[0..] == path;
      var cur: nat := 0;
      while i < |path|
        invariant i <= |path| && cur < |nodes| && (i < |path| ==> path[i] != SLASH)
        invariant WalkSpec(nodes, cur, Comps(path[i..])) == ResolveSpec(nodes, path)
        decreases |path| - i
      {
        var j := EndOfComp(path, i);
        var comp := Cut(path[i..j]);
        CompStep(path, i, j);
        var k := SkipSep(path, j);
        if !nodes[cur].dir {
          return None;
        }
        var next := FindChild(cur, comp, false);
        if next == None {
          return None;
        }
        cur, i := next.value, k;
      }
      assert path[i..] == [];
      EmptyComps();
      return Some(cur);
    }

    method SkipSep(path: Str, from: nat) returns (i: nat)
      requires from <= |path|
      ensures from <= i <= |path| && (i < |path| ==> path[i] != SLASH)
      ensures Comps(path[i..]) == Comps(path[from..])
    {
      hide Comps;
      i := from;
      while i < |path| && path[i] == SLASH
        invariant from <= i <= |path| && Comps(path[i..]) == Comps(path[from..])
      {
        assert path[i..i] == [];
        SegStep(path, i, i);
        assert [] + Comps(path[i + 1..]) == Comps(path[i + 1..]);
        i := i + 1;
      }
    }

    method EndOfComp(path: Str, from: nat) returns (j: nat)
      requires from < |path| && path[from] != SLASH
      ensures from < j <= |path| && SLASH !in path[from..j] && (j < |path| ==> path[j] == SLASH)
    {
      j := from;
      assert path[from..from] == [];
      while j < |path| && path[j] != SLASH
        invariant from <= j <= |path| && SLASH !in path[from..j] && (j == from ==> path[j] != SLASH)
      {
        NoSlashGrows(path, from, j);
        j := j + 1;
      }
    }

    /** VfsResolve with the tree mounted at "/": a path that starts with the mount point is walked from
        the mount's root by its tail, any other path from the global root, which is the same node. */
    method VfsResolve(path: Str) returns (r: Option<nat>)
      requires nodes != []
      ensures r == ResolveSpec(nodes, path)
    {
      hide Comps;
      if path == [SLASH] {
        RootComps();
        return Some(0);
      }
      var mount := FindMount([[SLASH]], path);
      if mount == None {
        r := Walk(path);
        return;
      }
      assert [[SLASH]][0] <= path;
      LeadingSlash(path);
      var i := SkipSep(path, 1);
      if i == |path| {
        assert path[i..] == [];
        EmptyComps();
        return Some(0);
      }
      r := Walk(path[i..]);
    }

    /** RamFSRead: copies from the offset, cut at the end of the file. */
    method RamFSRead(n: nat, offset: nat, len: nat) returns (data: seq<Byte>)
      requires n < |nodes|
      ensures nodes[n].dir || offset >= |nodes[n].data| ==> data == []
      ensures !nodes[n].dir && offset < |nodes[n].data| ==>
        data == nodes[n].data[offset..if offset + len <= |nodes[n].data| then offset + len else |nodes[n].data|]
    {
      data := [];
      if nodes[n].dir || offset >= |nodes[n].data| {
        return;
      }
      var avail := |nodes[n].data| - offset;
      var take := if len > avail then avail else len;
      var i := 0;
      while i < take
        invariant i <= take && data == nodes[n].data[offset..offset + i]
      {
        data := data + [nodes[n].data[offset + i]];
        i := i + 1;
      }
    }

    /** VfsReadAll: open, read until the buffer is full or a read gives nothing, close. A directory
        opens without a private cursor, so reading it fails. */
    method VfsReadAll(path: Str, len: int) returns (r: Option<seq<Byte>>)
      requires nodes != []
      ensures r == ReadAllSpec(nodes, path, len)
    {
      var n := VfsResolve(path);
      if n == None || n.value >= |nodes| {
        return None;
      }
      var buf: seq<Byte>, offset: nat := [], 0;
      while |buf| < len
        invariant offset == |buf| && (len <= 0 ==> buf == [])
        invariant len > 0 && !nodes[n.value].dir ==>
          |buf| <= len && |buf| <= |nodes[n.value].data| && buf == nodes[n.value].data[..|buf|]
        invariant nodes[n.value].dir ==> buf == []
        decreases len - |buf|
      {
        if nodes[n.value].dir {
          return None;
        }
        var got := RamFSRead(n.value, offset, len - |buf|);
        if got == [] {
          assert nodes[n.value].data[..|buf|] == nodes[n.value].data;
          break;
        }
        offset := offset + |got|;
        buf := buf + got;
      }
      return Some(buf);
    }
  }

  /** A slash ends the segment [st, i): the directory for it is found or created. */
  lemma AttachSegment(t: Tree, cur: nat, path: Str, st: nat, i: nat, kind: Kind)
    requires cur < |t| && st <= i < |path| && path[i] == SLASH && SLASH !in path[st..i]
    ensures var c := FindIn(t, t[cur].children, path[st..i], true);
      Attach(t, cur, Mids(path[st..]), Leaf(path[st..]), kind) ==
      if st == i then Attach(t, cur, Mids(path[i + 1..]), Leaf(path[i + 1..]), kind)
      else if c.Some? then Attach(t, c.value, Mids(path[i + 1..]), Leaf(path[i + 1..]), kind)
      else Attach(AddNode(t, cur, Node(path[st..i], true, [], [])), |t|, Mids(path[i + 1..]), Leaf(path[i + 1..]), kind)
  {
    hide Mids, Leaf, Comps, FindIn, AddNode;
    SegStep(path, st, i);
    var rest := Mids(path[i + 1..]);
    if st < i {
      assert ([path[st..i]] + rest)[1..] == rest;
    } else {
      assert [] + rest == rest;
    }
  }

  lemma AttachLast(t: Tree, cur: nat, path: Str, st: nat, kind: Kind)
    requires cur < |t| && st <= |path| && SLASH !in path[st..]
    ensures var c := FindIn(t, t[cur].children, path[st..], false);
      Attach(t, cur, Mids(path[st..]), Leaf(path[st..]), kind) ==
      if st == |path| then (t, cur)
      else if c.Some? then (SetData(t, c.value, kind), c.value)
      else (SetData(AddNode(t, cur, Node(path[st..], kind.Directory?, [], [])), |t|, kind), |t|)
  {
    hide Mids, Leaf, Comps, FindIn, AddNode;
    SegEnd(path, st);
  }

  lemma LookupSegment(t: Tree, cur: nat, path: Str, st: nat, i: nat)
    requires cur < |t| && st <= i < |path| && path[i] == SLASH && SLASH !in path[st..i]
    ensures var c := FindIn(t, t[cur].children, path[st..i], false);
      Lookup(t, cur, Comps(path[st..])) ==
      if st == i then Lookup(t, cur, Comps(path[i + 1..]))
      else if c.Some? then Lookup(t, c.value, Comps(path[i + 1..]))
      else None
  {
    hide Comps, FindIn;
    SegStep(path, st, i);
    var rest := Comps(path[i + 1..]);
    if st < i {
      assert ([path[st..i]] + rest)[1..] == rest;
    } else {
      assert [] + rest == rest;
    }
  }

  lemma LookupLast(t: Tree, cur: nat, path: Str, st: nat)
    requires cur < |t| && st <= |path| && SLASH !in path[st..]
    ensures Lookup(t, cur, Comps(path[st..])) ==
      if st == |path| then Some(cur) else FindIn(t, t[cur].children, path[st..], false)
  {
    hide Comps, FindIn;
    SegEnd(path, st);
    var c := FindIn(t, t[cur].children, path[st..], false);
    if st < |path| {
      assert [path[st..]][1..] == [];
      if c.Some? { assert Lookup(t, c.value, []) == c; }
    }
  }

  lemma CompStep(path: Str, i: nat, j: nat)
    requires i < j <= |path| && SLASH !in path[i..j] && (j < |path| ==> path[j] == SLASH)
    ensures Comps(path[i..]) == [path[i..j]] + Comps(path[j..])
    ensures ([path[i..j]] + Comps(path[j..]))[0] == path[i..j]
    ensures ([path[i..j]] + Comps(path[j..]))[1..] == Comps(path[j..])
  {
    hide Comps, Mids, Leaf;
    if j < |path| {
      SegStep(path, i, j);
      assert path[j..j] == [];
      SegStep(path, j, j);
    } else {
      assert path[i..j] == path[i..] && path[j..] == [];
      SegEnd(path, i);
      SegEnd(path, j);
    }
  }

  lemma EmptyComps()
    ensures Comps([]) == []
  {
  }

  lemma RootComps()
    ensures Comps([SLASH]) == []
  {
    LeadingSlash([SLASH]);
    EmptyComps();
  }
}
