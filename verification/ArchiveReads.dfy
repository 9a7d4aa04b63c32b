/** End to end: what mounting an archive makes readable through the VFS. */
module ArchiveReads {
  import opened Common
  import opened RamFs
  import opened Vfs
  import opened Cpio

  function PathOf(es: seq<Entry>, i: nat): seq<Str>
    requires i < |es|
  {
    Comps(es[i].path)
  }

  predicate IsFile(es: seq<Entry>, i: nat)
    requires i < |es|
  {
    es[i].kind != Dir
  }

  /** The names the entries put directly below a directory. */
  function NamesBelow(es: seq<Entry>, q: seq<Str>): set<Str> {
    set i | 0 <= i < |es| && q <= PathOf(es, i) && |q| < |PathOf(es, i)| :: PathOf(es, i)[|q|]
  }

  /** What a mountable archive promises: no file's path is a prefix of another path, no file's name
      ends in a slash, and no directory needs more than 64 entries. */
  ghost predicate Mountable(es: seq<Entry>) {
    && GoodEntries(es)
    && (forall i :: 0 <= i < |es| && IsFile(es, i) ==> Leaf(es[i].path) != [])
    && (forall i, j :: 0 <= i < |es| && 0 <= j < |es| && i != j && IsFile(es, i) ==> !(PathOf(es, i) <= PathOf(es, j)))
    && (forall q :: |NamesBelow(es, q)| <= 64)
  }

  /** A path that leads somewhere after the first k entries. */
  ghost predicate Known(es: seq<Entry>, k: nat, q: seq<Str>)
    requires k <= |es|
  {
    q == [] || exists i :: 0 <= i < k && q <= PathOf(es, i)
  }

  /** The tree holds exactly the first k entries: their paths and the directories above them, and every
      file is a leaf with its archived bytes. */
  ghost predicate Built(t: Tree, es: seq<Entry>, k: nat)
    requires k <= |es|
  {
    TreeInv(t) && PathsBuilt(t, es, k) && FilesBuilt(t, es, k) && DirsBuilt(t, es, k)
  }

  ghost predicate PathsBuilt(t: Tree, es: seq<Entry>, k: nat)
    requires k <= |es|
  {
    forall q :: Lookup(t, 0, q).Some? <==> Known(es, k, q)
  }

  ghost predicate FilesBuilt(t: Tree, es: seq<Entry>, k: nat)
    requires k <= |es|
  {
    forall i :: 0 <= i < k && IsFile(es, i) ==> HoldsFile(t, PathOf(es, i), es[i].data)
  }

  ghost predicate HoldsFile(t: Tree, q: seq<Str>, data: Str) {
    var n := Lookup(t, 0, q);
    n.Some? && n.value < |t| && !t[n.value].dir && t[n.value].data == data
  }

  ghost predicate DirsBuilt(t: Tree, es: seq<Entry>, k: nat)
    requires k <= |es|
  {
    forall q :: Lookup(t, 0, q).Some? ==> DirUnlessFile(t, es, k, q, Lookup(t, 0, q).value)
  }

  ghost predicate DirUnlessFile(t: Tree, es: seq<Entry>, k: nat, q: seq<Str>, n: nat)
    requires k <= |es|
  {
    n < |t| && (t[n].dir || exists i :: 0 <= i < k && IsFile(es, i) && PathOf(es, i) == q)
  }

  /** Up to `full`, everything that exists is a directory, and there is room where the path leaves the tree. */
  ghost predicate Open(t: Tree, full: seq<Str>) {
    forall q :: q <= full && Lookup(t, 0, q).Some? ==>
      var n := Lookup(t, 0, q).value;
      && n < |t| && t[n].dir
      && (|q| < |full| && Child(t, n, full[|q|]) == None ==> |t[n].children| < MAX_CHILDREN)
  }

  lemma {:induction false} OpenClear(t: Tree, path: seq<Str>, cur: nat, mids: seq<Str>, leaf: Str)
    requires TreeInv(t) && Lookup(t, 0, path) == Some(cur) && Open(t, path + mids + LeafSeq(leaf))
    ensures Clear(t, cur, mids, leaf)
    decreases |mids|
  {
    hide TreeInv, Lookup, Child;
    var full := path + mids + LeafSeq(leaf);
    assert path <= full;
    if mids != [] {
      assert full[|path|] == mids[0];
      LookupSnoc(t, 0, path, mids[0]);
      assert path + [mids[0]] + mids[1..] == path + mids;
      var c := Child(t, cur, mids[0]);
      if c.Some? { OpenClear(t, path + [mids[0]], c.value, mids[1..], leaf); }
    } else if leaf != [] {
      assert full == path + [leaf];
    }
  }

  /** A directory of the tree has one child per name, and every name comes from an entry. */
  lemma ChildNames(t: Tree, es: seq<Entry>, k: nat, q: seq<Str>, n: nat, x: Str)
    requires k <= |es| && TreeInv(t) && PathsBuilt(t, es, k) && Lookup(t, 0, q) == Some(n) && n < |t|
    requires Child(t, n, x) == None && x in NamesBelow(es, q)
    ensures |t[n].children| < |NamesBelow(es, q)|
  {
    hide Lookup, Child, PathsBuilt, NamesBelow;
    ChildFacts(t, n, x);
    SiblingNames(t, n);
    var names := seq(|t[n].children|, i requires 0 <= i < |t[n].children| => t[t[n].children[i]].name);
    var used := set y | y in names;
    forall y | y in used ensures y in NamesBelow(es, q) && y != x {
      var i :| 0 <= i < |names| && names[i] == y;
      assert t[n].children[i] in t[n].children;
      LookupSnoc(t, 0, q, y);
      NameKnown(t, es, k, q, y);
    }
    DistinctSize(names);
    SubsetSize(used + {x}, NamesBelow(es, q));
  }

  lemma SiblingNames(t: Tree, n: nat)
    requires TreeInv(t) && n < |t|
    ensures forall c :: c in t[n].children ==> c < |t|
    ensures forall i, j :: 0 <= i < j < |t[n].children| ==> t[t[n].children[i]].name != t[t[n].children[j]].name
  {
    forall i, j | 0 <= i < j < |t[n].children| ensures t[t[n].children[i]].name != t[t[n].children[j]].name {
      assert IsEntry(t, n, i) && IsEntry(t, n, j);
    }
  }

  lemma {:induction false} DistinctSize(s: seq<Str>)
    requires forall i, j :: 0 <= i < j < |s| ==> s[i] != s[j]
    ensures |set y | y in s| == |s|
  {
    if s != [] {
      var m := |s| - 1;
      DistinctSize(s[..m]);
      assert s == s[..m] + [s[m]];
      assert (set y | y in s) == (set y | y in s[..m]) + {s[m]};
      assert s[m] !in s[..m];
    }
  }

  lemma NameKnown(t: Tree, es: seq<Entry>, k: nat, q: seq<Str>, y: Str)
    requires k <= |es| && PathsBuilt(t, es, k) && Lookup(t, 0, q + [y]).Some?
    ensures y in NamesBelow(es, q)
  {
    assert Known(es, k, q + [y]);
    var i :| 0 <= i < k && q + [y] <= PathOf(es, i);
    assert (q + [y])[|q|] == PathOf(es, i)[|q|];
    assert q <= q + [y];
    PrefixTrans(q, q + [y], PathOf(es, i));
  }

  /** The next entry finds its way: directories as far as the path exists, then a free slot. */
  lemma EntryOpen(t: Tree, es: seq<Entry>, k: nat)
    requires Mountable(es) && k < |es| && Built(t, es, k)
    ensures Open(t, PathOf(es, k))
    ensures IsFile(es, k) ==> Lookup(t, 0, PathOf(es, k)) == None
  {
    hide Lookup, Child, TreeInv, NamesBelow, FilesBuilt, GoodEntries;
    var full := PathOf(es, k);
    forall q | q <= full && Lookup(t, 0, q).Some?
      ensures var n := Lookup(t, 0, q).value;
        && n < |t| && t[n].dir
        && (|q| < |full| && Child(t, n, full[|q|]) == None ==> |t[n].children| < MAX_CHILDREN)
    {
      var n := Lookup(t, 0, q).value;
      assert DirUnlessFile(t, es, k, q, n);
      if |q| < |full| && Child(t, n, full[|q|]) == None {
        NextName(es, k, q);
        ChildNames(t, es, k, q, n, full[|q|]);
        assert |NamesBelow(es, q)| <= 64;
      }
    }
    if IsFile(es, k) && Lookup(t, 0, full).Some? {
      assert Known(es, k, full);
      FileIsDeep(es, k);
    }
  }

  lemma NextName(es: seq<Entry>, k: nat, q: seq<Str>)
    requires k < |es| && q <= PathOf(es, k) && |q| < |PathOf(es, k)|
    ensures PathOf(es, k)[|q|] in NamesBelow(es, q)
  {
  }

  lemma FileIsDeep(es: seq<Entry>, k: nat)
    requires k < |es| && Leaf(es[k].path) != []
    ensures PathOf(es, k) != []
  {
  }

  /** Attaching one more entry to a tree that holds the ones before it. */
  lemma BuildStep(t: Tree, es: seq<Entry>, k: nat)
    requires Mountable(es) && k < |es| && Built(t, es, k)
    ensures TreeInv(t) && t != [] && Built(AttachRaw(t, es[k].path, KindOf(es[k])), es, k + 1)
  {
    hide Lookup, TreeInv, PathsBuilt, FilesBuilt, DirsBuilt, Attach, Attached, Mids, Leaf, Open, GoodEntries, Comps;
    TreeNotEmpty(t);
    EntryOpen(t, es, k);
    var path, kind, full := es[k].path, KindOf(es[k]), PathOf(es, k);
    CompsParts(path);
    assert [] + Mids(path) + LeafSeq(Leaf(path)) == full;
    LookupRoot(t);
    OpenClear(t, [], 0, Mids(path), Leaf(path));
    AttachEffect(t, [], 0, Mids(path), Leaf(path), kind);
    var (t', r) := Attach(t, 0, Mids(path), Leaf(path), kind);
    StepPaths(t, t', es, k, r);
    StepFiles(t, t', es, k, r);
    StepDirs(t, t', es, k, r);
    AttachedInv(t, t', full, r, kind, Leaf(path));
  }

  lemma TreeNotEmpty(t: Tree)
    requires TreeInv(t)
    ensures t != []
  {
  }

  lemma CompsParts(path: Str)
    ensures Comps(path) == Mids(path) + LeafSeq(Leaf(path))
  {
  }

  lemma AttachedInv(t: Tree, t': Tree, full: seq<Str>, r: nat, kind: Kind, leaf: Str)
    requires Attached(t, t', full, r, kind, leaf)
    ensures TreeInv(t')
  {
  }

  lemma StepPaths(t: Tree, t': Tree, es: seq<Entry>, k: nat, r: nat)
    requires k < |es| && PathsBuilt(t, es, k)
    requires Attached(t, t', PathOf(es, k), r, KindOf(es[k]), Leaf(es[k].path))
    ensures PathsBuilt(t', es, k + 1)
  {
    hide Lookup, TreeInv, NodesKept, Comps, Leaf;
    forall q ensures Lookup(t', 0, q).Some? <==> Known(es, k + 1, q) {
      assert Known(es, k + 1, q) <==> Known(es, k, q) || q <= PathOf(es, k);
    }
  }

  lemma StepFiles(t: Tree, t': Tree, es: seq<Entry>, k: nat, r: nat)
    requires Mountable(es) && k < |es| && FilesBuilt(t, es, k)
    requires IsFile(es, k) ==> Lookup(t, 0, PathOf(es, k)) == None
    requires Attached(t, t', PathOf(es, k), r, KindOf(es[k]), Leaf(es[k].path))
    ensures FilesBuilt(t', es, k + 1)
  {
    hide Lookup, TreeInv, Comps, Leaf, NamesBelow, GoodEntries;
    forall i | 0 <= i < k + 1 && IsFile(es, i) ensures HoldsFile(t', PathOf(es, i), es[i].data) {
      if i < k {
        assert HoldsFile(t, PathOf(es, i), es[i].data);
        assert Lookup(t', 0, PathOf(es, i)) == Lookup(t, 0, PathOf(es, i));
        if Lookup(t, 0, PathOf(es, i)).value == r {
          OnePath(t', PathOf(es, i), PathOf(es, k));
        }
      }
    }
  }

  lemma StepDirs(t: Tree, t': Tree, es: seq<Entry>, k: nat, r: nat)
    requires Mountable(es) && k < |es| && DirsBuilt(t, es, k)
    requires Attached(t, t', PathOf(es, k), r, KindOf(es[k]), Leaf(es[k].path))
    ensures DirsBuilt(t', es, k + 1)
  {
    hide Lookup, TreeInv, Comps, Leaf, NamesBelow, GoodEntries;
    forall q | Lookup(t', 0, q).Some? ensures DirUnlessFile(t', es, k + 1, q, Lookup(t', 0, q).value) {
      var n := Lookup(t', 0, q).value;
      if Lookup(t, 0, q).Some? {
        assert DirUnlessFile(t, es, k, q, n);
      } else {
        RootInside(t', q);
        if n == r { OnePath(t', q, PathOf(es, k)); }
      }
    }
  }

  lemma RootInside(t: Tree, q: seq<Str>)
    requires TreeInv(t) && Lookup(t, 0, q).Some?
    ensures Lookup(t, 0, q).value < |t|
  {
    LookupInside(t, 0, q);
  }

  lemma {:induction false} BuildAll(t: Tree, es: seq<Entry>, k: nat)
    requires Mountable(es) && k <= |es| && Built(t, es, k) && t != []
    ensures Built(AttachAll(t, es[k..]), es, |es|)
    decreases |es| - k
  {
    hide Built, Mountable, AttachRaw;
    if k < |es| {
      BuildStep(t, es, k);
      assert es[k..][1..] == es[k + 1..];
      BuildAll(AttachRaw(t, es[k].path, KindOf(es[k])), es, k + 1);
    }
  }

  const EMPTY_ROOT: Tree := [Node([SLASH], true, [], [])]

  lemma StartBuilt(es: seq<Entry>)
    ensures Built(EMPTY_ROOT, es, 0)
  {
    forall q ensures Lookup(EMPTY_ROOT, 0, q).Some? <==> q == [] {
    }
  }

  /** A path resolves exactly when it is the root, an entry or a directory above one. Under any spelling of
      its path, an entry of regular or special type reads through the VFS as its archived bytes, cut to
      the buffer, and an entry of directory type is a directory, which cannot be read. */
  ghost predicate ReadsBack(t: Tree, es: seq<Entry>) {
    && (forall p :: ShortComps(Comps(p)) ==> (ResolveSpec(t, p).Some? <==> Known(es, |es|, Comps(p))))
    && (forall p, len: int :: ShortComps(Comps(p)) && !Known(es, |es|, Comps(p)) ==> ReadAllSpec(t, p, len) == None)
    && (forall p, i, len: int ::
          0 <= i < |es| && !es[i].kind.Dir? && Comps(p) == PathOf(es, i) && ShortComps(Comps(p)) ==>
            ReadAllSpec(t, p, len) ==
            Some(if len <= 0 then [] else if len <= |es[i].data| then es[i].data[..len] else es[i].data))
    && (forall p, i ::
          0 <= i < |es| && es[i].kind.Dir? && Comps(p) == PathOf(es, i) && ShortComps(Comps(p)) ==> IsDirectory(t, p))
  }

  ghost predicate IsDirectory(t: Tree, p: Str) {
    var n := ResolveSpec(t, p);
    n.Some? && n.value < |t| && t[n.value].dir && forall len: int :: len > 0 ==> ReadAllSpec(t, p, len) == None
  }

  /** Archive round trip: on an empty filesystem, mounting any archive of a mountable list of entries
      terminates, after one record for each entry, and leaves a tree that reads back as the archive. */
  lemma ArchiveRoundTrip(es: seq<Entry>, meta: Str, upper: bool, tail: Str)
    requires Mountable(es) && |meta| == 80 && |Archive(es, meta, upper, tail)| + 128 <= WORD32
    ensures var img := Archive(es, meta, upper, tail);
      && StopsIn(img, 0, |es|)
      && TreeInv(Mount(EMPTY_ROOT, img, 0, |es|)) && ReadsBack(Mount(EMPTY_ROOT, img, 0, |es|), es)
  {
    ImageRoundTrip(Archive(es, meta, upper, tail), es, meta, upper, tail);
  }

  lemma ImageRoundTrip(img: Str, es: seq<Entry>, meta: Str, upper: bool, tail: Str)
    requires Mountable(es) && |meta| == 80 && img == Archive(es, meta, upper, tail) && |img| + 128 <= WORD32
    ensures StopsIn(img, 0, |es|)
    ensures TreeInv(Mount(EMPTY_ROOT, img, 0, |es|)) && ReadsBack(Mount(EMPTY_ROOT, img, 0, |es|), es)
  {
    hide Archive, Mount, StopsIn, Built, Mountable, TreeInv, ReadsBack, AttachAll, NamesBelow;
    GoodOfMountable(es);
    assert img[0..] == img;
    MountArchive(EMPTY_ROOT, img, 0, es, meta, upper, tail);
    StartBuilt(es);
    assert es[0..] == es;
    BuildAll(EMPTY_ROOT, es, 0);
    BuiltReads(AttachAll(EMPTY_ROOT, es), es);
  }

  lemma GoodOfMountable(es: seq<Entry>)
    requires Mountable(es)
    ensures GoodEntries(es)
  {
  }

  lemma BuiltReads(t: Tree, es: seq<Entry>)
    requires Built(t, es, |es|) && Mountable(es)
    ensures TreeInv(t) && ReadsBack(t, es)
  {
    hide Lookup, WalkSpec, Comps, Known, ShortComps, NamesBelow, GoodEntries, Leaf;
    TreeNotEmpty(t);
    forall p | ShortComps(Comps(p)) ensures ResolveSpec(t, p) == Lookup(t, 0, Comps(p)) {
      WalkAgrees(t, 0, Comps(p));
    }
    forall i | 0 <= i < |es| && IsFile(es, i) ensures HoldsFile(t, PathOf(es, i), es[i].data) {
    }
    forall p, i | 0 <= i < |es| && es[i].kind.Dir? && Comps(p) == PathOf(es, i) && ShortComps(Comps(p))
      ensures IsDirectory(t, p)
    {
      DirEntryIsDir(t, es, i);
    }
  }

  lemma DirEntryIsDir(t: Tree, es: seq<Entry>, i: nat)
    requires Built(t, es, |es|) && Mountable(es) && i < |es| && es[i].kind == Dir
    ensures var n := Lookup(t, 0, PathOf(es, i)); n.Some? && n.value < |t| && t[n.value].dir
  {
    hide Lookup, Comps, NamesBelow, GoodEntries, Leaf, TreeInv, FilesBuilt;
    var q := PathOf(es, i);
    assert Known(es, |es|, q);
    assert Lookup(t, 0, q).Some?;
    assert DirUnlessFile(t, es, |es|, q, Lookup(t, 0, q).value);
  }
}
