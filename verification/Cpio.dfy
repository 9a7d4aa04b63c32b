/** The "newc" archive parser that fills the in-memory filesystem, and what an archive reads back as. */
module Cpio {
  import opened Common
  import opened RamFs
  import opened Vfs

  const WORD32: nat := 0x1_0000_0000
  const MAGIC: Str := [48, 55, 48, 55, 48, 49]
  const TRAILER: Str := [84, 82, 65, 73, 76, 69, 82, 33, 33, 33]

  // ---- Helpers of the parser ----

  function W(x: nat): nat { x % WORD32 }

  /** (v + 3) & ~3 in 32 bits. */
  function CpioAlignUp(v: nat): (r: nat)
    ensures r % 4 == 0 && r < WORD32
    ensures v + 3 < WORD32 ==> v <= r < v + 4
  {
    W(v + 3) - W(v + 3) % 4
  }

  /** The value of one digit; anything that is not a digit counts as zero. */
  function HexValue(c: Byte): (d: nat)
    ensures d < 16
  {
    if 48 <= c <= 57 then c - 48 else if 97 <= c <= 102 then c - 87 else if 65 <= c <= 70 then c - 55 else 0
  }

  /** Characters as bytes. */
  function Ascii(s: string): (r: Str)
    requires forall i :: 0 <= i < |s| ==> s[i] < 256 as char
    ensures |r| == |s| && forall i :: 0 <= i < |s| ==> r[i] == s[i] as int
  {
    seq<Byte>(|s|, i requires 0 <= i < |s| => s[i] as int)
  }

  /** A digit as the format writes it. */
  function HexDigit(d: nat, upper: bool): (c: Byte)
    requires d < 16
    ensures HexValue(c) == d
  {
    DigitsParse(d);
    Ascii(if upper then "0123456789ABCDEF" else "0123456789abcdef")[d]
  }

  lemma DigitsParse(d: nat)
    requires d < 16
    ensures HexValue("0123456789ABCDEF"[d] as int) == d == HexValue("0123456789abcdef"[d] as int)
  {
    var u, l := "0123456789ABCDEF", "0123456789abcdef";
    if d < 10 {
      assert u[d] as int == 48 + d && l[d] as int == 48 + d;
    } else {
      assert u[d] as int == 55 + d && l[d] as int == 87 + d;
    }
  }

  function ParseHex(s: Str): nat {
    if s == [] then 0 else 16 * ParseHex(s[..|s| - 1]) + HexValue(s[|s| - 1])
  }

  function Hex(n: nat, digits: nat, upper: bool): (s: Str)
    ensures |s| == digits
  {
    if digits == 0 then [] else Hex(n / 16, digits - 1, upper) + [HexDigit(n % 16, upper)]
  }

  function Pow16(k: nat): nat { if k == 0 then 1 else 16 * Pow16(k - 1) }

  lemma {:induction false} HexRoundTrip(n: nat, digits: nat, upper: bool)
    requires n < Pow16(digits)
    ensures ParseHex(Hex(n, digits, upper)) == n
  {
    hide HexDigit, HexValue, ParseHex;
    if digits == 0 {
      NoDigits();
    } else {
      HexRoundTrip(n / 16, digits - 1, upper);
      ParseSnoc(Hex(n / 16, digits - 1, upper), HexDigit(n % 16, upper));
    }
  }

  lemma NoDigits()
    ensures ParseHex([]) == 0
  {
  }

  lemma {:induction false} ParseSnoc(s: Str, c: Byte)
    ensures ParseHex(s + [c]) == 16 * ParseHex(s) + HexValue(c)
  {
    hide HexValue;
    assert (s + [c])[..|s|] == s;
  }

  lemma Hex8RoundTrip(n: nat, upper: bool)
    requires n < WORD32
    ensures ParseHex(Hex(n, 8, upper)) == n
  {
    Pow16At8();
    HexRoundTrip(n, 8, upper);
  }

  lemma Pow16At8()
    ensures Pow16(8) == WORD32
  {
    assert Pow16(2) == 256;
    assert Pow16(5) == 16 * 16 * 16 * 256;
    assert Pow16(8) == 16 * 16 * 16 * Pow16(5);
  }

  /** Eight digits never exceed 32 bits. */
  lemma {:induction false} ParseBound(s: Str)
    ensures ParseHex(s) < Pow16(|s|)
  {
    if s != [] { ParseBound(s[..|s| - 1]); }
  }

  /** The accumulating loop: the shifted value has its low four bits clear, so the or is a sum. */
  method CpioParseHex(hex: Str) returns (value: nat)
    requires |hex| == 8
    ensures value == ParseHex(hex) && value < WORD32
  {
    value := 0;
    var i := 0;
    while i < 8
      invariant 0 <= i <= 8 && value == ParseHex(hex[..i])
    {
      assert hex[..i + 1][..i] == hex[..i];
      value := value * 16 + HexValue(hex[i]);
      i := i + 1;
    }
    assert hex[..8] == hex;
    ParseBound(hex);
    Pow16At8();
  }

  /** A byte of the image; what follows the image reads as zero. */
  function At(img: Str, i: nat): Byte { if i < |img| then img[i] else 0 }

  function Slice(img: Str, off: nat, n: nat): (s: Str)
    ensures |s| == n
  {
    seq<Byte>(n, i requires 0 <= i => At(img, off + i))
  }

  /** The terminated string at an offset. */
  function CString(img: Str, off: nat): Str
    decreases |img| - off
  {
    if At(img, off) == 0 then [] else [img[off]] + CString(img, off + 1)
  }

  predicate IsDir(mode: nat) { mode / 0x1000 % 16 == 4 }

  // ---- One record ----

  datatype Parsed = Stop | Take(next: nat, path: Str, kind: Kind)

  function NameLen(img: Str, off: nat): nat { ParseHex(Slice(img, off + 94, 8)) }

  function DataLen(img: Str, off: nat): nat { ParseHex(Slice(img, off + 54, 8)) }

  function Mode(img: Str, off: nat): nat { ParseHex(Slice(img, off + 14, 8)) }

  /** One turn of the parser's loop, all offsets and the image length in 32 bits. */
  function Record(img: Str, start: nat): Parsed {
    if W(start + 6) > W(|img|) then Stop
    else
      var off := CpioAlignUp(start);
      if W(off + 110) > W(|img|) || Slice(img, off, 6) != MAGIC then Stop
      else Body(img, W(off + 110), NameLen(img, off), DataLen(img, off), IsDir(Mode(img, off)))
  }

  function Body(img: Str, nameOff: nat, nameLen: nat, dataLen: nat, dir: bool): Parsed {
    var nameEnd := W(nameOff + nameLen);
    if nameEnd > W(|img|) || (nameLen >= 11 && Slice(img, nameOff, 11) == TRAILER + [0]) then Stop
    else
      var dataOff := CpioAlignUp(nameEnd);
      var dataEnd := W(dataOff + dataLen);
      if dir then Take(dataOff, CString(img, nameOff), Directory)
      else if dataEnd > W(|img|) then Stop
      else Take(CpioAlignUp(dataEnd), CString(img, nameOff), File(Slice(img, dataOff, dataLen)))
  }

  /** The lengths in the header at `off` do not wrap a 32-bit offset; a directory's data length is not read. */
  ghost predicate Fits(img: Str, off: nat) {
    var nameEnd := off + 110 + NameLen(img, off);
    && |img| < WORD32 && off % 4 == 0 && off + 110 < WORD32 && nameEnd + 3 < WORD32
    && (!IsDir(Mode(img, off)) ==> CpioAlignUp(nameEnd) + DataLen(img, off) + 3 < WORD32)
  }

  /** A record that does not wrap moves the parser forward. */
  lemma Progress(img: Str, off: nat)
    requires Fits(img, off) && Record(img, off).Take?
    ensures off + 110 <= Record(img, off).next <= |img| + 3 && Record(img, off).next % 4 == 0
  {
    hide Slice, CString, ParseHex, NameLen, DataLen, Mode, W, CpioAlignUp, IsDir;
    AlignIs(off, off);
    NoCarry(|img|);
    NoCarry(off + 110);
    var nameEnd := off + 110 + NameLen(img, off);
    NoCarry(nameEnd);
    if !IsDir(Mode(img, off)) { NoCarry(CpioAlignUp(nameEnd) + DataLen(img, off)); }
  }

  lemma NoCarry(x: nat)
    requires x < WORD32
    ensures W(x) == x
  {
  }

  lemma AlignIs(v: nat, r: nat)
    requires v + 3 < WORD32 && r % 4 == 0 && v <= r < v + 4
    ensures CpioAlignUp(v) == r
  {
  }

  /** A record is taken only where the format's magic is. */
  lemma TakesOnlyMagic(img: Str, off: nat)
    requires Record(img, off).Take?
    ensures Slice(img, CpioAlignUp(off), 6) == Ascii("070701")
  {
    hide Slice, CString, ParseHex, CpioAlignUp, W;
    FormatStrings();
  }

  /** From `off` the parser takes exactly `k` records and stops. */
  ghost predicate StopsIn(img: Str, off: nat, k: nat)
    decreases k
  {
    var r := Record(img, off);
    if r == Stop then k == 0 else k > 0 && StopsIn(img, r.next, k - 1)
  }

  /** The mount loop ends. */
  ghost predicate Stops(img: Str) { exists k: nat :: StopsIn(img, 0, k) }

  lemma {:induction false} OneCount(img: Str, off: nat, k: nat, k': nat)
    requires StopsIn(img, off, k) && StopsIn(img, off, k')
    ensures k == k'
    decreases k
  {
    hide Record;
    if k > 0 && k' > 0 { OneCount(img, Record(img, off).next, k - 1, k' - 1); }
  }

  /** The whole run of the parser: attach what each record gives. */
  ghost function Mount(t: Tree, img: Str, off: nat, k: nat): (t': Tree)
    requires t != [] && StopsIn(img, off, k)
    ensures t' != []
    decreases k
  {
    var r := Record(img, off);
    if r == Stop then t else Mount(AttachRaw(t, r.path, r.kind), img, r.next, k - 1)
  }

  /** Attaching the archive name below the root. */
  function AttachRaw(t: Tree, path: Str, kind: Kind): (t': Tree)
    requires t != []
    ensures t' != []
  {
    Attach(t, 0, Mids(path), Leaf(path), kind).0
  }

  // ---- The parser's methods ----

  method TrailerAt(img: Str, off: nat) returns (found: bool)
    ensures found == (Slice(img, off, 11) == TRAILER + [0])
  {
    var want := TRAILER + [0];
    var i := 0;
    while i < 11
      invariant 0 <= i <= 11 && forall k :: 0 <= k < i ==> At(img, off + k) == want[k]
    {
      if At(img, off + i) != want[i] {
        assert Slice(img, off, 11)[i] != want[i];
        return false;
      }
      i := i + 1;
    }
    return true;
  }

  /** The length loop and the copy loop over the name. */
  method NameAt(img: Str, off: nat) returns (name: Str)
    ensures name == CString(img, off)
  {
    name := [];
    var n := 0;
    while At(img, off + n) != 0
      invariant 0 <= n && CString(img, off) == name + CString(img, off + n)
      decreases |img| - n
    {
      name := name + [img[off + n]];
      n := n + 1;
    }
  }

  method NextRecord(img: Str, start: nat) returns (r: Parsed)
    ensures r == Record(img, start)
  {
    hide Slice, CString, ParseHex, CpioAlignUp, W;
    var length := W(|img|);
    if W(start + 6) > length {
      return Stop;
    }
    var off := CpioAlignUp(start);
    if W(off + 110) > length {
      return Stop;
    }
    if Slice(img, off, 6) != MAGIC {
      return Stop;
    }
    var nameOff := W(off + 110);
    var nameLen := CpioParseHex(Slice(img, off + 94, 8));
    var dataLen := CpioParseHex(Slice(img, off + 54, 8));
    var mode := CpioParseHex(Slice(img, off + 14, 8));
    var nameEnd := W(nameOff + nameLen);
    if nameEnd > length {
      return Stop;
    }
    if nameLen >= 11 {
      var last := TrailerAt(img, nameOff);
      if last {
        return Stop;
      }
    }
    off := CpioAlignUp(nameEnd);
    var kind := Directory;
    if !IsDir(mode) {
      var dataOff := off;
      var dataEnd := W(dataOff + dataLen);
      if dataEnd > length {
        return Stop;
      }
      kind := File(Slice(img, dataOff, dataLen));
      off := CpioAlignUp(dataEnd);
    }
    var path := NameAt(img, nameOff);
    return Take(off, path, kind);
  }

  /** RamFSMount: terminates on every image whose run of records ends, and leaves the tree of the run. */
  method RamFSMount(fs: FileSystem, img: Str) returns (root: Option<nat>)
    requires fs.nodes != [] && Stops(img)
    modifies fs
    ensures forall k: nat :: StopsIn(img, 0, k) ==> fs.nodes == Mount(old(fs.nodes), img, 0, k)
    ensures root == if img == [] then None else Some(0)
  {
    hide Attach, Record, Mids, Leaf;
    ghost var turns: nat :| StopsIn(img, 0, turns);
    forall k: nat | StopsIn(img, 0, k) ensures k == turns { OneCount(img, 0, k, turns); }
    if img == [] {
      EmptyImage();
      return None;
    }
    root := Some(0);
    var off: nat := 0;
    ghost var left := turns;
    while true
      invariant fs.nodes != [] && StopsIn(img, off, left)
      invariant Mount(fs.nodes, img, off, left) == Mount(old(fs.nodes), img, 0, turns)
      decreases left
    {
      var r := NextRecord(img, off);
      if r == Stop {
        return;
      }
      assert ([SLASH] + r.path)[1..] == r.path;
      var _ := fs.RamFSAttachPath([SLASH] + r.path, r.kind);
      off, left := r.next, left - 1;
    }
  }

  lemma EmptyImage()
    ensures Record([], 0) == Stop
  {
  }

  // ---- Archives ----

  /** An archived file or directory; `meta` holds the header fields the parser does not look at. */
  datatype Entry = Entry(path: Str, kind: EntryType, perm: nat, high: nat, data: Str, meta: Str)

  datatype EntryType = Dir | Regular | Special(nibble: nat)

  /** The file type in bits 12..15 of the mode. */
  function TypeNibble(t: EntryType): nat {
    match t
    case Dir => 0x4
    case Regular => 0x8
    case Special(n) => n
  }

  function ModeOf(e: Entry): nat { e.high * 0x1_0000 + TypeNibble(e.kind) * 0x1000 + e.perm }

  /** Whatever is not a directory is attached as a file. */
  function KindOf(e: Entry): Kind { if e.kind == Dir then Directory else File(e.data) }

  /** The parser tells the types apart by the mode. */
  lemma ModeTells(e: Entry)
    requires GoodEntry(e)
    ensures ModeOf(e) < WORD32 && (IsDir(ModeOf(e)) <==> e.kind == Dir)
  {
    var n := TypeNibble(e.kind);
    assert ModeOf(e) / 0x1000 == e.high * 16 + n;
  }

  lemma FormatStrings()
    ensures Ascii("070701") == MAGIC && Ascii("TRAILER!!!") == TRAILER
  {
  }

  /** The entry that ends an archive. */
  function TrailerEntry(meta: Str): Entry { Entry(Ascii("TRAILER!!!"), Special(0), 0, 0, [], meta) }

  function Padded(s: Str): (r: Str)
    ensures |r| % 4 == 0 && |s| <= |r| < |s| + 4 && r[..|s|] == s
  {
    s + Zeros((4 - |s| % 4) % 4)
  }

  /** The 110-byte header. */
  function Header(mode: nat, dataLen: nat, nameLen: nat, meta: Str, upper: bool): (h: Str)
    requires |meta| == 80
    ensures |h| == 110
  {
    Ascii("070701") + meta[..8] + Hex(mode, 8, upper) + meta[8..40] + Hex(dataLen, 8, upper) + meta[40..72]
    + Hex(nameLen, 8, upper) + meta[72..]
  }

  /** One archived record: header and terminated name, then data, each padded to four bytes. */
  function EncodeEntry(e: Entry, upper: bool): Str
    requires |e.meta| == 80
  {
    Padded(Header(ModeOf(e), |e.data|, |e.path| + 1, e.meta, upper) + e.path + [0]) + Padded(e.data)
  }

  ghost predicate GoodEntry(e: Entry) {
    && |e.meta| == 80 && 0 !in e.path && e.path != Ascii("TRAILER!!!")
    && e.perm < 0x1000 && e.high < 0x1_0000
    && (e.kind.Special? ==> e.kind.nibble < 16 && e.kind.nibble != 0x4 && e.kind.nibble != 0x8)
    && (e.kind == Dir ==> e.data == [])
  }

  ghost predicate GoodEntries(es: seq<Entry>) { forall i :: 0 <= i < |es| ==> GoodEntry(es[i]) }

  function Encode(es: seq<Entry>, upper: bool): Str
    requires forall i :: 0 <= i < |es| ==> |es[i].meta| == 80
  {
    if es == [] then [] else EncodeEntry(es[0], upper) + Encode(es[1..], upper)
  }

  /** An archive: the entries, the trailer entry, and whatever follows it. */
  function Archive(es: seq<Entry>, meta: Str, upper: bool, tail: Str): Str
    requires (forall i :: 0 <= i < |es| ==> |es[i].meta| == 80) && |meta| == 80
  {
    Encode(es, upper) + EncodeEntry(TrailerEntry(meta), upper) + tail
  }

  // ---- Parsing what was encoded ----

  lemma HeaderFields(img: Str, off: nat, mode: nat, dataLen: nat, nameLen: nat, meta: Str, upper: bool)
    requires |meta| == 80 && off + 110 <= |img|
    requires img[off..off + 110] == Header(mode, dataLen, nameLen, meta, upper)
    ensures Slice(img, off, 6) == MAGIC
    ensures Slice(img, off + 14, 8) == Hex(mode, 8, upper)
    ensures Slice(img, off + 54, 8) == Hex(dataLen, 8, upper)
    ensures Slice(img, off + 94, 8) == Hex(nameLen, 8, upper)
  {
    hide Hex, Header, Slice;
    var h := Header(mode, dataLen, nameLen, meta, upper);
    HeaderParts(mode, dataLen, nameLen, meta, upper);
    SliceOf(img, off, h, 0, 6);
    SliceOf(img, off, h, 14, 8);
    SliceOf(img, off, h, 54, 8);
    SliceOf(img, off, h, 94, 8);
  }

  lemma HeaderParts(mode: nat, dataLen: nat, nameLen: nat, meta: Str, upper: bool)
    requires |meta| == 80
    ensures var h := Header(mode, dataLen, nameLen, meta, upper);
      && h[0..6] == MAGIC && h[14..22] == Hex(mode, 8, upper)
      && h[54..62] == Hex(dataLen, 8, upper) && h[94..102] == Hex(nameLen, 8, upper)
  {
    hide Hex;
    FormatStrings();
    var a := MAGIC + meta[..8];
    var b := a + Hex(mode, 8, upper) + meta[8..40];
    var c := b + Hex(dataLen, 8, upper) + meta[40..72];
    Middle(MAGIC, meta[..8], Hex(mode, 8, upper) + meta[8..40]);
    Middle(a, Hex(mode, 8, upper), meta[8..40]);
    Middle(b, Hex(dataLen, 8, upper), meta[40..72]);
    Middle(c, Hex(nameLen, 8, upper), meta[72..]);
  }

  /** Parts of a concatenation, each at its offset. */
  lemma Middle(a: Str, x: Str, b: Str)
    ensures (a + x + b)[|a|..|a| + |x|] == x
    ensures forall i, j :: 0 <= i <= j <= |a| ==> (a + x + b)[i..j] == a[i..j]
  {
  }

  lemma SliceOf(img: Str, off: nat, h: Str, k: nat, n: nat)
    requires off + |h| <= |img| && img[off..off + |h|] == h && k + n <= |h|
    ensures Slice(img, off + k, n) == h[k..k + n]
  {
    var a, b := Slice(img, off + k, n), h[k..k + n];
    forall i | 0 <= i < n ensures a[i] == b[i] {
      assert a[i] == img[off + k + i] == img[off..off + |h|][k + i];
    }
    assert a == b;
  }

  lemma {:induction false} CStringOf(img: Str, off: nat, s: Str)
    requires off + |s| <= |img| && img[off..off + |s|] == s && 0 !in s && At(img, off + |s|) == 0
    ensures CString(img, off) == s
    decreases |s|
  {
    if s != [] {
      assert img[off] == s[0];
      assert img[off + 1..off + 1 + |s[1..]|] == s[1..];
      CStringOf(img, off + 1, s[1..]);
    }
  }

  /** A name part (header, name, terminator) of length `nameEnd - off`, data from `dataOff`, end at `next`. */
  ghost predicate Layout(img: Str, off: nat, e: Entry, upper: bool, dataOff: nat, next: nat) {
    var nameEnd := off + 111 + |e.path|;
    && |e.meta| == 80 && off % 4 == 0 && dataOff % 4 == 0 && next % 4 == 0
    && nameEnd <= dataOff < nameEnd + 4 && dataOff + |e.data| <= next < dataOff + |e.data| + 4 && next <= |img|
    && img[off..off + 110] == Header(ModeOf(e), |e.data|, |e.path| + 1, e.meta, upper)
    && img[off + 110..off + 110 + |e.path|] == e.path && img[off + 110 + |e.path|] == 0
    && img[dataOff..dataOff + |e.data|] == e.data
  }

  lemma {:induction false} EntryLayout(img: Str, off: nat, e: Entry, upper: bool) returns (dataOff: nat)
    requires |e.meta| == 80 && off % 4 == 0
    requires off <= |img| && EncodeEntry(e, upper) <= img[off..]
    ensures Layout(img, off, e, upper, dataOff, off + |EncodeEntry(e, upper)|)
  {
    hide Header, Padded, EncodeEntry;
    var h := Header(ModeOf(e), |e.data|, |e.path| + 1, e.meta, upper);
    EncodedAs(e, upper, h);
    var name := h + e.path + [0];
    dataOff := PartsAt(img, off, h, e.path, e.data);
    RecordEnds(name, e.data);
    LaysOut(img, off, e, upper, dataOff, dataOff + |Padded(e.data)|, h);
  }

  lemma {:induction false} LaysOut(img: Str, off: nat, e: Entry, upper: bool, dataOff: nat, next: nat, h: Str)
    requires |e.meta| == 80 && h == Header(ModeOf(e), |e.data|, |e.path| + 1, e.meta, upper)
    requires off % 4 == 0 && dataOff % 4 == 0 && next % 4 == 0
    requires off + 111 + |e.path| <= dataOff < off + 115 + |e.path|
    requires dataOff + |e.data| <= next < dataOff + |e.data| + 4 && next <= |img|
    requires img[off..off + |h|] == h && img[off + |h|..off + |h| + |e.path|] == e.path
    requires img[off + |h| + |e.path|] == 0 && img[dataOff..dataOff + |e.data|] == e.data
    ensures Layout(img, off, e, upper, dataOff, next)
  {
    hide Header;
  }

  lemma EncodedAs(e: Entry, upper: bool, h: Str)
    requires |e.meta| == 80 && h == Header(ModeOf(e), |e.data|, |e.path| + 1, e.meta, upper)
    ensures EncodeEntry(e, upper) == Padded(h + e.path + [0]) + Padded(e.data)
  {
    hide Header, Padded;
  }

  lemma RecordEnds(a: Str, b: Str)
    ensures |Padded(a)| % 4 == 0 && |Padded(b)| % 4 == 0 && |Padded(a) + Padded(b)| == |Padded(a)| + |Padded(b)|
  {
    hide Padded;
  }

  /** Header, name and data of a padded record, each at its offset in the image. */
  lemma {:induction false} PartsAt(img: Str, off: nat, h: Str, path: Str, data: Str) returns (dataOff: nat)
    requires off <= |img| && Padded(h + path + [0]) + Padded(data) <= img[off..]
    ensures var nameEnd := off + |h| + |path| + 1;
      && dataOff == off + |Padded(h + path + [0])| && nameEnd <= dataOff < nameEnd + 4
      && dataOff + |data| <= dataOff + |Padded(data)| < dataOff + |data| + 4 && dataOff + |Padded(data)| <= |img|
    ensures img[off..off + |h|] == h && img[off + |h|..off + |h| + |path|] == path && img[off + |h| + |path|] == 0
    ensures img[dataOff..dataOff + |data|] == data
  {
    hide Padded;
    var name := h + path + [0];
    var a, b := Padded(name), Padded(data);
    dataOff := off + |a|;
    PaddedParts(name, data);
    Sub(img, off, a + b, 0, |name|, name);
    NameRead(img, off, h, path);
    Sub(img, off, a + b, |a|, |a| + |data|, data);
  }

  lemma NameRead(img: Str, off: nat, h: Str, path: Str)
    requires off <= |img| && h + path + [0] <= img[off..]
    ensures off + |h| + |path| < |img| && img[off..off + |h|] == h
    ensures img[off + |h|..off + |h| + |path|] == path && img[off + |h| + |path|] == 0
  {
    var name := h + path + [0];
    NameParts(h, path);
    Sub(img, off, name, 0, |h|, h);
    Sub(img, off, name, |h|, |h| + |path|, path);
    assert img[off..][|h| + |path|] == name[|h| + |path|] == 0;
  }

  lemma NameParts(h: Str, path: Str)
    ensures var name := h + path + [0];
      |name| == |h| + |path| + 1 && name[0..|h|] == h && name[|h|..|h| + |path|] == path
  {
  }

  lemma PaddedParts(a: Str, b: Str)
    ensures var s := Padded(a) + Padded(b);
      s[0..|a|] == a && s[|Padded(a)|..|Padded(a)| + |b|] == b
  {
    hide Padded;
    assert (Padded(a) + Padded(b))[0..|a|] == Padded(a)[..|a|];
    assert (Padded(a) + Padded(b))[|Padded(a)|..|Padded(a)| + |b|] == Padded(b)[..|b|];
  }

  /** A part of a part. */
  lemma Sub(img: Str, off: nat, s: Str, i: nat, j: nat, part: Str)
    requires off <= |img| && s <= img[off..] && i <= j <= |s| && s[i..j] == part
    ensures img[off + i..off + j] == part && off + j <= |img|
    ensures i == 0 ==> part <= img[off..]
  {
    assert img[off..][i..j] == s[i..j];
  }

  lemma NotTrailer(img: Str, off: nat, path: Str)
    requires off + |path| < |img| && img[off..off + |path|] == path && 0 !in path && img[off + |path|] == 0
    requires |path| >= 10
    ensures Slice(img, off, 11) == TRAILER + [0] <==> path == TRAILER
  {
    var z := path + [0];
    assert img[off..off + |z|] == z;
    SliceOf(img, off, z, 0, 11);
    if |path| > 10 {
      assert z[..11][10] == path[10] && path[10] in path;
      assert (TRAILER + [0])[10] == 0;
    }
    if |path| == 10 { assert z[..11] == z && z[..10] == path; }
  }

  /** An encoded record is parsed back, and the parser stands at the next one. */
  lemma EncodedRecord(img: Str, off: nat, e: Entry, upper: bool)
    requires GoodEntry(e) && off <= |img| && |img| + 128 <= WORD32 && off % 4 == 0
    requires EncodeEntry(e, upper) <= img[off..]
    ensures Record(img, off) == Take(off + |EncodeEntry(e, upper)|, e.path, KindOf(e))
  {
    hide Header, EncodeEntry, Layout, Slice, ParseHex, Record, Body;
    var dataOff := EntryLayout(img, off, e, upper);
    LaidOut(img, off, e, upper, dataOff, off + |EncodeEntry(e, upper)|);
  }

  lemma LaidOut(img: Str, off: nat, e: Entry, upper: bool, dataOff: nat, next: nat)
    requires GoodEntry(e) && |img| + 128 <= WORD32 && Layout(img, off, e, upper, dataOff, next)
    ensures Record(img, off) == Take(next, e.path, KindOf(e))
  {
    hide Layout, Record, Slice, ParseHex, CString;
    ModeTells(e);
    FormatStrings();
    LengthsRead(img, off, e, upper, dataOff, next);
    PartsRead(img, off, e, upper, dataOff, next);
    RecordIs(img, off, e, dataOff, next);
  }

  ghost predicate Bounds(img: Str, off: nat, e: Entry, dataOff: nat, next: nat) {
    && off % 4 == 0 && dataOff % 4 == 0 && next % 4 == 0
    && off + 111 + |e.path| <= dataOff < off + 115 + |e.path|
    && dataOff + |e.data| <= next < dataOff + |e.data| + 4 && next <= |img|
  }

  lemma PartsRead(img: Str, off: nat, e: Entry, upper: bool, dataOff: nat, next: nat)
    requires Layout(img, off, e, upper, dataOff, next) && 0 !in e.path
    ensures Bounds(img, off, e, dataOff, next)
    ensures CString(img, off + 110) == e.path && Slice(img, dataOff, |e.data|) == e.data
    ensures |e.path| >= 10 ==> (Slice(img, off + 110, 11) == TRAILER + [0] <==> e.path == TRAILER)
  {
    hide Header, Slice, CString;
    CStringOf(img, off + 110, e.path);
    if |e.path| >= 10 { NotTrailer(img, off + 110, e.path); }
    SliceOf(img, dataOff, e.data, 0, |e.data|);
    assert e.data[0..|e.data|] == e.data;
  }

  /** The offsets the parser computes, from what it reads. */
  lemma RecordIs(img: Str, off: nat, e: Entry, dataOff: nat, next: nat)
    requires |img| + 128 <= WORD32 && Bounds(img, off, e, dataOff, next)
    requires Slice(img, off, 6) == MAGIC && Mode(img, off) == ModeOf(e)
    requires NameLen(img, off) == |e.path| + 1 && DataLen(img, off) == |e.data|
    requires CString(img, off + 110) == e.path && Slice(img, dataOff, |e.data|) == e.data
    requires |e.path| >= 10 ==> (Slice(img, off + 110, 11) == TRAILER + [0] <==> e.path == TRAILER)
    requires (IsDir(ModeOf(e)) <==> e.kind == Dir) && (e.kind == Dir ==> e.data == [])
    ensures Record(img, off) == if e.path == TRAILER then Stop else Take(next, e.path, KindOf(e))
  {
    hide Slice, ParseHex, CString, CpioAlignUp, NameLen, DataLen, Mode, IsDir, W;
    AlignIs(off, off);
    AlignIs(off + 111 + |e.path|, dataOff);
    AlignIs(dataOff + |e.data|, next);
    NoCarry(|img|);
    NoCarry(off + 6);
    NoCarry(off + 110);
    NoCarry(off + 111 + |e.path|);
    NoCarry(dataOff + |e.data|);
  }

  lemma LengthsRead(img: Str, off: nat, e: Entry, upper: bool, dataOff: nat, next: nat)
    requires ModeOf(e) < WORD32 && |img| + 128 <= WORD32 && Layout(img, off, e, upper, dataOff, next)
    ensures Slice(img, off, 6) == MAGIC && Mode(img, off) == ModeOf(e)
    ensures NameLen(img, off) == |e.path| + 1 && DataLen(img, off) == |e.data|
  {
    hide Header, Slice, ParseHex, Hex;
    HeaderFields(img, off, ModeOf(e), |e.data|, |e.path| + 1, e.meta, upper);
    Hex8RoundTrip(ModeOf(e), upper);
    Hex8RoundTrip(|e.data|, upper);
    Hex8RoundTrip(|e.path| + 1, upper);
  }

  /** The trailer entry ends the run. */
  lemma TrailerStops(img: Str, off: nat, meta: Str, upper: bool)
    requires |meta| == 80 && off <= |img| && |img| + 128 <= WORD32 && off % 4 == 0
    requires EncodeEntry(TrailerEntry(meta), upper) <= img[off..]
    ensures Record(img, off) == Stop
  {
    hide Layout, Record, Slice, ParseHex, CString, EncodeEntry;
    FormatStrings();
    var e := TrailerEntry(meta);
    var dataOff := EntryLayout(img, off, e, upper);
    var next := off + |EncodeEntry(e, upper)|;
    LengthsRead(img, off, e, upper, dataOff, next);
    PartsRead(img, off, e, upper, dataOff, next);
    RecordIs(img, off, e, dataOff, next);
  }

  /** Attaching entries in order. */
  function AttachAll(t: Tree, es: seq<Entry>): (t': Tree)
    requires t != []
    ensures t' != []
    decreases |es|
  {
    if es == [] then t else AttachAll(AttachRaw(t, es[0].path, KindOf(es[0])), es[1..])
  }

  /** Mounting an archive attaches its entries, in order, and stops at the trailer. */
  lemma {:induction false} MountArchive(t: Tree, img: Str, off: nat, es: seq<Entry>, meta: Str, upper: bool, tail: Str)
    requires t != [] && GoodEntries(es) && |meta| == 80 && |img| + 128 <= WORD32
    requires off <= |img| && off % 4 == 0 && img[off..] == Archive(es, meta, upper, tail)
    ensures StopsIn(img, off, |es|) && Mount(t, img, off, |es|) == AttachAll(t, es)
    decreases |es|
  {
    hide EncodeEntry, Record, Attach, AttachRaw;
    if es == [] {
      TrailerPrefix(meta, upper, tail);
      TrailerStops(img, off, meta, upper);
    } else {
      var n := |EncodeEntry(es[0], upper)|;
      ArchiveStep(es, meta, upper, tail);
      EncodedRecord(img, off, es[0], upper);
      EntryAligned(es[0], upper);
      assert img[off + n..] == img[off..][n..];
      MountArchive(AttachRaw(t, es[0].path, KindOf(es[0])), img, off + n, es[1..], meta, upper, tail);
    }
  }

  lemma EntryAligned(e: Entry, upper: bool)
    requires |e.meta| == 80
    ensures |EncodeEntry(e, upper)| % 4 == 0
  {
    hide Header, Padded;
  }

  lemma TrailerPrefix(meta: Str, upper: bool, tail: Str)
    requires |meta| == 80
    ensures EncodeEntry(TrailerEntry(meta), upper) <= Archive([], meta, upper, tail)
  {
    hide EncodeEntry;
    var e := EncodeEntry(TrailerEntry(meta), upper);
    assert [] + e + tail == e + tail;
  }

  lemma ArchiveStep(es: seq<Entry>, meta: Str, upper: bool, tail: Str)
    requires GoodEntries(es) && |meta| == 80 && es != []
    ensures Archive(es, meta, upper, tail) == EncodeEntry(es[0], upper) + Archive(es[1..], meta, upper, tail)
    ensures Archive(es, meta, upper, tail)[|EncodeEntry(es[0], upper)|..] == Archive(es[1..], meta, upper, tail)
    ensures EncodeEntry(es[0], upper) <= Archive(es, meta, upper, tail)
  {
    hide EncodeEntry;
    var a, b, c := EncodeEntry(es[0], upper), Encode(es[1..], upper), EncodeEntry(TrailerEntry(meta), upper);
    assert a + b + c + tail == a + (b + c + tail);
  }

  /** A directory record whose name length makes the 32-bit end offset come back to the record itself. */
  function Wrapping(name: Str, meta: Str): Str
    requires |meta| == 80
  {
    Header(0x4000, 0, 0xFFFF_FF92, meta, false) + name + [0]
  }

  /** On such a record the parser stands still: it attaches the name and is back at offset 0, so the
      mount loop never ends. */
  lemma WrapStandsStill(name: Str, meta: Str)
    requires |meta| == 80 && 0 !in name && name != TRAILER && |name| + 256 <= WORD32
    ensures Record(Wrapping(name, meta), 0) == Take(0, name, Directory)
    ensures !Stops(Wrapping(name, meta))
  {
    hide Header, Slice, ParseHex, CString, CpioAlignUp, Hex, Stops;
    var img := Wrapping(name, meta);
    WrapHeader(name, meta);
    AlignIs(0, 0);
    assert img[110..110 + |name|] == name && At(img, 110 + |name|) == 0;
    CStringOf(img, 110, name);
    WrapTrailer(name, meta);
    StandsStill(img);
  }

  lemma WrapHeader(name: Str, meta: Str)
    requires |meta| == 80
    ensures var img := Wrapping(name, meta);
      && Slice(img, 0, 6) == MAGIC && Mode(img, 0) == 0x4000 && DataLen(img, 0) == 0 && NameLen(img, 0) == 0xFFFF_FF92
  {
    hide Header, Slice, ParseHex, Hex;
    var img := Wrapping(name, meta);
    assert img[0..110] == Header(0x4000, 0, 0xFFFF_FF92, meta, false);
    HeaderFields(img, 0, 0x4000, 0, 0xFFFF_FF92, meta, false);
    Hex8RoundTrip(0x4000, false);
    Hex8RoundTrip(0, false);
    Hex8RoundTrip(0xFFFF_FF92, false);
  }

  lemma WrapTrailer(name: Str, meta: Str)
    requires |meta| == 80 && 0 !in name && name != TRAILER
    ensures Slice(Wrapping(name, meta), 110, 11) != TRAILER + [0]
  {
    hide Header, Slice;
    var img := Wrapping(name, meta);
    assert img[110..110 + |name|] == name;
    if |name| >= 10 {
      NotTrailer(img, 110, name);
    } else {
      ShortSlice(img, 110 + |name|, 110);
    }
  }

  lemma ShortSlice(img: Str, i: nat, off: nat)
    requires off <= i < off + 10 && At(img, i) == 0
    ensures Slice(img, off, 11) != TRAILER + [0]
  {
    assert Slice(img, off, 11)[i - off] == 0;
    assert forall k :: 0 <= k < 10 ==> TRAILER[k] != 0;
    assert (TRAILER + [0])[i - off] == TRAILER[i - off];
  }

  lemma StandsStill(img: Str)
    requires Record(img, 0).Take? && Record(img, 0).next == 0
    ensures !Stops(img)
  {
    hide Record;
    forall k: nat ensures !StopsIn(img, 0, k) { NotAfter(img, k); }
  }

  lemma {:induction false} NotAfter(img: Str, k: nat)
    requires Record(img, 0).Take? && Record(img, 0).next == 0
    ensures !StopsIn(img, 0, k)
  {
    hide Record;
    if k > 0 { NotAfter(img, k - 1); }
  }
}
