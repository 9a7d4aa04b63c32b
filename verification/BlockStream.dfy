/** A byte stream over a block device: the DevFS cursor and its read-modify-write loops, through a
partition, against a flat array of bytes. */
module BlockStream {
  import opened Common
  import opened Bits

  /** A partition of a disk: `num` blocks of `blk` bytes from block `start` on. */
  datatype Part = Part(blk: nat, start: nat, num: nat)

  ghost predicate WellFormed(p: Part, disk: seq<seq<Byte>>) {
    && p.blk > 0 && p.start + p.num <= |disk|
    && forall i :: 0 <= i < |disk| ==> |disk[i]| == p.blk
  }

  function ByteAt(p: Part, disk: seq<seq<Byte>>, pos: nat): Byte {
    if p.blk > 0 && p.start + pos / p.blk < |disk| && pos % p.blk < |disk[p.start + pos / p.blk]|
    then disk[p.start + pos / p.blk][pos % p.blk] else 0
  }

  function Size(p: Part): nat { p.num * p.blk }

  /** The flat array the partition stands for. */
  ghost function Flat(p: Part, disk: seq<seq<Byte>>): (f: seq<Byte>)
    ensures |f| == Size(p) && forall i :: 0 <= i < Size(p) ==> f[i] == ByteAt(p, disk, i)
  {
    seq(Size(p), i requires 0 <= i < Size(p) => ByteAt(p, disk, i))
  }

  function Min(a: nat, b: nat): nat { if a <= b then a else b }

  /** How many bytes a transfer at `pos` can move before the end of the device. */
  function Room(p: Part, pos: nat, len: nat): nat {
    if pos >= Size(p) then 0 else Min(len, Size(p) - pos)
  }

  lemma CursorDivMod(blk: nat, lba: nat, off: nat)
    requires blk > 0 && off < blk
    ensures (lba * blk + off) / blk == lba && (lba * blk + off) % blk == off
  {
    ModUnique(lba * blk + off, blk, lba, off);
  }

  lemma LbaInside(p: Part, lba: nat, off: nat)
    requires p.blk > 0 && off < p.blk
    ensures lba < p.num <==> lba * p.blk + off < Size(p)
    ensures lba < p.num ==> lba * p.blk + p.blk <= Size(p)
  {
    if lba < p.num {
      assert (lba + 1) * p.blk <= p.num * p.blk;
    } else {
      assert lba * p.blk >= p.num * p.blk;
    }
  }

  /** One block's slice is the flat array's slice. */
  lemma ChunkRead(p: Part, disk: seq<seq<Byte>>, lba: nat, off: nat, n: nat)
    requires WellFormed(p, disk) && lba < p.num && off + n <= p.blk && off < p.blk
    ensures lba * p.blk + off + n <= Size(p)
    ensures disk[p.start + lba][off..off + n] == Flat(p, disk)[lba * p.blk + off..lba * p.blk + off + n]
  {
    LbaInside(p, lba, off);
    var pos := lba * p.blk + off;
    var a, b := disk[p.start + lba][off..off + n], Flat(p, disk)[pos..pos + n];
    forall i | 0 <= i < n ensures a[i] == b[i] {
      FlatAt(p, disk, lba, off + i);
    }
  }

  lemma FlatAt(p: Part, disk: seq<seq<Byte>>, lba: nat, o: nat)
    requires WellFormed(p, disk) && lba < p.num && o < p.blk
    ensures lba * p.blk + o < Size(p) && Flat(p, disk)[lba * p.blk + o] == disk[p.start + lba][o]
  {
    LbaInside(p, lba, o);
    CursorDivMod(p.blk, lba, o);
  }

  /** Patching one block patches the flat array at the cursor and nowhere else. */
  lemma ChunkWrite(p: Part, disk: seq<seq<Byte>>, lba: nat, off: nat, src: seq<Byte>)
    requires WellFormed(p, disk) && lba < p.num && off + |src| <= p.blk && off < p.blk
    ensures lba * p.blk + off + |src| <= Size(p)
    ensures var disk' := disk[p.start + lba := Splice(disk[p.start + lba], off, src)];
      WellFormed(p, disk') && Flat(p, disk') == Splice(Flat(p, disk), lba * p.blk + off, src)
  {
    LbaInside(p, lba, off);
    var disk' := disk[p.start + lba := Splice(disk[p.start + lba], off, src)];
    var pos := lba * p.blk + off;
    forall i | 0 <= i < Size(p) ensures ByteAt(p, disk', i) == Splice(Flat(p, disk), pos, src)[i] {
      PatchedAt(p, disk, lba, off, src, i);
    }
  }

  lemma PatchedAt(p: Part, disk: seq<seq<Byte>>, lba: nat, off: nat, src: seq<Byte>, i: nat)
    requires WellFormed(p, disk) && lba < p.num && off + |src| <= p.blk && off < p.blk && i < Size(p)
    ensures lba * p.blk + off + |src| <= Size(p)
    ensures var disk' := disk[p.start + lba := Splice(disk[p.start + lba], off, src)];
      ByteAt(p, disk', i) == Splice(Flat(p, disk), lba * p.blk + off, src)[i]
  {
    hide Flat, ByteAt, Splice, WellFormed, Size;
    PatchWell(p, disk, lba, off, src);
    LbaInside(p, lba, off);
    var l, o := Split(p.blk, i);
    LbaInside(p, l, o);
    var disk' := disk[p.start + lba := Splice(disk[p.start + lba], off, src)];
    FlatAt(p, disk, l, o);
    FlatAt(p, disk', l, o);
    FlatIs(p, disk', i);
    Which(p.blk, l, o, lba, off, |src|);
    BlockLength(p, disk, l);
    Combine(Flat(p, disk), disk, p.start + lba, off, src, p.start + l, o, lba * p.blk + off, i);
  }

  lemma Split(blk: nat, i: nat) returns (l: nat, o: nat)
    requires blk > 0
    ensures o < blk && i == l * blk + o
  {
    l, o := i / blk, i % blk;
  }

  lemma Combine(f: seq<Byte>, disk: seq<seq<Byte>>, b: nat, off: nat, src: seq<Byte>, c: nat, o: nat, pos: nat, i: nat)
    requires b < |disk| && c < |disk| && off + |src| <= |disk[b]| && o < |disk[c]|
    requires pos + |src| <= |f| && i < |f| && f[i] == disk[c][o]
    requires (c < b ==> i < pos) && (c > b ==> i >= pos + |src|) && (c == b ==> i - pos == o - off)
    ensures disk[b := Splice(disk[b], off, src)][c][o] == Splice(f, pos, src)[i]
  {
  }

  lemma PatchWell(p: Part, disk: seq<seq<Byte>>, lba: nat, off: nat, src: seq<Byte>)
    requires WellFormed(p, disk) && lba < p.num && off + |src| <= p.blk
    ensures p.blk > 0 && p.start + p.num <= |disk| && |disk[p.start + lba]| == p.blk
    ensures WellFormed(p, disk[p.start + lba := Splice(disk[p.start + lba], off, src)])
  {
  }

  lemma FlatIs(p: Part, disk: seq<seq<Byte>>, i: nat)
    requires i < Size(p)
    ensures Flat(p, disk)[i] == ByteAt(p, disk, i)
  {
  }

  lemma Which(blk: nat, l: nat, o: nat, lba: nat, off: nat, n: nat)
    requires o < blk && off + n <= blk
    ensures l < lba ==> l * blk + o < lba * blk + off
    ensures l > lba ==> l * blk + o >= lba * blk + off + n
  {
    if l < lba {
      assert (l + 1) * blk <= lba * blk;
    } else if l > lba {
      assert l * blk >= (lba + 1) * blk;
    }
  }

  /** An open block device: the streaming cursor (`lba`, `offset`) and the file's own offset. */
  class DevFile {
    const part: Part
    var disk: seq<seq<Byte>>
    var lba: nat
    var offset: nat
    var fileOffset: int

    constructor (part: Part, disk: seq<seq<Byte>>)
      requires WellFormed(part, disk)
      ensures this.part == part && this.disk == disk && Valid() && Pos() == 0
    {
      this.part := part;
      this.disk := disk;
      lba, offset, fileOffset := 0, 0, 0;
    }

    ghost predicate Valid()
      reads this
    {
      WellFormed(part, disk) && offset < part.blk
    }

    ghost function Pos(): nat
      reads this
    {
      lba * part.blk + offset
    }

    /** The partition's block read. The driver is asked for the blocks up to the partition's end and answers
        `answer`, at most that many; a negative answer counts as none. Nothing past the partition is read. */
    method BlkPartReadBlocks(l: nat, count: int, answer: int) returns (got: nat, blocks: seq<seq<Byte>>)
      requires Valid() && (count > 0 && l < part.num ==> answer <= Asked(l, count))
      ensures got == if count <= 0 || l >= part.num || answer < 0 then 0 else answer
      ensures got > 0 ==> l + got <= part.num && blocks == disk[part.start + l..part.start + l + got]
      ensures got == 0 ==> blocks == []
    {
      if count <= 0 || l >= part.num {
        return 0, [];
      }
      got := if answer < 0 then 0 else answer;
      blocks := disk[part.start + l..part.start + l + got];
    }

    /** The partition's block write, with the driver's answer as for reading: the blocks it took change, and
        no other block of the disk. */
    method BlkPartWriteBlocks(l: nat, blocks: seq<seq<Byte>>, answer: int) returns (put: nat)
      requires Valid() && forall i :: 0 <= i < |blocks| ==> |blocks[i]| == part.blk
      requires blocks != [] && l < part.num ==> answer <= Asked(l, |blocks|)
      modifies this`disk
      ensures Valid() && |disk| == |old(disk)|
      ensures put == if blocks == [] || l >= part.num || answer < 0 then 0 else answer
      ensures put > 0 ==> l + put <= part.num && put <= |blocks|
      ensures put == 0 ==> disk == old(disk)
      ensures forall i :: 0 <= i < |disk| ==>
        disk[i] == if part.start + l <= i < part.start + l + put then blocks[i - part.start - l] else old(disk)[i]
    {
      if blocks == [] || l >= part.num {
        return 0;
      }
      put := if answer < 0 then 0 else answer;
      var at := part.start + l;
      disk := disk[..at] + blocks[..put] + disk[at + put..];
    }

    /** How many blocks the driver is asked for: the count, cut at the partition's end. */
    function Asked(l: nat, count: int): int
      requires l < part.num
    {
      if count > part.num - l then part.num - l else count
    }

    /** One block, as the stream asks for it, from a driver that serves every block it has. */
    method ReadBlock(l: nat) returns (got: nat, block: seq<Byte>)
      requires Valid()
      ensures got == 1 <==> l < part.num
      ensures got == 1 ==> block == disk[part.start + l]
      ensures got == 0 || got == 1
    {
      var blocks;
      got, blocks := BlkPartReadBlocks(l, 1, 1);
      block := if got == 1 then blocks[0] else [];
    }

    method WriteBlock(l: nat, block: seq<Byte>) returns (put: nat)
      requires Valid() && |block| == part.blk
      modifies this`disk
      ensures put == 1 <==> l < part.num
      ensures put != 1 ==> put == 0 && disk == old(disk)
      ensures put == 1 ==> disk == old(disk)[part.start + l := block]
    {
      put := BlkPartWriteBlocks(l, [block], 1);
    }

    method Advance(n: nat)
      requires Valid() && offset + n <= part.blk
      modifies this`lba, this`offset
      ensures Valid() && Pos() == old(Pos()) + n
      ensures offset == 0 || (lba == old(lba) && offset == old(offset) + n)
    {
      offset := offset + n;
      if offset >= part.blk {
        offset := 0;
        lba := lba + 1;
      }
    }

    /** Reads up to `len` bytes; `buffers` bounds how many block buffers the heap can still give. The
        answer is the flat array's bytes at the cursor, cut at the end of the device. */
    method Read(len: int, buffers: nat) returns (r: int, data: seq<Byte>)
      requires Valid()
      modifies this`lba, this`offset, this`fileOffset
      ensures Valid()
      ensures len <= 0 ==> r == -1 && data == [] && Pos() == old(Pos()) && fileOffset == old(fileOffset)
      ensures |data| <= (if len <= 0 then 0 else Room(part, old(Pos()), len))
      ensures ReadAt(part, disk, old(Pos()), data) && Pos() == old(Pos()) + |data|
      ensures r == |data| || (r == -1 && data == [])
      ensures len > 0 && buffers >= len ==>
        r == |data| == Room(part, old(Pos()), len) && fileOffset == old(fileOffset) + r
    {
      hide Flat, WellFormed, Room, ReadAt;
      data := [];
      StartRead(part, disk, Pos());
      if len <= 0 {
        return -1, [];
      }
      RoomSoFar(part, Pos(), len, 0);
      var remaining: nat := len;
      var left := buffers;
      ghost var from := Pos();
      while remaining > 0
        invariant Valid() && remaining + |data| == len && Pos() == from + |data|
        invariant ReadAt(part, disk, from, data) && (data != [] ==> from + |data| <= Size(part))
        invariant buffers >= len ==> left >= remaining
        invariant fileOffset == old(fileOffset)
      {
        RoomSoFar(part, from, len, |data|);
        var n := Min(remaining, part.blk - offset);
        if left == 0 {
          return if |data| > 0 then |data| else -1, data;
        }
        left := left - 1;
        var got, block := ReadBlock(lba);
        LbaInside(part, lba, offset);
        if got != 1 {
          break;
        }
        BlockLength(part, disk, lba);
        ChunkRead(part, disk, lba, offset, n);
        ExtendRead(part, disk, from, data, block[offset..offset + n]);
        data := data + block[offset..offset + n];
        Advance(n);
        remaining := remaining - n;
      }
      RoomSoFar(part, from, len, |data|);
      fileOffset := fileOffset + |data|;
      r := |data|;
    }

    /** Writes `src` at the cursor: the flat array is patched with the `n` bytes that fit and nothing
        else in it changes; blocks outside the partition are never touched. */
    method Write(src: seq<Byte>, buffers: nat) returns (r: int, n: nat)
      requires Valid()
      modifies this
      ensures Valid() && Outside(part, old(disk), disk)
      ensures src == [] ==> r == -1 && n == 0
      ensures n <= Room(part, old(Pos()), |src|) && Pos() == old(Pos()) + n
      ensures Written(part, old(disk), disk, old(Pos()), src, n)
      ensures r == n || (r == -1 && n == 0)
      ensures src != [] && buffers >= |src| ==>
        r == n == Room(part, old(Pos()), |src|) && fileOffset == old(fileOffset) + r
    {
      hide Flat, Written, Outside, WellFormed, Room;
      n := 0;
      StartWrite(part, disk, Pos(), src);
      RoomSoFar(part, Pos(), |src|, 0);
      if src == [] {
        return -1, 0;
      }
      var left := buffers;
      ghost var from := Pos();
      while n < |src|
        invariant Valid() && n <= |src| && Pos() == from + n && Outside(part, old(disk), disk)
        invariant Written(part, old(disk), disk, from, src, n) && (n > 0 ==> from + n <= Size(part))
        invariant buffers >= |src| ==> left >= |src| - n
        invariant fileOffset == old(fileOffset)
      {
        RoomSoFar(part, from, |src|, n);
        var m := Min(|src| - n, part.blk - offset);
        if left == 0 {
          return if n > 0 then n else -1, n;
        }
        left := left - 1;
        ghost var was := disk;
        var ok := WriteChunk(src[n..n + m]);
        if !ok {
          break;
        }
        ExtendWrite(part, old(disk), was, disk, from, src, n, m);
        n := n + m;
      }
      RoomSoFar(part, from, |src|, n);
      fileOffset := fileOffset + n;
      r := n;
    }

    /** One turn of the write loop: read the block, patch it, write it back. */
    method WriteChunk(chunk: seq<Byte>) returns (ok: bool)
      requires Valid() && 0 < |chunk| && offset + |chunk| <= part.blk
      modifies this`disk, this`lba, this`offset
      ensures Valid() && Outside(part, old(disk), disk)
      ensures ok <==> old(Pos()) < Size(part)
      ensures !ok ==> disk == old(disk) && Pos() == old(Pos())
      ensures ok ==> && Pos() == old(Pos()) + |chunk| <= Size(part)
                     && Flat(part, disk) == Splice(Flat(part, old(disk)), old(Pos()), chunk)
    {
      LbaInside(part, lba, offset);
      var got, block := ReadBlock(lba);
      if got != 1 {
        block := seq(part.blk, _ => 0);
      } else {
        ChunkWrite(part, disk, lba, offset, chunk);
      }
      var put := WriteBlock(lba, Splice(block, offset, chunk));
      if put != 1 {
        return false;
      }
      Advance(|chunk|);
      return true;
    }

    /** Seek from the start; negative targets clamp to 0. */
    method SeekSet(off: int) returns (r: nat)
      requires Valid()
      modifies this`lba, this`offset, this`fileOffset
      ensures Valid() && r == (if off < 0 then 0 else off) && Pos() == r && fileOffset == r
    {
      r := if off < 0 then 0 else off;
      fileOffset := r;
      lba := r / part.blk;
      offset := r % part.blk;
    }
  }

  lemma RoomSoFar(p: Part, from: nat, len: nat, done: nat)
    requires done <= len && (done > 0 ==> from + done <= Size(p))
    ensures done <= Room(p, from, len)
    ensures from + done >= Size(p) || done == len ==> done == Room(p, from, len)
  {
  }

  /** The bytes of the flat array at `from`. */
  ghost predicate ReadAt(p: Part, disk: seq<seq<Byte>>, from: nat, data: seq<Byte>) {
    data == [] || (from + |data| <= Size(p) && data == Flat(p, disk)[from..from + |data|])
  }

  lemma StartRead(p: Part, disk: seq<seq<Byte>>, from: nat)
    ensures ReadAt(p, disk, from, [])
  {
  }

  lemma BlockLength(p: Part, disk: seq<seq<Byte>>, lba: nat)
    requires WellFormed(p, disk) && lba < p.num
    ensures p.start + lba < |disk| && |disk[p.start + lba]| == p.blk
  {
  }

  lemma ExtendRead(p: Part, disk: seq<seq<Byte>>, from: nat, data: seq<Byte>, more: seq<Byte>)
    requires ReadAt(p, disk, from, data) && from + |data| + |more| <= Size(p)
    requires more == Flat(p, disk)[from + |data|..from + |data| + |more|]
    ensures ReadAt(p, disk, from, data + more)
  {
  }

  /** Only blocks of the partition differ. */
  ghost predicate Outside(p: Part, disk: seq<seq<Byte>>, disk': seq<seq<Byte>>) {
    && |disk'| == |disk|
    && forall i :: 0 <= i < |disk| && !(p.start <= i < p.start + p.num) ==> disk'[i] == disk[i]
  }

  /** The flat array with the first `n` bytes of `src` at `from`. */
  ghost predicate Written(p: Part, disk: seq<seq<Byte>>, disk': seq<seq<Byte>>, from: nat, src: seq<Byte>, n: nat) {
    && n <= |src|
    && (n == 0 ==> Flat(p, disk') == Flat(p, disk))
    && (n > 0 ==> from + n <= Size(p) && Flat(p, disk') == Splice(Flat(p, disk), from, src[..n]))
  }

  lemma StartWrite(p: Part, disk: seq<seq<Byte>>, from: nat, src: seq<Byte>)
    ensures Written(p, disk, disk, from, src, 0) && Outside(p, disk, disk)
  {
  }

  lemma ExtendWrite(p: Part, disk0: seq<seq<Byte>>, disk: seq<seq<Byte>>, disk': seq<seq<Byte>>, from: nat,
                    src: seq<Byte>, n: nat, m: nat)
    requires Written(p, disk0, disk, from, src, n) && n + m <= |src| && m > 0 && from + n + m <= Size(p)
    requires Flat(p, disk') == Splice(Flat(p, disk), from + n, src[n..n + m])
    requires Outside(p, disk0, disk) && Outside(p, disk, disk')
    ensures Written(p, disk0, disk', from, src, n + m) && Outside(p, disk0, disk')
  {
    assert src[..n + m] == src[..n] + src[n..n + m];
  }

  /** Reading back: what was written is read at its place, and every range outside it reads as
      before. */
  lemma ReadBack(p: Part, disk: seq<seq<Byte>>, disk': seq<seq<Byte>>, from: nat, src: seq<Byte>, n: nat,
                 at: nat, len: nat)
    requires Written(p, disk, disk', from, src, n) && at + len <= Size(p)
    ensures ReadAt(p, disk', from, src[..n])
    ensures at + len <= from || from + n <= at ==> Flat(p, disk')[at..at + len] == Flat(p, disk)[at..at + len]
  {
    hide Flat;
    if n > 0 {
      var f, f' := Flat(p, disk), Flat(p, disk');
      assert f'[from..from + n] == src[..n];
      if at + len <= from || from + n <= at {
        assert forall i :: at <= i < at + len ==> f'[i] == f[i];
      }
    }
  }
}
