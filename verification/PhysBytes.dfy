/** Physical memory by bytes: frames of 512 little-endian words. */
module PhysBytes {
  import opened Common
  import opened PageTables

  /** Byte `k` of a little-endian word. */
  function ByteOf(w: nat, k: nat): Byte { if k == 0 then w % 256 else ByteOf(w / 256, k - 1) }

  function WordOf(b: seq<Byte>): nat { if b == [] then 0 else b[0] + 256 * WordOf(b[1..]) }

  lemma {:induction false} WordByte(b: seq<Byte>, k: nat)
    requires k < |b|
    ensures ByteOf(WordOf(b), k) == b[k]
  {
    var rest := WordOf(b[1..]);
    assert (b[0] + 256 * rest) % 256 == b[0] && (b[0] + 256 * rest) / 256 == rest;
    if k > 0 { WordByte(b[1..], k - 1); }
  }

  function PageBytes(words: seq<nat>): (r: seq<Byte>)
    requires |words| == 512
    ensures |r| == 4096
  {
    seq<Byte>(4096, o requires 0 <= o < 4096 => ByteOf(words[o / 8], o % 8))
  }

  function Packed(bytes: seq<Byte>): (r: seq<nat>)
    requires |bytes| == 4096
    ensures |r| == 512
  {
    seq<nat>(512, i requires 0 <= i < 512 => WordOf(bytes[8 * i..8 * i + 8]))
  }

  lemma PackedBytes(bytes: seq<Byte>)
    requires |bytes| == 4096
    ensures PageBytes(Packed(bytes)) == bytes
  {
    hide WordOf, ByteOf;
    var r := PageBytes(Packed(bytes));
    forall o | 0 <= o < 4096 ensures r[o] == bytes[o] {
      var i := o / 8;
      WordByte(bytes[8 * i..8 * i + 8], o % 8);
      assert bytes[8 * i..8 * i + 8][o % 8] == bytes[o];
    }
  }

  lemma ZeroBytes(o: nat)
    requires o < 4096
    ensures PageBytes(ZeroFrame())[o] == 0
  {
    assert ZeroFrame()[o / 8] == 0;
    ZeroByte(o % 8);
  }

  lemma {:induction false} ZeroByte(k: nat)
    ensures ByteOf(0, k) == 0
  {
    if k > 0 { ZeroByte(k - 1); }
  }

  ghost predicate WholeFrame(mem: Mem, f: nat) { f in mem && |mem[f]| == 512 }

  /** The byte at a physical address; outside memory it reads as zero. */
  ghost function PhysByte(mem: Mem, a: nat): Byte {
    if WholeFrame(mem, a / 4096) then PageBytes(mem[a / 4096])[a % 4096] else 0
  }

  /** Every byte of a range lies in memory. */
  ghost predicate Backed(mem: Mem, pa: nat, n: nat) { forall a: nat :: pa <= a < pa + n ==> WholeFrame(mem, a / 4096) }

  ghost predicate SameShape(mem: Mem, mem': Mem) {
    mem'.Keys == mem.Keys && forall f :: f in mem ==> |mem'[f]| == |mem[f]|
  }

  /** Memory after storing bytes at a physical address: those bytes, all others as before, and every frame
      the range does not reach word for word. */
  ghost predicate Stored(mem: Mem, mem': Mem, pa: nat, data: seq<Byte>) {
    && SameShape(mem, mem')
    && (forall a: nat :: PhysByte(mem', a) == if pa <= a < pa + |data| then data[a - pa] else PhysByte(mem, a))
    && (forall f :: f in mem && (f * 4096 + 4096 <= pa || pa + |data| <= f * 4096) ==> mem'[f] == mem[f])
  }

  lemma StoredNothing(mem: Mem, pa: nat)
    ensures Stored(mem, mem, pa, [])
  {
    hide PhysByte;
  }

  lemma StoredInFrame(mem: Mem, pa: nat, data: seq<Byte>, words: seq<nat>)
    requires WholeFrame(mem, pa / 4096) && 0 < |data| <= 4096 - pa % 4096 && |words| == 512
    requires PageBytes(words) == Splice(PageBytes(mem[pa / 4096]), pa % 4096, data)
    ensures Stored(mem, mem[pa / 4096 := words], pa, data)
  {
    hide PageBytes, Splice;
    var f, mem' := pa / 4096, mem[pa / 4096 := words];
    forall a: nat ensures PhysByte(mem', a) == if pa <= a < pa + |data| then data[a - pa] else PhysByte(mem, a) {
      if a / 4096 == f { OffsetIn(pa, a); } else { OtherFrame(pa, a, |data|); }
    }
    assert mem'.Keys == mem.Keys;
    assert f * 4096 <= pa < f * 4096 + 4096;
  }

  lemma OffsetIn(pa: nat, a: nat)
    requires a / 4096 == pa / 4096
    ensures a % 4096 - pa % 4096 == a - pa
  {
  }

  lemma OtherFrame(pa: nat, a: nat, n: nat)
    requires a / 4096 != pa / 4096 && pa % 4096 + n <= 4096
    ensures !(pa <= a < pa + n)
  {
  }

  lemma StoredTrans(m0: Mem, m1: Mem, m2: Mem, pa: nat, d1: seq<Byte>, d2: seq<Byte>)
    requires Stored(m0, m1, pa, d1) && Stored(m1, m2, pa + |d1|, d2)
    ensures Stored(m0, m2, pa, d1 + d2)
  {
    hide PhysByte;
    forall a: nat ensures PhysByte(m2, a) == if pa <= a < pa + |d1 + d2| then (d1 + d2)[a - pa] else PhysByte(m0, a) {
      assert PhysByte(m1, a) == if pa <= a < pa + |d1| then d1[a - pa] else PhysByte(m0, a);
    }
  }

  lemma BackedStays(mem: Mem, mem': Mem, pa: nat, n: nat)
    requires Backed(mem, pa, n) && SameShape(mem, mem')
    ensures Backed(mem', pa, n)
  {
    forall a: nat | pa <= a < pa + n ensures WholeFrame(mem', a / 4096) {
      var f := a / 4096;
      assert WholeFrame(mem, f);
    }
  }

  /** A store that fills from the start of one frame is a write of that frame. */
  lemma StoredOneFrame(mem: Mem, mem': Mem, f: nat, data: seq<Byte>)
    requires WholeFrame(mem, f) && Stored(mem, mem', f * 4096, data) && 0 < |data| <= 4096
    ensures WholeFrame(mem', f) && mem' == mem[f := mem'[f]]
    ensures forall o :: 0 <= o < 4096 ==>
      PageBytes(mem'[f])[o] == if o < |data| then data[o] else PageBytes(mem[f])[o]
  {
    hide PageBytes;
    forall g | g in mem && g != f ensures mem'[g] == mem[g] { Apart(f, g); }
    forall o | 0 <= o < 4096 ensures PageBytes(mem'[f])[o] == if o < |data| then data[o] else PageBytes(mem[f])[o] {
      var a := f * 4096 + o;
      assert a / 4096 == f && a % 4096 == o;
      assert PhysByte(mem', a) == if f * 4096 <= a < f * 4096 + |data| then data[a - f * 4096] else PhysByte(mem, a);
    }
  }

  lemma Apart(f: nat, g: nat)
    requires f != g
    ensures g * 4096 + 4096 <= f * 4096 || f * 4096 + 4096 <= g * 4096
  {
  }
}
