/** Small types shared by the models. */
module Common {

  datatype Option<T> = None | Some(value: T)

  type Byte = b: nat | b < 256

  function Zeros(n: nat): (z: seq<Byte>)
    ensures |z| == n && forall i :: 0 <= i < n ==> z[i] == 0
  {
    seq<Byte>(n, _ => 0)
  }

  ghost predicate NoDup(q: seq<nat>) {
    forall i, j :: 0 <= i < j < |q| ==> q[i] != q[j]
  }

  /** Bytes overwritten from an offset on. */
  function Splice(bytes: seq<Byte>, off: nat, data: seq<Byte>): (r: seq<Byte>)
    requires off + |data| <= |bytes|
    ensures |r| == |bytes|
    ensures forall o :: 0 <= o < |r| ==> r[o] == if off <= o < off + |data| then data[o - off] else bytes[o]
  {
    bytes[..off] + data + bytes[off + |data|..]
  }

  lemma SubsetSize<T>(a: set<T>, b: set<T>)
    requires a <= b
    ensures |a| <= |b| && (|a| == |b| <==> a == b)
  {
    assert b == a + (b - a);
    assert |b| == |a| + |b - a|;
  }
}
