/** Fixed-width integers and failure-carrying results shared by every module. */
module Common {

  const TWO_63: int := 0x8000_0000_0000_0000
  const TWO_64: int := 0x1_0000_0000_0000_0000

  type Byte = x: int | 0 <= x < 256
  type Uint64 = x: int | 0 <= x < TWO_64

  type PeerID = string

  /** A peer's metadata: its sequence number and its attestation subnets. */
  datatype MetaData = MetaData(seqNumber: Uint64, attnets: seq<Byte>)

  datatype Option<+T> = None | Some(value: T)

  datatype Result<+T, +E> = Success(value: T) | Failure(error: E)

  function Min(a: int, b: int): int {
    if a < b then a else b
  }

  function Max(a: int, b: int): int {
    if a < b then b else a
  }

  /** Go's conversion of a uint64 to a (64-bit) int. */
  function AsInt(x: Uint64): int {
    if x < TWO_63 then x else x - TWO_64
  }

  /** Go's wrap-around of a uint64 sum or product. */
  function Wrap64(x: int): Uint64 {
    x % TWO_64
  }

  lemma WrapBelow(x: nat)
    ensures Wrap64(x) <= x
    ensures x < TWO_64 ==> Wrap64(x) == x
    ensures TWO_64 <= x < 2 * TWO_64 ==> Wrap64(x) == x - TWO_64
  {
  }

  lemma Quotient(x: nat, m: nat, q: nat)
    requires m > 0 && q * m <= x < (q + 1) * m
    ensures x / m == q
  {
    var d := x / m;
    assert d * m <= x < (d + 1) * m;
    Fewer(d, q + 1, m);
    Fewer(q, d + 1, m);
  }

  lemma Fewer(a: nat, b: nat, m: nat)
    ensures a * m < b * m ==> a < b
  {
    if b <= a {
      assert a * m == b * m + (a - b) * m;
    }
  }

  /** Go's copy(dst[..limit], src): as many bytes as fit. */
  method CopyInto(dst: array<Byte>, limit: nat, src: seq<Byte>) returns (n: nat)
    requires limit <= dst.Length
    modifies dst
    ensures n == Min(limit, |src|)
    ensures dst[..] == src[..n] + old(dst[n..])
  {
    n := Min(limit, |src|);
    for i := 0 to n
      invariant dst[..i] == src[..i]
      invariant dst[i..] == old(dst[i..])
    {
      dst[i] := src[i];
    }
    assert dst[..] == dst[..n] + dst[n..];
  }
}
