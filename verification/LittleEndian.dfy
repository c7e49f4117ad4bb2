/** Numbers as bytes in memory, least significant byte first. */
module LittleEndian {

  import opened Basics
  import opened Bitwise

  /** The number some bytes stand for. */
  function FromBytes(b: seq<byte>): nat {
    if b == [] then 0 else b[0] + 256 * FromBytes(b[1..])
  }

  function ToBytes(n: nat, k: nat): (b: seq<byte>)
    ensures |b| == k
    decreases k
  {
    if k == 0 then [] else [n % 256] + ToBytes(n / 256, k - 1)
  }

  function Pow256(k: nat): nat {
    if k == 0 then 1 else 256 * Pow256(k - 1)
  }

  lemma {:induction false} BytesRoundTrip(n: nat, k: nat)
    requires n < Pow256(k)
    ensures FromBytes(ToBytes(n, k)) == n
    decreases k
  {
    if k > 0 {
      BytesRoundTrip(n / 256, k - 1);
      assert ToBytes(n, k)[1..] == ToBytes(n / 256, k - 1);
    }
  }

  lemma {:induction false} ZeroBytes(n: nat)
    ensures FromBytes(seq(n, _ => 0)) == 0
  {
    if n > 0 {
      var z: seq<byte> := seq(n, _ => 0);
      assert z[1..] == seq(n - 1, _ => 0);
      ZeroBytes(n - 1);
    }
  }

  lemma {:induction false} FromBytesBound(b: seq<byte>)
    ensures FromBytes(b) < Pow256(|b|)
  {
    if b != [] { FromBytesBound(b[1..]); }
  }

  /** A signed number in two's complement. */
  function Encode(v: int, k: nat): (b: seq<byte>)
    requires Fits(v, k)
    ensures |b| == k
  {
    ToBytes(if v < 0 then v + Pow256(k) else v, k)
  }

  function Decode(b: seq<byte>): int {
    var n := FromBytes(b);
    if 2 * n < Pow256(|b|) then n else n - Pow256(|b|)
  }

  /** The numbers k bytes can hold. */
  predicate Fits(v: int, k: nat) {
    0 <= 2 * v + Pow256(k) && 2 * v < Pow256(k)
  }

  lemma DecodeEncode(v: int, k: nat)
    requires Fits(v, k)
    ensures Decode(Encode(v, k)) == v
  {
    BytesRoundTrip(if v < 0 then v + Pow256(k) else v, k);
  }

  lemma DecodeFits(b: seq<byte>)
    ensures Fits(Decode(b), |b|)
  {
    FromBytesBound(b);
  }
}
