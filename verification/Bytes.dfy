/** Bytes, byte strings, and the outcomes of routines that can fail. */
module Bytes {
  import opened Arithmetic

  type byte = x: int | 0 <= x < 256

  type ByteVector = seq<byte>

  datatype Option<+T> = None | Some(value: T)

  datatype Result<+T, +E> = Ok(value: T) | Err(error: E)

  function Zeros(n: nat): (z: ByteVector)
    ensures |z| == n
  {
    seq(n, _ => 0)
  }

  /** The number a byte string spells, most significant byte first. */
  function BigEndian(b: ByteVector): (n: nat) {
    if |b| == 0 then 0 else 256 * BigEndian(b[..|b| - 1]) + b[|b| - 1]
  }

  /** The k-byte string that spells n modulo 256^k. */
  function ToBigEndian(n: nat, k: nat): (b: ByteVector)
    ensures |b| == k
  {
    if k == 0 then [] else ToBigEndian(n / 256, k - 1) + [n % 256]
  }

  lemma {:induction false} BigEndianBound(b: ByteVector)
    ensures BigEndian(b) < Power256(|b|)
  {
    if |b| > 0 {
      BigEndianBound(b[..|b| - 1]);
    }
  }

  lemma {:induction false} ToBigEndianSpells(n: nat, k: nat)
    requires n < Power256(k)
    ensures BigEndian(ToBigEndian(n, k)) == n
  {
    if k > 0 {
      ToBigEndianSpells(n / 256, k - 1);
      assert ToBigEndian(n, k)[..k - 1] == ToBigEndian(n / 256, k - 1);
    }
  }

  lemma {:induction false} BigEndianIsInjective(a: ByteVector, b: ByteVector)
    requires |a| == |b| && BigEndian(a) == BigEndian(b)
    ensures a == b
  {
    if |a| > 0 {
      var n := |a| - 1;
      assert BigEndian(a[..n]) == BigEndian(a) / 256 && a[n] == BigEndian(a) % 256;
      assert BigEndian(b[..n]) == BigEndian(b) / 256 && b[n] == BigEndian(b) % 256;
      BigEndianIsInjective(a[..n], b[..n]);
      assert a == a[..n] + [a[n]] && b == b[..n] + [b[n]];
    }
  }
}
