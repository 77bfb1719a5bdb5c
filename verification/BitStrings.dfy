/** Byte strings as strings of bits, most significant bit first. */
module BitStrings {
  type Octets = seq<bv8>

  predicate Bit(b: bv8, mask: bv8) { b & mask != 0 }

  function ByteBits(b: bv8): (r: seq<bool>)
    ensures |r| == 8
  {
    [Bit(b, 0x80), Bit(b, 0x40), Bit(b, 0x20), Bit(b, 0x10), Bit(b, 8), Bit(b, 4), Bit(b, 2), Bit(b, 1)]
  }

  function Bits(buf: Octets): (r: seq<bool>)
    ensures |r| == 8 * |buf|
  {
    if |buf| == 0 then [] else Bits(buf[..|buf| - 1]) + ByteBits(buf[|buf| - 1])
  }

  function ZeroBits(n: nat): (r: seq<bool>)
    ensures |r| == n
  {
    seq(n, _ => false)
  }

  lemma BitsOfSnoc(buf: Octets, b: bv8)
    ensures Bits(buf + [b]) == Bits(buf) + ByteBits(b)
  {
    hide ByteBits;
    assert (buf + [b])[..|buf|] == buf;
  }

  lemma ByteBitsInjective(x: bv8, y: bv8)
    requires ByteBits(x) == ByteBits(y)
    ensures x == y
  {
    hide ByteBits;
    SameFlags(x, y);
    FlagsInjective(x, y);
  }

  lemma SameFlags(x: bv8, y: bv8)
    requires ByteBits(x) == ByteBits(y)
    ensures Bit(x, 0x80) == Bit(y, 0x80) && Bit(x, 0x40) == Bit(y, 0x40) && Bit(x, 0x20) == Bit(y, 0x20)
    ensures Bit(x, 0x10) == Bit(y, 0x10) && Bit(x, 8) == Bit(y, 8) && Bit(x, 4) == Bit(y, 4)
    ensures Bit(x, 2) == Bit(y, 2) && Bit(x, 1) == Bit(y, 1)
  {
    hide Bit;
    var a, b := ByteBits(x), ByteBits(y);
    assert a[0] == b[0] && a[1] == b[1] && a[2] == b[2] && a[3] == b[3];
    assert a[4] == b[4] && a[5] == b[5] && a[6] == b[6] && a[7] == b[7];
  }

  lemma FlagsInjective(x: bv8, y: bv8)
    requires Bit(x, 0x80) == Bit(y, 0x80) && Bit(x, 0x40) == Bit(y, 0x40) && Bit(x, 0x20) == Bit(y, 0x20)
    requires Bit(x, 0x10) == Bit(y, 0x10) && Bit(x, 8) == Bit(y, 8) && Bit(x, 4) == Bit(y, 4)
    requires Bit(x, 2) == Bit(y, 2) && Bit(x, 1) == Bit(y, 1)
    ensures x == y
  {
  }

  /** A byte string is known by its bits. */
  lemma {:induction false} BitsInjective(a: Octets, b: Octets)
    requires |a| == |b| && Bits(a) == Bits(b)
    ensures a == b
  {
    hide ByteBits;
    if |a| > 0 {
      var n := |a| - 1;
      assert Bits(a)[..8 * n] == Bits(a[..n]) && Bits(a)[8 * n..] == ByteBits(a[n]);
      assert Bits(b)[..8 * n] == Bits(b[..n]) && Bits(b)[8 * n..] == ByteBits(b[n]);
      BitsInjective(a[..n], b[..n]);
      ByteBitsInjective(a[n], b[n]);
      assert a == a[..n] + [a[n]] && b == b[..n] + [b[n]];
    }
  }

  lemma NoBits(buf: Octets)
    requires |buf| == 0
    ensures Bits(buf) == []
  {
  }

  lemma {:induction false} BitsOfConcat(a: Octets, b: Octets)
    ensures Bits(a + b) == Bits(a) + Bits(b)
  {
    hide ByteBits;
    if |b| == 0 {
      assert a + b == a;
    } else {
      var n := |b| - 1;
      BitsOfConcat(a, b[..n]);
      assert (a + b)[..|a + b| - 1] == a + b[..n];
    }
  }
}
