/** The cipher-based MAC of cmac.cpp, with the block cipher abstract, against NIST SP 800-38B:
    the subkeys of section 6.1 and the MAC generation of section 6.2. */
module Cmac {
  import opened Arithmetic
  import opened BitStrings

  // ----- bytes -----

  function Xor8(x: bv8, y: bv8): bv8 { x ^ y }

  predicate Top(b: bv8) { b & 0x80 != 0 }

  function Left(b: bv8): bv8 { b << 1 }

  function CarryIn(b: bv8, carry: bool): bv8 { b | (if carry then 0x01 else 0x00) }

  /** A byte shifted left with a bit carried in. */
  function ShiftByte(b: bv8, carry: bool): bv8 { (b << 1) | (if carry then 0x01 else 0x00) }

  function XorBytes(a: Octets, b: Octets): (r: Octets)
    requires |a| == |b|
    ensures |r| == |a|
  {
    seq(|a|, i requires 0 <= i < |a| => Xor8(a[i], b[i]))
  }

  function ZeroBytes(n: nat): (z: Octets)
    ensures |z| == n && forall i :: 0 <= i < n ==> z[i] == 0
  {
    seq(n, _ => 0)
  }

  // ----- shifting a byte string -----

  /** The string shifted left by one bit, with a bit carried in at the right. */
  function ShiftIn(buf: Octets, carry: bool): (r: Octets)
    ensures |r| == |buf|
  {
    if |buf| == 0 then []
    else ShiftIn(buf[..|buf| - 1], Top(buf[|buf| - 1])) + [ShiftByte(buf[|buf| - 1], carry)]
  }

  function XorLast(buf: Octets, x: bv8): (r: Octets)
    requires |buf| > 0
    ensures |r| == |buf|
  {
    buf[|buf| - 1 := Xor8(buf[|buf| - 1], x)]
  }

  lemma {:induction false} ShiftInAt(buf: Octets, carry: bool, i: nat)
    requires i < |buf|
    ensures ShiftIn(buf, carry)[i] == ShiftByte(buf[i], if i + 1 < |buf| then Top(buf[i + 1]) else carry)
  {
    hide Top, ShiftByte;
    if i + 1 < |buf| {
      ShiftInAt(buf[..|buf| - 1], Top(buf[|buf| - 1]), i);
    }
  }

  /** shift_string: every byte is shifted in place and takes the top bit of its right neighbour. */
  method ShiftString(buf: Octets, xorparam: bv8) returns (r: Octets)
    requires |buf| > 0
    ensures r == XorLast(ShiftIn(buf, false), xorparam)
  {
    hide Top, Xor8, Left, CarryIn, ShiftByte;
    var n := |buf|;
    var ret := new bv8[n](i requires 0 <= i < n => buf[i]);
    for i := 0 to n - 1
      invariant ret[..i] == ShiftIn(buf, false)[..i] && ret[i..] == buf[i..]
    {
      assert ret[i] == buf[i] && ret[i + 1] == buf[i + 1];
      ShiftInAt(buf, false, i);
      ret[i] := Left(ret[i]);
      ret[i] := CarryIn(ret[i], Top(ret[i + 1]));
      ShiftedByteParts(buf[i], Top(buf[i + 1]));
    }
    ShiftInAt(buf, false, n - 1);
    ShiftedByteParts(buf[n - 1], false);
    assert ret[n - 1] == buf[n - 1];
    ret[n - 1] := Left(ret[n - 1]);
    assert ret[..] == ShiftIn(buf, false);
    if xorparam != 0x00 {
      ret[n - 1] := Xor8(ret[n - 1], xorparam);
    } else {
      XorWithZero(ret[n - 1]);
    }
    r := ret[..];
  }

  lemma ShiftedByteParts(b: bv8, carry: bool)
    ensures ShiftByte(b, carry) == CarryIn(Left(b), carry)
    ensures ShiftByte(b, false) == Left(b)
  {
  }

  lemma XorWithZero(b: bv8)
    ensures Xor8(b, 0) == b
  {
  }

  // ----- shifting is doubling -----

  function Number(buf: Octets): nat {
    if |buf| == 0 then 0 else 256 * Number(buf[..|buf| - 1]) + buf[|buf| - 1] as nat
  }

  function BitValue(b: bool): nat { if b then 1 else 0 }

  lemma ByteDoubles(b: bv8, carry: bool)
    ensures 256 * BitValue(Top(b)) + ShiftByte(b, carry) as nat == 2 * (b as nat) + BitValue(carry)
  {
  }

  lemma NumberOfOne(b: bv8)
    ensures Number([b]) == b as nat
  {
  }

  lemma {:induction false} ShiftInDoubles(buf: Octets, carry: bool)
    requires |buf| > 0
    ensures Number(ShiftIn(buf, carry)) + Power256(|buf|) * BitValue(Top(buf[0])) == 2 * Number(buf) + BitValue(carry)
  {
    hide Top, ShiftByte, BitValue;
    var n := |buf| - 1;
    ByteDoubles(buf[n], carry);
    if n > 0 {
      ShiftInDoubles(buf[..n], Top(buf[n]));
      TimesPower(n, BitValue(Top(buf[0])));
    } else {
      assert ShiftIn(buf, carry) == [ShiftByte(buf[0], carry)] && buf == [buf[0]];
      NumberOfOne(ShiftByte(buf[0], carry));
      NumberOfOne(buf[0]);
      TimesPower(0, BitValue(Top(buf[0])));
    }
  }

  lemma TimesPower(n: nat, t: nat)
    ensures Power256(n + 1) * t == 256 * (Power256(n) * t)
    ensures Power256(0) * t == t
  {
  }

  lemma {:induction false} NumberBound(buf: Octets)
    ensures Number(buf) < Power256(|buf|)
  {
    if |buf| > 0 {
      NumberBound(buf[..|buf| - 1]);
    }
  }

  /** shift_string without its exclusive-or is doubling modulo 256^n. */
  lemma ShiftIsDoubling(buf: Octets)
    requires |buf| > 0
    ensures Number(ShiftIn(buf, false)) == (2 * Number(buf)) % Power256(|buf|)
  {
    hide Top, Number, ShiftIn;
    assert BitValue(false) == 0;
    ShiftInDoubles(buf, false);
    NumberBound(ShiftIn(buf, false));
    RemainderOf(2 * Number(buf), Power256(|buf|), Number(ShiftIn(buf, false)), Top(buf[0]));
  }

  lemma RemainderOf(y: nat, p: nat, x: nat, t: bool)
    requires x < p && y == x + p * BitValue(t)
    ensures y % p == x
  {
    if t {
      assert y == x + p;
    }
  }

  // ----- subkeys (section 6.1) -----

  function Rb(blockSize: nat): bv8 { if blockSize == 8 then 0x1b else 0x87 }

  /** K1 from L, and K2 from K1. */
  function Subkey(l: Octets, rb: bv8): (k: Octets)
    requires |l| > 0
    ensures |k| == |l|
  {
    if Top(l[0]) then XorLast(ShiftIn(l, false), rb) else ShiftIn(l, false)
  }

  method MakeSubkey(l: Octets, rb: bv8) returns (k: Octets)
    requires |l| > 0
    ensures k == Subkey(l, rb)
  {
    hide Top, Xor8;
    if !Top(l[0]) {
      XorWithZero(ShiftIn(l, false)[|l| - 1]);
      k := ShiftString(l, 0x00);
    } else {
      k := ShiftString(l, rb);
    }
  }

  // The standard's own statement, on bit strings.

  function XorBits(a: seq<bool>, b: seq<bool>): (r: seq<bool>)
    requires |a| == |b|
    ensures |r| == |a|
  {
    seq(|a|, i requires 0 <= i < |a| => a[i] != b[i])
  }

  /** R_64 is 0^59 11011 and R_128 is 0^120 10000111. */
  function StandardRb(bits: nat): (r: seq<bool>)
    requires bits == 64 || bits == 128
    ensures |r| == bits
  {
    if bits == 64 then ZeroBits(59) + [true, true, false, true, true]
    else ZeroBits(120) + [true, false, false, false, false, true, true, true]
  }

  function StandardSubkey(l: seq<bool>): (k: seq<bool>)
    requires |l| == 64 || |l| == 128
    ensures |k| == |l|
  {
    var shifted := l[1..] + [false];
    if !l[0] then shifted else XorBits(shifted, StandardRb(|l|))
  }

  lemma ByteShiftBits(b: bv8, carry: bool)
    ensures ByteBits(ShiftByte(b, carry)) == ByteBits(b)[1..] + [carry]
    ensures ByteBits(b)[0] == Top(b)
  {
  }

  lemma Splice(a: seq<bool>, b: seq<bool>, carry: bool)
    requires |a| > 0 && |b| > 0
    ensures (a[1..] + [b[0]]) + (b[1..] + [carry]) == (a + b)[1..] + [carry]
  {
    assert b == [b[0]] + b[1..];
  }

  lemma {:induction false} ShiftInBits(buf: Octets, carry: bool)
    requires |buf| > 0
    ensures Bits(ShiftIn(buf, carry)) == Bits(buf)[1..] + [carry]
    ensures Bits(buf)[0] == Top(buf[0])
  {
    hide Top, ShiftByte, ByteBits, Bits;
    var n := |buf| - 1;
    ByteShiftBits(buf[n], carry);
    BitsOfSnoc(buf[..n], buf[n]);
    BitsOfSnoc(ShiftIn(buf[..n], Top(buf[n])), ShiftByte(buf[n], carry));
    assert buf == buf[..n] + [buf[n]];
    if n > 0 {
      ShiftInBits(buf[..n], Top(buf[n]));
      Splice(Bits(buf[..n]), ByteBits(buf[n]), carry);
    } else {
      assert Bits(buf) == ByteBits(buf[0]) by { NoBits(buf[..n]); }
      assert Bits(ShiftIn(buf, carry)) == ByteBits(ShiftByte(buf[0], carry)) by { NoBits(ShiftIn(buf[..n], Top(buf[n]))); }
    }
  }

  lemma ByteXorFlags(x: bv8, y: bv8)
    ensures Bit(Xor8(x, y), 0x80) == (Bit(x, 0x80) != Bit(y, 0x80)) && Bit(Xor8(x, y), 0x40) == (Bit(x, 0x40) != Bit(y, 0x40))
    ensures Bit(Xor8(x, y), 0x20) == (Bit(x, 0x20) != Bit(y, 0x20)) && Bit(Xor8(x, y), 0x10) == (Bit(x, 0x10) != Bit(y, 0x10))
    ensures Bit(Xor8(x, y), 8) == (Bit(x, 8) != Bit(y, 8)) && Bit(Xor8(x, y), 4) == (Bit(x, 4) != Bit(y, 4))
    ensures Bit(Xor8(x, y), 2) == (Bit(x, 2) != Bit(y, 2)) && Bit(Xor8(x, y), 1) == (Bit(x, 1) != Bit(y, 1))
  {
  }

  lemma ByteXorBits(x: bv8, y: bv8)
    ensures ByteBits(Xor8(x, y)) == XorBits(ByteBits(x), ByteBits(y))
  {
    hide Bit, Xor8, ByteBits, XorBits;
    ByteXorFlags(x, y);
    ByteBitsAt(x);
    ByteBitsAt(y);
    ByteBitsAt(Xor8(x, y));
    EightXorBits(ByteBits(Xor8(x, y)), ByteBits(x), ByteBits(y));
  }

  lemma ByteBitsAt(b: bv8)
    ensures ByteBits(b)[0] == Bit(b, 0x80) && ByteBits(b)[1] == Bit(b, 0x40) && ByteBits(b)[2] == Bit(b, 0x20)
    ensures ByteBits(b)[3] == Bit(b, 0x10) && ByteBits(b)[4] == Bit(b, 8) && ByteBits(b)[5] == Bit(b, 4)
    ensures ByteBits(b)[6] == Bit(b, 2) && ByteBits(b)[7] == Bit(b, 1)
  {
    hide Bit;
  }

  lemma EightXorBits(z: seq<bool>, a: seq<bool>, b: seq<bool>)
    requires |z| == |a| == |b| == 8
    requires z[0] == (a[0] != b[0]) && z[1] == (a[1] != b[1]) && z[2] == (a[2] != b[2]) && z[3] == (a[3] != b[3])
    requires z[4] == (a[4] != b[4]) && z[5] == (a[5] != b[5]) && z[6] == (a[6] != b[6]) && z[7] == (a[7] != b[7])
    ensures z == XorBits(a, b)
  {
    forall i | 0 <= i < 8
      ensures z[i] == XorBits(a, b)[i]
    {
      assert i in {0, 1, 2, 3, 4, 5, 6, 7};
    }
  }

  lemma XorOfConcat(a: seq<bool>, b: seq<bool>, x: seq<bool>)
    requires |b| == |x|
    ensures XorBits(a + b, ZeroBits(|a|) + x) == a + XorBits(b, x)
  {
  }

  lemma XorLastParts(buf: Octets, x: bv8)
    requires |buf| > 0
    ensures buf == buf[..|buf| - 1] + [buf[|buf| - 1]]
    ensures XorLast(buf, x) == buf[..|buf| - 1] + [Xor8(buf[|buf| - 1], x)]
  {
    hide Xor8;
  }

  lemma XorLastBits(buf: Octets, x: bv8)
    requires |buf| > 0
    ensures Bits(XorLast(buf, x)) == XorBits(Bits(buf), ZeroBits(8 * (|buf| - 1)) + ByteBits(x))
  {
    hide ByteBits, Xor8, Bits, XorBits, ZeroBits, XorLast;
    var n := |buf| - 1;
    ByteXorBits(buf[n], x);
    XorLastParts(buf, x);
    BitsOfSnoc(buf[..n], buf[n]);
    BitsOfSnoc(buf[..n], Xor8(buf[n], x));
    XorOfConcat(Bits(buf[..n]), ByteBits(buf[n]), ByteBits(x));
  }

  lemma RbIsStandard()
    ensures ZeroBits(56) + ByteBits(Rb(8)) == StandardRb(64)
    ensures ZeroBits(120) + ByteBits(Rb(16)) == StandardRb(128)
  {
  }

  /** The code's subkeys are the standard's, for both block sizes. */
  lemma SubkeyIsStandard(l: Octets)
    requires |l| == 8 || |l| == 16
    ensures Bits(Subkey(l, Rb(|l|))) == StandardSubkey(Bits(l))
  {
    hide ByteBits, Bits, Top, ZeroBits, StandardRb, ShiftIn, Rb;
    ShiftInBits(l, false);
    XorLastBits(ShiftIn(l, false), Rb(|l|));
    RbIsStandard();
  }

  // ----- the subkey step loses nothing -----

  lemma ShiftByteInjective(b: bv8, c: bool, b': bv8, c': bool)
    requires ShiftByte(b, c) == ShiftByte(b', c')
    ensures c == c' && (Top(b) == Top(b') ==> b == b')
  {
  }

  lemma ShiftInInjective(l: Octets, l': Octets)
    requires |l| == |l'| > 0 && Top(l[0]) == Top(l'[0]) && ShiftIn(l, false) == ShiftIn(l', false)
    ensures l == l'
  {
    hide Top, ShiftByte, ShiftIn;
    forall i | 0 <= i < |l|
      ensures l[i] == l'[i]
    {
      ShiftInAt(l, false, i);
      ShiftInAt(l', false, i);
      ShiftByteInjective(l[i], if i + 1 < |l| then Top(l[i + 1]) else false, l'[i], if i + 1 < |l| then Top(l'[i + 1]) else false);
      if i > 0 {
        ShiftInAt(l, false, i - 1);
        ShiftInAt(l', false, i - 1);
        ShiftByteInjective(l[i - 1], Top(l[i]), l'[i - 1], Top(l'[i]));
      }
    }
  }

  lemma LastBitShowsReduction(b: bv8, b': bv8, rb: bv8)
    requires rb & 1 == 1
    ensures Xor8(ShiftByte(b, false), rb) != ShiftByte(b', false)
  {
  }

  lemma XorCancels(x: bv8, y: bv8, z: bv8)
    requires Xor8(x, z) == Xor8(y, z)
    ensures x == y
  {
  }

  /** Distinct L give distinct subkeys. */
  lemma SubkeyInjective(l: Octets, l': Octets, rb: bv8)
    requires |l| == |l'| > 0 && rb & 1 == 1
    ensures Subkey(l, rb) == Subkey(l', rb) <==> l == l'
  {
    hide Top, ShiftByte, ShiftIn, Xor8;
    if Subkey(l, rb) == Subkey(l', rb) {
      var n := |l| - 1;
      var a, b := ShiftIn(l, false), ShiftIn(l', false);
      ShiftInAt(l, false, n);
      ShiftInAt(l', false, n);
      LastBitShowsReduction(l[n], l'[n], rb);
      LastBitShowsReduction(l'[n], l[n], rb);
      assert Subkey(l, rb)[n] == Subkey(l', rb)[n];
      assert Top(l[0]) == Top(l'[0]);
      if Top(l[0]) {
        XorCancels(a[n], b[n], rb);
        assert forall i :: 0 <= i < n ==> a[i] == Subkey(l, rb)[i] && b[i] == Subkey(l', rb)[i];
        assert a == b;
      }
      ShiftInInjective(l, l');
    }
  }

  lemma FixedByte(b: bv8)
    requires ShiftByte(b, false) == b
    ensures b == 0 && !Top(b)
  {
  }

  lemma FixedReducedByte(b: bv8, rb: bv8)
    requires rb == 0x1b || rb == 0x87
    requires Xor8(ShiftByte(b, false), rb) == b
    ensures !Top(b)
  {
  }

  /** If every byte but possibly the last is its own shift, then all of those bytes are zero. */
  lemma {:induction false} FixedBytesAreZero(k: Octets, i: nat)
    requires i < |k| && !Top(k[|k| - 1])
    requires forall j :: 0 <= j < |k| - 1 ==> k[j] == ShiftIn(k, false)[j]
    ensures !Top(k[i]) && (i < |k| - 1 ==> k[i] == 0)
    decreases |k| - i
  {
    hide Top, ShiftByte, ShiftIn;
    if i < |k| - 1 {
      FixedBytesAreZero(k, i + 1);
      ShiftInAt(k, false, i);
      FixedByte(k[i]);
    }
  }

  /** K1 and K2 coincide only when L is zero. */
  lemma SubkeysDiffer(l: Octets, rb: bv8)
    requires |l| > 0 && (rb == 0x1b || rb == 0x87)
    ensures Subkey(l, rb) == Subkey(Subkey(l, rb), rb) <==> l == ZeroBytes(|l|)
  {
    hide Top, ShiftByte, ShiftIn, Xor8, Subkey;
    var k := Subkey(l, rb);
    assert rb & 1 == 1;
    ZeroSubkey(|l|, rb);
    SubkeyInjective(l, ZeroBytes(|l|), rb);
    if k == Subkey(k, rb) {
      FixedPointIsZero(k, rb);
    }
  }

  lemma ZeroSubkey(n: nat, rb: bv8)
    requires n > 0
    ensures Subkey(ZeroBytes(n), rb) == ZeroBytes(n)
  {
    hide ShiftIn;
    forall i | 0 <= i < n
      ensures ShiftIn(ZeroBytes(n), false)[i] == 0
    {
      ShiftInAt(ZeroBytes(n), false, i);
    }
  }

  lemma FixedPointIsZero(k: Octets, rb: bv8)
    requires |k| > 0 && (rb == 0x1b || rb == 0x87) && Subkey(k, rb) == k
    ensures k == ZeroBytes(|k|)
  {
    hide Top, ShiftByte, ShiftIn, Xor8;
    var n := |k| - 1;
    ShiftInAt(k, false, n);
    assert Subkey(k, rb)[n] == k[n];
    assert forall j :: 0 <= j < n ==> Subkey(k, rb)[j] == ShiftIn(k, false)[j];
    if Top(k[0]) {
      FixedReducedByte(k[n], rb);
    } else {
      FixedByte(k[n]);
    }
    FixedBytesAreZero(k, 0);
    forall i | 0 <= i < |k|
      ensures k[i] == 0
    {
      FixedBytesAreZero(k, i);
      FixedByte(k[n]);
    }
  }
}
