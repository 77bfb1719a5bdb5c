/** MAC generation of cmac.cpp: padding, the subkey on the last block and CBC, against section 6.2 of
    NIST SP 800-38B; and the variant whose cipher runs on a key server. */
module CmacMac {
  import opened Arithmetic
  import opened BitStrings
  import opened Cmac

  type Cipher = Octets -> Octets

  /** All that is asked of the block cipher: blocks go to blocks. */
  ghost predicate OnBlocks(e: Cipher, blockSize: nat) {
    blockSize > 0 && forall x: Octets :: |x| == blockSize ==> |e(x)| == blockSize
  }

  /** CBC encryption of whole blocks, as OpenSSL performs it without padding. */
  function Cbc(e: Cipher, blockSize: nat, iv: Octets, data: Octets): (out: Octets)
    requires OnBlocks(e, blockSize) && |iv| == blockSize && |data| % blockSize == 0
    ensures |out| == |data|
    decreases |data|
  {
    if |data| == 0 then []
    else
      BlockFits(blockSize, |data|);
      var c := e(XorBytes(iv, data[..blockSize]));
      c + Cbc(e, blockSize, c, data[blockSize..])
  }

  lemma BlockFits(d: nat, n: nat)
    requires d > 0 && n > 0 && n % d == 0
    ensures n >= d && (n - d) % d == 0
  {
    SmallRemainder(n, d);
    if n >= d {
      RemainderOfSum(n, d);
    }
  }

  // ----- what the code feeds to CBC -----

  /** The number of padding bytes: none for a nonempty whole number of units, a whole unit for no data. */
  function PadCount(len: nat, unit: nat): nat
    requires unit > 0
  {
    if len == 0 then unit else (unit - len % unit) % unit
  }

  function Padded(data: Octets, unit: nat): Octets
    requires unit > 0
  {
    if PadCount(|data|, unit) == 0 then data else data + [0x80] + ZeroBytes(PadCount(|data|, unit) - 1)
  }

  function XorTail(data: Octets, k: Octets): (r: Octets)
    requires |data| >= |k|
    ensures |r| == |data|
  {
    data[..|data| - |k|] + XorBytes(data[|data| - |k|..], k)
  }

  /** The padded message with a subkey on its last block: K1 when nothing was padded (unless K2 is
      forced), K2 otherwise. */
  function Prepared(data: Octets, unit: nat, k1: Octets, k2: Octets, forceK2: bool): (r: Octets)
    requires unit > 0 && |k1| == |k2| <= |Padded(data, unit)|
    ensures |r| == |Padded(data, unit)|
  {
    XorTail(Padded(data, unit), if PadCount(|data|, unit) == 0 && !forceK2 then k1 else k2)
  }

  datatype Outcome = Tag(mac: Octets) | CipherFailure | Undefined

  function LastBlock(data: Octets, blockSize: nat): Octets
    requires |data| >= blockSize
  {
    data[|data| - blockSize..]
  }

  function L(e: Cipher, blockSize: nat): Octets { e(ZeroBytes(blockSize)) }

  function K1(e: Cipher, blockSize: nat): (k: Octets)
    requires OnBlocks(e, blockSize)
    ensures |k| == blockSize
  {
    Subkey(L(e, blockSize), Rb(blockSize))
  }

  function K2(e: Cipher, blockSize: nat): (k: Octets)
    requires OnBlocks(e, blockSize)
    ensures |k| == blockSize
  {
    Subkey(K1(e, blockSize), Rb(blockSize))
  }

  /** What cmac returns; a padding unit of 0 stands for one block, an empty IV for the null IV. */
  function MacOf(e: Cipher, blockSize: nat, data: Octets, lastIv: Octets, unit0: nat, forceK2: bool): Outcome
    requires OnBlocks(e, blockSize) && (lastIv == [] || |lastIv| == blockSize)
  {
    var unit := if unit0 == 0 then blockSize else unit0;
    var iv := if lastIv == [] then ZeroBytes(blockSize) else lastIv;
    if |Padded(data, unit)| < blockSize then Undefined
    else if |Padded(data, unit)| % blockSize != 0 then CipherFailure
    else Tag(LastBlock(Cbc(e, blockSize, iv, Prepared(data, unit, K1(e, blockSize), K2(e, blockSize), forceK2)), blockSize))
  }

  // ----- section 6.2 -----

  /** The chain C_i = E(C_{i-1} + M_i), whose last block is M_n* + K1 when complete and
      (M_n* || 10^j) + K2 when not; an empty message is one incomplete block. */
  function StandardChain(e: Cipher, blockSize: nat, k1: Octets, k2: Octets, c: Octets, m: Octets): (tag: Octets)
    requires OnBlocks(e, blockSize) && |k1| == |k2| == |c| == blockSize
    decreases |m|
  {
    if |m| > blockSize then StandardChain(e, blockSize, k1, k2, e(XorBytes(c, m[..blockSize])), m[blockSize..])
    else if |m| == blockSize then e(XorBytes(c, XorBytes(k1, m)))
    else e(XorBytes(c, XorBytes(k2, m + [0x80] + ZeroBytes(blockSize - |m| - 1))))
  }

  /** The MAC of the standard: subkeys of section 6.1 and the chain from the zero block. */
  function StandardMac(e: Cipher, blockSize: nat, m: Octets): Octets
    requires OnBlocks(e, blockSize)
  {
    StandardChain(e, blockSize, K1(e, blockSize), K2(e, blockSize), ZeroBytes(blockSize), m)
  }

  // ----- the code computes the standard's MAC -----

  lemma PadCountBelow(len: nat, unit: nat)
    requires unit > 0
    ensures PadCount(len, unit) == if len == 0 then unit else if len % unit == 0 then 0 else unit - len % unit
  {
  }

  /** Padding a message of more than a block pads its rest. */
  lemma PaddedRest(m: Octets, unit: nat)
    requires unit > 0 && |m| > unit
    ensures PadCount(|m|, unit) == PadCount(|m| - unit, unit)
    ensures Padded(m, unit) == m[..unit] + Padded(m[unit..], unit)
  {
    RemainderOfSum(|m|, unit);
    PadCountBelow(|m|, unit);
    PadCountBelow(|m| - unit, unit);
    assert m == m[..unit] + m[unit..];
  }

  lemma PaddedLength(m: Octets, unit: nat)
    requires unit > 0
    ensures |Padded(m, unit)| == |m| + PadCount(|m|, unit)
    ensures |Padded(m, unit)| >= unit && |Padded(m, unit)| % unit == 0
    decreases |m|
  {
    hide PadCount;
    if |m| > unit {
      PaddedLength(m[unit..], unit);
      PaddedRest(m, unit);
      RemainderOfSum(|Padded(m, unit)|, unit);
    } else {
      OnePaddedBlock(m, unit);
      RemainderUnique(unit, unit, 1, 0);
    }
  }

  lemma XorCommutes(a: Octets, b: Octets)
    requires |a| == |b|
    ensures XorBytes(a, b) == XorBytes(b, a)
  {
    forall i | 0 <= i < |a|
      ensures Xor8(a[i], b[i]) == Xor8(b[i], a[i])
    {
      ByteXorCommutes(a[i], b[i]);
    }
  }

  lemma ByteXorCommutes(x: bv8, y: bv8)
    ensures Xor8(x, y) == Xor8(y, x)
  {
  }

  /** CBC over one block. */
  lemma CbcOfBlock(e: Cipher, blockSize: nat, c: Octets, b: Octets)
    requires OnBlocks(e, blockSize) && |c| == |b| == blockSize
    ensures |b| % blockSize == 0 && Cbc(e, blockSize, c, b) == e(XorBytes(c, b))
  {
    hide XorBytes;
    assert b[..blockSize] == b && b[blockSize..] == [];
  }

  lemma CbcOfBlocks(e: Cipher, blockSize: nat, c: Octets, b: Octets, rest: Octets)
    requires OnBlocks(e, blockSize) && |c| == |b| == blockSize && |rest| % blockSize == 0 && |rest| >= blockSize
    ensures |b + rest| % blockSize == 0
    ensures LastBlock(Cbc(e, blockSize, c, b + rest), blockSize) == LastBlock(Cbc(e, blockSize, e(XorBytes(c, b)), rest), blockSize)
  {
    hide XorBytes;
    RemainderOfSum(|b + rest|, blockSize);
    assert (b + rest)[..blockSize] == b && (b + rest)[blockSize..] == rest;
  }

  /** The last CBC block over the prepared message is the standard's chain. */
  lemma {:induction false} CbcIsChain(e: Cipher, blockSize: nat, k1: Octets, k2: Octets, c: Octets, m: Octets)
    requires OnBlocks(e, blockSize) && |k1| == |k2| == |c| == blockSize
    ensures |Padded(m, blockSize)| >= blockSize && |Padded(m, blockSize)| % blockSize == 0
    ensures LastBlock(Cbc(e, blockSize, c, Prepared(m, blockSize, k1, k2, false)), blockSize) ==
            StandardChain(e, blockSize, k1, k2, c, m)
    decreases |m|
  {
    hide XorBytes, Cbc, PadCount;
    PaddedLength(m, blockSize);
    PadCountBelow(|m|, blockSize);
    var p := Padded(m, blockSize);
    if |m| > blockSize {
      var rest := m[blockSize..];
      CbcIsChain(e, blockSize, k1, k2, e(XorBytes(c, m[..blockSize])), rest);
      PaddedRest(m, blockSize);
      PreparedRest(m, blockSize, k1, k2);
      CbcOfBlocks(e, blockSize, c, m[..blockSize], Prepared(rest, blockSize, k1, k2, false));
    } else {
      OnePaddedBlock(m, blockSize);
      var k := if |m| == blockSize then k1 else k2;
      assert p[|p| - blockSize..] == p && p[..|p| - blockSize] == [];
      assert Prepared(m, blockSize, k1, k2, false) == XorBytes(p, k);
      XorCommutes(p, k);
      CbcOfBlock(e, blockSize, c, XorBytes(p, k));
      assert LastBlock(e(XorBytes(c, XorBytes(k, p))), blockSize) == e(XorBytes(c, XorBytes(k, p)));
    }
  }

  lemma OnePaddedBlock(m: Octets, blockSize: nat)
    requires blockSize > 0 && |m| <= blockSize
    ensures PadCount(|m|, blockSize) == blockSize - |m|
    ensures |m| == blockSize ==> Padded(m, blockSize) == m
    ensures |m| < blockSize ==> Padded(m, blockSize) == m + [0x80] + ZeroBytes(blockSize - |m| - 1)
  {
    PadCountBelow(|m|, blockSize);
    SmallRemainder(|m|, blockSize);
    RemainderUnique(blockSize, blockSize, 1, 0);
  }

  lemma PreparedRest(m: Octets, blockSize: nat, k1: Octets, k2: Octets)
    requires blockSize > 0 && |m| > blockSize && |k1| == |k2| == blockSize
    ensures |Padded(m, blockSize)| >= blockSize && |Padded(m[blockSize..], blockSize)| >= blockSize
    ensures Prepared(m, blockSize, k1, k2, false) == m[..blockSize] + Prepared(m[blockSize..], blockSize, k1, k2, false)
  {
    hide XorBytes;
    PaddedLength(m, blockSize);
    PaddedLength(m[blockSize..], blockSize);
    PaddedRest(m, blockSize);
    var p, q := Padded(m, blockSize), Padded(m[blockSize..], blockSize);
    assert p[|p| - blockSize..] == q[|q| - blockSize..];
    assert p[..|p| - blockSize] == m[..blockSize] + q[..|q| - blockSize];
  }

  /** cmac is the MAC of the standard, for every message, with the default padding unit or one block. */
  lemma MacIsStandard(e: Cipher, blockSize: nat, data: Octets, unit: nat)
    requires OnBlocks(e, blockSize) && (unit == 0 || unit == blockSize)
    ensures MacOf(e, blockSize, data, [], unit, false) == Tag(StandardMac(e, blockSize, data))
  {
    hide Cbc, Prepared, Padded, StandardChain, LastBlock;
    CbcIsChain(e, blockSize, K1(e, blockSize), K2(e, blockSize), ZeroBytes(blockSize), data);
  }

  predicate IsZeroBlock(z: Octets, blockSize: nat) {
    |z| == blockSize && forall i :: 0 <= i < |z| ==> z[i] == 0
  }

  /** The subkeys of section 6.1, on bits: K1 from the enciphered zero block, and K2 from K1. */
  ghost predicate AreSubkeys(e: Cipher, blockSize: nat, k1: Octets, k2: Octets)
    requires OnBlocks(e, blockSize) && (blockSize == 8 || blockSize == 16)
  {
    && |k1| == blockSize && |k2| == blockSize
    && forall z: Octets :: IsZeroBlock(z, blockSize) ==>
         Bits(k1) == StandardSubkey(Bits(e(z))) && Bits(k2) == StandardSubkey(StandardSubkey(Bits(e(z))))
  }

  /** Exactly the code's K1 and K2 are the subkeys of the standard. */
  lemma SubkeysExactlyWhen(e: Cipher, blockSize: nat, k1: Octets, k2: Octets)
    requires OnBlocks(e, blockSize) && (blockSize == 8 || blockSize == 16)
    ensures AreSubkeys(e, blockSize, k1, k2) <==> k1 == K1(e, blockSize) && k2 == K2(e, blockSize)
  {
    hide Bits, StandardSubkey, Subkey;
    var z := ZeroBytes(blockSize);
    assert forall z': Octets :: IsZeroBlock(z', blockSize) ==> z' == z;
    assert IsZeroBlock(z, blockSize);
    SubkeyIsStandard(L(e, blockSize));
    SubkeyIsStandard(K1(e, blockSize));
    if AreSubkeys(e, blockSize, k1, k2) {
      BitsInjective(k1, K1(e, blockSize));
      BitsInjective(k2, K2(e, blockSize));
    }
  }

  /** So for both block sizes, every message and any two subkeys of section 6.1, cmac is the MAC of
      section 6.2: the chain from the zero block. */
  lemma MacIsSection62(e: Cipher, blockSize: nat, data: Octets, unit: nat, k1: Octets, k2: Octets, z: Octets)
    requires OnBlocks(e, blockSize) && (blockSize == 8 || blockSize == 16) && (unit == 0 || unit == blockSize)
    requires AreSubkeys(e, blockSize, k1, k2) && IsZeroBlock(z, blockSize)
    ensures StandardMac(e, blockSize, data) == StandardChain(e, blockSize, k1, k2, z, data)
    ensures MacOf(e, blockSize, data, [], unit, false) == Tag(StandardChain(e, blockSize, k1, k2, z, data))
  {
    hide MacOf, StandardChain, AreSubkeys;
    SubkeysExactlyWhen(e, blockSize, k1, k2);
    assert z == ZeroBytes(blockSize);
    MacIsStandard(e, blockSize, data, unit);
  }

  /** The message as it is when it is a nonempty whole number of units; otherwise with one 0x80 and the
      fewest zeros that fill a unit. */
  predicate IsUnits(data: Octets, unit: nat, p: Octets)
    requires unit > 0
  {
    if |data| > 0 && |data| % unit == 0 then p == data
    else
      && |p| % unit == 0 && |data| < |p| <= |data| + unit && p[..|data|] == data && p[|data|] == 0x80
      && forall i :: |data| < i < |p| ==> p[i] == 0
  }

  lemma PaddedIsUnits(data: Octets, unit: nat, p: Octets)
    requires unit > 0
    ensures IsUnits(data, unit, p) <==> p == Padded(data, unit)
    ensures PadCount(|data|, unit) == 0 <==> |data| > 0 && |data| % unit == 0
  {
    PadCountBelow(|data|, unit);
    PaddedLength(data, unit);
    if !(|data| > 0 && |data| % unit == 0) && IsUnits(data, unit, p) {
      MultiplesApart(unit, |p|, |Padded(data, unit)|);
      assert forall i :: 0 <= i < |p| ==> p[i] == Padded(data, unit)[i];
    }
  }

  /** For every message, IV, unit of whole blocks and choice of forced K2: cmac is the standard's chain over
      the message filled up to units, all of whose blocks are complete, from the IV or the zero block; the
      last block gets K1 when nothing was filled up and K2 is not forced, and K2 otherwise. */
  lemma MacIsChain(e: Cipher, blockSize: nat, data: Octets, iv: Octets, unit: nat, forceK2: bool, p: Octets, z: Octets)
    requires OnBlocks(e, blockSize) && unit > 0 && unit % blockSize == 0 && (iv == [] || |iv| == blockSize)
    requires IsUnits(data, unit, p) && IsZeroBlock(z, blockSize)
    ensures var k := if |data| > 0 && |data| % unit == 0 && !forceK2 then K1(e, blockSize) else K2(e, blockSize);
            MacOf(e, blockSize, data, iv, unit, forceK2) ==
            Tag(StandardChain(e, blockSize, k, k, if iv == [] then z else iv, p))
    ensures MacOf(e, blockSize, data, iv, 0, forceK2) == MacOf(e, blockSize, data, iv, blockSize, forceK2)
  {
    hide Cbc, StandardChain, LastBlock, Padded, PadCount, IsUnits, K1, K2;
    var k := if |data| > 0 && |data| % unit == 0 && !forceK2 then K1(e, blockSize) else K2(e, blockSize);
    assert z == ZeroBytes(blockSize);
    PaddedIsUnits(data, unit, p);
    PaddedBlocks(data, blockSize, unit);
    WholeBlocksStay(p, blockSize);
    CbcIsChain(e, blockSize, k, k, if iv == [] then z else iv, p);
  }

  lemma WholeBlocksStay(p: Octets, blockSize: nat)
    requires blockSize > 0 && |p| > 0 && |p| % blockSize == 0
    ensures PadCount(|p|, blockSize) == 0 && Padded(p, blockSize) == p
  {
    PadCountBelow(|p|, blockSize);
  }

  /** Other units: with t the length of the message rounded up to units, at least one, cmac reads in front of
      its buffer exactly when t is less than a block, and the cipher refuses exactly when t is more and no
      whole number of blocks. */
  lemma MacFailsExactlyWhen(e: Cipher, blockSize: nat, data: Octets, iv: Octets, unit: nat, forceK2: bool, t: nat)
    requires OnBlocks(e, blockSize) && unit > 0 && (iv == [] || |iv| == blockSize)
    requires t > 0 && t % unit == 0 && |data| <= t && (t < |data| + unit || t == unit)
    ensures MacOf(e, blockSize, data, iv, unit, forceK2) == Undefined <==> t < blockSize
    ensures MacOf(e, blockSize, data, iv, unit, forceK2) == CipherFailure <==> t > blockSize && t % blockSize != 0
  {
    hide Cbc, Padded, Prepared, LastBlock, K1, K2;
    RoundedLength(data, unit, t);
    OneBlockIsWhole(t, blockSize);
  }

  lemma RoundedLength(data: Octets, unit: nat, t: nat)
    requires unit > 0 && t > 0 && t % unit == 0 && |data| <= t && (t < |data| + unit || t == unit)
    ensures |Padded(data, unit)| == t
  {
    hide PadCount, Padded;
    PaddedLength(data, unit);
    PadCountIsSmall(|data|, unit);
    MultiplesApart(unit, t, |Padded(data, unit)|);
  }

  lemma PadCountIsSmall(len: nat, unit: nat)
    requires unit > 0
    ensures PadCount(len, unit) <= unit && (len > 0 ==> PadCount(len, unit) < unit)
  {
    RemainderIsBelow(len, unit);
    RemainderIsBelow(unit - len % unit, unit);
  }

  lemma OneBlockIsWhole(t: nat, blockSize: nat)
    requires blockSize > 0
    ensures t == blockSize ==> t % blockSize == 0
  {
  }

  /** With an IV given, cmac is the standard's recursion started from that IV. */
  lemma MacFromIv(e: Cipher, blockSize: nat, data: Octets, iv: Octets, unit: nat)
    requires OnBlocks(e, blockSize) && (unit == 0 || unit == blockSize) && |iv| == blockSize
    ensures MacOf(e, blockSize, data, iv, unit, false) ==
            Tag(StandardChain(e, blockSize, K1(e, blockSize), K2(e, blockSize), iv, data))
  {
    hide Cbc, Prepared, Padded, StandardChain, LastBlock;
    CbcIsChain(e, blockSize, K1(e, blockSize), K2(e, blockSize), iv, data);
  }

  lemma XorTailInjective(data: Octets, k: Octets, k': Octets)
    requires |k| == |k'| <= |data| && XorTail(data, k) == XorTail(data, k')
    ensures k == k'
  {
    hide Xor8;
    var n := |data| - |k|;
    forall i | 0 <= i < |k|
      ensures k[i] == k'[i]
    {
      assert XorTail(data, k)[n + i] == Xor8(data[n + i], k[i]);
      assert XorTail(data, k')[n + i] == Xor8(data[n + i], k'[i]);
      ByteXorCommutes(data[n + i], k[i]);
      ByteXorCommutes(data[n + i], k'[i]);
      XorCancels(k[i], k'[i], data[n + i]);
    }
  }

  /** Forcing K2 changes the blocks fed to the cipher exactly when the message is a nonempty whole number
      of units and L is not zero. */
  lemma ForcedK2(data: Octets, unit: nat, l: Octets, rb: bv8)
    requires unit > 0 && 0 < |l| <= |Padded(data, unit)| && (rb == 0x1b || rb == 0x87)
    ensures var k1 := Subkey(l, rb);
            var k2 := Subkey(k1, rb);
            Prepared(data, unit, k1, k2, true) == Prepared(data, unit, k1, k2, false)
            <==> PadCount(|data|, unit) != 0 || l == ZeroBytes(|l|)
  {
    hide Subkey, XorTail, Padded;
    var k1 := Subkey(l, rb);
    var k2 := Subkey(k1, rb);
    SubkeysDiffer(l, rb);
    if XorTail(Padded(data, unit), k1) == XorTail(Padded(data, unit), k2) {
      XorTailInjective(Padded(data, unit), k1, k2);
    }
  }

  /** The message rounded up to whole units. */
  function RoundedUp(len: nat, unit: nat): nat
    requires unit > 0
  {
    len + PadCount(len, unit)
  }

  lemma MultipleOfBlock(unit: nat, blockSize: nat, n: nat)
    requires blockSize > 0 && unit > 0 && unit % blockSize == 0 && n % unit == 0
    ensures n % blockSize == 0
  {
    var a, b := unit / blockSize, n / unit;
    assert unit == blockSize * a && n == unit * b;
    assert n == blockSize * (a * b) by {
      assert (blockSize * a) * b == blockSize * (a * b);
    }
    RemainderUnique(n, blockSize, a * b, 0);
  }

  lemma PaddedBlocks(data: Octets, blockSize: nat, unit: nat)
    requires blockSize > 0 && unit > 0 && unit % blockSize == 0
    ensures unit >= blockSize && |Padded(data, unit)| >= blockSize && |Padded(data, unit)| % blockSize == 0
    ensures |Padded(data, unit)| == RoundedUp(|data|, unit)
  {
    BlockFits(blockSize, unit);
    PaddedLength(data, unit);
    MultipleOfBlock(unit, blockSize, |Padded(data, unit)|);
  }

  /** With a unit of several blocks the MAC is always computed, over a whole positive number of blocks;
      the blocks fed to the cipher are the standard's if and only if rounding up to units and to
      blocks comes to the same length, and then so is the MAC. */
  lemma LargerUnits(e: Cipher, blockSize: nat, data: Octets, unit: nat, k1: Octets, k2: Octets)
    requires OnBlocks(e, blockSize) && unit > 0 && unit % blockSize == 0 && |k1| == |k2| == blockSize
    ensures MacOf(e, blockSize, data, [], unit, false).Tag?
    ensures |Padded(data, unit)| >= blockSize && |Padded(data, blockSize)| >= blockSize
    ensures Prepared(data, unit, k1, k2, false) == Prepared(data, blockSize, k1, k2, false)
            <==> RoundedUp(|data|, unit) == RoundedUp(|data|, blockSize)
    ensures RoundedUp(|data|, unit) == RoundedUp(|data|, blockSize) ==>
            MacOf(e, blockSize, data, [], unit, false) == Tag(StandardMac(e, blockSize, data))
  {
    hide Cbc, PadCount, XorTail, StandardMac;
    PaddedBlocks(data, blockSize, unit);
    assert blockSize % blockSize == 0;
    PaddedBlocks(data, blockSize, blockSize);
    MacIsStandard(e, blockSize, data, blockSize);
  }

  // ----- the routines, step by step -----

  /** The padding loop: one 0x80 and pad - 1 zeros. */
  method PadLoop(data: Octets, unit: nat) returns (padded: Octets, pad: nat)
    requires unit > 0
    ensures padded == Padded(data, unit) && pad == PadCount(|data|, unit)
  {
    pad := (unit - |data| % unit) % unit;
    if |data| == 0 {
      pad := unit;
    }
    padded := data;
    if pad > 0 {
      padded := padded + [0x80];
      if pad > 1 {
        for i := 0 to pad - 1
          invariant padded == data + [0x80] + ZeroBytes(i)
        {
          assert ZeroBytes(i) + [0] == ZeroBytes(i + 1);
          padded := padded + [0x00];
        }
      }
    }
  }

  /** The subkey loop: exclusive-or into the last bytes. */
  method XorTailLoop(data: Octets, k: Octets) returns (r: Octets)
    requires |data| >= |k|
    ensures r == XorTail(data, k)
  {
    hide Xor8;
    r := data;
    var base := |data| - |k|;
    for i := 0 to |k|
      invariant |r| == |data|
      invariant forall t :: 0 <= t < base + i ==> r[t] == XorTail(data, k)[t]
      invariant forall t :: base + i <= t < |data| ==> r[t] == data[t]
    {
      r := r[base + i := Xor8(r[base + i], k[i])];
    }
  }

  /** Padding and subkey; the subtraction below the front of the buffer is the undefined case. */
  method PrepareLoop(data: Octets, unit: nat, k1: Octets, k2: Octets, forceK2: bool) returns (defined: bool, r: Octets)
    requires unit > 0 && |k1| == |k2|
    ensures defined == (|Padded(data, unit)| >= |k1|)
    ensures defined ==> r == Prepared(data, unit, k1, k2, forceK2)
  {
    hide XorTail, PadCount, Padded;
    var padded, pad := PadLoop(data, unit);
    if |padded| < |k1| {
      return false, [];
    }
    if pad == 0 && !forceK2 {
      padded := XorTailLoop(padded, k1);
    } else {
      padded := XorTailLoop(padded, k2);
    }
    return true, padded;
  }

  /** The result is cut to its last block when it is longer. */
  method CutToBlock(ret: Octets, blockSize: nat) returns (r: Octets)
    requires |ret| >= blockSize
    ensures r == LastBlock(ret, blockSize)
  {
    r := ret;
    if |r| > blockSize {
      r := r[|r| - blockSize..];
    }
  }

  /** cmac with a cipher object. */
  method ComputeCmac(e: Cipher, blockSize: nat, data: Octets, lastIv: Octets, unit0: nat, forceK2: bool) returns (r: Outcome)
    requires OnBlocks(e, blockSize) && (lastIv == [] || |lastIv| == blockSize)
    ensures r == MacOf(e, blockSize, data, lastIv, unit0, forceK2)
  {
    hide Cbc, Prepared, Padded, LastBlock, Subkey, ZeroBytes;
    var rb: bv8 := if blockSize == 8 then 0x1b else 0x87;
    var l := e(ZeroBytes(blockSize));
    var k1 := MakeSubkey(l, rb);
    var k2 := MakeSubkey(k1, rb);
    var unit := unit0;
    if unit == 0 {
      unit := blockSize;
    }
    var defined, prepared := PrepareLoop(data, unit, k1, k2, forceK2);
    if !defined {
      return Undefined;
    }
    var iv := if |lastIv| > 0 then lastIv else ZeroBytes(blockSize);
    if |prepared| % blockSize != 0 {
      return CipherFailure;
    }
    var ret := CutToBlock(Cbc(e, blockSize, iv, prepared), blockSize);
    r := Tag(ret);
  }

  lemma XorOfZeros(n: nat)
    ensures XorBytes(ZeroBytes(n), ZeroBytes(n)) == ZeroBytes(n)
  {
    ZeroXor();
  }

  lemma ZeroXor()
    ensures Xor8(0, 0) == 0
  {
  }

  /** A remote encryption that is CBC under the key of e. */
  ghost predicate IsCbc(remote: (Octets, Octets) -> Octets, e: Cipher)
    requires OnBlocks(e, 16)
  {
    forall d, iv :: |iv| == 16 && |d| % 16 == 0 ==> remote(d, iv) == Cbc(e, 16, iv, d)
  }

  lemma RemoteL(remote: (Octets, Octets) -> Octets, e: Cipher)
    requires OnBlocks(e, 16) && IsCbc(remote, e)
    ensures remote(ZeroBytes(16), ZeroBytes(16)) == L(e, 16)
  {
    hide Cbc, ZeroBytes, XorBytes;
    XorOfZeros(16);
    CbcOfBlock(e, 16, ZeroBytes(16), ZeroBytes(16));
  }

  /** cmac_iks: the same MAC when the remote encryption is CBC under the same AES key. */
  method ComputeCmacIks(remote: (Octets, Octets) -> Octets, ghost e: Cipher, data: Octets, lastIv: Octets, unit: nat)
    returns (mac: Octets)
    requires OnBlocks(e, 16) && |lastIv| == 16 && unit > 0 && unit % 16 == 0
    requires IsCbc(remote, e)
    ensures Tag(mac) == MacOf(e, 16, data, lastIv, unit, false)
  {
    hide Cbc, Prepared, Padded, LastBlock, Subkey, ZeroBytes;
    RemoteL(remote, e);
    var l := remote(ZeroBytes(16), ZeroBytes(16));
    var k1 := MakeSubkey(l, 0x87);
    var k2 := MakeSubkey(k1, 0x87);
    PaddedBlocks(data, 16, unit);
    var defined, prepared := PrepareLoop(data, unit, k1, k2, false);
    mac := CutToBlock(remote(prepared, lastIv), 16);
  }
}
