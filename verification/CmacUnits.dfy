/** The padding unit and the forced subkey of cmac.cpp against NIST SP 800-38B: exactly when the routine
    gives the standard's MAC whatever the block function.  Where it does not, a block function that tells
    the two tags apart is constructed. */
module CmacUnits {
  import opened Arithmetic
  import opened BitStrings
  import opened Cmac
  import opened CmacMac

  // ----- the chaining value -----

  /** The chaining value after whole blocks. */
  function End(e: Cipher, blockSize: nat, c: Octets, data: Octets): (r: Octets)
    requires OnBlocks(e, blockSize) && |c| == blockSize && |data| % blockSize == 0
    ensures |r| == blockSize
    decreases |data|
  {
    if |data| == 0 then c
    else
      BlockFits(blockSize, |data|);
      End(e, blockSize, e(XorBytes(c, data[..blockSize])), data[blockSize..])
  }

  lemma {:induction false} EndIsLast(e: Cipher, blockSize: nat, c: Octets, data: Octets)
    requires OnBlocks(e, blockSize) && |c| == blockSize && |data| % blockSize == 0 && |data| > 0
    ensures |data| >= blockSize && LastBlock(Cbc(e, blockSize, c, data), blockSize) == End(e, blockSize, c, data)
    decreases |data|
  {
    hide Cbc, XorBytes;
    BlockFits(blockSize, |data|);
    var b, rest := data[..blockSize], data[blockSize..];
    assert data == b + rest;
    if |rest| == 0 {
      assert data == b;
      CbcOfBlock(e, blockSize, c, b);
    } else {
      EndIsLast(e, blockSize, e(XorBytes(c, b)), rest);
      CbcOfBlocks(e, blockSize, c, b, rest);
    }
  }

  lemma {:induction false} EndSplit(e: Cipher, blockSize: nat, c: Octets, a: Octets, b: Octets)
    requires OnBlocks(e, blockSize) && |c| == blockSize && |a| % blockSize == 0 && |b| % blockSize == 0
    ensures |a + b| % blockSize == 0 && End(e, blockSize, c, a + b) == End(e, blockSize, End(e, blockSize, c, a), b)
    decreases |a|
  {
    hide XorBytes;
    if |a| == 0 {
      assert a + b == b;
    } else {
      BlockFits(blockSize, |a|);
      EndSplit(e, blockSize, e(XorBytes(c, a[..blockSize])), a[blockSize..], b);
      RemainderOfSum(|a + b|, blockSize);
      assert (a + b)[..blockSize] == a[..blockSize] && (a + b)[blockSize..] == a[blockSize..] + b;
    }
  }

  lemma EndOfBlock(e: Cipher, blockSize: nat, c: Octets, b: Octets)
    requires OnBlocks(e, blockSize) && |c| == |b| == blockSize
    ensures |b| % blockSize == 0 && End(e, blockSize, c, b) == e(XorBytes(c, b))
  {
    hide XorBytes;
    RemainderUnique(blockSize, blockSize, 1, 0);
    assert b[..blockSize] == b && b[blockSize..] == [];
  }

  /** The function has two values on blocks. */
  ghost predicate TwoValued(e: Cipher, blockSize: nat, u: Octets, v: Octets) {
    forall x: Octets :: |x| == blockSize ==> e(x) == u || e(x) == v
  }

  lemma {:induction false} EndIsOneOfTwo(e: Cipher, blockSize: nat, c: Octets, data: Octets, u: Octets, v: Octets)
    requires OnBlocks(e, blockSize) && |u| == |v| == blockSize && |data| % blockSize == 0
    requires TwoValued(e, blockSize, u, v) && (c == u || c == v)
    ensures End(e, blockSize, c, data) == u || End(e, blockSize, c, data) == v
    decreases |data|
  {
    hide XorBytes;
    if |data| > 0 {
      BlockFits(blockSize, |data|);
      EndIsOneOfTwo(e, blockSize, e(XorBytes(c, data[..blockSize])), data[blockSize..], u, v);
    }
  }

  lemma XorWithZeros(c: Octets)
    ensures XorBytes(c, ZeroBytes(|c|)) == c && XorBytes(ZeroBytes(|c|), c) == c && XorBytes(c, c) == ZeroBytes(|c|)
  {
    hide Xor8;
    forall i | 0 <= i < |c|
      ensures Xor8(c[i], 0) == c[i] && Xor8(0, c[i]) == c[i] && Xor8(c[i], c[i]) == 0
    {
      ByteXors(c[i]);
    }
  }

  lemma ByteXors(b: bv8)
    ensures Xor8(b, 0) == b && Xor8(0, b) == b && Xor8(b, b) == 0
  {
  }

  // ----- cmac as a chaining value -----

  /** A null IV, given or left out. */
  predicate NullIv(iv: Octets, blockSize: nat) { iv == [] || iv == ZeroBytes(blockSize) }

  function UnitOf(unit: nat, blockSize: nat): nat { if unit == 0 then blockSize else unit }

  lemma MacIsEnd(e: Cipher, blockSize: nat, data: Octets, iv: Octets, unit: nat, forceK2: bool)
    requires OnBlocks(e, blockSize) && NullIv(iv, blockSize) && unit % blockSize == 0
    ensures var u := UnitOf(unit, blockSize);
            && |Padded(data, u)| >= blockSize && |Padded(data, u)| % blockSize == 0
            && MacOf(e, blockSize, data, iv, unit, forceK2) ==
               Tag(End(e, blockSize, ZeroBytes(blockSize), Prepared(data, u, K1(e, blockSize), K2(e, blockSize), forceK2)))
  {
    hide Cbc, Prepared, Padded, K1, K2, LastBlock, End;
    var u := UnitOf(unit, blockSize);
    RemainderUnique(blockSize, blockSize, 1, 0);
    PaddedBlocks(data, blockSize, u);
    EndIsLast(e, blockSize, ZeroBytes(blockSize), Prepared(data, u, K1(e, blockSize), K2(e, blockSize), forceK2));
  }

  lemma StandardIsEnd(e: Cipher, blockSize: nat, data: Octets)
    requires OnBlocks(e, blockSize)
    ensures |Padded(data, blockSize)| >= blockSize && |Padded(data, blockSize)| % blockSize == 0
    ensures StandardMac(e, blockSize, data) ==
            End(e, blockSize, ZeroBytes(blockSize), Prepared(data, blockSize, K1(e, blockSize), K2(e, blockSize), false))
  {
    hide StandardMac, Prepared, Padded, K1, K2, End, MacOf;
    RemainderUnique(blockSize, blockSize, 1, 0);
    MacIsStandard(e, blockSize, data, blockSize);
    MacIsEnd(e, blockSize, data, [], blockSize, false);
  }

  /** A function that keeps the zero block has zero subkeys, and then padding is all that is prepared. */
  lemma ZeroKeys(e: Cipher, blockSize: nat, data: Octets, unit: nat, forceK2: bool)
    requires OnBlocks(e, blockSize) && e(ZeroBytes(blockSize)) == ZeroBytes(blockSize)
    requires unit > 0 && |Padded(data, unit)| >= blockSize
    ensures Prepared(data, unit, K1(e, blockSize), K2(e, blockSize), forceK2) == Padded(data, unit)
  {
    hide Subkey, Padded, XorBytes;
    ZeroSubkey(blockSize, Rb(blockSize));
    var p := Padded(data, unit);
    XorWithZeros(p[|p| - blockSize..]);
  }

  // ----- lengths -----

  lemma PaddedTotal(len: nat, unit: nat)
    requires unit > 0
    ensures (len + PadCount(len, unit)) % unit == 0
  {
    var data := ZeroBytes(len);
    PaddedLength(data, unit);
  }

  lemma WholeUnitsAreBlocks(len: nat, blockSize: nat, unit: nat)
    requires blockSize > 0 && unit > 0 && unit % blockSize == 0
    ensures PadCount(len, unit) == 0 ==> len > 0 && len % blockSize == 0
  {
    PadCountBelow(len, unit);
    if PadCount(len, unit) == 0 {
      MultipleOfBlock(unit, blockSize, len);
    }
  }

  /** Padding to units is padding to blocks and then whole blocks more. */
  lemma PadsNest(len: nat, blockSize: nat, unit: nat)
    requires blockSize > 0 && unit > 0 && unit % blockSize == 0
    ensures PadCount(len, blockSize) <= PadCount(len, unit)
    ensures (PadCount(len, unit) - PadCount(len, blockSize)) % blockSize == 0
    ensures PadCount(len, unit) == 0 ==> PadCount(len, blockSize) == 0
    ensures PadCount(len, blockSize) == 0 <==> len > 0 && len % blockSize == 0
  {
    hide PadCount;
    PadCountBelow(len, blockSize);
    BlockPadIsSmall(len, blockSize);
    WholeUnitsAreBlocks(len, blockSize, unit);
    PaddedTotal(len, unit);
    PaddedTotal(len, blockSize);
    var x, y := len + PadCount(len, unit), len + PadCount(len, blockSize);
    MultipleOfBlock(unit, blockSize, x);
    MultiplesApart(blockSize, x, y);
    assert x - y == PadCount(len, unit) - PadCount(len, blockSize);
  }

  lemma BlockPadIsSmall(len: nat, blockSize: nat)
    requires blockSize > 0
    ensures len > 0 ==> PadCount(len, blockSize) < blockSize
    ensures len == 0 ==> PadCount(len, blockSize) == blockSize
    ensures PadCount(len, blockSize) == 0 ==> len > 0
    ensures len > 0 && len % blockSize != 0 ==> PadCount(len, blockSize) == blockSize - len % blockSize
  {
    PadCountBelow(len, blockSize);
    RemainderIsBelow(len, blockSize);
  }

  lemma ZerosJoin(a: nat, b: nat)
    ensures ZeroBytes(a) + ZeroBytes(b) == ZeroBytes(a + b)
  {
  }

  // ----- three block functions -----

  function One(blockSize: nat): (r: Octets)
    requires blockSize > 0
    ensures |r| == blockSize
  {
    ZeroBytes(blockSize)[blockSize - 1 := 1]
  }

  /** The top bit of one byte, moved to the last bit of the block. */
  function KeepsBit(blockSize: nat, pos: nat): Cipher
    requires pos < blockSize
  {
    x => if |x| == blockSize && Top(x[pos]) then One(blockSize) else ZeroBytes(blockSize)
  }

  function PadBlock(blockSize: nat): (r: Octets)
    requires blockSize > 0
    ensures |r| == blockSize
  {
    [0x80] + ZeroBytes(blockSize - 1)
  }

  /** The block of padding to itself, everything else to zero. */
  function KeepsPad(blockSize: nat): Cipher
    requires blockSize > 0
  {
    x => if x == PadBlock(blockSize) then PadBlock(blockSize) else ZeroBytes(blockSize)
  }

  predicate Second(b: bv8) { b & 0x02 != 0 }

  /** The complement of the last bit but one, as the last bit. */
  function NegatesSecond(blockSize: nat): Cipher
    requires blockSize > 0
  {
    x => if |x| == blockSize && !Second(x[blockSize - 1]) then One(blockSize) else ZeroBytes(blockSize)
  }

  lemma TopOfXor(x: bv8, y: bv8)
    ensures Top(Xor8(x, y)) == (Top(x) != Top(y)) && !Top(0) && !Top(1) && Top(0x80)
  {
  }

  lemma SecondOfXor(x: bv8, y: bv8)
    ensures Second(Xor8(x, y)) == (Second(x) != Second(y))
    ensures !Second(0) && !Second(1) && Second(2) && !Second(4)
  {
  }

  /** Padding a message that does not fill its last block: the 0x80 stands at the same place for blocks
      and units, and units only add zeros. */
  lemma PartialPadding(blockSize: nat, data: Octets, unit: nat)
    requires blockSize > 0 && unit > 0 && unit % blockSize == 0
    requires |data| == 0 || |data| % blockSize != 0
    ensures PadCount(|data|, blockSize) <= PadCount(|data|, unit)
    ensures var d, more := Padded(data, blockSize), PadCount(|data|, unit) - PadCount(|data|, blockSize);
            && more % blockSize == 0 && Padded(data, unit) == d + ZeroBytes(more)
            && |d| >= blockSize && d[|d| - blockSize + |data| % blockSize] == 0x80
  {
    hide PadCount;
    var len := |data|;
    PadsNest(len, blockSize, unit);
    BlockPadIsSmall(len, blockSize);
    SmallRemainder(0, blockSize);
    PaddedLength(data, blockSize);
    var pb, more := PadCount(len, blockSize), PadCount(len, unit) - PadCount(len, blockSize);
    ZerosJoin(pb - 1, more);
    assert data + [0x80] + ZeroBytes(pb - 1 + more) == data + [0x80] + ZeroBytes(pb - 1) + ZeroBytes(more);
    assert |Padded(data, blockSize)| - blockSize + len % blockSize == len;
  }

  /** A message that is empty or ends in a partial block: the standard's tag keeps the padding bit, and
      a further block of zeros loses it. */
  lemma PartialBlockDiffers(blockSize: nat, data: Octets, iv: Octets, unit: nat, forceK2: bool)
    requires blockSize > 0 && unit > 0 && unit % blockSize == 0 && NullIv(iv, blockSize)
    requires |data| == 0 || |data| % blockSize != 0
    requires RoundedUp(|data|, unit) != RoundedUp(|data|, blockSize)
    ensures var e := KeepsBit(blockSize, |data| % blockSize);
            OnBlocks(e, blockSize) && MacOf(e, blockSize, data, iv, unit, forceK2) != Tag(StandardMac(e, blockSize, data))
  {
    hide MacOf, StandardMac, Prepared, End, PadCount, Padded, KeepsBit, K1, K2;
    var len, pos := |data|, |data| % blockSize;
    RemainderIsBelow(len, blockSize);
    var e, zero := KeepsBit(blockSize, pos), ZeroBytes(blockSize);
    KeepsBitKeepsZero(blockSize, pos);
    MacIsEnd(e, blockSize, data, iv, unit, forceK2);
    StandardIsEnd(e, blockSize, data);
    ZeroKeys(e, blockSize, data, unit, forceK2);
    ZeroKeys(e, blockSize, data, blockSize, false);
    PartialPadding(blockSize, data, unit);
    var d, more := Padded(data, blockSize), PadCount(len, unit) - PadCount(len, blockSize);
    BitTells(blockSize, pos, d, more);
  }

  /** The marked message ends in one, and with zeros behind it in zero. */
  lemma BitTells(blockSize: nat, pos: nat, d: Octets, more: nat)
    requires pos < blockSize <= |d| && |d| % blockSize == 0 && d[|d| - blockSize + pos] == 0x80
    requires more > 0 && more % blockSize == 0
    ensures |d + ZeroBytes(more)| % blockSize == 0
    ensures var e, zero := KeepsBit(blockSize, pos), ZeroBytes(blockSize);
            End(e, blockSize, zero, d) != End(e, blockSize, zero, d + ZeroBytes(more))
  {
    hide End, One, KeepsBit;
    KeepsBitKeepsZero(blockSize, pos);
    EndSplit(KeepsBit(blockSize, pos), blockSize, ZeroBytes(blockSize), d, ZeroBytes(more));
    MarkedEnd(blockSize, pos, d);
    ForgottenEnd(blockSize, pos, One(blockSize), more);
    OneIsNotZero(blockSize);
  }

  lemma KeepsBitKeepsZero(blockSize: nat, pos: nat)
    requires pos < blockSize
    ensures OnBlocks(KeepsBit(blockSize, pos), blockSize)
    ensures KeepsBit(blockSize, pos)(ZeroBytes(blockSize)) == ZeroBytes(blockSize)
  {
    hide Top;
    TopOfXor(0, 0);
  }

  lemma OneIsNotZero(blockSize: nat)
    requires blockSize > 0
    ensures One(blockSize) != ZeroBytes(blockSize)
  {
    assert One(blockSize)[blockSize - 1] != ZeroBytes(blockSize)[blockSize - 1];
  }

  /** With a byte 0x80 at the watched place of the last block the chain ends in one. */
  lemma MarkedEnd(blockSize: nat, pos: nat, d: Octets)
    requires pos < blockSize <= |d| && |d| % blockSize == 0 && d[|d| - blockSize + pos] == 0x80
    ensures End(KeepsBit(blockSize, pos), blockSize, ZeroBytes(blockSize), d) == One(blockSize)
  {
    hide Top, Xor8, End;
    var e, zero, one := KeepsBit(blockSize, pos), ZeroBytes(blockSize), One(blockSize);
    var front, b := d[..|d| - blockSize], d[|d| - blockSize..];
    RemainderOfSum(|d|, blockSize);
    assert d == front + b;
    EndOfBlock(e, blockSize, zero, b);
    EndSplit(e, blockSize, zero, front, b);
    EndIsOneOfTwo(e, blockSize, zero, front, zero, one);
    var c := End(e, blockSize, zero, front);
    EndOfBlock(e, blockSize, c, b);
    TopOfXor(c[pos], b[pos]);
  }

  /** Over blocks of zeros the function forgets everything. */
  lemma ForgottenEnd(blockSize: nat, pos: nat, c: Octets, more: nat)
    requires pos < blockSize && more > 0 && more % blockSize == 0
    requires c == ZeroBytes(blockSize) || c == One(blockSize)
    ensures End(KeepsBit(blockSize, pos), blockSize, c, ZeroBytes(more)) == ZeroBytes(blockSize)
  {
    hide Top, Xor8, End;
    var e, zero, one := KeepsBit(blockSize, pos), ZeroBytes(blockSize), One(blockSize);
    BlockFits(blockSize, more);
    ZerosJoin(more - blockSize, blockSize);
    EndOfBlock(e, blockSize, c, zero);
    EndSplit(e, blockSize, c, ZeroBytes(more - blockSize), zero);
    EndIsOneOfTwo(e, blockSize, c, ZeroBytes(more - blockSize), zero, one);
    var c' := End(e, blockSize, c, ZeroBytes(more - blockSize));
    EndOfBlock(e, blockSize, c', zero);
    TopOfXor(c'[pos], 0);
  }

  lemma WholePadding(blockSize: nat, data: Octets, unit: nat)
    requires blockSize > 0 && unit > 0 && unit % blockSize == 0
    requires |data| > 0 && |data| % blockSize == 0 && PadCount(|data|, unit) > 0
    ensures Padded(data, blockSize) == data
    ensures var more := PadCount(|data|, unit);
            && more >= blockSize && (more - blockSize) % blockSize == 0
            && Padded(data, unit) == data + PadBlock(blockSize) + ZeroBytes(more - blockSize)
  {
    hide PadCount;
    PadsNest(|data|, blockSize, unit);
    var more := PadCount(|data|, unit);
    BlockFits(blockSize, more);
    ZerosJoin(blockSize - 1, more - blockSize);
    assert data + [0x80] + ZeroBytes(more - 1) == data + PadBlock(blockSize) + ZeroBytes(more - blockSize);
  }

  lemma PadIsNotZero(blockSize: nat)
    requires blockSize > 0
    ensures PadBlock(blockSize) != ZeroBytes(blockSize) && OnBlocks(KeepsPad(blockSize), blockSize)
    ensures TwoValued(KeepsPad(blockSize), blockSize, ZeroBytes(blockSize), PadBlock(blockSize))
  {
    assert PadBlock(blockSize)[0] != ZeroBytes(blockSize)[0];
  }

  /** A nonempty message of whole blocks: the standard pads nothing, and a block of padding always
      exchanges the two values of the chain. */
  lemma WholeBlocksDiffer(blockSize: nat, data: Octets, iv: Octets, unit: nat, forceK2: bool)
    requires blockSize > 0 && unit > 0 && unit % blockSize == 0 && NullIv(iv, blockSize)
    requires |data| > 0 && |data| % blockSize == 0
    requires RoundedUp(|data|, unit) != RoundedUp(|data|, blockSize)
    ensures var e := KeepsPad(blockSize);
            OnBlocks(e, blockSize) && MacOf(e, blockSize, data, iv, unit, forceK2) != Tag(StandardMac(e, blockSize, data))
  {
    hide MacOf, StandardMac, Prepared, End, XorBytes, PadCount, Padded, PadBlock, TwoValued;
    var len, e, zero, pad := |data|, KeepsPad(blockSize), ZeroBytes(blockSize), PadBlock(blockSize);
    PadIsNotZero(blockSize);
    MacIsEnd(e, blockSize, data, iv, unit, forceK2);
    StandardIsEnd(e, blockSize, data);
    ZeroKeys(e, blockSize, data, unit, forceK2);
    ZeroKeys(e, blockSize, data, blockSize, false);
    PadsNest(len, blockSize, unit);
    WholePadding(blockSize, data, unit);
    var more := PadCount(len, unit) - blockSize;
    EndIsOneOfTwo(e, blockSize, zero, data, zero, pad);
    var t := End(e, blockSize, zero, data);
    EndOfBlock(e, blockSize, t, pad);
    EndSplit(e, blockSize, zero, data, pad);
    EndSplit(e, blockSize, zero, data + pad, ZeroBytes(more));
    XorWithZeros(pad);
    KeptEnd(blockSize, e(XorBytes(t, pad)), more);
  }

  lemma {:induction false} KeptEnd(blockSize: nat, c: Octets, more: nat)
    requires blockSize > 0 && more % blockSize == 0 && (c == ZeroBytes(blockSize) || c == PadBlock(blockSize))
    ensures End(KeepsPad(blockSize), blockSize, c, ZeroBytes(more)) == c
    decreases more
  {
    hide XorBytes;
    if more > 0 {
      BlockFits(blockSize, more);
      assert ZeroBytes(more)[..blockSize] == ZeroBytes(blockSize);
      assert ZeroBytes(more)[blockSize..] == ZeroBytes(more - blockSize);
      XorWithZeros(c);
      KeptEnd(blockSize, c, more - blockSize);
    }
  }

  lemma SubkeyOfLast(blockSize: nat, x: bv8, rb: bv8)
    requires blockSize > 0 && !Top(x)
    ensures Subkey(ZeroBytes(blockSize)[blockSize - 1 := x], rb) == ZeroBytes(blockSize)[blockSize - 1 := Left(x)]
  {
    hide ShiftIn, Top, ShiftByte, Left;
    var l := ZeroBytes(blockSize)[blockSize - 1 := x];
    TopOfXor(0, 0);
    ShiftedByteParts(x, false);
    ShiftedZero();
    forall i | 0 <= i < blockSize
      ensures ShiftIn(l, false)[i] == ZeroBytes(blockSize)[blockSize - 1 := Left(x)][i]
    {
      ShiftInAt(l, false, i);
    }
  }

  lemma ShiftedZero()
    ensures ShiftByte(0, false) == 0 && Left(1) == 2 && Left(2) == 4 && !Top(2)
  {
  }

  lemma NegatesSecondKeys(blockSize: nat)
    requires blockSize > 0
    ensures var e, zero := NegatesSecond(blockSize), ZeroBytes(blockSize);
            && OnBlocks(e, blockSize) && TwoValued(e, blockSize, zero, One(blockSize))
            && K1(e, blockSize) == zero[blockSize - 1 := 2] && K2(e, blockSize) == zero[blockSize - 1 := 4]
  {
    hide Subkey, Top, Left, Second;
    SecondOfXor(0, 0);
    TopOfXor(0, 0);
    ShiftedZero();
    SubkeyOfLast(blockSize, 1, Rb(blockSize));
    SubkeyOfLast(blockSize, 2, Rb(blockSize));
  }

  /** The tag of whole blocks with a subkey on the last one shows the second bit of message and subkey. */
  lemma SecondBitOfEnd(blockSize: nat, data: Octets, k: Octets)
    requires 0 < blockSize <= |data| && |data| % blockSize == 0 && |k| == blockSize
    ensures OnBlocks(NegatesSecond(blockSize), blockSize)
    ensures End(NegatesSecond(blockSize), blockSize, ZeroBytes(blockSize), XorTail(data, k)) ==
            if Second(data[|data| - 1]) == Second(k[blockSize - 1]) then One(blockSize) else ZeroBytes(blockSize)
  {
    hide Subkey, Second, Xor8, End;
    var e, zero, one := NegatesSecond(blockSize), ZeroBytes(blockSize), One(blockSize);
    var front, m := data[..|data| - blockSize], data[|data| - blockSize..];
    var b := XorBytes(m, k);
    RemainderOfSum(|data|, blockSize);
    assert XorTail(data, k) == front + b;
    EndOfBlock(e, blockSize, zero, b);
    EndSplit(e, blockSize, zero, front, b);
    EndIsOneOfTwo(e, blockSize, zero, front, zero, one);
    var c := End(e, blockSize, zero, front);
    EndOfBlock(e, blockSize, c, b);
    SecondOfXor(m[blockSize - 1], k[blockSize - 1]);
    SecondOfXor(c[blockSize - 1], b[blockSize - 1]);
  }

  /** Forcing K2 where the standard takes K1. */
  lemma ForcedK2Differs(blockSize: nat, data: Octets, iv: Octets, unit: nat)
    requires blockSize > 0 && unit > 0 && unit % blockSize == 0 && NullIv(iv, blockSize)
    requires PadCount(|data|, unit) == 0
    ensures var e := NegatesSecond(blockSize);
            OnBlocks(e, blockSize) && MacOf(e, blockSize, data, iv, unit, true) != Tag(StandardMac(e, blockSize, data))
  {
    hide MacOf, StandardMac, End, XorTail, K1, K2, Second, PadCount;
    var e, zero, one := NegatesSecond(blockSize), ZeroBytes(blockSize), One(blockSize);
    NegatesSecondKeys(blockSize);
    MacIsEnd(e, blockSize, data, iv, unit, true);
    StandardIsEnd(e, blockSize, data);
    PadsNest(|data|, blockSize, unit);
    SecondBitOfEnd(blockSize, data, K1(e, blockSize));
    SecondBitOfEnd(blockSize, data, K2(e, blockSize));
    SecondOfXor(0, 0);
    assert one[blockSize - 1] != zero[blockSize - 1];
  }

  // ----- exactly when -----

  lemma SameWhenRoundedAlike(e: Cipher, blockSize: nat, data: Octets, iv: Octets, unit: nat, forceK2: bool)
    requires OnBlocks(e, blockSize) && unit > 0 && unit % blockSize == 0 && NullIv(iv, blockSize)
    requires RoundedUp(|data|, unit) == RoundedUp(|data|, blockSize)
    requires !(forceK2 && PadCount(|data|, unit) == 0)
    ensures MacOf(e, blockSize, data, iv, unit, forceK2) == Tag(StandardMac(e, blockSize, data))
  {
    hide MacOf, StandardMac, End, XorTail, K1, K2, PadCount;
    MacIsEnd(e, blockSize, data, iv, unit, forceK2);
    StandardIsEnd(e, blockSize, data);
  }

  ghost predicate AlwaysStandard(blockSize: nat, data: Octets, iv: Octets, unit: nat, forceK2: bool)
    requires NullIv(iv, blockSize)
  {
    forall e: Cipher :: OnBlocks(e, blockSize) ==>
      MacOf(e, blockSize, data, iv, unit, forceK2) == Tag(StandardMac(e, blockSize, data))
  }

  /** cmac gives the standard's MAC under every function on blocks if and only if rounding the length up to
      units and to blocks comes to the same, and K2 is not forced on a message of whole units. */
  lemma StandardExactlyWhen(blockSize: nat, data: Octets, iv: Octets, unit: nat, forceK2: bool)
    requires blockSize > 0 && unit % blockSize == 0 && NullIv(iv, blockSize)
    ensures var u := UnitOf(unit, blockSize);
            AlwaysStandard(blockSize, data, iv, unit, forceK2) <==>
            RoundedUp(|data|, u) == RoundedUp(|data|, blockSize) && !(forceK2 && PadCount(|data|, u) == 0)
  {
    hide MacOf, StandardMac, PadCount, RoundedUp;
    var u := UnitOf(unit, blockSize);
    RemainderUnique(blockSize, blockSize, 1, 0);
    forall e: Cipher | OnBlocks(e, blockSize)
      ensures MacOf(e, blockSize, data, iv, unit, forceK2) == MacOf(e, blockSize, data, iv, u, forceK2)
    {
      ZeroIsOneBlock(e, blockSize, data, iv, forceK2);
    }
    if RoundedUp(|data|, u) != RoundedUp(|data|, blockSize) {
      if |data| == 0 || |data| % blockSize != 0 {
        PartialBlockDiffers(blockSize, data, iv, u, forceK2);
      } else {
        WholeBlocksDiffer(blockSize, data, iv, u, forceK2);
      }
    } else if forceK2 && PadCount(|data|, u) == 0 {
      ForcedK2Differs(blockSize, data, iv, u);
    } else {
      forall e: Cipher | OnBlocks(e, blockSize)
        ensures MacOf(e, blockSize, data, iv, u, forceK2) == Tag(StandardMac(e, blockSize, data))
      {
        SameWhenRoundedAlike(e, blockSize, data, iv, u, forceK2);
      }
    }
  }

  lemma ZeroIsOneBlock(e: Cipher, blockSize: nat, data: Octets, iv: Octets, forceK2: bool)
    requires OnBlocks(e, blockSize) && NullIv(iv, blockSize)
    ensures MacOf(e, blockSize, data, iv, 0, forceK2) == MacOf(e, blockSize, data, iv, blockSize, forceK2)
  {
    hide Cbc, Prepared, Padded;
  }

  // ----- units of two blocks, under permutations -----

  /** What a block cipher under a key is: a permutation of the blocks. */
  ghost predicate IsPermutation(e: Cipher, blockSize: nat) {
    OnBlocks(e, blockSize) && exists d: Cipher :: Inverts(e, d, blockSize)
  }

  ghost predicate Inverts(e: Cipher, d: Cipher, blockSize: nat) {
    forall x: Octets :: |x| == blockSize ==> |d(x)| == blockSize && d(e(x)) == x && e(d(x)) == x
  }

  /** Every block with its last bit changed. */
  function FlipsLast(blockSize: nat): Cipher
    requires blockSize > 0
  {
    x => if |x| == blockSize then XorBytes(x, One(blockSize)) else ZeroBytes(blockSize)
  }

  lemma FlipsLastIsPermutation(blockSize: nat)
    requires blockSize > 0
    ensures IsPermutation(FlipsLast(blockSize), blockSize)
  {
    var e := FlipsLast(blockSize);
    forall x: Octets | |x| == blockSize
      ensures |e(x)| == blockSize && e(e(x)) == x
    {
      XorTwice(x, One(blockSize));
    }
    assert Inverts(e, e, blockSize);
  }

  lemma XorTwice(x: Octets, y: Octets)
    requires |x| == |y|
    ensures XorBytes(XorBytes(x, y), y) == x
  {
    hide Xor8;
    forall i | 0 <= i < |x|
      ensures Xor8(Xor8(x[i], y[i]), y[i]) == x[i]
    {
      ByteXorTwice(x[i], y[i]);
    }
  }

  lemma ByteXorTwice(x: bv8, y: bv8)
    ensures Xor8(Xor8(x, y), y) == x
  {
  }

  lemma FlipsLastKeys(blockSize: nat)
    requires blockSize > 0
    ensures var e, zero := FlipsLast(blockSize), ZeroBytes(blockSize);
            OnBlocks(e, blockSize) && K1(e, blockSize) == zero[blockSize - 1 := 2] && K2(e, blockSize) == zero[blockSize - 1 := 4]
  {
    hide Subkey, Top, Left, XorBytes;
    XorWithZeros(One(blockSize));
    TopOfXor(0, 0);
    ShiftedZero();
    SubkeyOfLast(blockSize, 1, Rb(blockSize));
    SubkeyOfLast(blockSize, 2, Rb(blockSize));
  }

  /** The chain with a subkey on the last block. */
  lemma EndOfTail(e: Cipher, blockSize: nat, c: Octets, p: Octets, k: Octets)
    requires OnBlocks(e, blockSize) && |c| == |k| == blockSize <= |p| && |p| % blockSize == 0
    ensures (|p| - blockSize) % blockSize == 0
    ensures End(e, blockSize, c, XorTail(p, k)) ==
            e(XorBytes(End(e, blockSize, c, p[..|p| - blockSize]), XorBytes(p[|p| - blockSize..], k)))
  {
    hide XorBytes, End;
    var front, b := p[..|p| - blockSize], p[|p| - blockSize..];
    RemainderOfSum(|p|, blockSize);
    EndOfBlock(e, blockSize, c, XorBytes(b, k));
    EndSplit(e, blockSize, c, front, XorBytes(b, k));
    EndOfBlock(e, blockSize, End(e, blockSize, c, front), XorBytes(b, k));
  }

  /** The last byte of the two tags, from the chaining value before the last block. */
  lemma BlocksTell(blockSize: nat, c: Octets, b: Octets, k: Octets, extra: Octets, k2: Octets)
    requires 0 < blockSize == |c| == |b| == |k| == |extra| == |k2|
    requires (k[blockSize - 1] == 4 && extra[blockSize - 1] == 0) ||
             (k[blockSize - 1] == 2 && (extra[blockSize - 1] == 0 || extra[blockSize - 1] == 0x80))
    requires k2[blockSize - 1] == 4
    ensures var e := FlipsLast(blockSize);
            e(XorBytes(c, XorBytes(b, k))) != e(XorBytes(e(XorBytes(c, b)), XorBytes(extra, k2)))
  {
    hide Xor8;
    var e, last := FlipsLast(blockSize), blockSize - 1;
    ByteTells(c[last], b[last], k[last], extra[last]);
    assert e(XorBytes(c, XorBytes(b, k)))[last] == Xor8(Xor8(c[last], Xor8(b[last], k[last])), 1);
    assert e(XorBytes(e(XorBytes(c, b)), XorBytes(extra, k2)))[last] ==
           Xor8(Xor8(Xor8(Xor8(c[last], b[last]), 1), Xor8(extra[last], 4)), 1);
  }

  /** The chain over one block more, from the chaining value before the last block. */
  lemma EndOfLonger(e: Cipher, blockSize: nat, z: Octets, p: Octets, extra: Octets, k2: Octets)
    requires OnBlocks(e, blockSize) && |z| == |extra| == |k2| == blockSize <= |p| && |p| % blockSize == 0
    ensures (|p| - blockSize) % blockSize == 0 && |p + extra| % blockSize == 0
    ensures var c, b := End(e, blockSize, z, p[..|p| - blockSize]), p[|p| - blockSize..];
            End(e, blockSize, z, XorTail(p + extra, k2)) == e(XorBytes(e(XorBytes(c, b)), XorBytes(extra, k2)))
  {
    hide End, XorBytes, XorTail;
    var front, b := p[..|p| - blockSize], p[|p| - blockSize..];
    RemainderOfSum(|p|, blockSize);
    EndOfBlock(e, blockSize, z, extra);
    EndSplit(e, blockSize, z, p, extra);
    EndOfTail(e, blockSize, z, p + extra, k2);
    assert (p + extra)[..|p|] == p && (p + extra)[|p|..] == extra;
    assert p == front + b;
    EndOfBlock(e, blockSize, z, b);
    EndSplit(e, blockSize, z, front, b);
    EndOfBlock(e, blockSize, End(e, blockSize, z, front), b);
  }

  lemma OneMoreBlockTells(blockSize: nat, p: Octets, k: Octets, extra: Octets, k2: Octets)
    requires 0 < blockSize <= |p| && |p| % blockSize == 0 && |k| == |extra| == |k2| == blockSize
    requires (k[blockSize - 1] == 4 && extra[blockSize - 1] == 0) ||
             (k[blockSize - 1] == 2 && (extra[blockSize - 1] == 0 || extra[blockSize - 1] == 0x80))
    requires k2[blockSize - 1] == 4
    ensures OnBlocks(FlipsLast(blockSize), blockSize) && |p + extra| % blockSize == 0
    ensures var e, zero := FlipsLast(blockSize), ZeroBytes(blockSize);
            End(e, blockSize, zero, XorTail(p, k)) != End(e, blockSize, zero, XorTail(p + extra, k2))
  {
    hide End, XorBytes, XorTail, FlipsLast;
    FlipsLastKeys(blockSize);
    var e, zero := FlipsLast(blockSize), ZeroBytes(blockSize);
    EndOfTail(e, blockSize, zero, p, k);
    EndOfLonger(e, blockSize, zero, p, extra, k2);
    BlocksTell(blockSize, End(e, blockSize, zero, p[..|p| - blockSize]), p[|p| - blockSize..], k, extra, k2);
  }

  lemma ByteTells(c: bv8, b: bv8, k: bv8, x: bv8)
    requires (k == 4 && x == 0) || (k == 2 && (x == 0 || x == 0x80))
    ensures Xor8(Xor8(c, Xor8(b, k)), 1) != Xor8(Xor8(Xor8(Xor8(c, b), 1), Xor8(x, 4)), 1)
  {
  }

  lemma OtherKeyTells(blockSize: nat, p: Octets, k: Octets, k2: Octets)
    requires 0 < blockSize <= |p| && |p| % blockSize == 0 && |k| == |k2| == blockSize
    requires k[blockSize - 1] == 2 && k2[blockSize - 1] == 4
    ensures OnBlocks(FlipsLast(blockSize), blockSize)
    ensures var e, zero := FlipsLast(blockSize), ZeroBytes(blockSize);
            End(e, blockSize, zero, XorTail(p, k)) != End(e, blockSize, zero, XorTail(p, k2))
  {
    hide End, Xor8, XorTail;
    var e, zero, last := FlipsLast(blockSize), ZeroBytes(blockSize), blockSize - 1;
    var front, b := p[..|p| - blockSize], p[|p| - blockSize..];
    RemainderOfSum(|p|, blockSize);
    EndOfTail(e, blockSize, zero, p, k);
    EndOfTail(e, blockSize, zero, p, k2);
    var c := End(e, blockSize, zero, front);
    ByteKeysTell(c[last], b[last]);
    assert End(e, blockSize, zero, XorTail(p, k))[last] == Xor8(Xor8(c[last], Xor8(b[last], 2)), 1);
    assert End(e, blockSize, zero, XorTail(p, k2))[last] == Xor8(Xor8(c[last], Xor8(b[last], 4)), 1);
  }

  lemma ByteKeysTell(c: bv8, b: bv8)
    ensures Xor8(Xor8(c, Xor8(b, 2)), 1) != Xor8(Xor8(c, Xor8(b, 4)), 1)
  {
  }

  /** Rounded up to two blocks instead of one, a message gets one block more or none. */
  lemma OneBlockMore(len: nat, blockSize: nat)
    requires blockSize > 0
    ensures (2 * blockSize) % blockSize == 0
    ensures var more := PadCount(len, 2 * blockSize) - PadCount(len, blockSize);
            more == if RoundedUp(len, blockSize) % (2 * blockSize) == 0 then 0 else blockSize
  {
    hide PadCount;
    var unit := 2 * blockSize;
    MultipleHasNoRemainder(blockSize, 2);
    PadsNest(len, blockSize, unit);
    PaddedTotal(len, unit);
    PaddedTotal(len, blockSize);
    BlockPadIsSmall(len, unit);
    BlockPadIsSmall(len, blockSize);
    SmallRemainder(blockSize, unit);
    var rb, ru := len + PadCount(len, blockSize), len + PadCount(len, unit);
    if rb % unit == 0 {
      MultiplesApart(unit, ru, rb);
      MultiplesApart(blockSize, ru - rb, blockSize);
    } else {
      MoreIsOneBlock(ru - rb, blockSize);
    }
  }

  lemma MoreIsOneBlock(more: nat, blockSize: nat)
    requires blockSize > 0 && more % blockSize == 0 && 0 < more < 2 * blockSize
    ensures more == blockSize
  {
    MultiplesApart(blockSize, more, 0);
    RemainderUnique(blockSize, blockSize, 1, 0);
    MultiplesApart(blockSize, more, blockSize);
  }

  /** One block more, or another key: the permutation that flips the last bit tells the tags apart. */
  lemma FlipTells(blockSize: nat, data: Octets, iv: Octets, forceK2: bool)
    requires blockSize > 0 && NullIv(iv, blockSize)
    requires RoundedUp(|data|, blockSize) % (2 * blockSize) != 0 || (forceK2 && PadCount(|data|, 2 * blockSize) == 0)
    ensures var e := FlipsLast(blockSize);
            && OnBlocks(e, blockSize)
            && MacOf(e, blockSize, data, iv, 2 * blockSize, forceK2) != Tag(StandardMac(e, blockSize, data))
  {
    hide MacOf, StandardMac, End, XorTail, K1, K2, PadCount, FlipsLast, Padded;
    var e, unit, len := FlipsLast(blockSize), 2 * blockSize, |data|;
    FlipsLastKeys(blockSize);
    OneBlockMore(len, blockSize);
    PadsNest(len, blockSize, unit);
    MacIsEnd(e, blockSize, data, iv, unit, forceK2);
    StandardIsEnd(e, blockSize, data);
    var p := Padded(data, blockSize);
    if RoundedUp(len, blockSize) % unit == 0 {
      WholeIsUnpadded(data, blockSize, unit);
      OtherKeyTells(blockSize, p, K1(e, blockSize), K2(e, blockSize));
    } else if PadCount(len, blockSize) == 0 {
      WholePadding(blockSize, data, unit);
      assert p + PadBlock(blockSize) + ZeroBytes(0) == p + PadBlock(blockSize);
      OneMoreBlockTells(blockSize, p, K1(e, blockSize), PadBlock(blockSize), K2(e, blockSize));
    } else {
      PartialPadding(blockSize, data, unit);
      OneMoreBlockTells(blockSize, p, K2(e, blockSize), ZeroBytes(blockSize), K2(e, blockSize));
    }
  }

  lemma WholeIsUnpadded(data: Octets, blockSize: nat, unit: nat)
    requires blockSize > 0 && unit > 0
    ensures PadCount(|data|, blockSize) == 0 ==> Padded(data, blockSize) == data
    ensures PadCount(|data|, unit) == 0 ==> Padded(data, unit) == data
  {
  }

  ghost predicate StandardForCiphers(blockSize: nat, data: Octets, iv: Octets, unit: nat, forceK2: bool)
    requires NullIv(iv, blockSize)
  {
    forall e: Cipher :: IsPermutation(e, blockSize) ==>
      MacOf(e, blockSize, data, iv, unit, forceK2) == Tag(StandardMac(e, blockSize, data))
  }

  /** The key diversification pads to two blocks and may force K2: it gets the standard's MAC under every
      permutation of the blocks exactly when the message has an even number of blocks, the last one whole
      or partial, and K2 is not forced on whole units. */
  lemma TwoBlockUnits(blockSize: nat, data: Octets, iv: Octets, forceK2: bool)
    requires blockSize > 0 && NullIv(iv, blockSize)
    ensures StandardForCiphers(blockSize, data, iv, 2 * blockSize, forceK2) <==>
            RoundedUp(|data|, blockSize) % (2 * blockSize) == 0 && !(forceK2 && PadCount(|data|, 2 * blockSize) == 0)
  {
    hide MacOf, StandardMac, PadCount, FlipsLast, Inverts;
    OneBlockMore(|data|, blockSize);
    if RoundedUp(|data|, blockSize) % (2 * blockSize) == 0 && !(forceK2 && PadCount(|data|, 2 * blockSize) == 0) {
      forall e: Cipher | IsPermutation(e, blockSize)
        ensures MacOf(e, blockSize, data, iv, 2 * blockSize, forceK2) == Tag(StandardMac(e, blockSize, data))
      {
        SameWhenRoundedAlike(e, blockSize, data, iv, 2 * blockSize, forceK2);
      }
    } else {
      FlipsLastIsPermutation(blockSize);
      FlipTells(blockSize, data, iv, forceK2);
    }
  }

  /** A concrete input: the empty message under an 8-byte cipher with a unit of 16. */
  lemma EmptyMessageDiffers()
    ensures var e := KeepsBit(8, 0);
            && OnBlocks(e, 8) && StandardMac(e, 8, []) == One(8)
            && MacOf(e, 8, [], [], 16, false) == Tag(ZeroBytes(8))
  {
    hide MacOf, StandardMac, Prepared, Top, End;
    var e, d := KeepsBit(8, 0), PadBlock(8);
    TopOfXor(0, 0);
    assert Padded([], 8) == d && Padded([], 16) == d + ZeroBytes(8) by {
      ZerosJoin(7, 8);
    }
    MacIsEnd(e, 8, [], [], 16, false);
    StandardIsEnd(e, 8, []);
    ZeroKeys(e, 8, [], 16, false);
    ZeroKeys(e, 8, [], 8, false);
    MarkedEnd(8, 0, d);
    EndSplit(e, 8, ZeroBytes(8), d, ZeroBytes(8));
    ForgottenEnd(8, 0, One(8), 8);
  }
}
