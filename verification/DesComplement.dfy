/** The complementation law of the cipher: complementing every bit of the key and of the block
    complements every bit of the result.  Each key bit reaches a six-bit group that is XORed with the
    data before a lookup, so the two complements meet there and cancel; the tables are arbitrary. */
module DesComplement {
  import Fips46
  import opened Des

  function Not(x: bv32): bv32 { x ^ 0xffff_ffff }

  function Complement(h: (bv32, bv32)): (bv32, bv32) { (Not(h.0), Not(h.1)) }

  /** A cooked key word with its four six-bit groups complemented. */
  function NotSixes(k: bv32): bv32 { k ^ 0x3f3f3f3f }

  lemma ComplementOfIp(l: bv32, r: bv32)
    ensures SwapIp(Not(l), Not(r)) == Complement(SwapIp(l, r))
  {
  }

  lemma FpAgainstComplement(l: bv32, r: bv32)
    ensures SwapFp(Not(l), Not(r)).0 ^ SwapFp(l, r).0 == 0xffff_ffff
    ensures SwapFp(Not(l), Not(r)).1 ^ SwapFp(l, r).1 == 0xffff_ffff
  {
  }

  lemma XorIsOnes(x: bv32, y: bv32)
    requires x ^ y == 0xffff_ffff
    ensures x == Not(y)
  {
  }

  lemma ComplementOfFp(l: bv32, r: bv32)
    ensures SwapFp(Not(l), Not(r)) == Complement(SwapFp(l, r))
  {
    hide SwapFp, Not;
    FpAgainstComplement(l, r);
    XorIsOnes(SwapFp(Not(l), Not(r)).0, SwapFp(l, r).0);
    XorIsOnes(SwapFp(Not(l), Not(r)).1, SwapFp(l, r).1);
  }

  lemma RorAgainstComplement(r: bv32)
    ensures Ror4(Not(r)) ^ Ror4(r) == 0xffff_ffff
  {
  }

  lemma ComplementOfRor(r: bv32)
    ensures Ror4(Not(r)) == Not(Ror4(r))
  {
    hide Ror4, Not;
    RorAgainstComplement(r);
    XorIsOnes(Ror4(Not(r)), Ror4(r));
  }

  lemma ComplementOfSix(x: bv32, k: bv32)
    ensures Six(Fips46.Xor(Not(x), NotSixes(k)), 0) == Six(Fips46.Xor(x, k), 0)
    ensures Six(Fips46.Xor(Not(x), NotSixes(k)), 8) == Six(Fips46.Xor(x, k), 8)
    ensures Six(Fips46.Xor(Not(x), NotSixes(k)), 16) == Six(Fips46.Xor(x, k), 16)
    ensures Six(Fips46.Xor(Not(x), NotSixes(k)), 24) == Six(Fips46.Xor(x, k), 24)
  {
  }

  /** A complemented half against a complemented round key selects the same table words. */
  lemma ComplementOfRound(sp: SpTables, r: bv32, k0: bv32, k1: bv32)
    ensures RoundWord(sp, Not(r), NotSixes(k0), NotSixes(k1)) == RoundWord(sp, r, k0, k1)
  {
    hide Six, Ror4, Lookups, Not, NotSixes, Fips46.Xor;
    ComplementOfRor(r);
    ComplementOfSix(Ror4(r), k0);
    ComplementOfSix(r, k1);
  }

  lemma ComplementOfXor(x: bv32, y: bv32)
    ensures Fips46.Xor(Not(x), y) == Not(Fips46.Xor(x, y))
  {
  }

  lemma ComplementOfHalfRound(sp: SpTables, h: (bv32, bv32), k0: bv32, k1: bv32)
    ensures HalfRound(sp, Complement(h), NotSixes(k0), NotSixes(k1)) == Complement(HalfRound(sp, h, k0, k1))
  {
    hide RoundWord, Not, NotSixes, Fips46.Xor;
    ComplementOfRound(sp, h.1, k0, k1);
    ComplementOfXor(h.0, RoundWord(sp, h.1, k0, k1));
  }

  /** Every word of keys' is that of keys with all its six-bit groups complemented. */
  predicate KeysComplement(keys: Words, keys': Words) {
    forall m :: 0 <= m < 32 ==> keys'[m] == NotSixes(keys[m])
  }

  lemma {:induction false} ComplementOfRounds(sp: SpTables, h: (bv32, bv32), keys: Words, keys': Words, n: nat)
    requires KeysComplement(keys, keys') && n <= 16
    ensures Rounds(sp, Complement(h), keys', n) == Complement(Rounds(sp, h, keys, n))
  {
    hide HalfRound, Complement, NotSixes;
    if n > 0 {
      ComplementOfRounds(sp, h, keys, keys', n - 1);
      ComplementOfHalfRound(sp, Rounds(sp, h, keys, n - 1), keys[2 * n - 2], keys[2 * n - 1]);
    }
  }

  lemma ComplementOfDesfunc(sp: SpTables, block: (bv32, bv32), keys: Words, keys': Words)
    requires KeysComplement(keys, keys')
    ensures Desfunc(sp, Complement(block), keys') == Complement(Desfunc(sp, block, keys))
  {
    hide SwapIp, SwapFp, Rounds, Desfunc, KeysComplement, Not;
    DesfuncBySwaps(sp, block, keys);
    DesfuncBySwaps(sp, Complement(block), keys');
    ComplementOfIp(block.0, block.1);
    var h := SwapIp(block.0, block.1);
    ComplementOfRounds(sp, h, keys, keys', 16);
    var (l, r) := Rounds(sp, h, keys, 16);
    ComplementOfFp(l, r);
  }

  function NotByte(b: bv8): bv8 { !b }

  function NotKey(key: Key): Key {
    [NotByte(key[0]), NotByte(key[1]), NotByte(key[2]), NotByte(key[3]),
     NotByte(key[4]), NotByte(key[5]), NotByte(key[6]), NotByte(key[7])]
  }

  lemma BitOfNotByte(b: bv8, mask: bv8)
    requires mask in BYTEBIT
    ensures (NotByte(b) & mask == mask) <==> !(b & mask == mask)
  {
    assert mask in [0x80, 0x40, 0x20, 0x10, 0x08, 0x04, 0x02, 0x01];
  }

  lemma ComplementOfKeyBit(key: Key, l: nat)
    requires l < 64
    ensures KeyBitSet(NotKey(key), l) == !KeyBitSet(key, l)
  {
    assert NotKey(key)[l / 8] == NotByte(key[l / 8]);
    BitOfNotByte(key[l / 8], BYTEBIT[l % 8]);
  }

  lemma ComplementOfRotated(key: Key, i: nat, j: nat)
    requires i < 16 && j < 56
    ensures RotatedBits(NotKey(key), i)[j] == !RotatedBits(key, i)[j]
  {
    hide KeyBitSet;
    ComplementOfKeyBit(key, PC1[RotatedIndex(j, TOTROT[i])]);
  }

  lemma ComplementOfChoice(key: Key, i: nat, j: nat)
    requires i < 16 && j < 48
    ensures ChosenBits(NotKey(key), i)[j] == !ChosenBits(key, i)[j]
  {
    hide RotatedBits;
    ComplementOfRotated(key, i, PC2[j]);
  }

  function NotOctet(o: bv48): bv48 { o ^ 0xff }

  lemma ComplementOfOctet(b0: bool, b1: bool, b2: bool, b3: bool, b4: bool, b5: bool, b6: bool, b7: bool)
    ensures Fips46.Octet(!b0, !b1, !b2, !b3, !b4, !b5, !b6, !b7) == NotOctet(Fips46.Octet(b0, b1, b2, b3, b4, b5, b6, b7))
  {
  }

  lemma ComplementOfOctetAt(a: seq<bool>, b: seq<bool>, k: nat)
    requires |a| == |b| && k + 8 <= |a|
    requires forall j :: 0 <= j < |a| ==> b[j] == !a[j]
    ensures Fips46.OctetAt(b, k) == NotOctet(Fips46.OctetAt(a, k))
  {
    hide Fips46.Octet, NotOctet;
    ComplementOfOctet(a[k], a[k + 1], a[k + 2], a[k + 3], a[k + 4], a[k + 5], a[k + 6], a[k + 7]);
  }

  function NotPair(p: (bv32, bv32)): (bv32, bv32) { (NotSixes(p.0), NotSixes(p.1)) }

  lemma ComplementOfThree(o0: bv48, o1: bv48, o2: bv48)
    requires o0 <= 0xff && o1 <= 0xff && o2 <= 0xff
    ensures NotOctet(o0) <= 0xff && NotOctet(o1) <= 0xff && NotOctet(o2) <= 0xff
    ensures ThreeOctets(NotOctet(o0), NotOctet(o1), NotOctet(o2)) == NotRaw(ThreeOctets(o0, o1, o2))
  {
  }

  /** A raw 24-bit key word complemented. */
  function NotRaw(raw: bv32): bv32 { raw ^ 0xffffff }

  lemma ComplementOfCook(c: bv32, d: bv32)
    ensures Cook(NotRaw(c), NotRaw(d)) == NotPair(Cook(c, d))
  {
  }

  lemma ComplementOfRoundPair(key: Key, i: nat)
    requires i < 16
    ensures RoundPair(NotKey(key), i) == NotPair(RoundPair(key, i))
  {
    hide Cook, NotPair, NotOctet, NotRaw, ThreeOctets, Fips46.OctetAt, RawWord, ChosenBits;
    var a, b := ChosenBits(key, i), ChosenBits(NotKey(key), i);
    forall j: nat | j < 48
      ensures b[j] == !a[j]
    {
      ComplementOfChoice(key, i, j);
    }
    RawWordIsOctets(a[..24]);
    RawWordIsOctets(a[24..]);
    RawWordIsOctets(b[..24]);
    RawWordIsOctets(b[24..]);
    ComplementOfOctetAt(a[..24], b[..24], 0);
    ComplementOfOctetAt(a[..24], b[..24], 8);
    ComplementOfOctetAt(a[..24], b[..24], 16);
    ComplementOfOctetAt(a[24..], b[24..], 0);
    ComplementOfOctetAt(a[24..], b[24..], 8);
    ComplementOfOctetAt(a[24..], b[24..], 16);
    ComplementOfThree(Fips46.OctetAt(a[..24], 0), Fips46.OctetAt(a[..24], 8), Fips46.OctetAt(a[..24], 16));
    ComplementOfThree(Fips46.OctetAt(a[24..], 0), Fips46.OctetAt(a[24..], 8), Fips46.OctetAt(a[24..], 16));
    ComplementOfCook(RawWord(a[..24]), RawWord(a[24..]));
  }

  lemma ComplementOfSchedule(key: Key, edf: Direction)
    ensures KeysComplement(Schedule(key, edf), Schedule(NotKey(key), edf))
  {
    hide RoundPair, Schedule, NotSixes;
    forall m: nat | m < 32
      ensures Schedule(NotKey(key), edf)[m] == NotSixes(Schedule(key, edf)[m])
    {
      ScheduleAt(key, edf, m / 2);
      ScheduleAt(NotKey(key), edf, m / 2);
      ComplementOfRoundPair(key, if edf == DE1 then 15 - m / 2 else m / 2);
      assert m == 2 * (m / 2) || m == 2 * (m / 2) + 1;
    }
  }
}
