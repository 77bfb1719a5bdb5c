/** Enciphering and deciphering of eight-byte blocks under whole keys, single and triple, as des.cpp
    composes them, and the laws of these operations. */
module DesBlocks {
  import Fips46
  import opened Des
  import opened DesComplement

  type Block = b: seq<bv8> | |b| == 8 witness [0, 0, 0, 0, 0, 0, 0, 0]

  function LoadWord(b0: bv8, b1: bv8, b2: bv8, b3: bv8): bv32 {
    (b0 as bv32 << 24) | (b1 as bv32 << 16) | (b2 as bv32 << 8) | b3 as bv32
  }

  /** Byte n of a stored word, the most significant first. */
  function StoredByte(x: bv32, n: bv32): bv8
    requires n <= 3
  {
    ((x >> (24 - 8 * n)) & 255) as bv8
  }

  function Load(b: Block): (bv32, bv32) {
    (LoadWord(b[0], b[1], b[2], b[3]), LoadWord(b[4], b[5], b[6], b[7]))
  }

  function Store(h: (bv32, bv32)): Block {
    [StoredByte(h.0, 0), StoredByte(h.0, 1), StoredByte(h.0, 2), StoredByte(h.0, 3),
     StoredByte(h.1, 0), StoredByte(h.1, 1), StoredByte(h.1, 2), StoredByte(h.1, 3)]
  }

  lemma LoadStoredWord(x: bv32)
    ensures LoadWord(StoredByte(x, 0), StoredByte(x, 1), StoredByte(x, 2), StoredByte(x, 3)) == x
  {
  }

  lemma StoreLoadedWord(b0: bv8, b1: bv8, b2: bv8, b3: bv8)
    ensures var x := LoadWord(b0, b1, b2, b3);
            StoredByte(x, 0) == b0 && StoredByte(x, 1) == b1 && StoredByte(x, 2) == b2 && StoredByte(x, 3) == b3
  {
  }

  lemma LoadStore(h: (bv32, bv32))
    ensures Load(Store(h)) == h
  {
    hide LoadWord, StoredByte;
    LoadStoredWord(h.0);
    LoadStoredWord(h.1);
  }

  lemma StoreLoad(b: Block)
    ensures Store(Load(b)) == b
  {
    hide LoadWord, StoredByte;
    StoreLoadedWord(b[0], b[1], b[2], b[3]);
    StoreLoadedWord(b[4], b[5], b[6], b[7]);
  }

  /** The block as the 64-bit number the standard works on: bit 1 is the top bit of the first byte. */
  function Number(b: Block): bv64 {
    NumberOf(b[0], b[1], b[2], b[3], b[4], b[5], b[6], b[7])
  }

  function NumberOf(b0: bv8, b1: bv8, b2: bv8, b3: bv8, b4: bv8, b5: bv8, b6: bv8, b7: bv8): bv64 {
    (b0 as bv64 << 56) | (b1 as bv64 << 48) | (b2 as bv64 << 40) | (b3 as bv64 << 32) |
    (b4 as bv64 << 24) | (b5 as bv64 << 16) | (b6 as bv64 << 8) | b7 as bv64
  }

  lemma PairIsNumber(b0: bv8, b1: bv8, b2: bv8, b3: bv8, b4: bv8, b5: bv8, b6: bv8, b7: bv8)
    ensures Pair((LoadWord(b0, b1, b2, b3), LoadWord(b4, b5, b6, b7))) == NumberOf(b0, b1, b2, b3, b4, b5, b6, b7)
  {
  }

  /** The two loaded words are that number. */
  lemma LoadIsNumber(b: Block)
    ensures Pair(Load(b)) == Number(b)
  {
    hide LoadWord, NumberOf, Pair;
    PairIsNumber(b[0], b[1], b[2], b[3], b[4], b[5], b[6], b[7]);
  }

  /** One pass of desfunc between loading and storing, as in des_ecb_encrypt and des_ecb_decrypt. */
  function Ecb(sp: SpTables, b: Block, keys: Words): Block {
    Store(Desfunc(sp, Load(b), keys))
  }

  function Encrypt(sp: SpTables, key: Key, b: Block): Block { Ecb(sp, b, Schedule(key, EN0)) }

  function Decrypt(sp: SpTables, key: Key, b: Block): Block { Ecb(sp, b, Schedule(key, DE1)) }

  /** Deciphering undoes enciphering and the other way round: every key, every block, any tables. */
  lemma DecryptUndoesEncrypt(sp: SpTables, key: Key, b: Block)
    ensures Decrypt(sp, key, Encrypt(sp, key, b)) == b
    ensures Encrypt(sp, key, Decrypt(sp, key, b)) == b
  {
    hide Load, Store, Desfunc, Schedule, Mirrored;
    SchedulesMirror(key);
    LoadStore(Desfunc(sp, Load(b), Schedule(key, EN0)));
    DesfuncUndone(sp, Load(b), Schedule(key, EN0), Schedule(key, DE1));
    LoadStore(Desfunc(sp, Load(b), Schedule(key, DE1)));
    DesfuncUndone(sp, Load(b), Schedule(key, DE1), Schedule(key, EN0));
    StoreLoad(b);
  }

  /** With tables built from S-boxes as the standard prescribes, the cipher is the standard's, both ways. */
  lemma CipherIsStandard(sp: SpTables, s: Fips46.SBoxes, key: Key, b: Block)
    requires Combines(sp, s)
    ensures Number(Encrypt(sp, key, b)) == Fips46.Encrypt(s, key, Number(b))
    ensures Number(Decrypt(sp, key, b)) == Fips46.Decrypt(s, key, Number(b))
  {
    hide Load, Store, Pair, Number, Desfunc, Schedule, Combines, Fips46.RoundKeys, Fips46.Reverse, Fips46.Transform;
    LoadIsNumber(b);
    LoadIsNumber(Encrypt(sp, key, b));
    LoadIsNumber(Decrypt(sp, key, b));
    ScheduleIsStandard(key);
    var ks, rk := Fips46.RoundKeys(key), Fips46.Reverse(Fips46.RoundKeys(key));
    DesfuncIsStandard(sp, s, Load(b), ks);
    LoadStore(Desfunc(sp, Load(b), Schedule(key, EN0)));
    DesfuncIsStandard(sp, s, Load(b), rk);
    LoadStore(Desfunc(sp, Load(b), Schedule(key, DE1)));
  }

  // ----- complementation -----

  function NotBytes(b: Block): Block {
    [NotByte(b[0]), NotByte(b[1]), NotByte(b[2]), NotByte(b[3]),
     NotByte(b[4]), NotByte(b[5]), NotByte(b[6]), NotByte(b[7])]
  }

  lemma ComplementOfStoredByte(x: bv32)
    ensures StoredByte(Not(x), 0) == NotByte(StoredByte(x, 0)) && StoredByte(Not(x), 1) == NotByte(StoredByte(x, 1))
    ensures StoredByte(Not(x), 2) == NotByte(StoredByte(x, 2)) && StoredByte(Not(x), 3) == NotByte(StoredByte(x, 3))
  {
  }

  lemma ComplementOfStore(h: (bv32, bv32))
    ensures Store(Complement(h)) == NotBytes(Store(h))
  {
    hide StoredByte, NotByte, Not;
    ComplementOfStoredByte(h.0);
    ComplementOfStoredByte(h.1);
  }

  lemma ComplementOfLoad(b: Block)
    ensures Load(NotBytes(b)) == Complement(Load(b))
  {
    hide NotBytes, Complement, Load, Store;
    StoreLoad(b);
    ComplementOfStore(Load(b));
    LoadStore(Complement(Load(b)));
  }

  /** Complementing key and block complements the result, for enciphering and deciphering. */
  lemma Complementation(sp: SpTables, key: Key, b: Block)
    ensures Encrypt(sp, NotKey(key), NotBytes(b)) == NotBytes(Encrypt(sp, key, b))
    ensures Decrypt(sp, NotKey(key), NotBytes(b)) == NotBytes(Decrypt(sp, key, b))
  {
    hide Load, Store, Desfunc, Schedule, NotKey, NotBytes, Complement, KeysComplement;
    ComplementOfLoad(b);
    ComplementOfSchedule(key, EN0);
    ComplementOfDesfunc(sp, Load(b), Schedule(key, EN0), Schedule(NotKey(key), EN0));
    ComplementOfStore(Desfunc(sp, Load(b), Schedule(key, EN0)));
    ComplementOfSchedule(key, DE1);
    ComplementOfDesfunc(sp, Load(b), Schedule(key, DE1), Schedule(NotKey(key), DE1));
    ComplementOfStore(Desfunc(sp, Load(b), Schedule(key, DE1)));
  }

  // ----- triple DES -----

  /** A triple key: 16 bytes use the first part again as the third. */
  type Key3 = k: seq<bv8> | |k| == 16 || |k| == 24 witness seq(16, _ => 0)

  function Part1(k: Key3): Key { k[..8] }

  function Part2(k: Key3): Key { k[8..16] }

  function Part3(k: Key3): Key { if |k| == 16 then k[..8] else k[16..24] }

  /** Three passes of desfunc between one load and one store. */
  function Ecb3(sp: SpTables, b: Block, keys0: Words, keys1: Words, keys2: Words): Block {
    Store(Desfunc(sp, Desfunc(sp, Desfunc(sp, Load(b), keys0), keys1), keys2))
  }

  function Encrypt3(sp: SpTables, key: Key3, b: Block): Block {
    Ecb3(sp, b, Schedule(Part1(key), EN0), Schedule(Part2(key), DE1), Schedule(Part3(key), EN0))
  }

  function Decrypt3(sp: SpTables, key: Key3, b: Block): Block {
    Ecb3(sp, b, Schedule(Part3(key), DE1), Schedule(Part2(key), EN0), Schedule(Part1(key), DE1))
  }

  /** Three passes over words are three single operations on blocks. */
  lemma Ecb3IsThreeEcb(sp: SpTables, b: Block, keys0: Words, keys1: Words, keys2: Words)
    ensures Ecb3(sp, b, keys0, keys1, keys2) == Ecb(sp, Ecb(sp, Ecb(sp, b, keys0), keys1), keys2)
  {
    hide Load, Store, Desfunc;
    var h0 := Desfunc(sp, Load(b), keys0);
    LoadStore(h0);
    LoadStore(Desfunc(sp, h0, keys1));
  }

  lemma PartsCompose(sp: SpTables, key: Key3, b: Block)
    ensures Encrypt3(sp, key, b) == Encrypt(sp, Part3(key), Decrypt(sp, Part2(key), Encrypt(sp, Part1(key), b)))
    ensures Decrypt3(sp, key, b) == Decrypt(sp, Part1(key), Encrypt(sp, Part2(key), Decrypt(sp, Part3(key), b)))
  {
    hide Ecb, Ecb3, Schedule;
    Ecb3IsThreeEcb(sp, b, Schedule(Part1(key), EN0), Schedule(Part2(key), DE1), Schedule(Part3(key), EN0));
    Ecb3IsThreeEcb(sp, b, Schedule(Part3(key), DE1), Schedule(Part2(key), EN0), Schedule(Part1(key), DE1));
  }

  /** The triple operations are the encrypt-decrypt-encrypt compositions of section 3 of SP 800-67: under
      three single keys laid end to end, and under two, of which the first is used again. */
  lemma TripleIsEde(sp: SpTables, key: Key3, k1: Key, k2: Key, k3: Key, b: Block)
    ensures key == k1 + k2 + k3 ==> Encrypt3(sp, key, b) == Encrypt(sp, k3, Decrypt(sp, k2, Encrypt(sp, k1, b)))
    ensures key == k1 + k2 + k3 ==> Decrypt3(sp, key, b) == Decrypt(sp, k1, Encrypt(sp, k2, Decrypt(sp, k3, b)))
    ensures key == k1 + k2 ==> Encrypt3(sp, key, b) == Encrypt(sp, k1, Decrypt(sp, k2, Encrypt(sp, k1, b)))
    ensures key == k1 + k2 ==> Decrypt3(sp, key, b) == Decrypt(sp, k1, Encrypt(sp, k2, Decrypt(sp, k1, b)))
  {
    hide Encrypt, Decrypt, Encrypt3, Decrypt3;
    PartsCompose(sp, key, b);
    if key == k1 + k2 + k3 {
      assert Part1(key) == k1 && Part2(key) == k2 && Part3(key) == k3;
    } else if key == k1 + k2 {
      assert Part1(key) == k1 && Part2(key) == k2 && Part3(key) == k1;
    }
  }

  lemma Decrypt3UndoesEncrypt3(sp: SpTables, key: Key3, b: Block)
    ensures Decrypt3(sp, key, Encrypt3(sp, key, b)) == b
    ensures Encrypt3(sp, key, Decrypt3(sp, key, b)) == b
  {
    hide Encrypt, Decrypt, Encrypt3, Decrypt3;
    PartsCompose(sp, key, b);
    PartsCompose(sp, key, Encrypt3(sp, key, b));
    PartsCompose(sp, key, Decrypt3(sp, key, b));
    var e := Encrypt(sp, Part1(key), b);
    DecryptUndoesEncrypt(sp, Part3(key), Decrypt(sp, Part2(key), e));
    DecryptUndoesEncrypt(sp, Part2(key), e);
    DecryptUndoesEncrypt(sp, Part1(key), b);
    var d := Decrypt(sp, Part3(key), b);
    DecryptUndoesEncrypt(sp, Part1(key), Encrypt(sp, Part2(key), d));
    DecryptUndoesEncrypt(sp, Part2(key), d);
    DecryptUndoesEncrypt(sp, Part3(key), b);
  }

  /** Two equal adjacent keys cancel, leaving single DES under the remaining one. */
  lemma EqualKeysCollapse(sp: SpTables, key: Key3, k: Key, k': Key, b: Block)
    requires key == k + k + k' || key == k' + k + k || (key == k + k && k' == k)
    ensures Encrypt3(sp, key, b) == Encrypt(sp, k', b) && Decrypt3(sp, key, b) == Decrypt(sp, k', b)
  {
    hide Encrypt, Decrypt, Encrypt3, Decrypt3;
    TripleIsEde(sp, key, k, k, k', b);
    TripleIsEde(sp, key, k', k, k, b);
    DecryptUndoesEncrypt(sp, k, b);
    DecryptUndoesEncrypt(sp, k, Encrypt(sp, k', b));
    DecryptUndoesEncrypt(sp, k, Decrypt(sp, k', b));
  }

  /** Complementation carries over: all key bits and all block bits complemented. */
  lemma TripleComplementation(sp: SpTables, key: Key3, key': Key3, b: Block)
    requires |key'| == |key| && (forall i :: 0 <= i < |key| ==> key'[i] == NotByte(key[i]))
    ensures Encrypt3(sp, key', NotBytes(b)) == NotBytes(Encrypt3(sp, key, b))
  {
    hide Encrypt, Decrypt, Encrypt3, NotBytes, NotByte;
    assert Part1(key') == NotKey(Part1(key));
    assert Part2(key') == NotKey(Part2(key));
    assert Part3(key') == NotKey(Part3(key));
    PartsCompose(sp, key, b);
    PartsCompose(sp, key', NotBytes(b));
    var e := Encrypt(sp, Part1(key), b);
    Complementation(sp, Part1(key), b);
    Complementation(sp, Part2(key), e);
    Complementation(sp, Part3(key), Decrypt(sp, Part2(key), e));
  }
}
