/** The routines of des.cpp with their loops and in-place updates, each proved to compute what the
    functions of Des and DesBlocks say. */
module DesCipher {
  import Fips46
  import opened Des
  import opened DesBlocks

  datatype Status = CRYPT_OK | CRYPT_INVALID_ROUNDS | CRYPT_INVALID_KEYSIZE

  /** One bit of the key that starts at key[at], numbered from its first octet. */
  method ReadKeyBit(key: array<bv8>, at: nat, l: nat) returns (isSet: bool)
    requires at + 8 <= key.Length && l < 64
    ensures isSet == KeyBitSet(key[at..at + 8], l)
  {
    var m := l % 8;
    isSet := key[at + l / 8] & BYTEBIT[m] == BYTEBIT[m];
  }

  /** pc1m: picks the 56 key bits out of the key that starts at key[at]. */
  method SelectBits(key: array<bv8>, at: nat, pc1m: array<bool>)
    requires at + 8 <= key.Length && pc1m.Length == 56 && key as object != pc1m
    modifies pc1m
    ensures pc1m[..] == SelectedBits(key[at..at + 8])
  {
    hide KeyBitSet;
    ghost var k := key[at..at + 8];
    for j := 0 to 56
      invariant key[at..at + 8] == k
      invariant forall t :: 0 <= t < j ==> pc1m[t] == KeyBitSet(k, PC1[t])
    {
      var isSet := ReadKeyBit(key, at, PC1[j]);
      pc1m[j] := isSet;
    }
  }

  /** pcr: both halves of pc1m rotated left by the total rotation of one round. */
  method RotateInto(pc1m: array<bool>, rot: Rotation, pcr: array<bool>)
    requires pc1m.Length == pcr.Length == 56 && pc1m != pcr
    modifies pcr
    ensures forall j :: 0 <= j < 56 ==> pcr[j] == pc1m[RotatedIndex(j, rot)]
  {
    for j := 0 to 28
      invariant forall t :: 0 <= t < j ==> pcr[t] == pc1m[RotatedIndex(t, rot)]
    {
      var l := j + rot;
      if l < 28 {
        pcr[j] := pc1m[l];
      } else {
        pcr[j] := pc1m[l - 28];
      }
    }
    for j := 28 to 56
      invariant forall t :: 0 <= t < j ==> pcr[t] == pc1m[RotatedIndex(t, rot)]
    {
      var l := j + rot;
      if l < 56 {
        pcr[j] := pc1m[l];
      } else {
        pcr[j] := pc1m[l - 28];
      }
    }
  }

  function Chosen(pcr: seq<bool>): (r: seq<bool>)
    requires |pcr| == 56
    ensures |r| == 48
  {
    seq(48, j requires 0 <= j < 48 => pcr[PC2[j]])
  }

  /** kn[m] gains the mask when the bit is set. */
  method MarkBit(kn: array<bv32>, m: nat, bit: bool, mask: bv32)
    requires m < kn.Length
    modifies kn
    ensures kn[m] == Marked(old(kn[m]), bit, mask)
    ensures forall t :: 0 <= t < kn.Length && t != m ==> kn[t] == old(kn[t])
  {
    if bit {
      kn[m] := kn[m] | mask;
    }
  }

  /** The two 24-bit words chosen from pcr, gathered bit by bit into kn[m] and kn[m + 1]. */
  method ChooseInto(pcr: array<bool>, kn: array<bv32>, m: nat)
    requires pcr.Length == 56 && m + 1 < kn.Length && pcr as object != kn
    modifies kn
    ensures kn[..] == old(kn[..])[m := RawWord(Chosen(pcr[..])[..24])][m + 1 := RawWord(Chosen(pcr[..])[24..])]
  {
    hide RawWord, Marked;
    ghost var c, d := Chosen(pcr[..])[..24], Chosen(pcr[..])[24..];
    var n := m + 1;
    kn[m], kn[n] := 0, 0;
    NoBits();
    assert c[..0] == [] && d[..0] == [];
    for j := 0 to 24
      invariant pcr[..] == old(pcr[..])
      invariant kn[m] == RawWord(c[..j]) && kn[n] == RawWord(d[..j])
      invariant forall t :: 0 <= t < kn.Length && t != m && t != n ==> kn[t] == old(kn[t])
    {
      RawWordStep(c, j);
      RawWordStep(d, j);
      assert c[j] == pcr[PC2[j]] && d[j] == pcr[PC2[j + 24]];
      MarkBit(kn, m, pcr[PC2[j]], BIGBYTE[j]);
      MarkBit(kn, n, pcr[PC2[j + 24]], BIGBYTE[j]);
    }
    assert c[..24] == c && d[..24] == d;
  }

  lemma NoBits()
    ensures RawWord([]) == 0
  {
  }

  /** The first cooked word, gathered step by step. */
  method CookFirst(raw0: bv32, raw1: bv32) returns (cook: bv32)
    ensures cook == Cook(raw0, raw1).0
  {
    cook := (raw0 & 0x00fc0000) << 6;
    cook := cook | ((raw0 & 0x00000fc0) << 10);
    cook := cook | ((raw1 & 0x00fc0000) >> 10);
    cook := cook | ((raw1 & 0x00000fc0) >> 6);
  }

  method CookSecond(raw0: bv32, raw1: bv32) returns (cook: bv32)
    ensures cook == Cook(raw0, raw1).1
  {
    cook := (raw0 & 0x0003f000) << 12;
    cook := cook | ((raw0 & 0x0000003f) << 16);
    cook := cook | ((raw1 & 0x0003f000) >> 4);
    cook := cook | (raw1 & 0x0000003f);
  }

  /** Rearranges 16 raw pairs into the words the rounds use. */
  method Cookey(raw: array<bv32>, keyout: array<bv32>)
    requires raw.Length == keyout.Length == 32 && raw != keyout
    modifies keyout
    ensures forall i :: 0 <= i < 16 ==> (keyout[2 * i], keyout[2 * i + 1]) == Cook(raw[2 * i], raw[2 * i + 1])
    ensures raw[..] == old(raw[..])
  {
    hide Cook;
    var dough := new bv32[32];
    for i := 0 to 16
      invariant forall t :: 0 <= t < i ==> (dough[2 * t], dough[2 * t + 1]) == Cook(raw[2 * t], raw[2 * t + 1])
    {
      dough[2 * i] := CookFirst(raw[2 * i], raw[2 * i + 1]);
      dough[2 * i + 1] := CookSecond(raw[2 * i], raw[2 * i + 1]);
    }
    ghost var cooked := dough[..];
    for i := 0 to 32
      invariant dough[..] == cooked
      invariant forall t :: 0 <= t < i ==> keyout[t] == cooked[t]
    {
      keyout[i] := dough[i];
    }
    forall i | 0 <= i < 16
      ensures (keyout[2 * i], keyout[2 * i + 1]) == Cook(raw[2 * i], raw[2 * i + 1])
    {
      assert keyout[2 * i] == cooked[2 * i] && keyout[2 * i + 1] == cooked[2 * i + 1];
    }
  }

  /** kn holds the raw pair of every round, at the place its direction gives it. */
  predicate HoldsRawKeys(kn: seq<bv32>, k: Key, edf: Direction, rounds: nat)
    requires |kn| == 32 && rounds <= 16
  {
    forall t: nat :: t < rounds ==>
      var m := if edf == DE1 then 15 - t else t;
      kn[2 * m] == RawWord(ChosenBits(k, t)[..24]) && kn[2 * m + 1] == RawWord(ChosenBits(k, t)[24..])
  }

  lemma NoRawKeys(kn: seq<bv32>, k: Key, edf: Direction)
    requires |kn| == 32
    ensures HoldsRawKeys(kn, k, edf, 0)
  {
  }

  lemma RawKeyAdded(kn: seq<bv32>, kn': seq<bv32>, k: Key, edf: Direction, i: nat)
    requires |kn| == 32 && i < 16 && HoldsRawKeys(kn, k, edf, i)
    requires var m := if edf == DE1 then 2 * (15 - i) else 2 * i;
             kn' == kn[m := RawWord(ChosenBits(k, i)[..24])][m + 1 := RawWord(ChosenBits(k, i)[24..])]
    ensures HoldsRawKeys(kn', k, edf, i + 1)
  {
    hide RawWord, ChosenBits;
  }

  lemma ChosenOfRotated(k: Key, i: nat, pc1m: seq<bool>, pcr: seq<bool>)
    requires i < 16 && pc1m == SelectedBits(k) && |pcr| == 56
    requires forall j :: 0 <= j < 56 ==> pcr[j] == pc1m[RotatedIndex(j, TOTROT[i])]
    ensures Chosen(pcr) == ChosenBits(k, i)
  {
    assert pcr == RotatedBits(k, i);
  }

  lemma CookedIsSchedule(kn: seq<bv32>, k: Key, edf: Direction, out: seq<bv32>)
    requires |kn| == |out| == 32 && HoldsRawKeys(kn, k, edf, 16)
    requires forall i :: 0 <= i < 16 ==> (out[2 * i], out[2 * i + 1]) == Cook(kn[2 * i], kn[2 * i + 1])
    ensures out == Schedule(k, edf)
  {
    hide Cook, RawWord, Schedule, ChosenBits;
    forall w | 0 <= w < 32
      ensures out[w] == Schedule(k, edf)[w]
    {
      var m := w / 2;
      ScheduleAt(k, edf, m);
      var t: nat := if edf == DE1 then 15 - m else m;
      assert kn[2 * m] == RawWord(ChosenBits(k, t)[..24]);
      assert w == 2 * m || w == 2 * m + 1;
    }
  }

  /** The key schedule of the key at key[at], for enciphering (EN0) or deciphering (DE1). */
  method Deskey(key: array<bv8>, at: nat, edf: Direction, keyout: array<bv32>)
    requires at + 8 <= key.Length && keyout.Length == 32
    modifies keyout
    ensures keyout[..] == Schedule(key[at..at + 8], edf)
  {
    hide Cook, RawWord, SelectedBits, ChosenBits, Chosen, Schedule, HoldsRawKeys;
    ghost var k: Key := key[at..at + 8];
    var pc1m, pcr, kn := new bool[56], new bool[56], new bv32[32];
    SelectBits(key, at, pc1m);
    NoRawKeys(kn[..], k, edf);
    for i := 0 to 16
      invariant pc1m[..] == SelectedBits(k)
      invariant HoldsRawKeys(kn[..], k, edf, i)
    {
      var m := if edf == DE1 then 2 * (15 - i) else 2 * i;
      RotateInto(pc1m, TOTROT[i], pcr);
      ChosenOfRotated(k, i, pc1m[..], pcr[..]);
      ghost var before := kn[..];
      ChooseInto(pcr, kn, m);
      RawKeyAdded(before, kn[..], k, edf, i);
    }
    Cookey(kn, keyout);
    CookedIsSchedule(kn[..], k, edf, keyout[..]);
  }

  /** desfunc: transforms the two words of block in place. */
  method DesfuncInPlace(sp: SpTables, block: array<bv32>, keys: array<bv32>)
    requires block.Length == 2 && keys.Length == 32 && block != keys
    modifies block
    ensures (block[0], block[1]) == Desfunc(sp, (old(block[0]), old(block[1])), keys[..])
  {
    hide RoundWord, TableIp, TableFp, Fips46.High, Fips46.Low;
    var leftt, right := block[0], block[1];
    var tmp := TableIp(leftt, right);
    leftt := Fips46.High(tmp);
    right := Fips46.Low(tmp);
    ghost var h := (leftt, right);
    for curRound := 0 to 8
      invariant (leftt, right) == Rounds(sp, h, keys[..], 2 * curRound)
    {
      var k := 4 * curRound;
      leftt := Fips46.Xor(leftt, RoundWord(sp, right, keys[k], keys[k + 1]));
      right := Fips46.Xor(right, RoundWord(sp, leftt, keys[k + 2], keys[k + 3]));
    }
    tmp := TableFp(leftt, right);
    leftt := Fips46.High(tmp);
    right := Fips46.Low(tmp);
    block[0] := right;
    block[1] := leftt;
  }

  /** The two schedules of a single-DES key. */
  class DesKey {
    const ek: array<bv32>
    const dk: array<bv32>

    ghost predicate Shaped() {
      ek.Length == dk.Length == 32 && ek != dk
    }

    /** The schedules are those of the given key. */
    ghost predicate Holds(key: Key)
      reads ek, dk
    {
      Shaped() && ek[..] == Schedule(key, EN0) && dk[..] == Schedule(key, DE1)
    }

    constructor ()
      ensures Shaped() && fresh(ek) && fresh(dk)
    {
      ek := new bv32[32];
      dk := new bv32[32];
    }

    /** des_setup: refuses other round counts and key lengths and then changes nothing. */
    method Setup(key: array<bv8>, keylen: int, numRounds: int) returns (status: Status)
      requires Shaped() && key as object != ek && key as object != dk
      requires keylen <= key.Length
      modifies ek, dk
      ensures status == if numRounds != 0 && numRounds != 16 then CRYPT_INVALID_ROUNDS
                        else if keylen != 8 then CRYPT_INVALID_KEYSIZE else CRYPT_OK
      ensures status == CRYPT_OK ==> Holds(key[..8])
      ensures status != CRYPT_OK ==> unchanged(ek) && unchanged(dk)
    {
      hide Schedule;
      if numRounds != 0 && numRounds != 16 {
        return CRYPT_INVALID_ROUNDS;
      }
      if keylen != 8 {
        return CRYPT_INVALID_KEYSIZE;
      }
      assert key[0..8] == key[..8];
      Deskey(key, 0, EN0, ek);
      Deskey(key, 0, DE1, dk);
      return CRYPT_OK;
    }

    /** des_ecb_encrypt: pt and ct may be the same buffer. */
    method EcbEncrypt(sp: SpTables, pt: array<bv8>, ct: array<bv8>, ghost key: Key)
      requires Holds(key) && pt.Length == ct.Length == 8 && ct as object != ek && ct as object != dk
      modifies ct
      ensures ct[..] == Encrypt(sp, key, old(pt[..]))
    {
      hide Schedule;
      EcbPass(sp, pt, ct, ek);
    }

    /** des_ecb_decrypt. */
    method EcbDecrypt(sp: SpTables, ct: array<bv8>, pt: array<bv8>, ghost key: Key)
      requires Holds(key) && pt.Length == ct.Length == 8 && pt as object != ek && pt as object != dk
      modifies pt
      ensures pt[..] == Decrypt(sp, key, old(ct[..]))
    {
      hide Schedule;
      EcbPass(sp, ct, pt, dk);
    }
  }

  method LoadInto(from: array<bv8>, work: array<bv32>)
    requires from.Length == 8 && work.Length == 2 && from as object != work
    modifies work
    ensures (work[0], work[1]) == Load(from[..])
  {
    hide LoadWord;
    work[0] := LoadWord(from[0], from[1], from[2], from[3]);
    work[1] := LoadWord(from[4], from[5], from[6], from[7]);
  }

  method StoreFrom(work: array<bv32>, to: array<bv8>)
    requires to.Length == 8 && work.Length == 2 && to as object != work
    modifies to
    ensures to[..] == Store((work[0], work[1]))
  {
    hide StoredByte;
    var w0, w1 := work[0], work[1];
    to[0], to[1], to[2], to[3] := StoredByte(w0, 0), StoredByte(w0, 1), StoredByte(w0, 2), StoredByte(w0, 3);
    to[4], to[5], to[6], to[7] := StoredByte(w1, 0), StoredByte(w1, 1), StoredByte(w1, 2), StoredByte(w1, 3);
    assert to[..] == Store((w0, w1));
  }

  /** Load, one pass of desfunc, store. */
  method EcbPass(sp: SpTables, from: array<bv8>, to: array<bv8>, keys: array<bv32>)
    requires from.Length == to.Length == 8 && keys.Length == 32 && to as object != keys
    modifies to
    ensures to[..] == Ecb(sp, old(from[..]), keys[..])
  {
    hide Load, Store, Desfunc;
    var work := new bv32[2];
    LoadInto(from, work);
    DesfuncInPlace(sp, work, keys);
    StoreFrom(work, to);
  }

  /** The three schedules per direction of a triple-DES key. */
  class Des3Key {
    const ek0: array<bv32>
    const ek1: array<bv32>
    const ek2: array<bv32>
    const dk0: array<bv32>
    const dk1: array<bv32>
    const dk2: array<bv32>

    ghost function Arrays(): set<object> { {ek0, ek1, ek2, dk0, dk1, dk2} }

    ghost predicate Shaped() {
      && ek0.Length == ek1.Length == ek2.Length == dk0.Length == dk1.Length == dk2.Length == 32
      && ek0 != ek1 && ek0 != ek2 && ek0 != dk0 && ek0 != dk1 && ek0 != dk2
      && ek1 != ek2 && ek1 != dk0 && ek1 != dk1 && ek1 != dk2
      && ek2 != dk0 && ek2 != dk1 && ek2 != dk2 && dk0 != dk1 && dk0 != dk2 && dk1 != dk2
    }

    ghost predicate Holds(key: Key3)
      reads ek0, ek1, ek2, dk0, dk1, dk2
    {
      && Shaped()
      && ek0[..] == Schedule(Part1(key), EN0) && ek1[..] == Schedule(Part2(key), DE1) && ek2[..] == Schedule(Part3(key), EN0)
      && dk0[..] == Schedule(Part3(key), DE1) && dk1[..] == Schedule(Part2(key), EN0) && dk2[..] == Schedule(Part1(key), DE1)
    }

    constructor ()
      ensures Shaped() && fresh(Arrays())
    {
      ek0, ek1, ek2 := new bv32[32], new bv32[32], new bv32[32];
      dk0, dk1, dk2 := new bv32[32], new bv32[32], new bv32[32];
    }

    /** des3_setup. */
    method Setup(key: array<bv8>, keylen: int, numRounds: int) returns (status: Status)
      requires Shaped() && key as object !in Arrays()
      requires keylen <= key.Length
      modifies Arrays()
      ensures status == if numRounds != 0 && numRounds != 16 then CRYPT_INVALID_ROUNDS
                        else if keylen != 16 && keylen != 24 then CRYPT_INVALID_KEYSIZE else CRYPT_OK
      ensures status == CRYPT_OK ==> Holds(key[..keylen])
      ensures status != CRYPT_OK ==> forall a <- Arrays() :: unchanged(a)
    {
      hide Schedule;
      if numRounds != 0 && numRounds != 16 {
        return CRYPT_INVALID_ROUNDS;
      }
      if keylen == 16 {
        Deskey(key, 0, EN0, ek0);
        Deskey(key, 8, DE1, ek1);
        Deskey(key, 0, EN0, ek2);
        Deskey(key, 0, DE1, dk2);
        Deskey(key, 8, EN0, dk1);
        Deskey(key, 0, DE1, dk0);
      } else if keylen == 24 {
        Deskey(key, 0, EN0, ek0);
        Deskey(key, 8, DE1, ek1);
        Deskey(key, 16, EN0, ek2);
        Deskey(key, 0, DE1, dk2);
        Deskey(key, 8, EN0, dk1);
        Deskey(key, 16, DE1, dk0);
      } else {
        return CRYPT_INVALID_KEYSIZE;
      }
      ghost var k := key[..keylen];
      assert key[0..8] == k[..8] && key[8..16] == k[8..16];
      assert keylen == 24 ==> key[16..24] == k[16..24];
      return CRYPT_OK;
    }

    /** des3_ecb_encrypt. */
    method EcbEncrypt(sp: SpTables, pt: array<bv8>, ct: array<bv8>, ghost key: Key3)
      requires Holds(key) && pt.Length == ct.Length == 8 && ct as object !in Arrays()
      modifies ct
      ensures ct[..] == Encrypt3(sp, key, old(pt[..]))
    {
      hide Schedule, Load, Store, Desfunc;
      var work := new bv32[2];
      LoadInto(pt, work);
      DesfuncInPlace(sp, work, ek0);
      DesfuncInPlace(sp, work, ek1);
      DesfuncInPlace(sp, work, ek2);
      StoreFrom(work, ct);
    }

    /** des3_ecb_decrypt. */
    method EcbDecrypt(sp: SpTables, ct: array<bv8>, pt: array<bv8>, ghost key: Key3)
      requires Holds(key) && pt.Length == ct.Length == 8 && pt as object !in Arrays()
      modifies pt
      ensures pt[..] == Decrypt3(sp, key, old(ct[..]))
    {
      hide Schedule, Load, Store, Desfunc;
      var work := new bv32[2];
      LoadInto(ct, work);
      DesfuncInPlace(sp, work, dk0);
      DesfuncInPlace(sp, work, dk1);
      DesfuncInPlace(sp, work, dk2);
      StoreFrom(work, pt);
    }
  }

  /** A buffer enciphered and then deciphered with the same scheduled key is what it was. */
  method RoundTrip(sp: SpTables, skey: DesKey, buffer: array<bv8>, ghost key: Key)
    requires skey.Holds(key) && buffer.Length == 8 && buffer as object != skey.ek && buffer as object != skey.dk
    modifies buffer
    ensures buffer[..] == old(buffer[..])
  {
    hide Schedule, Encrypt, Decrypt;
    skey.EcbEncrypt(sp, buffer, buffer, key);
    skey.EcbDecrypt(sp, buffer, buffer, key);
    DecryptUndoesEncrypt(sp, key, old(buffer[..]));
  }
}
