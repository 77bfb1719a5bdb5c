/** The Data Encryption Standard as FIPS 46-3 states it: bits are numbered from 1 at the most
    significant end, every permutation is the standard's own table, and the round keys come from
    successive left shifts.  The contents of the S-boxes are a parameter: nothing proved about the
    library's cipher depends on them.  The library's code appears in modules Des and DesCipher. */
module Fips46 {

  /** The eight substitution boxes; each takes the six bits B_i as one number. */
  datatype SBoxes = SBoxes(
    s1: bv6 -> bv4, s2: bv6 -> bv4, s3: bv6 -> bv4, s4: bv6 -> bv4,
    s5: bv6 -> bv4, s6: bv6 -> bv4, s7: bv6 -> bv4, s8: bv6 -> bv4)

  // ----- permutations of a block -----

  function Bit64(x: bv64, n: bv64): bv64
    requires 1 <= n <= 64
  {
    (x >> (64 - n)) & 1
  }

  function Row64(x: bv64, a: bv64, b: bv64, c: bv64, d: bv64, e: bv64, f: bv64, g: bv64, h: bv64): bv64
    requires 1 <= a <= 64 && 1 <= b <= 64 && 1 <= c <= 64 && 1 <= d <= 64
    requires 1 <= e <= 64 && 1 <= f <= 64 && 1 <= g <= 64 && 1 <= h <= 64
  {
    (Bit64(x, a) << 7) | (Bit64(x, b) << 6) | (Bit64(x, c) << 5) | (Bit64(x, d) << 4) |
    (Bit64(x, e) << 3) | (Bit64(x, f) << 2) | (Bit64(x, g) << 1) | Bit64(x, h)
  }

  /** The initial permutation IP. */
  function IP(x: bv64): bv64 {
    (Row64(x, 58, 50, 42, 34, 26, 18, 10, 2) << 56) |
    (Row64(x, 60, 52, 44, 36, 28, 20, 12, 4) << 48) |
    (Row64(x, 62, 54, 46, 38, 30, 22, 14, 6) << 40) |
    (Row64(x, 64, 56, 48, 40, 32, 24, 16, 8) << 32) |
    (Row64(x, 57, 49, 41, 33, 25, 17,  9, 1) << 24) |
    (Row64(x, 59, 51, 43, 35, 27, 19, 11, 3) << 16) |
    (Row64(x, 61, 53, 45, 37, 29, 21, 13, 5) <<  8) |
    Row64(x, 63, 55, 47, 39, 31, 23, 15, 7)
  }

  /** The final permutation, the standard's table for the inverse of IP. */
  function FP(x: bv64): bv64 {
    (Row64(x, 40, 8, 48, 16, 56, 24, 64, 32) << 56) |
    (Row64(x, 39, 7, 47, 15, 55, 23, 63, 31) << 48) |
    (Row64(x, 38, 6, 46, 14, 54, 22, 62, 30) << 40) |
    (Row64(x, 37, 5, 45, 13, 53, 21, 61, 29) << 32) |
    (Row64(x, 36, 4, 44, 12, 52, 20, 60, 28) << 24) |
    (Row64(x, 35, 3, 43, 11, 51, 19, 59, 27) << 16) |
    (Row64(x, 34, 2, 42, 10, 50, 18, 58, 26) <<  8) |
    Row64(x, 33, 1, 41, 9, 49, 17, 57, 25)
  }

  // ----- the round function -----

  function Bit32(x: bv32, n: bv32): bv32
    requires 1 <= n <= 32
  {
    (x >> (32 - n)) & 1
  }

  function Row6(x: bv32, a: bv32, b: bv32, c: bv32, d: bv32, e: bv32, f: bv32): bv48
    requires 1 <= a <= 32 && 1 <= b <= 32 && 1 <= c <= 32
    requires 1 <= d <= 32 && 1 <= e <= 32 && 1 <= f <= 32
  {
    ((Bit32(x, a) << 5) | (Bit32(x, b) << 4) | (Bit32(x, c) << 3) |
     (Bit32(x, d) << 2) | (Bit32(x, e) << 1) | Bit32(x, f)) as bv48
  }

  /** The expansion E of a half block to 48 bits. */
  function E(r: bv32): bv48 {
    (Row6(r, 32,  1,  2,  3,  4,  5) << 42) | (Row6(r,  4,  5,  6,  7,  8,  9) << 36) |
    (Row6(r,  8,  9, 10, 11, 12, 13) << 30) | (Row6(r, 12, 13, 14, 15, 16, 17) << 24) |
    (Row6(r, 16, 17, 18, 19, 20, 21) << 18) | (Row6(r, 20, 21, 22, 23, 24, 25) << 12) |
    (Row6(r, 24, 25, 26, 27, 28, 29) <<  6) | Row6(r, 28, 29, 30, 31, 32, 1)
  }

  function Row4(x: bv32, a: bv32, b: bv32, c: bv32, d: bv32): bv32
    requires 1 <= a <= 32 && 1 <= b <= 32 && 1 <= c <= 32 && 1 <= d <= 32
  {
    (Bit32(x, a) << 3) | (Bit32(x, b) << 2) | (Bit32(x, c) << 1) | Bit32(x, d)
  }

  /** The permutation P of the S-box outputs. */
  function P(x: bv32): bv32 {
    (Row4(x, 16,  7, 20, 21) << 28) | (Row4(x, 29, 12, 28, 17) << 24) |
    (Row4(x,  1, 15, 23, 26) << 20) | (Row4(x,  5, 18, 31, 10) << 16) |
    (Row4(x,  2,  8, 24, 14) << 12) | (Row4(x, 32, 27,  3,  9) <<  8) |
    (Row4(x, 19, 13, 30,  6) <<  4) | Row4(x, 22, 11,  4, 25)
  }

  /** The i-th six-bit group (1..8) of a 48-bit number, as the low bits of i-dependent shifts. */
  function Group(b: bv48, shift: bv48): bv6
    requires shift <= 42
  {
    ((b >> shift) & 0x3f) as bv6
  }

  /** Eight S-box outputs side by side, that of S1 first. */
  function SideBySide(v1: bv4, v2: bv4, v3: bv4, v4: bv4, v5: bv4, v6: bv4, v7: bv4, v8: bv4): bv32 {
    (v1 as bv32 << 28) | (v2 as bv32 << 24) | (v3 as bv32 << 20) | (v4 as bv32 << 16) |
    (v5 as bv32 << 12) | (v6 as bv32 << 8) | (v7 as bv32 << 4) | v8 as bv32
  }

  function Substitute(s: SBoxes, b1: bv6, b2: bv6, b3: bv6, b4: bv6, b5: bv6, b6: bv6, b7: bv6, b8: bv6): bv32 {
    SideBySide(s.s1(b1), s.s2(b2), s.s3(b3), s.s4(b4), s.s5(b5), s.s6(b6), s.s7(b7), s.s8(b8))
  }

  /** The S-boxes applied to the eight groups of b, and P. */
  function SubstituteAndPermute(s: SBoxes, b: bv48): bv32 {
    P(Substitute(s, Group(b, 42), Group(b, 36), Group(b, 30), Group(b, 24),
                 Group(b, 18), Group(b, 12), Group(b, 6), Group(b, 0)))
  }

  /** The cipher function f(R, K). */
  function F(s: SBoxes, r: bv32, k: bv48): bv32 {
    SubstituteAndPermute(s, E(r) ^ k)
  }

  // ----- the key schedule -----

  /** Bit positions as the standard counts them, in a 64-bit key and in the 56 bits C D. */
  type KeyIndex = n: nat | 1 <= n <= 64 witness 1
  type CdIndex = n: nat | 1 <= n <= 56 witness 1

  const PC1: seq<KeyIndex> := [
    57, 49, 41, 33, 25, 17,  9,  1, 58, 50, 42, 34, 26, 18,
    10,  2, 59, 51, 43, 35, 27, 19, 11,  3, 60, 52, 44, 36] + [
    63, 55, 47, 39, 31, 23, 15,  7, 62, 54, 46, 38, 30, 22,
    14,  6, 61, 53, 45, 37, 29, 21, 13,  5, 28, 20, 12,  4]

  const PC2: seq<CdIndex> := [
    14, 17, 11, 24,  1,  5,  3, 28, 15,  6, 21, 10,
    23, 19, 12,  4, 26,  8, 16,  7, 27, 20, 13,  2] + [
    41, 52, 31, 37, 47, 55, 30, 40, 51, 45, 33, 48,
    44, 49, 39, 56, 34, 53, 46, 42, 50, 36, 29, 32]

  const SHIFTS: seq<nat> := [1, 1, 2, 2, 2, 2, 2, 2, 1, 2, 2, 2, 2, 2, 2, 1]

  type Key = k: seq<bv8> | |k| == 8 witness [0, 0, 0, 0, 0, 0, 0, 0]

  /** Bit j of the key, counted from 0 at the most significant bit of the first byte. */
  predicate KeyBit(key: Key, j: nat)
    requires j < 64
  {
    (key[j / 8] >> (7 - j % 8)) & 1 == 1
  }

  function KeyBits(key: Key): (bits: seq<bool>)
    ensures |bits| == 64
  {
    seq(64, j requires 0 <= j < 64 => KeyBit(key, j))
  }

  /** Permuted choice 1: the 56 key bits that are not parity, in the order of the table. */
  function Choice1(bits: seq<bool>): (r: seq<bool>)
    requires |bits| == 64
    ensures |r| == 56
  {
    seq(56, j requires 0 <= j < 56 => bits[PC1[j] - 1])
  }

  /** Permuted choice 2: 48 of the 56 bits C D. */
  function Choice2(bits: seq<bool>): (r: seq<bool>)
    requires |bits| == 56
    ensures |r| == 48
  {
    seq(48, j requires 0 <= j < 48 => bits[PC2[j] - 1])
  }

  function LeftShift(h: seq<bool>, n: nat): (r: seq<bool>)
    requires n <= |h|
    ensures |r| == |h|
  {
    h[n..] + h[..n]
  }

  /** C_i followed by D_i. */
  function CD(key: Key, i: nat): (r: seq<bool>)
    requires i <= 16
    ensures |r| == 56
  {
    if i == 0 then Choice1(KeyBits(key))
    else
      var prev := CD(key, i - 1);
      LeftShift(prev[..28], SHIFTS[i - 1]) + LeftShift(prev[28..], SHIFTS[i - 1])
  }

  function Bit(b: bool): bv48 { if b then 1 else 0 }

  /** Eight bits as a number, the first one most significant. */
  function Octet(b0: bool, b1: bool, b2: bool, b3: bool, b4: bool, b5: bool, b6: bool, b7: bool): bv48 {
    (Bit(b0) << 7) | (Bit(b1) << 6) | (Bit(b2) << 5) | (Bit(b3) << 4) |
    (Bit(b4) << 3) | (Bit(b5) << 2) | (Bit(b6) << 1) | Bit(b7)
  }

  function OctetAt(bits: seq<bool>, i: nat): bv48
    requires i + 8 <= |bits|
  {
    Octet(bits[i], bits[i + 1], bits[i + 2], bits[i + 3], bits[i + 4], bits[i + 5], bits[i + 6], bits[i + 7])
  }

  function SixOctets(o0: bv48, o1: bv48, o2: bv48, o3: bv48, o4: bv48, o5: bv48): bv48 {
    (o0 << 40) | (o1 << 32) | (o2 << 24) | (o3 << 16) | (o4 << 8) | o5
  }

  /** 48 bits as a number, the first one most significant. */
  function Number(bits: seq<bool>): bv48
    requires |bits| == 48
  {
    SixOctets(OctetAt(bits, 0), OctetAt(bits, 8), OctetAt(bits, 16), OctetAt(bits, 24), OctetAt(bits, 32), OctetAt(bits, 40))
  }

  /** The round key K_i, 1 <= i <= 16. */
  function RoundKey(key: Key, i: nat): bv48
    requires 1 <= i <= 16
  {
    Number(Choice2(CD(key, i)))
  }

  function RoundKeys(key: Key): (ks: seq<bv48>)
    ensures |ks| == 16
  {
    seq(16, i requires 0 <= i < 16 => RoundKey(key, i + 1))
  }

  function Reverse<T>(s: seq<T>): (r: seq<T>)
    ensures |r| == |s|
    ensures forall i :: 0 <= i < |s| ==> r[i] == s[|s| - 1 - i]
  {
    seq(|s|, i requires 0 <= i < |s| => s[|s| - 1 - i])
  }

  // ----- the block transformation -----

  /** Bit-by-bit addition modulo 2. */
  function Xor(x: bv32, y: bv32): bv32 { x ^ y }

  /** One round: (L, R) becomes (R, L + f(R, K)). */
  function Round(s: SBoxes, h: (bv32, bv32), k: bv48): (bv32, bv32) {
    (h.1, Xor(h.0, F(s, h.1, k)))
  }

  function Feistel(s: SBoxes, h: (bv32, bv32), ks: seq<bv48>): (bv32, bv32) {
    if |ks| == 0 then h else Round(s, Feistel(s, h, ks[..|ks| - 1]), ks[|ks| - 1])
  }

  function High(x: bv64): bv32 { (x >> 32) as bv32 }

  function Low(x: bv64): bv32 { (x & 0xffff_ffff) as bv32 }

  function Join(l: bv32, r: bv32): bv64 { (l as bv64 << 32) | r as bv64 }

  /** IP, the rounds, the exchange of the two halves, and the inverse of IP. */
  function Transform(s: SBoxes, x: bv64, ks: seq<bv48>): bv64 {
    var (l, r) := Feistel(s, (High(IP(x)), Low(IP(x))), ks);
    FP(Join(r, l))
  }

  function Encrypt(s: SBoxes, key: Key, x: bv64): bv64 {
    Transform(s, x, RoundKeys(key))
  }

  /** Deciphering uses the same round keys in the opposite order. */
  function Decrypt(s: SBoxes, key: Key, x: bv64): bv64 {
    Transform(s, x, Reverse(RoundKeys(key)))
  }

  // ----- the standard's own laws -----

  lemma FinalUndoesInitial(x: bv64)
    ensures FP(IP(x)) == x
  {
  }

  lemma InitialUndoesFinal(x: bv64)
    ensures IP(FP(x)) == x
  {
  }

  /** The two permutations written down above are inverse, as the standard says. */
  lemma PermutationsInvert(x: bv64)
    ensures FP(IP(x)) == x && IP(FP(x)) == x
  {
    hide IP, FP;
    FinalUndoesInitial(x);
    InitialUndoesFinal(x);
  }
}
