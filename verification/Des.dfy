/** What the routines of des.cpp compute on one block, as functions on 32-bit words: the permutations, the
    key schedule and the rounds are those of the Data Encryption Standard, and the block routine with the
    mirrored schedule undoes itself.  Complements are in DesComplement, blocks of bytes and triple DES in
    DesBlocks, the in-place routines with their loops in DesCipher. */
module Des {
  import Fips46

  type Key = Fips46.Key

  /** The combined substitution and permutation tables SP1..SP8, indexed by six bits.
      Their contents are arbitrary unless a theorem says otherwise. */
  datatype SpTables = SpTables(
    sp1: bv6 -> bv32, sp2: bv6 -> bv32, sp3: bv6 -> bv32, sp4: bv6 -> bv32,
    sp5: bv6 -> bv32, sp6: bv6 -> bv32, sp7: bv6 -> bv32, sp8: bv6 -> bv32)

  function Rol1(x: bv32): bv32 { (x << 1) | (x >> 31) }

  function Ror1(x: bv32): bv32 { (x >> 1) | (x << 31) }

  function Ror4(x: bv32): bv32 { (x >> 4) | (x << 28) }

  // ----- initial and final permutation: masked swaps, and eight table lookups -----

  function SwapIp(l0: bv32, r0: bv32): (bv32, bv32) {
    var w1 := ((l0 >> 4) ^ r0) & 0x0f0f0f0f;
    var r1, l1 := r0 ^ w1, l0 ^ (w1 << 4);
    var w2 := ((l1 >> 16) ^ r1) & 0x0000ffff;
    var r2, l2 := r1 ^ w2, l1 ^ (w2 << 16);
    var w3 := ((r2 >> 2) ^ l2) & 0x33333333;
    var l3, r3 := l2 ^ w3, r2 ^ (w3 << 2);
    var w4 := ((r3 >> 8) ^ l3) & 0x00ff00ff;
    var l4, r4 := l3 ^ w4, Rol1(r3 ^ (w4 << 8));
    var w5 := (l4 ^ r4) & 0xaaaaaaaa;
    (Rol1(l4 ^ w5), r4 ^ w5)
  }

  function SwapFp(l0: bv32, r0: bv32): (bv32, bv32) {
    var r1 := Ror1(r0);
    var w1 := (l0 ^ r1) & 0xaaaaaaaa;
    var l2, r2 := Ror1(l0 ^ w1), r1 ^ w1;
    var w2 := ((l2 >> 8) ^ r2) & 0x00ff00ff;
    var r3, l3 := r2 ^ w2, l2 ^ (w2 << 8);
    var w3 := ((l3 >> 2) ^ r3) & 0x33333333;
    var r4, l4 := r3 ^ w3, l3 ^ (w3 << 2);
    var w4 := ((r4 >> 16) ^ l4) & 0x0000ffff;
    var l5, r5 := l4 ^ w4, r4 ^ (w4 << 16);
    var w5 := ((r5 >> 4) ^ l5) & 0x0f0f0f0f;
    (l5 ^ w5, r5 ^ (w5 << 4))
  }

  function Pair(p: (bv32, bv32)): bv64 { Fips46.Join(p.0, p.1) }

  function Byte(x: bv32, n: bv32): bv8
    requires n <= 3
  {
    ((x >> (8 * n)) & 0xff) as bv8
  }

  function At(b: bv8, n: bv32): bv32
    requires n <= 3
  {
    (b as bv32) << (8 * n)
  }

  /** Entry b of row k of the lookup table for the initial permutation: the permutation of the
      block whose byte k is b and whose other bytes are zero.  Rows 0..3 index the left half. */
  function IpRow(k: bv32, b: bv8): bv64
    requires k <= 7
  {
    if k <= 3 then Pair(SwapIp(At(b, k), 0)) else Pair(SwapIp(0, At(b, k - 4)))
  }

  function FpRow(k: bv32, b: bv8): bv64
    requires k <= 7
  {
    if k <= 3 then Pair(SwapFp(At(b, k), 0)) else Pair(SwapFp(0, At(b, k - 4)))
  }

  function TableIp(l: bv32, r: bv32): bv64 {
    IpRow(0, Byte(l, 0)) ^ IpRow(1, Byte(l, 1)) ^ IpRow(2, Byte(l, 2)) ^ IpRow(3, Byte(l, 3)) ^
    IpRow(4, Byte(r, 0)) ^ IpRow(5, Byte(r, 1)) ^ IpRow(6, Byte(r, 2)) ^ IpRow(7, Byte(r, 3))
  }

  function TableFp(l: bv32, r: bv32): bv64 {
    FpRow(0, Byte(l, 0)) ^ FpRow(1, Byte(l, 1)) ^ FpRow(2, Byte(l, 2)) ^ FpRow(3, Byte(l, 3)) ^
    FpRow(4, Byte(r, 0)) ^ FpRow(5, Byte(r, 1)) ^ FpRow(6, Byte(r, 2)) ^ FpRow(7, Byte(r, 3))
  }

  /** The exclusive-or of eight lookups is the masked-swap permutation of the whole block. */
  lemma IpLookupsAreSwaps(l: bv32, r: bv32)
    ensures TableIp(l, r) == Pair(SwapIp(l, r))
  {
  }

  lemma FpLookupsAreSwaps(l: bv32, r: bv32)
    ensures TableFp(l, r) == Pair(SwapFp(l, r))
  {
  }

  /** Both forms compute the standard's IP, except that each half comes out rotated left by one. */
  lemma SwapsAreIp(l: bv32, r: bv32)
    ensures var x := Fips46.IP(Fips46.Join(l, r));
            SwapIp(l, r) == (Rol1(Fips46.High(x)), Rol1(Fips46.Low(x)))
  {
  }

  /** The final swaps take the rotated halves, and after the exchange of the block words they give
      the standard's final permutation of the two halves exchanged. */
  lemma SwapsAreFp(l: bv32, r: bv32)
    ensures var (l', r') := SwapFp(Rol1(l), Rol1(r));
            Fips46.Join(r', l') == Fips46.FP(Fips46.Join(r, l))
  {
  }

  // ----- one round -----

  function Six(x: bv32, shift: bv32): bv6
    requires shift <= 24
  {
    ((x >> shift) & 0x3f) as bv6
  }

  function Lookups(sp: SpTables, b1: bv6, b2: bv6, b3: bv6, b4: bv6, b5: bv6, b6: bv6, b7: bv6, b8: bv6): bv32 {
    sp.sp7(b7) ^ sp.sp5(b5) ^ sp.sp3(b3) ^ sp.sp1(b1) ^
    (sp.sp8(b8) ^ sp.sp6(b6) ^ sp.sp4(b4) ^ sp.sp2(b2))
  }

  /** The eight lookups of a half-round, from its two words. */
  function LookupsOf(sp: SpTables, w: bv32, u: bv32): bv32 {
    Lookups(sp, Six(w, 24), Six(u, 24), Six(w, 16), Six(u, 16), Six(w, 8), Six(u, 8), Six(w, 0), Six(u, 0))
  }

  /** The word one half-round XORs into the other half, with the two words of its round key. */
  function RoundWord(sp: SpTables, r: bv32, k0: bv32, k1: bv32): bv32 {
    LookupsOf(sp, Fips46.Xor(Ror4(r), k0), Fips46.Xor(r, k1))
  }

  /** The rearrangement of a raw 2 x 24 bit round key into the two words the rounds use. */
  function Cook(raw0: bv32, raw1: bv32): (bv32, bv32) {
    (((raw0 & 0x00fc0000) << 6) | ((raw0 & 0x00000fc0) << 10) |
     ((raw1 & 0x00fc0000) >> 10) | ((raw1 & 0x00000fc0) >> 6),
     ((raw0 & 0x0003f000) << 12) | ((raw0 & 0x0000003f) << 16) |
     ((raw1 & 0x0003f000) >> 4) | (raw1 & 0x0000003f))
  }

  function CookKey(k: bv48): (bv32, bv32) {
    Cook((k >> 24) as bv32, (k & 0xffffff) as bv32)
  }

  /** SPi is Si followed by P, rotated like the halves. */
  ghost predicate Combines(sp: SpTables, s: Fips46.SBoxes) {
    && (forall x :: sp.sp1(x) == SpWord(s.s1(x), 28))
    && (forall x :: sp.sp2(x) == SpWord(s.s2(x), 24))
    && (forall x :: sp.sp3(x) == SpWord(s.s3(x), 20))
    && (forall x :: sp.sp4(x) == SpWord(s.s4(x), 16))
    && (forall x :: sp.sp5(x) == SpWord(s.s5(x), 12))
    && (forall x :: sp.sp6(x) == SpWord(s.s6(x), 8))
    && (forall x :: sp.sp7(x) == SpWord(s.s7(x), 4))
    && (forall x :: sp.sp8(x) == SpWord(s.s8(x), 0))
  }

  /** Exclusive-or commutes with cutting out a six-bit group. */
  lemma GroupsOfXor(x: bv32, y: bv32, shift: bv32, e: bv48, k: bv48, place: bv48)
    requires shift <= 24 && place <= 42
    ensures Six(x ^ y, shift) == Six(x, shift) ^ Six(y, shift)
    ensures Fips46.Group(e ^ k, place) == Fips46.Group(e, place) ^ Fips46.Group(k, place)
  {
  }

  /** x and y, the two words of a half-round, hold the eight six-bit groups of b. */
  predicate HoldsGroups(x: bv32, y: bv32, b: bv48) {
    && Six(x, 24) == Fips46.Group(b, 42) && Six(y, 24) == Fips46.Group(b, 36)
    && Six(x, 16) == Fips46.Group(b, 30) && Six(y, 16) == Fips46.Group(b, 24)
    && Six(x, 8) == Fips46.Group(b, 18) && Six(y, 8) == Fips46.Group(b, 12)
    && Six(x, 0) == Fips46.Group(b, 6) && Six(y, 0) == Fips46.Group(b, 0)
  }

  lemma ExpansionGroups1And2(r: bv32)
    ensures Six(Ror4(Rol1(r)), 24) == Fips46.Group(Fips46.E(r), 42) && Six(Rol1(r), 24) == Fips46.Group(Fips46.E(r), 36)
  {
  }

  lemma ExpansionGroups3And4(r: bv32)
    ensures Six(Ror4(Rol1(r)), 16) == Fips46.Group(Fips46.E(r), 30) && Six(Rol1(r), 16) == Fips46.Group(Fips46.E(r), 24)
  {
  }

  lemma ExpansionGroups5And6(r: bv32)
    ensures Six(Ror4(Rol1(r)), 8) == Fips46.Group(Fips46.E(r), 18) && Six(Rol1(r), 8) == Fips46.Group(Fips46.E(r), 12)
  {
  }

  lemma ExpansionGroups7And8(r: bv32)
    ensures Six(Ror4(Rol1(r)), 0) == Fips46.Group(Fips46.E(r), 6) && Six(Rol1(r), 0) == Fips46.Group(Fips46.E(r), 0)
  {
  }

  /** The rotations bring the groups of the expansion E to the bits the lookups take. */
  lemma ExpansionGroups(r: bv32)
    ensures HoldsGroups(Ror4(Rol1(r)), Rol1(r), Fips46.E(r))
  {
    hide Fips46.E, Fips46.Group, Six, Ror4, Rol1;
    ExpansionGroups1And2(r);
    ExpansionGroups3And4(r);
    ExpansionGroups5And6(r);
    ExpansionGroups7And8(r);
  }

  /** Cooking puts the groups of a round key in the same places. */
  lemma CookedGroups(k: bv48)
    ensures HoldsGroups(CookKey(k).0, CookKey(k).1, k)
  {
    hide CookKey, Six, Fips46.Group;
    FirstCookedGroups(k);
    SecondCookedGroups(k);
  }

  lemma FirstCookedGroups(k: bv48)
    ensures Six(CookKey(k).0, 24) == Fips46.Group(k, 42) && Six(CookKey(k).0, 16) == Fips46.Group(k, 30)
    ensures Six(CookKey(k).0, 8) == Fips46.Group(k, 18) && Six(CookKey(k).0, 0) == Fips46.Group(k, 6)
  {
  }

  lemma SecondCookedGroups(k: bv48)
    ensures Six(CookKey(k).1, 24) == Fips46.Group(k, 36) && Six(CookKey(k).1, 16) == Fips46.Group(k, 24)
    ensures Six(CookKey(k).1, 8) == Fips46.Group(k, 12) && Six(CookKey(k).1, 0) == Fips46.Group(k, 0)
  {
  }

  /** Hence the bits of the lookups are the standard's B_1..B_8, the groups of E(R) ^ K. */
  lemma XoredGroups(w: bv32, u: bv32, e: bv48, k0: bv32, k1: bv32, k: bv48)
    requires HoldsGroups(w, u, e) && HoldsGroups(k0, k1, k)
    ensures HoldsGroups(Fips46.Xor(w, k0), Fips46.Xor(u, k1), e ^ k)
  {
    GroupsOfXor(w, k0, 24, e, k, 42);
    GroupsOfXor(u, k1, 24, e, k, 36);
    GroupsOfXor(w, k0, 16, e, k, 30);
    GroupsOfXor(u, k1, 16, e, k, 24);
    GroupsOfXor(w, k0, 8, e, k, 18);
    GroupsOfXor(u, k1, 8, e, k, 12);
    GroupsOfXor(w, k0, 0, e, k, 6);
    GroupsOfXor(u, k1, 0, e, k, 0);
  }

  /** What P makes of the output of the S-box that stands at the given place. */
  function SpWord(v: bv4, shift: bv32): bv32
    requires shift <= 28
  {
    Rol1(Fips46.P(v as bv32 << shift))
  }

  lemma PIsLinear(a: bv4, b: bv4, c: bv4, d: bv4, e: bv4, f: bv4, g: bv4, h: bv4)
    ensures Rol1(Fips46.P(Fips46.SideBySide(a, b, c, d, e, f, g, h))) ==
            SpWord(g, 4) ^ SpWord(e, 12) ^ SpWord(c, 20) ^ SpWord(a, 28) ^
            (SpWord(h, 0) ^ SpWord(f, 8) ^ SpWord(d, 16) ^ SpWord(b, 24))
  {
  }

  lemma LookupsSplit(sp: SpTables, s: Fips46.SBoxes,
                    b1: bv6, b2: bv6, b3: bv6, b4: bv6, b5: bv6, b6: bv6, b7: bv6, b8: bv6)
    requires Combines(sp, s)
    ensures Lookups(sp, b1, b2, b3, b4, b5, b6, b7, b8) ==
            SpWord(s.s7(b7), 4) ^ SpWord(s.s5(b5), 12) ^ SpWord(s.s3(b3), 20) ^ SpWord(s.s1(b1), 28) ^
            (SpWord(s.s8(b8), 0) ^ SpWord(s.s6(b6), 8) ^ SpWord(s.s4(b4), 16) ^ SpWord(s.s2(b2), 24))
  {
  }

  /** The exclusive-or of the eight table words is the permuted S-box output, rotated. */
  lemma LookupsAreP(sp: SpTables, s: Fips46.SBoxes,
                    b1: bv6, b2: bv6, b3: bv6, b4: bv6, b5: bv6, b6: bv6, b7: bv6, b8: bv6)
    requires Combines(sp, s)
    ensures Lookups(sp, b1, b2, b3, b4, b5, b6, b7, b8) ==
            Rol1(Fips46.P(Fips46.Substitute(s, b1, b2, b3, b4, b5, b6, b7, b8)))
  {
    LookupsSplit(sp, s, b1, b2, b3, b4, b5, b6, b7, b8);
    PIsLinear(s.s1(b1), s.s2(b2), s.s3(b3), s.s4(b4), s.s5(b5), s.s6(b6), s.s7(b7), s.s8(b8));
  }

  lemma LookupsOfGroups(sp: SpTables, s: Fips46.SBoxes, w: bv32, u: bv32, b: bv48)
    requires Combines(sp, s) && HoldsGroups(w, u, b)
    ensures LookupsOf(sp, w, u) == Rol1(Fips46.SubstituteAndPermute(s, b))
  {
    hide Fips46.P, Fips46.SideBySide, Rol1, Lookups;
    LookupsAreP(sp, s, Six(w, 24), Six(u, 24), Six(w, 16), Six(u, 16), Six(w, 8), Six(u, 8), Six(w, 0), Six(u, 0));
  }

  lemma LookupsAreF(sp: SpTables, s: Fips46.SBoxes, r: bv32, k: bv48)
    requires Combines(sp, s)
    ensures LookupsOf(sp, Fips46.Xor(Ror4(Rol1(r)), CookKey(k).0), Fips46.Xor(Rol1(r), CookKey(k).1)) ==
            Rol1(Fips46.SubstituteAndPermute(s, Fips46.E(r) ^ k))
  {
    hide *;
    ExpansionGroups(r);
    CookedGroups(k);
    XoredGroups(Ror4(Rol1(r)), Rol1(r), Fips46.E(r), CookKey(k).0, CookKey(k).1, k);
    LookupsOfGroups(sp, s, Fips46.Xor(Ror4(Rol1(r)), CookKey(k).0), Fips46.Xor(Rol1(r), CookKey(k).1), Fips46.E(r) ^ k);
  }

  /** One half-round is the standard's cipher function on rotated halves. */
  lemma RoundIsF(sp: SpTables, s: Fips46.SBoxes, r: bv32, k: bv48)
    requires Combines(sp, s)
    ensures RoundWord(sp, Rol1(r), CookKey(k).0, CookKey(k).1) == Rol1(Fips46.F(s, r, k))
  {
    hide Fips46.E, Rol1, Ror4, CookKey, Combines, LookupsOf, Fips46.SubstituteAndPermute;
    LookupsAreF(sp, s, r, k);
  }

  // ----- key schedule -----

  const BYTEBIT: seq<bv8> := [0x80, 0x40, 0x20, 0x10, 0x08, 0x04, 0x02, 0x01]

  const BIGBYTE: seq<bv32> := [
    0x800000, 0x400000, 0x200000, 0x100000, 0x80000, 0x40000,
    0x20000,  0x10000,  0x8000,   0x4000,   0x2000,  0x1000,
    0x800,    0x400,    0x200,    0x100,    0x80,    0x40,
    0x20,     0x10,     0x8,      0x4,      0x2,     0x1]

  type KeyIndex = n: nat | n < 64
  type CdIndex = n: nat | n < 56
  type Rotation = n: nat | n <= 28

  const PC1: seq<KeyIndex> := [
    56, 48, 40, 32, 24, 16, 8,  0,  57, 49, 41, 33, 25, 17, 9,  1,  58, 50, 42,
    34, 26, 18, 10, 2,  59, 51, 43, 35] + [
    62, 54, 46, 38, 30, 22, 14, 6,  61, 53, 45, 37, 29, 21, 13, 5,  60, 52, 44,
    36, 28, 20, 12, 4,  27, 19, 11, 3]

  const TOTROT: seq<Rotation> := [1, 2, 4, 6, 8, 10, 12, 14, 15, 17, 19, 21, 23, 25, 27, 28]

  const PC2: seq<CdIndex> := [
    13, 16, 10, 23, 0,  4,  2,  27, 14, 5,  20, 9,
    22, 18, 11, 3,  25, 7,  15, 6,  26, 19, 12, 1] + [
    40, 51, 30, 36, 46, 54, 29, 39, 50, 44, 32, 47,
    43, 48, 38, 55, 33, 52, 45, 41, 49, 35, 28, 31]

  /** Key bit l as the schedule tests it. */
  predicate KeyBitSet(key: Key, l: nat)
    requires l < 64
  {
    key[l / 8] & BYTEBIT[l % 8] == BYTEBIT[l % 8]
  }

  /** pc1m: the 56 selected key bits. */
  function SelectedBits(key: Key): (r: seq<bool>)
    ensures |r| == 56
  {
    seq(56, j requires 0 <= j < 56 => KeyBitSet(key, PC1[j]))
  }

  /** Where bit j of pcr comes from when both 28-bit halves are rotated by rot. */
  function RotatedIndex(j: nat, rot: Rotation): (l: nat)
    requires j < 56
    ensures l < 56
  {
    if j + rot < (if j < 28 then 28 else 56) then j + rot else j + rot - 28
  }

  /** pcr: the selected bits with both halves rotated by the total of the first i+1 shifts. */
  function RotatedBits(key: Key, i: nat): (r: seq<bool>)
    requires i < 16
    ensures |r| == 56
  {
    seq(56, j requires 0 <= j < 56 => SelectedBits(key)[RotatedIndex(j, TOTROT[i])])
  }

  /** One raw 24-bit word: bit j of the choice sets bigbyte[j]. */
  function RawWord(bits: seq<bool>): bv32
    requires |bits| <= 24
  {
    if |bits| == 0 then 0
    else Marked(RawWord(bits[..|bits| - 1]), bits[|bits| - 1], BIGBYTE[|bits| - 1])
  }

  function Marked(w: bv32, b: bool, mask: bv32): bv32 { w | (if b then mask else 0) }

  function ChosenBits(key: Key, i: nat): (r: seq<bool>)
    requires i < 16
    ensures |r| == 48
  {
    seq(48, j requires 0 <= j < 48 => RotatedBits(key, i)[PC2[j]])
  }

  /** The two cooked words of round key i, counted from 0. */
  function RoundPair(key: Key, i: nat): (bv32, bv32)
    requires i < 16
  {
    Cook(RawWord(ChosenBits(key, i)[..24]), RawWord(ChosenBits(key, i)[24..]))
  }

  /** Words m = 2 i and m + 1 of a schedule come from pair i. */
  function Flatten(pairs: seq<(bv32, bv32)>): (r: seq<bv32>)
    ensures |r| == 2 * |pairs|
  {
    seq(2 * |pairs|, m requires 0 <= m < 2 * |pairs| => if m % 2 == 0 then pairs[m / 2].0 else pairs[m / 2].1)
  }

  datatype Direction = EN0 | DE1

  /** The 32 words deskey leaves in keyout. */
  function Schedule(key: Key, edf: Direction): (r: seq<bv32>)
    ensures |r| == 32
  {
    Flatten(seq(16, m requires 0 <= m < 16 => RoundPair(key, if edf == DE1 then 15 - m else m)))
  }

  /** The mask test is the standard's bit, counted from the top of each byte. */
  lemma KeyBitsAgree(key: Key, l: nat)
    requires l < 64
    ensures KeyBitSet(key, l) == Fips46.KeyBit(key, l)
  {
    BitTests(key[l / 8]);
  }

  lemma BitTests(b: bv8)
    ensures forall m: nat {:trigger BYTEBIT[m]} :: m < 8 ==> (b & BYTEBIT[m] == BYTEBIT[m]) == ((b >> (7 - m)) & 1 == 1)
  {
    forall m: nat | m < 8
      ensures (b & BYTEBIT[m] == BYTEBIT[m]) == ((b >> (7 - m)) & 1 == 1)
    {
      assert m == 0 || m == 1 || m == 2 || m == 3 || m == 4 || m == 5 || m == 6 || m == 7;
    }
  }

  /** The zero-based tables of the code are the standard's tables. */
  lemma Choice1Agrees(j: nat)
    requires j < 56
    ensures Fips46.PC1[j] as int == PC1[j] as int + 1
  {
    if j < 28 {
      FirstHalfOfChoice1(j);
    } else {
      SecondHalfOfChoice1(j);
    }
  }

  lemma FirstHalfOfChoice1(j: nat)
    requires j < 28
    ensures Fips46.PC1[j] as int == PC1[j] as int + 1
  {
  }

  lemma SecondHalfOfChoice1(j: nat)
    requires 28 <= j < 56
    ensures Fips46.PC1[j] as int == PC1[j] as int + 1
  {
  }

  lemma Choice2Agrees(j: nat)
    requires j < 48
    ensures Fips46.PC2[j] as int == PC2[j] as int + 1
  {
    assert j == 8 * (j / 8) + j % 8;
    assert j / 8 in {0, 1, 2, 3, 4, 5} && j % 8 in {0, 1, 2, 3, 4, 5, 6, 7};
  }

  lemma ShiftsAgree(i: nat)
    requires i < 16
    ensures Fips46.SHIFTS[i] + (if i == 0 then 0 else TOTROT[i - 1] as nat) == TOTROT[i]
  {
  }

  lemma SelectionAgrees(key: Key)
    ensures SelectedBits(key) == Fips46.Choice1(Fips46.KeyBits(key))
  {
    forall j | 0 <= j < 56
      ensures SelectedBits(key)[j] == Fips46.Choice1(Fips46.KeyBits(key))[j]
    {
      Choice1Agrees(j);
      KeyBitsAgree(key, PC1[j]);
    }
  }

  function RotateHalves(bits: seq<bool>, rot: Rotation): (r: seq<bool>)
    requires |bits| == 56
    ensures |r| == 56
  {
    Fips46.LeftShift(bits[..28], rot) + Fips46.LeftShift(bits[28..], rot)
  }

  lemma RotationsAdd(bits: seq<bool>, a: Rotation, b: nat)
    requires |bits| == 56 && a + b <= 28
    ensures RotateHalves(RotateHalves(bits, a), b) == RotateHalves(bits, a + b)
  {
    var c, d := bits[..28], bits[28..];
    assert RotateHalves(bits, a)[..28] == Fips46.LeftShift(c, a);
    assert RotateHalves(bits, a)[28..] == Fips46.LeftShift(d, a);
  }

  /** The halves after i + 1 successive shifts are the selected bits read at the total rotation. */
  lemma {:induction false} RotationsAgree(key: Key, i: nat)
    requires i < 16
    ensures Fips46.CD(key, i + 1) == RotateHalves(SelectedBits(key), TOTROT[i])
  {
    ShiftsAgree(i);
    SelectionAgrees(key);
    var prev := Fips46.CD(key, i);
    if i == 0 {
      assert prev == RotateHalves(prev, 0);
    } else {
      RotationsAgree(key, i - 1);
      RotationsAdd(SelectedBits(key), TOTROT[i - 1], Fips46.SHIFTS[i]);
    }
  }

  lemma ChoicesAgree(key: Key, i: nat)
    requires i < 16
    ensures ChosenBits(key, i) == Fips46.Choice2(Fips46.CD(key, i + 1))
  {
    hide SelectedBits, Fips46.CD;
    RotationsAgree(key, i);
    var bits, rot := SelectedBits(key), TOTROT[i];
    assert RotatedBits(key, i) == RotateHalves(bits, rot);
    forall j | 0 <= j < 48
      ensures ChosenBits(key, i)[j] == Fips46.Choice2(Fips46.CD(key, i + 1))[j]
    {
      Choice2Agrees(j);
    }
  }

  /** A raw word after k + 1 bits. */
  lemma RawWordStep(bits: seq<bool>, k: nat)
    requires k < |bits| == 24
    ensures RawWord(bits[..k + 1]) == Marked(RawWord(bits[..k]), bits[k], BIGBYTE[k])
  {
    hide Marked;
    assert bits[..k + 1][..k] == bits[..k];
  }

  function MarkedEight(w: bv32, place: bv32, b0: bool, b1: bool, b2: bool, b3: bool, b4: bool, b5: bool, b6: bool, b7: bool): bv32
    requires place <= 16
  {
    Marked(Marked(Marked(Marked(Marked(Marked(Marked(Marked(
      w, b0, 0x80 << place), b1, 0x40 << place), b2, 0x20 << place), b3, 0x10 << place),
      b4, 0x08 << place), b5, 0x04 << place), b6, 0x02 << place), b7, 0x01 << place)
  }

  lemma BigBytesAt(k: nat, place: bv32)
    requires (k == 0 && place == 16) || (k == 8 && place == 8) || (k == 16 && place == 0)
    ensures BIGBYTE[k] == 0x80 << place && BIGBYTE[k + 1] == 0x40 << place && BIGBYTE[k + 2] == 0x20 << place
    ensures BIGBYTE[k + 3] == 0x10 << place && BIGBYTE[k + 4] == 0x08 << place && BIGBYTE[k + 5] == 0x04 << place
    ensures BIGBYTE[k + 6] == 0x02 << place && BIGBYTE[k + 7] == 0x01 << place
  {
  }

  lemma RawOctet(bits: seq<bool>, k: nat, place: bv32)
    requires |bits| == 24
    requires (k == 0 && place == 16) || (k == 8 && place == 8) || (k == 16 && place == 0)
    ensures RawWord(bits[..k + 8]) ==
            MarkedEight(RawWord(bits[..k]), place, bits[k], bits[k + 1], bits[k + 2], bits[k + 3],
                        bits[k + 4], bits[k + 5], bits[k + 6], bits[k + 7])
  {
    hide Marked, RawWord;
    BigBytesAt(k, place);
    RawWordStep(bits, k);
    RawWordStep(bits, k + 1);
    RawWordStep(bits, k + 2);
    RawWordStep(bits, k + 3);
    RawWordStep(bits, k + 4);
    RawWordStep(bits, k + 5);
    RawWordStep(bits, k + 6);
    RawWordStep(bits, k + 7);
  }

  function ThreeOctets(o0: bv48, o1: bv48, o2: bv48): bv32
    requires o0 <= 0xff && o1 <= 0xff && o2 <= 0xff
  {
    (o0 as bv32 << 16) | (o1 as bv32 << 8) | o2 as bv32
  }

  /** w with the octet o put at a place. */
  function Placed(w: bv32, o: bv48, place: bv32): bv32
    requires o <= 0xff && place <= 16
  {
    w | ((o as bv32) << place)
  }

  lemma OctetFits(b0: bool, b1: bool, b2: bool, b3: bool, b4: bool, b5: bool, b6: bool, b7: bool)
    ensures Fips46.Octet(b0, b1, b2, b3, b4, b5, b6, b7) <= 0xff
  {
  }

  lemma MarksAreOctetAt16(w: bv32, b0: bool, b1: bool, b2: bool, b3: bool, b4: bool, b5: bool, b6: bool, b7: bool)
    requires Fips46.Octet(b0, b1, b2, b3, b4, b5, b6, b7) <= 0xff
    ensures MarkedEight(w, 16, b0, b1, b2, b3, b4, b5, b6, b7) == Placed(w, Fips46.Octet(b0, b1, b2, b3, b4, b5, b6, b7), 16)
  {
  }

  lemma MarksAreOctetAt8(w: bv32, b0: bool, b1: bool, b2: bool, b3: bool, b4: bool, b5: bool, b6: bool, b7: bool)
    requires Fips46.Octet(b0, b1, b2, b3, b4, b5, b6, b7) <= 0xff
    ensures MarkedEight(w, 8, b0, b1, b2, b3, b4, b5, b6, b7) == Placed(w, Fips46.Octet(b0, b1, b2, b3, b4, b5, b6, b7), 8)
  {
  }

  lemma MarksAreOctetAt0(w: bv32, b0: bool, b1: bool, b2: bool, b3: bool, b4: bool, b5: bool, b6: bool, b7: bool)
    requires Fips46.Octet(b0, b1, b2, b3, b4, b5, b6, b7) <= 0xff
    ensures MarkedEight(w, 0, b0, b1, b2, b3, b4, b5, b6, b7) == Placed(w, Fips46.Octet(b0, b1, b2, b3, b4, b5, b6, b7), 0)
  {
  }

  /** Eight successive marks put an octet at the place of the last of them. */
  lemma MarksAreOctet(w: bv32, place: bv32, b0: bool, b1: bool, b2: bool, b3: bool, b4: bool, b5: bool, b6: bool, b7: bool)
    requires place == 0 || place == 8 || place == 16
    requires Fips46.Octet(b0, b1, b2, b3, b4, b5, b6, b7) <= 0xff
    ensures MarkedEight(w, place, b0, b1, b2, b3, b4, b5, b6, b7) ==
            Placed(w, Fips46.Octet(b0, b1, b2, b3, b4, b5, b6, b7), place)
  {
    hide *;
    if place == 16 {
      MarksAreOctetAt16(w, b0, b1, b2, b3, b4, b5, b6, b7);
    } else if place == 8 {
      MarksAreOctetAt8(w, b0, b1, b2, b3, b4, b5, b6, b7);
    } else {
      MarksAreOctetAt0(w, b0, b1, b2, b3, b4, b5, b6, b7);
    }
  }

  lemma PlacedThree(o0: bv48, o1: bv48, o2: bv48)
    requires o0 <= 0xff && o1 <= 0xff && o2 <= 0xff
    ensures Placed(Placed(Placed(0, o0, 16), o1, 8), o2, 0) == ThreeOctets(o0, o1, o2)
  {
  }

  lemma MarkedOctet(w: bv32, place: bv32, b0: bool, b1: bool, b2: bool, b3: bool, b4: bool, b5: bool, b6: bool, b7: bool)
    requires place == 0 || place == 8 || place == 16
    ensures var o := Fips46.Octet(b0, b1, b2, b3, b4, b5, b6, b7);
            o <= 0xff && MarkedEight(w, place, b0, b1, b2, b3, b4, b5, b6, b7) == Placed(w, o, place)
  {
    hide Placed, MarkedEight, Fips46.Octet;
    OctetFits(b0, b1, b2, b3, b4, b5, b6, b7);
    MarksAreOctet(w, place, b0, b1, b2, b3, b4, b5, b6, b7);
  }

  lemma RawOctetPlaced(bits: seq<bool>, k: nat, place: bv32)
    requires |bits| == 24
    requires (k == 0 && place == 16) || (k == 8 && place == 8) || (k == 16 && place == 0)
    ensures Fips46.OctetAt(bits, k) <= 0xff
    ensures RawWord(bits[..k + 8]) == Placed(RawWord(bits[..k]), Fips46.OctetAt(bits, k), place)
  {
    hide RawWord, Placed, MarkedEight, Fips46.Octet;
    RawOctet(bits, k, place);
    MarkedOctet(RawWord(bits[..k]), place, bits[k], bits[k + 1], bits[k + 2], bits[k + 3],
                bits[k + 4], bits[k + 5], bits[k + 6], bits[k + 7]);
  }

  /** The marks of 24 bits are the three octets the bits spell. */
  lemma RawWordIsOctets(bits: seq<bool>)
    requires |bits| == 24
    ensures Fips46.OctetAt(bits, 0) <= 0xff && Fips46.OctetAt(bits, 8) <= 0xff && Fips46.OctetAt(bits, 16) <= 0xff
    ensures RawWord(bits) == ThreeOctets(Fips46.OctetAt(bits, 0), Fips46.OctetAt(bits, 8), Fips46.OctetAt(bits, 16))
  {
    hide Placed, ThreeOctets, Fips46.OctetAt;
    RawOctetPlaced(bits, 0, 16);
    RawOctetPlaced(bits, 8, 8);
    RawOctetPlaced(bits, 16, 0);
    assert bits[..24] == bits;
    assert RawWord(bits[..0]) == 0;
    PlacedThree(Fips46.OctetAt(bits, 0), Fips46.OctetAt(bits, 8), Fips46.OctetAt(bits, 16));
  }

  /** Cooking the number whose octets are given cooks its two 24-bit halves. */
  lemma CookOctets(o0: bv48, o1: bv48, o2: bv48, o3: bv48, o4: bv48, o5: bv48)
    requires o0 <= 0xff && o1 <= 0xff && o2 <= 0xff && o3 <= 0xff && o4 <= 0xff && o5 <= 0xff
    ensures CookKey(Fips46.SixOctets(o0, o1, o2, o3, o4, o5)) == Cook(ThreeOctets(o0, o1, o2), ThreeOctets(o3, o4, o5))
  {
  }

  /** The cooked pair of round i is the cooked form of the standard's K_{i+1}. */
  lemma RoundPairIsRoundKey(key: Key, i: nat)
    requires i < 16
    ensures RoundPair(key, i) == CookKey(Fips46.RoundKey(key, i + 1))
  {
    hide Cook, CookKey, Fips46.Octet, ThreeOctets, Fips46.SixOctets, ChosenBits, Fips46.Choice2, Fips46.CD, RawWord;
    ChoicesAgree(key, i);
    var bits := ChosenBits(key, i);
    RawWordIsOctets(bits[..24]);
    RawWordIsOctets(bits[24..]);
    CookOctets(Fips46.OctetAt(bits, 0), Fips46.OctetAt(bits, 8), Fips46.OctetAt(bits, 16),
               Fips46.OctetAt(bits, 24), Fips46.OctetAt(bits, 32), Fips46.OctetAt(bits, 40));
  }

  function Cooked(ks: seq<bv48>): (r: seq<(bv32, bv32)>)
    ensures |r| == |ks|
  {
    seq(|ks|, i requires 0 <= i < |ks| => CookKey(ks[i]))
  }

  /** EN0 gives the standard's key schedule; DE1 gives it in the opposite order. */
  lemma ScheduleIsStandard(key: Key)
    ensures Schedule(key, EN0) == Flatten(Cooked(Fips46.RoundKeys(key)))
    ensures Schedule(key, DE1) == Flatten(Cooked(Fips46.Reverse(Fips46.RoundKeys(key))))
  {
    forall i: nat | i < 16
      ensures RoundPair(key, i) == CookKey(Fips46.RoundKeys(key)[i])
    {
      RoundPairIsRoundKey(key, i);
    }
    assert seq(16, m requires 0 <= m < 16 => RoundPair(key, m)) == Cooked(Fips46.RoundKeys(key));
    assert seq(16, m requires 0 <= m < 16 => RoundPair(key, 15 - m)) ==
           Cooked(Fips46.Reverse(Fips46.RoundKeys(key)));
  }

  // ----- the block transformation -----

  /** One half-round, with the roles of the halves exchanged for the next one. */
  function HalfRound(sp: SpTables, h: (bv32, bv32), k0: bv32, k1: bv32): (bv32, bv32) {
    (h.1, Fips46.Xor(h.0, RoundWord(sp, h.1, k0, k1)))
  }

  /** The halves after n half-rounds; half-round n uses schedule words 2 n - 2 and 2 n - 1. */
  function Rounds(sp: SpTables, h: (bv32, bv32), keys: seq<bv32>, n: nat): (bv32, bv32)
    requires 2 * n <= |keys|
  {
    if n == 0 then h else HalfRound(sp, Rounds(sp, h, keys, n - 1), keys[2 * n - 2], keys[2 * n - 1])
  }

  type Words = k: seq<bv32> | |k| == 32 witness seq(32, _ => 0)

  /** What desfunc leaves in block[0] and block[1]. */
  function Desfunc(sp: SpTables, block: (bv32, bv32), keys: Words): (bv32, bv32) {
    var ip := TableIp(block.0, block.1);
    var (l, r) := Rounds(sp, (Fips46.High(ip), Fips46.Low(ip)), keys, 16);
    var fp := TableFp(l, r);
    (Fips46.Low(fp), Fips46.High(fp))
  }

  lemma HalvesOfPair(h: (bv32, bv32))
    ensures (Fips46.High(Pair(h)), Fips46.Low(Pair(h))) == h
  {
  }

  /** desfunc in terms of the masked swaps. */
  lemma DesfuncBySwaps(sp: SpTables, block: (bv32, bv32), keys: Words)
    ensures var (l, r) := Rounds(sp, SwapIp(block.0, block.1), keys, 16);
            var (l', r') := SwapFp(l, r);
            Desfunc(sp, block, keys) == (r', l')
  {
    hide TableIp, TableFp, SwapIp, SwapFp, Fips46.High, Fips46.Low, Pair, Rounds;
    IpLookupsAreSwaps(block.0, block.1);
    HalvesOfPair(SwapIp(block.0, block.1));
    var (l, r) := Rounds(sp, SwapIp(block.0, block.1), keys, 16);
    FpLookupsAreSwaps(l, r);
    HalvesOfPair(SwapFp(l, r));
  }

  // ----- the cipher is the standard's -----

  function RolBoth(h: (bv32, bv32)): (bv32, bv32) { (Rol1(h.0), Rol1(h.1)) }

  lemma RotationOfXor(x: bv32, y: bv32)
    ensures Fips46.Xor(Rol1(x), Rol1(y)) == Rol1(Fips46.Xor(x, y))
  {
  }

  lemma HalfRoundIsRound(sp: SpTables, s: Fips46.SBoxes, h: (bv32, bv32), k: bv48)
    requires Combines(sp, s)
    ensures HalfRound(sp, RolBoth(h), CookKey(k).0, CookKey(k).1) == RolBoth(Fips46.Round(s, h, k))
  {
    hide RoundWord, Rol1, Fips46.F, CookKey, Combines, Fips46.Xor;
    RoundIsF(sp, s, h.1, k);
    RotationOfXor(h.0, Fips46.F(s, h.1, k));
  }

  /** The rounds are the standard's, on halves rotated left by one. */
  lemma {:induction false} RoundsAreFeistel(sp: SpTables, s: Fips46.SBoxes, h: (bv32, bv32), ks: seq<bv48>, n: nat)
    requires Combines(sp, s) && n <= |ks|
    ensures Rounds(sp, RolBoth(h), Flatten(Cooked(ks)), n) == RolBoth(Fips46.Feistel(s, h, ks[..n]))
  {
    hide HalfRound, Fips46.Round, RolBoth, CookKey, Combines;
    if n > 0 {
      RoundsAreFeistel(sp, s, h, ks, n - 1);
      assert ks[..n][..n - 1] == ks[..n - 1];
      HalfRoundIsRound(sp, s, Fips46.Feistel(s, h, ks[..n - 1]), ks[n - 1]);
    }
  }

  lemma DesfuncIsStandard(sp: SpTables, s: Fips46.SBoxes, block: (bv32, bv32), ks: seq<bv48>)
    requires Combines(sp, s) && |ks| == 16
    ensures Pair(Desfunc(sp, block, Flatten(Cooked(ks)))) == Fips46.Transform(s, Pair(block), ks)
  {
    hide SwapIp, SwapFp, Fips46.High, Fips46.Low, Fips46.Join, Rounds, Rol1, Fips46.IP, Fips46.FP, Desfunc, Fips46.Feistel, Combines;
    DesfuncBySwaps(sp, block, Flatten(Cooked(ks)));
    SwapsAreIp(block.0, block.1);
    var x := Fips46.IP(Pair(block));
    RoundsAreFeistel(sp, s, (Fips46.High(x), Fips46.Low(x)), ks, 16);
    assert ks[..16] == ks;
    var (fl, fr) := Fips46.Feistel(s, (Fips46.High(x), Fips46.Low(x)), ks);
    SwapsAreFp(fl, fr);
  }

  // ----- deciphering undoes enciphering, for any tables -----

  /** keys' holds the word pairs of keys in the opposite order. */
  predicate Mirrored(keys: Words, keys': Words) {
    forall i: nat :: i < 16 ==> keys'[2 * i] == keys[30 - 2 * i] && keys'[2 * i + 1] == keys[31 - 2 * i]
  }

  lemma ScheduleAt(key: Key, edf: Direction, m: nat)
    requires m < 16
    ensures var p := RoundPair(key, if edf == DE1 then 15 - m else m);
            Schedule(key, edf)[2 * m] == p.0 && Schedule(key, edf)[2 * m + 1] == p.1
  {
    hide RoundPair;
    assert (2 * m) % 2 == 0 && (2 * m) / 2 == m && (2 * m + 1) % 2 == 1 && (2 * m + 1) / 2 == m;
  }

  lemma SchedulesMirror(key: Key)
    ensures Mirrored(Schedule(key, EN0), Schedule(key, DE1))
    ensures Mirrored(Schedule(key, DE1), Schedule(key, EN0))
  {
    hide RoundPair, Schedule;
    forall i: nat | i < 16
      ensures Schedule(key, DE1)[2 * i] == Schedule(key, EN0)[30 - 2 * i]
      ensures Schedule(key, DE1)[2 * i + 1] == Schedule(key, EN0)[31 - 2 * i]
      ensures Schedule(key, EN0)[2 * i] == Schedule(key, DE1)[30 - 2 * i]
      ensures Schedule(key, EN0)[2 * i + 1] == Schedule(key, DE1)[31 - 2 * i]
    {
      ScheduleAt(key, DE1, i);
      ScheduleAt(key, EN0, 15 - i);
      ScheduleAt(key, EN0, i);
      ScheduleAt(key, DE1, 15 - i);
    }
  }

  function Exchanged(h: (bv32, bv32)): (bv32, bv32) { (h.1, h.0) }

  lemma HalfRoundUndone(sp: SpTables, h: (bv32, bv32), k0: bv32, k1: bv32)
    ensures HalfRound(sp, Exchanged(HalfRound(sp, h, k0, k1)), k0, k1) == Exchanged(h)
  {
    hide RoundWord, Fips46.Xor;
    XorTwice(h.0, RoundWord(sp, h.1, k0, k1));
  }

  lemma XorTwice(x: bv32, y: bv32)
    ensures Fips46.Xor(Fips46.Xor(x, y), y) == x
  {
  }

  /** Running the mirrored keys from the exchanged final halves retraces the rounds. */
  lemma {:induction false} RoundsRetrace(sp: SpTables, h: (bv32, bv32), keys: Words, keys': Words, m: nat)
    requires Mirrored(keys, keys') && m <= 16
    ensures Rounds(sp, Exchanged(Rounds(sp, h, keys, 16)), keys', m) == Exchanged(Rounds(sp, h, keys, 16 - m))
  {
    hide HalfRound;
    if m > 0 {
      RoundsRetrace(sp, h, keys, keys', m - 1);
      assert keys'[2 * (m - 1)] == keys[30 - 2 * (m - 1)] && keys'[2 * (m - 1) + 1] == keys[31 - 2 * (m - 1)];
      HalfRoundUndone(sp, Rounds(sp, h, keys, 16 - m), keys[32 - 2 * m], keys[33 - 2 * m]);
    }
  }

  lemma JoinIsInjective(l: bv32, r: bv32, x: bv64)
    ensures Fips46.High(Fips46.Join(l, r)) == l && Fips46.Low(Fips46.Join(l, r)) == r
    ensures Fips46.Join(Fips46.High(x), Fips46.Low(x)) == x
  {
  }

  lemma RotationInverse(x: bv32)
    ensures Rol1(Ror1(x)) == x
  {
  }

  /** The swaps undo each other once the two words are exchanged, because the standard's permutations do. */
  lemma IpUndoesFp(l: bv32, r: bv32)
    ensures var (a, b) := SwapFp(l, r); SwapIp(b, a) == (r, l)
  {
    hide SwapIp, SwapFp, Rol1, Ror1, Fips46.IP, Fips46.FP, Fips46.Join, Fips46.High, Fips46.Low;
    var x, y := Ror1(l), Ror1(r);
    RotationInverse(l);
    RotationInverse(r);
    SwapsAreFp(x, y);
    var (a, b) := SwapFp(l, r);
    SwapsAreIp(b, a);
    Fips46.PermutationsInvert(Fips46.Join(y, x));
    JoinIsInjective(y, x, 0);
  }

  lemma FpUndoesIp(l: bv32, r: bv32)
    ensures var (a, b) := SwapIp(l, r); SwapFp(b, a) == (r, l)
  {
    hide SwapIp, SwapFp, Rol1, Fips46.IP, Fips46.FP, Fips46.Join, Fips46.High, Fips46.Low;
    var x := Fips46.IP(Fips46.Join(l, r));
    SwapsAreIp(l, r);
    SwapsAreFp(Fips46.Low(x), Fips46.High(x));
    Fips46.PermutationsInvert(Fips46.Join(l, r));
    JoinIsInjective(l, r, x);
    var (l', r') := SwapFp(Rol1(Fips46.Low(x)), Rol1(Fips46.High(x)));
    JoinIsInjective(r', l', 0);
  }

  /** The block transformation with mirrored keys is its own inverse, whatever the tables hold. */
  lemma DesfuncUndone(sp: SpTables, block: (bv32, bv32), keys: Words, keys': Words)
    requires Mirrored(keys, keys')
    ensures Desfunc(sp, Desfunc(sp, block, keys), keys') == block
  {
    hide SwapIp, SwapFp, HalfRound, Desfunc;
    DesfuncBySwaps(sp, block, keys);
    FpUndoesIp(block.0, block.1);
    var h := SwapIp(block.0, block.1);
    var (l, r) := Rounds(sp, h, keys, 16);
    IpUndoesFp(l, r);
    DesfuncBySwaps(sp, Desfunc(sp, block, keys), keys');
    RoundsRetrace(sp, h, keys, keys', 16);
  }
}
