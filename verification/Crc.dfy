/** The four CRC routines of des.cpp against bit-by-bit polynomial division, as Annex B of
    ISO/IEC 14443-3 describes it: the byte-wise, the table-driven and the most-significant-bit-first
    routine all compute the same remainder (the last one on reversed bits).  From the division follow
    the residues a receiver checks for and the detection of every error burst of up to 16 bits. */
module Crc {

  // ----- division, one bit at a time, least significant bit first -----

  function BitStep(s: bv16, bit: bool): bv16 {
    if (s & 1 == 1) != bit then (s >> 1) ^ 0x8408 else s >> 1
  }

  function Division(s: bv16, bits: seq<bool>): bv16
    decreases |bits|
  {
    if |bits| == 0 then s else Division(BitStep(s, bits[0]), bits[1..])
  }

  /** The n low bits of c, least significant first. */
  function LowBits(c: bv16, n: nat): (bits: seq<bool>)
    ensures |bits| == n
  {
    if n == 0 then [] else [c & 1 == 1] + LowBits(c >> 1, n - 1)
  }

  function ByteBits(b: bv8): (bits: seq<bool>)
    ensures |bits| == 8
  {
    LowBits(b as bv16, 8)
  }

  function MessageBits(data: seq<bv8>): (bits: seq<bool>)
    ensures |bits| == 8 * |data|
  {
    if |data| == 0 then [] else MessageBits(data[..|data| - 1]) + ByteBits(data[|data| - 1])
  }

  lemma {:induction false} DivisionOfConcat(s: bv16, a: seq<bool>, b: seq<bool>)
    ensures Division(s, a + b) == Division(Division(s, a), b)
    decreases |a|
  {
    hide BitStep;
    if |a| == 0 {
      assert a + b == b;
    } else {
      assert (a + b)[1..] == a[1..] + b;
      DivisionOfConcat(BitStep(s, a[0]), a[1..], b);
    }
  }

  lemma DivisionOfLowBits(s: bv16, c: bv16, n: nat)
    ensures Division(s, LowBits(c, n)) ==
            if n == 0 then s else Division(BitStep(s, c & 1 == 1), LowBits(c >> 1, n - 1))
  {
    hide BitStep;
    if n > 0 {
      assert LowBits(c, n)[1..] == LowBits(c >> 1, n - 1);
    }
  }

  /** Four steps written out. */
  function FourSteps(s: bv16, c: bv16): bv16 {
    BitStep(BitStep(BitStep(BitStep(s, c & 1 == 1), (c >> 1) & 1 == 1), (c >> 2) & 1 == 1), (c >> 3) & 1 == 1)
  }

  /** Eight steps, four by four. */
  function EightSteps(s: bv16, c: bv16): bv16 { FourSteps(FourSteps(s, c), c >> 4) }

  lemma ShiftsAdd(c: bv16)
    ensures c >> 1 >> 1 == c >> 2 && c >> 2 >> 1 == c >> 3 && c >> 3 >> 1 == c >> 4
    ensures c >> 4 >> 1 == c >> 5 && c >> 5 >> 1 == c >> 6 && c >> 6 >> 1 == c >> 7
    ensures c >> 4 >> 2 == c >> 6 && c >> 4 >> 3 == c >> 7
  {
  }

  lemma DivisionOfByte(s: bv16, b: bv8)
    ensures Division(s, ByteBits(b)) == EightSteps(s, b as bv16)
  {
    hide BitStep, LowBits, Division;
    var c := b as bv16;
    ShiftsAdd(c);
    var s1 := BitStep(s, c & 1 == 1);
    var s2 := BitStep(s1, (c >> 1) & 1 == 1);
    var s3 := BitStep(s2, (c >> 2) & 1 == 1);
    var s4 := BitStep(s3, (c >> 3) & 1 == 1);
    var s5 := BitStep(s4, (c >> 4) & 1 == 1);
    var s6 := BitStep(s5, (c >> 5) & 1 == 1);
    var s7 := BitStep(s6, (c >> 6) & 1 == 1);
    DivisionOfLowBits(s, c, 8);
    DivisionOfLowBits(s1, c >> 1, 7);
    DivisionOfLowBits(s2, c >> 2, 6);
    DivisionOfLowBits(s3, c >> 3, 5);
    DivisionOfLowBits(s4, c >> 4, 4);
    DivisionOfLowBits(s5, c >> 5, 3);
    DivisionOfLowBits(s6, c >> 6, 2);
    DivisionOfLowBits(s7, c >> 7, 1);
    DivisionOfLowBits(BitStep(s7, (c >> 7) & 1 == 1), c >> 7 >> 1, 0);
  }

  // ----- the byte-wise update -----

  /** What one combined byte contributes: it is folded onto itself and spread by three shifts. */
  function Combined(tmp: bv8): bv16 {
    var ch := tmp ^ (tmp << 4);
    (ch as bv16 << 8) ^ (ch as bv16 << 3) ^ (ch as bv16 >> 4)
  }

  /** The state shifted down a byte, with a word added in. */
  function Fold(crc: bv16, word: bv16): bv16 { (crc >> 8) ^ word }

  /** UpdateCrc: the byte is combined with the low state byte and spread over the shifted state. */
  function UpdateCrc(ch: bv8, crc: bv16): bv16 {
    Fold(crc, Combined(ch ^ ((crc & 0x00ff) as bv8)))
  }

  lemma CombinedIsDivision(tmp: bv8)
    ensures Combined(tmp) == EightSteps(0, tmp as bv16)
  {
  }

  /** The exclusive-or of the low four bits, and the state shifted down by four with a word added in. */
  function LowFour(s: bv16, c: bv16): bv16 { (s ^ c) & 0x0f }

  function FoldFour(s: bv16, word: bv16): bv16 { (s >> 4) ^ word }

  function DownFour(c: bv16): bv16 { c >> 4 }

  lemma FourStepsSplit(s: bv16, c: bv16)
    ensures FourSteps(s, c) == FoldFour(s, FourSteps(0, LowFour(s, c)))
  {
  }

  lemma FoursMatch(tmp: bv8, c: bv8, crc: bv16, w: bv16)
    requires tmp == c ^ ((crc & 0x00ff) as bv8)
    ensures LowFour(0, tmp as bv16) == LowFour(crc, c as bv16)
    ensures LowFour(FoldFour(0, w), DownFour(tmp as bv16)) == LowFour(FoldFour(crc, w), DownFour(c as bv16))
  {
  }

  lemma FoldsMatch(crc: bv16, w: bv16, v: bv16)
    ensures Fold(crc, FoldFour(FoldFour(0, w), v)) == FoldFour(FoldFour(crc, w), v)
  {
  }

  lemma EightByDownFour(s: bv16, c: bv16)
    ensures EightSteps(s, c) == FourSteps(FourSteps(s, c), DownFour(c))
  {
    hide FourSteps;
  }

  /** The division of a byte depends on the low state byte only through its exclusive-or with it. */
  lemma DivisionSplits(tmp: bv8, c: bv8, crc: bv16)
    requires tmp == c ^ ((crc & 0x00ff) as bv8)
    ensures Fold(crc, EightSteps(0, tmp as bv16)) == EightSteps(crc, c as bv16)
  {
    hide EightSteps, FourSteps, LowFour, FoldFour, DownFour, Fold;
    EightByDownFour(0, tmp as bv16);
    EightByDownFour(crc, c as bv16);
    var w := FourSteps(0, LowFour(crc, c as bv16));
    FoursMatch(tmp, c, crc, w);
    FourStepsSplit(0, tmp as bv16);
    FourStepsSplit(crc, c as bv16);
    var v := FourSteps(0, LowFour(FoldFour(crc, w), DownFour(c as bv16)));
    FourStepsSplit(FoldFour(0, w), DownFour(tmp as bv16));
    FourStepsSplit(FoldFour(crc, w), DownFour(c as bv16));
    FoldsMatch(crc, w, v);
  }

  /** The byte-wise update divides by the eight bits of the byte. */
  lemma UpdateIsDivision(ch: bv8, crc: bv16)
    ensures UpdateCrc(ch, crc) == Division(crc, ByteBits(ch))
  {
    hide Combined, EightSteps, Division, ByteBits, Fold;
    var tmp := ch ^ ((crc & 0x00ff) as bv8);
    CombinedIsDivision(tmp);
    DivisionSplits(tmp, ch, crc);
    DivisionOfByte(crc, ch);
  }

  lemma XorAssociates(a: bv16, b: bv16, c: bv16, d: bv16)
    ensures a ^ b ^ c ^ d == a ^ (b ^ c ^ d)
  {
  }

  /** The statements of UpdateCrc, which update the byte and then the state. */
  method UpdateCrcSteps(ch0: bv8, crc: bv16) returns (crc': bv16)
    ensures crc' == UpdateCrc(ch0, crc)
  {
    hide Combined, Spread;
    var ch := ch0 ^ ((crc & 0x00ff) as bv8);
    SpreadIsFold(crc, ch);
    ch := ch ^ (ch << 4);
    crc' := Spread(crc, ch);
  }

  /** The last statement: the state shifted down, and the combined byte under three shifts. */
  function Spread(crc: bv16, ch: bv8): bv16 {
    (crc >> 8) ^ (ch as bv16 << 8) ^ (ch as bv16 << 3) ^ (ch as bv16 >> 4)
  }

  lemma SpreadIsFold(crc: bv16, tmp: bv8)
    ensures Spread(crc, tmp ^ (tmp << 4)) == Fold(crc, Combined(tmp))
  {
    var ch := tmp ^ (tmp << 4);
    XorAssociates(crc >> 8, ch as bv16 << 8, ch as bv16 << 3, ch as bv16 >> 4);
  }

  // ----- whole messages -----

  /** The state after a message. */
  function CrcOf(s: bv16, data: seq<bv8>): bv16 {
    Division(s, MessageBits(data))
  }

  lemma CrcOfSnoc(s: bv16, data: seq<bv8>, b: bv8)
    ensures CrcOf(s, data + [b]) == Division(CrcOf(s, data), ByteBits(b))
  {
    hide Division, ByteBits;
    assert (data + [b])[..|data|] == data;
    DivisionOfConcat(s, MessageBits(data), ByteBits(b));
  }

  lemma CrcOfPrefix(s: bv16, data: seq<bv8>, i: nat)
    requires i < |data|
    ensures CrcOf(s, data[..i + 1]) == Division(CrcOf(s, data[..i]), ByteBits(data[i]))
  {
    CrcOfSnoc(s, data[..i], data[i]);
    assert data[..i + 1] == data[..i] + [data[i]];
  }

  datatype CrcType = CRC_A | CRC_B | Other

  /** The two bytes sent after a message, or nothing written. */
  datatype Transmit = Untouched | Bytes(first: bv8, second: bv8)

  function First(crc: bv16): bv8 { (crc & 0xff) as bv8 }

  function Second(crc: bv16): bv8 { ((crc >> 8) & 0xff) as bv8 }

  function Split(crc: bv16): Transmit { Bytes(First(crc), Second(crc)) }

  function Inverted(crc: bv16): bv16 { !crc }

  function Initial(kind: CrcType): bv16 {
    if kind == CRC_A then 0x6363 else 0xffff
  }

  /** ComputeCrc; the source reads the first byte before it looks at the length. */
  method ComputeCrc(kind: CrcType, data: seq<bv8>) returns (t: Transmit)
    requires kind != Other ==> |data| > 0
    ensures kind == CRC_A ==> t == Split(CrcOf(0x6363, data))
    ensures kind == CRC_B ==> t == Split(Inverted(CrcOf(0xffff, data)))
    ensures kind == Other ==> t == Untouched
  {
    hide Division, UpdateCrc, ByteBits, Split, Inverted;
    if kind == Other {
      return Untouched;
    }
    var crc := Initial(kind);
    var i := 0;
    assert data[..0] == [];
    assert CrcOf(crc, data[..0]) == crc by { EmptyMessage(crc); }
    while i < |data|
      invariant 0 <= i <= |data|
      invariant crc == CrcOf(Initial(kind), data[..i])
    {
      UpdateIsDivision(data[i], crc);
      CrcOfPrefix(Initial(kind), data, i);
      crc := UpdateCrcSteps(data[i], crc);
      i := i + 1;
    }
    assert data[..i] == data;
    if kind == CRC_B {
      crc := Inverted(crc);
    }
    t := Split(crc);
  }

  lemma EmptyMessage(s: bv16)
    ensures CrcOf(s, []) == s
  {
  }

  // ----- the table-driven update -----

  /** The lazily filled table of init_crckermit_tab. */
  class KermitTable {
    var init: bool
    const tab: array<bv16>

    ghost predicate Valid()
      reads this, tab
    {
      tab.Length == 256 && (init ==> forall b: bv8 :: tab[b as int] == Division(0, ByteBits(b)))
    }

    constructor ()
      ensures Valid() && !init && fresh(tab)
    {
      init := false;
      tab := new bv16[256];
    }

    /** Fills the table: entry i is the remainder of the single byte i. */
    method InitTable()
      requires Valid()
      modifies this, tab
      ensures Valid() && init
    {
      hide Division, LowBits, BitStep;
      for i := 0 to 256
        invariant forall t :: 0 <= t < i ==> tab[t] == Division(0, ByteBits(t as bv8))
      {
        var crc: bv16, c: bv16 := 0, i as bv8 as bv16;
        for j := 0 to 8
          invariant forall t :: 0 <= t < i ==> tab[t] == Division(0, ByteBits(t as bv8))
          invariant Division(crc, LowBits(c, 8 - j)) == Division(0, ByteBits(i as bv8))
        {
          DivisionOfLowBits(crc, c, 8 - j);
          BitStepByXor(crc, c);
          if (crc ^ c) & 0x0001 != 0 {
            crc := (crc >> 1) ^ 0x8408;
          } else {
            crc := crc >> 1;
          }
          c := c >> 1;
        }
        DivisionOfLowBits(crc, c, 0);
        tab[i] := crc;
      }
      forall b: bv8
        ensures tab[b as int] == Division(0, ByteBits(b))
      {
        ByteOfInt(b);
      }
      init := true;
    }

    /** UpdateCRCKermit, which fills the table on first use. */
    method Update(crc: bv16, ch: bv8) returns (crc': bv16)
      requires Valid()
      modifies this, tab
      ensures Valid() && init
      ensures crc' == Division(crc, ByteBits(ch))
    {
      hide Division, ByteBits, Fold, TableIndex;
      if !init {
        InitTable();
      }
      var index := TableIndex(crc, ch);
      TableStep(crc, ch);
      crc' := Fold(crc, tab[index as int]);
    }

    /** ComputeCrcKermit. */
    method ComputeCrcKermit(data: seq<bv8>) returns (t: Transmit)
      requires Valid() && |data| > 0
      modifies this, tab
      ensures Valid()
      ensures t == Split(CrcOf(0, data))
    {
      hide Division, ByteBits, Split;
      var crc: bv16, i := 0, 0;
      assert data[..0] == [];
      EmptyMessage(0);
      while i < |data|
        invariant Valid() && 0 <= i <= |data|
        invariant crc == CrcOf(0, data[..i])
      {
        CrcOfPrefix(0, data, i);
        crc := Update(crc, data[i]);
        i := i + 1;
      }
      assert data[..i] == data;
      t := Split(crc);
    }
  }

  function TableIndex(crc: bv16, ch: bv8): bv8 { ((crc ^ ch as bv16) & 0xff) as bv8 }

  /** One lookup and one shift divide by a byte. */
  lemma TableStep(crc: bv16, ch: bv8)
    ensures Fold(crc, Division(0, ByteBits(TableIndex(crc, ch)))) == Division(crc, ByteBits(ch))
  {
    hide Division, ByteBits, EightSteps, Fold, TableIndex;
    var index := TableIndex(crc, ch);
    LowByteOfXor(crc, ch);
    DivisionSplits(index, ch, crc);
    DivisionOfByte(0, index);
    DivisionOfByte(crc, ch);
  }

  lemma ByteOfInt(b: bv8)
    ensures (b as int) as bv8 == b
  {
  }

  lemma BitStepByXor(crc: bv16, c: bv16)
    ensures BitStep(crc, c & 1 == 1) == if (crc ^ c) & 0x0001 != 0 then (crc >> 1) ^ 0x8408 else crc >> 1
  {
  }

  lemma LowByteOfXor(crc: bv16, ch: bv8)
    ensures TableIndex(crc, ch) == ch ^ ((crc & 0x00ff) as bv8)
  {
  }

  // ----- most significant bit first -----

  /** One step of ComputeCrcCCITT's inner loop. */
  function CcittStep(crc: bv16, data: bv8): bv16 {
    if CcittFlag(crc, data) then (crc << 1) ^ 0x1021 else crc << 1
  }

  /** The state after n more steps on a data byte that shifts left. */
  function CcittSteps(crc: bv16, data: bv8, n: nat): bv16
    decreases n
  {
    if n == 0 then crc else CcittSteps(CcittStep(crc, data), data << 1, n - 1)
  }

  function CcittOf(crc: bv16, data: seq<bv8>): bv16 {
    if |data| == 0 then crc else CcittSteps(CcittOf(crc, data[..|data| - 1]), data[|data| - 1], 8)
  }

  function Reverse8(b: bv8): bv8 {
    ((b & 1) << 7) | ((b & 2) << 5) | ((b & 4) << 3) | ((b & 8) << 1) |
    ((b >> 1) & 8) | ((b >> 3) & 4) | ((b >> 5) & 2) | ((b >> 7) & 1)
  }

  function Reverse16(s: bv16): bv16 {
    (Reverse8((s & 0xff) as bv8) as bv16 << 8) | Reverse8(((s >> 8) & 0xff) as bv8) as bv16
  }

  function ReversedBytes(data: seq<bv8>): (r: seq<bv8>)
    ensures |r| == |data|
  {
    seq(|data|, i requires 0 <= i < |data| => Reverse8(data[i]))
  }

  predicate CcittFlag(crc: bv16, data: bv8) {
    (((crc >> 8) & 0x80) as bv8) ^ (data & 0x80) != 0
  }

  lemma ReversedFlag(crc: bv16, data: bv8)
    ensures CcittFlag(crc, data) <==> (Reverse16(crc) & 1 == 1) != (Reverse8(data) as bv16 & 1 == 1)
  {
  }

  function Xor16(x: bv16, y: bv16): bv16 { x ^ y }

  lemma XorMoves(a: bv16, b: bv16, c: bv16)
    requires Xor16(a, b) == c
    ensures a == Xor16(b, c)
  {
  }

  lemma XorWithZero(x: bv16)
    ensures Xor16(x, 0) == x && Xor16(x, x) == 0
  {
  }

  function Up(x: bv16): bv16 { x << 1 }

  function Down(x: bv16): bv16 { x >> 1 }

  lemma ReversedShiftDifference(crc: bv16)
    ensures Xor16(Reverse16(Up(crc)), Down(Reverse16(crc))) == 0
  {
  }

  lemma ReversedPolynomialDifference(crc: bv16)
    ensures Xor16(Reverse16(Xor16(crc, 0x1021)), Reverse16(crc)) == 0x8408
  {
  }

  lemma ReversedStateShift(crc: bv16)
    ensures Reverse16(Up(crc)) == Down(Reverse16(crc))
  {
    hide Reverse16, Xor16, Up, Down;
    ReversedShiftDifference(crc);
    XorMoves(Reverse16(Up(crc)), Down(Reverse16(crc)), 0);
    XorWithZero(Down(Reverse16(crc)));
  }

  /** The two forms of the polynomial are each other's reversal. */
  lemma ReversedPolynomial(crc: bv16)
    ensures Reverse16(Xor16(crc, 0x1021)) == Xor16(Reverse16(crc), 0x8408)
  {
    hide Reverse16, Xor16;
    ReversedPolynomialDifference(crc);
    XorMoves(Reverse16(Xor16(crc, 0x1021)), Reverse16(crc), 0x8408);
  }

  lemma ReversedStep(crc: bv16, data: bv8)
    ensures Reverse16(CcittStep(crc, data)) == BitStep(Reverse16(crc), Reverse8(data) as bv16 & 1 == 1)
  {
    hide Reverse8, Reverse16, CcittFlag;
    ReversedFlag(crc, data);
    ReversedStateShift(crc);
    ReversedPolynomial(Up(crc));
  }

  lemma ReversedShift(data: bv8)
    ensures Reverse8(data << 1) as bv16 == (Reverse8(data) as bv16) >> 1
  {
  }

  lemma {:induction false} ReversedSteps(crc: bv16, data: bv8, n: nat)
    ensures Reverse16(CcittSteps(crc, data, n)) == Division(Reverse16(crc), LowBits(Reverse8(data) as bv16, n))
    decreases n
  {
    hide Reverse8, Reverse16, BitStep, CcittStep, LowBits, Division;
    DivisionOfLowBits(Reverse16(crc), Reverse8(data) as bv16, n);
    if n > 0 {
      ReversedStep(crc, data);
      ReversedShift(data);
      ReversedSteps(CcittStep(crc, data), data << 1, n - 1);
    }
  }

  /** The CCITT routine is the same division under reversal of every byte and of the state. */
  lemma {:induction false} CcittIsReversedDivision(crc: bv16, data: seq<bv8>)
    ensures Reverse16(CcittOf(crc, data)) == CrcOf(Reverse16(crc), ReversedBytes(data))
  {
    hide Reverse8, Reverse16, LowBits, Division, CcittSteps;
    var n := |data| - 1;
    if n < 0 {
      EmptyMessage(Reverse16(crc));
    } else {
      CcittIsReversedDivision(crc, data[..n]);
      ReversedSteps(CcittOf(crc, data[..n]), data[n], 8);
      CrcOfSnoc(Reverse16(crc), ReversedBytes(data[..n]), Reverse8(data[n]));
      assert ReversedBytes(data) == ReversedBytes(data[..n]) + [Reverse8(data[n])];
    }
  }

  lemma ReversalIsInvolution(s: bv16)
    ensures Reverse16(Reverse16(s)) == s
  {
  }

  method ComputeCrcCcitt(crc0: bv16, data: seq<bv8>) returns (t: Transmit)
    ensures t == Split(Reverse16(CrcOf(Reverse16(crc0), ReversedBytes(data))))
  {
    hide Reverse8, Reverse16, CcittSteps, Split, CrcOf, ReversedBytes;
    var crc := crc0;
    for i := 0 to |data|
      invariant crc == CcittOf(crc0, data[..i])
    {
      var datac := data[i];
      for bits := 0 to 8
        invariant CcittSteps(crc, datac, 8 - bits) == CcittSteps(CcittOf(crc0, data[..i]), data[i], 8)
      {
        CcittUnfold(crc, datac, 8 - bits);
        var flagXor := (((crc >> 8) & 0x80) as bv8) ^ (datac & 0x80);
        datac := datac << 1;
        crc := crc << 1;
        if flagXor != 0 {
          crc := crc ^ 0x1021;
        }
      }
      CcittUnfold(crc, datac, 0);
      assert data[..i + 1][..i] == data[..i];
    }
    assert data[..|data|] == data;
    CcittIsReversedDivision(crc0, data);
    ReversalIsInvolution(CcittOf(crc0, data));
    t := Split(crc);
  }

  lemma CcittUnfold(crc: bv16, data: bv8, n: nat)
    ensures CcittSteps(crc, data, n) == if n == 0 then crc else CcittSteps(CcittStep(crc, data), data << 1, n - 1)
  {
  }

  // ----- residues -----

  lemma ResidueSteps(crc: bv16)
    ensures EightSteps(EightSteps(crc, First(crc) as bv16), Second(crc) as bv16) == 0
  {
  }

  lemma InvertedResidueSteps(crc: bv16)
    ensures EightSteps(EightSteps(crc, First(Inverted(crc)) as bv16), Second(Inverted(crc)) as bv16) == 0xf0b8
  {
  }

  lemma TwoBytes(s: bv16, data: seq<bv8>, b0: bv8, b1: bv8)
    ensures CrcOf(s, data + [b0, b1]) == EightSteps(EightSteps(CrcOf(s, data), b0 as bv16), b1 as bv16)
  {
    hide EightSteps, Division, ByteBits;
    assert data + [b0, b1] == (data + [b0]) + [b1];
    CrcOfSnoc(s, data, b0);
    CrcOfSnoc(s, data + [b0], b1);
    DivisionOfByte(CrcOf(s, data), b0);
    DivisionOfByte(CrcOf(s, data + [b0]), b1);
  }

  /** A message followed by its own check bytes leaves 0, from any initial state; followed by the
      complemented check bytes, as CRC_B sends them, it leaves 0xF0B8. */
  lemma Residues(s: bv16, data: seq<bv8>)
    ensures var crc := CrcOf(s, data); CrcOf(s, data + [First(crc), Second(crc)]) == 0
    ensures var crc := Inverted(CrcOf(s, data)); CrcOf(s, data + [First(crc), Second(crc)]) == 0xf0b8
  {
    hide EightSteps, CrcOf, First, Second, Inverted;
    var crc := CrcOf(s, data);
    ResidueSteps(crc);
    InvertedResidueSteps(crc);
    TwoBytes(s, data, First(crc), Second(crc));
    TwoBytes(s, data, First(Inverted(crc)), Second(Inverted(crc)));
  }

  /** What a receiver of CRC_A sees: the checksum of message and check bytes together is zero. */
  method CheckReceivedA(data: seq<bv8>) returns (t: Transmit)
    requires |data| > 0
    ensures t == Bytes(0, 0)
  {
    hide CrcOf, First, Second;
    var sent := ComputeCrc(CRC_A, data);
    Residues(0x6363, data);
    t := ComputeCrc(CRC_A, data + [sent.first, sent.second]);
    SplitZero();
  }

  lemma SplitZero()
    ensures Split(0) == Bytes(0, 0)
  {
  }

  lemma CrcOfOne(s: bv16, data: seq<bv8>, b: bv8)
    ensures CrcOf(s, data + [b]) == UpdateCrc(b, CrcOf(s, data)) && CrcOf(s, []) == s
  {
    hide Division, ByteBits, UpdateCrc;
    EmptyMessage(s);
    CrcOfSnoc(s, data, b);
    UpdateIsDivision(b, CrcOf(s, data));
  }

  /** The examples of Annex B of ISO/IEC 14443-3: CRC_A over 00 00 and 12 34, CRC_B over 00 00 00 and 0F AA FF. */
  lemma AnnexBExamples()
    ensures Split(CrcOf(0x6363, [0x00, 0x00])) == Bytes(0xA0, 0x1E)
    ensures Split(CrcOf(0x6363, [0x12, 0x34])) == Bytes(0x26, 0xCF)
    ensures Split(Inverted(CrcOf(0xffff, [0x00, 0x00, 0x00]))) == Bytes(0xCC, 0xC6)
    ensures Split(Inverted(CrcOf(0xffff, [0x0F, 0xAA, 0xFF]))) == Bytes(0xFC, 0xD1)
  {
    hide CrcOf;
    TwoUpdates(0x6363, 0x00, 0x00, 0x00);
    TwoUpdates(0x6363, 0x12, 0x34, 0x00);
    TwoUpdates(0xffff, 0x00, 0x00, 0x00);
    TwoUpdates(0xffff, 0x0F, 0xAA, 0xFF);
  }

  lemma TwoUpdates(s: bv16, a: bv8, b: bv8, c: bv8)
    ensures CrcOf(s, [a, b]) == UpdateCrc(b, UpdateCrc(a, s))
    ensures CrcOf(s, [a, b, c]) == UpdateCrc(c, UpdateCrc(b, UpdateCrc(a, s)))
  {
    hide CrcOf, UpdateCrc;
    assert [] + [a] == [a] && [a] + [b] == [a, b] && [a, b] + [c] == [a, b, c];
    CrcOfOne(s, [], a);
    CrcOfOne(s, [a], b);
    CrcOfOne(s, [a, b], c);
  }

  // ----- burst errors -----

  function Push(q: bv16, bit: bool): bv16 { (q << 1) | (if bit then 1 else 0) }

  predicate TopClear(q: bv16) { q & 0x8000 == 0 }

  /** The places where two bit strings differ, as a number with the first bit least significant. */
  function Differences(a: seq<bool>, b: seq<bool>): bv16
    requires |a| == |b|
    decreases |a|
  {
    if |a| == 0 then 0 else Push(Differences(a[1..], b[1..]), a[0] != b[0])
  }

  const MASKS: seq<bv16> := [
    0x0, 0x1, 0x3, 0x7, 0xf, 0x1f, 0x3f, 0x7f, 0xff, 0x1ff, 0x3ff, 0x7ff, 0xfff, 0x1fff, 0x3fff, 0x7fff, 0xffff]

  lemma MaskStep(n: nat)
    requires n < 16
    ensures TopClear(MASKS[n]) && MASKS[n + 1] == Push(MASKS[n], true)
  {
    assert n / 8 in {0, 1} && n % 8 in {0, 1, 2, 3, 4, 5, 6, 7};
  }

  predicate Within(q: bv16, mask: bv16) { q & mask == q }

  lemma WithinStep(q: bv16, bit: bool, mask: bv16)
    requires Within(q, mask)
    ensures Within(Push(q, bit), Push(mask, true))
    ensures TopClear(mask) ==> TopClear(q)
  {
  }

  lemma WithinZero()
    ensures Within(0, MASKS[0])
  {
  }

  lemma {:induction false} DifferencesFit(a: seq<bool>, b: seq<bool>)
    requires |a| == |b| <= 16
    ensures Within(Differences(a, b), MASKS[|a|])
    ensures |a| < 16 ==> TopClear(Differences(a, b))
    decreases |a|
  {
    hide Within, Push, TopClear;
    if |a| == 0 {
      WithinZero();
    } else {
      DifferencesFit(a[1..], b[1..]);
      MaskStep(|a| - 1);
      WithinStep(Differences(a[1..], b[1..]), a[0] != b[0], MASKS[|a| - 1]);
    }
    if |a| < 16 {
      MaskStep(|a|);
      WithinStep(Differences(a, b), false, MASKS[|a|]);
    }
  }

  lemma StepBackBits(s: bv16, s': bv16, x: bool, y: bool)
    requires TopClear(Xor16(BitStep(s, x), BitStep(s', y)))
    ensures ((s & 1 == 1) != x) == ((s' & 1 == 1) != y)
  {
  }

  lemma EqualWhenXorIsZero(a: bv16, b: bv16)
    requires Xor16(a, b) == 0
    ensures a == b
  {
  }

  lemma StepBackSame(s: bv16, s': bv16, bit: bool)
    requires bit == ((s & 1 == 1) != (s' & 1 == 1))
    ensures Xor16(s, s') == Push(Xor16(Down(s), Down(s')), bit)
  {
    hide Xor16, Push, Down;
    XorOfDown(s, s');
    EqualWhenXorIsZero(Xor16(Down(s), Down(s')), Down(Xor16(s, s')));
    LowBitOfXor(s, s');
    PushOfDown(Xor16(s, s'));
  }

  lemma XorOfDown(s: bv16, s': bv16)
    ensures Xor16(Xor16(Down(s), Down(s')), Down(Xor16(s, s'))) == 0
  {
  }

  lemma LowBitOfXor(s: bv16, s': bv16)
    ensures (Xor16(s, s') & 1 == 1) == ((s & 1 == 1) != (s' & 1 == 1))
  {
  }

  lemma PushOfDown(d: bv16)
    ensures Push(Down(d), d & 1 == 1) == d
  {
  }

  lemma StepDifference(s: bv16, s': bv16, x: bool, y: bool)
    requires ((s & 1 == 1) != x) == ((s' & 1 == 1) != y)
    ensures Xor16(Xor16(BitStep(s, x), BitStep(s', y)), Xor16(Down(s), Down(s'))) == 0
  {
  }

  /** A step can be undone: from the difference after it, the difference before it. */
  lemma StepBack(s: bv16, s': bv16, x: bool, y: bool)
    requires TopClear(Xor16(BitStep(s, x), BitStep(s', y)))
    ensures Xor16(s, s') == Push(Xor16(BitStep(s, x), BitStep(s', y)), x != y)
  {
    hide BitStep, Push, Xor16, TopClear, Down;
    StepBackBits(s, s', x, y);
    StepDifference(s, s', x, y);
    EqualWhenXorIsZero(Xor16(BitStep(s, x), BitStep(s', y)), Xor16(Down(s), Down(s')));
    StepBackSame(s, s', x != y);
  }

  /** Up to 16 bits that bring two states together spell the exclusive-or of the states. */
  lemma {:induction false} StatesThatMeet(s: bv16, s': bv16, a: seq<bool>, b: seq<bool>)
    requires |a| == |b| <= 16 && Division(s, a) == Division(s', b)
    ensures Xor16(s, s') == Differences(a, b)
    decreases |a|
  {
    hide BitStep, Xor16, Push, TopClear, Within;
    if |a| == 0 {
      XorWithZero(s);
    } else {
      StatesThatMeet(BitStep(s, a[0]), BitStep(s', b[0]), a[1..], b[1..]);
      DifferencesFit(a[1..], b[1..]);
      StepBack(s, s', a[0], b[0]);
    }
  }

  lemma NoDifferences(q: bv16, bit: bool)
    requires Push(q, bit) == 0 && TopClear(q)
    ensures q == 0 && !bit
  {
  }

  lemma {:induction false} DifferencesZero(a: seq<bool>, b: seq<bool>)
    requires |a| == |b| <= 16 && Differences(a, b) == 0
    ensures a == b
    decreases |a|
  {
    hide Within, Push, TopClear;
    if |a| > 0 {
      DifferencesFit(a[1..], b[1..]);
      NoDifferences(Differences(a[1..], b[1..]), a[0] != b[0]);
      DifferencesZero(a[1..], b[1..]);
      assert a == [a[0]] + a[1..] && b == [b[0]] + b[1..];
    }
  }

  lemma {:induction false} DivisionIsInjective(s: bv16, s': bv16, bits: seq<bool>)
    requires Division(s, bits) == Division(s', bits)
    ensures s == s'
    decreases |bits|
  {
    hide BitStep;
    if |bits| > 0 {
      DivisionIsInjective(BitStep(s, bits[0]), BitStep(s', bits[0]), bits[1..]);
      StepIsInjective(s, s', bits[0]);
    }
  }

  lemma StepIsInjective(s: bv16, s': bv16, bit: bool)
    requires BitStep(s, bit) == BitStep(s', bit)
    ensures s == s'
  {
  }

  /** Every change confined to 16 consecutive bits of a message changes its CRC. */
  lemma BurstIsDetected(s: bv16, m: seq<bool>, m': seq<bool>, from: nat, to: nat)
    requires |m| == |m'| && from <= to <= |m| && to - from <= 16
    requires m[..from] == m'[..from] && m[to..] == m'[to..]
    ensures Division(s, m) == Division(s, m') <==> m == m'
  {
    hide Division;
    var a, b := m[from..to], m'[from..to];
    assert m == m[..from] + a + m[to..];
    assert m' == m[..from] + b + m[to..];
    DivisionOfConcat(s, m[..from] + a, m[to..]);
    DivisionOfConcat(s, m[..from], a);
    DivisionOfConcat(s, m[..from] + b, m[to..]);
    DivisionOfConcat(s, m[..from], b);
    if Division(s, m) == Division(s, m') {
      var start := Division(s, m[..from]);
      DivisionIsInjective(Division(start, a), Division(start, b), m[to..]);
      StatesThatMeet(start, start, a, b);
      XorWithZero(start);
      DifferencesZero(a, b);
    }
  }

  /** The same for transmitted messages: a burst that spares all but 16 consecutive bits of the
      byte stream never leaves the two check bytes as they were. */
  lemma BurstChangesCheckBytes(s: bv16, data: seq<bv8>, data': seq<bv8>, from: nat, to: nat)
    requires |data| == |data'| && from <= to <= 8 * |data| && to - from <= 16
    requires MessageBits(data)[..from] == MessageBits(data')[..from]
    requires MessageBits(data)[to..] == MessageBits(data')[to..]
    requires MessageBits(data) != MessageBits(data')
    ensures Split(CrcOf(s, data)) != Split(CrcOf(s, data'))
  {
    hide Division, MessageBits, Split;
    BurstIsDetected(s, MessageBits(data), MessageBits(data'), from, to);
    SplitIsInjective(CrcOf(s, data), CrcOf(s, data'));
  }

  lemma SplitIsInjective(x: bv16, y: bv16)
    ensures Split(x) == Split(y) ==> x == y
  {
  }
}
