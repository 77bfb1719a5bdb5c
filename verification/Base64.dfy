/** Base64 twice over: the block routines of bufferhelper.cpp and the accumulators of utils.cpp, against
    section 4 of RFC 4648 and against each other.  Characters are bytes of ASCII. */
module Base64 {
  import opened BitStrings
  import opened Bytes

  const PAD: bv8 := 0x3D

  // ----- characters -----

  /** The alphabet of both files: A-Z, a-z, 0-9, + and /. */
  function Letter(v: bv8): bv8 {
    if v < 26 then v + 0x41 else if v < 52 then v + 0x47 else if v < 62 then v - 4 else if v == 62 then 0x2B else 0x2F
  }

  predicate IsAlnum(c: bv8) {
    (0x41 <= c && c <= 0x5A) || (0x61 <= c && c <= 0x7A) || (0x30 <= c && c <= 0x39)
  }

  predicate IsLetter(c: bv8) { IsAlnum(c) || c == 0x2B || c == 0x2F }

  /** The block decoder's mapping: differences within the ranges, zero for anything else. */
  function Value(c: bv8): bv8 {
    if 0x41 <= c && c <= 0x5A then c - 0x41
    else if 0x61 <= c && c <= 0x7A then c - 0x47
    else if 0x30 <= c && c <= 0x39 then c + 4
    else if c == 0x2B then 62
    else if c == 0x2F then 63
    else 0
  }

  /** The accumulator's search in the alphabet; a character that is not there gives the cast of npos. */
  function Find(c: bv8): bv8 { if IsLetter(c) then Value(c) else 0xFF }

  lemma LetterRoundTrip(v: bv8)
    requires v < 64
    ensures IsLetter(Letter(v)) && Letter(v) != PAD && Value(Letter(v)) == v
  {
  }

  lemma ValueRoundTrip(c: bv8)
    requires IsLetter(c)
    ensures Value(c) < 64 && Letter(Value(c)) == c
  {
  }

  /** Table 1 of RFC 4648. */
  const ALPHABET: string := "ABCDEFGHIJKLMNOPQRSTUVWXYZabcdef" + "ghijklmnopqrstuvwxyz0123456789+/"

  /** The letters are the characters of that table at their places, and no others; the padding is its '='. */
  lemma AlphabetIsStandard(v: bv8, c: bv8)
    ensures v < 64 ==> Letter(v) as int == ALPHABET[v as int] as int
    ensures PAD as int == '=' as int
    ensures IsLetter(c) <==> exists w: bv8 :: w < 64 && Letter(w) == c
  {
    if v < 32 {
      FirstLetters(v);
    } else if v < 64 {
      LastLetters(v);
    }
    if IsLetter(c) {
      ValueRoundTrip(c);
      assert Letter(Value(c)) == c;
    }
    forall w: bv8 | w < 64
      ensures IsLetter(Letter(w))
    {
      LetterRoundTrip(w);
    }
  }

  lemma FirstLetters(v: bv8)
    requires v < 32
    ensures Letter(v) as int == "ABCDEFGHIJKLMNOPQRSTUVWXYZabcdef"[v as int] as int
  {
  }

  lemma LastLetters(v: bv8)
    requires 32 <= v && v < 64
    ensures v as int >= 32 && Letter(v) as int == "ghijklmnopqrstuvwxyz0123456789+/"[v as int - 32] as int
  {
  }

  // ----- six bits out of eight, and back -----

  function S0(a: bv8): bv8 { a >> 2 }
  function S1(a: bv8, b: bv8): bv8 { ((a & 0x03) << 4) | ((b & 0xF0) >> 4) }
  function S2(b: bv8, c: bv8): bv8 { ((b & 0x0F) << 2) | ((c & 0xC0) >> 6) }
  function S3(c: bv8): bv8 { c & 0x3F }

  function D0(s0: bv8, s1: bv8): bv8 { (s0 << 2) | (s1 >> 4) }
  function D1(s1: bv8, s2: bv8): bv8 { (s1 << 4) | (s2 >> 2) }
  function D2(s2: bv8, s3: bv8): bv8 { ((s2 << 6) & 0xC0) | s3 }

  lemma SixBitsEach(a: bv8, b: bv8, c: bv8)
    ensures S0(a) < 64 && S1(a, b) < 64 && S2(b, c) < 64 && S3(c) < 64
  {
  }

  lemma BytesComeBack(a: bv8, b: bv8, c: bv8)
    ensures D0(S0(a), S1(a, b)) == a && D1(S1(a, b), S2(b, c)) == b && D2(S2(b, c), S3(c)) == c
  {
  }

  // ----- writing -----

  function EncodeBlock(block: Octets): (r: Octets)
    requires 1 <= |block| <= 3
    ensures |r| == 4
  {
    var a := block[0];
    var b := if |block| > 1 then block[1] else 0;
    var c := if |block| > 2 then block[2] else 0;
    [Letter(S0(a)), Letter(S1(a, b)),
     if |block| > 1 then Letter(S2(b, c)) else PAD,
     if |block| > 2 then Letter(S3(c)) else PAD]
  }

  function Encode(data: Octets): Octets {
    if |data| == 0 then []
    else
      var len := if |data| > 3 then 3 else |data|;
      EncodeBlock(data[..len]) + Encode(data[len..])
  }

  /** The size toBase64 reserves beforehand. */
  lemma {:induction false} EncodeSize(data: Octets)
    ensures |Encode(data)| == (|data| + 2) / 3 * 4
  {
    hide EncodeBlock;
    if |data| > 3 {
      EncodeSize(data[3..]);
    } else if |data| > 0 {
      assert Encode(data[|data|..]) == [];
    }
  }

  lemma EncodeStep(block: Octets, rest: Octets)
    requires |block| == 3 || (1 <= |block| <= 3 && rest == [])
    ensures Encode(block + rest) == EncodeBlock(block) + Encode(rest)
  {
    hide EncodeBlock;
    assert (block + rest)[..|block|] == block && (block + rest)[|block|..] == rest;
  }

  lemma EncodeNothing()
    ensures Encode([]) == []
  {
  }

  lemma {:induction false} EncodeLast(front: Octets, block: Octets)
    requires |front| % 3 == 0 && 1 <= |block| <= 3
    ensures Encode(front + block) == Encode(front) + EncodeBlock(block)
  {
    hide EncodeBlock, Encode;
    EncodeNothing();
    if |front| == 0 {
      assert front + block == block + [];
      EncodeStep(block, []);
    } else {
      var f, rest := front[..3], front[3..];
      assert front == f + rest && front + block == f + (rest + block);
      EncodeStep(f, rest);
      EncodeStep(f, rest + block);
      EncodeLast(rest, block);
    }
  }

  /** One more block after k bytes. */
  lemma EncodeMore(data: Octets, k: nat, len: nat)
    requires k % 3 == 0 && 1 <= len <= 3 && k + len <= |data|
    ensures Encode(data[..k + len]) == Encode(data[..k]) + EncodeBlock(data[k..k + len])
  {
    hide EncodeBlock, Encode;
    assert data[..k + len] == data[..k] + data[k..k + len];
    EncodeLast(data[..k], data[k..k + len]);
  }

  // ----- the standard -----

  predicate Six(g: seq<bool>) { |g| == 6 }

  function SixBits(g: seq<bool>): bv8
    requires Six(g)
  {
    FromFlags(g[0], g[1], g[2], g[3], g[4], g[5])
  }

  function FromFlags(a: bool, b: bool, c: bool, d: bool, e: bool, f: bool): bv8 {
    (if a then 0x20 else 0) | (if b then 0x10 else 0) | (if c then 8 else 0)
    | (if d then 4 else 0) | (if e then 2 else 0) | (if f then 1 else 0)
  }

  /** The bits in groups of six, the last one filled up with zeros, each as a letter. */
  function Letters(bits: seq<bool>): Octets {
    if |bits| == 0 then []
    else if |bits| < 6 then [Letter(SixBits(bits + ZeroBits(6 - |bits|)))]
    else [Letter(SixBits(bits[..6]))] + Letters(bits[6..])
  }

  function Pads(n: nat): Octets { seq(n, _ => PAD) }

  function Filled(letters: Octets): Octets { letters + Pads((4 - |letters| % 4) % 4) }

  /** Section 4 of RFC 4648: the letters, filled up to a multiple of four. */
  function StandardEncode(data: Octets): Octets { Filled(Letters(Bits(data))) }

  lemma SextetFlags(a: bv8, b: bv8, c: bv8)
    ensures FromFlags(Bit(a, 0x80), Bit(a, 0x40), Bit(a, 0x20), Bit(a, 0x10), Bit(a, 8), Bit(a, 4)) == S0(a)
    ensures FromFlags(Bit(a, 2), Bit(a, 1), Bit(b, 0x80), Bit(b, 0x40), Bit(b, 0x20), Bit(b, 0x10)) == S1(a, b)
    ensures FromFlags(Bit(b, 8), Bit(b, 4), Bit(b, 2), Bit(b, 1), Bit(c, 0x80), Bit(c, 0x40)) == S2(b, c)
    ensures FromFlags(Bit(c, 0x20), Bit(c, 0x10), Bit(c, 8), Bit(c, 4), Bit(c, 2), Bit(c, 1)) == S3(c)
  {
  }

  lemma NoFlags(mask: bv8)
    ensures !Bit(0, mask)
  {
  }

  lemma LettersStep(group: seq<bool>, rest: seq<bool>)
    requires Six(group)
    ensures Letters(group + rest) == [Letter(SixBits(group))] + Letters(rest)
  {
    assert (group + rest)[..6] == group && (group + rest)[6..] == rest;
  }

  function Group0(a: bv8): (g: seq<bool>)
    ensures Six(g)
  {
    ByteBits(a)[..6]
  }

  function Group1(a: bv8, b: bv8): (g: seq<bool>)
    ensures Six(g)
  {
    ByteBits(a)[6..] + ByteBits(b)[..4]
  }

  function Group2(b: bv8, c: bv8): (g: seq<bool>)
    ensures Six(g)
  {
    ByteBits(b)[4..] + ByteBits(c)[..2]
  }

  function Group3(c: bv8): (g: seq<bool>)
    ensures Six(g)
  {
    ByteBits(c)[2..]
  }

  lemma GroupsAreSextets(a: bv8, b: bv8, c: bv8)
    ensures SixBits(Group0(a)) == S0(a) && SixBits(Group1(a, b)) == S1(a, b)
    ensures SixBits(Group2(b, c)) == S2(b, c) && SixBits(Group3(c)) == S3(c)
  {
    hide Bit, FromFlags, S0, S1, S2, S3;
    SextetFlags(a, b, c);
  }

  lemma ZeroByte()
    ensures ByteBits(0) == ZeroBits(8)
  {
    hide Bit;
    NoFlags(0x80); NoFlags(0x40); NoFlags(0x20); NoFlags(0x10);
    NoFlags(8); NoFlags(4); NoFlags(2); NoFlags(1);
  }

  lemma Regroup(x: seq<bool>, y: seq<bool>, z: seq<bool>, rest: seq<bool>)
    requires |x| == 8 && |y| == 8 && |z| == 8
    ensures x + y + z + rest == x[..6] + ((x[6..] + y[..4]) + ((y[4..] + z[..2]) + (z[2..] + rest)))
  {
  }

  /** Three bytes are four groups. */
  lemma ThreeBytes(a: bv8, b: bv8, c: bv8, rest: seq<bool>)
    ensures Letters(Bits([a, b, c]) + rest) == EncodeBlock([a, b, c]) + Letters(rest)
  {
    hide ByteBits, SixBits, Letter, Letters, S0, S1, S2, S3;
    GroupsAreSextets(a, b, c);
    BitsOfThree(a, b, c);
    var g0, g1, g2, g3 := Group0(a), Group1(a, b), Group2(b, c), Group3(c);
    Regroup(ByteBits(a), ByteBits(b), ByteBits(c), rest);
    LettersStep(g0, g1 + (g2 + (g3 + rest)));
    LettersStep(g1, g2 + (g3 + rest));
    LettersStep(g2, g3 + rest);
    LettersStep(g3, rest);
  }

  lemma BitsOfThree(a: bv8, b: bv8, c: bv8)
    ensures Bits([a]) == ByteBits(a)
    ensures Bits([a, b]) == ByteBits(a) + ByteBits(b)
    ensures Bits([a, b, c]) == ByteBits(a) + ByteBits(b) + ByteBits(c)
  {
    hide ByteBits;
    NoBits([]);
    BitsOfSnoc([], a);
    BitsOfSnoc([a], b);
    BitsOfSnoc([a, b], c);
    assert [] + [a] == [a] && [a] + [b] == [a, b] && [a, b] + [c] == [a, b, c];
  }

  lemma TwoBytes(a: bv8, b: bv8)
    ensures Letters(Bits([a, b])) + [PAD] == EncodeBlock([a, b])
  {
    hide ByteBits, SixBits, Letter, Letters, S0, S1, S2, S3;
    GroupsAreSextets(a, b, 0);
    BitsOfThree(a, b, 0);
    ZeroByte();
    var g0, g1, tail := Group0(a), Group1(a, b), ByteBits(b)[4..];
    assert Bits([a, b]) == g0 + (g1 + tail);
    LettersStep(g0, g1 + tail);
    LettersStep(g1, tail);
    assert Letters(tail) == [Letter(SixBits(Group2(b, 0)))] by {
      ShortLetters(tail);
      assert tail + ZeroBits(2) == Group2(b, 0);
    }
  }

  lemma ShortLetters(bits: seq<bool>)
    requires 0 < |bits| < 6
    ensures Letters(bits) == [Letter(SixBits(bits + ZeroBits(6 - |bits|)))]
  {
  }

  lemma OneByte(a: bv8)
    ensures Letters(Bits([a])) + [PAD, PAD] == EncodeBlock([a])
  {
    hide ByteBits, SixBits, Letter, Letters, S0, S1, S2, S3;
    GroupsAreSextets(a, 0, 0);
    BitsOfThree(a, 0, 0);
    ZeroByte();
    var g0, tail := Group0(a), ByteBits(a)[6..];
    assert Bits([a]) == g0 + tail;
    LettersStep(g0, tail);
    assert Letters(tail) == [Letter(SixBits(Group1(a, 0)))] by {
      ShortLetters(tail);
      assert tail + ZeroBits(4) == Group1(a, 0);
    }
  }

  lemma FilledUp(letters: Octets, block: Octets)
    requires |block| == 4
    ensures |letters| % 4 == 3 ==> Filled(letters) == letters + [PAD]
    ensures |letters| % 4 == 2 ==> Filled(letters) == letters + [PAD, PAD]
    ensures Filled(block + letters) == block + Filled(letters) && Filled([]) == []
  {
    assert Pads(1) == [PAD] && Pads(2) == [PAD, PAD];
    assert |block + letters| % 4 == |letters| % 4;
    assert block + letters + Pads((4 - |letters| % 4) % 4) == block + (letters + Pads((4 - |letters| % 4) % 4));
  }

  lemma OneBlock(block: Octets)
    requires 1 <= |block| <= 3
    ensures Encode(block) == EncodeBlock(block)
  {
    EncodeLast([], block);
    assert [] + block == block && [] + EncodeBlock(block) == EncodeBlock(block);
  }

  lemma OneIsStandard(a: bv8)
    ensures Encode([a]) == StandardEncode([a])
  {
    hide EncodeBlock, Encode, Letters, Bits, Filled;
    OneBlock([a]);
    OneByte(a);
    FilledUp(Letters(Bits([a])), EncodeBlock([a]));
  }

  lemma TwoAreStandard(a: bv8, b: bv8)
    ensures Encode([a, b]) == StandardEncode([a, b])
  {
    hide EncodeBlock, Encode, Letters, Bits, Filled;
    OneBlock([a, b]);
    TwoBytes(a, b);
    FilledUp(Letters(Bits([a, b])), EncodeBlock([a, b]));
  }

  lemma ThreeMore(a: bv8, b: bv8, c: bv8, rest: Octets)
    ensures Encode([a, b, c] + rest) == EncodeBlock([a, b, c]) + Encode(rest)
    ensures StandardEncode([a, b, c] + rest) == EncodeBlock([a, b, c]) + StandardEncode(rest)
  {
    hide EncodeBlock, Letters, Bits, Filled;
    var block, data := [a, b, c], [a, b, c] + rest;
    assert data[..3] == block && data[3..] == rest;
    BitsOfConcat(block, rest);
    ThreeBytes(a, b, c, Bits(rest));
    FilledUp(Letters(Bits(rest)), EncodeBlock(block));
  }

  /** Both encoders write what the standard says. */
  lemma {:induction false} EncodeIsStandard(data: Octets)
    ensures Encode(data) == StandardEncode(data)
  {
    hide EncodeBlock, StandardEncode, Encode;
    if |data| == 0 {
      NothingIsStandard();
    } else if |data| == 1 {
      assert data == [data[0]];
      OneIsStandard(data[0]);
    } else if |data| == 2 {
      assert data == [data[0], data[1]];
      TwoAreStandard(data[0], data[1]);
    } else {
      assert data == [data[0], data[1], data[2]] + data[3..];
      ThreeMore(data[0], data[1], data[2], data[3..]);
      EncodeIsStandard(data[3..]);
    }
  }

  lemma NothingIsStandard()
    ensures Encode([]) == StandardEncode([])
  {
    hide Filled;
    NoBits([]);
    FilledUp([], [0, 0, 0, 0]);
  }

  // ----- reading blocks -----

  datatype Trouble = NotFours | BadCharacter | PadExpected

  predicate Allowed(q: Octets)
    requires |q| == 4
  {
    IsLetter(q[0]) && IsLetter(q[1]) && (IsLetter(q[2]) || q[2] == PAD) && (IsLetter(q[3]) || q[3] == PAD)
  }

  /** The bytes of a block of four characters; only blocks with padding give fewer than three. */
  function DecodeBlock(q: Octets): (r: Result<Octets, Trouble>)
    requires |q| == 4
    ensures r.Ok? ==> 1 <= |r.value| <= 3
  {
    if !Allowed(q) then Err(BadCharacter)
    else if q[2] == PAD && q[3] != PAD then Err(PadExpected)
    else
      var t0, t1, t2, t3 := Value(q[0]), Value(q[1]), Value(q[2]), Value(q[3]);
      if q[2] == PAD then Ok([D0(t0, t1)])
      else if q[3] == PAD then Ok([D0(t0, t1), D1(t1, t2)])
      else Ok([D0(t0, t1), D1(t1, t2), D2(t2, t3)])
  }

  /** Block by block, until one gives fewer than three bytes. */
  function DecodeBlocks(s: Octets): (r: Result<Octets, Trouble>)
    requires |s| % 4 == 0
  {
    if |s| == 0 then Ok([])
    else match DecodeBlock(s[..4])
      case Err(e) => Err(e)
      case Ok(bytes) =>
        if |bytes| < 3 then Ok(bytes)
        else match DecodeBlocks(s[4..])
          case Err(e) => Err(e)
          case Ok(rest) => Ok(bytes + rest)
  }

  function Decode(s: Octets): Result<Octets, Trouble> {
    if |s| % 4 != 0 then Err(NotFours) else DecodeBlocks(s)
  }

  lemma BlockComesBack(block: Octets)
    requires 1 <= |block| <= 3
    ensures DecodeBlock(EncodeBlock(block)) == Ok(block)
  {
    hide IsLetter, Value, Letter, S0, S1, S2, S3, D0, D1, D2;
    var a := block[0];
    var b := if |block| > 1 then block[1] else 0;
    var c := if |block| > 2 then block[2] else 0;
    SixBitsEach(a, b, c);
    LetterRoundTrip(S0(a));
    LetterRoundTrip(S1(a, b));
    LetterRoundTrip(S2(b, c));
    LetterRoundTrip(S3(c));
    BytesComeBack(a, b, c);
    TailBytesComeBack(a, b);
    PadIsNoLetter();
    if |block| == 1 {
      assert block == [a];
    } else if |block| == 2 {
      assert block == [a, b];
    } else {
      assert block == [a, b, c];
    }
  }

  lemma PadIsNoLetter()
    ensures !IsLetter(PAD) && Value(PAD) == 0
  {
  }

  lemma TailBytesComeBack(a: bv8, b: bv8)
    ensures D0(S0(a), S1(a, 0)) == a && D1(S1(a, b), S2(b, 0)) == b
  {
  }

  /** The block decoder returns what the block encoder was given, for all byte strings. */
  lemma {:induction false} DecodeUndoesEncode(data: Octets)
    ensures Decode(Encode(data)) == Ok(data)
  {
    hide EncodeBlock, DecodeBlock;
    if |data| > 0 {
      var len := if |data| > 3 then 3 else |data|;
      BlockComesBack(data[..len]);
      DecodeUndoesEncode(data[len..]);
      EncodeSize(data);
      EncodeSize(data[len..]);
      assert Encode(data)[..4] == EncodeBlock(data[..len]) && Encode(data)[4..] == Encode(data[len..]);
      assert data == data[..len] + data[len..];
      assert |data| <= 3 ==> data[len..] == [] && data[..len] == data;
    }
  }

  // ----- which texts are accepted -----

  predicate LettersBelow(s: Octets, n: nat)
    requires n <= |s|
  {
    forall i :: 0 <= i < n ==> IsLetter(s[i])
  }

  /** All letters up to a block, at k, that ends in one '=' or two. */
  predicate PaddedAt(s: Octets, k: nat) {
    && k % 4 == 0 && k + 4 <= |s| && LettersBelow(s, k + 2)
    && (IsLetter(s[k + 2]) || s[k + 2] == 0x3D) && s[k + 3] == 0x3D
  }

  /** All letters up to a block, at k, with a letter behind its '='. */
  predicate UnpaddedAt(s: Octets, k: nat) {
    k % 4 == 0 && k + 4 <= |s| && LettersBelow(s, k + 2) && s[k + 2] == 0x3D && IsLetter(s[k + 3])
  }

  lemma BlockOutcome(q: Octets)
    requires |q| == 4
    ensures LettersBelow(q, 4) <==> DecodeBlock(q).Ok? && |DecodeBlock(q).value| == 3
    ensures PaddedAt(q, 0) <==> DecodeBlock(q).Ok? && |DecodeBlock(q).value| < 3
    ensures UnpaddedAt(q, 0) <==> DecodeBlock(q) == Err(PadExpected)
  {
    hide IsLetter, Value, D0, D1, D2;
    PadIsNoLetter();
  }

  lemma BreaksInFirst(s: Octets, k: nat)
    requires |s| >= 4 && !LettersBelow(s, 4)
    ensures PaddedAt(s, k) <==> k == 0 && PaddedAt(s[..4], 0)
    ensures UnpaddedAt(s, k) <==> k == 0 && UnpaddedAt(s[..4], 0)
    ensures !LettersBelow(s, |s|) && !LettersBelow(s[..4], 4)
  {
    hide IsLetter;
    PadIsNoLetter();
    assert forall i :: 0 <= i < 4 ==> s[i] == s[..4][i];
  }

  lemma BreaksLater(s: Octets, k: nat)
    requires |s| >= 4 && LettersBelow(s, 4)
    ensures PaddedAt(s, k) <==> k >= 4 && PaddedAt(s[4..], k - 4)
    ensures UnpaddedAt(s, k) <==> k >= 4 && UnpaddedAt(s[4..], k - 4)
    ensures LettersBelow(s, |s|) <==> LettersBelow(s[4..], |s| - 4)
    ensures LettersBelow(s[..4], 4)
  {
    hide IsLetter;
    PadIsNoLetter();
    assert forall i :: 4 <= i < |s| ==> s[i] == s[4..][i - 4];
  }

  lemma BlocksAhead(s: Octets)
    requires |s| % 4 == 0 && |s| >= 4 && LettersBelow(s, 4)
    ensures (exists k: nat :: PaddedAt(s, k)) <==> exists k: nat :: PaddedAt(s[4..], k)
    ensures (exists k: nat :: UnpaddedAt(s, k)) <==> exists k: nat :: UnpaddedAt(s[4..], k)
  {
    hide PaddedAt, UnpaddedAt, LettersBelow;
    var t := s[4..];
    if k: nat :| PaddedAt(s, k) {
      BreaksLater(s, k);
      assert PaddedAt(t, k - 4);
    }
    if k: nat :| UnpaddedAt(s, k) {
      BreaksLater(s, k);
      assert UnpaddedAt(t, k - 4);
    }
    if k: nat :| PaddedAt(t, k) {
      BreaksLater(s, k + 4);
      assert PaddedAt(s, k + 4);
    }
    if k: nat :| UnpaddedAt(t, k) {
      BreaksLater(s, k + 4);
      assert UnpaddedAt(s, k + 4);
    }
  }

  /** A text is accepted if and only if it is whole blocks and either all letters or, up to a block that ends in
      one or two '=', all letters; what stands behind that block is not looked at. */
  lemma {:induction false} AcceptedExactlyWhen(s: Octets)
    ensures Decode(s) == Err(NotFours) <==> |s| % 4 != 0
    ensures Decode(s).Ok? <==> |s| % 4 == 0 && (LettersBelow(s, |s|) || exists k: nat :: PaddedAt(s, k))
    ensures Decode(s) == Err(PadExpected) <==> |s| % 4 == 0 && exists k: nat :: UnpaddedAt(s, k)
    decreases |s|
  {
    hide DecodeBlock, PaddedAt, UnpaddedAt, LettersBelow;
    if |s| % 4 == 0 && |s| > 0 {
      BlockOutcome(s[..4]);
      NoOtherTrouble(s[..4]);
      if LettersBelow(s, 4) {
        BreaksLater(s, 0);
        BlocksAhead(s);
        AcceptedExactlyWhen(s[4..]);
      } else {
        forall k: nat
          ensures PaddedAt(s, k) <==> k == 0 && PaddedAt(s[..4], 0)
          ensures UnpaddedAt(s, k) <==> k == 0 && UnpaddedAt(s[..4], 0)
        {
          BreaksInFirst(s, k);
        }
        BreaksInFirst(s, 0);
      }
    } else if |s| == 0 {
      NothingBreaks(s);
    }
  }

  lemma NoOtherTrouble(q: Octets)
    requires |q| == 4
    ensures DecodeBlock(q) != Err(NotFours)
  {
    hide IsLetter;
  }

  lemma NothingBreaks(s: Octets)
    requires |s| == 0
    ensures LettersBelow(s, 0) && forall k: nat :: !UnpaddedAt(s, k)
  {
  }

  // ----- which texts are encodings -----

  predicate LowBitsClear(q: Octets)
    requires |q| == 4
  {
    if q[2] == PAD then Value(q[1]) & 0x0F == 0 else if q[3] == PAD then Value(q[2]) & 0x03 == 0 else true
  }

  /** Nothing stands behind a padded block, and the bits its bytes do not use are zero. */
  predicate Canonical(s: Octets)
    requires |s| % 4 == 0
  {
    if |s| == 0 then true
    else
      && LowBitsClear(s[..4])
      && (s[3] == PAD ==> |s| == 4)
      && Canonical(s[4..])
  }

  lemma SextetsComeBack(t0: bv8, t1: bv8, t2: bv8, t3: bv8)
    requires t0 < 64 && t1 < 64 && t2 < 64 && t3 < 64
    ensures S0(D0(t0, t1)) == t0 && S1(D0(t0, t1), D1(t1, t2)) == t1
    ensures S2(D1(t1, t2), D2(t2, t3)) == t2 && S3(D2(t2, t3)) == t3
  {
  }

  lemma LastSextetsComeBack(t0: bv8, t1: bv8, t2: bv8)
    requires t0 < 64 && t1 < 64 && t2 < 64
    ensures S1(D0(t0, t1), 0) == t1 <==> t1 & 0x0F == 0
    ensures S2(D1(t1, t2), 0) == t2 <==> t2 & 0x03 == 0
    ensures S1(D0(t0, t1), 0) < 64 && S2(D1(t1, t2), 0) < 64
  {
  }

  lemma SameLetter(v: bv8, c: bv8)
    requires v < 64 && IsLetter(c)
    ensures Letter(v) == c <==> v == Value(c)
  {
    LetterRoundTrip(v);
    ValueRoundTrip(c);
  }

  /** Encoding the bytes of an accepted block gives the block back if and only if its unused bits are zero. */
  lemma BlockIsCanonical(q: Octets)
    requires |q| == 4 && DecodeBlock(q).Ok?
    ensures EncodeBlock(DecodeBlock(q).value) == q <==> LowBitsClear(q)
    ensures |DecodeBlock(q).value| < 3 <==> q[3] == PAD
  {
    hide IsLetter, Letter, Value, S0, S1, S2, S3, D0, D1, D2;
    PadIsNoLetter();
    var t0, t1 := Value(q[0]), Value(q[1]);
    var t2 := if q[2] == PAD then 0 else Value(q[2]);
    var t3 := if q[3] == PAD then 0 else Value(q[3]);
    ValueRoundTrip(q[0]);
    ValueRoundTrip(q[1]);
    if q[2] != PAD {
      ValueRoundTrip(q[2]);
    }
    if q[3] != PAD {
      ValueRoundTrip(q[3]);
    }
    SextetsComeBack(t0, t1, t2, t3);
    LastSextetsComeBack(t0, t1, t2);
    SameLetter(S1(D0(t0, t1), 0), q[1]);
    if q[2] != PAD {
      SameLetter(S2(D1(t1, t2), 0), q[2]);
    }
    assert q == [q[0], q[1], q[2], q[3]];
  }

  /** The reverse law: for a text the block decoder accepts, encoding what it decoded gives the text back
      if and only if the text is canonical. */
  lemma {:induction false} EncodeUndoesDecodeExactlyWhen(s: Octets)
    requires Decode(s).Ok?
    ensures Encode(Decode(s).value) == s <==> Canonical(s)
  {
    hide DecodeBlock, EncodeBlock, Encode, LowBitsClear;
    EncodeNothing();
    if |s| > 0 {
      var q, rest := s[..4], s[4..];
      var bytes := DecodeBlock(q).value;
      assert s == q + rest;
      BlockIsCanonical(q);
      if |bytes| < 3 {
        OneBlock(bytes);
      } else {
        EncodeUndoesDecodeExactlyWhen(rest);
        EncodeStep(bytes, Decode(rest).value);
        FrontAndRest(EncodeBlock(bytes), q, Encode(Decode(rest).value), rest);
      }
    }
  }

  lemma FrontAndRest(a: Octets, b: Octets, x: Octets, y: Octets)
    requires |a| == |b|
    ensures a + x == b + y <==> a == b && x == y
  {
    assert (a + x)[..|a|] == a && (a + x)[|a|..] == x;
    assert (b + y)[..|b|] == b && (b + y)[|b|..] == y;
  }

  // ----- reading with an accumulator -----

  /** The characters before the first that is no letter. */
  function LettersOf(s: Octets): (r: Octets)
    ensures |r| <= |s|
  {
    if |s| == 0 || !IsLetter(s[0]) then [] else [s[0]] + LettersOf(s[1..])
  }

  function A0(s0: bv8, s1: bv8): bv8 { (s0 << 2) + ((s1 & 0x30) >> 4) }
  function A1(s1: bv8, s2: bv8): bv8 { ((s1 & 0x0F) << 4) + ((s2 & 0x3C) >> 2) }
  function A2(s2: bv8, s3: bv8): bv8 { ((s2 & 0x03) << 6) + s3 }

  /** Four letters give three bytes; a rest of i letters gives i - 1. */
  function AccumulateLetters(q: Octets): Octets {
    if |q| >= 4 then
      var f0, f1, f2, f3 := Find(q[0]), Find(q[1]), Find(q[2]), Find(q[3]);
      [A0(f0, f1), A1(f1, f2), A2(f2, f3)] + AccumulateLetters(q[4..])
    else if |q| <= 1 then []
    else
      var f0, f1, f2 := Find(q[0]), Find(q[1]), Find(if |q| == 3 then q[2] else 0);
      [A0(f0, f1), A1(f1, f2)][..|q| - 1]
  }

  function Accumulate(s: Octets): Octets { AccumulateLetters(LettersOf(s)) }

  lemma SameBytes(s0: bv8, s1: bv8, s2: bv8, s3: bv8)
    requires s0 < 64 && s1 < 64 && s2 < 64 && s3 < 64
    ensures A0(s0, s1) == D0(s0, s1) && A1(s1, s2) == D1(s1, s2) && A2(s2, s3) == D2(s2, s3)
  {
  }

  lemma LettersOfStep(c: bv8, rest: Octets)
    ensures LettersOf([c] + rest) == if IsLetter(c) then [c] + LettersOf(rest) else []
  {
    assert ([c] + rest)[1..] == rest;
  }

  lemma LettersOfFour(q: Octets, rest: Octets)
    requires |q| == 4
    ensures IsLetter(q[0]) && IsLetter(q[1]) && IsLetter(q[2]) && IsLetter(q[3]) ==>
              LettersOf(q + rest) == q + LettersOf(rest)
    ensures IsLetter(q[0]) && IsLetter(q[1]) && IsLetter(q[2]) && !IsLetter(q[3]) ==> LettersOf(q + rest) == q[..3]
    ensures IsLetter(q[0]) && IsLetter(q[1]) && !IsLetter(q[2]) ==> LettersOf(q + rest) == q[..2]
  {
    hide IsLetter, LettersOf;
    var r3 := [q[3]] + rest;
    var r2 := [q[2]] + r3;
    var r1 := [q[1]] + r2;
    assert q == [q[0], q[1], q[2], q[3]] && q + rest == [q[0]] + r1;
    LettersOfStep(q[0], r1);
    LettersOfStep(q[1], r2);
    LettersOfStep(q[2], r3);
    LettersOfStep(q[3], rest);
  }

  lemma BlocksAgree(q: Octets, rest: Octets)
    requires |q| == 4 && DecodeBlock(q).Ok?
    ensures var bytes := DecodeBlock(q).value;
            Accumulate(q + rest) == if |bytes| < 3 then bytes else bytes + Accumulate(rest)
  {
    hide IsLetter, Value, A0, A1, A2, D0, D1, D2, LettersOf;
    PadIsNoLetter();
    LettersOfFour(q, rest);
    forall c: bv8 | IsLetter(c)
      ensures Value(c) < 64
    {
      ValueRoundTrip(c);
    }
    var t2, t3 := Value(q[2]), Value(q[3]);
    SameBytes(Value(q[0]), Value(q[1]), if IsLetter(q[2]) then t2 else 0, if IsLetter(q[3]) then t3 else 0);
    ZeroIsNoLetter();
    assert IsLetter(q[3]) && IsLetter(q[2]) ==> (q + LettersOf(rest))[4..] == LettersOf(rest);
  }

  lemma ZeroIsNoLetter()
    ensures !IsLetter(0)
  {
  }

  /** On every string the block decoder accepts, the accumulator returns the same bytes. */
  lemma {:induction false} DecodersAgree(s: Octets)
    requires Decode(s).Ok?
    ensures Accumulate(s) == Decode(s).value
  {
    hide DecodeBlock, Accumulate;
    if |s| == 0 {
      NothingToAccumulate();
    } else {
      assert s == s[..4] + s[4..];
      BlocksAgree(s[..4], s[4..]);
      if |DecodeBlock(s[..4]).value| == 3 {
        DecodersAgree(s[4..]);
      }
    }
  }

  lemma NothingToAccumulate()
    ensures Accumulate([]) == []
  {
  }

  /** So the accumulator undoes both encoders too. */
  lemma AccumulateUndoesEncode(data: Octets)
    ensures Accumulate(Encode(data)) == data
  {
    DecodeUndoesEncode(data);
    DecodersAgree(Encode(data));
  }

  // ----- the accumulator on any string at all -----

  /** The six bits of the letter's place in the alphabet. */
  function Sextet(c: bv8): (g: seq<bool>)
    ensures Six(g)
  {
    var v := Value(c);
    [Bit(v, 0x20), Bit(v, 0x10), Bit(v, 8), Bit(v, 4), Bit(v, 2), Bit(v, 1)]
  }

  function Sextets(q: Octets): (bits: seq<bool>)
    ensures |bits| == 6 * |q|
  {
    if |q| == 0 then [] else Sextet(q[0]) + Sextets(q[1..])
  }

  lemma ByteOfFirst(s0: bv8, s1: bv8)
    requires s0 < 64 && s1 < 64
    ensures var b := D0(s0, s1);
            && Bit(b, 0x80) == Bit(s0, 0x20) && Bit(b, 0x40) == Bit(s0, 0x10) && Bit(b, 0x20) == Bit(s0, 8)
            && Bit(b, 0x10) == Bit(s0, 4) && Bit(b, 8) == Bit(s0, 2) && Bit(b, 4) == Bit(s0, 1)
            && Bit(b, 2) == Bit(s1, 0x20) && Bit(b, 1) == Bit(s1, 0x10)
  {
  }

  lemma ByteOfSecond(s1: bv8, s2: bv8)
    requires s1 < 64 && s2 < 64
    ensures var b := D1(s1, s2);
            && Bit(b, 0x80) == Bit(s1, 8) && Bit(b, 0x40) == Bit(s1, 4) && Bit(b, 0x20) == Bit(s1, 2)
            && Bit(b, 0x10) == Bit(s1, 1) && Bit(b, 8) == Bit(s2, 0x20) && Bit(b, 4) == Bit(s2, 0x10)
            && Bit(b, 2) == Bit(s2, 8) && Bit(b, 1) == Bit(s2, 4)
  {
  }

  lemma ByteOfThird(s2: bv8, s3: bv8)
    requires s2 < 64 && s3 < 64
    ensures var b := D2(s2, s3);
            && Bit(b, 0x80) == Bit(s2, 2) && Bit(b, 0x40) == Bit(s2, 1) && Bit(b, 0x20) == Bit(s3, 0x20)
            && Bit(b, 0x10) == Bit(s3, 0x10) && Bit(b, 8) == Bit(s3, 8) && Bit(b, 4) == Bit(s3, 4)
            && Bit(b, 2) == Bit(s3, 2) && Bit(b, 1) == Bit(s3, 1)
  {
  }

  lemma SextetsStep(c: bv8, rest: Octets)
    ensures Sextets([c] + rest) == Sextet(c) + Sextets(rest)
  {
    hide Sextet;
    assert ([c] + rest)[1..] == rest;
  }

  lemma SextetsOfFour(a: bv8, b: bv8, c: bv8, d: bv8)
    ensures Sextets([a, b]) == Sextet(a) + Sextet(b)
    ensures Sextets([a, b, c]) == Sextet(a) + Sextet(b) + Sextet(c)
    ensures Sextets([a, b, c, d]) == Sextet(a) + Sextet(b) + Sextet(c) + Sextet(d)
  {
    hide Sextet;
    assert [a] + [b] == [a, b] && [a] + [b, c] == [a, b, c] && [a] + [b, c, d] == [a, b, c, d];
    assert [b] + [c] == [b, c] && [b] + [c, d] == [b, c, d] && [c] + [d] == [c, d];
    SextetsStep(a, [b]);
    SextetsStep(a, [b, c]);
    SextetsStep(a, [b, c, d]);
    SextetsStep(b, [c]);
    SextetsStep(b, [c, d]);
    SextetsStep(c, [d]);
  }

  lemma {:induction false} SextetsOfConcat(a: Octets, b: Octets)
    ensures Sextets(a + b) == Sextets(a) + Sextets(b)
    decreases |a|
  {
    hide Sextet;
    if |a| == 0 {
      assert a + b == b;
    } else {
      assert (a + b)[1..] == a[1..] + b;
      SextetsOfConcat(a[1..], b);
    }
  }

  lemma SextetIs(c: bv8)
    ensures var g, v := Sextet(c), Value(c);
            && g[0] == Bit(v, 0x20) && g[1] == Bit(v, 0x10) && g[2] == Bit(v, 8)
            && g[3] == Bit(v, 4) && g[4] == Bit(v, 2) && g[5] == Bit(v, 1)
  {
    hide Bit, Value;
  }

  lemma EightFlags(b: bv8, r: seq<bool>)
    requires |r| == 8
    requires r[0] == Bit(b, 0x80) && r[1] == Bit(b, 0x40) && r[2] == Bit(b, 0x20) && r[3] == Bit(b, 0x10)
    requires r[4] == Bit(b, 8) && r[5] == Bit(b, 4) && r[6] == Bit(b, 2) && r[7] == Bit(b, 1)
    ensures ByteBits(b) == r
  {
    hide Bit;
  }

  lemma FindIsValue(a: bv8, b: bv8)
    requires IsLetter(a) && IsLetter(b)
    ensures Find(a) == Value(a) < 64 && Find(b) == Value(b) < 64
  {
    hide Value;
    ValueRoundTrip(a);
    ValueRoundTrip(b);
  }

  lemma FirstByte(a: bv8, b: bv8)
    requires IsLetter(a) && IsLetter(b)
    ensures ByteBits(A0(Find(a), Find(b))) == Sextet(a) + Sextet(b)[..2]
  {
    hide IsLetter, Value, Find, Bit, Sextet, A0, A1, A2, D0, D1, D2, ByteBits;
    FindIsValue(a, b);
    SameBytes(Value(a), Value(b), 0, 0);
    ByteOfFirst(Value(a), Value(b));
    SextetIs(a);
    SextetIs(b);
    EightFlags(A0(Find(a), Find(b)), Sextet(a) + Sextet(b)[..2]);
  }

  lemma SecondByte(a: bv8, b: bv8)
    requires IsLetter(a) && IsLetter(b)
    ensures ByteBits(A1(Find(a), Find(b))) == Sextet(a)[2..] + Sextet(b)[..4]
  {
    hide IsLetter, Value, Find, Bit, Sextet, A0, A1, A2, D0, D1, D2, ByteBits;
    FindIsValue(a, b);
    SameBytes(0, Value(a), Value(b), 0);
    ByteOfSecond(Value(a), Value(b));
    SextetIs(a);
    SextetIs(b);
    EightFlags(A1(Find(a), Find(b)), Sextet(a)[2..] + Sextet(b)[..4]);
  }

  lemma ThirdByte(a: bv8, b: bv8)
    requires IsLetter(a) && IsLetter(b)
    ensures ByteBits(A2(Find(a), Find(b))) == Sextet(a)[4..] + Sextet(b)
  {
    hide IsLetter, Value, Find, Bit, Sextet, A0, A1, A2, D0, D1, D2, ByteBits;
    FindIsValue(a, b);
    SameBytes(0, 0, Value(a), Value(b));
    ByteOfThird(Value(a), Value(b));
    SextetIs(a);
    SextetIs(b);
    EightFlags(A2(Find(a), Find(b)), Sextet(a)[4..] + Sextet(b));
  }

  lemma Rejoin(a: seq<bool>, b: seq<bool>, c: seq<bool>, d: seq<bool>)
    requires Six(a) && Six(b) && Six(c) && Six(d)
    ensures (a + b[..2]) + (b[2..] + c[..4]) + (c[4..] + d) == a + b + c + d
    ensures a + b[..2] == (a + b)[..8] && (a + b[..2]) + (b[2..] + c[..4]) == (a + b + c)[..16]
  {
  }

  lemma FourAccumulate(q: Octets)
    requires |q| == 4 && LettersBelow(q, 4)
    ensures Bits(AccumulateLetters(q)) == Sextets(q) && |AccumulateLetters(q)| == 3
  {
    hide IsLetter, Find, A0, A1, A2, ByteBits, Sextet, Bits, Sextets;
    var x, y, z := A0(Find(q[0]), Find(q[1])), A1(Find(q[1]), Find(q[2])), A2(Find(q[2]), Find(q[3]));
    assert q == [q[0], q[1], q[2], q[3]];
    FirstByte(q[0], q[1]);
    SecondByte(q[1], q[2]);
    ThirdByte(q[2], q[3]);
    SextetsOfFour(q[0], q[1], q[2], q[3]);
    BitsOfThree(x, y, z);
    Rejoin(Sextet(q[0]), Sextet(q[1]), Sextet(q[2]), Sextet(q[3]));
    assert AccumulateLetters(q[4..]) == [];
    assert AccumulateLetters(q) == [x, y, z];
  }

  lemma TwoAccumulate(a: bv8, b: bv8)
    requires IsLetter(a) && IsLetter(b)
    ensures AccumulateLetters([a, b]) == [A0(Find(a), Find(b))]
    ensures Bits(AccumulateLetters([a, b])) == Sextets([a, b])[..8]
  {
    hide IsLetter, Find, A0, A1, A2, ByteBits, Sextet, Bits, Sextets;
    FirstByte(a, b);
    SextetsOfFour(a, b, a, a);
    BitsOfThree(A0(Find(a), Find(b)), 0, 0);
    Rejoin(Sextet(a), Sextet(b), Sextet(a), Sextet(a));
  }

  lemma ThreeAccumulate(a: bv8, b: bv8, c: bv8)
    requires IsLetter(a) && IsLetter(b) && IsLetter(c)
    ensures AccumulateLetters([a, b, c]) == [A0(Find(a), Find(b)), A1(Find(b), Find(c))]
    ensures Bits(AccumulateLetters([a, b, c])) == Sextets([a, b, c])[..16]
  {
    hide IsLetter, Find, A0, A1, A2, ByteBits, Sextet, Bits, Sextets;
    FirstByte(a, b);
    SecondByte(b, c);
    SextetsOfFour(a, b, c, a);
    BitsOfThree(A0(Find(a), Find(b)), A1(Find(b), Find(c)), 0);
    Rejoin(Sextet(a), Sextet(b), Sextet(c), Sextet(a));
  }

  lemma FewAccumulate(q: Octets)
    requires |q| < 4 && LettersBelow(q, |q|)
    ensures |AccumulateLetters(q)| == 6 * |q| / 8
    ensures Bits(AccumulateLetters(q)) == Sextets(q)[..8 * (6 * |q| / 8)]
  {
    hide IsLetter, Find, A0, A1, A2, ByteBits, Sextet, Bits, Sextets;
    if |q| <= 1 {
      NoBits([]);
    } else if |q| == 2 {
      assert q == [q[0], q[1]];
      TwoAccumulate(q[0], q[1]);
    } else {
      assert q == [q[0], q[1], q[2]];
      ThreeAccumulate(q[0], q[1], q[2]);
    }
  }

  /** Whatever the string: the accumulator returns the whole bytes in the bits of the letters before the first
      character that is none, six bits each. */
  lemma {:induction false} AccumulateIsWholeBytes(q: Octets)
    requires LettersBelow(q, |q|)
    ensures |AccumulateLetters(q)| == 6 * |q| / 8
    ensures Bits(AccumulateLetters(q)) == Sextets(q)[..8 * (6 * |q| / 8)]
    decreases |q|
  {
    hide IsLetter, Find, A0, A1, A2, Sextets, Bits;
    if |q| < 4 {
      FewAccumulate(q);
    } else {
      var f, rest := q[..4], q[4..];
      FourAccumulate(f);
      assert forall i :: 0 <= i < |rest| ==> rest[i] == q[i + 4];
      AccumulateIsWholeBytes(rest);
      assert q == f + rest;
      SextetsOfConcat(f, rest);
      assert AccumulateLetters(f[4..]) == [];
      assert AccumulateLetters(q) == AccumulateLetters(f) + AccumulateLetters(rest);
      BitsOfConcat(AccumulateLetters(f), AccumulateLetters(rest));
      assert 6 * |q| / 8 == 3 + 6 * |rest| / 8;
    }
  }

  /** And the letters are all those before that character. */
  lemma {:induction false} LettersUpTo(s: Octets, k: nat)
    requires k <= |s| && LettersBelow(s, k) && (k == |s| || !IsLetter(s[k]))
    ensures LettersOf(s) == s[..k]
  {
    hide IsLetter;
    if k > 0 {
      LettersUpTo(s[1..], k - 1);
      assert s[..k] == [s[0]] + s[1..][..k - 1];
    }
  }

  lemma AccumulateExactly(s: Octets, k: nat)
    requires k <= |s| && LettersBelow(s, k) && (k == |s| || !IsLetter(s[k]))
    ensures |Accumulate(s)| == 6 * k / 8 && Bits(Accumulate(s)) == Sextets(s[..k])[..8 * (6 * k / 8)]
  {
    hide IsLetter, LettersOf, AccumulateLetters;
    LettersUpTo(s, k);
    AccumulateIsWholeBytes(s[..k]);
  }
}
