/** The loops of both base64 implementations: buffers filled in place, block by block or byte by byte. */
module Base64Loops {
  import opened BitStrings
  import opened Bytes
  import opened Base64

  // ----- bufferhelper.cpp -----

  /** base64EncodeBlock: four characters written at a place of the output buffer. */
  method EncodeBlockInto(block: Octets, out: array<bv8>, at: nat)
    requires 1 <= |block| <= 3 && at + 4 <= out.Length
    modifies out
    ensures out[..] == old(out[..at]) + EncodeBlock(block) + old(out[at + 4..])
  {
    hide Letter, S0, S1, S2, S3;
    var len := |block|;
    out[at] := Letter(S0(block[0]));
    out[at + 1] := Letter(S1(block[0], if len > 1 then block[1] else 0));
    out[at + 2] := if len > 1 then Letter(S2(block[1], if len > 2 then block[2] else 0)) else PAD;
    out[at + 3] := if len > 2 then Letter(S3(block[2])) else PAD;
  }

  /** toBase64: the result has its full size from the start. */
  method ToBase64(buf: Octets) returns (result: Octets)
    ensures result == Encode(buf)
  {
    hide EncodeBlock, Encode;
    var out := new bv8[(|buf| + 2) / 3 * 4](_ => 0);
    var resultLen := 0;
    var i := 0;
    EncodeNothing();
    while i < |buf|
      invariant 0 <= i <= |buf| && (i % 3 == 0 || i == |buf|)
      invariant resultLen == (i + 2) / 3 * 4 <= out.Length
      invariant out[..resultLen] == Encode(buf[..i])
    {
      var len := |buf| - i;
      if len > 3 {
        len := 3;
      }
      resultLen := resultLen + 4;
      var block := buf[i..i + len];
      EncodeMore(buf, i, len);
      ghost var before := out[..];
      EncodeBlockInto(block, out, resultLen - 4);
      assert out[..resultLen] == before[..resultLen - 4] + EncodeBlock(block);
      i := i + len;
    }
    assert buf[..i] == buf;
    result := out[..];
  }

  /** base64DecodeBlock: the characters are checked, counted, and replaced by their values in place. */
  method DecodeBlockSteps(q: Octets) returns (r: Result<Octets, Trouble>)
    requires |q| == 4
    ensures r == DecodeBlock(q)
  {
    hide IsLetter, Value, D0, D1, D2;
    for i := 0 to 4
      invariant forall j :: 0 <= j < i ==> IsLetter(q[j]) || (j >= 2 && q[j] == PAD)
    {
      if !(IsLetter(q[i]) || (i >= 2 && q[i] == PAD)) {
        return Err(BadCharacter);
      }
    }
    var len := 3;
    if q[2] == PAD {
      if q[3] == PAD {
        len := 1;
      } else {
        return Err(PadExpected);
      }
    } else if q[3] == PAD {
      len := 2;
    }
    var tin := new bv8[4](i requires 0 <= i < 4 => q[i]);
    for i := 0 to 4
      invariant forall j :: 0 <= j < i ==> tin[j] == Value(q[j])
      invariant forall j :: i <= j < 4 ==> tin[j] == q[j]
    {
      tin[i] := ValueSteps(tin[i]);
    }
    var out := [D0(tin[0], tin[1]), D1(tin[1], tin[2]), D2(tin[2], tin[3])];
    assert out[..1] == [out[0]] && out[..2] == [out[0], out[1]] && out[..3] == out;
    r := Ok(out[..len]);
  }

  /** The nested range tests on one character. */
  method ValueSteps(c: bv8) returns (t: bv8)
    ensures t == Value(c)
  {
    t := c;
    if t >= 0x41 && t <= 0x5A {
      t := t - 0x41;
    } else {
      if t >= 0x61 && t <= 0x7A {
        t := t - (0x61 - (0x5A - 0x41 + 1));
      } else {
        if t >= 0x30 && t <= 0x39 {
          t := t - (0x30 - (0x5A - 0x41 + 1) - (0x7A - 0x61 + 1));
        } else {
          if t == 0x2B {
            t := 62;
          } else {
            if t == 0x2F {
              t := 63;
            } else {
              t := 0;
            }
          }
        }
      }
    }
  }

  /** fromBase64: block by block, stopping after a padded one. */
  method FromBase64(s: Octets) returns (r: Result<Octets, Trouble>)
    ensures r == Decode(s)
  {
    hide DecodeBlock, DecodeBlocks;
    if |s| % 4 != 0 {
      return Err(NotFours);
    }
    var result: Octets := [];
    var i := 0;
    assert s[0..] == s;
    assert Decode(s).Ok? ==> [] + Decode(s).value == Decode(s).value;
    while i < |s|
      invariant 0 <= i <= |s| && i % 4 == 0
      invariant Decode(s) == After(result, DecodeBlocks(s[i..]))
    {
      DecodeBlocksStep(s, i, result);
      var tmp := DecodeBlockSteps(s[i..i + 4]);
      if tmp.Err? {
        return tmp;
      }
      result := result + tmp.value;
      if |tmp.value| < 3 {
        return Ok(result);
      }
      i := i + 4;
    }
    DecodeNoBlocks(result);
    assert s[i..] == [];
    return Ok(result);
  }

  function After(done: Octets, r: Result<Octets, Trouble>): Result<Octets, Trouble> {
    match r case Err(e) => Err(e) case Ok(rest) => Ok(done + rest)
  }

  lemma DecodeBlocksStep(s: Octets, i: nat, done: Octets)
    requires |s| % 4 == 0 && i % 4 == 0 && i < |s|
    ensures After(done, DecodeBlocks(s[i..])) ==
            match DecodeBlock(s[i..i + 4])
            case Err(e) => Err(e)
            case Ok(bytes) =>
              if |bytes| < 3 then Ok(done + bytes) else After(done + bytes, DecodeBlocks(s[i + 4..]))
  {
    hide DecodeBlock;
    assert s[i..][..4] == s[i..i + 4] && s[i..][4..] == s[i + 4..];
    var first, later := DecodeBlock(s[i..i + 4]), DecodeBlocks(s[i + 4..]);
    assert first.Ok? && later.Ok? ==> done + (first.value + later.value) == done + first.value + later.value;
  }

  lemma DecodeNoBlocks(done: Octets)
    ensures After(done, DecodeBlocks([])) == Ok(done)
  {
    assert done + [] == done;
  }

  // ----- utils.cpp -----

  function T0(a: bv8): bv8 { (a & 0xFC) >> 2 }
  function T1(a: bv8, b: bv8): bv8 { ((a & 0x03) << 4) + ((b & 0xF0) >> 4) }
  function T2(b: bv8, c: bv8): bv8 { ((b & 0x0F) << 2) + ((c & 0xC0) >> 6) }

  lemma SumsAreOrs(a: bv8, b: bv8, c: bv8)
    ensures T0(a) == S0(a) && T1(a, b) == S1(a, b) && T2(b, c) == S2(b, c)
  {
  }

  /** The four sums of the accumulator, one letter each. */
  method FourLetters(three: array<bv8>, four: array<bv8>)
    requires three.Length == 3 && four.Length == 4 && three != four
    modifies four
    ensures four[..] == [S0(three[0]), S1(three[0], three[1]), S2(three[1], three[2]), S3(three[2])]
  {
    hide S0, S1, S2, S3, T0, T1, T2;
    SumsAreOrs(three[0], three[1], three[2]);
    four[0] := T0(three[0]);
    four[1] := T1(three[0], three[1]);
    four[2] := T2(three[1], three[2]);
    four[3] := S3(three[2]);
  }

  /** The first n of four letters. */
  method AppendLetters(ret: Octets, four: array<bv8>, n: nat) returns (r: Octets)
    requires n <= four.Length == 4
    ensures r == ret + [Letter(four[0]), Letter(four[1]), Letter(four[2]), Letter(four[3])][..n]
  {
    hide Letter;
    r := ret;
    ghost var all := [Letter(four[0]), Letter(four[1]), Letter(four[2]), Letter(four[3])];
    for j := 0 to n
      invariant r == ret + all[..j]
    {
      assert all[j] == Letter(four[j]);
      r := r + [Letter(four[j])];
    }
  }

  method AppendPads(ret: Octets, n: nat) returns (r: Octets)
    ensures r == ret + Pads(n)
  {
    r := ret;
    for j := 0 to n
      invariant r == ret + Pads(j)
    {
      r := r + [PAD];
    }
  }

  lemma BlockByAccumulator(block: Octets, i: nat, three: Octets)
    requires 1 <= i <= 3 && |block| == i && |three| == 3
    requires (forall m :: 0 <= m < i ==> three[m] == block[m]) && (forall m :: i <= m < 3 ==> three[m] == 0)
    ensures var s0, s1, s2, s3 := S0(three[0]), S1(three[0], three[1]), S2(three[1], three[2]), S3(three[2]);
            EncodeBlock(block) == [Letter(s0), Letter(s1), Letter(s2), Letter(s3)][..i + 1] + Pads(3 - i)
  {
    hide Letter, S0, S1, S2, S3;
  }

  /** Writes the i bytes collected in three, which is filled up with zeros. */
  method FlushBytes(ret: Octets, three: array<bv8>, four: array<bv8>, i: nat) returns (r: Octets)
    requires 1 <= i <= 3 && three.Length == 3 && four.Length == 4 && three != four
    modifies three, four
    ensures r == ret + EncodeBlock(old(three[..i]))
  {
    hide Letter, S0, S1, S2, S3, EncodeBlock;
    ghost var block := three[..i];
    for j := i to 3
      invariant three[..i] == block
      invariant forall m :: i <= m < j ==> three[m] == 0
    {
      three[j] := 0;
    }
    FourLetters(three, four);
    assert three[..][..i] == block;
    BlockByAccumulator(block, i, three[..]);
    ghost var all := [Letter(four[0]), Letter(four[1]), Letter(four[2]), Letter(four[3])];
    r := AppendLetters(ret, four, i + 1);
    r := AppendPads(r, 3 - i);
    assert r == ret + (all[..i + 1] + Pads(3 - i));
  }

  lemma Collected(data: Octets, k: nat, i: nat)
    requires i <= k < |data|
    ensures data[k - i..k + 1] == data[k - i..k] + [data[k]] && data[..k + 1] == data[..k - i] + data[k - i..k + 1]
  {
  }

  /** One more byte in a small buffer. */
  method Collect(a: array<bv8>, i: nat, b: bv8)
    requires i < a.Length
    modifies a
    ensures a[..i + 1] == old(a[..i]) + [b]
  {
    a[i] := b;
  }

  /** base64_encode: three bytes are collected, written as four letters, and collected anew. */
  method Base64Encode(data: Octets) returns (ret: Octets)
    ensures ret == Encode(data)
  {
    hide Encode, EncodeBlock;
    ret := [];
    var i := 0;
    var three, four := new bv8[3](_ => 0), new bv8[4](_ => 0);
    EncodeNothing();
    for k := 0 to |data|
      invariant i == k % 3
      invariant ret == Encode(data[..k - i])
      invariant three[..i] == data[k - i..k]
    {
      Collected(data, k, i);
      Collect(three, i, data[k]);
      i := i + 1;
      if i == 3 {
        EncodeMore(data, k - 2, 3);
        ret := FlushBytes(ret, three, four, 3);
        i := 0;
      }
    }
    if i != 0 {
      EncodeMore(data, |data| - i, i);
      ret := FlushBytes(ret, three, four, i);
    }
    assert data[..|data|] == data;
  }

  function Three(q: Octets): Octets
    requires |q| == 4
  {
    [A0(Find(q[0]), Find(q[1])), A1(Find(q[1]), Find(q[2])), A2(Find(q[2]), Find(q[3]))]
  }

  lemma AccumulateStep(q: Octets, rest: Octets)
    requires |q| == 4
    ensures AccumulateLetters(q + rest) == Three(q) + AccumulateLetters(rest)
  {
    hide Find, A0, A1, A2;
    assert (q + rest)[4..] == rest;
  }

  /** Whole groups and what follows them are accumulated one after the other. */
  lemma {:induction false} AccumulateRest(front: Octets, q: Octets)
    requires |front| % 4 == 0
    ensures AccumulateLetters(front + q) == AccumulateLetters(front) + AccumulateLetters(q)
    decreases |front|
  {
    hide AccumulateLetters, Three;
    if |front| == 0 {
      assert front + q == q;
      AccumulateFew(front);
    } else {
      assert front + q == front[..4] + (front[4..] + q) && front == front[..4] + front[4..];
      AccumulateStep(front[..4], front[4..] + q);
      AccumulateStep(front[..4], front[4..]);
      AccumulateRest(front[4..], q);
    }
  }

  lemma AccumulateFew(q: Octets)
    ensures |q| == 0 ==> AccumulateLetters(q) == []
    ensures |q| == 4 ==> AccumulateLetters(q) == Three(q)
  {
    hide Find, A0, A1, A2;
    if |q| == 4 {
      assert AccumulateLetters(q[4..]) == [];
    }
  }

  lemma AccumulateTail(q: Octets, four: Octets)
    requires 1 <= |q| <= 3 && |four| == 4
    requires (forall m :: 0 <= m < |q| ==> four[m] == q[m]) && (forall m :: |q| <= m < 4 ==> four[m] == 0)
    ensures Three(four)[..|q| - 1] == AccumulateLetters(q)
  {
    hide Find, A0, A1, A2;
  }

  /** The letters are replaced by their places in the alphabet, in place. */
  method FindFour(four: array<bv8>)
    requires four.Length == 4
    modifies four
    ensures four[..] == [Find(old(four[0])), Find(old(four[1])), Find(old(four[2])), Find(old(four[3]))]
  {
    hide Find;
    for i := 0 to 4
      invariant forall j :: 0 <= j < i ==> four[j] == Find(old(four[j]))
      invariant forall j :: i <= j < 4 ==> four[j] == old(four[j])
    {
      four[i] := Find(four[i]);
    }
  }

  method ThreeBytesOf(four: array<bv8>, three: array<bv8>)
    requires three.Length == 3 && four.Length == 4 && three != four
    modifies three
    ensures three[..] == [A0(four[0], four[1]), A1(four[1], four[2]), A2(four[2], four[3])]
  {
    hide A0, A1, A2;
    three[0] := A0(four[0], four[1]);
    three[1] := A1(four[1], four[2]);
    three[2] := A2(four[2], four[3]);
  }

  method AppendBytes(ret: Octets, three: array<bv8>, n: nat) returns (r: Octets)
    requires n <= three.Length
    ensures r == ret + three[..n]
  {
    r := ret;
    for j := 0 to n
      invariant r == ret + three[..j]
    {
      r := r + [three[j]];
    }
  }

  /** Writes what the i letters collected in four give: three bytes for four letters, else one less. */
  method FlushLetters(ret: Octets, three: array<bv8>, four: array<bv8>, i: nat) returns (r: Octets)
    requires 1 <= i <= 4 && three.Length == 3 && four.Length == 4 && three != four
    modifies three, four
    ensures r == ret + AccumulateLetters(old(four[..i]))
  {
    hide Find, A0, A1, A2, AccumulateLetters;
    ghost var q := four[..i];
    for j := i to 4
      invariant four[..i] == q
      invariant forall m :: i <= m < j ==> four[m] == 0
    {
      four[j] := 0;
    }
    assert four[..][..i] == q;
    if i == 4 {
      AccumulateFew(q);
    } else {
      AccumulateTail(q, four[..]);
    }
    FindFour(four);
    ThreeBytesOf(four, three);
    r := AppendBytes(ret, three, i - 1);
    assert i == 4 ==> three[..3] == three[..];
  }

  /** base64_decode: letters are collected by four until the first other character. */
  method Base64Decode(s: Octets) returns (ret: Octets)
    ensures ret == Accumulate(s)
  {
    hide IsLetter, LettersOf, AccumulateLetters;
    ret := [];
    var i, k := 0, 0;
    var three, four := new bv8[3](_ => 0), new bv8[4](_ => 0);
    AccumulateFew([]);
    while k < |s| && s[k] != PAD && IsLetter(s[k])
      invariant 0 <= k <= |s| && i == k % 4
      invariant forall j :: 0 <= j < k ==> IsLetter(s[j])
      invariant ret == AccumulateLetters(s[..k - i])
      invariant four[..i] == s[k - i..k]
    {
      Collected(s, k, i);
      Collect(four, i, s[k]);
      i := i + 1;
      k := k + 1;
      if i == 4 {
        AccumulateRest(s[..k - 4], s[k - 4..k]);
        ret := FlushLetters(ret, three, four, 4);
        i := 0;
      }
    }
    PadIsNoLetter();
    LettersUpTo(s, k);
    assert s[..k] == s[..k - i] + s[k - i..k];
    AccumulateRest(s[..k - i], s[k - i..k]);
    if i != 0 {
      ret := FlushLetters(ret, three, four, i);
    } else {
      AccumulateFew(s[k - i..k]);
    }
  }
}
