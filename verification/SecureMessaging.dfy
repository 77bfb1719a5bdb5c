/** ISO 24727 secure messaging as iso24727crypto.cpp performs it, with the block cipher, the MAC and the
    key derivation left abstract, against a card that follows section 6 of ISO/IEC 7816-4. */
module SecureMessaging {
  import opened Arithmetic
  import opened Bytes

  datatype SessionKeys = SessionKeys(enc: ByteVector, mac: ByteVector, ssc: ByteVector)

  /** The cipher (CBC with a null IV, no padding of its own), the MAC and the session key derivation.
      The first argument of enc, dec and mac is the key. */
  datatype Suite = Suite(
    blockSize: nat,
    enc: (ByteVector, ByteVector) -> ByteVector,
    dec: (ByteVector, ByteVector) -> ByteVector,
    mac: (ByteVector, ByteVector) -> ByteVector,
    derive: (ByteVector, ByteVector, ByteVector, ByteVector) -> SessionKeys)

  /** What is asked of them: deciphering undoes enciphering, lengths are kept, the MAC has 8 bytes,
      the send counter has 8 bytes. */
  ghost predicate Sound(s: Suite) {
    && (s.blockSize == 8 || s.blockSize == 16)
    && (forall k, x :: |x| % s.blockSize == 0 ==> |s.enc(k, x)| == |x| && |s.dec(k, x)| == |x| && s.dec(k, s.enc(k, x)) == x)
    && (forall k, x :: |s.mac(k, x)| == 8)
    && (forall a, b, c, d :: |s.derive(a, b, c, d).ssc| == 8)
  }

  datatype Error =
    | TooShort            // "too short" exceptions
    | OutOfRange          // the checked access at(0)
    | BadChecksum         // the MAC does not match
    | CipherFailure       // OpenSSL refuses a partial block
    | Undefined           // the code would read or pop outside its buffer

  // ----- padding (ISO/IEC 9797-1 method 2) -----

  function PadZeros(len: nat, padlen: nat): nat
    requires padlen > 0
  {
    (padlen - (len + 1) % padlen) % padlen
  }

  function Pad(data: ByteVector, padlen: nat): (out: ByteVector)
    requires padlen > 0
  {
    data + [0x80] + Zeros(PadZeros(|data|, padlen))
  }

  /** Drops bytes up to and including the last 0x80; none is left when there is no 0x80. */
  function Unpad(data: ByteVector): Option<ByteVector> {
    if |data| == 0 then None
    else if data[|data| - 1] == 0x80 then Some(data[..|data| - 1])
    else Unpad(data[..|data| - 1])
  }

  lemma PadZerosByRemainder(len: nat, padlen: nat)
    requires padlen > 0 && len > 0
    ensures PadZeros(len - 1, padlen) == if len % padlen == 0 then 0 else padlen - len % padlen
  {
  }

  lemma PadFillsBlocks(data: ByteVector, padlen: nat)
    requires padlen > 0
    ensures |Pad(data, padlen)| % padlen == 0
    ensures |data| < |Pad(data, padlen)| <= |data| + padlen
  {
    hide PadZeros;
    var n := |data| + 1;
    var q, r := n / padlen, n % padlen;
    PadZerosByRemainder(n, padlen);
    RemainderIsBelow(n, padlen);
    assert |Pad(data, padlen)| == n + PadZeros(|data|, padlen);
    if r > 0 {
      assert n + (padlen - r) == padlen * (q + 1);
      MultipleHasNoRemainder(padlen, q + 1);
    }
  }

  /** Padding method 2 of ISO/IEC 9797-1: the data, one 0x80, and the fewest zeros that fill a block. */
  predicate IsPadding(data: ByteVector, padlen: nat, out: ByteVector)
    requires padlen > 0
  {
    && |out| % padlen == 0 && |data| < |out| <= |data| + padlen
    && out[..|data|] == data && out[|data|] == 0x80
    && forall i :: |data| < i < |out| ==> out[i] == 0x00
  }

  /** pad is that padding and no other. */
  lemma PadIsMethod2(data: ByteVector, padlen: nat, out: ByteVector)
    requires padlen > 0
    ensures IsPadding(data, padlen, out) <==> out == Pad(data, padlen)
  {
    hide PadZeros;
    PadFillsBlocks(data, padlen);
    if IsPadding(data, padlen, out) {
      MultiplesApart(padlen, |out|, |Pad(data, padlen)|);
      assert forall i :: 0 <= i < |out| ==> out[i] == Pad(data, padlen)[i];
    }
  }

  /** The padded length. */
  lemma PadLength(data: ByteVector, padlen: nat)
    requires padlen > 0
    ensures |Pad(data, padlen)| == padlen * (|data| / padlen + 1)
  {
    hide Pad;
    var q, r := |data| / padlen, |data| % padlen;
    assert |data| == padlen * q + r;
    assert padlen * (q + 1) == padlen * q + padlen;
    PadFillsBlocks(data, padlen);
    MultipleHasNoRemainder(padlen, q + 1);
    MultiplesApart(padlen, |Pad(data, padlen)|, padlen * (q + 1));
  }

  /** For every byte string, padded or not: unpad gives what stands before the last 0x80, whatever stands
      behind it, and finds no end when there is none. */
  lemma {:induction false} UnpadExactlyWhen(data: ByteVector, x: ByteVector)
    ensures Unpad(data) == Some(x) <==>
            && |x| < |data| && data[..|x|] == x && data[|x|] == 0x80
            && forall i :: |x| < i < |data| ==> data[i] != 0x80
    ensures Unpad(data) == None <==> forall i :: 0 <= i < |data| ==> data[i] != 0x80
  {
    if |data| > 0 {
      var n := |data| - 1;
      UnpadExactlyWhen(data[..n], x);
      if data[n] != 0x80 && |x| < n {
        assert data[..n][..|x|] == data[..|x|];
      }
    }
  }

  lemma {:induction false} UnpadZeros(data: ByteVector, n: nat)
    ensures Unpad(data + [0x80] + Zeros(n)) == Some(data)
  {
    var padded := data + [0x80] + Zeros(n);
    if n == 0 {
      assert padded[..|padded| - 1] == data;
    } else {
      assert padded[..|padded| - 1] == data + [0x80] + Zeros(n - 1);
      UnpadZeros(data, n - 1);
    }
  }

  /** unpad undoes pad, for every byte string and every block length. */
  lemma UnpadUndoesPad(data: ByteVector, padlen: nat)
    requires padlen > 0
    ensures Unpad(Pad(data, padlen)) == Some(data)
  {
    UnpadZeros(data, PadZeros(|data|, padlen));
  }

  /** Hence pad loses nothing. */
  lemma PadIsInjective(a: ByteVector, b: ByteVector, padlen: nat)
    requires padlen > 0 && Pad(a, padlen) == Pad(b, padlen)
    ensures a == b
  {
    UnpadUndoesPad(a, padlen);
    UnpadUndoesPad(b, padlen);
  }

  // ----- the send sequence counter -----

  const COUNTER_MODULUS: nat := 0x1_0000_0000_0000_0000

  type Counter = c: ByteVector | |c| == 8 witness [0, 0, 0, 0, 0, 0, 0, 0]

  function IncrementSsc(c: Counter): (c': Counter) {
    ToBigEndian((BigEndian(c) + 1) % COUNTER_MODULUS, 8)
  }

  lemma PowerOfEight()
    ensures Power256(8) == COUNTER_MODULUS
  {
    assert Power256(4) == 0x1_0000_0000;
    assert Power256(8) == 256 * (256 * (256 * (256 * Power256(4))));
  }

  lemma IncrementCounts(c: Counter)
    ensures BigEndian(IncrementSsc(c)) == (BigEndian(c) + 1) % COUNTER_MODULUS
  {
    PowerOfEight();
    ToBigEndianSpells((BigEndian(c) + 1) % COUNTER_MODULUS, 8);
  }

  lemma {:induction false} CarryCounts(front: ByteVector, b: byte, k: nat)
    requires b < 255
    ensures BigEndian(front + [b + 1] + Zeros(k)) == BigEndian(front + [b] + AllOnes(k)) + 1
  {
    var x, y := front + [b] + AllOnes(k), front + [b + 1] + Zeros(k);
    if k == 0 {
      assert x[..|front|] == y[..|front|] == front;
    } else {
      CarryCounts(front, b, k - 1);
      assert x[..|x| - 1] == front + [b] + AllOnes(k - 1) && y[..|y| - 1] == front + [b + 1] + Zeros(k - 1);
    }
  }

  function AllOnes(n: nat): (z: ByteVector)
    ensures |z| == n
  {
    seq(n, _ => 0xFF)
  }

  lemma {:induction false} AllOnesCount(k: nat)
    ensures BigEndian(AllOnes(k)) == Power256(k) - 1 && BigEndian(Zeros(k)) == 0
  {
    if k > 0 {
      AllOnesCount(k - 1);
      assert AllOnes(k)[..k - 1] == AllOnes(k - 1) && Zeros(k)[..k - 1] == Zeros(k - 1);
    }
  }

  /** On the bytes: the last byte below 0xFF goes up by one and the 0xFF bytes behind it become zero;
      eight bytes 0xFF become eight zeros. */
  lemma IncrementCarries(front: ByteVector, b: byte, k: nat)
    ensures |front| + 1 + k == 8 && b < 255 ==>
              IncrementSsc(front + [b] + seq(k, _ => 0xFF)) == front + [b + 1] + seq(k, _ => 0x00)
    ensures IncrementSsc([0xFF, 0xFF, 0xFF, 0xFF, 0xFF, 0xFF, 0xFF, 0xFF]) == [0, 0, 0, 0, 0, 0, 0, 0]
  {
    hide IncrementSsc, BigEndian;
    PowerOfEight();
    if |front| + 1 + k == 8 && b < 255 {
      var x, y := front + [b] + AllOnes(k), front + [b + 1] + Zeros(k);
      CarryCounts(front, b, k);
      BigEndianBound(y);
      IncrementCounts(x);
      BigEndianIsInjective(IncrementSsc(x), y);
      assert x == front + [b] + seq(k, _ => 0xFF) && y == front + [b + 1] + seq(k, _ => 0x00);
    }
    AllOnesCount(8);
    IncrementCounts(AllOnes(8));
    BigEndianIsInjective(IncrementSsc(AllOnes(8)), Zeros(8));
    assert AllOnes(8) == [0xFF, 0xFF, 0xFF, 0xFF, 0xFF, 0xFF, 0xFF, 0xFF];
  }

  // ----- wrapping a command (encrypt_apdu) -----

  /** Whether the code takes the APDU to end in an Le byte. */
  predicate HasLe(apdu: ByteVector)
    requires |apdu| >= 4
  {
    |apdu| > 4 && |apdu| - 4 != apdu[4] as int + 1
  }

  /** Whether the code takes the APDU to carry data. */
  predicate HasData(apdu: ByteVector)
    requires |apdu| >= 4
  {
    |apdu| > 4 && |apdu| - 4 >= apdu[4] as int + 1
  }

  /** The bytes the code enciphers: after Lc, but from Lc on when there is also an Le byte. */
  function OriginalData(apdu: ByteVector): ByteVector
    requires |apdu| >= 4
  {
    if HasLe(apdu) then if HasData(apdu) then apdu[4..|apdu| - 1] else []
    else if HasData(apdu) then apdu[5..]
    else []
  }

  /** The class byte with the two secure messaging bits set. */
  function SecureCla(cla: byte): byte { ((cla as bv8) | 0x0c) as int }

  function SecureHeader(apdu: ByteVector): (h: ByteVector)
    requires |apdu| >= 4
    ensures |h| == 4
  {
    [SecureCla(apdu[0]), apdu[1], apdu[2], apdu[3]]
  }

  /** The data object: DO87 with its padding indicator for even instructions, DO85 for odd ones.
      The length is whatever fits one byte. */
  function DataObject(ins: byte, cryptogram: ByteVector): ByteVector {
    if ins % 2 == 0 then [0x87, (|cryptogram| + 1) % 256, 0x01] + cryptogram
    else [0x85, |cryptogram| % 256] + cryptogram
  }

  function Cryptogram(s: Suite, key: ByteVector, data: ByteVector): ByteVector
    requires s.blockSize > 0
  {
    s.enc(key, Pad(data, s.blockSize))
  }

  function DataPart(s: Suite, key: ByteVector, apdu: ByteVector): ByteVector
    requires s.blockSize > 0 && |apdu| >= 4
  {
    if HasData(apdu) then DataObject(apdu[1], Cryptogram(s, key, OriginalData(apdu))) else []
  }

  function LePart(apdu: ByteVector): ByteVector
    requires |apdu| >= 4
  {
    if HasLe(apdu) then [0x97, 0x01, apdu[|apdu| - 1]] else []
  }

  /** The MAC over the incremented counter, the padded header and the data objects. */
  function CommandMac(s: Suite, key: ByteVector, ssc: Counter, header: ByteVector, objects: ByteVector): ByteVector
    requires s.blockSize > 0
  {
    s.mac(key, Pad(IncrementSsc(ssc) + Pad(header, s.blockSize) + objects, s.blockSize))
  }

  /** The MAC of a command is taken over the counter plus one, as eight bytes, the padded header and the
      data objects, all of it padded: section 6 of ISO/IEC 7816-4 with a send sequence counter. */
  lemma CommandMacInput(s: Suite, key: ByteVector, ssc: Counter, header: ByteVector, objects: ByteVector,
                        next: Counter, h: ByteVector, m: ByteVector)
    requires s.blockSize > 0 && IsPadding(header, s.blockSize, h) && IsPadding(next + h + objects, s.blockSize, m)
    requires BigEndian(next) == (BigEndian(ssc) + 1) % 0x1_0000_0000_0000_0000
    ensures CommandMac(s, key, ssc, header, objects) == s.mac(key, m)
  {
    hide IncrementSsc, Pad, IsPadding;
    IncrementCounts(ssc);
    BigEndianIsInjective(IncrementSsc(ssc), next);
    PadIsMethod2(header, s.blockSize, h);
    PadIsMethod2(next + h + objects, s.blockSize, m);
  }

  function EncryptApdu(s: Suite, encKey: ByteVector, macKey: ByteVector, ssc: Counter, apdu: ByteVector): Result<ByteVector, Error>
    requires s.blockSize > 0
  {
    if |apdu| < 4 then Err(TooShort)
    else
      var header := SecureHeader(apdu);
      var objects := DataPart(s, encKey, apdu) + LePart(apdu);
      var macObject := [0x8E, 0x08] + CommandMac(s, macKey, ssc, header, objects);
      Ok(header + [|objects + macObject| % 256] + objects + macObject + [0])
  }

  // ----- the card's reading of a wrapped command, from the standard's side -----

  datatype Command = Command(cla: byte, ins: byte, p1: byte, p2: byte, data: ByteVector, le: Option<byte>)

  datatype Object = Object(tag: byte, value: ByteVector)

  /** The length field of section 5.2.2.2 of ISO/IEC 7816-4 behind a one-byte tag: one byte up to 127, or
      0x81 to 0x84 and as many bytes as that says; any other first byte is no length.  The result is the
      size of tag and length, and the length. */
  function LengthField(body: ByteVector): (f: Option<(nat, nat)>)
    ensures f.Some? ==> f.value.0 >= 2
  {
    if |body| < 2 then None
    else if body[1] < 0x80 then Some((2, body[1]))
    else
      var n := body[1] - 0x80;
      if 1 <= n <= 4 && |body| >= 2 + n then Some((2 + n, BigEndian(body[2..2 + n]))) else None
  }

  /** The same field as the standard's writer forms it, in its shortest form, for lengths below 2^32. */
  function BerLength(n: nat): ByteVector {
    if n < 0x80 then [n]
    else if n < 0x100 then [0x81] + ToBigEndian(n, 1)
    else if n < 0x1_0000 then [0x82] + ToBigEndian(n, 2)
    else if n < 0x100_0000 then [0x83] + ToBigEndian(n, 3)
    else [0x84] + ToBigEndian(n, 4)
  }

  /** A string of data objects with one-byte tags. */
  function ParseObjects(body: ByteVector): Option<seq<Object>>
    decreases |body|
  {
    if |body| == 0 then Some([])
    else match LengthField(body)
      case None => None
      case Some((header, length)) =>
        if |body| < header + length then None
        else match ParseObjects(body[header + length..])
          case None => None
          case Some(rest) => Some([Object(body[0], body[header..header + length])] + rest)
  }

  lemma BerLengthIsRead(tag: byte, n: nat, rest: ByteVector)
    requires n < 0x1_0000_0000
    ensures LengthField([tag] + BerLength(n) + rest) == Some((1 + |BerLength(n)|, n))
  {
    var body := [tag] + BerLength(n) + rest;
    if n >= 0x80 {
      var k := if n < 0x100 then 1 else if n < 0x1_0000 then 2 else if n < 0x100_0000 then 3 else 4;
      PowersOf256();
      assert body[2..2 + k] == ToBigEndian(n, k);
      ToBigEndianSpells(n, k);
    }
  }

  lemma PowersOf256()
    ensures Power256(1) == 0x100 && Power256(2) == 0x1_0000 && Power256(3) == 0x100_0000 && Power256(4) == 0x1_0000_0000
  {
    assert Power256(1) == 256 * Power256(0);
    assert Power256(2) == 256 * Power256(1);
    assert Power256(3) == 256 * Power256(2);
  }

  /** The cryptogram in the data object that belongs to the instruction, if it has the right form. */
  function CryptogramOf(ins: byte, o: Object): Option<ByteVector> {
    if ins % 2 == 0 then
      if o.tag == 0x87 && |o.value| > 0 && o.value[0] == 0x01 then Some(o.value[1..]) else None
    else
      if o.tag == 0x85 then Some(o.value) else None
  }

  function Decipher(s: Suite, key: ByteVector, cryptogram: ByteVector): Option<ByteVector>
    requires s.blockSize > 0
  {
    if |cryptogram| % s.blockSize != 0 then None else Unpad(s.dec(key, cryptogram))
  }

  /** Data and Le from the objects before the MAC object. */
  function Fields(s: Suite, key: ByteVector, ins: byte, objects: seq<Object>): Option<(ByteVector, Option<byte>)>
    requires s.blockSize > 0
  {
    if |objects| == 0 then Some(([], None))
    else
      var last := objects[|objects| - 1];
      if last.tag == 0x97 then
        if |last.value| != 1 then None
        else match Fields(s, key, ins, objects[..|objects| - 1])
          case Some((data, None)) => Some((data, Some(last.value[0])))
          case _ => None
      else if |objects| != 1 then None
      else match CryptogramOf(ins, last)
        case None => None
        case Some(c) =>
          match Decipher(s, key, c)
          case None => None
          case Some(data) => Some((data, None))
  }

  /** What a card that follows the standard reads out of a wrapped command, and whether it accepts it. */
  function CardUnwrap(s: Suite, encKey: ByteVector, macKey: ByteVector, ssc: Counter, cmd: ByteVector): Option<Command>
    requires s.blockSize > 0
  {
    if |cmd| < 6 || |cmd| != 6 + cmd[4] as int || cmd[|cmd| - 1] != 0 || (cmd[0] as bv8) & 0x0c != 0x0c then None
    else
      var header, body := cmd[..4], cmd[5..|cmd| - 1];
      match ParseObjects(body)
      case None => None
      case Some(objects) =>
        if |body| < 10 || |objects| == 0 || objects[|objects| - 1] != Object(0x8E, body[|body| - 8..]) then None
        else if body[|body| - 10] != 0x8E || body[|body| - 9] != 0x08 then None
        else if CommandMac(s, macKey, ssc, header, body[..|body| - 10]) != body[|body| - 8..] then None
        else match Fields(s, encKey, header[1], objects[..|objects| - 1])
          case None => None
          case Some((data, le)) => Some(Command(header[0], header[1], header[2], header[3], data, le))
  }

  /** What the code's classification makes of an APDU. */
  function Seen(apdu: ByteVector): Command
    requires |apdu| >= 4
  {
    Command(SecureCla(apdu[0]), apdu[1], apdu[2], apdu[3], OriginalData(apdu),
            if HasLe(apdu) then Some(apdu[|apdu| - 1]) else None)
  }

  /** Lc of the wrapped command before it is cut to a byte. */
  function WrappedLength(s: Suite, apdu: ByteVector): nat
    requires s.blockSize > 0 && |apdu| >= 4
  {
    (if !HasData(apdu) then 0 else |Pad(OriginalData(apdu), s.blockSize)| + if apdu[1] % 2 == 0 then 3 else 2) +
    (if HasLe(apdu) then 3 else 0) + 10
  }

  /** The length of the data object the code writes, before it is cut to a byte. */
  function ObjectLength(s: Suite, apdu: ByteVector): nat
    requires s.blockSize > 0 && |apdu| >= 4
  {
    |Pad(OriginalData(apdu), s.blockSize)| + if apdu[1] % 2 == 0 then 1 else 0
  }

  /** There is no data object, or its length is written as the standard has it. */
  predicate ShortObject(s: Suite, apdu: ByteVector)
    requires s.blockSize > 0 && |apdu| >= 4
  {
    HasData(apdu) ==> ObjectLength(s, apdu) <= 127
  }

  // ----- the card reads what was wrapped -----

  lemma SecureClaIsSecure(cla: byte)
    ensures (SecureCla(cla) as bv8) & 0x0c == 0x0c
    ensures SecureCla(SecureCla(cla)) == SecureCla(cla)
  {
    ByteRoundTrip((cla as bv8) | 0x0c);
  }

  lemma NextByte(b: bv8)
    requires b != 0xFF
    ensures (b + 1) as int == b as int + 1
  {
  }

  lemma {:induction false} IsSomeByte(c: byte) returns (b: bv8)
    ensures b as int == c
  {
    if c == 0 {
      b := 0;
    } else {
      b := IsSomeByte(c - 1);
      NextByte(b);
      b := b + 1;
    }
  }

  lemma ThirdBit(b: bv8)
    ensures (b as int) / 4 % 2 == 0 <==> b & 4 == 0
  {
    assert ((b >> 2) & 1 == 0) <==> b & 4 == 0;
  }

  lemma FourthBit(b: bv8)
    ensures (b as int) / 8 % 2 == 0 <==> b & 8 == 0
  {
    assert ((b >> 3) & 1 == 0) <==> b & 8 == 0;
  }

  lemma OrIsSum(b: bv8)
    ensures (b | 0x0c) as int == b as int + (if b & 4 == 0 then 4 else 0) + (if b & 8 == 0 then 8 else 0)
  {
    assert (b | 0x0c) == b + (if b & 4 == 0 then 4 else 0) + (if b & 8 == 0 then 8 else 0);
  }

  /** Bits 3 and 4 of the class byte are set, as section 6 of ISO/IEC 7816-4 has it for a command whose
      header is authenticated, and no other bit changes. */
  lemma SecureClaSetsTwoBits(cla: byte)
    ensures SecureCla(cla) == cla + (if cla / 4 % 2 == 0 then 4 else 0) + (if cla / 8 % 2 == 0 then 8 else 0)
  {
    var b := IsSomeByte(cla);
    ByteRoundTrip(b);
    ThirdBit(b);
    FourthBit(b);
    OrIsSum(b);
  }

  lemma ByteRoundTrip(b: bv8)
    ensures (b as int) as bv8 == b
  {
  }

  lemma ParseOneObject(tag: byte, value: ByteVector, rest: ByteVector, objects: seq<Object>)
    requires |value| < 128 && ParseObjects(rest) == Some(objects)
    ensures ParseObjects([tag, |value|] + value + rest) == Some([Object(tag, value)] + objects)
  {
    var body := [tag, |value|] + value + rest;
    assert body[2..2 + |value|] == value;
    assert body[2 + |value|..] == rest;
  }

  lemma CryptogramFits(s: Suite, key: ByteVector, data: ByteVector)
    requires Sound(s)
    ensures |Cryptogram(s, key, data)| == |Pad(data, s.blockSize)|
    ensures Decipher(s, key, Cryptogram(s, key, data)) == Some(data)
  {
    PadFillsBlocks(data, s.blockSize);
    UnpadUndoesPad(data, s.blockSize);
  }

  function LeObjects(apdu: ByteVector): seq<Object>
    requires |apdu| >= 4
  {
    if HasLe(apdu) then [Object(0x97, [apdu[|apdu| - 1]])] else []
  }

  lemma LePartParses(apdu: ByteVector, rest: ByteVector, objects: seq<Object>)
    requires |apdu| >= 4 && ParseObjects(rest) == Some(objects)
    ensures ParseObjects(LePart(apdu) + rest) == Some(LeObjects(apdu) + objects)
  {
    if HasLe(apdu) {
      var le := [apdu[|apdu| - 1]];
      ParseOneObject(0x97, le, rest, objects);
      assert LePart(apdu) + rest == [0x97, |le|] + le + rest;
    } else {
      assert LePart(apdu) + rest == rest;
      assert LeObjects(apdu) + objects == objects;
    }
  }

  /** The card's view of a data object. */
  function DataObjectOf(ins: byte, c: ByteVector): Object {
    if ins % 2 == 0 then Object(0x87, [0x01] + c) else Object(0x85, c)
  }

  lemma DataObjectParses(ins: byte, c: ByteVector, rest: ByteVector, objects: seq<Object>)
    requires |c| < (if ins % 2 == 0 then 127 else 128) && ParseObjects(rest) == Some(objects)
    ensures ParseObjects(DataObject(ins, c) + rest) == Some([DataObjectOf(ins, c)] + objects)
  {
    hide ParseObjects;
    if ins % 2 == 0 {
      ParseOneObject(0x87, [0x01] + c, rest, objects);
      assert DataObject(ins, c) == [0x87, |[0x01] + c|] + ([0x01] + c);
    } else {
      ParseOneObject(0x85, c, rest, objects);
      assert DataObject(ins, c) == [0x85, |c|] + c;
    }
  }

  function DataObjects(s: Suite, key: ByteVector, apdu: ByteVector): seq<Object>
    requires s.blockSize > 0 && |apdu| >= 4
  {
    if !HasData(apdu) then [] else [DataObjectOf(apdu[1], Cryptogram(s, key, OriginalData(apdu)))]
  }

  lemma DataPartParses(s: Suite, key: ByteVector, apdu: ByteVector, rest: ByteVector, objects: seq<Object>)
    requires Sound(s) && |apdu| >= 4 && ShortObject(s, apdu) && ParseObjects(rest) == Some(objects)
    ensures ParseObjects(DataPart(s, key, apdu) + rest) == Some(DataObjects(s, key, apdu) + objects)
  {
    hide ParseObjects, DataObject, DataObjectOf, Cryptogram, OriginalData, Decipher;
    CryptogramFits(s, key, OriginalData(apdu));
    if HasData(apdu) {
      DataObjectParses(apdu[1], Cryptogram(s, key, OriginalData(apdu)), rest, objects);
    } else {
      assert DataPart(s, key, apdu) + rest == rest;
      assert DataObjects(s, key, apdu) + objects == objects;
    }
  }

  /** The objects the code writes before the MAC object, as the card parses them. */
  function WrittenObjects(s: Suite, key: ByteVector, apdu: ByteVector): seq<Object>
    requires s.blockSize > 0 && |apdu| >= 4
  {
    DataObjects(s, key, apdu) + LeObjects(apdu)
  }

  lemma NoObjects()
    ensures ParseObjects([]) == Some([])
  {
  }

  lemma WrittenObjectsParse(s: Suite, encKey: ByteVector, apdu: ByteVector, mac: ByteVector)
    requires Sound(s) && |apdu| >= 4 && |mac| == 8 && ShortObject(s, apdu)
    ensures ParseObjects(DataPart(s, encKey, apdu) + LePart(apdu) + ([0x8E, 0x08] + mac)) ==
            Some(WrittenObjects(s, encKey, apdu) + [Object(0x8E, mac)])
  {
    hide LePart, DataPart, LeObjects, DataObjects, ShortObject, ParseObjects;
    NoObjects();
    var tail := [0x8E, 0x08] + mac;
    ParseOneObject(0x8E, mac, [], []);
    assert tail == [0x8E, |mac|] + mac + [];
    assert [Object(0x8E, mac)] + [] == [Object(0x8E, mac)];
    LePartParses(apdu, tail, [Object(0x8E, mac)]);
    DataPartParses(s, encKey, apdu, LePart(apdu) + tail, LeObjects(apdu) + [Object(0x8E, mac)]);
    assert DataPart(s, encKey, apdu) + LePart(apdu) + tail == DataPart(s, encKey, apdu) + (LePart(apdu) + tail);
    assert DataObjects(s, encKey, apdu) + (LeObjects(apdu) + [Object(0x8E, mac)]) ==
           WrittenObjects(s, encKey, apdu) + [Object(0x8E, mac)];
  }

  lemma DataFields(s: Suite, key: ByteVector, ins: byte, data: ByteVector)
    requires Sound(s)
    ensures Fields(s, key, ins, [DataObjectOf(ins, Cryptogram(s, key, data))]) == Some((data, None))
  {
    hide Cryptogram, Decipher;
    CryptogramFits(s, key, data);
    var c := Cryptogram(s, key, data);
    assert ([0x01] + c)[1..] == c;
    assert CryptogramOf(ins, DataObjectOf(ins, c)) == Some(c);
  }

  lemma LeFields(s: Suite, key: ByteVector, ins: byte, objects: seq<Object>, data: ByteVector, le: byte)
    requires s.blockSize > 0 && Fields(s, key, ins, objects) == Some((data, None))
    ensures Fields(s, key, ins, objects + [Object(0x97, [le])]) == Some((data, Some(le)))
  {
    var all := objects + [Object(0x97, [le])];
    assert all[..|all| - 1] == objects;
  }

  lemma WrittenFields(s: Suite, encKey: ByteVector, apdu: ByteVector)
    requires Sound(s) && |apdu| >= 4
    ensures Fields(s, encKey, apdu[1], WrittenObjects(s, encKey, apdu)) == Some((Seen(apdu).data, Seen(apdu).le))
  {
    hide Cryptogram, DataObjectOf;
    var objects := DataObjects(s, encKey, apdu);
    DataFields(s, encKey, apdu[1], OriginalData(apdu));
    assert Fields(s, encKey, apdu[1], objects) == Some((OriginalData(apdu), None));
    if HasLe(apdu) {
      LeFields(s, encKey, apdu[1], objects, OriginalData(apdu), apdu[|apdu| - 1]);
    } else {
      assert objects + LeObjects(apdu) == objects;
    }
  }

  /** A command whose parts are in order is accepted. */
  lemma CardAccepts(s: Suite, encKey: ByteVector, macKey: ByteVector, ssc: Counter, header: ByteVector,
                    front: ByteVector, objects: seq<Object>, data: ByteVector, le: Option<byte>)
    requires s.blockSize > 0 && |header| == 4 && (header[0] as bv8) & 0x0c == 0x0c
    requires |CommandMac(s, macKey, ssc, header, front)| == 8 && |front| + 10 < 256
    requires var mac := CommandMac(s, macKey, ssc, header, front);
             ParseObjects(front + ([0x8E, 0x08] + mac)) == Some(objects + [Object(0x8E, mac)])
    requires Fields(s, encKey, header[1], objects) == Some((data, le))
    ensures var body := front + ([0x8E, 0x08] + CommandMac(s, macKey, ssc, header, front));
            CardUnwrap(s, encKey, macKey, ssc, header + [|body|] + body + [0]) ==
            Some(Command(header[0], header[1], header[2], header[3], data, le))
  {
    hide CommandMac, ParseObjects, Fields;
    var mac := CommandMac(s, macKey, ssc, header, front);
    var body := front + ([0x8E, 0x08] + mac);
    var cmd := header + [|body|] + body + [0];
    assert cmd[..4] == header && cmd[5..|cmd| - 1] == body;
    assert body[|body| - 8..] == mac && body[..|body| - 10] == front;
    assert (objects + [Object(0x8E, mac)])[..|objects|] == objects;
  }

  /** A command with a cut length byte is refused. */
  lemma CardRefusesCutLength(s: Suite, encKey: ByteVector, macKey: ByteVector, ssc: Counter, header: ByteVector, body: ByteVector)
    requires s.blockSize > 0 && |header| == 4 && |body| >= 256
    ensures CardUnwrap(s, encKey, macKey, ssc, header + [|body| % 256] + body + [0]) == None
  {
    hide CommandMac, ParseObjects, Fields;
    assert (header + [|body| % 256] + body + [0])[4] == |body| % 256;
  }

  lemma CardSeesBody(header: ByteVector, body: ByteVector)
    requires |header| == 4
    ensures var cmd := header + [|body| % 256] + body + [0];
            cmd[..4] == header && cmd[5..|cmd| - 1] == body && cmd[4] == |body| % 256 && |cmd| == 6 + |body|
  {
  }

  /** A body whose first object has no legal length is refused. */
  lemma CardRefusesIllegalLength(s: Suite, encKey: ByteVector, macKey: ByteVector, ssc: Counter, header: ByteVector, body: ByteVector)
    requires s.blockSize > 0 && |header| == 4 && |body| > 0 && LengthField(body) == None
    ensures CardUnwrap(s, encKey, macKey, ssc, header + [|body| % 256] + body + [0]) == None
  {
    hide CommandMac, Fields, LengthField;
    CardSeesBody(header, body);
  }

  /** Fields that begin with a data object of one byte are refused: no cryptogram is empty. */
  lemma {:induction false} OneByteObjectHasNoFields(s: Suite, key: ByteVector, ins: byte, objects: seq<Object>)
    requires Sound(s) && ins % 2 == 0 && |objects| > 0 && objects[0].tag == 0x87 && |objects[0].value| == 1
    ensures Fields(s, key, ins, objects) == None
    decreases |objects|
  {
    var last := objects[|objects| - 1];
    if last.tag == 0x97 {
      OneByteObjectHasNoFields(s, key, ins, objects[..|objects| - 1]);
    } else if |objects| == 1 {
      assert 0 % s.blockSize == 0;
      assert |s.dec(key, [])| == 0;
    }
  }

  /** A body that begins 87 81 01 is refused: the standard reads an object of one byte there. */
  lemma CardRefusesOneByteObject(s: Suite, encKey: ByteVector, macKey: ByteVector, ssc: Counter, header: ByteVector, body: ByteVector)
    requires Sound(s) && |header| == 4 && header[1] % 2 == 0
    requires |body| >= 4 && body[0] == 0x87 && body[1] == 0x81 && body[2] == 0x01
    ensures CardUnwrap(s, encKey, macKey, ssc, header + [|body| % 256] + body + [0]) == None
  {
    hide CommandMac, Fields;
    CardSeesBody(header, body);
    OneByteField(body);
    var parsed := ParseObjects(body);
    if parsed.Some? && |parsed.value| > 1 {
      var front := parsed.value[..|parsed.value| - 1];
      assert front[0] == parsed.value[0];
      OneByteObjectHasNoFields(s, encKey, header[1], front);
    }
  }

  lemma OneByteField(body: ByteVector)
    requires |body| >= 4 && body[0] == 0x87 && body[1] == 0x81 && body[2] == 0x01
    ensures ParseObjects(body).Some? ==>
              |ParseObjects(body).value| > 0 && ParseObjects(body).value[0] == Object(0x87, [body[3]])
  {
    assert body[2..3] == [0x01];
    assert BigEndian([0x01]) == 1 by {
      assert BigEndian([0x01][..0]) == 0;
    }
    assert LengthField(body) == Some((3, 1));
    assert body[3..4] == [body[3]];
  }

  /** A data object of 128 bytes or more is refused, whatever stands behind it: block lengths leave for
      its length byte only 0x81 among the legal ones, and there the object is one byte long. */
  lemma LongObjectIsRefused(s: Suite, encKey: ByteVector, macKey: ByteVector, ssc: Counter,
                            header: ByteVector, c: ByteVector, tail: ByteVector)
    requires Sound(s) && |header| == 4 && |c| % s.blockSize == 0 && |c| + (if header[1] % 2 == 0 then 1 else 0) >= 128
    ensures var body := DataObject(header[1], c) + tail;
            CardUnwrap(s, encKey, macKey, ssc, header + [|body| % 256] + body + [0]) == None
  {
    hide CardUnwrap;
    var ins, body := header[1], DataObject(header[1], c) + tail;
    var n := |c| + if ins % 2 == 0 then 1 else 0;
    MultipleOfEight(|c|, s.blockSize);
    if |body| >= 256 {
      CardRefusesCutLength(s, encKey, macKey, ssc, header, body);
    } else if n == 0x81 {
      CardRefusesOneByteObject(s, encKey, macKey, ssc, header, body);
    } else {
      assert body[1] == n;
      CardRefusesIllegalLength(s, encKey, macKey, ssc, header, body);
    }
  }

  lemma MultipleOfEight(n: nat, d: nat)
    requires (d == 8 || d == 16) && n % d == 0
    ensures n % 8 == 0
  {
  }

  /** What the code wraps at one counter is refused at every counter when its data object is long. */
  lemma LongIsRefusedEverywhere(s: Suite, encKey: ByteVector, macKey: ByteVector, c: Counter, c': Counter, apdu: ByteVector)
    requires Sound(s) && |apdu| >= 4 && !ShortObject(s, apdu)
    ensures EncryptApdu(s, encKey, macKey, c, apdu).Ok?
    ensures CardUnwrap(s, encKey, macKey, c', EncryptApdu(s, encKey, macKey, c, apdu).value) == None
  {
    hide CommandMac, LePart, CardUnwrap, SecureHeader, Cryptogram, Pad, OriginalData, Decipher;
    var header, x := SecureHeader(apdu), Cryptogram(s, encKey, OriginalData(apdu));
    CryptogramFits(s, encKey, OriginalData(apdu));
    PadFillsBlocks(OriginalData(apdu), s.blockSize);
    HeaderKeepsIns(apdu);
    var mac := CommandMac(s, macKey, c, header, DataPart(s, encKey, apdu) + LePart(apdu));
    var tail := LePart(apdu) + ([0x8E, 0x08] + mac);
    LongObjectIsRefused(s, encKey, macKey, c', header, x, tail);
    var body := DataObject(header[1], x) + tail;
    assert body == DataPart(s, encKey, apdu) + LePart(apdu) + ([0x8E, 0x08] + mac);
    assert header + [|body| % 256] + body + [0] ==
           header + [|body| % 256] + (DataPart(s, encKey, apdu) + LePart(apdu)) + ([0x8E, 0x08] + mac) + [0];
  }

  lemma HeaderKeepsIns(apdu: ByteVector)
    requires |apdu| >= 4
    ensures SecureHeader(apdu)[1] == apdu[1]
  {
  }

  lemma ShortIsBelow256(s: Suite, apdu: ByteVector)
    requires s.blockSize > 0 && |apdu| >= 4 && ShortObject(s, apdu)
    ensures WrappedLength(s, apdu) < 256
  {
    hide Pad;
  }

  lemma CardReadsSeen(s: Suite, encKey: ByteVector, macKey: ByteVector, ssc: Counter, apdu: ByteVector)
    requires Sound(s) && |apdu| >= 4 && ShortObject(s, apdu)
    ensures var front := DataPart(s, encKey, apdu) + LePart(apdu);
            var body := front + ([0x8E, 0x08] + CommandMac(s, macKey, ssc, SecureHeader(apdu), front));
            && |body| == WrappedLength(s, apdu)
            && CardUnwrap(s, encKey, macKey, ssc, SecureHeader(apdu) + [|body|] + body + [0]) == Some(Seen(apdu))
  {
    hide CommandMac, ParseObjects, Fields, WrittenObjects, DataPart, LePart, WrappedLength, CardUnwrap, ShortObject;
    var front := DataPart(s, encKey, apdu) + LePart(apdu);
    ShortIsBelow256(s, apdu);
    MacHasEightBytes(s, macKey, ssc, SecureHeader(apdu), front);
    WrappedLengthIsLength(s, encKey, apdu);
    SecureClaIsSecure(apdu[0]);
    WrittenObjectsParse(s, encKey, apdu, CommandMac(s, macKey, ssc, SecureHeader(apdu), front));
    WrittenFields(s, encKey, apdu);
    CardAccepts(s, encKey, macKey, ssc, SecureHeader(apdu), front, WrittenObjects(s, encKey, apdu), Seen(apdu).data, Seen(apdu).le);
  }

  /** For every APDU at all: the card accepts the wrapped command exactly when its data object, if there
      is one, is at most 127 bytes long, and then it reads what the code's classification saw. */
  lemma CardReadsWhatWasSeen(s: Suite, encKey: ByteVector, macKey: ByteVector, ssc: Counter, apdu: ByteVector)
    requires Sound(s) && |apdu| >= 4
    ensures EncryptApdu(s, encKey, macKey, ssc, apdu).Ok?
    ensures CardUnwrap(s, encKey, macKey, ssc, EncryptApdu(s, encKey, macKey, ssc, apdu).value) ==
            if ShortObject(s, apdu) then Some(Seen(apdu)) else None
  {
    hide CommandMac, WrittenObjects, DataPart, LePart, WrappedLength, CardUnwrap, SecureHeader, Seen, ShortObject;
    if ShortObject(s, apdu) {
      var front := DataPart(s, encKey, apdu) + LePart(apdu);
      var mac := CommandMac(s, macKey, ssc, SecureHeader(apdu), front);
      ShortIsBelow256(s, apdu);
      CardReadsSeen(s, encKey, macKey, ssc, apdu);
      var body := front + ([0x8E, 0x08] + mac);
      assert SecureHeader(apdu) + [|body| % 256] + body + [0] ==
             SecureHeader(apdu) + [|body| % 256] + front + ([0x8E, 0x08] + mac) + [0];
    } else {
      LongIsRefusedEverywhere(s, encKey, macKey, ssc, ssc, apdu);
    }
  }

  /** That classification spelled out, for every APDU at all, whether its Lc tells the truth or not: by
      the fifth byte and the number of bytes behind it. */
  lemma SeenSpelledOut(apdu: ByteVector)
    requires |apdu| >= 4
    ensures Seen(apdu).cla == apdu[0] + (if apdu[0] / 4 % 2 == 0 then 4 else 0) + (if apdu[0] / 8 % 2 == 0 then 8 else 0)
    ensures Seen(apdu).ins == apdu[1] && Seen(apdu).p1 == apdu[2] && Seen(apdu).p2 == apdu[3]
    ensures var n, data, le := |apdu|, Seen(apdu).data, Seen(apdu).le;
            && (n == 4 ==> data == [] && le == None)
            && (n > 4 && n - 5 == apdu[4] ==> data == apdu[5..] && le == None)
            && (n > 4 && n - 5 > apdu[4] ==> data == apdu[4..n - 1] && le == Some(apdu[n - 1]))
            && (n > 4 && n - 5 < apdu[4] ==> data == [] && le == Some(apdu[n - 1]))
  {
    hide SecureCla;
    SecureClaSetsTwoBits(apdu[0]);
  }

  /** And the length the card refuses, spelled out: data, whole blocks of it and of its padding, and the
      padding indicator come to more than 127 bytes. */
  lemma ShortObjectSpelledOut(s: Suite, apdu: ByteVector)
    requires s.blockSize > 0 && |apdu| >= 4
    ensures var n := |apdu|;
            !ShortObject(s, apdu) <==>
              && n > 4 && n - 5 >= apdu[4]
              && s.blockSize * ((n - 5) / s.blockSize + 1) + (if apdu[1] % 2 == 0 then 1 else 0) > 127
  {
    hide Pad;
    PadLength(OriginalData(apdu), s.blockSize);
  }

  /** Exactly the APDUs of fewer than four bytes are refused. */
  lemma TooShortExactlyWhen(s: Suite, encKey: ByteVector, macKey: ByteVector, ssc: Counter, apdu: ByteVector)
    requires s.blockSize > 0
    ensures EncryptApdu(s, encKey, macKey, ssc, apdu) == Err(TooShort) <==> |apdu| < 4
    ensures EncryptApdu(s, encKey, macKey, ssc, apdu).Ok? <==> |apdu| >= 4
  {
  }

  lemma WrappedLengthIsLength(s: Suite, encKey: ByteVector, apdu: ByteVector)
    requires Sound(s) && |apdu| >= 4
    ensures |DataPart(s, encKey, apdu) + LePart(apdu)| + 10 == WrappedLength(s, apdu)
  {
    CryptogramFits(s, encKey, OriginalData(apdu));
  }

  lemma MacHasEightBytes(s: Suite, key: ByteVector, ssc: Counter, header: ByteVector, objects: ByteVector)
    requires Sound(s)
    ensures |CommandMac(s, key, ssc, header, objects)| == 8
  {
  }

  // ----- which commands survive -----

  /** The short APDU of a command with at most 255 bytes of data. */
  function ShortApdu(c: Command): (apdu: ByteVector)
    requires |c.data| < 256
    ensures |apdu| >= 4
  {
    [c.cla, c.ins, c.p1, c.p2] +
    (if c.data == [] then [] else [|c.data|] + c.data) +
    (match c.le case None => [] case Some(n) => [n])
  }

  /** The shapes the code classifies rightly: not data together with Le, and not a lone Le of zero. */
  predicate RightShape(c: Command) {
    if c.data == [] then c.le != Some(0) else c.le == None
  }

  /** The data object, if there is one, is at most 127 bytes long. */
  predicate Fits(s: Suite, c: Command)
    requires s.blockSize > 0
  {
    c.data == [] || |Pad(c.data, s.blockSize)| + (if c.ins % 2 == 0 then 1 else 0) <= 127
  }

  /** What the code makes of each of the four shapes of a short APDU. */
  lemma Classification(s: Suite, c: Command)
    requires s.blockSize > 0 && |c.data| < 256
    ensures var seen := Seen(ShortApdu(c));
            seen == Command(SecureCla(c.cla), c.ins, c.p1, c.p2, seen.data, seen.le)
    ensures RightShape(c) ==> Seen(ShortApdu(c)) == c.(cla := SecureCla(c.cla))
    ensures RightShape(c) ==> (ShortObject(s, ShortApdu(c)) <==> Fits(s, c))
    ensures c.data != [] && c.le != None ==> Seen(ShortApdu(c)).data == [|c.data|] + c.data && Seen(ShortApdu(c)).le == c.le
    ensures c.data == [] && c.le == Some(0) ==> Seen(ShortApdu(c)).data == [] && Seen(ShortApdu(c)).le == None
  {
    var apdu := ShortApdu(c);
    if c.data != [] {
      assert apdu[4] == |c.data|;
      if c.le == None {
        assert apdu[5..] == c.data;
      } else {
        assert apdu[4..|apdu| - 1] == [|c.data|] + c.data;
      }
    }
  }

  /** The card recovers header, data and Le of a short APDU if and only if the APDU has a shape the
      code classifies rightly and its data object is at most 127 bytes long. */
  lemma CommandSurvives(s: Suite, encKey: ByteVector, macKey: ByteVector, ssc: Counter, c: Command)
    requires Sound(s) && |c.data| < 256
    ensures EncryptApdu(s, encKey, macKey, ssc, ShortApdu(c)).Ok?
    ensures CardUnwrap(s, encKey, macKey, ssc, EncryptApdu(s, encKey, macKey, ssc, ShortApdu(c)).value) ==
            Some(c.(cla := SecureCla(c.cla)))
            <==> RightShape(c) && Fits(s, c)
    ensures SecureCla(c.cla) == c.cla + (if c.cla / 4 % 2 == 0 then 4 else 0) + (if c.cla / 8 % 2 == 0 then 8 else 0)
  {
    hide EncryptApdu, CardUnwrap, ShortObject, Seen, ShortApdu, Fits;
    SecureClaSetsTwoBits(c.cla);
    CardReadsWhatWasSeen(s, encKey, macKey, ssc, ShortApdu(c));
    Classification(s, c);
  }

  /** A concrete command that is misread: SELECT with one byte of data and Le 0 reaches the card with
      the length byte in front of its data. */
  lemma DataWithLeIsMisread(encKey: ByteVector, macKey: ByteVector, ssc: Counter, s: Suite)
    requires Sound(s) && s.blockSize == 8
    ensures var c := Command(0x00, 0xA4, 0x04, 0x00, [0x3F], Some(0));
            CardUnwrap(s, encKey, macKey, ssc, EncryptApdu(s, encKey, macKey, ssc, ShortApdu(c)).value) ==
            Some(Command(0x0C, 0xA4, 0x04, 0x00, [0x01, 0x3F], Some(0)))
  {
    hide EncryptApdu, CardUnwrap;
    var c := Command(0x00, 0xA4, 0x04, 0x00, [0x3F], Some(0));
    CardReadsWhatWasSeen(s, encKey, macKey, ssc, ShortApdu(c));
    assert ShortApdu(c) == [0x00, 0xA4, 0x04, 0x00, 0x01, 0x3F, 0x00];
    assert ShortApdu(c)[4..6] == [0x01, 0x3F];
  }

  // ----- unwrapping a response (decrypt_rapdu) -----

  /** The pieces of a response: the data object if any, the status object, the MAC object. */
  datatype Pieces = Pieces(dataObject: ByteVector, statusObject: ByteVector, macObject: ByteVector)

  function SplitRapdu(rapdu: ByteVector): Result<Pieces, Error> {
    if |rapdu| < 2 then Err(Undefined)
    else
      var cpy := rapdu[..|rapdu| - 2];
      if |cpy| == 0 then Err(OutOfRange)
      else if |cpy| < 3 then Err(TooShort)
      else
        var length := if cpy[0] == 0x87 || cpy[0] == 0x85 then 2 + cpy[1] as int else 0;
        if cpy[0] == 0x87 && cpy[1] == 0 then Err(Undefined)
        else if length > |cpy| then Err(Undefined)
        else if |cpy| - length < 4 then Err(TooShort)
        else if |cpy| - length < 14 then Err(TooShort)
        else Ok(Pieces(cpy[..length], cpy[length..length + 4], cpy[length + 4..length + 14]))
  }

  function ResponseMac(s: Suite, key: ByteVector, ssc: Counter, objects: ByteVector): ByteVector
    requires s.blockSize > 0
  {
    s.mac(key, Pad(IncrementSsc(ssc) + objects, s.blockSize))
  }

  /** The MAC of a response is taken over the counter plus one and the objects, padded. */
  lemma ResponseMacInput(s: Suite, key: ByteVector, ssc: Counter, objects: ByteVector, next: Counter, m: ByteVector)
    requires s.blockSize > 0 && IsPadding(next + objects, s.blockSize, m)
    requires BigEndian(next) == (BigEndian(ssc) + 1) % 0x1_0000_0000_0000_0000
    ensures ResponseMac(s, key, ssc, objects) == s.mac(key, m)
  {
    hide IncrementSsc, Pad, IsPadding;
    IncrementCounts(ssc);
    BigEndianIsInjective(IncrementSsc(ssc), next);
    PadIsMethod2(next + objects, s.blockSize, m);
  }

  function DecryptRapdu(s: Suite, encKey: ByteVector, macKey: ByteVector, ssc: Counter, rapdu: ByteVector): Result<ByteVector, Error>
    requires s.blockSize > 0
  {
    match SplitRapdu(rapdu)
    case Err(e) => Err(e)
    case Ok(p) =>
      if ResponseMac(s, macKey, ssc, p.dataObject + p.statusObject) != p.macObject[2..] then Err(BadChecksum)
      else if p.dataObject == [] then Ok(p.statusObject[2..])
      else
        var cryptogram := p.dataObject[(if rapdu[0] == 0x87 then 3 else 2)..];
        if |cryptogram| % s.blockSize != 0 then Err(CipherFailure)
        else match Unpad(s.dec(encKey, cryptogram))
          case None => Err(Undefined)
          case Some(data) => Ok(data + p.statusObject[2..])
  }

  /** For every byte string: the pieces are the front of it, a data object if it begins with one, then four
      bytes and ten, with at least two bytes left over. */
  lemma SplitsExactlyWhen(rapdu: ByteVector, p: Pieces)
    ensures SplitRapdu(rapdu) == Ok(p) <==>
            && p.dataObject + p.statusObject + p.macObject <= rapdu
            && |rapdu| >= |p.dataObject| + 4 + 10 + 2 && |p.statusObject| == 4 && |p.macObject| == 10
            && (if rapdu[0] == 0x87 then |p.dataObject| == 2 + rapdu[1] as int && rapdu[1] > 0
                else if rapdu[0] == 0x85 then |p.dataObject| == 2 + rapdu[1] as int
                else p.dataObject == [])
  {
    if |rapdu| >= 16 {
      var cpy := rapdu[..|rapdu| - 2];
      var length := if cpy[0] == 0x87 || cpy[0] == 0x85 then 2 + cpy[1] as int else 0;
      if length + 14 <= |cpy| {
        assert rapdu[..length] == cpy[..length] && rapdu[length..length + 4] == cpy[length..length + 4];
        assert rapdu[length + 4..length + 14] == cpy[length + 4..length + 14];
        assert rapdu[..length + 14] == cpy[..length] + cpy[length..length + 4] + cpy[length + 4..length + 14];
        if p.dataObject + p.statusObject + p.macObject <= rapdu && |p.dataObject| == length
           && |p.statusObject| == 4 && |p.macObject| == 10 {
          var q := p.dataObject + p.statusObject + p.macObject;
          assert rapdu[..length + 14] == q;
          assert q[..length] == p.dataObject && q[length..length + 4] == p.statusObject && q[length + 4..] == p.macObject;
          assert rapdu[..length + 14][length..length + 4] == rapdu[length..length + 4];
          assert rapdu[..length + 14][length + 4..] == rapdu[length + 4..length + 14];
        }
      }
    }
  }

  /** The other outcomes, by length alone when there is no data object in front. */
  lemma SplitFailures(rapdu: ByteVector)
    ensures |rapdu| < 2 ==> SplitRapdu(rapdu) == Err(Undefined)
    ensures |rapdu| == 2 ==> SplitRapdu(rapdu) == Err(OutOfRange)
    ensures 3 <= |rapdu| <= 4 || (5 <= |rapdu| < 16 && rapdu[0] != 0x87 && rapdu[0] != 0x85) ==>
              SplitRapdu(rapdu) == Err(TooShort)
    ensures |rapdu| >= 5 && (rapdu[0] == 0x87 || rapdu[0] == 0x85) && rapdu[1] as int + 4 <= |rapdu| < rapdu[1] as int + 18
            && !(rapdu[0] == 0x87 && rapdu[1] == 0) ==>
              SplitRapdu(rapdu) == Err(TooShort)
    ensures |rapdu| >= 5 && (rapdu[0] == 0x87 || rapdu[0] == 0x85)
            && (|rapdu| < rapdu[1] as int + 4 || (rapdu[0] == 0x87 && rapdu[1] == 0)) ==>
              SplitRapdu(rapdu) == Err(Undefined)
  {
  }

  /** For every byte string: decrypt_rapdu returns data and status if and only if the pieces are there, the
      last eight bytes of the third are the MAC over the first two, and the cryptogram, if there is one, is
      whole blocks that decipher to the data, a 0x80 and no 0x80 after it. */
  lemma ReturnsExactlyWhen(s: Suite, encKey: ByteVector, macKey: ByteVector, ssc: Counter, rapdu: ByteVector, x: ByteVector)
    requires Sound(s)
    ensures DecryptRapdu(s, encKey, macKey, ssc, rapdu) == Ok(x) <==>
            SplitRapdu(rapdu).Ok? &&
            var p := SplitRapdu(rapdu).value;
            && p.macObject[2..] == ResponseMac(s, macKey, ssc, p.dataObject + p.statusObject)
            && |x| >= 2 && x[|x| - 2..] == p.statusObject[2..]
            && (p.dataObject == [] ==> |x| == 2)
            && (p.dataObject != [] ==>
                 var c := p.dataObject[if rapdu[0] == 0x87 then 3 else 2..];
                 var data, plain := x[..|x| - 2], s.dec(encKey, c);
                 |c| % s.blockSize == 0 && |data| < |plain| && plain[..|data|] == data && plain[|data|] == 0x80
                 && forall i :: |data| < i < |plain| ==> plain[i] != 0x80)
  {
    hide ResponseMac, Unpad, SplitRapdu;
    if SplitRapdu(rapdu).Ok? {
      var p := SplitRapdu(rapdu).value;
      SplitsExactlyWhen(rapdu, p);
      if p.dataObject == [] {
        assert |x| == 2 ==> x[|x| - 2..] == x;
      } else if |x| >= 2 {
        var plain := s.dec(encKey, p.dataObject[if rapdu[0] == 0x87 then 3 else 2..]);
        UnpadExactlyWhen(plain, x[..|x| - 2]);
        assert x == x[..|x| - 2] + x[|x| - 2..];
        forall d | Unpad(plain) == Some(d) && x == d + p.statusObject[2..]
          ensures d == x[..|x| - 2] && p.statusObject[2..] == x[|x| - 2..]
        {
        }
      }
    }
  }

  /** And it throws its checksum exception exactly when the pieces are there and the MAC is another one. */
  lemma BadChecksumExactlyWhen(s: Suite, encKey: ByteVector, macKey: ByteVector, ssc: Counter, rapdu: ByteVector)
    requires Sound(s)
    ensures DecryptRapdu(s, encKey, macKey, ssc, rapdu) == Err(BadChecksum) <==>
            SplitRapdu(rapdu).Ok? &&
            var p := SplitRapdu(rapdu).value;
            |p.macObject| == 10 && p.macObject[2..] != ResponseMac(s, macKey, ssc, p.dataObject + p.statusObject)
  {
    hide ResponseMac, Unpad;
  }

  /** A response as a card sends it: data in a DO87, in a DO85, or none. */
  datatype Reply =
    | NoData(sw1: byte, sw2: byte)
    | InDo87(data: ByteVector, sw1: byte, sw2: byte)
    | InDo85(data: ByteVector, sw1: byte, sw2: byte)

  function Status(r: Reply): ByteVector { [r.sw1, r.sw2] }

  function Plain(r: Reply): ByteVector {
    (match r case NoData(_, _) => [] case InDo87(d, _, _) => d case InDo85(d, _, _) => d) + Status(r)
  }

  /** A data object as the standard has it. */
  function BerObject(tag: byte, value: ByteVector): ByteVector { [tag] + BerLength(|value|) + value }

  /** The card's data object. */
  function ReplyObject(s: Suite, key: ByteVector, r: Reply): ByteVector
    requires s.blockSize > 0
  {
    match r
    case NoData(_, _) => []
    case InDo87(d, _, _) => BerObject(0x87, [0x01] + Cryptogram(s, key, d))
    case InDo85(d, _, _) => BerObject(0x85, Cryptogram(s, key, d))
  }

  /** The length of the data object's value for a block size. */
  function ReplyLength(blockSize: nat, r: Reply): nat
    requires blockSize > 0
  {
    match r
    case NoData(_, _) => 0
    case InDo87(d, _, _) => |Pad(d, blockSize)| + 1
    case InDo85(d, _, _) => |Pad(d, blockSize)|
  }

  /** The data object, if there is one, is at most 127 bytes long. */
  predicate ReplyFits(s: Suite, r: Reply)
    requires s.blockSize > 0
  {
    ReplyLength(s.blockSize, r) <= 127
  }

  /** The card's response: data object, DO99 with the status, DO8E with the MAC, and the status again. */
  function CardReply(s: Suite, encKey: ByteVector, macKey: ByteVector, ssc: Counter, r: Reply): ByteVector
    requires s.blockSize > 0
  {
    var objects := ReplyObject(s, encKey, r) + ([0x99, 0x02] + Status(r));
    objects + ([0x8E, 0x08] + ResponseMac(s, macKey, ssc, objects)) + Status(r)
  }

  /** A byte string the code takes for one whole data object, or for none. */
  predicate IsDataObject(o: ByteVector) {
    o == [] || (|o| >= 2 && (o[0] == 0x87 || o[0] == 0x85) && |o| == 2 + o[1] as int && !(o[0] == 0x87 && o[1] == 0))
  }

  lemma PiecesSplit(o: ByteVector, status: ByteVector, mac: ByteVector, trailer: ByteVector)
    requires IsDataObject(o) && |status| == 4 && status[0] == 0x99 && |mac| == 10 && |trailer| == 2
    ensures SplitRapdu(o + status + mac + trailer) == Ok(Pieces(o, status, mac))
  {
    var objects := o + status + mac;
    var rapdu := objects + trailer;
    assert rapdu[..|rapdu| - 2] == objects;
    assert objects[..|o|] == o;
    assert objects[|o|..|o| + 4] == status;
    assert objects[|o| + 4..|o| + 14] == mac;
  }

  lemma ReplyObjectIsDataObject(s: Suite, encKey: ByteVector, r: Reply)
    requires Sound(s) && ReplyFits(s, r)
    ensures IsDataObject(ReplyObject(s, encKey, r))
  {
    hide Cryptogram, Pad, Decipher;
    if !r.NoData? {
      CryptogramFits(s, encKey, r.data);
    }
  }

  lemma ReplySplits(s: Suite, encKey: ByteVector, r: Reply, mac: ByteVector)
    requires Sound(s) && ReplyFits(s, r) && |mac| == 8
    ensures var o := ReplyObject(s, encKey, r);
            SplitRapdu(o + ([0x99, 0x02] + Status(r)) + ([0x8E, 0x08] + mac) + Status(r)) ==
            Ok(Pieces(o, [0x99, 0x02] + Status(r), [0x8E, 0x08] + mac))
  {
    hide SplitRapdu, ReplyObject, ReplyFits, IsDataObject;
    ReplyObjectIsDataObject(s, encKey, r);
    PiecesSplit(ReplyObject(s, encKey, r), [0x99, 0x02] + Status(r), [0x8E, 0x08] + mac, Status(r));
  }

  /** decrypt_rapdu returns data followed by status for every response with a data object of at most 127
      bytes, or none, that a card wraps at the same counter. */
  lemma ReplySurvives(s: Suite, encKey: ByteVector, macKey: ByteVector, ssc: Counter, r: Reply)
    requires Sound(s) && ReplyFits(s, r)
    ensures DecryptRapdu(s, encKey, macKey, ssc, CardReply(s, encKey, macKey, ssc, r)) == Ok(Plain(r))
  {
    hide SplitRapdu, ResponseMac, Pad;
    var o := ReplyObject(s, encKey, r);
    var objects := o + ([0x99, 0x02] + Status(r));
    var mac := ResponseMac(s, macKey, ssc, objects);
    assert |mac| == 8 by { ResponseMacHasEightBytes(s, macKey, ssc, objects); }
    ReplySplits(s, encKey, r, mac);
    assert ([0x8E, 0x08] + mac)[2..] == mac;
    assert ([0x99, 0x02] + Status(r))[2..] == Status(r);
    if !r.NoData? {
      var c := Cryptogram(s, encKey, r.data);
      CryptogramFits(s, encKey, r.data);
      assert o[(if r.InDo87? then 3 else 2)..] == c;
      assert CardReply(s, encKey, macKey, ssc, r)[0] == o[0];
    } else {
      assert Plain(r) == Status(r);
      assert CardReply(s, encKey, macKey, ssc, r)[0] == 0x99;
    }
  }

  lemma ResponseMacHasEightBytes(s: Suite, key: ByteVector, ssc: Counter, objects: ByteVector)
    requires Sound(s)
    ensures |ResponseMac(s, key, ssc, objects)| == 8
  {
  }

  // ----- longer replies -----

  /** A suite that enciphers nothing and has one MAC for everything: it meets all that is asked of a suite. */
  function PlainSuite(blockSize: nat, b: byte): Suite {
    Suite(blockSize, (_, x) => x, (_, x) => x, (_, _) => Eight(b), (_, _, _, _) => SessionKeys([], [], Eight(0)))
  }

  function Eight(b: byte): (m: ByteVector)
    ensures |m| == 8
  {
    seq(8, _ => b)
  }

  lemma PlainIsSound(blockSize: nat, b: byte)
    requires blockSize == 8 || blockSize == 16
    ensures Sound(PlainSuite(blockSize, b))
  {
  }

  /** The bytes of a reply before its MAC, which under the plain suites do not depend on the MAC. */
  function ReplyFront(blockSize: nat, r: Reply): ByteVector
    requires blockSize > 0
  {
    ReplyObject(PlainSuite(blockSize, 0), [], r) + ([0x99, 0x02] + Status(r)) + [0x8E, 0x08]
  }

  lemma PlainReply(blockSize: nat, encKey: ByteVector, macKey: ByteVector, ssc: Counter, r: Reply, b: byte)
    requires blockSize == 8 || blockSize == 16
    ensures CardReply(PlainSuite(blockSize, b), encKey, macKey, ssc, r) == ReplyFront(blockSize, r) + Eight(b) + Status(r)
    ensures ResponseMac(PlainSuite(blockSize, b), macKey, ssc, []) == Eight(b)
  {
    hide BerObject, Pad;
    var s := PlainSuite(blockSize, b);
    assert ReplyObject(s, encKey, r) == ReplyObject(PlainSuite(blockSize, 0), [], r);
    var objects := ReplyObject(s, encKey, r) + ([0x99, 0x02] + Status(r));
    assert ResponseMac(s, macKey, ssc, objects) == Eight(b);
    assert objects + ([0x8E, 0x08] + Eight(b)) + Status(r) == objects + [0x8E, 0x08] + Eight(b) + Status(r);
  }

  /** What the code makes of a data object of 128 bytes or more: it takes the byte 0x81 to 0x84 for a length. */
  lemma LongReplyFront(blockSize: nat, r: Reply)
    requires (blockSize == 8 || blockSize == 16) && ReplyLength(blockSize, r) > 127
    ensures var f := ReplyFront(blockSize, r);
            && |f| > 9 && (f[0] == 0x87 || f[0] == 0x85) && 0x81 <= f[1] <= 0x84
            && (f[1] as int + 2 == |f| - 6 ==> f[0] == 0x85 && f[1] == 0x81 && |f| == 137)
  {
    hide Pad;
    var n := ReplyLength(blockSize, r);
    PadFillsBlocks(r.data, blockSize);
    MultipleOfEight(|Pad(r.data, blockSize)|, blockSize);
    assert |Cryptogram(PlainSuite(blockSize, 0), [], r.data)| == |Pad(r.data, blockSize)|;
    BerLengthFirst(n);
    assert |ReplyFront(blockSize, r)| == 1 + |BerLength(n)| + n + 6;
    assert ReplyFront(blockSize, r)[1] == BerLength(n)[0];
  }

  lemma BerLengthFirst(n: nat)
    requires n > 127
    ensures |BerLength(n)| >= 2 && 0x81 <= BerLength(n)[0] <= 0x84
    ensures BerLength(n)[0] == 0x81 <==> n < 256
    ensures BerLength(n)[0] == 0x81 ==> |BerLength(n)| == 2
    ensures BerLength(n)[0] != 0x81 ==> |BerLength(n)| + n > 150
  {
  }

  /** Reading a front with such a first object, whatever MAC follows: the checked bytes begin before the
      MAC unless the object ends where the standard's does. */
  lemma SplitOfLong(front: ByteVector, mac: ByteVector, trailer: ByteVector)
    requires |front| > 9 && (front[0] == 0x87 || front[0] == 0x85) && 0x81 <= front[1] <= 0x84
    requires |mac| == 8 && |trailer| == 2
    ensures var l, p := front[1] as int + 2, SplitRapdu(front + mac + trailer);
            p.Ok? ==>
              && l <= |front| - 6 && p.value.dataObject == front[..l]
              && |p.value.macObject| == 10
              && (l < |front| - 6 ==> p.value.macObject[2] == front[l + 6])
              && (l == |front| - 6 ==> p.value.macObject[2..] == mac)
  {
    var rapdu := front + mac + trailer;
    var cpy, l := rapdu[..|rapdu| - 2], front[1] as int + 2;
    assert cpy == front + mac;
    assert cpy[0] == front[0] && cpy[1] == front[1];
    if l <= |front| - 6 {
      assert cpy[..l] == front[..l];
      assert l < |front| - 6 ==> cpy[l + 4..l + 14][2] == cpy[l + 6] == front[l + 6];
      assert l == |front| - 6 ==> cpy[l + 4..l + 14][2..] == mac;
    }
  }

  /** Whichever way the code reads such a reply, it fails under one of two plain suites. */
  lemma LongReplyFails(blockSize: nat, encKey: ByteVector, macKey: ByteVector, ssc: Counter, r: Reply)
    requires (blockSize == 8 || blockSize == 16) && ReplyLength(blockSize, r) > 127
    ensures exists b: byte :: var s := PlainSuite(blockSize, b);
              Sound(s) && DecryptRapdu(s, encKey, macKey, ssc, CardReply(s, encKey, macKey, ssc, r)).Err?
  {
    hide CardReply, SplitRapdu, ReplyFront, Pad;
    var front := ReplyFront(blockSize, r);
    LongReplyFront(blockSize, r);
    var l := front[1] as int + 2;
    var b: byte := if l < |front| - 6 && front[l + 6] == 0 then 0xFF else 0;
    var s := PlainSuite(blockSize, b);
    PlainIsSound(blockSize, b);
    PlainReply(blockSize, encKey, macKey, ssc, r, b);
    SplitOfLong(front, Eight(b), Status(r));
    var rapdu := CardReply(s, encKey, macKey, ssc, r);
    assert rapdu == front + Eight(b) + Status(r) && rapdu[0] == front[0];
    var p := SplitRapdu(rapdu);
    if p.Ok? {
      if l < |front| - 6 {
        assert p.value.macObject[2..][0] == front[l + 6] != Eight(b)[0];
      } else {
        assert |p.value.dataObject| == 131;
        assert |p.value.dataObject[2..]| % blockSize != 0;
      }
    }
    assert DecryptRapdu(s, encKey, macKey, ssc, rapdu).Err?;
  }

  ghost predicate AlwaysRead(blockSize: nat, encKey: ByteVector, macKey: ByteVector, ssc: Counter, r: Reply) {
    forall s: Suite :: Sound(s) && s.blockSize == blockSize ==>
      DecryptRapdu(s, encKey, macKey, ssc, CardReply(s, encKey, macKey, ssc, r)) == Ok(Plain(r))
  }

  /** Under all suites decrypt_rapdu returns data and status of a card's response if and only if its data
      object, if there is one, is at most 127 bytes long. */
  lemma ReplySurvivesExactlyWhen(blockSize: nat, encKey: ByteVector, macKey: ByteVector, ssc: Counter, r: Reply)
    requires blockSize == 8 || blockSize == 16
    ensures AlwaysRead(blockSize, encKey, macKey, ssc, r) <==> ReplyLength(blockSize, r) <= 127
  {
    hide DecryptRapdu, CardReply, ReplyLength, Sound;
    if ReplyLength(blockSize, r) <= 127 {
      forall s: Suite | Sound(s) && s.blockSize == blockSize
        ensures DecryptRapdu(s, encKey, macKey, ssc, CardReply(s, encKey, macKey, ssc, r)) == Ok(Plain(r))
      {
        ReplySurvives(s, encKey, macKey, ssc, r);
      }
    } else {
      LongReplyFails(blockSize, encKey, macKey, ssc, r);
    }
  }
}
