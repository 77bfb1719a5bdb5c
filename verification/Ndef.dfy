/** NDEF messages: what encode writes, what the parsing constructor reads, and exactly when the two agree.
    The writer puts the id after the payload and long lengths big-endian; the reader looks for the id
    before the payload, reads long lengths little-endian and skips one byte more; and it wants four
    bytes where a record starts. */
module Ndef {
  import opened Arithmetic
  import opened Bytes

  /** A type name format: three bits. */
  type Tnf = x: int | 0 <= x < 8

  const TNF_EMPTY: Tnf := 0
  const TNF_WELL_KNOWN: Tnf := 1
  const TNF_MIME_MEDIA: Tnf := 2

  datatype Record = Record(tnf: Tnf, kind: ByteVector, payload: ByteVector, id: ByteVector)

  const TEXT: ByteVector := [0x54]
  const URI: ByteVector := [0x55]

  // ----- writing -----

  function Flag(b: bool, weight: nat): nat { if b then weight else 0 }

  /** The first byte of a record: three bits of format under the flags MB, ME, SR and IL. */
  function TnfByte(r: Record, first: bool, last: bool): byte {
    r.tnf + Flag(first, 0x80) + Flag(last, 0x40) + Flag(|r.payload| <= 0xFF, 0x10) + Flag(r.id != [], 0x08)
  }

  function PayloadLengthBytes(r: Record): ByteVector {
    if |r.payload| <= 0xFF then [|r.payload|] else ToBigEndian(|r.payload|, 4)
  }

  function IdLengthBytes(r: Record): ByteVector {
    if r.id != [] then [|r.id| % 256] else []
  }

  function Header(r: Record, first: bool, last: bool): ByteVector {
    [TnfByte(r, first, last), |r.kind| % 256] + PayloadLengthBytes(r) + IdLengthBytes(r)
  }

  function EncodeRecord(r: Record, first: bool, last: bool): ByteVector {
    Header(r, first, last) + r.kind + r.payload + r.id
  }

  /** getEncodedSize. */
  function EncodedSize(r: Record): nat {
    2 + (if |r.payload| > 0xFF then 4 else 1) + (if r.id != [] then 1 else 0) + |r.kind| + |r.payload| + |r.id|
  }

  lemma SizeOfEncoding(r: Record, first: bool, last: bool)
    ensures |EncodeRecord(r, first, last)| == EncodedSize(r)
  {
  }

  /** The records from here on; only the first of a message is marked first, only the last one last. */
  function EncodeRest(rs: seq<Record>, first: bool): ByteVector {
    if |rs| == 0 then [] else EncodeRecord(rs[0], first, |rs| == 1) + EncodeRest(rs[1..], false)
  }

  function Encode(rs: seq<Record>): ByteVector { EncodeRest(rs, true) }

  // ----- reading -----

  /** The numbered checks of the parser, and reads outside a buffer, which it does not check. */
  datatype Trouble = TooSmall(check: nat) | OutOfBounds

  datatype Step = Step(record: Record, next: nat, me: bool)

  predicate BitSet(b: byte, weight: nat)
    requires weight > 0
  {
    (b / weight) % 2 == 1
  }

  /** What the record types do with a payload: a text record needs its language, a URI record its prefix. */
  predicate WellFormed(kind: ByteVector, payload: ByteVector) {
    && (kind == TEXT ==> payload != [] && 1 + payload[0] % 64 <= |payload|)
    && (kind == URI ==> payload != [])
  }

  function LittleEndian(b0: int, b1: int, b2: int, b3: int): int {
    b0 + 0x100 * b1 + 0x1_0000 * b2 + 0x100_0000 * b3
  }

  /** The payload length: one byte, or four read the wrong way round, of which the top bit makes it negative. */
  function PayloadLength(data: ByteVector, at: nat, short: bool): (r: Result<(int, nat), Trouble>)
    requires at < |data|
  {
    if short then Ok((data[at], at))
    else if at + 4 > |data| then Err(OutOfBounds)
    else
      var n := LittleEndian(data[at], data[at + 1], data[at + 2], data[at + 3]);
      Ok((if n < 0x8000_0000 then n else n - 0x1_0000_0000, at + 4))
  }

  /** Type, id and payload, from the index after the lengths. */
  function ReadFields(data: ByteVector, at: nat, tnf: Tnf, typeLength: nat, idLength: nat, payloadLength: int,
                      me: bool): (r: Result<Step, Trouble>)
  {
    if at + typeLength > |data| then Err(TooSmall(3))
    else if at + typeLength + idLength > |data| then Err(TooSmall(4))
    else
      var p := at + typeLength + idLength;
      if payloadLength < 0 then Err(if p + payloadLength < 0 then TooSmall(5) else OutOfBounds)
      else if p + payloadLength > |data| then Err(TooSmall(5))
      else
        var kind, payload := data[at..at + typeLength], data[p..p + payloadLength];
        if !WellFormed(kind, payload) then Err(OutOfBounds)
        else Ok(Step(Record(tnf, kind, payload, data[at + typeLength..p]), p + payloadLength, me))
  }

  /** One round of the parser. */
  function ReadRecord(data: ByteVector, index: nat): (r: Result<Step, Trouble>) {
    if index + 3 >= |data| then Err(TooSmall(1))
    else
      var b := data[index];
      var me, sr, il := BitSet(b, 0x40), BitSet(b, 0x10), BitSet(b, 0x08);
      match PayloadLength(data, index + 2, sr)
      case Err(e) => Err(e)
      case Ok((payloadLength, at)) =>
        if il && at + 1 >= |data| then Err(TooSmall(2))
        else if il then ReadFields(data, at + 2, b % 8, data[index + 1], data[at + 1], payloadLength, me)
        else ReadFields(data, at + 1, b % 8, data[index + 1], 0, payloadLength, me)
  }

  lemma FieldsAdvance(data: ByteVector, at: nat, tnf: Tnf, typeLength: nat, idLength: nat, payloadLength: int, me: bool)
    ensures var r := ReadFields(data, at, tnf, typeLength, idLength, payloadLength, me);
            r.Ok? ==>
              && |r.value.record.kind| == typeLength && |r.value.record.id| == idLength
              && |r.value.record.payload| == payloadLength
              && WellFormed(r.value.record.kind, r.value.record.payload)
              && r.value.next == at + typeLength + idLength + payloadLength <= |data|
              && EncodedSize(r.value.record) ==
                 2 + (if payloadLength > 0xFF then 4 else 1) + (if idLength != 0 then 1 else 0)
                 + typeLength + payloadLength + idLength
  {
    hide WellFormed;
  }

  lemma ReadRecordAdvances(data: ByteVector, index: nat)
    ensures var r := ReadRecord(data, index);
            r.Ok? ==> index + EncodedSize(r.value.record) <= r.value.next <= |data|
    ensures var r := ReadRecord(data, index);
            r.Ok? && |r.value.record.payload| > 0xFF ==> index + EncodedSize(r.value.record) < r.value.next
    ensures var r := ReadRecord(data, index);
            r.Ok? ==>
              && |r.value.record.kind| <= 0xFF && |r.value.record.id| <= 0xFF
              && WellFormed(r.value.record.kind, r.value.record.payload)
  {
    hide BitSet, WellFormed, LittleEndian, ReadFields, EncodedSize;
    if index + 3 < |data| {
      var b := data[index];
      match PayloadLength(data, index + 2, BitSet(b, 0x10))
      case Err(_) =>
      case Ok((payloadLength, at)) =>
        if BitSet(b, 0x08) && at + 1 < |data| {
          FieldsAdvance(data, at + 2, b % 8, data[index + 1], data[at + 1], payloadLength, BitSet(b, 0x40));
        } else if !BitSet(b, 0x08) {
          FieldsAdvance(data, at + 1, b % 8, data[index + 1], 0, payloadLength, BitSet(b, 0x40));
        }
    }
  }

  /** The parsing constructor from an index on: to the end of the buffer or the last-record flag. */
  function ParseFrom(data: ByteVector, index: nat): Result<seq<Record>, Trouble>
    requires index <= |data|
    decreases |data| - index
  {
    if index == |data| then Ok([])
    else match ReadRecord(data, index)
      case Err(e) => Err(e)
      case Ok(s) =>
        ReadRecordAdvances(data, index);
        if s.me then Ok([s.record])
        else match ParseFrom(data, s.next)
          case Err(e) => Err(e)
          case Ok(rest) => Ok([s.record] + rest)
  }

  function Parse(data: ByteVector): Result<seq<Record>, Trouble> { ParseFrom(data, 0) }

  // ----- round trips -----

  /** A record the reader takes for itself: single-byte lengths, a payload its type accepts, and an id
      that may as well stand before the payload. */
  predicate Readable(r: Record) {
    && |r.kind| <= 0xFF && |r.payload| <= 0xFF && |r.id| <= 0xFF
    && WellFormed(r.kind, r.payload)
    && r.payload + r.id == r.id + r.payload
  }

  predicate AllReadable(rs: seq<Record>) {
    forall i :: 0 <= i < |rs| ==> Readable(rs[i])
  }

  /** The first byte of a record as section 3.2 of the NFC Forum's NDEF has it: the format in the three
      lowest bits, MB, ME, SR and IL where they belong, and never a chunk flag. */
  lemma FlagsRead(r: Record, first: bool, last: bool)
    ensures var b := TnfByte(r, first, last);
            && b % 8 == r.tnf && BitSet(b, 0x80) == first && BitSet(b, 0x40) == last && !BitSet(b, 0x20)
            && BitSet(b, 0x10) == (|r.payload| <= 0xFF) && BitSet(b, 0x08) == (r.id != [])
  {
    var b := TnfByte(r, first, last);
    var c := Flag(first, 16) + Flag(last, 8) + Flag(|r.payload| <= 0xFF, 2) + Flag(r.id != [], 1);
    assert b == 8 * c + r.tnf;
    assert b / 0x08 == c;
    assert b / 0x10 == Flag(first, 8) + Flag(last, 4) + Flag(|r.payload| <= 0xFF, 1);
    assert b / 0x20 == Flag(first, 4) + Flag(last, 2);
    assert b / 0x40 == Flag(first, 2) + Flag(last, 1);
    assert b / 0x80 == Flag(first, 1);
  }

  /** A payload length is written most significant byte first, as the standard has it. */
  lemma PayloadLengthIsBigEndian(r: Record)
    requires |r.payload| < 0x1_0000_0000
    ensures BigEndian(PayloadLengthBytes(r)) == |r.payload|
    ensures |PayloadLengthBytes(r)| == if |r.payload| <= 0xFF then 1 else 4
  {
    if |r.payload| > 0xFF {
      assert Power256(2) == 0x1_0000;
      assert Power256(4) == 256 * (256 * Power256(2));
      ToBigEndianSpells(|r.payload|, 4);
    } else {
      assert BigEndian([]) == 0;
      assert PayloadLengthBytes(r)[..0] == [];
    }
  }

  /** Types and ids of any length: their length fields hold the length modulo 256, and there is an id length
      exactly when there is an id. */
  lemma LengthFieldsAreCut(r: Record, first: bool, last: bool)
    ensures var d, n := EncodeRecord(r, first, last), if |r.payload| <= 0xFF then 3 else 6;
            && |d| >= n && d[1] == |r.kind| % 256
            && (r.id != [] ==> |d| > n && d[n] == |r.id| % 256 && d[n + 1..] == r.kind + r.payload + r.id)
            && (r.id == [] ==> d[n..] == r.kind + r.payload)
  {
    hide TnfByte;
    var h := Header(r, first, last);
    assert EncodeRecord(r, first, last) == h + (r.kind + r.payload + r.id);
    assert r.id == [] ==> r.kind + r.payload + r.id == r.kind + r.payload;
  }

  /** The types that are read in a way of their own, and the formats the library writes. */
  lemma NamesOfTypes(kind: ByteVector, payload: ByteVector)
    ensures TNF_EMPTY == 0 && TNF_WELL_KNOWN == 1 && TNF_MIME_MEDIA == 2
    ensures !WellFormed(kind, payload) <==>
            || (kind == [0x54] && (payload == [] || payload[0] % 64 >= |payload|))
            || (kind == [0x55] && payload == [])
  {
  }

  /** The number that four length bytes give the reader. */
  lemma LongLengthIsBackwards(data: ByteVector, at: nat)
    requires at + 4 <= |data|
    ensures var n := data[at] as int + 0x100 * data[at + 1] as int + 0x1_0000 * data[at + 2] as int + 0x100_0000 * data[at + 3] as int;
            PayloadLength(data, at, false) == Ok((if n < 0x8000_0000 then n else n - 0x1_0000_0000, at + 4))
  {
  }

  lemma LongRecordFields(data: ByteVector, n: nat, length: int, id: bool)
    requires n + (if id then 8 else 7) <= |data| && !BitSet(data[n], 0x10) && BitSet(data[n], 0x08) == id
    requires PayloadLength(data, n + 2, false) == Ok((length, n + 6))
    ensures ReadRecord(data, n) ==
            if id then ReadFields(data, n + 8, data[n] % 8, data[n + 1], data[n + 7], length, BitSet(data[n], 0x40))
            else ReadFields(data, n + 7, data[n] % 8, data[n + 1], 0, length, BitSet(data[n], 0x40))
  {
    hide BitSet, ReadFields, PayloadLength;
  }

  lemma NegativeFails(data: ByteVector, at: nat, tnf: Tnf, typeLength: nat, idLength: nat, length: int, me: bool)
    requires length < 0 && at + typeLength + idLength <= |data|
    ensures ReadFields(data, at, tnf, typeLength, idLength, length, me) ==
            Err(if length < -(at + typeLength + idLength) then TooSmall(5) else OutOfBounds)
  {
  }

  lemma ThreeSlices(data: ByteVector, at: nat, a: ByteVector, b: ByteVector, c: ByteVector)
    requires at <= |data| && a + b + c <= data[at..]
    ensures var p, q := at + |a|, at + |a| + |b|;
            q + |c| <= |data| && data[at..p] == a && data[p..q] == b && data[q..q + |c|] == c
  {
    var s, n, m := a + b + c, |a|, |a| + |b|;
    var t := data[at..];
    assert t[..|s|] == s;
    assert s[..n] == a && s[n..m] == b && s[m..] == c;
    assert data[at..at + n] == t[..n] == t[..|s|][..n];
    assert data[at + n..at + m] == t[n..m] == t[..|s|][n..m];
    assert data[at + m..at + |s|] == t[m..|s|] == t[..|s|][m..];
  }

  /** What one round makes of a long record: the four length bytes are taken the wrong way round, the byte
      behind them is skipped; and a length from 2^31 on counts as negative, which throws when it leads in
      front of the buffer and is a read with its ends exchanged otherwise. */
  lemma LongRecordRead(data: ByteVector, n: nat, kind: ByteVector, id: ByteVector, payload: ByteVector)
    requires var h := if id == [] then 7 else 8;
             && n + h <= |data| && |kind| <= 0xFF && |id| <= 0xFF
             && !BitSet(data[n], 0x10) && BitSet(data[n], 0x08) == (id != [])
             && data[n + 1] == |kind| && (id != [] ==> data[n + 7] == |id|)
             && kind + id + payload <= data[n + h..]
    ensures var length := data[n + 2] as int + 0x100 * data[n + 3] as int + 0x1_0000 * data[n + 4] as int + 0x100_0000 * data[n + 5] as int;
            var h := if id == [] then 7 else 8;
            && (length >= 0x8000_0000 ==>
                  ReadRecord(data, n) ==
                  Err(if n + h + |kind| + |id| + length < 0x1_0000_0000 then TooSmall(5) else OutOfBounds))
            && (length < 0x8000_0000 && length == |payload| ==>
                  ReadRecord(data, n) ==
                  if WellFormed(kind, payload)
                  then Ok(Step(Record(data[n] % 8, kind, payload, id), n + h + |kind| + |id| + |payload|, BitSet(data[n], 0x40)))
                  else Err(OutOfBounds))
  {
    hide BitSet, WellFormed, ReadFields, ReadRecord, PayloadLength;
    var h := if id == [] then 7 else 8;
    var at, tnf, me := n + h, data[n] % 8, BitSet(data[n], 0x40);
    LongLengthIsBackwards(data, n + 2);
    var length := PayloadLength(data, n + 2, false).value.0;
    LongRecordFields(data, n, length, id != []);
    if length < 0 {
      NegativeFails(data, at, tnf, |kind|, |id|, length, me);
    } else if length == |payload| {
      ThreeSlices(data, at, kind, id, payload);
      FieldsRead(data, at, tnf, kind, id, payload, me);
    }
  }

  /** Where a long record is cut inside its lengths. */
  lemma CutLongRecord(data: ByteVector, n: nat)
    requires n < |data| && !BitSet(data[n], 0x10)
    ensures |data| <= n + 3 ==> ReadRecord(data, n) == Err(TooSmall(1))
    ensures n + 4 <= |data| <= n + 5 ==> ReadRecord(data, n) == Err(OutOfBounds)
    ensures n + 6 <= |data| <= n + 7 && BitSet(data[n], 0x08) ==> ReadRecord(data, n) == Err(TooSmall(2))
  {
    hide BitSet, WellFormed, LittleEndian;
  }

  /** Slices of parts laid end to end, the last two read as one and cut at k. */
  lemma Slices(a: ByteVector, b: ByteVector, c: ByteVector, d: ByteVector, e: ByteVector, f: ByteVector, k: nat)
    requires |b| >= 3 && k <= |d + e|
    ensures var s, at := a + (b + c + d + e) + f, |a| + |b|;
            var p := at + |c|;
            && |s| == p + |d| + |e| + |f|
            && s[|a|] == b[0] && s[|a| + 1] == b[1] && s[|a| + 2] == b[2] && (|b| > 3 ==> s[|a| + 3] == b[3])
            && s[at..p] == c && s[p..p + k] == (d + e)[..k] && s[p + k..p + |d| + |e|] == (d + e)[k..]
  {
    var s := a + (b + c + d + e) + f;
    var p := |a| + |b| + |c|;
    assert s[p..p + |d| + |e|] == d + e;
  }

  lemma HeaderBytes(r: Record, first: bool, last: bool)
    requires |r.kind| <= 0xFF && |r.payload| <= 0xFF && |r.id| <= 0xFF
    ensures var h := Header(r, first, last);
            && |h| == (if r.id != [] then 4 else 3) && |h| + |r.kind| + |r.payload| + |r.id| == EncodedSize(r)
            && h[0] == TnfByte(r, first, last) && h[1] == |r.kind| && h[2] == |r.payload|
            && (r.id != [] ==> h[3] == |r.id|)
  {
    hide TnfByte;
  }

  /** A short record leads straight to its fields. */
  lemma ShortRecordRead(data: ByteVector, n: nat, tnf: Tnf, typeLength: byte, payloadLength: byte, idLength: byte, last: bool)
    requires n + (if idLength > 0 then 4 else 3) <= |data|
    requires data[n] % 8 == tnf && BitSet(data[n], 0x40) == last && BitSet(data[n], 0x10)
    requires BitSet(data[n], 0x08) == (idLength > 0)
    requires data[n + 1] == typeLength && data[n + 2] == payloadLength && (idLength > 0 ==> data[n + 3] == idLength)
    ensures ReadRecord(data, n) ==
            if |data| < n + 4 then Err(TooSmall(1))
            else ReadFields(data, n + (if idLength > 0 then 4 else 3), tnf, typeLength, idLength, payloadLength, last)
  {
    hide BitSet, ReadFields;
  }

  lemma FieldsRead(data: ByteVector, at: nat, tnf: Tnf, kind: ByteVector, id: ByteVector, payload: ByteVector, last: bool)
    requires var p := at + |kind| + |id|;
             && p + |payload| <= |data| && data[at..at + |kind|] == kind
             && data[at + |kind|..p] == id && data[p..p + |payload|] == payload
    ensures ReadFields(data, at, tnf, |kind|, |id|, |payload|, last) ==
            if !WellFormed(kind, payload) then Err(OutOfBounds)
            else Ok(Step(Record(tnf, kind, payload, id), at + |kind| + |id| + |payload|, last))
  {
    hide WellFormed;
  }

  /** What one round reads of a written record with single-byte lengths: the format, the type, and the
      id taken from the front of payload and id. */
  lemma ReadsEncoded(before: ByteVector, r: Record, first: bool, last: bool, after: ByteVector)
    requires |r.kind| <= 0xFF && |r.payload| <= 0xFF && |r.id| <= 0xFF
    ensures var data := before + EncodeRecord(r, first, last) + after;
            var id, payload := (r.payload + r.id)[..|r.id|], (r.payload + r.id)[|r.id|..];
            ReadRecord(data, |before|) ==
              if EncodedSize(r) + |after| < 4 then Err(TooSmall(1))
              else if !WellFormed(r.kind, payload) then Err(OutOfBounds)
              else Ok(Step(Record(r.tnf, r.kind, payload, id), |before| + EncodedSize(r), last))
  {
    hide WellFormed, BitSet, TnfByte, Header, EncodedSize, ReadRecord, ReadFields;
    var n := |before|;
    var data := before + EncodeRecord(r, first, last) + after;
    var header, body := Header(r, first, last), r.payload + r.id;
    HeaderBytes(r, first, last);
    Slices(before, header, r.kind, r.payload, r.id, after, |r.id|);
    assert data == before + (header + r.kind + r.payload + r.id) + after;
    FlagsRead(r, first, last);
    ShortRecordRead(data, n, r.tnf, |r.kind|, |r.payload|, |r.id|, last);
    FieldsRead(data, n + |header|, r.tnf, r.kind, body[..|r.id|], body[|r.id|..], last);
  }

  /** A written record with single-byte lengths, cut anywhere: which of the checks fails, by where the cut is. */
  lemma CutRecordFails(r: Record, first: bool, last: bool, k: nat)
    requires |r.kind| <= 0xFF && |r.payload| <= 0xFF && |r.id| <= 0xFF && k < EncodedSize(r)
    ensures |EncodeRecord(r, first, last)| == EncodedSize(r)
    ensures var h := if r.id != [] then 4 else 3;
            ReadRecord(EncodeRecord(r, first, last)[..k], 0) ==
            Err(TooSmall(if k < 4 then 1
                         else if k < h + |r.kind| then 3
                         else if k < h + |r.kind| + |r.id| then 4 else 5))
  {
    hide BitSet, TnfByte, Header, WellFormed;
    SizeOfEncoding(r, first, last);
    HeaderBytes(r, first, last);
    FlagsRead(r, first, last);
    var d := EncodeRecord(r, first, last);
    assert d == Header(r, first, last) + (r.kind + r.payload + r.id);
    if k >= 4 {
      assert d[0] == TnfByte(r, first, last) && d[1] == |r.kind| && d[2] == |r.payload|;
      assert r.id != [] ==> d[3] == |r.id|;
      ShortRecordRead(d[..k], 0, r.tnf, |r.kind|, |r.payload|, |r.id|, last);
    }
  }

  /** Payload and id change places without a change exactly when the reader's split is the writer's. */
  lemma SplitIsOwn(r: Record)
    ensures r.payload + r.id == r.id + r.payload <==>
            (r.payload + r.id)[..|r.id|] == r.id && (r.payload + r.id)[|r.id|..] == r.payload
  {
    var body := r.payload + r.id;
    assert body == body[..|r.id|] + body[|r.id|..];
    if body == r.id + r.payload {
      assert body[..|r.id|] == r.id && body[|r.id|..] == r.payload;
    }
  }

  /** Reading one record and going on behind it. */
  lemma ParseStep(data: ByteVector, index: nat, s: Step)
    requires index < |data| && ReadRecord(data, index) == Ok(s)
    ensures index < s.next <= |data|
    ensures ParseFrom(data, index) ==
            if s.me then Ok([s.record])
            else match ParseFrom(data, s.next) case Err(e) => Err(e) case Ok(rest) => Ok([s.record] + rest)
  {
    hide ReadRecord, EncodedSize;
    ReadRecordAdvances(data, index);
    SizeIsPositive(s.record);
  }

  lemma SizeIsPositive(r: Record)
    ensures EncodedSize(r) >= 3
  {
  }

  lemma EncodeRestIs(rs: seq<Record>, first: bool)
    requires |rs| > 0
    ensures EncodeRest(rs, first) == EncodeRecord(rs[0], first, |rs| == 1) + EncodeRest(rs[1..], false)
    ensures |rs| == 1 ==> EncodeRest(rs[1..], false) == []
  {
    hide EncodeRecord;
  }

  /** A message of readable records is read back wherever it stands, whatever follows, if the reader
      finds four bytes where the last record starts. */
  lemma {:induction false} ReadableComesBack(before: ByteVector, rs: seq<Record>, first: bool, after: ByteVector)
    requires |rs| > 0 && AllReadable(rs) && EncodedSize(rs[|rs| - 1]) + |after| >= 4
    ensures ParseFrom(before + EncodeRest(rs, first) + after, |before|) == Ok(rs)
    decreases |rs|
  {
    hide ReadRecord, EncodeRecord, EncodeRest, EncodedSize, ParseFrom, Readable, WellFormed;
    var encoded, rest := EncodeRecord(rs[0], first, |rs| == 1), EncodeRest(rs[1..], false);
    var data := before + encoded + (rest + after);
    EncodeRestIs(rs, first);
    assert before + EncodeRest(rs, first) + after == data;
    SizeOfEncoding(rs[0], first, |rs| == 1);
    SizeIsPositive(rs[0]);
    assert Readable(rs[0]);
    if |rs| > 1 {
      RestIsLong(rs[1..]);
    }
    ReadsReadable(before, rs[0], first, |rs| == 1, rest + after);
    ParseStep(data, |before|, Step(rs[0], |before| + EncodedSize(rs[0]), |rs| == 1));
    if |rs| > 1 {
      assert rs[1..][|rs| - 2] == rs[|rs| - 1];
      ReadableComesBack(before + encoded, rs[1..], false, after);
      assert data == (before + encoded) + rest + after;
      assert rs == [rs[0]] + rs[1..];
    } else {
      assert rs == [rs[0]];
    }
  }

  lemma ReadsReadable(before: ByteVector, r: Record, first: bool, last: bool, after: ByteVector)
    ensures Readable(r) && EncodedSize(r) + |after| >= 4 ==>
              ReadRecord(before + EncodeRecord(r, first, last) + after, |before|) ==
              Ok(Step(r, |before| + EncodedSize(r), last))
  {
    hide ReadRecord, EncodeRecord, WellFormed;
    if Readable(r) {
      ReadsEncoded(before, r, first, last, after);
      SplitIsOwn(r);
    }
  }

  lemma RestIsLong(rs: seq<Record>)
    requires |rs| > 0
    ensures |EncodeRest(rs, false)| >= 3
  {
    SizeOfEncoding(rs[0], false, |rs| == 1);
  }

  function TotalSize(rs: seq<Record>): nat {
    if |rs| == 0 then 0 else EncodedSize(rs[0]) + TotalSize(rs[1..])
  }

  lemma {:induction false} SizeOfMessage(rs: seq<Record>, first: bool)
    ensures |EncodeRest(rs, first)| == TotalSize(rs)
    decreases |rs|
  {
    if |rs| > 0 {
      SizeOfEncoding(rs[0], first, |rs| == 1);
      SizeOfMessage(rs[1..], false);
    }
  }

  /** The reader never uses fewer bytes for a record than the writer, and more for a long one. */
  lemma {:induction false} ReadingTakesRoom(data: ByteVector, index: nat)
    requires index <= |data| && ParseFrom(data, index).Ok?
    ensures var rs := ParseFrom(data, index).value;
            && index + TotalSize(rs) <= |data|
            && (|rs| > 0 ==> ReadRecord(data, index).Ok? && ReadRecord(data, index).value.next + TotalSize(rs[1..]) <= |data|)
    decreases |data| - index
  {
    hide ReadRecord, EncodedSize;
    if index < |data| {
      ReadRecordAdvances(data, index);
      var s := ReadRecord(data, index).value;
      if !s.me {
        ReadingTakesRoom(data, s.next);
      }
      var rs := ParseFrom(data, index).value;
      assert rs[1..] == if s.me then [] else ParseFrom(data, s.next).value;
    }
  }

  /** What one round must have read of a written record that came back as itself. */
  lemma OwnRecordIsReadable(before: ByteVector, r: Record, first: bool, last: bool, after: ByteVector)
    requires var x := ReadRecord(before + EncodeRecord(r, first, last) + after, |before|);
             x.Ok? && x.value.record == r && x.value.next <= |before| + EncodedSize(r)
    ensures Readable(r) && EncodedSize(r) + |after| >= 4
    ensures ReadRecord(before + EncodeRecord(r, first, last) + after, |before|) ==
            Ok(Step(r, |before| + EncodedSize(r), last))
  {
    hide ReadRecord, EncodeRecord, WellFormed, EncodedSize;
    ReadRecordAdvances(before + EncodeRecord(r, first, last) + after, |before|);
    ReadsEncoded(before, r, first, last, after);
    SplitIsOwn(r);
  }

  /** What came back as itself was readable, and the last record had four bytes. */
  lemma {:induction false} OnlyReadableComesBack(before: ByteVector, rs: seq<Record>, first: bool)
    requires |rs| > 0
    requires ParseFrom(before + EncodeRest(rs, first), |before|) == Ok(rs)
    ensures AllReadable(rs) && EncodedSize(rs[|rs| - 1]) >= 4
    decreases |rs|
  {
    hide ReadRecord, EncodeRecord, Readable, EncodedSize;
    var data := before + EncodeRest(rs, first);
    var encoded, rest := EncodeRecord(rs[0], first, |rs| == 1), EncodeRest(rs[1..], false);
    assert data == before + encoded + rest && data == (before + encoded) + rest;
    SizeOfMessage(rs, first);
    SizeOfMessage(rs[1..], false);
    SizeOfEncoding(rs[0], first, |rs| == 1);
    ReadingTakesRoom(data, |before|);
    assert ReadRecord(data, |before|).value.record == rs[0];
    OwnRecordIsReadable(before, rs[0], first, |rs| == 1, rest);
    if |rs| > 1 {
      assert rs[1..] == ParseFrom(data, |before + encoded|).value;
      OnlyReadableComesBack(before + encoded, rs[1..], false);
      assert forall i :: 1 <= i < |rs| ==> rs[i] == rs[1..][i - 1];
    }
  }

  /** Parsing the encoding of a message gives back its records if and only if every record is readable
      and the last one takes at least four bytes. */
  lemma RoundTripExactlyWhen(rs: seq<Record>)
    ensures Parse(Encode(rs)) == Ok(rs) <==> AllReadable(rs) && (|rs| > 0 ==> EncodedSize(rs[|rs| - 1]) >= 4)
  {
    hide ReadRecord, EncodeRecord, Readable, EncodedSize;
    if |rs| > 0 {
      assert [] + Encode(rs) == Encode(rs) && [] + Encode(rs) + [] == Encode(rs);
      if AllReadable(rs) && EncodedSize(rs[|rs| - 1]) >= 4 {
        ReadableComesBack([], rs, true, []);
      }
      if Parse(Encode(rs)) == Ok(rs) {
        OnlyReadableComesBack([], rs, true);
      }
    }
  }

  /** The same with any bytes after the message: the last-record flag ends the reading. */
  lemma TrailingBytesAreIgnored(rs: seq<Record>, after: ByteVector)
    requires |rs| > 0 && AllReadable(rs) && EncodedSize(rs[|rs| - 1]) + |after| >= 4
    ensures Parse(Encode(rs) + after) == Ok(rs)
  {
    hide EncodeRest, ParseFrom, Readable, EncodedSize;
    assert [] + Encode(rs) + after == Encode(rs) + after;
    ReadableComesBack([], rs, true, after);
  }

  /** The shape the library writes itself: no id, short lengths; such records are readable. */
  lemma WithoutIdIsReadable(r: Record)
    requires r.id == [] && |r.kind| <= 0xFF && |r.payload| <= 0xFF && WellFormed(r.kind, r.payload)
    ensures Readable(r)
  {
    assert r.payload + [] == [] + r.payload;
  }

  const EMPTY_RECORD: Record := Record(TNF_EMPTY, [], [], [])

  /** A message that ends in an empty record cannot be read back, though the standard has it. */
  lemma EmptyRecordIsTooSmall()
    ensures Parse(Encode([EMPTY_RECORD])) == Err(TooSmall(1))
  {
    SizeOfMessage([EMPTY_RECORD], true);
  }

  // ----- text records -----

  /** The payload addTextRecord builds. */
  function TextPayload(text: ByteVector, language: ByteVector, utf16: bool): ByteVector {
    [(Flag(utf16, 0x80) + |language|) % 256] + language + text
  }

  /** Language and text as a text record splits its payload. */
  function TextParts(payload: ByteVector): (ByteVector, ByteVector)
    requires WellFormed(TEXT, payload)
  {
    var size := payload[0] % 64;
    (payload[1..1 + size], payload[1 + size..])
  }

  lemma FlagIs(b: bool, weight: nat)
    ensures Flag(b, weight) == if b then weight else 0
  {
  }

  lemma LowSixBits(n: nat, utf16: bool)
    ensures ((Flag(utf16, 0x80) + n) % 256) % 64 == n % 64
  {
  }

  lemma SplitAt(first: byte, language: ByteVector, text: ByteVector, size: nat)
    requires size <= |language|
    ensures var payload := [first] + language + text;
            (payload[1..1 + size], payload[1 + size..]) == (language, text) <==> size == |language|
  {
    var payload := [first] + language + text;
    assert |payload[1..1 + size]| == size;
    if size == |language| {
      assert payload[1..1 + size] == language && payload[1 + size..] == text;
    }
  }

  /** A text record is always well formed; its language and text come back if and only if the language
      has fewer than 64 characters. */
  lemma TextComesBack(text: ByteVector, language: ByteVector, utf16: bool)
    ensures WellFormed(TEXT, TextPayload(text, language, utf16))
    ensures TextParts(TextPayload(text, language, utf16)) == (language, text) <==> |language| < 64
    ensures TextPayload(text, language, utf16)[0] == ((if utf16 then 128 else 0) + |language|) % 256
    ensures TextPayload(text, language, utf16)[1..] == language + text
    ensures |language| < 64 ==> (TextPayload(text, language, utf16)[0] >= 128 <==> utf16)
  {
    FlagIs(utf16, 0x80);
    assert TextPayload(text, language, utf16) == TextPayload(text, language, utf16)[..1] + (language + text);
    hide Flag;
    var first := TextPayload(text, language, utf16)[0];
    LowSixBits(|language|, utf16);
    var size := first % 64;
    assert size == |language| % 64 <= |language|;
    SplitAt(first, language, text, size);
  }
}
