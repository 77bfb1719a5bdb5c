/** The NDEF message object: its list of records, the loops that write and read it, and the conversions
    to and from the TLV area, each against the functions of Ndef and NdefTlv. */
module NdefObjects {
  import opened Bytes
  import opened Ndef
  import opened NdefTlv

  // ----- one record -----

  function Or(x: bv8, y: bv8): bv8 { x | y }

  lemma OrIsSum(t: bv8, first: bool, last: bool, short: bool, il: bool)
    requires t < 8
    ensures var a := if first then Or(t, 0x80) else t;
            var b := if last then Or(a, 0x40) else a;
            var c := if short then Or(b, 0x10) else b;
            var d := if il then Or(c, 0x08) else c;
            d == t + (if first then 0x80 else 0) + (if last then 0x40 else 0)
                   + (if short then 0x10 else 0) + (if il then 0x08 else 0)
  {
  }

  /** getTnfByte: the flags are or-ed into the format. */
  method GetTnfByte(r: Record, first: bool, last: bool) returns (value: bv8)
    ensures value as int == TnfByte(r, first, last)
  {
    hide Or;
    OrIsSum(r.tnf as bv8, first, last, |r.payload| <= 0xFF, r.id != []);
    value := r.tnf as bv8;
    if first {
      value := Or(value, 0x80);
    }
    if last {
      value := Or(value, 0x40);
    }
    if |r.payload| <= 0xFF {
      value := Or(value, 0x10);
    }
    if |r.id| != 0 {
      value := Or(value, 0x08);
    }
  }

  /** NdefRecord::encode, byte after byte. */
  method EncodeRecordSteps(r: Record, first: bool, last: bool) returns (data: ByteVector)
    ensures data == EncodeRecord(r, first, last)
  {
    hide TnfByte;
    var value := GetTnfByte(r, first, last);
    data := [value as int];
    data := data + [|r.kind| % 256];
    if |r.payload| <= 0xFF {
      data := data + [|r.payload|];
    } else {
      var n := |r.payload|;
      FourBytes(n);
      data := data + [n / 0x100_0000 % 256];
      data := data + [n / 0x1_0000 % 256];
      data := data + [n / 0x100 % 256];
      data := data + [n % 256];
    }
    if |r.id| != 0 {
      data := data + [|r.id| % 256];
    }
    assert data == Header(r, first, last);
    data := data + r.kind;
    data := data + r.payload;
    if |r.id| != 0 {
      data := data + r.id;
    }
  }

  lemma FourBytes(n: nat)
    ensures ToBigEndian(n, 4) == [n / 0x100_0000 % 256, n / 0x1_0000 % 256, n / 0x100 % 256, n % 256]
  {
    var a, b, c := n / 0x100, n / 0x1_0000, n / 0x100_0000;
    assert b == a / 256 && c == b / 256;
    assert ToBigEndian(c, 1) == [c % 256];
    assert ToBigEndian(b, 2) == [c % 256, b % 256];
    assert ToBigEndian(a, 3) == [c % 256, b % 256, a % 256];
  }

  // ----- the message -----

  lemma {:induction false} EncodeSnoc(rs: seq<Record>, i: nat, first: bool)
    requires i < |rs|
    ensures EncodeRest(rs[i..], first) == EncodeRecord(rs[i], first, i + 1 == |rs|) + EncodeRest(rs[i + 1..], false)
  {
    hide EncodeRecord;
    assert rs[i..][1..] == rs[i + 1..];
  }

  class Message {
    var records: seq<Record>

    constructor ()
      ensures records == []
    {
      records := [];
    }

    method AddMimeMediaRecord(mimeType: ByteVector, payload: ByteVector)
      modifies this
      ensures records == old(records) + [Record(2, mimeType, payload, [])]
    {
      records := records + [Record(TNF_MIME_MEDIA, mimeType, payload, [])];
    }

    /** addTextRecord: what it adds suits a text record, and it is readable when it is small enough. */
    method AddTextRecord(text: ByteVector, language: ByteVector, utf16: bool)
      modifies this
      ensures var r := Record(1, [0x54], TextPayload(text, language, utf16), []);
              && records == old(records) + [r]
              && (Readable(r) <==> |language| + |text| < 0xFF)
    {
      var firstByte := if utf16 then 1 else 0;
      if firstByte != 0 {
        firstByte := (0x80 * firstByte) % 256;
      }
      firstByte := (firstByte + |language|) % 256;
      var payload: ByteVector := [firstByte];
      payload := payload + language;
      payload := payload + text;
      var r := Record(TNF_WELL_KNOWN, TEXT, payload, []);
      records := records + [r];
      TextComesBack(text, language, utf16);
      NoId(r);
    }

    method AddUriRecord(uri: ByteVector, prefix: byte)
      modifies this
      ensures var r := Record(1, [0x55], [prefix] + uri, []);
              && records == old(records) + [r]
              && (Readable(r) <==> |uri| < 0xFF)
    {
      var r := Record(TNF_WELL_KNOWN, URI, [prefix] + uri, []);
      records := records + [r];
      NoId(r);
    }

    method AddEmptyRecord()
      modifies this
      ensures records == old(records) + [Record(0, [], [], [])]
    {
      records := records + [EMPTY_RECORD];
    }

    method RemoveRecord(i: nat)
      requires i < |records|
      modifies this
      ensures records == old(records)[..i] + old(records)[i + 1..]
    {
      records := records[..i] + records[i + 1..];
    }

    /** encode: the records one after the other. */
    method EncodeMessage() returns (data: ByteVector)
      ensures data == Encode(records)
    {
      hide EncodeRecord;
      data := [];
      for i := 0 to |records|
        invariant data + EncodeRest(records[i..], i == 0) == Encode(records)
      {
        EncodeSnoc(records, i, i == 0);
        var record := EncodeRecordSteps(records[i], i == 0, i + 1 == |records|);
        ghost var rest := EncodeRest(records[i + 1..], false);
        assert data + (record + rest) == (data + record) + rest;
        data := data + record;
      }
    }
  }

  lemma NoId(r: Record)
    requires r.id == []
    ensures Readable(r) <==> |r.kind| <= 0xFF && |r.payload| <= 0xFF && WellFormed(r.kind, r.payload)
  {
    assert r.payload + r.id == r.payload == r.id + r.payload;
  }

  function AfterRecords(done: seq<Record>, r: Result<seq<Record>, Trouble>): Result<seq<Record>, Trouble> {
    match r case Err(e) => Err(e) case Ok(rest) => Ok(done + rest)
  }

  /** What one round of the parser leaves to be done. */
  lemma ParseFromStep(data: ByteVector, index: nat, done: seq<Record>)
    requires index < |data|
    ensures var step := ReadRecord(data, index);
            && (step.Ok? ==> index < step.value.next <= |data|)
            && AfterRecords(done, ParseFrom(data, index)) ==
               (match step
                case Err(e) => Err(e)
                case Ok(s) => if s.me then Ok(done + [s.record])
                              else AfterRecords(done + [s.record], ParseFrom(data, s.next)))
  {
    hide ReadRecord;
    ReadRecordAdvances(data, index);
    var step := ReadRecord(data, index);
    if step.Ok? {
      var later := ParseFrom(data, step.value.next);
      assert later.Ok? ==>
               done + ([step.value.record] + later.value) == done + [step.value.record] + later.value;
    }
  }

  lemma ParseEnds(data: ByteVector, done: seq<Record>)
    ensures AfterRecords(done, ParseFrom(data, |data|)) == Ok(done)
  {
    hide ReadRecord;
    assert done + [] == done;
  }

  lemma ParseStarts(data: ByteVector)
    ensures AfterRecords([], ParseFrom(data, 0)) == Parse(data)
  {
    hide ParseFrom;
    assert Parse(data).Ok? ==> [] + Parse(data).value == Parse(data).value;
  }

  /** The parsing constructor: it throws, or makes a message of exactly the records it read. */
  method FromBytes(data: ByteVector) returns (r: Result<Message, Trouble>)
    ensures r.Err? ==> Parse(data) == Err(r.error)
    ensures r.Ok? ==> fresh(r.value) && Parse(data) == Ok(r.value.records)
  {
    hide ReadRecord, ParseFrom, Parse;
    var records := [];
    var index := 0;
    ParseStarts(data);
    while index < |data|
      invariant index <= |data|
      invariant Parse(data) == AfterRecords(records, ParseFrom(data, index))
      decreases |data| - index
    {
      ParseFromStep(data, index, records);
      var step := ReadRecord(data, index);
      if step.Err? {
        return Err(step.error);
      }
      records := records + [step.value.record];
      index := step.value.next;
      if step.value.me {
        assert Parse(data) == Ok(records);
        break;
      }
    }
    ParseEnds(data, records);
    var m := new Message();
    m.records := records;
    return Ok(m);
  }

  // ----- the TLV area -----

  method MessageToTlv(m: Message) returns (data: ByteVector)
    ensures data == ToTlv(m.records)
  {
    data := [NDEF_MESSAGE];
    var recordsData := m.EncodeMessage();
    data := data + [|recordsData| % 256];
    data := data + recordsData;
    data := data + [TERMINATOR];
  }

  datatype MessageSearch = StillRunning | Found(message: Option<Message>) | Failed(error: Trouble)

  ghost predicate Mirrors(r: MessageSearch, p: Progress)
    reads match r case Found(Some(m)) => {m} case _ => {}
  {
    match r
    case StillRunning => p == Running
    case Failed(e) => p == Threw(e)
    case Found(None) => p == Ended(None)
    case Found(Some(m)) => p == Ended(Some(m.records))
  }

  /** One round of the loop: the switch on the tag and the moves of the index. */
  method SearchRound(tlv: ByteVector, i0: nat, ndef0: Option<Message>, ghost found: Option<seq<Record>>)
    returns (i: nat, r: Result<Option<Message>, Trouble>)
    requires i0 + 1 < |tlv| && Holds(ndef0, found)
    ensures r.Err? ==> FoundAfter(tlv, i0, found) == Err(r.error)
    ensures r.Ok? ==> FoundAfter(tlv, i0, found).Ok? && Holds(r.value, FoundAfter(tlv, i0, found).value)
    ensures r.Ok? ==> i == NextIndex(tlv, i0)
    ensures r.Ok? && r.value.Some? ==> r.value == ndef0 || fresh(r.value.value)
  {
    hide Parse, Wrapped;
    var ndef := ndef0;
    i := i0;
    var tag := tlv[i];
    i := Wrapped(i + 1);
    if Control(tag) {
      i := Wrapped(i + tlv[i]);
    } else if tag == NDEF_MESSAGE {
      if |tlv| >= i + 1 + tlv[i] {
        var m := FromBytes(tlv[i + 1..i + 1 + tlv[i]]);
        if m.Err? {
          return i, Err(m.error);
        }
        ndef := Some(m.value);
        i := Wrapped(i + tlv[i]);
      }
      i := Wrapped(|tlv|);
    } else if tag == TERMINATOR {
      i := Wrapped(|tlv|);
    }
    i := Wrapped(i + 1);
    return i, Ok(ndef);
  }

  /** The message object, if there is one, has these records. */
  ghost predicate Holds(ndef: Option<Message>, found: Option<seq<Record>>)
    reads if ndef.Some? then {ndef.value} else {}
  {
    match ndef case None => found == None case Some(m) => found == Some(m.records)
  }

  /** TLVToNdefMessage; a null message is None.  The loop need not end in large areas: it is followed
      for a number of rounds. */
  method TlvToMessage(tlv: ByteVector, rounds: nat) returns (r: MessageSearch)
    ensures Mirrors(r, Loop(tlv, 0, None, rounds))
    ensures |tlv| <= 0xFF00 && rounds >= |tlv| ==> Mirrors(r, AsProgress(Find(tlv)))
    ensures |tlv| > WRAP ==> !r.Found?
    ensures r.Found? && r.message.Some? ==> fresh(r.message.value)
  {
    hide FindFrom, FoundAfter, NextIndex;
    if |tlv| <= 0xFF00 && rounds >= |tlv| {
      SmallAreasAreSearched(tlv, 0, rounds);
    }
    if |tlv| > WRAP {
      LargeAreasNeverEnd(tlv, 0, None, rounds);
    }
    var ndef: Option<Message> := None;
    ghost var found: Option<seq<Record>> := None;
    var i: nat, left: nat := 0, rounds;
    while i + 1 < |tlv|
      invariant Holds(ndef, found) && (ndef.Some? ==> fresh(ndef.value))
      invariant Loop(tlv, 0, None, rounds) == Loop(tlv, i, found, left)
      decreases left
    {
      if left == 0 {
        return StillRunning;
      }
      left := left - 1;
      var next, step := SearchRound(tlv, i, ndef, found);
      if step.Err? {
        return Failed(step.error);
      }
      found := FoundAfter(tlv, i, found).value;
      ndef, i := step.value, next;
    }
    return Found(ndef);
  }
}
