/** Tag-length-value trees: what a node spells, how a list of nodes is read back, and when the two agree.
    The writer puts any length into one byte; the reader takes a length byte above 0x80 as the long form.
    Round trips therefore hold exactly for values of at most 0x80 bytes. */
module TlvTrees {
  import opened Bytes

  /** The fields of a node: its content counts only while it has no children. */
  datatype Tlv = Tlv(tag: byte, sizeTag: byte, sizeVector: ByteVector, content: ByteVector, children: seq<Tlv>)

  /** The bytes a node wraps. */
  function Value(t: Tlv): ByteVector
    decreases t, 0
  {
    if |t.children| > 0 then ComputeAll(t.children) else t.content
  }

  /** The wire form of a node; the length is cut to one byte. */
  function Compute(t: Tlv): (b: ByteVector)
    ensures |b| == 2 + |Value(t)|
    decreases t, 1
  {
    [t.tag, |Value(t)| % 256] + Value(t)
  }

  function ComputeAll(ts: seq<Tlv>): ByteVector
    decreases ts, 0
  {
    if |ts| == 0 then [] else Compute(ts[0]) + ComputeAll(ts[1..])
  }

  // ----- reading -----

  const MAX_SHORT: nat := 0x80
  const SIZE_T: nat := 0x1_0000_0000_0000_0000

  /** Reading one node: past the end of the buffer, stopped at an index, or a node and the index after it. */
  datatype Reading = Outside | Cut(at: nat) | Read(tlv: Tlv, next: nat)

  /** What setSizeVector leaves in the size tag. */
  function SizeTagAfter(sizeTag: byte, sizeVector: ByteVector): byte {
    if |sizeVector| == 1 then sizeVector[0] else sizeTag
  }

  /** The value bytes; an end that wraps around the index type slips through the bound check. */
  function ReadContent(bytes: ByteVector, at: nat, size: nat, t: Tlv): (r: Reading)
    requires at <= |bytes|
    ensures r.Read? ==> at <= r.next <= |bytes|
    ensures r.Cut? ==> r.at == at
  {
    if at + size <= |bytes| then Read(t.(content := bytes[at..at + size]), at + size)
    else if at + size < SIZE_T then Cut(at)
    else Outside
  }

  function ReadOne(bytes: ByteVector, idx: nat): (r: Reading)
    requires idx < |bytes|
    ensures r.Read? ==> idx + 2 <= r.next <= |bytes|
    ensures r.Cut? ==> idx < r.at <= |bytes|
  {
    if idx + 1 == |bytes| then Outside
    else
      var length := bytes[idx + 1];
      if length > MAX_SHORT then
        var n := length - MAX_SHORT;
        if idx + 2 + n > |bytes| then Cut(idx + 2)
        else
          var lengths := bytes[idx + 2..idx + 2 + n];
          ReadContent(bytes, idx + 2 + n, BigEndian(lengths) % SIZE_T,
                      Tlv(bytes[idx], SizeTagAfter(length, lengths), lengths, [], []))
      else
        ReadContent(bytes, idx + 2, length, Tlv(bytes[idx], length, [length], [], []))
  }

  datatype Outcome = Undefined | Parsed(tlvs: seq<Tlv>, consumed: nat)

  /** parse_tlvs from an index on: it stops without an error at a node that does not fit. */
  function ParseFrom(bytes: ByteVector, idx: nat): (o: Outcome)
    requires idx <= |bytes|
    ensures o.Parsed? ==> idx <= o.consumed <= |bytes|
    decreases |bytes| - idx
  {
    if idx == |bytes| then Parsed([], idx)
    else match ReadOne(bytes, idx)
      case Outside => Undefined
      case Cut(at) => Parsed([], at)
      case Read(t, next) =>
        match ParseFrom(bytes, next)
        case Undefined => Undefined
        case Parsed(ts, consumed) => Parsed([t] + ts, consumed)
  }

  datatype Trouble = OutOfBounds | NotAtEnd | NoChild

  /** parse_tlvs with its strict switch. */
  function Parse(bytes: ByteVector, strict: bool): Result<seq<Tlv>, Trouble> {
    match ParseFrom(bytes, 0)
    case Undefined => Err(OutOfBounds)
    case Parsed(ts, consumed) => if strict && consumed != |bytes| then Err(NotAtEnd) else Ok(ts)
  }

  // ----- round trips -----

  /** A node as it comes back from its own wire form. */
  function Flat(t: Tlv): Tlv
    requires |Value(t)| <= MAX_SHORT
  {
    Tlv(t.tag, |Value(t)|, [|Value(t)|], Value(t), [])
  }

  predicate AllShort(ts: seq<Tlv>) {
    forall i :: 0 <= i < |ts| ==> |Value(ts[i])| <= MAX_SHORT
  }

  function FlatAll(ts: seq<Tlv>): seq<Tlv>
    requires AllShort(ts)
  {
    seq(|ts|, i requires 0 <= i < |ts| => Flat(ts[i]))
  }

  /** Two nodes with the same tag and the same value. */
  predicate Same(a: Tlv, b: Tlv) { a.tag == b.tag && Value(a) == Value(b) }

  predicate SameAll(a: seq<Tlv>, b: seq<Tlv>) {
    |a| == |b| && forall i :: 0 <= i < |a| ==> Same(a[i], b[i])
  }

  function Prepend(ts: seq<Tlv>, o: Outcome): Outcome {
    match o case Undefined => Undefined case Parsed(us, consumed) => Parsed(ts + us, consumed)
  }

  /** A short node is read back from wherever it stands. */
  lemma ReadsOne(before: ByteVector, t: Tlv, after: ByteVector)
    requires |Value(t)| <= MAX_SHORT
    ensures ReadOne(before + Compute(t) + after, |before|) == Read(Flat(t), |before + Compute(t)|)
  {
    var bytes := before + Compute(t) + after;
    assert bytes[|before|] == t.tag && bytes[|before| + 1] == |Value(t)|;
    assert bytes[|before| + 2..|before| + 2 + |Value(t)|] == Value(t);
  }

  /** A list of short nodes is read back wherever it stands, and reading goes on after it. */
  lemma {:induction false} ReadsAll(before: ByteVector, ts: seq<Tlv>, after: ByteVector)
    requires AllShort(ts)
    ensures ParseFrom(before + ComputeAll(ts) + after, |before|) ==
            Prepend(FlatAll(ts), ParseFrom(before + ComputeAll(ts) + after, |before + ComputeAll(ts)|))
    decreases |ts|
  {
    hide ReadOne, Compute;
    if |ts| == 0 {
      assert before + ComputeAll(ts) == before;
    } else {
      var first, rest := Compute(ts[0]), ts[1..];
      assert before + ComputeAll(ts) + after == before + first + (ComputeAll(rest) + after);
      assert before + ComputeAll(ts) + after == (before + first) + ComputeAll(rest) + after;
      ReadsOne(before, ts[0], ComputeAll(rest) + after);
      ReadsAll(before + first, rest, after);
      assert before + ComputeAll(ts) == before + first + ComputeAll(rest);
      assert FlatAll(ts) == [Flat(ts[0])] + FlatAll(rest);
    }
  }

  /** The bytes a list of nodes takes when every length takes one byte. */
  function ShortSize(ts: seq<Tlv>): nat {
    if |ts| == 0 then 0 else 2 + |Value(ts[0])| + ShortSize(ts[1..])
  }

  lemma {:induction false} ComputedSize(ts: seq<Tlv>)
    ensures |ComputeAll(ts)| == ShortSize(ts)
    decreases |ts|
  {
    if |ts| > 0 {
      ComputedSize(ts[1..]);
    }
  }

  lemma {:induction false} SameSize(a: seq<Tlv>, b: seq<Tlv>)
    requires SameAll(a, b)
    ensures ShortSize(a) == ShortSize(b) && (AllShort(a) <==> AllShort(b))
    decreases |a|
  {
    if |a| > 0 {
      assert Same(a[0], b[0]);
      SameSize(a[1..], b[1..]);
    }
  }

  lemma ReadsWithoutChildren(bytes: ByteVector, idx: nat)
    requires idx < |bytes|
    ensures var r := ReadOne(bytes, idx);
            r.Read? ==>
                && r.tlv.children == [] && r.tlv.tag == bytes[idx]
                && (bytes[idx + 1] <= MAX_SHORT ==> |r.tlv.content| <= MAX_SHORT)
                && r.next == idx + 2 + |r.tlv.content| + if bytes[idx + 1] > MAX_SHORT then bytes[idx + 1] - MAX_SHORT else 0
  {
  }

  /** A value of more than 0x80 bytes was read from a long form, and the long form takes more room
      than the writer leaves for it. */
  lemma {:induction false} LongFormsTakeMore(bytes: ByteVector, idx: nat)
    requires idx <= |bytes| && ParseFrom(bytes, idx).Parsed?
    ensures var us := ParseFrom(bytes, idx).tlvs;
            && idx + ShortSize(us) <= |bytes|
            && (!AllShort(us) ==> idx + ShortSize(us) < |bytes|)
    decreases |bytes| - idx
  {
    hide ReadOne;
    if idx < |bytes| {
      ReadsWithoutChildren(bytes, idx);
      var r := ReadOne(bytes, idx);
      if r.Read? {
        LongFormsTakeMore(bytes, r.next);
        var us := ParseFrom(bytes, idx).tlvs;
        assert us[0] == r.tlv && us[1..] == ParseFrom(bytes, r.next).tlvs;
        assert AllShort(us[1..]) && |r.tlv.content| <= MAX_SHORT ==> AllShort(us) by {
          assert us == [us[0]] + us[1..];
        }
      }
    }
  }

  /** Reading a written list gives back the same tags and values, in order, if and only if every value
      has at most 0x80 bytes; and then everything is consumed. */
  lemma RoundTripExactlyWhenShort(ts: seq<Tlv>)
    ensures (Parse(ComputeAll(ts), false).Ok? && SameAll(Parse(ComputeAll(ts), false).value, ts)) <==> AllShort(ts)
    ensures AllShort(ts) <==> forall i :: 0 <= i < |ts| ==> |Value(ts[i])| <= 0x80
    ensures AllShort(ts) ==>
              && Parse(ComputeAll(ts), true) == Ok(FlatAll(ts))
              && Parse(ComputeAll(ts), false) == Ok(FlatAll(ts))
              && ParseFrom(ComputeAll(ts), 0) == Parsed(FlatAll(ts), |ComputeAll(ts)|)
  {
    hide ReadOne, Compute, ComputeAll;
    var bytes := ComputeAll(ts);
    if AllShort(ts) {
      assert [] + bytes + [] == bytes && [] + bytes == bytes;
      ReadsAll([], ts, []);
      assert FlatAll(ts) + [] == FlatAll(ts);
    }
    if Parse(bytes, false).Ok? && SameAll(Parse(bytes, false).value, ts) {
      LongFormsTakeMore(bytes, 0);
      SameSize(Parse(bytes, false).value, ts);
      ComputedSize(ts);
    }
  }

  // ----- the forms the reader takes, whoever wrote them -----

  /** A length byte up to 0x80 counts the value itself; a node that ends early stops the reading behind its
      length byte, and a lone tag leads out of the buffer. */
  lemma ReadsShortForm(before: ByteVector, tag: byte, n: byte, v: ByteVector, after: ByteVector)
    requires n <= 0x80
    ensures |v| == n ==>
              ReadOne(before + ([tag, n] + v) + after, |before|) == Read(Tlv(tag, n, [n], v, []), |before| + 2 + n)
    ensures |v| < n && |before| < 0x1_0000_0000 ==> ReadOne(before + ([tag, n] + v), |before|) == Cut(|before| + 2)
    ensures ReadOne(before + [tag], |before|) == Outside
  {
    var bytes := before + ([tag, n] + v) + after;
    assert bytes[|before|] == tag && bytes[|before| + 1] == n;
    if |v| == n {
      assert bytes[|before| + 2..|before| + 2 + n] == v;
    }
  }

  /** A length byte of 0x80 + k is followed by k bytes of length, most significant first, in 64 bits; a single
      one takes the place of the size tag. */
  lemma ReadsLongForm(bytes: ByteVector, at: nat, lengths: ByteVector, v: ByteVector)
    requires var k := |lengths|;
             && 1 <= k <= 127 && at + 2 + k + |v| <= |bytes| && bytes[at + 1] == 0x80 + k
             && bytes[at + 2..at + 2 + k] == lengths && bytes[at + 2 + k..at + 2 + k + |v|] == v
    requires |v| == BigEndian(lengths) % 0x1_0000_0000_0000_0000
    ensures var k := |lengths|;
            ReadOne(bytes, at) ==
            Read(Tlv(bytes[at], if k == 1 then lengths[0] else 0x80 + k, lengths, v, []), at + 2 + k + |v|)
  {
    hide BigEndian;
  }

  /** It stops behind the length byte when the k bytes are not all there, and behind these when the value is
      not; but an end of the value past 64 bits leads out of the buffer. */
  lemma CutLongForm(bytes: ByteVector, at: nat)
    requires at + 1 < |bytes| && bytes[at + 1] > 0x80
    ensures var p := at + 2 + (bytes[at + 1] - 0x80);
            if p > |bytes| then ReadOne(bytes, at) == Cut(at + 2)
            else
              var size := BigEndian(bytes[at + 2..p]) % 0x1_0000_0000_0000_0000;
              p + size > |bytes| ==>
                ReadOne(bytes, at) == if p + size < 0x1_0000_0000_0000_0000 then Cut(p) else Outside
  {
    hide BigEndian;
  }

  /** Where the reading stops: at the end, or at the first node that is not all there. */
  function StopsAt(bytes: ByteVector, idx: nat): (at: nat)
    requires idx <= |bytes|
    ensures idx <= at <= |bytes|
    decreases |bytes| - idx
  {
    if idx == |bytes| then idx
    else match ReadOne(bytes, idx)
      case Read(_, next) => StopsAt(bytes, next)
      case _ => idx
  }

  /** The buffer ends right behind the length byte of the node, or behind its k bytes of length; 64 bits hold
      where the value would end. */
  predicate EndsBehindLength(bytes: ByteVector, at: nat) {
    && at + 1 < |bytes|
    && if bytes[at + 1] <= 0x80 then |bytes| == at + 2 && |bytes| + bytes[at + 1] < 0x1_0000_0000_0000_0000
       else
         || |bytes| == at + 2
         || (|bytes| == at + 2 + (bytes[at + 1] - 0x80)
             && |bytes| + BigEndian(bytes[at + 2..]) % 0x1_0000_0000_0000_0000 < 0x1_0000_0000_0000_0000)
  }

  lemma CutAtTheEnd(bytes: ByteVector, at: nat)
    requires at < |bytes| && !ReadOne(bytes, at).Read?
    ensures ReadOne(bytes, at) == Cut(|bytes|) <==> EndsBehindLength(bytes, at)
    ensures ReadOne(bytes, at).Cut? ==> at + 1 < |bytes|
  {
    hide BigEndian;
    if at + 1 < |bytes| && bytes[at + 1] > 0x80 && |bytes| == at + 2 + (bytes[at + 1] - 0x80) {
      assert bytes[at + 2..] == bytes[at + 2..at + 2 + (bytes[at + 1] - 0x80)];
    }
  }

  lemma {:induction false} ConsumedAll(bytes: ByteVector, idx: nat)
    requires idx <= |bytes|
    ensures ParseFrom(bytes, idx).Parsed? && ParseFrom(bytes, idx).consumed == |bytes| <==>
            StopsAt(bytes, idx) == |bytes| || EndsBehindLength(bytes, StopsAt(bytes, idx))
    decreases |bytes| - idx
  {
    hide ReadOne, EndsBehindLength;
    if idx < |bytes| {
      if ReadOne(bytes, idx).Read? {
        ConsumedAll(bytes, ReadOne(bytes, idx).next);
      } else {
        CutAtTheEnd(bytes, idx);
      }
    }
  }

  /** The strict switch is meant to throw when the buffer is not all whole nodes.  For every buffer: it lets one
      pass if and only if the nodes reach the end, or the first that is not whole ends right behind its length. */
  lemma StrictExactlyWhen(bytes: ByteVector)
    ensures Parse(bytes, true).Ok? <==>
            StopsAt(bytes, 0) == |bytes| || EndsBehindLength(bytes, StopsAt(bytes, 0))
  {
    hide ParseFrom, StopsAt, EndsBehindLength;
    ConsumedAll(bytes, 0);
  }

  /** Behind short nodes an incomplete one is dropped without an error; under the strict switch that is an error
      if and only if at least one byte of its value is there.  A lone tag leads out of the buffer either way. */
  lemma IncompleteTailExactly(ts: seq<Tlv>, tag: byte, n: byte, v: ByteVector, strict: bool)
    requires AllShort(ts) && |v| < n <= 0x80 && |ComputeAll(ts)| < 0x1_0000_0000
    ensures Parse(ComputeAll(ts) + ([tag, n] + v), strict) ==
            if strict && v != [] then Err(NotAtEnd) else Ok(FlatAll(ts))
    ensures Parse(ComputeAll(ts) + [tag], strict) == Err(OutOfBounds)
  {
    hide ReadOne, ComputeAll;
    var b := ComputeAll(ts);
    var cut, lone := b + ([tag, n] + v), b + [tag];
    ReadsShortForm(b, tag, n, v, []);
    ReadsAll([], ts, [tag, n] + v);
    ReadsAll([], ts, [tag]);
    assert [] + b + ([tag, n] + v) == cut && [] + b == b && [] + b + [tag] == lone;
    assert ParseFrom(cut, |b|) == Parsed([], |b| + 2) && ParseFrom(lone, |b|) == Undefined;
    assert FlatAll(ts) + [] == FlatAll(ts);
  }

  /** So a buffer that promises five bytes of value and holds none passes the strict switch as no nodes. */
  lemma StrictMissesEmptyTail(tag: byte)
    ensures Parse([tag, 5], true) == Ok([])
  {
    assert ComputeAll([]) + ([tag, 5] + []) == [tag, 5];
    assert FlatAll([]) == [];
    IncompleteTailExactly([], tag, 5, [], true);
  }

  /** What is read of any written node, whatever its size: the length byte holds the length modulo 256, which
      counts the value up to 0x80. */
  lemma WrittenNodeIsCut(t: Tlv)
    ensures var n := |Value(t)| % 256;
            n <= 0x80 ==> ReadOne(Compute(t), 0) == Read(Tlv(t.tag, n, [n], Value(t)[..n], []), 2 + n)
  {
    hide ReadOne, Value;
    var n, v := |Value(t)| % 256, Value(t);
    if n <= 0x80 {
      ReadsShortForm([], t.tag, n, v[..n], v[n..]);
      assert [] + ([t.tag, n] + v[..n]) + v[n..] == Compute(t);
    }
  }

  /** Above 0x80 the reader takes the first bytes of the value for the length. */
  lemma WrittenValueIsTakenForLength(t: Tlv, k: nat, lengths: ByteVector, v: ByteVector)
    requires |Value(t)| % 256 == 0x80 + k && k > 0 && |lengths| == k && lengths + v <= Value(t)
    requires |v| == BigEndian(lengths) % 0x1_0000_0000_0000_0000
    ensures ReadOne(Compute(t), 0) ==
            Read(Tlv(t.tag, if k == 1 then lengths[0] else 0x80 + k, lengths, v, []), 2 + k + |v|)
  {
    hide ReadOne, BigEndian, Value;
    var b := Compute(t);
    assert b[2..2 + k + |v|] == lengths + v;
    assert b[2..2 + k] == b[2..2 + k + |v|][..k] && b[2 + k..2 + k + |v|] == b[2..2 + k + |v|][k..];
    ReadsLongForm(b, 0, lengths, v);
  }

  /** The whole node as it was read: tag, size tag, longer size vectors, content. */
  function Complete(t: Tlv): ByteVector {
    [t.tag, t.sizeTag] + (if |t.sizeVector| > 1 then t.sizeVector else []) + t.content
  }

  /** The complete form of a node just read is the bytes it was read from, except after the length
      byte 0x81, whose one length byte takes the place of the size tag. */
  lemma CompleteIsWhatWasRead(bytes: ByteVector, idx: nat)
    requires idx < |bytes| && ReadOne(bytes, idx).Read?
    ensures var r := ReadOne(bytes, idx);
            Complete(r.tlv) == bytes[idx..r.next] <==> bytes[idx + 1] != MAX_SHORT + 1
  {
    var t, next := ReadOne(bytes, idx).tlv, ReadOne(bytes, idx).next;
    var length := bytes[idx + 1];
    if length == MAX_SHORT + 1 {
      assert |Complete(t)| == next - idx - 1;
    } else if length > MAX_SHORT {
      var n := length - MAX_SHORT;
      assert t.sizeVector == bytes[idx + 2..idx + 2 + n];
      assert bytes[idx..next] == [bytes[idx], length] + bytes[idx + 2..idx + 2 + n] + bytes[idx + 2 + n..next];
    } else {
      assert bytes[idx..next] == [bytes[idx], length] + bytes[idx + 2..next];
    }
  }

  // ----- children -----

  function FirstWith(ts: seq<Tlv>, tag: byte): Result<Tlv, Trouble> {
    if |ts| == 0 then Err(NoChild) else if ts[0].tag == tag then Ok(ts[0]) else FirstWith(ts[1..], tag)
  }

  /** The first node with the tag, and an error exactly when there is none. */
  lemma {:induction false} FirstWithExactlyWhen(ts: seq<Tlv>, tag: byte, t: Tlv)
    ensures FirstWith(ts, tag) == Ok(t) <==>
            exists i :: 0 <= i < |ts| && ts[i] == t && t.tag == tag && forall j :: 0 <= j < i ==> ts[j].tag != tag
    ensures FirstWith(ts, tag) == Err(NoChild) <==> forall i :: 0 <= i < |ts| ==> ts[i].tag != tag
    ensures FirstWith(ts, tag).Err? ==> FirstWith(ts, tag) == Err(NoChild)
    decreases |ts|
  {
    if |ts| > 0 {
      var rest := ts[1..];
      FirstWithExactlyWhen(rest, tag, t);
      assert forall j :: 1 <= j < |ts| ==> ts[j] == rest[j - 1];
      if ts[0].tag == tag {
        if FirstWith(ts, tag) == Ok(t) {
          assert ts[0] == t;
        }
      } else {
        if FirstWith(ts, tag) == Ok(t) {
          var i :| 0 <= i < |rest| && rest[i] == t && t.tag == tag && forall j :: 0 <= j < i ==> rest[j].tag != tag;
          assert ts[i + 1] == t;
        }
        if i :| 0 <= i < |ts| && ts[i] == t && t.tag == tag && forall j :: 0 <= j < i ==> ts[j].tag != tag {
          assert rest[i - 1] == t;
        }
      }
    }
  }

  /** get_child: among the children, or among the nodes its content spells. */
  function GetChild(t: Tlv, tag: byte): Result<Tlv, Trouble> {
    if |t.children| > 0 then FirstWith(t.children, tag)
    else match Parse(t.content, false)
      case Err(e) => Err(e)
      case Ok(ts) => FirstWith(ts, tag)
  }

  /** A child has the tag asked for and is the first such child; no child means no such tag. */
  lemma ChildExactlyWhen(t: Tlv, tag: byte, c: Tlv)
    ensures GetChild(t, tag) == Ok(c) ==> c.tag == tag
    ensures |t.children| > 0 ==>
              (GetChild(t, tag) == Ok(c) <==>
               exists i :: 0 <= i < |t.children| && t.children[i] == c && c.tag == tag
                           && forall j :: 0 <= j < i ==> t.children[j].tag != tag)
    ensures |t.children| > 0 ==>
              (GetChild(t, tag) == Err(NoChild) <==> forall i :: 0 <= i < |t.children| ==> t.children[i].tag != tag)
  {
    hide ParseFrom, FirstWith;
    if |t.children| > 0 {
      FirstWithExactlyWhen(t.children, tag, c);
    } else if Parse(t.content, false).Ok? {
      FirstWithExactlyWhen(Parse(t.content, false).value, tag, c);
    }
  }

  /** The bytes of short nodes, and perhaps of one more that is not all there. */
  ghost predicate SpellsNodes(bytes: ByteVector, ts: seq<Tlv>)
    requires AllShort(ts)
  {
    || bytes == ComputeAll(ts)
    || (|ComputeAll(ts)| < 0x1_0000_0000
        && exists tag: byte, n: byte, v: ByteVector :: |v| < n <= 0x80 && bytes == ComputeAll(ts) + ([tag, n] + v))
  }

  lemma SpelledNodesAreParsed(bytes: ByteVector, ts: seq<Tlv>)
    requires AllShort(ts) && SpellsNodes(bytes, ts)
    ensures Parse(bytes, false) == Ok(FlatAll(ts))
  {
    hide Parse, ComputeAll, Value;
    RoundTripExactlyWhenShort(ts);
    if bytes != ComputeAll(ts) {
      var tag: byte, n: byte, v: ByteVector :| |v| < n <= 0x80 && bytes == ComputeAll(ts) + ([tag, n] + v);
      IncompleteTailExactly(ts, tag, n, v, false);
    }
  }

  /** In bytes that spell short nodes, the last of which may be incomplete, the child is the first of them with
      the tag, as it comes back; the incomplete one is never a child. */
  lemma SpelledChildExactlyWhen(t: Tlv, ts: seq<Tlv>, tag: byte, c: Tlv)
    requires t.children == [] && AllShort(ts) && SpellsNodes(t.content, ts)
    ensures GetChild(t, tag) == Ok(c) <==>
            exists i :: 0 <= i < |ts| && Flat(ts[i]) == c && c.tag == tag && forall j :: 0 <= j < i ==> ts[j].tag != tag
    ensures GetChild(t, tag) == Err(NoChild) <==> forall i :: 0 <= i < |ts| ==> ts[i].tag != tag
  {
    hide Parse, ComputeAll, FirstWith, Value, SpellsNodes;
    SpelledNodesAreParsed(t.content, ts);
    var flat := FlatAll(ts);
    FirstWithExactlyWhen(flat, tag, c);
    assert forall i :: 0 <= i < |ts| ==> flat[i] == Flat(ts[i]) && flat[i].tag == ts[i].tag;
  }

  /** Follows a path of tags down the tree. */
  function Descend(t: Tlv, path: seq<byte>): Result<Tlv, Trouble>
    decreases |path|
  {
    if |path| == 0 then Ok(t)
    else match GetChild(t, path[0])
      case Err(e) => Err(e)
      case Ok(c) => Descend(c, path[1..])
  }

  lemma {:induction false} OneIsInAll(ts: seq<Tlv>, i: nat)
    requires i < |ts|
    ensures 2 + |Value(ts[i])| <= ShortSize(ts)
    decreases |ts|
  {
    hide Value;
    if i > 0 {
      OneIsInAll(ts[1..], i - 1);
    }
  }

  /** A short value makes all children short, and so every node below: the value of a node holds those
      of its children. */
  lemma ChildrenAreShort(t: Tlv)
    requires |Value(t)| <= MAX_SHORT
    ensures AllShort(t.children)
  {
    forall i | 0 <= i < |t.children|
      ensures |Value(t.children[i])| <= MAX_SHORT
    {
      ComputedSize(t.children);
      OneIsInAll(t.children, i);
    }
  }

  predicate Agree(r: Result<Tlv, Trouble>, s: Result<Tlv, Trouble>) {
    match r case Err(e) => s == Err(e) case Ok(t) => s.Ok? && Same(t, s.value)
  }

  lemma {:induction false} FirstsAgree(a: seq<Tlv>, b: seq<Tlv>, tag: byte)
    requires SameAll(a, b)
    ensures Agree(FirstWith(a, tag), FirstWith(b, tag))
    decreases |a|
  {
    hide Value;
    if |a| > 0 {
      assert Same(a[0], b[0]);
      FirstsAgree(a[1..], b[1..], tag);
    }
  }

  lemma {:induction false} FirstIsOne(ts: seq<Tlv>, tag: byte)
    requires FirstWith(ts, tag).Ok?
    ensures exists i :: 0 <= i < |ts| && ts[i] == FirstWith(ts, tag).value
    decreases |ts|
  {
    if ts[0].tag != tag {
      FirstIsOne(ts[1..], tag);
      var i :| 0 <= i < |ts[1..]| && ts[1..][i] == FirstWith(ts, tag).value;
      assert ts[i + 1] == FirstWith(ts, tag).value;
    }
  }

  lemma {:induction false} ParsedHaveNoChildren(bytes: ByteVector, idx: nat)
    requires idx <= |bytes| && ParseFrom(bytes, idx).Parsed?
    ensures forall i :: 0 <= i < |ParseFrom(bytes, idx).tlvs| ==> ParseFrom(bytes, idx).tlvs[i].children == []
    decreases |bytes| - idx
  {
    hide ReadOne;
    if idx < |bytes| {
      ReadsWithoutChildren(bytes, idx);
      var r := ReadOne(bytes, idx);
      if r.Read? {
        ParsedHaveNoChildren(bytes, r.next);
      }
    }
  }

  /** The children of a child of a node with short children are short. */
  lemma ChildHasShortChildren(t: Tlv, tag: byte)
    requires AllShort(t.children) && GetChild(t, tag).Ok?
    ensures AllShort(GetChild(t, tag).value.children)
  {
    hide ParseFrom, Value;
    var ts := if |t.children| > 0 then t.children else Parse(t.content, false).value;
    FirstIsOne(ts, tag);
    if |t.children| == 0 {
      ParsedHaveNoChildren(t.content, 0);
    } else {
      ChildrenAreShort(GetChild(t, tag).value);
    }
  }

  /** A node with children gives the same child as the bytes it spells. */
  lemma BuiltAgreesWithParsed(t: Tlv, tag: byte)
    requires AllShort(t.children)
    ensures Agree(GetChild(t, tag), GetChild(Tlv(t.tag, t.sizeTag, t.sizeVector, Value(t), []), tag))
  {
    if |t.children| > 0 {
      RoundTripExactlyWhenShort(t.children);
      FirstsAgree(t.children, FlatAll(t.children), tag);
    }
  }

  lemma AgreeThrough(r: Result<Tlv, Trouble>, s: Result<Tlv, Trouble>, u: Result<Tlv, Trouble>)
    requires Agree(r, s) && Agree(u, s)
    ensures Agree(r, u)
  {
  }

  lemma ChildrenAgree(a: Tlv, b: Tlv, tag: byte)
    requires Same(a, b) && AllShort(a.children) && AllShort(b.children)
    ensures Agree(GetChild(a, tag), GetChild(b, tag))
  {
    hide AllShort, Agree;
    BuiltAgreesWithParsed(a, tag);
    BuiltAgreesWithParsed(b, tag);
    var spelled := Tlv(a.tag, 0, [], Value(a), []);
    assert GetChild(Tlv(a.tag, a.sizeTag, a.sizeVector, Value(a), []), tag) == GetChild(spelled, tag);
    assert GetChild(Tlv(b.tag, b.sizeTag, b.sizeVector, Value(b), []), tag) == GetChild(spelled, tag);
    AgreeThrough(GetChild(a, tag), GetChild(spelled, tag), GetChild(b, tag));
  }

  /** Nodes with the same tag and value lead to the same places along every path, however much of
      them is built and however much is still bytes. */
  lemma {:induction false} PathsAgree(a: Tlv, b: Tlv, path: seq<byte>)
    requires Same(a, b) && AllShort(a.children) && AllShort(b.children)
    ensures Agree(Descend(a, path), Descend(b, path))
    decreases |path|
  {
    hide AllShort, GetChild, Value;
    if |path| > 0 {
      ChildrenAgree(a, b, path[0]);
      var r, s := GetChild(a, path[0]), GetChild(b, path[0]);
      if r.Ok? {
        ChildHasShortChildren(a, path[0]);
        ChildHasShortChildren(b, path[0]);
        PathsAgree(r.value, s.value, path[1..]);
      }
    }
  }

  /** A tree whose value has at most 0x80 bytes is read back as one node, and no path of tags tells
      the built tree from the one read back. */
  lemma TreeSurvives(t: Tlv, path: seq<byte>)
    requires |Value(t)| <= MAX_SHORT
    ensures Parse(Compute(t), true) == Ok([Flat(t)])
    ensures Agree(Descend(t, path), Descend(Flat(t), path))
  {
    ChildrenAreShort(t);
    assert ComputeAll([t]) == Compute(t) by {
      assert ComputeAll([t][1..]) == [];
    }
    RoundTripExactlyWhenShort([t]);
    assert FlatAll([t]) == [Flat(t)];
    PathsAgree(t, Flat(t), path);
  }
}
