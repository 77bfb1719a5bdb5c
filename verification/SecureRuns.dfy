/** Whole runs of a secure messaging session: the handshake that opens it, the send counter over any
    sequence of calls, and replay. */
module SecureRuns {
  import opened Bytes
  import opened SecureMessaging

  // ----- the handshake -----

  function Authenticated(s: Suite, encKey: ByteVector, macKey: ByteVector, plain: ByteVector): ByteVector {
    var e := s.enc(encKey, plain);
    e + s.mac(macKey, Pad(e, 8))
  }

  /** The Mutual Authenticate data of step1: RND.IFD, RND.ICC and K.IFD, enciphered and authenticated. */
  function Step1Message(s: Suite, encKey: ByteVector, macKey: ByteVector,
                        rndIfd: ByteVector, rndIcc: ByteVector, kIfd: ByteVector): ByteVector
  {
    Authenticated(s, encKey, macKey, rndIfd + rndIcc + kIfd)
  }

  /** The plaintext of an authenticated message, if its MAC is right; longer messages are cut. */
  function Open(s: Suite, encKey: ByteVector, macKey: ByteVector, message: ByteVector): Option<ByteVector> {
    if |message| < 40 || s.mac(macKey, Pad(message[..32], 8)) != message[32..40] then None
    else Some(s.dec(encKey, message[..32]))
  }

  /** The message byte for byte: 32 bytes of cryptogram and the MAC over them, padded with 0x80 and seven zeros. */
  lemma Step1Bytes(s: Suite, encKey: ByteVector, macKey: ByteVector, rndIfd: ByteVector, rndIcc: ByteVector, kIfd: ByteVector)
    requires Sound(s) && |rndIfd| == 8 && |rndIcc| == 8 && |kIfd| == 16
    ensures var m, e := Step1Message(s, encKey, macKey, rndIfd, rndIcc, kIfd), s.enc(encKey, rndIfd + rndIcc + kIfd);
            |m| == 40 && m[..32] == e && m[32..] == s.mac(macKey, e + [0x80, 0, 0, 0, 0, 0, 0, 0])
  {
    var e := s.enc(encKey, rndIfd + rndIcc + kIfd);
    assert |rndIfd + rndIcc + kIfd| % s.blockSize == 0;
    PadMethod2Of32(e);
    assert Step1Message(s, encKey, macKey, rndIfd, rndIcc, kIfd) == e + s.mac(macKey, Pad(e, 8));
  }

  lemma PadMethod2Of32(e: ByteVector)
    requires |e| == 32
    ensures Pad(e, 8) == e + [0x80, 0, 0, 0, 0, 0, 0, 0]
  {
    PadIsMethod2(e, 8, e + [0x80, 0, 0, 0, 0, 0, 0, 0]);
  }

  /** What step2 accepts, and the session keys it then derives. */
  function Step2Keys(s: Suite, encKey: ByteVector, macKey: ByteVector, rndIfd: ByteVector, kIfd: ByteVector,
                     response: ByteVector): Option<SessionKeys>
  {
    match Open(s, encKey, macKey, response)
    case None => None
    case Some(r) =>
      if |r| != 32 || r[8..16] != rndIfd then None
      else Some(s.derive(kIfd, rndIfd, r[16..32], r[..8]))
  }

  /** For every answer: step2 accepts it if and only if it has 40 bytes, the last eight of these are the MAC
      over the first 32, and these decipher to 32 bytes whose second eight are the random of step1; and the
      session keys are derived from the two key halves and the two randoms. */
  lemma Step2AcceptsExactlyWhen(s: Suite, encKey: ByteVector, macKey: ByteVector, rndIfd: ByteVector, kIfd: ByteVector,
                                response: ByteVector)
    requires Sound(s) && |rndIfd| == 8
    ensures Step2Keys(s, encKey, macKey, rndIfd, kIfd, response).Some? <==>
            && |response| >= 40
            && response[32..40] == s.mac(macKey, response[..32] + [0x80, 0, 0, 0, 0, 0, 0, 0])
            && var plain := s.dec(encKey, response[..32]);
               |plain| == 32 && plain[8..16] == rndIfd
    ensures Step2Keys(s, encKey, macKey, rndIfd, kIfd, response).Some? ==>
            |response| >= 40 &&
            var plain := s.dec(encKey, response[..32]);
            && |plain| == 32
            && Step2Keys(s, encKey, macKey, rndIfd, kIfd, response) == Some(s.derive(kIfd, rndIfd, plain[16..], plain[..8]))
  {
    hide Pad;
    if |response| >= 40 {
      PadMethod2Of32(response[..32]);
      var plain := s.dec(encKey, response[..32]);
      assert |plain| == 32 ==> plain[16..32] == plain[16..];
    }
  }

  /** The card's half of the mutual authentication: it checks its own challenge and answers. */
  function CardAuthenticate(s: Suite, encKey: ByteVector, macKey: ByteVector, rndIcc: ByteVector, kIcc: ByteVector,
                            message: ByteVector): Option<(ByteVector, SessionKeys)>
  {
    match Open(s, encKey, macKey, message)
    case None => None
    case Some(m) =>
      if |m| != 32 || m[8..16] != rndIcc then None
      else Some((Authenticated(s, encKey, macKey, rndIcc + m[..8] + kIcc), s.derive(m[16..32], m[..8], kIcc, rndIcc)))
  }

  lemma OpenAuthenticated(s: Suite, encKey: ByteVector, macKey: ByteVector, plain: ByteVector)
    requires Sound(s) && |plain| == 32
    ensures |Authenticated(s, encKey, macKey, plain)| == 40
    ensures Open(s, encKey, macKey, Authenticated(s, encKey, macKey, plain)) == Some(plain)
  {
    var e := s.enc(encKey, plain);
    assert Authenticated(s, encKey, macKey, plain)[..32] == e;
    assert Authenticated(s, encKey, macKey, plain)[32..40] == s.mac(macKey, Pad(e, 8));
  }

  /** Honest parties with the same long-term keys authenticate each other and derive the same session. */
  lemma HandshakeAgrees(s: Suite, encKey: ByteVector, macKey: ByteVector,
                        rndIfd: ByteVector, rndIcc: ByteVector, kIfd: ByteVector, kIcc: ByteVector)
    requires Sound(s) && |rndIfd| == 8 && |rndIcc| == 8 && |kIfd| == 16 && |kIcc| == 16
    ensures var answer := CardAuthenticate(s, encKey, macKey, rndIcc, kIcc,
                                           Step1Message(s, encKey, macKey, rndIfd, rndIcc, kIfd));
            && answer.Some?
            && Step2Keys(s, encKey, macKey, rndIfd, kIfd, answer.value.0) == Some(answer.value.1)
            && answer.value.1 == s.derive(kIfd, rndIfd, kIcc, rndIcc)
  {
    var m := rndIfd + rndIcc + kIfd;
    OpenAuthenticated(s, encKey, macKey, m);
    assert m[..8] == rndIfd && m[8..16] == rndIcc && m[16..32] == kIfd;
    var r := rndIcc + rndIfd + kIcc;
    OpenAuthenticated(s, encKey, macKey, r);
    assert r[..8] == rndIcc && r[8..16] == rndIfd && r[16..32] == kIcc;
  }

  /** A genuine card answer is accepted if and only if it answers this very challenge: an answer
      recorded from another authentication is refused. */
  lemma AnswerMatchesChallenge(s: Suite, encKey: ByteVector, macKey: ByteVector, rndIfd: ByteVector, kIfd: ByteVector,
                               otherIfd: ByteVector, rndIcc: ByteVector, kIcc: ByteVector)
    requires Sound(s) && |rndIfd| == |otherIfd| == |rndIcc| == 8 && |kIcc| == 16
    ensures Step2Keys(s, encKey, macKey, rndIfd, kIfd, Authenticated(s, encKey, macKey, rndIcc + otherIfd + kIcc)).Some?
            <==> otherIfd == rndIfd
  {
    var r := rndIcc + otherIfd + kIcc;
    OpenAuthenticated(s, encKey, macKey, r);
    assert r[8..16] == otherIfd;
  }

  // ----- the send counter over any sequence of calls -----

  /** One end of an open session. */
  datatype End = End(encKey: ByteVector, macKey: ByteVector, ssc: Counter)

  datatype Call = Wrap(apdu: ByteVector) | Unwrap(rapdu: ByteVector)

  function CallResult(s: Suite, r: End, c: Call): Result<ByteVector, Error>
    requires s.blockSize > 0
  {
    match c
    case Wrap(apdu) => EncryptApdu(s, r.encKey, r.macKey, r.ssc, apdu)
    case Unwrap(rapdu) => DecryptRapdu(s, r.encKey, r.macKey, r.ssc, rapdu)
  }

  function Advanced(r: End): End { r.(ssc := IncrementSsc(r.ssc)) }

  /** The counter moves only when the call returns. */
  function AfterCall(s: Suite, r: End, c: Call): End
    requires s.blockSize > 0
  {
    if CallResult(s, r, c).Ok? then Advanced(r) else r
  }

  /** The reader after the first n calls. */
  function Run(s: Suite, r: End, calls: seq<Call>, n: nat): End
    requires s.blockSize > 0 && n <= |calls|
  {
    if n == 0 then r else AfterCall(s, Run(s, r, calls, n - 1), calls[n - 1])
  }

  /** How many of the first n calls returned rather than failed. */
  function Returned(s: Suite, r: End, calls: seq<Call>, n: nat): (k: nat)
    requires s.blockSize > 0 && n <= |calls|
    ensures k <= n
  {
    if n == 0 then 0
    else Returned(s, r, calls, n - 1) + if CallResult(s, Run(s, r, calls, n - 1), calls[n - 1]).Ok? then 1 else 0
  }

  lemma AddModulo(a: nat, b: nat)
    ensures (a % COUNTER_MODULUS + b) % COUNTER_MODULUS == (a + b) % COUNTER_MODULUS
  {
  }

  /** Over every run the counter is its start plus the calls that returned, modulo 2^64; the keys stay. */
  lemma {:induction false} CounterCounts(s: Suite, r: End, calls: seq<Call>, n: nat)
    requires s.blockSize > 0 && n <= |calls|
    ensures BigEndian(Run(s, r, calls, n).ssc) == (BigEndian(r.ssc) + Returned(s, r, calls, n)) % COUNTER_MODULUS
    ensures Run(s, r, calls, n).encKey == r.encKey && Run(s, r, calls, n).macKey == r.macKey
  {
    hide CallResult, IncrementSsc;
    if n == 0 {
      CounterBound(r.ssc);
    } else {
      CounterCounts(s, r, calls, n - 1);
      IncrementCounts(Run(s, r, calls, n - 1).ssc);
      AddModulo(BigEndian(r.ssc) + Returned(s, r, calls, n - 1), 1);
    }
  }

  lemma {:induction false} ReturnedGrows(s: Suite, r: End, calls: seq<Call>, i: nat, j: nat)
    requires s.blockSize > 0 && i <= j <= |calls|
    ensures Returned(s, r, calls, i) <= Returned(s, r, calls, j)
  {
    hide CallResult;
    if i < j {
      ReturnedGrows(s, r, calls, i, j - 1);
    }
  }

  // ----- replay -----

  /** What the MAC of a response is computed over. */
  function ResponseMessage(s: Suite, ssc: Counter, objects: ByteVector): ByteVector
    requires s.blockSize > 0
  {
    Pad(IncrementSsc(ssc) + objects, s.blockSize)
  }

  function SignedObjects(rapdu: ByteVector): ByteVector
    requires SplitRapdu(rapdu).Ok?
  {
    SplitRapdu(rapdu).value.dataObject + SplitRapdu(rapdu).value.statusObject
  }

  lemma CountersDiffer(start: nat, i: nat, j: nat)
    requires i < j < i + COUNTER_MODULUS
    ensures (start + i) % COUNTER_MODULUS != (start + j) % COUNTER_MODULUS
  {
  }

  /** The MAC input determines the counter. */
  lemma MessageShowsCounter(s: Suite, c: Counter, c': Counter, objects: ByteVector)
    requires s.blockSize > 0
    ensures ResponseMessage(s, c, objects) == ResponseMessage(s, c', objects) ==> c == c'
  {
    hide IncrementSsc, Pad;
    if ResponseMessage(s, c, objects) == ResponseMessage(s, c', objects) {
      PadIsInjective(IncrementSsc(c) + objects, IncrementSsc(c') + objects, s.blockSize);
      FrontIsEqual(IncrementSsc(c), IncrementSsc(c'), objects);
      IncrementIsInjective(c, c');
    }
  }

  lemma FrontIsEqual(a: ByteVector, b: ByteVector, tail: ByteVector)
    requires |a| == |b| && a + tail == b + tail
    ensures a == b
  {
    assert (a + tail)[..|a|] == a && (b + tail)[..|b|] == b;
  }

  lemma SuccessorIsInjective(a: nat, b: nat)
    requires a < COUNTER_MODULUS && b < COUNTER_MODULUS
    ensures (a + 1) % COUNTER_MODULUS == (b + 1) % COUNTER_MODULUS ==> a == b
  {
  }

  lemma CounterBound(c: Counter)
    ensures BigEndian(c) < COUNTER_MODULUS
  {
    PowerOfEight();
    BigEndianBound(c);
  }

  lemma IncrementIsInjective(c: Counter, c': Counter)
    ensures IncrementSsc(c) == IncrementSsc(c') ==> c == c'
  {
    hide IncrementSsc, BigEndian;
    if IncrementSsc(c) == IncrementSsc(c') {
      IncrementCounts(c);
      IncrementCounts(c');
      CounterBound(c);
      CounterBound(c');
      SuccessorIsInjective(BigEndian(c), BigEndian(c'));
      BigEndianIsInjective(c, c');
    }
  }

  lemma AcceptedMac(s: Suite, r: End, rapdu: ByteVector)
    requires s.blockSize > 0 && CallResult(s, r, Unwrap(rapdu)).Ok?
    ensures SplitRapdu(rapdu).Ok?
    ensures s.mac(r.macKey, ResponseMessage(s, r.ssc, SignedObjects(rapdu))) == SplitRapdu(rapdu).value.macObject[2..]
  {
    hide SplitRapdu, IncrementSsc, Pad, Unpad;
  }

  /** Two points of a run with between 1 and 2^64 - 1 returned calls between them have different counters. */
  lemma CountersApart(s: Suite, r: End, calls: seq<Call>, i: nat, j: nat)
    requires s.blockSize > 0 && i <= j <= |calls|
    requires 0 < Returned(s, r, calls, j) - Returned(s, r, calls, i) < COUNTER_MODULUS
    ensures Run(s, r, calls, i).ssc != Run(s, r, calls, j).ssc
  {
    hide Run, Returned;
    CounterCounts(s, r, calls, i);
    CounterCounts(s, r, calls, j);
    CountersDiffer(BigEndian(r.ssc), Returned(s, r, calls, i), Returned(s, r, calls, j));
  }

  /** Two different MAC inputs with one MAC under the key: the same signed objects at two counters. */
  ghost predicate Collision(s: Suite, macKey: ByteVector, c: Counter, c': Counter, objects: ByteVector)
    requires s.blockSize > 0
  {
    && ResponseMessage(s, c, objects) != ResponseMessage(s, c', objects)
    && s.mac(macKey, ResponseMessage(s, c, objects)) == s.mac(macKey, ResponseMessage(s, c', objects))
  }

  /** A response accepted at two different counters of one session needs a collision. */
  lemma ResponseReplayNeedsCollision(s: Suite, r: End, c: Counter, rapdu: ByteVector)
    requires s.blockSize > 0 && r.ssc != c
    requires CallResult(s, r, Unwrap(rapdu)).Ok? && CallResult(s, r.(ssc := c), Unwrap(rapdu)).Ok?
    ensures SplitRapdu(rapdu).Ok? && Collision(s, r.macKey, r.ssc, c, SignedObjects(rapdu))
  {
    hide CallResult, ResponseMessage, SignedObjects, SplitRapdu;
    AcceptedMac(s, r, rapdu);
    AcceptedMac(s, r.(ssc := c), rapdu);
    MessageShowsCounter(s, r.ssc, c, SignedObjects(rapdu));
  }

  /** If one response is accepted at two points of a run with fewer than 2^64 returned calls between
      them, then the MAC collides: two different messages have the same MAC under the session key. */
  lemma ReplayNeedsCollision(s: Suite, r: End, calls: seq<Call>, i: nat, j: nat, rapdu: ByteVector)
    requires s.blockSize > 0 && i < j < |calls| && calls[i] == Unwrap(rapdu) && calls[j] == Unwrap(rapdu)
    requires CallResult(s, Run(s, r, calls, i), calls[i]).Ok? && CallResult(s, Run(s, r, calls, j), calls[j]).Ok?
    requires Returned(s, r, calls, j) - Returned(s, r, calls, i) < COUNTER_MODULUS
    ensures SplitRapdu(rapdu).Ok?
    ensures Collision(s, r.macKey, Run(s, r, calls, i).ssc, Run(s, r, calls, j).ssc, SignedObjects(rapdu))
  {
    hide Run, CallResult, SignedObjects, SplitRapdu, Collision;
    CounterCounts(s, r, calls, i);
    CounterCounts(s, r, calls, j);
    ReturnedGrows(s, r, calls, i + 1, j);
    CountersApart(s, r, calls, i, j);
    ResponseReplayNeedsCollision(s, Run(s, r, calls, i), Run(s, r, calls, j).ssc, rapdu);
  }

  /** What the MAC of a wrapped command covers behind the counter. */
  function CommandObjects(s: Suite, cmd: ByteVector): ByteVector
    requires s.blockSize > 0 && |cmd| >= 16
  {
    Pad(cmd[..4], s.blockSize) + cmd[5..|cmd| - 1][..|cmd| - 16]
  }

  /** The same on the card: a wrapped command accepted at two different counters needs a collision. */
  lemma CommandReplayNeedsCollision(s: Suite, encKey: ByteVector, macKey: ByteVector, c: Counter, c': Counter, cmd: ByteVector)
    requires Sound(s) && c != c'
    requires CardUnwrap(s, encKey, macKey, c, cmd).Some? && CardUnwrap(s, encKey, macKey, c', cmd).Some?
    ensures |cmd| >= 16
    ensures Collision(s, macKey, c, c', CommandObjects(s, cmd))
  {
    hide IncrementSsc, ParseObjects, Fields, Pad;
    var header, body := cmd[..4], cmd[5..|cmd| - 1];
    var objects := Pad(header, s.blockSize) + body[..|body| - 10];
    assert IncrementSsc(c) + Pad(header, s.blockSize) + body[..|body| - 10] == IncrementSsc(c) + objects;
    assert IncrementSsc(c') + Pad(header, s.blockSize) + body[..|body| - 10] == IncrementSsc(c') + objects;
    MessageShowsCounter(s, c, c', objects);
  }
}
