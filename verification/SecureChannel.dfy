/** Reader and card over a wire that may lose, delay, repeat and reorder what they send, and bring in
    messages of its own.  The safety law holds for every run: what one end accepts, the other end sent
    at the same count, each message at most once and in order; or else two MAC inputs of the run collide. */
module SecureChannel {
  import opened Bytes
  import opened SecureMessaging
  import opened SecureRuns

  // ----- the net -----

  /** Messages are logged with the number of counter moves their sender or receiver had made before. */
  datatype Sent = Sent(at: nat, apdu: ByteVector, wrapped: ByteVector)

  datatype Replied = Replied(at: nat, reply: Reply, rapdu: ByteVector)

  datatype Read = Read(at: nat, command: Command)

  datatype Received = Received(at: nat, plain: ByteVector)

  datatype Net = Net(
    reader: End,
    card: End,
    readerCount: nat,
    cardCount: nat,
    sent: seq<Sent>,
    replied: seq<Replied>,
    read: seq<Read>,
    received: seq<Received>)

  /** The reader wraps an APDU; some bytes reach the card, which answers if it accepts them; some bytes
      reach the reader.  Nothing that is sent needs to arrive. */
  datatype Event =
    | Send(apdu: ByteVector)
    | ToCard(wrapped: ByteVector, reply: Reply)
    | ToReader(rapdu: ByteVector)

  function Opened(r: End): Net { Net(r, r, 0, 0, [], [], [], []) }

  function CardRead(s: Suite, card: End, wrapped: ByteVector): Option<Command>
    requires s.blockSize > 0
  {
    CardUnwrap(s, card.encKey, card.macKey, card.ssc, wrapped)
  }

  function AnswerOf(s: Suite, card: End, reply: Reply): ByteVector
    requires s.blockSize > 0
  {
    CardReply(s, card.encKey, card.macKey, card.ssc, reply)
  }

  function AfterSend(s: Suite, n: Net, apdu: ByteVector): Net
    requires s.blockSize > 0
  {
    match CallResult(s, n.reader, Wrap(apdu))
    case Err(_) => n
    case Ok(wrapped) =>
      n.(reader := Advanced(n.reader), readerCount := n.readerCount + 1,
         sent := n.sent + [Sent(n.readerCount, apdu, wrapped)])
  }

  function AfterToCard(s: Suite, n: Net, wrapped: ByteVector, reply: Reply): Net
    requires s.blockSize > 0
  {
    match CardRead(s, n.card, wrapped)
    case None => n
    case Some(command) =>
      n.(card := Advanced(Advanced(n.card)), cardCount := n.cardCount + 2,
         read := n.read + [Read(n.cardCount, command)],
         replied := n.replied + [Replied(n.cardCount + 1, reply, AnswerOf(s, Advanced(n.card), reply))])
  }

  function AfterToReader(s: Suite, n: Net, rapdu: ByteVector): Net
    requires s.blockSize > 0
  {
    match CallResult(s, n.reader, Unwrap(rapdu))
    case Err(_) => n
    case Ok(plain) =>
      n.(reader := Advanced(n.reader), readerCount := n.readerCount + 1,
         received := n.received + [Received(n.readerCount, plain)])
  }

  function Step(s: Suite, n: Net, e: Event): Net
    requires s.blockSize > 0
  {
    match e
    case Send(apdu) => AfterSend(s, n, apdu)
    case ToCard(wrapped, reply) => AfterToCard(s, n, wrapped, reply)
    case ToReader(rapdu) => AfterToReader(s, n, rapdu)
  }

  /** The net after the first k events. */
  function After(s: Suite, n: Net, events: seq<Event>, k: nat): Net
    requires s.blockSize > 0 && k <= |events|
  {
    if k == 0 then n else Step(s, After(s, n, events, k - 1), events[k - 1])
  }

  // ----- counters -----

  /** An end after k moves of its counter. */
  function At(r: End, k: nat): End { if k == 0 then r else Advanced(At(r, k - 1)) }

  lemma {:induction false} AtCounts(r: End, k: nat)
    ensures BigEndian(At(r, k).ssc) == (BigEndian(r.ssc) + k) % COUNTER_MODULUS
    ensures At(r, k) == r.(ssc := At(r, k).ssc)
  {
    hide IncrementSsc;
    if k == 0 {
      CounterBound(r.ssc);
    } else {
      AtCounts(r, k - 1);
      IncrementCounts(At(r, k - 1).ssc);
      AddModulo(BigEndian(r.ssc) + (k - 1), 1);
    }
  }

  lemma AtDiffer(r: End, i: nat, j: nat)
    requires i != j && i < COUNTER_MODULUS && j < COUNTER_MODULUS
    ensures At(r, i).ssc != At(r, j).ssc
  {
    hide At;
    AtCounts(r, i);
    AtCounts(r, j);
    if i < j {
      CountersDiffer(BigEndian(r.ssc), i, j);
    } else {
      CountersDiffer(BigEndian(r.ssc), j, i);
    }
  }

  // ----- what the logs mean -----

  /** The item is what the reader wraps after that many moves. */
  predicate IsSent(s: Suite, r: End, x: Sent)
    requires s.blockSize > 0
  {
    CallResult(s, At(r, x.at), Wrap(x.apdu)) == Ok(x.wrapped)
  }

  predicate IsReplied(s: Suite, r: End, x: Replied)
    requires s.blockSize > 0
  {
    x.rapdu == AnswerOf(s, At(r, x.at), x.reply)
  }

  /** Both ends are where their counts say, and the wire logs hold what the ends sent, in order. */
  predicate Logged(s: Suite, r: End, n: Net)
    requires s.blockSize > 0
  {
    && n.reader == At(r, n.readerCount) && n.card == At(r, n.cardCount)
    && (forall i :: 0 <= i < |n.sent| ==> n.sent[i].at < n.readerCount && IsSent(s, r, n.sent[i]))
    && (forall i :: 0 <= i < |n.replied| ==> n.replied[i].at < n.cardCount && IsReplied(s, r, n.replied[i]))
    && (forall i, j :: 0 <= i < j < |n.sent| ==> n.sent[i].at < n.sent[j].at)
    && (forall i, j :: 0 <= i < j < |n.replied| ==> n.replied[i].at < n.replied[j].at)
  }

  lemma StepIsLogged(s: Suite, r: End, n: Net, e: Event)
    requires s.blockSize > 0 && Logged(s, r, n)
    ensures Logged(s, r, Step(s, n, e))
  {
    hide CallResult, CardRead, AnswerOf, Advanced;
    assert At(r, n.readerCount + 1) == Advanced(n.reader);
    assert At(r, n.cardCount + 1) == Advanced(n.card) && At(r, n.cardCount + 2) == Advanced(Advanced(n.card));
  }

  lemma {:induction false} RunIsLogged(s: Suite, r: End, events: seq<Event>, k: nat)
    requires s.blockSize > 0 && k <= |events|
    ensures Logged(s, r, After(s, Opened(r), events, k))
  {
    hide Logged, Step;
    if k == 0 {
      OpenedIsLogged(s, r);
    } else {
      RunIsLogged(s, r, events, k - 1);
      StepIsLogged(s, r, After(s, Opened(r), events, k - 1), events[k - 1]);
    }
  }

  lemma OpenedIsLogged(s: Suite, r: End)
    requires s.blockSize > 0
    ensures Logged(s, r, Opened(r))
  {
  }

  /** What was read is what was sent at that count, as the code classifies it; what was received is what
      was replied at that count; and no count occurs twice or out of order. */
  ghost predicate Agreement(n: Net) {
    && (forall i :: 0 <= i < |n.read| ==> n.read[i].at < n.cardCount && WasSent(n, n.read[i]))
    && (forall i :: 0 <= i < |n.received| ==> n.received[i].at < n.readerCount && WasReplied(n, n.received[i]))
    && (forall i, j :: 0 <= i < j < |n.read| ==> n.read[i].at < n.read[j].at)
    && (forall i, j :: 0 <= i < j < |n.received| ==> n.received[i].at < n.received[j].at)
  }

  ghost predicate WasSent(n: Net, x: Read) {
    exists j :: 0 <= j < |n.sent| && n.sent[j].at == x.at && |n.sent[j].apdu| >= 4 && Seen(n.sent[j].apdu) == x.command
  }

  ghost predicate WasReplied(n: Net, x: Received) {
    exists j :: 0 <= j < |n.replied| && n.replied[j].at == x.at && Plain(n.replied[j].reply) == x.plain
  }

  // ----- one delivery -----

  /** A sent command reaches the card: at its own count it is accepted exactly when its data object
      is at most 127 bytes long, and is read as the code saw it; at another count it is refused or the MAC collides. */
  lemma SentCommandAt(s: Suite, r: End, x: Sent, count: nat)
    requires Sound(s) && IsSent(s, r, x) && x.at < COUNTER_MODULUS && count < COUNTER_MODULUS
    ensures |x.apdu| >= 4
    ensures count == x.at ==>
              CardRead(s, At(r, count), x.wrapped) == if ShortObject(s, x.apdu) then Some(Seen(x.apdu)) else None
    ensures count != x.at && CardRead(s, At(r, count), x.wrapped).Some? ==>
              && |x.wrapped| >= 16
              && Collision(s, r.macKey, At(r, x.at).ssc, At(r, count).ssc, CommandObjects(s, x.wrapped))
  {
    hide At, CardUnwrap, ShortObject, Seen, EncryptApdu, Collision, CommandObjects;
    AtCounts(r, x.at);
    AtCounts(r, count);
    var c, c' := At(r, x.at).ssc, At(r, count).ssc;
    assert |x.apdu| >= 4 by { ShortIsRefused(s, At(r, x.at), x.apdu); }
    CardReadsWhatWasSeen(s, r.encKey, r.macKey, c, x.apdu);
    if count != x.at && CardRead(s, At(r, count), x.wrapped).Some? {
      AtDiffer(r, x.at, count);
      if !ShortObject(s, x.apdu) {
        LongIsRefusedEverywhere(s, r.encKey, r.macKey, c, c', x.apdu);
      } else {
        CommandReplayNeedsCollision(s, r.encKey, r.macKey, c, c', x.wrapped);
      }
    }
  }

  lemma ShortIsRefused(s: Suite, r: End, apdu: ByteVector)
    requires s.blockSize > 0
    ensures CallResult(s, r, Wrap(apdu)).Ok? ==> |apdu| >= 4
  {
  }

  /** A reply that fits reaches the reader: at its own count it is accepted and read; at another count it is
      refused or the MAC collides. */
  lemma RepliedAt(s: Suite, r: End, x: Replied, count: nat)
    requires Sound(s) && IsReplied(s, r, x) && ReplyFits(s, x.reply) && x.at < COUNTER_MODULUS && count < COUNTER_MODULUS
    ensures count == x.at ==> CallResult(s, At(r, count), Unwrap(x.rapdu)) == Ok(Plain(x.reply))
    ensures count != x.at && CallResult(s, At(r, count), Unwrap(x.rapdu)).Ok? ==>
              && SplitRapdu(x.rapdu).Ok?
              && Collision(s, r.macKey, At(r, x.at).ssc, At(r, count).ssc, SignedObjects(x.rapdu))
  {
    hide At, CardReply, DecryptRapdu, Collision, SignedObjects, SplitRapdu, ReplyFits, Plain;
    AtCounts(r, x.at);
    AtCounts(r, count);
    ReplySurvives(s, r.encKey, r.macKey, At(r, x.at).ssc, x.reply);
    if count != x.at && CallResult(s, At(r, count), Unwrap(x.rapdu)).Ok? {
      AtDiffer(r, x.at, count);
      ResponseReplayNeedsCollision(s, At(r, x.at), At(r, count).ssc, x.rapdu);
    }
  }

  lemma FirstByteOfReply(s: Suite, card: End, reply: Reply)
    requires s.blockSize > 0
    ensures var rapdu := AnswerOf(s, card, reply);
            |rapdu| > 0 && (rapdu[0] == 0x87 || rapdu[0] == 0x85 || rapdu[0] == 0x99)
  {
    hide Cryptogram, ResponseMac, BerLength;
  }

  lemma InsecureIsNoCommand(s: Suite, card: End, bytes: ByteVector)
    requires s.blockSize > 0 && |bytes| > 0 && (bytes[0] as bv8) & 0x0c != 0x0c
    ensures CardRead(s, card, bytes) == None
  {
    hide CommandMac, ParseObjects, Fields;
  }

  /** A reply brought back to the card is never taken for a command. */
  lemma ReplyIsNoCommand(s: Suite, r: End, x: Replied, card: End)
    requires s.blockSize > 0 && IsReplied(s, r, x)
    ensures CardRead(s, card, x.rapdu) == None
  {
    hide At, AnswerOf, CardRead;
    FirstBytes();
    FirstByteOfReply(s, At(r, x.at), x.reply);
    InsecureIsNoCommand(s, card, x.rapdu);
  }

  lemma FirstBytes()
    ensures ((0x87 as byte) as bv8) & 0x0c != 0x0c && ((0x85 as byte) as bv8) & 0x0c != 0x0c
    ensures ((0x99 as byte) as bv8) & 0x0c != 0x0c
  {
  }

  // ----- whole runs -----

  /** Bytes that neither end sent are refused, and so are replies with a data object of more than 127 bytes,
      out of which the code would check bytes the card never put under a MAC.  Nothing is asked about any
      other bytes that crossed the wire. */
  ghost predicate NoForgery(s: Suite, n: Net, e: Event)
    requires s.blockSize > 0
  {
    match e
    case Send(_) => true
    case ToCard(wrapped, _) =>
      || (exists j :: 0 <= j < |n.sent| && n.sent[j].wrapped == wrapped)
      || (exists j :: 0 <= j < |n.replied| && n.replied[j].rapdu == wrapped)
      || CardRead(s, n.card, wrapped).None?
    case ToReader(rapdu) =>
      || (exists j :: 0 <= j < |n.replied| && n.replied[j].rapdu == rapdu && ReplyFits(s, n.replied[j].reply))
      || CallResult(s, n.reader, Unwrap(rapdu)).Err?
  }

  /** The delivery brings a message of one count to an end at another count, where the MAC over that
      other counter is the one the message carries. */
  ghost predicate Collides(s: Suite, r: End, n: Net, e: Event)
    requires s.blockSize > 0
  {
    match e
    case Send(_) => false
    case ToCard(wrapped, _) =>
      |wrapped| >= 16 &&
      exists j :: 0 <= j < |n.sent| && n.sent[j].wrapped == wrapped && n.sent[j].at != n.cardCount
                  && Collision(s, r.macKey, At(r, n.sent[j].at).ssc, At(r, n.cardCount).ssc, CommandObjects(s, wrapped))
    case ToReader(rapdu) =>
      SplitRapdu(rapdu).Ok? &&
      exists j :: 0 <= j < |n.replied| && n.replied[j].rapdu == rapdu && n.replied[j].at != n.readerCount
                  && Collision(s, r.macKey, At(r, n.replied[j].at).ssc, At(r, n.readerCount).ssc, SignedObjects(rapdu))
  }

  predicate Below(n: Net) { n.readerCount < COUNTER_MODULUS && n.cardCount < COUNTER_MODULUS }

  /** Without a collision the card accepts only a fitting command the reader sent at the card's count. */
  lemma CardAcceptsOnlyItsCount(s: Suite, r: End, n: Net, wrapped: ByteVector, reply: Reply)
    requires Sound(s) && Logged(s, r, n) && Below(n)
    requires NoForgery(s, n, ToCard(wrapped, reply)) && !Collides(s, r, n, ToCard(wrapped, reply))
    requires CardRead(s, n.card, wrapped).Some?
    ensures exists j :: 0 <= j < |n.sent| && n.sent[j].at == n.cardCount && n.sent[j].wrapped == wrapped
                        && |n.sent[j].apdu| >= 4 && Seen(n.sent[j].apdu) == CardRead(s, n.card, wrapped).value
  {
    hide CardRead, At, IsSent, IsReplied, Seen, Collision, CommandObjects, CallResult;
    forall j | 0 <= j < |n.replied|
      ensures n.replied[j].rapdu != wrapped
    {
      ReplyIsNoCommand(s, r, n.replied[j], n.card);
    }
    var j :| 0 <= j < |n.sent| && n.sent[j].wrapped == wrapped;
    SentCommandAt(s, r, n.sent[j], n.cardCount);
    assert n.sent[j].at == n.cardCount;
  }

  lemma ReaderAcceptsOnlyItsCount(s: Suite, r: End, n: Net, rapdu: ByteVector)
    requires Sound(s) && Logged(s, r, n) && Below(n)
    requires NoForgery(s, n, ToReader(rapdu)) && !Collides(s, r, n, ToReader(rapdu))
    requires CallResult(s, n.reader, Unwrap(rapdu)).Ok?
    ensures exists j :: 0 <= j < |n.replied| && n.replied[j].at == n.readerCount && n.replied[j].rapdu == rapdu
                        && Plain(n.replied[j].reply) == CallResult(s, n.reader, Unwrap(rapdu)).value
  {
    hide CallResult, At, IsSent, IsReplied, Plain, Collision, SignedObjects, SplitRapdu;
    var j :| 0 <= j < |n.replied| && n.replied[j].rapdu == rapdu && ReplyFits(s, n.replied[j].reply);
    RepliedAt(s, r, n.replied[j], n.readerCount);
    assert n.replied[j].at == n.readerCount;
  }

  lemma StepAgrees(s: Suite, r: End, n: Net, e: Event)
    requires Sound(s) && Logged(s, r, n) && Below(n) && NoForgery(s, n, e) && !Collides(s, r, n, e) && Agreement(n)
    ensures Agreement(Step(s, n, e))
  {
    hide CallResult, CardRead, AnswerOf, Advanced, At, Logged, NoForgery, Collides, Seen, Plain, WasSent, WasReplied;
    var n' := Step(s, n, e);
    LogsGrow(s, n, e);
    forall x: Read | WasSent(n, x)
      ensures WasSent(n', x)
    {
      StillSent(n, n', x);
    }
    forall x: Received | WasReplied(n, x)
      ensures WasReplied(n', x)
    {
      StillReplied(n, n', x);
    }
    match e
    case Send(_) =>
    case ToCard(wrapped, reply) =>
      if CardRead(s, n.card, wrapped).Some? {
        CardAcceptsOnlyItsCount(s, r, n, wrapped, reply);
        assert WasSent(n, Read(n.cardCount, CardRead(s, n.card, wrapped).value)) by { NowSent(n, wrapped, CardRead(s, n.card, wrapped).value); }
      }
    case ToReader(rapdu) =>
      if CallResult(s, n.reader, Unwrap(rapdu)).Ok? {
        ReaderAcceptsOnlyItsCount(s, r, n, rapdu);
        NowReplied(n, rapdu, CallResult(s, n.reader, Unwrap(rapdu)).value);
      }
  }

  lemma LogsGrow(s: Suite, n: Net, e: Event)
    requires s.blockSize > 0
    ensures var n' := Step(s, n, e); n.sent <= n'.sent && n.replied <= n'.replied
    ensures var n' := Step(s, n, e); n.readerCount <= n'.readerCount && n.cardCount <= n'.cardCount
  {
    hide CallResult, CardRead, AnswerOf;
  }

  lemma StillSent(n: Net, n': Net, x: Read)
    requires n.sent <= n'.sent && WasSent(n, x)
    ensures WasSent(n', x)
  {
    hide Seen;
    var j :| 0 <= j < |n.sent| && n.sent[j].at == x.at && |n.sent[j].apdu| >= 4 && Seen(n.sent[j].apdu) == x.command;
    assert n'.sent[j] == n.sent[j];
  }

  lemma StillReplied(n: Net, n': Net, x: Received)
    requires n.replied <= n'.replied && WasReplied(n, x)
    ensures WasReplied(n', x)
  {
    hide Plain;
    var j :| 0 <= j < |n.replied| && n.replied[j].at == x.at && Plain(n.replied[j].reply) == x.plain;
    assert n'.replied[j] == n.replied[j];
  }

  lemma NowSent(n: Net, wrapped: ByteVector, command: Command)
    requires exists j :: 0 <= j < |n.sent| && n.sent[j].at == n.cardCount && n.sent[j].wrapped == wrapped
                         && |n.sent[j].apdu| >= 4 && Seen(n.sent[j].apdu) == command
    ensures WasSent(n, Read(n.cardCount, command))
  {
  }

  lemma NowReplied(n: Net, rapdu: ByteVector, plain: ByteVector)
    requires exists j :: 0 <= j < |n.replied| && n.replied[j].at == n.readerCount && n.replied[j].rapdu == rapdu
                         && Plain(n.replied[j].reply) == plain
    ensures WasReplied(n, Received(n.readerCount, plain))
  {
  }

  /** The run up to k: no forgery accepted, counters not yet round. */
  ghost predicate Plausible(s: Suite, r: End, events: seq<Event>, k: nat)
    requires s.blockSize > 0 && k <= |events|
  {
    && (forall i :: 0 <= i < k ==> NoForgery(s, After(s, Opened(r), events, i), events[i]))
    && (forall i :: 0 <= i < k ==> Below(After(s, Opened(r), events, i)))
  }

  ghost predicate NoCollision(s: Suite, r: End, events: seq<Event>, k: nat)
    requires s.blockSize > 0 && k <= |events|
  {
    forall i :: 0 <= i < k ==> !Collides(s, r, After(s, Opened(r), events, i), events[i])
  }

  /** Over every run, whatever the wire loses, delays, repeats, reorders or brings in: either some
      delivery of the run shows two of its MAC inputs with one MAC, or all that the ends accepted is
      what the other end sent at that count, at most once and in order. */
  lemma {:induction false} ChannelIsFaithful(s: Suite, r: End, events: seq<Event>, k: nat)
    requires Sound(s) && k <= |events| && Plausible(s, r, events, k)
    ensures !NoCollision(s, r, events, k) || Agreement(After(s, Opened(r), events, k))
  {
    hide Agreement, Step, NoForgery, Below, Collides;
    if k == 0 {
      NothingYet(r);
    } else if NoCollision(s, r, events, k) {
      ChannelIsFaithful(s, r, events, k - 1);
      RunIsLogged(s, r, events, k - 1);
      StepAgrees(s, r, After(s, Opened(r), events, k - 1), events[k - 1]);
    }
  }

  lemma NothingYet(r: End)
    ensures Agreement(Opened(r))
  {
  }

  // ----- in step and out of step -----

  predicate InStep(n: Net) { n.readerCount == n.cardCount }

  /** An exchange whose two messages arrive keeps the ends in step, and both are accepted. */
  lemma ExchangeKeepsStep(s: Suite, r: End, n: Net, apdu: ByteVector, reply: Reply)
    requires Sound(s) && Logged(s, r, n) && InStep(n) && n.readerCount + 1 < COUNTER_MODULUS
    requires |apdu| >= 4 && ShortObject(s, apdu) && ReplyFits(s, reply)
    ensures var n1 := Step(s, n, Send(apdu));
            |n1.sent| > 0 &&
            var n2 := Step(s, n1, ToCard(n1.sent[|n1.sent| - 1].wrapped, reply));
            |n2.replied| > 0 &&
            var n3 := Step(s, n2, ToReader(n2.replied[|n2.replied| - 1].rapdu));
            && InStep(n3) && n3.readerCount == n.readerCount + 2
            && n3.read == n.read + [Read(n.cardCount, Seen(apdu))]
            && n3.received == n.received + [Received(n.readerCount + 1, Plain(reply))]
  {
    hide CallResult, CardRead, AnswerOf, Advanced, ShortObject, Seen, Plain, ReplyFits, IsSent, IsReplied, At;
    LongIsWrapped(s, n.reader, apdu);
    var n1 := Step(s, n, Send(apdu));
    StepIsLogged(s, r, n, Send(apdu));
    SentCommandAt(s, r, n1.sent[|n1.sent| - 1], n.cardCount);
    var e := ToCard(n1.sent[|n1.sent| - 1].wrapped, reply);
    StepIsLogged(s, r, n1, e);
    var n2 := Step(s, n1, e);
    RepliedAt(s, r, n2.replied[|n2.replied| - 1], n2.readerCount);
  }

  lemma LongIsWrapped(s: Suite, r: End, apdu: ByteVector)
    requires s.blockSize > 0 && |apdu| >= 4
    ensures CallResult(s, r, Wrap(apdu)).Ok?
  {
  }

  /** After a lost reply the card is one count ahead.  The next command is sent at a count the card has
      left, so it is refused or the MAC collides; but with it the ends are in step again. */
  lemma LostReplyCostsOneCommand(s: Suite, r: End, n: Net, apdu: ByteVector, reply: Reply)
    requires Sound(s) && Logged(s, r, n) && Below(n) && n.cardCount == n.readerCount + 1
    requires |apdu| >= 4
    ensures var n' := Step(s, n, Send(apdu));
            && InStep(n') && |n'.sent| > 0
            && var e := ToCard(n'.sent[|n'.sent| - 1].wrapped, reply);
               Step(s, n', e) == n' || Collides(s, r, n', e)
  {
    hide CallResult, CardRead, AnswerOf, Advanced, ShortObject, Seen, IsSent, IsReplied, At, Collision, CommandObjects;
    LongIsWrapped(s, n.reader, apdu);
    var n' := Step(s, n, Send(apdu));
    StepIsLogged(s, r, n, Send(apdu));
    SentCommandAt(s, r, n'.sent[|n'.sent| - 1], n'.cardCount);
  }

  /** The reader has passed the card's count, and no event from i on brings what it sent there. */
  ghost predicate CommandLost(s: Suite, r: End, events: seq<Event>, i: nat)
    requires s.blockSize > 0 && i <= |events|
  {
    var n := After(s, Opened(r), events, i);
    && n.cardCount < n.readerCount
    && forall m :: i <= m < |events| && events[m].ToCard? ==>
         forall j :: 0 <= j < |n.sent| && n.sent[j].at == n.cardCount ==> n.sent[j].wrapped != events[m].wrapped
  }

  /** A lost command puts the ends out of step for good: the card accepts nothing for the rest of the
      run, whatever else is sent or brought in, unless the MAC collides. */
  lemma {:induction false} LostCommandStopsTheCard(s: Suite, r: End, events: seq<Event>, i: nat, k: nat)
    requires Sound(s) && i <= k <= |events| && Plausible(s, r, events, k)
    requires CommandLost(s, r, events, i)
    ensures var n, n' := After(s, Opened(r), events, i), After(s, Opened(r), events, k);
            !NoCollision(s, r, events, k) ||
            (n'.cardCount == n.cardCount && n'.read == n.read && NothingNewAt(n, n'))
  {
    hide Step, NoForgery, Below, Collides, NothingNewAt;
    var n := After(s, Opened(r), events, i);
    if i == k {
      NothingNewSame(n);
    } else if NoCollision(s, r, events, k) {
      LostCommandStopsTheCard(s, r, events, i, k - 1);
      RunIsLogged(s, r, events, k - 1);
      StuckStep(s, r, n, After(s, Opened(r), events, k - 1), events[k - 1]);
    }
  }

  /** What has been sent since was sent at later counts. */
  ghost predicate NothingNewAt(n: Net, n': Net) {
    && n.readerCount <= n'.readerCount && n.sent <= n'.sent
    && forall j :: |n.sent| <= j < |n'.sent| ==> n'.sent[j].at >= n.readerCount
  }

  lemma NothingNewSame(n: Net)
    ensures NothingNewAt(n, n)
  {
  }

  lemma StillLost(n: Net, m: Net, wrapped: ByteVector)
    requires NothingNewAt(n, m) && n.cardCount < n.readerCount
    requires forall j :: 0 <= j < |n.sent| && n.sent[j].at == n.cardCount ==> n.sent[j].wrapped != wrapped
    ensures forall j :: 0 <= j < |m.sent| && m.sent[j].at == n.cardCount ==> m.sent[j].wrapped != wrapped
  {
    assert forall j :: 0 <= j < |n.sent| ==> m.sent[j] == n.sent[j];
  }

  lemma StuckStep(s: Suite, r: End, n: Net, m: Net, e: Event)
    requires Sound(s) && Logged(s, r, m) && Below(m) && NoForgery(s, m, e) && !Collides(s, r, m, e)
    requires NothingNewAt(n, m) && m.cardCount == n.cardCount < n.readerCount
    requires e.ToCard? ==>
               forall j :: 0 <= j < |n.sent| && n.sent[j].at == n.cardCount ==> n.sent[j].wrapped != e.wrapped
    ensures var m' := Step(s, m, e); m'.cardCount == m.cardCount && m'.read == m.read && NothingNewAt(n, m')
  {
    hide CallResult, CardRead, AnswerOf, Advanced, Logged, NoForgery, Collides, Seen;
    if e.ToCard? {
      StillLost(n, m, e.wrapped);
      CardIsSilent(s, r, m, e.wrapped, e.reply);
    }
  }

  /** Without a collision the card refuses what was not sent at its count. */
  lemma CardIsSilent(s: Suite, r: End, n: Net, wrapped: ByteVector, reply: Reply)
    requires Sound(s) && Logged(s, r, n) && Below(n)
    requires NoForgery(s, n, ToCard(wrapped, reply)) && !Collides(s, r, n, ToCard(wrapped, reply))
    requires forall j :: 0 <= j < |n.sent| && n.sent[j].at == n.cardCount ==> n.sent[j].wrapped != wrapped
    ensures CardRead(s, n.card, wrapped).None?
  {
    hide CardRead, Logged, NoForgery, Collides, Seen;
    if CardRead(s, n.card, wrapped).Some? {
      CardAcceptsOnlyItsCount(s, r, n, wrapped, reply);
      assert false;
    }
  }

  lemma ReaderIsSilent(s: Suite, r: End, n: Net, rapdu: ByteVector)
    requires Sound(s) && Logged(s, r, n) && Below(n)
    requires NoForgery(s, n, ToReader(rapdu)) && !Collides(s, r, n, ToReader(rapdu))
    requires forall j :: 0 <= j < |n.replied| && n.replied[j].at == n.readerCount ==> n.replied[j].rapdu != rapdu
    ensures CallResult(s, n.reader, Unwrap(rapdu)).Err?
  {
    hide CallResult, Logged, NoForgery, Collides, Plain;
    if CallResult(s, n.reader, Unwrap(rapdu)).Ok? {
      ReaderAcceptsOnlyItsCount(s, r, n, rapdu);
      assert false;
    }
  }

  // ----- runs without loss -----

  /** A whole exchange, or a delivery of anything else between two exchanges. */
  datatype Round = Exchange(apdu: ByteVector, reply: Reply) | Noise(delivery: Event)

  function AfterRound(s: Suite, n: Net, x: Round): Net
    requires s.blockSize > 0
  {
    match x
    case Noise(e) => Step(s, n, e)
    case Exchange(apdu, reply) =>
      var n1 := Step(s, n, Send(apdu));
      if |n1.sent| == 0 then n1
      else
        var n2 := Step(s, n1, ToCard(n1.sent[|n1.sent| - 1].wrapped, reply));
        if |n2.replied| == 0 then n2
        else Step(s, n2, ToReader(n2.replied[|n2.replied| - 1].rapdu))
  }

  function AfterRounds(s: Suite, n: Net, rounds: seq<Round>, k: nat): Net
    requires s.blockSize > 0 && k <= |rounds|
  {
    if k == 0 then n else AfterRound(s, AfterRounds(s, n, rounds, k - 1), rounds[k - 1])
  }

  function SeenCommand(apdu: ByteVector): Command {
    if |apdu| >= 4 then Seen(apdu) else Command(0, 0, 0, 0, [], None)
  }

  /** What the card should have read and the reader received, two counts to an exchange. */
  function Due(rounds: seq<Round>, k: nat): (due: (seq<Read>, seq<Received>))
    requires k <= |rounds|
    ensures |due.0| == |due.1| <= k
  {
    if k == 0 then ([], [])
    else
      var (read, received) := Due(rounds, k - 1);
      match rounds[k - 1]
      case Noise(_) => (read, received)
      case Exchange(apdu, reply) =>
        (read + [Read(2 * |read|, SeenCommand(apdu))], received + [Received(2 * |read| + 1, Plain(reply))])
  }

  predicate Fitting(s: Suite, x: Round)
    requires s.blockSize > 0
  {
    match x
    case Exchange(apdu, reply) => |apdu| >= 4 && ShortObject(s, apdu) && ReplyFits(s, reply)
    case Noise(e) => !e.Send?
  }

  lemma NoiseInStep(s: Suite, r: End, n: Net, e: Event)
    requires Sound(s) && Logged(s, r, n) && Below(n) && InStep(n) && !e.Send?
    requires NoForgery(s, n, e) && !Collides(s, r, n, e)
    ensures Step(s, n, e) == n
  {
    hide CallResult, CardRead, AnswerOf, Advanced, At, IsSent, IsReplied, NoForgery, Collides;
    match e
    case ToCard(wrapped, reply) => CardIsSilent(s, r, n, wrapped, reply);
    case ToReader(rapdu) => ReaderIsSilent(s, r, n, rapdu);
    case Send(_) =>
  }

  lemma ExchangeIsLogged(s: Suite, r: End, n: Net, x: Round)
    requires Sound(s) && Logged(s, r, n) && Fitting(s, x)
    ensures Logged(s, r, AfterRound(s, n, x))
  {
    hide Step, Logged;
    match x
    case Noise(e) => StepIsLogged(s, r, n, e);
    case Exchange(apdu, reply) =>
      StepIsLogged(s, r, n, Send(apdu));
      var n1 := Step(s, n, Send(apdu));
      if |n1.sent| > 0 {
        var e := ToCard(n1.sent[|n1.sent| - 1].wrapped, reply);
        StepIsLogged(s, r, n1, e);
        var n2 := Step(s, n1, e);
        if |n2.replied| > 0 {
          StepIsLogged(s, r, n2, ToReader(n2.replied[|n2.replied| - 1].rapdu));
        }
      }
  }

  predicate AllFitting(s: Suite, rounds: seq<Round>)
    requires s.blockSize > 0
  {
    forall i :: 0 <= i < |rounds| ==> Fitting(s, rounds[i])
  }

  /** Each delivery between the first k rounds is no forgery and makes no collision. */
  ghost predicate Harmless(s: Suite, r: End, rounds: seq<Round>, k: nat)
    requires s.blockSize > 0 && k <= |rounds|
  {
    forall i :: 0 <= i < k ==> HarmlessRound(s, r, AfterRounds(s, Opened(r), rounds, i), rounds[i])
  }

  ghost predicate HarmlessRound(s: Suite, r: End, n: Net, x: Round)
    requires s.blockSize > 0
  {
    x.Noise? ==> NoForgery(s, n, x.delivery) && !Collides(s, r, n, x.delivery)
  }

  predicate Arrived(n: Net, due: (seq<Read>, seq<Received>)) {
    InStep(n) && (n.read, n.received) == due && n.readerCount == 2 * |n.read|
  }

  /** Between whole exchanges anything may be brought to either end, old messages included: the ends
      stay in step, every command is read and every reply received, in order and once. */
  lemma {:induction false} ExchangesArrive(s: Suite, r: End, rounds: seq<Round>, k: nat)
    requires Sound(s) && k <= |rounds| && 2 * k < COUNTER_MODULUS
    requires AllFitting(s, rounds) && Harmless(s, r, rounds, k)
    ensures Logged(s, r, AfterRounds(s, Opened(r), rounds, k))
    ensures Arrived(AfterRounds(s, Opened(r), rounds, k), Due(rounds, k))
  {
    hide Step, AfterRound, HarmlessRound, Logged, Seen, Plain, Fitting;
    if k == 0 {
      OpenedIsLogged(s, r);
    } else {
      ExchangesArrive(s, r, rounds, k - 1);
      var n, x := AfterRounds(s, Opened(r), rounds, k - 1), rounds[k - 1];
      ExchangeIsLogged(s, r, n, x);
      RoundArrives(s, r, n, x);
    }
  }

  lemma RoundArrives(s: Suite, r: End, n: Net, x: Round)
    requires Sound(s) && Logged(s, r, n) && InStep(n) && Fitting(s, x) && n.readerCount + 1 < COUNTER_MODULUS
    requires HarmlessRound(s, r, n, x)
    ensures var n' := AfterRound(s, n, x);
            && InStep(n')
            && (x.Noise? ==> n' == n)
            && (x.Exchange? ==>
                && n'.readerCount == n.readerCount + 2
                && n'.read == n.read + [Read(n.cardCount, SeenCommand(x.apdu))]
                && n'.received == n.received + [Received(n.readerCount + 1, Plain(x.reply))])
  {
    hide Step, NoForgery, Collides, Logged, ShortObject, Seen, Plain, ReplyFits;
    match x
    case Noise(e) => NoiseInStep(s, r, n, e);
    case Exchange(apdu, reply) => ExchangeKeepsStep(s, r, n, apdu, reply);
  }
}
