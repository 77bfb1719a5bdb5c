/** The serial port as a machine of atomic steps: every handler of the I/O thread, and every callback the
    application runs under the lock, is one step, and any interleaving of enabled steps is a run.
    The laws concern all runs: what is written reaches the device once and in order, and what arrives
    is delivered in order, except for whole ring buffers dropped at an overflow. */
module SerialSteps {
  import opened Bytes

  const RING_CAPACITY: nat := 256
  const READ_BUFFER: nat := 128

  /** An asynchronous write over the first `length` bytes of the write buffer. */
  datatype Write = Write(length: nat, done: nat)

  /** What became of bytes that left the ring buffer. */
  datatype Entry = Delivered(bytes: ByteVector) | Dropped(bytes: ByteVector)

  /** The fields of the port, and the history on both sides of it:
      bytes submitted by the application and accepted by the device, bytes arrived and their fate. */
  datatype State = State(
    writeBuffer: ByteVector,
    posted: seq<ByteVector>,
    inFlight: seq<Write>,
    ring: ByteVector,
    dataFlag: bool,
    submitted: ByteVector,
    device: ByteVector,
    arrived: ByteVector,
    fates: seq<Entry>)

  const INITIAL: State := State([], [], [], [], false, [], [], [], [])

  datatype Action =
    | Submit(bytes: ByteVector)            // write: the application posts a handler
    | DoWrite                              // the I/O thread runs the oldest posted handler
    | Transfer(k: nat, n: nat)             // the device takes n more bytes of the k-th write
    | WriteComplete(k: nat)                // completion handler of the k-th write, without error
    | DoRead(bytes: ByteVector)            // read handler with the bytes just received
    | LockedRead                           // the application's callback under the lock

  predicate Enabled(s: State, a: Action) {
    match a
    case Submit(_) => true
    case DoWrite => |s.posted| > 0
    case Transfer(k, n) =>
      k < |s.inFlight| && s.inFlight[k].done + n <= s.inFlight[k].length <= |s.writeBuffer|
    case WriteComplete(k) =>
      k < |s.inFlight| && s.inFlight[k].done == s.inFlight[k].length <= |s.writeBuffer|
    case DoRead(bytes) => |bytes| <= READ_BUFFER
    case LockedRead => s.dataFlag
  }

  /** write_start: one more asynchronous write over the whole buffer. */
  function WriteStart(s: State): State {
    s.(inFlight := s.inFlight + [Write(|s.writeBuffer|, 0)])
  }

  function AfterDoWrite(s: State): State
    requires |s.posted| > 0
  {
    var s' := s.(writeBuffer := s.writeBuffer + s.posted[0], posted := s.posted[1..]);
    if s.writeBuffer != [] then s' else WriteStart(s')
  }

  function AfterTransfer(s: State, k: nat, n: nat): State
    requires Enabled(s, Transfer(k, n))
  {
    var w := s.inFlight[k];
    s.(inFlight := s.inFlight[k := w.(done := w.done + n)],
       device := s.device + s.writeBuffer[w.done..w.done + n])
  }

  function AfterWriteComplete(s: State, k: nat): State
    requires Enabled(s, WriteComplete(k))
  {
    var s' := s.(inFlight := s.inFlight[..k] + s.inFlight[k + 1..],
                 writeBuffer := s.writeBuffer[s.inFlight[k].length..]);
    if s'.writeBuffer != [] then WriteStart(s') else s'
  }

  function AfterDoRead(s: State, bytes: ByteVector): State
    requires |bytes| <= READ_BUFFER
  {
    var s' := if RING_CAPACITY - |s.ring| < |bytes| then s.(ring := [], fates := s.fates + [Dropped(s.ring)]) else s;
    s'.(ring := s'.ring + bytes, dataFlag := true, arrived := s'.arrived + bytes)
  }

  /** The callback: it takes the whole ring, and clears the flag when there was nothing in it. */
  function AfterLockedRead(s: State): State {
    s.(ring := [], fates := s.fates + [Delivered(s.ring)], dataFlag := s.dataFlag && s.ring != [])
  }

  function Next(s: State, a: Action): State
    requires Enabled(s, a)
  {
    match a
    case Submit(bytes) => s.(posted := s.posted + [bytes], submitted := s.submitted + bytes)
    case DoWrite => AfterDoWrite(s)
    case Transfer(k, n) => AfterTransfer(s, k, n)
    case WriteComplete(k) => AfterWriteComplete(s, k)
    case DoRead(bytes) => AfterDoRead(s, bytes)
    case LockedRead => AfterLockedRead(s)
  }

  /** A run: each step is enabled where it happens. */
  ghost predicate IsRun(states: seq<State>, actions: seq<Action>) {
    && |states| == |actions| + 1
    && states[0] == INITIAL
    && forall i :: 0 <= i < |actions| ==> Enabled(states[i], actions[i]) && states[i + 1] == Next(states[i], actions[i])
  }

  function Concat(parts: seq<ByteVector>): ByteVector {
    if |parts| == 0 then [] else parts[0] + Concat(parts[1..])
  }

  lemma {:induction false} ConcatSnoc(parts: seq<ByteVector>, last: ByteVector)
    ensures Concat(parts + [last]) == Concat(parts) + last
  {
    if |parts| == 0 {
      assert parts + [last] == [last];
    } else {
      assert (parts + [last])[1..] == parts[1..] + [last];
      ConcatSnoc(parts[1..], last);
    }
  }

  // ----- writing -----

  /** Exactly one write is in flight when the buffer is nonempty, and none otherwise. */
  predicate OneInFlight(s: State) {
    if s.writeBuffer == [] then s.inFlight == []
    else |s.inFlight| == 1 && 0 < s.inFlight[0].length <= |s.writeBuffer| && s.inFlight[0].done <= s.inFlight[0].length
  }

  /** The part of the buffer the device has not taken yet. */
  function Unsent(s: State): ByteVector
    requires OneInFlight(s)
  {
    if s.writeBuffer == [] then [] else s.writeBuffer[s.inFlight[0].done..]
  }

  /** Device bytes, then the unsent buffer, then the posted buffers, are the bytes submitted, in order. */
  predicate Conserved(s: State) {
    OneInFlight(s) && s.device + Unsent(s) + Concat(s.posted) == s.submitted
  }

  predicate PostedNonempty(s: State) {
    forall i :: 0 <= i < |s.posted| ==> s.posted[i] != []
  }

  predicate Nonempty(a: Action) { a.Submit? ==> a.bytes != [] }

  /** The buffer a posted write is appended to, or the write itself, is nonempty. */
  predicate Appends(s: State, a: Action) {
    a.DoWrite? && |s.posted| > 0 ==> s.posted[0] != [] || s.writeBuffer != []
  }

  /** Running a posted write keeps one write in flight if and only if the buffer it appends to is
      nonempty or the write itself is. */
  lemma DoWriteKeepsOneInFlight(s: State)
    requires OneInFlight(s) && |s.posted| > 0
    ensures OneInFlight(AfterDoWrite(s)) <==> s.posted[0] != [] || s.writeBuffer != []
  {
  }

  lemma DoWriteConserves(s: State)
    requires Conserved(s) && |s.posted| > 0 && Appends(s, DoWrite)
    ensures Conserved(AfterDoWrite(s))
  {
    var s' := AfterDoWrite(s);
    assert Unsent(s') == Unsent(s) + s.posted[0];
    assert Concat(s.posted) == s.posted[0] + Concat(s'.posted);
    Reassociate(s.device, Unsent(s), s.posted[0], Concat(s'.posted));
  }

  lemma Reassociate(a: ByteVector, b: ByteVector, c: ByteVector, d: ByteVector)
    ensures a + (b + c) + d == a + b + (c + d)
  {
  }

  lemma TransferConserves(s: State, k: nat, n: nat)
    requires Conserved(s) && Enabled(s, Transfer(k, n))
    ensures Conserved(AfterTransfer(s, k, n))
  {
    var s' := AfterTransfer(s, k, n);
    var w := s.inFlight[0];
    assert k == 0;
    assert Unsent(s) == s.writeBuffer[w.done..w.done + n] + Unsent(s');
    assert s'.device + Unsent(s') == s.device + Unsent(s);
  }

  lemma WriteCompleteConserves(s: State, k: nat)
    requires Conserved(s) && Enabled(s, WriteComplete(k))
    ensures Conserved(AfterWriteComplete(s, k))
  {
    var s' := AfterWriteComplete(s, k);
    assert k == 0;
    assert Unsent(s') == Unsent(s);
  }

  lemma SubmitConserves(s: State, bytes: ByteVector)
    requires Conserved(s)
    ensures Conserved(Next(s, Submit(bytes)))
  {
    ConcatSnoc(s.posted, bytes);
    assert s.device + Unsent(s) + (Concat(s.posted) + bytes) == s.submitted + bytes;
  }

  /** One step keeps the bytes and the single write in flight if and only if it does not append nothing
      to nothing. */
  lemma StepConservesExactlyWhen(s: State, a: Action)
    requires Enabled(s, a) && Conserved(s)
    ensures Conserved(Next(s, a)) <==> Appends(s, a)
  {
    hide Conserved, OneInFlight;
    match a
    case Submit(bytes) => SubmitConserves(s, bytes);
    case DoWrite =>
      ConservedMeansOneInFlight(s);
      ConservedMeansOneInFlight(AfterDoWrite(s));
      DoWriteKeepsOneInFlight(s);
      if Appends(s, a) {
        DoWriteConserves(s);
      }
    case Transfer(k, n) => TransferConserves(s, k, n);
    case WriteComplete(k) => WriteCompleteConserves(s, k);
    case DoRead(bytes) => ReadingLeavesWrites(s, AfterDoRead(s, bytes));
    case LockedRead => ReadingLeavesWrites(s, AfterLockedRead(s));
  }

  /** A write that starts covers all the bytes in the buffer at that moment, and a write in flight goes on
      as it was started: so the device is offered every byte as soon as the write before it is complete. */
  lemma StartedWritesTakeAll(s: State, a: Action)
    requires Enabled(s, a) && Conserved(s) && Appends(s, a)
    ensures var s' := Next(s, a);
            if s'.writeBuffer == [] then s'.inFlight == []
            else if s.inFlight == [] || a.WriteComplete? then s'.inFlight == [Write(|s'.writeBuffer|, 0)]
            else |s'.inFlight| == 1 && s'.inFlight[0].length == s.inFlight[0].length
  {
    hide Conserved;
    ConservedMeansOneInFlight(s);
  }

  lemma ConservedMeansOneInFlight(s: State)
    ensures Conserved(s) ==> OneInFlight(s)
  {
  }

  lemma ReadingLeavesWrites(s: State, s': State)
    requires s'.writeBuffer == s.writeBuffer && s'.posted == s.posted && s'.inFlight == s.inFlight
    requires s'.submitted == s.submitted && s'.device == s.device
    ensures Conserved(s') == Conserved(s)
  {
  }

  /** In every interleaving: nothing written is lost, doubled or reordered, and there is never more than
      one write in flight, all along the run if and only if no step of it appends an empty write to an
      empty buffer. */
  lemma {:induction false} ConservedExactlyWhen(states: seq<State>, actions: seq<Action>, n: nat)
    requires IsRun(states, actions) && n <= |actions|
    ensures (forall i :: 0 <= i <= n ==> Conserved(states[i])) <==>
            (forall i :: 0 <= i < n ==> Appends(states[i], actions[i]))
  {
    hide Next, Enabled, Conserved, Appends;
    if n == 0 {
      InitialConserved();
    } else {
      ConservedExactlyWhen(states, actions, n - 1);
      assert states[n - 1 + 1] == Next(states[n - 1], actions[n - 1]);
      if Conserved(states[n - 1]) {
        StepConservesExactlyWhen(states[n - 1], actions[n - 1]);
        assert Conserved(states[n]) <==> Appends(states[n - 1], actions[n - 1]);
      }
    }
  }

  /** Nonempty writes are never appended as nothing: what is posted stays nonempty. */
  lemma {:induction false} NonemptyWritesAppend(states: seq<State>, actions: seq<Action>, n: nat)
    requires IsRun(states, actions) && n <= |actions|
    requires forall i :: 0 <= i < n ==> Nonempty(actions[i])
    ensures PostedNonempty(states[n])
    ensures forall i :: 0 <= i < n ==> Appends(states[i], actions[i])
  {
    hide Next, Enabled, PostedNonempty, Appends, Nonempty;
    if n == 0 {
      InitialConserved();
    } else {
      NonemptyWritesAppend(states, actions, n - 1);
      StepKeepsNonempty(states[n - 1], actions[n - 1]);
    }
  }

  lemma StepKeepsNonempty(s: State, a: Action)
    requires Enabled(s, a) && Nonempty(a) && PostedNonempty(s)
    ensures PostedNonempty(Next(s, a)) && Appends(s, a)
  {
  }

  /** So in every run whose writes so far are nonempty, as send guarantees, the bytes are conserved. */
  lemma WritesAreConserved(states: seq<State>, actions: seq<Action>, n: nat)
    requires IsRun(states, actions) && n <= |actions|
    requires forall i :: 0 <= i < n ==> Nonempty(actions[i])
    ensures Conserved(states[n]) && PostedNonempty(states[n])
  {
    hide IsRun, Conserved, PostedNonempty, Appends;
    NonemptyWritesAppend(states, actions, n);
    ConservedExactlyWhen(states, actions, n);
  }

  /** The writing side never gets stuck: while bytes submitted have not reached the device, a posted handler
      can run, the device can take one more byte, or a write can complete. */
  lemma WritingIsNeverStuck(s: State)
    requires Conserved(s) && s.device != s.submitted
    ensures Enabled(s, DoWrite) || Enabled(s, Transfer(0, 1)) || Enabled(s, WriteComplete(0))
  {
    if s.posted == [] {
      assert Concat(s.posted) == [];
      assert s.device + Unsent(s) + [] == s.device + Unsent(s);
    }
  }

  /** Completing a write does not wait for more bytes: as soon as the device has all of it, it can complete. */
  lemma CompleteWritesComplete(s: State)
    requires Conserved(s) && s.inFlight != [] && s.inFlight[0].done == s.inFlight[0].length
    ensures Enabled(s, WriteComplete(0))
  {
  }

  lemma InitialConserved()
    ensures Conserved(INITIAL) && PostedNonempty(INITIAL)
  {
  }

  /** When nothing is left to do, the device has exactly the submitted bytes, if no step appended
      nothing to nothing. */
  lemma QuiescentMeansWritten(states: seq<State>, actions: seq<Action>, n: nat)
    requires IsRun(states, actions) && n <= |actions|
    requires forall i :: 0 <= i < n ==> Appends(states[i], actions[i])
    requires states[n].posted == [] && states[n].inFlight == []
    ensures states[n].device == states[n].submitted
  {
    ConservedExactlyWhen(states, actions, n);
    assert Conserved(states[n]);
    assert states[n].writeBuffer == [];
  }

  /** An empty write, then a write of one byte, with the completion of the first seen early. */
  function DuplicatingAction(x: byte, i: nat): Action
    requires i < 7
  {
    if i == 0 then Submit([]) else if i == 1 then DoWrite else if i == 2 then Submit([x]) else if i == 3 then DoWrite
    else if i == 4 then WriteComplete(0) else if i == 5 then Transfer(0, 1) else Transfer(1, 1)
  }

  function DuplicatingState(x: byte, i: nat): State
    requires i < 8
  {
    if i == 0 then INITIAL
    else if i == 1 then INITIAL.(posted := [[]])
    else if i == 2 then INITIAL.(inFlight := [Write(0, 0)])
    else
      var s := INITIAL.(submitted := [x]);
      if i == 3 then s.(posted := [[x]], inFlight := [Write(0, 0)])
      else if i == 4 then s.(writeBuffer := [x], inFlight := [Write(0, 0), Write(1, 0)])
      else if i == 5 then s.(writeBuffer := [x], inFlight := [Write(1, 0), Write(1, 0)])
      else if i == 6 then s.(writeBuffer := [x], inFlight := [Write(1, 1), Write(1, 0)], device := [x])
      else s.(writeBuffer := [x], inFlight := [Write(1, 1), Write(1, 1)], device := [x, x])
  }

  lemma DuplicatingSubmits(x: byte, i: nat)
    requires i < 4
    ensures Enabled(DuplicatingState(x, i), DuplicatingAction(x, i))
    ensures DuplicatingState(x, i + 1) == Next(DuplicatingState(x, i), DuplicatingAction(x, i))
  {
    hide AfterTransfer, AfterWriteComplete, AfterDoRead, AfterLockedRead;
  }

  lemma DuplicatingCompletion(x: byte)
    ensures Enabled(DuplicatingState(x, 4), WriteComplete(0))
    ensures DuplicatingState(x, 5) == AfterWriteComplete(DuplicatingState(x, 4), 0)
  {
  }

  lemma DuplicatingTransfer(x: byte, k: nat)
    requires k < 2
    ensures Enabled(DuplicatingState(x, 5 + k), Transfer(k, 1))
    ensures DuplicatingState(x, 6 + k) == AfterTransfer(DuplicatingState(x, 5 + k), k, 1)
  {
  }

  /** The guard against empty writes matters: an empty write followed by a write of one byte puts two
      writes in flight, and the device receives the byte twice. */
  lemma EmptyWriteDuplicates(x: byte)
    ensures var states := seq(8, i requires 0 <= i < 8 => DuplicatingState(x, i));
            var actions := seq(7, i requires 0 <= i < 7 => DuplicatingAction(x, i));
            && IsRun(states, actions)
            && |states[5].inFlight| == 2
            && states[7].submitted == [x] && states[7].device == [x, x]
  {
    hide Enabled, AfterDoWrite, AfterTransfer, AfterWriteComplete, AfterDoRead, AfterLockedRead;
    forall i: nat | i < 4
      ensures Enabled(DuplicatingState(x, i), DuplicatingAction(x, i))
      ensures DuplicatingState(x, i + 1) == Next(DuplicatingState(x, i), DuplicatingAction(x, i))
    {
      DuplicatingSubmits(x, i);
    }
    DuplicatingCompletion(x);
    DuplicatingTransfer(x, 0);
    DuplicatingTransfer(x, 1);
  }

  // ----- reading -----

  /** The bytes of the fates, in order. */
  function FateBytes(fates: seq<Entry>): ByteVector {
    if |fates| == 0 then [] else FateBytes(fates[..|fates| - 1]) + fates[|fates| - 1].bytes
  }

  /** The bytes delivered to the application, in order. */
  function DeliveredBytes(fates: seq<Entry>): ByteVector {
    if |fates| == 0 then []
    else DeliveredBytes(fates[..|fates| - 1]) + (match fates[|fates| - 1] case Delivered(b) => b case Dropped(_) => [])
  }

  /** A cleared flag means an empty ring; the ring keeps its capacity; what left the ring and what is
      in it are what arrived, in order; only more than half a ring is ever dropped. */
  predicate ReadInvariant(s: State) {
    && (!s.dataFlag ==> s.ring == [])
    && |s.ring| <= RING_CAPACITY
    && FateBytes(s.fates) + s.ring == s.arrived
    && forall i :: 0 <= i < |s.fates| && s.fates[i].Dropped? ==> |s.fates[i].bytes| > RING_CAPACITY - READ_BUFFER
  }

  lemma FateSnoc(fates: seq<Entry>, e: Entry)
    ensures FateBytes(fates + [e]) == FateBytes(fates) + e.bytes
    ensures DeliveredBytes(fates + [e]) == DeliveredBytes(fates) + if e.Delivered? then e.bytes else []
  {
    assert (fates + [e])[..|fates|] == fates;
  }

  lemma DoReadKeepsReads(s: State, bytes: ByteVector)
    requires |bytes| <= READ_BUFFER && ReadInvariant(s)
    ensures ReadInvariant(AfterDoRead(s, bytes))
  {
    hide FateBytes;
    FateSnoc(s.fates, Dropped(s.ring));
    assert FateBytes(s.fates) + (s.ring + bytes) == s.arrived + bytes;
    assert FateBytes(s.fates) + s.ring + bytes == s.arrived + bytes;
  }

  lemma LockedReadKeepsReads(s: State)
    requires ReadInvariant(s)
    ensures ReadInvariant(AfterLockedRead(s))
  {
    hide FateBytes;
    FateSnoc(s.fates, Delivered(s.ring));
  }

  lemma WritingLeavesReads(s: State, s': State)
    requires s'.ring == s.ring && s'.dataFlag == s.dataFlag && s'.arrived == s.arrived && s'.fates == s.fates
    ensures ReadInvariant(s') == ReadInvariant(s)
  {
  }

  lemma StepKeepsReads(s: State, a: Action)
    requires Enabled(s, a) && ReadInvariant(s)
    ensures ReadInvariant(Next(s, a))
  {
    hide ReadInvariant, AfterDoRead, AfterLockedRead;
    match a
    case DoRead(bytes) => DoReadKeepsReads(s, bytes);
    case LockedRead => LockedReadKeepsReads(s);
    case _ => WritingLeavesReads(s, Next(s, a));
  }

  /** In every interleaving at all: no wake-up is lost and nothing is reordered or doubled. */
  lemma {:induction false} ReadsAreOrdered(states: seq<State>, actions: seq<Action>, n: nat)
    requires IsRun(states, actions) && n <= |actions|
    ensures ReadInvariant(states[n])
  {
    hide Next, Enabled, ReadInvariant;
    if n == 0 {
      InitialReads();
    } else {
      ReadsAreOrdered(states, actions, n - 1);
      StepKeepsReads(states[n - 1], actions[n - 1]);
    }
  }

  lemma InitialReads()
    ensures ReadInvariant(INITIAL)
  {
  }

  /** The read handler, in every run: it drops something if and only if what waits and what has come are more
      than 256 bytes together, and then it drops all that waits and keeps all that has come. */
  lemma DropsExactlyWhen(states: seq<State>, actions: seq<Action>, n: nat)
    requires IsRun(states, actions) && n < |actions| && actions[n].DoRead?
    ensures var s, s', bytes := states[n], states[n + 1], actions[n].bytes;
            && |bytes| <= 128 && |s.ring| <= 256 && |s'.ring| <= 256 && s'.dataFlag
            && (if |s.ring| + |bytes| > 256
                then s'.fates == s.fates + [Dropped(s.ring)] && s'.ring == bytes
                else s'.fates == s.fates && s'.ring == s.ring + bytes)
  {
    ReadsAreOrdered(states, actions, n);
    ReadsAreOrdered(states, actions, n + 1);
    assert Enabled(states[n], actions[n]) && states[n + 1] == Next(states[n], actions[n]);
  }

  lemma ReadableLengths(bytes: ByteVector)
    ensures Enabled(INITIAL, DoRead(bytes)) <==> |bytes| <= 128
  {
  }

  function AfterReads(parts: seq<ByteVector>, n: nat): State
    requires n <= |parts| && forall i :: 0 <= i < |parts| ==> |parts[i]| <= READ_BUFFER
  {
    if n == 0 then INITIAL else AfterDoRead(AfterReads(parts, n - 1), parts[n - 1])
  }

  lemma {:induction false} ReadsMakeARun(parts: seq<ByteVector>, n: nat)
    requires n <= |parts| && forall i :: 0 <= i < |parts| ==> |parts[i]| <= READ_BUFFER
    ensures IsRun(seq(n + 1, i requires 0 <= i <= n => AfterReads(parts, i)), seq(n, i requires 0 <= i < n => DoRead(parts[i])))
  {
    hide AfterDoRead;
  }

  /** The ring holds 256 bytes and no more: two full reads are kept, and a byte more drops them both. */
  lemma RingFills(a: ByteVector, b: ByteVector, x: byte)
    requires |a| == 128 && |b| == 128
    ensures exists states: seq<State>, actions: seq<Action> ::
              && IsRun(states, actions) && |actions| == 3
              && states[2].ring == a + b && |states[2].ring| == 256 && states[2].fates == []
              && states[3].ring == [x] && states[3].fates == [Dropped(a + b)]
  {
    var parts := [a, b, [x]];
    ReadsMakeARun(parts, 3);
    var states := seq(4, i requires 0 <= i <= 3 => AfterReads(parts, i));
    assert AfterReads(parts, 1).ring == a && AfterReads(parts, 1).fates == [];
    assert AfterReads(parts, 2).ring == a + b && AfterReads(parts, 2).fates == [];
    assert AfterReads(parts, 3).ring == [x];
    assert states[3] == AfterReads(parts, 3) && states[2] == AfterReads(parts, 2);
  }

  /** No wake-up without a cause: the flag is down at first, and up only in runs in which a read handler has run. */
  lemma {:induction false} FlagMeansArrival(states: seq<State>, actions: seq<Action>, n: nat)
    requires IsRun(states, actions) && n <= |actions|
    ensures states[n].dataFlag ==> exists i :: 0 <= i < n && actions[i].DoRead?
  {
    if n > 0 {
      FlagMeansArrival(states, actions, n - 1);
      assert Enabled(states[n - 1], actions[n - 1]) && states[n] == Next(states[n - 1], actions[n - 1]);
    }
  }

  /** In every run the callback takes the ring whole, and leaves the flag up exactly when it took something:
      so the waiter looks once more, and sleeps after an empty look. */
  lemma CallbackKeepsFlagExactlyWhen(states: seq<State>, actions: seq<Action>, n: nat)
    requires IsRun(states, actions) && n < |actions| && actions[n].LockedRead?
    ensures states[n].dataFlag && (states[n + 1].dataFlag <==> states[n].ring != [])
    ensures states[n + 1].ring == [] && states[n + 1].fates == states[n].fates + [Delivered(states[n].ring)]
  {
    assert Enabled(states[n], actions[n]) && states[n + 1] == Next(states[n], actions[n]);
  }

  /** Bytes waiting in the ring can always be fetched: the flag is up, and the callback delivers all of them. */
  lemma WaitingBytesAreDelivered(states: seq<State>, actions: seq<Action>, n: nat)
    requires IsRun(states, actions) && n <= |actions| && states[n].ring != []
    ensures Enabled(states[n], LockedRead)
    ensures DeliveredBytes(AfterLockedRead(states[n]).fates) == DeliveredBytes(states[n].fates) + states[n].ring
  {
    ReadsAreOrdered(states, actions, n);
    FateSnoc(states[n].fates, Delivered(states[n].ring));
  }

  /** No needless wake-up either: a callback that follows another one with no read handler between them
      finds nothing, and then the waiter sleeps. */
  lemma SecondCallbackSleeps(s: State, between: seq<Action>, states: seq<State>)
    requires Enabled(s, LockedRead) && |states| == |between| + 1 && states[0] == AfterLockedRead(s)
    requires forall i :: 0 <= i < |between| ==>
               !between[i].DoRead? && Enabled(states[i], between[i]) && states[i + 1] == Next(states[i], between[i])
    ensures var last := states[|between|];
            last.ring == [] && !AfterLockedRead(last).dataFlag
            && DeliveredBytes(AfterLockedRead(last).fates) == DeliveredBytes(last.fates)
  {
    var last := states[|between|];
    RingStaysEmpty(between, states, |between|);
    FateSnoc(last.fates, Delivered([]));
  }

  lemma {:induction false} RingStaysEmpty(between: seq<Action>, states: seq<State>, n: nat)
    requires |states| == |between| + 1 && states[0].ring == [] && n <= |between|
    requires forall i :: 0 <= i < |between| ==>
               !between[i].DoRead? && Enabled(states[i], between[i]) && states[i + 1] == Next(states[i], between[i])
    ensures states[n].ring == []
  {
    hide Next, Enabled;
    if n > 0 {
      RingStaysEmpty(between, states, n - 1);
      OnlyReadsFillTheRing(states[n - 1], between[n - 1]);
    }
  }

  lemma OnlyReadsFillTheRing(s: State, a: Action)
    requires Enabled(s, a) && !a.DoRead? && s.ring == []
    ensures Next(s, a).ring == []
  {
  }

  /** The read handler finds room for its bytes. */
  predicate FindsRoom(s: State, a: Action) {
    a.DoRead? ==> |s.ring| + |a.bytes| <= RING_CAPACITY
  }

  /** How many arrived bytes are neither delivered nor waiting. */
  function Lost(s: State): int { |s.arrived| - |DeliveredBytes(s.fates)| - |s.ring| }

  lemma LossStep(s: State, a: Action)
    requires Enabled(s, a)
    ensures var s' := Next(s, a);
            && (FindsRoom(s, a) ==> Lost(s') == Lost(s))
            && (!FindsRoom(s, a) ==> Lost(s') > Lost(s))
            && (FindsRoom(s, a) && DeliveredBytes(s.fates) + s.ring == s.arrived ==>
                DeliveredBytes(s'.fates) + s'.ring == s'.arrived)
  {
    match a
    case Submit(_) =>
    case DoWrite =>
    case Transfer(_, _) =>
    case WriteComplete(_) =>
    case DoRead(bytes) =>
      FateSnoc(s.fates, Dropped(s.ring));
      assert DeliveredBytes(s.fates) + (s.ring + bytes) == DeliveredBytes(s.fates) + s.ring + bytes;
    case LockedRead =>
      FateSnoc(s.fates, Delivered(s.ring));
  }

  /** The only loss is an overflow: what was delivered and what is waiting are all that arrived if and
      only if every read handler found room. */
  lemma {:induction false} LossOnlyAtOverflow(states: seq<State>, actions: seq<Action>, n: nat)
    requires IsRun(states, actions) && n <= |actions|
    ensures Lost(states[n]) >= 0
    ensures (forall i :: 0 <= i < n ==> FindsRoom(states[i], actions[i])) <==>
            DeliveredBytes(states[n].fates) + states[n].ring == states[n].arrived
    ensures (forall i :: 0 <= i < n ==> FindsRoom(states[i], actions[i])) <==> Lost(states[n]) == 0
  {
    hide Next, Enabled, FindsRoom, DeliveredBytes;
    if n == 0 {
      NothingDelivered();
    } else {
      LossOnlyAtOverflow(states, actions, n - 1);
      LossStep(states[n - 1], actions[n - 1]);
      assert states[n] == Next(states[n - 1], actions[n - 1]);
    }
  }

  lemma NothingDelivered()
    ensures DeliveredBytes([]) == []
  {
  }
}
