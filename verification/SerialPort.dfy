/** The serial port object and the receive loop of its transport: the handlers update the fields, and
    each one is the step of SerialSteps that its name says. */
module SerialPort {
  import opened Bytes
  import opened SerialSteps

  class Port {
    var writeBuffer: ByteVector
    var posted: seq<ByteVector>
    var inFlight: seq<Write>
    var ring: ByteVector
    var dataFlag: bool
    ghost var submitted: ByteVector
    ghost var device: ByteVector
    ghost var arrived: ByteVector
    ghost var fates: seq<Entry>

    /** The port and its history as a state of the machine. */
    ghost function Abs(): State
      reads this
    {
      State(writeBuffer, posted, inFlight, ring, dataFlag, submitted, device, arrived, fates)
    }

    constructor ()
      ensures Abs() == INITIAL
    {
      writeBuffer, posted, inFlight, ring, dataFlag := [], [], [], [], false;
      submitted, device, arrived, fates := [], [], [], [];
    }

    /** write: posts the handler and returns the size at once. */
    method Write(buf: ByteVector) returns (size: nat)
      modifies this
      ensures size == |buf| && Abs() == Next(old(Abs()), Submit(buf))
    {
      posted := posted + [buf];
      submitted := submitted + buf;
      return |buf|;
    }

    method WriteStart()
      modifies this`inFlight
      ensures Abs() == SerialSteps.WriteStart(old(Abs()))
    {
      inFlight := inFlight + [SerialSteps.Write(|writeBuffer|, 0)];
    }

    /** do_write, run by the I/O thread for the oldest posted buffer. */
    method RunDoWrite()
      requires Enabled(Abs(), DoWrite)
      modifies this
      ensures Abs() == Next(old(Abs()), DoWrite)
    {
      var buf := posted[0];
      posted := posted[1..];
      var running := |writeBuffer| > 0;
      writeBuffer := writeBuffer + buf;
      if !running {
        WriteStart();
      }
    }

    /** write_complete without an error. */
    method RunWriteComplete(k: nat)
      requires Enabled(Abs(), WriteComplete(k))
      modifies this
      ensures Abs() == Next(old(Abs()), WriteComplete(k))
    {
      var transferred := inFlight[k].length;
      inFlight := inFlight[..k] + inFlight[k + 1..];
      writeBuffer := writeBuffer[transferred..];
      if |writeBuffer| > 0 {
        WriteStart();
      }
    }

    /** do_read with the bytes just received; the ring is emptied when they do not fit. */
    method RunDoRead(bytes: ByteVector)
      requires Enabled(Abs(), DoRead(bytes))
      modifies this
      ensures Abs() == Next(old(Abs()), DoRead(bytes))
    {
      if RING_CAPACITY - |ring| < |bytes| {
        fates := fates + [Dropped(ring)];
        ring := [];
      }
      ring := ring + bytes;
      dataFlag := true;
      arrived := arrived + bytes;
    }

    /** read: takes the whole ring. */
    method Read() returns (buf: ByteVector)
      modifies this`ring, this`fates
      ensures buf == old(ring) && ring == [] && fates == old(fates) + [Delivered(buf)]
    {
      buf := ring;
      fates := fates + [Delivered(ring)];
      ring := [];
    }

    method DataConsumed()
      modifies this`dataFlag
      ensures !dataFlag
    {
      dataFlag := false;
    }

    /** waitMoreData with the callback of receive: nothing happens unless the flag is up; res is
        overwritten by what the ring held. */
    method WaitAndRead(res: ByteVector) returns (res': ByteVector)
      modifies this
      ensures old(dataFlag) ==> Abs() == Next(old(Abs()), LockedRead) && res' == old(ring)
      ensures !old(dataFlag) ==> Abs() == old(Abs()) && res' == res
    {
      res' := res;
      if dataFlag {
        res' := Read();
        if |res'| == 0 {
          DataConsumed();
        }
      }
    }
  }

  /** send: the guard against empty writes. */
  method Send(port: Port, data: ByteVector)
    modifies port
    ensures data != [] ==> port.Abs() == Next(old(port.Abs()), Submit(data))
    ensures data == [] ==> port.Abs() == old(port.Abs())
    ensures PostedNonempty(old(port.Abs())) ==> PostedNonempty(port.Abs())
  {
    if |data| > 0 {
      var size := port.Write(data);
    }
  }

  /** What the I/O thread does before one wait of the receive loop, and whether the clock has run out after it. */
  datatype Tick = Tick(arrivals: seq<ByteVector>, expired: bool)

  predicate Plausible(t: Tick) {
    forall i :: 0 <= i < |t.arrivals| ==> |t.arrivals[i]| <= READ_BUFFER
  }

  /** What arrives before the first n waits. */
  function ArrivedBy(timeline: seq<Tick>, n: nat): ByteVector
    requires n <= |timeline|
  {
    if n == 0 then [] else ArrivedBy(timeline, n - 1) + Concat(timeline[n - 1].arrivals)
  }

  lemma PrefixConcat(parts: seq<ByteVector>, i: nat)
    requires i < |parts|
    ensures Concat(parts[..i + 1]) == Concat(parts[..i]) + parts[i]
  {
    ConcatSnoc(parts[..i], parts[i]);
    assert parts[..i + 1] == parts[..i] + [parts[i]];
  }

  lemma NoParts(parts: seq<ByteVector>)
    ensures Concat(parts[..0]) == [] && parts[..|parts|] == parts
  {
  }

  lemma ArrivalStep(s: State, bytes: ByteVector)
    requires ReadInvariant(s) && |bytes| <= READ_BUFFER
    ensures var s' := Next(s, DoRead(bytes));
            && ReadInvariant(s') && DeliveredBytes(s'.fates) == DeliveredBytes(s.fates)
            && s'.arrived == s.arrived + bytes && s'.dataFlag
            && (s'.ring == [] ==> s.ring == [] && bytes == [])
  {
    StepKeepsReads(s, DoRead(bytes));
    FateSnoc(s.fates, Dropped(s.ring));
  }

  /** The read handlers run before one wait. */
  method RunArrivals(port: Port, t: Tick)
    requires Plausible(t) && ReadInvariant(port.Abs())
    modifies port
    ensures ReadInvariant(port.Abs())
    ensures DeliveredBytes(port.fates) == DeliveredBytes(old(port.fates))
    ensures t.arrivals == [] ==> port.Abs() == old(port.Abs())
    ensures port.arrived == old(port.arrived) + Concat(t.arrivals)
    ensures port.ring == [] ==> old(port.ring) == [] && Concat(t.arrivals) == []
    ensures port.dataFlag == (old(port.dataFlag) || t.arrivals != [])
  {
    hide ReadInvariant, DeliveredBytes, Concat, AfterDoRead;
    NoParts(t.arrivals);
    for i := 0 to |t.arrivals|
      invariant ReadInvariant(port.Abs())
      invariant DeliveredBytes(port.fates) == DeliveredBytes(old(port.fates))
      invariant i == 0 ==> port.Abs() == old(port.Abs())
      invariant port.arrived == old(port.arrived) + Concat(t.arrivals[..i])
      invariant port.ring == [] ==> old(port.ring) == [] && Concat(t.arrivals[..i]) == []
      invariant port.dataFlag == (old(port.dataFlag) || i > 0)
    {
      ArrivalStep(port.Abs(), t.arrivals[i]);
      PrefixConcat(t.arrivals, i);
      port.RunDoRead(t.arrivals[i]);
    }
  }

  lemma QuietMeansEmpty(s: State)
    requires ReadInvariant(s)
    ensures !s.dataFlag ==> s.ring == []
  {
  }

  lemma NothingMore(fates: seq<Entry>)
    ensures DeliveredBytes(fates) + [] == DeliveredBytes(fates)
  {
  }

  /** One round of receive: the handlers run, then the wait with its callback. */
  method WaitOnce(port: Port, t: Tick) returns (res: ByteVector)
    requires Plausible(t) && ReadInvariant(port.Abs())
    modifies port
    ensures ReadInvariant(port.Abs())
    ensures DeliveredBytes(port.fates) == DeliveredBytes(old(port.fates)) + res
    ensures port.arrived == old(port.arrived) + Concat(t.arrivals)
    ensures res == [] ==> port.ring == [] && !port.dataFlag && old(port.ring) == [] && Concat(t.arrivals) == []
  {
    hide ReadInvariant, DeliveredBytes, FateBytes, Concat;
    RunArrivals(port, t);
    ghost var before := port.Abs();
    FateSnoc(before.fates, Delivered(before.ring));
    NothingMore(before.fates);
    QuietMeansEmpty(before);
    if before.dataFlag {
      StepKeepsReads(before, LockedRead);
    }
    res := port.WaitAndRead([]);
  }

  /** The k-th wait is the last one: nothing was waiting or arrived for the waits before it, the time was not over
      then, and without a result it is over now. */
  ghost predicate LastWait(timeline: seq<Tick>, k: nat, before: State, after: State, res: ByteVector) {
    && k < |timeline| && after.arrived == before.arrived + ArrivedBy(timeline, k + 1)
    && (forall j :: 0 <= j < k ==> !timeline[j].expired) && (res == [] ==> timeline[k].expired)
    && (k > 0 ==> before.ring == [] && ArrivedBy(timeline, k) == [])
  }

  lemma ArrivedAfter(timeline: seq<Tick>, i: nat, front: ByteVector)
    requires i < |timeline|
    ensures front + ArrivedBy(timeline, i + 1) == front + ArrivedBy(timeline, i) + Concat(timeline[i].arrivals)
    ensures ArrivedBy(timeline, i) == [] && Concat(timeline[i].arrivals) == [] ==> ArrivedBy(timeline, i + 1) == []
    ensures ArrivedBy(timeline, 0) == []
  {
    hide Concat;
  }

  /** receive: waits and reads until there is something or the time is over.  Whatever the timing, the
      result is exactly what was delivered meanwhile: nothing the loop read is overwritten and lost.
      The loop waits until there is a byte or the time is over and not longer; an empty result means that
      the time is over and the last wait found no byte. */
  method Receive(port: Port, timeline: seq<Tick>) returns (res: ByteVector)
    requires |timeline| > 0 && timeline[|timeline| - 1].expired
    requires forall i :: 0 <= i < |timeline| ==> Plausible(timeline[i])
    requires ReadInvariant(port.Abs())
    modifies port
    ensures ReadInvariant(port.Abs())
    ensures DeliveredBytes(port.fates) == DeliveredBytes(old(port.fates)) + res
    ensures res == [] ==> port.ring == [] && !port.dataFlag
    ensures exists k: nat :: LastWait(timeline, k, old(port.Abs()), port.Abs(), res)
  {
    hide ReadInvariant, DeliveredBytes, FateBytes, Concat, ArrivedBy;
    res := [];
    var i := 0;
    ArrivedAfter(timeline, 0, []);
    while true
      invariant 0 <= i < |timeline| && res == []
      invariant ReadInvariant(port.Abs())
      invariant DeliveredBytes(port.fates) == DeliveredBytes(old(port.fates))
      invariant port.arrived == old(port.arrived) + ArrivedBy(timeline, i) && ArrivedBy(timeline, i) == []
      invariant forall j :: 0 <= j < i ==> !timeline[j].expired
      invariant port.ring == old(port.ring) && (i > 0 ==> port.ring == [])
      decreases |timeline| - i
    {
      ArrivedAfter(timeline, i, old(port.arrived));
      res := WaitOnce(port, timeline[i]);
      if timeline[i].expired || |res| > 0 {
        assert LastWait(timeline, i, old(port.Abs()), port.Abs(), res);
        return;
      }
      NothingMore(old(port.fates));
      i := i + 1;
    }
  }
}
