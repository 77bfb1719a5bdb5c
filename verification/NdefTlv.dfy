/** An NDEF message in the TLV area of a tag: the pair of conversions, and what may stand before it. */
module NdefTlv {
  import opened Bytes
  import opened Ndef

  const NULL: byte := 0x00
  const LOCK: byte := 0x01
  const MEMORY: byte := 0x02
  const NDEF_MESSAGE: byte := 0x03
  const PROPRIETARY: byte := 0xFD
  const TERMINATOR: byte := 0xFE

  function ToTlv(rs: seq<Record>): ByteVector {
    [NDEF_MESSAGE, |Encode(rs)| % 256] + Encode(rs) + [TERMINATOR]
  }

  predicate Control(tag: byte) { tag == LOCK || tag == MEMORY || tag == PROPRIETARY }

  /** TLVToNdefMessage from an index on; a null message is None.  Any other tag, the null tag too, is
      skipped together with the byte after it. */
  function FindFrom(tlv: ByteVector, i: nat): Result<Option<seq<Record>>, Trouble>
    decreases |tlv| - i
  {
    if i + 1 >= |tlv| then Ok(None)
    else if tlv[i] == NDEF_MESSAGE then
      if |tlv| < i + 2 + tlv[i + 1] then Ok(None)
      else match Parse(tlv[i + 2..i + 2 + tlv[i + 1]])
        case Err(e) => Err(e)
        case Ok(rs) => Ok(Some(rs))
    else if tlv[i] == TERMINATOR then Ok(None)
    else if Control(tlv[i]) then FindFrom(tlv, i + 2 + tlv[i + 1])
    else FindFrom(tlv, i + 2)
  }

  function Find(tlv: ByteVector): Result<Option<seq<Record>>, Trouble> { FindFrom(tlv, 0) }

  // ----- round trips -----

  predicate ComesBack(rs: seq<Record>) {
    AllReadable(rs) && (|rs| > 0 ==> EncodedSize(rs[|rs| - 1]) >= 4)
  }

  /** A message cut short never parses to the whole message. */
  lemma CutMessageIsDifferent(rs: seq<Record>, n: nat)
    requires n < |Encode(rs)|
    ensures Parse(Encode(rs)[..n]) != Ok(rs)
  {
    if Parse(Encode(rs)[..n]) == Ok(rs) {
      ReadingTakesRoom(Encode(rs)[..n], 0);
      SizeOfMessage(rs, true);
    }
  }

  lemma FindsPair(rs: seq<Record>, after: ByteVector)
    ensures var n := |Encode(rs)| % 256;
            Find(ToTlv(rs) + after) ==
              match Parse(Encode(rs)[..n]) case Err(e) => Err(e) case Ok(us) => Ok(Some(us))
  {
    hide Parse, Encode;
    var n := |Encode(rs)| % 256;
    var tlv := ToTlv(rs) + after;
    assert tlv[0] == NDEF_MESSAGE && tlv[1] == n;
    assert tlv[2..2 + n] == Encode(rs)[..n];
  }

  /** Reading back the pair of a message gives the message if and only if its encoding fits one length
      byte and comes back by itself; what follows the pair does not matter. */
  lemma PairRoundTripExactlyWhen(rs: seq<Record>, after: ByteVector)
    ensures Find(ToTlv(rs) + after) == Ok(Some(rs)) <==> |Encode(rs)| <= 0xFF && ComesBack(rs)
  {
    hide Parse, Encode, AllReadable, EncodedSize;
    var n := |Encode(rs)| % 256;
    FindsPair(rs, after);
    RoundTripExactlyWhen(rs);
    if |Encode(rs)| > 0xFF {
      CutMessageIsDifferent(rs, n);
    } else {
      assert Encode(rs)[..n] == Encode(rs);
    }
  }

  // ----- the search, tag by tag -----

  /** The pair of a message: tag 0x03, the length modulo 256, the encoding, and tag 0xFE. */
  lemma PairBytes(rs: seq<Record>)
    ensures ToTlv(rs) == [0x03, |Encode(rs)| % 256] + Encode(rs) + [0xFE]
  {
    hide Encode;
  }

  /** A message block ends the search with what its bytes parse to, or with nothing when they are not all there. */
  lemma MessageIsTaken(n: byte, m: ByteVector, rest: ByteVector)
    ensures |m| == n ==>
              Find([0x03, n] + m + rest) == match Parse(m) case Err(e) => Err(e) case Ok(rs) => Ok(Some(rs))
    ensures |m| < n ==> Find([0x03, n] + m) == Ok(None)
  {
    hide Parse;
    var tlv := [0x03, n] + m + rest;
    assert |m| == n ==> tlv[2..2 + tlv[1]] == m;
  }

  /** Tags 0x01, 0x02 and 0xFD are skipped with their values, 0xFE ends the search, and any other tag but 0x03 is
      skipped with one more byte. */
  lemma OtherTagsAreSkipped(tag: byte, next: byte, v: ByteVector, rest: ByteVector)
    ensures tag == 0x01 || tag == 0x02 || tag == 0xFD ==>
              (|v| == next ==> Find([tag, next] + v + rest) == Find(rest)) && (|v| < next ==> Find([tag, next] + v) == Ok(None))
    ensures Find([0xFE] + rest) == Ok(None) && Find([]) == Ok(None) && Find([tag]) == Ok(None)
    ensures tag != 0x01 && tag != 0x02 && tag != 0x03 && tag != 0xFD && tag != 0xFE ==>
              Find([tag, next] + rest) == Find(rest)
  {
    hide Find, Spelled;
    EndsAtOnce(tag, next, v, rest);
    if tag == 0x01 || tag == 0x02 || tag == 0xFD {
      if |v| == next {
        StepsOver(Block(tag, v), rest);
        assert [tag, next] + v + rest == Spelled(Block(tag, v)) + rest by { BlockSpelled(tag, v); }
      }
    } else if tag != 0x03 && tag != 0xFE {
      StepsOver(TwoBytes(tag, next), rest);
      TwoSpelled(tag, next);
    }
  }

  lemma EndsAtOnce(tag: byte, next: byte, v: ByteVector, rest: ByteVector)
    ensures (tag == 0x01 || tag == 0x02 || tag == 0xFD) && |v| < next ==> Find([tag, next] + v) == Ok(None)
    ensures Find([0xFE] + rest) == Ok(None) && Find([]) == Ok(None) && Find([tag]) == Ok(None)
  {
    hide Parse;
    var tlv := [tag, next] + v;
    assert tlv[0] == tag && tlv[1] == next;
    if (tag == 0x01 || tag == 0x02 || tag == 0xFD) && |v| < next {
      assert FindFrom(tlv, 0) == FindFrom(tlv, 2 + next) == Ok(None);
    }
  }

  lemma BlockSpelled(tag: byte, v: ByteVector)
    ensures Skippable(Block(tag, v)) ==> Spelled(Block(tag, v)) == [tag, |v|] + v
  {
  }

  lemma TwoSpelled(tag: byte, next: byte)
    ensures Skippable(TwoBytes(tag, next)) ==> Spelled(TwoBytes(tag, next)) == [tag, next]
  {
  }

  // ----- what may stand before the message -----

  /** Something the search steps over: a control block with its value, or two bytes. */
  datatype Skipped = Block(tag: byte, value: ByteVector) | TwoBytes(tag: byte, next: byte)

  predicate Skippable(s: Skipped) {
    match s
    case Block(tag, value) => Control(tag) && |value| <= 0xFF
    case TwoBytes(tag, _) => !Control(tag) && tag != NDEF_MESSAGE && tag != TERMINATOR
  }

  function Spelled(s: Skipped): ByteVector
    requires Skippable(s)
  {
    match s
    case Block(tag, value) => [tag, |value|] + value
    case TwoBytes(tag, next) => [tag, next]
  }

  function AllSpelled(items: seq<Skipped>): ByteVector
    requires forall s <- items :: Skippable(s)
  {
    if |items| == 0 then [] else Spelled(items[0]) + AllSpelled(items[1..])
  }

  /** The search depends only on what lies ahead. */
  lemma {:induction false} SearchAhead(before: ByteVector, tlv: ByteVector, i: nat)
    ensures FindFrom(before + tlv, |before| + i) == FindFrom(tlv, i)
    decreases |tlv| - i
  {
    hide Parse, Control;
    var whole, n := before + tlv, |before|;
    if i + 1 < |tlv| {
      assert whole[n + i] == tlv[i] && whole[n + i + 1] == tlv[i + 1];
      if tlv[i] == NDEF_MESSAGE {
        if |tlv| >= i + 2 + tlv[i + 1] {
          assert whole[n + i + 2..n + i + 2 + tlv[i + 1]] == tlv[i + 2..i + 2 + tlv[i + 1]];
        }
      } else if Control(tlv[i]) {
        SearchAhead(before, tlv, i + 2 + tlv[i + 1]);
      } else if tlv[i] != TERMINATOR {
        SearchAhead(before, tlv, i + 2);
      }
    }
  }

  lemma StepsOver(s: Skipped, rest: ByteVector)
    requires Skippable(s)
    ensures Find(Spelled(s) + rest) == Find(rest)
  {
    var tlv := Spelled(s) + rest;
    assert tlv[0] == s.tag && tlv[1] == Spelled(s)[1];
    assert FindFrom(tlv, 0) == FindFrom(tlv, |Spelled(s)|);
    SearchAhead(Spelled(s), rest, 0);
  }

  lemma {:induction false} StepsOverAll(items: seq<Skipped>, rest: ByteVector)
    requires forall s <- items :: Skippable(s)
    ensures Find(AllSpelled(items) + rest) == Find(rest)
  {
    hide Find, Spelled;
    if |items| == 0 {
      assert AllSpelled(items) + rest == rest;
    } else {
      StepsOver(items[0], AllSpelled(items[1..]) + rest);
      StepsOverAll(items[1..], rest);
      assert AllSpelled(items) + rest == Spelled(items[0]) + (AllSpelled(items[1..]) + rest);
    }
  }

  /** Nothing is looked for behind a terminator. */
  lemma TerminatorEnds(items: seq<Skipped>, rest: ByteVector)
    requires forall s <- items :: Skippable(s)
    ensures Find(AllSpelled(items) + ([TERMINATOR] + rest)) == Ok(None)
  {
    StepsOverAll(items, [TERMINATOR] + rest);
  }

  /** A message that fits and comes back is found behind any lock, memory control and proprietary blocks. */
  lemma FoundBehindBlocks(items: seq<Skipped>, rs: seq<Record>, after: ByteVector)
    requires forall s <- items :: Skippable(s)
    requires |Encode(rs)| <= 0xFF && ComesBack(rs)
    ensures Find(AllSpelled(items) + ToTlv(rs) + after) == Ok(Some(rs))
  {
    hide Find, AllSpelled, ToTlv, ComesBack;
    StepsOverAll(items, ToTlv(rs) + after);
    assert AllSpelled(items) + ToTlv(rs) + after == AllSpelled(items) + (ToTlv(rs) + after);
    PairRoundTripExactlyWhen(rs, after);
  }

  /** Null bytes are stepped over in pairs: an odd number of them hides the byte that follows. */
  lemma {:induction false} NullsGoInPairs(k: nat, rest: ByteVector)
    requires |rest| > 0
    ensures Find(Zeros(k) + rest) == if k % 2 == 0 then Find(rest) else Find(rest[1..])
  {
    if k == 0 {
      assert Zeros(0) + rest == rest;
    } else if k == 1 {
      assert Zeros(1) + rest == Spelled(TwoBytes(NULL, rest[0])) + rest[1..];
      StepsOver(TwoBytes(NULL, rest[0]), rest[1..]);
    } else {
      assert Zeros(k) + rest == Spelled(TwoBytes(NULL, NULL)) + (Zeros(k - 2) + rest);
      StepsOver(TwoBytes(NULL, NULL), Zeros(k - 2) + rest);
      NullsGoInPairs(k - 2, rest);
    }
  }

  /** A message that is found lies behind the index, in at most 255 bytes that its length byte counts. */
  lemma {:induction false} FoundTakesRoom(tlv: ByteVector, i: nat, rs: seq<Record>)
    requires FindFrom(tlv, i) == Ok(Some(rs))
    ensures i + 2 + TotalSize(rs) <= |tlv|
    ensures tlv[i] == NDEF_MESSAGE ==> TotalSize(rs) <= tlv[i + 1] && i + 2 + tlv[i + 1] <= |tlv|
    ensures tlv[i] != NDEF_MESSAGE ==> i + 4 + TotalSize(rs) <= |tlv|
    decreases |tlv| - i
  {
    hide ReadRecord;
    if tlv[i] == NDEF_MESSAGE {
      ReadingTakesRoom(tlv[i + 2..i + 2 + tlv[i + 1]], 0);
    } else if Control(tlv[i]) {
      FoundTakesRoom(tlv, i + 2 + tlv[i + 1], rs);
    } else {
      FoundTakesRoom(tlv, i + 2, rs);
    }
  }

  lemma FirstByteIsHigh(rs: seq<Record>)
    ensures rs != [] ==> |Encode(rs)| > 0 && Encode(rs)[0] >= 0x80
    ensures rs == [] ==> Encode(rs) == []
    ensures |Encode(rs)| == TotalSize(rs)
  {
    SizeOfMessage(rs, true);
    if rs != [] {
      assert EncodeRecord(rs[0], true, |rs| == 1)[0] == TnfByte(rs[0], true, |rs| == 1);
    }
  }

  /** Without its tag the pair of a message does not lead to the message: the length byte and the bytes
      behind it leave room for it at most at the front, and there its first byte would be its length. */
  lemma TailHidesTheMessage(rs: seq<Record>)
    ensures Find(ToTlv(rs)[1..]) != Ok(Some(rs))
  {
    hide Encode, TotalSize, FindFrom;
    var tail := ToTlv(rs)[1..];
    FirstByteIsHigh(rs);
    assert tail == [|Encode(rs)| % 256] + Encode(rs) + [TERMINATOR];
    if Find(tail) == Ok(Some(rs)) {
      FoundTakesRoom(tail, 0, rs);
    }
  }

  /** Null bytes before a message: it is found if and only if there is an even number of them, it fits
      one length byte and it comes back by itself. */
  lemma FoundBehindNullsExactlyWhen(k: nat, rs: seq<Record>)
    ensures Find(Zeros(k) + ToTlv(rs)) == Ok(Some(rs)) <==> k % 2 == 0 && |Encode(rs)| <= 0xFF && ComesBack(rs)
  {
    hide Find, ToTlv, ComesBack, Encode;
    TlvIsNotEmpty(rs);
    NullsGoInPairs(k, ToTlv(rs));
    TailHidesTheMessage(rs);
    PairRoundTripExactlyWhen(rs, []);
    assert ToTlv(rs) + [] == ToTlv(rs);
  }

  lemma TlvIsNotEmpty(rs: seq<Record>)
    ensures |ToTlv(rs)| > 0
  {
  }

  lemma SmallMessage()
    ensures var rs := [Record(TNF_MIME_MEDIA, [0x61], [], [])];
            Encode(rs) == [0xD2, 1, 0, 0x61] && ComesBack(rs)
  {
    var r := Record(TNF_MIME_MEDIA, [0x61], [], []);
    assert [r][1..] == [];
    assert EncodeRest([r], true) == EncodeRecord(r, true, true) + [];
    assert EncodeRecord(r, true, true) == [0xD2, 1, 0, 0x61];
    WithoutIdIsReadable(r);
  }

  lemma FourTag(rest: ByteVector)
    requires rest == [4, 0xD2, 1, 0, 0x61, TERMINATOR]
    ensures Find(rest) == Ok(None)
  {
    hide Parse;
    assert FindFrom(rest, 0) == FindFrom(rest, 2) == FindFrom(rest, 4) == Ok(None);
  }

  lemma SmallTlv(rs: seq<Record>)
    requires Encode(rs) == [0xD2, 1, 0, 0x61]
    ensures ToTlv(rs) == [NDEF_MESSAGE, 4, 0xD2, 1, 0, 0x61, TERMINATOR]
  {
    hide Encode;
  }

  /** So one null byte before a message of one small record hides the message. */
  lemma OneNullHidesTheMessage()
    ensures var rs := [Record(TNF_MIME_MEDIA, [0x61], [], [])];
            Find(ToTlv(rs)) == Ok(Some(rs)) && Find([NULL] + ToTlv(rs)) == Ok(None)
  {
    hide Encode, Find, ToTlv, ComesBack;
    var rs := [Record(TNF_MIME_MEDIA, [0x61], [], [])];
    SmallMessage();
    PairRoundTripExactlyWhen(rs, []);
    assert ToTlv(rs) + [] == ToTlv(rs);
    SmallTlv(rs);
    NullsGoInPairs(1, ToTlv(rs));
    assert Zeros(1) + ToTlv(rs) == [NULL] + ToTlv(rs);
    FourTag(ToTlv(rs)[1..]);
  }

  // ----- the 16-bit index -----

  const WRAP: nat := 0x1_0000

  /** How far the loop has come within a number of rounds. */
  datatype Progress = Running | Ended(found: Option<seq<Record>>) | Threw(error: Trouble)

  function Wrapped(i: nat): (j: nat)
    ensures j < WRAP && (i < WRAP ==> j == i)
  {
    i % WRAP
  }

  /** The index after one round. */
  function NextIndex(tlv: ByteVector, i: nat): (next: nat)
    requires i + 1 < |tlv|
    ensures next < WRAP
  {
    var j := Wrapped(i + 1);
    if tlv[i] == NDEF_MESSAGE || tlv[i] == TERMINATOR then Wrapped(Wrapped(|tlv|) + 1)
    else if Control(tlv[i]) then Wrapped(Wrapped(j + tlv[j]) + 1)
    else Wrapped(j + 1)
  }

  /** The same without the moves in between: all sums are taken modulo 2^16. */
  lemma NextIndexIs(tlv: ByteVector, i: nat)
    requires i + 1 < |tlv| && i < 0xFFFF
    ensures NextIndex(tlv, i) ==
            if tlv[i] == 0x03 || tlv[i] == 0xFE then (|tlv| + 1) % 0x1_0000
            else if tlv[i] == 0x01 || tlv[i] == 0x02 || tlv[i] == 0xFD then (i + 2 + tlv[i + 1]) % 0x1_0000
            else (i + 2) % 0x1_0000
  {
  }

  /** What has been found after one round, if it does not throw. */
  function FoundAfter(tlv: ByteVector, i: nat, found: Option<seq<Record>>): Result<Option<seq<Record>>, Trouble>
    requires i + 1 < |tlv|
  {
    var j := Wrapped(i + 1);
    if tlv[i] == NDEF_MESSAGE && |tlv| >= j + 1 + tlv[j] then
      match Parse(tlv[j + 1..j + 1 + tlv[j]])
      case Err(e) => Err(e)
      case Ok(rs) => Ok(Some(rs))
    else Ok(found)
  }

  /** The loop of TLVToNdefMessage with its index in 16 bits, for at most this many rounds. */
  function Loop(tlv: ByteVector, i: nat, found: Option<seq<Record>>, rounds: nat): Progress
    decreases rounds
  {
    if i + 1 >= |tlv| then Ended(found)
    else if rounds == 0 then Running
    else match FoundAfter(tlv, i, found)
      case Err(e) => Threw(e)
      case Ok(found') => Loop(tlv, NextIndex(tlv, i), found', rounds - 1)
  }

  function AsProgress(r: Result<Option<seq<Record>>, Trouble>): Progress {
    match r case Err(e) => Threw(e) case Ok(found) => Ended(found)
  }

  lemma SmallIndex(tlv: ByteVector, i: nat)
    requires i + 1 < |tlv| <= 0xFF00
    ensures Wrapped(i + 1) == i + 1
    ensures NextIndex(tlv, i) ==
            if tlv[i] == NDEF_MESSAGE || tlv[i] == TERMINATOR then |tlv| + 1
            else if Control(tlv[i]) then i + 2 + tlv[i + 1]
            else i + 2
  {
    hide Wrapped, Control;
  }

  /** In an area of at most 0xFF00 bytes the loop ends within as many rounds as there are bytes ahead,
      with what the search without wrapping finds. */
  lemma {:induction false} SmallAreasAreSearched(tlv: ByteVector, i: nat, rounds: nat)
    requires |tlv| <= 0xFF00 && i + rounds >= |tlv|
    ensures Loop(tlv, i, None, rounds) == AsProgress(FindFrom(tlv, i))
    decreases rounds
  {
    hide Parse, NextIndex, Wrapped, Control;
    if i + 1 < |tlv| {
      SmallIndex(tlv, i);
      if tlv[i] != NDEF_MESSAGE && tlv[i] != TERMINATOR {
        SmallAreasAreSearched(tlv, NextIndex(tlv, i), rounds - 1);
      }
    }
  }

  /** In an area of more than 0x10000 bytes the loop never ends: it runs on or throws. */
  lemma {:induction false} LargeAreasNeverEnd(tlv: ByteVector, i: nat, found: Option<seq<Record>>, rounds: nat)
    requires |tlv| > WRAP && i < WRAP
    ensures !Loop(tlv, i, found, rounds).Ended?
    decreases rounds
  {
    hide FoundAfter, NextIndex;
    if rounds > 0 {
      var f := FoundAfter(tlv, i, found);
      if f.Ok? {
        LargeAreasNeverEnd(tlv, NextIndex(tlv, i), f.value, rounds - 1);
      }
    }
  }

  // ----- exactly when the loop ends -----

  predicate Stopper(tag: byte) { tag == NDEF_MESSAGE || tag == TERMINATOR }

  /** Where the index goes by itself: off the end, to a message or terminator, or further than followed. */
  datatype Fate = FallsOff | StopsAt(at: nat) | Unknown

  function Walk(tlv: ByteVector, i: nat, rounds: nat): Fate
    decreases rounds
  {
    if i + 1 >= |tlv| then FallsOff
    else if Stopper(tlv[i]) then StopsAt(i)
    else if rounds == 0 then Unknown
    else Walk(tlv, NextIndex(tlv, i), rounds - 1)
  }

  ghost predicate WalksOff(tlv: ByteVector, i: nat) {
    exists n: nat :: Walk(tlv, i, n) == FallsOff
  }

  ghost predicate WalksTo(tlv: ByteVector, i: nat, at: nat) {
    exists n: nat :: Walk(tlv, i, n) == StopsAt(at)
  }

  lemma {:induction false} WalkIsSettled(tlv: ByteVector, i: nat, n: nat, m: nat)
    requires Walk(tlv, i, n) != Unknown && n <= m
    ensures Walk(tlv, i, m) == Walk(tlv, i, n)
    decreases n
  {
    hide NextIndex;
    if i + 1 < |tlv| && !Stopper(tlv[i]) {
      WalkIsSettled(tlv, NextIndex(tlv, i), n - 1, m - 1);
    }
  }

  lemma OneFate(tlv: ByteVector, i: nat, n: nat, m: nat)
    requires Walk(tlv, i, n) != Unknown && Walk(tlv, i, m) != Unknown
    ensures Walk(tlv, i, n) == Walk(tlv, i, m)
  {
    hide Walk;
    if n <= m {
      WalkIsSettled(tlv, i, n, m);
    } else {
      WalkIsSettled(tlv, i, m, n);
    }
  }

  lemma {:induction false} StopIsStopper(tlv: ByteVector, i: nat, n: nat)
    ensures var w := Walk(tlv, i, n); w.StopsAt? ==> w.at + 1 < |tlv| && Stopper(tlv[w.at])
    decreases n
  {
    hide NextIndex, Stopper;
    if i + 1 < |tlv| && !Stopper(tlv[i]) && n > 0 {
      StopIsStopper(tlv, NextIndex(tlv, i), n - 1);
    }
  }

  /** The loop follows the walk: off the end it ends with what it has, and at a stopper it stands there. */
  lemma {:induction false} LoopFollows(tlv: ByteVector, i: nat, found: Option<seq<Record>>, n: nat, more: nat)
    ensures Walk(tlv, i, n) == FallsOff ==> Loop(tlv, i, found, n + more) == Ended(found)
    ensures Walk(tlv, i, n).StopsAt? ==>
              exists k: nat :: k <= n + more && Loop(tlv, i, found, k) == Loop(tlv, Walk(tlv, i, n).at, found, more)
    decreases n
  {
    hide NextIndex, Parse, Wrapped;
    if i + 1 < |tlv| {
      if Stopper(tlv[i]) {
        assert Loop(tlv, i, found, more) == Loop(tlv, Walk(tlv, i, n).at, found, more);
      } else if n > 0 {
        LoopFollows(tlv, NextIndex(tlv, i), found, n - 1, more);
        if Walk(tlv, i, n).StopsAt? {
          var k: nat :| k <= n - 1 + more && Loop(tlv, NextIndex(tlv, i), found, k) == Loop(tlv, Walk(tlv, i, n).at, found, more);
          assert Loop(tlv, i, found, k + 1) == Loop(tlv, Walk(tlv, i, n).at, found, more);
        }
      }
    }
  }

  /** A loop that ends came off the end, or to a stopper from which it ended later. */
  lemma {:induction false} EndedLoopWalked(tlv: ByteVector, i: nat, found: Option<seq<Record>>, rounds: nat)
    requires Loop(tlv, i, found, rounds).Ended?
    ensures var w := Walk(tlv, i, rounds);
            || (w == FallsOff && Loop(tlv, i, found, rounds) == Ended(found))
            || (w.StopsAt? && w.at + 1 < |tlv| && exists k: nat :: k <= rounds && Loop(tlv, w.at, found, k) == Loop(tlv, i, found, rounds))
    decreases rounds
  {
    hide NextIndex, Parse, Wrapped;
    if i + 1 < |tlv| {
      if Stopper(tlv[i]) {
        assert Loop(tlv, Walk(tlv, i, rounds).at, found, rounds) == Loop(tlv, i, found, rounds);
      } else {
        EndedLoopWalked(tlv, NextIndex(tlv, i), found, rounds - 1);
      }
    }
  }

  /** The index behind a message or a terminator, wherever it stands. */
  function Restart(tlv: ByteVector): nat { Wrapped(Wrapped(|tlv|) + 1) }

  lemma LoopAtStopper(tlv: ByteVector, at: nat, found: Option<seq<Record>>, rounds: nat)
    requires at + 1 < |tlv| && Stopper(tlv[at])
    ensures Loop(tlv, at, found, rounds).Ended? ==>
              rounds > 0 && FoundAfter(tlv, at, found).Ok?
              && Loop(tlv, at, found, rounds) == Loop(tlv, Restart(tlv), FoundAfter(tlv, at, found).value, rounds - 1)
    ensures rounds > 0 && FoundAfter(tlv, at, found).Ok? ==>
              Loop(tlv, at, found, rounds) == Loop(tlv, Restart(tlv), FoundAfter(tlv, at, found).value, rounds - 1)
  {
    hide FoundAfter, Wrapped, Control;
  }

  /** From a restart that leads to a stopper again the loop never ends. */
  lemma {:induction false} CircleNeverEnds(tlv: ByteVector, at: nat, found: Option<seq<Record>>, n: nat, rounds: nat)
    requires Walk(tlv, Restart(tlv), n) == StopsAt(at)
    ensures !Loop(tlv, Restart(tlv), found, rounds).Ended?
    decreases rounds
  {
    hide Walk, Loop, FoundAfter, Restart, Stopper;
    var q := Restart(tlv);
    if Loop(tlv, q, found, rounds).Ended? {
      EndedLoopWalked(tlv, q, found, rounds);
      OneFateOrUnknown(tlv, q, n, rounds);
      StopIsStopper(tlv, q, n);
      var k: nat :| k <= rounds && Loop(tlv, at, found, k) == Loop(tlv, q, found, rounds);
      LoopAtStopper(tlv, at, found, k);
      CircleNeverEnds(tlv, at, FoundAfter(tlv, at, found).value, n, k - 1);
    }
  }

  lemma OneFateOrUnknown(tlv: ByteVector, i: nat, n: nat, m: nat)
    requires Walk(tlv, i, n) != Unknown
    ensures Walk(tlv, i, m) == Unknown || Walk(tlv, i, m) == Walk(tlv, i, n)
  {
    hide Walk;
    if Walk(tlv, i, m) != Unknown {
      OneFate(tlv, i, n, m);
    }
  }

  /** The loop as the source runs it, without a limit, ends with this. */
  ghost predicate LoopEnds(tlv: ByteVector, found: Option<seq<Record>>) {
    exists rounds: nat :: Loop(tlv, 0, None, rounds) == Ended(found)
  }

  /** The first stopper from the front yields this without throwing, and behind it the index falls off. */
  ghost predicate EndsBehind(tlv: ByteVector, found: Option<seq<Record>>) {
    exists at: nat :: at + 1 < |tlv| && WalksTo(tlv, 0, at)
                      && FoundAfter(tlv, at, None) == Ok(found) && WalksOff(tlv, Restart(tlv))
  }

  /** For areas of any size: the loop ends if and only if the index falls off the end without meeting a
      message or terminator, and then nothing is found; or the first it meets does not throw, and from
      where the index restarts behind it the index falls off, and then the first one says what is found. */
  lemma EndsExactlyWhen(tlv: ByteVector, found: Option<seq<Record>>)
    ensures LoopEnds(tlv, found) <==> (found == None && WalksOff(tlv, 0)) || EndsBehind(tlv, found)
  {
    hide Walk, Loop, FoundAfter, Restart, Stopper;
    if LoopEnds(tlv, found) {
      var rounds: nat :| Loop(tlv, 0, None, rounds) == Ended(found);
      EndIsExplained(tlv, found, rounds);
    }
    if found == None && WalksOff(tlv, 0) {
      var n: nat :| Walk(tlv, 0, n) == FallsOff;
      LoopFollows(tlv, 0, None, n, 0);
    }
    if EndsBehind(tlv, found) {
      var at: nat :| at + 1 < |tlv| && WalksTo(tlv, 0, at)
                     && FoundAfter(tlv, at, None) == Ok(found) && WalksOff(tlv, Restart(tlv));
      var n: nat :| Walk(tlv, 0, n) == StopsAt(at);
      var m: nat :| Walk(tlv, Restart(tlv), m) == FallsOff;
      LoopFollows(tlv, Restart(tlv), found, m, 0);
      StopIsStopper(tlv, 0, n);
      LoopAtStopper(tlv, at, None, m + 1);
      LoopFollows(tlv, 0, None, n, m + 1);
      var k: nat :| k <= n + (m + 1) && Loop(tlv, 0, None, k) == Loop(tlv, at, None, m + 1);
    }
  }

  lemma EndIsExplained(tlv: ByteVector, found: Option<seq<Record>>, rounds: nat)
    requires Loop(tlv, 0, None, rounds) == Ended(found)
    ensures (found == None && WalksOff(tlv, 0)) || EndsBehind(tlv, found)
  {
    hide Walk, Loop, FoundAfter, Restart, Stopper;
    EndedLoopWalked(tlv, 0, None, rounds);
    var w := Walk(tlv, 0, rounds);
    if w != FallsOff {
      var at, q := w.at, Restart(tlv);
      var k: nat :| k <= rounds && Loop(tlv, at, None, k) == Ended(found);
      StopIsStopper(tlv, 0, rounds);
      LoopAtStopper(tlv, at, None, k);
      var first := FoundAfter(tlv, at, None).value;
      EndedLoopWalked(tlv, q, first, k - 1);
      var v := Walk(tlv, q, k - 1);
      if v.StopsAt? {
        CircleNeverEnds(tlv, v.at, first, k - 1, k - 1);
      }
      assert WalksTo(tlv, 0, at) && WalksOff(tlv, q);
    }
  }

  /** Below 0xFFFF bytes the index is off the end behind the first message or terminator; at 0xFFFF bytes
      it is back at the front, so that no message is ever returned; at 0x10000 bytes it is at the second
      byte; above, it never falls off. */
  lemma RestartBySize(tlv: ByteVector)
    ensures |tlv| < 0xFFFF ==> WalksOff(tlv, Restart(tlv))
    ensures |tlv| == 0xFFFF ==> Restart(tlv) == 0 && forall found :: LoopEnds(tlv, found) ==> found == None
    ensures |tlv| == WRAP ==> Restart(tlv) == 1
    ensures |tlv| > WRAP ==> forall found :: !LoopEnds(tlv, found)
  {
    if |tlv| < 0xFFFF {
      assert Walk(tlv, Restart(tlv), 0) == FallsOff;
    }
    forall found | LoopEnds(tlv, found)
      ensures (|tlv| == 0xFFFF ==> found == None) && |tlv| <= WRAP
    {
      hide Walk, FoundAfter;
      if |tlv| == 0xFFFF {
        EndsExactlyWhen(tlv, found);
        NothingFromTheFront(tlv, found);
      }
      var rounds: nat :| Loop(tlv, 0, None, rounds) == Ended(found);
      if |tlv| > WRAP {
        LargeAreasNeverEnd(tlv, 0, None, rounds);
      }
    }
  }

  /** When the restart is the front again, a walk cannot both meet a stopper and fall off. */
  lemma NothingFromTheFront(tlv: ByteVector, found: Option<seq<Record>>)
    requires Restart(tlv) == 0
    ensures !EndsBehind(tlv, found)
  {
    hide Walk, Restart, FoundAfter;
    if EndsBehind(tlv, found) {
      var at: nat :| at + 1 < |tlv| && WalksTo(tlv, 0, at)
                     && FoundAfter(tlv, at, None) == Ok(found) && WalksOff(tlv, Restart(tlv));
      var n: nat :| Walk(tlv, 0, n) == StopsAt(at);
      var m: nat :| Walk(tlv, 0, m) == FallsOff;
      OneFate(tlv, 0, n, m);
    }
  }
}
