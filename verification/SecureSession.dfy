/** The session object of iso24727crypto.cpp: its fields, its methods and their loops, each proved against
    the functions of SecureMessaging and SecureRuns. */
module SecureSession {
  import opened Arithmetic
  import opened Bytes
  import opened SecureMessaging
  import opened SecureRuns

  // ----- padding and counter, with their loops -----

  /** pad: one 0x80, then zeros until the length is a multiple. */
  method PadLoop(data: ByteVector, padlen: nat) returns (out: ByteVector)
    requires padlen > 0
    ensures out == Pad(data, padlen)
  {
    out := data + [0x80];
    ghost var zeros := 0;
    while |out| % padlen != 0
      invariant out == data + [0x80] + Zeros(zeros) && zeros <= PadZeros(|data|, padlen)
      decreases PadZeros(|data|, padlen) - zeros
    {
      PadFillsBlocks(data, padlen);
      assert |Pad(data, padlen)| == |data| + 1 + PadZeros(|data|, padlen);
      assert zeros != PadZeros(|data|, padlen);
      assert Zeros(zeros) + [0] == Zeros(zeros + 1);
      out := out + [0];
      zeros := zeros + 1;
    }
    NoEarlierMultiple(|data| + 1, zeros, padlen);
  }

  /** The zeros added are the fewest that fill the block. */
  lemma NoEarlierMultiple(len: nat, zeros: nat, padlen: nat)
    requires padlen > 0 && len > 0 && (len + zeros) % padlen == 0 && zeros <= PadZeros(len - 1, padlen)
    ensures zeros == PadZeros(len - 1, padlen)
  {
    hide PadZeros;
    PadZerosByRemainder(len, padlen);
    var q, k := len / padlen, (len + zeros) / padlen;
    Distance(padlen, q, k, len, len % padlen, len + zeros);
    MultipleIsZeroOrFar(padlen, k - q);
  }

  lemma Distance(d: nat, q: nat, k: nat, n: nat, r: nat, m: nat)
    requires n == d * q + r && m == d * k
    ensures d * (k - q) == m - n + r
  {
  }

  /** unpad: pops bytes until it has popped a 0x80; popping an empty buffer is the undefined case. */
  method UnpadLoop(data: ByteVector) returns (out: Option<ByteVector>)
    ensures out == Unpad(data)
  {
    var buffer := data;
    while true
      invariant Unpad(buffer) == Unpad(data)
      decreases |buffer|
    {
      if |buffer| == 0 {
        return None;
      }
      var found := buffer[|buffer| - 1] == 0x80;
      buffer := buffer[..|buffer| - 1];
      if found {
        return Some(buffer);
      }
    }
  }

  /** The value of eight bytes of memory on a little-endian host. */
  function LittleEndian(b: ByteVector): nat {
    if |b| == 0 then 0 else b[0] + 256 * LittleEndian(b[1..])
  }

  lemma {:induction false} ReversedEndian(a: ByteVector, b: ByteVector)
    requires |a| == |b| && forall i :: 0 <= i < |a| ==> b[i] == a[|a| - 1 - i]
    ensures LittleEndian(b) == BigEndian(a)
  {
    if |a| > 0 {
      ReversedEndian(a[..|a| - 1], b[1..]);
    }
  }

  lemma DivideTwice(n: nat, p: nat)
    requires p > 0
    ensures (n / 256) / p == n / (256 * p)
  {
    var q, r := n / 256, n % 256;
    var k, t := q / p, q % p;
    assert q == p * k + t;
    assert n == (256 * p) * k + (256 * t + r);
    assert 256 * t + r < 256 * p;
    QuotientUnique(n, 256 * p, k, 256 * t + r);
  }

  /** Digit i of a big-endian string is a shift and a mask of the number. */
  lemma {:induction false} DigitByShift(n: nat, k: nat, i: nat)
    requires i < k
    ensures ToBigEndian(n, k)[i] == (n / Power256(k - 1 - i)) % 256
  {
    if i == k - 1 {
      assert Power256(0) == 1;
    } else {
      DigitByShift(n / 256, k - 1, i);
      DivideTwice(n, Power256(k - 2 - i));
      assert Power256(k - 1 - i) == 256 * Power256(k - 2 - i);
    }
  }

  /** increment_ssc: the bytes are laid down in reverse in a 64-bit counter, which is incremented and
      read back by shifts. */
  method IncrementSscLoop(ssc: ByteVector) returns (ret: ByteVector)
    requires |ssc| == 8
    ensures ret == IncrementSsc(ssc)
  {
    var memory := new byte[8];
    for i := 0 to 8
      invariant forall t :: 0 <= t < i ==> memory[7 - t] == ssc[t]
    {
      memory[7 - i] := ssc[i];
    }
    forall i | 0 <= i < 8
      ensures memory[..][i] == ssc[7 - i]
    {
      assert memory[7 - (7 - i)] == ssc[7 - i];
    }
    ReversedEndian(ssc, memory[..]);
    var counter := LittleEndian(memory[..]);
    counter := (counter + 1) % COUNTER_MODULUS;
    ret := [];
    for i := 0 to 8
      invariant ret == ToBigEndian(counter, 8)[..i]
    {
      DigitByShift(counter, 8, i);
      ret := ret + [(counter / Power256(7 - i)) % 256];
    }
  }

  // ----- wrapping and unwrapping, step by step -----

  lemma Reassociate(header: ByteVector, a: ByteVector, b: ByteVector, c: ByteVector)
    ensures header + [(|a| + |b| + |c|) % 256] + a + b + c + [0] == header + [|a + b + c| % 256] + (a + b) + c + [0]
  {
  }

  /** encrypt_apdu with explicit keys and counter. */
  method EncryptApduSteps(s: Suite, apdu: ByteVector, ksEnc: ByteVector, ksMac: ByteVector, ssc: ByteVector)
    returns (r: Result<ByteVector, Error>)
    requires s.blockSize > 0 && |ssc| == 8
    ensures r == EncryptApdu(s, ksEnc, ksMac, ssc, apdu)
  {
    hide Pad, IncrementSsc, SecureCla;
    if |apdu| < 4 {
      return Err(TooShort);
    }
    var sscIncremented := IncrementSscLoop(ssc);
    var cmdHeaderNoPad := [SecureCla(apdu[0])] + apdu[1..4];
    var cmdHeader := PadLoop(cmdHeaderNoPad, s.blockSize);
    var do97: ByteVector, originalData: ByteVector := [], [];
    if HasLe(apdu) {
      if HasData(apdu) {
        originalData := apdu[4..|apdu| - 1];
      }
      do97 := [0x97, 0x01, apdu[|apdu| - 1]];
    } else if HasData(apdu) {
      originalData := apdu[5..];
    }
    var padded := PadLoop(originalData, s.blockSize);
    var encryptedData := s.enc(ksEnc, padded);
    var dataObject: ByteVector := [];
    if HasData(apdu) {
      if apdu[1] % 2 == 0 {
        dataObject := [0x87, (|encryptedData| + 1) % 256, 0x01];
      } else {
        dataObject := [0x85, |encryptedData| % 256];
      }
      dataObject := dataObject + encryptedData;
    }
    assert cmdHeaderNoPad == SecureHeader(apdu);
    assert dataObject == DataPart(s, ksEnc, apdu) && do97 == LePart(apdu);
    var m := cmdHeader + dataObject + do97;
    m := sscIncremented + m;
    assert m == IncrementSsc(ssc) + Pad(SecureHeader(apdu), s.blockSize) + (dataObject + do97);
    var mPadded := PadLoop(m, s.blockSize);
    var cc := s.mac(ksMac, mPadded);
    var do8E := [0x8E, 0x08] + cc;
    var result := cmdHeaderNoPad;
    result := result + [(|dataObject| + |do97| + |do8E|) % 256];
    result := result + dataObject;
    result := result + do97;
    result := result + do8E;
    result := result + [0];
    Reassociate(cmdHeaderNoPad, dataObject, do97, do8E);
    r := Ok(result);
  }

  /** decrypt_rapdu with explicit keys and counter; itr is the iterator into the copy. */
  method DecryptRapduSteps(s: Suite, rapdu: ByteVector, ksEnc: ByteVector, ksMac: ByteVector, ssc: ByteVector)
    returns (r: Result<ByteVector, Error>)
    requires s.blockSize > 0 && |ssc| == 8
    ensures r == DecryptRapdu(s, ksEnc, ksMac, ssc, rapdu)
  {
    if |rapdu| < 2 {
      return Err(Undefined);
    }
    var cpy := rapdu[..|rapdu| - 2];
    var itr := 0;
    if |cpy| == 0 {
      return Err(OutOfRange);
    }
    var isDo87 := if cpy[0] == 0x87 then 1 else 0;
    if |cpy| < 3 {
      return Err(TooShort);
    }
    var dataObject: ByteVector := [];
    if cpy[0] == 0x87 || cpy[0] == 0x85 {
      var rest := cpy[1] as int - isDo87;
      if rest < 0 || 2 + isDo87 + rest > |cpy| {
        return Err(Undefined);
      }
      dataObject := cpy[itr..itr + 2 + isDo87];
      itr := itr + 2 + isDo87;
      dataObject := dataObject + cpy[itr..itr + rest];
      itr := itr + rest;
      assert dataObject == cpy[..itr];
    }
    if |cpy| - itr < 4 {
      return Err(TooShort);
    }
    var do99 := cpy[itr..itr + 4];
    itr := itr + 4;
    if |cpy| - itr < 10 {
      return Err(TooShort);
    }
    var do8E := cpy[itr..itr + 10];
    itr := itr + 10;
    assert SplitRapdu(rapdu) == Ok(Pieces(dataObject, do99, do8E));
    var incrementedSsc := IncrementSscLoop(ssc);
    var k := incrementedSsc + dataObject + do99;
    assert k == IncrementSsc(ssc) + (dataObject + do99);
    var kPadded := PadLoop(k, s.blockSize);
    var cc := s.mac(ksMac, kPadded);
    if cc != do8E[2..] {
      return Err(BadChecksum);
    }
    var decryptedData: ByteVector := [];
    assert rapdu[0] == cpy[0];
    assert [] + do99[2..] == do99[2..];
    if |dataObject| > 0 {
      var cryptogram := dataObject[2 + isDo87..];
      if |cryptogram| % s.blockSize != 0 {
        return Err(CipherFailure);
      }
      var unpadded := UnpadLoop(s.dec(ksEnc, cryptogram));
      if unpadded.None? {
        return Err(Undefined);
      }
      decryptedData := unpadded.value;
    }
    decryptedData := decryptedData + do99[2..];
    r := Ok(decryptedData);
  }

  // ----- the object -----

  datatype StepError = WrongRandomSize

  class Iso24727Crypto {
    const suite: Suite
    var kEnc: ByteVector
    var kMac: ByteVector
    var randomIfd: ByteVector
    var randomKIfd: ByteVector
    var step2Success: bool
    var sEnc: ByteVector
    var sMac: ByteVector
    var sSendCounter: ByteVector

    ghost predicate Valid()
      reads this
    {
      Sound(suite) && (step2Success ==> |sSendCounter| == 8)
    }

    /** The session as an end of the channel. */
    ghost function Session(): End
      requires |sSendCounter| == 8
      reads this
    {
      End(sEnc, sMac, sSendCounter)
    }

    constructor (suite: Suite)
      requires Sound(suite)
      ensures Valid() && this.suite == suite && !step2Success && kEnc == [] && kMac == []
    {
      this.suite := suite;
      kEnc, kMac, randomIfd, randomKIfd := [], [], [], [];
      step2Success := false;
      sEnc, sMac, sSendCounter := [], [], [];
    }

    /** step1: fixes the two randoms, generated when not given, and returns the challenge answer. */
    method Step1(randomIcc: ByteVector, givenIfd: ByteVector, givenKIfd: ByteVector,
                 generatedIfd: ByteVector, generatedKIfd: ByteVector) returns (r: Result<ByteVector, StepError>)
      requires Valid() && |generatedIfd| == 8 && |generatedKIfd| == 16
      modifies this`randomIfd, this`randomKIfd
      ensures Valid()
      ensures r.Ok? <==> |randomIcc| == 8 && (givenIfd == [] || |givenIfd| == 8) && (givenKIfd == [] || |givenKIfd| == 16)
      ensures r.Err? ==> randomIfd == old(randomIfd) && randomKIfd == old(randomKIfd)
      ensures r.Ok? ==>
        && |randomIfd| == 8 && |randomKIfd| == 16
        && randomIfd == (if givenIfd == [] then generatedIfd else givenIfd)
        && randomKIfd == (if givenKIfd == [] then generatedKIfd else givenKIfd)
        && r.value == Step1Message(suite, kEnc, kMac, randomIfd, randomIcc, randomKIfd)
    {
      if |randomIcc| != 8 || (|givenIfd| != 0 && |givenIfd| != 8) || (|givenKIfd| != 0 && |givenKIfd| != 16) {
        return Err(WrongRandomSize);
      }
      randomIfd := givenIfd;
      if |randomIfd| == 0 {
        randomIfd := generatedIfd;
      }
      randomKIfd := givenKIfd;
      if |randomKIfd| == 0 {
        randomKIfd := generatedKIfd;
      }
      var plain := randomIfd;
      plain := plain + randomIcc;
      plain := plain + randomKIfd;
      var eIfd := suite.enc(kEnc, plain);
      var padded := PadLoop(eIfd, 8);
      var mIfd := suite.mac(kMac, padded);
      r := Ok(eIfd + mIfd);
    }

    /** step2: accepts exactly the answers Step2Keys accepts, and changes nothing otherwise. */
    method Step2(authResponse: ByteVector) returns (ok: bool)
      requires Valid() && !step2Success
      modifies this`step2Success, this`sEnc, this`sMac, this`sSendCounter
      ensures Valid() && ok == step2Success
      ensures var keys := Step2Keys(suite, kEnc, kMac, randomIfd, randomKIfd, authResponse);
              && ok == keys.Some?
              && (ok ==> SessionKeys(sEnc, sMac, sSendCounter) == keys.value)
      ensures !ok ==> sEnc == old(sEnc) && sMac == old(sMac) && sSendCounter == old(sSendCounter)
    {
      if |authResponse| < 40 {
        return false;
      }
      var eIcc := authResponse[..32];
      var padded := PadLoop(eIcc, 8);
      var mIcc2 := suite.mac(kMac, padded);
      assert |eIcc| % suite.blockSize == 0;
      var plain := suite.dec(kEnc, eIcc);
      var mIcc := authResponse[32..40];
      if mIcc2 != mIcc {
        return false;
      }
      if plain[8..16] != randomIfd {
        return false;
      }
      var keys := suite.derive(randomKIfd, randomIfd, plain[16..32], plain[..8]);
      sEnc, sMac, sSendCounter := keys.enc, keys.mac, keys.ssc;
      step2Success := true;
      return true;
    }

    /** get_send_session_counter: only after a successful step2. */
    method GetSendSessionCounter() returns (r: Option<ByteVector>)
      ensures r == if step2Success then Some(sSendCounter) else None
    {
      if !step2Success {
        return None;
      }
      return Some(sSendCounter);
    }

    /** encrypt_apdu: the counter moves if and only if a wrapped command is returned.  Nothing asks whether
        step2 has succeeded, or whether the session has been reset since. */
    method EncryptApdu(apdu: ByteVector) returns (r: Result<ByteVector, Error>)
      requires Valid() && |sSendCounter| == 8
      modifies this`sSendCounter
      ensures Valid() && |sSendCounter| == 8
      ensures r == CallResult(suite, old(Session()), Wrap(apdu))
      ensures Session() == AfterCall(suite, old(Session()), Wrap(apdu))
    {
      r := EncryptApduSteps(suite, apdu, sEnc, sMac, sSendCounter);
      if r.Err? {
        return;
      }
      sSendCounter := IncrementSscLoop(sSendCounter);
    }

    /** decrypt_rapdu: a response that is refused leaves the counter alone. */
    method DecryptRapdu(rapdu: ByteVector) returns (r: Result<ByteVector, Error>)
      requires Valid() && |sSendCounter| == 8
      modifies this`sSendCounter
      ensures Valid() && |sSendCounter| == 8
      ensures r == CallResult(suite, old(Session()), Unwrap(rapdu))
      ensures Session() == AfterCall(suite, old(Session()), Unwrap(rapdu))
    {
      r := DecryptRapduSteps(suite, rapdu, sEnc, sMac, sSendCounter);
      if r.Err? {
        return;
      }
      sSendCounter := IncrementSscLoop(sSendCounter);
    }

    /** reset: takes the flag down and clears the enciphering key (twice).  The MAC key, the session keys
        and the counter stay, so encrypt_apdu and decrypt_rapdu go on with the old session. */
    method Reset()
      requires Valid()
      modifies this`step2Success, this`kEnc
      ensures Valid() && !step2Success && kEnc == []
      ensures |sSendCounter| == 8 ==> Session() == old(Session())
    {
      step2Success := false;
      kEnc := [];
      kEnc := [];
    }
  }

  /** A command wrapped after reset is the one the old session would have wrapped. */
  method WrapAfterReset(reader: Iso24727Crypto, apdu: ByteVector) returns (r: Result<ByteVector, Error>)
    requires reader.Valid() && |reader.sSendCounter| == 8
    modifies reader
    ensures !reader.step2Success && |reader.sSendCounter| == 8
    ensures r == CallResult(reader.suite, old(reader.Session()), Wrap(apdu))
    ensures reader.Session() == AfterCall(reader.suite, old(reader.Session()), Wrap(apdu))
  {
    hide CallResult;
    reader.Reset();
    r := reader.EncryptApdu(apdu);
  }

  /** The object used end to end: both steps against an honest card, then one exchange. */
  method AuthenticateAndExchange(reader: Iso24727Crypto, rndIcc: ByteVector, kIcc: ByteVector,
                                 rndIfd: ByteVector, kIfd: ByteVector, c: Command, reply: Reply)
    returns (answer: Result<ByteVector, Error>)
    requires reader.Valid() && !reader.step2Success
    requires |rndIcc| == 8 && |rndIfd| == 8 && |kIfd| == 16 && |kIcc| == 16
    requires |c.data| < 256 && RightShape(c) && Fits(reader.suite, c) && ReplyFits(reader.suite, reply)
    modifies reader
    ensures answer == Ok(Plain(reply))
  {
    hide SecureMessaging.EncryptApdu, SecureMessaging.DecryptRapdu, CardUnwrap, CardReply, IncrementSsc, Plain, ShortApdu;
    var s, encKey, macKey := reader.suite, reader.kEnc, reader.kMac;
    var challenge := reader.Step1(rndIcc, [], [], rndIfd, kIfd);
    HandshakeAgrees(s, encKey, macKey, rndIfd, rndIcc, kIfd, kIcc);
    var (response, keys) := CardAuthenticate(s, encKey, macKey, rndIcc, kIcc, challenge.value).value;
    var ok := reader.Step2(response);
    var cardCounter: Counter := keys.ssc;
    CommandSurvives(s, keys.enc, keys.mac, cardCounter, c);
    var wrapped := reader.EncryptApdu(ShortApdu(c));
    var command := CardUnwrap(s, keys.enc, keys.mac, cardCounter, wrapped.value);
    assert command == Some(c.(cla := SecureCla(c.cla)));
    cardCounter := IncrementSsc(cardCounter);
    ReplySurvives(s, keys.enc, keys.mac, cardCounter, reply);
    answer := reader.DecryptRapdu(CardReply(s, keys.enc, keys.mac, cardCounter, reply));
  }
}
