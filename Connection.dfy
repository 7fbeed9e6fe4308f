/** The host side of one exchange over the serial link: `send_frame`, which reads the device's
    response byte by byte and decides whether the device answered well, and `ping_module`, a
    simpler presence check. The serial port is replaced by the sequence of results its reads
    return; the request frame that is written first is not modelled. */
module Connection {
  import opened Bytes
  import opened Protocol

  /** The result of one one-byte read of the port. */
  datatype Poll =
    | Byte(value: byte)       // a byte arrived
    | Silent(elapsedNs: nat)  // no byte within the read timeout; ns elapsed since the exchange began
    | PortError               // the port raised a serial exception

  datatype Option<T> = None | Some(value: T)

  /** The whole exchange may last one second. */
  const TIMEOUT_NS: nat := 1_000_000_000

  /** The bytes carried by a sequence of polls, in order. */
  function BytesOf(polls: seq<Poll>): (r: seq<byte>)
    ensures |r| <= |polls|
  {
    if polls == [] then []
    else if polls[0].Byte? then [polls[0].value] + BytesOf(polls[1..])
    else BytesOf(polls[1..])
  }

  /** A byte sequence as it arrives, one byte per poll. */
  function AsPolls(s: seq<byte>): (r: seq<Poll>)
    ensures |r| == |s|
  {
    if s == [] then [] else [Byte(s[0])] + AsPolls(s[1..])
  }

  /** The candidate frame in a byte stream: everything from the first STX on, or nothing when no
      STX arrived. The bytes before it are noise and are dropped. */
  function FromFirstStx(stx: byte, s: seq<byte>): (r: seq<byte>)
    ensures |r| <= |s|
    ensures r == [] || r[0] == stx
  {
    if s == [] then []
    else if s[0] == stx then s
    else FromFirstStx(stx, s[1..])
  }

  /** The frame is the suffix of the stream that starts at its first STX: no STX comes before it,
      and it is empty only when the stream holds no STX at all. */
  lemma {:induction false} FromFirstStxIsSuffixAtFirstStx(stx: byte, s: seq<byte>)
    ensures var r := FromFirstStx(stx, s);
      && r == s[|s| - |r|..]
      && stx !in s[..|s| - |r|]
  {
    if s != [] && s[0] != stx {
      var r := FromFirstStx(stx, s[1..]);
      FromFirstStxIsSuffixAtFirstStx(stx, s[1..]);
      assert s[..|s| - |r|] == [s[0]] + s[1..][..|s[1..]| - |r|];
    }
  }

  /** Once a frame has started, later bytes extend it; before that, later bytes are searched. */
  lemma {:induction false} FromFirstStxConcat(stx: byte, s: seq<byte>, t: seq<byte>)
    ensures FromFirstStx(stx, s) != [] ==> FromFirstStx(stx, s + t) == FromFirstStx(stx, s) + t
    ensures FromFirstStx(stx, s) == [] ==> FromFirstStx(stx, s + t) == FromFirstStx(stx, t)
  {
    if s != [] {
      assert (s + t)[0] == s[0] && (s + t)[1..] == s[1..] + t;
      if s[0] != stx {
        FromFirstStxConcat(stx, s[1..], t);
      }
    } else {
      assert s + t == t;
    }
  }

  // ---------------------------------------------------------------------------------------
  // send_frame
  // ---------------------------------------------------------------------------------------

  /** How a `send_frame` call ended. The source returns `True` only for `Accepted`. */
  datatype Exit =
    | Accepted       // complete frame ending in ETX, opcode ACK or READY
    | Rejected       // complete frame ending in ETX, opcode NACK
    | BadTerminator  // the frame reached its expected length without ETX as its last byte
    | Unclassified   // complete frame ending in ETX with any other opcode
    | Timeout        // an empty read after more than one second
    | SerialFault    // the port raised a serial exception

  datatype SendResult =
    | Returned(exit: Exit, frame: seq<byte>)  // `send_frame` returned `(exit == Accepted, frame)`
    | Pending(frame: seq<byte>)               // the polls ran out before it returned
  {
    /** The boolean `send_frame` returns. */
    predicate Ok() {
      Returned? && exit == Accepted
    }

    /** The call returned because a complete frame was classified, not by timeout or fault. */
    predicate Decided() {
      Returned? && exit != Timeout && exit != SerialFault
    }
  }

  /** The expected frame length fixed when the opcode (the second frame byte) arrives. An ACK
      to a write is five bytes; an ACK to a read starts at the empty-ACK length. */
  function OpcodeLength(p: Constants, operation: int, op: byte): nat
  {
    if op == p.nack then p.nackLength
    else if op == p.ack then
      (if operation == p.opWrite then 5
       else if operation == p.opRead then p.ackEmptyLength
       else 0)
    else if op == p.ready then p.readyLength
    else 0
  }

  /** The expected total length of the response buffered so far: zero before the opcode; for an
      ACK to a read once the prefix is in, the overhead plus the 16-bit little-endian length
      field of the response itself (the empty-ACK length when that field is zero); otherwise
      the opcode's fixed length. It is known (non-zero) only once the opcode is in, and only
      for the three response opcodes. */
  function ExpectedLength(p: Constants, operation: int, buf: seq<byte>): (r: nat)
    requires p.LengthFieldInPrefix()
    ensures |buf| < 2 ==> r == 0
    ensures r != 0 ==> buf[1] == p.ack || buf[1] == p.nack || buf[1] == p.ready
  {
    if |buf| < 2 then 0
    else if buf[1] == p.ack && operation == p.opRead && |buf| >= p.prefixLen then
      var frameLength := Le16(buf[p.lenLsbPos], buf[p.lenMsbPos]);
      if frameLength > 0 then p.overhead + frameLength else p.ackEmptyLength
    else OpcodeLength(p, operation, buf[1])
  }

  /** The buffer is long enough to be judged: its expected length is known (non-zero) and reached. */
  predicate Decides(p: Constants, operation: int, buf: seq<byte>)
    requires p.LengthFieldInPrefix()
  {
    ExpectedLength(p, operation, buf) != 0 && |buf| >= ExpectedLength(p, operation, buf)
  }

  /** The buffer is judged now and was not judged at any shorter length. */
  predicate FirstDecision(p: Constants, operation: int, frame: seq<byte>)
    requires p.LengthFieldInPrefix()
  {
    Decides(p, operation, frame) && forall n :: 0 <= n < |frame| ==> !Decides(p, operation, frame[..n])
  }

  /** How a judged frame is classified: its last byte must be ETX, then ACK and READY succeed.
      A judged frame is never a timeout or a fault, and with distinct opcodes a NACK is never
      accepted. */
  function Verdict(p: Constants, frame: seq<byte>): (r: Exit)
    requires |frame| >= 2
    ensures r != Timeout && r != SerialFault
    ensures r == BadTerminator <==> frame[|frame| - 1] != p.etx
    ensures r == Accepted <==> frame[|frame| - 1] == p.etx && (frame[1] == p.ack || frame[1] == p.ready)
    ensures p.ack != p.nack && p.ready != p.nack && frame[1] == p.nack ==> r != Accepted
  {
    if frame[|frame| - 1] != p.etx then BadTerminator
    else if frame[1] == p.ack || frame[1] == p.ready then Accepted
    else if frame[1] == p.nack then Rejected
    else Unclassified
  }

  /** The exchange as a state machine over the polls, with `buf` the frame buffered so far (empty
      while seeking STX). The opcode and expected length are read off the buffer. The bytes
      already buffered are kept, except on a port fault, which returns nothing; a frame is
      classified only once its expected length is known and reached. */
  function Exchange(p: Constants, operation: int, polls: seq<Poll>, buf: seq<byte>): (r: SendResult)
    requires p.LengthFieldInPrefix()
    ensures r == Returned(SerialFault, []) || buf <= r.frame
    ensures r.Decided() ==> Decides(p, operation, r.frame)
    decreases |polls|
  {
    if polls == [] then Pending(buf)
    else match polls[0]
      case PortError => Returned(SerialFault, [])
      case Silent(t) =>
        if t > TIMEOUT_NS then Returned(Timeout, buf)
        else Exchange(p, operation, polls[1..], buf)
      case Byte(b) =>
        if buf == [] && b != p.stx then Exchange(p, operation, polls[1..], [])
        else if Decides(p, operation, buf + [b]) then Returned(Verdict(p, buf + [b]), buf + [b])
        else Exchange(p, operation, polls[1..], buf + [b])
  }

  /** `send_frame` after the request is written: scan for STX, buffer the frame, fix the expected
      length from the opcode and, for an ACK to a read, from the response's own length field,
      and classify the frame as soon as that length is reached; an empty read after more than
      one second ends the exchange. */
  method SendFrame(p: Constants, operation: int, polls: seq<Poll>) returns (r: SendResult)
    requires p.LengthFieldInPrefix()
    ensures r == Exchange(p, operation, polls, [])
  {
    var responseBytes: seq<byte> := [];
    var expectedLength: nat := 0;
    var opCode: Option<byte> := None;
    var foundFrame := false;
    var i := 0;
    while i < |polls|
      invariant 0 <= i <= |polls|
      invariant foundFrame <==> responseBytes != []
      invariant opCode == if |responseBytes| >= 2 then Some(responseBytes[1]) else None
      invariant expectedLength == ExpectedLength(p, operation, responseBytes)
      invariant Exchange(p, operation, polls, []) == Exchange(p, operation, polls[i..], responseBytes)
    {
      var poll := polls[i];
      ghost var buf0 := responseBytes;
      assert polls[i..][0] == poll && polls[i..][1..] == polls[i + 1..];
      i := i + 1;
      if poll.PortError? {
        return Returned(SerialFault, []);
      }
      if poll.Silent? {
        if poll.elapsedNs > TIMEOUT_NS {
          return Returned(Timeout, responseBytes);
        }
        continue;
      }
      var b := poll.value;

      // Find start of frame.
      if !foundFrame {
        if b != p.stx {
          continue;
        }
        foundFrame := true;
        responseBytes := [b];
        assert buf0 + [b] == responseBytes && !Decides(p, operation, responseBytes);
        continue;
      }

      responseBytes := responseBytes + [b];

      // Opcode and initial expected length.
      if |responseBytes| == 2 {
        opCode := Some(b);
        if b == p.nack {
          expectedLength := p.nackLength;
        } else if b == p.ack {
          if operation == p.opRead {
            expectedLength := p.ackEmptyLength;
          }
          if operation == p.opWrite {
            expectedLength := 5;
          }
        } else if b == p.ready {
          expectedLength := p.readyLength;
        } else {
          expectedLength := 0;  // unknown response opcode
        }
      }

      // An ACK to a read carries its payload length once the prefix is in.
      if opCode == Some(p.ack) && |responseBytes| >= p.prefixLen && operation == p.opRead {
        var frameLength := Le16(responseBytes[p.lenLsbPos], responseBytes[p.lenMsbPos]);
        if frameLength > 0 {
          expectedLength := p.overhead + frameLength;
        } else {
          expectedLength := p.ackEmptyLength;
        }
      }

      // Enough bytes: check ETX and decide.
      if expectedLength != 0 && |responseBytes| >= expectedLength {
        if responseBytes[|responseBytes| - 1] != p.etx {
          return Returned(BadTerminator, responseBytes);
        }
        if opCode == Some(p.ack) || opCode == Some(p.ready) {
          return Returned(Accepted, responseBytes);
        }
        if opCode == Some(p.nack) {
          return Returned(Rejected, responseBytes);
        }
        return Returned(Unclassified, responseBytes);
      }
    }
    r := Pending(responseBytes);
  }

  // ---- what the exchange promises -------------------------------------------------------

  /** The buffer continued by the bytes still to come: searched for STX if no frame has started. */
  function Resume(stx: byte, buf: seq<byte>, s: seq<byte>): seq<byte>
  {
    if buf == [] then FromFirstStx(stx, s) else buf + s
  }

  lemma {:induction false} ExchangeFramePrefix(p: Constants, operation: int, polls: seq<Poll>, buf: seq<byte>)
    requires p.LengthFieldInPrefix()
    ensures Exchange(p, operation, polls, buf).frame <= Resume(p.stx, buf, BytesOf(polls))
    decreases |polls|
  {
    if polls != [] {
      var rest := polls[1..];
      match polls[0]
      case PortError =>
      case Silent(t) =>
        if t <= TIMEOUT_NS {
          ExchangeFramePrefix(p, operation, rest, buf);
        }
      case Byte(b) =>
        assert BytesOf(polls) == [b] + BytesOf(rest);
        if buf == [] && b != p.stx {
          ExchangeFramePrefix(p, operation, rest, []);
        } else {
          assert Resume(p.stx, buf, BytesOf(polls)) == (buf + [b]) + BytesOf(rest);
          if !Decides(p, operation, buf + [b]) {
            ExchangeFramePrefix(p, operation, rest, buf + [b]);
          }
        }
    }
  }

  /** Bytes before the first STX are discarded: whatever `send_frame` returns is a prefix of the
      byte stream from its first STX on, and so starts with STX when it is not empty. */
  lemma FrameStartsAtFirstStx(p: Constants, operation: int, polls: seq<Poll>)
    requires p.LengthFieldInPrefix()
    ensures var r := Exchange(p, operation, polls, []);
      && r.frame <= FromFirstStx(p.stx, BytesOf(polls))
      && (r.frame != [] ==> r.frame[0] == p.stx)
  {
    ExchangeFramePrefix(p, operation, polls, []);
  }

  /** A buffer none of whose prefixes (itself included) has been judged. */
  predicate Undecided(p: Constants, operation: int, buf: seq<byte>)
    requires p.LengthFieldInPrefix()
  {
    forall n :: 0 <= n <= |buf| ==> !Decides(p, operation, buf[..n])
  }

  lemma {:induction false} ExchangeVerdictFrom(p: Constants, operation: int, polls: seq<Poll>, buf: seq<byte>)
    requires p.LengthFieldInPrefix()
    requires Undecided(p, operation, buf)
    ensures var r := Exchange(p, operation, polls, buf);
      r.Decided() ==> |r.frame| >= 2 && FirstDecision(p, operation, r.frame) && r.exit == Verdict(p, r.frame)
    decreases |polls|
  {
    if polls != [] {
      var rest := polls[1..];
      match polls[0]
      case PortError =>
      case Silent(t) =>
        if t <= TIMEOUT_NS {
          ExchangeVerdictFrom(p, operation, rest, buf);
        }
      case Byte(b) =>
        if buf == [] && b != p.stx {
          ExchangeVerdictFrom(p, operation, rest, []);
        } else {
          var nb := buf + [b];
          assert forall n :: 0 <= n < |nb| ==> nb[..n] == buf[..n];
          if !Decides(p, operation, nb) {
            assert nb[..|nb|] == nb;
            ExchangeVerdictFrom(p, operation, rest, nb);
          } else {
            assert ExpectedLength(p, operation, nb) != 0;
          }
        }
    }
  }

  /** A frame is judged at the first length where its expected length is known and reached,
      and the call's result is that frame's classification. */
  lemma DecidedAtFirstOpportunity(p: Constants, operation: int, polls: seq<Poll>)
    requires p.LengthFieldInPrefix()
    ensures var r := Exchange(p, operation, polls, []);
      r.Decided() ==> |r.frame| >= 2 && FirstDecision(p, operation, r.frame) && r.exit == Verdict(p, r.frame)
  {
    ExchangeVerdictFrom(p, operation, polls, []);
  }

  /** `send_frame` returns `True` exactly when it judged a complete frame whose last byte is ETX
      and whose opcode is ACK or READY. A NACK, or a frame that reaches its length without ETX,
      always gives `False`. */
  lemma SuccessIffEtxAndAckOrReady(p: Constants, operation: int, polls: seq<Poll>)
    requires p.Valid()
    ensures var r := Exchange(p, operation, polls, []);
      r.Decided() ==>
        && |r.frame| >= 2
        && (r.Ok() <==> r.frame[|r.frame| - 1] == p.etx && (r.frame[1] == p.ack || r.frame[1] == p.ready))
        && (r.frame[1] == p.nack ==> !r.Ok())
        && (r.frame[|r.frame| - 1] != p.etx ==> r.exit == BadTerminator)
    ensures var r := Exchange(p, operation, polls, []); r.Ok() ==> r.Decided()
  {
    DecidedAtFirstOpportunity(p, operation, polls);
  }

  /** An unknown response opcode leaves the expected length at zero for good: no frame is ever
      judged, so `send_frame` can only end by timeout or fault and never returns `True`. */
  lemma UnknownOpcodeNeverDecided(p: Constants, operation: int, polls: seq<Poll>)
    requires p.LengthFieldInPrefix()
    requires var f := FromFirstStx(p.stx, BytesOf(polls));
      |f| >= 2 && f[1] != p.ack && f[1] != p.nack && f[1] != p.ready
    ensures !Exchange(p, operation, polls, []).Decided()
    ensures !Exchange(p, operation, polls, []).Ok()
  {
    var r := Exchange(p, operation, polls, []);
    FrameStartsAtFirstStx(p, operation, polls);
    DecidedAtFirstOpportunity(p, operation, polls);
  }

  /** The expected length of an ACK to a read, once the prefix is buffered, comes from the
      response's own length field `b[LSB] | (b[MSB] << 8)`: the overhead plus that field when it
      is positive, the empty-ACK length otherwise. */
  lemma AckToReadLength(p: Constants, buf: seq<byte>)
    requires p.LengthFieldInPrefix()
    requires |buf| >= 2 && |buf| >= p.prefixLen && buf[1] == p.ack
    ensures var field := Or(buf[p.lenLsbPos], Shl(buf[p.lenMsbPos], 8));
      ExpectedLength(p, p.opRead, buf) == if field > 0 then p.overhead + field else p.ackEmptyLength
  {
    Le16IsBitwiseOr(buf[p.lenLsbPos], buf[p.lenMsbPos]);
  }

  /** Once the prefix (and the opcode) is buffered, further bytes never change the expected
      length: it is fixed by the first `max(2, PREFIX_LEN)` response bytes. */
  lemma ExpectedLengthSettled(p: Constants, operation: int, buf: seq<byte>, more: seq<byte>)
    requires p.LengthFieldInPrefix()
    requires |buf| >= 2 && |buf| >= p.prefixLen
    ensures ExpectedLength(p, operation, buf + more) == ExpectedLength(p, operation, buf)
  {
    assert (buf + more)[1] == buf[1];
    assert (buf + more)[p.lenLsbPos] == buf[p.lenLsbPos];
    assert (buf + more)[p.lenMsbPos] == buf[p.lenMsbPos];
  }

  /** The lengths fixed by the opcode: NACK_LENGTH for NACK, READY_LENGTH for READY, 5 for an
      ACK to a write, and zero (never judged) for an unknown opcode, at every buffer length. */
  lemma OpcodeLengthTable(p: Constants, operation: int, buf: seq<byte>)
    requires p.LengthFieldInPrefix()
    requires p.ack != p.nack && p.ack != p.ready && p.nack != p.ready
    requires |buf| >= 2
    ensures buf[1] == p.nack ==> ExpectedLength(p, operation, buf) == p.nackLength
    ensures buf[1] == p.ready ==> ExpectedLength(p, operation, buf) == p.readyLength
    ensures buf[1] == p.ack && operation == p.opWrite && operation != p.opRead ==>
      ExpectedLength(p, operation, buf) == 5
    ensures buf[1] != p.ack && buf[1] != p.nack && buf[1] != p.ready ==>
      ExpectedLength(p, operation, buf) == 0
  {
  }

  /** An empty read within the one-second budget is ignored: removing it changes nothing. */
  lemma {:induction false} QuietPollWithinBudgetIgnored(p: Constants, operation: int, before: seq<Poll>,
                                                         t: nat, after: seq<Poll>, buf: seq<byte>)
    requires p.LengthFieldInPrefix()
    requires t <= TIMEOUT_NS
    ensures Exchange(p, operation, before + [Silent(t)] + after, buf)
         == Exchange(p, operation, before + after, buf)
    decreases |before|
  {
    if before == [] {
      assert ([] + [Silent(t)] + after)[1..] == after;
      assert [] + after == after;
    } else {
      var polls, polls' := before + [Silent(t)] + after, before + after;
      assert polls[0] == polls'[0] == before[0];
      assert polls[1..] == before[1..] + [Silent(t)] + after;
      assert polls'[1..] == before[1..] + after;
      match before[0]
      case PortError =>
      case Silent(u) =>
        QuietPollWithinBudgetIgnored(p, operation, before[1..], t, after, buf);
      case Byte(b) =>
        if buf == [] && b != p.stx {
          QuietPollWithinBudgetIgnored(p, operation, before[1..], t, after, []);
        } else if !Decides(p, operation, buf + [b]) {
          QuietPollWithinBudgetIgnored(p, operation, before[1..], t, after, buf + [b]);
        }
    }
  }

  /** A timeout needs an empty read reported more than one second after the start; received
      bytes never trigger it. */
  lemma {:induction false} TimeoutNeedsLateQuietPoll(p: Constants, operation: int, polls: seq<Poll>, buf: seq<byte>)
    requires p.LengthFieldInPrefix()
    requires Exchange(p, operation, polls, buf) == Returned(Timeout, Exchange(p, operation, polls, buf).frame)
    ensures exists i :: 0 <= i < |polls| && polls[i].Silent? && polls[i].elapsedNs > TIMEOUT_NS
    decreases |polls|
  {
    var rest := polls[1..];
    match polls[0]
    case PortError =>
    case Silent(t) =>
      if t <= TIMEOUT_NS {
        TimeoutNeedsLateQuietPoll(p, operation, rest, buf);
        var i :| 0 <= i < |rest| && rest[i].Silent? && rest[i].elapsedNs > TIMEOUT_NS;
        assert polls[i + 1] == rest[i];
      } else {
        assert polls[0].Silent? && polls[0].elapsedNs > TIMEOUT_NS;
      }
    case Byte(b) =>
      var nb := if buf == [] && b != p.stx then [] else buf + [b];
      if !(buf != [] || b == p.stx) || !Decides(p, operation, nb) {
        TimeoutNeedsLateQuietPoll(p, operation, rest, nb);
        var i :| 0 <= i < |rest| && rest[i].Silent? && rest[i].elapsedNs > TIMEOUT_NS;
        assert polls[i + 1] == rest[i];
      }
  }

  /** While no byte arrives the exchange cannot run on past the budget: the first empty read
      reported after more than one second ends it with a timeout and the buffer so far. */
  lemma {:induction false} QuietLineTimesOut(p: Constants, operation: int, polls: seq<Poll>, k: nat, buf: seq<byte>)
    requires p.LengthFieldInPrefix()
    requires k < |polls| && polls[k].Silent? && polls[k].elapsedNs > TIMEOUT_NS
    requires forall j :: 0 <= j < k ==> polls[j].Silent?
    ensures Exchange(p, operation, polls, buf) == Returned(Timeout, buf)
  {
    if k > 0 && polls[0].elapsedNs <= TIMEOUT_NS {
      assert forall j :: 0 <= j < k - 1 ==> polls[1..][j] == polls[j + 1];
      QuietLineTimesOut(p, operation, polls[1..], k - 1, buf);
    }
  }

  /** Line noise before the frame is dropped: bytes other than STX in front of the stream do not
      change the result. */
  lemma {:induction false} NoiseBeforeStxDropped(p: Constants, operation: int, noise: seq<byte>, polls: seq<Poll>)
    requires p.LengthFieldInPrefix()
    requires p.stx !in noise
    ensures Exchange(p, operation, AsPolls(noise) + polls, []) == Exchange(p, operation, polls, [])
    decreases |noise|
  {
    if noise != [] {
      var all := AsPolls(noise) + polls;
      assert all[0] == Byte(noise[0]);
      assert all[1..] == AsPolls(noise[1..]) + polls;
      NoiseBeforeStxDropped(p, operation, noise[1..], polls);
    } else {
      assert AsPolls(noise) + polls == polls;
    }
  }

  lemma {:induction false} FeedFrame(p: Constants, operation: int, frame: seq<byte>, k: nat, rest: seq<Poll>)
    requires p.LengthFieldInPrefix()
    requires 1 <= k < |frame| && FirstDecision(p, operation, frame)
    ensures Exchange(p, operation, AsPolls(frame[k..]) + rest, frame[..k])
         == Returned(Verdict(p, frame), frame)
    decreases |frame| - k
  {
    var polls := AsPolls(frame[k..]) + rest;
    assert polls[0] == Byte(frame[k]);
    assert frame[..k] + [frame[k]] == frame[..k + 1];
    if k + 1 == |frame| {
      assert frame[..k + 1] == frame;
    } else {
      assert polls[1..] == AsPolls(frame[k + 1..]) + rest;
      FeedFrame(p, operation, frame, k + 1, rest);
    }
  }

  /** A well-formed response is recognised wherever it appears after line noise: a frame that
      starts with STX and is first judged at its full length is returned whole, classified,
      whatever follows it. */
  lemma RecognisesFrameAfterNoise(p: Constants, operation: int, noise: seq<byte>, frame: seq<byte>, rest: seq<Poll>)
    requires p.LengthFieldInPrefix()
    requires p.stx !in noise
    requires |frame| >= 2 && frame[0] == p.stx && FirstDecision(p, operation, frame)
    ensures Exchange(p, operation, AsPolls(noise) + AsPolls(frame) + rest, [])
         == Returned(Verdict(p, frame), frame)
  {
    assert AsPolls(noise) + AsPolls(frame) + rest == AsPolls(noise) + (AsPolls(frame) + rest);
    NoiseBeforeStxDropped(p, operation, noise, AsPolls(frame) + rest);
    var polls := AsPolls(frame) + rest;
    assert polls[0] == Byte(p.stx);
    assert polls[1..] == AsPolls(frame[1..]) + rest;
    assert [] + [p.stx] == frame[..1];
    assert !Decides(p, operation, frame[..1]);
    FeedFrame(p, operation, frame, 1, rest);
  }

  // ---------------------------------------------------------------------------------------
  // ping_module
  // ---------------------------------------------------------------------------------------

  /** A read that yields a byte the ping keeps. `ping_module` as written tests the byte's truth
      value, so a received 0x00 also counts as no byte (`zeroIsSilence`); the evidently intended
      test, on whether the read returned anything, keeps every byte. */
  predicate IsData(q: Poll, zeroIsSilence: bool) {
    q.Byte? && !(zeroIsSilence && q.value == 0)
  }

  /** The bytes the ping collects: everything up to the first read without a byte. */
  function Received(polls: seq<Poll>, zeroIsSilence: bool): seq<byte>
  {
    if polls == [] || !IsData(polls[0], zeroIsSilence) then []
    else [polls[0].value] + Received(polls[1..], zeroIsSilence)
  }

  /** The port raises an exception before the line goes quiet. */
  predicate ReadFails(polls: seq<Poll>, zeroIsSilence: bool) {
    polls != [] &&
    (polls[0].PortError? || (IsData(polls[0], zeroIsSilence) && ReadFails(polls[1..], zeroIsSilence)))
  }

  predicate KnownOpcode(p: Constants, op: byte) {
    op == p.ack || op == p.ready || op == p.nack
  }

  /** The exact length the ping expects for each response opcode. */
  function PingLength(p: Constants, op: byte): nat
  {
    if op == p.ack then p.ackLength
    else if op == p.ready then p.readyLength
    else if op == p.nack then p.nackLength
    else 0
  }

  /** A collected frame the ping accepts: a known opcode, exactly that opcode's length, ETX at
      `FRAME_ETX_END_POS` from the end, and ACK or READY at `FRAME_OP_POS`. An accepted frame
      has one of the three fixed response lengths and never NACK at the opcode position. */
  predicate FrameAccepted(p: Constants, frame: seq<byte>): (accepted: bool)
    requires p.Valid()
    ensures accepted ==> |frame| == p.ackLength || |frame| == p.readyLength || |frame| == p.nackLength
    ensures accepted ==> frame[p.opPos] != p.nack
  {
    && |frame| >= 2 && KnownOpcode(p, frame[1])
    && |frame| == PingLength(p, frame[1])
    && frame[|frame| - p.etxEndPos] == p.etx
    && (frame[p.opPos] == p.ack || frame[p.opPos] == p.ready)
  }

  /** The device answered the ping: the port did not fail, and the bytes collected from the first
      STX until the line went quiet form an accepted frame. An accepted ping has received STX
      and at least two bytes before the line went quiet. */
  predicate PingAccepts(p: Constants, polls: seq<Poll>, zeroIsSilence: bool): (accepted: bool)
    requires p.Valid()
    ensures accepted ==> p.stx in Received(polls, zeroIsSilence) && |Received(polls, zeroIsSilence)| >= 2
  {
    var received := Received(polls, zeroIsSilence);
    FromFirstStxIsSuffixAtFirstStx(p.stx, received);
    !ReadFails(polls, zeroIsSilence) && FrameAccepted(p, FromFirstStx(p.stx, received))
  }

  /** `ping_module` after the empty read request is written: collect bytes from the first STX
      until the line goes quiet (or a zero byte arrives), give up at once on an unknown opcode,
      then require the exact length, ETX and an ACK or READY opcode. The end of the polls is
      the line going quiet. */
  method PingModule(p: Constants, polls: seq<Poll>) returns (ok: bool)
    requires p.Valid()
    ensures ok == PingAccepts(p, polls, true)
  {
    var foundFrame := false;
    var responseBytes: seq<byte> := [];
    var count := 0;
    var expectedLength := 0;
    ghost var seen: seq<byte> := [];
    var i := 0;
    while i < |polls|
      invariant 0 <= i <= |polls|
      invariant Received(polls, true) == seen + Received(polls[i..], true)
      invariant ReadFails(polls, true) == ReadFails(polls[i..], true)
      invariant responseBytes == FromFirstStx(p.stx, seen)
      invariant foundFrame <==> responseBytes != []
      invariant count == |responseBytes|
      invariant |responseBytes| >= 2 ==>
        KnownOpcode(p, responseBytes[1]) && expectedLength == PingLength(p, responseBytes[1])
      invariant |responseBytes| < 2 ==> expectedLength == 0
    {
      var poll := polls[i];
      if !IsData(poll, true) {
        break;  // no byte (or a zero byte), or the port failed
      }
      var b := poll.value;
      ReadOneByte(polls, i, seen, true);
      FromFirstStxConcat(p.stx, seen, [b]);
      seen := seen + [b];
      if b == p.stx {
        foundFrame := true;
      }
      if foundFrame {
        responseBytes := responseBytes + [b];
        count := count + 1;
        if count == 2 {
          if b == p.ack {
            expectedLength := p.ackLength;
          } else if b == p.ready {
            expectedLength := p.readyLength;
          } else if b == p.nack {
            expectedLength := p.nackLength;
          } else {
            UnknownOpcodeRejected(p, polls, seen, Received(polls[i + 1..], true));
            return false;
          }
        }
      }
      i := i + 1;
    }
    ReceptionEnds(polls, i, seen, true);
    if i < |polls| && polls[i].PortError? {
      return false;
    }
    FinalCheck(p, responseBytes, expectedLength);

    // Exactly the expected length, with ETX in place.
    ok := false;
    if expectedLength > 0 && |responseBytes| == expectedLength
       && responseBytes[|responseBytes| - p.etxEndPos] == p.etx
    {
      if responseBytes[p.opPos] == p.ack || responseBytes[p.opPos] == p.ready {
        ok := true;
      } else if responseBytes[p.opPos] == p.nack {
        ok := false;
      }
    }
    // Otherwise (too many bytes and still no ETX, or the one-second check) the answer is False.
  }

  /** The checks after reception, on the collected bytes and the length fixed by their opcode,
      accept exactly the frames `FrameAccepted` describes. */
  lemma FinalCheck(p: Constants, frame: seq<byte>, expectedLength: nat)
    requires p.Valid()
    requires |frame| >= 2 ==> KnownOpcode(p, frame[1]) && expectedLength == PingLength(p, frame[1])
    requires |frame| < 2 ==> expectedLength == 0
    ensures FrameAccepted(p, frame) <==>
      && expectedLength > 0 && |frame| == expectedLength
      && frame[|frame| - p.etxEndPos] == p.etx
      && (frame[p.opPos] == p.ack || frame[p.opPos] == p.ready)
  {
  }

  /** Once the bytes collected so far show an unknown opcode, the ping cannot be answered,
      whatever is still to come. */
  lemma UnknownOpcodeRejected(p: Constants, polls: seq<Poll>, seen: seq<byte>, more: seq<byte>)
    requires p.Valid()
    requires Received(polls, true) == seen + more
    requires var f := FromFirstStx(p.stx, seen); |f| >= 2 && !KnownOpcode(p, f[1])
    ensures !PingAccepts(p, polls, true)
  {
    FromFirstStxConcat(p.stx, seen, more);
    assert FromFirstStx(p.stx, seen + more)[1] == FromFirstStx(p.stx, seen)[1];
  }

  /** One kept byte moves from the polls still to read to the bytes collected. */
  lemma ReadOneByte(polls: seq<Poll>, i: nat, seen: seq<byte>, zeroIsSilence: bool)
    requires i < |polls| && IsData(polls[i], zeroIsSilence)
    requires Received(polls, zeroIsSilence) == seen + Received(polls[i..], zeroIsSilence)
    requires ReadFails(polls, zeroIsSilence) == ReadFails(polls[i..], zeroIsSilence)
    ensures Received(polls, zeroIsSilence) == (seen + [polls[i].value]) + Received(polls[i + 1..], zeroIsSilence)
    ensures ReadFails(polls, zeroIsSilence) == ReadFails(polls[i + 1..], zeroIsSilence)
  {
    assert polls[i..][0] == polls[i] && polls[i..][1..] == polls[i + 1..];
  }

  /** Reception ends at a poll that brings no kept byte (or at the end of the polls): the bytes
      collected so far are all there is, and the port failed only if that poll is an error. */
  lemma ReceptionEnds(polls: seq<Poll>, i: nat, seen: seq<byte>, zeroIsSilence: bool)
    requires i <= |polls| && (i < |polls| ==> !IsData(polls[i], zeroIsSilence))
    requires Received(polls, zeroIsSilence) == seen + Received(polls[i..], zeroIsSilence)
    requires ReadFails(polls, zeroIsSilence) == ReadFails(polls[i..], zeroIsSilence)
    ensures Received(polls, zeroIsSilence) == seen
    ensures ReadFails(polls, zeroIsSilence) == (i < |polls| && polls[i].PortError?)
  {
    assert seen + [] == seen;
  }

  /** The ping stops listening at the first empty read (or, as written, zero byte): nothing after
      it matters, and ending the polls there gives the same answer. */
  lemma PingStopsAtQuiet(p: Constants, before: seq<Poll>, quiet: Poll, after: seq<Poll>, zeroIsSilence: bool)
    requires p.Valid()
    requires forall i :: 0 <= i < |before| ==> IsData(before[i], zeroIsSilence)
    requires quiet.Silent? || (zeroIsSilence && quiet == Byte(0))
    ensures PingAccepts(p, before + [quiet] + after, zeroIsSilence) == PingAccepts(p, before, zeroIsSilence)
  {
    QuietSuffix(before, quiet, after, zeroIsSilence);
  }

  lemma {:induction false} QuietSuffix(before: seq<Poll>, quiet: Poll, after: seq<Poll>, zeroIsSilence: bool)
    requires forall i :: 0 <= i < |before| ==> IsData(before[i], zeroIsSilence)
    requires quiet.Silent? || (zeroIsSilence && quiet == Byte(0))
    ensures Received(before + [quiet] + after, zeroIsSilence) == Received(before, zeroIsSilence)
    ensures ReadFails(before + [quiet] + after, zeroIsSilence) == ReadFails(before, zeroIsSilence)
    decreases |before|
  {
    var all := before + [quiet] + after;
    if before == [] {
      assert all[0] == quiet;
    } else {
      assert all[0] == before[0];
      assert all[1..] == before[1..] + [quiet] + after;
      QuietSuffix(before[1..], quiet, after, zeroIsSilence);
    }
  }

  lemma {:induction false} AsPollsConcat(s: seq<byte>, t: seq<byte>)
    ensures AsPolls(s + t) == AsPolls(s) + AsPolls(t)
  {
    if s != [] {
      assert (s + t)[1..] == s[1..] + t;
      AsPollsConcat(s[1..], t);
    } else {
      assert s + t == t;
    }
  }

  /** Bytes the ping keeps are all collected, and the port is not read as failing on them. */
  lemma {:induction false} ReceiveBytes(s: seq<byte>, tail: seq<Poll>, zeroIsSilence: bool)
    requires zeroIsSilence ==> 0 !in s
    ensures Received(AsPolls(s) + tail, zeroIsSilence) == s + Received(tail, zeroIsSilence)
    ensures ReadFails(AsPolls(s) + tail, zeroIsSilence) == ReadFails(tail, zeroIsSilence)
  {
    var all := AsPolls(s) + tail;
    if s == [] {
      assert all == tail;
    } else {
      assert all[0] == Byte(s[0]);
      assert all[1..] == AsPolls(s[1..]) + tail;
      ReceiveBytes(s[1..], tail, zeroIsSilence);
      assert s == [s[0]] + s[1..];
    }
  }

  /** As written, a zero byte ends reception early: what is collected is a proper prefix of the
      bytes sent, and the port is not read as failing. */
  lemma {:induction false} ZeroByteCutsReception(s: seq<byte>, tail: seq<Poll>)
    requires 0 in s
    ensures var r := Received(AsPolls(s) + tail, true);
      |r| < |s| && r == s[..|r|]
    ensures !ReadFails(AsPolls(s) + tail, true)
  {
    var all := AsPolls(s) + tail;
    assert all[0] == Byte(s[0]);
    if s[0] != 0 {
      assert all[1..] == AsPolls(s[1..]) + tail;
      ZeroByteCutsReception(s[1..], tail);
    }
  }

  lemma {:induction false} NoStxNoFrame(stx: byte, s: seq<byte>)
    requires stx !in s
    ensures FromFirstStx(stx, s) == []
  {
    if s != [] {
      NoStxNoFrame(stx, s[1..]);
    }
  }

  /** A frame sent after line noise and followed by a quiet read is answered exactly as that
      frame itself deserves, provided (as written) that no zero byte is among the bytes sent;
      with the intended reception test this holds for every frame. */
  lemma PingRecognisesFrameAfterNoise(p: Constants, noise: seq<byte>, frame: seq<byte>, t: nat,
                                      rest: seq<Poll>, zeroIsSilence: bool)
    requires p.Valid()
    requires p.stx !in noise && frame != [] && frame[0] == p.stx
    requires zeroIsSilence ==> 0 !in noise && 0 !in frame
    ensures PingAccepts(p, AsPolls(noise) + AsPolls(frame) + [Silent(t)] + rest, zeroIsSilence)
         == FrameAccepted(p, frame)
  {
    AsPollsConcat(noise, frame);
    assert AsPolls(noise) + AsPolls(frame) + [Silent(t)] + rest == AsPolls(noise + frame) + ([Silent(t)] + rest);
    ReceiveBytes(noise + frame, [Silent(t)] + rest, zeroIsSilence);
    assert ([Silent(t)] + rest)[0] == Silent(t);
    assert noise + frame + [] == noise + frame;
    NoStxNoFrame(p.stx, noise);
    FromFirstStxConcat(p.stx, noise, frame);
  }

  /** The reception test as written rejects a well-formed response that contains a 0x00 byte
      (an empty length field, say), which the intended test accepts. */
  lemma PingRejectsFrameWithZeroByte(p: Constants, frame: seq<byte>, t: nat)
    requires p.Valid()
    requires frame != [] && frame[0] == p.stx && FrameAccepted(p, frame) && 0 in frame
    ensures !PingAccepts(p, AsPolls(frame) + [Silent(t)], true)
    ensures PingAccepts(p, AsPolls(frame) + [Silent(t)], false)
  {
    ZeroByteCutsReception(frame, [Silent(t)]);
    TruncatedFrameRejected(p, frame, Received(AsPolls(frame) + [Silent(t)], true));
    PingRecognisesFrameAfterNoise(p, [], frame, t, [], false);
    assert AsPolls([]) + AsPolls(frame) + [Silent(t)] + [] == AsPolls(frame) + [Silent(t)];
  }

  /** A proper prefix of an accepted frame is never accepted: its length falls short. */
  lemma TruncatedFrameRejected(p: Constants, frame: seq<byte>, r: seq<byte>)
    requires p.Valid()
    requires frame != [] && frame[0] == p.stx && FrameAccepted(p, frame)
    requires |r| < |frame| && r == frame[..|r|]
    ensures !FrameAccepted(p, FromFirstStx(p.stx, r))
  {
    if r != [] {
      assert r[0] == frame[0];
      if |r| >= 2 {
        assert r[1] == frame[1];
      }
    }
  }

  /** The empty-read answer `[STX, ACK, 0x00, 0x00, ETX]` (a zero length field) as an instance:
      when ACK_LENGTH is 5, ETX is last and the opcode is at index 1, the ping as written rejects
      it and the intended reception test accepts it. */
  lemma PingRejectsEmptyAck(p: Constants, t: nat)
    requires p.Valid() && p.ackLength == 5 && p.etxEndPos == 1 && p.opPos == 1
    ensures !PingAccepts(p, AsPolls([p.stx, p.ack, 0, 0, p.etx]) + [Silent(t)], true)
    ensures PingAccepts(p, AsPolls([p.stx, p.ack, 0, 0, p.etx]) + [Silent(t)], false)
  {
    var frame: seq<byte> := [p.stx, p.ack, 0, 0, p.etx];
    assert frame[2] == 0;
    PingRejectsFrameWithZeroByte(p, frame, t);
  }
}
