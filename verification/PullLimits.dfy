/** Where the pull's guarantees stop: inputs for which the stronger claims are false. */
module PullLimits {
  import opened Bytes
  import opened Results
  import opened Crc16
  import opened CrcRepair
  import opened PumpClient
  import opened ProfilePull
  import opened EndToEnd
  import NcsProtocol
  import PumpProtocol

  /**
   Three flipped bits, all in the CRC of a perfectly good reply, are repaired into wrong data: the frame passes, comes
   from the right pump, is GOOD and has the size asked for. This is so for every reply, not for some unlucky one.
   */
  lemma ThreeFlipsAccepted(addr: address, data: Bytes, count: nat) returns (damaged: Bytes, wrong: Bytes)
    requires addr < 256 && count >= 1 && |data| == count * WORD_LEN
    requires PumpProtocol.MIN_FRAME_LEN + |data| <= MAX_UNIQUE_LEN
    ensures var frame := PumpProtocol.Frame(addr, PumpProtocol.GOOD, data);
      var n := |frame|;
      damaged == FlipAll(frame, [Position(n - 1, 7), Position(n - 1, 5), Position(n - 2, 0)])
    ensures RepairOf(damaged, addr, count) ==
            Some((Position(PumpProtocol.FRAME_HEADER_LEN + |data| - 1, 7), wrong))
    ensures |wrong| == |data| && wrong != data
  {
    hide IsValid, Flip, FlipAll, Repairs, PumpProtocol.Frame, PumpProtocol.ParseFrame;
    var frame := PumpProtocol.Frame(addr, PumpProtocol.GOOD, data);
    var n := |frame|;
    FrameIsValid(addr, data);
    var p;
    damaged, p := ThreeFlipsMiscorrected(frame);
    var repaired := Flip(damaged, p);
    RepairsExactly(damaged, p);
    forall i: nat | i < n - 3
      ensures repaired[i] == frame[i]
    {
      UntouchedByte(frame, damaged, i);
      FlippedByte(damaged, p, i);
    }
    UntouchedByte(frame, damaged, n - 3);
    FlippedByte(damaged, p, n - 3);
    SameHeaderParses(addr, data, repaired);
    wrong := repaired[PumpProtocol.FRAME_HEADER_LEN..n - CRC_LEN];
    DataOfFrame(addr, data);
    assert wrong[|data| - 1] == repaired[n - 3];
    assert data[|data| - 1] == frame[n - 3];
  }

  lemma FrameIsValid(addr: address, data: Bytes)
    requires PumpProtocol.Framable(addr, PumpProtocol.GOOD, data)
    ensures IsValid(PumpProtocol.Frame(addr, PumpProtocol.GOOD, data))
  {
    hide AppendCrc, PumpProtocol.Header;
    AppendedCrcIsValid(PumpProtocol.Header(addr, PumpProtocol.GOOD, PumpProtocol.MIN_FRAME_LEN + |data|) + data);
  }

  lemma DataOfFrame(addr: address, data: Bytes)
    requires PumpProtocol.Framable(addr, PumpProtocol.GOOD, data)
    ensures var frame := PumpProtocol.Frame(addr, PumpProtocol.GOOD, data);
      frame[PumpProtocol.FRAME_HEADER_LEN..|frame| - CRC_LEN] == data
  {}

  /** The three flips are all in the two CRC bytes. */
  lemma UntouchedByte(frame: Bytes, damaged: Bytes, i: nat)
    requires |frame| >= 3 && i <= |frame| - 3
    requires damaged == FlipAll(frame, [Position(|frame| - 1, 7), Position(|frame| - 1, 5), Position(|frame| - 2, 0)])
    ensures |damaged| == |frame| && damaged[i] == frame[i]
  {
    hide Flip, FlipAll;
    var n := |frame|;
    var a, b, c := Position(n - 1, 7), Position(n - 1, 5), Position(n - 2, 0);
    ThreeFlips(frame, a, b, c);
    var x := Flip(frame, a);
    var y := Flip(x, b);
    FlippedByte(frame, a, i);
    FlippedByte(x, b, i);
    FlippedByte(y, c, i);
  }

  lemma SameHeaderParses(addr: address, data: Bytes, frame: Bytes)
    requires PumpProtocol.Framable(addr, PumpProtocol.GOOD, data) && IsValid(frame)
    requires |frame| == PumpProtocol.MIN_FRAME_LEN + |data|
    requires frame[..PumpProtocol.FRAME_HEADER_LEN] ==
             PumpProtocol.Frame(addr, PumpProtocol.GOOD, data)[..PumpProtocol.FRAME_HEADER_LEN]
    ensures PumpProtocol.ParseFrame(frame, addr) ==
            Ok(PumpProtocol.Response(frame, addr, PumpProtocol.GOOD,
                                     frame[PumpProtocol.FRAME_HEADER_LEN..|frame| - CRC_LEN]))
  {
    hide IsValid, PumpProtocol.Frame, UnpackWord, PackWord, ToByte;
    var good := PumpProtocol.Frame(addr, PumpProtocol.GOOD, data);
    PumpProtocol.FramedBytes(addr, PumpProtocol.GOOD, data);
    ByteValue(addr);
    ByteValue(PumpProtocol.GOOD);
    UnpackPacked(|frame|);
    var h := PumpProtocol.FRAME_HEADER_LEN;
    assert frame[0] == frame[..h][0] == good[..h][0] == good[0];
    assert frame[1] == frame[..h][1] == good[..h][1] == good[1];
    assert frame[2] == frame[..h][2] == good[..h][2] == good[2];
    assert frame[3] == frame[..h][3] == good[..h][3] == good[3];
  }

  // ----- replies that are not whole words

  function GoodPacket(addr: address, data: Bytes): Exchange
    requires addr < 256 && |data| <= 100
  {
    Received(NcsProtocol.Packet(NcsProtocol.NO_ERR, PumpProtocol.Frame(addr, PumpProtocol.GOOD, data)))
  }

  lemma GoodPacketRead(addr: address, data: Bytes)
    requires addr < 256 && |data| <= 100
    ensures ReadData(GoodPacket(addr, data), addr) == Ok(data)
  {
    hide PumpProtocol.Frame, PumpProtocol.ParseFrame, NcsProtocol.ParseResponse, NcsProtocol.Packet;
    PumpProtocol.ParseFramed(addr, PumpProtocol.GOOD, data);
    NcsProtocol.ParsePacket(NcsProtocol.NO_ERR, PumpProtocol.Frame(addr, PumpProtocol.GOOD, data));
  }

  /** A pump that answers the first request with three bytes, and every later one with these. */
  function OddWire(addr: address, later: Bytes): Wire
    requires |later| <= 100
  {
    (n: nat, frame: Bytes) => if n == 0 then GoodPacket(addr, [1, 2, 3]) else GoodPacket(addr, later)
  }

  lemma ReceivedAtOnce(wire: Wire, n: nat, q: TraceRequest, addr: address)
    requires ReadData(Ask(wire, n, q, addr), addr).Ok?
    ensures ChunkRun(wire, n, q, addr) ==
            (NewLog(q.start, q.count).(attempts := 1), Got(ReadData(Ask(wire, n, q, addr), addr).value))
  {}

  /**
   A witness: every reply here is true bytes of the two-word trace 1 2 3 4, from the byte asked for on, but the first
   has an odd length. The pull goes on, and repeats a byte.
   */
  lemma OddReplyMisaligns(addr: address)
    ensures SliceFrom([1, 2, 3], [1, 2, 3, 4], 0) && SliceFrom([3, 4], [1, 2, 3, 4], 1)
    ensures Pull(OddWire(addr, [3, 4]), addr, 7, 0, 2, 0).data == [1, 2, 3, 3, 4]
  {
    hide ReadData, ChunkRun, GoodPacket, PullFrom;
    var wire := OddWire(addr, [3, 4]);
    var t := AfterOddReply(addr, [3, 4]);
    GoodPacketRead(addr, [3, 4]);
    ReceivedAtOnce(wire, 1, ChunkRequest(7, 0, 1, 2), addr);
    PullStep(wire, addr, 7, 0, 2, 1, t);
    PullEnd(wire, addr, 7, 0, 2, 2, PullLog(t.data + [3, 4], t.chunks + [NewLog(1, 1).(attempts := 1)], 2, false));
  }

  /** And worse: with a second odd reply the pull has just as many bytes as it should, so it counts as complete. */
  lemma OddRepliesComplete(addr: address)
    ensures SliceFrom([1, 2, 3], [1, 2, 3, 4], 0) && SliceFrom([3], [1, 2, 3, 4], 1)
    ensures Pull(OddWire(addr, [3]), addr, 7, 0, 2, 0).data == [1, 2, 3, 3]
  {
    hide ReadData, ChunkRun, GoodPacket, PullFrom;
    var wire := OddWire(addr, [3]);
    var t := AfterOddReply(addr, [3]);
    GoodPacketRead(addr, [3]);
    ReceivedAtOnce(wire, 1, ChunkRequest(7, 0, 1, 2), addr);
    PullStep(wire, addr, 7, 0, 2, 1, t);
  }

  lemma AfterOddReply(addr: address, later: Bytes) returns (t: PullLog)
    requires |later| <= 100
    ensures t.data == [1, 2, 3] && t.requests == 1
    ensures Pull(OddWire(addr, later), addr, 7, 0, 2, 0) == PullFrom(OddWire(addr, later), addr, 7, 0, 2, 1, t)
  {
    hide ReadData, ChunkRun, GoodPacket, PullFrom;
    var wire := OddWire(addr, later);
    GoodPacketRead(addr, [1, 2, 3]);
    ReceivedAtOnce(wire, 0, ChunkRequest(7, 0, 0, 2), addr);
    PullStep(wire, addr, 7, 0, 2, 0, PullLog([], [], 0, false));
    t := PullLog([] + [1, 2, 3], [] + [NewLog(0, 2).(attempts := 1)], 1, false);
  }

  // ----- more than two flips

  /** Damage by up to k flips is never taken for anything but the frame that was sent. */
  ghost predicate TrustedUpTo(frame: Bytes, k: nat) {
    forall ps :: |ps| <= k && AllInFrame(ps, |frame|) ==> NeverMistaken(frame, ps)
  }

  ghost predicate AllInFrame(ps: seq<Position>, length: nat) {
    forall p <- ps :: InFrame(p, length)
  }

  ghost predicate NeverMistaken(frame: Bytes, ps: seq<Position>)
    requires AllInFrame(ps, |frame|)
  {
    var damaged := FlipAll(frame, ps);
    && (IsValid(damaged) ==> damaged == frame)
    && (forall p :: Repairs(damaged) == [p] ==> InFrame(p, |frame|) && Flip(damaged, p) == frame)
  }

  /**
   Exactly how much damage the check and the repair can be trusted with: two flipped bits in a frame of at most 4095
   bytes, one in a longer frame, and never more.
   */
  lemma TrustedExactly(frame: Bytes, k: nat)
    requires IsValid(frame) && |frame| >= 3
    ensures TrustedUpTo(frame, k) <==> k <= if |frame| <= MAX_UNIQUE_LEN then 2 else 1
  {
    hide IsValid, Repairs, Flip, FlipAll;
    if |frame| <= MAX_UNIQUE_LEN {
      if k <= 2 {
        forall ps | |ps| <= k && AllInFrame(ps, |frame|)
          ensures NeverMistaken(frame, ps)
        {
          TwoFlipsAreTrusted(frame, ps);
        }
      } else {
        var damaged, wrong := ThreeFlipsMiscorrected(frame);
        var n := |frame|;
        var ps := [Position(n - 1, 7), Position(n - 1, 5), Position(n - 2, 0)];
        assert AllInFrame(ps, n) && !NeverMistaken(frame, ps);
      }
    } else if k <= 1 {
      forall ps | |ps| <= k && AllInFrame(ps, |frame|)
        ensures NeverMistaken(frame, ps)
      {
        OneFlipIsTrusted(frame, ps);
      }
    } else {
      var p, q := LongFramesAmbiguous(frame);
      BothFlips(frame, p, q);
      assert AllInFrame([p, q], |frame|) && !NeverMistaken(frame, [p, q]);
    }
  }

  lemma TwoFlipsAreTrusted(frame: Bytes, ps: seq<Position>)
    requires IsValid(frame) && |frame| <= MAX_UNIQUE_LEN && |ps| <= 2 && AllInFrame(ps, |frame|)
    ensures NeverMistaken(frame, ps)
  {
    hide IsValid, Repairs, Flip, FlipAll;
    if IsValid(FlipAll(frame, ps)) {
      PassingNoiseIsTrue(frame, ps);
    }
    forall p | Repairs(FlipAll(frame, ps)) == [p]
      ensures InFrame(p, |frame|) && Flip(FlipAll(frame, ps), p) == frame
    {
      RepairedNoiseIsTrue(frame, ps, p);
    }
  }

  lemma OneFlipIsTrusted(frame: Bytes, ps: seq<Position>)
    requires IsValid(frame) && |ps| <= 1 && AllInFrame(ps, |frame|)
    ensures NeverMistaken(frame, ps)
  {
    hide IsValid, Repairs, Flip, FlipAll;
    if ps == [] {
      NoFlips(frame);
      ValidNeedsNoRepair(frame);
    } else {
      var p := ps[0];
      assert ps == [p];
      OneFlip(frame, p);
      OddDamageDetected(frame, ps);
      RepairsExactly(Flip(frame, p), p);
      FlipTwice(frame, p);
      assert p in Repairs(Flip(frame, p));
    }
  }
}
