/** On a bus that flips at most two bits of a reply, everything a pull assembles is what the pump holds. */
module EndToEnd {
  import opened Bytes
  import opened Results
  import opened Crc16
  import opened CrcRepair
  import opened PumpClient
  import opened ProfilePull
  import opened PullAlignment
  import NcsProtocol
  import PumpProtocol

  // ----- an honest pump behind a noisy bus

  /** `data` is the trace's own bytes from word `start` on: any number of them, fewer than asked for or more. */
  ghost predicate SliceFrom(data: Bytes, truth: Bytes, start: nat) {
    && WORD_LEN * start + |data| <= |truth|
    && data == truth[WORD_LEN * start..WORD_LEN * start + |data|]
  }

  /** A frame the pump really sent: it passes its check, and if it is GOOD its data answers the request. */
  ghost predicate TrueReply(frame: Bytes, addr: address, truth: Bytes, start: nat) {
    && IsValid(frame)
    && forall r :: PumpProtocol.ParseFrame(frame, addr) == Ok(r) && r.rc == PumpProtocol.GOOD ==>
         SliceFrom(r.data, truth, start)
  }

  /** A body that is a true reply with no bit, one bit or two bits flipped. */
  ghost predicate Noisy(body: Bytes, addr: address, truth: Bytes, start: nat) {
    exists frame, ps :: IsNoise(body, frame, ps, addr, truth, start)
  }

  ghost predicate IsNoise(body: Bytes, frame: Bytes, ps: seq<Position>, addr: address, truth: Bytes, start: nat) {
    && TrueReply(frame, addr, truth, start)
    && |ps| <= 2 && (forall p <- ps :: InFrame(p, |frame|))
    && body == FlipAll(frame, ps)
  }

  /** Anything the gateway can come back with: nothing, nonsense, an empty body, or a noisy reply. */
  ghost predicate Honest(x: Exchange, addr: address, truth: Bytes, start: nat) {
    match x
    case Lost => true
    case Received(raw) =>
      match NcsProtocol.ParseResponse(raw)
      case Err(_) => true
      case Ok(reply) => reply.body == [] || Noisy(reply.body, addr, truth, start)
  }

  ghost predicate HonestWire(wire: Wire, addr: address, cycle: long, trace: word, truth: Bytes) {
    forall n: nat, q: TraceRequest :: q.cycle == cycle && q.trace == trace ==>
      Honest(Ask(wire, n, q, addr), addr, truth, q.start)
  }

  // ----- two flips are never taken for the truth

  /** A noisy body that passes its check is the true reply itself. */
  lemma PassingNoiseIsTrue(frame: Bytes, ps: seq<Position>)
    requires IsValid(frame) && |frame| <= MAX_UNIQUE_LEN && |ps| <= 2 && (forall p <- ps :: InFrame(p, |frame|))
    requires IsValid(FlipAll(frame, ps))
    ensures FlipAll(frame, ps) == frame
  {
    hide IsValid, Flip, FlipAll;
    if |ps| == 0 {
      NoFlips(frame);
    } else if |ps| == 1 {
      OddDamageDetected(frame, ps);
    } else {
      assert ps == [ps[0], ps[1]];
      BothFlips(frame, ps[0], ps[1]);
      if ps[0] == ps[1] {
        FlipTwice(frame, ps[0]);
      } else {
        DoubleDamageDetected(frame, ps[0], ps[1]);
      }
    }
  }

  /** A noisy body with a single repairing bit is repaired into the true reply. */
  lemma RepairedNoiseIsTrue(frame: Bytes, ps: seq<Position>, p: Position)
    requires IsValid(frame) && |frame| <= MAX_UNIQUE_LEN && |ps| <= 2 && (forall p <- ps :: InFrame(p, |frame|))
    requires Repairs(FlipAll(frame, ps)) == [p]
    ensures InFrame(p, |frame|) && Flip(FlipAll(frame, ps), p) == frame
  {
    hide IsValid, Flip, FlipAll, Repairs;
    if |ps| == 1 {
      assert ps == [ps[0]];
      OneFlip(frame, ps[0]);
      UniqueRepair(frame, ps[0]);
    } else {
      EvenDamageNotRepaired(frame, ps);
    }
  }

  lemma ReadDataIsTrue(x: Exchange, addr: address, truth: Bytes, start: nat)
    requires Honest(x, addr, truth, start) && ReadData(x, addr).Ok?
    ensures SliceFrom(ReadData(x, addr).value, truth, start)
  {
    hide IsValid, FlipAll, ReadData, SliceFrom, NcsProtocol.ParseResponse;
    ReadDataMeans(x, addr);
    var data := ReadData(x, addr).value;
    var body := NcsProtocol.ParseResponse(x.raw).value.body;
    ParsedBodyLength(x.raw);
    ParsedIsValid(body, addr);
    var frame, ps :| IsNoise(body, frame, ps, addr, truth, start);
    PassingNoiseIsTrue(frame, ps);
  }

  lemma ParsedBodyLength(raw: Bytes)
    requires NcsProtocol.ParseResponse(raw).Ok?
    ensures |NcsProtocol.ParseResponse(raw).value.body| <= MAX_UNIQUE_LEN
  {}

  lemma ParsedIsValid(body: Bytes, addr: address)
    requires PumpProtocol.ParseFrame(body, addr).Ok?
    ensures body != [] && IsValid(body)
  {}

  /** Every bad reply kept is a noisy one, short enough for its repair to be unique. */
  ghost predicate NoisyReplies(bad: seq<BadReply>, addr: address, truth: Bytes, start: nat) {
    forall i :: 0 <= i < |bad| ==> Noisy(bad[i].frame, addr, truth, start) && |bad[i].frame| <= MAX_UNIQUE_LEN
  }

  lemma KeptBodyIsNoisy(x: Exchange, addr: address, truth: Bytes, start: nat)
    requires Honest(x, addr, truth, start) && ReadData(x, addr).Err?
    ensures var body := KeptBody(ReadData(x, addr).error);
      body != [] ==> Noisy(body, addr, truth, start) && |body| <= MAX_UNIQUE_LEN
  {}

  lemma RepairOfIsTrue(body: Bytes, addr: address, truth: Bytes, start: nat, count: nat)
    requires Noisy(body, addr, truth, start) && |body| <= MAX_UNIQUE_LEN && RepairOf(body, addr, count).Some?
    ensures SliceFrom(RepairOf(body, addr, count).value.1, truth, start)
  {
    hide IsValid, Flip, FlipAll, Repairs, SliceFrom, PumpProtocol.ParseFrame;
    var frame, ps :| IsNoise(body, frame, ps, addr, truth, start);
    var found := Repairs(body);
    assert found == [found[0]];
    RepairedNoiseIsTrue(frame, ps, found[0]);
  }

  lemma {:induction false} FirstRepairIsTrue(bad: seq<BadReply>, addr: address, truth: Bytes, start: nat, count: nat)
    requires NoisyReplies(bad, addr, truth, start)
    ensures FirstRepair(bad, addr, count).Some? ==> SliceFrom(FirstRepair(bad, addr, count).value.1, truth, start)
  {
    hide RepairOf, Noisy, SliceFrom;
    if bad != [] {
      if RepairOf(bad[0].frame, addr, count).Some? {
        RepairOfIsTrue(bad[0].frame, addr, truth, start, count);
      } else {
        FirstRepairIsTrue(bad[1..], addr, truth, start, count);
      }
    }
  }

  lemma {:induction false} AttemptsAreTrue(wire: Wire, n: nat, q: TraceRequest, addr: address, log: ChunkLog,
                                           truth: Bytes)
    requires log.attempts <= MAX_RETRIES && NoisyReplies(log.badReplies, addr, truth, q.start)
    requires HonestWire(wire, addr, q.cycle, q.trace, truth)
    ensures var (after, outcome) := RunAttempts(wire, n, q, addr, log);
      && NoisyReplies(after.badReplies, addr, truth, q.start)
      && (outcome.Got? ==> SliceFrom(outcome.data, truth, q.start))
    decreases MAX_RETRIES - log.attempts
  {
    hide Honest, ReadData, Noisy, SliceFrom, KeptBody;
    var x := Ask(wire, n, q, addr);
    assert Honest(x, addr, truth, q.start);
    if ReadData(x, addr).Ok? {
      ReadDataIsTrue(x, addr, truth, q.start);
    } else {
      var f := ReadData(x, addr).error;
      KeptBodyIsNoisy(x, addr, truth, q.start);
      if !f.Unreachable? {
        var next := AfterFailure(log, f);
        assert NoisyReplies(next.badReplies, addr, truth, q.start);
        if next.attempts <= MAX_RETRIES && ShouldRetry(f) {
          AttemptsAreTrue(wire, n + 1, q, addr, next, truth);
        }
      }
    }
  }

  /** Whatever was retried and repaired, a chunk that was had is true trace data. */
  lemma ChunkIsTrue(wire: Wire, n: nat, q: TraceRequest, addr: address, truth: Bytes)
    requires HonestWire(wire, addr, q.cycle, q.trace, truth)
    ensures var (log, outcome) := ChunkRun(wire, n, q, addr);
      outcome.Got? ==> SliceFrom(outcome.data, truth, q.start)
  {
    hide HonestWire, Noisy, SliceFrom, RepairOf, RunAttempts;
    var start := NewLog(q.start, q.count);
    AttemptsAreTrue(wire, n, q, addr, start, truth);
    var (log, outcome) := RunAttempts(wire, n, q, addr, start);
    RunKeepsCount(wire, n, q, addr, start);
    if outcome.Missing? && FirstRepair(log.badReplies, addr, log.count).Some? {
      FirstRepairIsTrue(log.badReplies, addr, truth, q.start, log.count);
    }
  }

  lemma RunKeepsCount(wire: Wire, n: nat, q: TraceRequest, addr: address, log: ChunkLog)
    requires log.attempts <= MAX_RETRIES
    ensures RunAttempts(wire, n, q, addr, log).0.count == log.count
    decreases MAX_RETRIES - log.attempts
  {
    hide ReadData;
  }

  // ----- the whole trace

  /** A chunk that was had starts where the trace's words it stands for start, and the next one ends it. */
  lemma SliceExtends(data: Bytes, chunk: Bytes, truth: Bytes, start: nat)
    requires WORD_LEN * start <= |truth| && data == truth[..WORD_LEN * start] && SliceFrom(chunk, truth, start)
    ensures |data + chunk| <= |truth| && data + chunk == truth[..|data + chunk|]
  {}

  /** Every chunk had is the trace's own bytes from the word it was asked from. */
  lemma {:induction false} ReceivedIsTrue(wire: Wire, addr: address, cycle: long, trace: word, expected: long,
                                          start: nat, n: nat, truth: Bytes, i: nat)
    requires HonestWire(wire, addr, cycle, trace, truth)
    ensures var received := ChunksHad(wire, addr, cycle, trace, expected, start, n);
      i < |received| ==> SliceFrom(received[i], truth, start + WordsIn(received[..i]))
    decreases expected - start
  {
    hide ChunkRun, HonestWire, SliceFrom, WordsIn;
    var received := ChunksHad(wire, addr, cycle, trace, expected, start, n);
    if start < expected && i < |received| {
      var q := ChunkRequest(cycle, trace, start, expected);
      ChunkIsTrue(wire, n, q, addr, truth);
      NoWords();
      if i == 0 {
        assert received[..0] == [];
      } else {
        var (log, outcome) := ChunkRun(wire, n, q, addr);
        var words := |outcome.data| / WORD_LEN;
        ReceivedIsTrue(wire, addr, cycle, trace, expected, start + words, n + log.attempts, truth, i - 1);
        WordsAfterFirst(received[..i]);
        assert received[..i][1..] == received[1..][..i - 1];
      }
    }
  }

  /**
   With at most two flipped bits in any reply, any replies lost or refused, and replies of any length: if every chunk
   had but the last was whole words, the bytes assembled are the trace's own from its beginning on.
   */
  lemma PulledDataIsTrue(wire: Wire, addr: address, cycle: long, trace: word, expected: long, truth: Bytes, n: nat)
    requires HonestWire(wire, addr, cycle, trace, truth)
    ensures var pulled := Pull(wire, addr, cycle, trace, expected, n);
      WholeButLast(ChunksHad(wire, addr, cycle, trace, expected, 0, n)) ==>
        |pulled.data| <= |truth| && pulled.data == truth[..|pulled.data|]
  {
    hide HonestWire, ChunksHad, Pull, WholeButLast;
    var received := ChunksHad(wire, addr, cycle, trace, expected, 0, n);
    PullIsReceived(wire, addr, cycle, trace, expected, n);
    if WholeButLast(received) {
      TrueUpTo(wire, addr, cycle, trace, expected, truth, n, |received|);
      assert received[..|received|] == received;
    }
  }

  lemma {:induction false} TrueUpTo(wire: Wire, addr: address, cycle: long, trace: word, expected: long,
                                    truth: Bytes, n: nat, k: nat)
    requires HonestWire(wire, addr, cycle, trace, truth)
    ensures var received := ChunksHad(wire, addr, cycle, trace, expected, 0, n);
      k <= |received| && WholeButLast(received) ==>
        var data := AllBytes(received[..k]);
        |data| <= |truth| && data == truth[..|data|]
    decreases k
  {
    hide HonestWire, ChunksHad;
    var received := ChunksHad(wire, addr, cycle, trace, expected, 0, n);
    if 0 < k <= |received| && WholeButLast(received) {
      TrueUpTo(wire, addr, cycle, trace, expected, truth, n, k - 1);
      ReceivedIsTrue(wire, addr, cycle, trace, expected, 0, n, truth, k - 1);
      LandsOnWord(received[..k - 1]);
      BytesMore(received, k - 1);
      hide AllBytes, WordsIn;
      SliceExtends(AllBytes(received[..k - 1]), received[k - 1], truth, WordsIn(received[..k - 1]));
    }
  }

  /**
   What the code would have to check for that: no GOOD reply has an odd number of bytes. Then a pull is always true, and
   one that is complete holds the whole trace.
   */
  lemma EvenRepliesPullTrue(wire: Wire, addr: address, cycle: long, trace: word, truth: seq<word>, n: nat)
    requires |truth| < 0x1_0000_0000
    requires HonestWire(wire, addr, cycle, trace, PackWords(truth)) && EvenReplies(wire, addr, cycle, trace)
    ensures var pulled := Pull(wire, addr, cycle, trace, |truth|, n);
      && |pulled.data| <= WORD_LEN * |truth| && pulled.data == PackWords(truth)[..|pulled.data|]
      && (|pulled.data| == WORD_LEN * |truth| ==> UnpackWords(pulled.data) == truth)
  {
    hide HonestWire, EvenReplies, Pull, PackWords, ChunksHad;
    EvenRepliesAreWhole(wire, addr, cycle, trace, |truth|, 0, n);
    PulledDataIsTrue(wire, addr, cycle, trace, |truth|, PackWords(truth), n);
    hide UnpackWords;
    WordsRoundTrip(truth);
    var data := Pull(wire, addr, cycle, trace, |truth|, n).data;
    if |data| == WORD_LEN * |truth| {
      assert PackWords(truth)[..|data|] == PackWords(truth);
    }
  }
}
