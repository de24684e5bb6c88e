/** When a pull does get its data: exactly which chunks are had, and what bus it takes to lose none. */
module PullSuccess {
  import opened Bytes
  import opened Results
  import opened Crc16
  import opened CrcRepair
  import opened PumpClient
  import opened ProfilePull
  import NcsProtocol
  import PumpProtocol

  // ----- what one exchange can come to, in terms of the bytes that came back

  predicate GatewayFails(x: Exchange) {
    x.Lost? || NcsProtocol.ParseResponse(x.raw).Err?
  }

  function BodyOf(x: Exchange): Bytes {
    if GatewayFails(x) then [] else NcsProtocol.ParseResponse(x.raw).value.body
  }

  function CodeOf(x: Exchange): nat {
    if GatewayFails(x) then 0 else NcsProtocol.ParseResponse(x.raw).value.rc
  }

  /** A GOOD frame of this pump with this data. */
  predicate IsGood(x: Exchange, addr: address, data: Bytes) {
    !GatewayFails(x) && PumpProtocol.ParseFrame(BodyOf(x), addr) == Ok(PumpProtocol.Response(BodyOf(x), addr, 0, data))
  }

  /** A body that is no frame of this pump. */
  predicate IsSpoiled(x: Exchange, addr: address) {
    !GatewayFails(x) && PumpProtocol.ParseFrame(BodyOf(x), addr).Err?
  }

  /** Spoiled, and the gateway says the reply was lost or came in damaged. */
  predicate IsAskedAgain(x: Exchange, addr: address) {
    IsSpoiled(x, addr) && CodeOf(x) in {1015, 1016}
  }

  lemma ReadDataExactly(x: Exchange, addr: address)
    ensures var r := ReadData(x, addr);
      && (r.Err? && r.error.Unreachable? <==> GatewayFails(x))
      && (forall data :: r == Ok(data) <==> IsGood(x, addr, data))
      && (r.Err? ==> (ShouldRetry(r.error) <==> IsAskedAgain(x, addr)))
      && (r.Err? ==> KeptBody(r.error) == if IsSpoiled(x, addr) then BodyOf(x) else [])
  {
    ReadDataMeans(x, addr);
    hide PumpProtocol.ParseFrame, NcsProtocol.ParseResponse;
  }

  // ----- which spoiled bodies can be mended

  /** Flipping this bit, and no other, makes the body pass, and it is then a GOOD frame with this data, all of it. */
  ghost predicate Mends(body: Bytes, p: Position, addr: address, count: nat, data: Bytes) {
    && InFrame(p, |body|) && IsValid(Flip(body, p))
    && (forall q :: InFrame(q, |body|) && IsValid(Flip(body, q)) ==> q == p)
    && PumpProtocol.ParseFrame(Flip(body, p), addr) == Ok(PumpProtocol.Response(Flip(body, p), addr, 0, data))
    && |data| == 2 * count
  }

  lemma RepairOfExactly(body: Bytes, addr: address, count: nat, p: Position, data: Bytes)
    ensures RepairOf(body, addr, count) == Some((p, data)) <==> Mends(body, p, addr, count, data)
  {
    hide IsValid, Flip, Repairs;
    var found := Repairs(body);
    if RepairOf(body, addr, count) == Some((p, data)) {
      forall q
        ensures q in found <==> q == p
      {
        assert found == [found[0]];
      }
      forall q
        ensures InFrame(q, |body|) && IsValid(Flip(body, q)) <==> q == p
      {
        RepairsExactly(body, q);
      }
      ParsedIsWhole(Flip(body, p), addr);
    }
    if Mends(body, p, addr, count, data) {
      forall q
        ensures q in found <==> q == p
      {
        RepairsExactly(body, q);
      }
      OnlyElement(body, p);
    }
  }

  lemma ParsedIsWhole(frame: Bytes, addr: address)
    ensures var r := PumpProtocol.ParseFrame(frame, addr);
      r.Ok? ==> r.value.raw == frame && r.value.addr == addr
  {}

  lemma {:induction false} FirstRepairSnoc(bad: seq<BadReply>, b: BadReply, addr: address, count: nat)
    ensures FirstRepair(bad + [b], addr, count) ==
            if FirstRepair(bad, addr, count).Some? then FirstRepair(bad, addr, count)
            else match RepairOf(b.frame, addr, count)
                 case Some((p, data)) => Some((Repair(b.attempt, p.offset, p.bit), data))
                 case None => None
  {
    hide RepairOf;
    if bad != [] {
      FirstRepairSnoc(bad[1..], b, addr, count);
      assert (bad + [b])[1..] == bad[1..] + [b];
    }
  }

  // ----- the attempts at one chunk

  /** What the k-th attempt at a chunk gets, counting from none. */
  function Reply(wire: Wire, n: nat, q: TraceRequest, addr: address, k: nat): Exchange {
    Ask(wire, n + k, q, addr)
  }

  /** The spoiled bodies of the first k attempts. */
  function SpoiledUpTo(wire: Wire, n: nat, q: TraceRequest, addr: address, k: nat): seq<BadReply> {
    if k == 0 then []
    else
      var x := Reply(wire, n, q, addr, k - 1);
      SpoiledUpTo(wire, n, q, addr, k - 1)
      + if IsSpoiled(x, addr) && BodyOf(x) != [] then [BadReply(k, BodyOf(x))] else []
  }

  ghost predicate AskedAgainUpTo(wire: Wire, n: nat, q: TraceRequest, addr: address, k: nat) {
    forall i: nat :: i < k ==> IsAskedAgain(Reply(wire, n, q, addr, i), addr)
  }

  /** How the attempts at a chunk end, by the last one's reply. */
  ghost predicate AttemptsEnd(wire: Wire, n: nat, q: TraceRequest, addr: address, after: ChunkLog, outcome: Outcome) {
    && 1 <= after.attempts <= 4 && AskedAgainUpTo(wire, n, q, addr, after.attempts - 1)
    && after.count == q.count && after.repair == None
    && (outcome.Missing? ==> after.badReplies == SpoiledUpTo(wire, n, q, addr, after.attempts))
    && var x := Reply(wire, n, q, addr, after.attempts - 1);
    && (after.attempts < 4 ==> !IsAskedAgain(x, addr))
    && (outcome.Down? <==> GatewayFails(x))
    && (forall data :: outcome == Got(data) <==> IsGood(x, addr, data))
  }

  lemma {:induction false} AttemptsExactly(wire: Wire, n: nat, q: TraceRequest, addr: address, log: ChunkLog, k: nat)
    requires log.attempts == k <= 3 && log.badReplies == SpoiledUpTo(wire, n, q, addr, k)
    requires log.count == q.count && log.repair == None && AskedAgainUpTo(wire, n, q, addr, k)
    ensures var (after, outcome) := RunAttempts(wire, n + k, q, addr, log);
      AttemptsEnd(wire, n, q, addr, after, outcome)
    decreases 3 - k
  {
    hide ReadData, RunAttempts, IsAskedAgain, IsGood, GatewayFails, Reply, SpoiledUpTo, AfterFailure;
    hide AttemptsEnd, EndsAs;
    var x := Reply(wire, n, q, addr, k);
    var r := ReadData(x, addr);
    var (after, outcome) := RunAttempts(wire, n + k, q, addr, log);
    OneAttempt(wire, n, q, addr, log, k);
    if k == 3 || !IsAskedAgain(x, addr) {
      LastAttempt(wire, n, q, addr, after, outcome);
    } else {
      AttemptsExactly(wire, n, q, addr, AfterFailure(log, r.error), k + 1);
    }
  }

  lemma LastAttempt(wire: Wire, n: nat, q: TraceRequest, addr: address, after: ChunkLog, outcome: Outcome)
    requires 1 <= after.attempts <= 4 && AskedAgainUpTo(wire, n, q, addr, after.attempts - 1)
    requires after.count == q.count && after.repair == None
    requires outcome.Missing? ==> after.badReplies == SpoiledUpTo(wire, n, q, addr, after.attempts)
    requires EndsAs(Reply(wire, n, q, addr, after.attempts - 1), addr, outcome)
    requires after.attempts == 4 || !IsAskedAgain(Reply(wire, n, q, addr, after.attempts - 1), addr)
    ensures AttemptsEnd(wire, n, q, addr, after, outcome)
  {
    hide IsAskedAgain, IsGood, GatewayFails, Reply, SpoiledUpTo, AskedAgainUpTo;
  }

  ghost predicate EndsAs(x: Exchange, addr: address, outcome: Outcome) {
    && (outcome.Down? <==> GatewayFails(x))
    && (forall data :: outcome == Got(data) <==> IsGood(x, addr, data))
  }

  /** One more attempt either ends it or, when it is asked again, leaves the record one spoiled reply longer. */
  lemma OneAttempt(wire: Wire, n: nat, q: TraceRequest, addr: address, log: ChunkLog, k: nat)
    requires log.attempts == k <= 3 && log.badReplies == SpoiledUpTo(wire, n, q, addr, k)
    requires log.count == q.count && log.repair == None
    ensures var x := Reply(wire, n, q, addr, k);
      var (after, outcome) := RunAttempts(wire, n + k, q, addr, log);
      var r := ReadData(x, addr);
      if k == 3 || !IsAskedAgain(x, addr) then
        && after.attempts == k + 1 && after.count == q.count && after.repair == None && EndsAs(x, addr, outcome)
        && (outcome.Missing? ==> after.badReplies == SpoiledUpTo(wire, n, q, addr, k + 1))
      else
        r.Err? && var next := AfterFailure(log, r.error);
        && next.attempts == k + 1 && next.badReplies == SpoiledUpTo(wire, n, q, addr, k + 1)
        && next.count == q.count && next.repair == None
        && (after, outcome) == RunAttempts(wire, n + k + 1, q, addr, next)
  {
    hide ReadData, RunAttempts, ShouldRetry, KeptBody, IsAskedAgain, IsSpoiled, IsGood, GatewayFails, BodyOf, Ask;
    hide SpoiledUpTo, AfterFailure;
    var x := Reply(wire, n, q, addr, k);
    ReadDataExactly(x, addr);
    AttemptStep(wire, n + k, q, addr, log);
    AskedAgainIsSpoiled(x, addr);
    var r := ReadData(x, addr);
    if r.Err? {
      OneMoreSpoiled(wire, n, q, addr, log, k, r.error);
    }
  }

  lemma AskedAgainIsSpoiled(x: Exchange, addr: address)
    ensures IsAskedAgain(x, addr) ==> !GatewayFails(x) && forall data :: !IsGood(x, addr, data)
  {
    hide PumpProtocol.ParseFrame, NcsProtocol.ParseResponse;
  }

  lemma OneMoreSpoiled(wire: Wire, n: nat, q: TraceRequest, addr: address, log: ChunkLog, k: nat, f: Failure)
    requires log.attempts == k && log.badReplies == SpoiledUpTo(wire, n, q, addr, k)
    requires var x := Reply(wire, n, q, addr, k);
      KeptBody(f) == if IsSpoiled(x, addr) then BodyOf(x) else []
    ensures var next := AfterFailure(log, f);
      && next.attempts == k + 1 && next.badReplies == SpoiledUpTo(wire, n, q, addr, k + 1)
      && next.count == log.count && next.repair == log.repair
  {
    hide KeptBody, IsSpoiled, BodyOf, Reply;
  }

  /** One of the attempts' bodies, mended. */
  ghost predicate MendsReply(wire: Wire, n: nat, q: TraceRequest, addr: address, k: nat, p: Position, data: Bytes) {
    var x := Reply(wire, n, q, addr, k);
    IsSpoiled(x, addr) && Mends(BodyOf(x), p, addr, q.count, data)
  }

  ghost predicate NoneMends(wire: Wire, n: nat, q: TraceRequest, addr: address, k: nat) {
    forall i: nat, p, data :: i < k ==> !MendsReply(wire, n, q, addr, i, p, data)
  }

  /** The first attempt whose body can be mended, what mends it, and what it gives. */
  ghost predicate FirstMend(wire: Wire, n: nat, q: TraceRequest, addr: address, k: nat, p: Position, data: Bytes) {
    MendsReply(wire, n, q, addr, k, p, data) && NoneMends(wire, n, q, addr, k)
  }

  lemma {:induction false} FirstRepairExactly(wire: Wire, n: nat, q: TraceRequest, addr: address, k: nat)
    ensures match FirstRepair(SpoiledUpTo(wire, n, q, addr, k), addr, q.count)
      case None => NoneMends(wire, n, q, addr, k)
      case Some((r, data)) =>
        && 1 <= r.attempt <= k
        && FirstMend(wire, n, q, addr, r.attempt - 1, Position(r.byte, r.bit), data)
  {
    hide RepairOf, IsSpoiled, BodyOf, Mends, MendsReply, Reply;
    if k > 0 {
      FirstRepairExactly(wire, n, q, addr, k - 1);
      var x := Reply(wire, n, q, addr, k - 1);
      LastMends(wire, n, q, addr, k - 1);
      var before := SpoiledUpTo(wire, n, q, addr, k - 1);
      assert before + [] == before;
      if IsSpoiled(x, addr) && BodyOf(x) != [] {
        FirstRepairSnoc(before, BadReply(k, BodyOf(x)), addr, q.count);
      }
    }
  }

  lemma LastMends(wire: Wire, n: nat, q: TraceRequest, addr: address, k: nat)
    ensures var x := Reply(wire, n, q, addr, k);
      forall p, data :: MendsReply(wire, n, q, addr, k, p, data) <==>
        IsSpoiled(x, addr) && BodyOf(x) != [] && RepairOf(BodyOf(x), addr, q.count) == Some((p, data))
  {
    hide RepairOf, IsSpoiled, BodyOf, Mends, Reply;
    var x := Reply(wire, n, q, addr, k);
    NothingMendsNothing(addr, q.count);
    forall p, data
      ensures RepairOf(BodyOf(x), addr, q.count) == Some((p, data)) <==> Mends(BodyOf(x), p, addr, q.count, data)
    {
      RepairOfExactly(BodyOf(x), addr, q.count, p, data);
    }
  }

  lemma NothingMendsNothing(addr: address, count: nat)
    ensures forall p, data :: !Mends([], p, addr, count, data)
  {}

  /**
   One chunk, exactly, on any wire. It is asked for again while the gateway says the reply was lost or damaged, four
   times at most. If the last reply is GOOD the chunk is its data. If the gateway fails, so does the pull. Otherwise the
   chunk is what the first spoiled body that can be mended gives, and is missing if and only if there is none.
   */
  lemma ChunkExactly(wire: Wire, n: nat, q: TraceRequest, addr: address)
    ensures var (log, outcome) := ChunkRun(wire, n, q, addr);
      && 1 <= log.attempts <= 4 && AskedAgainUpTo(wire, n, q, addr, log.attempts - 1)
      && var x := Reply(wire, n, q, addr, log.attempts - 1);
      && (log.attempts < 4 ==> !IsAskedAgain(x, addr))
      && (outcome.Down? <==> GatewayFails(x))
      && (forall data :: IsGood(x, addr, data) ==> outcome == Got(data) && log.repair == None)
      && (outcome.Missing? <==>
            !GatewayFails(x) && (forall data :: !IsGood(x, addr, data)) && NoneMends(wire, n, q, addr, log.attempts))
      && (outcome.Got? && !IsGood(x, addr, outcome.data) ==>
            log.repair.Some? && var r := log.repair.value;
            && 1 <= r.attempt <= log.attempts
            && FirstMend(wire, n, q, addr, r.attempt - 1, Position(r.byte, r.bit), outcome.data))
  {
    hide RunAttempts, IsGood, GatewayFails, IsAskedAgain, FirstRepair, NoneMends, FirstMend;
    AttemptsExactly(wire, n, q, addr, NewLog(q.start, q.count), 0);
    var (log, outcome) := RunAttempts(wire, n, q, addr, NewLog(q.start, q.count));
    FirstRepairExactly(wire, n, q, addr, log.attempts);
    if outcome.Missing? && FirstRepair(log.badReplies, addr, log.count).Some? {
      var (r, data) := FirstRepair(log.badReplies, addr, log.count).value;
      MendedIsSome(wire, n, q, addr, r.attempt - 1, Position(r.byte, r.bit), data, log.attempts);
    }
  }

  lemma MendedIsSome(wire: Wire, n: nat, q: TraceRequest, addr: address, k: nat, p: Position, data: Bytes, m: nat)
    requires FirstMend(wire, n, q, addr, k, p, data) && k < m
    ensures !NoneMends(wire, n, q, addr, m)
  {
    hide MendsReply;
  }

  /** A chunk lost or damaged on the bus, three times at most, and then answered is had. */
  lemma RetryingRecovers(wire: Wire, n: nat, q: TraceRequest, addr: address, k: nat, data: Bytes)
    requires k < 4 && AskedAgainUpTo(wire, n, q, addr, k) && IsGood(Reply(wire, n, q, addr, k), addr, data)
    ensures var (log, outcome) := ChunkRun(wire, n, q, addr);
      outcome == Got(data) && log.attempts == k + 1
  {
    hide ChunkRun, NoneMends, FirstMend, Reply, AskedAgainUpTo, IsAskedAgain, IsGood;
    ChunkExactly(wire, n, q, addr);
    var attempts := ChunkRun(wire, n, q, addr).0.attempts;
    AskedAt(wire, n, q, addr, k, attempts - 1);
    AskedAt(wire, n, q, addr, attempts - 1, k);
    AskedAgainIsSpoiled(Reply(wire, n, q, addr, k), addr);
  }

  lemma AskedAt(wire: Wire, n: nat, q: TraceRequest, addr: address, k: nat, i: nat)
    requires AskedAgainUpTo(wire, n, q, addr, k)
    ensures i < k ==> IsAskedAgain(Reply(wire, n, q, addr, i), addr)
  {}

  // ----- a bus that flips at most one bit of a reply loses nothing

  /** The frame as it was sent, or with one bit flipped, whatever the gateway says about it. */
  ghost predicate AtMostOneFlip(x: Exchange, frame: Bytes) {
    !GatewayFails(x) && (BodyOf(x) == frame || exists p :: OneFlipOf(BodyOf(x), frame, p))
  }

  ghost predicate OneFlipOf(body: Bytes, frame: Bytes, p: Position) {
    InFrame(p, |frame|) && body == Flip(frame, p)
  }

  /** Such a reply is GOOD or can be mended, and either way it gives the data that was sent and no other. */
  lemma OneFlipGivesData(x: Exchange, addr: address, data: Bytes, count: nat)
    requires |data| == 2 * count && PumpProtocol.MIN_FRAME_LEN + |data| <= MAX_UNIQUE_LEN
    requires AtMostOneFlip(x, PumpProtocol.Frame(addr, 0, data))
    ensures IsGood(x, addr, data) || (IsSpoiled(x, addr) && exists p :: Mends(BodyOf(x), p, addr, count, data))
    ensures forall d :: IsGood(x, addr, d) ==> d == data
    ensures forall p, d :: Mends(BodyOf(x), p, addr, count, d) ==> d == data
  {
    hide IsValid, Flip, Repairs, PumpProtocol.Frame, PumpProtocol.ParseFrame, GatewayFails;
    var frame := PumpProtocol.Frame(addr, 0, data);
    PumpProtocol.ParseFramed(addr, 0, data);
    ParsedPasses(frame, addr);
    if BodyOf(x) == frame {
      forall p
        ensures !(InFrame(p, |frame|) && IsValid(Flip(frame, p)))
      {
        ValidNeedsNoRepair(frame);
        RepairsExactly(frame, p);
      }
    } else {
      var p :| OneFlipOf(BodyOf(x), frame, p);
      UniqueRepair(frame, p);
      assert OddDamage(frame, p) by {
        FlipFails(frame, p);
      }
      ParsedPasses(BodyOf(x), addr);
      forall q
        ensures InFrame(q, |frame|) && IsValid(Flip(BodyOf(x), q)) <==> q == p
      {
        RepairsExactly(BodyOf(x), q);
        assert q in [p] <==> q == p;
      }
      assert Mends(BodyOf(x), p, addr, count, data);
    }
  }

  ghost predicate OddDamage(frame: Bytes, p: Position)
    requires InFrame(p, |frame|)
  {
    !IsValid(Flip(frame, p))
  }

  lemma FlipFails(frame: Bytes, p: Position)
    requires IsValid(frame) && InFrame(p, |frame|)
    ensures OddDamage(frame, p)
  {
    hide IsValid, Flip, FlipAll;
    OneFlip(frame, p);
    OddDamageDetected(frame, [p]);
  }

  lemma ParsedPasses(body: Bytes, addr: address)
    ensures PumpProtocol.ParseFrame(body, addr).Ok? ==> IsValid(body)
  {
    hide IsValid;
  }

  /** So a chunk whose replies are all like that is always had, and true, whatever was retried or repaired. */
  lemma OneFlipChunkIsHad(wire: Wire, n: nat, q: TraceRequest, addr: address, data: Bytes)
    requires |data| == 2 * q.count && PumpProtocol.MIN_FRAME_LEN + |data| <= MAX_UNIQUE_LEN
    requires forall k: nat :: k < 4 ==> AtMostOneFlip(Reply(wire, n, q, addr, k), PumpProtocol.Frame(addr, 0, data))
    ensures ChunkRun(wire, n, q, addr).1 == Got(data)
  {
    hide ChunkRun, IsGood, IsSpoiled, Mends, AtMostOneFlip, IsAskedAgain, BodyOf, PumpProtocol.Frame, Reply;
    ChunkExactly(wire, n, q, addr);
    var (log, outcome) := ChunkRun(wire, n, q, addr);
    forall k: nat | k < 4
      ensures GivesOnly(Reply(wire, n, q, addr, k), addr, q.count, data)
    {
      OneFlipGivesData(Reply(wire, n, q, addr, k), addr, data, q.count);
      assert AtMostOneFlip(Reply(wire, n, q, addr, k), PumpProtocol.Frame(addr, 0, data));
      assert !GatewayFails(Reply(wire, n, q, addr, k)) by {
        Answered(Reply(wire, n, q, addr, k), PumpProtocol.Frame(addr, 0, data));
      }
    }
    var last := Reply(wire, n, q, addr, log.attempts - 1);
    assert GivesOnly(last, addr, q.count, data);
    if !IsGood(last, addr, data) {
      var p :| Mends(BodyOf(last), p, addr, q.count, data);
      assert MendsReply(wire, n, q, addr, log.attempts - 1, p, data);
      if outcome.Got? {
        var r := log.repair.value;
        assert GivesOnly(Reply(wire, n, q, addr, r.attempt - 1), addr, q.count, data);
      }
    }
  }

  ghost predicate GivesOnly(x: Exchange, addr: address, count: nat, data: Bytes) {
    && !GatewayFails(x)
    && (IsGood(x, addr, data) || (IsSpoiled(x, addr) && exists p :: Mends(BodyOf(x), p, addr, count, data)))
    && (forall d :: IsGood(x, addr, d) ==> d == data)
    && (forall p, d :: Mends(BodyOf(x), p, addr, count, d) ==> d == data)
  }

  lemma Answered(x: Exchange, frame: Bytes)
    requires AtMostOneFlip(x, frame)
    ensures !GatewayFails(x)
  {}

  /** Every request is answered with the very words asked for, at most one bit of each reply flipped. */
  ghost predicate OneFlipWire(wire: Wire, addr: address, cycle: long, trace: word, truth: Bytes) {
    forall n: nat, q: TraceRequest :: q.cycle == cycle && q.trace == trace ==> OneFlipAnswer(wire, n, q, addr, truth)
  }

  ghost predicate OneFlipAnswer(wire: Wire, n: nat, q: TraceRequest, addr: address, truth: Bytes) {
    q.count <= 500 && 2 * (q.start + q.count) <= |truth| ==>
      AtMostOneFlip(Ask(wire, n, q, addr),
                    PumpProtocol.Frame(addr, 0, truth[2 * q.start..2 * (q.start + q.count)]))
  }

  lemma {:induction false} OneFlipPullFrom(wire: Wire, addr: address, cycle: long, trace: word, expected: long,
                                           start: nat, s: PullLog, truth: Bytes)
    requires OneFlipWire(wire, addr, cycle, trace, truth) && |truth| == 2 * expected
    requires start <= expected && s.data == truth[..2 * start] && !s.down
    ensures var after := PullFrom(wire, addr, cycle, trace, expected, start, s);
      after.data == truth && !after.down
    decreases expected - start
  {
    hide ChunkRun, PullFrom, OneFlipWire;
    PullEnd(wire, addr, cycle, trace, expected, start, s);
    if start < expected {
      var q := ChunkRequest(cycle, trace, start, expected);
      OneFlipStep(wire, addr, cycle, trace, expected, start, s, truth);
      PullStep(wire, addr, cycle, trace, expected, start, s);
      var (log, outcome) := ChunkRun(wire, s.requests, q, addr);
      var next := PullLog(s.data + outcome.data, s.chunks + [log], s.requests + log.attempts, false);
      OneFlipPullFrom(wire, addr, cycle, trace, expected, start + q.count, next, truth);
    }
  }

  lemma OneFlipStep(wire: Wire, addr: address, cycle: long, trace: word, expected: long, start: nat, s: PullLog,
                    truth: Bytes)
    requires OneFlipWire(wire, addr, cycle, trace, truth) && |truth| == 2 * expected
    requires start < expected && s.data == truth[..2 * start]
    ensures var q := ChunkRequest(cycle, trace, start, expected);
      var outcome := ChunkRun(wire, s.requests, q, addr).1;
      && start + q.count <= expected && outcome.Got? && |outcome.data| / WORD_LEN == q.count
      && s.data + outcome.data == truth[..2 * (start + q.count)]
  {
    hide ChunkRun, AtMostOneFlip, PumpProtocol.Frame;
    var q := ChunkRequest(cycle, trace, start, expected);
    var data := truth[2 * start..2 * (start + q.count)];
    forall k: nat | k < 4
      ensures AtMostOneFlip(Reply(wire, s.requests, q, addr, k), PumpProtocol.Frame(addr, 0, data))
    {
      assert OneFlipAnswer(wire, s.requests + k, q, addr, truth);
    }
    OneFlipChunkIsHad(wire, s.requests, q, addr, data);
  }

  /** And the pull holds the whole trace. */
  lemma OneFlipPullIsWhole(wire: Wire, addr: address, cycle: long, trace: word, truth: seq<word>, n: nat)
    requires |truth| < 0x1_0000_0000 && OneFlipWire(wire, addr, cycle, trace, PackWords(truth))
    ensures var pulled := Pull(wire, addr, cycle, trace, |truth|, n);
      && !pulled.down && pulled.data == PackWords(truth) && UnpackWords(pulled.data) == truth
  {
    hide OneFlipWire, PullFrom, PackWords, UnpackWords;
    OneFlipPullFrom(wire, addr, cycle, trace, |truth|, 0, PullLog([], [], n, false), PackWords(truth));
    WordsRoundTrip(truth);
  }
}
