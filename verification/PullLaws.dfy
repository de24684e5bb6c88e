/** What a pull keeps on any wire: bounds and bookkeeping. */
module PullLaws {
  import opened Bytes
  import opened Results
  import opened Crc16
  import opened CrcRepair
  import opened PumpClient
  import opened ProfilePull
  import NcsProtocol
  import PumpProtocol

  // ----- bookkeeping, whatever the wire does

  ghost predicate Increasing(bad: seq<BadReply>) {
    forall i, j :: 0 <= i < j < |bad| ==> bad[i].attempt < bad[j].attempt
  }

  /** One error line per failed attempt, in order. */
  ghost predicate InOrder(errors: seq<ErrorLine>) {
    forall i :: 0 <= i < |errors| ==>
      errors[i].FailedAttempt? && errors[i].attempt == i + 1 && !errors[i].failure.Unreachable?
  }

  /** Every bad reply is the body of the failure of its attempt, and does not parse. */
  ghost predicate KeptFrom(errors: seq<ErrorLine>, bad: seq<BadReply>, addr: address) {
    forall i :: 0 <= i < |bad| ==>
      && 1 <= bad[i].attempt <= |errors| && errors[bad[i].attempt - 1].FailedAttempt?
      && KeptBody(errors[bad[i].attempt - 1].failure) == bad[i].frame != []
      && PumpProtocol.ParseFrame(bad[i].frame, addr).Err?
  }

  /** A record in the middle of its attempts. */
  ghost predicate Consistent(log: ChunkLog, addr: address) {
    && |log.errors| <= log.attempts
    && InOrder(log.errors)
    && Increasing(log.badReplies)
    && KeptFrom(log.errors, log.badReplies, addr)
  }

  /** Every attempt that was asked again had been lost or damaged on the bus. */
  ghost predicate RetriedOnlyDamage(errors: seq<ErrorLine>, attempts: nat) {
    forall i :: 0 <= i < attempts - 1 ==>
      i < |errors| && errors[i].FailedAttempt? && ShouldRetry(errors[i].failure)
  }

  lemma OneMoreKept(errors: seq<ErrorLine>, bad: seq<BadReply>, addr: address, f: Failure)
    requires InOrder(errors) && Increasing(bad) && KeptFrom(errors, bad, addr)
    requires KeptBody(f) != [] ==> PumpProtocol.ParseFrame(KeptBody(f), addr).Err?
    ensures var attempt := |errors| + 1;
      var more := errors + [FailedAttempt(attempt, f)];
      && KeptFrom(more, bad, addr)
      && (KeptBody(f) != [] ==>
            var kept := bad + [BadReply(attempt, KeptBody(f))];
            Increasing(kept) && KeptFrom(more, kept, addr))
  {
    hide PumpProtocol.ParseFrame, KeptBody;
  }

  lemma FailedBodyDoesNotParse(x: Exchange, addr: address)
    requires ReadData(x, addr).Err?
    ensures var body := KeptBody(ReadData(x, addr).error);
      body != [] ==> PumpProtocol.ParseFrame(body, addr).Err?
  {}

  lemma FailureKeepsConsistent(x: Exchange, addr: address, log: ChunkLog)
    requires Consistent(log, addr) && |log.errors| == log.attempts
    requires ReadData(x, addr).Err? && !ReadData(x, addr).error.Unreachable?
    ensures var next := AfterFailure(log, ReadData(x, addr).error);
      Consistent(next, addr) && |next.errors| == next.attempts
  {
    hide ReadData, KeptBody, Increasing, KeptFrom;
    FailedBodyDoesNotParse(x, addr);
    OneMoreKept(log.errors, log.badReplies, addr, ReadData(x, addr).error);
  }

  lemma {:induction false} AttemptsBookkeeping(wire: Wire, n: nat, q: TraceRequest, addr: address, log: ChunkLog)
    requires log.attempts <= MAX_RETRIES && Consistent(log, addr) && |log.errors| == log.attempts
    requires forall line <- log.errors :: line.FailedAttempt? && ShouldRetry(line.failure)
    requires !log.failed && log.repair == None
    ensures var (after, outcome) := RunAttempts(wire, n, q, addr, log);
      && after.start == log.start && after.count == log.count
      && log.attempts < after.attempts <= MAX_RETRIES + 1
      && Consistent(after, addr) && RetriedOnlyDamage(after.errors, after.attempts)
      && |after.errors| == (if outcome.Missing? then after.attempts else after.attempts - 1)
      && !after.failed && after.repair == None
    decreases MAX_RETRIES - log.attempts
  {
    AttemptStep(wire, n, q, addr, log);
    hide ReadData, Ask, Consistent, ShouldRetry, KeptBody, RunAttempts, RetriedOnlyDamage;
    match ReadData(Ask(wire, n, q, addr), addr) {
      case Ok(_) =>
        StillConsistent(log, addr);
      case Err(f) =>
        if f.Unreachable? {
          StillConsistent(log, addr);
        } else {
          var next := AfterFailure(log, f);
          FailureKeepsConsistent(Ask(wire, n, q, addr), addr, log);
          if next.attempts <= MAX_RETRIES && ShouldRetry(f) {
            AttemptsBookkeeping(wire, n + 1, q, addr, next);
          }
        }
    }
  }

  lemma StillConsistent(log: ChunkLog, addr: address)
    requires Consistent(log, addr)
    ensures Consistent(log.(attempts := log.attempts + 1), addr)
  {}

  /** A repair names a kept reply and the one bit that repairs it, into a GOOD frame of exactly the size asked for. */
  ghost predicate RepairExplained(log: ChunkLog, addr: address, data: Bytes) {
    log.repair.Some? && exists b <- log.badReplies ::
      && b.attempt == log.repair.value.attempt
      && Explains(b.frame, Position(log.repair.value.byte, log.repair.value.bit), addr, log.count, data)
  }

  ghost predicate Explains(frame: Bytes, p: Position, addr: address, count: nat, data: Bytes) {
    && Repairs(frame) == [p] && InFrame(p, |frame|)
    && var reply := PumpProtocol.ParseFrame(Flip(frame, p), addr);
       reply.Ok? && reply.value.rc == PumpProtocol.GOOD && reply.value.data == data && |data| == count * WORD_LEN
  }

  lemma RepairOfExplains(frame: Bytes, addr: address, count: nat)
    ensures match RepairOf(frame, addr, count)
      case Some((p, data)) => Explains(frame, p, addr, count, data)
      case None => true
  {
    hide Repairs, Flip;
    var found := Repairs(frame);
    if |found| == 1 {
      FoundInFrame(frame, found[0]);
      assert found == [found[0]];
    }
  }

  lemma {:induction false} FirstRepairExplains(bad: seq<BadReply>, addr: address, count: nat)
    ensures match FirstRepair(bad, addr, count)
      case Some((r, data)) => exists b <- bad :: b.attempt == r.attempt
                                && Explains(b.frame, Position(r.byte, r.bit), addr, count, data)
      case None => forall b <- bad :: RepairOf(b.frame, addr, count) == None
  {
    hide RepairOf, Explains;
    if bad != [] {
      RepairOfExplains(bad[0].frame, addr, count);
      assert bad[0] in bad;
      FirstRepairExplains(bad[1..], addr, count);
      if RepairOf(bad[0].frame, addr, count) == None && FirstRepair(bad[1..], addr, count).Some? {
        var (r, data) := FirstRepair(bad[1..], addr, count).value;
        var b :| b in bad[1..] && b.attempt == r.attempt
                 && Explains(b.frame, Position(r.byte, r.bit), addr, count, data);
        assert b in bad;
      }
    }
  }

  /**
   One chunk on any wire: one to four requests, retried only for damage or loss, an error line for every attempt that
   failed, `failed` exactly when nothing was had, and a repair only if it can be explained by a reply that was kept.
   */
  lemma ChunkBookkeeping(wire: Wire, n: nat, q: TraceRequest, addr: address)
    ensures var (log, outcome) := ChunkRun(wire, n, q, addr);
      && log.start == q.start && log.count == q.count
      && 1 <= log.attempts <= MAX_RETRIES + 1
      && Consistent(log, addr) && RetriedOnlyDamage(log.errors, log.attempts)
      && (log.failed <==> outcome.Missing?)
      && (log.repair.Some? ==> outcome.Got? && RepairExplained(log, addr, outcome.data))
      && (|log.errors| == log.attempts <==> outcome.Missing? || log.repair.Some?)
  {
    hide Consistent, ShouldRetry, RepairOf, ReadData;
    var start := NewLog(q.start, q.count);
    assert Consistent(start, addr) by {
      NewIsConsistent(q.start, q.count, addr);
    }
    AttemptsBookkeeping(wire, n, q, addr, start);
    var (log, outcome) := RunAttempts(wire, n, q, addr, start);
    FirstRepairExplains(log.badReplies, addr, log.count);
    RepairedIsConsistent(log, addr);
  }

  lemma NewIsConsistent(start: nat, count: nat, addr: address)
    ensures Consistent(NewLog(start, count), addr)
  {}

  lemma RepairedIsConsistent(log: ChunkLog, addr: address)
    requires Consistent(log, addr)
    ensures Consistent(Repaired(log, addr).0, addr)
    ensures Repaired(log, addr).0.errors == log.errors && Repaired(log, addr).0.attempts == log.attempts
  {}

  // ----- bookkeeping of a whole trace

  ghost predicate StartsIncrease(chunks: seq<ChunkLog>) {
    forall i, j :: 0 <= i < j < |chunks| ==> chunks[i].start < chunks[j].start
  }

  /** Chunks asked for in order, none of more than the limit, and only the last one may have failed. */
  ghost predicate InSequence(chunks: seq<ChunkLog>) {
    && StartsIncrease(chunks)
    && forall i :: 0 <= i < |chunks| ==>
         && 1 <= chunks[i].count <= MAX_TRACE_WORDS
         && 1 <= chunks[i].attempts <= MAX_RETRIES + 1
         && Increasing(chunks[i].badReplies)
         && (i < |chunks| - 1 ==> !chunks[i].failed)
  }

  /** All had so far, with only words before `start` asked for. */
  ghost predicate AllHad(chunks: seq<ChunkLog>, start: nat) {
    InSequence(chunks) && forall i :: 0 <= i < |chunks| ==> !chunks[i].failed && chunks[i].start < start
  }

  function Attempts(chunks: seq<ChunkLog>): nat {
    if chunks == [] then 0 else Attempts(chunks[..|chunks| - 1]) + chunks[|chunks| - 1].attempts
  }

  lemma OneMoreChunk(chunks: seq<ChunkLog>, start: nat, log: ChunkLog)
    requires AllHad(chunks, start)
    requires log.start == start && 1 <= log.count <= MAX_TRACE_WORDS && 1 <= log.attempts <= MAX_RETRIES + 1
    requires Increasing(log.badReplies)
    ensures InSequence(chunks + [log])
    ensures !log.failed ==> forall next :: next > start ==> AllHad(chunks + [log], next)
    ensures Attempts(chunks + [log]) == Attempts(chunks) + log.attempts
  {}

  /** Whether a pull that ended can say why: all words had, the gateway gone, or a last chunk that failed. */
  ghost predicate Accounted(s: PullLog, expected: nat) {
    || expected * WORD_LEN <= |s.data|
    || s.down
    || (s.chunks != [] && s.chunks[|s.chunks| - 1].failed)
  }

  /**
   One trace on any wire: the loop ends; chunk starts strictly increase; every chunk but the last was had; every
   request is accounted for; and a pull that came short says why.
   */
  lemma {:induction false} PullBookkeeping(wire: Wire, addr: address, cycle: long, trace: word, expected: long,
                                           start: nat, s: PullLog, first: nat)
    requires AllHad(s.chunks, start) && !s.down
    requires s.requests == first + Attempts(s.chunks) && start * WORD_LEN <= |s.data|
    ensures var after := PullFrom(wire, addr, cycle, trace, expected, start, s);
      && InSequence(after.chunks)
      && after.requests == first + Attempts(after.chunks)
      && Accounted(after, expected)
    decreases expected - start
  {
    hide ChunkRun, InSequence, Attempts, AllHad, Increasing, Consistent, RetriedOnlyDamage, RepairExplained;
    if start >= expected {
      HadIsInSequence(s.chunks, start);
    } else {
      var q := ChunkRequest(cycle, trace, start, expected);
      ChunkBookkeeping(wire, s.requests, q, addr);
      ConsistentIncreases(ChunkRun(wire, s.requests, q, addr).0, addr);
      var (log, outcome) := ChunkRun(wire, s.requests, q, addr);
      OneMoreChunk(s.chunks, start, log);
      if outcome.Got? {
        OneMoreChunk(s.chunks, start, AfterEmpty(log));
        var words := |outcome.data| / WORD_LEN;
        if words > 0 {
          var next := PullLog(s.data + outcome.data, s.chunks + [log], s.requests + log.attempts, false);
          PullBookkeeping(wire, addr, cycle, trace, expected, start + words, next, first);
        }
      }
    }
  }

  lemma ConsistentIncreases(log: ChunkLog, addr: address)
    requires Consistent(log, addr)
    ensures Increasing(log.badReplies)
  {}

  lemma HadIsInSequence(chunks: seq<ChunkLog>, start: nat)
    requires AllHad(chunks, start)
    ensures InSequence(chunks)
  {}
}
