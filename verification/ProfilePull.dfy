/** Pulling a profile's encoded traces a chunk at a time: retries, and single-bit repair as a last resort. */
module ProfilePull {
  import opened Bytes
  import opened Results
  import opened CrcRepair
  import opened PumpClient
  import NcsProtocol
  import PumpProtocol

  const MAX_RETRIES := 3

  datatype Repair = Repair(attempt: nat, byte: nat, bit: nat)

  /** One line of a chunk's error list. */
  datatype ErrorLine = FailedAttempt(attempt: nat, failure: Failure) | EmptyReply

  /** A reply that failed its checks, kept with the attempt it answered. */
  datatype BadReply = BadReply(attempt: nat, frame: Bytes)

  /** What a chunk's record says, as a value. */
  datatype ChunkLog = ChunkLog(start: nat, count: nat, attempts: nat, failed: bool, errors: seq<ErrorLine>,
                               badReplies: seq<BadReply>, repair: Option<Repair>)

  /** How asking for a chunk ended. `Down` is the gateway's own error, which nothing here catches. */
  datatype Outcome = Got(data: Bytes) | Missing | Down

  predicate ShouldRetry(f: Failure) {
    && f.Transport?
    && f.gatewayRc in {NcsProtocol.SERIAL_OUTPUT_INVALID_CRC, NcsProtocol.SERIAL_READ_TIMEOUT}
  }

  /** The body a failure carries, if it carries one worth keeping. */
  function KeptBody(f: Failure): Bytes {
    match f
    case Transport(_, body) => body
    case Protocol(body) => body
    case _ => []
  }

  // ----- repairing a chunk from the replies that failed

  /** The data of one bad reply, if exactly one flipped bit makes it a GOOD reply of the size asked for. */
  function RepairOf(frame: Bytes, addr: address, count: nat): Option<(Position, Bytes)> {
    var found := Repairs(frame);
    if |found| != 1 then None
    else
      FoundInFrame(frame, found[0]);
      match PumpProtocol.ParseFrame(Flip(frame, found[0]), addr)
      case Err(_) => None
      case Ok(reply) =>
        if reply.rc != PumpProtocol.GOOD || |reply.data| != count * WORD_LEN then None
        else Some((found[0], reply.data))
  }

  lemma FoundInFrame(frame: Bytes, p: Position)
    ensures p in Repairs(frame) ==> InFrame(p, |frame|)
  {
    hide Repairs;
    RepairsExactly(frame, p);
  }

  /** The first bad reply that can be repaired. */
  function FirstRepair(bad: seq<BadReply>, addr: address, count: nat): Option<(Repair, Bytes)> {
    if bad == [] then None
    else
      match RepairOf(bad[0].frame, addr, count)
      case Some((p, data)) => Some((Repair(bad[0].attempt, p.offset, p.bit), data))
      case None => FirstRepair(bad[1..], addr, count)
  }

  // ----- one chunk and one trace, as functions of what the wire does

  function NewLog(start: nat, count: nat): ChunkLog {
    ChunkLog(start, count, 0, false, [], [], None)
  }

  /** A chunk's record after one more attempt failed. */
  function AfterFailure(log: ChunkLog, f: Failure): ChunkLog {
    var attempt := log.attempts + 1;
    log.(attempts := attempt,
         errors := log.errors + [FailedAttempt(attempt, f)],
         badReplies := if KeptBody(f) == [] then log.badReplies else log.badReplies + [BadReply(attempt, KeptBody(f))])
  }

  /** Asking until data comes, an error is not worth retrying, or the retries are used up. */
  function RunAttempts(wire: Wire, n: nat, q: TraceRequest, addr: address, log: ChunkLog): (ChunkLog, Outcome)
    requires log.attempts <= MAX_RETRIES
    decreases MAX_RETRIES + 1 - log.attempts
  {
    match ReadData(Ask(wire, n, q, addr), addr)
    case Ok(data) => (log.(attempts := log.attempts + 1), Got(data))
    case Err(f) =>
      if f.Unreachable? then (log.(attempts := log.attempts + 1), Down)
      else
        var next := AfterFailure(log, f);
        if next.attempts > MAX_RETRIES || !ShouldRetry(f) then (next, Missing)
        else RunAttempts(wire, n + 1, q, addr, next)
  }

  /** What is left to do once every attempt has failed. */
  function Repaired(log: ChunkLog, addr: address): (ChunkLog, Outcome) {
    match FirstRepair(log.badReplies, addr, log.count)
    case Some((repair, data)) => (log.(repair := Some(repair)), Got(data))
    case None => (log.(failed := true), Missing)
  }

  function ChunkRun(wire: Wire, n: nat, q: TraceRequest, addr: address): (ChunkLog, Outcome) {
    var (log, outcome) := RunAttempts(wire, n, q, addr, NewLog(q.start, q.count));
    if outcome.Missing? then Repaired(log, addr) else (log, outcome)
  }

  datatype PullLog = PullLog(data: Bytes, chunks: seq<ChunkLog>, requests: nat, down: bool)

  function ChunkRequest(cycle: long, trace: word, start: nat, expected: long): (q: TraceRequest)
    requires start < expected
    ensures 1 <= q.count <= MAX_TRACE_WORDS
  {
    TraceRequest(cycle, trace, start,
                 if expected - start < MAX_TRACE_WORDS then expected - start else MAX_TRACE_WORDS)
  }

  function AfterEmpty(log: ChunkLog): ChunkLog {
    log.(failed := true, errors := log.errors + [EmptyReply])
  }

  /** The rest of a trace from word `start`, stopping at the first chunk that cannot be had. */
  function PullFrom(wire: Wire, addr: address, cycle: long, trace: word, expected: long, start: nat, s: PullLog)
    : PullLog
    decreases expected - start
  {
    if start >= expected then s
    else
      var (log, outcome) := ChunkRun(wire, s.requests, ChunkRequest(cycle, trace, start, expected), addr);
      var n := s.requests + log.attempts;
      match outcome
      case Down => PullLog(s.data, s.chunks + [log], n, true)
      case Missing => PullLog(s.data, s.chunks + [log], n, false)
      case Got(chunk) =>
        var words := |chunk| / WORD_LEN;
        if words == 0 then PullLog(s.data + chunk, s.chunks + [AfterEmpty(log)], n, false)
        else PullFrom(wire, addr, cycle, trace, expected, start + words,
                      PullLog(s.data + chunk, s.chunks + [log], n, false))
  }

  function Pull(wire: Wire, addr: address, cycle: long, trace: word, expected: long, n: nat): PullLog {
    PullFrom(wire, addr, cycle, trace, expected, 0, PullLog([], [], n, false))
  }

  // ----- the client's objects

  class ChunkRecord {
    const start: long
    const count: word
    var attempts: nat
    var failed: bool
    var errors: seq<ErrorLine>
    var badReplies: seq<BadReply>
    var repair: Option<Repair>

    constructor (start: long, count: word)
      ensures Log() == NewLog(start, count)
    {
      this.start, this.count := start, count;
      attempts, failed, errors, badReplies, repair := 0, false, [], [], None;
    }

    function Log(): ChunkLog
      reads this
    {
      ChunkLog(start, count, attempts, failed, errors, badReplies, repair)
    }
  }

  class TracePull {
    const trace: word
    const expectedWords: long
    var data: Bytes
    var chunks: seq<ChunkRecord>

    constructor (trace: word, expectedWords: long)
      ensures this.trace == trace && this.expectedWords == expectedWords && data == [] && chunks == []
    {
      this.trace, this.expectedWords := trace, expectedWords;
      data, chunks := [], [];
    }

    /** What the chunks' records say, in order. */
    function Logs(): seq<ChunkLog>
      reads this, chunks
    {
      LogsOf(chunks)
    }
  }

  function LogsOf(chunks: seq<ChunkRecord>): (logs: seq<ChunkLog>)
    reads chunks
    ensures |logs| == |chunks|
  {
    seq(|chunks|, i requires 0 <= i < |chunks| reads chunks => chunks[i].Log())
  }

  method TryRepair(pump: PumpClient, record: ChunkRecord) returns (data: Option<Bytes>)
    modifies record`repair
    ensures match FirstRepair(record.badReplies, pump.addr, record.count)
      case Some((repair, repaired)) => data == Some(repaired) && record.repair == Some(repair)
      case None => data == None && record.repair == old(record.repair)
  {
    hide Repairs, Flip, PumpProtocol.ParseFrame;
    for i := 0 to |record.badReplies|
      invariant FirstRepair(record.badReplies, pump.addr, record.count)
             == FirstRepair(record.badReplies[i..], pump.addr, record.count)
      invariant record.repair == old(record.repair)
    {
      var bad := record.badReplies[i];
      assert record.badReplies[i..][1..] == record.badReplies[i + 1..];
      var found := RepairingBits(bad.frame);
      if |found| != 1 {
        continue;
      }
      FoundInFrame(bad.frame, found[0]);
      var reply := PumpProtocol.ParseFrame(Flip(bad.frame, found[0]), pump.addr);
      if reply.Err? || reply.value.rc != PumpProtocol.GOOD || |reply.value.data| != record.count * WORD_LEN {
        continue;
      }
      record.repair := Some(Repair(bad.attempt, found[0].offset, found[0].bit));
      return Some(reply.value.data);
    }
    data := None;
  }

  /** Put a failed attempt on record, with the body it left. */
  method NoteFailure(record: ChunkRecord, f: Failure)
    requires record.attempts > 0
    modifies record`errors, record`badReplies
    ensures record.Log() == AfterFailure(old(record.Log()).(attempts := record.attempts - 1), f)
  {
    record.errors := record.errors + [FailedAttempt(record.attempts, f)];
    if KeptBody(f) != [] {
      record.badReplies := record.badReplies + [BadReply(record.attempts, KeptBody(f))];
    }
  }

  lemma AttemptStep(wire: Wire, n: nat, q: TraceRequest, addr: address, log: ChunkLog)
    requires log.attempts <= MAX_RETRIES
    ensures var r := ReadData(Ask(wire, n, q, addr), addr);
      var after := RunAttempts(wire, n, q, addr, log);
      && (r.Ok? ==> after == (log.(attempts := log.attempts + 1), Got(r.value)))
      && (r.Err? && r.error.Unreachable? ==> after == (log.(attempts := log.attempts + 1), Down))
      && (r.Err? && !r.error.Unreachable? ==>
            var next := AfterFailure(log, r.error);
            after == if next.attempts > MAX_RETRIES || !ShouldRetry(r.error) then (next, Missing)
                     else RunAttempts(wire, n + 1, q, addr, next))
  {
    hide ReadData, Ask, ShouldRetry, KeptBody;
  }

  method RequestChunk(pump: PumpClient, cycle: long, trace: word, record: ChunkRecord)
    returns (outcome: Outcome)
    requires 1 <= record.count <= MAX_TRACE_WORDS && record.Log() == NewLog(record.start, record.count)
    modifies pump, record
    ensures (record.Log(), outcome) ==
            ChunkRun(pump.wire, old(pump.requests), TraceRequest(cycle, trace, record.start, record.count), pump.addr)
    ensures pump.requests == old(pump.requests) + record.attempts
  {
    hide RepairOf, ReadData, Ask, RunAttempts, AfterFailure, ShouldRetry, KeptBody;
    var q := TraceRequest(cycle, trace, record.start, record.count);
    ghost var n := pump.requests;
    while true
      invariant record.attempts <= MAX_RETRIES && pump.requests == n + record.attempts
      invariant !record.failed && record.repair == None
      invariant RunAttempts(pump.wire, pump.requests, q, pump.addr, record.Log())
             == RunAttempts(pump.wire, n, q, pump.addr, NewLog(q.start, q.count))
      decreases MAX_RETRIES - record.attempts
    {
      AttemptStep(pump.wire, pump.requests, q, pump.addr, record.Log());
      ghost var log := record.Log();
      record.attempts := record.attempts + 1;
      var reply := pump.GetProfileTrace(q);
      var r := reply.value;
      if r.Ok? {
        return Got(r.value);
      }
      if r.error.Unreachable? {
        return Down;
      }
      NoteFailure(record, r.error);
      assert record.Log() == AfterFailure(log, r.error);
      if record.attempts > MAX_RETRIES || !ShouldRetry(r.error) {
        break;
      }
    }
    var data := TryRepair(pump, record);
    if data.None? {
      record.failed := true;
      return Missing;
    }
    return Got(data.value);
  }

  /** One more chunk of a trace, kept with its record; a chunk too short for a word counts as failed. */
  method NextChunk(pump: PumpClient, pull: TracePull, cycle: long, start: nat)
    returns (outcome: Outcome, ghost log: ChunkLog)
    requires start < pull.expectedWords
    modifies pump, pull
    ensures (log, outcome) ==
            ChunkRun(pump.wire, old(pump.requests),
                     ChunkRequest(cycle, pull.trace, start, pull.expectedWords), pump.addr)
    ensures pump.requests == old(pump.requests) + log.attempts
    ensures exists record :: fresh(record) && pull.chunks == old(pull.chunks) + [record]
    ensures pull.data == if outcome.Got? then old(pull.data) + outcome.data else old(pull.data)
    ensures pull.Logs() == old(pull.Logs()) +
            [if outcome.Got? && |outcome.data| / WORD_LEN == 0 then AfterEmpty(log) else log]
  {
    hide ChunkRun;
    ghost var before := pull.Logs();
    ghost var earlier := pull.chunks;
    var q := ChunkRequest(cycle, pull.trace, start, pull.expectedWords);
    var record := new ChunkRecord(start, q.count);
    pull.chunks := pull.chunks + [record];
    outcome := RequestChunk(pump, cycle, pull.trace, record);
    log := record.Log();
    if outcome.Got? {
      pull.data := pull.data + outcome.data;
      if |outcome.data| / WORD_LEN == 0 {
        record.failed := true;
        record.errors := record.errors + [EmptyReply];
      }
    }
    assert LogsOf(earlier) == before;
    assert LogsOf(pull.chunks) == before + [record.Log()];
  }

  lemma PullEnd(wire: Wire, addr: address, cycle: long, trace: word, expected: long, start: nat, s: PullLog)
    ensures start >= expected ==> PullFrom(wire, addr, cycle, trace, expected, start, s) == s
  {}

  lemma PullStep(wire: Wire, addr: address, cycle: long, trace: word, expected: long, start: nat, s: PullLog)
    requires start < expected
    ensures var (log, outcome) := ChunkRun(wire, s.requests, ChunkRequest(cycle, trace, start, expected), addr);
      var n := s.requests + log.attempts;
      var after := PullFrom(wire, addr, cycle, trace, expected, start, s);
      && (outcome.Down? ==> after == PullLog(s.data, s.chunks + [log], n, true))
      && (outcome.Missing? ==> after == PullLog(s.data, s.chunks + [log], n, false))
      && (outcome.Got? ==>
            var words := |outcome.data| / WORD_LEN;
            after == if words == 0 then PullLog(s.data + outcome.data, s.chunks + [AfterEmpty(log)], n, false)
                     else PullFrom(wire, addr, cycle, trace, expected, start + words,
                                   PullLog(s.data + outcome.data, s.chunks + [log], n, false)))
  {
    hide ChunkRun, ChunkRequest;
  }

  /** All the words of one trace. When the gateway itself fails, `down` is set and the pull is abandoned. */
  method PullTrace(pump: PumpClient, cycle: long, trace: word, expectedWords: long)
    returns (pull: TracePull, down: bool)
    modifies pump
    ensures fresh(pull) && fresh(pull.chunks) && pull.trace == trace && pull.expectedWords == expectedWords
    ensures pump.requests >= old(pump.requests)
    ensures PullLog(pull.data, pull.Logs(), pump.requests, down) ==
            Pull(pump.wire, pump.addr, cycle, trace, expectedWords, old(pump.requests))
  {
    hide ChunkRun, ChunkRequest, LogsOf, PullFrom;
    pull := new TracePull(trace, expectedWords);
    down := false;
    var start := 0;
    assert pull.Logs() == [];
    while start < expectedWords
      invariant fresh(pull) && fresh(pull.chunks) && pull.trace == trace && pull.expectedWords == expectedWords
      invariant pump.requests >= old(pump.requests)
      invariant PullFrom(pump.wire, pump.addr, cycle, trace, expectedWords, start,
                         PullLog(pull.data, pull.Logs(), pump.requests, false))
             == Pull(pump.wire, pump.addr, cycle, trace, expectedWords, old(pump.requests))
      decreases expectedWords - start
    {
      ghost var s := PullLog(pull.data, pull.Logs(), pump.requests, false);
      var outcome;
      ghost var log;
      outcome, log := NextChunk(pump, pull, cycle, start);
      PullStep(pump.wire, pump.addr, cycle, trace, expectedWords, start, s);
      if outcome.Down? {
        return pull, true;
      }
      if outcome.Missing? || |outcome.data| / WORD_LEN == 0 {
        break;
      }
      start := start + |outcome.data| / WORD_LEN;
    }
    PullEnd(pump.wire, pump.addr, cycle, trace, expectedWords, start,
            PullLog(pull.data, pull.Logs(), pump.requests, false));
  }

  // ----- a whole profile

  const TRACE_COUNT := 10

  type traceNumber = t: nat | t < TRACE_COUNT

  /** Smallest encoded size first, the pressure traces last. */
  const TRACE_ORDER: seq<traceNumber> := [7, 9, 8, 5, 6, 2, 3, 4, 1, 0]

  /** The pulls of the first `done` traces in order, one after another from request n on, and where they end. */
  function OrderedPulls(wire: Wire, addr: address, cycle: long, sizes: seq<long>, done: nat, n: nat)
    : (map<nat, PullLog>, nat)
    requires |sizes| == TRACE_COUNT && done <= TRACE_COUNT
  {
    if done == 0 then (map[], n)
    else
      var (before, k) := OrderedPulls(wire, addr, cycle, sizes, done - 1, n);
      var trace := TRACE_ORDER[done - 1];
      var pull := Pull(wire, addr, cycle, trace, sizes[trace], k);
      (before[trace := pull], pull.requests)
  }

  lemma NoPullsYet(wire: Wire, addr: address, cycle: long, sizes: seq<long>, n: nat)
    requires |sizes| == TRACE_COUNT
    ensures OrderedPulls(wire, addr, cycle, sizes, 0, n) == (map[], n)
  {}

  lemma OneMorePull(wire: Wire, addr: address, cycle: long, sizes: seq<long>, i: nat, n: nat)
    requires |sizes| == TRACE_COUNT && i < TRACE_COUNT
    ensures var (before, k) := OrderedPulls(wire, addr, cycle, sizes, i, n);
      var trace := TRACE_ORDER[i];
      var pull := Pull(wire, addr, cycle, trace, sizes[trace], k);
      OrderedPulls(wire, addr, cycle, sizes, i + 1, n) == (before[trace := pull], pull.requests)
  {
    hide Pull;
  }

  /** Whether an object holds what a pull came to, with no gateway failure. */
  ghost predicate Holds(pull: TracePull, trace: nat, size: nat, log: PullLog)
    reads pull, pull.chunks
  {
    && pull.trace == trace && pull.expectedWords == size
    && pull.data == log.data && pull.Logs() == log.chunks && !log.down
  }

  /** The gateway fails in one of a profile's pulls. */
  ghost predicate Abandoned(wire: Wire, addr: address, cycle: long, sizes: seq<long>, n: nat)
    requires |sizes| == TRACE_COUNT
  {
    var logs := OrderedPulls(wire, addr, cycle, sizes, TRACE_COUNT, n).0;
    exists t <- logs :: logs[t].down
  }

  /** No trace is pulled twice, so what one pull came to is not replaced by a later one. */
  lemma {:induction false} PullsStay(wire: Wire, addr: address, cycle: long, sizes: seq<long>, i: nat, done: nat,
                                     n: nat)
    requires |sizes| == TRACE_COUNT && i < done <= TRACE_COUNT
    ensures var t := TRACE_ORDER[i];
      && t in OrderedPulls(wire, addr, cycle, sizes, done, n).0
      && t in OrderedPulls(wire, addr, cycle, sizes, i + 1, n).0
      && OrderedPulls(wire, addr, cycle, sizes, done, n).0[t] == OrderedPulls(wire, addr, cycle, sizes, i + 1, n).0[t]
    decreases done
  {
    hide Pull;
    if i + 1 < done {
      PullsStay(wire, addr, cycle, sizes, i, done - 1, n);
      assert TRACE_ORDER[done - 1] != TRACE_ORDER[i];
    }
  }

  /** Every trace of a profile, in trace number order, or None exactly when the gateway fails on the way. */
  method PullProfile(pump: PumpClient, cycle: long, sizes: seq<long>) returns (result: Option<seq<TracePull>>)
    requires |sizes| == TRACE_COUNT
    modifies pump
    ensures pump.requests >= old(pump.requests)
    ensures result.None? <==> Abandoned(pump.wire, pump.addr, cycle, sizes, old(pump.requests))
    ensures result.Some? ==>
      var (logs, end) := OrderedPulls(pump.wire, pump.addr, cycle, sizes, TRACE_COUNT, old(pump.requests));
      && |result.value| == TRACE_COUNT && pump.requests == end
      && forall t :: 0 <= t < TRACE_COUNT ==> t in logs && Holds(result.value[t], t, sizes[t], logs[t])
  {
    hide Pull, LogsOf, OrderedPulls;
    ghost var n := pump.requests;
    NoPullsYet(pump.wire, pump.addr, cycle, sizes, n);
    var pulls: map<nat, TracePull> := map[];
    for i := 0 to TRACE_COUNT
      invariant forall t <- pulls :: fresh(pulls[t]) && fresh(pulls[t].chunks)
      invariant var (logs, k) := OrderedPulls(pump.wire, pump.addr, cycle, sizes, i, n);
        && pump.requests == k >= n && pulls.Keys == logs.Keys
        && forall t <- pulls :: t < TRACE_COUNT && Holds(pulls[t], t, sizes[t], logs[t])
    {
      var trace := TRACE_ORDER[i];
      OneMorePull(pump.wire, pump.addr, cycle, sizes, i, n);
      var pull, down := PullTrace(pump, cycle, trace, sizes[trace]);
      if down {
        PullsStay(pump.wire, pump.addr, cycle, sizes, i, TRACE_COUNT, n);
        return None;
      }
      pulls := pulls[trace := pull];
    }
    forall j | 0 <= j < TRACE_COUNT
      ensures TRACE_ORDER[j] in pulls
    {
      PullsStay(pump.wire, pump.addr, cycle, sizes, j, TRACE_COUNT, n);
    }
    result := Some(InTraceOrder(pulls));
  }

  function InTraceOrder(pulls: map<nat, TracePull>): (s: seq<TracePull>)
    requires forall i :: 0 <= i < TRACE_COUNT ==> TRACE_ORDER[i] in pulls
    ensures |s| == TRACE_COUNT
    ensures forall t: nat :: t < TRACE_COUNT ==> t in pulls && s[t] == pulls[t]
  {
    forall t: nat | t < TRACE_COUNT
      ensures t in pulls
    {
      EveryTraceOrdered(t);
      assert TRACE_ORDER[PLACE_IN_ORDER[t]] in pulls;
    }
    seq(TRACE_COUNT, t requires 0 <= t < TRACE_COUNT => pulls[t])
  }

  /** Where each trace comes in the order. */
  const PLACE_IN_ORDER: seq<nat> := [9, 8, 5, 6, 7, 3, 4, 0, 2, 1]

  lemma EveryTraceOrdered(t: nat)
    requires t < TRACE_COUNT
    ensures PLACE_IN_ORDER[t] < TRACE_COUNT && TRACE_ORDER[PLACE_IN_ORDER[t]] == t
  {}
}
