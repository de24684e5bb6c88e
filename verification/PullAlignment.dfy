/** Where each chunk of a pull lands in the data assembled, on any wire at all. */
module PullAlignment {
  import opened Bytes
  import opened Results
  import opened CrcRepair
  import opened PumpClient
  import opened ProfilePull
  import opened PullLaws

  /** The chunks a pull gets, in order, up to and including one too short for a word. */
  function ChunksHad(wire: Wire, addr: address, cycle: long, trace: word, expected: long, start: nat, n: nat)
    : seq<Bytes>
    decreases expected - start
  {
    if start >= expected then []
    else
      var (log, outcome) := ChunkRun(wire, n, ChunkRequest(cycle, trace, start, expected), addr);
      match outcome
      case Got(chunk) =>
        var words := |chunk| / WORD_LEN;
        [chunk] + if words == 0 then []
                  else ChunksHad(wire, addr, cycle, trace, expected, start + words, n + log.attempts)
      case _ => []
  }

  function AllBytes(chunks: seq<Bytes>): Bytes {
    if chunks == [] then [] else AllBytes(chunks[..|chunks| - 1]) + chunks[|chunks| - 1]
  }

  /** How many words the pull takes the chunks for. */
  function WordsIn(chunks: seq<Bytes>): nat {
    if chunks == [] then 0 else WordsIn(chunks[..|chunks| - 1]) + |chunks[|chunks| - 1]| / WORD_LEN
  }

  function OddOnes(chunks: seq<Bytes>): nat {
    if chunks == [] then 0 else OddOnes(chunks[..|chunks| - 1]) + |chunks[|chunks| - 1]| % WORD_LEN
  }

  ghost predicate AllWhole(chunks: seq<Bytes>) {
    forall i :: 0 <= i < |chunks| ==> |chunks[i]| % WORD_LEN == 0
  }

  ghost predicate WholeButLast(chunks: seq<Bytes>) {
    chunks != [] ==> AllWhole(chunks[..|chunks| - 1])
  }

  lemma NoWords()
    ensures WordsIn([]) == 0
  {}

  lemma {:induction false} WordsAfterFirst(chunks: seq<Bytes>)
    requires chunks != []
    ensures WordsIn(chunks) == |chunks[0]| / WORD_LEN + WordsIn(chunks[1..])
  {
    var n := |chunks| - 1;
    if n > 0 {
      WordsAfterFirst(chunks[..n]);
      assert chunks[..n][1..] == chunks[1..][..n - 1];
    }
  }

  lemma {:induction false} BytesAfterFirst(chunks: seq<Bytes>)
    requires chunks != []
    ensures AllBytes(chunks) == chunks[0] + AllBytes(chunks[1..])
  {
    var n := |chunks| - 1;
    if n > 0 {
      BytesAfterFirst(chunks[..n]);
      assert chunks[..n][1..] == chunks[1..][..n - 1];
    }
  }

  lemma BytesMore(chunks: seq<Bytes>, k: nat)
    requires k < |chunks|
    ensures AllBytes(chunks[..k + 1]) == AllBytes(chunks[..k]) + chunks[k]
  {
    assert chunks[..k + 1][..k] == chunks[..k];
  }

  /** Every odd chunk puts what follows it one byte further on than its words say. */
  lemma {:induction false} BytesAndWords(chunks: seq<Bytes>)
    ensures |AllBytes(chunks)| == WORD_LEN * WordsIn(chunks) + OddOnes(chunks)
    ensures OddOnes(chunks) == 0 <==> AllWhole(chunks)
  {
    if chunks != [] {
      var n := |chunks| - 1;
      BytesAndWords(chunks[..n]);
      assert AllWhole(chunks) <==> AllWhole(chunks[..n]) && |chunks[n]| % WORD_LEN == 0;
    }
  }

  lemma LandsOnWord(chunks: seq<Bytes>)
    requires AllWhole(chunks)
    ensures |AllBytes(chunks)| == WORD_LEN * WordsIn(chunks)
  {
    BytesAndWords(chunks);
  }

  /** Everything a pull assembles is what it received. */
  lemma {:induction false} DataIsReceived(wire: Wire, addr: address, cycle: long, trace: word, expected: long,
                                          start: nat, s: PullLog)
    ensures PullFrom(wire, addr, cycle, trace, expected, start, s).data
         == s.data + AllBytes(ChunksHad(wire, addr, cycle, trace, expected, start, s.requests))
    decreases expected - start
  {
    hide ChunkRun, AllBytes;
    NoBytes(s.data);
    if start < expected {
      var (log, outcome) := ChunkRun(wire, s.requests, ChunkRequest(cycle, trace, start, expected), addr);
      if outcome.Got? {
        var had := ChunksHad(wire, addr, cycle, trace, expected, start, s.requests);
        BytesAfterFirst(had);
        Regrouped(s.data, had[0], AllBytes(had[1..]));
        var words := |outcome.data| / WORD_LEN;
        if words > 0 {
          var next := PullLog(s.data + outcome.data, s.chunks + [log], s.requests + log.attempts, false);
          DataIsReceived(wire, addr, cycle, trace, expected, start + words, next);
          assert had[1..] == ChunksHad(wire, addr, cycle, trace, expected, start + words, next.requests);
        } else {
          assert had[1..] == [];
        }
      }
    }
  }

  lemma Regrouped(a: Bytes, b: Bytes, c: Bytes)
    ensures a + (b + c) == a + b + c
  {}

  lemma NoBytes(data: Bytes)
    ensures data + AllBytes([]) == data
  {}

  /** The chunks' records a pull makes from here on. */
  function ChunksMade(wire: Wire, addr: address, cycle: long, trace: word, expected: long, start: nat, n: nat)
    : seq<ChunkLog>
    decreases expected - start
  {
    if start >= expected then []
    else
      var (log, outcome) := ChunkRun(wire, n, ChunkRequest(cycle, trace, start, expected), addr);
      match outcome
      case Got(chunk) =>
        var words := |chunk| / WORD_LEN;
        if words == 0 then [AfterEmpty(log)]
        else [log] + ChunksMade(wire, addr, cycle, trace, expected, start + words, n + log.attempts)
      case _ => [log]
  }

  lemma {:induction false} ChunksAreMade(wire: Wire, addr: address, cycle: long, trace: word, expected: long,
                                         start: nat, s: PullLog)
    ensures PullFrom(wire, addr, cycle, trace, expected, start, s).chunks
         == s.chunks + ChunksMade(wire, addr, cycle, trace, expected, start, s.requests)
    decreases expected - start
  {
    hide ChunkRun;
    if start < expected {
      var (log, outcome) := ChunkRun(wire, s.requests, ChunkRequest(cycle, trace, start, expected), addr);
      if outcome.Got? && |outcome.data| / WORD_LEN > 0 {
        var next := PullLog(s.data + outcome.data, s.chunks + [log], s.requests + log.attempts, false);
        ChunksAreMade(wire, addr, cycle, trace, expected, start + |outcome.data| / WORD_LEN, next);
      }
    }
  }

  /** The first request starts where asked, and the others are those of the rest if it got a word or more. */
  lemma FirstMade(wire: Wire, addr: address, cycle: long, trace: word, expected: long, start: nat, n: nat)
    returns (words: nat, next: nat)
    requires start < expected
    ensures var made := ChunksMade(wire, addr, cycle, trace, expected, start, n);
      var had := ChunksHad(wire, addr, cycle, trace, expected, start, n);
      && made != [] && made[0].start == start
      && made[0].count == (if expected - start < 500 then expected - start else 500)
      && (|made| > 1 ==>
            && words > 0 && had != [] && words == |had[0]| / WORD_LEN
            && made[1..] == ChunksMade(wire, addr, cycle, trace, expected, start + words, next)
            && had[1..] == ChunksHad(wire, addr, cycle, trace, expected, start + words, next))
  {
    hide ChunkRun;
    var q := ChunkRequest(cycle, trace, start, expected);
    StartIsAsked(wire, n, q, addr);
    var (log, outcome) := ChunkRun(wire, n, q, addr);
    words := if outcome.Got? then |outcome.data| / WORD_LEN else 0;
    next := n + log.attempts;
  }

  /** Each request starts at the words taken so far. */
  lemma {:induction false} StartsAtWords(wire: Wire, addr: address, cycle: long, trace: word, expected: long,
                                         start: nat, n: nat, i: nat)
    requires start < expected && i < |ChunksMade(wire, addr, cycle, trace, expected, start, n)|
    ensures var had := ChunksHad(wire, addr, cycle, trace, expected, start, n);
      i <= |had|
      && ChunksMade(wire, addr, cycle, trace, expected, start, n)[i].start == start + WordsIn(had[..i])
    decreases expected - start
  {
    hide ChunksMade, ChunksHad, WordsIn, ChunkRun;
    var words, next := FirstMade(wire, addr, cycle, trace, expected, start, n);
    var had := ChunksHad(wire, addr, cycle, trace, expected, start, n);
    NoWords();
    if i == 0 {
      assert had[..0] == [];
    } else {
      NoneMade(wire, addr, cycle, trace, expected, start + words, next);
      StartsAtWords(wire, addr, cycle, trace, expected, start + words, next, i - 1);
      WordsAfterFirst(had[..i]);
      assert had[..i][1..] == had[1..][..i - 1];
    }
  }

  lemma NoneMade(wire: Wire, addr: address, cycle: long, trace: word, expected: long, start: nat, n: nat)
    ensures start >= expected ==> ChunksMade(wire, addr, cycle, trace, expected, start, n) == []
  {}

  lemma StartIsAsked(wire: Wire, n: nat, q: TraceRequest, addr: address)
    ensures var log := ChunkRun(wire, n, q, addr).0;
      log.start == q.start && log.count == q.count
  {
    hide ChunkRun;
    ChunkBookkeeping(wire, n, q, addr);
  }

  lemma PullIsReceived(wire: Wire, addr: address, cycle: long, trace: word, expected: long, n: nat)
    ensures Pull(wire, addr, cycle, trace, expected, n).data
         == AllBytes(ChunksHad(wire, addr, cycle, trace, expected, 0, n))
  {
    hide PullFrom, ChunksHad, AllBytes;
    DataIsReceived(wire, addr, cycle, trace, expected, 0, PullLog([], [], n, false));
  }

  /** Every request is for all the words still missing, or for 500 when there are more. */
  lemma {:induction false} AsksForTheRest(wire: Wire, addr: address, cycle: long, trace: word, expected: long,
                                          start: nat, n: nat, i: nat)
    requires i < |ChunksMade(wire, addr, cycle, trace, expected, start, n)|
    ensures var log := ChunksMade(wire, addr, cycle, trace, expected, start, n)[i];
      log.start < expected && log.count == if expected - log.start < 500 then expected - log.start else 500
    decreases expected - start
  {
    hide ChunksMade, ChunksHad, ChunkRun;
    NoneMade(wire, addr, cycle, trace, expected, start, n);
    var words, next := FirstMade(wire, addr, cycle, trace, expected, start, n);
    if i > 0 {
      AsksForTheRest(wire, addr, cycle, trace, expected, start + words, next, i - 1);
    }
  }

  lemma PullAsksForTheRest(wire: Wire, addr: address, cycle: long, trace: word, expected: long, n: nat, i: nat)
    ensures var chunks := Pull(wire, addr, cycle, trace, expected, n).chunks;
      i < |chunks| ==>
        && chunks[i].start < expected
        && chunks[i].count == if expected - chunks[i].start < 500 then expected - chunks[i].start else 500
  {
    hide PullFrom, ChunksMade;
    ChunksAreMade(wire, addr, cycle, trace, expected, 0, PullLog([], [], n, false));
    if i < |ChunksMade(wire, addr, cycle, trace, expected, 0, n)| {
      AsksForTheRest(wire, addr, cycle, trace, expected, 0, n, i);
    }
  }

  /** The data had when the i-th chunk was asked for ends just where that chunk starts. */
  ghost predicate LandsWhereAsked(pulled: PullLog, received: seq<Bytes>, i: nat)
    requires i < |pulled.chunks| && i <= |received|
  {
    |AllBytes(received[..i])| == WORD_LEN * pulled.chunks[i].start
  }

  /**
   On any wire: a chunk lands at the byte it was asked from exactly when every chunk had before it was whole words,
   which the pull does not check.
   */
  lemma LandsExactly(wire: Wire, addr: address, cycle: long, trace: word, expected: long, n: nat, i: nat)
    ensures var pulled := Pull(wire, addr, cycle, trace, expected, n);
      var received := ChunksHad(wire, addr, cycle, trace, expected, 0, n);
      i < |pulled.chunks| ==>
        i <= |received| && (LandsWhereAsked(pulled, received, i) <==> AllWhole(received[..i]))
  {
    hide PullFrom, ChunksHad, ChunksMade, AllBytes, WordsIn, OddOnes, AllWhole;
    ChunksAreMade(wire, addr, cycle, trace, expected, 0, PullLog([], [], n, false));
    NoneMade(wire, addr, cycle, trace, expected, 0, n);
    if i < |ChunksMade(wire, addr, cycle, trace, expected, 0, n)| {
      StartsAtWords(wire, addr, cycle, trace, expected, 0, n, i);
      BytesAndWords(ChunksHad(wire, addr, cycle, trace, expected, 0, n)[..i]);
    }
  }

  // ----- the check that is missing

  /** No GOOD reply to this trace's requests has an odd number of bytes. */
  ghost predicate EvenReplies(wire: Wire, addr: address, cycle: long, trace: word) {
    forall n: nat, q: TraceRequest :: q.cycle == cycle && q.trace == trace ==>
      EvenData(ReadData(Ask(wire, n, q, addr), addr))
  }

  predicate EvenData(r: Result<Bytes, Failure>) {
    r.Ok? ==> |r.value| % WORD_LEN == 0
  }

  lemma {:induction false} EvenAttempts(wire: Wire, n: nat, q: TraceRequest, addr: address, log: ChunkLog)
    requires log.attempts <= MAX_RETRIES
    requires EvenReplies(wire, addr, q.cycle, q.trace)
    ensures var (after, outcome) := RunAttempts(wire, n, q, addr, log);
      outcome.Got? ==> |outcome.data| % WORD_LEN == 0
    decreases MAX_RETRIES - log.attempts
  {
    hide ReadData, Ask;
    assert EvenData(ReadData(Ask(wire, n, q, addr), addr));
    match ReadData(Ask(wire, n, q, addr), addr)
    case Ok(_) =>
    case Err(f) =>
      var next := AfterFailure(log, f);
      if next.attempts <= MAX_RETRIES && ShouldRetry(f) {
        EvenAttempts(wire, n + 1, q, addr, next);
      }
  }

  lemma {:induction false} RepairsAreWhole(bad: seq<BadReply>, addr: address, count: nat)
    ensures FirstRepair(bad, addr, count).Some? ==> |FirstRepair(bad, addr, count).value.1| == count * WORD_LEN
  {
    hide Repairs;
    if bad != [] {
      RepairsAreWhole(bad[1..], addr, count);
    }
  }

  lemma {:induction false} EvenRepliesAreWhole(wire: Wire, addr: address, cycle: long, trace: word, expected: long,
                                               start: nat, n: nat)
    requires EvenReplies(wire, addr, cycle, trace)
    ensures AllWhole(ChunksHad(wire, addr, cycle, trace, expected, start, n))
    decreases expected - start
  {
    hide EvenReplies, RunAttempts, FirstRepair;
    if start < expected {
      var q := ChunkRequest(cycle, trace, start, expected);
      EvenAttempts(wire, n, q, addr, NewLog(q.start, q.count));
      var (tried, _) := RunAttempts(wire, n, q, addr, NewLog(q.start, q.count));
      RepairsAreWhole(tried.badReplies, addr, tried.count);
      var (log, outcome) := ChunkRun(wire, n, q, addr);
      if outcome.Got? && |outcome.data| / WORD_LEN > 0 {
        EvenRepliesAreWhole(wire, addr, cycle, trace, expected, start + |outcome.data| / WORD_LEN, n + log.attempts);
      }
    }
  }
}
