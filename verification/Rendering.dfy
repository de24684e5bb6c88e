/** From a capture to its outputs: the decoded columns and the dispense row's account of how they came about. */
module Rendering {
  import opened Bytes
  import opened Results
  import opened TraceCodec
  import opened PumpClient
  import opened ProfilePull
  import opened Captures

  // ----- decoding the traces

  datatype Note =
    | UnknownEncoding(encoding: nat)
    | MissingWords(trace: nat, words: nat, expected: nat)
    | UnusedBitSet(trace: nat, after: nat)
    | EndsInBlock(trace: nat)
    | WrongLength(trace: nat, samples: nat, expected: nat)
    | RepairRefused(trace: nat)

  type Samples = seq<word>

  /** The samples of a trace, if they can be trusted: all its words, decoding to exactly as many samples as promised. */
  function Trusted(info: ProfileInfo, t: TraceData): Option<Samples> {
    if info.Encoding() != COMPRESSED_ENCODING || !t.Complete() then None
    else
      var samples := Expand(UnpackWords(t.data), info.unencodedSize);
      if samples.Some? && |samples.value| == info.unencodedSize then samples else None
  }

  /** What is said about one trace of a compressed profile. */
  function NotesOn(info: ProfileInfo, t: TraceData): seq<Note> {
    if !t.Complete() then [MissingWords(t.trace, |t.data| / WORD_LEN, t.expectedWords)]
    else
      var words := UnpackWords(t.data);
      var samples := Expand(words, info.unencodedSize);
      var note := FirstNote(words, info.unencodedSize, 0);
      (if note.Some? then [UnusedBitSet(t.trace, note.value)] else [])
      + (if samples.None? then [EndsInBlock(t.trace)] else [])
      + (if samples.Some? && |samples.value| != info.unencodedSize
         then [WrongLength(t.trace, |samples.value|, info.unencodedSize)] else [])
      + (if Trusted(info, t).None? && t.Repaired() && info.Encoding() == COMPRESSED_ENCODING
         then [RepairRefused(t.trace)] else [])
  }

  function AllNotes(info: ProfileInfo, traces: seq<TraceData>): seq<Note> {
    if traces == [] then [] else AllNotes(info, traces[..|traces| - 1]) + NotesOn(info, traces[|traces| - 1])
  }

  /** Exactly which samples are trusted, whatever it took to get the bytes. */
  lemma TrustedExactly(info: ProfileInfo, t: TraceData, s: Samples)
    ensures Trusted(info, t) == Some(s) <==>
            && info.typeEncoding % 256 == 1 && |t.data| == 2 * t.expectedWords
            && Expand(UnpackWords(t.data), info.unencodedSize) == Some(s) && |s| == info.unencodedSize
  {}

  /** Exactly what is noted about a trace. */
  lemma NotesExactly(info: ProfileInfo, t: TraceData, note: Note)
    requires info.typeEncoding % 256 == 1
    ensures var words, size := UnpackWords(t.data), info.unencodedSize;
      var whole := |t.data| == 2 * t.expectedWords;
      note in NotesOn(info, t) <==>
      match note
      case UnknownEncoding(_) => false
      case MissingWords(trace, n, expected) =>
        trace == t.trace && !whole && n == |t.data| / 2 && expected == t.expectedWords
      case UnusedBitSet(trace, k) => trace == t.trace && whole && FirstNote(words, size, 0) == Some(k)
      case EndsInBlock(trace) => trace == t.trace && whole && Expand(words, size) == None
      case WrongLength(trace, n, expected) =>
        trace == t.trace && whole && expected == size
        && Expand(words, size).Some? && n == |Expand(words, size).value| != size
      case RepairRefused(trace) =>
        && trace == t.trace && whole && (exists i :: 0 <= i < |t.chunks| && t.chunks[i].repair.Some?)
        && !(Expand(words, size).Some? && |Expand(words, size).value| == size)
  {
    hide Expand, FirstNote, UnpackWords;
  }

  lemma {:induction false} AllNotesExactly(info: ProfileInfo, traces: seq<TraceData>, note: Note)
    ensures note in AllNotes(info, traces) <==> exists i :: 0 <= i < |traces| && note in NotesOn(info, traces[i])
  {
    hide NotesOn;
    if traces != [] {
      var n := |traces| - 1;
      AllNotesExactly(info, traces[..n], note);
      if i :| 0 <= i < n && note in NotesOn(info, traces[..n][i]) {
        assert note in NotesOn(info, traces[i]);
      }
      if i :| 0 <= i < |traces| && note in NotesOn(info, traces[i]) {
        assert i < n ==> note in NotesOn(info, traces[..n][i]);
      }
    }
  }

  /** The samples of one trace, None if they cannot be trusted, and a note for each thing wrong. */
  method DecodeTrace(info: ProfileInfo, pull: TraceData) returns (samples: Option<Samples>, notes: seq<Note>)
    requires info.Encoding() == COMPRESSED_ENCODING
    ensures samples == Trusted(info, pull) && notes == NotesOn(info, pull)
  {
    hide Expand, FirstNote, UnpackWords;
    if !pull.Complete() {
      return None, [MissingWords(pull.trace, |pull.data| / WORD_LEN, pull.expectedWords)];
    }
    var result := Decode(UnpackWords(pull.data), info.unencodedSize);
    samples := result.samples;
    notes := if result.note.Some? then [UnusedBitSet(pull.trace, result.note.value)] else [];
    if samples.None? {
      notes := notes + [EndsInBlock(pull.trace)];
    }
    if samples.Some? && |samples.value| != info.unencodedSize {
      notes := notes + [WrongLength(pull.trace, |samples.value|, info.unencodedSize)];
      samples := None;
    }
    if samples.None? && pull.Repaired() {
      notes := notes + [RepairRefused(pull.trace)];
    }
  }

  /** The same for every trace of a profile, unless its encoding is unknown. */
  method DecodeTraces(info: ProfileInfo, traces: seq<TraceData>)
    returns (decoded: seq<Option<Samples>>, notes: seq<Note>)
    ensures |decoded| == |traces|
    ensures forall i :: 0 <= i < |traces| ==> decoded[i] == Trusted(info, traces[i])
    ensures notes == if info.Encoding() != COMPRESSED_ENCODING then [UnknownEncoding(info.Encoding())]
                     else AllNotes(info, traces)
  {
    if info.Encoding() != COMPRESSED_ENCODING {
      return seq(|traces|, _ => None), [UnknownEncoding(info.Encoding())];
    }
    hide Trusted, NotesOn;
    decoded, notes := [], [];
    for i := 0 to |traces|
      invariant |decoded| == i
      invariant forall j :: 0 <= j < i ==> decoded[j] == Trusted(info, traces[j])
      invariant notes == AllNotes(info, traces[..i])
    {
      assert traces[..i + 1][..i] == traces[..i];
      var samples, traceNotes := DecodeTrace(info, traces[i]);
      decoded, notes := decoded + [samples], notes + traceNotes;
    }
    assert traces[..|traces|] == traces;
  }

  // ----- the dispense row's account

  datatype RepairEntry = RepairEntry(trace: nat, start: nat, repair: Repair)

  /** One line of a row's problem list. */
  datatype Problem =
    | OfTrace(note: Note)
    | TimesDisagree(header: Option<nat>, info: nat)
    | OfHeader(line: HeaderLine)
    | NoHeader(why: HeaderProblem)

  /** The columns of a dispense row; times before they are formatted. */
  datatype DispenseRow = DispenseRow(
    cycle: nat,
    serial: string,
    firmware: Option<string>,
    triggeredAt: nat,
    recordedAt: real,
    sampleInterval: nat,
    sampleCount: nat,
    startOfCycle: nat,
    dispenseEnd: nat,
    filtrationEnd: nat,
    fillEnd: nat,
    endOfCycle: nat,
    profileType: nat,
    encoding: nat,
    newestCycle: nat,
    cyclesBehind: int,
    headerAvailable: bool,
    header: HeaderColumns,
    objectUri: Option<nat>,
    reconstructed: bool,
    repairs: seq<RepairEntry>,
    blankTraces: seq<nat>,
    retries: int,
    failedChunks: nat,
    problems: seq<Problem>)

  /** The columns that only a header can fill, volumes and pressures in the row's own units. */
  datatype HeaderColumns = HeaderColumns(
    recipeNumber: Option<nat>,
    jobInfo: Option<string>,
    referenceCycle: Option<nat>,
    recipeTitle: Option<string>,
    slotId: Option<nat>,
    volumeSetpointUl: Option<nat>,
    volumeMeasuredMl: Option<real>,
    confirmationPct: Option<nat>,
    readyPressurePsi: Option<real>,
    referenceReadyPressurePsi: Option<real>)

  const NO_COLUMNS := HeaderColumns(None, None, None, None, None, None, None, None, None, None)

  /** A column is filled exactly when its part was read, and scaled back it gives that part. */
  ghost predicate Scaled(column: Option<real>, part: Option<nat>, perUnit: nat) {
    && (column.Some? <==> part.Some?)
    && (column.Some? ==> column.value * perUnit as real == part.value as real)
  }

  function Divided(part: Option<nat>, perUnit: positive): (column: Option<real>)
    ensures Scaled(column, part, perUnit)
  {
    if part.None? then None else Some(part.value as real / perUnit as real)
  }

  const ML_X1000_PER_ML := 1000
  const CPSI_PER_PSI := 100

  /** The header's part of a row says what the header says. */
  ghost predicate ColumnsOfHeader(c: HeaderColumns, h: DispenseHeader) {
    && c.recipeNumber == h.info.recipeNumber && c.jobInfo == h.info.jobInfo
    && c.referenceCycle == h.info.referenceCycle && c.recipeTitle == h.recipeTitle && c.slotId == h.info.slotId
    && c.volumeSetpointUl == h.volumeSetpoint && c.confirmationPct == h.confirmationPct
    && Scaled(c.volumeMeasuredMl, h.volumeMeasured, ML_X1000_PER_ML)
    && Scaled(c.readyPressurePsi, h.info.readyPressure, CPSI_PER_PSI)
    && Scaled(c.referenceReadyPressurePsi, h.info.referenceReadyPressure, CPSI_PER_PSI)
  }

  /** The columns that come from the profile info and the collection itself. */
  ghost predicate ColumnsOfCapture(row: DispenseRow, c: Capture) {
    && row.cycle == c.cycle && row.newestCycle == c.newestCycle && row.cyclesBehind == c.newestCycle - c.cycle
    && row.serial == c.pump.serial && row.firmware == c.pump.firmware
    && row.triggeredAt == c.info.time && row.recordedAt == c.collectedAt
    && row.sampleInterval == c.info.sampleInterval && row.sampleCount == c.info.unencodedSize
    && row.startOfCycle == c.info.startCycle && row.dispenseEnd == c.info.dispenseEnd
    && row.filtrationEnd == c.info.endFiltration && row.fillEnd == c.info.fillEnd
    && row.endOfCycle == c.info.endCycle
    && row.profileType * (ENCODING_MASK + 1) + row.encoding == c.info.typeEncoding && row.encoding <= ENCODING_MASK
  }

  function OfTraces(notes: seq<Note>): (p: seq<Problem>)
    ensures |p| == |notes|
  {
    seq(|notes|, i requires 0 <= i < |notes| => OfTrace(notes[i]))
  }

  function OfHeaders(lines: seq<HeaderLine>): (p: seq<Problem>)
    ensures |p| == |lines|
  {
    seq(|lines|, i requires 0 <= i < |lines| => OfHeader(lines[i]))
  }

  /** What the header adds to the problem list: its own problems, or why there is none. */
  function HeaderProblems(c: Capture): seq<Problem> {
    match c.header
    case None => if c.headerProblem.Some? then [NoHeader(c.headerProblem.value)] else []
    case Some(h) =>
      (if h.info.time != Some(c.info.time) then [TimesDisagree(h.info.time, c.info.time)] else [])
      + OfHeaders(h.problems)
  }

  /** The repairs of a trace's chunks, in order. */
  function RepairsIn(trace: nat, chunks: seq<ChunkLog>): seq<RepairEntry> {
    if chunks == [] then []
    else
      var c := chunks[|chunks| - 1];
      RepairsIn(trace, chunks[..|chunks| - 1])
      + if c.repair.Some? then [RepairEntry(trace, c.start, c.repair.value)] else []
  }

  function RetriesIn(chunks: seq<ChunkLog>): int {
    if chunks == [] then 0 else RetriesIn(chunks[..|chunks| - 1]) + chunks[|chunks| - 1].attempts - 1
  }

  function FailedIn(chunks: seq<ChunkLog>): nat {
    if chunks == [] then 0
    else FailedIn(chunks[..|chunks| - 1]) + if chunks[|chunks| - 1].failed then 1 else 0
  }

  /** What the row says about its traces: which are blank, and what it took to get the others. */
  datatype Account = Account(blankTraces: seq<nat>, retries: int, failedChunks: nat, repairs: seq<RepairEntry>)

  function AccountOf(traces: seq<TraceData>, decoded: seq<Option<Samples>>): Account
    requires |decoded| == |traces|
  {
    if traces == [] then Account([], 0, 0, [])
    else
      var n := |traces| - 1;
      var t, samples := traces[n], decoded[n];
      var before := AccountOf(traces[..n], decoded[..n]);
      Account(if samples.None? then before.blankTraces + [t.trace] else before.blankTraces,
              before.retries + RetriesIn(t.chunks),
              before.failedChunks + FailedIn(t.chunks),
              if samples.None? then before.repairs else before.repairs + RepairsIn(t.trace, t.chunks))
  }

  /** Every note about a trace is in the problem list, and nothing else comes from there. */
  lemma OfTracesExactly(notes: seq<Note>, p: Problem)
    ensures p in OfTraces(notes) <==> p.OfTrace? && p.note in notes
  {
    if p.OfTrace? {
      if i :| 0 <= i < |notes| && notes[i] == p.note {
        assert OfTraces(notes)[i] == p;
      }
    }
  }

  /** Exactly what the header adds to the problem list. */
  lemma HeaderProblemsExactly(c: Capture, p: Problem)
    ensures p in HeaderProblems(c) <==>
      match p
      case OfTrace(_) => false
      case TimesDisagree(header, info) =>
        c.header.Some? && header == c.header.value.info.time && info == c.info.time && header != Some(info)
      case OfHeader(line) => c.header.Some? && line in c.header.value.problems
      case NoHeader(why) => c.header.None? && c.headerProblem == Some(why)
  {
    if c.header.Some? {
      var lines := c.header.value.problems;
      forall line
        ensures OfHeader(line) in OfHeaders(lines) <==> line in lines
      {
        if i :| 0 <= i < |lines| && lines[i] == line {
          assert OfHeaders(lines)[i] == OfHeader(line);
        }
      }
    }
  }

  /** What the row takes from the header, or leaves empty. */
  method FillHeader(capture: Capture) returns (columns: HeaderColumns, problems: seq<Problem>)
    ensures capture.header.None? ==> columns == NO_COLUMNS
    ensures capture.header.Some? ==> ColumnsOfHeader(columns, capture.header.value)
    ensures problems == HeaderProblems(capture)
  {
    columns, problems := NO_COLUMNS, [];
    match capture.header {
      case Some(h) =>
        columns := HeaderColumns(h.info.recipeNumber, h.info.jobInfo, h.info.referenceCycle, h.recipeTitle,
                                 h.info.slotId, h.volumeSetpoint, Divided(h.volumeMeasured, ML_X1000_PER_ML),
                                 h.confirmationPct, Divided(h.info.readyPressure, CPSI_PER_PSI),
                                 Divided(h.info.referenceReadyPressure, CPSI_PER_PSI));
        if h.info.time != Some(capture.info.time) {
          problems := problems + [TimesDisagree(h.info.time, capture.info.time)];
        }
        problems := problems + OfHeaders(h.problems);
      case None =>
        if capture.headerProblem.Some? {
          problems := [NoHeader(capture.headerProblem.value)];
        }
    }
  }

  /** One trace's chunks, counted into the account; a repair only counts if the trace made it into the profile. */
  method CountChunks(pull: TraceData, kept: bool, before: Account) returns (after: Account)
    ensures after == Account(before.blankTraces, before.retries + RetriesIn(pull.chunks),
                             before.failedChunks + FailedIn(pull.chunks),
                             if kept then before.repairs + RepairsIn(pull.trace, pull.chunks) else before.repairs)
  {
    hide RepairsIn, RetriesIn, FailedIn;
    var retries, failed, repairs := before.retries, before.failedChunks, before.repairs;
    NoChunks(pull.trace);
    for j := 0 to |pull.chunks|
      invariant retries == before.retries + RetriesIn(pull.chunks[..j])
      invariant failed == before.failedChunks + FailedIn(pull.chunks[..j])
      invariant repairs == if kept then before.repairs + RepairsIn(pull.trace, pull.chunks[..j]) else before.repairs
    {
      var chunk := pull.chunks[j];
      OneMoreChunkCounted(pull.trace, pull.chunks, j);
      retries := retries + chunk.attempts - 1;
      if chunk.failed {
        failed := failed + 1;
      }
      if chunk.repair.Some? && kept {
        repairs := repairs + [RepairEntry(pull.trace, chunk.start, chunk.repair.value)];
      }
    }
    assert pull.chunks[..|pull.chunks|] == pull.chunks;
    after := Account(before.blankTraces, retries, failed, repairs);
  }

  method CountTraces(traces: seq<TraceData>, decoded: seq<Option<Samples>>) returns (account: Account)
    requires |decoded| == |traces|
    ensures account == AccountOf(traces, decoded)
  {
    hide RepairsIn, RetriesIn, FailedIn, AccountOf;
    account := Account([], 0, 0, []);
    NothingCounted();
    for i := 0 to |traces|
      invariant account == AccountOf(traces[..i], decoded[..i])
    {
      if decoded[i].None? {
        account := account.(blankTraces := account.blankTraces + [traces[i].trace]);
      }
      account := CountChunks(traces[i], decoded[i].Some?, account);
      OneMoreCounted(traces, decoded, i);
    }
    assert traces[..|traces|] == traces && decoded[..|decoded|] == decoded;
  }

  /** All the chunks of all the traces, in order. */
  function AllChunks(traces: seq<TraceData>): seq<ChunkLog> {
    if traces == [] then [] else AllChunks(traces[..|traces| - 1]) + traces[|traces| - 1].chunks
  }

  lemma {:induction false} FailedExactly(chunks: seq<ChunkLog>)
    ensures FailedIn(chunks) == |set j | 0 <= j < |chunks| && chunks[j].failed|
  {
    if chunks != [] {
      var n := |chunks| - 1;
      FailedExactly(chunks[..n]);
      var before := set j | 0 <= j < n && chunks[..n][j].failed;
      var all := set j | 0 <= j < |chunks| && chunks[j].failed;
      assert all == before + if chunks[n].failed then {n} else {};
    }
  }

  lemma {:induction false} FailedJoined(a: seq<ChunkLog>, b: seq<ChunkLog>)
    ensures FailedIn(a + b) == FailedIn(a) + FailedIn(b)
  {
    if b == [] {
      assert a + b == a;
    } else {
      var n := |b| - 1;
      FailedJoined(a, b[..n]);
      assert (a + b)[..|a + b| - 1] == a + b[..n];
    }
  }

  /** The failed chunks a row counts are exactly those marked failed. */
  lemma {:induction false} FailedChunksExactly(traces: seq<TraceData>, decoded: seq<Option<Samples>>)
    requires |decoded| == |traces|
    ensures var chunks := AllChunks(traces);
      AccountOf(traces, decoded).failedChunks == |set j | 0 <= j < |chunks| && chunks[j].failed|
  {
    hide RepairsIn, RetriesIn, FailedIn;
    FailedExactly(AllChunks(traces));
    if traces == [] {
      FailedExactly([]);
    } else {
      var n := |traces| - 1;
      FailedChunksExactly(traces[..n], decoded[..n]);
      FailedExactly(AllChunks(traces[..n]));
      FailedJoined(AllChunks(traces[..n]), traces[n].chunks);
    }
  }

  lemma LastCounted(traces: seq<TraceData>, decoded: seq<Option<Samples>>)
    requires |decoded| == |traces| > 0
    ensures var n := |traces| - 1;
      var before, after := AccountOf(traces[..n], decoded[..n]), AccountOf(traces, decoded);
      && after.blankTraces == before.blankTraces + (if decoded[n].None? then [traces[n].trace] else [])
      && after.repairs == before.repairs
           + (if decoded[n].None? then [] else RepairsIn(traces[n].trace, traces[n].chunks))
  {
    hide RepairsIn, RetriesIn, FailedIn;
  }

  ghost predicate BlankAt(traces: seq<TraceData>, decoded: seq<Option<Samples>>, i: nat, trace: nat) {
    i < |traces| && i < |decoded| && decoded[i].None? && traces[i].trace == trace
  }

  /** The blank traces a row lists are exactly those without samples. */
  lemma {:induction false} BlanksExactly(traces: seq<TraceData>, decoded: seq<Option<Samples>>, trace: nat)
    requires |decoded| == |traces|
    ensures trace in AccountOf(traces, decoded).blankTraces <==>
            exists i: nat :: BlankAt(traces, decoded, i, trace)
  {
    if traces == [] {
      NothingCounted();
    } else {
      hide AccountOf;
      var n := |traces| - 1;
      LastCounted(traces, decoded);
      BlanksExactly(traces[..n], decoded[..n], trace);
      if i: nat :| BlankAt(traces[..n], decoded[..n], i, trace) {
        assert BlankAt(traces, decoded, i, trace);
      }
      if i: nat :| BlankAt(traces, decoded, i, trace) {
        assert i < n ==> BlankAt(traces[..n], decoded[..n], i, trace);
      }
      assert BlankAt(traces, decoded, n, trace) <==> decoded[n].None? && traces[n].trace == trace;
    }
  }

  /** And there are as many of them. */
  lemma {:induction false} BlanksCounted(traces: seq<TraceData>, decoded: seq<Option<Samples>>)
    requires |decoded| == |traces|
    ensures |AccountOf(traces, decoded).blankTraces| == |set i | 0 <= i < |decoded| && decoded[i].None?|
  {
    hide RepairsIn, RetriesIn, FailedIn;
    if traces != [] {
      var n := |traces| - 1;
      BlanksCounted(traces[..n], decoded[..n]);
      var before := set i | 0 <= i < n && decoded[..n][i].None?;
      var all := set i | 0 <= i < |decoded| && decoded[i].None?;
      assert all == before + if decoded[n].None? then {n} else {};
    }
  }

  ghost predicate RepairedAt(t: TraceData, j: nat, e: RepairEntry) {
    j < |t.chunks| && t.chunks[j].repair == Some(e.repair) && e.start == t.chunks[j].start && e.trace == t.trace
  }

  lemma {:induction false} RepairsInExactly(t: TraceData, n: nat, e: RepairEntry)
    requires n <= |t.chunks|
    ensures e in RepairsIn(t.trace, t.chunks[..n]) <==> exists j: nat :: j < n && RepairedAt(t, j, e)
  {
    if n > 0 {
      RepairsInExactly(t, n - 1, e);
      assert t.chunks[..n][..n - 1] == t.chunks[..n - 1];
      var c := t.chunks[n - 1];
      assert RepairedAt(t, n - 1, e) <==> c.repair.Some? && e == RepairEntry(t.trace, c.start, c.repair.value);
    }
  }

  ghost predicate ListedAt(traces: seq<TraceData>, decoded: seq<Option<Samples>>, i: nat, j: nat, e: RepairEntry) {
    i < |traces| && i < |decoded| && decoded[i].Some? && RepairedAt(traces[i], j, e)
  }

  /** The repairs a row lists are exactly the recorded ones of the traces that have samples. */
  lemma {:induction false} ListedRepairsExactly(traces: seq<TraceData>, decoded: seq<Option<Samples>>, e: RepairEntry)
    requires |decoded| == |traces|
    ensures e in AccountOf(traces, decoded).repairs <==>
            exists i: nat, j: nat :: ListedAt(traces, decoded, i, j, e)
  {
    if traces == [] {
      NothingCounted();
    } else {
      hide AccountOf, RepairsIn, RepairedAt;
      var n := |traces| - 1;
      LastCounted(traces, decoded);
      ListedRepairsExactly(traces[..n], decoded[..n], e);
      RepairsInExactly(traces[n], |traces[n].chunks|, e);
      assert traces[n].chunks[..|traces[n].chunks|] == traces[n].chunks;
      WithinChunks(traces[n], e);
      if i: nat, j: nat :| ListedAt(traces[..n], decoded[..n], i, j, e) {
        assert ListedAt(traces, decoded, i, j, e);
      }
      if i: nat, j: nat :| ListedAt(traces, decoded, i, j, e) {
        assert i < n ==> ListedAt(traces[..n], decoded[..n], i, j, e);
      }
      if j: nat :| j < |traces[n].chunks| && RepairedAt(traces[n], j, e) && decoded[n].Some? {
        assert ListedAt(traces, decoded, n, j, e);
      }
    }
  }

  lemma WithinChunks(t: TraceData, e: RepairEntry)
    ensures forall j: nat :: RepairedAt(t, j, e) ==> j < |t.chunks|
  {}

  lemma NothingCounted()
    ensures AccountOf([], []) == Account([], 0, 0, [])
  {}

  lemma OneMoreCounted(traces: seq<TraceData>, decoded: seq<Option<Samples>>, i: nat)
    requires |decoded| == |traces| && i < |traces|
    ensures var t := traces[i];
      var before := AccountOf(traces[..i], decoded[..i]);
      AccountOf(traces[..i + 1], decoded[..i + 1]) ==
      Account(if decoded[i].None? then before.blankTraces + [t.trace] else before.blankTraces,
              before.retries + RetriesIn(t.chunks),
              before.failedChunks + FailedIn(t.chunks),
              if decoded[i].None? then before.repairs else before.repairs + RepairsIn(t.trace, t.chunks))
  {
    hide RepairsIn, RetriesIn, FailedIn;
    assert traces[..i + 1][..i] == traces[..i] && decoded[..i + 1][..i] == decoded[..i];
  }

  method DispenseRecord(capture: Capture, decoded: seq<Option<Samples>>, notes: seq<Note>) returns (row: DispenseRow)
    requires |decoded| == |capture.traces|
    ensures ColumnsOfCapture(row, capture)
    ensures row.headerAvailable == capture.header.Some?
    ensures if capture.header.Some? then ColumnsOfHeader(row.header, capture.header.value) else row.header == NO_COLUMNS
    ensures row.objectUri == None && row.problems == OfTraces(notes) + HeaderProblems(capture)
    ensures Account(row.blankTraces, row.retries, row.failedChunks, row.repairs) == AccountOf(capture.traces, decoded)
    ensures row.reconstructed <==> row.repairs != []
  {
    hide AccountOf;
    var columns, problems := FillHeader(capture);
    var account := CountTraces(capture.traces, decoded);
    var info := capture.info;
    row := DispenseRow(capture.cycle, capture.pump.serial, capture.pump.firmware, info.time, capture.collectedAt,
                       info.sampleInterval, info.unencodedSize, info.startCycle, info.dispenseEnd, info.endFiltration,
                       info.fillEnd, info.endCycle, info.ProfileType(), info.Encoding(), capture.newestCycle,
                       capture.newestCycle - capture.cycle, capture.header.Some?, columns, None,
                       account.repairs != [], account.repairs, account.blankTraces, account.retries,
                       account.failedChunks, OfTraces(notes) + problems);
  }

  lemma NoChunks(trace: nat)
    ensures RetriesIn([]) == 0 && FailedIn([]) == 0 && RepairsIn(trace, []) == []
  {}

  lemma OneMoreChunkCounted(trace: nat, chunks: seq<ChunkLog>, j: nat)
    requires j < |chunks|
    ensures var c := chunks[j];
      && RetriesIn(chunks[..j + 1]) == RetriesIn(chunks[..j]) + c.attempts - 1
      && FailedIn(chunks[..j + 1]) == FailedIn(chunks[..j]) + (if c.failed then 1 else 0)
      && RepairsIn(trace, chunks[..j + 1]) == RepairsIn(trace, chunks[..j])
           + if c.repair.Some? then [RepairEntry(trace, c.start, c.repair.value)] else []
  {
    assert chunks[..j + 1][..j] == chunks[..j];
  }

  // ----- the profile as a table

  /** A trace's column, and how many of its raw steps make one of the column's unit. */
  datatype TraceColumn = TraceColumn(title: string, signed: bool, scale: positive)

  type positive = n: nat | n > 0 witness 1

  const TIME_TITLE := "Time(sec)"
  const MS_PER_SEC := 1000

  /** In trace number order. */
  const TRACE_COLUMNS: seq<TraceColumn> := [
    TraceColumn("Dispense Pressure (psi)", true, 100),
    TraceColumn("Fill Pressure (psi)", true, 100),
    TraceColumn("Dispense Position (ml)", false, 1000),
    TraceColumn("Fill Position (ml)", false, 1000),
    TraceColumn("Dispense Current (mA)", true, 1),
    TraceColumn("System Status (code)", false, 1),
    TraceColumn("Valves Values (bit field)", false, 1),
    TraceColumn("Flow Sensor (ml/s)", false, 1000),
    TraceColumn("N2 Supply (psi)", true, 100),
    TraceColumn("Vacuum Supply (psi)", true, 100)
  ]

  /** Cells in the column's unit; None is an empty one. */
  type Column = seq<Option<real>>

  function ToSigned(w: word): (n: int)
    ensures -0x8000 <= n < 0x8000 && Wrap(n) == w
  {
    if w >= NEGATIVE_FROM then w - WORD_RANGE else w
  }

  /** A raw sample in its column's unit. The scale has as many decimals as the column, so nothing is rounded off. */
  function CellOf(raw: word, column: TraceColumn): real
  {
    (if column.signed then ToSigned(raw) else raw) as real / column.scale as real
  }

  /** What a cell says of a raw word: scaled back it is a number with the same sixteen bits, of the column's kind. */
  ghost predicate SaysSample(cell: real, raw: word, column: TraceColumn) {
    exists v: int :: SaysNumber(cell, v, raw, column)
  }

  ghost predicate SaysNumber(cell: real, v: int, raw: word, column: TraceColumn) {
    && cell * column.scale as real == v as real && v % 0x1_0000 == raw
    && (if column.signed then -0x8000 <= v < 0x8000 else 0 <= v < 0x1_0000)
  }

  lemma CellSaysSample(raw: word, column: TraceColumn)
    ensures SaysSample(CellOf(raw, column), raw, column)
  {
    var v: int := if column.signed then ToSigned(raw) else raw;
    ScaledBack(v as real, column.scale as real);
    assert SaysNumber(CellOf(raw, column), v, raw, column);
  }

  lemma ScaledBack(x: real, d: real)
    requires d > 0.0
    ensures x / d * d == x
  {}

  /** One cell of a trace's column. */
  ghost predicate CellSays(cell: Option<real>, samples: Option<Samples>, k: nat, column: TraceColumn)
    requires samples.Some? ==> k < |samples.value|
  {
    && (cell.Some? <==> samples.Some?)
    && (cell.Some? ==> SaysSample(cell.value, samples.value[k], column))
  }

  lemma ColumnSaysSamples(n: nat, column: TraceColumn, samples: Option<Samples>)
    requires samples.Some? ==> |samples.value| == n
    ensures |ColumnOf(n, column, samples)| == n
    ensures forall k :: 0 <= k < n ==> CellSays(ColumnOf(n, column, samples)[k], samples, k, column)
  {
    hide CellOf, SaysSample;
    forall k | 0 <= k < n
      ensures CellSays(ColumnOf(n, column, samples)[k], samples, k, column)
    {
      if samples.Some? {
        CellSaysSample(samples.value[k], column);
      }
    }
  }

  function ColumnOf(sampleCount: nat, column: TraceColumn, samples: Option<Samples>): Column
  {
    match samples
    case None => seq(sampleCount, _ => None)
    case Some(s) => seq(|s|, i requires 0 <= i < |s| => Some(CellOf(s[i], column)))
  }

  lemma CellTellsSample(a: word, b: word, column: TraceColumn)
    requires CellOf(a, column) == CellOf(b, column)
    ensures a == b
  {
    var x: real := if column.signed then ToSigned(a) as real else a as real;
    var y: real := if column.signed then ToSigned(b) as real else b as real;
    SameQuotient(x, y, column.scale as real);
    assert Wrap(ToSigned(a)) == a && Wrap(ToSigned(b)) == b;
  }

  lemma SameQuotient(x: real, y: real, d: real)
    requires d > 0.0 && x / d == y / d
    ensures x == y
  {
    assert x == x / d * d && y == y / d * d;
  }

  /** Nothing is lost on the way into the table: the column gives back the samples, or that there were none. */
  lemma ColumnTellsSamples(n: nat, column: TraceColumn, a: Option<Samples>, b: Option<Samples>)
    requires n > 0
    requires (a.Some? ==> |a.value| == n) && (b.Some? ==> |b.value| == n)
    requires ColumnOf(n, column, a) == ColumnOf(n, column, b)
    ensures a == b
  {
    hide CellOf;
    var ca, cb := ColumnOf(n, column, a), ColumnOf(n, column, b);
    assert ca[0] == cb[0] && (a.Some? <==> ca[0].Some?) && (b.Some? <==> cb[0].Some?);
    if a.Some? {
      forall i | 0 <= i < n
        ensures a.value[i] == b.value[i]
      {
        assert ca[i] == cb[i];
        CellTellsSample(a.value[i], b.value[i], column);
      }
      assert a.value == b.value;
    }
  }

  /** When a sample was taken, in seconds from the trigger. */
  function SecondsOf(sample: nat, info: ProfileInfo): real {
    ((sample - info.startCycle) * info.sampleInterval) as real / MS_PER_SEC as real
  }

  function TimeColumn(info: ProfileInfo): Column {
    seq(info.unencodedSize, i requires 0 <= i < info.unencodedSize => Some(SecondsOf(i, info)))
  }

  lemma TimeRunsEvenly(sample: nat, info: ProfileInfo)
    ensures SecondsOf(info.startCycle, info) == 0.0
    ensures SecondsOf(sample + 1, info) - SecondsOf(sample, info) == info.sampleInterval as real / MS_PER_SEC as real
  {
    var before := (sample - info.startCycle) * info.sampleInterval;
    var after := (sample + 1 - info.startCycle) * info.sampleInterval;
    assert after == before + info.sampleInterval;
    assert after as real == before as real + info.sampleInterval as real;
  }

  predicate Titled(title: string, upTo: nat)
    requires upTo <= |TRACE_COLUMNS|
  {
    exists i :: 0 <= i < upTo && TRACE_COLUMNS[i].title == title
  }

  lemma TitlesDiffer(i: nat, j: nat)
    requires i < |TRACE_COLUMNS| && j < |TRACE_COLUMNS| && i != j
    ensures TRACE_COLUMNS[i].title != TRACE_COLUMNS[j].title && TRACE_COLUMNS[i].title != TIME_TITLE
  {}

  /** One row per sample and one column per trace, so every column has to be as long as the time column. */
  method ProfileFrame(info: ProfileInfo, decoded: seq<Option<Samples>>) returns (columns: map<string, Column>)
    requires |decoded| == |TRACE_COLUMNS|
    requires forall i :: 0 <= i < |decoded| && decoded[i].Some? ==> |decoded[i].value| == info.unencodedSize
    ensures forall title <- columns :: |columns[title]| == info.unencodedSize
    ensures |columns| == |TRACE_COLUMNS| + 1 && TIME_TITLE in columns && columns[TIME_TITLE] == TimeColumn(info)
    ensures forall i :: 0 <= i < |TRACE_COLUMNS| ==>
              TRACE_COLUMNS[i].title in columns
              && columns[TRACE_COLUMNS[i].title] == ColumnOf(info.unencodedSize, TRACE_COLUMNS[i], decoded[i])
    ensures forall k :: 0 <= k < info.unencodedSize ==> columns[TIME_TITLE][k] == Some(SecondsOf(k, info))
    ensures forall i, k :: 0 <= i < |TRACE_COLUMNS| && 0 <= k < info.unencodedSize ==>
              CellSays(columns[TRACE_COLUMNS[i].title][k], decoded[i], k, TRACE_COLUMNS[i])
  {
    hide CellOf, SecondsOf, CellSays;
    columns := map[TIME_TITLE := TimeColumn(info)];
    for i := 0 to |TRACE_COLUMNS|
      invariant |columns| == i + 1 && TIME_TITLE in columns && columns[TIME_TITLE] == TimeColumn(info)
      invariant forall title <- columns :: |columns[title]| == info.unencodedSize
      invariant forall title <- columns :: title == TIME_TITLE || Titled(title, i)
      invariant forall j :: 0 <= j < i ==>
                  TRACE_COLUMNS[j].title in columns
                  && columns[TRACE_COLUMNS[j].title] == ColumnOf(info.unencodedSize, TRACE_COLUMNS[j], decoded[j])
    {
      var column := TRACE_COLUMNS[i];
      forall j | 0 <= j < |TRACE_COLUMNS| && j != i
        ensures TRACE_COLUMNS[j].title != column.title && column.title != TIME_TITLE
      {
        TitlesDiffer(i, j);
      }
      assert TRACE_COLUMNS[if i == 0 then 1 else 0].title != column.title;
      columns := columns[column.title := ColumnOf(info.unencodedSize, column, decoded[i])];
      assert TRACE_COLUMNS[i].title == column.title;
    }
    forall i, k | 0 <= i < |TRACE_COLUMNS| && 0 <= k < info.unencodedSize
      ensures CellSays(columns[TRACE_COLUMNS[i].title][k], decoded[i], k, TRACE_COLUMNS[i])
    {
      ColumnSaysSamples(info.unencodedSize, TRACE_COLUMNS[i], decoded[i]);
    }
  }
}
