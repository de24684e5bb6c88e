/** A capture written to a directory and read back. */
module CaptureFiles {
  import opened Bytes
  import opened Results
  import opened Decimal
  import opened ProfilePull
  import opened PullLaws
  import opened Captures
  import PumpClient

  const INFO_FILE_NAME := "profile_info.json"
  const CAPTURE_FILE_NAME := "capture.json"

  function TraceFileName(trace: nat): string {
    "trace_" + (Dec(trace) + ".bin")
  }

  function BadFileName(trace: nat, start: nat, attempt: nat): string {
    "trace_" + (Dec(trace) + ("_" + (Dec(start) + ("_" + (Dec(attempt) + ".bad")))))
  }

  /** A chunk's record as saved: its bad replies replaced by the names of the files that hold them. */
  datatype SavedChunk = SavedChunk(log: ChunkLog, badFiles: seq<(nat, string)>)

  datatype SavedTrace = SavedTrace(trace: nat, expectedWords: nat, chunks: seq<SavedChunk>)

  datatype SavedCapture = SavedCapture(
    address: string, cycle: nat, newestCycle: nat, collectedAt: real, pump: PumpIdentity,
    header: Option<DispenseHeader>, headerProblem: Option<HeaderProblem>, traces: seq<SavedTrace>)

  datatype Content = Binary(data: Bytes) | Info(raw: Bytes) | Json(saved: SavedCapture)

  type Files = map<string, Content>

  datatype Entry = Entry(name: string, content: Content)

  // ----- what is written

  function BadEntries(trace: nat, start: nat, bad: seq<BadReply>): seq<Entry> {
    if bad == [] then []
    else BadEntries(trace, start, bad[..|bad| - 1])
         + [Entry(BadFileName(trace, start, bad[|bad| - 1].attempt), Binary(bad[|bad| - 1].frame))]
  }

  function ChunkEntries(trace: nat, chunks: seq<ChunkLog>): seq<Entry> {
    if chunks == [] then []
    else ChunkEntries(trace, chunks[..|chunks| - 1])
         + BadEntries(trace, chunks[|chunks| - 1].start, chunks[|chunks| - 1].badReplies)
  }

  function TraceEntries(traces: seq<TraceData>): seq<Entry> {
    if traces == [] then []
    else
      var t := traces[|traces| - 1];
      TraceEntries(traces[..|traces| - 1]) + [Entry(TraceFileName(t.trace), Binary(t.data))]
      + ChunkEntries(t.trace, t.chunks)
  }

  function SavedChunkOf(trace: nat, c: ChunkLog): SavedChunk {
    SavedChunk(c.(badReplies := []),
               seq(|c.badReplies|, i requires 0 <= i < |c.badReplies| =>
                 (c.badReplies[i].attempt, BadFileName(trace, c.start, c.badReplies[i].attempt))))
  }

  function SavedTraceOf(t: TraceData): SavedTrace {
    SavedTrace(t.trace, t.expectedWords,
               seq(|t.chunks|, i requires 0 <= i < |t.chunks| => SavedChunkOf(t.trace, t.chunks[i])))
  }

  function SavedCaptureOf(c: Capture): SavedCapture {
    SavedCapture(c.address, c.cycle, c.newestCycle, c.collectedAt, c.pump, c.header, c.headerProblem,
          seq(|c.traces|, i requires 0 <= i < |c.traces| => SavedTraceOf(c.traces[i])))
  }

  function Entries(c: Capture): seq<Entry> {
    [Entry(INFO_FILE_NAME, Info(c.infoRaw))] + TraceEntries(c.traces)
    + [Entry(CAPTURE_FILE_NAME, Json(SavedCaptureOf(c)))]
  }

  /** Files after writing some more, each replacing whatever had its name. */
  function Written(files: Files, entries: seq<Entry>): Files {
    if entries == [] then files
    else
      var last := entries[|entries| - 1];
      Written(files, entries[..|entries| - 1])[last.name := last.content]
  }

  // ----- what is read back

  function ReadBinary(files: Files, name: string): Option<Bytes> {
    if name in files && files[name].Binary? then Some(files[name].data) else None
  }

  function ReadBad(files: Files, badFiles: seq<(nat, string)>): Option<seq<BadReply>> {
    if badFiles == [] then Some([])
    else
      var before := ReadBad(files, badFiles[..|badFiles| - 1]);
      var (attempt, name) := badFiles[|badFiles| - 1];
      var frame := ReadBinary(files, name);
      if before.None? || frame.None? then None else Some(before.value + [BadReply(attempt, frame.value)])
  }

  function ReadChunks(files: Files, chunks: seq<SavedChunk>): Option<seq<ChunkLog>> {
    if chunks == [] then Some([])
    else
      var before := ReadChunks(files, chunks[..|chunks| - 1]);
      var c := chunks[|chunks| - 1];
      var bad := ReadBad(files, c.badFiles);
      if before.None? || bad.None? then None else Some(before.value + [c.log.(badReplies := bad.value)])
  }

  function ReadTraces(files: Files, traces: seq<SavedTrace>): Option<seq<TraceData>> {
    if traces == [] then Some([])
    else
      var before := ReadTraces(files, traces[..|traces| - 1]);
      var t := traces[|traces| - 1];
      var data := ReadBinary(files, TraceFileName(t.trace));
      var chunks := ReadChunks(files, t.chunks);
      if before.None? || data.None? || chunks.None? then None
      else Some(before.value + [TraceData(t.trace, t.expectedWords, data.value, chunks.value)])
  }

  /** The capture a directory holds, with the profile info parsed again from its raw bytes. */
  function ReadBack(files: Files, parseInfo: Bytes -> ProfileInfo): Option<Capture> {
    if CAPTURE_FILE_NAME !in files || !files[CAPTURE_FILE_NAME].Json? then None
    else if INFO_FILE_NAME !in files || !files[INFO_FILE_NAME].Info? then None
    else
      var saved := files[CAPTURE_FILE_NAME].saved;
      var raw := files[INFO_FILE_NAME].raw;
      var traces := ReadTraces(files, saved.traces);
      if traces.None? then None
      else Some(Capture(saved.address, saved.cycle, saved.newestCycle, saved.collectedAt, saved.pump, parseInfo(raw),
                        raw, traces.value, saved.header, saved.headerProblem))
  }

  /** A file of that name with bytes in it. */
  predicate HasBinary(files: Files, name: string) {
    name in files && files[name].Binary?
  }

  ghost predicate ChunkReadable(files: Files, c: SavedChunk) {
    forall k :: 0 <= k < |c.badFiles| ==> HasBinary(files, c.badFiles[k].1)
  }

  ghost predicate TraceReadable(files: Files, t: SavedTrace) {
    HasBinary(files, TraceFileName(t.trace)) && forall j :: 0 <= j < |t.chunks| ==> ChunkReadable(files, t.chunks[j])
  }

  lemma {:induction false} BadReadExactly(files: Files, badFiles: seq<(nat, string)>)
    ensures ReadBad(files, badFiles).Some? <==> forall k :: 0 <= k < |badFiles| ==> HasBinary(files, badFiles[k].1)
    ensures ReadBad(files, badFiles).Some? ==>
      && |ReadBad(files, badFiles).value| == |badFiles|
      && forall k :: 0 <= k < |badFiles| ==>
           ReadBad(files, badFiles).value[k] == BadReply(badFiles[k].0, files[badFiles[k].1].data)
  {
    if badFiles != [] {
      var n := |badFiles| - 1;
      BadReadExactly(files, badFiles[..n]);
      assert forall k :: 0 <= k < n ==> badFiles[..n][k] == badFiles[k];
    }
  }

  lemma {:induction false} ChunksReadExactly(files: Files, chunks: seq<SavedChunk>)
    ensures ReadChunks(files, chunks).Some? <==> forall j :: 0 <= j < |chunks| ==> ChunkReadable(files, chunks[j])
  {
    hide ReadBad;
    if chunks != [] {
      var n := |chunks| - 1;
      ChunksReadExactly(files, chunks[..n]);
      BadReadExactly(files, chunks[n].badFiles);
      assert forall j :: 0 <= j < n ==> chunks[..n][j] == chunks[j];
    }
  }

  lemma {:induction false} TracesReadExactly(files: Files, traces: seq<SavedTrace>)
    ensures ReadTraces(files, traces).Some? <==> forall i :: 0 <= i < |traces| ==> TraceReadable(files, traces[i])
  {
    hide ReadChunks, TraceFileName, ChunkReadable;
    if traces != [] {
      var n := |traces| - 1;
      TracesReadExactly(files, traces[..n]);
      ChunksReadExactly(files, traces[n].chunks);
      assert forall i :: 0 <= i < n ==> traces[..n][i] == traces[i];
    }
  }

  /** A directory is read if and only if every file is there, each one a trace or a bad reply names included. */
  lemma ReadBackExactly(files: Files, parseInfo: Bytes -> ProfileInfo)
    ensures ReadBack(files, parseInfo).Some? <==>
      && CAPTURE_FILE_NAME in files && files[CAPTURE_FILE_NAME].Json?
      && INFO_FILE_NAME in files && files[INFO_FILE_NAME].Info?
      && var traces := files[CAPTURE_FILE_NAME].saved.traces;
         forall i :: 0 <= i < |traces| ==> TraceReadable(files, traces[i])
  {
    hide ReadTraces, TraceReadable;
    if CAPTURE_FILE_NAME in files && files[CAPTURE_FILE_NAME].Json? {
      TracesReadExactly(files, files[CAPTURE_FILE_NAME].saved.traces);
    }
  }

  // ----- the client's own loops

  class Directory {
    var files: Files

    constructor (files: Files)
      ensures this.files == files
    {
      this.files := files;
    }

    method Write(name: string, content: Content)
      modifies this
      ensures files == old(files)[name := content]
    {
      files := files[name := content];
    }
  }

  lemma WrittenMore(files: Files, entries: seq<Entry>, e: Entry)
    ensures Written(files, entries + [e]) == Written(files, entries)[e.name := e.content]
  {
    var more := entries + [e];
    assert more[..|more| - 1] == entries && more[|more| - 1] == e;
  }

  method WriteRaw(capture: Capture, dir: Directory)
    modifies dir
    ensures dir.files == Written(old(dir.files), Entries(capture))
  {
    hide SavedCaptureOf, SavedTraceOf, BadFileName, TraceFileName, Written, TraceEntries, ChunkEntries;
    ghost var before := dir.files;
    ghost var done := [Entry(INFO_FILE_NAME, Info(capture.infoRaw))];
    NothingWritten(before);
    WrittenMore(before, [], Entry(INFO_FILE_NAME, Info(capture.infoRaw)));
    assert [] + done == done;
    dir.Write(INFO_FILE_NAME, Info(capture.infoRaw));
    var traces: seq<SavedTrace> := [];
    for i := 0 to |capture.traces|
      invariant done == [Entry(INFO_FILE_NAME, Info(capture.infoRaw))] + TraceEntries(capture.traces[..i])
      invariant dir.files == Written(before, done)
      invariant |traces| == i && forall j :: 0 <= j < i ==> traces[j] == SavedTraceOf(capture.traces[j])
    {
      var pull := capture.traces[i];
      TraceEntriesMore(capture.traces, i, [Entry(INFO_FILE_NAME, Info(capture.infoRaw))]);
      WrittenMore(before, done, Entry(TraceFileName(pull.trace), Binary(pull.data)));
      dir.Write(TraceFileName(pull.trace), Binary(pull.data));
      done := done + [Entry(TraceFileName(pull.trace), Binary(pull.data))];
      done := WriteChunks(dir, pull.trace, pull.chunks, before, done);
      traces := traces + [SavedTraceOf(pull)];
    }
    assert capture.traces[..|capture.traces|] == capture.traces;
    var saved := SavedCapture(capture.address, capture.cycle, capture.newestCycle, capture.collectedAt, capture.pump,
                              capture.header, capture.headerProblem, traces);
    SavedIs(capture, traces);
    WrittenMore(before, done, Entry(CAPTURE_FILE_NAME, Json(saved)));
    dir.Write(CAPTURE_FILE_NAME, Json(saved));
  }

  lemma NothingWritten(files: Files)
    ensures Written(files, []) == files && TraceEntries([]) == []
  {}

  lemma TraceEntriesMore(traces: seq<TraceData>, i: nat, front: seq<Entry>)
    requires i < |traces|
    ensures front + TraceEntries(traces[..i + 1])
         == front + TraceEntries(traces[..i]) + [Entry(TraceFileName(traces[i].trace), Binary(traces[i].data))]
            + ChunkEntries(traces[i].trace, traces[i].chunks)
  {
    hide TraceFileName, ChunkEntries;
    assert traces[..i + 1][..i] == traces[..i];
  }

  lemma SavedIs(c: Capture, traces: seq<SavedTrace>)
    requires |traces| == |c.traces| && forall j :: 0 <= j < |traces| ==> traces[j] == SavedTraceOf(c.traces[j])
    ensures SavedCapture(c.address, c.cycle, c.newestCycle, c.collectedAt, c.pump, c.header, c.headerProblem, traces)
         == SavedCaptureOf(c)
  {}

  lemma ChunkEntriesMore(trace: nat, chunks: seq<ChunkLog>, i: nat, front: seq<Entry>)
    requires i < |chunks|
    ensures front + ChunkEntries(trace, chunks[..i + 1])
         == front + ChunkEntries(trace, chunks[..i]) + BadEntries(trace, chunks[i].start, chunks[i].badReplies)
  {
    hide BadEntries;
    assert chunks[..i + 1][..i] == chunks[..i];
  }

  lemma BadEntriesMore(trace: nat, start: nat, bad: seq<BadReply>, j: nat, front: seq<Entry>)
    requires j < |bad|
    ensures front + BadEntries(trace, start, bad[..j + 1])
         == front + BadEntries(trace, start, bad[..j])
            + [Entry(BadFileName(trace, start, bad[j].attempt), Binary(bad[j].frame))]
  {
    hide BadFileName;
    assert bad[..j + 1][..j] == bad[..j];
  }

  lemma NoEntries(trace: nat, start: nat, front: seq<Entry>)
    ensures front + ChunkEntries(trace, []) == front && front + BadEntries(trace, start, []) == front
  {}

  /** Every bad reply of a trace's chunks in its own file. */
  method WriteChunks(dir: Directory, trace: nat, chunks: seq<ChunkLog>, ghost before: Files, ghost done: seq<Entry>)
    returns (ghost more: seq<Entry>)
    requires dir.files == Written(before, done)
    modifies dir
    ensures more == done + ChunkEntries(trace, chunks) && dir.files == Written(before, more)
  {
    hide BadFileName, BadEntries, ChunkEntries, Written;
    more := done;
    NoEntries(trace, 0, done);
    for i := 0 to |chunks|
      invariant more == done + ChunkEntries(trace, chunks[..i]) && dir.files == Written(before, more)
    {
      more := WriteBadReplies(dir, trace, chunks[i].start, chunks[i].badReplies, before, more);
      ChunkEntriesMore(trace, chunks, i, done);
    }
    assert chunks[..|chunks|] == chunks;
  }

  method WriteBadReplies(dir: Directory, trace: nat, start: nat, bad: seq<BadReply>, ghost before: Files,
                         ghost done: seq<Entry>)
    returns (ghost more: seq<Entry>)
    requires dir.files == Written(before, done)
    modifies dir
    ensures more == done + BadEntries(trace, start, bad) && dir.files == Written(before, more)
  {
    hide BadFileName, BadEntries, Written;
    more := done;
    NoEntries(trace, start, done);
    for j := 0 to |bad|
      invariant more == done + BadEntries(trace, start, bad[..j]) && dir.files == Written(before, more)
    {
      var name := BadFileName(trace, start, bad[j].attempt);
      WrittenMore(before, more, Entry(name, Binary(bad[j].frame)));
      dir.Write(name, Binary(bad[j].frame));
      more := more + [Entry(name, Binary(bad[j].frame))];
      BadEntriesMore(trace, start, bad, j, done);
    }
    assert bad[..|bad|] == bad;
  }

  /** Read a capture from a directory, failing if a file it names is missing. */
  method ReadRaw(dir: Directory, parseInfo: Bytes -> ProfileInfo) returns (result: Option<Capture>)
    ensures result == ReadBack(dir.files, parseInfo)
  {
    hide ReadChunks, ReadTraces;
    if CAPTURE_FILE_NAME !in dir.files || !dir.files[CAPTURE_FILE_NAME].Json? {
      return None;
    }
    if INFO_FILE_NAME !in dir.files || !dir.files[INFO_FILE_NAME].Info? {
      return None;
    }
    var saved := dir.files[CAPTURE_FILE_NAME].saved;
    var infoRaw := dir.files[INFO_FILE_NAME].raw;
    var traces := ReadSavedTraces(dir, saved.traces);
    if traces.None? {
      return None;
    }
    result := Some(Capture(saved.address, saved.cycle, saved.newestCycle, saved.collectedAt, saved.pump,
                           parseInfo(infoRaw), infoRaw, traces.value, saved.header, saved.headerProblem));
  }

  method ReadSavedTraces(dir: Directory, saved: seq<SavedTrace>) returns (traces: Option<seq<TraceData>>)
    ensures traces == ReadTraces(dir.files, saved)
  {
    hide ReadChunks, TraceFileName;
    var read: seq<TraceData> := [];
    for i := 0 to |saved|
      invariant ReadTraces(dir.files, saved[..i]) == Some(read)
    {
      var t := saved[i];
      assert saved[..i + 1][..i] == saved[..i];
      var data := ReadBinary(dir.files, TraceFileName(t.trace));
      var chunks := ReadSavedChunks(dir, t.chunks);
      if data.None? || chunks.None? {
        UnreadableTrace(dir.files, saved, i);
        return None;
      }
      read := read + [TraceData(t.trace, t.expectedWords, data.value, chunks.value)];
    }
    assert saved[..|saved|] == saved;
    traces := Some(read);
  }

  lemma {:induction false} UnreadableTrace(files: Files, saved: seq<SavedTrace>, i: nat)
    requires i < |saved| && ReadTraces(files, saved[..i + 1]) == None
    ensures ReadTraces(files, saved) == None
    decreases |saved|
  {
    hide ReadChunks, TraceFileName;
    if i + 1 == |saved| {
      assert saved[..i + 1] == saved;
    } else {
      var front := saved[..|saved| - 1];
      assert front[..i + 1] == saved[..i + 1];
      UnreadableTrace(files, front, i);
    }
  }

  method ReadSavedChunks(dir: Directory, saved: seq<SavedChunk>) returns (chunks: Option<seq<ChunkLog>>)
    ensures chunks == ReadChunks(dir.files, saved)
  {
    hide ReadBad;
    var read: seq<ChunkLog> := [];
    for i := 0 to |saved|
      invariant ReadChunks(dir.files, saved[..i]) == Some(read)
    {
      assert saved[..i + 1][..i] == saved[..i];
      var bad := ReadBadReplies(dir, saved[i].badFiles);
      if bad.None? {
        UnreadableChunk(dir.files, saved, i);
        return None;
      }
      read := read + [saved[i].log.(badReplies := bad.value)];
    }
    assert saved[..|saved|] == saved;
    chunks := Some(read);
  }

  lemma {:induction false} UnreadableChunk(files: Files, saved: seq<SavedChunk>, i: nat)
    requires i < |saved| && ReadChunks(files, saved[..i + 1]) == None
    ensures ReadChunks(files, saved) == None
    decreases |saved|
  {
    hide ReadBad;
    if i + 1 == |saved| {
      assert saved[..i + 1] == saved;
    } else {
      var front := saved[..|saved| - 1];
      assert front[..i + 1] == saved[..i + 1];
      UnreadableChunk(files, front, i);
    }
  }

  method ReadBadReplies(dir: Directory, badFiles: seq<(nat, string)>) returns (bad: Option<seq<BadReply>>)
    ensures bad == ReadBad(dir.files, badFiles)
  {
    hide ReadBinary;
    var read: seq<BadReply> := [];
    for i := 0 to |badFiles|
      invariant ReadBad(dir.files, badFiles[..i]) == Some(read)
    {
      assert badFiles[..i + 1][..i] == badFiles[..i];
      var frame := ReadBinary(dir.files, badFiles[i].1);
      if frame.None? {
        UnreadableReply(dir.files, badFiles, i);
        return None;
      }
      read := read + [BadReply(badFiles[i].0, frame.value)];
    }
    assert badFiles[..|badFiles|] == badFiles;
    bad := Some(read);
  }

  lemma {:induction false} UnreadableReply(files: Files, badFiles: seq<(nat, string)>, i: nat)
    requires i < |badFiles| && ReadBad(files, badFiles[..i + 1]) == None
    ensures ReadBad(files, badFiles) == None
    decreases |badFiles|
  {
    hide ReadBinary;
    if i + 1 == |badFiles| {
      assert badFiles[..i + 1] == badFiles;
    } else {
      var front := badFiles[..|badFiles| - 1];
      assert front[..i + 1] == badFiles[..i + 1];
      UnreadableReply(files, front, i);
    }
  }

  // ----- no two files share a name

  /** A bad reply's file is named by its trace, its chunk's start and its attempt, and by nothing else. */
  lemma BadNamesDiffer(trace: nat, start: nat, attempt: nat, trace': nat, start': nat, attempt': nat)
    requires BadFileName(trace, start, attempt) == BadFileName(trace', start', attempt')
    ensures trace == trace' && start == start' && attempt == attempt'
  {
    hide Dec;
    var y, y' := "_" + (Dec(attempt) + ".bad"), "_" + (Dec(attempt') + ".bad");
    var x, x' := "_" + (Dec(start) + y), "_" + (Dec(start') + y');
    Prefixed("trace_", Dec(trace) + x, Dec(trace') + x');
    SameNumber(trace, x, trace', x');
    Prefixed("_", Dec(start) + y, Dec(start') + y');
    SameNumber(start, y, start', y');
    Prefixed("_", Dec(attempt) + ".bad", Dec(attempt') + ".bad");
    SameNumber(attempt, ".bad", attempt', ".bad");
  }

  lemma Prefixed(p: string, s: string, t: string)
    ensures p + s == p + t ==> s == t
  {
    assert (p + s)[|p|..] == s && (p + t)[|p|..] == t;
  }

  /** How an entry comes to be written. */
  datatype Origin = OfInfo | OfCapture | OfTrace(i: nat) | OfBad(i: nat, j: nat, k: nat)

  predicate HasOrigin(c: Capture, o: Origin) {
    match o
    case OfInfo => true
    case OfCapture => true
    case OfTrace(i) => i < |c.traces|
    case OfBad(i, j, k) =>
      i < |c.traces| && j < |c.traces[i].chunks| && k < |c.traces[i].chunks[j].badReplies|
  }

  function EntryOf(c: Capture, o: Origin): Entry
    requires HasOrigin(c, o)
  {
    match o
    case OfInfo => Entry(INFO_FILE_NAME, Info(c.infoRaw))
    case OfCapture => Entry(CAPTURE_FILE_NAME, Json(SavedCaptureOf(c)))
    case OfTrace(i) => Entry(TraceFileName(c.traces[i].trace), Binary(c.traces[i].data))
    case OfBad(i, j, k) =>
      var chunk := c.traces[i].chunks[j];
      Entry(BadFileName(c.traces[i].trace, chunk.start, chunk.badReplies[k].attempt), Binary(chunk.badReplies[k].frame))
  }

  lemma {:induction false} BadEntryOrigin(trace: nat, start: nat, bad: seq<BadReply>, e: Entry)
    ensures e in BadEntries(trace, start, bad) <==>
            exists k :: 0 <= k < |bad| && e == Entry(BadFileName(trace, start, bad[k].attempt), Binary(bad[k].frame))
  {
    hide BadFileName;
    if bad != [] {
      var n := |bad| - 1;
      BadEntryOrigin(trace, start, bad[..n], e);
      if e in BadEntries(trace, start, bad[..n]) {
        var k :| 0 <= k < n && e == Entry(BadFileName(trace, start, bad[..n][k].attempt), Binary(bad[..n][k].frame));
        assert bad[..n][k] == bad[k];
      }
      if k :| 0 <= k < n && e == Entry(BadFileName(trace, start, bad[k].attempt), Binary(bad[k].frame)) {
        assert bad[..n][k] == bad[k];
      }
    }
  }

  ghost predicate BadAt(trace: nat, chunks: seq<ChunkLog>, j: nat, e: Entry) {
    j < |chunks| && e in BadEntries(trace, chunks[j].start, chunks[j].badReplies)
  }

  lemma {:induction false} ChunkEntryOrigin(trace: nat, chunks: seq<ChunkLog>, e: Entry)
    ensures e in ChunkEntries(trace, chunks) <==> exists j: nat :: BadAt(trace, chunks, j, e)
  {
    hide BadEntries;
    if chunks != [] {
      var n := |chunks| - 1;
      ChunkEntryOrigin(trace, chunks[..n], e);
      if j: nat :| BadAt(trace, chunks[..n], j, e) {
        assert BadAt(trace, chunks, j, e);
      }
      if j: nat :| BadAt(trace, chunks, j, e) {
        if j < n {
          assert BadAt(trace, chunks[..n], j, e);
        }
      }
      if e in BadEntries(trace, chunks[n].start, chunks[n].badReplies) {
        assert BadAt(trace, chunks, n, e);
      }
    }
  }

  ghost predicate TraceAt(traces: seq<TraceData>, i: nat, e: Entry) {
    && i < |traces|
    && (e == Entry(TraceFileName(traces[i].trace), Binary(traces[i].data))
        || e in ChunkEntries(traces[i].trace, traces[i].chunks))
  }

  lemma {:induction false} TraceEntryOrigin(traces: seq<TraceData>, e: Entry)
    ensures e in TraceEntries(traces) <==> exists i: nat :: TraceAt(traces, i, e)
  {
    hide ChunkEntries, TraceFileName;
    if traces != [] {
      var n := |traces| - 1;
      TraceEntryOrigin(traces[..n], e);
      if i: nat :| TraceAt(traces[..n], i, e) {
        assert TraceAt(traces, i, e);
      }
      if i: nat :| TraceAt(traces, i, e) {
        if i < n {
          assert TraceAt(traces[..n], i, e);
        }
      }
      if e == Entry(TraceFileName(traces[n].trace), Binary(traces[n].data))
         || e in ChunkEntries(traces[n].trace, traces[n].chunks) {
        assert TraceAt(traces, n, e);
      }
    }
  }

  lemma EntryHasOrigin(c: Capture, e: Entry) returns (o: Origin)
    requires e in Entries(c)
    ensures HasOrigin(c, o) && e == EntryOf(c, o)
  {
    hide TraceEntries, ChunkEntries, BadEntries, SavedCaptureOf, BadFileName, TraceFileName;
    if e == EntryOf(c, OfInfo) {
      o := OfInfo;
    } else if e == EntryOf(c, OfCapture) {
      o := OfCapture;
    } else {
      TraceEntryOrigin(c.traces, e);
      var i: nat :| TraceAt(c.traces, i, e);
      if e == EntryOf(c, OfTrace(i)) {
        o := OfTrace(i);
      } else {
        ChunkEntryOrigin(c.traces[i].trace, c.traces[i].chunks, e);
        var j: nat :| BadAt(c.traces[i].trace, c.traces[i].chunks, j, e);
        var chunk := c.traces[i].chunks[j];
        BadEntryOrigin(c.traces[i].trace, chunk.start, chunk.badReplies, e);
        var k :| 0 <= k < |chunk.badReplies|
          && e == Entry(BadFileName(c.traces[i].trace, chunk.start, chunk.badReplies[k].attempt),
                        Binary(chunk.badReplies[k].frame));
        o := OfBad(i, j, k);
      }
    }
  }

  lemma OriginHasEntry(c: Capture, o: Origin)
    requires HasOrigin(c, o)
    ensures EntryOf(c, o) in Entries(c)
  {
    hide TraceEntries, ChunkEntries, BadEntries, SavedCaptureOf, BadFileName, TraceFileName;
    var e := EntryOf(c, o);
    match o {
      case OfInfo => assert Entries(c)[0] == e;
      case OfCapture => assert Entries(c)[|Entries(c)| - 1] == e;
      case OfTrace(i) =>
        assert TraceAt(c.traces, i, e);
        TraceEntryOrigin(c.traces, e);
      case OfBad(i, j, k) =>
        var chunk := c.traces[i].chunks[j];
        BadEntryOrigin(c.traces[i].trace, chunk.start, chunk.badReplies, e);
        assert BadAt(c.traces[i].trace, c.traces[i].chunks, j, e);
        ChunkEntryOrigin(c.traces[i].trace, c.traces[i].chunks, e);
        assert TraceAt(c.traces, i, e);
        TraceEntryOrigin(c.traces, e);
    }
  }

  /** What every pull leaves behind: one pull a trace, chunk starts and each chunk's bad-reply attempts increasing. */
  ghost predicate WellOrdered(c: Capture) {
    && (forall i, j :: 0 <= i < j < |c.traces| ==> c.traces[i].trace != c.traces[j].trace)
    && (forall i :: 0 <= i < |c.traces| ==> ChunksOrdered(c.traces[i].chunks))
  }

  ghost predicate ChunksOrdered(chunks: seq<ChunkLog>) {
    StartsIncrease(chunks) && forall j :: 0 <= j < |chunks| ==> Increasing(chunks[j].badReplies)
  }

  lemma KindsDiffer(trace: nat, trace': nat, start: nat, attempt: nat)
    ensures TraceFileName(trace) != BadFileName(trace', start, attempt)
    ensures INFO_FILE_NAME != CAPTURE_FILE_NAME
    ensures TraceFileName(trace) != INFO_FILE_NAME && TraceFileName(trace) != CAPTURE_FILE_NAME
    ensures BadFileName(trace', start, attempt) != INFO_FILE_NAME
    ensures BadFileName(trace', start, attempt) != CAPTURE_FILE_NAME
  {
    hide Dec;
    var y := "_" + (Dec(start) + ("_" + (Dec(attempt) + ".bad")));
    assert TraceFileName(trace)[0] == 't' == BadFileName(trace', start, attempt)[0];
    assert INFO_FILE_NAME[0] == 'p' && CAPTURE_FILE_NAME[0] == 'c' && y[0] == '_' && ".bin"[0] == '.';
    if TraceFileName(trace) == BadFileName(trace', start, attempt) {
      Prefixed("trace_", Dec(trace) + ".bin", Dec(trace') + y);
      SameNumber(trace, ".bin", trace', y);
    }
  }

  lemma TraceNamesDiffer(trace: nat, trace': nat)
    requires TraceFileName(trace) == TraceFileName(trace')
    ensures trace == trace'
  {
    hide Dec;
    Prefixed("trace_", Dec(trace) + ".bin", Dec(trace') + ".bin");
    SameNumber(trace, ".bin", trace', ".bin");
  }

  /** The numbers in a file's name: its trace, and for a bad reply its chunk's start and its attempt. */
  function NumbersIn(c: Capture, o: Origin): (nat, nat, nat)
    requires HasOrigin(c, o)
  {
    match o
    case OfTrace(i) => (c.traces[i].trace, 0, 0)
    case OfBad(i, j, k) =>
      (c.traces[i].trace, c.traces[i].chunks[j].start, c.traces[i].chunks[j].badReplies[k].attempt)
    case _ => (0, 0, 0)
  }

  /** No two files of a capture share a name, so no bad reply is ever written over. */
  lemma NamesAreDistinct(c: Capture, o: Origin, p: Origin)
    requires WellOrdered(c) && HasOrigin(c, o) && HasOrigin(c, p) && EntryOf(c, o).name == EntryOf(c, p).name
    ensures o == p
  {
    hide SavedCaptureOf, BadFileName, TraceFileName, INFO_FILE_NAME, CAPTURE_FILE_NAME;
    var (t, _, _) := NumbersIn(c, if o.OfTrace? then o else p);
    var (b, start, attempt) := NumbersIn(c, if o.OfBad? then o else p);
    KindsDiffer(t, b, start, attempt);
    if o.OfTrace? && p.OfTrace? {
      TraceNamesDiffer(c.traces[o.i].trace, c.traces[p.i].trace);
    } else if o.OfBad? && p.OfBad? {
      var x, y := c.traces[o.i].chunks[o.j], c.traces[p.i].chunks[p.j];
      BadNamesDiffer(c.traces[o.i].trace, x.start, x.badReplies[o.k].attempt,
                     c.traces[p.i].trace, y.start, y.badReplies[p.k].attempt);
      assert o.i == p.i;
      SameReply(c.traces[o.i].chunks, o.j, o.k, p.j, p.k);
    }
  }

  lemma SameReply(chunks: seq<ChunkLog>, j: nat, k: nat, j': nat, k': nat)
    requires ChunksOrdered(chunks) && j < |chunks| && j' < |chunks| && chunks[j].start == chunks[j'].start
    requires k < |chunks[j].badReplies| && k' < |chunks[j'].badReplies|
    requires chunks[j].badReplies[k].attempt == chunks[j'].badReplies[k'].attempt
    ensures j == j' && k == k'
  {}

  lemma {:induction false} WrittenGives(files: Files, entries: seq<Entry>, e: Entry)
    requires e in entries && forall f <- entries :: f.name == e.name ==> f == e
    ensures e.name in Written(files, entries) && Written(files, entries)[e.name] == e.content
  {
    var n := |entries| - 1;
    if entries[n] != e {
      assert e in entries[..n];
      WrittenGives(files, entries[..n], e);
    }
  }

  /** Every file of a capture holds what was written to it, whatever the directory held before. */
  lemma FileHolds(files: Files, c: Capture, o: Origin)
    requires WellOrdered(c) && HasOrigin(c, o)
    ensures var e, after := EntryOf(c, o), Written(files, Entries(c));
      e.name in after && after[e.name] == e.content
  {
    hide Entries, EntryOf, WellOrdered, Written;
    var e := EntryOf(c, o);
    OriginHasEntry(c, o);
    forall f <- Entries(c) | f.name == e.name
      ensures f == e
    {
      var p := EntryHasOrigin(c, f);
      NamesAreDistinct(c, o, p);
    }
    WrittenGives(files, Entries(c), e);
  }

  // ----- reading back what was written

  lemma {:induction false} ReadBadBack(files: Files, c: Capture, i: nat, j: nat, n: nat)
    requires WellOrdered(c) && i < |c.traces| && j < |c.traces[i].chunks|
    requires n <= |c.traces[i].chunks[j].badReplies|
    ensures var chunk := c.traces[i].chunks[j];
      ReadBad(Written(files, Entries(c)), SavedChunkOf(c.traces[i].trace, chunk).badFiles[..n])
      == Some(chunk.badReplies[..n])
  {
    hide Written, Entries, BadFileName, WellOrdered;
    if n > 0 {
      ReadBadBack(files, c, i, j, n - 1);
      FileHolds(files, c, OfBad(i, j, n - 1));
      var chunk := c.traces[i].chunks[j];
      var names := SavedChunkOf(c.traces[i].trace, chunk).badFiles;
      assert names[..n][..n - 1] == names[..n - 1];
      assert chunk.badReplies[..n] == chunk.badReplies[..n - 1] + [chunk.badReplies[n - 1]];
    }
  }

  lemma {:induction false} ReadChunksBack(files: Files, c: Capture, i: nat, n: nat)
    requires WellOrdered(c) && i < |c.traces| && n <= |c.traces[i].chunks|
    ensures ReadChunks(Written(files, Entries(c)), SavedTraceOf(c.traces[i]).chunks[..n])
         == Some(c.traces[i].chunks[..n])
  {
    hide Written, Entries, WellOrdered, ReadBad;
    if n > 0 {
      ReadChunksBack(files, c, i, n - 1);
      var t := c.traces[i];
      var chunk := t.chunks[n - 1];
      ReadBadBack(files, c, i, n - 1, |chunk.badReplies|);
      var saved := SavedTraceOf(t).chunks;
      assert saved[n - 1].badFiles[..|chunk.badReplies|] == saved[n - 1].badFiles;
      assert chunk.badReplies[..|chunk.badReplies|] == chunk.badReplies;
      assert saved[..n][..n - 1] == saved[..n - 1];
      assert t.chunks[..n] == t.chunks[..n - 1] + [chunk];
    }
  }

  lemma {:induction false} ReadTracesBack(files: Files, c: Capture, n: nat)
    requires WellOrdered(c) && n <= |c.traces|
    ensures ReadTraces(Written(files, Entries(c)), SavedCaptureOf(c).traces[..n]) == Some(c.traces[..n])
  {
    hide Written, Entries, WellOrdered, ReadChunks, TraceFileName, SavedChunkOf;
    if n > 0 {
      ReadTracesBack(files, c, n - 1);
      var t := c.traces[n - 1];
      FileHolds(files, c, OfTrace(n - 1));
      ReadChunksBack(files, c, n - 1, |t.chunks|);
      var saved := SavedCaptureOf(c).traces;
      assert saved[n - 1].chunks[..|t.chunks|] == saved[n - 1].chunks && t.chunks[..|t.chunks|] == t.chunks;
      assert saved[..n][..n - 1] == saved[..n - 1];
      assert c.traces[..n] == c.traces[..n - 1] + [t];
    }
  }

  /** A capture written to any directory is read back the same, every bad reply intact. */
  lemma CaptureRoundTrip(files: Files, c: Capture, parseInfo: Bytes -> ProfileInfo)
    requires WellOrdered(c) && c.info == parseInfo(c.infoRaw)
    ensures ReadBack(Written(files, Entries(c)), parseInfo) == Some(c)
  {
    hide Written, Entries, WellOrdered, ReadTraces;
    FileHolds(files, c, OfInfo);
    FileHolds(files, c, OfCapture);
    ReadTracesBack(files, c, |c.traces|);
    assert SavedCaptureOf(c).traces[..|c.traces|] == SavedCaptureOf(c).traces && c.traces[..|c.traces|] == c.traces;
  }

  /** What a pull leaves behind is in the order that keeps its file names apart. */
  lemma PulledChunksAreOrdered(wire: PumpClient.Wire, addr: PumpClient.address, cycle: long, trace: word,
                               expected: long, n: nat)
    ensures ChunksOrdered(Pull(wire, addr, cycle, trace, expected, n).chunks)
  {
    hide PullFrom;
    PullBookkeeping(wire, addr, cycle, trace, expected, 0, PullLog([], [], n, false), n);
  }
}
