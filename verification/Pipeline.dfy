/** From the bus to the stored table: what columns, clean rows and saved captures can be taken to mean. */
module Pipeline {
  import opened Bytes
  import opened Results
  import opened TraceCodec
  import opened TraceBlocks
  import opened PumpClient
  import opened ProfilePull
  import opened EndToEnd
  import opened PullAlignment
  import opened PullLaws
  import opened PullSuccess
  import opened Captures
  import opened Collected
  import opened Rendering
  import opened Writers
  import opened StoreLaws
  import opened Extract
  import CaptureFiles

  // ----- one profile, from the bus to its columns

  /** A pump that holds, for one cycle, ten traces encoded from blocks that stand for equally many samples. */
  ghost predicate HoldsProfile(blocks: seq<seq<Block>>, info: ProfileInfo) {
    && |blocks| == TRACE_COUNT == |info.encodedSize|
    && info.Encoding() == COMPRESSED_ENCODING
    && forall t: word :: t < TRACE_COUNT ==>
         && AllEncodable(blocks[t])
         && info.encodedSize[t] == |Words(blocks[t])|
         && info.unencodedSize == |TraceBlocks.Samples(blocks[t])|
  }

  /** Every reply about this cycle's traces is lost, refused, or true but for two flipped bits, and never odd. */
  ghost predicate HonestProfile(wire: Wire, addr: address, cycle: long, blocks: seq<seq<Block>>)
    requires |blocks| == TRACE_COUNT && forall t: word :: t < TRACE_COUNT ==> AllEncodable(blocks[t])
  {
    forall t: word :: t < TRACE_COUNT ==> HonestTrace(wire, addr, cycle, t, Words(blocks[t]))
  }

  ghost predicate HonestTrace(wire: Wire, addr: address, cycle: long, trace: word, words: seq<word>) {
    HonestWire(wire, addr, cycle, trace, PackWords(words)) && EvenReplies(wire, addr, cycle, trace)
  }

  lemma {:induction false} OrderedPullIsAPull(wire: Wire, addr: address, cycle: long, sizes: seq<long>, done: nat,
                                              n: nat, t: word)
    returns (from: nat)
    requires |sizes| == TRACE_COUNT && done <= TRACE_COUNT && t < TRACE_COUNT
    requires t in OrderedPulls(wire, addr, cycle, sizes, done, n).0
    ensures OrderedPulls(wire, addr, cycle, sizes, done, n).0[t] == Pull(wire, addr, cycle, t, sizes[t], from)
  {
    hide Pull;
    var (before, k) := OrderedPulls(wire, addr, cycle, sizes, done - 1, n);
    if TRACE_ORDER[done - 1] == t {
      from := k;
    } else {
      from := OrderedPullIsAPull(wire, addr, cycle, sizes, done - 1, n, t);
    }
  }

  lemma EveryTraceIsPulled(wire: Wire, addr: address, cycle: long, sizes: seq<long>, n: nat, t: word)
    requires |sizes| == TRACE_COUNT && t < TRACE_COUNT
    ensures t in OrderedPulls(wire, addr, cycle, sizes, TRACE_COUNT, n).0
  {
    hide OrderedPulls;
    EveryTraceOrdered(t);
    PullsStay(wire, addr, cycle, sizes, PLACE_IN_ORDER[t], TRACE_COUNT, n);
  }

  /**
   The whole way: on a bus that flips at most two bits of any reply and loses or refuses what it likes, a profile is
   pulled, repaired, decoded and laid out in columns. Every column is either left blank or holds exactly the samples
   the pump recorded, and it is blank only if not all of its words could be had.
   */
  lemma ColumnsAreTrue(wire: Wire, addr: address, cycle: long, info: ProfileInfo, blocks: seq<seq<Block>>, n: nat,
                       t: word)
    requires t < TRACE_COUNT && HoldsProfile(blocks, info) && HonestProfile(wire, addr, cycle, blocks)
    ensures var size: int := info.encodedSize[t];
      var logs := OrderedPulls(wire, addr, cycle, info.encodedSize, TRACE_COUNT, n).0;
      t in logs && Trusted(info, AsPulled(t, size, logs[t])) ==
        if |logs[t].data| == 2 * size then Some(TraceBlocks.Samples(blocks[t])) else None
  {
    EveryTraceIsPulled(wire, addr, cycle, info.encodedSize, n, t);
    hide OrderedPulls, Pull, Words, TraceBlocks.Samples, Expand, UnpackWords, HonestWire, EvenReplies;
    var from := OrderedPullIsAPull(wire, addr, cycle, info.encodedSize, TRACE_COUNT, n, t);
    assert HonestTrace(wire, addr, cycle, t, Words(blocks[t]));
    EvenRepliesPullTrue(wire, addr, cycle, t, Words(blocks[t]), from);
    RoundTrip(blocks[t]);
  }

  /** Every reply about this cycle's traces holds the very words asked for, at most one bit of it flipped. */
  ghost predicate OneFlipProfile(wire: Wire, addr: address, cycle: long, blocks: seq<seq<Block>>)
    requires |blocks| == TRACE_COUNT && forall t: word :: t < TRACE_COUNT ==> AllEncodable(blocks[t])
  {
    forall t: word :: t < TRACE_COUNT ==> OneFlipWire(wire, addr, cycle, t, PackWords(Words(blocks[t])))
  }

  /** Behind such a bus no column is blank, however many replies were damaged. */
  lemma OneFlipColumnsAreWhole(wire: Wire, addr: address, cycle: long, info: ProfileInfo, blocks: seq<seq<Block>>,
                               n: nat, t: word)
    requires t < TRACE_COUNT && HoldsProfile(blocks, info) && OneFlipProfile(wire, addr, cycle, blocks)
    ensures var logs := OrderedPulls(wire, addr, cycle, info.encodedSize, TRACE_COUNT, n).0;
      && t in logs && !logs[t].down
      && Trusted(info, AsPulled(t, info.encodedSize[t], logs[t])) == Some(TraceBlocks.Samples(blocks[t]))
  {
    EveryTraceIsPulled(wire, addr, cycle, info.encodedSize, n, t);
    hide OrderedPulls, Pull, Words, TraceBlocks.Samples, Expand, UnpackWords, OneFlipWire;
    var from := OrderedPullIsAPull(wire, addr, cycle, info.encodedSize, TRACE_COUNT, n, t);
    OneFlipPullIsWhole(wire, addr, cycle, t, Words(blocks[t]), from);
    RoundTrip(blocks[t]);
  }

  // ----- everything stored, over every history

  /** What the pump recorded for every cycle. */
  type Recorded = nat -> seq<seq<Block>>

  /** A pump that answers with what it recorded, behind a bus that flips at most two bits of any reply. */
  ghost predicate HonestPump(recorded: Recorded, r: Replies, parse: Bytes -> Option<ProfileInfo>, wire: Wire,
                             addr: address)
  {
    forall t: nat, c: long :: InfoIsHonest(recorded, r, parse, wire, addr, t, c)
  }

  ghost predicate InfoIsHonest(recorded: Recorded, r: Replies, parse: Bytes -> Option<ProfileInfo>, wire: Wire,
                               addr: address, t: nat, c: long)
  {
    forall info, raw :: SaysProfile(r.profileInfo(t, c), addr, parse, info, raw) && info.cycle == c ==>
      HoldsProfile(recorded(c), info) && HonestProfile(wire, addr, c, recorded(c))
  }

  /** A column is the recorded trace's own, or blank. */
  ghost predicate TrueOrBlank(column: Column, t: nat, blocks: seq<Block>)
    requires t < |TRACE_COLUMNS|
  {
    var truth := ColumnOf(0, TRACE_COLUMNS[t], Some(TraceBlocks.Samples(blocks)));
    column == truth || column == seq(|truth|, _ => None)
  }

  ghost predicate TrueProfile(profile: Profile, blocks: seq<seq<Block>>) {
    && |blocks| == TRACE_COUNT
    && forall t: word :: t < TRACE_COUNT ==> TrueAtColumn(profile, t, blocks)
  }

  ghost predicate TrueAtColumn(profile: Profile, t: word, blocks: seq<seq<Block>>)
    requires t < TRACE_COUNT == |blocks|
  {
    TRACE_COLUMNS[t].title in profile && TrueOrBlank(profile[TRACE_COLUMNS[t].title], t, blocks[t])
  }

  ghost predicate AllTrue(s: Store, recorded: Recorded) {
    forall i :: 0 <= i < |s.shelves| ==> ShelfTrue(s.shelves[i], recorded)
  }

  ghost predicate ShelfTrue(s: Shelf, recorded: Recorded) {
    forall c <- s.objects :: s.objects[c].Whole? ==> TrueProfile(s.objects[c].value, recorded(c))
  }

  /** What is rendered from an honest pump's cycle is true, column by column. */
  lemma RenderedIsTrue(r: Rendered, replies: Replies, parse: Bytes -> Option<ProfileInfo>, wire: Wire, addr: address,
                       t: nat, n: nat, recorded: Recorded)
    requires HonestPump(recorded, replies, parse, wire, addr)
    requires CapturedAt(r.capture, replies, parse, wire, addr, t, n)
    requires MadeFrom(r) && !r.ending.Kept?
    ensures TrueProfile(r.profile, recorded(r.row.cycle))
  {
    hide SaysProfile, HonestProfile, Trusted, OrderedPulls, TrueOrBlank, ColumnOf, RowOf;
    var c := r.capture;
    assert r.row.cycle == c.cycle by {
      RowIsForCycle(r);
    }
    assert InfoIsHonest(recorded, replies, parse, wire, addr, t, c.cycle);
    forall k: word | k < TRACE_COUNT
      ensures TrueAtColumn(r.profile, k, recorded(c.cycle))
    {
      ColumnsAreTrue(wire, addr, c.cycle, c.info, recorded(c.cycle), n, k);
      assert InColumn(c, r.profile, k);
      FilledOrBlank(c.info.unencodedSize, k, Trusted(c.info, c.traces[k]), recorded(c.cycle)[k]);
    }
  }

  lemma RowIsForCycle(r: Rendered)
    requires MadeFrom(r)
    ensures r.row.cycle == r.capture.cycle
  {}

  lemma FilledOrBlank(n: nat, t: nat, samples: Option<Rendering.Samples>, blocks: seq<Block>)
    requires t < |TRACE_COLUMNS| && n == |TraceBlocks.Samples(blocks)|
    requires samples == None || samples == Some(TraceBlocks.Samples(blocks))
    ensures TrueOrBlank(ColumnOf(n, TRACE_COLUMNS[t], samples), t, blocks)
  {
    hide TraceBlocks.Samples, CellOf;
  }

  lemma StepKeepsTrue(s: Store, t: Store, v: Visit, recorded: Recorded)
    requires AllTrue(s, recorded) && VisitStep(s, t, v)
    requires v.rendered.Some? && !v.rendered.value.ending.Kept? ==>
               TrueProfile(v.rendered.value.profile, recorded(v.rendered.value.row.cycle))
    ensures AllTrue(t, recorded)
  {
    hide MadeFrom, TrueProfile;
    if v.rendered.Some? && !v.rendered.value.ending.Kept? {
      var r := v.rendered.value;
      forall i | 0 <= i < |t.shelves|
        ensures ShelfTrue(t.shelves[i], recorded)
      {
        assert ShelfTrue(s.shelves[i], recorded);
        assert t.shelves[i] == StoredIn(s.shelves[i], r.row, r.profile, r.fates[i]);
      }
    }
  }

  /**
   Over every history of an honest pump, whatever fails or breaks off: every profile stored anywhere that is whole has
   every column either blank or exactly as recorded.
   */
  lemma {:induction false} StoredIsAlwaysTrue(states: seq<Store>, visits: seq<Visit>, replies: Replies,
                                              parse: Bytes -> Option<ProfileInfo>, wire: Wire, addr: address,
                                              recorded: Recorded, n: nat)
    requires IsHistory(states, visits) && AllCameFrom(visits, replies, parse, wire, addr)
    requires HonestPump(recorded, replies, parse, wire, addr) && AllTrue(states[0], recorded) && n < |states|
    ensures AllTrue(states[n], recorded)
    decreases n
  {
    hide AllTrue, HonestPump, CapturedAt, RenderStep, TrueProfile;
    if n > 0 {
      var v := visits[n - 1];
      StoredIsAlwaysTrue(states, visits, replies, parse, wire, addr, recorded, n - 1);
      assert VisitStep(states[n - 1], states[n], v) && CameFrom(v, replies, parse, wire, addr);
      if v.rendered.Some? && !v.rendered.value.ending.Kept? {
        var t, k :| CapturedAt(v.rendered.value.capture, replies, parse, wire, addr, t, k);
        RenderedIsMade(states[n - 1], states[n], v.rendered.value);
        RenderedIsTrue(v.rendered.value, replies, parse, wire, addr, t, k, recorded);
      }
      StepKeepsTrue(states[n - 1], states[n], v, recorded);
    }
  }

  lemma RenderedIsMade(s: Store, t: Store, r: Rendered)
    requires RenderStep(s, t, r)
    ensures MadeFrom(r)
  {}

  /**
   So a cycle remembered clean is, in every destination, exactly what the pump recorded: all ten columns, no blanks.
   This needs nothing of the writes: not that they work, and not that they do not break off.
   */
  lemma CleanIsExactlyAsRecorded(states: seq<Store>, visits: seq<Visit>, replies: Replies,
                                 parse: Bytes -> Option<ProfileInfo>, wire: Wire, addr: address, recorded: Recorded,
                                 destinations: nat, n: nat, i: nat, c: nat, t: word)
    requires IsHistory(states, visits) && AllCameFrom(visits, replies, parse, wire, addr)
    requires HonestPump(recorded, replies, parse, wire, addr) && states[0] == EmptyStore(destinations)
    requires n < |states| && i < |states[n].shelves| && AlreadyClean(Lookup(states[n].memory, c)) && t < TRACE_COUNT
    ensures var shelf := states[n].shelves[i];
      && c in shelf.objects && shelf.objects[c].Whole? && TRACE_COLUMNS[t].title in shelf.objects[c].value
      && |recorded(c)| == TRACE_COUNT
      && shelf.objects[c].value[TRACE_COLUMNS[t].title]
         == ColumnOf(0, TRACE_COLUMNS[t], Some(TraceBlocks.Samples(recorded(c)[t])))
  {
    hide IsHistory, HonestPump, AllCameFrom, ColumnOf, RowWithin;
    CleanIsAlwaysWhole(states, visits, n);
    StoredIsAlwaysTrue(states, visits, replies, parse, wire, addr, recorded, n);
    var shelf := states[n].shelves[i];
    assert HoldsWithin(shelf, c, CLEAN) && ShelfTrue(shelf, recorded);
    var profile := shelf.objects[c].value;
    NoBlanks(profile, |TRACE_COLUMNS|, t);
    assert TrueAtColumn(profile, t, recorded(c));
    BlankOrEmpty(profile[TRACE_COLUMNS[t].title], t, recorded(c)[t]);
  }

  lemma {:induction false} NoBlanks(profile: Profile, n: nat, t: nat)
    requires t < n <= |TRACE_COLUMNS| && Blanks(profile, n) == 0
    ensures TRACE_COLUMNS[t].title in profile && !IsBlank(profile[TRACE_COLUMNS[t].title])
  {
    if t < n - 1 {
      NoBlanks(profile, n - 1, t);
    }
  }

  lemma BlankOrEmpty(column: Column, t: nat, blocks: seq<Block>)
    requires t < |TRACE_COLUMNS| && TrueOrBlank(column, t, blocks) && !IsBlank(column)
    ensures column == ColumnOf(0, TRACE_COLUMNS[t], Some(TraceBlocks.Samples(blocks)))
  {
    hide ColumnOf;
    var truth := ColumnOf(0, TRACE_COLUMNS[t], Some(TraceBlocks.Samples(blocks)));
    assert |column| == |truth|;
    assert |column| > 0 ==> column[0].Some?;
  }

  // ----- what is saved

  /** A capture as collected is read back the same from any directory it was saved to. */
  lemma CollectedReadsBack(files: CaptureFiles.Files, c: Capture, replies: Replies,
                           parse: Bytes -> Option<ProfileInfo>, wire: Wire, addr: address, t: nat, n: nat,
                           parseInfo: Bytes -> ProfileInfo)
    requires CapturedAt(c, replies, parse, wire, addr, t, n)
    requires forall raw :: parse(raw).Some? ==> parse(raw).value == parseInfo(raw)
    ensures CaptureFiles.ReadBack(CaptureFiles.Written(files, CaptureFiles.Entries(c)), parseInfo) == Some(c)
  {
    hide OrderedPulls, Pull, CaptureFiles.ReadBack, CaptureFiles.Written, CaptureFiles.Entries;
    hide CaptureFiles.ChunksOrdered;
    forall k: word | k < TRACE_COUNT
      ensures CaptureFiles.ChunksOrdered(c.traces[k].chunks)
    {
      var from := OrderedPullIsAPull(wire, addr, c.cycle, c.info.encodedSize, TRACE_COUNT, n, k);
      CaptureFiles.PulledChunksAreOrdered(wire, addr, c.cycle, k, c.info.encodedSize[k], from);
    }
    TracesAreOrdered(c);
    CaptureFiles.CaptureRoundTrip(files, c, parseInfo);
  }

  lemma TracesAreOrdered(c: Capture)
    requires |c.traces| == TRACE_COUNT && forall k: word :: k < TRACE_COUNT ==> c.traces[k].trace == k
    requires forall k: word :: k < TRACE_COUNT ==> CaptureFiles.ChunksOrdered(c.traces[k].chunks)
    ensures CaptureFiles.WellOrdered(c)
  {
    hide CaptureFiles.ChunksOrdered;
    forall i | 0 <= i < |c.traces|
      ensures c.traces[i].trace == i && CaptureFiles.ChunksOrdered(c.traces[i].chunks)
    {
      var k: word := i;
      assert c.traces[k].trace == k;
    }
  }

  // ----- what the row's account means

  /** A row is clean exactly when every trace decoded and nothing in any of them had to be repaired. */
  ghost predicate AllIntact(capture: Capture) {
    forall i :: 0 <= i < |capture.traces| ==>
      && Trusted(capture.info, capture.traces[i]).Some?
      && forall c <- capture.traces[i].chunks :: c.repair == None
  }

  lemma {:induction false} NoRepairs(trace: nat, chunks: seq<ChunkLog>)
    ensures RepairsIn(trace, chunks) == [] <==> forall c <- chunks :: c.repair == None
  {
    if chunks != [] {
      var n := |chunks| - 1;
      NoRepairs(trace, chunks[..n]);
      assert chunks == chunks[..n] + [chunks[n]];
    }
  }

  lemma {:induction false} AccountIsClean(traces: seq<TraceData>, decoded: seq<Option<Rendering.Samples>>)
    requires |decoded| == |traces|
    ensures var a := AccountOf(traces, decoded);
      a.blankTraces == [] && a.repairs == [] <==>
      forall i :: 0 <= i < |traces| ==> decoded[i].Some? && forall c <- traces[i].chunks :: c.repair == None
  {
    hide RepairsIn, RetriesIn, FailedIn;
    if traces != [] {
      var n := |traces| - 1;
      AccountIsClean(traces[..n], decoded[..n]);
      NoRepairs(traces[n].trace, traces[n].chunks);
      assert forall i :: 0 <= i < n ==> traces[..n][i] == traces[i] && decoded[..n][i] == decoded[i];
    }
  }

  lemma CleanRowMeansIntact(capture: Capture, row: DispenseRow)
    requires RowOf(capture, row)
    ensures RowFlaws(row) == CLEAN <==> AllIntact(capture)
  {
    hide Trusted, AccountOf;
    AccountIsClean(capture.traces, AllTrusted(capture));
  }

  lemma {:induction false} RetriesAreExtraRequests(chunks: seq<ChunkLog>)
    ensures RetriesIn(chunks) == Attempts(chunks) - |chunks|
  {
    if chunks != [] {
      RetriesAreExtraRequests(chunks[..|chunks| - 1]);
    }
  }

  function TotalRequests(traces: seq<TraceData>): nat {
    if traces == [] then 0
    else TotalRequests(traces[..|traces| - 1]) + Attempts(traces[|traces| - 1].chunks)
  }

  function TotalChunks(traces: seq<TraceData>): nat {
    if traces == [] then 0 else TotalChunks(traces[..|traces| - 1]) + |traces[|traces| - 1].chunks|
  }

  /** The retries a row reports are every request made beyond one for each chunk. */
  lemma {:induction false} RetriesAccounted(traces: seq<TraceData>, decoded: seq<Option<Rendering.Samples>>)
    requires |decoded| == |traces|
    ensures AccountOf(traces, decoded).retries == TotalRequests(traces) - TotalChunks(traces)
  {
    hide RepairsIn, RetriesIn, FailedIn, Attempts;
    if traces != [] {
      var n := |traces| - 1;
      RetriesAccounted(traces[..n], decoded[..n]);
      RetriesAreExtraRequests(traces[n].chunks);
    }
  }
}
