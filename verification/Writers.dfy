/** Where rendered outputs go, and storing one capture in all of them with any step failing. */
module Writers {
  import opened Bytes
  import opened Results
  import opened Captures
  import opened Collected
  import opened Rendering

  /** A profile as stored: the table one column per trace. */
  type Profile = map<string, Column>

  /** What is stored under a name: what was written, or the remains of a write that broke off. */
  datatype Held<T> = Whole(value: T) | Torn

  /** One pump's rows and profiles in one destination, by cycle. A profile's link is the cycle it is filed under. */
  datatype Shelf = Shelf(rows: map<nat, Held<DispenseRow>>, objects: map<nat, Held<Profile>>)

  /** How one write ends: done, raising before it took effect, raising after, or raising half way through. */
  datatype Fate = Lands | FailsBefore | FailsAfter | Tears

  /** How a destination's two writes end; the row's is not made unless the profile's returned. */
  datatype Fates = Fates(ofProfile: Fate, ofRow: Fate)
  {
    predicate Worked() {
      ofProfile.Lands? && ofRow.Lands?
    }

    predicate Tore() {
      ofProfile.Tears? || (ofProfile.Lands? && ofRow.Tears?)
    }
  }

  function Put<T>(held: map<nat, Held<T>>, cycle: nat, value: T, fate: Fate): map<nat, Held<T>> {
    match fate
    case FailsBefore => held
    case Tears => held[cycle := Torn]
    case _ => held[cycle := Whole(value)]
  }

  function Linking(row: DispenseRow): DispenseRow {
    row.(objectUri := Some(row.cycle))
  }

  /** A destination once a profile and then its row have been written. */
  function StoredIn(s: Shelf, row: DispenseRow, profile: Profile, fates: Fates): Shelf {
    Shelf(if fates.ofProfile.Lands? then Put(s.rows, row.cycle, Linking(row), fates.ofRow) else s.rows,
          Put(s.objects, row.cycle, profile, fates.ofProfile))
  }

  class Writer {
    var rows: map<nat, Held<DispenseRow>>
    var objects: map<nat, Held<Profile>>
    var steps: nat
    const fate: nat -> Fate

    constructor (fate: nat -> Fate)
      ensures Contents() == Shelf(map[], map[]) && this.fate == fate && steps == 0
    {
      rows, objects, steps := map[], map[], 0;
      this.fate := fate;
    }

    function Contents(): Shelf
      reads this
    {
      Shelf(rows, objects)
    }

    method WriteObj(cycle: nat, profile: Profile) returns (uri: Option<nat>)
      modifies this
      ensures rows == old(rows) && steps == old(steps) + 1
      ensures match fate(old(steps))
        case FailsBefore => objects == old(objects)
        case Tears => objects == old(objects)[cycle := Torn]
        case _ => objects == old(objects)[cycle := Whole(profile)]
      ensures uri == if fate(old(steps)).Lands? then Some(cycle) else None
    {
      var f := fate(steps);
      steps := steps + 1;
      objects := Put(objects, cycle, profile, f);
      uri := if f.Lands? then Some(cycle) else None;
    }

    method WriteRow(row: DispenseRow) returns (ok: bool)
      modifies this
      ensures objects == old(objects) && steps == old(steps) + 1
      ensures match fate(old(steps))
        case FailsBefore => rows == old(rows)
        case Tears => rows == old(rows)[row.cycle := Torn]
        case _ => rows == old(rows)[row.cycle := Whole(row)]
      ensures ok == fate(old(steps)).Lands?
    {
      var f := fate(steps);
      steps := steps + 1;
      rows := Put(rows, row.cycle, row, f);
      ok := f.Lands?;
    }
  }

  // ----- rendering into every destination

  /** All of one pump's outputs: every destination and what is remembered of them on disk. */
  datatype Store = Store(shelves: seq<Shelf>, memory: Memory)

  function RowFlaws(row: DispenseRow): Flaws {
    Flaws(|row.blankTraces|, row.reconstructed)
  }

  function SavedOf(row: DispenseRow): Saved {
    Saved(row.blankTraces, row.reconstructed)
  }

  /** Whether a result is refused because a cleaner one of the same cycle is remembered. */
  predicate Refused(memory: Memory, row: DispenseRow) {
    row.cycle in memory && Less(FlawsOf(memory[row.cycle]), RowFlaws(row))
  }

  /** How a render ended: what it says it did. */
  datatype Ending = Kept | Written | Raised

  /** One render: what it was given, what it made of it, how each destination's writes went and how it ended. */
  datatype Rendered = Rendered(capture: Capture, row: DispenseRow, profile: Profile, fates: seq<Fates>, ending: Ending)

  ghost predicate AllWorked(fates: seq<Fates>) {
    forall i :: 0 <= i < |fates| ==> fates[i].Worked()
  }

  /** A render with any of its writes failing, the memory saved only once all of them worked, if that save works. */
  ghost predicate RenderStep(s: Store, t: Store, r: Rendered) {
    && MadeFrom(r)
    && (r.ending.Kept? <==> Refused(s.memory, r.row))
    && (r.ending.Kept? ==> t == s)
    && (!r.ending.Kept? ==> Storing(s, t, r))
  }

  ghost predicate Storing(s: Store, t: Store, r: Rendered) {
    && |r.fates| == |s.shelves| == |t.shelves|
    && (forall i :: 0 <= i < |s.shelves| ==> t.shelves[i] == StoredIn(s.shelves[i], r.row, r.profile, r.fates[i]))
    && (r.ending.Written? ==> AllWorked(r.fates) && t.memory == Remember(s.memory, r.row.cycle, SavedOf(r.row)))
    && (r.ending.Raised? ==> t.memory == s.memory)
  }

  /** The row is the capture's, and so is the profile unless it was never made. */
  ghost predicate MadeFrom(r: Rendered) {
    && |r.capture.traces| == |TRACE_COLUMNS|
    && RowOf(r.capture, r.row)
    && (!r.ending.Kept? ==> ProfileOf(r.capture, r.profile))
  }

  function Shelves(writers: seq<Writer>): (s: seq<Shelf>)
    reads writers
    ensures |s| == |writers|
  {
    seq(|writers|, i requires 0 <= i < |writers| reads writers => writers[i].Contents())
  }

  ghost predicate Distinct(writers: seq<Writer>) {
    forall i, j :: 0 <= i < j < |writers| ==> writers[i] != writers[j]
  }

  /** How a destination's next two writes will end. */
  ghost function FatesOf(writer: Writer, steps: nat): Fates {
    Fates(writer.fate(steps), writer.fate(steps + 1))
  }

  /** One destination: the profile first, so that its row never links to one that is not there. */
  method StoreIn(writer: Writer, row: DispenseRow, profile: Profile)
    returns (ok: bool, uri: Option<nat>, ghost fates: Fates)
    modifies writer
    ensures fates == FatesOf(writer, old(writer.steps))
    ensures writer.Contents() == StoredIn(old(writer.Contents()), row, profile, fates)
    ensures ok == fates.Worked() && uri == if fates.ofProfile.Lands? then Some(row.cycle) else None
  {
    fates := FatesOf(writer, writer.steps);
    uri := writer.WriteObj(row.cycle, profile);
    ok := false;
    if uri.Some? {
      ok := writer.WriteRow(row.(objectUri := uri));
    }
  }

  /** The row a capture's traces make. */
  ghost predicate RowOf(capture: Capture, row: DispenseRow) {
    && ColumnsOfCapture(row, capture) && row.objectUri == None
    && row.headerAvailable == capture.header.Some?
    && (if capture.header.Some? then ColumnsOfHeader(row.header, capture.header.value) else row.header == NO_COLUMNS)
    && (row.reconstructed <==> row.repairs != [])
    && Account(row.blankTraces, row.retries, row.failedChunks, row.repairs)
       == AccountOf(capture.traces, AllTrusted(capture))
  }

  function AllTrusted(capture: Capture): (decoded: seq<Option<Samples>>)
    ensures |decoded| == |capture.traces|
  {
    seq(|capture.traces|, i requires 0 <= i < |capture.traces| => Trusted(capture.info, capture.traces[i]))
  }

  /** The profile a capture makes: every trace that can be trusted in its column, the others empty. */
  ghost predicate ProfileOf(capture: Capture, profile: Profile)
    requires |capture.traces| == |TRACE_COLUMNS|
  {
    && (forall title <- profile :: |profile[title]| == capture.info.unencodedSize)
    && TIME_TITLE in profile && profile[TIME_TITLE] == TimeColumn(capture.info)
    && forall i :: 0 <= i < |TRACE_COLUMNS| ==> InColumn(capture, profile, i)
  }

  ghost predicate InColumn(capture: Capture, profile: Profile, i: nat)
    requires i < |TRACE_COLUMNS| == |capture.traces|
  {
    && TRACE_COLUMNS[i].title in profile
    && profile[TRACE_COLUMNS[i].title]
       == ColumnOf(capture.info.unencodedSize, TRACE_COLUMNS[i], Trusted(capture.info, capture.traces[i]))
  }

  /**
   Store a capture everywhere. One destination failing does not stop the others, but then nothing is remembered. The
   row comes back linked to the last destination that took its profile; when the result is refused nothing is written.
   */
  method Render(capture: Capture, writers: seq<Writer>, collected: CollectedCycles)
    returns (record: DispenseRow, ending: Ending, ghost r: Rendered)
    requires |capture.traces| == |TRACE_COLUMNS|
    requires Distinct(writers) && collected.cycles == collected.file
    modifies writers, collected
    ensures r.capture == capture && r.ending == ending
    ensures !ending.Raised? ==> record == if ending.Written? && writers != [] then Linking(r.row) else r.row
    ensures RenderStep(Store(old(Shelves(writers)), old(collected.file)), Store(Shelves(writers), collected.file), r)
    ensures !ending.Raised? ==> collected.cycles == collected.file
    ensures ending.Kept? <==>
      && capture.cycle in old(collected.cycles)
      && var saved := old(collected.cycles)[capture.cycle];
      || |saved.blankTraces| < |r.row.blankTraces|
      || (|saved.blankTraces| == |r.row.blankTraces| && !saved.reconstructed && r.row.reconstructed)
    ensures !ending.Kept? ==> FatesAre(r.fates, writers, old(StepsOf(writers)))
    ensures ending.Written? <==>
      && !ending.Kept? && collected.saveWorks(old(collected.saves))
      && forall i :: 0 <= i < |r.fates| ==> r.fates[i].ofProfile.Lands? && r.fates[i].ofRow.Lands?
  {
    hide RowOf, ProfileOf, Storing, Shelves, StepsOf, FatesAre, AllTrusted, AccountOf, ColumnsOfCapture;
    var decoded;
    record, decoded := MakeRow(capture);
    ghost var row := record;
    var saved := collected.Get(capture.cycle);
    if saved.Some? && Less(FlawsOf(saved.value), RowFlaws(record)) {
      return record, Kept, Rendered(capture, row, map[], [], Kept);
    }
    var frame := MakeProfile(capture, decoded);
    ghost var fates;
    record, ending, fates := StoreEverywhere(record, frame, writers, collected, capture);
    r := Rendered(capture, row, frame, fates, ending);
  }

  method MakeRow(capture: Capture) returns (record: DispenseRow, decoded: seq<Option<Samples>>)
    ensures RowOf(capture, record) && record.cycle == capture.cycle && record.objectUri == None
    ensures decoded == AllTrusted(capture)
  {
    hide Trusted, AccountOf, ColumnsOfHeader;
    var notes;
    decoded, notes := DecodeTraces(capture.info, capture.traces);
    assert decoded == AllTrusted(capture);
    record := DispenseRecord(capture, decoded, notes);
  }

  method MakeProfile(capture: Capture, decoded: seq<Option<Samples>>) returns (frame: Profile)
    requires decoded == AllTrusted(capture) && |capture.traces| == |TRACE_COLUMNS|
    ensures ProfileOf(capture, frame)
  {
    TrustedLengths(capture);
    hide Trusted, ColumnOf, TimeColumn, CellSays;
    frame := ProfileFrame(capture.info, decoded);
  }

  ghost function StepsOf(writers: seq<Writer>): (steps: seq<nat>)
    reads writers
    ensures |steps| == |writers|
  {
    seq(|writers|, i requires 0 <= i < |writers| reads writers => writers[i].steps)
  }

  /** Every destination is tried once. */
  ghost predicate FatesAre(fates: seq<Fates>, writers: seq<Writer>, steps: seq<nat>) {
    && |fates| == |writers| == |steps|
    && forall i :: 0 <= i < |writers| ==> fates[i] == FatesOf(writers[i], steps[i])
  }

  lemma TrustedLengths(capture: Capture)
    ensures forall i :: 0 <= i < |capture.traces| && Trusted(capture.info, capture.traces[i]).Some? ==>
              |Trusted(capture.info, capture.traces[i]).value| == capture.info.unencodedSize
  {}

  lemma NoneWorked()
    ensures AllWorked([])
  {}

  lemma OneMoreWorked(fates: seq<Fates>, f: Fates)
    ensures AllWorked(fates + [f]) <==> AllWorked(fates) && f.Worked()
  {
    if AllWorked(fates + [f]) {
      assert (fates + [f])[|fates|] == f;
      assert forall i :: 0 <= i < |fates| ==> (fates + [f])[i] == fates[i];
    }
  }

  /** The writing part of a render, once the result is not refused. */
  method StoreEverywhere(row: DispenseRow, profile: Profile, writers: seq<Writer>, collected: CollectedCycles,
                         ghost capture: Capture)
    returns (record: DispenseRow, ending: Ending, ghost fates: seq<Fates>)
    requires Distinct(writers) && collected.cycles == collected.file && row.objectUri == None
    modifies writers, collected
    ensures !ending.Kept?
    ensures ending.Written? ==> record == if writers != [] then Linking(row) else row
    ensures Storing(Store(old(Shelves(writers)), old(collected.file)), Store(Shelves(writers), collected.file),
                    Rendered(capture, row, profile, fates, ending))
    ensures !ending.Raised? ==> collected.cycles == collected.file
    ensures FatesAre(fates, writers, old(StepsOf(writers)))
    ensures ending.Written? <==> AllWorked(fates) && collected.saveWorks(old(collected.saves))
  {
    ghost var before := Shelves(writers);
    ghost var memory := collected.file;
    var failures;
    record, failures, fates := StoreInAll(row, profile, writers);
    ghost var after := Shelves(writers);
    if failures > 0 {
      return record, Raised, fates;
    }
    var remembered := collected.Set(row.cycle, row.blankTraces, row.reconstructed);
    assert Shelves(writers) == after;
    ending := if remembered then Written else Raised;
  }

  method StoreInAll(row: DispenseRow, profile: Profile, writers: seq<Writer>)
    returns (record: DispenseRow, failures: nat, ghost fates: seq<Fates>)
    requires Distinct(writers) && row.objectUri == None
    modifies writers
    ensures |fates| == |writers| && (failures == 0 <==> AllWorked(fates))
    ensures FatesAre(fates, writers, old(StepsOf(writers)))
    ensures forall i :: 0 <= i < |writers| ==>
              Shelves(writers)[i] == StoredIn(old(Shelves(writers))[i], row, profile, fates[i])
    ensures failures == 0 ==> record == if writers != [] then Linking(row) else row
  {
    hide AllWorked, Linking, Untried, Tried, Shelves, StepsOf, StoredIn, FatesAre;
    ghost var before, steps := Shelves(writers), StepsOf(writers);
    fates := [];
    NoneWorked();
    AllUntried(writers);
    failures := 0;
    record := row;
    for i := 0 to |writers|
      invariant |fates| == i && (failures == 0 <==> AllWorked(fates))
      invariant forall j :: i <= j < |writers| ==> Untried(writers[j], before[j], steps[j])
      invariant forall j :: 0 <= j < i ==> Tried(writers[j], before[j], steps[j], row, profile, fates[j])
      invariant record == row || record == Linking(row)
      invariant (i == 0 ==> record == row) && (failures == 0 && i > 0 ==> record == Linking(row))
    {
      var ok;
      ghost var f;
      ok, record, f := TryWriter(writers[i], row, profile, record, before[i], steps[i]);
      OneMoreWorked(fates, f);
      fates := fates + [f];
      if !ok {
        failures := failures + 1;
      }
    }
    AllTried(writers, before, steps, row, profile, fates);
  }

  ghost predicate Untried(writer: Writer, before: Shelf, step: nat)
    reads writer
  {
    writer.Contents() == before && writer.steps == step
  }

  ghost predicate Tried(writer: Writer, before: Shelf, step: nat, row: DispenseRow, profile: Profile, f: Fates)
    reads writer
  {
    writer.Contents() == StoredIn(before, row, profile, f) && f == FatesOf(writer, step)
  }

  lemma AllUntried(writers: seq<Writer>)
    ensures forall j :: 0 <= j < |writers| ==> Untried(writers[j], Shelves(writers)[j], StepsOf(writers)[j])
  {}

  lemma AllTried(writers: seq<Writer>, before: seq<Shelf>, steps: seq<nat>, row: DispenseRow, profile: Profile,
                 fates: seq<Fates>)
    requires |writers| == |before| == |steps| == |fates|
    requires forall j :: 0 <= j < |writers| ==> Tried(writers[j], before[j], steps[j], row, profile, fates[j])
    ensures FatesAre(fates, writers, steps)
    ensures forall j :: 0 <= j < |writers| ==> Shelves(writers)[j] == StoredIn(before[j], row, profile, fates[j])
  {
    hide StoredIn, FatesOf;
  }

  /** One destination, and the row linked to its profile if it took it. */
  method TryWriter(writer: Writer, row: DispenseRow, profile: Profile, record: DispenseRow, ghost before: Shelf,
                   ghost step: nat)
    returns (ok: bool, linked: DispenseRow, ghost f: Fates)
    requires Untried(writer, before, step) && (record == row || record == Linking(row))
    modifies writer
    ensures Tried(writer, before, step, row, profile, f)
    ensures ok == f.Worked() && (linked == record || linked == Linking(row)) && (ok ==> linked == Linking(row))
  {
    hide StoredIn, FatesOf;
    var uri;
    ok, uri, f := StoreIn(writer, row, profile);
    linked := if uri.Some? then record.(objectUri := uri) else record;
  }
}
