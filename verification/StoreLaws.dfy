/** What holds over every history of a pump's cycles being collected, with every write of every render free to fail. */
module StoreLaws {
  import opened Results
  import opened Captures
  import opened Collected
  import opened Rendering
  import opened Writers

  const HELD_CYCLES := 3

  // ----- what a destination holds

  /** A row links to a profile that is there. */
  ghost predicate Linked(s: Shelf) {
    forall c <- s.rows :: s.rows[c].Whole? ==>
      s.rows[c].value.objectUri.Some? && s.rows[c].value.objectUri.value in s.objects
  }

  ghost predicate RowWithin(s: Shelf, c: nat, flaws: Flaws) {
    c in s.rows && s.rows[c].Whole? && AtMost(RowFlaws(s.rows[c].value), flaws)
  }

  predicate IsBlank(column: Column) {
    exists i :: 0 <= i < |column| && column[i].None?
  }

  /** How many of the first n trace columns have an empty cell. */
  function Blanks(profile: Profile, n: nat): nat
    requires n <= |TRACE_COLUMNS|
  {
    if n == 0 then 0
    else
      var title := TRACE_COLUMNS[n - 1].title;
      Blanks(profile, n - 1) + if title in profile && !IsBlank(profile[title]) then 0 else 1
  }

  ghost predicate ProfileWithin(s: Shelf, c: nat, blanks: nat) {
    c in s.objects && s.objects[c].Whole? && Blanks(s.objects[c].value, |TRACE_COLUMNS|) <= blanks
  }

  /** Cycle c's row is at least this clean, and its profile has no more blank columns than that. */
  ghost predicate HoldsWithin(s: Shelf, c: nat, flaws: Flaws) {
    RowWithin(s, c, flaws) && ProfileWithin(s, c, flaws.blanks)
  }

  /** Every remembered cycle is there, row and profile, at least as clean as remembered. */
  ghost predicate AsCleanAs(s: Shelf, memory: Memory) {
    forall c <- memory :: HoldsWithin(s, c, FlawsOf(memory[c]))
  }

  ghost predicate Sound(s: Store) {
    forall i :: 0 <= i < |s.shelves| ==> Linked(s.shelves[i]) && AsCleanAs(s.shelves[i], s.memory)
  }

  // ----- a profile is as blank as its row says

  lemma {:induction false} BlanksOf(r: Rendered, n: nat)
    requires MadeFrom(r) && !r.ending.Kept? && n <= |TRACE_COLUMNS|
    ensures Blanks(r.profile, n) <= |AccountOf(r.capture.traces[..n], AllTrusted(r.capture)[..n]).blankTraces|
  {
    hide Trusted, ColumnsOfCapture, ColumnsOfHeader, TimeColumn, RetriesIn, FailedIn, RepairsIn, AccountOf;
    if n > 0 {
      BlanksOf(r, n - 1);
      OneMoreCounted(r.capture.traces, AllTrusted(r.capture), n - 1);
      assert InColumn(r.capture, r.profile, n - 1);
      FilledIsNotBlank(r.capture.info.unencodedSize, TRACE_COLUMNS[n - 1],
                       Trusted(r.capture.info, r.capture.traces[n - 1]));
    }
  }

  lemma FilledIsNotBlank(n: nat, column: TraceColumn, samples: Option<Samples>)
    ensures samples.Some? ==> !IsBlank(ColumnOf(n, column, samples))
  {
    hide CellOf;
  }

  lemma RowTellsBlanks(r: Rendered)
    requires MadeFrom(r) && !r.ending.Kept?
    ensures Blanks(r.profile, |TRACE_COLUMNS|) <= RowFlaws(r.row).blanks
  {
    hide Blanks, AccountOf, Trusted;
    BlanksOf(r, |TRACE_COLUMNS|);
    assert r.capture.traces[..|TRACE_COLUMNS|] == r.capture.traces;
    assert AllTrusted(r.capture)[..|TRACE_COLUMNS|] == AllTrusted(r.capture);
  }

  // ----- one render

  /** A render that breaks off the writing of something remembered. */
  ghost predicate TearsRemembered(s: Store, r: Rendered) {
    && !r.ending.Kept? && r.row.cycle in s.memory
    && exists i :: 0 <= i < |r.fates| && r.fates[i].Tore()
  }

  lemma ShelfStaysLinked(s: Shelf, r: Rendered, fates: Fates)
    requires Linked(s)
    ensures Linked(StoredIn(s, r.row, r.profile, fates))
  {
    var t := StoredIn(s, r.row, r.profile, fates);
    forall c | c in t.rows && t.rows[c].Whole?
      ensures t.rows[c].value.objectUri.Some? && t.rows[c].value.objectUri.value in t.objects
    {
      if c in s.rows && t.rows[c] == s.rows[c] {
        assert s.rows[c].value.objectUri.value in s.objects;
      }
    }
  }

  /** What a destination holds of another cycle is left alone. */
  lemma OthersUntouched(s: Shelf, r: Rendered, fates: Fates, c: nat, flaws: Flaws)
    requires c != r.row.cycle
    ensures HoldsWithin(StoredIn(s, r.row, r.profile, fates), c, flaws) <==> HoldsWithin(s, c, flaws)
  {
    hide Blanks, AtMost;
  }

  /** After a render of a cycle, a destination that held it well enough still does, unless the writing broke off. */
  lemma StillHolds(s: Shelf, r: Rendered, fates: Fates, flaws: Flaws)
    requires MadeFrom(r) && !r.ending.Kept? && AtMost(RowFlaws(r.row), flaws) && HoldsWithin(s, r.row.cycle, flaws)
    ensures HoldsWithin(StoredIn(s, r.row, r.profile, fates), r.row.cycle, flaws) <==> !fates.Tore()
  {
    RowTellsBlanks(r);
    hide Blanks, MadeFrom;
  }

  /** A destination that took both writes holds the result. */
  lemma NowHolds(s: Shelf, r: Rendered, fates: Fates)
    requires MadeFrom(r) && !r.ending.Kept? && fates.Worked()
    ensures HoldsWithin(StoredIn(s, r.row, r.profile, fates), r.row.cycle, RowFlaws(r.row))
  {
    RowTellsBlanks(r);
    hide Blanks, MadeFrom;
  }

  /**
   Exactly when a render keeps every destination at least as clean as remembered, however it ends: unless it breaks off
   the writing of something remembered.
   */
  lemma StaysSoundExactly(s: Store, t: Store, r: Rendered)
    requires Sound(s) && RenderStep(s, t, r)
    ensures Sound(t) <==> !TearsRemembered(s, r)
  {
    hide MadeFrom, StoredIn, HoldsWithin, Linked;
    if TearsRemembered(s, r) {
      var i :| 0 <= i < |r.fates| && r.fates[i].Tore();
      var c := r.row.cycle;
      assert AsCleanAs(s.shelves[i], s.memory);
      StillHolds(s.shelves[i], r, r.fates[i], FlawsOf(s.memory[c]));
      assert r.ending.Raised? by {
        assert !r.fates[i].Worked();
      }
      assert !HoldsWithin(t.shelves[i], c, FlawsOf(t.memory[c]));
    } else if !r.ending.Kept? {
      forall i | 0 <= i < |t.shelves|
        ensures Linked(t.shelves[i]) && AsCleanAs(t.shelves[i], t.memory)
      {
        ShelfStaysLinked(s.shelves[i], r, r.fates[i]);
        ShelfStaysClean(s, t, r, i);
      }
    }
  }

  lemma ShelfStaysClean(s: Store, t: Store, r: Rendered, i: nat)
    requires RenderStep(s, t, r) && !r.ending.Kept? && i < |s.shelves| && AsCleanAs(s.shelves[i], s.memory)
    requires r.row.cycle in s.memory ==> !r.fates[i].Tore()
    ensures i < |t.shelves| && AsCleanAs(t.shelves[i], t.memory)
  {
    hide MadeFrom, StoredIn, HoldsWithin, Less;
    forall c | c in t.memory
      ensures HoldsWithin(t.shelves[i], c, FlawsOf(t.memory[c]))
    {
      if r.ending.Written? {
        RememberExactly(s.memory, r.row.cycle, SavedOf(r.row), c);
      }
      if c != r.row.cycle {
        OthersUntouched(s.shelves[i], r, r.fates[i], c, FlawsOf(t.memory[c]));
      } else if r.ending.Written? {
        NowHolds(s.shelves[i], r, r.fates[i]);
      } else {
        StillHolds(s.shelves[i], r, r.fates[i], FlawsOf(s.memory[c]));
      }
    }
  }

  /** Exactly which results are refused, in terms of what is remembered and what the row says. */
  lemma KeptExactly(s: Store, t: Store, r: Rendered)
    requires RenderStep(s, t, r)
    ensures r.ending.Kept? <==>
      && r.row.cycle in s.memory
      && var saved := s.memory[r.row.cycle];
      || |saved.blankTraces| < |r.row.blankTraces|
      || (|saved.blankTraces| == |r.row.blankTraces| && !saved.reconstructed && r.row.reconstructed)
  {
    hide MadeFrom, Storing;
  }

  /** What a render that reports success remembers, unless it is of a cycle too far behind another. */
  lemma WrittenIsRemembered(s: Store, t: Store, r: Rendered)
    requires RenderStep(s, t, r) && r.ending.Written?
    requires forall c <- s.memory :: c < r.row.cycle + 10
    ensures r.row.cycle in t.memory
    ensures var saved := t.memory[r.row.cycle];
      saved.blankTraces == r.row.blankTraces && saved.reconstructed == r.row.reconstructed
  {
    hide MadeFrom;
    RememberExactly(s.memory, r.row.cycle, SavedOf(r.row), r.row.cycle);
  }

  /** A clean result is never refused, and once written it is in every destination and remembered clean. */
  lemma CleanIsStored(s: Store, t: Store, r: Rendered, i: nat)
    requires RenderStep(s, t, r) && r.row.blankTraces == [] && !r.row.reconstructed && i < |s.shelves|
    ensures !r.ending.Kept?
    ensures r.ending.Written? ==>
      && |t.shelves| == |s.shelves|
      && r.row.cycle in t.shelves[i].rows && t.shelves[i].rows[r.row.cycle] == Whole(Linking(r.row))
      && r.row.cycle in t.shelves[i].objects && t.shelves[i].objects[r.row.cycle] == Whole(r.profile)
      && ((forall c <- s.memory :: c < r.row.cycle + 10) ==>
            && r.row.cycle in t.memory && t.memory[r.row.cycle].blankTraces == []
            && !t.memory[r.row.cycle].reconstructed)
  {
    hide MadeFrom;
    KeptExactly(s, t, r);
    if r.ending.Written? {
      WrittenEverywhere(s, t, r);
      if forall c <- s.memory :: c < r.row.cycle + 10 {
        WrittenIsRemembered(s, t, r);
      }
    }
  }

  /** What is remembered of a cycle only ever gets cleaner, for as long as it is remembered. */
  lemma MemoryOnlyImproves(s: Store, t: Store, r: Rendered, c: nat)
    requires RenderStep(s, t, r) && c in s.memory && c in t.memory
    ensures AtMost(FlawsOf(t.memory[c]), FlawsOf(s.memory[c]))
  {
    hide MadeFrom, StoredIn;
  }

  /** A render that reports success has put its row and its profile, together, in every destination. */
  lemma WrittenEverywhere(s: Store, t: Store, r: Rendered)
    requires RenderStep(s, t, r) && r.ending.Written?
    ensures |t.shelves| == |s.shelves| && forall i :: 0 <= i < |t.shelves| ==>
              t.shelves[i] == Shelf(s.shelves[i].rows[r.row.cycle := Whole(Linking(r.row))],
                                    s.shelves[i].objects[r.row.cycle := Whole(r.profile)])
    ensures t.memory == Remember(s.memory, r.row.cycle, SavedOf(r.row))
  {
    hide MadeFrom;
  }

  // ----- histories

  /**
   A run's visit to one cycle: the pump's newest cycle as the run read it, whether the pump was asked for this one, and
   the render, if it came to that.
   */
  datatype Visit = Visit(cycle: nat, newest: nat, asked: bool, rendered: Option<Rendered>)

  function Lookup(memory: Memory, cycle: nat): Option<Saved> {
    if cycle in memory then Some(memory[cycle]) else None
  }

  ghost predicate VisitStep(s: Store, t: Store, v: Visit) {
    && v.newest - HELD_CYCLES < v.cycle <= v.newest
    && (v.asked <==> !AlreadyClean(Lookup(s.memory, v.cycle)))
    && (v.rendered.None? ==> t == s)
    && (v.rendered.Some? ==> v.asked && v.rendered.value.row.cycle == v.cycle && RenderStep(s, t, v.rendered.value))
  }

  /** A cycle is asked for unless it is remembered without blank traces and without a repaired one. */
  lemma AskedExactly(s: Store, t: Store, v: Visit)
    requires VisitStep(s, t, v)
    ensures v.asked <==>
      !(v.cycle in s.memory && s.memory[v.cycle].blankTraces == [] && !s.memory[v.cycle].reconstructed)
  {
    hide RenderStep;
  }

  ghost predicate IsHistory(states: seq<Store>, visits: seq<Visit>) {
    && |states| == |visits| + 1
    && forall i :: 0 <= i < |visits| ==> VisitStep(states[i], states[i + 1], visits[i])
  }

  /** One history after another, the second starting where the first ended, is a history. */
  lemma HistoriesJoin(states: seq<Store>, visits: seq<Visit>, states': seq<Store>, visits': seq<Visit>)
    requires IsHistory(states, visits) && IsHistory(states', visits') && states[|visits|] == states'[0]
    ensures IsHistory(states + states'[1..], visits + visits')
    ensures (states + states'[1..])[|visits| + |visits'|] == states'[|visits'|]
  {
    hide VisitStep;
    var s, v := states + states'[1..], visits + visits';
    forall i | 0 <= i < |v|
      ensures VisitStep(s[i], s[i + 1], v[i])
    {
      if i < |visits| {
        assert s[i] == states[i] && s[i + 1] == states[i + 1] && v[i] == visits[i];
      } else {
        var j := i - |visits|;
        assert s[i] == states'[j] && s[i + 1] == states'[j + 1] && v[i] == visits'[j];
      }
    }
  }

  /** Nothing stored and nothing remembered yet, in any number of destinations. */
  function EmptyStore(destinations: nat): Store {
    Store(seq(destinations, _ => Shelf(map[], map[])), map[])
  }

  lemma EmptyIsSound(destinations: nat)
    ensures Sound(EmptyStore(destinations))
  {}

  ghost predicate TearsAt(states: seq<Store>, visits: seq<Visit>, k: nat)
    requires k < |visits| && k < |states|
  {
    visits[k].rendered.Some? && TearsRemembered(states[k], visits[k].rendered.value)
  }

  /** At every point of every history that breaks off nothing remembered, all is at least as clean as remembered. */
  lemma {:induction false} HistoryStaysSound(states: seq<Store>, visits: seq<Visit>, n: nat)
    requires IsHistory(states, visits) && Sound(states[0]) && n < |states|
    requires forall k :: 0 <= k < n ==> !TearsAt(states, visits, k)
    ensures Sound(states[n])
    decreases n
  {
    hide Sound, RenderStep, TearsRemembered;
    if n > 0 {
      HistoryStaysSound(states, visits, n - 1);
      assert VisitStep(states[n - 1], states[n], visits[n - 1]) && !TearsAt(states, visits, n - 1);
      if visits[n - 1].rendered.Some? {
        StaysSoundExactly(states[n - 1], states[n], visits[n - 1].rendered.value);
      }
    }
  }

  // ----- what was once clean

  /** Every cycle remembered clean is there in every destination, whole: a clean row, and a profile without blanks. */
  ghost predicate CleanIsWhole(s: Store) {
    forall i, c :: 0 <= i < |s.shelves| && AlreadyClean(Lookup(s.memory, c)) ==> HoldsWithin(s.shelves[i], c, CLEAN)
  }

  lemma CleanStaysWhole(s: Store, t: Store, v: Visit)
    requires CleanIsWhole(s) && VisitStep(s, t, v)
    ensures CleanIsWhole(t)
  {
    hide MadeFrom, StoredIn, HoldsWithin, Less;
    if v.rendered.Some? && !v.rendered.value.ending.Kept? {
      var r := v.rendered.value;
      forall i, c | 0 <= i < |t.shelves| && AlreadyClean(Lookup(t.memory, c))
        ensures HoldsWithin(t.shelves[i], c, CLEAN)
      {
        if r.ending.Written? {
          RememberExactly(s.memory, r.row.cycle, SavedOf(r.row), c);
        }
        if c == r.row.cycle {
          NowHolds(s.shelves[i], r, r.fates[i]);
        } else {
          assert AlreadyClean(Lookup(s.memory, c));
          OthersUntouched(s.shelves[i], r, r.fates[i], c, CLEAN);
        }
      }
    }
  }

  /**
   Whatever breaks off or fails, at any step of any render of any history: a cycle remembered clean is whole and clean
   in every destination. Only cycles that are to be collected again anyway can be damaged.
   */
  lemma {:induction false} CleanIsAlwaysWhole(states: seq<Store>, visits: seq<Visit>, n: nat)
    requires IsHistory(states, visits) && CleanIsWhole(states[0]) && n < |states|
    ensures CleanIsWhole(states[n])
    decreases n
  {
    hide CleanIsWhole, VisitStep;
    if n > 0 {
      CleanIsAlwaysWhole(states, visits, n - 1);
      CleanStaysWhole(states[n - 1], states[n], visits[n - 1]);
    }
  }

  // ----- eviction

  /** A pump whose newest cycle never goes back, and nothing remembered that it has not dispensed yet. */
  ghost predicate Forward(memory: Memory, visits: seq<Visit>) {
    && (forall i, j :: 0 <= i <= j < |visits| ==> visits[i].newest <= visits[j].newest)
    && (visits != [] ==> UpTo(memory, visits[0].newest))
  }

  ghost predicate UpTo(memory: Memory, newest: nat) {
    forall c <- memory :: c <= newest
  }

  lemma StepStaysUpTo(s: Store, t: Store, v: Visit)
    requires VisitStep(s, t, v) && UpTo(s.memory, v.newest)
    ensures UpTo(t.memory, v.newest)
  {
    hide MadeFrom, StoredIn;
  }

  lemma {:induction false} HistoryStaysUpTo(states: seq<Store>, visits: seq<Visit>, n: nat)
    requires IsHistory(states, visits) && Forward(states[0].memory, visits) && n < |visits|
    ensures UpTo(states[n].memory, visits[n].newest)
    decreases n
  {
    hide VisitStep;
    if n > 0 {
      HistoryStaysUpTo(states, visits, n - 1);
      StepStaysUpTo(states[n - 1], states[n], visits[n - 1]);
    }
  }

  lemma HeldIsKept(s: Store, t: Store, v: Visit, c: nat)
    requires VisitStep(s, t, v) && UpTo(s.memory, v.newest)
    requires c in s.memory && v.newest - HELD_CYCLES < c
    ensures c in t.memory && AtMost(FlawsOf(t.memory[c]), FlawsOf(s.memory[c]))
  {
    hide MadeFrom, StoredIn;
  }

  /** Eviction safety: a cycle that was remembered stays remembered, no worse, for as long as the pump may hold it. */
  lemma {:induction false} HeldIsNeverEvicted(states: seq<Store>, visits: seq<Visit>, i: nat, j: nat, c: nat)
    requires IsHistory(states, visits) && Forward(states[0].memory, visits) && i <= j < |states|
    requires c in states[i].memory
    requires forall k :: i <= k < j ==> visits[k].newest - HELD_CYCLES < c
    ensures c in states[j].memory && AtMost(FlawsOf(states[j].memory[c]), FlawsOf(states[i].memory[c]))
    decreases j
  {
    hide VisitStep;
    if i < j {
      HeldIsNeverEvicted(states, visits, i, j - 1, c);
      HistoryStaysUpTo(states, visits, j - 1);
      HeldIsKept(states[j - 1], states[j], visits[j - 1], c);
    }
  }

  /** Over any number of runs, with any failures: the pump is never again asked for a cycle once remembered clean. */
  lemma CleanIsNeverAskedForAgain(states: seq<Store>, visits: seq<Visit>, i: nat, j: nat)
    requires IsHistory(states, visits) && Forward(states[0].memory, visits) && i <= j < |visits|
    requires var c, memory := visits[j].cycle, states[i].memory;
      c in memory && memory[c].blankTraces == [] && !memory[c].reconstructed
    ensures !visits[j].asked && states[j + 1] == states[j]
  {
    hide RenderStep;
    assert VisitStep(states[j], states[j + 1], visits[j]);
    HeldIsNeverEvicted(states, visits, i, j, visits[j].cycle);
  }

  // ----- where it stops

  /**
   A cycle just collected is remembered exactly when nothing remembered is ten or more cycles ahead of it. A pump whose
   counter went back further than that collects the same cycles again on every run.
   */
  lemma RememberedAtAllExactly(memory: Memory, cycle: nat, saved: Saved)
    ensures cycle in Remember(memory, cycle, saved) <==> forall k <- memory :: k < cycle + 10
  {
    RememberExactly(memory, cycle, saved, cycle);
    if exists k <- memory :: k >= cycle + KEPT_CYCLES {
      var k :| k in memory && k >= cycle + KEPT_CYCLES;
      assert k in memory[cycle := saved];
    }
  }

  /** However a render of this result ends, this destination's row of the cycle is whole and no worse afterwards. */
  ghost predicate NeverWorsens(s: Store, made: Rendered, i: nat, mayTear: bool)
    requires i < |s.shelves|
  {
    forall t: Store, fates: seq<Fates>, ending: Ending ::
      RenderStep(s, t, made.(fates := fates, ending := ending)) && (i < |fates| && fates[i].Tore() ==> mayTear) ==>
        i < |t.shelves| && NoWorse(s.shelves[i], t.shelves[i], made.row.cycle)
  }

  ghost predicate NoWorse(s: Shelf, t: Shelf, c: nat) {
    c in s.rows && s.rows[c].Whole? ==> RowWithin(t, c, RowFlaws(s.rows[c].value))
  }

  /**
   Only what is remembered is protected. A destination's row is safe from a render exactly when the result is refused;
   if no write breaks off, also when the result is as clean as what that destination happens to hold.
   */
  lemma NeverWorsensExactly(s: Store, made: Rendered, i: nat, mayTear: bool)
    requires MadeFrom(made.(ending := Written)) && i < |s.shelves|
    requires made.row.cycle in s.shelves[i].rows && s.shelves[i].rows[made.row.cycle].Whole?
    ensures NeverWorsens(s, made, i, mayTear) <==>
            || Refused(s.memory, made.row)
            || (!mayTear && AtMost(RowFlaws(made.row), RowFlaws(s.shelves[i].rows[made.row.cycle].value)))
  {
    hide RowOf, ProfileOf;
    var c := made.row.cycle;
    var held := s.shelves[i].rows[c].value;
    if Refused(s.memory, made.row) {
    } else if mayTear {
      var t := AllEndAs(s, made, Fates(Lands, Tears), Raised);
    } else if AtMost(RowFlaws(made.row), RowFlaws(held)) {
    } else {
      var t := AllEndAs(s, made, Fates(Lands, Lands), Written);
    }
  }

  /** A render that ends the same way in every destination. */
  lemma AllEndAs(s: Store, made: Rendered, each: Fates, ending: Ending) returns (t: Store)
    requires MadeFrom(made.(ending := Written)) && !Refused(s.memory, made.row)
    requires if each.Worked() then ending == Written else ending == Raised
    ensures |t.shelves| == |s.shelves|
    ensures forall j :: 0 <= j < |s.shelves| ==> t.shelves[j] == StoredIn(s.shelves[j], made.row, made.profile, each)
    ensures RenderStep(s, t, made.(fates := seq(|s.shelves|, _ => each), ending := ending))
  {
    hide RowOf, ProfileOf, StoredIn;
    var n := |s.shelves|;
    t := Store(seq(n, j requires 0 <= j < n => StoredIn(s.shelves[j], made.row, made.profile, each)),
               if ending.Written? then Remember(s.memory, made.row.cycle, SavedOf(made.row)) else s.memory);
  }

  /**
   So between two renders that fail, or one that fails and one that does not, a destination can lose a clean row to a
   worse one: a cycle is remembered only once every destination has it.
   */
  lemma PartialFailureCanWorsen(clean: Rendered, worse: Rendered) returns (s: Store, t: Store)
    requires MadeFrom(clean.(ending := Written)) && MadeFrom(worse.(ending := Written))
    requires clean.row.cycle == worse.row.cycle && RowFlaws(clean.row) == CLEAN && Less(CLEAN, RowFlaws(worse.row))
    ensures RenderStep(EmptyStore(2), s,
                       clean.(fates := [Fates(Lands, Lands), Fates(FailsBefore, Lands)], ending := Raised))
    ensures RenderStep(s, t, worse.(fates := [Fates(Lands, Lands), Fates(Lands, Lands)], ending := Written))
    ensures var c := clean.row.cycle;
      && RowWithin(s.shelves[0], c, CLEAN)
      && c in t.shelves[0].rows && t.shelves[0].rows[c] == Whole(Linking(worse.row))
  {
    hide RowOf, ProfileOf;
    var empty := Shelf(map[], map[]);
    var both, none := Fates(Lands, Lands), Fates(FailsBefore, Lands);
    s := Store([StoredIn(empty, clean.row, clean.profile, both), StoredIn(empty, clean.row, clean.profile, none)],
               map[]);
    t := Store([StoredIn(s.shelves[0], worse.row, worse.profile, both),
                StoredIn(s.shelves[1], worse.row, worse.profile, both)],
               Remember(map[], worse.row.cycle, SavedOf(worse.row)));
  }
}
