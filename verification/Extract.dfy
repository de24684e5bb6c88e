/** Collecting a pump's recent cycles while it goes on dispensing, run after run. */
module Extract {
  import opened Bytes
  import opened Results
  import opened PumpClient
  import opened ProfilePull
  import opened Captures
  import opened Collected
  import opened Rendering
  import opened Writers
  import opened StoreLaws
  import NcsProtocol
  import PumpProtocol

  // ----- a pump that may dispense between any two requests

  /** What one dispense really was. */
  datatype Facts = Facts(
    recipeNumber: nat, referenceCycle: nat, time: nat, jobInfo: string, slotId: nat, readyPressure: nat,
    referenceReadyPressure: nat, recipeTitle: string, confirmationPct: nat, volumeSetpoint: nat, volumeMeasured: nat)

  /** A reply about some dispense, and the cycle it says that was. */
  datatype Tied = Tied(cycle: Option<nat>, value: Option<nat>)

  const DISPENSE_INFO_LEN := 164

  /** A DISPENSE_INFO reply: the fields that are known, and how long it was. */
  datatype InfoReply = InfoReply(known: DispenseInfo, length: nat)

  /** The three SVIDs about the newest dispense. */
  datatype Svids = Svids(recipeTitle: Option<string>, confirmationPct: Option<nat>, confirmationTime: Option<nat>)

  const TITLE_SVID := 20
  const PCT_SVID := 849
  const TIME_SVID := 1071

  /** How reading the SVIDs goes: all at once, refused and read one at a time, not at all, or the gateway gone. */
  datatype SvidReads = AllAtOnce(values: Svids) | OneAtATime(values: Svids) | NoneRead | GatewayGone

  /** The pump over time: its newest dispense and newest profile at each instant, and what every dispense was. */
  datatype World = World(newest: nat -> nat, profiled: nat -> long, facts: nat -> Facts)

  /** Dispenses and profiles only ever come one after another. */
  ghost predicate NeverBack(w: World) {
    && (forall t, u :: t <= u ==> w.newest(t) <= w.newest(u))
    && (forall t, u :: t <= u ==> w.profiled(t) <= w.profiled(u))
  }

  predicate Agrees<T(==)>(part: Option<T>, truth: T) {
    part.Some? ==> part.value == truth
  }

  predicate InfoAgrees(info: DispenseInfo, f: Facts) {
    && Agrees(info.recipeNumber, f.recipeNumber) && Agrees(info.referenceCycle, f.referenceCycle)
    && Agrees(info.time, f.time) && Agrees(info.jobInfo, f.jobInfo) && Agrees(info.slotId, f.slotId)
    && Agrees(info.readyPressure, f.readyPressure)
    && Agrees(info.referenceReadyPressure, f.referenceReadyPressure)
  }

  /** A reply about the newest dispense, at the instant it was read. */
  ghost predicate InfoTrue(w: World, t: nat, info: DispenseInfo) {
    Agrees(info.cycle, w.newest(t)) && InfoAgrees(info, w.facts(w.newest(t)))
  }

  ghost predicate TitleTrue(w: World, t: nat, title: Option<string>) {
    Agrees(title, w.facts(w.newest(t)).recipeTitle)
  }

  ghost predicate PctTrue(w: World, t: nat, pct: Option<nat>) {
    Agrees(pct, w.facts(w.newest(t)).confirmationPct)
  }

  /**
   What the wire gives back for each read of a session, by the instant it happens at. None is a read that failed, and
   `gone` is when the gateway itself fails, which ends the run. The replies are the pump's own, so they are true of the
   instant they were read at; LAST_DIS_INFO_2 and RTSTATUS may be about any dispense, but say which.
   */
  datatype Replies = Replies(
    profileCycle: nat -> Option<Option<long>>,
    info: nat -> Option<InfoReply>,
    measured: nat -> Option<Tied>,
    setpoint: nat -> Option<Tied>,
    svids: nat -> SvidReads,
    profileInfo: (nat, long) -> Exchange,
    gone: nat -> bool)

  ghost predicate TrueReplies(w: World, r: Replies) {
    forall t: nat :: TrueAt(w, r, t)
  }

  ghost predicate TrueAt(w: World, r: Replies, t: nat) {
    && (r.profileCycle(t).Some? ==> Agrees(r.profileCycle(t).value, w.profiled(t)))
    && (r.info(t).Some? ==> InfoTrue(w, t, r.info(t).value.known))
    && (r.measured(t).Some? && r.measured(t).value.cycle.Some? ==>
          Agrees(r.measured(t).value.value, w.facts(r.measured(t).value.cycle.value).volumeMeasured))
    && (r.setpoint(t).Some? && r.setpoint(t).value.cycle.Some? ==>
          Agrees(r.setpoint(t).value.value, w.facts(r.setpoint(t).value.cycle.value).volumeSetpoint))
    && SvidsTrue(w, t, r.svids(t))
  }

  /** Read one at a time, the values come from different instants. */
  ghost predicate SvidsTrue(w: World, t: nat, s: SvidReads) {
    match s
    case AllAtOnce(values) => TitleTrue(w, t, values.recipeTitle) && PctTrue(w, t, values.confirmationPct)
    case OneAtATime(values) => TitleTrue(w, t + 1, values.recipeTitle) && PctTrue(w, t + 2, values.confirmationPct)
    case _ => true
  }

  class Session {
    const replies: Replies
    var now: nat
    // the cycles whose profile was asked for, in order
    var asked: seq<nat>

    constructor (replies: Replies)
      ensures this.replies == replies && now == 0 && asked == []
    {
      this.replies := replies;
      now, asked := 0, [];
    }

    /** Time passing in other requests, and in between. */
    method Wait(steps: nat)
      modifies this`now
      ensures now == old(now) + steps
    {
      now := now + steps;
    }
  }

  /** A status reply that names a profile cycle. */
  predicate NamesCycle(r: Replies, t: nat) {
    r.profileCycle(t).Some? && r.profileCycle(t).value.Some?
  }

  /** The newest profile cycle, from the second of two replies if the first does not say; None if the gateway fails. */
  method ReadNewestCycle(session: Session) returns (newest: Option<Option<long>>)
    modifies session`now
    ensures old(session.now) <= session.now <= old(session.now) + 2
    ensures var r, t := session.replies, old(session.now);
      && (newest.None? <==> r.gone(t) || (!NamesCycle(r, t) && r.gone(t + 1)))
      && (newest == Some(None) <==> !r.gone(t) && !NamesCycle(r, t) && !r.gone(t + 1) && !NamesCycle(r, t + 1))
      && (newest.Some? && newest.value.Some? ==>
            && session.now == t + (if NamesCycle(r, t) then 1 else 2)
            && r.profileCycle(session.now - 1) == Some(newest.value))
  {
    for i := 0 to 2
      invariant session.now == old(session.now) + i
      invariant i > 0 ==> !session.replies.gone(old(session.now)) && !NamesCycle(session.replies, old(session.now))
      invariant i > 1 ==>
        !session.replies.gone(old(session.now) + 1) && !NamesCycle(session.replies, old(session.now) + 1)
    {
      if session.replies.gone(session.now) {
        return None;
      }
      var status := session.replies.profileCycle(session.now);
      session.now := session.now + 1;
      if status.Some? && status.value.Some? {
        return Some(status.value);
      }
    }
    newest := Some(None);
  }

  // ----- the dispense header

  const NO_INFO := DispenseInfo(None, None, None, None, None, None, None, None)

  /** A header whose parts are each true of some instant between two times, and whose tied parts are for its cycle. */
  ghost predicate ReadBetween(w: World, h: DispenseHeader, first: nat, last: nat) {
    && first <= last
    && InfoTrue(w, first, h.info)
    && (h.info.cycle.Some? ==>
          && Agrees(h.volumeMeasured, w.facts(h.info.cycle.value).volumeMeasured)
          && Agrees(h.volumeSetpoint, w.facts(h.info.cycle.value).volumeSetpoint))
    && (exists t :: first <= t <= last && TitleTrue(w, t, h.recipeTitle))
    && (exists t :: first <= t <= last && PctTrue(w, t, h.confirmationPct))
  }

  /** A part that says which dispense it is for, if it is for this one. */
  function IfTied(part: Option<Tied>, cycle: Option<nat>): Option<nat> {
    if part.Some? && part.value.cycle == cycle then part.value.value else None
  }

  /** What is noted about such a part when it failed, or is for another dispense. */
  function TiedLines(part: Option<Tied>, cycle: Option<nat>, failed: HeaderLine, other: Option<nat> -> HeaderLine)
    : seq<HeaderLine>
  {
    if part.None? then [failed] else if part.value.cycle != cycle then [other(part.value.cycle)] else []
  }

  /** The SVID values as far as they were read. */
  function ValuesOf(s: SvidReads): Svids {
    match s
    case AllAtOnce(values) => values
    case OneAtATime(values) => values
    case _ => Svids(None, None, None)
  }

  function SvidLines(s: SvidReads, time: Option<nat>): seq<HeaderLine> {
    match s
    case AllAtOnce(values) => if values.confirmationTime != time then [ConfirmationForOther] else []
    case OneAtATime(values) =>
      [SvidsRefused]
      + (if values.recipeTitle.None? then [SvidFailed(TITLE_SVID)] else [])
      + (if values.confirmationPct.None? then [SvidFailed(PCT_SVID)] else [])
      + (if values.confirmationTime.None? then [SvidFailed(TIME_SVID)] else [])
      + (if values.confirmationTime != time then [ConfirmationForOther] else [])
    case _ =>
      [SvidsFailed]
  }

  /** The header that reading from instant t on gives. */
  function HeaderRead(r: Replies, t: nat): DispenseHeader {
    match r.info(t)
    case None => DispenseHeader(NO_INFO, None, None, None, None, [InfoFailed])
    case Some(reply) =>
      var info := reply.known;
      var values := ValuesOf(r.svids(t + 3));
      DispenseHeader(
        info, values.recipeTitle,
        if values.confirmationTime == info.time then values.confirmationPct else None,
        IfTied(r.setpoint(t + 2), info.cycle), IfTied(r.measured(t + 1), info.cycle),
        (if reply.length != DISPENSE_INFO_LEN then [InfoLength(reply.length)] else [])
        + TiedLines(r.measured(t + 1), info.cycle, MeasuredFailed, c => MeasuredForOther(c))
        + TiedLines(r.setpoint(t + 2), info.cycle, SetpointFailed, c => SetpointForOther(c))
        + SvidLines(r.svids(t + 3), info.time))
  }

  /** What a tied reply gives: its value if it is about the header's own dispense, and nothing otherwise. */
  ghost predicate TakenIfTied(value: Option<nat>, part: Option<Tied>, info: DispenseInfo) {
    if part.Some? && part.value.cycle == info.cycle then value == part.value.value else value == None
  }

  /** Exactly what a header takes from the replies. */
  lemma HeaderExactly(r: Replies, t: nat)
    ensures var h := HeaderRead(r, t);
      match r.info(t)
      case None => h == DispenseHeader(NO_INFO, None, None, None, None, [InfoFailed])
      case Some(reply) =>
        && h.info == reply.known
        && TakenIfTied(h.volumeMeasured, r.measured(t + 1), h.info)
        && TakenIfTied(h.volumeSetpoint, r.setpoint(t + 2), h.info)
        && match r.svids(t + 3)
           case AllAtOnce(v) =>
             && h.recipeTitle == v.recipeTitle
             && h.confirmationPct == if v.confirmationTime == h.info.time then v.confirmationPct else None
           case OneAtATime(v) =>
             && h.recipeTitle == v.recipeTitle
             && h.confirmationPct == if v.confirmationTime == h.info.time then v.confirmationPct else None
           case _ => h.recipeTitle == None && h.confirmationPct == None
  {}

  /** Exactly what it notes. */
  lemma HeaderLinesExactly(r: Replies, t: nat, line: HeaderLine)
    requires r.info(t).Some?
    ensures var info := r.info(t).value.known;
      var svids := r.svids(t + 3);
      var read := svids.AllAtOnce? || svids.OneAtATime?;
      line in HeaderRead(r, t).problems <==>
      match line
      case InfoFailed => false
      case InfoLength(n) => n == r.info(t).value.length != 164
      case MeasuredFailed => r.measured(t + 1).None?
      case MeasuredForOther(c) => r.measured(t + 1).Some? && c == r.measured(t + 1).value.cycle != info.cycle
      case SetpointFailed => r.setpoint(t + 2).None?
      case SetpointForOther(c) => r.setpoint(t + 2).Some? && c == r.setpoint(t + 2).value.cycle != info.cycle
      case SvidsRefused => svids.OneAtATime?
      case SvidFailed(n) =>
        svids.OneAtATime?
        && ((n == 20 && svids.values.recipeTitle.None?) || (n == 849 && svids.values.confirmationPct.None?)
            || (n == 1071 && svids.values.confirmationTime.None?))
      case SvidsFailed => !read
      case ConfirmationForOther => read && svids.values.confirmationTime != info.time
  {}

  /** When reading it is done. */
  function HeaderDone(r: Replies, t: nat): nat {
    if r.info(t).None? then t + 1 else t + 7
  }

  /** The gateway failing in any of the reads that are made. */
  predicate HeaderLost(r: Replies, t: nat) {
    r.gone(t) || (r.info(t).Some? && (r.gone(t + 1) || r.gone(t + 2) || r.svids(t + 3).GatewayGone?))
  }

  /** Each part is true of some instant while it was read, and the parts that name their dispense are for its cycle. */
  lemma HeaderIsReadBetween(w: World, r: Replies, t: nat)
    requires TrueReplies(w, r)
    ensures ReadBetween(w, HeaderRead(r, t), t, HeaderDone(r, t) - 1)
  {
    hide InfoAgrees;
    var h := HeaderRead(r, t);
    assert TitleTrue(w, t, None) && PctTrue(w, t, None);
    assert InfoTrue(w, t, NO_INFO) by {
      NothingAgrees(w.facts(w.newest(t)));
    }
    if r.info(t).Some? {
      assert TrueAt(w, r, t) && TrueAt(w, r, t + 1) && TrueAt(w, r, t + 2) && TrueAt(w, r, t + 3);
      SvidsAreTrue(w, r.svids(t + 3), t + 3);
      hide SvidsTrue, ValuesOf;
      var title :| t + 3 <= title <= t + 5 && TitleTrue(w, title, h.recipeTitle);
      var pct :| t + 3 <= pct <= t + 5 && PctTrue(w, pct, ValuesOf(r.svids(t + 3)).confirmationPct);
      assert PctTrue(w, pct, h.confirmationPct);
    }
  }

  lemma NothingAgrees(f: Facts)
    ensures InfoAgrees(NO_INFO, f)
  {}

  lemma SvidsAreTrue(w: World, s: SvidReads, t: nat)
    requires SvidsTrue(w, t, s)
    ensures exists title :: t <= title <= t + 2 && TitleTrue(w, title, ValuesOf(s).recipeTitle)
    ensures exists pct :: t <= pct <= t + 2 && PctTrue(w, pct, ValuesOf(s).confirmationPct)
  {
    var at := if s.OneAtATime? then t + 1 else t;
    assert TitleTrue(w, at, ValuesOf(s).recipeTitle);
    var pct := if s.OneAtATime? then t + 2 else t;
    assert PctTrue(w, pct, ValuesOf(s).confirmationPct);
  }

  /** A reply that says which dispense it is for: its value, and what there is to note. */
  method TakeTied(session: Session, reply: Option<Tied>, cycle: Option<nat>, failed: HeaderLine,
                  other: Option<nat> -> HeaderLine)
    returns (gone: bool, value: Option<nat>, lines: seq<HeaderLine>)
    modifies session`now
    ensures session.now == old(session.now) + 1 && gone == session.replies.gone(old(session.now))
    ensures value == IfTied(reply, cycle) && lines == TiedLines(reply, cycle, failed, other)
  {
    gone := session.replies.gone(session.now);
    session.now := session.now + 1;
    value, lines := None, [];
    if reply.None? {
      lines := [failed];
    } else if reply.value.cycle == cycle {
      value := reply.value.value;
    } else {
      lines := [other(reply.value.cycle)];
    }
  }

  /** Everything known about the most recent dispense, leaving out each part that says it is for another. */
  method ReadDispenseHeader(session: Session) returns (result: Option<DispenseHeader>)
    modifies session`now
    ensures result == if HeaderLost(session.replies, old(session.now)) then None
                      else Some(HeaderRead(session.replies, old(session.now)))
    ensures session.now > old(session.now)
    ensures result.Some? ==> session.now == HeaderDone(session.replies, old(session.now))
  {
    var reply := session.replies.info(session.now);
    var gone := session.replies.gone(session.now);
    session.now := session.now + 1;
    if gone {
      return None;
    }
    if reply.None? {
      return Some(DispenseHeader(NO_INFO, None, None, None, None, [InfoFailed]));
    }
    var info := reply.value.known;
    var problems := if reply.value.length != DISPENSE_INFO_LEN then [InfoLength(reply.value.length)] else [];

    var measured, setpoint, lines;
    gone, measured, lines := TakeTied(session, session.replies.measured(session.now), info.cycle,
                                      MeasuredFailed, c => MeasuredForOther(c));
    if gone {
      return None;
    }
    problems := problems + lines;
    gone, setpoint, lines := TakeTied(session, session.replies.setpoint(session.now), info.cycle,
                                      SetpointFailed, c => SetpointForOther(c));
    if gone {
      return None;
    }
    problems := problems + lines;

    var answer := session.replies.svids(session.now);
    session.now := session.now + 4;
    if answer.GatewayGone? {
      return None;
    }
    var values := ValuesOf(answer);
    var pct := if values.confirmationTime == info.time then values.confirmationPct else None;
    problems := problems + SvidLines(answer, info.time);
    result := Some(DispenseHeader(info, values.recipeTitle, pct, setpoint, measured, problems));
  }

  // ----- one cycle

  /** What asking for one cycle's profile info came to. */
  datatype ProfileReply = NotHeld | Failed | Profiled(info: ProfileInfo, raw: Bytes)

  /** A refusal carries bytes that look like profile info, so nothing is parsed unless it is GOOD. */
  function ReadProfileInfo(x: Exchange, addr: address, parse: Bytes -> Option<ProfileInfo>): ProfileReply {
    match Command(x, addr)
    case Err(_) => Failed
    case Ok(response) =>
      if response.rc == PumpProtocol.PROFILE_NOT_HELD then NotHeld
      else if response.rc != PumpProtocol.GOOD then Failed
      else
        match parse(response.data)
        case None => Failed
        case Some(info) => if |info.encodedSize| == TRACE_COUNT then Profiled(info, response.data) else Failed
  }

  predicate SaysNotHeld(x: Exchange, addr: address) {
    && x.Received? && NcsProtocol.ParseResponse(x.raw).Ok?
    && var frame := PumpProtocol.ParseFrame(NcsProtocol.ParseResponse(x.raw).value.body, addr);
       frame.Ok? && frame.value.rc == 29
  }

  /** A GOOD frame of this pump whose data is profile info with a size for each of the ten traces. */
  ghost predicate SaysProfile(x: Exchange, addr: address, parse: Bytes -> Option<ProfileInfo>, info: ProfileInfo,
                              raw: Bytes)
  {
    && x.Received? && NcsProtocol.ParseResponse(x.raw).Ok?
    && (var body := NcsProtocol.ParseResponse(x.raw).value.body;
        PumpProtocol.ParseFrame(body, addr) == Ok(PumpProtocol.Response(body, addr, 0, raw)))
    && parse(raw) == Some(info) && |info.encodedSize| == 10
  }

  /** Exactly what is taken for profile info, and for the pump not holding it; anything else fails. */
  lemma ReadProfileInfoExactly(x: Exchange, addr: address, parse: Bytes -> Option<ProfileInfo>)
    ensures var reply := ReadProfileInfo(x, addr, parse);
      && (reply.NotHeld? <==> SaysNotHeld(x, addr))
      && (forall info, raw :: reply == Profiled(info, raw) <==> SaysProfile(x, addr, parse, info, raw))
      && (reply.Failed? <==> !SaysNotHeld(x, addr) && forall info, raw :: !SaysProfile(x, addr, parse, info, raw))
  {
    hide NcsProtocol.ParseResponse, PumpProtocol.ParseFrame;
    var reply := ReadProfileInfo(x, addr, parse);
    if x.Received? && NcsProtocol.ParseResponse(x.raw).Ok? {
      WholeFrame(NcsProtocol.ParseResponse(x.raw).value.body, addr);
    }
    assert reply.Profiled? ==> SaysProfile(x, addr, parse, reply.info, reply.raw);
  }

  lemma WholeFrame(body: Bytes, addr: address)
    ensures var frame := PumpProtocol.ParseFrame(body, addr);
      frame.Ok? ==> frame.value.raw == body && frame.value.addr == addr
  {}

  datatype Collection = CollectNothing | CollectRaised | Collect(capture: Capture)

  /** Every part of a header is about this dispense. */
  ghost predicate HeaderTrue(w: World, h: DispenseHeader, cycle: nat) {
    var f := w.facts(cycle);
    && h.info.cycle == Some(cycle) && InfoAgrees(h.info, f)
    && Agrees(h.recipeTitle, f.recipeTitle) && Agrees(h.confirmationPct, f.confirmationPct)
    && Agrees(h.volumeSetpoint, f.volumeSetpoint) && Agrees(h.volumeMeasured, f.volumeMeasured)
  }

  /** Nothing was dispensed in between if the same dispense is the newest at both ends. */
  lemma NothingDispensed(w: World, first: nat, last: nat)
    requires NeverBack(w) && first <= last && w.newest(first) == w.newest(last)
    ensures forall t :: first <= t <= last ==> w.newest(t) == w.newest(first)
  {}

  lemma SandwichedHeader(w: World, h: DispenseHeader, first: nat, last: nat, after: nat)
    requires NeverBack(w) && ReadBetween(w, h, first, last) && last <= after
    requires h.info.cycle == Some(w.newest(after))
    ensures HeaderTrue(w, h, w.newest(after))
  {
    hide InfoAgrees;
    NothingDispensed(w, first, after);
  }

  /** The header a capture gets, or why it gets none; None when the gateway fails. */
  method AttachHeader(session: Session, cycle: nat, header: DispenseHeader, ghost w: World, ghost first: nat,
                      ghost last: nat)
    returns (result: Option<(Option<DispenseHeader>, Option<HeaderProblem>)>)
    requires NeverBack(w) && TrueReplies(w, session.replies) && ReadBetween(w, header, first, last)
    requires last <= session.now
    modifies session`now
    ensures session.now == old(session.now) + if header.info.cycle == Some(cycle) then 1 else 0
    ensures result.None? <==> header.info.cycle == Some(cycle) && session.replies.gone(old(session.now))
    ensures result.Some? ==>
      && (result.value.0.None? <==> result.value.1.Some?)
      && (result.value.0.Some? <==>
            header.info.cycle == Some(cycle) && StillAbout(session.replies, old(session.now), cycle))
    ensures result.Some? && result.value.0.None? ==>
      result.value.1.value == WhyNoHeader(session.replies, old(session.now), cycle, header)
    ensures result.Some? && result.value.0.Some? ==>
      && result.value.0.value == header && HeaderTrue(w, header, cycle)
      && forall t :: first <= t < session.now ==> w.newest(t) == cycle
  {
    hide HeaderTrue, ReadBetween;
    if header.info.cycle.None? {
      return Some((None, Some(NotRead(header.problems))));
    }
    if header.info.cycle.value != cycle {
      return Some((None, Some(DescribesOnly(header.info.cycle.value))));
    }
    var after := session.replies.info(session.now);
    var gone := session.replies.gone(session.now);
    ghost var at := session.now;
    session.now := session.now + 1;
    if gone {
      return None;
    }
    if after.None? {
      return Some((None, Some(ReReadFailed)));
    }
    if after.value.known.cycle != Some(cycle) {
      return Some((None, Some(DispensedDuring(after.value.known.cycle))));
    }
    StillNewest(w, session.replies, header, first, last, at, cycle);
    result := Some((Some(header), None));
  }

  function WhyNoHeader(r: Replies, t: nat, cycle: nat, header: DispenseHeader): HeaderProblem {
    if header.info.cycle.None? then NotRead(header.problems)
    else if header.info.cycle.value != cycle then DescribesOnly(header.info.cycle.value)
    else if r.info(t).None? then ReReadFailed
    else DispensedDuring(r.info(t).value.known.cycle)
  }

  /** DISPENSE_INFO, asked again, is about this cycle. */
  predicate StillAbout(r: Replies, t: nat, cycle: nat) {
    r.info(t).Some? && r.info(t).value.known.cycle == Some(cycle)
  }

  lemma StillNewest(w: World, r: Replies, h: DispenseHeader, first: nat, last: nat, at: nat, cycle: nat)
    requires NeverBack(w) && TrueReplies(w, r) && ReadBetween(w, h, first, last) && last <= at
    requires h.info.cycle == Some(cycle) && StillAbout(r, at, cycle)
    ensures HeaderTrue(w, h, cycle) && forall t :: first <= t <= at ==> w.newest(t) == cycle
  {
    hide InfoAgrees, HeaderTrue;
    assert TrueAt(w, r, at);
    SandwichedHeader(w, h, first, last, at);
    NothingDispensed(w, first, at);
  }

  function DataOf(pull: TracePull): TraceData
    reads pull, pull.chunks
  {
    TraceData(pull.trace, pull.expectedWords, pull.data, pull.Logs())
  }

  /** The pulls as values, once nothing more happens to them. */
  method DataOfAll(pulls: seq<TracePull>) returns (traces: seq<TraceData>)
    ensures |traces| == |pulls| && forall i :: 0 <= i < |pulls| ==> traces[i] == DataOf(pulls[i])
  {
    traces := [];
    for i := 0 to |pulls|
      invariant |traces| == i && forall j :: 0 <= j < i ==> traces[j] == DataOf(pulls[j])
    {
      traces := traces + [DataOf(pulls[i])];
    }
  }

  /** A capture whose info came in reply to a request at instant t, and its traces from the n-th trace request on. */
  ghost predicate CapturedAt(c: Capture, r: Replies, parse: Bytes -> Option<ProfileInfo>, wire: Wire, addr: address,
                             t: nat, n: nat)
  {
    && c.cycle < 0x1_0000_0000 && c.info.cycle == c.cycle && |c.info.encodedSize| == TRACE_COUNT
    && SaysProfile(r.profileInfo(t, c.cycle), addr, parse, c.info, c.infoRaw)
    && PulledTraces(c.traces, wire, addr, c.cycle, c.info.encodedSize, n)
  }

  /**
   The capture of one cycle. A header read earlier is attached only if DISPENSE_INFO, asked again after the pull, is
   still about this cycle. Then this cycle was the newest at every instant from the header's first read on, so all of
   the header is about it, the recipe title too, which nothing ties to a dispense.
   */
  method CollectCycle(session: Session, pump: PumpClient, parse: Bytes -> Option<ProfileInfo>, identity: PumpIdentity,
                      address: string, cycle: long, newest: nat, collectedAt: real, header: DispenseHeader,
                      ghost w: World, ghost first: nat, ghost last: nat)
    returns (result: Collection)
    requires NeverBack(w) && TrueReplies(w, session.replies) && ReadBetween(w, header, first, last)
    requires last <= session.now
    modifies session, pump
    ensures session.now >= old(session.now) && session.asked == old(session.asked) + [cycle]
    ensures pump.requests >= old(pump.requests)
    ensures var x := session.replies.profileInfo(old(session.now), cycle);
      && (result.CollectNothing? <==> SaysNotHeld(x, pump.addr))
      && (result.Collect? <==>
            CanCollect(session.replies, parse, pump.wire, pump.addr, cycle, header, old(session.now),
                       old(pump.requests), pump.requests))
    ensures result.Collect? ==>
      var c := result.capture;
      && c.cycle == cycle && c.newestCycle == newest && c.pump == identity && c.address == address
      && c.collectedAt == collectedAt && (c.header.None? <==> c.headerProblem.Some?)
      && CapturedAt(c, session.replies, parse, pump.wire, pump.addr, old(session.now), old(pump.requests))
    ensures result.Collect? ==>
      (result.capture.header.Some? <==>
        header.info.cycle == Some(cycle)
        && StillAbout(session.replies, old(session.now) + 1 + (pump.requests - old(pump.requests)), cycle))
    ensures result.Collect? && result.capture.header.Some? ==>
      && result.capture.header.value == header && HeaderTrue(w, header, cycle)
      && forall t :: first <= t < session.now ==> w.newest(t) == cycle
  {
    hide HeaderTrue, ReadBetween, ReadProfileInfo, OrderedPulls, StillAbout, SaysNotHeld, SaysProfile, Abandoned;
    hide NeverBack, TrueReplies, CanCollect, CapturedAt, PulledTraces;
    ghost var t, n := session.now, pump.requests;
    session.asked := session.asked + [cycle];
    var reply := ReadProfileInfo(session.replies.profileInfo(session.now, cycle), pump.addr, parse);
    session.now := session.now + 1;
    ReadProfileInfoExactly(session.replies.profileInfo(t, cycle), pump.addr, parse);
    CollectableExactly(session.replies, parse, pump.wire, pump.addr, cycle, header, t, n);
    if reply.NotHeld? {
      return CollectNothing;
    }
    if reply.Failed? || reply.info.cycle != cycle {
      return CollectRaised;
    }
    EnoughSizes(session.replies.profileInfo(t, cycle), pump.addr, parse, reply.info, reply.raw);
    var traces := PullTraces(session, pump, cycle, reply.info.encodedSize);
    if traces.None? {
      return CollectRaised;
    }
    var attached := AttachHeader(session, cycle, header, w, first, last);
    if attached.None? {
      return CollectRaised;
    }
    var capture := Capture(address, cycle, newest, collectedAt, identity, reply.info, reply.raw, traces.value,
                           attached.value.0, attached.value.1);
    ItIsCaptured(capture, session.replies, parse, pump.wire, pump.addr, t, n);
    return Collect(capture);
  }

  /** The ten traces, and the time it takes to pull them; None when the gateway fails. */
  method PullTraces(session: Session, pump: PumpClient, cycle: long, sizes: seq<long>)
    returns (traces: Option<seq<TraceData>>)
    requires |sizes| == TRACE_COUNT
    modifies session`now, pump
    ensures pump.requests >= old(pump.requests)
    ensures session.now == old(session.now) + (pump.requests - old(pump.requests))
    ensures traces.None? <==> Abandoned(pump.wire, pump.addr, cycle, sizes, old(pump.requests))
    ensures traces.Some? ==> PulledTraces(traces.value, pump.wire, pump.addr, cycle, sizes, old(pump.requests))
  {
    hide OrderedPulls, Abandoned;
    var before := pump.requests;
    var pulls := PullProfile(pump, cycle, sizes);
    session.Wait(pump.requests - before);
    if pulls.None? {
      return None;
    }
    var data := DataOfAll(pulls.value);
    traces := Some(data);
  }

  lemma ItIsCaptured(c: Capture, r: Replies, parse: Bytes -> Option<ProfileInfo>, wire: Wire, addr: address, t: nat,
                     n: nat)
    requires c.cycle < 0x1_0000_0000 && c.info.cycle == c.cycle && |c.info.encodedSize| == TRACE_COUNT
    requires SaysProfile(r.profileInfo(t, c.cycle), addr, parse, c.info, c.infoRaw)
    requires PulledTraces(c.traces, wire, addr, c.cycle, c.info.encodedSize, n)
    ensures CapturedAt(c, r, parse, wire, addr, t, n)
  {
    hide SaysProfile, PulledTraces;
  }

  /** There is only one profile info that a reply can say. */
  lemma CollectableExactly(r: Replies, parse: Bytes -> Option<ProfileInfo>, wire: Wire, addr: address, cycle: long,
                           header: DispenseHeader, t: nat, n: nat)
    ensures var reply := ReadProfileInfo(r.profileInfo(t, cycle), addr, parse);
      forall end: nat ::
        CanCollect(r, parse, wire, addr, cycle, header, t, n, end) <==>
        && reply.Profiled? && |reply.info.encodedSize| == TRACE_COUNT && reply.info.cycle == cycle
        && !Abandoned(wire, addr, cycle, reply.info.encodedSize, n)
        && n <= end && !(header.info.cycle == Some(cycle) && r.gone(t + 1 + (end - n)))
  {
    hide ReadProfileInfo, SaysProfile, SaysNotHeld, Abandoned;
    ReadProfileInfoExactly(r.profileInfo(t, cycle), addr, parse);
    var reply := ReadProfileInfo(r.profileInfo(t, cycle), addr, parse);
    forall end: nat, info, raw
      ensures Collectable(r, parse, wire, addr, cycle, header, t, n, end, info, raw) ==> reply == Profiled(info, raw)
    {
    }
    if reply.Profiled? {
      forall end: nat
        ensures Collectable(r, parse, wire, addr, cycle, header, t, n, end, reply.info, reply.raw) ==>
                  CanCollect(r, parse, wire, addr, cycle, header, t, n, end)
      {
      }
    }
  }

  lemma EnoughSizes(x: Exchange, addr: address, parse: Bytes -> Option<ProfileInfo>, info: ProfileInfo, raw: Bytes)
    requires SaysProfile(x, addr, parse, info, raw)
    ensures |info.encodedSize| == TRACE_COUNT
  {}

  /**
   What it takes for a cycle to be collected: its own profile info at instant t, a pull the gateway survives, from the
   n-th trace request on to the end-th, and the gateway there when a header for it is checked afterwards.
   */
  ghost predicate Collectable(r: Replies, parse: Bytes -> Option<ProfileInfo>, wire: Wire, addr: address, cycle: long,
                              header: DispenseHeader, t: nat, n: nat, end: nat, info: ProfileInfo, raw: Bytes)
  {
    && SaysProfile(r.profileInfo(t, cycle), addr, parse, info, raw) && |info.encodedSize| == TRACE_COUNT
    && info.cycle == cycle
    && !Abandoned(wire, addr, cycle, info.encodedSize, n)
    && n <= end && !(header.info.cycle == Some(cycle) && r.gone(t + 1 + (end - n)))
  }

  ghost predicate CanCollect(r: Replies, parse: Bytes -> Option<ProfileInfo>, wire: Wire, addr: address, cycle: long,
                             header: DispenseHeader, t: nat, n: nat, end: nat)
  {
    exists info, raw :: Collectable(r, parse, wire, addr, cycle, header, t, n, end, info, raw)
  }

  // ----- every cycle the pump may hold

  datatype CycleResult = AlreadyCollected(cycle: nat) | NoLongerHeld(cycle: nat)
                       | Collected(cycle: nat, ending: Ending, row: DispenseRow)

  /** The cycles a run looks at: the newest and the ones before it that the pump keeps. */
  function HeldFrom(newest: long): (cycles: seq<long>)
    ensures forall i :: 0 <= i < |cycles| ==> cycles[i] == newest - i
    ensures forall c: nat :: c in cycles <==> newest - 3 < c <= newest
  {
    var n := if newest + 1 < HELD_CYCLES then newest + 1 else HELD_CYCLES;
    var cycles: seq<long> := seq(n, i requires 0 <= i < n => newest - i);
    assert forall c: nat :: c in cycles <==> newest - HELD_CYCLES < c <= newest by {
      forall c: nat
        ensures c in cycles <==> newest - HELD_CYCLES < c <= newest
      {
        if newest - HELD_CYCLES < c <= newest {
          assert cycles[newest - c] == c;
        }
      }
    }
    cycles
  }

  function CurrentStore(writers: seq<Writer>, collected: CollectedCycles): Store
    reads writers, collected
  {
    Store(Shelves(writers), collected.file)
  }

  /** The result says what the visit was. */
  ghost predicate Reports(result: CycleResult, v: Visit) {
    && result.cycle == v.cycle
    && (result.AlreadyCollected? <==> !v.asked)
    && (result.Collected? <==> v.rendered.Some?)
    && (result.Collected? ==>
          var r := v.rendered.value;
          result.ending == r.ending && result.row.(objectUri := None) == r.row && !r.ending.Raised?)
  }

  /** The visit fails the run: the cycle is not said to be gone, and it is not collected or its render raised. */
  ghost predicate FailsAt(v: Visit, r: Replies, addr: address, t: nat) {
    && v.asked && v.cycle < 0x1_0000_0000 && !SaysNotHeld(r.profileInfo(t, v.cycle), addr)
    && (v.rendered.Some? ==> v.rendered.value.ending.Raised?)
  }

  ghost predicate FailsSomeTime(v: Visit, r: Replies, addr: address) {
    exists t: nat :: FailsAt(v, r, addr, t)
  }

  ghost predicate LastFails(visits: seq<Visit>, r: Replies, addr: address) {
    visits != [] && FailsSomeTime(visits[|visits| - 1], r, addr)
  }

  /** What was rendered, if anything, came from this pump. */
  ghost predicate CameFrom(v: Visit, r: Replies, parse: Bytes -> Option<ProfileInfo>, wire: Wire, addr: address) {
    v.rendered.Some? ==> exists t, n :: CapturedAt(v.rendered.value.capture, r, parse, wire, addr, t, n)
  }

  ghost predicate AllCameFrom(visits: seq<Visit>, r: Replies, parse: Bytes -> Option<ProfileInfo>, wire: Wire,
                              addr: address)
  {
    forall i :: 0 <= i < |visits| ==> CameFrom(visits[i], r, parse, wire, addr)
  }

  /** What was asked of the pump in some visits. */
  function AskedIn(visits: seq<Visit>): seq<nat> {
    if visits == [] then []
    else
      var last := visits[|visits| - 1];
      AskedIn(visits[..|visits| - 1]) + if last.asked then [last.cycle] else []
  }

  /** One cycle of a run; None when something failed and ended it. A cycle remembered clean costs no request at all. */
  method ExtractCycle(session: Session, pump: PumpClient, parse: Bytes -> Option<ProfileInfo>, identity: PumpIdentity,
                      address: string, cycle: long, newest: nat, collectedAt: real, header: DispenseHeader,
                      writers: seq<Writer>, collected: CollectedCycles,
                      ghost w: World, ghost first: nat, ghost last: nat)
    returns (result: Option<CycleResult>, ghost visit: Visit)
    requires NeverBack(w) && TrueReplies(w, session.replies) && ReadBetween(w, header, first, last)
    requires last <= session.now && Distinct(writers) && collected.cycles == collected.file
    requires newest - HELD_CYCLES < cycle <= newest
    modifies session, pump, writers, collected
    ensures session.now >= old(session.now) && pump.requests >= old(pump.requests)
    ensures visit.cycle == cycle && visit.newest == newest
    ensures VisitStep(old(CurrentStore(writers, collected)), CurrentStore(writers, collected), visit)
    ensures session.asked == old(session.asked) + (if visit.asked then [cycle] else [])
    ensures var known := old(collected.cycles);
      cycle in known && known[cycle].blankTraces == [] && !known[cycle].reconstructed ==>
      && result == Some(AlreadyCollected(cycle)) && !visit.asked
      && session.now == old(session.now) && pump.requests == old(pump.requests)
    ensures result.Some? ==> Reports(result.value, visit) && collected.cycles == collected.file
    ensures CameFrom(visit, session.replies, parse, pump.wire, pump.addr)
    ensures visit.rendered.Some? <==>
      visit.asked && CanCollect(session.replies, parse, pump.wire, pump.addr, cycle, header, old(session.now),
                                old(pump.requests), pump.requests)
    ensures result.None? <==> FailsAt(visit, session.replies, pump.addr, old(session.now))
  {
    hide AlreadyClean, HeaderTrue, ReadBetween, TrueReplies, NeverBack, RenderStep, SaysProfile, SaysNotHeld;
    hide StillAbout, PulledTraces, Shelves, Reports, CanCollect, VisitStep, CapturedAt;
    CleanMeans(collected.Get(cycle));
    UnrenderedVisit(CurrentStore(writers, collected), cycle, newest);
    if AlreadyClean(collected.Get(cycle)) {
      return Some(AlreadyCollected(cycle)), Visit(cycle, newest, false, None);
    }
    ghost var t, n := session.now, pump.requests;
    visit := Visit(cycle, newest, true, None);
    var collection := CollectCycle(session, pump, parse, identity, address, cycle, newest, collectedAt, header,
                                   w, first, last);
    if collection.CollectRaised? {
      return None, visit;
    }
    if collection.CollectNothing? {
      return Some(NoLongerHeld(cycle)), visit;
    }
    CapturedWhole(collection.capture, session.replies, parse, pump.wire, pump.addr, t, n);
    result, visit := RenderCycle(collection.capture, newest, writers, collected);
    assert CapturedAt(visit.rendered.value.capture, session.replies, parse, pump.wire, pump.addr, t, n);
  }

  lemma CleanMeans(known: Option<Saved>)
    ensures AlreadyClean(known) <==> known.Some? && known.value.blankTraces == [] && !known.value.reconstructed
  {}

  lemma UnrenderedVisit(s: Store, cycle: nat, newest: nat)
    requires newest - HELD_CYCLES < cycle <= newest
    ensures var clean := AlreadyClean(Lookup(s.memory, cycle));
      && (clean ==> VisitStep(s, s, Visit(cycle, newest, false, None)))
      && (!clean ==> VisitStep(s, s, Visit(cycle, newest, true, None)))
    ensures Reports(AlreadyCollected(cycle), Visit(cycle, newest, false, None))
    ensures Reports(NoLongerHeld(cycle), Visit(cycle, newest, true, None))
  {
    hide AlreadyClean;
  }

  lemma CapturedWhole(c: Capture, r: Replies, parse: Bytes -> Option<ProfileInfo>, wire: Wire, addr: address, t: nat,
                      n: nat)
    requires CapturedAt(c, r, parse, wire, addr, t, n)
    ensures |c.traces| == |TRACE_COLUMNS|
  {
    hide SaysProfile, OrderedPulls;
  }

  /** The rendering part of it. */
  method RenderCycle(capture: Capture, newest: nat, writers: seq<Writer>, collected: CollectedCycles)
    returns (result: Option<CycleResult>, ghost visit: Visit)
    requires |capture.traces| == |TRACE_COLUMNS| && newest - HELD_CYCLES < capture.cycle <= newest
    requires Distinct(writers) && collected.cycles == collected.file && !AlreadyClean(collected.Get(capture.cycle))
    modifies writers, collected
    ensures visit.cycle == capture.cycle && visit.newest == newest && visit.asked
    ensures visit.rendered.Some? && visit.rendered.value.capture == capture
    ensures VisitStep(old(CurrentStore(writers, collected)), CurrentStore(writers, collected), visit)
    ensures result.Some? ==> Reports(result.value, visit) && collected.cycles == collected.file
    ensures result.None? <==> visit.rendered.value.ending.Raised?
  {
    hide AlreadyClean, RenderStep, Shelves;
    var record, ending;
    ghost var r;
    record, ending, r := Render(capture, writers, collected);
    visit := Visit(capture.cycle, newest, true, Some(r));
    RenderedCycle(r, old(CurrentStore(writers, collected)), CurrentStore(writers, collected));
    result := if ending.Raised? then None else Some(Collected(capture.cycle, ending, record));
  }

  lemma RenderedCycle(r: Rendered, s: Store, t: Store)
    requires RenderStep(s, t, r)
    ensures r.row.cycle == r.capture.cycle && Linking(r.row).(objectUri := None) == r.row == r.row.(objectUri := None)
  {}

  /**
   One run over the cycles a pump may hold, newest first. Whatever fails, what happened is a history of visits to those
   cycles in order; a failure ends the run, and without one every cycle is dealt with. The pump is asked for exactly
   the cycles not remembered clean.
   */
  method ExtractCycles(session: Session, pump: PumpClient, parse: Bytes -> Option<ProfileInfo>, identity: PumpIdentity,
                       address: string, newest: long, clock: nat -> real, header: DispenseHeader,
                       writers: seq<Writer>, collected: CollectedCycles,
                       ghost w: World, ghost first: nat, ghost last: nat)
    returns (results: seq<CycleResult>, failed: bool, ghost states: seq<Store>, ghost visits: seq<Visit>)
    requires NeverBack(w) && TrueReplies(w, session.replies) && ReadBetween(w, header, first, last)
    requires last <= session.now && Distinct(writers) && collected.cycles == collected.file
    modifies session, pump, writers, collected
    ensures session.now >= old(session.now)
    ensures IsHistory(states, visits)
    ensures states[0] == old(CurrentStore(writers, collected)) && states[|visits|] == CurrentStore(writers, collected)
    ensures 0 < |visits| <= |HeldFrom(newest)| && InOrderOf(visits, newest)
    ensures |visits| == |results| + if failed then 1 else 0
    ensures failed ==> LastFails(visits, session.replies, pump.addr)
    ensures forall i :: 0 <= i < |results| ==> Reports(results[i], visits[i])
    ensures !failed ==> |results| == |HeldFrom(newest)|
    ensures session.asked == old(session.asked) + AskedIn(visits)
    ensures AllCameFrom(visits, session.replies, parse, pump.wire, pump.addr)
  {
    hide VisitStep, Reports, ReadBetween, TrueReplies, NeverBack, CapturedAt, AlreadyClean, Shelves, AskedIn, FailsAt;
    hide CanCollect;
    results, failed := [], false;
    assert AskedIn([]) == [] by {
      NothingAsked();
    }
    states, visits := [CurrentStore(writers, collected)], [];
    var cycles := HeldFrom(newest);
    assert newest in cycles;
    for i := 0 to |cycles|
      invariant session.now >= old(session.now) && collected.cycles == collected.file
      invariant IsHistory(states, visits) && states[0] == old(CurrentStore(writers, collected))
      invariant states[|visits|] == CurrentStore(writers, collected)
      invariant |visits| == |results| == i && InOrderOf(visits, newest)
      invariant forall k :: 0 <= k < i ==> Reports(results[k], visits[k])
      invariant session.asked == old(session.asked) + AskedIn(visits)
      invariant AllCameFrom(visits, session.replies, parse, pump.wire, pump.addr)
    {
      assert cycles[i] in cycles;
      var result;
      ghost var visit;
      result, visit := ExtractCycle(session, pump, parse, identity, address, cycles[i], newest, clock(i), header,
                                    writers, collected, w, first, last);
      OneMoreVisit(states, visits, CurrentStore(writers, collected), visit);
      states, visits := states + [CurrentStore(writers, collected)], visits + [visit];
      if result.None? {
        failed := true;
        return;
      }
      results := results + [result.value];
    }
  }

  lemma NothingAsked()
    ensures AskedIn([]) == []
  {}

  ghost predicate InOrderOf(visits: seq<Visit>, newest: nat) {
    forall i :: 0 <= i < |visits| ==> visits[i].newest == newest && visits[i].cycle == newest - i
  }

  lemma OneMoreVisit(states: seq<Store>, visits: seq<Visit>, after: Store, visit: Visit)
    requires IsHistory(states, visits) && VisitStep(states[|visits|], after, visit)
    ensures IsHistory(states + [after], visits + [visit])
    ensures AskedIn(visits + [visit]) == AskedIn(visits) + if visit.asked then [visit.cycle] else []
  {
    hide VisitStep;
    assert (visits + [visit])[..|visits|] == visits;
    var s, v := states + [after], visits + [visit];
    forall k | 0 <= k < |v|
      ensures VisitStep(s[k], s[k + 1], v[k])
    {
      if k < |visits| {
        assert VisitStep(states[k], states[k + 1], visits[k]) && s[k] == states[k] && s[k + 1] == states[k + 1];
      }
    }
  }

  // ----- run after run

  /** One run for one pump: its newest cycle, the header of its newest dispense, and then the cycles it may hold. */
  method ExtractPump(session: Session, pump: PumpClient, parse: Bytes -> Option<ProfileInfo>, identity: PumpIdentity,
                     address: string, clock: nat -> real, writers: seq<Writer>, file: Memory, saveWorks: nat -> bool,
                     ghost w: World)
    returns (results: seq<CycleResult>, failed: bool, after: Memory, ghost states: seq<Store>, ghost visits: seq<Visit>)
    requires NeverBack(w) && TrueReplies(w, session.replies) && Distinct(writers)
    modifies session, pump, writers
    ensures session.now >= old(session.now)
    ensures IsHistory(states, visits)
    ensures states[0] == Store(old(Shelves(writers)), file) && states[|visits|] == Store(Shelves(writers), after)
    ensures visits == [] <==> FailsEarly(session.replies, old(session.now))
    ensures visits == [] ==> failed
    ensures failed && visits != [] ==> LastFails(visits, session.replies, pump.addr)
    ensures |visits| == 0 || exists t :: old(session.now) <= t <= session.now && ReadAt(visits, w.profiled(t))
    ensures forall i :: 0 <= i < |results| ==> i < |visits| && Reports(results[i], visits[i])
    ensures !failed ==> visits != [] && |results| == |HeldFrom(visits[0].newest)|
    ensures session.asked == old(session.asked) + AskedIn(visits)
    ensures AllCameFrom(visits, session.replies, parse, pump.wire, pump.addr)
  {
    hide VisitStep, TrueReplies, NeverBack, HeaderLost, HeaderRead, Reports, CapturedAt, FailsAt, NamesCycle;
    hide Shelves, LastFails, AskedIn, ReadBetween, AllCameFrom;
    NothingAsked();
    NoneCame(session.replies, parse, pump.wire, pump.addr);
    results, after := [], file;
    states, visits := [Store(Shelves(writers), file)], [];
    ghost var start := session.now;
    var newest := ReadNewestCycle(session);
    if newest.None? || newest.value.None? {
      return [], true, file, states, visits;
    }
    NewestIsTrue(w, session.replies, start, session.now, newest.value.value);
    ghost var first := session.now;
    var header := ReadDispenseHeader(session);
    if header.None? {
      return [], true, file, states, visits;
    }
    HeaderIsReadBetween(w, session.replies, first);
    var collected := new CollectedCycles(file, saveWorks);
    assert CurrentStore(writers, collected) == Store(old(Shelves(writers)), file);
    results, failed, states, visits :=
      ExtractCycles(session, pump, parse, identity, address, newest.value.value, clock, header.value, writers,
                    collected, w, first, session.now - 1);
    after := collected.file;
    ghost var t :| start <= t < first && w.profiled(t) == newest.value.value;
    assert ReadAt(visits, w.profiled(t));
  }

  lemma NoneCame(r: Replies, parse: Bytes -> Option<ProfileInfo>, wire: Wire, addr: address)
    ensures AllCameFrom([], r, parse, wire, addr)
  {}

  /** A run that gets no further than the newest cycle and the header. */
  predicate FailsEarly(r: Replies, t: nat) {
    || r.gone(t)
    || (!NamesCycle(r, t) && (r.gone(t + 1) || !NamesCycle(r, t + 1)))
    || HeaderLost(r, t + if NamesCycle(r, t) then 1 else 2)
  }

  ghost predicate ReadAt(visits: seq<Visit>, newest: nat) {
    forall i :: 0 <= i < |visits| ==> visits[i].newest == newest
  }

  lemma NewestIsTrue(w: World, r: Replies, from: nat, to: nat, newest: long)
    requires TrueReplies(w, r)
    requires exists t :: from <= t < to && r.profileCycle(t) == Some(Some(newest))
    ensures exists t :: from <= t < to && w.profiled(t) == newest
  {
    var t :| from <= t < to && r.profileCycle(t) == Some(Some(newest));
    assert TrueAt(w, r, t);
  }

  /** Every visit's newest cycle is the pump's own of some instant in between, and they are in order. */
  ghost predicate NewestInOrder(visits: seq<Visit>, w: World, from: nat, to: nat) {
    && (forall i, j :: 0 <= i <= j < |visits| ==> visits[i].newest <= visits[j].newest)
    && (forall i :: 0 <= i < |visits| ==> w.profiled(from) <= visits[i].newest <= w.profiled(to))
  }

  /**
   Run after run for one pump, each beginning with what the last one left on disk. Whatever fails in any of them, all
   of it is one history, and the newest cycle never goes back in it because the pump's own never does.
   */
  method KeepCollecting(session: Session, pump: PumpClient, parse: Bytes -> Option<ProfileInfo>,
                        identity: PumpIdentity, address: string, clock: (nat, nat) -> real, writers: seq<Writer>,
                        file: Memory, saveWorks: (nat, nat) -> bool, runs: nat, ghost w: World)
    returns (after: Memory, ghost states: seq<Store>, ghost visits: seq<Visit>)
    requires NeverBack(w) && TrueReplies(w, session.replies) && Distinct(writers)
    requires UpTo(file, w.profiled(session.now))
    modifies session, pump, writers
    ensures IsHistory(states, visits) && Forward(states[0].memory, visits)
    ensures states[0] == Store(old(Shelves(writers)), file) && states[|visits|] == Store(Shelves(writers), after)
    ensures session.asked == old(session.asked) + AskedIn(visits)
    ensures AllCameFrom(visits, session.replies, parse, pump.wire, pump.addr)
  {
    hide VisitStep, TrueReplies, CapturedAt, AskedIn, Reports, Shelves;
    NothingAsked();
    after := file;
    states, visits := [Store(Shelves(writers), file)], [];
    ghost var start := session.now;
    for k := 0 to runs
      invariant session.now >= start && NewestInOrder(visits, w, start, session.now)
      invariant IsHistory(states, visits) && states[0] == Store(old(Shelves(writers)), file)
      invariant states[|visits|] == Store(Shelves(writers), after)
      invariant session.asked == old(session.asked) + AskedIn(visits)
      invariant AllCameFrom(visits, session.replies, parse, pump.wire, pump.addr)
    {
      ghost var earlier := session.now;
      var results, failed;
      ghost var s, v;
      results, failed, after, s, v :=
        ExtractPump(session, pump, parse, identity, address, (i: nat) => clock(k, i), writers, after,
                    (i: nat) => saveWorks(k, i), w);
      HistoriesJoin(states, visits, s, v);
      AskedJoined(visits, v);
      NewestStaysInOrder(visits, v, w, start, earlier, session.now);
      states, visits := states + s[1..], visits + v;
    }
  }

  lemma {:induction false} AskedJoined(a: seq<Visit>, b: seq<Visit>)
    ensures AskedIn(a + b) == AskedIn(a) + AskedIn(b)
  {
    if b == [] {
      assert a + b == a;
    } else {
      var n := |b| - 1;
      AskedJoined(a, b[..n]);
      assert (a + b)[..|a + b| - 1] == a + b[..n];
    }
  }

  lemma NewestStaysInOrder(a: seq<Visit>, b: seq<Visit>, w: World, from: nat, middle: nat, to: nat)
    requires NeverBack(w) && from <= middle <= to && NewestInOrder(a, w, from, middle)
    requires |b| == 0 || exists t :: middle <= t <= to && ReadAt(b, w.profiled(t))
    ensures NewestInOrder(a + b, w, from, to)
  {
    if b != [] {
      var t :| middle <= t <= to && ReadAt(b, w.profiled(t));
    }
  }
}
