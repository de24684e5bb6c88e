/** One dispense cycle as collected: profile info, every trace as pulled, and the dispense header if it is certain. */
module Captures {
  import opened Bytes
  import opened Results
  import opened PumpClient
  import opened ProfilePull

  const ENCODING_MASK := 0xFF
  const COMPRESSED_ENCODING := 1

  datatype ProfileInfo = ProfileInfo(
    cycle: long, typeEncoding: word, sampleInterval: word, time: long, startCycle: long, dispenseEnd: long,
    endFiltration: long, endCycle: long, fillEnd: long, unencodedSize: long, encodedSize: seq<long>)
  {
    /** The low byte of the type, which says how the traces are encoded. */
    function Encoding(): nat {
      typeEncoding % (ENCODING_MASK + 1)
    }

    function ProfileType(): nat {
      typeEncoding / (ENCODING_MASK + 1)
    }
  }

  /** One trace's pull, as a value. */
  datatype TraceData = TraceData(trace: nat, expectedWords: nat, data: Bytes, chunks: seq<ChunkLog>)
  {
    predicate Complete() {
      |data| == expectedWords * WORD_LEN
    }

    predicate Repaired() {
      exists i :: 0 <= i < |chunks| && chunks[i].repair.Some?
    }
  }

  function AsPulled(trace: nat, size: nat, log: PullLog): TraceData {
    TraceData(trace, size, log.data, log.chunks)
  }

  /** The ten traces of a profile as an ordered pull from request n on leaves them. */
  ghost predicate PulledTraces(traces: seq<TraceData>, wire: Wire, addr: address, cycle: long, sizes: seq<long>, n: nat)
    requires |sizes| == TRACE_COUNT
  {
    var logs := OrderedPulls(wire, addr, cycle, sizes, TRACE_COUNT, n).0;
    && |traces| == TRACE_COUNT
    && forall t: word :: t < TRACE_COUNT ==> t in logs && traces[t] == AsPulled(t, sizes[t], logs[t])
  }

  /** DISPENSE_INFO as read, where a reply that is too short leaves fields out. */
  datatype DispenseInfo = DispenseInfo(
    cycle: Option<nat>, recipeNumber: Option<nat>, referenceCycle: Option<nat>, time: Option<nat>,
    jobInfo: Option<string>, slotId: Option<nat>, readyPressure: Option<nat>, referenceReadyPressure: Option<nat>)

  /** One line of a header's problem list. */
  datatype HeaderLine =
    | InfoFailed
    | InfoLength(length: nat)
    | MeasuredFailed
    | MeasuredForOther(cycle: Option<nat>)
    | SetpointFailed
    | SetpointForOther(cycle: Option<nat>)
    | SvidsRefused
    | SvidFailed(number: nat)
    | SvidsFailed
    | ConfirmationForOther

  /** What DISPENSE_INFO and its neighbours said about one dispense; None for what was not read or not tied to it. */
  datatype DispenseHeader = DispenseHeader(
    info: DispenseInfo,
    recipeTitle: Option<string>,
    confirmationPct: Option<nat>,
    volumeSetpoint: Option<nat>,
    volumeMeasured: Option<nat>,
    problems: seq<HeaderLine>)

  datatype HeaderProblem =
    | NotRead(lines: seq<HeaderLine>)
    | DescribesOnly(cycle: nat)
    | ReReadFailed
    | DispensedDuring(after: Option<nat>)

  /** Who the pump is, as far as its rows say. */
  datatype PumpIdentity = PumpIdentity(serial: string, firmware: Option<string>)

  datatype Capture = Capture(
    address: string, cycle: nat, newestCycle: nat, collectedAt: real, pump: PumpIdentity, info: ProfileInfo,
    infoRaw: Bytes, traces: seq<TraceData>, header: Option<DispenseHeader>, headerProblem: Option<HeaderProblem>)
}
