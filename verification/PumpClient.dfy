/** One pump behind the gateway: every request comes back as data or as one of the failures the callers tell apart. */
module PumpClient {
  import opened Bytes
  import opened Results
  import NcsProtocol
  import PumpProtocol

  const MAX_TRACE_WORDS := 500
  const WORD_LEN := 2

  /** A request for `count` encoded words of one trace, from word `start` on. */
  datatype TraceRequest = TraceRequest(cycle: long, trace: word, start: long, count: word)

  type address = PumpProtocol.address

  const TRACE_REQUEST_LEN := 12

  /** The data of a GET_PROFILE_TRACE request. */
  function RequestData(q: TraceRequest): (data: Bytes)
    ensures |data| == TRACE_REQUEST_LEN
  {
    PackLong(q.cycle) + PackWord(q.trace) + PackWord(q.count) + PackLong(q.start)
  }

  /** The same, or None for a count that must not be sent. */
  function ProfileTraceRequest(q: TraceRequest): Option<Bytes> {
    if !(1 <= q.count <= MAX_TRACE_WORDS) then None else Some(RequestData(q))
  }

  /** What a pump makes of the data. */
  function ReadTraceRequest(data: Bytes): TraceRequest
    requires |data| == TRACE_REQUEST_LEN
  {
    TraceRequest(UnpackLong(data[..4]), UnpackWord(data[4], data[5]), UnpackLong(data[8..]),
                 UnpackWord(data[6], data[7]))
  }

  lemma RequestReadBack(q: TraceRequest)
    ensures ReadTraceRequest(RequestData(q)) == q
  {
    hide PackLong, UnpackLong, PackWord, UnpackWord;
    var data := RequestData(q);
    assert data[..4] == PackLong(q.cycle) && data[8..] == PackLong(q.start);
    LongRoundTrip(q.cycle);
    LongRoundTrip(q.start);
    assert data[4] == PackWord(q.trace)[0] && data[5] == PackWord(q.trace)[1];
    assert data[6] == PackWord(q.count)[0] && data[7] == PackWord(q.count)[1];
    UnpackPacked(q.trace);
    UnpackPacked(q.count);
  }

  /** The frame that asks this pump for it. */
  function RequestFrame(addr: address, q: TraceRequest): Bytes {
    PumpProtocol.Frame(addr, PumpProtocol.GET_PROFILE_TRACE, RequestData(q))
  }

  /** A request in range is always built, and the pump it is for reads in it exactly what was asked. */
  lemma AskedIsRead(addr: address, q: TraceRequest)
    ensures PumpProtocol.BuildFrame(addr, PumpProtocol.GET_PROFILE_TRACE, RequestData(q)) == Ok(RequestFrame(addr, q))
    ensures var read := PumpProtocol.ParseFrame(RequestFrame(addr, q), addr);
      && read.Ok? && read.value.rc == PumpProtocol.GET_PROFILE_TRACE
      && |read.value.data| == TRACE_REQUEST_LEN && ReadTraceRequest(read.value.data) == q
  {
    var data := RequestData(q);
    PumpProtocol.ParseFramed(addr, PumpProtocol.GET_PROFILE_TRACE, data);
    RequestReadBack(q);
    PumpProtocol.BuiltIsFramed(addr, PumpProtocol.GET_PROFILE_TRACE, data);
  }

  /** What one exchange with the gateway came to: nothing, or the bytes it sent. */
  datatype Exchange = Lost | Received(raw: Bytes)

  /**
   Why a read failed. `Unreachable` is the gateway layer's own error, which the pump layer does not catch; the others
   are the pump layer's. `body` is whatever came back, unchecked.
   */
  datatype Failure =
    | Unreachable
    | Transport(gatewayRc: nat, body: Bytes)
    | Protocol(body: Bytes)
    | Refused(rc: nat)

  /** The wire as an adversary: the n-th exchange of a session may depend on n and on the frame that was sent. */
  type Wire = (nat, Bytes) -> Exchange

  /** What asking for trace words as the n-th request comes to. */
  function Ask(wire: Wire, n: nat, q: TraceRequest, addr: address): Exchange {
    wire(n, RequestFrame(addr, q))
  }

  /** A nonzero gateway code can come with a complete pump reply, so only a body that does not parse is a failure. */
  function Command(x: Exchange, addr: nat): Result<PumpProtocol.Response, Failure> {
    match x
    case Lost => Err(Unreachable)
    case Received(raw) =>
      match NcsProtocol.ParseResponse(raw)
      case Err(_) => Err(Unreachable)
      case Ok(reply) =>
        match PumpProtocol.ParseFrame(reply.body, addr)
        case Ok(response) => Ok(response)
        case Err(_) => if reply.rc != NcsProtocol.NO_ERR then Err(Transport(reply.rc, reply.body))
                       else Err(Protocol(reply.body))
  }

  function ReadData(x: Exchange, addr: nat): Result<Bytes, Failure> {
    match Command(x, addr)
    case Err(f) => Err(f)
    case Ok(response) => if response.rc != PumpProtocol.GOOD then Err(Refused(response.rc)) else Ok(response.data)
  }

  /** Data comes only from a GOOD frame of this pump, and a damaged body is kept exactly as it came. */
  lemma ReadDataMeans(x: Exchange, addr: nat)
    ensures match ReadData(x, addr)
      case Ok(data) =>
        && x.Received? && NcsProtocol.ParseResponse(x.raw).Ok?
        && var body := NcsProtocol.ParseResponse(x.raw).value.body;
           PumpProtocol.ParseFrame(body, addr) == Ok(PumpProtocol.Response(body, addr, PumpProtocol.GOOD, data))
      case Err(Transport(rc, body)) =>
        && x.Received? && NcsProtocol.ParseResponse(x.raw) == Ok(NcsProtocol.Reply(rc, body))
        && rc != NcsProtocol.NO_ERR && PumpProtocol.ParseFrame(body, addr).Err?
      case Err(Protocol(body)) =>
        && x.Received? && NcsProtocol.ParseResponse(x.raw) == Ok(NcsProtocol.Reply(NcsProtocol.NO_ERR, body))
        && PumpProtocol.ParseFrame(body, addr).Err?
      case Err(Refused(rc)) =>
        && x.Received? && NcsProtocol.ParseResponse(x.raw).Ok? && rc != PumpProtocol.GOOD
        && var p := PumpProtocol.ParseFrame(NcsProtocol.ParseResponse(x.raw).value.body, addr);
           p.Ok? && p.value.rc == rc
      case Err(Unreachable) => x.Received? ==> NcsProtocol.ParseResponse(x.raw).Err?
  {}

  class PumpClient {
    const addr: address
    const wire: Wire
    var requests: nat

    constructor (addr: address, wire: Wire)
      ensures this.addr == addr && this.wire == wire && requests == 0
    {
      this.addr := addr;
      this.wire := wire;
      requests := 0;
    }

    /** One request; a count out of range raises before anything is sent. */
    method GetProfileTrace(q: TraceRequest) returns (r: Option<Result<Bytes, Failure>>)
      modifies this
      ensures r.None? <==> !(1 <= q.count <= MAX_TRACE_WORDS)
      ensures r.None? ==> requests == old(requests)
      ensures r.Some? ==> requests == old(requests) + 1
      ensures r.Some? ==> r.value == ReadData(Ask(wire, old(requests), q, addr), addr)
    {
      var data := ProfileTraceRequest(q);
      if data.None? {
        return None;
      }
      var frame := PumpProtocol.BuildFrame(addr, PumpProtocol.GET_PROFILE_TRACE, data.value);
      AskedIsRead(addr, q);
      r := Some(ReadData(wire(requests, frame.value), addr));
      requests := requests + 1;
    }
  }
}
