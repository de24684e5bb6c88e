/** Pump frames: address, command or response code, size of the whole frame, data, complemented CRC. */
module PumpProtocol {
  import opened Bytes
  import opened Results
  import opened Crc16

  const FRAME_HEADER_LEN := 4
  const MIN_FRAME_LEN := FRAME_HEADER_LEN + CRC_LEN
  const MAX_FRAME_SIZE := 0xFFFF
  const MIN_ADDR := 1
  const MAX_ADDR := 63
  const DATA_ALIGN := 2
  const GOOD := 0
  const PROFILE_NOT_HELD := 29
  const GET_PROFILE_TRACE := 32

  /** Where a pump sits on its bus. */
  type address = a: nat | MIN_ADDR <= a <= MAX_ADDR witness MIN_ADDR

  /** Every command the program may send. */
  const ALLOWED_COMMANDS: set<int> := {21, 24, 26, 30, 32, 33, 50, 52, 54, 60, 70, 74, 100, 104, 106, 110, 153, 155,
                                       158, 166, 167, 168, 169}

  datatype FrameError =
    | CommandNotAllowed
    | AddressOutOfRange
    | DataNotWholeWords
    | FrameTooLong
    | FrameTooShort
    | SizeMismatch
    | CrcFailed
    | WrongAddress

  datatype Response = Response(raw: Bytes, addr: nat, rc: nat, data: Bytes)

  function Header(addr: nat, code: nat, size: nat): (h: Bytes)
    requires addr < 256 && code < 256 && size <= MAX_FRAME_SIZE
    ensures |h| == FRAME_HEADER_LEN
  {
    [ToByte(addr), ToByte(code)] + PackWord(size)
  }

  predicate Framable(addr: nat, code: nat, data: Bytes) {
    addr < 256 && code < 256 && MIN_FRAME_LEN + |data| <= MAX_FRAME_SIZE
  }

  /** The frame that carries this data, as the emulated pump lays it out. */
  function Frame(addr: nat, code: nat, data: Bytes): (frame: Bytes)
    requires Framable(addr, code, data)
    ensures |frame| == MIN_FRAME_LEN + |data|
  {
    AppendCrc(Header(addr, code, MIN_FRAME_LEN + |data|) + data)
  }

  function BuildFrame(addr: int, cmd: int, data: Bytes): Result<Bytes, FrameError> {
    if cmd !in ALLOWED_COMMANDS then Err(CommandNotAllowed)
    else if !(MIN_ADDR <= addr <= MAX_ADDR) then Err(AddressOutOfRange)
    else if |data| % DATA_ALIGN != 0 then Err(DataNotWholeWords)
    else
      var size := FRAME_HEADER_LEN + |data| + CRC_LEN;
      if size > MAX_FRAME_SIZE then Err(FrameTooLong)
      else Ok(AppendCrc(Header(addr, cmd, size) + data))
  }

  function ParseFrame(raw: Bytes, expectAddr: nat): Result<Response, FrameError> {
    if |raw| < MIN_FRAME_LEN then Err(FrameTooShort)
    else
      var addr, rc, size := raw[0] as int, raw[1] as int, UnpackWord(raw[2], raw[3]);
      if size != |raw| then Err(SizeMismatch)
      else if !IsValid(raw) then Err(CrcFailed)
      else if addr != expectAddr then Err(WrongAddress)
      else Ok(Response(raw, addr, rc, raw[FRAME_HEADER_LEN..size - CRC_LEN]))
  }

  /** Parsing gives back what was framed. */
  lemma ParseFramed(addr: nat, code: nat, data: Bytes)
    requires Framable(addr, code, data)
    ensures ParseFrame(Frame(addr, code, data), addr) == Ok(Response(Frame(addr, code, data), addr, code, data))
  {
    hide IsValid, AppendCrc, LittleEndian, Check, PackWord, UnpackWord;
    var raw := Frame(addr, code, data);
    var size := MIN_FRAME_LEN + |data|;
    FramedBytes(addr, code, data);
    AppendedCrcIsValid(Header(addr, code, size) + data);
    ByteValue(addr);
    ByteValue(code);
    UnpackPacked(size);
  }

  lemma FramedBytes(addr: nat, code: nat, data: Bytes)
    requires Framable(addr, code, data)
    ensures var raw, size := Frame(addr, code, data), PackWord(MIN_FRAME_LEN + |data|);
      && raw[0] == ToByte(addr) && raw[1] == ToByte(code) && raw[2] == size[0] && raw[3] == size[1]
      && raw[FRAME_HEADER_LEN..|raw| - CRC_LEN] == data
  {}

  /** Only a frame from that address parses: the parser accepts exactly what framing produces. */
  lemma ParsedIsFramed(raw: Bytes, expectAddr: nat)
    requires ParseFrame(raw, expectAddr).Ok?
    ensures var r := ParseFrame(raw, expectAddr).value;
      && r.addr == expectAddr && Framable(r.addr, r.rc, r.data) && raw == Frame(r.addr, r.rc, r.data)
  {
    hide IsValid, LittleEndian, Check, PackWord, UnpackWord;
    var r := ParseFrame(raw, expectAddr).value;
    var n := |raw|;
    ByteOfValue(raw[0]);
    ByteOfValue(raw[1]);
    PackUnpacked(raw[2], raw[3]);
    ValidityChecksAgree(raw);
    assert n == UnpackWord(raw[2], raw[3]) == MIN_FRAME_LEN + |r.data|;
    var front := raw[..n - CRC_LEN];
    assert raw == front + raw[n - CRC_LEN..];
    assert front == Header(r.addr, r.rc, n) + r.data;
  }

  /** The emulated pump reads back exactly what a built request says. */
  lemma BuiltParses(addr: int, cmd: int, data: Bytes)
    ensures BuildFrame(addr, cmd, data).Ok? <==>
            && cmd in ALLOWED_COMMANDS && MIN_ADDR <= addr <= MAX_ADDR && |data| % DATA_ALIGN == 0
            && MIN_FRAME_LEN + |data| <= MAX_FRAME_SIZE
    ensures BuildFrame(addr, cmd, data).Ok? ==>
              var frame := BuildFrame(addr, cmd, data).value;
              ParseFrame(frame, addr) == Ok(Response(frame, addr, cmd, data))
  {
    hide IsValid, AppendCrc, ParseFrame, Header;
    if BuildFrame(addr, cmd, data).Ok? {
      ParseFramed(addr, cmd, data);
    }
  }

  lemma BuiltIsFramed(addr: address, cmd: nat, data: Bytes)
    requires cmd in ALLOWED_COMMANDS && cmd < 256 && |data| % DATA_ALIGN == 0
    requires MIN_FRAME_LEN + |data| <= MAX_FRAME_SIZE
    ensures BuildFrame(addr, cmd, data) == Ok(Frame(addr, cmd, data))
  {}
}
