/** The gateway's envelope: a fixed header with a return code and the size of the whole packet, then a body. */
module NcsProtocol {
  import opened Bytes
  import opened Results

  const HEADER_LEN := 18
  const MAX_PACKET_SIZE := 4096
  const NO_ERR := 0
  const SERIAL_READ_TIMEOUT := 1015
  const SERIAL_OUTPUT_INVALID_CRC := 1016

  datatype PacketError = ShorterThanHeader | OverMaximum | SizeMismatch

  datatype Reply = Reply(rc: nat, body: Bytes)

  function ParseResponse(raw: Bytes): (r: Result<Reply, PacketError>)
    ensures r.Ok? ==> |r.value.body| <= MAX_PACKET_SIZE - HEADER_LEN
  {
    if |raw| < HEADER_LEN then Err(ShorterThanHeader)
    else if |raw| > MAX_PACKET_SIZE then Err(OverMaximum)
    else if UnpackWord(raw[2], raw[3]) != |raw| then Err(SizeMismatch)
    else Ok(Reply(UnpackWord(raw[0], raw[1]), raw[HEADER_LEN..]))
  }

  /** A packet the gateway sends back, with the fields that mean nothing in a reply left zero. */
  function Packet(rc: word, body: Bytes): (raw: Bytes)
    requires HEADER_LEN + |body| <= MAX_PACKET_SIZE
  {
    PackWord(rc) + PackWord(HEADER_LEN + |body|) + seq(HEADER_LEN - 4, _ => 0) + body
  }

  lemma ParsePacket(rc: word, body: Bytes)
    requires HEADER_LEN + |body| <= MAX_PACKET_SIZE
    ensures ParseResponse(Packet(rc, body)) == Ok(Reply(rc, body))
  {
    hide PackWord, UnpackWord;
    var size := HEADER_LEN + |body|;
    UnpackPacked(rc);
    UnpackPacked(size);
    var raw := Packet(rc, body);
    assert raw[0] == PackWord(rc)[0] && raw[1] == PackWord(rc)[1];
    assert raw[2] == PackWord(size)[0] && raw[3] == PackWord(size)[1];
    assert raw[HEADER_LEN..] == body;
  }

  /** Exactly the packets are accepted: a code, the size of it all, fourteen bytes that are ignored, and a body. */
  lemma AcceptedExactly(raw: Bytes)
    ensures ParseResponse(raw).Ok? <==>
            exists rc: word, ignored: Bytes, body: Bytes :: IsPacket(raw, rc, ignored, body)
    ensures ParseResponse(raw).Ok? ==>
            exists ignored: Bytes ::
              IsPacket(raw, ParseResponse(raw).value.rc, ignored, ParseResponse(raw).value.body)
  {
    hide PackWord, UnpackWord;
    if ParseResponse(raw).Ok? {
      var rc, ignored, body := UnpackWord(raw[0], raw[1]), raw[4..HEADER_LEN], raw[HEADER_LEN..];
      PackUnpacked(raw[0], raw[1]);
      PackUnpacked(raw[2], raw[3]);
      assert raw == [raw[0], raw[1]] + [raw[2], raw[3]] + ignored + body;
      assert IsPacket(raw, rc, ignored, body);
    }
    if rc: word, ignored: Bytes, body: Bytes :| IsPacket(raw, rc, ignored, body) {
      UnpackPacked(|raw|);
      assert raw[2] == PackWord(|raw|)[0] && raw[3] == PackWord(|raw|)[1];
    }
  }

  ghost predicate IsPacket(raw: Bytes, rc: nat, ignored: Bytes, body: Bytes) {
    && rc < 0x1_0000 && |ignored| == HEADER_LEN - 4 && HEADER_LEN + |body| == |raw| <= MAX_PACKET_SIZE
    && raw == PackWord(rc) + PackWord(|raw|) + ignored + body
  }
}
