/** The fixed responses of the packet engines: which one a request selects
    (src/packet/mod.rs:34-46 and 791-828), and the reply a segment draws. */
module Responses {
  import opened Bits
  import opened ByteText
  import opened Wire

  const RESPONSE_PLAINTEXT: ResponseId := 0
  const RESPONSE_HEALTH: ResponseId := 1
  const RESPONSE_BAD_REQUEST: ResponseId := 2
  const RESPONSE_NOT_FOUND: ResponseId := 3
  const RESPONSE_METHOD_NOT_ALLOWED: ResponseId := 4
  const RESPONSE_COUNT: nat := 5

  type ResponseId = id: nat | id < RESPONSE_COUNT

  const PLAINTEXT_PATH: seq<u8> := [47, 112, 108, 97, 105, 110, 116, 101, 120, 116]
  const HEALTH_PATH: seq<u8> := [47, 104, 101, 97, 108, 116, 104]

  /** The response texts.  The proofs need only their number and that each fits one packet. */
  type ResponseTable = t: seq<seq<u8>> |
      |t| == RESPONSE_COUNT && forall i :: 0 <= i < |t| ==> 1 <= |t[i]| <= MAX_RAW_PACKET_BYTES - 40
    witness [[0], [0], [0], [0], [0]]

  /** Two tables whose texts have equal lengths, like the CPU engine's renamed copies. */
  predicate SameLengths(a: ResponseTable, b: ResponseTable) {
    forall i :: 0 <= i < RESPONSE_COUNT ==> |a[i]| == |b[i]|
  }

  function ClassifyHttpRequest(payload: seq<u8>): ResponseId
  {
    match FirstMatch(payload, CRLF)
    case None => RESPONSE_BAD_REQUEST
    case Some(lineEnd) =>
      var parts := Split(payload[..lineEnd], SPACE);
      if |parts| != 3 || parts[1] == [] || (parts[2] != HTTP_1_1 && parts[2] != HTTP_1_0) then RESPONSE_BAD_REQUEST
      else if parts[0] != GET then RESPONSE_METHOD_NOT_ALLOWED
      else
        var path := Split(parts[1], QUESTION)[0];
        if path == PLAINTEXT_PATH then RESPONSE_PLAINTEXT
        else if path == HEALTH_PATH then RESPONSE_HEALTH
        else RESPONSE_NOT_FOUND
  }

  /** The fields of an emitted packet; no response id means an empty payload. */
  datatype Reply = Reply(seqno: u32, ack: u32, flags: u8, response: Option<ResponseId>)

  /** The packet sent back to the client of `key`. */
  function ReplyPacket(table: ResponseTable, key: FlowKey, r: Reply): (t: Tcp)
    ensures Fits(t)
  {
    Tcp(Reverse(key), r.seqno, r.ack, r.flags, if r.response.Some? then table[r.response.value] else [])
  }

  predicate BareSyn(flags: u8) {
    HasFlag(flags, TCP_SYN) && !HasFlag(flags, TCP_ACK)
  }
}
