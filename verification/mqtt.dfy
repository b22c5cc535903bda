/**
 * Vocabulary shared by the broker: bytes, connection handles, topics, the
 * packets the event handler emits, and the CONNECT frame check.
 */
module Mqtt {

  /** One octet of a frame. */
  type byte = b: int | 0 <= b < 256

  /** A 16-bit packet identifier. */
  type u16 = n: int | 0 <= n < 0x1_0000

  /** A client connection. The broker never looks inside one; it only stores
      handles and compares them, as the C code compares pointers. */
  type Conn(==, !new)

  /** A topic name or a subscription pattern. */
  type Topic = string

  /** Control packet types of MQTT 3.1.1 (section 2.2.1). */
  const CONNACK: byte := 2
  const SUBACK: byte := 9

  /** A CONNECT frame shorter than this is malformed. */
  const MIN_CONNECT_LEN: nat := 9
  /** Offset of the protocol level byte in a CONNECT frame. */
  const VERSION_OFFSET: nat := 8
  /** The only protocol level accepted (MQTT 3.1.1). */
  const PROTOCOL_LEVEL: byte := 4

  /** Why a CONNECT was refused. */
  datatype ConnectError = Malformed | UnsupportedVersion(version: byte)

  /** Outcome of checking a CONNECT frame. */
  datatype Verdict = Accepted | Rejected(error: ConnectError)

  /** One outbound call of the handler on a connection:
      a fixed header (mg_mqtt_send_header), raw bytes (mg_send),
      or a whole PUBLISH (mg_mqtt_pub). */
  datatype Packet =
    | Header(cmd: byte, flags: byte, remaining: nat)
    | Raw(bytes: seq<byte>)
    | Pub(topic: Topic, data: seq<byte>, qos: byte, retain: bool)

  /** What the handler does to a connection: send something on it, or
      report an error on it (mg_error, which also marks it for closing). */
  datatype Action =
    | Send(conn: Conn, packet: Packet)
    | Fail(conn: Conn, error: ConnectError)

  /** The decision taken on a CONNECT frame: length first, then version. */
  function CheckConnect(dgram: seq<byte>): (r: Verdict)
    ensures r == Rejected(Malformed) <==> |dgram| < MIN_CONNECT_LEN
    ensures r.Rejected? && r.error.UnsupportedVersion? <==>
              |dgram| >= MIN_CONNECT_LEN && dgram[VERSION_OFFSET] != PROTOCOL_LEVEL
    ensures r.Rejected? && r.error.UnsupportedVersion? ==>
              |dgram| > VERSION_OFFSET && r.error.version == dgram[VERSION_OFFSET]
    ensures r == Accepted <==> |dgram| >= MIN_CONNECT_LEN && dgram[VERSION_OFFSET] == PROTOCOL_LEVEL
  {
    if |dgram| < MIN_CONNECT_LEN then Rejected(Malformed)
    else if dgram[VERSION_OFFSET] != PROTOCOL_LEVEL then Rejected(UnsupportedVersion(dgram[VERSION_OFFSET]))
    else Accepted
  }

  /** What the handler emits on `c` for a CONNECT frame. */
  function ConnectReply(c: Conn, dgram: seq<byte>): (r: seq<Action>)
    ensures |dgram| < MIN_CONNECT_LEN ==> r == [Fail(c, Malformed)]
    ensures |dgram| >= MIN_CONNECT_LEN && dgram[VERSION_OFFSET] != PROTOCOL_LEVEL ==>
              r == [Fail(c, UnsupportedVersion(dgram[VERSION_OFFSET]))]
    ensures |dgram| >= MIN_CONNECT_LEN && dgram[VERSION_OFFSET] == PROTOCOL_LEVEL ==>
              r == [Send(c, Header(CONNACK, 0, 2)), Send(c, Raw([0, 0]))]
    ensures forall a :: a in r ==> a.conn == c
  {
    match CheckConnect(dgram)
    case Accepted => [Send(c, Header(CONNACK, 0, 2)), Send(c, Raw([0, 0]))]
    case Rejected(e) => [Fail(c, e)]
  }

  /** A packet identifier in network byte order (mg_htons, then two bytes). */
  function NetworkOrder(id: u16): (b: seq<byte>)
    ensures |b| == 2 && b[0] as int * 256 + b[1] as int == id
  {
    [id / 256, id % 256]
  }

  /** The three calls that make up a SUBACK on `c`: the fixed header, the
      echoed packet identifier, and the granted QoS values. */
  function SubAckReply(c: Conn, id: u16, granted: seq<byte>): (r: seq<Action>)
    ensures |r| == 3 && forall a :: a in r ==> a.Send? && a.conn == c
    ensures r[0].packet.Header? && r[0].packet.cmd == SUBACK
    ensures r[1].packet.Raw? && r[2].packet.Raw?
    // the remaining length announces exactly the bytes sent after the header
    ensures r[0].packet.remaining == |r[1].packet.bytes| + |r[2].packet.bytes| == |granted| + 2
    // the identifier reads back as the request's
    ensures |r[1].packet.bytes| == 2 && r[1].packet.bytes[0] as int * 256 + r[1].packet.bytes[1] as int == id
    ensures r[2].packet.bytes == granted
  {
    [Send(c, Header(SUBACK, 0, |granted| + 2)), Send(c, Raw(NetworkOrder(id))), Send(c, Raw(granted))]
  }
}
