/**
 * Packet framing of the Server List Ping exchange: the length-prefixed
 * handshake and status-request packets the client sends, and the reading of
 * the framed response (three varints, then the payload accumulated from
 * successive receives).
 */
module Framing {
  import opened Wrappers
  import opened Varint
  import Seqs

  /** Port the handle queries when none is given. */
  const DefaultPort := 25565

  /** Size passed to each receive call of the payload loop. */
  const RecvSize := 1024

  /** Packet id of the handshake and of the status request. */
  const PacketIdZero: byte := 0

  /** Protocol version the client announces (any version answers a status ping). */
  const ProtocolVersion: byte := 0

  /** Next-state value selecting the status exchange. */
  const NextStateStatus: byte := 1

  /** A length-prefixed byte string: its varint length followed by the bytes. */
  function PackData(d: seq<byte>): (r: seq<byte>)
    ensures |r| > |d|
    ensures r[|r| - |d|..] == d
    ensures WellFormed(r[..|r| - |d|]) && Value(r[..|r| - |d|]) == |d|
  {
    var prefix := Pack(|d|);
    assert (prefix + d)[..|prefix|] == prefix;
    prefix + d
  }

  /** Reading the length prefix back yields the length, and the next bytes are the data. */
  lemma PackDataRoundTrip(d: seq<byte>, rest: seq<byte>)
    requires |d| < Pow128(MaxVarintBytes)
    ensures Unpack(PackData(d) + rest) == Some(Decoded(|d|, |PackData(d)| - |d|))
    ensures (PackData(d) + rest)[|PackData(d)| - |d|..|PackData(d)|] == d
  {
    assert PackData(d) + rest == Pack(|d|) + (d + rest);
    PackUnpack(|d|, d + rest);
  }

  /** The number two bytes denote, most significant first. */
  function BigEndian16(hi: byte, lo: byte): int
  {
    hi as int * 256 + lo as int
  }

  /** The big-endian unsigned 16-bit encoding of a port; `None` outside 0..65535. */
  function PackPort(p: int): (r: Option<seq<byte>>)
    ensures r.Some? <==> 0 <= p < 65536
    ensures r.Some? ==> |r.value| == 2 && BigEndian16(r.value[0], r.value[1]) == p
  {
    if 0 <= p < 65536 then Some([p / 256, p % 256]) else None
  }

  lemma PackDefaultPort()
    ensures PackPort(DefaultPort) == Some([0x63, 0xDD])
  {
  }

  /**
   * The handshake packet: id 0, protocol version 0, the length-prefixed host,
   * the port, next state 1, all prefixed with the payload length.
   */
  function Handshake(host: seq<byte>, port: int): (r: Option<seq<byte>>)
    ensures r.Some? <==> 0 <= port < 65536
  {
    match PackPort(port)
    case None => None
    case Some(portBytes) =>
      Some(PackData([PacketIdZero, ProtocolVersion] + PackData(host) + portBytes + [NextStateStatus]))
  }

  /** The fields a server recovers from a handshake. */
  datatype HandshakeFields = HandshakeFields(host: seq<byte>, port: int)

  /** The payload of a length-prefixed packet that occupies all of `bs`. */
  function Unframe(bs: seq<byte>): (r: Option<seq<byte>>)
    ensures r.Some? ==> |r.value| < |bs| && bs[|bs| - |r.value|..] == r.value
  {
    var len :- Unpack(bs);
    var payload := bs[len.consumed..];
    if |payload| == len.value then Some(payload) else None
  }

  /** Stripping the length prefix of a packet gives back its payload. */
  lemma UnframePackData(d: seq<byte>)
    requires |d| < Pow128(MaxVarintBytes)
    ensures Unframe(PackData(d)) == Some(d)
  {
    PackUnpack(|d|, d);
    Seqs.DropPrefix(Pack(|d|), d);
  }

  /**
   * The server side of the handshake payload: the two zero varints, then the
   * remaining fields.
   */
  function ParseHandshakePayload(payload: seq<byte>): (r: Option<HandshakeFields>)
    ensures r.Some? ==> 0 <= r.value.port < 65536
  {
    if |payload| < 2 || payload[0] != PacketIdZero || payload[1] != ProtocolVersion then None
    else ParseHandshakeFields(payload[2..])
  }

  /** The handshake fields after the ids: the length-prefixed host, two port bytes and the next state. */
  function ParseHandshakeFields(fields: seq<byte>): (r: Option<HandshakeFields>)
    ensures r.Some? ==> 0 <= r.value.port < 65536
  {
    match Unpack(fields)
    case None => None
    case Some(hostLen) =>
      var hostEnd := hostLen.consumed + hostLen.value;
      if |fields| != hostEnd + 3 || fields[hostEnd + 2] != NextStateStatus then None
      else Some(HandshakeFields(fields[hostLen.consumed..hostEnd], BigEndian16(fields[hostEnd], fields[hostEnd + 1])))
  }

  /** The server side of the handshake: unframe, then read the fields. */
  function ParseHandshake(bs: seq<byte>): (r: Option<HandshakeFields>)
    ensures r.Some? ==> 0 <= r.value.port < 65536
  {
    var payload :- Unframe(bs);
    ParseHandshakePayload(payload)
  }

  /** A server reading the handshake recovers exactly the host and port that were sent. */
  lemma HandshakeRoundTrip(host: seq<byte>, port: int)
    requires 0 <= port < 65536
    requires |host| + 10 < Pow128(MaxVarintBytes)
    ensures ParseHandshake(Handshake(host, port).value) == Some(HandshakeFields(host, port))
  {
    var portBytes := PackPort(port).value;
    var tail := portBytes + [NextStateStatus];
    var prefix := Pack(|host|);
    var hostData := PackData(host);
    assert hostData == prefix + host;
    var payload := [PacketIdZero, ProtocolVersion] + hostData + portBytes + [NextStateStatus];
    var afterIds := hostData + tail;
    assert payload == [PacketIdZero, ProtocolVersion] + afterIds by {
      Seqs.Associate([PacketIdZero, ProtocolVersion] + hostData, portBytes, [NextStateStatus]);
      Seqs.Associate([PacketIdZero, ProtocolVersion], hostData, tail);
    }
    PackLength(|host|, MaxVarintBytes);
    UnframePackData(payload);
    assert Handshake(host, port) == Some(PackData(payload));
    HandshakePayloadRoundTrip(host, portBytes, payload);
  }

  lemma HandshakePayloadRoundTrip(host: seq<byte>, portBytes: seq<byte>, payload: seq<byte>)
    requires |host| < Pow128(MaxVarintBytes)
    requires |portBytes| == 2
    requires payload == [PacketIdZero, ProtocolVersion] + (PackData(host) + (portBytes + [NextStateStatus]))
    ensures ParseHandshakePayload(payload)
         == Some(HandshakeFields(host, BigEndian16(portBytes[0], portBytes[1])))
  {
    Seqs.DropPrefix([PacketIdZero, ProtocolVersion], PackData(host) + (portBytes + [NextStateStatus]));
    HandshakeFieldsRoundTrip(host, portBytes);
  }

  /** The fields after the ids read back as the host and the big-endian port bytes. */
  lemma HandshakeFieldsRoundTrip(host: seq<byte>, portBytes: seq<byte>)
    requires |host| < Pow128(MaxVarintBytes)
    requires |portBytes| == 2
    ensures ParseHandshakeFields(PackData(host) + (portBytes + [NextStateStatus]))
         == Some(HandshakeFields(host, BigEndian16(portBytes[0], portBytes[1])))
  {
    var tail := portBytes + [NextStateStatus];
    var fields := PackData(host) + tail;
    HostField(host, tail, fields);
    var consumed := |Pack(|host|)|;
    var hostEnd := consumed + |host|;
    assert fields[hostEnd..] == tail;
    assert fields[hostEnd] == portBytes[0] && fields[hostEnd + 1] == portBytes[1] && fields[hostEnd + 2] == NextStateStatus;
    ReadFields(fields, host, consumed, portBytes[0], portBytes[1]);
  }

  /** Reading the fields once the host length, the host and the last three bytes are known. */
  lemma ReadFields(fields: seq<byte>, host: seq<byte>, consumed: nat, hi: byte, lo: byte)
    requires Unpack(fields) == Some(Decoded(|host|, consumed))
    requires |fields| == consumed + |host| + 3
    requires fields[consumed..consumed + |host|] == host
    requires fields[consumed + |host|] == hi && fields[consumed + |host| + 1] == lo
    requires fields[consumed + |host| + 2] == NextStateStatus
    ensures ParseHandshakeFields(fields) == Some(HandshakeFields(host, BigEndian16(hi, lo)))
  {
  }

  /** The length-prefixed host reads back, and the bytes after it are the rest. */
  lemma HostField(host: seq<byte>, tail: seq<byte>, fields: seq<byte>)
    requires |host| < Pow128(MaxVarintBytes)
    requires fields == PackData(host) + tail
    ensures Unpack(fields) == Some(Decoded(|host|, |Pack(|host|)|))
    ensures |fields| == |Pack(|host|)| + |host| + |tail|
    ensures fields[|Pack(|host|)|..|Pack(|host|)| + |host|] == host
    ensures fields[|Pack(|host|)| + |host|..] == tail
  {
    var prefix := Pack(|host|);
    Seqs.Associate(prefix, host, tail);
    PackUnpack(|host|, host + tail);
    Seqs.DropPrefix(prefix, host + tail);
    Seqs.DropPrefix(host, tail);
    assert fields[|prefix|..] == host + tail;
  }

  /** The status request: a packet whose payload is the single id byte 0. */
  function StatusRequest(): (r: seq<byte>)
    ensures r == [0x01, 0x00]
  {
    PackData([PacketIdZero])
  }

  /** The host name `localhost` as bytes. */
  const Localhost: seq<byte> := [108, 111, 99, 97, 108, 104, 111, 115, 116]

  /** The handshake `localhost:25565`: a 15-byte payload behind a one-byte length. */
  lemma LocalhostHandshake()
    ensures Handshake(Localhost, DefaultPort)
         == Some([15, 0, 0, 9, 108, 111, 99, 97, 108, 104, 111, 115, 116, 0x63, 0xDD, 1])
  {
    PackDefaultPort();
    ShortHandshake(Localhost, DefaultPort);
    assert [15] + ([PacketIdZero, ProtocolVersion] + ([9] + Localhost) + [0x63, 0xDD] + [NextStateStatus])
        == [15, 0, 0, 9, 108, 111, 99, 97, 108, 104, 111, 115, 116, 0x63, 0xDD, 1];
  }

  /** A handshake whose payload is shorter than 128 bytes has one-byte length prefixes. */
  lemma ShortHandshake(host: seq<byte>, port: int)
    requires |host| + 6 < 128
    requires 0 <= port < 65536
    ensures Handshake(host, port)
         == Some([|host| + 6] + ([PacketIdZero, ProtocolVersion] + ([|host|] + host) + PackPort(port).value + [NextStateStatus]))
  {
    var payload := [PacketIdZero, ProtocolVersion] + PackData(host) + PackPort(port).value + [NextStateStatus];
    PackDataShort(host);
    PackDataShort(payload);
  }

  /** Data shorter than 128 bytes gets a one-byte length prefix. */
  lemma PackDataShort(d: seq<byte>)
    requires |d| < 128
    ensures PackData(d) == [|d|] + d
  {
    PackSmall(|d|);
  }

  /** The three varints that open the response: packet length, packet id, payload length. */
  datatype Header = Header(packetLength: nat, packetId: nat, payloadLength: nat, size: nat)

  function ReadHeader(s: seq<byte>): (r: Option<Header>)
    ensures r.Some? ==> 3 <= r.value.size <= |s| && r.value.size <= 3 * MaxVarintBytes
  {
    var a :- Unpack(s);
    var afterA := s[a.consumed..];
    var b :- Unpack(afterA);
    var afterB := afterA[b.consumed..];
    var c :- Unpack(afterB);
    Some(Header(a.value, b.value, c.value, a.consumed + b.consumed + c.consumed))
  }

  /** Three encoded numbers below 2^35 are read back in order. */
  lemma ReadHeaderRoundTrip(a: nat, b: nat, c: nat, rest: seq<byte>)
    requires a < Pow128(MaxVarintBytes) && b < Pow128(MaxVarintBytes) && c < Pow128(MaxVarintBytes)
    ensures var h := ReadHeader(Pack(a) + (Pack(b) + (Pack(c) + rest)));
      && h.Some?
      && h.value.packetLength == a && h.value.packetId == b && h.value.payloadLength == c
      && h.value.size == |Pack(a)| + |Pack(b)| + |Pack(c)|
  {
    PackUnpack(c, rest);
    PackUnpack(b, Pack(c) + rest);
    PackUnpack(a, Pack(b) + (Pack(c) + rest));
    ReadHeaderParts(Pack(a), Pack(b), Pack(c), rest, a, b, c);
  }

  /**
   * A status response as a server frames it: a packet of id 0 whose payload
   * is the length-prefixed JSON text.
   */
  function StatusResponsePacket(json: seq<byte>): seq<byte>
  {
    PackData([PacketIdZero] + PackData(json))
  }

  /** The header of a framed status response declares id 0 and the JSON length. */
  lemma StatusResponseHeader(json: seq<byte>)
    requires |json| + 6 < Pow128(MaxVarintBytes)
    ensures ReadHeader(StatusResponsePacket(json)).Some?
    ensures ReadHeader(StatusResponsePacket(json)).value.packetId == 0
    ensures ReadHeader(StatusResponsePacket(json)).value.payloadLength == |json|
    ensures StatusResponsePacket(json)[ReadHeader(StatusResponsePacket(json)).value.size..] == json
  {
    var inner := [PacketIdZero] + PackData(json);
    StatusResponseLayout(json);
    var tail := Pack(|json|) + json;
    var packet := Pack(|inner|) + (Pack(0) + tail);
    ReadHeaderRoundTrip(|inner|, 0, |json|, json);
    Seqs.DropPrefix(Pack(|inner|), Pack(0) + tail);
    Seqs.DropPrefix(Pack(0), tail);
    Seqs.DropPrefix(Pack(|json|), json);
    var size := |Pack(|inner|)| + |Pack(0)| + |Pack(|json|)|;
    var afterLength := packet[|Pack(|inner|)|..];
    assert afterLength == Pack(0) + tail;
    var afterId := afterLength[|Pack(0)|..];
    assert afterId == tail;
    assert afterId[|Pack(|json|)|..] == json;
    assert packet[size..] == afterId[|Pack(|json|)|..];
    assert ReadHeader(packet).value.size == size;
  }

  /** A status response is three varints (frame length, id 0, JSON length) followed by the JSON. */
  lemma StatusResponseLayout(json: seq<byte>)
    requires |json| + 6 < Pow128(MaxVarintBytes)
    ensures var inner := [PacketIdZero] + PackData(json);
      && |inner| < Pow128(MaxVarintBytes)
      && StatusResponsePacket(json) == Pack(|inner|) + (Pack(0) + (Pack(|json|) + json))
  {
    var inner := [PacketIdZero] + PackData(json);
    PackLength(|json|, MaxVarintBytes);
    PackZero();
    assert inner == Pack(0) + (Pack(|json|) + json);
  }

  /** Reading the header over three parts, each known to hold one varint. */
  lemma ReadHeaderParts(x: seq<byte>, y: seq<byte>, z: seq<byte>, rest: seq<byte>, a: nat, b: nat, c: nat)
    requires Unpack(x + (y + (z + rest))) == Some(Decoded(a, |x|))
    requires Unpack(y + (z + rest)) == Some(Decoded(b, |y|))
    requires Unpack(z + rest) == Some(Decoded(c, |z|))
    ensures ReadHeader(x + (y + (z + rest))) == Some(Header(a, b, c, |x| + |y| + |z|))
    ensures (x + (y + (z + rest)))[|x| + |y| + |z|..] == rest
  {
    var s := x + (y + (z + rest));
    Seqs.DropPrefix(x, y + (z + rest));
    var afterA := s[|x|..];
    assert afterA == y + (z + rest);
    Seqs.DropPrefix(y, z + rest);
    var afterB := afterA[|y|..];
    assert afterB == z + rest;
    Seqs.DropThree(x, y, z, rest);
  }

  /**
   * Reads the response from the bytes the server sent. The three varints are
   * read byte by byte; then receive calls append chunks until at least the
   * declared payload length has arrived. `grants[i]` is how many bytes the
   * i-th receive call delivers (at most `RecvSize`, and no more than remain).
   * `None` when the header is cut short or the data stops arriving before
   * the payload is complete (where the source blocks or spins).
   */
  method ReadResponse(stream: seq<byte>, grants: seq<nat>) returns (r: Option<seq<byte>>)
    ensures r.Some? ==> ReadHeader(stream).Some?
    ensures r.Some? ==>
      var h := ReadHeader(stream).value;
      && h.payloadLength <= |r.value| < h.payloadLength + RecvSize
      && |r.value| <= |stream| - h.size
      && r.value == stream[h.size..h.size + |r.value|]
    ensures ReadHeader(stream).Some?
         && |stream| - ReadHeader(stream).value.size >= ReadHeader(stream).value.payloadLength
         && |grants| >= ReadHeader(stream).value.payloadLength
         && (forall i :: 0 <= i < |grants| ==> grants[i] >= 1)
         ==> r.Some?
  {
    var header := ReadHeader(stream);
    if header.None? {
      return None;
    }
    var expected := header.value.payloadLength;
    var rest := stream[header.value.size..];
    var data: seq<byte> := [];
    var calls := 0;
    while |data| < expected
      invariant calls <= |grants|
      invariant |data| <= |rest|
      invariant data == rest[..|data|]
      invariant calls <= |data|
      invariant |data| < expected + RecvSize
      decreases |grants| - calls
    {
      if calls == |grants| {
        return None;
      }
      var n := grants[calls];
      if n > RecvSize {
        n := RecvSize;
      }
      if n > |rest| - |data| {
        n := |rest| - |data|;
      }
      if n == 0 {
        return None;
      }
      data := data + rest[|data|..|data| + n];
      calls := calls + 1;
    }
    return Some(data);
  }

  /**
   * Reading a framed status response returns exactly its JSON text, however
   * the payload is split across receives, as long as every receive delivers
   * at least one byte and there are enough of them.
   */
  method ReadStatusResponse(json: seq<byte>, grants: seq<nat>) returns (r: Option<seq<byte>>)
    requires |json| + 6 < Pow128(MaxVarintBytes)
    requires |grants| >= |json|
    requires forall i :: 0 <= i < |grants| ==> grants[i] >= 1
    ensures r == Some(json)
  {
    StatusResponseHeader(json);
    r := ReadFramed(StatusResponsePacket(json), json, grants);
  }

  /** Reading a stream whose header declares exactly the bytes that follow it returns those bytes. */
  method ReadFramed(stream: seq<byte>, payload: seq<byte>, grants: seq<nat>) returns (r: Option<seq<byte>>)
    requires ReadHeader(stream).Some?
    requires ReadHeader(stream).value.payloadLength == |payload|
    requires stream[ReadHeader(stream).value.size..] == payload
    requires |grants| >= |payload|
    requires forall i :: 0 <= i < |grants| ==> grants[i] >= 1
    ensures r == Some(payload)
  {
    var size := ReadHeader(stream).value.size;
    r := ReadResponse(stream, grants);
    assert |r.value| == |payload|;
    assert r.value == stream[size..];
  }
}
