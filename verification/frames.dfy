/** The handshake frames each channel opens with, the acknowledgement each
    role expects back, and the client address carried between them
    (protocol.go, `QueryIp`, `recvListen` and the send handshake in `main`). */
module Frames {
  import opened Bytes
  import opened Results

  const TagLen := 4
  const TokenLen := 48
  const ReservedLen := 8
  const IpLen := 4
  /** Every handshake request is a tag, the token, the reserved zeros and a 4-byte trailer. */
  const FrameLen := TagLen + TokenLen + ReservedLen + IpLen

  /** Trailer of the address query in place of an address. */
  const QueryTrailer: seq<Byte> := [0xFF, 0xFF, 0xFF, 0xFF]

  /** The three dedicated connections of a session. */
  datatype Role = Query | Receive | Send

  /** Little-endian request tag opening each role's handshake. */
  function Tag(role: Role): uint32
  {
    match role
    case Query => 0
    case Receive => 6
    case Send => 5
  }

  /** First byte of the gateway's reply when it accepts the role. */
  function AckByte(role: Role): Byte
  {
    match role
    case Query => 0x00
    case Receive => 0x01
    case Send => 0x02
  }

  datatype Error =
    | ProtocolMismatch(role: Role, got: Byte)
    | BadLength(length: nat)
    | BadReserved
    | BadTrailer
    | UnknownTag(tag: uint32)

  /** A handshake request before it is laid out in bytes. */
  datatype Request =
    | AddressQuery(token: seq<Byte>)
    | ReceiveHandshake(token: seq<Byte>, ip: seq<Byte>)
    | SendHandshake(token: seq<Byte>, ip: seq<Byte>)
  {
    function Role(): Role
    {
      match this
      case AddressQuery(_) => Query
      case ReceiveHandshake(_, _) => Receive
      case SendHandshake(_, _) => Send
    }

    predicate Valid()
    {
      && |token| == TokenLen
      && (!AddressQuery? ==> |ip| == IpLen)
    }

    /** The last four bytes of the frame. */
    function Trailer(): (t: seq<Byte>)
      requires Valid()
      ensures |t| == IpLen
    {
      if AddressQuery? then QueryTrailer else ip
    }
  }

  /** Lays a request out as the 64 bytes written to the connection. */
  function Encode(req: Request): (m: seq<Byte>)
    requires req.Valid()
    ensures |m| == FrameLen
    ensures FromLE32(m[..TagLen]) == Tag(req.Role())
    ensures m[TagLen..TagLen + TokenLen] == req.token
    ensures AllZero(m[TagLen + TokenLen..FrameLen - IpLen])
    ensures m[FrameLen - IpLen..] == req.Trailer()
  {
    LE32(Tag(req.Role())) + req.token + Zeros(ReservedLen) + req.Trailer()
  }

  /** Reads a 64-byte handshake request back, rejecting anything `Encode`
      cannot have produced. */
  function Decode(m: seq<Byte>): (r: Result<Request, Error>)
    ensures r.Ok? ==> r.value.Valid()
  {
    if |m| != FrameLen then Err(BadLength(|m|))
    else if !AllZero(m[TagLen + TokenLen..FrameLen - IpLen]) then Err(BadReserved)
    else
      var tag := FromLE32(m[..TagLen]);
      var token := m[TagLen..TagLen + TokenLen];
      var trailer := m[FrameLen - IpLen..];
      if tag == Tag(Query) then
        if trailer == QueryTrailer then Ok(AddressQuery(token)) else Err(BadTrailer)
      else if tag == Tag(Receive) then Ok(ReceiveHandshake(token, trailer))
      else if tag == Tag(Send) then Ok(SendHandshake(token, trailer))
      else Err(UnknownTag(tag))
  }

  /** Each role has its own tag, so a frame names its role unambiguously. */
  lemma TagsDistinct(a: Role, b: Role)
    ensures Tag(a) == Tag(b) <==> a == b
  {
  }

  /** Decoding an encoded request gives back its kind, token and address. */
  lemma {:induction false} DecodeEncode(req: Request)
    requires req.Valid()
    ensures Decode(Encode(req)) == Ok(req)
  {
    var m := Encode(req);
    TagsDistinct(req.Role(), Query);
    TagsDistinct(req.Role(), Receive);
    TagsDistinct(req.Role(), Send);
  }

  /** A frame that decodes is exactly the encoding of what it decodes to. */
  lemma {:induction false} EncodeDecode(m: seq<Byte>)
    requires Decode(m).Ok?
    ensures Encode(Decode(m).value) == m
  {
    var req := Decode(m).value;
    LE32OfFromLE32(m[..TagLen]);
    ZerosIffAllZero(m[TagLen + TokenLen..FrameLen - IpLen]);
    assert m == m[..TagLen] + m[TagLen..TagLen + TokenLen]
              + m[TagLen + TokenLen..FrameLen - IpLen] + m[FrameLen - IpLen..];
  }

  /** Every tag fits in the first byte, the other three tag bytes are zero. */
  lemma EncodeLayout(req: Request)
    requires req.Valid()
    ensures Encode(req) == [Tag(req.Role()), 0, 0, 0] + req.token + Zeros(ReservedLen) + req.Trailer()
  {
    LE32OneByte(Tag(req.Role()));
  }

  /** The address query: tag 0, the token, eight zeros and four 0xFF bytes
      (protocol.go:97-99). */
  lemma QueryLayout(token: seq<Byte>)
    requires |token| == TokenLen
    ensures Encode(AddressQuery(token)) == [0, 0, 0, 0] + token + Zeros(8) + [0xFF, 0xFF, 0xFF, 0xFF]
  {
    EncodeLayout(AddressQuery(token));
  }

  /** The receive and send handshakes for the same token and address are
      the tags 6 and 5 followed by identical bytes (protocol.go:48-51 and
      163-166). */
  lemma StreamHandshakeLayouts(token: seq<Byte>, ip: seq<Byte>)
    requires |token| == TokenLen && |ip| == IpLen
    ensures Encode(ReceiveHandshake(token, ip)) == [0x06, 0, 0, 0] + token + Zeros(8) + ip
    ensures Encode(SendHandshake(token, ip)) == [0x05, 0, 0, 0] + token + Zeros(8) + ip
    ensures var r, s := Encode(ReceiveHandshake(token, ip)), Encode(SendHandshake(token, ip));
      r[0] == 0x06 && s[0] == 0x05 && r[1..] == s[1..]
  {
    EncodeLayout(ReceiveHandshake(token, ip));
    EncodeLayout(SendHandshake(token, ip));
    SameTail(0x06, 0x05, token + Zeros(ReservedLen) + ip);
  }

  /** Two frames that differ only in the tag byte agree from byte 1 on. */
  lemma SameTail(a: Byte, b: Byte, body: seq<Byte>)
    ensures ([a, 0, 0, 0] + body)[1..] == ([b, 0, 0, 0] + body)[1..]
  {
    assert ([a, 0, 0, 0] + body)[1..] == [0, 0, 0] + body;
    assert ([b, 0, 0, 0] + body)[1..] == [0, 0, 0] + body;
  }

  /** Accepts a reply exactly when its first byte is the role's ack byte. */
  function CheckAck(role: Role, reply: seq<Byte>): (r: Result<(), Error>)
    requires |reply| >= 1
    ensures r.Ok? <==> reply[0] == AckByte(role)
    ensures r.Err? ==> r.error == ProtocolMismatch(role, reply[0])
  {
    if reply[0] == AckByte(role) then Ok(()) else Err(ProtocolMismatch(role, reply[0]))
  }

  /** No reply is accepted by two roles: the ack bytes are pairwise distinct. */
  lemma AckAcceptedByOneRole(a: Role, b: Role, reply: seq<Byte>)
    requires |reply| >= 1
    requires CheckAck(a, reply).Ok? && CheckAck(b, reply).Ok?
    ensures a == b
  {
  }

  /** Validates the address-query reply and yields the assigned address,
      bytes 4 to 8 as received. */
  function QueryReply(reply: seq<Byte>): (r: Result<seq<Byte>, Error>)
    requires |reply| >= 8
    ensures r.Ok? <==> reply[0] == AckByte(Query)
    ensures r.Ok? ==> |r.value| == IpLen && r.value == reply[4..8]
    ensures r.Err? ==> r.error == ProtocolMismatch(Query, reply[0])
  {
    var _ :- CheckAck(Query, reply);
    Ok(reply[4..8])
  }

  /** The gateway wants the address back with its byte order reversed. */
  function ReverseIp(ip: seq<Byte>): (r: seq<Byte>)
    requires |ip| == IpLen
    ensures |r| == IpLen
    ensures forall i :: 0 <= i < IpLen ==> r[i] == ip[IpLen - 1 - i]
  {
    ip[0 := ip[3]][1 := ip[2]][2 := ip[1]][3 := ip[0]]
  }

  /** Reversing twice restores the address. */
  lemma ReverseIpInvolution(ip: seq<Byte>)
    requires |ip| == IpLen
    ensures ReverseIp(ReverseIp(ip)) == ip
  {
  }

  /** A reply assigning 10.20.30.40: the address is extracted as sent and
      stored as 40.30.20.10. */
  lemma QueryReplyExample()
    ensures var reply: seq<Byte> := [0x00, 0, 0, 0, 10, 20, 30, 40];
      && QueryReply(reply) == Ok([10, 20, 30, 40])
      && ReverseIp(QueryReply(reply).value) == [40, 30, 20, 10]
  {
    var reply: seq<Byte> := [0x00, 0, 0, 0, 10, 20, 30, 40];
    assert reply[4..8] == [10, 20, 30, 40];
  }
}
