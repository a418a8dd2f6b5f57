/** Session negotiation as a state machine over the three handshake
    replies (protocol.go, `main` lines 124-185 with `QueryIp` and the
    start of `recvListen`). The address query runs first; its address,
    reversed, is what both stream handshakes carry. Any unexpected
    acknowledgement ends the process, so no forwarding loop starts. */
module Negotiator {
  import opened Bytes
  import opened Results
  import opened Frames

  datatype Phase =
    | Querying
    | ReceiveHandshaking(ip: seq<Byte>)
    | SendHandshaking(ip: seq<Byte>)
    | Streaming(ip: seq<Byte>)
    | Failed(error: Error)
  {
    /** A request has been written and its reply is awaited. */
    predicate AwaitingReply()
    {
      Querying? || ReceiveHandshaking? || SendHandshaking?
    }

    /** Once resolved, the stored client address is four bytes. */
    predicate Valid()
    {
      !Querying? && !Failed? ==> |ip| == IpLen
    }

    /** The connection whose handshake is in flight. */
    function Role(): Role
      requires AwaitingReply()
    {
      if Querying? then Query else if ReceiveHandshaking? then Receive else Send
    }

    /** Bytes of the reply the phase inspects: the ack byte, and for the
        query also the address at bytes 4 to 8. */
    function MinReplyLen(): nat
    {
      if Querying? then 8 else 1
    }

    /** Progress through the handshakes, used to state their order. */
    function Rank(): nat
    {
      match this
      case Querying => 0
      case ReceiveHandshaking(_) => 1
      case SendHandshaking(_) => 2
      case Streaming(_) => 3
      case Failed(_) => 0
    }
  }

  /** The handshake request written on entering a phase. */
  function PendingRequest(p: Phase, token: seq<Byte>): (req: Request)
    requires p.AwaitingReply() && p.Valid() && |token| == TokenLen
    ensures req.Valid() && req.Role() == p.Role() && req.token == token
    ensures !p.Querying? ==> req.ip == p.ip
  {
    match p
    case Querying => AddressQuery(token)
    case ReceiveHandshaking(ip) => ReceiveHandshake(token, ip)
    case SendHandshaking(ip) => SendHandshake(token, ip)
  }

  /** Consumes the reply to the pending handshake. */
  function Step(p: Phase, reply: seq<Byte>): (q: Phase)
    requires p.AwaitingReply() && p.Valid() && |reply| >= p.MinReplyLen()
    ensures q.Valid()
    ensures q.Failed? <==> reply[0] != AckByte(p.Role())
    ensures q.Failed? ==> q.error == ProtocolMismatch(p.Role(), reply[0])
    ensures !q.Failed? ==> q.Rank() == p.Rank() + 1
    ensures !q.Failed? && !p.Querying? ==> q.ip == p.ip
    ensures !q.Failed? && p.Querying? ==> q.ip == ReverseIp(reply[4..8])
  {
    match p
    case Querying =>
      (match QueryReply(reply)
       case Ok(ip) => ReceiveHandshaking(ReverseIp(ip))
       case Err(e) => Failed(e))
    case ReceiveHandshaking(ip) =>
      (match CheckAck(Receive, reply)
       case Ok(_) => SendHandshaking(ip)
       case Err(e) => Failed(e))
    case SendHandshaking(ip) =>
      (match CheckAck(Send, reply)
       case Ok(_) => Streaming(ip)
       case Err(e) => Failed(e))
  }

  /** The outcome of negotiation and every frame written while reaching it. */
  datatype Transcript = Transcript(final: Phase, sent: seq<seq<Byte>>)

  /** Runs the three handshakes in order, stopping at the first rejected one. */
  function Negotiate(token: seq<Byte>, queryReply: seq<Byte>, receiveReply: seq<Byte>, sendReply: seq<Byte>): (t: Transcript)
    requires |token| == TokenLen
    requires |queryReply| >= 8 && |receiveReply| >= 1 && |sendReply| >= 1
    // streaming exactly when every reply carries its role's ack byte;
    // otherwise the first refused role is named
    ensures t.final.Streaming? || t.final.Failed?
    ensures t.final.Streaming? <==> queryReply[0] == 0x00 && receiveReply[0] == 0x01 && sendReply[0] == 0x02
    ensures queryReply[0] != 0x00 ==> t.final == Failed(ProtocolMismatch(Query, queryReply[0]))
    ensures queryReply[0] == 0x00 && receiveReply[0] != 0x01 ==>
              t.final == Failed(ProtocolMismatch(Receive, receiveReply[0]))
    ensures queryReply[0] == 0x00 && receiveReply[0] == 0x01 && sendReply[0] != 0x02 ==>
              t.final == Failed(ProtocolMismatch(Send, sendReply[0]))
    // no stream handshake is built before the query succeeds, and both
    // carry the token and the queried address reversed
    ensures queryReply[0] != 0x00 ==> t.sent == [Encode(AddressQuery(token))]
    ensures queryReply[0] == 0x00 ==>
              var ip := ReverseIp(queryReply[4..8]);
              && |t.sent| == (if receiveReply[0] == 0x01 then 3 else 2)
              && t.sent[0] == Encode(AddressQuery(token))
              && t.sent[1] == Encode(ReceiveHandshake(token, ip))
              && (|t.sent| == 3 ==> t.sent[2] == Encode(SendHandshake(token, ip)))
              && (t.final.Streaming? ==> t.final.ip == ip)
  {
    var sent1 := [Encode(PendingRequest(Querying, token))];
    var p1 := Step(Querying, queryReply);
    if p1.Failed? then Transcript(p1, sent1)
    else
      var sent2 := sent1 + [Encode(PendingRequest(p1, token))];
      var p2 := Step(p1, receiveReply);
      if p2.Failed? then Transcript(p2, sent2)
      else
        var sent3 := sent2 + [Encode(PendingRequest(p2, token))];
        Transcript(Step(p2, sendReply), sent3)
  }

  /** Every frame the negotiator writes decodes to a request with the
      session token, and the stream handshakes name the reversed address. */
  lemma {:induction false} SentFramesDecode(token: seq<Byte>, q: seq<Byte>, r: seq<Byte>, s: seq<Byte>, i: nat)
    requires |token| == TokenLen && |q| >= 8 && |r| >= 1 && |s| >= 1
    requires i < |Negotiate(token, q, r, s).sent|
    ensures var m := Negotiate(token, q, r, s).sent[i];
      && Decode(m).Ok?
      && Decode(m).value.token == token
      && (i == 0 <==> Decode(m).value.AddressQuery?)
      && (i > 0 ==> Decode(m).value.ip == ReverseIp(q[4..8]))
  {
    if i == 0 {
      DecodeEncode(AddressQuery(token));
    } else if i == 1 {
      DecodeEncode(ReceiveHandshake(token, ReverseIp(q[4..8])));
    } else {
      DecodeEncode(SendHandshake(token, ReverseIp(q[4..8])));
    }
  }

  /** A reply assigning 10.20.30.40 leads to stream handshakes ending in
      40, 30, 20, 10. */
  lemma ReversedIpExample(token: seq<Byte>)
    requires |token| == TokenLen
    ensures var q: seq<Byte> := [0x00, 0, 0, 0, 10, 20, 30, 40];
      var t := Negotiate(token, q, [0x01], [0x02]);
      && t.final == Streaming([40, 30, 20, 10])
      && t.sent[1][60..] == [40, 30, 20, 10]
      && t.sent[2][60..] == [40, 30, 20, 10]
  {
    var q: seq<Byte> := [0x00, 0, 0, 0, 10, 20, 30, 40];
    assert q[4..8] == [10, 20, 30, 40];
    var ip: seq<Byte> := [40, 30, 20, 10];
    assert ReverseIp(q[4..8]) == ip;
    var t := Negotiate(token, q, [0x01], [0x02]);
    assert t.sent[1] == Encode(ReceiveHandshake(token, ip));
    assert t.sent[2] == Encode(SendHandshake(token, ip));
  }
}
