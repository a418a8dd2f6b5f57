/** A whole session: negotiation, then the two forwarding loops, which
    start only when every handshake was acknowledged (protocol.go, `main`). */
module Session {
  import opened Bytes
  import opened Frames
  import opened Negotiator
  import opened Forwarding

  /** `fromGateway` are the reads on the receive stream, `fromDevice` the
      reads on the virtual interface; `toDevice` and `toGateway` are the
      writes the two loops make. */
  method RunSession(token: seq<Byte>, queryReply: seq<Byte>, receiveReply: seq<Byte>, sendReply: seq<Byte>,
                    fromGateway: seq<ReadEvent>, fromDevice: seq<ReadEvent>)
    returns (t: Transcript, toDevice: seq<seq<Byte>>, toGateway: seq<seq<Byte>>)
    requires |token| == TokenLen
    requires |queryReply| >= 8 && |receiveReply| >= 1 && |sendReply| >= 1
    requires FitIn(fromGateway, ReceiveBufLen) && FitIn(fromDevice, SendBufLen)
    ensures t == Negotiate(token, queryReply, receiveReply, sendReply)
    ensures !t.final.Streaming? ==> toDevice == [] && toGateway == []
    ensures t.final.Streaming? ==>
              && toDevice == ReadsBeforeFailure(fromGateway)
              && toGateway == SendLoop(Zeros(SendBufLen), fromDevice)
  {
    t := Negotiate(token, queryReply, receiveReply, sendReply);
    toDevice, toGateway := [], [];
    if t.final.Streaming? {
      toDevice := ReceiveLoop(fromGateway);
      toGateway := SendForwarder(fromDevice);
    }
  }
}
