# zju-connect protocol engine, modelled in Dafny

This project models the byte-level protocol logic of the zju-connect
client (`protocol.go`). The client is an SSL-VPN client for a Sangfor gateway.
The code is pulled apart from its TLS sockets, TUN device and logging:

- **Fingerprint** (`fingerprint.dfy`): the constant ClientHello fields that
  make the gateway route a connection to its VPN handler. These are TLS 1.1
  only, the RC4 suite plus the renegotiation signal, null compression,
  session id `"L3IP"` followed by 28 zeros, no extensions and certificate
  checking off.
- **Frames** (`frames.dfy`): the three 64-byte handshake requests. Each is a
  4-byte little-endian tag, the 48-byte session token, 8 zero bytes and a
  4-byte trailer. The tags are 0 for the address query, 6 for the receive
  stream and 5 for the send stream. The trailer is `FF FF FF FF` for the query
  and the client address for the two streams. This file also holds a decoder
  (the partner the round trips are stated against), the per-role ack byte
  check (0x00, 0x01, 0x02), extraction of the assigned address from bytes 4
  to 8 of the query reply, and the byte reversal applied to that address.
- **Negotiator** (`negotiator.dfy`): a state machine over the three handshake
  replies. It records every frame written.
- **Forwarding** (`forwarding.dfy`): the receive loop (stream to device,
  verbatim) and the send loop (device to stream, dropping packets whose first
  byte is 0x60), each over a finite sequence of reads.
- **Session** (`session.dfy`): negotiation followed by the loops, which run
  only when all three handshakes were acknowledged.

Supporting modules: `results.dfy` holds a `Result` type. `bytes.dfy` holds
bytes, zero runs and the 32-bit little-endian codec.

Two behaviours of the code are easy to misread, and the model follows the
code as written:

- The send filter compares the whole first byte with 0x60. It does not
  compare the high nibble with 6. An IPv6 packet whose first byte is 0x61 is
  therefore forwarded (`Forwarding.Ipv6WithTrafficClassForwarded`).
- The send loop tests byte 0 of its whole 2000-byte buffer, not of the bytes
  just read. A read that returns nothing is judged by the stale first byte of
  the previous packet. The model keeps the buffer to reproduce this
  (`Forwarding.EmptyReadUsesStaleByte`).

## Model

| member | source | states |
|---|---|---|
| Bytes.LE32 | protocol.go:97 | the 4-byte tag encoding is little-endian: it has 4 bytes and reading them back as a little-endian value gives the tag |
| Bytes.LE32OfFromLE32 | protocol.go:48 | every 4-byte tag field is the little-endian encoding of its value, so decoding then encoding a tag is the identity |
| Fingerprint.VpnHello | protocol.go:30-39 | the hello pins TLS 1.1 as minimum, maximum and hello version, has exactly two cipher suites (RC4-SHA, then the renegotiation SCSV), exactly one compression method (0), a 32-byte session id of "L3IP" followed by zeros, no extensions, certificate checking off, and carries the given 32-byte random |
| Fingerprint.FingerprintIsUnique | protocol.go:35-39 | any hello with the VPN fingerprint is the one the client builds for its random |
| Fingerprint.HelloDependsOnlyOnRandom | protocol.go:32-39 | two hellos differ only in the client random, and each has two suites and one compression method |
| Frames.Encode | protocol.go:97-99 | a request is 64 bytes: the role's tag little-endian in bytes 0..4, the token in 4..52, zeros in 52..60, and the trailer (FF FF FF FF for the query, the address for a stream) in 60..64 |
| Frames.DecodeEncode | protocol.go:48-51 | decoding any encoded request gives back its kind, token and address |
| Frames.EncodeDecode | protocol.go:163-166 | any 64-byte frame that decodes is exactly the encoding of its decoded request |
| Frames.TagsDistinct | protocol.go:48 | the tags 0, 6 and 5 are distinct, so a frame's tag determines its role |
| Frames.EncodeLayout | protocol.go:163 | each tag fits in byte 0, with bytes 1..4 zero |
| Frames.QueryLayout | protocol.go:97-99 | the query request is [0,0,0,0] ++ token ++ eight 0x00 ++ four 0xFF |
| Frames.StreamHandshakeLayouts | protocol.go:163-166 | the receive handshake is [6,0,0,0] ++ token ++ eight zeros ++ ip, the send handshake is the same with 5 in byte 0, and the two differ only in byte 0 |
| Frames.CheckAck | protocol.go:183-185 | a reply is accepted iff byte 0 is the role's ack byte; otherwise the error is a protocol mismatch naming the role and the byte received |
| Frames.AckAcceptedByOneRole | protocol.go:66 | no reply is accepted by two different roles |
| Frames.QueryReply | protocol.go:109-118 | the query reply is accepted iff byte 0 is 0x00, and then yields exactly bytes 4..8, unmodified |
| Frames.ReverseIp | protocol.go:134 | the stored address is the received one with its byte order reversed: byte i becomes byte 3-i |
| Frames.ReverseIpInvolution | protocol.go:134 | reversing the address twice restores it |
| Frames.QueryReplyExample | protocol.go:118-134 | a reply carrying 10.20.30.40 yields {10,20,30,40}, stored as {40,30,20,10} |
| Negotiator.PendingRequest | protocol.go:48-51 | the request written in a phase has that phase's role and the session token, and a stream handshake carries the stored address |
| Negotiator.Step | protocol.go:114-134 | a reply fails the phase iff its byte 0 is not the role's ack byte, failing with that role and byte; otherwise the phase advances exactly one step; the query step stores bytes 4..8 of the reply reversed, and a resolved address never changes |
| Negotiator.Negotiate | protocol.go:124-185 | streaming is reached iff the three replies start with 0x00, 0x01 and 0x02, and otherwise the first refused role is reported; the query is always sent first; no stream handshake is sent when the query fails; the send handshake is sent only after the receive ack; both carry the token and the reversed queried address |
| Negotiator.SentFramesDecode | protocol.go:153-166 | every frame written during negotiation decodes, carries the token, is a query iff it is the first one, and a stream handshake names the reversed address |
| Negotiator.ReversedIpExample | protocol.go:132-166 | a query reply carrying 10.20.30.40 leads to streaming with address 40.30.20.10, and both stream handshakes end in 40,30,20,10 |
| Forwarding.ReadsBeforeFailure | protocol.go:70-76 | the reads forwarded are the ones before the first failed read, in order, each one complete |
| Forwarding.Overwrite | protocol.go:189 | a read puts its bytes at the front of the buffer and leaves the stale bytes behind them |
| Forwarding.ReceiveLoop | protocol.go:70-85 | each read before the first failure produces exactly one device write of exactly those bytes, in order, with no merging |
| Forwarding.SendLoop | protocol.go:187-206 | the send loop writes at most one packet per read, and no non-empty write starts with 0x60 |
| Forwarding.SendLoopFilters | protocol.go:195-199 | when no read before the first failure is empty, the writes are exactly the packets read before the first failure whose first byte is not 0x60, unmodified and in order, whatever the buffer held |
| Forwarding.SendLoopFiltersNonEmpty | protocol.go:189-199 | for any reads and any buffer, the non-empty writes are exactly the non-empty packets read before the first failure whose first byte is not 0x60, unmodified and in order |
| Forwarding.SendForwarder | protocol.go:187-203 | the send loop with its 2000-byte buffer writes what the send loop's reference definition prescribes |
| Forwarding.Ipv6WithTrafficClassForwarded | protocol.go:195 | the filter compares the whole byte: a packet starting 0x61 is forwarded and one starting 0x60 is dropped |
| Forwarding.EmptyReadUsesStaleByte | protocol.go:189-196 | for any buffer and any later reads, an empty read is dropped if the buffer's stale first byte is 0x60 and written as one empty write otherwise, and the later reads are handled as if it had not happened |
| Session.RunSession | protocol.go:121-206 | if negotiation does not reach streaming, neither loop writes anything; otherwise the device receives the stream's reads and the gateway receives the filtered device reads |

## Left out

- Dialing the gateway and the TLS handshake itself (protocol.go:20-30, 41-43) are network I/O done by a foreign TLS library. Only the hello's constant fields are modelled.
- The client random (protocol.go:32-34) comes from the system's random source. It is an arbitrary 32-byte parameter of `Fingerprint.VpnHello`.
- The session token comes from `WebLogin`, which is not part of this model. It is an arbitrary 48-byte input.
- Creating the TUN device (protocol.go:139-144) is an external collaborator. The device appears only as the reads and writes of the loops.
- Hex dumps and logging (protocol.go:14-18 and every `log` call) are output only.
- The heartbeat frame appears only in a comment (protocol.go:211-212) and is never sent, so it is not modelled.
- Reply buffers: the code reads each reply into a zero-filled buffer and checks byte 0 of the whole buffer, so a short or empty reply is judged by zeros. The model instead requires a reply of at least 8 bytes for the query and at least 1 for the streams. Errors from the query and receive-handshake reply reads (protocol.go:62, 110) are ignored in the code; an error from the send-handshake reply read panics (protocol.go:176-179).
- Negotiator.Negotiate: handshake read and write failures are not modelled. Every handshake write is taken to succeed, though a failed write panics in the code (protocol.go:55-57, 102-104, 169-171), and so is every reply read, though a failed send-handshake read panics (protocol.go:176-179). "Streaming exactly when the acks are 0x00, 0x01 and 0x02" holds in the code only when all of these succeed.
- Negotiator.Negotiate: the receive handshake runs in a goroutine concurrently with the send handshake. The model orders them receive first, then send. A refused ack in either panics and ends the process. In the code the send handshake may be written before the receive ack is refused, whereas the model sends it only after the receive ack is accepted. What this means for forwarding is stated under `Session.RunSession` below.
- Session.RunSession: nothing makes `main` wait for the receive goroutine, so the code gives no guarantee of "no forwarding after a refusal" in either direction. The receive loop may forward packets to the device before the send ack is refused. The send loop may forward device packets to the gateway before the goroutine reads a refused receive ack and panics (protocol.go:66-67, 153, 163-206). The model runs the handshakes in sequence and starts neither loop after a refusal, so in these interleavings it promises `toDevice == []` or `toGateway == []` where the code does not.
- Forwarding.ReceiveLoop: a failed device write also ends the process (`log.Fatal`). The model ends a loop only on a failed read, and every write is taken to succeed.
- Forwarding.SendForwarder: a failed stream write panics. As in the receive loop, writes are taken to succeed.
- The two forwarding loops never terminate. Each is modelled over a finite sequence of reads, and the two loops' outputs are given separately, without their interleaving.
