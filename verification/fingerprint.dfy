/** The fixed fields of the TLS ClientHello the gateway uses to route a
    connection to its VPN handler instead of its HTTPS handler
    (protocol.go, `tlsConn`). Only the hello's constant shape is modelled;
    dialing and the handshake itself belong to the TLS library. */
module Fingerprint {
  import opened Bytes

  type uint16 = x: int | 0 <= x < 0x1_0000

  /** TLS 1.1, protocol version {3, 2} (RFC 4346, section 6.2.1). */
  const VersionTls11: uint16 := 0x0302
  /** TLS_RSA_WITH_RC4_128_SHA (RFC 5246, appendix A.5). */
  const RsaWithRc4128Sha: uint16 := 0x0005
  /** TLS_EMPTY_RENEGOTIATION_INFO_SCSV (RFC 5746, section 3.3). */
  const EmptyRenegotiationInfoScsv: uint16 := 0x00FF
  /** The "null" compression method. */
  const NullCompression: Byte := 0
  /** ASCII "L3IP": the prefix of the session identifier the gateway looks for. */
  const SessionIdMagic: seq<Byte> := [0x4C, 0x33, 0x49, 0x50]
  const SessionIdLen := 32
  const RandomLen := 32

  datatype ClientHello = ClientHello(
    minVersion: uint16,
    maxVersion: uint16,
    helloVersion: uint16,
    cipherSuites: seq<uint16>,
    compressionMethods: seq<Byte>,
    sessionId: seq<Byte>,
    random: seq<Byte>,
    extensions: seq<uint16>,
    verifyCertificates: bool)

  /** The shape the gateway recognises as a VPN connection: TLS 1.1 only,
      exactly the RC4 suite and the renegotiation signal, only null
      compression, a 32-byte session id of "L3IP" and zeros, no
      extensions. Certificate checking is off because the gateway has no
      verifiable chain. */
  predicate IsVpnFingerprint(h: ClientHello)
  {
    && h.minVersion == VersionTls11
    && h.maxVersion == VersionTls11
    && h.helloVersion == VersionTls11
    && |h.cipherSuites| == 2
    && h.cipherSuites[0] == RsaWithRc4128Sha
    && h.cipherSuites[1] == EmptyRenegotiationInfoScsv
    && |h.compressionMethods| == 1
    && h.compressionMethods[0] == NullCompression
    && |h.sessionId| == SessionIdLen
    && h.sessionId[..|SessionIdMagic|] == SessionIdMagic
    && AllZero(h.sessionId[|SessionIdMagic|..])
    && |h.random| == RandomLen
    && h.extensions == []
    && !h.verifyCertificates
  }

  /** The hello `tlsConn` sends; the client random comes from the system's
      random source, so it is a parameter here. */
  function VpnHello(random: seq<Byte>): (h: ClientHello)
    requires |random| == RandomLen
    ensures IsVpnFingerprint(h)
    ensures h.random == random
  {
    ClientHello(
      minVersion := VersionTls11,
      maxVersion := VersionTls11,
      helloVersion := VersionTls11,
      cipherSuites := [RsaWithRc4128Sha, EmptyRenegotiationInfoScsv],
      compressionMethods := [NullCompression],
      sessionId := SessionIdMagic + Zeros(SessionIdLen - |SessionIdMagic|),
      random := random,
      extensions := [],
      verifyCertificates := false)
  }

  /** The fingerprint pins every field but the random: any hello the
      gateway would route to the VPN handler is the one `VpnHello` builds. */
  lemma FingerprintIsUnique(h: ClientHello)
    requires IsVpnFingerprint(h)
    ensures h == VpnHello(h.random)
  {
    var sid := VpnHello(h.random).sessionId;
    assert h.sessionId == h.sessionId[..4] + h.sessionId[4..];
    ZerosIffAllZero(h.sessionId[4..]);
    assert h.sessionId == sid;
  }

  /** Two hellos differ at most in their client random. */
  lemma HelloDependsOnlyOnRandom(r1: seq<Byte>, r2: seq<Byte>)
    requires |r1| == RandomLen && |r2| == RandomLen
    ensures VpnHello(r1).(random := r2) == VpnHello(r2)
    ensures |VpnHello(r1).cipherSuites| == 2 && |VpnHello(r1).compressionMethods| == 1
  {
  }
}
