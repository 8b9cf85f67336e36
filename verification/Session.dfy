/** What a session with an agent does: the effect of the handshake and of every API call on the two IV
    counters, on the bytes sent, and on the position in the bytes that the agent sends. */
module Session {
  import opened Bytes
  import opened Results
  import opened Uuids
  import opened ByteUtil
  import opened Vccrypt
  import opened OuterEnvelope
  import opened Protocol
  import Certificates

  const IPC_DATA_TYPE_DATA_PACKET: byte := 0x20
  const PROTOCOL_VERSION: int := 1
  const CRYPTO_SUITE_VERSION: int := 1
  const HANDSHAKE_REPLY_SIZE: nat := 164

  datatype State = State(
    secret: Option<Bytes32>,
    writerIv: ulong,
    readerIv: ulong,
    sent: seq<byte>,
    position: nat
  )

  /** DataChannel.recv: exactly n bytes, or the rest of the stream and an exception. */
  function Receive(incoming: seq<byte>, s: State, n: nat): (r: (State, Result<seq<byte>>))
    ensures s.position <= |incoming| ==> s.position <= r.0.position <= |incoming|
    ensures r.1.Ok? ==> |r.1.value| == n
  {
    if s.position + n <= |incoming|
    then (s.(position := s.position + n), Ok(incoming[s.position..s.position + n]))
    else (s.(position := |incoming|), Err(EndOfFile))
  }

  // ----- one request and its reply

  type HeaderOpener = seq<byte> -> Result<nat>
  type PayloadOpener = (seq<byte>, seq<byte>) -> Result<seq<byte>>

  /** Reading a header of an accepted size: its bytes, and the size. */
  function ReceiveHeader(openHeader: HeaderOpener, incoming: seq<byte>, s: State, rule: SizeRule)
    : (r: (State, Result<(seq<byte>, nat)>))
    ensures s.position <= |incoming| ==> s.position <= r.0.position <= |incoming|
  {
    var (s', header) := Receive(incoming, s, HEADER_SIZE);
    if header.Err? then (s', Err(header.error))
    else
      var size := openHeader(header.value);
      if size.Err? then (s', Err(size.error))
      else if !rule.Accepts(size.value) then (s', Err(InvalidPayloadSize))
      else (s', Ok((header.value, size.value)))
  }

  /** Reading the pieces of a packet: its header, and its MAC and payload. */
  function ReceivePieces(openHeader: HeaderOpener, incoming: seq<byte>, s: State, rule: SizeRule)
    : (r: (State, Result<(seq<byte>, seq<byte>)>))
    ensures s.position <= |incoming| ==> s.position <= r.0.position <= |incoming|
  {
    var (s1, header) := ReceiveHeader(openHeader, incoming, s, rule);
    if header.Err? then (s1, Err(header.error))
    else
      var (s2, rest) := Receive(incoming, s1, header.value.1 + MAC_SHORT_SIZE);
      if rest.Err? then (s2, Err(rest.error)) else (s2, Ok((header.value.0, rest.value)))
  }

  /** Reading one packet with a rule on its payload size, given how a header and a payload are opened. */
  function ReceiveWith(openHeader: HeaderOpener, openPayload: PayloadOpener, incoming: seq<byte>, s: State,
                       rule: SizeRule)
    : (r: (State, Result<seq<byte>>))
    ensures s.position <= |incoming| ==> s.position <= r.0.position <= |incoming|
  {
    var (s', pieces) := ReceivePieces(openHeader, incoming, s, rule);
    if pieces.Err? then (s', Err(pieces.error))
    else
      var payload := openPayload(pieces.value.0, pieces.value.1);
      if payload.Err? then (s', payload) else (s'.(readerIv := Next(s.readerIv)), payload)
  }

  function Headers(suite: Suite, key: Bytes32, iv: ulong): HeaderOpener {
    (header: seq<byte>) => OpenHeader(suite, key, iv, header)
  }

  function Payloads(suite: Suite, key: Bytes32, iv: ulong): PayloadOpener {
    (header: seq<byte>, payload: seq<byte>) => OpenPayload(suite, key, iv, header, payload)
  }

  /** Reading one packet under the reader's current counter. */
  function ReceivePacket(suite: Suite, incoming: seq<byte>, key: Bytes32, s: State, rule: SizeRule)
    : (r: (State, Result<seq<byte>>))
    ensures s.position <= |incoming| ==> s.position <= r.0.position <= |incoming|
    ensures r.1.Ok? ==> rule.Accepts(|r.1.value|)
  {
    ReceiveWith(Headers(suite, key, s.readerIv), Payloads(suite, key, s.readerIv), incoming, s, rule)
  }

  function SendPacket(suite: Suite, key: Bytes32, s: State, payload: seq<byte>): State {
    s.(sent := s.sent + Packet(suite, key, s.writerIv, payload), writerIv := Next(s.writerIv))
  }

  /** Reading the reply to a request. */
  function ReceiveReply(suite: Suite, incoming: seq<byte>, key: Bytes32, s: State, request: Request)
    : (r: (State, Result<Answer>))
    ensures s.position <= |incoming| ==> s.position <= r.0.position <= |incoming|
  {
    var (s', payload) := ReceivePacket(suite, incoming, key, s, SizeRuleOf(request));
    if payload.Err? then (s', Err(payload.error)) else (s', ReadReply(request, payload.value))
  }

  function Exchange(suite: Suite, incoming: seq<byte>, s: State, request: Request): (r: (State, Result<Answer>))
    ensures s.position <= |incoming| ==> s.position <= r.0.position <= |incoming|
  {
    if s.secret.None? then (s, Err(NullPointer))
    else
      var key := s.secret.value;
      ReceiveReply(suite, incoming, key, SendPacket(suite, key, s, RequestBytes(request)), request)
  }

  /** The calls of the API. */
  datatype Call = Submit(certificate: seq<byte>) | Ask(query: Query)

  function UuidField(reader: Certificates.CertificateReader, fieldId: int): Result<UUID> {
    var value := reader.GetFirst(fieldId);
    if value.Err? || |value.value| != 16 then Err(IO) else Ok(UuidFromBytes(value.value))
  }

  /** The request that a call sends, or the exception that it throws before sending anything. */
  function RequestOf(call: Call): Result<Request> {
    match call
    case Ask(query) => Ok(QueryRequest(query))
    case Submit(certificate) =>
      var certFields :- Certificates.ParseResult(certificate);
      var transactionId :- UuidField(Certificates.CertificateReader(certFields), Certificates.CERTIFICATE_ID);
      var artifactId :- UuidField(Certificates.CertificateReader(certFields), Certificates.ARTIFACT_ID);
      Ok(SubmitRequest(transactionId, artifactId, certificate))
  }

  /** Sending a request and reading its reply, or the exception that came before. */
  function Attempt(suite: Suite, incoming: seq<byte>, s: State, request: Result<Request>)
    : (r: (State, Result<Answer>))
    ensures s.position <= |incoming| ==> s.position <= r.0.position <= |incoming|
  {
    if request.Err? then (s, Err(request.error)) else Exchange(suite, incoming, s, request.value)
  }

  /** One API call. Every call but the status query checks that there is a shared secret. */
  function Step(suite: Suite, incoming: seq<byte>, s: State, call: Call): (r: (State, Result<Answer>))
    ensures s.position <= |incoming| ==> s.position <= r.0.position <= |incoming|
  {
    if s.secret.None? && call != Ask(ConnectionStatus) then (s, Err(Connect))
    else Attempt(suite, incoming, s, RequestOf(call))
  }

  /** The final state and the outcomes of steps taken one after the other. */
  function Fold<C, R>(step: (State, C) -> (State, R), s: State, inputs: seq<C>): (State, seq<R>)
    decreases |inputs|
  {
    if inputs == [] then (s, [])
    else
      var (s1, outcome) := step(s, inputs[0]);
      var (s2, outcomes) := Fold(step, s1, inputs[1..]);
      (s2, [outcome] + outcomes)
  }

  /** A run of API calls and what each of them returned or threw. */
  function Run(suite: Suite, incoming: seq<byte>, s: State, calls: seq<Call>): (State, seq<Result<Answer>>) {
    Fold((t, call) => Step(suite, incoming, t, call), s, calls)
  }

  // ----- the handshake

  /** What the client is configured with. */
  datatype Config = Config(
    agentId: UUID,
    entityId: UUID,
    agentPublicKey: Bytes32,
    entityPrivateKey: Bytes32
  )

  /** The client's two random nonces. */
  datatype Nonces = Nonces(key: Bytes32, challenge: Bytes32)

  function InitiateRequest(entityId: UUID, nonces: Nonces): (s: seq<byte>)
    ensures |s| == 96
  {
    Zeros(8) + Htonl(PROTOCOL_VERSION) + Htonl(CRYPTO_SUITE_VERSION) + UuidBytes(entityId)
    + nonces.key + nonces.challenge
  }

  /** A data packet in the clear: type, size, content. */
  function DataPacket(content: seq<byte>): seq<byte> {
    [IPC_DATA_TYPE_DATA_PACKET] + Htonl(|content|) + content
  }

  /** The checks of the first round on the 164 bytes of the reply that come before the shared secret is
      computed. */
  function CheckReply(config: Config, response: seq<byte>): Result<()>
    requires |response| == HANDSHAKE_REPLY_SIZE
  {
    if FromBE(response[..4]) != REQ_ID_HANDSHAKE_INITIATE then Err(InvalidRequestId)
    else if FromBE(response[8..12]) != 0 then Err(ErrorStatus)
    else if FromBE(response[12..16]) != PROTOCOL_VERSION then Err(UnsupportedProtocolVersion)
    else if FromBE(response[16..20]) != CRYPTO_SUITE_VERSION then Err(UnsupportedCryptoSuite)
    else if UuidBytes(config.agentId) != response[20..36] then Err(AgentVerification)
    else if config.agentPublicKey != response[36..68] then Err(AgentVerification)
    else Ok(())
  }

  /** handleHandshakeInitiateError, which always throws. */
  function InitiateError(incoming: seq<byte>, s: State, responseLength: int): (r: (State, Exception))
    ensures s.position <= |incoming| ==> s.position <= r.0.position <= |incoming|
  {
    if responseLength < 12 then (s, InvalidPayloadSize)
    else
      var (s', response) := Receive(incoming, s, responseLength);
      if response.Err? then (s', response.error) else (s', AgentVerification)
  }

  /** The rest of initiateHandshake, on the 164 bytes of the reply. The shared secret is in place from before
      the MAC check on, so it stays when that check fails. */
  function FinishInitiate(suite: Suite, s: State, config: Config, nonces: Nonces, response: seq<byte>)
    : (r: (State, Result<seq<byte>>))
    requires |response| == HANDSHAKE_REPLY_SIZE
    ensures r.0 == s.(secret := r.0.secret)
    ensures r.1.Ok? ==> r.0.secret.Some?
  {
    var checked := CheckReply(config, response);
    if checked.Err? then (s, Err(checked.error))
    else
      var secret := suite.shortTermSecret(config.entityPrivateKey, response[36..68], response[68..100], nonces.key);
      var s' := s.(secret := Some(secret));
      if suite.macShort(secret, response[..132] + nonces.challenge) != response[132..]
      then (s', Err(MessageVerification))
      else (s', Ok(response[100..132]))
  }

  /** initiateHandshake: returns the server's challenge. */
  function Initiate(suite: Suite, incoming: seq<byte>, s: State, config: Config, nonces: Nonces)
    : (r: (State, Result<seq<byte>>))
    ensures s.position <= |incoming| ==> s.position <= r.0.position <= |incoming|
    ensures r.1.Ok? ==> r.0.secret.Some?
  {
    var s0 := s.(sent := s.sent + DataPacket(InitiateRequest(config.entityId, nonces)));
    var (s1, header) := Receive(incoming, s0, HEADER_SIZE);
    if header.Err? then (s1, Err(header.error))
    else if header.value[0] != IPC_DATA_TYPE_DATA_PACKET then (s1, Err(InvalidPacketType))
    else
      var responseLength := FromSignedBE(header.value[1..]);
      if responseLength != HANDSHAKE_REPLY_SIZE then
        var (s2, error) := InitiateError(incoming, s1, responseLength);
        (s2, Err(error))
      else
        var (s2, received) := Receive(incoming, s1, HANDSHAKE_REPLY_SIZE);
        if received.Err? then (s2, Err(received.error))
        else
          FinishInitiate(suite, s2, config, nonces, received.value)
  }

  /** acknowledgeHandshake. */
  function Acknowledge(suite: Suite, incoming: seq<byte>, s: State, challenge: seq<byte>)
    : (r: (State, Result<()>))
    requires s.secret.Some?
    ensures s.position <= |incoming| ==> s.position <= r.0.position <= |incoming|
  {
    var key := s.secret.value;
    var (s', received) := ReceivePacket(suite, incoming, key,
                                        SendPacket(suite, key, s, suite.macShort(key, challenge)), TwelveExactly);
    if received.Err? then (s', Err(received.error))
    else if FromBE(received.value[..4]) != REQ_ID_HANDSHAKE_ACKNOWLEDGE then (s', Err(InvalidRequestId))
    else if FromBE(received.value[4..8]) != 0 then (s', Err(ErrorStatus))
    else (s', Ok(()))
  }

  function Handshake(suite: Suite, incoming: seq<byte>, s: State, config: Config, nonces: Nonces)
    : (r: (State, Result<()>))
    ensures s.position <= |incoming| ==> s.position <= r.0.position <= |incoming|
  {
    var (s', challenge) := Initiate(suite, incoming, s, config, nonces);
    if challenge.Err? then (s', Err(challenge.error))
    else Acknowledge(suite, incoming, s', challenge.value)
  }
}
