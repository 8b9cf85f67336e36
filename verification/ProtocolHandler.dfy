/** ProtocolHandlerImpl over a byte channel. */
module ProtocolHandler {
  import opened Bytes
  import opened Results
  import opened Uuids
  import opened ByteUtil
  import opened Vccrypt
  import opened OuterEnvelope
  import opened Protocol
  import opened Certificates
  import opened Session

  /** A connected DataChannel: the bytes that the agent sends, how far they were read, and the bytes
      sent to the agent. */
  class DataChannel {
    const incoming: seq<byte>
    var position: nat
    var sent: seq<byte>

    constructor (incoming: seq<byte>)
      ensures this.incoming == incoming && position == 0 && sent == []
    {
      this.incoming := incoming;
      position, sent := 0, [];
    }

    method Send(message: seq<byte>)
      modifies this`sent
      ensures sent == old(sent) + message
    {
      sent := sent + message;
    }

    /** recv, by DataInputStream.readFully. */
    method Recv(n: nat) returns (r: Result<seq<byte>>)
      requires position <= |incoming|
      modifies this`position
      ensures position == if old(position) + n <= |incoming| then old(position) + n else |incoming|
      ensures r == if old(position) + n <= |incoming| then Ok(incoming[old(position)..old(position) + n])
                   else Err(EndOfFile)
    {
      if position + n > |incoming| {
        position := |incoming|;
        return Err(EndOfFile);
      }
      position := position + n;
      r := Ok(incoming[position - n..position]);
    }
  }

  class ProtocolHandlerImpl {
    const suite: Suite
    const config: Config
    const dataChannel: DataChannel
    const outerEnvelopeReader: OuterEnvelopeReader
    const outerEnvelopeWriter: OuterEnvelopeWriter
    var sharedSecret: Option<Bytes32>

    constructor (suite: Suite, config: Config, dataChannel: DataChannel)
      requires dataChannel.position <= |dataChannel.incoming|
      ensures this.suite == suite && this.config == config && this.dataChannel == dataChannel
      ensures fresh(outerEnvelopeReader) && fresh(outerEnvelopeWriter) && Valid()
      ensures Now() == State(None, CLIENT_IV_START, SERVER_IV_START, dataChannel.sent, dataChannel.position)
    {
      this.suite, this.config, this.dataChannel := suite, config, dataChannel;
      outerEnvelopeReader := new OuterEnvelopeReader();
      outerEnvelopeWriter := new OuterEnvelopeWriter();
      sharedSecret := None;
    }

    ghost predicate Valid()
      reads dataChannel
    {
      dataChannel.position <= |dataChannel.incoming|
    }

    /** The abstract state of the session. */
    ghost function Now(): State
      reads this, dataChannel, outerEnvelopeReader, outerEnvelopeWriter
    {
      State(sharedSecret, outerEnvelopeWriter.iv, outerEnvelopeReader.iv, dataChannel.sent, dataChannel.position)
    }

    method Handshake(nonces: Nonces) returns (r: Result<()>)
      requires Valid()
      modifies this, dataChannel, outerEnvelopeReader, outerEnvelopeWriter
      ensures Valid()
      ensures (Now(), r) == Session.Handshake(suite, dataChannel.incoming, old(Now()), config, nonces)
    {
      var challenge :- InitiateHandshake(nonces);
      r := AcknowledgeHandshake(challenge);
    }

    /** The 96 bytes of the first request, filled in place. */
    method BuildInitiateRequest(nonces: Nonces) returns (bytes: seq<byte>)
      ensures bytes == InitiateRequest(config.entityId, nonces)
    {
      var request := new byte[96](_ => 0);
      ArrayCopy(Htonl(PROTOCOL_VERSION), request, 8);
      ArrayCopy(Htonl(CRYPTO_SUITE_VERSION), request, 12);
      ArrayCopy(UuidBytes(config.entityId), request, 16);
      ArrayCopy(nonces.key, request, 32);
      ArrayCopy(nonces.challenge, request, 64);
      bytes := request[..];
    }

    method SendInitiateRequest(nonces: Nonces)
      modifies dataChannel`sent
      ensures dataChannel.sent == old(dataChannel.sent) + DataPacket(InitiateRequest(config.entityId, nonces))
    {
      var request := BuildInitiateRequest(nonces);
      var requestHeader := new byte[5](_ => 0);
      requestHeader[0] := IPC_DATA_TYPE_DATA_PACKET;
      ArrayCopy(Htonl(|request|), requestHeader, 1);
      assert requestHeader[..] == [IPC_DATA_TYPE_DATA_PACKET] + Htonl(|request|);
      var packet := Merge(requestHeader[..], request);
      dataChannel.Send(packet);
    }

    method InitiateHandshake(nonces: Nonces) returns (r: Result<seq<byte>>)
      requires Valid()
      modifies this, dataChannel
      ensures Valid()
      ensures (Now(), r) == Initiate(suite, dataChannel.incoming, old(Now()), config, nonces)
    {
      SendInitiateRequest(nonces);
      var responseHeader :- dataChannel.Recv(5);
      if responseHeader[0] != IPC_DATA_TYPE_DATA_PACKET {
        return Err(InvalidPacketType);
      }
      var responseLength := FromSignedBE(responseHeader[1..]);
      if responseLength != 164 {
        r := HandleHandshakeInitiateError(responseLength);
        return;
      }
      var response :- dataChannel.Recv(responseLength);
      r := CheckHandshakeReply(nonces, response);
    }

    method HandleHandshakeInitiateError(responseLength: int) returns (r: Result<seq<byte>>)
      requires Valid()
      modifies dataChannel`position
      ensures Valid()
      ensures var e := InitiateError(dataChannel.incoming, old(Now()), responseLength);
              Now() == e.0 && r == Err(e.1)
    {
      if responseLength < 12 {
        return Err(InvalidPayloadSize);
      }
      var response :- dataChannel.Recv(responseLength);
      r := Err(AgentVerification);
    }

    /** The rest of initiateHandshake, on the 164 bytes of the reply. */
    method CheckHandshakeReply(nonces: Nonces, response: seq<byte>) returns (r: Result<seq<byte>>)
      requires |response| == HANDSHAKE_REPLY_SIZE
      modifies this
      ensures (Now(), r) == FinishInitiate(suite, old(Now()), config, nonces, response)
    {
      var requestId := Ntohl(response[0..4]).value;
      if requestId != REQ_ID_HANDSHAKE_INITIATE {
        return Err(InvalidRequestId);
      }
      var status := Ntohl(response[8..12]).value;
      if status != 0 {
        return Err(ErrorStatus);
      }
      var protocolVersion := Ntohl(response[12..16]).value;
      if protocolVersion != PROTOCOL_VERSION {
        return Err(UnsupportedProtocolVersion);
      }
      var cryptoSuiteVersion := Ntohl(response[16..20]).value;
      if cryptoSuiteVersion != CRYPTO_SUITE_VERSION {
        return Err(UnsupportedCryptoSuite);
      }
      var sameId := ConstantTimeEqual(Some(UuidBytes(config.agentId)), Some(response[20..36]));
      if !sameId {
        return Err(AgentVerification);
      }
      var serverPublicKey := response[36..68];
      var sameKey := ConstantTimeEqual(Some(config.agentPublicKey), Some(serverPublicKey));
      if !sameKey {
        return Err(AgentVerification);
      }
      var secret := suite.shortTermSecret(config.entityPrivateKey, serverPublicKey, response[68..100], nonces.key);
      sharedSecret := Some(secret);
      var hmacParts := [response[0..132], nonces.challenge];
      var computedHMAC := DigestArray(suite, secret, hmacParts, true);
      assert Flatten(hmacParts) == response[..132] + nonces.challenge by {
        assert hmacParts[1..] == [nonces.challenge];
        assert Flatten([nonces.challenge]) == nonces.challenge + Flatten([nonces.challenge][1..]);
      }
      assert response[132..164] == response[132..];
      var sameMac := ConstantTimeEqual(Some(computedHMAC), Some(response[132..164]));
      if !sameMac {
        return Err(MessageVerification);
      }
      r := Ok(response[100..132]);
    }

    method AcknowledgeHandshake(serverChallengeNonce: seq<byte>) returns (r: Result<()>)
      requires Valid() && sharedSecret.Some?
      modifies dataChannel, outerEnvelopeReader, outerEnvelopeWriter
      ensures Valid()
      ensures (Now(), r) == Acknowledge(suite, dataChannel.incoming, old(Now()), serverChallengeNonce)
    {
      var sent := SendRequest(suite.macShort(sharedSecret.value, serverChallengeNonce));
      var decryptedPayload :- ReadPacket(TwelveExactly);
      var requestId := Ntohl(decryptedPayload[0..4]).value;
      if requestId != REQ_ID_HANDSHAKE_ACKNOWLEDGE {
        return Err(InvalidRequestId);
      }
      var status := Ntohl(decryptedPayload[4..8]).value;
      if status != 0 {
        return Err(ErrorStatus);
      }
      r := Ok(());
    }

    /** A request is encrypted under the shared secret and sent; without a secret nothing is sent. */
    method SendRequest(request: seq<byte>) returns (r: Result<()>)
      requires Valid()
      modifies dataChannel`sent, outerEnvelopeWriter
      ensures Valid()
      ensures r == if sharedSecret.None? then Err(NullPointer) else Ok(())
      ensures Now() == if sharedSecret.None? then old(Now())
                       else SendPacket(suite, sharedSecret.value, old(Now()), request)
    {
      var packet :- outerEnvelopeWriter.EncryptPayload(suite, sharedSecret, request);
      dataChannel.Send(packet);
      r := Ok(());
    }

    /** MAC and payload. The methods that expect exactly twelve bytes receive them in two pieces. */
    method ReceiveRest(rule: SizeRule, payloadSize: nat) returns (r: Result<seq<byte>>)
      requires Valid()
      modifies dataChannel`position
      ensures Valid()
      ensures (Now(), r) == Receive(dataChannel.incoming, old(Now()), payloadSize + MAC_SHORT_SIZE)
    {
      if rule.TwelveExactly? {
        ghost var incoming, start := dataChannel.incoming, dataChannel.position;
        var responseHMAC :- dataChannel.Recv(32);
        var encryptedPayloadTail :- dataChannel.Recv(payloadSize);
        assert incoming[start..start + 32] + incoming[start + 32..start + 32 + payloadSize]
            == incoming[start..start + 32 + payloadSize];
        r := Ok(responseHMAC + encryptedPayloadTail);
      } else {
        r := dataChannel.Recv(payloadSize + 32);
      }
    }

    /** A header of an accepted size. */
    method ReadHeader(rule: SizeRule) returns (r: Result<(seq<byte>, nat)>)
      requires Valid() && sharedSecret.Some?
      modifies dataChannel`position
      ensures Valid()
      ensures (Now(), r)
           == ReceiveHeader(Headers(suite, sharedSecret.value, outerEnvelopeReader.iv), dataChannel.incoming,
                            old(Now()), rule)
    {
      var header :- dataChannel.Recv(5);
      var payloadSize :- outerEnvelopeReader.DecryptHeader(suite, sharedSecret.value, header);
      if !rule.Accepts(payloadSize) {
        return Err(InvalidPayloadSize);
      }
      r := Ok((header, payloadSize));
    }

    method ReadPieces(rule: SizeRule) returns (r: Result<(seq<byte>, seq<byte>)>)
      requires Valid() && sharedSecret.Some?
      modifies dataChannel`position
      ensures Valid()
      ensures (Now(), r)
           == ReceivePieces(Headers(suite, sharedSecret.value, outerEnvelopeReader.iv), dataChannel.incoming,
                            old(Now()), rule)
    {
      var header :- ReadHeader(rule);
      var encryptedPayload :- ReceiveRest(rule, header.1);
      r := Ok((header.0, encryptedPayload));
    }

    /** The start of every reading method: header, size check, MAC and payload, decryption. */
    method ReadPacket(rule: SizeRule) returns (r: Result<seq<byte>>)
      requires Valid() && sharedSecret.Some?
      modifies dataChannel`position, outerEnvelopeReader
      ensures Valid()
      ensures (Now(), r) == ReceivePacket(suite, dataChannel.incoming, sharedSecret.value, old(Now()), rule)
    {
      var pieces :- ReadPieces(rule);
      r := outerEnvelopeReader.DecryptPayload(suite, sharedSecret.value, pieces.0, pieces.1);
    }

    // ----- writing requests

    /** Request id and offset, which every request starts with. */
    method PutRequestHeader(requestId: int, request: array<byte>)
      requires request.Length >= 8
      modifies request
      ensures request[..] == Htonl(requestId) + Htonl(0) + old(request[8..])
    {
      ArrayCopy(Htonl(requestId), request, 0);
      ArrayCopy(Htonl(0), request, 4);
    }

    /** Filling a buffer with three arguments behind its first eight bytes. */
    static lemma FillArguments(start: seq<byte>, a: seq<byte>, b: seq<byte>, c: seq<byte>)
      requires |start| == 40 + |c| && |a| == 16 && |b| == 16
      ensures Splice(Splice(Splice(start, 8, a), 24, b), 40, c) == start[..8] + (a + b + c)
    {
    }

    method WriteSubmitRequest(transactionId: UUID, artifactId: UUID, certificateBytes: seq<byte>)
      requires Valid() && sharedSecret.Some?
      modifies dataChannel`sent, outerEnvelopeWriter
      ensures Valid()
      ensures Now() == SendPacket(suite, sharedSecret.value, old(Now()),
                                  RequestBytes(SubmitRequest(transactionId, artifactId, certificateBytes)))
    {
      var request := new byte[|certificateBytes| + 40](_ => 0);
      PutRequestHeader(REQ_ID_TRANSACTION_SUBMIT, request);
      ghost var start := request[..];
      ArrayCopy(UuidBytes(transactionId), request, 8);
      ArrayCopy(UuidBytes(artifactId), request, 24);
      ArrayCopy(certificateBytes, request, 40);
      FillArguments(start, UuidBytes(transactionId), UuidBytes(artifactId), certificateBytes);
      assert request[..] == RequestBytes(SubmitRequest(transactionId, artifactId, certificateBytes));
      var sent := SendRequest(request[..]);
    }

    /** writeGetLatestBlockIdRequest and writeGetConnectionStatus. */
    method WriteBareRequest(query: Query) returns (r: Result<()>)
      requires Valid() && (query.LatestBlockId? || query.ConnectionStatus?)
      modifies dataChannel`sent, outerEnvelopeWriter
      ensures Valid() && r == if sharedSecret.None? then Err(NullPointer) else Ok(())
      ensures Now() == if sharedSecret.None? then old(Now())
                       else SendPacket(suite, sharedSecret.value, old(Now()), RequestBytes(QueryRequest(query)))
    {
      var request := new byte[8](_ => 0);
      PutRequestHeader(RequestId(QueryRequest(query)), request);
      assert request[..] == RequestBytes(QueryRequest(query));
      r := SendRequest(request[..]);
    }

    /** The nine writing methods whose request is 24 bytes with a UUID at 8. */
    method WriteIdRequest(kind: IdQuery, id: UUID)
      requires Valid() && sharedSecret.Some?
      modifies dataChannel`sent, outerEnvelopeWriter
      ensures Valid()
      ensures Now() == SendPacket(suite, sharedSecret.value, old(Now()), RequestBytes(QueryRequest(ById(kind, id))))
    {
      var request := new byte[24](_ => 0);
      PutRequestHeader(IdQueryId(kind), request);
      ArrayCopy(UuidBytes(id), request, 8);
      assert request[..] == RequestBytes(QueryRequest(ById(kind, id)));
      var sent := SendRequest(request[..]);
    }

    method WriteGetBlockIdByBlockHeight(height: long)
      requires Valid() && sharedSecret.Some?
      modifies dataChannel`sent, outerEnvelopeWriter
      ensures Valid()
      ensures Now() == SendPacket(suite, sharedSecret.value, old(Now()),
                                  RequestBytes(QueryRequest(BlockIdByHeight(height))))
    {
      var request := new byte[16](_ => 0);
      PutRequestHeader(REQ_ID_BLOCK_ID_BY_HEIGHT_GET, request);
      ArrayCopy(Htonll(height), request, 8);
      assert request[..] == RequestBytes(QueryRequest(BlockIdByHeight(height)));
      var sent := SendRequest(request[..]);
    }

    // ----- reading replies

    method ReadSubmitResponse(ghost request: Request) returns (r: Result<Answer>)
      requires Valid() && sharedSecret.Some? && request.SubmitRequest?
      modifies dataChannel`position, outerEnvelopeReader
      ensures Valid()
      ensures (Now(), r) == ReceiveReply(suite, dataChannel.incoming, sharedSecret.value, old(Now()), request)
    {
      var decryptedPayload :- ReadPacket(TwelveExactly);
      var requestId := Ntohl(decryptedPayload[0..4]).value;
      if requestId != REQ_ID_TRANSACTION_SUBMIT {
        return Err(InvalidRequestId);
      }
      var status := Ntohl(decryptedPayload[4..8]).value;
      r := Ok(Submitted);
    }

    method ReadGetLatestBlockIdResponse() returns (r: Result<Answer>)
      requires Valid() && sharedSecret.Some?
      modifies dataChannel`position, outerEnvelopeReader
      ensures Valid()
      ensures (Now(), r) == ReceiveReply(suite, dataChannel.incoming, sharedSecret.value, old(Now()),
                                         QueryRequest(LatestBlockId))
    {
      var decryptedPayload :- ReadPacket(TwelveOrTwentyEight);
      var requestId := Ntohl(decryptedPayload[0..4]).value;
      if requestId != REQ_ID_LATEST_BLOCK_ID_GET {
        return Err(InvalidRequestId);
      }
      var status := Ntohl(decryptedPayload[4..8]).value;
      if status != 0 {
        return Err(IO);
      }
      if |decryptedPayload| != 28 {
        return Err(InvalidPayloadSize);
      }
      r := Ok(Id(UuidFromBytes(decryptedPayload[12..28])));
    }

    /** The two reading methods that return a certificate. */
    method ReadCertificateResponse(kind: IdQuery, ghost id: UUID) returns (r: Result<Answer>)
      requires Valid() && sharedSecret.Some? && (kind.BlockById? || kind.TransactionById?)
      modifies dataChannel`position, outerEnvelopeReader
      ensures Valid()
      ensures (Now(), r) == ReceiveReply(suite, dataChannel.incoming, sharedSecret.value, old(Now()),
                                         QueryRequest(ById(kind, id)))
    {
      var decryptedPayload :- ReadPacket(TwelveAtLeast);
      var payloadSize := |decryptedPayload|;
      var requestId := Ntohl(decryptedPayload[0..4]).value;
      if requestId != IdQueryId(kind) {
        return Err(InvalidRequestId);
      }
      var status := Ntohl(decryptedPayload[4..8]).value;
      if status != 0 {
        return Ok(MaybeCertificate(None));
      }
      var payloadHeaderSize := if kind.BlockById? then BLOCK_HEADER_SIZE else TRANSACTION_HEADER_SIZE;
      if payloadSize <= payloadHeaderSize {
        return Ok(MaybeCertificate(None));
      }
      DropToEnd(decryptedPayload, payloadHeaderSize);
      r := Ok(MaybeCertificate(Some(decryptedPayload[payloadHeaderSize..payloadSize])));
    }

    /** The eight reading methods that return an optional UUID. */
    method ReadIdResponse(requestIdExpected: int, ghost request: Request) returns (r: Result<Answer>)
      requires Valid() && sharedSecret.Some?
      requires AsksForId(request) && requestIdExpected == RequestId(request)
      modifies dataChannel`position, outerEnvelopeReader
      ensures Valid()
      ensures (Now(), r) == ReceiveReply(suite, dataChannel.incoming, sharedSecret.value, old(Now()), request)
    {
      var decryptedPayload :- ReadPacket(TwelveAtLeast);
      var requestId := Ntohl(decryptedPayload[0..4]).value;
      if requestId != requestIdExpected {
        return Err(InvalidRequestId);
      }
      var status := Ntohl(decryptedPayload[4..8]).value;
      if status != 0 {
        return Ok(MaybeId(None));
      }
      if |decryptedPayload| < ID_REPLY_SIZE {
        return Ok(MaybeId(None));
      }
      r := Ok(MaybeId(Some(UuidFromBytes(decryptedPayload[12..28]))));
    }

    method ReadGetConnectionStatus() returns (r: Result<Answer>)
      requires Valid() && sharedSecret.Some?
      modifies dataChannel`position, outerEnvelopeReader
      ensures Valid()
      ensures (Now(), r) == ReceiveReply(suite, dataChannel.incoming, sharedSecret.value, old(Now()),
                                         QueryRequest(ConnectionStatus))
    {
      var decryptedPayload :- ReadPacket(TwelveAtLeast);
      var requestId := Ntohl(decryptedPayload[0..4]).value;
      if requestId != REQ_ID_STATUS_GET {
        return Err(InvalidRequestId);
      }
      var status := Ntohl(decryptedPayload[4..8]).value;
      r := Ok(Status(if status != 0 then 1 else 0));
    }

    // ----- the API

    method Submit(transaction: seq<byte>) returns (r: Result<Answer>)
      requires Valid()
      modifies dataChannel, outerEnvelopeReader, outerEnvelopeWriter
      ensures Valid()
      ensures (Now(), r) == Step(suite, dataChannel.incoming, old(Now()), Call.Submit(transaction))
    {
      if sharedSecret.None? {
        return Err(Connect);
      }
      var ids :- SubmitIds(transaction);
      WriteSubmitRequest(ids.0, ids.1, transaction);
      r := ReadSubmitResponse(SubmitRequest(ids.0, ids.1, transaction));
    }

    /** The part of submit that reads the transaction and artifact ids out of the certificate. */
    method SubmitIds(transaction: seq<byte>) returns (r: Result<(UUID, UUID)>)
      ensures RequestOf(Call.Submit(transaction))
           == if r.Err? then Err(r.error) else Ok(SubmitRequest(r.value.0, r.value.1, transaction))
    {
      var parser := new CertificateParser(transaction);
      assert transaction[..|transaction|] == transaction;
      var certFields :- parser.Parse();
      var reader := CertificateReader(certFields);
      var transactionId := reader.GetFirst(CERTIFICATE_ID);
      if transactionId.Err? || |transactionId.value| != 16 {
        return Err(IO);
      }
      var artifactId := reader.GetFirst(ARTIFACT_ID);
      if artifactId.Err? || |artifactId.value| != 16 {
        return Err(IO);
      }
      r := Ok((UuidFromBytes(transactionId.value), UuidFromBytes(artifactId.value)));
    }

    method GetLatestBlockId() returns (r: Result<Answer>)
      requires Valid()
      modifies dataChannel, outerEnvelopeReader, outerEnvelopeWriter
      ensures Valid()
      ensures (Now(), r) == Step(suite, dataChannel.incoming, old(Now()), Ask(LatestBlockId))
    {
      if sharedSecret.None? {
        return Err(Connect);
      }
      var written := WriteBareRequest(LatestBlockId);
      r := ReadGetLatestBlockIdResponse();
    }

    /** The nine queries by UUID, which differ in their request id and in what they return. */
    method GetById(kind: IdQuery, id: UUID) returns (r: Result<Answer>)
      requires Valid()
      modifies dataChannel, outerEnvelopeReader, outerEnvelopeWriter
      ensures Valid()
      ensures (Now(), r) == Step(suite, dataChannel.incoming, old(Now()), Ask(ById(kind, id)))
    {
      if sharedSecret.None? {
        return Err(Connect);
      }
      WriteIdRequest(kind, id);
      if kind.BlockById? || kind.TransactionById? {
        r := ReadCertificateResponse(kind, id);
      } else {
        r := ReadIdResponse(IdQueryId(kind), QueryRequest(ById(kind, id)));
      }
    }

    method GetBlockIdByBlockHeight(height: long) returns (r: Result<Answer>)
      requires Valid()
      modifies dataChannel, outerEnvelopeReader, outerEnvelopeWriter
      ensures Valid()
      ensures (Now(), r) == Step(suite, dataChannel.incoming, old(Now()), Ask(BlockIdByHeight(height)))
    {
      if sharedSecret.None? {
        return Err(Connect);
      }
      WriteGetBlockIdByBlockHeight(height);
      r := ReadIdResponse(REQ_ID_BLOCK_ID_BY_HEIGHT_GET, QueryRequest(BlockIdByHeight(height)));
    }

    /** getConnectionStatus has no guard of its own. */
    method GetConnectionStatus() returns (r: Result<Answer>)
      requires Valid()
      modifies dataChannel, outerEnvelopeReader, outerEnvelopeWriter
      ensures Valid()
      ensures (Now(), r) == Step(suite, dataChannel.incoming, old(Now()), Ask(ConnectionStatus))
    {
      var written :- WriteBareRequest(ConnectionStatus);
      r := ReadGetConnectionStatus();
    }
  }
}
