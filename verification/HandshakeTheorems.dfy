/** What a completed handshake means, on both sides. */
module HandshakeTheorems {
  import opened Bytes
  import opened Results
  import Uuids
  import opened ByteUtil
  import opened Vccrypt
  import opened OuterEnvelope
  import opened Protocol
  import opened Session
  import opened SessionTheorems

  type Bytes4 = s: seq<byte> | |s| == 4 witness Zeros(4)

  /** What the agent is free to choose in its two messages. */
  datatype Choices = Choices(offset: Bytes4, keyNonce: Bytes32, challenge: Bytes32, tail: Bytes4)

  /** The first reply without its MAC. */
  function ReplyFields(agentId: Uuids.UUID, agentPublicKey: Bytes32, c: Choices): (s: seq<byte>)
    ensures |s| == 132
  {
    Htonl(REQ_ID_HANDSHAKE_INITIATE) + c.offset + Htonl(0) + Htonl(PROTOCOL_VERSION) + Htonl(CRYPTO_SUITE_VERSION)
    + Uuids.UuidBytes(agentId) + agentPublicKey + c.keyNonce + c.challenge
  }

  /** The first reply, which proves knowledge of the secret by a MAC over itself and the client's challenge. */
  function FirstReply(suite: Suite, secret: Bytes32, agentId: Uuids.UUID, agentPublicKey: Bytes32, c: Choices,
                      clientChallenge: Bytes32): (s: seq<byte>)
    ensures |s| == HANDSHAKE_REPLY_SIZE
  {
    var replyFields := ReplyFields(agentId, agentPublicKey, c);
    replyFields + suite.macShort(secret, replyFields + clientChallenge)
  }

  /** The payload of the second reply. */
  function Acknowledgement(c: Choices): (s: seq<byte>)
    ensures |s| == 12
  {
    Htonl(REQ_ID_HANDSHAKE_ACKNOWLEDGE) + Htonl(0) + c.tail
  }

  /** The secret that the client computes from a key nonce. */
  function ClientSecret(suite: Suite, config: Config, nonces: Nonces, keyNonce: Bytes32): Bytes32 {
    suite.shortTermSecret(config.entityPrivateKey, config.agentPublicKey, keyNonce, nonces.key)
  }

  /** Both messages of an agent whose counter stands at iv. */
  function AgentMessages(suite: Suite, secret: Bytes32, agentId: Uuids.UUID, agentPublicKey: Bytes32, c: Choices,
                         clientChallenge: Bytes32, iv: ulong): seq<byte> {
    DataPacket(FirstReply(suite, secret, agentId, agentPublicKey, c, clientChallenge))
    + Packet(suite, secret, iv, Acknowledgement(c))
  }

  // ----- the request in the clear

  lemma SixParts(a: seq<byte>, b: seq<byte>, c: seq<byte>, d: seq<byte>, e: seq<byte>, f: seq<byte>)
    requires |a| == 8 && |b| == |c| == 4 && |d| == 16 && |e| == |f| == 32
    ensures var s := a + b + c + d + e + f;
            && s[..4] == a[..4] && s[4..8] == a[4..] && s[8..12] == b && s[12..16] == c && s[16..32] == d
            && s[32..64] == e && s[64..96] == f
  {
  }

  /** The fields of the client's first message at their offsets. */
  ghost predicate IsInitiateRequest(request: seq<byte>, entityId: Uuids.UUID, nonces: Nonces) {
    && |request| == 96
    && request[..4] == [0, 0, 0, 0] && request[4..8] == [0, 0, 0, 0]
    && request[8..12] == [0, 0, 0, 1] && request[12..16] == [0, 0, 0, 1]
    && request[16..32] == Uuids.UuidBytes(entityId)
    && request[32..64] == nonces.key && request[64..96] == nonces.challenge
  }

  /** The request id and the offset are zero, both versions are 1, and then come the connecting entity's id and the
      two nonces. */
  lemma InitiateLayout(entityId: Uuids.UUID, nonces: Nonces)
    ensures IsInitiateRequest(InitiateRequest(entityId, nonces), entityId, nonces)
  {
    SmallNumber(PROTOCOL_VERSION, 0, 1);
    SmallNumber(CRYPTO_SUITE_VERSION, 0, 1);
    SixParts(Zeros(8), Htonl(PROTOCOL_VERSION), Htonl(CRYPTO_SUITE_VERSION), Uuids.UuidBytes(entityId), nonces.key,
             nonces.challenge);
    assert Zeros(8)[..4] == [0, 0, 0, 0] && Zeros(8)[4..] == [0, 0, 0, 0];
  }

  /** A message in the clear: the type 0x20, the size in four bytes, the content. */
  lemma DataPacketLayout(content: seq<byte>, a: byte, b: byte, c: byte, d: byte)
    requires |content| == 0x100_0000 * a as int + 0x1_0000 * b as int + 256 * c as int + d as int
    ensures DataPacket(content) == [0x20, a, b, c, d] + content
  {
    FourBytesOf(|content|, a, b, c, d);
    assert [0x20] + [a, b, c, d] == [0x20, a, b, c, d];
  }

  // ----- the first round

  lemma NineParts(a: seq<byte>, b: seq<byte>, c: seq<byte>, d: seq<byte>, e: seq<byte>, f: seq<byte>, g: seq<byte>,
                  h: seq<byte>, i: seq<byte>, r: seq<byte>)
    requires |a| == |b| == |c| == |d| == |e| == 4 && |f| == 16 && |g| == |h| == |i| == 32 && |r| >= 132
    ensures r[..132] == a + b + c + d + e + f + g + h + i
       <==> r[..4] == a && r[4..8] == b && r[8..12] == c && r[12..16] == d && r[16..20] == e && r[20..36] == f
            && r[36..68] == g && r[68..100] == h && r[100..132] == i
  {
    var whole := a + b + c + d + e + f + g + h + i;
    assert whole[..4] == a && whole[4..8] == b && whole[8..12] == c && whole[12..16] == d && whole[16..20] == e
        && whole[20..36] == f && whole[36..68] == g && whole[68..100] == h && whole[100..132] == i;
    assert r[..132] == r[..4] + r[4..8] + r[8..12] + r[12..16] + r[16..20] + r[20..36] + r[36..68] + r[68..100]
                       + r[100..132];
    var p := r[..132];
    assert p[..4] == r[..4] && p[4..8] == r[4..8] && p[8..12] == r[8..12] && p[12..16] == r[12..16]
        && p[16..20] == r[16..20] && p[20..36] == r[20..36] && p[36..68] == r[36..68] && p[68..100] == r[68..100]
        && p[100..132] == r[100..132];
  }

  /** What a reply of 164 bytes says about the agent's choices. */
  function ChoicesOf(response: seq<byte>, tail: Bytes4): Choices
    requires |response| == HANDSHAKE_REPLY_SIZE
  {
    Choices(response[4..8], response[68..100], response[100..132], tail)
  }

  /** The field checks of the first round pass exactly for the fields of the configured agent. */
  lemma CheckReplyIff(config: Config, response: seq<byte>, c: Choices)
    requires |response| == HANDSHAKE_REPLY_SIZE
    ensures response[..132] == ReplyFields(config.agentId, config.agentPublicKey, c)
       <==> CheckReply(config, response).Ok? && c == ChoicesOf(response, c.tail)
  {
    NineParts(Htonl(0), c.offset, Htonl(0), Htonl(1), Htonl(1), Uuids.UuidBytes(config.agentId), config.agentPublicKey,
              c.keyNonce, c.challenge, response);
    NtohlIs(response[..4], 0);
    NtohlIs(response[8..12], 0);
    NtohlIs(response[12..16], 1);
    NtohlIs(response[16..20], 1);
  }

  /** Which check refuses a first reply, by the bytes at its offsets. */
  lemma CheckReplyVerdict(config: Config, response: seq<byte>)
    requires |response| == 164
    ensures CheckReply(config, response)
         == if response[..4] != [0, 0, 0, 0] then Err(InvalidRequestId)
            else if response[8..12] != [0, 0, 0, 0] then Err(ErrorStatus)
            else if response[12..16] != [0, 0, 0, 1] then Err(UnsupportedProtocolVersion)
            else if response[16..20] != [0, 0, 0, 1] then Err(UnsupportedCryptoSuite)
            else if response[20..36] != Uuids.UuidBytes(config.agentId) then Err(AgentVerification)
            else if response[36..68] != config.agentPublicKey then Err(AgentVerification)
            else Ok(())
  {
    Spells(response[..4], 0);
    Spells(response[8..12], 0);
    Spells(response[12..16], 1);
    Spells(response[16..20], 1);
  }

  lemma Spells(s: seq<byte>, d: byte)
    requires |s| == 4
    ensures FromBE(s) == d as int <==> s == [0, 0, 0, d]
  {
    NtohlIs(s, d as int);
    SmallNumber(d as int, 0, d);
  }

  /** The 164 bytes of the first reply, if a first reply of that size is next. */
  ghost predicate ReplyIs(pending: seq<byte>, response: seq<byte>) {
    |response| == HANDSHAKE_REPLY_SIZE && DataPacket(response) <= pending
  }

  lemma CutReply(incoming: seq<byte>, at: nat, response: seq<byte>)
    requires at <= |incoming| && |response| == HANDSHAKE_REPLY_SIZE
    ensures ReplyIs(incoming[at..], response)
       <==> at + 169 <= |incoming| && incoming[at] == IPC_DATA_TYPE_DATA_PACKET
            && incoming[at + 1..at + 5] == Htonl(164) && incoming[at + 5..at + 169] == response
  {
    var packet := DataPacket(response);
    assert packet[0] == IPC_DATA_TYPE_DATA_PACKET && packet[1..5] == Htonl(164) && packet[5..] == response;
    if at + 169 <= |incoming| {
      var cut := incoming[at..][..169];
      assert cut == [incoming[at]] + incoming[at + 1..at + 5] + incoming[at + 5..at + 169];
      assert cut[0] == incoming[at] && cut[1..5] == incoming[at + 1..at + 5] && cut[5..] == incoming[at + 5..at + 169];
    }
  }

  lemma SizeIs164(size: seq<byte>)
    requires |size| == 4
    ensures FromSignedBE(size) == 164 <==> size == Htonl(164)
  {
    Pow256Values();
    SignedRoundTrip(164, 4);
    SignedBytesRoundTrip(size);
  }

  /** The state and outcome of the first round, by the reply that comes in. */
  lemma InitiateOnReply(suite: Suite, incoming: seq<byte>, s: State, config: Config, nonces: Nonces,
                        response: seq<byte>)
    requires s.position <= |incoming| && ReplyIs(incoming[s.position..], response)
    ensures var checked := CheckReply(config, response);
            var secret := ClientSecret(suite, config, nonces, response[68..100]);
            var s1 := s.(sent := s.sent + DataPacket(InitiateRequest(config.entityId, nonces)),
                         position := s.position + 169);
            Initiate(suite, incoming, s, config, nonces)
            == if checked.Err? then (s1, Err(checked.error))
               else (s1.(secret := Some(secret)),
                     if suite.macShort(secret, response[..132] + nonces.challenge) == response[132..]
                     then Ok(response[100..132]) else Err(MessageVerification))
  {
    var at := s.position;
    CutReply(incoming, at, response);
    var header := incoming[at..at + 5];
    assert header[0] == incoming[at] && header[1..] == incoming[at + 1..at + 5];
    SizeIs164(header[1..]);
  }

  /** The first round changes the secret only on a reply of 164 bytes. */
  lemma InitiateWithoutReply(suite: Suite, incoming: seq<byte>, s: State, config: Config, nonces: Nonces)
    requires s.position <= |incoming|
    requires forall response :: !ReplyIs(incoming[s.position..], response)
    ensures var (s', r) := Initiate(suite, incoming, s, config, nonces);
            s'.secret == s.secret && r.Err?
  {
    var at := s.position;
    if at + 169 <= |incoming| {
      var header := incoming[at..at + 5];
      assert header[0] == incoming[at] && header[1..] == incoming[at + 1..at + 5];
      SizeIs164(header[1..]);
      CutReply(incoming, at, incoming[at + 5..at + 169]);
    }
  }

  /** The first round succeeds exactly on the first reply of the configured agent, made with the secret. */
  lemma FirstReplyIff(suite: Suite, config: Config, nonces: Nonces, response: seq<byte>, c: Choices)
    requires |response| == HANDSHAKE_REPLY_SIZE
    ensures response == FirstReply(suite, ClientSecret(suite, config, nonces, c.keyNonce), config.agentId,
                                   config.agentPublicKey, c, nonces.challenge)
       <==> CheckReply(config, response).Ok? && c == ChoicesOf(response, c.tail)
            && suite.macShort(ClientSecret(suite, config, nonces, c.keyNonce), response[..132] + nonces.challenge)
               == response[132..]
  {
    CheckReplyIff(config, response, c);
    assert response == response[..132] + response[132..];
    var secret := ClientSecret(suite, config, nonces, c.keyNonce);
    var whole := FirstReply(suite, secret, config.agentId, config.agentPublicKey, c, nonces.challenge);
    assert whole[..132] == ReplyFields(config.agentId, config.agentPublicKey, c);
    assert whole[132..] == suite.macShort(secret, whole[..132] + nonces.challenge);
  }

  // ----- the second round

  lemma AcknowledgementIff(payload: seq<byte>, c: Choices)
    requires |payload| == 12
    ensures payload == Acknowledgement(c)
       <==> FromBE(payload[..4]) == REQ_ID_HANDSHAKE_ACKNOWLEDGE && FromBE(payload[4..8]) == 0 && payload[8..] == c.tail
  {
    NtohlIs(payload[..4], REQ_ID_HANDSHAKE_ACKNOWLEDGE);
    NtohlIs(payload[4..8], 0);
    assert payload == payload[..4] + payload[4..8] + payload[8..];
    var whole := Acknowledgement(c);
    assert whole[..4] == Htonl(1) && whole[4..8] == Htonl(0) && whole[8..] == c.tail;
  }

  /** What the second round makes of an authentic packet of twelve bytes. */
  lemma AcknowledgeVerdict(suite: Suite, incoming: seq<byte>, key: Bytes32, s: State, challenge: seq<byte>,
                           payload: seq<byte>)
    requires Connected(incoming, key, s) && |payload| == 12
    requires NextIs(suite, key, s.readerIv, incoming[s.position..], payload)
    ensures Acknowledge(suite, incoming, s, challenge).1
         == if payload[..4] != [0, 0, 0, 1] then Err(InvalidRequestId)
            else if payload[4..8] != [0, 0, 0, 0] then Err(ErrorStatus)
            else Ok(())
  {
    var s0 := SendPacket(suite, key, s, suite.macShort(key, challenge));
    PacketConsumed(suite, incoming, key, s0, TwelveExactly, payload);
    Spells(payload[..4], 1);
    Spells(payload[4..8], 0);
  }

  /** The second round succeeds on the agent's acknowledgement under the shared secret. */
  lemma AcknowledgeAccepts(suite: Suite, incoming: seq<byte>, key: Bytes32, s: State, challenge: seq<byte>, c: Choices)
    requires Connected(incoming, key, s)
    requires NextIs(suite, key, s.readerIv, incoming[s.position..], Acknowledgement(c))
    ensures Acknowledge(suite, incoming, s, challenge)
         == (s.(sent := s.sent + Packet(suite, key, s.writerIv, suite.macShort(key, challenge)),
                writerIv := Next(s.writerIv), readerIv := Next(s.readerIv), position := s.position + 49),
             Ok(()))
  {
    var s0 := SendPacket(suite, key, s, suite.macShort(key, challenge));
    PacketConsumed(suite, incoming, key, s0, TwelveExactly, Acknowledgement(c));
    AcknowledgementIff(Acknowledgement(c), c);
  }

  /** The second round succeeds only on an acknowledgement under the shared secret. */
  lemma AcknowledgeOnly(suite: Suite, incoming: seq<byte>, key: Bytes32, s: State, challenge: seq<byte>)
    returns (tail: Bytes4)
    requires Connected(incoming, key, s) && Acknowledge(suite, incoming, s, challenge).1.Ok?
    ensures forall c: Choices | c.tail == tail ::
              NextIs(suite, key, s.readerIv, incoming[s.position..], Acknowledgement(c))
  {
    var s0 := SendPacket(suite, key, s, suite.macShort(key, challenge));
    var payload := ReceivePacket(suite, incoming, key, s0, TwelveExactly).1.value;
    PacketReceivedIff(suite, incoming, key, s0, TwelveExactly, payload);
    tail := payload[8..];
    forall c: Choices | c.tail == tail ensures payload == Acknowledgement(c) {
      AcknowledgementIff(payload, c);
    }
  }

  // ----- the handshake

  /** The bytes to be read are those of the configured agent, which knows the secret. */
  ghost predicate Transcript(suite: Suite, config: Config, nonces: Nonces, iv: ulong, pending: seq<byte>, c: Choices) {
    AgentMessages(suite, ClientSecret(suite, config, nonces, c.keyNonce), config.agentId, config.agentPublicKey, c,
                  nonces.challenge, iv) <= pending
  }

  lemma PrefixParts(a: seq<byte>, b: seq<byte>, incoming: seq<byte>, at: nat)
    requires at <= |incoming|
    ensures a + b <= incoming[at..]
       <==> at + |a| <= |incoming| && a <= incoming[at..] && b <= incoming[at + |a|..]
  {
    if at + |a| + |b| <= |incoming| {
      assert incoming[at..][..|a| + |b|] == incoming[at..][..|a|] + incoming[at + |a|..][..|b|];
      assert (a + b)[..|a|] == a && (a + b)[|a|..] == b;
    }
  }

  /** The client's state after a handshake. */
  function Completed(suite: Suite, s: State, secret: Bytes32, request: seq<byte>, challenge: Bytes32): State {
    State(Some(secret), Next(s.writerIv), Next(s.readerIv),
          s.sent + DataPacket(request) + Packet(suite, secret, s.writerIv, suite.macShort(secret, challenge)),
          s.position + 169 + 49)
  }

  /** An agent that answers with its own id and key, the expected versions, and a MAC and a packet made with
      the shared secret is accepted, and both counters have moved on by one. */
  lemma HandshakeAccepts(suite: Suite, incoming: seq<byte>, s: State, config: Config, nonces: Nonces, c: Choices)
    requires s.position <= |incoming| && Transcript(suite, config, nonces, s.readerIv, incoming[s.position..], c)
    ensures var secret := ClientSecret(suite, config, nonces, c.keyNonce);
            Handshake(suite, incoming, s, config, nonces)
            == (Completed(suite, s, secret, InitiateRequest(config.entityId, nonces), c.challenge), Ok(()))
  {
    var secret := ClientSecret(suite, config, nonces, c.keyNonce);
    var response := FirstReply(suite, secret, config.agentId, config.agentPublicKey, c, nonces.challenge);
    PrefixParts(DataPacket(response), Packet(suite, secret, s.readerIv, Acknowledgement(c)), incoming, s.position);
    FirstReplyIff(suite, config, nonces, response, c);
    InitiateOnReply(suite, incoming, s, config, nonces, response);
    AcknowledgeAccepts(suite, incoming, secret, Initiate(suite, incoming, s, config, nonces).0, c.challenge, c);
  }

  /** The handshake returns normally exactly when the bytes that come in are those messages, for some
      choices of the agent. */
  lemma HandshakeIff(suite: Suite, incoming: seq<byte>, s: State, config: Config, nonces: Nonces)
    requires s.position <= |incoming|
    ensures Handshake(suite, incoming, s, config, nonces).1.Ok?
       <==> exists c :: Transcript(suite, config, nonces, s.readerIv, incoming[s.position..], c)
  {
    if Handshake(suite, incoming, s, config, nonces).1.Ok? {
      var c := HandshakeOnly(suite, incoming, s, config, nonces);
    }
    if c :| Transcript(suite, config, nonces, s.readerIv, incoming[s.position..], c) {
      HandshakeAccepts(suite, incoming, s, config, nonces, c);
    }
  }

  /** A first round that succeeds has read a first reply, and has kept the secret that made it. */
  lemma InitiateOnly(suite: Suite, incoming: seq<byte>, s: State, config: Config, nonces: Nonces)
    returns (response: seq<byte>)
    requires s.position <= |incoming| && Initiate(suite, incoming, s, config, nonces).1.Ok?
    ensures ReplyIs(incoming[s.position..], response) && CheckReply(config, response).Ok?
    ensures var secret := ClientSecret(suite, config, nonces, response[68..100]);
            && suite.macShort(secret, response[..132] + nonces.challenge) == response[132..]
            && Initiate(suite, incoming, s, config, nonces)
               == (s.(sent := s.sent + DataPacket(InitiateRequest(config.entityId, nonces)),
                      position := s.position + 169, secret := Some(secret)),
                   Ok(response[100..132]))
  {
    if forall response :: !ReplyIs(incoming[s.position..], response) {
      InitiateWithoutReply(suite, incoming, s, config, nonces);
      assert false;
    } else {
      response :| ReplyIs(incoming[s.position..], response);
      InitiateOnReply(suite, incoming, s, config, nonces, response);
    }
  }

  /** A first reply made with the secret and an acknowledgement under it are a transcript. */
  lemma TranscriptOf(suite: Suite, incoming: seq<byte>, at: nat, iv: ulong, config: Config, nonces: Nonces,
                     response: seq<byte>, c: Choices)
    requires at <= |incoming| && ReplyIs(incoming[at..], response)
    requires at + 169 <= |incoming|
             && NextIs(suite, ClientSecret(suite, config, nonces, c.keyNonce), iv, incoming[at + 169..],
                       Acknowledgement(c))
    requires CheckReply(config, response).Ok? && c == ChoicesOf(response, c.tail)
    requires suite.macShort(ClientSecret(suite, config, nonces, c.keyNonce), response[..132] + nonces.challenge)
             == response[132..]
    ensures Transcript(suite, config, nonces, iv, incoming[at..], c)
  {
    var secret := ClientSecret(suite, config, nonces, c.keyNonce);
    FirstReplyIff(suite, config, nonces, response, c);
    PrefixParts(DataPacket(response), Packet(suite, secret, iv, Acknowledgement(c)), incoming, at);
  }

  /** After a first reply, a second round that succeeds completes a transcript. */
  lemma SecondRoundOnly(suite: Suite, incoming: seq<byte>, at: nat, s: State, config: Config, nonces: Nonces,
                        response: seq<byte>)
    returns (c: Choices)
    requires at + 169 <= |incoming| && s.position == at + 169 && ReplyIs(incoming[at..], response)
    requires CheckReply(config, response).Ok?
    requires s.secret == Some(ClientSecret(suite, config, nonces, response[68..100]))
    requires suite.macShort(s.secret.value, response[..132] + nonces.challenge) == response[132..]
    requires Acknowledge(suite, incoming, s, response[100..132]).1.Ok?
    ensures Transcript(suite, config, nonces, s.readerIv, incoming[at..], c)
  {
    var tail := AcknowledgeOnly(suite, incoming, s.secret.value, s, response[100..132]);
    c := ChoicesOf(response, tail);
    TranscriptOf(suite, incoming, at, s.readerIv, config, nonces, response, c);
  }

  lemma HandshakeOnly(suite: Suite, incoming: seq<byte>, s: State, config: Config, nonces: Nonces)
    returns (c: Choices)
    requires s.position <= |incoming| && Handshake(suite, incoming, s, config, nonces).1.Ok?
    ensures Transcript(suite, config, nonces, s.readerIv, incoming[s.position..], c)
  {
    var response := InitiateOnly(suite, incoming, s, config, nonces);
    c := SecondRoundOnly(suite, incoming, s.position, Initiate(suite, incoming, s, config, nonces).0, config, nonces,
                         response);
  }

  // ----- refusals

  /** What the handshake does when anything but a first reply of 164 bytes comes in: each refusal, and how many bytes
      it has used up by then. */
  lemma OtherReply(suite: Suite, incoming: seq<byte>, s: State, config: Config, nonces: Nonces)
    requires s.position <= |incoming| && forall response :: !ReplyIs(incoming[s.position..], response)
    ensures var (s', r) := Handshake(suite, incoming, s, config, nonces);
            var at, end := s.position, |incoming|;
            && s' == s.(sent := s.sent + DataPacket(InitiateRequest(config.entityId, nonces)), position := s'.position)
            && if at + 5 > end then s'.position == end && r == Err(EndOfFile)
               else if incoming[at] != 0x20 then s'.position == at + 5 && r == Err(InvalidPacketType)
               else
                 var size := FromSignedBE(incoming[at + 1..at + 5]);
                 if size < 12 then s'.position == at + 5 && r == Err(InvalidPayloadSize)
                 else if at + 5 + size > end then s'.position == end && r == Err(EndOfFile)
                 else s'.position == at + 5 + size && r == Err(AgentVerification)
  {
    var at := s.position;
    if at + 5 <= |incoming| {
      var header := incoming[at..at + 5];
      assert header[0] == incoming[at] && header[1..] == incoming[at + 1..at + 5];
      SizeIs164(header[1..]);
      if at + 169 <= |incoming| {
        CutReply(incoming, at, incoming[at + 5..at + 169]);
      }
    }
  }

  /** The MAC that ends a first reply covers the fields before it and the client's challenge. */
  predicate MacMatches(suite: Suite, config: Config, nonces: Nonces, response: seq<byte>)
    requires |response| == 164
  {
    suite.macShort(suite.shortTermSecret(config.entityPrivateKey, config.agentPublicKey, response[68..100], nonces.key),
                   response[..132] + nonces.challenge)
    == response[132..164]
  }

  /** What the handshake throws on a first reply of 164 bytes: that of the failing check, and then that of the MAC. */
  lemma FirstReplyRefused(suite: Suite, incoming: seq<byte>, s: State, config: Config, nonces: Nonces,
                          response: seq<byte>)
    requires s.position <= |incoming| && ReplyIs(incoming[s.position..], response)
    requires CheckReply(config, response).Err? || !MacMatches(suite, config, nonces, response)
    ensures Handshake(suite, incoming, s, config, nonces).1
         == Err(if CheckReply(config, response).Err? then CheckReply(config, response).error else MessageVerification)
    ensures Handshake(suite, incoming, s, config, nonces).0.position == s.position + 169
  {
    DropToEnd(response, 132);
    InitiateOnReply(suite, incoming, s, config, nonces, response);
  }

  /** A first reply that passes leads to the second round. */
  lemma SecondRound(suite: Suite, incoming: seq<byte>, s: State, config: Config, nonces: Nonces,
                    response: seq<byte>)
    returns (s1: State)
    requires s.position <= |incoming| && ReplyIs(incoming[s.position..], response)
    requires CheckReply(config, response).Ok? && MacMatches(suite, config, nonces, response)
    ensures s1.secret == Some(ClientSecret(suite, config, nonces, response[68..100]))
    ensures s1.position == s.position + 169 <= |incoming| && s1.readerIv == s.readerIv
    ensures Handshake(suite, incoming, s, config, nonces) == Acknowledge(suite, incoming, s1, response[100..132])
  {
    DropToEnd(response, 132);
    CutReply(incoming, s.position, response);
    InitiateOnReply(suite, incoming, s, config, nonces, response);
    s1 := Initiate(suite, incoming, s, config, nonces).0;
  }

  /** What it makes of an authentic second reply of twelve bytes. */
  lemma SecondReplyVerdict(suite: Suite, incoming: seq<byte>, s: State, config: Config, nonces: Nonces,
                           response: seq<byte>, payload: seq<byte>)
    requires s.position <= |incoming| && ReplyIs(incoming[s.position..], response)
    requires CheckReply(config, response).Ok? && MacMatches(suite, config, nonces, response)
    requires s.position + 169 <= |incoming| && |payload| == 12
    requires NextIs(suite, ClientSecret(suite, config, nonces, response[68..100]), s.readerIv,
                    incoming[s.position + 169..], payload)
    ensures Handshake(suite, incoming, s, config, nonces).1
         == if payload[..4] != [0, 0, 0, 1] then Err(InvalidRequestId)
            else if payload[4..8] != [0, 0, 0, 0] then Err(ErrorStatus)
            else Ok(())
  {
    var s1 := SecondRound(suite, incoming, s, config, nonces, response);
    AcknowledgeVerdict(suite, incoming, s1.secret.value, s1, response[100..132], payload);
  }

  // ----- the shared secret and the guard

  /** A first reply arrives that passes every check made before the secret is computed. */
  ghost predicate ReplyPasses(config: Config, pending: seq<byte>) {
    exists response :: ReplyIs(pending, response) && CheckReply(config, response).Ok?
  }

  lemma ReplyIsUnique(pending: seq<byte>, a: seq<byte>, b: seq<byte>)
    requires ReplyIs(pending, a) && ReplyIs(pending, b)
    ensures a == b
  {
    assert pending[..169][5..] == DataPacket(a)[5..] == a;
    assert pending[..169][5..] == DataPacket(b)[5..] == b;
  }

  /** The shared secret is set exactly when such a reply arrives, whatever its MAC and whatever follows. */
  lemma SecretSetIff(suite: Suite, incoming: seq<byte>, s: State, config: Config, nonces: Nonces)
    requires s.position <= |incoming| && s.secret.None?
    ensures Handshake(suite, incoming, s, config, nonces).0.secret.Some?
       <==> ReplyPasses(config, incoming[s.position..])
  {
    var pending := incoming[s.position..];
    var s1 := Initiate(suite, incoming, s, config, nonces).0;
    HandshakeSecret(suite, incoming, s, config, nonces);
    if forall response :: !ReplyIs(pending, response) {
      InitiateWithoutReply(suite, incoming, s, config, nonces);
    } else {
      var response :| ReplyIs(pending, response);
      InitiateOnReply(suite, incoming, s, config, nonces, response);
      forall other | ReplyIs(pending, other) ensures other == response {
        ReplyIsUnique(pending, response, other);
      }
    }
  }

  lemma ReceiveKeepsSecret(openHeader: HeaderOpener, openPayload: PayloadOpener, incoming: seq<byte>, s: State,
                           rule: SizeRule)
    ensures ReceiveWith(openHeader, openPayload, incoming, s, rule).0.secret == s.secret
  {
  }

  lemma AcknowledgeKeepsSecret(suite: Suite, incoming: seq<byte>, s: State, challenge: seq<byte>)
    requires s.secret.Some?
    ensures Acknowledge(suite, incoming, s, challenge).0.secret == s.secret
  {
    var key := s.secret.value;
    var s0 := SendPacket(suite, key, s, suite.macShort(key, challenge));
    ReceiveKeepsSecret(Headers(suite, key, s0.readerIv), Payloads(suite, key, s0.readerIv), incoming, s0,
                       TwelveExactly);
  }

  /** The secret after a handshake is the one that the first round left. */
  lemma HandshakeSecret(suite: Suite, incoming: seq<byte>, s: State, config: Config, nonces: Nonces)
    ensures Handshake(suite, incoming, s, config, nonces).0.secret
         == Initiate(suite, incoming, s, config, nonces).0.secret
  {
    var (s1, challenge) := Initiate(suite, incoming, s, config, nonces);
    if challenge.Ok? {
      AcknowledgeKeepsSecret(suite, incoming, s1, challenge.value);
    }
  }

  /** A shared secret means a completed handshake unless a reply passes the checks made before the secret is
      computed and yet the bytes are not the messages of an agent that knows the secret. */
  lemma SecretMeansCompletedIff(suite: Suite, incoming: seq<byte>, s: State, config: Config, nonces: Nonces)
    requires s.position <= |incoming| && s.secret.None?
    ensures (Handshake(suite, incoming, s, config, nonces).0.secret.Some?
             ==> Handshake(suite, incoming, s, config, nonces).1.Ok?)
       <==> (ReplyPasses(config, incoming[s.position..])
             ==> exists c :: Transcript(suite, config, nonces, s.readerIv, incoming[s.position..], c))
  {
    SecretSetIff(suite, incoming, s, config, nonces);
    HandshakeIff(suite, incoming, s, config, nonces);
  }

  /** The state of a client before its handshake. */
  function Fresh(): State {
    State(None, CLIENT_IV_START, SERVER_IV_START, [], 0)
  }

  /** A 32-byte string that differs from the given one. */
  function Other(mac: Bytes32): (r: Bytes32)
    ensures r != mac
  {
    mac[0 := mac[0] ^ 1]
  }

  /** A reply that is right but for its MAC. */
  function WrongReply(suite: Suite, config: Config, nonces: Nonces, c: Choices): seq<byte> {
    var replyFields := ReplyFields(config.agentId, config.agentPublicKey, c);
    var secret := ClientSecret(suite, config, nonces, c.keyNonce);
    DataPacket(replyFields + Other(suite.macShort(secret, replyFields + nonces.challenge)))
  }

  lemma WrongReplyFails(suite: Suite, config: Config, nonces: Nonces, c: Choices)
    ensures var secret := ClientSecret(suite, config, nonces, c.keyNonce);
            Handshake(suite, WrongReply(suite, config, nonces, c), Fresh(), config, nonces)
            == (Fresh().(secret := Some(secret), position := 169,
                         sent := DataPacket(InitiateRequest(config.entityId, nonces))),
                Err(MessageVerification))
  {
    var incoming := WrongReply(suite, config, nonces, c);
    var response := incoming[5..];
    assert incoming == DataPacket(response) && incoming[0..] == incoming;
    assert response[..132] == ReplyFields(config.agentId, config.agentPublicKey, c);
    CheckReplyIff(config, response, c);
    InitiateOnReply(suite, incoming, Fresh(), config, nonces, response);
    var first := DataPacket(InitiateRequest(config.entityId, nonces));
    assert [] + first == first;
  }

  /** A query with nothing left to read sends its request and ends in EOFException. */
  lemma AfterLastByte(suite: Suite, incoming: seq<byte>, key: Bytes32, s: State, query: Query)
    requires s.secret == Some(key) && s.position == |incoming|
    ensures Step(suite, incoming, s, Ask(query))
         == (SendPacket(suite, key, s, RequestBytes(QueryRequest(query))), Err(EndOfFile))
  {
    var s0 := SendPacket(suite, key, s, RequestBytes(QueryRequest(query)));
    StepExchanges(suite, incoming, s, Ask(query), QueryRequest(query));
    AtEnd(Headers(suite, key, s0.readerIv), Payloads(suite, key, s0.readerIv), incoming, s0,
          SizeRuleOf(QueryRequest(query)));
  }

  /** For every suite and configuration there is a reply with a wrong MAC that makes the handshake throw and
      leaves a shared secret behind, so that the next call gets past its guard and sends its request. */
  lemma SecretWithoutHandshake(suite: Suite, config: Config, nonces: Nonces, c: Choices)
    ensures var secret := ClientSecret(suite, config, nonces, c.keyNonce);
            var incoming := WrongReply(suite, config, nonces, c);
            var (s1, r) := Handshake(suite, incoming, Fresh(), config, nonces);
            var (s2, answer) := Step(suite, incoming, s1, Ask(LatestBlockId));
            && r == Err(MessageVerification) && s1.secret == Some(secret)
            && answer == Err(EndOfFile)
            && s2.sent == s1.sent + Packet(suite, secret, CLIENT_IV_START, RequestBytes(QueryRequest(LatestBlockId)))
  {
    WrongReplyFails(suite, config, nonces, c);
    var s1 := Handshake(suite, WrongReply(suite, config, nonces, c), Fresh(), config, nonces).0;
    AfterLastByte(suite, WrongReply(suite, config, nonces, c), s1.secret.value, s1, LatestBlockId);
  }

  // ----- both ends

  /** The agent's side: its id and key pair, and the public keys of the entities that it knows. */
  datatype Agent = Agent(id: Uuids.UUID, privateKey: Bytes32, entityKeys: Uuids.UUID -> Bytes32)

  /** The secret that the agent computes from the request it received, with the key of the entity that the request
      names. */
  function AgentSecret(suite: Suite, agent: Agent, request: seq<byte>, keyNonce: Bytes32): Bytes32
    requires |request| == 96
  {
    suite.shortTermSecret(agent.privateKey, agent.entityKeys(Uuids.UuidFromBytes(request[16..32])), keyNonce,
                          request[32..64])
  }

  /** The agent answers a request for a handshake in the versions that it speaks. */
  predicate Understands(request: seq<byte>)
    requires |request| == 96
  {
    && request[..4] == [0, 0, 0, 0] && request[4..8] == [0, 0, 0, 0]
    && request[8..12] == [0, 0, 0, 1] && request[12..16] == [0, 0, 0, 1]
  }

  /** The agent's answer in the clear to the request it received. */
  function AgentReply(suite: Suite, agent: Agent, request: seq<byte>, c: Choices): seq<byte>
    requires |request| == 96
  {
    var secret := AgentSecret(suite, agent, request, c.keyNonce);
    DataPacket(FirstReply(suite, secret, agent.id, suite.publicKey(agent.privateKey), c, request[64..96]))
  }

  /** What an agent sends that receives a request, acknowledges it, and goes on to send payloads. To a request that it
      does not understand it sends nothing. */
  function AgentSends(suite: Suite, agent: Agent, request: seq<byte>, c: Choices, payloads: seq<seq<byte>>): seq<byte>
    requires |request| == 96
  {
    if !Understands(request) then []
    else
      AgentReply(suite, agent, request, c)
      + Frames(suite, AgentSecret(suite, agent, request, c.keyNonce), SERVER_IV_START, [Acknowledgement(c)] + payloads)
  }

  /** Client and agent are configured with each other's ids and keys. */
  ghost predicate Matching(suite: Suite, config: Config, agent: Agent) {
    && config.agentId == agent.id
    && config.agentPublicKey == suite.publicKey(agent.privateKey)
    && agent.entityKeys(config.entityId) == suite.publicKey(config.entityPrivateKey)
  }

  /** The agent finds the client's key by the id in the request, and computes the client's secret. */
  lemma SecretsAgree(suite: Suite, config: Config, nonces: Nonces, agent: Agent, keyNonce: Bytes32)
    requires ShortTermAgrees(suite) && Matching(suite, config, agent)
    ensures AgentSecret(suite, agent, InitiateRequest(config.entityId, nonces), keyNonce)
         == ClientSecret(suite, config, nonces, keyNonce)
         == suite.shortTermSecret(agent.privateKey, agent.entityKeys(config.entityId), keyNonce, nonces.key)
  {
    InitiateLayout(config.entityId, nonces);
    Uuids.UuidBijection(config.entityId, Uuids.UuidBytes(config.entityId));
  }

  lemma PrefixOfThree(a: seq<byte>, b: seq<byte>, rest: seq<byte>)
    ensures a + b <= (a + (b + rest))[0..] && (a + (b + rest))[|a| + |b|..] == rest
  {
    Assoc(a, b, rest);
  }

  lemma AgentSendsParts(suite: Suite, agent: Agent, request: seq<byte>, c: Choices, payloads: seq<seq<byte>>)
    requires |request| == 96 && Understands(request)
    ensures var secret := AgentSecret(suite, agent, request, c.keyNonce);
            AgentSends(suite, agent, request, c, payloads)
            == DataPacket(FirstReply(suite, secret, agent.id, suite.publicKey(agent.privateKey), c, request[64..96]))
               + (Packet(suite, secret, SERVER_IV_START, Acknowledgement(c))
                  + Frames(suite, secret, Next(SERVER_IV_START), payloads))
  {
    FramesCons(suite, AgentSecret(suite, agent, request, c.keyNonce), SERVER_IV_START, Acknowledgement(c), payloads);
  }

  /** What an honest agent sends is a transcript, followed by its later packets. */
  lemma AgentSendsTranscript(suite: Suite, config: Config, nonces: Nonces, agent: Agent, c: Choices,
                             payloads: seq<seq<byte>>)
    requires ShortTermAgrees(suite) && Matching(suite, config, agent)
    ensures var request := InitiateRequest(config.entityId, nonces);
            var incoming := AgentSends(suite, agent, request, c, payloads);
            var secret := ClientSecret(suite, config, nonces, c.keyNonce);
            && secret == AgentSecret(suite, agent, request, c.keyNonce)
            && Transcript(suite, config, nonces, SERVER_IV_START, incoming[0..], c)
            && |incoming| >= 169 + 49
            && incoming[169 + 49..] == Frames(suite, secret, Next(SERVER_IV_START), payloads)
  {
    SecretsAgree(suite, config, nonces, agent, c.keyNonce);
    var secret := ClientSecret(suite, config, nonces, c.keyNonce);
    var first := DataPacket(FirstReply(suite, secret, agent.id, config.agentPublicKey, c, nonces.challenge));
    var ack := Packet(suite, secret, SERVER_IV_START, Acknowledgement(c));
    var rest := Frames(suite, secret, Next(SERVER_IV_START), payloads);
    InitiateLayout(config.entityId, nonces);
    AgentSendsParts(suite, agent, InitiateRequest(config.entityId, nonces), c, payloads);
    assert |first| == 169 && |ack| == 49;
    PrefixOfThree(first, ack, rest);
  }

  /** Against an honest agent, which finds the client's key by the id in the request, the handshake of a new client is
      accepted, both ends hold the same secret, made from their own private key, the other's public key and both
      nonces, both counters have moved on by one, and the client is in lockstep with what the agent sends next. */
  lemma HonestHandshake(suite: Suite, config: Config, nonces: Nonces, agent: Agent, c: Choices,
                        payloads: seq<seq<byte>>)
    requires ShortTermAgrees(suite) && Matching(suite, config, agent) && AllSmall(payloads)
    ensures var request := InitiateRequest(config.entityId, nonces);
            var secret := AgentSecret(suite, agent, request, c.keyNonce);
            var incoming := AgentSends(suite, agent, request, c, payloads);
            var s := Completed(suite, Fresh(), secret, request, c.challenge);
            && Handshake(suite, incoming, Fresh(), config, nonces) == (s, Ok(()))
            && InLockstep(suite, incoming, secret, s, payloads)
            && secret == suite.shortTermSecret(config.entityPrivateKey, config.agentPublicKey, c.keyNonce, nonces.key)
            && secret == suite.shortTermSecret(agent.privateKey, agent.entityKeys(config.entityId), c.keyNonce,
                                               nonces.key)
  {
    SecretsAgree(suite, config, nonces, agent, c.keyNonce);
    var request := InitiateRequest(config.entityId, nonces);
    AgentSendsTranscript(suite, config, nonces, agent, c, payloads);
    HandshakeAccepts(suite, AgentSends(suite, agent, request, c, payloads), Fresh(), config, nonces, c);
  }

  lemma SmallTail(first: seq<byte>, rest: seq<seq<byte>>)
    requires |first| <= MAX_PAYLOAD_SIZE
    ensures AllSmall([first] + rest) <==> AllSmall(rest)
  {
    if AllSmall([first] + rest) {
      forall i | 0 <= i < |rest| ensures |rest[i]| <= MAX_PAYLOAD_SIZE {
        assert ([first] + rest)[i + 1] == rest[i];
      }
    }
  }

  /** After the handshake and n more packets, a counter is that of the packet with index n + 1. */
  lemma AfterHandshake(n: nat)
    ensures Advance(Next(CLIENT_IV_START), n) == IvOf(ToServer, n + 1)
    ensures Advance(Next(SERVER_IV_START), n) == IvOf(ToClient, n + 1)
  {
  }

  /** What a client has sent after a completed handshake and a run: the proof of the secret and the requests. */
  function SentPayloads(suite: Suite, secret: Bytes32, challenge: Bytes32, calls: seq<Call>): seq<seq<byte>> {
    [suite.macShort(secret, challenge)] + PacketsOf(Requests(Attempts(calls)))
  }

  /** What the client has sent by then, and what the agent makes of it. */
  lemma CompletedSends(suite: Suite, incoming: seq<byte>, secret: Bytes32, request: seq<byte>, challenge: Bytes32,
                       calls: seq<Call>)
    requires Connected(incoming, secret, Completed(suite, Fresh(), secret, request, challenge))
    ensures var requests := Requests(Attempts(calls));
            var s := Run(suite, incoming, Completed(suite, Fresh(), secret, request, challenge), calls).0;
            && s.writerIv == IvOf(ToServer, |requests| + 1)
            && s.sent == DataPacket(request)
                         + Frames(suite, secret, CLIENT_IV_START, SentPayloads(suite, secret, challenge, calls))
  {
    var s := Completed(suite, Fresh(), secret, request, challenge);
    var packets := PacketsOf(Requests(Attempts(calls)));
    EveryRun(suite, incoming, secret, s, calls);
    AfterHandshake(|packets|);
    FramesCons(suite, secret, CLIENT_IV_START, suite.macShort(secret, challenge), packets);
    var first := Packet(suite, secret, CLIENT_IV_START, suite.macShort(secret, challenge));
    assert [] + DataPacket(request) == DataPacket(request);
    Assoc(DataPacket(request), first, Frames(suite, secret, Next(CLIENT_IV_START), packets));
  }

  /** The agent, reading after the request in the clear, recovers proof and requests exactly when no
      certificate in them is too large. */
  lemma AgentReads(suite: Suite, secret: Bytes32, challenge: Bytes32, calls: seq<Call>)
    ensures var payloads := SentPayloads(suite, secret, challenge, calls);
            ReadFrames(suite, secret, CLIENT_IV_START, Frames(suite, secret, CLIENT_IV_START, payloads)) == Ok(payloads)
            <==> CertificatesFit(Requests(Attempts(calls)))
  {
    var requests := Requests(Attempts(calls));
    FramesRoundTripIff(suite, secret, CLIENT_IV_START, SentPayloads(suite, secret, challenge, calls));
    SmallTail(suite.macShort(secret, challenge), PacketsOf(requests));
    FitIff(requests);
  }

  /** The answers in a run after a completed handshake. */
  lemma CompletedAnswers(suite: Suite, incoming: seq<byte>, secret: Bytes32, s: State, calls: seq<Call>,
                         payloads: seq<seq<byte>>)
    requires InLockstep(suite, incoming, secret, s, payloads) && s.readerIv == Next(SERVER_IV_START)
    requires Compatible(Requests(Attempts(calls)), payloads)
    ensures var k := Min(|Requests(Attempts(calls))|, |payloads|);
            var (s', answers) := Run(suite, incoming, s, calls);
            && answers == Answers(Attempts(calls), payloads)
            && InLockstep(suite, incoming, secret, s', payloads[k..])
            && s'.readerIv == IvOf(ToClient, k + 1)
  {
    LockstepRun(suite, incoming, secret, s, calls, payloads);
    AfterHandshake(Min(|Requests(Attempts(calls))|, |payloads|));
  }

  /** A whole session with an honest agent that sends replies of accepted sizes: the handshake is accepted,
      every call gets its answer from the agent's payloads in order, the counters have moved on by the number
      of packets in each direction, and what was sent behind the request in the clear is the packets of the
      client's proof of the secret and of its requests. */
  lemma HonestSession(suite: Suite, config: Config, nonces: Nonces, agent: Agent, c: Choices,
                      calls: seq<Call>, payloads: seq<seq<byte>>)
    requires ShortTermAgrees(suite) && Matching(suite, config, agent) && AllSmall(payloads)
    requires Compatible(Requests(Attempts(calls)), payloads)
    ensures var request := InitiateRequest(config.entityId, nonces);
            var secret := AgentSecret(suite, agent, request, c.keyNonce);
            var incoming := AgentSends(suite, agent, request, c, payloads);
            var requests := Requests(Attempts(calls));
            var k := Min(|requests|, |payloads|);
            var (s, r) := Handshake(suite, incoming, Fresh(), config, nonces);
            var (s', answers) := Run(suite, incoming, s, calls);
            && r == Ok(()) && answers == Answers(Attempts(calls), payloads)
            && InLockstep(suite, incoming, secret, s', payloads[k..])
            && s'.readerIv == IvOf(ToClient, k + 1)
            && s'.writerIv == IvOf(ToServer, |requests| + 1)
            && s'.sent == DataPacket(request)
                          + Frames(suite, secret, CLIENT_IV_START, SentPayloads(suite, secret, c.challenge, calls))
  {
    HonestHandshake(suite, config, nonces, agent, c, payloads);
    var request := InitiateRequest(config.entityId, nonces);
    var secret := AgentSecret(suite, agent, request, c.keyNonce);
    var incoming := AgentSends(suite, agent, request, c, payloads);
    CompletedAnswers(suite, incoming, secret, Completed(suite, Fresh(), secret, request, c.challenge), calls, payloads);
    CompletedSends(suite, incoming, secret, request, c.challenge, calls);
  }

  // ----- the keystream of a session

  /** What the client has received by then: the acknowledgement and one payload for each answered request. */
  function ReceivedPayloads(c: Choices, calls: seq<Call>, payloads: seq<seq<byte>>): seq<seq<byte>> {
    [Acknowledgement(c)] + payloads[..Min(|Requests(Attempts(calls))|, |payloads|)]
  }

  lemma FramesAppend(suite: Suite, key: seq<byte>, iv: ulong, a: seq<seq<byte>>, b: seq<seq<byte>>)
    ensures Frames(suite, key, iv, a + b) == Frames(suite, key, iv, a) + Frames(suite, key, Advance(iv, |a|), b)
  {
    var packet: OnePacket<seq<byte>> := (iv: ulong, p: seq<byte>) => Packet(suite, key, iv, p);
    var chain: Chain<seq<byte>> := (iv: ulong, ps: seq<seq<byte>>) => Frames(suite, key, iv, ps);
    forall iv, p, ps ensures chain(iv, [p] + ps) == packet(iv, p) + chain(Next(iv), ps) {
      FramesCons(suite, key, iv, p, ps);
    }
    ChainAppend(packet, chain, iv, a, b);
  }

  /** One packet of a stream, under the counter of its place in it. */
  lemma FrameAt(suite: Suite, key: seq<byte>, iv: ulong, a: seq<seq<byte>>, payload: seq<byte>, b: seq<seq<byte>>)
    ensures Frames(suite, key, iv, a + ([payload] + b))
         == Frames(suite, key, iv, a) + (Packet(suite, key, Advance(iv, |a|), payload)
                                         + Frames(suite, key, Next(Advance(iv, |a|)), b))
  {
    FramesAppend(suite, key, iv, a, [payload] + b);
    FramesCons(suite, key, Advance(iv, |a|), payload, b);
  }

  /** The i-th packet that went in a direction is under the counter whose keystream KeystreamOf names. */
  lemma CountersOfFrames(i: nat)
    ensures Advance(CLIENT_IV_START, i) == IvOf(ToServer, i) && Advance(SERVER_IV_START, i) == IvOf(ToClient, i)
  {
  }

  lemma ReadSoFar(incoming: seq<byte>, at: nat, a: seq<byte>, b: seq<byte>)
    requires at <= |incoming| && incoming == a + b && incoming[at..] == b
    ensures incoming[..at] == a
  {
    assert |b| == |incoming| - at;
  }

  /** What a client in lockstep has read is the packets before those still to be read. */
  lemma ReceivedSoFar(suite: Suite, incoming: seq<byte>, secret: Bytes32, s: State, reply: seq<byte>,
                      before: seq<seq<byte>>, rest: seq<seq<byte>>)
    requires incoming == reply + Frames(suite, secret, SERVER_IV_START, before + rest)
    requires InLockstep(suite, incoming, secret, s, rest) && s.readerIv == IvOf(ToClient, |before|)
    ensures incoming[..s.position] == reply + Frames(suite, secret, SERVER_IV_START, before)
  {
    FramesAppend(suite, secret, SERVER_IV_START, before, rest);
    CountersOfFrames(|before|);
    var read, unread := Frames(suite, secret, SERVER_IV_START, before), Frames(suite, secret, s.readerIv, rest);
    Assoc(reply, read, unread);
    ReadSoFar(incoming, s.position, reply + read, unread);
  }

  lemma SplitBehind<T>(first: T, s: seq<T>, k: nat)
    requires k <= |s|
    ensures [first] + s == ([first] + s[..k]) + s[k..]
  {
  }

  lemma ReceivedBehindReply(suite: Suite, incoming: seq<byte>, secret: Bytes32, reply: seq<byte>, c: Choices,
                            calls: seq<Call>, payloads: seq<seq<byte>>, s: State)
    requires incoming == reply + Frames(suite, secret, SERVER_IV_START, [Acknowledgement(c)] + payloads)
    requires var k := Min(|Requests(Attempts(calls))|, |payloads|);
             InLockstep(suite, incoming, secret, s, payloads[k..]) && s.readerIv == IvOf(ToClient, k + 1)
    ensures incoming[..s.position]
         == reply + Frames(suite, secret, SERVER_IV_START, ReceivedPayloads(c, calls, payloads))
  {
    var k := Min(|Requests(Attempts(calls))|, |payloads|);
    SplitBehind(Acknowledgement(c), payloads, k);
    ReceivedSoFar(suite, incoming, secret, s, reply, ReceivedPayloads(c, calls, payloads), payloads[k..]);
  }

  /** A packet of a session is the same under another keystream exactly when that one agrees on the keystream bytes
      that it uses. */
  ghost predicate RestsOnItsUses(suite: Suite, other: Keystream, secret: Bytes32, d: Direction, i: nat,
                                 payloads: seq<seq<byte>>) {
    i < |payloads| ==>
      (Packet(suite.(keystream := other), secret, IvOf(d, i), payloads[i])
       == Packet(suite, secret, IvOf(d, i), payloads[i])
       <==> SameOn(suite.keystream, other, secret, KeystreamOf(d, i, payloads[i])))
  }

  lemma PacketsRestOnUses(suite: Suite, other: Keystream, secret: Bytes32, d: Direction, i: nat,
                          payloads: seq<seq<byte>>)
    ensures RestsOnItsUses(suite, other, secret, d, i, payloads)
  {
    if i < |payloads| {
      PacketRestsOn(suite, other, secret, d, i, payloads[i]);
    }
  }

  /** The i-th packet of a stream from its start, between those before and behind it. */
  lemma StreamAround(suite: Suite, secret: Bytes32, d: Direction, payloads: seq<seq<byte>>, i: nat)
    requires i < |payloads|
    ensures Frames(suite, secret, IvOf(d, 0), payloads)
         == Frames(suite, secret, IvOf(d, 0), payloads[..i])
            + (Packet(suite, secret, IvOf(d, i), payloads[i])
               + Frames(suite, secret, IvOf(d, i + 1), payloads[i + 1..]))
  {
    SplitAround(payloads, i);
    CountersAdvance(d, i);
    FrameAt(suite, secret, IvOf(d, 0), payloads[..i], payloads[i], payloads[i + 1..]);
  }

  lemma CountersAdvance(d: Direction, i: nat)
    ensures Advance(IvOf(d, 0), i) == IvOf(d, i) && Next(IvOf(d, i)) == IvOf(d, i + 1)
  {
  }

  /** What went each way up to the end of a run after a completed handshake. */
  lemma CompletedKeystream(suite: Suite, incoming: seq<byte>, secret: Bytes32, request: seq<byte>, reply: seq<byte>,
                           c: Choices, calls: seq<Call>, payloads: seq<seq<byte>>)
    requires incoming == reply + Frames(suite, secret, SERVER_IV_START, [Acknowledgement(c)] + payloads)
    requires InLockstep(suite, incoming, secret, Completed(suite, Fresh(), secret, request, c.challenge), payloads)
    requires Compatible(Requests(Attempts(calls)), payloads)
    ensures var s := Run(suite, incoming, Completed(suite, Fresh(), secret, request, c.challenge), calls).0;
            var sent, received := SentPayloads(suite, secret, c.challenge, calls), ReceivedPayloads(c, calls, payloads);
            && s.sent == DataPacket(request) + Frames(suite, secret, CLIENT_IV_START, sent)
            && s.position <= |incoming|
            && incoming[..s.position] == reply + Frames(suite, secret, SERVER_IV_START, received)
            && (UsedOnce(sent, received) <==> |sent| <= TWO_63)
  {
    var s := Completed(suite, Fresh(), secret, request, c.challenge);
    CompletedAnswers(suite, incoming, secret, s, calls, payloads);
    CompletedSends(suite, incoming, secret, request, c.challenge, calls);
    ReceivedBehindReply(suite, incoming, secret, reply, c, calls, payloads, Run(suite, incoming, s, calls).0);
    UsedOnceIff(SentPayloads(suite, secret, c.challenge, calls), ReceivedPayloads(c, calls, payloads));
  }

  /** The keystream of a whole session. What went each way under the session's secret is the packets of two
      lists of payloads under the two runs of counters; each of those packets rests on the keystream bytes
      counted for it and on no others; and none of these was used for two packets exactly when at most 2^63
      were sent. */
  lemma SessionKeystream(suite: Suite, config: Config, nonces: Nonces, agent: Agent, c: Choices,
                         calls: seq<Call>, payloads: seq<seq<byte>>, other: Keystream, d: Direction, i: nat)
    requires ShortTermAgrees(suite) && Matching(suite, config, agent) && AllSmall(payloads)
    requires Compatible(Requests(Attempts(calls)), payloads)
    ensures var request := InitiateRequest(config.entityId, nonces);
            var secret := AgentSecret(suite, agent, request, c.keyNonce);
            var incoming := AgentSends(suite, agent, request, c, payloads);
            var s := Run(suite, incoming, Handshake(suite, incoming, Fresh(), config, nonces).0, calls).0;
            var sent, received := SentPayloads(suite, secret, c.challenge, calls), ReceivedPayloads(c, calls, payloads);
            && s.sent == DataPacket(request) + Frames(suite, secret, CLIENT_IV_START, sent)
            && s.position <= |incoming|
            && incoming[..s.position]
               == AgentReply(suite, agent, request, c) + Frames(suite, secret, SERVER_IV_START, received)
            && RestsOnItsUses(suite, other, secret, d, i, PayloadsOf(d, sent, received))
            && (UsedOnce(sent, received) <==> |sent| <= 0x8000_0000_0000_0000)
  {
    HonestHandshake(suite, config, nonces, agent, c, payloads);
    InitiateLayout(config.entityId, nonces);
    var request := InitiateRequest(config.entityId, nonces);
    var secret := AgentSecret(suite, agent, request, c.keyNonce);
    CompletedKeystream(suite, AgentSends(suite, agent, request, c, payloads), secret, request,
                       AgentReply(suite, agent, request, c), c, calls, payloads);
    var sent, received := SentPayloads(suite, secret, c.challenge, calls), ReceivedPayloads(c, calls, payloads);
    PacketsRestOnUses(suite, other, secret, d, i, PayloadsOf(d, sent, received));
  }
}
