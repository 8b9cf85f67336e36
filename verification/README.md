# Verified model of the blockchain agent client

A Dafny model of the Java client of a blockchain agent and of the C code below it, with proofs. The client
speaks an authenticated request and reply protocol with the agent, encrypts documents in chunks, and builds,
signs, parses and encrypts certificates. What is modelled is the byte layout, the cursors, the counters, the
loops and the order of protocol steps. Cryptographic primitives are parameters.

`dafny verify dfyconfig.toml` checks the whole project.

| file | what it holds |
|---|---|
| `Bytes.dfy`, `Results.dfy` | big-endian and two's-complement numbers; optional values and exceptions |
| `Uuids.dfy`, `ByteUtil.dfy` | the UUID codecs of Java and C; htonl, ntohl, merge, constant-time equality |
| `Vccrypt.dfy` | the suite of primitives, stream and MAC contexts, chained key wrap |
| `OuterEnvelope.dfy` | one authenticated packet, streams of packets, keystream use |
| `Protocol.dfy` | requests and replies as byte layouts |
| `Session.dfy` | what the handshake and every API call do to counters, channel and secret, as functions |
| `ProtocolHandler.dfy` | the handler and its channel as classes, proved against `Session.dfy` |
| `SessionTheorems.dfy`, `HandshakeTheorems.dfy` | what holds of every exchange, run, handshake and session |
| `Documents.dfy` | the chunked document cipher over streams |
| `Certificates.dfy`, `FieldCodec.dfy` | build, sign, attest, parse, group, read; typed values |
| `StreamEnvelope.dfy` | the SimpleStreamCipher envelope |
| `EncryptedCertificates.dfy` | encrypted fields and shared-secret fragments |
| `EndToEnd.dfy` | a document and a certificate written and read back across the classes |

## Main results

- Sessions: `SessionTheorems.EveryRun` (any bytes from the other end), `SessionTheorems.LockstepRun` and
  `SessionTheorems.LockstepIff` (packet boundaries), `SessionTheorems.IdReturnedIff` and
  `SessionTheorems.CertificateReturnedIff` (what a query returns), `SessionTheorems.PacketRefusedIff` and
  `SessionTheorems.WrongReplyIff` (what it throws), `HandshakeTheorems.HonestSession` and
  `HandshakeTheorems.SessionKeystream` (handshake and run together).
- Handshake: `HandshakeTheorems.HandshakeIff`, `HandshakeTheorems.HonestHandshake`,
  `HandshakeTheorems.SecretMeansCompletedIff`.
- Packets and requests: `OuterEnvelope.PacketOpensIff`, `OuterEnvelope.FramesRoundTripIff`,
  `OuterEnvelope.ReadFramesOnlyFrames`, `Protocol.RequestDecodesIff`.
- Documents: `EndToEnd.WriteAndReadDocument`, `Documents.DocumentRoundTripIff`.
- Certificates: `Certificates.WalkSerialize`, `Certificates.SerializeWalk`, `Certificates.AttestsIff`,
  `Certificates.SignAttestParse`, `Certificates.GetIsIthOccurrence`,
  `EncryptedCertificates.EncryptedCertificateRoundTrip`, `EndToEnd.SignAndRead`.
- Keystream: `OuterEnvelope.PacketRestsOn`, `OuterEnvelope.UsedOnceIff`, `Documents.DocumentRestsOn`.
- Envelope: `StreamEnvelope.SealRoundTrip`, `StreamEnvelope.OpenOnlySealed`.

Hypotheses on the primitives, met together by a toy instance (`Vccrypt.ToySuiteIsValid`): the block cipher's
two directions are inverses, both key agreements are symmetric in the two key pairs, and a signature verifies
under its own key. The keystream is any function of key, IV and position, and the MAC is any function of key
and digested bytes.

Where the code and its own words disagree, the code is followed:

- `ProtocolHandlerImpl.java:88` says that the shared secret is populated on a successful connection. It is
  assigned at `:459`, before the MAC check at `:471`: `HandshakeTheorems.SecretSetIff`,
  `HandshakeTheorems.SecretMeansCompletedIff` and `HandshakeTheorems.SecretWithoutHandshake`.
- `ProtocolHandlerImpl.java:279-284` has no guard, unlike every other operation:
  `SessionTheorems.NothingWithoutSecret`.
- `ProtocolHandlerImpl.java:124-126` drops the status of a submission: `Protocol.SubmitReplyIff`.
- `EncryptedDocumentReader.java:89` drops the number of IV bytes read: `Documents.DocumentRoundTripIff`.
- A rejected payload size leaves the channel inside a packet, and a wrong MAC leaves the counter behind:
  `SessionTheorems.LockstepIff`.
- `EncryptedCertificateReader.java:69-72` refuses an empty encrypted value that the builder accepts:
  `EncryptedCertificates.EncryptedCertificateRoundTrip`.

## Model

| member | source | states |
|---|---|---|
| `SessionTheorems.EveryRun` | vjblockchain-java/src/main/java/com/velopayments/blockchain/agentd/ProtocolHandlerImpl.java:86-284 | Safety of every run of API calls against any bytes whatever from the other end: the bytes sent are exactly the packets of the requests under consecutive client counters, the server counter has moved by the number of delivered replies, and no more replies are delivered than requests were sent |
| `SessionTheorems.RunAt` | vjblockchain-java/src/main/java/com/velopayments/blockchain/agentd/ProtocolHandlerImpl.java:86-284 | The i-th outcome of a run is that of one call from the state that the calls before it left |
| `SessionTheorems.LockstepRun` | vjblockchain-java/src/main/java/com/velopayments/blockchain/agentd/ProtocolHandlerImpl.java:627-763 | Over any run against well-formed packets of accepted sizes, the channel stays on a packet boundary with the server counter in step, one packet is consumed for each request until the packets run out (then every call ends in EOF), and the answers come in packet order |
| `SessionTheorems.LockstepIff` | vjblockchain-java/src/main/java/com/velopayments/blockchain/agentd/ProtocolHandlerImpl.java:712-726 | Reading a complete packet, right or wrong, leaves the session on the next packet boundary with its counter in step if and only if the reading method accepts the size and the MAC in front of the body is the right one |
| `SessionTheorems.CompletePacketRead` | vjblockchain-java/src/main/java/com/velopayments/blockchain/agentd/OuterEnvelopeReader.java:18-29 | Reading a complete packet: a rejected size stops behind the five header bytes, a wrong MAC uses up the whole packet and leaves the counter, and otherwise packet and counter move together |
| `SessionTheorems.PacketConsumed` | vjblockchain-java/src/main/java/com/velopayments/blockchain/agentd/ProtocolHandlerImpl.java:797-817 | A well-formed packet of an accepted size is consumed whole, 5+32+size bytes, and the counter moves by one; any other size is rejected after 5 bytes with the counter unchanged |
| `SessionTheorems.PacketReceivedIff` | vjblockchain-java/src/main/java/com/velopayments/blockchain/agentd/ProtocolHandlerImpl.java:708-726 | A payload gets past decryption if and only if the next bytes are the agent's packet for it under the reader's current counter, at most 10 MiB, and of an accepted size |
| `SessionTheorems.PacketRefusedIff` | vjblockchain-java/src/main/java/com/velopayments/blockchain/agentd/ProtocolHandlerImpl.java:708-726 | For all bytes that can arrive, which of the four exceptions reading a packet throws: IllegalState without a header for 0x30 and at most 10 MiB, InvalidPayloadSize for a size not let through, MessageVerification for a MAC that is not that of header and body, EOF for too few bytes |
| `SessionTheorems.HeaderRead` | vjblockchain-java/src/main/java/com/velopayments/blockchain/agentd/OuterEnvelopeReader.java:18-29 | What each of these outcomes behind a header leaves behind: 5 bytes used up, all bytes, the whole packet, and only for an authentic packet a counter one further |
| `SessionTheorems.NoHeaderRead` | vjblockchain-native/src/main/native/com/velopayments/blockchain/agentd/OuterEnvelopeReader_decryptHeaderNative.c:180-209 | Without a header five bytes are used up, or the fewer that are left, and the counter stays |
| `SessionTheorems.StepReads` | vjblockchain-java/src/main/java/com/velopayments/blockchain/agentd/ProtocolHandlerImpl.java:797-817 | A call leaves the channel where reading its packet leaves it, and throws what that throws |
| `SessionTheorems.OnlyPackets` | vjblockchain-java/src/main/java/com/velopayments/blockchain/agentd/OuterEnvelopeReader.java:18-29 | Whatever arrives, the reader's counter moves exactly when a payload is returned; a failed MAC or a rejected size leaves it alone |
| `SessionTheorems.AgentRecoversRequests` | vjblockchain-java/src/main/java/com/velopayments/blockchain/agentd/ProtocolHandlerImpl.java:583-625 | What any run sent is the packets of its requests, in order and with their arguments, and the agent, reading to the end, recovers that list if and only if no submitted certificate takes its request over 10 MiB |
| `SessionTheorems.AnswerIff` | vjblockchain-java/src/main/java/com/velopayments/blockchain/agentd/ProtocolHandlerImpl.java:797-862 | A call returns an answer, or throws an exception about its reply, if and only if the next packet is authentic under the current counter, of an accepted size, and its payload means that |
| `SessionTheorems.IdReturnedIff` | vjblockchain-java/src/main/java/com/velopayments/blockchain/agentd/ProtocolHandlerImpl.java:895-953 | An id query returns an id if and only if the next packet is authentic and its payload carries the query's own request id, a zero status, and that id in bytes 12 to 28; it returns Optional.empty() if and only if that payload carries the request id and either a status other than zero or fewer than 28 bytes |
| `SessionTheorems.LatestIdReturnedIff` | vjblockchain-java/src/main/java/com/velopayments/blockchain/agentd/ProtocolHandlerImpl.java:708-763 | The latest block id is returned under the same condition, for payloads of exactly 28 bytes |
| `SessionTheorems.LatestIdFailsIff` | vjblockchain-java/src/main/java/com/velopayments/blockchain/agentd/ProtocolHandlerImpl.java:738-763 | getLatestBlockId throws IOException for its reply if and only if that has the right request id and a status other than zero |
| `SessionTheorems.CertificateReturnedIff` | vjblockchain-java/src/main/java/com/velopayments/blockchain/agentd/ProtocolHandlerImpl.java:1078-1144 | A block or transaction query returns a certificate if and only if the next packet is authentic and carries the query's own request id, a zero status, and that non-empty certificate behind 92 or 104 bytes; it returns Optional.empty() if and only if that payload carries the request id and either another status or nothing behind its header |
| `SessionTheorems.WrongReplyIff` | vjblockchain-java/src/main/java/com/velopayments/blockchain/agentd/ProtocolHandlerImpl.java:738-743 | Every call throws InvalidRequestIdException if and only if the next packet is authentic, of an accepted size, and its first four bytes are not those of the request |
| `SessionTheorems.SizeRefusedIff` | vjblockchain-java/src/main/java/com/velopayments/blockchain/agentd/ProtocolHandlerImpl.java:714-756 | A call throws InvalidPayloadSizeException if and only if the next header is for a size that its reading method does not let through, or, for the latest block id, on a successful reply of 12 bytes |
| `SessionTheorems.SubmittedIff` | vjblockchain-java/src/main/java/com/velopayments/blockchain/agentd/ProtocolHandlerImpl.java:627-680 | A submission returns normally if and only if the next packet is authentic and has 12 bytes of payload that start with the request's own id |
| `SessionTheorems.StatusReturnedIff` | vjblockchain-java/src/main/java/com/velopayments/blockchain/agentd/ProtocolHandlerImpl.java:1728-1776 | The status query returns 0 or 1 as the status in an authentic reply with its own request id is zero or not |
| `SessionTheorems.NothingWithoutSecret` | vjblockchain-java/src/main/java/com/velopayments/blockchain/agentd/ProtocolHandlerImpl.java:277-284 | Without a shared secret no run of calls sends or reads a byte: the guarded calls throw ConnectException and getConnectionStatus, which has no guard, fails on its null key |
| `SessionTheorems.SubmissionIff` | vjblockchain-java/src/main/java/com/velopayments/blockchain/agentd/ProtocolHandlerImpl.java:93-121 | For every certificate, a submission sends a request if and only if the first field 0x0038 and the first field 0x0041 in it are UUIDs, and then with those ids and the whole certificate |
| `SessionTheorems.SubmissionRefusedIff` | vjblockchain-java/src/main/java/com/velopayments/blockchain/agentd/ProtocolHandlerImpl.java:93-118 | A submission throws before sending if and only if the certificate has no complete field, or one of the two ids is missing or not 16 bytes |
| `HandshakeTheorems.HandshakeIff` | vjblockchain-java/src/main/java/com/velopayments/blockchain/agentd/ProtocolHandlerImpl.java:293-481 | The handshake returns normally if and only if the incoming bytes are the two messages of the configured agent: its id and key, status 0, versions 1, a MAC over the reply and the client's challenge under the computed secret, and an authenticated acknowledgement under the same secret |
| `HandshakeTheorems.InitiateLayout` | vjblockchain-java/src/main/java/com/velopayments/blockchain/agentd/ProtocolHandlerImpl.java:311-336 | The 96 bytes of the first request at their offsets: zeros at 0 and 4, the number 1 at 8 and at 12, the entity id at 16, the key nonce at 32, the challenge at 64 |
| `HandshakeTheorems.DataPacketLayout` | vjblockchain-java/src/main/java/com/velopayments/blockchain/agentd/ProtocolHandlerImpl.java:338-346 | A message in the clear is the byte 0x20, its size in four bytes, and its content |
| `HandshakeTheorems.HandshakeAccepts` | vjblockchain-java/src/main/java/com/velopayments/blockchain/agentd/ProtocolHandlerImpl.java:524-581 | On those messages the handshake is accepted with the whole new state: the secret, both counters one further, the two messages sent (the first as InitiateLayout says), and 218 bytes consumed |
| `HandshakeTheorems.HonestHandshake` | vjblockchain-java/src/main/java/com/velopayments/blockchain/agentd/ProtocolHandlerImpl.java:459-461 | Against an agent that looks up the connecting entity's public key by the id in bytes 16 to 32 of the request it received, and computes its own secret from its private key, that key and both nonces, the handshake is accepted, both ends hold that same secret, and the client is in lockstep with what the agent sends next |
| `HandshakeTheorems.HonestSession` | vjblockchain-java/src/main/java/com/velopayments/blockchain/agentd/ProtocolHandlerImpl.java:79-284 | A whole session from a new client: handshake accepted, every call answered from the agent's payloads in order, each counter at the index of its direction's next packet, and the bytes sent behind the first request are the packets of the proof of the secret and of all requests |
| `HandshakeTheorems.AgentReads` | vjblockchain-java/src/main/java/com/velopayments/blockchain/agentd/ProtocolHandlerImpl.java:524-531 | The agent, reading those packets, recovers the proof and the requests if and only if no submitted certificate takes its request over 10 MiB |
| `HandshakeTheorems.SessionKeystream` | vjblockchain-java/src/main/java/com/velopayments/blockchain/agentd/OuterEnvelopeWriter.java:7-22 | In a whole session the bytes sent and the bytes read are the packets of two lists of payloads under the two runs of counters; each packet is the same under another keystream if and only if that one agrees on the keystream bytes counted for it; and no keystream byte was counted for two packets if and only if at most 2^63 were sent |
| `HandshakeTheorems.FrameAt` | vjblockchain-java/src/main/java/com/velopayments/blockchain/agentd/OuterEnvelopeWriter.java:11-22 | The packet at any place of a stream is encrypted under the first counter advanced by that place |
| `HandshakeTheorems.StreamAround` | vjblockchain-java/src/main/java/com/velopayments/blockchain/agentd/OuterEnvelopeWriter.java:7-22 | The i-th packet of either direction, in its place between the others, is under that direction's i-th counter |
| `HandshakeTheorems.SecretSetIff` | vjblockchain-java/src/main/java/com/velopayments/blockchain/agentd/ProtocolHandlerImpl.java:388-461 | A shared secret is set if and only if a 164-byte reply arrives that passes the checks before the computation of the secret, whatever its MAC |
| `HandshakeTheorems.SecretMeansCompletedIff` | vjblockchain-java/src/main/java/com/velopayments/blockchain/agentd/ProtocolHandlerImpl.java:88-91 | The comment that sharedSecret is populated on success holds except exactly when such a reply arrives and the bytes are not the messages of an agent that knows the secret |
| `HandshakeTheorems.SecretWithoutHandshake` | vjblockchain-java/src/main/java/com/velopayments/blockchain/agentd/ProtocolHandlerImpl.java:459-476 | For every suite and configuration, a reply with a wrong MAC makes the handshake throw and leaves a secret, and the next call passes its guard and sends its request |
| `HandshakeTheorems.CheckReplyIff` | vjblockchain-java/src/main/java/com/velopayments/blockchain/agentd/ProtocolHandlerImpl.java:388-449 | The six checks of the first round hold exactly for the fields of the configured agent at their offsets |
| `HandshakeTheorems.CheckReplyVerdict` | vjblockchain-java/src/main/java/com/velopayments/blockchain/agentd/ProtocolHandlerImpl.java:388-449 | Which exception the first failing check throws, by the bytes at each offset |
| `HandshakeTheorems.FirstReplyIff` | vjblockchain-java/src/main/java/com/velopayments/blockchain/agentd/ProtocolHandlerImpl.java:463-476 | The checks and the two-part MAC check together accept exactly the reply that the agent builds with the secret |
| `HandshakeTheorems.FirstReplyRefused` | vjblockchain-java/src/main/java/com/velopayments/blockchain/agentd/ProtocolHandlerImpl.java:388-476 | On a reply of 164 bytes the handshake throws the exception of the first failing check, and then that of a MAC which does not cover the first 132 bytes and the client's challenge |
| `HandshakeTheorems.SecondReplyVerdict` | vjblockchain-java/src/main/java/com/velopayments/blockchain/agentd/ProtocolHandlerImpl.java:563-579 | On an authentic second reply of 12 bytes: InvalidRequestId unless it starts with 0, 0, 0, 1, ErrorStatus unless four zeros follow, and normal return otherwise |
| `HandshakeTheorems.OtherReply` | vjblockchain-java/src/main/java/com/velopayments/blockchain/agentd/ProtocolHandlerImpl.java:352-365 | On anything but a reply of 164 bytes: which exception the handshake throws, how many bytes it has used up, and that secret and counters stay |
| `ProtocolHandler.ProtocolHandlerImpl.Handshake` | vjblockchain-java/src/main/java/com/velopayments/blockchain/agentd/ProtocolHandlerImpl.java:79-83 | The class method does to channel, counters and secret exactly what Session.Handshake says |
| `ProtocolHandler.ProtocolHandlerImpl.InitiateHandshake` | vjblockchain-java/src/main/java/com/velopayments/blockchain/agentd/ProtocolHandlerImpl.java:293-481 | First round over the channel: exactly Session.Initiate, with the request filled in place at 8, 12, 16, 32 and 64, and including where each exception leaves the position |
| `ProtocolHandler.ProtocolHandlerImpl.HandleHandshakeInitiateError` | vjblockchain-java/src/main/java/com/velopayments/blockchain/agentd/ProtocolHandlerImpl.java:483-509 | Sizes below 12 throw at once; otherwise that many bytes are read and the agent is refused |
| `ProtocolHandler.ProtocolHandlerImpl.CheckHandshakeReply` | vjblockchain-java/src/main/java/com/velopayments/blockchain/agentd/ProtocolHandlerImpl.java:388-481 | The shared secret is assigned after the field checks and before the MAC check |
| `ProtocolHandler.ProtocolHandlerImpl.AcknowledgeHandshake` | vjblockchain-java/src/main/java/com/velopayments/blockchain/agentd/ProtocolHandlerImpl.java:524-581 | Second round over the channel: exactly Session.Acknowledge |
| `ProtocolHandler.ProtocolHandlerImpl.ReadPacket` | vjblockchain-java/src/main/java/com/velopayments/blockchain/agentd/ProtocolHandlerImpl.java:629-655 | Header, size check, receive, decrypt: exactly Session.ReceivePacket |
| `ProtocolHandler.ProtocolHandlerImpl.WriteSubmitRequest` | vjblockchain-java/src/main/java/com/velopayments/blockchain/agentd/ProtocolHandlerImpl.java:583-625 | The packet sent is that of the 40+n byte submit request filled in place |
| `ProtocolHandler.ProtocolHandlerImpl.WriteBareRequest` | vjblockchain-java/src/main/java/com/velopayments/blockchain/agentd/ProtocolHandlerImpl.java:682-706 | The packet sent is that of the 8-byte request, for the latest block id and for the status |
| `ProtocolHandler.ProtocolHandlerImpl.WriteIdRequest` | vjblockchain-java/src/main/java/com/velopayments/blockchain/agentd/ProtocolHandlerImpl.java:766-795 | The packet sent is that of the 24-byte request with its UUID at 8, for all nine queries by UUID |
| `ProtocolHandler.ProtocolHandlerImpl.WriteGetBlockIdByBlockHeight` | vjblockchain-java/src/main/java/com/velopayments/blockchain/agentd/ProtocolHandlerImpl.java:1609-1639 | The packet sent is that of the 16-byte request with the height at 8 |
| `ProtocolHandler.ProtocolHandlerImpl.ReadSubmitResponse` | vjblockchain-java/src/main/java/com/velopayments/blockchain/agentd/ProtocolHandlerImpl.java:627-680 | Consumes a reply exactly as Session.ReceiveReply; the status is read and dropped |
| `ProtocolHandler.ProtocolHandlerImpl.ReadGetLatestBlockIdResponse` | vjblockchain-java/src/main/java/com/velopayments/blockchain/agentd/ProtocolHandlerImpl.java:708-763 | Consumes a reply exactly as Session.ReceiveReply |
| `ProtocolHandler.ProtocolHandlerImpl.ReadCertificateResponse` | vjblockchain-java/src/main/java/com/velopayments/blockchain/agentd/ProtocolHandlerImpl.java:797-862 | Consumes a reply exactly as Session.ReceiveReply, with the slice behind the header in range for every size let through |
| `ProtocolHandler.ProtocolHandlerImpl.ReadIdResponse` | vjblockchain-java/src/main/java/com/velopayments/blockchain/agentd/ProtocolHandlerImpl.java:895-953 | Consumes a reply exactly as Session.ReceiveReply, with bytes 12 to 28 in range for every size let through; another status and a short payload give Optional.empty() |
| `ProtocolHandler.ProtocolHandlerImpl.ReadGetConnectionStatus` | vjblockchain-java/src/main/java/com/velopayments/blockchain/agentd/ProtocolHandlerImpl.java:1728-1776 | Consumes a reply exactly as Session.ReceiveReply; any non-zero status becomes 1 |
| `ProtocolHandler.ProtocolHandlerImpl.Submit` | vjblockchain-java/src/main/java/com/velopayments/blockchain/agentd/ProtocolHandlerImpl.java:86-127 | The call is one Session.Step: guard, ids from the certificate, request, reply |
| `ProtocolHandler.ProtocolHandlerImpl.SubmitIds` | vjblockchain-java/src/main/java/com/velopayments/blockchain/agentd/ProtocolHandlerImpl.java:93-118 | The ids come from the first certificate id and artifact id fields, and missing or wrong-sized fields throw before anything is sent |
| `ProtocolHandler.ProtocolHandlerImpl.GetLatestBlockId` | vjblockchain-java/src/main/java/com/velopayments/blockchain/agentd/ProtocolHandlerImpl.java:130-140 | The call is one Session.Step |
| `ProtocolHandler.ProtocolHandlerImpl.GetById` | vjblockchain-java/src/main/java/com/velopayments/blockchain/agentd/ProtocolHandlerImpl.java:143-261 | Each of the nine queries by UUID is one Session.Step |
| `ProtocolHandler.ProtocolHandlerImpl.GetBlockIdByBlockHeight` | vjblockchain-java/src/main/java/com/velopayments/blockchain/agentd/ProtocolHandlerImpl.java:264-275 | The call is one Session.Step |
| `ProtocolHandler.ProtocolHandlerImpl.GetConnectionStatus` | vjblockchain-java/src/main/java/com/velopayments/blockchain/agentd/ProtocolHandlerImpl.java:278-284 | The call is one Session.Step, with no guard |
| `ProtocolHandler.DataChannel.Recv` | vjblockchain-java/src/main/java/com/velopayments/blockchain/agentd/SocketDataChannelImpl.java:55-61 | Exactly n bytes are delivered, or the rest of the stream is used up and EOFException is thrown |
| `Protocol.RequestDecodesIff` | vjblockchain-java/src/main/java/com/velopayments/blockchain/agentd/ProtocolHandlerImpl.java:583-625 | A byte string decodes to a request if and only if it is that request's packet: id, zero offset, arguments |
| `Protocol.RequestIds` | vjblockchain-java/src/main/java/com/velopayments/blockchain/agentd/ProtocolHandlerImpl.java:25-44 | The first four bytes of each of the thirteen requests, as bytes |
| `Protocol.RequestLayout` | vjblockchain-java/src/main/java/com/velopayments/blockchain/agentd/ProtocolHandlerImpl.java:602-619 | Every request has its id at 0, zeros at 4 and its arguments from 8 on: transaction id at 8, artifact id at 24 and certificate at 40, or a UUID at 8, or a height of eight bytes at 8 |
| `Protocol.RequestsAreUnique` | vjblockchain-java/src/main/java/com/velopayments/blockchain/agentd/ProtocolHandlerImpl.java:1701-1726 | Across all operations and arguments, equal request bytes are the same operation with the same arguments |
| `Protocol.IdReplyIff` | vjblockchain-java/src/main/java/com/velopayments/blockchain/agentd/ProtocolHandlerImpl.java:930-953 | The exact payloads that yield an id (own request id, zero status, the id in bytes 12 to 28), and the exact payloads that yield Optional.empty() (own request id, and another status or fewer than 28 bytes) |
| `Protocol.LatestIdReplyIff` | vjblockchain-java/src/main/java/com/velopayments/blockchain/agentd/ProtocolHandlerImpl.java:738-763 | The exact payloads that yield the latest block id |
| `Protocol.ReplyRefusedIff` | vjblockchain-java/src/main/java/com/velopayments/blockchain/agentd/ProtocolHandlerImpl.java:738-763 | Every method refuses exactly the replies with another request id; the latest block id alone has more failures, IOException for another status and InvalidPayloadSize for 12 bytes with status zero |
| `Protocol.CertificateReplyIff` | vjblockchain-java/src/main/java/com/velopayments/blockchain/agentd/ProtocolHandlerImpl.java:833-862 | The exact payloads that yield a certificate (own request id, zero status, the certificate behind 92 or 104 bytes, not empty), and the exact payloads that yield Optional.empty() |
| `Protocol.SubmitReplyIff` | vjblockchain-java/src/main/java/com/velopayments/blockchain/agentd/ProtocolHandlerImpl.java:666-679 | A submission succeeds on any reply with its own request id, whatever the status |
| `Protocol.StatusReplyIff` | vjblockchain-java/src/main/java/com/velopayments/blockchain/agentd/ProtocolHandlerImpl.java:1758-1776 | The exact payloads for status 0 and for status 1 |
| `OuterEnvelope.PacketOpensIff` | vjblockchain-native/src/main/native/com/velopayments/blockchain/agentd/OuterEnvelopeReader_decryptPayloadNative.c:175-283 | Header and rest open to a payload if and only if together they are the packet that encryptPayload makes of it and it is at most 10 MiB |
| `OuterEnvelope.PacketLayout` | vjblockchain-native/src/main/native/com/velopayments/blockchain/agentd/OuterEnvelopeWriter_encryptPayloadNative.c:157-262 | The bytes of a packet: 0x30 under keystream position 0, the size under 1 to 4, at 5 a MAC over everything else, at 37 each payload byte under its own position from 5 on |
| `OuterEnvelope.HeaderAcceptedIff` | vjblockchain-native/src/main/native/com/velopayments/blockchain/agentd/OuterEnvelopeReader_decryptHeaderNative.c:183-209 | A header is accepted with a size if and only if it is the encryption of 0x30 and that size, and the size is 0 to 10485760; any other throws IllegalState |
| `OuterEnvelope.ReadFramesOnlyFrames` | vjblockchain-java/src/main/java/com/velopayments/blockchain/agentd/OuterEnvelopeReader.java:18-29 | Whatever a reader accepts to the end is the concatenation of the writer's packets for what it returned |
| `OuterEnvelope.PacketIsOneRun` | vjblockchain-native/src/main/native/com/velopayments/blockchain/agentd/OuterEnvelopeWriter_encryptPayloadNative.c:157-221 | Header and payload are one contiguous run of the keystream from position 0, split at position 5; which bytes of the keystream that uses is PacketPlaces |
| `OuterEnvelope.PacketPlaces` | vjblockchain-native/src/main/native/com/velopayments/blockchain/agentd/OuterEnvelopeWriter_encryptPayloadNative.c:157-221 | With another keystream a packet is the same if and only if that one has the same bytes at positions 0 to 4 + n |
| `OuterEnvelope.PacketRestsOn` | vjblockchain-native/src/main/native/com/velopayments/blockchain/agentd/OuterEnvelopeWriter_encryptPayloadNative.c:157-221 | The i-th packet of a direction rests on exactly the keystream bytes of KeystreamOf |
| `OuterEnvelope.NoReuseIff` | vjblockchain-java/src/main/java/com/velopayments/blockchain/agentd/OuterEnvelopeReader.java:7-9 | With the client counter from 1 and the server counter from 2^63+1, the (IV, position) pairs of the first n messages each way are distinct if and only if n is at most 2^63, whatever the messages |
| `OuterEnvelope.CounterBytes` | vjblockchain-native/src/main/native/com/velopayments/blockchain/agentd/OuterEnvelopeWriter_encryptPayloadNative.c:157-160 | The IV of a packet is its counter, least significant byte first |
| `OuterEnvelope.UsedOnceIff` | vjblockchain-java/src/main/java/com/velopayments/blockchain/agentd/OuterEnvelopeWriter.java:7-22 | The keystream bytes on which any two packets sent or received rest (PacketRestsOn) are disjoint if and only if there are at most 2^63 packets each way |
| `OuterEnvelope.FramesRoundTripIff` | vjblockchain-java/src/main/java/com/velopayments/blockchain/agentd/OuterEnvelopeReader.java:18-29 | A reader with the writer's key and counter recovers exactly the list of payloads from the concatenated packets, with no byte left, if and only if none of them is over 10 MiB |
| `OuterEnvelope.EncryptHeader` | vjblockchain-native/src/main/native/com/velopayments/blockchain/agentd/OuterEnvelopeWriter_encryptPayloadNative.c:168-192 | Type and size encrypted one behind the other are the header under keystream positions 0 to 4 |
| `OuterEnvelope.EncryptPayloadNative` | vjblockchain-native/src/main/native/com/velopayments/blockchain/agentd/OuterEnvelopeWriter_encryptPayloadNative.c:157-262 | The array built in place, with the MAC copied in last, is the packet; a null key throws |
| `OuterEnvelope.DecryptHeaderNative` | vjblockchain-native/src/main/native/com/velopayments/blockchain/agentd/OuterEnvelopeReader_decryptHeaderNative.c:163-209 | Decryption into a buffer, type check and size bound agree with OpenHeader |
| `OuterEnvelope.DecryptPayloadNative` | vjblockchain-native/src/main/native/com/velopayments/blockchain/agentd/OuterEnvelopeReader_decryptPayloadNative.c:168-283 | The MAC is checked over header and body before decryption from position 5 |
| `OuterEnvelope.OuterEnvelopeWriter.EncryptPayload` | vjblockchain-java/src/main/java/com/velopayments/blockchain/agentd/OuterEnvelopeWriter.java:11-22 | The packet is made under the old counter, and the counter moves by one only when it was made |
| `OuterEnvelope.OuterEnvelopeReader.DecryptPayload` | vjblockchain-java/src/main/java/com/velopayments/blockchain/agentd/OuterEnvelopeReader.java:18-29 | The counter moves by one only when the payload was authentic |
| `Documents.DocumentRoundTripIff` | vjblockchain-java/src/main/java/com/velopayments/blockchain/document/EncryptedDocumentReader.java:82-105 | Reading back what was written gives the document if and only if it was empty or the one read of the IV delivered all 8 bytes |
| `Documents.ShortIvReadExample` | vjblockchain-java/src/main/java/com/velopayments/blockchain/document/EncryptedDocumentReader.java:87-97 | A one-byte document whose first read delivers one byte comes back as eight bytes |
| `EndToEnd.WriteAndReadDocument` | vjblockchain-java/src/main/java/com/velopayments/blockchain/document/EncryptedDocumentReader.java:73-106 | Builder and reader on two streams: the document comes back if and only if it was empty or the one read of the IV delivered all 8 bytes, however both sources split their bytes |
| `Documents.EncryptedDocumentBuilder.Encrypt` | vjblockchain-java/src/main/java/com/velopayments/blockchain/document/EncryptedDocumentBuilder.java:85-117 | However the source splits its bytes into reads, the destination receives the one-shot encryption: the IV once and only for a non-empty document, then byte i of the plaintext under keystream position i (DocumentLayout) |
| `Documents.DocumentLayout` | vjblockchain-native/src/main/native/com/velopayments/blockchain/document/EncryptedDocumentBuilder_encryptData.c:160-197 | The bytes of an encrypted document: the IV, then byte i of the plaintext combined with the keystream byte at i; nothing for an empty one |
| `Documents.DocumentRestsOn` | vjblockchain-native/src/main/native/com/velopayments/blockchain/document/EncryptedDocumentBuilder_encryptData.c:183-195 | With another keystream an encrypted document is the same if and only if that one has the same bytes at positions 0 to n-1 |
| `Documents.EncryptedDocumentReader.Decrypt` | vjblockchain-java/src/main/java/com/velopayments/blockchain/document/EncryptedDocumentReader.java:73-106 | However the source splits its bytes, the destination receives the one-shot decryption that belongs to the length of the IV read |
| `Documents.DecryptLayout` | vjblockchain-java/src/main/java/com/velopayments/blockchain/document/EncryptedDocumentReader.java:87-105 | Byte i behind the IV read is combined with the keystream byte at i under that IV, missing IV bytes being zero |
| `Documents.EncryptData` | vjblockchain-native/src/main/native/com/velopayments/blockchain/document/EncryptedDocumentBuilder_encryptData.c:133-197 | The array filled through an advancing cursor is the IV, at offset 0 only, and the chunk under the keystream from the offset |
| `Documents.DecryptData` | vjblockchain-native/src/main/native/com/velopayments/blockchain/document/EncryptedDocumentReader_decryptData.c:134-204 | At offset 0 the first 8 bytes are the IV; later the argument is, and the keystream starts at the offset |
| `Certificates.WalkSerialize` | vjblockchain-native/src/main/native/com/velopayments/blockchain/cert/CertificateParser_parseNative.c:102-142 | Parsing the emitted bytes, with anything behind them, returns the same values in order with ids modulo 2^16 |
| `Certificates.SerializeWalk` | vjblockchain-native/src/main/native/com/velopayments/blockchain/cert/CertificateParser_parseNative.c:102-142 | For every byte string, the fields found and the rest left over, written out again, are that string, and no complete field is left over |
| `Certificates.FieldLayout` | vjblockchain-java/src/test/java/com/velopayments/blockchain/cert/CertificateParserTest.java:92-106 | A field is written as two bytes of id, two bytes of size, and the value |
| `Certificates.FieldRead` | vjblockchain-java/src/test/java/com/velopayments/blockchain/cert/CertificateParserTest.java:92-106 | A field is read as two bytes of id, two bytes of size, and as many bytes of value, and only when they are all there |
| `Certificates.CertificateBuilder.Emit` | vjblockchain-native/src/main/native/com/velopayments/blockchain/cert/CertificateBuilder_emit.c:47-158 | Of the fields that fit, only the empty list is refused; the size loop equals what the fill loop writes, so the mismatch branch and the builder errors are unreachable |
| `Certificates.CertificateBuilder.Fill` | vjblockchain-native/src/main/native/com/velopayments/blockchain/cert/CertificateBuilder_emit.c:60-127 | With 16-bit value lengths the fill loop writes the serialized fields and never runs out of the room that the size loop computed |
| `Certificates.CertificateBuilder.Sign` | vjblockchain-native/src/main/native/com/velopayments/blockchain/cert/CertificateBuilder_signNative.c:74-223 | Fields, signer id and a signature over all bytes before its own field; a private key of another size throws |
| `Certificates.SignedLayout` | vjblockchain-native/src/main/native/com/velopayments/blockchain/cert/CertificateBuilder_signNative.c:185-205 | The bytes of a signed certificate: the fields, 00 50 00 10 and the signer id, 00 51 00 40 and the signature of all bytes before that |
| `Certificates.ParseNative` | vjblockchain-native/src/main/native/com/velopayments/blockchain/cert/CertificateParser_parseNative.c:102-142 | The do/while loop returns every complete field from the start on; no field at all throws, an incomplete tail does not |
| `Certificates.ParseRefusedIff` | vjblockchain-java/src/test/java/com/velopayments/blockchain/cert/CertificateParserTest.java:69-86 | Parsing throws if and only if not even the first field is complete |
| `Certificates.CertificateParser.Parse` | vjblockchain-java/src/main/java/com/velopayments/blockchain/cert/CertificateParser.java:48-63 | The loop over compute and appendField builds the multimap of the visible fields |
| `Certificates.CertificateParser.Attest` | vjblockchain-native/src/main/native/com/velopayments/blockchain/cert/CertificateParser_attestNative.c:110-177 | Attestation always works from rawSize and decides as AttestsIff and RefusesIff say; success narrows what parse sees and failure changes nothing, with size never above rawSize |
| `Certificates.AttestsIff` | vjblockchain-native/src/main/native/com/velopayments/blockchain/cert/CertificateParser_attestNative.c:158-177 | Any bytes attest if and only if they are a whole number of fields without a signature, then the field of a 64-byte signature, then anything, the first signer field names an entity whose key is known, that key verifies the signature over the bytes before it, and no contract is asked for; the visible size is that of those bytes |
| `Certificates.RefusesIff` | vjblockchain-native/src/main/native/com/velopayments/blockchain/cert/CertificateParser_attestNative.c:185-337 | Refusal is UnknownEntityException if and only if there are such a signature and a signer whose key is not known, and AttestationException otherwise |
| `Certificates.UnsignedIsRefused` | vjblockchain-native/src/main/native/com/velopayments/blockchain/cert/CertificateParser_attestNative.c:185-195 | Without a signature field, or without a signer field, attestation fails with AttestationException |
| `Certificates.SignAttestParse` | vjblockchain-native/src/main/native/com/velopayments/blockchain/cert/CertificateParser_attestNative.c:158-177 | With no signature field among the builder's and anything behind the signature: attestation succeeds if and only if the named signer resolves to a key that verifies and no contract is asked for, and then exactly the builder's fields and the signer id are visible |
| `Certificates.CountIsOccurrences` | vjblockchain-java/src/main/java/com/velopayments/blockchain/cert/CertificateReader.java:28-36 | count(f) is the number of fields with id f |
| `Certificates.GetIsIthOccurrence` | vjblockchain-java/src/main/java/com/velopayments/blockchain/cert/CertificateReader.java:76-85 | get(f, i) returns a value if and only if it is that of the i-th field with id f |
| `Certificates.GetRefusedIff` | vjblockchain-java/src/main/java/com/velopayments/blockchain/cert/CertificateReader.java:76-85 | get(f, i) throws MissingField if and only if f does not occur or i is at or above its count, and an index error if and only if it occurs and i is negative |
| `Certificates.CountsAddUp` | vjblockchain-java/src/main/java/com/velopayments/blockchain/cert/CertificateParser.java:48-63 | Over all 16-bit ids the counts of a parsed certificate's reader sum to the number of its fields, and no other id counts anything |
| `Certificates.EmitParseRead` | vjblockchain-java/src/main/java/com/velopayments/blockchain/cert/CertificateReader.java:76-85 | Build, emit, parse, read: every value added is read back at its own rank under its id |
| `FieldCodec.SignedFieldRoundTrip` | vjblockchain-java/src/main/java/com/velopayments/blockchain/cert/CertificateBuilder.java:231-271 | Bytes, shorts, ints and longs are exact over their whole ranges, and any other number comes back as the one of the range with the same low bits |
| `FieldCodec.UuidFieldRoundTrip` | vjblockchain-java/src/main/java/com/velopayments/blockchain/cert/CertificateBuilder.java:323-329 | UUID fields are exact |
| `FieldCodec.DateRoundTripIff` | vjblockchain-java/src/main/java/com/velopayments/blockchain/cert/CertificateFieldReader.java:128-135 | A date comes back rounded down to a whole second if and only if it is at or above -9223372036854775000 milliseconds |
| `FieldCodec.DateSeconds` | vjblockchain-java/src/main/java/com/velopayments/blockchain/cert/CertificateBuilder.java:293-299 | What is written for a date is its second, rounded down |
| `FieldCodec.DateOfSeconds` | vjblockchain-java/src/main/java/com/velopayments/blockchain/cert/CertificateFieldReader.java:128-135 | Any eight bytes are read as so many seconds, exactly if and only if their milliseconds fit a long, and modulo 2^64 always |
| `FieldCodec.SmallestDatesWrap` | vjblockchain-java/src/main/java/com/velopayments/blockchain/cert/CertificateFieldReader.java:134-134 | The 808 dates below that come back 2^64 milliseconds late |
| `FieldCodec.CertificateFieldReader.AsSigned` | vjblockchain-java/src/main/java/com/velopayments/blockchain/cert/CertificateFieldReader.java:29-81 | Exactly the right number of remaining bytes converts and is consumed; anything else throws and consumes nothing |
| `FieldCodec.CertificateFieldReader.AsUUID` | vjblockchain-java/src/main/java/com/velopayments/blockchain/cert/CertificateFieldReader.java:89-99 | The same for the 16 bytes of a UUID |
| `FieldCodec.CertificateFieldReader.AsDate` | vjblockchain-java/src/main/java/com/velopayments/blockchain/cert/CertificateFieldReader.java:128-135 | The same for the 8 bytes of a date, multiplied in long arithmetic |
| `StreamEnvelope.SealRoundTrip` | vjblockchain-native/src/main/native/com/velopayments/blockchain/crypt/SimpleStreamCipher_decryptNative.c:128-295 | decrypt(encrypt(x)) = x for every input and all random choices |
| `StreamEnvelope.SealLayout` | vjblockchain-native/src/main/native/com/velopayments/blockchain/crypt/SimpleStreamCipher_encryptNative.c:252-359 | The bytes of an envelope: wrapped key at 0, IV at 48, byte i of the input combined with keystream byte i at 56 + i, and the MAC of everything before it |
| `StreamEnvelope.OpenOnlySealed` | vjblockchain-native/src/main/native/com/velopayments/blockchain/crypt/SimpleStreamCipher_decryptNative.c:190-295 | Whatever decrypts is the envelope of its result for the session key and IVs found inside |
| `StreamEnvelope.OpensIff` | vjblockchain-native/src/main/native/com/velopayments/blockchain/crypt/SimpleStreamCipher_decryptNative.c:128-298 | A blob opens if and only if it has 120 bytes and ends in the MAC of the bytes before it under the unwrapped key; any other throws MessageAuthenticationException |
| `StreamEnvelope.EncryptNative` | vjblockchain-native/src/main/native/com/velopayments/blockchain/crypt/SimpleStreamCipher_encryptNative.c:252-359 | The two-step digest covers exactly the bytes that decryption digests in one step, and the output is 120 bytes longer than the input |
| `StreamEnvelope.DecryptNative` | vjblockchain-native/src/main/native/com/velopayments/blockchain/crypt/SimpleStreamCipher_decryptNative.c:128-298 | Short input and a wrong MAC throw before anything is decrypted |
| `EncryptedCertificates.EncryptedCertificateRoundTrip` | vjblockchain-java/src/main/java/com/velopayments/blockchain/cert/EncryptedCertificateReader.java:52-120 | For any order of plain, encrypted and shared-secret adds, and any fields appended later, a recipient whose first fragment was wrapped for its own key recovers the secret key; under an id whose values were all added encrypted the i-th read gives the i-th value, except that an empty one is refused; and under an id without encrypted values the i-th get gives the i-th value added, behind the default one if the id is 0x0001, 0x0020 or 0x0030 |
| `EndToEnd.SignAndRead` | vjblockchain-java/src/main/java/com/velopayments/blockchain/cert/EncryptedCertificateReader.java:85-120 | Build, sign, attest with anything behind the signature, parse, load the secret key, read: the certificate attests and the recipient gets the encrypted and the plain values that were added, and the default ones |
| `EndToEnd.EmitAndRead` | vjblockchain-java/src/main/java/com/velopayments/blockchain/cert/EncryptedCertificateReader.java:52-120 | Build, emit, parse, load the secret key, read: the recipient gets the encrypted and the plain values that were added, and the default ones |
| `EncryptedCertificates.SecretFound` | vjblockchain-java/src/main/java/com/velopayments/blockchain/cert/EncryptedCertificateReader.java:94-112 | The scan finds the recipient's own secret behind any number of fragments for others, whatever follows it |
| `EncryptedCertificates.FragmentOpens` | vjblockchain-java/src/main/java/com/velopayments/blockchain/cert/EncryptedCertificateBuilder.java:172-184 | A fragment opens to the secret key for its addressee and to nothing for everyone else |
| `EncryptedCertificates.FragmentLayout` | vjblockchain-java/src/main/java/com/velopayments/blockchain/cert/EncryptedCertificateBuilder.java:167-181 | The bytes of a fragment: 00 A1 00 10 and the addressee's id, 00 A2 00 30 and the key wrapped under the long-term secret of the two |
| `EncryptedCertificates.FragmentVerdict` | vjblockchain-java/src/main/java/com/velopayments/blockchain/cert/EncryptedCertificateReader.java:95-111 | For any bytes, which exception the scan throws on a fragment, when it passes it over, and which secret it takes from it |
| `EncryptedCertificates.FirstDecides` | vjblockchain-java/src/main/java/com/velopayments/blockchain/cert/EncryptedCertificateReader.java:94-112 | The first fragment that is not passed over decides, and there is no secret when all are |
| `EncryptedCertificates.ValuesSelected` | vjblockchain-java/src/main/java/com/velopayments/blockchain/cert/EncryptedCertificateBuilder.java:145-155 | The parsed values under an id are, in order, encryptions of the values that were added encrypted |
| `EncryptedCertificates.PlainValuesSelected` | vjblockchain-java/src/main/java/com/velopayments/blockchain/cert/CertificateBuilder.java:177-185 | The parsed values under an id without encrypted values are, in order, the values that were added |
| `EncryptedCertificates.PlainParsed` | vjblockchain-java/src/main/java/com/velopayments/blockchain/cert/CertificateReader.java:76-85 | get(f, i) on the parsed certificate is the i-th of the default and the added plain values under f, and MissingField beyond them |
| `EncryptedCertificates.DefaultsAre` | vjblockchain-java/src/main/java/com/velopayments/blockchain/cert/CertificateBuilder.java:43-52 | Every complete certificate starts with version 00 01 00 00 under 0x0001, suite 00 01 under 0x0020 and its type under 0x0030 |
| `EncryptedCertificates.DistinctIvsIff` | vjblockchain-java/src/main/java/com/velopayments/blockchain/cert/EncryptedCertificateBuilder.java:146-150 | The IVs of one builder's first n encrypted values are distinct if and only if n is at most 2^64 |
| `EncryptedCertificates.EncryptedLayout` | vjblockchain-java/src/main/java/com/velopayments/blockchain/cert/EncryptedCertificateBuilder.java:145-155 | The field of an encrypted value is the number of encrypted values before it in eight bytes, and behind that each byte combined with the keystream byte of its own place under that IV |
| `EncryptedCertificates.EncryptedCertificateBuilder.constructor` | vjblockchain-java/src/main/java/com/velopayments/blockchain/cert/EncryptedCertificateBuilder.java:15-36 | A new builder has the three default fields (DefaultsAre) and counter 0 |
| `EncryptedCertificates.EncryptedCertificateBuilder.AddEncryptedByteArray` | vjblockchain-java/src/main/java/com/velopayments/blockchain/cert/EncryptedCertificateBuilder.java:145-155 | The same, with the value encrypted under the old counter and the counter one further |
| `EncryptedCertificates.EncryptedCertificateBuilder.AddEncryptedSharedSecret` | vjblockchain-java/src/main/java/com/velopayments/blockchain/cert/EncryptedCertificateBuilder.java:165-187 | The same, with a nested certificate holding the addressee's id and the wrapped key |
| `EncryptedCertificates.EncryptKey` | vjblockchain-native/src/main/native/com/velopayments/blockchain/cert/EncryptedCertificateBuilder_encryptKey.c:247-268 | IV, first block, and a second block chained on the bytes just written |
| `EncryptedCertificates.DecryptSecret` | vjblockchain-native/src/main/native/com/velopayments/blockchain/cert/EncryptedCertificateReader_decryptSecretNative.c:198-254 | The two chained blocks unwrapped in place, with zeros behind them for longer input |
| `EncryptedCertificates.EncryptData` | vjblockchain-native/src/main/native/com/velopayments/blockchain/cert/EncryptedCertificateBuilder_encryptData.c:156-175 | The IV and then the value under keystream position 0 and on (ValueLayout) |
| `EncryptedCertificates.DecryptData` | vjblockchain-native/src/main/native/com/velopayments/blockchain/cert/EncryptedCertificateReader_decryptNative.c:139-162 | The inverse of that |
| `EncryptedCertificates.ValueLayout` | vjblockchain-native/src/main/native/com/velopayments/blockchain/cert/EncryptedCertificateBuilder_encryptData.c:156-175 | The bytes of an encrypted value: the IV at 0, and at 8 + i byte i combined with keystream byte i |
| `EncryptedCertificates.EncryptedCertificateReader.LoadSecretKey` | vjblockchain-java/src/main/java/com/velopayments/blockchain/cert/EncryptedCertificateReader.java:85-120 | The first fragment that fails or is the reader's own decides; an unsuccessful scan keeps an earlier secret and is an error only without one |
| `EncryptedCertificates.EncryptedCertificateReader.TryFragment` | vjblockchain-java/src/main/java/com/velopayments/blockchain/cert/EncryptedCertificateReader.java:95-111 | Parsing one fragment, comparing its addressee and unwrapping, with every exception |
| `EncryptedCertificates.EncryptedCertificateReader.GetEncrypted` | vjblockchain-java/src/main/java/com/velopayments/blockchain/cert/EncryptedCertificateReader.java:52-79 | No secret, a missing field and a value of 8 bytes or fewer throw; otherwise the decrypted value |
| `EncryptedCertificates.ReadEncryptedIff` | vjblockchain-java/src/main/java/com/velopayments/blockchain/cert/EncryptedCertificateReader.java:52-79 | A value is read if and only if a secret is loaded and the field holds an encryption of it, not empty, under the secret's first 32 bytes |
| `Vccrypt.UnwrapInvertsWrap` | vjblockchain-native/src/main/native/com/velopayments/blockchain/cert/EncryptedCertificateReader_decryptSecretNative.c:236-254 | A wrapped key unwraps to a secret if and only if it is the wrapping of that secret under its own IV |
| `Vccrypt.WrapLayout` | vjblockchain-native/src/main/native/com/velopayments/blockchain/cert/EncryptedCertificateBuilder_encryptKey.c:250-268 | The three blocks of a wrapped key: the IV, the first half of the secret encrypted under the IV, and the second half encrypted under the first half's ciphertext |
| `Vccrypt.StreamAt` | vjblockchain-native/src/main/native/com/velopayments/blockchain/agentd/OuterEnvelopeWriter_encryptPayloadNative.c:165-221 | A run of the stream cipher combines byte i with the keystream byte at its first position plus i, and changes nothing else |
| `Vccrypt.StreamPlaces` | vjblockchain-native/src/main/native/com/velopayments/blockchain/agentd/OuterEnvelopeWriter_encryptPayloadNative.c:165-221 | With another keystream a run is the same if and only if that one has the same bytes at every position of the run |
| `Vccrypt.WrapKeyInto` | vjblockchain-native/src/main/native/com/velopayments/blockchain/cert/EncryptedCertificateBuilder_encryptKey.c:250-268 | The 48 bytes written block by block are the wrapped key, and nothing else changes |
| `Vccrypt.UnwrapKeyInto` | vjblockchain-native/src/main/native/com/velopayments/blockchain/crypt/SimpleStreamCipher_decryptNative.c:196-206 | The 32 bytes written block by block are the unwrapped key |
| `Vccrypt.DigestArray` | vjblockchain-native/src/main/native/com/velopayments/blockchain/crypt/HMAC_digestArrNative.c:95-176 | The MAC of many parts, short or long, is the MAC of their concatenation, for any number of parts |
| `Uuids.UuidBijection` | vjblockchain-java/src/main/java/com/velopayments/blockchain/util/UuidUtil.java:27-57 | The Java codec is a bijection between UUIDs and 16-byte strings (section 4.1.2 of RFC 4122) |
| `Uuids.UuidHalves` | vjblockchain-java/src/main/java/com/velopayments/blockchain/util/UuidUtil.java:27-57 | The most significant half comes first, each half most significant byte first |
| `Uuids.ShiftInIsFromBE` | vjblockchain-native/src/main/native/util/uuid_conv.c:38-54 | The C shifts read the number that ByteBuffer reads |
| `Uuids.MaskOutIsPutLong` | vjblockchain-native/src/main/native/util/uuid_conv.c:89-104 | The C masks write the bytes that ByteBuffer writes |
| `Uuids.UuidToBytesNative` | vjblockchain-native/src/main/native/util/uuid_conv.c:70-105 | The buffer written byte by byte holds the bytes that the Java codecs produce |
| `Uuids.UuidFromBytesNative` | vjblockchain-native/src/main/native/util/uuid_conv.c:24-60 | The C code reads the UUID that the Java codecs read |
| `ByteUtil.NtohlHtonl` | vjblockchain-java/src/main/java/com/velopayments/blockchain/util/ByteUtil.java:12-36 | ntohl(htonl(v)) = v modulo 2^32 for every v, and htonl(ntohl(s)) = s for every four bytes |
| `ByteUtil.NetworkOrder` | vjblockchain-java/src/main/java/com/velopayments/blockchain/util/ByteUtil.java:12-36 | Four bytes and the number they spell, most significant first |
| `ByteUtil.ConstantTimeEqual` | vjblockchain-java/src/main/java/com/velopayments/blockchain/util/EqualsUtil.java:20-43 | The full scan decides equality of any two arrays, null arguments included |

## Left out

- The insides of the ciphers, MACs, key agreements, signatures and random generators: they live in libraries
  that are not part of the repository. Random choices (nonces, IVs, generated keys) are parameters.
- The certificate library is not part of the repository either. Its field format is the one that
  `CertificateParserTest.java:71-106` spells out, and its attestation is reconstructed from the wrapper and its
  tests: first signer id, first signature field, the bytes before it, and a contract resolver that returns
  nothing. A signature of other than 64 bytes or a signer id of other than 16 counts as missing.
- Certificates.CertificateBuilder.Emit: promises nothing about a value of 2^16 bytes or more, or a total of 2^31,
  because how the certificate library and the JNI size arithmetic treat those is not visible.
- Certificates.CertificateBuilder.Fill: promises nothing about a value of 2^16 bytes or more, for the same reason.
- Certificates.CertificateBuilder.Sign: promises what Emit does, for totals that leave room for its own two fields.
- Certificates.CertificateParser.Attest: speaks of that reconstruction, and does not model the library refusing to
  start on some bytes, because what it refuses is not visible.
- EncryptedCertificates.DecryptSecret: a wrapped key under 48 bytes is an error here; the C code reads past it.
- EncryptedCertificates.EncryptedCertificateReader.TryFragment: throws for such a key, for the same reason.
- EncryptedCertificates.EncryptedCertificateBuilder.constructor: the inherited field list is a builder held in
  a field, because the model has no class inheritance.
- OuterEnvelope.NoReuseIff: the IV of a packet is the counter's bytes in memory, taken in
  little-endian order; other byte orders are not modelled.
- Documents.EncryptedDocumentBuilder.Encrypt: the document offset is unbounded, where the source has a long.
- ProtocolHandler.ProtocolHandlerImpl.GetById: the nine queries by UUID, written out nine times in the source,
  are one method with the request id as a parameter, and their writing and reading methods likewise.
- Allocation failures and the null checks of the JNI layer, apart from the null shared secret.
- InnerEnvelope, GenericStreamCipher, the document key wrap and getOptUUIDFromBytes: layouts covered elsewhere.
- String and ZonedDateTime fields, and the map's key set: library behaviour.
- Sockets, connecting and closing, RemoteAgentConnection, library loading and registration: plumbing.
