/** The outer envelope of the agent protocol: one authenticated packet, and a stream of them. */
module OuterEnvelope {
  import opened Bytes
  import opened Results
  import opened Vccrypt

  const IPC_DATA_TYPE_AUTHED_PACKET: byte := 0x30
  const HEADER_SIZE: nat := 5
  const MAX_PAYLOAD_SIZE: int := 10 * 1024 * 1024

  const CLIENT_IV_START: ulong := 0x0000_0000_0000_0001
  const SERVER_IV_START: ulong := 0x8000_0000_0000_0001

  /** ++iv, which wraps. */
  function Next(iv: ulong): ulong {
    (iv + 1) % TWO_64
  }

  function Reversed(s: seq<byte>): (r: seq<byte>)
    ensures |r| == |s|
  {
    seq(|s|, i requires 0 <= i < |s| => s[|s| - 1 - i])
  }

  lemma ReversedInjective(s: seq<byte>, t: seq<byte>)
    requires Reversed(s) == Reversed(t)
    ensures s == t
  {
    assert |s| == |Reversed(s)| == |t|;
    forall i | 0 <= i < |s| ensures s[i] == t[i] {
      assert Reversed(s)[|s| - 1 - i] == s[i] && Reversed(t)[|s| - 1 - i] == t[i];
    }
  }

  /** The eight bytes of a uint64_t in memory, least significant first. */
  function NativeBytes(iv: ulong): (s: seq<byte>)
    ensures |s| == 8
  {
    Reversed(ToBE(iv, 8))
  }

  /** The IV of a packet has the least significant byte of its counter first. */
  lemma CounterBytes(iv: ulong, i: nat)
    requires i < 8
    ensures NativeBytes(iv)[i] as int == iv / Pow256(i) % 256
  {
    DigitOfBE(iv, 8, 7 - i);
  }

  lemma NativeBytesInjective(a: ulong, b: ulong)
    requires NativeBytes(a) == NativeBytes(b)
    ensures a == b
  {
    ReversedInjective(ToBE(a, 8), ToBE(b, 8));
    Pow256Values();
    ToBEInjective(a, b, 8);
  }

  function Header(payloadSize: nat): (s: seq<byte>)
    ensures |s| == HEADER_SIZE
  {
    [IPC_DATA_TYPE_AUTHED_PACKET] + ToBE(payloadSize, 4)
  }

  /** The packet for a payload: encrypted header, MAC, encrypted payload. Header and payload share
      one keystream, split at position 5; the MAC covers both in their encrypted form. */
  function Packet(suite: Suite, key: seq<byte>, iv: ulong, payload: seq<byte>): (packet: seq<byte>)
    ensures |packet| == HEADER_SIZE + MAC_SHORT_SIZE + |payload|
  {
    var header := Stream(suite, key, NativeBytes(iv), 0, Header(|payload|));
    var body := Stream(suite, key, NativeBytes(iv), HEADER_SIZE, payload);
    header + suite.macShort(key, header + body) + body
  }

  /** Filling a buffer with header and body lays out the packet around a gap. */
  lemma FillPacket(empty: seq<byte>, header: seq<byte>, body: seq<byte>)
    requires |empty| == 37 + |body| && |header| == 5
    ensures var filled := Splice(Splice(empty, 0, header), 37, body);
            filled[..5] == header && filled[37..] == body
  {
  }

  lemma SpliceJoins(s: seq<byte>, a: seq<byte>, b: seq<byte>)
    requires |a| + |b| <= |s|
    ensures Splice(Splice(s, 0, a), |a|, b) == Splice(s, 0, a + b)
  {
  }

  lemma HeaderIsOneRun(suite: Suite, key: seq<byte>, iv: seq<byte>, n: nat)
    ensures Stream(suite, key, iv, 0, Header(n))
         == Stream(suite, key, iv, 0, [IPC_DATA_TYPE_AUTHED_PACKET]) + Stream(suite, key, iv, 1, ToBE(n, 4))
  {
    StreamJoins(suite, key, iv, 0, [IPC_DATA_TYPE_AUTHED_PACKET], ToBE(n, 4));
  }

  lemma RunsJoin(a: seq<byte>, b: seq<byte>, a': seq<byte>, b': seq<byte>)
    requires |a| == |a'|
    ensures a + b == a' + b' <==> a == a' && b == b'
  {
    assert (a + b)[..|a|] == a && (a + b)[|a|..] == b && (a' + b')[..|a|] == a' && (a' + b')[|a|..] == b';
  }

  /** The encrypted header: the type 0x30 under keystream position 0, and the size under the next four. */
  ghost predicate IsHeader(suite: Suite, key: seq<byte>, iv: ulong, n: nat, header: seq<byte>) {
    && |header| == 5
    && header[0] == 0x30 ^ suite.keystream(key, NativeBytes(iv), 0)
    && header[1..] == Stream(suite, key, NativeBytes(iv), 1, ToBE(n, 4))
  }

  lemma HeaderHidden(suite: Suite, key: seq<byte>, iv: ulong, n: nat, header: seq<byte>)
    requires |header| == 5
    ensures header == Stream(suite, key, NativeBytes(iv), 0, Header(n)) <==> IsHeader(suite, key, iv, n, header)
  {
    HeaderIsOneRun(suite, key, NativeBytes(iv), n);
    assert header == [header[0]] + header[1..];
    RunsJoin([header[0]], header[1..], Stream(suite, key, NativeBytes(iv), 0, [0x30]),
             Stream(suite, key, NativeBytes(iv), 1, ToBE(n, 4)));
  }

  /** The bytes of a packet: header, a MAC over everything else, and from position 37 on the payload, which goes
      on at keystream position 5. */
  lemma PacketLayout(suite: Suite, key: seq<byte>, iv: ulong, payload: seq<byte>, i: nat)
    ensures var packet := Packet(suite, key, iv, payload);
            && |packet| == 37 + |payload|
            && IsHeader(suite, key, iv, |payload|, packet[..5])
            && packet[5..37] == suite.macShort(key, packet[..5] + packet[37..])
            && (i < |payload| ==> packet[37 + i] == payload[i] ^ suite.keystream(key, NativeBytes(iv), 5 + i))
  {
    var header := Stream(suite, key, NativeBytes(iv), 0, Header(|payload|));
    var body := Stream(suite, key, NativeBytes(iv), 5, payload);
    HeaderHidden(suite, key, iv, |payload|, header);
    StreamAt(suite, key, NativeBytes(iv), 5, payload, body);
    ThreeOf(header, suite.macShort(key, header + body), body);
  }

  lemma ThreeOf(a: seq<byte>, b: seq<byte>, c: seq<byte>)
    ensures var s := a + b + c;
            s[..|a|] == a && s[|a|..|a| + |b|] == b && s[|a| + |b|..] == c
    ensures forall i :: 0 <= i < |c| ==> (a + b + c)[|a| + |b| + i] == c[i]
  {
  }

  /** The first encryption steps of encryptPayloadNative: type and size, one behind the other. */
  method EncryptHeader(stream: StreamContext, payloadSize: nat, packet: array<byte>) returns (offset: nat)
    requires stream.position == 0 && packet.Length >= HEADER_SIZE
    modifies stream`position, packet
    ensures offset == HEADER_SIZE && stream.position == HEADER_SIZE && stream.iv == old(stream.iv)
    ensures packet[..] == Splice(old(packet[..]), 0,
                                 Stream(stream.suite, stream.key, stream.iv, 0, Header(payloadSize)))
  {
    ghost var empty := packet[..];
    offset := stream.Crypt([IPC_DATA_TYPE_AUTHED_PACKET], packet, 0, 0);
    offset := stream.Crypt(ToBE(payloadSize, 4), packet, 0, offset);
    HeaderIsOneRun(stream.suite, stream.key, stream.iv, payloadSize);
    SpliceJoins(empty, Stream(stream.suite, stream.key, stream.iv, 0, [IPC_DATA_TYPE_AUTHED_PACKET]),
                Stream(stream.suite, stream.key, stream.iv, 1, ToBE(payloadSize, 4)));
  }

  /** The encryption steps of encryptPayloadNative: header and payload go into the packet under one
      shared cursor, around a gap for the MAC. */
  method EncryptParts(suite: Suite, key: seq<byte>, iv: ulong, payload: seq<byte>) returns (packet: array<byte>)
    ensures fresh(packet) && packet.Length == HEADER_SIZE + MAC_SHORT_SIZE + |payload|
    ensures packet[..5] == Stream(suite, key, NativeBytes(iv), 0, Header(|payload|))
    ensures packet[37..] == Stream(suite, key, NativeBytes(iv), HEADER_SIZE, payload)
  {
    var n := |payload|;
    packet := new byte[1 + 4 + MAC_SHORT_SIZE + n](_ => 0);
    ghost var empty := packet[..];
    var stream := new StreamContext(suite, key);
    stream.Continue(NativeBytes(iv), 0);
    var offset := EncryptHeader(stream, n, packet);
    ghost var header := Stream(suite, key, stream.iv, 0, Header(n));
    offset := stream.Crypt(payload, packet, MAC_SHORT_SIZE, offset);
    ghost var body := Stream(suite, key, stream.iv, HEADER_SIZE, payload);
    FillPacket(empty, header, body);
    assert packet[..5] == packet[..][..5] && packet[37..] == packet[..][37..];
  }

  /** encryptPayloadNative. */
  method EncryptPayloadNative(suite: Suite, sharedSecret: Option<seq<byte>>, iv: ulong, payload: seq<byte>)
    returns (r: Result<seq<byte>>)
    ensures r == if sharedSecret.None? then Err(NullPointer)
                 else Ok(Packet(suite, sharedSecret.value, iv, payload))
  {
    if sharedSecret.None? {
      return Err(NullPointer);
    }
    var key := sharedSecret.value;
    var packet := EncryptParts(suite, key, iv, payload);
    ghost var header, body := packet[..5], packet[37..];
    var mac := new MacContext(suite, key);
    mac.Digest(packet[..5]);
    mac.Digest(packet[5 + MAC_SHORT_SIZE..]);
    assert mac.digested == header + body;
    var digest := mac.FinalizeShort();
    ArrayCopy(digest, packet, 5);
    assert packet[..] == header + digest + body;
    r := Ok(packet[..]);
  }

  /** What decryptHeaderNative returns or throws. */
  function OpenHeader(suite: Suite, key: seq<byte>, iv: ulong, header: seq<byte>): (r: Result<nat>)
    ensures r.Ok? ==> r.value <= MAX_PAYLOAD_SIZE
  {
    if |header| != HEADER_SIZE then Err(IllegalState)
    else
      var plain := Stream(suite, key, NativeBytes(iv), 0, header);
      if plain[0] != IPC_DATA_TYPE_AUTHED_PACKET then Err(IllegalState)
      else if FromBE(plain[1..]) > MAX_PAYLOAD_SIZE then Err(IllegalState)
      else Ok(FromBE(plain[1..]))
  }

  /** decryptHeaderNative. */
  method DecryptHeaderNative(suite: Suite, key: seq<byte>, iv: ulong, header: seq<byte>)
    returns (r: Result<nat>)
    ensures r == OpenHeader(suite, key, iv, header)
  {
    if |header| != 5 {
      return Err(IllegalState);
    }
    var plain := new byte[|header|](_ => 0);
    var stream := new StreamContext(suite, key);
    stream.Continue(NativeBytes(iv), 0);
    var offset := 0;
    offset := stream.Crypt(header, plain, 0, offset);
    assert plain[..] == Stream(suite, key, NativeBytes(iv), 0, header);
    assert plain[1..] == plain[..][1..];
    if plain[0] != IPC_DATA_TYPE_AUTHED_PACKET {
      return Err(IllegalState);
    }
    var payloadSize := FromBE(plain[1..]);
    if payloadSize > MAX_PAYLOAD_SIZE {
      return Err(IllegalState);
    }
    r := Ok(payloadSize);
  }

  /** What decryptPayloadNative returns or throws; its payload argument starts with the MAC. */
  function OpenPayload(suite: Suite, key: seq<byte>, iv: ulong, header: seq<byte>, payload: seq<byte>)
    : (r: Result<seq<byte>>)
    ensures r.Ok? ==> |r.value| + MAC_SHORT_SIZE == |payload|
  {
    if |payload| < MAC_SHORT_SIZE then Err(MessageVerification)
    else
      var body := payload[MAC_SHORT_SIZE..];
      if payload[..MAC_SHORT_SIZE] != suite.macShort(key, header + body) then Err(MessageVerification)
      else Ok(Stream(suite, key, NativeBytes(iv), HEADER_SIZE, body))
  }

  /** decryptPayloadNative. */
  method DecryptPayloadNative(suite: Suite, key: seq<byte>, iv: ulong, header: seq<byte>, payload: seq<byte>)
    returns (r: Result<seq<byte>>)
    ensures r == OpenPayload(suite, key, iv, header, payload)
  {
    if |payload| < MAC_SHORT_SIZE {
      return Err(MessageVerification);
    }
    var payloadBegin := payload[MAC_SHORT_SIZE..];
    var mac := new MacContext(suite, key);
    mac.Digest(header);
    mac.Digest(payloadBegin);
    assert mac.digested == header + payloadBegin;
    var digest := mac.FinalizeShort();
    if payload[..MAC_SHORT_SIZE] != digest {
      return Err(MessageVerification);
    }
    var plain := new byte[|payload| - MAC_SHORT_SIZE](_ => 0);
    var stream := new StreamContext(suite, key);
    stream.Continue(NativeBytes(iv), 5);
    var offset := 0;
    offset := stream.Crypt(payloadBegin, plain, 0, offset);
    assert plain[..] == Stream(suite, key, NativeBytes(iv), HEADER_SIZE, payloadBegin);
    r := Ok(plain[..]);
  }

  /** OuterEnvelopeWriter. */
  class OuterEnvelopeWriter {
    var iv: ulong

    constructor ()
      ensures iv == 0x0000_0000_0000_0001
    {
      iv := CLIENT_IV_START;
    }

    /** encryptPayload: the counter moves on only when a packet was made. */
    method EncryptPayload(suite: Suite, key: Option<seq<byte>>, payload: seq<byte>)
      returns (r: Result<seq<byte>>)
      modifies this
      ensures r == if key.None? then Err(NullPointer) else Ok(Packet(suite, key.value, old(iv), payload))
      ensures iv == if key.None? then old(iv) else Next(old(iv))
    {
      r := EncryptPayloadNative(suite, key, iv, payload);
      if r.Err? {
        return;
      }
      iv := (iv + 1) % TWO_64;
    }
  }

  /** OuterEnvelopeReader. */
  class OuterEnvelopeReader {
    var iv: ulong

    constructor ()
      ensures iv == 0x8000_0000_0000_0001
    {
      iv := SERVER_IV_START;
    }

    /** decryptHeader leaves the counter alone. */
    method DecryptHeader(suite: Suite, key: seq<byte>, header: seq<byte>) returns (r: Result<nat>)
      ensures r == OpenHeader(suite, key, iv, header)
    {
      r := DecryptHeaderNative(suite, key, iv, header);
    }

    /** decryptPayload: the counter moves on only when the payload was authentic. */
    method DecryptPayload(suite: Suite, key: seq<byte>, header: seq<byte>, payload: seq<byte>)
      returns (r: Result<seq<byte>>)
      modifies this
      ensures r == OpenPayload(suite, key, old(iv), header, payload)
      ensures iv == if r.Ok? then Next(old(iv)) else old(iv)
    {
      r := DecryptPayloadNative(suite, key, iv, header, payload);
      if r.Err? {
        return;
      }
      iv := (iv + 1) % TWO_64;
    }
  }

  // ----- one packet

  lemma HeaderFields(n: nat, plain: seq<byte>)
    requires |plain| == HEADER_SIZE && n <= MAX_PAYLOAD_SIZE
    ensures plain == Header(n) <==> plain[0] == IPC_DATA_TYPE_AUTHED_PACKET && FromBE(plain[1..]) == n
  {
    assert plain == [plain[0]] + plain[1..];
    assert Header(n)[1..] == ToBE(n, 4);
    Pow256Values();
    FromBEIs(plain[1..], n, 4);
  }

  lemma OpenHeaderIff(suite: Suite, key: seq<byte>, iv: ulong, header: seq<byte>, n: nat)
    requires |header| == HEADER_SIZE
    ensures OpenHeader(suite, key, iv, header) == Ok(n)
       <==> n <= MAX_PAYLOAD_SIZE && header == Stream(suite, key, NativeBytes(iv), 0, Header(n))
  {
    if n <= MAX_PAYLOAD_SIZE {
      HeaderFields(n, Stream(suite, key, NativeBytes(iv), 0, header));
      StreamCancels(suite, key, NativeBytes(iv), 0, header);
      StreamCancels(suite, key, NativeBytes(iv), 0, Header(n));
    }
  }

  /** A header is accepted exactly when it decrypts to the type 0x30 and a size of at most 10 MiB. */
  lemma HeaderAcceptedIff(suite: Suite, key: seq<byte>, iv: ulong, header: seq<byte>, n: nat)
    ensures OpenHeader(suite, key, iv, header) == Ok(n) <==> n <= 10485760 && IsHeader(suite, key, iv, n, header)
    ensures OpenHeader(suite, key, iv, header).Err? ==> OpenHeader(suite, key, iv, header) == Err(IllegalState)
  {
    if |header| == 5 {
      OpenHeaderIff(suite, key, iv, header, n);
      HeaderHidden(suite, key, iv, n, header);
    }
  }

  lemma OpenPayloadIff(suite: Suite, key: seq<byte>, iv: ulong, header: seq<byte>, rest: seq<byte>,
                       payload: seq<byte>)
    ensures OpenPayload(suite, key, iv, header, rest) == Ok(payload)
       <==> var body := Stream(suite, key, NativeBytes(iv), HEADER_SIZE, payload);
            rest == suite.macShort(key, header + body) + body
  {
    var body := Stream(suite, key, NativeBytes(iv), HEADER_SIZE, payload);
    StreamCancels(suite, key, NativeBytes(iv), HEADER_SIZE, payload);
    if |rest| >= MAC_SHORT_SIZE {
      StreamCancels(suite, key, NativeBytes(iv), HEADER_SIZE, rest[MAC_SHORT_SIZE..]);
      assert rest == rest[..MAC_SHORT_SIZE] + rest[MAC_SHORT_SIZE..];
    }
    var whole := suite.macShort(key, header + body) + body;
    assert whole[..MAC_SHORT_SIZE] == suite.macShort(key, header + body) && whole[MAC_SHORT_SIZE..] == body;
  }

  /** The reader accepts exactly the writer's packets: header and rest open to a payload if and only
      if together they are the packet that encryptPayload makes from it. */
  lemma PacketOpensIff(suite: Suite, key: seq<byte>, iv: ulong, header: seq<byte>, rest: seq<byte>,
                       payload: seq<byte>)
    requires |header| == HEADER_SIZE
    ensures OpenHeader(suite, key, iv, header) == Ok(|payload|)
            && OpenPayload(suite, key, iv, header, rest) == Ok(payload)
       <==> |payload| <= MAX_PAYLOAD_SIZE && header + rest == Packet(suite, key, iv, payload)
  {
    OpenHeaderIff(suite, key, iv, header, |payload|);
    OpenPayloadIff(suite, key, iv, header, rest, payload);
    var packet := Packet(suite, key, iv, payload);
    var h := Stream(suite, key, NativeBytes(iv), 0, Header(|payload|));
    var b := Stream(suite, key, NativeBytes(iv), HEADER_SIZE, payload);
    assert packet[..HEADER_SIZE] == h && packet[HEADER_SIZE..] == suite.macShort(key, h + b) + b;
    assert (header + rest)[..HEADER_SIZE] == header && (header + rest)[HEADER_SIZE..] == rest;
  }

  // ----- a stream of packets

  /** The packets of a writer whose counter stands at iv, one after the other. */
  function Frames(suite: Suite, key: seq<byte>, iv: ulong, payloads: seq<seq<byte>>): seq<byte>
    decreases |payloads|
  {
    if payloads == [] then []
    else Packet(suite, key, iv, payloads[0]) + Frames(suite, key, Next(iv), payloads[1..])
  }

  /** A reader whose counter stands at iv reading packets until no byte is left. */
  function ReadFrames(suite: Suite, key: seq<byte>, iv: ulong, bytes: seq<byte>): Result<seq<seq<byte>>>
    decreases |bytes|
  {
    if bytes == [] then Ok([])
    else if |bytes| < HEADER_SIZE then Err(EndOfFile)
    else
      var header := bytes[..HEADER_SIZE];
      var size :- OpenHeader(suite, key, iv, header);
      var end := HEADER_SIZE + MAC_SHORT_SIZE + size;
      if |bytes| < end then Err(EndOfFile)
      else
        var payload :- OpenPayload(suite, key, iv, header, bytes[HEADER_SIZE..end]);
        var payloads :- ReadFrames(suite, key, Next(iv), bytes[end..]);
        Ok([payload] + payloads)
  }

  ghost predicate AllSmall(payloads: seq<seq<byte>>) {
    forall i :: 0 <= i < |payloads| ==> |payloads[i]| <= MAX_PAYLOAD_SIZE
  }

  /** Any list of payloads comes back in order with no byte left over. */
  lemma {:induction false} FramesRoundTrip(suite: Suite, key: seq<byte>, iv: ulong, payloads: seq<seq<byte>>)
    requires AllSmall(payloads)
    ensures ReadFrames(suite, key, iv, Frames(suite, key, iv, payloads)) == Ok(payloads)
    decreases |payloads|
  {
    if payloads != [] {
      var packet, rest := Packet(suite, key, iv, payloads[0]), Frames(suite, key, Next(iv), payloads[1..]);
      FramesRoundTrip(suite, key, Next(iv), payloads[1..]);
      PacketOpensIff(suite, key, iv, packet[..HEADER_SIZE], packet[HEADER_SIZE..], payloads[0]);
      var bytes, end := packet + rest, |packet|;
      assert bytes[..HEADER_SIZE] == packet[..HEADER_SIZE];
      assert bytes[HEADER_SIZE..end] == packet[HEADER_SIZE..];
      assert bytes[end..] == rest;
      assert packet == packet[..HEADER_SIZE] + packet[HEADER_SIZE..];
      assert payloads == [payloads[0]] + payloads[1..];
    }
  }

  lemma FramesCons(suite: Suite, key: seq<byte>, iv: ulong, payload: seq<byte>, payloads: seq<seq<byte>>)
    ensures Frames(suite, key, iv, [payload] + payloads)
         == Packet(suite, key, iv, payload) + Frames(suite, key, Next(iv), payloads)
  {
    assert ([payload] + payloads)[1..] == payloads;
  }

  /** What the reader accepts first is a packet. */
  lemma FirstRead(suite: Suite, key: seq<byte>, iv: ulong, bytes: seq<byte>)
    returns (payload: seq<byte>, rest: seq<byte>)
    requires bytes != [] && ReadFrames(suite, key, iv, bytes).Ok?
    ensures bytes == Packet(suite, key, iv, payload) + rest && |payload| <= MAX_PAYLOAD_SIZE
    ensures ReadFrames(suite, key, Next(iv), rest).Ok?
    ensures ReadFrames(suite, key, iv, bytes).value == [payload] + ReadFrames(suite, key, Next(iv), rest).value
  {
    var header := bytes[..HEADER_SIZE];
    var end := HEADER_SIZE + MAC_SHORT_SIZE + OpenHeader(suite, key, iv, header).value;
    payload := OpenPayload(suite, key, iv, header, bytes[HEADER_SIZE..end]).value;
    rest := bytes[end..];
    PacketOpensIff(suite, key, iv, header, bytes[HEADER_SIZE..end], payload);
    assert bytes == header + bytes[HEADER_SIZE..end] + bytes[end..];
  }

  /** Nothing but a writer's packets, in the writer's order, is ever accepted by the reader. */
  lemma {:induction false} ReadFramesOnlyFrames(suite: Suite, key: seq<byte>, iv: ulong, bytes: seq<byte>)
    requires ReadFrames(suite, key, iv, bytes).Ok?
    ensures AllSmall(ReadFrames(suite, key, iv, bytes).value)
    ensures bytes == Frames(suite, key, iv, ReadFrames(suite, key, iv, bytes).value)
    decreases |bytes|
  {
    if bytes != [] {
      var payload, rest := FirstRead(suite, key, iv, bytes);
      ReadFramesOnlyFrames(suite, key, Next(iv), rest);
      FramesCons(suite, key, iv, payload, ReadFrames(suite, key, Next(iv), rest).value);
    }
  }

  /** A list of payloads comes back from its packets exactly when none is too large for the reader. */
  lemma FramesRoundTripIff(suite: Suite, key: seq<byte>, iv: ulong, payloads: seq<seq<byte>>)
    ensures ReadFrames(suite, key, iv, Frames(suite, key, iv, payloads)) == Ok(payloads) <==> AllSmall(payloads)
  {
    if AllSmall(payloads) {
      FramesRoundTrip(suite, key, iv, payloads);
    } else if ReadFrames(suite, key, iv, Frames(suite, key, iv, payloads)) == Ok(payloads) {
      ReadFramesOnlyFrames(suite, key, iv, Frames(suite, key, iv, payloads));
    }
  }

  // ----- keystream use

  /** Header and payload are one run of the keystream from position 0. */
  lemma PacketIsOneRun(suite: Suite, key: seq<byte>, iv: ulong, payload: seq<byte>)
    ensures var packet := Packet(suite, key, iv, payload);
            packet[..HEADER_SIZE] + packet[HEADER_SIZE + MAC_SHORT_SIZE..]
            == Stream(suite, key, NativeBytes(iv), 0, Header(|payload|) + payload)
  {
    StreamJoins(suite, key, NativeBytes(iv), 0, Header(|payload|), payload);
  }

  lemma PacketSplits(header: seq<byte>, mac: seq<byte>, body: seq<byte>, header': seq<byte>, mac': seq<byte>,
                     body': seq<byte>)
    requires |header| == |header'| && |mac| == |mac'| && |body| == |body'|
    ensures header + mac + body == header' + mac' + body' <==> header == header' && mac == mac' && body == body'
  {
    ThreeOf(header, mac, body);
    ThreeOf(header', mac', body');
  }

  /** The keystream bytes of a packet are those at positions 0, 1, 2 and on, one for each byte of header and
      payload: with another keystream the packet is the same exactly when that one has the same bytes there. */
  lemma PacketPlaces(suite: Suite, other: Keystream, key: seq<byte>, iv: ulong, payload: seq<byte>)
    ensures Packet(suite.(keystream := other), key, iv, payload) == Packet(suite, key, iv, payload)
       <==> SameOn(suite.keystream, other, key, Places(NativeBytes(iv), 0, 5 + |payload|))
  {
    var changed, plain := suite.(keystream := other), Header(|payload|);
    var h, h' := Stream(suite, key, NativeBytes(iv), 0, plain), Stream(changed, key, NativeBytes(iv), 0, plain);
    var b, b' := Stream(suite, key, NativeBytes(iv), 5, payload), Stream(changed, key, NativeBytes(iv), 5, payload);
    StreamPlaces(suite, other, key, NativeBytes(iv), 0, plain + payload);
    StreamJoins(suite, key, NativeBytes(iv), 0, plain, payload);
    StreamJoins(changed, key, NativeBytes(iv), 0, plain, payload);
    RunsJoin(h, b, h', b');
    PacketSplits(h, suite.macShort(key, h + b), b, h', suite.macShort(key, h' + b'), b');
  }

  datatype Direction = ToServer | ToClient

  /** The counter of the i-th message in a direction. */
  function IvOf(direction: Direction, i: nat): ulong {
    ((match direction case ToServer => CLIENT_IV_START case ToClient => SERVER_IV_START) + i) % TWO_64
  }

  /** The client's counters go up from 1, the server's from 2^63 + 1. */
  lemma FirstCounters(i: nat)
    requires i < 0x7FFF_FFFF_FFFF_FFFF
    ensures IvOf(ToServer, i) == 1 + i && IvOf(ToClient, i) == 0x8000_0000_0000_0001 + i
  {
  }

  /** The keystream byte of one message byte: the IV as the cipher sees it, and the position. */
  function KeystreamUse(direction: Direction, i: nat, position: nat): (seq<byte>, nat) {
    (NativeBytes(IvOf(direction, i)), position)
  }

  /** No two of the first n messages of each direction share a keystream byte. */
  ghost predicate NoReuse(n: nat) {
    forall d, i: nat, p: nat, d', i': nat, p': nat | i < n && i' < n ::
      KeystreamUse(d, i, p) == KeystreamUse(d', i', p') ==> d == d' && i == i' && p == p'
  }

  lemma DistinctIvs(d: Direction, i: nat, d': Direction, i': nat)
    requires i < TWO_63 && i' < TWO_63 && IvOf(d, i) == IvOf(d', i')
    ensures d == d' && i == i'
  {
  }

  /** Under one secret the keystream is never reused for 2^63 messages each way, and no longer. */
  lemma NoReuseIff(n: nat)
    ensures NoReuse(n) <==> n <= TWO_63
  {
    if n <= TWO_63 {
      forall d, i: nat, p: nat, d', i': nat, p': nat
        | i < n && i' < n && KeystreamUse(d, i, p) == KeystreamUse(d', i', p')
        ensures d == d' && i == i' && p == p'
      {
        NativeBytesInjective(IvOf(d, i), IvOf(d', i'));
        DistinctIvs(d, i, d', i');
      }
    } else {
      assert KeystreamUse(ToServer, TWO_63, 0) == KeystreamUse(ToClient, 0, 0);
    }
  }

  /** The keystream bytes under which the i-th packet of a direction hides its header and payload. */
  function KeystreamOf(direction: Direction, i: nat, payload: seq<byte>): set<(seq<byte>, nat)> {
    set p | 0 <= p < HEADER_SIZE + |payload| :: KeystreamUse(direction, i, p)
  }

  lemma UsesArePlaces(direction: Direction, i: nat, payload: seq<byte>)
    ensures KeystreamOf(direction, i, payload) == Places(NativeBytes(IvOf(direction, i)), 0, 5 + |payload|)
  {
    var a, b := KeystreamOf(direction, i, payload), Places(NativeBytes(IvOf(direction, i)), 0, 5 + |payload|);
    forall u | u in a ensures u in b {
    }
    forall u | u in b ensures u in a {
      assert u == KeystreamUse(direction, i, u.1);
    }
  }

  /** Those are the keystream bytes that the packet rests on: it is the same packet under another keystream
      exactly when that one agrees at every one of them. */
  lemma PacketRestsOn(suite: Suite, other: Keystream, key: seq<byte>, direction: Direction, i: nat,
                      payload: seq<byte>)
    ensures Packet(suite.(keystream := other), key, IvOf(direction, i), payload)
            == Packet(suite, key, IvOf(direction, i), payload)
       <==> SameOn(suite.keystream, other, key, KeystreamOf(direction, i, payload))
  {
    PacketPlaces(suite, other, key, IvOf(direction, i), payload);
    UsesArePlaces(direction, i, payload);
  }

  function PayloadsOf(direction: Direction, sent: seq<seq<byte>>, received: seq<seq<byte>>): seq<seq<byte>> {
    match direction
    case ToServer => sent
    case ToClient => received
  }

  /** No keystream byte is used for two of the packets that went one way or the other. */
  ghost predicate UsedOnce(sent: seq<seq<byte>>, received: seq<seq<byte>>) {
    forall d, i: nat, d', i': nat
      | i < |PayloadsOf(d, sent, received)| && i' < |PayloadsOf(d', sent, received)| && (d != d' || i != i') ::
      KeystreamOf(d, i, PayloadsOf(d, sent, received)[i]) !! KeystreamOf(d', i', PayloadsOf(d', sent, received)[i'])
  }

  lemma KeystreamDisjoint(d: Direction, i: nat, p: seq<byte>, d': Direction, i': nat, p': seq<byte>)
    requires i < TWO_63 && i' < TWO_63 && (d != d' || i != i')
    ensures KeystreamOf(d, i, p) !! KeystreamOf(d', i', p')
  {
    forall u | u in KeystreamOf(d, i, p) ensures u !in KeystreamOf(d', i', p') {
      if u in KeystreamOf(d', i', p') {
        NativeBytesInjective(IvOf(d, i), IvOf(d', i'));
        DistinctIvs(d, i, d', i');
      }
    }
  }

  /** Packets under the same counter share their first keystream byte. */
  lemma KeystreamShared(d: Direction, i: nat, p: seq<byte>, d': Direction, i': nat, p': seq<byte>)
    requires IvOf(d, i) == IvOf(d', i')
    ensures !(KeystreamOf(d, i, p) !! KeystreamOf(d', i', p'))
  {
    assert KeystreamUse(d, i, 0) in KeystreamOf(d, i, p);
    assert KeystreamUse(d', i', 0) in KeystreamOf(d', i', p');
  }

  /** With a packet each way, no keystream byte is used twice exactly up to 2^63 packets each way. */
  lemma UsedOnceIff(sent: seq<seq<byte>>, received: seq<seq<byte>>)
    requires sent != [] && received != []
    ensures UsedOnce(sent, received) <==> |sent| <= TWO_63 && |received| <= TWO_63
  {
    if |sent| > TWO_63 {
      KeystreamShared(ToServer, TWO_63, sent[TWO_63], ToClient, 0, received[0]);
      assert !UsedOnce(sent, received) by {
        assert PayloadsOf(ToServer, sent, received) == sent && PayloadsOf(ToClient, sent, received) == received;
      }
    } else if |received| > TWO_63 {
      KeystreamShared(ToClient, TWO_63, received[TWO_63], ToServer, 0, sent[0]);
      assert !UsedOnce(sent, received) by {
        assert PayloadsOf(ToServer, sent, received) == sent && PayloadsOf(ToClient, sent, received) == received;
      }
    } else {
      forall d, i: nat, d', i': nat
        | i < |PayloadsOf(d, sent, received)| && i' < |PayloadsOf(d', sent, received)| && (d != d' || i != i')
        ensures KeystreamOf(d, i, PayloadsOf(d, sent, received)[i])
             !! KeystreamOf(d', i', PayloadsOf(d', sent, received)[i'])
      {
        KeystreamDisjoint(d, i, PayloadsOf(d, sent, received)[i], d', i', PayloadsOf(d', sent, received)[i']);
      }
    }
  }
}
