/** What holds of every session with an agent: one exchange, and whole runs of API calls. */
module SessionTheorems {
  import opened Bytes
  import opened Results
  import opened Uuids
  import opened Vccrypt
  import opened OuterEnvelope
  import opened Protocol
  import opened Session
  import Certificates

  // ----- one packet

  /** The bytes still to be read start with the agent's packet for a payload. */
  ghost predicate NextIs(suite: Suite, key: seq<byte>, iv: ulong, pending: seq<byte>, payload: seq<byte>) {
    |payload| <= MAX_PAYLOAD_SIZE && Packet(suite, key, iv, payload) <= pending
  }

  lemma CutPacket(incoming: seq<byte>, at: nat, packet: seq<byte>)
    requires at <= |incoming| && |packet| >= HEADER_SIZE
    ensures packet <= incoming[at..]
       <==> at + |packet| <= |incoming|
            && incoming[at..at + HEADER_SIZE] + incoming[at + HEADER_SIZE..at + |packet|] == packet
  {
    if at + |packet| <= |incoming| {
      assert incoming[at..][..|packet|]
          == incoming[at..at + HEADER_SIZE] + incoming[at + HEADER_SIZE..at + |packet|];
    }
  }

  /** The state and outcome of reading a packet of the given payload. */
  function Consumed(s: State, rule: SizeRule, payload: seq<byte>): (State, Result<seq<byte>>) {
    if rule.Accepts(|payload|)
    then (s.(position := s.position + HEADER_SIZE + MAC_SHORT_SIZE + |payload|, readerIv := Next(s.readerIv)),
          Ok(payload))
    else (s.(position := s.position + HEADER_SIZE), Err(InvalidPayloadSize))
  }

  /** The next header and as many bytes as its packet has left open to a payload. */
  ghost predicate Opens(openHeader: HeaderOpener, openPayload: PayloadOpener, incoming: seq<byte>, at: nat,
                        payload: seq<byte>) {
    var end := at + HEADER_SIZE + MAC_SHORT_SIZE + |payload|;
    && end <= |incoming|
    && openHeader(incoming[at..at + HEADER_SIZE]) == Ok(|payload|)
    && openPayload(incoming[at..at + HEADER_SIZE], incoming[at + HEADER_SIZE..end]) == Ok(payload)
  }

  lemma OpensConsumed(openHeader: HeaderOpener, openPayload: PayloadOpener, incoming: seq<byte>, s: State,
                      rule: SizeRule, payload: seq<byte>)
    requires Opens(openHeader, openPayload, incoming, s.position, payload)
    ensures ReceiveWith(openHeader, openPayload, incoming, s, rule) == Consumed(s, rule, payload)
  {
  }

  lemma OnlyOpens(openHeader: HeaderOpener, openPayload: PayloadOpener, incoming: seq<byte>, s: State, rule: SizeRule)
    requires forall header, rest :: openPayload(header, rest).Ok? ==>
      |openPayload(header, rest).value| + MAC_SHORT_SIZE == |rest|
    ensures var (s', r) := ReceiveWith(openHeader, openPayload, incoming, s, rule);
            && s' == s.(position := s'.position, readerIv := if r.Ok? then Next(s.readerIv) else s.readerIv)
            && (r.Ok? ==> rule.Accepts(|r.value|) && Opens(openHeader, openPayload, incoming, s.position, r.value))
  {
  }

  /** The next bytes open to a payload exactly when they are its packet. */
  lemma OpensIff(suite: Suite, incoming: seq<byte>, key: Bytes32, iv: ulong, at: nat, payload: seq<byte>)
    requires at <= |incoming|
    ensures Opens(Headers(suite, key, iv), Payloads(suite, key, iv), incoming, at, payload)
       <==> NextIs(suite, key, iv, incoming[at..], payload)
  {
    var packet := Packet(suite, key, iv, payload);
    CutPacket(incoming, at, packet);
    if at + |packet| <= |incoming| {
      PacketOpensIff(suite, key, iv, incoming[at..at + HEADER_SIZE], incoming[at + HEADER_SIZE..at + |packet|],
                     payload);
    }
  }

  /** A well-formed packet of a size that the reading method lets through is consumed whole and moves the
      reader's counter on by one. Any other size is rejected after five bytes. */
  lemma PacketConsumed(suite: Suite, incoming: seq<byte>, key: Bytes32, s: State, rule: SizeRule,
                       payload: seq<byte>)
    requires s.position <= |incoming| && NextIs(suite, key, s.readerIv, incoming[s.position..], payload)
    ensures ReceivePacket(suite, incoming, key, s, rule) == Consumed(s, rule, payload)
  {
    OpensIff(suite, incoming, key, s.readerIv, s.position, payload);
    OpensConsumed(Headers(suite, key, s.readerIv), Payloads(suite, key, s.readerIv), incoming, s, rule, payload);
  }

  /** Whatever arrives, reading a packet changes the position, and the counter exactly when it returns a
      payload; and then the next packet was the agent's packet for it. */
  lemma OnlyPackets(suite: Suite, incoming: seq<byte>, key: Bytes32, s: State, rule: SizeRule)
    requires s.position <= |incoming|
    ensures var (s', r) := ReceivePacket(suite, incoming, key, s, rule);
            && s' == s.(position := s'.position, readerIv := if r.Ok? then Next(s.readerIv) else s.readerIv)
            && (r.Ok? ==> rule.Accepts(|r.value|) && NextIs(suite, key, s.readerIv, incoming[s.position..], r.value))
  {
    OnlyOpens(Headers(suite, key, s.readerIv), Payloads(suite, key, s.readerIv), incoming, s, rule);
    var r := ReceivePacket(suite, incoming, key, s, rule).1;
    if r.Ok? {
      OpensIff(suite, incoming, key, s.readerIv, s.position, r.value);
    }
  }

  /** A payload is received exactly when the next packet is the agent's packet for it, under the reader's
      current counter, and its size is one that the reading method lets through. */
  lemma PacketReceivedIff(suite: Suite, incoming: seq<byte>, key: Bytes32, s: State, rule: SizeRule,
                          payload: seq<byte>)
    requires s.position <= |incoming|
    ensures ReceivePacket(suite, incoming, key, s, rule).1 == Ok(payload)
       <==> rule.Accepts(|payload|) && NextIs(suite, key, s.readerIv, incoming[s.position..], payload)
  {
    OnlyPackets(suite, incoming, key, s, rule);
    if NextIs(suite, key, s.readerIv, incoming[s.position..], payload) {
      PacketConsumed(suite, incoming, key, s, rule, payload);
    }
  }

  // ----- every run, whatever the bytes that arrive

  /** A counter after n more packets. */
  function Advance(iv: ulong, n: nat): ulong {
    (iv + n) % TWO_64
  }

  lemma AdvanceAdvance(iv: ulong, m: nat, n: nat)
    ensures Advance(Advance(iv, m), n) == Advance(iv, m + n)
    ensures Advance(iv, 0) == iv && Advance(iv, 1) == Next(iv)
  {
  }

  /** The request that each call sends, or the exception that it throws before sending anything. */
  function Attempts(calls: seq<Call>): (attempts: seq<Result<Request>>)
    ensures |attempts| == |calls|
  {
    if calls == [] then [] else [RequestOf(calls[0])] + Attempts(calls[1..])
  }

  function Requested(attempt: Result<Request>): seq<Request> {
    if attempt.Ok? then [attempt.value] else []
  }

  /** The requests that are sent, in order. */
  function Requests(attempts: seq<Result<Request>>): seq<Request> {
    if attempts == [] then [] else Requested(attempts[0]) + Requests(attempts[1..])
  }

  function Map<T, U>(f: T -> U, s: seq<T>): (r: seq<U>)
    ensures |r| == |s|
    ensures forall i :: 0 <= i < |s| ==> r[i] == f(s[i])
  {
    seq(|s|, i requires 0 <= i < |s| => f(s[i]))
  }

  lemma MapCons<T, U>(f: T -> U, x: T, s: seq<T>)
    ensures Map(f, [x] + s) == [f(x)] + Map(f, s)
  {
  }

  function PacketsOf(requests: seq<Request>): (packets: seq<seq<byte>>)
    ensures |packets| == |requests|
  {
    Map(RequestBytes, requests)
  }

  /** The next packet is an authentic reply to a request, of a size that its reading method lets through. */
  ghost predicate Answered(suite: Suite, key: seq<byte>, iv: ulong, pending: seq<byte>, request: Request) {
    exists payload :: NextIs(suite, key, iv, pending, payload) && SizeRuleOf(request).Accepts(|payload|)
  }

  lemma AnsweredIff(suite: Suite, incoming: seq<byte>, key: Bytes32, s: State, request: Request)
    requires s.position <= |incoming|
    ensures ReceivePacket(suite, incoming, key, s, SizeRuleOf(request)).1.Ok?
       <==> Answered(suite, key, s.readerIv, incoming[s.position..], request)
  {
    var pending, rule := incoming[s.position..], SizeRuleOf(request);
    OnlyPackets(suite, incoming, key, s, rule);
    if payload :| NextIs(suite, key, s.readerIv, pending, payload) && rule.Accepts(|payload|) {
      PacketConsumed(suite, incoming, key, s, rule, payload);
    }
  }

  lemma ReceiveEffect(suite: Suite, incoming: seq<byte>, key: Bytes32, s: State, request: Request)
    requires s.position <= |incoming|
    ensures var s' := ReceiveReply(suite, incoming, key, s, request).0;
            s' == s.(position := s'.position,
                     readerIv := if Answered(suite, key, s.readerIv, incoming[s.position..], request)
                                 then Next(s.readerIv) else s.readerIv)
  {
    OnlyPackets(suite, incoming, key, s, SizeRuleOf(request));
    AnsweredIff(suite, incoming, key, s, request);
  }

  /** The state of a client that holds a shared secret. */
  ghost predicate Connected(incoming: seq<byte>, key: Bytes32, s: State) {
    s.secret == Some(key) && s.position <= |incoming|
  }

  /** The next packet answers the request that is sent, if one is. */
  ghost predicate Delivered(suite: Suite, incoming: seq<byte>, s: State, attempt: Result<Request>) {
    && s.secret.Some? && s.position <= |incoming| && attempt.Ok?
    && Answered(suite, s.secret.value, s.readerIv, incoming[s.position..], attempt.value)
  }

  /** The packets of requests under consecutive counters, as a function of the first counter. */
  type Chain<!T> = (ulong, seq<T>) -> seq<byte>
  type OnePacket<!T> = (ulong, T) -> seq<byte>
  type Attempting = (State, Result<Request>) -> (State, Result<Answer>)
  type Delivering = (State, Result<Request>) -> bool

  ghost predicate IsChain<T(!new)>(packet: OnePacket<T>, chain: Chain<T>) {
    && (forall iv :: chain(iv, []) == [])
    && (forall iv, r: T, rs :: chain(iv, [r] + rs) == packet(iv, r) + chain(Next(iv), rs))
  }

  lemma {:induction false} ChainAppend<T(!new)>(packet: OnePacket<T>, chain: Chain<T>, iv: ulong, a: seq<T>, b: seq<T>)
    requires IsChain(packet, chain)
    ensures chain(iv, a + b) == chain(iv, a) + chain(Advance(iv, |a|), b)
    decreases |a|
  {
    if a == [] {
      assert [] + b == b;
      AdvanceAdvance(iv, 0, 0);
    } else {
      ChainAppend(packet, chain, Next(iv), a[1..], b);
      assert a == [a[0]] + a[1..] && a + b == [a[0]] + (a[1..] + b);
      AdvanceAdvance(iv, 1, |a| - 1);
      Assoc(packet(iv, a[0]), chain(Next(iv), a[1..]), chain(Advance(iv, |a|), b));
    }
  }

  /** The session after some requests have been sent and some replies delivered. */
  function After(chain: Chain<Request>, s: State, requests: seq<Request>, delivered: nat, position: nat): State {
    s.(sent := s.sent + chain(s.writerIv, requests), writerIv := Advance(s.writerIv, |requests|),
       readerIv := Advance(s.readerIv, delivered), position := position)
  }

  /** Two effects one after the other are one effect. */
  lemma AfterAfter(packet: OnePacket<Request>, chain: Chain<Request>, s: State,
                   a: seq<Request>, d: nat, p: nat, b: seq<Request>, d': nat, p': nat)
    requires IsChain(packet, chain)
    ensures After(chain, After(chain, s, a, d, p), b, d', p') == After(chain, s, a + b, d + d', p')
  {
    ChainAppend(packet, chain, s.writerIv, a, b);
    Assoc(s.sent, chain(s.writerIv, a), chain(Advance(s.writerIv, |a|), b));
    AdvanceAdvance(s.writerIv, |a|, |b|);
    AdvanceAdvance(s.readerIv, d, d');
  }

  /** The number of attempts in a run that had their reply delivered. */
  function CountDelivered(step: Attempting, delivered: Delivering, s: State, attempts: seq<Result<Request>>): nat
    decreases |attempts|
  {
    if attempts == [] then 0
    else (if delivered(s, attempts[0]) then 1 else 0)
         + CountDelivered(step, delivered, step(s, attempts[0]).0, attempts[1..])
  }

  /** A step sends its request, if it has one, and moves the reader's counter on if a reply is delivered. */
  ghost predicate StepsBy(incoming: seq<byte>, key: Bytes32, chain: Chain<Request>, step: Attempting,
                          delivered: Delivering) {
    forall s, attempt | Connected(incoming, key, s) ::
      var s' := step(s, attempt).0;
      && (delivered(s, attempt) ==> attempt.Ok?)
      && s.position <= s'.position <= |incoming|
      && s' == After(chain, s, Requested(attempt), if delivered(s, attempt) then 1 else 0, s'.position)
  }

  lemma {:induction false} FoldEffect(incoming: seq<byte>, key: Bytes32, packet: OnePacket<Request>,
                                      chain: Chain<Request>, step: Attempting, delivered: Delivering, s: State,
                                      attempts: seq<Result<Request>>)
    requires Connected(incoming, key, s)
    requires IsChain(packet, chain) && StepsBy(incoming, key, chain, step, delivered)
    ensures var s' := Fold(step, s, attempts).0;
            var d := CountDelivered(step, delivered, s, attempts);
            && d <= |Requests(attempts)|
            && s.position <= s'.position <= |incoming|
            && s' == After(chain, s, Requests(attempts), d, s'.position)
    decreases |attempts|
  {
    if attempts == [] {
      assert s.sent + [] == s.sent;
      AdvanceAdvance(s.writerIv, 0, 0);
      AdvanceAdvance(s.readerIv, 0, 0);
    } else {
      var s1 := step(s, attempts[0]).0;
      FoldEffect(incoming, key, packet, chain, step, delivered, s1, attempts[1..]);
      AfterAfter(packet, chain, s, Requested(attempts[0]), if delivered(s, attempts[0]) then 1 else 0, s1.position,
                 Requests(attempts[1..]), CountDelivered(step, delivered, s1, attempts[1..]),
                 Fold(step, s, attempts).0.position);
    }
  }

  /** The packets of the requests, as a chain. */
  function PacketOf(suite: Suite, key: Bytes32): OnePacket<Request> {
    (iv: ulong, r: Request) => Packet(suite, key, iv, RequestBytes(r))
  }

  function FramesOf(suite: Suite, key: Bytes32): Chain<Request> {
    (iv: ulong, rs: seq<Request>) => Frames(suite, key, iv, PacketsOf(rs))
  }

  lemma RequestFramesCons(suite: Suite, key: seq<byte>, iv: ulong, r: Request, rs: seq<Request>)
    ensures Frames(suite, key, iv, PacketsOf([r] + rs))
         == Packet(suite, key, iv, RequestBytes(r)) + Frames(suite, key, Next(iv), PacketsOf(rs))
  {
    MapCons(RequestBytes, r, rs);
    FramesCons(suite, key, iv, RequestBytes(r), PacketsOf(rs));
  }

  lemma FramesAreChain(suite: Suite, key: Bytes32)
    ensures IsChain(PacketOf(suite, key), FramesOf(suite, key))
  {
    forall iv, r, rs
      ensures FramesOf(suite, key)(iv, [r] + rs) == PacketOf(suite, key)(iv, r) + FramesOf(suite, key)(Next(iv), rs)
    {
      RequestFramesCons(suite, key, iv, r, rs);
    }
  }

  /** What one call with a shared secret does to the session, whatever the bytes that arrive. */
  lemma AttemptEffect(suite: Suite, incoming: seq<byte>, key: Bytes32, s: State, attempt: Result<Request>)
    requires Connected(incoming, key, s)
    ensures var s' := Attempt(suite, incoming, s, attempt).0;
            if attempt.Err? then s' == s
            else s' == s.(sent := s.sent + Packet(suite, key, s.writerIv, RequestBytes(attempt.value)),
                          writerIv := Next(s.writerIv),
                          readerIv := if Delivered(suite, incoming, s, attempt) then Next(s.readerIv) else s.readerIv,
                          position := s'.position)
  {
    if attempt.Ok? {
      ReceiveEffect(suite, incoming, key, SendPacket(suite, key, s, RequestBytes(attempt.value)), attempt.value);
    }
  }

  /** The effect of one packet sent or none, as a chain of one or none. */
  lemma AfterOne(packet: OnePacket<Request>, chain: Chain<Request>, s: State, attempt: Result<Request>, d: nat,
                 position: nat)
    requires IsChain(packet, chain)
    ensures After(chain, s, Requested(attempt), d, position)
         == s.(sent := s.sent + (if attempt.Ok? then packet(s.writerIv, attempt.value) else []),
               writerIv := if attempt.Ok? then Next(s.writerIv) else s.writerIv,
               readerIv := Advance(s.readerIv, d), position := position)
  {
    AdvanceAdvance(s.writerIv, 0, 0);
    if attempt.Ok? {
      assert chain(s.writerIv, [attempt.value] + []) == packet(s.writerIv, attempt.value) + [];
      assert [attempt.value] + [] == [attempt.value];
    }
  }

  lemma AttemptSteps(suite: Suite, incoming: seq<byte>, key: Bytes32, packet: OnePacket<Request>, chain: Chain<Request>,
                     s: State, attempt: Result<Request>)
    requires Connected(incoming, key, s) && IsChain(packet, chain)
    requires attempt.Ok? ==> packet(s.writerIv, attempt.value)
                             == Packet(suite, key, s.writerIv, RequestBytes(attempt.value))
    ensures var s' := Attempt(suite, incoming, s, attempt).0;
            s' == After(chain, s, Requested(attempt), if Delivered(suite, incoming, s, attempt) then 1 else 0,
                        s'.position)
  {
    AttemptEffect(suite, incoming, key, s, attempt);
    var d := if Delivered(suite, incoming, s, attempt) then 1 else 0;
    AfterOne(packet, chain, s, attempt, d, Attempt(suite, incoming, s, attempt).0.position);
    AdvanceAdvance(s.readerIv, 0, 0);
    assert s.sent + [] == s.sent;
  }

  function Attempter(suite: Suite, incoming: seq<byte>): Attempting {
    (s, attempt) => Attempt(suite, incoming, s, attempt)
  }

  /** The number of calls in a run whose reply was delivered. */
  ghost function Deliveries(suite: Suite, incoming: seq<byte>, s: State, calls: seq<Call>): nat {
    CountDelivered(Attempter(suite, incoming), (t, attempt) => Delivered(suite, incoming, t, attempt), s,
                   Attempts(calls))
  }

  lemma {:induction false} FoldMaps(step: (State, Call) -> (State, Result<Answer>), try: Attempting,
                                    good: State -> bool, s: State, calls: seq<Call>)
    requires good(s)
    requires forall t, call | good(t) :: step(t, call) == try(t, RequestOf(call)) && good(step(t, call).0)
    ensures Fold(step, s, calls) == Fold(try, s, Attempts(calls))
    decreases |calls|
  {
    if calls != [] {
      FoldMaps(step, try, good, step(s, calls[0]).0, calls[1..]);
      assert Attempts(calls)[1..] == Attempts(calls[1..]);
    }
  }

  /** With a shared secret, the guards never fire. */
  lemma RunAttempts(suite: Suite, incoming: seq<byte>, key: Bytes32, s: State, calls: seq<Call>)
    requires Connected(incoming, key, s)
    ensures Run(suite, incoming, s, calls) == Fold(Attempter(suite, incoming), s, Attempts(calls))
  {
    forall t, call | Connected(incoming, key, t)
      ensures Step(suite, incoming, t, call) == Attempt(suite, incoming, t, RequestOf(call))
              && Connected(incoming, key, Step(suite, incoming, t, call).0)
    {
      AttemptEffect(suite, incoming, key, t, RequestOf(call));
    }
    FoldMaps((t, call) => Step(suite, incoming, t, call), Attempter(suite, incoming),
             t => Connected(incoming, key, t), s, calls);
  }

  /** Over any run of calls and against any bytes from the other end, the client sends exactly the packets
      of its requests under consecutive counters, its reader's counter moves on by one for each reply that
      was delivered, and no more replies are delivered than requests were sent. */
  lemma EveryRun(suite: Suite, incoming: seq<byte>, key: Bytes32, s: State, calls: seq<Call>)
    requires Connected(incoming, key, s)
    ensures var s' := Run(suite, incoming, s, calls).0;
            var requests := Requests(Attempts(calls));
            && Connected(incoming, key, s') && s.position <= s'.position
            && s'.sent == s.sent + Frames(suite, key, s.writerIv, PacketsOf(requests))
            && s'.writerIv == Advance(s.writerIv, |requests|)
            && s'.readerIv == Advance(s.readerIv, Deliveries(suite, incoming, s, calls))
            && Deliveries(suite, incoming, s, calls) <= |requests|
  {
    var packet, chain := PacketOf(suite, key), FramesOf(suite, key);
    FramesAreChain(suite, key);
    forall t, attempt | Connected(incoming, key, t)
      ensures var t' := Attempt(suite, incoming, t, attempt).0;
              t' == After(chain, t, Requested(attempt), if Delivered(suite, incoming, t, attempt) then 1 else 0,
                          t'.position)
    {
      AttemptSteps(suite, incoming, key, packet, chain, t, attempt);
    }
    RunAttempts(suite, incoming, key, s, calls);
    FoldEffect(incoming, key, packet, chain, Attempter(suite, incoming),
               (t, attempt) => Delivered(suite, incoming, t, attempt), s, Attempts(calls));
  }

  /** The certificates that are submitted leave the request within the bound that the reader enforces. */
  ghost predicate CertificatesFit(requests: seq<Request>) {
    forall i :: 0 <= i < |requests| && requests[i].SubmitRequest? ==> |requests[i].certificate| + 40 <= MAX_PAYLOAD_SIZE
  }

  lemma FitIff(requests: seq<Request>)
    ensures AllSmall(PacketsOf(requests)) <==> CertificatesFit(requests)
  {
    forall i | 0 <= i < |requests|
      ensures |PacketsOf(requests)[i]| <= MAX_PAYLOAD_SIZE
         <==> (requests[i].SubmitRequest? ==> |requests[i].certificate| + 40 <= MAX_PAYLOAD_SIZE)
    {
      assert |PacketsOf(requests)[i]| == 8 + |Arguments(requests[i])|;
    }
  }

  /** The packets that a run sent are its requests, in order and with their arguments, and the agent, reading
      them to the end, recovers the list exactly when no certificate in it is too large. */
  lemma AgentRecoversRequests(suite: Suite, incoming: seq<byte>, key: Bytes32, s: State, calls: seq<Call>, i: nat)
    requires Connected(incoming, key, s)
    ensures s.sent <= Run(suite, incoming, s, calls).0.sent
    ensures var sent := Run(suite, incoming, s, calls).0.sent[|s.sent|..];
            var requests := Requests(Attempts(calls));
            && sent == Frames(suite, key, s.writerIv, PacketsOf(requests))
            && (ReadFrames(suite, key, s.writerIv, sent) == Ok(PacketsOf(requests)) <==> CertificatesFit(requests))
            && (i < |requests| ==> DecodeRequest(PacketsOf(requests)[i]) == Some(requests[i]))
  {
    EveryRun(suite, incoming, key, s, calls);
    var requests := Requests(Attempts(calls));
    var frames := Frames(suite, key, s.writerIv, PacketsOf(requests));
    FramesRoundTripIff(suite, key, s.writerIv, PacketsOf(requests));
    FitIff(requests);
    assert (s.sent + frames)[|s.sent|..] == frames;
    if i < |requests| {
      RequestDecodesIff(PacketsOf(requests)[i], requests[i]);
    }
  }

  // ----- answers

  /** What an exchange returns depends on the packet read and on nothing else. */
  lemma ExchangeReceives(suite: Suite, incoming: seq<byte>, key: Bytes32, s: State, request: Request)
    requires Connected(incoming, key, s)
    ensures var received := ReceivePacket(suite, incoming, key, s, SizeRuleOf(request)).1;
            Exchange(suite, incoming, s, request).1
            == if received.Err? then Err(received.error) else ReadReply(request, received.value)
  {
    SamePosition(Headers(suite, key, s.readerIv), Payloads(suite, key, s.readerIv), incoming, s,
                 SendPacket(suite, key, s, RequestBytes(request)), SizeRuleOf(request));
  }

  lemma SamePosition(openHeader: HeaderOpener, openPayload: PayloadOpener, incoming: seq<byte>, s: State, t: State,
                     rule: SizeRule)
    requires s.position == t.position
    ensures ReceiveWith(openHeader, openPayload, incoming, s, rule).1
         == ReceiveWith(openHeader, openPayload, incoming, t, rule).1
    ensures ReceiveWith(openHeader, openPayload, incoming, s, rule).0.position
         == ReceiveWith(openHeader, openPayload, incoming, t, rule).0.position
  {
  }

  lemma StepExchanges(suite: Suite, incoming: seq<byte>, s: State, call: Call, request: Request)
    requires s.secret.Some? && RequestOf(call) == Ok(request)
    ensures Step(suite, incoming, s, call) == Exchange(suite, incoming, s, request)
  {
  }

  /** An authentic packet of an accepted size is the answer. */
  lemma AnswerFrom(suite: Suite, incoming: seq<byte>, key: Bytes32, s: State, call: Call, request: Request,
                   payload: seq<byte>)
    requires Connected(incoming, key, s) && RequestOf(call) == Ok(request)
    requires NextIs(suite, key, s.readerIv, incoming[s.position..], payload) && SizeRuleOf(request).Accepts(|payload|)
    ensures Step(suite, incoming, s, call).1 == ReadReply(request, payload)
  {
    StepExchanges(suite, incoming, s, call, request);
    ExchangeReceives(suite, incoming, key, s, request);
    PacketConsumed(suite, incoming, key, s, SizeRuleOf(request), payload);
  }

  /** The exceptions of reading a packet, as against those of what it says. */
  predicate InTransport(e: Exception) {
    e in {EndOfFile, IllegalState, InvalidPayloadSize, MessageVerification}
  }

  lemma TransportOnly(openHeader: HeaderOpener, openPayload: PayloadOpener, incoming: seq<byte>, s: State,
                      rule: SizeRule)
    requires forall header :: openHeader(header).Err? ==> InTransport(openHeader(header).error)
    requires forall header, rest :: openPayload(header, rest).Err? ==> InTransport(openPayload(header, rest).error)
    ensures var r := ReceiveWith(openHeader, openPayload, incoming, s, rule).1; r.Err? ==> InTransport(r.error)
  {
  }

  lemma ReceiveThrows(suite: Suite, incoming: seq<byte>, key: Bytes32, s: State, rule: SizeRule)
    ensures var r := ReceivePacket(suite, incoming, key, s, rule).1; r.Err? ==> InTransport(r.error)
  {
    var openHeader, openPayload := Headers(suite, key, s.readerIv), Payloads(suite, key, s.readerIv);
    forall header ensures openHeader(header).Err? ==> InTransport(openHeader(header).error) {
      HeaderAcceptedIff(suite, key, s.readerIv, header, 0);
    }
    forall header, rest ensures openPayload(header, rest).Err? ==> InTransport(openPayload(header, rest).error) {
      MacDecides(suite, key, s.readerIv, header, rest);
    }
    TransportOnly(openHeader, openPayload, incoming, s, rule);
  }

  /** An outcome of a call that is not an exception of reading a packet. */
  predicate AboutReply(outcome: Result<Answer>) {
    outcome.Err? ==> !InTransport(outcome.error)
  }

  /** Nothing else is. */
  lemma AnswerOnly(suite: Suite, incoming: seq<byte>, key: Bytes32, s: State, call: Call, request: Request)
    returns (payload: seq<byte>)
    requires Connected(incoming, key, s) && RequestOf(call) == Ok(request)
    requires AboutReply(Step(suite, incoming, s, call).1)
    ensures NextIs(suite, key, s.readerIv, incoming[s.position..], payload) && SizeRuleOf(request).Accepts(|payload|)
    ensures Step(suite, incoming, s, call).1 == ReadReply(request, payload)
  {
    StepExchanges(suite, incoming, s, call, request);
    ExchangeReceives(suite, incoming, key, s, request);
    ReceiveThrows(suite, incoming, key, s, SizeRuleOf(request));
    OnlyPackets(suite, incoming, key, s, SizeRuleOf(request));
    payload := ReceivePacket(suite, incoming, key, s, SizeRuleOf(request)).1.value;
  }

  /** A call returns an answer, or throws an exception about its reply, exactly when the next packet is authentic
      under the reader's current counter, has an accepted size, and its payload means that. */
  lemma AnswerIff(suite: Suite, incoming: seq<byte>, key: Bytes32, s: State, call: Call, request: Request,
                  outcome: Result<Answer>)
    requires Connected(incoming, key, s) && RequestOf(call) == Ok(request) && AboutReply(outcome)
    ensures Step(suite, incoming, s, call).1 == outcome
       <==> exists payload ::
              NextIs(suite, key, s.readerIv, incoming[s.position..], payload)
              && SizeRuleOf(request).Accepts(|payload|) && ReadReply(request, payload) == outcome
  {
    if Step(suite, incoming, s, call).1 == outcome {
      var payload := AnswerOnly(suite, incoming, key, s, call, request);
    }
    if payload :| NextIs(suite, key, s.readerIv, incoming[s.position..], payload)
                  && SizeRuleOf(request).Accepts(|payload|) && ReadReply(request, payload) == outcome {
      AnswerFrom(suite, incoming, key, s, call, request, payload);
    }
  }

  /** An authentic reply with the id of another request, and nothing else, makes a call throw
      InvalidRequestIdException. */
  lemma WrongReplyIff(suite: Suite, incoming: seq<byte>, key: Bytes32, s: State, call: Call, request: Request)
    requires Connected(incoming, key, s) && RequestOf(call) == Ok(request)
    ensures Step(suite, incoming, s, call).1 == Err(InvalidRequestId)
       <==> exists payload ::
              NextIs(suite, key, s.readerIv, incoming[s.position..], payload)
              && SizeRuleOf(request).Accepts(|payload|) && !Echoes(request, payload)
  {
    AnswerIff(suite, incoming, key, s, call, request, Err(InvalidRequestId));
    forall payload | SizeRuleOf(request).Accepts(|payload|)
      ensures ReadReply(request, payload) == Err(InvalidRequestId) <==> !Echoes(request, payload)
    {
      ReplyRefusedIff(request, payload);
    }
  }

  /** The payload of a successful reply to a query for an id. */
  predicate CarriesId(query: Query, payload: seq<byte>, id: UUID) {
    |payload| >= 28 && Echoes(QueryRequest(query), payload) && Succeeds(payload) && payload[12..28] == UuidBytes(id)
  }

  /** The payload of a reply that there is no such id: a status that is not zero, or no room for an id. */
  predicate DeniesId(query: Query, payload: seq<byte>) {
    Echoes(QueryRequest(query), payload) && (!Succeeds(payload) || |payload| < 28)
  }

  /** A query for an id returns an id exactly when the next packet is authentic and its payload starts with
      the query's own request id and a zero status and has that id in bytes 12 to 28, and returns nothing
      exactly when it starts with that request id and its status is not zero or it has no room for an id. */
  lemma IdReturnedIff(suite: Suite, incoming: seq<byte>, key: Bytes32, s: State, query: Query, id: UUID)
    requires Connected(incoming, key, s) && AsksForId(QueryRequest(query))
    ensures Step(suite, incoming, s, Ask(query)).1 == Ok(MaybeId(Some(id)))
       <==> exists payload ::
              NextIs(suite, key, s.readerIv, incoming[s.position..], payload) && CarriesId(query, payload, id)
    ensures Step(suite, incoming, s, Ask(query)).1 == Ok(MaybeId(None))
       <==> exists payload ::
              NextIs(suite, key, s.readerIv, incoming[s.position..], payload) && DeniesId(query, payload)
  {
    var request := QueryRequest(query);
    AnswerIff(suite, incoming, key, s, Ask(query), request, Ok(MaybeId(Some(id))));
    AnswerIff(suite, incoming, key, s, Ask(query), request, Ok(MaybeId(None)));
    forall payload | |payload| >= 12
      ensures SizeRuleOf(request).Accepts(|payload|)
      ensures ReadReply(request, payload) == Ok(MaybeId(Some(id))) <==> CarriesId(query, payload, id)
      ensures ReadReply(request, payload) == Ok(MaybeId(None)) <==> DeniesId(query, payload)
    {
      SizeAcceptedIff(request, |payload|);
      IdReplyIff(request, payload, id);
    }
  }

  /** The latest block id is returned under the same condition, for payloads of exactly 28 bytes. */
  lemma LatestIdReturnedIff(suite: Suite, incoming: seq<byte>, key: Bytes32, s: State, id: UUID)
    requires Connected(incoming, key, s)
    ensures Step(suite, incoming, s, Ask(LatestBlockId)).1 == Ok(Id(id))
       <==> exists payload ::
              NextIs(suite, key, s.readerIv, incoming[s.position..], payload) && |payload| == 28
              && CarriesId(LatestBlockId, payload, id)
  {
    var request := QueryRequest(LatestBlockId);
    AnswerIff(suite, incoming, key, s, Ask(LatestBlockId), request, Ok(Id(id)));
    forall payload | TwelveOrTwentyEight.Accepts(|payload|)
      ensures ReadReply(request, payload) == Ok(Id(id)) <==> |payload| == 28 && CarriesId(LatestBlockId, payload, id)
    {
      LatestIdReplyIff(payload, id);
    }
  }

  /** A status that is not zero makes that call throw. */
  lemma LatestIdFailsIff(suite: Suite, incoming: seq<byte>, key: Bytes32, s: State)
    requires Connected(incoming, key, s)
    ensures Step(suite, incoming, s, Ask(LatestBlockId)).1 == Err(IO)
       <==> exists payload ::
              NextIs(suite, key, s.readerIv, incoming[s.position..], payload)
              && TwelveOrTwentyEight.Accepts(|payload|)
              && Echoes(QueryRequest(LatestBlockId), payload) && !Succeeds(payload)
  {
    var request := QueryRequest(LatestBlockId);
    AnswerIff(suite, incoming, key, s, Ask(LatestBlockId), request, Err(IO));
    forall payload | TwelveOrTwentyEight.Accepts(|payload|)
      ensures ReadReply(request, payload) == Err(IO) <==> Echoes(request, payload) && !Succeeds(payload)
    {
      ReplyRefusedIff(request, payload);
    }
  }

  /** The size of the header in front of a certificate. */
  function HeaderSizeOf(query: Query): nat {
    if AsksForBlock(QueryRequest(query)) then 92 else 104
  }

  /** The payload of a successful reply to a query for a block or a transaction: the certificate is what is
      behind 92 or 104 bytes of header, and not empty. */
  predicate CarriesCertificate(query: Query, payload: seq<byte>, certificate: seq<byte>) {
    var n := HeaderSizeOf(query);
    && |payload| >= n && Echoes(QueryRequest(query), payload) && Succeeds(payload)
    && payload[n..] == certificate && certificate != []
  }

  /** The payload of a reply that there is none: a status that is not zero, or nothing behind the header. */
  predicate DeniesCertificate(query: Query, payload: seq<byte>) {
    Echoes(QueryRequest(query), payload) && (!Succeeds(payload) || |payload| <= HeaderSizeOf(query))
  }

  /** A query for a block or a transaction returns a certificate exactly when the next packet is authentic
      and its payload starts with the query's own request id and a zero status and has that certificate
      behind its header, and returns nothing exactly when it starts with that request id and its status is not
      zero or there is nothing behind its header. */
  lemma CertificateReturnedIff(suite: Suite, incoming: seq<byte>, key: Bytes32, s: State, query: Query,
                               certificate: seq<byte>)
    requires Connected(incoming, key, s)
    requires AsksForBlock(QueryRequest(query)) || AsksForTransaction(QueryRequest(query))
    ensures Step(suite, incoming, s, Ask(query)).1 == Ok(MaybeCertificate(Some(certificate)))
       <==> exists payload ::
              NextIs(suite, key, s.readerIv, incoming[s.position..], payload)
              && CarriesCertificate(query, payload, certificate)
    ensures Step(suite, incoming, s, Ask(query)).1 == Ok(MaybeCertificate(None))
       <==> exists payload ::
              NextIs(suite, key, s.readerIv, incoming[s.position..], payload) && DeniesCertificate(query, payload)
  {
    var request := QueryRequest(query);
    AnswerIff(suite, incoming, key, s, Ask(query), request, Ok(MaybeCertificate(Some(certificate))));
    AnswerIff(suite, incoming, key, s, Ask(query), request, Ok(MaybeCertificate(None)));
    forall payload | |payload| >= 12
      ensures SizeRuleOf(request).Accepts(|payload|)
      ensures ReadReply(request, payload) == Ok(MaybeCertificate(Some(certificate)))
         <==> CarriesCertificate(query, payload, certificate)
      ensures ReadReply(request, payload) == Ok(MaybeCertificate(None)) <==> DeniesCertificate(query, payload)
    {
      SizeAcceptedIff(request, |payload|);
      CertificateReplyIff(request, payload, certificate);
    }
  }

  /** A submission is acknowledged exactly when the next packet is authentic, has 12 bytes of payload, and starts
      with the request's own id. */
  lemma SubmittedIff(suite: Suite, incoming: seq<byte>, key: Bytes32, s: State, call: Call, request: Request)
    requires Connected(incoming, key, s) && RequestOf(call) == Ok(request) && request.SubmitRequest?
    ensures Step(suite, incoming, s, call).1 == Ok(Submitted)
       <==> exists payload ::
              NextIs(suite, key, s.readerIv, incoming[s.position..], payload) && |payload| == 12
              && Echoes(request, payload)
  {
    AnswerIff(suite, incoming, key, s, call, request, Ok(Submitted));
    forall payload | |payload| == 12
      ensures ReadReply(request, payload) == Ok(Submitted) <==> Echoes(request, payload)
    {
      SubmitReplyIff(request, payload);
    }
  }

  /** The connection status is 0 or 1 as the status in the next packet is zero or not. */
  lemma StatusReturnedIff(suite: Suite, incoming: seq<byte>, key: Bytes32, s: State, up: bool)
    requires Connected(incoming, key, s)
    ensures Step(suite, incoming, s, Ask(ConnectionStatus)).1 == Ok(Status(if up then 0 else 1))
       <==> exists payload ::
              NextIs(suite, key, s.readerIv, incoming[s.position..], payload)
              && Echoes(QueryRequest(ConnectionStatus), payload) && Succeeds(payload) == up
  {
    var request, answer := QueryRequest(ConnectionStatus), Ok(Status(if up then 0 else 1));
    AnswerIff(suite, incoming, key, s, Ask(ConnectionStatus), request, answer);
    forall payload | |payload| >= 12
      ensures SizeRuleOf(request).Accepts(|payload|)
      ensures ReadReply(request, payload) == answer <==> Echoes(request, payload) && Succeeds(payload) == up
    {
      SizeAcceptedIff(request, |payload|);
      StatusReplyIff(payload);
    }
  }

  // ----- the calls of a run

  lemma {:induction false} FoldAt<C, R>(step: (State, C) -> (State, R), s: State, inputs: seq<C>, i: nat)
    requires i < |inputs|
    ensures |Fold(step, s, inputs).1| == |inputs|
    ensures (Fold(step, s, inputs[..i + 1]).0, Fold(step, s, inputs).1[i])
         == step(Fold(step, s, inputs[..i]).0, inputs[i])
    decreases |inputs|
  {
    var first, later := inputs[0], inputs[1..];
    assert inputs[..i + 1][0] == first && inputs[..i + 1][1..] == later[..i];
    if i > 0 {
      FoldAt(step, step(s, first).0, later, i - 1);
      assert inputs[..i][0] == first && inputs[..i][1..] == later[..i - 1];
    } else if later != [] {
      FoldAt(step, step(s, first).0, later, 0);
    }
  }

  /** The i-th call of a run is one step from the state that the calls before it left, and its outcome is the i-th. */
  lemma RunAt(suite: Suite, incoming: seq<byte>, s: State, calls: seq<Call>, i: nat)
    requires i < |calls|
    ensures |Run(suite, incoming, s, calls).1| == |calls|
    ensures (Run(suite, incoming, s, calls[..i + 1]).0, Run(suite, incoming, s, calls).1[i])
         == Step(suite, incoming, Run(suite, incoming, s, calls[..i]).0, calls[i])
  {
    FoldAt((t, call) => Step(suite, incoming, t, call), s, calls, i);
  }

  // ----- bytes that are not an accepted packet

  /** The bytes still to be read start with an encrypted header for a size of at most 10 MiB. */
  ghost predicate HeaderNext(suite: Suite, key: seq<byte>, iv: ulong, pending: seq<byte>, n: nat) {
    |pending| >= 5 && n <= 10485760 && IsHeader(suite, key, iv, n, pending[..5])
  }

  /** So many bytes behind a header and its MAC, with a MAC that is not theirs. */
  ghost predicate ForgedNext(suite: Suite, key: seq<byte>, pending: seq<byte>, n: nat) {
    |pending| >= 37 + n && pending[5..37] != suite.macShort(key, pending[..5] + pending[37..37 + n])
  }

  /** What reading a packet does without a header. */
  lemma BeforeHeader(openHeader: HeaderOpener, openPayload: PayloadOpener, incoming: seq<byte>, s: State,
                     rule: SizeRule, e: Exception)
    requires s.position <= |incoming|
    requires s.position + 5 <= |incoming| ==> openHeader(incoming[s.position..s.position + 5]) == Err(e)
    ensures ReceiveWith(openHeader, openPayload, incoming, s, rule)
         == if s.position + 5 > |incoming| then (s.(position := |incoming|), Err(EndOfFile))
            else (s.(position := s.position + 5), Err(e))
  {
  }

  /** What reading a packet does behind a header, with the right MAC or a forged one. */
  lemma BehindHeader(openHeader: HeaderOpener, openPayload: PayloadOpener, incoming: seq<byte>, s: State,
                     rule: SizeRule, n: nat, forged: bool)
    requires s.position + 5 <= |incoming| && openHeader(incoming[s.position..s.position + 5]) == Ok(n)
    requires s.position + 37 + n <= |incoming| ==>
      var r := openPayload(incoming[s.position..s.position + 5],
                           incoming[s.position + 5..s.position + 37 + n]);
      if forged then r == Err(MessageVerification) else r.Ok?
    ensures var (s', r) := ReceiveWith(openHeader, openPayload, incoming, s, rule);
            if !rule.Accepts(n) then s' == s.(position := s.position + 5) && r == Err(InvalidPayloadSize)
            else if s.position + 37 + n > |incoming| then s' == s.(position := |incoming|) && r == Err(EndOfFile)
            else if forged then s' == s.(position := s.position + 37 + n) && r == Err(MessageVerification)
            else s' == s.(position := s.position + 37 + n, readerIv := Next(s.readerIv)) && r.Ok?
  {
  }

  lemma HeaderNextIff(suite: Suite, key: Bytes32, iv: ulong, incoming: seq<byte>, at: nat, n: nat)
    requires at + 5 <= |incoming|
    ensures HeaderNext(suite, key, iv, incoming[at..], n) <==> OpenHeader(suite, key, iv, incoming[at..at + 5]) == Ok(n)
  {
    assert incoming[at..][..5] == incoming[at..at + 5];
    HeaderAcceptedIff(suite, key, iv, incoming[at..at + 5], n);
  }

  lemma PendingSlices(incoming: seq<byte>, at: nat, n: nat)
    requires at + 37 + n <= |incoming|
    ensures var pending, rest := incoming[at..], incoming[at + 5..at + 37 + n];
            pending[..5] == incoming[at..at + 5] && pending[5..37] == rest[..32] && pending[37..37 + n] == rest[32..]
  {
    var pending, rest := incoming[at..], incoming[at + 5..at + 37 + n];
    assert pending[..5] == incoming[at..at + 5];
    assert pending[5..37] == incoming[at + 5..at + 37];
    assert rest[..32] == incoming[at + 5..at + 37];
    assert pending[37..37 + n] == incoming[at + 37..at + 37 + n];
    assert rest[32..] == incoming[at + 37..at + 37 + n];
  }

  lemma ForgedIff(suite: Suite, key: Bytes32, iv: ulong, incoming: seq<byte>, at: nat, n: nat)
    requires at + 37 + n <= |incoming|
    ensures var r := OpenPayload(suite, key, iv, incoming[at..at + 5], incoming[at + 5..at + 37 + n]);
            if ForgedNext(suite, key, incoming[at..], n) then r == Err(MessageVerification) else r.Ok?
  {
    PendingSlices(incoming, at, n);
    MacDecides(suite, key, iv, incoming[at..at + 5], incoming[at + 5..at + 37 + n]);
  }

  /** Before a header: fewer than five bytes, or five that are none. */
  lemma NoHeaderRead(suite: Suite, incoming: seq<byte>, key: Bytes32, s: State, rule: SizeRule)
    requires s.position <= |incoming|
    requires !exists n: nat :: HeaderNext(suite, key, s.readerIv, incoming[s.position..], n)
    ensures ReceivePacket(suite, incoming, key, s, rule)
         == if s.position + 5 > |incoming| then (s.(position := |incoming|), Err(EndOfFile))
            else (s.(position := s.position + 5), Err(IllegalState))
  {
    var openHeader := Headers(suite, key, s.readerIv);
    if s.position + 5 <= |incoming| {
      NotAHeader(suite, key, s.readerIv, incoming, s.position);
      assert openHeader(incoming[s.position..s.position + 5]) == Err(IllegalState);
    }
    BeforeHeader(openHeader, Payloads(suite, key, s.readerIv), incoming, s, rule, IllegalState);
  }

  lemma NotAHeader(suite: Suite, key: Bytes32, iv: ulong, incoming: seq<byte>, at: nat)
    requires at + 5 <= |incoming| && !exists n: nat :: HeaderNext(suite, key, iv, incoming[at..], n)
    ensures OpenHeader(suite, key, iv, incoming[at..at + 5]) == Err(IllegalState)
  {
    var size := OpenHeader(suite, key, iv, incoming[at..at + 5]);
    var n := if size.Ok? then size.value else 0;
    assert !HeaderNext(suite, key, iv, incoming[at..], n);
    HeaderNextIff(suite, key, iv, incoming, at, n);
    HeaderAcceptedIff(suite, key, iv, incoming[at..at + 5], n);
  }

  /** Behind a header: a size that is not let through, too few bytes, a wrong MAC, and a packet. Only the last
      moves the counter. */
  lemma HeaderRead(suite: Suite, incoming: seq<byte>, key: Bytes32, s: State, rule: SizeRule, n: nat)
    requires s.position <= |incoming| && HeaderNext(suite, key, s.readerIv, incoming[s.position..], n)
    ensures var (s', r) := ReceivePacket(suite, incoming, key, s, rule);
            if !rule.Accepts(n) then s' == s.(position := s.position + 5) && r == Err(InvalidPayloadSize)
            else if s.position + 37 + n > |incoming| then s' == s.(position := |incoming|) && r == Err(EndOfFile)
            else if ForgedNext(suite, key, incoming[s.position..], n)
            then s' == s.(position := s.position + 37 + n) && r == Err(MessageVerification)
            else s' == s.(position := s.position + 37 + n, readerIv := Next(s.readerIv)) && r.Ok?
  {
    HeaderNextIff(suite, key, s.readerIv, incoming, s.position, n);
    if s.position + 37 + n <= |incoming| {
      ForgedIff(suite, key, s.readerIv, incoming, s.position, n);
    }
    BehindHeader(Headers(suite, key, s.readerIv), Payloads(suite, key, s.readerIv), incoming, s, rule, n,
                 ForgedNext(suite, key, incoming[s.position..], n));
  }

  lemma OneHeader(suite: Suite, key: seq<byte>, iv: ulong, pending: seq<byte>, m: nat, n: nat)
    requires HeaderNext(suite, key, iv, pending, m) && HeaderNext(suite, key, iv, pending, n)
    ensures m == n
  {
    HeaderAcceptedIff(suite, key, iv, pending[..5], m);
    HeaderAcceptedIff(suite, key, iv, pending[..5], n);
  }

  /** Which exception reading a packet throws, for all bytes that can arrive. */
  lemma PacketRefusedIff(suite: Suite, incoming: seq<byte>, key: Bytes32, s: State, rule: SizeRule)
    requires s.position <= |incoming|
    ensures var r, pending := ReceivePacket(suite, incoming, key, s, rule).1, incoming[s.position..];
            && (r == Err(IllegalState) <==>
                  |pending| >= 5 && forall n: nat :: !HeaderNext(suite, key, s.readerIv, pending, n))
            && (r == Err(InvalidPayloadSize) <==>
                  exists n: nat :: HeaderNext(suite, key, s.readerIv, pending, n) && !rule.Accepts(n))
            && (r == Err(MessageVerification) <==>
                  exists n: nat :: HeaderNext(suite, key, s.readerIv, pending, n) && rule.Accepts(n)
                              && ForgedNext(suite, key, pending, n))
            && (r == Err(EndOfFile) <==>
                  |pending| < 5
                  || exists n: nat :: HeaderNext(suite, key, s.readerIv, pending, n) && rule.Accepts(n)
                                 && |pending| < 37 + n)
  {
    var pending := incoming[s.position..];
    if n: nat :| HeaderNext(suite, key, s.readerIv, pending, n) {
      HeaderRead(suite, incoming, key, s, rule, n);
      forall m: nat | HeaderNext(suite, key, s.readerIv, pending, m) ensures m == n {
        OneHeader(suite, key, s.readerIv, pending, m, n);
      }
    } else {
      NoHeaderRead(suite, incoming, key, s, rule);
    }
  }

  /** A call throws InvalidPayloadSizeException exactly on a header for a size that its reading method does not let
      through, or, for the latest block id, on a successful reply without an id. */
  lemma SizeRefusedIff(suite: Suite, incoming: seq<byte>, key: Bytes32, s: State, call: Call, request: Request)
    requires Connected(incoming, key, s) && RequestOf(call) == Ok(request)
    ensures Step(suite, incoming, s, call).1 == Err(InvalidPayloadSize)
       <==> (exists n: nat ::
               HeaderNext(suite, key, s.readerIv, incoming[s.position..], n) && !SizeRuleOf(request).Accepts(n))
            || (request == QueryRequest(LatestBlockId)
                && exists payload ::
                     NextIs(suite, key, s.readerIv, incoming[s.position..], payload) && |payload| == 12
                     && Echoes(request, payload) && Succeeds(payload))
  {
    var rule := SizeRuleOf(request);
    StepExchanges(suite, incoming, s, call, request);
    ExchangeReceives(suite, incoming, key, s, request);
    PacketRefusedIff(suite, incoming, key, s, rule);
    ShortLatestIff(suite, incoming, key, s, request);
  }

  /** The one reply whose size is refused after it has been read. */
  lemma ShortLatestIff(suite: Suite, incoming: seq<byte>, key: Bytes32, s: State, request: Request)
    requires s.position <= |incoming|
    ensures var r := ReceivePacket(suite, incoming, key, s, SizeRuleOf(request)).1;
            (r.Ok? && ReadReply(request, r.value) == Err(InvalidPayloadSize))
            <==> request == QueryRequest(LatestBlockId)
                 && exists payload ::
                      NextIs(suite, key, s.readerIv, incoming[s.position..], payload) && |payload| == 12
                      && Echoes(request, payload) && Succeeds(payload)
  {
    var rule := SizeRuleOf(request);
    SizeAcceptedIff(request, 12);
    var r := ReceivePacket(suite, incoming, key, s, rule).1;
    if r.Ok? {
      PacketReceivedIff(suite, incoming, key, s, rule, r.value);
      ReplyRefusedIff(request, r.value);
    }
    if payload :| NextIs(suite, key, s.readerIv, incoming[s.position..], payload) && |payload| == 12
                  && Echoes(request, payload) && Succeeds(payload) && request == QueryRequest(LatestBlockId) {
      PacketReceivedIff(suite, incoming, key, s, rule, payload);
      ReplyRefusedIff(request, payload);
    }
  }

  /** A call reads what reading a packet reads, and throws what that throws. */
  lemma StepReads(suite: Suite, incoming: seq<byte>, key: Bytes32, s: State, call: Call, request: Request)
    requires Connected(incoming, key, s) && RequestOf(call) == Ok(request)
    ensures var (s', r) := ReceivePacket(suite, incoming, key, s, SizeRuleOf(request));
            && Step(suite, incoming, s, call).0.position == s'.position
            && (r.Err? ==> Step(suite, incoming, s, call).1 == Err(r.error))
  {
    var rule := SizeRuleOf(request);
    StepExchanges(suite, incoming, s, call, request);
    ExchangeReceives(suite, incoming, key, s, request);
    SamePosition(Headers(suite, key, s.readerIv), Payloads(suite, key, s.readerIv), incoming, s,
                 SendPacket(suite, key, s, RequestBytes(request)), rule);
  }

  // ----- runs against an agent that sends well-formed packets

  /** The position is on a packet boundary, the reader's counter is that packet's, and the packets still to
      be read are those for the given payloads. */
  ghost predicate InLockstep(suite: Suite, incoming: seq<byte>, key: Bytes32, s: State, payloads: seq<seq<byte>>) {
    && s.secret == Some(key) && s.position <= |incoming| && AllSmall(payloads)
    && incoming[s.position..] == Frames(suite, key, s.readerIv, payloads)
  }

  lemma FirstFrame(suite: Suite, incoming: seq<byte>, key: Bytes32, s: State, payloads: seq<seq<byte>>)
    requires InLockstep(suite, incoming, key, s, payloads) && payloads != []
    ensures NextIs(suite, key, s.readerIv, incoming[s.position..], payloads[0])
    ensures var end := s.position + HEADER_SIZE + MAC_SHORT_SIZE + |payloads[0]|;
            end <= |incoming| && incoming[end..] == Frames(suite, key, Next(s.readerIv), payloads[1..])
  {
    var packet := Packet(suite, key, s.readerIv, payloads[0]);
    var rest := Frames(suite, key, Next(s.readerIv), payloads[1..]);
    assert incoming[s.position..] == packet + rest;
    assert (packet + rest)[..|packet|] == packet;
    assert incoming[s.position..][|packet|..] == incoming[s.position + |packet|..];
  }

  /** The bytes still to be read start with an encrypted header for a size within the bound, followed by a MAC
      and a body of that size, right or wrong, and then by the packets for the given payloads. */
  ghost predicate CompletePacket(suite: Suite, incoming: seq<byte>, key: Bytes32, s: State, size: nat,
                                 rest: seq<byte>, payloads: seq<seq<byte>>) {
    && s.secret == Some(key) && s.position <= |incoming| && AllSmall(payloads)
    && size <= MAX_PAYLOAD_SIZE && |rest| == MAC_SHORT_SIZE + size
    && incoming[s.position..] == Stream(suite, key, NativeBytes(s.readerIv), 0, Header(size)) + rest
                                 + Frames(suite, key, Next(s.readerIv), payloads)
  }

  /** The MAC in front of a body is the one over header and body. */
  predicate MacAccepted(suite: Suite, key: Bytes32, header: seq<byte>, rest: seq<byte>) {
    |rest| >= MAC_SHORT_SIZE
    && rest[..MAC_SHORT_SIZE] == suite.macShort(key, header + rest[MAC_SHORT_SIZE..])
  }

  lemma CutThree(incoming: seq<byte>, at: nat, a: seq<byte>, b: seq<byte>, c: seq<byte>)
    requires at <= |incoming| && incoming[at..] == a + b + c
    ensures var m, n := at + |a|, at + |a| + |b|;
            n <= |incoming| && incoming[at..m] == a && incoming[m..n] == b && incoming[n..] == c
  {
    var m, n := at + |a|, at + |a| + |b|;
    assert incoming[at..][..|a|] == incoming[at..m] && incoming[at..][|a|..|a| + |b|] == incoming[m..n];
    assert incoming[at..][|a| + |b|..] == incoming[n..];
  }

  lemma MacDecides(suite: Suite, key: Bytes32, iv: ulong, header: seq<byte>, rest: seq<byte>)
    ensures var r := OpenPayload(suite, key, iv, header, rest);
            if MacAccepted(suite, key, header, rest) then r.Ok? else r == Err(MessageVerification)
  {
  }

  lemma CompleteRead(openHeader: HeaderOpener, openPayload: PayloadOpener, incoming: seq<byte>, s: State,
                     rule: SizeRule, size: nat, header: seq<byte>, rest: seq<byte>)
    requires |header| == HEADER_SIZE && |rest| == MAC_SHORT_SIZE + size && openHeader(header) == Ok(size)
    requires var m, n := s.position + HEADER_SIZE, s.position + HEADER_SIZE + |rest|;
             n <= |incoming| && incoming[s.position..m] == header && incoming[m..n] == rest
    ensures var r := openPayload(header, rest);
            ReceiveWith(openHeader, openPayload, incoming, s, rule)
            == if !rule.Accepts(size) then (s.(position := s.position + HEADER_SIZE), Err(InvalidPayloadSize))
               else (s.(position := s.position + HEADER_SIZE + |rest|,
                        readerIv := if r.Ok? then Next(s.readerIv) else s.readerIv), r)
  {
  }

  /** What reading a complete packet does: a rejected size stops behind the header, and a wrong MAC uses up the
      whole packet and leaves the counter where it was. */
  lemma CompletePacketRead(suite: Suite, incoming: seq<byte>, key: Bytes32, s: State, rule: SizeRule, size: nat,
                           rest: seq<byte>, payloads: seq<seq<byte>>)
    requires CompletePacket(suite, incoming, key, s, size, rest, payloads)
    ensures var header := Stream(suite, key, NativeBytes(s.readerIv), 0, Header(size));
            var (s', r) := ReceivePacket(suite, incoming, key, s, rule);
            if !rule.Accepts(size)
            then s' == s.(position := s.position + HEADER_SIZE) && r == Err(InvalidPayloadSize)
            else if !MacAccepted(suite, key, header, rest)
            then s' == s.(position := s.position + HEADER_SIZE + |rest|) && r == Err(MessageVerification)
            else s' == s.(position := s.position + HEADER_SIZE + |rest|, readerIv := Next(s.readerIv)) && r.Ok?
  {
    var header := Stream(suite, key, NativeBytes(s.readerIv), 0, Header(size));
    CutThree(incoming, s.position, header, rest, Frames(suite, key, Next(s.readerIv), payloads));
    OpenHeaderIff(suite, key, s.readerIv, header, size);
    MacDecides(suite, key, s.readerIv, header, rest);
    CompleteRead(Headers(suite, key, s.readerIv), Payloads(suite, key, s.readerIv), incoming, s, rule, size, header,
                 rest);
  }

  /** The session is on the next packet boundary and its counter is that packet's. */
  ghost predicate KeptLockstep(suite: Suite, incoming: seq<byte>, key: Bytes32, s: State, s': State,
                               payloads: seq<seq<byte>>) {
    InLockstep(suite, incoming, key, s', payloads) && s'.readerIv == Next(s.readerIv)
  }

  /** Reading a complete packet keeps the session in lockstep exactly when its size and its MAC are both
      accepted. */
  lemma LockstepIff(suite: Suite, incoming: seq<byte>, key: Bytes32, s: State, rule: SizeRule, size: nat,
                    rest: seq<byte>, payloads: seq<seq<byte>>)
    requires CompletePacket(suite, incoming, key, s, size, rest, payloads)
    ensures KeptLockstep(suite, incoming, key, s, ReceivePacket(suite, incoming, key, s, rule).0, payloads)
       <==> rule.Accepts(size)
            && MacAccepted(suite, key, Stream(suite, key, NativeBytes(s.readerIv), 0, Header(size)), rest)
  {
    CompletePacketRead(suite, incoming, key, s, rule, size, rest, payloads);
    BehindPacket(suite, incoming, key, s, ReceivePacket(suite, incoming, key, s, rule).0, size, rest, payloads);
    NextDiffers(s.readerIv);
  }

  /** A session that has moved past a complete packet is in lockstep when its counter has moved too. */
  lemma BehindPacket(suite: Suite, incoming: seq<byte>, key: Bytes32, s: State, s': State, size: nat, rest: seq<byte>,
                     payloads: seq<seq<byte>>)
    requires CompletePacket(suite, incoming, key, s, size, rest, payloads)
    ensures s' == s.(position := s.position + HEADER_SIZE + |rest|, readerIv := Next(s.readerIv)) ==>
              KeptLockstep(suite, incoming, key, s, s', payloads)
  {
    CutThree(incoming, s.position, Stream(suite, key, NativeBytes(s.readerIv), 0, Header(size)), rest,
             Frames(suite, key, Next(s.readerIv), payloads));
  }

  lemma NextDiffers(iv: ulong)
    ensures Next(iv) != iv
  {
  }

  /** The i-th request lets the size of the i-th payload through. */
  ghost predicate Compatible(requests: seq<Request>, payloads: seq<seq<byte>>) {
    forall i :: 0 <= i < |requests| && i < |payloads| ==> SizeRuleOf(requests[i]).Accepts(|payloads[i]|)
  }

  function AnswerTo(request: Request, payload: seq<byte>): Result<Answer> {
    if SizeRuleOf(request).Accepts(|payload|) then ReadReply(request, payload) else Err(InvalidPayloadSize)
  }

  /** The answers when the agent's payloads are dealt out in order, one for each request that is sent. */
  function Answers(attempts: seq<Result<Request>>, payloads: seq<seq<byte>>): seq<Result<Answer>>
    decreases |attempts|
  {
    if attempts == [] then []
    else if attempts[0].Err? then [Err(attempts[0].error)] + Answers(attempts[1..], payloads)
    else if payloads == [] then [Err(EndOfFile)] + Answers(attempts[1..], [])
    else [AnswerTo(attempts[0].value, payloads[0])] + Answers(attempts[1..], payloads[1..])
  }

  function Min(a: nat, b: nat): nat {
    if a < b then a else b
  }

  type Lockstep = (State, seq<seq<byte>>) -> bool

  /** A step consumes the next payload if it sends a request and there is one. */
  ghost predicate Dealt(lockstep: Lockstep, s: State, attempt: Result<Request>, payloads: seq<seq<byte>>,
                        s': State, answer: Result<Answer>) {
    if attempt.Err? then s' == s && answer == Err(attempt.error)
    else if payloads == [] then lockstep(s', []) && s'.readerIv == s.readerIv && answer == Err(EndOfFile)
    else SizeRuleOf(attempt.value).Accepts(|payloads[0]|) ==>
           lockstep(s', payloads[1..]) && s'.readerIv == Next(s.readerIv)
           && answer == AnswerTo(attempt.value, payloads[0])
  }

  ghost predicate Deals(step: Attempting, lockstep: Lockstep) {
    forall s, attempt, payloads | lockstep(s, payloads) ::
      Dealt(lockstep, s, attempt, payloads, step(s, attempt).0, step(s, attempt).1)
  }

  lemma CompatibleTail(request: Request, later: seq<Request>, payloads: seq<seq<byte>>)
    requires Compatible([request] + later, payloads) && payloads != []
    ensures SizeRuleOf(request).Accepts(|payloads[0]|) && Compatible(later, payloads[1..])
  {
    assert ([request] + later)[0] == request;
    forall i | 0 <= i < |later| && i < |payloads[1..]|
      ensures SizeRuleOf(later[i]).Accepts(|payloads[1..][i]|)
    {
      assert ([request] + later)[i + 1] == later[i] && payloads[i + 1] == payloads[1..][i];
    }
  }

  lemma DropOneMore<T>(s: seq<T>, k: nat)
    requires k < |s|
    ensures s[1..][k..] == s[k + 1..]
  {
  }

  lemma {:induction false} FoldDeals(step: Attempting, lockstep: Lockstep, s: State,
                                     attempts: seq<Result<Request>>, payloads: seq<seq<byte>>)
    requires Deals(step, lockstep) && lockstep(s, payloads) && Compatible(Requests(attempts), payloads)
    ensures var (s', answers) := Fold(step, s, attempts);
            var k := Min(|Requests(attempts)|, |payloads|);
            && lockstep(s', payloads[k..])
            && s'.readerIv == Advance(s.readerIv, k)
            && answers == Answers(attempts, payloads)
    decreases |attempts|
  {
    AdvanceAdvance(s.readerIv, 0, 0);
    if attempts == [] {
      assert payloads[0..] == payloads;
    } else {
      var attempt, later := attempts[0], Requests(attempts[1..]);
      var s1 := step(s, attempt).0;
      assert Dealt(lockstep, s, attempt, payloads, s1, step(s, attempt).1);
      if attempt.Err? {
        assert [] + later == later;
        FoldDeals(step, lockstep, s, attempts[1..], payloads);
      } else if payloads == [] {
        FoldDeals(step, lockstep, s1, attempts[1..], []);
      } else {
        CompatibleTail(attempt.value, later, payloads);
        FoldDeals(step, lockstep, s1, attempts[1..], payloads[1..]);
        var k := Min(|later|, |payloads| - 1);
        DropOneMore(payloads, k);
        AdvanceAdvance(s.readerIv, 1, k);
      }
    }
  }

  lemma AtEnd(openHeader: HeaderOpener, openPayload: PayloadOpener, incoming: seq<byte>, s: State, rule: SizeRule)
    requires s.position == |incoming|
    ensures ReceiveWith(openHeader, openPayload, incoming, s, rule) == (s, Err(EndOfFile))
  {
  }

  /** Reading one packet in lockstep. */
  lemma LockstepReceive(suite: Suite, incoming: seq<byte>, key: Bytes32, s: State, rule: SizeRule,
                        payloads: seq<seq<byte>>)
    requires InLockstep(suite, incoming, key, s, payloads)
    requires payloads != [] ==> rule.Accepts(|payloads[0]|)
    ensures var (s', r) := ReceivePacket(suite, incoming, key, s, rule);
            if payloads == [] then s' == s && r == Err(EndOfFile)
            else InLockstep(suite, incoming, key, s', payloads[1..]) && s'.readerIv == Next(s.readerIv)
                 && r == Ok(payloads[0])
  {
    if payloads == [] {
      assert s.position == |incoming|;
      AtEnd(Headers(suite, key, s.readerIv), Payloads(suite, key, s.readerIv), incoming, s, rule);
    } else {
      FirstFrame(suite, incoming, key, s, payloads);
      PacketConsumed(suite, incoming, key, s, rule, payloads[0]);
    }
  }

  /** One exchange in lockstep. */
  lemma LockstepExchange(suite: Suite, incoming: seq<byte>, key: Bytes32, s: State, request: Request,
                         payloads: seq<seq<byte>>)
    requires InLockstep(suite, incoming, key, s, payloads)
    requires payloads != [] ==> SizeRuleOf(request).Accepts(|payloads[0]|)
    ensures var (s', answer) := Exchange(suite, incoming, s, request);
            if payloads == []
            then InLockstep(suite, incoming, key, s', []) && s'.readerIv == s.readerIv && answer == Err(EndOfFile)
            else InLockstep(suite, incoming, key, s', payloads[1..]) && s'.readerIv == Next(s.readerIv)
                 && answer == AnswerTo(request, payloads[0])
  {
    LockstepReceive(suite, incoming, key, SendPacket(suite, key, s, RequestBytes(request)), SizeRuleOf(request),
                    payloads);
  }

  ghost function LockstepOf(suite: Suite, incoming: seq<byte>, key: Bytes32): Lockstep {
    (s: State, payloads: seq<seq<byte>>) => InLockstep(suite, incoming, key, s, payloads)
  }

  lemma AttemptDealt(suite: Suite, incoming: seq<byte>, key: Bytes32, s: State, attempt: Result<Request>,
                     payloads: seq<seq<byte>>)
    requires InLockstep(suite, incoming, key, s, payloads)
    ensures var (s', answer) := Attempt(suite, incoming, s, attempt);
            Dealt(LockstepOf(suite, incoming, key), s, attempt, payloads, s', answer)
  {
    if attempt.Ok? && (payloads == [] || SizeRuleOf(attempt.value).Accepts(|payloads[0]|)) {
      LockstepExchange(suite, incoming, key, s, attempt.value, payloads);
    }
  }

  lemma AttemptsDeal(suite: Suite, incoming: seq<byte>, key: Bytes32)
    ensures Deals(Attempter(suite, incoming), LockstepOf(suite, incoming, key))
  {
    var step, lockstep := Attempter(suite, incoming), LockstepOf(suite, incoming, key);
    forall s, attempt: Result<Request>, payloads | lockstep(s, payloads)
      ensures Dealt(lockstep, s, attempt, payloads, step(s, attempt).0, step(s, attempt).1)
    {
      AttemptDealt(suite, incoming, key, s, attempt, payloads);
    }
  }

  /** Against an agent that sends well-formed packets of accepted sizes, a run consumes one whole packet for
      each request until the packets run out, stays on packet boundaries with its counter in step, and
      returns the answers in the order of the packets. */
  lemma LockstepRun(suite: Suite, incoming: seq<byte>, key: Bytes32, s: State, calls: seq<Call>,
                    payloads: seq<seq<byte>>)
    requires InLockstep(suite, incoming, key, s, payloads) && Compatible(Requests(Attempts(calls)), payloads)
    ensures var (s', answers) := Run(suite, incoming, s, calls);
            var k := Min(|Requests(Attempts(calls))|, |payloads|);
            && InLockstep(suite, incoming, key, s', payloads[k..])
            && s'.readerIv == Advance(s.readerIv, k)
            && answers == Answers(Attempts(calls), payloads)
  {
    RunAttempts(suite, incoming, key, s, calls);
    AttemptsDeal(suite, incoming, key);
    FoldDeals(Attempter(suite, incoming), LockstepOf(suite, incoming, key), s, Attempts(calls), payloads);
  }

  // ----- submissions

  /** The first value under an id in the complete fields at the start of some bytes. */
  function FirstValue(certificate: seq<byte>, id: int): Option<seq<byte>> {
    var values := Certificates.Select(Certificates.Walk(certificate), id);
    if values == [] then None else Some(values[0])
  }

  lemma FirstUuidIff(fields: seq<Certificates.Field>, id: int, u: UUID)
    ensures UuidField(Certificates.CertificateReader(Certificates.Group(fields)), id) == Ok(u)
       <==> Certificates.Select(fields, id) != [] && Certificates.Select(fields, id)[0] == UuidBytes(u)
  {
    Certificates.SelectNonEmpty(fields, id);
    if Certificates.Select(fields, id) != [] {
      UuidArgument(Certificates.Select(fields, id)[0], u);
    }
  }

  /** The first value under an id is a UUID. */
  predicate HasUuid(certificate: seq<byte>, id: int) {
    FirstValue(certificate, id).Some? && |FirstValue(certificate, id).value| == 16
  }

  /** A submission throws before it sends anything exactly when the certificate has no complete field, or when one of
      the two ids is missing or not a UUID. */
  lemma SubmissionRefusedIff(certificate: seq<byte>)
    ensures var r := RequestOf(Submit(certificate));
            && (r == Err(IllegalArgument) <==> Certificates.Walk(certificate) == [])
            && (r == Err(IO) <==> Certificates.Walk(certificate) != []
                                  && !(HasUuid(certificate, 0x0038) && HasUuid(certificate, 0x0041)))
            && (r.Err? ==> r.error == IllegalArgument || r.error == IO)
  {
    UuidFieldIff(Certificates.Walk(certificate), 0x0038);
    UuidFieldIff(Certificates.Walk(certificate), 0x0041);
  }

  lemma UuidFieldIff(fields: seq<Certificates.Field>, id: int)
    ensures var r := UuidField(Certificates.CertificateReader(Certificates.Group(fields)), id);
            && (r.Ok? <==> Certificates.Select(fields, id) != [] && |Certificates.Select(fields, id)[0]| == 16)
            && (r.Err? ==> r == Err(IO))
  {
    Certificates.SelectNonEmpty(fields, id);
  }

  /** A submission sends a request exactly when the first certificate id and the first artifact id in the
      certificate are UUIDs, and then with those two ids and the whole certificate. */
  lemma SubmissionIff(certificate: seq<byte>, transactionId: UUID, artifactId: UUID)
    ensures RequestOf(Submit(certificate)) == Ok(SubmitRequest(transactionId, artifactId, certificate))
       <==> FirstValue(certificate, 0x0038) == Some(UuidBytes(transactionId))
            && FirstValue(certificate, 0x0041) == Some(UuidBytes(artifactId))
  {
    FirstUuidIff(Certificates.Walk(certificate), Certificates.CERTIFICATE_ID, transactionId);
    FirstUuidIff(Certificates.Walk(certificate), Certificates.ARTIFACT_ID, artifactId);
  }

  /** Without a shared secret no run does anything: every call throws, the status query by a null key and
      the others by their guard. */
  lemma {:induction false} NothingWithoutSecret(suite: Suite, incoming: seq<byte>, s: State, calls: seq<Call>, i: nat)
    requires s.secret.None?
    ensures var (s', answers) := Run(suite, incoming, s, calls);
            && s' == s && |answers| == |calls|
            && (i < |calls| ==> answers[i] == Err(if calls[i] == Ask(ConnectionStatus) then NullPointer else Connect))
    decreases |calls|
  {
    if calls != [] {
      NothingWithoutSecret(suite, incoming, s, calls[1..], if i > 0 then i - 1 else 0);
    }
  }
}
