/** The requests and replies of the authenticated protocol, as byte layouts. */
module Protocol {
  import opened Bytes
  import opened Results
  import opened Uuids
  import opened ByteUtil

  const REQ_ID_HANDSHAKE_INITIATE: int := 0
  const REQ_ID_HANDSHAKE_ACKNOWLEDGE: int := 1
  const REQ_ID_LATEST_BLOCK_ID_GET: int := 2
  const REQ_ID_TRANSACTION_SUBMIT: int := 3
  const REQ_ID_BLOCK_ID_BY_HEIGHT_GET: int := 7
  const REQ_ID_STATUS_GET: int := 40960

  const BLOCK_HEADER_SIZE: nat := 3 * 4 + 16 * 4 + 8 * 2
  const TRANSACTION_HEADER_SIZE: nat := 3 * 4 + 16 * 5 + 8 * 1 + 4 * 1
  const ID_REPLY_SIZE: nat := 3 * 4 + 16 * 1

  /** The nine queries whose only argument is a UUID. */
  datatype IdQuery =
    | BlockById
    | NextBlockId
    | PrevBlockId
    | TransactionById
    | TransactionNextId
    | TransactionPreviousId
    | TransactionBlockId
    | ArtifactFirstTxnId
    | ArtifactLastTxnId

  datatype Query =
    | LatestBlockId
    | ById(kind: IdQuery, id: UUID)
    | BlockIdByHeight(height: long)
    | ConnectionStatus

  datatype Request =
    | SubmitRequest(transactionId: UUID, artifactId: UUID, certificate: seq<byte>)
    | QueryRequest(query: Query)

  function IdQueryId(kind: IdQuery): (id: int)
    ensures 0 <= id < TWO_32
  {
    match kind
    case BlockById => 4
    case NextBlockId => 5
    case PrevBlockId => 6
    case TransactionById => 16
    case TransactionNextId => 17
    case TransactionPreviousId => 18
    case TransactionBlockId => 19
    case ArtifactFirstTxnId => 32
    case ArtifactLastTxnId => 33
  }

  function RequestId(request: Request): (id: int)
    ensures 0 <= id < TWO_32
  {
    match request
    case SubmitRequest(_, _, _) => REQ_ID_TRANSACTION_SUBMIT
    case QueryRequest(LatestBlockId) => REQ_ID_LATEST_BLOCK_ID_GET
    case QueryRequest(ById(kind, _)) => IdQueryId(kind)
    case QueryRequest(BlockIdByHeight(_)) => REQ_ID_BLOCK_ID_BY_HEIGHT_GET
    case QueryRequest(ConnectionStatus) => REQ_ID_STATUS_GET
  }

  function Arguments(request: Request): seq<byte> {
    match request
    case SubmitRequest(transactionId, artifactId, certificate) =>
      UuidBytes(transactionId) + UuidBytes(artifactId) + certificate
    case QueryRequest(ById(_, id)) => UuidBytes(id)
    case QueryRequest(BlockIdByHeight(height)) => Htonll(height)
    case QueryRequest(_) => []
  }

  /** Every request: its id, a zero offset, and the arguments. */
  function RequestBytes(request: Request): (s: seq<byte>)
    ensures |s| == 8 + |Arguments(request)|
  {
    Htonl(RequestId(request)) + Htonl(0) + Arguments(request)
  }

  function IdQueryOf(id: int): Option<IdQuery> {
    if id == 4 then Some(BlockById)
    else if id == 5 then Some(NextBlockId)
    else if id == 6 then Some(PrevBlockId)
    else if id == 16 then Some(TransactionById)
    else if id == 17 then Some(TransactionNextId)
    else if id == 18 then Some(TransactionPreviousId)
    else if id == 19 then Some(TransactionBlockId)
    else if id == 32 then Some(ArtifactFirstTxnId)
    else if id == 33 then Some(ArtifactLastTxnId)
    else None
  }

  function GetSignedLong(s: seq<byte>): (v: long)
    requires |s| == 8
  {
    Pow256Values();
    SignedBytesRoundTrip(s);
    FromSignedBE(s)
  }

  function DecodeArguments(id: int, args: seq<byte>): Option<Request> {
    if id == REQ_ID_TRANSACTION_SUBMIT then
      if |args| < 32 then None
      else Some(SubmitRequest(UuidFromBytes(args[..16]), UuidFromBytes(args[16..32]), args[32..]))
    else if id == REQ_ID_LATEST_BLOCK_ID_GET then
      if args == [] then Some(QueryRequest(LatestBlockId)) else None
    else if id == REQ_ID_STATUS_GET then
      if args == [] then Some(QueryRequest(ConnectionStatus)) else None
    else if id == REQ_ID_BLOCK_ID_BY_HEIGHT_GET then
      if |args| == 8 then Some(QueryRequest(BlockIdByHeight(GetSignedLong(args)))) else None
    else
      match IdQueryOf(id)
      case None => None
      case Some(kind) =>
        if |args| == 16 then Some(QueryRequest(ById(kind, UuidFromBytes(args)))) else None
  }

  /** Reading a request, as the agent at the other end has to. */
  function DecodeRequest(s: seq<byte>): Option<Request> {
    if |s| < 8 || s[4..8] != Htonl(0) then None else DecodeArguments(FromBE(s[..4]), s[8..])
  }

  /** The first four bytes of each of the thirteen requests. */
  lemma RequestIds(request: Request)
    ensures Htonl(RequestId(request)) == match request
      case SubmitRequest(_, _, _) => [0, 0, 0, 3]
      case QueryRequest(LatestBlockId) => [0, 0, 0, 2]
      case QueryRequest(BlockIdByHeight(_)) => [0, 0, 0, 7]
      case QueryRequest(ConnectionStatus) => [0, 0, 0xA0, 0]
      case QueryRequest(ById(BlockById, _)) => [0, 0, 0, 4]
      case QueryRequest(ById(NextBlockId, _)) => [0, 0, 0, 5]
      case QueryRequest(ById(PrevBlockId, _)) => [0, 0, 0, 6]
      case QueryRequest(ById(TransactionById, _)) => [0, 0, 0, 16]
      case QueryRequest(ById(TransactionNextId, _)) => [0, 0, 0, 17]
      case QueryRequest(ById(TransactionPreviousId, _)) => [0, 0, 0, 18]
      case QueryRequest(ById(TransactionBlockId, _)) => [0, 0, 0, 19]
      case QueryRequest(ById(ArtifactFirstTxnId, _)) => [0, 0, 0, 32]
      case QueryRequest(ById(ArtifactLastTxnId, _)) => [0, 0, 0, 33]
  {
    var id := RequestId(request);
    match request
    case QueryRequest(ConnectionStatus) => SmallNumber(id, 0xA0, 0);
    case SubmitRequest(_, _, _) => SmallNumber(id, 0, 3);
    case QueryRequest(LatestBlockId) => SmallNumber(id, 0, 2);
    case QueryRequest(BlockIdByHeight(_)) => SmallNumber(id, 0, 7);
    case QueryRequest(ById(kind, _)) =>
      match kind
      case BlockById => SmallNumber(id, 0, 4);
      case NextBlockId => SmallNumber(id, 0, 5);
      case PrevBlockId => SmallNumber(id, 0, 6);
      case TransactionById => SmallNumber(id, 0, 16);
      case TransactionNextId => SmallNumber(id, 0, 17);
      case TransactionPreviousId => SmallNumber(id, 0, 18);
      case TransactionBlockId => SmallNumber(id, 0, 19);
      case ArtifactFirstTxnId => SmallNumber(id, 0, 32);
      case ArtifactLastTxnId => SmallNumber(id, 0, 33);
  }

  lemma ThreeSlices(s: seq<byte>, id: seq<byte>, offset: seq<byte>, args: seq<byte>)
    requires s == id + offset + args && |id| == 4 && |offset| == 4
    ensures s[..4] == id && s[4..8] == offset && s[8..] == args
  {
  }

  /** The fields of every request at their offsets: its id at 0, zeros at 4, and its arguments from 8 on. */
  lemma RequestLayout(request: Request)
    ensures var s := RequestBytes(request);
      && s[..4] == Htonl(RequestId(request)) && s[4..8] == [0, 0, 0, 0]
      && match request
         case SubmitRequest(transactionId, artifactId, certificate) =>
           && |s| == 40 + |certificate| && s[8..24] == UuidBytes(transactionId)
           && s[24..40] == UuidBytes(artifactId) && s[40..] == certificate
         case QueryRequest(ById(_, id)) => |s| == 24 && s[8..24] == UuidBytes(id)
         case QueryRequest(BlockIdByHeight(height)) => |s| == 16 && s[8..16] == ToBE(height, 8)
         case QueryRequest(_) => |s| == 8
  {
    NetworkOrder(0, 0, 0, 0);
    var s, args := RequestBytes(request), Arguments(request);
    ThreeSlices(s, Htonl(RequestId(request)), Htonl(0), args);
    match request
    case SubmitRequest(t, a, c) =>
      ThreeParts(args, UuidBytes(t), UuidBytes(a), c);
      assert s[8..24] == s[8..][..16] && s[24..40] == s[8..][16..32] && s[40..] == s[8..][32..];
    case QueryRequest(ById(_, id)) => DropToEnd(s, 8);
    case QueryRequest(BlockIdByHeight(_)) => DropToEnd(s, 8);
    case QueryRequest(_) =>
  }

  lemma UuidArgument(args: seq<byte>, id: UUID)
    ensures args == UuidBytes(id) <==> |args| == 16 && UuidFromBytes(args) == id
  {
    UuidBijection(id, UuidBytes(id));
    if |args| == 16 {
      UuidBijection(id, args);
    }
  }

  lemma ThreeParts(args: seq<byte>, t: seq<byte>, a: seq<byte>, c: seq<byte>)
    requires |t| == 16 && |a| == 16
    ensures args == t + a + c <==> |args| >= 32 && args[..16] == t && args[16..32] == a && args[32..] == c
  {
    assert |args| >= 32 ==> args == args[..16] + args[16..32] + args[32..];
  }

  lemma SubmitArguments(args: seq<byte>, t: UUID, a: UUID, c: seq<byte>)
    ensures args == UuidBytes(t) + UuidBytes(a) + c
       <==> |args| >= 32 && UuidFromBytes(args[..16]) == t && UuidFromBytes(args[16..32]) == a && args[32..] == c
  {
    ThreeParts(args, UuidBytes(t), UuidBytes(a), c);
    if |args| >= 32 {
      UuidArgument(args[..16], t);
      UuidArgument(args[16..32], a);
    }
  }

  lemma HeightArgument(args: seq<byte>, height: long)
    ensures args == Htonll(height) <==> |args| == 8 && GetSignedLong(args) == height
  {
    Pow256Values();
    SignedRoundTrip(height, 8);
    SignedBytesRoundTrip(args);
  }

  /** Encoded arguments decode to their request. */
  lemma ArgumentsDecode(request: Request)
    ensures DecodeArguments(RequestId(request), Arguments(request)) == Some(request)
  {
    var args := Arguments(request);
    match request
    case SubmitRequest(t, a, c) => SubmitArguments(args, t, a, c);
    case QueryRequest(BlockIdByHeight(height)) => HeightArgument(args, height);
    case QueryRequest(ById(kind, id)) => UuidArgument(args, id);
    case _ =>
  }

  /** Only encoded arguments decode. */
  lemma OnlyArgumentsDecode(id: int, args: seq<byte>)
    ensures var r := DecodeArguments(id, args);
            r.Some? ==> id == RequestId(r.value) && args == Arguments(r.value)
  {
    if id == REQ_ID_TRANSACTION_SUBMIT {
      if |args| >= 32 {
        SubmitArguments(args, UuidFromBytes(args[..16]), UuidFromBytes(args[16..32]), args[32..]);
      }
    } else if |args| == 8 {
      HeightArgument(args, GetSignedLong(args));
    } else if |args| == 16 {
      UuidArgument(args, UuidFromBytes(args));
    }
  }

  lemma ArgumentsDecodeIff(id: int, args: seq<byte>, request: Request)
    ensures DecodeArguments(id, args) == Some(request) <==> id == RequestId(request) && args == Arguments(request)
  {
    ArgumentsDecode(request);
    OnlyArgumentsDecode(id, args);
  }

  lemma HeaderParts(s: seq<byte>, id: seq<byte>, offset: seq<byte>, args: seq<byte>)
    requires |id| == 4 && |offset| == 4
    ensures s == id + offset + args <==> |s| >= 8 && s[..4] == id && s[4..8] == offset && s[8..] == args
  {
    assert |s| >= 8 ==> s == s[..4] + s[4..8] + s[8..];
  }

  /** A byte string decodes to a request exactly when it is that request's packet. */
  lemma RequestDecodesIff(s: seq<byte>, request: Request)
    ensures DecodeRequest(s) == Some(request) <==> s == RequestBytes(request)
  {
    HeaderParts(s, Htonl(RequestId(request)), Htonl(0), Arguments(request));
    if |s| >= 8 {
      NtohlIs(s[..4], RequestId(request));
      ArgumentsDecodeIff(FromBE(s[..4]), s[8..], request);
    }
  }

  /** Across all operations and arguments, equal packets are the same request. */
  lemma RequestsAreUnique(a: Request, b: Request)
    requires RequestBytes(a) == RequestBytes(b)
    ensures a == b
  {
    RequestDecodesIff(RequestBytes(a), a);
    RequestDecodesIff(RequestBytes(a), b);
  }

  // ----- replies

  datatype Answer =
    | Submitted
    | Id(id: UUID)
    | MaybeId(maybeId: Option<UUID>)
    | MaybeCertificate(maybeCertificate: Option<seq<byte>>)
    | Status(code: int)

  /** The payload sizes that a reading method lets through. */
  datatype SizeRule = TwelveExactly | TwelveOrTwentyEight | TwelveAtLeast
  {
    predicate Accepts(size: int) {
      match this
      case TwelveExactly => size == 12
      case TwelveOrTwentyEight => size == 12 || size == 28
      case TwelveAtLeast => size >= 12
    }
  }

  function SizeRuleOf(request: Request): SizeRule {
    match request
    case SubmitRequest(_, _, _) => TwelveExactly
    case QueryRequest(LatestBlockId) => TwelveOrTwentyEight
    case QueryRequest(_) => TwelveAtLeast
  }

  /** A certificate behind a fixed-size header, or nothing. */
  function CertificateFrom(payload: seq<byte>, headerSize: nat): Option<seq<byte>> {
    if |payload| <= headerSize then None else Some(payload[headerSize..])
  }

  /** A UUID in bytes 12 to 28, or nothing. */
  function IdFrom(payload: seq<byte>): Option<UUID> {
    if |payload| < ID_REPLY_SIZE then None else Some(UuidFromBytes(payload[12..28]))
  }

  /** What the reading method of a request makes of an authenticated payload of an accepted size. */
  function ReadReply(request: Request, payload: seq<byte>): Result<Answer>
    requires SizeRuleOf(request).Accepts(|payload|)
  {
    var ok := FromBE(payload[4..8]) == 0;
    if FromBE(payload[..4]) != RequestId(request) then Err(InvalidRequestId)
    else
      match request
      case SubmitRequest(_, _, _) => Ok(Submitted)
      case QueryRequest(LatestBlockId) =>
        if !ok then Err(IO)
        else if |payload| != 28 then Err(InvalidPayloadSize)
        else Ok(Id(UuidFromBytes(payload[12..28])))
      case QueryRequest(ById(BlockById, _)) =>
        Ok(MaybeCertificate(if ok then CertificateFrom(payload, BLOCK_HEADER_SIZE) else None))
      case QueryRequest(ById(TransactionById, _)) =>
        Ok(MaybeCertificate(if ok then CertificateFrom(payload, TRANSACTION_HEADER_SIZE) else None))
      case QueryRequest(ById(_, _)) => Ok(MaybeId(if ok then IdFrom(payload) else None))
      case QueryRequest(BlockIdByHeight(_)) => Ok(MaybeId(if ok then IdFrom(payload) else None))
      case QueryRequest(ConnectionStatus) => Ok(Status(if ok then 0 else 1))
  }

  predicate AsksForBlock(request: Request) {
    request.QueryRequest? && request.query.ById? && request.query.kind.BlockById?
  }

  predicate AsksForTransaction(request: Request) {
    request.QueryRequest? && request.query.ById? && request.query.kind.TransactionById?
  }

  predicate AsksForId(request: Request) {
    request.QueryRequest?
    && (request.query.BlockIdByHeight?
        || (request.query.ById? && !AsksForBlock(request) && !AsksForTransaction(request)))
  }

  /** A reply starts with the first four bytes of the request that it answers. */
  predicate Echoes(request: Request, payload: seq<byte>) {
    |payload| >= 12 && payload[..4] == RequestBytes(request)[..4]
  }

  /** The status in bytes 4 to 8 of a reply is zero. */
  predicate Succeeds(payload: seq<byte>) {
    |payload| >= 12 && payload[4..8] == [0, 0, 0, 0]
  }

  lemma ReplyStart(request: Request, payload: seq<byte>)
    requires |payload| >= 12
    ensures Echoes(request, payload) <==> FromBE(payload[..4]) == RequestId(request)
    ensures Succeeds(payload) <==> FromBE(payload[4..8]) == 0
  {
    RequestLayout(request);
    NtohlIs(payload[..4], RequestId(request));
    NtohlIs(payload[4..8], 0);
    NetworkOrder(0, 0, 0, 0);
  }

  /** The payload sizes that reach the reading methods. */
  lemma SizeAcceptedIff(request: Request, size: int)
    ensures SizeRuleOf(request).Accepts(size) <==>
      if request.SubmitRequest? then size == 12
      else if request.query.LatestBlockId? then size == 12 || size == 28
      else size >= 12
  {
  }

  /** Every reading method refuses a reply to another request, and only that, as an invalid request id. The
      latest block id has two more failures, a status and a missing id, and no other query has any. */
  lemma ReplyRefusedIff(request: Request, payload: seq<byte>)
    requires SizeRuleOf(request).Accepts(|payload|)
    ensures ReadReply(request, payload) == Err(InvalidRequestId) <==> !Echoes(request, payload)
    ensures ReadReply(request, payload) == Err(IO)
       <==> request == QueryRequest(LatestBlockId) && Echoes(request, payload) && !Succeeds(payload)
    ensures ReadReply(request, payload) == Err(InvalidPayloadSize)
       <==> request == QueryRequest(LatestBlockId) && Echoes(request, payload) && Succeeds(payload)
            && |payload| == 12
    ensures ReadReply(request, payload).Err? ==>
      ReadReply(request, payload).error in {InvalidRequestId, IO, InvalidPayloadSize}
  {
    ReplyStart(request, payload);
  }

  /** An id comes out of a reply exactly when the reply starts with the request's own id and a zero
      status and spells that id in bytes 12 to 28. With its own id and another status, or with no room for an
      id, it says that there is none. */
  lemma IdReplyIff(request: Request, payload: seq<byte>, id: UUID)
    requires AsksForId(request) && SizeRuleOf(request).Accepts(|payload|)
    ensures ReadReply(request, payload) == Ok(MaybeId(Some(id)))
       <==> |payload| >= 28 && Echoes(request, payload) && Succeeds(payload) && payload[12..28] == UuidBytes(id)
    ensures ReadReply(request, payload) == Ok(MaybeId(None))
       <==> Echoes(request, payload) && (!Succeeds(payload) || |payload| < 28)
  {
    ReplyStart(request, payload);
    if |payload| >= 28 {
      UuidArgument(payload[12..28], id);
    }
  }

  /** The latest block id is returned under the same condition, for payloads of exactly 28 bytes. */
  lemma LatestIdReplyIff(payload: seq<byte>, id: UUID)
    requires TwelveOrTwentyEight.Accepts(|payload|)
    ensures ReadReply(QueryRequest(LatestBlockId), payload) == Ok(Id(id))
       <==> |payload| == 28 && Echoes(QueryRequest(LatestBlockId), payload) && Succeeds(payload)
            && payload[12..28] == UuidBytes(id)
  {
    ReplyStart(QueryRequest(LatestBlockId), payload);
    if |payload| == 28 {
      UuidArgument(payload[12..28], id);
    }
  }

  lemma CertificateFromIff(payload: seq<byte>, headerSize: nat, certificate: seq<byte>)
    ensures CertificateFrom(payload, headerSize) == Some(certificate)
       <==> certificate != [] && |payload| >= headerSize && payload[headerSize..] == certificate
  {
  }

  /** A certificate comes out of a reply exactly when the reply starts with the request's own id and a
      zero status and the certificate is everything behind a header of 92 or 104 bytes, not empty. With its own
      id and another status, or with nothing behind the header, it says that there is none. */
  lemma CertificateReplyIff(request: Request, payload: seq<byte>, certificate: seq<byte>)
    requires AsksForBlock(request) || AsksForTransaction(request)
    requires SizeRuleOf(request).Accepts(|payload|)
    ensures ReadReply(request, payload) == Ok(MaybeCertificate(Some(certificate)))
       <==> Echoes(request, payload) && Succeeds(payload) && certificate != []
            && (if AsksForBlock(request) then |payload| >= 92 && payload[92..] == certificate
                else |payload| >= 104 && payload[104..] == certificate)
    ensures ReadReply(request, payload) == Ok(MaybeCertificate(None))
       <==> Echoes(request, payload)
            && (!Succeeds(payload) || |payload| <= if AsksForBlock(request) then 92 else 104)
  {
    ReplyStart(request, payload);
    var headerSize := if AsksForBlock(request) then BLOCK_HEADER_SIZE else TRANSACTION_HEADER_SIZE;
    CertificateFromIff(payload, headerSize, certificate);
  }

  /** A submission is acknowledged by any reply with its own request id: the status in bytes 4 to 8 makes no
      difference to the caller. */
  lemma SubmitReplyIff(request: Request, payload: seq<byte>)
    requires request.SubmitRequest? && TwelveExactly.Accepts(|payload|)
    ensures ReadReply(request, payload) == Ok(Submitted) <==> Echoes(request, payload)
  {
    ReplyStart(request, payload);
  }

  /** The connection status is zero exactly for a reply with its own request id and a zero status, and one for
      any other status. */
  lemma StatusReplyIff(payload: seq<byte>)
    requires TwelveAtLeast.Accepts(|payload|)
    ensures ReadReply(QueryRequest(ConnectionStatus), payload) == Ok(Status(0))
       <==> Echoes(QueryRequest(ConnectionStatus), payload) && Succeeds(payload)
    ensures ReadReply(QueryRequest(ConnectionStatus), payload) == Ok(Status(1))
       <==> Echoes(QueryRequest(ConnectionStatus), payload) && !Succeeds(payload)
  {
    ReplyStart(QueryRequest(ConnectionStatus), payload);
  }
}
