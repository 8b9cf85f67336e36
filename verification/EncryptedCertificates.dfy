/** Certificates with encrypted fields: EncryptedCertificateBuilder and EncryptedCertificateReader. */
module EncryptedCertificates {
  import opened Bytes
  import opened Results
  import opened Uuids
  import opened Vccrypt
  import opened Certificates

  const CERTIFICATE_VERSION: int := 0x0001
  const CERTIFICATE_CRYPTO_SUITE: int := 0x0020
  const CERTIFICATE_TYPE: int := 0x0030
  const SHARED_SECRET_FRAGMENT: int := 0x00A0
  const SHARED_SECRET_ENTITY_UUID: int := 0x00A1
  const SHARED_SECRET_KEY: int := 0x00A2

  // ----- one encrypted value

  /** The IV in front of the value under keystream positions 0, 1, 2 and on. */
  function EncryptValue(suite: Suite, key: seq<byte>, iv: seq<byte>, value: seq<byte>): seq<byte> {
    iv + Stream(suite, key, iv, 0, value)
  }

  function DecryptValue(suite: Suite, key: seq<byte>, encrypted: seq<byte>): seq<byte>
    requires STREAM_IV_SIZE <= |encrypted|
  {
    Stream(suite, key, encrypted[..STREAM_IV_SIZE], 0, encrypted[STREAM_IV_SIZE..])
  }

  lemma ValueRoundTrip(suite: Suite, key: seq<byte>, iv: seq<byte>, value: seq<byte>)
    requires |iv| == STREAM_IV_SIZE
    ensures DecryptValue(suite, key, EncryptValue(suite, key, iv, value)) == value
  {
    var encrypted := EncryptValue(suite, key, iv, value);
    assert encrypted[..STREAM_IV_SIZE] == iv && encrypted[STREAM_IV_SIZE..] == Stream(suite, key, iv, 0, value);
    StreamCancels(suite, key, iv, 0, value);
  }

  /** The bytes of an encrypted value: the IV, and behind it each byte under the keystream byte of its own place. */
  lemma ValueLayout(suite: Suite, key: seq<byte>, iv: seq<byte>, value: seq<byte>, i: nat)
    requires |iv| == 8
    ensures var encrypted := EncryptValue(suite, key, iv, value);
            && |encrypted| == 8 + |value| && encrypted[..8] == iv
            && (i < |value| ==> encrypted[8 + i] == value[i] ^ suite.keystream(key, iv, i))
  {
    StreamAt(suite, key, iv, 0, value, Stream(suite, key, iv, 0, value));
  }

  /** Nothing but the encryption of a value under the IV in front of it decrypts to that value. */
  lemma DecryptsIff(suite: Suite, key: seq<byte>, encrypted: seq<byte>, value: seq<byte>)
    requires |encrypted| >= 8
    ensures DecryptValue(suite, key, encrypted) == value
       <==> encrypted == EncryptValue(suite, key, encrypted[..8], value)
  {
    var iv := encrypted[..8];
    assert encrypted == iv + encrypted[8..];
    StreamCancels(suite, key, iv, 0, value);
    StreamCancels(suite, key, iv, 0, encrypted[8..]);
    assert EncryptValue(suite, key, iv, value)[8..] == Stream(suite, key, iv, 0, value);
  }

  /** encryptData. */
  method EncryptData(suite: Suite, key: Bytes32, iv: seq<byte>, input: seq<byte>) returns (output: seq<byte>)
    requires |iv| == STREAM_IV_SIZE
    ensures output == EncryptValue(suite, key, iv, input)
  {
    var out := new byte[STREAM_IV_SIZE + |input|](_ => 0);
    var stream := new StreamContext(suite, key);
    var offset := stream.StartEncryption(iv, out, 0, 0);
    assert out[..STREAM_IV_SIZE] == iv;
    offset := stream.Crypt(input, out, 0, offset);
    output := out[..];
    assert output[..STREAM_IV_SIZE] == iv;
  }

  /** decryptNative. */
  method DecryptData(suite: Suite, key: Bytes32, input: seq<byte>) returns (output: seq<byte>)
    requires STREAM_IV_SIZE <= |input|
    ensures output == DecryptValue(suite, key, input)
  {
    var out := new byte[|input| - STREAM_IV_SIZE](_ => 0);
    var stream := new StreamContext(suite, key);
    var inputOffset := stream.StartDecryption(input, 0);
    var offset := stream.Crypt(input[inputOffset..], out, 0, 0);
    output := out[..];
    assert output == Stream(suite, key, stream.iv, 0, input[STREAM_IV_SIZE..]);
  }

  // ----- the shared secret

  /** What the reader keeps as its secret key; the cipher uses the first 32 bytes. */
  type Secret = s: seq<byte> | |s| >= 32 witness Zeros(32)

  /** encryptKey: the secret wrapped under the long-term secret of the two entities. The random IV is a
      parameter. */
  method EncryptKey(suite: Suite, localPrivate: Bytes32, peerPublic: Bytes32, secret: Bytes32, iv: Bytes16)
    returns (output: seq<byte>)
    ensures output == WrapKey(suite, suite.longTermSecret(localPrivate, peerPublic), iv, secret)
  {
    var longTerm := suite.longTermSecret(localPrivate, peerPublic);
    var out := new byte[16 + |secret|](_ => 0);
    WrapKeyInto(suite, longTerm, iv, secret, out);
    output := out[..];
  }

  /** What decryptSecretNative produces from a wrapped key: 32 bytes of secret, then zeros for any bytes
      beyond the 48 it uses. Fewer than 48 bytes are read past their end in C; here that is an error. */
  function UnwrapSecret(suite: Suite, localPrivate: Bytes32, peerPublic: Bytes32, encryptedKey: seq<byte>)
    : Result<Secret>
  {
    if |encryptedKey| < 48 then Err(IndexOutOfBounds)
    else Ok(UnwrapKey(suite, suite.longTermSecret(localPrivate, peerPublic), encryptedKey[..48])
            + Zeros(|encryptedKey| - 48))
  }

  /** decryptSecretNative. */
  method DecryptSecret(suite: Suite, localPrivate: Bytes32, peerPublic: Bytes32, encryptedKey: seq<byte>)
    returns (r: Result<Secret>)
    ensures r == UnwrapSecret(suite, localPrivate, peerPublic, encryptedKey)
  {
    if |encryptedKey| < 48 {
      return Err(IndexOutOfBounds);
    }
    var longTerm := suite.longTermSecret(localPrivate, peerPublic);
    var out := new byte[|encryptedKey| - 16](_ => 0);
    assert out[32..] == Zeros(|encryptedKey| - 48);
    UnwrapKeyInto(suite, longTerm, encryptedKey, out);
    r := Ok(out[..]);
  }

  function FragmentFields(suite: Suite, privateKey: Bytes32, secretKey: Bytes32, entityId: UUID,
                          publicKey: Bytes32, keyIv: Bytes16)
    : seq<Field>
  {
    [ Field(SHARED_SECRET_ENTITY_UUID, UuidBytes(entityId)),
      Field(SHARED_SECRET_KEY, WrapKey(suite, suite.longTermSecret(privateKey, publicKey), keyIv, secretKey)) ]
  }

  lemma FragmentSize(fields: seq<Field>)
    requires |fields| == 2 && |fields[0].value| == 16 && |fields[1].value| == 48
    ensures |Serialize(fields)| == 72
  {
    SerializeNext(fields, 0);
    SerializeNext(fields, 1);
    assert fields[..2] == fields && fields[..0] == [];
  }

  /** The bytes of a fragment: whom it is for, and the secret key wrapped under the long-term secret that the two
      entities share. */
  lemma FragmentLayout(suite: Suite, privateKey: Bytes32, secretKey: Bytes32, entityId: UUID, publicKey: Bytes32,
                       keyIv: Bytes16)
    ensures Serialize(FragmentFields(suite, privateKey, secretKey, entityId, publicKey, keyIv))
         == [0x00, 0xA1, 0x00, 0x10] + UuidBytes(entityId)
            + ([0x00, 0xA2, 0x00, 0x30]
               + WrapKey(suite, suite.longTermSecret(privateKey, publicKey), keyIv, secretKey))
  {
    var wrapped := WrapKey(suite, suite.longTermSecret(privateKey, publicKey), keyIv, secretKey);
    FieldLayout(SHARED_SECRET_ENTITY_UUID, UuidBytes(entityId), 0x00, 0xA1, 0x00, 0x10);
    FieldLayout(SHARED_SECRET_KEY, wrapped, 0x00, 0xA2, 0x00, 0x30);
    SerializePair(Field(SHARED_SECRET_ENTITY_UUID, UuidBytes(entityId)), Field(SHARED_SECRET_KEY, wrapped));
  }

  lemma SerializePair(a: Field, b: Field)
    ensures Serialize([a, b]) == FieldBytes(a) + FieldBytes(b)
  {
    assert [a, b][1..] == [b];
    SerializeOne(b);
  }

  // ----- building

  /** One call on the builder, with the random IV that a shared secret draws. */
  datatype Add =
    | Plain(id: int, value: seq<byte>)
    | Encrypted(id: int, value: seq<byte>)
    | SharedSecret(entityId: UUID, publicKey: Bytes32, keyIv: Bytes16)

  /** The IV of the i-th encrypted value of a builder: serializeLong of its counter. */
  function BuilderIv(i: nat): (s: seq<byte>)
    ensures |s| == STREAM_IV_SIZE
  {
    ToBE(i, 8)
  }

  /** The nested certificate that a shared secret adds. */
  function FragmentOf(suite: Suite, privateKey: Bytes32, secretKey: Bytes32, add: Add): seq<byte> {
    if add.SharedSecret?
    then Serialize(FragmentFields(suite, privateKey, secretKey, add.entityId, add.publicKey, add.keyIv))
    else []
  }

  /** The field that a call appends when the IV counter stands at iv. */
  function FieldOf(suite: Suite, privateKey: Bytes32, secretKey: Bytes32, iv: nat, add: Add): Field {
    match add
    case Plain(id, value) => Field(Narrow(id), value)
    case Encrypted(id, value) => Field(Narrow(id), EncryptValue(suite, secretKey, BuilderIv(iv), value))
    case SharedSecret(_, _, _) => Field(SHARED_SECRET_FRAGMENT, FragmentOf(suite, privateKey, secretKey, add))
  }

  function NextIv(iv: nat, add: Add): nat {
    if add.Encrypted? then iv + 1 else iv
  }

  /** The fields that a list of calls appends. */
  function FieldsOf(suite: Suite, privateKey: Bytes32, secretKey: Bytes32, iv: nat, adds: seq<Add>)
    : (fields: seq<Field>)
    ensures |fields| == |adds|
    decreases |adds|
  {
    if adds == [] then []
    else [FieldOf(suite, privateKey, secretKey, iv, adds[0])]
         + FieldsOf(suite, privateKey, secretKey, NextIv(iv, adds[0]), adds[1..])
  }

  /** The three fields of every complete certificate. */
  function DefaultFields(certificateType: UUID): seq<Field> {
    [ Field(CERTIFICATE_VERSION, ToBE(0x0001_0000, 4)),
      Field(CERTIFICATE_CRYPTO_SUITE, ToBE(0x0001, 2)),
      Field(CERTIFICATE_TYPE, UuidBytes(certificateType)) ]
  }

  /** The IV counter after a list of calls. */
  function IvAfter(iv: nat, adds: seq<Add>): nat
    decreases |adds|
  {
    if adds == [] then iv else IvAfter(NextIv(iv, adds[0]), adds[1..])
  }

  lemma {:induction false} OneMoreCall(suite: Suite, privateKey: Bytes32, secretKey: Bytes32, iv: nat,
                                       adds: seq<Add>, add: Add)
    ensures FieldsOf(suite, privateKey, secretKey, iv, adds + [add])
         == FieldsOf(suite, privateKey, secretKey, iv, adds)
            + [FieldOf(suite, privateKey, secretKey, IvAfter(iv, adds), add)]
    ensures IvAfter(iv, adds + [add]) == NextIv(IvAfter(iv, adds), add)
    decreases |adds|
  {
    var all := adds + [add];
    if adds == [] {
      assert all[0] == add && all[1..] == [];
    } else {
      assert all[0] == adds[0] && all[1..] == adds[1..] + [add];
      OneMoreCall(suite, privateKey, secretKey, NextIv(iv, adds[0]), adds[1..], add);
    }
  }

  /** How many of the first n calls add an encrypted value. */
  function EncryptedBefore(adds: seq<Add>, n: nat): nat
    requires n <= |adds|
  {
    if n == 0 then 0 else EncryptedBefore(adds, n - 1) + if adds[n - 1].Encrypted? then 1 else 0
  }

  lemma {:induction false} CounterCounts(adds: seq<Add>, n: nat)
    requires n <= |adds|
    ensures IvAfter(0, adds[..n]) == EncryptedBefore(adds, n)
  {
    if n > 0 {
      CounterCounts(adds, n - 1);
      assert adds[..n] == adds[..n - 1] + [adds[n - 1]];
      IvAfterOne(0, adds[..n - 1], adds[n - 1]);
    }
  }

  lemma {:induction false} IvAfterOne(iv: nat, adds: seq<Add>, add: Add)
    ensures IvAfter(iv, adds + [add]) == NextIv(IvAfter(iv, adds), add)
    decreases |adds|
  {
    if adds == [] {
      assert [] + [add] == [add] && [add][1..] == [];
    } else {
      assert (adds + [add])[0] == adds[0] && (adds + [add])[1..] == adds[1..] + [add];
      IvAfterOne(NextIv(iv, adds[0]), adds[1..], add);
    }
  }

  /** One call is one more field at the end of the certificate. */
  lemma OneMoreField(suite: Suite, privateKey: Bytes32, secretKey: Bytes32, certificateType: UUID, adds: seq<Add>,
                     add: Add)
    ensures DefaultFields(certificateType) + FieldsOf(suite, privateKey, secretKey, 0, adds + [add])
         == DefaultFields(certificateType) + FieldsOf(suite, privateKey, secretKey, 0, adds)
            + [FieldOf(suite, privateKey, secretKey, IvAfter(0, adds), add)]
    ensures IvAfter(0, adds + [add]) == NextIv(IvAfter(0, adds), add)
  {
    OneMoreCall(suite, privateKey, secretKey, 0, adds, add);
    Assoc(DefaultFields(certificateType), FieldsOf(suite, privateKey, secretKey, 0, adds),
          [FieldOf(suite, privateKey, secretKey, IvAfter(0, adds), add)]);
  }

  class EncryptedCertificateBuilder {
    const suite: Suite
    const privateKey: Bytes32
    const secretKey: Bytes32
    const base: CertificateBuilder
    var iv: nat  // a long that wraps; only its low 64 bits are ever used
    ghost const certificateType: UUID
    ghost var adds: seq<Add>

    /** The field list and the IV counter are those of the calls made so far. */
    ghost predicate Valid()
      reads this, base
    {
      && base.fields == DefaultFields(certificateType) + FieldsOf(suite, privateKey, secretKey, 0, adds)
      && iv == IvAfter(0, adds)
    }

    /** createCertificateBuilder. The generated secret key is a parameter. */
    constructor (suite: Suite, privateKey: Bytes32, secretKey: Bytes32, certificateType: UUID)
      ensures this.suite == suite && this.privateKey == privateKey && this.secretKey == secretKey
      ensures this.certificateType == certificateType && fresh(base)
      ensures Valid() && adds == []
    {
      this.suite, this.privateKey, this.secretKey := suite, privateKey, secretKey;
      this.certificateType, adds := certificateType, [];
      base := new CertificateBuilder();
      iv := 0;
      new;
      base.AddByteArray(CERTIFICATE_VERSION, ToBE(0x0001_0000, 4));
      base.AddByteArray(CERTIFICATE_CRYPTO_SUITE, ToBE(0x0001, 2));
      base.AddByteArray(CERTIFICATE_TYPE, UuidBytes(certificateType));
    }

    method AddByteArray(fieldId: int, value: seq<byte>)
      requires Valid()
      modifies this`adds, base
      ensures Valid() && adds == old(adds) + [Plain(fieldId, value)]
    {
      base.AddByteArray(fieldId, value);
      OneMoreField(suite, privateKey, secretKey, certificateType, adds, Plain(fieldId, value));
      adds := adds + [Plain(fieldId, value)];
    }

    method AddEncryptedByteArray(fieldId: int, value: seq<byte>)
      requires Valid()
      modifies this, base
      ensures Valid() && adds == old(adds) + [Encrypted(fieldId, value)]
    {
      var encryptedValue := EncryptData(suite, secretKey, BuilderIv(iv), value);
      iv := iv + 1;
      base.AddByteArray(fieldId, encryptedValue);
      OneMoreField(suite, privateKey, secretKey, certificateType, adds, Encrypted(fieldId, value));
      adds := adds + [Encrypted(fieldId, value)];
    }

    method AddEncryptedSharedSecret(entityId: UUID, publicKey: Bytes32, keyIv: Bytes16)
      requires Valid()
      modifies this`adds, base
      ensures Valid() && adds == old(adds) + [SharedSecret(entityId, publicKey, keyIv)]
    {
      var fragment := BuildFragment(entityId, publicKey, keyIv);
      base.AddByteArray(SHARED_SECRET_FRAGMENT, fragment);
      OneMoreField(suite, privateKey, secretKey, certificateType, adds, SharedSecret(entityId, publicKey, keyIv));
      adds := adds + [SharedSecret(entityId, publicKey, keyIv)];
    }

    /** The nested certificate, built and emitted by a builder of its own. */
    method BuildFragment(entityId: UUID, publicKey: Bytes32, keyIv: Bytes16) returns (fragment: seq<byte>)
      ensures fragment == FragmentOf(suite, privateKey, secretKey, SharedSecret(entityId, publicKey, keyIv))
    {
      var encryptedKey := EncryptKey(suite, privateKey, publicKey, secretKey, keyIv);
      var fragmentBuilder := new CertificateBuilder();
      fragmentBuilder.AddByteArray(SHARED_SECRET_ENTITY_UUID, UuidBytes(entityId));
      fragmentBuilder.AddByteArray(SHARED_SECRET_KEY, encryptedKey);
      FragmentSize(fragmentBuilder.fields);
      assert fragmentBuilder.fields
          == FragmentFields(suite, privateKey, secretKey, entityId, publicKey, keyIv);
      var emitted := fragmentBuilder.Emit();
      fragment := emitted.value;
    }
  }

  // ----- reading

  /** What the loop body of loadSecretKey makes of one fragment: nothing when it is for someone else. */
  function OpenFragment(suite: Suite, entityId: UUID, localPrivate: Bytes32, peerPublic: Bytes32,
                        fragment: seq<byte>)
    : Result<Option<Secret>>
  {
    var certFields :- ParseResult(fragment);
    var reader := CertificateReader(certFields);
    var id :- reader.GetFirst(SHARED_SECRET_ENTITY_UUID);
    if |id| != 16 then Err(FieldConversion)
    else if UuidFromBytes(id) == entityId then
      var encryptedKey :- reader.GetFirst(SHARED_SECRET_KEY);
      var secret :- UnwrapSecret(suite, localPrivate, peerPublic, encryptedKey);
      Ok(Some(secret))
    else Ok(None)
  }

  /** The scan's verdict on one fragment: bytes without a field, no addressee, or one that is not a UUID throw; a
      fragment for another entity is passed over; one for the reader's own throws without a wrapped key of at
      least 48 bytes and otherwise yields its secret. */
  lemma FragmentVerdict(suite: Suite, entityId: UUID, localPrivate: Bytes32, peerPublic: Bytes32,
                        fragment: seq<byte>)
    ensures var reader := CertificateReader(Group(Walk(fragment)));
            var id, wrapped := reader.GetFirst(0x00A1), reader.GetFirst(0x00A2);
            OpenFragment(suite, entityId, localPrivate, peerPublic, fragment)
            == if Walk(fragment) == [] then Err(IllegalArgument)
               else if id.Err? then Err(MissingField)
               else if |id.value| != 16 then Err(FieldConversion)
               else if id.value != UuidBytes(entityId) then Ok(None)
               else if wrapped.Err? then Err(MissingField)
               else if |wrapped.value| < 48 then Err(IndexOutOfBounds)
               else Ok(Some(UnwrapKey(suite, suite.longTermSecret(localPrivate, peerPublic), wrapped.value[..48])
                            + Zeros(|wrapped.value| - 48)))
  {
    var id := CertificateReader(Group(Walk(fragment))).GetFirst(0x00A1);
    if id.Ok? && |id.value| == 16 {
      UuidBijection(entityId, id.value);
    }
  }

  function Opener(suite: Suite, entityId: UUID, localPrivate: Bytes32, peerPublic: Bytes32)
    : seq<byte> -> Result<Option<Secret>>
  {
    fragment => OpenFragment(suite, entityId, localPrivate, peerPublic, fragment)
  }

  /** The scan of loadSecretKey: the first fragment that fails or that yields a secret decides. */
  function FindSecret(open: seq<byte> -> Result<Option<Secret>>, fragments: seq<seq<byte>>): Result<Option<Secret>>
    decreases |fragments|
  {
    if fragments == [] then Ok(None)
    else
      var found :- open(fragments[0]);
      if found.Some? then Ok(found) else FindSecret(open, fragments[1..])
  }

  /** The first fragment that is not passed over decides, and there is no secret when all are. */
  lemma {:induction false} FirstDecides(open: seq<byte> -> Result<Option<Secret>>, fragments: seq<seq<byte>>, k: nat)
    requires k <= |fragments| && forall i :: 0 <= i < k ==> open(fragments[i]) == Ok(None)
    ensures k == |fragments| ==> FindSecret(open, fragments) == Ok(None)
    ensures k < |fragments| && open(fragments[k]) != Ok(None) ==> FindSecret(open, fragments) == open(fragments[k])
    decreases k
  {
    if k > 0 {
      FirstDecides(open, fragments[1..], k - 1);
    }
  }

  /** What getEncrypted returns or throws. */
  function ReadEncrypted(suite: Suite, secretKey: Option<Secret>, reader: CertificateReader, fieldId: int,
                         index: int)
    : Result<seq<byte>>
  {
    if secretKey.None? then Err(IllegalState)
    else
      var rawValue :- reader.Get(fieldId, index);
      if STREAM_IV_SIZE >= |rawValue| then Err(FieldConversion)
      else Ok(DecryptValue(suite, secretKey.value[..32], rawValue))
  }

  /** A value is read exactly when a secret is loaded and the field holds an encryption of it, not empty, under the
      secret's first 32 bytes. */
  lemma ReadEncryptedIff(suite: Suite, secretKey: Option<Secret>, reader: CertificateReader, fieldId: int, index: int,
                         value: seq<byte>)
    ensures var raw := reader.Get(fieldId, index);
            ReadEncrypted(suite, secretKey, reader, fieldId, index) == Ok(value)
            <==> secretKey.Some? && raw.Ok? && value != [] && |raw.value| >= 8
                 && raw.value == EncryptValue(suite, secretKey.value[..32], raw.value[..8], value)
  {
    var raw := reader.Get(fieldId, index);
    if secretKey.Some? && raw.Ok? && |raw.value| >= 8 {
      DecryptsIff(suite, secretKey.value[..32], raw.value, value);
    }
  }

  /** What reading throws: without a secret, without the field, and on a field of at most eight bytes. */
  lemma ReadRefusedIff(suite: Suite, secretKey: Option<Secret>, reader: CertificateReader, fieldId: int, index: nat)
    ensures var r, raw := ReadEncrypted(suite, secretKey, reader, fieldId, index), reader.Get(fieldId, index);
            && (r == Err(IllegalState) <==> secretKey.None?)
            && (r == Err(MissingField) <==> secretKey.Some? && reader.Count(fieldId) <= index)
            && (r == Err(FieldConversion) <==> secretKey.Some? && raw.Ok? && |raw.value| <= 8)
            && (r.Err? ==> r.error in {IllegalState, MissingField, FieldConversion})
  {
  }

  class EncryptedCertificateReader {
    const suite: Suite
    const uuid: UUID
    const localPrivateKey: Bytes32
    const peerPublicKey: Bytes32
    const reader: CertificateReader
    var secretKey: Option<Secret>

    constructor (suite: Suite, uuid: UUID, localPrivateKey: Bytes32, peerPublicKey: Bytes32,
                 reader: CertificateReader)
      ensures this.suite == suite && this.uuid == uuid && this.reader == reader
      ensures this.localPrivateKey == localPrivateKey && this.peerPublicKey == peerPublicKey
      ensures secretKey == None
    {
      this.suite, this.uuid, this.reader := suite, uuid, reader;
      this.localPrivateKey, this.peerPublicKey := localPrivateKey, peerPublicKey;
      secretKey := None;
    }

    /** loadSecretKey: a scan that finds nothing is an error only when no secret was loaded before. */
    method LoadSecretKey() returns (r: Result<()>)
      modifies this
      ensures SHARED_SECRET_FRAGMENT !in reader.certFields ==> r == Err(MissingField) && secretKey == old(secretKey)
      ensures SHARED_SECRET_FRAGMENT in reader.certFields ==>
        var found := FindSecret(Opener(suite, uuid, localPrivateKey, peerPublicKey),
                                reader.certFields[SHARED_SECRET_FRAGMENT]);
        && secretKey == (if found.Ok? && found.value.Some? then found.value else old(secretKey))
        && r == if found.Err? then Err(found.error)
                else if secretKey.None? then Err(MissingField)
                else Ok(())
    {
      if SHARED_SECRET_FRAGMENT !in reader.certFields {
        return Err(MissingField);
      }
      var fields := reader.certFields[SHARED_SECRET_FRAGMENT];
      ghost var open := Opener(suite, uuid, localPrivateKey, peerPublicKey);
      for i := 0 to |fields|
        invariant secretKey == old(secretKey)
        invariant FindSecret(open, fields) == FindSecret(open, fields[i..])
      {
        assert fields[i..][1..] == fields[i + 1..];
        var found :- TryFragment(fields[i]);
        if found.Some? {
          secretKey := found;
          return Ok(());
        }
      }
      if secretKey.None? {
        return Err(MissingField);
      }
      r := Ok(());
    }

    /** The loop body of loadSecretKey. */
    method TryFragment(fragment: seq<byte>) returns (r: Result<Option<Secret>>)
      ensures r == OpenFragment(suite, uuid, localPrivateKey, peerPublicKey, fragment)
    {
      var parser := new CertificateParser(fragment);
      assert fragment[..|fragment|] == fragment;
      var certFields :- parser.Parse();
      var fragmentReader := CertificateReader(certFields);
      var euuid :- fragmentReader.GetFirst(SHARED_SECRET_ENTITY_UUID);
      if |euuid| != 16 {
        return Err(FieldConversion);
      }
      if UuidFromBytes(euuid) != uuid {
        return Ok(None);
      }
      var encryptedKey :- fragmentReader.GetFirst(SHARED_SECRET_KEY);
      var secret :- DecryptSecret(suite, localPrivateKey, peerPublicKey, encryptedKey);
      r := Ok(Some(secret));
    }

    method GetEncrypted(fieldId: int, index: int) returns (r: Result<seq<byte>>)
      ensures r == ReadEncrypted(suite, secretKey, reader, fieldId, index)
    {
      if secretKey.None? {
        return Err(IllegalState);
      }
      var rawValue :- reader.Get(fieldId, index);
      if STREAM_IV_SIZE >= |rawValue| {
        return Err(FieldConversion);
      }
      var value := DecryptData(suite, secretKey.value[..32], rawValue);
      r := Ok(value);
    }
  }

  // ----- end to end

  /** The values that a parser finds under an id, read off the builder's field list. */
  function Values(fields: seq<Field>, id: int): seq<seq<byte>> {
    if fields == [] then []
    else (if fields[0].id % TWO_16 == id then [fields[0].value] else []) + Values(fields[1..], id)
  }

  lemma ValuesHead(f: Field, rest: seq<Field>, id: int)
    ensures Values([f] + rest, id) == (if f.id % TWO_16 == id then [f.value] else []) + Values(rest, id)
  {
    assert ([f] + rest)[1..] == rest;
  }

  lemma {:induction false} ValuesSkip(others: seq<Field>, fields: seq<Field>, id: int)
    requires Lacks(others, id)
    ensures Values(others + fields, id) == Values(fields, id)
    decreases |others|
  {
    if others == [] {
      assert others + fields == fields;
    } else {
      assert (others + fields)[1..] == others[1..] + fields;
      ValuesSkip(others[1..], fields, id);
    }
  }

  lemma {:induction false} ValuesAlone(fields: seq<Field>, behind: seq<Field>, id: int)
    requires Lacks(behind, id)
    ensures Values(fields + behind, id) == Values(fields, id)
    decreases |fields|
  {
    if fields == [] {
      ValuesSkip(behind, [], id);
      assert fields + behind == behind == behind + [];
    } else {
      assert (fields + behind)[0] == fields[0] && (fields + behind)[1..] == fields[1..] + behind;
      ValuesAlone(fields[1..], behind, id);
    }
  }

  lemma {:induction false} SelectHead(f: Field, rest: seq<Field>, id: int)
    ensures Select([f] + rest, id) == (if f.id == id then [f.value] else []) + Select(rest, id)
    decreases |rest|
  {
    var all := [f] + rest;
    if rest == [] {
      assert all[..0] == [];
    } else {
      SelectHead(f, rest[..|rest| - 1], id);
      assert all[..|all| - 1] == [f] + rest[..|rest| - 1];
    }
  }

  lemma {:induction false} SelectIsValues(fields: seq<Field>, id: int)
    ensures Select(UnsignedAll(fields), id) == Values(fields, id)
    decreases |fields|
  {
    if fields != [] {
      SelectHead(Unsigned(fields[0]), UnsignedAll(fields[1..]), id);
      SelectIsValues(fields[1..], id);
    }
  }

  /** The plain and encrypted values added under an id, in order and in the clear. */
  function Added(adds: seq<Add>, id: int): seq<seq<byte>> {
    if adds == [] then []
    else (if !adds[0].SharedSecret? && adds[0].id % TWO_16 == id then [adds[0].value] else [])
         + Added(adds[1..], id)
  }

  ghost predicate OnlyEncryptedUnder(adds: seq<Add>, id: int) {
    forall i :: 0 <= i < |adds| && adds[i].Plain? ==> adds[i].id % TWO_16 != id
  }

  lemma {:induction false} FieldAt(suite: Suite, privateKey: Bytes32, secretKey: Bytes32, iv: nat, adds: seq<Add>,
                                   j: nat)
    requires j < |adds|
    ensures FieldsOf(suite, privateKey, secretKey, iv, adds)[j]
         == FieldOf(suite, privateKey, secretKey, IvAfter(iv, adds[..j]), adds[j])
    decreases |adds|
  {
    if j > 0 {
      FieldAt(suite, privateKey, secretKey, NextIv(iv, adds[0]), adds[1..], j - 1);
      assert adds[..j][0] == adds[0] && adds[..j][1..] == adds[1..][..j - 1];
    }
  }

  /** The id and, for a shared secret or a plain value, the value of the field of a call. */
  lemma FieldMeans(suite: Suite, privateKey: Bytes32, secretKey: Bytes32, iv: nat, add: Add)
    ensures var f := FieldOf(suite, privateKey, secretKey, iv, add);
            if add.SharedSecret?
            then f == Field(SHARED_SECRET_FRAGMENT, FragmentOf(suite, privateKey, secretKey, add))
            else f.id % TWO_16 == add.id % TWO_16 && (add.Plain? ==> f.value == add.value)
  {
    if !add.SharedSecret? {
      NarrowKeepsLowBits(add.id);
    }
  }

  /** The field of an encrypted value: the IV is the number of encrypted values added before it, in eight bytes. */
  lemma EncryptedLayout(suite: Suite, privateKey: Bytes32, secretKey: Bytes32, adds: seq<Add>, j: nat, i: nat)
    requires j < |adds| && adds[j].Encrypted?
    ensures var f, value := FieldsOf(suite, privateKey, secretKey, 0, adds)[j], adds[j].value;
            && f.id % TWO_16 == adds[j].id % TWO_16
            && |f.value| == 8 + |value| && f.value[..8] == ToBE(EncryptedBefore(adds, j), 8)
            && (i < |value| ==> f.value[8 + i] == value[i] ^ suite.keystream(secretKey, f.value[..8], i))
  {
    FieldAt(suite, privateKey, secretKey, 0, adds, j);
    CounterCounts(adds, j);
    FieldMeans(suite, privateKey, secretKey, EncryptedBefore(adds, j), adds[j]);
    ValueLayout(suite, secretKey, BuilderIv(EncryptedBefore(adds, j)), adds[j].value, i);
  }

  /** A ciphertext that decrypts to a value under any secret key that starts with the right 32 bytes. */
  ghost predicate Encrypts(suite: Suite, secretKey: Bytes32, encrypted: seq<byte>, value: seq<byte>) {
    |encrypted| == STREAM_IV_SIZE + |value| && DecryptValue(suite, secretKey, encrypted) == value
  }

  ghost predicate AllEncrypt(suite: Suite, secretKey: Bytes32, encrypted: seq<seq<byte>>, values: seq<seq<byte>>) {
    |encrypted| == |values|
    && forall i :: 0 <= i < |values| ==> Encrypts(suite, secretKey, encrypted[i], values[i])
  }

  lemma AllEncryptHead(suite: Suite, secretKey: Bytes32, e: seq<byte>, encrypted: seq<seq<byte>>, v: seq<byte>,
                       values: seq<seq<byte>>)
    requires Encrypts(suite, secretKey, e, v) && AllEncrypt(suite, secretKey, encrypted, values)
    ensures AllEncrypt(suite, secretKey, [e] + encrypted, [v] + values)
  {
  }

  /** The first call's contribution under an id that no plain value and no fragment uses. */
  lemma HeadValues(suite: Suite, privateKey: Bytes32, secretKey: Bytes32, iv: nat, add: Add, rest: seq<Field>,
                   id: int)
    requires id != SHARED_SECRET_FRAGMENT && (add.Plain? ==> add.id % TWO_16 != id)
    ensures var head := FieldOf(suite, privateKey, secretKey, iv, add);
            if add.Encrypted? && add.id % TWO_16 == id
            then Values([head] + rest, id)
                 == [EncryptValue(suite, secretKey, BuilderIv(iv), add.value)] + Values(rest, id)
            else Values([head] + rest, id) == Values(rest, id)
  {
    ValuesHead(FieldOf(suite, privateKey, secretKey, iv, add), rest, id);
    if !add.SharedSecret? {
      NarrowKeepsLowBits(add.id);
    }
  }

  lemma {:induction false} ValuesSelected(suite: Suite, privateKey: Bytes32, secretKey: Bytes32, iv: nat,
                                          adds: seq<Add>, id: int)
    requires id != SHARED_SECRET_FRAGMENT && OnlyEncryptedUnder(adds, id)
    ensures AllEncrypt(suite, secretKey, Values(FieldsOf(suite, privateKey, secretKey, iv, adds), id),
                       Added(adds, id))
    decreases |adds|
  {
    if adds != [] {
      var next := NextIv(iv, adds[0]);
      var rest := FieldsOf(suite, privateKey, secretKey, next, adds[1..]);
      HeadValues(suite, privateKey, secretKey, iv, adds[0], rest, id);
      ValuesSelected(suite, privateKey, secretKey, next, adds[1..], id);
      if adds[0].Encrypted? && adds[0].id % TWO_16 == id {
        var e := EncryptValue(suite, secretKey, BuilderIv(iv), adds[0].value);
        ValueRoundTrip(suite, secretKey, BuilderIv(iv), adds[0].value);
        AllEncryptHead(suite, secretKey, e, Values(rest, id), adds[0].value, Added(adds[1..], id));
      }
    }
  }

  /** The values of the fields that every complete certificate starts with: version 1.0, suite 1, and its type. */
  function DefaultValues(certificateType: UUID, id: int): seq<seq<byte>> {
    if id == 0x0001 then [[0, 1, 0, 0]]
    else if id == 0x0020 then [[0, 1]]
    else if id == 0x0030 then [UuidBytes(certificateType)]
    else []
  }

  lemma DefaultsAre(certificateType: UUID)
    ensures DefaultFields(certificateType)
         == [Field(0x0001, [0, 1, 0, 0]), Field(0x0020, [0, 1]), Field(0x0030, UuidBytes(certificateType))]
  {
    var all := DefaultFields(certificateType);
    FourBytesOf(0x0001_0000, 0, 1, 0, 0);
    TwoBytesOf(0x0001, 0, 1);
    assert all == [all[0], all[1], all[2]];
  }

  lemma ThreeValues(a: Field, b: Field, c: Field, rest: seq<Field>, id: int)
    requires a.id % TWO_16 != b.id % TWO_16 && b.id % TWO_16 != c.id % TWO_16 && a.id % TWO_16 != c.id % TWO_16
    ensures Values([a, b, c] + rest, id)
         == (if a.id % TWO_16 == id then [a.value]
             else if b.id % TWO_16 == id then [b.value]
             else if c.id % TWO_16 == id then [c.value]
             else [])
            + Values(rest, id)
  {
    assert [] + Values(rest, id) == Values(rest, id);
    assert [a, b, c] + rest == [a] + ([b] + ([c] + rest));
    ValuesHead(a, [b] + ([c] + rest), id);
    ValuesHead(b, [c] + rest, id);
    ValuesHead(c, rest, id);
  }

  lemma DefaultsHead(certificateType: UUID, rest: seq<Field>, id: int)
    ensures Values(DefaultFields(certificateType) + rest, id) == DefaultValues(certificateType, id) + Values(rest, id)
  {
    var a, b, c := Field(0x0001, [0, 1, 0, 0]), Field(0x0020, [0, 1]), Field(0x0030, UuidBytes(certificateType));
    DefaultsAre(certificateType);
    ThreeValues(a, b, c, rest, id);
  }

  /** An id under which no encrypted value and no shared secret can have been added. */
  ghost predicate PlainOnly(adds: seq<Add>, id: int) {
    id != 0x00A0 && forall i :: 0 <= i < |adds| && adds[i].Encrypted? ==> adds[i].id % TWO_16 != id
  }

  /** Under an id without encrypted values, the field values are the values that were added, in order. */
  lemma {:induction false} PlainValuesSelected(suite: Suite, privateKey: Bytes32, secretKey: Bytes32, iv: nat,
                                               adds: seq<Add>, id: int)
    requires PlainOnly(adds, id)
    ensures Values(FieldsOf(suite, privateKey, secretKey, iv, adds), id) == Added(adds, id)
    decreases |adds|
  {
    if adds != [] {
      var next := NextIv(iv, adds[0]);
      PlainValuesSelected(suite, privateKey, secretKey, next, adds[1..], id);
      PlainHead(suite, privateKey, secretKey, iv, adds[0], FieldsOf(suite, privateKey, secretKey, next, adds[1..]), id);
    }
  }

  /** The first call's contribution under an id that no encrypted value and no fragment uses. */
  lemma PlainHead(suite: Suite, privateKey: Bytes32, secretKey: Bytes32, iv: nat, add: Add, rest: seq<Field>, id: int)
    requires id != SHARED_SECRET_FRAGMENT && (add.Encrypted? ==> add.id % TWO_16 != id)
    ensures Values([FieldOf(suite, privateKey, secretKey, iv, add)] + rest, id)
         == (if !add.SharedSecret? && add.id % TWO_16 == id then [add.value] else []) + Values(rest, id)
  {
    FieldMeans(suite, privateKey, secretKey, iv, add);
    HeadOf(FieldOf(suite, privateKey, secretKey, iv, add), rest, id, add);
  }

  lemma HeadOf(f: Field, rest: seq<Field>, id: int, add: Add)
    requires if add.SharedSecret? then f.id % TWO_16 != id
             else f.id % TWO_16 == add.id % TWO_16 && if add.Plain? then f.value == add.value else f.id % TWO_16 != id
    ensures Values([f] + rest, id)
         == (if !add.SharedSecret? && add.id % TWO_16 == id then [add.value] else []) + Values(rest, id)
  {
    ValuesHead(f, rest, id);
  }

  /** What get gives for the i-th value under an id without encrypted values: those that every certificate starts
      with, and then those that were added. */
  function PlainOf(certificateType: UUID, adds: seq<Add>, id: int, i: nat): Result<seq<byte>> {
    var values := DefaultValues(certificateType, id) + Added(adds, id);
    if i >= |values| then Err(MissingField) else Ok(values[i])
  }

  /** A fragment parses to its two fields. */
  lemma FragmentParses(fields: seq<Field>)
    requires |fields| == 2 && fields[0].id == SHARED_SECRET_ENTITY_UUID && fields[1].id == SHARED_SECRET_KEY
    requires |fields[0].value| == 16 && |fields[1].value| == 48
    ensures var parsed := ParseResult(Serialize(fields));
            parsed.Ok?
            && CertificateReader(parsed.value).GetFirst(SHARED_SECRET_ENTITY_UUID) == Ok(fields[0].value)
            && CertificateReader(parsed.value).GetFirst(SHARED_SECRET_KEY) == Ok(fields[1].value)
  {
    WalkAll(fields);
    assert UnsignedAll(fields) == fields;
    assert Walk(Serialize(fields)) != [];
    assert Occurrences(fields, SHARED_SECRET_KEY, 1) == 0;
    GetIsIthOccurrence(fields, SHARED_SECRET_ENTITY_UUID, 0, fields[0].value);
    GetIsIthOccurrence(fields, SHARED_SECRET_KEY, 0, fields[1].value);
  }

  /** What the scan makes of one honestly built fragment. */
  lemma FragmentOpens(suite: Suite, privateKey: Bytes32, secretKey: Bytes32, add: Add, entityId: UUID,
                      localPrivate: Bytes32)
    requires BlocksInvert(suite) && LongTermAgrees(suite) && add.SharedSecret?
    ensures var fragment := FragmentOf(suite, privateKey, secretKey, add);
            var outcome := OpenFragment(suite, entityId, localPrivate, suite.publicKey(privateKey), fragment);
            && (add.entityId != entityId ==> outcome == Ok(None))
            && (add.entityId == entityId && add.publicKey == suite.publicKey(localPrivate) ==>
                  outcome == Ok(Some(secretKey)))
  {
    FragmentParses(FragmentFields(suite, privateKey, secretKey, add.entityId, add.publicKey, add.keyIv));
    UuidBijection(add.entityId, UuidBytes(add.entityId));
    var longTerm := suite.longTermSecret(privateKey, add.publicKey);
    var wrapped := WrapKey(suite, longTerm, add.keyIv, secretKey);
    assert wrapped[..48] == wrapped;
    WrapRoundTrip(suite, longTerm, add.keyIv, secretKey);
    assert secretKey + Zeros(0) == secretKey;
  }

  /** The k-th call is the first shared secret added for an entity, and was wrapped for its public key. Whatever
      else was added before it under the id of the fragments is a certificate for someone else; what was added
      behind it makes no difference. */
  ghost predicate SecretAt(suite: Suite, privateKey: Bytes32, secretKey: Bytes32, adds: seq<Add>, k: nat,
                           entityId: UUID, localPrivate: Bytes32) {
    var open := Opener(suite, entityId, localPrivate, suite.publicKey(privateKey));
    && k < |adds| && adds[k].SharedSecret? && adds[k].entityId == entityId
    && adds[k].publicKey == suite.publicKey(localPrivate)
    && (forall j :: 0 <= j < k && adds[j].SharedSecret? ==> adds[j].entityId != entityId)
    && forall j :: 0 <= j < k && !adds[j].SharedSecret? && adds[j].id % TWO_16 == SHARED_SECRET_FRAGMENT ==>
         open(FieldsOf(suite, privateKey, secretKey, 0, adds)[j].value) == Ok(None)
  }

  /** A secret that is added first is at its place, whatever is added behind it. */
  lemma FirstSecret(suite: Suite, privateKey: Bytes32, secretKey: Bytes32, entityId: UUID, localPrivate: Bytes32,
                    keyIv: Bytes16, later: seq<Add>)
    ensures SecretAt(suite, privateKey, secretKey,
                     [SharedSecret(entityId, suite.publicKey(localPrivate), keyIv)] + later, 0, entityId, localPrivate)
  {
  }

  /** A scan that passes over what is under an id before the k-th field and opens that one finds its secret. */
  lemma {:induction false} ScanReaches(open: seq<byte> -> Result<Option<Secret>>, fields: seq<Field>, id: int, k: nat,
                                       secret: Secret)
    requires k < |fields| && fields[k].id % TWO_16 == id && open(fields[k].value) == Ok(Some(secret))
    requires forall j :: 0 <= j < k && fields[j].id % TWO_16 == id ==> open(fields[j].value) == Ok(None)
    ensures FindSecret(open, Values(fields, id)) == Ok(Some(secret))
    decreases k
  {
    var first, rest := fields[0].value, Values(fields[1..], id);
    if fields[0].id % TWO_16 == id {
      assert Values(fields, id) == [first] + rest;
      assert ([first] + rest)[1..] == rest;
    } else {
      assert Values(fields, id) == [] + rest == rest;
    }
    if k > 0 {
      ScanReaches(open, fields[1..], id, k - 1, secret);
    }
  }

  /** What the scan makes of the field of one call before the recipient's own. */
  lemma FieldPassed(suite: Suite, privateKey: Bytes32, secretKey: Bytes32, adds: seq<Add>, k: nat, j: nat,
                    entityId: UUID, localPrivate: Bytes32)
    requires BlocksInvert(suite) && LongTermAgrees(suite) && j <= k
    requires SecretAt(suite, privateKey, secretKey, adds, k, entityId, localPrivate)
    ensures var f := FieldsOf(suite, privateKey, secretKey, 0, adds)[j];
            f.id % TWO_16 == SHARED_SECRET_FRAGMENT ==>
              OpenFragment(suite, entityId, localPrivate, suite.publicKey(privateKey), f.value)
              == Ok(if j == k then Some(secretKey) else None)
    ensures FieldsOf(suite, privateKey, secretKey, 0, adds)[k].id % TWO_16 == SHARED_SECRET_FRAGMENT
  {
    FieldAt(suite, privateKey, secretKey, 0, adds, k);
    FieldMeans(suite, privateKey, secretKey, IvAfter(0, adds[..k]), adds[k]);
    FieldAt(suite, privateKey, secretKey, 0, adds, j);
    FieldMeans(suite, privateKey, secretKey, IvAfter(0, adds[..j]), adds[j]);
    if adds[j].SharedSecret? {
      FragmentOpens(suite, privateKey, secretKey, adds[j], entityId, localPrivate);
    }
  }

  /** Every recipient finds the secret key behind the fragments meant for others, whatever fields follow. */
  lemma SecretFound(suite: Suite, privateKey: Bytes32, secretKey: Bytes32, adds: seq<Add>, k: nat, behind: seq<Field>,
                    entityId: UUID, localPrivate: Bytes32)
    requires BlocksInvert(suite) && LongTermAgrees(suite)
    requires SecretAt(suite, privateKey, secretKey, adds, k, entityId, localPrivate)
    ensures FindSecret(Opener(suite, entityId, localPrivate, suite.publicKey(privateKey)),
                       Values(FieldsOf(suite, privateKey, secretKey, 0, adds) + behind, SHARED_SECRET_FRAGMENT))
         == Ok(Some(secretKey))
  {
    var open := Opener(suite, entityId, localPrivate, suite.publicKey(privateKey));
    var fields := FieldsOf(suite, privateKey, secretKey, 0, adds);
    FieldPassed(suite, privateKey, secretKey, adds, k, k, entityId, localPrivate);
    forall j | 0 <= j < k && (fields + behind)[j].id % TWO_16 == SHARED_SECRET_FRAGMENT
      ensures open((fields + behind)[j].value) == Ok(None)
    {
      assert (fields + behind)[j] == fields[j];
      FieldPassed(suite, privateKey, secretKey, adds, k, j, entityId, localPrivate);
    }
    assert (fields + behind)[k] == fields[k];
    ScanReaches(open, fields + behind, SHARED_SECRET_FRAGMENT, k, secretKey);
  }

  lemma ThreeLack(a: Field, b: Field, c: Field, id: int)
    requires a.id % TWO_16 != id && b.id % TWO_16 != id && c.id % TWO_16 != id
    ensures Lacks([a, b, c], id)
  {
  }

  lemma DefaultsLack(certificateType: UUID, id: int)
    requires id != CERTIFICATE_VERSION && id != CERTIFICATE_CRYPTO_SUITE && id != CERTIFICATE_TYPE
    ensures Lacks(DefaultFields(certificateType), id)
  {
    var all := DefaultFields(certificateType);
    ThreeLack(all[0], all[1], all[2], id);
  }

  lemma DefaultsSelected(certificateType: UUID, fields: seq<Field>, id: int)
    requires id != CERTIFICATE_VERSION && id != CERTIFICATE_CRYPTO_SUITE && id != CERTIFICATE_TYPE
    ensures Values(DefaultFields(certificateType) + fields, id) == Values(fields, id)
  {
    DefaultsLack(certificateType, id);
    ValuesSkip(DefaultFields(certificateType), fields, id);
  }

  /** What the parsed certificate maps an id to. */
  lemma ParsedValues(fields: seq<Field>, id: int)
    requires SmallValues(fields) && fields != []
    ensures var parsed := ParseResult(Serialize(fields));
            parsed.Ok? && (id in parsed.value <==> Values(fields, id) != [])
            && (id in parsed.value ==> parsed.value[id] == Values(fields, id))
  {
    WalkAll(fields);
    assert Walk(Serialize(fields)) != [];
    SelectIsValues(fields, id);
    SelectNonEmpty(UnsignedAll(fields), id);
  }

  lemma ReadEncryptedValue(suite: Suite, secretKey: Bytes32, certFields: map<int, seq<seq<byte>>>,
                           encrypted: seq<seq<byte>>, values: seq<seq<byte>>, id: int, i: nat)
    requires id in certFields <==> encrypted != []
    requires id in certFields ==> certFields[id] == encrypted
    requires AllEncrypt(suite, secretKey, encrypted, values)
    ensures ReadEncrypted(suite, Some(secretKey), CertificateReader(certFields), id, i)
         == if i >= |values| then Err(MissingField)
            else if values[i] == [] then Err(FieldConversion)
            else Ok(values[i])
  {
    assert secretKey[..32] == secretKey;
    if i < |values| {
      assert Encrypts(suite, secretKey, encrypted[i], values[i]);
    }
  }

  /** What reading the i-th value added under an id gives: an empty one is refused. */
  function ReadOf(adds: seq<Add>, id: int, i: nat): Result<seq<byte>> {
    var values := Added(adds, id);
    if i >= |values| then Err(MissingField) else if values[i] == [] then Err(FieldConversion) else Ok(values[i])
  }

  /** An id under which nothing but encrypted values can have been added. */
  ghost predicate EncryptedOnly(adds: seq<Add>, id: int) {
    id !in {CERTIFICATE_VERSION, CERTIFICATE_CRYPTO_SUITE, CERTIFICATE_TYPE, SHARED_SECRET_FRAGMENT}
    && OnlyEncryptedUnder(adds, id)
  }

  /** All fields of a certificate that a builder made and to which others may have been appended. */
  function CertificateFields(suite: Suite, privateKey: Bytes32, secretKey: Bytes32, certificateType: UUID,
                             adds: seq<Add>, behind: seq<Field>): seq<Field> {
    DefaultFields(certificateType) + (FieldsOf(suite, privateKey, secretKey, 0, adds) + behind)
  }

  lemma SecretParsed(suite: Suite, privateKey: Bytes32, secretKey: Bytes32, certificateType: UUID, adds: seq<Add>,
                     k: nat, behind: seq<Field>, entityId: UUID, localPrivate: Bytes32)
    requires BlocksInvert(suite) && LongTermAgrees(suite)
    requires SecretAt(suite, privateKey, secretKey, adds, k, entityId, localPrivate)
    requires SmallValues(CertificateFields(suite, privateKey, secretKey, certificateType, adds, behind))
    ensures var parsed := ParseResult(Serialize(CertificateFields(suite, privateKey, secretKey, certificateType, adds,
                                                                  behind)));
            && parsed.Ok? && SHARED_SECRET_FRAGMENT in parsed.value
            && FindSecret(Opener(suite, entityId, localPrivate, suite.publicKey(privateKey)),
                          parsed.value[SHARED_SECRET_FRAGMENT])
               == Ok(Some(secretKey))
  {
    ParsedValues(CertificateFields(suite, privateKey, secretKey, certificateType, adds, behind),
                 SHARED_SECRET_FRAGMENT);
    DefaultsSelected(certificateType, FieldsOf(suite, privateKey, secretKey, 0, adds) + behind, SHARED_SECRET_FRAGMENT);
    SecretFound(suite, privateKey, secretKey, adds, k, behind, entityId, localPrivate);
  }

  lemma ValueParsed(suite: Suite, privateKey: Bytes32, secretKey: Bytes32, certificateType: UUID, adds: seq<Add>,
                    behind: seq<Field>, id: int, i: nat)
    requires EncryptedOnly(adds, id) && Lacks(behind, id)
    requires SmallValues(CertificateFields(suite, privateKey, secretKey, certificateType, adds, behind))
    ensures var parsed := ParseResult(Serialize(CertificateFields(suite, privateKey, secretKey, certificateType, adds,
                                                                  behind)));
            parsed.Ok?
            && ReadEncrypted(suite, Some(secretKey), CertificateReader(parsed.value), id, i) == ReadOf(adds, id, i)
  {
    var added := FieldsOf(suite, privateKey, secretKey, 0, adds);
    var fields := CertificateFields(suite, privateKey, secretKey, certificateType, adds, behind);
    ParsedValues(fields, id);
    DefaultsSelected(certificateType, added + behind, id);
    ValuesAlone(added, behind, id);
    ValuesSelected(suite, privateKey, secretKey, 0, adds, id);
    ReadEncryptedValue(suite, secretKey, ParseResult(Serialize(fields)).value, Values(added, id), Added(adds, id),
                       id, i);
  }

  lemma PlainParsed(suite: Suite, privateKey: Bytes32, secretKey: Bytes32, certificateType: UUID, adds: seq<Add>,
                    behind: seq<Field>, id: int, i: nat)
    requires PlainOnly(adds, id) && Lacks(behind, id)
    requires SmallValues(CertificateFields(suite, privateKey, secretKey, certificateType, adds, behind))
    ensures var parsed := ParseResult(Serialize(CertificateFields(suite, privateKey, secretKey, certificateType, adds,
                                                                  behind)));
            parsed.Ok? && CertificateReader(parsed.value).Get(id, i) == PlainOf(certificateType, adds, id, i)
  {
    var added := FieldsOf(suite, privateKey, secretKey, 0, adds);
    ParsedValues(CertificateFields(suite, privateKey, secretKey, certificateType, adds, behind), id);
    DefaultsHead(certificateType, added + behind, id);
    ValuesAlone(added, behind, id);
    PlainValuesSelected(suite, privateKey, secretKey, 0, adds, id);
  }

  /** End to end. Whatever plain values, encrypted values and shared secrets were added in whatever
      order, a recipient whose first fragment was wrapped for its own public key recovers the secret
      key; under an id whose values were all added encrypted, the i-th read gives the i-th value added,
      except that an empty value is refused; and under an id whose values were all added in the clear, the
      i-th get gives the i-th value, behind the one that every certificate has under three of the ids. Fields
      appended later, such as a signer's, make no difference. */
  lemma EncryptedCertificateRoundTrip(suite: Suite, privateKey: Bytes32, secretKey: Bytes32,
                                      certificateType: UUID, adds: seq<Add>, k: nat, behind: seq<Field>,
                                      entityId: UUID, localPrivate: Bytes32, id: int, i: nat,
                                      plainId: int, j: nat)
    requires BlocksInvert(suite) && LongTermAgrees(suite)
    requires SecretAt(suite, privateKey, secretKey, adds, k, entityId, localPrivate)
    requires EncryptedOnly(adds, id) && Lacks(behind, id) && PlainOnly(adds, plainId) && Lacks(behind, plainId)
    requires SmallValues(CertificateFields(suite, privateKey, secretKey, certificateType, adds, behind))
    ensures var fields := CertificateFields(suite, privateKey, secretKey, certificateType, adds, behind);
            var parsed := ParseResult(Serialize(fields));
            && parsed.Ok? && SHARED_SECRET_FRAGMENT in parsed.value
            && FindSecret(Opener(suite, entityId, localPrivate, suite.publicKey(privateKey)),
                          parsed.value[SHARED_SECRET_FRAGMENT])
               == Ok(Some(secretKey))
            && ReadEncrypted(suite, Some(secretKey), CertificateReader(parsed.value), id, i) == ReadOf(adds, id, i)
            && CertificateReader(parsed.value).Get(plainId, j) == PlainOf(certificateType, adds, plainId, j)
  {
    PlainParsed(suite, privateKey, secretKey, certificateType, adds, behind, plainId, j);
    SecretParsed(suite, privateKey, secretKey, certificateType, adds, k, behind, entityId, localPrivate);
    ValueParsed(suite, privateKey, secretKey, certificateType, adds, behind, id, i);
  }

  lemma BuilderIvsEqualIff(i: nat, j: nat)
    ensures BuilderIv(i) == BuilderIv(j) <==> i % TWO_64 == j % TWO_64
  {
    FromToBE8(i);
    FromToBE8(j);
    ToFromBE(ToBE(i, 8));
    ToFromBE(ToBE(j, 8));
  }

  ghost predicate DistinctIvs(iv: nat -> seq<byte>, n: nat) {
    forall i: nat, j: nat | i < n && j < n :: iv(i) == iv(j) ==> i == j
  }

  lemma DistinctIffPeriod(iv: nat -> seq<byte>, n: nat)
    requires forall i: nat, j: nat :: iv(i) == iv(j) <==> i % TWO_64 == j % TWO_64
    ensures DistinctIvs(iv, n) <==> n <= TWO_64
  {
    if n > TWO_64 {
      var i, j := n - 1 - TWO_64, n - 1;
      assert iv(i) == iv(j);
    }
  }

  /** The values of one builder never share a keystream: its IVs are distinct for 2^64 values and no more. */
  lemma DistinctIvsIff(n: nat)
    ensures DistinctIvs(BuilderIv, n) <==> n <= TWO_64
  {
    forall i: nat, j: nat ensures BuilderIv(i) == BuilderIv(j) <==> i % TWO_64 == j % TWO_64 {
      BuilderIvsEqualIff(i, j);
    }
    DistinctIffPeriod(BuilderIv, n);
  }
}
