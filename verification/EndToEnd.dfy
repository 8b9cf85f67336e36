/** Writing and reading back across the classes: a document, and a certificate with encrypted values. */
module EndToEnd {
  import opened Bytes
  import opened Results
  import opened Uuids
  import opened Vccrypt
  import opened Certificates
  import opened EncryptedCertificates
  import Documents

  /** A stream to read some bytes from, and one to write to. */
  method Streams(data: seq<byte>) returns (source: Documents.InputStream, destination: Documents.OutputStream)
    ensures fresh(source) && fresh(destination) && source.Valid()
    ensures source.Remaining() == data && destination.written == []
  {
    source := new Documents.InputStream(data);
    destination := new Documents.OutputStream();
  }

  /** What comes back when the one read of the IV delivers so many bytes. */
  ghost predicate ReadBack(suite: Suite, secretKey: Bytes32, iv: seq<byte>, document: seq<byte>, ivRead: nat,
                           back: seq<byte>) {
    var encrypted := Documents.EncryptDocument(suite, secretKey, iv, document);
    && ivRead <= STREAM_IV_SIZE && ivRead <= |encrypted| && (ivRead == 0 <==> document == [])
    && back == Documents.DecryptDocument(suite, secretKey, encrypted, ivRead)
    && (back == document <==> document == [] || ivRead == STREAM_IV_SIZE)
  }

  /** A document that is encrypted from one stream and decrypted from another comes back exactly when it was
      empty or the one read of the IV delivered all of it, however the two sources split their bytes. */
  method WriteAndReadDocument(suite: Suite, secretKey: Bytes32, iv: seq<byte>, document: seq<byte>)
    returns (back: seq<byte>)
    requires |iv| == STREAM_IV_SIZE
    ensures exists ivRead: nat :: ReadBack(suite, secretKey, iv, document, ivRead, back)
  {
    var builder := new Documents.EncryptedDocumentBuilder(secretKey);
    var plain, encrypted := Streams(document);
    builder.WithSource(plain);
    builder.WithDestination(encrypted);
    var written := builder.Encrypt(suite, iv);
    assert encrypted.written == Documents.EncryptDocument(suite, secretKey, iv, document);
    var reader := new Documents.EncryptedDocumentReader(secretKey);
    var cipher, decrypted := Streams(encrypted.written);
    reader.WithSource(cipher);
    reader.WithDestination(decrypted);
    var read;
    ghost var ivRead;
    read, ivRead := reader.Decrypt(suite);
    back := decrypted.written;
    Documents.DocumentRoundTripIff(suite, secretKey, iv, document, ivRead);
    assert ReadBack(suite, secretKey, iv, document, ivRead, back);
  }

  /** Parsing what is visible of a certificate, loading the secret key, and reading one value. */
  method LoadAndGet(suite: Suite, parser: CertificateParser, entityId: UUID, localPrivate: Bytes32,
                    peerPublic: Bytes32, fieldId: int, index: nat)
    returns (r: Result<seq<byte>>)
    requires parser.Valid()
    ensures var parsed := ParseResult(parser.certificate[..parser.size]);
            parsed.Ok? && SHARED_SECRET_FRAGMENT in parsed.value ==>
              var found := FindSecret(Opener(suite, entityId, localPrivate, peerPublic),
                                      parsed.value[SHARED_SECRET_FRAGMENT]);
              found.Ok? && found.value.Some? ==>
                r == ReadEncrypted(suite, found.value, CertificateReader(parsed.value), fieldId, index)
  {
    var certFields :- parser.Parse();
    var reader := new EncryptedCertificateReader(suite, entityId, localPrivate, peerPublic,
                                                 CertificateReader(certFields));
    var loaded :- reader.LoadSecretKey();
    r := reader.GetEncrypted(fieldId, index);
  }

  /** Parsing what is visible of a certificate, and reading one value that is not encrypted. */
  method ParseAndGet(parser: CertificateParser, fieldId: int, index: nat) returns (r: Result<seq<byte>>)
    requires parser.Valid()
    ensures var parsed := ParseResult(parser.certificate[..parser.size]);
            r == if parsed.Err? then Err(parsed.error) else CertificateReader(parsed.value).Get(fieldId, index)
  {
    var certFields :- parser.Parse();
    r := CertificateReader(certFields).Get(fieldId, index);
  }

  /** Emit, parse, load the secret key, and read: the recipient gets the values that were added, encrypted and in
      the clear. */
  method EmitAndRead(builder: EncryptedCertificateBuilder, entityId: UUID, localPrivate: Bytes32, ghost k: nat,
                     fieldId: int, index: nat, plainId: int, plainIndex: nat)
    returns (r: Result<seq<byte>>, plain: Result<seq<byte>>)
    requires builder.Valid() && Emittable(builder.base.fields)
    requires BlocksInvert(builder.suite) && LongTermAgrees(builder.suite)
    requires SecretAt(builder.suite, builder.privateKey, builder.secretKey, builder.adds, k, entityId, localPrivate)
    requires EncryptedOnly(builder.adds, fieldId) && PlainOnly(builder.adds, plainId)
    ensures r == ReadOf(builder.adds, fieldId, index)
    ensures plain == PlainOf(builder.certificateType, builder.adds, plainId, plainIndex)
  {
    var certificate := builder.base.Emit();
    var parser := new CertificateParser(certificate.value);
    ghost var suite, privateKey, secretKey := builder.suite, builder.privateKey, builder.secretKey;
    ghost var added := FieldsOf(suite, privateKey, secretKey, 0, builder.adds);
    assert added + [] == added;
    assert certificate.value[..|certificate.value|] == certificate.value;
    EncryptedCertificateRoundTrip(suite, privateKey, secretKey, builder.certificateType, builder.adds, k, [], entityId,
                                  localPrivate, fieldId, index, plainId, plainIndex);
    r := LoadAndGet(builder.suite, parser, entityId, localPrivate, builder.suite.publicKey(builder.privateKey), fieldId,
                    index);
    plain := ParseAndGet(parser, plainId, plainIndex);
  }

  /** Sign and attest, with anything at all behind the signature: what the signature covers becomes visible. */
  method SignAndAttest(suite: Suite, base: CertificateBuilder, signerId: UUID, signingKey: Bytes64, junk: seq<byte>,
                       resolveEntity: (UUID, int) -> Option<Bytes32>, blockHeight: int)
    returns (parser: CertificateParser, attested: Result<bool>)
    requires Signable(base.fields) && Lacks(base.fields, SIGNATURE) && Lacks(base.fields, SIGNER_ID)
    requires SignaturesVerify(suite)
    requires resolveEntity(signerId, blockHeight) == Some(suite.signingPublicKey(signingKey))
    ensures fresh(parser) && parser.Valid() && attested == Ok(true)
    ensures parser.certificate[..parser.size] == SignedBody(base.fields, signerId)
  {
    var signed := base.Sign(suite, signerId, signingKey);
    parser := new CertificateParser(signed.value + junk);
    attested := parser.Attest(suite, resolveEntity, blockHeight, false);
    HonestSignatureAttests(suite, base.fields, signerId, signingKey, junk, resolveEntity, blockHeight);
    SignAttestParse(suite, base.fields, signerId, signingKey, junk, resolveEntity, blockHeight, false);
  }

  lemma SignerIsSmall(fields: seq<Field>, signerId: UUID)
    requires SmallValues(fields)
    ensures SmallValues(fields + [SignerField(signerId)])
    ensures forall id :: id != SIGNER_ID ==> Lacks([SignerField(signerId)], id)
  {
  }

  /** Sign, attest, parse, load the secret key, and read: the certificate attests and the recipient gets the
      values that were added, encrypted and in the clear. */
  method SignAndRead(builder: EncryptedCertificateBuilder, signerId: UUID, signingKey: Bytes64, junk: seq<byte>,
                     resolveEntity: (UUID, int) -> Option<Bytes32>, blockHeight: int,
                     entityId: UUID, localPrivate: Bytes32, ghost k: nat, fieldId: int, index: nat,
                     plainId: int, plainIndex: nat)
    returns (attested: Result<bool>, r: Result<seq<byte>>, plain: Result<seq<byte>>)
    requires builder.Valid() && Signable(builder.base.fields)
    requires Lacks(builder.base.fields, SIGNATURE) && Lacks(builder.base.fields, SIGNER_ID)
    requires BlocksInvert(builder.suite) && LongTermAgrees(builder.suite) && SignaturesVerify(builder.suite)
    requires resolveEntity(signerId, blockHeight) == Some(builder.suite.signingPublicKey(signingKey))
    requires SecretAt(builder.suite, builder.privateKey, builder.secretKey, builder.adds, k, entityId, localPrivate)
    requires EncryptedOnly(builder.adds, fieldId) && fieldId != SIGNER_ID
    requires PlainOnly(builder.adds, plainId) && plainId != SIGNER_ID
    ensures attested == Ok(true)
    ensures r == ReadOf(builder.adds, fieldId, index)
    ensures plain == PlainOf(builder.certificateType, builder.adds, plainId, plainIndex)
  {
    var parser;
    parser, attested := SignAndAttest(builder.suite, builder.base, signerId, signingKey, junk, resolveEntity,
                                      blockHeight);
    ghost var suite, privateKey, secretKey := builder.suite, builder.privateKey, builder.secretKey;
    ghost var signer := SignerField(signerId);
    SignerIsSmall(builder.base.fields, signerId);
    Assoc(DefaultFields(builder.certificateType), FieldsOf(suite, privateKey, secretKey, 0, builder.adds), [signer]);
    EncryptedCertificateRoundTrip(suite, privateKey, secretKey, builder.certificateType, builder.adds, k, [signer],
                                  entityId, localPrivate, fieldId, index, plainId, plainIndex);
    r := LoadAndGet(builder.suite, parser, entityId, localPrivate, builder.suite.publicKey(builder.privateKey), fieldId,
                    index);
    plain := ParseAndGet(parser, plainId, plainIndex);
  }
}
