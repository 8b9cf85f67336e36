/** The SimpleStreamCipher envelope: wrapped session key, IV, ciphertext, MAC. */
module StreamEnvelope {
  import opened Bytes
  import opened Results
  import opened Vccrypt

  const WRAPPED_SIZE: nat := 48
  const MAC_SIZE: nat := 64
  const ENVELOPE_SIZE: nat := 120

  type Iv = s: seq<byte> | |s| == STREAM_IV_SIZE witness Zeros(STREAM_IV_SIZE)

  /** The envelope of an input for given random choices. */
  function Seal(suite: Suite, key: Bytes32, sessionKey: Bytes32, keyIv: Bytes16, streamIv: Iv, input: seq<byte>)
    : (blob: seq<byte>)
    ensures |blob| == |input| + ENVELOPE_SIZE
  {
    var covered := WrapKey(suite, key, keyIv, sessionKey)
                   + (streamIv + Stream(suite, sessionKey, streamIv, 0, input));
    covered + suite.macLong(sessionKey, covered)
  }

  /** What decrypt returns or throws. */
  function Open(suite: Suite, key: Bytes32, blob: seq<byte>): Result<seq<byte>> {
    if |blob| < ENVELOPE_SIZE then Err(MessageAuthentication)
    else
      var macAt := |blob| - MAC_SIZE;
      var sessionKey := UnwrapKey(suite, key, blob[..WRAPPED_SIZE]);
      if suite.macLong(sessionKey, blob[..macAt]) != blob[macAt..] then Err(MessageAuthentication)
      else Ok(Stream(suite, sessionKey, blob[WRAPPED_SIZE..56], 0, blob[56..macAt]))
  }

  /** The steps of encryptNative up to the MAC: 48 bytes of wrapped key, the IV and the ciphertext. */
  method EncryptBody(suite: Suite, key: Bytes32, sessionKey: Bytes32, keyIv: Bytes16, streamIv: Iv,
                     input: seq<byte>, outputArray: array<byte>)
    returns (offset: nat)
    requires outputArray.Length == |input| + ENVELOPE_SIZE
    modifies outputArray
    ensures offset == STREAM_IV_SIZE + |input|
    ensures outputArray[..WRAPPED_SIZE] == WrapKey(suite, key, keyIv, sessionKey)
    ensures outputArray[WRAPPED_SIZE..WRAPPED_SIZE + offset]
         == streamIv + Stream(suite, sessionKey, streamIv, 0, input)
  {
    WrapKeyInto(suite, key, keyIv, sessionKey, outputArray);
    assert outputArray[..WRAPPED_SIZE] == WrapKey(suite, key, keyIv, sessionKey);
    var stream := new StreamContext(suite, sessionKey);
    offset := stream.StartEncryption(streamIv, outputArray, WRAPPED_SIZE, 0);
    assert outputArray[..WRAPPED_SIZE] == WrapKey(suite, key, keyIv, sessionKey);
    assert outputArray[WRAPPED_SIZE..WRAPPED_SIZE + offset] == streamIv;
    offset := stream.Crypt(input, outputArray, WRAPPED_SIZE, offset);
    assert outputArray[WRAPPED_SIZE..WRAPPED_SIZE + 8] == streamIv;
  }

  /** encryptNative. The session key and both IVs, which it draws at random, are parameters. The MAC is
      fed in two steps, the wrapped key first and the rest later. */
  method EncryptNative(suite: Suite, key: Bytes32, sessionKey: Bytes32, keyIv: Bytes16, streamIv: Iv,
                       input: seq<byte>)
    returns (blob: seq<byte>)
    ensures blob == Seal(suite, key, sessionKey, keyIv, streamIv, input)
  {
    var outputArray := new byte[16 + 32 + STREAM_IV_SIZE + |input| + MAC_SIZE](_ => 0);
    var offset := EncryptBody(suite, key, sessionKey, keyIv, streamIv, input, outputArray);
    var mac := new MacContext(suite, sessionKey);
    mac.Digest(outputArray[..WRAPPED_SIZE]);
    mac.Digest(outputArray[WRAPPED_SIZE..WRAPPED_SIZE + offset]);
    ghost var covered := outputArray[..WRAPPED_SIZE + offset];
    assert covered == outputArray[..WRAPPED_SIZE] + outputArray[WRAPPED_SIZE..WRAPPED_SIZE + offset];
    assert mac.digested == covered;
    var macBuffer := mac.FinalizeLong();
    ArrayCopy(macBuffer, outputArray, WRAPPED_SIZE + offset);
    blob := outputArray[..];
    assert blob == covered + macBuffer;
  }

  /** decryptNative. The MAC is fed in one step and checked before anything is decrypted. */
  method DecryptNative(suite: Suite, key: Bytes32, input: seq<byte>) returns (r: Result<seq<byte>>)
    ensures r == Open(suite, key, input)
  {
    if |input| < ENVELOPE_SIZE {
      return Err(MessageAuthentication);
    }
    var plaintextSize := |input| - ENVELOPE_SIZE;
    var outputArray := new byte[plaintextSize](_ => 0);
    var sessionKeyBuffer := new byte[32](_ => 0);
    UnwrapKeyInto(suite, key, input, sessionKeyBuffer);
    var sessionKey := sessionKeyBuffer[..];
    assert sessionKey == UnwrapKey(suite, key, input[..WRAPPED_SIZE]);
    var mac := new MacContext(suite, sessionKey);
    mac.Digest(input[..|input| - MAC_SIZE]);
    assert mac.digested == input[..|input| - MAC_SIZE];
    var macBuffer := mac.FinalizeLong();
    if macBuffer != input[|input| - MAC_SIZE..] {
      return Err(MessageAuthentication);
    }
    var stream := new StreamContext(suite, sessionKey);
    var offset := stream.StartDecryption(input, WRAPPED_SIZE);
    offset := stream.Crypt(input[56..56 + plaintextSize], outputArray, 0, 0);
    assert outputArray[..] == Stream(suite, sessionKey, stream.iv, 0, input[56..56 + plaintextSize]);
    r := Ok(outputArray[..]);
  }

  /** Taking an envelope apart at the offsets that decryption uses. */
  lemma EnvelopeParts(wrapped: seq<byte>, iv: seq<byte>, body: seq<byte>, mac: seq<byte>)
    requires |wrapped| == WRAPPED_SIZE && |iv| == STREAM_IV_SIZE && |mac| == MAC_SIZE
    ensures var blob := wrapped + (iv + body) + mac;
            var macAt := |blob| - MAC_SIZE;
            && blob[..WRAPPED_SIZE] == wrapped
            && blob[WRAPPED_SIZE..56] == iv
            && blob[56..macAt] == body
            && blob[..macAt] == wrapped + (iv + body)
            && blob[macAt..] == mac
  {
  }

  /** Decrypting what was encrypted gives the input back, for every input and all random choices. */
  lemma SealRoundTrip(suite: Suite, key: Bytes32, sessionKey: Bytes32, keyIv: Bytes16, streamIv: Iv,
                      input: seq<byte>)
    requires BlocksInvert(suite)
    ensures Open(suite, key, Seal(suite, key, sessionKey, keyIv, streamIv, input)) == Ok(input)
  {
    var wrapped := WrapKey(suite, key, keyIv, sessionKey);
    var body := Stream(suite, sessionKey, streamIv, 0, input);
    EnvelopeParts(wrapped, streamIv, body, suite.macLong(sessionKey, wrapped + (streamIv + body)));
    WrapRoundTrip(suite, key, keyIv, sessionKey);
    StreamCancels(suite, sessionKey, streamIv, 0, input);
  }

  lemma EnvelopeBody(wrapped: seq<byte>, iv: seq<byte>, body: seq<byte>, mac: seq<byte>)
    requires |wrapped| == 48 && |iv| == 8 && |mac| == 64
    ensures var blob := wrapped + (iv + body) + mac;
            forall i :: 0 <= i < |body| ==> blob[56 + i] == body[i]
  {
  }

  /** The bytes of an envelope: the wrapped session key, the IV, the input with each byte under the keystream byte
      of its own place, and a MAC over everything before it. */
  lemma SealLayout(suite: Suite, key: Bytes32, sessionKey: Bytes32, keyIv: Bytes16, streamIv: Iv,
                   input: seq<byte>, i: nat)
    ensures var blob := Seal(suite, key, sessionKey, keyIv, streamIv, input);
            && |blob| == 120 + |input|
            && blob[..48] == WrapKey(suite, key, keyIv, sessionKey)
            && blob[48..56] == streamIv
            && (i < |input| ==> blob[56 + i] == input[i] ^ suite.keystream(sessionKey, streamIv, i))
            && blob[|blob| - 64..] == suite.macLong(sessionKey, blob[..|blob| - 64])
  {
    var wrapped := WrapKey(suite, key, keyIv, sessionKey);
    var body := Stream(suite, sessionKey, streamIv, 0, input);
    var mac := suite.macLong(sessionKey, wrapped + (streamIv + body));
    EnvelopeParts(wrapped, streamIv, body, mac);
    EnvelopeBody(wrapped, streamIv, body, mac);
    StreamAt(suite, sessionKey, streamIv, 0, input, body);
  }

  /** Decryption opens exactly the blobs of 120 bytes or more that end in the long MAC of all bytes before it, under
      the session key unwrapped from the first 48; any other is not authentic. */
  lemma OpensIff(suite: Suite, key: Bytes32, blob: seq<byte>)
    ensures Open(suite, key, blob).Ok?
       <==> |blob| >= 120
            && blob[|blob| - 64..] == suite.macLong(UnwrapKey(suite, key, blob[..48]), blob[..|blob| - 64])
    ensures Open(suite, key, blob).Err? ==> Open(suite, key, blob) == Err(MessageAuthentication)
  {
  }

  /** Decryption accepts nothing but envelopes: what it opens is the envelope of what it returns, for
      the session key and IVs found inside. */
  lemma OpenOnlySealed(suite: Suite, key: Bytes32, blob: seq<byte>)
    requires BlocksInvert(suite) && Open(suite, key, blob).Ok?
    ensures |blob| >= ENVELOPE_SIZE
    ensures blob == Seal(suite, key, UnwrapKey(suite, key, blob[..WRAPPED_SIZE]), blob[..16],
                         blob[WRAPPED_SIZE..56], Open(suite, key, blob).value)
  {
    var macAt := |blob| - MAC_SIZE;
    var sessionKey := UnwrapKey(suite, key, blob[..WRAPPED_SIZE]);
    var body := blob[56..macAt];
    UnwrapInvertsWrap(suite, key, blob[..WRAPPED_SIZE], sessionKey);
    assert blob[..WRAPPED_SIZE][..16] == blob[..16];
    StreamCancels(suite, sessionKey, blob[WRAPPED_SIZE..56], 0, body);
    assert blob[..macAt] == blob[..WRAPPED_SIZE] + (blob[WRAPPED_SIZE..56] + body);
    assert blob == blob[..macAt] + blob[macAt..];
  }
}
