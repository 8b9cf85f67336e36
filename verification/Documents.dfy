/** The chunked document cipher: EncryptedDocumentBuilder and EncryptedDocumentReader. */
module Documents {
  import opened Bytes
  import opened Results
  import opened Vccrypt

  const BUFFER_SIZE: nat := 4096

  /** java.io.InputStream over fixed data. How many bytes a read delivers is left open. */
  class InputStream {
    const data: seq<byte>
    var position: nat

    constructor (data: seq<byte>)
      ensures this.data == data && position == 0
    {
      this.data := data;
      position := 0;
    }

    ghost predicate Valid()
      reads this
    {
      position <= |data|
    }

    ghost function Remaining(): seq<byte>
      reads this
      requires Valid()
    {
      data[position..]
    }

    /** read(buffer, 0, buffer.length): -1 at the end, otherwise any positive number of the next bytes. */
    method Read(buffer: array<byte>) returns (r: int)
      requires Valid() && buffer.Length > 0
      modifies this, buffer
      ensures Valid()
      ensures r == -1 <==> old(Remaining()) == []
      ensures r == -1 ==> position == old(position) && buffer[..] == old(buffer[..])
      ensures r != -1 ==> 1 <= r <= buffer.Length && r <= |old(Remaining())|
      ensures r != -1 ==> position == old(position) + r
      ensures r != -1 ==> buffer[..r] == old(Remaining())[..r] && buffer[r..] == old(buffer[r..])
    {
      if position == |data| {
        return -1;
      }
      r :| 1 <= r <= buffer.Length && r <= |data| - position;
      ArrayCopy(data[position..position + r], buffer, 0);
      position := position + r;
    }
  }

  /** java.io.OutputStream, as the bytes written to it. */
  class OutputStream {
    var written: seq<byte>

    constructor ()
      ensures written == []
    {
      written := [];
    }

    method Write(bytes: seq<byte>)
      modifies this
      ensures written == old(written) + bytes
    {
      written := written + bytes;
    }
  }

  /** One-shot encryption: the IV once, then the plaintext under keystream positions 0, 1, 2 and on.
      An empty document has no IV. */
  function EncryptDocument(suite: Suite, key: seq<byte>, iv: seq<byte>, plain: seq<byte>): seq<byte> {
    if plain == [] then [] else iv + Stream(suite, key, iv, 0, plain)
  }

  /** One-shot decryption, when the read of the IV delivered the first ivRead bytes of the document. */
  function DecryptDocument(suite: Suite, key: seq<byte>, document: seq<byte>, ivRead: nat): seq<byte>
    requires ivRead <= STREAM_IV_SIZE && ivRead <= |document|
  {
    Stream(suite, key, document[..ivRead] + Zeros(STREAM_IV_SIZE - ivRead), 0, document[ivRead..])
  }

  /** encryptData: the IV goes out in front of the chunk at offset 0 and nowhere else. */
  method EncryptData(suite: Suite, key: seq<byte>, iv: seq<byte>, input: seq<byte>, offset: nat)
    returns (output: seq<byte>)
    requires |iv| == STREAM_IV_SIZE
    ensures output == (if offset == 0 then iv else []) + Stream(suite, key, iv, offset, input)
  {
    var stream := new StreamContext(suite, key);
    var outputBufferOffset := if offset == 0 then STREAM_IV_SIZE else 0;
    var out := new byte[outputBufferOffset + |input|](_ => 0);
    if offset == 0 {
      var inputOffset := stream.StartEncryption(iv, out, 0, offset);
      assert out[..STREAM_IV_SIZE] == iv;
    } else {
      stream.Continue(iv, offset);
    }
    ghost var before := out[..];
    outputBufferOffset := stream.Crypt(input, out, 0, outputBufferOffset);
    output := out[..];
    assert offset == 0 ==> output[..STREAM_IV_SIZE] == before[..STREAM_IV_SIZE] == iv;
  }

  /** decryptData: at offset 0 the input starts with the IV to use; later the IV is the argument. */
  method DecryptData(suite: Suite, key: seq<byte>, iv: seq<byte>, input: seq<byte>, offset: nat)
    returns (output: seq<byte>)
    requires offset == 0 ==> STREAM_IV_SIZE <= |input|
    ensures output == if offset == 0 then Stream(suite, key, input[..STREAM_IV_SIZE], 0, input[STREAM_IV_SIZE..])
                      else Stream(suite, key, iv, offset, input)
  {
    var stream := new StreamContext(suite, key);
    var skipped := if offset == 0 then STREAM_IV_SIZE else 0;
    var out := new byte[|input| - skipped](_ => 0);
    if offset == 0 {
      var inputOffset := stream.StartDecryption(input, offset);
    } else {
      stream.Continue(iv, offset);
    }
    var outputBufferOffset := stream.Crypt(input[skipped..], out, 0, 0);
    output := out[..];
    assert output == Stream(suite, key, stream.iv, offset, input[skipped..]);
  }

  /** Encrypting one chunk more extends the one-shot encryption. */
  lemma EncryptNextChunk(suite: Suite, key: seq<byte>, iv: seq<byte>, done: seq<byte>, chunk: seq<byte>)
    requires chunk != []
    ensures EncryptDocument(suite, key, iv, done + chunk)
         == EncryptDocument(suite, key, iv, done)
            + ((if done == [] then iv else []) + Stream(suite, key, iv, |done|, chunk))
  {
    StreamJoins(suite, key, iv, 0, done, chunk);
    if done == [] {
      assert done + chunk == chunk;
    }
  }

  /** The same on the written bytes, for a chunk that continues the plaintext. */
  lemma EncryptedSoFar(suite: Suite, key: seq<byte>, iv: seq<byte>, before: seq<byte>, plain: seq<byte>, offset: nat,
                       chunk: seq<byte>)
    requires chunk != [] && offset + |chunk| <= |plain| && chunk == plain[offset..][..|chunk|]
    ensures before + EncryptDocument(suite, key, iv, plain[..offset + |chunk|])
         == before + EncryptDocument(suite, key, iv, plain[..offset])
            + ((if offset == 0 then iv else []) + Stream(suite, key, iv, offset, chunk))
  {
    EncryptNextChunk(suite, key, iv, plain[..offset], chunk);
    assert plain[..offset] + chunk == plain[..offset + |chunk|];
    Assoc(before, EncryptDocument(suite, key, iv, plain[..offset]),
          (if offset == 0 then iv else []) + Stream(suite, key, iv, offset, chunk));
  }

  class EncryptedDocumentBuilder {
    const secretKey: Bytes32
    var source: InputStream?
    var destination: OutputStream?

    constructor (secretKey: Bytes32)
      ensures this.secretKey == secretKey && source == null && destination == null
    {
      this.secretKey := secretKey;
      source, destination := null, null;
    }

    method WithSource(source: InputStream)
      modifies this`source
      ensures this.source == source
    {
      this.source := source;
    }

    method WithDestination(destination: OutputStream)
      modifies this`destination
      ensures this.destination == destination
    {
      this.destination := destination;
    }

    /** encrypt: however the source delivers its bytes, the destination receives the one-shot
        encryption of all of them. The random IV is a parameter. */
    method Encrypt(suite: Suite, iv: seq<byte>) returns (r: Result<()>)
      requires |iv| == STREAM_IV_SIZE
      requires source != null ==> source.Valid()
      modifies source, destination
      ensures r == if source == null || destination == null then Err(IllegalState) else Ok(())
      ensures r.Ok? ==> source.Valid() && source.Remaining() == []
      ensures r.Ok? ==>
        destination.written
        == old(destination.written) + EncryptDocument(suite, secretKey, iv, old(source.Remaining()))
      ensures r.Err? && destination != null ==> destination.written == old(destination.written)
    {
      if source == null || destination == null {
        return Err(IllegalState);
      }
      var input, output := source, destination;
      var offset := 0;
      var buffer := new byte[BUFFER_SIZE](_ => 0);
      ghost var plain, start := input.Remaining(), input.position;
      ghost var before := output.written;
      while true
        invariant fresh(buffer) && input.Valid() && offset <= |plain|
        invariant input.position == start + offset
        invariant output.written == before + EncryptDocument(suite, secretKey, iv, plain[..offset])
        decreases |plain| - offset
      {
        var n := input.Read(buffer);
        if n == -1 {
          break;
        }
        var chunk := buffer[..n];
        var encryptedChunk := EncryptData(suite, secretKey, iv, chunk, offset);
        assert chunk == plain[offset..][..n];
        EncryptedSoFar(suite, secretKey, iv, before, plain, offset, chunk);
        offset := offset + n;
        output.Write(encryptedChunk);
      }
      assert plain[..offset] == plain;
      r := Ok(());
    }
  }

  /** The body of the decryption loop: the IV goes back in front of the first chunk. */
  method DecryptChunk(suite: Suite, key: seq<byte>, iv: seq<byte>, body: seq<byte>, offset: nat)
    returns (decrypted: seq<byte>)
    requires |iv| == STREAM_IV_SIZE
    ensures decrypted == Stream(suite, key, iv, offset, body)
  {
    var chunk := if offset == 0 then iv + body else body;
    decrypted := DecryptData(suite, key, iv, chunk, offset);
    assert offset == 0 ==> chunk[..STREAM_IV_SIZE] == iv && chunk[STREAM_IV_SIZE..] == body;
  }

  /** The read of the IV into eight zeroed bytes; the count it returns is dropped. */
  method ReadIv(input: InputStream) returns (ivBytes: seq<byte>, ghost ivRead: nat)
    requires input.Valid()
    modifies input
    ensures input.Valid()
    ensures ivRead <= STREAM_IV_SIZE && ivRead <= |old(input.Remaining())|
    ensures ivRead == 0 <==> old(input.Remaining()) == []
    ensures input.Remaining() == old(input.Remaining())[ivRead..]
    ensures ivBytes == old(input.Remaining())[..ivRead] + Zeros(STREAM_IV_SIZE - ivRead)
  {
    var iv := new byte[STREAM_IV_SIZE](_ => 0);
    var k := input.Read(iv);
    ivRead := if k == -1 then 0 else k;
    ivBytes := iv[..];
  }

  /** Decrypting one chunk more extends the one-shot decryption. */
  lemma DecryptedSoFar(suite: Suite, key: seq<byte>, iv: seq<byte>, before: seq<byte>, cipher: seq<byte>, offset: nat,
                       body: seq<byte>)
    requires offset + |body| <= |cipher| && body == cipher[offset..][..|body|]
    ensures before + Stream(suite, key, iv, 0, cipher[..offset + |body|])
         == before + Stream(suite, key, iv, 0, cipher[..offset]) + Stream(suite, key, iv, offset, body)
  {
    StreamJoins(suite, key, iv, 0, cipher[..offset], body);
    assert cipher[..offset] + body == cipher[..offset + |body|];
    Assoc(before, Stream(suite, key, iv, 0, cipher[..offset]), Stream(suite, key, iv, offset, body));
  }

  class EncryptedDocumentReader {
    const secretKey: Bytes32
    var source: InputStream?
    var destination: OutputStream?

    constructor (secretKey: Bytes32)
      ensures this.secretKey == secretKey && source == null && destination == null
    {
      this.secretKey := secretKey;
      source, destination := null, null;
    }

    method WithSource(source: InputStream)
      modifies this`source
      ensures this.source == source
    {
      this.source := source;
    }

    method WithDestination(destination: OutputStream)
      modifies this`destination
      ensures this.destination == destination
    {
      this.destination := destination;
    }

    /** decrypt: however the source delivers its bytes, the destination receives the one-shot
        decryption that belongs to the length of the first read. */
    method Decrypt(suite: Suite) returns (r: Result<()>, ghost ivRead: nat)
      requires source != null ==> source.Valid()
      modifies source, destination
      ensures r == if source == null || destination == null then Err(IllegalState) else Ok(())
      ensures r.Ok? ==> source.Valid() && source.Remaining() == []
      ensures r.Ok? ==> ivRead <= STREAM_IV_SIZE && ivRead <= |old(source.Remaining())|
      ensures r.Ok? ==> (ivRead == 0 <==> old(source.Remaining()) == [])
      ensures r.Ok? ==>
        destination.written
        == old(destination.written) + DecryptDocument(suite, secretKey, old(source.Remaining()), ivRead)
      ensures r.Err? && destination != null ==> destination.written == old(destination.written)
    {
      ivRead := 0;
      if source == null || destination == null {
        r := Err(IllegalState);
        return;
      }
      var iv;
      iv, ivRead := ReadIv(source);
      DecryptRest(suite, iv, source, destination);
      r := Ok(());
    }

    /** The loop of decrypt, on what is left behind the IV. */
    method DecryptRest(suite: Suite, iv: seq<byte>, input: InputStream, output: OutputStream)
      requires input.Valid() && |iv| == STREAM_IV_SIZE
      modifies input, output
      ensures input.Valid() && input.Remaining() == []
      ensures output.written == old(output.written) + Stream(suite, secretKey, iv, 0, old(input.Remaining()))
    {
      var offset := 0;
      var buffer := new byte[BUFFER_SIZE](_ => 0);
      ghost var before, cipher, start := output.written, input.Remaining(), input.position;
      while true
        invariant fresh(buffer) && input.Valid() && offset <= |cipher|
        invariant input.position == start + offset
        invariant output.written == before + Stream(suite, secretKey, iv, 0, cipher[..offset])
        decreases |cipher| - offset
      {
        var n := input.Read(buffer);
        if n == -1 {
          break;
        }
        var body := buffer[..n];
        var decrypted := DecryptChunk(suite, secretKey, iv, body, offset);
        assert body == cipher[offset..][..n];
        DecryptedSoFar(suite, secretKey, iv, before, cipher, offset, body);
        offset := offset + n;
        output.Write(decrypted);
      }
      assert cipher[..offset] == cipher;
    }
  }

  /** Reading back what was written. The reader ignores how many bytes its IV read delivered, so the
      document comes back exactly when it was empty or that one read delivered the whole IV. */
  lemma DocumentRoundTripIff(suite: Suite, key: seq<byte>, iv: seq<byte>, plain: seq<byte>, ivRead: nat)
    requires |iv| == STREAM_IV_SIZE
    requires ivRead <= STREAM_IV_SIZE && ivRead <= |EncryptDocument(suite, key, iv, plain)|
    ensures DecryptDocument(suite, key, EncryptDocument(suite, key, iv, plain), ivRead) == plain
       <==> plain == [] || ivRead == STREAM_IV_SIZE
  {
    var document := EncryptDocument(suite, key, iv, plain);
    if plain != [] {
      if ivRead == STREAM_IV_SIZE {
        assert document[..ivRead] + Zeros(0) == iv;
        assert document[ivRead..] == Stream(suite, key, iv, 0, plain);
        StreamCancels(suite, key, iv, 0, plain);
      } else {
        assert |DecryptDocument(suite, key, document, ivRead)| == |plain| + STREAM_IV_SIZE - ivRead;
      }
    }
  }

  /** The bytes of an encrypted document: its IV once, and then each byte of the plaintext under the keystream
      byte of its own offset. */
  lemma DocumentLayout(suite: Suite, key: seq<byte>, iv: seq<byte>, plain: seq<byte>, i: nat)
    requires |iv| == 8 && plain != []
    ensures var document := EncryptDocument(suite, key, iv, plain);
            && |document| == 8 + |plain| && document[..8] == iv
            && (i < |plain| ==> document[8 + i] == plain[i] ^ suite.keystream(key, iv, i))
    ensures EncryptDocument(suite, key, iv, []) == []
  {
    StreamAt(suite, key, iv, 0, plain, Stream(suite, key, iv, 0, plain));
  }

  /** The keystream bytes that a document rests on are those at offsets 0, 1, 2 and on, one for each of its bytes. */
  lemma DocumentRestsOn(suite: Suite, other: Keystream, key: seq<byte>, iv: seq<byte>, plain: seq<byte>)
    ensures EncryptDocument(suite.(keystream := other), key, iv, plain) == EncryptDocument(suite, key, iv, plain)
       <==> SameOn(suite.keystream, other, key, Places(iv, 0, |plain|))
  {
    StreamPlaces(suite, other, key, iv, 0, plain);
    var a, b := Stream(suite, key, iv, 0, plain), Stream(suite.(keystream := other), key, iv, 0, plain);
    assert (iv + a)[|iv|..] == a && (iv + b)[|iv|..] == b;
  }

  /** Decryption takes the IV for its first eight bytes, missing ones as zeros, and undoes each byte behind it with
      the keystream byte of its offset there. */
  lemma DecryptLayout(suite: Suite, key: seq<byte>, document: seq<byte>, ivRead: nat, i: nat)
    requires ivRead <= 8 && ivRead <= |document|
    ensures var plain := DecryptDocument(suite, key, document, ivRead);
            var iv := document[..ivRead] + seq(8 - ivRead, _ => 0);
            && |plain| == |document| - ivRead
            && (i < |plain| ==> plain[i] == document[ivRead + i] ^ suite.keystream(key, iv, i))
  {
    var iv := document[..ivRead] + seq(8 - ivRead, _ => 0);
    assert iv == document[..ivRead] + Zeros(8 - ivRead);
    StreamAt(suite, key, iv, 0, document[ivRead..], Stream(suite, key, iv, 0, document[ivRead..]));
  }

  /** A one-byte document whose first read delivers a single byte comes back as eight bytes. */
  lemma ShortIvReadExample(suite: Suite, key: seq<byte>, iv: seq<byte>)
    requires |iv| == STREAM_IV_SIZE
    ensures |DecryptDocument(suite, key, EncryptDocument(suite, key, iv, [0x41]), 1)| == 8
  {
  }
}
