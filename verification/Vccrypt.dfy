/** The cryptographic suite that the native code calls. Its primitives are parameters: nothing is
    assumed of the keystream or of the MAC, and the other hypotheses are the predicate Valid. */
module Vccrypt {
  import opened Bytes

  type Bytes16 = s: seq<byte> | |s| == 16 witness Zeros(16)
  type Bytes32 = s: seq<byte> | |s| == 32 witness Zeros(32)
  type Bytes64 = s: seq<byte> | |s| == 64 witness Zeros(64)

  const MAC_SHORT_SIZE: nat := 32
  const STREAM_IV_SIZE: nat := 8

  datatype Suite = Suite(
    keystream: (seq<byte>, seq<byte>, nat) -> byte,                      // key, IV, position
    macShort: (seq<byte>, seq<byte>) -> Bytes32,                         // key, digested bytes
    macLong: (seq<byte>, seq<byte>) -> Bytes64,                          // key, digested bytes
    blockEncrypt: (seq<byte>, Bytes16) -> Bytes16,                       // key, block
    blockDecrypt: (seq<byte>, Bytes16) -> Bytes16,                       // key, block
    publicKey: Bytes32 -> Bytes32,                                       // private encryption key
    longTermSecret: (Bytes32, Bytes32) -> Bytes32,                       // own private, peer public
    shortTermSecret: (Bytes32, Bytes32, Bytes32, Bytes32) -> Bytes32,    // and server, client nonce
    signingPublicKey: Bytes64 -> Bytes32,                                // private signing key
    sign: (Bytes64, seq<byte>) -> Bytes64,                               // private signing key, message
    verify: (Bytes32, seq<byte>, Bytes64) -> bool                        // public key, message, signature
  )

  ghost predicate BlocksInvert(suite: Suite) {
    forall key: seq<byte>, b: Bytes16 ::
      suite.blockDecrypt(key, suite.blockEncrypt(key, b)) == b
      && suite.blockEncrypt(key, suite.blockDecrypt(key, b)) == b
  }

  ghost predicate LongTermAgrees(suite: Suite) {
    forall a: Bytes32, b: Bytes32 ::
      suite.longTermSecret(a, suite.publicKey(b)) == suite.longTermSecret(b, suite.publicKey(a))
  }

  ghost predicate ShortTermAgrees(suite: Suite) {
    forall a: Bytes32, b: Bytes32, server: Bytes32, client: Bytes32 ::
      suite.shortTermSecret(a, suite.publicKey(b), server, client)
      == suite.shortTermSecret(b, suite.publicKey(a), server, client)
  }

  ghost predicate SignaturesVerify(suite: Suite) {
    forall k: Bytes64, m: seq<byte> :: suite.verify(suite.signingPublicKey(k), m, suite.sign(k, m))
  }

  ghost predicate Valid(suite: Suite) {
    BlocksInvert(suite) && LongTermAgrees(suite) && ShortTermAgrees(suite) && SignaturesVerify(suite)
  }

  function XorBytes(a: seq<byte>, b: seq<byte>): (r: seq<byte>)
    requires |a| == |b|
    ensures |r| == |a|
  {
    seq(|a|, i requires 0 <= i < |a| => a[i] ^ b[i])
  }

  /** The bytes of one string combined with those of another, each with its own. */
  lemma XorBytesAt(a: seq<byte>, b: seq<byte>, r: seq<byte>)
    requires |a| == |b|
    ensures r == XorBytes(a, b) <==> |r| == |a| && forall i :: 0 <= i < |a| ==> r[i] == a[i] ^ b[i]
  {
  }

  lemma XorBytesCancels(a: seq<byte>, b: seq<byte>)
    requires |a| == |b|
    ensures XorBytes(b, XorBytes(b, a)) == a
  {
    forall i | 0 <= i < |a| ensures b[i] ^ (b[i] ^ a[i]) == a[i] {
      XorByteCancels(a[i], b[i]);
    }
  }

  lemma XorByteCancels(a: byte, b: byte)
    ensures b ^ (b ^ a) == a && (a ^ b) ^ b == a
  {
  }

  lemma XorCommutes(a: byte, b: byte)
    ensures a ^ b == b ^ a
  {
  }

  /** A suite that meets every hypothesis, so that none of the results is vacuous. */
  function ToySuite(): Suite {
    Suite(
      (key, iv, position) => LowByte(position),
      (key, message) => Zeros(32),
      (key, message) => Zeros(64),
      (key, b: Bytes16) => b,
      (key, b: Bytes16) => b,
      (k: Bytes32) => k,
      (a: Bytes32, b: Bytes32) => XorBytes(a, b),
      (a: Bytes32, b: Bytes32, server, client) => XorBytes(a, b),
      (k: Bytes64) => k[..32],
      (k: Bytes64, m) => k[..32] + Zeros(32),
      (p: Bytes32, m, s: Bytes64) => s == p + Zeros(32))
  }

  lemma ToySuiteIsValid()
    ensures Valid(ToySuite())
  {
    forall a: Bytes32, b: Bytes32 ensures XorBytes(a, b) == XorBytes(b, a) {
      forall i | 0 <= i < 32 ensures a[i] ^ b[i] == b[i] ^ a[i] {
        XorCommutes(a[i], b[i]);
      }
    }
  }

  // ----- the stream cipher

  /** s combined with the keystream of (key, iv) from the given position on. */
  function Stream(suite: Suite, key: seq<byte>, iv: seq<byte>, position: nat, s: seq<byte>): (r: seq<byte>)
    ensures |r| == |s|
  {
    seq(|s|, i requires 0 <= i < |s| => s[i] ^ suite.keystream(key, iv, position + i))
  }

  /** Every byte is hidden by the keystream byte of its own place. */
  lemma StreamAt(suite: Suite, key: seq<byte>, iv: seq<byte>, position: nat, s: seq<byte>, r: seq<byte>)
    ensures r == Stream(suite, key, iv, position, s)
       <==> |r| == |s| && forall i :: 0 <= i < |s| ==> r[i] == s[i] ^ suite.keystream(key, iv, position + i)
  {
  }

  /** A keystream as a function of key, IV and position. */
  type Keystream = (seq<byte>, seq<byte>, nat) -> byte

  /** The places in the keystreams of a key: IV and position. */
  type Place = (seq<byte>, nat)

  /** Two keystreams have the same bytes at some places. */
  ghost predicate SameOn(a: Keystream, b: Keystream, key: seq<byte>, places: set<Place>) {
    forall u | u in places :: a(key, u.0, u.1) == b(key, u.0, u.1)
  }

  /** n places from a position on. */
  function Places(iv: seq<byte>, position: nat, n: nat): set<Place> {
    set p | position <= p < position + n :: (iv, p)
  }

  lemma XorDiffers(s: byte, a: byte, b: byte)
    ensures s ^ a == s ^ b <==> a == b
  {
    XorByteCancels(a, s);
    XorByteCancels(b, s);
  }

  /** n keystream bytes from a position on. */
  function KeystreamRun(a: Keystream, key: seq<byte>, iv: seq<byte>, position: nat, n: nat): (r: seq<byte>)
    ensures |r| == n
  {
    seq(n, i requires 0 <= i < n => a(key, iv, position + i))
  }

  lemma PlacesIff(a: Keystream, b: Keystream, key: seq<byte>, iv: seq<byte>, position: nat, n: nat)
    ensures SameOn(a, b, key, Places(iv, position, n))
       <==> KeystreamRun(a, key, iv, position, n) == KeystreamRun(b, key, iv, position, n)
  {
    var x, y := KeystreamRun(a, key, iv, position, n), KeystreamRun(b, key, iv, position, n);
    if SameOn(a, b, key, Places(iv, position, n)) {
      forall i | 0 <= i < n ensures x[i] == y[i] {
        assert (iv, position + i) in Places(iv, position, n);
      }
    }
    if x == y {
      forall u | u in Places(iv, position, n) ensures a(key, u.0, u.1) == b(key, u.0, u.1) {
        assert x[u.1 - position] == y[u.1 - position];
      }
    }
  }

  /** Mixing bytes with others, when no two of these give the same. */
  lemma SameMixed<T(!new)>(mix: (T, T) -> T, s: seq<T>, a: seq<T>, b: seq<T>, x: seq<T>, y: seq<T>)
    requires |s| == |a| == |b| == |x| == |y|
    requires forall m, c, d :: mix(m, c) == mix(m, d) ==> c == d
    requires forall i :: 0 <= i < |s| ==> x[i] == mix(s[i], a[i]) && y[i] == mix(s[i], b[i])
    ensures x == y <==> a == b
  {
    if x == y {
      forall i | 0 <= i < |s| ensures a[i] == b[i] {
        assert mix(s[i], a[i]) == x[i] == y[i] == mix(s[i], b[i]);
      }
    }
  }

  lemma StreamMixes(suite: Suite, mix: (byte, byte) -> byte, key: seq<byte>, iv: seq<byte>, position: nat,
                    s: seq<byte>, i: nat)
    requires mix == ((m: byte, c: byte) => m ^ c) && i < |s|
    ensures Stream(suite, key, iv, position, s)[i]
         == mix(s[i], KeystreamRun(suite.keystream, key, iv, position, |s|)[i])
  {
  }

  /** The keystream bytes that a run uses: with another keystream it comes out the same exactly when that one
      has the same bytes at every place from the position on for as many bytes as there are. */
  lemma StreamPlaces(suite: Suite, other: Keystream, key: seq<byte>, iv: seq<byte>, position: nat, s: seq<byte>)
    ensures Stream(suite.(keystream := other), key, iv, position, s) == Stream(suite, key, iv, position, s)
       <==> SameOn(suite.keystream, other, key, Places(iv, position, |s|))
  {
    PlacesIff(suite.keystream, other, key, iv, position, |s|);
    var mix := (m: byte, c: byte) => m ^ c;
    forall m, c, d | mix(m, c) == mix(m, d) ensures c == d {
      XorDiffers(m, c, d);
    }
    var changed := suite.(keystream := other);
    forall i | 0 <= i < |s|
      ensures Stream(suite, key, iv, position, s)[i]
           == mix(s[i], KeystreamRun(suite.keystream, key, iv, position, |s|)[i])
      ensures Stream(changed, key, iv, position, s)[i]
           == mix(s[i], KeystreamRun(other, key, iv, position, |s|)[i])
    {
      StreamMixes(suite, mix, key, iv, position, s, i);
      StreamMixes(changed, mix, key, iv, position, s, i);
    }
    SameMixed(mix, s, KeystreamRun(suite.keystream, key, iv, position, |s|),
              KeystreamRun(other, key, iv, position, |s|), Stream(suite, key, iv, position, s),
              Stream(changed, key, iv, position, s));
  }

  lemma StreamCancels(suite: Suite, key: seq<byte>, iv: seq<byte>, position: nat, s: seq<byte>)
    ensures Stream(suite, key, iv, position, Stream(suite, key, iv, position, s)) == s
  {
    var r := Stream(suite, key, iv, position, Stream(suite, key, iv, position, s));
    forall i | 0 <= i < |s| ensures r[i] == s[i] {
      XorByteCancels(s[i], suite.keystream(key, iv, position + i));
    }
  }

  /** The keystream is contiguous: two runs joined at their seam are one run. */
  lemma StreamJoins(suite: Suite, key: seq<byte>, iv: seq<byte>, position: nat, s: seq<byte>, t: seq<byte>)
    ensures Stream(suite, key, iv, position, s + t)
         == Stream(suite, key, iv, position, s) + Stream(suite, key, iv, position + |s|, t)
  {
  }

  /** vccrypt_stream_context_t. */
  class StreamContext {
    const suite: Suite
    const key: seq<byte>
    var iv: seq<byte>
    var position: nat

    constructor (suite: Suite, key: seq<byte>)
      ensures this.suite == suite && this.key == key
    {
      this.suite, this.key := suite, key;
      iv, position := [], 0;
    }

    /** vccrypt_stream_continue_encryption and vccrypt_stream_continue_decryption. */
    method Continue(iv: seq<byte>, position: nat)
      modifies this
      ensures this.iv == iv && this.position == position
    {
      this.iv, this.position := iv, position;
    }

    /** vccrypt_stream_start_encryption: write the IV and advance the cursor past it. */
    method StartEncryption(iv: seq<byte>, out: array<byte>, base: nat, offset: nat) returns (next: nat)
      requires base + offset + |iv| <= out.Length
      modifies this, out
      ensures this.iv == iv && position == 0
      ensures next == offset + |iv|
      ensures out[..] == Splice(old(out[..]), base + offset, iv)
    {
      this.iv, position := iv, 0;
      ArrayCopy(iv, out, base + offset);
      next := offset + |iv|;
    }

    /** vccrypt_stream_start_decryption: read the IV and advance the cursor past it. */
    method StartDecryption(input: seq<byte>, offset: nat) returns (next: nat)
      requires offset + STREAM_IV_SIZE <= |input|
      modifies this
      ensures iv == input[offset..offset + STREAM_IV_SIZE] && position == 0
      ensures next == offset + STREAM_IV_SIZE
    {
      iv, position := input[offset..offset + STREAM_IV_SIZE], 0;
      next := offset + STREAM_IV_SIZE;
    }

    /** vccrypt_stream_encrypt and vccrypt_stream_decrypt: combine the input with the keystream,
        write it at the cursor, and advance cursor and keystream together. */
    method Crypt(input: seq<byte>, out: array<byte>, base: nat, offset: nat) returns (next: nat)
      requires base + offset + |input| <= out.Length
      modifies this`position, out
      ensures position == old(position) + |input| && iv == old(iv)
      ensures next == offset + |input|
      ensures out[..] == Splice(old(out[..]), base + offset, Stream(suite, key, iv, old(position), input))
    {
      var start := position;
      for i := 0 to |input|
        invariant position == start + i && iv == old(iv)
        invariant forall j :: 0 <= j < out.Length ==>
          out[j] == if base + offset <= j < base + offset + i
                    then input[j - base - offset] ^ suite.keystream(key, iv, start + (j - base - offset))
                    else old(out[j])
      {
        out[base + offset + i] := input[i] ^ suite.keystream(key, iv, position);
        position := position + 1;
      }
      next := offset + |input|;
    }
  }

  // ----- message authentication codes

  /** vccrypt_mac_context_t. */
  class MacContext {
    const suite: Suite
    const key: seq<byte>
    var digested: seq<byte>

    constructor (suite: Suite, key: seq<byte>)
      ensures this.suite == suite && this.key == key && digested == []
    {
      this.suite, this.key := suite, key;
      digested := [];
    }

    method Digest(message: seq<byte>)
      modifies this
      ensures digested == old(digested) + message
    {
      digested := digested + message;
    }

    method FinalizeShort() returns (mac: Bytes32)
      ensures mac == suite.macShort(key, digested)
    {
      mac := suite.macShort(key, digested);
    }

    method FinalizeLong() returns (mac: Bytes64)
      ensures mac == suite.macLong(key, digested)
    {
      mac := suite.macLong(key, digested);
    }
  }

  function Flatten(parts: seq<seq<byte>>): seq<byte>
  {
    if parts == [] then [] else parts[0] + Flatten(parts[1..])
  }

  lemma {:induction false} FlattenAppend(parts: seq<seq<byte>>, part: seq<byte>)
    ensures Flatten(parts + [part]) == Flatten(parts) + part
  {
    if parts == [] {
      assert parts + [part] == [part] && Flatten([part]) == part + Flatten([part][1..]);
    } else {
      FlattenAppend(parts[1..], part);
      assert (parts + [part])[1..] == parts[1..] + [part];
    }
  }

  lemma FlattenNext(parts: seq<seq<byte>>, i: nat)
    requires i < |parts|
    ensures Flatten(parts[..i + 1]) == Flatten(parts[..i]) + parts[i]
  {
    FlattenAppend(parts[..i], parts[i]);
    assert parts[..i + 1] == parts[..i] + [parts[i]];
  }

  /** digestArrNative: the MAC of many parts, short or long, is the MAC of their concatenation. */
  method DigestArray(suite: Suite, key: seq<byte>, messages: seq<seq<byte>>, hmacShort: bool)
    returns (mac: seq<byte>)
    ensures mac == if hmacShort then suite.macShort(key, Flatten(messages)) else suite.macLong(key, Flatten(messages))
  {
    var context := new MacContext(suite, key);
    for i := 0 to |messages|
      invariant context.digested == Flatten(messages[..i]) && fresh(context)
    {
      context.Digest(messages[i]);
      FlattenNext(messages, i);
    }
    assert messages[..|messages|] == messages;
    if hmacShort {
      mac := context.FinalizeShort();
    } else {
      mac := context.FinalizeLong();
    }
  }

  // ----- the block cipher, chained as in section 6.2 of NIST SP 800-38A

  /** vccrypt_block_encrypt. */
  function BlockEncrypt(suite: Suite, key: seq<byte>, iv: Bytes16, block: Bytes16): Bytes16 {
    suite.blockEncrypt(key, XorBytes(iv, block))
  }

  /** vccrypt_block_decrypt. */
  function BlockDecrypt(suite: Suite, key: seq<byte>, iv: Bytes16, block: Bytes16): Bytes16 {
    XorBytes(iv, suite.blockDecrypt(key, block))
  }

  /** A 32-byte key wrapped in two chained blocks behind its IV. */
  function WrapKey(suite: Suite, key: seq<byte>, iv: Bytes16, secret: Bytes32): (w: seq<byte>)
    ensures |w| == 48
  {
    var c := BlockEncrypt(suite, key, iv, secret[..16]);
    iv + c + BlockEncrypt(suite, key, c, secret[16..])
  }

  function UnwrapKey(suite: Suite, key: seq<byte>, w: seq<byte>): Bytes32
    requires |w| == 48
  {
    BlockDecrypt(suite, key, w[..16], w[16..32]) + BlockDecrypt(suite, key, w[16..32], w[32..])
  }

  lemma BlockInverse(suite: Suite, key: seq<byte>, iv: Bytes16, p: Bytes16, c: Bytes16)
    requires BlocksInvert(suite)
    ensures BlockEncrypt(suite, key, iv, p) == c <==> BlockDecrypt(suite, key, iv, c) == p
  {
    XorBytesCancels(p, iv);
    XorBytesCancels(suite.blockDecrypt(key, c), iv);
    assert suite.blockDecrypt(key, suite.blockEncrypt(key, XorBytes(iv, p))) == XorBytes(iv, p);
  }

  /** Unwrapping inverts wrapping, and nothing else unwraps to the same secret under the same IV. */
  lemma UnwrapInvertsWrap(suite: Suite, key: seq<byte>, w: seq<byte>, secret: Bytes32)
    requires BlocksInvert(suite) && |w| == 48
    ensures UnwrapKey(suite, key, w) == secret <==> w == WrapKey(suite, key, w[..16], secret)
  {
    BlockInverse(suite, key, w[..16], secret[..16], w[16..32]);
    BlockInverse(suite, key, w[16..32], secret[16..], w[32..]);
    assert w == w[..16] + w[16..32] + w[32..];
    var wrapped := WrapKey(suite, key, w[..16], secret);
    assert wrapped[16..32] == BlockEncrypt(suite, key, w[..16], secret[..16]);
    var plain := UnwrapKey(suite, key, w);
    assert secret == secret[..16] + secret[16..];
    assert plain[..16] == BlockDecrypt(suite, key, w[..16], w[16..32]);
    assert plain[16..] == BlockDecrypt(suite, key, w[16..32], w[32..]);
  }

  /** The bytes of a wrapped key: the IV, the first half of the secret encrypted under the IV, and the second
      half encrypted under the first half's ciphertext. */
  lemma WrapLayout(suite: Suite, key: seq<byte>, iv: Bytes16, secret: Bytes32, w: seq<byte>)
    requires |w| == 48
    ensures w == WrapKey(suite, key, iv, secret)
       <==> w[..16] == iv
            && w[16..32] == suite.blockEncrypt(key, XorBytes(w[..16], secret[..16]))
            && w[32..48] == suite.blockEncrypt(key, XorBytes(w[16..32], secret[16..32]))
  {
    assert w == w[..16] + w[16..32] + w[32..48];
    var wrapped := WrapKey(suite, key, iv, secret);
    assert secret[16..] == secret[16..32];
    assert wrapped[..16] == iv && wrapped[16..32] == suite.blockEncrypt(key, XorBytes(iv, secret[..16]));
    assert wrapped[32..48] == suite.blockEncrypt(key, XorBytes(wrapped[16..32], secret[16..32]));
  }

  lemma WrapRoundTrip(suite: Suite, key: seq<byte>, iv: Bytes16, secret: Bytes32)
    requires BlocksInvert(suite)
    ensures UnwrapKey(suite, key, WrapKey(suite, key, iv, secret)) == secret
  {
    var w := WrapKey(suite, key, iv, secret);
    assert w[..16] == iv;
    UnwrapInvertsWrap(suite, key, w, secret);
  }

  /** The wrapping steps of encryptKey and encryptNative: IV, first block, and a second block chained on
      the bytes just written. */
  method WrapKeyInto(suite: Suite, key: seq<byte>, iv: Bytes16, secret: Bytes32, out: array<byte>)
    requires 48 <= out.Length
    modifies out
    ensures out[..] == WrapKey(suite, key, iv, secret) + old(out[48..])
  {
    ArrayCopy(iv, out, 0);
    assert out[..16] == iv;
    ArrayCopy(BlockEncrypt(suite, key, out[..16], secret[..16]), out, 16);
    assert out[..16] == iv;
    ArrayCopy(BlockEncrypt(suite, key, out[16..32], secret[16..]), out, 32);
  }

  /** The unwrapping steps of decryptSecretNative and decryptNative. */
  method UnwrapKeyInto(suite: Suite, key: seq<byte>, wrapped: seq<byte>, out: array<byte>)
    requires 48 <= |wrapped| && 32 <= out.Length
    modifies out
    ensures out[..] == UnwrapKey(suite, key, wrapped[..48]) + old(out[32..])
  {
    ArrayCopy(BlockDecrypt(suite, key, wrapped[..16], wrapped[16..32]), out, 0);
    ArrayCopy(BlockDecrypt(suite, key, wrapped[16..32], wrapped[32..48]), out, 16);
    ghost var w := wrapped[..48];
    assert w[..16] == wrapped[..16] && w[16..32] == wrapped[16..32] && w[32..] == wrapped[32..48];
  }
}
