/** Bytes and two's-complement big-endian numbers, as java.nio.ByteBuffer and htonl lay them out. */
module Bytes {

  type byte = bv8

  const TWO_16: int := 0x1_0000
  const TWO_32: int := 0x1_0000_0000
  const TWO_63: int := 0x8000_0000_0000_0000
  const TWO_64: int := 0x1_0000_0000_0000_0000

  /** The unsigned number with the bits of a Java long, or a C uint64_t. */
  type ulong = v: int | 0 <= v < TWO_64

  /** A Java long. */
  type long = v: int | -TWO_63 <= v < TWO_63

  function Pow256(n: nat): (p: int)
    ensures p > 0
  {
    if n == 0 then 1 else 256 * Pow256(n - 1)
  }

  lemma Pow256Values()
    ensures Pow256(1) == 0x100 && Pow256(2) == TWO_16 && Pow256(4) == TWO_32 && Pow256(8) == TWO_64
  {
    assert Pow256(2) == 256 * Pow256(1);
    assert Pow256(3) == 256 * Pow256(2);
    assert Pow256(4) == 256 * Pow256(3);
    assert Pow256(5) == 256 * Pow256(4);
    assert Pow256(6) == 256 * Pow256(5);
    assert Pow256(7) == 256 * Pow256(6);
  }

  function ByteOf(m: int): byte
    requires 0 <= m < 256
  {
    m as byte
  }

  lemma ByteOfNumber(b: byte)
    ensures ByteOf(b as int) == b
  {
  }

  /** Every number below 256 is the number of a byte, found by counting up to it. */
  lemma {:induction false} CountTo(m: int) returns (b: byte)
    requires 0 <= m < 256
    ensures b as int == m
  {
    if m == 0 {
      b := 0;
    } else {
      var c := CountTo(m - 1);
      b := c + 1;
    }
  }

  lemma NumberOfByteOf(m: int)
    requires 0 <= m < 256
    ensures ByteOf(m) as int == m
  {
    var b := CountTo(m);
    ByteOfNumber(b);
  }

  /** The least significant byte of a two's-complement number. */
  function LowByte(v: int): (b: byte)
    ensures b as int == v % 256
  {
    NumberOfByteOf(v % 256);
    ByteOf(v % 256)
  }

  /** The low n bytes of the two's-complement representation of v, most significant byte first. */
  function ToBE(v: int, n: nat): (s: seq<byte>)
    ensures |s| == n
    decreases n, v
  {
    if n == 0 then [] else ToBE(v / 256, n - 1) + [LowByte(v)]
  }

  /** ByteBuffer.putLong. */
  function PutLong(v: int): (s: seq<byte>)
    ensures |s| == 8
  {
    ToBE(v, 8)
  }

  /** The unsigned number whose big-endian bytes are s. */
  function FromBE(s: seq<byte>): (v: int)
    ensures 0 <= v
  {
    if s == [] then 0 else 256 * FromBE(s[..|s| - 1]) + s[|s| - 1] as int
  }

  /** The signed reading of an unsigned number below m. */
  function Signed(u: int, m: int): int {
    if 2 * u < m then u else u - m
  }

  /** The signed number whose two's-complement big-endian bytes are s. */
  function FromSignedBE(s: seq<byte>): int
  {
    Signed(FromBE(s), Pow256(|s|))
  }

  lemma {:induction false} FromBEBound(s: seq<byte>)
    ensures FromBE(s) < Pow256(|s|)
  {
    if s != [] {
      FromBEBound(s[..|s| - 1]);
    }
  }

  lemma MulAtLeast(m: int, d: int)
    requires m > 0 && d >= 1
    ensures m * d >= m
  {
    assert m * d == m * (d - 1) + m;
  }

  lemma FromBEBound8(s: seq<byte>)
    requires |s| == 8
    ensures FromBE(s) < TWO_64
  {
    Pow256Values();
    FromBEBound(s);
  }

  /** Euclidean remainders are unique. */
  lemma ModUnique(v: int, m: int, q: int, r: int)
    requires v == m * q + r && 0 <= r < m
    ensures v % m == r && v / m == q
  {
    var q', r' := v / m, v % m;
    assert v == m * q' + r';
    assert m * (q' - q) == m * q' - m * q == r - r';
    assert m * (q - q') == r' - r;
    if q' > q {
      MulAtLeast(m, q' - q);
    } else if q' < q {
      MulAtLeast(m, q - q');
    }
  }

  lemma ModShift(u: int, m: int)
    requires 0 <= u < m
    ensures u % m == u && (u - m) % m == u
  {
    ModUnique(u, m, 0, u);
    ModUnique(u - m, m, -1, u);
  }

  lemma ModScale(q: int, p: int, r: int)
    requires p > 0 && 0 <= r < 256
    ensures (256 * q + r) % (256 * p) == 256 * (q % p) + r
  {
    var d := q / p;
    assert q == p * d + q % p;
    assert 256 * (p * d) == (256 * p) * d;
    ModUnique(256 * q + r, 256 * p, d, 256 * (q % p) + r);
  }

  lemma FromBEAppend(s: seq<byte>, b: byte)
    ensures FromBE(s + [b]) == 256 * FromBE(s) + b as int
  {
    assert (s + [b])[..|s|] == s;
  }

  /** Writing n big-endian bytes and reading them back keeps the number modulo 256^n. */
  lemma {:induction false} FromToBE(v: int, n: nat)
    ensures FromBE(ToBE(v, n)) == v % Pow256(n)
    decreases n
  {
    if n > 0 {
      var q := v / 256;
      FromToBE(q, n - 1);
      FromBEAppend(ToBE(q, n - 1), LowByte(v));
      ModScale(q, Pow256(n - 1), v % 256);
    }
  }

  lemma FromToBE2(v: int)
    ensures FromBE(ToBE(v, 2)) == v % TWO_16
  {
    Pow256Values();
    FromToBE(v, 2);
  }

  lemma FromToBE8(v: int)
    ensures FromBE(ToBE(v, 8)) == v % TWO_64
  {
    Pow256Values();
    FromToBE(v, 8);
  }

  lemma ToBEInjective(v: int, w: int, n: nat)
    requires 0 <= v < Pow256(n) && 0 <= w < Pow256(n) && ToBE(v, n) == ToBE(w, n)
    ensures v == w
  {
    FromToBE(v, n);
    FromToBE(w, n);
    ModUnique(v, Pow256(n), 0, v);
    ModUnique(w, Pow256(n), 0, w);
  }

  /** n bytes spell a number below 256^n exactly when they are its representation. */
  lemma FromBEIs(s: seq<byte>, v: int, n: nat)
    requires |s| == n && 0 <= v < Pow256(n)
    ensures FromBE(s) == v <==> s == ToBE(v, n)
  {
    FromToBE(v, n);
    ToFromBE(s);
    ModUnique(v, Pow256(n), 0, v);
  }

  lemma {:induction false} ToFromBE(s: seq<byte>)
    ensures ToBE(FromBE(s), |s|) == s
  {
    if s != [] {
      ToFromBE(s[..|s| - 1]);
      ModUnique(FromBE(s), 256, FromBE(s[..|s| - 1]), s[|s| - 1] as int);
    }
  }

  /** Numbers that agree modulo 256^n have the same n low bytes. */
  lemma ToBEModulo(v: int, w: int, n: nat)
    requires v % Pow256(n) == w % Pow256(n)
    ensures ToBE(v, n) == ToBE(w, n)
  {
    FromToBE(v, n);
    FromToBE(w, n);
    ToFromBE(ToBE(v, n));
    ToFromBE(ToBE(w, n));
  }

  lemma ToBEShift(u: int, n: nat)
    requires 0 <= u < Pow256(n)
    ensures ToBE(u - Pow256(n), n) == ToBE(u, n)
  {
    ModShift(u, Pow256(n));
    ToBEModulo(u - Pow256(n), u, n);
  }

  lemma ToBESigned(u: int, n: nat)
    requires 0 <= u < Pow256(n)
    ensures ToBE(Signed(u, Pow256(n)), n) == ToBE(u, n)
    ensures -Pow256(n) <= 2 * Signed(u, Pow256(n)) < Pow256(n)
  {
    ToBEShift(u, n);
  }

  /** Signed numbers of n bytes survive being written and read back, over their whole range. */
  lemma SignedRoundTrip(v: int, n: nat)
    requires -Pow256(n) <= 2 * v < Pow256(n)
    ensures FromSignedBE(ToBE(v, n)) == v
  {
    FromToBE(v, n);
    var p := Pow256(n);
    if v >= 0 {
      ModShift(v, p);
    } else {
      ModShift(v + p, p);
    }
  }

  /** Every n-byte string is the representation of exactly the signed number read from it. */
  lemma SignedBytesRoundTrip(s: seq<byte>)
    ensures ToBE(FromSignedBE(s), |s|) == s
    ensures -Pow256(|s|) <= 2 * FromSignedBE(s) < Pow256(|s|)
  {
    FromBEBound(s);
    ToFromBE(s);
    ToBESigned(FromBE(s), |s|);
  }

  /** The most significant byte comes first. */
  lemma {:induction false} DigitOfBE(v: int, n: nat, i: nat)
    requires i < n
    ensures ToBE(v, n)[i] as int == v / Pow256(n - 1 - i) % 256
    decreases n
  {
    if i < n - 1 {
      DigitOfBE(v / 256, n - 1, i);
      DivTwice(v, Pow256(n - 2 - i));
    }
  }

  lemma DivTwice(v: int, p: int)
    requires p > 0
    ensures v / 256 / p == v / (256 * p)
  {
    var q, r := v / 256 / p, v / 256 % p;
    assert v == 256 * (p * q + r) + v % 256;
    assert 256 * (p * q + r) == (256 * p) * q + 256 * r;
    ModUnique(v, 256 * p, q, 256 * r + v % 256);
  }

  lemma TwoBytes(a: byte, b: byte)
    ensures ToBE(256 * a as int + b as int, 2) == [a, b]
    ensures FromBE([a, b]) == 256 * a as int + b as int
  {
    FromBEAppend([], a);
    FromBEAppend([a], b);
    assert [] + [a] == [a] && [a] + [b] == [a, b];
    ToFromBE([a, b]);
  }

  lemma TwoBytesOf(v: int, a: byte, b: byte)
    requires v == 256 * a as int + b as int
    ensures ToBE(v, 2) == [a, b]
  {
    TwoBytes(a, b);
  }

  lemma TwoBytesSpell(s: seq<byte>)
    requires |s| == 2
    ensures FromBE(s) == 256 * s[0] as int + s[1] as int
  {
    TwoBytes(s[0], s[1]);
    assert s == [s[0], s[1]];
  }

  /** Four bytes and the number they spell. */
  lemma FourBytes(a: byte, b: byte, c: byte, d: byte)
    ensures ToBE(0x100_0000 * a as int + 0x1_0000 * b as int + 256 * c as int + d as int, 4) == [a, b, c, d]
    ensures FromBE([a, b, c, d]) == 0x100_0000 * a as int + 0x1_0000 * b as int + 256 * c as int + d as int
  {
    TwoBytes(a, b);
    FromBEAppend([a, b], c);
    FromBEAppend([a, b, c], d);
    assert [a, b] + [c] == [a, b, c] && [a, b, c] + [d] == [a, b, c, d];
    ToFromBE([a, b, c, d]);
  }

  lemma FourBytesOf(v: int, a: byte, b: byte, c: byte, d: byte)
    requires v == 0x100_0000 * a as int + 0x1_0000 * b as int + 256 * c as int + d as int
    ensures ToBE(v, 4) == [a, b, c, d]
  {
    FourBytes(a, b, c, d);
  }

  lemma DropToEnd<T>(s: seq<T>, k: nat)
    requires k <= |s|
    ensures s[k..|s|] == s[k..]
  {
  }

  lemma Assoc<T>(a: seq<T>, b: seq<T>, c: seq<T>)
    ensures (a + b) + c == a + (b + c)
  {
  }

  lemma SplitAround<T>(s: seq<T>, i: nat)
    requires i < |s|
    ensures s == s[..i] + ([s[i]] + s[i + 1..])
  {
  }

  /** s with the bytes from position at on replaced by v. */
  function Splice(s: seq<byte>, at: nat, v: seq<byte>): (r: seq<byte>)
    requires at + |v| <= |s|
    ensures |r| == |s|
  {
    s[..at] + v + s[at + |v|..]
  }

  /** System.arraycopy, or memcpy, of a whole array into another at a given position. */
  method ArrayCopy(src: seq<byte>, dst: array<byte>, at: nat)
    requires at + |src| <= dst.Length
    modifies dst
    ensures dst[..] == Splice(old(dst[..]), at, src)
  {
    forall i | 0 <= i < |src| {
      dst[at + i] := src[i];
    }
  }

  function Zeros(n: nat): (s: seq<byte>)
    ensures |s| == n
  {
    seq(n, _ => 0)
  }
}
