/** The three UUID codecs of the repository: UuidUtil and CertificateBuilder in Java, and uuid_conv.c. */
module Uuids {
  import opened Bytes

  /** java.util.UUID: two longs, kept here as the unsigned numbers with the same 64 bits. */
  datatype UUID = UUID(msb: ulong, lsb: ulong)

  /** UuidUtil.getBytesFromUUID and CertificateBuilder.serializeUUID: two ByteBuffer.putLong calls. */
  function UuidBytes(u: UUID): (s: seq<byte>)
    ensures |s| == 16
  {
    PutLong(u.msb) + PutLong(u.lsb)
  }

  /** One ByteBuffer.getLong. */
  function GetLong(s: seq<byte>): ulong
    requires |s| == 8
  {
    FromBEBound8(s);
    FromBE(s)
  }

  /** UuidUtil.getUUIDFromBytes and CertificateFieldReader.asUUID: two ByteBuffer.getLong calls. */
  function UuidFromBytes(s: seq<byte>): UUID
    requires |s| == 16
  {
    UUID(GetLong(s[..8]), GetLong(s[8..]))
  }

  /** One half of uuidFromBytes in C: shift eight bytes into place. */
  function ShiftIn(s: seq<byte>): bv64
    requires |s| == 8
  {
    ((s[0] as bv64) << 56)
    | ((s[1] as bv64) << 48)
    | ((s[2] as bv64) << 40)
    | ((s[3] as bv64) << 32)
    | ((s[4] as bv64) << 24)
    | ((s[5] as bv64) << 16)
    | ((s[6] as bv64) << 8)
    | (s[7] as bv64)
  }

  /** One half of uuidToBytes in C: mask eight bytes out. */
  function MaskOut(x: bv64): (s: seq<byte>)
    ensures |s| == 8
  {
    [ ((x & 0xFF00_0000_0000_0000) >> 56) as byte,
      ((x & 0x00FF_0000_0000_0000) >> 48) as byte,
      ((x & 0x0000_FF00_0000_0000) >> 40) as byte,
      ((x & 0x0000_00FF_0000_0000) >> 32) as byte,
      ((x & 0x0000_0000_FF00_0000) >> 24) as byte,
      ((x & 0x0000_0000_00FF_0000) >> 16) as byte,
      ((x & 0x0000_0000_0000_FF00) >> 8) as byte,
      (x & 0x0000_0000_0000_00FF) as byte ]
  }

  lemma ShiftInMaskOut(x: bv64)
    ensures ShiftIn(MaskOut(x)) == x
  {
  }

  lemma ShiftOne(x: bv64, b: byte)
    requires x as int < 0x0100_0000_0000_0000
    ensures ((x << 8) | (b as bv64)) as int == 256 * (x as int) + b as int
  {
    assert x < 0x0100_0000_0000_0000;
  }

  /** Reading one more byte, by shifting and by Horner's rule. */
  lemma ShiftStep(s: seq<byte>, k: nat, x: bv64)
    requires k < |s| && k < 8
    requires FromBE(s[..k]) == x as int
    ensures FromBE(s[..k + 1]) == ((x << 8) | (s[k] as bv64)) as int
  {
    FromBEBound(s[..k]);
    PowGrows(k, 7);
    Pow256Values();
    ShiftOne(x, s[k]);
    assert s[..k + 1][..k] == s[..k];
  }

  lemma {:induction false} PowGrows(k: nat, n: nat)
    requires k <= n
    ensures Pow256(k) <= Pow256(n)
  {
    if k < n {
      PowGrows(k, n - 1);
    }
  }

  /** Shifting the bytes in one after the other. */
  function ShiftAll(s: seq<byte>): bv64
  {
    if s == [] then 0 else (ShiftAll(s[..|s| - 1]) << 8) | (s[|s| - 1] as bv64)
  }

  lemma {:induction false} ShiftAllIsFromBE(s: seq<byte>)
    requires |s| <= 8
    ensures ShiftAll(s) as int == FromBE(s)
  {
    if s != [] {
      var k := |s| - 1;
      ShiftAllIsFromBE(s[..k]);
      ShiftStep(s, k, ShiftAll(s[..k]));
      assert s[..k + 1] == s;
    }
  }

  lemma ShiftsDistribute(b0: bv64, b1: bv64, b2: bv64, b3: bv64, b4: bv64, b5: bv64, b6: bv64, b7: bv64)
    ensures (b0 << 56) | (b1 << 48) | (b2 << 40) | (b3 << 32) | (b4 << 24) | (b5 << 16) | (b6 << 8) | b7
         == (((((((((((((b0 << 8) | b1) << 8) | b2) << 8) | b3) << 8) | b4) << 8) | b5) << 8) | b6) << 8) | b7
  {
  }

  lemma ShiftAllStep(s: seq<byte>, k: nat)
    requires k < |s|
    ensures ShiftAll(s[..k + 1]) == (ShiftAll(s[..k]) << 8) | (s[k] as bv64)
  {
    assert s[..k + 1][..k] == s[..k];
  }

  lemma ShiftAllFour(s: seq<byte>)
    requires |s| >= 4
    ensures ShiftAll(s[..4])
         == (((((s[0] as bv64 << 8) | s[1] as bv64) << 8) | s[2] as bv64) << 8) | s[3] as bv64
  {
    assert ShiftAll(s[..1]) == s[0] as bv64;
    ShiftAllStep(s, 1);
    ShiftAllStep(s, 2);
    ShiftAllStep(s, 3);
  }

  lemma ShiftInIsShiftAll(s: seq<byte>)
    requires |s| == 8
    ensures ShiftIn(s) == ShiftAll(s)
  {
    ShiftsDistribute(s[0] as bv64, s[1] as bv64, s[2] as bv64, s[3] as bv64,
                     s[4] as bv64, s[5] as bv64, s[6] as bv64, s[7] as bv64);
    ShiftAllFour(s);
    ShiftAllStep(s, 4);
    ShiftAllStep(s, 5);
    ShiftAllStep(s, 6);
    ShiftAllStep(s, 7);
    assert s[..8] == s;
  }

  /** The C shifts read the number that ByteBuffer reads. */
  lemma ShiftInIsFromBE(s: seq<byte>)
    requires |s| == 8
    ensures ShiftIn(s) as int == FromBE(s)
  {
    ShiftInIsShiftAll(s);
    ShiftAllIsFromBE(s);
  }

  /** putLong and getLong are inverses. */
  lemma LongBijection(x: ulong, s: seq<byte>)
    requires |s| == 8
    ensures GetLong(PutLong(x)) == x
    ensures PutLong(GetLong(s)) == s
  {
    Pow256Values();
    FromBEIs(PutLong(x), x, 8);
    ToFromBE(s);
  }

  function Cast(x: ulong): bv64 {
    x as bv64
  }

  function Number(b: bv64): (x: ulong) {
    b as int
  }

  lemma CastNumber(b: bv64)
    ensures Cast(Number(b)) == b
  {
  }

  /** A long survives the cast to its 64 bits. */
  lemma NumberCast(x: ulong)
    ensures Number(Cast(x)) == x
  {
    var s := PutLong(x);
    LongBijection(x, s);
    ShiftInIsFromBE(s);
    NumberCastOf(x, ShiftIn(s));
  }

  lemma NumberCastOf(x: ulong, b: bv64)
    requires x == Number(b)
    ensures Number(Cast(x)) == x
  {
    CastNumber(b);
  }

  /** The Java codec is a bijection between UUIDs and 16-byte strings. */
  lemma UuidBijection(u: UUID, s: seq<byte>)
    requires |s| == 16
    ensures UuidFromBytes(UuidBytes(u)) == u
    ensures UuidBytes(UuidFromBytes(s)) == s
  {
    assert UuidBytes(u)[..8] == PutLong(u.msb) && UuidBytes(u)[8..] == PutLong(u.lsb);
    LongBijection(u.msb, s[..8]);
    LongBijection(u.lsb, s[8..]);
  }

  /** The most significant half comes first, each half most significant byte first. */
  lemma UuidHalves(u: UUID)
    ensures FromBE(UuidBytes(u)[..8]) == u.msb && FromBE(UuidBytes(u)[8..]) == u.lsb
  {
    assert UuidBytes(u)[..8] == PutLong(u.msb) && UuidBytes(u)[8..] == PutLong(u.lsb);
    LongBijection(u.msb, PutLong(u.msb));
    LongBijection(u.lsb, PutLong(u.lsb));
  }

  /** The C masks write the bytes that ByteBuffer writes. */
  lemma MaskOutIsPutLong(x: ulong)
    ensures MaskOut(Cast(x)) == PutLong(x)
  {
    ShiftInMaskOut(Cast(x));
    ShiftInIsFromBE(MaskOut(Cast(x)));
    ToFromBE(MaskOut(Cast(x)));
    NumberCast(x);
  }

  lemma EightBytes(s: seq<byte>)
    requires |s| == 8
    ensures s == [s[0], s[1], s[2], s[3], s[4], s[5], s[6], s[7]]
  {
  }

  /** Half of uuidToBytes: the statements for one of the two longs. */
  method WriteHalf(x: bv64, uuidBytes: array<byte>, at: nat)
    requires at + 8 <= uuidBytes.Length
    modifies uuidBytes
    ensures uuidBytes[..at] == old(uuidBytes[..at])
    ensures uuidBytes[at..at + 8] == MaskOut(x)
    ensures uuidBytes[at + 8..] == old(uuidBytes[at + 8..])
  {
    uuidBytes[at] := ((x & 0xFF00_0000_0000_0000) >> 56) as byte;
    uuidBytes[at + 1] := ((x & 0x00FF_0000_0000_0000) >> 48) as byte;
    uuidBytes[at + 2] := ((x & 0x0000_FF00_0000_0000) >> 40) as byte;
    uuidBytes[at + 3] := ((x & 0x0000_00FF_0000_0000) >> 32) as byte;
    uuidBytes[at + 4] := ((x & 0x0000_0000_FF00_0000) >> 24) as byte;
    uuidBytes[at + 5] := ((x & 0x0000_0000_00FF_0000) >> 16) as byte;
    uuidBytes[at + 6] := ((x & 0x0000_0000_0000_FF00) >> 8) as byte;
    uuidBytes[at + 7] := (x & 0x0000_0000_0000_00FF) as byte;
    EightBytes(uuidBytes[at..at + 8]);
  }

  /** uuidToBytes: the caller's buffer ends up with the bytes that the Java codecs produce. */
  method UuidToBytesNative(u: UUID, uuidBytes: array<byte>)
    requires uuidBytes.Length == 16
    modifies uuidBytes
    ensures uuidBytes[..] == UuidBytes(u)
  {
    MaskOutIsPutLong(u.msb);
    MaskOutIsPutLong(u.lsb);
    WriteHalf(Cast(u.msb), uuidBytes, 0);
    assert uuidBytes[..8] == PutLong(u.msb);
    WriteHalf(Cast(u.lsb), uuidBytes, 8);
    assert uuidBytes[..] == uuidBytes[..8] + uuidBytes[8..16];
  }

  /** uuidFromBytes: the C code reads the UUID that the Java codecs read. */
  method UuidFromBytesNative(uuidBytes: array<byte>) returns (u: UUID)
    requires uuidBytes.Length == 16
    ensures u == UuidFromBytes(uuidBytes[..])
    ensures UuidBytes(u) == uuidBytes[..]
  {
    ShiftInIsFromBE(uuidBytes[..8]);
    ShiftInIsFromBE(uuidBytes[8..]);
    u := UUID(Number(ShiftIn(uuidBytes[..8])), Number(ShiftIn(uuidBytes[8..])));
    assert uuidBytes[..][..8] == uuidBytes[..8] && uuidBytes[..][8..] == uuidBytes[8..];
    UuidBijection(u, uuidBytes[..]);
  }
}
