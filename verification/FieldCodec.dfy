/** Typed field values: the serialize methods of CertificateBuilder and the CertificateFieldReader. */
module FieldCodec {
  import opened Bytes
  import opened Results
  import opened Uuids

  /** serializeByte, serializeShort, serializeInt and serializeLong, by their width. A short is given as
      an int and narrowed by keeping its low bytes. */
  function SerializeSigned(value: int, width: nat): (s: seq<byte>)
    ensures |s| == width
  {
    ToBE(value, width)
  }

  /** A long result, wrapped. */
  function Wrap(v: int): long {
    var u := v % TWO_64;
    if u < TWO_63 then u else u - TWO_64
  }

  /** serializeDate: Instant.getEpochSecond rounds the milliseconds towards minus infinity. */
  function SerializeDate(millis: long): (s: seq<byte>)
    ensures |s| == 8
  {
    ToBE(millis / 1000, 8)
  }

  /** What asDate makes of eight bytes: the seconds times 1000, in long arithmetic. */
  function DateMillis(s: seq<byte>): long {
    Wrap(FromSignedBE(s) * 1000)
  }

  /** CertificateFieldReader: a ByteBuffer over the field value. */
  class CertificateFieldReader {
    const value: seq<byte>
    var position: nat

    constructor (fieldValue: seq<byte>)
      ensures value == fieldValue && position == 0
    {
      value := fieldValue;
      position := 0;
    }

    ghost predicate Valid()
      reads this
    {
      position <= |value|
    }

    ghost function Remaining(): seq<byte>
      reads this
      requires Valid()
    {
      value[position..]
    }

    /** asByte, asShort, asInt and asLong: exactly the right number of bytes must be left, and a
        successful conversion consumes them. */
    method AsSigned(width: nat) returns (r: Result<int>)
      requires Valid()
      modifies this
      ensures Valid()
      ensures r == if |old(Remaining())| == width then Ok(FromSignedBE(old(Remaining()))) else Err(FieldConversion)
      ensures Remaining() == if r.Ok? then [] else old(Remaining())
    {
      if |value| - position < width || |value| - position > width {
        return Err(FieldConversion);
      }
      r := Ok(FromSignedBE(value[position..position + width]));
      assert value[position..position + width] == value[position..];
      position := position + width;
    }

    method AsUUID() returns (r: Result<UUID>)
      requires Valid()
      modifies this
      ensures Valid()
      ensures r == if |old(Remaining())| == 16 then Ok(UuidFromBytes(old(Remaining()))) else Err(FieldConversion)
      ensures Remaining() == if r.Ok? then [] else old(Remaining())
    {
      if |value| - position < 16 || |value| - position > 16 {
        return Err(FieldConversion);
      }
      ghost var all := value[position..];
      var msb := GetLong(value[position..position + 8]);
      position := position + 8;
      assert value[position - 8..position] == all[..8];
      var lsb := GetLong(value[position..position + 8]);
      position := position + 8;
      assert value[position - 8..position] == all[8..];
      r := Ok(UUID(msb, lsb));
    }

    method AsDate() returns (r: Result<long>)
      requires Valid()
      modifies this
      ensures Valid()
      ensures r == if |old(Remaining())| == 8 then Ok(DateMillis(old(Remaining()))) else Err(FieldConversion)
      ensures Remaining() == if r.Ok? then [] else old(Remaining())
    {
      var seconds := AsSigned(8);
      if seconds.Err? {
        return Err(FieldConversion);
      }
      r := Ok(Wrap(seconds.value * 1000));
    }

    /** asByteArray hands out the whole value, whatever was read before. */
    method AsByteArray() returns (bytes: seq<byte>)
      ensures bytes == value
    {
      bytes := value;
    }
  }

  /** Bytes, shorts, ints and longs are read back exactly, over their full two's-complement ranges; a
      number outside the range comes back as the number of the range with the same low bits. */
  lemma SignedFieldRoundTrip(value: int, width: nat)
    ensures var back := FromSignedBE(SerializeSigned(value, width));
            && -Pow256(width) <= 2 * back < Pow256(width)
            && back % Pow256(width) == value % Pow256(width)
            && (-Pow256(width) <= 2 * value < Pow256(width) ==> back == value)
  {
    var s := SerializeSigned(value, width);
    SignedBytesRoundTrip(s);
    FromToBE(FromSignedBE(s), width);
    FromToBE(value, width);
    if -Pow256(width) <= 2 * value < Pow256(width) {
      SignedRoundTrip(value, width);
    }
  }

  lemma UuidFieldRoundTrip(u: UUID)
    ensures |UuidBytes(u)| == 16 && UuidFromBytes(UuidBytes(u)) == u
  {
    UuidBijection(u, UuidBytes(u));
  }

  /** A date comes back as its milliseconds rounded down to a whole second, unless that many
      milliseconds do not fit a long, which happens for the 808 smallest dates alone. */
  lemma DateRoundTripIff(millis: long)
    ensures DateMillis(SerializeDate(millis)) == millis - millis % 1000 <==> millis >= -9223372036854775000
  {
    DateSeconds(millis);
    WholeSeconds(millis);
  }

  /** Any eight bytes are read as a number of seconds, exactly where their milliseconds fit a long and modulo 2^64
      elsewhere. */
  lemma DateOfSeconds(s: seq<byte>)
    requires |s| == 8
    ensures DateMillis(s) % TWO_64 == FromSignedBE(s) * 1000 % TWO_64
    ensures DateMillis(s) == FromSignedBE(s) * 1000
       <==> -0x8000_0000_0000_0000 <= FromSignedBE(s) * 1000 < 0x8000_0000_0000_0000
  {
  }

  /** What is written for a date is its second, rounded down. */
  lemma DateSeconds(millis: long)
    ensures FromSignedBE(SerializeDate(millis)) == millis / 1000
  {
    Pow256Values();
    SignedRoundTrip(millis / 1000, 8);
  }

  lemma WholeSeconds(millis: long)
    ensures Wrap(millis / 1000 * 1000) == millis - millis % 1000 <==> millis >= -9223372036854775000
  {
  }

  /** Those 808 dates come back 2^64 milliseconds late. */
  lemma SmallestDatesWrap(millis: long)
    requires millis < -9223372036854775000
    ensures DateMillis(SerializeDate(millis)) == millis - millis % 1000 + TWO_64
  {
    DateSeconds(millis);
    SmallestSeconds(millis);
  }

  lemma SmallestSeconds(millis: long)
    requires millis < -9223372036854775000
    ensures Wrap(millis / 1000 * 1000) == millis - millis % 1000 + TWO_64
  {
  }
}
