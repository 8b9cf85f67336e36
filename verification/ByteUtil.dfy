/** ByteUtil and EqualsUtil. */
module ByteUtil {
  import opened Bytes
  import opened Results

  /** ByteUtil.htonl: the 32-bit value in network order. */
  function Htonl(v: int): (s: seq<byte>)
    ensures |s| == 4
  {
    ToBE(v, 4)
  }

  /** ByteUtil.htonll. */
  function Htonll(v: long): (s: seq<byte>)
    ensures |s| == 8
  {
    PutLong(v)
  }

  /** ByteUtil.ntohl: four bytes padded to a non-negative long. */
  function Ntohl(s: seq<byte>): (r: Result<long>)
    ensures r.Ok? <==> |s| == 4
    ensures r.Ok? ==> 0 <= r.value < TWO_32
  {
    if |s| != 4 then Err(IllegalArgument)
    else
      Pow256Values();
      FromBEBound(s);
      Ok(FromBE(s))
  }

  /** ntohl undoes htonl modulo 2^32, and on four bytes htonl undoes ntohl. */
  lemma NtohlHtonl(v: int, s: seq<byte>)
    ensures Ntohl(Htonl(v)) == Ok(v % TWO_32)
    ensures |s| == 4 ==> Htonl(Ntohl(s).value) == s
  {
    Pow256Values();
    FromToBE(v, 4);
    ToFromBE(s);
  }

  /** Network order is most significant byte first. */
  lemma NetworkOrder(a: byte, b: byte, c: byte, d: byte)
    ensures var v := 0x100_0000 * a as int + 0x1_0000 * b as int + 256 * c as int + d as int;
            Htonl(v) == [a, b, c, d] && Ntohl([a, b, c, d]) == Ok(v)
  {
    FourBytes(a, b, c, d);
  }

  lemma SmallNumber(v: int, c: byte, d: byte)
    requires v == 256 * c as int + d as int
    ensures Htonl(v) == [0, 0, c, d]
  {
    NetworkOrder(0, 0, c, d);
  }

  /** Four bytes spell a small number exactly when they are its htonl. */
  lemma NtohlIs(s: seq<byte>, v: int)
    requires |s| == 4 && 0 <= v < TWO_32
    ensures FromBE(s) == v <==> s == Htonl(v)
  {
    Pow256Values();
    FromBEIs(s, v, 4);
  }

  /** ByteUtil.merge. */
  method Merge(first: seq<byte>, second: seq<byte>) returns (joined: seq<byte>)
    ensures joined == first + second
  {
    var joinedArray := new byte[|first| + |second|](_ => 0);
    ArrayCopy(first, joinedArray, 0);
    ArrayCopy(second, joinedArray, |first|);
    joined := joinedArray[..];
  }

  /** EqualsUtil.constantTimeEqual, null arguments included: the full scan decides equality. */
  method ConstantTimeEqual(a: Option<seq<byte>>, b: Option<seq<byte>>) returns (equal: bool)
    ensures equal <==> a == b
  {
    if a.None? && b.None? {
      return true;
    }
    if a.None? || b.None? {
      return false;
    }
    var x, y := a.value, b.value;
    var n := if |x| > |y| then |x| else |y|;
    equal := true;
    for i := 0 to n
      invariant equal <==> i <= |x| && i <= |y| && x[..i] == y[..i]
    {
      if i >= |x| || i >= |y| || x[i] != y[i] {
        equal := false;
      }
    }
    assert x[..|x|] == x && y[..|y|] == y;
  }
}
