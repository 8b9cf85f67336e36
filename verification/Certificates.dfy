/** Certificates as type-length-value records: building, emitting, signing, parsing, attesting, reading. */
module Certificates {
  import opened Bytes
  import opened Results
  import opened Uuids
  import opened Vccrypt

  const FIELD_TYPE_SIZE: nat := 2
  const FIELD_SIZE_SIZE: nat := 2
  const SIGNATURE_SIZE: nat := 64
  const SIGNING_SIZE: nat := 2 * (FIELD_TYPE_SIZE + FIELD_SIZE_SIZE) + 16 + SIGNATURE_SIZE

  const CERTIFICATE_ID: int := 0x0038
  const ARTIFACT_ID: int := 0x0041
  const SIGNER_ID: int := 0x0050
  const SIGNATURE: int := 0x0051

  /** One entry of a field list. */
  datatype Field = Field(id: int, value: seq<byte>)

  // ----- the wire format

  function FieldBytes(f: Field): (s: seq<byte>)
    ensures |s| == 4 + |f.value|
  {
    ToBE(f.id, 2) + ToBE(|f.value|, 2) + f.value
  }

  function Serialize(fields: seq<Field>): seq<byte> {
    if fields == [] then [] else FieldBytes(fields[0]) + Serialize(fields[1..])
  }

  ghost predicate SmallValues(fields: seq<Field>) {
    forall i :: 0 <= i < |fields| ==> |fields[i].value| < TWO_16
  }

  /** What can be written: 16-bit value lengths, and an array with a 32-bit size for the whole, with room
      for so many bytes more. */
  ghost predicate Fits(fields: seq<Field>, more: nat) {
    SmallValues(fields) && |Serialize(fields)| + more < 0x8000_0000
  }

  /** The fields that emit can write. */
  ghost predicate Emittable(fields: seq<Field>) {
    Fits(fields, 0)
  }

  /** The fields that sign can write, with its two fields behind them. */
  ghost predicate Signable(fields: seq<Field>) {
    Fits(fields, SIGNING_SIZE)
  }

  /** A complete field starts the bytes. */
  predicate HasField(s: seq<byte>) {
    |s| >= 4 && |s| >= 4 + FromBE(s[2..4])
  }

  function FirstField(s: seq<byte>): (f: Field)
    requires HasField(s)
    ensures 4 + |f.value| <= |s|
  {
    Field(FromBE(s[..2]), s[4..4 + FromBE(s[2..4])])
  }

  function AfterField(s: seq<byte>): seq<byte>
    requires HasField(s)
  {
    s[4 + FromBE(s[2..4])..]
  }

  /** Every complete field from the start of the bytes on. */
  function Walk(s: seq<byte>): seq<Field>
    decreases |s|
  {
    if HasField(s) then [FirstField(s)] + Walk(AfterField(s)) else []
  }

  /** What the walk leaves over. */
  function Rest(s: seq<byte>): seq<byte>
    decreases |s|
  {
    if HasField(s) then Rest(AfterField(s)) else s
  }

  /** The field as a parser sees it: its id is an unsigned 16-bit number. */
  function Unsigned(f: Field): Field {
    Field(f.id % TWO_16, f.value)
  }

  function UnsignedAll(fields: seq<Field>): (r: seq<Field>)
    ensures |r| == |fields|
  {
    if fields == [] then [] else [Unsigned(fields[0])] + UnsignedAll(fields[1..])
  }

  lemma {:induction false} UnsignedEach(fields: seq<Field>)
    ensures forall i :: 0 <= i < |fields| ==> UnsignedAll(fields)[i] == Unsigned(fields[i])
  {
    if fields != [] {
      UnsignedEach(fields[1..]);
    }
  }

  lemma {:induction false} UnsignedConcat(a: seq<Field>, b: seq<Field>)
    ensures UnsignedAll(a + b) == UnsignedAll(a) + UnsignedAll(b)
  {
    UnsignedEach(a);
    UnsignedEach(b);
    UnsignedEach(a + b);
  }

  /** A field starts with the two bytes of its id and the two bytes of its size, most significant first. */
  lemma FieldLayout(id: int, value: seq<byte>, a: byte, b: byte, c: byte, d: byte)
    requires id == 256 * a as int + b as int && |value| == 256 * c as int + d as int
    ensures FieldBytes(Field(id, value)) == [a, b, c, d] + value
  {
    TwoBytesOf(id, a, b);
    TwoBytesOf(|value|, c, d);
    assert [a, b] + [c, d] == [a, b, c, d];
  }

  lemma Slices(a: seq<byte>, b: seq<byte>, v: seq<byte>, tail: seq<byte>)
    requires |a| == 2 && |b| == 2
    ensures var s := a + b + v + tail;
            && s[..2] == a && s[2..4] == b && s[4..4 + |v|] == v && s[4 + |v|..] == tail
  {
  }

  /** The first field of some bytes: id and size are its first two pairs of bytes, and so many bytes are its value. */
  lemma FieldRead(s: seq<byte>, id: nat, n: nat)
    requires |s| >= 4 && id == 256 * s[0] as int + s[1] as int && n == 256 * s[2] as int + s[3] as int
    ensures HasField(s) <==> |s| >= 4 + n
    ensures HasField(s) ==> FirstField(s) == Field(id, s[4..4 + n]) && AfterField(s) == s[4 + n..]
  {
    HeaderSpells(s, id, n);
    FieldOfSize(s, id, n);
  }

  lemma FieldOfSize(s: seq<byte>, id: nat, n: nat)
    requires |s| >= 4 && FromBE(s[..2]) == id && FromBE(s[2..4]) == n
    ensures HasField(s) <==> |s| >= 4 + n
    ensures HasField(s) ==> FirstField(s) == Field(id, s[4..4 + n]) && AfterField(s) == s[4 + n..]
  {
  }

  lemma HeaderSpells(s: seq<byte>, id: nat, n: nat)
    requires |s| >= 4 && id == 256 * s[0] as int + s[1] as int && n == 256 * s[2] as int + s[3] as int
    ensures FromBE(s[..2]) == id && FromBE(s[2..4]) == n
  {
    TwoBytesSpell(s[..2]);
    TwoBytesSpell(s[2..4]);
  }

  lemma FieldOfParts(id: seq<byte>, size: seq<byte>, value: seq<byte>, tail: seq<byte>)
    requires |id| == 2 && |size| == 2 && FromBE(size) == |value|
    ensures var s := id + size + value + tail;
            HasField(s) && FirstField(s) == Field(FromBE(id), value) && AfterField(s) == tail
  {
    Slices(id, size, value, tail);
  }

  lemma NumberOfSize(n: nat)
    requires n < TWO_16
    ensures FromBE(ToBE(n, 2)) == n
  {
    FromToBE2(n);
  }

  lemma FieldRoundTrip(f: Field, tail: seq<byte>)
    requires |f.value| < TWO_16
    ensures HasField(FieldBytes(f) + tail)
    ensures FirstField(FieldBytes(f) + tail) == Unsigned(f)
    ensures AfterField(FieldBytes(f) + tail) == tail
  {
    NumberOfSize(|f.value|);
    FromToBE2(f.id);
    FieldOfParts(ToBE(f.id, 2), ToBE(|f.value|, 2), f.value, tail);
  }

  lemma WalkStep(f: Field, tail: seq<byte>)
    requires |f.value| < TWO_16
    ensures Walk(FieldBytes(f) + tail) == [Unsigned(f)] + Walk(tail)
    ensures Rest(FieldBytes(f) + tail) == Rest(tail)
  {
    FieldRoundTrip(f, tail);
  }

  /** A parser walks a field list back out of its bytes, and goes on with what follows them. */
  lemma {:induction false} WalkSerialize(fields: seq<Field>, tail: seq<byte>)
    requires SmallValues(fields)
    ensures Walk(Serialize(fields) + tail) == UnsignedAll(fields) + Walk(tail)
    ensures Rest(Serialize(fields) + tail) == Rest(tail)
    decreases |fields|
  {
    if fields == [] {
      assert Serialize(fields) + tail == tail;
      assert UnsignedAll(fields) + Walk(tail) == Walk(tail);
    } else {
      var tail' := Serialize(fields[1..]) + tail;
      Assoc(FieldBytes(fields[0]), Serialize(fields[1..]), tail);
      WalkStep(fields[0], tail');
      WalkSerialize(fields[1..], tail);
      Assoc([Unsigned(fields[0])], UnsignedAll(fields[1..]), Walk(tail));
    }
  }

  lemma WalkAll(fields: seq<Field>)
    requires SmallValues(fields)
    ensures Walk(Serialize(fields)) == UnsignedAll(fields)
  {
    WalkSerialize(fields, []);
    assert Serialize(fields) + [] == Serialize(fields);
    assert UnsignedAll(fields) + Walk([]) == UnsignedAll(fields);
  }

  lemma Unslice(s: seq<byte>, n: nat)
    requires 4 + n <= |s|
    ensures s[..2] + s[2..4] + s[4..4 + n] + s[4 + n..] == s
  {
  }

  /** A complete field and what follows it are all of the bytes. */
  lemma FieldIsWhole(s: seq<byte>)
    requires HasField(s)
    ensures s == FieldBytes(FirstField(s)) + AfterField(s)
    ensures Unsigned(FirstField(s)) == FirstField(s)
  {
    var n := FromBE(s[2..4]);
    ToFromBE(s[..2]);
    ToFromBE(s[2..4]);
    FromToBE2(FromBE(s[..2]));
    Unslice(s, n);
  }

  /** The walk loses nothing: its fields, written out, and the rest are the bytes again, and no
      complete field is left in the rest. */
  lemma {:induction false} SerializeWalk(s: seq<byte>)
    ensures Serialize(Walk(s)) + Rest(s) == s
    ensures !HasField(Rest(s))
    ensures UnsignedAll(Walk(s)) == Walk(s)
    decreases |s|
  {
    if HasField(s) {
      var f, after := FirstField(s), AfterField(s);
      SerializeWalk(after);
      FieldIsWhole(s);
      assert Walk(s)[1..] == Walk(after);
      assert Serialize(Walk(s)) + Rest(s) == FieldBytes(f) + (Serialize(Walk(after)) + Rest(after));
      assert UnsignedAll(Walk(s)) == [Unsigned(f)] + UnsignedAll(Walk(after));
    } else {
      assert Serialize(Walk(s)) + Rest(s) == s;
    }
  }

  lemma {:induction false} SerializeAppend(fields: seq<Field>, more: seq<Field>)
    ensures Serialize(fields + more) == Serialize(fields) + Serialize(more)
  {
    if fields == [] {
      assert fields + more == more;
    } else {
      assert (fields + more)[1..] == fields[1..] + more;
      SerializeAppend(fields[1..], more);
    }
  }

  lemma SerializeOne(f: Field)
    ensures Serialize([f]) == FieldBytes(f)
  {
    assert [f][1..] == [];
    assert Serialize([f]) == FieldBytes(f) + [];
  }

  lemma SerializeNext(fields: seq<Field>, i: nat)
    requires i < |fields|
    ensures Serialize(fields[..i + 1]) == Serialize(fields[..i]) + FieldBytes(fields[i])
    ensures |Serialize(fields[..i + 1])| <= |Serialize(fields)|
  {
    assert fields[..i + 1] == fields[..i] + [fields[i]];
    SerializeAppend(fields[..i], [fields[i]]);
    SerializeOne(fields[i]);
    assert fields == fields[..i + 1] + fields[i + 1..];
    SerializeAppend(fields[..i + 1], fields[i + 1..]);
  }

  // ----- building

  /** vccert_builder_context_t: a buffer of fixed size that fills up from the front. */
  class BuilderContext {
    const buffer: array<byte>
    var offset: nat

    constructor (size: nat)
      ensures buffer.Length == size && offset == 0 && fresh(buffer)
    {
      buffer := new byte[size](_ => 0);
      offset := 0;
    }

    ghost predicate Valid()
      reads this
    {
      offset <= buffer.Length
    }

    ghost function Contents(): seq<byte>
      reads this, buffer
      requires Valid()
    {
      buffer[..offset]
    }

    /** vccert_builder_add_short_buffer: false when the buffer is too small. What it does with a value whose
        length is not a 16-bit number is left open. */
    method AddShortBuffer(fieldType: int, value: seq<byte>) returns (ok: bool)
      requires Valid()
      modifies this`offset, buffer
      ensures Valid()
      ensures |value| < TWO_16 ==> (ok <==> old(offset) + 4 + |value| <= buffer.Length)
      ensures |value| < TWO_16 ==>
        Contents() == if ok then old(Contents()) + FieldBytes(Field(fieldType, value)) else old(Contents())
    {
      if |value| >= TWO_16 {
        var next :| offset <= next <= buffer.Length;
        ok, offset := *, next;
        return;
      }
      ok := offset + 4 + |value| <= buffer.Length;
      if ok {
        ArrayCopy(FieldBytes(Field(fieldType, value)), buffer, offset);
        offset := offset + 4 + |value|;
      }
    }
  }

  /** (int)(short)id. */
  function Narrow(id: int): int {
    var u := id % TWO_16;
    if u < 0x8000 then u else u - TWO_16
  }

  lemma NarrowKeepsLowBits(id: int)
    ensures Narrow(id) % TWO_16 == id % TWO_16
    ensures -0x8000 <= Narrow(id) < 0x8000
  {
  }

  class CertificateBuilder {
    var fields: seq<Field>

    constructor ()
      ensures fields == []
    {
      fields := [];
    }

    method AddByteArray(fieldId: int, value: seq<byte>)
      modifies this
      ensures fields == old(fields) + [Field(Narrow(fieldId), value)]
    {
      fields := fields + [Field(Narrow(fieldId), value)];
    }

    /** The size loop shared by emit and sign. */
    method FieldsSize() returns (certSize: nat)
      ensures certSize == |Serialize(fields)|
    {
      certSize := 0;
      for i := 0 to |fields|
        invariant certSize == |Serialize(fields[..i])|
      {
        SerializeNext(fields, i);
        certSize := certSize + FIELD_TYPE_SIZE + FIELD_SIZE_SIZE + |fields[i].value|;
      }
      assert fields[..|fields|] == fields;
    }

    /** The fill loop shared by emit and sign: with values of 16-bit lengths it never runs out of room. */
    method Fill(builder: BuilderContext) returns (ok: bool)
      requires builder.offset == 0 && |Serialize(fields)| <= builder.buffer.Length
      modifies builder`offset, builder.buffer
      ensures builder.Valid()
      ensures SmallValues(fields) ==> ok && builder.Contents() == Serialize(fields)
    {
      for i := 0 to |fields|
        invariant builder.Valid()
        invariant SmallValues(fields) ==> builder.Contents() == Serialize(fields[..i])
      {
        SerializeNext(fields, i);
        ok := builder.AddShortBuffer(fields[i].id, fields[i].value);
        if !ok {
          return false;
        }
      }
      assert fields[..|fields|] == fields;
      ok := true;
    }

    /** emit: only the empty list is refused; for fields that fit, the size mismatch and the builder errors
        never happen. */
    method Emit() returns (r: Result<seq<byte>>)
      ensures fields == [] ==> r == Err(IllegalState)
      ensures fields != [] && Emittable(fields) ==> r == Ok(Serialize(fields))
    {
      if |fields| == 0 {
        return Err(IllegalState);
      }
      var certSize := FieldsSize();
      var builder := new BuilderContext(certSize);
      var ok := Fill(builder);
      if !ok {
        return Err(IllegalState);
      }
      var emittedSize := builder.offset;
      if emittedSize != certSize {
        return Err(IllegalState);
      }
      r := Ok(builder.buffer[..certSize]);
    }

    /** sign: the fields, the signer's id, and a signature over all bytes before its own field. */
    method Sign(suite: Suite, signerId: UUID, privateKey: seq<byte>) returns (r: Result<seq<byte>>)
      ensures |privateKey| != 64 ==> r.Err?
      ensures Signable(fields) ==>
        r == if |privateKey| != 64 then Err(IllegalArgument)
             else Ok(SignedCertificate(suite, fields, signerId, privateKey))
    {
      var certSize := FieldsSize();
      certSize := certSize + FIELD_TYPE_SIZE * 2 + FIELD_SIZE_SIZE * 2 + 16 + SIGNATURE_SIZE;
      var builder := new BuilderContext(certSize);
      var ok := Fill(builder);
      if !ok {
        return Err(IllegalState);
      }
      if |privateKey| != 64 {
        return Err(IllegalArgument);
      }
      ok := SignBuilder(suite, builder, UuidBytes(signerId), privateKey);
      if !ok {
        return Err(IllegalState);
      }
      SerializeAppend(fields, [SignerField(signerId)]);
      SerializeOne(SignerField(signerId));
      var emittedSize := builder.offset;
      if emittedSize != certSize {
        return Err(IllegalState);
      }
      r := Ok(builder.buffer[..certSize]);
    }
  }

  /** vccert_builder_sign. */
  method SignBuilder(suite: Suite, builder: BuilderContext, signerId: seq<byte>, privateKey: Bytes64)
    returns (ok: bool)
    requires builder.Valid() && |signerId| == 16
    modifies builder`offset, builder.buffer
    ensures builder.Valid()
    ensures ok <==> old(builder.offset) + 88 <= builder.buffer.Length
    ensures ok ==>
      var body := old(builder.Contents()) + FieldBytes(Field(SIGNER_ID, signerId));
      builder.Contents() == body + FieldBytes(Field(SIGNATURE, suite.sign(privateKey, body)))
  {
    if builder.offset + 88 > builder.buffer.Length {
      return false;
    }
    ok := builder.AddShortBuffer(SIGNER_ID, signerId);
    ok := builder.AddShortBuffer(SIGNATURE, suite.sign(privateKey, builder.buffer[..builder.offset]));
  }

  function SignerField(signerId: UUID): Field {
    Field(SIGNER_ID, UuidBytes(signerId))
  }

  /** The bytes that the signature covers. */
  function SignedBody(fields: seq<Field>, signerId: UUID): seq<byte> {
    Serialize(fields + [SignerField(signerId)])
  }

  function SignedCertificate(suite: Suite, fields: seq<Field>, signerId: UUID, privateKey: Bytes64): seq<byte> {
    var body := SignedBody(fields, signerId);
    body + FieldBytes(Field(SIGNATURE, suite.sign(privateKey, body)))
  }

  /** The bytes of a signed certificate: the fields, the signer's id, and a signature over all of that. */
  lemma SignedLayout(suite: Suite, fields: seq<Field>, signerId: UUID, privateKey: Bytes64)
    ensures var body := Serialize(fields) + ([0x00, 0x50, 0x00, 0x10] + UuidBytes(signerId));
            SignedCertificate(suite, fields, signerId, privateKey)
            == body + ([0x00, 0x51, 0x00, 0x40] + suite.sign(privateKey, body))
  {
    SerializeAppend(fields, [SignerField(signerId)]);
    SerializeOne(SignerField(signerId));
    FieldLayout(SIGNER_ID, UuidBytes(signerId), 0x00, 0x50, 0x00, 0x10);
    FieldLayout(SIGNATURE, suite.sign(privateKey, SignedBody(fields, signerId)), 0x00, 0x51, 0x00, 0x40);
  }

  // ----- parsing

  /** The cursor of vccert_parser_field_first and vccert_parser_field_next. */
  class FieldCursor {
    const data: seq<byte>
    var next: nat

    constructor (data: seq<byte>)
      ensures this.data == data && next == 0
    {
      this.data := data;
      next := 0;
    }

    method FieldNext() returns (ok: bool, field: Field)
      requires next <= |data|
      modifies this
      ensures ok <==> HasField(data[old(next)..])
      ensures next <= |data|
      ensures ok ==> field == FirstField(data[old(next)..]) && data[next..] == AfterField(data[old(next)..])
      ensures ok ==> old(next) < next
      ensures !ok ==> next == old(next)
    {
      var here := data[next..];
      ok, field := HasField(here), Field(0, []);
      if ok {
        field := FirstField(here);
        next := next + 4 + |field.value|;
      }
    }
  }

  /** parseNative: a do/while over the fields; no field at all is refused, an incomplete tail is not. */
  method ParseNative(cert: seq<byte>, size: nat) returns (r: Result<seq<Field>>)
    requires size <= |cert|
    ensures r == if HasField(cert[..size]) then Ok(Walk(cert[..size])) else Err(IllegalArgument)
  {
    var cursor := new FieldCursor(cert[..size]);
    var ok, field := cursor.FieldNext();
    if !ok {
      return Err(IllegalArgument);
    }
    var result: seq<Field> := [];
    assert cursor.data[0..] == cursor.data;
    while true
      invariant fresh(cursor) && cursor.next <= |cursor.data|
      invariant result + ([field] + Walk(cursor.data[cursor.next..])) == Walk(cursor.data)
      decreases |cursor.data| - cursor.next
    {
      ghost var here := cursor.data[cursor.next..];
      assert result + ([field] + Walk(here)) == (result + [field]) + Walk(here);
      result := result + [field];
      ok, field := cursor.FieldNext();
      if !ok {
        break;
      }
    }
    assert Walk(cursor.data[cursor.next..]) == [];
    assert result + [] == result;
    r := Ok(result);
  }

  /** The values of the fields with an id, in order. */
  function Select(fields: seq<Field>, id: int): seq<seq<byte>> {
    if fields == [] then []
    else
      var before := Select(fields[..|fields| - 1], id);
      var last := fields[|fields| - 1];
      if last.id == id then before + [last.value] else before
  }

  function Ids(fields: seq<Field>): set<int> {
    set f | f in fields :: f.id
  }

  /** The multimap of a field list. */
  function Group(fields: seq<Field>): map<int, seq<seq<byte>>> {
    map id | id in Ids(fields) :: Select(fields, id)
  }

  lemma {:induction false} SelectNonEmpty(fields: seq<Field>, id: int)
    ensures Select(fields, id) != [] <==> id in Ids(fields)
  {
    if fields != [] {
      var front := fields[..|fields| - 1];
      SelectNonEmpty(front, id);
      assert fields == front + [fields[|fields| - 1]];
    }
  }

  /** map.compute with appendField. */
  function AppendField(fieldMap: map<int, seq<seq<byte>>>, f: Field): map<int, seq<seq<byte>>> {
    fieldMap[f.id := if f.id in fieldMap then fieldMap[f.id] + [f.value] else [f.value]]
  }

  lemma GroupAppend(fields: seq<Field>, f: Field)
    ensures Group(fields + [f]) == AppendField(Group(fields), f)
  {
    var all := fields + [f];
    assert [] + [f.value] == [f.value];
    assert all[..|all| - 1] == fields;
    assert Ids(all) == Ids(fields) + {f.id};
    SelectNonEmpty(fields, f.id);
  }

  lemma GroupStep(fields: seq<Field>, i: nat)
    requires i < |fields|
    ensures Group(fields[..i + 1]) == AppendField(Group(fields[..i]), fields[i])
  {
    GroupAppend(fields[..i], fields[i]);
    assert fields[..i + 1] == fields[..i] + [fields[i]];
  }

  class CertificateParser {
    const certificate: seq<byte>
    const rawSize: nat
    var size: nat

    constructor (certificate: seq<byte>)
      ensures this.certificate == certificate && size == |certificate| && Valid()
    {
      this.certificate := certificate;
      rawSize, size := |certificate|, |certificate|;
    }

    ghost predicate Valid()
      reads this
    {
      size <= rawSize == |certificate|
    }

    /** parse: the loop with Map.compute builds the multimap of the visible fields. */
    method Parse() returns (r: Result<map<int, seq<seq<byte>>>>)
      requires Valid()
      ensures r == ParseResult(certificate[..size])
    {
      var certFields :- ParseNative(certificate, size);
      var fieldMap: map<int, seq<seq<byte>>> := map[];
      for i := 0 to |certFields|
        invariant fieldMap == Group(certFields[..i])
      {
        fieldMap := AppendField(fieldMap, certFields[i]);
        GroupStep(certFields, i);
      }
      assert certFields[..|certFields|] == certFields;
      r := Ok(fieldMap);
    }

    /** attest: always works from rawSize; success narrows what parse sees, failure changes nothing. */
    method Attest(suite: Suite, resolveEntity: (UUID, int) -> Option<Bytes32>, blockHeight: int,
                  validateContract: bool)
      returns (r: Result<bool>)
      requires Valid()
      modifies this
      ensures Valid()
      ensures var a := AttestedSize(suite, certificate, resolveEntity, blockHeight, validateContract);
              r == (if a.Ok? then Ok(true) else Err(a.error))
              && size == if a.Ok? then a.value else old(size)
    {
      assert certificate[..rawSize] == certificate;
      var attestedSize :-
        AttestedSize(suite, certificate[..rawSize], resolveEntity, blockHeight, validateContract);
      size := attestedSize;
      r := Ok(true);
    }
  }

  /** Parsing is refused exactly when not even one field is complete. */
  lemma ParseRefusedIff(visible: seq<byte>)
    ensures ParseResult(visible).Err?
       <==> |visible| < 4 || |visible| < 4 + (256 * visible[2] as int + visible[3] as int)
    ensures ParseResult(visible).Err? ==> ParseResult(visible) == Err(IllegalArgument)
  {
    if |visible| >= 4 {
      FieldRead(visible, 256 * visible[0] as int + visible[1] as int, 256 * visible[2] as int + visible[3] as int);
    }
  }

  function ParseResult(visible: seq<byte>): Result<map<int, seq<seq<byte>>>> {
    if HasField(visible) then Ok(Group(Walk(visible))) else Err(IllegalArgument)
  }

  // ----- attestation

  /** The position of the first field with an id, or the length of the list. */
  function IndexOf(fields: seq<Field>, id: int): (i: nat)
    ensures i <= |fields|
  {
    if fields == [] || fields[0].id == id then 0 else 1 + IndexOf(fields[1..], id)
  }

  /** The id in the first signer field. */
  function Signer(fields: seq<Field>): Option<UUID> {
    var i := IndexOf(fields, SIGNER_ID);
    if i < |fields| && |fields[i].value| == 16 then Some(UuidFromBytes(fields[i].value)) else None
  }

  /** The first signature field: how many bytes are before it, and the signature. */
  function SignatureAt(fields: seq<Field>): Option<(nat, Bytes64)> {
    var i := IndexOf(fields, SIGNATURE);
    if i < |fields| && |fields[i].value| == SIGNATURE_SIZE
    then Some((|Serialize(fields[..i])|, fields[i].value)) else None
  }

  lemma PrefixShorter(fields: seq<Field>, i: nat)
    requires i <= |fields|
    ensures |Serialize(fields[..i])| <= |Serialize(fields)|
  {
    assert fields == fields[..i] + fields[i..];
    SerializeAppend(fields[..i], fields[i..]);
  }

  lemma SignatureInside(raw: seq<byte>)
    ensures var s := SignatureAt(Walk(raw)); s.Some? ==> s.value.0 <= |raw|
  {
    SerializeWalk(raw);
    PrefixShorter(Walk(raw), IndexOf(Walk(raw), SIGNATURE));
  }

  /** vccert_parser_attest with the resolvers that the Java wrapper installs: the first signer id names
      the entity whose key must verify the first signature over all bytes before it. There is no
      contract resolver, so asking for contract validation never succeeds. */
  function AttestedSize(suite: Suite, raw: seq<byte>, resolveEntity: (UUID, int) -> Option<Bytes32>,
                        blockHeight: int, validateContract: bool)
    : (r: Result<nat>)
    ensures r.Ok? ==> r.value <= |raw|
  {
    SignatureInside(raw);
    Decide(suite, raw, Signer(Walk(raw)), SignatureAt(Walk(raw)), resolveEntity, blockHeight, validateContract)
  }

  /** The checks of attestation on what it looked up. */
  function Decide(suite: Suite, raw: seq<byte>, signer: Option<UUID>, signature: Option<(nat, Bytes64)>,
                  resolveEntity: (UUID, int) -> Option<Bytes32>, blockHeight: int, validateContract: bool)
    : (r: Result<nat>)
    requires signature.Some? ==> signature.value.0 <= |raw|
    ensures r.Ok? ==> r.value <= |raw|
  {
    if signer.None? || signature.None? then Err(Attestation)
    else
      match resolveEntity(signer.value, blockHeight)
      case None => Err(UnknownEntity)
      case Some(publicKey) =>
        var (size, value) := signature.value;
        if !suite.verify(publicKey, raw[..size], value) then Err(Attestation)
        else if validateContract then Err(Attestation)
        else Ok(size)
  }

  /** The first entry with its id, at a position. */
  ghost predicate First(fields: seq<Field>, p: nat, f: Field) {
    p < |fields| && fields[p] == f && forall j :: 0 <= j < p ==> fields[j].id != f.id
  }

  lemma {:induction false} IndexOfIff(fields: seq<Field>, id: int, p: nat)
    requires p < |fields|
    ensures IndexOf(fields, id) == p <==> fields[p].id == id && forall j :: 0 <= j < p ==> fields[j].id != id
  {
    if fields[0].id == id {
    } else if p > 0 {
      IndexOfIff(fields[1..], id, p - 1);
      forall j | 0 <= j < p - 1 ensures fields[1..][j] == fields[j + 1] {
      }
      if forall j :: 0 <= j < p - 1 ==> fields[1..][j].id != id {
        forall j | 0 <= j < p ensures fields[j].id != id {
          if j > 0 {
            assert fields[1..][j - 1].id != id;
          }
        }
      }
    }
  }

  lemma {:induction false} IndexOfNone(fields: seq<Field>, id: int)
    requires forall f | f in fields :: f.id != id
    ensures IndexOf(fields, id) == |fields|
  {
    if fields != [] {
      IndexOfNone(fields[1..], id);
    }
  }

  lemma SignerIff(fields: seq<Field>, signer: UUID)
    ensures Signer(fields) == Some(signer) <==> exists p :: First(fields, p, Field(SIGNER_ID, UuidBytes(signer)))
  {
    var i := IndexOf(fields, SIGNER_ID);
    UuidBijection(signer, UuidBytes(signer));
    if Signer(fields) == Some(signer) {
      IndexOfIff(fields, SIGNER_ID, i);
      UuidBijection(signer, fields[i].value);
      assert First(fields, i, Field(SIGNER_ID, UuidBytes(signer)));
    }
    if p :| First(fields, p, Field(SIGNER_ID, UuidBytes(signer))) {
      IndexOfIff(fields, SIGNER_ID, p);
    }
  }

  /** The bytes are a whole number of fields without a signature among them, then the field of a 64-byte
      signature, then anything at all. */
  ghost predicate SplitsAt(raw: seq<byte>, body: seq<byte>, signature: Bytes64, tail: seq<byte>) {
    && raw == body + ([0x00, 0x51, 0x00, 0x40] + signature + tail)
    && Rest(body) == [] && forall f | f in Walk(body) :: f.id != 0x0051
  }

  lemma {:induction false} WalkedSizes(s: seq<byte>)
    ensures SmallValues(Walk(s))
    decreases |s|
  {
    if HasField(s) {
      WalkedSizes(AfterField(s));
      Pow256Values();
      FromBEBound(s[2..4]);
    }
  }

  lemma SplitFound(raw: seq<byte>, body: seq<byte>, signature: Bytes64, tail: seq<byte>)
    requires SplitsAt(raw, body, signature, tail)
    ensures SignatureAt(Walk(raw)) == Some((|body|, signature))
  {
    var fields, field := Walk(body), Field(SIGNATURE, signature);
    FieldLayout(SIGNATURE, signature, 0x00, 0x51, 0x00, 0x40);
    SerializeWalk(body);
    WalkedSizes(body);
    assert Serialize(fields) + [] == Serialize(fields);
    WalkSerialize(fields, FieldBytes(field) + tail);
    WalkStep(field, tail);
    var found := fields + ([field] + Walk(tail));
    assert Walk(raw) == found;
    forall j | 0 <= j < |fields| ensures found[j].id != SIGNATURE {
      assert found[j] == fields[j] && fields[j] in fields;
    }
    IndexOfIff(found, SIGNATURE, |fields|);
    assert found[..|fields|] == fields;
  }

  lemma FoundSplits(raw: seq<byte>) returns (body: seq<byte>, tail: seq<byte>)
    requires SignatureAt(Walk(raw)).Some?
    ensures SplitsAt(raw, body, SignatureAt(Walk(raw)).value.1, tail) && |body| == SignatureAt(Walk(raw)).value.0
  {
    var fields, i := Walk(raw), IndexOf(Walk(raw), SIGNATURE);
    IndexOfIff(fields, SIGNATURE, i);
    body, tail := Serialize(fields[..i]), Serialize(fields[i + 1..]) + Rest(raw);
    FieldLayout(SIGNATURE, fields[i].value, 0x00, 0x51, 0x00, 0x40);
    SerializeWalk(raw);
    WalkedSizes(raw);
    SerializeAround(fields, i, Rest(raw));
    WalkPrefix(fields, i);
  }

  lemma SerializeAround(fields: seq<Field>, i: nat, rest: seq<byte>)
    requires i < |fields|
    ensures Serialize(fields) + rest
         == Serialize(fields[..i]) + (FieldBytes(fields[i]) + (Serialize(fields[i + 1..]) + rest))
  {
    SplitAround(fields, i);
    SerializeParts(fields[..i], fields[i], fields[i + 1..], rest);
  }

  lemma SerializeCons(f: Field, after: seq<Field>)
    ensures Serialize([f] + after) == FieldBytes(f) + Serialize(after)
  {
    assert ([f] + after)[1..] == after;
  }

  lemma SerializeParts(before: seq<Field>, f: Field, after: seq<Field>, rest: seq<byte>)
    ensures Serialize(before + ([f] + after)) + rest
         == Serialize(before) + (FieldBytes(f) + (Serialize(after) + rest))
  {
    SerializeAppend(before, [f] + after);
    SerializeCons(f, after);
    Assoc(Serialize(before), FieldBytes(f) + Serialize(after), rest);
    Assoc(FieldBytes(f), Serialize(after), rest);
  }

  lemma UnsignedPrefix(fields: seq<Field>, i: nat)
    requires i <= |fields| && UnsignedAll(fields) == fields
    ensures UnsignedAll(fields[..i]) == fields[..i]
  {
    UnsignedEach(fields);
    UnsignedEach(fields[..i]);
    forall j | 0 <= j < i ensures UnsignedAll(fields[..i])[j] == fields[..i][j] {
      assert UnsignedAll(fields)[j] == Unsigned(fields[j]);
    }
  }

  lemma SerializedParses(fields: seq<Field>)
    requires SmallValues(fields) && UnsignedAll(fields) == fields
    ensures Walk(Serialize(fields)) == fields && Rest(Serialize(fields)) == []
  {
    WalkAll(fields);
    WalkSerialize(fields, []);
    assert Serialize(fields) + [] == Serialize(fields);
  }

  lemma WalkPrefix(fields: seq<Field>, i: nat)
    requires i <= |fields| && UnsignedAll(fields) == fields && SmallValues(fields)
    ensures Walk(Serialize(fields[..i])) == fields[..i] && Rest(Serialize(fields[..i])) == []
  {
    UnsignedPrefix(fields, i);
    SerializedParses(fields[..i]);
  }

  /** What attestation asks of bytes: they split around their first signature, the first signer's id names an
      entity with a known key, and that key verifies the signature over the bytes before it. */
  ghost predicate Attested(suite: Suite, raw: seq<byte>, resolveEntity: (UUID, int) -> Option<Bytes32>,
                           blockHeight: int, body: seq<byte>, signature: Bytes64, tail: seq<byte>, signer: UUID) {
    && SplitsAt(raw, body, signature, tail)
    && (exists p :: First(Walk(raw), p, Field(0x0050, UuidBytes(signer))))
    && resolveEntity(signer, blockHeight).Some?
    && suite.verify(resolveEntity(signer, blockHeight).value, body, signature)
  }

  lemma PrefixBefore(raw: seq<byte>, body: seq<byte>, rest: seq<byte>)
    requires raw == body + rest
    ensures |body| <= |raw| && raw[..|body|] == body
  {
  }

  /** Any bytes attest exactly when they meet that and no contract is asked for, and then the size that stays
      visible is that of the bytes before the signature. */
  lemma AttestsIff(suite: Suite, raw: seq<byte>, resolveEntity: (UUID, int) -> Option<Bytes32>, blockHeight: int,
                   validateContract: bool, size: nat)
    ensures AttestedSize(suite, raw, resolveEntity, blockHeight, validateContract) == Ok(size)
       <==> !validateContract
            && exists body, signature, tail, signer ::
                 Attested(suite, raw, resolveEntity, blockHeight, body, signature, tail, signer) && |body| == size
  {
    if AttestedSize(suite, raw, resolveEntity, blockHeight, validateContract) == Ok(size) {
      var signer := Signer(Walk(raw)).value;
      var signature := SignatureAt(Walk(raw)).value.1;
      var body, tail := FoundSplits(raw);
      SignerIff(Walk(raw), signer);
      PrefixBefore(raw, body, [0x00, 0x51, 0x00, 0x40] + signature + tail);
      assert Attested(suite, raw, resolveEntity, blockHeight, body, signature, tail, signer);
    }
    if body, signature, tail, signer :|
         Attested(suite, raw, resolveEntity, blockHeight, body, signature, tail, signer) && |body| == size {
      SplitFound(raw, body, signature, tail);
      SignerIff(Walk(raw), signer);
      PrefixBefore(raw, body, [0x00, 0x51, 0x00, 0x40] + signature + tail);
    }
  }

  /** Bytes that do not attest are refused as naming an unknown entity exactly when they have a signature and a
      signer and the signer's key is not known, and as failing attestation otherwise. */
  lemma RefusesIff(suite: Suite, raw: seq<byte>, resolveEntity: (UUID, int) -> Option<Bytes32>, blockHeight: int,
                   validateContract: bool)
    ensures AttestedSize(suite, raw, resolveEntity, blockHeight, validateContract) == Err(UnknownEntity)
       <==> (exists body, signature, tail :: SplitsAt(raw, body, signature, tail))
            && exists signer, p ::
                 First(Walk(raw), p, Field(0x0050, UuidBytes(signer))) && resolveEntity(signer, blockHeight).None?
    ensures var a := AttestedSize(suite, raw, resolveEntity, blockHeight, validateContract);
            a.Err? ==> a.error == UnknownEntity || a.error == Attestation
  {
    if AttestedSize(suite, raw, resolveEntity, blockHeight, validateContract) == Err(UnknownEntity) {
      var body, tail := FoundSplits(raw);
      SignerIff(Walk(raw), Signer(Walk(raw)).value);
    }
    if (exists body, signature, tail :: SplitsAt(raw, body, signature, tail))
       && exists signer, p ::
            First(Walk(raw), p, Field(0x0050, UuidBytes(signer))) && resolveEntity(signer, blockHeight).None?
    {
      var body, signature, tail :| SplitsAt(raw, body, signature, tail);
      var signer, p :|
        First(Walk(raw), p, Field(0x0050, UuidBytes(signer))) && resolveEntity(signer, blockHeight).None?;
      SplitFound(raw, body, signature, tail);
      SignerIff(Walk(raw), signer);
    }
  }

  /** A certificate without a signature field, or without a signer field, is refused. */
  lemma UnsignedIsRefused(suite: Suite, raw: seq<byte>, resolveEntity: (UUID, int) -> Option<Bytes32>,
                          blockHeight: int, validateContract: bool)
    requires (forall f | f in Walk(raw) :: f.id != 0x0051) || (forall f | f in Walk(raw) :: f.id != 0x0050)
    ensures AttestedSize(suite, raw, resolveEntity, blockHeight, validateContract) == Err(Attestation)
  {
    if forall f | f in Walk(raw) :: f.id != 0x0051 {
      IndexOfNone(Walk(raw), SIGNATURE);
    } else {
      IndexOfNone(Walk(raw), SIGNER_ID);
    }
  }

  ghost predicate Lacks(fields: seq<Field>, id: int) {
    forall i :: 0 <= i < |fields| ==> fields[i].id % TWO_16 != id
  }

  lemma {:induction false} SerializeUnsigned(fields: seq<Field>)
    ensures Serialize(UnsignedAll(fields)) == Serialize(fields)
    decreases |fields|
  {
    if fields != [] {
      var f := fields[0];
      FromToBE2(f.id);
      FromToBE2(f.id % TWO_16);
      ToFromBE(ToBE(f.id, 2));
      ToFromBE(ToBE(f.id % TWO_16, 2));
      SerializeUnsigned(fields[1..]);
      assert UnsignedAll(fields)[1..] == UnsignedAll(fields[1..]);
    }
  }

  /** The fields that a parser finds in a signed certificate with junk behind it. */
  lemma SignedWalk(suite: Suite, fields: seq<Field>, signerId: UUID, privateKey: Bytes64, junk: seq<byte>)
    requires SmallValues(fields)
    ensures var body := SignedBody(fields, signerId);
            Walk(SignedCertificate(suite, fields, signerId, privateKey) + junk)
            == UnsignedAll(fields + [SignerField(signerId)])
               + ([Field(SIGNATURE, suite.sign(privateKey, body))] + Walk(junk))
  {
    var signed, body := fields + [SignerField(signerId)], SignedBody(fields, signerId);
    var signature := Field(SIGNATURE, suite.sign(privateKey, body));
    Assoc(body, FieldBytes(signature), junk);
    WalkSerialize(signed, FieldBytes(signature) + junk);
    WalkStep(signature, junk);
  }

  lemma {:induction false} FoundAt(fields: seq<Field>, i: nat)
    requires i < |fields| && forall j :: 0 <= j < i ==> fields[j].id != fields[i].id
    ensures IndexOf(fields, fields[i].id) == i
  {
    if i > 0 {
      FoundAt(fields[1..], i - 1);
    }
  }

  lemma {:induction false} IndexOfPrefix(a: seq<Field>, b: seq<Field>, id: int)
    requires IndexOf(a, id) < |a|
    ensures IndexOf(a + b, id) == IndexOf(a, id)
  {
    assert (a + b)[0] == a[0];
    if a[0].id != id {
      assert (a + b)[1..] == a[1..] + b;
      IndexOfPrefix(a[1..], b, id);
    }
  }

  lemma {:induction false} IndexOfBound(fields: seq<Field>, i: nat)
    requires i < |fields|
    ensures IndexOf(fields, fields[i].id) <= i
  {
    if i > 0 && fields[0].id != fields[i].id {
      IndexOfBound(fields[1..], i - 1);
    }
  }

  /** The signer that a signed certificate names: the first signer field, which is the one that sign put
      there unless the builder already had one. */
  function NamedSigner(fields: seq<Field>, signerId: UUID): Option<UUID> {
    Signer(UnsignedAll(fields + [SignerField(signerId)]))
  }

  lemma SignerPosition(fields: seq<Field>, signerId: UUID)
    ensures var all := UnsignedAll(fields + [SignerField(signerId)]);
            |all| == |fields| + 1 && all[|fields|] == SignerField(signerId)
  {
    UnsignedEach(fields + [SignerField(signerId)]);
  }

  lemma SignerFound(fields: seq<Field>, signerId: UUID, more: seq<Field>)
    ensures Signer(UnsignedAll(fields + [SignerField(signerId)]) + more) == NamedSigner(fields, signerId)
  {
    var all := UnsignedAll(fields + [SignerField(signerId)]);
    SignerPosition(fields, signerId);
    IndexOfBound(all, |fields|);
    IndexOfPrefix(all, more, SIGNER_ID);
  }

  lemma SignerIsOwn(fields: seq<Field>, signerId: UUID)
    requires Lacks(fields, SIGNER_ID)
    ensures NamedSigner(fields, signerId) == Some(signerId)
  {
    var all := UnsignedAll(fields + [SignerField(signerId)]);
    SignerPosition(fields, signerId);
    UnsignedEach(fields + [SignerField(signerId)]);
    FoundAt(all, |fields|);
    UuidBijection(signerId, UuidBytes(signerId));
  }

  lemma SignatureFound(fields: seq<Field>, signerId: UUID, signature: Bytes64, more: seq<Field>)
    requires Lacks(fields, SIGNATURE)
    ensures SignatureAt(UnsignedAll(fields + [SignerField(signerId)]) + ([Field(SIGNATURE, signature)] + more))
         == Some((|SignedBody(fields, signerId)|, signature))
  {
    var signed := fields + [SignerField(signerId)];
    var found := UnsignedAll(signed) + ([Field(SIGNATURE, signature)] + more);
    UnsignedEach(signed);
    FoundAt(found, |signed|);
    assert found[..|signed|] == UnsignedAll(signed);
    SerializeUnsigned(signed);
  }

  /** What attestation looks up in a signed certificate with junk behind it. */
  lemma SignedLookups(suite: Suite, fields: seq<Field>, signerId: UUID, privateKey: Bytes64, junk: seq<byte>,
                      found: seq<Field>)
    requires SmallValues(fields) && Lacks(fields, SIGNATURE)
    requires found == Walk(SignedCertificate(suite, fields, signerId, privateKey) + junk)
    ensures Signer(found) == NamedSigner(fields, signerId)
    ensures var body := SignedBody(fields, signerId);
            SignatureAt(found) == Some((|body|, suite.sign(privateKey, body)))
  {
    var signature := suite.sign(privateKey, SignedBody(fields, signerId));
    SignedWalk(suite, fields, signerId, privateKey, junk);
    SignerFound(fields, signerId, [Field(SIGNATURE, signature)] + Walk(junk));
    SignatureFound(fields, signerId, signature, Walk(junk));
  }

  lemma PrefixOf(a: seq<byte>, b: seq<byte>, c: seq<byte>)
    ensures (a + b + c)[..|a|] == a
  {
  }

  /** What the checks of attestation decide once a signature has been found behind a body. */
  lemma DecideIff(suite: Suite, raw: seq<byte>, body: seq<byte>, signer: Option<UUID>, signature: Bytes64,
                  resolveEntity: (UUID, int) -> Option<Bytes32>, blockHeight: int, validateContract: bool)
    requires |body| <= |raw| && raw[..|body|] == body
    ensures var a := Decide(suite, raw, signer, Some((|body|, signature)), resolveEntity, blockHeight,
                            validateContract);
            && (a.Ok? <==> signer.Some? && resolveEntity(signer.value, blockHeight).Some?
                           && suite.verify(resolveEntity(signer.value, blockHeight).value, body, signature)
                           && !validateContract)
            && (a.Ok? ==> a.value == |body|)
  {
  }

  /** A signed certificate, with anything at all behind its signature, attests exactly when the signer it
      names resolves to a key that verifies and no contract is asked for; then exactly the signed bytes
      stay visible, and they parse to the builder's fields followed by the signer's id. */
  lemma SignAttestParse(suite: Suite, fields: seq<Field>, signerId: UUID, privateKey: Bytes64,
                        junk: seq<byte>, resolveEntity: (UUID, int) -> Option<Bytes32>,
                        blockHeight: int, validateContract: bool)
    requires SmallValues(fields) && Lacks(fields, SIGNATURE)
    ensures var raw := SignedCertificate(suite, fields, signerId, privateKey) + junk;
            var body := SignedBody(fields, signerId);
            var a := AttestedSize(suite, raw, resolveEntity, blockHeight, validateContract);
            var named := NamedSigner(fields, signerId);
            && (a.Ok? <==> named.Some? && resolveEntity(named.value, blockHeight).Some?
                           && suite.verify(resolveEntity(named.value, blockHeight).value, body,
                                           suite.sign(privateKey, body))
                           && !validateContract)
            && (a.Ok? ==> raw[..a.value] == body)
            && Walk(body) == UnsignedAll(fields) + [SignerField(signerId)]
    ensures Lacks(fields, SIGNER_ID) ==> NamedSigner(fields, signerId) == Some(signerId)
  {
    var body := SignedBody(fields, signerId);
    var signature := FieldBytes(Field(SIGNATURE, suite.sign(privateKey, body)));
    var raw := SignedCertificate(suite, fields, signerId, privateKey) + junk;
    SignedLookups(suite, fields, signerId, privateKey, junk, Walk(raw));
    PrefixOf(body, signature, junk);
    DecideIff(suite, raw, body, NamedSigner(fields, signerId), suite.sign(privateKey, body), resolveEntity, blockHeight,
              validateContract);
    SignedBodyParses(fields, signerId);
    if Lacks(fields, SIGNER_ID) {
      SignerIsOwn(fields, signerId);
    }
  }

  lemma SignedBodyParses(fields: seq<Field>, signerId: UUID)
    requires SmallValues(fields)
    ensures Walk(SignedBody(fields, signerId)) == UnsignedAll(fields) + [SignerField(signerId)]
  {
    var signed := fields + [SignerField(signerId)];
    WalkAll(signed);
    UnsignedConcat(fields, [SignerField(signerId)]);
  }

  /** Whoever signs with a key and is resolved to its public half passes attestation. */
  lemma HonestSignatureAttests(suite: Suite, fields: seq<Field>, signerId: UUID, privateKey: Bytes64,
                               junk: seq<byte>, resolveEntity: (UUID, int) -> Option<Bytes32>, blockHeight: int)
    requires SignaturesVerify(suite)
    requires SmallValues(fields) && Lacks(fields, SIGNATURE) && Lacks(fields, SIGNER_ID)
    requires resolveEntity(signerId, blockHeight) == Some(suite.signingPublicKey(privateKey))
    ensures AttestedSize(suite, SignedCertificate(suite, fields, signerId, privateKey) + junk,
                         resolveEntity, blockHeight, false)
         == Ok(|SignedBody(fields, signerId)|)
  {
    SignAttestParse(suite, fields, signerId, privateKey, junk, resolveEntity, blockHeight, false);
  }

  // ----- reading

  /** CertificateReader: lookups over the map that parse returned. */
  datatype CertificateReader = CertificateReader(certFields: map<int, seq<seq<byte>>>)
  {
    function Count(fieldId: int): nat {
      if fieldId in certFields then |certFields[fieldId]| else 0
    }

    function Get(fieldId: int, index: int): Result<seq<byte>> {
      if fieldId !in certFields || |certFields[fieldId]| <= index then Err(MissingField)
      else if index < 0 then Err(IndexOutOfBounds)
      else Ok(certFields[fieldId][index])
    }

    function GetFirst(fieldId: int): Result<seq<byte>> {
      Get(fieldId, 0)
    }
  }

  /** How many of the first n entries have an id. */
  function Occurrences(fields: seq<Field>, id: int, n: nat): nat
    requires n <= |fields|
  {
    if n == 0 then 0 else Occurrences(fields, id, n - 1) + if fields[n - 1].id == id then 1 else 0
  }

  lemma {:induction false} SelectLength(fields: seq<Field>, id: int, n: nat)
    requires n <= |fields|
    ensures |Select(fields[..n], id)| == Occurrences(fields, id, n)
  {
    if n > 0 {
      SelectLength(fields, id, n - 1);
      assert fields[..n][..n - 1] == fields[..n - 1];
    }
  }

  /** count(f) is the number of entries with id f. */
  lemma CountIsOccurrences(fields: seq<Field>, id: int)
    ensures CertificateReader(Group(fields)).Count(id) == Occurrences(fields, id, |fields|)
  {
    SelectLength(fields, id, |fields|);
    assert fields[..|fields|] == fields;
    SelectNonEmpty(fields, id);
  }

  lemma {:induction false} SelectAt(fields: seq<Field>, p: nat)
    requires p < |fields|
    ensures var id := fields[p].id;
            var i := Occurrences(fields, id, p);
            i < |Select(fields, id)| && Select(fields, id)[i] == fields[p].value
    decreases |fields|
  {
    var id, n := fields[p].id, |fields| - 1;
    var front := fields[..n];
    if p == n {
      SelectLength(fields, id, n);
    } else {
      SelectAt(front, p);
      OccurrencesPrefix(fields, id, n, p);
    }
  }

  lemma {:induction false} OccurrencesPrefix(fields: seq<Field>, id: int, n: nat, p: nat)
    requires p <= n <= |fields|
    ensures Occurrences(fields[..n], id, p) == Occurrences(fields, id, p)
  {
    if p > 0 {
      OccurrencesPrefix(fields, id, n, p - 1);
    }
  }

  /** The position of the i-th entry with an id. */
  lemma {:induction false} SelectPosition(fields: seq<Field>, id: int, i: nat, n: nat) returns (p: nat)
    requires n <= |fields| && i < Occurrences(fields, id, n)
    ensures p < n && fields[p].id == id && Occurrences(fields, id, p) == i
  {
    if i < Occurrences(fields, id, n - 1) {
      p := SelectPosition(fields, id, i, n - 1);
    } else {
      p := n - 1;
    }
  }

  /** get(f, i) is the i-th entry with id f in the order of the list: an entry of the list is what get
      returns for its own id and its own rank, and get returns nothing else. */
  lemma GetIsIthOccurrence(fields: seq<Field>, id: int, i: int, value: seq<byte>)
    ensures CertificateReader(Group(fields)).Get(id, i) == Ok(value)
       <==> exists p :: 0 <= p < |fields| && fields[p] == Field(id, value) && Occurrences(fields, id, p) == i
  {
    CountIsOccurrences(fields, id);
    var r := CertificateReader(Group(fields)).Get(id, i);
    if r.Ok? {
      var p := SelectPosition(fields, id, i, |fields|);
      SelectAt(fields, p);
    }
    forall p | 0 <= p < |fields| && fields[p] == Field(id, value) && Occurrences(fields, id, p) == i
      ensures r == Ok(value)
    {
      SelectAt(fields, p);
      SelectNonEmpty(fields, id);
    }
  }

  /** What get throws: a missing field at or above the count, and otherwise an index error below zero. */
  lemma GetRefusedIff(fields: seq<Field>, id: int, i: int)
    ensures var r, n := CertificateReader(Group(fields)).Get(id, i), Occurrences(fields, id, |fields|);
            && (r == Err(MissingField) <==> n == 0 || n <= i)
            && (r == Err(IndexOutOfBounds) <==> n > 0 && i < 0)
            && (r.Err? ==> r.error == MissingField || r.error == IndexOutOfBounds)
  {
    CountIsOccurrences(fields, id);
    SelectNonEmpty(fields, id);
  }

  /** The counts of the ids below a bound, summed. */
  function SumOfCounts(reader: CertificateReader, bound: nat): nat {
    if bound == 0 then 0 else SumOfCounts(reader, bound - 1) + reader.Count(bound - 1)
  }

  function SumOfOccurrences(fields: seq<Field>, n: nat, bound: nat): nat
    requires n <= |fields|
  {
    if bound == 0 then 0 else SumOfOccurrences(fields, n, bound - 1) + Occurrences(fields, bound - 1, n)
  }

  lemma {:induction false} SumOfOccurrencesStep(fields: seq<Field>, n: nat, bound: nat)
    requires 0 < n <= |fields|
    ensures SumOfOccurrences(fields, n, bound)
         == SumOfOccurrences(fields, n - 1, bound) + if 0 <= fields[n - 1].id < bound then 1 else 0
    decreases bound
  {
    if bound > 0 {
      SumOfOccurrencesStep(fields, n, bound - 1);
    }
  }

  lemma {:induction false} SumOfOccurrencesZero(fields: seq<Field>, bound: nat)
    ensures SumOfOccurrences(fields, 0, bound) == 0
  {
    if bound > 0 {
      SumOfOccurrencesZero(fields, bound - 1);
    }
  }

  lemma {:induction false} OccurrencesAddUp(fields: seq<Field>, n: nat, bound: nat)
    requires n <= |fields| && forall i :: 0 <= i < |fields| ==> 0 <= fields[i].id < bound
    ensures SumOfOccurrences(fields, n, bound) == n
    decreases n
  {
    if n == 0 {
      SumOfOccurrencesZero(fields, bound);
    } else {
      OccurrencesAddUp(fields, n - 1, bound);
      SumOfOccurrencesStep(fields, n, bound);
    }
  }

  lemma {:induction false} CountsAreOccurrences(fields: seq<Field>, bound: nat)
    ensures SumOfCounts(CertificateReader(Group(fields)), bound) == SumOfOccurrences(fields, |fields|, bound)
  {
    if bound > 0 {
      CountsAreOccurrences(fields, bound - 1);
      CountIsOccurrences(fields, bound - 1);
    }
  }

  /** A parsed certificate has 16-bit ids only. */
  lemma WalkedIds(s: seq<byte>, i: nat)
    requires i < |Walk(s)|
    ensures 0 <= Walk(s)[i].id < TWO_16
  {
    SerializeWalk(s);
    UnsignedEach(Walk(s));
  }

  /** No field is lost or doubled by parsing and grouping: over all 16-bit ids the counts of a parsed
      certificate add up to the number of its fields, and no other id counts anything. */
  lemma CountsAddUp(visible: seq<byte>, id: int)
    requires HasField(visible)
    ensures var reader := CertificateReader(ParseResult(visible).value);
            && SumOfCounts(reader, TWO_16) == |Walk(visible)|
            && (reader.Count(id) > 0 ==> 0 <= id < TWO_16)
  {
    var fields := Walk(visible);
    forall i | 0 <= i < |fields| ensures 0 <= fields[i].id < TWO_16 {
      WalkedIds(visible, i);
    }
    CountsAreOccurrences(fields, TWO_16);
    OccurrencesAddUp(fields, |fields|, TWO_16);
  }

  /** Build, emit, parse, read: the i-th value added under an id is what get returns for it. */
  lemma EmitParseRead(fields: seq<Field>, p: nat)
    requires SmallValues(fields) && p < |fields|
    ensures var id := fields[p].id % TWO_16;
            var parsed := ParseResult(Serialize(fields));
            parsed.Ok? && CertificateReader(parsed.value).Get(id, Occurrences(UnsignedAll(fields), id, p))
                          == Ok(fields[p].value)
  {
    WalkAll(fields);
    UnsignedEach(fields);
    assert Walk(Serialize(fields)) != [];
    GetIsIthOccurrence(UnsignedAll(fields), fields[p].id % TWO_16,
                       Occurrences(UnsignedAll(fields), fields[p].id % TWO_16, p), fields[p].value);
  }
}
