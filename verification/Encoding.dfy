/** Canonical length-prefixed fields (crates/nas-core/src/encoding.rs). */
module Encoding {
  import opened Wrappers
  import opened Bytes

  datatype DecodeError =
    | Truncated
    | LengthOverrun(want: nat, have: nat)
    | FieldTooLarge(size: nat)

  const LEN_PREFIX: nat := 4

  predicate Fits(field: Bytes) {
    |field| <= U32_MAX
  }

  predicate AllFit(fields: seq<Bytes>) {
    forall i | 0 <= i < |fields| :: Fits(fields[i])
  }

  /** One prefixed field. */
  function Field(field: Bytes): Bytes {
    LE(|field|, LEN_PREFIX) + field
  }

  /** The octets of a field sequence. */
  function Wire(fields: seq<Bytes>): Bytes {
    if fields == [] then [] else Field(fields[0]) + Wire(fields[1..])
  }

  lemma {:induction false} WireAppend(a: seq<Bytes>, b: seq<Bytes>)
    ensures Wire(a + b) == Wire(a) + Wire(b)
  {
    hide Field;
    if a == [] {
      assert a + b == b;
    } else {
      WireAppend(a[1..], b);
      assert (a + b)[1..] == a[1..] + b;
    }
  }

  /** The size of the first field no u32 prefix can express. */
  function FirstTooLarge(fields: seq<Bytes>): nat
    requires !AllFit(fields)
  {
    if !Fits(fields[0]) then |fields[0]| else
      assert fields == [fields[0]] + fields[1..];
      FirstTooLarge(fields[1..])
  }

  function Encode(fields: seq<Bytes>): Result<Bytes, DecodeError> {
    if AllFit(fields) then Ok(Wire(fields)) else Err(FieldTooLarge(FirstTooLarge(fields)))
  }

  lemma {:induction false} FirstTooLargeIs(fields: seq<Bytes>, i: nat)
    requires i < |fields| && AllFit(fields[..i]) && !Fits(fields[i])
    ensures !AllFit(fields) && FirstTooLarge(fields) == |fields[i]|
  {
    if i > 0 {
      assert Fits(fields[..i][0]);
      assert fields[1..][..i - 1] == fields[..i][1..];
      FirstTooLargeIs(fields[1..], i - 1);
    }
  }

  /** `encode_fields` over `push_field`: grow a buffer, stop at the first oversized field. */
  method EncodeFields(fields: seq<Bytes>) returns (r: Result<Bytes, DecodeError>)
    ensures r == Encode(fields)
  {
    var out: Bytes := [];
    for i := 0 to |fields|
      invariant AllFit(fields[..i]) && out == Wire(fields[..i])
    {
      if |fields[i]| > U32_MAX {
        FirstTooLargeIs(fields, i);
        return Err(FieldTooLarge(|fields[i]|));
      }
      assert fields[..i + 1] == fields[..i] + [fields[i]];
      WireAppend(fields[..i], [fields[i]]);
      out := out + LE(|fields[i]|, LEN_PREFIX) + fields[i];
    }
    assert fields[..|fields|] == fields;
    return Ok(out);
  }

  /** `decode_field`: the first field and the unconsumed rest. */
  function DecodeField(input: Bytes): (r: Result<(Bytes, Bytes), DecodeError>)
    ensures r.Ok? ==> input == Field(r.value.0) + r.value.1 && Fits(r.value.0)
  {
    if |input| < LEN_PREFIX then Err(Truncated) else
      var want := FromLE(input[..LEN_PREFIX]);
      var rest := input[LEN_PREFIX..];
      if |rest| < want then Err(LengthOverrun(want, |rest|)) else
        LE32(0, input[..LEN_PREFIX]);
        assert input == LE(want, LEN_PREFIX) + rest[..want] + rest[want..];
        Ok((rest[..want], rest[want..]))
  }

  lemma DecodeFieldOf(field: Bytes, rest: Bytes)
    requires Fits(field)
    ensures DecodeField(Field(field) + rest) == Ok((field, rest))
  {
    hide LE, FromLE;
    LE32(|field|, LE(0, 4));
    var input := Field(field) + rest;
    assert input[..LEN_PREFIX] == LE(|field|, LEN_PREFIX);
    assert input[LEN_PREFIX..] == field + rest;
  }

  /** `decode_fields` as a recursion. Trailing octets are an error, never a remainder. */
  function Decode(input: Bytes): (r: Result<seq<Bytes>, DecodeError>)
    ensures r.Ok? ==> AllFit(r.value)
    decreases |input|
  {
    if input == [] then Ok([]) else
      var head :- DecodeField(input);
      var tail :- Decode(head.1);
      Ok([head.0] + tail)
  }

  /** `decode_fields` as the source's loop. */
  method DecodeFields(bytes: Bytes) returns (r: Result<seq<Bytes>, DecodeError>)
    ensures r == Decode(bytes)
  {
    var input := bytes;
    var out: seq<Bytes> := [];
    assert Decode(bytes).Ok? ==> [] + Decode(bytes).value == Decode(bytes).value;
    while input != []
      invariant Decode(bytes) == match Decode(input) case Ok(t) => Ok(out + t) case Err(e) => Err(e)
      decreases |input|
    {
      var step := DecodeField(input);
      match step
      case Err(e) => return Err(e);
      case Ok(head) =>
        ghost var t := Decode(head.1);
        assert t.Ok? ==> out + ([head.0] + t.value) == (out + [head.0]) + t.value;
        out, input := out + [head.0], head.1;
    }
    assert out + [] == out;
    return Ok(out);
  }

  /** Reading back what was written, with anything after it left alone. */
  lemma {:induction false} DecodeOfWire(fields: seq<Bytes>)
    requires AllFit(fields)
    ensures Decode(Wire(fields)) == Ok(fields)
  {
    hide LE, FromLE, DecodeField;
    if fields != [] {
      DecodeFieldOf(fields[0], Wire(fields[1..]));
      DecodeOfWire(fields[1..]);
      assert fields == [fields[0]] + fields[1..];
    }
  }

  /** Every accepted octet string is the encoding of what it decodes to. */
  lemma {:induction false} WireOfDecode(input: Bytes)
    requires Decode(input).Ok?
    ensures Wire(Decode(input).value) == input
    decreases |input|
  {
    hide LE, FromLE, DecodeField;
    if input != [] {
      var head := DecodeField(input).value;
      WireOfDecode(head.1);
      assert Decode(input).value[1..] == Decode(head.1).value;
    }
  }

  /** decode_fields inverts encode_fields, and accepts nothing else. */
  lemma FieldsCanonical(input: Bytes, fields: seq<Bytes>)
    ensures Decode(input) == Ok(fields) <==> Encode(fields) == Ok(input)
  {
    if Encode(fields) == Ok(input) {
      DecodeOfWire(fields);
    }
    if Decode(input) == Ok(fields) {
      WireOfDecode(input);
    }
  }

  lemma FieldPrefixUnique(f: Bytes, x: Bytes, g: Bytes, y: Bytes)
    requires Fits(f) && Fits(g) && Field(f) + x == Field(g) + y
    ensures f == g && x == y
  {
    DecodeFieldOf(f, x);
    DecodeFieldOf(g, y);
  }

  /**
   * Self-delimiting: with the same number of fields, a common octet string splits in
   * one way only, whatever follows the fields. This is what lets a signature or a key
   * be appended to an encoded body without a boundary marker.
   */
  lemma {:induction false} WirePrefixUnique(a: seq<Bytes>, x: Bytes, b: seq<Bytes>, y: Bytes)
    requires AllFit(a) && AllFit(b) && |a| == |b|
    requires Wire(a) + x == Wire(b) + y
    ensures a == b && x == y
  {
    hide Field;
    if a != [] {
      calc {
        Field(a[0]) + (Wire(a[1..]) + x);
        (Field(a[0]) + Wire(a[1..])) + x;
        (Field(b[0]) + Wire(b[1..])) + y;
        Field(b[0]) + (Wire(b[1..]) + y);
      }
      FieldPrefixUnique(a[0], Wire(a[1..]) + x, b[0], Wire(b[1..]) + y);
      WirePrefixUnique(a[1..], x, b[1..], y);
      assert a == [a[0]] + a[1..] && b == [b[0]] + b[1..];
    } else {
      assert Wire(a) + x == x && Wire(b) + y == y;
    }
  }
}
