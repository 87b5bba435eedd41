/**
 Reflected parameter layouts, the values written through them and the values read back.
 */
module Params {
  import opened Bytes
  import opened Utf16

  const MAX_STRUCT_DEPTH: nat := 8
  const MAX_ARRAY_ELEMENTS: nat := 4096
  const MAX_STRING_UNITS: nat := 0x1_0000

  /** The FProperty types the codec tells apart. `Int32` stands for IntProperty and
      Int32Property, `Byte` for ByteProperty and Int8Property, and `ObjectRef` for the
      object, class, weak-object and interface properties. */
  datatype PropertyType =
    | Int32 | UInt32 | Int64 | UInt64 | Int16 | UInt16 | Byte | Enum | ObjectRef
    | Bool | Float | Double | Name | Str | Array | Struct | Other

  datatype ParamSpec = ParamSpec(
    name: bytes,
    ty: PropertyType,
    offset: nat,
    innerType: PropertyType,
    innerSize: nat,
    fields: seq<ParamSpec>)

  datatype ParamInput = ParamInput(
    name: bytes,
    text: bytes,
    number: real,
    isArray: bool,
    items: seq<ParamInput>)

  datatype ArgValue =
    | Number(number: real)
    | Text(text: bytes)
    | List(elements: seq<EventArg>)
    | Record(members: seq<EventArg>)

  datatype EventArg = EventArg(name: bytes, value: ArgValue)

  /** What encoding needs from outside: the address the allocator gives the k-th buffer
      (buffer 0 is Parms), the reverse name lookup, and the IEEE 754 bit patterns. */
  datatype Codec = Codec(
    address: nat -> nat,
    nameIndex: bytes -> nat,
    floatBits: real -> nat,
    doubleBits: real -> nat)

  /** What decoding needs from outside: the name resolver, if any, and IEEE 754 values. */
  datatype Reader = Reader(
    resolve: Option<nat -> bytes>,
    floatValue: nat -> real,
    doubleValue: nat -> real)

  function Find(inputs: seq<ParamInput>, name: bytes): Option<ParamInput> {
    if inputs == [] then None
    else if inputs[0].name == name then Some(inputs[0])
    else Find(inputs[1..], name)
  }

  predicate StructElements(p: ParamSpec) {
    p.innerType.Struct? && p.fields != []
  }

  // ---------- Widths and extents ----------

  function IntWidth(ty: PropertyType): nat {
    match ty
    case Int32 => 4
    case UInt32 => 4
    case Int64 => 8
    case UInt64 => 8
    case ObjectRef => 8
    case Int16 => 2
    case UInt16 => 2
    case Byte => 1
    case Enum => 1
    case _ => 0
  }

  /** The bytes a scalar, name or string occupies; 0 for the types nothing is read from. */
  function Width(ty: PropertyType): nat {
    match ty
    case Bool => 1
    case Float => 4
    case Double => 8
    case Name => 8
    case Str => 16
    case _ => IntWidth(ty)
  }

  /** The bytes a field occupies from its own offset, as far as the depth cut-off reaches. */
  function Extent(p: ParamSpec, depth: nat): nat
    decreases p, 0
  {
    match p.ty
    case Array => 16
    case Struct => if depth < MAX_STRUCT_DEPTH then Span(p.fields, depth + 1) else 0
    case _ => Width(p.ty)
  }

  function Max(a: int, b: int): int { if a < b then b else a }

  function Min(a: int, b: int): int { if a < b then a else b }

  /** The end of the furthest field. */
  function Span(params: seq<ParamSpec>, depth: nat): nat
    decreases params, 1
  {
    if params == [] then 0
    else Max(params[0].offset + Extent(params[0], depth), Span(params[1..], depth))
  }

  function ElementExtent(p: ParamSpec, depth: nat): nat {
    if !StructElements(p) then Width(p.innerType)
    else if depth < MAX_STRUCT_DEPTH then Span(p.fields, depth + 1) else 0
  }

  /** Every array element fits its stride, at every level the codec visits. */
  predicate Sized(params: seq<ParamSpec>, depth: nat)
    decreases params, 1
  {
    params == [] || (SizedField(params[0], depth) && Sized(params[1..], depth))
  }

  predicate SizedField(p: ParamSpec, depth: nat)
    decreases p, 0
  {
    match p.ty
    case Struct => depth < MAX_STRUCT_DEPTH ==> Sized(p.fields, depth + 1)
    case Array =>
      p.innerSize != 0 ==>
        && ElementExtent(p, depth) <= p.innerSize
        && (StructElements(p) && depth < MAX_STRUCT_DEPTH ==> Sized(p.fields, depth + 1))
    case _ => true
  }

  /** Offset `rel` lies in field `p`. */
  predicate InField(p: ParamSpec, depth: nat, rel: int) {
    p.offset <= rel < p.offset + Extent(p, depth)
  }

  predicate Touches(params: seq<ParamSpec>, depth: nat, rel: int) {
    params != [] && (InField(params[0], depth, rel) || Touches(params[1..], depth, rel))
  }

  predicate Apart(p: ParamSpec, q: ParamSpec, depth: nat) {
    || p.offset + Extent(p, depth) <= q.offset
    || q.offset + Extent(q, depth) <= p.offset
    || Extent(p, depth) == 0
    || Extent(q, depth) == 0
  }

  predicate ApartFromAll(p: ParamSpec, params: seq<ParamSpec>, depth: nat) {
    params == [] || (Apart(p, params[0], depth) && ApartFromAll(p, params[1..], depth))
  }

  /** No two fields of one struct overlap, at every level the codec visits. */
  predicate Disjoint(params: seq<ParamSpec>, depth: nat)
    decreases params, 1
  {
    params == [] ||
    (&& DisjointField(params[0], depth)
     && ApartFromAll(params[0], params[1..], depth)
     && Disjoint(params[1..], depth))
  }

  predicate DisjointField(p: ParamSpec, depth: nat)
    decreases p, 0
  {
    (p.ty.Struct? || (p.ty.Array? && StructElements(p))) && depth < MAX_STRUCT_DEPTH ==>
      Disjoint(p.fields, depth + 1)
  }

  lemma {:induction false} TouchesWithinSpan(params: seq<ParamSpec>, depth: nat, rel: int)
    ensures Touches(params, depth, rel) ==> 0 <= rel < Span(params, depth)
  {
    if params != [] {
      TouchesWithinSpan(params[1..], depth, rel);
    }
  }

  lemma {:induction false} ApartMeansUntouched(p: ParamSpec, params: seq<ParamSpec>, depth: nat, rel: int)
    requires ApartFromAll(p, params, depth) && InField(p, depth, rel)
    ensures !Touches(params, depth, rel)
  {
    if params != [] {
      ApartMeansUntouched(p, params[1..], depth, rel);
    }
  }

  // ---------- Numbers and text ----------

  /** The conversion from a floating value to an integer: toward zero. */
  function Trunc(x: real): int {
    if x >= 0.0 then x.Floor else -((-x).Floor)
  }

  /** The integer part is the one integer between zero and `x` that is less than one away from it. */
  lemma TruncIsTowardZero(x: real, n: int)
    ensures n == Trunc(x) <==> if x >= 0.0 then n as real <= x < n as real + 1.0
                               else n as real - 1.0 < x <= n as real
  {
  }

  function WordNumber(ty: PropertyType, word: nat): ArgValue {
    Number((if ty.Int32? || ty.Int64? || ty.Int16? || ty.Byte?
            then Signed(word, Pow256(IntWidth(ty))) else word) as real)
  }

  function UnitBytes(u: seq<unit>): (s: bytes)
    ensures |s| == 2 * |u|
  {
    seq(2 * |u|, i requires 0 <= i < 2 * |u| => if i % 2 == 0 then u[i / 2] % 256 else u[i / 2] / 256)
  }

  function UnitsFrom(s: bytes): (u: seq<unit>)
    ensures |u| == |s| / 2
  {
    seq(|s| / 2, i requires 0 <= i < |s| / 2 => s[2 * i] as int + 256 * s[2 * i + 1] as int)
  }

  lemma UnitsFromPrefix(u: seq<unit>, n: nat)
    requires n <= |u|
    ensures UnitsFrom(UnitBytes(u)[..2 * n]) == u[..n]
  {
    forall i | 0 <= i < n
      ensures UnitsFrom(UnitBytes(u)[..2 * n])[i] == u[i]
    {
      assert UnitBytes(u)[2 * i] == u[i] % 256;
      assert UnitBytes(u)[2 * i + 1] == u[i] / 256;
    }
  }

  /** The bytes of `count` elements of the given stride. */
  function Bulk(count: nat, stride: nat): nat { count * stride }

  lemma BulkNext(count: nat, stride: nat)
    requires count > 0
    ensures Bulk(count, stride) == stride + Bulk(count - 1, stride)
  {
  }

  lemma BulkNone(count: nat, stride: nat)
    requires count == 0
    ensures Bulk(count, stride) == 0
  {
  }

  /** An element count after it is stored as int32 and read back. */
  function StoredCount(n: nat): int {
    Signed(n % TWO_TO_THE_32, TWO_TO_THE_32)
  }

  // ---------- What a call's arguments decode to, without any bytes ----------

  function ExpectedText(text: bytes): bytes {
    var u := Utf8ToUtf16(text);
    var num := StoredCount(|u| + 1);
    if text == [] || num <= 1 then [] else Utf16ToUtf8(u[..Min(num - 1, MAX_STRING_UNITS)])
  }

  function ExpectedNumber(ty: PropertyType, n: int): int {
    match ty
    case Int32 => Signed(n % TWO_TO_THE_32, TWO_TO_THE_32)
    case UInt32 => n % TWO_TO_THE_32
    case Int64 => Signed(n % TWO_TO_THE_64, TWO_TO_THE_64)
    case UInt64 => n % TWO_TO_THE_64
    case Int16 => Signed(n % 0x1_0000, 0x1_0000)
    case UInt16 => n % 0x1_0000
    case Byte => Signed(n % 0x100, 0x100)
    case Enum => n % 0x100
    case _ => 0
  }

  /** The decoded scalar for an input, or for its absence; None for a type that is skipped. */
  function ExpectedScalar(codec: Codec, reader: Reader, ty: PropertyType, input: Option<ParamInput>)
    : Option<ArgValue>
  {
    match ty
    case Bool => Some(Number(if input.Some? && input.value.number != 0.0 then 1.0 else 0.0))
    case Float =>
      Some(Number(reader.floatValue(
                    if input.Some? then codec.floatBits(input.value.number) % TWO_TO_THE_32 else 0)))
    case Double =>
      Some(Number(reader.doubleValue(
                    if input.Some? then codec.doubleBits(input.value.number) % TWO_TO_THE_64 else 0)))
    case Name =>
      var index := if input.Some? then codec.nameIndex(input.value.text) % TWO_TO_THE_32 else 0;
      Some(if reader.resolve.Some? then Text(reader.resolve.value(index)) else Number(index as real))
    case Str => Some(Text(if input.Some? then ExpectedText(input.value.text) else []))
    case Array => None
    case Struct => None
    case Other => None
    case _ => Some(Number(ExpectedNumber(ty, if input.Some? then Trunc(input.value.number) else 0) as real))
  }

  function ExpectedFields(codec: Codec, reader: Reader, params: seq<ParamSpec>,
                          inputs: seq<ParamInput>, depth: nat): seq<EventArg>
    decreases params, 2
  {
    if params == [] then []
    else
      ExpectedField(codec, reader, params[0], Find(inputs, params[0].name), depth)
      + ExpectedFields(codec, reader, params[1..], inputs, depth)
  }

  function ExpectedField(codec: Codec, reader: Reader, p: ParamSpec,
                         input: Option<ParamInput>, depth: nat): seq<EventArg>
    decreases p, 1
  {
    match p.ty
    case Array =>
      var items := if input.Some? && input.value.isArray && p.innerSize != 0 then input.value.items else [];
      var kept := Min(Max(StoredCount(|items|), 0), MAX_ARRAY_ELEMENTS);
      [EventArg(p.name, List(ExpectedElements(codec, reader, p, items[..kept], depth)))]
    case Struct =>
      [EventArg(p.name, Record(
                  if depth < MAX_STRUCT_DEPTH
                  then ExpectedFields(codec, reader, p.fields,
                                      if input.Some? then input.value.items else [], depth + 1)
                  else []))]
    case _ =>
      match ExpectedScalar(codec, reader, p.ty, input)
      case None => []
      case Some(v) => [EventArg(p.name, v)]
  }

  function ExpectedElements(codec: Codec, reader: Reader, p: ParamSpec,
                            items: seq<ParamInput>, depth: nat): seq<EventArg>
    decreases p, 0, |items|
  {
    if items == [] then []
    else if StructElements(p) then
      [EventArg([], Record(if depth < MAX_STRUCT_DEPTH
                           then ExpectedFields(codec, reader, p.fields, items[0].items, depth + 1)
                           else []))]
      + ExpectedElements(codec, reader, p, items[1..], depth)
    else
      match ExpectedScalar(codec, reader, p.innerType, Some(items[0]))
      case None => []
      case Some(v) => [EventArg([], v)] + ExpectedElements(codec, reader, p, items[1..], depth)
  }

  // ---------- When the expected value is the supplied one ----------

  predicate Within(n: int, lo: int, hi: int) { lo <= n < hi }

  /** The cast from double to the written integer type is defined. */
  predicate CastDefined(ty: PropertyType, n: int) {
    match ty
    case Int32 => Within(n, -TWO_TO_THE_31, TWO_TO_THE_31)
    case UInt32 => Within(n, -TWO_TO_THE_31, TWO_TO_THE_31)
    case Int64 => Within(n, -TWO_TO_THE_63, TWO_TO_THE_63)
    case UInt64 => Within(n, -TWO_TO_THE_63, TWO_TO_THE_63)
    case Int16 => Within(n, -0x8000, 0x8000)
    case UInt16 => Within(n, -0x8000, 0x8000)
    case Byte => Within(n, 0, 0x100)
    case Enum => Within(n, 0, 0x100)
    case _ => false
  }

  /** The values both sides agree on: the unsigned types lose their sign, bytes gain one. */
  predicate Agreed(ty: PropertyType, n: int) {
    match ty
    case UInt32 => 0 <= n
    case UInt64 => 0 <= n
    case UInt16 => 0 <= n
    case Byte => n < 0x80
    case _ => true
  }

  lemma IntegerSurvives(ty: PropertyType, n: int)
    requires CastDefined(ty, n)
    ensures ExpectedNumber(ty, n) == n <==> Agreed(ty, n)
  {
    if ty.Int64? || ty.UInt64? {
      assert n < 0 ==> n % TWO_TO_THE_64 == n + TWO_TO_THE_64;
    } else if ty.Int32? || ty.UInt32? {
      assert n < 0 ==> n % TWO_TO_THE_32 == n + TWO_TO_THE_32;
    } else if ty.Int16? || ty.UInt16? {
      assert n < 0 ==> n % 0x1_0000 == n + 0x1_0000;
    }
  }

  predicate IsInteger(ty: PropertyType) {
    ty in {Int32, UInt32, Int64, UInt64, Int16, UInt16, Byte, Enum}
  }

  /** The number of values an integer type has, and the least the decoder gives for it. */
  function Modulus(ty: PropertyType): (m: int)
    requires IsInteger(ty)
    ensures m > 0
  {
    if ty.Byte? || ty.Enum? then 0x100
    else if ty.Int16? || ty.UInt16? then 0x1_0000
    else if ty.Int32? || ty.UInt32? then 0x1_0000_0000
    else 0x1_0000_0000_0000_0000
  }

  function Least(ty: PropertyType): int
    requires IsInteger(ty)
  {
    if ty in {Int32, Int64, Int16, Byte} then -(Modulus(ty) / 2) else 0
  }

  predicate Congruent(a: int, b: int, modulus: int)
    requires modulus > 0
  {
    (a - b) % modulus == 0
  }

  /** An integer in any case comes back as the one value the decoder can give that differs from it by a
      multiple of the modulus. */
  lemma NumberWraps(ty: PropertyType, n: int, r: int)
    requires IsInteger(ty)
    ensures r == ExpectedNumber(ty, n) <==>
            Least(ty) <= r < Least(ty) + Modulus(ty) && Congruent(r, n, Modulus(ty))
  {
    hide Signed, Congruent;
    WrapsByte(n, r);
    WrapsShort(n, r);
    WrapsWide(n, r);
    assert 0x100 / 2 == 0x80 && 0x1_0000 / 2 == 0x8000 && 0x1_0000_0000 / 2 == 0x8000_0000;
  }

  lemma WrapsByte(n: int, r: int)
    ensures r == Signed(n % 0x100, 0x100) <==> -0x80 <= r < 0x80 && Congruent(r, n, 0x100)
    ensures r == n % 0x100 <==> 0 <= r < 0x100 && Congruent(r, n, 0x100)
  {
    var u, q, k := n % 0x100, n / 0x100, (r - n) / 0x100;
    assert n == 0x100 * q + u;
    assert Congruent(r, n, 0x100) <==> r == u + 0x100 * (q + k);
  }

  lemma WrapsShort(n: int, r: int)
    ensures r == Signed(n % 0x1_0000, 0x1_0000) <==> -0x8000 <= r < 0x8000 && Congruent(r, n, 0x1_0000)
    ensures r == n % 0x1_0000 <==> 0 <= r < 0x1_0000 && Congruent(r, n, 0x1_0000)
  {
    var u, q, k := n % 0x1_0000, n / 0x1_0000, (r - n) / 0x1_0000;
    assert n == 0x1_0000 * q + u;
    assert Congruent(r, n, 0x1_0000) <==> r == u + 0x1_0000 * (q + k);
  }

  lemma WrapsWide(n: int, r: int)
    ensures r == Signed(n % TWO_TO_THE_32, TWO_TO_THE_32) <==>
            -0x8000_0000 <= r < 0x8000_0000 && Congruent(r, n, 0x1_0000_0000)
    ensures r == n % TWO_TO_THE_32 <==> 0 <= r < 0x1_0000_0000 && Congruent(r, n, 0x1_0000_0000)
    ensures r == Signed(n % TWO_TO_THE_64, TWO_TO_THE_64) <==>
            -0x8000_0000_0000_0000 <= r < 0x8000_0000_0000_0000 && Congruent(r, n, 0x1_0000_0000_0000_0000)
    ensures r == n % TWO_TO_THE_64 <==>
            0 <= r < 0x1_0000_0000_0000_0000 && Congruent(r, n, 0x1_0000_0000_0000_0000)
  {
  }

  /** An integer argument comes back as supplied exactly when both sides agree on it. */
  lemma NumberSurvivesExactly(ty: PropertyType, x: real)
    requires CastDefined(ty, Trunc(x))
    ensures ExpectedNumber(ty, Trunc(x)) as real == x <==> x == Trunc(x) as real && Agreed(ty, Trunc(x))
  {
    IntegerSurvives(ty, Trunc(x));
  }

  /** A text comes back as supplied exactly when it is well-formed UTF-8 that fits the reader's cap. */
  lemma TextSurvivesExactly(text: bytes)
    ensures ExpectedText(text) == text
       <==> WellFormedUtf8(text) && |Utf8ToUtf16(text)| <= MAX_STRING_UNITS
  {
    if text == [] {
      assert Utf8ToUtf16(text) == [] && WellFormedUtf8(text);
    } else {
      NonEmptyTextSurvives(text, |Utf8ToUtf16(text)|);
    }
  }

  lemma NonEmptyTextSurvives(text: bytes, n: nat)
    requires text != [] && n == |Utf8ToUtf16(text)|
    ensures ExpectedText(text) == text <==> WellFormedUtf8(text) && n <= MAX_STRING_UNITS
  {
    SomeUnits(text);
    assert n + 1 < TWO_TO_THE_31 ==> StoredCount(n + 1) == n + 1;
    if StoredCount(n + 1) > 1 {
      KeptPrefix(text);
      PrefixSurvives(text, Min(StoredCount(n + 1) - 1, MAX_STRING_UNITS));
    }
  }

  lemma KeptPrefix(text: bytes)
    requires text != [] && StoredCount(|Utf8ToUtf16(text)| + 1) > 1
    ensures ExpectedText(text)
         == Utf16ToUtf8(Utf8ToUtf16(text)[..Min(StoredCount(|Utf8ToUtf16(text)| + 1) - 1, MAX_STRING_UNITS)])
  {
  }

  lemma SomeUnits(text: bytes)
    requires text != []
    ensures |Utf8ToUtf16(text)| > 0
  {
    assert |Units(DecodeUtf8(text).cp)| > 0;
  }

  lemma PrefixSurvives(text: bytes, n: nat)
    requires n <= |Utf8ToUtf16(text)|
    ensures Utf16ToUtf8(Utf8ToUtf16(text)[..n]) == text
       <==> WellFormedUtf8(text) && |Utf8ToUtf16(text)| == n
  {
    var u := Utf8ToUtf16(text);
    Utf16First(u[..n]);
    Utf8FirstExactly(text);
    if n == |u| {
      assert u[..n] == u;
    } else {
      assert |Repaired(u[..n])| != |u|;
    }
  }
}
