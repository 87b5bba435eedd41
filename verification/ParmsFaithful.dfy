/**
 The inputs that come back exactly as the caller supplied them.
 */
module ParmsFaithful {
  import opened Bytes
  import opened Utf16
  import opened Params
  import opened ParmsEncode
  import opened ParmsDecode
  import opened ParmsRoundTrip
  import opened ReflectLayout

  // ---------- What the caller supplied ----------

  /** The value as supplied, untouched by any cast or encoding; the default when absent. */
  function SuppliedScalar(codec: Codec, reader: Reader, ty: PropertyType, input: Option<ParamInput>)
    : Option<ArgValue>
  {
    if input.None? || ty.Array? || ty.Struct? || ty.Other? then ExpectedScalar(codec, reader, ty, None)
    else if ty.Str? || ty.Name? then Some(Text(input.value.text))
    else Some(Number(input.value.number))
  }

  function SuppliedFields(codec: Codec, reader: Reader, params: seq<ParamSpec>, inputs: seq<ParamInput>): seq<EventArg>
    decreases params, 2
  {
    if params == [] then []
    else
      SuppliedField(codec, reader, params[0], Find(inputs, params[0].name))
      + SuppliedFields(codec, reader, params[1..], inputs)
  }

  function SuppliedField(codec: Codec, reader: Reader, p: ParamSpec, input: Option<ParamInput>): seq<EventArg>
    decreases p, 1
  {
    var items := if input.Some? then input.value.items else [];
    match p.ty
    case Array => [EventArg(p.name, List(SuppliedElements(codec, reader, p, items)))]
    case Struct => [EventArg(p.name, Record(SuppliedFields(codec, reader, p.fields, items)))]
    case _ =>
      match SuppliedScalar(codec, reader, p.ty, input)
      case None => []
      case Some(v) => [EventArg(p.name, v)]
  }

  function SuppliedElements(codec: Codec, reader: Reader, p: ParamSpec, items: seq<ParamInput>): seq<EventArg>
    decreases p, 0, |items|
  {
    if items == [] then []
    else
      var head :=
        if StructElements(p) then [EventArg([], Record(SuppliedFields(codec, reader, p.fields, items[0].items)))]
        else
          match SuppliedScalar(codec, reader, p.innerType, Some(items[0]))
          case None => []
          case Some(v) => [EventArg([], v)];
      head + SuppliedElements(codec, reader, p, items[1..])
  }

  // ---------- When it comes back ----------

  predicate IsInteger(ty: PropertyType) { IntWidth(ty) != 0 && !ty.ObjectRef? }

  predicate Nested(ty: PropertyType) { ty.Array? || ty.Struct? || ty.Other? }

  /** The array's elements decode to something. */
  predicate Decodable(p: ParamSpec) { StructElements(p) || !Nested(p.innerType) }

  /** Both sides agree on the value: integers in the common range, well-formed text within the cap,
      names the pool knows, flags 0 or 1, floats that survive their own bits, no object. */
  predicate FaithfulScalar(codec: Codec, reader: Reader, ty: PropertyType, input: ParamInput) {
    match ty
    case Bool => input.number == 0.0 || input.number == 1.0
    case Float => reader.floatValue(codec.floatBits(input.number) % TWO_TO_THE_32) == input.number
    case Double => reader.doubleValue(codec.doubleBits(input.number) % TWO_TO_THE_64) == input.number
    case Name =>
      reader.resolve.Some? && reader.resolve.value(codec.nameIndex(input.text) % TWO_TO_THE_32) == input.text
    case Str => WellFormedUtf8(input.text) && |Utf8ToUtf16(input.text)| <= MAX_STRING_UNITS
    case ObjectRef => input.number == 0.0
    case Array => true
    case Struct => true
    case Other => true
    case _ => input.number == Trunc(input.number) as real && Agreed(ty, Trunc(input.number))
  }

  /** Only types that are skipped. */
  predicate NoArguments(params: seq<ParamSpec>) {
    params == [] || (params[0].ty.Other? && NoArguments(params[1..]))
  }

  predicate FaithfulFields(codec: Codec, reader: Reader, params: seq<ParamSpec>, inputs: seq<ParamInput>, depth: nat)
    decreases params, 2
  {
    params == [] ||
    (&& FaithfulField(codec, reader, params[0], Find(inputs, params[0].name), depth)
     && FaithfulFields(codec, reader, params[1..], inputs, depth))
  }

  /** Structs within the depth cut-off or without arguments; arrays given as such, with a known
      element size and within the element cap. */
  predicate FaithfulField(codec: Codec, reader: Reader, p: ParamSpec, input: Option<ParamInput>, depth: nat)
    decreases p, 1
  {
    var items := if input.Some? then input.value.items else [];
    match p.ty
    case Array =>
      Decodable(p) && items != [] ==>
        && input.value.isArray && p.innerSize != 0 && |items| <= MAX_ARRAY_ELEMENTS
        && FaithfulElements(codec, reader, p, items, depth)
    case Struct =>
      if depth < MAX_STRUCT_DEPTH then FaithfulFields(codec, reader, p.fields, items, depth + 1)
      else NoArguments(p.fields)
    case _ => input.Some? ==> FaithfulScalar(codec, reader, p.ty, input.value)
  }

  predicate FaithfulElements(codec: Codec, reader: Reader, p: ParamSpec, items: seq<ParamInput>, depth: nat)
    decreases p, 0, |items|
  {
    items == [] ||
    (&& (if !StructElements(p) then FaithfulScalar(codec, reader, p.innerType, items[0])
         else if depth < MAX_STRUCT_DEPTH then FaithfulFields(codec, reader, p.fields, items[0].items, depth + 1)
         else NoArguments(p.fields))
     && FaithfulElements(codec, reader, p, items[1..], depth))
  }

  // ---------- The casts C++ defines ----------

  predicate DefinedScalar(ty: PropertyType, input: ParamInput) {
    IsInteger(ty) ==> CastDefined(ty, Trunc(input.number))
  }

  /** Every number the encoder casts is in the range of the type it is cast to. */
  predicate DefinedFields(params: seq<ParamSpec>, inputs: seq<ParamInput>, depth: nat)
    decreases params, 2
  {
    params == [] ||
    (DefinedField(params[0], Find(inputs, params[0].name), depth) && DefinedFields(params[1..], inputs, depth))
  }

  predicate DefinedField(p: ParamSpec, input: Option<ParamInput>, depth: nat)
    decreases p, 1
  {
    input.None? ||
    match p.ty
    case Array => input.value.isArray && p.innerSize != 0 ==> DefinedElements(p, input.value.items, depth)
    case Struct => depth < MAX_STRUCT_DEPTH ==> DefinedFields(p.fields, input.value.items, depth + 1)
    case _ => DefinedScalar(p.ty, input.value)
  }

  predicate DefinedElements(p: ParamSpec, items: seq<ParamInput>, depth: nat)
    decreases p, 0, |items|
  {
    items == [] ||
    (&& (if !StructElements(p) then DefinedScalar(p.innerType, items[0])
         else depth < MAX_STRUCT_DEPTH ==> DefinedFields(p.fields, items[0].items, depth + 1))
     && DefinedElements(p, items[1..], depth))
  }

  // ---------- Exactly then ----------

  lemma ScalarComesBack(codec: Codec, reader: Reader, ty: PropertyType, input: ParamInput)
    requires !Nested(ty) && DefinedScalar(ty, input)
    ensures ExpectedScalar(codec, reader, ty, Some(input)) == SuppliedScalar(codec, reader, ty, Some(input))
       <==> FaithfulScalar(codec, reader, ty, input)
  {
    hide Utf8ToUtf16, Utf16ToUtf8, WellFormedUtf8, ExpectedText;
    if ty.Str? {
      TextSurvivesExactly(input.text);
    } else if IsInteger(ty) {
      NumberSurvivesExactly(ty, input.number);
    }
  }

  lemma ScalarCounts(codec: Codec, reader: Reader, ty: PropertyType, input: Option<ParamInput>)
    ensures ExpectedScalar(codec, reader, ty, input).None? <==> Nested(ty)
    ensures SuppliedScalar(codec, reader, ty, input).None? <==> Nested(ty)
    ensures input.None? ==> ExpectedScalar(codec, reader, ty, input) == SuppliedScalar(codec, reader, ty, input)
  {
    hide ExpectedText, ExpectedNumber;
  }

  lemma FieldCounts(codec: Codec, reader: Reader, p: ParamSpec, input: Option<ParamInput>, depth: nat)
    ensures |ExpectedField(codec, reader, p, input, depth)| == |SuppliedField(codec, reader, p, input)|
    ensures SuppliedField(codec, reader, p, input) == [] <==> p.ty.Other?
  {
    hide ExpectedScalar, SuppliedScalar, ExpectedFields, SuppliedFields, ExpectedElements, SuppliedElements;
    ScalarCounts(codec, reader, p.ty, input);
  }

  lemma {:induction false} SuppliedNothing(codec: Codec, reader: Reader, params: seq<ParamSpec>, inputs: seq<ParamInput>)
    ensures SuppliedFields(codec, reader, params, inputs) == [] <==> NoArguments(params)
  {
    hide SuppliedField;
    if params != [] {
      FieldCounts(codec, reader, params[0], Find(inputs, params[0].name), 0);
      SuppliedNothing(codec, reader, params[1..], inputs);
    }
  }

  lemma EqualParts<T>(a: seq<T>, b: seq<T>, c: seq<T>, d: seq<T>)
    requires |a| == |c|
    ensures a + b == c + d <==> a == c && b == d
  {
    if a + b == c + d {
      assert (a + b)[..|a|] == a && (c + d)[..|a|] == c;
      assert (a + b)[|a|..] == b && (c + d)[|a|..] == d;
    }
  }

  /** The expected arguments are the supplied ones exactly when every supplied value is faithful. */
  lemma {:induction false} FieldsComeBackExactly(codec: Codec, reader: Reader, params: seq<ParamSpec>,
                                                 inputs: seq<ParamInput>, depth: nat)
    requires DefinedFields(params, inputs, depth)
    ensures ExpectedFields(codec, reader, params, inputs, depth) == SuppliedFields(codec, reader, params, inputs)
       <==> FaithfulFields(codec, reader, params, inputs, depth)
    decreases params, 2
  {
    hide FaithfulField, ExpectedField, SuppliedField, DefinedField;
    if params != [] {
      var p, input := params[0], Find(inputs, params[0].name);
      FieldComesBackExactly(codec, reader, p, input, depth);
      FieldsComeBackExactly(codec, reader, params[1..], inputs, depth);
      FieldCounts(codec, reader, p, input, depth);
      EqualParts(ExpectedField(codec, reader, p, input, depth),
                 ExpectedFields(codec, reader, params[1..], inputs, depth),
                 SuppliedField(codec, reader, p, input),
                 SuppliedFields(codec, reader, params[1..], inputs));
    }
  }

  lemma {:induction false} FieldComesBackExactly(codec: Codec, reader: Reader, p: ParamSpec,
                                                 input: Option<ParamInput>, depth: nat)
    requires DefinedField(p, input, depth)
    ensures ExpectedField(codec, reader, p, input, depth) == SuppliedField(codec, reader, p, input)
       <==> FaithfulField(codec, reader, p, input, depth)
    decreases p, 1
  {
    hide FaithfulScalar, ExpectedScalar, SuppliedScalar, ExpectedElements, SuppliedElements,
         ExpectedFields, SuppliedFields, FaithfulFields, NoArguments, DefinedFields;
    var items := if input.Some? then input.value.items else [];
    if p.ty.Array? {
      ArrayComesBackExactly(codec, reader, p, input, depth);
    } else if p.ty.Struct? {
      if depth < MAX_STRUCT_DEPTH {
        if input.None? {
          NothingCast(p.fields, depth + 1);
        }
        FieldsComeBackExactly(codec, reader, p.fields, items, depth + 1);
      } else {
        SuppliedNothing(codec, reader, p.fields, items);
      }
    } else {
      ScalarCounts(codec, reader, p.ty, input);
      if input.Some? && !p.ty.Other? {
        ScalarComesBack(codec, reader, p.ty, input.value);
      } else if input.Some? {
        assert FaithfulScalar(codec, reader, Other, input.value) by {
          SkippedIsFaithful(codec, reader, input.value);
        }
      }
    }
  }

  lemma SkippedIsFaithful(codec: Codec, reader: Reader, input: ParamInput)
    ensures FaithfulScalar(codec, reader, Other, input)
  {
  }

  lemma {:induction false} NothingCast(params: seq<ParamSpec>, depth: nat)
    ensures DefinedFields(params, [], depth)
  {
    if params != [] {
      NothingCast(params[1..], depth);
    }
  }

  lemma {:induction false} ArrayComesBackExactly(codec: Codec, reader: Reader, p: ParamSpec,
                                                 input: Option<ParamInput>, depth: nat)
    requires p.ty.Array? && DefinedField(p, input, depth)
    ensures ExpectedField(codec, reader, p, input, depth) == SuppliedField(codec, reader, p, input)
       <==> FaithfulField(codec, reader, p, input, depth)
    decreases p, 0
  {
    hide ExpectedElements, SuppliedElements, FaithfulElements, DefinedElements;
    var items := if input.Some? then input.value.items else [];
    var given := if input.Some? && input.value.isArray && p.innerSize != 0 then items else [];
    var kept := Min(Max(StoredCount(|given|), 0), MAX_ARRAY_ELEMENTS);
    ElementCounts(codec, reader, p, items, depth);
    ElementCounts(codec, reader, p, given[..kept], depth);
    if Decodable(p) && given != [] && |given| <= MAX_ARRAY_ELEMENTS {
      assert given[..kept] == items;
      ElementsComeBackExactly(codec, reader, p, items, depth);
    }
  }

  lemma {:induction false} ElementCounts(codec: Codec, reader: Reader, p: ParamSpec, items: seq<ParamInput>, depth: nat)
    ensures |ExpectedElements(codec, reader, p, items, depth)| == if Decodable(p) then |items| else 0
    ensures |SuppliedElements(codec, reader, p, items)| == if Decodable(p) then |items| else 0
    decreases |items|
  {
    hide ExpectedScalar, SuppliedScalar, ExpectedFields, SuppliedFields;
    if items != [] {
      ScalarCounts(codec, reader, p.innerType, Some(items[0]));
      ElementCounts(codec, reader, p, items[1..], depth);
    }
  }

  lemma {:induction false} ElementsComeBackExactly(codec: Codec, reader: Reader, p: ParamSpec,
                                                   items: seq<ParamInput>, depth: nat)
    requires Decodable(p) && DefinedElements(p, items, depth)
    ensures ExpectedElements(codec, reader, p, items, depth) == SuppliedElements(codec, reader, p, items)
       <==> FaithfulElements(codec, reader, p, items, depth)
    decreases p, 0, |items|
  {
    hide FaithfulScalar, ExpectedScalar, SuppliedScalar, ExpectedFields, SuppliedFields, FaithfulFields,
         NoArguments, DefinedFields, DefinedScalar;
    if items != [] {
      if !StructElements(p) {
        ScalarComesBack(codec, reader, p.innerType, items[0]);
        ScalarCounts(codec, reader, p.innerType, Some(items[0]));
      } else if depth < MAX_STRUCT_DEPTH {
        FieldsComeBackExactly(codec, reader, p.fields, items[0].items, depth + 1);
      } else {
        SuppliedNothing(codec, reader, p.fields, items[0].items);
      }
      ElementsComeBackExactly(codec, reader, p, items[1..], depth);
      var expected := ExpectedElements(codec, reader, p, items, depth);
      var supplied := SuppliedElements(codec, reader, p, items);
      var e, rest := expected[0], ExpectedElements(codec, reader, p, items[1..], depth);
      var f, more := supplied[0], SuppliedElements(codec, reader, p, items[1..]);
      assert expected == [e] + rest && supplied == [f] + more;
      EqualParts([e], rest, [f], more);
      assert [e] == [f] <==> e == f;
    }
  }

  // ---------- From live reflection to the decoded call ----------

  /** A function's layout is read from memory, its call is encoded into a buffer sized from that
      layout, and the buffer decodes to what the caller supplied, defaults included, exactly when
      the supplied values are faithful. */
  lemma CallComesBackExactly(live: Memory, names: Names, ufunction: nat, codec: Codec, reader: Reader,
                             inputs: seq<ParamInput>)
    requires Consistent(Members(live, names, ufunction, 0))
    requires var layout := Layout(live, names, ufunction, 0);
             Disjoint(layout.fields, 0) && DefinedFields(layout.fields, inputs, 0)
    ensures var layout := Layout(live, names, ufunction, 0);
            var size := layout.size + CALL_SLACK;
            && Span(layout.fields, 0) <= size && Sized(layout.fields, 0)
            && forall m: Memory | ShowsFrom(m, codec, Encoded(codec, size, layout.fields, inputs), 0) ::
                 (DecodeFields(m, reader, codec.address(0), layout.fields, 0)
                  == SuppliedFields(codec, reader, layout.fields, inputs)
                  <==> FaithfulFields(codec, reader, layout.fields, inputs, 0))
  {
    hide Members, Span, Sized, Disjoint, Consistent, FurthestEnd, Specs, FaithfulFields, DefinedFields,
         DecodeFields, SuppliedFields, ExpectedFields, ShowsFrom, Encoded;
    var layout := Layout(live, names, ufunction, 0);
    var size := layout.size + CALL_SLACK;
    ConsistentFits(Members(live, names, ufunction, 0));
    FieldsComeBackExactly(codec, reader, layout.fields, inputs, 0);
    forall m: Memory | ShowsFrom(m, codec, Encoded(codec, size, layout.fields, inputs), 0)
      ensures DecodeFields(m, reader, codec.address(0), layout.fields, 0)
           == ExpectedFields(codec, reader, layout.fields, inputs, 0)
    {
      DecodesAsExpected(m, codec, reader, size, layout.fields, inputs);
    }
  }
}
