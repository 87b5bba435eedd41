/**
 The Parms decoder: reads a layout's values out of a memory snapshot.
 */
module ParmsDecode {
  import opened Bytes
  import opened Utf16
  import opened Params

  /** Reads an FString { Data, Num, Max }; `Num` counts the terminator. */
  function ReadString(m: Memory, a: int): bytes {
    var data := ReadWord(m, a, 8);
    var num := Signed(ReadWord(m, a + 8, 4), TWO_TO_THE_32);
    if data == 0 || num <= 1 then []
    else
      match TryRead(m, data, 2 * Min(num - 1, MAX_STRING_UNITS))
      case None => []
      case Some(s) => Utf16ToUtf8(UnitsFrom(s))
  }

  function DecodeScalar(m: Memory, reader: Reader, a: int, ty: PropertyType): Option<ArgValue> {
    match ty
    case Bool => Some(Number(if ReadWord(m, a, 1) != 0 then 1.0 else 0.0))
    case Float => Some(Number(reader.floatValue(ReadWord(m, a, 4))))
    case Double => Some(Number(reader.doubleValue(ReadWord(m, a, 8))))
    case Str => Some(Text(ReadString(m, a)))
    case Name =>
      var index := ReadWord(m, a, 4);
      var number := Signed(ReadWord(m, a + 4, 4), TWO_TO_THE_32);
      if reader.resolve.Some? then
        var name := reader.resolve.value(index);
        Some(Text(if number > 0 then name + [0x5F] + Digits(number - 1) else name))
      else Some(Number(index as real))
    case Array => None
    case Struct => None
    case Other => None
    case _ => Some(WordNumber(ty, ReadWord(m, a, IntWidth(ty))))
  }

  function DecodeFields(m: Memory, reader: Reader, base: int, params: seq<ParamSpec>, depth: nat)
    : seq<EventArg>
    decreases params, 3
  {
    if params == [] then []
    else
      DecodeField(m, reader, base + params[0].offset, params[0], depth)
      + DecodeFields(m, reader, base, params[1..], depth)
  }

  function DecodeField(m: Memory, reader: Reader, a: int, p: ParamSpec, depth: nat): seq<EventArg>
    decreases p, 2
  {
    match p.ty
    case Array => [EventArg(p.name, List(DecodeArray(m, reader, a, p, depth)))]
    case Struct =>
      [EventArg(p.name, Record(if depth < MAX_STRUCT_DEPTH
                               then DecodeFields(m, reader, a, p.fields, depth + 1) else []))]
    case _ =>
      match DecodeScalar(m, reader, a, p.ty)
      case None => []
      case Some(v) => [EventArg(p.name, v)]
  }

  function DecodeArray(m: Memory, reader: Reader, a: int, p: ParamSpec, depth: nat): seq<EventArg>
    decreases p, 1
  {
    var data := ReadWord(m, a, 8);
    var num := Signed(ReadWord(m, a + 8, 4), TWO_TO_THE_32);
    if data == 0 || data >= CANONICAL_LIMIT || num <= 0 || p.innerSize == 0 then []
    else DecodeElements(m, reader, data, p, Min(num, MAX_ARRAY_ELEMENTS), depth)
  }

  /** The first `count` elements; the first that is no known scalar ends the list. */
  function DecodeElements(m: Memory, reader: Reader, a: int, p: ParamSpec, count: nat, depth: nat)
    : seq<EventArg>
    decreases p, 0, count
  {
    if count == 0 then []
    else if StructElements(p) then
      [EventArg([], Record(if depth < MAX_STRUCT_DEPTH
                           then DecodeFields(m, reader, a, p.fields, depth + 1) else []))]
      + DecodeElements(m, reader, a + p.innerSize, p, count - 1, depth)
    else
      match DecodeScalar(m, reader, a, p.innerType)
      case None => []
      case Some(v) => [EventArg([], v)] + DecodeElements(m, reader, a + p.innerSize, p, count - 1, depth)
  }

  lemma FieldsFrom(m: Memory, reader: Reader, base: int, params: seq<ParamSpec>, i: nat, depth: nat)
    requires i < |params|
    ensures DecodeFields(m, reader, base, params[i..], depth)
         == DecodeField(m, reader, base + params[i].offset, params[i], depth)
            + DecodeFields(m, reader, base, params[i + 1..], depth)
  {
    assert params[i..][1..] == params[i + 1..];
  }

  lemma NoFields(m: Memory, reader: Reader, base: int, params: seq<ParamSpec>, depth: nat)
    ensures DecodeFields(m, reader, base, params[|params|..], depth) == []
  {
  }

  /** The loop of `decode_fields`. */
  method Fields(m: Memory, reader: Reader, base: int, params: seq<ParamSpec>, depth: nat)
    returns (args: seq<EventArg>)
    ensures args == DecodeFields(m, reader, base, params, depth)
    decreases params, 2
  {
    hide *;
    args := [];
    var i := 0;
    ghost var goal := DecodeFields(m, reader, base, params, depth);
    ghost var rest := goal;
    assert params[0..] == params;
    while i < |params|
      invariant i <= |params|
      invariant rest == DecodeFields(m, reader, base, params[i..], depth)
      invariant goal == args + rest
    {
      FieldsFrom(m, reader, base, params, i, depth);
      var decoded := Field(m, reader, base + params[i].offset, params[i], depth);
      rest := DecodeFields(m, reader, base, params[i + 1..], depth);
      ConcatAssociates(args, decoded, rest);
      args := args + decoded;
      i := i + 1;
    }
    NoFields(m, reader, base, params, depth);
    assert args + [] == args;
  }

  /** The body of that loop: what it appends for one parameter. */
  method Field(m: Memory, reader: Reader, a: int, p: ParamSpec, depth: nat)
    returns (args: seq<EventArg>)
    ensures args == DecodeField(m, reader, a, p, depth)
    decreases p, 1
  {
    if p.ty.Array? {
      var elements := ArrayElements(m, reader, a, p, depth);
      args := [EventArg(p.name, List(elements))];
    } else if p.ty.Struct? {
      var members := [];
      if depth < MAX_STRUCT_DEPTH {
        members := Fields(m, reader, a, p.fields, depth + 1);
      }
      args := [EventArg(p.name, Record(members))];
    } else {
      var scalar := DecodeScalar(m, reader, a, p.ty);
      args := if scalar.Some? then [EventArg(p.name, scalar.value)] else [];
    }
  }

  /** The loop of `decode_array`. */
  method ArrayElements(m: Memory, reader: Reader, a: int, p: ParamSpec, depth: nat)
    returns (items: seq<EventArg>)
    ensures items == DecodeArray(m, reader, a, p, depth)
    decreases p, 0, 1
  {
    hide ReadWord, DecodeScalar, DecodeFields, DecodeElements;
    items := [];
    var data := ReadWord(m, a, 8);
    var num := Signed(ReadWord(m, a + 8, 4), TWO_TO_THE_32);
    if data == 0 || data >= CANONICAL_LIMIT || num <= 0 || p.innerSize == 0 {
      return;
    }
    var left, element := Min(num, MAX_ARRAY_ELEMENTS), data;
    ghost var goal := DecodeElements(m, reader, data, p, left, depth);
    ghost var rest := goal;
    while left > 0
      invariant 0 <= left
      invariant rest == DecodeElements(m, reader, element, p, left, depth)
      invariant goal == items + rest
    {
      ElementsFrom(m, reader, element, p, left, depth);
      var item := Element(m, reader, element, p, depth);
      if item.None? {
        return;
      }
      rest := DecodeElements(m, reader, element + p.innerSize, p, left - 1, depth);
      ConcatAssociates(items, [item.value], rest);
      items := items + [item.value];
      left, element := left - 1, element + p.innerSize;
    }
    ElementsFrom(m, reader, element, p, left, depth);
  }

  /** The item one element decodes to; None for a scalar type that is not known. */
  function ElementItem(m: Memory, reader: Reader, a: int, p: ParamSpec, depth: nat): Option<EventArg> {
    if StructElements(p) then
      Some(EventArg([], Record(if depth < MAX_STRUCT_DEPTH
                               then DecodeFields(m, reader, a, p.fields, depth + 1) else [])))
    else
      match DecodeScalar(m, reader, a, p.innerType)
      case None => None
      case Some(v) => Some(EventArg([], v))
  }

  lemma ElementsFrom(m: Memory, reader: Reader, a: int, p: ParamSpec, count: nat, depth: nat)
    ensures DecodeElements(m, reader, a, p, count, depth) ==
            if count == 0 || ElementItem(m, reader, a, p, depth).None? then []
            else [ElementItem(m, reader, a, p, depth).value]
                 + DecodeElements(m, reader, a + p.innerSize, p, count - 1, depth)
  {
    hide DecodeScalar, DecodeFields;
  }

  /** The body of the element loop. */
  method Element(m: Memory, reader: Reader, a: int, p: ParamSpec, depth: nat)
    returns (item: Option<EventArg>)
    ensures item == ElementItem(m, reader, a, p, depth)
    decreases p, 0, 0
  {
    hide DecodeScalar, DecodeFields;
    if StructElements(p) {
      var members := [];
      if depth < MAX_STRUCT_DEPTH {
        members := Fields(m, reader, a, p.fields, depth + 1);
      }
      return Some(EventArg([], Record(members)));
    }
    var scalar := DecodeScalar(m, reader, a, p.innerType);
    item := if scalar.Some? then Some(EventArg([], scalar.value)) else None;
  }

  /** `decode_parms`: a null Parms pointer has no arguments. */
  method DecodeParms(m: Memory, reader: Reader, parms: nat, params: seq<ParamSpec>)
    returns (args: seq<EventArg>)
    ensures args == if parms == 0 then [] else DecodeFields(m, reader, parms, params, 0)
  {
    if parms == 0 {
      return [];
    }
    args := Fields(m, reader, parms, params, 0);
  }
}
