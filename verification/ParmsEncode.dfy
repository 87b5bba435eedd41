/**
 The Parms encoder: values laid into a byte buffer, with side pools reached by pointers.
 Buffer 0 is Parms; every FString and TArray that holds anything gets a new buffer.
 */
module ParmsEncode {
  import opened Bytes
  import opened Utf16
  import opened Params

  type Buffers = seq<bytes>

  /** Buffers are never resized and never removed. */
  ghost predicate Grown(bufs: Buffers, out: Buffers) {
    |bufs| <= |out| && forall k | 0 <= k < |bufs| :: |out[k]| == |bufs[k]|
  }

  function Overwrite(s: bytes, off: nat, data: bytes): (r: bytes)
    requires off + |data| <= |s|
    ensures |r| == |s|
    ensures forall j | 0 <= j < |s| ::
              r[j] == if off <= j < off + |data| then data[j - off] else s[j]
  {
    s[..off] + data + s[off + |data|..]
  }

  function Write(bufs: Buffers, b: nat, off: nat, data: bytes): (out: Buffers)
    requires b < |bufs| && off + |data| <= |bufs[b]|
    ensures |out| == |bufs| && Grown(bufs, out)
  {
    bufs[b := Overwrite(bufs[b], off, data)]
  }

  /** The bytes `encode_scalar` writes; none for object pointers and unsupported types. */
  function ScalarBytes(codec: Codec, ty: PropertyType, input: ParamInput): (s: bytes)
    ensures |s| <= Width(ty)
    ensures ty.Bool? ==> |s| == 1 && s[0] <= 1 && (s[0] == 0 <==> input.number == 0.0)
  {
    match ty
    case Bool => [if input.number != 0.0 then 1 else 0]
    case Float => LittleEndian(codec.floatBits(input.number) % TWO_TO_THE_32, 4)
    case Double => LittleEndian(codec.doubleBits(input.number) % TWO_TO_THE_64, 8)
    case Name => LittleEndian(codec.nameIndex(input.text) % TWO_TO_THE_32, 4) + LittleEndian(0, 4)
    case Str => []
    case Array => []
    case Struct => []
    case Other => []
    case ObjectRef => []
    case _ => LittleEndian(Trunc(input.number) % Pow256(IntWidth(ty)), IntWidth(ty))
  }

  /** { Data, Num, Max } of an FString or TArray. */
  function Header(data: nat, count: nat): (s: bytes)
    ensures |s| == 16
  {
    LittleEndian(data % TWO_TO_THE_64, 8)
    + LittleEndian(count % TWO_TO_THE_32, 4)
    + LittleEndian(count % TWO_TO_THE_32, 4)
  }

  function EncodeStr(codec: Codec, bufs: Buffers, b: nat, at: nat, text: bytes): (out: Buffers)
    requires b < |bufs| && at + 16 <= |bufs[b]|
    ensures Grown(bufs, out)
  {
    if text == [] then Write(bufs, b, at, Zeros(16))
    else
      var units := Utf8ToUtf16(text) + [0];
      Write(bufs + [UnitBytes(units)], b, at, Header(codec.address(|bufs|), |units|))
  }

  function EncodeFields(codec: Codec, bufs: Buffers, b: nat, base: nat, params: seq<ParamSpec>,
                        inputs: seq<ParamInput>, depth: nat): (out: Buffers)
    requires b < |bufs| && base + Span(params, depth) <= |bufs[b]| && Sized(params, depth)
    ensures Grown(bufs, out)
    decreases params, 4
  {
    if params == [] then bufs
    else
      var mid := EncodeField(codec, bufs, b, base + params[0].offset, params[0],
                             Find(inputs, params[0].name), depth);
      EncodeFields(codec, mid, b, base, params[1..], inputs, depth)
  }

  /** One field at buffer offset `at`; an absent input leaves it as it is. */
  function EncodeField(codec: Codec, bufs: Buffers, b: nat, at: nat, p: ParamSpec,
                       input: Option<ParamInput>, depth: nat): (out: Buffers)
    requires b < |bufs| && at + Extent(p, depth) <= |bufs[b]| && SizedField(p, depth)
    ensures Grown(bufs, out)
    decreases p, 3
  {
    if input.None? then bufs
    else
      match p.ty
      case Array => EncodeArray(codec, bufs, b, at, p, input.value, depth)
      case Struct =>
        if depth < MAX_STRUCT_DEPTH
        then EncodeFields(codec, bufs, b, at, p.fields, input.value.items, depth + 1)
        else bufs
      case Str => EncodeStr(codec, bufs, b, at, input.value.text)
      case _ => Write(bufs, b, at, ScalarBytes(codec, p.ty, input.value))
  }

  function EncodeArray(codec: Codec, bufs: Buffers, b: nat, at: nat, p: ParamSpec,
                       input: ParamInput, depth: nat): (out: Buffers)
    requires b < |bufs| && at + 16 <= |bufs[b]| && p.ty.Array? && SizedField(p, depth)
    ensures Grown(bufs, out)
    decreases p, 2
  {
    var cleared := Write(bufs, b, at, Zeros(16));
    if !input.isArray || input.items == [] || p.innerSize == 0 then cleared
    else
      var pooled := cleared + [Zeros(Bulk(|input.items|, p.innerSize))];
      var filled := EncodeElements(codec, pooled, |bufs|, 0, p, input.items, depth);
      Write(filled, b, at, Header(codec.address(|bufs|), |input.items|))
  }

  /** The elements one after another, in buffer `b` from offset `at`. */
  function EncodeElements(codec: Codec, bufs: Buffers, b: nat, at: nat, p: ParamSpec,
                          items: seq<ParamInput>, depth: nat): (out: Buffers)
    requires b < |bufs| && at + Bulk(|items|, p.innerSize) <= |bufs[b]|
    requires p.ty.Array? && p.innerSize != 0 && SizedField(p, depth)
    ensures Grown(bufs, out)
    decreases p, 1, |items|
  {
    if items == [] then bufs
    else
      BulkNext(|items|, p.innerSize);
      var mid := EncodeElement(codec, bufs, b, at, p, items[0], depth);
      EncodeElements(codec, mid, b, at + p.innerSize, p, items[1..], depth)
  }

  function EncodeElement(codec: Codec, bufs: Buffers, b: nat, at: nat, p: ParamSpec,
                         item: ParamInput, depth: nat): (out: Buffers)
    requires b < |bufs| && at + p.innerSize <= |bufs[b]|
    requires p.ty.Array? && p.innerSize != 0 && SizedField(p, depth)
    ensures Grown(bufs, out)
    decreases p, 0
  {
    if StructElements(p) then
      if depth < MAX_STRUCT_DEPTH
      then EncodeFields(codec, bufs, b, at, p.fields, item.items, depth + 1)
      else bufs
    else if p.innerType.Str? then EncodeStr(codec, bufs, b, at, item.text)
    else Write(bufs, b, at, ScalarBytes(codec, p.innerType, item))
  }

  lemma ElementsFrom(codec: Codec, bufs: Buffers, b: nat, at: nat, p: ParamSpec,
                     items: seq<ParamInput>, depth: nat)
    requires items != [] && b < |bufs| && at + Bulk(|items|, p.innerSize) <= |bufs[b]|
    requires p.ty.Array? && p.innerSize != 0 && SizedField(p, depth)
    ensures var mid := EncodeElement(codec, bufs, b, at, p, items[0], depth);
            && b < |mid| && at + p.innerSize + Bulk(|items[1..]|, p.innerSize) <= |mid[b]|
            && EncodeElements(codec, bufs, b, at, p, items, depth)
               == EncodeElements(codec, mid, b, at + p.innerSize, p, items[1..], depth)
  {
    BulkNext(|items|, p.innerSize);
  }

  lemma NoElements(codec: Codec, bufs: Buffers, b: nat, at: nat, p: ParamSpec,
                   items: seq<ParamInput>, depth: nat)
    requires b < |bufs| && at <= |bufs[b]|
    requires p.ty.Array? && p.innerSize != 0 && SizedField(p, depth)
    ensures EncodeElements(codec, bufs, b, at, p, items[|items|..], depth) == bufs
  {
  }

  method FindInput(inputs: seq<ParamInput>, name: bytes) returns (found: Option<ParamInput>)
    ensures found == Find(inputs, name)
    ensures found.None? ==> forall i | 0 <= i < |inputs| :: inputs[i].name != name
    ensures found.Some? ==> exists i | 0 <= i < |inputs| ::
              found.value == inputs[i] && inputs[i].name == name && forall j | 0 <= j < i :: inputs[j].name != name
  {
    var i := 0;
    while i < |inputs|
      invariant i <= |inputs| && forall j | 0 <= j < i :: inputs[j].name != name
      invariant Find(inputs, name) == Find(inputs[i..], name)
    {
      if inputs[i].name == name {
        return Some(inputs[i]);
      }
      i := i + 1;
    }
    return None;
  }

  class Encoder {
    const codec: Codec
    var buffers: Buffers

    constructor (codec: Codec, parmsSize: nat)
      ensures this.codec == codec && buffers == [Zeros(parmsSize)]
    {
      this.codec := codec;
      buffers := [Zeros(parmsSize)];
    }

    method Put(b: nat, off: nat, data: bytes)
      requires b < |buffers| && off + |data| <= |buffers[b]|
      modifies this`buffers
      ensures buffers == Write(old(buffers), b, off, data)
    {
      buffers := buffers[b := Overwrite(buffers[b], off, data)];
    }

    method Fields(b: nat, base: nat, params: seq<ParamSpec>, inputs: seq<ParamInput>, depth: nat)
      requires b < |buffers| && base + Span(params, depth) <= |buffers[b]| && Sized(params, depth)
      modifies this`buffers
      ensures buffers == EncodeFields(codec, old(buffers), b, base, params, inputs, depth)
      decreases params, 4
    {
      ghost var goal := EncodeFields(codec, buffers, b, base, params, inputs, depth);
      var i := 0;
      while i < |params|
        invariant i <= |params| && b < |buffers|
        invariant base + Span(params[i..], depth) <= |buffers[b]| && Sized(params[i..], depth)
        invariant goal == EncodeFields(codec, buffers, b, base, params[i..], inputs, depth)
      {
        var p := params[i];
        assert params[i..][0] == p && params[i..][1..] == params[i + 1..];
        var input := FindInput(inputs, p.name);
        ghost var before := buffers;
        if input.Some? {
          Field(b, base + p.offset, p, input.value, depth);
        }
        assert buffers == EncodeField(codec, before, b, base + p.offset, p, input, depth);
        i := i + 1;
      }
    }

    method Field(b: nat, at: nat, p: ParamSpec, input: ParamInput, depth: nat)
      requires b < |buffers| && at + Extent(p, depth) <= |buffers[b]| && SizedField(p, depth)
      modifies this`buffers
      ensures buffers == EncodeField(codec, old(buffers), b, at, p, Some(input), depth)
      decreases p, 3
    {
      if p.ty.Array? {
        Array(b, at, p, input, depth);
      } else if p.ty.Struct? {
        if depth < MAX_STRUCT_DEPTH {
          Fields(b, at, p.fields, input.items, depth + 1);
        }
      } else if p.ty.Str? {
        Str(b, at, input.text);
      } else {
        Put(b, at, ScalarBytes(codec, p.ty, input));
      }
    }

    method Str(b: nat, at: nat, text: bytes)
      requires b < |buffers| && at + 16 <= |buffers[b]|
      modifies this`buffers
      ensures buffers == EncodeStr(codec, old(buffers), b, at, text)
    {
      if text == [] {
        Put(b, at, Zeros(16));
        return;
      }
      var units := ConvertToUtf16(text);
      units := units + [0];
      var data := codec.address(|buffers|);
      buffers := buffers + [UnitBytes(units)];
      Put(b, at, Header(data, |units|));
    }

    method Array(b: nat, at: nat, p: ParamSpec, input: ParamInput, depth: nat)
      requires b < |buffers| && at + 16 <= |buffers[b]| && p.ty.Array? && SizedField(p, depth)
      modifies this`buffers
      ensures buffers == EncodeArray(codec, old(buffers), b, at, p, input, depth)
      decreases p, 2
    {
      Put(b, at, Zeros(16));
      if !input.isArray || input.items == [] || p.innerSize == 0 {
        return;
      }
      var items, pool := input.items, |buffers|;
      var data := codec.address(pool);
      buffers := buffers + [Zeros(Bulk(|items|, p.innerSize))];
      Elements(pool, p, items, depth);
      Put(b, at, Header(data, |items|));
    }

    method Elements(b: nat, p: ParamSpec, items: seq<ParamInput>, depth: nat)
      requires b < |buffers| && Bulk(|items|, p.innerSize) <= |buffers[b]|
      requires p.ty.Array? && p.innerSize != 0 && SizedField(p, depth)
      modifies this`buffers
      ensures buffers == EncodeElements(codec, old(buffers), b, 0, p, items, depth)
      decreases p, 1, 1
    {
      hide *;
      var i, at := 0, 0;
      ghost var goal := EncodeElements(codec, buffers, b, 0, p, items, depth);
      assert items[0..] == items;
      while i < |items|
        invariant i <= |items| && b < |buffers| && 0 <= at
        invariant at + Bulk(|items[i..]|, p.innerSize) <= |buffers[b]|
        invariant goal == EncodeElements(codec, buffers, b, at, p, items[i..], depth)
      {
        NextElement(p, items, i);
        ghost var before := buffers;
        Element(b, at, p, items[i], depth);
        ElementsFrom(codec, before, b, at, p, items[i..], depth);
        i, at := i + 1, at + p.innerSize;
      }
      BulkNone(|items[i..]|, p.innerSize);
      NoElements(codec, buffers, b, at, p, items, depth);
    }

    lemma NextElement(p: ParamSpec, items: seq<ParamInput>, i: nat)
      requires i < |items|
      ensures items[i..] != [] && items[i..][0] == items[i] && items[i..][1..] == items[i + 1..]
      ensures Bulk(|items[i..]|, p.innerSize) == p.innerSize + Bulk(|items[i + 1..]|, p.innerSize)
    {
      BulkNext(|items[i..]|, p.innerSize);
    }

    method Element(b: nat, at: nat, p: ParamSpec, item: ParamInput, depth: nat)
      requires b < |buffers| && at + p.innerSize <= |buffers[b]|
      requires p.ty.Array? && p.innerSize != 0 && SizedField(p, depth)
      modifies this`buffers
      ensures buffers == EncodeElement(codec, old(buffers), b, at, p, item, depth)
      decreases p, 1, 0
    {
      if StructElements(p) {
        if depth < MAX_STRUCT_DEPTH {
          Fields(b, at, p.fields, item.items, depth + 1);
        }
      } else if p.innerType.Str? {
        Str(b, at, item.text);
      } else {
        Put(b, at, ScalarBytes(codec, p.innerType, item));
      }
    }
  }

  /** The finished buffers, as a function of the layout and the inputs. */
  function Encoded(codec: Codec, parmsSize: nat, params: seq<ParamSpec>, inputs: seq<ParamInput>)
    : (out: Buffers)
    requires Span(params, 0) <= parmsSize && Sized(params, 0)
    ensures out != [] && |out[0]| == parmsSize
  {
    EncodeFields(codec, [Zeros(parmsSize)], 0, 0, params, inputs, 0)
  }

  method EncodeParms(codec: Codec, parmsSize: nat, params: seq<ParamSpec>, inputs: seq<ParamInput>)
    returns (out: Buffers)
    requires Span(params, 0) <= parmsSize && Sized(params, 0)
    ensures out == Encoded(codec, parmsSize, params, inputs)
  {
    var encoder := new Encoder(codec, parmsSize);
    encoder.Fields(0, 0, params, inputs, 0);
    out := encoder.buffers;
  }

  // ---------- What encoding leaves alone ----------

  /** A byte in another buffer, or outside every field, is unchanged. */
  lemma {:induction false} FieldsFrame(codec: Codec, bufs: Buffers, b: nat, base: nat,
                                       params: seq<ParamSpec>, inputs: seq<ParamInput>, depth: nat,
                                       k: nat, j: nat)
    requires b < |bufs| && base + Span(params, depth) <= |bufs[b]| && Sized(params, depth)
    requires k < |bufs| && j < |bufs[k]|
    requires k != b || !Touches(params, depth, j - base)
    ensures EncodeFields(codec, bufs, b, base, params, inputs, depth)[k][j] == bufs[k][j]
    decreases params, 4
  {
    if params != [] {
      var p, input := params[0], Find(inputs, params[0].name);
      FieldFrame(codec, bufs, b, base + p.offset, p, input, depth, k, j);
      var mid := EncodeField(codec, bufs, b, base + p.offset, p, input, depth);
      FieldsFrame(codec, mid, b, base, params[1..], inputs, depth, k, j);
    }
  }

  lemma {:induction false} FieldFrame(codec: Codec, bufs: Buffers, b: nat, at: nat, p: ParamSpec,
                                      input: Option<ParamInput>, depth: nat, k: nat, j: nat)
    requires b < |bufs| && at + Extent(p, depth) <= |bufs[b]| && SizedField(p, depth)
    requires k < |bufs| && j < |bufs[k]|
    requires k != b || !(at <= j < at + Extent(p, depth))
    ensures EncodeField(codec, bufs, b, at, p, input, depth)[k][j] == bufs[k][j]
    decreases p, 3
  {
    if input.Some? {
      if p.ty.Struct? && depth < MAX_STRUCT_DEPTH {
        TouchesWithinSpan(p.fields, depth + 1, j - at);
        FieldsFrame(codec, bufs, b, at, p.fields, input.value.items, depth + 1, k, j);
      } else if p.ty.Array? {
        ArrayFrame(codec, bufs, b, at, p, input.value, depth, k, j);
      }
    }
  }

  lemma {:induction false} ArrayFrame(codec: Codec, bufs: Buffers, b: nat, at: nat, p: ParamSpec,
                                      input: ParamInput, depth: nat, k: nat, j: nat)
    requires b < |bufs| && at + 16 <= |bufs[b]| && p.ty.Array? && SizedField(p, depth)
    requires k < |bufs| && j < |bufs[k]|
    requires k != b || !(at <= j < at + 16)
    ensures EncodeArray(codec, bufs, b, at, p, input, depth)[k][j] == bufs[k][j]
    decreases p, 2
  {
    var cleared := Write(bufs, b, at, Zeros(16));
    if input.isArray && input.items != [] && p.innerSize != 0 {
      var pooled := cleared + [Zeros(Bulk(|input.items|, p.innerSize))];
      ElementsFrame(codec, pooled, |bufs|, 0, p, input.items, depth, k, j);
    }
  }

  lemma {:induction false} ElementsFrame(codec: Codec, bufs: Buffers, b: nat, at: nat, p: ParamSpec,
                                         items: seq<ParamInput>, depth: nat, k: nat, j: nat)
    requires b < |bufs| && at + Bulk(|items|, p.innerSize) <= |bufs[b]|
    requires p.ty.Array? && p.innerSize != 0 && SizedField(p, depth)
    requires k < |bufs| && j < |bufs[k]|
    requires k != b || !(at <= j < at + Bulk(|items|, p.innerSize))
    ensures EncodeElements(codec, bufs, b, at, p, items, depth)[k][j] == bufs[k][j]
    decreases p, 1, |items|
  {
    hide Bulk;
    if items != [] {
      BulkNext(|items|, p.innerSize);
      ElementFrame(codec, bufs, b, at, p, items[0], depth, k, j);
      var mid := EncodeElement(codec, bufs, b, at, p, items[0], depth);
      ElementsFrame(codec, mid, b, at + p.innerSize, p, items[1..], depth, k, j);
    }
  }

  lemma {:induction false} ElementFrame(codec: Codec, bufs: Buffers, b: nat, at: nat, p: ParamSpec,
                                        item: ParamInput, depth: nat, k: nat, j: nat)
    requires b < |bufs| && at + p.innerSize <= |bufs[b]|
    requires p.ty.Array? && p.innerSize != 0 && SizedField(p, depth)
    requires k < |bufs| && j < |bufs[k]|
    requires k != b || !(at <= j < at + p.innerSize)
    ensures EncodeElement(codec, bufs, b, at, p, item, depth)[k][j] == bufs[k][j]
    decreases p, 0
  {
    if StructElements(p) && depth < MAX_STRUCT_DEPTH {
      TouchesWithinSpan(p.fields, depth + 1, j - at);
      FieldsFrame(codec, bufs, b, at, p.fields, item.items, depth + 1, k, j);
    }
  }
}
