/**
 Every pointer in an encoded call is null or names a live pool of exactly the recorded length.
 */
module ParmsPointers {
  import opened Bytes
  import opened Utf16
  import opened Params
  import opened ParmsEncode
  import opened ParmsDecode
  import opened ParmsRoundTrip

  /** The header at `a` points at the start of pool `k`, which holds exactly `n` elements of
      `stride` bytes, and records that count as Num and as Max. */
  ghost predicate PointsTo(m: Memory, codec: Codec, bufs: Buffers, a: int, stride: nat, k: nat, n: nat) {
    && 0 < k < |bufs|
    && ReadWord(m, a, 8) == codec.address(k)
    && Signed(ReadWord(m, a + 8, 4), TWO_TO_THE_32) == StoredCount(n)
    && ReadWord(m, a + 12, 4) == ReadWord(m, a + 8, 4)
    && |bufs[k]| == Bulk(n, stride)
  }

  /** A string's pool ends in a null terminator. */
  ghost predicate StringLive(m: Memory, codec: Codec, bufs: Buffers, a: int) {
    ReadWord(m, a, 8) == 0 ||
    exists k: nat, n: nat ::
      PointsTo(m, codec, bufs, a, 2, k, n) && n > 0 && ReadWord(m, codec.address(k) + 2 * n - 2, 2) == 0
  }

  /** Every string and array header under the layout is live, pools reached through arrays included. */
  ghost predicate FieldsLive(m: Memory, codec: Codec, bufs: Buffers, a: int, params: seq<ParamSpec>, depth: nat)
    decreases params, 4
  {
    params == [] ||
    (&& FieldLive(m, codec, bufs, a + params[0].offset, params[0], depth)
     && FieldsLive(m, codec, bufs, a, params[1..], depth))
  }

  ghost predicate FieldLive(m: Memory, codec: Codec, bufs: Buffers, a: int, p: ParamSpec, depth: nat)
    decreases p, 3
  {
    match p.ty
    case Str => StringLive(m, codec, bufs, a)
    case Array => ArrayLive(m, codec, bufs, a, p, depth)
    case Struct => depth < MAX_STRUCT_DEPTH ==> FieldsLive(m, codec, bufs, a, p.fields, depth + 1)
    case _ => true
  }

  ghost predicate ArrayLive(m: Memory, codec: Codec, bufs: Buffers, a: int, p: ParamSpec, depth: nat)
    decreases p, 2
  {
    ReadWord(m, a, 8) == 0 ||
    exists k: nat, n: nat ::
      PointsTo(m, codec, bufs, a, p.innerSize, k, n) && ElementsLive(m, codec, bufs, codec.address(k), p, n, depth)
  }

  ghost predicate ElementsLive(m: Memory, codec: Codec, bufs: Buffers, a: int, p: ParamSpec, n: nat, depth: nat)
    decreases p, 1, n
  {
    n == 0 ||
    (&& ElementLive(m, codec, bufs, a, p, depth)
     && ElementsLive(m, codec, bufs, a + p.innerSize, p, n - 1, depth))
  }

  ghost predicate ElementLive(m: Memory, codec: Codec, bufs: Buffers, a: int, p: ParamSpec, depth: nat)
    decreases p, 0
  {
    if StructElements(p) then depth < MAX_STRUCT_DEPTH ==> FieldsLive(m, codec, bufs, a, p.fields, depth + 1)
    else p.innerType.Str? ==> StringLive(m, codec, bufs, a)
  }

  // ---------- One header ----------

  lemma EncodedStringLive(m: Memory, codec: Codec, bufs: Buffers, b: nat, at: nat, text: bytes, final: Buffers)
    requires b < |bufs| && at + 16 <= |bufs[b]|
    requires var out := EncodeStr(codec, bufs, b, at, text);
             && Shows(m, codec, out, b, at, at + 16) && ShowsFrom(m, codec, out, |bufs|)
             && Grown(out, final)
    ensures StringLive(m, codec, final, codec.address(b) + at)
  {
    hide Utf8ToUtf16, LittleEndian, FromLittleEndian, TryRead, ReadWord, UnitBytes, Header;
    var out := EncodeStr(codec, bufs, b, at, text);
    var a := codec.address(b) + at;
    ShownReadsAs(m, codec, out, b, at, 16);
    if text == [] {
      assert out[b][at..at + 16] == Zeros(16);
      ZerosRead(m, a, 16, 0, 8);
    } else {
      var pool, n := |bufs|, |Utf8ToUtf16(text)| + 1;
      StringPointerLive(codec, bufs, b, at, text);
      assert Shows(m, codec, out, pool, 0, |out[pool]|);
      HeaderReads(m, a, codec.address(pool), n);
      assert PointsTo(m, codec, final, a, 2, pool, n);
      ShownReadsAs(m, codec, out, pool, 2 * n - 2, 2);
      assert out[pool][2 * n - 2..2 * n] == Zeros(2);
      ZerosRead(m, codec.address(pool) + 2 * n - 2, 2, 0, 2);
    }
  }

  lemma {:induction false} EncodedArrayLive(m: Memory, codec: Codec, bufs: Buffers, b: nat, at: nat,
                                            p: ParamSpec, input: Option<ParamInput>, depth: nat, final: Buffers)
    requires b < |bufs| && at + 16 <= |bufs[b]|
    requires p.ty.Array? && SizedField(p, depth) && DisjointField(p, depth)
    requires Zeroed(bufs[b], at, at + 16)
    requires var out := EncodeField(codec, bufs, b, at, p, input, depth);
             && Shows(m, codec, out, b, at, at + 16) && ShowsFrom(m, codec, out, |bufs|)
             && Grown(out, final)
    ensures ArrayLive(m, codec, final, codec.address(b) + at, p, depth)
    decreases p, 2
  {
    hide EncodeElements, ReadWord, LittleEndian, ElementsLive;
    var out := EncodeField(codec, bufs, b, at, p, input, depth);
    if input.None? || !input.value.isArray || input.value.items == [] || p.innerSize == 0 {
      assert Zeroed(out[b], at, at + 16);
      AbsentReadsNull(m, codec, out, b, at);
    } else {
      var n, pool := |input.value.items|, |bufs|;
      ArrayHeaderReads(m, codec, bufs, b, at, p, input.value, depth);
      ArrayPointerLive(codec, bufs, b, at, p, input.value, depth);
      EncodedPoolLive(m, codec, bufs, b, at, p, input.value, depth, final);
      assert PointsTo(m, codec, final, codec.address(b) + at, p.innerSize, pool, n);
    }
  }

  lemma {:induction false} EncodedPoolLive(m: Memory, codec: Codec, bufs: Buffers, b: nat, at: nat,
                                           p: ParamSpec, input: ParamInput, depth: nat, final: Buffers)
    requires b < |bufs| && at + 16 <= |bufs[b]|
    requires p.ty.Array? && SizedField(p, depth) && DisjointField(p, depth)
    requires input.isArray && input.items != [] && p.innerSize != 0
    requires var out := EncodeArray(codec, bufs, b, at, p, input, depth);
             ShowsFrom(m, codec, out, |bufs|) && Grown(out, final)
    ensures ElementsLive(m, codec, final, codec.address(|bufs|), p, |input.items|, depth)
    decreases p, 1, |input.items| + 1
  {
    var items, pool := input.items, |bufs|;
    var pooled := Write(bufs, b, at, Zeros(16)) + [Zeros(Bulk(|items|, p.innerSize))];
    var filled := EncodeElements(codec, pooled, pool, 0, p, items, depth);
    var out := EncodeArray(codec, bufs, b, at, p, input, depth);
    forall k | pool <= k < |filled|
      ensures Shows(m, codec, filled, k, 0, |filled[k]|)
    {
      assert Shows(m, codec, out, k, 0, |out[k]|) && out[k] == filled[k];
    }
    EncodedElementsLive(m, codec, pooled, pool, 0, p, items, depth, final);
  }

  // ---------- Fields and elements ----------

  lemma {:induction false} EncodedFieldsLive(m: Memory, codec: Codec, bufs: Buffers, b: nat, base: nat,
                                             params: seq<ParamSpec>, inputs: seq<ParamInput>, depth: nat,
                                             final: Buffers)
    requires b < |bufs| && base + Span(params, depth) <= |bufs[b]|
    requires Sized(params, depth) && Disjoint(params, depth)
    requires ZeroFields(bufs[b], base, params, depth)
    requires var out := EncodeFields(codec, bufs, b, base, params, inputs, depth);
             && Shows(m, codec, out, b, base, base + Span(params, depth))
             && ShowsFrom(m, codec, out, |bufs|)
             && Grown(out, final)
    ensures FieldsLive(m, codec, final, codec.address(b) + base, params, depth)
    decreases params, 4
  {
    hide EncodeField, FieldLive, Extent, Shows, SizedField, DisjointField, ApartFromAll;
    if params != [] {
      var p, rest, input, at := params[0], params[1..], Find(inputs, params[0].name), base + params[0].offset;
      var mid := EncodeField(codec, bufs, b, at, p, input, depth);
      var out := EncodeFields(codec, mid, b, base, rest, inputs, depth);
      FieldShown(m, codec, bufs, b, base, params, inputs, depth);
      EncodedFieldLive(m, codec, bufs, b, at, p, input, depth, final);
      RestZero(codec, bufs, b, base, params, input, depth);
      ShownWithin(m, codec, out, b, base, base + Span(params, depth), base + Span(rest, depth));
      EncodedFieldsLive(m, codec, mid, b, base, rest, inputs, depth, final);
    }
  }

  lemma {:induction false} EncodedFieldLive(m: Memory, codec: Codec, bufs: Buffers, b: nat, at: nat,
                                            p: ParamSpec, input: Option<ParamInput>, depth: nat, final: Buffers)
    requires b < |bufs| && at + Extent(p, depth) <= |bufs[b]|
    requires SizedField(p, depth) && DisjointField(p, depth)
    requires Zeroed(bufs[b], at, at + Extent(p, depth))
    requires var out := EncodeField(codec, bufs, b, at, p, input, depth);
             && Shows(m, codec, out, b, at, at + Extent(p, depth))
             && ShowsFrom(m, codec, out, |bufs|)
             && Grown(out, final)
    ensures FieldLive(m, codec, final, codec.address(b) + at, p, depth)
    decreases p, 3
  {
    hide EncodeStr, EncodeArray, EncodeFields, StringLive, ArrayLive, FieldsLive, ReadWord;
    if p.ty.Struct? {
      if depth < MAX_STRUCT_DEPTH {
        if input.None? {
          NothingEncoded(codec, bufs, b, at, p.fields, depth + 1);
        }
        EncodedStructLive(m, codec, bufs, b, at, p, if input.Some? then input.value.items else [], depth, final);
      }
    } else if p.ty.Array? {
      EncodedArrayLive(m, codec, bufs, b, at, p, input, depth, final);
    } else if p.ty.Str? {
      if input.Some? {
        EncodedStringLive(m, codec, bufs, b, at, input.value.text, final);
      } else {
        AbsentReadsNull(m, codec, bufs, b, at);
        assert ReadWord(m, codec.address(b) + at, 8) == 0;
        NullIsLive(m, codec, final, codec.address(b) + at);
      }
    }
  }

  lemma NullIsLive(m: Memory, codec: Codec, bufs: Buffers, a: int)
    requires ReadWord(m, a, 8) == 0
    ensures StringLive(m, codec, bufs, a)
  {
  }

  lemma {:induction false} EncodedStructLive(m: Memory, codec: Codec, bufs: Buffers, b: nat, at: nat,
                                             p: ParamSpec, inputs: seq<ParamInput>, depth: nat, final: Buffers)
    requires b < |bufs| && at + Span(p.fields, depth + 1) <= |bufs[b]|
    requires Sized(p.fields, depth + 1) && Disjoint(p.fields, depth + 1)
    requires Zeroed(bufs[b], at, at + Span(p.fields, depth + 1))
    requires var out := EncodeFields(codec, bufs, b, at, p.fields, inputs, depth + 1);
             && Shows(m, codec, out, b, at, at + Span(p.fields, depth + 1))
             && ShowsFrom(m, codec, out, |bufs|)
             && Grown(out, final)
    ensures FieldsLive(m, codec, final, codec.address(b) + at, p.fields, depth + 1)
    decreases p, 0
  {
    forall j | at <= j < |bufs[b]| && Touches(p.fields, depth + 1, j - at)
      ensures bufs[b][j] == 0
    {
      TouchesWithinSpan(p.fields, depth + 1, j - at);
    }
    EncodedFieldsLive(m, codec, bufs, b, at, p.fields, inputs, depth + 1, final);
  }

  lemma {:induction false} EncodedElementsLive(m: Memory, codec: Codec, bufs: Buffers, b: nat, at: nat,
                                               p: ParamSpec, items: seq<ParamInput>, depth: nat, final: Buffers)
    requires b < |bufs| && at + Bulk(|items|, p.innerSize) <= |bufs[b]|
    requires p.ty.Array? && p.innerSize != 0 && SizedField(p, depth) && DisjointField(p, depth)
    requires Zeroed(bufs[b], at, at + Bulk(|items|, p.innerSize))
    requires var out := EncodeElements(codec, bufs, b, at, p, items, depth);
             && Shows(m, codec, out, b, at, at + Bulk(|items|, p.innerSize))
             && ShowsFrom(m, codec, out, |bufs|)
             && Grown(out, final)
    ensures ElementsLive(m, codec, final, codec.address(b) + at, p, |items|, depth)
    decreases p, 1, |items|
  {
    hide EncodeElement, ElementLive, Overwrite, Bulk;
    if items != [] {
      BulkNext(|items|, p.innerSize);
      var mid := EncodeElement(codec, bufs, b, at, p, items[0], depth);
      ElementShown(m, codec, bufs, b, at, p, items, depth);
      forall j | at + p.innerSize <= j < at + Bulk(|items|, p.innerSize)
        ensures mid[b][j] == 0
      {
        ElementFrame(codec, bufs, b, at, p, items[0], depth, b, j);
      }
      EncodedElementLive(m, codec, bufs, b, at, p, items[0], depth, final);
      EncodedElementsLive(m, codec, mid, b, at + p.innerSize, p, items[1..], depth, final);
    }
  }

  lemma {:induction false} EncodedElementLive(m: Memory, codec: Codec, bufs: Buffers, b: nat, at: nat,
                                              p: ParamSpec, item: ParamInput, depth: nat, final: Buffers)
    requires b < |bufs| && at + p.innerSize <= |bufs[b]|
    requires p.ty.Array? && p.innerSize != 0 && SizedField(p, depth) && DisjointField(p, depth)
    requires Zeroed(bufs[b], at, at + p.innerSize)
    requires var out := EncodeElement(codec, bufs, b, at, p, item, depth);
             && Shows(m, codec, out, b, at, at + p.innerSize) && ShowsFrom(m, codec, out, |bufs|)
             && Grown(out, final)
    ensures ElementLive(m, codec, final, codec.address(b) + at, p, depth)
    decreases p, 1, 0
  {
    hide EncodeFields, EncodeStr, FieldsLive, StringLive, Overwrite;
    if StructElements(p) {
      if depth < MAX_STRUCT_DEPTH {
        EncodedStructLive(m, codec, bufs, b, at, p, item.items, depth, final);
      }
    } else if p.innerType.Str? {
      EncodedStringLive(m, codec, bufs, b, at, item.text, final);
    }
  }

  /** In any memory that shows an encoded call, every pointer it stores is live. */
  lemma StoredPointersLive(m: Memory, codec: Codec, parmsSize: nat, params: seq<ParamSpec>,
                           inputs: seq<ParamInput>)
    requires Span(params, 0) <= parmsSize && Sized(params, 0) && Disjoint(params, 0)
    requires ShowsFrom(m, codec, Encoded(codec, parmsSize, params, inputs), 0)
    ensures FieldsLive(m, codec, Encoded(codec, parmsSize, params, inputs), codec.address(0), params, 0)
  {
    hide FieldsLive;
    var out := Encoded(codec, parmsSize, params, inputs);
    assert Shows(m, codec, out, 0, 0, |out[0]|);
    EncodedFieldsLive(m, codec, [Zeros(parmsSize)], 0, 0, params, inputs, 0, out);
  }
}
