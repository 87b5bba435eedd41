/**
 Decoding what was encoded gives, in layout order, each supplied value and the zero
 default of each absent one: the bytes and pointers in between cancel out.
 */
module ParmsRoundTrip {
  import opened Bytes
  import opened Utf16
  import opened Params
  import opened ParmsEncode
  import opened ParmsDecode

  /** The snapshot shows bytes `lo..hi` of buffer `k` at that buffer's address. */
  ghost predicate Shows(m: Memory, codec: Codec, bufs: Buffers, k: nat, lo: int, hi: int) {
    && k < |bufs| && 0 <= lo && hi <= |bufs[k]|
    && 0 < codec.address(k) && codec.address(k) + |bufs[k]| <= CANONICAL_LIMIT
    && forall i | codec.address(k) + lo <= i < codec.address(k) + hi ::
         i in m && m[i] == bufs[k][i - codec.address(k)]
  }

  /** The snapshot shows every buffer from number `first` on. */
  ghost predicate ShowsFrom(m: Memory, codec: Codec, bufs: Buffers, first: nat) {
    forall k | first <= k < |bufs| :: Shows(m, codec, bufs, k, 0, |bufs[k]|)
  }

  ghost predicate Zeroed(s: bytes, lo: int, hi: int) {
    0 <= lo && hi <= |s| && forall j | lo <= j < hi :: s[j] == 0
  }

  ghost predicate ZeroFields(s: bytes, base: nat, params: seq<ParamSpec>, depth: nat) {
    forall j | base <= j < |s| && Touches(params, depth, j - base) :: s[j] == 0
  }

  // ---------- Reading shown bytes ----------

  lemma ReadShown(m: Memory, codec: Codec, bufs: Buffers, k: nat, off: nat, w: nat)
    requires Shows(m, codec, bufs, k, off, off + w) && w > 0
    ensures TryRead(m, codec.address(k) + off, w) == Some(bufs[k][off..off + w])
  {
    assert Slice(m, codec.address(k) + off, w) == bufs[k][off..off + w];
  }

  /** `s` is what a read of its length at `a` returns. */
  ghost predicate ReadsAs(m: Memory, a: int, s: bytes) {
    0 < a && a + |s| <= CANONICAL_LIMIT && Readable(m, a, |s|) && Slice(m, a, |s|) == s
  }

  lemma WordWithin(m: Memory, a: int, s: bytes, off: nat, w: nat)
    requires ReadsAs(m, a, s) && off + w <= |s| && w > 0
    ensures ReadWord(m, a + off, w) == FromLittleEndian(s[off..off + w])
  {
    assert Slice(m, a + off, w) == Slice(m, a, |s|)[off..off + w];
  }

  lemma ShownReadsAs(m: Memory, codec: Codec, bufs: Buffers, k: nat, off: nat, w: nat)
    requires Shows(m, codec, bufs, k, off, off + w) && w > 0
    ensures ReadsAs(m, codec.address(k) + off, bufs[k][off..off + w])
  {
    ReadShown(m, codec, bufs, k, off, w);
  }

  lemma HeaderReads(m: Memory, a: int, data: nat, count: nat)
    requires ReadsAs(m, a, Header(data, count)) && data < TWO_TO_THE_64
    ensures ReadWord(m, a, 8) == data
    ensures Signed(ReadWord(m, a + 8, 4), TWO_TO_THE_32) == StoredCount(count)
    ensures ReadWord(m, a + 12, 4) == ReadWord(m, a + 8, 4)
  {
    WordSizes();
    var s := Header(data, count);
    WordWithin(m, a, s, 0, 8);
    WordWithin(m, a, s, 8, 4);
    WordWithin(m, a, s, 12, 4);
    assert s[12..16] == LittleEndian(count % TWO_TO_THE_32, 4);
    assert s[0..8] == LittleEndian(data, 8);
    assert s[8..12] == LittleEndian(count % TWO_TO_THE_32, 4);
    LittleEndianRoundTrip(data, 8);
    LittleEndianRoundTrip(count % TWO_TO_THE_32, 4);
  }

  lemma ZerosRead(m: Memory, a: int, n: nat, off: nat, w: nat)
    requires ReadsAs(m, a, Zeros(n)) && off + w <= n && w > 0
    ensures ReadWord(m, a + off, w) == 0
  {
    WordWithin(m, a, Zeros(n), off, w);
    assert Zeros(n)[off..off + w] == Zeros(w);
    FromZeros(w);
  }

  // ---------- Scalars ----------

  predicate Plain(ty: PropertyType) {
    !ty.Str? && !ty.Array? && !ty.Struct? && !ty.Other?
  }

  /** The bytes of a scalar field once an input, if any, has been written over zeros. */
  function FieldBytes(codec: Codec, ty: PropertyType, input: Option<ParamInput>): bytes {
    if input.Some? && !ty.ObjectRef? then ScalarBytes(codec, ty, input.value) else Zeros(Width(ty))
  }

  lemma PlainRoundTrip(m: Memory, codec: Codec, reader: Reader, a: int, ty: PropertyType,
                       input: Option<ParamInput>)
    requires Plain(ty) && ReadsAs(m, a, FieldBytes(codec, ty, input))
    ensures DecodeScalar(m, reader, a, ty) == ExpectedScalar(codec, reader, ty, input)
  {
    hide ReadWord, LittleEndian, FromLittleEndian, ScalarBytes;
    if input.None? || ty.ObjectRef? {
      ZerosRead(m, a, Width(ty), 0, if ty.Name? then 4 else Width(ty));
      if ty.Name? {
        ZerosRead(m, a, 8, 4, 4);
      }
    } else if ty.Name? {
      NameReads(m, codec, a, input.value);
    } else {
      var s := ScalarBytes(codec, ty, input.value);
      PlainWidth(codec, ty, input.value);
      WordWithin(m, a, s, 0, Width(ty));
      assert s[0..Width(ty)] == s;
      WordRoundTrip(codec, reader, ty, input.value);
    }
  }

  lemma NameReads(m: Memory, codec: Codec, a: int, input: ParamInput)
    requires ReadsAs(m, a, ScalarBytes(codec, Name, input))
    ensures ReadWord(m, a, 4) == codec.nameIndex(input.text) % TWO_TO_THE_32 && ReadWord(m, a + 4, 4) == 0
  {
    WordSizes();
    var s, index := ScalarBytes(codec, Name, input), codec.nameIndex(input.text) % TWO_TO_THE_32;
    WordWithin(m, a, s, 0, 4);
    WordWithin(m, a, s, 4, 4);
    assert s[0..4] == LittleEndian(index, 4) && s[4..8] == LittleEndian(0, 4);
    LittleEndianRoundTrip(index, 4);
    LittleEndianRoundTrip(0, 4);
  }

  lemma PlainWidth(codec: Codec, ty: PropertyType, input: ParamInput)
    requires Plain(ty) && !ty.ObjectRef?
    ensures |ScalarBytes(codec, ty, input)| == Width(ty) > 0
  {
  }

  lemma WordRoundTrip(codec: Codec, reader: Reader, ty: PropertyType, input: ParamInput)
    requires Plain(ty) && !ty.Name? && !ty.ObjectRef?
    ensures var word := FromLittleEndian(ScalarBytes(codec, ty, input));
            match ty
            case Bool => word == if input.number != 0.0 then 1 else 0
            case Float => word == codec.floatBits(input.number) % TWO_TO_THE_32
            case Double => word == codec.doubleBits(input.number) % TWO_TO_THE_64
            case _ => WordNumber(ty, word) == Number(ExpectedNumber(ty, Trunc(input.number)) as real)
  {
    WordSizes();
    if ty.Float? {
      LittleEndianRoundTrip(codec.floatBits(input.number) % TWO_TO_THE_32, 4);
    } else if ty.Double? {
      LittleEndianRoundTrip(codec.doubleBits(input.number) % TWO_TO_THE_64, 8);
    } else if !ty.Bool? {
      LittleEndianRoundTrip(Trunc(input.number) % Pow256(IntWidth(ty)), IntWidth(ty));
    }
  }

  lemma ScalarWritten(codec: Codec, bufs: Buffers, b: nat, at: nat, ty: PropertyType, input: Option<ParamInput>)
    requires Plain(ty) && b < |bufs| && Zeroed(bufs[b], at, at + Width(ty))
    ensures var out := if input.Some? then Write(bufs, b, at, ScalarBytes(codec, ty, input.value)) else bufs;
            out[b][at..at + Width(ty)] == FieldBytes(codec, ty, input)
  {
    hide LittleEndian;
  }

  lemma NotPlain(m: Memory, codec: Codec, reader: Reader, a: int, ty: PropertyType,
                 input: Option<ParamInput>)
    requires !Plain(ty) && !ty.Str?
    ensures DecodeScalar(m, reader, a, ty) == None == ExpectedScalar(codec, reader, ty, input)
  {
  }

  lemma ScalarRoundTrip(m: Memory, codec: Codec, reader: Reader, bufs: Buffers, b: nat, at: nat,
                        ty: PropertyType, input: Option<ParamInput>)
    requires !ty.Str? && b < |bufs| && Zeroed(bufs[b], at, at + Width(ty))
    requires var out := if input.Some? then Write(bufs, b, at, ScalarBytes(codec, ty, input.value)) else bufs;
             Shows(m, codec, out, b, at, at + Width(ty))
    ensures DecodeScalar(m, reader, codec.address(b) + at, ty) == ExpectedScalar(codec, reader, ty, input)
  {
    hide DecodeScalar, ExpectedScalar, LittleEndian, ScalarBytes, Overwrite;
    if !Plain(ty) {
      NotPlain(m, codec, reader, codec.address(b) + at, ty, input);
    } else {
      var out := if input.Some? then Write(bufs, b, at, ScalarBytes(codec, ty, input.value)) else bufs;
      ScalarWritten(codec, bufs, b, at, ty, input);
      ShownReadsAs(m, codec, out, b, at, Width(ty));
      PlainRoundTrip(m, codec, reader, codec.address(b) + at, ty, input);
    }
  }

  // ---------- Strings ----------

  lemma StringRoundTrip(m: Memory, codec: Codec, bufs: Buffers, b: nat, at: nat, text: bytes)
    requires b < |bufs| && at + 16 <= |bufs[b]|
    requires var out := EncodeStr(codec, bufs, b, at, text);
             Shows(m, codec, out, b, at, at + 16) && ShowsFrom(m, codec, out, |bufs|)
    ensures ReadString(m, codec.address(b) + at) == ExpectedText(text)
  {
    hide Utf8ToUtf16, Utf16ToUtf8, LittleEndian, FromLittleEndian, TryRead, ReadWord, UnitBytes, Header;
    var out := EncodeStr(codec, bufs, b, at, text);
    var a := codec.address(b) + at;
    ShownReadsAs(m, codec, out, b, at, 16);
    if text == [] {
      assert out[b][at..at + 16] == Zeros(16);
      ZerosRead(m, a, 16, 0, 8);
    } else {
      var u := Utf8ToUtf16(text);
      var pool := |bufs|;
      assert out[pool] == UnitBytes(u + [0]);
      assert Shows(m, codec, out, pool, 0, |out[pool]|);
      assert out[b][at..at + 16] == Header(codec.address(pool), |u| + 1);
      HeaderReads(m, a, codec.address(pool), |u| + 1);
      if StoredCount(|u| + 1) > 1 {
        PooledTextReads(m, codec, out, pool, u, StoredCount(|u| + 1));
      }
    }
  }

  lemma PooledTextReads(m: Memory, codec: Codec, out: Buffers, pool: nat, u: seq<unit>, num: int)
    requires pool < |out| && out[pool] == UnitBytes(u + [0])
    requires Shows(m, codec, out, pool, 0, |out[pool]|) && 1 < num <= |u| + 1
    ensures var n := Min(num - 1, MAX_STRING_UNITS);
            var r := TryRead(m, codec.address(pool), 2 * n);
            r.Some? && UnitsFrom(r.value) == u[..n]
  {
    hide Utf8ToUtf16, Utf16ToUtf8, LittleEndian, FromLittleEndian, UnitsFrom, UnitBytes, TryRead;
    var n := Min(num - 1, MAX_STRING_UNITS);
    ReadShown(m, codec, out, pool, 0, 2 * n);
    UnitsFromPrefix(u + [0], n);
    assert (u + [0])[..n] == u[..n];
  }

  // ---------- Fields, arrays and elements ----------

  /** Bytes that later writes left alone are still shown. */
  lemma ShownBefore(m: Memory, codec: Codec, mid: Buffers, out: Buffers, k: nat, lo: int, hi: int)
    requires k < |mid| && Grown(mid, out) && Shows(m, codec, out, k, lo, hi)
    requires forall j | lo <= j < hi :: out[k][j] == mid[k][j]
    ensures Shows(m, codec, mid, k, lo, hi)
  {
  }

  lemma ShownWithin(m: Memory, codec: Codec, bufs: Buffers, k: nat, lo: int, hi: int, hi': int)
    requires Shows(m, codec, bufs, k, lo, hi) && hi' <= hi
    ensures Shows(m, codec, bufs, k, lo, hi')
  {
  }

  lemma {:induction false} FieldsRoundTrip(m: Memory, codec: Codec, reader: Reader, bufs: Buffers,
                                           b: nat, base: nat, params: seq<ParamSpec>,
                                           inputs: seq<ParamInput>, depth: nat)
    requires b < |bufs| && base + Span(params, depth) <= |bufs[b]|
    requires Sized(params, depth) && Disjoint(params, depth)
    requires ZeroFields(bufs[b], base, params, depth)
    requires var out := EncodeFields(codec, bufs, b, base, params, inputs, depth);
             && Shows(m, codec, out, b, base, base + Span(params, depth))
             && ShowsFrom(m, codec, out, |bufs|)
    ensures DecodeFields(m, reader, codec.address(b) + base, params, depth)
         == ExpectedFields(codec, reader, params, inputs, depth)
    decreases params, 4
  {
    hide EncodeField, DecodeField, ExpectedField, Extent, Shows, SizedField, DisjointField, ApartFromAll;
    if params != [] {
      var p, rest, input, at := params[0], params[1..], Find(inputs, params[0].name), base + params[0].offset;
      var mid := EncodeField(codec, bufs, b, at, p, input, depth);
      var out := EncodeFields(codec, mid, b, base, rest, inputs, depth);
      FieldShown(m, codec, bufs, b, base, params, inputs, depth);
      FieldRoundTrip(m, codec, reader, bufs, b, at, p, input, depth);
      RestZero(codec, bufs, b, base, params, input, depth);
      ShownWithin(m, codec, out, b, base, base + Span(params, depth), base + Span(rest, depth));
      FieldsRoundTrip(m, codec, reader, mid, b, base, rest, inputs, depth);
    }
  }

  /** What the first field wrote is still there after the other fields. */
  lemma FieldShown(m: Memory, codec: Codec, bufs: Buffers, b: nat, base: nat, params: seq<ParamSpec>,
                   inputs: seq<ParamInput>, depth: nat)
    requires params != []
    requires b < |bufs| && base + Span(params, depth) <= |bufs[b]|
    requires Sized(params, depth) && Disjoint(params, depth)
    requires var out := EncodeFields(codec, bufs, b, base, params, inputs, depth);
             && Shows(m, codec, out, b, base, base + Span(params, depth))
             && ShowsFrom(m, codec, out, |bufs|)
    ensures var p := params[0];
            var at := base + p.offset;
            var mid := EncodeField(codec, bufs, b, at, p, Find(inputs, p.name), depth);
            && Shows(m, codec, mid, b, at, at + Extent(p, depth))
            && ShowsFrom(m, codec, mid, |bufs|)
  {
    hide EncodeField, Find;
    var p, rest := params[0], params[1..];
    var at := base + p.offset;
    var mid := EncodeField(codec, bufs, b, at, p, Find(inputs, p.name), depth);
    var out := EncodeFields(codec, mid, b, base, rest, inputs, depth);
    forall j | at <= j < at + Extent(p, depth)
      ensures out[b][j] == mid[b][j]
    {
      ApartMeansUntouched(p, rest, depth, j - base);
      FieldsFrame(codec, mid, b, base, rest, inputs, depth, b, j);
    }
    ShownBefore(m, codec, mid, out, b, at, at + Extent(p, depth));
    forall k | |bufs| <= k < |mid|
      ensures Shows(m, codec, mid, k, 0, |mid[k]|)
    {
      forall j | 0 <= j < |mid[k]|
        ensures out[k][j] == mid[k][j]
      {
        FieldsFrame(codec, mid, b, base, rest, inputs, depth, k, j);
      }
      ShownBefore(m, codec, mid, out, k, 0, |mid[k]|);
    }
  }

  lemma RestZero(codec: Codec, bufs: Buffers, b: nat, base: nat, params: seq<ParamSpec>,
                 input: Option<ParamInput>, depth: nat)
    requires params != []
    requires b < |bufs| && base + Span(params, depth) <= |bufs[b]|
    requires Sized(params, depth) && Disjoint(params, depth)
    requires ZeroFields(bufs[b], base, params, depth)
    ensures var mid := EncodeField(codec, bufs, b, base + params[0].offset, params[0], input, depth);
            ZeroFields(mid[b], base, params[1..], depth)
  {
    var p, rest := params[0], params[1..];
    var mid := EncodeField(codec, bufs, b, base + p.offset, p, input, depth);
    forall j | base <= j < |mid[b]| && Touches(rest, depth, j - base)
      ensures mid[b][j] == 0
    {
      if InField(p, depth, j - base) {
        ApartMeansUntouched(p, rest, depth, j - base);
      }
      FieldFrame(codec, bufs, b, base + p.offset, p, input, depth, b, j);
    }
  }

  lemma {:induction false} NothingEncoded(codec: Codec, bufs: Buffers, b: nat, base: nat,
                                          params: seq<ParamSpec>, depth: nat)
    requires b < |bufs| && base + Span(params, depth) <= |bufs[b]| && Sized(params, depth)
    ensures EncodeFields(codec, bufs, b, base, params, [], depth) == bufs
  {
    if params != [] {
      NothingEncoded(codec, bufs, b, base, params[1..], depth);
    }
  }

  lemma {:induction false} FieldRoundTrip(m: Memory, codec: Codec, reader: Reader, bufs: Buffers,
                                          b: nat, at: nat, p: ParamSpec, input: Option<ParamInput>,
                                          depth: nat)
    requires b < |bufs| && at + Extent(p, depth) <= |bufs[b]|
    requires SizedField(p, depth) && DisjointField(p, depth)
    requires Zeroed(bufs[b], at, at + Extent(p, depth))
    requires var out := EncodeField(codec, bufs, b, at, p, input, depth);
             && Shows(m, codec, out, b, at, at + Extent(p, depth))
             && ShowsFrom(m, codec, out, |bufs|)
    ensures DecodeField(m, reader, codec.address(b) + at, p, depth)
         == ExpectedField(codec, reader, p, input, depth)
    decreases p, 3
  {
    hide EncodeFields, DecodeFields, ExpectedFields, Span, LittleEndian, TryRead, EncodeArray, Sized;
    if p.ty.Struct? {
      if depth < MAX_STRUCT_DEPTH {
        NothingEncoded(codec, bufs, b, at, p.fields, depth + 1);
        StructRoundTrip(m, codec, reader, bufs, b, at, p,
                        if input.Some? then input.value.items else [], depth);
      }
    } else if p.ty.Array? {
      ArrayRoundTrip(m, codec, reader, bufs, b, at, p, input, depth);
    } else if p.ty.Str? {
      if input.Some? {
        StringRoundTrip(m, codec, bufs, b, at, input.value.text);
      } else {
        AbsentReadsNull(m, codec, bufs, b, at);
      }
    } else {
      ScalarRoundTrip(m, codec, reader, bufs, b, at, p.ty, input);
    }
  }

  lemma AbsentReadsNull(m: Memory, codec: Codec, bufs: Buffers, b: nat, at: nat)
    requires b < |bufs| && Zeroed(bufs[b], at, at + 16) && Shows(m, codec, bufs, b, at, at + 16)
    ensures ReadWord(m, codec.address(b) + at, 8) == 0
    ensures ReadString(m, codec.address(b) + at) == []
  {
    ShownReadsAs(m, codec, bufs, b, at, 16);
    assert bufs[b][at..at + 16] == Zeros(16);
    ZerosRead(m, codec.address(b) + at, 16, 0, 8);
  }

  lemma {:induction false} StructRoundTrip(m: Memory, codec: Codec, reader: Reader, bufs: Buffers,
                                           b: nat, at: nat, p: ParamSpec, inputs: seq<ParamInput>,
                                           depth: nat)
    requires b < |bufs| && at + Span(p.fields, depth + 1) <= |bufs[b]|
    requires Sized(p.fields, depth + 1) && Disjoint(p.fields, depth + 1)
    requires Zeroed(bufs[b], at, at + Span(p.fields, depth + 1))
    requires var out := EncodeFields(codec, bufs, b, at, p.fields, inputs, depth + 1);
             && Shows(m, codec, out, b, at, at + Span(p.fields, depth + 1))
             && ShowsFrom(m, codec, out, |bufs|)
    ensures DecodeFields(m, reader, codec.address(b) + at, p.fields, depth + 1)
         == ExpectedFields(codec, reader, p.fields, inputs, depth + 1)
    decreases p, 0
  {
    forall j | at <= j < |bufs[b]| && Touches(p.fields, depth + 1, j - at)
      ensures bufs[b][j] == 0
    {
      TouchesWithinSpan(p.fields, depth + 1, j - at);
    }
    FieldsRoundTrip(m, codec, reader, bufs, b, at, p.fields, inputs, depth + 1);
  }

  lemma {:induction false} ArrayRoundTrip(m: Memory, codec: Codec, reader: Reader, bufs: Buffers,
                                          b: nat, at: nat, p: ParamSpec, input: Option<ParamInput>,
                                          depth: nat)
    requires b < |bufs| && at + 16 <= |bufs[b]|
    requires p.ty.Array? && SizedField(p, depth) && DisjointField(p, depth)
    requires Zeroed(bufs[b], at, at + 16)
    requires var out := EncodeField(codec, bufs, b, at, p, input, depth);
             Shows(m, codec, out, b, at, at + 16) && ShowsFrom(m, codec, out, |bufs|)
    ensures DecodeField(m, reader, codec.address(b) + at, p, depth)
         == ExpectedField(codec, reader, p, input, depth)
    decreases p, 2
  {
    hide EncodeElements, DecodeElements, ReadWord, LittleEndian, ExpectedScalar, ExpectedFields;
    var out := EncodeField(codec, bufs, b, at, p, input, depth);
    if input.None? || !input.value.isArray || input.value.items == [] || p.innerSize == 0 {
      assert Zeroed(out[b], at, at + 16);
      AbsentReadsNull(m, codec, out, b, at);
    } else {
      var items, pool := input.value.items, |bufs|;
      var n := Min(StoredCount(|items|), MAX_ARRAY_ELEMENTS);
      ArrayHeaderReads(m, codec, bufs, b, at, p, input.value, depth);
      if n > 0 {
        PoolRoundTrip(m, codec, reader, bufs, b, at, p, input.value, depth, n);
      }
    }
  }

  lemma ArrayHeaderReads(m: Memory, codec: Codec, bufs: Buffers, b: nat, at: nat, p: ParamSpec,
                         input: ParamInput, depth: nat)
    requires b < |bufs| && at + 16 <= |bufs[b]| && p.ty.Array? && SizedField(p, depth)
    requires input.isArray && input.items != [] && p.innerSize != 0
    requires var out := EncodeArray(codec, bufs, b, at, p, input, depth);
             Shows(m, codec, out, b, at, at + 16) && ShowsFrom(m, codec, out, |bufs|)
    ensures 0 < codec.address(|bufs|) < CANONICAL_LIMIT
    ensures ReadWord(m, codec.address(b) + at, 8) == codec.address(|bufs|)
    ensures Signed(ReadWord(m, codec.address(b) + at + 8, 4), TWO_TO_THE_32) == StoredCount(|input.items|)
    ensures ReadWord(m, codec.address(b) + at + 12, 4) == ReadWord(m, codec.address(b) + at + 8, 4)
  {
    hide Utf8ToUtf16, Utf16ToUtf8, LittleEndian, FromLittleEndian, EncodeElement;
    var out := EncodeArray(codec, bufs, b, at, p, input, depth);
    var pool := |bufs|;
    BulkNext(|input.items|, p.innerSize);
    assert Shows(m, codec, out, pool, 0, |out[pool]|);
    assert out[b][at..at + 16] == Header(codec.address(pool), |input.items|);
    ShownReadsAs(m, codec, out, b, at, 16);
    HeaderReads(m, codec.address(b) + at, codec.address(pool), |input.items|);
  }

  /** The array's own pool is decoded once its elements are all in it. */
  lemma {:induction false} PoolRoundTrip(m: Memory, codec: Codec, reader: Reader, bufs: Buffers,
                                         b: nat, at: nat, p: ParamSpec, input: ParamInput,
                                         depth: nat, n: nat)
    requires b < |bufs| && at + 16 <= |bufs[b]|
    requires p.ty.Array? && SizedField(p, depth) && DisjointField(p, depth)
    requires input.isArray && input.items != [] && p.innerSize != 0 && n <= |input.items|
    requires ShowsFrom(m, codec, EncodeArray(codec, bufs, b, at, p, input, depth), |bufs|)
    ensures DecodeElements(m, reader, codec.address(|bufs|), p, n, depth)
         == ExpectedElements(codec, reader, p, input.items[..n], depth)
    decreases p, 1, |input.items| + 1
  {
    var items, pool := input.items, |bufs|;
    var pooled := Write(bufs, b, at, Zeros(16)) + [Zeros(Bulk(|items|, p.innerSize))];
    var filled := EncodeElements(codec, pooled, pool, 0, p, items, depth);
    var out := EncodeArray(codec, bufs, b, at, p, input, depth);
    forall k | pool <= k < |filled|
      ensures Shows(m, codec, filled, k, 0, |filled[k]|)
    {
      assert Shows(m, codec, out, k, 0, |out[k]|) && out[k] == filled[k];
    }
    ElementsRoundTrip(m, codec, reader, pooled, pool, 0, p, items, depth, n);
  }

  lemma {:induction false} ElementsRoundTrip(m: Memory, codec: Codec, reader: Reader, bufs: Buffers,
                                             b: nat, at: nat, p: ParamSpec, items: seq<ParamInput>,
                                             depth: nat, n: nat)
    requires b < |bufs| && at + Bulk(|items|, p.innerSize) <= |bufs[b]|
    requires p.ty.Array? && p.innerSize != 0 && SizedField(p, depth) && DisjointField(p, depth)
    requires Zeroed(bufs[b], at, at + Bulk(|items|, p.innerSize)) && n <= |items|
    requires var out := EncodeElements(codec, bufs, b, at, p, items, depth);
             && Shows(m, codec, out, b, at, at + Bulk(|items|, p.innerSize))
             && ShowsFrom(m, codec, out, |bufs|)
    ensures DecodeElements(m, reader, codec.address(b) + at, p, n, depth)
         == ExpectedElements(codec, reader, p, items[..n], depth)
    decreases p, 1, |items|
  {
    hide Utf8ToUtf16, Utf16ToUtf8, LittleEndian, FromLittleEndian,
         EncodeElement, DecodeScalar, ExpectedScalar, Overwrite, TryRead, Bulk;
    if n != 0 {
      BulkNext(|items|, p.innerSize);
      var mid := EncodeElement(codec, bufs, b, at, p, items[0], depth);
      ElementShown(m, codec, bufs, b, at, p, items, depth);
      ElementRoundTrip(m, codec, reader, bufs, b, at, p, items[0], depth);
      forall j | at + p.innerSize <= j < at + Bulk(|items|, p.innerSize)
        ensures mid[b][j] == 0
      {
        ElementFrame(codec, bufs, b, at, p, items[0], depth, b, j);
      }
      ElementsRoundTrip(m, codec, reader, mid, b, at + p.innerSize, p, items[1..], depth, n - 1);
      assert items[..n][1..] == items[1..][..n - 1];
    }
  }

  /** What the first element wrote is still there after the other elements. */
  lemma ElementShown(m: Memory, codec: Codec, bufs: Buffers, b: nat, at: nat, p: ParamSpec,
                     items: seq<ParamInput>, depth: nat)
    requires items != [] && b < |bufs| && at + Bulk(|items|, p.innerSize) <= |bufs[b]|
    requires at + p.innerSize + Bulk(|items[1..]|, p.innerSize) == at + Bulk(|items|, p.innerSize)
    requires p.ty.Array? && p.innerSize != 0 && SizedField(p, depth)
    requires var out := EncodeElements(codec, bufs, b, at, p, items, depth);
             && Shows(m, codec, out, b, at, at + Bulk(|items|, p.innerSize))
             && ShowsFrom(m, codec, out, |bufs|)
    ensures var mid := EncodeElement(codec, bufs, b, at, p, items[0], depth);
            && Shows(m, codec, mid, b, at, at + p.innerSize)
            && ShowsFrom(m, codec, mid, |bufs|)
  {
    hide Utf8ToUtf16, Utf16ToUtf8, LittleEndian, FromLittleEndian, EncodeElement, EncodeStr, Bulk, Overwrite, TryRead;
    var mid := EncodeElement(codec, bufs, b, at, p, items[0], depth);
    var out := EncodeElements(codec, mid, b, at + p.innerSize, p, items[1..], depth);
    assert Shows(m, codec, out, b, at, at + p.innerSize);
    forall j | at <= j < at + p.innerSize
      ensures out[b][j] == mid[b][j]
    {
      ElementsFrame(codec, mid, b, at + p.innerSize, p, items[1..], depth, b, j);
    }
    ShownBefore(m, codec, mid, out, b, at, at + p.innerSize);
    forall k | |bufs| <= k < |mid|
      ensures Shows(m, codec, mid, k, 0, |mid[k]|)
    {
      forall j | 0 <= j < |mid[k]|
        ensures out[k][j] == mid[k][j]
      {
        ElementsFrame(codec, mid, b, at + p.innerSize, p, items[1..], depth, k, j);
      }
      ShownBefore(m, codec, mid, out, k, 0, |mid[k]|);
    }
  }

  lemma {:induction false} ElementRoundTrip(m: Memory, codec: Codec, reader: Reader, bufs: Buffers,
                                            b: nat, at: nat, p: ParamSpec, item: ParamInput,
                                            depth: nat)
    requires b < |bufs| && at + p.innerSize <= |bufs[b]|
    requires p.ty.Array? && p.innerSize != 0 && SizedField(p, depth) && DisjointField(p, depth)
    requires Zeroed(bufs[b], at, at + p.innerSize)
    requires var out := EncodeElement(codec, bufs, b, at, p, item, depth);
             Shows(m, codec, out, b, at, at + p.innerSize) && ShowsFrom(m, codec, out, |bufs|)
    ensures
      if !StructElements(p) then
        DecodeScalar(m, reader, codec.address(b) + at, p.innerType)
        == ExpectedScalar(codec, reader, p.innerType, Some(item))
      else depth < MAX_STRUCT_DEPTH ==>
        DecodeFields(m, reader, codec.address(b) + at, p.fields, depth + 1)
        == ExpectedFields(codec, reader, p.fields, item.items, depth + 1)
    decreases p, 1, 0
  {
    hide Utf8ToUtf16, Utf16ToUtf8, LittleEndian, FromLittleEndian,
         EncodeElements, EncodeFields, DecodeFields, ExpectedFields, Overwrite;
    if StructElements(p) {
      if depth < MAX_STRUCT_DEPTH {
        StructRoundTrip(m, codec, reader, bufs, b, at, p, item.items, depth);
      }
    } else if p.innerType.Str? {
      StringRoundTrip(m, codec, bufs, b, at, item.text);
    } else {
      ScalarRoundTrip(m, codec, reader, bufs, b, at, p.innerType, Some(item));
    }
  }

  // ---------- The round trip ----------

  /** The allocator's promise: canonical, non-null, pairwise disjoint buffers. */
  ghost predicate PlacedApart(codec: Codec, bufs: Buffers) {
    && (forall k | 0 <= k < |bufs| ::
          0 < codec.address(k) && codec.address(k) + |bufs[k]| <= CANONICAL_LIMIT)
    && forall k, l | 0 <= k < l < |bufs| ::
         || codec.address(k) + |bufs[k]| <= codec.address(l)
         || codec.address(l) + |bufs[l]| <= codec.address(k)
  }

  /** The process memory that holds exactly these buffers. */
  function Snapshot(codec: Codec, bufs: Buffers): Memory {
    if bufs == [] then map[]
    else
      var k := |bufs| - 1;
      Snapshot(codec, bufs[..k]) + At(codec.address(k), bufs[k])
  }

  lemma {:induction false} SnapshotShows(codec: Codec, bufs: Buffers)
    requires PlacedApart(codec, bufs)
    ensures ShowsFrom(Snapshot(codec, bufs), codec, bufs, 0)
  {
    hide Shows;
    if bufs != [] {
      var last := |bufs| - 1;
      var below := Snapshot(codec, bufs[..last]);
      SnapshotShows(codec, bufs[..last]);
      forall k | 0 <= k < |bufs|
        ensures Shows(Snapshot(codec, bufs), codec, bufs, k, 0, |bufs[k]|)
      {
        if k < last {
          assert Shows(below, codec, bufs[..last], k, 0, |bufs[k]|);
          LaterBuffer(below, codec, bufs, k);
        } else {
          LastBuffer(below, codec, bufs);
        }
      }
    }
  }

  lemma LaterBuffer(below: Memory, codec: Codec, bufs: Buffers, k: nat)
    requires PlacedApart(codec, bufs) && k < |bufs| - 1
    requires Shows(below, codec, bufs[..|bufs| - 1], k, 0, |bufs[k]|)
    ensures var last := |bufs| - 1;
            Shows(below + At(codec.address(last), bufs[last]), codec, bufs, k, 0, |bufs[k]|)
  {
  }

  lemma LastBuffer(below: Memory, codec: Codec, bufs: Buffers)
    requires PlacedApart(codec, bufs) && bufs != []
    ensures var last := |bufs| - 1;
            Shows(below + At(codec.address(last), bufs[last]), codec, bufs, last, 0, |bufs[last]|)
  {
  }

  /** Any snapshot that shows the encoded buffers decodes to the expected arguments. */
  lemma DecodesAsExpected(m: Memory, codec: Codec, reader: Reader, parmsSize: nat,
                          params: seq<ParamSpec>, inputs: seq<ParamInput>)
    requires Span(params, 0) <= parmsSize && Sized(params, 0) && Disjoint(params, 0)
    requires ShowsFrom(m, codec, Encoded(codec, parmsSize, params, inputs), 0)
    ensures DecodeFields(m, reader, codec.address(0), params, 0)
         == ExpectedFields(codec, reader, params, inputs, 0)
  {
    var out := Encoded(codec, parmsSize, params, inputs);
    assert Shows(m, codec, out, 0, 0, |out[0]|);
    FieldsRoundTrip(m, codec, reader, [Zeros(parmsSize)], 0, 0, params, inputs, 0);
  }

  /** Encoding, placing the buffers anywhere apart, and decoding from that memory. */
  method EncodeThenDecode(codec: Codec, reader: Reader, parmsSize: nat, params: seq<ParamSpec>,
                          inputs: seq<ParamInput>) returns (args: seq<EventArg>)
    requires Span(params, 0) <= parmsSize && Sized(params, 0) && Disjoint(params, 0)
    requires PlacedApart(codec, Encoded(codec, parmsSize, params, inputs))
    ensures args == ExpectedFields(codec, reader, params, inputs, 0)
  {
    var bufs := EncodeParms(codec, parmsSize, params, inputs);
    var m := Snapshot(codec, bufs);
    SnapshotShows(codec, bufs);
    DecodesAsExpected(m, codec, reader, parmsSize, params, inputs);
    args := DecodeParms(m, reader, codec.address(0), params);
  }

  // ---------- Stored pointers ----------

  /** A stored string pointer names a live pool that holds exactly the recorded units, the last of them a
      null terminator. */
  lemma StringPointerLive(codec: Codec, bufs: Buffers, b: nat, at: nat, text: bytes)
    requires b < |bufs| && at + 16 <= |bufs[b]| && text != []
    ensures var out := EncodeStr(codec, bufs, b, at, text);
            var count := |Utf8ToUtf16(text)| + 1;
            && out[b][at..at + 16] == Header(codec.address(|bufs|), count)
            && |out| == |bufs| + 1 && |out[|bufs|]| == 2 * count
            && out[|bufs|][2 * count - 2..] == [0, 0]
  {
    hide Utf8ToUtf16;
    var u := Utf8ToUtf16(text) + [0];
    assert UnitBytes(u)[2 * |u| - 2] == u[|u| - 1] % 256 && UnitBytes(u)[2 * |u| - 1] == u[|u| - 1] / 256;
  }

  /** A stored array pointer names a live pool of exactly the recorded elements, and nested
      pools come after it. */
  lemma ArrayPointerLive(codec: Codec, bufs: Buffers, b: nat, at: nat, p: ParamSpec,
                         input: ParamInput, depth: nat)
    requires b < |bufs| && at + 16 <= |bufs[b]| && p.ty.Array? && SizedField(p, depth)
    requires input.isArray && input.items != [] && p.innerSize != 0
    ensures var out := EncodeArray(codec, bufs, b, at, p, input, depth);
            && out[b][at..at + 16] == Header(codec.address(|bufs|), |input.items|)
            && |bufs| < |out| && |out[|bufs|]| == |input.items| * p.innerSize
  {
  }
}
