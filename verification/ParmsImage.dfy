/**
 What an argument block in memory means, said of its bytes alone. An image is a tree of what the
 engine stored: integers, object pointers, names with their instance number, strings, arrays and
 structs. The decoder reports exactly the image that the memory holds, whoever wrote it.
 */
module ParmsImage {
  import opened Bytes
  import opened Utf16
  import opened Params
  import opened ParmsDecode

  datatype Image =
    | Whole(n: int)
    | ObjectAt(address: nat)
    | Truth(flag: nat)
    | FloatBits(bits: nat)
    | DoubleBits(bits: nat)
    | NameOf(index: nat, instance: int)
    | Chars(data: nat, num: int, units: seq<unit>)
    | Items(data: nat, num: int, items: seq<Image>)
    | Parts(parts: seq<Image>)
    | Skipped

  // ---------- What the memory holds ----------

  predicate HoldsUnits(m: Memory, a: int, units: seq<unit>) {
    forall i | 0 <= i < |units| ::
      && a + 2 * i in m && m[a + 2 * i] == units[i] % 256
      && a + 2 * i + 1 in m && m[a + 2 * i + 1] == units[i] / 256
  }

  /** { Data, Num, Max }: `num` counts a terminator, and at most 65536 units are looked at. */
  predicate HoldsChars(m: Memory, a: int, data: nat, num: int, units: seq<unit>) {
    && WordAt(m, a, 8, data) && SignedAt(m, a + 8, 4, num)
    && var n := if num - 1 < 0x1_0000 then num - 1 else 0x1_0000;
       if data == 0 || num <= 1 || !Fetchable(m, data, 2 * n) then units == []
       else |units| == n && HoldsUnits(m, data, units)
  }

  predicate HoldsScalar(m: Memory, a: int, ty: PropertyType, image: Image) {
    match ty
    case Int32 => image.Whole? && SignedAt(m, a, 4, image.n)
    case Int64 => image.Whole? && SignedAt(m, a, 8, image.n)
    case Int16 => image.Whole? && SignedAt(m, a, 2, image.n)
    case Byte => image.Whole? && SignedAt(m, a, 1, image.n)
    case UInt32 => image.Whole? && image.n >= 0 && WordAt(m, a, 4, image.n)
    case UInt64 => image.Whole? && image.n >= 0 && WordAt(m, a, 8, image.n)
    case UInt16 => image.Whole? && image.n >= 0 && WordAt(m, a, 2, image.n)
    case Enum => image.Whole? && image.n >= 0 && WordAt(m, a, 1, image.n)
    case ObjectRef => image.ObjectAt? && WordAt(m, a, 8, image.address)
    case Bool => image.Truth? && WordAt(m, a, 1, image.flag)
    case Float => image.FloatBits? && WordAt(m, a, 4, image.bits)
    case Double => image.DoubleBits? && WordAt(m, a, 8, image.bits)
    case Name => image.NameOf? && WordAt(m, a, 4, image.index) && SignedAt(m, a + 4, 4, image.instance)
    case Str => image.Chars? && HoldsChars(m, a, image.data, image.num, image.units)
    case _ => image.Skipped?
  }

  predicate HoldsFields(m: Memory, base: int, params: seq<ParamSpec>, images: seq<Image>, depth: nat)
    decreases params, 3
  {
    && |params| == |images|
    && (params == [] ||
        (&& HoldsField(m, base + params[0].offset, params[0], images[0], depth)
         && HoldsFields(m, base, params[1..], images[1..], depth)))
  }

  predicate HoldsField(m: Memory, a: int, p: ParamSpec, image: Image, depth: nat)
    decreases p, 2
  {
    match p.ty
    case Array =>
      && image.Items? && WordAt(m, a, 8, image.data) && SignedAt(m, a + 8, 4, image.num)
      && if image.data == 0 || image.data >= 0x1_0000_0000_0000 || image.num <= 0 || p.innerSize == 0
         then image.items == []
         else
           && |image.items| == (if image.num < 4096 then image.num else 4096)
           && HoldsElements(m, image.data, p, image.items, depth)
    case Struct => image.Parts? && (depth < 8 ==> HoldsFields(m, a, p.fields, image.parts, depth + 1))
    case _ => HoldsScalar(m, a, p.ty, image)
  }

  /** The elements stand one after another, each `innerSize` bytes from the next. */
  predicate HoldsElements(m: Memory, a: int, p: ParamSpec, items: seq<Image>, depth: nat)
    decreases p, 1, |items|
  {
    items == [] ||
    (&& HoldsElement(m, a, p, items[0], depth)
     && HoldsElements(m, a + p.innerSize, p, items[1..], depth))
  }

  predicate HoldsElement(m: Memory, a: int, p: ParamSpec, image: Image, depth: nat)
    decreases p, 0
  {
    if p.innerType == Struct && p.fields != []
    then image.Parts? && (depth < 8 ==> HoldsFields(m, a, p.fields, image.parts, depth + 1))
    else HoldsScalar(m, a, p.innerType, image)
  }

  // ---------- What an image is reported as ----------

  /** A name's instance number is shown one less, and 0 or less not at all. */
  function Suffix(instance: int): bytes {
    if instance <= 0 then [] else [0x5F] + Digits(instance - 1)
  }

  function Report(reader: Reader, image: Image): Option<ArgValue> {
    match image
    case Whole(n) => Some(Number(n as real))
    case ObjectAt(address) => Some(Number(address as real))
    case Truth(flag) => Some(Number(if flag == 0 then 0.0 else 1.0))
    case FloatBits(bits) => Some(Number(reader.floatValue(bits)))
    case DoubleBits(bits) => Some(Number(reader.doubleValue(bits)))
    case NameOf(index, instance) =>
      Some(if reader.resolve.None? then Number(index as real)
           else Text(reader.resolve.value(index) + Suffix(instance)))
    case Chars(_, _, units) => Some(Text(Utf16ToUtf8(units)))
    case _ => None
  }

  function ReportFields(reader: Reader, params: seq<ParamSpec>, images: seq<Image>, depth: nat): seq<EventArg>
    requires |params| == |images|
    decreases params, 3
  {
    if params == [] then []
    else
      (match ReportField(reader, params[0], images[0], depth)
       case None => []
       case Some(v) => [EventArg(params[0].name, v)])
      + ReportFields(reader, params[1..], images[1..], depth)
  }

  function ReportField(reader: Reader, p: ParamSpec, image: Image, depth: nat): Option<ArgValue>
    decreases p, 2
  {
    match image
    case Items(_, _, items) => Some(List(ReportElements(reader, p, items, depth)))
    case Parts(parts) => Some(ReportParts(reader, p, parts, depth))
    case _ => Report(reader, image)
  }

  /** Structs are followed through eight levels. */
  function ReportParts(reader: Reader, p: ParamSpec, parts: seq<Image>, depth: nat): ArgValue
    decreases p, 0
  {
    Record(if depth < 8 && |p.fields| == |parts| then ReportFields(reader, p.fields, parts, depth + 1) else [])
  }

  /** A skipped element ends the list. */
  function ReportElements(reader: Reader, p: ParamSpec, items: seq<Image>, depth: nat): seq<EventArg>
    decreases p, 1, |items|
  {
    if items == [] || items[0].Skipped? then []
    else
      var v := if items[0].Parts? then Some(ReportParts(reader, p, items[0].parts, depth))
               else Report(reader, items[0]);
      (if v.Some? then [EventArg([], v.value)] else [])
      + ReportElements(reader, p, items[1..], depth)
  }

  // ---------- The decoder reports the image ----------

  lemma UnitsAreHeld(m: Memory, a: int, units: seq<unit>)
    requires Readable(m, a, 2 * |units|)
    ensures HoldsUnits(m, a, units) <==> UnitsFrom(Slice(m, a, 2 * |units|)) == units
  {
    var s := Slice(m, a, 2 * |units|);
    var read := UnitsFrom(s);
    assert forall i | 0 <= i < |units| :: s[2 * i] == m[a + 2 * i] && s[2 * i + 1] == m[a + 2 * i + 1];
    assert forall i | 0 <= i < |units| :: read[i] == s[2 * i] as int + 256 * s[2 * i + 1] as int;
    if read == units {
      forall i | 0 <= i < |units|
        ensures m[a + 2 * i] == units[i] % 256 && m[a + 2 * i + 1] == units[i] / 256
      {
        assert units[i] == m[a + 2 * i] as int + 256 * m[a + 2 * i + 1] as int;
      }
    }
  }

  lemma CharsAreRead(m: Memory, a: int, data: nat, num: int, units: seq<unit>)
    requires HoldsChars(m, a, data, num, units)
    ensures ReadString(m, a) == Utf16ToUtf8(units)
  {
    hide WordAt, SignedAt, HoldsUnits, ReadWord, Pow256, UnitsFrom, Utf16ToUtf8;
    WordSizes();
    WordAtIsRead(m, a, 8, data);
    SignedAtIsRead(m, a + 8, 4, num);
    if units == [] {
      NothingToConvert(units);
    } else {
      UnitsAreHeld(m, data, units);
    }
  }

  lemma NothingToConvert(units: seq<unit>)
    requires units == []
    ensures Utf16ToUtf8(units) == []
  {
  }

  lemma WholeIsRead(m: Memory, a: int, ty: PropertyType, n: int)
    requires ty in {Int32, Int64, Int16, Byte, UInt32, UInt64, UInt16, Enum}
    requires HoldsScalar(m, a, ty, Whole(n))
    ensures WordNumber(ty, ReadWord(m, a, IntWidth(ty))) == Number(n as real)
  {
    hide WordAt, SignedAt, ReadWord, Pow256;
    if ty in {Int32, Int64, Int16, Byte} {
      SignedAtIsRead(m, a, IntWidth(ty), n);
    } else {
      WordAtIsRead(m, a, IntWidth(ty), n);
    }
  }

  /** A scalar decodes to the value its bytes show. */
  lemma ScalarIsReported(m: Memory, reader: Reader, a: int, ty: PropertyType, image: Image)
    requires HoldsScalar(m, a, ty, image)
    ensures DecodeScalar(m, reader, a, ty) == Report(reader, image)
    ensures image.Skipped? <==> Report(reader, image).None?
    ensures !image.Parts? && !image.Items?
  {
    hide WordAt, SignedAt, ReadWord, Pow256, HoldsChars, ReadString, Utf16ToUtf8, Digits;
    WordSizes();
    match image
    case Whole(n) =>
      WholeIsRead(m, a, ty, n);
    case ObjectAt(address) =>
      WordAtIsRead(m, a, 8, address);
    case Truth(flag) =>
      WordAtIsRead(m, a, 1, flag);
    case FloatBits(bits) =>
      WordAtIsRead(m, a, 4, bits);
    case DoubleBits(bits) =>
      WordAtIsRead(m, a, 8, bits);
    case NameOf(index, instance) =>
      WordAtIsRead(m, a, 4, index);
      SignedAtIsRead(m, a + 4, 4, instance);
      if reader.resolve.Some? {
        var name := reader.resolve.value(index);
        assert name + [] == name;
        if instance > 0 {
          ConcatAssociates(name, [0x5F], Digits(instance - 1));
        }
      }
    case Chars(data, num, units) =>
      CharsAreRead(m, a, data, num, units);
    case _ =>
  }

  /** Whatever wrote the memory, the decoder reports the fields' images, in layout order. */
  lemma {:induction false} FieldsAreReported(m: Memory, reader: Reader, base: int, params: seq<ParamSpec>,
                                             images: seq<Image>, depth: nat)
    requires HoldsFields(m, base, params, images, depth)
    ensures |params| == |images|
    ensures DecodeFields(m, reader, base, params, depth) == ReportFields(reader, params, images, depth)
    decreases params, 3
  {
    hide HoldsField, DecodeField, ReportField;
    if params != [] {
      FieldIsReported(m, reader, base + params[0].offset, params[0], images[0], depth);
      FieldsAreReported(m, reader, base, params[1..], images[1..], depth);
    }
  }

  lemma {:induction false} FieldIsReported(m: Memory, reader: Reader, a: int, p: ParamSpec, image: Image,
                                           depth: nat)
    requires HoldsField(m, a, p, image, depth)
    ensures DecodeField(m, reader, a, p, depth)
         == match ReportField(reader, p, image, depth)
            case None => []
            case Some(v) => [EventArg(p.name, v)]
    decreases p, 2
  {
    hide WordAt, SignedAt, ReadWord, Pow256, HoldsScalar, DecodeScalar, Report, HoldsFields, DecodeFields,
         ReportFields, HoldsElements, DecodeElements, ReportElements;
    WordSizes();
    match p.ty
    case Array =>
      WordAtIsRead(m, a, 8, image.data);
      SignedAtIsRead(m, a + 8, 4, image.num);
      ElementsAreReported(m, reader, image.data, p, image.items, depth);
      NoElementsReported(reader, p, image.items, depth);
    case Struct =>
      if depth < 8 {
        FieldsAreReported(m, reader, a, p.fields, image.parts, depth + 1);
      }
    case _ =>
      ScalarIsReported(m, reader, a, p.ty, image);
  }

  lemma NoElementsReported(reader: Reader, p: ParamSpec, items: seq<Image>, depth: nat)
    ensures items == [] ==> ReportElements(reader, p, items, depth) == []
  {
  }

  lemma {:induction false} ElementsAreReported(m: Memory, reader: Reader, a: int, p: ParamSpec,
                                               items: seq<Image>, depth: nat)
    requires items != [] ==> HoldsElements(m, a, p, items, depth)
    ensures DecodeElements(m, reader, a, p, |items|, depth) == ReportElements(reader, p, items, depth)
    decreases p, 1, |items|
  {
    hide HoldsScalar, DecodeScalar, Report, HoldsFields, DecodeFields, ReportFields;
    if items != [] {
      if p.innerType == Struct && p.fields != [] {
        if depth < 8 {
          FieldsAreReported(m, reader, a, p.fields, items[0].parts, depth + 1);
        }
      } else {
        ScalarIsReported(m, reader, a, p.innerType, items[0]);
      }
      ElementsAreReported(m, reader, a + p.innerSize, p, items[1..], depth);
    }
  }

  // ---------- Every memory holds an image ----------

  lemma SignedShown(m: Memory, a: int, width: nat) returns (n: int)
    requires width > 0
    ensures SignedAt(m, a, width, n)
  {
    hide SignedAt, ReadWord, Pow256;
    n := Signed(ReadWord(m, a, width), Pow256(width));
    SignedAtIsRead(m, a, width, n);
  }

  lemma WordShown(m: Memory, a: int, width: nat) returns (w: nat)
    ensures WordAt(m, a, width, w)
  {
    hide WordAt, ReadWord;
    w := ReadWord(m, a, width);
    WordAtIsRead(m, a, width, w);
  }

  lemma CharsImage(m: Memory, a: int) returns (image: Image)
    ensures image.Chars? && HoldsChars(m, a, image.data, image.num, image.units)
  {
    hide WordAt, SignedAt, UnitsFrom, HoldsUnits;
    var data := WordShown(m, a, 8);
    var num := SignedShown(m, a + 8, 4);
    var n := if num - 1 < 0x1_0000 then num - 1 else 0x1_0000;
    if data == 0 || num <= 1 || !Fetchable(m, data, 2 * n) {
      image := Chars(data, num, []);
    } else {
      var units := UnitsFrom(Slice(m, data, 2 * n));
      UnitsAreHeld(m, data, units);
      image := Chars(data, num, units);
    }
  }

  lemma ScalarImage(m: Memory, a: int, ty: PropertyType) returns (image: Image)
    ensures HoldsScalar(m, a, ty, image)
  {
    hide WordAt, SignedAt, HoldsChars;
    match ty
    case Int32 => var n := SignedShown(m, a, 4); image := Whole(n);
    case Int64 => var n := SignedShown(m, a, 8); image := Whole(n);
    case Int16 => var n := SignedShown(m, a, 2); image := Whole(n);
    case Byte => var n := SignedShown(m, a, 1); image := Whole(n);
    case UInt32 => var n := WordShown(m, a, 4); image := Whole(n);
    case UInt64 => var n := WordShown(m, a, 8); image := Whole(n);
    case UInt16 => var n := WordShown(m, a, 2); image := Whole(n);
    case Enum => var n := WordShown(m, a, 1); image := Whole(n);
    case ObjectRef => var n := WordShown(m, a, 8); image := ObjectAt(n);
    case Bool => var n := WordShown(m, a, 1); image := Truth(n);
    case Float => var n := WordShown(m, a, 4); image := FloatBits(n);
    case Double => var n := WordShown(m, a, 8); image := DoubleBits(n);
    case Name =>
      var index := WordShown(m, a, 4);
      var instance := SignedShown(m, a + 4, 4);
      image := NameOf(index, instance);
    case Str => image := CharsImage(m, a);
    case _ => image := Skipped;
  }

  lemma {:induction false} FieldsImage(m: Memory, base: int, params: seq<ParamSpec>, depth: nat)
    returns (images: seq<Image>)
    ensures HoldsFields(m, base, params, images, depth)
    decreases params, 3
  {
    hide HoldsField;
    if params == [] {
      images := [];
    } else {
      var first := FieldImage(m, base + params[0].offset, params[0], depth);
      var rest := FieldsImage(m, base, params[1..], depth);
      images := [first] + rest;
    }
  }

  lemma {:induction false} FieldImage(m: Memory, a: int, p: ParamSpec, depth: nat) returns (image: Image)
    ensures HoldsField(m, a, p, image, depth)
    decreases p, 2
  {
    hide WordAt, SignedAt, HoldsScalar, HoldsFields, HoldsElements;
    match p.ty
    case Array =>
      var data := WordShown(m, a, 8);
      var num := SignedShown(m, a + 8, 4);
      var items := [];
      if data != 0 && data < 0x1_0000_0000_0000 && num > 0 && p.innerSize != 0 {
        items := ElementsImage(m, data, p, if num < 4096 then num else 4096, depth);
      }
      image := Items(data, num, items);
    case Struct =>
      image := PartsImage(m, a, p, depth);
    case _ =>
      image := ScalarImage(m, a, p.ty);
  }

  lemma {:induction false} PartsImage(m: Memory, a: int, p: ParamSpec, depth: nat) returns (image: Image)
    ensures image.Parts? && (depth < 8 ==> HoldsFields(m, a, p.fields, image.parts, depth + 1))
    decreases p, 0
  {
    var parts := FieldsImage(m, a, p.fields, depth + 1);
    image := Parts(parts);
  }

  lemma {:induction false} ElementsImage(m: Memory, a: int, p: ParamSpec, count: nat, depth: nat)
    returns (items: seq<Image>)
    ensures |items| == count && HoldsElements(m, a, p, items, depth)
    decreases p, 1, count
  {
    hide HoldsScalar, HoldsFields;
    if count == 0 {
      items := [];
    } else {
      var first: Image;
      if p.innerType == Struct && p.fields != [] {
        first := PartsImage(m, a, p, depth);
      } else {
        first := ScalarImage(m, a, p.innerType);
      }
      var rest := ElementsImage(m, a + p.innerSize, p, count - 1, depth);
      items := [first] + rest;
    }
  }

  /** On every memory, readable or not, what is decoded is the report of an image that the memory
      holds, and of every image that it holds. */
  lemma DecodesTheImage(m: Memory, reader: Reader, base: int, params: seq<ParamSpec>, depth: nat)
    ensures exists images :: HoldsFields(m, base, params, images, depth)
    ensures forall images | HoldsFields(m, base, params, images, depth) ::
              DecodeFields(m, reader, base, params, depth) == ReportFields(reader, params, images, depth)
  {
    hide HoldsFields, DecodeFields, ReportFields;
    var some := FieldsImage(m, base, params, depth);
    forall images | HoldsFields(m, base, params, images, depth)
      ensures |params| == |images|
      ensures DecodeFields(m, reader, base, params, depth) == ReportFields(reader, params, images, depth)
    {
      FieldsAreReported(m, reader, base, params, images, depth);
    }
  }
}
