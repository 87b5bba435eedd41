/**
 What reflected structs look like in memory, said of the engine's objects and not of the reader: a
 struct is a chain of property objects, each with its class, name, offset and size at fixed
 offsets. The layout reader returns exactly the properties that the memory lays out.
 */
module ReflectImage {
  import opened Bytes
  import opened Params
  import opened ReflectLayout

  /** A property as the engine declares it; a struct or array property refers to more of them. */
  datatype Property = Property(name: bytes, className: bytes, offset: nat, size: nat, inner: Inner)

  datatype Inner =
    | Leaf
    | StructOf(members: seq<Property>)
    | ArrayOf(elementClass: bytes, elementSize: nat, elements: seq<Property>)

  // ---------- Class names ----------

  /** The bytes are the characters of an ASCII text. */
  predicate Is(name: bytes, text: string) {
    |name| == |text| && forall i | 0 <= i < |name| :: name[i] == text[i] as int % 0x100
  }

  /** The engine's classes of properties of a type that the codec tells apart. */
  predicate Named(ty: PropertyType, className: bytes) {
    match ty
    case Int32 => Is(className, "IntProperty") || Is(className, "Int32Property")
    case UInt32 => Is(className, "UInt32Property")
    case Int64 => Is(className, "Int64Property")
    case UInt64 => Is(className, "UInt64Property")
    case Int16 => Is(className, "Int16Property")
    case UInt16 => Is(className, "UInt16Property")
    case Byte => Is(className, "ByteProperty") || Is(className, "Int8Property")
    case Enum => Is(className, "EnumProperty")
    case ObjectRef =>
      || Is(className, "ObjectProperty") || Is(className, "ClassProperty")
      || Is(className, "WeakObjectProperty") || Is(className, "InterfaceProperty")
    case Bool => Is(className, "BoolProperty")
    case Float => Is(className, "FloatProperty")
    case Double => Is(className, "DoubleProperty")
    case Name => Is(className, "NameProperty")
    case Str => Is(className, "StrProperty")
    case Array => Is(className, "ArrayProperty")
    case Struct => Is(className, "StructProperty")
    case Other => false
  }

  ghost predicate HasType(ty: PropertyType, className: bytes) {
    if ty == Other then forall t: PropertyType :: !Named(t, className) else Named(ty, className)
  }

  lemma SpelledIs(name: bytes, text: string)
    ensures name == Spelled(text) <==> Is(name, text)
  {
  }

  lemma {:induction false} TypeIsARow(table: seq<(string, PropertyType)>, name: bytes)
    requires forall k | 0 <= k < |table| :: table[k].1 != Other
    ensures var ty := TypeIn(table, name);
            if ty == Other then forall k | 0 <= k < |table| :: !Is(name, table[k].0)
            else exists k | 0 <= k < |table| :: Is(name, table[k].0) && table[k].1 == ty
    decreases |table|
  {
    hide Is, Spelled;
    if table != [] {
      SpelledIs(name, table[0].0);
      if name == Spelled(table[0].0) {
        assert Is(name, table[0].0) && table[0].1 == TypeIn(table, name);
      } else {
        var rest := table[1..];
        assert forall k | 0 <= k < |rest| :: rest[k] == table[k + 1];
        TypeIsARow(rest, name);
        var ty := TypeIn(rest, name);
        if ty == Other {
          forall k | 0 <= k < |table|
            ensures !Is(name, table[k].0)
          {
            assert k > 0 ==> table[k] == rest[k - 1];
          }
        } else {
          var k :| 0 <= k < |rest| && Is(name, rest[k].0) && rest[k].1 == ty;
          assert Is(name, table[k + 1].0) && table[k + 1].1 == ty;
        }
      }
    }
  }

  lemma RowsHaveTypes()
    ensures forall k | 0 <= k < |TYPE_NAMES| :: TYPE_NAMES[k].1 != Other
  {
  }

  lemma RowsAreNamed(k: nat, name: bytes)
    requires k < |TYPE_NAMES| && Is(name, TYPE_NAMES[k].0)
    ensures Named(TYPE_NAMES[k].1, name)
  {
    hide Is;
  }

  lemma NamedAreRows(ty: PropertyType, name: bytes) returns (k: nat)
    requires Named(ty, name)
    ensures k < |TYPE_NAMES| && Is(name, TYPE_NAMES[k].0) && TYPE_NAMES[k].1 == ty
  {
    hide Is;
    k := match ty
      case Int32 => if Is(name, "IntProperty") then 0 else 1
      case UInt32 => 2
      case Int64 => 3
      case UInt64 => 4
      case Int16 => 5
      case UInt16 => 6
      case Byte => if Is(name, "ByteProperty") then 7 else 8
      case Enum => 9
      case ObjectRef =>
        if Is(name, "ObjectProperty") then 10 else if Is(name, "ClassProperty") then 11
        else if Is(name, "WeakObjectProperty") then 12 else 13
      case Bool => 14
      case Float => 15
      case Double => 16
      case Name => 17
      case Str => 18
      case Array => 19
      case Struct => 20;
  }

  /** The fourth and fifth letters and the length tell the classes apart. */
  lemma NamedOnce(t: PropertyType, u: PropertyType, name: bytes)
    requires Named(t, name) && Named(u, name)
    ensures t == u
  {
    assert |name| >= 11;
    var a, b, c := name[0], name[3], name[4];
  }

  /** The type table maps exactly the engine's class names, each to its own type. */
  lemma TypeOfClass(name: bytes, ty: PropertyType)
    ensures PropertyTypeOf(name) == ty <==> HasType(ty, name)
  {
    hide Is, Spelled, TypeIn, Named, TYPE_NAMES;
    RowsHaveTypes();
    TypeIsARow(TYPE_NAMES, name);
    var found := PropertyTypeOf(name);
    if found == Other {
      forall t: PropertyType
        ensures !Named(t, name)
      {
        if Named(t, name) {
          var k := NamedAreRows(t, name);
          assert false;
        }
      }
      assert HasType(Other, name);
    } else {
      var k :| 0 <= k < |TYPE_NAMES| && Is(name, TYPE_NAMES[k].0) && TYPE_NAMES[k].1 == found;
      RowsAreNamed(k, name);
      if HasType(ty, name) && ty != Other {
        NamedOnce(ty, found, name);
      }
    }
    OtherIsUnnamed(name);
  }

  lemma OtherIsUnnamed(name: bytes)
    ensures !Named(Other, name)
  {
  }

  // ---------- The engine's objects in memory ----------

  /** Heap pointers of the supported build. */
  predicate PointerLike(v: nat) { 0x7F00_0000_0000 <= v < 0x8000_0000_0000 }

  ghost predicate NameAt(m: Memory, names: Names, a: int, name: bytes) {
    exists index: nat :: WordAt(m, a, 4, index) && names(index) == name
  }

  /** The class object of a property starts with the class's name. */
  ghost predicate ClassAt(m: Memory, names: Names, property: nat, className: bytes) {
    exists c: nat :: WordAt(m, property + 0x08, 8, c) && ClassNamed(m, names, c, className)
  }

  ghost predicate ClassNamed(m: Memory, names: Names, c: nat, className: bytes) {
    if c == 0 then className == [] else NameAt(m, names, c, className)
  }

  /** The struct's properties are chained from offset 0x50; nothing is said below eight levels. */
  ghost predicate StructAt(m: Memory, names: Names, a: nat, members: seq<Property>, depth: nat)
    decreases members, 3
  {
    if a == 0 || depth > 8 then members == []
    else exists first: nat :: WordAt(m, a + 0x50, 8, first) && ChainAt(m, names, first, members, 0, depth)
  }

  predicate LinkAt(m: Memory, a: nat, next: nat) { WordAt(m, a + 0x20, 8, next) }

  /** Each property object has the next one's address at offset 0x20. The chain ends at a link that
      is no pointer, and is followed through 512 properties. */
  ghost predicate ChainAt(m: Memory, names: Names, a: nat, members: seq<Property>, seen: nat, depth: nat)
    decreases members, 2
  {
    if members == [] then !PointerLike(a) || seen == 512
    else
      && PointerLike(a) && seen < 512 && PropertyAt(m, names, a, members[0], depth)
      && exists next: nat :: LinkAt(m, a, next) && ChainAt(m, names, next, members[1..], seen + 1, depth)
  }

  ghost predicate PropertyAt(m: Memory, names: Names, a: nat, p: Property, depth: nat)
    decreases p, 1
  {
    && ClassAt(m, names, a, p.className)
    && NameAt(m, names, a + 0x28, p.name)
    && WordAt(m, a + 0x38, 4, p.size)
    && WordAt(m, a + 0x4C, 4, p.offset)
    && exists ref: nat :: WordAt(m, a + 0x78, 8, ref) && InnerAt(m, names, ref, p, depth)
  }

  /** A struct property refers to its struct, an array property to the property of its elements. */
  ghost predicate InnerAt(m: Memory, names: Names, ref: nat, p: Property, depth: nat)
    decreases p, 0, 1
  {
    if PointerLike(ref) && Is(p.className, "StructProperty") then
      p.inner.StructOf? && StructAt(m, names, ref, p.inner.members, depth + 1)
    else if PointerLike(ref) && Is(p.className, "ArrayProperty") then
      && p.inner.ArrayOf?
      && ClassAt(m, names, ref, p.inner.elementClass)
      && WordAt(m, ref + 0x38, 4, p.inner.elementSize)
      && exists struct: nat :: WordAt(m, ref + 0x78, 8, struct) && ElementsAt(m, names, struct, p, depth)
    else p.inner.Leaf?
  }

  ghost predicate ElementsAt(m: Memory, names: Names, struct: nat, p: Property, depth: nat)
    requires p.inner.ArrayOf?
    decreases p, 0, 0
  {
    if PointerLike(struct) && Is(p.inner.elementClass, "StructProperty")
    then StructAt(m, names, struct, p.inner.elements, depth + 1)
    else p.inner.elements == []
  }

  // ---------- What the layout must be ----------

  ghost predicate Describes(spec: ParamSpec, p: Property)
    decreases p, 0
  {
    && spec.name == p.name && HasType(spec.ty, p.className) && spec.offset == p.offset
    && match p.inner
       case Leaf => spec.innerType == Other && spec.innerSize == 0 && spec.fields == []
       case StructOf(members) =>
         spec.innerType == Other && spec.innerSize == 0 && DescribesAll(spec.fields, members)
       case ArrayOf(elementClass, elementSize, elements) =>
         && HasType(spec.innerType, elementClass) && spec.innerSize == elementSize
         && DescribesAll(spec.fields, elements)
  }

  ghost predicate DescribesAll(specs: seq<ParamSpec>, members: seq<Property>)
    decreases members, 1
  {
    |specs| == |members| && forall i | 0 <= i < |specs| :: Describes(specs[i], members[i])
  }

  predicate Covers(size: nat, members: seq<Property>) {
    forall i | 0 <= i < |members| :: members[i].offset + members[i].size <= size
  }

  /** The least multiple of 16 within which every property lies. */
  ghost predicate LeastCover(size: nat, members: seq<Property>) {
    && size % 16 == 0 && Covers(size, members)
    && forall n: nat | n % 16 == 0 && Covers(n, members) :: size <= n
  }

  // ---------- The reader returns it ----------

  lemma PointerTest(v: nat)
    ensures LooksLikePointer(v) <==> PointerLike(v)
  {
  }

  lemma NameIsRead(m: Memory, names: Names, a: int, name: bytes)
    ensures NameAt(m, names, a, name) <==> names(ReadWord(m, a, 4)) == name
  {
    hide WordAt, ReadWord;
    WordAtIsRead(m, a, 4, ReadWord(m, a, 4));
    forall index: nat | WordAt(m, a, 4, index)
      ensures index == ReadWord(m, a, 4)
    {
      WordAtIsRead(m, a, 4, index);
    }
  }

  lemma ClassIsRead(m: Memory, names: Names, a: nat, className: bytes)
    requires ClassAt(m, names, a, className)
    ensures HasType(FieldType(m, names, a), className)
  {
    hide WordAt, ReadWord, NameAt, HasType, PropertyTypeOf;
    var c: nat :| WordAt(m, a + 0x08, 8, c) && ClassNamed(m, names, c, className);
    WordAtIsRead(m, a + 0x08, 8, c);
    NameIsRead(m, names, c, className);
    TypeOfClass(className, FieldType(m, names, a));
  }

  lemma StructOrArray(m: Memory, names: Names, a: nat, className: bytes)
    requires ClassAt(m, names, a, className)
    ensures var ty := FieldType(m, names, a);
            && HasType(ty, className)
            && (ty == Struct <==> Is(className, "StructProperty"))
            && (ty == Array <==> Is(className, "ArrayProperty"))
  {
    hide Is, FieldType, ClassAt;
    ClassIsRead(m, names, a, className);
    var ty := FieldType(m, names, a);
    if Is(className, "StructProperty") {
      assert Named(Struct, className);
      NamedOnce(Struct, ty, className);
    }
    if Is(className, "ArrayProperty") {
      assert Named(Array, className);
      NamedOnce(Array, ty, className);
    }
  }

  lemma {:induction false} StructIsRead(m: Memory, names: Names, a: nat, members: seq<Property>, depth: nat)
    requires StructAt(m, names, a, members, depth)
    ensures DescribesAll(Specs(Members(m, names, a, depth)), members)
    ensures Sizes(Members(m, names, a, depth), members)
    decreases members, 3
  {
    hide WordAt, ReadWord, ChainAt, Walk, Describes;
    if a != 0 && depth <= 8 {
      var first: nat :| WordAt(m, a + 0x50, 8, first) && ChainAt(m, names, first, members, 0, depth);
      WordAtIsRead(m, a + 0x50, 8, first);
      ChainIsRead(m, names, first, members, 0, depth);
    }
  }

  ghost predicate Sizes(read: seq<Member>, members: seq<Property>) {
    && |read| == |members|
    && forall i | 0 <= i < |read| ::
         read[i].elementSize == members[i].size && read[i].spec.offset == members[i].offset
  }

  lemma {:induction false} ChainIsRead(m: Memory, names: Names, a: nat, members: seq<Property>, seen: nat,
                                       depth: nat)
    requires ChainAt(m, names, a, members, seen, depth) && depth <= 8 && seen <= 512
    ensures var r := Walk(m, names, a, seen, depth); DescribesAll(Specs(r), members) && Sizes(r, members)
    decreases members, 2
  {
    hide WordAt, ReadWord, PropertyAt, Describes, ReadSpec, PointerLike, LooksLikePointer;
    PointerTest(a);
    if members != [] {
      var next: nat :| LinkAt(m, a, next) && ChainAt(m, names, next, members[1..], seen + 1, depth);
      WordAtIsRead(m, a + 0x20, 8, next);
      PropertyIsRead(m, names, a, members[0], depth);
      ChainIsRead(m, names, next, members[1..], seen + 1, depth);
      var r, rest := Walk(m, names, a, seen, depth), Walk(m, names, next, seen + 1, depth);
      assert r == [ReadMember(m, names, a, depth)] + rest;
      assert Specs(r) == [r[0].spec] + Specs(rest);
      forall i | 0 <= i < |r|
        ensures Describes(Specs(r)[i], members[i])
        ensures r[i].elementSize == members[i].size && r[i].spec.offset == members[i].offset
      {
        if i > 0 {
          assert r[i] == rest[i - 1] && Specs(r)[i] == Specs(rest)[i - 1] && members[i] == members[1..][i - 1];
        }
      }
    }
  }

  lemma ElementsRef(m: Memory, names: Names, ref: nat, p: Property, depth: nat) returns (struct: nat)
    requires InnerAt(m, names, ref, p, depth) && p.inner.ArrayOf?
    ensures WordAt(m, ref + 0x78, 8, struct) && ElementsAt(m, names, struct, p, depth)
  {
    hide WordAt, ClassAt, Is, ElementsAt;
    struct :| WordAt(m, ref + 0x78, 8, struct) && ElementsAt(m, names, struct, p, depth);
  }

  lemma {:induction false} PropertyIsRead(m: Memory, names: Names, a: nat, p: Property, depth: nat)
    requires PropertyAt(m, names, a, p, depth) && depth <= 8
    ensures Describes(ReadSpec(m, names, a, depth), p)
    ensures ReadWord(m, a + 0x38, 4) == p.size && ReadSpec(m, names, a, depth).offset == p.offset
    decreases p, 1
  {
    hide WordAt, ReadWord, ClassAt, NameAt, HasType, Is, FieldType, PointerLike, LooksLikePointer, StructAt,
         Members, Specs, DescribesAll;
    StructOrArray(m, names, a, p.className);
    NameIsRead(m, names, a + 0x28, p.name);
    WordAtIsRead(m, a + 0x38, 4, p.size);
    WordAtIsRead(m, a + 0x4C, 4, p.offset);
    var ref: nat :| WordAt(m, a + 0x78, 8, ref) && InnerAt(m, names, ref, p, depth);
    WordAtIsRead(m, a + 0x78, 8, ref);
    PointerTest(ref);
    if PointerLike(ref) && Is(p.className, "StructProperty") {
      StructIsRead(m, names, ref, p.inner.members, depth + 1);
    } else if PointerLike(ref) && Is(p.className, "ArrayProperty") {
      StructOrArray(m, names, ref, p.inner.elementClass);
      WordAtIsRead(m, ref + 0x38, 4, p.inner.elementSize);
      var struct := ElementsRef(m, names, ref, p, depth);
      WordAtIsRead(m, ref + 0x78, 8, struct);
      PointerTest(struct);
      if PointerLike(struct) && Is(p.inner.elementClass, "StructProperty") {
        StructIsRead(m, names, struct, p.inner.elements, depth + 1);
      } else {
        NothingDescribed();
      }
    }
  }

  lemma NothingDescribed()
    ensures DescribesAll([], [])
  {
  }

  lemma {:induction false} FurthestEndIsLeast(read: seq<Member>, members: seq<Property>, n: nat)
    requires Sizes(read, members)
    ensures FurthestEnd(read) <= n <==> Covers(n, members)
    decreases |read|
  {
    if read != [] {
      FurthestEndIsLeast(read[1..], members[1..], n);
      assert forall i | 1 <= i < |members| :: members[i] == members[1..][i - 1];
    }
  }

  /** Whatever else the memory holds, the layout read from a laid-out struct is that struct's: every
      property with its name, type, offset, element type, stride and nested members, in order, and
      the least size that covers them. */
  lemma LayoutIsRead(m: Memory, names: Names, a: nat, members: seq<Property>, depth: nat)
    requires StructAt(m, names, a, members, depth)
    ensures var layout := Layout(m, names, a, depth);
            DescribesAll(layout.fields, members) && LeastCover(layout.size, members)
  {
    hide StructAt, Members, Specs, FurthestEnd, DescribesAll, Covers, RoundUp16;
    StructIsRead(m, names, a, members, depth);
    var read := Members(m, names, a, depth);
    var size := RoundUp16(FurthestEnd(read));
    RoundUpCovers(FurthestEnd(read));
    FurthestEndIsLeast(read, members, size);
    forall n: nat | n % 16 == 0 && Covers(n, members)
      ensures size <= n
    {
      FurthestEndIsLeast(read, members, n);
    }
  }

  // ---------- Every memory lays out something ----------

  lemma NameLaidOut(m: Memory, names: Names, a: int) returns (name: bytes)
    ensures NameAt(m, names, a, name)
  {
    name := names(ReadWord(m, a, 4));
    NameIsRead(m, names, a, name);
  }

  lemma ClassLaidOut(m: Memory, names: Names, a: nat) returns (className: bytes)
    ensures ClassAt(m, names, a, className)
  {
    hide WordAt, ReadWord, NameAt;
    var c := ReadWord(m, a + 0x08, 8);
    WordAtIsRead(m, a + 0x08, 8, c);
    className := [];
    if c != 0 {
      className := NameLaidOut(m, names, c);
    }
    assert WordAt(m, a + 0x08, 8, c) && ClassNamed(m, names, c, className);
  }

  lemma {:induction false} StructLaidOut(m: Memory, names: Names, a: nat, depth: nat) returns (members: seq<Property>)
    ensures StructAt(m, names, a, members, depth)
    decreases Left(depth), 2
  {
    hide WordAt, ReadWord, ChainAt;
    members := [];
    if a != 0 && depth <= 8 {
      var first := ReadWord(m, a + 0x50, 8);
      WordAtIsRead(m, a + 0x50, 8, first);
      members := ChainLaidOut(m, names, first, 0, depth);
    }
  }

  lemma {:induction false} ChainLaidOut(m: Memory, names: Names, a: nat, seen: nat, depth: nat)
    returns (members: seq<Property>)
    requires depth <= 8 && seen <= 512
    ensures ChainAt(m, names, a, members, seen, depth)
    decreases Left(depth), 1, 512 - seen
  {
    hide WordAt, ReadWord, PropertyAt, PointerLike;
    if !PointerLike(a) || seen == 512 {
      members := [];
    } else {
      var next := ReadWord(m, a + 0x20, 8);
      WordAtIsRead(m, a + 0x20, 8, next);
      assert LinkAt(m, a, next);
      var p := PropertyLaidOut(m, names, a, depth);
      var rest := ChainLaidOut(m, names, next, seen + 1, depth);
      members := [p] + rest;
      assert members[1..] == rest;
    }
  }

  lemma {:induction false} PropertyLaidOut(m: Memory, names: Names, a: nat, depth: nat) returns (p: Property)
    requires depth <= 8
    ensures PropertyAt(m, names, a, p, depth)
    decreases Left(depth), 0
  {
    hide WordAt, ReadWord, ClassAt, NameAt, Is, PointerLike, StructAt;
    var className := ClassLaidOut(m, names, a);
    var name := NameLaidOut(m, names, a + 0x28);
    var size, offset, ref := ReadWord(m, a + 0x38, 4), ReadWord(m, a + 0x4C, 4), ReadWord(m, a + 0x78, 8);
    WordAtIsRead(m, a + 0x38, 4, size);
    WordAtIsRead(m, a + 0x4C, 4, offset);
    WordAtIsRead(m, a + 0x78, 8, ref);
    var inner := Leaf;
    if PointerLike(ref) && Is(className, "StructProperty") {
      var members := StructLaidOut(m, names, ref, depth + 1);
      inner := StructOf(members);
    } else if PointerLike(ref) && Is(className, "ArrayProperty") {
      var elementClass := ClassLaidOut(m, names, ref);
      var elementSize, struct := ReadWord(m, ref + 0x38, 4), ReadWord(m, ref + 0x78, 8);
      WordAtIsRead(m, ref + 0x38, 4, elementSize);
      WordAtIsRead(m, ref + 0x78, 8, struct);
      var elements := [];
      if PointerLike(struct) && Is(elementClass, "StructProperty") {
        elements := StructLaidOut(m, names, struct, depth + 1);
      }
      inner := ArrayOf(elementClass, elementSize, elements);
    }
    p := Property(name, className, offset, size, inner);
    assert InnerAt(m, names, ref, p, depth) by {
      if inner.ArrayOf? {
        var struct := ReadWord(m, ref + 0x78, 8);
        assert WordAt(m, ref + 0x78, 8, struct) && ElementsAt(m, names, struct, p, depth);
      }
    }
  }

  /** On every memory, cyclic chains and wild pointers included, the layout read is that of some
      chain of properties that the memory lays out, and of every such chain. */
  lemma LayoutIsTheImage(m: Memory, names: Names, a: nat, depth: nat)
    ensures exists members :: StructAt(m, names, a, members, depth)
    ensures forall members | StructAt(m, names, a, members, depth) ::
              var layout := Layout(m, names, a, depth);
              DescribesAll(layout.fields, members) && LeastCover(layout.size, members)
  {
    hide StructAt, Layout, DescribesAll, LeastCover;
    var some := StructLaidOut(m, names, a, depth);
    forall members | StructAt(m, names, a, members, depth)
      ensures var layout := Layout(m, names, a, depth);
              DescribesAll(layout.fields, members) && LeastCover(layout.size, members)
    {
      LayoutIsRead(m, names, a, members, depth);
    }
  }
}
