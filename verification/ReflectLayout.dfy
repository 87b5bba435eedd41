/**
 The layout of a reflected struct or function, read out of live engine memory.
 */
module ReflectLayout {
  import opened Bytes
  import opened Params
  import opened ParmsEncode

  const CHILD_PROPERTIES := 0x50
  const FIELD_CLASS := 0x08
  const FIELD_NEXT := 0x20
  const FIELD_NAME := 0x28
  const ELEMENT_SIZE := 0x38
  const OFFSET_INTERNAL := 0x4C
  const INNER := 0x78
  const MAX_DEPTH: nat := 8
  const MAX_FIELDS: nat := 512
  const CALL_SLACK: nat := 0x40

  /** FName index to text. */
  type Names = nat -> bytes

  function Spelled(s: string): bytes {
    seq(|s|, i requires 0 <= i < |s| => s[i] as int % 0x100)
  }

  const TYPE_NAMES: seq<(string, PropertyType)> := [
    ("IntProperty", Int32), ("Int32Property", Int32), ("UInt32Property", UInt32),
    ("Int64Property", Int64), ("UInt64Property", UInt64),
    ("Int16Property", Int16), ("UInt16Property", UInt16),
    ("ByteProperty", Byte), ("Int8Property", Byte), ("EnumProperty", Enum),
    ("ObjectProperty", ObjectRef), ("ClassProperty", ObjectRef),
    ("WeakObjectProperty", ObjectRef), ("InterfaceProperty", ObjectRef),
    ("BoolProperty", Bool), ("FloatProperty", Float), ("DoubleProperty", Double),
    ("NameProperty", Name), ("StrProperty", Str),
    ("ArrayProperty", Array), ("StructProperty", Struct)]

  function TypeIn(table: seq<(string, PropertyType)>, name: bytes): PropertyType {
    if table == [] then Other
    else if name == Spelled(table[0].0) then table[0].1
    else TypeIn(table[1..], name)
  }

  function PropertyTypeOf(name: bytes): PropertyType { TypeIn(TYPE_NAMES, name) }

  predicate LooksLikePointer(v: nat) { v / 0x100_0000_0000 == 0x7F }

  function FieldType(m: Memory, names: Names, field: nat): PropertyType {
    var fieldClass := ReadWord(m, field + FIELD_CLASS, 8);
    PropertyTypeOf(if fieldClass == 0 then [] else names(ReadWord(m, fieldClass, 4)))
  }

  /** One reflected property: its spec and its ElementSize. */
  datatype Member = Member(spec: ParamSpec, elementSize: nat)

  function Specs(members: seq<Member>): (params: seq<ParamSpec>)
    ensures |params| == |members|
  {
    if members == [] then [] else [members[0].spec] + Specs(members[1..])
  }

  function Left(depth: nat): nat { if depth > MAX_DEPTH then 0 else MAX_DEPTH + 1 - depth }

  /** The properties of the struct at `structVa`; none past the depth bound. */
  function Members(m: Memory, names: Names, structVa: nat, depth: nat): seq<Member>
    decreases Left(depth), 2
  {
    if structVa == 0 || depth > MAX_DEPTH then []
    else Walk(m, names, ReadWord(m, structVa + CHILD_PROPERTIES, 8), 0, depth)
  }

  /** The chain from `field` on, cut at the field bound. */
  function Walk(m: Memory, names: Names, field: nat, seen: nat, depth: nat): (r: seq<Member>)
    requires depth <= MAX_DEPTH && seen <= MAX_FIELDS
    ensures |r| <= MAX_FIELDS - seen
    decreases Left(depth), 1, MAX_FIELDS - seen
  {
    if !LooksLikePointer(field) || seen == MAX_FIELDS then []
    else
      [ReadMember(m, names, field, depth)]
      + Walk(m, names, ReadWord(m, field + FIELD_NEXT, 8), seen + 1, depth)
  }

  function ReadMember(m: Memory, names: Names, field: nat, depth: nat): Member
    requires depth <= MAX_DEPTH
    decreases Left(depth), 0, 1
  {
    Member(ReadSpec(m, names, field, depth), ReadWord(m, field + ELEMENT_SIZE, 4))
  }

  function ReadSpec(m: Memory, names: Names, field: nat, depth: nat): ParamSpec
    requires depth <= MAX_DEPTH
    decreases Left(depth), 0, 0
  {
    hide FieldType, ReadWord, LooksLikePointer;
    var spec := ParamSpec(names(ReadWord(m, field + FIELD_NAME, 4)), FieldType(m, names, field),
                          ReadWord(m, field + OFFSET_INTERNAL, 4), Other, 0, []);
    var inner := ReadWord(m, field + INNER, 8);
    if !LooksLikePointer(inner) then spec
    else if spec.ty.Struct? then spec.(fields := Specs(Members(m, names, inner, depth + 1)))
    else if spec.ty.Array? then
      var innerType := FieldType(m, names, inner);
      var element := ReadWord(m, inner + INNER, 8);
      spec.(innerType := innerType,
            innerSize := ReadWord(m, inner + ELEMENT_SIZE, 4),
            fields := if innerType.Struct? && LooksLikePointer(element)
                      then Specs(Members(m, names, element, depth + 1)) else [])
    else spec
  }

  function End(member: Member): nat { member.spec.offset + member.elementSize }

  function FurthestEnd(members: seq<Member>): nat {
    if members == [] then 0 else Max(End(members[0]), FurthestEnd(members[1..]))
  }

  function RoundUp16(n: nat): nat { (n + 15) / 16 * 16 }

  datatype StructLayout = StructLayout(fields: seq<ParamSpec>, size: nat)

  function Layout(m: Memory, names: Names, structVa: nat, depth: nat): StructLayout {
    var members := Members(m, names, structVa, depth);
    StructLayout(Specs(members), RoundUp16(FurthestEnd(members)))
  }

  // ---------- The loop ----------

  method ReadStructLayout(m: Memory, names: Names, structVa: nat, depth: nat)
    returns (layout: StructLayout)
    ensures layout == Layout(m, names, structVa, depth)
    decreases Left(depth), 1
  {
    hide PropertyTypeOf, ReadWord, LooksLikePointer, FieldType, ReadSpec, Walk, Specs, FurthestEnd;
    if structVa == 0 || depth > MAX_DEPTH {
      NoMembers([]);
      return StructLayout([], 0);
    }
    var field: nat := ReadWord(m, structVa + CHILD_PROPERTIES, 8);
    var fields, size, seen := [], 0, 0;
    ghost var members := Walk(m, names, field, 0, depth);
    ghost var rest := members;
    while LooksLikePointer(field) && seen < MAX_FIELDS
      invariant seen <= MAX_FIELDS
      invariant rest == Walk(m, names, field, seen, depth)
      invariant Specs(members) == fields + Specs(rest)
      invariant 0 <= size && FurthestEnd(members) == Max(size, FurthestEnd(rest))
      decreases MAX_FIELDS - seen
    {
      WalkOn(m, names, field, seen, depth);
      var spec := BuildSpec(m, names, field, depth);
      var elementSize := ReadWord(m, field + ELEMENT_SIZE, 4);
      if spec.offset + elementSize > size {
        size := spec.offset + elementSize;
      }
      ConcatAssociates(fields, [spec], Specs(rest[1..]));
      fields := fields + [spec];
      field := ReadWord(m, field + FIELD_NEXT, 8);
      seen := seen + 1;
      rest := rest[1..];
    }
    WalkStops(m, names, field, seen, depth);
    NoMembers(rest);
    layout := StructLayout(fields, (size + 15) / 16 * 16);
  }

  lemma WalkOn(m: Memory, names: Names, field: nat, seen: nat, depth: nat)
    requires depth <= MAX_DEPTH && LooksLikePointer(field) && seen < MAX_FIELDS
    ensures var rest := Walk(m, names, field, seen, depth);
            && rest != []
            && rest[0] == Member(ReadSpec(m, names, field, depth), ReadWord(m, field + ELEMENT_SIZE, 4))
            && rest[1..] == Walk(m, names, ReadWord(m, field + FIELD_NEXT, 8), seen + 1, depth)
            && Specs(rest) == [rest[0].spec] + Specs(rest[1..])
            && FurthestEnd(rest) == Max(End(rest[0]), FurthestEnd(rest[1..]))
  {
    hide ReadWord, ReadSpec, LooksLikePointer;
  }

  lemma WalkStops(m: Memory, names: Names, field: nat, seen: nat, depth: nat)
    requires depth <= MAX_DEPTH && seen <= MAX_FIELDS
    requires !LooksLikePointer(field) || seen == MAX_FIELDS
    ensures Walk(m, names, field, seen, depth) == []
  {
  }

  lemma NoMembers(members: seq<Member>)
    requires members == []
    ensures Specs(members) == [] && FurthestEnd(members) == 0
  {
  }

  /** The body of that loop, up to the spec it pushes. */
  method BuildSpec(m: Memory, names: Names, field: nat, depth: nat) returns (spec: ParamSpec)
    requires depth <= MAX_DEPTH
    ensures spec == ReadSpec(m, names, field, depth)
    decreases Left(depth), 0
  {
    hide PropertyTypeOf, ReadWord, LooksLikePointer, FieldType, Members, Specs;
    var ty := FieldType(m, names, field);
    var name := names(ReadWord(m, field + FIELD_NAME, 4));
    var offset := ReadWord(m, field + OFFSET_INTERNAL, 4);
    spec := ParamSpec(name, ty, offset, Other, 0, []);
    var inner := ReadWord(m, field + INNER, 8);
    if ty.Struct? {
      if LooksLikePointer(inner) {
        var nested := ReadStructLayout(m, names, inner, depth + 1);
        spec := spec.(fields := nested.fields);
      }
    } else if ty.Array? {
      if LooksLikePointer(inner) {
        var innerType := FieldType(m, names, inner);
        var innerSize := ReadWord(m, inner + ELEMENT_SIZE, 4);
        spec := spec.(innerType := innerType, innerSize := innerSize);
        if innerType.Struct? {
          var element := ReadWord(m, inner + INNER, 8);
          if LooksLikePointer(element) {
            var nested := ReadStructLayout(m, names, element, depth + 1);
            spec := spec.(fields := nested.fields);
          }
        }
      }
    }
  }

  // ---------- The chain ----------

  /** The address of the i-th field of the chain that starts at `field`. */
  function Node(m: Memory, field: nat, i: nat): nat {
    if i == 0 then field else ReadWord(m, Node(m, field, i - 1) + FIELD_NEXT, 8)
  }

  lemma {:induction false} NodeShifts(m: Memory, field: nat, i: nat)
    ensures Node(m, ReadWord(m, field + FIELD_NEXT, 8), i) == Node(m, field, i + 1)
  {
    hide ReadWord;
    if i != 0 {
      NodeShifts(m, field, i - 1);
    } else {
      assert Node(m, field, 0) == field;
    }
  }

  /** The walk returns the fields of the chain in order, and stops at the first link that is no
      pointer or at the field bound, whichever comes first: a cyclic chain is cut at the bound. */
  lemma {:induction false} WalkFollowsChain(m: Memory, names: Names, field: nat, seen: nat, depth: nat)
    requires depth <= MAX_DEPTH && seen <= MAX_FIELDS
    ensures var r := Walk(m, names, field, seen, depth);
            && (forall i | 0 <= i < |r| ::
                  LooksLikePointer(Node(m, field, i)) && r[i] == ReadMember(m, names, Node(m, field, i), depth))
            && (seen + |r| == MAX_FIELDS || !LooksLikePointer(Node(m, field, |r|)))
    decreases MAX_FIELDS - seen
  {
    hide ReadWord, ReadMember, LooksLikePointer;
    if LooksLikePointer(field) && seen < MAX_FIELDS {
      var next := ReadWord(m, field + FIELD_NEXT, 8);
      WalkFollowsChain(m, names, next, seen + 1, depth);
      var r, rest := Walk(m, names, field, seen, depth), Walk(m, names, next, seen + 1, depth);
      NodeShifts(m, field, |rest|);
      forall i | 0 <= i < |r|
        ensures LooksLikePointer(Node(m, field, i)) && r[i] == ReadMember(m, names, Node(m, field, i), depth)
      {
        if i > 0 {
          NodeShifts(m, field, i - 1);
          assert r[i] == rest[i - 1];
        }
      }
    }
  }

  // ---------- Bounds ----------

  /** At most `levels` levels of structs, each of at most MAX_FIELDS fields. */
  predicate Bounded(params: seq<ParamSpec>, levels: nat)
    decreases params, 1
  {
    && |params| <= MAX_FIELDS
    && (params != [] ==> levels > 0)
    && forall i | 0 <= i < |params| :: BoundedField(params[i], levels)
  }

  predicate BoundedField(p: ParamSpec, levels: nat)
    decreases p, 0
  {
    levels > 0 && Bounded(p.fields, levels - 1)
  }

  /** Whatever the memory holds, cyclic chains included, the layout is bounded. */
  lemma {:induction false} LayoutBounded(m: Memory, names: Names, structVa: nat, depth: nat)
    ensures Bounded(Layout(m, names, structVa, depth).fields, Left(depth))
    decreases Left(depth), 1
  {
    if structVa != 0 && depth <= MAX_DEPTH {
      WalkBounded(m, names, ReadWord(m, structVa + CHILD_PROPERTIES, 8), 0, depth);
    }
  }

  lemma {:induction false} WalkBounded(m: Memory, names: Names, field: nat, seen: nat, depth: nat)
    requires depth <= MAX_DEPTH && seen <= MAX_FIELDS
    ensures forall p | p in Specs(Walk(m, names, field, seen, depth)) :: BoundedField(p, Left(depth))
    decreases Left(depth), 0, MAX_FIELDS - seen + 1
  {
    hide PropertyTypeOf, ReadWord, LooksLikePointer, FieldType, ReadSpec;
    if LooksLikePointer(field) && seen < MAX_FIELDS {
      WalkBounded(m, names, ReadWord(m, field + FIELD_NEXT, 8), seen + 1, depth);
      SpecBounded(m, names, field, depth);
    }
  }

  lemma {:induction false} SpecBounded(m: Memory, names: Names, field: nat, depth: nat)
    requires depth <= MAX_DEPTH
    ensures BoundedField(ReadSpec(m, names, field, depth), Left(depth))
    decreases Left(depth), 0, 0
  {
    hide PropertyTypeOf, ReadWord, LooksLikePointer, FieldType, Members, Specs;
    var inner := ReadWord(m, field + INNER, 8);
    LayoutBounded(m, names, inner, depth + 1);
    LayoutBounded(m, names, ReadWord(m, inner + INNER, 8), depth + 1);
  }

  lemma {:induction false} FurthestEndCovers(members: seq<Member>, i: nat)
    requires i < |members|
    ensures End(members[i]) <= FurthestEnd(members) && Specs(members)[i] == members[i].spec
  {
    if i > 0 {
      FurthestEndCovers(members[1..], i - 1);
    }
  }

  lemma RoundUpCovers(n: nat)
    ensures n <= RoundUp16(n) < n + 16 && RoundUp16(n) % 16 == 0
  {
  }

  /** The size is a multiple of 16 that covers every offset + ElementSize. */
  lemma SizeCovers(m: Memory, names: Names, structVa: nat, depth: nat)
    ensures var layout := Layout(m, names, structVa, depth);
            var members := Members(m, names, structVa, depth);
            && layout.size % 16 == 0
            && forall i | 0 <= i < |members| ::
                 layout.fields[i] == members[i].spec && End(members[i]) <= layout.size
  {
    hide Members, Specs, FurthestEnd, RoundUp16;
    var members := Members(m, names, structVa, depth);
    RoundUpCovers(FurthestEnd(members));
    forall i | 0 <= i < |members|
      ensures Specs(members)[i] == members[i].spec && End(members[i]) <= RoundUp16(FurthestEnd(members))
    {
      FurthestEndCovers(members, i);
    }
  }

  /** What reflection promises of a function: a property is written within its ElementSize,
      and array elements within their stride. */
  predicate Consistent(members: seq<Member>) {
    members == [] ||
    (&& Extent(members[0].spec, 0) <= members[0].elementSize
     && SizedField(members[0].spec, 0)
     && Consistent(members[1..]))
  }

  lemma {:induction false} ConsistentFits(members: seq<Member>)
    requires Consistent(members)
    ensures Span(Specs(members), 0) <= FurthestEnd(members) && Sized(Specs(members), 0)
  {
    if members != [] {
      ConsistentFits(members[1..]);
      assert Specs(members)[1..] == Specs(members[1..]);
    }
  }

  /** `execute_call`: the buffer is sized from the layout, so every write lands inside it or
      inside a pool (the encoder's preconditions are its bounds). */
  method EncodeCall(m: Memory, names: Names, function_: nat, codec: Codec, inputs: seq<ParamInput>)
    returns (out: Buffers)
    requires Consistent(Members(m, names, function_, 0))
    ensures out != [] && |out[0]| == Layout(m, names, function_, 0).size + 0x40
    ensures var layout := Layout(m, names, function_, 0);
            && Span(layout.fields, 0) <= layout.size && Sized(layout.fields, 0)
            && out == Encoded(codec, layout.size + CALL_SLACK, layout.fields, inputs)
  {
    hide Walk, ReadWord, Members, EncodeFields, Specs, Span, Sized, Consistent, FurthestEnd;
    var layout := ReadStructLayout(m, names, function_, 0);
    ConsistentFits(Members(m, names, function_, 0));
    out := EncodeParms(codec, layout.size + CALL_SLACK, layout.fields, inputs);
  }
}
