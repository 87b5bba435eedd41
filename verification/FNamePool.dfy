/**
 The engine's name pool: an index resolves to a name, and a name is looked up by walking the
 pool's blocks.
 */
module FNamePool {
  import opened Bytes
  import opened Utf16
  import opened Params

  const MAX_NAME: nat := 1024
  const BLOCK_BYTES: nat := 0x2_0000
  const MAX_BLOCKS: nat := 0x10_0000

  function ReadNumber(m: Memory, va: int, width: nat): Option<nat> {
    match TryRead(m, va, width)
    case None => None
    case Some(s) => Some(FromLittleEndian(s))
  }

  function Word16(s: bytes, off: nat): nat
    requires off + 2 <= |s|
  {
    s[off] as int + 256 * s[off + 1] as int
  }

  predicate Wide(header: nat) { header % 2 == 1 }

  function Length(header: nat): nat { header / 64 }

  function CharBytes(header: nat): nat { if Wide(header) then 2 * Length(header) else Length(header) }

  /** Latin-1 bytes as UTF-8. */
  function Latin1(s: bytes): bytes {
    if s == [] then []
    else (if s[0] < 0x80 then [s[0]] else [0xC0 + s[0] / 64, 0x80 + s[0] % 64]) + Latin1(s[1..])
  }

  function Resolve(m: Memory, blocks: nat, index: nat): bytes {
    if blocks == 0 || index == 0 then []
    else ResolveAt(m, blocks, index / 0x1_0000, index % 0x1_0000 * 2)
  }

  /** The name at byte `off` of a block. */
  function ResolveAt(m: Memory, blocks: nat, block: nat, off: nat): bytes {
    match ReadNumber(m, blocks + block * 8, 8)
    case None => []
    case Some(start) => if start == 0 then [] else ResolveEntry(m, start + off)
  }

  function ResolveEntry(m: Memory, entry: nat): bytes {
    match TryRead(m, entry, 2)
    case None => []
    case Some(header) =>
      var h := Word16(header, 0);
      if Length(h) == 0 || Length(h) > MAX_NAME then []
      else
        match TryRead(m, entry + 2, CharBytes(h))
        case None => []
        case Some(chars) => if Wide(h) then Utf16ToUtf8(UnitsFrom(chars)) else Latin1(chars)
  }

  /** The offset of the first narrow entry with these bytes, walking from `off`. */
  function FindIn(data: bytes, name: bytes, off: nat): (r: Option<nat>)
    ensures r.Some? ==> off <= r.value && r.value + 2 + |name| <= |data|
    decreases |data| - off
  {
    if off + 2 > |data| then None
    else
      var header := Word16(data, off);
      if Length(header) == 0 || off + 2 + CharBytes(header) > |data| then None
      else if !Wide(header) && Length(header) == |name| && data[off + 2..off + 2 + |name|] == name then Some(off)
      else FindIn(data, name, Align(off + 2 + CharBytes(header)))
  }

  function Align(off: nat): nat { (off + 1) / 2 * 2 }

  function Used(block: nat, current: nat, cursor: nat): nat { if block == current then cursor else BLOCK_BYTES }

  /** The bytes of a block the walk sees; None for a block it skips. */
  function BlockData(m: Memory, blocks: nat, block: nat, used: nat): (r: Option<bytes>)
    ensures r.Some? ==> |r.value| == used
  {
    match ReadNumber(m, blocks + block * 8, 8)
    case None => None
    case Some(p) => if p == 0 || used < 2 then None else TryRead(m, p, used)
  }

  /** `(block << 16) | (off >> 1)` in 32 bits. */
  function Index(block: nat, off: nat): nat { (block * 0x1_0000 + off / 2) % TWO_TO_THE_32 }

  /** The block and offset at which the walk finds the name, from `block` on. */
  function Locate(m: Memory, blocks: nat, name: bytes, block: nat, current: nat, cursor: nat): Option<(nat, nat)>
    requires block <= current + 1
    decreases current + 1 - block
  {
    if block > current then None
    else
      var data := BlockData(m, blocks, block, Used(block, current, cursor));
      var found := if data.Some? then FindIn(data.value, name, 0) else None;
      if found.Some? then Some((block, found.value))
      else Locate(m, blocks, name, block + 1, current, cursor)
  }

  /** Where lookup finds the name, if it does. */
  function Place(m: Memory, blocks: nat, name: bytes): Option<(nat, nat)> {
    if blocks == 0 || name == [] || |name| > MAX_NAME then None
    else
      var current := ReadNumber(m, blocks - 8, 4);
      var cursor := ReadNumber(m, blocks - 4, 4);
      if current.None? || cursor.None? || current.value > MAX_BLOCKS || cursor.value > BLOCK_BYTES then None
      else Locate(m, blocks, name, 0, current.value, cursor.value)
  }

  function Lookup(m: Memory, blocks: nat, name: bytes): nat {
    match Place(m, blocks, name)
    case None => 0
    case Some((block, off)) => Index(block, off)
  }

  // ---------- The loops ----------

  method WalkBlock(data: bytes, name: bytes) returns (r: Option<nat>)
    ensures r == FindIn(data, name, 0)
  {
    hide Word16, Wide;
    var off := 0;
    while off + 2 <= |data|
      invariant 0 <= off && FindIn(data, name, 0) == FindIn(data, name, off)
      decreases |data| - off
    {
      var header := Word16(data, off);
      if header == 0 {
        return None;
      }
      var len := header / 64;
      if len == 0 {
        return None;
      }
      var size := if Wide(header) then len * 2 else len;
      if off + 2 + size > |data| {
        return None;
      }
      if !Wide(header) && len == |name| && data[off + 2..off + 2 + len] == name {
        return Some(off);
      }
      off := Align(off + 2 + size);
    }
    return None;
  }

  method LookupName(m: Memory, blocks: nat, name: bytes) returns (index: nat)
    ensures index == Lookup(m, blocks, name)
  {
    hide FindIn, BlockData, ReadNumber;
    if blocks == 0 || name == [] || |name| > MAX_NAME {
      return 0;
    }
    var current := ReadNumber(m, blocks - 8, 4);
    var cursor := ReadNumber(m, blocks - 4, 4);
    if current.None? || cursor.None? || current.value > MAX_BLOCKS || cursor.value > BLOCK_BYTES {
      return 0;
    }
    var block := 0;
    while block <= current.value
      invariant 0 <= block <= current.value + 1
      invariant Place(m, blocks, name) == Locate(m, blocks, name, block, current.value, cursor.value)
    {
      var data := BlockData(m, blocks, block, Used(block, current.value, cursor.value));
      if data.Some? {
        var found := WalkBlock(data.value, name);
        if found.Some? {
          return Index(block, found.value);
        }
      }
      block := block + 1;
    }
    return 0;
  }

  method Latin1ToUtf8(latin: bytes) returns (utf8: bytes)
    ensures utf8 == Latin1(latin)
  {
    utf8 := [];
    var i := 0;
    assert latin[0..] == latin;
    while i < |latin|
      invariant i <= |latin| && Latin1(latin) == utf8 + Latin1(latin[i..])
    {
      var c := latin[i];
      assert latin[i..][1..] == latin[i + 1..];
      if c < 0x80 {
        utf8 := utf8 + [c];
      } else {
        utf8 := utf8 + [0xC0 + c / 64, 0x80 + c % 64];
      }
      i := i + 1;
    }
  }

  // ---------- A looked-up name resolves back ----------

  /** The snapshot has user addresses only. */
  ghost predicate UserMemory(m: Memory) { forall a | a in m :: 0 < a < CANONICAL_LIMIT }

  lemma {:induction false} FoundIs(data: bytes, name: bytes, off: nat)
    requires off % 2 == 0 && name != []
    ensures var r := FindIn(data, name, off);
            r.Some? ==>
              && r.value % 2 == 0
              && Length(Word16(data, r.value)) == |name| && !Wide(Word16(data, r.value))
              && data[r.value + 2..r.value + 2 + |name|] == name
    decreases |data| - off
  {
    hide Word16, Length, Wide;
    if off + 2 <= |data| {
      var header := Word16(data, off);
      if Length(header) != 0 && off + 2 + CharBytes(header) <= |data| {
        FoundIs(data, name, Align(off + 2 + CharBytes(header)));
      }
    }
  }

  lemma ReadWithin(m: Memory, va: int, data: bytes, off: nat, len: nat)
    requires UserMemory(m) && TryRead(m, va, |data|) == Some(data) && off + len <= |data| && len > 0
    ensures TryRead(m, va + off, len) == Some(data[off..off + len])
  {
    assert va + off in m;
    assert Slice(m, va + off, len) == Slice(m, va, |data|)[off..off + len];
  }

  lemma EntryResolves(m: Memory, va: nat, data: bytes, off: nat, name: bytes)
    requires UserMemory(m) && TryRead(m, va, |data|) == Some(data)
    requires 0 < |name| <= MAX_NAME && off + 2 + |name| <= |data|
    requires Length(Word16(data, off)) == |name| && !Wide(Word16(data, off))
    requires data[off + 2..off + 2 + |name|] == name
    ensures ResolveEntry(m, va + off) == Latin1(name)
  {
    hide TryRead, Latin1, Utf16ToUtf8;
    ReadWithin(m, va, data, off, 2);
    ReadWithin(m, va, data, off + 2, |name|);
    assert Word16(data[off..off + 2], 0) == Word16(data, off);
  }

  /** The index has 16 bits for the block. */
  lemma IndexSplits(block: nat, off: nat)
    requires off < BLOCK_BYTES && off % 2 == 0
    ensures Index(block, off) / 0x1_0000 == block % 0x1_0000 && Index(block, off) % 0x1_0000 * 2 == off
  {
    var low := block % 0x1_0000 * 0x1_0000 + off / 2;
    assert block * 0x1_0000 + off / 2 == low + block / 0x1_0000 * TWO_TO_THE_32;
    Wraps(low, block / 0x1_0000);
  }

  lemma Wraps(low: nat, k: nat)
    requires low < TWO_TO_THE_32
    ensures (low + k * TWO_TO_THE_32) % TWO_TO_THE_32 == low
  {
  }

  /** A located name is within the blocks walked, and its own block resolves it at that offset. */
  lemma {:induction false} LocatedResolves(m: Memory, blocks: nat, name: bytes, block: nat, current: nat, cursor: nat)
    requires UserMemory(m) && 0 < |name| <= MAX_NAME && block <= current + 1 && cursor <= BLOCK_BYTES
    ensures var place := Locate(m, blocks, name, block, current, cursor);
            place.Some? ==>
              var (b, off) := place.value;
              b <= current && off < BLOCK_BYTES && off % 2 == 0 && ResolveAt(m, blocks, b, off) == Latin1(name)
    decreases current + 1 - block
  {
    hide FindIn, TryRead, ResolveEntry, Word16;
    if block <= current {
      var data := BlockData(m, blocks, block, Used(block, current, cursor));
      if data.Some? && FindIn(data.value, name, 0).Some? {
        var off := FindIn(data.value, name, 0).value;
        FoundIs(data.value, name, 0);
        EntryResolves(m, ReadNumber(m, blocks + block * 8, 8).value, data.value, off, name);
      } else {
        LocatedResolves(m, blocks, name, block + 1, current, cursor);
      }
    }
  }

  /** Whatever the pool holds: a non-zero index resolves to the looked-up name as UTF-8 exactly when
      the name was found in a block the index has bits for, or the block that the index names
      instead happens to have that name at the same offset. */
  lemma LookupResolvesExactly(m: Memory, blocks: nat, name: bytes)
    requires UserMemory(m) && Lookup(m, blocks, name) != 0
    ensures var (b, off) := Place(m, blocks, name).value;
            Resolve(m, blocks, Lookup(m, blocks, name)) == Latin1(name) <==>
            b <= 0xFFFF || ResolveAt(m, blocks, b % 0x1_0000, off) == Latin1(name)
  {
    hide Locate, ResolveAt, Latin1, Index;
    var (b, off) := Place(m, blocks, name).value;
    LocatedResolves(m, blocks, name, 0, ReadNumber(m, blocks - 8, 4).value, ReadNumber(m, blocks - 4, 4).value);
    IndexSplits(b, off);
  }

  ghost predicate SmallPool(m: Memory, blocks: nat) {
    var current := ReadNumber(m, blocks - 8, 4);
    current.Some? ==> current.value <= 0xFFFF
  }

  lemma LookupResolves(m: Memory, blocks: nat, name: bytes)
    requires UserMemory(m) && SmallPool(m, blocks) && Lookup(m, blocks, name) != 0
    ensures Resolve(m, blocks, Lookup(m, blocks, name)) == Latin1(name)
  {
    hide Locate, Resolve, Latin1, Index;
    LocatedResolves(m, blocks, name, 0, ReadNumber(m, blocks - 8, 4).value, ReadNumber(m, blocks - 4, 4).value);
    LookupResolvesExactly(m, blocks, name);
  }

  /** Lookup gives 0 exactly when the name is not found, or is at offset 0 of block 0 or of a block
      that shares its index. */
  lemma LookupZeroExactly(m: Memory, blocks: nat, name: bytes)
    requires UserMemory(m)
    ensures var place := Place(m, blocks, name);
            Lookup(m, blocks, name) == 0 <==> place.None? || (place.value.0 % 0x1_0000 == 0 == place.value.1)
  {
    hide Locate, Index;
    var place := Place(m, blocks, name);
    if place.Some? {
      LocatedResolves(m, blocks, name, 0, ReadNumber(m, blocks - 8, 4).value, ReadNumber(m, blocks - 4, 4).value);
      IndexSplits(place.value.0, place.value.1);
    }
  }

  // ---------- A name in block 0x10000 ----------

  const POOL: nat := 0x1000
  const BLOCK: nat := 0x20_0000
  /** Entries "x" and "a", two bytes of header and one of padding each. */
  const TWO_NAMES: bytes := [0x40, 0, 0x78, 0, 0x40, 0, 0x61, 0]

  /** A pool of 0x10001 blocks: a mapped table of null pointers, and one block at its end. */
  function HighPool(): Memory {
    At(POOL - 8, LittleEndian(0x1_0000, 4) + LittleEndian(8, 4))
    + At(POOL, Zeros(0x8_0000))
    + At(POOL + 0x8_0000, LittleEndian(BLOCK, 8))
    + At(BLOCK, TWO_NAMES)
  }

  lemma {:induction false} SkipsNull(m: Memory, blocks: nat, name: bytes, block: nat, b: nat,
                                         current: nat, cursor: nat)
    requires block <= b <= current
    requires forall k | block <= k < b :: BlockData(m, blocks, k, Used(k, current, cursor)).None?
    ensures Locate(m, blocks, name, block, current, cursor) == Locate(m, blocks, name, b, current, cursor)
    decreases b - block
  {
    hide BlockData;
    if block < b {
      SkipsNull(m, blocks, name, block + 1, b, current, cursor);
    }
  }

  lemma ReadsPlaced(m: Memory, a: int, s: bytes)
    requires 0 < a < CANONICAL_LIMIT && s != []
    requires forall i | a <= i < a + |s| :: i in m && m[i] == s[i - a]
    ensures TryRead(m, a, |s|) == Some(s)
  {
    assert Slice(m, a, |s|) == s;
  }

  lemma HighPoolHeader()
    ensures ReadNumber(HighPool(), POOL - 8, 4) == Some(0x1_0000)
    ensures ReadNumber(HighPool(), POOL - 4, 4) == Some(8)
  {
    hide LittleEndian, FromLittleEndian, Pow256, TryRead;
    WordSizes();
    LittleEndianRoundTrip(0x1_0000, 4);
    LittleEndianRoundTrip(8, 4);
    ReadsPlaced(HighPool(), POOL - 8, LittleEndian(0x1_0000, 4));
    ReadsPlaced(HighPool(), POOL - 4, LittleEndian(8, 4));
  }

  lemma HighPoolBlock()
    ensures BlockData(HighPool(), POOL, 0x1_0000, 8) == Some(TWO_NAMES)
  {
    hide LittleEndian, FromLittleEndian, Pow256, TryRead;
    WordSizes();
    LittleEndianRoundTrip(BLOCK, 8);
    ReadsPlaced(HighPool(), POOL + 0x8_0000, LittleEndian(BLOCK, 8));
    ReadsPlaced(HighPool(), BLOCK, TWO_NAMES);
  }

  lemma HighPoolGap(k: nat)
    requires k < 0x1_0000
    ensures ReadNumber(HighPool(), POOL + k * 8, 8) == Some(0)
  {
    hide LittleEndian, FromLittleEndian, TryRead;
    ReadsPlaced(HighPool(), POOL + k * 8, Zeros(8));
    FromZeros(8);
  }

  lemma HighPoolIsUser()
    ensures UserMemory(HighPool())
  {
    hide LittleEndian;
  }

  lemma WalkHighBlock()
    ensures FindIn(TWO_NAMES, [0x61], 0) == Some(4)
  {
    hide FindIn;
    WalkOnce(TWO_NAMES, [0x61], 0, 64);
    WalkOnce(TWO_NAMES, [0x61], 4, 64);
    assert TWO_NAMES[2..3] == [0x78] && TWO_NAMES[6..7] == [0x61];
  }

  lemma LocatesHere(m: Memory, blocks: nat, name: bytes, block: nat, cursor: nat, data: bytes, off: nat)
    requires BlockData(m, blocks, block, cursor) == Some(data) && FindIn(data, name, 0) == Some(off)
    ensures Locate(m, blocks, name, block, block, cursor) == Some((block, off))
  {
  }

  lemma HighPlace()
    ensures Place(HighPool(), POOL, [0x61]) == Some((0x1_0000, 4))
  {
    hide HighPool, FindIn, BlockData, ReadNumber, Locate;
    var m, name := HighPool(), [0x61];
    HighPoolHeader();
    forall k | 0 <= k < 0x1_0000
      ensures BlockData(m, POOL, k, Used(k, 0x1_0000, 8)).None?
    {
      HighPoolGap(k);
      NullBlock(m, POOL, k, Used(k, 0x1_0000, 8));
    }
    SkipsNull(m, POOL, name, 0, 0x1_0000, 0x1_0000, 8);
    HighPoolBlock();
    WalkHighBlock();
    LocatesHere(m, POOL, name, 0x1_0000, 8, TWO_NAMES, 4);
  }

  lemma NullBlock(m: Memory, blocks: nat, block: nat, used: nat)
    requires ReadNumber(m, blocks + block * 8, 8) == Some(0)
    ensures BlockData(m, blocks, block, used).None? && forall off: nat :: ResolveAt(m, blocks, block, off) == []
  {
  }

  /** The name "a" is found in block 0x10000, its index is not 0, and the index resolves to nothing. */
  lemma HighBlockLost()
    ensures UserMemory(HighPool()) && Place(HighPool(), POOL, [0x61]) == Some((0x1_0000, 4))
    ensures Lookup(HighPool(), POOL, [0x61]) == 2
    ensures Resolve(HighPool(), POOL, 2) == [] != Latin1([0x61])
  {
    hide HighPool, Place, UserMemory, ReadNumber, ResolveAt;
    HighPoolIsUser();
    HighPlace();
    HighPoolGap(0);
    NullBlock(HighPool(), POOL, 0, 0);
    assert Resolve(HighPool(), POOL, 2) == ResolveAt(HighPool(), POOL, 0, 4);
  }

  predicate Ascii(s: bytes) { forall i | 0 <= i < |s| :: s[i] < 0x80 }

  lemma {:induction false} Latin1OfAscii(s: bytes)
    ensures |Latin1(s)| >= |s|
    ensures Latin1(s) == s <==> Ascii(s)
  {
    if s != [] {
      Latin1OfAscii(s[1..]);
      assert s == [s[0]] + s[1..];
      if s[0] < 0x80 {
        assert Latin1(s)[1..] == Latin1(s[1..]);
      } else {
        assert |Latin1(s)| > |s|;
      }
    }
  }

  /** An FName argument written through `lookup` reads back through `resolve` as supplied exactly
      when it is empty, or has a non-zero index and either was found in a block the index has bits
      for and is ASCII, or is what the block that the index names instead has at that offset. */
  lemma NameArgumentSurvives(m: Memory, blocks: nat, codec: Codec, reader: Reader, input: ParamInput)
    requires UserMemory(m)
    requires codec.nameIndex(input.text) == Lookup(m, blocks, input.text)
    requires reader.resolve.Some? && forall i: nat :: reader.resolve.value(i) == Resolve(m, blocks, i)
    ensures ExpectedScalar(codec, reader, Name, Some(input)) == Some(Text(input.text)) <==>
            || input.text == []
            || (&& Lookup(m, blocks, input.text) != 0
                && var (b, off) := Place(m, blocks, input.text).value;
                   if b <= 0xFFFF then Ascii(input.text)
                   else ResolveAt(m, blocks, b % 0x1_0000, off) == input.text)
  {
    hide Resolve, Place, Index, ResolveAt, Latin1;
    var index := Lookup(m, blocks, input.text);
    LookupFits(m, blocks, input.text);
    Latin1OfAscii(input.text);
    if index != 0 {
      LookupResolvesExactly(m, blocks, input.text);
      ResolvesAtPlace(m, blocks, input.text);
    } else {
      ResolveZero(m, blocks);
    }
  }

  lemma ResolvesAtPlace(m: Memory, blocks: nat, name: bytes)
    requires UserMemory(m) && Lookup(m, blocks, name) != 0
    ensures var (b, off) := Place(m, blocks, name).value;
            Resolve(m, blocks, Lookup(m, blocks, name)) == ResolveAt(m, blocks, b % 0x1_0000, off)
  {
    hide Locate, ResolveAt, Index;
    var (b, off) := Place(m, blocks, name).value;
    LocatedResolves(m, blocks, name, 0, ReadNumber(m, blocks - 8, 4).value, ReadNumber(m, blocks - 4, 4).value);
    IndexSplits(b, off);
  }

  lemma ResolveZero(m: Memory, blocks: nat)
    ensures Resolve(m, blocks, 0) == []
  {
  }

  lemma LookupFits(m: Memory, blocks: nat, name: bytes)
    ensures Lookup(m, blocks, name) < TWO_TO_THE_32
    ensures name == [] ==> Lookup(m, blocks, name) == 0
  {
  }

  // ---------- Lookup against a laid-out pool ----------

  /** A pool entry: its characters, and the probe bits the header carries beside the length. */
  datatype Entry = Entry(wide: bool, probe: nat, chars: bytes, pad: byte)

  ghost predicate Proper(e: Entry) {
    && e.probe < 32 && e.chars != [] && (e.wide ==> |e.chars| % 2 == 0)
    && (if e.wide then |e.chars| / 2 else |e.chars|) < 1024
  }

  function HeaderOf(e: Entry): nat {
    (if e.wide then |e.chars| / 2 else |e.chars|) * 64 + e.probe * 2 + if e.wide then 1 else 0
  }

  /** Header, characters, and a byte to the next even offset. */
  function EntryBytes(e: Entry): bytes
    requires Proper(e)
  {
    [HeaderOf(e) % 256, HeaderOf(e) / 256] + e.chars + if |e.chars| % 2 == 1 then [e.pad] else []
  }

  function BlockBytes(entries: seq<Entry>): bytes
    requires forall i | 0 <= i < |entries| :: Proper(entries[i])
  {
    if entries == [] then [] else EntryBytes(entries[0]) + BlockBytes(entries[1..])
  }

  /** The entries, then the end of the block or a zero header. */
  ghost predicate LaidOut(data: bytes, entries: seq<Entry>, tail: bytes) {
    && (forall i | 0 <= i < |entries| :: Proper(entries[i]))
    && data == BlockBytes(entries) + tail
    && (|tail| < 2 || tail[0] == 0 == tail[1])
  }

  predicate Matches(e: Entry, name: bytes) { !e.wide && e.chars == name }

  /** The offset of the first matching entry. */
  function FirstOffset(entries: seq<Entry>, name: bytes): Option<nat>
    requires forall i | 0 <= i < |entries| :: Proper(entries[i])
  {
    if entries == [] then None
    else if Matches(entries[0], name) then Some(0)
    else
      match FirstOffset(entries[1..], name)
      case None => None
      case Some(off) => Some(|EntryBytes(entries[0])| + off)
  }

  lemma HeaderReads(e: Entry)
    requires Proper(e)
    ensures var h := HeaderOf(e);
            && h < 0x1_0000 && Wide(h) == e.wide && CharBytes(h) == |e.chars| && Length(h) != 0
  {
  }

  /** One turn of the walk steps over exactly one entry. */
  lemma WalkEntry(data: bytes, name: bytes, off: nat, e: Entry)
    requires Proper(e) && off % 2 == 0 && off + |EntryBytes(e)| <= |data|
    requires data[off..off + |EntryBytes(e)|] == EntryBytes(e)
    ensures FindIn(data, name, off)
         == if Matches(e, name) then Some(off) else FindIn(data, name, off + |EntryBytes(e)|)
  {
    hide FindIn, HeaderOf, Word16, Length, CharBytes, Wide, Proper, Align;
    HeaderReads(e);
    HeaderAt(data, off, e);
    CharsAt(data, off, e);
    WalkOnce(data, name, off, HeaderOf(e));
  }

  lemma HeaderAt(data: bytes, off: nat, e: Entry)
    requires Proper(e) && off % 2 == 0 && off + |EntryBytes(e)| <= |data|
    requires data[off..off + |EntryBytes(e)|] == EntryBytes(e)
    ensures |EntryBytes(e)| >= 2 + |e.chars| && Word16(data, off) == HeaderOf(e)
    ensures Align(off + 2 + |e.chars|) == off + |EntryBytes(e)|
  {
    var s := EntryBytes(e);
    assert data[off] == data[off..off + |s|][0] && data[off + 1] == data[off..off + |s|][1];
  }

  lemma SliceOfSlice(data: bytes, off: nat, len: nat, i: nat, n: nat)
    requires off + len <= |data| && i + n <= len
    ensures data[off..off + len][i..i + n] == data[off + i..off + i + n]
  {
    var inner, outer := data[off..off + len][i..i + n], data[off + i..off + i + n];
    forall k | 0 <= k < n
      ensures inner[k] == outer[k]
    {
      assert inner[k] == data[off..off + len][i + k] == data[off + (i + k)] && outer[k] == data[off + i + k];
    }
  }

  lemma Middle(a: bytes, b: bytes, c: bytes)
    ensures (a + b + c)[|a|..|a| + |b|] == b
  {
  }

  lemma CharsAt(data: bytes, off: nat, e: Entry)
    requires Proper(e) && off + |EntryBytes(e)| <= |data|
    requires data[off..off + |EntryBytes(e)|] == EntryBytes(e)
    ensures data[off + 2..off + 2 + |e.chars|] == e.chars
  {
    var s, n := EntryBytes(e), |e.chars|;
    var head, pad := [HeaderOf(e) % 256, HeaderOf(e) / 256], if n % 2 == 1 then [e.pad] else [];
    assert s == head + e.chars + pad;
    Middle(head, e.chars, pad);
    SliceOfSlice(data, off, |s|, 2, n);
  }

  lemma WalkOnce(data: bytes, name: bytes, off: nat, header: nat)
    requires off + 2 <= |data| && Word16(data, off) == header
    requires Length(header) != 0 && off + 2 + CharBytes(header) <= |data|
    ensures FindIn(data, name, off)
         == if !Wide(header) && data[off + 2..off + 2 + CharBytes(header)] == name then Some(off)
            else FindIn(data, name, Align(off + 2 + CharBytes(header)))
  {
  }

  lemma {:induction false} WalkFinds(data: bytes, name: bytes, off: nat, entries: seq<Entry>, tail: bytes)
    requires off % 2 == 0 && off <= |data| && LaidOut(data[off..], entries, tail)
    ensures var r := FirstOffset(entries, name);
            FindIn(data, name, off) == if r.Some? then Some(off + r.value) else None
    decreases |entries|
  {
    hide FindIn, Matches, EntryBytes;
    if entries == [] {
      assert data[off..] == tail;
      WalkEnds(data, name, off);
    } else {
      var e, rest := entries[0], entries[1..];
      var n := |EntryBytes(e)|;
      assert data[off..] == EntryBytes(e) + (BlockBytes(rest) + tail);
      assert data[off..off + n] == EntryBytes(e);
      WalkEntry(data, name, off, e);
      assert data[off + n..] == data[off..][n..] == BlockBytes(rest) + tail;
      EvenBytes(e);
      WalkFinds(data, name, off + n, rest, tail);
    }
  }

  lemma EvenBytes(e: Entry)
    requires Proper(e)
    ensures |EntryBytes(e)| % 2 == 0
  {
  }

  lemma WalkEnds(data: bytes, name: bytes, off: nat)
    requires off <= |data| && (|data[off..]| < 2 || data[off..][0] == 0 == data[off..][1])
    ensures FindIn(data, name, off) == None
  {
  }

  /** The pool in memory: block `b` is where its pointer says and holds `pool[b]`. */
  ghost predicate Holds(m: Memory, blocks: nat, pool: seq<seq<Entry>>, tails: seq<bytes>, cursor: nat) {
    && 0 < |pool| == |tails|
    && ReadNumber(m, blocks - 8, 4) == Some(|pool| - 1) && |pool| - 1 <= 0x10_0000
    && ReadNumber(m, blocks - 4, 4) == Some(cursor) && cursor <= 0x2_0000
    && forall b | 0 <= b < |pool| ::
         BlockHolds(m, blocks, b, if b == |pool| - 1 then cursor else 0x2_0000, pool[b], tails[b])
  }

  ghost predicate BlockHolds(m: Memory, blocks: nat, b: nat, used: nat, entries: seq<Entry>, tail: bytes) {
    if used < 2 then entries == []
    else var data := BlockData(m, blocks, b, used); data.Some? && LaidOut(data.value, entries, tail)
  }

  /** The block and offset of the first matching entry, block by block. */
  function FirstPlace(pool: seq<seq<Entry>>, name: bytes, b: nat): Option<(nat, nat)>
    requires b <= |pool|
    requires forall i, j | 0 <= i < |pool| && 0 <= j < |pool[i]| :: Proper(pool[i][j])
    decreases |pool| - b
  {
    if b == |pool| then None
    else
      match FirstOffset(pool[b], name)
      case Some(off) => Some((b, off))
      case None => FirstPlace(pool, name, b + 1)
  }

  lemma {:induction false} LocatesFirst(m: Memory, blocks: nat, pool: seq<seq<Entry>>, tails: seq<bytes>,
                                        cursor: nat, name: bytes, b: nat)
    requires Holds(m, blocks, pool, tails, cursor) && b <= |pool|
    requires forall i, j | 0 <= i < |pool| && 0 <= j < |pool[i]| :: Proper(pool[i][j])
    ensures Locate(m, blocks, name, b, |pool| - 1, cursor) == FirstPlace(pool, name, b)
    decreases |pool| - b
  {
    hide FindIn, FirstOffset, BlockData, ReadNumber, LaidOut;
    if b < |pool| {
      var used := Used(b, |pool| - 1, cursor);
      assert BlockHolds(m, blocks, b, used, pool[b], tails[b]);
      var data := BlockData(m, blocks, b, used);
      if used < 2 {
        NoBlock(m, blocks, b, used, name);
      } else {
        assert data.value[0..] == data.value;
        WalkFinds(data.value, name, 0, pool[b], tails[b]);
      }
      LocatesFirst(m, blocks, pool, tails, cursor, name, b + 1);
    }
  }

  lemma NoBlock(m: Memory, blocks: nat, b: nat, used: nat, name: bytes)
    requires used < 2
    ensures BlockData(m, blocks, b, used) == None && FirstOffset([], name) == None
  {
  }

  /** In a laid-out pool, lookup finds the first narrow entry with those bytes and returns its index;
      it returns 0 when there is none. */
  lemma LookupIsFirst(m: Memory, blocks: nat, pool: seq<seq<Entry>>, tails: seq<bytes>, cursor: nat, name: bytes)
    requires Holds(m, blocks, pool, tails, cursor) && blocks != 0 && 0 < |name| <= 1024
    requires forall i, j | 0 <= i < |pool| && 0 <= j < |pool[i]| :: Proper(pool[i][j])
    ensures Place(m, blocks, name) == FirstPlace(pool, name, 0)
    ensures FirstPlace(pool, name, 0).None? ==> Lookup(m, blocks, name) == 0
    ensures var first := FirstPlace(pool, name, 0);
            first.Some? ==> Lookup(m, blocks, name) == Index(first.value.0, first.value.1)
  {
    hide Locate, FirstPlace, BlockHolds;
    LocatesFirst(m, blocks, pool, tails, cursor, name, 0);
  }

  // ---------- Resolving against a laid-out pool ----------

  /** The UTF-8 of code points, one after another. */
  function CodePoints(cps: seq<byte>): bytes {
    if cps == [] then [] else AppendUtf8(cps[0]) + CodePoints(cps[1..])
  }

  lemma {:induction false} Latin1IsCodePoints(s: bytes)
    ensures Latin1(s) == CodePoints(s)
  {
    if s != [] {
      Latin1IsCodePoints(s[1..]);
    }
  }

  /** The characters of an entry are these UTF-16 units, the low byte of each first. */
  predicate HasUnits(e: Entry, units: seq<unit>) {
    && e.wide && |e.chars| == 2 * |units|
    && forall i | 0 <= i < |units| :: e.chars[2 * i] == units[i] % 256 && e.chars[2 * i + 1] == units[i] / 256
  }

  lemma HasUnitsIs(e: Entry, units: seq<unit>)
    requires HasUnits(e, units)
    ensures UnitsFrom(e.chars) == units
  {
    forall i | 0 <= i < |units|
      ensures UnitsFrom(e.chars)[i] == units[i]
    {
      assert e.chars[2 * i] == units[i] % 256 && e.chars[2 * i + 1] == units[i] / 256;
    }
  }

  /** The byte offset of the i-th entry of a block. */
  function OffsetOf(entries: seq<Entry>, i: nat): nat
    requires i <= |entries| && forall j | 0 <= j < |entries| :: Proper(entries[j])
  {
    if i == 0 then 0 else |EntryBytes(entries[0])| + OffsetOf(entries[1..], i - 1)
  }

  lemma SliceBehind(head: bytes, rest: bytes, off: nat, n: nat)
    requires off + n <= |rest|
    ensures (head + rest)[|head| + off..|head| + off + n] == rest[off..off + n]
  {
  }

  lemma {:induction false} EntryAtOffset(entries: seq<Entry>, i: nat, tail: bytes)
    requires i < |entries| && forall j | 0 <= j < |entries| :: Proper(entries[j])
    ensures var data, off := BlockBytes(entries) + tail, OffsetOf(entries, i);
            && off % 2 == 0 && off + |EntryBytes(entries[i])| <= |data|
            && data[off..off + |EntryBytes(entries[i])|] == EntryBytes(entries[i])
    decreases i
  {
    hide EntryBytes;
    var head, rest := EntryBytes(entries[0]), BlockBytes(entries[1..]) + tail;
    var data := BlockBytes(entries) + tail;
    assert data == head + rest;
    if i == 0 {
      assert data[0..|head|] == head;
    } else {
      EvenBytes(entries[0]);
      EntryAtOffset(entries[1..], i - 1, tail);
      SliceBehind(head, rest, OffsetOf(entries[1..], i - 1), |EntryBytes(entries[i])|);
    }
  }

  lemma EntryIsResolved(m: Memory, va: nat, data: bytes, off: nat, e: Entry)
    requires UserMemory(m) && TryRead(m, va, |data|) == Some(data) && Proper(e)
    requires off % 2 == 0 && off + |EntryBytes(e)| <= |data| && data[off..off + |EntryBytes(e)|] == EntryBytes(e)
    ensures ResolveEntry(m, va + off) == if e.wide then Utf16ToUtf8(UnitsFrom(e.chars)) else Latin1(e.chars)
  {
    hide TryRead, Latin1, Utf16ToUtf8, EntryBytes, HeaderOf, Word16, Length, CharBytes, Wide, Align, Proper;
    HeaderReads(e);
    HeaderAt(data, off, e);
    CharsAt(data, off, e);
    ShortName(e);
    ReadWithin(m, va, data, off, 2);
    ReadWithin(m, va, data, off + 2, |e.chars|);
    HeaderWithin(data, off);
  }

  lemma HeaderWithin(data: bytes, off: nat)
    requires off + 2 <= |data|
    ensures Word16(data[off..off + 2], 0) == Word16(data, off)
  {
  }

  lemma ShortName(e: Entry)
    requires Proper(e)
    ensures Length(HeaderOf(e)) <= MAX_NAME && |e.chars| > 0
  {
  }

  /** In a laid-out pool every entry resolves, by the index of its block and offset, to the UTF-8 of
      its characters: of its UTF-16 units when it is wide, of its Latin-1 code points when not. */
  lemma EntryResolvesTo(m: Memory, blocks: nat, pool: seq<seq<Entry>>, tails: seq<bytes>, cursor: nat, b: nat, i: nat)
    requires UserMemory(m) && Holds(m, blocks, pool, tails, cursor) && blocks != 0
    requires forall i, j | 0 <= i < |pool| && 0 <= j < |pool[i]| :: Proper(pool[i][j])
    requires b < |pool| && b <= 0xFFFF && i < |pool[b]| && (b != 0 || i != 0)
    ensures var e, off := pool[b][i], OffsetOf(pool[b], i);
            var text := Resolve(m, blocks, b * 0x1_0000 + off / 2);
            && (!e.wide ==> text == CodePoints(e.chars))
            && forall units | HasUnits(e, units) :: text == Utf16ToUtf8(units)
  {
    hide LaidOut, BlockData, ReadNumber, OffsetOf, Resolve, Utf16ToUtf8, CodePoints, Latin1, HasUnits, ResolveAt;
    var e := pool[b][i];
    EntryResolvesIn(m, blocks, pool, tails, cursor, b, i);
    Latin1IsCodePoints(e.chars);
    forall units | HasUnits(e, units)
      ensures UnitsFrom(e.chars) == units && e.wide
    {
      HasUnitsIs(e, units);
      UnitsMeanWide(e, units);
    }
  }

  lemma UnitsMeanWide(e: Entry, units: seq<unit>)
    requires HasUnits(e, units)
    ensures e.wide
  {
  }

  lemma EntryResolvesIn(m: Memory, blocks: nat, pool: seq<seq<Entry>>, tails: seq<bytes>, cursor: nat, b: nat, i: nat)
    requires UserMemory(m) && Holds(m, blocks, pool, tails, cursor) && blocks != 0
    requires forall i, j | 0 <= i < |pool| && 0 <= j < |pool[i]| :: Proper(pool[i][j])
    requires b < |pool| && b <= 0xFFFF && i < |pool[b]| && (b != 0 || i != 0)
    ensures var e, off := pool[b][i], OffsetOf(pool[b], i);
            Resolve(m, blocks, b * 0x1_0000 + off / 2)
            == if e.wide then Utf16ToUtf8(UnitsFrom(e.chars)) else Latin1(e.chars)
  {
    hide LaidOut, ReadNumber, OffsetOf, Utf16ToUtf8, Latin1, ResolveEntry, TryRead, EntryBytes;
    var e, off := pool[b][i], OffsetOf(pool[b], i);
    var used := Used(b, |pool| - 1, cursor);
    assert BlockHolds(m, blocks, b, used, pool[b], tails[b]);
    var data := BlockData(m, blocks, b, used).value;
    LaidOutIs(data, pool[b], tails[b]);
    EntryAtOffset(pool[b], i, tails[b]);
    var va := ReadNumber(m, blocks + b * 8, 8).value;
    EntryIsResolved(m, va, data, off, e);
    LaterOffset(pool[b], i);
    IndexOf(b, off);
  }

  lemma LaidOutIs(data: bytes, entries: seq<Entry>, tail: bytes)
    requires LaidOut(data, entries, tail)
    ensures forall j | 0 <= j < |entries| :: Proper(entries[j])
    ensures data == BlockBytes(entries) + tail
  {
  }

  lemma LaterOffset(entries: seq<Entry>, i: nat)
    requires i < |entries| && forall j | 0 <= j < |entries| :: Proper(entries[j])
    ensures i > 0 ==> OffsetOf(entries, i) >= 2
    ensures |EntryBytes(entries[i])| >= 2
  {
  }

  lemma IndexOf(b: nat, off: nat)
    requires off < BLOCK_BYTES && off % 2 == 0
    ensures var index := b * 0x1_0000 + off / 2;
            index / 0x1_0000 == b && index % 0x1_0000 * 2 == off && (b != 0 || off != 0 ==> index != 0)
  {
  }
}
