/**
 The documents the parser accepts are those of RFC 8259, less what it does not support: escapes of
 surrogates, numbers that are neither int64 nor finite doubles, and duplicate keys.
 */
module JsonSyntax {
  import opened Bytes
  import opened Utf16
  import opened Json
  import opened JsonParser
  import opened JsonGrammar
  import opened JsonRoundTrip

  // ---------- Strings (section 7) ----------

  /** char = unescaped / escape ( %x22 / %x5C / %x2F / b / f / n / r / t / uXXXX ), on bytes. */
  predicate IsChar(c: bytes) {
    || (|c| == 1 && c[0] >= 0x20 && c[0] != QUOTE && c[0] != BACKSLASH)
    || (|c| == 2 && c[0] == BACKSLASH && c[1] in {0x22, 0x5C, 0x2F, 0x62, 0x66, 0x6E, 0x72, 0x74})
    || (|c| == 6 && c[0] == BACKSLASH && c[1] == 0x75 && FourHex(c[2..]))
  }

  predicate FourHex(s: bytes) {
    |s| >= 4 && HexValue(s[0]).Some? && HexValue(s[1]).Some? && HexValue(s[2]).Some? && HexValue(s[3]).Some?
  }

  /** The number four hex digits denote. */
  function CodeUnit(s: bytes): (n: nat)
    requires FourHex(s)
    ensures n < 0x1_0000
  {
    ((HexValue(s[0]).value * 16 + HexValue(s[1]).value) * 16 + HexValue(s[2]).value) * 16 + HexValue(s[3]).value
  }

  /** The bytes a char stands for. */
  function CharMeaning(c: bytes): bytes
    requires IsChar(c)
  {
    if |c| == 1 then c
    else if |c| == 2 then [SimpleEscape(c[1]).value]
    else AppendUtf8(CodeUnit(c[2..]))
  }

  /** Not an escape of a surrogate. */
  predicate SupportedChar(c: bytes)
    requires IsChar(c)
  {
    |c| == 6 ==> !(0xD800 <= CodeUnit(c[2..]) <= 0xDFFF)
  }

  predicate AllChars(chars: seq<bytes>) {
    chars == [] || (IsChar(chars[0]) && AllChars(chars[1..]))
  }

  predicate AllSupported(chars: seq<bytes>)
    requires AllChars(chars)
  {
    chars == [] || (SupportedChar(chars[0]) && AllSupported(chars[1..]))
  }

  function Flat(chars: seq<bytes>): bytes {
    if chars == [] then [] else chars[0] + Flat(chars[1..])
  }

  function CharsMeaning(chars: seq<bytes>): bytes
    requires AllChars(chars)
  {
    if chars == [] then [] else CharMeaning(chars[0]) + CharsMeaning(chars[1..])
  }

  /** string = quotation-mark *char quotation-mark */
  function Quotes(chars: seq<bytes>): bytes { [QUOTE] + Flat(chars) + [QUOTE] }

  lemma HexFour(s: bytes)
    requires |s| >= 4
    ensures Hex4(s).Ok? <==> FourHex(s)
    ensures FourHex(s) ==> Hex4(s) == Ok(CodeUnit(s), s[4..])
  {
    hide HexValue;
    HexOne(s, 4, 0);
    if HexValue(s[0]).Some? {
      var a := HexValue(s[0]).value;
      HexOne(s[1..], 3, a);
      if HexValue(s[1]).Some? {
        var b := a * 16 + HexValue(s[1]).value;
        assert s[1..][1..] == s[2..];
        HexOne(s[2..], 2, b);
        if HexValue(s[2]).Some? {
          assert s[2..][1..] == s[3..] && s[3..][1..] == s[4..];
          HexOne(s[3..], 1, b * 16 + HexValue(s[2]).value);
        }
      }
    }
  }

  lemma HexOne(s: bytes, count: nat, sofar: nat)
    requires 0 < count <= |s|
    ensures Hex(s, count, sofar).Ok? ==> HexValue(s[0]).Some?
    ensures HexValue(s[0]).Some? ==>
              Hex(s, count, sofar)
              == if count == 1 then Ok(16 * sofar + HexValue(s[0]).value, s[1..])
                 else Hex(s[1..], count - 1, 16 * sofar + HexValue(s[0]).value)
  {
  }

  lemma CharParses(c: bytes, rest: bytes)
    requires IsChar(c) && SupportedChar(c)
    ensures c + rest != [] && (c + rest)[0] != QUOTE && Char(c + rest) == Ok(CharMeaning(c), rest)
  {
    hide AppendUtf8, HexValue, Hex4, CodeUnit;
    var s := c + rest;
    assert s[|c|..] == rest;
    if |c| == 6 {
      assert s[2..] == c[2..] + rest;
      HexFour(c[2..] + rest);
      SameUnit(c[2..], rest);
      assert (c[2..] + rest)[4..] == rest;
    } else if |c| == 2 {
      assert s[1] == c[1] && s[2..] == rest;
    } else {
      assert c == [s[0]] && s[1..] == rest;
    }
  }

  lemma SameUnit(h: bytes, rest: bytes)
    requires |h| == 4
    ensures FourHex(h + rest) == FourHex(h)
    ensures FourHex(h) ==> CodeUnit(h + rest) == CodeUnit(h)
  {
  }

  lemma CharDerives(s: bytes)
    requires s != [] && s[0] != QUOTE && Char(s).Ok?
    ensures var n := |s| - |Char(s).rest|;
            && 0 < n <= |s| && s == s[..n] + Char(s).rest
            && IsChar(s[..n]) && SupportedChar(s[..n]) && CharMeaning(s[..n]) == Char(s).value
  {
    hide AppendUtf8, HexValue, Hex4, CodeUnit;
    if s[0] == BACKSLASH && |s| > 1 && s[1] == 0x75 {
      if |s[2..]| < 4 {
        ShortHex(s[2..]);
      } else {
        HexFour(s[2..]);
        assert s[2..] == s[..6][2..] + s[6..] && s[2..][4..] == s[6..];
        SameUnit(s[..6][2..], s[6..]);
      }
    }
  }

  lemma ShortHex(s: bytes)
    requires |s| < 4
    ensures Hex4(s).Err?
  {
  }

  lemma {:induction false} BodyParses(chars: seq<bytes>, out: bytes, rest: bytes)
    requires AllChars(chars) && AllSupported(chars)
    ensures Body(Flat(chars) + ([QUOTE] + rest), out) == Ok(out + CharsMeaning(chars), rest)
    decreases |chars|
  {
    hide Char, CharMeaning, SupportedChar, IsChar;
    var s := Flat(chars) + ([QUOTE] + rest);
    if chars == [] {
      assert s == [QUOTE] + rest && s[1..] == rest && out + [] == out;
    } else {
      var tail := Flat(chars[1..]) + ([QUOTE] + rest);
      assert s == chars[0] + tail;
      CharParses(chars[0], tail);
      BodyParses(chars[1..], out + CharMeaning(chars[0]), rest);
      ConcatAssociates(out, CharMeaning(chars[0]), CharsMeaning(chars[1..]));
    }
  }

  lemma {:induction false} BodyDerives(s: bytes, out: bytes) returns (chars: seq<bytes>)
    requires Body(s, out).Ok?
    ensures AllChars(chars) && AllSupported(chars)
    ensures s == Flat(chars) + ([QUOTE] + Body(s, out).rest) && Body(s, out).value == out + CharsMeaning(chars)
    decreases |s|
  {
    hide Char, CharMeaning, SupportedChar, IsChar;
    if s[0] == QUOTE {
      chars := [];
      assert s == [QUOTE] + s[1..] && out + [] == out;
    } else {
      CharDerives(s);
      var Ok(more, rest) := Char(s);
      var c := s[..|s| - |rest|];
      var later := BodyDerives(rest, out + more);
      chars := [c] + later;
      assert chars[1..] == later;
      ConcatAssociates(c, Flat(later), [QUOTE] + Body(s, out).rest);
      ConcatAssociates(out, more, CharsMeaning(later));
    }
  }

  lemma StringParses(chars: seq<bytes>, rest: bytes)
    requires AllChars(chars) && AllSupported(chars)
    ensures ParseString(Quotes(chars) + rest) == Ok(CharsMeaning(chars), rest)
  {
    hide Body, Flat, CharsMeaning;
    BodyParses(chars, [], rest);
    assert [] + CharsMeaning(chars) == CharsMeaning(chars);
    assert (Quotes(chars) + rest)[1..] == Flat(chars) + ([QUOTE] + rest);
  }

  lemma StringDerives(s: bytes) returns (chars: seq<bytes>)
    requires ParseString(s).Ok?
    ensures AllChars(chars) && AllSupported(chars)
    ensures s == Quotes(chars) + ParseString(s).rest && ParseString(s).value == CharsMeaning(chars)
  {
    hide Body, Flat, CharsMeaning;
    chars := BodyDerives(s[1..], []);
    assert [] + CharsMeaning(chars) == CharsMeaning(chars);
    assert s == [QUOTE] + s[1..];
    assert s == Quotes(chars) + ParseString(s).rest;
  }

  /** `chars` spell a string of the grammar that means `text`. */
  ghost predicate Spells(s: bytes, chars: seq<bytes>, text: bytes) {
    AllChars(chars) && AllSupported(chars) && s == Quotes(chars) && text == CharsMeaning(chars)
  }

  /** A text is a string literal of a given meaning exactly when the grammar derives it, surrogate
      escapes apart. */
  lemma StringExactly(s: bytes, text: bytes)
    ensures ParseString(s) == Ok(text, []) <==> exists chars :: Spells(s, chars, text)
  {
    hide ParseString, Quotes, CharsMeaning;
    if ParseString(s) == Ok(text, []) {
      var chars := StringDerives(s);
      assert Quotes(chars) + [] == Quotes(chars);
      assert Spells(s, chars, text);
    }
    if chars :| Spells(s, chars, text) {
      StringParses(chars, []);
      assert Quotes(chars) + [] == Quotes(chars);
    }
  }

  // ---------- Values and documents (sections 2 to 5) ----------

  /** A derivation of a value, with the white space it was written with. */
  datatype Tree =
    | Keyword(value: Value)
    | Numeral(token: bytes)
    | Quotation(chars: seq<bytes>)
    | Sequence(space: bytes, items: seq<Padded>)
    | Mapping(space: bytes, pairs: seq<Pair>)

  datatype Padded = Padded(before: bytes, tree: Tree, after: bytes)

  datatype Pair = Pair(before: bytes, key: seq<bytes>, between: bytes, value: Padded)

  predicate AllSpaces(s: bytes) { s == [] || (Space(s[0]) && AllSpaces(s[1..])) }

  // What a derivation spells.

  function Spelling(t: Tree): bytes
    decreases t, 1
  {
    match t
    case Keyword(v) =>
      if v == Null then NULL_TEXT else if v == Bool(true) then TRUE_TEXT else FALSE_TEXT
    case Numeral(token) => token
    case Quotation(chars) => Quotes(chars)
    case Sequence(space, items) =>
      [OPEN_BRACKET] + (if items == [] then space else ItemsSpelling(items)) + [CLOSE_BRACKET]
    case Mapping(space, pairs) =>
      [OPEN_BRACE] + (if pairs == [] then space else PairsSpelling(pairs)) + [CLOSE_BRACE]
  }

  function Pad(p: Padded, text: bytes): bytes { p.before + text + p.after }

  function PadPair(q: Pair, text: bytes): bytes {
    q.before + Quotes(q.key) + q.between + [COLON] + Pad(q.value, text)
  }

  function ItemsSpelling(items: seq<Padded>): bytes
    decreases items, 0
  {
    if items == [] then []
    else Pad(items[0], Spelling(items[0].tree)) + if |items| == 1 then [] else [COMMA] + ItemsSpelling(items[1..])
  }

  function PairsSpelling(pairs: seq<Pair>): bytes
    decreases pairs, 0
  {
    if pairs == [] then []
    else
      PadPair(pairs[0], Spelling(pairs[0].value.tree))
      + if |pairs| == 1 then [] else [COMMA] + PairsSpelling(pairs[1..])
  }

  // What is in the grammar.

  ghost predicate Grammatical(t: Tree)
    decreases t, 1
  {
    match t
    case Keyword(v) => v == Null || v == Bool(true) || v == Bool(false)
    case Numeral(token) => IsNumber(token)
    case Quotation(chars) => AllChars(chars)
    case Sequence(space, items) => AllSpaces(space) && GrammaticalItems(items)
    case Mapping(space, pairs) => AllSpaces(space) && GrammaticalPairs(pairs)
  }

  predicate Spaced(p: Padded) { AllSpaces(p.before) && AllSpaces(p.after) }

  predicate Keyed(q: Pair) { AllSpaces(q.before) && AllChars(q.key) && AllSpaces(q.between) && Spaced(q.value) }

  ghost predicate GrammaticalItems(items: seq<Padded>)
    decreases items, 0
  {
    items == [] || (Spaced(items[0]) && Grammatical(items[0].tree) && GrammaticalItems(items[1..]))
  }

  ghost predicate GrammaticalPairs(pairs: seq<Pair>)
    decreases pairs, 0
  {
    pairs == [] || (Keyed(pairs[0]) && Grammatical(pairs[0].value.tree) && GrammaticalPairs(pairs[1..]))
  }

  // What it means.

  ghost predicate FitsInt(token: bytes) {
    WholeGrammar(token) && INT_MIN <= TokenValue(token) <= INT_MAX
  }

  ghost function Meaning(t: Tree): Value
    requires Grammatical(t)
    decreases t, 1
  {
    match t
    case Keyword(v) => v
    case Numeral(token) => if FitsInt(token) then Int(TokenValue(token)) else Real(token)
    case Quotation(chars) => Str(CharsMeaning(chars))
    case Sequence(_, items) => Arr(ItemsMeaning(items))
    case Mapping(_, pairs) => Obj(PairsMeaning([], pairs))
  }

  ghost function ItemsMeaning(items: seq<Padded>): seq<Value>
    requires GrammaticalItems(items)
    decreases items, 0
  {
    if items == [] then [] else [Meaning(items[0].tree)] + ItemsMeaning(items[1..])
  }

  /** The members of the pairs put in key order among those of `done`. */
  ghost function PairsMeaning(done: seq<Member>, pairs: seq<Pair>): seq<Member>
    requires GrammaticalPairs(pairs)
    decreases pairs, 0
  {
    if pairs == [] then done
    else PairsMeaning(Insert(done, Member(CharsMeaning(pairs[0].key), Meaning(pairs[0].value.tree))), pairs[1..])
  }

  // What the parser supports of it.

  ghost predicate Supported(t: Tree, finite: bytes -> bool)
    requires Grammatical(t)
    decreases t, 1
  {
    match t
    case Keyword(_) => true
    case Numeral(token) => FitsInt(token) || finite(token)
    case Quotation(chars) => AllSupported(chars)
    case Sequence(_, items) => SupportedItems(items, finite)
    case Mapping(_, pairs) => SupportedPairs(pairs, finite) && DistinctKeys(pairs)
  }

  ghost predicate SupportedItems(items: seq<Padded>, finite: bytes -> bool)
    requires GrammaticalItems(items)
    decreases items, 0
  {
    items == [] || (Supported(items[0].tree, finite) && SupportedItems(items[1..], finite))
  }

  ghost predicate SupportedPairs(pairs: seq<Pair>, finite: bytes -> bool)
    requires GrammaticalPairs(pairs)
    decreases pairs, 0
  {
    pairs == [] ||
    (&& AllSupported(pairs[0].key) && Supported(pairs[0].value.tree, finite)
     && SupportedPairs(pairs[1..], finite))
  }

  ghost predicate KeyIn(pairs: seq<Pair>, key: bytes)
    requires GrammaticalPairs(pairs)
    decreases |pairs|
  {
    pairs != [] && (CharsMeaning(pairs[0].key) == key || KeyIn(pairs[1..], key))
  }

  ghost predicate DistinctKeys(pairs: seq<Pair>)
    requires GrammaticalPairs(pairs)
  {
    pairs == [] || (!KeyIn(pairs[1..], CharsMeaning(pairs[0].key)) && DistinctKeys(pairs[1..]))
  }

  /** No key of the pairs is among the members already read. */
  ghost predicate NewKeys(done: seq<Member>, pairs: seq<Pair>)
    requires GrammaticalPairs(pairs)
  {
    forall key | KeyIn(pairs, key) :: !HasKey(done, key)
  }

  // ---------- White space ----------

  lemma {:induction false} SpacesSkipped(space: bytes, t: bytes)
    requires AllSpaces(space) && (t == [] || !Space(t[0]))
    ensures SkipSpace(space + t) == t
  {
    if space == [] {
      assert space + t == t;
    } else {
      assert (space + t)[1..] == space[1..] + t;
      SpacesSkipped(space[1..], t);
    }
  }

  /** What white space was skipped. */
  function Skipped(s: bytes): bytes { s[..|s| - |SkipSpace(s)|] }

  lemma {:induction false} SkippedIsSpace(s: bytes)
    ensures s == Skipped(s) + SkipSpace(s) && AllSpaces(Skipped(s))
    ensures SkipSpace(s) == [] || !Space(SkipSpace(s)[0])
  {
    if s != [] && Space(s[0]) {
      SkippedIsSpace(s[1..]);
      assert Skipped(s)[1..] == Skipped(s[1..]);
    }
  }

  lemma SpaceBeforeValue(s: bytes, t: bytes, finite: bytes -> bool)
    requires SkipSpace(s) == SkipSpace(t)
    ensures ParseValue(s, finite) == ParseValue(t, finite)
  {
    hide SkipSpace, ParseItems, ParseMembers, ParseString, ParseNumber;
  }

  lemma SpaceBeforeItems(s: bytes, finite: bytes -> bool, done: seq<Value>)
    ensures ParseItems(SkipSpace(s), finite, done) == ParseItems(s, finite, done)
  {
    hide ParseValue;
    SkipSpaceTwice(s);
    SpaceBeforeValue(SkipSpace(s), s, finite);
  }

  lemma SpaceBeforeMembers(s: bytes, finite: bytes -> bool, done: seq<Member>)
    ensures ParseMembers(SkipSpace(s), finite, done) == ParseMembers(s, finite, done)
  {
    hide ParseString;
    SkipSpaceTwice(s);
  }

  // ---------- What the grammar derives is parsed ----------

  lemma NumeralParses(token: bytes, rest: bytes, finite: bytes -> bool)
    requires IsNumber(token) && Follows(rest) && (FitsInt(token) || finite(token))
    ensures token != [] && (token[0] == MINUS || Digit(token[0]))
    ensures ParseNumber(token + rest, finite)
         == Ok(if FitsInt(token) then Int(TokenValue(token)) else Real(token), rest)
  {
    hide ScanNumber, TokenValue, FractionGrammar, ExponentGrammar;
    var whole: nat, f: nat :| whole <= f <= |token| && Number(token, whole, f);
    GrammarScans(token, whole, f, rest);
    WholeIsAll(token, whole, f);
    assert (token + rest)[..|token|] == token;
    assert token[0] == token[..whole][0];
  }

  lemma TreeStart(t: Tree, rest: bytes)
    requires Grammatical(t)
    ensures var s := Spelling(t) + rest;
            && s != [] && !Space(s[0]) && s[0] != CLOSE_BRACKET && s[0] != CLOSE_BRACE
            && (t.Sequence? ==> s[0] == OPEN_BRACKET) && (t.Mapping? ==> s[0] == OPEN_BRACE)
  {
    if t.Numeral? {
      NumeralParses(t.token, [], _ => true);
    }
  }

  lemma PlainParses(t: Tree, rest: bytes, finite: bytes -> bool)
    requires Grammatical(t) && Supported(t, finite) && Follows(rest) && !t.Sequence? && !t.Mapping?
    ensures ParseValue(Spelling(t) + rest, finite) == Ok(Meaning(t), rest)
  {
    hide ParseNumber, ParseString, Quotes, IsNumber, FitsInt, Follows;
    var s := Spelling(t) + rest;
    TreeStart(t, rest);
    NoSpace(s);
    match t
    case Keyword(v) => assert s[..|Spelling(t)|] == Spelling(t) && s[|Spelling(t)|..] == rest;
    case Numeral(token) => NumeralParses(token, rest, finite);
    case Quotation(chars) =>
      assert Starts(s, QUOTE) by {
        QuotesStart(chars, rest);
      }
      StringParses(chars, rest);
  }

  lemma QuotesStart(chars: seq<bytes>, rest: bytes)
    ensures Starts(Quotes(chars) + rest, QUOTE)
  {
  }

  /** What can come after a padded value. */
  predicate Ends(tail: bytes) {
    tail == [] || tail[0] == COMMA || tail[0] == CLOSE_BRACKET || tail[0] == CLOSE_BRACE
  }

  lemma EndsFollow(space: bytes, tail: bytes)
    requires AllSpaces(space) && Ends(tail)
    ensures Follows(space + tail) && SkipSpace(space + tail) == tail
  {
    SpacesSkipped(space, tail);
  }

  lemma {:induction false} ValueParses(t: Tree, rest: bytes, finite: bytes -> bool)
    requires Grammatical(t) && Supported(t, finite) && Follows(rest)
    ensures ParseValue(Spelling(t) + rest, finite) == Ok(Meaning(t), rest)
    decreases t, 1
  {
    hide ParseValue, ParseItems, ParseMembers, Follows;
    match t
    case Sequence(space, items) => SequenceParses(t, rest, finite);
    case Mapping(space, pairs) => MappingParses(t, rest, finite);
    case _ => PlainParses(t, rest, finite);
  }

  lemma SequenceSpells(space: bytes, items: seq<Padded>, rest: bytes)
    ensures Spelling(Sequence(space, items)) + rest
         == [OPEN_BRACKET] + ((if items == [] then space else ItemsSpelling(items)) + ([CLOSE_BRACKET] + rest))
  {
    hide ItemsSpelling;
  }

  lemma {:induction false} SequenceParses(t: Tree, rest: bytes, finite: bytes -> bool)
    requires t.Sequence? && Grammatical(t) && Supported(t, finite)
    ensures ParseValue(Spelling(t) + rest, finite) == Ok(Meaning(t), rest)
    decreases t, 0
  {
    hide ParseValue, ParseItems, ItemsSpelling, ItemsMeaning, AllSpaces, SkipSpace, Spelling;
    var Sequence(space, items) := t;
    var inner := if items == [] then space else ItemsSpelling(items);
    var tail := [CLOSE_BRACKET] + rest;
    var s := [OPEN_BRACKET] + (inner + tail);
    SequenceSpells(space, items, rest);
    assert s[1..] == inner + tail && tail[1..] == rest;
    ArrayAt(s, finite);
    if items == [] {
      SpacesSkipped(space, tail);
    } else {
      ItemsStart(items, tail);
      ItemsParse(items, [], rest, finite);
      SpaceBeforeItems(inner + tail, finite, []);
      assert [] + ItemsMeaning(items) == ItemsMeaning(items);
    }
    assert items == [] ==> Meaning(t) == Arr([]) by {
      EmptyMeaning(finite);
    }
  }

  lemma EmptyMeaning(finite: bytes -> bool)
    ensures GrammaticalItems([]) && SupportedItems([], finite) && ItemsMeaning([]) == []
    ensures GrammaticalPairs([]) && SupportedPairs([], finite) && DistinctKeys([]) && PairsMeaning([], []) == []
  {
  }

  /** What follows the first item. */
  function AfterFirst(items: seq<Padded>, close: bytes): bytes
    requires items != []
  {
    if |items| == 1 then close else [COMMA] + (ItemsSpelling(items[1..]) + close)
  }

  lemma ItemsSplit(items: seq<Padded>, close: bytes)
    requires items != []
    ensures ItemsSpelling(items) + close == Pad(items[0], Spelling(items[0].tree)) + AfterFirst(items, close)
  {
    hide Pad, Spelling;
    if |items| > 1 {
      ConcatAssociates([COMMA], ItemsSpelling(items[1..]), close);
    }
  }

  lemma ItemsStart(items: seq<Padded>, close: bytes)
    requires items != [] && GrammaticalItems(items)
    ensures !Starts(SkipSpace(ItemsSpelling(items) + close), CLOSE_BRACKET)
  {
    hide Spelling, ItemsSpelling, AfterFirst;
    var p, tail := items[0], AfterFirst(items, close);
    var s := Spelling(p.tree) + (p.after + tail);
    ItemsSplit(items, close);
    assert Pad(p, Spelling(p.tree)) + tail == p.before + s;
    TreeStart(p.tree, p.after + tail);
    SpacesSkipped(p.before, s);
  }

  lemma {:induction false} PaddedParses(p: Padded, tail: bytes, finite: bytes -> bool)
    requires Spaced(p) && Grammatical(p.tree) && Supported(p.tree, finite) && Ends(tail)
    ensures ParseValue(Pad(p, Spelling(p.tree)) + tail, finite) == Ok(Meaning(p.tree), p.after + tail)
    ensures SkipSpace(p.after + tail) == tail
    decreases p, 2
  {
    hide ParseValue, Spelling, Meaning, Supported, Grammatical, AllSpaces, SkipSpace, Follows, Ends;
    var text := Spelling(p.tree);
    var s := text + (p.after + tail);
    EndsFollow(p.after, tail);
    ValueParses(p.tree, p.after + tail, finite);
    TreeStart(p.tree, p.after + tail);
    SpacesSkipped(p.before, s);
    NoSpace(s);
    assert Pad(p, text) + tail == p.before + s;
    SpaceBeforeValue(p.before + s, s, finite);
  }

  lemma {:induction false} ItemsParse(items: seq<Padded>, done: seq<Value>, rest: bytes, finite: bytes -> bool)
    requires items != [] && GrammaticalItems(items) && SupportedItems(items, finite)
    ensures ParseItems(ItemsSpelling(items) + ([CLOSE_BRACKET] + rest), finite, done)
         == Ok(Arr(done + ItemsMeaning(items)), rest)
    decreases items, 0
  {
    hide ParseValue, ParseItems, Spelling, ItemsSpelling, ItemsMeaning, Meaning, SkipSpace, Pad;
    var p, close := items[0], [CLOSE_BRACKET] + rest;
    var tail := AfterFirst(items, close);
    ItemsSplit(items, close);
    ItemsAt(ItemsSpelling(items) + close, finite, done);
    PaddedParses(p, tail, finite);
    MeaningSplit(items);
    assert tail[1..] == if |items| == 1 then rest else ItemsSpelling(items[1..]) + close;
    if |items| > 1 {
      ItemsParse(items[1..], done + [Meaning(p.tree)], rest, finite);
      ConcatAssociates(done, [Meaning(p.tree)], ItemsMeaning(items[1..]));
    }
  }

  lemma MeaningSplit(items: seq<Padded>)
    requires items != [] && GrammaticalItems(items)
    ensures ItemsMeaning(items) == [Meaning(items[0].tree)] + ItemsMeaning(items[1..])
    ensures |items| == 1 ==> ItemsMeaning(items) == [Meaning(items[0].tree)]
  {
    hide Meaning, Grammatical;
  }

  // Objects.

  lemma {:induction false} InsertKeys(members: seq<Member>, m: Member, key: bytes)
    ensures HasKey(Insert(members, m), key) <==> HasKey(members, key) || m.key == key
  {
    if members == [] || Less(m.key, members[0].key) {
      var r := [m] + members;
      assert r[0] == m && forall i | 0 <= i < |members| :: members[i] == r[i + 1];
    } else {
      InsertKeys(members[1..], m, key);
      var t := Insert(members[1..], m);
      var r := [members[0]] + t;
      assert r[0] == members[0] && forall i | 0 <= i < |t| :: t[i] == r[i + 1];
      assert forall i | 0 <= i < |members[1..]| :: members[1..][i] == members[i + 1];
    }
  }

  lemma MappingSpells(space: bytes, pairs: seq<Pair>, rest: bytes)
    ensures Spelling(Mapping(space, pairs)) + rest
         == [OPEN_BRACE] + ((if pairs == [] then space else PairsSpelling(pairs)) + ([CLOSE_BRACE] + rest))
  {
    hide PairsSpelling;
  }

  lemma {:induction false} MappingParses(t: Tree, rest: bytes, finite: bytes -> bool)
    requires t.Mapping? && Grammatical(t) && Supported(t, finite)
    ensures ParseValue(Spelling(t) + rest, finite) == Ok(Meaning(t), rest)
    decreases t, 0
  {
    hide ParseValue, ParseMembers, HasKey, Spelling, PairsSpelling, AllSpaces, SkipSpace;
    var Mapping(space, pairs) := t;
    var inner := if pairs == [] then space else PairsSpelling(pairs);
    var tail := [CLOSE_BRACE] + rest;
    var s := [OPEN_BRACE] + (inner + tail);
    MappingSpells(space, pairs, rest);
    assert s[1..] == inner + tail && tail[1..] == rest;
    ObjectAt(s, finite);
    if pairs == [] {
      SpacesSkipped(space, tail);
    } else {
      PairsStart(pairs, tail);
      NothingHasKey();
      PairsParse(pairs, [], rest, finite);
      SpaceBeforeMembers(inner + tail, finite, []);
    }
  }

  lemma NothingHasKey()
    ensures forall key :: !HasKey([], key)
  {
  }

  lemma PairsStart(pairs: seq<Pair>, tail: bytes)
    requires pairs != [] && GrammaticalPairs(pairs)
    ensures !Starts(SkipSpace(PairsSpelling(pairs) + tail), CLOSE_BRACE)
  {
    hide Spelling;
    var s, q := PairsSpelling(pairs) + tail, pairs[0];
    var more := s[|q.before|..];
    assert s == q.before + more && more[0] == QUOTE;
    SpacesSkipped(q.before, more);
  }

  lemma {:induction false} MemberParses(q: Pair, tail: bytes, finite: bytes -> bool)
    requires Keyed(q) && AllSupported(q.key) && Grammatical(q.value.tree) && Supported(q.value.tree, finite)
    requires Ends(tail)
    ensures ParseMember(PadPair(q, Spelling(q.value.tree)) + tail, finite)
         == Ok(Member(CharsMeaning(q.key), Meaning(q.value.tree)), q.value.after + tail)
    ensures SkipSpace(q.value.after + tail) == tail
    decreases q, 3
  {
    hide ParseValue, ParseString, Spelling, Meaning, Supported, Grammatical, Quotes, AllSpaces, SkipSpace, Pad, Ends;
    var text := Pad(q.value, Spelling(q.value.tree));
    var colon := [COLON] + (text + tail);
    var afterKey := q.between + colon;
    var s := Quotes(q.key) + afterKey;
    assert PadPair(q, Spelling(q.value.tree)) + tail == q.before + s;
    QuotesStart(q.key, afterKey);
    SpacesSkipped(q.before, s);
    StringParses(q.key, afterKey);
    SpacesSkipped(q.between, colon);
    assert colon[1..] == text + tail;
    PaddedParses(q.value, tail, finite);
  }

  lemma {:induction false} PairsParse(pairs: seq<Pair>, done: seq<Member>, rest: bytes, finite: bytes -> bool)
    requires pairs != [] && GrammaticalPairs(pairs) && SupportedPairs(pairs, finite)
    requires DistinctKeys(pairs) && NewKeys(done, pairs)
    ensures ParseMembers(PairsSpelling(pairs) + ([CLOSE_BRACE] + rest), finite, done)
         == Ok(Obj(PairsMeaning(done, pairs)), rest)
    decreases pairs, 0
  {
    hide ParseMember, ParseMembers, Spelling, Meaning, SkipSpace, PadPair, HasKey, Insert;
    var q, close := pairs[0], [CLOSE_BRACE] + rest;
    var m := Member(CharsMeaning(q.key), Meaning(q.value.tree));
    var text := PadPair(q, Spelling(q.value.tree));
    var more := PairsSpelling(pairs[1..]) + close;
    var tail := if |pairs| == 1 then close else [COMMA] + more;
    var s := PairsSpelling(pairs) + close;
    assert s == text + tail;
    MembersAt(s, finite, done);
    MemberParses(q, tail, finite);
    assert KeyIn(pairs, m.key);
    if |pairs| == 1 {
      assert close[1..] == rest && pairs[1..] == [];
      assert PairsMeaning(done, pairs) == PairsMeaning(Insert(done, m), []);
    } else {
      assert tail[1..] == more;
      forall key | KeyIn(pairs[1..], key)
        ensures !HasKey(Insert(done, m), key)
      {
        InsertKeys(done, m, key);
        assert KeyIn(pairs, key);
      }
      PairsParse(pairs[1..], Insert(done, m), rest, finite);
    }
  }

  // ---------- What is parsed is derived by the grammar ----------

  lemma NumeralDerives(s: bytes, finite: bytes -> bool) returns (t: Tree)
    requires s != [] && ParseNumber(s, finite).Ok?
    ensures Grammatical(t) && Supported(t, finite)
    ensures s == Spelling(t) + ParseNumber(s, finite).rest && Meaning(t) == ParseNumber(s, finite).value
  {
    hide ScanNumber, Number, TokenValue, WholeGrammar;
    var Ok((whole, end), rest) := ScanNumber(s);
    ScannedIsGrammar(s);
    var token := s[..end];
    var f: nat :| whole <= f <= end && Number(token, whole, f);
    WholeIsAll(token, whole, f);
    t := Numeral(token);
    assert IsNumber(token);
  }

  lemma KeywordDerives(s: bytes, v: Value)
    requires v == Null || v == Bool(true) || v == Bool(false)
    requires Literal(s, Spelling(Keyword(v)), v).Ok?
    ensures s == Spelling(Keyword(v)) + Literal(s, Spelling(Keyword(v)), v).rest
    ensures Literal(s, Spelling(Keyword(v)), v).value == v
  {
  }

  lemma StringValueDerives(s: bytes) returns (t: Tree)
    requires ParseString(s).Ok?
    ensures Grammatical(t) && t.Quotation? && AllSupported(t.chars)
    ensures s == Spelling(t) + ParseString(s).rest && Meaning(t) == Str(ParseString(s).value)
  {
    hide ParseString, Quotes;
    var chars := StringDerives(s);
    t := Quotation(chars);
  }

  /** `t` is a derivation of what `r` parsed at the head of `s`. */
  ghost predicate Derives(t: Tree, s: bytes, r: Parsed<Value>, finite: bytes -> bool)
    requires r.Ok?
  {
    Grammatical(t) && Supported(t, finite) && s == Spelling(t) + r.rest && Meaning(t) == r.value
  }

  lemma {:induction false} ValueDerives(s: bytes, finite: bytes -> bool) returns (t: Tree)
    requires ParseValue(s, finite).Ok?
    ensures Derives(t, SkipSpace(s), ParseValue(s, finite), finite)
    decreases |s|, 1
  {
    hide ParseItems, ParseMembers, ParseNumber, ParseString, Literal;
    var u := SkipSpace(s);
    SkipSpaceTwice(s);
    if u[0] == OPEN_BRACKET {
      t := SequenceDerives(u, finite);
    } else if u[0] == OPEN_BRACE {
      t := MappingDerives(u, finite);
    } else if u[0] == QUOTE {
      t := StringValueDerives(u);
    } else if u[0] == 0x74 {
      KeywordDerives(u, Bool(true));
      t := Keyword(Bool(true));
    } else if u[0] == 0x66 {
      KeywordDerives(u, Bool(false));
      t := Keyword(Bool(false));
    } else if u[0] == 0x6E {
      KeywordDerives(u, Null);
      t := Keyword(Null);
    } else {
      t := NumeralDerives(u, finite);
    }
  }

  lemma {:induction false} SequenceDerives(s: bytes, finite: bytes -> bool) returns (t: Tree)
    requires Starts(s, OPEN_BRACKET) && ParseValue(s, finite).Ok?
    ensures Derives(t, s, ParseValue(s, finite), finite)
    decreases |s|, 0
  {
    hide ParseValue, ParseItems, SkipSpace, Derives;
    var inner := s[1..];
    ArrayAt(s, finite);
    assert s == [OPEN_BRACKET] + inner;
    if Starts(SkipSpace(inner), CLOSE_BRACKET) {
      SkippedIsSpace(inner);
      t := Sequence(Skipped(inner), []);
      EmptyDerives(s, Skipped(inner), SkipSpace(inner), finite);
    } else {
      SpaceBeforeItems(inner, finite, []);
      var items := ItemsDerive(inner, finite, []);
      t := Sequence([], items);
      ItemsCompose(s, items, ParseItems(inner, finite, []).rest, finite);
      assert [] + ItemsMeaning(items) == ItemsMeaning(items);
    }
  }

  lemma EmptyDerives(s: bytes, space: bytes, u: bytes, finite: bytes -> bool)
    requires AllSpaces(space) && s == [OPEN_BRACKET] + (space + u) && Starts(u, CLOSE_BRACKET)
    ensures Derives(Sequence(space, []), s, Ok(Arr([]), u[1..]), finite)
  {
    hide Spelling, AllSpaces;
    var t := Sequence(space, []);
    assert u == [CLOSE_BRACKET] + u[1..];
    SequenceSpells(space, [], u[1..]);
    EmptyMeaning(finite);
    assert Grammatical(t);
  }

  lemma NoneDerives(s: bytes, space: bytes, u: bytes, finite: bytes -> bool)
    requires AllSpaces(space) && s == [OPEN_BRACE] + (space + u) && Starts(u, CLOSE_BRACE)
    ensures Derives(Mapping(space, []), s, Ok(Obj([]), u[1..]), finite)
  {
    hide Spelling, AllSpaces;
    var t := Mapping(space, []);
    assert u == [CLOSE_BRACE] + u[1..];
    MappingSpells(space, [], u[1..]);
    EmptyMeaning(finite);
    assert Grammatical(t);
  }

  lemma ItemsCompose(s: bytes, items: seq<Padded>, rest: bytes, finite: bytes -> bool)
    requires items != [] && GrammaticalItems(items) && SupportedItems(items, finite)
    requires s == [OPEN_BRACKET] + (ItemsSpelling(items) + ([CLOSE_BRACKET] + rest))
    ensures Derives(Sequence([], items), s, Ok(Arr(ItemsMeaning(items)), rest), finite)
  {
    hide Spelling, ItemsSpelling;
    SequenceSpells([], items, rest);
  }

  lemma PairsCompose(s: bytes, pairs: seq<Pair>, rest: bytes, finite: bytes -> bool)
    requires pairs != [] && GrammaticalPairs(pairs) && SupportedPairs(pairs, finite) && DistinctKeys(pairs)
    requires s == [OPEN_BRACE] + (PairsSpelling(pairs) + ([CLOSE_BRACE] + rest))
    ensures Derives(Mapping([], pairs), s, Ok(Obj(PairsMeaning([], pairs)), rest), finite)
  {
    hide Spelling, PairsSpelling;
    MappingSpells([], pairs, rest);
  }

  lemma {:induction false} ItemsDerive(s: bytes, finite: bytes -> bool, done: seq<Value>) returns (items: seq<Padded>)
    requires ParseItems(s, finite, done).Ok?
    ensures items != [] && GrammaticalItems(items) && SupportedItems(items, finite)
    ensures var r := ParseItems(s, finite, done);
            && s == ItemsSpelling(items) + ([CLOSE_BRACKET] + r.rest)
            && r.value == Arr(done + ItemsMeaning(items))
    decreases |s|, 2
  {
    hide ParseValue, ParseItems, Spelling, Meaning, Grammatical, Supported, SkipSpace, AllSpaces, Pad, Skipped,
         ItemsSpelling, ItemsMeaning;
    ItemsAt(s, finite, done);
    var p := ParseValue(s, finite);
    var t := ValueDerives(s, finite);
    SkippedIsSpace(s);
    SkippedIsSpace(p.rest);
    var u, item := SkipSpace(p.rest), Padded(Skipped(s), t, Skipped(p.rest));
    PadIs(item, Spelling(t), u);
    if Starts(u, CLOSE_BRACKET) {
      items := [item];
      assert u == [CLOSE_BRACKET] + u[1..];
      ItemsSplit(items, u);
      MeaningSplit(items);
    } else {
      var later := ItemsDerive(u[1..], finite, done + [p.value]);
      items := [item] + later;
      assert items[1..] == later && u == [COMMA] + u[1..];
      ItemsSplit(items, [CLOSE_BRACKET] + ParseItems(s, finite, done).rest);
      MeaningSplit(items);
      ConcatAssociates(done, [p.value], ItemsMeaning(later));
    }
  }

  lemma PadIs(p: Padded, text: bytes, u: bytes)
    ensures p.before + (text + (p.after + u)) == Pad(p, text) + u
  {
    Reassemble(p.before, text, p.after, u);
  }

  lemma Reassemble(a: bytes, b: bytes, c: bytes, d: bytes)
    ensures a + (b + (c + d)) == a + b + c + d
  {
  }

  lemma {:induction false} MappingDerives(s: bytes, finite: bytes -> bool) returns (t: Tree)
    requires Starts(s, OPEN_BRACE) && ParseValue(s, finite).Ok?
    ensures Derives(t, s, ParseValue(s, finite), finite)
    decreases |s|, 0
  {
    hide ParseValue, ParseMembers, SkipSpace, Derives, HasKey;
    var inner := s[1..];
    ObjectAt(s, finite);
    assert s == [OPEN_BRACE] + inner;
    if Starts(SkipSpace(inner), CLOSE_BRACE) {
      SkippedIsSpace(inner);
      t := Mapping(Skipped(inner), []);
      NoneDerives(s, Skipped(inner), SkipSpace(inner), finite);
    } else {
      SpaceBeforeMembers(inner, finite, []);
      var pairs := PairsDerive(inner, finite, []);
      t := Mapping([], pairs);
      PairsCompose(s, pairs, ParseMembers(inner, finite, []).rest, finite);
    }
  }

  /** The pair that `ParseMember` read, up to the value's end. */
  lemma {:induction false} MemberDerives(s: bytes, finite: bytes -> bool) returns (q: Pair)
    requires ParseMember(s, finite).Ok?
    ensures Keyed(q) && AllSupported(q.key) && q.value.after == []
    ensures Grammatical(q.value.tree) && Supported(q.value.tree, finite)
    ensures var r := ParseMember(s, finite);
            && s == PadPair(q, Spelling(q.value.tree)) + r.rest
            && r.value == Member(CharsMeaning(q.key), Meaning(q.value.tree))
    decreases |s|, 2
  {
    hide ParseValue, ParseString, Spelling, Meaning, Grammatical, Supported, SkipSpace, Quotes, CharsMeaning,
         AllSpaces, AllChars, AllSupported, PadPair, Skipped;
    var k := SkipSpace(s);
    SkippedIsSpace(s);
    var chars := StringDerives(k);
    var after := ParseString(k).rest;
    var c := SkipSpace(after);
    SkippedIsSpace(after);
    var t := ValueDerives(c[1..], finite);
    var rest := ParseMember(s, finite).rest;
    SkippedIsSpace(c[1..]);
    NoSpaces();
    q := Pair(Skipped(s), chars, Skipped(after), Padded(Skipped(c[1..]), t, []));
    assert c == [COLON] + c[1..];
    PairSpells(q, Spelling(t), rest);
  }

  lemma NoSpaces()
    ensures AllSpaces([])
  {
  }

  lemma PairSpells(q: Pair, text: bytes, rest: bytes)
    requires q.value.after == []
    ensures PadPair(q, text) + rest
         == q.before + (Quotes(q.key) + (q.between + ([COLON] + (q.value.before + (text + rest)))))
  {
    hide Quotes;
    var a, b, c, d := q.before, Quotes(q.key), q.between, q.value.before;
    assert PadPair(q, text) == a + b + c + [COLON] + (d + text);
    Reassemble(a, b, c, [COLON] + (d + (text + rest)));
  }

  function PairsAfterFirst(pairs: seq<Pair>, close: bytes): bytes
    requires pairs != []
  {
    if |pairs| == 1 then close else [COMMA] + (PairsSpelling(pairs[1..]) + close)
  }

  lemma PairsSplit(pairs: seq<Pair>, close: bytes)
    requires pairs != []
    ensures PairsSpelling(pairs) + close
         == PadPair(pairs[0], Spelling(pairs[0].value.tree)) + PairsAfterFirst(pairs, close)
  {
    hide PadPair, Spelling;
    if |pairs| > 1 {
      ConcatAssociates([COMMA], PairsSpelling(pairs[1..]), close);
    }
  }

  lemma PadAfter(q: Pair, after: bytes, u: bytes, text: bytes)
    requires q.value.after == []
    ensures PadPair(q, text) + (after + u) == PadPair(q.(value := q.value.(after := after)), text) + u
  {
  }

  lemma {:induction false} PairsDerive(s: bytes, finite: bytes -> bool, done: seq<Member>) returns (pairs: seq<Pair>)
    requires ParseMembers(s, finite, done).Ok?
    ensures pairs != [] && GrammaticalPairs(pairs) && SupportedPairs(pairs, finite)
    ensures DistinctKeys(pairs) && NewKeys(done, pairs)
    ensures var r := ParseMembers(s, finite, done);
            && s == PairsSpelling(pairs) + ([CLOSE_BRACE] + r.rest)
            && r.value == Obj(PairsMeaning(done, pairs))
    decreases |s|, 3
  {
    hide ParseMember, ParseMembers, Spelling, Meaning, Grammatical, Supported, SkipSpace, AllSpaces, PadPair,
         HasKey, Insert;
    MembersAt(s, finite, done);
    var p := ParseMember(s, finite);
    var q := MemberDerives(s, finite);
    SkippedIsSpace(p.rest);
    var u := SkipSpace(p.rest);
    PadAfter(q, Skipped(p.rest), u, Spelling(q.value.tree));
    q := q.(value := q.value.(after := Skipped(p.rest)));
    if Starts(u, CLOSE_BRACE) {
      pairs := [q];
      assert u == [CLOSE_BRACE] + u[1..] && pairs[1..] == [];
      PairsSplit(pairs, u);
    } else {
      var later := PairsDerive(u[1..], finite, Insert(done, p.value));
      pairs := [q] + later;
      assert pairs[1..] == later && u == [COMMA] + u[1..];
      PairsSplit(pairs, [CLOSE_BRACE] + ParseMembers(s, finite, done).rest);
      NewKeysGrow(done, p.value, later);
    }
    NewKeysCons(done, pairs);
  }

  lemma NewKeysCons(done: seq<Member>, pairs: seq<Pair>)
    requires pairs != [] && GrammaticalPairs(pairs)
    requires !HasKey(done, CharsMeaning(pairs[0].key)) && NewKeys(done, pairs[1..])
    ensures NewKeys(done, pairs)
  {
    hide HasKey;
  }

  lemma NewKeysGrow(done: seq<Member>, m: Member, later: seq<Pair>)
    requires GrammaticalPairs(later) && NewKeys(Insert(done, m), later)
    ensures !KeyIn(later, m.key) && NewKeys(done, later)
  {
    hide HasKey, Insert, KeyIn;
    forall key | KeyIn(later, key)
      ensures key != m.key && !HasKey(done, key)
    {
      InsertKeys(done, m, key);
    }
  }

  // ---------- Documents ----------

  /** JSON-text = ws value ws: `doc` spells `s`, is supported and means `v`. */
  ghost predicate Document(s: bytes, doc: Padded, v: Value, finite: bytes -> bool) {
    && Spaced(doc) && Grammatical(doc.tree) && Supported(doc.tree, finite)
    && s == Pad(doc, Spelling(doc.tree)) && v == Meaning(doc.tree)
  }

  lemma DocumentDerives(s: bytes, finite: bytes -> bool) returns (doc: Padded)
    requires Parse(s, finite).Ok?
    ensures Document(s, doc, Parse(s, finite).value, finite)
  {
    hide ParseValue, Spelling, Meaning, Grammatical, Supported, SkipSpace, AllSpaces;
    SkipSpaceTwice(s);
    SpaceBeforeValue(SkipSpace(s), s, finite);
    var rest := ParseValue(s, finite).rest;
    var t := ValueDerives(s, finite);
    SkippedIsSpace(s);
    SkippedIsSpace(rest);
    doc := Padded(Skipped(s), t, Skipped(rest));
    Reassemble(Skipped(s), Spelling(t), Skipped(rest), []);
    assert Pad(doc, Spelling(t)) + [] == Pad(doc, Spelling(t));
  }

  lemma DocumentParses(s: bytes, doc: Padded, v: Value, finite: bytes -> bool)
    requires Document(s, doc, v, finite)
    ensures Parse(s, finite) == Ok(v, [])
  {
    hide ParseValue, Spelling, Meaning, Grammatical, Supported, SkipSpace, AllSpaces, Pad;
    SkipSpaceTwice(s);
    SpaceBeforeValue(SkipSpace(s), s, finite);
    PaddedParses(doc, [], finite);
    assert s + [] == s && doc.after + [] == doc.after;
  }

  /** A text parses to a value exactly when the grammar derives it, as a supported document of that
      meaning. */
  lemma DocumentExactly(s: bytes, v: Value, finite: bytes -> bool)
    ensures Parse(s, finite) == Ok(v, []) <==> exists doc :: Document(s, doc, v, finite)
  {
    hide Parse, Document;
    if Parse(s, finite) == Ok(v, []) {
      var doc := DocumentDerives(s, finite);
    }
    if doc :| Document(s, doc, v, finite) {
      DocumentParses(s, doc, v, finite);
    }
  }
}
