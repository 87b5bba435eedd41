/**
 Parsing what was printed gives the value back.
 */
module JsonRoundTrip {
  import opened Bytes
  import opened Utf16
  import opened Json
  import opened JsonParser

  /** Keys in strictly increasing byte order, as the map iterates them. */
  ghost predicate Sorted(members: seq<Member>) {
    forall i, j | 0 <= i < j < |members| :: Less(members[i].key, members[j].key)
  }

  /** A value the source can hold: int64 numbers and key-ordered objects throughout. */
  ghost predicate Canonical(v: Value)
    decreases v
  {
    match v
    case Int(n) => INT_MIN <= n <= INT_MAX
    case Arr(items) => forall i | 0 <= i < |items| :: Canonical(items[i])
    case Obj(members) => Sorted(members) && forall i | 0 <= i < |members| :: Canonical(members[i].value)
    case _ => true
  }

  ghost predicate WithoutDoubles(v: Value)
    decreases v
  {
    match v
    case Real(_) => false
    case Arr(items) => forall i | 0 <= i < |items| :: WithoutDoubles(items[i])
    case Obj(members) => forall i | 0 <= i < |members| :: WithoutDoubles(members[i].value)
    case _ => true
  }

  ghost predicate Exact(v: Value) { Canonical(v) && WithoutDoubles(v) }

  /** What may follow a value in a document; only a number cares. */
  predicate Follows(rest: bytes) {
    rest == [] || !(Digit(rest[0]) || rest[0] == 0x2E || rest[0] == 0x65 || rest[0] == 0x45)
  }

  // ---------- Strings (section 7 of RFC 8259) ----------

  lemma CharRoundTrip(c: byte, rest: bytes)
    ensures EscapeByte(c) + rest != [] && (EscapeByte(c) + rest)[0] != QUOTE
    ensures Char(EscapeByte(c) + rest) == Ok([c], rest)
  {
    var s := EscapeByte(c) + rest;
    if c < 0x20 && EscapeByte(c)[1] == 0x75 {
      assert s[2..] == [0x30, 0x30, HexDigit(c / 16), HexDigit(c % 16)] + rest;
      HexPair(c, rest);
    } else if |EscapeByte(c)| == 2 {
      assert s[1] == EscapeByte(c)[1] && s[2..] == rest;
    } else {
      assert s[1..] == rest;
    }
  }

  lemma HexPair(c: byte, rest: bytes)
    requires c < 0x20
    ensures Hex4([0x30, 0x30, HexDigit(c / 16), HexDigit(c % 16)] + rest) == Ok(c, rest)
  {
    var s: bytes := [0x30, 0x30, HexDigit(c / 16), HexDigit(c % 16)] + rest;
    assert s[1..][1..] == [HexDigit(c / 16), HexDigit(c % 16)] + rest;
    assert s[1..][1..][1..] == [HexDigit(c % 16)] + rest;
    assert s[1..][1..][1..][1..] == rest;
    assert Hex(s, 4, 0) == Hex(s[1..], 3, 0) == Hex(s[1..][1..], 2, 0);
    assert Hex(s[1..][1..], 2, 0) == Hex(s[1..][1..][1..], 1, c / 16);
    assert Hex(s[1..][1..][1..], 1, c / 16) == Hex(rest, 0, 16 * (c / 16) + c % 16);
  }

  lemma {:induction false} BodyRoundTrip(text: bytes, out: bytes, rest: bytes)
    ensures Body(Escape(text) + [QUOTE] + rest, out) == Ok(out + text, rest)
    decreases |text|
  {
    hide Char, EscapeByte;
    if text == [] {
      assert Escape(text) + [QUOTE] + rest == [QUOTE] + rest;
      assert ([QUOTE] + rest)[1..] == rest && out + text == out;
    } else {
      var tail := Escape(text[1..]) + [QUOTE] + rest;
      assert Escape(text) + [QUOTE] + rest == EscapeByte(text[0]) + tail;
      CharRoundTrip(text[0], tail);
      BodyRoundTrip(text[1..], out + [text[0]], rest);
      assert out + [text[0]] + text[1..] == out + text;
    }
  }

  lemma StringRoundTrip(text: bytes, rest: bytes)
    ensures ParseString(Quoted(text) + rest) == Ok(text, rest)
  {
    hide Body, Escape;
    BodyRoundTrip(text, [], rest);
    assert [] + text == text;
    assert (Quoted(text) + rest)[1..] == Escape(text) + [QUOTE] + rest;
  }

  // ---------- Integers (section 6 of RFC 8259) ----------

  lemma {:induction false} DigitsAreDigits(n: nat)
    ensures forall i | 0 <= i < |Digits(n)| :: Digit(Digits(n)[i])
    ensures DigitsValue(Digits(n)) == n
    ensures Digits(n)[0] == 0x30 <==> n == 0
    ensures n == 0 ==> |Digits(n)| == 1
  {
    if n >= 10 {
      DigitsAreDigits(n / 10);
      assert Digits(n)[..|Digits(n)| - 1] == Digits(n / 10);
    } else {
      assert DigitsValue(Digits(n)[..0]) == 0;
    }
  }

  lemma {:induction false} RunOfDigits(s: bytes, rest: bytes)
    requires (forall i | 0 <= i < |s| :: Digit(s[i])) && (rest == [] || !Digit(rest[0]))
    ensures DigitRun(s + rest) == |s|
  {
    if s == [] {
      assert s + rest == rest;
    } else {
      assert (s + rest)[1..] == s[1..] + rest;
      RunOfDigits(s[1..], rest);
    }
  }

  lemma IntegerRoundTrip(n: int, rest: bytes, finite: bytes -> bool)
    requires INT_MIN <= n <= INT_MAX && Follows(rest)
    ensures ParseNumber(Decimal(n) + rest, finite) == Ok(Int(n), rest)
  {
    hide IntegerPart, Decimal, TokenValue;
    var s, end := Decimal(n) + rest, |Decimal(n)|;
    WholeRoundTrip(n, rest);
    TokenRoundTrip(n);
    assert s[end..] == rest && s[..end] == Decimal(n);
    NothingFollows(rest);
    assert ScanNumber(s) == Ok((end, end), rest);
  }

  lemma TokenRoundTrip(n: int)
    ensures TokenValue(Decimal(n)) == n
  {
    DigitsAreDigits(if n < 0 then -n else n);
    assert n < 0 ==> Decimal(n)[1..] == Digits(-n);
  }

  lemma NothingFollows(rest: bytes)
    requires Follows(rest)
    ensures Fraction(rest) == Ok(0, rest) && Exponent(rest) == Ok(0, rest)
  {
  }

  lemma WholeRoundTrip(n: int, rest: bytes)
    requires Follows(rest)
    ensures var r := IntegerPart(Decimal(n) + rest); r.Ok? && r.value == |Decimal(n)|
  {
    hide DigitRun, Digits;
    var digits := Digits(if n < 0 then -n else n);
    DigitsAreDigits(if n < 0 then -n else n);
    RunOfDigits(digits, rest);
    if n < 0 {
      var s := [MINUS] + (digits + rest);
      assert Decimal(n) + rest == s && s[1..] == digits + rest;
    } else {
      assert (digits + rest)[0..] == digits + rest && (digits + rest)[0] == digits[0];
    }
  }

  // ---------- Values ----------

  lemma TextStart(v: Value, rest: bytes)
    requires Exact(v)
    ensures var s := Text(v) + rest;
            && s != [] && !Space(s[0]) && s[0] != CLOSE_BRACKET && s[0] != CLOSE_BRACE
            && (v.Arr? <==> s[0] == OPEN_BRACKET) && (v.Obj? <==> s[0] == OPEN_BRACE)
  {
    if v.Int? {
      DigitsAreDigits(if v.number < 0 then -v.number else v.number);
    }
  }

  lemma PlainRoundTrip(v: Value, rest: bytes, finite: bytes -> bool)
    requires Exact(v) && Follows(rest) && !v.Arr? && !v.Obj?
    ensures ParseValue(Text(v) + rest, finite) == Ok(v, rest)
  {
    hide ParseNumber, ParseString, Decimal, Quoted;
    var s := Text(v) + rest;
    TextStart(v, rest);
    assert SkipSpace(s) == s;
    match v
    case Null => assert s[..4] == NULL_TEXT && s[4..] == rest;
    case Bool(b) => assert s[..|Text(v)|] == Text(v) && s[|Text(v)|..] == rest;
    case Int(n) =>
      IntegerStart(n, rest);
      IntegerRoundTrip(n, rest, finite);
    case Str(text) =>
      QuotedStart(text, rest);
      StringRoundTrip(text, rest);
  }

  lemma IntegerStart(n: int, rest: bytes)
    ensures var s := Decimal(n) + rest; s[0] == MINUS || Digit(s[0])
  {
    DigitsAreDigits(if n < 0 then -n else n);
  }

  lemma QuotedStart(text: bytes, rest: bytes)
    ensures Starts(Quoted(text) + rest, QUOTE)
  {
  }

  lemma NoSpace(s: bytes)
    requires s == [] || !Space(s[0])
    ensures SkipSpace(s) == s
  {
  }

  /** Parsing undoes printing, whatever may follow the value. */
  lemma {:induction false} ValueRoundTrip(v: Value, rest: bytes, finite: bytes -> bool)
    requires Exact(v) && Follows(rest)
    ensures ParseValue(Text(v) + rest, finite) == Ok(v, rest)
    decreases v, 1
  {
    hide ParseValue, ParseItems, ParseMembers, ItemsText, MembersText;
    if v.Arr? {
      var body := ItemsText(v.items) + [CLOSE_BRACKET] + rest;
      assert Text(v) + rest == [OPEN_BRACKET] + body;
      ArrayAt([OPEN_BRACKET] + body, finite);
      assert ([OPEN_BRACKET] + body)[1..] == body;
      ItemsBody(v.items, rest, finite);
    } else if v.Obj? {
      var body := MembersText(v.members) + [CLOSE_BRACE] + rest;
      assert Text(v) + rest == [OPEN_BRACE] + body;
      ObjectAt([OPEN_BRACE] + body, finite);
      assert ([OPEN_BRACE] + body)[1..] == body;
      MembersBody(v.members, rest, finite);
    } else {
      PlainRoundTrip(v, rest, finite);
    }
  }

  lemma {:induction false} ItemsBody(items: seq<Value>, rest: bytes, finite: bytes -> bool)
    requires forall i | 0 <= i < |items| :: Exact(items[i])
    ensures var body := ItemsText(items) + [CLOSE_BRACKET] + rest;
            && SkipSpace(body) == body
            && if items == [] then Starts(body, CLOSE_BRACKET) && body[1..] == rest
               else !Starts(body, CLOSE_BRACKET) && ParseItems(body, finite, []) == Ok(Arr(items), rest)
    decreases items, 1
  {
    hide ParseValue, ParseItems, Text;
    var body := ItemsText(items) + [CLOSE_BRACKET] + rest;
    if items == [] {
      assert body == [CLOSE_BRACKET] + rest;
    } else {
      TextStart(items[0], body[|Text(items[0])|..]);
      assert body == Text(items[0]) + body[|Text(items[0])|..];
      ItemsRoundTrip(items, [], rest, finite);
      assert [] + items == items;
    }
  }

  lemma {:induction false} ItemsRoundTrip(items: seq<Value>, done: seq<Value>, rest: bytes,
                                          finite: bytes -> bool)
    requires items != [] && forall i | 0 <= i < |items| :: Exact(items[i])
    ensures ParseItems(ItemsText(items) + [CLOSE_BRACKET] + rest, finite, done)
         == Ok(Arr(done + items), rest)
    decreases items, 0
  {
    hide ParseValue, ParseItems, Text, SkipSpace, Exact;
    var s := ItemsText(items) + [CLOSE_BRACKET] + rest;
    ItemsAt(s, finite, done);
    if |items| == 1 {
      var tail := [CLOSE_BRACKET] + rest;
      assert s == Text(items[0]) + tail && tail[1..] == rest;
      NoSpace(tail);
      ValueRoundTrip(items[0], tail, finite);
      assert items == [items[0]];
    } else {
      var next := ItemsText(items[1..]) + [CLOSE_BRACKET] + rest;
      var tail := [COMMA] + next;
      assert s == Text(items[0]) + tail && tail[1..] == next;
      NoSpace(tail);
      ValueRoundTrip(items[0], tail, finite);
      ItemsRoundTrip(items[1..], done + [items[0]], rest, finite);
      assert done + [items[0]] + items[1..] == done + items;
    }
  }

  // ---------- Objects ----------

  lemma {:induction false} LessIsOneWay(a: bytes, b: bytes)
    requires Less(a, b)
    ensures !Less(b, a) && a != b
  {
    if a != [] && a[0] == b[0] {
      LessIsOneWay(a[1..], b[1..]);
    }
  }

  lemma {:induction false} InsertLast(members: seq<Member>, m: Member)
    requires forall i | 0 <= i < |members| :: Less(members[i].key, m.key)
    ensures Insert(members, m) == members + [m] && !HasKey(members, m.key)
  {
    forall i | 0 <= i < |members|
      ensures members[i].key != m.key && !Less(m.key, members[i].key)
    {
      LessIsOneWay(members[i].key, m.key);
    }
    if members != [] {
      InsertLast(members[1..], m);
    }
  }

  lemma {:induction false} MemberRoundTrip(m: Member, rest: bytes, finite: bytes -> bool)
    requires Exact(m.value) && Follows(rest)
    ensures ParseMember(MemberText(m) + rest, finite) == Ok(m, rest)
    decreases m, 2
  {
    hide ParseValue, ParseString, Text, Quoted;
    var tail := Text(m.value) + rest;
    var s := Quoted(m.key) + ([COLON] + tail);
    assert MemberText(m) + rest == s;
    QuotedStart(m.key, [COLON] + tail);
    assert SkipSpace(s) == s;
    StringRoundTrip(m.key, [COLON] + tail);
    assert SkipSpace([COLON] + tail) == [COLON] + tail && ([COLON] + tail)[1..] == tail;
    ValueRoundTrip(m.value, rest, finite);
  }

  lemma {:induction false} MembersBody(members: seq<Member>, rest: bytes, finite: bytes -> bool)
    requires Sorted(members) && forall i | 0 <= i < |members| :: Exact(members[i].value)
    ensures var body := MembersText(members) + [CLOSE_BRACE] + rest;
            && SkipSpace(body) == body
            && if members == [] then Starts(body, CLOSE_BRACE) && body[1..] == rest
               else !Starts(body, CLOSE_BRACE) && ParseMembers(body, finite, []) == Ok(Obj(members), rest)
    decreases members, 1
  {
    hide ParseMember, ParseMembers, Text;
    var body := MembersText(members) + [CLOSE_BRACE] + rest;
    if members == [] {
      assert body == [CLOSE_BRACE] + rest;
    } else {
      assert body[0] == Quoted(members[0].key)[0] == QUOTE;
      assert [] + members == members;
      MembersRoundTrip(members, [], rest, finite);
    }
  }

  lemma {:induction false} MembersRoundTrip(members: seq<Member>, done: seq<Member>, rest: bytes,
                                            finite: bytes -> bool)
    requires members != [] && Sorted(done + members)
    requires forall i | 0 <= i < |members| :: Exact(members[i].value)
    ensures ParseMembers(MembersText(members) + [CLOSE_BRACE] + rest, finite, done)
         == Ok(Obj(done + members), rest)
    decreases members, 0
  {
    hide ParseMember, ParseMembers, MemberText, MembersText, Less, HasKey, Insert, SkipSpace, Exact, Sorted;
    var m, close := members[0], [CLOSE_BRACE] + rest;
    var tail := if |members| == 1 then close else [COMMA] + (MembersText(members[1..]) + close);
    ConcatAssociates(MembersText(members), [CLOSE_BRACE], rest);
    ConcatAssociates(MembersText(members[1..]), [CLOSE_BRACE], rest);
    MembersSplit(members, close);
    MembersAt(MembersText(members) + close, finite, done);
    SortedNext(done, members);
    InsertLast(done, m);
    NoSpace(tail);
    MemberRoundTrip(m, tail, finite);
    assert tail[1..] == if |members| == 1 then rest else MembersText(members[1..]) + close;
    if |members| > 1 {
      MembersRoundTrip(members[1..], done + [m], rest, finite);
    }
  }

  lemma MembersSplit(members: seq<Member>, close: bytes)
    requires members != []
    ensures MembersText(members) + close
         == MemberText(members[0])
            + if |members| == 1 then close else [COMMA] + (MembersText(members[1..]) + close)
  {
    hide MemberText;
    if |members| > 1 {
      ConcatAssociates([COMMA], MembersText(members[1..]), close);
    }
  }

  lemma SortedNext(done: seq<Member>, members: seq<Member>)
    requires members != [] && Sorted(done + members)
    ensures done + [members[0]] + members[1..] == done + members
    ensures |members| == 1 ==> done + [members[0]] == done + members
    ensures forall i | 0 <= i < |done| :: Less(done[i].key, members[0].key)
  {
    hide Less;
    forall i | 0 <= i < |done|
      ensures Less(done[i].key, members[0].key)
    {
      assert (done + members)[i] == done[i] && (done + members)[|done|] == members[0];
    }
  }

  // ---------- The round trip ----------

  /** `parse(stringify(v)) == v` for every value without doubles. */
  lemma ParsePrinted(v: Value, finite: bytes -> bool)
    requires Exact(v)
    ensures Parse(Text(v), finite) == Ok(v, [])
  {
    hide ParseValue, Text;
    TextStart(v, []);
    ValueRoundTrip(v, [], finite);
    assert Text(v) + [] == Text(v);
  }

  /** The same through the code's own loops. */
  method StringifyThenParse(v: Value, finite: bytes -> bool) returns (r: Option<Value>)
    requires Exact(v)
    ensures r == Some(v)
  {
    hide Parse, Text;
    var text := StringifyTo(v, []);
    assert [] + Text(v) == Text(v);
    ParsePrinted(v, finite);
    var parser := new Parser(text, finite);
    r := parser.ParseAll();
  }

  // ---------- What the parser can return ----------

  lemma {:induction false} LessIsTotal(a: bytes, b: bytes)
    ensures Less(a, b) || a == b || Less(b, a)
  {
    if a != [] && b != [] && a[0] == b[0] {
      LessIsTotal(a[1..], b[1..]);
      assert a[1..] == b[1..] ==> a == [a[0]] + a[1..] == b;
    }
  }

  lemma {:induction false} LessIsTransitive(a: bytes, b: bytes, c: bytes)
    requires Less(a, b) && Less(b, c)
    ensures Less(a, c)
  {
    if a != [] && a[0] == b[0] == c[0] {
      LessIsTransitive(a[1..], b[1..], c[1..]);
    }
  }

  /** An emplace of a new key keeps the order and adds exactly that member. */
  lemma {:induction false} InsertSorted(members: seq<Member>, m: Member)
    requires Sorted(members) && !HasKey(members, m.key)
    ensures Sorted(Insert(members, m)) && multiset(Insert(members, m)) == multiset(members) + multiset{m}
  {
    if members == [] {
    } else if Less(m.key, members[0].key) {
      forall i | 0 <= i < |members|
        ensures Less(m.key, members[i].key)
      {
        if i > 0 {
          LessIsTransitive(m.key, members[0].key, members[i].key);
        }
      }
    } else {
      LessIsTotal(m.key, members[0].key);
      assert members == [members[0]] + members[1..];
      InsertSorted(members[1..], m);
      var rest := Insert(members[1..], m);
      forall i | 0 <= i < |rest|
        ensures Less(members[0].key, rest[i].key)
      {
        assert rest[i] in multiset(rest);
        assert rest[i] == m || rest[i] in members[1..];
      }
    }
  }

  lemma {:induction false} ParsedIsCanonical(s: bytes, finite: bytes -> bool)
    ensures var r := ParseValue(s, finite); r.Ok? ==> Canonical(r.value)
    decreases |s|, 1
  {
    hide ParseString, ParseNumber, ParseItems, ParseMembers, SkipSpace;
    var t := SkipSpace(s);
    if t != [] {
      var u := SkipSpace(t[1..]);
      if t[0] == OPEN_BRACE && !Starts(u, CLOSE_BRACE) {
        MembersAreCanonical(u, finite, []);
      } else if t[0] == OPEN_BRACKET && !Starts(u, CLOSE_BRACKET) {
        ItemsAreCanonical(u, finite, []);
      } else if t[0] == MINUS || Digit(t[0]) {
        NumberIsCanonical(t, finite);
      }
    }
  }

  lemma NumberIsCanonical(s: bytes, finite: bytes -> bool)
    requires s != []
    ensures var r := ParseNumber(s, finite); r.Ok? ==> Canonical(r.value)
  {
    hide ScanNumber, TokenValue;
  }

  lemma {:induction false} ItemsAreCanonical(s: bytes, finite: bytes -> bool, done: seq<Value>)
    requires forall i | 0 <= i < |done| :: Canonical(done[i])
    ensures var r := ParseItems(s, finite, done); r.Ok? ==> Canonical(r.value)
    decreases |s|, 2
  {
    hide ParseItems, ParseValue;
    ItemsAt(s, finite, done);
    ParsedIsCanonical(s, finite);
    var p := ParseValue(s, finite);
    if p.Ok? {
      var t := SkipSpace(p.rest);
      if Starts(t, COMMA) && !Starts(t, CLOSE_BRACKET) {
        ItemsAreCanonical(t[1..], finite, done + [p.value]);
      }
    }
  }

  lemma {:induction false} MembersAreCanonical(s: bytes, finite: bytes -> bool, done: seq<Member>)
    requires Canonical(Obj(done))
    ensures var r := ParseMembers(s, finite, done); r.Ok? ==> Canonical(r.value)
    decreases |s|, 3
  {
    hide ParseMembers, ParseMember, HasKey;
    MembersAt(s, finite, done);
    MemberIsCanonical(s, finite);
    var p := ParseMember(s, finite);
    if p.Ok? && !HasKey(done, p.value.key) {
      var more := Insert(done, p.value);
      InsertedIsCanonical(done, p.value);
      var t := SkipSpace(p.rest);
      if Starts(t, COMMA) && !Starts(t, CLOSE_BRACE) {
        MembersAreCanonical(t[1..], finite, more);
      }
    }
  }

  lemma InsertedIsCanonical(done: seq<Member>, m: Member)
    requires Canonical(Obj(done)) && Canonical(m.value) && !HasKey(done, m.key)
    ensures Canonical(Obj(Insert(done, m)))
  {
    hide Insert, HasKey;
    InsertSorted(done, m);
    var more := Insert(done, m);
    forall i | 0 <= i < |more|
      ensures Canonical(more[i].value)
    {
      assert more[i] in multiset(more);
      assert more[i] == m || more[i] in done;
    }
  }

  lemma {:induction false} MemberIsCanonical(s: bytes, finite: bytes -> bool)
    ensures var r := ParseMember(s, finite); r.Ok? ==> Canonical(r.value.value)
    decreases |s|, 2
  {
    hide ParseValue, ParseString;
    var key := ParseString(SkipSpace(s));
    if key.Ok? {
      var t := SkipSpace(key.rest);
      if Starts(t, COLON) {
        ParsedIsCanonical(t[1..], finite);
      }
    }
  }

  /** Printing is a normal form: whatever text was accepted, doubles apart, its reprint parses to
      the same value. */
  lemma ReprintParses(s: bytes, finite: bytes -> bool)
    requires Parse(s, finite).Ok? && WithoutDoubles(Parse(s, finite).value)
    ensures var v := Parse(s, finite).value; Parse(Text(v), finite) == Ok(v, [])
  {
    hide ParseValue, Text, Canonical, WithoutDoubles;
    ParsedIsCanonical(SkipSpace(s), finite);
    ParsePrinted(Parse(s, finite).value, finite);
  }
}
