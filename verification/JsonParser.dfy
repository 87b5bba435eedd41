/**
 The parser object, which advances a position and records the first error, and the printer's
 appending loops.
 */
module JsonParser {
  import opened Bytes
  import opened Utf16
  import opened Json

  datatype ParseError = ParseError(message: string, at: int)

  class Parser {
    const input: bytes
    /** Whether a number token converts to a finite double. */
    const finite: bytes -> bool
    var position: nat
    var error: Option<ParseError>

    constructor (input: bytes, finite: bytes -> bool)
      ensures this.input == input && this.finite == finite && position == 0 && error == None
    {
      this.input, this.finite := input, finite;
      position, error := 0, None;
    }

    ghost predicate Valid()
      reads this
    {
      position <= |input| && error.None?
    }

    ghost function Rest(): bytes
      requires position <= |input|
      reads this
    {
      input[position..]
    }

    /** `result` and the parser's state are what `spec` says. */
    ghost predicate Agrees<T>(result: Option<T>, spec: Parsed<T>)
      reads this
    {
      && position <= |input|
      && match spec
         case Ok(v, rest) => result == Some(v) && error.None? && Rest() == rest
         case Err(message, left) => result.None? && error == Some(ParseError(message, |input| - left))
    }

    method SetError(message: string)
      requires Valid()
      modifies this`error
      ensures error == Some(ParseError(message, position))
    {
      error := Some(ParseError(message, position));
    }

    method SkipSpaces()
      requires Valid()
      modifies this`position
      ensures Valid() && Rest() == SkipSpace(old(Rest())) && position >= old(position)
    {
      while position < |input| && Space(input[position])
        invariant Valid() && SkipSpace(Rest()) == SkipSpace(old(Rest())) && position >= old(position)
      {
        assert Rest()[1..] == input[position + 1..];
        position := position + 1;
      }
    }

    method Consume(c: byte) returns (ok: bool)
      requires Valid()
      modifies this`position
      ensures Valid() && ok == Starts(old(Rest()), c)
      ensures if ok then Rest() == old(Rest())[1..] else position == old(position)
      ensures position >= old(position)
    {
      if position >= |input| || input[position] != c {
        return false;
      }
      assert Rest()[1..] == input[position + 1..];
      position := position + 1;
      return true;
    }

    method ParseLiteral(spelling: bytes, v: Value) returns (r: Option<Value>)
      requires Valid()
      modifies this
      ensures Agrees(r, Literal(old(Rest()), spelling, v))
    {
      if position + |spelling| > |input| || input[position..position + |spelling|] != spelling {
        assert position + |spelling| <= |input| ==>
            Rest()[..|spelling|] == input[position..position + |spelling|];
        SetError("invalid literal");
        return None;
      }
      assert Rest()[..|spelling|] == input[position..position + |spelling|];
      assert Rest()[|spelling|..] == input[position + |spelling|..];
      position := position + |spelling|;
      return Some(v);
    }

    method ParseHex4() returns (r: Option<nat>)
      requires Valid()
      modifies this
      ensures Agrees(r, Hex4(old(Rest()))) && position >= old(position)
    {
      if |input| - position < 4 {
        SetError("short unicode escape");
        return None;
      }
      var value, i := 0, 0;
      while i < 4
        invariant 0 <= i <= 4 && Valid() && 4 - i <= |Rest()| && position >= old(position)
        invariant Hex4(old(Rest())) == Hex(Rest(), 4 - i, value)
      {
        var digit := HexValue(input[position]);
        assert Rest()[1..] == input[position + 1..];
        position := position + 1;
        if digit.None? {
          SetError("invalid unicode escape");
          return None;
        }
        value := 16 * value + digit.value;
        i := i + 1;
      }
      return Some(value);
    }

    /** One character of a string body: the loop's turn between two reads of `position`. */
    method ParseChar() returns (r: Option<bytes>)
      requires Valid() && position < |input| && input[position] != QUOTE
      modifies this
      ensures Agrees(r, Char(old(Rest()))) && position > old(position)
    {
      var c := input[position];
      ghost var s := Rest();
      position := position + 1;
      if c < 0x20 {
        SetError("control byte in string");
        return None;
      }
      if c != BACKSLASH {
        return Some([c]);
      }
      if position >= |input| {
        SetError("unterminated escape");
        return None;
      }
      var e := input[position];
      position := position + 1;
      assert Rest() == s[2..];
      if e == 0x75 {
        var codepoint := ParseHex4();
        if codepoint.None? {
          return None;
        }
        HexBound(s[2..], 4, 0, 1);
        assert Shifted(0x100, 2) == Shifted(0x1000, 1) == 0x1_0000;
        if 0xD800 <= codepoint.value <= 0xDFFF {
          SetError("UTF-16 surrogate escapes are unsupported");
          return None;
        }
        return Some(AppendUtf8(codepoint.value));
      }
      var simple := SimpleEscape(e);
      if simple.None? {
        SetError("unknown escape");
        return None;
      }
      return Some([simple.value]);
    }

    method ParseText() returns (r: Option<bytes>)
      requires Valid()
      modifies this
      ensures Agrees(r, ParseString(old(Rest()))) && position >= old(position)
    {
      hide Char;
      var open := Consume(QUOTE);
      if !open {
        SetError("expected string");
        return None;
      }
      var output := [];
      while position < |input|
        invariant Valid() && ParseString(old(Rest())) == Body(Rest(), output) && position >= old(position)
        decreases |input| - position
      {
        if input[position] == QUOTE {
          assert Rest()[1..] == input[position + 1..];
          position := position + 1;
          return Some(output);
        }
        ghost var before := Rest();
        var more := ParseChar();
        if more.None? {
          return None;
        }
        output := output + more.value;
      }
      SetError("unterminated string");
      return None;
    }

    method SkipDigits()
      requires Valid()
      modifies this`position
      ensures Valid() && position == old(position) + DigitRun(old(Rest()))
    {
      while position < |input| && Digit(input[position])
        invariant Valid()
        invariant position + DigitRun(Rest()) == old(position) + DigitRun(old(Rest()))
      {
        assert Rest()[1..] == input[position + 1..];
        position := position + 1;
      }
    }

    /** The sign and integer digits of a number. */
    method ParseWhole() returns (ok: bool)
      requires Valid() && position < |input|
      modifies this
      ensures var spec := IntegerPart(old(Rest()));
              if spec.Ok? then ok && Valid() && position == old(position) + spec.value
              else !ok && position <= |input| && error == Some(ParseError(spec.message, |input| - spec.left))
    {
      ghost var s := Rest();
      if input[position] == MINUS {
        position := position + 1;
      }
      assert Rest() == s[if s[0] == MINUS then 1 else 0..];
      if position >= |input| {
        SetError("incomplete number");
        return false;
      }
      if input[position] == 0x30 {
        position := position + 1;
      } else {
        if !Digit(input[position]) {
          SetError("invalid number");
          return false;
        }
        SkipDigits();
      }
      return true;
    }

    method ParseFraction() returns (ok: bool)
      requires Valid()
      modifies this
      ensures var spec := Fraction(old(Rest()));
              if spec.Ok? then ok && Valid() && position == old(position) + spec.value
              else !ok && position <= |input| && error == Some(ParseError(spec.message, |input| - spec.left))
    {
      ghost var s := Rest();
      if position < |input| && input[position] == 0x2E {
        position := position + 1;
        assert Rest() == s[1..];
        var digits := position;
        SkipDigits();
        if digits == position {
          SetError("missing fractional digits");
          return false;
        }
      }
      return true;
    }

    method ParseExponent() returns (ok: bool)
      requires Valid()
      modifies this
      ensures var spec := Exponent(old(Rest()));
              if spec.Ok? then ok && Valid() && position == old(position) + spec.value
              else !ok && position <= |input| && error == Some(ParseError(spec.message, |input| - spec.left))
    {
      ghost var s := Rest();
      if position < |input| && (input[position] == 0x65 || input[position] == 0x45) {
        position := position + 1;
        assert Rest() == s[1..];
        if position < |input| && (input[position] == 0x2B || input[position] == MINUS) {
          position := position + 1;
          assert Rest() == s[2..];
        }
        var digits := position;
        SkipDigits();
        if digits == position {
          SetError("missing exponent digits");
          return false;
        }
      }
      return true;
    }

    /** The scan of a number, up to the token it leaves. */
    method Scan() returns (ok: bool, whole: nat)
      requires Valid() && position < |input|
      modifies this
      ensures var spec := ScanNumber(old(Rest()));
              if spec.Ok?
              then ok && Valid() && whole == spec.value.0 && position == old(position) + spec.value.1
              else !ok && position <= |input| && error == Some(ParseError(spec.message, |input| - spec.left))
    {
      hide IntegerPart, Fraction, Exponent;
      var start := position;
      whole := 0;
      ok := ParseWhole();
      if !ok {
        return;
      }
      whole := position - start;
      SlicesCompose(input, start, whole);
      ok := ParseFraction();
      if !ok {
        return;
      }
      SlicesCompose(input, start, position - start);
      ok := ParseExponent();
    }

    method ParseAnyNumber() returns (r: Option<Value>)
      requires Valid() && position < |input|
      modifies this
      ensures Agrees(r, ParseNumber(old(Rest()), finite))
    {
      hide ScanNumber, TokenValue;
      var start := position;
      var ok, whole := Scan();
      if !ok {
        return None;
      }
      SlicesCompose(input, start, position - start);
      var token := input[start..position];
      if position - start == whole && INT_MIN <= TokenValue(token) <= INT_MAX {
        return Some(Int(TokenValue(token)));
      }
      if !finite(token) {
        SetError("invalid or non-finite number");
        return None;
      }
      return Some(Real(token));
    }

    method ParseArray() returns (r: Option<Value>)
      requires Valid() && position < |input| && input[position] == OPEN_BRACKET
      modifies this
      ensures Agrees(r, ParseValue(old(Rest()), finite))
      decreases |input| - position, 0
    {
      hide ParseValue, ParseItems, SkipSpace;
      ghost var s := Rest();
      ArrayAt(s, finite);
      position := position + 1;
      assert Rest() == s[1..];
      SkipSpaces();
      var done := Consume(CLOSE_BRACKET);
      if done {
        return Some(Arr([]));
      }
      var items := [];
      while true
        invariant Valid() && position > old(position)
        invariant ParseValue(s, finite) == ParseItems(Rest(), finite, items)
        decreases |input| - position
      {
        ItemsAt(Rest(), finite, items);
        ghost var before := Rest();
        var v := ParseAny();
        if v.None? {
          return None;
        }
        items := items + [v.value];
        SkipSpaces();
        done := Consume(CLOSE_BRACKET);
        if done {
          return Some(Arr(items));
        }
        done := Consume(COMMA);
        if !done {
          SetError("expected ',' or ']'");
          return None;
        }
      }
    }

    method ParseObject() returns (r: Option<Value>)
      requires Valid() && position < |input| && input[position] == OPEN_BRACE
      modifies this
      ensures Agrees(r, ParseValue(old(Rest()), finite))
      decreases |input| - position, 0
    {
      hide ParseValue, ParseMember, ParseMembers, SkipSpace, HasKey;
      ghost var s := Rest();
      ObjectAt(s, finite);
      position := position + 1;
      assert Rest() == s[1..];
      SkipSpaces();
      var done := Consume(CLOSE_BRACE);
      if done {
        return Some(Obj([]));
      }
      var members := [];
      while true
        invariant Valid() && position > old(position)
        invariant ParseValue(s, finite) == ParseMembers(Rest(), finite, members)
        decreases |input| - position
      {
        MembersAt(Rest(), finite, members);
        var m := ParsePair();
        if m.None? {
          return None;
        }
        if HasKey(members, m.value.key) {
          SetError("duplicate object key");
          return None;
        }
        members := Insert(members, m.value);
        SkipSpaces();
        done := Consume(CLOSE_BRACE);
        if done {
          return Some(Obj(members));
        }
        done := Consume(COMMA);
        if !done {
          SetError("expected ',' or '}'");
          return None;
        }
      }
    }

    method ParsePair() returns (r: Option<Member>)
      requires Valid()
      modifies this
      ensures Agrees(r, ParseMember(old(Rest()), finite))
      decreases |input| - position, 2
    {
      hide ParseValue, ParseString, SkipSpace;
      SkipSpaces();
      var key := ParseText();
      if key.None? {
        return None;
      }
      SkipSpaces();
      var colon := Consume(COLON);
      if !colon {
        SetError("expected ':'");
        return None;
      }
      var v := ParseAny();
      if v.None? {
        return None;
      }
      return Some(Member(key.value, v.value));
    }

    method ParseAny() returns (r: Option<Value>)
      requires Valid()
      modifies this
      ensures Agrees(r, ParseValue(old(Rest()), finite))
      decreases |input| - position, 1
    {
      hide ParseItems, ParseMembers, ParseNumber, ParseString, Literal;
      ghost var s := Rest();
      SkipSpaces();
      SkipSpaceTwice(s);
      ghost var t := Rest();
      assert ParseValue(s, finite) == ParseValue(t, finite);
      if position >= |input| {
        SetError("unexpected end of JSON");
        return None;
      }
      var c := input[position];
      if c == OPEN_BRACE {
        r := ParseObject();
      } else if c == OPEN_BRACKET {
        r := ParseArray();
      } else if c == QUOTE {
        var text := ParseText();
        r := if text.Some? then Some(Str(text.value)) else None;
      } else if c == 0x74 {
        r := ParseLiteral(TRUE_TEXT, Bool(true));
      } else if c == 0x66 {
        r := ParseLiteral(FALSE_TEXT, Bool(false));
      } else if c == 0x6E {
        r := ParseLiteral(NULL_TEXT, Null);
      } else if c == MINUS || Digit(c) {
        r := ParseAnyNumber();
      } else {
        SetError("unexpected token");
        return None;
      }
    }

    /** `Parser::run`. */
    method ParseAll() returns (r: Option<Value>)
      requires Valid() && position == 0
      modifies this
      ensures var spec := Parse(input, finite);
              if spec.Ok? then r == Some(spec.value) && error.None?
              else r.None? && error == Some(ParseError(spec.message, |input| - spec.left))
    {
      hide ParseValue, SkipSpace;
      assert Rest() == input;
      SkipSpaces();
      r := ParseAny();
      if r.None? {
        return;
      }
      SkipSpaces();
      if position != |input| {
        SetError("trailing characters");
        return None;
      }
    }
  }

  // ---------- The printer ----------

  method EscapeText(text: bytes) returns (result: bytes)
    ensures result == Escape(text)
  {
    result := [];
    var i := 0;
    assert text[0..] == text;
    while i < |text|
      invariant i <= |text| && Escape(text) == result + Escape(text[i..])
    {
      assert text[i..][1..] == text[i + 1..];
      ConcatAssociates(result, EscapeByte(text[i]), Escape(text[i + 1..]));
      result := result + EscapeByte(text[i]);
      i := i + 1;
    }
    assert result + [] == result;
  }

  method AppendQuoted(text: bytes, out: bytes) returns (result: bytes)
    ensures result == out + Quoted(text)
  {
    var escaped := EscapeText(text);
    result := out + [QUOTE];
    result := result + escaped;
    result := result + [QUOTE];
  }

  /** `stringify_to`: appends the text of `v` to `out`. */
  method StringifyTo(v: Value, out: bytes) returns (result: bytes)
    ensures result == out + Text(v)
    decreases v, 1
  {
    hide Escape, Digits, ItemsText, MembersText;
    match v
    case Null => result := out + NULL_TEXT;
    case Bool(b) => result := out + if b then TRUE_TEXT else FALSE_TEXT;
    case Int(n) => result := out + Decimal(n);
    case Real(token) => result := out + token;
    case Str(s) => result := AppendQuoted(s, out);
    case Arr(items) =>
      result := AppendItems(items, out + [OPEN_BRACKET]);
      result := result + [CLOSE_BRACKET];
    case Obj(members) =>
      result := AppendMembers(members, out + [OPEN_BRACE]);
      result := result + [CLOSE_BRACE];
  }

  method AppendItems(items: seq<Value>, out: bytes) returns (result: bytes)
    ensures result == out + ItemsText(items)
    decreases items, 0
  {
    hide Text;
    result := out;
    var i := 0;
    assert items[0..] == items;
    ghost var sep: bytes := [];
    while i < |items|
      invariant i <= |items|
      invariant sep == if 0 < i < |items| then [COMMA] else []
      invariant out + ItemsText(items) == result + sep + ItemsText(items[i..])
    {
      assert items[i..][1..] == items[i + 1..];
      if i != 0 {
        result := result + [COMMA];
      }
      assert out + ItemsText(items) == result + ItemsText(items[i..]);
      var next := StringifyTo(items[i], result);
      sep := if i + 1 < |items| then [COMMA] else [];
      assert ItemsText(items[i..]) == Text(items[i]) + (sep + ItemsText(items[i + 1..]));
      result := next;
      i := i + 1;
    }
  }

  method AppendMember(m: Member, out: bytes) returns (result: bytes)
    ensures result == out + MemberText(m)
    decreases m, 2
  {
    hide Text, Quoted;
    result := AppendQuoted(m.key, out);
    result := result + [COLON];
    result := StringifyTo(m.value, result);
  }

  method AppendMembers(members: seq<Member>, out: bytes) returns (result: bytes)
    ensures result == out + MembersText(members)
    decreases members, 0
  {
    hide MemberText;
    result := out;
    var i := 0;
    assert members[0..] == members;
    ghost var sep: bytes := [];
    while i < |members|
      invariant i <= |members|
      invariant sep == if 0 < i < |members| then [COMMA] else []
      invariant out + MembersText(members) == result + sep + MembersText(members[i..])
    {
      assert members[i..][1..] == members[i + 1..];
      if i != 0 {
        result := result + [COMMA];
      }
      assert out + MembersText(members) == result + MembersText(members[i..]);
      var next := AppendMember(members[i], result);
      sep := if i + 1 < |members| then [COMMA] else [];
      assert MembersText(members[i..]) == MemberText(members[i]) + (sep + MembersText(members[i + 1..]));
      result := next;
      i := i + 1;
    }
  }

  // ---------- One unfolding each ----------

  lemma {:induction false} SkipSpaceTwice(s: bytes)
    ensures SkipSpace(SkipSpace(s)) == SkipSpace(s)
  {
    if s != [] && Space(s[0]) {
      SkipSpaceTwice(s[1..]);
    }
  }

  lemma ArrayAt(s: bytes, finite: bytes -> bool)
    requires Starts(s, OPEN_BRACKET)
    ensures var u := SkipSpace(s[1..]);
            ParseValue(s, finite)
            == if Starts(u, CLOSE_BRACKET) then Ok(Arr([]), u[1..]) else ParseItems(u, finite, [])
  {
  }

  lemma ObjectAt(s: bytes, finite: bytes -> bool)
    requires Starts(s, OPEN_BRACE)
    ensures var u := SkipSpace(s[1..]);
            ParseValue(s, finite)
            == if Starts(u, CLOSE_BRACE) then Ok(Obj([]), u[1..]) else ParseMembers(u, finite, [])
  {
  }

  lemma ItemsAt(s: bytes, finite: bytes -> bool, items: seq<Value>)
    ensures
      var p := ParseValue(s, finite);
      var r := ParseItems(s, finite, items);
      if p.Err? then r == Err(p.message, p.left)
      else
        var t, more := SkipSpace(p.rest), items + [p.value];
        r == if Starts(t, CLOSE_BRACKET) then Ok(Arr(more), t[1..])
             else if Starts(t, COMMA) then ParseItems(t[1..], finite, more)
             else Err("expected ',' or ']'", |t|)
  {
  }

  lemma MembersAt(s: bytes, finite: bytes -> bool, members: seq<Member>)
    ensures
      var p := ParseMember(s, finite);
      var r := ParseMembers(s, finite, members);
      if p.Err? then r == Err(p.message, p.left)
      else if HasKey(members, p.value.key) then r == Err("duplicate object key", |p.rest|)
      else
        var t, more := SkipSpace(p.rest), Insert(members, p.value);
        r == if Starts(t, CLOSE_BRACE) then Ok(Obj(more), t[1..])
             else if Starts(t, COMMA) then ParseMembers(t[1..], finite, more)
             else Err("expected ',' or '}'", |t|)
  {
  }
}
