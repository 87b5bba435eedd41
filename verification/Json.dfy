/**
 JSON values, the printer, and the grammar the parser follows, as functions on byte strings.
 */
module Json {
  import opened Bytes
  import opened Utf16

  const INT_MIN: int := -0x8000_0000_0000_0000
  const INT_MAX: int := 0x7FFF_FFFF_FFFF_FFFF

  /** `Real` keeps the token of a number that is read as a double. An object holds its members in
      key order, as the map in the source does. */
  datatype Value =
    | Null
    | Bool(flag: bool)
    | Int(number: int)
    | Real(token: bytes)
    | Str(text: bytes)
    | Arr(items: seq<Value>)
    | Obj(members: seq<Member>)

  datatype Member = Member(key: bytes, value: Value)

  // ---------- Printing ----------

  const NULL_TEXT: bytes := [0x6E, 0x75, 0x6C, 0x6C]
  const TRUE_TEXT: bytes := [0x74, 0x72, 0x75, 0x65]
  const FALSE_TEXT: bytes := [0x66, 0x61, 0x6C, 0x73, 0x65]
  const QUOTE: byte := 0x22
  const BACKSLASH: byte := 0x5C
  const COMMA: byte := 0x2C
  const COLON: byte := 0x3A
  const MINUS: byte := 0x2D
  const OPEN_BRACKET: byte := 0x5B
  const CLOSE_BRACKET: byte := 0x5D
  const OPEN_BRACE: byte := 0x7B
  const CLOSE_BRACE: byte := 0x7D

  function HexDigit(n: nat): byte
    requires n < 16
  {
    if n < 10 then 0x30 + n else 0x61 + (n - 10)
  }

  function EscapeByte(c: byte): (s: bytes)
    ensures s != []
  {
    if c == QUOTE then [BACKSLASH, QUOTE]
    else if c == BACKSLASH then [BACKSLASH, BACKSLASH]
    else if c == 0x08 then [BACKSLASH, 0x62]
    else if c == 0x0C then [BACKSLASH, 0x66]
    else if c == 0x0A then [BACKSLASH, 0x6E]
    else if c == 0x0D then [BACKSLASH, 0x72]
    else if c == 0x09 then [BACKSLASH, 0x74]
    else if c < 0x20 then [BACKSLASH, 0x75, 0x30, 0x30, HexDigit(c / 16), HexDigit(c % 16)]
    else [c]
  }

  function Escape(s: bytes): bytes {
    if s == [] then [] else EscapeByte(s[0]) + Escape(s[1..])
  }

  function Quoted(s: bytes): bytes { [QUOTE] + Escape(s) + [QUOTE] }

  function Decimal(n: int): bytes {
    if n < 0 then [MINUS] + Digits(-n) else Digits(n)
  }

  /** The doubles are left to the stream printer, which is not modelled: their token stands in. */
  function Text(v: Value): bytes
    decreases v, 1
  {
    match v
    case Null => NULL_TEXT
    case Bool(b) => if b then TRUE_TEXT else FALSE_TEXT
    case Int(n) => Decimal(n)
    case Real(token) => token
    case Str(s) => Quoted(s)
    case Arr(items) => [OPEN_BRACKET] + ItemsText(items) + [CLOSE_BRACKET]
    case Obj(members) => [OPEN_BRACE] + MembersText(members) + [CLOSE_BRACE]
  }

  function ItemsText(items: seq<Value>): bytes
    decreases items, 0
  {
    if items == [] then []
    else Text(items[0]) + if |items| == 1 then [] else [COMMA] + ItemsText(items[1..])
  }

  function MemberText(m: Member): bytes
    decreases m, 2
  {
    Quoted(m.key) + [COLON] + Text(m.value)
  }

  function MembersText(members: seq<Member>): bytes
    decreases members, 0
  {
    if members == [] then []
    else MemberText(members[0]) + if |members| == 1 then [] else [COMMA] + MembersText(members[1..])
  }

  // ---------- The grammar the parser follows ----------

  /** A parsed value and what follows it, or the first error and how many bytes were left. */
  datatype Parsed<+T> = Ok(value: T, rest: bytes) | Err(message: string, left: nat)

  predicate Space(c: byte) { c == 0x20 || c == 0x0A || c == 0x0D || c == 0x09 }

  predicate Digit(c: byte) { 0x30 <= c <= 0x39 }

  predicate Starts(s: bytes, c: byte) { s != [] && s[0] == c }

  function SkipSpace(s: bytes): (t: bytes)
    ensures |t| <= |s|
  {
    if s != [] && Space(s[0]) then SkipSpace(s[1..]) else s
  }

  function Literal(s: bytes, spelling: bytes, v: Value): Parsed<Value> {
    if |s| >= |spelling| && s[..|spelling|] == spelling then Ok(v, s[|spelling|..])
    else Err("invalid literal", |s|)
  }

  function HexValue(c: byte): Option<nat> {
    if Digit(c) then Some(c as int - 0x30)
    else if 0x61 <= c <= 0x66 then Some(c as int - 0x61 + 10)
    else if 0x41 <= c <= 0x46 then Some(c as int - 0x41 + 10)
    else None
  }

  /** `count` hex digits after `sofar`. */
  function Hex(s: bytes, count: nat, sofar: nat): Parsed<nat>
    requires count <= |s|
  {
    if count == 0 then Ok(sofar, s)
    else
      match HexValue(s[0])
      case None => Err("invalid unicode escape", |s| - 1)
      case Some(d) => Hex(s[1..], count - 1, 16 * sofar + d)
  }

  function Hex4(s: bytes): Parsed<nat> {
    if |s| < 4 then Err("short unicode escape", |s|) else Hex(s, 4, 0)
  }

  function SimpleEscape(e: byte): Option<byte> {
    if e == QUOTE || e == BACKSLASH || e == 0x2F then Some(e)
    else if e == 0x62 then Some(0x08)
    else if e == 0x66 then Some(0x0C)
    else if e == 0x6E then Some(0x0A)
    else if e == 0x72 then Some(0x0D)
    else if e == 0x74 then Some(0x09)
    else None
  }

  /** One character of a string body at the head of `s`: what it appends and what follows. */
  function Char(s: bytes): (r: Parsed<bytes>)
    requires s != [] && s[0] != QUOTE
    ensures r.Ok? ==> |r.rest| < |s|
  {
    if s[0] < 0x20 then Err("control byte in string", |s| - 1)
    else if s[0] != BACKSLASH then Ok([s[0]], s[1..])
    else if |s| == 1 then Err("unterminated escape", 0)
    else if s[1] == 0x75 then
      var hex := Hex4(s[2..]);
      if hex.Err? then Err(hex.message, hex.left)
      else
        HexBound(s[2..], 4, 0, 1);
        assert Shifted(0x100, 2) == Shifted(0x1000, 1) == 0x1_0000;
        if 0xD800 <= hex.value <= 0xDFFF
        then Err("UTF-16 surrogate escapes are unsupported", |hex.rest|)
        else Ok(AppendUtf8(hex.value), hex.rest)
    else
      match SimpleEscape(s[1])
      case None => Err("unknown escape", |s| - 2)
      case Some(c) => Ok([c], s[2..])
  }

  lemma {:induction false} HexBound(s: bytes, count: nat, sofar: nat, limit: nat)
    requires count <= |s| && sofar < limit
    ensures var r := Hex(s, count, sofar); r.Ok? ==> |r.rest| == |s| - count && r.value < Shifted(limit, count)
  {
    if count != 0 && HexValue(s[0]).Some? {
      HexBound(s[1..], count - 1, 16 * sofar + HexValue(s[0]).value, 16 * limit);
    }
  }

  function Shifted(limit: nat, count: nat): nat
    decreases count
  {
    if count == 0 then limit else Shifted(16 * limit, count - 1)
  }

  /** A string body up to and including its closing quote, appended to `out`. */
  function Body(s: bytes, out: bytes): (r: Parsed<bytes>)
    ensures r.Ok? ==> |r.rest| < |s|
    decreases |s|
  {
    if s == [] then Err("unterminated string", 0)
    else if s[0] == QUOTE then Ok(out, s[1..])
    else
      match Char(s)
      case Err(message, left) => Err(message, left)
      case Ok(more, rest) => Body(rest, out + more)
  }

  function ParseString(s: bytes): (r: Parsed<bytes>)
    ensures r.Ok? ==> |r.rest| < |s|
  {
    if Starts(s, QUOTE) then Body(s[1..], []) else Err("expected string", |s|)
  }

  /** The number of leading digits. */
  function DigitRun(s: bytes): (n: nat)
    ensures n <= |s|
  {
    if s != [] && Digit(s[0]) then 1 + DigitRun(s[1..]) else 0
  }

  /** The end of a number's integer part in `s`, sign included. */
  function IntegerPart(s: bytes): (r: Parsed<nat>)
    requires s != []
    ensures r.Ok? ==> 1 <= r.value <= |s|
  {
    var sign := if s[0] == MINUS then 1 else 0;
    var body := s[sign..];
    if body == [] then Err("incomplete number", 0)
    else if body[0] == 0x30 then Ok(sign + 1, s[sign + 1..])
    else if !Digit(body[0]) then Err("invalid number", |body|)
    else Ok(sign + DigitRun(body), s[sign + DigitRun(body)..])
  }

  /** The length of a fraction at the head of `s`, or of an exponent; 0 when there is none. */
  function Fraction(s: bytes): (r: Parsed<nat>)
    ensures r.Ok? ==> r.value <= |s| && r.rest == s[r.value..]
  {
    if !Starts(s, 0x2E) then Ok(0, s)
    else if DigitRun(s[1..]) == 0 then Err("missing fractional digits", |s| - 1)
    else Ok(1 + DigitRun(s[1..]), s[1 + DigitRun(s[1..])..])
  }

  function Exponent(s: bytes): (r: Parsed<nat>)
    ensures r.Ok? ==> r.value <= |s| && r.rest == s[r.value..]
  {
    if !Starts(s, 0x65) && !Starts(s, 0x45) then Ok(0, s)
    else
      var sign := if Starts(s[1..], 0x2B) || Starts(s[1..], MINUS) then 1 else 0;
      var run := DigitRun(s[1 + sign..]);
      if run == 0 then Err("missing exponent digits", |s| - 1 - sign)
      else Ok(1 + sign + run, s[1 + sign + run..])
  }

  function DigitsValue(s: bytes): int {
    if s == [] then 0 else 10 * DigitsValue(s[..|s| - 1]) + (s[|s| - 1] as int - 0x30)
  }

  /** The integer a sign and digits denote. */
  function TokenValue(token: bytes): int {
    if Starts(token, MINUS) then -DigitsValue(token[1..]) else DigitsValue(token)
  }

  /** The length of a number's integer part, and of the whole number. */
  function ScanNumber(s: bytes): (r: Parsed<(nat, nat)>)
    requires s != []
    ensures r.Ok? ==> 1 <= r.value.0 <= r.value.1 <= |s| && r.rest == s[r.value.1..]
  {
    var whole := IntegerPart(s);
    if whole.Err? then Err(whole.message, whole.left)
    else
      var fraction := Fraction(s[whole.value..]);
      if fraction.Err? then Err(fraction.message, fraction.left)
      else
        var exponent := Exponent(s[whole.value + fraction.value..]);
        if exponent.Err? then Err(exponent.message, exponent.left)
        else
          var end := whole.value + fraction.value + exponent.value;
          Ok((whole.value, end), s[end..])
  }

  /** `finite(token)` says that the token converts to a finite double. */
  function ParseNumber(s: bytes, finite: bytes -> bool): (r: Parsed<Value>)
    requires s != []
    ensures r.Ok? ==> |r.rest| < |s|
  {
    match ScanNumber(s)
    case Err(message, left) => Err(message, left)
    case Ok((whole, end), rest) =>
      var token := s[..end];
      if end == whole && INT_MIN <= TokenValue(token) <= INT_MAX then Ok(Int(TokenValue(token)), rest)
      else if finite(token) then Ok(Real(token), rest)
      else Err("invalid or non-finite number", |rest|)
  }

  /** Byte order on keys. */
  predicate Less(a: bytes, b: bytes) {
    b != [] && (a == [] || a[0] < b[0] || (a[0] == b[0] && Less(a[1..], b[1..])))
  }

  predicate HasKey(members: seq<Member>, key: bytes) {
    exists i | 0 <= i < |members| :: members[i].key == key
  }

  /** The map after an emplace of a new key. */
  function Insert(members: seq<Member>, m: Member): seq<Member> {
    if members == [] || Less(m.key, members[0].key) then [m] + members
    else [members[0]] + Insert(members[1..], m)
  }

  function ParseValue(s: bytes, finite: bytes -> bool): (r: Parsed<Value>)
    ensures r.Ok? ==> |r.rest| < |s|
    decreases |s|, 1
  {
    var t := SkipSpace(s);
    if t == [] then Err("unexpected end of JSON", 0)
    else if t[0] == OPEN_BRACE then
      var u := SkipSpace(t[1..]);
      if Starts(u, CLOSE_BRACE) then Ok(Obj([]), u[1..]) else ParseMembers(u, finite, [])
    else if t[0] == OPEN_BRACKET then
      var u := SkipSpace(t[1..]);
      if Starts(u, CLOSE_BRACKET) then Ok(Arr([]), u[1..]) else ParseItems(u, finite, [])
    else if t[0] == QUOTE then
      match ParseString(t)
      case Err(message, left) => Err(message, left)
      case Ok(text, rest) => Ok(Str(text), rest)
    else if t[0] == 0x74 then Literal(t, TRUE_TEXT, Bool(true))
    else if t[0] == 0x66 then Literal(t, FALSE_TEXT, Bool(false))
    else if t[0] == 0x6E then Literal(t, NULL_TEXT, Null)
    else if t[0] == MINUS || Digit(t[0]) then ParseNumber(t, finite)
    else Err("unexpected token", |t|)
  }

  function ParseItems(s: bytes, finite: bytes -> bool, items: seq<Value>): (r: Parsed<Value>)
    ensures r.Ok? ==> |r.rest| < |s|
    decreases |s|, 2
  {
    match ParseValue(s, finite)
    case Err(message, left) => Err(message, left)
    case Ok(v, after) =>
      var t := SkipSpace(after);
      if Starts(t, CLOSE_BRACKET) then Ok(Arr(items + [v]), t[1..])
      else if Starts(t, COMMA) then ParseItems(t[1..], finite, items + [v])
      else Err("expected ',' or ']'", |t|)
  }

  /** One `"key": value` with the space around it skipped as the loop does. */
  function ParseMember(s: bytes, finite: bytes -> bool): (r: Parsed<Member>)
    ensures r.Ok? ==> |r.rest| < |s|
    decreases |s|, 2
  {
    match ParseString(SkipSpace(s))
    case Err(message, left) => Err(message, left)
    case Ok(key, after) =>
      var t := SkipSpace(after);
      if !Starts(t, COLON) then Err("expected ':'", |t|)
      else
        match ParseValue(t[1..], finite)
        case Err(message, left) => Err(message, left)
        case Ok(v, rest) => Ok(Member(key, v), rest)
  }

  function ParseMembers(s: bytes, finite: bytes -> bool, members: seq<Member>): (r: Parsed<Value>)
    ensures r.Ok? ==> |r.rest| < |s|
    decreases |s|, 3
  {
    match ParseMember(s, finite)
    case Err(message, left) => Err(message, left)
    case Ok(m, after) =>
      if HasKey(members, m.key) then Err("duplicate object key", |after|)
      else
        var t := SkipSpace(after);
        if Starts(t, CLOSE_BRACE) then Ok(Obj(Insert(members, m)), t[1..])
        else if Starts(t, COMMA) then ParseMembers(t[1..], finite, Insert(members, m))
        else Err("expected ',' or '}'", |t|)
  }

  function Parse(s: bytes, finite: bytes -> bool): Parsed<Value> {
    match ParseValue(SkipSpace(s), finite)
    case Err(message, left) => Err(message, left)
    case Ok(v, after) =>
      var t := SkipSpace(after);
      if t == [] then Ok(v, []) else Err("trailing characters", |t|)
  }
}
