/**
 The control line printer and the slash-command tokenizer undo each other.
 */
module CommandLine {
  import opened Bytes

  const MAX_LINE: nat := 2048
  const MAX_TOKEN: nat := 512
  const MAX_TOKENS: nat := 32
  const MAX_ARGS: nat := 32
  const MAX_NAME: nat := 32
  const SLASH: byte := 0x2F
  const SPACE: byte := 0x20
  const TAB: byte := 0x09
  const QUOTE: byte := 0x22
  const BACKSLASH: byte := 0x5C

  predicate Control(c: byte) { c == 0 || (c < 0x20 && c != TAB) }

  // ---------- Printing ----------

  function EscapeArg(s: bytes): bytes {
    if s == [] then []
    else (if s[0] == BACKSLASH || s[0] == QUOTE then [BACKSLASH, s[0]] else [s[0]]) + EscapeArg(s[1..])
  }

  function ArgText(arg: bytes): bytes { [SPACE, QUOTE] + EscapeArg(arg) + [QUOTE] }

  function ArgsText(args: seq<bytes>): bytes {
    if args == [] then [] else ArgText(args[0]) + ArgsText(args[1..])
  }

  function LineText(command: bytes, args: seq<bytes>): bytes {
    [SLASH] + command + ArgsText(args)
  }

  predicate CleanArg(arg: bytes) {
    |arg| <= 512 && forall i | 0 <= i < |arg| :: !Control(arg[i])
  }

  /** What `control_command_line` accepts. */
  predicate Accepted(command: bytes, args: seq<bytes>) {
    && command != [] && |command| <= 32 && |args| <= 32
    && (forall i | 0 <= i < |args| :: CleanArg(args[i]))
    && |LineText(command, args)| <= 2048
  }

  method AppendArg(line: bytes, arg: bytes) returns (ok: bool, result: bytes)
    ensures ok == CleanArg(arg)
    ensures ok ==> result == line + ArgText(arg)
  {
    result := line;
    if |arg| > MAX_TOKEN {
      return false, line;
    }
    result := result + [SPACE, QUOTE];
    var i := 0;
    assert arg[0..] == arg;
    while i < |arg|
      invariant i <= |arg| && forall j | 0 <= j < i :: !Control(arg[j])
      invariant result + EscapeArg(arg[i..]) == line + [SPACE, QUOTE] + EscapeArg(arg)
    {
      var c := arg[i];
      if Control(c) {
        return false, line;
      }
      assert arg[i..][1..] == arg[i + 1..];
      if c == BACKSLASH || c == QUOTE {
        result := result + [BACKSLASH];
      }
      result := result + [c];
      i := i + 1;
    }
    assert result == line + [SPACE, QUOTE] + EscapeArg(arg);
    result := result + [QUOTE];
    return true, result;
  }

  method ControlCommandLine(command: bytes, args: seq<bytes>) returns (line: Option<bytes>)
    ensures line == if Accepted(command, args) then Some(LineText(command, args)) else None
  {
    hide EscapeArg, CleanArg, ArgText;
    if command == [] || |command| > MAX_NAME || |args| > MAX_ARGS {
      return None;
    }
    var text := [SLASH] + command;
    var i := 0;
    assert args[0..] == args;
    while i < |args|
      invariant i <= |args| && forall j | 0 <= j < i :: CleanArg(args[j])
      invariant text + ArgsText(args[i..]) == LineText(command, args)
    {
      assert args[i..][1..] == args[i + 1..];
      var ok, more := AppendArg(text, args[i]);
      if !ok {
        return None;
      }
      ConcatAssociates(text, ArgText(args[i]), ArgsText(args[i + 1..]));
      text := more;
      i := i + 1;
    }
    assert text + [] == text;
    if |text| > MAX_LINE {
      return None;
    }
    return Some(text);
  }

  // ---------- Tokenizing ----------

  /** The tokenizer's variables, or the error that ends it. */
  datatype Scan =
    | Scan(tokens: seq<bytes>, current: bytes, quoted: bool, escaped: bool)
    | Failed(error: string)

  function Flush(tokens: seq<bytes>, current: bytes): seq<bytes> {
    if current == [] then tokens else tokens + [current]
  }

  predicate IsSpace(c: byte) { c == SPACE || 0x09 <= c <= 0x0D }

  /** The effect of one byte on the scan, before the token count is checked. */
  function ScanByte(s: Scan, c: byte): Scan
    requires s.Scan?
  {
    if Control(c) then Failed("command contains a control byte")
    else if s.escaped then
      if c != BACKSLASH && c != QUOTE && c != SPACE then Failed("unsupported command escape")
      else s.(current := s.current + [c], escaped := false)
    else if c == BACKSLASH then s.(escaped := true)
    else if c == QUOTE then s.(quoted := !s.quoted)
    else if !s.quoted && IsSpace(c) then s.(tokens := Flush(s.tokens, s.current), current := [])
    else if |s.current| >= MAX_TOKEN then Failed("command token exceeds 512 bytes")
    else s.(current := s.current + [c])
  }

  function ScanAll(s: Scan, text: bytes): Scan
    decreases |text|
  {
    if s.Failed? || text == [] then s
    else
      var t := ScanByte(s, text[0]);
      if t.Scan? && |t.tokens| > MAX_TOKENS then Failed("command has too many arguments")
      else ScanAll(t, text[1..])
  }

  datatype Parsed = NotACommand | Bad(error: string) | Command(name: bytes, args: seq<bytes>)

  function ParseLine(text: bytes): Parsed {
    if text == [] || text[0] != SLASH then NotACommand
    else if |text| > MAX_LINE then Bad("command exceeds 2048 bytes")
    else Finish(ScanAll(Scan([], [], false, false), text[1..]))
  }

  function Finish(s: Scan): Parsed {
    match s
    case Failed(error) => Bad(error)
    case Scan(tokens, current, quoted, escaped) =>
      if escaped then Bad("trailing command escape")
      else if quoted then Bad("unterminated command quote")
      else
        var all := Flush(tokens, current);
        if all == [] then Bad("empty slash command") else Command(all[0], all[1..])
  }

  method ParseSlashCommand(text: bytes) returns (r: Parsed)
    ensures r == ParseLine(text)
  {
    if text == [] || text[0] != SLASH {
      return NotACommand;
    }
    if |text| > MAX_LINE {
      return Bad("command exceeds 2048 bytes");
    }
    var tokens, current, quoted, escaped := [], [], false, false;
    var i := 1;
    while i < |text|
      invariant 1 <= i <= |text|
      invariant ScanAll(Scan([], [], false, false), text[1..])
             == ScanAll(Scan(tokens, current, quoted, escaped), text[i..])
    {
      var c := text[i];
      assert text[i..][1..] == text[i + 1..];
      if c == 0 || (c < 0x20 && c != TAB) {
        return Bad("command contains a control byte");
      }
      if escaped {
        if c != BACKSLASH && c != QUOTE && c != SPACE {
          return Bad("unsupported command escape");
        }
        current := current + [c];
        escaped := false;
      } else if c == BACKSLASH {
        escaped := true;
      } else if c == QUOTE {
        quoted := !quoted;
      } else if !quoted && IsSpace(c) {
        tokens, current := Flush(tokens, current), [];
      } else {
        current := current + [c];
        if |current| > MAX_TOKEN {
          return Bad("command token exceeds 512 bytes");
        }
      }
      if |tokens| > MAX_TOKENS {
        return Bad("command has too many arguments");
      }
      i := i + 1;
    }
    if escaped || quoted {
      return Bad(if escaped then "trailing command escape" else "unterminated command quote");
    }
    tokens := Flush(tokens, current);
    if tokens == [] {
      return Bad("empty slash command");
    }
    return Command(tokens[0], tokens[1..]);
  }

  // ---------- The round trip ----------

  predicate Letter(c: byte) { 0x41 <= c <= 0x5A || 0x61 <= c <= 0x7A }

  predicate NameByte(c: byte) { Letter(c) || 0x30 <= c <= 0x39 || c == 0x5F || c == 0x2D }

  /** The router's grammar for command names. */
  predicate CommandName(name: bytes) {
    && 0 < |name| <= 32 && Letter(name[0])
    && forall i | 0 <= i < |name| :: NameByte(name[i])
  }

  lemma {:induction false} ScanConcat(s: Scan, a: bytes, b: bytes)
    ensures ScanAll(s, a + b) == ScanAll(ScanAll(s, a), b)
    decreases |a|
  {
    hide ScanByte;
    if a == [] {
      assert a + b == b;
    } else if s.Scan? {
      assert (a + b)[1..] == a[1..] + b;
      ScanConcat(ScanByte(s, a[0]), a[1..], b);
    }
  }

  lemma {:induction false} ScanName(s: Scan, name: bytes)
    requires s.Scan? && !s.quoted && !s.escaped && |s.tokens| <= MAX_TOKENS
    requires (forall i | 0 <= i < |name| :: NameByte(name[i])) && |s.current| + |name| <= MAX_TOKEN
    ensures ScanAll(s, name) == s.(current := s.current + name)
    decreases |name|
  {
    if name == [] {
      assert s.current + name == s.current;
    } else {
      var t := ScanByte(s, name[0]);
      assert t == s.(current := s.current + [name[0]]);
      ScanName(t, name[1..]);
      assert s.current + [name[0]] + name[1..] == s.current + name;
    }
  }

  lemma {:induction false} ScanEscaped(s: Scan, arg: bytes)
    requires s.Scan? && s.quoted && !s.escaped && |s.tokens| <= MAX_TOKENS
    requires (forall i | 0 <= i < |arg| :: !Control(arg[i])) && |s.current| + |arg| <= MAX_TOKEN
    ensures ScanAll(s, EscapeArg(arg)) == s.(current := s.current + arg)
    decreases |arg|
  {
    if arg == [] {
      assert s.current + arg == s.current;
    } else {
      var head := if arg[0] == BACKSLASH || arg[0] == QUOTE then [BACKSLASH, arg[0]] else [arg[0]];
      var t := s.(current := s.current + [arg[0]]);
      ScanOne(s, arg[0]);
      ScanConcat(s, head, EscapeArg(arg[1..]));
      ScanEscaped(t, arg[1..]);
      assert s.current + [arg[0]] + arg[1..] == s.current + arg;
    }
  }

  lemma ScanLast(s: Scan, c: byte)
    requires s.Scan? && ScanByte(s, c).Scan? && |ScanByte(s, c).tokens| <= MAX_TOKENS
    ensures ScanAll(s, [c]) == ScanByte(s, c)
  {
    hide ScanByte;
    assert [c][1..] == [];
    assert ScanAll(s, [c]) == ScanAll(ScanByte(s, c), []);
  }

  lemma ScanOne(s: Scan, c: byte)
    requires s.Scan? && s.quoted && !s.escaped && |s.tokens| <= MAX_TOKENS
    requires !Control(c) && |s.current| < MAX_TOKEN
    ensures ScanAll(s, if c == BACKSLASH || c == QUOTE then [BACKSLASH, c] else [c])
         == s.(current := s.current + [c])
  {
    if c == BACKSLASH || c == QUOTE {
      assert [BACKSLASH, c][1..] == [c];
      var t := s.(escaped := true);
      assert ScanAll(s, [BACKSLASH, c]) == ScanAll(t, [c]);
      assert ScanByte(t, c) == s.(current := s.current + [c]);
      ScanLast(t, c);
    } else {
      ScanLast(s, c);
    }
  }

  /** One printed argument flushes what came before it and becomes the current token. */
  lemma ScanArg(s: Scan, arg: bytes)
    requires s.Scan? && !s.quoted && !s.escaped && CleanArg(arg)
    requires |Flush(s.tokens, s.current)| <= MAX_TOKENS
    ensures ScanAll(s, ArgText(arg)) == Scan(Flush(s.tokens, s.current), arg, false, false)
  {
    hide EscapeArg;
    var flushed := Scan(Flush(s.tokens, s.current), [], true, false);
    assert ScanAll(s, [SPACE, QUOTE]) == flushed by {
      assert [SPACE, QUOTE][1..] == [QUOTE];
      var t := Scan(Flush(s.tokens, s.current), [], false, false);
      assert ScanByte(s, SPACE) == t && ScanByte(t, QUOTE) == flushed;
      assert ScanAll(s, [SPACE, QUOTE]) == ScanAll(t, [QUOTE]) == ScanAll(flushed, []);
    }
    ScanEscaped(flushed, arg);
    var full := flushed.(current := arg);
    assert [] + arg == arg;
    assert ScanAll(full, [QUOTE]) == full.(quoted := false);
    ScanConcat(s, [SPACE, QUOTE], EscapeArg(arg));
    ScanConcat(s, [SPACE, QUOTE] + EscapeArg(arg), [QUOTE]);
  }

  /** The arguments that leave a token: the empty ones do not. */
  function NonEmpty(args: seq<bytes>): (r: seq<bytes>)
    ensures |r| <= |args|
  {
    if args == [] then [] else (if args[0] == [] then [] else [args[0]]) + NonEmpty(args[1..])
  }

  lemma {:induction false} ScanArgs(s: Scan, args: seq<bytes>)
    requires s.Scan? && !s.quoted && !s.escaped
    requires forall i | 0 <= i < |args| :: CleanArg(args[i])
    requires |s.tokens| + |args| <= MAX_TOKENS
    ensures var t := ScanAll(s, ArgsText(args));
            && t.Scan? && !t.quoted && !t.escaped
            && Flush(t.tokens, t.current) == Flush(s.tokens, s.current) + NonEmpty(args)
    decreases |args|
  {
    hide ArgText, CleanArg, ScanByte;
    if args == [] {
      assert Flush(s.tokens, s.current) + [] == Flush(s.tokens, s.current);
    } else {
      var t := Scan(Flush(s.tokens, s.current), args[0], false, false);
      ScanArg(s, args[0]);
      ScanConcat(s, ArgText(args[0]), ArgsText(args[1..]));
      ScanArgs(t, args[1..]);
      var head := if args[0] == [] then [] else [args[0]];
      assert Flush(t.tokens, t.current) == Flush(s.tokens, s.current) + head;
      ConcatAssociates(Flush(s.tokens, s.current), head, NonEmpty(args[1..]));
    }
  }

  /** The printed line parses to the command and its non-empty arguments. */
  lemma PrintedLineParses(command: bytes, args: seq<bytes>)
    requires CommandName(command) && Accepted(command, args)
    ensures ParseLine(LineText(command, args)) == Command(command, NonEmpty(args))
  {
    hide ScanByte, CleanArg, ArgsText, NonEmpty;
    var start := Scan([], [], false, false);
    var line := LineText(command, args);
    assert line[1..] == command + ArgsText(args);
    ScanConcat(start, command, ArgsText(args));
    ScanName(start, command);
    assert [] + command == command;
    ScanArgs(Scan([], command, false, false), args);
    assert Flush([], command) + NonEmpty(args) == [command] + NonEmpty(args);
  }

  lemma {:induction false} NonEmptyIsAll(args: seq<bytes>)
    ensures NonEmpty(args) == args <==> forall i | 0 <= i < |args| :: args[i] != []
  {
    if args != [] {
      NonEmptyIsAll(args[1..]);
      assert args == [args[0]] + args[1..];
      if args[0] == [] {
        assert |NonEmpty(args)| < |args|;
      } else {
        assert NonEmpty(args)[1..] == NonEmpty(args[1..]);
        assert forall i | 0 <= i < |args| :: args[i] == if i == 0 then args[0] else args[1..][i - 1];
        assert (forall i | 0 <= i < |args| :: args[i] != []) ==>
            forall i | 0 <= i < |args[1..]| :: args[1..][i] == args[i + 1] != [];
      }
    }
  }

  /** Through the code's own loops: the arguments come back exactly when none is empty. */
  method PrintThenParse(command: bytes, args: seq<bytes>) returns (r: Parsed)
    requires CommandName(command) && Accepted(command, args)
    ensures r == Command(command, NonEmpty(args))
    ensures r == Command(command, args) <==> forall i | 0 <= i < |args| :: args[i] != []
  {
    hide Accepted, LineText, ParseLine, NonEmpty;
    var line := ControlCommandLine(command, args);
    PrintedLineParses(command, args);
    NonEmptyIsAll(args);
    r := ParseSlashCommand(line.value);
  }
}
