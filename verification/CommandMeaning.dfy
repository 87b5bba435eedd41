/**
 What a slash-command line means, said of its characters and not of the tokenizer: unquoted, quoted
 and escaped letters, words between gaps, and the first flaw of a line that is refused.
 */
module CommandMeaning {
  import opened Bytes
  import opened CommandLine

  /** A line is written in these: a letter as it is, a letter behind a backslash, a quote, a gap. */
  datatype Mark = Plain(c: byte) | Escape(c: byte) | Quote | Gap(c: byte)

  function MarkText(mark: Mark): bytes {
    match mark
    case Plain(c) => [c]
    case Escape(c) => [0x5C, c]
    case Quote => [0x22]
    case Gap(c) => [c]
  }

  function Text(marks: seq<Mark>): bytes {
    if marks == [] then [] else Text(marks[..|marks| - 1]) + MarkText(marks[|marks| - 1])
  }

  // ---------- Words ----------

  function Letter(mark: Mark): bytes {
    match mark
    case Plain(c) => [c]
    case Escape(c) => [c]
    case _ => []
  }

  /** The letters up to the first gap. */
  function FirstWord(marks: seq<Mark>): bytes {
    if marks == [] || marks[0].Gap? then [] else Letter(marks[0]) + FirstWord(marks[1..])
  }

  /** What follows the first gap. */
  function AfterGap(marks: seq<Mark>): (rest: seq<Mark>)
    ensures marks != [] ==> |rest| < |marks|
  {
    if marks == [] then [] else if marks[0].Gap? then marks[1..] else AfterGap(marks[1..])
  }

  /** The words between gaps; those without a letter are dropped. */
  function Words(marks: seq<Mark>): seq<bytes>
    decreases |marks|
  {
    if marks == [] then []
    else (if FirstWord(marks) == [] then [] else [FirstWord(marks)]) + Words(AfterGap(marks))
  }

  // ---------- Well-written lines ----------

  function Quotes(marks: seq<Mark>): nat {
    if marks == [] then 0
    else Quotes(marks[..|marks| - 1]) + if marks[|marks| - 1].Quote? then 1 else 0
  }

  /** What comes next is between quotes. */
  predicate Inside(marks: seq<Mark>) { Quotes(marks) % 2 == 1 }

  /** The letters since the last gap. */
  function Open(marks: seq<Mark>): bytes {
    if marks == [] || marks[|marks| - 1].Gap? then []
    else Open(marks[..|marks| - 1]) + Letter(marks[|marks| - 1])
  }

  /** The words that a gap has ended. */
  function Ended(marks: seq<Mark>): seq<bytes> {
    if marks == [] then []
    else
      var before := marks[..|marks| - 1];
      Ended(before) + if marks[|marks| - 1].Gap? then Flushed(Open(before)) else []
  }

  function Flushed(word: bytes): seq<bytes> { if word == [] then [] else [word] }

  /** The mark can come next: a plain letter is no control byte, and no white space outside quotes; a
      word grows to 512 letters, escaped ones not counted against it; a gap ends at most the 32nd word. */
  predicate Follows(before: seq<Mark>, mark: Mark) {
    match mark
    case Plain(c) =>
      && (c >= 0x20 || c == 0x09) && c != 0x5C && c != 0x22 && |Open(before)| < 512
      && (Inside(before) || (c != 0x20 && c != 0x09))
    case Escape(c) => c == 0x5C || c == 0x22 || c == 0x20
    case Quote => true
    case Gap(c) => (c == 0x20 || c == 0x09) && !Inside(before) && (Open(before) != [] ==> |Ended(before)| < 32)
  }

  predicate Written(marks: seq<Mark>) {
    marks == [] ||
    (Written(marks[..|marks| - 1]) && Follows(marks[..|marks| - 1], marks[|marks| - 1]))
  }

  /** Why nothing can follow `marks` at the head of a non-empty `tail`; None if something can. */
  function Flaw(marks: seq<Mark>, tail: bytes): Option<string>
    requires tail != []
  {
    var c := tail[0];
    if c < 0x20 && c != 0x09 then Some("command contains a control byte")
    else if c == 0x5C then
      if |tail| == 1 then Some("trailing command escape")
      else if tail[1] < 0x20 && tail[1] != 0x09 then Some("command contains a control byte")
      else if tail[1] != 0x5C && tail[1] != 0x22 && tail[1] != 0x20 then Some("unsupported command escape")
      else None
    else if c == 0x22 then None
    else if (c == 0x20 || c == 0x09) && !Inside(marks) then
      if Open(marks) != [] && |Ended(marks)| == 32 then Some("command has too many arguments") else None
    else if |Open(marks)| >= 512 then Some("command token exceeds 512 bytes")
    else None
  }

  /** The line is written in `marks`, up to a `tail` that starts with a flaw or is empty. */
  predicate Reads(text: bytes, marks: seq<Mark>, tail: bytes) {
    text == Text(marks) + tail && Written(marks) && (tail != [] ==> Flaw(marks, tail).Some?)
  }

  /** What the line means. */
  function Meaning(marks: seq<Mark>, tail: bytes): Parsed
    requires tail != [] ==> Flaw(marks, tail).Some?
  {
    if tail != [] then Bad(Flaw(marks, tail).value)
    else if Inside(marks) then Bad("unterminated command quote")
    else if Words(marks) == [] then Bad("empty slash command")
    else Command(Words(marks)[0], Words(marks)[1..])
  }

  // ---------- Words, from either end ----------

  lemma {:induction false} GapSplits(a: seq<Mark>, b: seq<Mark>)
    requires a != [] && a[|a| - 1].Gap?
    ensures FirstWord(a + b) == FirstWord(a) && AfterGap(a + b) == AfterGap(a) + b
    ensures AfterGap(a) != [] ==> AfterGap(a)[|AfterGap(a)| - 1].Gap?
    decreases |a|
  {
    if a[0].Gap? {
      assert (a + b)[1..] == a[1..] + b;
    } else {
      assert (a + b)[1..] == a[1..] + b;
      GapSplits(a[1..], b);
    }
  }

  lemma {:induction false} WordsSplit(a: seq<Mark>, b: seq<Mark>)
    requires a != [] ==> a[|a| - 1].Gap?
    ensures Words(a + b) == Words(a) + Words(b)
    decreases |a|
  {
    if a == [] {
      assert a + b == b;
    } else {
      GapSplits(a, b);
      WordsSplit(AfterGap(a), b);
      var head := if FirstWord(a) == [] then [] else [FirstWord(a)];
      ConcatAssociates(head, Words(AfterGap(a)), Words(b));
    }
  }

  predicate NoGap(marks: seq<Mark>) { forall i | 0 <= i < |marks| :: !marks[i].Gap? }

  lemma {:induction false} OneWord(b: seq<Mark>, mark: Mark)
    requires NoGap(b)
    ensures FirstWord(b + [mark]) == FirstWord(b) + (if mark.Gap? then [] else Letter(mark))
    ensures AfterGap(b + [mark]) == [] && AfterGap(b) == []
    decreases |b|
  {
    if b == [] {
      assert b + [mark] == [mark] && [mark][1..] == [];
    } else {
      assert (b + [mark])[1..] == b[1..] + [mark];
      OneWord(b[1..], mark);
      ConcatAssociates(Letter(b[0]), FirstWord(b[1..]), if mark.Gap? then [] else Letter(mark));
    }
  }

  /** `b` is what follows the last gap: its letters are still open, the words of `a` have ended. */
  predicate Cut(p: seq<Mark>, a: seq<Mark>, b: seq<Mark>) {
    && p == a + b && (a != [] ==> a[|a| - 1].Gap?) && NoGap(b)
    && Open(p) == FirstWord(b) && Words(a) == Ended(p) && Words(p) == Ended(p) + Flushed(Open(p))
  }

  lemma {:induction false} LastGap(p: seq<Mark>) returns (a: seq<Mark>, b: seq<Mark>)
    ensures Cut(p, a, b)
    decreases |p|
  {
    if p == [] {
      a, b := [], [];
    } else {
      hide Cut;
      var before, mark := p[..|p| - 1], p[|p| - 1];
      a, b := LastGap(before);
      assert p == before + [mark];
      if mark.Gap? {
        GapEnds(before, a, b, mark);
        a, b := p, [];
      } else {
        LetterGrows(before, a, b, mark);
        b := b + [mark];
      }
    }
  }

  lemma GapEnds(before: seq<Mark>, a: seq<Mark>, b: seq<Mark>, mark: Mark)
    requires Cut(before, a, b) && mark.Gap?
    ensures var p := before + [mark]; Cut(p, p, [])
  {
    hide Words, FirstWord, Open, Ended, Flushed;
    var p := before + [mark];
    assert p[..|p| - 1] == before && p == p + [];
    OneMore(p);
    NothingOpen();
    assert p == a + (b + [mark]);
    WordsSplit(a, b + [mark]);
    LastWord(b, mark);
    assert FirstWord(b) + [] == FirstWord(b);
    assert Ended(p) + [] == Ended(p);
  }

  lemma LetterGrows(before: seq<Mark>, a: seq<Mark>, b: seq<Mark>, mark: Mark)
    requires Cut(before, a, b) && !mark.Gap?
    ensures var p := before + [mark]; Cut(p, a, b + [mark])
  {
    hide Words, FirstWord, Open, Ended, Flushed;
    var p := before + [mark];
    assert p[..|p| - 1] == before;
    OneMore(p);
    assert p == a + (b + [mark]);
    WordsSplit(a, b + [mark]);
    LastWord(b, mark);
    assert Ended(before) + [] == Ended(before);
  }

  lemma OneMore(p: seq<Mark>)
    requires p != []
    ensures var before, mark := p[..|p| - 1], p[|p| - 1];
            && Open(p) == (if mark.Gap? then [] else Open(before) + Letter(mark))
            && Ended(p) == Ended(before) + (if mark.Gap? then Flushed(Open(before)) else [])
  {
  }

  lemma NothingOpen()
    ensures Flushed([]) == [] && FirstWord([]) == []
  {
  }

  lemma LastWord(b: seq<Mark>, mark: Mark)
    requires NoGap(b)
    ensures Words(b + [mark]) == Flushed(FirstWord(b) + if mark.Gap? then [] else Letter(mark))
    ensures !mark.Gap? ==> FirstWord(b + [mark]) == FirstWord(b) + Letter(mark)
  {
    OneWord(b, mark);
    assert b + [mark] != [];
    assert Words(AfterGap(b + [mark])) == [];
    assert FirstWord(b) + [] == FirstWord(b);
  }

  // ---------- The tokenizer finds that meaning ----------

  const START := Scan([], [], false, false)

  lemma TextNext(marks: seq<Mark>, mark: Mark)
    ensures Text(marks + [mark]) == Text(marks) + MarkText(mark)
  {
    assert (marks + [mark])[..|marks|] == marks;
  }

  /** One more mark, scanned. */
  lemma MarkScans(s: Scan, before: seq<Mark>, mark: Mark)
    requires s.Scan? && !s.escaped && s.tokens == Ended(before) && |s.tokens| <= 32
    requires s.current == Open(before) && s.quoted == Inside(before) && Follows(before, mark)
    ensures ScanAll(s, MarkText(mark))
         == match mark
            case Plain(c) => s.(current := s.current + [c])
            case Escape(c) => s.(current := s.current + [c])
            case Quote => s.(quoted := !s.quoted)
            case Gap(_) => s.(tokens := Flush(s.tokens, s.current), current := [])
  {
    match mark
    case Plain(c) => ScanLast(s, c);
    case Escape(c) =>
      var t := s.(escaped := true);
      assert [0x5C, c][1..] == [c];
      assert ScanByte(s, 0x5C) == t;
      assert ScanAll(s, [0x5C, c]) == ScanAll(t, [c]);
      ScanLast(t, c);
    case Quote => ScanLast(s, 0x22);
    case Gap(c) => ScanLast(s, c);
  }

  lemma {:induction false} MarksScan(p: seq<Mark>)
    requires Written(p)
    ensures var s := ScanAll(START, Text(p));
            && s.Scan? && !s.escaped && s.quoted == Inside(p) && s.current == Open(p)
            && s.tokens == Ended(p) && |s.tokens| <= 32
    decreases |p|
  {
    hide ScanByte, Follows;
    if p != [] {
      var before, mark := p[..|p| - 1], p[|p| - 1];
      MarksScan(before);
      var s := ScanAll(START, Text(before));
      ScanConcat(START, Text(before), MarkText(mark));
      MarkScans(s, before, mark);
      assert Follows(before, mark) && Inside(p) == (if mark.Quote? then !Inside(before) else Inside(before));
    }
  }

  /** A flaw ends the scan, or is found at the end of the line, with its own error. */
  lemma FlawScans(s: Scan, p: seq<Mark>, tail: bytes)
    requires s.Scan? && !s.escaped && s.tokens == Ended(p) && |s.tokens| <= 32
    requires s.current == Open(p) && s.quoted == Inside(p)
    requires tail != [] && Flaw(p, tail).Some?
    ensures Finish(ScanAll(s, tail)) == Bad(Flaw(p, tail).value)
  {
    hide Inside, Open, Ended;
    var c := tail[0];
    if !Control(c) && c == 0x5C {
      var t := s.(escaped := true);
      assert ScanByte(s, c) == t;
      assert ScanAll(s, tail) == ScanAll(t, tail[1..]);
      if |tail| > 1 {
        assert tail[1..][0] == tail[1];
        FailsAtOnce(t, tail[1..]);
      }
    } else {
      FailsAtOnce(s, tail);
    }
  }

  lemma FailsAtOnce(s: Scan, tail: bytes)
    requires s.Scan? && tail != []
    ensures var t := ScanByte(s, tail[0]);
            && (t.Failed? ==> ScanAll(s, tail) == t)
            && (t.Scan? && |t.tokens| > 32 ==> ScanAll(s, tail) == Failed("command has too many arguments"))
  {
    hide ScanByte;
  }

  /** A line means what it is written in: `ParseLine` gives exactly that. */
  lemma LineParses(text: bytes, marks: seq<Mark>, tail: bytes)
    requires |text| < 2048 && Reads(text, marks, tail)
    ensures ParseLine([0x2F] + text) == Meaning(marks, tail)
  {
    hide Words, Flaw, Text, Written, ScanByte;
    assert ([0x2F] + text)[1..] == text;
    MarksScan(marks);
    var s := ScanAll(START, Text(marks));
    ScanConcat(START, Text(marks), tail);
    if tail != [] {
      FlawScans(s, marks, tail);
    } else {
      var a, b := LastGap(marks);
      NothingMore(s);
    }
  }

  lemma NothingMore(s: Scan)
    ensures ScanAll(s, []) == s
  {
  }

  /** The mark that a tail without a flaw starts with. */
  function NextMark(marks: seq<Mark>, tail: bytes): (mark: Mark)
    requires tail != [] && Flaw(marks, tail).None?
    ensures MarkText(mark) <= tail && MarkText(mark) != []
  {
    var c := tail[0];
    if c == 0x5C then Escape(tail[1])
    else if c == 0x22 then Quote
    else if (c == 0x20 || c == 0x09) && !Inside(marks) then Gap(c)
    else Plain(c)
  }

  lemma NextMarkFollows(marks: seq<Mark>, tail: bytes)
    requires tail != [] && Flaw(marks, tail).None? && |Ended(marks)| <= 32
    ensures Follows(marks, NextMark(marks, tail))
  {
    hide Inside, Open, Ended;
  }

  lemma {:induction false} Written32(p: seq<Mark>)
    requires Written(p)
    ensures |Ended(p)| <= 32
    decreases |p|
  {
    if p != [] {
      Written32(p[..|p| - 1]);
    }
  }

  lemma {:induction false} LineReadsFrom(text: bytes, p: seq<Mark>, rest: bytes) returns (marks: seq<Mark>, tail: bytes)
    requires Written(p) && text == Text(p) + rest
    ensures Reads(text, marks, tail)
    decreases |rest|
  {
    hide Flaw, Follows;
    if rest == [] || Flaw(p, rest).Some? {
      marks, tail := p, rest;
    } else {
      Written32(p);
      var mark := NextMark(p, rest);
      NextMarkFollows(p, rest);
      var n := |MarkText(mark)|;
      assert rest == MarkText(mark) + rest[n..];
      TextNext(p, mark);
      ConcatAssociates(Text(p), MarkText(mark), rest[n..]);
      assert (p + [mark])[..|p|] == p;
      marks, tail := LineReadsFrom(text, p + [mark], rest[n..]);
    }
  }

  /** Every line reads in some way, and parses to what it then means: unquoted, quoted and escaped
      letters make words, and the first flaw gives the error. */
  lemma EveryLineMeans(text: bytes)
    requires |text| < 2048
    ensures exists marks, tail :: Reads(text, marks, tail)
    ensures forall marks, tail | Reads(text, marks, tail) :: ParseLine([0x2F] + text) == Meaning(marks, tail)
  {
    hide Reads, Meaning, ParseLine, Text;
    NothingWritten(text);
    var marks, tail := LineReadsFrom(text, [], text);
    forall marks, tail | Reads(text, marks, tail)
      ensures tail != [] ==> Flaw(marks, tail).Some?
      ensures ParseLine([0x2F] + text) == Meaning(marks, tail)
    {
      ReadsFlawed(text, marks, tail);
      LineParses(text, marks, tail);
    }
  }

  /** Any other text is no command, or too long a one. */
  lemma OtherTexts(text: bytes)
    ensures text == [] || text[0] != 0x2F ==> ParseLine(text) == NotACommand
    ensures text != [] && text[0] == 0x2F && |text| > 2048 ==> ParseLine(text) == Bad("command exceeds 2048 bytes")
  {
  }

  lemma ReadsFlawed(text: bytes, marks: seq<Mark>, tail: bytes)
    requires Reads(text, marks, tail)
    ensures tail != [] ==> Flaw(marks, tail).Some?
  {
  }

  lemma NothingWritten(text: bytes)
    ensures Written([]) && text == Text([]) + text
  {
  }

  // ---------- How the printer writes ----------

  /** Quotes and backslashes behind a backslash, any other byte as it is. */
  function LetterMark(c: byte): Mark { if c == 0x22 || c == 0x5C then Escape(c) else Plain(c) }

  function LetterMarks(s: bytes): seq<Mark> { seq(|s|, i requires 0 <= i < |s| => LetterMark(s[i])) }

  /** A space, and the argument between quotes. */
  function ArgMarks(arg: bytes): seq<Mark> { [Gap(0x20), Quote] + LetterMarks(arg) + [Quote] }

  function ArgsMarks(args: seq<bytes>): seq<Mark> {
    if args == [] then [] else ArgMarks(args[0]) + ArgsMarks(args[1..])
  }

  lemma {:induction false} TextAppends(a: seq<Mark>, b: seq<Mark>)
    ensures Text(a + b) == Text(a) + Text(b)
    decreases |b|
  {
    if b == [] {
      assert a + b == a;
    } else {
      var before, mark := b[..|b| - 1], b[|b| - 1];
      assert (a + b)[..|a + b| - 1] == a + before && (a + b)[|a + b| - 1] == mark;
      TextAppends(a, before);
    }
  }

  lemma OneMark(mark: Mark)
    ensures Text([mark]) == MarkText(mark)
  {
    assert [mark][..0] == [];
    assert Text([]) + MarkText(mark) == MarkText(mark);
  }

  lemma {:induction false} EscapedIs(s: bytes)
    ensures Text(LetterMarks(s)) == EscapeArg(s)
    decreases |s|
  {
    if s != [] {
      assert LetterMarks(s) == [LetterMark(s[0])] + LetterMarks(s[1..]);
      TextAppends([LetterMark(s[0])], LetterMarks(s[1..]));
      OneMark(LetterMark(s[0]));
      EscapedIs(s[1..]);
    }
  }

  lemma ArgIs(arg: bytes)
    ensures Text(ArgMarks(arg)) == ArgText(arg)
  {
    hide EscapeArg, LetterMarks;
    OneMark(Gap(0x20));
    OneMark(Quote);
    EscapedIs(arg);
    assert [Gap(0x20), Quote] == [Gap(0x20)] + [Quote];
    TextAppends([Gap(0x20)], [Quote]);
    TextAppends([Gap(0x20), Quote], LetterMarks(arg));
    TextAppends([Gap(0x20), Quote] + LetterMarks(arg), [Quote]);
  }

  /** The printer writes each argument behind a space and between quotes, with nothing escaped but
      quotes and backslashes. */
  lemma {:induction false} PrintedMarks(args: seq<bytes>)
    ensures ArgsText(args) == Text(ArgsMarks(args))
  {
    hide ArgText, ArgMarks;
    if args != [] {
      ArgIs(args[0]);
      PrintedMarks(args[1..]);
      TextAppends(ArgMarks(args[0]), ArgsMarks(args[1..]));
    }
  }

  /** The whole line: a slash, the command as it is, and the arguments so written. */
  lemma PrintedLine(command: bytes, args: seq<bytes>)
    ensures LineText(command, args) == [0x2F] + command + Text(ArgsMarks(args))
  {
    hide ArgsText, Text, ArgsMarks;
    PrintedMarks(args);
  }
}
