/**
 The characters of RFC 8259 that the parser and the printer go by, and the byte order of keys.
 */
module JsonAlphabet {
  import opened Bytes
  import opened Json

  /** Structural characters and literals (sections 2 and 3), quotation mark and escape (section 7). */
  lemma TokensAre()
    ensures [OPEN_BRACKET, CLOSE_BRACKET, OPEN_BRACE, CLOSE_BRACE] == OfText("[]{}")
    ensures [COLON, COMMA, QUOTE, BACKSLASH, MINUS] == OfText(":,\"\\-")
    ensures NULL_TEXT == OfText("null") && TRUE_TEXT == OfText("true") && FALSE_TEXT == OfText("false")
  {
  }

  /** White space (section 2). */
  lemma SpacesAre(c: byte)
    ensures Space(c) <==> c in OfText(" \t\n\r")
  {
    var s := OfText(" \t\n\r");
    assert s[0] == 0x20 && s[1] == 0x09 && s[2] == 0x0A && s[3] == 0x0D;
  }

  /** Hexadecimal digits of either case. */
  lemma HexDigitsAre(c: byte, n: nat)
    requires n < 16
    ensures HexValue(c) == Some(n)
       <==> c == OfText("0123456789abcdef")[n] || c == OfText("0123456789ABCDEF")[n]
  {
    LowerDigits(n);
    UpperDigits(n);
  }

  lemma LowerDigits(n: nat)
    requires n < 16
    ensures OfText("0123456789abcdef")[n] == HexDigit(n)
  {
  }

  lemma UpperDigits(n: nat)
    requires n < 16
    ensures OfText("0123456789ABCDEF")[n] == if n < 10 then 0x30 + n else 0x41 + (n - 10)
  {
  }

  lemma HexValueBound(c: byte)
    ensures HexValue(c).Some? ==> HexValue(c).value < 16
  {
  }

  const ESCAPED: bytes := [0x22, 0x5C, 0x2F, 0x08, 0x0C, 0x0A, 0x0D, 0x09]

  /** The two-character escapes (section 7): the letter behind the backslash and what it stands for. */
  lemma EscapesAre(e: byte, c: byte)
    ensures SimpleEscape(e) == Some(c)
       <==> exists k | 0 <= k < |ESCAPED| :: OfText("\"\\/bfnrt")[k] == e && ESCAPED[k] == c
  {
    EscapeLetters();
    var letters := OfText("\"\\/bfnrt");
    assert ESCAPED[0] == 0x22 && ESCAPED[1] == 0x5C && ESCAPED[2] == 0x2F && ESCAPED[3] == 0x08;
    assert ESCAPED[4] == 0x0C && ESCAPED[5] == 0x0A && ESCAPED[6] == 0x0D && ESCAPED[7] == 0x09;
    if SimpleEscape(e) == Some(c) {
      var k := if e == 0x22 then 0 else if e == 0x5C then 1 else if e == 0x2F then 2 else if e == 0x62 then 3
               else if e == 0x66 then 4 else if e == 0x6E then 5 else if e == 0x72 then 6 else 7;
      assert letters[k] == e && ESCAPED[k] == c;
    }
  }

  lemma EscapeLetters()
    ensures OfText("\"\\/bfnrt") == [0x22, 0x5C, 0x2F, 0x62, 0x66, 0x6E, 0x72, 0x74]
  {
  }

  /** How the printer spells a byte: behind a backslash when a letter stands for it, a solidus apart; as
      a unicode escape with small letters when it is another control byte; as it is otherwise. */
  lemma PrintedAs(c: byte)
    ensures c == 0x22 || c == 0x5C ==> EscapeByte(c) == [0x5C, c]
    ensures c < 0x20 ==>
              if exists e: byte :: SimpleEscape(e) == Some(c)
              then exists e: byte :: SimpleEscape(e) == Some(c) && EscapeByte(c) == [0x5C, e]
              else EscapeByte(c)
                   == OfText("\\u00") + [OfText("0123456789abcdef")[c / 16], OfText("0123456789abcdef")[c % 16]]
    ensures c >= 0x20 && c != 0x22 && c != 0x5C ==> EscapeByte(c) == [c]
  {
    hide HexDigit, OfText;
    LowerDigits(c / 16);
    LowerDigits(c % 16);
    UnicodePrefix();
    assert SimpleEscape(0x62) == Some(0x08) && SimpleEscape(0x66) == Some(0x0C) && SimpleEscape(0x6E) == Some(0x0A);
    assert SimpleEscape(0x72) == Some(0x0D) && SimpleEscape(0x74) == Some(0x09);
  }

  lemma UnicodePrefix()
    ensures OfText("\\u00") == [0x5C, 0x75, 0x30, 0x30]
  {
  }

  /** The integers are those of 64 bits. */
  lemma IntegersAre()
    ensures INT_MIN == -TWO_TO_THE_63 && INT_MAX == TWO_TO_THE_63 - 1 && 2 * TWO_TO_THE_63 == Pow256(8)
  {
    WordSizes();
  }

  /** Two keys agree up to `k`, and there `a` ends or has the smaller byte. */
  predicate Before(a: bytes, b: bytes, k: nat) {
    k <= |a| && k < |b| && a[..k] == b[..k] && (k == |a| || a[k] < b[k])
  }

  /** The order of keys is the lexicographic order of their bytes. */
  lemma {:induction false} LessIsLexicographic(a: bytes, b: bytes)
    ensures Less(a, b) <==> exists k: nat :: Before(a, b, k)
    decreases |a|
  {
    if b != [] {
      if a == [] || a[0] < b[0] {
        assert Before(a, b, 0);
      } else if a[0] == b[0] {
        LessIsLexicographic(a[1..], b[1..]);
        if k: nat :| Before(a[1..], b[1..], k) {
          assert a[..k + 1] == [a[0]] + a[1..][..k] && b[..k + 1] == [b[0]] + b[1..][..k];
          assert Before(a, b, k + 1);
        }
        if k: nat :| Before(a, b, k) {
          assert k > 0;
          assert a[1..][..k - 1] == a[..k][1..] && b[1..][..k - 1] == b[..k][1..];
          assert Before(a[1..], b[1..], k - 1);
        }
      } else if k: nat :| Before(a, b, k) {
        assert false;
      }
    }
  }
}
