/**
 The numbers the parser accepts are those of section 6 of RFC 8259.
 */
module JsonGrammar {
  import opened Bytes
  import opened Json
  import JsonRoundTrip

  ghost predicate AllDigits(s: bytes) { s != [] && forall i | 0 <= i < |s| :: Digit(s[i]) }

  /** int = zero / ( digit1-9 *DIGIT ) */
  ghost predicate IntGrammar(s: bytes) { s == [0x30] || (AllDigits(s) && s[0] != 0x30) }

  /** [ minus ] int */
  ghost predicate WholeGrammar(s: bytes) { IntGrammar(s) || (Starts(s, MINUS) && IntGrammar(s[1..])) }

  /** frac = decimal-point 1*DIGIT, or nothing */
  ghost predicate FractionGrammar(s: bytes) { s == [] || (Starts(s, 0x2E) && AllDigits(s[1..])) }

  /** exp = e [ minus / plus ] 1*DIGIT, or nothing */
  ghost predicate ExponentGrammar(s: bytes) {
    s == [] ||
    ((Starts(s, 0x65) || Starts(s, 0x45)) &&
     (AllDigits(s[1..]) || ((Starts(s[1..], 0x2B) || Starts(s[1..], MINUS)) && AllDigits(s[2..]))))
  }

  /** A number in its three parts: the integer, the fraction from `whole` on, the exponent from `f` on. */
  ghost predicate Number(s: bytes, whole: nat, f: nat)
    requires whole <= f <= |s|
  {
    WholeGrammar(s[..whole]) && FractionGrammar(s[whole..f]) && ExponentGrammar(s[f..])
  }

  // ---------- What is scanned is in the grammar ----------

  lemma {:induction false} RunIsDigits(s: bytes)
    ensures var n := DigitRun(s);
            (forall i | 0 <= i < n :: Digit(s[i])) && (n == |s| || !Digit(s[n]))
  {
    if s != [] && Digit(s[0]) {
      RunIsDigits(s[1..]);
      forall i | 0 <= i < DigitRun(s)
        ensures Digit(s[i])
      {
        assert i > 0 ==> s[i] == s[1..][i - 1];
      }
      assert DigitRun(s) < |s| ==> s[DigitRun(s)] == s[1..][DigitRun(s) - 1];
    }
  }

  lemma RunIsAllDigits(s: bytes, off: nat)
    requires off <= |s| && DigitRun(s[off..]) > 0
    ensures AllDigits(s[off..off + DigitRun(s[off..])])
  {
    RunIsDigits(s[off..]);
    var t := s[off..off + DigitRun(s[off..])];
    forall i | 0 <= i < |t|
      ensures Digit(t[i])
    {
      assert t[i] == s[off..][i];
    }
  }

  lemma WholeIsGrammar(s: bytes)
    requires s != []
    ensures var r := IntegerPart(s); r.Ok? ==> WholeGrammar(s[..r.value])
  {
    var sign := if s[0] == MINUS then 1 else 0;
    var body := s[sign..];
    var r := IntegerPart(s);
    if r.Ok? {
      var n := r.value - sign;
      var whole := s[sign..r.value];
      assert whole == body[..n] && whole[0] == body[0];
      if body[0] == 0x30 {
        assert whole == [0x30];
      } else {
        assert DigitRun(body) > 0;
        RunIsAllDigits(s, sign);
      }
      assert IntGrammar(whole);
      if sign == 0 {
        assert s[..r.value] == whole;
      } else {
        assert s[..r.value][1..] == whole && s[..r.value][0] == MINUS;
      }
    }
  }

  lemma FractionIsGrammar(s: bytes)
    ensures var r := Fraction(s); r.Ok? ==> FractionGrammar(s[..r.value])
  {
    var r := Fraction(s);
    if r.Ok? && r.value != 0 {
      RunIsAllDigits(s, 1);
      assert s[..r.value][1..] == s[1..r.value];
    }
  }

  lemma ExponentIsGrammar(s: bytes)
    ensures var r := Exponent(s); r.Ok? ==> ExponentGrammar(s[..r.value])
  {
    var r := Exponent(s);
    if r.Ok? && r.value != 0 {
      var sign := if Starts(s[1..], 0x2B) || Starts(s[1..], MINUS) then 1 else 0;
      RunIsAllDigits(s, 1 + sign);
      assert s[..r.value][1 + sign..] == s[1 + sign..r.value];
      assert sign == 1 ==> s[..r.value][1] == s[1..][0];
    }
  }

  /** A number token is accepted only if it is a number of the grammar. */
  lemma ScannedIsGrammar(s: bytes)
    requires s != []
    ensures var r := ScanNumber(s);
            r.Ok? ==> exists f: nat | r.value.0 <= f <= r.value.1 :: Number(s[..r.value.1], r.value.0, f)
  {
    hide IntegerPart, Fraction, Exponent, WholeGrammar, FractionGrammar, ExponentGrammar;
    var r := ScanNumber(s);
    if r.Ok? {
      var whole, end := r.value.0, r.value.1;
      var f := whole + Fraction(s[whole..]).value;
      WholeIsGrammar(s);
      FractionIsGrammar(s[whole..]);
      ExponentIsGrammar(s[f..]);
      PartsOfToken(s, whole, f, end);
    }
  }

  lemma PartsOfToken(s: bytes, whole: nat, f: nat, end: nat)
    requires whole <= f <= end <= |s|
    requires WholeGrammar(s[..whole])
    requires FractionGrammar(s[whole..][..f - whole]) && ExponentGrammar(s[f..][..end - f])
    ensures Number(s[..end], whole, f)
  {
    hide WholeGrammar, FractionGrammar, ExponentGrammar;
    var t := s[..end];
    assert t[..whole] == s[..whole];
    assert t[whole..f] == s[whole..][..f - whole];
    assert t[f..] == s[f..][..end - f];
  }

  // ---------- What is in the grammar is scanned whole ----------

  lemma WholeScans(w: bytes, rest: bytes)
    requires WholeGrammar(w) && (rest == [] || !Digit(rest[0]))
    ensures IntegerPart(w + rest) == Ok(|w|, rest)
  {
    hide DigitRun;
    var s, sign := w + rest, if w[0] == MINUS then 1 else 0;
    var whole := w[sign..];
    assert s[sign..] == whole + rest && s[|w|..] == rest;
    assert IntGrammar(whole);
    if whole[0] != 0x30 {
      JsonRoundTrip.RunOfDigits(whole, rest);
    }
  }

  lemma FractionScans(f: bytes, rest: bytes)
    requires FractionGrammar(f) && (rest == [] || (!Digit(rest[0]) && rest[0] != 0x2E))
    ensures Fraction(f + rest) == Ok(|f|, rest)
  {
    hide DigitRun;
    var s := f + rest;
    if f == [] {
      assert s == rest;
    } else {
      assert s[1..] == f[1..] + rest && s[|f|..] == rest;
      JsonRoundTrip.RunOfDigits(f[1..], rest);
    }
  }

  lemma ExponentScans(e: bytes, rest: bytes)
    requires ExponentGrammar(e) && JsonRoundTrip.Follows(rest)
    ensures Exponent(e + rest) == Ok(|e|, rest)
  {
    hide DigitRun;
    var s := e + rest;
    if e == [] {
      assert s == rest;
    } else {
      assert s[1..] == e[1..] + rest && s[|e|..] == rest;
      var sign := if Starts(e[1..], 0x2B) || Starts(e[1..], MINUS) then 1 else 0;
      var digits := e[1 + sign..];
      assert sign == 1 ==> e[2..] == digits;
      assert AllDigits(digits) && s[1 + sign..] == digits + rest;
      JsonRoundTrip.RunOfDigits(digits, rest);
    }
  }

  lemma TailStarts(fraction: bytes, e: bytes, rest: bytes)
    requires FractionGrammar(fraction) && ExponentGrammar(e) && JsonRoundTrip.Follows(rest)
    ensures var t := e + rest; t == [] || (!Digit(t[0]) && t[0] != 0x2E)
    ensures var t := fraction + (e + rest); t == [] || !Digit(t[0])
  {
  }

  lemma PartsScan(w: bytes, fraction: bytes, e: bytes, rest: bytes)
    requires WholeGrammar(w) && FractionGrammar(fraction) && ExponentGrammar(e) && JsonRoundTrip.Follows(rest)
    ensures w != [] && ScanNumber(w + (fraction + (e + rest))) == Ok((|w|, |w| + |fraction| + |e|), rest)
  {
    hide IntegerPart, Fraction, Exponent, FractionGrammar, ExponentGrammar;
    var t := w + (fraction + (e + rest));
    var whole := |w|;
    TailStarts(fraction, e, rest);
    WholeScans(w, fraction + (e + rest));
    assert t[whole..] == fraction + (e + rest);
    FractionScans(fraction, e + rest);
    assert t[whole + |fraction|..] == e + rest;
    ExponentScans(e, rest);
    assert t[whole + |fraction| + |e|..] == rest;
  }

  /** A number is scanned whole before anything that cannot continue it. */
  lemma GrammarScans(s: bytes, whole: nat, f: nat, rest: bytes)
    requires whole <= f <= |s| && Number(s, whole, f) && JsonRoundTrip.Follows(rest)
    ensures s != [] && ScanNumber(s + rest) == Ok((whole, |s|), rest)
  {
    hide ScanNumber, WholeGrammar, FractionGrammar, ExponentGrammar, JsonRoundTrip.Follows;
    var w, fraction, e := s[..whole], s[whole..f], s[f..];
    assert s + rest == w + (fraction + (e + rest));
    PartsScan(w, fraction, e, rest);
  }

  ghost predicate IsNumber(s: bytes) {
    exists whole: nat, f: nat | whole <= f <= |s| :: Number(s, whole, f)
  }

  /** A text is scanned to its end exactly when it is a number of the grammar. */
  lemma NumberExactly(s: bytes)
    requires s != []
    ensures (ScanNumber(s).Ok? && ScanNumber(s).rest == []) <==> IsNumber(s)
  {
    hide ScanNumber, Number;
    if ScanNumber(s).Ok? && ScanNumber(s).rest == [] {
      ScannedIsGrammar(s);
      assert s[..|s|] == s;
    }
    if whole: nat, f: nat :| whole <= f <= |s| && Number(s, whole, f) {
      GrammarScans(s, whole, f, []);
      assert s + [] == s;
    }
  }

  /** The integer part is all of a number exactly when the number is a signed integer. */
  lemma WholeIsAll(s: bytes, whole: nat, f: nat)
    requires whole <= f <= |s| && Number(s, whole, f)
    ensures WholeGrammar(s) <==> whole == |s|
  {
    hide ScanNumber, WholeGrammar;
    GrammarScans(s, whole, f, []);
    if whole == |s| {
      assert s[..whole] == s;
    }
    if WholeGrammar(s) {
      assert s[..|s|] == s && s[|s|..|s|] == [] == s[|s|..];
      GrammarScans(s, |s|, |s|, []);
    }
  }
}
