/**
 The UTF-8 and UTF-16 transcoders, and what RFC 3629 and RFC 2781 say of their results.
 */
module Utf16 {
  import opened Bytes

  type unit = x: int | 0 <= x < 0x1_0000

  const REPLACEMENT: unit := 0xFFFD

  predicate High(x: int) { 0xD800 <= x <= 0xDBFF }

  predicate Low(x: int) { 0xDC00 <= x <= 0xDFFF }

  /** A Unicode scalar value: a code point that is not a surrogate. */
  predicate Scalar(cp: int) {
    0 <= cp < 0x11_0000 && !High(cp) && !Low(cp)
  }

  // ---------- What the code computes ----------

  /** `cp >> 6` is `cp / 64` and `cp & 0x3f` is `cp % 64`; the prefixes are disjoint bits. */
  function AppendUtf8(cp: int): (s: bytes)
    requires 0 <= cp < 0x11_0000
    ensures 1 <= |s| <= 4
  {
    if cp <= 0x7F then [cp]
    else if cp <= 0x7FF then [0xC0 + cp / 64, 0x80 + cp % 64]
    else if cp <= 0xFFFF then [0xE0 + cp / 64 / 64, 0x80 + cp / 64 % 64, 0x80 + cp % 64]
    else [0xF0 + cp / 64 / 64 / 64, 0x80 + cp / 64 / 64 % 64, 0x80 + cp / 64 % 64, 0x80 + cp % 64]
  }

  predicate Continuation(s: bytes, k: nat) {
    k < |s| && 0x80 <= s[k] < 0xC0
  }

  /** `s[k]` without a prefix whose bits are `prefix`. */
  function Bits(s: bytes, k: nat, prefix: int): int
    requires k < |s|
  {
    s[k] as int - prefix
  }

  datatype Decoded = Decoded(cp: int, len: nat)

  /** One turn of the UTF-8 reading loop at the head of `s`. */
  function DecodeUtf8(s: bytes): (d: Decoded)
    requires s != []
    ensures 0 <= d.cp < 0x11_0000 && 1 <= d.len <= |s|
  {
    if s[0] < 0x80 then Decoded(s[0], 1)
    else if 0xC0 <= s[0] < 0xE0 && Continuation(s, 1) then
      var cp := Bits(s, 0, 0xC0) * 64 + Bits(s, 1, 0x80);
      Decoded(if cp < 0x80 then REPLACEMENT else cp, 2)
    else if 0xE0 <= s[0] < 0xF0 && Continuation(s, 1) && Continuation(s, 2) then
      var cp := (Bits(s, 0, 0xE0) * 64 + Bits(s, 1, 0x80)) * 64 + Bits(s, 2, 0x80);
      Decoded(if cp < 0x800 then REPLACEMENT else cp, 3)
    else if 0xF0 <= s[0] < 0xF8 && Continuation(s, 1) && Continuation(s, 2) && Continuation(s, 3) then
      var cp := ((Bits(s, 0, 0xF0) * 64 + Bits(s, 1, 0x80)) * 64 + Bits(s, 2, 0x80)) * 64 + Bits(s, 3, 0x80);
      Decoded(if cp < 0x1_0000 || cp > 0x10_FFFF then REPLACEMENT else cp, 4)
    else Decoded(REPLACEMENT, 1)
  }

  function Units(cp: int): (u: seq<unit>)
    requires 0 <= cp < 0x11_0000
    ensures 1 <= |u| <= 2
  {
    if cp <= 0xFFFF then [cp]
    else [0xD800 + (cp - 0x1_0000) / 1024, 0xDC00 + (cp - 0x1_0000) % 1024]
  }

  function Utf8ToUtf16(s: bytes): seq<unit> {
    if s == [] then [] else
      var d := DecodeUtf8(s);
      Units(d.cp) + Utf8ToUtf16(s[d.len..])
  }

  predicate Pair(u: seq<unit>) {
    |u| >= 2 && High(u[0]) && Low(u[1])
  }

  function PairValue(high: int, low: int): int {
    0x1_0000 + (high - 0xD800) * 1024 + (low - 0xDC00)
  }

  /** The code point read at the head of `u`, and the number of units it took. */
  function DecodeUtf16(u: seq<unit>): (d: Decoded)
    requires u != []
    ensures Scalar(d.cp) && 1 <= d.len <= |u|
  {
    if Pair(u) then Decoded(PairValue(u[0], u[1]), 2)
    else if High(u[0]) || Low(u[0]) then Decoded(REPLACEMENT, 1)
    else Decoded(u[0], 1)
  }

  function Utf16ToUtf8(u: seq<unit>): bytes {
    if u == [] then [] else
      var d := DecodeUtf16(u);
      AppendUtf8(d.cp) + Utf16ToUtf8(u[d.len..])
  }

  lemma Utf8Turn(utf8: bytes, i: nat)
    requires i < |utf8|
    ensures var d := DecodeUtf8(utf8[i..]);
            Utf8ToUtf16(utf8[i..]) == Units(d.cp) + Utf8ToUtf16(utf8[i + d.len..])
  {
    var d := DecodeUtf8(utf8[i..]);
    assert utf8[i..][d.len..] == utf8[i + d.len..];
  }

  lemma Utf16Turn(units: seq<unit>, i: nat)
    requires i < |units|
    ensures var d := DecodeUtf16(units[i..]);
            Utf16ToUtf8(units[i..]) == AppendUtf8(d.cp) + Utf16ToUtf8(units[i + d.len..])
  {
    var d := DecodeUtf16(units[i..]);
    assert units[i..][d.len..] == units[i + d.len..];
  }

  /** The loop of `utf8_to_utf16`. */
  method ConvertToUtf16(utf8: bytes) returns (out: seq<unit>)
    ensures out == Utf8ToUtf16(utf8)
  {
    hide DecodeUtf8, Units;
    out := [];
    var i := 0;
    ghost var rest := Utf8ToUtf16(utf8);
    assert utf8[0..] == utf8;
    while i < |utf8|
      invariant i <= |utf8|
      invariant rest == Utf8ToUtf16(utf8[i..])
      invariant out + rest == Utf8ToUtf16(utf8)
    {
      Utf8Turn(utf8, i);
      var d := DecodeUtf8(utf8[i..]);
      var decoded := Units(d.cp);
      rest := Utf8ToUtf16(utf8[i + d.len..]);
      ConcatAssociates(out, decoded, rest);
      out := out + decoded;
      i := i + d.len;
    }
    assert out + [] == out;
  }

  /** The loop of `utf16_to_utf8`. */
  method ConvertToUtf8(units: seq<unit>) returns (out: bytes)
    ensures out == Utf16ToUtf8(units)
  {
    hide AppendUtf8;
    out := [];
    var i := 0;
    ghost var rest := Utf16ToUtf8(units);
    assert units[0..] == units;
    while i < |units|
      invariant i <= |units|
      invariant rest == Utf16ToUtf8(units[i..])
      invariant out + rest == Utf16ToUtf8(units)
    {
      Utf16Turn(units, i);
      var unit := units[i];
      var cp, len := unit, 1;
      if High(unit) {
        cp := REPLACEMENT;
        if i + 1 < |units| && Low(units[i + 1]) {
          cp, len := PairValue(unit, units[i + 1]), 2;
        }
      } else if Low(unit) {
        cp := REPLACEMENT;
      }
      assert Decoded(cp, len) == DecodeUtf16(units[i..]);
      var encoded := AppendUtf8(cp);
      rest := Utf16ToUtf8(units[i + len..]);
      ConcatAssociates(out, encoded, rest);
      out := out + encoded;
      i := i + len;
    }
    assert out + [] == out;
  }

  // ---------- The reference forms ----------

  predicate Tail(s: bytes, k: nat) {
    k < |s| && 0x80 <= s[k] <= 0xBF
  }

  predicate Between(s: bytes, k: nat, lo: int, hi: int) {
    k < |s| && lo <= s[k] <= hi
  }

  /** Length of the UTF8-char of section 4 of RFC 3629 that `s` starts with, 0 if none. */
  function CharLength(s: bytes): (n: nat)
    ensures n <= |s| && n <= 4
  {
    if Between(s, 0, 0x00, 0x7F) then 1
    else if Between(s, 0, 0xC2, 0xDF) && Tail(s, 1) then 2
    else if Between(s, 0, 0xE0, 0xE0) && Between(s, 1, 0xA0, 0xBF) && Tail(s, 2) then 3
    else if Between(s, 0, 0xE1, 0xEC) && Tail(s, 1) && Tail(s, 2) then 3
    else if Between(s, 0, 0xED, 0xED) && Between(s, 1, 0x80, 0x9F) && Tail(s, 2) then 3
    else if Between(s, 0, 0xEE, 0xEF) && Tail(s, 1) && Tail(s, 2) then 3
    else if Between(s, 0, 0xF0, 0xF0) && Between(s, 1, 0x90, 0xBF) && Tail(s, 2) && Tail(s, 3) then 4
    else if Between(s, 0, 0xF1, 0xF3) && Tail(s, 1) && Tail(s, 2) && Tail(s, 3) then 4
    else if Between(s, 0, 0xF4, 0xF4) && Between(s, 1, 0x80, 0x8F) && Tail(s, 2) && Tail(s, 3) then 4
    else 0
  }

  /** UTF8-octets of section 4 of RFC 3629. */
  predicate WellFormedUtf8(s: bytes)
    decreases |s|
  {
    s == [] || (CharLength(s) != 0 && WellFormedUtf8(s[CharLength(s)..]))
  }

  /** A surrogate without its partner beside it (section 2 of RFC 2781). */
  predicate Unpaired(u: seq<unit>, i: nat)
    requires i < |u|
  {
    || (High(u[i]) && !(i + 1 < |u| && Low(u[i + 1])))
    || (Low(u[i]) && !(i > 0 && High(u[i - 1])))
  }

  ghost predicate WellFormedUtf16(u: seq<unit>) {
    forall i: nat | i < |u| :: !Unpaired(u, i)
  }

  function Repaired(u: seq<unit>): (r: seq<unit>)
    ensures |r| == |u|
  {
    seq(|u|, i requires 0 <= i < |u| => if Unpaired(u, i) then REPLACEMENT else u[i])
  }

  // ---------- One code point ----------

  lemma DecodeAppended(cp: int, rest: bytes)
    requires Scalar(cp)
    ensures var s := AppendUtf8(cp) + rest;
            DecodeUtf8(s) == Decoded(cp, |AppendUtf8(cp)|) && CharLength(s) == |AppendUtf8(cp)|
  {
    var s := AppendUtf8(cp) + rest;
    if cp <= 0x7F {
      assert s[0] == cp;
    } else if cp <= 0x7FF {
      assert s[0] == 0xC0 + cp / 64 && s[1] == 0x80 + cp % 64;
    } else if cp <= 0xFFFF {
      assert s[0] == 0xE0 + cp / 64 / 64 && s[1] == 0x80 + cp / 64 % 64 && s[2] == 0x80 + cp % 64;
    } else {
      assert s[0] == 0xF0 + cp / 64 / 64 / 64 && s[1] == 0x80 + cp / 64 / 64 % 64;
      assert s[2] == 0x80 + cp / 64 % 64 && s[3] == 0x80 + cp % 64;
    }
  }

  lemma AppendDecoded(s: bytes)
    requires CharLength(s) != 0
    ensures var d := DecodeUtf8(s);
            Scalar(d.cp) && d.len == CharLength(s) && AppendUtf8(d.cp) == s[..d.len]
  {
    var d := DecodeUtf8(s);
    assert d.len == CharLength(s) && Scalar(d.cp);
    if d.len == 2 {
      Base64Digits(Bits(s, 0, 0xC0), Bits(s, 1, 0x80));
    } else if d.len == 3 {
      Base64Digits(Bits(s, 0, 0xE0), Bits(s, 1, 0x80));
      Base64Digits(Bits(s, 0, 0xE0) * 64 + Bits(s, 1, 0x80), Bits(s, 2, 0x80));
    } else if d.len == 4 {
      AppendFour(Bits(s, 0, 0xF0), Bits(s, 1, 0x80), Bits(s, 2, 0x80), Bits(s, 3, 0x80));
    }
  }

  lemma AppendFour(a: int, b: int, c: int, d: int)
    requires 0 <= b < 64 && 0 <= c < 64 && 0 <= d < 64
    requires 0x1_0000 <= ((a * 64 + b) * 64 + c) * 64 + d < 0x11_0000
    ensures AppendUtf8(((a * 64 + b) * 64 + c) * 64 + d) == [0xF0 + a, 0x80 + b, 0x80 + c, 0x80 + d]
  {
    Base64Digits(a, b);
    Base64Digits(a * 64 + b, c);
    Base64Digits((a * 64 + b) * 64 + c, d);
  }

  lemma Base64Digits(high: int, low: int)
    requires 0 <= low < 64
    ensures (high * 64 + low) / 64 == high && (high * 64 + low) % 64 == low
  {
  }

  /** At `k` the first difference between two byte strings, the smaller byte in `a`. */
  predicate Differ(a: bytes, b: bytes, k: nat) {
    k < |a| && k < |b| && a[..k] == b[..k] && a[k] < b[k]
  }

  /** The bytes of code points sort as their numbers do (section 1 of RFC 3629). With the bytes of the
      scalar values being the UTF8-chars, this leaves no other assignment of one to the other. */
  lemma Utf8KeepsOrder(x: int, y: int)
    requires 0 <= x < y < 0x11_0000
    ensures exists k: nat :: Differ(AppendUtf8(x), AppendUtf8(y), k)
  {
    var a, b := AppendUtf8(x), AppendUtf8(y);
    if |a| != |b| || x <= 0x7F || x / 64 / 64 / 64 != y / 64 / 64 / 64 {
      LeadingByte(x, y);
      assert Differ(a, b, 0);
    } else if |a| == 2 {
      assert Differ(a, b, if x / 64 != y / 64 then 0 else 1);
    } else if |a| == 3 {
      assert Differ(a, b, if x / 64 / 64 != y / 64 / 64 then 0 else if x / 64 != y / 64 then 1 else 2);
    } else {
      assert Differ(a, b, if x / 64 / 64 != y / 64 / 64 then 1 else if x / 64 != y / 64 then 2 else 3);
    }
  }

  lemma LeadingByte(x: int, y: int)
    requires 0 <= x < y < 0x11_0000
    requires |AppendUtf8(x)| != |AppendUtf8(y)| || x <= 0x7F || x / 64 / 64 / 64 != y / 64 / 64 / 64
    ensures AppendUtf8(x)[0] < AppendUtf8(y)[0]
  {
  }

  /** A code point up to U+FFFF is one unit, any other a pair with ten bits of the excess in each. */
  lemma UnitsAre(cp: int)
    requires 0 <= cp < 0x11_0000
    ensures cp <= 0xFFFF ==> Units(cp) == [cp]
    ensures cp > 0xFFFF ==>
              var high: int, low: int := Units(cp)[0], Units(cp)[|Units(cp)| - 1];
              && |Units(cp)| == 2 && High(high) && Low(low)
              && cp == 0x1_0000 + 1024 * (high - 0xD800) + (low - 0xDC00)
  {
  }

  lemma DecodeUnits(cp: int, rest: seq<unit>)
    requires Scalar(cp)
    ensures DecodeUtf16(Units(cp) + rest) == Decoded(cp, |Units(cp)|)
  {
  }

  lemma UnitsDecoded(u: seq<unit>)
    requires u != []
    ensures var d := DecodeUtf16(u);
            && |Units(d.cp)| == d.len
            && Repaired(u) == Units(d.cp) + Repaired(u[d.len..])
  {
    var d := DecodeUtf16(u);
    var v := u[d.len..];
    forall i: nat | i < |v|
      ensures Unpaired(v, i) == Unpaired(u, i + d.len)
    {
    }
    assert Repaired(u)[d.len..] == Repaired(v);
    assert Repaired(u)[..d.len] == Units(d.cp);
  }

  // ---------- The round trips ----------

  /** Whatever the units, the UTF-8 is well formed and reads back as the repaired units. */
  lemma {:induction false} Utf16First(u: seq<unit>)
    ensures WellFormedUtf8(Utf16ToUtf8(u))
    ensures Utf8ToUtf16(Utf16ToUtf8(u)) == Repaired(u)
    decreases |u|
  {
    if u != [] {
      var d := DecodeUtf16(u);
      var rest := Utf16ToUtf8(u[d.len..]);
      DecodeAppended(d.cp, rest);
      assert (AppendUtf8(d.cp) + rest)[|AppendUtf8(d.cp)|..] == rest;
      UnitsDecoded(u);
      Utf16First(u[d.len..]);
    }
  }

  /** The units survive exactly when no surrogate is unpaired. */
  lemma Utf16FirstExactly(u: seq<unit>)
    ensures Utf8ToUtf16(Utf16ToUtf8(u)) == u <==> WellFormedUtf16(u)
  {
    Utf16First(u);
    if i: nat :| i < |u| && Unpaired(u, i) {
      assert Repaired(u)[i] != u[i];
    } else {
      assert Repaired(u) == u;
    }
  }

  lemma UnitsStayPaired(cp: int, rest: seq<unit>)
    requires Scalar(cp) && WellFormedUtf16(rest)
    ensures WellFormedUtf16(Units(cp) + rest)
  {
    var n := |Units(cp)|;
    var u := Units(cp) + rest;
    forall i: nat | i < |u|
      ensures !Unpaired(u, i)
    {
      if i >= n {
        assert !Unpaired(rest, i - n);
      }
    }
  }

  lemma {:induction false} Utf8Survives(s: bytes)
    requires WellFormedUtf8(s)
    ensures Utf16ToUtf8(Utf8ToUtf16(s)) == s
    ensures WellFormedUtf16(Utf8ToUtf16(s))
    decreases |s|
  {
    hide DecodeUtf8, CharLength, AppendUtf8, DecodeUtf16;
    if s != [] {
      AppendDecoded(s);
      var d := DecodeUtf8(s);
      var rest := Utf8ToUtf16(s[d.len..]);
      Utf8Survives(s[d.len..]);
      DecodeUnits(d.cp, rest);
      assert (Units(d.cp) + rest)[|Units(d.cp)|..] == rest;
      assert Utf16ToUtf8(Units(d.cp) + rest) == AppendUtf8(d.cp) + Utf16ToUtf8(rest);
      assert s == s[..d.len] + s[d.len..];
      UnitsStayPaired(d.cp, rest);
    }
  }

  /** The bytes survive exactly when they are well-formed UTF-8. */
  lemma Utf8FirstExactly(s: bytes)
    ensures Utf16ToUtf8(Utf8ToUtf16(s)) == s <==> WellFormedUtf8(s)
    ensures WellFormedUtf8(s) ==> WellFormedUtf16(Utf8ToUtf16(s))
  {
    Utf16First(Utf8ToUtf16(s));
    if WellFormedUtf8(s) {
      Utf8Survives(s);
    }
  }

  // ---------- Bytes that are no UTF8-char ----------

  /** How many bytes a first byte announces; 0 if it cannot be one. */
  function Announced(b: byte): nat {
    if b < 0x80 then 1
    else if 0xC0 <= b <= 0xDF then 2
    else if 0xE0 <= b <= 0xEF then 3
    else if 0xF0 <= b <= 0xF7 then 4
    else 0
  }

  /** All the bytes announced are there. */
  predicate Complete(s: bytes)
    requires s != []
  {
    0 < Announced(s[0]) <= |s| && forall k | 1 <= k < Announced(s[0]) :: Tail(s, k)
  }

  /** The three bytes that would encode a surrogate, which section 3 of RFC 3629 forbids. */
  predicate SurrogateForm(s: bytes) {
    Between(s, 0, 0xED, 0xED) && Between(s, 1, 0xA0, 0xBF) && Tail(s, 2)
  }

  /** What the reading loop makes of bytes that start with no UTF8-char: the surrogate of a surrogate
      form, and U+FFFD for anything else; it goes on behind a complete sequence, overlong or out of
      range as it may be, and behind one byte otherwise. */
  lemma IllFormedReads(s: bytes)
    requires s != [] && CharLength(s) == 0
    ensures DecodeUtf8(s)
         == if SurrogateForm(s) then Decoded(0xD800 + (s[1] as int - 0xA0) * 64 + (s[2] as int - 0x80), 3)
            else Decoded(0xFFFD, if Complete(s) then Announced(s[0]) else 1)
  {
    var n := Announced(s[0]);
    assert n > 1 ==> (Complete(s) ==> Tail(s, 1));
    assert n > 2 ==> (Complete(s) ==> Tail(s, 2));
    assert n > 3 ==> (Complete(s) ==> Tail(s, 3));
  }

  /** The same for a whole text: one unit, then what the rest converts to. */
  lemma IllFormedConverts(s: bytes)
    requires s != [] && CharLength(s) == 0
    ensures Utf8ToUtf16(s)
         == if SurrogateForm(s) then [0xD800 + (s[1] as int - 0xA0) * 64 + (s[2] as int - 0x80)] + Utf8ToUtf16(s[3..])
            else [0xFFFD] + Utf8ToUtf16(s[if Complete(s) then Announced(s[0]) else 1..])
  {
    hide DecodeUtf8, CharLength;
    IllFormedReads(s);
  }
}
