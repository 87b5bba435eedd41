/**
 Bytes, little-endian words and the memory snapshot that the reading code works on.
 */
module Bytes {
  type byte = x: int | 0 <= x < 0x100
  type bytes = seq<byte>

  datatype Option<+T> = None | Some(value: T)

  const CANONICAL_LIMIT: int := 0x1_0000_0000_0000
  const TWO_TO_THE_31: int := 0x8000_0000
  const TWO_TO_THE_32: int := 0x1_0000_0000
  const TWO_TO_THE_63: int := 0x8000_0000_0000_0000
  const TWO_TO_THE_64: int := 0x1_0000_0000_0000_0000

  lemma ConcatAssociates<T>(a: seq<T>, b: seq<T>, c: seq<T>)
    ensures a + (b + c) == (a + b) + c
  {
  }

  lemma SlicesCompose<T>(s: seq<T>, a: nat, b: nat)
    requires a + b <= |s|
    ensures s[a..][b..] == s[a + b..] && s[a..][..b] == s[a..a + b]
  {
  }

  function Zeros(n: nat): (z: bytes)
    ensures |z| == n
  {
    seq(n, _ => 0)
  }

  /** The bytes of an ASCII text. */
  function OfText(s: string): (r: bytes)
    ensures |r| == |s|
  {
    seq(|s|, i requires 0 <= i < |s| => s[i] as int % 0x80)
  }

  function Pow256(n: nat): (p: nat)
    ensures p > 0
  {
    if n == 0 then 1 else 256 * Pow256(n - 1)
  }

  /** The `width` low bytes of `v`, least significant first. */
  function LittleEndian(v: nat, width: nat): (s: bytes)
    ensures |s| == width
  {
    if width == 0 then [] else [v % 256] + LittleEndian(v / 256, width - 1)
  }

  function FromLittleEndian(s: bytes): nat {
    if s == [] then 0 else s[0] + 256 * FromLittleEndian(s[1..])
  }

  lemma {:induction false} LittleEndianRoundTrip(v: nat, width: nat)
    requires v < Pow256(width)
    ensures FromLittleEndian(LittleEndian(v, width)) == v
  {
    if width != 0 {
      LittleEndianRoundTrip(v / 256, width - 1);
    }
  }

  lemma {:induction false} FromLittleEndianBound(s: bytes)
    ensures FromLittleEndian(s) < Pow256(|s|)
  {
    if s != [] {
      FromLittleEndianBound(s[1..]);
    }
  }

  lemma {:induction false} FromZeros(n: nat)
    ensures FromLittleEndian(Zeros(n)) == 0
  {
    if n != 0 {
      assert Zeros(n)[1..] == Zeros(n - 1);
      FromZeros(n - 1);
    }
  }

  lemma WordSizes()
    ensures Pow256(1) == 0x100 && Pow256(2) == 0x1_0000
    ensures Pow256(4) == TWO_TO_THE_32 && Pow256(8) == TWO_TO_THE_64
    ensures 2 * TWO_TO_THE_31 == TWO_TO_THE_32 && 2 * TWO_TO_THE_63 == TWO_TO_THE_64
  {
    assert Pow256(3) == 256 * Pow256(2);
    assert Pow256(5) == 256 * Pow256(4);
    assert Pow256(6) == 256 * Pow256(5);
    assert Pow256(7) == 256 * Pow256(6);
  }

  /** ASCII decimal digits. */
  function Digits(n: nat): (s: bytes)
    ensures s != []
  {
    if n < 10 then [0x30 + n] else Digits(n / 10) + [0x30 + n % 10]
  }

  lemma {:induction false} DigitsSpell(n: nat)
    ensures SpellsDecimal(Digits(n), n)
  {
    if n >= 10 {
      DigitsSpell(n / 10);
      assert Digits(n)[0] == Digits(n / 10)[0];
      assert forall i | 0 <= i < |Digits(n)| - 1 :: Digits(n)[i] == Digits(n / 10)[i];
    }
  }

  function DecimalValue(s: bytes): int {
    if s == [] then 0 else 10 * DecimalValue(s[..|s| - 1]) + (s[|s| - 1] as int - 0x30)
  }

  /** ASCII digits of value `n`, without a needless zero in front. */
  predicate SpellsDecimal(s: bytes, n: nat) {
    && s != [] && (forall i | 0 <= i < |s| :: 0x30 <= s[i] <= 0x39)
    && (s[0] == 0x30 ==> |s| == 1)
    && DecimalValue(s) == n
  }

  lemma {:induction false} DecimalPositive(s: bytes)
    requires s != [] && (forall i | 0 <= i < |s| :: 0x30 <= s[i] <= 0x39) && s[0] != 0x30
    ensures DecimalValue(s) > 0
  {
    if |s| > 1 {
      DecimalPositive(s[..|s| - 1]);
    }
  }

  /** The decimal text of a number is the one string of digits with that value. */
  lemma {:induction false} DigitsExactly(s: bytes, n: nat)
    ensures s == Digits(n) <==> SpellsDecimal(s, n)
    decreases |s|
  {
    DigitsSpell(n);
    if SpellsDecimal(s, n) {
      var k := |s| - 1;
      if k > 0 {
        DecimalPositive(s[..k]);
        assert n / 10 == DecimalValue(s[..k]) && n % 10 == s[k] as int - 0x30;
        DigitsExactly(s[..k], n / 10);
        assert s == s[..k] + [s[k]];
      } else {
        assert DecimalValue(s[..0]) == 0;
        assert s == [s[0]] && n == s[0] as int - 0x30;
        assert Digits(n) == [0x30 + n];
      }
    }
  }

  /** Two's-complement reading of an unsigned word of the given modulus. */
  function Signed(u: nat, modulus: nat): int {
    if 2 * u < modulus then u else u - modulus
  }

  /** A snapshot of the process: the readable addresses and their bytes. */
  type Memory = map<int, byte>

  /** The memory that holds just these bytes. */
  function At(a: int, s: bytes): (m: Memory)
    ensures forall i :: i in m <==> a <= i < a + |s|
    ensures forall i | i in m :: m[i] == s[i - a]
  {
    if s == [] then map[] else At(a, s[..|s| - 1])[a + |s| - 1 := s[|s| - 1]]
  }

  predicate Readable(m: Memory, a: int, len: nat) {
    forall i | a <= i < a + len :: i in m
  }

  function Slice(m: Memory, a: int, len: nat): (s: bytes)
    requires Readable(m, a, len)
    ensures |s| == len
  {
    seq(len, i requires 0 <= i < len => m[a + i])
  }

  /** The fault-safe read: refuses null, non-canonical and empty requests. */
  function TryRead(m: Memory, a: int, len: nat): Option<bytes> {
    if a <= 0 || a >= CANONICAL_LIMIT || len == 0 || !Readable(m, a, len) then None
    else Some(Slice(m, a, len))
  }

  /** An unsigned word; a read that fails leaves the zero the caller started from. */
  function ReadWord(m: Memory, a: int, width: nat): (w: nat)
    ensures w < Pow256(width)
  {
    match TryRead(m, a, width)
    case None => 0
    case Some(s) => FromLittleEndianBound(s); FromLittleEndian(s)
  }

  // ---------- What memory shows, said byte by byte ----------

  /** From `a` on, the low byte of `w` comes first. */
  predicate BytesSpell(m: Memory, a: int, width: nat, w: nat)
    decreases width
  {
    if width == 0 then w == 0
    else a in m && m[a] == w % 256 && BytesSpell(m, a + 1, width - 1, w / 256)
  }

  predicate Fetchable(m: Memory, a: int, len: nat) {
    0 < a < 0x1_0000_0000_0000 && len > 0 && forall i | a <= i < a + len :: i in m
  }

  /** The bytes at `a` are those of `w`; memory that cannot be fetched shows zero. */
  predicate WordAt(m: Memory, a: int, width: nat, w: nat) {
    if Fetchable(m, a, width) then BytesSpell(m, a, width, w) else w == 0
  }

  /** The same for a two's-complement number. */
  predicate SignedAt(m: Memory, a: int, width: nat, n: int) {
    && 0 <= 2 * n + Pow256(width) && 2 * n < Pow256(width)
    && WordAt(m, a, width, if n < 0 then n + Pow256(width) else n)
  }

  lemma {:induction false} SpelledIsRead(m: Memory, a: int, width: nat, w: nat)
    requires Readable(m, a, width)
    ensures BytesSpell(m, a, width, w) <==> FromLittleEndian(Slice(m, a, width)) == w
    decreases width
  {
    if width != 0 {
      var s := Slice(m, a, width);
      assert s[1..] == Slice(m, a + 1, width - 1);
      SpelledIsRead(m, a + 1, width - 1, w / 256);
    }
  }

  /** Reading a word gives exactly the number the memory shows. */
  lemma WordAtIsRead(m: Memory, a: int, width: nat, w: nat)
    ensures WordAt(m, a, width, w) <==> ReadWord(m, a, width) == w
  {
    hide FromLittleEndian, BytesSpell;
    if Fetchable(m, a, width) {
      SpelledIsRead(m, a, width, w);
    }
  }

  lemma SignedAtIsRead(m: Memory, a: int, width: nat, n: int)
    requires width > 0
    ensures SignedAt(m, a, width, n) <==> Signed(ReadWord(m, a, width), Pow256(width)) == n
  {
    hide WordAt, ReadWord, Pow256;
    EvenModulus(width);
    var unsigned := if n < 0 then n + Pow256(width) else n;
    if unsigned >= 0 {
      WordAtIsRead(m, a, width, unsigned);
    }
  }

  lemma EvenModulus(width: nat)
    requires width > 0
    ensures Pow256(width) % 2 == 0
  {
  }
}
