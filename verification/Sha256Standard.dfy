/**
 What the tables and the word layout of SHA-256 are, apart from the code that uses them.
 */
module Sha256Standard {
  import opened Bytes
  import opened Sha256

  // ---------- Words and octets ----------

  /** A word is written with its most significant octet first, and read back so. */
  lemma OctetsAreBigEndian(w: word)
    ensures BigEndianValue(Octets(w)) == w as int
  {
    hide OctetsOf, BigEndianValue;
    ValueOfOctets(w as int);
  }

  lemma ValueOfOctets(n: nat)
    requires n < 0x1_0000_0000
    ensures BigEndianValue(OctetsOf(n)) == n
  {
    hide BigEndianValue;
    ValueOfFour(OctetsOf(n));
    assert n / 0x100 == n / 0x1_0000 * 256 + n / 0x100 % 256;
    assert n / 0x1_0000 == n / 0x100_0000 * 256 + n / 0x1_0000 % 256;
  }

  lemma ValueOfFour(s: bytes)
    requires |s| == 4
    ensures BigEndianValue(s) == Value4(s[0], s[1], s[2], s[3])
  {
    assert s[..3][..2] == s[..2] && s[..2][..1] == s[..1] && s[..1][..0] == [];
    assert BigEndianValue(s[..1]) == s[0] as int;
    assert BigEndianValue(s[..2]) == 256 * BigEndianValue(s[..1]) + s[1] as int;
    assert BigEndianValue(s[..3]) == 256 * BigEndianValue(s[..2]) + s[2] as int;
  }

  lemma WordIsBigEndian(s: bytes)
    requires |s| == 4
    ensures BigEndian32(s) as int == BigEndianValue(s) && Octets(BigEndian32(s)) == s
  {
    hide BigEndianValue, Octets, OctetsOf, BigEndian32, ToWord;
    var n := Value4(s[0], s[1], s[2], s[3]);
    BigEndian32Is(s);
    ValueOfFour(s);
    OctetsOfValue(s[0], s[1], s[2], s[3]);
    OctetsOfWord(n);
    assert s == [s[0], s[1], s[2], s[3]];
  }

  function Value4(a: byte, b: byte, c: byte, d: byte): (n: nat)
    ensures n < 0x1_0000_0000
  {
    ((a as int * 256 + b) * 256 + c) * 256 + d
  }

  lemma BigEndian32Is(s: bytes)
    requires |s| == 4
    ensures BigEndian32(s) == ToWord(Value4(s[0], s[1], s[2], s[3]))
  {
    hide ToWord;
  }

  lemma OctetsOfWord(n: nat)
    requires n < 0x1_0000_0000
    ensures Octets(ToWord(n)) == OctetsOf(n) && ToWord(n) as int == n
  {
    hide ToWord, OctetsOf;
    WordHolds(n);
  }

  lemma Doubled(w: word)
    requires w < 0x8000_0000
    ensures (w << 1) as int == 2 * (w as int) && ((w << 1) | 1) as int == 2 * (w as int) + 1
  {
  }

  lemma TopBitClear(w: word)
    requires w as int < 0x8000_0000
    ensures w < 0x8000_0000
  {
  }

  lemma {:induction false} SomeWord(n: nat) returns (w: word)
    requires n < 0x1_0000_0000
    ensures w as int == n
  {
    if n == 0 {
      w := 0;
    } else {
      var half := SomeWord(n / 2);
      TopBitClear(half);
      Doubled(half);
      w := if n % 2 == 0 then half << 1 else (half << 1) | 1;
    }
  }

  /** 32 bits hold any number below 2^32. */
  lemma WordHolds(n: nat)
    requires n < 0x1_0000_0000
    ensures ToWord(n) as int == n
  {
    var w := SomeWord(n);
    assert (w as int) as word == w;
  }

  lemma OctetsOfValue(a: byte, b: byte, c: byte, d: byte)
    ensures OctetsOf(Value4(a, b, c, d)) == [a, b, c, d]
  {
    var ab, abc := a as int * 256 + b, (a as int * 256 + b) * 256 + c;
    assert (abc * 256 + d) / 0x100 == abc && (abc * 256 + d) % 256 == d;
    assert abc / 0x100 == ab && abc % 256 == c;
    assert (abc * 256 + d) / 0x1_0000 == ab && (abc * 256 + d) / 0x100_0000 == a as int;
  }

  // ---------- The first primes ----------

  predicate Divides(d: nat, n: nat) { d > 0 && n % d == 0 }

  ghost predicate Prime(n: nat) { n >= 2 && forall d: nat | 2 <= d < n :: !Divides(d, n) }

  /** Divisible by no prime below 18 but itself. */
  predicate Sieved(n: nat) {
    && (n % 2 != 0 || n == 2) && (n % 3 != 0 || n == 3) && (n % 5 != 0 || n == 5) && (n % 7 != 0 || n == 7)
    && (n % 11 != 0 || n == 11) && (n % 13 != 0 || n == 13) && (n % 17 != 0 || n == 17)
  }

  lemma SmallFactor(s: nat, k: nat, n: nat)
    requires 2 <= s <= 18 && s < n == s * k
    ensures !Sieved(n)
  {
    if s in {3, 9, 15} {
      Thrice(s / 3, k, n);
    } else if s in {5, 7, 11, 13, 17} {
      Multiples(k);
      assert n == s * k;
    } else {
      assert s % 2 == 0;
      Even(s / 2, k, n);
    }
  }

  lemma Even(h: nat, k: nat, n: nat)
    requires n == 2 * h * k
    ensures n % 2 == 0
  {
    assert n == 2 * (h * k);
  }

  lemma Thrice(h: nat, k: nat, n: nat)
    requires n == 3 * h * k
    ensures n % 3 == 0
  {
    assert n == 3 * (h * k);
  }

  lemma Multiples(k: nat)
    ensures 5 * k % 5 == 7 * k % 7 == 11 * k % 11 == 13 * k % 13 == 17 * k % 17 == 0
  {
  }

  lemma Product(d: nat, q: nat, n: nat)
    requires n == d * q && 2 <= d < n < 361
    ensures 2 <= q < n && (d <= 18 || q <= 18)
  {
    assert (d - 2) * q >= 0;
    if d > 18 && q > 18 {
      LargeProduct(d, q);
    }
  }

  lemma LargeProduct(d: nat, q: nat)
    requires d > 18 && q > 18
    ensures d * q >= 361
  {
  }

  lemma SievedIsPrime(n: nat)
    requires 2 <= n < 361 && Sieved(n)
    ensures Prime(n)
  {
    hide Sieved;
    forall d: nat | 2 <= d < n
      ensures !Divides(d, n)
    {
      if Divides(d, n) {
        var q := n / d;
        assert n == d * q;
        Product(d, q, n);
        if d <= 18 {
          SmallFactor(d, q, n);
        } else {
          SmallFactor(q, d, n);
        }
      }
    }
  }

  lemma PrimeIsSieved(n: nat)
    requires 2 <= n && Prime(n)
    ensures Sieved(n)
  {
    assert n > 2 ==> !Divides(2, n);
    assert n > 3 ==> !Divides(3, n);
    assert n > 5 ==> !Divides(5, n);
    assert n > 7 ==> !Divides(7, n);
    assert n > 11 ==> !Divides(11, n);
    assert n > 13 ==> !Divides(13, n);
    assert n > 17 ==> !Divides(17, n);
  }

  /** No prime lies strictly between. */
  predicate NoneFrom(n: nat, q: nat)
    decreases q - n
  {
    n >= q || (!Sieved(n) && NoneFrom(n + 1, q))
  }

  lemma {:induction false} NoneFromMeans(n: nat, q: nat, k: nat)
    requires NoneFrom(n, q) && 2 <= n <= k < q
    ensures !Prime(k)
    decreases q - n
  {
    hide Sieved;
    if n == k {
      if Prime(k) {
        PrimeIsSieved(k);
      }
    } else {
      NoneFromMeans(n + 1, q, k);
    }
  }

  ghost predicate Consecutive(p: nat, q: nat) {
    p < q && Prime(p) && Prime(q) && forall n: nat | p < n < q :: !Prime(n)
  }

  lemma FollowsPrime(p: nat, next: nat, q: nat)
    requires 2 <= p < next == p + 1 <= q < 361 && Sieved(p) && Sieved(q) && NoneFrom(next, q)
    ensures Consecutive(p, q)
  {
    hide Sieved, NoneFrom;
    SievedIsPrime(p);
    SievedIsPrime(q);
    forall n: nat | p < n < q
      ensures !Prime(n)
    {
      NoneFromMeans(p + 1, q, n);
    }
  }

  /** `p` is the i-th prime, counting from 0. */
  ghost predicate PrimeAt(i: nat, p: nat) {
    if i == 0 then p == 2 else exists q: nat :: PrimeAt(i - 1, q) && Consecutive(q, p)
  }

  lemma Follow(i: nat, p: nat, next: nat, q: nat)
    requires PrimeAt(i, p)
    requires 2 <= p < next == p + 1 <= q < 361 && Sieved(p) && Sieved(q) && NoneFrom(next, q)
    ensures PrimeAt(i + 1, q)
  {
    hide Consecutive, Sieved, NoneFrom;
    FollowsPrime(p, next, q);
  }

  lemma FirstPrime()
    ensures PrimeAt(0, 2)
  {
  }

  // ---------- The constants ----------

  const TWO_TO_THE_96: nat := 0x1_0000_0000_0000_0000_0000_0000

  function Cube(x: nat): nat { x * x * x }

  function Square(x: nat): nat { x * x }

  /** The first 32 bits of the fractional part of the cube root of `p`: the cube root of p * 2^96,
      rounded down, without its bits from 2^32 up. */
  ghost predicate CubeRootBits(k: word, p: nat) {
    exists x: nat :: Cube(x) <= p * TWO_TO_THE_96 < Cube(x + 1) && k as int == x % 0x1_0000_0000
  }

  ghost predicate SquareRootBits(h: word, p: nat) {
    exists x: nat :: Square(x) <= p * TWO_TO_THE_64 < Square(x + 1) && h as int == x % 0x1_0000_0000
  }

  ghost predicate IsConstant(i: nat)
    requires i < 64
  {
    exists p: nat :: PrimeAt(i, p) && CubeRootBits(K(i), p)
  }

  lemma CubeRoot(i: nat, p: nat, k: word, x: nat, y: nat)
    requires i < 64 && PrimeAt(i, p) && K(i) == k
    requires Cube(x) <= p * TWO_TO_THE_96 < Cube(y) && y == x + 1 && k as int == x % 0x1_0000_0000
    ensures IsConstant(i)
  {
    hide PrimeAt, Cube, K;
    assert CubeRootBits(k, p);
  }

  lemma ConstantsFrom0()
    ensures forall i | 0 <= i < 4 :: IsConstant(i)
    ensures PrimeAt(4, 11)
  {
    hide PrimeAt, Consecutive, IsConstant;
    FirstPrime();
    CubeRoot(0, 2, 0x428a2f98, 0x1_428a2f98, 0x1_428a2f99);
    Follow(0, 2, 3, 3);
    CubeRoot(1, 3, 0x71374491, 0x1_71374491, 0x1_71374492);
    Follow(1, 3, 4, 5);
    CubeRoot(2, 5, 0xb5c0fbcf, 0x1_b5c0fbcf, 0x1_b5c0fbd0);
    Follow(2, 5, 6, 7);
    CubeRoot(3, 7, 0xe9b5dba5, 0x1_e9b5dba5, 0x1_e9b5dba6);
    Follow(3, 7, 8, 11);
  }

  lemma ConstantsFrom4()
    requires PrimeAt(4, 11)
    ensures forall i | 4 <= i < 8 :: IsConstant(i)
    ensures PrimeAt(8, 23)
  {
    hide PrimeAt, Consecutive, IsConstant;
    CubeRoot(4, 11, 0x3956c25b, 0x2_3956c25b, 0x2_3956c25c);
    Follow(4, 11, 12, 13);
    CubeRoot(5, 13, 0x59f111f1, 0x2_59f111f1, 0x2_59f111f2);
    Follow(5, 13, 14, 17);
    CubeRoot(6, 17, 0x923f82a4, 0x2_923f82a4, 0x2_923f82a5);
    Follow(6, 17, 18, 19);
    CubeRoot(7, 19, 0xab1c5ed5, 0x2_ab1c5ed5, 0x2_ab1c5ed6);
    Follow(7, 19, 20, 23);
  }

  lemma ConstantsFrom8()
    requires PrimeAt(8, 23)
    ensures forall i | 8 <= i < 12 :: IsConstant(i)
    ensures PrimeAt(12, 41)
  {
    hide PrimeAt, Consecutive, IsConstant;
    CubeRoot(8, 23, 0xd807aa98, 0x2_d807aa98, 0x2_d807aa99);
    Follow(8, 23, 24, 29);
    CubeRoot(9, 29, 0x12835b01, 0x3_12835b01, 0x3_12835b02);
    Follow(9, 29, 30, 31);
    CubeRoot(10, 31, 0x243185be, 0x3_243185be, 0x3_243185bf);
    Follow(10, 31, 32, 37);
    CubeRoot(11, 37, 0x550c7dc3, 0x3_550c7dc3, 0x3_550c7dc4);
    Follow(11, 37, 38, 41);
  }

  lemma ConstantsFrom12()
    requires PrimeAt(12, 41)
    ensures forall i | 12 <= i < 16 :: IsConstant(i)
    ensures PrimeAt(16, 59)
  {
    hide PrimeAt, Consecutive, IsConstant;
    CubeRoot(12, 41, 0x72be5d74, 0x3_72be5d74, 0x3_72be5d75);
    Follow(12, 41, 42, 43);
    CubeRoot(13, 43, 0x80deb1fe, 0x3_80deb1fe, 0x3_80deb1ff);
    Follow(13, 43, 44, 47);
    CubeRoot(14, 47, 0x9bdc06a7, 0x3_9bdc06a7, 0x3_9bdc06a8);
    Follow(14, 47, 48, 53);
    CubeRoot(15, 53, 0xc19bf174, 0x3_c19bf174, 0x3_c19bf175);
    Follow(15, 53, 54, 59);
  }

  lemma ConstantsFrom16()
    requires PrimeAt(16, 59)
    ensures forall i | 16 <= i < 20 :: IsConstant(i)
    ensures PrimeAt(20, 73)
  {
    hide PrimeAt, Consecutive, IsConstant;
    CubeRoot(16, 59, 0xe49b69c1, 0x3_e49b69c1, 0x3_e49b69c2);
    Follow(16, 59, 60, 61);
    CubeRoot(17, 61, 0xefbe4786, 0x3_efbe4786, 0x3_efbe4787);
    Follow(17, 61, 62, 67);
    CubeRoot(18, 67, 0xfc19dc6, 0x4_0fc19dc6, 0x4_0fc19dc7);
    Follow(18, 67, 68, 71);
    CubeRoot(19, 71, 0x240ca1cc, 0x4_240ca1cc, 0x4_240ca1cd);
    Follow(19, 71, 72, 73);
  }

  lemma ConstantsFrom20()
    requires PrimeAt(20, 73)
    ensures forall i | 20 <= i < 24 :: IsConstant(i)
    ensures PrimeAt(24, 97)
  {
    hide PrimeAt, Consecutive, IsConstant;
    CubeRoot(20, 73, 0x2de92c6f, 0x4_2de92c6f, 0x4_2de92c70);
    Follow(20, 73, 74, 79);
    CubeRoot(21, 79, 0x4a7484aa, 0x4_4a7484aa, 0x4_4a7484ab);
    Follow(21, 79, 80, 83);
    CubeRoot(22, 83, 0x5cb0a9dc, 0x4_5cb0a9dc, 0x4_5cb0a9dd);
    Follow(22, 83, 84, 89);
    CubeRoot(23, 89, 0x76f988da, 0x4_76f988da, 0x4_76f988db);
    Follow(23, 89, 90, 97);
  }

  lemma ConstantsFrom24()
    requires PrimeAt(24, 97)
    ensures forall i | 24 <= i < 28 :: IsConstant(i)
    ensures PrimeAt(28, 109)
  {
    hide PrimeAt, Consecutive, IsConstant;
    CubeRoot(24, 97, 0x983e5152, 0x4_983e5152, 0x4_983e5153);
    Follow(24, 97, 98, 101);
    CubeRoot(25, 101, 0xa831c66d, 0x4_a831c66d, 0x4_a831c66e);
    Follow(25, 101, 102, 103);
    CubeRoot(26, 103, 0xb00327c8, 0x4_b00327c8, 0x4_b00327c9);
    Follow(26, 103, 104, 107);
    CubeRoot(27, 107, 0xbf597fc7, 0x4_bf597fc7, 0x4_bf597fc8);
    Follow(27, 107, 108, 109);
  }

  lemma ConstantsFrom28()
    requires PrimeAt(28, 109)
    ensures forall i | 28 <= i < 32 :: IsConstant(i)
    ensures PrimeAt(32, 137)
  {
    hide PrimeAt, Consecutive, IsConstant;
    CubeRoot(28, 109, 0xc6e00bf3, 0x4_c6e00bf3, 0x4_c6e00bf4);
    Follow(28, 109, 110, 113);
    CubeRoot(29, 113, 0xd5a79147, 0x4_d5a79147, 0x4_d5a79148);
    Follow(29, 113, 114, 127);
    CubeRoot(30, 127, 0x6ca6351, 0x5_06ca6351, 0x5_06ca6352);
    Follow(30, 127, 128, 131);
    CubeRoot(31, 131, 0x14292967, 0x5_14292967, 0x5_14292968);
    Follow(31, 131, 132, 137);
  }

  lemma ConstantsFrom32()
    requires PrimeAt(32, 137)
    ensures forall i | 32 <= i < 36 :: IsConstant(i)
    ensures PrimeAt(36, 157)
  {
    hide PrimeAt, Consecutive, IsConstant;
    CubeRoot(32, 137, 0x27b70a85, 0x5_27b70a85, 0x5_27b70a86);
    Follow(32, 137, 138, 139);
    CubeRoot(33, 139, 0x2e1b2138, 0x5_2e1b2138, 0x5_2e1b2139);
    Follow(33, 139, 140, 149);
    CubeRoot(34, 149, 0x4d2c6dfc, 0x5_4d2c6dfc, 0x5_4d2c6dfd);
    Follow(34, 149, 150, 151);
    CubeRoot(35, 151, 0x53380d13, 0x5_53380d13, 0x5_53380d14);
    Follow(35, 151, 152, 157);
  }

  lemma ConstantsFrom36()
    requires PrimeAt(36, 157)
    ensures forall i | 36 <= i < 40 :: IsConstant(i)
    ensures PrimeAt(40, 179)
  {
    hide PrimeAt, Consecutive, IsConstant;
    CubeRoot(36, 157, 0x650a7354, 0x5_650a7354, 0x5_650a7355);
    Follow(36, 157, 158, 163);
    CubeRoot(37, 163, 0x766a0abb, 0x5_766a0abb, 0x5_766a0abc);
    Follow(37, 163, 164, 167);
    CubeRoot(38, 167, 0x81c2c92e, 0x5_81c2c92e, 0x5_81c2c92f);
    Follow(38, 167, 168, 173);
    CubeRoot(39, 173, 0x92722c85, 0x5_92722c85, 0x5_92722c86);
    Follow(39, 173, 174, 179);
  }

  lemma ConstantsFrom40()
    requires PrimeAt(40, 179)
    ensures forall i | 40 <= i < 44 :: IsConstant(i)
    ensures PrimeAt(44, 197)
  {
    hide PrimeAt, Consecutive, IsConstant;
    CubeRoot(40, 179, 0xa2bfe8a1, 0x5_a2bfe8a1, 0x5_a2bfe8a2);
    Follow(40, 179, 180, 181);
    CubeRoot(41, 181, 0xa81a664b, 0x5_a81a664b, 0x5_a81a664c);
    Follow(41, 181, 182, 191);
    CubeRoot(42, 191, 0xc24b8b70, 0x5_c24b8b70, 0x5_c24b8b71);
    Follow(42, 191, 192, 193);
    CubeRoot(43, 193, 0xc76c51a3, 0x5_c76c51a3, 0x5_c76c51a4);
    Follow(43, 193, 194, 197);
  }

  lemma ConstantsFrom44()
    requires PrimeAt(44, 197)
    ensures forall i | 44 <= i < 48 :: IsConstant(i)
    ensures PrimeAt(48, 227)
  {
    hide PrimeAt, Consecutive, IsConstant;
    CubeRoot(44, 197, 0xd192e819, 0x5_d192e819, 0x5_d192e81a);
    Follow(44, 197, 198, 199);
    CubeRoot(45, 199, 0xd6990624, 0x5_d6990624, 0x5_d6990625);
    Follow(45, 199, 200, 211);
    CubeRoot(46, 211, 0xf40e3585, 0x5_f40e3585, 0x5_f40e3586);
    Follow(46, 211, 212, 223);
    CubeRoot(47, 223, 0x106aa070, 0x6_106aa070, 0x6_106aa071);
    Follow(47, 223, 224, 227);
  }

  lemma ConstantsFrom48()
    requires PrimeAt(48, 227)
    ensures forall i | 48 <= i < 52 :: IsConstant(i)
    ensures PrimeAt(52, 241)
  {
    hide PrimeAt, Consecutive, IsConstant;
    CubeRoot(48, 227, 0x19a4c116, 0x6_19a4c116, 0x6_19a4c117);
    Follow(48, 227, 228, 229);
    CubeRoot(49, 229, 0x1e376c08, 0x6_1e376c08, 0x6_1e376c09);
    Follow(49, 229, 230, 233);
    CubeRoot(50, 233, 0x2748774c, 0x6_2748774c, 0x6_2748774d);
    Follow(50, 233, 234, 239);
    CubeRoot(51, 239, 0x34b0bcb5, 0x6_34b0bcb5, 0x6_34b0bcb6);
    Follow(51, 239, 240, 241);
  }

  lemma ConstantsFrom52()
    requires PrimeAt(52, 241)
    ensures forall i | 52 <= i < 56 :: IsConstant(i)
    ensures PrimeAt(56, 269)
  {
    hide PrimeAt, Consecutive, IsConstant;
    CubeRoot(52, 241, 0x391c0cb3, 0x6_391c0cb3, 0x6_391c0cb4);
    Follow(52, 241, 242, 251);
    CubeRoot(53, 251, 0x4ed8aa4a, 0x6_4ed8aa4a, 0x6_4ed8aa4b);
    Follow(53, 251, 252, 257);
    CubeRoot(54, 257, 0x5b9cca4f, 0x6_5b9cca4f, 0x6_5b9cca50);
    Follow(54, 257, 258, 263);
    CubeRoot(55, 263, 0x682e6ff3, 0x6_682e6ff3, 0x6_682e6ff4);
    Follow(55, 263, 264, 269);
  }

  lemma ConstantsFrom56()
    requires PrimeAt(56, 269)
    ensures forall i | 56 <= i < 60 :: IsConstant(i)
    ensures PrimeAt(60, 283)
  {
    hide PrimeAt, Consecutive, IsConstant;
    CubeRoot(56, 269, 0x748f82ee, 0x6_748f82ee, 0x6_748f82ef);
    Follow(56, 269, 270, 271);
    CubeRoot(57, 271, 0x78a5636f, 0x6_78a5636f, 0x6_78a56370);
    Follow(57, 271, 272, 277);
    CubeRoot(58, 277, 0x84c87814, 0x6_84c87814, 0x6_84c87815);
    Follow(58, 277, 278, 281);
    CubeRoot(59, 281, 0x8cc70208, 0x6_8cc70208, 0x6_8cc70209);
    Follow(59, 281, 282, 283);
  }

  lemma ConstantsFrom60()
    requires PrimeAt(60, 283)
    ensures forall i | 60 <= i < 64 :: IsConstant(i)
  {
    hide PrimeAt, Consecutive, IsConstant;
    CubeRoot(60, 283, 0x90befffa, 0x6_90befffa, 0x6_90befffb);
    Follow(60, 283, 284, 293);
    CubeRoot(61, 293, 0xa4506ceb, 0x6_a4506ceb, 0x6_a4506cec);
    Follow(61, 293, 294, 307);
    CubeRoot(62, 307, 0xbef9a3f7, 0x6_bef9a3f7, 0x6_bef9a3f8);
    Follow(62, 307, 308, 311);
    CubeRoot(63, 311, 0xc67178f2, 0x6_c67178f2, 0x6_c67178f3);
  }

  /** Section 4.2.2: each of the 64 constants is the first 32 bits of the fractional part of the cube
      root of the prime of that number. */
  lemma ConstantsAreCubeRoots(i: nat)
    requires i < 64
    ensures exists p: nat :: PrimeAt(i, p) && CubeRootBits(K(i), p)
  {
    hide IsConstant, K, PrimeAt, CubeRootBits;
    ConstantsFrom0();
    ConstantsFrom4();
    ConstantsFrom8();
    ConstantsFrom12();
    ConstantsFrom16();
    ConstantsFrom20();
    ConstantsFrom24();
    ConstantsFrom28();
    ConstantsFrom32();
    ConstantsFrom36();
    ConstantsFrom40();
    ConstantsFrom44();
    ConstantsFrom48();
    ConstantsFrom52();
    ConstantsFrom56();
    ConstantsFrom60();
    assert IsConstant(i);
    ConstantMeans(i);
  }

  lemma ConstantMeans(i: nat)
    requires i < 64 && IsConstant(i)
    ensures exists p: nat :: PrimeAt(i, p) && CubeRootBits(K(i), p)
  {
  }

  lemma SquareRoot(h: word, p: nat, x: nat, y: nat)
    requires Square(x) <= p * TWO_TO_THE_64 < Square(y) && y == x + 1 && h as int == x % 0x1_0000_0000
    ensures SquareRootBits(h, p)
  {
    hide Square;
  }

  /** Section 5.3.3: the initial hash value is made of the first 32 bits of the fractional parts of
      the square roots of the first eight primes. */
  lemma InitialIsSquareRoots()
    ensures PrimeAt(0, 2) && SquareRootBits(H0.a, 2)
    ensures PrimeAt(1, 3) && SquareRootBits(H0.b, 3)
    ensures PrimeAt(2, 5) && SquareRootBits(H0.c, 5)
    ensures PrimeAt(3, 7) && SquareRootBits(H0.d, 7)
    ensures PrimeAt(4, 11) && SquareRootBits(H0.e, 11)
    ensures PrimeAt(5, 13) && SquareRootBits(H0.f, 13)
    ensures PrimeAt(6, 17) && SquareRootBits(H0.g, 17)
    ensures PrimeAt(7, 19) && SquareRootBits(H0.h, 19)
  {
    hide PrimeAt, Consecutive, SquareRootBits;
    FirstPrime();
    SquareRoot(H0.a, 2, 0x1_6a09e667, 0x1_6a09e668);
    Follow(0, 2, 3, 3);
    SquareRoot(H0.b, 3, 0x1_bb67ae85, 0x1_bb67ae86);
    Follow(1, 3, 4, 5);
    SquareRoot(H0.c, 5, 0x2_3c6ef372, 0x2_3c6ef373);
    Follow(2, 5, 6, 7);
    SquareRoot(H0.d, 7, 0x2_a54ff53a, 0x2_a54ff53b);
    Follow(3, 7, 8, 11);
    SquareRoot(H0.e, 11, 0x3_510e527f, 0x3_510e5280);
    Follow(4, 11, 12, 13);
    SquareRoot(H0.f, 13, 0x3_9b05688c, 0x3_9b05688d);
    Follow(5, 13, 14, 17);
    SquareRoot(H0.g, 17, 0x4_1f83d9ab, 0x4_1f83d9ac);
    Follow(6, 17, 18, 19);
    SquareRoot(H0.h, 19, 0x4_5be0cd19, 0x4_5be0cd1a);
  }
}
