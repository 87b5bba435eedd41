/**
 Streaming SHA-256: the buffered object refines the one-shot hash of FIPS 180-4.
 */
module Sha256 {
  import opened Bytes

  type word = bv32

  // ---------- FIPS 180-4 ----------

  /** Section 4.2.2, eight constants a row. */
  const K_ROWS: seq<seq<word>> := [
    [0x428a2f98, 0x71374491, 0xb5c0fbcf, 0xe9b5dba5, 0x3956c25b, 0x59f111f1, 0x923f82a4, 0xab1c5ed5],
    [0xd807aa98, 0x12835b01, 0x243185be, 0x550c7dc3, 0x72be5d74, 0x80deb1fe, 0x9bdc06a7, 0xc19bf174],
    [0xe49b69c1, 0xefbe4786, 0x0fc19dc6, 0x240ca1cc, 0x2de92c6f, 0x4a7484aa, 0x5cb0a9dc, 0x76f988da],
    [0x983e5152, 0xa831c66d, 0xb00327c8, 0xbf597fc7, 0xc6e00bf3, 0xd5a79147, 0x06ca6351, 0x14292967],
    [0x27b70a85, 0x2e1b2138, 0x4d2c6dfc, 0x53380d13, 0x650a7354, 0x766a0abb, 0x81c2c92e, 0x92722c85],
    [0xa2bfe8a1, 0xa81a664b, 0xc24b8b70, 0xc76c51a3, 0xd192e819, 0xd6990624, 0xf40e3585, 0x106aa070],
    [0x19a4c116, 0x1e376c08, 0x2748774c, 0x34b0bcb5, 0x391c0cb3, 0x4ed8aa4a, 0x5b9cca4f, 0x682e6ff3],
    [0x748f82ee, 0x78a5636f, 0x84c87814, 0x8cc70208, 0x90befffa, 0xa4506ceb, 0xbef9a3f7, 0xc67178f2]]

  function K(t: nat): word
    requires t < 64
  {
    K_ROWS[t / 8][t % 8]
  }

  /** The working variables, and the hash value. */
  datatype Registers = Registers(a: word, b: word, c: word, d: word, e: word, f: word, g: word, h: word)

  /** Section 5.3.3. */
  const H0 := Registers(0x6a09e667, 0xbb67ae85, 0x3c6ef372, 0xa54ff53a,
                        0x510e527f, 0x9b05688c, 0x1f83d9ab, 0x5be0cd19)

  /** Addition modulo 2^32 (section 3.2), and the functions of section 4.1.2. */
  function Plus(x: word, y: word): word { x + y }

  function Xor(x: word, y: word, z: word): word { x ^ y ^ z }

  function Ch(x: word, y: word, z: word): word { (x & y) ^ (!x & z) }

  function Maj(x: word, y: word, z: word): word { (x & y) ^ (x & z) ^ (y & z) }

  function BigSigma0(x: word): word { Xor(x.RotateRight(2), x.RotateRight(13), x.RotateRight(22)) }

  function BigSigma1(x: word): word { Xor(x.RotateRight(6), x.RotateRight(11), x.RotateRight(25)) }

  function SmallSigma0(x: word): word { Xor(x.RotateRight(7), x.RotateRight(18), x >> 3) }

  function SmallSigma1(x: word): word { Xor(x.RotateRight(17), x.RotateRight(19), x >> 10) }

  function BigEndian32(s: bytes): word
    requires |s| == 4
  {
    ToWord(((s[0] as int * 256 + s[1]) * 256 + s[2]) * 256 + s[3])
  }

  function ToWord(n: nat): word
    requires n < 0x1_0000_0000
  {
    n as word
  }

  /** The message schedule of section 6.2.2. */
  function Schedule(block: bytes, t: nat): word
    requires |block| == 64 && t < 64
  {
    if t < 16 then BigEndian32(block[4 * t..4 * t + 4])
    else Plus(Plus(Plus(SmallSigma1(Schedule(block, t - 2)), Schedule(block, t - 7)),
                   SmallSigma0(Schedule(block, t - 15))), Schedule(block, t - 16))
  }

  lemma ScheduleStarts(block: bytes, t: nat)
    requires |block| == 64 && t < 16
    ensures Schedule(block, t) == BigEndian32(block[4 * t..4 * t + 4])
  {
  }

  lemma ScheduleExtends(block: bytes, t: nat)
    requires |block| == 64 && 16 <= t < 64
    ensures Schedule(block, t)
         == Plus(Plus(Plus(SmallSigma1(Schedule(block, t - 2)), Schedule(block, t - 7)),
                      SmallSigma0(Schedule(block, t - 15))), Schedule(block, t - 16))
  {
    hide Plus, SmallSigma0, SmallSigma1;
  }

  function Round(r: Registers, k: word, w: word): Registers {
    var t1 := Plus(Plus(Plus(Plus(r.h, BigSigma1(r.e)), Ch(r.e, r.f, r.g)), k), w);
    var t2 := Plus(BigSigma0(r.a), Maj(r.a, r.b, r.c));
    Registers(Plus(t1, t2), r.a, r.b, r.c, Plus(r.d, t1), r.e, r.f, r.g)
  }

  function Rounds(r: Registers, block: bytes, t: nat): Registers
    requires |block| == 64 && t <= 64
  {
    if t == 0 then r else Round(Rounds(r, block, t - 1), K(t - 1), Schedule(block, t - 1))
  }

  function Add(x: Registers, y: Registers): Registers {
    Registers(Plus(x.a, y.a), Plus(x.b, y.b), Plus(x.c, y.c), Plus(x.d, y.d),
              Plus(x.e, y.e), Plus(x.f, y.f), Plus(x.g, y.g), Plus(x.h, y.h))
  }

  function Compress(h: Registers, block: bytes): Registers
    requires |block| == 64
  {
    Add(Rounds(h, block, 64), h)
  }

  predicate WholeBlocks(n: nat) { n % 64 == 0 }

  /** The hash value after whole blocks. */
  function HashBlocks(m: bytes): Registers
    requires WholeBlocks(|m|)
  {
    if m == [] then H0 else Compress(HashBlocks(m[..|m| - 64]), m[|m| - 64..])
  }

  /** The low `width` octets of `n`, most significant first. */
  function BigEndian(n: nat, width: nat): (s: bytes)
    ensures |s| == width
    decreases width
  {
    if width == 0 then [] else BigEndian(n / 256, width - 1) + [n % 256]
  }

  const ONE_BIT: bytes := [0x80]

  /** Section 5.1.1: a one bit, the fewest zero bits, and the length in bits. */
  function Padding(length: nat): (p: bytes)
    ensures WholeBlocks(length + |p|)
  {
    hide PadZeros, BigEndian;
    ONE_BIT + Zeros(PadZeros(length)) + BigEndian(8 * length, 8)
  }

  /** The fewest zero octets that leave eight octets of the last block. */
  function PadZeros(length: nat): (z: nat)
    ensures z < 64 && WholeBlocks(length + 1 + z + 8)
  {
    (55 - length) % 64
  }

  function Octets(w: word): (s: bytes)
    ensures |s| == 4
  {
    OctetsOf(w as int)
  }

  function OctetsOf(n: nat): (s: bytes)
    requires n < 0x1_0000_0000
    ensures |s| == 4
  {
    [n / 0x100_0000, n / 0x1_0000 % 256, n / 0x100 % 256, n % 256]
  }

  function Digest(h: Registers): bytes {
    Octets(h.a) + Octets(h.b) + Octets(h.c) + Octets(h.d)
    + Octets(h.e) + Octets(h.f) + Octets(h.g) + Octets(h.h)
  }

  /** Section 6.2. */
  function Sha256(m: bytes): bytes {
    Digest(HashBlocks(m + Padding(|m|)))
  }

  // ---------- The streaming object ----------

  function Rotate(x: word, n: nat): word
    requires 0 < n < 32
  {
    (x >> n) | (x << (32 - n))
  }

  /** Two shifts and an or are a rotation, for every count used. */
  lemma RotateIs(x: word)
    ensures Rotate(x, 2) == x.RotateRight(2) && Rotate(x, 13) == x.RotateRight(13)
    ensures Rotate(x, 22) == x.RotateRight(22) && Rotate(x, 6) == x.RotateRight(6)
    ensures Rotate(x, 11) == x.RotateRight(11) && Rotate(x, 25) == x.RotateRight(25)
    ensures Rotate(x, 7) == x.RotateRight(7) && Rotate(x, 18) == x.RotateRight(18)
    ensures Rotate(x, 17) == x.RotateRight(17) && Rotate(x, 19) == x.RotateRight(19)
  {
  }

  /** The source's sums of rotations are the functions of the standard. */
  lemma SumsAre(x: word)
    ensures Sum0(x) == BigSigma0(x) && Sum1(x) == BigSigma1(x)
    ensures Stretch0(x) == SmallSigma0(x) && Stretch1(x) == SmallSigma1(x)
  {
    hide Xor, Rotate;
    RotateIs(x);
  }

  function Sum0(a: word): word { Xor(Rotate(a, 2), Rotate(a, 13), Rotate(a, 22)) }

  function Sum1(e: word): word { Xor(Rotate(e, 6), Rotate(e, 11), Rotate(e, 25)) }

  function Stretch0(w: word): word { Xor(Rotate(w, 7), Rotate(w, 18), w >> 3) }

  function Stretch1(w: word): word { Xor(Rotate(w, 17), Rotate(w, 19), w >> 10) }

  lemma PlusIs(x: word, y: word)
    ensures Plus(x, y) == x + y
  {
  }

  lemma SumsAgree(x: word, y: word, z: word, xy: word, yz: word)
    requires xy == x + y && yz == y + z
    ensures Plus(xy, z) == Plus(x, yz)
  {
  }

  lemma PlusAssociates(x: word, y: word, z: word)
    ensures Plus(Plus(x, y), z) == Plus(x, Plus(y, z))
  {
    hide Plus;
    PlusIs(x, y);
    PlusIs(y, z);
    SumsAgree(x, y, z, Plus(x, y), Plus(y, z));
  }

  lemma SumReverses(a: word, b: word, c: word, d: word)
    ensures Plus(Plus(Plus(a, b), c), d) == Plus(Plus(Plus(d, c), b), a)
  {
    hide Plus;
    PlusCommutes(Plus(Plus(a, b), c), d);
    PlusCommutes(Plus(a, b), c);
    PlusCommutes(a, b);
    PlusAssociates(d, c, Plus(b, a));
    PlusAssociates(Plus(d, c), b, a);
  }

  lemma PlusCommutes(x: word, y: word)
    ensures Plus(x, y) == Plus(y, x)
  {
  }

  lemma AddCommutes(x: Registers, y: Registers)
    ensures Add(x, y) == Add(y, x)
  {
    hide Plus;
    PlusCommutes(x.a, y.a);
    PlusCommutes(x.b, y.b);
    PlusCommutes(x.c, y.c);
    PlusCommutes(x.d, y.d);
    PlusCommutes(x.e, y.e);
    PlusCommutes(x.f, y.f);
    PlusCommutes(x.g, y.g);
    PlusCommutes(x.h, y.h);
  }

  class Hasher {
    var state: Registers
    const buffer: array<byte>
    var totalBytes: nat
    var buffered: nat
    var finished: bool
    /** Everything passed to `Update` before `Finish`, and its prefix of transformed blocks. */
    ghost var message: bytes
    ghost var whole: bytes

    /** The buffer holds what follows the transformed blocks. */
    ghost predicate Buffering()
      reads this, buffer
    {
      hide HashBlocks;
      && buffer.Length == 64 && buffered < 64
      && WholeBlocks(|whole|) && state == HashBlocks(whole)
      && message == whole + buffer[..buffered]
    }

    ghost predicate Valid()
      reads this, buffer
    {
      hide HashBlocks, Padding;
      if finished then buffer.Length == 64 && state == HashBlocks(message + Padding(|message|))
      else Buffering() && totalBytes == |message| % TWO_TO_THE_64
    }

    constructor ()
      ensures Valid() && fresh(buffer) && message == [] && !finished
    {
      state := H0;
      buffer := new byte[64](_ => 0);
      totalBytes, buffered, finished := 0, 0, false;
      message, whole := [], [];
    }

    method Words() returns (words: array<word>)
      requires buffer.Length == 64
      ensures fresh(words) && words.Length == 64
      ensures forall t | 0 <= t < 64 :: words[t] == Schedule(buffer[..], t)
    {
      hide SmallSigma0, SmallSigma1, BigEndian32, Plus, Schedule, Extend;
      words := new word[64](_ => 0);
      ghost var block := buffer[..];
      for i := 0 to 16
        invariant forall t | 0 <= t < i :: words[t] == Schedule(block, t)
      {
        assert buffer[4 * i..4 * i + 4] == block[4 * i..4 * i + 4];
        ScheduleStarts(block, i);
        words[i] := BigEndian32(buffer[4 * i..4 * i + 4]);
      }
      for i := 16 to 64
        invariant forall t | 0 <= t < i :: words[t] == Schedule(block, t)
      {
        ScheduleExtends(block, i);
        words[i] := Extend(words[i - 16], words[i - 15], words[i - 7], words[i - 2]);
      }
    }

    /** One step of the schedule loop, with the source's rotations and order of addition. */
    function Extend(w16: word, w15: word, w7: word, w2: word): (w: word)
      ensures w == Plus(Plus(Plus(SmallSigma1(w2), w7), SmallSigma0(w15)), w16)
    {
      hide Plus, SmallSigma0, SmallSigma1, Stretch0, Stretch1;
      SumsAre(w15);
      SumsAre(w2);
      var s0, s1 := Stretch0(w15), Stretch1(w2);
      SumReverses(w16, s0, w7, s1);
      Plus(Plus(Plus(w16, s0), w7), s1)
    }

    method Mix(r: Registers, k: word, w: word) returns (next: Registers)
      ensures next == Round(r, k, w)
    {
      hide Plus, Ch, Maj, BigSigma0, BigSigma1, Sum0, Sum1;
      SumsAre(r.e);
      SumsAre(r.a);
      var Registers(a, b, c, d, e, f, g, h) := r;
      var sum1 := Sum1(e);
      var temp1 := Plus(Plus(Plus(Plus(h, sum1), Ch(e, f, g)), k), w);
      var sum0 := Sum0(a);
      var temp2 := Plus(sum0, Maj(a, b, c));
      h := g;
      g := f;
      f := e;
      e := Plus(d, temp1);
      d := c;
      c := b;
      b := a;
      a := Plus(temp1, temp2);
      next := Registers(a, b, c, d, e, f, g, h);
    }

    method Transform()
      requires buffer.Length == 64
      modifies this`state
      ensures state == Compress(old(state), buffer[..])
    {
      hide Round, Schedule, Plus;
      var words := Words();
      var r := state;
      for i := 0 to 64
        invariant state == old(state) && r == Rounds(state, buffer[..], i)
        invariant forall t | 0 <= t < 64 :: words[t] == Schedule(buffer[..], t)
      {
        r := Mix(r, K(i), words[i]);
      }
      AddCommutes(state, r);
      state := Add(state, r);
    }

    method Update(bytes: bytes)
      requires Valid()
      modifies this, buffer
      ensures Valid() && finished == old(finished)
      ensures message == if finished then old(message) else old(message) + bytes
      ensures finished ==> state == old(state)
    {
      hide HashBlocks, Padding;
      if finished {
        return;
      }
      totalBytes := (totalBytes + |bytes|) % TWO_TO_THE_64;
      LengthAdds(|message|, |bytes|);
      ghost var total := totalBytes;
      var done := 0;
      while done < |bytes|
        invariant done <= |bytes| && !finished && Buffering() && totalBytes == total
        invariant message == old(message) + bytes[..done]
      {
        var amount := if 64 - buffered < |bytes| - done then 64 - buffered else |bytes| - done;
        Fill(bytes[done..done + amount]);
        assert bytes[..done + amount] == bytes[..done] + bytes[done..done + amount];
        done := done + amount;
      }
      assert bytes[..done] == bytes;
    }

    /** One turn of the update loop: copy into the buffer, and transform a full one. */
    method Fill(piece: bytes)
      requires Buffering() && 0 < |piece| <= 64 - buffered
      modifies this`state, this`buffered, this`message, this`whole, buffer
      ensures Buffering() && message == old(message) + piece
    {
      hide HashBlocks, Compress;
      Copy(piece);
      message := message + piece;
      if buffered == 64 {
        assert buffer[..buffered] == buffer[..];
        BlockAppended(whole, buffer[..]);
        Transform();
        whole := whole + buffer[..];
        buffered := 0;
      }
    }

    method Copy(piece: bytes)
      requires buffer.Length == 64 && buffered + |piece| <= 64
      modifies this`buffered, buffer
      ensures buffered == old(buffered) + |piece| && buffer[..buffered] == old(buffer[..buffered]) + piece
    {
      forall i | 0 <= i < |piece| {
        buffer[buffered + i] := piece[i];
      }
      buffered := buffered + |piece|;
    }

    method Finish() returns (digest: bytes)
      requires Valid()
      modifies this, buffer
      ensures Valid() && finished && message == old(message)
      ensures old(finished) ==> state == old(state)
      ensures digest == Sha256(message)
    {
      hide Compress, HashBlocks, Padding;
      if !finished {
        Pad();
        finished := true;
      }
      digest := Digest(state);
    }

    /** The padding written into the buffer, in one block or two. */
    method Pad()
      requires Valid() && !finished
      modifies this`state, this`buffered, this`whole, buffer
      ensures buffer.Length == 64 && state == HashBlocks(message + Padding(|message|))
    {
      hide Compress, HashBlocks, Padding, BigEndian;
      var bitLength := totalBytes * 8 % TWO_TO_THE_64;
      LengthWraps(|message|);
      MarkEnd();
      ghost var head, z := buffer[..buffered], |whole| + buffered - |message| - 1;
      Clear(buffered, 56);
      StoreLength(bitLength);
      assert buffer[..] == head + Zeros(56 - buffered) + BigEndian(bitLength, 8);
      PaddingIs(message, whole, head, z);
      BlockAppended(whole, buffer[..]);
      Transform();
      buffered := 0;
    }

    /** The one bit, and a block of zeros after it where the length no longer fits. */
    method MarkEnd()
      requires Buffering()
      modifies this`state, this`buffered, this`whole, buffer
      ensures buffer.Length == 64 && buffered <= 56
      ensures WholeBlocks(|whole|) && state == HashBlocks(whole)
      ensures var z := |whole| + buffered - |message| - 1;
              0 <= z < 8 + buffered && whole + buffer[..buffered] == message + ONE_BIT + Zeros(z)
    {
      hide Compress, HashBlocks;
      Copy(ONE_BIT);
      if buffered > 56 {
        Clear(buffered, 64);
        BlockAppended(whole, buffer[..]);
        Transform();
        whole := whole + buffer[..];
        buffered := 0;
      }
    }

    method Clear(lo: nat, hi: nat)
      requires lo <= hi <= 64 == buffer.Length
      modifies buffer
      ensures buffer[..lo] == old(buffer[..lo]) && buffer[lo..hi] == Zeros(hi - lo)
    {
      forall i | lo <= i < hi {
        buffer[i] := 0;
      }
    }

    method StoreLength(bitLength: nat)
      requires buffer.Length == 64
      modifies buffer
      ensures buffer[..56] == old(buffer[..56]) && buffer[56..] == BigEndian(bitLength, 8)
    {
      var n := bitLength;
      for i := 0 to 8
        invariant 0 <= n && buffer[..56] == old(buffer[..56])
        invariant BigEndian(bitLength, 8) == BigEndian(n, 8 - i) + buffer[64 - i..]
      {
        ghost var tail := buffer[64 - i..];
        buffer[63 - i] := n % 256;
        assert buffer[63 - i..] == [n % 256] + tail;
        n := n / 256;
      }
    }
  }

  lemma BlockAppended(whole: bytes, block: bytes)
    requires WholeBlocks(|whole|) && |block| == 64
    ensures HashBlocks(whole + block) == Compress(HashBlocks(whole), block)
  {
    var m := whole + block;
    assert m[..|m| - 64] == whole && m[|m| - 64..] == block;
  }

  lemma LengthAdds(a: nat, b: nat)
    ensures (a % TWO_TO_THE_64 + b) % TWO_TO_THE_64 == (a + b) % TWO_TO_THE_64
  {
  }

  lemma LengthWraps(n: nat)
    ensures BigEndian(n % TWO_TO_THE_64 * 8 % TWO_TO_THE_64, 8) == BigEndian(8 * n, 8)
  {
    var r := n % TWO_TO_THE_64;
    var k := 8 * (n / TWO_TO_THE_64) + r * 8 / TWO_TO_THE_64;
    assert 8 * n == r * 8 % TWO_TO_THE_64 + k * TWO_TO_THE_64;
    OctetsWrap(r * 8 % TWO_TO_THE_64, k, 8);
  }

  lemma {:induction false} OctetsWrap(n: nat, k: nat, width: nat)
    ensures BigEndian(n + k * Pow256(width), width) == BigEndian(n, width)
  {
    if width != 0 {
      var q := k * Pow256(width - 1);
      assert k * Pow256(width) == 256 * q;
      assert (n + 256 * q) / 256 == n / 256 + q;
      OctetsWrap(n / 256, k, width - 1);
    }
  }

  /** The buffered forms of the padding are the padding of section 5.1.1. */
  lemma PaddingIs(message: bytes, whole: bytes, head: bytes, z: nat)
    requires WholeBlocks(|whole|) && |head| <= 56 && z + 56 - |head| < 64
    requires |whole| + |head| == |message| + 1 + z
    requires whole + head == message + ONE_BIT + Zeros(z)
    ensures message + Padding(|message|)
         == whole + (head + Zeros(56 - |head|) + BigEndian(8 * |message|, 8))
  {
    hide *;
    PaddingWith(|message|, |whole|, z + 56 - |head|);
    PaddedBlocks(message, whole, head, z, 56 - |head|, BigEndian(8 * |message|, 8));
  }

  lemma PaddingWith(length: nat, whole: nat, zeros: nat)
    requires WholeBlocks(whole) && whole + 64 == length + 1 + zeros + 8 && zeros < 64
    ensures Padding(length) == ONE_BIT + Zeros(zeros) + BigEndian(8 * length, 8)
  {
    hide Zeros, BigEndian;
    FewestZeros(length, whole, zeros);
  }

  lemma PaddedBlocks(message: bytes, whole: bytes, head: bytes, z: nat, k: nat, length: bytes)
    requires whole + head == message + ONE_BIT + Zeros(z)
    ensures message + (ONE_BIT + Zeros(z + k) + length) == whole + (head + Zeros(k) + length)
  {
    assert Zeros(z + k) == Zeros(z) + Zeros(k);
    assert message + (ONE_BIT + (Zeros(z) + Zeros(k)) + length)
        == (message + ONE_BIT + Zeros(z)) + Zeros(k) + length;
  }

  lemma FewestZeros(length: nat, whole: nat, zeros: nat)
    requires WholeBlocks(whole) && whole + 64 == length + 1 + zeros + 8 && zeros < 64
    ensures zeros == PadZeros(length)
  {
  }

  /** For messages FIPS 180-4 covers, the eight octets hold the whole bit length. */
  lemma {:induction false} LengthFits(n: nat, width: nat)
    requires n < Pow256(width)
    ensures BigEndianValue(BigEndian(n, width)) == n
  {
    if width != 0 {
      LengthFits(n / 256, width - 1);
      var s := BigEndian(n, width);
      assert s[..width - 1] == BigEndian(n / 256, width - 1) && s[width - 1] == n % 256;
    }
  }

  function BigEndianValue(s: bytes): nat {
    if s == [] then 0 else 256 * BigEndianValue(s[..|s| - 1]) + s[|s| - 1] as int
  }

  // ---------- Every way of splitting a message ----------

  function Joined(chunks: seq<bytes>): bytes {
    if chunks == [] then [] else Joined(chunks[..|chunks| - 1]) + chunks[|chunks| - 1]
  }

  lemma JoinedNone()
    ensures Joined([]) == []
  {
  }

  lemma JoinedNext(chunks: seq<bytes>, i: nat)
    requires i < |chunks|
    ensures Joined(chunks[..i + 1]) == Joined(chunks[..i]) + chunks[i]
  {
    assert chunks[..i + 1][..i] == chunks[..i];
  }

  /** However a message is cut into updates, the digest is that of the whole; finishing again
      gives the same digest, and updates after that change nothing. */
  method HashChunks(chunks: seq<bytes>, late: bytes)
    returns (digest: bytes, again: bytes, afterLate: bytes)
    ensures digest == Sha256(Joined(chunks))
    ensures again == digest && afterLate == digest
  {
    hide *;
    var hasher := new Hasher();
    var i := 0;
    JoinedNone();
    while i < |chunks|
      invariant i <= |chunks| && hasher.Valid() && !hasher.finished && fresh(hasher) && fresh(hasher.buffer)
      invariant hasher.message == Joined(chunks[..i])
    {
      hasher.Update(chunks[i]);
      JoinedNext(chunks, i);
      i := i + 1;
    }
    assert chunks[..i] == chunks;
    digest := hasher.Finish();
    again := hasher.Finish();
    hasher.Update(late);
    afterLate := hasher.Finish();
  }
}
