/** The logical functions of SHA-256 and SHA-512 bit by bit, with the numbers of section 4.1 of FIPS 180-4. */
module Sha2Bits {
  import opened Word32
  import opened Fips180

  lemma {:induction false} DownBit(x: nat, n: nat, j: nat)
    ensures BitOf(ShiftDown(x, n), j) == BitOf(x, j + n)
  {
    if n > 0 {
      DownBit(x / 2, n - 1, j);
    }
  }

  lemma {:induction false} UpBit(x: nat, n: nat, j: nat)
    ensures BitOf(ShiftUp(x, n), j) == (j >= n && BitOf(x, j - n))
  {
    if n > 0 {
      var y := ShiftUp(x, n - 1);
      assert 2 * y / 2 == y && 2 * y % 2 == 0;
      if j > 0 {
        UpBit(x, n - 1, j - 1);
      }
    }
  }

  /** A rotation to the right takes each bit from `n` places higher, around the word. */
  lemma RotrBit(v: Variant, n: nat, x: nat, j: nat)
    requires n <= v.width && j < v.width && x < Pow2(v.width)
    ensures BitOf(Rotr(v, n, x), j) == BitOf(x, (j + n) % v.width)
  {
    hide Bits, ShiftDown, ShiftUp, Pow2, BitOf;
    GateBit(OR, v.width, ShiftDown(x, n), ShiftUp(x, v.width - n), j);
    DownBit(x, n, j);
    UpBit(x, v.width - n, j);
    if j + n >= v.width {
      NoBit(v.width, x, j + n);
      ModIs(j + n, v.width, 1, j + n - v.width);
    } else {
      ModIs(j + n, v.width, 0, j + n);
    }
  }

  lemma Xor3Bit(v: Variant, x: nat, y: nat, z: nat, j: nat)
    requires j < v.width
    ensures BitOf(Xor3(v, x, y, z), j) == (BitOf(x, j) != (BitOf(y, j) != BitOf(z, j)))
  {
    hide Bits, BitOf;
    GateBit(XOR, v.width, x, y, j);
    GateBit(XOR, v.width, Bits(XOR, v.width, x, y), z, j);
  }

  lemma BigBit(v: Variant, s: Shifts, x: nat, j: nat)
    requires s.x <= v.width && s.y <= v.width && s.z <= v.width && j < v.width && x < Pow2(v.width)
    ensures var w := v.width;
            BitOf(Big(v, s, x), j) == (BitOf(x, (j + s.x) % w) != (BitOf(x, (j + s.y) % w) != BitOf(x, (j + s.z) % w)))
  {
    hide Rotr, Xor3, BitOf, Pow2;
    Xor3Bit(v, Rotr(v, s.x, x), Rotr(v, s.y, x), Rotr(v, s.z, x), j);
    RotrBit(v, s.x, x, j);
    RotrBit(v, s.y, x, j);
    RotrBit(v, s.z, x, j);
  }

  lemma SmallBit(v: Variant, s: Shifts, x: nat, j: nat)
    requires s.x <= v.width && s.y <= v.width && j < v.width && x < Pow2(v.width)
    ensures var w := v.width;
            BitOf(Small(v, s, x), j) ==
              (BitOf(x, (j + s.x) % w) != (BitOf(x, (j + s.y) % w) != (j + s.z < w && BitOf(x, j + s.z))))
  {
    hide Rotr, Xor3, BitOf, Pow2, ShiftDown;
    Xor3Bit(v, Rotr(v, s.x, x), Rotr(v, s.y, x), ShiftDown(x, s.z), j);
    RotrBit(v, s.x, x, j);
    RotrBit(v, s.y, x, j);
    DownBit(x, s.z, j);
    if j + s.z >= v.width {
      NoBit(v.width, x, j + s.z);
    }
  }

  /** Section 4.1.3: the functions of SHA-512 on words of 64 bits. */
  lemma Sha512Bits(x: nat, j: nat)
    requires x < Pow2(64) && j < 64
    ensures BitOf(Big(SHA512, SHA512.Sigma0, x), j) ==
              (BitOf(x, (j + 28) % 64) != (BitOf(x, (j + 34) % 64) != BitOf(x, (j + 39) % 64)))
    ensures BitOf(Big(SHA512, SHA512.Sigma1, x), j) ==
              (BitOf(x, (j + 14) % 64) != (BitOf(x, (j + 18) % 64) != BitOf(x, (j + 41) % 64)))
    ensures BitOf(Small(SHA512, SHA512.sigma0, x), j) ==
              (BitOf(x, (j + 1) % 64) != (BitOf(x, (j + 8) % 64) != (j + 7 < 64 && BitOf(x, j + 7))))
    ensures BitOf(Small(SHA512, SHA512.sigma1, x), j) ==
              (BitOf(x, (j + 19) % 64) != (BitOf(x, (j + 61) % 64) != (j + 6 < 64 && BitOf(x, j + 6))))
  {
    hide Big, Small, BitOf, Pow2;
    BigBit(SHA512, SHA512.Sigma0, x, j);
    BigBit(SHA512, SHA512.Sigma1, x, j);
    SmallBit(SHA512, SHA512.sigma0, x, j);
    SmallBit(SHA512, SHA512.sigma1, x, j);
  }

  /** Section 4.1.2: the functions of SHA-256 on words of 32 bits. */
  lemma Sha256Bits(x: nat, j: nat)
    requires x < Pow2(32) && j < 32
    ensures BitOf(Big(SHA256, SHA256.Sigma0, x), j) ==
              (BitOf(x, (j + 2) % 32) != (BitOf(x, (j + 13) % 32) != BitOf(x, (j + 22) % 32)))
    ensures BitOf(Big(SHA256, SHA256.Sigma1, x), j) ==
              (BitOf(x, (j + 6) % 32) != (BitOf(x, (j + 11) % 32) != BitOf(x, (j + 25) % 32)))
    ensures BitOf(Small(SHA256, SHA256.sigma0, x), j) ==
              (BitOf(x, (j + 7) % 32) != (BitOf(x, (j + 18) % 32) != (j + 3 < 32 && BitOf(x, j + 3))))
    ensures BitOf(Small(SHA256, SHA256.sigma1, x), j) ==
              (BitOf(x, (j + 17) % 32) != (BitOf(x, (j + 19) % 32) != (j + 10 < 32 && BitOf(x, j + 10))))
  {
    hide Big, Small, BitOf, Pow2;
    BigBit(SHA256, SHA256.Sigma0, x, j);
    BigBit(SHA256, SHA256.Sigma1, x, j);
    SmallBit(SHA256, SHA256.sigma0, x, j);
    SmallBit(SHA256, SHA256.sigma1, x, j);
  }

  /** Both variants: Ch takes a bit of `y` or of `z`, as `x` chooses, and Maj the bit that two of them have. */
  lemma ChooseBits(v: Variant, x: nat, y: nat, z: nat, j: nat)
    requires j < v.width && x < Pow2(v.width)
    ensures BitOf(Ch(v, x, y, z), j) == if BitOf(x, j) then BitOf(y, j) else BitOf(z, j)
    ensures BitOf(Maj(v, x, y, z), j) == if BitOf(x, j) == BitOf(y, j) then BitOf(x, j) else BitOf(z, j)
  {
    hide Bits, BitOf, Pow2, Flip;
    var w := v.width;
    ModIs(x, Pow2(w), 0, x);
    FlipBit(w, x, j);
    GateBit(AND, w, x, y, j);
    GateBit(AND, w, x, z, j);
    GateBit(AND, w, y, z, j);
    GateBit(AND, w, Flip(w, x), z, j);
    GateBit(XOR, w, Bits(AND, w, x, y), Bits(AND, w, Flip(w, x), z), j);
    Xor3Bit(v, Bits(AND, w, x, y), Bits(AND, w, x, z), Bits(AND, w, y, z), j);
  }

  // ------------------------------------------------------------------
  // Sections 6.2.2 and 6.4.2, with one reduction for each sum.

  lemma SumOfSums(v: Variant, x: int, y: int)
    ensures Sum(v, Sum(v, x) + Sum(v, y)) == Sum(v, x + y) && Sum(v, x + Sum(v, y)) == Sum(v, x + y)
  {
    hide Pow2;
    var p := Pow2(v.width);
    Reduced(x, y, p);
    Reduced(y, x % p, p);
    Reduced(y, x, p);
  }

  lemma Reduced(x: int, y: int, p: nat)
    requires p >= 1
    ensures (x % p + y) % p == (x + y) % p
  {
    var z := x % p + y;
    Distribute(x / p, z / p, p);
    ModIs(x + y, p, x / p + z / p, z % p);
  }

  lemma SumIs(v: Variant, x: int)
    ensures Sum(v, x) == x % Pow2(v.width)
  {
  }

  /** A round: the new first word is the sum of seven, the new fifth one of six, and the others move down. */
  lemma RoundMeans(v: Variant, r: Regs, k: nat, w: nat)
    requires Ok(v)
    ensures var t1 := r.h + Big(v, v.Sigma1, r.e) + Ch(v, r.e, r.f, r.g) + k + w;
            var t2 := Big(v, v.Sigma0, r.a) + Maj(v, r.a, r.b, r.c);
            var p := Pow2(v.width);
            Round(v, r, k, w) == Regs((t1 + t2) % p, r.a, r.b, r.c, (r.d + t1) % p, r.e, r.f, r.g)
  {
    hide Big, Ch, Maj, Pow2, Sum;
    var t1 := r.h + Big(v, v.Sigma1, r.e) + Ch(v, r.e, r.f, r.g) + k + w;
    var t2 := Big(v, v.Sigma0, r.a) + Maj(v, r.a, r.b, r.c);
    SumOfSums(v, t1, t2);
    SumOfSums(v, r.d, t1);
    SumIs(v, t1 + t2);
    SumIs(v, r.d + t1);
  }

  /** The schedule starts with the message, and each later word is the sum of four before it. */
  lemma ScheduleMeans(v: Variant, m: seq<nat>, t: nat)
    requires Ok(v) && |m| == 16
    ensures t < 16 ==> Sched(v, m, t) == m[t]
    ensures Sched(v, m, t + 16) ==
              (Small(v, v.sigma1, Sched(v, m, t + 14)) + Sched(v, m, t + 9)
               + Small(v, v.sigma0, Sched(v, m, t + 1)) + Sched(v, m, t)) % Pow2(v.width)
  {
    hide Small, Pow2;
  }

  /** A block: one round for each constant, from the state on. */
  lemma RoundsMean(v: Variant, r: Regs, m: seq<nat>, t: nat)
    requires Ok(v) && |m| == 16
    ensures After(v, r, m, 0) == r
    ensures t < v.rounds ==> After(v, r, m, t + 1) == Round(v, After(v, r, m, t), v.k(t), Sched(v, m, t))
  {
    hide Round, Sched;
  }

  /** The state is added to what the rounds leave, word by word. */
  lemma BlockMeans(v: Variant, r: Regs, m: seq<nat>)
    requires Ok(v) && |m| == 16
    ensures var s, t, p := After(v, r, m, v.rounds), Transform(v, r, m), Pow2(v.width);
            && t.a == (r.a + s.a) % p && t.b == (r.b + s.b) % p && t.c == (r.c + s.c) % p && t.d == (r.d + s.d) % p
            && t.e == (r.e + s.e) % p && t.f == (r.f + s.f) % p && t.g == (r.g + s.g) % p && t.h == (r.h + s.h) % p
  {
    hide Round, Sched, Pow2, After;
  }
}
