/** Words as integers: wrap-around addition and bitwise operations, bit by bit. */
module Word32 {
  const TWO32: int := 0x1_0000_0000
  const TWO61: int := 0x2000_0000_0000_0000
  const TWO64: int := 0x1_0000_0000_0000_0000
  const TWO128: int := 0x1_0000_0000_0000_0000_0000_0000_0000_0000

  type Word = x: int | 0 <= x < TWO32

  /** The word that an integer of any size or sign wraps to. */
  function Wrap(x: int): Word {
    x % TWO32
  }

  function Add(x: Word, y: Word): Word {
    Wrap(x + y)
  }

  function Pow2(n: nat): (r: nat)
    ensures r >= 1
  {
    if n == 0 then 1 else 2 * Pow2(n - 1)
  }

  datatype Gate = AND | OR | XOR

  function Bit(g: Gate, p: bool, q: bool): bool {
    match g
    case AND => p && q
    case OR => p || q
    case XOR => p != q
  }

  /** A gate applied to the lowest `w` bits of two numbers. */
  function Bits(g: Gate, w: nat, x: nat, y: nat): (r: nat)
    ensures r < Pow2(w)
  {
    if w == 0 then 0 else
      2 * Bits(g, w - 1, x / 2, y / 2) + if Bit(g, x % 2 == 1, y % 2 == 1) then 1 else 0
  }

  /** All of the lowest `w` bits flipped. */
  function Flip(w: nat, x: nat): (r: nat)
    requires x < Pow2(w)
    ensures r < Pow2(w)
  {
    Pow2(w) - 1 - x
  }

  lemma Pow2Is()
    ensures Pow2(8) == 0x100 && Pow2(16) == 0x1_0000 && Pow2(24) == 0x100_0000 && Pow2(32) == TWO32
  {
    assert Pow2(8) == 0x100;
    assert Pow2(16) == 0x1_0000;
    assert Pow2(24) == 0x100_0000;
  }

  function And(x: Word, y: Word): Word {
    Pow2Is();
    Bits(AND, 32, x, y)
  }

  function Or(x: Word, y: Word): Word {
    Pow2Is();
    Bits(OR, 32, x, y)
  }

  function Xor(x: Word, y: Word): Word {
    Pow2Is();
    Bits(XOR, 32, x, y)
  }

  function Not(x: Word): Word {
    TWO32 - 1 - x
  }

  function Shl(x: Word, s: nat): Word {
    Wrap(x * Pow2(s))
  }

  function Shr(x: Word, s: nat): (r: Word) {
    ShrinkBy(x, Pow2(s));
    x / Pow2(s)
  }

  lemma ShrinkBy(x: nat, d: nat)
    requires d >= 1
    ensures 0 <= x / d <= x
  {
  }

  /** Circular shift to the left: the upper `s` bits become the lower ones. */
  function Rotl(x: Word, s: nat): (r: Word)
    requires s <= 32
  {
    RotlInRange(x, s);
    (x % Pow2(32 - s)) * Pow2(s) + x / Pow2(32 - s)
  }

  lemma RotlInRange(x: Word, s: nat)
    requires s <= 32
    ensures x / Pow2(32 - s) < Pow2(s)
    ensures 0 <= (x % Pow2(32 - s)) * Pow2(s) + x / Pow2(32 - s) < TWO32
  {
    hide Pow2;
    var p, q := Pow2(s), Pow2(32 - s);
    Pow2Split(s);
    DivBelow(x, q, p);
    MulUp(x % q, p, q);
  }

  lemma Pow2Split(s: nat)
    requires s <= 32
    ensures Pow2(s) * Pow2(32 - s) == Pow2(32 - s) * Pow2(s) == TWO32
  {
    hide Pow2;
    Pow2Add(s, 32 - s);
    Pow2Is();
  }

  lemma DivBelow(x: nat, q: nat, p: nat)
    requires q >= 1 && x < p * q
    ensures x / q < p
  {
    if x / q >= p {
      MulUp(p, q, x / q + 1);
    }
  }

  lemma WrapPart(a: int, b: int)
    ensures Wrap(Wrap(a) + b) == Wrap(a + b)
  {
    var w := Wrap(a) + b;
    ModIs(a + b, TWO32, a / TWO32 + w / TWO32, Wrap(w));
  }

  lemma WrapOf(u: Word)
    ensures Wrap(u) == u
  {
  }

  /** Multiplying keeps order. */
  lemma {:induction false} MulUp(x: nat, p: nat, q: nat)
    requires x < q
    ensures x * p + p <= q * p
    decreases q - x
  {
    Distribute(x, 1, p);
    if x + 1 < q {
      MulUp(x + 1, p, q);
    }
  }

  lemma Distribute(x: int, y: int, p: int)
    ensures (x + y) * p == x * p + y * p && p * (x + y) == p * x + p * y
    ensures (x - y) * p == x * p - y * p && p * (x - y) == p * x - p * y
  {
  }

  // ------------------------------------------------------------------

  lemma {:induction false} Pow2Add(m: nat, n: nat)
    ensures Pow2(m + n) == Pow2(m) * Pow2(n)
  {
    if m > 0 {
      Pow2Add(m - 1, n);
    }
  }

  /** The shorter form of the first auxiliary function selects bits as the longer one does. */
  lemma {:induction false} SelectBits(w: nat, x: nat, y: nat, z: nat)
    requires x < Pow2(w) && y < Pow2(w) && z < Pow2(w)
    ensures Bits(XOR, w, z, Bits(AND, w, x, Bits(XOR, w, y, z)))
         == Bits(OR, w, Bits(AND, w, x, y), Bits(AND, w, Flip(w, x), z))
  {
    if w > 0 {
      hide Bits;
      SelectBits(w - 1, x / 2, y / 2, z / 2);
      assert Flip(w, x) / 2 == Flip(w - 1, x / 2) && (Flip(w, x) % 2 == 1) == (x % 2 == 0);
      BitsHalf(XOR, w, y, z);
      BitsHalf(AND, w, x, Bits(XOR, w, y, z));
      BitsHalf(XOR, w, z, Bits(AND, w, x, Bits(XOR, w, y, z)));
      BitsHalf(AND, w, x, y);
      BitsHalf(AND, w, Flip(w, x), z);
      BitsHalf(OR, w, Bits(AND, w, x, y), Bits(AND, w, Flip(w, x), z));
    }
  }

  lemma {:induction false} BitsCommute(g: Gate, w: nat, x: nat, y: nat)
    ensures Bits(g, w, x, y) == Bits(g, w, y, x)
  {
    if w > 0 {
      BitsCommute(g, w - 1, x / 2, y / 2);
    }
  }

  lemma {:induction false} BitsZero(w: nat, x: nat)
    requires x < Pow2(w)
    ensures Bits(OR, w, x, 0) == x
  {
    if w > 0 {
      BitsZero(w - 1, x / 2);
    }
  }

  /** Numbers without a common bit: OR is addition. */
  lemma {:induction false} OrDisjoint(w: nat, k: nat, a: nat, b: nat)
    requires k <= w && b < Pow2(k) && a < Pow2(w - k)
    ensures Bits(OR, w, a * Pow2(k), b) == a * Pow2(k) + b
  {
    if k == 0 {
      BitsZero(w, a);
    } else {
      OrDisjoint(w - 1, k - 1, a, b / 2);
      var n := a * Pow2(k - 1);
      assert a * Pow2(k) == 2 * n by { Doubled(a, Pow2(k - 1)); }
    }
  }

  lemma Doubled(a: nat, p: nat)
    ensures a * (2 * p) == 2 * (a * p)
  {
  }

  /** A mask of ones keeps the lowest bits. */
  lemma {:induction false} AndMask(w: nat, k: nat, x: nat)
    requires k <= w
    ensures Bits(AND, w, x, Pow2(k) - 1) == x % Pow2(k)
  {
    if w > 0 {
      hide Bits, Pow2;
      var m := Pow2(k) - 1;
      BitsHalf(AND, w, x, m);
      MaskHalf(k);
      AndMask(w - 1, if k == 0 then 0 else k - 1, x / 2);
      if k > 0 {
        HalfMod(x, Pow2(k - 1));
      }
    }
  }

  lemma MaskHalf(k: nat)
    ensures k == 0 ==> Pow2(k) == 1
    ensures k > 0 ==> Pow2(k) == 2 * Pow2(k - 1) && (Pow2(k) - 1) / 2 == Pow2(k - 1) - 1 && (Pow2(k) - 1) % 2 == 1
  {
  }

  lemma BitsHalf(g: Gate, w: nat, x: nat, y: nat)
    requires w > 0
    ensures Bits(g, w, x, y) / 2 == Bits(g, w - 1, x / 2, y / 2)
    ensures Bits(g, w, x, y) % 2 == if Bit(g, x % 2 == 1, y % 2 == 1) then 1 else 0
  {
  }

  lemma HalfMod(x: nat, p: nat)
    requires p >= 1
    ensures x % (2 * p) == 2 * (x / 2 % p) + x % 2
  {
    var q := x / 2 / p;
    assert x == 2 * (p * q + x / 2 % p) + x % 2;
    ModIs(x, 2 * p, q, 2 * (x / 2 % p) + x % 2);
  }

  lemma ModIs(x: int, d: int, q: int, r: int)
    requires d > 0 && x == d * q + r && 0 <= r < d
    ensures x % d == r && x / d == q
  {
    var e := x / d - q;
    assert d * e == r - x % d;
    MulSign(d, e);
  }

  lemma MulSign(d: int, e: int)
    requires d > 0
    ensures e >= 1 ==> d * e >= d
    ensures e <= -1 ==> d * e <= -d
  {
  }

  /** Two shifts joined by OR are the circular shift. */
  lemma RotlOr(x: Word, s: nat)
    requires 0 < s < 32
    ensures Or(Shl(x, s), Shr(x, 32 - s)) == Rotl(x, s)
  {
    hide Pow2, Bits;
    var p, q := Pow2(s), Pow2(32 - s);
    Pow2Split(s);
    RotlInRange(x, s);
    ShlIs(x, s);
    OrDisjoint(32, s, x % q, x / q);
  }

  lemma ShlIs(x: Word, s: nat)
    requires s <= 32
    ensures Shl(x, s) == (x % Pow2(32 - s)) * Pow2(s)
  {
    hide Pow2;
    var p, q := Pow2(s), Pow2(32 - s);
    Pow2Split(s);
    MulUp(x % q, p, q);
    var r := (x % q) * p;
    calc {
      x * p;
      (q * (x / q) + x % q) * p;
      (p * q) * (x / q) + r;
    }
    ModIs(x * p, TWO32, x / q, r);
  }

  /** Octets of a word, one shift after another or all at once. */
  lemma Quotients(w: Word)
    ensures w / 0x100 / 16 == w / 0x1000 && w / 0x100 / 0x100 == w / 0x1_0000
    ensures w / 0x100 / 0x100 / 16 == w / 0x10_0000 && w / 0x100 / 0x100 / 0x100 == w / 0x100_0000
    ensures w / 0x100 / 0x100 / 0x100 / 16 == w / 0x1000_0000 && w / 0x100 / 0x100 / 0x100 < 0x100
  {
  }

  // ------------------------------------------------------------------
  // Single bits.

  /** Bit `j` of a number, from the lowest one up. */
  predicate BitOf(x: nat, j: nat) {
    if j == 0 then x % 2 == 1 else BitOf(x / 2, j - 1)
  }

  lemma {:induction false} GateBit(g: Gate, w: nat, x: nat, y: nat, j: nat)
    requires j < w
    ensures BitOf(Bits(g, w, x, y), j) == Bit(g, BitOf(x, j), BitOf(y, j))
  {
    if j > 0 {
      GateBit(g, w - 1, x / 2, y / 2, j - 1);
    }
  }

  lemma {:induction false} NoBit(w: nat, x: nat, j: nat)
    requires x < Pow2(w) && j >= w
    ensures !BitOf(x, j)
  {
    if w == 0 {
      ZeroBit(j);
    } else {
      NoBit(w - 1, x / 2, j - 1);
    }
  }

  lemma {:induction false} ZeroBit(j: nat)
    ensures !BitOf(0, j)
  {
    if j > 0 {
      ZeroBit(j - 1);
    }
  }

  lemma {:induction false} FlipBit(w: nat, x: nat, j: nat)
    requires x < Pow2(w) && j < w
    ensures BitOf(Flip(w, x), j) == !BitOf(x, j)
  {
    hide Pow2;
    Pow2Step(w);
    Halved(Pow2(w - 1), x);
    if j > 0 {
      FlipBit(w - 1, x / 2, j - 1);
    }
  }

  lemma Pow2Step(w: nat)
    requires w > 0
    ensures Pow2(w) == 2 * Pow2(w - 1)
  {
  }

  lemma Halved(p: nat, x: nat)
    requires x < 2 * p
    ensures (2 * p - 1 - x) / 2 == p - 1 - x / 2 && (2 * p - 1 - x) % 2 == 1 - x % 2 && x / 2 < p
  {
    ModIs(2 * p - 1 - x, 2, p - 1 - x / 2, 1 - x % 2);
  }

  lemma {:induction false} DivBit(x: nat, n: nat, q: nat, j: nat)
    requires q == x / Pow2(n)
    ensures BitOf(q, j) == BitOf(x, j + n)
  {
    if n > 0 {
      DivHalf(x, Pow2(n - 1));
      DivBit(x / 2, n - 1, q, j);
    }
  }

  lemma DivHalf(x: nat, p: nat)
    requires p >= 1
    ensures x / (2 * p) == x / 2 / p
  {
    var q, r := x / 2 / p, x / 2 % p;
    Distribute(p, p, q);
    ModIs(x, 2 * p, q, 2 * r + x % 2);
  }

  lemma {:induction false} MulBit(x: nat, n: nat, j: nat)
    ensures BitOf(x * Pow2(n), j) == (j >= n && BitOf(x, j - n))
  {
    if n > 0 {
      var y := x * Pow2(n - 1);
      Distribute(Pow2(n - 1), Pow2(n - 1), x);
      assert x * Pow2(n) == 2 * y;
      assert 2 * y / 2 == y && 2 * y % 2 == 0;
      if j > 0 {
        MulBit(x, n - 1, j - 1);
      }
    }
  }

  lemma {:induction false} ModBit(w: nat, x: nat, j: nat)
    requires j < w
    ensures BitOf(x % Pow2(w), j) == BitOf(x, j)
  {
    ModHalf(x, Pow2(w - 1));
    if j > 0 {
      ModBit(w - 1, x / 2, j - 1);
    }
  }

  lemma ModHalf(x: nat, p: nat)
    requires p >= 1
    ensures x % (2 * p) / 2 == x / 2 % p && x % (2 * p) % 2 == x % 2
  {
    var q, r := x / 2 / p, x / 2 % p;
    Distribute(p, p, q);
    ModIs(x, 2 * p, q, 2 * r + x % 2);
    ModIs(2 * r + x % 2, 2, r, x % 2);
  }

  /** The operations on words of 32 bits, bit by bit. */
  lemma WordBits(x: Word, y: Word, j: nat)
    requires j < 32
    ensures BitOf(And(x, y), j) == (BitOf(x, j) && BitOf(y, j)) && BitOf(Or(x, y), j) == (BitOf(x, j) || BitOf(y, j))
    ensures BitOf(Xor(x, y), j) == (BitOf(x, j) != BitOf(y, j)) && BitOf(Not(x), j) == !BitOf(x, j)
  {
    hide Bits, BitOf, Pow2;
    Pow2Is();
    GateBit(AND, 32, x, y, j);
    GateBit(OR, 32, x, y, j);
    GateBit(XOR, 32, x, y, j);
    FlipBit(32, x, j);
  }

  lemma ShlBit(x: Word, s: nat, j: nat)
    requires j < 32
    ensures BitOf(Shl(x, s), j) == (j >= s && BitOf(x, j - s))
  {
    hide BitOf, Pow2;
    Pow2Is();
    MulBit(x, s, j);
    ModBit(32, x * Pow2(s), j);
  }

  lemma ShrBit(x: Word, s: nat, j: nat)
    ensures BitOf(Shr(x, s), j) == BitOf(x, j + s)
  {
    hide BitOf, Pow2;
    DivBit(x, s, Shr(x, s), j);
  }

  /** A shift and a rotation to the left by `s` places. */
  lemma ShiftBits(x: Word, s: nat, j: nat)
    requires 0 < s < 32 && j < 32
    ensures BitOf(Shl(x, s), j) == (j >= s && BitOf(x, j - s)) && BitOf(Shr(x, s), j) == BitOf(x, j + s)
    ensures BitOf(Rotl(x, s), j) == BitOf(x, if j >= s then j - s else j + 32 - s)
  {
    hide BitOf, Pow2, Shl, Shr, Rotl, Or;
    Pow2Is();
    ShlBit(x, s, j);
    ShrBit(x, s, j);
    ShrBit(x, 32 - s, j);
    RotlOr(x, s);
    WordBits(Shl(x, s), Shr(x, 32 - s), j);
    if j >= s {
      NoBit(32, x, j + 32 - s);
    }
  }
}
