/** The constants of SHA-256 and SHA-512 are the fractions that FIPS 180-4 says they are. */
module Sha2Constants {
  import opened Word32
  import opened Fips180

  const TWO192: nat := 0x1_0000_0000_0000_0000_0000_0000_0000_0000_0000_0000_0000_0000

  /** The first eighty prime numbers; PrimesAre says so. */
  function Prime(t: nat): nat {
    if t < 16 then
      match t
      case 0 => 2 case 1 => 3 case 2 => 5 case 3 => 7 case 4 => 11 case 5 => 13 case 6 => 17 case 7 => 19
      case 8 => 23 case 9 => 29 case 10 => 31 case 11 => 37 case 12 => 41 case 13 => 43 case 14 => 47 case _ => 53
    else if t < 32 then
      match t
      case 16 => 59 case 17 => 61 case 18 => 67 case 19 => 71 case 20 => 73 case 21 => 79 case 22 => 83 case 23 => 89
      case 24 => 97 case 25 => 101 case 26 => 103 case 27 => 107 case 28 => 109 case 29 => 113 case 30 => 127 case _ => 131
    else if t < 48 then
      match t
      case 32 => 137 case 33 => 139 case 34 => 149 case 35 => 151 case 36 => 157 case 37 => 163 case 38 => 167 case 39 => 173
      case 40 => 179 case 41 => 181 case 42 => 191 case 43 => 193 case 44 => 197 case 45 => 199 case 46 => 211 case _ => 223
    else if t < 64 then
      match t
      case 48 => 227 case 49 => 229 case 50 => 233 case 51 => 239 case 52 => 241 case 53 => 251 case 54 => 257 case 55 => 263
      case 56 => 269 case 57 => 271 case 58 => 277 case 59 => 281 case 60 => 283 case 61 => 293 case 62 => 307 case _ => 311
    else
      match t
      case 64 => 313 case 65 => 317 case 66 => 331 case 67 => 337 case 68 => 347 case 69 => 349 case 70 => 353 case 71 => 359
      case 72 => 367 case 73 => 373 case 74 => 379 case 75 => 383 case 76 => 389 case 77 => 397 case 78 => 401 case 79 => 409
      case _ => 2
  }

  // ------------------------------------------------------------------
  // The primes.

  predicate IsPrime(n: nat) {
    n >= 2 && forall d :: 2 <= d < n ==> n % d != 0
  }

  /** No prime below 23 divides `n`, unless it is `n`. */
  predicate Sieved(n: nat) {
    && n >= 2
    && (n % 2 != 0 || n == 2) && (n % 3 != 0 || n == 3) && (n % 5 != 0 || n == 5) && (n % 7 != 0 || n == 7)
    && (n % 11 != 0 || n == 11) && (n % 13 != 0 || n == 13) && (n % 17 != 0 || n == 17) && (n % 19 != 0 || n == 19)
  }

  lemma SmallFactor(m: nat) returns (p: nat)
    requires 2 <= m < 23
    ensures p == 2 || p == 3 || p == 5 || p == 7 || p == 11 || p == 13 || p == 17 || p == 19
    ensures m % p == 0
  {
    p := if m % 2 == 0 then 2 else if m % 3 == 0 then 3 else if m % 5 == 0 then 5 else if m % 7 == 0 then 7 else m;
  }

  lemma Divides(n: nat, m: nat, p: nat)
    requires m >= 1 && p >= 1 && n % m == 0 && m % p == 0
    ensures n % p == 0
  {
    var k, j := n / m, m / p;
    assert n == (p * j) * k;
    MulAssoc(p, j, k);
    ModIs(n, p, j * k, 0);
  }

  lemma MulAssoc(x: int, y: int, z: int)
    ensures (x * y) * z == x * (y * z)
  {
  }

  /** Below 529, trial division by the primes below 23 is enough. */
  lemma SieveIsEnough(n: nat)
    requires n < 529
    ensures Sieved(n) <==> IsPrime(n)
  {
    if Sieved(n) {
      forall d | 2 <= d < n
        ensures n % d != 0
      {
        if n % d == 0 {
          Factors(n, d);
        }
      }
    }
  }

  /** A divisor or its counterpart is small. */
  lemma Factors(n: nat, d: nat)
    requires 2 <= d < n < 529 && n % d == 0
    ensures !Sieved(n)
  {
    var e := n / d;
    assert n == d * e;
    Counterpart(n, d, e);
    var m := if d < 23 then d else e;
    assert n % m == 0 by {
      MulCommutes(d, e);
      ModIs(n, m, if d < 23 then e else d, 0);
    }
    var p := SmallFactor(m);
    Divides(n, m, p);
    assert p <= m by {
      if m < p {
        ModIs(m, p, 0, m);
      }
    }
  }

  lemma MulCommutes(x: int, y: int)
    ensures x * y == y * x
  {
  }

  lemma Counterpart(n: nat, d: nat, e: nat)
    requires 2 <= d < n < 529 && n == d * e
    ensures 2 <= e < n && (d < 23 || e < 23)
  {
    Products(d, e);
    MulUp(1, e, d);
  }

  lemma Products(d: nat, e: nat)
    ensures e == 0 ==> d * e == 0
    ensures e == 1 ==> d * e == d
    ensures d >= 23 && e >= 23 ==> d * e >= 529
  {
    if d >= 23 && e >= 23 {
      MulUp(22, e, d);
    }
  }

  /** No odd number between two odd ones is sieved. */
  predicate NoneBetween(a: nat, b: nat)
    decreases b - a
  {
    a + 2 >= b || (!Sieved(a + 2) && NoneBetween(a + 2, b))
  }

  predicate Gap(p: nat, q: nat) {
    Sieved(p) && 2 <= p < q && NoneBetween(p, q) && (p % 2 == 1 || q <= p + 1)
  }

  predicate Next(t: nat) {
    Gap(Prime(t), Prime(t + 1))
  }

  lemma Gaps0()
    ensures Next(0) && Next(1) && Next(2) && Next(3)
    ensures Next(4) && Next(5) && Next(6) && Next(7)
  {
  }

  lemma Gaps1()
    ensures Next(8) && Next(9) && Next(10) && Next(11)
    ensures Next(12) && Next(13) && Next(14) && Next(15)
  {
  }

  lemma Gaps2()
    ensures Next(16) && Next(17) && Next(18) && Next(19)
    ensures Next(20) && Next(21) && Next(22) && Next(23)
  {
  }

  lemma Gaps3()
    ensures Next(24) && Next(25) && Next(26) && Next(27)
    ensures Next(28) && Next(29) && Next(30) && Next(31)
  {
  }

  lemma Gaps4()
    ensures Next(32) && Next(33) && Next(34) && Next(35)
    ensures Next(36) && Next(37) && Next(38) && Next(39)
  {
  }

  lemma Gaps5()
    ensures Next(40) && Next(41) && Next(42) && Next(43)
    ensures Next(44) && Next(45) && Next(46) && Next(47)
  {
  }

  lemma Gaps6()
    ensures Next(48) && Next(49) && Next(50) && Next(51)
    ensures Next(52) && Next(53) && Next(54) && Next(55)
  {
  }

  lemma Gaps7()
    ensures Next(56) && Next(57) && Next(58) && Next(59)
    ensures Next(60) && Next(61) && Next(62) && Next(63)
  {
  }

  lemma Gaps8()
    ensures Next(64) && Next(65) && Next(66) && Next(67)
    ensures Next(68) && Next(69) && Next(70) && Next(71)
  {
  }

  lemma Gaps9()
    ensures Next(72) && Next(73) && Next(74) && Next(75)
    ensures Next(76) && Next(77) && Next(78)
  {
  }

  lemma AllGaps(t: nat)
    requires t < 79
    ensures Next(t)
  {
    hide Next, Prime, Sieved, NoneBetween;
    if t < 8 {
      Gaps0();
    } else if t < 16 {
      Gaps1();
    } else if t < 24 {
      Gaps2();
    } else if t < 32 {
      Gaps3();
    } else if t < 40 {
      Gaps4();
    } else if t < 48 {
      Gaps5();
    } else if t < 56 {
      Gaps6();
    } else if t < 64 {
      Gaps7();
    } else if t < 72 {
      Gaps8();
    } else {
      Gaps9();
    }
  }

  lemma {:induction false} BetweenIs(a: nat, b: nat, n: nat)
    requires NoneBetween(a, b) && 2 <= a < n < b && (a % 2 == 1 || b <= a + 1)
    ensures !Sieved(n)
    decreases b - a
  {
    hide Sieved;
    EvenNotSieved(n);
    if n % 2 == 1 {
      assert a + 2 < b;
      if n > a + 2 {
        BetweenIs(a + 2, b, n);
      }
    }
  }

  lemma EvenNotSieved(n: nat)
    ensures n > 2 && n % 2 == 0 ==> !Sieved(n)
  {
  }

  lemma {:induction false} Listed(n: nat, t: nat)
    requires t < 80 && Sieved(n) && n <= Prime(t)
    ensures exists u :: 0 <= u < 80 && Prime(u) == n
  {
    hide Sieved, NoneBetween;
    if n < Prime(t) {
      if t == 0 {
        SievedSize(n);
      } else {
        AllGaps(t - 1);
        if n > Prime(t - 1) {
          BetweenIs(Prime(t - 1), Prime(t), n);
        }
        Listed(n, t - 1);
      }
    }
  }

  lemma SievedSize(n: nat)
    requires Sieved(n)
    ensures n >= 2
  {
  }

  /** The table lists the primes up to its last entry, in order. */
  lemma PrimesAre(n: nat)
    requires n <= Prime(79)
    ensures IsPrime(n) <==> exists t :: 0 <= t < 80 && Prime(t) == n
    ensures forall t :: 0 <= t < 79 ==> Prime(t) < Prime(t + 1)
  {
    hide Sieved, IsPrime, NoneBetween;
    SieveIsEnough(n);
    if Sieved(n) {
      Listed(n, 79);
    }
    forall t: nat | t < 79
      ensures Sieved(Prime(t)) && Prime(t) < Prime(t + 1)
    {
      AllGaps(t);
    }
    LastSieved();
  }

  /** How many primes are below a number. */
  function PrimesBelow(n: nat): nat {
    if n == 0 then 0 else PrimesBelow(n - 1) + if IsPrime(n - 1) then 1 else 0
  }

  lemma {:induction false} NoneCounted(a: nat, b: nat)
    requires a < b && forall n :: a < n < b ==> !IsPrime(n)
    ensures PrimesBelow(b) == PrimesBelow(a) + if IsPrime(a) then 1 else 0
  {
    hide IsPrime;
    if a + 1 < b {
      NoneCounted(a, b - 1);
    }
  }

  /** Each entry of the table is the prime with as many primes below it as its index says. */
  lemma {:induction false} Rank(t: nat)
    requires t < 80
    ensures IsPrime(Prime(t)) && PrimesBelow(Prime(t)) == t
  {
    hide IsPrime, Prime, Sieved, NoneBetween, PrimesBelow;
    LastSieved();
    UpTo(t);
    SieveIsEnough(Prime(t));
    if t == 0 {
      NoneBelowTwo();
    } else {
      Rank(t - 1);
      AllGaps(t - 1);
      if t < 79 {
        AllGaps(t);
      }
      forall n | Prime(t - 1) < n < Prime(t)
        ensures !IsPrime(n)
      {
        BetweenIs(Prime(t - 1), Prime(t), n);
        SieveIsEnough(n);
      }
      NoneCounted(Prime(t - 1), Prime(t));
    }
  }

  lemma {:induction false} UpTo(t: nat)
    requires t < 80
    ensures Prime(t) <= Prime(79) && Sieved(Prime(t))
    decreases 79 - t
  {
    hide Prime, Sieved, NoneBetween;
    LastSieved();
    if t < 79 {
      AllGaps(t);
      UpTo(t + 1);
    }
  }

  lemma NoneBelowTwo()
    ensures Prime(0) == 2 && PrimesBelow(2) == 0
  {
    assert !IsPrime(0) && !IsPrime(1);
    assert PrimesBelow(1) == 0;
  }

  lemma LastSieved()
    ensures Sieved(Prime(79)) && Prime(79) == 409
  {
  }

  // ------------------------------------------------------------------
  // The fractions.

  function Cube(x: nat): int {
    x * x * x
  }

  function Square(x: nat): int {
    x * x
  }

  /** The integer part of a cube root below 8. */
  function CubeRoot(p: nat): nat {
    if p < 8 then 1 else if p < 27 then 2 else if p < 64 then 3 else if p < 125 then 4
    else if p < 216 then 5 else if p < 343 then 6 else 7
  }

  /** Section 4.2.3: the first 64 bits of the fractional part of the cube root of a prime. */
  predicate CubeBits(p: nat, k: nat) {
    var x := CubeRoot(p) * TWO64 + k;
    k < TWO64 && Cube(x) <= p * TWO192 < Cube(x + 1)
  }

  predicate CubeFraction(t: nat) {
    CubeBits(Prime(t), K512(t))
  }

  lemma Row0()
    ensures CubeFraction(0) && CubeFraction(1) && CubeFraction(2) && CubeFraction(3)
    ensures CubeFraction(4) && CubeFraction(5) && CubeFraction(6) && CubeFraction(7)
  {
  }

  lemma Row1()
    ensures CubeFraction(8) && CubeFraction(9) && CubeFraction(10) && CubeFraction(11)
    ensures CubeFraction(12) && CubeFraction(13) && CubeFraction(14) && CubeFraction(15)
  {
  }

  lemma Row2()
    ensures CubeFraction(16) && CubeFraction(17) && CubeFraction(18) && CubeFraction(19)
    ensures CubeFraction(20) && CubeFraction(21) && CubeFraction(22) && CubeFraction(23)
  {
  }

  lemma Row3()
    ensures CubeFraction(24) && CubeFraction(25) && CubeFraction(26) && CubeFraction(27)
    ensures CubeFraction(28) && CubeFraction(29) && CubeFraction(30) && CubeFraction(31)
  {
  }

  lemma Row4()
    ensures CubeFraction(32) && CubeFraction(33) && CubeFraction(34) && CubeFraction(35)
    ensures CubeFraction(36) && CubeFraction(37) && CubeFraction(38) && CubeFraction(39)
  {
  }

  lemma Row5()
    ensures CubeFraction(40) && CubeFraction(41) && CubeFraction(42) && CubeFraction(43)
    ensures CubeFraction(44) && CubeFraction(45) && CubeFraction(46) && CubeFraction(47)
  {
  }

  lemma Row6()
    ensures CubeFraction(48) && CubeFraction(49) && CubeFraction(50) && CubeFraction(51)
    ensures CubeFraction(52) && CubeFraction(53) && CubeFraction(54) && CubeFraction(55)
  {
  }

  lemma Row7()
    ensures CubeFraction(56) && CubeFraction(57) && CubeFraction(58) && CubeFraction(59)
    ensures CubeFraction(60) && CubeFraction(61) && CubeFraction(62) && CubeFraction(63)
  {
  }

  lemma Row8()
    ensures CubeFraction(64) && CubeFraction(65) && CubeFraction(66) && CubeFraction(67)
    ensures CubeFraction(68) && CubeFraction(69) && CubeFraction(70) && CubeFraction(71)
  {
  }

  lemma Row9()
    ensures CubeFraction(72) && CubeFraction(73) && CubeFraction(74) && CubeFraction(75)
    ensures CubeFraction(76) && CubeFraction(77) && CubeFraction(78) && CubeFraction(79)
  {
  }

  lemma K512Is(t: nat)
    requires t < 80
    ensures CubeFraction(t)
  {
    hide CubeFraction, Prime, K512;
    if t < 8 {
      Row0();
    } else if t < 16 {
      Row1();
    } else if t < 24 {
      Row2();
    } else if t < 32 {
      Row3();
    } else if t < 40 {
      Row4();
    } else if t < 48 {
      Row5();
    } else if t < 56 {
      Row6();
    } else if t < 64 {
      Row7();
    } else if t < 72 {
      Row8();
    } else {
      Row9();
    }
  }

  /** Section 4.2.2: the first 32 bits of the same fractions. */
  predicate Half(t: nat) {
    K256(t) == K512(t) / TWO32
  }

  lemma Half0()
    ensures Half(0) && Half(1) && Half(2) && Half(3) && Half(4) && Half(5) && Half(6) && Half(7)
    ensures Half(8) && Half(9) && Half(10) && Half(11) && Half(12) && Half(13) && Half(14) && Half(15)
  {
  }

  lemma Half1()
    ensures Half(16) && Half(17) && Half(18) && Half(19) && Half(20) && Half(21) && Half(22) && Half(23)
    ensures Half(24) && Half(25) && Half(26) && Half(27) && Half(28) && Half(29) && Half(30) && Half(31)
  {
  }

  lemma Half2()
    ensures Half(32) && Half(33) && Half(34) && Half(35) && Half(36) && Half(37) && Half(38) && Half(39)
    ensures Half(40) && Half(41) && Half(42) && Half(43) && Half(44) && Half(45) && Half(46) && Half(47)
  {
  }

  lemma Half3()
    ensures Half(48) && Half(49) && Half(50) && Half(51) && Half(52) && Half(53) && Half(54) && Half(55)
    ensures Half(56) && Half(57) && Half(58) && Half(59) && Half(60) && Half(61) && Half(62) && Half(63)
  {
  }

  lemma K256Is(t: nat)
    requires t < 64
    ensures Half(t)
  {
    hide Half, K256, K512;
    if t < 16 {
      Half0();
    } else if t < 32 {
      Half1();
    } else if t < 48 {
      Half2();
    } else {
      Half3();
    }
  }

  /** Section 5.3.5: the first 64 bits of the fractional part of the square root of a prime. */
  predicate SquareBits(p: nat, h: nat) {
    var x := (if p < 4 then 1 else if p < 9 then 2 else if p < 16 then 3 else 4) * TWO64 + h;
    h < TWO64 && Square(x) <= p * TWO128 < Square(x + 1)
  }

  predicate SquareFraction(t: nat)
    requires t < 8
  {
    SquareBits(Prime(t), H512[t])
  }

  lemma InitialValues(t: nat)
    requires t < 8
    ensures SquareFraction(t) && H256[t] == H512[t] / TWO32
  {
    FirstValues();
    LastValues();
  }

  lemma FirstValues()
    ensures SquareFraction(0) && SquareFraction(1) && SquareFraction(2) && SquareFraction(3)
    ensures H256[0] == H512[0] / TWO32 && H256[1] == H512[1] / TWO32
    ensures H256[2] == H512[2] / TWO32 && H256[3] == H512[3] / TWO32
  {
  }

  lemma LastValues()
    ensures SquareFraction(4) && SquareFraction(5) && SquareFraction(6) && SquareFraction(7)
    ensures H256[4] == H512[4] / TWO32 && H256[5] == H512[5] / TWO32
    ensures H256[6] == H512[6] / TWO32 && H256[7] == H512[7] / TWO32
  {
  }

  /**
   * Without the table: the constants of index `t` come from the prime with `t` primes below it.
   * Those of SHA-512 are the first 64 bits of the fractions of its cube and square roots, and those
   * of SHA-256 their first 32 bits.
   */
  lemma ConstantsAre(t: nat) returns (p: nat)
    requires t < 80
    ensures IsPrime(p) && PrimesBelow(p) == t
    ensures CubeBits(p, K512(t)) && (t < 64 ==> K256(t) == K512(t) / TWO32)
    ensures t < 8 ==> SquareBits(p, H512[t]) && H256[t] == H512[t] / TWO32
  {
    hide IsPrime, PrimesBelow, Prime, K512, K256, CubeBits, SquareBits, H512, H256;
    p := Prime(t);
    Rank(t);
    K512Is(t);
    if t < 64 {
      K256Is(t);
    }
    if t < 8 {
      InitialValues(t);
    }
  }
}
