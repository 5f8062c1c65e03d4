/** SHA-256 and SHA-512 as FIPS 180-4 defines them; the two differ in the width and in constants. */
module Fips180 {
  import opened Octets
  import opened Word32

  /** The amounts of a logical function; the last one of a lower-case function is a plain shift. */
  datatype Shifts = Shifts(x: nat, y: nat, z: nat)

  /** Section 1: the width of words, the number of rounds, and the constants of sections 4 and 5. */
  datatype Variant = Variant(width: nat, rounds: nat, Sigma0: Shifts, Sigma1: Shifts,
                             sigma0: Shifts, sigma1: Shifts, k: nat -> nat, iv: seq<nat>)

  // ------------------------------------------------------------------
  // Sections 4.2 and 5.3: constants.

  function K256(t: nat): nat {
    if t < 16 then
      match t
      case 0 => 0x428a2f98 case 1 => 0x71374491 case 2 => 0xb5c0fbcf case 3 => 0xe9b5dba5
      case 4 => 0x3956c25b case 5 => 0x59f111f1 case 6 => 0x923f82a4 case 7 => 0xab1c5ed5
      case 8 => 0xd807aa98 case 9 => 0x12835b01 case 10 => 0x243185be case 11 => 0x550c7dc3
      case 12 => 0x72be5d74 case 13 => 0x80deb1fe case 14 => 0x9bdc06a7 case _ => 0xc19bf174
    else if t < 32 then
      match t
      case 16 => 0xe49b69c1 case 17 => 0xefbe4786 case 18 => 0x0fc19dc6 case 19 => 0x240ca1cc
      case 20 => 0x2de92c6f case 21 => 0x4a7484aa case 22 => 0x5cb0a9dc case 23 => 0x76f988da
      case 24 => 0x983e5152 case 25 => 0xa831c66d case 26 => 0xb00327c8 case 27 => 0xbf597fc7
      case 28 => 0xc6e00bf3 case 29 => 0xd5a79147 case 30 => 0x06ca6351 case _ => 0x14292967
    else if t < 48 then
      match t
      case 32 => 0x27b70a85 case 33 => 0x2e1b2138 case 34 => 0x4d2c6dfc case 35 => 0x53380d13
      case 36 => 0x650a7354 case 37 => 0x766a0abb case 38 => 0x81c2c92e case 39 => 0x92722c85
      case 40 => 0xa2bfe8a1 case 41 => 0xa81a664b case 42 => 0xc24b8b70 case 43 => 0xc76c51a3
      case 44 => 0xd192e819 case 45 => 0xd6990624 case 46 => 0xf40e3585 case _ => 0x106aa070
    else
      match t
      case 48 => 0x19a4c116 case 49 => 0x1e376c08 case 50 => 0x2748774c case 51 => 0x34b0bcb5
      case 52 => 0x391c0cb3 case 53 => 0x4ed8aa4a case 54 => 0x5b9cca4f case 55 => 0x682e6ff3
      case 56 => 0x748f82ee case 57 => 0x78a5636f case 58 => 0x84c87814 case 59 => 0x8cc70208
      case 60 => 0x90befffa case 61 => 0xa4506ceb case 62 => 0xbef9a3f7 case 63 => 0xc67178f2
      case _ => 0
  }

  function K512(t: nat): nat {
    if t < 16 then
      match t
      case 0 => 0x428a2f98d728ae22 case 1 => 0x7137449123ef65cd case 2 => 0xb5c0fbcfec4d3b2f case 3 => 0xe9b5dba58189dbbc
      case 4 => 0x3956c25bf348b538 case 5 => 0x59f111f1b605d019 case 6 => 0x923f82a4af194f9b case 7 => 0xab1c5ed5da6d8118
      case 8 => 0xd807aa98a3030242 case 9 => 0x12835b0145706fbe case 10 => 0x243185be4ee4b28c case 11 => 0x550c7dc3d5ffb4e2
      case 12 => 0x72be5d74f27b896f case 13 => 0x80deb1fe3b1696b1 case 14 => 0x9bdc06a725c71235 case _ => 0xc19bf174cf692694
    else if t < 32 then
      match t
      case 16 => 0xe49b69c19ef14ad2 case 17 => 0xefbe4786384f25e3 case 18 => 0x0fc19dc68b8cd5b5 case 19 => 0x240ca1cc77ac9c65
      case 20 => 0x2de92c6f592b0275 case 21 => 0x4a7484aa6ea6e483 case 22 => 0x5cb0a9dcbd41fbd4 case 23 => 0x76f988da831153b5
      case 24 => 0x983e5152ee66dfab case 25 => 0xa831c66d2db43210 case 26 => 0xb00327c898fb213f case 27 => 0xbf597fc7beef0ee4
      case 28 => 0xc6e00bf33da88fc2 case 29 => 0xd5a79147930aa725 case 30 => 0x06ca6351e003826f case _ => 0x142929670a0e6e70
    else if t < 48 then
      match t
      case 32 => 0x27b70a8546d22ffc case 33 => 0x2e1b21385c26c926 case 34 => 0x4d2c6dfc5ac42aed case 35 => 0x53380d139d95b3df
      case 36 => 0x650a73548baf63de case 37 => 0x766a0abb3c77b2a8 case 38 => 0x81c2c92e47edaee6 case 39 => 0x92722c851482353b
      case 40 => 0xa2bfe8a14cf10364 case 41 => 0xa81a664bbc423001 case 42 => 0xc24b8b70d0f89791 case 43 => 0xc76c51a30654be30
      case 44 => 0xd192e819d6ef5218 case 45 => 0xd69906245565a910 case 46 => 0xf40e35855771202a case _ => 0x106aa07032bbd1b8
    else if t < 64 then
      match t
      case 48 => 0x19a4c116b8d2d0c8 case 49 => 0x1e376c085141ab53 case 50 => 0x2748774cdf8eeb99 case 51 => 0x34b0bcb5e19b48a8
      case 52 => 0x391c0cb3c5c95a63 case 53 => 0x4ed8aa4ae3418acb case 54 => 0x5b9cca4f7763e373 case 55 => 0x682e6ff3d6b2b8a3
      case 56 => 0x748f82ee5defb2fc case 57 => 0x78a5636f43172f60 case 58 => 0x84c87814a1f0ab72 case 59 => 0x8cc702081a6439ec
      case 60 => 0x90befffa23631e28 case 61 => 0xa4506cebde82bde9 case 62 => 0xbef9a3f7b2c67915 case _ => 0xc67178f2e372532b
    else
      match t
      case 64 => 0xca273eceea26619c case 65 => 0xd186b8c721c0c207 case 66 => 0xeada7dd6cde0eb1e case 67 => 0xf57d4f7fee6ed178
      case 68 => 0x06f067aa72176fba case 69 => 0x0a637dc5a2c898a6 case 70 => 0x113f9804bef90dae case 71 => 0x1b710b35131c471b
      case 72 => 0x28db77f523047d84 case 73 => 0x32caab7b40c72493 case 74 => 0x3c9ebe0a15c9bebc case 75 => 0x431d67c49c100d4c
      case 76 => 0x4cc5d4becb3e42b6 case 77 => 0x597f299cfc657e2a case 78 => 0x5fcb6fab3ad6faec case 79 => 0x6c44198c4a475817
      case _ => 0
  }

  const H256: seq<nat> := [
    0x6a09e667, 0xbb67ae85, 0x3c6ef372, 0xa54ff53a,
    0x510e527f, 0x9b05688c, 0x1f83d9ab, 0x5be0cd19]

  const H512: seq<nat> := [
    0x6a09e667f3bcc908, 0xbb67ae8584caa73b, 0x3c6ef372fe94f82b, 0xa54ff53a5f1d36f1,
    0x510e527fade682d1, 0x9b05688c2b3e6c1f, 0x1f83d9abfb41bd6b, 0x5be0cd19137e2179]

  const SHA256 := Variant(32, 64, Shifts(2, 13, 22), Shifts(6, 11, 25), Shifts(7, 18, 3), Shifts(17, 19, 10), K256, H256)
  const SHA512 := Variant(64, 80, Shifts(28, 34, 39), Shifts(14, 18, 41), Shifts(1, 8, 7), Shifts(19, 61, 6), K512, H512)

  ghost predicate Ok(v: Variant) {
    && v.width >= 8 && v.rounds >= 16 && v.rounds % 8 == 0 && |v.iv| == 8
    && v.Sigma0.x <= v.width && v.Sigma0.y <= v.width && v.Sigma0.z <= v.width
    && v.Sigma1.x <= v.width && v.Sigma1.y <= v.width && v.Sigma1.z <= v.width
    && v.sigma0.x <= v.width && v.sigma0.y <= v.width
    && v.sigma1.x <= v.width && v.sigma1.y <= v.width
  }

  lemma VariantsOk()
    ensures Ok(SHA256) && Ok(SHA512)
  {
  }

  // ------------------------------------------------------------------
  // Section 4.1: functions.

  function Sum(v: Variant, n: int): nat {
    n % Pow2(v.width)
  }

  function ShiftUp(x: nat, n: nat): nat {
    if n == 0 then x else 2 * ShiftUp(x, n - 1)
  }

  function ShiftDown(x: nat, n: nat): nat {
    if n == 0 then x else ShiftDown(x / 2, n - 1)
  }

  function Rotr(v: Variant, n: nat, x: nat): nat
    requires n <= v.width
  {
    Bits(OR, v.width, ShiftDown(x, n), ShiftUp(x, v.width - n))
  }

  function Xor3(v: Variant, x: nat, y: nat, z: nat): nat {
    Bits(XOR, v.width, Bits(XOR, v.width, x, y), z)
  }

  function Ch(v: Variant, x: nat, y: nat, z: nat): nat {
    Bits(XOR, v.width, Bits(AND, v.width, x, y), Bits(AND, v.width, Flip(v.width, x % Pow2(v.width)), z))
  }

  function Maj(v: Variant, x: nat, y: nat, z: nat): nat {
    Xor3(v, Bits(AND, v.width, x, y), Bits(AND, v.width, x, z), Bits(AND, v.width, y, z))
  }

  /** Upper-case Sigma: three rotations. */
  function Big(v: Variant, s: Shifts, x: nat): nat
    requires s.x <= v.width && s.y <= v.width && s.z <= v.width
  {
    Xor3(v, Rotr(v, s.x, x), Rotr(v, s.y, x), Rotr(v, s.z, x))
  }

  /** Lower-case sigma: two rotations and a shift. */
  function Small(v: Variant, s: Shifts, x: nat): nat
    requires s.x <= v.width && s.y <= v.width
  {
    Xor3(v, Rotr(v, s.x, x), Rotr(v, s.y, x), ShiftDown(x, s.z))
  }

  // ------------------------------------------------------------------
  // Sections 6.2.2 and 6.4.2: the hash computation.

  /** The message schedule, with all its words. */
  function Sched(v: Variant, m: seq<nat>, t: nat): nat
    requires Ok(v) && |m| == 16
  {
    if t < 16 then m[t] else
      Sum(v, Small(v, v.sigma1, Sched(v, m, t - 2)) + Sched(v, m, t - 7)
             + Small(v, v.sigma0, Sched(v, m, t - 15)) + Sched(v, m, t - 16))
  }

  /** The working variables. */
  datatype Regs = Regs(a: nat, b: nat, c: nat, d: nat, e: nat, f: nat, g: nat, h: nat)

  function Round(v: Variant, r: Regs, k: nat, w: nat): Regs
    requires Ok(v)
  {
    var t1 := Sum(v, r.h + Big(v, v.Sigma1, r.e) + Ch(v, r.e, r.f, r.g) + k + w);
    var t2 := Sum(v, Big(v, v.Sigma0, r.a) + Maj(v, r.a, r.b, r.c));
    Regs(Sum(v, t1 + t2), r.a, r.b, r.c, Sum(v, r.d + t1), r.e, r.f, r.g)
  }

  /** The working variables after `t` rounds. */
  function After(v: Variant, r: Regs, m: seq<nat>, t: nat): Regs
    requires Ok(v) && |m| == 16 && t <= v.rounds
  {
    if t == 0 then r else Round(v, After(v, r, m, t - 1), v.k(t - 1), Sched(v, m, t - 1))
  }

  function AddRegs(v: Variant, r: Regs, s: Regs): Regs {
    Regs(Sum(v, r.a + s.a), Sum(v, r.b + s.b), Sum(v, r.c + s.c), Sum(v, r.d + s.d),
         Sum(v, r.e + s.e), Sum(v, r.f + s.f), Sum(v, r.g + s.g), Sum(v, r.h + s.h))
  }

  function Transform(v: Variant, r: Regs, m: seq<nat>): Regs
    requires Ok(v) && |m| == 16
  {
    AddRegs(v, r, After(v, r, m, v.rounds))
  }

  // ------------------------------------------------------------------
  // Sections 3.1 and 5.2: octets as words, high-order first.

  function BeWord(b: bytes): nat {
    if b == [] then 0 else 0x100 * BeWord(b[..|b| - 1]) + b[|b| - 1] as nat
  }

  /** Word `i` of a block of sixteen words. */
  function WordAt(v: Variant, block: bytes, i: nat): nat
    requires |block| == 16 * (v.width / 8) && i < 16
  {
    MulUp(i, v.width / 8, 16);
    BeWord(block[i * (v.width / 8)..i * (v.width / 8) + v.width / 8])
  }

  function Words(v: Variant, block: bytes): (r: seq<nat>)
    requires |block| == 16 * (v.width / 8)
    ensures |r| == 16
  {
    seq(16, i requires 0 <= i < 16 => WordAt(v, block, i))
  }
}
