/** MD5 as sections 2 and 3.1 to 3.5 of RFC 1321 define it. */
module Rfc1321 {
  import opened Octets
  import opened Word32
  import opened BlockHash

  /** The registers A, B, C and D. */
  datatype Hash = Hash(a: Word, b: Word, c: Word, d: Word)

  const IV := Hash(0x6745_2301, 0xefcd_ab89, 0x98ba_dcfe, 0x1032_5476)

  // ------------------------------------------------------------------
  // Section 3.4: sixty-four operations on a block of sixteen words.

  function F(x: Word, y: Word, z: Word): Word { Or(And(x, y), And(Not(x), z)) }

  function G(x: Word, y: Word, z: Word): Word { Or(And(x, z), And(y, Not(z))) }

  function H(x: Word, y: Word, z: Word): Word { Xor(Xor(x, y), z) }

  function I(x: Word, y: Word, z: Word): Word { Xor(y, Or(x, Not(z))) }

  function Aux(i: nat, x: Word, y: Word, z: Word): Word {
    if i < 16 then F(x, y, z) else if i < 32 then G(x, y, z) else if i < 48 then H(x, y, z) else I(x, y, z)
  }

  /** The word of the block that an operation adds. */
  function K(i: nat): (k: nat)
    ensures k < 16
  {
    if i < 16 then i
    else if i < 32 then (5 * i + 1) % 16
    else if i < 48 then (3 * i + 5) % 16
    else 7 * i % 16
  }

  /** How far an operation shifts. */
  function S(i: nat): (s: nat)
    ensures 0 < s < 32
  {
    var j := i % 4;
    if i < 16 then (if j == 0 then 7 else if j == 1 then 12 else if j == 2 then 17 else 22)
    else if i < 32 then (if j == 0 then 5 else if j == 1 then 9 else if j == 2 then 14 else 20)
    else if i < 48 then (if j == 0 then 4 else if j == 1 then 11 else if j == 2 then 16 else 23)
    else (if j == 0 then 6 else if j == 1 then 10 else if j == 2 then 15 else 21)
  }

  /** The integer part of 2^32 times abs(sin(i + 1)), i + 1 in radians. */
  function T(i: nat): Word {
    match i
    case 0 => 0xd76aa478 case 1 => 0xe8c7b756 case 2 => 0x242070db case 3 => 0xc1bdceee
    case 4 => 0xf57c0faf case 5 => 0x4787c62a case 6 => 0xa8304613 case 7 => 0xfd469501
    case 8 => 0x698098d8 case 9 => 0x8b44f7af case 10 => 0xffff5bb1 case 11 => 0x895cd7be
    case 12 => 0x6b901122 case 13 => 0xfd987193 case 14 => 0xa679438e case 15 => 0x49b40821
    case 16 => 0xf61e2562 case 17 => 0xc040b340 case 18 => 0x265e5a51 case 19 => 0xe9b6c7aa
    case 20 => 0xd62f105d case 21 => 0x02441453 case 22 => 0xd8a1e681 case 23 => 0xe7d3fbc8
    case 24 => 0x21e1cde6 case 25 => 0xc33707d6 case 26 => 0xf4d50d87 case 27 => 0x455a14ed
    case 28 => 0xa9e3e905 case 29 => 0xfcefa3f8 case 30 => 0x676f02d9 case 31 => 0x8d2a4c8a
    case 32 => 0xfffa3942 case 33 => 0x8771f681 case 34 => 0x6d9d6122 case 35 => 0xfde5380c
    case 36 => 0xa4beea44 case 37 => 0x4bdecfa9 case 38 => 0xf6bb4b60 case 39 => 0xbebfbc70
    case 40 => 0x289b7ec6 case 41 => 0xeaa127fa case 42 => 0xd4ef3085 case 43 => 0x04881d05
    case 44 => 0xd9d4d039 case 45 => 0xe6db99e5 case 46 => 0x1fa27cf8 case 47 => 0xc4ac5665
    case 48 => 0xf4292244 case 49 => 0x432aff97 case 50 => 0xab9423a7 case 51 => 0xfc93a039
    case 52 => 0x655b59c3 case 53 => 0x8f0ccc92 case 54 => 0xffeff47d case 55 => 0x85845dd1
    case 56 => 0x6fa87e4f case 57 => 0xfe2ce6e0 case 58 => 0xa3014314 case 59 => 0x4e0811a1
    case 60 => 0xf7537e82 case 61 => 0xbd3af235 case 62 => 0x2ad7d2bb case 63 => 0xeb86d391
    case _ => 0
  }

  /** What each operation does with its four summands. */
  function Mix(a: Word, f: Word, x: Word, t: Word, b: Word, s: nat): Word
    requires s <= 32
  {
    Add(b, Rotl(Wrap(a + f + x + t), s))
  }

  /** Operation `i`: the new value of the register `a`. */
  function Op(i: nat, a: Word, b: Word, c: Word, d: Word, x: seq<Word>): Word
    requires |x| == 16
  {
    Mix(a, Aux(i, b, c, d), x[K(i)], T(i), b, S(i))
  }

  /** The registers after `i` operations; each of them renames the registers. */
  function After(h: Hash, x: seq<Word>, i: nat): Hash
    requires |x| == 16
  {
    if i == 0 then h else
      var Hash(a, b, c, d) := After(h, x, i - 1);
      Hash(d, Op(i - 1, a, b, c, d, x), b, c)
  }

  /** Four operations bring the names back. */
  lemma Quad(h: Hash, x: seq<Word>, i: nat, a: Word, b: Word, c: Word, d: Word)
    requires |x| == 16 && After(h, x, i) == Hash(a, b, c, d)
    ensures var a' := Op(i, a, b, c, d, x);
            var d' := Op(i + 1, d, a', b, c, x);
            var c' := Op(i + 2, c, d', a', b, x);
            var b' := Op(i + 3, b, c', d', a', x);
            After(h, x, i + 4) == Hash(a', b', c', d')
  {
    hide Op;
    var a' := Op(i, a, b, c, d, x);
    var d' := Op(i + 1, d, a', b, c, x);
    var c' := Op(i + 2, c, d', a', b, x);
    assert After(h, x, i + 1) == Hash(d, a', b, c);
    assert After(h, x, i + 2) == Hash(c, d', a', b);
    assert After(h, x, i + 3) == Hash(b, c', d', a');
  }

  function AddHash(h: Hash, k: Hash): Hash {
    Hash(Add(h.a, k.a), Add(h.b, k.b), Add(h.c, k.c), Add(h.d, k.d))
  }

  /** One block. */
  function Transform(h: Hash, x: seq<Word>): Hash
    requires |x| == 16
  {
    AddHash(h, After(h, x, 64))
  }

  // ------------------------------------------------------------------
  // Section 2: octets as words, low-order first.

  function LeWord(b: bytes): Word
    requires |b| == 4
  {
    b[0] as int + 0x100 * b[1] as int + 0x1_0000 * b[2] as int + 0x100_0000 * b[3] as int
  }

  function LeBytes(w: Word): (r: bytes)
    ensures |r| == 4 && LeWord(r) == w
  {
    var w1 := w / 0x100;
    var w2 := w1 / 0x100;
    [(w % 0x100) as byte, (w1 % 0x100) as byte, (w2 % 0x100) as byte, (w2 / 0x100) as byte]
  }

  function Words(block: bytes): (r: seq<Word>)
    requires |block| == 64
    ensures |r| == 16 && forall i :: 0 <= i < 16 ==> r[i] == LeWord(block[4 * i..4 * i + 4])
  {
    seq(16, i requires 0 <= i < 16 => LeWord(block[4 * i..4 * i + 4]))
  }

  /** One block of octets. */
  function Block(h: Hash, block: bytes): Hash {
    if |block| == 64 then Transform(h, Words(block)) else h
  }

  /** All the blocks of a message. */
  function Compress(h: Hash, m: bytes): Hash
    requires |m| % 64 == 0
  {
    Fold(Block, h, m, 64)
  }

  // ------------------------------------------------------------------
  // Sections 3.1, 3.2 and 3.5: padding and output.

  /** A 64-bit number, low-order octet first. */
  function Le64(n: int): (r: bytes)
    requires 0 <= n < TWO64
    ensures |r| == 8
  {
    LeBytes(n % TWO32) + LeBytes(n / TWO32)
  }

  /** How many octets bring a length to 56 modulo 64; there is at least one. */
  function PadLen(n: nat): (p: nat)
    ensures 1 <= p <= 64 && (n + p) % 64 == 56
  {
    if n % 64 < 56 then 56 - n % 64 else 120 - n % 64
  }

  function PadWith(m: bytes, length: bytes): (r: bytes)
    requires |length| == 8
    ensures |r| % 64 == 0
  {
    m + [0x80] + Zeros(PadLen(|m|) - 1) + length
  }

  /** The message, its padding, and its length in bits modulo 2^64. */
  function Padded(m: bytes): (r: bytes)
    ensures |r| % 64 == 0
  {
    PadWith(m, Le64(8 * |m| % TWO64))
  }

  function Output(h: Hash): (r: bytes)
    ensures |r| == 16
  {
    LeBytes(h.a) + LeBytes(h.b) + LeBytes(h.c) + LeBytes(h.d)
  }

  function Md5(m: bytes): (r: bytes)
    ensures |r| == 16
  {
    Output(Compress(IV, Padded(m)))
  }

  // ------------------------------------------------------------------

  lemma CompressLast(h: Hash, m: bytes, block: bytes)
    requires |m| % 64 == 0 && |block| == 64
    ensures Compress(h, m + block) == Transform(Compress(h, m), Words(block))
  {
    hide Transform, Words, Fold;
    FoldLast(Block, h, m, block, 64);
  }

  lemma CompressNone(h: Hash)
    ensures Compress(h, []) == h
  {
  }
}
