/** The streaming implementation of MD5, proved to compute what RFC 1321 defines. */
module Md5 {
  import opened Octets
  import opened Word32
  import opened BlockHash
  import opened Rfc1321

  // ------------------------------------------------------------------
  // The auxiliary functions; the first is rewritten to need one operation less.

  function F1(x: Word, y: Word, z: Word): (r: Word)
    ensures r == F(x, y, z)
  {
    Pow2Is();
    SelectBits(32, x, y, z);
    Xor(z, And(x, Xor(y, z)))
  }

  function F2(x: Word, y: Word, z: Word): (r: Word)
    ensures r == G(x, y, z)
  {
    Pow2Is();
    BitsCommute(AND, 32, z, x);
    BitsCommute(AND, 32, Not(z), y);
    F1(z, x, y)
  }

  function F3(x: Word, y: Word, z: Word): (r: Word)
    ensures r == H(x, y, z)
  {
    Xor(Xor(x, y), z)
  }

  function F4(x: Word, y: Word, z: Word): (r: Word)
    ensures r == I(x, y, z)
  {
    Xor(y, Or(x, Not(z)))
  }

  /** The central step, on the value of the auxiliary function. */
  function Md5Step(f: Word, w: Word, x: Word, data: Word, s: nat): Word
    requires 0 < s < 32
  {
    var w' := Add(w, Add(f, data));
    Add(Or(Shl(w', s), Shr(w', 32 - s)), x)
  }

  lemma AddAll(w: Word, f: Word, x: Word, t: Word)
    ensures Add(w, Add(f, Add(x, t))) == Wrap(w + f + x + t)
  {
    hide Wrap;
    WrapPart(x + t, f);
    WrapPart(f + x + t, w);
  }

  lemma AddCommutes(x: Word, y: Word)
    ensures Add(x, y) == Add(y, x)
  {
  }

  lemma StepIs(f: Word, w: Word, x: Word, word: Word, t: Word, s: nat)
    requires 0 < s < 32
    ensures Md5Step(f, w, x, Add(word, t), s) == Mix(w, f, word, t, x, s)
  {
    hide Rotl, Or, Shl, Shr, Add, Wrap;
    AddAll(w, f, word, t);
    RotlOr(Wrap(w + f + word + t), s);
    AddCommutes(x, Rotl(Wrap(w + f + word + t), s));
  }

  /** The steps are the operations of RFC 1321. */
  lemma StepsAre(inp: seq<Word>)
    requires |inp| == 16
    ensures forall i: nat, w, x, y, z {:trigger Op(i, w, x, y, z, inp)} ::
              Op(i, w, x, y, z, inp) == Md5Step(Aux(i, x, y, z), w, x, Add(inp[K(i)], T(i)), S(i))
  {
    hide Md5Step, Aux, T, K, S, Mix;
    forall i: nat, w, x, y, z
      ensures Op(i, w, x, y, z, inp) == Md5Step(Aux(i, x, y, z), w, x, Add(inp[K(i)], T(i)), S(i))
    {
      StepIs(Aux(i, x, y, z), w, x, inp[K(i)], T(i), S(i));
    }
  }

  /** Steps 0 to 15. */
  method Round1(inp: seq<Word>, a0: Word, b0: Word, c0: Word, d0: Word, ghost h: Hash)
    returns (a: Word, b: Word, c: Word, d: Word)
    requires |inp| == 16 && After(h, inp, 0) == Hash(a0, b0, c0, d0)
    ensures After(h, inp, 16) == Hash(a, b, c, d)
  {
    hide After, Op, Md5Step, Add, F, G, H, I, F1, F2, F3, F4, Rotl, Or, Shl, Shr, Wrap, And, Xor, Not, Bits, Pow2;
    StepsAre(inp);
    a, b, c, d := a0, b0, c0, d0;
    Quad(h, inp, 0, a, b, c, d);
    a := Md5Step(F1(b, c, d), a, b, Add(inp[0], 0xd76aa478), 7);
    d := Md5Step(F1(a, b, c), d, a, Add(inp[1], 0xe8c7b756), 12);
    c := Md5Step(F1(d, a, b), c, d, Add(inp[2], 0x242070db), 17);
    b := Md5Step(F1(c, d, a), b, c, Add(inp[3], 0xc1bdceee), 22);
    Quad(h, inp, 4, a, b, c, d);
    a := Md5Step(F1(b, c, d), a, b, Add(inp[4], 0xf57c0faf), 7);
    d := Md5Step(F1(a, b, c), d, a, Add(inp[5], 0x4787c62a), 12);
    c := Md5Step(F1(d, a, b), c, d, Add(inp[6], 0xa8304613), 17);
    b := Md5Step(F1(c, d, a), b, c, Add(inp[7], 0xfd469501), 22);
    Quad(h, inp, 8, a, b, c, d);
    a := Md5Step(F1(b, c, d), a, b, Add(inp[8], 0x698098d8), 7);
    d := Md5Step(F1(a, b, c), d, a, Add(inp[9], 0x8b44f7af), 12);
    c := Md5Step(F1(d, a, b), c, d, Add(inp[10], 0xffff5bb1), 17);
    b := Md5Step(F1(c, d, a), b, c, Add(inp[11], 0x895cd7be), 22);
    Quad(h, inp, 12, a, b, c, d);
    a := Md5Step(F1(b, c, d), a, b, Add(inp[12], 0x6b901122), 7);
    d := Md5Step(F1(a, b, c), d, a, Add(inp[13], 0xfd987193), 12);
    c := Md5Step(F1(d, a, b), c, d, Add(inp[14], 0xa679438e), 17);
    b := Md5Step(F1(c, d, a), b, c, Add(inp[15], 0x49b40821), 22);
  }

  /** Steps 16 to 31. */
  method Round2(inp: seq<Word>, a0: Word, b0: Word, c0: Word, d0: Word, ghost h: Hash)
    returns (a: Word, b: Word, c: Word, d: Word)
    requires |inp| == 16 && After(h, inp, 16) == Hash(a0, b0, c0, d0)
    ensures After(h, inp, 32) == Hash(a, b, c, d)
  {
    hide After, Op, Md5Step, Add, F, G, H, I, F1, F2, F3, F4, Rotl, Or, Shl, Shr, Wrap, And, Xor, Not, Bits, Pow2;
    StepsAre(inp);
    a, b, c, d := a0, b0, c0, d0;
    Quad(h, inp, 16, a, b, c, d);
    a := Md5Step(F2(b, c, d), a, b, Add(inp[1], 0xf61e2562), 5);
    d := Md5Step(F2(a, b, c), d, a, Add(inp[6], 0xc040b340), 9);
    c := Md5Step(F2(d, a, b), c, d, Add(inp[11], 0x265e5a51), 14);
    b := Md5Step(F2(c, d, a), b, c, Add(inp[0], 0xe9b6c7aa), 20);
    Quad(h, inp, 20, a, b, c, d);
    a := Md5Step(F2(b, c, d), a, b, Add(inp[5], 0xd62f105d), 5);
    d := Md5Step(F2(a, b, c), d, a, Add(inp[10], 0x02441453), 9);
    c := Md5Step(F2(d, a, b), c, d, Add(inp[15], 0xd8a1e681), 14);
    b := Md5Step(F2(c, d, a), b, c, Add(inp[4], 0xe7d3fbc8), 20);
    Quad(h, inp, 24, a, b, c, d);
    a := Md5Step(F2(b, c, d), a, b, Add(inp[9], 0x21e1cde6), 5);
    d := Md5Step(F2(a, b, c), d, a, Add(inp[14], 0xc33707d6), 9);
    c := Md5Step(F2(d, a, b), c, d, Add(inp[3], 0xf4d50d87), 14);
    b := Md5Step(F2(c, d, a), b, c, Add(inp[8], 0x455a14ed), 20);
    Quad(h, inp, 28, a, b, c, d);
    a := Md5Step(F2(b, c, d), a, b, Add(inp[13], 0xa9e3e905), 5);
    d := Md5Step(F2(a, b, c), d, a, Add(inp[2], 0xfcefa3f8), 9);
    c := Md5Step(F2(d, a, b), c, d, Add(inp[7], 0x676f02d9), 14);
    b := Md5Step(F2(c, d, a), b, c, Add(inp[12], 0x8d2a4c8a), 20);
  }

  /** Steps 32 to 47. */
  method Round3(inp: seq<Word>, a0: Word, b0: Word, c0: Word, d0: Word, ghost h: Hash)
    returns (a: Word, b: Word, c: Word, d: Word)
    requires |inp| == 16 && After(h, inp, 32) == Hash(a0, b0, c0, d0)
    ensures After(h, inp, 48) == Hash(a, b, c, d)
  {
    hide After, Op, Md5Step, Add, F, G, H, I, F1, F2, F3, F4, Rotl, Or, Shl, Shr, Wrap, And, Xor, Not, Bits, Pow2;
    StepsAre(inp);
    a, b, c, d := a0, b0, c0, d0;
    Quad(h, inp, 32, a, b, c, d);
    a := Md5Step(F3(b, c, d), a, b, Add(inp[5], 0xfffa3942), 4);
    d := Md5Step(F3(a, b, c), d, a, Add(inp[8], 0x8771f681), 11);
    c := Md5Step(F3(d, a, b), c, d, Add(inp[11], 0x6d9d6122), 16);
    b := Md5Step(F3(c, d, a), b, c, Add(inp[14], 0xfde5380c), 23);
    Quad(h, inp, 36, a, b, c, d);
    a := Md5Step(F3(b, c, d), a, b, Add(inp[1], 0xa4beea44), 4);
    d := Md5Step(F3(a, b, c), d, a, Add(inp[4], 0x4bdecfa9), 11);
    c := Md5Step(F3(d, a, b), c, d, Add(inp[7], 0xf6bb4b60), 16);
    b := Md5Step(F3(c, d, a), b, c, Add(inp[10], 0xbebfbc70), 23);
    Quad(h, inp, 40, a, b, c, d);
    a := Md5Step(F3(b, c, d), a, b, Add(inp[13], 0x289b7ec6), 4);
    d := Md5Step(F3(a, b, c), d, a, Add(inp[0], 0xeaa127fa), 11);
    c := Md5Step(F3(d, a, b), c, d, Add(inp[3], 0xd4ef3085), 16);
    b := Md5Step(F3(c, d, a), b, c, Add(inp[6], 0x04881d05), 23);
    Quad(h, inp, 44, a, b, c, d);
    a := Md5Step(F3(b, c, d), a, b, Add(inp[9], 0xd9d4d039), 4);
    d := Md5Step(F3(a, b, c), d, a, Add(inp[12], 0xe6db99e5), 11);
    c := Md5Step(F3(d, a, b), c, d, Add(inp[15], 0x1fa27cf8), 16);
    b := Md5Step(F3(c, d, a), b, c, Add(inp[2], 0xc4ac5665), 23);
  }

  /** Steps 48 to 63. */
  method Round4(inp: seq<Word>, a0: Word, b0: Word, c0: Word, d0: Word, ghost h: Hash)
    returns (a: Word, b: Word, c: Word, d: Word)
    requires |inp| == 16 && After(h, inp, 48) == Hash(a0, b0, c0, d0)
    ensures After(h, inp, 64) == Hash(a, b, c, d)
  {
    hide After, Op, Md5Step, Add, F, G, H, I, F1, F2, F3, F4, Rotl, Or, Shl, Shr, Wrap, And, Xor, Not, Bits, Pow2;
    StepsAre(inp);
    a, b, c, d := a0, b0, c0, d0;
    Quad(h, inp, 48, a, b, c, d);
    a := Md5Step(F4(b, c, d), a, b, Add(inp[0], 0xf4292244), 6);
    d := Md5Step(F4(a, b, c), d, a, Add(inp[7], 0x432aff97), 10);
    c := Md5Step(F4(d, a, b), c, d, Add(inp[14], 0xab9423a7), 15);
    b := Md5Step(F4(c, d, a), b, c, Add(inp[5], 0xfc93a039), 21);
    Quad(h, inp, 52, a, b, c, d);
    a := Md5Step(F4(b, c, d), a, b, Add(inp[12], 0x655b59c3), 6);
    d := Md5Step(F4(a, b, c), d, a, Add(inp[3], 0x8f0ccc92), 10);
    c := Md5Step(F4(d, a, b), c, d, Add(inp[10], 0xffeff47d), 15);
    b := Md5Step(F4(c, d, a), b, c, Add(inp[1], 0x85845dd1), 21);
    Quad(h, inp, 56, a, b, c, d);
    a := Md5Step(F4(b, c, d), a, b, Add(inp[8], 0x6fa87e4f), 6);
    d := Md5Step(F4(a, b, c), d, a, Add(inp[15], 0xfe2ce6e0), 10);
    c := Md5Step(F4(d, a, b), c, d, Add(inp[6], 0xa3014314), 15);
    b := Md5Step(F4(c, d, a), b, c, Add(inp[13], 0x4e0811a1), 21);
    Quad(h, inp, 60, a, b, c, d);
    a := Md5Step(F4(b, c, d), a, b, Add(inp[4], 0xf7537e82), 6);
    d := Md5Step(F4(a, b, c), d, a, Add(inp[11], 0xbd3af235), 10);
    c := Md5Step(F4(d, a, b), c, d, Add(inp[2], 0x2ad7d2bb), 15);
    b := Md5Step(F4(c, d, a), b, c, Add(inp[9], 0xeb86d391), 21);
  }

  // ------------------------------------------------------------------
  // One block.

  /** Four octets as a word, on a machine of any byte order. */
  function LoadLe(b0: byte, b1: byte, b2: byte, b3: byte): (r: Word)
    ensures r == LeWord([b0, b1, b2, b3])
  {
    hide Or, Shl;
    LoadIs(b0 as int, b1 as int, b2 as int, b3 as int);
    Or(Or(Or(b0 as int, Shl(b1 as int, 8)), Shl(b2 as int, 16)), Shl(b3 as int, 24))
  }

  lemma LoadIs(b0: Word, b1: Word, b2: Word, b3: Word)
    requires b0 < 0x100 && b1 < 0x100 && b2 < 0x100 && b3 < 0x100
    ensures Or(Or(Or(b0, Shl(b1, 8)), Shl(b2, 16)), Shl(b3, 24))
         == b0 + 0x100 * b1 + 0x1_0000 * b2 + 0x100_0000 * b3
  {
    hide Bits, Pow2;
    Pow2Is();
    OrAbove(b0, b1, 8);
    OrAbove(b0 + 0x100 * b1, b2, 16);
    OrAbove(b0 + 0x100 * b1 + 0x1_0000 * b2, b3, 24);
  }

  lemma OrAbove(b: Word, a: Word, k: nat)
    requires k <= 32 && b < Pow2(k) && a < Pow2(32 - k)
    ensures a * Pow2(k) + b < TWO32
    ensures Or(b, Shl(a, k)) == a * Pow2(k) + b
  {
    hide Bits, Pow2, Shl;
    var n := a * Pow2(k);
    assert n + Pow2(k) <= TWO32 by {
      Pow2Split(k);
      MulUp(a, Pow2(k), Pow2(32 - k));
    }
    assert Bits(OR, 32, n, b) == n + b by {
      OrDisjoint(32, k, a, b);
    }
    ShlSmall(a, k, n);
    BitsCommute(OR, 32, b, n);
  }

  lemma ShlSmall(a: Word, k: nat, n: int)
    requires n == a * Pow2(k) && 0 <= n < TWO32
    ensures Shl(a, k) == n
  {
  }

  ghost function HashOf(state: seq<Word>): Hash
    requires |state| == 4
  {
    Hash(state[0], state[1], state[2], state[3])
  }

  method MD5Transform(state: array<Word>, block: bytes)
    requires state.Length == 4 && |block| == 64
    modifies state
    ensures HashOf(state[..]) == Block(HashOf(old(state[..])), block)
  {
    hide After, LoadLe, LeWord, Add;
    var inp := new Word[16];
    for i := 0 to 16
      modifies inp
      invariant inp[..i] == Words(block)[..i]
    {
      inp[i] := LoadLe(block[i * 4], block[i * 4 + 1], block[i * 4 + 2], block[i * 4 + 3]);
      assert block[i * 4..i * 4 + 4] == [block[i * 4], block[i * 4 + 1], block[i * 4 + 2], block[i * 4 + 3]];
    }
    assert inp[..] == inp[..16] == Words(block)[..16] == Words(block);
    ghost var h := HashOf(state[..]);
    var a, b, c, d := state[0], state[1], state[2], state[3];
    AfterNone(h, Words(block));
    a, b, c, d := Round1(inp[..], a, b, c, d, h);
    a, b, c, d := Round2(inp[..], a, b, c, d, h);
    a, b, c, d := Round3(inp[..], a, b, c, d, h);
    a, b, c, d := Round4(inp[..], a, b, c, d, h);
    state[0] := Add(state[0], a);
    state[1] := Add(state[1], b);
    state[2] := Add(state[2], c);
    state[3] := Add(state[3], d);
  }

  lemma AfterNone(h: Hash, x: seq<Word>)
    requires |x| == 16
    ensures After(h, x, 0) == h
  {
  }

  // ------------------------------------------------------------------
  // Streaming.

  const MD5_BLOCK_LENGTH: nat := 64

  const PADDING: bytes := [0x80] + Zeros(63)

  function Put32Le(w: Word): (r: bytes)
    ensures r == LeBytes(w)
  {
    Quotients(w);
    [(w % 0x100) as byte, (w / 0x100 % 0x100) as byte, (w / 0x1_0000 % 0x100) as byte, (w / 0x100_0000) as byte]
  }

  lemma CountIs(n: nat, k: nat)
    ensures (8 * n % TWO64 + k * 8) % TWO64 == 8 * (n + k) % TWO64
    ensures 8 * n % TWO64 / 8 % 64 == n % 64
  {
    CountSum(8 * n, 8 * k);
    ModIs(8 * n, TWO64, n / TWO61, 8 * (n % TWO61));
    ModMod(n);
  }

  lemma CountSum(x: nat, y: nat)
    ensures (x % TWO64 + y) % TWO64 == (x + y) % TWO64
  {
    var r := (x % TWO64 + y) % TWO64;
    ModIs(x + y, TWO64, x / TWO64 + (x % TWO64 + y) / TWO64, r);
  }

  lemma ModMod(n: nat)
    ensures n % TWO61 % 64 == n % 64
  {
    var m := n % TWO61;
    ModIs(n, 64, (TWO61 / 64) * (n / TWO61) + m / 64, m % 64);
  }

  class Md5Ctx {
    const state: array<Word>
    var count: int
    const buffer: array<byte>
    ghost var msg: bytes              // everything hashed so far

    /** MD5Init. */
    constructor ()
      ensures Valid() && msg == [] && fresh(state) && fresh(buffer)
    {
      state := new Word[4];
      buffer := new byte[MD5_BLOCK_LENGTH];
      count, msg := 0, [];
      new;
      state[0] := 0x67452301;
      state[1] := 0xefcdab89;
      state[2] := 0x98badcfe;
      state[3] := 0x10325476;
    }

    /**
     * The state is the compression of all full blocks, the buffer starts with the octets left over,
     * and the count is the length in bits modulo 2^64.
     */
    ghost predicate Valid()
      reads this, state, buffer
    {
      && state.Length == 4 && buffer.Length == 64
      && count == 8 * |msg| % TWO64
      && Streams(Block, IV, 64, HashOf(state[..]), buffer[..], msg)
    }

    /** MD5Update: hash some more input. */
    method MD5Update(input: bytes)
      requires Valid()
      modifies this`count, this`msg, state, buffer
      ensures Valid() && msg == old(msg) + input
    {
      hide HashOf, Streams, Block, Fold;
      var have, need := count / 8 % MD5_BLOCK_LENGTH, MD5_BLOCK_LENGTH - count / 8 % MD5_BLOCK_LENGTH;
      ghost var m := msg;
      CountIs(|m|, |input|);
      count := (count + |input| * 8) % TWO64;
      msg := m + input;
      if |input| >= need {
        Blocks(input, have, need, m);
      } else {
        ghost var h, b := HashOf(state[..]), buffer[..];
        if |input| != 0 {
          CopyIn(buffer, have, input);
        }
        StreamsShort(Block, IV, 64, h, b, buffer[..], m, input);
      }
    }

    /** The input completes a block. */
    method Blocks(input: bytes, have: nat, need: nat, ghost m: bytes)
      requires state.Length == 4 && buffer.Length == 64 && Streams(Block, IV, 64, HashOf(state[..]), buffer[..], m)
      requires have == |m| % 64 && need == 64 - have <= |input|
      modifies state, buffer
      ensures Streams(Block, IV, 64, HashOf(state[..]), buffer[..], m + input)
    {
      hide HashOf, Streams, Block, Fold;
      ghost var b := buffer[..];
      var at := 0;
      if have != 0 {
        StreamsFilled(Block, IV, 64, HashOf(state[..]), b, m, input[..need]);
        CopyIn(buffer, have, input[..need]);
        assert buffer[..] == b[..have] + input[..need];
        MD5Transform(state, buffer[..]);
        at := need;
      } else {
        StreamsWhole(Block, IV, 64, HashOf(state[..]), buffer[..], m);
        assert m + input[..0] == m;
      }
      while |input| - at >= MD5_BLOCK_LENGTH
        invariant at <= |input| && (|m| + at) % 64 == 0
        invariant HashOf(state[..]) == Fold(Block, IV, m + input[..at], 64)
      {
        StreamsBlock(Block, IV, 64, m, input, at);
        MD5Transform(state, input[at..at + MD5_BLOCK_LENGTH]);
        at := at + MD5_BLOCK_LENGTH;
      }
      if |input| - at != 0 {
        CopyIn(buffer, 0, input[at..]);
      }
      StreamsRest(Block, IV, 64, HashOf(state[..]), buffer[..], m, input, at);
    }

    /** MD5Pad: pad to a whole number of blocks. */
    method MD5Pad()
      requires Valid()
      modifies this`count, this`msg, state, buffer
      ensures Valid() && msg == Padded(old(msg)) && HashOf(state[..]) == Compress(IV, Padded(old(msg)))
    {
      hide Streams, Block, Fold, Put64Le, Padded, PadWith, Le64, PadLen;
      ghost var m := msg;
      CountIs(|m|, 0);
      var octets := Put64Le(count);
      var padlen := MD5_BLOCK_LENGTH - count / 8 % MD5_BLOCK_LENGTH;
      if padlen < 1 + 8 {
        padlen := padlen + MD5_BLOCK_LENGTH;
      }
      PaddingIs(m, padlen);
      MD5Update(PADDING[..padlen - 8]);
      MD5Update(octets);
      StreamsWhole(Block, IV, 64, HashOf(state[..]), buffer[..], msg);
    }

    /** MD5Final: the digest; nothing of the context is left. */
    method MD5Final() returns (digest: bytes)
      requires Valid()
      modifies this, state, buffer
      ensures digest == Rfc1321.Md5(old(msg))
      ensures count == 0 && state[..] == [0, 0, 0, 0] && buffer[..] == Zeros(64)
    {
      hide Compress, Streams, Padded, Output, Block, Fold, HashOf;
      MD5Pad();
      digest := Digest();
      Wipe();
    }

    method Digest() returns (digest: bytes)
      requires state.Length == 4
      ensures digest == Output(HashOf(state[..]))
    {
      hide Put32Le, Output, LeBytes;
      digest := [];
      for i := 0 to 4
        invariant digest == Output(HashOf(state[..]))[..4 * i]
      {
        OutputWord(state[..], i);
        digest := digest + Put32Le(state[i]);
      }
    }

    method Wipe()
      requires state.Length == 4 && buffer.Length == 64
      modifies this, state, buffer
      ensures count == 0 && state[..] == [0, 0, 0, 0] && buffer[..] == Zeros(64)
    {
      forall i | 0 <= i < 4 {
        state[i] := 0;
      }
      forall i | 0 <= i < 64 {
        buffer[i] := 0;
      }
      count := 0;
    }
  }

  lemma OutputWord(state: seq<Word>, i: nat)
    requires |state| == 4 && i < 4
    ensures var r := Output(HashOf(state)); r[..4 * i + 4] == r[..4 * i] + LeBytes(state[i])
  {
    hide LeBytes;
  }

  /** A 64-bit count, stored low-order octet first. */
  function Put64Le(n: int): (r: bytes)
    requires 0 <= n < TWO64
    ensures r == Le64(n)
  {
    Put32Le(n % TWO32) + Put32Le(n / TWO32)
  }

  lemma PaddingIs(m: bytes, padlen: nat)
    requires padlen == if 64 - |m| % 64 < 9 then 128 - |m| % 64 else 64 - |m| % 64
    ensures 8 <= padlen <= 72 && 8 * |m| % TWO64 >= 0
    ensures (m + PADDING[..padlen - 8]) + Le64(8 * |m| % TWO64) == Padded(m)
    ensures |Padded(m)| % 64 == 0
  {
    hide Le64;
    assert padlen - 8 == PadLen(|m|);
    assert PADDING[..padlen - 8] == [0x80] + Zeros(padlen - 9);
    assert m + PADDING[..padlen - 8] == m + [0x80] + Zeros(padlen - 9);
  }

  // ------------------------------------------------------------------
  // The password digest.

  const HEX_DIGITS: string := "0123456789abcdef"

  function ByteHex(b: byte): string {
    [HEX_DIGITS[b as int / 16], HEX_DIGITS[b as int % 16]]
  }

  /** Two lower-case digits for each octet. */
  function Hex(b: bytes): string {
    if b == [] then "" else Hex(b[..|b| - 1]) + ByteHex(b[|b| - 1])
  }

  lemma HexNone()
    ensures Hex([]) == ""
  {
  }

  lemma HexLast(b: bytes, c: byte)
    ensures Hex(b + [c]) == Hex(b) + ByteHex(c)
  {
    assert (b + [c])[..|b|] == b;
  }

  function Digit(d: nat): char
    requires d < 16
  {
    if d < 10 then '0' + d as char else 'a' + (d - 10) as char
  }

  /** Each octet is two digits, the upper four bits first. */
  lemma {:induction false} HexMeans(b: bytes, i: nat)
    requires i < |b|
    ensures |Hex(b)| == 2 * |b|
    ensures Hex(b)[2 * i] == Digit(b[i] as nat / 16) && Hex(b)[2 * i + 1] == Digit(b[i] as nat % 16)
  {
    hide Hex;
    var n := |b| - 1;
    DigitIs(b[n] as nat / 16);
    DigitIs(b[n] as nat % 16);
    HexNone();
    HexLast(b[..n], b[n]);
    assert b[..n] + [b[n]] == b;
    if n > 0 {
      HexMeans(b[..n], if i < n then i else 0);
    } else {
      assert b[..n] == [];
    }
  }

  lemma DigitIs(d: nat)
    requires d < 16
    ensures HEX_DIGITS[d] == Digit(d)
  {
  }

  /**
   * Sections 3.1 and 3.2 of RFC 1321: the shortest whole number of blocks that holds the message, a
   * one bit, zeros and the length in bits modulo 2^64, low-order octet first.
   */
  lemma PaddedMeans(m: bytes)
    ensures var p := Padded(m);
            var n := |p|;
            && n % 64 == 0 && |m| + 9 <= n < |m| + 9 + 64
            && p[..|m|] == m && p[|m|] == 0x80
            && (forall i :: |m| < i < n - 8 ==> p[i] == 0)
            && LeWord(p[n - 8..n - 4]) + TWO32 * LeWord(p[n - 4..]) == 8 * |m| % TWO64
  {
    hide LeBytes, LeWord;
    var w := 8 * |m| % TWO64;
    var p := PadWith(m, Le64(w));
    assert p[|p| - 8..] == Le64(w);
    assert p[|p| - 8..|p| - 4] == Le64(w)[..4] == LeBytes(w % TWO32);
    assert p[|p| - 4..] == Le64(w)[4..] == LeBytes(w / TWO32);
  }

  /** Section 3.4 bit by bit: a choice by the first word, a choice by the third, a parity, and a difference. */
  lemma AuxBits(x: Word, y: Word, z: Word, j: nat)
    requires j < 32
    ensures BitOf(F(x, y, z), j) == if BitOf(x, j) then BitOf(y, j) else BitOf(z, j)
    ensures BitOf(G(x, y, z), j) == if BitOf(z, j) then BitOf(x, j) else BitOf(y, j)
    ensures BitOf(H(x, y, z), j) == (BitOf(x, j) != (BitOf(y, j) != BitOf(z, j)))
    ensures BitOf(I(x, y, z), j) == (BitOf(y, j) != (BitOf(x, j) || !BitOf(z, j)))
  {
    hide And, Or, Xor, Not, BitOf;
    WordBits(x, y, j);
    WordBits(Not(x), z, j);
    WordBits(x, z, j);
    WordBits(z, x, j);
    WordBits(y, Not(z), j);
    WordBits(And(x, y), And(Not(x), z), j);
    WordBits(And(x, z), And(y, Not(z)), j);
    WordBits(Xor(x, y), z, j);
    WordBits(x, Not(z), j);
    WordBits(y, Or(x, Not(z)), j);
  }

  lemma LittleEndian()
    ensures LeWord([1, 2, 3, 4]) == 0x0403_0201
  {
  }

  const KREALM: bytes := Ascii("kcaldav")

  /** What is stored for a password: the digest of user, realm and password joined by colons. */
  function Ha1(user: bytes, password: bytes): string {
    Hex(Rfc1321.Md5(user + [COLON] + KREALM + [COLON] + password))
  }

  method PrintHex(ha: bytes) returns (digest: string)
    ensures digest == Hex(ha)
  {
    digest := "";
    for i := 0 to |ha|
      invariant digest == Hex(ha[..i])
    {
      assert ha[..i + 1][..i] == ha[..i];
      digest := digest + ByteHex(ha[i]);
    }
    assert ha[..|ha|] == ha;
  }

  /** Hash a password in five pieces; `user` and `pbuf` are C strings. */
  method HashPassword(user: bytes, pbuf: bytes) returns (digest: string)
    ensures digest == Ha1(CStr(user), CStr(pbuf))
  {
    hide Rfc1321.Md5, CStr, Ascii, Streams, Md5Ctx.Valid, Hex;
    var ctx := new Md5Ctx();
    ctx.MD5Update(CStr(user));
    ctx.MD5Update([COLON]);
    ctx.MD5Update(KREALM);
    ctx.MD5Update([COLON]);
    ctx.MD5Update(CStr(pbuf));
    assert ctx.msg == CStr(user) + [COLON] + KREALM + [COLON] + CStr(pbuf);
    var ha := ctx.MD5Final();
    digest := PrintHex(ha);
  }
}
