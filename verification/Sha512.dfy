/** The streaming implementation of SHA-512 with its two-word bit counter. */
module Sha512 {
  import opened Octets
  import opened Word32
  import opened Fips180
  import opened Sha2
  import opened BlockHash

  const IV := Regs(H512[0], H512[1], H512[2], H512[3], H512[4], H512[5], H512[6], H512[7])

  // ------------------------------------------------------------------
  // Sections 5.1.2 and 6.4 of FIPS 180-4.

  /** One block. */
  function Block(r: Regs, block: bytes): Regs {
    VariantsOk();
    if |block| == 128 then Transform(SHA512, r, Words(SHA512, block)) else r
  }

  function Compress(r: Regs, m: bytes): Regs
    requires |m| % 128 == 0
  {
    Fold(Block, r, m, 128)
  }

  /** A number in `k` octets, high-order first. */
  function BeBytes(n: nat, k: nat): (r: bytes)
    ensures |r| == k
  {
    if k == 0 then [] else BeBytes(n / 0x100, k - 1) + [(n % 0x100) as byte]
  }

  /** How many zeros come between the first bit of the padding and the length. */
  function ZeroLen(n: nat): (z: nat)
    ensures z < 128 && (n + 1 + z + 16) % 128 == 0
  {
    if n % 128 < 112 then 111 - n % 128 else 239 - n % 128
  }

  /** The message, a one bit, zeros, and the length. */
  function PadWith(m: bytes, length: bytes): (r: bytes)
    requires |length| == 16
    ensures |r| % 128 == 0
  {
    m + [0x80] + Zeros(ZeroLen(|m|)) + length
  }

  /** The length in bits, as a 128-bit number. */
  function Padded(m: bytes): (r: bytes)
    ensures |r| % 128 == 0
  {
    PadWith(m, BeBytes(8 * |m| % TWO128, 16))
  }

  function Output(r: Regs): (d: bytes)
    ensures |d| == 64
  {
    BeBytes(r.a, 8) + BeBytes(r.b, 8) + BeBytes(r.c, 8) + BeBytes(r.d, 8)
    + BeBytes(r.e, 8) + BeBytes(r.f, 8) + BeBytes(r.g, 8) + BeBytes(r.h, 8)
  }

  function Sha512(m: bytes): bytes {
    Output(Compress(IV, Padded(m)))
  }

  lemma CompressLast(r: Regs, m: bytes, block: bytes)
    requires |m| % 128 == 0 && |block| == 128
    ensures Compress(r, m + block) == Block(Compress(r, m), block)
  {
    hide Block, Fold;
    FoldLast(Block, r, m, block, 128);
  }

  // ------------------------------------------------------------------
  // The counter.

  /** The low word tells how full the buffer is. */
  lemma CountIs(n: nat, w0: int, w1: int)
    requires 0 <= w0 < TWO64 && w0 + w1 * TWO64 == 8 * n % TWO128
    ensures w0 / 8 % 128 == n % 128
  {
    var q := 8 * n / TWO128;
    ModIs(8 * n, TWO64, q * TWO64 + w1, w0);
    ModIs(8 * n, TWO64, n / TWO61, 8 * (n % TWO61));
    var m := n % TWO61;
    ModIs(n, 128, (TWO61 / 128) * (n / TWO61) + m / 128, m % 128);
  }

  lemma TailIs(n: nat, w0: int, w1: int)
    requires 0 <= w0 < TWO64 && w0 + w1 * TWO64 == 8 * n % TWO128
    ensures w0 / 8 % 128 == n - Full(n, 128) && Full(n, 128) % 128 == 0
  {
    CountIs(n, w0, w1);
    FullWhole(n, 128);
  }

  lemma CountMore(x: nat, y: nat)
    ensures (x % TWO128 + y) % TWO128 == (x + y) % TWO128
  {
    var r := (x % TWO128 + y) % TWO128;
    ModIs(x + y, TWO128, x / TWO128 + (x % TWO128 + y) / TWO128, r);
  }

  /** A carry out of the low word shows as a sum below the summand. */
  lemma Carry(w0: int, w1: int, n: int)
    requires 0 <= w0 < TWO64 && 0 <= w1 < TWO64 && 0 <= n < TWO64
    ensures var s := (w0 + n) % TWO64;
            s + (if s < n then (w1 + 1) % TWO64 else w1) * TWO64 == (w0 + w1 * TWO64 + n) % TWO128
  {
    var s := (w0 + n) % TWO64;
    if w0 + n >= TWO64 {
      ModIs(w0 + n, TWO64, 1, w0 + n - TWO64);
      var w := (w1 + 1) % TWO64;
      ModIs(w0 + w1 * TWO64 + n, TWO128, if w1 + 1 == TWO64 then 1 else 0, s + w * TWO64);
    } else {
      ModIs(w0 + n, TWO64, 0, w0 + n);
      ModIs(w0 + w1 * TWO64 + n, TWO128, 0, s + w1 * TWO64);
    }
  }

  // ------------------------------------------------------------------
  // The context.

  const BLOCK: nat := 128
  const SHORT: nat := 112

  method Transform512(state: array<nat>, block: bytes)
    requires state.Length == 8 && |block| == 128
    modifies state
    ensures RegsOf(state[..]) == Block(old(RegsOf(state[..])), block)
  {
    VariantsOk();
    TransformUnrolled(SHA512, state, block);
  }

  class Sha512Ctx {
    const state: array<nat>
    var bitcount0: int                // the low word of the counter
    var bitcount1: int                // and the high one
    const buffer: array<byte>
    ghost var msg: bytes              // everything hashed so far

    /** SHA512Init. */
    constructor ()
      ensures Valid() && msg == [] && fresh(state) && fresh(buffer)
    {
      state := new nat[8](i requires 0 <= i < 8 => H512[i]);
      buffer := new byte[BLOCK](i => 0);
      bitcount0, bitcount1, msg := 0, 0, [];
    }

    /** The counter is 8 times the length modulo 2^128, and what was hashed is in the state and the buffer. */
    ghost predicate Valid()
      reads this, state, buffer
    {
      Counts(|msg|) && Holds(msg)
    }

    ghost predicate Counts(n: nat)
      reads this`bitcount0, this`bitcount1
    {
      && 0 <= bitcount0 < TWO64 && 0 <= bitcount1 < TWO64
      && bitcount0 + bitcount1 * TWO64 == 8 * n % TWO128
    }

    ghost predicate Holds(m: bytes)
      reads state, buffer
    {
      state.Length == 8 && buffer.Length == 128 && Streams(Block, IV, 128, RegsOf(state[..]), buffer[..], m)
    }

    /** ADDINC128: count some octets. */
    method AddInc(k: nat, ghost n: nat)
      requires Counts(n) && k <= BLOCK
      modifies this`bitcount0, this`bitcount1
      ensures Counts(n + k)
    {
      Carry(bitcount0, bitcount1, 8 * k);
      CountMore(8 * n, 8 * k);
      bitcount0 := (bitcount0 + 8 * k) % TWO64;
      if bitcount0 < 8 * k {
        bitcount1 := (bitcount1 + 1) % TWO64;
      }
    }

    /** SHA512Update: hash some more input. */
    method Update(data: bytes)
      requires Valid()
      modifies this`bitcount0, this`bitcount1, this`msg, state, buffer
      ensures Valid() && msg == old(msg) + data
    {
      hide Fold, Block, RegsOf, Streams;
      ghost var m, r, b := msg, RegsOf(state[..]), buffer[..];
      assert m + [] == m;
      if |data| == 0 {
        return;
      }
      CountIs(|m|, bitcount0, bitcount1);
      msg := m + data;
      var used := bitcount0 / 8 % BLOCK;
      if used > 0 && |data| < BLOCK - used {
        CopyIn(buffer, used, data);
        AddInc(|data|, |m|);
        StreamsShort(Block, IV, 128, r, b, buffer[..], m, data);
        return;
      }
      Blocks(data, used, m);
    }

    /** The input fills the buffer, or the buffer is empty. */
    method Blocks(data: bytes, used: nat, ghost m: bytes)
      requires Counts(|m|) && Holds(m) && used == |m| % 128 && (used > 0 ==> |data| >= BLOCK - used)
      modifies this`bitcount0, this`bitcount1, state, buffer
      ensures Counts(|m + data|) && Holds(m + data)
    {
      hide Fold, Block, RegsOf, Streams, Counts;
      ghost var r, b := RegsOf(state[..]), buffer[..];
      var at := 0;
      if used > 0 {
        at := BLOCK - used;
        StreamsFilled(Block, IV, 128, r, b, m, data[..at]);
        CopyIn(buffer, used, data[..at]);
        AddInc(at, |m|);
        assert buffer[..] == b[..used] + data[..at];
        Transform512(state, buffer[..]);
      } else {
        StreamsWhole(Block, IV, 128, r, b, m);
        assert m + data[..0] == m;
      }
      while |data| - at >= BLOCK
        invariant at <= |data| && (|m| + at) % 128 == 0 && Counts(|m| + at)
        invariant RegsOf(state[..]) == Fold(Block, IV, m + data[..at], 128)
      {
        StreamsBlock(Block, IV, 128, m, data, at);
        Transform512(state, data[at..at + BLOCK]);
        AddInc(BLOCK, |m| + at);
        at := at + BLOCK;
      }
      if |data| - at > 0 {
        CopyIn(buffer, 0, data[at..]);
        AddInc(|data| - at, |m| + at);
      }
      StreamsRest(Block, IV, 128, RegsOf(state[..]), buffer[..], m, data, at);
    }

    /** SHA512Pad: compress the last one or two blocks. */
    method Pad()
      requires Valid()
      modifies state, buffer
      ensures RegsOf(state[..]) == Compress(IV, Padded(msg))
    {
      hide Fold, Block, RegsOf, PadWith, Streams, Full;
      StreamsTail(Block, IV, 128, RegsOf(state[..]), buffer[..], msg);
      TailIs(|msg|, bitcount0, bitcount1);
      ghost var f := Full(|msg|, 128);
      BeginPad(bitcount0 / 8 % BLOCK, msg[f..]);
      PadLength();
      LastBlocks(msg, f, BeBytes(8 * |msg| % TWO128, 16));
    }

    /** The length, and the last block. */
    method PadLength()
      requires state.Length == 8 && buffer.Length == 128 && 0 <= bitcount0 < TWO64 && 0 <= bitcount1 < TWO64
      modifies state, buffer
      ensures RegsOf(state[..]) == Block(old(RegsOf(state[..])),
                                         old(buffer[..112]) + BeBytes(bitcount0 + bitcount1 * TWO64, 16))
    {
      hide Block, RegsOf, Put64Be;
      ghost var b := buffer[..SHORT];
      CopyIn(buffer, SHORT, Put64Be(bitcount1));
      CopyIn(buffer, SHORT + 8, Put64Be(bitcount0));
      LengthOctets(bitcount0, bitcount1);
      assert buffer[..] == b + (Put64Be(bitcount1) + Put64Be(bitcount0));
      Transform512(state, buffer[..]);
    }

    /** The one bit and the zeros up to the length; the length may need a block of its own. */
    method BeginPad(used: nat, ghost t: bytes)
      requires state.Length == 8 && buffer.Length == 128 && used == |t| < 128 && t <= buffer[..]
      modifies state, buffer
      ensures |t| < 112 ==>
                RegsOf(state[..]) == old(RegsOf(state[..])) && buffer[..112] == t + [0x80] + Zeros(111 - |t|)
      ensures |t| >= 112 ==>
                && RegsOf(state[..]) == Block(old(RegsOf(state[..])), t + [0x80] + Zeros(127 - |t|))
                && buffer[..112] == Zeros(112)
    {
      hide Block, RegsOf;
      if used > 0 {
        buffer[used] := 0x80;
        assert buffer[..used + 1] == t + [0x80];
        FinishPad(used + 1);
      } else {
        CopyIn(buffer, 0, Zeros(SHORT));
        buffer[0] := 0x80;
        assert buffer[..SHORT] == t + [0x80] + Zeros(111);
      }
    }

    method FinishPad(used: nat)
      requires state.Length == 8 && buffer.Length == 128 && used <= 128
      modifies state, buffer
      ensures used <= 112 ==>
                RegsOf(state[..]) == old(RegsOf(state[..])) && buffer[..112] == old(buffer[..used]) + Zeros(112 - used)
      ensures used > 112 ==>
                && RegsOf(state[..]) == Block(old(RegsOf(state[..])), old(buffer[..used]) + Zeros(128 - used))
                && buffer[..112] == Zeros(112)
    {
      hide Block, RegsOf;
      if used <= SHORT {
        CopyIn(buffer, used, Zeros(SHORT - used));
      } else {
        if used < BLOCK {
          CopyIn(buffer, used, Zeros(BLOCK - used));
        }
        assert buffer[..] == old(buffer[..used]) + Zeros(BLOCK - used);
        Transform512(state, buffer[..]);
        CopyIn(buffer, 0, Zeros(BLOCK - 2));
      }
    }

    /** SHA512Final: the digest; nothing of the context is left. */
    method Final() returns (digest: bytes)
      requires Valid()
      modifies this, state, buffer
      ensures digest == Sha512(old(msg))
      ensures bitcount0 == bitcount1 == 0 && state[..] == seq(8, i => 0) && buffer[..] == Zeros(128)
    {
      hide Fold, Block, Padded, Streams, RegsOf, Output;
      Pad();
      digest := Digest();
      Wipe();
    }

    method Digest() returns (digest: bytes)
      requires state.Length == 8
      ensures digest == Output(RegsOf(state[..]))
    {
      hide Put64Be, Output, BeBytes;
      digest := [];
      for i := 0 to 8
        invariant digest == Output(RegsOf(state[..]))[..8 * i]
      {
        OutputWord(state[..], i);
        digest := digest + Put64Be(state[i]);
      }
    }

    method Wipe()
      requires state.Length == 8 && buffer.Length == 128
      modifies this, state, buffer
      ensures bitcount0 == bitcount1 == 0 && state[..] == seq(8, i => 0) && buffer[..] == Zeros(128)
    {
      forall i | 0 <= i < 8 {
        state[i] := 0;
      }
      forall i | 0 <= i < 128 {
        buffer[i] := 0;
      }
      bitcount0, bitcount1 := 0, 0;
    }
  }

  lemma OutputWord(state: seq<nat>, i: nat)
    requires |state| == 8 && i < 8
    ensures var r := Output(RegsOf(state)); r[..8 * i + 8] == r[..8 * i] + BeBytes(state[i], 8)
  {
    hide BeBytes;
  }

  /** BE_64_TO_8: a word, stored high-order octet first. */
  function Put64Be(w: nat): (r: bytes)
    ensures r == BeBytes(w, 8)
  {
    Shifts8(w);
    [(w / 0x100_0000_0000_0000 % 0x100) as byte, (w / 0x1_0000_0000_0000 % 0x100) as byte,
     (w / 0x100_0000_0000 % 0x100) as byte, (w / 0x1_0000_0000 % 0x100) as byte,
     (w / 0x100_0000 % 0x100) as byte, (w / 0x1_0000 % 0x100) as byte,
     (w / 0x100 % 0x100) as byte, (w % 0x100) as byte]
  }

  lemma Shifts8(w: nat)
    ensures BeBytes(w, 8) ==
              [(w / 0x100_0000_0000_0000 % 0x100) as byte, (w / 0x1_0000_0000_0000 % 0x100) as byte,
               (w / 0x100_0000_0000 % 0x100) as byte, (w / 0x1_0000_0000 % 0x100) as byte,
               (w / 0x100_0000 % 0x100) as byte, (w / 0x1_0000 % 0x100) as byte,
               (w / 0x100 % 0x100) as byte, (w % 0x100) as byte]
  {
    var w1 := w / 0x100;
    var w2 := w1 / 0x100;
    var w3 := w2 / 0x100;
    var w4 := w3 / 0x100;
    var w5 := w4 / 0x100;
    var w6 := w5 / 0x100;
    var w7 := w6 / 0x100;
    DivTwice(w, 0x100);
    DivTwice(w, 0x1_0000);
    DivTwice(w, 0x100_0000);
    DivTwice(w, 0x1_0000_0000);
    DivTwice(w, 0x100_0000_0000);
    DivTwice(w, 0x1_0000_0000_0000);
    assert BeBytes(w7, 1) == [(w7 % 0x100) as byte];
    assert BeBytes(w6, 2) == [(w7 % 0x100) as byte, (w6 % 0x100) as byte];
    assert BeBytes(w5, 3) == BeBytes(w6, 2) + [(w5 % 0x100) as byte];
    assert BeBytes(w4, 4) == BeBytes(w5, 3) + [(w4 % 0x100) as byte];
    assert BeBytes(w3, 5) == BeBytes(w4, 4) + [(w3 % 0x100) as byte];
    assert BeBytes(w2, 6) == BeBytes(w3, 5) + [(w2 % 0x100) as byte];
    assert BeBytes(w1, 7) == BeBytes(w2, 6) + [(w1 % 0x100) as byte];
  }

  lemma DivTwice(w: nat, d: nat)
    requires d >= 1
    ensures w / d / 0x100 == w / (d * 0x100)
  {
    var q := w / d / 0x100;
    var r := w / d % 0x100;
    MulUp(r, d, 0x100);
    assert w == (d * 0x100) * q + (r * d + w % d);
    ModIs(w, d * 0x100, q, r * d + w % d);
  }

  lemma {:induction false} BeSplit(hi: nat, lo: nat, j: nat, k: nat)
    requires lo < Pow2(8 * k)
    ensures BeBytes(lo + hi * Pow2(8 * k), j + k) == BeBytes(hi, j) + BeBytes(lo, k)
  {
    if k > 0 {
      Pow2Add(8, 8 * (k - 1));
      Pow2Is();
      var p := Pow2(8 * (k - 1));
      assert Pow2(8 * k) == 0x100 * p;
      BeSplit(hi, lo / 0x100, j, k - 1);
      Scaled(hi, p);
      var x := lo + hi * Pow2(8 * k);
      ModIs(x, 0x100, lo / 0x100 + hi * p, lo % 0x100);
    }
  }

  lemma LengthOctets(w0: int, w1: int)
    requires 0 <= w0 < TWO64 && 0 <= w1 < TWO64
    ensures Put64Be(w1) + Put64Be(w0) == BeBytes(w0 + w1 * TWO64, 16)
  {
    hide Put64Be;
    Pow2Add(32, 32);
    Pow2Is();
    BeSplit(w1, w0, 8, 8);
  }

  /** What the last one or two blocks add. */
  lemma LastBlocks(m: bytes, f: nat, l: bytes)
    requires f <= |m| < f + 128 && f % 128 == 0 && |l| == 16
    ensures var t, r := m[f..], Compress(IV, m[..f]);
            Compress(IV, PadWith(m, l)) ==
              if |t| < 112 then Block(r, t + [0x80] + Zeros(111 - |t|) + l)
              else Block(Block(r, t + [0x80] + Zeros(127 - |t|)), Zeros(112) + l)
  {
    hide Compress, Block, PadWith;
    var t := m[f..];
    if |t| < 112 {
      CompressLast(IV, m[..f], t + [0x80] + Zeros(111 - |t|) + l);
      ShortPadded(m, f, l);
    } else {
      CompressLast(IV, m[..f], t + [0x80] + Zeros(127 - |t|));
      CompressLast(IV, m[..f] + (t + [0x80] + Zeros(127 - |t|)), Zeros(112) + l);
      LongPadded(m, f, l);
    }
  }

  lemma ShortPadded(m: bytes, f: nat, l: bytes)
    requires f <= |m| < f + 112 && f % 128 == 0 && |l| == 16
    ensures PadWith(m, l) == m[..f] + (m[f..] + [0x80] + Zeros(111 - (|m| - f)) + l)
  {
    ModIs(|m|, 128, f / 128, |m| - f);
    assert ZeroLen(|m|) == 111 - (|m| - f);
  }

  lemma LongPadded(m: bytes, f: nat, l: bytes)
    requires f + 112 <= |m| < f + 128 && f % 128 == 0 && |l| == 16
    ensures PadWith(m, l) == (m[..f] + (m[f..] + [0x80] + Zeros(127 - (|m| - f)))) + (Zeros(112) + l)
  {
    ModIs(|m|, 128, f / 128, |m| - f);
    assert ZeroLen(|m|) == 239 - (|m| - f);
  }

  // ------------------------------------------------------------------
  // What padding and digest are, in octets and numbers.

  lemma {:induction false} BeBack(n: nat, k: nat)
    requires n < Pow2(8 * k)
    ensures BeWord(BeBytes(n, k)) == n
  {
    if k > 0 {
      hide Pow2;
      Pow2Is();
      Pow2Add(8, 8 * (k - 1));
      Smaller(n, Pow2(8 * (k - 1)));
      BeBack(n / 0x100, k - 1);
      var b := BeBytes(n, k);
      assert b[..k - 1] == BeBytes(n / 0x100, k - 1);
    }
  }

  lemma Smaller(n: nat, p: nat)
    requires n < 0x100 * p
    ensures n / 0x100 < p
  {
  }

  /**
   * Section 5.1.2: the shortest whole number of blocks that holds the message, a one bit, zeros and
   * the length in bits, as a number of 128 bits.
   */
  lemma PaddedMeans(m: bytes)
    ensures var p := Padded(m);
            var n := |p|;
            && n % 128 == 0 && |m| + 17 <= n < |m| + 17 + 128
            && p[..|m|] == m && p[|m|] == 0x80
            && (forall i :: |m| < i < n - 16 ==> p[i] == 0)
            && BeWord(p[n - 16..]) == 8 * |m| % TWO128
  {
    hide BeBytes, BeWord;
    var l := BeBytes(8 * |m| % TWO128, 16);
    var p := PadWith(m, l);
    assert p[|p| - 16..] == l;
    Pow2Is();
    Pow2Add(32, 32);
    Pow2Add(64, 64);
    BeBack(8 * |m| % TWO128, 16);
  }

  /** The digest is the eight words of the state, each with its high-order octet first. */
  lemma DigestMeans(state: seq<nat>, i: nat)
    requires |state| == 8 && i < 8 && state[i] < TWO64
    ensures BeWord(Output(RegsOf(state))[8 * i..8 * i + 8]) == state[i]
  {
    hide Output, BeBytes, BeWord;
    OutputWord(state, i);
    var d := Output(RegsOf(state));
    assert d[8 * i..8 * i + 8] == d[..8 * i + 8][8 * i..];
    Pow2Is();
    Pow2Add(32, 32);
    BeBack(state[i], 8);
  }

  /** The numbers of section 1 for SHA-512, and the octets of a word. */
  lemma VariantIs()
    ensures SHA512.width == 64 && SHA512.rounds == 80 && SHA512.iv == H512 && SHA512.k == K512
    ensures SHA256.width == 32 && SHA256.rounds == 64 && SHA256.iv == H256 && SHA256.k == K256
    ensures BeWord([1, 2, 3, 4]) == 0x0102_0304 && IV == RegsOf(H512)
    ensures forall n: int :: Sum(SHA512, n) == n % TWO64 && Sum(SHA256, n) == n % TWO32
  {
    Pow2Is();
    Pow2Add(32, 32);
    var b: bytes := [1, 2, 3, 4];
    assert b[..3] == [1, 2, 3] && [1 as byte, 2, 3][..2] == [1, 2] && [1 as byte, 2][..1] == [1] && [1 as byte][..0] == [];
    assert BeWord([1]) == 1 && BeWord([1, 2]) == 0x102 && BeWord([1, 2, 3]) == 0x1_0203;
  }
}
