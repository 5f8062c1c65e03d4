/** MD5 as the browser computes it, on numbers whose bitwise operations work on signed 32-bit words. */
module Md5Js {
  import opened Octets
  import opened Word32
  import opened Rfc1321
  import Md5
  import Utf8

  // ------------------------------------------------------------------
  // Numbers: integers that a double holds exactly, and the 32-bit operations on them.

  const EXACT: int := 0x20_0000_0000_0000

  /** The signed number of a word. */
  function Int32(u: Word): (r: int)
    ensures -0x8000_0000 <= r < 0x8000_0000 && Wrap(r) == u
  {
    if u < 0x8000_0000 then u else u - TWO32
  }

  function BitAnd(a: int, b: int): (r: int)
    ensures -0x8000_0000 <= r < 0x8000_0000
  {
    Int32(And(Wrap(a), Wrap(b)))
  }

  function BitOr(a: int, b: int): (r: int)
    ensures -0x8000_0000 <= r < 0x8000_0000
  {
    Int32(Or(Wrap(a), Wrap(b)))
  }

  function BitXor(a: int, b: int): (r: int)
    ensures -0x8000_0000 <= r < 0x8000_0000
  {
    Int32(Xor(Wrap(a), Wrap(b)))
  }

  function BitNot(a: int): int { Int32(Not(Wrap(a))) }

  function ShiftLeft(a: int, s: nat): int { Int32(Shl(Wrap(a), s)) }

  function ShiftRight(a: int, s: nat): int { Int32(Wrap(a)) / Pow2(s) }

  function ShiftRightUnsigned(a: int, s: nat): int { Shr(Wrap(a), s) }

  function Add32(a: int, b: int): (r: int)
    requires -EXACT <= a + b <= EXACT
    ensures r == Int32(Wrap(a + b))
  {
    AllOnes(Wrap(a + b));
    BitAnd(a + b, 0xFFFF_FFFF)
  }

  lemma AllOnes(u: Word)
    ensures And(u, 0xFFFF_FFFF) == u
  {
    hide Bits, Pow2;
    Pow2Is();
    AndMask(32, 32, u);
  }

  // ------------------------------------------------------------------
  // Steps.

  /** A number that takes part in sums. */
  predicate Small(x: int) {
    -EXACT / 2 <= x <= EXACT / 2
  }

  lemma WrapSum(a: int, b: int, c: int, d: int)
    ensures Wrap(Wrap(a + b) + Wrap(c + d)) == Wrap(Wrap(a) + Wrap(b) + Wrap(c) + Wrap(d))
  {
    hide Wrap;
    WrapPart(a, b + c + d);
    WrapPart(b, Wrap(a) + c + d);
    WrapPart(c, Wrap(a) + Wrap(b) + d);
    WrapPart(d, Wrap(a) + Wrap(b) + Wrap(c));
    WrapPart(a + b, c + d);
    WrapPart(c + d, Wrap(a + b));
  }

  lemma WrapAdd(a: int, b: int)
    ensures Wrap(a + b) == Add(Wrap(a), Wrap(b)) == Add(Wrap(b), Wrap(a))
    ensures Wrap(a + b) == Wrap(Wrap(a) + Wrap(b))
  {
    hide Wrap;
    WrapPart(a, b);
    WrapPart(b, Wrap(a));
  }

  function Cmn(q: int, a: int, b: int, x: int, s: nat, t: int): (r: int)
    requires 0 < s < 32 && Small(q) && Small(a) && Small(b) && Small(x) && Small(t)
    ensures Small(r)
  {
    var a' := Add32(Add32(a, q), Add32(x, t));
    Add32(BitOr(ShiftLeft(a', s), ShiftRightUnsigned(a', 32 - s)), b)
  }

  lemma CmnIs(q: int, a: int, b: int, x: int, s: nat, t: int)
    requires 0 < s < 32 && Small(q) && Small(a) && Small(b) && Small(x) && Small(t)
    ensures Wrap(Cmn(q, a, b, x, s, t)) == Mix(Wrap(a), Wrap(q), Wrap(x), Wrap(t), Wrap(b), s)
  {
    hide Rotl, Or, Shl, Shr, Add, Wrap, Pow2, BitOr, ShiftLeft, ShiftRightUnsigned, Int32, And, Not, Bits;
    var a' := Add32(Add32(a, q), Add32(x, t));
    SumIs(a, q, x, t);
    RotatedIs(a', s);
    WrapAdd(BitOr(ShiftLeft(a', s), ShiftRightUnsigned(a', 32 - s)), b);
  }

  lemma SumIs(a: int, q: int, x: int, t: int)
    requires Small(a) && Small(q) && Small(x) && Small(t)
    ensures Wrap(Add32(Add32(a, q), Add32(x, t))) == Wrap(Wrap(a) + Wrap(q) + Wrap(x) + Wrap(t))
  {
    hide Wrap;
    WrapAdd(Add32(a, q), Add32(x, t));
    WrapSum(a, q, x, t);
  }

  lemma RotatedIs(a: int, s: nat)
    requires 0 < s < 32
    ensures var r := BitOr(ShiftLeft(a, s), ShiftRightUnsigned(a, 32 - s));
            -0x8000_0000 <= r < 0x8000_0000 && Wrap(r) == Rotl(Wrap(a), s)
  {
    hide Rotl, Or, Shl, Shr, Wrap;
    RotlOr(Wrap(a), s);
    WrapOf(Shr(Wrap(a), 32 - s));
  }

  function Ff(a: int, b: int, c: int, d: int, x: int, s: nat, t: int): (r: int)
    requires 0 < s < 32 && Small(a) && Small(b) && Small(c) && Small(d) && Small(x) && Small(t)
    ensures Small(r)
    ensures Wrap(r) == Mix(Wrap(a), F(Wrap(b), Wrap(c), Wrap(d)), Wrap(x), Wrap(t), Wrap(b), s)
  {
    hide Cmn, Mix, Wrap, Or, Xor, And, Not;
    var q := BitOr(BitAnd(b, c), BitAnd(BitNot(b), d));
    CmnIs(q, a, b, x, s, t);
    Cmn(q, a, b, x, s, t)
  }

  function Gg(a: int, b: int, c: int, d: int, x: int, s: nat, t: int): (r: int)
    requires 0 < s < 32 && Small(a) && Small(b) && Small(c) && Small(d) && Small(x) && Small(t)
    ensures Small(r)
    ensures Wrap(r) == Mix(Wrap(a), G(Wrap(b), Wrap(c), Wrap(d)), Wrap(x), Wrap(t), Wrap(b), s)
  {
    hide Cmn, Mix, Wrap, Or, Xor, And, Not;
    var q := BitOr(BitAnd(b, d), BitAnd(c, BitNot(d)));
    CmnIs(q, a, b, x, s, t);
    Cmn(q, a, b, x, s, t)
  }

  function Hh(a: int, b: int, c: int, d: int, x: int, s: nat, t: int): (r: int)
    requires 0 < s < 32 && Small(a) && Small(b) && Small(c) && Small(d) && Small(x) && Small(t)
    ensures Small(r)
    ensures Wrap(r) == Mix(Wrap(a), H(Wrap(b), Wrap(c), Wrap(d)), Wrap(x), Wrap(t), Wrap(b), s)
  {
    hide Cmn, Mix, Wrap, Or, Xor, And, Not;
    var q := BitXor(BitXor(b, c), d);
    CmnIs(q, a, b, x, s, t);
    Cmn(q, a, b, x, s, t)
  }

  function Ii(a: int, b: int, c: int, d: int, x: int, s: nat, t: int): (r: int)
    requires 0 < s < 32 && Small(a) && Small(b) && Small(c) && Small(d) && Small(x) && Small(t)
    ensures Small(r)
    ensures Wrap(r) == Mix(Wrap(a), I(Wrap(b), Wrap(c), Wrap(d)), Wrap(x), Wrap(t), Wrap(b), s)
  {
    hide Cmn, Mix, Wrap, Or, Xor, And, Not;
    var q := BitXor(c, BitOr(b, BitNot(d)));
    CmnIs(q, a, b, x, s, t);
    Cmn(q, a, b, x, s, t)
  }

  /** Numbers that stand for the words of a block. */
  ghost predicate Stands(k: seq<int>, inp: seq<Word>) {
    |k| == |inp| == 16 && forall i :: 0 <= i < 16 ==> Small(k[i]) && Wrap(k[i]) == inp[i]
  }

  /** Signed constants as words. */
  lemma WrapSigned()
    ensures forall t: int {:trigger Wrap(t)} ::
              -TWO32 <= t < TWO32 ==> Wrap(t) == if t >= 0 then t else t + TWO32
  {
  }

  /** Steps 0 to 15. */
  method Round1(k: seq<int>, a0: int, b0: int, c0: int, d0: int, ghost h: Hash, ghost inp: seq<Word>)
    returns (a: int, b: int, c: int, d: int)
    requires Stands(k, inp) && Small(a0) && Small(b0) && Small(c0) && Small(d0)
    requires After(h, inp, 0) == Hash(Wrap(a0), Wrap(b0), Wrap(c0), Wrap(d0))
    ensures Small(a) && Small(b) && Small(c) && Small(d)
    ensures After(h, inp, 16) == Hash(Wrap(a), Wrap(b), Wrap(c), Wrap(d))
  {
    hide After, F, G, H, I, Ff, Gg, Hh, Ii, Cmn, Rotl, Add, Wrap, Int32, And, Or, Xor, Not, Mix;
    WrapSigned();
    a, b, c, d := a0, b0, c0, d0;
    Quad(h, inp, 0, Wrap(a), Wrap(b), Wrap(c), Wrap(d));
    a := Ff(a, b, c, d, k[0], 7, -680876936);
    d := Ff(d, a, b, c, k[1], 12, -389564586);
    c := Ff(c, d, a, b, k[2], 17, 606105819);
    b := Ff(b, c, d, a, k[3], 22, -1044525330);
    Quad(h, inp, 4, Wrap(a), Wrap(b), Wrap(c), Wrap(d));
    a := Ff(a, b, c, d, k[4], 7, -176418897);
    d := Ff(d, a, b, c, k[5], 12, 1200080426);
    c := Ff(c, d, a, b, k[6], 17, -1473231341);
    b := Ff(b, c, d, a, k[7], 22, -45705983);
    Quad(h, inp, 8, Wrap(a), Wrap(b), Wrap(c), Wrap(d));
    a := Ff(a, b, c, d, k[8], 7, 1770035416);
    d := Ff(d, a, b, c, k[9], 12, -1958414417);
    c := Ff(c, d, a, b, k[10], 17, -42063);
    b := Ff(b, c, d, a, k[11], 22, -1990404162);
    Quad(h, inp, 12, Wrap(a), Wrap(b), Wrap(c), Wrap(d));
    a := Ff(a, b, c, d, k[12], 7, 1804603682);
    d := Ff(d, a, b, c, k[13], 12, -40341101);
    c := Ff(c, d, a, b, k[14], 17, -1502002290);
    b := Ff(b, c, d, a, k[15], 22, 1236535329);
  }

  /** Steps 16 to 31. */
  method Round2(k: seq<int>, a0: int, b0: int, c0: int, d0: int, ghost h: Hash, ghost inp: seq<Word>)
    returns (a: int, b: int, c: int, d: int)
    requires Stands(k, inp) && Small(a0) && Small(b0) && Small(c0) && Small(d0)
    requires After(h, inp, 16) == Hash(Wrap(a0), Wrap(b0), Wrap(c0), Wrap(d0))
    ensures Small(a) && Small(b) && Small(c) && Small(d)
    ensures After(h, inp, 32) == Hash(Wrap(a), Wrap(b), Wrap(c), Wrap(d))
  {
    hide After, F, G, H, I, Ff, Gg, Hh, Ii, Cmn, Rotl, Add, Wrap, Int32, And, Or, Xor, Not, Mix;
    WrapSigned();
    a, b, c, d := a0, b0, c0, d0;
    Quad(h, inp, 16, Wrap(a), Wrap(b), Wrap(c), Wrap(d));
    a := Gg(a, b, c, d, k[1], 5, -165796510);
    d := Gg(d, a, b, c, k[6], 9, -1069501632);
    c := Gg(c, d, a, b, k[11], 14, 643717713);
    b := Gg(b, c, d, a, k[0], 20, -373897302);
    Quad(h, inp, 20, Wrap(a), Wrap(b), Wrap(c), Wrap(d));
    a := Gg(a, b, c, d, k[5], 5, -701558691);
    d := Gg(d, a, b, c, k[10], 9, 38016083);
    c := Gg(c, d, a, b, k[15], 14, -660478335);
    b := Gg(b, c, d, a, k[4], 20, -405537848);
    Quad(h, inp, 24, Wrap(a), Wrap(b), Wrap(c), Wrap(d));
    a := Gg(a, b, c, d, k[9], 5, 568446438);
    d := Gg(d, a, b, c, k[14], 9, -1019803690);
    c := Gg(c, d, a, b, k[3], 14, -187363961);
    b := Gg(b, c, d, a, k[8], 20, 1163531501);
    Quad(h, inp, 28, Wrap(a), Wrap(b), Wrap(c), Wrap(d));
    a := Gg(a, b, c, d, k[13], 5, -1444681467);
    d := Gg(d, a, b, c, k[2], 9, -51403784);
    c := Gg(c, d, a, b, k[7], 14, 1735328473);
    b := Gg(b, c, d, a, k[12], 20, -1926607734);
  }

  /** Steps 32 to 47. */
  method Round3(k: seq<int>, a0: int, b0: int, c0: int, d0: int, ghost h: Hash, ghost inp: seq<Word>)
    returns (a: int, b: int, c: int, d: int)
    requires Stands(k, inp) && Small(a0) && Small(b0) && Small(c0) && Small(d0)
    requires After(h, inp, 32) == Hash(Wrap(a0), Wrap(b0), Wrap(c0), Wrap(d0))
    ensures Small(a) && Small(b) && Small(c) && Small(d)
    ensures After(h, inp, 48) == Hash(Wrap(a), Wrap(b), Wrap(c), Wrap(d))
  {
    hide After, F, G, H, I, Ff, Gg, Hh, Ii, Cmn, Rotl, Add, Wrap, Int32, And, Or, Xor, Not, Mix;
    WrapSigned();
    a, b, c, d := a0, b0, c0, d0;
    Quad(h, inp, 32, Wrap(a), Wrap(b), Wrap(c), Wrap(d));
    a := Hh(a, b, c, d, k[5], 4, -378558);
    d := Hh(d, a, b, c, k[8], 11, -2022574463);
    c := Hh(c, d, a, b, k[11], 16, 1839030562);
    b := Hh(b, c, d, a, k[14], 23, -35309556);
    Quad(h, inp, 36, Wrap(a), Wrap(b), Wrap(c), Wrap(d));
    a := Hh(a, b, c, d, k[1], 4, -1530992060);
    d := Hh(d, a, b, c, k[4], 11, 1272893353);
    c := Hh(c, d, a, b, k[7], 16, -155497632);
    b := Hh(b, c, d, a, k[10], 23, -1094730640);
    Quad(h, inp, 40, Wrap(a), Wrap(b), Wrap(c), Wrap(d));
    a := Hh(a, b, c, d, k[13], 4, 681279174);
    d := Hh(d, a, b, c, k[0], 11, -358537222);
    c := Hh(c, d, a, b, k[3], 16, -722521979);
    b := Hh(b, c, d, a, k[6], 23, 76029189);
    Quad(h, inp, 44, Wrap(a), Wrap(b), Wrap(c), Wrap(d));
    a := Hh(a, b, c, d, k[9], 4, -640364487);
    d := Hh(d, a, b, c, k[12], 11, -421815835);
    c := Hh(c, d, a, b, k[15], 16, 530742520);
    b := Hh(b, c, d, a, k[2], 23, -995338651);
  }

  /** Steps 48 to 63. */
  method Round4(k: seq<int>, a0: int, b0: int, c0: int, d0: int, ghost h: Hash, ghost inp: seq<Word>)
    returns (a: int, b: int, c: int, d: int)
    requires Stands(k, inp) && Small(a0) && Small(b0) && Small(c0) && Small(d0)
    requires After(h, inp, 48) == Hash(Wrap(a0), Wrap(b0), Wrap(c0), Wrap(d0))
    ensures Small(a) && Small(b) && Small(c) && Small(d)
    ensures After(h, inp, 64) == Hash(Wrap(a), Wrap(b), Wrap(c), Wrap(d))
  {
    hide After, F, G, H, I, Ff, Gg, Hh, Ii, Cmn, Rotl, Add, Wrap, Int32, And, Or, Xor, Not, Mix;
    WrapSigned();
    a, b, c, d := a0, b0, c0, d0;
    Quad(h, inp, 48, Wrap(a), Wrap(b), Wrap(c), Wrap(d));
    a := Ii(a, b, c, d, k[0], 6, -198630844);
    d := Ii(d, a, b, c, k[7], 10, 1126891415);
    c := Ii(c, d, a, b, k[14], 15, -1416354905);
    b := Ii(b, c, d, a, k[5], 21, -57434055);
    Quad(h, inp, 52, Wrap(a), Wrap(b), Wrap(c), Wrap(d));
    a := Ii(a, b, c, d, k[12], 6, 1700485571);
    d := Ii(d, a, b, c, k[3], 10, -1894986606);
    c := Ii(c, d, a, b, k[10], 15, -1051523);
    b := Ii(b, c, d, a, k[1], 21, -2054922799);
    Quad(h, inp, 56, Wrap(a), Wrap(b), Wrap(c), Wrap(d));
    a := Ii(a, b, c, d, k[8], 6, 1873313359);
    d := Ii(d, a, b, c, k[15], 10, -30611744);
    c := Ii(c, d, a, b, k[6], 15, -1560198380);
    b := Ii(b, c, d, a, k[13], 21, 1309151649);
    Quad(h, inp, 60, Wrap(a), Wrap(b), Wrap(c), Wrap(d));
    a := Ii(a, b, c, d, k[4], 6, -145523070);
    d := Ii(d, a, b, c, k[11], 10, -1120210379);
    c := Ii(c, d, a, b, k[2], 15, 718787259);
    b := Ii(b, c, d, a, k[9], 21, -343485551);
  }


  // ------------------------------------------------------------------
  // Blocks.

  ghost predicate HashIs(x: seq<int>, h: Hash) {
    && |x| == 4 && (forall i :: 0 <= i < 4 ==> Small(x[i]))
    && h == Hash(Wrap(x[0]), Wrap(x[1]), Wrap(x[2]), Wrap(x[3]))
  }

  /** The words of the hash are added to what the steps leave. */
  lemma CycleEnds(x: seq<int>, h: Hash, a: int, b: int, c: int, d: int)
    requires HashIs(x, h) && Small(a) && Small(b) && Small(c) && Small(d)
    ensures HashIs([Add32(a, x[0]), Add32(b, x[1]), Add32(c, x[2]), Add32(d, x[3])],
                   AddHash(h, Hash(Wrap(a), Wrap(b), Wrap(c), Wrap(d))))
  {
    hide Wrap, Add;
    WrapAdd(a, x[0]);
    WrapAdd(b, x[1]);
    WrapAdd(c, x[2]);
    WrapAdd(d, x[3]);
  }

  method Md5Cycle(x: array<int>, k: seq<int>, ghost h: Hash, ghost inp: seq<Word>)
    requires |inp| == 16 && HashIs(x[..], h) && Stands(k, inp)
    modifies x
    ensures HashIs(x[..], Transform(h, inp))
  {
    hide After, Wrap, Stands, AddHash, Int32;
    ghost var x0 := x[..];
    var a, b, c, d := x[0], x[1], x[2], x[3];
    Md5.AfterNone(h, inp);
    a, b, c, d := Round1(k, a, b, c, d, h, inp);
    a, b, c, d := Round2(k, a, b, c, d, h, inp);
    a, b, c, d := Round3(k, a, b, c, d, h, inp);
    a, b, c, d := Round4(k, a, b, c, d, h, inp);
    CycleEnds(x0, h, a, b, c, d);
    x[0] := Add32(a, x[0]);
    x[1] := Add32(b, x[1]);
    x[2] := Add32(c, x[2]);
    x[3] := Add32(d, x[3]);
    assert x[..] == [Add32(a, x0[0]), Add32(b, x0[1]), Add32(c, x0[2]), Add32(d, x0[3])];
  }

  /** Strings whose characters are single octets. */
  predicate Latin(s: string) {
    forall i :: 0 <= i < |s| ==> s[i] < 256 as char
  }

  function CharOctets(s: string): (r: bytes)
    requires Latin(s)
    ensures |r| == |s| && forall i :: 0 <= i < |s| ==> r[i] as int == s[i] as int
  {
    seq(|s|, i requires 0 <= i < |s| => s[i] as byte)
  }

  /** Four characters added up as the octets of a word. */
  lemma BlockWord(b0: Word, b1: Word, b2: Word, b3: Word)
    requires b0 < 0x100 && b1 < 0x100 && b2 < 0x100 && b3 < 0x100
    ensures var n := b0 + ShiftLeft(b1, 8) + ShiftLeft(b2, 16) + ShiftLeft(b3, 24);
            Small(n) && Wrap(n) == b0 + 0x100 * b1 + 0x1_0000 * b2 + 0x100_0000 * b3
  {
    hide Pow2, Wrap, Shl;
    Pow2Is();
    Md5.ShlSmall(b1, 8, 0x100 * b1);
    Md5.ShlSmall(b2, 16, 0x1_0000 * b2);
    Md5.ShlSmall(b3, 24, 0x100_0000 * b3);
    var m := b0 + 0x100 * b1 + 0x1_0000 * b2;
    WrapOf(m + 0x100_0000 * b3);
    WrapPart(ShiftLeft(b3, 24), m);
    WrapPart(0x100_0000 * b3, m);
    WrapOf(b1);
    WrapOf(b2);
    WrapOf(b3);
  }

  method Md5Blk(s: string) returns (md5blks: seq<int>)
    requires |s| == 64 && Latin(s)
    ensures Stands(md5blks, Words(CharOctets(s)))
  {
    hide ShiftLeft, Wrap, Small;
    md5blks := [];
    ghost var b := CharOctets(s);
    for i := 0 to 16
      invariant |md5blks| == i
      invariant forall j :: 0 <= j < i ==> Small(md5blks[j]) && Wrap(md5blks[j]) == Words(b)[j]
    {
      var at := 4 * i;
      BlockWord(s[at] as int, s[at + 1] as int, s[at + 2] as int, s[at + 3] as int);
      assert b[at..at + 4] == [b[at], b[at + 1], b[at + 2], b[at + 3]];
      md5blks := md5blks + [s[at] as int + ShiftLeft(s[at + 1] as int, 8) + ShiftLeft(s[at + 2] as int, 16)
                                         + ShiftLeft(s[at + 3] as int, 24)];
    }
  }

  // ------------------------------------------------------------------
  // The last blocks.

  /** The words of a block that starts with `u` and is zero after that. */
  ghost function ZeroWords(u: bytes): (r: seq<Word>)
    requires |u| <= 64
    ensures |r| == 16
  {
    Words(u + Zeros(64 - |u|))
  }

  ghost function PutOctet(w: Word, c: byte, r: nat): Word {
    Wrap(w + c as int * Pow2(8 * r))
  }

  /** One octet more, where there was a zero. */
  lemma ZeroWordsPush(u: bytes, c: byte)
    requires |u| < 64
    ensures var (q, r) := (|u| / 4, |u| % 4);
            && ZeroWords(u)[q] < Pow2(8 * r)
            && ZeroWords(u + [c]) == ZeroWords(u)[q := PutOctet(ZeroWords(u)[q], c, r)]
  {
    hide Words, LeWord, PutOctet, Pow2;
    var x, y := u + Zeros(64 - |u|), u + [c] + Zeros(63 - |u|);
    assert y == x[|u| := c];
    var q := |u| / 4;
    forall i | 0 <= i < 16 && i != q
      ensures Words(y)[i] == Words(x)[i]
    {
      assert y[4 * i..4 * i + 4] == x[4 * i..4 * i + 4];
    }
    PushWord(x[4 * q..4 * q + 4], c, |u| % 4);
    assert y[4 * q..4 * q + 4] == x[4 * q..4 * q + 4][|u| % 4 := c];
  }

  lemma PushWord(b: bytes, c: byte, r: nat)
    requires |b| == 4 && r < 4 && forall i :: r <= i < 4 ==> b[i] == 0
    ensures LeWord(b) < Pow2(8 * r) && LeWord(b[r := c]) == PutOctet(LeWord(b), c, r)
  {
    hide Pow2, Wrap;
    Pow2Is();
    assert Pow2(0) == 1 by { Pow2One(); }
    WrapOf(LeWord(b[r := c]));
  }

  lemma Pow2One()
    ensures Pow2(0) == 1
  {
  }

  /** Shifting an octet into its place in a number. */
  lemma TailOr(t: int, c: byte, r: nat)
    requires r < 4 && Wrap(t) < Pow2(8 * r)
    ensures var n := BitOr(t, ShiftLeft(c as int, 8 * r));
            Small(n) && Wrap(n) == PutOctet(Wrap(t), c, r)
  {
    hide Or, Shl, Pow2, Wrap;
    WrapOf(Or(Wrap(t), Shl(c as int, 8 * r)));
    WrapOf(c as int);
    assert Pow2(32 - 8 * r) >= 0x100 by {
      Pow2Is();
    }
    Md5.OrAbove(Wrap(t), c as int, 8 * r);
  }

  /** The characters of the last part of a message, packed into zeroed numbers. */
  method PackTail(s: string, tail: array<int>)
    requires |s| < 64 && Latin(s) && tail.Length == 16 && forall j :: 0 <= j < 16 ==> tail[j] == 0
    modifies tail
    ensures Stands(tail[..], ZeroWords(CharOctets(s) + [0x80]))
  {
    hide ZeroWords, Wrap, BitOr, ShiftLeft, Pow2, PutOctet, Words;
    ghost var b := CharOctets(s);
    NoWords();
    WrapOf(0);
    for i := 0 to |s|
      invariant Stands(tail[..], ZeroWords(b[..i]))
    {
      ZeroWordsPush(b[..i], b[i]);
      TailOr(tail[i / 4], b[i], i % 4);
      tail[i / 4] := BitOr(tail[i / 4], ShiftLeft(s[i] as int, 8 * (i % 4)));
      assert b[..i + 1] == b[..i] + [b[i]];
    }
    var i := |s|;
    ZeroWordsPush(b, 0x80);
    assert b[..i] == b;
    TailOr(tail[i / 4], 0x80, i % 4);
    tail[i / 4] := BitOr(tail[i / 4], ShiftLeft(0x80, 8 * (i % 4)));
  }

  lemma NoWords()
    ensures ZeroWords([]) == seq(16, i => 0)
  {
    var x := [] + Zeros(64);
    forall i | 0 <= i < 16
      ensures Words(x)[i] == 0
    {
      assert x[4 * i..4 * i + 4] == [0, 0, 0, 0];
    }
  }

  /** The padding of the script: the upper half of the length is zero, however long the message is. */
  ghost function JsPadded(m: bytes): (r: bytes)
    ensures |r| % 64 == 0
  {
    PadWith(m, Le64(8 * |m| % TWO32))
  }

  /** The script pads as RFC 1321 does exactly when the length in bits, modulo 2^64, is below 2^32. */
  lemma PaddingAgrees(m: bytes)
    ensures JsPadded(m) == Padded(m) <==> 8 * |m| % TWO64 < TWO32
  {
    hide LeBytes, PadLen;
    var n := 8 * |m| % TWO64;
    LowHalf(8 * |m|);
    assert n >= TWO32 ==> Le64(n)[4..] == LeBytes(n / TWO32) && Le64(n % TWO32)[4..] == LeBytes(0);
    assert LeWord(LeBytes(0)) == 0 && LeWord(LeBytes(n / TWO32)) == n / TWO32;
    PaddingEnds(m, Le64(n % TWO32), Le64(n));
  }

  /** From 2^29 octets on, where the length in bits needs its 33rd bit, the paddings differ. */
  lemma LongMessage(m: bytes)
    requires |m| == 0x2000_0000
    ensures JsPadded(m) != Padded(m)
  {
    hide JsPadded, Padded;
    PaddingAgrees(m);
  }

  lemma LowHalf(x: nat)
    ensures x % TWO64 % TWO32 == x % TWO32
  {
  }

  lemma PaddingEnds(m: bytes, l: bytes, l': bytes)
    requires |l| == |l'| == 8
    ensures PadWith(m, l) == PadWith(m, l') <==> l == l'
  {
    hide PadLen;
    var k := |m| + 1 + (PadLen(|m|) - 1);
    assert PadWith(m, l)[k..] == l && PadWith(m, l')[k..] == l';
  }

  lemma LengthWord(u: bytes, n: Word)
    requires |u| <= 56
    ensures Words(u + Zeros(56 - |u|) + Le64(n)) == ZeroWords(u)[14 := n]
  {
    hide Words, LeBytes;
    var x, y := u + Zeros(64 - |u|), u + Zeros(56 - |u|) + Le64(n);
    forall i | 0 <= i < 16
      ensures Words(y)[i] == if i == 14 then n else Words(x)[i]
    {
      if i < 14 {
        assert y[4 * i..4 * i + 4] == x[4 * i..4 * i + 4];
      } else if i == 14 {
        assert y[56..60] == LeBytes(n);
      } else {
        assert LeBytes(0) == x[60..64] by { ZeroBytes(); }
        assert y[60..64] == LeBytes(0);
      }
    }
  }

  lemma ZeroBytes()
    ensures LeBytes(0) == [0, 0, 0, 0]
  {
  }

  /** What the last one or two blocks add. */
  lemma LastBlocks(m: bytes, f: nat)
    requires f <= |m| < f + 64 && f % 64 == 0
    ensures var t, h, n := m[f..], Compress(IV, m[..f]), 8 * |m| % TWO32;
            Compress(IV, JsPadded(m)) ==
              if |t| <= 55 then Transform(h, ZeroWords(t + [0x80])[14 := n])
              else Transform(Transform(h, ZeroWords(t + [0x80])), ZeroWords([])[14 := n])
  {
    hide Compress, Transform, Words, Le64, ZeroWords, JsPadded;
    var t, n := m[f..], 8 * |m| % TWO32;
    var u := t + [0x80];
    if |t| <= 55 {
      LengthWord(u, n);
      CompressLast(IV, m[..f], u + Zeros(55 - |t|) + Le64(n));
      ShortPadded(m, f);
    } else {
      LengthWord([], n);
      ZeroWordsAre(u);
      CompressLast(IV, m[..f], u + Zeros(63 - |t|));
      CompressLast(IV, m[..f] + (u + Zeros(63 - |t|)), [] + Zeros(56) + Le64(n));
      LongPadded(m, f);
    }
  }

  lemma ShortPadded(m: bytes, f: nat)
    requires f <= |m| <= f + 55 && f % 64 == 0
    ensures JsPadded(m) == m[..f] + (m[f..] + [0x80] + Zeros(55 - (|m| - f)) + Le64(8 * |m| % TWO32))
  {
    hide Le64, Zeros;
    ModIs(|m|, 64, f / 64, |m| - f);
    assert PadLen(|m|) == 56 - (|m| - f);
    assert m[..f] + m[f..] == m;
  }

  lemma LongPadded(m: bytes, f: nat)
    requires f + 55 < |m| < f + 64 && f % 64 == 0
    ensures JsPadded(m) == (m[..f] + (m[f..] + [0x80] + Zeros(63 - (|m| - f)))) + ([] + Zeros(56) + Le64(8 * |m| % TWO32))
  {
    hide Le64, Zeros;
    ModIs(|m|, 64, f / 64, |m| - f);
    assert PadLen(|m|) == 120 - (|m| - f);
    assert m[..f] + m[f..] == m;
    assert Zeros(119 - (|m| - f)) == Zeros(63 - (|m| - f)) + Zeros(56);
  }

  lemma ZeroWordsAre(u: bytes)
    requires |u| <= 64
    ensures ZeroWords(u) == Words(u + Zeros(64 - |u|))
  {
  }

  lemma NextBlock(s: string, i: nat)
    requires Latin(s) && 64 <= i <= |s| && (i - 64) % 64 == i % 64 == 0
    ensures var m := CharOctets(s);
            && CharOctets(s[i - 64..i]) == m[i - 64..i]
            && Compress(IV, m[..i]) == Transform(Compress(IV, m[..i - 64]), Words(m[i - 64..i]))
  {
    hide Compress, Transform, Words;
    var m := CharOctets(s);
    CompressLast(IV, m[..i - 64], m[i - 64..i]);
    assert m[..i - 64] + m[i - 64..i] == m[..i];
  }

  /** The next block ends 64 octets on. */
  lemma EndsNext(i: nat)
    requires i % 64 == 0
    ensures (i + 64) % 64 == 0 && (i >= 64 ==> (i - 64) % 64 == 0)
  {
  }

  /** The whole message; the length in bits stays exact. */
  method Md51(s: string) returns (state: array<int>)
    requires Latin(s) && 8 * |s| <= EXACT / 2
    ensures HashIs(state[..], Compress(IV, JsPadded(CharOctets(s))))
  {
    hide Compress, Transform, Words, ZeroWords, JsPadded, Wrap, Stands, HashIs;
    ghost var m := CharOctets(s);
    var n := |s|;
    state := new int[] [1732584193, -271733879, -1732584194, 271733878];
    StartIs(state[..]);
    CompressNone(IV);
    assert m[..0] == [];
    var i := 64;
    while i <= |s|
      invariant 64 <= i <= |s| + 64 && (i - 64) % 64 == i % 64 == 0
      invariant HashIs(state[..], Compress(IV, m[..i - 64]))
    {
      var k := Md5Blk(s[i - 64..i]);
      NextBlock(s, i);
      Md5Cycle(state, k, Compress(IV, m[..i - 64]), Words(m[i - 64..i]));
      EndsNext(i);
      i := i + 64;
    }
    Finish(s, i - 64, state);
  }

  lemma StartIs(x: seq<int>)
    requires x == [1732584193, -271733879, -1732584194, 271733878]
    ensures HashIs(x, IV)
  {
  }

  method Finish(s: string, f: nat, state: array<int>)
    requires Latin(s) && 8 * |s| <= EXACT / 2 && f <= |s| < f + 64 && f % 64 == 0
    requires HashIs(state[..], Compress(IV, CharOctets(s)[..f]))
    modifies state
    ensures HashIs(state[..], Compress(IV, JsPadded(CharOctets(s))))
  {
    hide Compress, Transform, Words, ZeroWords, JsPadded, Wrap, HashIs;
    ghost var m, h := CharOctets(s), Compress(IV, CharOctets(s)[..f]);
    var n := |s|;
    var t := s[f..];
    var tail := new int[16](i => 0);
    ghost var x := state[..];
    PackTail(t, tail);
    assert state[..] == x;
    ghost var u := CharOctets(t) + [0x80];
    assert CharOctets(t) == m[f..];
    ghost var inp := ZeroWords(u);
    if |t| > 55 {
      Md5Cycle(state, tail[..], h, inp);
      h := Transform(h, inp);
      x := state[..];
      forall i | 0 <= i < 16 {
        tail[i] := 0;
      }
      assert state[..] == x;
      inp := ZeroWords([]);
      NoWords();
      WrapOf(0);
    }
    assert Stands(tail[..], inp);
    ghost var k := tail[..];
    x := state[..];
    tail[14] := n * 8;
    assert state[..] == x;
    assert tail[..] == k[14 := n * 8];
    WrapCount(n);
    LastBlocks(m, f);
    Md5Cycle(state, tail[..], h, inp[14 := 8 * |m| % TWO32]);
  }

  lemma WrapCount(n: nat)
    ensures Wrap(n * 8) == 8 * n % TWO32
  {
  }

  // ------------------------------------------------------------------
  // Output.

  /** Four bits of a signed number, whatever the shift fills in from the left. */
  lemma Nibble(n: int, u: nat)
    requires u < 8
    ensures BitAnd(ShiftRight(n, 4 * u), 0x0F) == Wrap(n) / Pow2(4 * u) % 16
  {
    hide Pow2, Bits;
    var k := 4 * u;
    var x := Wrap(ShiftRight(n, k));
    assert Pow2(4) == 16 by { Pow2Is(); Pow2Four(); }
    Pow2Is();
    AndMask(32, 4, x);
    Pow2Add(4, 28 - k);
    Pow2Split(k);
    var p, q := Pow2(k), Pow2(28 - k);
    assert Pow2(32 - k) == 16 * q;
    SignedShift(Int32(Wrap(n)), p, 16 * q);
    SixteensDrop(Wrap(n) / p, q);
  }

  lemma Pow2Four()
    ensures Pow2(4) == 16
  {
  }

  lemma SignedShift(n: int, p: nat, q: nat)
    requires p >= 1 && p * q == TWO32 && -0x8000_0000 <= n < 0x8000_0000
    ensures n / p == if n >= 0 then Wrap(n) / p else Wrap(n) / p - q
  {
    if n < 0 {
      var w := n + TWO32;
      ModIs(n, TWO32, -1, w);
      Distribute(w / p, q, p);
      ModIs(n, p, w / p - q, w % p);
    } else {
      ModIs(n, TWO32, 0, n);
    }
  }

  lemma SixteensDrop(x: nat, q: nat)
    ensures Wrap(x) % 16 == x % 16 && Wrap(x - 16 * q) % 16 == x % 16
  {
    LastFour(x);
    LastFour(x - 16 * q);
    ModIs(x - 16 * q, 16, x / 16 - q, x % 16);
  }

  lemma LastFour(x: int)
    ensures Wrap(x) % 16 == x % 16
  {
    ModIs(x, 16, TWO32 / 16 * (x / TWO32) + Wrap(x) / 16, Wrap(x) % 16);
  }

  /** The digits of an octet of a word. */
  lemma OctetDigits(w: Word, j: nat)
    requires j < 4
    ensures LeBytes(w)[j] as int / 16 == w / Pow2(8 * j + 4) % 16
    ensures LeBytes(w)[j] as int % 16 == w / Pow2(8 * j) % 16
  {
    hide Pow2, LeBytes;
    Pow2Bytes();
    LeOctets(w);
    if j == 0 {
      ByteDigits(w);
    } else if j == 1 {
      ByteDigits(w / 0x100);
    } else if j == 2 {
      ByteDigits(w / 0x1_0000);
    } else {
      ByteDigits(w / 0x100_0000);
    }
  }

  lemma LeOctets(w: Word)
    ensures LeBytes(w)[0] as int == w % 0x100 && LeBytes(w)[1] as int == w / 0x100 % 0x100
    ensures LeBytes(w)[2] as int == w / 0x1_0000 % 0x100 && LeBytes(w)[3] as int == w / 0x100_0000 % 0x100
    ensures w / 0x100 / 16 == w / 0x1000 && w / 0x1_0000 / 16 == w / 0x10_0000
    ensures w / 0x100_0000 / 16 == w / 0x1000_0000
  {
    Quotients(w);
  }

  lemma ByteDigits(x: nat)
    ensures x % 0x100 / 16 == x / 16 % 16 && x % 0x100 % 16 == x % 16
  {
    var q, r := x / 0x100, x % 0x100;
    ModIs(x, 16, 16 * q + r / 16, r % 16);
    ModIs(x / 16, 16, q, r / 16);
  }

  lemma Pow2Bytes()
    ensures Pow2(0) == 1 && Pow2(8) == 0x100 && Pow2(16) == 0x1_0000 && Pow2(24) == 0x100_0000
    ensures Pow2(4) == 0x10 && Pow2(12) == 0x1000 && Pow2(20) == 0x10_0000 && Pow2(28) == 0x1000_0000
  {
    Pow2Is();
    assert Pow2(12) == 0x1000;
    assert Pow2(20) == 0x10_0000;
  }

  method Rhex(n: int) returns (s: string)
    ensures s == Md5.Hex(LeBytes(Wrap(n)))
  {
    hide Wrap, BitAnd, ShiftRight, Pow2, LeBytes, Md5.Hex;
    s := "";
    ghost var b := LeBytes(Wrap(n));
    Md5.HexNone();
    for j := 0 to 4
      invariant s == Md5.Hex(b[..j])
    {
      Nibble(n, 2 * j + 1);
      Nibble(n, 2 * j);
      OctetDigits(Wrap(n), j);
      s := s + [Md5.HEX_DIGITS[BitAnd(ShiftRight(n, j * 8 + 4), 0x0F)]] + [Md5.HEX_DIGITS[BitAnd(ShiftRight(n, j * 8), 0x0F)]];
      Md5.HexLast(b[..j], b[j]);
      assert b[..j + 1] == b[..j] + [b[j]];
    }
    assert b[..4] == b;
  }

  lemma {:induction false} HexAppend(a: bytes, b: bytes)
    ensures Md5.Hex(a + b) == Md5.Hex(a) + Md5.Hex(b)
  {
    hide Md5.Hex, Md5.ByteHex;
    if b == [] {
      assert a + b == a;
      Md5.HexNone();
    } else {
      var n := |b| - 1;
      HexAppend(a, b[..n]);
      Md5.HexLast(a + b[..n], b[n]);
      Md5.HexLast(b[..n], b[n]);
      assert b[..n] + [b[n]] == b;
      Assoc(a, b[..n], [b[n]]);
      Assoc(Md5.Hex(a), Md5.Hex(b[..n]), Md5.ByteHex(b[n]));
    }
  }

  lemma Assoc<X>(a: seq<X>, b: seq<X>, c: seq<X>)
    ensures (a + b) + c == a + (b + c)
  {
  }

  method JoinHex(x: array<int>, ghost h: Hash) returns (r: string)
    requires HashIs(x[..], h)
    ensures r == Md5.Hex(Output(h))
  {
    hide Md5.Hex, Wrap, LeBytes;
    var s0 := Rhex(x[0]);
    var s1 := Rhex(x[1]);
    var s2 := Rhex(x[2]);
    var s3 := Rhex(x[3]);
    HexAppend(LeBytes(h.a), LeBytes(h.b));
    HexAppend(LeBytes(h.a) + LeBytes(h.b), LeBytes(h.c));
    HexAppend(LeBytes(h.a) + LeBytes(h.b) + LeBytes(h.c), LeBytes(h.d));
    r := s0 + s1 + s2 + s3;
  }

  /** The script's digest is that of RFC 1321 for every message below 2^29 octets. */
  method Md5String(s: string) returns (r: string)
    requires Latin(s) && 8 * |s| <= EXACT / 2
    ensures r == Md5.Hex(Output(Compress(IV, JsPadded(CharOctets(s)))))
    ensures |s| < 0x2000_0000 ==> r == Md5.Hex(Rfc1321.Md5(CharOctets(s)))
  {
    hide Compress, HashIs, Padded, JsPadded, Md5.Hex;
    var state := Md51(s);
    PaddingAgrees(CharOctets(s));
    r := JoinHex(state, Compress(IV, JsPadded(CharOctets(s))));
  }

  // ------------------------------------------------------------------
  // The two implementations together.

  function Codes(s: string): seq<int> {
    seq(|s|, i requires 0 <= i < |s| => s[i] as int)
  }

  /** UTF-8 and the script's octets are the same for text of 7-bit characters only. */
  lemma {:induction false} SevenBit(s: string)
    requires Latin(s)
    ensures Utf8.Scalars(Codes(s))
    ensures |Utf8.Encode(Codes(s))| >= |s|
    ensures Utf8.Encode(Codes(s)) == CharOctets(s) <==> forall i :: 0 <= i < |s| ==> s[i] < 128 as char
  {
    hide CharOctets, Codes, Utf8.Encode;
    if s == "" {
      NoText();
    } else {
      SevenBit(s[1..]);
      FirstEncoded(s);
      assert forall i :: 1 <= i < |s| ==> s[i] == s[1..][i - 1];
      if s[0] < 128 as char {
        SameHead(s[0] as byte, Utf8.Encode(Codes(s[1..])), CharOctets(s[1..]));
      }
    }
  }

  lemma NoText()
    ensures Utf8.Scalars(Codes("")) && Utf8.Encode(Codes("")) == CharOctets("") == []
  {
  }

  /** The first character, in UTF-8 and as an octet. */
  lemma FirstEncoded(s: string)
    requires Latin(s) && s != "" && Utf8.Scalars(Codes(s[1..]))
    ensures Utf8.Scalars(Codes(s)) && CharOctets(s) == [s[0] as byte] + CharOctets(s[1..])
    ensures s[0] < 128 as char ==> Utf8.Encode(Codes(s)) == [s[0] as byte] + Utf8.Encode(Codes(s[1..]))
    ensures s[0] >= 128 as char ==> |Utf8.Encode(Codes(s))| == 2 + |Utf8.Encode(Codes(s[1..]))|
  {
    assert Codes(s)[1..] == Codes(s[1..]);
  }

  lemma SameHead<X>(x: X, a: seq<X>, b: seq<X>)
    ensures [x] + a == [x] + b <==> a == b
  {
    assert ([x] + a)[1..] == a && ([x] + b)[1..] == b;
  }

  ghost predicate Typed(s: string) {
    forall i :: 0 <= i < |s| ==> 0 as char < s[i] < 128 as char
  }

  const REALM: string := ":kcaldav:"

  /**
   * A password set from the browser is stored as one set from the command line: `user` and
   * `password` are typed at both, and the octets read at the terminal are their UTF-8.
   */
  method BrowserAndServer(user: string, password: string, userOctets: bytes, passwordOctets: bytes)
    returns (sent: string, stored: string)
    requires Typed(user) && Typed(password) && |user| + |REALM| + |password| < 0x2000_0000
    requires Utf8.Scalars(Codes(user)) && userOctets == Utf8.Encode(Codes(user))
    requires Utf8.Scalars(Codes(password)) && passwordOctets == Utf8.Encode(Codes(password))
    ensures sent == stored == Md5.Ha1(userOctets, passwordOctets)
  {
    hide Utf8.Encode, Utf8.Scalars, Md5.Hex, Rfc1321.Md5, Compress, JsPadded;
    SevenBit(user);
    SevenBit(password);
    NoNul(user);
    NoNul(password);
    var s := user + REALM + password;
    assert CharOctets(s) == userOctets + [COLON] + Md5.KREALM + [COLON] + passwordOctets;
    sent := Md5String(s);
    stored := Md5.HashPassword(userOctets, passwordOctets);
  }

  lemma NoNul(s: string)
    requires Typed(s)
    ensures Latin(s) && CStr(CharOctets(s)) == CharOctets(s)
  {
    hide Span;
    var b := CharOctets(s);
    forall i | 0 <= i < |b|
      ensures b[i] != NUL
    {
      assert b[i] as int == s[i] as int;
    }
    assert b[..|b|] == b;
    SpanUnique(b, NUL, |b|);
  }
}
