/** Base64 encoding and decoding: RFC 4648, section 4. */
module Base64 {
  import opened Octets
  import Word32

  /** A to Z, a to z, 0 to 9, plus and slash. */
  function Alphabet(): (r: bytes)
    ensures |r| == 64 && forall v :: 0 <= v < 64 ==> r[v] == Letter(v)
  {
    seq(64, v requires 0 <= v < 64 => Letter(v))
  }

  const PAD: byte := 61

  // ------------------------------------------------------------------
  // Characters.

  function Letter(v: nat): byte
    requires v < 64
  {
    if v < 26 then (65 + v) as byte
    else if v < 52 then (71 + v) as byte
    else if v < 62 then (v - 4) as byte
    else if v == 62 then 43 else 47
  }

  /** strchr(3) in the alphabet: the value of a character, or 64. */
  function Value(c: byte): (v: nat)
    ensures v <= 64
  {
    Span(Alphabet(), c)
  }

  predicate IsDigit64(c: byte) {
    Value(c) < 64
  }

  /** The alphabet has no letter twice, and neither the pad nor white space. */
  lemma ValueOfLetter(v: nat)
    requires v < 64
    ensures Value(Letter(v)) == v && Letter(v) != PAD && !IsSpace(Letter(v)) && Letter(v) != NUL
  {
    forall i | 0 <= i < v
      ensures Alphabet()[..v][i] != Letter(v)
    {
    }
    SpanUnique(Alphabet(), Letter(v), v);
  }

  lemma LetterOfValue(c: byte)
    requires IsDigit64(c)
    ensures Letter(Value(c)) == c && c != PAD && !IsSpace(c) && c != NUL
  {
    ValueOfLetter(Value(c));
  }

  lemma PadIsNoDigit()
    ensures !IsDigit64(PAD)
  {
    if IsDigit64(PAD) {
      LetterOfValue(PAD);
    }
  }

  // ------------------------------------------------------------------
  // The reference: quanta of three octets and four characters.

  /** Three octets as four characters. */
  function Quantum(a: byte, b: byte, c: byte): (r: bytes)
    ensures |r| == 4
  {
    var (x, y, z) := (a as nat, b as nat, c as nat);
    [Letter(x / 4), Letter(x % 4 * 16 + y / 16), Letter(y % 16 * 4 + z / 64), Letter(z % 64)]
  }

  function Encode(s: bytes): bytes {
    if s == [] then []
    else if |s| == 1 then
      var q := Quantum(s[0], 0, 0);
      [q[0], q[1], PAD, PAD]
    else if |s| == 2 then
      var q := Quantum(s[0], s[1], 0);
      [q[0], q[1], q[2], PAD]
    else Quantum(s[0], s[1], s[2]) + Encode(s[3..])
  }

  /** Four characters for each three octets, or part of three. */
  lemma {:induction false} EncodeLength(s: bytes)
    ensures |Encode(s)| == (|s| + 2) / 3 * 4
  {
    hide Quantum;
    if |s| > 3 {
      EncodeLength(s[3..]);
      assert (|s| + 2) / 3 == (|s[3..]| + 2) / 3 + 1;
    } else {
      assert |s| == 3 ==> Encode(s[3..]) == [];
    }
  }

  function First(v0: nat, v1: nat): byte
    requires v0 < 64 && v1 < 64
  {
    (v0 * 4 + v1 / 16) as byte
  }

  function Second(v1: nat, v2: nat): byte
    requires v1 < 64 && v2 < 64
  {
    (v1 % 16 * 16 + v2 / 4) as byte
  }

  function Third(v2: nat, v3: nat): byte
    requires v2 < 64 && v3 < 64
  {
    (v2 % 4 * 64 + v3) as byte
  }

  /** What a text without white space stands for; `strict` refuses spare bits that are not zero. */
  function Decode(t: bytes, strict: bool): Option<bytes> {
    if t == [] then Some([])
    else if |t| < 4 || !IsDigit64(t[0]) || !IsDigit64(t[1]) then None
    else
      var v0, v1, v2, v3 := Value(t[0]), Value(t[1]), Value(t[2]), Value(t[3]);
      if t[2..] == [PAD, PAD] then
        if strict && v1 % 16 != 0 then None else Some([First(v0, v1)])
      else if !IsDigit64(t[2]) then None
      else if t[3..] == [PAD] then
        if strict && v2 % 4 != 0 then None else Some([First(v0, v1), Second(v1, v2)])
      else if !IsDigit64(t[3]) then None
      else
        match Decode(t[4..], strict)
        case None => None
        case Some(d) => Some([First(v0, v1), Second(v1, v2), Third(v2, v3)] + d)
  }

  // ------------------------------------------------------------------
  // Encoding and decoding are inverse.

  /** Octets to values and back. */
  lemma OctetsBack(a: byte, b: byte, c: byte)
    ensures var q := Quantum(a, b, c);
            && IsDigit64(q[0]) && IsDigit64(q[1]) && IsDigit64(q[2]) && IsDigit64(q[3])
            && First(Value(q[0]), Value(q[1])) == a
            && Second(Value(q[1]), Value(q[2])) == b
            && Third(Value(q[2]), Value(q[3])) == c
            && (b == 0 ==> Value(q[1]) % 16 == 0) && (c == 0 ==> Value(q[2]) % 4 == 0)
  {
    hide Value;
    var (x, y, z) := (a as nat, b as nat, c as nat);
    ValueOfLetter(x / 4);
    ValueOfLetter(x % 4 * 16 + y / 16);
    ValueOfLetter(y % 16 * 4 + z / 64);
    ValueOfLetter(z % 64);
  }

  /** Values to octets and back. */
  lemma ValuesBack(v0: nat, v1: nat, v2: nat, v3: nat)
    requires v0 < 64 && v1 < 64 && v2 < 64 && v3 < 64
    ensures Quantum(First(v0, v1), Second(v1, v2), Third(v2, v3)) == [Letter(v0), Letter(v1), Letter(v2), Letter(v3)]
    ensures v1 % 16 == 0 ==>
              var q := Quantum(First(v0, v1), 0, 0); q[0] == Letter(v0) && q[1] == Letter(v1)
    ensures v2 % 4 == 0 ==>
              var q := Quantum(First(v0, v1), Second(v1, v2), 0);
              q[0] == Letter(v0) && q[1] == Letter(v1) && q[2] == Letter(v2)
  {
    hide Letter, First, Second, Third;
    Parts(v0, v1, v2, v3);
    assert v1 / 16 * 16 + v1 % 16 == v1 && v2 / 4 * 4 + v2 % 4 == v2;
  }

  /** Each octet holds what is left of one value and the beginning of the next. */
  lemma Parts(v0: nat, v1: nat, v2: nat, v3: nat)
    requires v0 < 64 && v1 < 64 && v2 < 64 && v3 < 64
    ensures First(v0, v1) as nat / 4 == v0 && First(v0, v1) as nat % 4 == v1 / 16
    ensures Second(v1, v2) as nat / 16 == v1 % 16 && Second(v1, v2) as nat % 16 == v2 / 4
    ensures Third(v2, v3) as nat / 64 == v2 % 4 && Third(v2, v3) as nat % 64 == v3
  {
    Join(v0, v1, 4, 16);
    Join(v1 % 16, v2, 16, 4);
    Join(v2 % 4, v3, 64, 1);
  }

  /** Upper bits of one number and lower bits of another, taken apart again. */
  lemma Join(u: nat, v: nat, p: nat, q: nat)
    requires p >= 1 && q >= 1 && v / q < p
    ensures (u * p + v / q) / p == u && (u * p + v / q) % p == v / q
  {
    Word32.ModIs(u * p + v / q, p, u, v / q);
  }

  /** Every encoding decodes to what was encoded. */
  lemma {:induction false} DecodeEncode(s: bytes, strict: bool)
    ensures Decode(Encode(s), strict) == Some(s)
  {
    hide Value, Quantum, First, Second, Third, Letter;
    PadIsNoDigit();
    if |s| == 1 {
      OctetsBack(s[0], 0, 0);
      var q, t := Quantum(s[0], 0, 0), Encode(s);
      assert t[0] == q[0] && t[1] == q[1] && t[2..] == [PAD, PAD];
      assert s == [s[0]];
    } else if |s| == 2 {
      OctetsBack(s[0], s[1], 0);
      var q, t := Quantum(s[0], s[1], 0), Encode(s);
      assert t[0] == q[0] && t[1] == q[1] && t[2] == q[2] && t[2..][0] == q[2] && t[3..] == [PAD];
      assert s == [s[0], s[1]];
    } else if |s| > 2 {
      OctetsBack(s[0], s[1], s[2]);
      DecodeEncode(s[3..], strict);
      var q, t := Quantum(s[0], s[1], s[2]), Encode(s);
      assert t[4..] == Encode(s[3..]);
      assert t[0] == q[0] && t[1] == q[1] && t[2] == q[2] && t[3] == q[3];
      assert t[2..][0] == q[2] && t[3..][0] == q[3];
      assert s == [s[0], s[1], s[2]] + s[3..];
    }
  }

  /** A text that decodes strictly is the encoding of what it decodes to. */
  lemma {:induction false} EncodeDecode(t: bytes)
    ensures Decode(t, true).Some? ==> Encode(Decode(t, true).value) == t
  {
    hide Value, Quantum, First, Second, Third, Letter;
    if Decode(t, true).Some? && t != [] {
      LetterOfValue(t[0]);
      LetterOfValue(t[1]);
      var v0, v1, v2, v3 := Value(t[0]), Value(t[1]), Value(t[2]), Value(t[3]);
      if t[2..] == [PAD, PAD] {
        ValuesBack(v0, v1, 0, 0);
        assert t == t[..2] + t[2..];
      } else if t[3..] == [PAD] {
        LetterOfValue(t[2]);
        ValuesBack(v0, v1, v2, 0);
        assert t == t[..3] + t[3..];
      } else {
        LetterOfValue(t[2]);
        LetterOfValue(t[3]);
        ValuesBack(v0, v1, v2, v3);
        EncodeDecode(t[4..]);
        var d := Decode(t, true).value;
        assert d[3..] == Decode(t[4..], true).value;
        assert t == t[..4] + t[4..];
      }
    }
  }

  /** Base64 is a bijection between octet strings and the texts that decode strictly. */
  lemma Bijection(t: bytes, s: bytes)
    ensures Decode(t, true) == Some(s) <==> t == Encode(s)
  {
    DecodeEncode(s, true);
    EncodeDecode(t);
  }

  /** The alphabet of RFC 4648, table 1. */
  lemma AlphabetIs(v: nat)
    requires v < 64
    ensures Letter(v) as int == if v < 26 then 'A' as int + v else if v < 52 then 'a' as int + (v - 26)
                                else if v < 62 then '0' as int + (v - 52) else if v == 62 then '+' as int else '/' as int
    ensures PAD == '=' as byte
  {
  }

  lemma ThreeLetters(a: byte, b: byte, c: byte, r: bytes)
    requires r == [a, b, c]
    ensures Encode(r) == Quantum(a, b, c)
  {
    assert r[3..] == [];
  }

  lemma Quanta()
    ensures Quantum(251, 239, 255) == [43, 43, 47, 47]
    ensures Quantum(102, 0, 0)[0] == 90 && Quantum(102, 0, 0)[1] == 103
    ensures Quantum(102, 111, 0)[0] == 90 && Quantum(102, 111, 0)[1] == 109 && Quantum(102, 111, 0)[2] == 56
    ensures Quantum(102, 111, 111) == [90, 109, 57, 118]
  {
  }

  lemma Texts()
    ensures Ascii("++//") == [43, 43, 47, 47] && Ascii("Zg==") == [90, 103, 61, 61]
    ensures Ascii("Zm8=") == [90, 109, 56, 61] && Ascii("Zm9v") == [90, 109, 57, 118]
    ensures Ascii("f") == [102] && Ascii("fo") == [102, 111] && Ascii("foo") == [102, 111, 111]
  {
  }

  /** The last two letters, and three of the examples of section 10 of RFC 4648. */
  lemma EncodeExamples()
    ensures Encode([251, 239, 255]) == Ascii("++//")
    ensures Encode(Ascii("f")) == Ascii("Zg==") && Encode(Ascii("fo")) == Ascii("Zm8=") &&
            Encode(Ascii("foo")) == Ascii("Zm9v")
  {
    hide Encode, Quantum, Ascii;
    Quanta();
    Texts();
    EncodeShort(102, 111);
    ThreeLetters(251, 239, 255, [251, 239, 255]);
    ThreeLetters(102, 111, 111, [102, 111, 111]);
  }

  lemma EncodeShort(a: byte, b: byte)
    ensures Encode([a]) == [Quantum(a, 0, 0)[0], Quantum(a, 0, 0)[1], PAD, PAD]
    ensures Encode([a, b]) == [Quantum(a, b, 0)[0], Quantum(a, b, 0)[1], Quantum(a, b, 0)[2], PAD]
  {
  }

  // ------------------------------------------------------------------
  // The encoder.

  /** b64_ntop: the length, with the text and its terminator in `target`, or -1 if they do not fit. */
  method Ntop(src: bytes, target: array<byte>) returns (r: int)
    modifies target
    ensures r == if |Encode(src)| < target.Length then |Encode(src)| else -1
    ensures r >= 0 ==> target[..r] == Encode(src) && target[r] == NUL
  {
    hide Quantum, Encode;
    var at, datalength := 0, 0;
    EncodeMore(src[..0]);
    assert src[0..] == src;
    while 2 < |src| - at
      invariant at <= |src| && datalength <= target.Length
      invariant target[..datalength] + Encode(src[at..]) == Encode(src)
    {
      EncodeMore(src[at..]);
      assert src[at..][3..] == src[at + 3..];
      var output := Quantum(src[at], src[at + 1], src[at + 2]);
      at := at + 3;
      if datalength + 4 > target.Length {
        return -1;
      }
      Put4(target, datalength, output);
      datalength := datalength + 4;
    }
    if 0 != |src| - at {
      EncodeMore(src[at..]);
      var output := Quantum(src[at], if |src| - at == 2 then src[at + 1] else 0, 0);
      if datalength + 4 > target.Length {
        return -1;
      }
      Put4(target, datalength, [output[0], output[1], if |src| - at == 1 then PAD else output[2], PAD]);
      datalength := datalength + 4;
    }
    if datalength >= target.Length {
      return -1;
    }
    target[datalength] := NUL;
    return datalength;
  }

  /** Four characters into the target. */
  method Put4(target: array<byte>, n: nat, c: bytes)
    requires |c| == 4 && n + 4 <= target.Length
    modifies target
    ensures target[..n + 4] == old(target[..n]) + c
  {
    target[n] := c[0];
    target[n + 1] := c[1];
    target[n + 2] := c[2];
    target[n + 3] := c[3];
  }

  /** One step of the encoding. */
  lemma EncodeMore(s: bytes)
    ensures s == [] ==> Encode(s) == []
    ensures |s| == 1 ==> var q := Quantum(s[0], 0, 0); Encode(s) == [q[0], q[1], PAD, PAD]
    ensures |s| == 2 ==> var q := Quantum(s[0], s[1], 0); Encode(s) == [q[0], q[1], q[2], PAD]
    ensures |s| > 2 ==> Encode(s) == Quantum(s[0], s[1], s[2]) + Encode(s[3..])
  {
    hide Quantum;
  }

  // ------------------------------------------------------------------
  // The decoder.

  /** A text without its white space. */
  function Strip(t: bytes): bytes {
    if t == [] then [] else (if IsSpace(t[0]) then [] else [t[0]]) + Strip(t[1..])
  }

  ghost predicate Digits(p: bytes) {
    forall i :: 0 <= i < |p| ==> IsDigit64(p[i])
  }

  /** The octets that are complete after some characters of a quantum. */
  ghost function Partial(p: bytes): bytes
    requires |p| <= 4 && Digits(p)
  {
    if |p| < 2 then []
    else if |p| == 2 then [First(Value(p[0]), Value(p[1]))]
    else if |p| == 3 then [First(Value(p[0]), Value(p[1])), Second(Value(p[1]), Value(p[2]))]
    else [First(Value(p[0]), Value(p[1])), Second(Value(p[1]), Value(p[2])), Third(Value(p[2]), Value(p[3]))]
  }

  /** The bits so far of the octet after those. */
  ghost function Spare(p: bytes): byte
    requires 1 <= |p| < 4 && Digits(p)
  {
    if |p| == 1 then (Value(p[0]) * 4) as byte
    else if |p| == 2 then (Value(p[1]) % 16 * 16) as byte
    else (Value(p[2]) % 4 * 64) as byte
  }

  ghost function Prepend(a: bytes, d: Option<bytes>): Option<bytes> {
    if d.Some? then Some(a + d.value) else None
  }

  lemma DecodeFull(p: bytes, r: bytes, strict: bool)
    requires |p| == 4 && Digits(p)
    ensures Decode(p + r, strict) == Prepend(Partial(p), Decode(r, strict))
  {
    hide Value, First, Second, Third;
    PadIsNoDigit();
    var t := p + r;
    assert t[0] == p[0] && t[1] == p[1] && t[2] == p[2] && t[3] == p[3] && t[4..] == r;
    assert t[2..][0] == p[2] && t[3..][0] == p[3];
  }

  /** A character that is no digit ends the text or makes it wrong. */
  lemma DecodeOther(p: bytes, c: byte, r: bytes, strict: bool)
    requires |p| < 4 && Digits(p) && !IsDigit64(c)
    ensures var d := Decode(p + [c] + r, strict);
            if c == PAD && |p| >= 2 && r == (if |p| == 2 then [PAD] else []) && (strict ==> Spare(p) == 0)
            then d == Some(Partial(p)) else d == None
  {
    hide Value, First, Second, Third;
    PadIsNoDigit();
    var t := p + [c] + r;
    assert forall i :: 0 <= i < |p| ==> t[i] == p[i];
    assert t[|p|] == c && t[|p| + 1..] == r;
    if |p| == 2 {
      assert t[2..] == [c] + r;
      assert t[2..] == [PAD, PAD] <==> c == PAD && r == [PAD];
    } else if |p| == 3 {
      assert t[2..][0] == p[2] && t[3..] == [c] + r;
      assert t[3..] == [PAD] <==> c == PAD && r == [];
    }
  }

  lemma DecodeCut(p: bytes, strict: bool)
    requires 0 < |p| < 4 && Digits(p)
    ensures Decode(p, strict) == None
  {
  }

  /** A digit makes for an octet more; so do spare bits, if they are not refused. */
  lemma DecodeLeast(p: bytes, r: bytes, strict: bool)
    requires 1 <= |p| <= 4 && Digits(p) && Decode(p + r, strict).Some?
    ensures |Decode(p + r, strict).value| >= if |p| == 1 then 1 else |p| - 1
    ensures strict && 2 <= |p| < 4 && Spare(p) != 0 ==> |Decode(p + r, strict).value| >= |p|
  {
    hide Value, First, Second, Third;
    PadIsNoDigit();
    var t := p + r;
    assert forall i :: 0 <= i < |p| ==> t[i] == p[i];
    assert |p| > 2 ==> t[2..][0] == p[2];
    assert |p| > 3 ==> t[3..][0] == p[3];
  }

  /** The bits of a value joined to those that are there already. */
  function OrOctet(a: byte, v: nat): byte {
    Word32.Pow2Is();
    Word32.Bits(Word32.OR, 8, a as nat, v) as byte
  }

  lemma OrBits(k: nat, hi: nat, lo: nat)
    requires k == 2 || k == 4 || k == 6
    requires var p := if k == 2 then 4 else if k == 4 then 16 else 64; lo < p && hi * p < 256
    ensures var p := if k == 2 then 4 else if k == 4 then 16 else 64;
            OrOctet((hi * p) as byte, lo) == (hi * p + lo) as byte
  {
    Powers();
    hide Word32.Bits, Word32.Pow2;
    Word32.OrDisjoint(8, k, hi, lo);
  }

  lemma Powers()
    ensures Word32.Pow2(2) == 4 && Word32.Pow2(4) == 16 && Word32.Pow2(6) == 64
  {
  }

  /** What the target holds after the octets `done` and the characters `p` of a quantum. */
  ghost predicate Holds(target: array?<byte>, tarindex: nat, done: bytes, p: bytes)
    reads target
  {
    && |p| < 4 && Digits(p) && tarindex == |done + Partial(p)|
    && (target != null ==>
          && tarindex <= target.Length && target[..tarindex] == done + Partial(p)
          && (p != [] ==> if tarindex < target.Length then target[tarindex] == Spare(p) else |p| >= 2 && Spare(p) == 0))
  }

  /** One character more does not fit. */
  ghost predicate Full(target: array?<byte>, tarindex: nat, q: bytes)
    requires 1 <= |q| <= 4 && Digits(q)
  {
    && target != null
    && (tarindex >= target.Length || (2 <= |q| < 4 && tarindex + 1 >= target.Length && Spare(q) != 0))
  }

  /** Enter the value of a digit; `state` counts the digits of the quantum. */
  method Enter(target: array?<byte>, state: nat, tarindex: nat, c: byte, ghost done: bytes, ghost p: bytes)
    returns (ok: bool, tarindex': nat)
    requires IsDigit64(c) && state == |p| && Holds(target, tarindex, done, p)
    modifies target
    ensures !ok ==> Full(target, tarindex, p + [c])
    ensures ok && state < 3 ==> Holds(target, tarindex', done, p + [c])
    ensures ok && state == 3 ==> Holds(target, tarindex', done + Partial(p + [c]), [])
  {
    hide Value, OrOctet, First, Second, Third;
    var v := Value(c);
    ok, tarindex' := true, if state == 0 then tarindex else tarindex + 1;
    if target == null {
      return;
    }
    if tarindex >= target.Length {
      return false, tarindex;
    }
    ghost var was := target[..tarindex];
    if state == 0 {
      target[tarindex] := (v * 4) as byte;
    } else if state == 3 {
      OrBits(6, Value(p[2]) % 4, v);
      target[tarindex] := OrOctet(target[tarindex], v);
      ThirdIs(p, c);
    } else {
      var next: byte;
      if state == 1 {
        OrBits(2, Value(p[0]), v / 16);
        target[tarindex] := OrOctet(target[tarindex], v / 16);
        next := (v % 16 * 16) as byte;
        FirstIs(p, c);
      } else {
        OrBits(4, Value(p[1]) % 16, v / 4);
        target[tarindex] := OrOctet(target[tarindex], v / 4);
        next := (v % 4 * 64) as byte;
        SecondIs(p, c);
      }
      if tarindex + 1 < target.Length {
        target[tarindex + 1] := next;
      } else if next != 0 {
        return false, tarindex;
      }
    }
    assert target[..tarindex] == was;
  }

  lemma ThirdIs(p: bytes, c: byte)
    requires |p| == 3 && Digits(p) && IsDigit64(c)
    ensures Partial(p + [c]) == Partial(p) + [(Value(p[2]) % 4 * 64 + Value(c)) as byte]
  {
    hide Value;
  }

  lemma FirstIs(p: bytes, c: byte)
    requires |p| == 1 && Digits(p) && IsDigit64(c)
    ensures Partial(p + [c]) == Partial(p) + [(Value(p[0]) * 4 + Value(c) / 16) as byte]
    ensures Spare(p + [c]) == (Value(c) % 16 * 16) as byte
  {
    hide Value;
  }

  lemma SecondIs(p: bytes, c: byte)
    requires |p| == 2 && Digits(p) && IsDigit64(c)
    ensures Partial(p + [c]) == Partial(p) + [(Value(p[1]) % 16 * 16 + Value(c) / 4) as byte]
    ensures Spare(p + [c]) == (Value(c) % 4 * 64) as byte
  {
    hide Value;
  }

  // ------------------------------------------------------------------
  // The text around the digits.

  lemma StripSpace(t: bytes, i: nat)
    requires i < |t|
    ensures Strip(t[i..]) == (if IsSpace(t[i]) then [] else [t[i]]) + Strip(t[i + 1..])
  {
    assert t[i..][1..] == t[i + 1..];
  }

  /** Skip white space: the first other character, or the end. */
  method SkipSpace(t: bytes, i: nat) returns (j: nat)
    requires i <= |t|
    ensures i <= j <= |t| && (j < |t| ==> !IsSpace(t[j])) && Strip(t[j..]) == Strip(t[i..])
    ensures Strip(t[i..]) == [] <==> j == |t|
  {
    hide Strip;
    j := i;
    while j < |t| && IsSpace(t[j])
      invariant i <= j <= |t| && Strip(t[j..]) == Strip(t[i..])
    {
      StripSpace(t, j);
      assert [] + Strip(t[j + 1..]) == Strip(t[j + 1..]);
      j := j + 1;
    }
    if j < |t| {
      StripSpace(t, j);
    } else {
      assert t[j..] == [];
      StripNone();
    }
  }

  lemma StripNone()
    ensures Strip([]) == []
  {
  }

  /** What a decoding into a target of some size returns. */
  ghost function Outcome(d: Option<bytes>, target: array?<byte>): int {
    if d.Some? && (target == null || |d.value| <= target.Length) then |d.value| else -1
  }

  /**
   * b64_pton: the number of octets decoded, or -1 if the text is wrong or does not fit.  Without a
   * target nothing is stored, and spare bits are not looked at.
   */
  method Pton(src: bytes, target: array?<byte>) returns (r: int)
    modifies target
    ensures r == Outcome(Decode(Strip(CStr(src)), target != null), target)
    ensures r >= 0 && target != null ==> target[..r] == Decode(Strip(CStr(src)), true).value
  {
    hide Decode, Strip, CStr, Partial, Spare, Value;
    var t := CStr(src);
    var state, tarindex, i := 0, 0, 0;
    ghost var done: bytes, p: bytes, strict := [], [], target != null;
    ghost var d := Decode(Strip(t), strict);
    NoPartial();
    assert t[0..] == t && [] + Strip(t) == Strip(t);
    assert Prepend([], d) == d by { PrependNone(d); }
    while i < |t| && t[i] != PAD
      invariant i <= |t| && state == |p| && Holds(target, tarindex, done, p)
      invariant d == Prepend(done, Decode(p + Strip(t[i..]), strict))
    {
      StripSpace(t, i);
      var c := t[i];
      i := i + 1;
      if !IsSpace(c) {
        if !IsDigit64(c) {
          DecodeOther(p, c, Strip(t[i..]), strict);
          Rejoin(p, c, Strip(t[i..]));
          return -1;
        }
        Advance(done, p, c, Strip(t[i..]), strict, d);
        var ok;
        ok, tarindex := Enter(target, state, tarindex, c, done, p);
        if !ok {
          return -1;
        }
        done, p := if |p| < 3 then done else done + Partial(p + [c]), if |p| < 3 then p + [c] else [];
        state := if state < 3 then state + 1 else 0;
      } else {
        assert [] + Strip(t[i..]) == Strip(t[i..]);
      }
    }
    if i < |t| {
      StripSpace(t, i);
      PadIsNoDigit();
      DecodeOther(p, PAD, Strip(t[i + 1..]), strict);
      Rejoin(p, PAD, Strip(t[i + 1..]));
      r := Finish(t, i + 1, target, state, tarindex, done, p);
    } else {
      assert t[i..] == [];
      StripNone();
      assert p + [] == p;
      DecodeEnd(p, strict);
      r := if state != 0 then -1 else tarindex;
      assert done + [] == done;
    }
  }

  /** After a pad character. */
  method Finish(t: bytes, i: nat, target: array?<byte>, state: nat, tarindex: nat, ghost done: bytes, ghost p: bytes)
    returns (r: int)
    requires i <= |t| && state == |p| && Holds(target, tarindex, done, p)
    ensures r == if state >= 2 && Strip(t[i..]) == (if state == 2 then [PAD] else [])
                    && (target != null ==> Spare(p) == 0) then tarindex else -1
  {
    hide Strip, Partial, Spare, Value;
    if state < 2 {
      return -1;
    }
    var j := i;
    if state == 2 {
      j := SkipSpace(t, j);
      if j == |t| || t[j] != PAD {
        if j < |t| {
          StripSpace(t, j);
          assert Strip(t[j..])[0] == t[j];
        }
        return -1;
      }
      StripSpace(t, j);
      j := j + 1;
    }
    j := SkipSpace(t, j);
    if j < |t| {
      return -1;
    }
    if target != null && tarindex < target.Length && target[tarindex] != 0 {
      return -1;
    }
    return tarindex;
  }

  lemma DecodeEnd(p: bytes, strict: bool)
    requires |p| < 4 && Digits(p)
    ensures Decode(p, strict) == if p == [] then Some([]) else None
  {
    if p != [] {
      DecodeCut(p, strict);
    }
  }

  /** One digit more. */
  lemma Advance(done: bytes, p: bytes, c: byte, r: bytes, strict: bool, d: Option<bytes>)
    requires |p| < 4 && Digits(p) && IsDigit64(c) && d == Prepend(done, Decode(p + ([c] + r), strict))
    ensures d == if |p| < 3 then Prepend(done, Decode(p + [c] + r, strict))
                 else Prepend(done + Partial(p + [c]), Decode([] + r, strict))
    ensures strict ==> forall target: array<byte> :: Full(target, |done + Partial(p)|, p + [c]) ==> Outcome(d, target) == -1
  {
    hide Decode, Spare, Value;
    Rejoin(p, c, r);
    var q := p + [c];
    if |p| == 3 {
      DecodeFull(q, r, strict);
      assert [] + r == r;
      PrependTwice(done, Partial(q), Decode(r, strict));
    }
    if Decode(q + r, strict).Some? {
      DecodeLeast(q, r, strict);
    }
  }

  lemma PrependTwice(a: bytes, b: bytes, d: Option<bytes>)
    ensures Prepend(a, Prepend(b, d)) == Prepend(a + b, d)
  {
    if d.Some? {
      assert a + (b + d.value) == a + b + d.value;
    }
  }

  lemma NoPartial()
    ensures Partial([]) == []
  {
  }

  lemma PrependNone(d: Option<bytes>)
    ensures Prepend([], d) == d
  {
    if d.Some? {
      assert [] + d.value == d.value;
    }
  }

  lemma Rejoin(p: bytes, c: byte, r: bytes)
    ensures p + ([c] + r) == p + [c] + r
  {
  }

  // ------------------------------------------------------------------
  // The two routines together.

  predicate Plain(t: bytes) {
    forall i :: 0 <= i < |t| ==> t[i] != NUL && !IsSpace(t[i])
  }

  lemma QuantumPlain(a: byte, b: byte, c: byte)
    ensures Plain(Quantum(a, b, c))
  {
    hide IsSpace;
    var (x, y, z) := (a as nat, b as nat, c as nat);
    ValueOfLetter(x / 4);
    ValueOfLetter(x % 4 * 16 + y / 16);
    ValueOfLetter(y % 16 * 4 + z / 64);
    ValueOfLetter(z % 64);
  }

  lemma {:induction false} EncodePlain(s: bytes)
    ensures Plain(Encode(s))
  {
    hide Quantum, Encode;
    EncodeMore(s);
    if s != [] {
      QuantumPlain(s[0], if |s| > 1 then s[1] else 0, if |s| > 2 then s[2] else 0);
      if |s| > 2 {
        EncodePlain(s[3..]);
      }
    }
  }

  lemma {:induction false} StripPlain(t: bytes)
    requires Plain(t)
    ensures Strip(t) == t
  {
    if t != [] {
      StripPlain(t[1..]);
    }
  }

  /** What the encoder leaves in its target, the decoder takes back, whatever follows the terminator. */
  lemma PtonOfNtop(s: bytes, x: bytes, strict: bool)
    requires Encode(s) + [NUL] <= x
    ensures Decode(Strip(CStr(x)), strict) == Some(s)
  {
    hide Encode, Decode, CStr, Strip;
    var t := Encode(s);
    EncodePlain(s);
    StripPlain(t);
    assert x[..|t|] == t && x[|t|] == (t + [NUL])[|t|];
    CStrOf(x, |t|);
    DecodeEncode(s, strict);
  }

  /** The last character before the pad has bits that no octet takes, and they are not zero. */
  predicate SpareSet(t: bytes) {
    && |t| >= 4
    && var q := t[|t| - 4..];
       && q[3] == PAD
       && if q[2] == PAD then Value(q[1]) % 16 != 0 else Value(q[2]) % 4 != 0
  }

  /**
   * Strict decoding refuses exactly the texts with spare bits that are not zero among those that
   * lenient decoding takes, and reads the others in the same way.
   */
  lemma {:induction false} SpareExact(t: bytes)
    ensures Decode(t, true) == if SpareSet(t) then None else Decode(t, false)
  {
    hide Value, First, Second, Third;
    PadIsNoDigit();
    if |t| >= 4 {
      if t[2..] == [PAD, PAD] {
        assert t[3] == t[2..][1] && t[2] == t[2..][0];
      } else if t[3..] == [PAD] {
        assert t[3] == t[3..][0];
        assert t[2..] == [t[2]] + t[3..];
      } else {
        SpareExact(t[4..]);
        SpareLater(t);
      }
    }
  }

  lemma SpareLater(t: bytes)
    requires |t| >= 4
    ensures |t| >= 8 ==> (SpareSet(t) <==> SpareSet(t[4..]))
  {
    assert |t| >= 8 ==> t[4..][|t| - 8..] == t[|t| - 4..];
  }

  /** Without a target, a text with spare bits that are not zero is counted too: "QR==" as one octet. */
  lemma SpareBitsUnseen()
    ensures var t := [Letter(16), Letter(17), PAD, PAD];
            Decode(t, false) == Some([65]) && Decode(t, true) == None
  {
    hide Value;
    ValueOfLetter(16);
    ValueOfLetter(17);
  }
}
