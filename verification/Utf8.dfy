/** UTF-8 as the image of the encoder of RFC 3629, section 3, against the folder's recogniser. */
module Utf8 {
  import opened Octets
  import opened IcalFold

  ghost predicate Scalar(u: int) {
    0 <= u < 0xD800 || 0xE000 <= u <= 0x10FFFF
  }

  ghost function EncodeChar(u: int): (r: bytes)
    requires Scalar(u)
    ensures r != []
  {
    if u < 0x80 then
      [u as byte]
    else if u < 0x800 then
      [(0xC0 + u / 0x40) as byte, (0x80 + u % 0x40) as byte]
    else if u < 0x10000 then
      [(0xE0 + u / 0x1000) as byte, (0x80 + u / 0x40 % 0x40) as byte, (0x80 + u % 0x40) as byte]
    else
      [(0xF0 + u / 0x40000) as byte, (0x80 + u / 0x1000 % 0x40) as byte,
       (0x80 + u / 0x40 % 0x40) as byte, (0x80 + u % 0x40) as byte]
  }

  ghost predicate Scalars(us: seq<int>) {
    forall i :: 0 <= i < |us| ==> Scalar(us[i])
  }

  ghost function Encode(us: seq<int>): bytes
    requires Scalars(us)
  {
    if us == [] then [] else EncodeChar(us[0]) + Encode(us[1..])
  }

  ghost predicate WellFormed(s: bytes) {
    exists us :: Scalars(us) && Encode(us) == s
  }

  lemma UnitIsThree(u: int, t: bytes)
    requires Scalar(u) && 0x800 <= u < 0x10000
    ensures UnitLen(EncodeChar(u) + t) == 3
  {
    var v := u / 0x40;
    assert u / 0x1000 == v / 0x40;
    assert v >= 0x20 && v / 0x40 < 0x10 && (v < 0x360 || v >= 0x380);
  }

  lemma UnitIsFour(u: int, t: bytes)
    requires Scalar(u) && u >= 0x10000
    ensures UnitLen(EncodeChar(u) + t) == 4
  {
    var v := u / 0x1000;
    assert u / 0x40000 == v / 0x40;
    assert 0x10 <= v < 0x110;
  }

  /** The recogniser takes exactly one whole character off a well-formed string. */
  lemma UnitIsChar(u: int, t: bytes)
    requires Scalar(u)
    ensures UnitLen(EncodeChar(u) + t) == |EncodeChar(u)|
  {
    if u >= 0x10000 {
      UnitIsFour(u, t);
    } else if u >= 0x800 {
      UnitIsThree(u, t);
    }
  }

  /** And a unit of several octets is always a character. */
  lemma UnitDecodes(s: bytes)
    requires s != [] && UnitLen(s) > 1
    ensures WellFormed(s[..UnitLen(s)])
  {
    var n := UnitLen(s);
    var a, b, c, d := s[0] as int, s[1] as int, At(s, 2) as int, At(s, 3) as int;
    var u;
    if n == 2 {
      u := EncodesTwo(a - 0xC0, b - 0x80);
    } else if n == 3 {
      u := EncodesThree(a - 0xE0, b - 0x80, c - 0x80);
    } else {
      u := EncodesFour(a - 0xF0, b - 0x80, c - 0x80, d - 0x80);
    }
    assert EncodeChar(u) == s[..n];
    EncodeOne(u);
  }

  lemma EncodesTwo(a: int, b: int) returns (u: int)
    requires 2 <= a < 0x20 && 0 <= b < 0x40
    ensures Scalar(u) && EncodeChar(u) == [(0xC0 + a) as byte, (0x80 + b) as byte]
  {
    u := a * 0x40 + b;
  }

  lemma EncodesThree(a: int, b: int, c: int) returns (u: int)
    requires 0 <= a < 0x10 && 0 <= b < 0x40 && 0 <= c < 0x40
    requires (a == 0 ==> 0x20 <= b) && (a == 0xD ==> b < 0x20)
    ensures Scalar(u) && EncodeChar(u) == [(0xE0 + a) as byte, (0x80 + b) as byte, (0x80 + c) as byte]
  {
    u := a * 0x1000 + b * 0x40 + c;
    assert u / 0x40 == a * 0x40 + b;
  }

  lemma EncodesFour(a: int, b: int, c: int, d: int) returns (u: int)
    requires 0 <= a < 5 && 0 <= b < 0x40 && 0 <= c < 0x40 && 0 <= d < 0x40
    requires (a == 0 ==> 0x10 <= b) && (a == 4 ==> b < 0x10)
    ensures Scalar(u)
    ensures EncodeChar(u) == [(0xF0 + a) as byte, (0x80 + b) as byte, (0x80 + c) as byte, (0x80 + d) as byte]
  {
    u := a * 0x40000 + b * 0x1000 + c * 0x40 + d;
    assert u / 0x40 == a * 0x1000 + b * 0x40 + c;
    assert u / 0x1000 == a * 0x40 + b;
  }

  lemma EncodeOne(u: int)
    requires Scalar(u)
    ensures WellFormed(EncodeChar(u))
  {
    assert Encode([u]) == EncodeChar(u) + Encode([]);
  }

  lemma {:induction false} EncodeConcat(a: seq<int>, b: seq<int>)
    requires Scalars(a) && Scalars(b)
    ensures Scalars(a + b) && Encode(a + b) == Encode(a) + Encode(b)
  {
    hide EncodeChar;
    if a == [] {
      assert a + b == b && [] + Encode(b) == Encode(b);
    } else {
      assert (a + b)[1..] == a[1..] + b;
      EncodeConcat(a[1..], b);
      assert EncodeChar(a[0]) + (Encode(a[1..]) + Encode(b)) == Encode(a) + Encode(b);
    }
  }

  lemma WellFormedConcat(a: bytes, b: bytes)
    requires WellFormed(a) && WellFormed(b)
    ensures WellFormed(a + b)
  {
    var us :| Scalars(us) && Encode(us) == a;
    var vs :| Scalars(vs) && Encode(vs) == b;
    EncodeConcat(us, vs);
  }

  lemma WellFormedAscii(c: byte)
    requires c < 0x80
    ensures WellFormed([]) && WellFormed([c])
  {
    assert Encode([]) == [];
    assert EncodeChar(c as int) == [c];
    EncodeOne(c as int);
  }

  ghost predicate AllWellFormed(ps: seq<bytes>) {
    forall i :: 0 <= i < |ps| ==> WellFormed(ps[i])
  }

  lemma AppendWellFormed(ps: seq<bytes>, u: bytes)
    requires ps != [] && AllWellFormed(ps) && WellFormed(u)
    ensures AllWellFormed(Extend(ps, u)) && AllWellFormed(ps + [u])
  {
    hide WellFormed;
    WellFormedConcat(ps[|ps| - 1], u);
  }

  /** Folding never splits a character. */
  lemma {:induction false} PutsWellFormed(ps: seq<bytes>, us: seq<int>)
    requires ps != [] && AllWellFormed(ps) && Scalars(us)
    ensures AllWellFormed(Puts(ps, Encode(us)))
    decreases |us|
  {
    if us != [] {
      var u, s := EncodeChar(us[0]), Encode(us);
      UnitIsChar(us[0], Encode(us[1..]));
      EncodeOne(us[0]);
      AppendWellFormed(ps, u);
      assert s[..|u|] == u && s[|u|..] == Encode(us[1..]);
      PutsWellFormed(Emit(ps, u), us[1..]);
    }
  }

  lemma DelimWellFormed(ps: seq<bytes>, c: byte)
    requires ps != [] && AllWellFormed(ps) && c < 0x80
    ensures AllWellFormed(Delim(ps, c))
  {
    WellFormedAscii(c);
    AppendWellFormed(ps, [c]);
  }
}
