/** Folding of output lines: the pieces between inserted line breaks, and the loops that emit them. */
module IcalFold {
  import opened Octets

  const BREAK: bytes := [CR, LF, SP]

  predicate Cont(c: byte) {
    0x80 <= c <= 0xBF
  }

  /** What a C program finds at offset `i` of a string: its octet, or the terminator. */
  function At(s: bytes, i: nat): byte {
    if i < |s| then s[i] else NUL
  }

  /** Octets of the character at the head of a string, or one if the octets are not UTF-8. */
  function UnitLen(s: bytes): (n: nat)
    requires s != []
    ensures 1 <= n <= 4 && n <= |s|
  {
    var a, b, c, d := s[0], At(s, 1), At(s, 2), At(s, 3);
    if 0xC2 <= a <= 0xDF && Cont(b) then
      2
    else if || (a == 0xE0 && 0xA0 <= b <= 0xBF && Cont(c))
            || ((0xE1 <= a <= 0xEC || a == 0xEE || a == 0xEF) && Cont(b) && Cont(c))
            || (a == 0xED && 0x80 <= b <= 0x9F && Cont(c)) then
      3
    else if || (a == 0xF0 && 0x90 <= b <= 0xBF && Cont(c) && Cont(d))
            || (0xF1 <= a <= 0xF3 && Cont(b) && Cont(c) && Cont(d))
            || (a == 0xF4 && 0x80 <= b <= 0x8F && Cont(c) && Cont(d)) then
      4
    else
      1
  }

  // ------------------------------------------------------------------
  // The line being written, as the pieces between the inserted breaks.

  /** The column: octets since the last break, counting the blank that starts a continuation. */
  function Col(ps: seq<bytes>): nat
    requires ps != []
  {
    |ps[|ps| - 1]| + if |ps| > 1 then 1 else 0
  }

  function Extend(ps: seq<bytes>, u: bytes): (r: seq<bytes>)
    requires ps != []
    ensures r != []
  {
    ps[..|ps| - 1] + [ps[|ps| - 1] + u]
  }

  /** One character: break first if it would reach column 74. */
  function Emit(ps: seq<bytes>, u: bytes): (r: seq<bytes>)
    requires ps != []
    ensures r != []
  {
    if Col(ps) + |u| >= 74 then ps + [u] else Extend(ps, u)
  }

  /** A delimiter: break only in column 74. */
  function Delim(ps: seq<bytes>, c: byte): (r: seq<bytes>)
    requires ps != []
    ensures r != []
  {
    if Col(ps) == 74 then ps + [[c]] else Extend(ps, [c])
  }

  function Puts(ps: seq<bytes>, s: bytes): (r: seq<bytes>)
    requires ps != []
    ensures r != []
    decreases |s|
  {
    if s == [] then ps else Puts(Emit(ps, s[..UnitLen(s)]), s[UnitLen(s)..])
  }

  function Render(ps: seq<bytes>): bytes {
    if ps == [] then [] else if |ps| == 1 then ps[0]
    else Render(ps[..|ps| - 1]) + BREAK + ps[|ps| - 1]
  }

  function Concat(ps: seq<bytes>): bytes {
    if ps == [] then [] else Concat(ps[..|ps| - 1]) + ps[|ps| - 1]
  }

  // ------------------------------------------------------------------
  // What folding keeps.

  lemma Joined(a: bytes, b: bytes, c: bytes)
    ensures a + b + c == a + (b + c)
  {
  }

  lemma LastPiece(ps: seq<bytes>, u: bytes)
    ensures Concat(ps + [u]) == Concat(ps) + u
    ensures Render(ps + [u]) == if ps == [] then u else Render(ps) + BREAK + u
  {
    assert (ps + [u])[..|ps|] == ps;
  }

  lemma ExtendText(ps: seq<bytes>, u: bytes)
    requires ps != []
    ensures Concat(Extend(ps, u)) == Concat(ps) + u == Concat(ps + [u])
    ensures Render(Extend(ps, u)) == Render(ps) + u
    ensures Render(ps + [u]) == Render(ps) + BREAK + u
  {
    hide Concat, Render;
    var n := |ps| - 1;
    var front, last := ps[..n], ps[n];
    assert ps == front + [last];
    LastPiece(ps, u);
    LastPiece(front, last);
    LastPiece(front, last + u);
    Joined(Concat(front), last, u);
    Joined(Render(front) + BREAK, last, u);
  }

  lemma EmitText(ps: seq<bytes>, u: bytes)
    requires ps != []
    ensures Concat(Emit(ps, u)) == Concat(ps) + u
    ensures Col(Emit(ps, u)) == |u| + if Col(ps) + |u| >= 74 then 1 else Col(ps)
    ensures Render(Emit(ps, u)) == if Col(ps) + |u| >= 74 then Render(ps) + BREAK + u else Render(ps) + u
  {
    ExtendText(ps, u);
  }

  lemma DelimText(ps: seq<bytes>, c: byte)
    requires ps != []
    ensures Concat(Delim(ps, c)) == Concat(ps) + [c]
    ensures Col(Delim(ps, c)) == 1 + if Col(ps) == 74 then 1 else Col(ps)
    ensures Render(Delim(ps, c)) == if Col(ps) == 74 then Render(ps) + BREAK + [c] else Render(ps) + [c]
  {
    ExtendText(ps, [c]);
  }

  lemma PutsCons(ps: seq<bytes>, s: bytes)
    requires ps != [] && s != []
    ensures var n := UnitLen(s); Puts(ps, s) == Puts(Emit(ps, s[..n]), s[n..])
  {
  }

  lemma PutsEnd(ps: seq<bytes>)
    requires ps != []
    ensures Puts(ps, []) == ps
  {
  }

  /** For any octets at all, taking the inserted breaks out restores the input. */
  lemma {:induction false} PutsKeepsText(ps: seq<bytes>, s: bytes)
    requires ps != []
    ensures Concat(Puts(ps, s)) == Concat(ps) + s
    decreases |s|
  {
    hide Puts, UnitLen, Emit, Concat, Col, Render;
    if s == [] {
      PutsEnd(ps);
      assert Concat(ps) + [] == Concat(ps);
    } else {
      var u, t := s[..UnitLen(s)], s[UnitLen(s)..];
      assert u + t == s;
      PutsCons(ps, s);
      EmitText(ps, u);
      PutsKeepsText(Emit(ps, u), t);
      Joined(Concat(ps), u, t);
    }
  }

  /** No line is longer than 74 octets, so a delimiter never steps over column 74. */
  ghost predicate Bounded(ps: seq<bytes>) {
    && ps != []
    && |ps[0]| <= 74
    && forall i :: 0 < i < |ps| ==> |ps[i]| <= 73
  }

  lemma {:induction false} PutsBounded(ps: seq<bytes>, s: bytes)
    requires Bounded(ps)
    ensures Bounded(Puts(ps, s))
    ensures s != [] ==> Col(Puts(ps, s)) < 74
    decreases |s|
  {
    if s != [] {
      var n := UnitLen(s);
      var q := Emit(ps, s[..n]);
      assert Bounded(q) && Col(q) < 74;
      PutsBounded(q, s[n..]);
    }
  }

  lemma DelimBounded(ps: seq<bytes>, c: byte)
    requires Bounded(ps)
    ensures Bounded(Delim(ps, c))
  {
  }

  ghost predicate Free(ps: seq<bytes>, x: byte) {
    forall i :: 0 <= i < |ps| ==> x !in ps[i]
  }

  lemma {:induction false} PutsFree(ps: seq<bytes>, s: bytes, x: byte)
    requires ps != [] && x !in s && Free(ps, x)
    ensures Free(Puts(ps, s), x)
    decreases |s|
  {
    if s != [] {
      var n := UnitLen(s);
      assert x !in s[..n];
      assert Free(Emit(ps, s[..n]), x);
      PutsFree(Emit(ps, s[..n]), s[n..], x);
    }
  }

  lemma {:induction false} PutsGrows(ps: seq<bytes>, s: bytes)
    requires ps != []
    ensures Render(ps) <= Render(Puts(ps, s))
    decreases |s|
  {
    if s != [] {
      var u := s[..UnitLen(s)];
      ExtendText(ps, u);
      PutsGrows(Emit(ps, u), s[UnitLen(s)..]);
    }
  }

  // ------------------------------------------------------------------
  // When lines are folded, and not before.

  /** Every line but the last has at least 70 of its 74 columns filled. */
  ghost predicate Filled(ps: seq<bytes>) {
    forall i :: 0 <= i < |ps| - 1 ==> |ps[i]| + (if i > 0 then 1 else 0) >= 70
  }

  lemma {:induction false} PutsFilled(ps: seq<bytes>, s: bytes)
    requires ps != [] && Filled(ps)
    ensures Filled(Puts(ps, s)) && |Puts(ps, s)| >= |ps|
    decreases |s|
  {
    hide Puts, UnitLen;
    if s == [] {
      PutsEnd(ps);
    } else {
      PutsCons(ps, s);
      PutsFilled(Emit(ps, s[..UnitLen(s)]), s[UnitLen(s)..]);
    }
  }

  lemma DelimFilled(ps: seq<bytes>, c: byte)
    requires ps != [] && Filled(ps)
    ensures Filled(Delim(ps, c)) && |Delim(ps, c)| >= |ps|
  {
  }

  /** A string stays on its line exactly if it ends before column 74. */
  lemma {:induction false} PutsOnOneLine(p: bytes, s: bytes)
    ensures |Puts([p], s)| == 1 <==> s == [] || |p| + |s| < 74
    ensures |Puts([p], s)| == 1 ==> Puts([p], s) == [p + s]
    decreases |s|
  {
    hide Puts, UnitLen;
    if s == [] {
      PutsEnd([p]);
      assert p + [] == p;
    } else {
      var u, t := s[..UnitLen(s)], s[UnitLen(s)..];
      PutsCons([p], s);
      if |p| + |u| >= 74 {
        PutsFilled(Emit([p], u), t);
      } else {
        assert Emit([p], u) == [p + u];
        PutsOnOneLine(p + u, t);
        assert s == u + t;
        Joined(p, u, t);
      }
    }
  }

  lemma DelimOnOneLine(p: bytes, c: byte)
    ensures |Delim([p], c)| == 1 <==> |p| != 74
    ensures |p| != 74 ==> Delim([p], c) == [p + [c]]
  {
  }
}
