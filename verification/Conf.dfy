/** Lines of the configuration file, rewritten in place: escapes, comments, and trailing white space. */
module Conf {
  import opened Octets

  // ------------------------------------------------------------------
  // What a line means.

  /** An escaped hash is a hash, and the first other one ends the text. */
  function Unescape(s: bytes): bytes {
    if s == [] || s[0] == HASH then []
    else if s[0] == BACKSLASH && |s| > 1 && s[1] == HASH then [HASH] + Unescape(s[2..])
    else [s[0]] + Unescape(s[1..])
  }

  /** There is a comment. */
  predicate Cuts(s: bytes) {
    if s == [] then false
    else if s[0] == HASH then true
    else if s[0] == BACKSLASH && |s| > 1 && s[1] == HASH then Cuts(s[2..])
    else Cuts(s[1..])
  }

  /** How many escaped hashes there are before the comment or the end. */
  function Escapes(s: bytes): nat {
    if s == [] || s[0] == HASH then 0
    else if s[0] == BACKSLASH && |s| > 1 && s[1] == HASH then 1 + Escapes(s[2..])
    else Escapes(s[1..])
  }

  function TrimRight(s: bytes): (r: bytes)
    ensures r <= s
    ensures r != [] ==> !IsSpace(r[|r| - 1])
  {
    if s == [] || !IsSpace(s[|s| - 1]) then s else TrimRight(s[..|s| - 1])
  }

  function TrimLeft(s: bytes): bytes {
    if s == [] || !IsSpace(s[0]) then s else TrimLeft(s[1..])
  }

  function Repeat(c: byte, n: nat): (r: bytes)
    ensures |r| == n && forall i :: 0 <= i < n ==> r[i] == c
  {
    seq(n, i => c)
  }

  /**
   * What the rewriting leaves: each shift duplicates the last octet of the line, and the duplicates
   * stay unless a comment ends the text before them.
   */
  function Rewritten(s: bytes): bytes
    requires s != []
  {
    var c := s[|s| - 1];
    if Cuts(s) || c == HASH then TrimRight(Unescape(s))
    else TrimRight(Unescape(s) + Repeat(c, Escapes(s)))
  }

  /** The rewriting is right exactly if duplicates are cut off, or trimmed, or there are none. */
  lemma RewrittenMeans(s: bytes)
    requires s != []
    ensures var c := s[|s| - 1];
            Rewritten(s) == TrimRight(Unescape(s)) <==> Cuts(s) || c == HASH || IsSpace(c) || Escapes(s) == 0
  {
    var c := s[|s| - 1];
    var u, n := Unescape(s), Escapes(s);
    TrimRepeat(u, c, n);
    if !IsSpace(c) && n > 0 {
      var v := u + Repeat(c, n);
      assert v[|v| - 1] == c;
      assert TrimRight(v) == v;
      assert |TrimRight(u)| <= |u| < |v|;
    }
    assert Repeat(c, 0) == [] && u + [] == u;
  }

  /** So it is right for every line that ends with a line feed. */
  lemma TerminatedRight(s: bytes)
    requires s != [] && s[|s| - 1] == LF
    ensures Rewritten(s) == TrimRight(Unescape(s))
  {
    RewrittenMeans(s);
  }

  /** A last line without line feed can go wrong: an escaped hash between letters doubles the last one. */
  lemma UnterminatedWrong()
    ensures var s: bytes := [97, BACKSLASH, HASH, 98];
            Rewritten(s) == [97, HASH, 98, 98] && TrimRight(Unescape(s)) == [97, HASH, 98]
  {
    var s: bytes := [97, BACKSLASH, HASH, 98];
    assert s[1..] == [BACKSLASH, HASH, 98] && s[1..][2..] == [98] && [98 as byte][1..] == [];
    assert Unescape([98]) == [98] && Escapes([98]) == 0 && !Cuts([98]);
    assert Unescape(s[1..]) == [HASH, 98] && Escapes(s[1..]) == 1;
    assert Unescape(s) == [97, HASH, 98] && Escapes(s) == 1 && !Cuts(s);
    assert [97, HASH, 98] + Repeat(98, 1) == [97, HASH, 98, 98];
  }

  // The same in octets: 35 is the hash, 92 the backslash, 61 the sign between key and value.

  lemma UnescapeFirst(s: bytes)
    requires s != []
    ensures s[0] == 35 ==> Unescape(s) == [] && Cuts(s) && Escapes(s) == 0
    ensures s[0] == 92 && |s| > 1 && s[1] == 35 ==>
              && Unescape(s) == [35] + Unescape(s[2..]) && Cuts(s) == Cuts(s[2..]) && Escapes(s) == 1 + Escapes(s[2..])
    ensures s[0] != 35 && !(s[0] == 92 && |s| > 1 && s[1] == 35) ==>
              && Unescape(s) == [s[0]] + Unescape(s[1..]) && Cuts(s) == Cuts(s[1..]) && Escapes(s) == Escapes(s[1..])
  {
  }

  /** The text up to the first hash, which ends it unless a backslash comes before. */
  lemma {:induction false} UnescapeMeans(s: bytes)
    ensures var e := Span(s, 35);
            if e == |s| then Unescape(s) == s && !Cuts(s) && Escapes(s) == 0
            else if e > 0 && s[e - 1] == 92 then
              && Unescape(s) == s[..e - 1] + [35] + Unescape(s[e + 1..])
              && Cuts(s) == Cuts(s[e + 1..]) && Escapes(s) == 1 + Escapes(s[e + 1..])
            else Unescape(s) == s[..e] && Cuts(s) && Escapes(s) == 0
  {
    hide Unescape, Cuts, Escapes, Span;
    if s == [] {
      NothingToUnescape();
    } else {
      var e, t := Span(s, 35), s[1..];
      UnescapeFirst(s);
      if s[0] == 35 {
        SpanUnique(s, 35, 0);
      } else {
        SpanNext(s, 35);
        UnescapeMeans(t);
        if e < |s| {
          assert t[e..] == s[e + 1..] && s[e - 1] == ([s[0]] + t)[e - 1];
        }
        if s[0] == 92 && |s| > 1 && s[1] == 35 {
          SpanUnique(t, 35, 0);
          assert s[..0] + [35] + Unescape(s[2..]) == [35] + Unescape(s[2..]);
        } else if e < |s| && e > 1 && s[e - 1] == 92 {
          assert [s[0]] + (t[..e - 2] + [35] + Unescape(t[e..])) == s[..e - 1] + [35] + Unescape(s[e + 1..]);
        }
      }
    }
  }

  lemma NothingToUnescape()
    ensures Unescape([]) == [] && !Cuts([]) && Escapes([]) == 0 && Span([], 35) == 0
  {
  }

  lemma SpanNext(s: bytes, c: byte)
    requires s != [] && s[0] != c
    ensures Span(s, c) == 1 + Span(s[1..], c)
  {
  }

  /** A line without hash is only trimmed, and one that a plain hash cuts is what comes before it, trimmed. */
  lemma PlainLines(s: bytes)
    requires s != []
    ensures 35 !in s ==> Rewritten(s) == TrimRight(s)
    ensures var e := Span(s, 35);
            e < |s| && (e == 0 || s[e - 1] != 92) ==> Rewritten(s) == TrimRight(s[..e])
  {
    hide Unescape, Cuts, Escapes, Span, TrimRight;
    UnescapeMeans(s);
    assert 35 !in s ==> Span(s, 35) == |s|;
    assert s + Repeat(s[|s| - 1], 0) == s;
  }

  /** "a # b" is cut to "a", and "a\#b" comes out as "a#b". */
  lemma TwoLines()
    ensures Rewritten([97, 32, 35, 98, 10]) == [97]
    ensures Rewritten([97, 92, 35, 98, 10]) == [97, 35, 98]
  {
    hide Rewritten, Unescape, Cuts, Escapes, Span, TrimRight;
    var s: bytes := [97, 32, 35, 98, 10];
    SpanUnique(s, 35, 2);
    assert s[..2] == [97, 32];
    PlainLines(s);
    TrimEnd([97], 32);
    assert [97 as byte] + [32] == [97, 32];
    var t: bytes := [97, 92, 35, 98, 10];
    SpanUnique(t, 35, 2);
    UnescapeMeans(t);
    var u: bytes := [98, 10];
    assert t[3..] == u && t[..1] == [97];
    SpanUnique(u, 35, 2);
    UnescapeMeans(u);
    TerminatedRight(t);
    assert [97 as byte] + [35] + u == [97, 35, 98] + [10];
    TrimEnd([97, 35, 98], 10);
  }

  lemma TrimEnd(s: bytes, c: byte)
    requires s != [] && IsSpace(c) && !IsSpace(s[|s| - 1])
    ensures TrimRight(s + [c]) == s
  {
    assert (s + [c])[..|s|] == s;
  }

  /** White space is 9 to 13 and 32. */
  predicate Blank(w: bytes) {
    forall i :: 0 <= i < |w| ==> w[i] in [9, 10, 11, 12, 13, 32]
  }

  lemma TrimBlank(w: bytes, t: bytes)
    requires Blank(w)
    ensures TrimLeft(w + t) == TrimLeft(t) && TrimRight(t + w) == TrimRight(t)
  {
    TrimBlankLeft(w, t);
    TrimBlankRight(w, t);
  }

  lemma {:induction false} TrimBlankLeft(w: bytes, t: bytes)
    requires Blank(w)
    ensures TrimLeft(w + t) == TrimLeft(t)
  {
    hide TrimLeft;
    if w == [] {
      assert w + t == t;
    } else {
      TrimBlankLeft(w[1..], t);
      assert (w + t)[1..] == w[1..] + t && (w + t)[0] == w[0];
      TrimLeftStep(w + t);
    }
  }

  lemma {:induction false} TrimBlankRight(w: bytes, t: bytes)
    requires Blank(w)
    ensures TrimRight(t + w) == TrimRight(t)
  {
    hide TrimRight;
    if w == [] {
      assert t + w == t;
    } else {
      var n := |w| - 1;
      TrimBlankRight(w[..n], t);
      assert (t + w)[..|t| + n] == t + w[..n] && (t + w)[|t| + n] == w[n];
      TrimStep(t + w);
    }
  }

  /** A word: not empty, with no white space at either end. */
  predicate Word(k: bytes) {
    k != [] && k[0] !in [9, 10, 11, 12, 13, 32] && k[|k| - 1] !in [9, 10, 11, 12, 13, 32]
  }

  /** A key and a value around the first sign, with white space anywhere between, are the key and the value. */
  lemma KeyValMeans(w: bytes, k: bytes, x: bytes, y: bytes, v: bytes)
    requires Blank(w) && Blank(x) && Blank(y) && Word(k) && (v == [] || Word(v)) && 61 !in k
    ensures KeyVal(w + k + x + [61] + y + v) == Some((k, v))
  {
    hide TrimLeft, TrimRight, Span;
    var r := y + v;
    var u := k + x + [61] + r;
    var t := w + k + x + [61] + y + v;
    assert t == w + u;
    TrimBlank(w, u);
    WordStays(k, x + [61] + r);
    assert u == k + (x + [61] + r);
    assert 61 !in k + x;
    assert u[..|k + x|] == k + x && u[|k + x|] == 61 && u[|k + x| + 1..] == r;
    SpanUnique(u, 61, |k + x|);
    TrimBlank(x, k);
    TrimBlank(y, v);
    WordStays(k, []);
    assert k + [] == k;
    if v == [] {
      NothingToTrim();
    } else {
      WordStays(v, []);
      assert v + [] == v;
    }
  }

  lemma WordStays(k: bytes, r: bytes)
    requires Word(k)
    ensures TrimLeft(k + r) == k + r && TrimRight(k) == k
  {
  }

  lemma NothingToTrim()
    ensures TrimLeft([]) == []
  {
  }

  /** Without the sign there is no key, and neither is there one in front of it. */
  lemma NoKey(w: bytes, t: bytes)
    requires Blank(w)
    ensures 61 !in t ==> KeyVal(t) == None
    ensures KeyVal(w + [61] + t) == None
  {
    hide TrimLeft, TrimRight, Span;
    if 61 !in t {
      TrimKeeps(t);
      var u := TrimLeft(t);
      assert u[..|u|] == u;
      SpanUnique(u, 61, |u|);
    }
    var u := [61] + t;
    assert w + [61] + t == w + u;
    TrimBlank(w, u);
    WordStays([61], t);
    SpanUnique(u, 61, 0);
  }

  lemma {:induction false} TrimKeeps(t: bytes)
    ensures forall c :: c in TrimLeft(t) ==> c in t
  {
    if t != [] && IsSpace(t[0]) {
      TrimKeeps(t[1..]);
    }
  }

  lemma {:induction false} TrimRepeat(u: bytes, c: byte, n: nat)
    ensures IsSpace(c) ==> TrimRight(u + Repeat(c, n)) == TrimRight(u)
  {
    if n == 0 {
      assert u + Repeat(c, 0) == u;
    } else {
      TrimRepeat(u, c, n - 1);
      var v := u + Repeat(c, n);
      assert v[..|v| - 1] == u + Repeat(c, n - 1) && v[|v| - 1] == c;
    }
  }

  // ------------------------------------------------------------------
  // The scan.

  /** The backslash just passed, if there is one. */
  function Pending(b: bytes, i: nat): bytes
    requires i <= |b|
  {
    if i > 0 && b[i - 1] == BACKSLASH then [BACKSLASH] else []
  }

  /** Position `i` of the line `s` after `k` shifts: the rest of `s`, and `k` duplicates, are to come. */
  ghost predicate Scanning(s: bytes, b: bytes, i: nat, k: nat)
    requires s != []
  {
    && |b| == |s| && i + k <= |s|
    && b[i..] == s[i + k..] + Repeat(s[|s| - 1], k)
    && (i > 0 ==> k + i == |s| ==> b[i - 1] == s[|s| - 1])
    && var p := Pending(b, i);
       var rest := p + s[i + k..];
       && Unescape(s) == b[..i - |p|] + Unescape(rest)
       && Cuts(s) == Cuts(rest) && Escapes(s) == k + Escapes(rest)
  }

  /** Past the end of `s`, among the duplicates. */
  ghost predicate Trailing(s: bytes, b: bytes, i: nat, k: nat)
    requires s != []
  {
    var c := s[|s| - 1];
    && |b| == |s| && i <= |s| < i + k && c != HASH && !Cuts(s) && Escapes(s) == k
    && b == Unescape(s) + Repeat(c, k) && |b| == |Unescape(s)| + k
  }

  lemma ScanStart(s: bytes)
    requires s != []
    ensures Scanning(s, s, 0, 0)
  {
    assert s[0..] == s && s + Repeat(s[|s| - 1], 0) == s && [] + s == s && s[..0] + Unescape(s) == Unescape(s);
  }

  /** A backslash that no hash follows, and any other octet but a hash. */
  lemma UnescapePlain(p: bytes, c: byte, r: bytes)
    requires (p == [] || p == [BACKSLASH]) && c != HASH
    ensures Unescape(p + [c] + r) == p + Unescape([c] + r)
    ensures Cuts(p + [c] + r) == Cuts([c] + r) && Escapes(p + [c] + r) == Escapes([c] + r)
    ensures c != BACKSLASH ==> Unescape([c] + r) == [c] + Unescape(r) && Cuts([c] + r) == Cuts(r)
    ensures c != BACKSLASH ==> Escapes([c] + r) == Escapes(r)
  {
    var x, y := p + [c] + r, [c] + r;
    assert y[1..] == r;
    if p == [] {
      assert x == y;
    } else {
      assert x[1..] == y && x[0] == BACKSLASH && x[1] == c;
    }
  }

  lemma UnescapeHash(r: bytes)
    ensures Unescape([HASH] + r) == [] && Cuts([HASH] + r) && Escapes([HASH] + r) == 0
    ensures var x := [BACKSLASH] + ([HASH] + r);
            Unescape(x) == [HASH] + Unescape(r) && Cuts(x) == Cuts(r) && Escapes(x) == 1 + Escapes(r)
  {
    assert ([BACKSLASH] + ([HASH] + r))[2..] == r;
  }

  lemma ScanPlain(s: bytes, b: bytes, i: nat, k: nat)
    requires s != [] && Scanning(s, b, i, k) && i + k < |s| && b[i] != HASH
    ensures Scanning(s, b, i + 1, k)
  {
    hide Unescape, Cuts, Escapes, Repeat, Pending;
    var p, c, r := Pending(b, i), b[i], s[i + k + 1..];
    NextOctet(s, b, i, k, Repeat(s[|s| - 1], k));
    PendingIs(b, i);
    PendingIs(b, i + 1);
    UnescapePlain(p, c, r);
    assert p + s[i + k..] == p + [c] + r;
    PlainText(b, i, c, p, r);
  }

  lemma NextOctet(s: bytes, b: bytes, i: nat, k: nat, d: bytes)
    requires |b| == |s| && i + k < |s| && b[i..] == s[i + k..] + d
    ensures s[i + k..] == [b[i]] + s[i + k + 1..] && b[i + 1..] == s[i + k + 1..] + d
  {
    assert b[i] == b[i..][0] == s[i + k..][0];
    assert b[i + 1..] == b[i..][1..];
  }

  lemma PendingIs(b: bytes, i: nat)
    requires i <= |b|
    ensures Pending(b, i) == [] || (Pending(b, i) == [BACKSLASH] && i > 0)
  {
  }

  lemma PlainText(b: bytes, i: nat, c: byte, p: bytes, r: bytes)
    requires i < |b| && c == b[i] != HASH && p == Pending(b, i)
    ensures var q := Pending(b, i + 1);
            && b[..i - |p|] + (p + Unescape([c] + r)) == b[..i + 1 - |q|] + Unescape(q + r)
            && Cuts([c] + r) == Cuts(q + r) && Escapes([c] + r) == Escapes(q + r)
  {
    hide Unescape, Cuts, Escapes;
    UnescapePlain([], c, r);
    assert b[..i - |p|] + p == b[..i];
    if c == BACKSLASH {
      assert b[..i - |p|] + (p + Unescape([c] + r)) == b[..i] + Unescape([c] + r);
    } else {
      assert [] + r == r;
      assert b[..i - |p|] + (p + ([c] + Unescape(r))) == b[..i + 1] + Unescape(r);
    }
  }

  lemma ScanCut(s: bytes, b: bytes, i: nat, k: nat)
    requires s != [] && Scanning(s, b, i, k) && i + k < |s| && b[i] == HASH && Pending(b, i) == []
    ensures Cuts(s) && Unescape(s) == b[..i]
  {
    hide Unescape, Cuts, Escapes;
    var r := s[i + k + 1..];
    assert s[i + k..] == [HASH] + r by {
      assert b[i..][0] == HASH;
    }
    UnescapeHash(r);
    assert [] + s[i + k..] == [HASH] + r;
  }

  /** The shift of an escaped hash over its backslash. */
  lemma ScanShift(s: bytes, b: bytes, b': bytes, i: nat, k: nat)
    requires s != [] && Scanning(s, b, i, k) && i + k < |s| && i > 0 && b[i] == HASH && b[i - 1] == BACKSLASH
    requires b' == b[..i - 1] + b[i..] + [b[|b| - 1]]
    ensures Scanning(s, b', i, k + 1)
  {
    hide Unescape, Cuts, Escapes, Repeat, Scanning;
    var r := s[i + k + 1..];
    ScanEscaped(s, b, i, k);
    UnescapeHash(r);
    ShiftedText(b, b', i);
    assert b[..i - 1] + ([HASH] + Unescape(r)) == b[..i - 1] + [HASH] + Unescape(r);
    ScanMade(s, b', i, k + 1);
  }

  /** An escaped hash in the scan. */
  lemma ScanEscaped(s: bytes, b: bytes, i: nat, k: nat)
    requires s != [] && Scanning(s, b, i, k) && i + k < |s| && i > 0 && b[i] == HASH && b[i - 1] == BACKSLASH
    ensures var r, c := s[i + k + 1..], s[|s| - 1];
            && b[|b| - 1] == c && s[i + k] == HASH && |b| == |s|
            && b[i + 1..] + [c] == r + Repeat(c, k + 1)
            && var x := [BACKSLASH] + ([HASH] + r);
               Unescape(s) == b[..i - 1] + Unescape(x) && Cuts(s) == Cuts(x) && Escapes(s) == k + Escapes(x)
  {
    hide Unescape, Cuts, Escapes;
    var r, c := s[i + k + 1..], s[|s| - 1];
    assert b[i..][0] == HASH && b[i..][|b| - i - 1] == b[|b| - 1];
    assert s[i + k..] == [HASH] + r;
    assert b[i + 1..] == b[i..][1..] == r + Repeat(c, k);
    OneMore(r, c, k);
  }

  /** A scan with nothing pending. */
  lemma ScanMade(s: bytes, b: bytes, i: nat, k: nat)
    requires s != [] && |b| == |s| && 0 < i && i + k <= |s| && b[i - 1] == HASH
    requires b[i..] == s[i + k..] + Repeat(s[|s| - 1], k) && s[i + k - 1] == HASH
    requires var r := s[i + k..];
             Unescape(s) == b[..i] + Unescape(r) && Cuts(s) == Cuts(r) && Escapes(s) == k + Escapes(r)
    ensures Scanning(s, b, i, k)
  {
    hide Unescape, Cuts, Escapes;
    NoneLeft([], s[i + k..]);
  }

  lemma ShiftedText(b: bytes, b': bytes, i: nat)
    requires 0 < i < |b| && b' == b[..i - 1] + b[i..] + [b[|b| - 1]]
    ensures |b'| == |b| && b'[i..] == b[i + 1..] + [b[|b| - 1]]
    ensures b'[i - 1] == b[i] && b'[..i] == b[..i - 1] + [b[i]]
  {
  }

  lemma OneMore(r: bytes, c: byte, k: nat)
    ensures r + Repeat(c, k) + [c] == r + Repeat(c, k + 1)
  {
  }

  lemma ScanEnd(s: bytes, b: bytes, i: nat, k: nat)
    requires s != [] && Scanning(s, b, i, k) && i + k == |s|
    ensures !Cuts(s) && Escapes(s) == k && Unescape(s) == b[..i] && b == Unescape(s) + Repeat(s[|s| - 1], k)
    ensures i > 0 && b[i - 1] == s[|s| - 1] && (i < |b| ==> b[i] == s[|s| - 1])
  {
    hide Unescape, Cuts, Escapes, Repeat;
    var p, d := Pending(b, i), Repeat(s[|s| - 1], k);
    var rest := s[i + k..];
    assert rest == [];
    NoneLeft(p, rest);
    NoneLeft(rest, d);
    PendingAlone(p);
    EscapesBelow(s);
    TextSoFar(b, i);
    assert i < |b| ==> b[i..][0] == b[i] == d[0];
  }

  lemma NoneLeft(a: bytes, d: bytes)
    ensures d == [] ==> a + d == a
    ensures a == [] ==> a + d == d
  {
  }

  lemma TextSoFar(b: bytes, i: nat)
    requires i <= |b|
    ensures b[..i - |Pending(b, i)|] + Pending(b, i) == b[..i] && b == b[..i] + b[i..]
  {
  }

  lemma PendingAlone(p: bytes)
    requires p == [] || p == [BACKSLASH]
    ensures Unescape(p) == p && !Cuts(p) && Escapes(p) == 0
  {
  }

  lemma {:induction false} EscapesBelow(s: bytes)
    ensures s != [] ==> Escapes(s) < |s|
  {
    if s != [] && s[0] != HASH {
      if s[0] == BACKSLASH && |s| > 1 && s[1] == HASH {
        EscapesBelow(s[2..]);
      } else {
        EscapesBelow(s[1..]);
      }
    }
  }

  // What the branches of the loop keep.

  ghost predicate Scanned(s: bytes, b: bytes, i: nat, k: nat)
    requires s != []
  {
    Scanning(s, b, i, k) || Trailing(s, b, i, k)
  }

  lemma KeepPlain(s: bytes, b: bytes, i: nat, k: nat)
    requires s != [] && Scanned(s, b, i, k) && i < |b| && b[i] != HASH
    ensures Scanned(s, b, i + 1, k)
  {
    hide Unescape, Cuts, Escapes;
    if Scanning(s, b, i, k) {
      if i + k < |s| {
        ScanPlain(s, b, i, k);
      } else {
        ScanEnd(s, b, i, k);
      }
    }
  }

  lemma KeepCut(s: bytes, b: bytes, i: nat, k: nat)
    requires s != [] && Scanned(s, b, i, k) && i < |b| && b[i] == HASH && (i == 0 || b[i - 1] != BACKSLASH)
    ensures TrimRight(b[..i]) == Rewritten(s)
  {
    hide Unescape, Cuts, Escapes, TrimRight;
    if Scanning(s, b, i, k) {
      if i + k < |s| {
        ScanCut(s, b, i, k);
      } else {
        ScanEnd(s, b, i, k);
      }
    }
  }

  lemma KeepShift(s: bytes, b: bytes, b': bytes, i: nat, k: nat)
    requires s != [] && Scanned(s, b, i, k) && 0 < i < |b| && b[i] == HASH && b[i - 1] == BACKSLASH
    requires b' == b[..i - 1] + b[i..] + [b[|b| - 1]]
    ensures Scanned(s, b', i, k + 1)
  {
    hide Unescape, Cuts, Escapes;
    if Scanning(s, b, i, k) {
      if i + k == |s| {
        ScanEnd(s, b, i, k);
      }
      ScanShift(s, b, b', i, k);
    }
  }

  lemma KeepEnd(s: bytes, b: bytes, k: nat)
    requires s != [] && |b| == |s| && Scanned(s, b, |b|, k)
    ensures TrimRight(b) == Rewritten(s)
  {
    hide Unescape, Cuts, Escapes, TrimRight;
    if Scanning(s, b, |b|, k) {
      ScanEnd(s, b, |b|, k);
      assert b[..|b|] == b;
    }
  }

  /**
   * The loop of conf_read over one line: un-escape, cut at the comment, and trim.  A shift moves
   * neither the terminator nor the end of the line.
   */
  method RewriteLine(line: array<byte>, length: nat) returns (linelen: nat)
    requires 0 < length < line.Length && NUL !in line[..length] && line[length] == NUL
    modifies line
    ensures linelen <= length && NUL !in line[..linelen] && line[linelen] == NUL
    ensures line[..linelen] == Rewritten(old(line[..length]))
  {
    hide Scanned, TrimRight, Rewritten;
    ghost var s, k := line[..length], 0;
    linelen := length;
    var i := 0;
    ScanStart(s);
    StartScanned(s);
    while line[i] != NUL
      invariant i <= linelen == length && line[length] == NUL && NUL !in line[..length]
      invariant Scanned(s, line[..length], i, k)
      decreases 2 * (length - i) + if i > 0 && line[i - 1] == BACKSLASH then 1 else 0
    {
      ghost var b := line[..length];
      if line[i] != HASH {
        KeepPlain(s, b, i, k);
        i := i + 1;
        continue;
      }
      if i == 0 || line[i - 1] != BACKSLASH {
        KeepCut(s, b, i, k);
        line[i] := NUL;
        linelen := i;
        assert line[..i] == b[..i];
        break;
      }
      ShiftLine(line, i, length);
      assert line[..length] == b[..i - 1] + b[i..] + [b[length - 1]];
      KeepShift(s, b, line[..length], i, k);
      k := k + 1;
    }
    if linelen == length && i == length {
      KeepEnd(s, line[..length], k);
    }
    linelen := TrimLine(line, linelen);
  }

  /** memmove(3) of the rest of the line, without its terminator, one place down. */
  method ShiftLine(line: array<byte>, i: nat, length: nat)
    requires 0 < i < length < line.Length
    modifies line
    ensures line[..length] == old(line[..i - 1] + line[i..length] + [line[length - 1]])
    ensures line[length] == old(line[length])
  {
    forall j | i <= j < length {
      line[j - 1] := line[j];
    }
  }

  method TrimLine(line: array<byte>, length: nat) returns (linelen: nat)
    requires length < line.Length && NUL !in line[..length] && line[length] == NUL
    modifies line
    ensures linelen <= length && NUL !in line[..linelen] && line[linelen] == NUL
    ensures line[..linelen] == TrimRight(old(line[..length]))
  {
    hide TrimRight;
    linelen := length;
    while linelen > 0 && IsSpace(line[linelen - 1])
      invariant linelen <= length && line[linelen] == NUL && NUL !in line[..linelen]
      invariant TrimRight(line[..linelen]) == TrimRight(old(line[..length]))
    {
      TrimStep(line[..linelen]);
      linelen := linelen - 1;
      assert line[..linelen + 1][..linelen] == line[..linelen];
      line[linelen] := NUL;
    }
    TrimStep(line[..linelen]);
  }

  lemma StartScanned(s: bytes)
    requires s != [] && Scanning(s, s, 0, 0)
    ensures Scanned(s, s, 0, 0)
  {
  }

  lemma TrimStep(t: bytes)
    ensures TrimRight(t) == if t == [] || !IsSpace(t[|t| - 1]) then t else TrimRight(t[..|t| - 1])
  {
  }

  // ------------------------------------------------------------------
  // Key and value.

  /** The key and the value of a line without comment; `None` if there is no key. */
  function KeyVal(t: bytes): Option<(bytes, bytes)> {
    var u := TrimLeft(t);
    var e := Span(u, EQUALS);
    if e == |u| || e == 0 then None else Some((TrimRight(u[..e]), TrimLeft(u[e + 1..])))
  }

  /** The C string at an offset of a buffer. */
  ghost predicate StringAt(b: bytes, at: nat, t: bytes) {
    at + |t| < |b| && b[at..at + |t|] == t && b[at + |t|] == NUL && NUL !in t
  }

  /** conf_parse_keyval: -1 without a key, 0 with an empty value, and otherwise 1. */
  method ParseKeyVal(buf: array<byte>, n: nat) returns (rc: int, key: nat, val: nat)
    requires n < buf.Length && NUL !in buf[..n] && buf[n] == NUL
    modifies buf
    ensures var kv := KeyVal(old(buf[..n]));
            if kv == None then rc == -1 else
              && rc == (if kv.value.1 == [] then 0 else 1)
              && StringAt(buf[..], key, kv.value.0) && StringAt(buf[..], val, kv.value.1)
  {
    hide KeyVal, TrimLeft, TrimRight, Span, IsSpace, StringAt;
    rc, key, val := -1, 0, 0;
    ghost var t := buf[..n];
    assert buf[0..n] == t;
    key := SkipSpace(buf, 0, n);
    var at := FindSign(buf, key, n);
    ghost var u := buf[key..n];
    KeyValIs(t, u, at - key);
    if buf[at] == NUL || at == key {
      return;
    }
    assert u[..at - key] == buf[key..at] && u[at - key + 1..] == buf[at + 1..n];
    val := CutKeyVal(buf, key, at, n);
    rc := if buf[val] != NUL then 1 else 0;
  }

  /** The key ends before the sign at `at`, and the value starts after it. */
  method CutKeyVal(buf: array<byte>, key: nat, at: nat, n: nat) returns (val: nat)
    requires key < at < n < buf.Length && NUL !in buf[key..n] && buf[n] == NUL && !IsSpace(buf[key])
    modifies buf
    ensures StringAt(buf[..], key, TrimRight(old(buf[key..at])))
    ensures StringAt(buf[..], val, TrimLeft(old(buf[at + 1..n])))
    ensures val < buf.Length && (buf[val] == NUL <==> TrimLeft(old(buf[at + 1..n])) == [])
  {
    hide TrimLeft, TrimRight, IsSpace, StringAt;
    ghost var tail := buf[at + 1..];
    assert NUL !in buf[key..at] && NUL !in buf[at + 1..n] by {
      Parts(buf[..], key, at, n);
    }
    Tail(buf[..], at + 1, n);
    TrimKey(buf, key, at);
    Tail(buf[..], at + 1, n);
    assert buf[..][at + 1..] == tail;
    val := SkipSpace(buf, at + 1, n);
    ValueAt(buf[..], val, n);
  }

  lemma Parts(b: bytes, key: nat, at: nat, n: nat)
    requires key <= at < n <= |b|
    ensures forall c :: c !in b[key..n] ==> c !in b[key..at] && c !in b[at + 1..n]
  {
    assert b[key..n] == b[key..at] + [b[at]] + b[at + 1..n];
  }

  /** The sign, or the end. */
  method FindSign(buf: array<byte>, from: nat, n: nat) returns (at: nat)
    requires from <= n < buf.Length && NUL !in buf[from..n] && buf[n] == NUL
    ensures from <= at <= n && Span(buf[from..n], EQUALS) == at - from && (buf[at] == NUL <==> at == n)
  {
    hide Span;
    at := from;
    while buf[at] != NUL && buf[at] != EQUALS
      invariant from <= at <= n && EQUALS !in buf[from..at]
      decreases n - at
    {
      at := at + 1;
    }
    assert buf[from..n][..at - from] == buf[from..at];
    SpanUnique(buf[from..n], EQUALS, at - from);
  }

  lemma KeyValIs(t: bytes, u: bytes, e: nat)
    requires u == TrimLeft(t) && e == Span(u, EQUALS)
    ensures KeyVal(t) ==
              if e == |u| || e == 0 then None else Some((TrimRight(u[..e]), TrimLeft(u[e + 1..])))
  {
    hide TrimLeft, TrimRight, Span;
  }

  lemma Tail(b: bytes, at: nat, n: nat)
    requires at <= n < |b|
    ensures b[at..n] == b[at..][..n - at] && b[n] == b[at..][n - at]
  {
  }

  lemma ValueAt(b: bytes, at: nat, n: nat)
    requires at <= n < |b| && NUL !in b[at..n] && b[n] == NUL
    ensures StringAt(b, at, b[at..n]) && (b[at] == NUL <==> b[at..n] == [])
  {
    assert at < n ==> b[at] == b[at..n][0];
  }

  /** Terminate the key before the white space in front of the sign at `at`; its first octet stays. */
  method TrimKey(buf: array<byte>, key: nat, at: nat)
    requires key < at < buf.Length && NUL !in buf[key..at] && !IsSpace(buf[key])
    modifies buf
    ensures buf[at + 1..] == old(buf[at + 1..])
    ensures StringAt(buf[..], key, TrimRight(old(buf[key..at])))
  {
    hide TrimRight, IsSpace, StringAt;
    ghost var s := buf[..];
    var cp := at - 1;
    while cp > key && IsSpace(buf[cp])
      invariant key <= cp < at && buf[key..cp + 1] == s[key..cp + 1]
      invariant TrimRight(s[key..cp + 1]) == TrimRight(s[key..at])
      invariant cp + 1 < at ==> buf[cp + 1] == NUL
      invariant buf[at..] == s[at..]
    {
      TrimOne(buf[..], s, key, cp);
      buf[cp] := NUL;
      cp := cp - 1;
    }
    TrimOne(buf[..], s, key, cp);
    buf[at] := NUL;
    StringIs(buf[..], s, key, cp + 1, at);
  }

  lemma TrimOne(b: bytes, s: bytes, key: nat, cp: nat)
    requires key <= cp < |b| == |s| && b[key..cp + 1] == s[key..cp + 1]
    ensures b[cp] == s[cp] && b[key] == s[key] && b[key..cp] == s[key..cp]
    ensures TrimRight(s[key..cp + 1]) == if !IsSpace(s[cp]) then s[key..cp + 1] else TrimRight(s[key..cp])
  {
    hide TrimRight, IsSpace;
    assert b[key..cp + 1][cp - key] == b[cp] && s[key..cp + 1][cp - key] == s[cp];
    assert b[key..cp + 1][0] == b[key] && s[key..cp + 1][0] == s[key];
    assert b[key..cp + 1][..cp - key] == b[key..cp] && s[key..cp + 1][..cp - key] == s[key..cp];
    TrimStep(s[key..cp + 1]);
  }

  lemma StringIs(b: bytes, s: bytes, from: nat, to: nat, at: nat)
    requires from <= to <= at < |b| == |s| && b[from..to] == s[from..to] && b[to] == NUL && NUL !in s[from..at]
    ensures StringAt(b, from, s[from..to])
  {
    assert s[from..to] == s[from..at][..to - from];
  }

  /** Skip white space from an offset of a string. */
  method SkipSpace(buf: array<byte>, from: nat, n: nat) returns (at: nat)
    requires from <= n < buf.Length && NUL !in buf[from..n] && buf[n] == NUL
    ensures from <= at <= n && TrimLeft(buf[from..n]) == buf[at..n] && NUL !in buf[at..n]
    ensures at < n ==> !IsSpace(buf[at])
  {
    hide TrimLeft, IsSpace;
    at := from;
    while buf[at] != NUL && IsSpace(buf[at])
      invariant from <= at <= n && TrimLeft(buf[from..n]) == TrimLeft(buf[at..n]) && NUL !in buf[at..n]
      decreases n - at
    {
      TrimLeftStep(buf[at..n]);
      assert buf[at..n][1..] == buf[at + 1..n];
      at := at + 1;
    }
    TrimLeftStep(buf[at..n]);
  }

  lemma TrimLeftStep(t: bytes)
    ensures TrimLeft(t) == if t == [] || !IsSpace(t[0]) then t else TrimLeft(t[1..])
  {
  }
}
