/** Logical lines of an iCalendar buffer: unfolding (RFC 5545, section 3.1) and splitting. */
module IcalLines {
  import opened Octets

  /** A property line: the name, the parameters if a semicolon was present, and the value. */
  datatype Node = Node(name: bytes, param: Option<bytes>, val: bytes)

  predicate IsWs(c: byte) {
    c == SP || c == HT
  }

  predicate StartsWs(s: bytes) {
    s != [] && IsWs(s[0])
  }

  /** Drop the CR of a CRLF line end. */
  function Chomp(s: bytes): (r: bytes)
    ensures forall c :: c !in s ==> c !in r
  {
    if s != [] && s[|s| - 1] == CR then s[..|s| - 1] else s
  }

  /** One logical line: its text and the octets that follow it. */
  function Unfold(s: bytes): (r: (bytes, bytes))
    ensures |r.1| <= |s|
    ensures s != [] ==> |r.1| < |s|
    decreases |s|
  {
    if s == [] then ([], []) else
      var e := Span(s, LF);
      if e == |s| then (s, []) else
        var t := s[e + 1..];
        if !StartsWs(t) then (Chomp(s[..e]), t) else
          var r := Unfold(t[1..]);
          (Chomp(s[..e]) + r.0, r.1)
  }

  /** Cut a logical line at its first colon and its name at the first semicolon. */
  function SplitLine(text: bytes): Option<Node> {
    var t := CStr(text);
    var v := Span(t, COLON);
    if v == |t| then None else
      var p := Span(t[..v], SEMI);
      Some(Node(t[..p], if p < v then Some(t[p + 1..v]) else None, t[v + 1..]))
  }

  function Texts(s: bytes): seq<bytes>
    decreases |s|
  {
    if s == [] then [] else [Unfold(s).0] + Texts(Unfold(s).1)
  }

  /** What repeated reading returns until the input is used up; None is a line without a colon. */
  function Lines(s: bytes): seq<Option<Node>>
    decreases |s|
  {
    if s == [] then [] else [SplitLine(Unfold(s).0)] + Lines(Unfold(s).1)
  }

  // ------------------------------------------------------------------
  // Reference: physical lines first, then continuation lines joined.

  function PhysicalLines(s: bytes): seq<bytes>
    decreases |s|
  {
    if s == [] then [] else
      var e := Span(s, LF);
      if e == |s| then [s] else [Chomp(s[..e])] + PhysicalLines(s[e + 1..])
  }

  function Logical(ls: seq<bytes>): seq<bytes>
    decreases |ls|
  {
    if |ls| <= 1 then ls
    else if StartsWs(ls[1]) then Logical([ls[0] + ls[1][1..]] + ls[2..])
    else [ls[0]] + Logical(ls[1..])
  }

  /** Looking at the first physical line is looking at the first octet. */
  lemma {:induction false} StartsWsPhysical(t: bytes)
    requires t != []
    ensures PhysicalLines(t) != []
    ensures StartsWs(t) <==> StartsWs(PhysicalLines(t)[0])
  {
  }

  // One step of each of these definitions.

  lemma {:induction false} UnfoldOnce(s: bytes)
    requires s != []
    ensures var e := Span(s, LF);
            Unfold(s) == if e == |s| then (s, [])
                         else if StartsWs(s[e + 1..])
                         then (Chomp(s[..e]) + Unfold(s[e + 1..][1..]).0, Unfold(s[e + 1..][1..]).1)
                         else (Chomp(s[..e]), s[e + 1..])
  {
    hide Span, Chomp;
  }

  lemma {:induction false} PhysicalOnce(s: bytes)
    requires s != []
    ensures var e := Span(s, LF);
            PhysicalLines(s) == if e == |s| then [s] else [Chomp(s[..e])] + PhysicalLines(s[e + 1..])
  {
    hide Span, Chomp;
  }

  lemma {:induction false} TextsOnce(s: bytes)
    requires s != []
    ensures Texts(s) == [Unfold(s).0] + Texts(Unfold(s).1)
  {
  }

  lemma {:induction false} LinesOnce(s: bytes)
    requires s != []
    ensures Lines(s) == [SplitLine(Unfold(s).0)] + Lines(Unfold(s).1)
  {
  }

  lemma NothingLeft()
    ensures Unfold([]) == ([], []) && Texts([]) == [] && Lines([]) == [] && PhysicalLines([]) == []
  {
  }

  lemma {:induction false} LogicalOnce(l: bytes, ls: seq<bytes>)
    ensures ls == [] ==> Logical([l] + ls) == [l]
    ensures ls != [] && !StartsWs(ls[0]) ==> Logical([l] + ls) == [l] + Logical(ls)
  {
    assert ([l] + ls)[1..] == ls;
  }

  /** A white space octet in front of a buffer goes in front of its first physical line. */
  lemma {:induction false} WsPhysical(w: byte, s: bytes)
    requires IsWs(w)
    ensures PhysicalLines([w] + s) ==
            if s == [] then [[w]] else [[w] + PhysicalLines(s)[0]] + PhysicalLines(s)[1..]
  {
    hide PhysicalLines, Span;
    var t := [w] + s;
    var e := Span(s, LF);
    assert t[..e + 1] == [w] + s[..e];
    SpanUnique(t, LF, e + 1);
    PhysicalOnce(t);
    if s != [] {
      PhysicalOnce(s);
    }
    if e < |s| {
      assert t[e + 2..] == s[e + 1..];
      assert Chomp([w] + s[..e]) == [w] + Chomp(s[..e]);
    }
  }

  lemma {:induction false} JoinStep(p: bytes, w: byte, q: seq<bytes>)
    requires IsWs(w) && q != []
    ensures Logical([p, [w] + q[0]] + q[1..]) == Logical([p + q[0]] + q[1..])
  {
    var ls := [p, [w] + q[0]] + q[1..];
    assert ls[1][1..] == q[0];
    assert ls[2..] == q[1..];
  }

  lemma WsLines(l: bytes, t: bytes, q: seq<bytes>)
    requires StartsWs(t) && q == if t[1..] == [] then [[]] else PhysicalLines(t[1..])
    ensures q != [] && [l] + PhysicalLines(t) == [l, [t[0]] + q[0]] + q[1..]
  {
    hide PhysicalLines;
    assert t == [t[0]] + t[1..] && [t[0]] + [] == [t[0]];
    WsPhysical(t[0], t[1..]);
    if t[1..] != [] {
      StartsWsPhysical(t[1..]);
    }
  }

  /** Joining a prefix to the first logical line commutes with unfolding the rest. */
  lemma {:induction false} LogicalPrefix(p: bytes, s: bytes)
    requires s != []
    ensures PhysicalLines(s) != []
    ensures Logical([p + PhysicalLines(s)[0]] + PhysicalLines(s)[1..]) == [p + Unfold(s).0] + Texts(Unfold(s).1)
    decreases |s|, 0
  {
    hide Logical, Texts, Span, PhysicalLines, Unfold, Chomp;
    NothingLeft();
    UnfoldOnce(s);
    PhysicalOnce(s);
    var e := Span(s, LF);
    var q := PhysicalLines(s);
    if e == |s| {
      assert q[1..] == [];
      LogicalOnce(p + s, q[1..]);
    } else {
      var c, t := Chomp(s[..e]), s[e + 1..];
      assert q[1..] == PhysicalLines(t);
      LogicalPrefixMore(p, c, t);
      if StartsWs(t) {
        assert p + (c + Unfold(t[1..]).0) == p + c + Unfold(t[1..]).0;
      }
    }
  }

  lemma {:induction false} LogicalPrefixMore(p: bytes, c: bytes, t: bytes)
    ensures Logical([p + c] + PhysicalLines(t)) ==
            if StartsWs(t) then [p + c + Unfold(t[1..]).0] + Texts(Unfold(t[1..]).1) else [p + c] + Texts(t)
    decreases |t|, 1
  {
    hide Logical, Texts, Span, PhysicalLines, Unfold, Chomp;
    NothingLeft();
    if t == [] {
      LogicalOnce(p + c, []);
    } else if StartsWs(t) {
      var s := t[1..];
      var q := if s == [] then [[]] else PhysicalLines(s);
      if s == [] {
        LogicalOnce(p + c + [], q[1..]);
      } else {
        LogicalPrefix(p + c, s);
      }
      WsLines(p + c, t, q);
      JoinStep(p + c, t[0], q);
    } else {
      TextsOnce(t);
      LogicalPrefix([], t);
      StartsWsPhysical(t);
      var q := PhysicalLines(t);
      LogicalOnce(p + c, q);
      EmptyPrefix(q);
      assert [] + Unfold(t).0 == Unfold(t).0;
    }
  }

  lemma EmptyPrefix(q: seq<bytes>)
    requires q != []
    ensures [[] + q[0]] + q[1..] == q
  {
    assert [] + q[0] == q[0];
  }

  /**
   * Unfolding is: split at line ends, drop them, and join every line that starts with white space
   * to the one before it without that octet.
   */
  lemma {:induction false} UnfoldsPhysicalLines(s: bytes)
    ensures Texts(s) == Logical(PhysicalLines(s))
  {
    if s != [] {
      hide Logical, Texts, PhysicalLines, Unfold;
      LogicalPrefix([], s);
      TextsOnce(s);
      EmptyPrefix(PhysicalLines(s));
      assert [] + Unfold(s).0 == Unfold(s).0;
    }
  }

  lemma {:induction false} LinesSplitTexts(s: bytes)
    ensures |Lines(s)| == |Texts(s)|
    ensures forall i :: 0 <= i < |Texts(s)| ==> Lines(s)[i] == SplitLine(Texts(s)[i])
    decreases |s|
  {
    hide Lines, Texts, Unfold, SplitLine;
    NothingLeft();
    if s != [] {
      LinesSplitTexts(Unfold(s).1);
      LinesOnce(s);
      TextsOnce(s);
    }
  }

  // ------------------------------------------------------------------
  // CRLF and LF files.

  function ToCrLf(s: bytes): bytes {
    if s == [] then [] else (if s[0] == LF then [CR, LF] else [s[0]]) + ToCrLf(s[1..])
  }

  lemma {:induction false} ToCrLfSplit(s: bytes, e: nat)
    requires e <= |s| && LF !in s[..e]
    ensures ToCrLf(s) == s[..e] + ToCrLf(s[e..])
  {
    if e > 0 {
      assert s[..e] == [s[0]] + s[1..][..e - 1];
      ToCrLfSplit(s[1..], e - 1);
      assert s[1..][e - 1..] == s[e..];
    }
  }

  lemma ChompCr(l: bytes)
    ensures Chomp(l + [CR]) == l && (CR !in l ==> Chomp(l) == l)
  {
  }

  lemma CrLfHead(l: bytes, r: bytes)
    requires LF !in l
    ensures PhysicalLines(l + [CR, LF] + r) == [l] + PhysicalLines(r)
    ensures CR !in l ==> PhysicalLines(l + [LF] + r) == [l] + PhysicalLines(r)
  {
    hide PhysicalLines, Span, Chomp;
    var c, d := l + [CR, LF] + r, l + [LF] + r;
    PhysicalOnce(c);
    PhysicalOnce(d);
    assert c[..|l| + 1] == l + [CR] && d[..|l|] == l;
    SpanUnique(c, LF, |l| + 1);
    SpanUnique(d, LF, |l|);
    assert c[|l| + 2..] == r && d[|l| + 1..] == r;
    ChompCr(l);
  }

  lemma {:induction false} CrLfPhysical(s: bytes)
    requires CR !in s
    ensures PhysicalLines(ToCrLf(s)) == PhysicalLines(s)
    decreases |s|
  {
    if s != [] {
      var e := Span(s, LF);
      ToCrLfSplit(s, e);
      if e < |s| {
        var l, t := s[..e], s[e + 1..];
        assert ToCrLf(s[e..]) == [CR, LF] + ToCrLf(t) by {
          assert s[e..][1..] == t;
        }
        hide ToCrLf, PhysicalLines, Span;
        assert ToCrLf(s) == l + [CR, LF] + ToCrLf(t);
        assert s == l + [LF] + t;
        CrLfHead(l, ToCrLf(t));
        CrLfHead(l, t);
        CrLfPhysical(t);
      } else {
        assert s[e..] == [] && s[..e] + [] == s;
      }
    }
  }

  /** A file without bare CR reads the same whether its lines end in LF or in CRLF. */
  lemma CrLfSameLines(s: bytes)
    requires CR !in s
    ensures Texts(ToCrLf(s)) == Texts(s)
    ensures Lines(ToCrLf(s)) == Lines(s)
  {
    CrLfPhysical(s);
    UnfoldsPhysicalLines(s);
    UnfoldsPhysicalLines(ToCrLf(s));
    LinesSplitTexts(s);
    LinesSplitTexts(ToCrLf(s));
  }

  // ------------------------------------------------------------------
  // The same in octets: 13 and 10 end a line, and 9 or 32 continues it.

  /** A physical line with either line end, and whatever follows. */
  lemma OneLine(l: bytes, t: bytes)
    requires 10 !in l
    ensures var r := if t != [] && t[0] in [9, 32] then (l + Unfold(t[1..]).0, Unfold(t[1..]).1) else (l, t);
            && Unfold(l + [13, 10] + t) == r
            && (l == [] || l[|l| - 1] != 13 ==> Unfold(l + [10] + t) == r)
  {
    hide Unfold, Span, Chomp;
    var c, d := l + [13, 10] + t, l + [10] + t;
    assert c[..|l| + 1] == l + [13] && c[|l| + 2..] == t && d[..|l|] == l && d[|l| + 1..] == t;
    SpanUnique(c, 10, |l| + 1);
    SpanUnique(d, 10, |l|);
    UnfoldOnce(c);
    UnfoldOnce(d);
    ChompOnce(l);
  }

  lemma ChompOnce(l: bytes)
    ensures Chomp(l + [13]) == l && (l == [] || l[|l| - 1] != 13 ==> Chomp(l) == l)
  {
  }

  /** The last line may lack its end. */
  lemma LastLine(l: bytes)
    requires 10 !in l
    ensures Unfold(l) == (l, [])
  {
    hide Unfold, Span, Chomp;
    NothingLeft();
    assert l[..|l|] == l;
    SpanUnique(l, 10, |l|);
    if l != [] {
      UnfoldOnce(l);
    }
  }

  /** The first 58 ends name and parameters, and the first 59 before it the name; a 0 ends everything. */
  lemma SplitMeans(k: bytes, p: bytes, v: bytes, z: bytes)
    requires 0 !in k && 0 !in p && 0 !in v && 58 !in k && 58 !in p && 59 !in k
    ensures SplitLine(k + [58] + v + [0] + z) == SplitLine(k + [58] + v) == Some(Node(k, None, v))
    ensures SplitLine(k + [59] + p + [58] + v + [0] + z) == SplitLine(k + [59] + p + [58] + v) == Some(Node(k, Some(p), v))
    ensures SplitLine(k) == None
  {
    hide SplitLine;
    SplitAt(k, k, None, v);
    EndsAt(k + [58] + v, z);
    var h := k + [59] + p;
    assert h[..|k|] == k && h[|k| + 1..] == p;
    SplitAt(h, k, Some(p), v);
    EndsAt(h + [58] + v, z);
    NoColon(k);
  }

  lemma EndsAt(t: bytes, z: bytes)
    requires 0 !in t
    ensures SplitLine(t + [0] + z) == SplitLine(t)
  {
    assert (t + [0] + z)[..|t|] == t && t[..|t|] == t;
    SpanUnique(t + [0] + z, 0, |t|);
    SpanUnique(t, 0, |t|);
  }

  lemma NoColon(k: bytes)
    requires 0 !in k && 58 !in k
    ensures SplitLine(k) == None
  {
    assert k[..|k|] == k;
    SpanUnique(k, 0, |k|);
    SpanUnique(k, 58, |k|);
  }

  lemma SplitAt(h: bytes, k: bytes, p: Option<bytes>, v: bytes)
    requires 0 !in h && 0 !in v && 58 !in h && 59 !in k
    requires if p.Some? then h == k + [59] + p.value else h == k
    ensures SplitLine(h + [58] + v) == Some(Node(k, p, v))
  {
    hide Span;
    var t := h + [58] + v;
    assert t[..|t|] == t && t[..|h|] == h && t[|h| + 1..] == v && h[..|k|] == k;
    SpanUnique(t, 0, |t|);
    SpanUnique(t, 58, |h|);
    SpanUnique(h, 59, |k|);
    if p.Some? {
      assert t[|k| + 1..|h|] == h[|k| + 1..] == p.value;
    } else {
      assert t[..|k|] == k;
    }
    assert t[..|k|] == h[..|k|];
  }

  // ------------------------------------------------------------------
  // Reading with the reused buffer.

  /** What is still to come after gathering `acc` and stopping in front of `s`. */
  ghost function Pending(acc: bytes, s: bytes): (r: (bytes, bytes))
    ensures s == [] ==> r == (acc, [])
    ensures acc == [] ==> r == Unfold(s)
  {
    assert [] + Unfold(s).0 == Unfold(s).0;
    assert acc + [] == acc;
    (acc + Unfold(s).0, Unfold(s).1)
  }

  lemma PendingStep(acc: bytes, cp: bytes, pos: nat, end: nat, len: nat)
    requires pos < |cp| && end == Span(cp[pos..], LF) < |cp| - pos
    requires len == if end > 0 && cp[pos + end - 1] == CR then end - 1 else end
    ensures var next, acc' := pos + end + 1, acc + cp[pos..pos + len];
            Pending(acc, cp[pos..]) ==
            if next < |cp| && IsWs(cp[next]) then Pending(acc', cp[next + 1..]) else (acc', cp[next..])
  {
    hide Unfold, Span;
    var s, t := cp[pos..], cp[pos + end + 1..];
    UnfoldOnce(s);
    assert s[end + 1..] == t;
    assert s[..end] == cp[pos..pos + end];
    assert Chomp(s[..end]) == cp[pos..pos + len];
    if StartsWs(t) {
      assert t[1..] == cp[pos + end + 2..];
      assert acc + (cp[pos..pos + len] + Unfold(t[1..]).0) == (acc + cp[pos..pos + len]) + Unfold(t[1..]).0;
    }
  }

  lemma PendingLast(acc: bytes, s: bytes)
    requires s != [] && Span(s, LF) == |s|
    ensures Pending(acc, s) == (acc + s, [])
  {
  }

  class LineReader {
    const cp: bytes
    var pos: nat
    var buf: Option<bytes>  // the allocated octets, None before the first allocation
    var sz: nat

    ghost predicate Valid()
      reads this
    {
      && pos <= |cp|
      && (buf.Some? ==> sz < |buf.value| && NUL in buf.value && COLON !in CStr(buf.value))
    }

    ghost function Rest(): bytes
      requires pos <= |cp|
      reads this`pos
    {
      cp[pos..]
    }

    constructor (cp: bytes, pos: nat)
      requires pos <= |cp|
      ensures Valid() && this.cp == cp && this.pos == pos
    {
      this.cp := cp;
      this.pos := pos;
      buf, sz := None, 0;
    }

    /** What the current line has gathered so far. */
    ghost function Text(): bytes
      requires Filled()
      reads this`buf, this`sz
    {
      if sz == 0 then [] else buf.value[..sz]
    }

    ghost predicate Filled()
      reads this`buf, this`sz
    {
      && (buf.None? ==> sz == 0)
      && (buf.Some? ==> sz < |buf.value| && (sz > 0 ==> buf.value[sz] == NUL))
    }

    /** Append `s` and a terminator, growing the buffer when it is too small. */
    method Append(s: bytes)
      requires Filled()
      modifies this`buf, this`sz
      ensures Filled() && Text() == old(Text()) + s && sz == old(sz) + |s|
      ensures s == [] ==> buf == old(buf) && sz == old(sz)
    {
      if |s| == 0 {
        return;
      }
      var b := if buf.None? then [] else buf.value;
      if sz + |s| + 1 > |b| {
        b := b + seq(sz + |s| + 1024 - |b|, _ => 0);
      }
      buf := Some(b[..sz] + s + [NUL] + b[sz + |s| + 1..]);
      sz := sz + |s|;
    }

    /** Take a physical line that ends at `end` from here, and its line end. */
    method TakeUpTo(end: nat)
      requires pos < |cp| && end == Span(cp[pos..], LF) < |cp| - pos && Filled()
      modifies this
      ensures pos == old(pos) + end + 1 && Filled()
      ensures Pending(old(Text()), old(Rest())) ==
              if pos < |cp| && IsWs(cp[pos]) then Pending(Text(), cp[pos + 1..]) else (Text(), Rest())
      ensures sz == 0 ==> old(sz) == 0 && buf == old(buf)
    {
      hide Pending, Unfold, Span, Filled, Text, IsWs;
      var len, skip := end, 1;
      if len > 0 && cp[pos + end - 1] == CR {
        len, skip := len - 1, 2;
      }
      ghost var start, text := pos, Text();
      PendingStep(text, cp, start, end, len);
      Append(cp[pos..pos + len]);
      pos := pos + len + skip;
      assert pos == start + end + 1 && Text() == text + cp[start..start + len];
      assert Rest() == cp[pos..];
    }

    /** Take one physical line; `more` says that its continuation comes next. */
    method TakePhysical() returns (more: bool)
      requires pos < |cp| && Filled()
      modifies this
      ensures old(pos) < pos <= |cp| && Filled()
      ensures Pending(old(Text()), old(Rest())) == if more then Pending(Text(), Rest()) else (Text(), Rest())
      ensures sz == 0 ==> old(sz) == 0 && buf == old(buf)
    {
      hide Pending, Unfold, Span, Filled, Text;
      var end := Span(cp[pos..], LF);
      if end == |cp| - pos {
        PendingLast(Text(), cp[pos..]);
        Append(cp[pos..]);
        pos := |cp|;
        assert Rest() == [];
        return false;
      }
      TakeUpTo(end);
      if pos < |cp| && cp[pos] != SP && cp[pos] != HT {
        return false;
      }
      more := pos < |cp|;
      if more {
        pos := pos + 1;
      }
    }

    /** Gather the physical lines of one logical line into the buffer. */
    method Gather()
      requires Valid()
      modifies this
      ensures pos <= |cp| && Rest() == Unfold(old(Rest())).1
      ensures old(pos) < |cp| ==> old(pos) < pos
      ensures Filled() && Text() == Unfold(old(Rest())).0
      ensures sz == 0 ==> buf == old(buf)
    {
      hide Pending, Unfold, Span;
      sz := 0;
      var more := true;
      while pos < |cp| && more
        invariant old(pos) <= pos <= |cp| && (old(pos) < |cp| && !more ==> old(pos) < pos)
        invariant Filled() && (sz == 0 ==> buf == old(buf))
        invariant old(pos) < |cp| && pos == old(pos) ==> more
        invariant Unfold(old(Rest())) == if more then Pending(Text(), Rest()) else (Text(), Rest())
        decreases |cp| - pos
      {
        more := TakePhysical();
      }
    }

    /**
     * Read one logical line.  The buffer keeps the octets of the previous line when the new one is
     * empty; the previous name holds no colon, so such a line is refused all the same.
     */
    method ReadLine() returns (line: Option<Node>)
      requires Valid()
      modifies this
      ensures Valid() || line.None?
      ensures pos <= |cp| && Rest() == Unfold(old(Rest())).1
      ensures line == SplitLine(Unfold(old(Rest())).0)
      ensures old(pos) < |cp| ==> old(pos) < pos
    {
      hide Unfold, Span, CStr;
      ghost var text := Unfold(Rest()).0;
      Gather();
      EmptyTextRefused();
      if buf.None? {
        return None;
      }
      var b := buf.value;
      if sz > 0 {
        TerminatedText(b, sz);
      } else {
        SpanUnique(CStr(b), COLON, |CStr(b)|);
      }
      var n := CStr(b);
      var v := Span(n, COLON);
      if v == |n| {
        return None;
      }
      // Terminate the name at the colon, then at the first semicolon.
      var w := b[v := NUL];
      var p := Span(CStr(w), SEMI);
      if p < |CStr(w)| {
        w := w[p := NUL];
      }
      CutLine(b, v, w, p);
      buf := Some(w);
      line := Some(Node(CStr(w), if p < v then Some(CStr(w[p + 1..])) else None, CStr(w[v + 1..])));
    }
  }

  /** The three C strings that the two terminators leave in the buffer. */
  lemma CutLine(b: bytes, v: nat, w: bytes, p: nat)
    requires NUL in b && v == Span(CStr(b), COLON) < |CStr(b)|
    requires p == Span(CStr(b[v := NUL]), SEMI)
    requires w == if p < |CStr(b[v := NUL])| then b[v := NUL][p := NUL] else b[v := NUL]
    ensures |w| == |b| && |CStr(b[v := NUL])| == v && p == Span(CStr(b)[..v], SEMI)
    ensures NUL in w && CStr(w) == CStr(b)[..p] && COLON !in CStr(w)
    ensures p < v ==> CStr(w[p + 1..]) == CStr(b)[p + 1..v]
    ensures CStr(w[v + 1..]) == CStr(b)[v + 1..]
    ensures |CStr(w)| < |w|
  {
    hide Span;
    var n := CStr(b);
    CStrOf(b[v := NUL], v);
    assert b[v := NUL][..v] == n[..v];
    if p < v {
      assert w[p + 1..][..v - p - 1] == n[p + 1..v];
      CStrOf(w[p + 1..], v - p - 1);
    }
    assert w[..p] == n[..p] && w[p] == NUL;
    CStrOf(w, p);
    TailString(b, w, v);
  }

  lemma TerminatedText(b: bytes, n: nat)
    requires n < |b| && b[n] == NUL
    ensures CStr(b) == CStr(b[..n]) && NUL in b
    ensures Span(b, NUL) <= n
  {
    var k := Span(b[..n], NUL);
    assert b[..n][..k] == b[..k];
    SpanUnique(b, NUL, k);
  }

  lemma EmptyTextRefused()
    ensures SplitLine([]) == None
  {
  }

  /** Writing before the value does not disturb it. */
  lemma TailString(b: bytes, w: bytes, v: nat)
    requires NUL in b && v < Span(b, NUL)
    requires |w| == |b| && w[v + 1..] == b[v + 1..]
    ensures CStr(w[v + 1..]) == CStr(b)[v + 1..]
  {
    hide Span;
    var k := Span(b, NUL);
    assert b[v + 1..][..k - v - 1] == b[v + 1..k] == CStr(b)[v + 1..];
    CStrOf(b[v + 1..], k - v - 1);
  }
}
