/** What is written can be read back, line by line, and obeys the limits of RFC 5545. */
module IcalRoundTrip {
  import opened Octets
  import opened IcalLines
  import opened IcalFold
  import opened IcalPrint
  import opened Utf8

  // ------------------------------------------------------------------
  // Rendered pieces, seen from the front.

  lemma {:induction false} RenderFront(p: bytes, qs: seq<bytes>)
    requires qs != []
    ensures Render([p] + qs) == p + BREAK + Render(qs)
    ensures Concat([p] + qs) == p + Concat(qs)
    decreases |qs|
  {
    var ps, n := [p] + qs, |qs| - 1;
    assert ps[..n + 1] == [p] + qs[..n];
    if n == 0 {
      assert qs == [qs[0]] && ps[..1] == [p];
      assert Concat(qs) == [] + qs[0] && Concat([p]) == [] + p;
    } else {
      RenderFront(p, qs[..n]);
      ConcatAssoc(p + BREAK, Render(qs[..n]), BREAK, qs[n]);
      ConcatAssoc(p, Concat(qs[..n]), [], qs[n]);
    }
  }

  lemma UnfoldHead(l: bytes, t: bytes)
    requires LF !in l
    ensures Unfold(l + [CR, LF] + t) ==
            if StartsWs(t) then (l + Unfold(t[1..]).0, Unfold(t[1..]).1) else (l, t)
  {
    var s := l + [CR, LF] + t;
    assert s[..|l| + 1] == l + [CR];
    SpanUnique(s, LF, |l| + 1);
    assert s[|l| + 2..] == t;
    assert Chomp(l + [CR]) == l;
  }

  /** The reader undoes the folding, and goes on if what follows looks like a continuation. */
  lemma {:induction false} UnfoldRendered(ps: seq<bytes>, r: bytes)
    requires ps != [] && Free(ps, LF)
    ensures Unfold(Render(ps) + [CR, LF] + r) ==
            if StartsWs(r) then (Concat(ps) + Unfold(r[1..]).0, Unfold(r[1..]).1) else (Concat(ps), r)
    decreases |ps|
  {
    hide Unfold, Render, Concat;
    var p, qs := ps[0], ps[1..];
    assert ps == [p] + qs;
    if qs == [] {
      assert ps == [p];
      RenderOne(p);
      UnfoldHead(p, r);
    } else {
      RenderFront(p, qs);
      UnfoldRendered(qs, r);
      var t := Render(qs) + [CR, LF] + r;
      UnfoldHead(p, [SP] + t);
      assert ([SP] + t)[1..] == t;
      RenderedTail(p, Render(qs), r);
      if StartsWs(r) {
        ConcatAssoc(p, Concat(qs), [], Unfold(r[1..]).0);
      }
    }
  }

  lemma RenderOne(p: bytes)
    ensures Render([p]) == p && Concat([p]) == p
  {
    assert Concat([p]) == Concat([]) + p;
  }

  lemma RenderedTail(p: bytes, q: bytes, r: bytes)
    ensures p + BREAK + q + [CR, LF] + r == p + [CR, LF] + ([SP] + (q + [CR, LF] + r))
  {
  }

  /** The physical lines of a folded line. */
  function Physical(ps: seq<bytes>): seq<bytes> {
    if ps == [] then [] else [ps[0]] + seq(|ps| - 1, i requires 0 <= i < |ps| - 1 => [SP] + ps[i + 1])
  }

  lemma {:induction false} PhysicalRendered(ps: seq<bytes>, r: bytes)
    requires ps != [] && Free(ps, LF)
    ensures PhysicalLines(Render(ps) + [CR, LF] + r) == Physical(ps) + PhysicalLines(r)
    decreases |ps|
  {
    hide PhysicalLines, Render;
    var p, qs := ps[0], ps[1..];
    assert ps == [p] + qs;
    if qs == [] {
      assert ps == [p];
      RenderOne(p);
      CrLfHead(p, r);
    } else {
      RenderFront(p, qs);
      var t := Render(qs) + [CR, LF] + r;
      PhysicalRendered(qs, r);
      RenderedTail(p, Render(qs), r);
      CrLfHead(p, [SP] + t);
      BlankPhysical(t);
      assert [[SP] + Physical(qs)[0]] + Physical(qs)[1..] == Physical(ps)[1..];
      assert PhysicalLines(t)[1..] == Physical(qs)[1..] + PhysicalLines(r);
    }
  }

  lemma BlankPhysical(t: bytes)
    requires t != []
    ensures PhysicalLines(t) != []
    ensures PhysicalLines([SP] + t) == [[SP] + PhysicalLines(t)[0]] + PhysicalLines(t)[1..]
  {
    WsPhysical(SP, t);
  }

  // ------------------------------------------------------------------
  // Property lines.

  /** Name, parameters and value can be told apart again and hold no line end. */
  ghost predicate Readable(n: Node) {
    && LF !in n.name && NUL !in n.name && COLON !in n.name && SEMI !in n.name
    && (n.param.Some? ==> LF !in n.param.value && NUL !in n.param.value && COLON !in n.param.value)
    && LF !in n.val && NUL !in n.val
  }

  ghost predicate AllReadable(ns: seq<Node>) {
    forall i :: 0 <= i < |ns| ==> Readable(ns[i])
  }

  /** No name looks like a continuation line. */
  ghost predicate NoWsNames(ns: seq<Node>) {
    forall i :: 0 <= i < |ns| ==> !StartsWs(ns[i].name)
  }

  lemma SplitNodeText(n: Node)
    requires Readable(n)
    ensures SplitLine(NodeText(n)) == Some(n)
  {
    hide Span;
    var t := NodeText(n);
    var head := n.name + if n.param.Some? then [SEMI] + n.param.value else [];
    SpanUnique(t, NUL, |t|);
    assert t[..|t|] == t;
    assert t[..|head|] == head;
    SpanUnique(t, COLON, |head|);
    assert head[..|n.name|] == n.name;
    SpanUnique(head, SEMI, |n.name|);
    assert t[..|n.name|] == n.name && t[|head| + 1..] == n.val;
    if n.param.Some? {
      assert t[|n.name| + 1..|head|] == n.param.value;
    }
  }

  lemma SplitReadable(text: bytes)
    requires LF !in text && SplitLine(text).Some?
    ensures Readable(SplitLine(text).value)
  {
    var t := CStr(text);
    assert forall c :: c in t ==> c in text;
    var v := Span(t, COLON);
    assert forall c :: c in t[..v] ==> c in t;
    assert forall c :: c in t[v + 1..] ==> c in t;
    var p := Span(t[..v], SEMI);
    assert t[..v][..p] == t[..p];
    assert forall c :: c in t[..p] ==> c in t[..v];
    assert p < v ==> forall c :: c in t[p + 1..v] ==> c in t[..v];
  }

  /**
   * The text of a node splits into the same node if and only if the node is readable: colons and
   * semicolons count even inside quotes.
   */
  lemma SplitExact(n: Node)
    requires LF !in NodeText(n) && NUL !in NodeText(n)
    ensures SplitLine(NodeText(n)) == Some(n) <==> Readable(n)
  {
    hide SplitLine;
    assert forall c :: c in n.name || c in n.val || (n.param.Some? && c in n.param.value) ==> c in NodeText(n);
    if SplitLine(NodeText(n)) == Some(n) {
      SplitReadable(NodeText(n));
    } else if Readable(n) {
      SplitNodeText(n);
    }
  }

  /** X;CN="a:b":v splits at the colon in quotes. */
  lemma QuotedColon()
    ensures var n := Node(Ascii("X"), Some(Ascii("CN=\"a:b\"")), Ascii("v"));
            !Readable(n) && SplitLine(NodeText(n)) == Some(Node(Ascii("X"), Some(Ascii("CN=\"a")), Ascii("b\":v")))
  {
    hide SplitLine, Ascii;
    var m := Node([88], Some([67, 78, 61, 34, 97]), [98, 34, COLON, 118]);
    var n := Node([88], Some([67, 78, 61, 34, 97, COLON, 98, 34]), [118]);
    QuotedAscii();
    assert NodeText(n) == NodeText(m);
    assert n.param.value[5] == COLON;
    SplitNodeText(m);
  }

  lemma QuotedAscii()
    ensures Ascii("X") == [88] && Ascii("v") == [118] && Ascii("CN=\"a") == [67, 78, 61, 34, 97]
    ensures Ascii("CN=\"a:b\"") == [67, 78, 61, 34, 97, COLON, 98, 34] && Ascii("b\":v") == [98, 34, COLON, 118]
  {
  }

  lemma NodePiecesText(n: Node)
    ensures Concat(NodePieces(n)) == NodeText(n)
  {
    hide Puts, Delim, Concat;
    RenderOne([]);
    var a := Puts([[]], n.name);
    PutsKeepsText([[]], n.name);
    assert [] + n.name == n.name;
    if n.param.Some? {
      DelimText(a, SEMI);
      PutsKeepsText(Delim(a, SEMI), n.param.value);
      ConcatAssoc(n.name, [SEMI], [], n.param.value);
    } else {
      assert n.name + [] == n.name;
    }
    var b := NamePieces(n);
    DelimText(b, COLON);
    PutsKeepsText(Delim(b, COLON), n.val);
  }

  lemma NodePiecesFree(n: Node)
    requires LF !in n.name && LF !in n.val && (n.param.Some? ==> LF !in n.param.value)
    ensures Free(NodePieces(n), LF)
  {
    hide Puts;
    PutsFree([[]], n.name, LF);
    var a := Puts([[]], n.name);
    if n.param.Some? {
      PutsFree(Delim(a, SEMI), n.param.value, LF);
    }
    PutsFree(Delim(NamePieces(n), COLON), n.val, LF);
  }

  /** Every column stays within 74 over name, delimiters, parameters and value. */
  lemma NodePiecesBounded(n: Node)
    ensures Bounded(NodePieces(n))
  {
    hide Puts, Delim;
    var a := Puts([[]], n.name);
    PutsBounded([[]], n.name);
    if n.param.Some? {
      DelimBounded(a, SEMI);
      PutsBounded(Delim(a, SEMI), n.param.value);
    }
    DelimBounded(NamePieces(n), COLON);
    PutsBounded(Delim(NamePieces(n), COLON), n.val);
  }

  ghost predicate Utf8Node(n: Node) {
    WellFormed(n.name) && WellFormed(n.val) && (n.param.Some? ==> WellFormed(n.param.value))
  }

  lemma PutsText(ps: seq<bytes>, s: bytes)
    requires ps != [] && AllWellFormed(ps) && WellFormed(s)
    ensures AllWellFormed(Puts(ps, s))
  {
    var us :| Scalars(us) && Encode(us) == s;
    PutsWellFormed(ps, us);
  }

  lemma NodePiecesWellFormed(n: Node)
    requires Utf8Node(n)
    ensures AllWellFormed(NodePieces(n))
  {
    hide Puts, Delim, WellFormed;
    WellFormedAscii(SEMI);
    PutsText([[]], n.name);
    var a := Puts([[]], n.name);
    if n.param.Some? {
      DelimWellFormed(a, SEMI);
      PutsText(Delim(a, SEMI), n.param.value);
    }
    DelimWellFormed(NamePieces(n), COLON);
    PutsText(Delim(NamePieces(n), COLON), n.val);
  }

  /** A line that may be sent: within the limit of RFC 5545, section 3.1. */
  ghost predicate GoodLine(l: bytes, utf8: bool) {
    |l| <= 74 && (utf8 ==> WellFormed(l))
  }

  ghost predicate GoodLines(ls: seq<bytes>, utf8: bool) {
    forall i :: 0 <= i < |ls| ==> GoodLine(ls[i], utf8)
  }

  lemma PhysicalGood(n: Node, utf8: bool)
    requires utf8 ==> Utf8Node(n)
    ensures GoodLines(Physical(NodePieces(n)), utf8)
  {
    hide NodePieces, WellFormed;
    var ps := NodePieces(n);
    NodePiecesBounded(n);
    if utf8 {
      NodePiecesWellFormed(n);
      WellFormedAscii(SP);
      forall i | 0 < i < |ps|
        ensures WellFormed([SP] + ps[i])
      {
        WellFormedConcat([SP], ps[i]);
      }
    }
  }

  /**
   * Every physical line written is at most 74 octets long and, when the strings are well-formed
   * UTF-8, is itself well-formed.
   */
  lemma {:induction false} PrintedLinesGood(ns: seq<Node>, utf8: bool)
    requires forall i :: 0 <= i < |ns| ==> Readable(ns[i]) && (utf8 ==> Utf8Node(ns[i]))
    ensures GoodLines(PhysicalLines(PrintNodes(ns)), utf8)
  {
    hide NodePieces, Physical, Render, GoodLine, Utf8Node, Free;
    if ns != [] {
      var n, r := ns[0], PrintNodes(ns[1..]);
      PhysicalGood(n, utf8);
      NodePiecesFree(n);
      PhysicalRendered(NodePieces(n), r);
      PrintedLinesGood(ns[1..], utf8);
    }
  }

  /** The first octet written for a node is the first octet of its text. */
  lemma PrintNodeHead(n: Node, r: bytes)
    ensures StartsWs(PrintNode(n) + r) <==> StartsWs(n.name)
  {
    var ps := NodePieces(n);
    NodePiecesFirst(n);
    assert Render(ps) != [] && Render(ps)[0] == NodeText(n)[0] by {
      hide NodePieces;
      RenderFirst(ps);
    }
  }

  lemma {:induction false} RenderFirst(ps: seq<bytes>)
    requires ps != [] && ps[0] != []
    ensures Render(ps) != [] && Concat(ps) != [] && Render(ps)[0] == Concat(ps)[0] == ps[0][0]
    decreases |ps|
  {
    if |ps| == 1 {
      RenderOne(ps[0]);
      assert ps == [ps[0]];
    } else {
      RenderFirst(ps[..|ps| - 1]);
    }
  }

  lemma {:induction false} PutsFirst(ps: seq<bytes>, s: bytes)
    requires ps != [] && (ps[0] != [] || (ps == [[]] && s != []))
    ensures Puts(ps, s)[0] != []
    decreases |s|
  {
    if s != [] {
      PutsFirst(Emit(ps, s[..UnitLen(s)]), s[UnitLen(s)..]);
    }
  }

  lemma NodePiecesFirst(n: Node)
    ensures NodePieces(n)[0] != [] && NodeText(n) != []
    ensures Concat(NodePieces(n)) == NodeText(n)
    ensures NodeText(n)[0] == if n.name != [] then n.name[0] else if n.param.Some? then SEMI else COLON
  {
    NodePiecesText(n);
    var a := Puts([[]], n.name);
    if n.name != [] {
      PutsFirst([[]], n.name);
    }
    if n.param.Some? {
      PutsFirst(Delim(a, SEMI), n.param.value);
    }
    PutsFirst(Delim(NamePieces(n), COLON), n.val);
  }

  /** Reading back: exactly the nodes that were written, in order, and nothing after them. */
  lemma {:induction false} ReadBack(ns: seq<Node>)
    requires AllReadable(ns) && (ns != [] ==> NoWsNames(ns[1..]))
    ensures |Lines(PrintNodes(ns))| == |ns|
    ensures forall i :: 0 <= i < |ns| ==> Lines(PrintNodes(ns))[i] == Some(ns[i])
  {
    hide PrintNode, Unfold, SplitLine, Readable;
    if ns != [] {
      var n, t := ns[0], ns[1..];
      var r := PrintNodes(t);
      ReadBack(t);
      if t != [] {
        PrintNodeHead(t[0], PrintNodes(t[1..]));
      }
      ReadNode(n, r);
      assert forall i :: 0 <= i < |t| ==> t[i] == ns[i + 1];
    }
  }

  lemma ReadNode(n: Node, r: bytes)
    requires Readable(n) && !StartsWs(r)
    ensures Unfold(PrintNode(n) + r) == (NodeText(n), r)
    ensures SplitLine(NodeText(n)) == Some(n)
    ensures PrintNode(n) + r != []
  {
    hide NodePieces, Unfold, SplitLine, NodeText;
    NodePiecesFree(n);
    NodePiecesText(n);
    UnfoldRendered(NodePieces(n), r);
    SplitNodeText(n);
  }
}
