/** Writing property lines through the caller's callback. */
module IcalPrint {
  import opened Octets
  import opened IcalLines
  import opened IcalFold

  /** The caller's callback: it takes octets until it fails, here when `limit` is reached. */
  class Sink {
    const limit: nat
    var out: bytes

    constructor (limit: nat)
      ensures this.limit == limit && out == []
    {
      this.limit := limit;
      out := [];
    }

    /** The callback has failed on the way to `goal`: exactly what fits has been taken. */
    ghost predicate Stuck(goal: bytes)
      reads this
    {
      limit < |goal| && out == goal[..limit]
    }

    method Put(c: byte, ghost goal: bytes) returns (ok: bool)
      requires |out| <= limit && out + [c] <= goal
      modifies this
      ensures ok ==> out == old(out) + [c] && |out| <= limit
      ensures !ok ==> Stuck(goal)
    {
      ok := |out| < limit;
      if ok {
        out := out + [c];
      }
    }

    /** Consecutive callback calls, stopping at the first that fails. */
    method PutAll(s: bytes, ghost goal: bytes) returns (ok: bool)
      requires |out| <= limit && out + s <= goal
      modifies this
      ensures ok ==> out == old(out) + s && |out| <= limit
      ensures !ok ==> Stuck(goal)
    {
      ok := true;
      var i := 0;
      while i < |s|
        invariant 0 <= i <= |s| && |out| <= limit
        invariant out == old(out) + s[..i]
        invariant ok
      {
        assert old(out) + s[..i] + [s[i]] == (old(out) + s)[..|old(out)| + i + 1];
        ok := Put(s[i], goal);
        if !ok {
          return;
        }
        i := i + 1;
      }
    }
  }

  /** The buffer `c` holds the C string `s`. */
  ghost predicate IsCString(c: bytes, s: bytes) {
    |s| < |c| && c[..|s|] == s && c[|s|] == NUL && NUL !in s
  }

  /** strdup(3) of a string. */
  function Strdup(s: bytes): (c: bytes)
    requires NUL !in s
    ensures IsCString(c, s)
  {
    s + [NUL]
  }

  /**
   * How many octets to keep together at offset `i`, looking at one octet after the other.  Every
   * access is within the string and its terminator.
   */
  method UnitAt(c: bytes, i: nat, ghost s: bytes) returns (n: nat)
    requires IsCString(c, s) && i < |s|
    ensures n == UnitLen(s[i..])
  {
    if c[i] == 0x09 || c[i] == 0x0A || c[i] == 0x0D || 0x20 <= c[i] <= 0x7E {
      return 1;
    }
    if 0xC2 <= c[i] <= 0xDF && 0x80 <= c[i + 1] <= 0xBF {
      return 2;
    }
    if || (c[i] == 0xE0 && 0xA0 <= c[i + 1] <= 0xBF && 0x80 <= c[i + 2] <= 0xBF)
       || ((0xE1 <= c[i] <= 0xEC || c[i] == 0xEE || c[i] == 0xEF) &&
           0x80 <= c[i + 1] <= 0xBF && 0x80 <= c[i + 2] <= 0xBF)
       || (c[i] == 0xED && 0x80 <= c[i + 1] <= 0x9F && 0x80 <= c[i + 2] <= 0xBF) {
      return 3;
    }
    if || (c[i] == 0xF0 && 0x90 <= c[i + 1] <= 0xBF && 0x80 <= c[i + 2] <= 0xBF && 0x80 <= c[i + 3] <= 0xBF)
       || (0xF1 <= c[i] <= 0xF3 &&
           0x80 <= c[i + 1] <= 0xBF && 0x80 <= c[i + 2] <= 0xBF && 0x80 <= c[i + 3] <= 0xBF)
       || (c[i] == 0xF4 && 0x80 <= c[i + 1] <= 0x8F && 0x80 <= c[i + 2] <= 0xBF && 0x80 <= c[i + 3] <= 0xBF) {
      return 4;
    }
    return 1;
  }

  /** Break the line and write the blank, or write nothing; then write `u`. */
  method PutUnit(u: bytes, brk: bool, col0: nat, sink: Sink, ghost goal: bytes) returns (ok: bool, col: nat)
    requires |sink.out| <= sink.limit
    requires if brk then sink.out + BREAK + u <= goal else sink.out + u <= goal
    modifies sink
    ensures ok ==> sink.out == (if brk then old(sink.out) + BREAK + u else old(sink.out) + u)
    ensures ok ==> |sink.out| <= sink.limit && col == |u| + if brk then 1 else col0
    ensures !ok ==> sink.Stuck(goal)
  {
    col := col0;
    if brk {
      assert sink.out + BREAK <= sink.out + BREAK + u;
      ok := sink.PutAll(BREAK, goal);
      if !ok {
        return;
      }
      col := 1;
    }
    ok := sink.PutAll(u, goal);
    col := col + |u|;
  }

  lemma ConcatAssoc(a: bytes, b: bytes, c: bytes, d: bytes)
    ensures a + (b + c + d) == a + b + c + d && a + (b + d) == a + b + d
  {
  }

  lemma AtEnd(c: bytes, s: bytes, i: nat)
    requires IsCString(c, s) && i <= |s|
    ensures i < |c| && (c[i] == NUL <==> i == |s|)
  {
    assert i < |s| ==> c[i] == s[i];
  }

  lemma SliceOf(c: bytes, s: bytes, i: nat, n: nat)
    requires IsCString(c, s) && i + n <= |s|
    ensures i + n <= |c| && c[i..i + n] == s[i..i + n]
  {
    assert forall k :: 0 <= k < |s| ==> c[k] == s[k];
  }

  lemma PrefixUnder(a: bytes, b: bytes, c: bytes)
    requires b <= c
    ensures a + b <= a + c
  {
  }

  /** What writing one character adds to the output and to the column. */
  lemma EmitOut(ps: seq<bytes>, u: bytes, base: bytes)
    requires ps != []
    ensures var pre, r := base + Render(ps), Emit(ps, u);
            && base + Render(r) == (if Col(ps) + |u| >= 74 then pre + BREAK + u else pre + u)
            && Col(r) == |u| + (if Col(ps) + |u| >= 74 then 1 else Col(ps))
  {
    hide Render, Emit, Col;
    EmitText(ps, u);
    ConcatAssoc(base, Render(ps), BREAK, u);
  }

  lemma PutsStep(ps: seq<bytes>, s: bytes, i: nat, base: bytes)
    requires ps != [] && i < |s|
    ensures var n := UnitLen(s[i..]);
            var u, pre := s[i..i + n], base + Render(ps);
            var r := Emit(ps, u);
            && Puts(ps, s[i..]) == Puts(r, s[i + n..])
            && base + Render(r) == (if Col(ps) + n >= 74 then pre + BREAK + u else pre + u)
            && Col(r) == |u| + (if Col(ps) + n >= 74 then 1 else Col(ps))
            && base + Render(r) <= base + Render(Puts(ps, s[i..]))
  {
    hide Puts, UnitLen, Render, Emit, Col;
    var n := UnitLen(s[i..]);
    var u := s[i..i + n];
    assert s[i..][..n] == u && s[i..][n..] == s[i + n..];
    PutsCons(ps, s[i..]);
    EmitOut(ps, u, base);
    PutsGrows(Emit(ps, u), s[i + n..]);
    PrefixUnder(base, Render(Emit(ps, u)), Render(Puts(ps, s[i..])));
  }

  /** One character of a string, on a new line if the line is full. */
  method PutNext(c: bytes, i: nat, col0: nat, sink: Sink, ghost s: bytes, ghost ps: seq<bytes>, ghost base: bytes,
                 ghost goal: bytes) returns (ok: bool, n: nat, col: nat)
    requires IsCString(c, s) && i < |s| && ps != [] && col0 == Col(ps)
    requires sink.out == base + Render(ps) && |sink.out| <= sink.limit
    requires base + Render(Puts(ps, s[i..])) <= goal
    modifies sink
    ensures n > 0 && i + n <= |s| && Puts(ps, s[i..]) == Puts(Emit(ps, s[i..i + n]), s[i + n..])
    ensures ok ==> sink.out == base + Render(Emit(ps, s[i..i + n])) && |sink.out| <= sink.limit
    ensures ok ==> col == Col(Emit(ps, s[i..i + n]))
    ensures !ok ==> sink.Stuck(goal)
  {
    hide Render, UnitLen, Emit, Puts, Col, IsCString, Sink.Stuck;
    n := UnitAt(c, i, s);
    PutsStep(ps, s, i, base);
    SliceOf(c, s, i, n);
    ghost var r := base + Render(Emit(ps, s[i..i + n]));
    PrefixTrans(r, base + Render(Puts(ps, s[i..])), goal);
    assert r == if Col(ps) + n >= 74 then sink.out + BREAK + s[i..i + n] else sink.out + s[i..i + n];
    ok, col := PutUnit(c[i..i + n], col0 + n >= 74, col0, sink, goal);
  }

  /** The fold loop: characters are kept whole and the column is the one of the piece being written. */
  method PutString(c: bytes, col0: nat, sink: Sink, ghost ps: seq<bytes>, ghost base: bytes, ghost goal: bytes)
    returns (ok: bool, col: nat)
    requires NUL in c && ps != [] && col0 == Col(ps)
    requires sink.out == base + Render(ps) && |sink.out| <= sink.limit
    requires base + Render(Puts(ps, CStr(c))) <= goal
    modifies sink
    ensures ok ==> sink.out == base + Render(Puts(ps, CStr(c))) && |sink.out| <= sink.limit
    ensures ok ==> col == Col(Puts(ps, CStr(c)))
    ensures !ok ==> sink.Stuck(goal)
  {
    hide Render, UnitLen, Emit, Puts, Col, CStr, IsCString;
    ghost var s := CStr(c);
    TerminatedString(c);
    assert s[0..] == s;
    col := col0;
    ghost var q := ps;
    var i := 0;
    AtEnd(c, s, i);
    while c[i] != NUL
      invariant i <= |s| && i < |c| && (c[i] == NUL <==> i == |s|)
      invariant q != [] && col == Col(q)
      invariant Puts(q, s[i..]) == Puts(ps, s)
      invariant sink.out == base + Render(q) && |sink.out| <= sink.limit
      decreases |s| - i
    {
      var n;
      ok, n, col := PutNext(c, i, col, sink, s, q, base, goal);
      if !ok {
        return;
      }
      q := Emit(q, s[i..i + n]);
      i := i + n;
      AtEnd(c, s, i);
    }
    ok := true;
    PutsEnd(q);
    assert s[i..] == [];
  }

  /** A delimiter between name, parameters and value. */
  method PutDelim(c: byte, col0: nat, sink: Sink, ghost ps: seq<bytes>, ghost base: bytes, ghost goal: bytes)
    returns (ok: bool, col: nat)
    requires ps != [] && col0 == Col(ps)
    requires sink.out == base + Render(ps) && |sink.out| <= sink.limit
    requires base + Render(Delim(ps, c)) <= goal
    modifies sink
    ensures ok ==> sink.out == base + Render(Delim(ps, c)) && |sink.out| <= sink.limit
    ensures ok ==> col == Col(Delim(ps, c))
    ensures !ok ==> sink.Stuck(goal)
  {
    hide Render, Delim, Col;
    DelimText(ps, c);
    ConcatAssoc(base, Render(ps), BREAK, [c]);
    ok, col := PutUnit([c], col0 == 74, col0, sink, goal);
  }

  // ------------------------------------------------------------------
  // Property lines.

  /** The logical line of a node, before folding. */
  function NodeText(n: Node): bytes {
    n.name + (if n.param.Some? then [SEMI] + n.param.value else []) + [COLON] + n.val
  }

  function NamePieces(n: Node): (r: seq<bytes>)
    ensures r != []
  {
    var a := Puts([[]], n.name);
    if n.param.Some? then Puts(Delim(a, SEMI), n.param.value) else a
  }

  function NodePieces(n: Node): (r: seq<bytes>)
    ensures r != []
  {
    Puts(Delim(NamePieces(n), COLON), n.val)
  }

  function PrintNode(n: Node): bytes {
    Render(NodePieces(n)) + [CR, LF]
  }

  function PrintNodes(ns: seq<Node>): bytes {
    if ns == [] then [] else PrintNode(ns[0]) + PrintNodes(ns[1..])
  }

  lemma NameFilled(n: Node)
    ensures Filled(NamePieces(n))
  {
    hide Puts, Delim, Filled;
    OneFilled();
    PutsFilled([[]], n.name);
    var a := Puts([[]], n.name);
    if n.param.Some? {
      DelimFilled(a, SEMI);
      PutsFilled(Delim(a, SEMI), n.param.value);
    }
  }

  /** Lines that are not the last of a node are filled to their last four columns. */
  lemma NodeFilled(n: Node)
    ensures Filled(NodePieces(n))
  {
    hide Puts, Delim, Filled, NamePieces;
    NameFilled(n);
    DelimFilled(NamePieces(n), COLON);
    PutsFilled(Delim(NamePieces(n), COLON), n.val);
  }

  lemma OneFilled()
    ensures Filled([[]])
  {
  }

  /** Name and parameters on one line. */
  lemma NameOnOneLine(n: Node)
    ensures var head := n.name + if n.param.Some? then [SEMI] + n.param.value else [];
            && (|NamePieces(n)| == 1 ==> NamePieces(n) == [head])
            && (|NamePieces(n)| == 1 <==> |head| < 74 || (n.param == Some([]) && |head| == 74))
  {
    hide Puts, Delim, Filled;
    OneFilled();
    PutsOnOneLine([], n.name);
    PutsFilled([[]], n.name);
    assert [] + n.name == n.name;
    var a := Puts([[]], n.name);
    if n.param.Some? {
      DelimFilled(a, SEMI);
      PutsFilled(Delim(a, SEMI), n.param.value);
      DelimOnOneLine(n.name, SEMI);
      PutsOnOneLine(n.name + [SEMI], n.param.value);
      assert n.name + [SEMI] + n.param.value == n.name + ([SEMI] + n.param.value);
    } else {
      assert n.name + [] == n.name;
    }
  }

  /**
   * A property line is printed as it is, with its line end, exactly if it has fewer than 74 octets,
   * or 74 and no value.
   */
  lemma FoldedWhen(n: Node)
    ensures |NodePieces(n)| == 1 <==> |NodeText(n)| < 74 || (n.val == [] && |NodeText(n)| == 74)
    ensures |NodePieces(n)| == 1 ==> PrintNode(n) == NodeText(n) + Ascii("\r\n")
  {
    hide Puts, Delim, Filled, NamePieces;
    var head := n.name + if n.param.Some? then [SEMI] + n.param.value else [];
    NameOnOneLine(n);
    NameFilled(n);
    DelimFilled(NamePieces(n), COLON);
    PutsFilled(Delim(NamePieces(n), COLON), n.val);
    DelimOnOneLine(head, COLON);
    PutsOnOneLine(head + [COLON], n.val);
    Ends();
  }

  /** A folded line is broken by the line end and a blank. */
  lemma Ends()
    ensures [CR, LF] == Ascii("\r\n") && BREAK == Ascii("\r\n ")
  {
  }

  /** A list element; its strings are buffers with terminators. */
  class IcalNode {
    const name: bytes
    const param: Option<bytes>
    var val: bytes
    var next: IcalNode?

    constructor (name: bytes, param: Option<bytes>, val: bytes)
      requires NUL !in name && NUL !in val && (param.Some? ==> NUL !in param.value)
      ensures next == null && Terminated() && Value() == Node(name, param, val)
      ensures this.val == val + [NUL]
    {
      this.name := Strdup(name);
      this.param := if param.Some? then Some(Strdup(param.value)) else None;
      this.val := Strdup(val);
      next := null;
      new;
      StrdupValue(name);
      StrdupValue(val);
      if param.Some? {
        StrdupValue(param.value);
      }
    }

    ghost predicate Terminated()
      reads this`val
    {
      NUL in name && NUL in val && (param.Some? ==> NUL in param.value)
    }

    ghost function Value(): Node
      reads this`val
    {
      Node(CStr(name), if param.Some? then Some(CStr(param.value)) else None, CStr(val))
    }
  }

  lemma StrdupValue(s: bytes)
    requires NUL !in s
    ensures CStr(Strdup(s)) == s && NUL in Strdup(s)
  {
    CStrOf(Strdup(s), |s|);
    assert Strdup(s)[|s|] == NUL;
  }

  lemma TerminatedString(c: bytes)
    requires NUL in c
    ensures IsCString(c, CStr(c))
  {
    assert c[..|c|] == c;
  }

  ghost function Link(l: seq<IcalNode>, i: nat): IcalNode? {
    if i < |l| then l[i] else null
  }

  /** The elements of a list, in order. */
  ghost predicate Chain(l: seq<IcalNode>)
    reads l`next, l`val
  {
    && (forall i :: 0 <= i < |l| ==> l[i].next == Link(l, i + 1))
    && (forall i :: 0 <= i < |l| ==> l[i].Terminated())
  }

  ghost function Values(l: seq<IcalNode>): (r: seq<Node>)
    reads l`val
    ensures |r| == |l| && forall i :: 0 <= i < |l| ==> r[i] == l[i].Value()
  {
    if l == [] then [] else Values(l[..|l| - 1]) + [l[|l| - 1].Value()]
  }

  /** One property line with its line end. */
  method PrintOne(np: IcalNode, sink: Sink, ghost goal: bytes) returns (ok: bool)
    requires np.Terminated() && |sink.out| <= sink.limit
    requires sink.out + PrintNode(np.Value()) <= goal
    modifies sink
    ensures ok ==> sink.out == old(sink.out) + PrintNode(np.Value()) && |sink.out| <= sink.limit
    ensures !ok ==> sink.Stuck(goal)
  {
    hide Render, Delim, Col, Puts, CStr, PrintNode;
    ghost var base, n, ps := sink.out, np.Value(), [[]];
    PrintSteps(base, n);
    var col := 0;
    ok, col := PutString(np.name, col, sink, ps, base, goal);
    if !ok {
      return;
    }
    ps := Puts(ps, n.name);
    if np.param != None {
      ok, col := PutDelim(SEMI, col, sink, ps, base, goal);
      if !ok {
        return;
      }
      ps := Delim(ps, SEMI);
      ok, col := PutString(np.param.value, col, sink, ps, base, goal);
      if !ok {
        return;
      }
      ps := Puts(ps, n.param.value);
    }
    ok, col := PutDelim(COLON, col, sink, ps, base, goal);
    if !ok {
      return;
    }
    ok, col := PutString(np.val, col, sink, Delim(ps, COLON), base, goal);
    if !ok {
      return;
    }
    ok := sink.PutAll([CR, LF], goal);
  }

  lemma PrefixUnder4(base: bytes, a: bytes, b: bytes, c: bytes, d: bytes, p: bytes)
    requires a <= p && b <= p && c <= p && d <= p
    ensures base + a <= base + p && base + b <= base + p && base + c <= base + p && base + d <= base + p
  {
  }

  lemma PrefixTrans(a: bytes, b: bytes, c: bytes)
    requires a <= b && b <= c
    ensures a <= c
  {
  }

  lemma RenderNone(base: bytes)
    ensures Render([[]]) == [] && Col([[]]) == 0 && base + Render([[]]) == base
  {
  }

  /** Everything written on the way to a complete line is a prefix of it. */
  lemma PrintSteps(base: bytes, n: Node)
    ensures Render([[]]) == [] && Col([[]]) == 0 && base + Render([[]]) == base
    ensures var total, a := base + PrintNode(n), Puts([[]], n.name);
            && base + Render(a) <= total
            && base + Render(if n.param.Some? then Delim(a, SEMI) else a) <= total
            && base + Render(NamePieces(n)) <= total
            && base + Render(Delim(NamePieces(n), COLON)) <= total
            && base + Render(NodePieces(n)) <= total
            && base + Render(NodePieces(n)) + [CR, LF] == total
  {
    hide Puts, Delim, Render;
    RenderNone(base);
    var a, b := Puts([[]], n.name), NamePieces(n);
    var c, d := Delim(b, COLON), NodePieces(n);
    var a' := if n.param.Some? then Delim(a, SEMI) else a;
    if n.param.Some? {
      DelimText(a, SEMI);
      PutsGrows(a', n.param.value);
    }
    DelimText(b, COLON);
    PutsGrows(c, n.val);
    PrefixTrans(Render(b), Render(c), Render(d));
    PrefixTrans(Render(a'), Render(b), Render(d));
    PrefixTrans(Render(a), Render(a'), Render(d));
    PrefixUnder4(base, Render(a), Render(a'), Render(b), Render(c), Render(d));
    assert base + (Render(d) + [CR, LF]) == base + Render(d) + [CR, LF];
  }

  lemma ValuesTail(l: seq<IcalNode>)
    requires l != []
    ensures Values(l)[0] == l[0].Value() && Values(l)[1..] == Values(l[1..])
  {
    hide IcalNode.Value;
    assert forall i :: 0 <= i < |l| - 1 ==> l[1..][i] == l[i + 1];
  }

  lemma PrintCons(l: seq<IcalNode>, base: bytes)
    requires l != []
    ensures base + PrintNodes(Values(l)) == base + PrintNode(l[0].Value()) + PrintNodes(Values(l[1..]))
  {
    hide PrintNode;
    ValuesTail(l);
    ConcatAssoc(base, PrintNode(l[0].Value()), [], PrintNodes(Values(l[1..])));
  }

  /** Print a list from `np` on: all of it, or what fits when the callback fails. */
  method Print(np: IcalNode?, sink: Sink, ghost l: seq<IcalNode>) returns (ok: bool)
    requires Chain(l) && np == Link(l, 0) && |sink.out| <= sink.limit
    modifies sink
    ensures ok <==> |old(sink.out) + PrintNodes(Values(l))| <= sink.limit
    ensures ok ==> sink.out == old(sink.out) + PrintNodes(Values(l))
    ensures !ok ==> sink.Stuck(old(sink.out) + PrintNodes(Values(l)))
    decreases |l|
  {
    hide PrintNode, PrintNodes, Values, Chain, Link;
    FirstLink(l);
    if np == null {
      PrintNothing(sink.out, l);
      return true;
    }
    PrintCons(l, sink.out);
    ok := PrintOne(np, sink, sink.out + PrintNodes(Values(l)));
    if !ok {
      return;
    }
    ChainTail(l);
    ok := Print(np.next, sink, l[1..]);
  }

  lemma FirstLink(l: seq<IcalNode>)
    requires Chain(l)
    ensures Link(l, 0) == if l == [] then null else l[0]
    ensures l != [] ==> l[0].Terminated()
  {
  }

  lemma ChainTail(l: seq<IcalNode>)
    requires l != [] && Chain(l)
    ensures Chain(l[1..]) && l[0].next == Link(l[1..], 0)
  {
    assert forall i :: 0 <= i < |l| - 1 ==> l[1..][i] == l[i + 1];
    assert forall i :: 0 <= i ==> Link(l[1..], i) == Link(l, i + 1);
  }

  lemma PrintNothing(base: bytes, l: seq<IcalNode>)
    requires l == []
    ensures base + PrintNodes(Values(l)) == base
  {
  }
}
