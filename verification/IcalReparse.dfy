/** Parsing what was printed: when it gives back the same calendar, and what it gives otherwise. */
module IcalReparse {
  import opened Octets
  import opened IcalLines
  import opened IcalPrint
  import opened IcalRoundTrip
  import opened IcalModel

  // ------------------------------------------------------------------
  // Durations read a second time.

  function ZeroDur(d: Dur): Dur {
    Dur(d.sign, 0, 0, 0, 0, 0)
  }

  /** The value left in the node can be read as a duration again. */
  predicate Rereads(v: bytes) {
    var cut := Duration(v).cut;
    cut.Some? ==> 0 < cut.value <= |v| && IsDigit(v[cut.value - 1])
  }

  /** The scan of a value up to the first unit, where the scan of what is left of it stops. */
  lemma {:induction false} UnitsAgain(s: bytes, i: nat, d: Dur)
    requires i <= |s| && DurUnits(s, i, d, None).ok
    ensures var r := DurUnits(s, i, d, None);
            && r.dur.sign == d.sign
            && (r.cut.None? ==> r.dur == d)
            && (r.cut.Some? ==>
                  var k := r.cut.value;
                  && i <= k
                  && DurUnits(s[..k], i, d, None).cut == None
                  && (i == k || !IsDigit(s[k - 1]) ==> k == i || !DurUnits(s[..k], i, d, None).ok)
                  && (i < k && IsDigit(s[k - 1]) ==> DurUnits(s[..k], i, d, None) == DurScan(true, d, None)))
    decreases |s| - i
  {
    if i < |s| {
      if s[i] == 84 {
        UnitsAgain(s, i + 1, d);
      } else {
        var j := SkipDigits(s, i);
        if j < |s| {
          DurUnitsCut(s, i, d, None);
          SkipDigitsPrefix(s, i, j);
        }
      }
    }
  }

  lemma {:induction false} SkipDigitsPrefix(s: bytes, i: nat, j: nat)
    requires i <= j <= |s| && j == SkipDigits(s, i)
    ensures SkipDigits(s[..j], i) == j
    decreases j - i
  {
    if i < j {
      SkipDigitsPrefix(s, i + 1, j);
    }
  }

  /** Only the first unit sets the cut, and the sign never changes. */
  lemma {:induction false} DurUnitsCut(s: bytes, i: nat, d: Dur, cut: Option<nat>)
    requires i <= |s| && (cut.Some? ==> cut.value < |s|)
    ensures cut.Some? ==> DurUnits(s, i, d, cut).cut == cut
    ensures DurUnits(s, i, d, cut).dur.sign == d.sign
    ensures cut.None? && i < |s| && s[i] != 84 && SkipDigits(s, i) < |s| ==>
              DurUnits(s, i, d, cut).cut == Some(SkipDigits(s, i))
    decreases |s| - i
  {
    if i < |s| {
      if s[i] == 84 {
        if i + 1 < |s| {
          DurUnitsCut(s, i + 1, d, cut);
        }
      } else {
        var j := SkipDigits(s, i);
        if j < |s| {
          var amount := Ulong(s[i..j]);
          var d' := SetUnit(d, s[j], if amount.Some? then amount.value else 0);
          if d'.Some? && amount.Some? {
            DurUnitsCut(s, j + 1, d'.value, if cut.Some? then cut else Some(j));
          }
        }
      }
    }
  }

  /** A second reading succeeds exactly when a digit came before the first unit, and reads zero. */
  lemma RereadDuration(v: bytes)
    requires Duration(v).ok
    ensures Duration(AfterDuration(v)).ok <==> Rereads(v)
    ensures Rereads(v) ==> Duration(AfterDuration(v)) == DurScan(true, ZeroDur(Duration(v).dur), None)
    ensures Rereads(v) ==> AfterDuration(AfterDuration(v)) == AfterDuration(v)
  {
    var i, d := DurStart(v), NO_DUR.(sign := DurSign(v));
    UnitsAgain(v, i, d);
    var cut := Duration(v).cut;
    if cut.Some? {
      var t := v[..cut.value];
      assert AfterDuration(v) == t && i <= |t|;
      if i < |t| {
        assert DurStart(t) == i && DurSign(t) == DurSign(v);
      }
    }
  }

  // ------------------------------------------------------------------
  // The machine on its own output.

  function ZeroComp(c: Comp): Comp {
    c.(duration := ZeroDur(c.duration))
  }

  function ZeroComps(cs: seq<Comp>): (r: seq<Comp>)
    ensures |r| == |cs| && forall i :: 0 <= i < |cs| ==> r[i] == ZeroComp(cs[i])
  {
    seq(|cs|, i requires 0 <= i < |cs| => ZeroComp(cs[i]))
  }

  function ZeroState(st: State): State {
    st.(comps := ZeroComps(st.comps))
  }

  function Somes(ns: seq<Node>): (r: seq<Option<Node>>)
    ensures |r| == |ns| && forall i :: 0 <= i < |ns| ==> r[i] == Some(ns[i])
  {
    seq(|ns|, i requires 0 <= i < |ns| => Some(ns[i]))
  }

  /** The node that a step leaves in the list. */
  function Recorded(st: State, n: Node): Node
    requires st.stack != []
  {
    if Top(st).InComp? && IsDuration(n) then n.(val := AfterDuration(n.val)) else n
  }

  /** Every duration read by a component on this run can be read again. */
  ghost predicate DurationsReread(leaf: Leaf, st: State, ls: seq<Option<Node>>)
    requires Wf(st)
    decreases |ls|
  {
    if st.stack == [] || ls == [] || ls[0].None? then true
    else
      match Step(leaf, st, ls[0].value)
      case None => true
      case Some(st') =>
        StepKeepsWf(leaf, st, ls[0].value);
        && (Top(st).InComp? && IsDuration(ls[0].value) ==> Rereads(ls[0].value.val))
        && DurationsReread(leaf, st', ls[1..])
  }

  lemma StepRecords(leaf: Leaf, st: State, n: Node)
    requires Wf(st) && st.stack != [] && Step(leaf, st, n).Some?
    ensures Step(leaf, st, n).value.nodes == st.nodes + [Recorded(st, n)]
  {
    hide Property, TzProperty, CompDone, TzDone, AfterDuration, FindName;
  }

  lemma ZeroIndices(cs: seq<Comp>)
    ensures Indices(ZeroComps(cs), VTIMEZONE) == Indices(cs, VTIMEZONE)
  {
    IndicesOfTypes(ZeroComps(cs), cs, VTIMEZONE);
  }

  lemma ZeroProperty(leaf: Leaf, c: Comp, n: Node)
    requires !IsDuration(n)
    ensures Property(leaf, ZeroComp(c), n) ==
            match Property(leaf, c, n) case None => None case Some(d) => Some(ZeroComp(d))
  {
  }

  /** Blanking commutes with everything a step does to the components. */
  lemma ZeroSet(st: State, ci: nat, c: Comp)
    requires ci < |st.comps|
    ensures ZeroState(SetComp(st, ci, c)) == SetComp(ZeroState(st), ci, ZeroComp(c))
  {
    assert ZeroComps(st.comps[ci := c]) == ZeroComps(st.comps)[ci := ZeroComp(c)];
  }

  lemma ZeroPushComp(st: State, t: IcalType)
    ensures ZeroState(PushComp(st, t)) == PushComp(ZeroState(st), t)
  {
    assert ZeroComps(st.comps + [NewComp(t)]) == ZeroComps(st.comps) + [NewComp(t)];
  }

  lemma ZeroPushTz(st: State, z: nat)
    ensures PushTz(ZeroState(st), z) ==
            match PushTz(st, z) case None => None case Some(s) => Some(ZeroState(s))
  {
    hide Indices;
    ZeroIndices(st.comps);
    var tzs := Indices(st.comps, VTIMEZONE);
    if tzs != [] {
      var ci := tzs[|tzs| - 1];
      var c := st.comps[ci];
      ZeroSet(st, ci, c.(tzs := c.tzs + [NewTz(z)]));
    }
  }

  lemma ZeroClose(st: State)
    requires st.stack != [] && FrameOk(st.comps, Top(st))
    ensures Close(ZeroState(st)) == match Close(st) case None => None case Some(s) => Some(ZeroState(s))
  {
  }

  lemma ZeroStepComp(leaf: Leaf, st: State, n: Node)
    requires Wf(st) && st.stack != [] && Top(st).InComp? && StepComp(leaf, st, n).Some?
    ensures FrameOk(ZeroState(st).comps, Top(st))
    ensures var again := StepComp(leaf, ZeroState(st), Recorded(st, n));
            if IsDuration(n) && !Rereads(n.val) then again.None?
            else again == Some(ZeroState(StepComp(leaf, st, n).value))
  {
    hide Property, Close, PushComp, PushTz, AfterDuration, Rereads, SetComp, CompDone;
    var r := Record(st, Recorded(st, n));
    var ci := Top(st).ci;
    var c := st.comps[ci];
    if Named(n, Ascii("BEGIN")) {
      var t := FindName(ICALTYPES, n.val);
      ZeroPushComp(r, if t < 7 then t else VEVENT);
      ZeroPushTz(r, FindName(ICALTZTYPES, n.val));
    } else if Named(n, Ascii("END")) {
      ZeroClose(r);
    } else if IsDuration(n) {
      RereadDuration(n.val);
      ZeroSet(r, ci, c.(duration := Duration(n.val).dur));
    } else {
      ZeroProperty(leaf, c, n);
      ZeroSet(r, ci, Property(leaf, c, n).value);
    }
  }

  lemma ZeroStepTz(leaf: Leaf, st: State, n: Node)
    requires Wf(st) && st.stack != [] && Top(st).InTz? && StepTz(leaf, st, n).Some?
    ensures FrameOk(ZeroState(st).comps, Top(st))
    ensures StepTz(leaf, ZeroState(st), n) == Some(ZeroState(StepTz(leaf, st, n).value))
  {
    hide TzProperty, Close, SetComp;
    var r := Record(st, n);
    var InTz(ci, ti) := Top(st);
    var c := st.comps[ci];
    if Named(n, Ascii("END")) {
      ZeroClose(r);
    } else {
      ZeroSet(r, ci, c.(tzs := c.tzs[ti := TzProperty(leaf, c.tzs[ti], n).value]));
    }
  }

  /** One step on the recorded line, from the blanked state. */
  lemma ZeroStep(leaf: Leaf, st: State, n: Node)
    requires Wf(st) && st.stack != [] && Step(leaf, st, n).Some?
    ensures Wf(ZeroState(st))
    ensures var again := Step(leaf, ZeroState(st), Recorded(st, n));
            if Top(st).InComp? && IsDuration(n) && !Rereads(n.val) then again.None?
            else again == Some(ZeroState(Step(leaf, st, n).value))
  {
    hide StepComp, StepTz, Rereads, IsDuration;
    ZeroWf(st);
    if Top(st).InComp? {
      ZeroStepComp(leaf, st, n);
    } else {
      ZeroStepTz(leaf, st, n);
    }
  }

  lemma ZeroWf(st: State)
    requires Wf(st)
    ensures Wf(ZeroState(st)) && ZeroState(st).stack == st.stack && ZeroState(st).nodes == st.nodes
  {
  }

  lemma RereadCons(leaf: Leaf, st: State, n: Node, ls: seq<Option<Node>>)
    requires Wf(st) && st.stack != [] && Step(leaf, st, n).Some?
    ensures Wf(Step(leaf, st, n).value)
    ensures DurationsReread(leaf, st, [Some(n)] + ls) <==>
              (Top(st).InComp? && IsDuration(n) ==> Rereads(n.val)) &&
              DurationsReread(leaf, Step(leaf, st, n).value, ls)
  {
    hide Step, Rereads, IsDuration;
    assert ([Some(n)] + ls)[1..] == ls;
    StepKeepsWf(leaf, st, n);
  }

  /** At the end of the input nothing is recorded, and blanking makes no difference. */
  lemma {:induction false} RerunClosing(leaf: Leaf, st: State)
    requires Wf(st) && Run(leaf, st, []).Some?
    ensures Wf(ZeroState(st)) && Run(leaf, st, []).value.0.nodes == st.nodes && Run(leaf, st, []).value.1 == []
    ensures Run(leaf, ZeroState(st), []) == Some((ZeroState(Run(leaf, st, []).value.0), []))
    decreases |st.stack|
  {
    hide Run, Close, ZeroState;
    ZeroWf(st);
    RunClosing(leaf, st);
    RunClosing(leaf, ZeroState(st));
    if st.stack != [] {
      CloseShrinks(st);
      ZeroClose(st);
      RerunClosing(leaf, Close(st).value);
    }
  }

  lemma CloseShrinks(st: State)
    requires st.stack != [] && FrameOk(st.comps, Top(st)) && Close(st).Some?
    ensures |Close(st).value.stack| < |st.stack| && Close(st).value.nodes == st.nodes
  {
  }

  /** Running on the recorded lines: the same lines again, the components with blank durations. */
  lemma {:induction false} Rerun(leaf: Leaf, st: State, ls: seq<Option<Node>>)
    requires Wf(st) && Run(leaf, st, ls).Some?
    ensures Wf(ZeroState(st))
    ensures var (fin, rest) := Run(leaf, st, ls).value;
            && st.nodes <= fin.nodes
            && |fin.nodes| - |st.nodes| == |ls| - |rest|
            && Run(leaf, ZeroState(st), Somes(fin.nodes[|st.nodes|..])) ==
               if DurationsReread(leaf, st, ls) then Some((ZeroState(fin), [])) else None
    decreases |ls|, 0
  {
    var (fin, rest) := Run(leaf, st, ls).value;
    ZeroWf(st);
    if st.stack == [] {
      assert Somes(fin.nodes[|st.nodes|..]) == [];
    } else if ls == [] {
      RerunClosing(leaf, st);
      assert Somes(fin.nodes[|st.nodes|..]) == [];
    } else {
      RerunStep(leaf, st, ls[0].value, ls[1..]);
      assert ls == [ls[0]] + ls[1..];
    }
  }

  lemma {:induction false} RerunStep(leaf: Leaf, st: State, n: Node, ls: seq<Option<Node>>)
    requires Wf(st) && Wf(ZeroState(st)) && st.stack != [] && Run(leaf, st, [Some(n)] + ls).Some?
    ensures var (fin, rest) := Run(leaf, st, [Some(n)] + ls).value;
            && st.nodes <= fin.nodes
            && |fin.nodes| - |st.nodes| == 1 + |ls| - |rest|
            && Run(leaf, ZeroState(st), Somes(fin.nodes[|st.nodes|..])) ==
               if DurationsReread(leaf, st, [Some(n)] + ls) then Some((ZeroState(fin), [])) else None
    decreases |ls|, 1
  {
    hide Run, Step, ZeroState, DurationsReread, Rereads, IsDuration;
    RunCons(leaf, st, n, ls);
    RereadCons(leaf, st, n, ls);
    StepRecords(leaf, st, n);
    ZeroStep(leaf, st, n);
    ZeroWf(st);
    var st' := Step(leaf, st, n).value;
    Rerun(leaf, st', ls);
    var fin := Run(leaf, st, [Some(n)] + ls).value.0;
    var m, more := Recorded(st, n), fin.nodes[|st'.nodes|..];
    assert fin.nodes[|st.nodes|] == m;
    assert Somes(fin.nodes[|st.nodes|..]) == [Some(m)] + Somes(more);
    RunCons(leaf, ZeroState(st), m, Somes(more));
  }

  // ------------------------------------------------------------------
  // What the reader delivers can be printed.

  lemma {:induction false} UnfoldNoLf(s: bytes)
    ensures LF !in Unfold(s).0
    decreases |s|
  {
    hide Unfold, Span, Chomp;
    NothingLeft();
    if s != [] {
      UnfoldOnce(s);
      var e := Span(s, LF);
      if e < |s| && StartsWs(s[e + 1..]) {
        UnfoldNoLf(s[e + 1..][1..]);
      } else {
        assert s[..|s|] == s;
      }
    }
  }

  ghost predicate ReadableLines(ls: seq<Option<Node>>) {
    forall i :: 0 <= i < |ls| && ls[i].Some? ==> Readable(ls[i].value)
  }

  lemma {:induction false} LinesReadable(s: bytes)
    ensures ReadableLines(Lines(s))
    decreases |s|
  {
    hide SplitLine, Unfold, Readable;
    if s != [] {
      UnfoldNoLf(s);
      if SplitLine(Unfold(s).0).Some? {
        SplitReadable(Unfold(s).0);
      }
      LinesReadable(Unfold(s).1);
    }
  }

  lemma RecordedReadable(st: State, n: Node)
    requires st.stack != [] && Readable(n)
    ensures Readable(Recorded(st, n)) && Recorded(st, n).name == n.name
  {
    hide Duration, IsDuration;
    var cut := Duration(n.val).cut;
    if cut.Some? {
      assert forall c :: c in n.val[..cut.value] ==> c in n.val;
    }
  }

  lemma {:induction false} RunReadable(leaf: Leaf, st: State, ls: seq<Option<Node>>)
    requires Wf(st) && Run(leaf, st, ls).Some? && ReadableLines(ls) && AllReadable(st.nodes)
    ensures AllReadable(Run(leaf, st, ls).value.0.nodes)
    decreases |ls|, |st.stack|
  {
    hide Step, Readable;
    if st.stack == [] {
    } else if ls == [] {
      CloseKeepsWf(st);
      RunReadable(leaf, Close(st).value, ls);
    } else {
      StepKeepsWf(leaf, st, ls[0].value);
      StepRecords(leaf, st, ls[0].value);
      RecordedReadable(st, ls[0].value);
      RunReadable(leaf, Step(leaf, st, ls[0].value).value, ls[1..]);
    }
  }

  // ------------------------------------------------------------------
  // Names that look like continuations are lost.

  lemma WsTail(r: bytes)
    requires StartsWs(r) && |r| > 1
    ensures Unfold(r).1 == Unfold(r[1..]).1
  {
    hide Unfold, Span, Chomp;
    var s := r[1..];
    var e := Span(s, LF);
    UnfoldOnce(r);
    UnfoldOnce(s);
    assert r[..e + 1] == [r[0]] + s[..e];
    SpanUnique(r, LF, e + 1);
    if e < |s| {
      assert r[e + 2..] == s[e + 1..];
    }
  }

  lemma PrintNodesLong(ns: seq<Node>)
    requires ns != []
    ensures |PrintNodes(ns)| > 1
  {
  }

  /** How many names start with white space. */
  ghost function WsNames(ns: seq<Node>): nat {
    if ns == [] then 0 else (if StartsWs(ns[0].name) then 1 else 0) + WsNames(ns[1..])
  }

  lemma {:induction false} NoneAreWs(ns: seq<Node>)
    ensures NoWsNames(ns) <==> WsNames(ns) == 0
  {
    if ns != [] {
      NoneAreWs(ns[1..]);
      assert forall i :: 1 <= i < |ns| ==> ns[i] == ns[1..][i - 1];
    }
  }

  /** Reading back gives one line less for every name after the first that starts with white space. */
  lemma {:induction false} ReadBackCount(ns: seq<Node>)
    requires AllReadable(ns)
    ensures |Lines(PrintNodes(ns))| == |ns| - if ns == [] then 0 else WsNames(ns[1..])
  {
    hide PrintNode, Unfold, SplitLine, Readable;
    if ns != [] {
      var n, t := ns[0], ns[1..];
      var r := PrintNodes(t);
      ReadBackCount(t);
      ReadJoined(n, r);
      if t != [] {
        PrintNodeHead(t[0], PrintNodes(t[1..]));
        PrintNodesLong(t);
        if StartsWs(r) {
          WsTail(r);
        }
      }
    }
  }

  /** So reading back gives the nodes if and only if no name after the first starts with white space. */
  lemma ReadBackExact(ns: seq<Node>)
    requires AllReadable(ns)
    ensures Lines(PrintNodes(ns)) == Somes(ns) <==> ns == [] || NoWsNames(ns[1..])
  {
    hide PrintNodes, Lines, Readable;
    ReadBackCount(ns);
    if ns != [] {
      NoneAreWs(ns[1..]);
    }
    if ns == [] || NoWsNames(ns[1..]) {
      ReadBack(ns);
    }
  }

  lemma ReadJoined(n: Node, r: bytes)
    requires Readable(n)
    ensures Unfold(PrintNode(n) + r).1 == if StartsWs(r) then Unfold(r[1..]).1 else r
    ensures PrintNode(n) + r != []
  {
    hide NodePieces, Unfold, NodeText;
    NodePiecesFree(n);
    UnfoldRendered(NodePieces(n), r);
  }

  // ------------------------------------------------------------------
  // The whole parser.

  ghost predicate AllZero(cs: seq<Comp>) {
    forall i :: 0 <= i < |cs| ==> cs[i].duration == ZeroDur(cs[i].duration)
  }

  ghost function Printed(c: Ical): bytes {
    PrintNodes(c.nodes)
  }

  /** The run of the machine behind a successful parse. */
  ghost predicate Rereadable(leaf: Leaf, cp: bytes)
    requires Parse(leaf, cp).Some?
  {
    DurationsReread(leaf, Opened(Lines(cp)[0].value), Lines(cp)[1..])
  }

  lemma {:induction false} ZeroFindTz(cs: seq<Comp>, zs: seq<nat>, id: bytes)
    requires forall i :: 0 <= i < |zs| ==> zs[i] < |cs| && cs[zs[i]].tzid.Some?
    ensures FindTz(ZeroComps(cs), zs, id) == FindTz(cs, zs, id)
  {
    if zs != [] {
      ZeroFindTz(cs, zs[1..], id);
    }
  }

  lemma ZeroLinkable(cs: seq<Comp>)
    requires TzIdsSet(cs)
    ensures TzIdsSet(ZeroComps(cs))
    ensures Linkable(ZeroComps(cs)) == Linkable(cs)
    ensures forall tm :: TzOf(ZeroComps(cs), tm) == TzOf(cs, tm)
  {
    ZeroIndices(cs);
    forall tm: ITime
      ensures TzOf(ZeroComps(cs), tm) == TzOf(cs, tm)
    {
      if tm.tzstr.Some? {
        ZeroFindTz(cs, Indices(cs, VTIMEZONE), tm.tzstr.value);
      }
    }
    var zs := ZeroComps(cs);
    assert forall i :: 0 <= i < |cs| ==> zs[i].dtstart == cs[i].dtstart && zs[i].dtend == cs[i].dtend;
  }

  /** What the lines recorded by a successful parse parse to. */
  lemma ReparseLines(leaf: Leaf, cp: bytes)
    requires Parse(leaf, cp).Some?
    ensures var c := Parse(leaf, cp).value.0;
            && c.nodes != [] && !StartsWs(c.nodes[0].name) && AllReadable(c.nodes)
            && ParseLines(leaf, Somes(c.nodes)) ==
               if Rereadable(leaf, cp) then Some((Ical(c.nodes, ZeroComps(c.comps)), [])) else None
  {
    hide Run, Linkable, TzOf, DurationsReread, ZeroComps, Readable;
    var ls := Lines(cp);
    var n := ls[0].value;
    var st := Opened(n);
    var (fin, rest) := Run(leaf, st, ls[1..]).value;
    LinesReadable(cp);
    RunReadable(leaf, st, ls[1..]);
    Rerun(leaf, st, ls[1..]);
    OpenedZero(n);
    RunSetsTzIds(leaf, st, ls[1..]);
    ZeroLinkable(fin.comps);
    assert fin.nodes == [n] + fin.nodes[1..];
    assert Somes(fin.nodes)[1..] == Somes(fin.nodes[1..]);
  }

  lemma OpenedZero(n: Node)
    ensures ZeroState(Opened(n)) == Opened(n)
  {
    assert ZeroComps([NewComp(VCALENDAR)]) == [NewComp(VCALENDAR)];
  }

  lemma {:induction false} RunCounts(leaf: Leaf, ls: seq<Option<Node>>)
    requires ParseLines(leaf, ls).Some?
    ensures |ParseLines(leaf, ls).value.0.nodes| <= |ls|
  {
    Rerun(leaf, Opened(ls[0].value), ls[1..]);
  }

  /**
   * Printing and parsing again.  The calendar comes back unchanged, and all of the output is read,
   * exactly when no name starts with white space, every duration can be read a second time, and
   * every duration was zero.  Under the first two conditions all but the durations comes back.
   */
  lemma ReparseExact(leaf: Leaf, cp: bytes)
    requires Parse(leaf, cp).Some?
    ensures var c := Parse(leaf, cp).value.0;
            && (NoWsNames(c.nodes) && Rereadable(leaf, cp) ==>
                  Parse(leaf, Printed(c)) == Some((Ical(c.nodes, ZeroComps(c.comps)), [])))
            && (NoWsNames(c.nodes) && !Rereadable(leaf, cp) ==> Parse(leaf, Printed(c)) == None)
            && (Parse(leaf, Printed(c)) == Some((c, [])) <==>
                  NoWsNames(c.nodes) && Rereadable(leaf, cp) && AllZero(c.comps))
  {
    hide ParseLines, PrintNodes, Lines, Rereadable, Readable;
    var c := Parse(leaf, cp).value.0;
    ReparseLines(leaf, cp);
    ReadBackExact(c.nodes);
    if NoWsNames(c.nodes) {
      assert AllZero(c.comps) <==> ZeroComps(c.comps) == c.comps;
    } else {
      assert !NoWsNames(c.nodes[1..]);
      NoneAreWs(c.nodes[1..]);
      ReadBackCount(c.nodes);
      if Parse(leaf, Printed(c)).Some? {
        RunCounts(leaf, Lines(Printed(c)));
      }
    }
  }

  // ------------------------------------------------------------------
  // Without durations, and what goes wrong otherwise.

  ghost predicate NoDurations(ns: seq<Node>) {
    forall i :: 0 <= i < |ns| ==> !IsDuration(ns[i])
  }

  lemma StepZero(leaf: Leaf, st: State, n: Node)
    requires Wf(st) && st.stack != [] && Step(leaf, st, n).Some? && !IsDuration(n) && AllZero(st.comps)
    ensures AllZero(Step(leaf, st, n).value.comps)
  {
    hide Property, TzProperty, CompDone, TzDone, AfterDuration, IsDuration, FindName, Named;
  }

  lemma {:induction false} RunZero(leaf: Leaf, st: State, ls: seq<Option<Node>>)
    requires Wf(st) && Run(leaf, st, ls).Some? && AllZero(st.comps)
    requires NoDurations(Run(leaf, st, ls).value.0.nodes)
    ensures DurationsReread(leaf, st, ls) && AllZero(Run(leaf, st, ls).value.0.comps)
    decreases |ls|, |st.stack|
  {
    hide Step, Rereads, AllZero;
    if st.stack == [] {
    } else if ls == [] {
      CloseKeepsWf(st);
      RunZero(leaf, Close(st).value, ls);
    } else {
      var n := ls[0].value;
      StepKeepsWf(leaf, st, n);
      var st' := Step(leaf, st, n).value;
      StepRecords(leaf, st, n);
      Rerun(leaf, st', ls[1..]);
      var ns := Run(leaf, st, ls).value.0.nodes;
      assert ns[|st.nodes|] == ns[..|st'.nodes|][|st.nodes|] == Recorded(st, n);
      StepZero(leaf, st, n);
      RunZero(leaf, st', ls[1..]);
    }
  }

  /** A calendar without durations and without odd names survives printing and parsing. */
  lemma ReparseSame(leaf: Leaf, cp: bytes)
    requires Parse(leaf, cp).Some?
    requires NoWsNames(Parse(leaf, cp).value.0.nodes) && NoDurations(Parse(leaf, cp).value.0.nodes)
    ensures Parse(leaf, Printed(Parse(leaf, cp).value.0)) == Some((Parse(leaf, cp).value.0, []))
  {
    var ls := Lines(cp);
    RunZero(leaf, Opened(ls[0].value), ls[1..]);
    hide Printed, Run, DurationsReread, AllZero;
    ReparseExact(leaf, cp);
  }

  const BEGIN_CALENDAR := Node(Ascii("BEGIN"), None, Ascii("VCALENDAR"))
  const BLANK_NAME := Node(Ascii(" X"), None, Ascii("1"))

  function DurationLine(v: bytes): Node {
    Node(Ascii("DURATION"), None, v)
  }

  lemma HourRead()
    ensures Duration(Ascii("PT1H")) == DurScan(true, Dur(1, 0, 0, 1, 0, 0), Some(3))
    ensures AfterDuration(Ascii("PT1H")) == Ascii("PT1")
  {
    var s := Ascii("PT1H");
    assert Decimal([49]) == 1;
    assert s[2..3] == [49];
    assert SkipDigits(s, 3) == 3;
    assert SkipDigits(s, 2) == 3;
    var d := NO_DUR.(sign := 1);
    assert DurUnits(s, 2, d, None) == DurUnits(s, 4, d.(hour := 1), Some(3));
    assert DurUnits(s, 1, d, None) == DurUnits(s, 2, d, None);
  }

  /** No number in front of the last unit is accepted, and leaves what is not. */
  lemma NoNumberRead()
    ensures Duration(Ascii("PS")) == DurScan(true, Dur(1, 0, 0, 0, 0, 0), Some(1))
    ensures AfterDuration(Ascii("PS")) == Ascii("P") && !Duration(Ascii("P")).ok
  {
    var s := Ascii("PS");
    assert SkipDigits(s, 1) == 1 && s[1..1] == [];
  }

  lemma RunTwo(leaf: Leaf, n: Node, c: Comp)
    requires !Named(n, Ascii("BEGIN")) && !Named(n, Ascii("END"))
    requires Property(leaf, NewComp(VCALENDAR), n) == Some(c) && CompDone(c) && c.ctype == VCALENDAR
    requires c.dtstart == NO_TIME && c.dtend == NO_TIME
    ensures ParseLines(leaf, [Some(BEGIN_CALENDAR), Some(n)]).Some?
    ensures var m := if IsDuration(n) then n.(val := AfterDuration(n.val)) else n;
            ParseLines(leaf, [Some(BEGIN_CALENDAR), Some(n)]).value.0 == Ical([BEGIN_CALENDAR, m], [c])
  {
    hide Property, AfterDuration, IsDuration, CompDone, Linkable;
    var st := Opened(BEGIN_CALENDAR);
    var ls := [Some(BEGIN_CALENDAR), Some(n)];
    assert ls[1..] == [Some(n)] && [Some(n)][1..] == [];
    var st1 := Step(leaf, st, n).value;
    assert st1.comps == [c] && st1.stack == [InComp(0)];
    StepKeepsWf(leaf, st, n);
    CloseKeepsWf(st1);
    var st2 := Close(st1).value;
    assert Run(leaf, st2, []) == Some((st2, []));
    assert Run(leaf, st1, []) == Some((st2, []));
    assert Run(leaf, st, [Some(n)]) == Some((st2, []));
    OneLinkable(c);
  }

  /** A second line that is refused. */
  lemma RunTwoRefused(leaf: Leaf, n: Node)
    requires !Named(n, Ascii("BEGIN")) && !Named(n, Ascii("END"))
    requires Property(leaf, NewComp(VCALENDAR), n) == None
    ensures ParseLines(leaf, [Some(BEGIN_CALENDAR), Some(n)]) == None
  {
    hide Property;
    var ls := [Some(BEGIN_CALENDAR), Some(n)];
    assert ls[1..] == [Some(n)];
  }

  lemma OneLinkable(c: Comp)
    requires c.ctype == VCALENDAR && c.dtstart == NO_TIME && c.dtend == NO_TIME
    ensures TzIdsSet([c]) && Linkable([c])
  {
  }

  lemma LinesReadableHere(v: bytes)
    requires LF !in v && NUL !in v
    ensures Readable(BEGIN_CALENDAR) && Readable(DurationLine(v)) && !StartsWs(DurationLine(v).name)
  {
    hide Ascii;
    NamesHere();
  }

  lemma NamesHere()
    ensures Ascii("DURATION") == [68, 85, 82, 65, 84, 73, 79, 78]
    ensures Ascii("BEGIN") == [66, 69, 71, 73, 78]
    ensures Ascii("VCALENDAR") == [86, 67, 65, 76, 69, 78, 68, 65, 82]
  {
  }

  lemma IsDurationHere(v: bytes)
    ensures IsDuration(DurationLine(v))
    ensures !Named(DurationLine(v), Ascii("BEGIN")) && !Named(DurationLine(v), Ascii("END"))
  {
    assert |Ascii("DURATION")| == |Ascii("duration")| == 8;
    forall i | 0 <= i < 8
      ensures Lower(Ascii("DURATION")[i]) == Lower(Ascii("duration")[i])
    {
      assert Ascii("DURATION") == [68, 85, 82, 65, 84, 73, 79, 78];
      assert Ascii("duration") == [100, 117, 114, 97, 116, 105, 111, 110];
    }
  }

  /** A calendar of two lines is read back as it was printed. */
  lemma TwoLines(v: bytes)
    requires LF !in v && NUL !in v
    ensures Lines(PrintNodes([BEGIN_CALENDAR, DurationLine(v)])) == [Some(BEGIN_CALENDAR), Some(DurationLine(v))]
  {
    hide PrintNodes, Lines, Readable, DurationLine, StartsWs;
    var ns := [BEGIN_CALENDAR, DurationLine(v)];
    LinesReadableHere(v);
    assert ns[1..] == [DurationLine(v)];
    ReadBack(ns);
  }

  lemma DurationValues()
    ensures Ascii("PT1H") == [80, 84, 49, 72] && Ascii("PT1") == [80, 84, 49]
    ensures Ascii("PS") == [80, 83] && Ascii("P") == [80]
  {
  }

  /** What the parser makes of a calendar with one duration. */
  lemma OneDuration(leaf: Leaf, v: bytes)
    requires LF !in v && NUL !in v
    ensures var p := Parse(leaf, PrintNodes([BEGIN_CALENDAR, DurationLine(v)]));
            if Duration(v).ok then
              && p.Some?
              && p.value.0 == Ical([BEGIN_CALENDAR, DurationLine(AfterDuration(v))],
                                   [NewComp(VCALENDAR).(duration := Duration(v).dur)])
            else p == None
  {
    hide PrintNodes, Lines, ParseLines, Duration, AfterDuration, IsDuration, Named;
    TwoLines(v);
    IsDurationHere(v);
    if Duration(v).ok {
      RunTwo(leaf, DurationLine(v), NewComp(VCALENDAR).(duration := Duration(v).dur));
    } else {
      RunTwoRefused(leaf, DurationLine(v));
    }
  }

  /** A duration of one hour is accepted, but printing and parsing turns it into nothing. */
  lemma DurationLost(leaf: Leaf, v: bytes) returns (c: Ical)
    requires v == Ascii("PT1H")
    ensures Parse(leaf, PrintNodes([BEGIN_CALENDAR, DurationLine(v)])).Some?
    ensures c == Parse(leaf, PrintNodes([BEGIN_CALENDAR, DurationLine(v)])).value.0
    ensures c.comps == [NewComp(VCALENDAR).(duration := Dur(1, 0, 0, 1, 0, 0))]
    ensures c.nodes == [BEGIN_CALENDAR, DurationLine(v[..3])]
    ensures Parse(leaf, Printed(c)).Some?
    ensures Parse(leaf, Printed(c)).value.0 == Ical(c.nodes, [NewComp(VCALENDAR).(duration := Dur(1, 0, 0, 0, 0, 0))])
  {
    hide Parse, PrintNodes, Duration, AfterDuration, DurationLine, Ascii;
    HourRead();
    HourReread();
    DurationValues();
    assert v[..3] == Ascii("PT1") && LF !in v && NUL !in v;
    OneDuration(leaf, v);
    OneDuration(leaf, v[..3]);
    c := Parse(leaf, PrintNodes([BEGIN_CALENDAR, DurationLine(v)])).value.0;
  }

  lemma HourReread()
    ensures Duration(Ascii("PT1")) == DurScan(true, Dur(1, 0, 0, 0, 0, 0), None)
    ensures AfterDuration(Ascii("PT1")) == Ascii("PT1")
  {
    HourRead();
    RereadDuration(Ascii("PT1H"));
  }

  /** A duration without number is accepted, but what it leaves in the calendar is not. */
  lemma DurationRefused(leaf: Leaf, v: bytes) returns (c: Ical)
    requires v == Ascii("PS")
    ensures Parse(leaf, PrintNodes([BEGIN_CALENDAR, DurationLine(v)])).Some?
    ensures c == Parse(leaf, PrintNodes([BEGIN_CALENDAR, DurationLine(v)])).value.0
    ensures c.nodes == [BEGIN_CALENDAR, DurationLine(v[..1])]
    ensures Parse(leaf, Printed(c)) == None
  {
    hide Parse, PrintNodes, Duration, AfterDuration, DurationLine, Ascii;
    NoNumberRead();
    DurationValues();
    assert v[..1] == Ascii("P") && LF !in v && NUL !in v;
    OneDuration(leaf, v);
    OneDuration(leaf, v[..1]);
    c := Parse(leaf, PrintNodes([BEGIN_CALENDAR, DurationLine(v)])).value.0;
  }

  /** A blank line before a continuation gives a name that printing and parsing loses. */
  lemma BlankNameLost(leaf: Leaf) returns (cp: bytes, c: Ical)
    ensures cp == PrintNode(BEGIN_CALENDAR) + ([CR, LF] + ([SP] + PrintNode(BLANK_NAME)))
    ensures Parse(leaf, cp).Some? && Parse(leaf, cp).value.0 == c
    ensures c.nodes == [BEGIN_CALENDAR, BLANK_NAME]
    ensures Parse(leaf, Printed(c)) != Some((c, []))
  {
    hide PrintNode, ParseLines, Rereadable, Unfold, SplitLine;
    var p := PrintNode(BLANK_NAME);
    var r := [CR, LF] + ([SP] + p);
    cp := PrintNode(BEGIN_CALENDAR) + r;
    ReadNode(BEGIN_CALENDAR, r);
    ReadNode(BLANK_NAME, []);
    assert p + [] == p;
    assert [] + [CR, LF] + ([SP] + p) == r;
    UnfoldHead([], [SP] + p);
    assert ([SP] + p)[1..] == p;
    assert [] + NodeText(BLANK_NAME) == NodeText(BLANK_NAME);
    assert Lines(r) == [Some(BLANK_NAME)];
    assert Lines(cp) == [Some(BEGIN_CALENDAR), Some(BLANK_NAME)];
    RunTwo(leaf, BLANK_NAME, NewComp(VCALENDAR));
    c := Parse(leaf, cp).value.0;
    ReparseExact(leaf, cp);
    assert StartsWs(c.nodes[1].name);
  }
}
