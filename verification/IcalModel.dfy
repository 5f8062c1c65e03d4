/**
 * Components as a pushdown machine over property lines: the reference for the recursive-descent
 * parser.  Unknown BEGIN lines and END lines that do not match are recorded and otherwise ignored;
 * the end of the input closes everything that is open.
 */
module IcalModel {
  import opened Octets
  import opened IcalLines

  type IcalType = t: nat | t < 7
  const VCALENDAR: IcalType := 0
  const VEVENT: IcalType := 1
  const VTIMEZONE: IcalType := 5

  const ICALTYPES: seq<bytes> := [
    Ascii("VCALENDAR"), Ascii("VEVENT"), Ascii("VTODO"), Ascii("VJOURNAL"),
    Ascii("VFREEBUSY"), Ascii("VTIMEZONE"), Ascii("VALARM")]
  const ICALTZTYPES: seq<bytes> := [Ascii("DAYLIGHT"), Ascii("STANDARD")]

  /** The first entry of a table of names that matches, or the size of the table. */
  function FindName(table: seq<bytes>, val: bytes): (n: nat)
    ensures n <= |table|
    ensures forall i :: 0 <= i < n ==> !EqIgnoreCase(table[i], val)
    ensures n < |table| ==> EqIgnoreCase(table[n], val)
  {
    if table == [] || EqIgnoreCase(table[0], val) then 0 else 1 + FindName(table[1..], val)
  }

  predicate Named(n: Node, name: bytes) {
    EqIgnoreCase(n.name, name)
  }

  // ------------------------------------------------------------------
  // Values.

  datatype DateKind = Unset | DateTimeUtc | DateTime | Date
  datatype Tm = Tm(time: int, kind: DateKind)
  datatype RRule = RRule(active: bool, until: Tm, parts: seq<(bytes, bytes)>)
  datatype Dur = Dur(sign: int, day: nat, week: nat, hour: nat, min: nat, sec: nat)
  datatype ITime = ITime(time: Tm, tzstr: Option<bytes>)
  datatype Tz = Tz(ttype: nat, offsetFrom: int, offsetTo: int, dtstart: Tm, rrule: RRule)
  datatype Comp = Comp(ctype: IcalType, uid: Option<bytes>, created: Tm, lastmod: Tm, dtstamp: Tm,
                       rrule: RRule, dtstart: ITime, dtend: ITime, duration: Dur,
                       tzid: Option<bytes>, tzs: seq<Tz>)

  const NO_TM := Tm(0, Unset)
  const NO_RRULE := RRule(false, NO_TM, [])
  const NO_DUR := Dur(0, 0, 0, 0, 0, 0)
  const NO_TIME := ITime(NO_TM, None)

  function NewComp(t: IcalType): Comp {
    Comp(t, None, NO_TM, NO_TM, NO_TM, NO_RRULE, NO_TIME, NO_TIME, NO_DUR, None, [])
  }

  function NewTz(t: nat): Tz {
    Tz(t, 0, 0, NO_TM, NO_RRULE)
  }

  /**
   * The grammars of single values that decide nothing but acceptance and a stored value: dates
   * (with the C library's conversions), UTC offsets, and recurrence rules added to earlier ones.
   */
  datatype Leaf = Leaf(datetime: bytes -> Option<Tm>,
                       utcOffset: bytes -> Option<int>,
                       rrule: (RRule, bytes) -> Option<RRule>)

  // ------------------------------------------------------------------
  // Durations.

  /** `cut` is where the scanner first overwrote the value with a terminator. */
  datatype DurScan = DurScan(ok: bool, dur: Dur, cut: Option<nat>)

  const ULONG_MAX: nat := 0xFFFF_FFFF_FFFF_FFFF

  function Decimal(s: bytes): nat {
    if s == [] then 0 else
      Decimal(s[..|s| - 1]) * 10 + if IsDigit(s[|s| - 1]) then (s[|s| - 1] - 48) as nat else 0
  }

  /** strtoul(3) on a run of digits, refusing an empty run and an overflow. */
  function Ulong(digits: bytes): Option<nat> {
    if digits == [] || Decimal(digits) > ULONG_MAX then None else Some(Decimal(digits))
  }

  function SkipDigits(s: bytes, i: nat): (j: nat)
    requires i <= |s|
    ensures i <= j <= |s|
    ensures forall k :: i <= k < j ==> IsDigit(s[k])
    ensures j < |s| ==> !IsDigit(s[j])
    decreases |s| - i
  {
    if i < |s| && IsDigit(s[i]) then SkipDigits(s, i + 1) else i
  }

  /** Store the amount of one unit; `None` in the result means an unknown unit. */
  function SetUnit(d: Dur, unit: byte, amount: nat): Option<Dur> {
    if unit == 68 then Some(d.(day := amount))
    else if unit == 87 then Some(d.(week := amount))
    else if unit == 72 then Some(d.(hour := amount))
    else if unit == 77 then Some(d.(min := amount))
    else if unit == 83 then Some(d.(sec := amount))
    else None
  }

  function DurUnits(s: bytes, i: nat, d: Dur, cut: Option<nat>): (r: DurScan)
    requires i <= |s| && (cut.Some? ==> cut.value < |s|)
    ensures r.cut.Some? ==> r.cut.value < |s|
    decreases |s| - i
  {
    if i == |s| then DurScan(true, d, cut)
    else if s[i] == 84 then
      if i + 1 == |s| then DurScan(false, d, cut) else DurUnits(s, i + 1, d, cut)
    else
      var j := SkipDigits(s, i);
      if j == |s| then DurScan(true, d, cut) else
        var cut' := if cut.Some? then cut else Some(j);
        var amount := Ulong(s[i..j]);
        var d' := SetUnit(d, s[j], if amount.Some? then amount.value else 0);
        if d'.Some? && amount.Some? then DurUnits(s, j + 1, d'.value, cut')
        else DurScan(j + 1 == |s|, if d'.Some? then d'.value else d, cut')
  }

  /** Where the units start, after the P and the sign. */
  function DurStart(s: bytes): (i: nat)
    requires s != []
    ensures 1 <= i <= |s|
  {
    if |s| > 1 && (s[1] == 45 || s[1] == 43) then 2 else 1
  }

  function DurSign(s: bytes): int {
    if |s| > 1 && s[1] == 45 then -1 else 1
  }

  function Duration(s: bytes): (r: DurScan)
    ensures r.cut.Some? ==> r.cut.value < |s|
  {
    if s == [] || s[0] != 80 then DurScan(false, NO_DUR, None)
    else if DurStart(s) == |s| then DurScan(false, NO_DUR, None)
    else DurUnits(s, DurStart(s), NO_DUR.(sign := DurSign(s)), None)
  }

  /** What is left of a value after its duration has been read in place. */
  function AfterDuration(s: bytes): bytes {
    var cut := Duration(s).cut;
    if cut.Some? then s[..cut.value] else s
  }

  // ------------------------------------------------------------------
  // Time zone parameters.

  /**
   * The TZID among the parameters of a date, given the kind of date; `None` is a refusal.  A value
   * that is a lone quote makes the copy run on to the end of the parameters.
   */
  function TzParam(s: bytes, kind: DateKind, found: Option<bytes>): Option<Option<bytes>>
    decreases |s|
  {
    if s == [] then Some(found) else
      var len := Span(s, SEMI);
      var rest := if len == |s| then [] else s[len + 1..];
      var tok := s[..len];
      if len == 0 then TzParam(rest, kind, found)
      else if EqIgnoreCase(tok, Ascii("VALUE=DATE-TIME")) then
        if kind == Date then None else TzParam(rest, kind, found)
      else if EqIgnoreCase(tok, Ascii("VALUE=DATE")) then
        if kind != Date then None else TzParam(rest, kind, found)
      else if len < 6 || !EqIgnoreCase(tok[..5], Ascii("TZID=")) then TzParam(rest, kind, found)
      else if kind == DateTimeUtc || found.Some? then None
      else
        var quoted := tok[5] == 34 && tok[len - 1] == 34;
        var id := if !quoted then tok[5..] else if len == 6 then s[6..] else tok[6..len - 1];
        TzParam(rest, kind, Some(id))
  }

  /** The parameters from the first TZID on. */
  function TzidToken(s: bytes): Option<bytes>
    decreases |s|
  {
    if s == [] then None else
      var len := Span(s, SEMI);
      if len >= 6 && EqIgnoreCase(s[..5], Ascii("TZID=")) then Some(s)
      else TzidToken(if len == |s| then [] else s[len + 1..])
  }

  /** The value is one double quote. */
  predicate LoneQuote(t: bytes) {
    Span(t, SEMI) == 6 && t[5] == 34
  }

  /** An identifier that has been found stays, or is refused with the rest. */
  lemma {:induction false} TzFound(s: bytes, kind: DateKind, id: bytes)
    ensures TzParam(s, kind, Some(id)) == None || TzParam(s, kind, Some(id)) == Some(Some(id))
    decreases |s|
  {
    hide EqIgnoreCase, Ascii;
    if s != [] {
      var len := Span(s, SEMI);
      TzFound(if len == |s| then [] else s[len + 1..], kind, id);
    }
  }

  lemma NotValue(tok: bytes)
    requires |tok| >= 5 && EqIgnoreCase(tok[..5], Ascii("TZID="))
    ensures !EqIgnoreCase(tok, Ascii("VALUE=DATE-TIME")) && !EqIgnoreCase(tok, Ascii("VALUE=DATE"))
  {
    assert tok[..5][0] == tok[0];
  }

  /** What the copy of an identifier takes, and what comes after its parameter. */
  function TzidCopy(s: bytes): bytes {
    var len := Span(s, SEMI);
    if len < 6 then [] else
      var quoted := s[5] == 34 && s[len - 1] == 34;
      if !quoted then s[5..len] else if len == 6 then s[6..] else s[6..len - 1]
  }

  predicate IsTzid(s: bytes) {
    Span(s, SEMI) >= 6 && EqIgnoreCase(s[..5], Ascii("TZID="))
  }

  function NextParam(s: bytes): bytes {
    var len := Span(s, SEMI);
    if len == |s| then [] else s[len + 1..]
  }

  lemma Taken(s: bytes, n: nat, a: nat, b: nat)
    requires a <= b <= n <= |s|
    ensures s[..n][a..b] == s[a..b] && (b == n ==> s[..n][a..] == s[a..b]) && (a == 0 ==> s[..n][..b] == s[..b])
  {
  }

  /** The first parameter of some that hold a TZID. */
  lemma TzParamStep(s: bytes, kind: DateKind, id: bytes)
    requires TzParam(s, kind, None) == Some(Some(id))
    ensures s != []
    ensures IsTzid(s) ==> TzParam(NextParam(s), kind, Some(TzidCopy(s))) == Some(Some(id))
    ensures !IsTzid(s) ==> TzParam(NextParam(s), kind, None) == Some(Some(id))
    ensures TzidToken(s) == if IsTzid(s) then Some(s) else TzidToken(NextParam(s))
  {
    hide EqIgnoreCase, Ascii;
    var len := Span(s, SEMI);
    var tok := s[..len];
    if len >= 6 {
      Taken(s, len, 0, 5);
      Taken(s, len, 5, len);
      Taken(s, len, 6, if len > 6 then len - 1 else 6);
      if IsTzid(s) {
        NotValue(tok);
      }
    }
  }

  /** The copy stays within its parameter unless the value is a lone quote. */
  lemma CopyRunsOn(s: bytes)
    requires IsTzid(s)
    ensures SEMI in TzidCopy(s) <==> LoneQuote(s) && |s| > 6
    ensures LoneQuote(s) ==> TzidCopy(s) == s[6..]
  {
    hide EqIgnoreCase, Ascii;
    var len := Span(s, SEMI);
    assert forall i :: 0 <= i < len ==> s[i] == s[..len][i];
    assert len == 6 < |s| ==> s[6..][0] == SEMI;
    assert len == 6 == |s| ==> s[6..] == [];
  }

  /**
   * The identifier runs on past its parameter if and only if the TZID is a lone quote and another
   * parameter follows; then it is all the rest, from the semicolon on.
   */
  lemma {:induction false} TzidRunsOn(s: bytes, kind: DateKind, id: bytes)
    requires TzParam(s, kind, None) == Some(Some(id))
    ensures TzidToken(s).Some?
    ensures var t := TzidToken(s).value;
            && (SEMI in id <==> LoneQuote(t) && |t| > 6)
            && (LoneQuote(t) ==> id == t[6..])
    decreases |s|
  {
    hide TzParam, IsTzid, TzidCopy, TzidToken, LoneQuote;
    TzParamStep(s, kind, id);
    if IsTzid(s) {
      TzFound(NextParam(s), kind, TzidCopy(s));
      CopyRunsOn(s);
    } else {
      TzidRunsOn(NextParam(s), kind, id);
    }
  }

  /** The copy that runs on is what is stored. */
  lemma LoneQuoteStored(s: bytes, kind: DateKind)
    requires IsTzid(s) && LoneQuote(s) && kind != DateTimeUtc
    ensures TzParam(s, kind, None) == TzParam(NextParam(s), kind, Some(s[6..]))
  {
    hide EqIgnoreCase, Ascii;
    assert s[..6][..5] == s[..5];
    NotValue(s[..6]);
  }

  lemma LoneQuoteRunsOn()
    ensures TzParam(Ascii("TZID=\";X=1"), DateTime, None) == Some(Some(Ascii(";X=1")))
  {
    hide TzParam, Span;
    var s: bytes, t: bytes := [84, 90, 73, 68, 61, 34, SEMI, 88, 61, 49], [88, 61, 49];
    assert s == Ascii("TZID=\";X=1");
    assert SEMI !in s[..6];
    SpanUnique(s, SEMI, 6);
    assert s[7..] == t && s[6..] == Ascii(";X=1") && s[..5] == Ascii("TZID=");
    LoneQuoteStored(s, DateTime);
    LastParam(t, DateTime, s[6..]);
  }

  /** A single parameter too short to be one of those looked for. */
  lemma LastParam(t: bytes, kind: DateKind, id: bytes)
    requires 0 < |t| < 6 && SEMI !in t
    ensures TzParam(t, kind, Some(id)) == Some(Some(id))
  {
    hide Ascii;
    SpanUnique(t, SEMI, |t|);
    assert t[..|t|] == t;
  }

  function TzDateTime(leaf: Leaf, n: Node): Option<ITime> {
    var tm := leaf.datetime(n.val);
    if tm.None? then None
    else if n.param.None? then Some(ITime(tm.value, None))
    else
      var id := TzParam(n.param.value, tm.value.kind, None);
      if id.None? then None else Some(ITime(tm.value, id.value))
  }

  function DateTimeOf(leaf: Leaf, val: bytes, kind: DateKind): Option<Tm> {
    var tm := leaf.datetime(val);
    if tm.Some? && tm.value.kind == kind then tm else None
  }

  // ------------------------------------------------------------------
  // Properties of components and of time zone rules.

  predicate IsDuration(n: Node) {
    Named(n, Ascii("duration"))
  }

  /** A duration has none of the names that are looked for before it. */
  lemma NamesApart(n: Node)
    requires IsDuration(n)
    ensures !Named(n, Ascii("uid")) && !Named(n, Ascii("created")) && !Named(n, Ascii("last-modified"))
    ensures !Named(n, Ascii("dtstamp")) && !Named(n, Ascii("dtstart")) && !Named(n, Ascii("dtend"))
  {
    assert |n.name| == |"duration"|;
  }

  function Property(leaf: Leaf, c: Comp, n: Node): (r: Option<Comp>)
    ensures r.Some? ==> r.value.ctype == c.ctype && r.value.tzs == c.tzs
    ensures r.Some? && c.tzid.Some? ==> r.value.tzid.Some?
    ensures r.Some? && !IsDuration(n) ==> r.value.duration == c.duration
    ensures IsDuration(n) ==> r == if Duration(n.val).ok then Some(c.(duration := Duration(n.val).dur)) else None
  {
    if Named(n, Ascii("uid")) then
      if n.val == [] then None else Some(c.(uid := Some(n.val)))
    else if Named(n, Ascii("created")) then
      var v := DateTimeOf(leaf, n.val, DateTimeUtc);
      if v.None? then None else Some(c.(created := v.value))
    else if Named(n, Ascii("last-modified")) then
      var v := DateTimeOf(leaf, n.val, DateTimeUtc);
      if v.None? then None else Some(c.(lastmod := v.value))
    else if Named(n, Ascii("dtstamp")) then
      var v := DateTimeOf(leaf, n.val, DateTimeUtc);
      if v.None? then None else Some(c.(dtstamp := v.value))
    else if Named(n, Ascii("dtstart")) then
      var v := TzDateTime(leaf, n);
      if v.None? then None else Some(c.(dtstart := v.value))
    else if Named(n, Ascii("dtend")) then
      var v := TzDateTime(leaf, n);
      if v.None? then None else Some(c.(dtend := v.value))
    else if Named(n, Ascii("duration")) then
      if Duration(n.val).ok then Some(c.(duration := Duration(n.val).dur)) else None
    else if Named(n, Ascii("tzid")) then
      if n.val == [] then None else Some(c.(tzid := Some(n.val)))
    else if Named(n, Ascii("rrule")) then
      var v := leaf.rrule(c.rrule, n.val);
      if v.None? then None else Some(c.(rrule := v.value))
    else Some(c)
  }

  function TzProperty(leaf: Leaf, t: Tz, n: Node): (r: Option<Tz>)
    ensures r.Some? ==> r.value.ttype == t.ttype
  {
    if Named(n, Ascii("dtstart")) then
      var v := DateTimeOf(leaf, n.val, DateTime);
      if v.None? then None else Some(t.(dtstart := v.value))
    else if Named(n, Ascii("tzoffsetfrom")) then
      var v := leaf.utcOffset(n.val);
      if v.None? then None else Some(t.(offsetFrom := v.value))
    else if Named(n, Ascii("tzoffsetto")) then
      var v := leaf.utcOffset(n.val);
      if v.None? then None else Some(t.(offsetTo := v.value))
    else if Named(n, Ascii("rrule")) then
      var v := leaf.rrule(t.rrule, n.val);
      if v.None? then None else Some(t.(rrule := v.value))
    else Some(t)
  }

  /** The checks at the end of a component. */
  predicate CompDone(c: Comp) {
    && (c.rrule.active && c.rrule.until.kind != Unset && c.dtstart.time.kind != Unset ==>
          c.rrule.until.kind == if c.dtstart.tzstr.Some? then DateTimeUtc else c.dtstart.time.kind)
    && (c.ctype == VEVENT ==> c.uid.Some? && c.dtstart.time.time != 0)
    && (c.ctype == VTIMEZONE ==> c.tzid.Some?)
  }

  /** The checks at the end of a time zone rule. */
  predicate TzDone(t: Tz) {
    t.rrule.active && t.rrule.until.kind != Unset && t.dtstart.kind != Unset && t.rrule.until.kind != t.dtstart.kind ==>
      t.rrule.until.kind == if t.offsetTo != 0 || t.offsetFrom != 0 then DateTimeUtc else t.dtstart.kind
  }

  // ------------------------------------------------------------------
  // The machine.

  /** What is open: a component, or a rule of a time zone, by index. */
  datatype Frame = InComp(ci: nat) | InTz(ci: nat, ti: nat)

  /** The lines recorded, the components in BEGIN order, and what is open, innermost last. */
  datatype State = State(nodes: seq<Node>, comps: seq<Comp>, stack: seq<Frame>)

  predicate FrameOk(cs: seq<Comp>, f: Frame) {
    f.ci < |cs| && (f.InTz? ==> f.ti < |cs[f.ci].tzs|)
  }

  ghost predicate Wf(st: State) {
    forall i :: 0 <= i < |st.stack| ==> FrameOk(st.comps, st.stack[i])
  }

  /** The components of one type, in BEGIN order. */
  function Indices(cs: seq<Comp>, t: IcalType): (r: seq<nat>)
    ensures forall i :: 0 <= i < |r| ==> r[i] < |cs| && cs[r[i]].ctype == t
  {
    if cs == [] then [] else
      var n := |cs| - 1;
      Indices(cs[..n], t) + if cs[n].ctype == t then [n] else []
  }

  /** The open component, and what is below it on the stack. */
  function Top(st: State): Frame
    requires st.stack != []
  {
    st.stack[|st.stack| - 1]
  }

  function Pop(st: State): State
    requires st.stack != []
  {
    st.(stack := st.stack[..|st.stack| - 1])
  }

  function Record(st: State, n: Node): State {
    st.(nodes := st.nodes + [n])
  }

  function PushComp(st: State, t: IcalType): State {
    st.(comps := st.comps + [NewComp(t)], stack := st.stack + [InComp(|st.comps|)])
  }

  function SetComp(st: State, ci: nat, c: Comp): State
    requires ci < |st.comps|
  {
    st.(comps := st.comps[ci := c])
  }

  /** A time zone rule belongs to the time zone begun last, whatever is open. */
  function PushTz(st: State, t: nat): Option<State> {
    var tzs := Indices(st.comps, VTIMEZONE);
    if tzs == [] then None else
      var ci := tzs[|tzs| - 1];
      var c := st.comps[ci];
      Some(SetComp(st, ci, c.(tzs := c.tzs + [NewTz(t)])).(stack := st.stack + [InTz(ci, |c.tzs|)]))
  }

  /** Close what is open innermost. */
  function Close(st: State): Option<State>
    requires st.stack != [] && FrameOk(st.comps, Top(st))
  {
    var ok := match Top(st)
      case InComp(ci) => CompDone(st.comps[ci])
      case InTz(ci, ti) => TzDone(st.comps[ci].tzs[ti]);
    if ok then Some(Pop(st)) else None
  }

  function StepComp(leaf: Leaf, st: State, n: Node): Option<State>
    requires st.stack != [] && FrameOk(st.comps, Top(st)) && Top(st).InComp?
  {
    var ci := Top(st).ci;
    var c := st.comps[ci];
    if Named(n, Ascii("BEGIN")) then
      var t := FindName(ICALTYPES, n.val);
      var z := FindName(ICALTZTYPES, n.val);
      if t < |ICALTYPES| then Some(PushComp(Record(st, n), t))
      else if z < |ICALTZTYPES| then PushTz(Record(st, n), z)
      else Some(Record(st, n))
    else if Named(n, Ascii("END")) then
      if EqIgnoreCase(ICALTYPES[c.ctype], n.val) then Close(Record(st, n)) else Some(Record(st, n))
    else
      var p := Property(leaf, c, n);
      if p.None? then None
      else Some(SetComp(Record(st, if IsDuration(n) then n.(val := AfterDuration(n.val)) else n), ci, p.value))
  }

  function StepTz(leaf: Leaf, st: State, n: Node): Option<State>
    requires st.stack != [] && FrameOk(st.comps, Top(st)) && Top(st).InTz?
  {
    var InTz(ci, ti) := Top(st);
    var c := st.comps[ci];
    if Named(n, Ascii("END")) then
      if c.tzs[ti].ttype < 2 && EqIgnoreCase(ICALTZTYPES[c.tzs[ti].ttype], n.val)
      then Close(Record(st, n)) else Some(Record(st, n))
    else
      var p := TzProperty(leaf, c.tzs[ti], n);
      if p.None? then None else Some(SetComp(Record(st, n), ci, c.(tzs := c.tzs[ti := p.value])))
  }

  function Step(leaf: Leaf, st: State, n: Node): Option<State>
    requires st.stack != [] && FrameOk(st.comps, Top(st))
  {
    if Top(st).InComp? then StepComp(leaf, st, n) else StepTz(leaf, st, n)
  }

  lemma {:induction false} IndicesOfTypes(cs: seq<Comp>, ds: seq<Comp>, t: IcalType)
    requires |cs| == |ds| && forall i :: 0 <= i < |cs| ==> cs[i].ctype == ds[i].ctype
    ensures Indices(cs, t) == Indices(ds, t)
  {
    if cs != [] {
      IndicesOfTypes(cs[..|cs| - 1], ds[..|cs| - 1], t);
    }
  }

  lemma PushKeepsWf(st: State, t: IcalType)
    requires Wf(st)
    ensures Wf(PushComp(st, t))
  {
  }

  lemma PushTzKeepsWf(st: State, t: nat)
    requires Wf(st)
    ensures PushTz(st, t).Some? ==> Wf(PushTz(st, t).value)
  {
  }

  lemma StepKeepsWf(leaf: Leaf, st: State, n: Node)
    requires Wf(st) && st.stack != [] && Step(leaf, st, n).Some?
    ensures Wf(Step(leaf, st, n).value)
  {
    hide Property, TzProperty, CompDone, TzDone, AfterDuration, IsDuration, FindName, Named;
  }

  lemma CloseKeepsWf(st: State)
    requires Wf(st) && st.stack != [] && Close(st).Some?
    ensures Wf(Close(st).value)
  {
  }

  /** Run until nothing is open: the final state and the lines that were not read. */
  ghost function Run(leaf: Leaf, st: State, ls: seq<Option<Node>>): Option<(State, seq<Option<Node>>)>
    requires Wf(st)
    decreases |ls|, |st.stack|
  {
    if st.stack == [] then Some((st, ls))
    else if ls == [] then
      match Close(st)
      case None => None
      case Some(st') => CloseKeepsWf(st); Run(leaf, st', ls)
    else if ls[0].None? then None
    else
      match Step(leaf, st, ls[0].value)
      case None => None
      case Some(st') => StepKeepsWf(leaf, st, ls[0].value); Run(leaf, st', ls[1..])
  }

  /** Close what is open innermost, then run. */
  ghost function CloseRun(leaf: Leaf, st: State, ls: seq<Option<Node>>): Option<(State, seq<Option<Node>>)>
    requires Wf(st) && st.stack != []
  {
    match Close(st)
    case None => None
    case Some(st') => CloseKeepsWf(st); Run(leaf, st', ls)
  }

  /** The property line `n`, recorded last, entered into the component `ci`. */
  function Entered(leaf: Leaf, st: State, ci: nat, n: Node): Option<State>
    requires st.nodes != [] && ci < |st.comps|
  {
    match Property(leaf, st.comps[ci], n)
    case None => None
    case Some(p) =>
      var m := if IsDuration(n) then n.(val := AfterDuration(n.val)) else n;
      Some(State(st.nodes[..|st.nodes| - 1] + [m], st.comps[ci := p], st.stack))
  }

  lemma EnteredKeepsWf(leaf: Leaf, st: State, ci: nat, n: Node)
    requires Wf(st) && st.nodes != [] && ci < |st.comps| && Entered(leaf, st, ci, n).Some?
    ensures Wf(Entered(leaf, st, ci, n).value)
  {
    hide Property, IsDuration, AfterDuration;
  }

  ghost function EnterRun(leaf: Leaf, st: State, ci: nat, n: Node, ls: seq<Option<Node>>)
    : Option<(State, seq<Option<Node>>)>
    requires Wf(st) && st.nodes != [] && ci < |st.comps|
  {
    match Entered(leaf, st, ci, n)
    case None => None
    case Some(s) => EnteredKeepsWf(leaf, st, ci, n); Run(leaf, s, ls)
  }

  lemma RunCons(leaf: Leaf, st: State, n: Node, ls: seq<Option<Node>>)
    requires Wf(st) && st.stack != []
    ensures Step(leaf, st, n).None? ==> Run(leaf, st, [Some(n)] + ls) == None
    ensures Step(leaf, st, n).Some? ==> Wf(Step(leaf, st, n).value)
    ensures Step(leaf, st, n).Some? ==> Run(leaf, st, [Some(n)] + ls) == Run(leaf, Step(leaf, st, n).value, ls)
  {
    hide Step;
    assert ([Some(n)] + ls)[1..] == ls;
    if Step(leaf, st, n).Some? {
      StepKeepsWf(leaf, st, n);
    }
  }

  /** A BEGIN line that has been recorded. */
  ghost function BeginRun(leaf: Leaf, st: State, val: bytes, ls: seq<Option<Node>>)
    : Option<(State, seq<Option<Node>>)>
    requires Wf(st)
  {
    var t, z := FindName(ICALTYPES, val), FindName(ICALTZTYPES, val);
    if t < |ICALTYPES| then PushKeepsWf(st, t); Run(leaf, PushComp(st, t), ls)
    else if z < |ICALTZTYPES| then
      PushTzKeepsWf(st, z);
      match PushTz(st, z) case None => None case Some(s) => Run(leaf, s, ls)
    else Run(leaf, st, ls)
  }

  /** Any line of an open component, once it has been recorded. */
  ghost function RecordedRun(leaf: Leaf, st: State, ci: nat, n: Node, ls: seq<Option<Node>>)
    : Option<(State, seq<Option<Node>>)>
    requires Wf(st) && st.nodes != [] && st.stack != [] && Top(st) == InComp(ci)
  {
    if Named(n, Ascii("BEGIN")) then BeginRun(leaf, st, n.val, ls)
    else if Named(n, Ascii("END")) then
      if EqIgnoreCase(ICALTYPES[st.comps[ci].ctype], n.val) then CloseRun(leaf, st, ls) else Run(leaf, st, ls)
    else EnterRun(leaf, st, ci, n, ls)
  }

  /** The machine on one line of an open component. */
  lemma CompCases(leaf: Leaf, st: State, n: Node, ls: seq<Option<Node>>)
    requires Wf(st) && st.stack != [] && Top(st).InComp?
    ensures Wf(Record(st, n))
    ensures Run(leaf, st, [Some(n)] + ls) == RecordedRun(leaf, Record(st, n), Top(st).ci, n, ls)
  {
    hide Run, Property, PushComp, PushTz, FindName, Named, Close, AfterDuration, IsDuration, EqIgnoreCase;
    RunCons(leaf, st, n, ls);
    RecordKeepsWf(st, n);
    assert forall m :: (st.nodes + [n])[..|st.nodes|] + [m] == st.nodes + [m];
  }

  lemma RecordKeepsWf(st: State, n: Node)
    requires Wf(st)
    ensures Wf(Record(st, n))
  {
  }

  /** The machine on one line of an open time zone rule. */
  lemma TzCases(leaf: Leaf, st: State, n: Node, ls: seq<Option<Node>>)
    requires Wf(st) && st.stack != [] && Top(st).InTz?
    ensures Wf(Record(st, n))
    ensures var run, r := Run(leaf, st, [Some(n)] + ls), Record(st, n);
            var InTz(ci, ti) := Top(st);
            var c := st.comps[ci];
            if Named(n, Ascii("END")) then
              if c.tzs[ti].ttype < 2 && EqIgnoreCase(ICALTZTYPES[c.tzs[ti].ttype], n.val)
              then run == CloseRun(leaf, r, ls) else run == Run(leaf, r, ls)
            else
              match TzProperty(leaf, c.tzs[ti], n)
              case None => run == None
              case Some(p) =>
                var s := SetComp(r, ci, c.(tzs := c.tzs[ti := p]));
                Wf(s) && run == Run(leaf, s, ls)
  {
    hide Run, TzProperty, Named, Close, SetComp, EqIgnoreCase;
    RunCons(leaf, st, n, ls);
    RecordKeepsWf(st, n);
  }

  lemma RunBadLine(leaf: Leaf, st: State, ls: seq<Option<Node>>)
    requires Wf(st) && st.stack != [] && ls != [] && ls[0] == None
    ensures Run(leaf, st, ls) == None
  {
  }

  lemma RunClosing(leaf: Leaf, st: State)
    requires Wf(st)
    ensures st.stack == [] ==> Run(leaf, st, []) == Some((st, []))
    ensures st.stack != [] && Close(st).None? ==> Run(leaf, st, []) == None
    ensures st.stack != [] && Close(st).Some? ==>
              Wf(Close(st).value) && Run(leaf, st, []) == Run(leaf, Close(st).value, [])
  {
    if st.stack != [] && Close(st).Some? {
      CloseKeepsWf(st);
    }
  }

  /** What is open passes the checks made when it is closed. */
  ghost predicate Closable(cs: seq<Comp>, f: Frame)
    requires FrameOk(cs, f)
  {
    match f
    case InComp(ci) => CompDone(cs[ci])
    case InTz(ci, ti) => TzDone(cs[ci].tzs[ti])
  }

  /** The end of the input closes everything that is open, if all of it can be closed, and changes nothing else. */
  lemma {:induction false} RunEnd(leaf: Leaf, st: State)
    requires Wf(st)
    ensures Run(leaf, st, []) ==
              if forall i :: 0 <= i < |st.stack| ==> Closable(st.comps, st.stack[i])
              then Some((st.(stack := []), [])) else None
    decreases |st.stack|
  {
    hide CompDone, TzDone, Run;
    RunClosing(leaf, st);
    if st.stack != [] && Close(st).Some? {
      var t := Close(st).value;
      RunEnd(leaf, t);
      assert forall i :: 0 <= i < |t.stack| ==> t.stack[i] == st.stack[i];
    }
  }

  // ------------------------------------------------------------------
  // Linking and the whole parser.

  /** The first time zone whose identifier matches ignoring case. */
  ghost function FindTz(cs: seq<Comp>, zs: seq<nat>, id: bytes): (r: Option<nat>)
    requires forall i :: 0 <= i < |zs| ==> zs[i] < |cs| && cs[zs[i]].tzid.Some?
  {
    if zs == [] then None
    else if EqIgnoreCase(cs[zs[0]].tzid.value, id) then Some(zs[0])
    else FindTz(cs, zs[1..], id)
  }

  ghost predicate HasId(c: Comp, id: bytes) {
    c.tzid.Some? && EqIgnoreCase(c.tzid.value, id)
  }

  /** What is found matches and nothing before it does; if nothing is found, nothing matches. */
  lemma {:induction false} FindTzFirst(cs: seq<Comp>, zs: seq<nat>, id: bytes)
    requires forall i :: 0 <= i < |zs| ==> zs[i] < |cs| && cs[zs[i]].tzid.Some?
    ensures match FindTz(cs, zs, id)
            case None => forall i :: 0 <= i < |zs| ==> !HasId(cs[zs[i]], id)
            case Some(z) =>
              exists k :: 0 <= k < |zs| && zs[k] == z && HasId(cs[zs[k]], id)
                && forall i :: 0 <= i < k ==> !HasId(cs[zs[i]], id)
  {
    hide EqIgnoreCase;
    if zs != [] && !HasId(cs[zs[0]], id) {
      var t := zs[1..];
      FindTzFirst(cs, t, id);
      assert forall i :: 0 < i < |zs| ==> zs[i] == t[i - 1];
      match FindTz(cs, t, id) {
        case None =>
        case Some(z) =>
          var k :| 0 <= k < |t| && t[k] == z && HasId(cs[t[k]], id) && forall i :: 0 <= i < k ==> !HasId(cs[t[i]], id);
          assert zs[k + 1] == z;
      }
    }
  }

  ghost predicate TzIdsSet(cs: seq<Comp>) {
    forall i :: 0 <= i < |cs| && cs[i].ctype == VTIMEZONE ==> cs[i].tzid.Some?
  }

  ghost function TzOf(cs: seq<Comp>, tm: ITime): Option<nat>
    requires TzIdsSet(cs)
  {
    if tm.tzstr.None? then None else FindTz(cs, Indices(cs, VTIMEZONE), tm.tzstr.value)
  }

  /** Every date with a time zone finds it. */
  ghost predicate Linkable(cs: seq<Comp>)
    requires TzIdsSet(cs)
  {
    forall i :: 0 <= i < |cs| ==>
      && (cs[i].dtstart.tzstr.Some? ==> TzOf(cs, cs[i].dtstart).Some?)
      && (cs[i].dtend.tzstr.Some? ==> TzOf(cs, cs[i].dtend).Some?)
  }

  /** A time zone that is no longer open has an identifier. */
  ghost predicate TzInv(st: State) {
    forall k :: 0 <= k < |st.comps| && st.comps[k].ctype == VTIMEZONE ==>
      st.comps[k].tzid.Some? || InComp(k) in st.stack
  }

  lemma StepTzKeepsTzInv(leaf: Leaf, st: State, n: Node)
    requires Wf(st) && st.stack != [] && Top(st).InTz? && TzInv(st) && StepTz(leaf, st, n).Some?
    ensures TzInv(StepTz(leaf, st, n).value)
  {
    hide Property, TzProperty, TzDone, AfterDuration, IsDuration, FindName, Named;
  }

  lemma StepCompKeepsTzInv(leaf: Leaf, st: State, n: Node)
    requires Wf(st) && st.stack != [] && Top(st).InComp? && TzInv(st) && StepComp(leaf, st, n).Some?
    ensures TzInv(StepComp(leaf, st, n).value)
  {
    hide Property, TzProperty, TzDone, AfterDuration, IsDuration, FindName, Named;
  }

  lemma StepKeepsTzInv(leaf: Leaf, st: State, n: Node)
    requires Wf(st) && st.stack != [] && TzInv(st) && Step(leaf, st, n).Some?
    ensures TzInv(Step(leaf, st, n).value)
  {
    hide StepComp, StepTz, TzInv;
    if Top(st).InComp? {
      StepCompKeepsTzInv(leaf, st, n);
    } else {
      StepTzKeepsTzInv(leaf, st, n);
    }
  }

  lemma {:induction false} RunSetsTzIds(leaf: Leaf, st: State, ls: seq<Option<Node>>)
    requires Wf(st) && TzInv(st) && Run(leaf, st, ls).Some?
    ensures TzIdsSet(Run(leaf, st, ls).value.0.comps)
    decreases |ls|, |st.stack|
  {
    if st.stack == [] {
    } else if ls == [] {
      CloseKeepsWf(st);
      RunSetsTzIds(leaf, Close(st).value, ls);
    } else {
      StepKeepsWf(leaf, st, ls[0].value);
      StepKeepsTzInv(leaf, st, ls[0].value);
      RunSetsTzIds(leaf, Step(leaf, st, ls[0].value).value, ls[1..]);
    }
  }

  /** A parsed calendar; the time zone links are functions of the components. */
  datatype Ical = Ical(nodes: seq<Node>, comps: seq<Comp>)

  ghost predicate IsOpening(n: Node) {
    Named(n, Ascii("BEGIN")) && EqIgnoreCase(n.val, Ascii("VCALENDAR"))
  }

  function Opened(n: Node): (st: State)
    ensures Wf(st) && TzInv(st)
  {
    State([n], [NewComp(VCALENDAR)], [InComp(0)])
  }

  /** The parser on the lines of a buffer: the calendar and the lines left over. */
  ghost function ParseLines(leaf: Leaf, ls: seq<Option<Node>>): Option<(Ical, seq<Option<Node>>)> {
    if ls == [] || ls[0].None? || !IsOpening(ls[0].value) then None else
      match Run(leaf, Opened(ls[0].value), ls[1..])
      case None => None
      case Some((st, rest)) =>
        RunSetsTzIds(leaf, Opened(ls[0].value), ls[1..]);
        if Linkable(st.comps) then Some((Ical(st.nodes, st.comps), rest)) else None
  }

  ghost function Parse(leaf: Leaf, cp: bytes): Option<(Ical, seq<Option<Node>>)> {
    ParseLines(leaf, Lines(cp))
  }

  /** The parser from the outcome of the machine. */
  lemma ParseOutcome(leaf: Leaf, n: Node, ls: seq<Option<Node>>)
    ensures !IsOpening(n) ==> ParseLines(leaf, [Some(n)] + ls) == None
    ensures IsOpening(n) && Run(leaf, Opened(n), ls) == None ==> ParseLines(leaf, [Some(n)] + ls) == None
    ensures IsOpening(n) && Run(leaf, Opened(n), ls).Some? ==>
              var (st, rest) := Run(leaf, Opened(n), ls).value;
              && TzIdsSet(st.comps)
              && ParseLines(leaf, [Some(n)] + ls) ==
                 if Linkable(st.comps) then Some((Ical(st.nodes, st.comps), rest)) else None
  {
    hide Run, Linkable, IsOpening;
    assert ([Some(n)] + ls)[1..] == ls;
    if Run(leaf, Opened(n), ls).Some? {
      RunSetsTzIds(leaf, Opened(n), ls);
    }
  }

  lemma ParseBadLine(leaf: Leaf, ls: seq<Option<Node>>)
    requires ls == [] || ls[0] == None
    ensures ParseLines(leaf, ls) == None
  {
  }
}
