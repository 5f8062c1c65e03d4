/**
 * Which line of a calendar decides which field: the lines of a component are those read while it is
 * innermost, and each field is the reading of the last of them that has its name.
 */
module IcalFields {
  import opened Octets
  import opened IcalLines
  import opened IcalModel

  /** A line with this name, in any case. */
  predicate Is(n: Node, name: string) {
    Same(n.name, name)
  }

  predicate Same(s: bytes, name: string) {
    |s| == |name| && forall i :: 0 <= i < |name| ==> name[i] < 128 as char && Lower(s[i]) == Lower(name[i] as byte)
  }

  // ------------------------------------------------------------------
  // Names.

  lemma EitherCase(s: bytes, a: string, b: string)
    requires |a| == |b|
    requires forall i :: 0 <= i < |a| ==>
               a[i] < 128 as char && b[i] < 128 as char && Lower(a[i] as byte) == Lower(b[i] as byte)
    ensures EqIgnoreCase(s, Ascii(a)) <==> Same(s, b)
  {
  }

  /** The names that the parser looks for are those of RFC 5545. */
  lemma NamesMean(n: Node)
    ensures Named(n, Ascii("uid")) <==> Is(n, "UID")
    ensures Named(n, Ascii("created")) <==> Is(n, "CREATED")
    ensures Named(n, Ascii("last-modified")) <==> Is(n, "LAST-MODIFIED")
    ensures Named(n, Ascii("dtstamp")) <==> Is(n, "DTSTAMP")
    ensures Named(n, Ascii("dtstart")) <==> Is(n, "DTSTART")
    ensures Named(n, Ascii("dtend")) <==> Is(n, "DTEND")
  {
    hide EqIgnoreCase, Ascii, Same;
    EitherCase(n.name, "uid", "UID");
    EitherCase(n.name, "created", "CREATED");
    EitherCase(n.name, "last-modified", "LAST-MODIFIED");
    EitherCase(n.name, "dtstamp", "DTSTAMP");
    EitherCase(n.name, "dtstart", "DTSTART");
    EitherCase(n.name, "dtend", "DTEND");
  }

  lemma MoreNames(n: Node)
    ensures Named(n, Ascii("duration")) <==> Is(n, "DURATION")
    ensures Named(n, Ascii("tzid")) <==> Is(n, "TZID")
    ensures Named(n, Ascii("rrule")) <==> Is(n, "RRULE")
    ensures Named(n, Ascii("tzoffsetfrom")) <==> Is(n, "TZOFFSETFROM")
    ensures Named(n, Ascii("tzoffsetto")) <==> Is(n, "TZOFFSETTO")
  {
    hide EqIgnoreCase, Ascii, Same;
    EitherCase(n.name, "duration", "DURATION");
    EitherCase(n.name, "tzid", "TZID");
    EitherCase(n.name, "rrule", "RRULE");
    EitherCase(n.name, "tzoffsetfrom", "TZOFFSETFROM");
    EitherCase(n.name, "tzoffsetto", "TZOFFSETTO");
  }

  /** A number for each name, by its length and one or two of its letters. */
  ghost function Code(n: Node): nat {
    var s := n.name;
    if |s| == 3 then 0 else if |s| == 13 then 2 else if |s| == 8 then 6 else if |s| == 4 then 7
    else if |s| == 12 then 9 else if |s| == 10 then 10
    else if |s| == 5 then (if Lower(s[0]) == 100 then 5 else 8)
    else if |s| == 7 then (if Lower(s[0]) == 99 then 1 else if Lower(s[5]) == 109 then 3 else 4)
    else 11
  }

  lemma Codes(n: Node)
    ensures (Is(n, "UID") ==> Code(n) == 0) && (Is(n, "TZID") ==> Code(n) == 7)
    ensures (Is(n, "DTEND") ==> Code(n) == 5) && (Is(n, "RRULE") ==> Code(n) == 8)
    ensures Is(n, "DURATION") ==> Code(n) == 6
    ensures Is(n, "CREATED") ==> Code(n) == 1
  {
    assert Is(n, "DTEND") ==> Lower(n.name[0]) == Lower("DTEND"[0] as byte);
    assert Is(n, "RRULE") ==> Lower(n.name[0]) == Lower("RRULE"[0] as byte);
    assert Is(n, "CREATED") ==> Lower(n.name[0]) == Lower("CREATED"[0] as byte);
  }

  lemma MoreCodes(n: Node)
    ensures Is(n, "DTSTAMP") ==> Code(n) == 3
    ensures Is(n, "DTSTART") ==> Code(n) == 4
    ensures Is(n, "LAST-MODIFIED") ==> Code(n) == 2
    ensures Is(n, "TZOFFSETFROM") ==> Code(n) == 9
    ensures Is(n, "TZOFFSETTO") ==> Code(n) == 10
  {
    assert Is(n, "DTSTAMP") ==>
           Lower(n.name[0]) == Lower("DTSTAMP"[0] as byte) && Lower(n.name[5]) == Lower("DTSTAMP"[5] as byte);
    assert Is(n, "DTSTART") ==>
           Lower(n.name[0]) == Lower("DTSTART"[0] as byte) && Lower(n.name[5]) == Lower("DTSTART"[5] as byte);
  }

  // ------------------------------------------------------------------
  // One line.

  /** The date of a value. */
  function DateOf(leaf: Leaf, val: bytes): Tm {
    if leaf.datetime(val).Some? then leaf.datetime(val).value else NO_TM
  }

  /** The date of a line with the identifier of its time zone. */
  function TimeOf(leaf: Leaf, n: Node): ITime {
    var tm := DateOf(leaf, n.val);
    var id := if n.param.Some? then TzParam(n.param.value, tm.kind, None) else Some(None);
    ITime(tm, if id.Some? then id.value else None)
  }

  function RuleOf(leaf: Leaf, r: RRule, val: bytes): RRule {
    if leaf.rrule(r, val).Some? then leaf.rrule(r, val).value else r
  }

  /** A line of a component changes the field of its name, which is then the reading of its value. */
  lemma PropertySets(leaf: Leaf, c: Comp, n: Node)
    requires Property(leaf, c, n).Some?
    ensures var r := Property(leaf, c, n).value;
            && r.uid == (if Is(n, "UID") then Some(n.val) else c.uid)
            && r.created == (if Is(n, "CREATED") then DateOf(leaf, n.val) else c.created)
            && r.lastmod == (if Is(n, "LAST-MODIFIED") then DateOf(leaf, n.val) else c.lastmod)
            && r.dtstamp == (if Is(n, "DTSTAMP") then DateOf(leaf, n.val) else c.dtstamp)
            && r.dtstart == (if Is(n, "DTSTART") then TimeOf(leaf, n) else c.dtstart)
            && r.dtend == (if Is(n, "DTEND") then TimeOf(leaf, n) else c.dtend)
            && r.duration == (if Is(n, "DURATION") then Duration(n.val).dur else c.duration)
            && r.tzid == (if Is(n, "TZID") then Some(n.val) else c.tzid)
            && r.rrule == (if Is(n, "RRULE") then RuleOf(leaf, c.rrule, n.val) else c.rrule)
            && r.ctype == c.ctype && r.tzs == c.tzs
  {
    hide Is, Named, Ascii, Code, TzParam, Duration;
    NamesMean(n);
    MoreNames(n);
    Codes(n);
    MoreCodes(n);
  }

  /** The lines that are refused, and no others. */
  lemma PropertyTakes(leaf: Leaf, c: Comp, n: Node)
    ensures Property(leaf, c, n) == None <==>
              || ((Is(n, "UID") || Is(n, "TZID")) && n.val == [])
              || ((Is(n, "CREATED") || Is(n, "LAST-MODIFIED") || Is(n, "DTSTAMP"))
                  && (leaf.datetime(n.val) == None || leaf.datetime(n.val).value.kind != DateTimeUtc))
              || ((Is(n, "DTSTART") || Is(n, "DTEND"))
                  && (leaf.datetime(n.val) == None
                      || (n.param.Some? && TzParam(n.param.value, leaf.datetime(n.val).value.kind, None) == None)))
              || (Is(n, "DURATION") && !Duration(n.val).ok)
              || (Is(n, "RRULE") && leaf.rrule(c.rrule, n.val) == None)
  {
    hide Is, Named, Ascii, Code, TzParam, Duration;
    NamesMean(n);
    MoreNames(n);
    Codes(n);
    MoreCodes(n);
  }

  /** A line of a time zone rule in the same way. */
  lemma TzPropertySets(leaf: Leaf, t: Tz, n: Node)
    ensures TzProperty(leaf, t, n) == None <==>
              || (Is(n, "DTSTART")
                  && (leaf.datetime(n.val) == None || leaf.datetime(n.val).value.kind != DateTime))
              || ((Is(n, "TZOFFSETFROM") || Is(n, "TZOFFSETTO")) && leaf.utcOffset(n.val) == None)
              || (Is(n, "RRULE") && leaf.rrule(t.rrule, n.val) == None)
    ensures TzProperty(leaf, t, n).Some? ==>
              var r := TzProperty(leaf, t, n).value;
              && r.dtstart == (if Is(n, "DTSTART") then DateOf(leaf, n.val) else t.dtstart)
              && r.offsetFrom == (if Is(n, "TZOFFSETFROM") then OffsetOf(leaf, n.val) else t.offsetFrom)
              && r.offsetTo == (if Is(n, "TZOFFSETTO") then OffsetOf(leaf, n.val) else t.offsetTo)
              && r.rrule == (if Is(n, "RRULE") then RuleOf(leaf, t.rrule, n.val) else t.rrule)
              && r.ttype == t.ttype
  {
    hide Is, Named, Ascii, Code;
    NamesMean(n);
    MoreNames(n);
    Codes(n);
    MoreCodes(n);
  }

  function OffsetOf(leaf: Leaf, val: bytes): int {
    if leaf.utcOffset(val).Some? then leaf.utcOffset(val).value else 0
  }

  // ------------------------------------------------------------------
  // All lines of a run.

  /** The last line with a name. */
  function Last(own: seq<Node>, name: string): Option<Node> {
    if own == [] then None
    else if Is(own[|own| - 1], name) then Some(own[|own| - 1])
    else Last(own[..|own| - 1], name)
  }

  lemma {:induction false} LastCons(n: Node, own: seq<Node>, name: string)
    ensures Last([n] + own, name) ==
              if Last(own, name).Some? then Last(own, name) else if Is(n, name) then Some(n) else None
  {
    hide Is;
    var all := [n] + own;
    if own == [] {
      assert all[..0] == [];
    } else {
      LastCons(n, own[..|own| - 1], name);
      assert all[..|own|] == [n] + own[..|own| - 1];
    }
  }

  /** The recurrence rules of all lines, each added to those before. */
  function Rules(leaf: Leaf, r: RRule, own: seq<Node>): RRule
    decreases |own|
  {
    if own == [] then r
    else Rules(leaf, if Is(own[0], "RRULE") then RuleOf(leaf, r, own[0].val) else r, own[1..])
  }

  // What the lines say about one field, which was `before` without them.

  function TextSaid(own: seq<Node>, name: string, before: Option<bytes>): Option<bytes> {
    match Last(own, name) case None => before case Some(n) => Some(n.val)
  }

  function DateSaid(leaf: Leaf, own: seq<Node>, name: string, before: Tm): Tm {
    match Last(own, name) case None => before case Some(n) => DateOf(leaf, n.val)
  }

  function TimeSaid(leaf: Leaf, own: seq<Node>, name: string, before: ITime): ITime {
    match Last(own, name) case None => before case Some(n) => TimeOf(leaf, n)
  }

  function OffsetSaid(leaf: Leaf, own: seq<Node>, name: string, before: int): int {
    match Last(own, name) case None => before case Some(n) => OffsetOf(leaf, n.val)
  }

  function DurationSaid(own: seq<Node>, before: Dur): Dur {
    match Last(own, "DURATION") case None => before case Some(n) => Duration(n.val).dur
  }

  /** The fields of a component that began as `b` and to which the lines `own` belong. */
  ghost predicate Says(leaf: Leaf, b: Comp, own: seq<Node>, c: Comp) {
    && c.uid == TextSaid(own, "UID", b.uid)
    && c.created == DateSaid(leaf, own, "CREATED", b.created)
    && c.lastmod == DateSaid(leaf, own, "LAST-MODIFIED", b.lastmod)
    && c.dtstamp == DateSaid(leaf, own, "DTSTAMP", b.dtstamp)
    && c.dtstart == TimeSaid(leaf, own, "DTSTART", b.dtstart)
    && c.dtend == TimeSaid(leaf, own, "DTEND", b.dtend)
    && c.duration == DurationSaid(own, b.duration)
    && c.tzid == TextSaid(own, "TZID", b.tzid)
    && c.rrule == Rules(leaf, b.rrule, own)
    && c.ctype == b.ctype
  }

  ghost predicate SaysTz(leaf: Leaf, b: Tz, own: seq<Node>, t: Tz) {
    && t.dtstart == DateSaid(leaf, own, "DTSTART", b.dtstart)
    && t.offsetFrom == OffsetSaid(leaf, own, "TZOFFSETFROM", b.offsetFrom)
    && t.offsetTo == OffsetSaid(leaf, own, "TZOFFSETTO", b.offsetTo)
    && t.rrule == Rules(leaf, b.rrule, own)
    && t.ttype == b.ttype
  }

  lemma TextCons(n: Node, own: seq<Node>, name: string, before: Option<bytes>)
    ensures TextSaid([n] + own, name, before) == TextSaid(own, name, if Is(n, name) then Some(n.val) else before)
  {
    hide Is, Last;
    LastCons(n, own, name);
  }

  lemma DateCons(leaf: Leaf, n: Node, own: seq<Node>, name: string, before: Tm)
    ensures DateSaid(leaf, [n] + own, name, before)
            == DateSaid(leaf, own, name, if Is(n, name) then DateOf(leaf, n.val) else before)
  {
    hide Is, Last;
    LastCons(n, own, name);
  }

  lemma TimeCons(leaf: Leaf, n: Node, own: seq<Node>, name: string, before: ITime)
    ensures TimeSaid(leaf, [n] + own, name, before)
            == TimeSaid(leaf, own, name, if Is(n, name) then TimeOf(leaf, n) else before)
  {
    hide Is, Last;
    LastCons(n, own, name);
  }

  lemma OffsetCons(leaf: Leaf, n: Node, own: seq<Node>, name: string, before: int)
    ensures OffsetSaid(leaf, [n] + own, name, before)
            == OffsetSaid(leaf, own, name, if Is(n, name) then OffsetOf(leaf, n.val) else before)
  {
    hide Is, Last;
    LastCons(n, own, name);
  }

  lemma DurationCons(n: Node, own: seq<Node>, before: Dur)
    ensures DurationSaid([n] + own, before)
            == DurationSaid(own, if Is(n, "DURATION") then Duration(n.val).dur else before)
  {
    hide Is, Last, Duration;
    LastCons(n, own, "DURATION");
  }

  lemma SaysCons(leaf: Leaf, b: Comp, n: Node, own: seq<Node>, c: Comp)
    requires Property(leaf, b, n).Some? && Says(leaf, Property(leaf, b, n).value, own, c)
    ensures Says(leaf, b, [n] + own, c)
  {
    hide Is, Property, DateOf, TimeOf, RuleOf, Duration, TextSaid, DateSaid, TimeSaid, DurationSaid;
    PropertySets(leaf, b, n);
    TextCons(n, own, "UID", b.uid);
    DateCons(leaf, n, own, "CREATED", b.created);
    DateCons(leaf, n, own, "LAST-MODIFIED", b.lastmod);
    DateCons(leaf, n, own, "DTSTAMP", b.dtstamp);
    TimeCons(leaf, n, own, "DTSTART", b.dtstart);
    TimeCons(leaf, n, own, "DTEND", b.dtend);
    DurationCons(n, own, b.duration);
    TextCons(n, own, "TZID", b.tzid);
    assert ([n] + own)[1..] == own;
  }

  lemma SaysTzCons(leaf: Leaf, b: Tz, n: Node, own: seq<Node>, t: Tz)
    requires TzProperty(leaf, b, n).Some? && SaysTz(leaf, TzProperty(leaf, b, n).value, own, t)
    ensures SaysTz(leaf, b, [n] + own, t)
  {
    hide Is, TzProperty, DateOf, OffsetOf, RuleOf, DateSaid, OffsetSaid;
    TzPropertySets(leaf, b, n);
    DateCons(leaf, n, own, "DTSTART", b.dtstart);
    OffsetCons(leaf, n, own, "TZOFFSETFROM", b.offsetFrom);
    OffsetCons(leaf, n, own, "TZOFFSETTO", b.offsetTo);
    assert ([n] + own)[1..] == own;
  }

  /** A line belongs to what is innermost, unless it begins or ends something. */
  predicate Belongs(st: State, n: Node, f: Frame)
    requires st.stack != []
  {
    Top(st) == f && !Is(n, "END") && (f.InComp? ==> !Is(n, "BEGIN"))
  }

  /** The lines of a run that belong to a component or to a rule of a time zone. */
  ghost function Own(leaf: Leaf, st: State, ls: seq<Option<Node>>, f: Frame): seq<Node>
    requires Wf(st)
    decreases |ls|
  {
    if st.stack == [] || ls == [] || ls[0].None? then [] else
      match Step(leaf, st, ls[0].value)
      case None => []
      case Some(st') =>
        StepKeepsWf(leaf, st, ls[0].value);
        (if Belongs(st, ls[0].value, f) then [ls[0].value] else []) + Own(leaf, st', ls[1..], f)
  }

  lemma OuterNames(n: Node)
    ensures Named(n, Ascii("BEGIN")) <==> Is(n, "BEGIN")
    ensures Named(n, Ascii("END")) <==> Is(n, "END")
  {
    EitherCase(n.name, "BEGIN", "BEGIN");
    EitherCase(n.name, "END", "END");
  }

  /** The components agree on all but the rules of a time zone. */
  predicate SameButTzs(a: Comp, b: Comp) {
    b == a.(tzs := b.tzs)
  }

  /** What one line does to the component `ci`. */
  lemma StepComps(leaf: Leaf, st: State, n: Node, ci: nat)
    requires Wf(st) && st.stack != [] && Step(leaf, st, n).Some? && ci < |Step(leaf, st, n).value.comps|
    ensures |st.comps| <= |Step(leaf, st, n).value.comps| <= |st.comps| + 1
    ensures var c' := Step(leaf, st, n).value.comps[ci];
            if ci >= |st.comps| then c' == NewComp(c'.ctype) && !Belongs(st, n, InComp(ci))
            else if Belongs(st, n, InComp(ci)) then Property(leaf, st.comps[ci], n) == Some(c')
            else SameButTzs(st.comps[ci], c')
  {
    hide Property, TzProperty, FindName, Named, Is, AfterDuration, IsDuration, EqIgnoreCase, CompDone, TzDone, NewTz;
    OuterNames(n);
  }

  /** Each field of a component is the reading of the last line of its name, or as it was. */
  lemma {:induction false} RunSays(leaf: Leaf, st: State, ls: seq<Option<Node>>, ci: nat)
    requires Wf(st) && Run(leaf, st, ls).Some? && ci < |Run(leaf, st, ls).value.0.comps|
    ensures var c := Run(leaf, st, ls).value.0.comps[ci];
            Says(leaf, if ci < |st.comps| then st.comps[ci] else NewComp(c.ctype), Own(leaf, st, ls, InComp(ci)), c)
    decreases |ls|, |st.stack|
  {
    hide Step, Belongs, Property, TextSaid, DateSaid, TimeSaid, DurationSaid, Rules;
    if st.stack == [] {
      NothingSaid(leaf, st.comps[ci]);
    } else if ls == [] {
      CloseKeepsWf(st);
      RunSays(leaf, Close(st).value, ls, ci);
    } else {
      var n := ls[0].value;
      StepKeepsWf(leaf, st, n);
      var st' := Step(leaf, st, n).value;
      RunGrows(leaf, st', ls[1..]);
      RunSays(leaf, st', ls[1..], ci);
      var own := Own(leaf, st', ls[1..], InComp(ci));
      assert [] + own == own;
      if ci < |st'.comps| {
        StepComps(leaf, st, n, ci);
        if ci < |st.comps| && Belongs(st, n, InComp(ci)) {
          SaysCons(leaf, st.comps[ci], n, own, Run(leaf, st, ls).value.0.comps[ci]);
        }
      } else {
        NotYet(leaf, st, n, ci);
      }
    }
  }

  lemma NothingSaid(leaf: Leaf, c: Comp)
    ensures Says(leaf, c, [], c)
  {
  }

  lemma NotYet(leaf: Leaf, st: State, n: Node, ci: nat)
    requires Wf(st) && st.stack != [] && Step(leaf, st, n).Some? && ci >= |Step(leaf, st, n).value.comps|
    ensures !Belongs(st, n, InComp(ci))
    ensures |st.comps| <= |Step(leaf, st, n).value.comps|
  {
    hide Property, TzProperty, FindName, Named, Is, AfterDuration, IsDuration, EqIgnoreCase, CompDone, TzDone, NewTz, NewComp;
  }

  lemma {:induction false} RunGrows(leaf: Leaf, st: State, ls: seq<Option<Node>>)
    requires Wf(st) && Run(leaf, st, ls).Some?
    ensures |st.comps| <= |Run(leaf, st, ls).value.0.comps|
    decreases |ls|, |st.stack|
  {
    hide Step;
    if st.stack == [] {
    } else if ls == [] {
      CloseKeepsWf(st);
      RunGrows(leaf, Close(st).value, ls);
    } else {
      StepKeepsWf(leaf, st, ls[0].value);
      NotYet(leaf, st, ls[0].value, |Step(leaf, st, ls[0].value).value.comps|);
      RunGrows(leaf, Step(leaf, st, ls[0].value).value, ls[1..]);
    }
  }

  /** A component of which nothing has been said. */
  function Blank(t: IcalType): Comp {
    var unset := Tm(0, Unset);
    Comp(t, None, unset, unset, unset, RRule(false, unset, []), ITime(unset, None), ITime(unset, None),
         Dur(0, 0, 0, 0, 0, 0), None, [])
  }

  function BlankRule(z: nat): Tz {
    Tz(z, 0, 0, Tm(0, Unset), RRule(false, Tm(0, Unset), []))
  }

  lemma Blanks(t: IcalType, z: nat)
    ensures NewComp(t) == Blank(t) && NewTz(z) == BlankRule(z) && Blank(t).ctype == t
  {
  }

  /** The fields of every component of a parsed calendar. */
  lemma FieldsDecided(leaf: Leaf, cp: bytes, ci: nat)
    requires Parse(leaf, cp).Some? && ci < |Parse(leaf, cp).value.0.comps|
    ensures var c, ls := Parse(leaf, cp).value.0.comps[ci], Lines(cp);
            && ls != [] && ls[0].Some?
            && Says(leaf, Blank(c.ctype), Own(leaf, Opened(ls[0].value), ls[1..], InComp(ci)), c)
  {
    hide Run, Own, Says, Lines, Linkable, Blank, NewComp;
    Blanks(Parse(leaf, cp).value.0.comps[ci].ctype, 0);
    Blanks(VCALENDAR, 0);
    var ls := Lines(cp);
    RunSays(leaf, Opened(ls[0].value), ls[1..], ci);
    FirstType(leaf, Opened(ls[0].value), ls[1..]);
  }

  lemma {:induction false} FirstType(leaf: Leaf, st: State, ls: seq<Option<Node>>)
    requires Wf(st) && Run(leaf, st, ls).Some? && st.comps != []
    ensures var cs := Run(leaf, st, ls).value.0.comps; cs != [] && cs[0].ctype == st.comps[0].ctype
  {
    hide Run, Own;
    RunGrows(leaf, st, ls);
    RunSays(leaf, st, ls, 0);
  }

  // ------------------------------------------------------------------
  // Rules of time zones.

  ghost predicate HasRule(cs: seq<Comp>, ci: nat, ti: nat) {
    ci < |cs| && ti < |cs[ci].tzs|
  }

  /** What one line does to the rule `ti` of the component `ci`. */
  lemma StepTzs(leaf: Leaf, st: State, n: Node, ci: nat, ti: nat)
    requires Wf(st) && st.stack != [] && Step(leaf, st, n).Some?
    ensures var cs := Step(leaf, st, n).value.comps;
            if !HasRule(st.comps, ci, ti) then
              && !Belongs(st, n, InTz(ci, ti))
              && (HasRule(cs, ci, ti) ==> cs[ci].tzs[ti] == NewTz(cs[ci].tzs[ti].ttype))
            else if Belongs(st, n, InTz(ci, ti)) then
              HasRule(cs, ci, ti) && TzProperty(leaf, st.comps[ci].tzs[ti], n) == Some(cs[ci].tzs[ti])
            else HasRule(cs, ci, ti) && cs[ci].tzs[ti] == st.comps[ci].tzs[ti]
  {
    hide Property, TzProperty, FindName, Named, Is, AfterDuration, IsDuration, EqIgnoreCase, CompDone, TzDone;
    OuterNames(n);
  }

  lemma {:induction false} RulesStay(leaf: Leaf, st: State, ls: seq<Option<Node>>, ci: nat, ti: nat)
    requires Wf(st) && Run(leaf, st, ls).Some? && HasRule(st.comps, ci, ti)
    ensures HasRule(Run(leaf, st, ls).value.0.comps, ci, ti)
    decreases |ls|, |st.stack|
  {
    hide Step, Belongs;
    if st.stack == [] {
    } else if ls == [] {
      CloseKeepsWf(st);
      RulesStay(leaf, Close(st).value, ls, ci, ti);
    } else {
      StepKeepsWf(leaf, st, ls[0].value);
      StepTzs(leaf, st, ls[0].value, ci, ti);
      RulesStay(leaf, Step(leaf, st, ls[0].value).value, ls[1..], ci, ti);
    }
  }

  lemma {:induction false} RunSaysTz(leaf: Leaf, st: State, ls: seq<Option<Node>>, ci: nat, ti: nat)
    requires Wf(st) && Run(leaf, st, ls).Some? && HasRule(Run(leaf, st, ls).value.0.comps, ci, ti)
    ensures var t := Run(leaf, st, ls).value.0.comps[ci].tzs[ti];
            var b := if HasRule(st.comps, ci, ti) then st.comps[ci].tzs[ti] else NewTz(t.ttype);
            SaysTz(leaf, b, Own(leaf, st, ls, InTz(ci, ti)), t)
    decreases |ls|, |st.stack|
  {
    hide Step, Belongs, TzProperty, DateSaid, OffsetSaid, Rules;
    if st.stack == [] {
      NothingSaidTz(leaf, st.comps[ci].tzs[ti]);
    } else if ls == [] {
      CloseKeepsWf(st);
      RunSaysTz(leaf, Close(st).value, ls, ci, ti);
    } else {
      var n := ls[0].value;
      StepKeepsWf(leaf, st, n);
      StepTzs(leaf, st, n, ci, ti);
      RunSaysTz(leaf, Step(leaf, st, n).value, ls[1..], ci, ti);
      var own := Own(leaf, Step(leaf, st, n).value, ls[1..], InTz(ci, ti));
      assert [] + own == own;
      if HasRule(st.comps, ci, ti) && Belongs(st, n, InTz(ci, ti)) {
        SaysTzCons(leaf, st.comps[ci].tzs[ti], n, own, Run(leaf, st, ls).value.0.comps[ci].tzs[ti]);
      }
    }
  }

  lemma NothingSaidTz(leaf: Leaf, t: Tz)
    ensures SaysTz(leaf, t, [], t)
  {
  }

  /** The fields of every rule of a time zone of a parsed calendar. */
  lemma RulesDecided(leaf: Leaf, cp: bytes, ci: nat, ti: nat)
    requires Parse(leaf, cp).Some? && HasRule(Parse(leaf, cp).value.0.comps, ci, ti)
    ensures var t, ls := Parse(leaf, cp).value.0.comps[ci].tzs[ti], Lines(cp);
            && ls != [] && ls[0].Some?
            && SaysTz(leaf, BlankRule(t.ttype), Own(leaf, Opened(ls[0].value), ls[1..], InTz(ci, ti)), t)
  {
    hide Run, Own, SaysTz, Lines, Linkable, BlankRule;
    Blanks(VCALENDAR, Parse(leaf, cp).value.0.comps[ci].tzs[ti].ttype);
    var ls := Lines(cp);
    RunSaysTz(leaf, Opened(ls[0].value), ls[1..], ci, ti);
  }

  // ------------------------------------------------------------------
  // Parameters of dates.

  /** The parameters of a line, between semicolons. */
  function Params(s: bytes): seq<bytes>
    decreases |s|
  {
    if s == [] then [] else [s[..Span(s, SEMI)]] + Params(NextParam(s))
  }

  predicate IsZone(p: bytes) {
    |p| >= 6 && Same(p[..5], "TZID=")
  }

  function Zones(ps: seq<bytes>): seq<bytes> {
    if ps == [] then [] else (if IsZone(ps[0]) then [ps[0]] else []) + Zones(ps[1..])
  }

  /** A kind of value that is named is the kind that is there. */
  predicate KindFits(p: bytes, kind: DateKind) {
    (Same(p, "VALUE=DATE-TIME") ==> kind != Date) && (Same(p, "VALUE=DATE") ==> kind == Date)
  }

  predicate KindsFit(ps: seq<bytes>, kind: DateKind) {
    forall i :: 0 <= i < |ps| ==> KindFits(ps[i], kind)
  }

  lemma ParamNames(p: bytes)
    ensures EqIgnoreCase(p, Ascii("VALUE=DATE-TIME")) <==> Same(p, "VALUE=DATE-TIME")
    ensures EqIgnoreCase(p, Ascii("VALUE=DATE")) <==> Same(p, "VALUE=DATE")
    ensures |p| >= 6 ==> (EqIgnoreCase(p[..5], Ascii("TZID=")) <==> Same(p[..5], "TZID="))
    ensures Same(p, "VALUE=DATE-TIME") ==> !Same(p, "VALUE=DATE")
    ensures IsZone(p) ==> !Same(p, "VALUE=DATE-TIME") && !Same(p, "VALUE=DATE")
  {
    EitherCase(p, "VALUE=DATE-TIME", "VALUE=DATE-TIME");
    EitherCase(p, "VALUE=DATE", "VALUE=DATE");
    if IsZone(p) {
      EitherCase(p[..5], "TZID=", "TZID=");
      assert p[..5][0] == p[0];
    } else if |p| >= 6 {
      EitherCase(p[..5], "TZID=", "TZID=");
    }
  }

  /** One parameter. */
  lemma ParamTakes(s: bytes, kind: DateKind, found: Option<bytes>)
    requires s != []
    ensures var p := s[..Span(s, SEMI)];
            TzParam(s, kind, found).Some? <==>
              && KindFits(p, kind)
              && if IsZone(p) then kind != DateTimeUtc && found == None && TzParam(NextParam(s), kind, Some(TzidCopy(s))).Some?
                 else TzParam(NextParam(s), kind, found).Some?
  {
    hide EqIgnoreCase, Ascii, Same;
    ParamNames(s[..Span(s, SEMI)]);
    NoParam();
    if IsZone(s[..Span(s, SEMI)]) {
      TzidIs(s);
    }
  }

  /**
   * The parameters of a date are taken if and only if each kind of value named is the kind of the
   * date, and there is at most one TZID, and none for a date in UTC.
   */
  lemma {:induction false} TzParamTakes(s: bytes, kind: DateKind, found: Option<bytes>)
    requires kind == DateTimeUtc ==> found == None
    ensures var most := if kind == DateTimeUtc || found.Some? then 0 else 1;
            TzParam(s, kind, found).Some? <==> KindsFit(Params(s), kind) && |Zones(Params(s))| <= most
    decreases |s|
  {
    hide TzParam, TzidCopy, IsZone, KindFits, KindsFit, Zones;
    if s == [] {
      NoneTaken(kind, found);
    } else {
      var p := s[..Span(s, SEMI)];
      ParamTakes(s, kind, found);
      ZonesCons(p, Params(NextParam(s)));
      KindsCons(p, Params(NextParam(s)), kind);
      if IsZone(p) {
        TzParamTakes(NextParam(s), kind, if kind == DateTimeUtc then None else Some(TzidCopy(s)));
      } else {
        TzParamTakes(NextParam(s), kind, found);
      }
    }
  }

  lemma NoneTaken(kind: DateKind, found: Option<bytes>)
    ensures TzParam([], kind, found) == Some(found) && Zones([]) == [] && KindsFit([], kind)
  {
  }

  lemma NoParam()
    ensures !Same([], "VALUE=DATE-TIME") && !Same([], "VALUE=DATE")
  {
  }

  lemma ZonesCons(p: bytes, ps: seq<bytes>)
    ensures Zones([p] + ps) == (if IsZone(p) then [p] else []) + Zones(ps)
  {
    assert ([p] + ps)[1..] == ps;
  }

  lemma KindsCons(p: bytes, ps: seq<bytes>, kind: DateKind)
    ensures KindsFit([p] + ps, kind) <==> KindFits(p, kind) && KindsFit(ps, kind)
  {
    assert forall i :: 0 <= i < |ps| ==> ([p] + ps)[i + 1] == ps[i];
    assert ([p] + ps)[0] == p;
  }

  lemma TzidIs(s: bytes)
    requires s != [] && Span(s, SEMI) >= 6
    ensures var len := Span(s, SEMI);
            var tok := s[..len];
            TzidCopy(s) == if !(tok[5] == 34 && tok[len - 1] == 34) then tok[5..]
                           else if len == 6 then s[6..] else tok[6..len - 1]
    ensures s[..Span(s, SEMI)][..5] == s[..5]
  {
  }

  /** The identifier in a TZID parameter, without quotes. */
  function Unquoted(p: bytes): bytes
    requires IsZone(p)
  {
    if |p| > 6 && p[5] == 34 && p[|p| - 1] == 34 then p[6..|p| - 1] else p[5..]
  }

  predicate OneQuote(p: bytes)
    requires IsZone(p)
  {
    |p| == 6 && p[5] == 34
  }

  lemma ParamStep(s: bytes, kind: DateKind)
    requires s != [] && TzParam(s, kind, None).Some?
    ensures TzParam(s, kind, None) ==
              if IsZone(s[..Span(s, SEMI)]) then Some(Some(TzidCopy(s))) else TzParam(NextParam(s), kind, None)
  {
    hide EqIgnoreCase, Ascii, Same, Params, Zones;
    var p := s[..Span(s, SEMI)];
    ParamNames(p);
    if IsZone(p) {
      TzFound(NextParam(s), kind, TzidCopy(s));
      TzidIs(s);
    } else {
      NoParam();
    }
  }

  lemma CopyUnquoted(s: bytes)
    requires s != [] && IsZone(s[..Span(s, SEMI)]) && !OneQuote(s[..Span(s, SEMI)])
    ensures TzidCopy(s) == Unquoted(s[..Span(s, SEMI)])
  {
    hide Same;
    TzidIs(s);
  }

  /** The identifier found is that of the only TZID, unless it is a lone quote. */
  lemma {:induction false} TzParamReads(s: bytes, kind: DateKind)
    requires TzParam(s, kind, None).Some?
    ensures var zs, r := Zones(Params(s)), TzParam(s, kind, None).value;
            && |zs| == (if r.Some? then 1 else 0)
            && (zs != [] ==> IsZone(zs[0]) && (!OneQuote(zs[0]) ==> r == Some(Unquoted(zs[0]))))
    decreases |s|
  {
    hide TzParam, TzidCopy, IsZone, Unquoted, OneQuote, KindsFit, Zones;
    TzParamTakes(s, kind, None);
    NoParams(kind);
    if s != [] {
      var p := s[..Span(s, SEMI)];
      ZonesCons(p, Params(NextParam(s)));
      ParamStep(s, kind);
      if !IsZone(p) {
        TzParamReads(NextParam(s), kind);
      } else if !OneQuote(p) {
        CopyUnquoted(s);
      }
    }
  }

  lemma NoParams(kind: DateKind)
    ensures TzParam([], kind, None) == Some(None) && Zones([]) == []
  {
  }

  // ------------------------------------------------------------------
  // Durations.

  lemma {:induction false} SkipIs(s: bytes, i: nat, j: nat)
    requires i <= j <= |s| && (j < |s| ==> !IsDigit(s[j])) && forall k :: i <= k < j ==> IsDigit(s[k])
    ensures SkipDigits(s, i) == j
    decreases j - i
  {
    if i < j {
      SkipIs(s, i + 1, j);
    }
  }

  /** A number and the letter after it set the field of that letter: weeks, days, hours, minutes, seconds. */
  lemma DurationSets(s: bytes, i: nat, j: nat, d: Dur, cut: Option<nat>)
    requires i < j < |s| && (cut.Some? ==> cut.value < |s|)
    requires !IsDigit(s[j]) && forall k :: i <= k < j ==> IsDigit(s[k])
    requires Decimal(s[i..j]) <= 0xFFFF_FFFF_FFFF_FFFF
    ensures var n, cut' := Decimal(s[i..j]), if cut.Some? then cut else Some(j);
            && (s[j] == 'W' as byte ==> DurUnits(s, i, d, cut) == DurUnits(s, j + 1, d.(week := n), cut'))
            && (s[j] == 'D' as byte ==> DurUnits(s, i, d, cut) == DurUnits(s, j + 1, d.(day := n), cut'))
            && (s[j] == 'H' as byte ==> DurUnits(s, i, d, cut) == DurUnits(s, j + 1, d.(hour := n), cut'))
            && (s[j] == 'M' as byte ==> DurUnits(s, i, d, cut) == DurUnits(s, j + 1, d.(min := n), cut'))
            && (s[j] == 'S' as byte ==> DurUnits(s, i, d, cut) == DurUnits(s, j + 1, d.(sec := n), cut'))
  {
    hide Decimal;
    SkipIs(s, i, j);
    assert IsDigit(s[i]);
  }

  /**
   * Reading stops at a letter without a number, with one of more than 64 bits, or that is no unit, and
   * the duration is taken if the value ends there; a number without letter is dropped, and a last T
   * is refused.
   */
  lemma DurationStops(s: bytes, i: nat, j: nat, d: Dur, cut: Option<nat>)
    requires i <= j <= |s| && i < |s| && s[i] != 'T' as byte && (cut.Some? ==> cut.value < |s|)
    requires (j < |s| ==> !IsDigit(s[j])) && forall k :: i <= k < j ==> IsDigit(s[k])
    ensures j == |s| ==> DurUnits(s, i, d, cut) == DurScan(true, d, cut)
    ensures j < |s| && (i == j || Decimal(s[i..j]) > 0xFFFF_FFFF_FFFF_FFFF
                        || s[j] !in ['W' as byte, 'D' as byte, 'H' as byte, 'M' as byte, 'S' as byte]) ==>
              (DurUnits(s, i, d, cut).ok <==> j + 1 == |s|) && DurUnits(s, i, d, cut).cut == if cut.Some? then cut else Some(j)
  {
    hide Decimal;
    SkipIs(s, i, j);
  }

  /** A T that no unit follows is refused. */
  lemma LastT(s: bytes, d: Dur, cut: Option<nat>)
    requires s != [] && s[|s| - 1] == 'T' as byte && (cut.Some? ==> cut.value < |s|)
    ensures !DurUnits(s, |s| - 1, d, cut).ok
  {
  }

  lemma SkipTime(s: bytes, i: nat, d: Dur, cut: Option<nat>)
    requires i + 1 < |s| && s[i] == 'T' as byte && (cut.Some? ==> cut.value < |s|)
    ensures DurUnits(s, i, d, cut) == DurUnits(s, i + 1, d, cut)
  {
  }

  lemma UnitsDone(s: bytes, d: Dur, cut: Option<nat>)
    requires cut.Some? ==> cut.value < |s|
    ensures DurUnits(s, |s|, d, cut) == DurScan(true, d, cut)
  {
  }

  lemma Digits(a: byte, b: byte)
    requires IsDigit(a) && IsDigit(b)
    ensures Decimal([a]) == a as int - 48 && Decimal([a, b]) == 10 * (a as int - 48) + (b as int - 48)
  {
    assert [a, b][..1] == [a] && [a][..0] == [];
  }

  lemma DurationText(s: bytes)
    requires s == Ascii("P-1W2DT3H45M6S")
    ensures s == [80, 45, 49, 87, 50, 68, 84, 51, 72, 52, 53, 77, 54, 83]
  {
  }

  /** The numbers of that text, and where their letters are. */
  lemma DurationParts(s: bytes)
    requires s == [80, 45, 49, 87, 50, 68, 84, 51, 72, 52, 53, 77, 54, 83]
    ensures Decimal(s[2..3]) == 1 && Decimal(s[4..5]) == 2 && Decimal(s[7..8]) == 3
    ensures Decimal(s[9..11]) == 45 && Decimal(s[12..13]) == 6
  {
    hide Decimal;
    Digits(49, 48);
    Digits(50, 48);
    Digits(51, 48);
    Digits(52, 53);
    Digits(54, 48);
    assert s[2..3] == [49] && s[4..5] == [50] && s[7..8] == [51] && s[9..11] == [52, 53] && s[12..13] == [54];
  }

  lemma DurationUnits(s: bytes)
    requires s == [80, 45, 49, 87, 50, 68, 84, 51, 72, 52, 53, 77, 54, 83]
    ensures DurUnits(s, 2, Dur(-1, 0, 0, 0, 0, 0), None) == DurScan(true, Dur(-1, 2, 1, 3, 45, 6), Some(3))
  {
    hide DurUnits, Decimal;
    DurationParts(s);
    var cut := Some(3);
    var r := DurUnits(s, 2, Dur(-1, 0, 0, 0, 0, 0), None);
    DurationSets(s, 2, 3, Dur(-1, 0, 0, 0, 0, 0), None);
    assert r == DurUnits(s, 4, Dur(-1, 0, 1, 0, 0, 0), cut);
    DurationSets(s, 4, 5, Dur(-1, 0, 1, 0, 0, 0), cut);
    assert r == DurUnits(s, 6, Dur(-1, 2, 1, 0, 0, 0), cut);
    SkipTime(s, 6, Dur(-1, 2, 1, 0, 0, 0), cut);
    DurationSets(s, 7, 8, Dur(-1, 2, 1, 0, 0, 0), cut);
    assert r == DurUnits(s, 9, Dur(-1, 2, 1, 3, 0, 0), cut);
    DurationSets(s, 9, 11, Dur(-1, 2, 1, 3, 0, 0), cut);
    assert r == DurUnits(s, 12, Dur(-1, 2, 1, 3, 45, 0), cut);
    DurationSets(s, 12, 13, Dur(-1, 2, 1, 3, 45, 0), cut);
    UnitsDone(s, Dur(-1, 2, 1, 3, 45, 6), cut);
  }

  /** One week, two days, three hours, forty-five minutes and six seconds, backwards. */
  lemma WholeDuration(s: bytes)
    requires s == Ascii("P-1W2DT3H45M6S")
    ensures Duration(s) == DurScan(true, Dur(-1, 2, 1, 3, 45, 6), Some(3))
  {
    hide DurUnits, Ascii;
    DurationText(s);
    DurationUnits(s);
  }

  /** The sign comes after the P, and is refused before it. */
  lemma SignAfter(s: bytes, t: bytes)
    requires s == Ascii("-P1W") && t == Ascii("P-1W")
    ensures !Duration(s).ok && Duration(t) == DurScan(true, Dur(-1, 0, 1, 0, 0, 0), Some(3))
  {
    hide DurUnits, Decimal;
    assert t[2] == 49 && t[3] == 87 && t[2..3] == [49];
    Digits(49, 48);
    DurationSets(t, 2, 3, NO_DUR.(sign := -1), None);
    UnitsDone(t, NO_DUR.(sign := -1, week := 1), Some(3));
  }
}
