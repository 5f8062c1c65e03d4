/** What BEGIN and END lines build, in the names of RFC 5545, and what is checked when something ends. */
module IcalShape {
  import opened Octets
  import opened IcalLines
  import opened IcalModel
  import opened IcalFields

  // ------------------------------------------------------------------
  // Names of components.

  /** The number of a component's name, or 7. */
  function KnownType(v: bytes): (t: nat)
    ensures t <= 7
  {
    if Same(v, "VCALENDAR") then 0 else if Same(v, "VEVENT") then 1 else if Same(v, "VTODO") then 2
    else if Same(v, "VJOURNAL") then 3 else if Same(v, "VFREEBUSY") then 4 else if Same(v, "VTIMEZONE") then 5
    else if Same(v, "VALARM") then 6 else 7
  }

  /** The number of the name of a rule, or 2. */
  function KnownRule(v: bytes): nat {
    if Same(v, "DAYLIGHT") then 0 else if Same(v, "STANDARD") then 1 else 2
  }

  lemma Entry(name: bytes, v: bytes, s: string)
    requires |name| == |s| && forall i :: 0 <= i < |s| ==> s[i] < 128 as char && name[i] == s[i] as byte
    ensures EqIgnoreCase(name, v) <==> Same(v, s)
  {
  }

  /** No two of the names are the same, by their lengths and second letters. */
  ghost function TypeCode(v: bytes): nat {
    if |v| == 9 then (if Lower(v[1]) == 99 then 0 else if Lower(v[1]) == 102 then 4 else 5)
    else if |v| == 6 then (if Lower(v[1]) == 101 then 1 else 6)
    else if |v| == 5 then 2 else if |v| == 8 then 3 else 7
  }

  lemma TypeCodes(v: bytes)
    ensures (Same(v, "VCALENDAR") ==> TypeCode(v) == 0) && (Same(v, "VEVENT") ==> TypeCode(v) == 1)
    ensures (Same(v, "VTODO") ==> TypeCode(v) == 2) && (Same(v, "VJOURNAL") ==> TypeCode(v) == 3)
    ensures (Same(v, "VFREEBUSY") ==> TypeCode(v) == 4) && (Same(v, "VTIMEZONE") ==> TypeCode(v) == 5)
    ensures Same(v, "VALARM") ==> TypeCode(v) == 6
  {
    assert Same(v, "VCALENDAR") ==> Lower(v[1]) == Lower("VCALENDAR"[1] as byte);
    assert Same(v, "VEVENT") ==> Lower(v[1]) == Lower("VEVENT"[1] as byte);
    assert Same(v, "VFREEBUSY") ==> Lower(v[1]) == Lower("VFREEBUSY"[1] as byte);
    assert Same(v, "VTIMEZONE") ==> Lower(v[1]) == Lower("VTIMEZONE"[1] as byte);
    assert Same(v, "VALARM") ==> Lower(v[1]) == Lower("VALARM"[1] as byte);
  }

  lemma Entries(v: bytes)
    ensures (EqIgnoreCase(ICALTYPES[0], v) <==> Same(v, "VCALENDAR")) &&
            (EqIgnoreCase(ICALTYPES[1], v) <==> Same(v, "VEVENT"))
    ensures (EqIgnoreCase(ICALTYPES[2], v) <==> Same(v, "VTODO")) && (EqIgnoreCase(ICALTYPES[3], v) <==> Same(v, "VJOURNAL"))
    ensures (EqIgnoreCase(ICALTYPES[4], v) <==> Same(v, "VFREEBUSY")) &&
            (EqIgnoreCase(ICALTYPES[5], v) <==> Same(v, "VTIMEZONE"))
    ensures EqIgnoreCase(ICALTYPES[6], v) <==> Same(v, "VALARM")
    ensures (EqIgnoreCase(ICALTZTYPES[0], v) <==> Same(v, "DAYLIGHT")) &&
            (EqIgnoreCase(ICALTZTYPES[1], v) <==> Same(v, "STANDARD"))
  {
    hide EqIgnoreCase, Same;
    Entry(ICALTYPES[0], v, "VCALENDAR");
    Entry(ICALTYPES[1], v, "VEVENT");
    Entry(ICALTYPES[2], v, "VTODO");
    Entry(ICALTYPES[3], v, "VJOURNAL");
    Entry(ICALTYPES[4], v, "VFREEBUSY");
    Entry(ICALTYPES[5], v, "VTIMEZONE");
    Entry(ICALTYPES[6], v, "VALARM");
    Entry(ICALTZTYPES[0], v, "DAYLIGHT");
    Entry(ICALTZTYPES[1], v, "STANDARD");
  }

  lemma RuleNames(v: bytes)
    ensures !(Same(v, "DAYLIGHT") && Same(v, "STANDARD"))
  {
    assert Same(v, "DAYLIGHT") ==> Lower(v[0]) == Lower("DAYLIGHT"[0] as byte);
    assert Same(v, "STANDARD") ==> Lower(v[0]) == Lower("STANDARD"[0] as byte);
  }

  /** The tables of the parser hold these names under these numbers. */
  lemma TablesMean(v: bytes)
    ensures FindName(ICALTYPES, v) == KnownType(v) && FindName(ICALTZTYPES, v) == KnownRule(v)
    ensures forall t: nat :: t < 7 ==> (EqIgnoreCase(ICALTYPES[t], v) <==> KnownType(v) == t)
    ensures forall z: nat :: z < 2 ==> (EqIgnoreCase(ICALTZTYPES[z], v) <==> KnownRule(v) == z)
  {
    hide EqIgnoreCase, Same, FindName, TypeCode, Ascii;
    Entries(v);
    TypeCodes(v);
    RuleNames(v);
    var t, z := FindName(ICALTYPES, v), FindName(ICALTZTYPES, v);
    assert |ICALTYPES| == 7 && |ICALTZTYPES| == 2;
    forall u: nat | u < 7
      ensures EqIgnoreCase(ICALTYPES[u], v) <==> KnownType(v) == u
    {
      assert u == 0 || u == 1 || u == 2 || u == 3 || u == 4 || u == 5 || u == 6;
    }
    assert t < 7 ==> EqIgnoreCase(ICALTYPES[t], v);
    assert t <= KnownType(v);
    assert z < 2 ==> EqIgnoreCase(ICALTZTYPES[z], v);
    assert z <= KnownRule(v);
  }

  // ------------------------------------------------------------------
  // What lines begin.

  function Types(cs: seq<Comp>): (r: seq<nat>)
    ensures |r| == |cs| && forall i :: 0 <= i < |cs| ==> r[i] == cs[i].ctype
  {
    seq(|cs|, i requires 0 <= i < |cs| => cs[i].ctype)
  }

  function RuleTypes(c: Comp): (r: seq<nat>)
    ensures |r| == |c.tzs| && forall i :: 0 <= i < |c.tzs| ==> r[i] == c.tzs[i].ttype
  {
    seq(|c.tzs|, i requires 0 <= i < |c.tzs| => c.tzs[i].ttype)
  }

  /** A line that begins a component. */
  predicate Begins(st: State, n: Node)
    requires st.stack != []
  {
    Top(st).InComp? && Is(n, "BEGIN") && KnownType(n.val) < 7
  }

  /** A line that begins a rule of a time zone. */
  predicate BeginsRule(st: State, n: Node)
    requires st.stack != []
  {
    Top(st).InComp? && Is(n, "BEGIN") && KnownType(n.val) == 7 && KnownRule(n.val) < 2
  }

  /** The time zone begun last. */
  predicate LastZone(cs: seq<Comp>, ci: nat) {
    ci < |cs| && cs[ci].ctype == 5 && forall k :: ci < k < |cs| ==> cs[k].ctype != 5
  }

  ghost function BegunTypes(leaf: Leaf, st: State, ls: seq<Option<Node>>): seq<nat>
    requires Wf(st)
    decreases |ls|
  {
    if st.stack == [] || ls == [] || ls[0].None? then [] else
      match Step(leaf, st, ls[0].value)
      case None => []
      case Some(st') =>
        StepKeepsWf(leaf, st, ls[0].value);
        (if Begins(st, ls[0].value) then [KnownType(ls[0].value.val)] else []) + BegunTypes(leaf, st', ls[1..])
  }

  /** The rules begun while `ci` is the time zone begun last. */
  ghost function BegunRules(leaf: Leaf, st: State, ls: seq<Option<Node>>, ci: nat): seq<nat>
    requires Wf(st)
    decreases |ls|
  {
    if st.stack == [] || ls == [] || ls[0].None? then [] else
      match Step(leaf, st, ls[0].value)
      case None => []
      case Some(st') =>
        StepKeepsWf(leaf, st, ls[0].value);
        (if BeginsRule(st, ls[0].value) && LastZone(st.comps, ci) then [KnownRule(ls[0].value.val)] else [])
        + BegunRules(leaf, st', ls[1..], ci)
  }

  /** The indices of a type end with the last of them. */
  lemma {:induction false} LastIndex(cs: seq<Comp>, t: IcalType, ci: nat)
    requires ci < |cs|
    ensures var zs := Indices(cs, t);
            (zs != [] && zs[|zs| - 1] == ci) <==> (cs[ci].ctype == t && forall k :: ci < k < |cs| ==> cs[k].ctype != t)
  {
    var n := |cs| - 1;
    if cs[n].ctype != t && ci < n {
      LastIndex(cs[..n], t, ci);
    } else if cs[n].ctype != t {
      IndicesBelow(cs[..n], t);
    }
  }

  lemma {:induction false} IndicesBelow(cs: seq<Comp>, t: IcalType)
    ensures forall z :: z in Indices(cs, t) ==> z < |cs|
  {
    var zs := Indices(cs, t);
    assert forall z :: z in zs ==> exists i :: 0 <= i < |zs| && zs[i] == z;
  }

  lemma {:induction false} SomeIndex(cs: seq<Comp>, t: IcalType)
    ensures Indices(cs, t) == [] <==> forall k :: 0 <= k < |cs| ==> cs[k].ctype != t
  {
    if cs != [] {
      SomeIndex(cs[..|cs| - 1], t);
    }
  }

  /** A rule is added to the time zone begun last, and refused if there is none. */
  lemma RuleGoesLast(st: State, z: nat)
    ensures PushTz(st, z) == None <==> forall k :: 0 <= k < |st.comps| ==> st.comps[k].ctype != 5
    ensures forall ci: nat :: LastZone(st.comps, ci) ==>
              var c := st.comps[ci];
              PushTz(st, z) == Some(st.(comps := st.comps[ci := c.(tzs := c.tzs + [BlankRule(z)])],
                                        stack := st.stack + [InTz(ci, |c.tzs|)]))
  {
    hide Indices;
    SomeIndex(st.comps, VTIMEZONE);
    Blanks(VCALENDAR, z);
    forall ci: nat | LastZone(st.comps, ci)
      ensures Indices(st.comps, VTIMEZONE) != [] && Indices(st.comps, VTIMEZONE)[|Indices(st.comps, VTIMEZONE)| - 1] == ci
    {
      LastIndex(st.comps, VTIMEZONE, ci);
    }
  }

  /** What one line does to the types of the components, to the rules, and to what is open. */
  lemma StepBegins(leaf: Leaf, st: State, n: Node)
    requires Wf(st) && st.stack != [] && Step(leaf, st, n).Some?
    ensures var st' := Step(leaf, st, n).value;
            && Types(st'.comps) == Types(st.comps) + (if Begins(st, n) then [KnownType(n.val)] else [])
            && (Begins(st, n) ==> st'.stack == st.stack + [InComp(|st.comps|)])
  {
    hide Property, TzProperty, AfterDuration, IsDuration, EqIgnoreCase, CompDone, TzDone, KnownType, KnownRule, Is, PushTz;
    hide NO_TIME, NO_DUR, NO_RRULE, NO_TM, FindName;
    OuterNames(n);
    TablesMean(n.val);
    PushTzTypes(Record(st, n), FindName(ICALTZTYPES, n.val));
  }

  lemma PushTzTypes(st: State, z: nat)
    ensures PushTz(st, z).Some? ==> Types(PushTz(st, z).value.comps) == Types(st.comps)
  {
  }

  /** The components are those that the BEGIN lines name, in their order. */
  lemma {:induction false} RunBegins(leaf: Leaf, st: State, ls: seq<Option<Node>>)
    requires Wf(st) && Run(leaf, st, ls).Some?
    ensures Types(Run(leaf, st, ls).value.0.comps) == Types(st.comps) + BegunTypes(leaf, st, ls)
    decreases |ls|, |st.stack|
  {
    hide Step, Begins, Types;
    var none: seq<nat> := [];
    assert Types(st.comps) + none == Types(st.comps);
    if st.stack == [] {
    } else if ls == [] {
      CloseKeepsWf(st);
      RunBegins(leaf, Close(st).value, ls);
    } else {
      var n := ls[0].value;
      StepKeepsWf(leaf, st, n);
      StepBegins(leaf, st, n);
      RunBegins(leaf, Step(leaf, st, n).value, ls[1..]);
      Joined(Types(st.comps), if Begins(st, n) then [KnownType(n.val)] else [],
             BegunTypes(leaf, Step(leaf, st, n).value, ls[1..]));
    }
  }

  lemma Joined<T>(a: seq<T>, b: seq<T>, c: seq<T>)
    ensures a + b + c == a + (b + c)
  {
  }

  lemma StepRules(leaf: Leaf, st: State, n: Node, ci: nat)
    requires Wf(st) && st.stack != [] && Step(leaf, st, n).Some? && ci < |Step(leaf, st, n).value.comps|
    ensures var c' := Step(leaf, st, n).value.comps[ci];
            RuleTypes(c') == (if ci < |st.comps| then RuleTypes(st.comps[ci]) else [])
                             + (if BeginsRule(st, n) && LastZone(st.comps, ci) then [KnownRule(n.val)] else [])
  {
    hide Property, TzProperty, AfterDuration, IsDuration, EqIgnoreCase, CompDone, TzDone, KnownType, KnownRule, Is;
    hide NO_TIME, NO_DUR, NO_RRULE, NO_TM, FindName, PushTz, LastZone;
    OuterNames(n);
    TablesMean(n.val);
    PushTzRules(Record(st, n), KnownRule(n.val));
  }

  lemma PushTzRules(st: State, z: nat)
    ensures PushTz(st, z).Some? ==>
              var cs := PushTz(st, z).value.comps;
              && |cs| == |st.comps|
              && forall ci: nat :: ci < |cs| ==>
                   RuleTypes(cs[ci]) == RuleTypes(st.comps[ci]) + (if LastZone(st.comps, ci) then [z] else [])
  {
    if PushTz(st, z).Some? {
      var zs := Indices(st.comps, VTIMEZONE);
      forall ci: nat | ci < |st.comps|
        ensures LastZone(st.comps, ci) <==> zs[|zs| - 1] == ci
      {
        LastIndex(st.comps, VTIMEZONE, ci);
      }
    }
  }

  /** The rules of a time zone are those that BEGIN lines name while it is the time zone begun last. */
  lemma {:induction false} RunBeginsRules(leaf: Leaf, st: State, ls: seq<Option<Node>>, ci: nat)
    requires Wf(st) && Run(leaf, st, ls).Some? && ci < |Run(leaf, st, ls).value.0.comps|
    ensures RuleTypes(Run(leaf, st, ls).value.0.comps[ci]) ==
              (if ci < |st.comps| then RuleTypes(st.comps[ci]) else []) + BegunRules(leaf, st, ls, ci)
    decreases |ls|, |st.stack|
  {
    hide Step, BeginsRule, RuleTypes, LastZone;
    var none: seq<nat> := [];
    if st.stack == [] {
      assert RuleTypes(st.comps[ci]) + none == RuleTypes(st.comps[ci]);
    } else if ls == [] {
      CloseKeepsWf(st);
      RunBeginsRules(leaf, Close(st).value, ls, ci);
    } else {
      var n := ls[0].value;
      StepKeepsWf(leaf, st, n);
      var st' := Step(leaf, st, n).value;
      RunGrows(leaf, st', ls[1..]);
      NotYet(leaf, st, n, |st'.comps|);
      RunBeginsRules(leaf, st', ls[1..], ci);
      if ci < |st'.comps| {
        StepRules(leaf, st, n, ci);
      } else {
        assert !LastZone(st.comps, ci) by { NoZone(st.comps, ci); }
        assert none + none == none;
      }
      Joined(if ci < |st.comps| then RuleTypes(st.comps[ci]) else [],
             if BeginsRule(st, n) && LastZone(st.comps, ci) then [KnownRule(n.val)] else [],
             BegunRules(leaf, st', ls[1..], ci));
    }
  }

  lemma NoZone(cs: seq<Comp>, ci: nat)
    requires ci >= |cs|
    ensures !LastZone(cs, ci)
  {
  }

  /** The shape of a parsed calendar: its components, and the rules of each, as its BEGIN lines say. */
  lemma ShapeDecided(leaf: Leaf, cp: bytes)
    requires Parse(leaf, cp).Some?
    ensures var cs, ls := Parse(leaf, cp).value.0.comps, Lines(cp);
            && ls != [] && ls[0].Some? && Is(ls[0].value, "BEGIN") && KnownType(ls[0].value.val) == 0
            && Types(cs) == [0] + BegunTypes(leaf, Opened(ls[0].value), ls[1..])
            && forall ci: nat :: ci < |cs| ==> RuleTypes(cs[ci]) == BegunRules(leaf, Opened(ls[0].value), ls[1..], ci)
  {
    hide Run, BegunTypes, BegunRules, Lines, Linkable, KnownType, Is, Types, RuleTypes;
    var ls := Lines(cp);
    var cs := Parse(leaf, cp).value.0.comps;
    OuterNames(ls[0].value);
    FirstIsCalendar(ls[0].value);
    RunBegins(leaf, Opened(ls[0].value), ls[1..]);
    forall ci: nat | ci < |cs|
      ensures RuleTypes(cs[ci]) == BegunRules(leaf, Opened(ls[0].value), ls[1..], ci)
    {
      RunBeginsRules(leaf, Opened(ls[0].value), ls[1..], ci);
      OpenedRules(ls[0].value);
      var rs := BegunRules(leaf, Opened(ls[0].value), ls[1..], ci);
      var none: seq<nat> := [];
      assert none + rs == rs;
    }
  }

  lemma FirstIsCalendar(n: Node)
    ensures EqIgnoreCase(n.val, Ascii("VCALENDAR")) <==> KnownType(n.val) == 0
    ensures Types(Opened(n).comps) == [0]
  {
    EitherCase(n.val, "VCALENDAR", "VCALENDAR");
  }

  lemma OpenedRules(n: Node)
    ensures |Opened(n).comps| == 1 && RuleTypes(Opened(n).comps[0]) == []
  {
  }

  // ------------------------------------------------------------------
  // What is checked.

  /** UNTIL is in UTC if the start has a time zone, and otherwise of the kind of the start. */
  predicate UntilFits(r: RRule, start: ITime) {
    r.active && r.until.kind != Unset && start.time.kind != Unset ==>
      if start.tzstr.Some? then r.until.kind == DateTimeUtc else r.until.kind == start.time.kind
  }

  /** An event has an identifier and a start that is not the epoch, and a time zone an identifier. */
  predicate Checked(c: Comp) {
    && UntilFits(c.rrule, c.dtstart)
    && (c.ctype == 1 ==> c.uid != None && c.dtstart.time.time != 0)
    && (c.ctype == 5 ==> c.tzid != None)
  }

  predicate CheckedRule(t: Tz) {
    t.rrule.active && t.rrule.until.kind != Unset && t.dtstart.kind != Unset ==>
      || t.rrule.until.kind == t.dtstart.kind
      || (t.rrule.until.kind == DateTimeUtc && !(t.offsetFrom == 0 && t.offsetTo == 0))
  }

  lemma ChecksMean(c: Comp, t: Tz)
    ensures (CompDone(c) <==> Checked(c)) && (TzDone(t) <==> CheckedRule(t))
  {
  }

  /** An END line closes what is innermost if it names it and the checks are met, and fails if they are not. */
  lemma StepEnds(leaf: Leaf, st: State, n: Node)
    requires Wf(st) && st.stack != [] && Is(n, "END")
    ensures var f := Top(st);
            var c := st.comps[f.ci];
            var named := if f.InComp? then KnownType(n.val) == c.ctype
                         else c.tzs[f.ti].ttype < 2 && KnownRule(n.val) == c.tzs[f.ti].ttype;
            var checked := if f.InComp? then Checked(c) else CheckedRule(c.tzs[f.ti]);
            var nodes := st.nodes + [n];
            Step(leaf, st, n) == if !named then Some(st.(nodes := nodes))
                                 else if checked then Some(st.(nodes := nodes, stack := st.stack[..|st.stack| - 1]))
                                 else None
  {
    hide Property, TzProperty, AfterDuration, IsDuration, EqIgnoreCase, CompDone, TzDone, KnownType, KnownRule, FindName;
    hide Checked, CheckedRule, Same;
    OuterNames(n);
    NotBoth(n);
    TablesMean(n.val);
    var f := Top(st);
    ChecksMean(st.comps[f.ci], if f.InTz? then st.comps[f.ci].tzs[f.ti] else NewTz(0));
  }

  lemma NotBoth(n: Node)
    ensures !(Is(n, "BEGIN") && Is(n, "END"))
  {
  }

  /** A BEGIN line of an unknown name is recorded and nothing else, and so is every one inside a rule. */
  lemma StepUnknown(leaf: Leaf, st: State, n: Node)
    requires Wf(st) && st.stack != [] && Is(n, "BEGIN")
    requires Top(st).InTz? || (KnownType(n.val) == 7 && KnownRule(n.val) == 2)
    ensures Step(leaf, st, n) == Some(st.(nodes := st.nodes + [n]))
  {
    hide Property, AfterDuration, IsDuration, EqIgnoreCase, CompDone, TzDone, KnownType, KnownRule, FindName;
    hide Same;
    OuterNames(n);
    NotBoth(n);
    TablesMean(n.val);
    if Top(st).InTz? {
      var c, ti := st.comps[Top(st).ci], Top(st).ti;
      BeginIsNoProperty(leaf, c.tzs[ti], n);
      assert c.tzs[ti := c.tzs[ti]] == c.tzs && st.comps[Top(st).ci := c] == st.comps;
    }
  }

  lemma BeginIsNoProperty(leaf: Leaf, t: Tz, n: Node)
    requires Is(n, "BEGIN")
    ensures TzProperty(leaf, t, n) == Some(t)
  {
    hide Same, EqIgnoreCase, Ascii;
    NamesMean(n);
    MoreNames(n);
    NotBegin(n);
  }

  lemma NotBegin(n: Node)
    requires Is(n, "BEGIN")
    ensures !Is(n, "DTSTART") && !Is(n, "TZOFFSETFROM") && !Is(n, "TZOFFSETTO") && !Is(n, "RRULE")
  {
    assert Lower(n.name[0]) == 98 && Lower("RRULE"[0] as byte) == 114;
  }

  /** What is no longer open has passed its checks. */
  ghost predicate ClosedOk(st: State) {
    && (forall k :: 0 <= k < |st.comps| ==> Checked(st.comps[k]) || InComp(k) in st.stack)
    && (forall k: nat, i: nat :: HasRule(st.comps, k, i) ==> CheckedRule(st.comps[k].tzs[i]) || InTz(k, i) in st.stack)
  }

  /** What is open after a line: as before, one more, or all but the innermost, which then has passed its checks. */
  lemma StepStack(leaf: Leaf, st: State, n: Node)
    requires Wf(st) && st.stack != [] && Step(leaf, st, n).Some?
    ensures var t, f := Step(leaf, st, n).value, Top(st);
            || t.stack == st.stack
            || (!Belongs(st, n, f) && st.stack <= t.stack)
            || (&& !Belongs(st, n, f) && t.stack == st.stack[..|st.stack| - 1] && t.comps == st.comps
                && if f.InComp? then Checked(st.comps[f.ci]) else CheckedRule(st.comps[f.ci].tzs[f.ti]))
  {
    hide Property, TzProperty, TzDone, CompDone, AfterDuration, IsDuration, FindName, Named, Is, Checked, CheckedRule;
    var f := Top(st);
    OuterNames(n);
    ChecksMean(st.comps[f.ci], if f.InTz? then st.comps[f.ci].tzs[f.ti] else NewTz(0));
  }

  lemma StepKeepsComps(leaf: Leaf, st: State, n: Node, k: nat)
    requires Wf(st) && st.stack != [] && ClosedOk(st) && Step(leaf, st, n).Some?
    requires k < |Step(leaf, st, n).value.comps|
    ensures var t := Step(leaf, st, n).value; Checked(t.comps[k]) || InComp(k) in t.stack
  {
    hide Step, Belongs, Property, CheckedRule, UntilFits;
    StepStack(leaf, st, n);
    StepComps(leaf, st, n, k);
    if k >= |st.comps| {
      NewIsOpen(leaf, st, n, k);
    } else if Belongs(st, n, InComp(k)) {
      BelongsTop(st, n, InComp(k));
    }
  }

  lemma BelongsTop(st: State, n: Node, f: Frame)
    requires st.stack != [] && Belongs(st, n, f)
    ensures Top(st) == f && f in st.stack
  {
  }

  lemma NewIsOpen(leaf: Leaf, st: State, n: Node, k: nat)
    requires Wf(st) && st.stack != [] && Step(leaf, st, n).Some?
    requires |st.comps| <= k < |Step(leaf, st, n).value.comps|
    ensures InComp(k) in Step(leaf, st, n).value.stack
  {
    hide Step, Types, Begins;
    StepBegins(leaf, st, n);
    var t := Step(leaf, st, n).value;
    assert |Types(t.comps)| == |t.comps| && |Types(st.comps)| == |st.comps|;
    assert t.stack[|st.stack|] == InComp(|st.comps|);
  }

  lemma StepKeepsRules(leaf: Leaf, st: State, n: Node, k: nat, i: nat)
    requires Wf(st) && st.stack != [] && ClosedOk(st) && Step(leaf, st, n).Some?
    requires HasRule(Step(leaf, st, n).value.comps, k, i)
    ensures var t := Step(leaf, st, n).value; CheckedRule(t.comps[k].tzs[i]) || InTz(k, i) in t.stack
  {
    hide Step, Belongs, TzProperty, Checked;
    StepStack(leaf, st, n);
    StepTzs(leaf, st, n, k, i);
    if HasRule(st.comps, k, i) && Belongs(st, n, InTz(k, i)) {
      BelongsTop(st, n, InTz(k, i));
    }
  }

  lemma CloseKeepsOk(st: State)
    requires Wf(st) && st.stack != [] && ClosedOk(st) && Close(st).Some?
    ensures ClosedOk(Close(st).value)
  {
    hide CompDone, TzDone, Checked, CheckedRule;
    var f := Top(st);
    ChecksMean(st.comps[f.ci], if f.InTz? then st.comps[f.ci].tzs[f.ti] else NewTz(0));
  }

  lemma {:induction false} RunChecks(leaf: Leaf, st: State, ls: seq<Option<Node>>)
    requires Wf(st) && ClosedOk(st) && Run(leaf, st, ls).Some?
    ensures ClosedOk(Run(leaf, st, ls).value.0) && Run(leaf, st, ls).value.0.stack == []
    decreases |ls|, |st.stack|
  {
    hide Step, ClosedOk, Checked, CheckedRule;
    if st.stack == [] {
    } else if ls == [] {
      CloseKeepsWf(st);
      CloseKeepsOk(st);
      RunChecks(leaf, Close(st).value, ls);
    } else {
      StepKeepsWf(leaf, st, ls[0].value);
      StepKeepsOk(leaf, st, ls[0].value);
      RunChecks(leaf, Step(leaf, st, ls[0].value).value, ls[1..]);
    }
  }

  lemma StepKeepsOk(leaf: Leaf, st: State, n: Node)
    requires Wf(st) && st.stack != [] && ClosedOk(st) && Step(leaf, st, n).Some?
    ensures ClosedOk(Step(leaf, st, n).value)
  {
    hide Step, Checked, CheckedRule;
    var t := Step(leaf, st, n).value;
    forall k: nat | k < |t.comps|
      ensures Checked(t.comps[k]) || InComp(k) in t.stack
    {
      StepKeepsComps(leaf, st, n, k);
    }
    forall k: nat, i: nat | HasRule(t.comps, k, i)
      ensures CheckedRule(t.comps[k].tzs[i]) || InTz(k, i) in t.stack
    {
      StepKeepsRules(leaf, st, n, k, i);
    }
  }

  /** Every component and every rule of a parsed calendar has passed its checks. */
  lemma AllChecked(leaf: Leaf, cp: bytes)
    requires Parse(leaf, cp).Some?
    ensures var cs := Parse(leaf, cp).value.0.comps;
            && (forall k :: 0 <= k < |cs| ==> Checked(cs[k]))
            && (forall k: nat, i: nat :: HasRule(cs, k, i) ==> CheckedRule(cs[k].tzs[i]))
  {
    hide Run, Lines, Linkable, Checked, CheckedRule;
    var ls := Lines(cp);
    OpenedRules(ls[0].value);
    RunChecks(leaf, Opened(ls[0].value), ls[1..]);
  }

  // ------------------------------------------------------------------
  // One event.

  function Line(name: string, val: bytes): Node
    requires forall i :: 0 <= i < |name| ==> name[i] < 128 as char
  {
    Node(Ascii(name), None, val)
  }

  lemma EnterOne(leaf: Leaf, st: State, n: Node, c: Comp)
    requires Wf(st) && st.stack != [] && Top(st).InComp? && Property(leaf, st.comps[Top(st).ci], n) == Some(c)
    requires !Is(n, "BEGIN") && !Is(n, "END") && !Is(n, "DURATION")
    ensures Step(leaf, st, n) == Some(st.(nodes := st.nodes + [n], comps := st.comps[Top(st).ci := c]))
  {
    hide Property, Is, EqIgnoreCase, Ascii;
    OuterNames(n);
    NamesMean(n);
    MoreNames(n);
  }

  lemma LineNames(uid: Node, start: Node, end: Node, begin: Node)
    requires uid.name == Ascii("UID") && start.name == Ascii("DTSTART") && end.name == Ascii("DTEND")
    requires begin.name == Ascii("BEGIN")
    ensures Is(uid, "UID") && Is(start, "DTSTART") && Is(end, "DTEND") && Is(begin, "BEGIN")
    ensures forall n :: n == uid || n == start || n == end ==> !Is(n, "BEGIN") && !Is(n, "END") && !Is(n, "DURATION")
  {
    assert Lower(Ascii("DTEND")[0]) == 100 && Lower("BEGIN"[0] as byte) == 98;
    assert Lower(Ascii("UID")[0]) == 117 && Lower("END"[0] as byte) == 101;
  }

  lemma Apart(uid: Node, start: Node, end: Node)
    requires Is(uid, "UID") && Is(start, "DTSTART") && Is(end, "DTEND")
    ensures forall name: string :: name == "CREATED" || name == "LAST-MODIFIED" || name == "DTSTAMP" || name == "TZID" || name == "RRULE"
              ==> !Is(uid, name) && !Is(start, name) && !Is(end, name)
    ensures !Is(uid, "DTSTART") && !Is(uid, "DTEND") && !Is(start, "UID") && !Is(start, "DTEND")
    ensures !Is(end, "UID") && !Is(end, "DTSTART")
  {
    hide Is, Code;
    Codes(uid);
    Codes(start);
    Codes(end);
    MoreCodes(uid);
    MoreCodes(start);
    MoreCodes(end);
  }

  /** The event after its three lines. */
  function Event(leaf: Leaf, u: Node, s: Node, d: Node): Comp {
    NewComp(1).(uid := Some(u.val), dtstart := ITime(DateOf(leaf, s.val), None), dtend := ITime(DateOf(leaf, d.val), None))
  }

  lemma BeginEvent(leaf: Leaf, b: Node, e: Node)
    requires Is(e, "BEGIN") && KnownType(e.val) == 1
    ensures Step(leaf, Opened(b), e) == Some(State([b, e], [NewComp(0), NewComp(1)], [InComp(0), InComp(1)]))
  {
    hide Property, Is, EqIgnoreCase, Ascii, FindName, KnownType, NewComp, AfterDuration, IsDuration, CompDone, TzDone;
    OuterNames(e);
    TablesMean(e.val);
    assert [b] + [e] == [b, e] && [NewComp(0)] + [NewComp(1)] == [NewComp(0), NewComp(1)];
    assert [InComp(0)] + [InComp(1)] == [InComp(0), InComp(1)];
  }

  lemma EventFields(leaf: Leaf, u: Node, s: Node, d: Node)
    requires Is(u, "UID") && Is(s, "DTSTART") && Is(d, "DTEND")
    requires u.val != [] && leaf.datetime(s.val).Some? && leaf.datetime(d.val).Some?
    requires u.param == s.param == d.param == None
    ensures var c0, c := NewComp(1), Event(leaf, u, s, d);
            var c1 := c0.(uid := c.uid);
            var c2 := c1.(dtstart := c.dtstart);
            && Property(leaf, c0, u) == Some(c1) && Property(leaf, c1, s) == Some(c2) && Property(leaf, c2, d) == Some(c)
  {
    hide Property, Is, NewComp;
    Apart(u, s, d);
    var c0, c := NewComp(1), Event(leaf, u, s, d);
    var c1 := c0.(uid := c.uid);
    var c2 := c1.(dtstart := c.dtstart);
    IsNoDuration(u, s, d);
    PropertyTakes(leaf, c0, u);
    PropertySets(leaf, c0, u);
    PropertyTakes(leaf, c1, s);
    PropertySets(leaf, c1, s);
    PropertyTakes(leaf, c2, d);
    PropertySets(leaf, c2, d);
  }

  lemma IsNoDuration(u: Node, s: Node, d: Node)
    requires Is(u, "UID") && Is(s, "DTSTART") && Is(d, "DTEND")
    ensures !Is(u, "DURATION") && !Is(s, "DURATION") && !Is(d, "DURATION")
  {
  }

  lemma EventEnds(leaf: Leaf, ns: seq<Node>, c: Comp, t: Tm)
    requires c == NewComp(1).(uid := c.uid, dtstart := ITime(t, None), dtend := c.dtend) && c.uid.Some?
    ensures var st := State(ns, [NewComp(0), c], [InComp(0), InComp(1)]);
            Wf(st) && Run(leaf, st, []) == if t.time == 0 then None else Some((st.(stack := []), []))
  {
    hide Run;
    var st := State(ns, [NewComp(0), c], [InComp(0), InComp(1)]);
    RunEnd(leaf, st);
    assert Closable(st.comps, st.stack[0]);
    assert Closable(st.comps, st.stack[1]) <==> t.time != 0;
  }

  lemma EnterNext(leaf: Leaf, ns: seq<Node>, c: Comp, n: Node, c': Comp)
    requires Property(leaf, c, n) == Some(c') && !Is(n, "BEGIN") && !Is(n, "END") && !Is(n, "DURATION")
    ensures var stack := [InComp(0), InComp(1)];
            && Wf(State(ns, [NewComp(0), c], stack))
            && Step(leaf, State(ns, [NewComp(0), c], stack), n) == Some(State(ns + [n], [NewComp(0), c'], stack))
  {
    hide Property, Is, NewComp, Step;
    EnterOne(leaf, State(ns, [NewComp(0), c], [InComp(0), InComp(1)]), n, c');
    assert [NewComp(0), c][1 := c'] == [NewComp(0), c'];
  }

  lemma EventLines(leaf: Leaf, b: Node, e: Node, u: Node, s: Node, d: Node)
    requires IsOpening(b) && Is(e, "BEGIN") && KnownType(e.val) == 1
    requires Is(u, "UID") && Is(s, "DTSTART") && Is(d, "DTEND")
    requires forall n :: n == u || n == s || n == d ==> !Is(n, "BEGIN") && !Is(n, "END") && !Is(n, "DURATION")
    requires u.val != [] && leaf.datetime(s.val).Some? && leaf.datetime(d.val).Some?
    requires u.param == s.param == d.param == None
    ensures ParseLines(leaf, [Some(b), Some(e), Some(u), Some(s), Some(d)]) ==
              if DateOf(leaf, s.val).time == 0 then None
              else Some((Ical([b, e, u, s, d], [NewComp(0), Event(leaf, u, s, d)]), []))
  {
    hide Step, Property, Is, Run, NewComp, Event, IsOpening, Linkable;
    var c0, c := NewComp(1), Event(leaf, u, s, d);
    var c1 := c0.(uid := c.uid);
    var c2 := c1.(dtstart := c.dtstart);
    var stack := [InComp(0), InComp(1)];
    var st1 := State([b, e], [NewComp(0), c0], stack);
    var st2 := State([b, e, u], [NewComp(0), c1], stack);
    var st3 := State([b, e, u, s], [NewComp(0), c2], stack);
    var st4 := State([b, e, u, s, d], [NewComp(0), c], stack);
    OpenedIs(b);
    BeginEvent(leaf, b, e);
    EventFields(leaf, u, s, d);
    EnterNext(leaf, [b, e], c0, u, c1);
    EnterNext(leaf, [b, e, u], c1, s, c2);
    EnterNext(leaf, [b, e, u, s], c2, d, c);
    assert [b, e] + [u] == [b, e, u] && [b, e, u] + [s] == [b, e, u, s] && [b, e, u, s] + [d] == [b, e, u, s, d];
    var l3: seq<Option<Node>> := [Some(d)];
    var l2 := [Some(s)] + l3;
    var l1 := [Some(u)] + l2;
    var l0 := [Some(e)] + l1;
    RunCons(leaf, Opened(b), e, l1);
    RunCons(leaf, st1, u, l2);
    RunCons(leaf, st2, s, l3);
    RunCons(leaf, st3, d, []);
    assert l3 == [Some(d)] + [];
    EventIs(leaf, u, s, d);
    EventEnds(leaf, [b, e, u, s, d], c, DateOf(leaf, s.val));
    ParseOutcome(leaf, b, l0);
    assert [Some(b)] + l0 == [Some(b), Some(e), Some(u), Some(s), Some(d)];
    EventLinks(c);
  }

  lemma OpenedIs(b: Node)
    ensures Opened(b) == State([b], [NewComp(0)], [InComp(0)]) && Wf(Opened(b))
  {
  }

  lemma EventIs(leaf: Leaf, u: Node, s: Node, d: Node)
    ensures var c := Event(leaf, u, s, d);
            && c.uid.Some? && c.dtstart == ITime(DateOf(leaf, s.val), None)
            && c == NewComp(1).(uid := c.uid, dtstart := c.dtstart, dtend := c.dtend)
            && c.dtend.tzstr == None && c.ctype == 1
  {
  }

  lemma EventLinks(c: Comp)
    requires c.dtstart.tzstr == None && c.dtend.tzstr == None && c.ctype == 1
    ensures TzIdsSet([NewComp(0), c]) && Linkable([NewComp(0), c])
  {
  }

  /**
   * An event with an identifier, a start and an end, none of them with parameters: it is refused if
   * it starts at the epoch, and otherwise its fields are those values.
   */
  lemma OneEvent(leaf: Leaf, uid: bytes, start: bytes, end: bytes)
    requires uid != [] && leaf.datetime(start).Some? && leaf.datetime(end).Some?
    ensures var ns := [Line("BEGIN", Ascii("VCALENDAR")), Line("BEGIN", Ascii("VEVENT")),
                       Line("UID", uid), Line("DTSTART", start), Line("DTEND", end)];
            var r := ParseLines(leaf, [Some(ns[0]), Some(ns[1]), Some(ns[2]), Some(ns[3]), Some(ns[4])]);
            var (t0, t1) := (leaf.datetime(start).value, leaf.datetime(end).value);
            if t0.time == 0 then r == None
            else r == Some((Ical(ns, [Blank(0),
                   Blank(1).(uid := Some(uid), dtstart := ITime(t0, None), dtend := ITime(t1, None))]), []))
  {
    hide Is, Ascii, EqIgnoreCase, ParseLines, KnownType;
    var b, e, u := Line("BEGIN", Ascii("VCALENDAR")), Line("BEGIN", Ascii("VEVENT")), Line("UID", uid);
    var s, d := Line("DTSTART", start), Line("DTEND", end);
    Blanks(0, 0);
    Blanks(1, 0);
    LineNames(u, s, d, e);
    BeginLines(b, e);
    EventLines(leaf, b, e, u, s, d);
  }

  lemma BeginLines(b: Node, e: Node)
    requires b.name == Ascii("BEGIN") && b.val == Ascii("VCALENDAR") && e.val == Ascii("VEVENT")
    ensures IsOpening(b) && KnownType(e.val) == 1
  {
    assert Lower(e.val[1]) == 101 && Lower("VCALENDAR"[1] as byte) == 99;
  }
}
