/** A calendar as the server handles it: parsed from a request, printed to a reply, and parsed again. */
module IcalEndToEnd {
  import opened Octets
  import opened IcalLines
  import opened IcalPrint
  import opened IcalRoundTrip
  import opened IcalModel
  import opened IcalReparse
  import opened IcalParser

  /** Two references into two lists are in the same place, or both are null. */
  ghost predicate SamePlace(l: seq<IcalComp>, c: IcalComp?, m: seq<IcalComp>, d: IcalComp?)
    requires |l| == |m|
  {
    && (c == null <==> d == null)
    && forall k :: 0 <= k < |l| ==> (l[k] == c <==> m[k] == d)
  }

  /** The dates of the components of two parsers refer to time zones in the same places. */
  ghost predicate SameLinks(p: IcalParse, q: IcalParse)
    reads p`all, p.all`dtstartTz, p.all`dtendTz, q`all, q.all`dtstartTz, q.all`dtendTz
  {
    && |p.all| == |q.all|
    && forall i :: 0 <= i < |p.all| ==>
         && SamePlace(p.all, p.all[i].dtstartTz, q.all, q.all[i].dtstartTz)
         && SamePlace(p.all, p.all[i].dtendTz, q.all, q.all[i].dtendTz)
  }

  /** The same lines, components and links, and the same bits; the durations may differ. */
  ghost predicate SameButDurations(p: IcalParse, q: IcalParse)
    reads p`nodes, p.nodes`val, p`all, p.all`f, p.all`dtstartTz, p.all`dtendTz, p`bits
    reads q`nodes, q.nodes`val, q`all, q.all`f, q.all`dtstartTz, q.all`dtendTz, q`bits
  {
    && Values(q.nodes) == Values(p.nodes)
    && CompValues(q.all) == ZeroComps(CompValues(p.all))
    && SameLinks(p, q) && p.bits == q.bits
  }

  /** The components whose dates are all linked. */
  ghost predicate Linked(p: IcalParse)
    reads p`all, p.all`f, p.all`dtstartTz, p.all`dtendTz
  {
    && TzIdsSet(CompValues(p.all))
    && forall i :: 0 <= i < |p.all| ==> p.LinkedComp(p.all[i])
  }

  /** The time zone that a date refers to: none without an identifier, and otherwise one that has it. */
  ghost predicate RefersTo(p: IcalParse, tm: ITime, z: IcalComp?)
    reads p`all, p.all`f
  {
    if tm.tzstr == None then z == null else
      z != null && z in p.all && z.ctype == 5 && HasId(z.f, tm.tzstr.value)
  }

  lemma ObjectMeans(p: IcalParse, tm: ITime)
    requires TzIdsSet(CompValues(p.all)) && Typed(p.all)
    requires tm.tzstr.Some? ==> p.TzObject(tm) != null
    ensures RefersTo(p, tm, p.TzObject(tm))
  {
    hide CompValues, Indices, EqIgnoreCase;
    var cs := CompValues(p.all);
    if tm.tzstr.Some? {
      FindTzFirst(cs, Indices(cs, VTIMEZONE), tm.tzstr.value);
    }
  }

  /** The start and the end of each component refer to the time zones that their own TZID names. */
  lemma LinksMean(p: IcalParse, i: nat)
    requires p.Valid() && Linked(p) && i < |p.all|
    ensures RefersTo(p, p.all[i].f.dtstart, p.all[i].dtstartTz)
    ensures RefersTo(p, p.all[i].f.dtend, p.all[i].dtendTz)
  {
    hide CompValues, IcalParse.NodesOk, IcalParse.ListsOk, RefersTo, IcalParse.TzObject;
    assert p.LinkedComp(p.all[i]);
    ObjectMeans(p, p.all[i].f.dtstart);
    ObjectMeans(p, p.all[i].f.dtend);
  }

  lemma SameObject(p: IcalParse, q: IcalParse, tm: ITime)
    requires TzIdsSet(CompValues(p.all)) && TzIdsSet(CompValues(q.all)) && |p.all| == |q.all|
    requires Distinct(p.all) && Distinct(q.all)
    requires TzOf(CompValues(p.all), tm) == TzOf(CompValues(q.all), tm)
    ensures SamePlace(p.all, p.TzObject(tm), q.all, q.TzObject(tm))
  {
    hide TzOf, CompValues, TzIdsSet;
  }

  /** Blanking durations leaves the links in place. */
  lemma SameZones(p: IcalParse, q: IcalParse)
    requires Linked(p) && Linked(q) && Distinct(p.all) && Distinct(q.all)
    requires CompValues(q.all) == ZeroComps(CompValues(p.all))
    ensures SameLinks(p, q)
  {
    hide TzOf, CompValues, TzIdsSet, ZeroComps, SamePlace, IcalParse.TzObject;
    var cs := CompValues(p.all);
    ZeroLinkable(cs);
    forall i | 0 <= i < |p.all|
      ensures SamePlace(p.all, p.all[i].dtstartTz, q.all, q.all[i].dtstartTz)
      ensures SamePlace(p.all, p.all[i].dtendTz, q.all, q.all[i].dtendTz)
    {
      var c := p.all[i].f;
      assert cs[i] == c && CompValues(q.all)[i] == q.all[i].f == ZeroComp(c);
      assert p.LinkedComp(p.all[i]) && q.LinkedComp(q.all[i]);
      SameObject(p, q, c.dtstart);
      SameObject(p, q, c.dtend);
    }
  }

  /** A bit is on if and only if the machine has a component of its type. */
  lemma BitMeans(p: IcalParse, t: IcalType)
    requires p.CompsOk()
    ensures t in p.bits <==> Indices(CompValues(p.all), t) != []
  {
    hide Indices, CompValues, Listed, CompChain;
    assert p.ListOk(t);
    ListedIndices(p.all, t);
  }

  lemma SameBits(p: IcalParse, q: IcalParse)
    requires p.CompsOk() && q.CompsOk() && CompValues(q.all) == ZeroComps(CompValues(p.all))
    ensures p.bits == q.bits
  {
    hide Indices, CompValues, IcalParse.CompsOk;
    forall t: IcalType
      ensures t in p.bits <==> t in q.bits
    {
      BitMeans(p, t);
      BitMeans(q, t);
      IndicesOfTypes(CompValues(q.all), CompValues(p.all), t);
    }
  }

  /** What two parsers hold, if one holds the calendar that the other does with blank durations. */
  lemma SameCalendar(p: IcalParse, q: IcalParse)
    requires p.Valid() && q.Valid() && Linked(p) && Linked(q)
    requires Values(q.nodes) == Values(p.nodes) && CompValues(q.all) == ZeroComps(CompValues(p.all))
    ensures SameButDurations(p, q)
  {
    hide Values, CompValues, Linked, SameLinks, IcalParse.ListsOk, IcalParse.NodesOk;
    SameZones(p, q);
    SameBits(p, q);
  }

  /** A parser that succeeded, and the outcome that it holds. */
  ghost predicate Succeeded(p: IcalParse, leaf: Leaf, s: bytes)
    reads p, p.nodes, p.all, p.reader
  {
    && p.Valid() && Linked(p) && p.reader.pos <= |p.reader.cp|
    && Parse(leaf, s) == Some((Ical(Values(p.nodes), CompValues(p.all)), Lines(p.reader.Rest())))
  }

  lemma HoldsSucceeded(p: IcalParse, s: bytes)
    requires p.reader.pos <= |p.reader.cp| && p.Holds(Lines(s))
    ensures Succeeded(p, p.leaf, s)
  {
    hide Values, CompValues, Lines, ParseLines, TzIdsSet, IcalParse.LinkedComp, IcalParse.Valid;
  }

  lemma NoLinesLeft(s: bytes)
    ensures Lines(s) == [] <==> s == []
  {
  }

  /** The durations of what is parsed can be read twice. */
  ghost predicate Twice(leaf: Leaf, s: bytes) {
    Parse(leaf, s).Some? && Rereadable(leaf, s)
  }

  ghost predicate AllRead(p: IcalParse)
    reads p.reader
  {
    p.reader.pos == |p.reader.cp|
  }

  ghost predicate SameContents(p: IcalParse, q: IcalParse)
    reads p`nodes, p.nodes`val, p`all, p.all`f, q`nodes, q.nodes`val, q`all, q.all`f
  {
    Values(q.nodes) == Values(p.nodes) && CompValues(q.all) == CompValues(p.all)
  }

  /** The second parse, when no name starts with white space and when it does not matter. */
  lemma Compared(leaf: Leaf, s: bytes, p: IcalParse, q: IcalParse, out: bytes)
    requires Succeeded(p, leaf, s) && Succeeded(q, leaf, out) && out == PrintNodes(Values(p.nodes))
    ensures NoWsNames(Values(p.nodes)) ==> Twice(leaf, s) && AllRead(q) && SameButDurations(p, q)
    ensures SameContents(p, q) && AllRead(q) <==>
              NoWsNames(Values(p.nodes)) && Twice(leaf, s) && AllZero(CompValues(p.all))
  {
    hide Values, CompValues, Lines, Parse, PrintNodes, NoWsNames, AllZero, ZeroComps, Rereadable, Linked;
    hide SameButDurations, IcalParse.Valid;
    ReparseExact(leaf, s);
    NoLinesLeft(q.reader.Rest());
    if NoWsNames(Values(p.nodes)) {
      SameCalendar(p, q);
    }
  }

  lemma Refused(leaf: Leaf, s: bytes, p: IcalParse, out: bytes)
    requires Succeeded(p, leaf, s) && Parse(leaf, out) == None && out == PrintNodes(Values(p.nodes))
    ensures NoWsNames(Values(p.nodes)) ==> !Twice(leaf, s)
    ensures !(NoWsNames(Values(p.nodes)) && Twice(leaf, s) && AllZero(CompValues(p.all)))
  {
    hide Values, CompValues, Lines, Parse, PrintNodes, NoWsNames, AllZero, ZeroComps, Rereadable, Linked;
    ReparseExact(leaf, s);
  }

  /**
   * Parse a buffer, print the calendar to a callback that takes `limit` octets, and parse what was
   * printed.  If everything is printed and no name starts with white space, the second parser
   * succeeds if and only if every duration can be read twice, and then it has read all and holds
   * the same lines, components, bits and links, with blank durations.  Lines and components are the
   * same, and all is read, if and only if besides the durations were zero.
   */
  method Reparse(leaf: Leaf, cp: bytes, pos: nat, limit: nat)
    returns (p: IcalParse?, printed: bool, q: IcalParse?)
    requires pos <= |cp|
    ensures p == null <==> Parse(leaf, cp[pos..]) == None
    ensures p != null ==> p.Valid() && Linked(p)
    ensures printed <==> p != null && |PrintNodes(Values(p.nodes))| <= limit
    ensures q != null ==> printed && q.Valid() && Linked(q)
    ensures printed && NoWsNames(Values(p.nodes)) ==>
              && (q != null <==> Twice(leaf, cp[pos..]))
              && (q != null ==> AllRead(q) && SameButDurations(p, q))
    ensures printed ==>
              (q != null && SameContents(p, q) && AllRead(q) <==>
                 NoWsNames(Values(p.nodes)) && Twice(leaf, cp[pos..]) && AllZero(CompValues(p.all)))
  {
    hide Values, CompValues, Lines, Parse, PrintNodes, NoWsNames, AllZero, Twice, Linked, SameButDurations, SameContents;
    hide AllRead, Succeeded, IcalParse.Holds, IcalParse.Valid;
    p := ParseIcal(leaf, cp, pos);
    printed, q := false, null;
    if p == null {
      return;
    }
    HoldsSucceeded(p, cp[pos..]);
    printed, q := PrintAndParse(leaf, cp[pos..], p, limit);
  }

  method PrintAndParse(leaf: Leaf, ghost s: bytes, p: IcalParse, limit: nat) returns (printed: bool, q: IcalParse?)
    requires Succeeded(p, leaf, s)
    ensures p.Valid() && Linked(p)
    ensures printed <==> |PrintNodes(Values(p.nodes))| <= limit
    ensures q != null ==> printed && q.Valid() && Linked(q)
    ensures printed && NoWsNames(Values(p.nodes)) ==>
              && (q != null <==> Twice(leaf, s))
              && (q != null ==> AllRead(q) && SameButDurations(p, q))
    ensures printed ==>
              (q != null && SameContents(p, q) && AllRead(q) <==>
                 NoWsNames(Values(p.nodes)) && Twice(leaf, s) && AllZero(CompValues(p.all)))
  {
    hide Values, CompValues, Lines, Parse, PrintNodes, NoWsNames, AllZero, Twice, Linked, SameButDurations, SameContents;
    hide AllRead, IcalParse.Holds, IcalParse.CompsOk, Chain;
    var sink := new Sink(limit);
    printed := Print(p.first, sink, p.nodes);
    q := null;
    if !printed {
      return;
    }
    q := ParseIcal(leaf, sink.out, 0);
    assert sink.out[0..] == sink.out;
    if q == null {
      Refused(leaf, s, p, sink.out);
    } else {
      HoldsSucceeded(q, sink.out);
      Compared(leaf, s, p, q, sink.out);
    }
  }
}
