/**
 * The recursive-descent parser over its heap structures: a list of nodes with a tail pointer, one
 * list of components for each type, and the links to time zones.
 */
module IcalParser {
  import opened Octets
  import opened IcalLines
  import opened IcalPrint
  import opened IcalModel
  import opened IcalDuration

  // ------------------------------------------------------------------
  // Components.

  /** A component: its value fields, its place in a list, and the time zones of its dates. */
  class IcalComp {
    const ctype: IcalType
    var next: IcalComp?
    var f: Comp
    var dtstartTz: IcalComp?
    var dtendTz: IcalComp?

    constructor (t: IcalType)
      ensures ctype == t && f == NewComp(t) && next == null
    {
      ctype, next := t, null;
      f, dtstartTz, dtendTz := NewComp(t), null, null;
    }

    /** One property line, already recorded in `np`. */
    method ReadProperty(leaf: Leaf, np: IcalNode) returns (ok: bool)
      requires np.Terminated()
      modifies this`f, np`val
      ensures np.Terminated()
      ensures ok == Property(leaf, old(f), old(np.Value())).Some?
      ensures ok ==> f == Property(leaf, old(f), old(np.Value())).value
      ensures ok ==> np.Value() == if IsDuration(old(np.Value()))
                                   then old(np.Value()).(val := AfterDuration(old(np.Value().val)))
                                   else old(np.Value())
    {
      hide TzDateTime, DateTimeOf, EqIgnoreCase, CStr, Duration, AfterDuration;
      var n := Node(CStr(np.name), if np.param == None then None else Some(CStr(np.param.value)), CStr(np.val));
      if IsDuration(n) {
        NamesApart(n);
      }
      if EqIgnoreCase(n.name, Ascii("uid")) {
        f := f.(uid := if n.val == [] then None else Some(n.val));
        return n.val != [];
      } else if EqIgnoreCase(n.name, Ascii("created")) {
        var v := DateTimeOf(leaf, n.val, DateTimeUtc);
        f := f.(created := if v == None then NO_TM else v.value);
        return v != None;
      } else if EqIgnoreCase(n.name, Ascii("last-modified")) {
        var v := DateTimeOf(leaf, n.val, DateTimeUtc);
        f := f.(lastmod := if v == None then NO_TM else v.value);
        return v != None;
      } else if EqIgnoreCase(n.name, Ascii("dtstamp")) {
        var v := DateTimeOf(leaf, n.val, DateTimeUtc);
        f := f.(dtstamp := if v == None then NO_TM else v.value);
        return v != None;
      } else if EqIgnoreCase(n.name, Ascii("dtstart")) {
        var v := TzDateTime(leaf, n);
        f := f.(dtstart := if v == None then NO_TIME else v.value);
        return v != None;
      } else if EqIgnoreCase(n.name, Ascii("dtend")) {
        var v := TzDateTime(leaf, n);
        f := f.(dtend := if v == None then NO_TIME else v.value);
        return v != None;
      } else if EqIgnoreCase(n.name, Ascii("duration")) {
        var d;
        ok, d := ReadDuration(np);
        f := f.(duration := d);
      } else if EqIgnoreCase(n.name, Ascii("tzid")) {
        f := f.(tzid := if n.val == [] then None else Some(n.val));
        return n.val != [];
      } else if EqIgnoreCase(n.name, Ascii("rrule")) {
        var v := leaf.rrule(f.rrule, n.val);
        f := f.(rrule := if v == None then f.rrule else v.value);
        return v != None;
      } else {
        return true;
      }
    }

    /** One property line of the rule `ti`. */
    method ReadTzProperty(leaf: Leaf, ti: nat, np: IcalNode) returns (ok: bool)
      requires np.Terminated() && ti < |f.tzs|
      modifies this`f
      ensures ok == TzProperty(leaf, old(f.tzs[ti]), np.Value()).Some?
      ensures ok ==> f == old(f).(tzs := old(f.tzs)[ti := TzProperty(leaf, old(f.tzs[ti]), np.Value()).value])
    {
      hide DateTimeOf, EqIgnoreCase, CStr;
      var name, val := CStr(np.name), CStr(np.val);
      var c := f.tzs[ti];
      ok := true;
      if EqIgnoreCase(name, Ascii("dtstart")) {
        var v := DateTimeOf(leaf, val, DateTime);
        ok := v != None;
        c := if ok then c.(dtstart := v.value) else c;
      } else if EqIgnoreCase(name, Ascii("tzoffsetfrom")) {
        var v := leaf.utcOffset(val);
        ok := v != None;
        c := if ok then c.(offsetFrom := v.value) else c;
      } else if EqIgnoreCase(name, Ascii("tzoffsetto")) {
        var v := leaf.utcOffset(val);
        ok := v != None;
        c := if ok then c.(offsetTo := v.value) else c;
      } else if EqIgnoreCase(name, Ascii("rrule")) {
        var v := leaf.rrule(c.rrule, val);
        ok := v != None;
        c := if ok then c.(rrule := v.value) else c;
      }
      f := f.(tzs := f.tzs[ti := c]);
    }
  }

  // ------------------------------------------------------------------
  // Component lists.

  /** The components of one type among all, in BEGIN order. */
  ghost function Listed(all: seq<IcalComp>, t: IcalType): (r: seq<IcalComp>)
    ensures forall i :: 0 <= i < |r| ==> r[i] in all && r[i].ctype == t
  {
    if all == [] then [] else
      var n := |all| - 1;
      Listed(all[..n], t) + if all[n].ctype == t then [all[n]] else []
  }

  ghost function CompLink(l: seq<IcalComp>, i: nat): IcalComp? {
    if i < |l| then l[i] else null
  }

  ghost function Last(l: seq<IcalComp>): IcalComp? {
    if l == [] then null else l[|l| - 1]
  }

  ghost predicate CompChain(l: seq<IcalComp>)
    reads l`next
  {
    forall i :: 0 <= i < |l| ==> l[i].next == CompLink(l, i + 1)
  }

  ghost function CompValues(l: seq<IcalComp>): (r: seq<Comp>)
    reads l`f
    ensures |r| == |l| && forall i :: 0 <= i < |l| ==> r[i] == l[i].f
  {
    if l == [] then [] else CompValues(l[..|l| - 1]) + [l[|l| - 1].f]
  }

  /** The type in the value fields is the type of the object. */
  ghost predicate Typed(l: seq<IcalComp>)
    reads l`f
  {
    forall i :: 0 <= i < |l| ==> l[i].f.ctype == l[i].ctype
  }

  ghost predicate Distinct<T>(l: seq<T>) {
    forall i, j :: 0 <= i < j < |l| ==> l[i] != l[j]
  }

  lemma {:induction false} ListedDistinct(all: seq<IcalComp>, t: IcalType)
    requires Distinct(all)
    ensures Distinct(Listed(all, t))
  {
    if all != [] {
      ListedDistinct(all[..|all| - 1], t);
    }
  }

  lemma ListedSnoc(all: seq<IcalComp>, c: IcalComp, t: IcalType)
    ensures Listed(all + [c], t) == Listed(all, t) + if c.ctype == t then [c] else []
  {
    assert (all + [c])[..|all|] == all;
  }

  /** The list of a type is what the machine's indices select. */
  lemma {:induction false} ListedIndices(all: seq<IcalComp>, t: IcalType)
    requires Typed(all)
    ensures var zs := Indices(CompValues(all), t);
            && |Listed(all, t)| == |zs|
            && forall j :: 0 <= j < |zs| ==> zs[j] < |all| && Listed(all, t)[j] == all[zs[j]]
  {
    if all != [] {
      var n := |all| - 1;
      ListedIndices(all[..n], t);
      assert CompValues(all)[..n] == CompValues(all[..n]);
    }
  }

  // ------------------------------------------------------------------
  // The parser.

  class IcalParse {
    const reader: LineReader
    const leaf: Leaf
    var first: IcalNode?              // of the calendar: its nodes,
    var heads: seq<IcalComp?>         // its components by type,
    var bits: set<IcalType>           // and the bits that are on, by number
    var cur: IcalNode?                // of the parse: the last node,
    var tails: seq<IcalComp?>         // and the last component of each type
    ghost var nodes: seq<IcalNode>
    ghost var all: seq<IcalComp>

    constructor (leaf: Leaf, cp: bytes, pos: nat)
      requires pos <= |cp|
      ensures this.leaf == leaf && fresh(reader) && reader.Valid() && reader.cp == cp && reader.pos == pos
      ensures Valid() && nodes == [] && all == []
    {
      hide Valid, LineReader.Valid;
      this.leaf := leaf;
      reader := new LineReader(cp, pos);
      first, cur, bits := null, null, {};
      heads, tails := [null, null, null, null, null, null, null], [null, null, null, null, null, null, null];
      nodes, all := [], [];
      new;
      NothingYet();
    }

    lemma NothingYet()
      requires first == cur == null && nodes == [] && all == [] && bits == {}
      requires |heads| == |tails| == 7 && forall t: IcalType :: heads[t] == tails[t] == null
      ensures Valid()
    {
      assert forall t: IcalType :: Listed(all, t) == [];
    }

    ghost predicate NodesOk()
      reads this`first, this`cur, this`nodes, nodes`next, nodes`val
    {
      && Chain(nodes) && Distinct(nodes)
      && first == Link(nodes, 0)
      && cur == if nodes == [] then null else nodes[|nodes| - 1]
    }

    ghost predicate ListOk(t: IcalType)
      requires |heads| == |tails| == 7
      reads this`heads, this`tails, this`bits, this`all, all`next
    {
      var l := Listed(all, t);
      && CompChain(l)
      && heads[t] == CompLink(l, 0)
      && tails[t] == Last(l)
      && (t in bits <==> l != [])
    }

    /** The lists are acyclic and disjoint, and the tail pointers are their last elements. */
    ghost predicate CompsOk()
      reads this`heads, this`tails, this`bits, this`all, all`next, all`f
    {
      && Distinct(all) && Typed(all)
      && ListsOk()
    }

    ghost predicate ListsOk()
      reads this`heads, this`tails, this`bits, this`all, all`next
    {
      && |heads| == |tails| == 7
      && forall t: IcalType :: ListOk(t)
    }

    ghost predicate Valid()
      reads this`first, this`cur, this`nodes, nodes`next, nodes`val
      reads this`heads, this`tails, this`bits, this`all, all`next, all`f
    {
      NodesOk() && CompsOk()
    }

    /** What the machine sees, given what is open. */
    ghost function Abs(stack: seq<Frame>): State
      reads this`nodes, this`all, nodes`val, all`f
    {
      State(Values(nodes), CompValues(all), stack)
    }

    /** The state after `np` has been linked behind the last node. */
    twostate predicate NodeExtended(new np: IcalNode)
      reads this, nodes, np
    {
      && nodes == old(nodes) + [np] && np !in old(nodes) && np.Terminated() && np.next == null
      && first == (if old(cur) == null then np else old(first)) && cur == np
      && (forall i :: 0 <= i < |old(nodes)| ==>
            nodes[i].next == if nodes[i] == old(cur) then np else old(nodes[i].next))
      && (forall i :: 0 <= i < |old(nodes)| ==> nodes[i].val == old(nodes[i].val))
    }

    twostate lemma NodesExtended(new np: IcalNode)
      requires old(NodesOk()) && NodeExtended(np)
      ensures NodesOk()
    {
      hide IcalNode.Terminated;
      var l := old(nodes);
      assert forall i :: 0 <= i < |l| ==> nodes[i] == l[i];
      forall i | 0 <= i < |nodes|
        ensures nodes[i].Terminated() && nodes[i].next == Link(nodes, i + 1)
      {
        if i < |l| {
          assert nodes[i] == l[i] && old(l[i].Terminated()) && old(l[i].next) == Link(l, i + 1);
        }
      }
    }

    twostate lemma NodeValuesExtended(new np: IcalNode)
      requires NodeExtended(np)
      ensures Values(nodes) == old(Values(nodes)) + [np.Value()]
    {
      hide Values, CStr, IcalNode.Terminated;
      var l := old(nodes);
      assert forall i :: 0 <= i < |l| ==> nodes[i] == l[i] && l[i].Value() == old(l[i].Value());
    }

    /** Link a new node behind the last one. */
    method EnqueueNode(line: Node) returns (np: IcalNode)
      requires NUL !in line.name && NUL !in line.val && (line.param.Some? ==> NUL !in line.param.value)
      requires cur == null || cur in nodes
      modifies this`first, this`cur, this`nodes, nodes`next
      ensures fresh(np) && np.Value() == line && NodeExtended(np)
    {
      hide IcalNode.Value, CStr;
      np := new IcalNode(line.name, line.param, line.val);
      if cur == null {
        first := np;
      } else {
        cur.next := np;
      }
      cur := np;
      nodes := nodes + [np];
    }

    /** Append a node to the list. */
    method AllocNode(line: Node) returns (np: IcalNode)
      requires NodesOk()
      requires NUL !in line.name && NUL !in line.val && (line.param.Some? ==> NUL !in line.param.value)
      modifies this`first, this`cur, this`nodes, nodes`next
      ensures NodesOk() && fresh(np) && np.Terminated() && np.Value() == line
      ensures nodes == old(nodes) + [np]
      ensures Values(nodes) == old(Values(nodes)) + [line]
    {
      hide Values, IcalNode.Value;
      np := EnqueueNode(line);
      NodesExtended(np);
      NodeValuesExtended(np);
    }

    /** The state after `c` has been linked behind the last component of its type. */
    twostate predicate Extended(new c: IcalComp, t: IcalType)
      reads this, all, c
      requires old(|heads| == |tails| == 7)
    {
      var last := old(tails)[t];
      && all == old(all) + [c] && c !in old(all) && c.ctype == t && c.next == null && c.f == NewComp(t)
      && (forall i :: 0 <= i < |old(all)| ==>
            all[i].next == if all[i] == last then c else old(all[i].next))
      && (forall i :: 0 <= i < |old(all)| ==> all[i].f == old(all[i].f))
      && heads == old(heads)[t := if last == null then c else old(heads)[t]]
      && tails == old(tails)[t := c]
      && bits == old(bits) + {t}
    }

    twostate lemma ListExtended(new c: IcalComp, new t: IcalType, new u: IcalType)
      requires old(CompsOk()) && Extended(c, t)
      ensures |heads| == |tails| == 7 && ListOk(u)
    {
      hide Listed, CompChain;
      assert old(ListOk(u)) && old(ListOk(t));
      ListedSnoc(old(all), c, u);
      ChainExtended(c, t, u);
    }

    twostate lemma ChainExtended(new c: IcalComp, new t: IcalType, new u: IcalType)
      requires old(CompsOk()) && Extended(c, t)
      ensures CompChain(Listed(all, u))
    {
      hide Listed;
      var k := old(Listed(all, u));
      assert old(ListOk(u)) && old(ListOk(t));
      ListedSnoc(old(all), c, u);
      ListedDistinct(old(all), u);
      var m := Listed(all, u);
      forall i | 0 <= i < |m|
        ensures m[i].next == CompLink(m, i + 1)
      {
        if i < |k| {
          assert k[i] in old(all) && old(k[i].next) == CompLink(k, i + 1);
        }
      }
    }

    twostate lemma ValuesExtended(new c: IcalComp, t: IcalType)
      requires old(CompsOk()) && Extended(c, t)
      ensures CompValues(all) == old(CompValues(all)) + [NewComp(t)]
    {
      hide CompValues, ListOk;
      assert forall i :: 0 <= i < |old(all)| ==> all[i] == old(all)[i];
    }

    twostate lemma ListsExtended(new c: IcalComp, t: IcalType)
      requires old(CompsOk()) && Extended(c, t)
      ensures ListsOk()
    {
      hide ListOk;
      forall u: IcalType
        ensures |heads| == |tails| == 7 && ListOk(u)
      {
        ListExtended(c, t, u);
      }
    }

    twostate lemma CompsExtended(new c: IcalComp, t: IcalType)
      requires old(CompsOk()) && Extended(c, t)
      ensures CompsOk()
    {
      hide ListOk, ListsOk;
      ListsExtended(c, t);
      assert forall i :: 0 <= i < |old(all)| ==> all[i] == old(all)[i];
    }

    /** Link a new component behind the last one of its type. */
    method Enqueue(t: IcalType) returns (c: IcalComp)
      requires |heads| == |tails| == 7 && (tails[t] != null ==> tails[t] in all)
      modifies this`heads, this`tails, this`bits, this`all, all`next
      ensures fresh(c) && Extended(c, t)
    {
      c := new IcalComp(t);
      if tails[t] == null {
        heads := heads[t := c];
      } else {
        tails[t].next := c;
      }
      tails := tails[t := c];
      bits := bits + {t};
      all := all + [c];
    }

    /** Append a component to its list. */
    method AllocComp(t: IcalType) returns (c: IcalComp)
      requires CompsOk()
      modifies this`heads, this`tails, this`bits, this`all, all`next
      ensures CompsOk() && fresh(c) && c.ctype == t && all == old(all) + [c]
      ensures CompValues(all) == old(CompValues(all)) + [NewComp(t)]
    {
      hide CompValues, CompChain, Listed;
      assert ListOk(t);
      c := Enqueue(t);
      CompsExtended(c, t);
      ValuesExtended(c, t);
    }
  
    // ----------------------------------------------------------------
    // Recursive descent.

    ghost predicate Inv(stack: seq<Frame>)
      reads this, nodes, all, reader
    {
      Valid() && reader.Valid() && Wf(Abs(stack))
    }

    /** What the machine will make of the state and the rest of the input. */
    ghost function Goal(stack: seq<Frame>): Option<(State, seq<Option<Node>>)>
      requires reader.pos <= |reader.cp| && Wf(Abs(stack))
      reads this, nodes, all, reader
    {
      Run(leaf, Abs(stack), Lines(reader.Rest()))
    }

    /** The state is sound and what the machine will make of it is `goal`. */
    ghost predicate Reached(stack: seq<Frame>, goal: Option<(State, seq<Option<Node>>)>)
      reads this, nodes, all, reader
    {
      Inv(stack) && Goal(stack) == goal
    }

    ghost predicate ClosingReached(stack: seq<Frame>, goal: Option<(State, seq<Option<Node>>)>)
      reads this, nodes, all, reader
    {
      Inv(stack) && stack != [] && CloseGoal(stack) == goal
    }

    /** The same once what is open innermost has been closed. */
    ghost function CloseGoal(stack: seq<Frame>): Option<(State, seq<Option<Node>>)>
      requires reader.pos <= |reader.cp| && Wf(Abs(stack)) && stack != []
      reads this, nodes, all, reader
    {
      CloseRun(leaf, Abs(stack), Lines(reader.Rest()))
    }

    /** Lines and components are only added, and everything added is new. */
    twostate predicate Grown()
      reads this, nodes, all
    {
      && old(nodes) <= nodes && old(all) <= all
      && (forall i :: |old(nodes)| <= i < |nodes| ==> fresh(nodes[i]))
      && (forall i :: |old(all)| <= i < |all| ==> fresh(all[i]))
    }

    /** Read a line and record it. */
    method ReadRecord(ghost stack: seq<Frame>) returns (np: IcalNode?, ghost n: Node)
      requires Inv(stack) && reader.pos < |reader.cp|
      modifies this`first, this`cur, this`nodes, nodes`next, reader
      ensures old(reader.pos) < reader.pos <= |reader.cp|
      ensures Lines(old(reader.Rest())) != []
      ensures np == null ==> Lines(old(reader.Rest()))[0] == None && nodes == old(nodes)
      ensures np != null ==>
                && Inv(stack) && fresh(np) && np.Terminated() && np.Value() == n && nodes == old(nodes) + [np]
                && Abs(stack) == Record(old(Abs(stack)), n)
                && Lines(old(reader.Rest())) == [Some(n)] + Lines(reader.Rest())
    {
      hide Values, CompValues, IcalNode.Value, Unfold, SplitLine, LineReader.Valid, NodesOk, CompsOk;
      ghost var s := reader.Rest();
      if SplitLine(Unfold(s).0).Some? {
        LineStrings(Unfold(s).0);
      }
      var line := reader.ReadLine();
      if line == None {
        return null, Node([], None, []);
      }
      n := line.value;
      np := AllocNode(line.value);
    }

    /** Enter a property that has been read: `c` has changed, and perhaps the value of the last node. */
    twostate lemma PropertyEntered(new ci: nat, new np: IcalNode, new stack: seq<Frame>)
      requires old(Valid()) && unchanged(this) && ci < |all| && nodes != [] && np == nodes[|nodes| - 1]
      requires np.Terminated() && all[ci].f.ctype == all[ci].ctype
      requires forall i :: 0 <= i < |all| ==> all[i].next == old(all[i].next) && (i != ci ==> all[i].f == old(all[i].f))
      requires forall i :: 0 <= i < |nodes| ==> nodes[i].next == old(nodes[i].next)
      requires forall i :: 0 <= i < |nodes| - 1 ==> nodes[i].val == old(nodes[i].val)
      ensures Valid()
      ensures Abs(stack) == State(old(Values(nodes))[..|nodes| - 1] + [np.Value()],
                                  old(CompValues(all))[ci := all[ci].f], stack)
    {
      hide Values, CompValues, CStr, Listed, ListOk;
      EnteredNodes(np);
      EnteredValues(np);
      EnteredLists(ci);
    }

    twostate lemma EnteredNodes(new np: IcalNode)
      requires old(NodesOk()) && unchanged(this) && nodes != [] && np == nodes[|nodes| - 1] && np.Terminated()
      requires forall i :: 0 <= i < |nodes| ==> nodes[i].next == old(nodes[i].next)
      requires forall i :: 0 <= i < |nodes| - 1 ==> nodes[i].val == old(nodes[i].val)
      ensures NodesOk()
    {
      hide IcalNode.Terminated;
      forall i | 0 <= i < |nodes|
        ensures nodes[i].Terminated() && nodes[i].next == Link(nodes, i + 1)
      {
        assert old(nodes[i].Terminated()) && old(nodes[i].next) == Link(nodes, i + 1);
      }
    }

    twostate lemma EnteredValues(new np: IcalNode)
      requires unchanged(this) && nodes != [] && np == nodes[|nodes| - 1]
      requires forall i :: 0 <= i < |nodes| - 1 ==> nodes[i].val == old(nodes[i].val)
      ensures Values(nodes) == old(Values(nodes))[..|nodes| - 1] + [np.Value()]
    {
      hide Values, CStr;
      assert forall i :: 0 <= i < |nodes| - 1 ==> nodes[i].Value() == old(nodes[i].Value());
    }

    twostate lemma EnteredLists(new ci: nat)
      requires old(CompsOk()) && unchanged(this) && ci < |all| && all[ci].f.ctype == all[ci].ctype
      requires forall i :: 0 <= i < |all| ==> all[i].next == old(all[i].next) && (i != ci ==> all[i].f == old(all[i].f))
      ensures CompsOk()
    {
      hide Listed;
      forall t: IcalType
        ensures ListOk(t)
      {
        assert old(ListOk(t));
        var l := Listed(all, t);
        forall i | 0 <= i < |l|
          ensures l[i].next == CompLink(l, i + 1)
        {
          assert l[i] in all && old(l[i].next) == CompLink(l, i + 1);
        }
      }
      assert forall i :: 0 <= i < |all| ==> old(all[i].f).ctype == all[i].ctype;
    }

    /** Read a property of `c` and enter what it says. */
    method EnterProperty(c: IcalComp, np: IcalNode, ghost ci: nat, ghost n: Node, ghost stack: seq<Frame>)
      returns (ok: bool)
      requires Valid() && ci < |all| && all[ci] == c
      requires nodes != [] && np == nodes[|nodes| - 1] && np.Value() == n
      modifies c`f, np`val
      ensures ok == Entered(leaf, old(Abs(stack)), ci, n).Some?
      ensures ok ==> Valid() && Abs(stack) == Entered(leaf, old(Abs(stack)), ci, n).value
    {
      hide Values, CompValues, CStr, CompsOk, Property, IsDuration, AfterDuration, IcalNode.Value;
      NodesTerminated();
      CompsTyped(ci);
      ok := c.ReadProperty(leaf, np);
      if ok {
        PropertyEntered(ci, np, stack);
      }
    }

    lemma NodesTerminated()
      requires NodesOk()
      ensures forall i :: 0 <= i < |nodes| ==> nodes[i].Terminated()
      ensures Distinct(nodes)
    {
    }

    lemma CompsTyped(ci: nat)
      requires CompsOk() && ci < |all|
      ensures all[ci].f.ctype == all[ci].ctype && Distinct(all)
    {
    }

    // What calls will preserve, for the components about to be begun.

    ghost function BeginGoal(t: IcalType, stack: seq<Frame>): Option<(State, seq<Option<Node>>)>
      requires reader.pos <= |reader.cp| && Wf(PushComp(Abs(stack), t))
      reads this, nodes, all, reader
    {
      Run(leaf, PushComp(Abs(stack), t), Lines(reader.Rest()))
    }

    ghost function BeginTzGoal(t: nat, stack: seq<Frame>): Option<(State, seq<Option<Node>>)>
      requires reader.pos <= |reader.cp|
      requires PushTz(Abs(stack), t).Some? ==> Wf(PushTz(Abs(stack), t).value)
      reads this, nodes, all, reader
    {
      match PushTz(Abs(stack), t)
      case None => None
      case Some(s) => Run(leaf, s, Lines(reader.Rest()))
    }

    /** What a BEGIN line makes the machine do, once it has been recorded. */
    ghost function BeganGoal(val: bytes, stack: seq<Frame>): Option<(State, seq<Option<Node>>)>
      requires reader.pos <= |reader.cp| && Wf(Abs(stack))
      reads this, nodes, all, reader
    {
      BeginRun(leaf, Abs(stack), val, Lines(reader.Rest()))
    }

    lemma BeganCases(val: bytes, stack: seq<Frame>)
      requires reader.pos <= |reader.cp| && Wf(Abs(stack))
      ensures var t, z := FindName(ICALTYPES, val), FindName(ICALTZTYPES, val);
              if t < |ICALTYPES| then Wf(PushComp(Abs(stack), t)) && BeganGoal(val, stack) == BeginGoal(t, stack)
              else if z < |ICALTZTYPES| then
                && (PushTz(Abs(stack), z).Some? ==> Wf(PushTz(Abs(stack), z).value))
                && BeganGoal(val, stack) == BeginTzGoal(z, stack)
              else BeganGoal(val, stack) == Goal(stack)
    {
      hide Run, Lines, Values, CompValues, FindName, PushComp, PushTz, Wf, Abs;
      var t, z := FindName(ICALTYPES, val), FindName(ICALTZTYPES, val);
      if t < |ICALTYPES| {
        PushKeepsWf(Abs(stack), t);
      } else if z < |ICALTZTYPES| {
        PushTzKeepsWf(Abs(stack), z);
      }
    }

    /** A BEGIN line that has been recorded. */
    method BeginLine(val: bytes, ghost stack: seq<Frame>) returns (r: Outcome)
      requires Inv(stack) && reader.pos <= |reader.cp|
      modifies this, reader, nodes, all
      ensures Grown() && old(reader.pos) <= reader.pos <= |reader.cp|
      ensures r != Ended
      ensures r == More ==> Reached(stack, old(BeganGoal(val, stack)))
      ensures r == Failed ==> old(BeganGoal(val, stack)) == None
      decreases |reader.cp| - reader.pos, 3
    {
      hide Run, Lines, Values, CompValues, FindName, PushComp, PushTz, LineReader.Valid, NodesOk, CompsOk, Wf;
      hide Goal, BeginGoal, BeginTzGoal, BeganGoal, Abs;
      BeganCases(val, stack);
      var ok := true;
      var t, z := FindName(ICALTYPES, val), FindName(ICALTZTYPES, val);
      if t < |ICALTYPES| {
        ok := ParseComp(t, stack);
      } else if z < |ICALTZTYPES| {
        ok := ParseTz(z, stack);
      }
      return if ok then More else Failed;
    }

    /** What any line of an open component makes the machine do, once it has been recorded. */
    ghost function RecordedGoal(n: Node, ci: nat, stack: seq<Frame>): Option<(State, seq<Option<Node>>)>
      requires reader.pos <= |reader.cp| && Wf(Abs(stack)) && nodes != []
      requires stack != [] && stack[|stack| - 1] == InComp(ci)
      reads this, nodes, all, reader
    {
      RecordedRun(leaf, Abs(stack), ci, n, Lines(reader.Rest()))
    }

    lemma RecordedCases(n: Node, ci: nat, stack: seq<Frame>)
      requires reader.pos <= |reader.cp| && Wf(Abs(stack)) && nodes != []
      requires stack != [] && stack[|stack| - 1] == InComp(ci)
      ensures |Abs(stack).nodes| == |nodes| && ci < |Abs(stack).comps| == |all| && Abs(stack).comps[ci] == all[ci].f
      ensures var goal := RecordedGoal(n, ci, stack);
              if Named(n, Ascii("BEGIN")) then goal == BeganGoal(n.val, stack)
              else Named(n, Ascii("END")) ==>
                goal == if EqIgnoreCase(ICALTYPES[all[ci].f.ctype], n.val) then CloseGoal(stack) else Goal(stack)
    {
      hide Run, Lines, BeginRun, CloseRun, EqIgnoreCase, Entered;
    }

    lemma RecordedProperty(n: Node, ci: nat, stack: seq<Frame>)
      requires reader.pos <= |reader.cp| && Wf(Abs(stack)) && nodes != []
      requires stack != [] && stack[|stack| - 1] == InComp(ci)
      requires !Named(n, Ascii("BEGIN")) && !Named(n, Ascii("END"))
      ensures match Entered(leaf, Abs(stack), ci, n)
              case None => RecordedGoal(n, ci, stack) == None
              case Some(s) => Wf(s) && RecordedGoal(n, ci, stack) == Run(leaf, s, Lines(reader.Rest()))
    {
      hide Run, Lines, BeginRun, CloseRun, EqIgnoreCase, Entered;
      if Entered(leaf, Abs(stack), ci, n).Some? {
        EnteredKeepsWf(leaf, Abs(stack), ci, n);
      }
    }

    /** A line of the component `c` that has been recorded. */
    method RecordedLine(c: IcalComp, np: IcalNode, ghost n: Node, ghost ci: nat, ghost stack: seq<Frame>)
      returns (r: Outcome)
      requires Inv(stack) && stack != [] && stack[|stack| - 1] == InComp(ci) && ci < |all| && all[ci] == c
      requires nodes != [] && np == nodes[|nodes| - 1] && np.Value() == n && reader.pos <= |reader.cp|
      modifies this, reader, nodes, all
      ensures Grown() && old(reader.pos) <= reader.pos <= |reader.cp|
      ensures r == More ==> Reached(stack, old(RecordedGoal(n, ci, stack)))
      ensures r == Ended ==> ClosingReached(stack, old(RecordedGoal(n, ci, stack)))
      ensures r == Failed ==> old(RecordedGoal(n, ci, stack)) == None
      decreases |reader.cp| - reader.pos, 4
    {
      hide Run, Lines, Values, CompValues, CStr, EqIgnoreCase, Entered, LineReader.Valid, NodesOk, CompsOk;
      hide BeganGoal, RecordedGoal, CloseGoal;
      CompsTyped(ci);
      RecordedCases(n, ci, stack);
      var name, val := CStr(np.name), CStr(np.val);
      if EqIgnoreCase(name, Ascii("BEGIN")) {
        r := BeginLine(val, stack);
      } else if EqIgnoreCase(name, Ascii("END")) {
        r := if EqIgnoreCase(ICALTYPES[c.ctype], val) then Ended else More;
      } else {
        RecordedProperty(n, ci, stack);
        var ok := EnterProperty(c, np, ci, n, stack);
        r := if ok then More else Failed;
      }
    }

    /** One line of the component `c`. */
    method CompLine(c: IcalComp, ghost ci: nat, ghost stack: seq<Frame>) returns (r: Outcome)
      requires Inv(stack) && stack != [] && stack[|stack| - 1] == InComp(ci) && ci < |all| && all[ci] == c
      requires reader.pos < |reader.cp|
      modifies this, reader, nodes, all
      ensures Grown() && old(reader.pos) < reader.pos <= |reader.cp|
      ensures r == More ==> Reached(stack, old(Goal(stack)))
      ensures r == Ended ==> ClosingReached(stack, old(Goal(stack)))
      ensures r == Failed ==> old(Goal(stack)) == None
      decreases |reader.cp| - reader.pos, 0
    {
      hide Run, Lines, Values, CompValues, CloseRun, LineReader.Valid, NodesOk, CompsOk, RecordedRun, FrameOk;
      hide Reached, ClosingReached;
      ghost var st, ls := Abs(stack), Lines(reader.Rest());
      var np, n := ReadRecord(stack);
      if np == null {
        RunBadLine(leaf, st, ls);
        return Failed;
      }
      CompCases(leaf, st, n, Lines(reader.Rest()));
      r := RecordedLine(c, np, n, ci, stack);
    }

    /** The lines of the component `c`, up to its end or the end of the input. */
    method CompLines(c: IcalComp, ghost ci: nat, ghost open: seq<Frame>) returns (ok: bool)
      requires Inv(open) && open != [] && open[|open| - 1] == InComp(ci) && ci < |all| && all[ci] == c
      modifies this, reader, nodes, all
      ensures Grown() && old(reader.pos) <= reader.pos <= |reader.cp|
      ensures ok ==> ClosingReached(open, old(Goal(open))) && ci < |all| && all[ci] == c
      ensures !ok ==> old(Goal(open)) == None
      decreases |reader.cp| - reader.pos, 1
    {
      hide Run, Lines, Values, CompValues, NodesOk, CompsOk, LineReader.Valid, CloseGoal, Goal, Wf, Abs;
      InRange();
      var r := More;
      while reader.pos < |reader.cp| && r == More
        invariant Grown() && old(reader.pos) <= reader.pos <= |reader.cp|
        invariant Inv(open) && ci < |all| && all[ci] == c
        invariant r == More ==> Goal(open) == old(Goal(open))
        invariant r == Ended ==> CloseGoal(open) == old(Goal(open))
        invariant r != Failed
        decreases |reader.cp| - reader.pos
      {
        r := CompLine(c, ci, open);
        if r == Failed {
          return false;
        }
      }
      if r == More {
        EndOfInput(open);
      }
      return true;
    }

    /** Begin a component. */
    method BeginComp(t: IcalType, ghost stack: seq<Frame>) returns (c: IcalComp)
      requires Inv(stack) && Wf(PushComp(Abs(stack), t))
      modifies this`heads, this`tails, this`bits, this`all, all`next
      ensures reader.pos <= |reader.cp|
      ensures fresh(c) && all == old(all) + [c]
      ensures Reached(stack + [InComp(|old(all)|)], old(BeginGoal(t, stack)))
    {
      hide Run, Lines, Values, CompValues, NodesOk, CompsOk, LineReader.Valid;
      InRange();
      c := AllocComp(t);
    }

    /** Check a component and close it. */
    lemma ClosedComp(ci: nat, stack: seq<Frame>, goal: Option<(State, seq<Option<Node>>)>)
      requires ci < |all| && ClosingReached(stack + [InComp(ci)], goal)
      ensures if CompDone(all[ci].f) then Reached(stack, goal) else goal == None
    {
      hide Run, Lines, Values, CompValues, NodesOk, CompsOk, LineReader.Valid, CompDone, CloseGoal, Goal;
      InRange();
      Closed(stack, InComp(ci));
    }

    /** Begin a component, parse it with everything in it, and check it. */
    method ParseComp(t: IcalType, ghost stack: seq<Frame>) returns (ok: bool)
      requires Inv(stack) && Wf(PushComp(Abs(stack), t))
      modifies this, reader, nodes, all
      ensures Grown() && old(reader.pos) <= reader.pos <= |reader.cp|
      ensures ok ==> Reached(stack, old(BeginGoal(t, stack)))
      ensures !ok ==> old(BeginGoal(t, stack)) == None
      decreases |reader.cp| - reader.pos, 2
    {
      hide BeginGoal, ClosingReached, CompDone, Wf, Valid, LineReader.Valid, CompLink, Goal, Run, Lines, Values, CompValues;
      hide NodesOk, CompsOk, PushComp, NewComp, Abs, CloseRun, CloseGoal;
      InRange();
      ghost var ci := |all|;
      var c := BeginComp(t, stack);
      ok := CompLines(c, ci, stack + [InComp(ci)]);
      if ok {
        ClosedComp(ci, stack, old(BeginGoal(t, stack)));
        ok := CompDone(c.f);
      }
    }

    lemma InRange()
      requires reader.Valid()
      ensures reader.pos <= |reader.cp|
    {
    }

    /** The end of the input closes what is open innermost. */
    lemma EndOfInput(stack: seq<Frame>)
      requires reader.pos == |reader.cp| && Wf(Abs(stack)) && stack != []
      ensures Goal(stack) == CloseGoal(stack)
    {
      hide Values, CompValues;
      RunClosing(leaf, Abs(stack));
    }

    /** Closing is checking and going back to what was open before. */
    lemma Closed(stack: seq<Frame>, f: Frame)
      requires reader.pos <= |reader.cp| && Wf(Abs(stack + [f]))
      requires f.ci < |all| && (f.InTz? ==> f.ti < |all[f.ci].f.tzs|)
      ensures Wf(Abs(stack))
      ensures var ok := match f
                case InComp(ci) => CompDone(all[ci].f)
                case InTz(ci, ti) => TzDone(all[ci].f.tzs[ti]);
              CloseGoal(stack + [f]) == if ok then Goal(stack) else None
    {
      hide Values, CompValues, Lines, Run, CompDone, TzDone;
      var st := Abs(stack + [f]);
      assert Top(st) == f && Pop(st) == Abs(stack);
    }

    /** One line of the rule `ti` of the time zone `c`. */
    method TzLine(c: IcalComp, ti: nat, t: nat, ghost ci: nat, ghost stack: seq<Frame>) returns (r: Outcome)
      requires Inv(stack) && stack != [] && stack[|stack| - 1] == InTz(ci, ti) && ci < |all| && all[ci] == c
      requires ti < |c.f.tzs| && c.f.tzs[ti].ttype == t < |ICALTZTYPES|
      requires reader.pos < |reader.cp|
      modifies this, reader, nodes, all
      ensures Grown() && old(reader.pos) < reader.pos <= |reader.cp|
      ensures r != Failed ==> ti < |c.f.tzs| && c.f.tzs[ti].ttype == t
      ensures r == More ==> Reached(stack, old(Goal(stack)))
      ensures r == Ended ==> ClosingReached(stack, old(Goal(stack)))
      ensures r == Failed ==> old(Goal(stack)) == None
    {
      hide Run, Lines, Values, CompValues, CStr, EqIgnoreCase, TzProperty;
      hide CloseRun, LineReader.Valid, NodesOk, CompsOk;
      ghost var st, ls := Abs(stack), Lines(reader.Rest());
      var np, n := ReadRecord(stack);
      if np == null {
        RunBadLine(leaf, st, ls);
        return Failed;
      }
      TzCases(leaf, st, n, Lines(reader.Rest()));
      var name, val := CStr(np.name), CStr(np.val);
      if EqIgnoreCase(name, Ascii("END")) {
        return if EqIgnoreCase(ICALTZTYPES[t], val) then Ended else More;
      }
      var ok := EnterTzProperty(c, ti, np, ci, n, stack);
      return if ok then More else Failed;
    }

    /** Read a property of a time zone rule and enter what it says. */
    method EnterTzProperty(c: IcalComp, ti: nat, np: IcalNode, ghost ci: nat, ghost n: Node, ghost stack: seq<Frame>)
      returns (ok: bool)
      requires Valid() && ci < |all| && all[ci] == c && ti < |c.f.tzs|
      requires nodes != [] && np == nodes[|nodes| - 1] && np.Value() == n
      modifies c`f
      ensures ok == TzProperty(leaf, old(c.f.tzs[ti]), n).Some?
      ensures ok ==> Valid()
      ensures ok ==>
                var p := TzProperty(leaf, old(c.f.tzs[ti]), n).value;
                && c.f == old(c.f).(tzs := old(c.f.tzs)[ti := p])
                && Abs(stack) == State(old(Values(nodes)), old(CompValues(all))[ci := c.f], stack)
    {
      hide Values, CompValues, CStr, CompsOk, TzProperty, IcalNode.Value;
      NodesTerminated();
      CompsTyped(ci);
      ok := c.ReadTzProperty(leaf, ti, np);
      if ok {
        PropertyEntered(ci, np, stack);
      }
    }

    /** The lines of a time zone rule, up to its end or the end of the input. */
    method TzLines(c: IcalComp, ti: nat, t: nat, ghost ci: nat, ghost open: seq<Frame>) returns (ok: bool)
      requires Inv(open) && open != [] && open[|open| - 1] == InTz(ci, ti) && ci < |all| && all[ci] == c
      requires ti < |c.f.tzs| && c.f.tzs[ti].ttype == t < |ICALTZTYPES|
      modifies this, reader, nodes, all
      ensures Grown() && old(reader.pos) <= reader.pos <= |reader.cp|
      ensures ok ==> ClosingReached(open, old(Goal(open))) && ci < |all| && all[ci] == c && ti < |c.f.tzs|
      ensures !ok ==> old(Goal(open)) == None
    {
      hide Run, Lines, Values, CompValues, NodesOk, CompsOk, LineReader.Valid, CloseGoal, Goal, Wf, Abs;
      InRange();
      var r := More;
      while reader.pos < |reader.cp| && r == More
        invariant Grown() && old(reader.pos) <= reader.pos <= |reader.cp|
        invariant Inv(open) && ci < |all| && all[ci] == c && ti < |c.f.tzs| && c.f.tzs[ti].ttype == t
        invariant r == More ==> Goal(open) == old(Goal(open))
        invariant r == Ended ==> CloseGoal(open) == old(Goal(open))
        invariant r != Failed
        decreases |reader.cp| - reader.pos
      {
        r := TzLine(c, ti, t, ci, open);
        if r == Failed {
          return false;
        }
      }
      if r == More {
        EndOfInput(open);
      }
      return true;
    }

    /** Add a rule to the time zone begun last. */
    method AllocTz(t: nat, ghost stack: seq<Frame>) returns (c: IcalComp?, ghost ci: nat)
      requires Valid()
      modifies all`f
      ensures c == null ==> PushTz(old(Abs(stack)), t) == None
      ensures c != null ==>
                && Valid() && ci < |all| && all[ci] == c && c.f.tzs != [] && c.f.tzs[|c.f.tzs| - 1].ttype == t
                && PushTz(old(Abs(stack)), t) == Some(Abs(stack + [InTz(ci, |c.f.tzs| - 1)]))
    {
      hide Values, CompValues, NodesOk, CompsOk, Indices;
      ci := LastTz();
      c := tails[VTIMEZONE];
      if c != null {
        CompsTyped(ci);
        c.f := c.f.(tzs := c.f.tzs + [NewTz(t)]);
        TzEntered(ci);
      }
    }

    /** Begin a rule. */
    method BeginTz(t: nat, ghost stack: seq<Frame>) returns (c: IcalComp?, ghost ci: nat)
      requires Inv(stack)
      requires PushTz(Abs(stack), t).Some? ==> Wf(PushTz(Abs(stack), t).value)
      modifies all`f
      ensures reader.pos <= |reader.cp|
      ensures c == null ==> old(BeginTzGoal(t, stack)) == None
      ensures c != null ==>
                && ci < |all| && all[ci] == c && c.f.tzs != [] && c.f.tzs[|c.f.tzs| - 1].ttype == t
                && Reached(stack + [InTz(ci, |c.f.tzs| - 1)], old(BeginTzGoal(t, stack)))
    {
      hide Run, Lines, Values, CompValues, NodesOk, CompsOk, LineReader.Valid, PushTz, Wf, Abs;
      InRange();
      c, ci := AllocTz(t, stack);
    }

    /** Check a rule and close it. */
    lemma ClosedTz(ci: nat, ti: nat, stack: seq<Frame>, goal: Option<(State, seq<Option<Node>>)>)
      requires ci < |all| && ti < |all[ci].f.tzs| && ClosingReached(stack + [InTz(ci, ti)], goal)
      ensures if TzDone(all[ci].f.tzs[ti]) then Reached(stack, goal) else goal == None
    {
      hide Run, Lines, Values, CompValues, NodesOk, CompsOk, LineReader.Valid, TzDone, CloseGoal, Goal;
      InRange();
      Closed(stack, InTz(ci, ti));
    }

    /** Begin a rule, parse it, and check it. */
    method ParseTz(t: nat, ghost stack: seq<Frame>) returns (ok: bool)
      requires Inv(stack) && t < |ICALTZTYPES|
      requires PushTz(Abs(stack), t).Some? ==> Wf(PushTz(Abs(stack), t).value)
      modifies this, reader, nodes, all
      ensures Grown() && old(reader.pos) <= reader.pos <= |reader.cp|
      ensures ok ==> Reached(stack, old(BeginTzGoal(t, stack)))
      ensures !ok ==> old(BeginTzGoal(t, stack)) == None
    {
      hide BeginTzGoal, ClosingReached, TzDone, Wf, Valid, LineReader.Valid, Goal, Run, Lines, Values, CompValues;
      hide NodesOk, CompsOk, PushTz, Abs, CloseRun, CloseGoal;
      var c, ci := BeginTz(t, stack);
      if c == null {
        return false;
      }
      var ti := |c.f.tzs| - 1;
      ok := TzLines(c, ti, t, ci, stack + [InTz(ci, ti)]);
      if ok {
        ClosedTz(ci, ti, stack, old(BeginTzGoal(t, stack)));
        ok := TzDone(c.f.tzs[ti]);
      }
    }

    /** The tail of the time zones is the one begun last. */
    lemma LastTz() returns (ci: nat)
      requires Valid()
      ensures |tails| == 7
      ensures var zs := Indices(CompValues(all), VTIMEZONE);
              if tails[VTIMEZONE] == null then zs == []
              else zs != [] && ci == zs[|zs| - 1] < |all| && all[ci] == tails[VTIMEZONE]
    {
      hide Listed, Indices, CompValues, NodesOk, CompChain;
      assert ListOk(VTIMEZONE);
      ListedIndices(all, VTIMEZONE);
      var zs := Indices(CompValues(all), VTIMEZONE);
      ci := if zs == [] then 0 else zs[|zs| - 1];
    }

    twostate lemma TzEntered(new ci: nat)
      requires old(Valid()) && unchanged(this) && ci < |all| && all[ci].f.ctype == old(all[ci].f).ctype
      requires forall i :: 0 <= i < |all| ==> all[i].next == old(all[i].next) && (i != ci ==> all[i].f == old(all[i].f))
      requires forall i :: 0 <= i < |nodes| ==> unchanged(nodes[i])
      ensures Valid() && Values(nodes) == old(Values(nodes))
      ensures CompValues(all) == old(CompValues(all))[ci := all[ci].f]
    {
      hide Values, CompValues, Listed, ListOk, NodesOk;
      EnteredLists(ci);
      assert forall i :: 0 <= i < |nodes| ==> nodes[i].Value() == old(nodes[i].Value());
    }

    // ----------------------------------------------------------------
    // Linking.

    /** The time zone object that a date refers to. */
    ghost function TzObject(tm: ITime): IcalComp?
      requires TzIdsSet(CompValues(all))
      reads this`all, all`f
    {
      var o := TzOf(CompValues(all), tm);
      if o.Some? && o.value < |all| then all[o.value] else null
    }

    /** Both dates of a component are linked to the first time zone with a matching identifier. */
    ghost predicate LinkedComp(c: IcalComp)
      requires TzIdsSet(CompValues(all))
      reads this`all, all`f, c`f, c`dtstartTz, c`dtendTz
    {
      && c.dtstartTz == TzObject(c.f.dtstart) && (c.f.dtstart.tzstr.Some? ==> c.dtstartTz != null)
      && c.dtendTz == TzObject(c.f.dtend) && (c.f.dtend.tzstr.Some? ==> c.dtendTz != null)
    }

    /** Look a time zone up; every one met on the way has an identifier. */
    method FindZone(tm: ITime) returns (ok: bool, tz: IcalComp?)
      requires Valid() && TzIdsSet(CompValues(all))
      ensures tz == TzObject(tm)
      ensures ok <==> tm.tzstr.Some? ==> TzOf(CompValues(all), tm).Some?
      ensures ok && tm.tzstr.Some? ==> tz != null
    {
      hide CompValues, Indices, Listed, NodesOk, EqIgnoreCase;
      if tm.tzstr == None {
        return true, null;
      }
      assert ListOk(VTIMEZONE);
      ListedIndices(all, VTIMEZONE);
      ghost var vs := CompValues(all);
      ghost var l, zs := Listed(all, VTIMEZONE), Indices(vs, VTIMEZONE);
      tz := heads[VTIMEZONE];
      ghost var j := 0;
      assert zs[0..] == zs;
      while tz != null
        invariant j <= |l| == |zs| && tz == CompLink(l, j)
        invariant FindTz(vs, zs[j..], tm.tzstr.value) == FindTz(vs, zs, tm.tzstr.value)
        decreases |l| - j
      {
        assert zs[j..][0] == zs[j] && zs[j..][1..] == zs[j + 1..] && l[j] == all[zs[j]];
        if EqIgnoreCase(tz.f.tzid.value, tm.tzstr.value) {
          return true, tz;
        }
        tz := tz.next;
        j := j + 1;
      }
      assert zs[j..] == [];
      ok := false;
    }

    /** Link the dates of one component. */
    method LinkComp(c: IcalComp) returns (ok: bool)
      requires Valid() && TzIdsSet(CompValues(all)) && c in all
      modifies c`dtstartTz, c`dtendTz
      ensures ok ==> LinkedComp(c)
      ensures !ok ==> !Linkable(CompValues(all))
      ensures forall o :: o in all && o != c && old(LinkedComp(o)) ==> LinkedComp(o)
    {
      hide TzOf, Indices, CompValues, NodesOk, CompsOk, TzObject;
      ghost var i :| 0 <= i < |all| && all[i] == c;
      assert CompValues(all)[i] == c.f;
      ok, c.dtstartTz := FindZone(c.f.dtstart);
      if ok {
        ok, c.dtendTz := FindZone(c.f.dtend);
      }
    }

    lemma {:induction false} ListedAll(cs: seq<IcalComp>, i: nat)
      requires i < |cs|
      ensures cs[i] in Listed(cs, cs[i].ctype)
    {
      var n := |cs| - 1;
      if i < n {
        ListedAll(cs[..n], i);
      }
    }

    ghost predicate LinkedList(t: IcalType)
      requires TzIdsSet(CompValues(all))
      reads this`all, all`f, all`dtstartTz, all`dtendTz
    {
      forall i :: 0 <= i < |Listed(all, t)| ==> LinkedComp(Listed(all, t)[i])
    }

    /** Only components of one type have changed. */
    twostate predicate OthersUnchanged(new t: IcalType)
      requires unchanged(this)
      reads this, all
    {
      forall i :: 0 <= i < |all| && all[i].ctype != t ==> unchanged(all[i])
    }

    /** Link one more component of a list. */
    method LinkNext(c: IcalComp, ghost l: seq<IcalComp>, ghost j: nat) returns (ok: bool)
      requires Valid() && TzIdsSet(CompValues(all)) && Distinct(l) && forall i :: 0 <= i < |l| ==> l[i] in all
      requires j < |l| && l[j] == c && forall k :: 0 <= k < j ==> LinkedComp(l[k])
      modifies c`dtstartTz, c`dtendTz
      ensures ok ==> forall k :: 0 <= k <= j ==> LinkedComp(l[k])
      ensures !ok ==> !Linkable(CompValues(all))
    {
      hide CompValues, Valid, TzOf, Linkable, LinkedComp, TzIdsSet;
      ok := LinkComp(c);
    }

    /** Link the components of one type. */
    method LinkList(t: IcalType) returns (ok: bool)
      requires Valid() && TzIdsSet(CompValues(all))
      modifies all`dtstartTz, all`dtendTz
      ensures ok ==> LinkedList(t)
      ensures !ok ==> !Linkable(CompValues(all))
      ensures OthersUnchanged(t)
    {
      hide CompValues, Listed, Valid, TzOf, Linkable, CompsOk, LinkedComp, TzIdsSet, CompChain;
      ghost var l := ListElements(t);
      var c := heads[t];
      ghost var j := 0;
      while c != null
        invariant j <= |l| && c == CompLink(l, j)
        invariant forall k :: 0 <= k < j ==> LinkedComp(l[k])
        invariant OthersUnchanged(t)
        decreases |l| - j
      {
        ok := LinkNext(c, l, j);
        if !ok {
          return;
        }
        c := c.next;
        j := j + 1;
      }
      ok := true;
    }

    lemma ListElements(t: IcalType) returns (l: seq<IcalComp>)
      requires Valid()
      ensures |heads| == 7 && l == Listed(all, t) && Distinct(l) && heads[t] == CompLink(l, 0)
      ensures forall i :: 0 <= i < |l| ==> l[i] in all && l[i].ctype == t && l[i].next == CompLink(l, i + 1)
    {
      l := Listed(all, t);
      assert ListOk(t);
      ListedDistinct(all, t);
    }

    twostate lemma StaysLinked(new t: IcalType, new u: IcalType)
      requires TzIdsSet(CompValues(all)) && CompValues(all) == old(CompValues(all)) && unchanged(this)
      requires u != t && old(LinkedList(u)) && OthersUnchanged(t)
      ensures LinkedList(u)
    {
      hide Listed, CompValues, TzOf;
      var l := Listed(all, u);
      forall i | 0 <= i < |l|
        ensures LinkedComp(l[i])
      {
        assert old(LinkedComp(l[i])) && l[i] in all;
      }
    }

    /** Link every date to its time zone, wherever in the file the time zone came. */
    method PostParse() returns (ok: bool)
      requires Valid() && TzIdsSet(CompValues(all))
      modifies all`dtstartTz, all`dtendTz
      ensures ok <==> Linkable(CompValues(all))
      ensures ok ==> forall i :: 0 <= i < |all| ==> LinkedComp(all[i])
    {
      hide CompValues, Listed, NodesOk, CompsOk, TzOf, Linkable, LinkedList;
      var t := 0;
      while t < 7
        invariant 0 <= t <= 7
        invariant forall u: IcalType :: u < t ==> LinkedList(u)
      {
        label before:
        ok := LinkList(t);
        if !ok {
          return;
        }
        forall u: IcalType | u < t
          ensures LinkedList(u)
        {
          StaysLinked@before(t, u);
        }
        t := t + 1;
      }
      ok := true;
      AllLinked();
    }

    lemma AllLinked()
      requires TzIdsSet(CompValues(all))
      requires forall u: IcalType :: LinkedList(u)
      ensures forall i :: 0 <= i < |all| ==> LinkedComp(all[i])
      ensures Linkable(CompValues(all))
    {
      hide Listed, CompValues, TzOf;
      forall i | 0 <= i < |all|
        ensures LinkedComp(all[i])
      {
        ListedAll(all, i);
        assert LinkedList(all[i].ctype);
      }
      assert forall i :: 0 <= i < |all| ==> CompValues(all)[i] == all[i].f;
    }

    // ----------------------------------------------------------------
    // The whole parser.

    /** The first line, which must begin a calendar. */
    method ReadHeader() returns (ok: bool, ghost n: Node)
      requires Inv([]) && nodes == [] && all == []
      modifies this, reader, nodes, all
      ensures Grown() && old(reader.pos) <= reader.pos <= |reader.cp|
      ensures !ok ==> ParseLines(leaf, old(Lines(reader.Rest()))) == None
      ensures ok ==>
                && Inv([]) && Abs([]) == State([n], [], []) && IsOpening(n)
                && old(Lines(reader.Rest())) == [Some(n)] + Lines(reader.Rest())
    {
      hide Values, CompValues, Lines, NodesOk, CompsOk, LineReader.Valid, ParseLines, EqIgnoreCase, CStr;
      InRange();
      ghost var ls := Lines(reader.Rest());
      n := Node([], None, []);
      if reader.pos == |reader.cp| {
        EmptyInput(reader.Rest());
        ParseBadLine(leaf, ls);
        return false, n;
      }
      var np;
      np, n := ReadRecord([]);
      if np == null {
        ParseBadLine(leaf, ls);
        return false, n;
      }
      ParseOutcome(leaf, n, Lines(reader.Rest()));
      var name, val := CStr(np.name), CStr(np.val);
      ok := EqIgnoreCase(name, Ascii("BEGIN")) && EqIgnoreCase(val, Ascii("VCALENDAR"));
    }

    /** What the machine makes of `ls` is what the heap holds and what is left to read. */
    ghost predicate Holds(ls: seq<Option<Node>>)
      requires reader.pos <= |reader.cp|
      reads this, nodes, all, reader
    {
      && Valid() && TzIdsSet(CompValues(all))
      && ParseLines(leaf, ls) == Some((Ical(Values(nodes), CompValues(all)), Lines(reader.Rest())))
      && forall i :: 0 <= i < |all| ==> LinkedComp(all[i])
    }

    lemma HoldsParse(ls: seq<Option<Node>>)
      requires reader.pos <= |reader.cp| && Holds(ls)
      ensures ParseLines(leaf, ls) != None
    {
    }

    /** The calendar after its first line. */
    method ParseBody(ghost n: Node) returns (ok: bool)
      requires Inv([]) && Abs([]) == State([n], [], []) && IsOpening(n)
      modifies this, reader, nodes, all
      ensures Grown() && old(reader.pos) <= reader.pos <= |reader.cp|
      ensures ok ==> Holds([Some(n)] + old(Lines(reader.Rest())))
      ensures !ok ==> ParseLines(leaf, [Some(n)] + old(Lines(reader.Rest()))) == None
    {
      hide Values, CompValues, Lines, NodesOk, CompsOk, LineReader.Valid, Run, Linkable, PushComp, ParseLines, IsOpening;
      hide LinkedComp;
      InRange();
      ParseOutcome(leaf, n, Lines(reader.Rest()));
      OpenedPush(n);
      ok := ParseComp(VCALENDAR, []);
      if !ok {
        return;
      }
      RunDone(leaf, Abs([]), Lines(reader.Rest()));
      ok := PostParse();
    }
  }

  /** Parse a buffer from `pos` on. */
  method ParseIcal(leaf: Leaf, cp: bytes, pos: nat) returns (p: IcalParse?)
    requires pos <= |cp|
    ensures p == null <==> Parse(leaf, cp[pos..]) == None
    ensures p != null ==>
              p.leaf == leaf && p.reader.cp == cp && pos <= p.reader.pos <= |cp| && p.Holds(Lines(cp[pos..]))
  {
    hide Values, CompValues, Lines, ParseLines, LineReader.Valid, IcalParse.Holds;
    p := new IcalParse(leaf, cp, pos);
    assert p.Abs([]) == State([], [], []);
    var ok, n := p.ReadHeader();
    if !ok {
      return null;
    }
    ok := p.ParseBody(n);
    if !ok {
      return null;
    }
    p.HoldsParse(Lines(cp[pos..]));
  }

  lemma EmptyInput(s: bytes)
    ensures s == [] ==> Lines(s) == []
  {
  }

  lemma OpenedPush(n: Node)
    ensures PushComp(State([n], [], []), VCALENDAR) == Opened(n)
  {
  }

  lemma RunDone(leaf: Leaf, st: State, ls: seq<Option<Node>>)
    requires Wf(st) && st.stack == []
    ensures Run(leaf, st, ls) == Some((st, ls))
  {
  }

  /** What a line did to the component that it belongs to. */
  datatype Outcome = More | Ended | Failed

  lemma LineStrings(text: bytes)
    requires SplitLine(text).Some?
    ensures var n := SplitLine(text).value;
            NUL !in n.name && NUL !in n.val && (n.param.Some? ==> NUL !in n.param.value)
  {
    var t := CStr(text);
    var v := Span(t, COLON);
    assert forall c :: c in t[v + 1..] ==> c in t;
    var p := Span(t[..v], SEMI);
    assert forall c :: c in t[..p] ==> c in t;
    assert p < v ==> forall c :: c in t[p + 1..v] ==> c in t;
  }
}
