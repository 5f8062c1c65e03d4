/**
 * Resources with their etags and collections with their ctags, under any interleaving of server
 * processes.  A statement outside a transaction is a step; so is a whole transaction, which the
 * module EtagTransactions takes apart into its statements.
 */
module Etags {
  import opened Octets

  type Etag = bytes
  datatype Resource = Resource(etag: Etag, data: bytes)
  datatype Collection = Collection(ctag: int, props: bytes, res: map<bytes, Resource>)

  /** What an etag was written for. */
  datatype Version = Version(coln: nat, url: bytes, data: bytes)

  /** An effective conditional update or deletion: the etag presented, and what it replaced. */
  datatype Event = Event(coln: nat, url: bytes, etag: Etag, replaced: bytes)

  /**
   * The collections by identifiers that are never given twice, and the collections that some
   * process has written to and whose ctag it still has to change.  The rest is history: what was
   * written under each etag, the effective conditional requests, and the number of statements that
   * wrote to a collection.
   */
  datatype State = State(colns: map<nat, Collection>, next: nat, pending: multiset<nat>,
                         written: map<Etag, Version>, hist: seq<Event>, writes: map<nat, nat>)

  const INITIAL := State(map[], 0, multiset{}, map[], [], map[])

  function Writes(writes: map<nat, nat>, c: nat): nat {
    if c in writes then writes[c] else 0
  }

  /** A write to a collection, counted; `bumped` if the ctag changes in the same step. */
  function Write(s: State, c: nat, k: Collection, bumped: bool): State {
    s.(colns := s.colns[c := k.(ctag := if bumped then k.ctag + 1 else k.ctag)],
       pending := if bumped then s.pending else s.pending + multiset{c},
       writes := s.writes[c := Writes(s.writes, c) + 1])
  }

  // ------------------------------------------------------------------
  // Steps.  New etags are random; they are taken to be different from all before.

  datatype Action =
    | NewCollection(props: bytes)
    | RemoveCollection(c: nat)
    | SetProps(c: nat, props: bytes)                                // two statements: this one,
    | Create(c: nat, url: bytes, data: bytes, etag: Etag)           // or this one,
    | Remove(c: nat, url: bytes)                                    // or this one,
    | Bump(c: nat)                                                  // and this one
    | Update(c: nat, url: bytes, digest: Etag, data: bytes, etag: Etag)
    | Delete(c: nat, url: bytes, digest: Etag)

  /** The resource that a conditional request is about. */
  function Matching(s: State, c: nat, url: bytes, digest: Etag): Option<Resource> {
    if c in s.colns && url in s.colns[c].res && s.colns[c].res[url].etag == digest
    then Some(s.colns[c].res[url]) else None
  }

  function Step(s: State, a: Action): Option<State> {
    match a
    case NewCollection(props) =>
      Some(s.(colns := s.colns[s.next := Collection(1, props, map[])], next := s.next + 1))
    case RemoveCollection(c) => Some(s.(colns := s.colns - {c}))
    case SetProps(c, props) =>
      if c >= s.next then None
      else if c !in s.colns then Some(s.(pending := s.pending + multiset{c}))
      else Some(Write(s, c, s.colns[c].(props := props), false))
    case Create(c, url, data, etag) =>
      if etag in s.written then None
      else if c !in s.colns || url in s.colns[c].res then Some(s)
      else Some(Write(s, c, s.colns[c].(res := s.colns[c].res[url := Resource(etag, data)]), false).(
                  written := s.written[etag := Version(c, url, data)]))
    case Remove(c, url) =>
      if c >= s.next then None
      else if c !in s.colns then Some(s.(pending := s.pending + multiset{c}))
      else Some(Write(s, c, s.colns[c].(res := s.colns[c].res - {url}), false))
    case Bump(c) =>
      if c !in s.pending then None
      else if c !in s.colns then Some(s.(pending := s.pending - multiset{c}))
      else Some(s.(colns := s.colns[c := s.colns[c].(ctag := s.colns[c].ctag + 1)],
                   pending := s.pending - multiset{c}))
    case Update(c, url, digest, data, etag) =>
      if etag in s.written then None
      else
        (match Matching(s, c, url, digest)
         case None => Some(s)
         case Some(r) =>
           Some(Write(s, c, s.colns[c].(res := s.colns[c].res[url := Resource(etag, data)]), true).(
                  written := s.written[etag := Version(c, url, data)],
                  hist := s.hist + [Event(c, url, digest, r.data)])))
    case Delete(c, url, digest) =>
      (match Matching(s, c, url, digest)
       case None => Some(s)
       case Some(r) =>
         Some(Write(s, c, s.colns[c].(res := s.colns[c].res - {url}), true).(
                hist := s.hist + [Event(c, url, digest, r.data)])))
  }

  /** The state after a run; an impossible step is none. */
  function Run(actions: seq<Action>): State {
    if actions == [] then INITIAL else
      var s := Run(actions[..|actions| - 1]);
      var t := Step(s, actions[|actions| - 1]);
      if t.Some? then t.value else s
  }

  // ------------------------------------------------------------------
  // What every run keeps.

  ghost predicate Holds(s: State, c: nat, url: bytes, etag: Etag) {
    c in s.colns && url in s.colns[c].res && s.colns[c].res[url].etag == etag
  }

  /** Each resource holds what was written under its etag, and no etag is used up before. */
  ghost predicate EtagsOk(s: State) {
    && (forall c, url :: c in s.colns && url in s.colns[c].res ==>
          var r := s.colns[c].res[url];
          r.etag in s.written && s.written[r.etag] == Version(c, url, r.data))
    && (forall i :: 0 <= i < |s.hist| ==>
          var e := s.hist[i];
          && e.etag in s.written && s.written[e.etag] == Version(e.coln, e.url, e.replaced)
          && !Holds(s, e.coln, e.url, e.etag))
    && (forall i, j :: 0 <= i < j < |s.hist| ==> s.hist[i].etag != s.hist[j].etag)
  }

  /** Every write to a collection changes its ctag, now or later. */
  ghost predicate CtagsOk(s: State) {
    && (forall c :: c in s.colns ==> c < s.next && s.colns[c].ctag + s.pending[c] == 1 + Writes(s.writes, c))
    && (forall c :: c in s.pending || c in s.writes ==> c < s.next)
  }

  lemma CreateKeepsEtags(s: State, a: Action)
    requires EtagsOk(s) && Step(s, a).Some? && a.Create?
    ensures EtagsOk(Step(s, a).value)
  {
  }

  lemma UpdateKeepsEtags(s: State, a: Action)
    requires EtagsOk(s) && Step(s, a).Some? && a.Update?
    ensures EtagsOk(Step(s, a).value)
  {
  }

  lemma DeleteKeepsEtags(s: State, a: Action)
    requires EtagsOk(s) && Step(s, a).Some? && a.Delete?
    ensures EtagsOk(Step(s, a).value)
  {
  }

  lemma RemoveKeepsEtags(s: State, a: Action)
    requires EtagsOk(s) && Step(s, a).Some? && a.Remove?
    ensures EtagsOk(Step(s, a).value)
  {
  }

  lemma DropKeepsEtags(s: State, a: Action)
    requires EtagsOk(s) && Step(s, a).Some? && a.RemoveCollection?
    ensures EtagsOk(Step(s, a).value)
  {
  }

  lemma OtherKeepsEtags(s: State, a: Action)
    requires EtagsOk(s) && Step(s, a).Some? && (a.SetProps? || a.Bump?)
    ensures EtagsOk(Step(s, a).value)
  {
  }

  lemma NewKeepsEtags(s: State, a: Action)
    requires EtagsOk(s) && Step(s, a).Some? && a.NewCollection?
    ensures EtagsOk(Step(s, a).value)
  {
  }

  /** A step either writes to one collection or is one of the others. */
  lemma StepWrites(s: State, a: Action) returns (w: bool, c: nat, k: Collection, t: State)
    requires Step(s, a).Some?
    ensures w ==> c in s.colns && k.ctag == s.colns[c].ctag && SameButHistory(t, Step(s, a).value)
    ensures w ==> t == Write(s, c, k, a.Update? || a.Delete?)
    ensures !w ==> a.NewCollection? || a.RemoveCollection? || a.Bump? || Step(s, a).value == s
                   || ((a.SetProps? || a.Remove?) && a.c < s.next && a.c !in s.colns
                       && Step(s, a).value == s.(pending := s.pending + multiset{a.c}))
  {
    hide Write;
    c, k, t := 0, Collection(0, [], map[]), s;
    w := !a.NewCollection? && !a.RemoveCollection? && !a.Bump? && a.c in s.colns && Step(s, a).value != s;
    if w {
      c, k := a.c, s.colns[a.c];
      match a {
        case SetProps(_, props) => k := k.(props := props);
        case Create(_, url, data, etag) => k := k.(res := k.res[url := Resource(etag, data)]);
        case Update(_, url, _, data, etag) => k := k.(res := k.res[url := Resource(etag, data)]);
        case Remove(_, url) => k := k.(res := k.res - {url});
        case Delete(_, url, _) => k := k.(res := k.res - {url});
        case _ =>
      }
      t := Write(s, c, k, a.Update? || a.Delete?);
    }
  }

  /** The states agree on all but the history of etags. */
  predicate SameButHistory(s: State, t: State) {
    s.colns == t.colns && s.next == t.next && s.pending == t.pending && s.writes == t.writes
  }

  lemma WriteKeepsCtags(s: State, c: nat, k: Collection, bumped: bool)
    requires CtagsOk(s) && c in s.colns && k.ctag == s.colns[c].ctag
    ensures CtagsOk(Write(s, c, k, bumped))
  {
  }

  lemma OtherKeepsCtags(s: State, a: Action)
    requires CtagsOk(s) && Step(s, a).Some? && (a.NewCollection? || a.RemoveCollection? || a.Bump?)
    ensures CtagsOk(Step(s, a).value)
  {
  }

  lemma StepKeepsCtags(s: State, a: Action)
    requires CtagsOk(s) && Step(s, a).Some?
    ensures CtagsOk(Step(s, a).value)
  {
    hide Write, Writes, Step;
    var w, c, k, t := StepWrites(s, a);
    if w {
      WriteKeepsCtags(s, c, k, a.Update? || a.Delete?);
    } else if a.NewCollection? || a.RemoveCollection? || a.Bump? {
      OtherKeepsCtags(s, a);
    }
  }

  lemma {:induction false} RunKeeps(actions: seq<Action>)
    ensures EtagsOk(Run(actions)) && CtagsOk(Run(actions))
  {
    hide EtagsOk, CtagsOk, Step;
    if actions == [] {
      InitialOk();
    } else {
      var n := |actions| - 1;
      RunKeeps(actions[..n]);
      var s, a := Run(actions[..n]), actions[n];
      if Step(s, a).Some? {
        StepKeepsCtags(s, a);
        if a.Create? {
          CreateKeepsEtags(s, a);
        } else if a.Update? {
          UpdateKeepsEtags(s, a);
        } else if a.Delete? {
          DeleteKeepsEtags(s, a);
        } else if a.Remove? {
          RemoveKeepsEtags(s, a);
        } else if a.RemoveCollection? {
          DropKeepsEtags(s, a);
        } else if a.NewCollection? {
          NewKeepsEtags(s, a);
        } else {
          OtherKeepsEtags(s, a);
        }
      }
    }
  }

  lemma InitialOk()
    ensures EtagsOk(INITIAL) && CtagsOk(INITIAL)
  {
  }

  // ------------------------------------------------------------------
  // No lost update.

  /**
   * In every run: an etag is used up by at most one effective conditional request, what that
   * request replaced is what was written under the etag it presented, in the same place, and the
   * etag never comes back.
   */
  lemma NoLostUpdate(actions: seq<Action>)
    ensures var s := Run(actions);
            && (forall i, j :: 0 <= i < j < |s.hist| ==> s.hist[i].etag != s.hist[j].etag)
            && (forall i :: 0 <= i < |s.hist| ==>
                  var e := s.hist[i];
                  && e.etag in s.written && s.written[e.etag] == Version(e.coln, e.url, e.replaced)
                  && forall c, url :: !Holds(s, c, url, e.etag))
  {
    hide Run;
    RunKeeps(actions);
  }

  /** A conditional update takes effect exactly if the resource is as it was written under the etag. */
  lemma UpdateMeans(actions: seq<Action>, c: nat, url: bytes, digest: Etag, data: bytes, etag: Etag)
    requires etag !in Run(actions).written
    ensures var s := Run(actions);
            var t := Step(s, Update(c, url, digest, data, etag)).value;
            && (|t.hist| > |s.hist| <==> Holds(s, c, url, digest))
            && (Holds(s, c, url, digest) ==>
                  && digest in s.written && s.written[digest] == Version(c, url, s.colns[c].res[url].data)
                  && t.colns[c].res == s.colns[c].res[url := Resource(etag, data)])
            && (!Holds(s, c, url, digest) ==> t == s)
  {
    hide Run;
    RunKeeps(actions);
  }

  /** What is there stays there, with its etag, unless a request is made to take it away. */
  predicate MayTake(a: Action, c: nat, url: bytes, etag: Etag) {
    match a
    case Update(c', url', digest, _, _) => c' == c && url' == url && digest == etag
    case Delete(c', url', digest) => c' == c && url' == url && digest == etag
    case Remove(c', url') => c' == c && url' == url
    case RemoveCollection(c') => c' == c
    case _ => false
  }

  /**
   * In every run, a step ends a resource as it is only if it is a conditional request for it that
   * presents its etag, its unconditional removal, or the removal of its collection.
   */
  lemma KeptUnlessTaken(actions: seq<Action>, a: Action, c: nat, url: bytes, etag: Etag)
    requires Step(Run(actions), a).Some? && Holds(Run(actions), c, url, etag)
    ensures var s, t := Run(actions), Step(Run(actions), a).value;
            MayTake(a, c, url, etag) || (Holds(t, c, url, etag) && t.colns[c].res[url] == s.colns[c].res[url])
  {
    hide Run, Step, EtagsOk;
    RunKeeps(actions);
    var s, t := Run(actions), Step(Run(actions), a).value;
    StepMeans(s, a, c);
    assert url in Res(s, c) && Res(s, c)[url].etag == etag;
    assert c < s.next;
    if !MayTake(a, c, url, etag) {
      assert url in Res(t, c) && Res(t, c)[url] == Res(s, c)[url];
    }
  }

  /** A step is possible unless it reuses an etag, names a collection never made, or owes no second statement. */
  lemma StepPossible(s: State, a: Action)
    ensures Step(s, a).Some? <==>
              match a
              case Create(_, _, _, etag) => etag !in s.written
              case Update(_, _, _, _, etag) => etag !in s.written
              case SetProps(c, _) => c < s.next
              case Remove(c, _) => c < s.next
              case Bump(c) => c in s.pending
              case _ => true
  {
    hide Write;
  }

  /** The resources of a collection, none if it is not there. */
  function Res(s: State, c: nat): map<bytes, Resource> {
    if c in s.colns then s.colns[c].res else map[]
  }

  lemma WriteMeans(s: State, d: nat, k: Collection, bumped: bool, c: nat)
    requires d in s.colns
    ensures var t := Write(s, d, k, bumped);
            && Res(t, c) == (if c == d then k.res else Res(s, c))
            && (c in t.colns <==> c in s.colns) && t.next == s.next
            && (c in t.colns ==>
                  && t.colns[c].props == (if c == d then k.props else s.colns[c].props)
                  && t.colns[c].ctag == if c != d then s.colns[c].ctag else k.ctag + if bumped then 1 else 0)
  {
  }

  lemma ConditionalMeans(s: State, a: Action, c: nat)
    requires Step(s, a).Some? && (a.Update? || a.Delete?)
    ensures var r, r' := Res(s, c), Res(Step(s, a).value, c);
            r' == if a.c == c && a.url in r && r[a.url].etag == a.digest
                  then if a.Update? then r[a.url := Resource(a.etag, a.data)] else r - {a.url}
                  else r
  {
    hide Write;
    if a.c in s.colns {
      var k := s.colns[a.c];
      if a.Update? {
        WriteMeans(s, a.c, k.(res := k.res[a.url := Resource(a.etag, a.data)]), true, c);
      } else {
        WriteMeans(s, a.c, k.(res := k.res - {a.url}), true, c);
      }
    }
  }

  lemma PlainMeans(s: State, a: Action, c: nat)
    requires Step(s, a).Some? && (a.Create? || a.Remove? || a.SetProps?)
    ensures var r, r' := Res(s, c), Res(Step(s, a).value, c);
            r' == if a.Create? && a.c == c && c in s.colns && a.url !in r then r[a.url := Resource(a.etag, a.data)]
                  else if a.Remove? && a.c == c then r - {a.url} else r
  {
    hide Write;
    var none: map<bytes, Resource> := map[];
    if a.Remove? {
      assert none - {a.url} == none;
    }
    if a.c in s.colns {
      var k := s.colns[a.c];
      if a.Create? {
        WriteMeans(s, a.c, k.(res := k.res[a.url := Resource(a.etag, a.data)]), false, c);
      } else if a.Remove? {
        WriteMeans(s, a.c, k.(res := k.res - {a.url}), false, c);
      } else {
        WriteMeans(s, a.c, k.(props := a.props), false, c);
      }
    }
  }

  lemma WholeMeans(s: State, a: Action, c: nat)
    requires Step(s, a).Some? && (a.NewCollection? || a.RemoveCollection? || a.Bump?)
    ensures Res(Step(s, a).value, c) == if a == RemoveCollection(c) || (a.NewCollection? && c == s.next) then map[]
                                        else Res(s, c)
  {
  }

  /**
   * What each request does to the resources of each collection: a creation adds one where there is
   * none, a removal takes one away, a conditional request acts if the etag is the current one, and
   * nothing else changes.
   */
  lemma StepMeans(s: State, a: Action, c: nat)
    requires Step(s, a).Some?
    ensures var r, r' := Res(s, c), Res(Step(s, a).value, c);
            match a
            case Create(c', url, data, etag) =>
              r' == if c' == c && c in s.colns && url !in r then r[url := Resource(etag, data)] else r
            case Update(c', url, digest, data, etag) =>
              r' == if c' == c && url in r && r[url].etag == digest then r[url := Resource(etag, data)] else r
            case Delete(c', url, digest) =>
              r' == if c' == c && url in r && r[url].etag == digest then r - {url} else r
            case Remove(c', url) => r' == if c' == c then r - {url} else r
            case RemoveCollection(c') => r' == if c' == c then map[] else r
            case NewCollection(_) => r' == if c == s.next then map[] else r
            case SetProps(_, _) => r' == r
            case Bump(_) => r' == r
  {
    hide Step, Res;
    if a.Update? || a.Delete? {
      ConditionalMeans(s, a, c);
    } else if a.Create? || a.Remove? || a.SetProps? {
      PlainMeans(s, a, c);
    } else {
      WholeMeans(s, a, c);
    }
  }

  /** What each request does to the collections and their properties. */
  lemma StepCollections(s: State, a: Action, c: nat)
    requires Step(s, a).Some?
    ensures var t := Step(s, a).value;
            && (c in t.colns <==> (c in s.colns && a != RemoveCollection(c)) || (a.NewCollection? && c == s.next))
            && (c in t.colns ==>
                  t.colns[c].props == if a.NewCollection? && c == s.next then a.props
                                      else if a.SetProps? && a.c == c then a.props else s.colns[c].props)
            && (c in t.colns && c in s.colns && !(a.NewCollection? && c == s.next) ==>
                  t.colns[c].ctag == s.colns[c].ctag + if Touches(s, a, c) then 1 else 0)
            && (a.NewCollection? ==> s.next in t.colns && t.colns[s.next].ctag == 1 && t.next == s.next + 1)
            && (!a.NewCollection? ==> t.next == s.next)
  {
    hide Write;
    if (a.Create? || a.Remove? || a.SetProps? || a.Update? || a.Delete?) && a.c in s.colns {
      var k := s.colns[a.c];
      match a {
        case Create(d, url, data, etag) =>
          WriteMeans(s, d, k.(res := k.res[url := Resource(etag, data)]), false, c);
        case Update(d, url, _, data, etag) =>
          WriteMeans(s, d, k.(res := k.res[url := Resource(etag, data)]), true, c);
        case Delete(d, url, _) => WriteMeans(s, d, k.(res := k.res - {url}), true, c);
        case Remove(d, url) => WriteMeans(s, d, k.(res := k.res - {url}), false, c);
        case SetProps(d, props) => WriteMeans(s, d, k.(props := props), false, c);
        case _ =>
      }
    }
  }

  /** The ctag changes with a conditional request that acts, and with the second statement of any other. */
  predicate Touches(s: State, a: Action, c: nat) {
    match a
    case Update(c', url, digest, _, _) => c' == c && c in s.colns && url in s.colns[c].res &&
      s.colns[c].res[url].etag == digest
    case Delete(c', url, digest) => c' == c && c in s.colns && url in s.colns[c].res && s.colns[c].res[url].etag == digest
    case Bump(c') => c' == c
    case _ => false
  }

  /** A process has its second statement to make exactly after a first one. */
  lemma StepOwes(s: State, a: Action, c: nat)
    requires Step(s, a).Some?
    ensures var t := Step(s, a).value;
            var owes := || (a.SetProps? && a.c == c) || (a.Remove? && a.c == c)
                        || (a.Create? && a.c == c && c in s.colns && a.url !in s.colns[c].res);
            && t.pending[c] == s.pending[c] + (if owes then 1 else 0) - (if a == Bump(c) then 1 else 0)
            && (a == Bump(c) ==> c in s.pending)
  {
  }

  // ------------------------------------------------------------------
  // Ctags.

  /** No process is between its two statements for a collection. */
  predicate Quiet(s: State, c: nat) {
    c in s.colns && c !in s.pending
  }

  /** A later state of a collection: as it was, if nobody wrote; and the ctag never goes back. */
  ghost predicate Later(s: State, t: State, c: nat) {
    && s.next <= t.next && Writes(s.writes, c) <= Writes(t.writes, c)
    && (c < s.next && c in t.colns ==> c in s.colns && s.colns[c].ctag <= t.colns[c].ctag)
    && (c < s.next && c in t.colns && Writes(s.writes, c) == Writes(t.writes, c) ==>
          s.colns[c].res == t.colns[c].res && s.colns[c].props == t.colns[c].props)
  }

  lemma WriteLater(s: State, d: nat, k: Collection, bumped: bool, c: nat)
    requires d in s.colns && k.ctag == s.colns[d].ctag
    ensures Later(s, Write(s, d, k, bumped), c)
  {
  }

  lemma OtherLater(s: State, a: Action, c: nat)
    requires Step(s, a).Some? && (a.NewCollection? || a.RemoveCollection? || a.Bump?)
    ensures Later(s, Step(s, a).value, c)
  {
  }

  lemma StepLater(s: State, a: Action, c: nat)
    requires Step(s, a).Some?
    ensures Later(s, Step(s, a).value, c)
  {
    hide Write, Writes, Step;
    var w, d, k, t := StepWrites(s, a);
    if w {
      WriteLater(s, d, k, a.Update? || a.Delete?, c);
    } else if a.NewCollection? || a.RemoveCollection? || a.Bump? {
      OtherLater(s, a, c);
    }
  }

  lemma LaterTrans(s: State, t: State, u: State, c: nat)
    requires Later(s, t, c) && Later(t, u, c)
    ensures Later(s, u, c)
  {
  }

  lemma {:induction false} RunLater(actions: seq<Action>, i: nat, c: nat)
    requires i <= |actions|
    ensures Later(Run(actions[..i]), Run(actions), c)
  {
    hide Later, Step;
    var n := |actions| - 1;
    if i == |actions| {
      assert actions[..i] == actions;
      LaterSame(Run(actions), c);
    } else {
      RunLater(actions[..n], i, c);
      assert actions[..n][..i] == actions[..i];
      var s := Run(actions[..n]);
      if Step(s, actions[n]).Some? {
        StepLater(s, actions[n], c);
        LaterTrans(Run(actions[..i]), s, Run(actions), c);
      }
    }
  }

  lemma LaterSame(s: State, c: nat)
    ensures Later(s, s, c)
  {
  }

  /** The ctag of a collection never decreases. */
  lemma CtagMonotone(actions: seq<Action>, i: nat, c: nat)
    requires i <= |actions| && c in Run(actions[..i]).colns && c in Run(actions).colns
    ensures Run(actions[..i]).colns[c].ctag <= Run(actions).colns[c].ctag
  {
    hide Run;
    RunKeeps(actions[..i]);
    RunLater(actions, i, c);
  }

  /** The ctag with the changes still to come. */
  function FinalCtag(s: State, c: nat): int
    requires c in s.colns
  {
    s.colns[c].ctag + s.pending[c]
  }

  /**
   * In any two states of a run, quiet or not: the ctag with the changes still to come is the same if
   * and only if no statement has written to the collection in between, and then the resources, etags
   * included, and the properties are the same.
   */
  lemma CtagExact(actions: seq<Action>, i: nat, c: nat)
    requires i <= |actions| && c in Run(actions[..i]).colns && c in Run(actions).colns
    ensures var s, t := Run(actions[..i]), Run(actions);
            && (FinalCtag(s, c) == FinalCtag(t, c) <==> Writes(s.writes, c) == Writes(t.writes, c))
            && (FinalCtag(s, c) == FinalCtag(t, c) ==>
                  s.colns[c].res == t.colns[c].res && s.colns[c].props == t.colns[c].props)
  {
    hide Run;
    RunKeeps(actions[..i]);
    RunKeeps(actions);
    RunLater(actions, i, c);
  }

  /**
   * So in two states in which no process is between its statements for a collection, equal ctags
   * mean equal resources and properties.
   */
  lemma CtagSound(actions: seq<Action>, i: nat, c: nat)
    requires i <= |actions| && Quiet(Run(actions[..i]), c) && Quiet(Run(actions), c)
    ensures var s, t := Run(actions[..i]), Run(actions);
            s.colns[c].ctag == t.colns[c].ctag ==>
              s.colns[c].res == t.colns[c].res && s.colns[c].props == t.colns[c].props
  {
    hide Run;
    CtagExact(actions, i, c);
  }

  /** Between the statements of a creation, the ctag is still that of the collection without it. */
  lemma CtagLate(etag: Etag, data: bytes)
    ensures var run := [NewCollection([]), Create(0, [], data, etag)];
            var s, t := Run(run[..1]), Run(run);
            && Quiet(s, 0) && 0 in t.colns && !Quiet(t, 0)
            && s.colns[0].ctag == t.colns[0].ctag && s.colns[0].res != t.colns[0].res
  {
    var run := [NewCollection([]), Create(0, [], data, etag)];
    assert run[..1][..0] == [] && run[..2] == run && run[..1][0] == NewCollection([]);
    var s := Run(run[..1]);
    assert Run([]) == INITIAL && |run[..1]| == 1 && |run| == 2;
    assert s == Step(INITIAL, NewCollection([])).value;
    assert Run(run) == Step(s, run[1]).value;
    assert [] in Run(run).colns[0].res && [] !in s.colns[0].res;
  }
}
