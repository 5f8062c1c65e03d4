/**
 * The conditional requests statement by statement: a transaction takes the write lock and works on
 * a copy.  Every run of these steps leaves what a run of Etags leaves, in which each committed
 * transaction is one step.
 */
module EtagTransactions {
  import opened Octets
  import opened Etags

  /** How far a transaction is. */
  datatype Phase = Open | Matched | Written | Bumped

  /** `tx` is an Update or a Delete; `work` is its copy of the tables. */
  datatype Lock = Lock(tx: Action, phase: Phase, work: State)

  datatype Tables = Tables(st: State, lock: Option<Lock>)

  datatype Statement =
    | Lone(a: Action)
    | Begin(tx: Action)
    | Next
    | Commit
    | Rollback

  predicate IsTransaction(a: Action) {
    a.Update? || a.Delete?
  }

  /** The lookup of the resource with the etag that the client presents. */
  function Lookup(s: State, tx: Action): Option<Resource>
    requires IsTransaction(tx)
  {
    Matching(s, tx.c, tx.url, tx.digest)
  }

  /** The resource is written or deleted; the ctag comes with the next statement. */
  function WriteResource(s: State, tx: Action): State
    requires IsTransaction(tx) && Lookup(s, tx).Some?
  {
    var k := s.colns[tx.c];
    var event := Event(tx.c, tx.url, tx.digest, k.res[tx.url].data);
    var t := s.(writes := s.writes[tx.c := Writes(s.writes, tx.c) + 1], hist := s.hist + [event]);
    if tx.Update? then
      t.(colns := s.colns[tx.c := k.(res := k.res[tx.url := Resource(tx.etag, tx.data)])],
         written := s.written[tx.etag := Version(tx.c, tx.url, tx.data)])
    else t.(colns := s.colns[tx.c := k.(res := k.res - {tx.url})])
  }

  function BumpCtag(s: State, c: nat): State {
    if c !in s.colns then s else s.(colns := s.colns[c := s.colns[c].(ctag := s.colns[c].ctag + 1)])
  }

  function NextStatement(l: Lock): Option<Lock>
    requires IsTransaction(l.tx) && (l.phase.Matched? ==> Lookup(l.work, l.tx).Some?)
  {
    match l.phase
    case Open => if Lookup(l.work, l.tx).Some? then Some(l.(phase := Matched)) else None
    case Matched => Some(l.(phase := Written, work := WriteResource(l.work, l.tx)))
    case Written => Some(l.(phase := Bumped, work := BumpCtag(l.work, l.tx.c)))
    case Bumped => Some(l)
  }

  /** What a transaction has done so far. */
  ghost predicate LockOk(st: State, l: Lock) {
    && IsTransaction(l.tx) && (l.tx.Update? ==> l.tx.etag !in st.written)
    && match l.phase
       case Open => l.work == st
       case Matched => l.work == st && Lookup(st, l.tx).Some?
       case Written => Lookup(st, l.tx).Some? && l.work == WriteResource(st, l.tx)
       case Bumped => Lookup(st, l.tx).Some? && l.work == BumpCtag(WriteResource(st, l.tx), l.tx.c)
  }

  ghost predicate Ok(t: Tables) {
    t.lock.Some? ==> LockOk(t.st, t.lock.value)
  }

  /** One statement, or `None` if it is not possible: nothing else is written while the lock is held. */
  ghost function Do(t: Tables, a: Statement): Option<Tables>
    requires Ok(t)
  {
    match a
    case Lone(b) =>
      if t.lock.Some? || IsTransaction(b) || Step(t.st, b).None? then None
      else Some(Tables(Step(t.st, b).value, None))
    case Begin(tx) =>
      if t.lock.Some? || !IsTransaction(tx) || (tx.Update? && tx.etag in t.st.written) then None
      else Some(Tables(t.st, Some(Lock(tx, Open, t.st))))
    case Next => if t.lock.None? then None else Some(Tables(t.st, NextStatement(t.lock.value)))
    case Commit => if t.lock.Some? && t.lock.value.phase.Bumped? then Some(Tables(t.lock.value.work, None)) else None
    case Rollback => if t.lock.None? then None else Some(Tables(t.st, None))
  }

  /** A conditional request is a transaction and any other one statement, and neither begins in another's transaction. */
  lemma WhoMayWrite(t: Tables, a: Action)
    requires Ok(t)
    ensures Do(t, Lone(a)).Some? <==> t.lock == None && !a.Update? && !a.Delete? && Step(t.st, a).Some?
    ensures Do(t, Begin(a)).Some? <==>
              t.lock == None && (a.Delete? || (a.Update? && a.etag !in t.st.written))
    ensures Do(t, Rollback).Some? ==> Do(t, Rollback).value.st == t.st
    ensures Do(t, Next).Some? ==> Do(t, Next).value.st == t.st
  {
    hide Step;
  }

  lemma DoKeepsOk(t: Tables, a: Statement)
    requires Ok(t) && Do(t, a).Some?
    ensures Ok(Do(t, a).value)
  {
  }

  ghost function Statements(actions: seq<Statement>): (t: Tables)
    ensures Ok(t)
  {
    if actions == [] then Tables(INITIAL, None) else
      var t := Statements(actions[..|actions| - 1]);
      var a := actions[|actions| - 1];
      if Do(t, a).Some? then DoKeepsOk(t, a); Do(t, a).value else t
  }

  /** The steps of Etags that a run makes: the lone statements and the transactions that commit. */
  ghost function Steps(actions: seq<Statement>): seq<Action> {
    if actions == [] then [] else
      var n := |actions| - 1;
      var t := Statements(actions[..n]);
      Steps(actions[..n]) +
      if Do(t, actions[n]).None? then []
      else if actions[n].Lone? then [actions[n].a]
      else if actions[n].Commit? then [t.lock.value.tx]
      else []
  }

  /** The statements of a transaction together are its step. */
  lemma TransactionIsStep(st: State, tx: Action)
    requires IsTransaction(tx) && Lookup(st, tx).Some? && (tx.Update? ==> tx.etag !in st.written)
    ensures Step(st, tx) == Some(BumpCtag(WriteResource(st, tx), tx.c))
  {
    var u, v := Step(st, tx).value, BumpCtag(WriteResource(st, tx), tx.c);
    assert u.colns[tx.c] == v.colns[tx.c];
    assert u.colns == v.colns;
  }

  lemma RunMore(steps: seq<Action>, a: Action)
    requires Step(Run(steps), a).Some?
    ensures Run(steps + [a]) == Step(Run(steps), a).value
  {
    assert (steps + [a])[..|steps|] == steps;
  }

  /** Whatever the statements, what is committed is what the steps of Etags leave. */
  lemma {:induction false} StatementsAreSteps(actions: seq<Statement>)
    ensures Statements(actions).st == Run(Steps(actions))
  {
    hide Run, Step, BumpCtag, WriteResource, Lookup;
    if actions == [] {
      RunNone();
    } else {
      var n := |actions| - 1;
      StatementsAreSteps(actions[..n]);
      var t := Statements(actions[..n]);
      if Do(t, actions[n]).Some? {
        if actions[n].Lone? {
          RunMore(Steps(actions[..n]), actions[n].a);
        } else if actions[n].Commit? {
          TransactionIsStep(t.st, t.lock.value.tx);
          RunMore(Steps(actions[..n]), t.lock.value.tx);
        } else {
          assert Steps(actions[..n]) + [] == Steps(actions[..n]);
        }
      } else {
        assert Steps(actions[..n]) + [] == Steps(actions[..n]);
      }
    }
  }

  lemma RunNone()
    ensures Run([]) == INITIAL
  {
  }
}
