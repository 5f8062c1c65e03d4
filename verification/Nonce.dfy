/**
 * The nonces of HTTP digest authentication: many server processes, each running the two-phase
 * check of one request against one table, statement by statement.  A transaction holds the write
 * lock and works on a copy until it commits; everybody else goes on reading what is committed.
 */
module Nonce {
  import opened Octets

  const NONCEMAX: nat := 1000
  const CULLED: nat := 20

  // ------------------------------------------------------------------
  // The table.

  datatype Row = Row(nonce: bytes, count: int)

  /** A nonce that was issued, and the process that did. */
  datatype Issue = Issue(p: nat, nonce: bytes)

  /** The rows by identifier; an identifier is never given twice, and `issued` remembers each. */
  datatype Db = Db(rows: map<nat, Row>, issued: seq<Issue>)

  ghost predicate HasNonce(db: Db, id: nat, nonce: bytes) {
    id in db.rows && db.rows[id].nonce == nonce
  }

  ghost predicate Known(db: Db, nonce: bytes) {
    exists id :: HasNonce(db, id, nonce)
  }

  ghost function Find(db: Db, nonce: bytes): (id: nat)
    requires Known(db, nonce)
    ensures HasNonce(db, id, nonce)
  {
    var id :| HasNonce(db, id, nonce); id
  }

  datatype Verdict = Fresh | Replay | NotFound

  /** db_nonce_validate: a count below the stored one is a replay. */
  ghost function Validate(db: Db, nonce: bytes, count: int): Verdict {
    if !Known(db, nonce) then NotFound
    else if count < db.rows[Find(db, nonce)].count then Replay
    else Fresh
  }

  // ------------------------------------------------------------------
  // Processes.

  /** What is left to do for a request, or how it ended: with 1, 0, -1 or -2. */
  datatype Pc =
    | Start
    | Checked(nonce: bytes, count: int)
    | UpdateOpen(nonce: bytes, count: int)
    | UpdateValid(nonce: bytes, count: int)
    | UpdateDone(nonce: bytes, count: int)
    | WantNew
    | NewOpen
    | NewCounted(n: nat)
    | NewCulled
    | NewInserted
    | Done(rc: int)

  predicate InTransaction(pc: Pc) {
    pc.UpdateOpen? || pc.UpdateValid? || pc.UpdateDone? || pc.NewOpen? || pc.NewCounted? || pc.NewCulled? || pc.NewInserted?
  }

  /** A request was accepted: its process, the row, and the nonce and the count that it presented. */
  datatype Event = Event(p: nat, id: nat, nonce: bytes, count: int)

  /**
   * `db` is what is committed, `work` the copy of the transaction of `holder`.  The rest is history:
   * the requests accepted, and the processes that looked for their nonce and did not find it.
   */
  datatype State = State(db: Db, holder: Option<nat>, work: Db, pcs: map<nat, Pc>, hist: seq<Event>, missed: set<nat>)

  function PcOf(s: State, p: nat): Pc {
    if p in s.pcs then s.pcs[p] else Start
  }

  function Goto(s: State, p: nat, pc: Pc): State {
    s.(pcs := s.pcs[p := pc])
  }

  // ------------------------------------------------------------------
  // Steps; the nonces, the rows to cull and the order of steps are arbitrary.

  datatype Action =
    | Request(p: nat, nonce: bytes, count: int)
    | Begin(p: nat)
    | Statement(p: nat, cull: set<nat>, candidate: bytes)
    | Commit(p: nat)
    | Fail(p: nat)
    | Delete(nonce: bytes)

  /** The first check, on what is committed. */
  ghost function RequestStep(s: State, p: nat, nonce: bytes, count: int): State {
    match Validate(s.db, nonce, count)
    case NotFound => Goto(s, p, WantNew).(missed := s.missed + {p})
    case Replay => Goto(s, p, Done(-1))
    case Fresh => Goto(s, p, Checked(nonce, count))
  }

  /** End a transaction that changes nothing. */
  function Rollback(s: State, p: nat, pc: Pc): State {
    Goto(s, p, pc).(holder := None)
  }

  /** The next statement of an open transaction. */
  ghost function StatementStep(s: State, p: nat, cull: set<nat>, candidate: bytes): Option<State> {
    match PcOf(s, p)
    case UpdateOpen(nonce, count) =>
      (match Validate(s.work, nonce, count)
       case NotFound => Some(Rollback(s, p, WantNew).(missed := s.missed + {p}))
       case Replay => Some(Rollback(s, p, Done(-1)))
       case Fresh => Some(Goto(s, p, UpdateValid(nonce, count))))
    case UpdateValid(nonce, count) =>
      if !Known(s.work, nonce) then None else
        var id := Find(s.work, nonce);
        Some(Goto(s, p, UpdateDone(nonce, count)).(
               work := s.work.(rows := s.work.rows[id := Row(nonce, count + 1)])))
    case NewOpen => Some(Goto(s, p, NewCounted(|s.work.rows|)))
    case NewCounted(n) =>
      if n < NONCEMAX then Some(Goto(s, p, NewCulled))
      else if cull <= s.work.rows.Keys && |cull| == (if n < CULLED then n else CULLED) then
        Some(Goto(s, p, NewCulled).(work := s.work.(rows := s.work.rows - cull)))
      else None
    case NewCulled =>
      // A nonce that is there already breaks the constraint, and another one is tried.
      if Known(s.work, candidate) then Some(s) else
        Some(Goto(s, p, NewInserted).(
               work := Db(s.work.rows[|s.work.issued| := Row(candidate, 0)], s.work.issued + [Issue(p, candidate)])))
    case _ => None
  }

  /** A commit makes the copy the table. */
  ghost function CommitStep(s: State, p: nat): Option<State> {
    match PcOf(s, p)
    case UpdateDone(nonce, count) =>
      if !Known(s.work, nonce) then None else
        Some(Goto(s, p, Done(1)).(db := s.work, holder := None,
                                  hist := s.hist + [Event(p, Find(s.work, nonce), nonce, count)]))
    case NewInserted => Some(Goto(s, p, Done(0)).(db := s.work, holder := None))
    case _ => None
  }

  /** One step, or `None` if it is not possible. */
  ghost function Step(s: State, a: Action): Option<State> {
    match a
    case Request(p, nonce, count) =>
      if PcOf(s, p).Start? then Some(RequestStep(s, p, nonce, count)) else None
    case Begin(p) =>
      if s.holder.Some? then None
      else if PcOf(s, p).Checked? then
        var Checked(nonce, count) := PcOf(s, p);
        Some(Goto(s, p, UpdateOpen(nonce, count)).(holder := Some(p), work := s.db))
      else if PcOf(s, p).WantNew? then Some(Goto(s, p, NewOpen).(holder := Some(p), work := s.db))
      else None
    case Statement(p, cull, candidate) => if s.holder == Some(p) then StatementStep(s, p, cull, candidate) else None
    case Commit(p) => if s.holder == Some(p) then CommitStep(s, p) else None
    case Fail(p) =>
      if s.holder == Some(p) then Some(Rollback(s, p, Done(-2)))
      else if PcOf(s, p).Done? then None else Some(Goto(s, p, Done(-2)))
    case Delete(nonce) =>
      if s.holder.Some? then None
      else if !Known(s.db, nonce) then Some(s)
      else Some(s.(db := s.db.(rows := s.db.rows - {Find(s.db, nonce)})))
  }

  const INITIAL := State(Db(map[], []), None, Db(map[], []), map[], [], {})

  /** The state after a run; an impossible step is none. */
  ghost function Run(actions: seq<Action>): State {
    if actions == [] then INITIAL else
      var s := Run(actions[..|actions| - 1]);
      var t := Step(s, actions[|actions| - 1]);
      if t.Some? then t.value else s
  }

  // ------------------------------------------------------------------
  // What every run keeps.

  /** One more than the last count accepted for a row, or zero. */
  ghost function Expected(hist: seq<Event>, id: nat): int {
    if hist == [] then 0
    else if hist[|hist| - 1].id == id then hist[|hist| - 1].count + 1
    else Expected(hist[..|hist| - 1], id)
  }

  ghost predicate Increasing(hist: seq<Event>) {
    forall i, j :: 0 <= i < j < |hist| && hist[i].id == hist[j].id ==> hist[i].count < hist[j].count
  }

  /** The rows hold the expected counts, under different nonces and used identifiers. */
  ghost predicate DbOk(db: Db, hist: seq<Event>) {
    && (forall id :: id in db.rows ==>
          && id < |db.issued| && db.rows[id].nonce == db.issued[id].nonce && db.rows[id].count == Expected(hist, id))
    && (forall i, j :: i in db.rows && j in db.rows && db.rows[i].nonce == db.rows[j].nonce ==> i == j)
    && (forall i :: 0 <= i < |hist| ==>
          hist[i].id < |db.issued| && hist[i].nonce == db.issued[hist[i].id].nonce && hist[i].count >= 0)
    && |db.rows| <= NONCEMAX
  }

  /** The copy, given what its transaction has done so far. */
  ghost predicate WorkOk(s: State, pc: Pc) {
    match pc
    case UpdateOpen(_, _) => s.work == s.db
    case UpdateValid(nonce, count) => s.work == s.db && Validate(s.db, nonce, count) == Fresh
    case UpdateDone(nonce, count) =>
      && Validate(s.db, nonce, count) == Fresh
      && s.work == s.db.(rows := s.db.rows[Find(s.db, nonce) := Row(nonce, count + 1)])
    case NewOpen => s.work == s.db
    case NewCounted(n) => s.work == s.db && n == |s.db.rows|
    case NewCulled => DbOk(s.work, s.hist) && |s.work.rows| < NONCEMAX
    case NewInserted => DbOk(s.work, s.hist)
    case _ => false
  }

  /** A process has answered 1 exactly if its request was accepted, and then once. */
  ghost predicate Answered(s: State) {
    && (forall i :: 0 <= i < |s.hist| ==> PcOf(s, s.hist[i].p) == Done(1))
    && (forall p: nat :: PcOf(s, p) == Done(1) ==> exists i :: 0 <= i < |s.hist| && s.hist[i].p == p)
    && (forall i, j :: 0 <= i < j < |s.hist| ==> s.hist[i].p != s.hist[j].p)
  }

  ghost predicate Inv(s: State) {
    && Increasing(s.hist) && DbOk(s.db, s.hist) && Answered(s)
    && (forall p: nat :: InTransaction(PcOf(s, p)) <==> s.holder == Some(p))
    && (s.holder.Some? ==> WorkOk(s, PcOf(s, s.holder.value)))
  }

  /** Removing rows keeps the others as they are. */
  lemma RemoveKeeps(db: Db, hist: seq<Event>, ids: set<nat>)
    requires DbOk(db, hist) && ids <= db.rows.Keys
    ensures DbOk(db.(rows := db.rows - ids), hist) && |db.rows - ids| == |db.rows| - |ids|
  {
    var rows := db.rows - ids;
    assert rows.Keys == db.rows.Keys - ids;
  }

  lemma InsertKeeps(db: Db, hist: seq<Event>, p: nat, nonce: bytes)
    requires DbOk(db, hist) && |db.rows| < NONCEMAX && !Known(db, nonce)
    ensures DbOk(Db(db.rows[|db.issued| := Row(nonce, 0)], db.issued + [Issue(p, nonce)]), hist)
  {
    ExpectedNone(hist, |db.issued|);
    assert |db.issued| !in db.rows;
    forall i | i in db.rows
      ensures db.rows[i].nonce != nonce
    {
      assert HasNonce(db, i, nonce) <==> db.rows[i].nonce == nonce;
    }
  }

  /** Nothing was ever accepted for a new identifier. */
  lemma {:induction false} ExpectedNone(hist: seq<Event>, id: nat)
    requires forall i :: 0 <= i < |hist| ==> hist[i].id != id
    ensures Expected(hist, id) == 0
  {
    if hist != [] {
      ExpectedNone(hist[..|hist| - 1], id);
    }
  }

  /** Every count accepted for a row is below the expected one. */
  lemma {:induction false} BelowExpected(hist: seq<Event>, id: nat, i: nat)
    requires Increasing(hist) && i < |hist| && hist[i].id == id
    ensures hist[i].count < Expected(hist, id)
  {
    var n := |hist| - 1;
    if hist[n].id != id {
      BelowExpected(hist[..n], id, i);
    }
  }

  /** An updated row is still the one of its nonce. */
  lemma UpdateFinds(db: Db, hist: seq<Event>, nonce: bytes, row: Row)
    requires DbOk(db, hist) && Known(db, nonce) && row.nonce == nonce
    ensures var work := db.(rows := db.rows[Find(db, nonce) := row]);
            Known(work, nonce) && Find(work, nonce) == Find(db, nonce)
  {
    var id := Find(db, nonce);
    var work := db.(rows := db.rows[id := row]);
    assert HasNonce(work, id, nonce);
    forall i | HasNonce(work, i, nonce)
      ensures i == id
    {
      assert i != id ==> HasNonce(db, i, nonce);
    }
  }

  lemma MoreIncreasing(hist: seq<Event>, e: Event)
    requires Increasing(hist) && Expected(hist, e.id) <= e.count
    ensures Increasing(hist + [e])
  {
    hide Expected;
    forall i | 0 <= i < |hist| && hist[i].id == e.id
      ensures hist[i].count < e.count
    {
      BelowExpected(hist, e.id, i);
    }
  }

  lemma UpdateDbOk(db: Db, hist: seq<Event>, p: nat, id: nat, count: int)
    requires DbOk(db, hist) && id in db.rows && count >= 0
    ensures var nonce := db.rows[id].nonce;
            DbOk(db.(rows := db.rows[id := Row(nonce, count + 1)]), hist + [Event(p, id, nonce, count)])
  {
    hide Expected;
    var work := db.(rows := db.rows[id := Row(db.rows[id].nonce, count + 1)]);
    var hist' := hist + [Event(p, id, db.rows[id].nonce, count)];
    SameSize(db.rows, id, Row(db.rows[id].nonce, count + 1));
    assert forall i :: i in work.rows ==> i in db.rows && work.rows[i].nonce == db.rows[i].nonce;
    forall i | i in work.rows
      ensures work.rows[i].count == Expected(hist', i)
    {
      ExpectedLast(hist, hist'[|hist|], i);
    }
    assert forall i :: 0 <= i < |hist| ==> hist'[i] == hist[i];
  }

  lemma ExpectedLast(hist: seq<Event>, e: Event, id: nat)
    ensures Expected(hist + [e], id) == if e.id == id then e.count + 1 else Expected(hist, id)
  {
    assert (hist + [e])[..|hist|] == hist;
  }

  lemma SameSize(rows: map<nat, Row>, id: nat, row: Row)
    requires id in rows
    ensures |rows[id := row]| == |rows|
  {
    assert rows[id := row].Keys == rows.Keys;
  }

  /** An accepted update. */
  lemma UpdateKeeps(db: Db, hist: seq<Event>, p: nat, nonce: bytes, count: int)
    requires Increasing(hist) && DbOk(db, hist) && Validate(db, nonce, count) == Fresh
    ensures var id := Find(db, nonce);
            var work := db.(rows := db.rows[id := Row(nonce, count + 1)]);
            var hist' := hist + [Event(p, id, nonce, count)];
            && Known(work, nonce) && Find(work, nonce) == id
            && Increasing(hist') && DbOk(work, hist')
  {
    hide Increasing, Known, Find, Expected;
    ExpectedMeans(hist, Find(db, nonce));
    UpdateFinds(db, hist, nonce, Row(nonce, count + 1));
    MoreIncreasing(hist, Event(p, Find(db, nonce), nonce, count));
    UpdateDbOk(db, hist, p, Find(db, nonce), count);
  }

  lemma StatementKeeps(s: State, p: nat, cull: set<nat>, candidate: bytes)
    requires Inv(s) && s.holder == Some(p) && StatementStep(s, p, cull, candidate).Some?
    ensures Inv(StatementStep(s, p, cull, candidate).value)
  {
    hide DbOk, Increasing, Validate, Known, Find, Answered;
    var t := StatementStep(s, p, cull, candidate).value;
    OtherKeeps(s, p, t);
    match PcOf(s, p) {
      case UpdateValid(nonce, count) =>
        ValidKnown(s.db, nonce, count);
      case NewCounted(n) =>
        SizeOk(s.db, s.hist);
        if n >= NONCEMAX {
          RemoveKeeps(s.work, s.hist, cull);
        }
      case NewCulled =>
        if !Known(s.work, candidate) {
          InsertKeeps(s.work, s.hist, p, candidate);
        }
      case _ =>
    }
  }

  lemma ValidKnown(db: Db, nonce: bytes, count: int)
    requires Validate(db, nonce, count) == Fresh
    ensures Known(db, nonce)
  {
  }

  lemma SizeOk(db: Db, hist: seq<Event>)
    requires DbOk(db, hist)
    ensures |db.rows| <= NONCEMAX
  {
  }

  /** The answer to an accepted request. */
  lemma AnswerKeeps(s: State, p: nat, t: State)
    requires Answered(s) && PcOf(s, p) != Done(1) && t.pcs == s.pcs[p := Done(1)]
    requires |t.hist| == |s.hist| + 1 && t.hist[..|s.hist|] == s.hist && t.hist[|s.hist|].p == p
    ensures Answered(t)
  {
    forall q: nat | PcOf(t, q) == Done(1)
      ensures exists i :: 0 <= i < |t.hist| && t.hist[i].p == q
    {
      if q == p {
        assert t.hist[|s.hist|].p == q;
      } else {
        assert PcOf(s, q) == Done(1);
        var i :| 0 <= i < |s.hist| && s.hist[i].p == q;
        assert t.hist[i].p == q;
      }
    }
    assert forall i :: 0 <= i < |s.hist| ==> t.hist[i] == s.hist[i];
  }

  /** Any other step of a process that has not answered 1 and does not do so now. */
  lemma OtherKeeps(s: State, p: nat, t: State)
    requires Answered(s) && PcOf(s, p) != Done(1) && t.hist == s.hist
    requires PcOf(t, p) != Done(1) && forall q: nat :: q != p ==> PcOf(t, q) == PcOf(s, q)
    ensures Answered(t)
  {
    hide PcOf;
  }

  lemma CommitKeeps(s: State, p: nat)
    requires Inv(s) && s.holder == Some(p) && CommitStep(s, p).Some?
    ensures Inv(CommitStep(s, p).value)
  {
    hide DbOk, Increasing, Validate, Known, Find, Answered;
    match PcOf(s, p) {
      case NewInserted => OtherKeeps(s, p, CommitStep(s, p).value);
      case UpdateDone(nonce, count) =>
        UpdateKeeps(s.db, s.hist, p, nonce, count);
        AnswerKeeps(s, p, CommitStep(s, p).value);
      case _ =>
    }
  }

  lemma SameAnswers(s: State, t: State)
    requires Answered(s) && t.pcs == s.pcs && t.hist == s.hist
    ensures Answered(t)
  {
    assert forall p: nat :: PcOf(t, p) == PcOf(s, p);
  }

  lemma BeginKeeps(s: State, p: nat)
    requires Inv(s) && Step(s, Begin(p)).Some?
    ensures Inv(Step(s, Begin(p)).value)
  {
    hide DbOk, Increasing, Validate, Known, Find, Answered, StatementStep, CommitStep;
    OtherKeeps(s, p, Step(s, Begin(p)).value);
  }

  lemma FailKeeps(s: State, p: nat)
    requires Inv(s) && Step(s, Fail(p)).Some?
    ensures Inv(Step(s, Fail(p)).value)
  {
    hide DbOk, Increasing, Validate, Known, Find, Answered, StatementStep, CommitStep;
    OtherKeeps(s, p, Step(s, Fail(p)).value);
  }

  lemma RequestKeeps(s: State, p: nat, nonce: bytes, count: int)
    requires Inv(s) && PcOf(s, p).Start?
    ensures Inv(RequestStep(s, p, nonce, count))
  {
    hide DbOk, Increasing, Validate, Known, Find, Answered;
    var t := RequestStep(s, p, nonce, count);
    OtherKeeps(s, p, t);
    assert s.holder.Some? ==> PcOf(t, s.holder.value) == PcOf(s, s.holder.value);
  }

  lemma DeleteKeeps(s: State, nonce: bytes)
    requires Inv(s) && s.holder.None? && Known(s.db, nonce)
    ensures Inv(s.(db := s.db.(rows := s.db.rows - {Find(s.db, nonce)})))
  {
    hide DbOk, Increasing, Known, Answered;
    var id := Find(s.db, nonce);
    RemoveKeeps(s.db, s.hist, {id});
    var t := s.(db := s.db.(rows := s.db.rows - {id}));
    assert forall p: nat :: PcOf(t, p) == PcOf(s, p);
    SameAnswers(s, t);
  }

  lemma StepKeeps(s: State, a: Action)
    requires Inv(s) && Step(s, a).Some?
    ensures Inv(Step(s, a).value)
  {
    hide Inv, RequestStep, Known, StatementStep, CommitStep, PcOf;
    match a {
      case Request(p, nonce, count) => RequestKeeps(s, p, nonce, count);
      case Begin(p) => BeginKeeps(s, p);
      case Statement(p, cull, candidate) => StatementKeeps(s, p, cull, candidate);
      case Commit(p) => CommitKeeps(s, p);
      case Fail(p) => FailKeeps(s, p);
      case Delete(nonce) =>
        if Known(s.db, nonce) {
          DeleteKeeps(s, nonce);
        }
    }
  }

  lemma InitialOk()
    ensures Inv(INITIAL)
  {
  }

  lemma {:induction false} RunKeeps(actions: seq<Action>)
    ensures Inv(Run(actions))
  {
    hide Inv, Step;
    if actions == [] {
      InitialOk();
    } else {
      var n := |actions| - 1;
      RunKeeps(actions[..n]);
      if Step(Run(actions[..n]), actions[n]).Some? {
        StepKeeps(Run(actions[..n]), actions[n]);
      }
    }
  }

  // ------------------------------------------------------------------
  // What each step answers and stores.

  /** The row of a nonce holds more than the count presented. */
  ghost predicate Stale(db: Db, nonce: bytes, count: int) {
    exists id :: HasNonce(db, id, nonce) && count < db.rows[id].count
  }

  lemma StaleIs(db: Db, hist: seq<Event>, nonce: bytes, count: int)
    requires DbOk(db, hist)
    ensures Validate(db, nonce, count) == NotFound <==> !Known(db, nonce)
    ensures Validate(db, nonce, count) == Replay <==> Stale(db, nonce, count)
  {
    if Known(db, nonce) {
      assert HasNonce(db, Find(db, nonce), nonce);
      assert forall id :: HasNonce(db, id, nonce) ==> id == Find(db, nonce);
    }
  }

  /**
   * The first check: a replay is answered -1 at once, an unknown nonce makes the process want a new
   * one, and otherwise it goes on; nothing is stored in any case.
   */
  lemma RequestMeans(actions: seq<Action>, p: nat, nonce: bytes, count: int)
    requires PcOf(Run(actions), p).Start?
    ensures Step(Run(actions), Request(p, nonce, count)).Some?
    ensures var s, t := Run(actions), Step(Run(actions), Request(p, nonce, count)).value;
            && t.db == s.db && t.work == s.work && t.holder == s.holder && t.hist == s.hist
            && (forall q: nat :: q != p ==> PcOf(t, q) == PcOf(s, q))
            && PcOf(t, p) == (if !Known(s.db, nonce) then WantNew
                              else if Stale(s.db, nonce, count) then Done(-1) else Checked(nonce, count))
            && t.missed == (if Known(s.db, nonce) then s.missed else s.missed + {p})
  {
    hide Run, Known, Validate, Stale;
    RunKeeps(actions);
    StaleIs(Run(actions).db, Run(actions).hist, nonce, count);
  }

  /** The second check, inside the transaction, with the same answers; only a fresh request keeps the lock. */
  lemma AgainMeans(actions: seq<Action>, p: nat, nonce: bytes, count: int, cull: set<nat>, candidate: bytes)
    requires PcOf(Run(actions), p) == UpdateOpen(nonce, count)
    ensures Step(Run(actions), Statement(p, cull, candidate)).Some?
    ensures var s, t := Run(actions), Step(Run(actions), Statement(p, cull, candidate)).value;
            && t.db == s.db && t.work == s.work == s.db && t.hist == s.hist
            && (forall q: nat :: q != p ==> PcOf(t, q) == PcOf(s, q))
            && PcOf(t, p) == (if !Known(s.db, nonce) then WantNew
                              else if Stale(s.db, nonce, count) then Done(-1) else UpdateValid(nonce, count))
            && t.holder == (if Known(s.db, nonce) && !Stale(s.db, nonce, count) then Some(p) else None)
            && t.missed == (if Known(s.db, nonce) then s.missed else s.missed + {p})
  {
    hide Run, Known, Validate, Stale;
    RunKeeps(actions);
    StaleIs(Run(actions).db, Run(actions).hist, nonce, count);
  }

  /** A transaction starts from what is committed, and one only. */
  lemma BeginMeans(s: State, p: nat)
    ensures Step(s, Begin(p)).Some? <==> s.holder == None && (PcOf(s, p).Checked? || PcOf(s, p).WantNew?)
    ensures Step(s, Begin(p)).Some? ==>
              var t := Step(s, Begin(p)).value;
              && t.db == t.work == s.db && t.holder == Some(p) && t.hist == s.hist && t.missed == s.missed
              && (forall q: nat :: q != p ==> PcOf(t, q) == PcOf(s, q))
              && PcOf(t, p) == if PcOf(s, p).WantNew? then NewOpen
                               else UpdateOpen(PcOf(s, p).nonce, PcOf(s, p).count)
  {
  }

  /** The statements that write: each changes the copy of the transaction as it says, and nothing else. */
  lemma WriteMeans(s: State, p: nat, cull: set<nat>, candidate: bytes)
    requires s.holder == Some(p) && Step(s, Statement(p, cull, candidate)).Some? && !PcOf(s, p).UpdateOpen?
    ensures var t := Step(s, Statement(p, cull, candidate)).value;
            && t.db == s.db && t.hist == s.hist && t.missed == s.missed && t.holder == s.holder
            && (forall q: nat :: q != p ==> PcOf(t, q) == PcOf(s, q))
            && match PcOf(s, p)
               case UpdateValid(nonce, count) =>
                 && PcOf(t, p) == UpdateDone(nonce, count) && Known(s.work, nonce)
                 && t.work == s.work.(rows := s.work.rows[Find(s.work, nonce) := Row(nonce, count + 1)])
               case NewOpen => PcOf(t, p) == NewCounted(|s.work.rows|) && t.work == s.work
               case NewCounted(n) =>
                 && PcOf(t, p) == NewCulled && t.work.issued == s.work.issued
                 && (n < 1000 ==> t.work == s.work)
                 && (n >= 1000 ==> t.work.rows == s.work.rows - cull && cull <= s.work.rows.Keys && |cull| == 20)
               case NewCulled =>
                 if Known(s.work, candidate) then t == s else
                   && PcOf(t, p) == NewInserted && t.work.issued == s.work.issued + [Issue(p, candidate)]
                   && t.work.rows == s.work.rows[|s.work.issued| := Row(candidate, 0)]
               case _ => false
  {
    hide Known, Find;
  }

  /** A commit makes the copy the table, and is the answer: 1 for an update, 0 for a new nonce. */
  lemma CommitMeans(s: State, p: nat)
    requires s.holder == Some(p) && Step(s, Commit(p)).Some?
    ensures var t := Step(s, Commit(p)).value;
            && t.db == s.work && t.holder == None && t.missed == s.missed
            && (forall q: nat :: q != p ==> PcOf(t, q) == PcOf(s, q))
            && match PcOf(s, p)
               case UpdateDone(nonce, count) =>
                 && PcOf(t, p) == Done(1) && Known(s.work, nonce)
                 && t.hist == s.hist + [Event(p, Find(s.work, nonce), nonce, count)]
               case NewInserted => PcOf(t, p) == Done(0) && t.hist == s.hist
               case _ => false
  {
    hide Known, Find;
  }

  /** A process that fails answers -2 and leaves what is committed as it was. */
  lemma FailMeans(s: State, p: nat)
    requires Step(s, Fail(p)).Some?
    ensures var t := Step(s, Fail(p)).value;
            && t.db == s.db && t.hist == s.hist && t.missed == s.missed && PcOf(t, p) == Done(-2)
            && t.holder == (if s.holder == Some(p) then None else s.holder)
            && (forall q: nat :: q != p ==> PcOf(t, q) == PcOf(s, q))
  {
  }

  /** A deletion takes the row of the nonce away, if there is one. */
  lemma DeleteMeans(s: State, nonce: bytes)
    ensures Step(s, Delete(nonce)).Some? <==> s.holder == None
    ensures s.holder == None ==>
              var t := Step(s, Delete(nonce)).value;
              t == s.(db := s.db.(rows := if Known(s.db, nonce) then s.db.rows - {Find(s.db, nonce)} else s.db.rows))
  {
    hide Known, Find;
  }

  // ------------------------------------------------------------------
  // Who is answered 0.

  /** A process that is about to insert a nonce, or has done so. */
  predicate WantsNew(pc: Pc) {
    pc.WantNew? || pc.NewOpen? || pc.NewCounted? || pc.NewCulled? || pc.NewInserted? || pc == Done(0)
  }

  ghost predicate IssuedBy(issued: seq<Issue>, p: nat) {
    exists i :: 0 <= i < |issued| && issued[i].p == p
  }

  /** A process has answered 0 exactly if it has issued a nonce, and only after it missed its own. */
  ghost predicate Issued(s: State) {
    && (forall p: nat :: PcOf(s, p) == Done(0) <==> IssuedBy(s.db.issued, p))
    && (forall i, j :: 0 <= i < j < |s.db.issued| ==> s.db.issued[i].p != s.db.issued[j].p)
    && (forall p: nat :: WantsNew(PcOf(s, p)) ==> p in s.missed)
    && (s.holder.Some? ==>
          if PcOf(s, s.holder.value).NewInserted?
          then exists c :: s.work.issued == s.db.issued + [Issue(s.holder.value, c)]
          else s.work.issued == s.db.issued)
  }

  lemma RequestIssues(s: State, p: nat, nonce: bytes, count: int)
    requires Inv(s) && Issued(s) && Step(s, Request(p, nonce, count)).Some?
    ensures Issued(Step(s, Request(p, nonce, count)).value)
  {
    hide DbOk, Increasing, Answered, Known, Find, Validate, IssuedBy, WorkOk, StatementStep, CommitStep;
  }

  lemma BeginIssues(s: State, p: nat)
    requires Inv(s) && Issued(s) && Step(s, Begin(p)).Some?
    ensures Issued(Step(s, Begin(p)).value)
  {
    hide DbOk, Increasing, Answered, Known, Find, Validate, IssuedBy, WorkOk, StatementStep, CommitStep;
  }

  lemma UpdateIssues(s: State, p: nat, cull: set<nat>, candidate: bytes)
    requires Inv(s) && Issued(s) && Step(s, Statement(p, cull, candidate)).Some? &&
             (PcOf(s, p).UpdateOpen? || PcOf(s, p).UpdateValid?)
    ensures Issued(Step(s, Statement(p, cull, candidate)).value)
  {
    hide DbOk, Increasing, Answered, Known, Find, Validate, IssuedBy, WorkOk, CommitStep;
  }

  lemma CountIssues(s: State, p: nat, cull: set<nat>, candidate: bytes)
    requires Inv(s) && Issued(s) && Step(s, Statement(p, cull, candidate)).Some? &&
             (PcOf(s, p).NewOpen? || PcOf(s, p).NewCounted?)
    ensures Issued(Step(s, Statement(p, cull, candidate)).value)
  {
    hide DbOk, Increasing, Answered, Known, Find, Validate, IssuedBy, WorkOk, CommitStep;
  }

  lemma InsertIssues(s: State, p: nat, cull: set<nat>, candidate: bytes)
    requires Inv(s) && Issued(s) && Step(s, Statement(p, cull, candidate)).Some? && PcOf(s, p).NewCulled?
    ensures Issued(Step(s, Statement(p, cull, candidate)).value)
  {
    hide DbOk, Increasing, Answered, Known, Find, Validate, IssuedBy, WorkOk, CommitStep;
  }

  lemma FailIssues(s: State, p: nat)
    requires Inv(s) && Issued(s) && Step(s, Fail(p)).Some?
    ensures Issued(Step(s, Fail(p)).value)
  {
    hide DbOk, Increasing, Answered, Known, Find, Validate, IssuedBy, WorkOk, StatementStep, CommitStep;
  }

  lemma DeleteIssues(s: State, nonce: bytes)
    requires Inv(s) && Issued(s) && Step(s, Delete(nonce)).Some?
    ensures Issued(Step(s, Delete(nonce)).value)
  {
    hide DbOk, Increasing, Answered, Known, Find, Validate, IssuedBy, WorkOk, StatementStep, CommitStep;
  }

  lemma Statements(s: State, p: nat, cull: set<nat>, candidate: bytes)
    requires Step(s, Statement(p, cull, candidate)).Some?
    ensures var pc := PcOf(s, p);
            pc.UpdateOpen? || pc.UpdateValid? || pc.NewOpen? || pc.NewCounted? || pc.NewCulled?
  {
    hide Validate, Known, Find;
  }

  lemma StepKeepsIssued(s: State, a: Action)
    requires Inv(s) && Issued(s) && Step(s, a).Some?
    ensures Issued(Step(s, a).value)
  {
    hide Inv, Issued, Step;
    match a {
      case Request(p, nonce, count) => RequestIssues(s, p, nonce, count);
      case Begin(p) => BeginIssues(s, p);
      case Statement(p, cull, candidate) =>
        Statements(s, p, cull, candidate);
        if PcOf(s, p).NewCulled? {
          InsertIssues(s, p, cull, candidate);
        } else if PcOf(s, p).NewOpen? || PcOf(s, p).NewCounted? {
          CountIssues(s, p, cull, candidate);
        } else {
          UpdateIssues(s, p, cull, candidate);
        }
      case Commit(p) => CommitIssues(s, p);
      case Fail(p) => FailIssues(s, p);
      case Delete(nonce) => DeleteIssues(s, nonce);
    }
  }

  lemma CommitIssues(s: State, p: nat)
    requires Inv(s) && Issued(s) && Step(s, Commit(p)).Some?
    ensures Issued(Step(s, Commit(p)).value)
  {
    hide DbOk, Increasing, Answered, Known, Find, Validate;
    CommitMeans(s, p);
    var t := Step(s, Commit(p)).value;
    if PcOf(s, p).NewInserted? {
      var c :| s.work.issued == s.db.issued + [Issue(p, c)];
      IssuedMore(s.db.issued, p, c);
      assert !IssuedBy(s.db.issued, p);
    }
  }

  lemma IssuedMore(issued: seq<Issue>, p: nat, c: bytes)
    ensures forall q: nat :: IssuedBy(issued + [Issue(p, c)], q) <==> q == p || IssuedBy(issued, q)
  {
    var more := issued + [Issue(p, c)];
    assert more[|issued|].p == p;
    forall q: nat | IssuedBy(issued, q)
      ensures IssuedBy(more, q)
    {
      var i :| 0 <= i < |issued| && issued[i].p == q;
      assert more[i].p == q;
    }
  }

  lemma {:induction false} RunIssues(actions: seq<Action>)
    ensures Issued(Run(actions))
  {
    hide Inv, Step, Issued;
    if actions == [] {
      NoneIssued();
    } else {
      var n := |actions| - 1;
      RunIssues(actions[..n]);
      RunKeeps(actions[..n]);
      if Step(Run(actions[..n]), actions[n]).Some? {
        StepKeepsIssued(Run(actions[..n]), actions[n]);
      }
    }
  }

  lemma NoneIssued()
    ensures Issued(INITIAL)
  {
  }

  /**
   * In every run: a process is answered 0 exactly if it has issued a nonce, it issues one at most,
   * and only if its own was not found when it looked for it.
   */
  lemma ZeroMeans(actions: seq<Action>, p: nat)
    ensures var s := Run(actions);
            && (PcOf(s, p) == Done(0) <==> exists i :: 0 <= i < |s.db.issued| && s.db.issued[i].p == p)
            && (forall i, j :: 0 <= i < j < |s.db.issued| ==> s.db.issued[i].p != s.db.issued[j].p)
            && (PcOf(s, p) == Done(0) ==> p in s.missed)
  {
    hide Run;
    RunIssues(actions);
  }

  // ------------------------------------------------------------------
  // No replay.

  /**
   * In every run, however the steps of the processes interleave: the counts accepted for a row
   * strictly increase, the row holds one more than the last of them or zero if there is none, the
   * table never has more than NONCEMAX rows, and a process answers 1 exactly if its request is one
   * of those accepted, for which no other process answers.
   */
  lemma NoReplay(actions: seq<Action>)
    ensures var s := Run(actions);
            && (forall i, j :: 0 <= i < j < |s.hist| && s.hist[i].id == s.hist[j].id ==> s.hist[i].count < s.hist[j].count)
            && (forall id :: id in s.db.rows ==> s.db.rows[id].count == Expected(s.hist, id))
            && |s.db.rows| <= NONCEMAX
            && Answered(s)
  {
    hide Run, Answered;
    RunKeeps(actions);
  }

  /** No nonce has been issued a second time. */
  ghost predicate NoneTwice(issued: seq<Issue>) {
    forall i, j :: 0 <= i < j < |issued| ==> issued[i].nonce != issued[j].nonce
  }

  /**
   * What a client sees: unless a nonce has been issued twice, the counts accepted for a nonce
   * strictly increase over the whole run, across culls and deletions of its row.  So each pair of
   * nonce and count is accepted at most once.
   */
  lemma NonceOnce(actions: seq<Action>)
    requires NoneTwice(Run(actions).db.issued)
    ensures var h := Run(actions).hist;
            forall i, j :: 0 <= i < j < |h| && h[i].nonce == h[j].nonce ==> h[i].count < h[j].count
  {
    hide Run, Answered;
    RunKeeps(actions);
  }

  ghost predicate IsNew(issued: seq<Issue>, nonce: bytes) {
    forall i :: 0 <= i < |issued| ==> issued[i].nonce != nonce
  }

  /** Every nonce that a process inserts differs from all that were issued before. */
  ghost predicate NewCandidates(actions: seq<Action>) {
    forall n :: 0 <= n < |actions| && actions[n].Statement? ==>
      var s := Run(actions[..n]);
      PcOf(s, actions[n].p).NewCulled? ==> IsNew(s.work.issued, actions[n].candidate)
  }

  lemma StepIssues(s: State, a: Action)
    requires Step(s, a).Some? && NoneTwice(s.db.issued) && (s.holder.Some? ==> NoneTwice(s.work.issued))
    requires a.Statement? && PcOf(s, a.p).NewCulled? ==> IsNew(s.work.issued, a.candidate)
    ensures var t := Step(s, a).value; NoneTwice(t.db.issued) && (t.holder.Some? ==> NoneTwice(t.work.issued))
  {
    hide Validate, Known, Find, PcOf;
  }

  /** As long as what a process inserts was never issued before, no nonce is issued twice. */
  lemma {:induction false} IssuedOnce(actions: seq<Action>)
    requires NewCandidates(actions)
    ensures var s := Run(actions); NoneTwice(s.db.issued) && (s.holder.Some? ==> NoneTwice(s.work.issued))
  {
    hide Step, PcOf, NoneTwice, IsNew;
    if actions == [] {
      assert NoneTwice([]) by { NoneYet(); }
    } else {
      var n := |actions| - 1;
      var before := actions[..n];
      assert forall k :: 0 <= k < n ==> before[k] == actions[k] && before[..k] == actions[..k];
      IssuedOnce(before);
      if Step(Run(before), actions[n]).Some? {
        StepIssues(Run(before), actions[n]);
      }
    }
  }

  lemma NoneYet()
    ensures NoneTwice([])
  {
  }

  lemma OneMore(actions: seq<Action>, a: Action)
    requires Step(Run(actions), a).Some?
    ensures Run(actions + [a]) == Step(Run(actions), a).value
  {
    hide Step;
    assert (actions + [a])[..|actions|] == actions;
  }

  /** An unknown nonce is asked for while the table is empty, and is issued. */
  lemma Serve(actions: seq<Action>, p: nat, nonce: bytes) returns (more: seq<Action>)
    requires var s := Run(actions); s.holder == None && p !in s.pcs && s.db.rows == map[]
    ensures var s, t := Run(actions), Run(more);
            && t.holder == None && t.hist == s.hist && t.pcs == s.pcs[p := Done(0)]
            && t.db == Db(map[|s.db.issued| := Row(nonce, 0)], s.db.issued + [Issue(p, nonce)])
  {
    hide Run;
    var s := Run(actions);
    assert !Known(s.db, nonce);
    OneMore(actions, Request(p, nonce, 0));
    more := actions + [Request(p, nonce, 0)];
    OneMore(more, Begin(p));
    more := more + [Begin(p)];
    OneMore(more, Statement(p, {}, nonce));
    more := more + [Statement(p, {}, nonce)];
    OneMore(more, Statement(p, {}, nonce));
    more := more + [Statement(p, {}, nonce)];
    OneMore(more, Statement(p, {}, nonce));
    more := more + [Statement(p, {}, nonce)];
    OneMore(more, Commit(p));
    more := more + [Commit(p)];
  }

  /** The only nonce is presented with the count 0, and accepted. */
  lemma Use(actions: seq<Action>, p: nat, id: nat, nonce: bytes) returns (more: seq<Action>)
    requires var s := Run(actions); s.holder == None && p !in s.pcs && s.db.rows == map[id := Row(nonce, 0)]
    ensures var s, t := Run(actions), Run(more);
            && t.holder == None && t.hist == s.hist + [Event(p, id, nonce, 0)] && t.pcs == s.pcs[p := Done(1)]
            && t.db == Db(map[id := Row(nonce, 1)], s.db.issued)
  {
    hide Run;
    var s := Run(actions);
    assert HasNonce(s.db, id, nonce);
    OneMore(actions, Request(p, nonce, 0));
    more := actions + [Request(p, nonce, 0)];
    OneMore(more, Begin(p));
    more := more + [Begin(p)];
    OneMore(more, Statement(p, {}, nonce));
    more := more + [Statement(p, {}, nonce)];
    OneMore(more, Statement(p, {}, nonce));
    more := more + [Statement(p, {}, nonce)];
    assert HasNonce(Run(more).work, id, nonce);
    OneMore(more, Commit(p));
    more := more + [Commit(p)];
  }

  /** A nonce that is deleted and issued again is accepted twice with the same count. */
  lemma ReissuedTwice(nonce: bytes) returns (actions: seq<Action>)
    ensures Run(actions).hist == [Event(1, 0, nonce, 0), Event(3, 1, nonce, 0)]
  {
    hide Run, StatementStep;
    assert Run([]) == INITIAL by { EmptyRun(); }
    actions := Serve([], 0, nonce);
    actions := Use(actions, 1, 0, nonce);
    var s := Run(actions);
    assert HasNonce(s.db, 0, nonce);
    OneMore(actions, Delete(nonce));
    actions := actions + [Delete(nonce)];
    assert Run(actions).db.rows == map[];
    actions := Serve(actions, 2, nonce);
    actions := Use(actions, 3, 1, nonce);
  }

  lemma EmptyRun()
    ensures Run([]) == INITIAL
  {
  }

  /** A known nonce is refused exactly for counts at or below one already accepted, and negative ones. */
  lemma ReplayMeans(actions: seq<Action>, nonce: bytes, count: int)
    requires Known(Run(actions).db, nonce)
    ensures var s := Run(actions);
            var id := Find(s.db, nonce);
            Validate(s.db, nonce, count) == Replay <==>
              count < 0 || exists i :: 0 <= i < |s.hist| && s.hist[i].id == id && count <= s.hist[i].count
  {
    hide Run;
    RunKeeps(actions);
    var s := Run(actions);
    var id := Find(s.db, nonce);
    ExpectedMeans(s.hist, id);
    forall i | 0 <= i < |s.hist| && s.hist[i].id == id
      ensures s.hist[i].count < Expected(s.hist, id)
    {
      BelowExpected(s.hist, id, i);
    }
  }

  lemma {:induction false} ExpectedMeans(hist: seq<Event>, id: nat)
    requires forall i :: 0 <= i < |hist| ==> hist[i].count >= 0
    ensures Expected(hist, id) >= 0
    ensures Expected(hist, id) > 0 ==>
              exists i :: 0 <= i < |hist| && hist[i].id == id && hist[i].count == Expected(hist, id) - 1
  {
    if hist != [] {
      var n := |hist| - 1;
      ExpectedMeans(hist[..n], id);
      if hist[n].id != id && Expected(hist, id) > 0 {
        var i :| 0 <= i < n && hist[..n][i].id == id && hist[..n][i].count == Expected(hist[..n], id) - 1;
        assert hist[i].id == id && hist[i].count == Expected(hist, id) - 1;
      } else if hist[n].id == id {
        assert hist[n].count == Expected(hist, id) - 1;
      }
    }
  }
}
