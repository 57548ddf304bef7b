/**
  Admission against activation: any number of transactions and epoch activations on any number of
  protocol relations, one statement at a time in any order. An activation holds its relation
  exclusively from its lock to its commit, and so waits for every shared holder.
 */
module AdmissionMachine {
  import opened Basics
  import opened Admission

  type TxId = nat

  /** Where the library is between two statements of one transaction. */
  datatype Phase =
    | Idle
    | Locked(relation: Relation)
    | LedgerOpen
    | LedgerFailed
    | LedgerDone

  datatype Client = Client(session: Session, admitted: set<Relation>, phase: Phase)

  /** What became visible to others, in order. */
  datatype Event =
    | Activated(relation: Relation, records: seq<Record>)
    | Finished(work: set<Relation>)

  datatype Machine = Machine(db: Database, exclusive: set<Relation>, clients: map<TxId, Client>, history: seq<Event>)

  /** A statement of caller SQL. */
  datatype CallerSql =
    | Savepoint(name: string)
    | RollbackToSavepoint(name: string)
    | ReleaseSavepoint(name: string)
    | OtherQuery
    | FailingQuery

  datatype Action =
    | Begin(id: TxId, isolation: Isolation)
    | Borrow(id: TxId, sql: CallerSql)
    | Admit(id: TxId, relation: Relation)
    | Read(id: TxId)
    | Work(id: TxId, relation: Relation)
    | Break(id: TxId)
    | LedgerSavepoint(id: TxId)
    | LedgerCreate(id: TxId, created: bool)
    | LedgerRollback(id: TxId)
    | LedgerRelease(id: TxId)
    | Commit(id: TxId)
    | Rollback(id: TxId)
    | ActivateLock(target: Relation)
    | ActivateCommit(target: Relation, records: seq<Record>)
    | ActivateAbort(target: Relation)

  function Initial(db: Database): Machine {
    Machine(db, {}, map[], [])
  }

  function RunCallerSql(s: Session, db: Database, sql: CallerSql): Session
    requires Shaped(s)
  {
    match sql
    case Savepoint(name) => SetSavepoint(s, name)
    case RollbackToSavepoint(name) => RollbackTo(s, name)
    case ReleaseSavepoint(name) => Release(s, name)
    case OtherQuery => Query(s, db)
    case FailingQuery => Fail(s)
  }

  /** A step of one transaction that is neither its begin nor its end. `None` when it waits for an
      activation's lock or is not at this point. */
  function ClientStep(db: Database, exclusive: set<Relation>, c: Client, a: Action): Option<Client>
    requires Shaped(c.session)
  {
    match a
    case Borrow(_, sql) =>
      if !c.phase.Idle? then None
      else Some(Client(RunCallerSql(c.session, db, sql), {}, Idle))
    case Admit(_, relation) =>
      if !c.phase.Idle? then None
      else if relation in c.admitted || c.session.failed then Some(c)
      else if relation in exclusive then None
      else
        var locked := LockShared(c.session, db, relation);
        Some(c.(session := locked, phase := if locked.failed then Idle else Locked(relation)))
    case Read(_) =>
      if !c.phase.Locked? then None
      else
        var session := Query(c.session, db);
        var ok := CheckRecords(Seen(session, db, c.phase.relation), session.isolation).Ok?;
        Some(Client(session, if ok then c.admitted + {c.phase.relation} else c.admitted, Idle))
    case Work(_, relation) =>
      if !c.phase.Idle? || relation !in c.admitted then None
      else Some(c.(session := DoWork(c.session, relation)))
    case Break(_) =>
      if !c.phase.Idle? then None else Some(c.(session := Fail(c.session)))
    case LedgerSavepoint(_) =>
      if !c.phase.Idle? then None
      else if c.session.failed then Some(c)
      else Some(c.(session := SetSavepoint(c.session, LEDGER_SAVEPOINT), phase := LedgerOpen))
    case LedgerCreate(_, created) =>
      if !c.phase.LedgerOpen? then None
      else if created then Some(c.(phase := LedgerDone))
      else Some(c.(session := Fail(c.session), phase := LedgerFailed))
    case LedgerRollback(_) =>
      if !c.phase.LedgerFailed? then None
      else Some(c.(session := RollbackTo(c.session, LEDGER_SAVEPOINT), phase := LedgerDone))
    case LedgerRelease(_) =>
      if !c.phase.LedgerDone? then None
      else Some(c.(session := Release(c.session, LEDGER_SAVEPOINT), phase := Idle))
    case _ => None
  }

  predicate HoldsShared(c: Client, relation: Relation) {
    relation in LocksOf(c.session.levels)
  }

  predicate AnyShared(m: Machine, relation: Relation) {
    exists id | id in m.clients :: HoldsShared(m.clients[id], relation)
  }

  /** Committing a failed transaction rolls it back. */
  function Ending(m: Machine, id: TxId): seq<Event>
    requires id in m.clients
  {
    var c := m.clients[id];
    if c.session.failed then [] else [Finished(WorkOf(c.session.levels))]
  }

  function Apply(m: Machine, a: Action): Option<Machine>
  {
    match a
    case Begin(id, isolation) =>
      if id in m.clients then None
      else Some(m.(clients := m.clients[id := Client(Session(isolation, [], [EMPTY_LEVEL], false, None), {}, Idle)]))
    case Commit(id) =>
      if id !in m.clients || !m.clients[id].phase.Idle? then None
      else Some(m.(clients := m.clients - {id}, history := m.history + Ending(m, id)))
    case Rollback(id) =>
      if id !in m.clients then None
      else Some(m.(clients := m.clients - {id}))
    case ActivateLock(relation) =>
      if relation !in m.db || relation in m.exclusive || AnyShared(m, relation) then None
      else Some(m.(exclusive := m.exclusive + {relation}))
    case ActivateCommit(relation, records) =>
      if relation !in m.exclusive then None
      else
        Some(m.(db := m.db[relation := records], exclusive := m.exclusive - {relation},
                history := m.history + [Activated(relation, records)]))
    case ActivateAbort(relation) =>
      if relation !in m.exclusive then None
      else Some(m.(exclusive := m.exclusive - {relation}))
    case _ =>
      if a.id !in m.clients || !Shaped(m.clients[a.id].session) then None
      else
        match ClientStep(m.db, m.exclusive, m.clients[a.id], a)
        case None => None
        case Some(c) => Some(m.(clients := m.clients[a.id := c]))
  }

  /** A run is a sequence of steps none of which is waiting. */
  function Run(m: Machine, actions: seq<Action>): Option<Machine>
    decreases |actions|
  {
    if actions == [] then Some(m)
    else
      match Apply(m, actions[0])
      case None => None
      case Some(next) => Run(next, actions[1..])
  }

  // ----- the invariant -----

  predicate SupportedIn(db: Database, relation: Relation) {
    relation in db && Supported(db[relation])
  }

  predicate AllSupported(db: Database, relations: set<Relation>) {
    forall r | r in relations :: SupportedIn(db, r)
  }

  predicate LedgerLevel(s: Session) {
    && |s.savepoints| > 0 && s.savepoints[|s.savepoints| - 1] == LEDGER_SAVEPOINT
    && |s.levels| > 0 && s.levels[|s.levels| - 1] == EMPTY_LEVEL
  }

  predicate ClientOk(db: Database, exclusive: set<Relation>, c: Client) {
    && Shaped(c.session)
    && LocksOf(c.session.levels) !! exclusive
    && AllSupported(db, WorkOf(c.session.levels))
    && (c.session.isolation == ReadCommitted ==> c.session.snapshot == None)
    && AllSupported(db, c.admitted * LocksOf(c.session.levels))
    && (!c.session.failed || c.phase.LedgerFailed? ==> c.admitted <= LocksOf(c.session.levels))
    && (c.session.failed ==> Top(c.session) == EMPTY_LEVEL)
    && match c.phase
       case Idle => true
       case Locked(r) => !c.session.failed && HoldsShared(c, r) && r in db
       case LedgerFailed => LedgerLevel(c.session)
       case LedgerOpen => LedgerLevel(c.session) && !c.session.failed
       case LedgerDone => LedgerLevel(c.session) && !c.session.failed
  }

  function DatabaseAfter(db: Database, history: seq<Event>): Database {
    if history == [] then db
    else
      var before := DatabaseAfter(db, history[..|history| - 1]);
      match history[|history| - 1]
      case Activated(relation, records) => before[relation := records]
      case Finished(_) => before
  }

  /** Every piece of work that took effect did so while the supported record was in force. */
  predicate WorkedWhenSupported(db: Database, history: seq<Event>) {
    history == [] ||
    (&& WorkedWhenSupported(db, history[..|history| - 1])
     && (history[|history| - 1].Finished? ==>
           AllSupported(DatabaseAfter(db, history[..|history| - 1]), history[|history| - 1].work)))
  }

  predicate Invariant(initial: Database, m: Machine) {
    && m.db == DatabaseAfter(initial, m.history) && WorkedWhenSupported(initial, m.history)
    && m.exclusive <= m.db.Keys
    && forall id | id in m.clients :: ClientOk(m.db, m.exclusive, m.clients[id])
  }

  lemma CallerSqlCuts(s: Session, db: Database, sql: CallerSql)
    requires Shaped(s)
    ensures var t := RunCallerSql(s, db, sql);
            Shaped(t) && LocksOf(t.levels) <= LocksOf(s.levels) && WorkOf(t.levels) <= WorkOf(s.levels)
  {
    hide LocksOf, WorkOf, Covered;
    match sql
    case Savepoint(name) => SavepointAdds(s, name);
    case RollbackToSavepoint(name) => RollbackCuts(s, name);
    case ReleaseSavepoint(name) => ReleaseMerges(s, name);
    case OtherQuery =>
    case FailingQuery => FailCuts(s);
  }

  lemma AdmitKeepsClient(db: Database, exclusive: set<Relation>, c: Client, id: TxId, relation: Relation)
    requires ClientOk(db, exclusive, c) && ClientStep(db, exclusive, c, Admit(id, relation)).Some?
    ensures ClientOk(db, exclusive, ClientStep(db, exclusive, c, Admit(id, relation)).value)
  {
    hide LocksOf, WorkOf, Covered;
    FailCuts(c.session);
    TopGrows(c.session, {relation}, {});
    assert Top(c.session).work + {} == Top(c.session).work;
  }

  lemma ReadKeepsClient(db: Database, exclusive: set<Relation>, c: Client, id: TxId)
    requires ClientOk(db, exclusive, c) && ClientStep(db, exclusive, c, Read(id)).Some?
    ensures ClientOk(db, exclusive, ClientStep(db, exclusive, c, Read(id)).value)
  {
    hide LocksOf, WorkOf, Covered, CheckRecords;
    var session := Query(c.session, db);
    CheckAcceptsExactly(Seen(session, db, c.phase.relation), session.isolation);
  }

  lemma WorkKeepsClient(db: Database, exclusive: set<Relation>, c: Client, id: TxId, relation: Relation)
    requires ClientOk(db, exclusive, c) && ClientStep(db, exclusive, c, Work(id, relation)).Some?
    ensures ClientOk(db, exclusive, ClientStep(db, exclusive, c, Work(id, relation)).value)
  {
    hide LocksOf, WorkOf, Covered;
    if !c.session.failed {
      TopGrows(c.session, {}, {relation});
      assert Top(c.session).locks + {} == Top(c.session).locks;
    }
  }

  lemma LedgerKeepsClient(db: Database, exclusive: set<Relation>, c: Client, a: Action)
    requires a.LedgerSavepoint? || a.LedgerCreate? || a.LedgerRollback? || a.LedgerRelease?
    requires ClientOk(db, exclusive, c) && ClientStep(db, exclusive, c, a).Some?
    ensures ClientOk(db, exclusive, ClientStep(db, exclusive, c, a).value)
  {
    hide LocksOf, WorkOf, Covered;
    match a
    case LedgerSavepoint(_) => SavepointAdds(c.session, LEDGER_SAVEPOINT);
    case LedgerCreate(_, _) => FailInLedgerLevel(c);
    case LedgerRollback(_) => RollbackInLedgerLevel(c);
    case LedgerRelease(_) =>
      ReleaseMerges(c.session, LEDGER_SAVEPOINT);
      assert LEDGER_SAVEPOINT in c.session.savepoints;
  }

  lemma FailInLedgerLevel(c: Client)
    requires Shaped(c.session) && LedgerLevel(c.session)
    ensures Fail(c.session).levels == c.session.levels
  {
  }

  lemma RollbackInLedgerLevel(c: Client)
    requires Shaped(c.session) && LedgerLevel(c.session)
    ensures RollbackTo(c.session, LEDGER_SAVEPOINT) == c.session.(failed := false)
  {
    var n := |c.session.savepoints|;
    assert LastIndex(c.session.savepoints, LEDGER_SAVEPOINT) == Some(n - 1);
    assert c.session.savepoints[..n] == c.session.savepoints;
    assert c.session.levels[..n] + [EMPTY_LEVEL] == c.session.levels;
  }

  lemma ClientStepKeeps(db: Database, exclusive: set<Relation>, c: Client, a: Action)
    requires ClientOk(db, exclusive, c) && ClientStep(db, exclusive, c, a).Some?
    ensures ClientOk(db, exclusive, ClientStep(db, exclusive, c, a).value)
  {
    if a.Admit? {
      AdmitKeepsClient(db, exclusive, c, a.id, a.relation);
    } else if a.Read? {
      ReadKeepsClient(db, exclusive, c, a.id);
    } else if a.Work? {
      WorkKeepsClient(db, exclusive, c, a.id, a.relation);
    } else if a.Borrow? {
      CallerSqlCuts(c.session, db, a.sql);
    } else if a.Break? {
      FailCuts(c.session);
    } else {
      LedgerKeepsClient(db, exclusive, c, a);
    }
  }

  /** Clients that hold nothing on a relation do not notice what happens to it. */
  lemma ActivationKeepsClients(initial: Database, m: Machine, a: Action)
    requires a.ActivateLock? || a.ActivateCommit? || a.ActivateAbort?
    requires Invariant(initial, m) && Apply(m, a).Some?
    ensures var next := Apply(m, a).value;
            && next.exclusive <= next.db.Keys
            && forall id | id in next.clients :: ClientOk(next.db, next.exclusive, next.clients[id])
  {
    hide LocksOf, WorkOf, Covered, DatabaseAfter, WorkedWhenSupported;
    var next := Apply(m, a).value;
    forall id | id in next.clients
      ensures ClientOk(next.db, next.exclusive, next.clients[id])
    {
      var c := m.clients[id];
      assert ClientOk(m.db, m.exclusive, c);
      WorkIsLocked(c.session.levels);
      assert a.ActivateLock? ==> !HoldsShared(c, a.target);
      assert a.ActivateCommit? ==> a.target !in LocksOf(c.session.levels);
    }
  }

  lemma HistoryGrows(initial: Database, history: seq<Event>, e: Event)
    requires WorkedWhenSupported(initial, history)
    requires e.Finished? ==> AllSupported(DatabaseAfter(initial, history), e.work)
    ensures WorkedWhenSupported(initial, history + [e])
    ensures DatabaseAfter(initial, history + [e]) ==
            if e.Activated? then DatabaseAfter(initial, history)[e.relation := e.records]
            else DatabaseAfter(initial, history)
  {
    assert (history + [e])[..|history + [e]| - 1] == history;
  }

  lemma BeginIsOk(db: Database, exclusive: set<Relation>, isolation: Isolation)
    ensures ClientOk(db, exclusive, Client(Session(isolation, [], [EMPTY_LEVEL], false, None), {}, Idle))
  {
    var levels := [EMPTY_LEVEL];
    assert levels[..0] == [];
    OneLevel(EMPTY_LEVEL);
    assert Covered(levels);
  }

  predicate ForClient(a: Action) {
    a.Borrow? || a.Admit? || a.Read? || a.Work? || a.Break? ||
    a.LedgerSavepoint? || a.LedgerCreate? || a.LedgerRollback? || a.LedgerRelease?
  }

  lemma ClientActionKeepsInvariant(initial: Database, m: Machine, a: Action)
    requires ForClient(a) && Invariant(initial, m) && Apply(m, a).Some?
    ensures Invariant(initial, Apply(m, a).value)
  {
    assert ClientOk(m.db, m.exclusive, m.clients[a.id]);
    ClientStepKeeps(m.db, m.exclusive, m.clients[a.id], a);
    hide ClientStep, ClientOk, DatabaseAfter, WorkedWhenSupported;
  }

  lemma EndKeepsInvariant(initial: Database, m: Machine, a: Action)
    requires (a.Commit? || a.Rollback?) && Invariant(initial, m) && Apply(m, a).Some?
    ensures Invariant(initial, Apply(m, a).value)
  {
    var next, session := Apply(m, a).value, m.clients[a.id].session;
    assert ClientOk(m.db, m.exclusive, m.clients[a.id]);
    assert AllSupported(m.db, WorkOf(session.levels));
    hide ClientStep, ClientOk, DatabaseAfter, WorkedWhenSupported, Shaped, LocksOf, WorkOf, AllSupported;
    assert forall id | id in next.clients :: id in m.clients && next.clients[id] == m.clients[id];
    if a.Commit? && !session.failed {
      HistoryGrows(initial, m.history, Finished(WorkOf(session.levels)));
    } else {
      assert m.history + [] == m.history;
    }
  }

  /** Every step keeps the invariant. */
  lemma StepKeepsInvariant(initial: Database, m: Machine, a: Action)
    requires Invariant(initial, m) && Apply(m, a).Some?
    ensures Invariant(initial, Apply(m, a).value)
  {
    if ForClient(a) {
      ClientActionKeepsInvariant(initial, m, a);
    } else if a.Commit? || a.Rollback? {
      EndKeepsInvariant(initial, m, a);
    } else if a.Begin? {
      BeginIsOk(m.db, m.exclusive, a.isolation);
      hide ClientStep, ClientOk, DatabaseAfter, WorkedWhenSupported;
    } else {
      ActivationKeepsClients(initial, m, a);
      if a.ActivateCommit? {
        HistoryGrows(initial, m.history, Activated(a.target, a.records));
      }
    }
  }

  lemma {:induction false} RunKeepsInvariant(initial: Database, m: Machine, actions: seq<Action>)
    requires Invariant(initial, m) && Run(m, actions).Some?
    ensures Invariant(initial, Run(m, actions).value)
    decreases |actions|
  {
    if actions != [] {
      StepKeepsInvariant(initial, m, actions[0]);
      RunKeepsInvariant(initial, Apply(m, actions[0]).value, actions[1..]);
    }
  }

  predicate Reaches(initial: Database, actions: seq<Action>, m: Machine) {
    Run(Initial(initial), actions) == Some(m)
  }

  lemma ReachableIsInvariant(initial: Database, actions: seq<Action>, m: Machine)
    requires Reaches(initial, actions, m)
    ensures Invariant(initial, m)
  {
    RunKeepsInvariant(initial, Initial(initial), actions);
  }

  // ----- what every run guarantees -----

  /** What a cache entry is meant to guarantee: the shared lock is held, the committed record is
      the supported one, and every activation has to wait. */
  ghost predicate Guaranteed(m: Machine, id: TxId, relation: Relation)
    requires id in m.clients
  {
    && HoldsShared(m.clients[id], relation) && SupportedIn(m.db, relation)
    && Apply(m, ActivateLock(relation)) == None
    && forall records :: Apply(m, ActivateCommit(relation, records)) == None
  }

  /** Locked below the innermost savepoint. */
  predicate LockedBelow(s: Session, relation: Relation)
    requires Shaped(s)
  {
    relation in LocksOf(s.levels[..|s.levels| - 1])
  }

  /** A cache entry keeps its guarantee exactly while the transaction has not failed, or its lock
      was also taken below the savepoint that the failure aborted. */
  lemma CachedMeansAdmitted(initial: Database, actions: seq<Action>, m: Machine, id: TxId, relation: Relation)
    requires Reaches(initial, actions, m) && id in m.clients && relation in m.clients[id].admitted
    ensures Shaped(m.clients[id].session)
    ensures Guaranteed(m, id, relation) <==>
            !m.clients[id].session.failed || LockedBelow(m.clients[id].session, relation)
  {
    ReachableIsInvariant(initial, actions, m);
    assert ClientOk(m.db, m.exclusive, m.clients[id]);
    var s := m.clients[id].session;
    LocksWithTop(s);
    hide LocksOf, WorkOf, Covered, DatabaseAfter, WorkedWhenSupported, Reaches;
    if HoldsShared(m.clients[id], relation) {
      assert relation in m.clients[id].admitted * LocksOf(s.levels);
      assert AnyShared(m, relation) && relation !in m.exclusive;
    }
  }

  lemma LocksWithTop(s: Session)
    requires Shaped(s)
    ensures LocksOf(s.levels) == LocksOf(s.levels[..|s.levels| - 1]) + Top(s).locks
  {
  }

  /** Seen before it happens: a failing statement leaves a cached relation its guarantee exactly
      when the lock is also held below the innermost savepoint. */
  lemma FailureKeepsGuaranteeExactly(initial: Database, actions: seq<Action>, m: Machine, id: TxId, relation: Relation)
    requires Reaches(initial, actions, m) && id in m.clients && relation in m.clients[id].admitted
    requires m.clients[id].phase.Idle? && !m.clients[id].session.failed
    ensures Shaped(m.clients[id].session) && Guaranteed(m, id, relation)
    ensures Apply(m, Break(id)).Some? && id in Apply(m, Break(id)).value.clients
    ensures Guaranteed(Apply(m, Break(id)).value, id, relation) <==> LockedBelow(m.clients[id].session, relation)
  {
    CachedMeansAdmitted(initial, actions, m, id, relation);
    ReachableIsInvariant(initial, actions, m);
    assert ClientOk(m.db, m.exclusive, m.clients[id]);
    var s := m.clients[id].session;
    RunAppend(Initial(initial), actions, Break(id));
    var next := Apply(m, Break(id)).value;
    assert next.clients[id] == m.clients[id].(session := Fail(s));
    CachedMeansAdmitted(initial, actions + [Break(id)], next, id, relation);
    assert Fail(s).levels[..|s.levels| - 1] == s.levels[..|s.levels| - 1];
  }

  /** Over whole runs, work takes effect only under the supported record, whatever savepoints the
      callers and the ledger roll back. */
  lemma CommittedWorkWasAdmitted(initial: Database, actions: seq<Action>, m: Machine)
    requires Reaches(initial, actions, m)
    ensures m.db == DatabaseAfter(initial, m.history)
    ensures forall i, r | 0 <= i < |m.history| && m.history[i].Finished? && r in m.history[i].work ::
              SupportedIn(DatabaseAfter(initial, m.history[..i]), r)
  {
    ReachableIsInvariant(initial, actions, m);
    forall i | 0 <= i < |m.history|
      ensures m.history[i].Finished? ==> AllSupported(DatabaseAfter(initial, m.history[..i]), m.history[i].work)
    {
      WorkedAt(initial, m.history, i);
    }
  }

  lemma {:induction false} WorkedAt(initial: Database, history: seq<Event>, i: nat)
    requires WorkedWhenSupported(initial, history) && i < |history|
    ensures history[i].Finished? ==> AllSupported(DatabaseAfter(initial, history[..i]), history[i].work)
  {
    var n := |history| - 1;
    if i < n {
      WorkedAt(initial, history[..n], i);
      assert history[..n][..i] == history[..i];
    }
  }

  /** Work that a transaction could still commit keeps every activation of its relation waiting. */
  lemma UncommittedWorkBlocksActivation(initial: Database, actions: seq<Action>, m: Machine, id: TxId, relation: Relation)
    requires Reaches(initial, actions, m) && id in m.clients
    requires relation in WorkOf(m.clients[id].session.levels)
    ensures relation !in m.exclusive && AnyShared(m, relation) && SupportedIn(m.db, relation)
  {
    ReachableIsInvariant(initial, actions, m);
    assert ClientOk(m.db, m.exclusive, m.clients[id]);
    WorkIsLocked(m.clients[id].session.levels);
    assert HoldsShared(m.clients[id], relation);
  }

  /** Work under a cache entry of a transaction that has not failed takes effect with its commit. */
  lemma CommitPublishesWork(initial: Database, actions: seq<Action>, m: Machine, id: TxId, relation: Relation)
    requires Reaches(initial, actions, m) && id in m.clients && relation in m.clients[id].admitted
    requires m.clients[id].phase.Idle? && !m.clients[id].session.failed
    ensures var worked := Apply(m, Work(id, relation));
            && worked.Some? && id in worked.value.clients
            && var ended := Apply(worked.value, Commit(id));
               && ended.Some? && |ended.value.history| == |m.history| + 1
               && ended.value.history[|m.history|].Finished? && relation in ended.value.history[|m.history|].work
               && WorkOf(m.clients[id].session.levels) <= ended.value.history[|m.history|].work
  {
    ReachableIsInvariant(initial, actions, m);
    assert ClientOk(m.db, m.exclusive, m.clients[id]);
    WorkIsRecorded(m.clients[id].session, relation);
    hide LocksOf, WorkOf, Covered, DatabaseAfter, WorkedWhenSupported, Reaches;
    var worked := Apply(m, Work(id, relation)).value;
    assert worked.clients[id].session == DoWork(m.clients[id].session, relation);
  }

  // ----- where the guarantees stop, and why the checks are there -----

  lemma RunCons(m: Machine, a: Action, rest: seq<Action>)
    ensures Run(m, [a] + rest) == match Apply(m, a) case None => None case Some(next) => Run(next, rest)
  {
    assert ([a] + rest)[1..] == rest;
  }

  /** A machine with one transaction. */
  function Alone(db: Database, exclusive: set<Relation>, c: Client, history: seq<Event>): Machine {
    Machine(db, exclusive, map[0 := c], history)
  }

  lemma AloneSteps(db: Database, exclusive: set<Relation>, c: Client, history: seq<Event>, a: Action)
    requires ForClient(a) && a.id == 0 && Shaped(c.session)
    requires ClientStep(db, exclusive, c, a).Some?
    ensures Apply(Alone(db, exclusive, c, history), a) ==
            Some(Alone(db, exclusive, ClientStep(db, exclusive, c, a).value, history))
  {
    hide ClientStep, Shaped;
    var next := ClientStep(db, exclusive, c, a).value;
    assert map[0 := c][0 := next] == map[0 := next];
  }

  function Holder(isolation: Isolation, level: Level, snapshot: Option<Database>): Session {
    Session(isolation, [], [level], false, snapshot)
  }

  lemma HolderLocks(isolation: Isolation, snapshot: Option<Database>, db: Database, relation: Relation)
    requires relation in db
    ensures var s := Holder(isolation, EMPTY_LEVEL, snapshot);
            && Shaped(s) && LockShared(s, db, relation) == Holder(isolation, Level({relation}, {}), snapshot)
            && Shaped(LockShared(s, db, relation)) && LocksOf(LockShared(s, db, relation).levels) == {relation}
  {
    BeginIsOk(db, {}, isolation);
    var s := Holder(isolation, EMPTY_LEVEL, snapshot);
    assert Covered(s.levels);
    assert {} + {relation} == {relation} && s.levels[..0] == [];
    TopGrows(s, {relation}, {});
    OneLevel(Level({relation}, {}));
  }

  /** An admitted transaction. */
  lemma AdmittedRun(db: Database, relation: Relation) returns (c: Client)
    requires SupportedIn(db, relation)
    ensures Run(Initial(db), [Begin(0, ReadCommitted), Admit(0, relation), Read(0)]) == Some(Alone(db, {}, c, []))
    ensures c == Client(Holder(ReadCommitted, Level({relation}, {}), None), {relation}, Idle)
    ensures Shaped(c.session)
  {
    HolderLocks(ReadCommitted, None, db, relation);
    var begun := Client(Holder(ReadCommitted, EMPTY_LEVEL, None), {}, Idle);
    var locked := Client(Holder(ReadCommitted, Level({relation}, {}), None), {}, Locked(relation));
    CheckAcceptsExactly(db[relation], ReadCommitted);
    c := locked.(admitted := {relation}, phase := Idle);
    hide Shaped, LockShared, CheckRecords;
    assert {} + {relation} == {relation};
    AloneSteps(db, {}, begun, [], Admit(0, relation));
    AloneSteps(db, {}, locked, [], Read(0));
    var m0, m1 := Alone(db, {}, begun, []), Alone(db, {}, locked, []);
    assert Apply(Initial(db), Begin(0, ReadCommitted)) == Some(m0);
    hide Apply;
    RunCons(m1, Read(0), []);
    RunCons(m0, Admit(0, relation), [Read(0)]);
    RunCons(Initial(db), Begin(0, ReadCommitted), [Admit(0, relation), Read(0)]);
    assert [Begin(0, ReadCommitted)] + [Admit(0, relation), Read(0)] == [Begin(0, ReadCommitted), Admit(0, relation), Read(0)];
    assert [Admit(0, relation)] + [Read(0)] == [Admit(0, relation), Read(0)];
    assert [Read(0)] + [] == [Read(0)];
  }

  /** The cache alone proves nothing once a statement has failed: the entry stays, the lock is
      gone and the activation goes ahead. Such a transaction commits nothing. */
  lemma FailedTransactionKeepsStaleEntry(db: Database, relation: Relation) returns (failed: Client)
    requires SupportedIn(db, relation)
    ensures Run(Initial(db), [Begin(0, ReadCommitted), Admit(0, relation), Read(0)] + [Break(0)]) ==
            Some(Alone(db, {}, failed, []))
    ensures relation in failed.admitted && !HoldsShared(failed, relation)
    ensures Apply(Alone(db, {}, failed, []), ActivateLock(relation)).Some?
    ensures Ending(Alone(db, {}, failed, []), 0) == []
  {
    var c := AdmittedRun(db, relation);
    FailingLosesLocks(c, relation);
    failed := c.(session := Fail(c.session));
    hide Fail, HoldsShared, Shaped;
    RunAppend(Initial(db), [Begin(0, ReadCommitted), Admit(0, relation), Read(0)], Break(0));
    hide Run;
    AloneSteps(db, {}, c, [], Break(0));
    ActivatesAround(db, failed, relation, []);
  }

  lemma FailingLosesLocks(c: Client, relation: Relation)
    requires Shaped(c.session) && c.session == Holder(ReadCommitted, Level({relation}, {}), None)
    ensures var failed := c.(session := Fail(c.session));
            failed.session.failed && !HoldsShared(failed, relation)
  {
    OneLevel(EMPTY_LEVEL);
    assert c.session.levels[..0] + [EMPTY_LEVEL] == [EMPTY_LEVEL];
  }

  lemma {:induction false} RunAppend(m: Machine, actions: seq<Action>, a: Action)
    requires Run(m, actions).Some?
    ensures Run(m, actions + [a]) == Apply(Run(m, actions).value, a)
    decreases |actions|
  {
    if actions == [] {
      assert actions + [a] == [a] + [];
      RunCons(m, a, []);
    } else {
      RunAppend(Apply(m, actions[0]).value, actions[1..], a);
      assert (actions + [a])[1..] == actions[1..] + [a];
    }
  }

  /** An activation past a transaction without the lock. */
  lemma ActivatesAround(db: Database, c: Client, relation: Relation, records: seq<Record>)
    requires relation in db && !HoldsShared(c, relation)
    ensures Apply(Alone(db, {}, c, []), ActivateLock(relation)) == Some(Alone(db, {relation}, c, []))
    ensures Apply(Alone(db, {relation}, c, []), ActivateCommit(relation, records)) ==
            Some(Alone(db[relation := records], {}, c, [Activated(relation, records)]))
  {
    hide HoldsShared, ClientStep;
    assert !AnyShared(Alone(db, {}, c, []), relation) && {} + {relation} == {relation};
    assert {relation} - {relation} == {};
    assert [] + [Activated(relation, records)] == [Activated(relation, records)];
  }

  /** Above READ COMMITTED an older snapshot can show the supported record after another one has
      been activated, with the lock held; this is what the isolation check refuses. */
  lemma StaleSnapshot(db: Database, relation: Relation, records: seq<Record>)
    requires SupportedIn(db, relation) && !Supported(records)
    ensures exists actions, m ::
              && Run(Initial(db), actions) == Some(m) && 0 in m.clients
              && m.clients[0].phase == Locked(relation) && HoldsShared(m.clients[0], relation)
              && Supported(Seen(Query(m.clients[0].session, m.db), m.db, relation))
              && !SupportedIn(m.db, relation)
  {
    HolderLocks(RepeatableRead, None, db, relation);
    HolderLocks(RepeatableRead, Some(db), db, relation);
    OneLevel(EMPTY_LEVEL);
    var begun := Client(Holder(RepeatableRead, EMPTY_LEVEL, None), {}, Idle);
    var early := Client(Holder(RepeatableRead, EMPTY_LEVEL, Some(db)), {}, Idle);
    var locked := Client(Holder(RepeatableRead, Level({relation}, {}), Some(db)), {}, Locked(relation));
    var later, history := db[relation := records], [Activated(relation, records)];
    var actions := [Begin(0, RepeatableRead), Borrow(0, OtherQuery), ActivateLock(relation),
                    ActivateCommit(relation, records), Admit(0, relation)];
    HolderLocks(RepeatableRead, Some(db), later, relation);
    var m0, m1 := Alone(db, {}, begun, []), Alone(db, {}, early, []);
    var m2, m3 := Alone(db, {relation}, early, []), Alone(later, {}, early, history);
    var m4 := Alone(later, {}, locked, history);
    assert Apply(Initial(db), actions[0]) == Some(m0);
    AloneSteps(db, {}, begun, [], actions[1]);
    hide Shaped, LockShared;
    ActivatesAround(db, early, relation, records);
    AloneSteps(later, {}, early, history, actions[4]);
    RunFive(Initial(db), m0, m1, m2, m3, m4, actions);
  }

  lemma RunFive(m: Machine, m0: Machine, m1: Machine, m2: Machine, m3: Machine, m4: Machine, actions: seq<Action>)
    requires |actions| == 5
    requires Apply(m, actions[0]) == Some(m0) && Apply(m0, actions[1]) == Some(m1)
    requires Apply(m1, actions[2]) == Some(m2) && Apply(m2, actions[3]) == Some(m3)
    requires Apply(m3, actions[4]) == Some(m4)
    ensures Run(m, actions) == Some(m4)
  {
    hide Apply;
    assert actions == [actions[0]] + actions[1..] && actions[1..] == [actions[1]] + actions[2..];
    assert actions[2..] == [actions[2]] + actions[3..] && actions[3..] == [actions[3]] + actions[4..];
    assert actions[4..] == [actions[4]] + [];
    RunCons(m3, actions[4], []);
    RunCons(m2, actions[3], actions[4..]);
    RunCons(m1, actions[2], actions[3..]);
    RunCons(m0, actions[1], actions[2..]);
    RunCons(m, actions[0], actions[1..]);
  }
}
