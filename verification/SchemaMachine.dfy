/**
  Any number of processes migrating the same schema instance at once, as a machine whose steps
  are single statements of single transactions, in any order, with a rollback possible anywhere.

  The database contributes three rules: an insert of the claimed key waits for an uncommitted
  insert of it and does nothing when the row is committed; `FOR UPDATE` waits for the row's
  holder; and a transaction sees what is committed at each statement, plus its own writes.
 */
module SchemaMachine {
  import opened Basics
  import opened SchemaPlanner
  import opened SchemaMigration

  type TxId = nat

  datatype Phase =
    | Started
    | Conflicted
    | Claimed(recorded: Option<Target>)
    | Executing(plan: Plan, todo: seq<Statement>)
    | Checking(plan: Plan, passed: nat)
    | Reading(plan: Plan)
    | Done(plan: Plan)
    | Failed(error: MigrationError)

  /** An open transaction: the schema it migrates to, and its own uncommitted writes. */
  datatype Tx = Tx(schema: Schema, phase: Phase, write: Option<Target>, own: seq<Statement>)

  datatype Committed = Committed(schema: Schema, outcome: Outcome)

  /** `owner` holds the row: by its uncommitted insert or by `FOR UPDATE`. */
  datatype Machine = Machine(db: State, owner: Option<TxId>, txs: map<TxId, Tx>, history: seq<Committed>)

  datatype Action =
    | Begin(id: TxId, schema: Schema)
    | Claim(id: TxId)
    | Lock(id: TxId)
    | Advance(id: TxId)
    | Commit(id: TxId)
    | Rollback(id: TxId)

  const INITIAL: Machine := Machine(State(None, []), None, map[], [])

  function RowSeen(db: State, tx: Tx): Option<Target> {
    if tx.write.Some? then tx.write else db.row
  }

  function PhysicalSeen(db: State, tx: Tx): seq<Statement> {
    db.physical + tx.own
  }

  predicate Holding(tx: Tx) {
    !tx.phase.Started? && !tx.phase.Conflicted?
  }

  predicate Running(tx: Tx) {
    tx.phase.Claimed? || tx.phase.Executing? || tx.phase.Checking? || tx.phase.Reading?
  }

  /** The next statement of a transaction that has the row. */
  function Next(e: Engine, db: State, tx: Tx): Tx
    requires Running(tx)
  {
    match tx.phase
    case Claimed(recorded) => Planned(tx, recorded)
    case Executing(plan, todo) =>
      if todo == [] then tx.(phase := Checking(plan, 0))
      else if !e.accepts(PhysicalSeen(db, tx), todo[0]) then tx.(phase := Failed(StatementFailed))
      else tx.(phase := Executing(plan, todo[1..]), own := tx.own + [todo[0]])
    case Checking(plan, passed) =>
      if passed < |tx.schema.checks| then
        if e.verdict(PhysicalSeen(db, tx), tx.schema.checks[passed]) != True then tx.(phase := Failed(CheckFailed))
        else tx.(phase := Checking(plan, passed + 1))
      else
        Recorded(db, tx, plan)
    case Reading(plan) =>
      if RowSeen(db, tx) == Some(tx.schema.current) then tx.(phase := Done(plan))
      else tx.(phase := Failed(RowNotRecorded))
  }

  function Planned(tx: Tx, recorded: Option<Target>): Tx {
    match PlanFor(tx.schema.current, recorded, StepsOf(tx.schema.migrations))
    case Err(error) => tx.(phase := Failed(Planning(error)))
    case Ok(plan) =>
      match Work(tx.schema, plan)
      case None => tx.(phase := Failed(MissingMigration))
      case Some(work) => tx.(phase := Executing(plan, work))
  }

  /** The compare-and-set that records completion, after which the row is read back. */
  function Recorded(db: State, tx: Tx, plan: Plan): Tx {
    if plan.AlreadyCurrent? then tx.(phase := Done(plan))
    else
      var expected := if plan.Upgrade? then plan.from else tx.schema.current;
      if RowSeen(db, tx) == Some(expected) then tx.(phase := Reading(plan), write := Some(tx.schema.current))
      else tx.(phase := Failed(RowChanged))
  }

  /** One step; `None` when the statement waits or the transaction is not at it. */
  function Apply(e: Engine, m: Machine, a: Action): Option<Machine> {
    if a.Begin? then
      if a.id in m.txs then None
      else Some(m.(txs := m.txs[a.id := Tx(a.schema, Started, None, [])]))
    else if a.id !in m.txs then None
    else
      var tx := m.txs[a.id];
      match a
      case Claim(id) =>
        if !tx.phase.Started? then None
        else if m.db.row.Some? then Some(m.(txs := m.txs[id := tx.(phase := Conflicted)]))
        else if m.owner.Some? then None
        else
          Some(m.(owner := Some(id),
                  txs := m.txs[id := tx.(phase := Claimed(None), write := Some(tx.schema.current))]))
      case Lock(id) =>
        if !tx.phase.Conflicted? || m.owner.Some? then None
        else if m.db.row.None? then Some(m.(txs := m.txs[id := tx.(phase := Failed(RowMissing))]))
        else Some(m.(owner := Some(id), txs := m.txs[id := tx.(phase := Claimed(m.db.row))]))
      case Advance(id) =>
        if !Running(tx) then None
        else Some(m.(txs := m.txs[id := Next(e, m.db, tx)]))
      case Commit(id) =>
        if !tx.phase.Done? then None
        else
          Some(Machine(State(RowSeen(m.db, tx), PhysicalSeen(m.db, tx)),
                       if m.owner == Some(id) then None else m.owner,
                       m.txs - {id},
                       m.history + [Committed(tx.schema, OutcomeOf(tx.schema, tx.phase.plan))]))
      case Rollback(id) =>
        Some(m.(owner := if m.owner == Some(id) then None else m.owner, txs := m.txs - {id}))
  }

  /** A run is a sequence of steps none of which is waiting. */
  function Run(e: Engine, m: Machine, actions: seq<Action>): Option<Machine>
    decreases |actions|
  {
    if actions == [] then Some(m)
    else
      match Apply(e, m, actions[0])
      case None => None
      case Some(next) => Run(e, next, actions[1..])
  }

  // ----- the serial account of a history -----

  /** The commits of a history, done one whole migration after another. */
  function Replay(e: Engine, history: seq<Committed>): Option<State> {
    if history == [] then Some(State(None, []))
    else
      var last := history[|history| - 1];
      match Replay(e, history[..|history| - 1])
      case None => None
      case Some(state) =>
        match MigrateSerially(e, last.schema, state)
        case Err(_) => None
        case Ok((next, outcome)) => if outcome == last.outcome then Some(next) else None
  }

  // ----- the invariant -----

  /** What an open transaction knows about the committed state. */
  predicate Consistent(e: Engine, db: State, tx: Tx) {
    var s := tx.schema;
    var plan := PlanFor(s.current, db.row, StepsOf(s.migrations));
    match tx.phase
    case Started => tx.write == None && tx.own == []
    case Conflicted => tx.write == None && tx.own == [] && db.row.Some?
    case Claimed(recorded) => recorded == db.row && Unrecorded(db, tx) && tx.own == []
    case Executing(p, todo) =>
      && Unrecorded(db, tx) && plan == Ok(p) && Work(s, p) == Some(tx.own + todo)
      && Accepted(e, db.physical, tx.own)
    case Checking(p, passed) =>
      && Unrecorded(db, tx) && plan == Ok(p) && Work(s, p) == Some(tx.own)
      && Accepted(e, db.physical, tx.own)
      && passed <= |s.checks| && Passed(e, PhysicalSeen(db, tx), s.checks[..passed])
    case Reading(p) =>
      && tx.write == Some(s.current)
      && MigrateSerially(e, s, db) == Ok((State(RowSeen(db, tx), PhysicalSeen(db, tx)), OutcomeOf(s, p)))
    case Done(p) =>
      MigrateSerially(e, s, db) == Ok((State(RowSeen(db, tx), PhysicalSeen(db, tx)), OutcomeOf(s, p)))
    case Failed(error) =>
      MigrateSerially(e, s, db) == Err(error)
  }

  predicate Unrecorded(db: State, tx: Tx) {
    tx.write == if db.row == None then Some(tx.schema.current) else None
  }

  predicate Invariant(e: Engine, m: Machine) {
    && Replay(e, m.history) == Some(m.db)
    && (m.owner.Some? ==> m.owner.value in m.txs)
    && (forall id | id in m.txs :: Holding(m.txs[id]) <==> m.owner == Some(id))
    && (forall id | id in m.txs :: Consistent(e, m.db, m.txs[id]))
  }

  lemma PlannedKeepsConsistent(e: Engine, db: State, tx: Tx)
    requires tx.phase.Claimed? && Consistent(e, db, tx)
    ensures Consistent(e, db, Planned(tx, tx.phase.recorded))
  {
    hide Walk, ChainStatements;
    if PlanFor(tx.schema.current, db.row, StepsOf(tx.schema.migrations)).Ok? {
      PlannedWorkExists(tx.schema, db.row);
      var work := Work(tx.schema, PlanFor(tx.schema.current, db.row, StepsOf(tx.schema.migrations)).value);
      assert tx.own + work.value == work.value;
    }
  }

  lemma ExecutingKeepsConsistent(e: Engine, db: State, tx: Tx)
    requires tx.phase.Executing? && Consistent(e, db, tx)
    ensures Consistent(e, db, Next(e, db, tx))
  {
    hide PlanFor, ChainStatements, Accepted;
    var todo := tx.phase.todo;
    if todo == [] {
      assert tx.own + todo == tx.own;
    } else {
      assert tx.own + todo == tx.own + [todo[0]] + todo[1..];
      AcceptedOne(e, PhysicalSeen(db, tx), todo[0]);
      AcceptedAppend(e, db.physical, tx.own, [todo[0]]);
      AcceptedAppend(e, db.physical, tx.own + [todo[0]], todo[1..]);
    }
  }

  lemma AcceptedOne(e: Engine, physical: seq<Statement>, s: Statement)
    ensures Accepted(e, physical, [s]) <==> e.accepts(physical, s)
  {
    assert [s][1..] == [];
  }

  lemma CheckingKeepsConsistent(e: Engine, db: State, tx: Tx)
    requires tx.phase.Checking? && Consistent(e, db, tx)
    ensures Consistent(e, db, Next(e, db, tx))
  {
    hide Walk, ChainStatements, Accepted;
    var checks, passed := tx.schema.checks, tx.phase.passed;
    if passed < |checks| {
      assert checks[..passed + 1] == checks[..passed] + [checks[passed]];
    } else {
      assert checks[..passed] == checks;
      assert db.physical + [] == db.physical;
    }
  }

  lemma NextKeepsConsistent(e: Engine, db: State, tx: Tx)
    requires Running(tx) && Consistent(e, db, tx)
    ensures Consistent(e, db, Next(e, db, tx)) && Holding(Next(e, db, tx))
    ensures Next(e, db, tx).schema == tx.schema
  {
    match tx.phase
    case Claimed(_) => PlannedKeepsConsistent(e, db, tx);
    case Executing(_, _) => ExecutingKeepsConsistent(e, db, tx);
    case Checking(_, _) => CheckingKeepsConsistent(e, db, tx);
    case Reading(_) =>
  }

  lemma CommitKeepsReplay(e: Engine, m: Machine, id: TxId)
    requires Invariant(e, m) && id in m.txs && m.txs[id].phase.Done?
    ensures var next := Apply(e, m, Commit(id)).value;
            Replay(e, next.history) == Some(next.db) && next.db.row.Some?
  {
    var next := Apply(e, m, Commit(id)).value;
    assert next.history[..|next.history| - 1] == m.history;
    assert Consistent(e, m.db, m.txs[id]);
  }

  lemma CommitKeepsInvariant(e: Engine, m: Machine, id: TxId)
    requires Invariant(e, m) && id in m.txs && m.txs[id].phase.Done?
    ensures Invariant(e, Apply(e, m, Commit(id)).value)
  {
    CommitKeepsReplay(e, m, id);
    hide Replay, MigrateSerially, PlanFor;
    var next := Apply(e, m, Commit(id)).value;
    assert Holding(m.txs[id]);
    forall other | other in next.txs
      ensures Consistent(e, next.db, next.txs[other])
      ensures Holding(next.txs[other]) <==> next.owner == Some(other)
    {
      assert Consistent(e, m.db, m.txs[other]);
      assert !Holding(m.txs[other]);
    }
  }

  predicate OthersStay(m: Machine, next: Machine, id: TxId) {
    next.txs - {id} == m.txs - {id}
  }

  /** A transaction alone moves on, the committed state stays, and the row changes hands only with
      the phase. */
  lemma MoveKeepsInvariant(e: Engine, m: Machine, next: Machine, id: TxId)
    requires Invariant(e, m) && next.db == m.db && next.history == m.history
    requires next.owner == m.owner || next.owner == Some(id) || (m.owner == Some(id) && next.owner == None)
    requires OthersStay(m, next, id) && (next.owner == Some(id) ==> id in next.txs)
    requires m.owner.Some? && m.owner != Some(id) ==> next.owner == m.owner
    requires id in next.txs ==> Consistent(e, m.db, next.txs[id]) && (Holding(next.txs[id]) <==> next.owner == Some(id))
    ensures Invariant(e, next)
  {
    hide Replay, Consistent;
    forall other | other in next.txs
      ensures Consistent(e, next.db, next.txs[other])
      ensures Holding(next.txs[other]) <==> next.owner == Some(other)
    {
      if other != id {
        assert other in next.txs - {id} && (next.txs - {id})[other] == (m.txs - {id})[other];
      }
    }
    if next.owner.Some? && next.owner.value != id {
      assert next.owner.value in m.txs - {id};
    }
  }

  /** Every step keeps the invariant. */
  lemma StepKeepsInvariant(e: Engine, m: Machine, a: Action)
    requires Invariant(e, m) && Apply(e, m, a).Some?
    ensures Invariant(e, Apply(e, m, a).value)
  {
    if a.Commit? {
      CommitKeepsInvariant(e, m, a.id);
    } else {
      var next := Apply(e, m, a).value;
      assert a.id in m.txs ==> Consistent(e, m.db, m.txs[a.id]);
      if a.Advance? {
        NextKeepsConsistent(e, m.db, m.txs[a.id]);
      }
      hide Replay, MigrateSerially, PlanFor, Work, Accepted, Next;
      assert next.txs - {a.id} == m.txs - {a.id};
      MoveKeepsInvariant(e, m, next, a.id);
    }
  }

  lemma {:induction false} RunKeepsInvariant(e: Engine, m: Machine, actions: seq<Action>)
    requires Invariant(e, m) && Run(e, m, actions).Some?
    ensures Invariant(e, Run(e, m, actions).value)
    decreases |actions|
  {
    if actions != [] {
      StepKeepsInvariant(e, m, actions[0]);
      RunKeepsInvariant(e, Apply(e, m, actions[0]).value, actions[1..]);
    }
  }

  lemma InitialInvariant(e: Engine)
    ensures Invariant(e, INITIAL)
  {
  }

  predicate Reachable(e: Engine, actions: seq<Action>, m: Machine) {
    Run(e, INITIAL, actions) == Some(m)
  }

  // ----- what every run guarantees -----

  /** Interleaved migrations commit what the same migrations would have committed one after
      another, with the outcomes they reported. */
  lemma InterleavingIsSerial(e: Engine, actions: seq<Action>, m: Machine)
    requires Reachable(e, actions, m)
    ensures Replay(e, m.history) == Some(m.db)
  {
    InitialInvariant(e);
    RunKeepsInvariant(e, INITIAL, actions);
  }

  /** The row has at most one holder, and only a holder has planned, executed or failed. */
  lemma OneHolder(e: Engine, actions: seq<Action>, m: Machine, a: TxId, b: TxId)
    requires Reachable(e, actions, m)
    requires a in m.txs && b in m.txs && Holding(m.txs[a]) && Holding(m.txs[b])
    ensures a == b && m.owner == Some(a)
  {
    InitialInvariant(e);
    RunKeepsInvariant(e, INITIAL, actions);
  }

  /** A transaction fails only for the reason its migration has on the committed state. In
      particular the row never disappears and the compare-and-set never misses. */
  lemma FailuresAreSerial(e: Engine, actions: seq<Action>, m: Machine, id: TxId)
    requires Reachable(e, actions, m) && id in m.txs && m.txs[id].phase.Failed?
    ensures MigrateSerially(e, m.txs[id].schema, m.db) == Err(m.txs[id].phase.error)
    ensures m.txs[id].phase.error !in {RowMissing, RowChanged, RowNotRecorded, MissingMigration}
  {
    InitialInvariant(e);
    RunKeepsInvariant(e, INITIAL, actions);
    assert Consistent(e, m.db, m.txs[id]);
    var s := m.txs[id].schema;
    if PlanFor(s.current, m.db.row, StepsOf(s.migrations)).Ok? {
      PlannedWorkExists(s, m.db.row);
    }
  }

  /** One committed migration, seen from the outside. */
  lemma SerialStep(e: Engine, s: Schema, state: State)
    requires MigrateSerially(e, s, state).Ok?
    ensures var (next, outcome) := MigrateSerially(e, s, state).value;
            && next.row == Some(s.current) && Passed(e, next.physical, s.checks)
            && (outcome.Installed? <==> state.row == None)
            && (outcome.Installed? ==> next.physical == state.physical + s.install)
            && (outcome.Unchanged? ==> next == state)
            && (outcome.Upgraded? ==> state.row.Some? && state.row.value.version < s.current.version)
            && (state.row.Some? && state.row.value.version == s.current.version ==> next.row == state.row)
            && state.physical <= next.physical
  {
    hide Walk, ChainStatements, Accepted, Passed;
    assert state.physical + [] == state.physical;
  }

  /** A fresh install is the first commit and no other. */
  lemma {:induction false} InstalledOnce(e: Engine, history: seq<Committed>, i: nat)
    requires Replay(e, history).Some? && i < |history|
    ensures history[i].outcome.Installed? <==> i == 0
    ensures Replay(e, history).value.row.Some?
  {
    hide MigrateSerially;
    var before := history[..|history| - 1];
    var state := Replay(e, before).value;
    SerialStep(e, history[|history| - 1].schema, state);
    if before != [] {
      InstalledOnce(e, before, if i < |before| then i else 0);
      assert i < |before| ==> before[i] == history[i];
    }
  }

  /** However many processes race, at most one fresh install ever commits. */
  lemma OneInstallCommits(e: Engine, actions: seq<Action>, m: Machine, i: nat, j: nat)
    requires Reachable(e, actions, m) && i < |m.history| && j < |m.history|
    requires m.history[i].outcome.Installed? && m.history[j].outcome.Installed?
    ensures i == j == 0
  {
    InterleavingIsSerial(e, actions, m);
    InstalledOnce(e, m.history, i);
    InstalledOnce(e, m.history, j);
  }

  /** The committed states between the commits of a history, each made by the migration committed
      next: from its declared statements and nothing else. */
  ghost predicate Accounts(e: Engine, history: seq<Committed>, states: seq<State>) {
    && |states| == |history| + 1 && states[0] == State(None, [])
    && forall i | 0 <= i < |history| :: MigratedBetween(e, history, states, i)
  }

  ghost predicate MigratedBetween(e: Engine, history: seq<Committed>, states: seq<State>, i: nat)
    requires i < |history| && i + 1 < |states|
  {
    Migrated(e, history[i].schema, states[i], states[i + 1], history[i].outcome)
  }

  /** Replaying a history and accounting for it come to the same. */
  lemma {:induction false} ReplayAccounts(e: Engine, history: seq<Committed>) returns (states: seq<State>)
    requires Replay(e, history).Some?
    ensures Accounts(e, history, states) && states[|history|] == Replay(e, history).value
  {
    hide MigrateSerially, Migrated;
    if history == [] {
      states := [State(None, [])];
    } else {
      var n := |history| - 1;
      var earlier := ReplayAccounts(e, history[..n]);
      var next := Replay(e, history).value;
      MigratesExactly(e, history[n].schema, earlier[n], next, history[n].outcome);
      states := earlier + [next];
      forall i | 0 <= i < |history|
        ensures MigratedBetween(e, history, states, i)
      {
        assert i < n ==> MigratedBetween(e, history[..n], earlier, i);
      }
    }
  }

  lemma {:induction false} AccountReplays(e: Engine, history: seq<Committed>, states: seq<State>)
    requires Accounts(e, history, states)
    ensures Replay(e, history) == Some(states[|history|])
  {
    hide MigrateSerially, Migrated;
    if history != [] {
      var n := |history| - 1;
      var fewer, earlier := history[..n], states[..n + 1];
      forall i | 0 <= i < |fewer|
        ensures MigratedBetween(e, fewer, earlier, i)
      {
        assert MigratedBetween(e, history, states, i);
      }
      AccountReplays(e, fewer, earlier);
      assert MigratedBetween(e, history, states, n);
      MigratesExactly(e, history[n].schema, states[n], states[n + 1], history[n].outcome);
    }
  }

  /** The ledger agrees with the physical schema in every reachable state: nothing is recorded and
      nothing applied, or every commit added exactly the statements of its install or of its
      upgrade's migrations, step by step and in order, and the last commit's version is recorded
      with its checks true. */
  lemma LedgerAgreesWithSchema(e: Engine, actions: seq<Action>, m: Machine) returns (states: seq<State>)
    requires Reachable(e, actions, m)
    ensures Accounts(e, m.history, states) && states[|m.history|] == m.db
    ensures m.history == [] ==> m.db == State(None, [])
    ensures m.history != [] ==>
              var last := m.history[|m.history| - 1].schema;
              && m.db.row == Some(last.current) && AllPassed(e, m.db.physical, last.checks)
              && m.history[0].schema.install <= m.db.physical
  {
    hide MigrateSerially;
    InterleavingIsSerial(e, actions, m);
    states := ReplayAccounts(e, m.history);
    if m.history != [] {
      assert MigratedBetween(e, m.history, states, |m.history| - 1);
      ReplayOfPrefix(e, m.history, 1);
      InstalledOnce(e, m.history, 0);
      SerialStep(e, m.history[0].schema, State(None, []));
      assert m.history[..1][..0] == [] && m.history[..1][0] == m.history[0];
      assert [] + m.history[0].schema.install == m.history[0].schema.install;
    }
  }

  /** Committing an upgrade adds, to what was there, the statements of the migration declared for
      each of its steps, in the order of the chain. */
  lemma CommittedUpgradeRanItsSteps(e: Engine, actions: seq<Action>, m: Machine, id: TxId)
    returns (chain: seq<Step>, stages: seq<seq<Statement>>)
    requires Reachable(e, actions, m) && id in m.txs && m.txs[id].phase.Done? && m.txs[id].phase.plan.Upgrade?
    ensures var s, next := m.txs[id].schema, Apply(e, m, Commit(id)).value;
            && m.db.row.Some? && next.db.row == Some(s.current)
            && next.history == m.history + [Committed(s, Upgraded(m.db.row.value.version, s.current.version, |chain|))]
            && LeadsThrough(s, m.db.row.value, chain, stages, m.db.physical, next.db.physical)
            && AcceptedAfter(e, |m.db.physical|, next.db.physical) && AllPassed(e, next.db.physical, s.checks)
  {
    InitialInvariant(e);
    RunKeepsInvariant(e, INITIAL, actions);
    var s, next := m.txs[id].schema, Apply(e, m, Commit(id)).value;
    assert Consistent(e, m.db, m.txs[id]);
    hide MigrateSerially, AcceptedAfter, AllPassed, LeadsThrough, Replay;
    var outcome := OutcomeOf(s, m.txs[id].phase.plan);
    MigratesExactly(e, s, m.db, next.db, outcome);
    chain, stages :| |chain| == outcome.stepsApplied &&
                     LeadsThrough(s, m.db.row.value, chain, stages, m.db.physical, next.db.physical);
  }

  lemma {:induction false} ReplayOfPrefix(e: Engine, history: seq<Committed>, n: nat)
    requires Replay(e, history).Some? && n <= |history|
    ensures Replay(e, history[..n]).Some?
    ensures Replay(e, history[..n]).value.physical <= Replay(e, history).value.physical
    ensures var a, b := Replay(e, history[..n]).value.row, Replay(e, history).value.row;
            a.Some? ==> b.Some? && a.value.version <= b.value.version &&
                        (a.value.version == b.value.version ==> a == b)
    decreases |history|
  {
    hide MigrateSerially;
    if n == |history| {
      assert history[..n] == history;
    } else {
      var before := history[..|history| - 1];
      ReplayOfPrefix(e, before, n);
      assert before[..n] == history[..n];
      var s, state := history[|history| - 1].schema, Replay(e, before).value;
      SerialStep(e, s, state);
    }
  }

  lemma {:induction false} RunExtendsHistory(e: Engine, m: Machine, actions: seq<Action>)
    requires Run(e, m, actions).Some?
    ensures m.history <= Run(e, m, actions).value.history
    decreases |actions|
  {
    if actions != [] {
      RunExtendsHistory(e, Apply(e, m, actions[0]).value, actions[1..]);
    }
  }

  /** The committed version never decreases along a run, a version keeps the fingerprint it was
      recorded with, and no applied statement is ever undone. */
  lemma VersionNeverDecreases(e: Engine, actions: seq<Action>, m: Machine, more: seq<Action>)
    requires Reachable(e, actions, m) && Run(e, m, more).Some?
    ensures var later := Run(e, m, more).value.db;
            && m.db.physical <= later.physical
            && (m.db.row.Some? ==>
                  && later.row.Some? && m.db.row.value.version <= later.row.value.version
                  && (m.db.row.value.version == later.row.value.version ==> later.row == m.db.row))
  {
    hide Replay;
    InitialInvariant(e);
    RunKeepsInvariant(e, INITIAL, actions);
    RunKeepsInvariant(e, m, more);
    RunExtendsHistory(e, m, more);
    var later := Run(e, m, more).value;
    assert later.history[..|m.history|] == m.history;
    ReplayOfPrefix(e, later.history, |m.history|);
  }

  // ----- no holder is ever stuck -----

  function Remaining(tx: Tx): (nat, nat, nat) {
    match tx.phase
    case Claimed(_) => (4, 0, 0)
    case Executing(_, todo) => (3, |todo|, 0)
    case Reading(_) => (1, 0, 0)
    case Checking(_, passed) => (2, 0, if passed < |tx.schema.checks| then |tx.schema.checks| - passed else 0)
    case _ => (0, 0, 0)
  }

  /** The transaction is at its end: it has failed as its migration fails on the committed state,
      or its commit makes the state its migration makes. */
  predicate EndsAsItsMigration(e: Engine, m: Machine, id: TxId) {
    id in m.txs &&
    match MigrateSerially(e, m.txs[id].schema, m.db)
    case Err(error) => m.txs[id].phase == Failed(error)
    case Ok((next, outcome)) =>
      Apply(e, m, Commit(id)).Some? && Apply(e, m, Commit(id)).value.db == next
  }

  lemma HolderAdvances(e: Engine, m: Machine, id: TxId)
    requires Invariant(e, m) && m.owner == Some(id) && Running(m.txs[id])
    ensures var next := Apply(e, m, Advance(id));
            && next.Some? && Invariant(e, next.value) && next.value.owner == Some(id) && next.value.db == m.db
            && next.value.txs[id] == Next(e, m.db, m.txs[id])
            && next.value.txs[id].schema == m.txs[id].schema
  {
    assert Consistent(e, m.db, m.txs[id]);
    NextKeepsConsistent(e, m.db, m.txs[id]);
    StepKeepsInvariant(e, m, Advance(id));
  }

  predicate LessRemains(a: Tx, b: Tx) {
    var x, y := Remaining(a), Remaining(b);
    x.0 < y.0 || (x.0 == y.0 && (x.1 < y.1 || (x.1 == y.1 && x.2 < y.2)))
  }

  lemma RemainingDecreases(e: Engine, db: State, tx: Tx)
    requires Running(tx)
    ensures LessRemains(Next(e, db, tx), tx)
  {
    hide PlanFor, Work;
  }

  lemma HolderEnds(e: Engine, m: Machine, id: TxId)
    requires Invariant(e, m) && m.owner == Some(id) && !Running(m.txs[id])
    ensures EndsAsItsMigration(e, m, id)
  {
    assert Holding(m.txs[id]) && Consistent(e, m.db, m.txs[id]);
    hide MigrateSerially;
  }

  /** From any reachable state the holder runs to its end without waiting, whatever the others do
      not do, and ends as its migration ends on the committed state. */
  lemma {:induction false} HolderFinishes(e: Engine, m: Machine, id: TxId) returns (actions: seq<Action>)
    requires Invariant(e, m) && m.owner == Some(id)
    ensures var end := Run(e, m, actions);
            && end.Some? && end.value.db == m.db && id in end.value.txs
            && end.value.txs[id].schema == m.txs[id].schema && EndsAsItsMigration(e, end.value, id)
    decreases Remaining(m.txs[id]).0, Remaining(m.txs[id]).1, Remaining(m.txs[id]).2
  {
    assert id in m.txs;
    hide Apply, MigrateSerially, Invariant, Remaining, Next, EndsAsItsMigration;
    if Running(m.txs[id]) {
      HolderAdvances(e, m, id);
      RemainingDecreases(e, m.db, m.txs[id]);
      var rest := HolderFinishes(e, Apply(e, m, Advance(id)).value, id);
      actions := [Advance(id)] + rest;
      assert actions[1..] == rest;
    } else {
      HolderEnds(e, m, id);
      actions := [];
    }
  }
}
