/**
  Migrating one schema instance inside a transaction: claim or lock the ledger row, plan, run the
  physical statements, check the physical shape, and record completion by compare-and-set.

  `MigrateSerially` is the whole run as a function of the committed state; the methods of
  `MigrationTx` and `Database` are proved against it.
 */
module SchemaMigration {
  import opened Basics
  import opened SchemaPlanner

  type Statement = string
  type Check = string

  /** A check must come back exactly true; false, null and a failing query all reject. */
  datatype Verdict = True | False | Unknown | QueryFailed

  /** The database engine. The physical schema is whatever the statements applied so far have
      made of it, so their sequence stands for it. */
  datatype Engine = Engine(accepts: (seq<Statement>, Statement) -> bool, verdict: (seq<Statement>, Check) -> Verdict)

  datatype Migration = Migration(step: Step, statements: seq<Statement>)

  datatype Schema = Schema(current: Target, install: seq<Statement>, migrations: seq<Migration>, checks: seq<Check>)

  /** The ledger row of the instance and the statements its physical schema was built by. */
  datatype State = State(row: Option<Target>, physical: seq<Statement>)

  datatype Outcome =
    | Installed(version: int)
    | Unchanged(version: int)
    | Upgraded(fromVersion: int, toVersion: int, stepsApplied: nat)

  datatype MigrationError =
    | Planning(error: PlanError)
    | MissingMigration
    | StatementFailed
    | CheckFailed
    | RowChanged
    | RowMissing
    | RowNotRecorded

  function StepsOf(migrations: seq<Migration>): (steps: seq<Step>)
    ensures |steps| == |migrations|
    ensures forall i | 0 <= i < |steps| :: steps[i] == migrations[i].step
  {
    seq(|migrations|, i requires 0 <= i < |migrations| => migrations[i].step)
  }

  function FindMigration(migrations: seq<Migration>, step: Step): (r: Option<Migration>)
    ensures r.Some? ==> r.value in migrations && r.value.step == step
    ensures r.None? ==> step !in StepsOf(migrations)
  {
    if migrations == [] then None
    else if migrations[0].step == step then Some(migrations[0])
    else
      assert forall s | s in StepsOf(migrations) :: s == migrations[0].step || s in StepsOf(migrations[1..]);
      FindMigration(migrations[1..], step)
  }

  /** The statements of a chain of steps, in order. */
  function ChainStatements(migrations: seq<Migration>, chain: seq<Step>): Option<seq<Statement>> {
    if chain == [] then Some([])
    else
      match FindMigration(migrations, chain[0])
      case None => None
      case Some(m) => Prepend(m.statements, ChainStatements(migrations, chain[1..]))
  }

  function Prepend(first: seq<Statement>, rest: Option<seq<Statement>>): Option<seq<Statement>> {
    match rest
    case None => None
    case Some(statements) => Some(first + statements)
  }

  predicate Accepted(e: Engine, physical: seq<Statement>, statements: seq<Statement>)
    decreases |statements|
  {
    statements == [] ||
    (e.accepts(physical, statements[0]) && Accepted(e, physical + [statements[0]], statements[1..]))
  }

  predicate Passed(e: Engine, physical: seq<Statement>, checks: seq<Check>) {
    forall i | 0 <= i < |checks| :: e.verdict(physical, checks[i]) == True
  }

  /** The statements a plan runs. */
  function Work(s: Schema, plan: Plan): Option<seq<Statement>> {
    match plan
    case FreshInstall => Some(s.install)
    case AlreadyCurrent => Some([])
    case Upgrade(_, chain) => ChainStatements(s.migrations, chain)
  }

  function OutcomeOf(s: Schema, plan: Plan): Outcome {
    match plan
    case FreshInstall => Installed(s.current.version)
    case AlreadyCurrent => Unchanged(s.current.version)
    case Upgrade(from, chain) => Upgraded(from.version, s.current.version, |chain|)
  }

  /** The run as one step on the committed state. */
  function MigrateSerially(e: Engine, s: Schema, state: State): Result<(State, Outcome), MigrationError> {
    match PlanFor(s.current, state.row, StepsOf(s.migrations))
    case Err(error) => Err(Planning(error))
    case Ok(plan) =>
      match Work(s, plan)
      case None => Err(MissingMigration)
      case Some(work) =>
        if !Accepted(e, state.physical, work) then Err(StatementFailed)
        else if !Passed(e, state.physical + work, s.checks) then Err(CheckFailed)
        else Ok((State(Some(s.current), state.physical + work), OutcomeOf(s, plan)))
  }

  // ----- the chain's statements -----

  lemma {:induction false} ChainHasStatements(migrations: seq<Migration>, chain: seq<Step>)
    requires forall i | 0 <= i < |chain| :: chain[i] in StepsOf(migrations)
    ensures ChainStatements(migrations, chain).Some?
  {
    if chain != [] {
      ChainHasStatements(migrations, chain[1..]);
    }
  }

  /** Every planned upgrade can be carried out: each of its steps has a migration. */
  lemma PlannedWorkExists(s: Schema, recorded: Option<Target>)
    requires PlanFor(s.current, recorded, StepsOf(s.migrations)).Ok?
    ensures Work(s, PlanFor(s.current, recorded, StepsOf(s.migrations)).value).Some?
  {
    var steps := StepsOf(s.migrations);
    var plan := PlanFor(s.current, recorded, steps).value;
    if plan.Upgrade? {
      UpgradePlannedExactly(s.current, recorded, steps, plan.from, plan.steps);
      ForcedChainIsContiguous(steps, s.current, plan.from, plan.steps, s.current);
      ChainHasStatements(s.migrations, plan.steps);
    }
  }

  /** The migration found for a planned step is the only one that leaves its source. */
  lemma PlannedMigrationIsUnique(s: Schema, recorded: Option<Target>, i: nat, other: Migration)
    requires var plan := PlanFor(s.current, recorded, StepsOf(s.migrations));
             && plan.Ok? && plan.value.Upgrade? && i < |plan.value.steps|
             && other in s.migrations && other.step.source == plan.value.steps[i].source
    ensures other.step == PlanFor(s.current, recorded, StepsOf(s.migrations)).value.steps[i]
  {
    var steps := StepsOf(s.migrations);
    var plan := PlanFor(s.current, recorded, steps).value;
    UpgradePlannedExactly(s.current, recorded, steps, plan.from, plan.steps);
    ForcedChainStop(steps, s.current, plan.from, plan.steps, i);
    MatchingCounts(steps, plan.steps[i].source, other.step);
    var k :| 0 <= k < |s.migrations| && s.migrations[k] == other;
    assert other.step == steps[k];
    assert other.step in multiset(steps);
    assert other.step in multiset(Matching(steps, plan.steps[i].source));
  }

  lemma {:induction false} ForcedChainStop(steps: seq<Step>, current: Target, from: Target, chain: seq<Step>, i: nat)
    requires i < |chain| && ForcedChain(steps, from, chain, current)
    ensures Matching(steps, chain[i].source) == [chain[i]]
    decreases i
  {
    assert chain[0] in Matching(steps, from);
    if i > 0 {
      ForcedChainStop(steps, current, chain[0].target, chain[1..], i - 1);
    }
  }

  lemma {:induction false} AcceptedAppend(e: Engine, physical: seq<Statement>, a: seq<Statement>, b: seq<Statement>)
    ensures Accepted(e, physical, a + b) <==> Accepted(e, physical, a) && Accepted(e, physical + a, b)
    decreases |a|
  {
    if a == [] {
      assert a + b == b && physical + a == physical;
    } else {
      assert (a + b)[1..] == a[1..] + b;
      assert physical + [a[0]] + a[1..] == physical + a;
      AcceptedAppend(e, physical + [a[0]], a[1..], b);
    }
  }

  lemma PrependNothing(rest: Option<seq<Statement>>)
    ensures Prepend([], rest) == rest
  {
    if rest.Some? {
      assert [] + rest.value == rest.value;
    }
  }

  lemma PrependTwice(a: seq<Statement>, b: seq<Statement>, rest: Option<seq<Statement>>)
    ensures Prepend(a, Prepend(b, rest)) == Prepend(a + b, rest)
  {
    if rest.Some? {
      assert a + (b + rest.value) == a + b + rest.value;
    }
  }

  lemma ChainStep(migrations: seq<Migration>, chain: seq<Step>)
    requires chain != []
    ensures match FindMigration(migrations, chain[0])
            case None => ChainStatements(migrations, chain) == None
            case Some(m) =>
              ChainStatements(migrations, chain) == Prepend(m.statements, ChainStatements(migrations, chain[1..]))
  {
  }

  lemma EmptyChain(e: Engine, migrations: seq<Migration>, physical: seq<Statement>)
    ensures ChainStatements(migrations, []) == Some([]) && Accepted(e, physical, [])
  {
  }

  // ----- what a run does, from the declarations alone -----

  /** The schema before, between and after the steps of a chain: every step adds exactly the
      statements of a migration declared for it. */
  predicate Stages(migrations: seq<Migration>, chain: seq<Step>, stages: seq<seq<Statement>>) {
    && |stages| == |chain| + 1
    && forall i | 0 <= i < |chain| :: StageOf(migrations, chain[i], stages[i], stages[i + 1])
  }

  predicate StageOf(migrations: seq<Migration>, step: Step, before: seq<Statement>, after: seq<Statement>) {
    exists m | m in migrations :: m.step == step && after == before + m.statements
  }

  /** The offered steps force this chain, and its stages lead from one schema to the other. */
  predicate LeadsThrough(s: Schema, from: Target, chain: seq<Step>, stages: seq<seq<Statement>>,
                         before: seq<Statement>, after: seq<Statement>) {
    && ForcedChain(StepsOf(s.migrations), from, chain, s.current) && Stages(s.migrations, chain, stages)
    && stages[0] == before && stages[|chain|] == after
  }

  /** Where a schema's declarations lead from a committed state, and what is reported for it. */
  ghost predicate Leads(s: Schema, before: State, after: seq<Statement>, outcome: Outcome) {
    match outcome
    case Installed(version) =>
      before.row == None && after == before.physical + s.install && version == s.current.version
    case Unchanged(version) =>
      before.row == Some(s.current) && after == before.physical && version == s.current.version
    case Upgraded(from, to, stepsApplied) =>
      && before.row.Some? && before.row.value.version == from < to == s.current.version
      && exists chain, stages | |chain| == stepsApplied ::
           LeadsThrough(s, before.row.value, chain, stages, before.physical, after)
  }

  predicate WellDeclared(s: Schema) {
    ValidTarget(s.current) && ValidSteps(s.current, StepsOf(s.migrations))
  }

  /** The database accepted every statement after the first `n`, each on top of those before it. */
  predicate AcceptedAfter(e: Engine, n: nat, physical: seq<Statement>) {
    forall i | n <= i < |physical| :: e.accepts(physical[..i], physical[i])
  }

  predicate AllPassed(e: Engine, physical: seq<Statement>, checks: seq<Check>) {
    forall c | c in checks :: e.verdict(physical, c) == True
  }

  /** A migration that succeeded. */
  ghost predicate Migrated(e: Engine, s: Schema, before: State, after: State, outcome: Outcome) {
    && WellDeclared(s) && Leads(s, before, after.physical, outcome) && after.row == Some(s.current)
    && AcceptedAfter(e, |before.physical|, after.physical) && AllPassed(e, after.physical, s.checks)
  }

  lemma {:induction false} AcceptedExactly(e: Engine, physical: seq<Statement>, statements: seq<Statement>)
    ensures Accepted(e, physical, statements) <==> AcceptedAfter(e, |physical|, physical + statements)
    decreases |statements|
  {
    if statements != [] {
      var longer := physical + [statements[0]];
      assert longer + statements[1..] == physical + statements;
      assert (physical + statements)[..|physical|] == physical && (physical + statements)[|physical|] == statements[0];
      AcceptedExactly(e, longer, statements[1..]);
    }
  }

  /** Where only one step leaves a target, only one migration is declared for it. */
  lemma OnlyMigration(migrations: seq<Migration>, step: Step, a: Migration, b: Migration)
    requires Matching(StepsOf(migrations), step.source) == [step]
    requires a in migrations && b in migrations && a.step == step && b.step == step
    ensures a == b
  {
    var steps := StepsOf(migrations);
    var i :| 0 <= i < |migrations| && migrations[i] == a;
    var j :| 0 <= j < |migrations| && migrations[j] == b;
    MatchingCounts(steps, step.source, step);
    if i < j {
      CountedTwice(steps, i, j);
    } else if j < i {
      CountedTwice(steps, j, i);
    }
  }

  lemma CountedTwice(steps: seq<Step>, i: nat, j: nat)
    requires i < j < |steps| && steps[i] == steps[j]
    ensures multiset(steps)[steps[i]] >= 2
  {
    assert steps == steps[..j] + steps[j..];
    assert steps[..j][i] == steps[i] && steps[j..][0] == steps[j];
  }

  predicate OnlySteps(migrations: seq<Migration>, chain: seq<Step>) {
    forall i | 0 <= i < |chain| :: chain[i] in StepsOf(migrations) && Matching(StepsOf(migrations), chain[i].source) == [chain[i]]
  }

  /** The stages of a chain are its statements, one step after the other. */
  lemma {:induction false} StagesAreStatements(migrations: seq<Migration>, chain: seq<Step>, stages: seq<seq<Statement>>)
    requires OnlySteps(migrations, chain) && Stages(migrations, chain, stages)
    ensures ChainStatements(migrations, chain).Some?
    ensures stages[|chain|] == stages[0] + ChainStatements(migrations, chain).value
    decreases |chain|
  {
    if chain == [] {
      assert stages[0] + [] == stages[0];
    } else {
      var first := FirstStage(migrations, chain, stages);
      StagesAreStatements(migrations, chain[1..], stages[1..]);
      hide ChainStatements, Stages, OnlySteps;
      ChainStep(migrations, chain);
      var rest := ChainStatements(migrations, chain[1..]).value;
      assert stages[0] + first + rest == stages[0] + (first + rest);
    }
  }

  lemma FirstStage(migrations: seq<Migration>, chain: seq<Step>, stages: seq<seq<Statement>>)
    returns (first: seq<Statement>)
    requires chain != [] && OnlySteps(migrations, chain) && Stages(migrations, chain, stages)
    ensures FindMigration(migrations, chain[0]).Some?
    ensures first == FindMigration(migrations, chain[0]).value.statements && stages[1] == stages[0] + first
    ensures OnlySteps(migrations, chain[1..]) && Stages(migrations, chain[1..], stages[1..])
  {
    hide Matching, StageOf;
    var found := FindMigration(migrations, chain[0]);
    first := found.value.statements;
    assert StageOf(migrations, chain[0], stages[0], stages[1]);
    StageIs(migrations, chain[0], found.value, stages[0], stages[1]);
  }

  lemma StageIs(migrations: seq<Migration>, step: Step, found: Migration, before: seq<Statement>, after: seq<Statement>)
    requires Matching(StepsOf(migrations), step.source) == [step] && found in migrations && found.step == step
    requires StageOf(migrations, step, before, after)
    ensures after == before + found.statements
  {
    var m :| m in migrations && m.step == step && after == before + m.statements;
    OnlyMigration(migrations, step, m, found);
  }

  lemma {:induction false} StagesExist(migrations: seq<Migration>, chain: seq<Step>, before: seq<Statement>)
    returns (stages: seq<seq<Statement>>)
    requires OnlySteps(migrations, chain)
    ensures Stages(migrations, chain, stages) && stages[0] == before
    decreases |chain|
  {
    stages := [before];
    if chain != [] {
      var m := FindMigration(migrations, chain[0]).value;
      assert forall i | 0 <= i < |chain| - 1 :: chain[1..][i] == chain[i + 1];
      var rest := StagesExist(migrations, chain[1..], before + m.statements);
      stages := [before] + rest;
      forall i | 0 <= i < |chain|
        ensures StageOf(migrations, chain[i], stages[i], stages[i + 1])
      {
        if i > 0 {
          assert StageOf(migrations, chain[1..][i - 1], rest[i - 1], rest[i]);
        }
      }
    }
  }

  lemma ForcedChainIsOnly(migrations: seq<Migration>, current: Target, from: Target, chain: seq<Step>)
    requires ValidSteps(current, StepsOf(migrations)) && ForcedChain(StepsOf(migrations), from, chain, current)
    ensures OnlySteps(migrations, chain)
  {
    var steps := StepsOf(migrations);
    ForcedChainIsContiguous(steps, current, from, chain, current);
    forall i | 0 <= i < |chain|
      ensures Matching(steps, chain[i].source) == [chain[i]]
    {
      ForcedChainStop(steps, current, from, chain, i);
    }
  }

  /** A plan's work leads where the declarations lead. */
  lemma WorkLeads(s: Schema, before: State, after: seq<Statement>, outcome: Outcome)
    requires WellDeclared(s)
    ensures Leads(s, before, after, outcome) <==>
            var plan := PlanFor(s.current, before.row, StepsOf(s.migrations));
            && plan.Ok? && OutcomeOf(s, plan.value) == outcome && Work(s, plan.value).Some?
            && after == before.physical + Work(s, plan.value).value
  {
    hide ChainStatements, Walk, ForcedChain, StageOf;
    assert before.physical + [] == before.physical;
    var steps := StepsOf(s.migrations);
    if outcome.Upgraded? && before.row.Some? {
      var from := before.row.value;
      if Leads(s, before, after, outcome) {
        var chain, stages :| |chain| == outcome.stepsApplied && LeadsThrough(s, from, chain, stages, before.physical, after);
        UpgradePlannedExactly(s.current, before.row, steps, from, chain);
        ForcedChainIsOnly(s.migrations, s.current, from, chain);
        StagesAreStatements(s.migrations, chain, stages);
      }
      var plan := PlanFor(s.current, before.row, steps);
      if plan.Ok? && plan.value.Upgrade? {
        var chain := plan.value.steps;
        UpgradePlannedExactly(s.current, before.row, steps, from, chain);
        ForcedChainIsOnly(s.migrations, s.current, from, chain);
        var stages := StagesExist(s.migrations, chain, before.physical);
        StagesAreStatements(s.migrations, chain, stages);
        assert LeadsThrough(s, from, chain, stages, before.physical, stages[|chain|]);
      }
    }
  }

  lemma PassedExactly(e: Engine, physical: seq<Statement>, checks: seq<Check>)
    ensures Passed(e, physical, checks) <==> AllPassed(e, physical, checks)
  {
    assert forall i | 0 <= i < |checks| :: checks[i] in checks;
  }

  /** A migration succeeds exactly when the declarations lead from the recorded version to the
      current one, the database accepts every statement of every step in order, and every check
      comes back true; the state it makes and what it reports are then these. */
  lemma MigratesExactly(e: Engine, s: Schema, before: State, after: State, outcome: Outcome)
    ensures MigrateSerially(e, s, before) == Ok((after, outcome)) <==> Migrated(e, s, before, after, outcome)
  {
    hide Leads, Accepted, Passed, AllPassed, AcceptedAfter, PlanFor, Work;
    OnlyWellDeclaredPlans(s, before);
    if WellDeclared(s) {
      WorkLeads(s, before, after.physical, outcome);
      var plan := PlanFor(s.current, before.row, StepsOf(s.migrations));
      if plan.Ok? && Work(s, plan.value).Some? {
        var work := Work(s, plan.value).value;
        AcceptedExactly(e, before.physical, work);
        PassedExactly(e, before.physical + work, s.checks);
      }
    }
  }

  lemma OnlyWellDeclaredPlans(s: Schema, before: State)
    ensures PlanFor(s.current, before.row, StepsOf(s.migrations)).Ok? ==> WellDeclared(s)
  {
    hide Walk;
  }

  /** The other ways to end: a statement is refused on the way, or all are accepted and a check
      does not come back true. */
  lemma FailsExactly(e: Engine, s: Schema, before: State, after: seq<Statement>, outcome: Outcome)
    requires WellDeclared(s) && Leads(s, before, after, outcome)
    ensures MigrateSerially(e, s, before) == Err(StatementFailed) <==> !AcceptedAfter(e, |before.physical|, after)
    ensures MigrateSerially(e, s, before) == Err(CheckFailed) <==>
            AcceptedAfter(e, |before.physical|, after) && !AllPassed(e, after, s.checks)
  {
    hide Leads, Accepted, Passed, AllPassed, AcceptedAfter, PlanFor, Work;
    WorkLeads(s, before, after, outcome);
    var work := Work(s, PlanFor(s.current, before.row, StepsOf(s.migrations)).value).value;
    AcceptedExactly(e, before.physical, work);
    PassedExactly(e, before.physical + work, s.checks);
  }

  /** And no run ends in any other way. */
  lemma EndsAre(e: Engine, s: Schema, before: State, error: PlanError)
    ensures MigrateSerially(e, s, before) == Err(Planning(error)) <==>
            PlanFor(s.current, before.row, StepsOf(s.migrations)) == Err(error)
    ensures PlanFor(s.current, before.row, StepsOf(s.migrations)).Ok? ==>
            MigrateSerially(e, s, before).Ok? || MigrateSerially(e, s, before).error in {StatementFailed, CheckFailed}
  {
    hide Accepted, Passed, PlanFor, Work;
    if PlanFor(s.current, before.row, StepsOf(s.migrations)).Ok? {
      PlannedWorkExists(s, before.row);
    }
  }

  // ----- one transaction -----

  /** A transaction's own view of the instance: its ledger row and its physical schema. */
  class MigrationTx {
    const engine: Engine
    var row: Option<Target>
    var physical: seq<Statement>

    constructor (e: Engine, state: State)
      ensures engine == e && row == state.row && physical == state.physical
    {
      engine := e;
      row := state.row;
      physical := state.physical;
    }

    /** Claims the row by inserting the version aimed at, or locks and returns the one recorded. */
    method ClaimOrLock(current: Target) returns (recorded: Option<Target>)
      modifies this`row
      ensures recorded == old(row)
      ensures row == if old(row) == None then Some(current) else old(row)
    {
      if row == None {
        row := Some(current);
        return None;
      }
      return row;
    }

    method ExecuteStatements(statements: seq<Statement>) returns (ok: bool)
      modifies this`physical
      ensures ok <==> Accepted(engine, old(physical), statements)
      ensures ok ==> physical == old(physical) + statements
    {
      for i := 0 to |statements|
        invariant physical == old(physical) + statements[..i]
        invariant Accepted(engine, old(physical), statements) <==> Accepted(engine, physical, statements[i..])
      {
        assert statements[i..][1..] == statements[i + 1..];
        if !engine.accepts(physical, statements[i]) {
          return false;
        }
        physical := physical + [statements[i]];
        assert physical == old(physical) + statements[..i + 1];
      }
      return true;
    }

    method ExecuteChecks(checks: seq<Check>) returns (ok: bool)
      ensures ok <==> Passed(engine, physical, checks)
    {
      for i := 0 to |checks|
        invariant forall k | 0 <= k < i :: engine.verdict(physical, checks[k]) == True
      {
        if engine.verdict(physical, checks[i]) != True {
          return false;
        }
      }
      return true;
    }

    /** Reads the row back: it must hold the version and fingerprint recorded. */
    method ValidateVersionRow(current: Target) returns (valid: bool)
      ensures valid <==> row == Some(current)
    {
      if row == None {
        return false;
      }
      if row.value.version != current.version || row.value.fingerprint != current.fingerprint {
        return false;
      }
      return true;
    }

    /** The compare-and-set: it hits the row only while it still holds what was planned from, or
        the claim; the row is then read back. */
    method RecordCompletion(current: Target, prior: Option<Target>) returns (r: Result<(), MigrationError>)
      modifies this`row
      ensures var expected := if prior.Some? then prior.value else current;
              if old(row) == Some(expected) then r == Ok(()) && row == Some(current)
              else r == Err(RowChanged) && row == old(row)
    {
      var expected := if prior.Some? then prior.value else current;
      var rowsAffected := 0;
      if row == Some(expected) {
        row := Some(current);
        rowsAffected := 1;
      }
      if rowsAffected != 1 {
        return Err(RowChanged);
      }
      var valid := ValidateVersionRow(current);
      if !valid {
        return Err(RowNotRecorded);
      }
      return Ok(());
    }

    method ExecuteUpgrade(s: Schema, chain: seq<Step>) returns (r: Result<(), MigrationError>)
      modifies this`physical
      ensures match ChainStatements(s.migrations, chain)
              case None => r.Err?
              case Some(work) =>
                && (r.Ok? <==> Accepted(engine, old(physical), work))
                && (r.Ok? ==> physical == old(physical) + work)
                && (r.Err? ==> r.error == StatementFailed)
    {
      hide Accepted, ChainStatements;
      ghost var start := physical;
      ghost var done: seq<Statement> := [];
      EmptyChain(engine, s.migrations, start);
      PrependNothing(ChainStatements(s.migrations, chain));
      for i := 0 to |chain|
        invariant physical == start + done
        invariant Accepted(engine, start, done)
        invariant ChainStatements(s.migrations, chain) == Prepend(done, ChainStatements(s.migrations, chain[i..]))
      {
        ChainStep(s.migrations, chain[i..]);
        assert chain[i..][1..] == chain[i + 1..];
        var migration := FindMigration(s.migrations, chain[i]);
        if migration == None {
          return Err(MissingMigration);
        }
        var statements := migration.value.statements;
        ghost var tail := ChainStatements(s.migrations, chain[i + 1..]);
        PrependTwice(done, statements, tail);
        AcceptedAppend(engine, start, done, statements);
        if tail.Some? {
          AcceptedAppend(engine, start, done + statements, tail.value);
        }
        var ok := ExecuteStatements(statements);
        if !ok {
          return Err(StatementFailed);
        }
        done := done + statements;
      }
      assert chain[|chain|..] == [] && done + [] == done;
      return Ok(());
    }

    /** The migration inside this transaction. Success or failure and the final view are those of
        `MigrateSerially`; the compare-and-set never misses. */
    method Migrate(s: Schema) returns (r: Result<Outcome, MigrationError>)
      modifies this
      ensures match MigrateSerially(engine, s, State(old(row), old(physical)))
              case Err(error) => r == Err(error)
              case Ok((state, outcome)) => r == Ok(outcome) && row == state.row && physical == state.physical
    {
      var before := row;
      var recorded := ClaimOrLock(s.current);
      var plan := PlanComponentSchemaMigration(s.current, recorded, StepsOf(s.migrations));
      if plan.Err? {
        return Err(Planning(plan.error));
      }
      PlannedWorkExists(s, before);
      match plan.value
      case FreshInstall =>
        var ok := ExecuteStatements(s.install);
        if !ok {
          return Err(StatementFailed);
        }
        ok := ExecuteChecks(s.checks);
        if !ok {
          return Err(CheckFailed);
        }
        var completed := RecordCompletion(s.current, None);
        match completed {
          case Err(error) => return Err(error);
          case Ok(_) =>
        }
        return Ok(Installed(s.current.version));
      case AlreadyCurrent =>
        assert physical + [] == physical;
        var ok := ExecuteChecks(s.checks);
        if !ok {
          return Err(CheckFailed);
        }
        return Ok(Unchanged(s.current.version));
      case Upgrade(from, chain) =>
        var executed := ExecuteUpgrade(s, chain);
        if executed.Err? {
          return Err(executed.error);
        }
        var ok := ExecuteChecks(s.checks);
        if !ok {
          return Err(CheckFailed);
        }
        var completed := RecordCompletion(s.current, Some(from));
        match completed {
          case Err(error) => return Err(error);
          case Ok(_) =>
        }
        return Ok(Upgraded(from.version, s.current.version, |chain|));
    }
  }

  /** The pool-owned run: begin, migrate, then commit the view or roll it back. */
  class Database {
    const engine: Engine
    var state: State

    constructor (e: Engine)
      ensures engine == e && state == State(None, [])
    {
      engine := e;
      state := State(None, []);
    }

    /** A failed run leaves ledger and physical schema as they were. */
    method MigrateComponentSchema(s: Schema) returns (r: Result<Outcome, MigrationError>)
      modifies this
      ensures match MigrateSerially(engine, s, old(state))
              case Err(error) => r == Err(error) && state == old(state)
              case Ok((next, outcome)) => r == Ok(outcome) && state == next
    {
      var tx := new MigrationTx(engine, state);
      r := tx.Migrate(s);
      if r.Ok? {
        state := State(tx.row, tx.physical);
      }
    }
  }
}
