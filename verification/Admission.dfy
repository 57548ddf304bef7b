/**
  Protocol admission inside one transaction: a shared lock on the protocol relation, a check of
  its record, and a cache of the relations already admitted. The server's side of a transaction
  is its savepoint stack, with the locks and the work that each level would lose in a rollback.
 */
module Admission {
  import opened Basics

  type Relation = string

  datatype Record = Record(singleton: int, epoch: int, fingerprint: string)

  /** The committed content of every protocol relation that exists. */
  type Database = map<Relation, seq<Record>>

  datatype Isolation = ReadUncommitted | ReadCommitted | RepeatableRead | Serializable

  datatype AdmissionError = InvalidState | Incompatible(activeEpoch: int) | QueryFailed

  const SUPPORTED_EPOCH := 1
  const SUPPORTED_FINGERPRINT := "paranoid.protocol.pre9-state.v1"
  const LEDGER_SAVEPOINT := "__paranoid_schema_ledger_create"

  /** What was locked and what work was done since a savepoint. */
  datatype Level = Level(locks: set<Relation>, work: set<Relation>)

  const EMPTY_LEVEL := Level({}, {})

  /** `levels[0]` belongs to the transaction, `levels[k + 1]` to `savepoints[k]`. After an error
      the transaction is `failed` until it rolls back to a savepoint. */
  datatype Session = Session(isolation: Isolation, savepoints: seq<string>, levels: seq<Level>,
                             failed: bool, snapshot: Option<Database>)

  predicate Supported(records: seq<Record>) {
    records == [Record(1, SUPPORTED_EPOCH, SUPPORTED_FINGERPRINT)]
  }

  /** The checks on the fetched records, in the order they are made. */
  function CheckRecords(records: seq<Record>, isolation: Isolation): Result<(), AdmissionError> {
    if |records| != 1 then Err(InvalidState)
    else
      var record := records[0];
      if record.singleton != 1 || record.epoch < 1 || record.fingerprint == "" || |record.fingerprint| > 256 then
        Err(InvalidState)
      else if isolation != ReadCommitted then Err(InvalidState)
      else if record.epoch != SUPPORTED_EPOCH || record.fingerprint != SUPPORTED_FINGERPRINT then
        Err(Incompatible(record.epoch))
      else Ok(())
  }

  /** Admission accepts exactly the one supported record, read under READ COMMITTED. */
  lemma CheckAcceptsExactly(records: seq<Record>, isolation: Isolation)
    ensures CheckRecords(records, isolation).Ok? <==> Supported(records) && isolation == ReadCommitted
  {
    if |records| == 1 {
      assert records == [records[0]];
      assert |SUPPORTED_FINGERPRINT| == 31;
    }
  }

  /** A record as the relation may hold it, whatever epoch it names. */
  predicate WellFormed(record: Record) {
    record.singleton == 1 && record.epoch >= 1 && 1 <= |record.fingerprint| <= 256
  }

  /** Each rejection for its own reason: incompatible is a single well-formed record of another
      epoch or fingerprint, read under READ COMMITTED, reported with its epoch; anything else is an
      invalid state. */
  lemma CheckRejectsExactly(records: seq<Record>, isolation: Isolation, epoch: int)
    ensures CheckRecords(records, isolation) == Err(Incompatible(epoch)) <==>
            exists record :: records == [record] && WellFormed(record) && isolation == ReadCommitted && record.epoch == epoch
                          && (record.epoch != SUPPORTED_EPOCH || record.fingerprint != SUPPORTED_FINGERPRINT)
    ensures CheckRecords(records, isolation) == Err(InvalidState) <==>
            isolation != ReadCommitted || forall record | WellFormed(record) :: records != [record]
  {
    if |records| == 1 {
      assert records == [records[0]];
      forall record | records == [record]
        ensures record == records[0]
      {
        assert [record][0] == record;
      }
    }
  }

  // ----- the server's side -----

  function LocksOf(levels: seq<Level>): set<Relation> {
    if levels == [] then {} else LocksOf(levels[..|levels| - 1]) + levels[|levels| - 1].locks
  }

  function WorkOf(levels: seq<Level>): set<Relation> {
    if levels == [] then {} else WorkOf(levels[..|levels| - 1]) + levels[|levels| - 1].work
  }

  /** Whatever a rollback may keep, it keeps no work without the lock the work was done under. */
  predicate Covered(levels: seq<Level>) {
    levels == [] ||
    (levels[|levels| - 1].work <= LocksOf(levels) && Covered(levels[..|levels| - 1]))
  }

  predicate Shaped(s: Session) {
    |s.levels| == |s.savepoints| + 1 && Covered(s.levels)
  }

  /** The position of the innermost savepoint of a name. */
  function LastIndex(savepoints: seq<string>, name: string): (r: Option<nat>)
    ensures r.Some? ==> r.value < |savepoints| && savepoints[r.value] == name
    ensures r.Some? ==> name !in savepoints[r.value + 1..]
    ensures r.None? ==> name !in savepoints
  {
    if savepoints == [] then None
    else if savepoints[|savepoints| - 1] == name then Some(|savepoints| - 1)
    else
      var r := LastIndex(savepoints[..|savepoints| - 1], name);
      assert savepoints == savepoints[..|savepoints| - 1] + [savepoints[|savepoints| - 1]];
      assert r.Some? ==> savepoints[r.value + 1..] ==
                         savepoints[..|savepoints| - 1][r.value + 1..] + [savepoints[|savepoints| - 1]];
      r
  }

  /** An error aborts the innermost level at once, with its locks. */
  function Fail(s: Session): Session
    requires Shaped(s)
  {
    if s.failed then s
    else s.(failed := true, levels := s.levels[..|s.levels| - 1] + [EMPTY_LEVEL])
  }

  function SetSavepoint(s: Session, name: string): Session {
    if s.failed then s
    else s.(savepoints := s.savepoints + [name], levels := s.levels + [EMPTY_LEVEL])
  }

  function RollbackTo(s: Session, name: string): Session
    requires Shaped(s)
  {
    match LastIndex(s.savepoints, name)
    case None => Fail(s)
    case Some(k) =>
      s.(failed := false, savepoints := s.savepoints[..k + 1], levels := s.levels[..k + 1] + [EMPTY_LEVEL])
  }

  function Release(s: Session, name: string): Session
    requires Shaped(s)
  {
    if s.failed then s
    else
      match LastIndex(s.savepoints, name)
      case None => Fail(s)
      case Some(k) =>
        s.(savepoints := s.savepoints[..k],
           levels := s.levels[..k] + [Level(LocksOf(s.levels[k..]), WorkOf(s.levels[k..]))])
  }

  /** Above READ COMMITTED the first query fixes what the transaction will ever see. */
  function Query(s: Session, db: Database): Session {
    if s.failed || s.isolation in {ReadUncommitted, ReadCommitted} || s.snapshot.Some? then s
    else s.(snapshot := Some(db))
  }

  function Seen(s: Session, db: Database, relation: Relation): seq<Record> {
    var visible := if s.snapshot.Some? then s.snapshot.value else db;
    if relation in visible then visible[relation] else []
  }

  function Top(s: Session): Level
    requires Shaped(s)
  {
    s.levels[|s.levels| - 1]
  }

  function WithTop(s: Session, top: Level): Session
    requires Shaped(s)
  {
    s.(levels := s.levels[..|s.levels| - 1] + [top])
  }

  /** `LOCK TABLE ONLY … IN ACCESS SHARE MODE`, once it is granted. */
  function LockShared(s: Session, db: Database, relation: Relation): Session
    requires Shaped(s)
  {
    if s.failed then s
    else if relation !in db then Fail(s)
    else WithTop(s, Top(s).(locks := Top(s).locks + {relation}))
  }

  /** A statement of an admitted store. */
  function DoWork(s: Session, relation: Relation): Session
    requires Shaped(s)
  {
    if s.failed then s else WithTop(s, Top(s).(work := Top(s).work + {relation}))
  }

  // ----- how levels are cut and merged -----

  lemma {:induction false} SplitLevels(a: seq<Level>, b: seq<Level>)
    ensures LocksOf(a + b) == LocksOf(a) + LocksOf(b)
    ensures WorkOf(a + b) == WorkOf(a) + WorkOf(b)
    ensures Covered(a + b) ==> Covered(a) && WorkOf(b) <= LocksOf(a + b)
    decreases |b|
  {
    if b == [] {
      assert a + b == a;
    } else {
      var init := b[..|b| - 1];
      assert (a + b)[..|a + b| - 1] == a + init;
      SplitLevels(a, init);
    }
  }

  /** `levels[..k]` with one level on top. */
  lemma CutLevels(levels: seq<Level>, k: nat, top: Level)
    requires Covered(levels) && k <= |levels|
    requires top.work <= LocksOf(levels[..k]) + top.locks
    ensures var cut := levels[..k] + [top];
            && Covered(cut) && LocksOf(cut) == LocksOf(levels[..k]) + top.locks
            && WorkOf(cut) == WorkOf(levels[..k]) + top.work
    ensures LocksOf(levels[..k]) <= LocksOf(levels) && WorkOf(levels[..k]) <= WorkOf(levels)
  {
    hide LocksOf, WorkOf, Covered;
    assert levels == levels[..k] + levels[k..];
    SplitLevels(levels[..k], levels[k..]);
    PushLevel(levels[..k], top);
  }

  lemma PushLevel(levels: seq<Level>, top: Level)
    ensures LocksOf(levels + [top]) == LocksOf(levels) + top.locks
    ensures WorkOf(levels + [top]) == WorkOf(levels) + top.work
    ensures Covered(levels + [top]) <==> Covered(levels) && top.work <= LocksOf(levels) + top.locks
  {
    assert (levels + [top])[..|levels|] == levels;
  }

  lemma WorkIsLocked(levels: seq<Level>)
    requires Covered(levels)
    ensures WorkOf(levels) <= LocksOf(levels)
  {
    SplitLevels([], levels);
    assert [] + levels == levels;
  }

  lemma FailCuts(s: Session)
    requires Shaped(s)
    ensures var t := Fail(s);
            Shaped(t) && LocksOf(t.levels) <= LocksOf(s.levels) && WorkOf(t.levels) <= WorkOf(s.levels)
  {
    CutLevels(s.levels, |s.levels| - 1, EMPTY_LEVEL);
  }

  lemma RollbackCuts(s: Session, name: string)
    requires Shaped(s)
    ensures var t := RollbackTo(s, name);
            Shaped(t) && LocksOf(t.levels) <= LocksOf(s.levels) && WorkOf(t.levels) <= WorkOf(s.levels)
  {
    FailCuts(s);
    var k := LastIndex(s.savepoints, name);
    if k.Some? {
      CutLevels(s.levels, k.value + 1, EMPTY_LEVEL);
    }
  }

  /** Releasing a savepoint keeps every lock and all work. */
  lemma ReleaseMerges(s: Session, name: string)
    requires Shaped(s)
    ensures var t := Release(s, name);
            && Shaped(t) && LocksOf(t.levels) <= LocksOf(s.levels) && WorkOf(t.levels) <= WorkOf(s.levels)
            && (!t.failed ==> LocksOf(t.levels) == LocksOf(s.levels) && WorkOf(t.levels) == WorkOf(s.levels))
  {
    FailCuts(s);
    var last := LastIndex(s.savepoints, name);
    if last.Some? && !s.failed {
      var k := last.value;
      assert s.levels == s.levels[..k] + s.levels[k..];
      SplitLevels(s.levels[..k], s.levels[k..]);
      CutLevels(s.levels, k, Level(LocksOf(s.levels[k..]), WorkOf(s.levels[k..])));
    }
  }

  lemma SavepointAdds(s: Session, name: string)
    requires Shaped(s)
    ensures var t := SetSavepoint(s, name);
            Shaped(t) && LocksOf(t.levels) == LocksOf(s.levels) && WorkOf(t.levels) == WorkOf(s.levels)
  {
    assert s.levels[..|s.levels|] == s.levels;
    CutLevels(s.levels, |s.levels|, EMPTY_LEVEL);
  }

  lemma TopGrows(s: Session, locks: set<Relation>, work: set<Relation>)
    requires Shaped(s) && work <= LocksOf(s.levels) + locks
    ensures var t := WithTop(s, Level(Top(s).locks + locks, Top(s).work + work));
            && Shaped(t) && LocksOf(t.levels) == LocksOf(s.levels) + locks
            && WorkOf(t.levels) == WorkOf(s.levels) + work
  {
    WorkIsLocked(s.levels);
    CutLevels(s.levels, |s.levels| - 1, Level(Top(s).locks + locks, Top(s).work + work));
  }

  /** The ledger's own savepoint, once closed, leaves the transaction as it was: its name may
      already be in use further out. */
  lemma LedgerSavepointCloses(s: Session)
    requires Shaped(s) && !s.failed
    ensures var open := SetSavepoint(s, LEDGER_SAVEPOINT);
            && Shaped(open)
            && RollbackTo(Fail(open), LEDGER_SAVEPOINT) == open
            && Release(open, LEDGER_SAVEPOINT) == s
  {
    SavepointAdds(s, LEDGER_SAVEPOINT);
    var open := SetSavepoint(s, LEDGER_SAVEPOINT);
    var n := |s.savepoints|;
    assert LastIndex(open.savepoints, LEDGER_SAVEPOINT) == Some(n);
    FailCuts(open);
    assert Fail(open).levels == open.levels;
    assert open.levels[..n + 1] + [EMPTY_LEVEL] == open.levels;
    assert open.savepoints[..n + 1] == open.savepoints && open.savepoints[..n] == s.savepoints;
    var merged := open.levels[n..];
    assert merged == [s.levels[n]] + [EMPTY_LEVEL];
    SplitLevels([s.levels[n]], [EMPTY_LEVEL]);
    OneLevel(s.levels[n]);
    OneLevel(EMPTY_LEVEL);
    assert s.levels[n].locks + {} == s.levels[n].locks && s.levels[n].work + {} == s.levels[n].work;
    assert Level(LocksOf(merged), WorkOf(merged)) == s.levels[n];
    assert open.levels[..n] == s.levels[..n];
    assert s.levels[..n] + [s.levels[n]] == s.levels;
  }

  lemma OneLevel(l: Level)
    ensures LocksOf([l]) == l.locks && WorkOf([l]) == l.work
  {
    assert [l][..0] == [];
  }

  /** Rolling back to a savepoint makes the session what it was when the savepoint was set: its
      locks, work and savepoints; only the snapshot stays. */
  lemma RollbackRestores(s: Session, t: Session, name: string)
    requires Shaped(s) && !s.failed && Shaped(t) && |t.savepoints| > |s.savepoints| && t.isolation == s.isolation
    requires t.savepoints[..|s.savepoints| + 1] == s.savepoints + [name] && name !in t.savepoints[|s.savepoints| + 1..]
    requires t.levels[..|s.levels|] == s.levels
    ensures RollbackTo(t, name) == SetSavepoint(s, name).(snapshot := t.snapshot)
  {
    var n := |s.savepoints|;
    assert t.savepoints[n] == (s.savepoints + [name])[n] == name;
    LastIndexIs(t.savepoints, name, n);
  }

  lemma LastIndexIs(savepoints: seq<string>, name: string, n: nat)
    requires n < |savepoints| && savepoints[n] == name && name !in savepoints[n + 1..]
    ensures LastIndex(savepoints, name) == Some(n)
  {
    var k := LastIndex(savepoints, name).value;
    assert forall j | n < j < |savepoints| :: savepoints[j] == savepoints[n + 1..][j - n - 1];
  }

  /** A statement of an admitted store leaves its mark until a rollback. */
  lemma WorkIsRecorded(s: Session, relation: Relation)
    requires Shaped(s) && !s.failed && relation in LocksOf(s.levels)
    ensures var t := DoWork(s, relation);
            && Shaped(t) && WorkOf(t.levels) == WorkOf(s.levels) + {relation} && LocksOf(t.levels) == LocksOf(s.levels)
  {
    hide LocksOf, WorkOf, Covered;
    TopGrows(s, {}, {relation});
    assert Top(s).locks + {} == Top(s).locks && LocksOf(s.levels) + {} == LocksOf(s.levels);
  }

  // ----- the transaction object -----

  datatype CreateResult = Created | ConcurrentCreate | OtherError

  /** A transaction with its admission cache. */
  class Tx {
    var session: Session
    var admitted: set<Relation>

    ghost predicate Valid()
      reads this
    {
      Shaped(session)
    }

    constructor (isolation: Isolation)
      ensures Valid() && admitted == {}
      ensures session == Session(isolation, [], [EMPTY_LEVEL], false, None)
    {
      session := Session(isolation, [], [EMPTY_LEVEL], false, None);
      admitted := {};
      new;
      assert [EMPTY_LEVEL][..0] == [];
    }

    /** Lends the transaction to caller SQL, which may roll back a savepoint. */
    method SqlxTransaction()
      requires Valid()
      modifies this`admitted
      ensures Valid() && admitted == {}
    {
      admitted := {};
    }

    /** Ok exactly for a cached relation, or for one whose lock was granted and whose record is
        supported; a relation is cached only with its lock held. */
    method Admit(db: Database, relation: Relation) returns (r: Result<(), AdmissionError>)
      requires Valid()
      modifies this
      ensures Valid()
      ensures relation in old(admitted) ==> r == Ok(()) && session == old(session) && admitted == old(admitted)
      ensures relation !in old(admitted) ==>
                r == if old(session.failed) then Err(QueryFailed)
                     else if relation !in db then Err(InvalidState)
                     else CheckRecords(Seen(Query(old(session), db), db, relation), old(session.isolation))
      ensures relation !in old(admitted) ==>
                (r.Ok? <==> && !old(session.failed) && relation in db
                            && Supported(Seen(Query(old(session), db), db, relation))
                            && old(session.isolation) == ReadCommitted)
      ensures relation !in old(admitted) ==>
                session == if old(session.failed) || relation !in db then Fail(old(session))
                           else Query(LockShared(old(session), db, relation), db)
      ensures admitted == if r.Ok? then old(admitted) + {relation} else old(admitted)
      ensures r.Ok? && relation !in old(admitted) ==> relation in LocksOf(session.levels)
    {
      hide LocksOf, WorkOf, Covered, CheckRecords;
      if relation in admitted {
        assert admitted == admitted + {relation};
        return Ok(());
      }
      FailCuts(session);
      var failedBefore := session.failed;
      session := LockShared(session, db, relation);
      if session.failed {
        return Err(if failedBefore then QueryFailed else InvalidState);
      }
      TopGrows(old(session), {relation}, {});
      assert Top(old(session)).work + {} == Top(old(session)).work;
      session := Query(session, db);
      var records := Seen(session, db, relation);
      CheckAcceptsExactly(records, session.isolation);
      r := CheckRecords(records, session.isolation);
      if r.Ok? {
        admitted := admitted + {relation};
      }
    }

    /** Creates the ledger table under a savepoint of its own and absorbs a concurrent create. The
        cache is not cleared, and the transaction's locks and savepoints come back unchanged. */
    method CreateLedgerTable(outcome: CreateResult) returns (ok: bool)
      requires Valid()
      modifies this`session
      ensures Valid() && session == old(session)
      ensures ok <==> !old(session.failed) && outcome != OtherError
    {
      if session.failed {
        return false;
      }
      LedgerSavepointCloses(session);
      session := SetSavepoint(session, LEDGER_SAVEPOINT);
      match outcome
      case Created =>
        session := Release(session, LEDGER_SAVEPOINT);
        return true;
      case ConcurrentCreate =>
        FailCuts(session);
        session := Fail(session);
        session := RollbackTo(session, LEDGER_SAVEPOINT);
        session := Release(session, LEDGER_SAVEPOINT);
        return true;
      case OtherError =>
        FailCuts(session);
        session := Fail(session);
        session := RollbackTo(session, LEDGER_SAVEPOINT);
        session := Release(session, LEDGER_SAVEPOINT);
        return false;
    }
  }
}
