/**
  The migration planner: from the recorded version of a schema to the supported one, through
  the steps a component offers, as long as each next step is the only one possible.
 */
module SchemaPlanner {
  import opened Basics

  datatype Target = Target(version: int, fingerprint: string)

  datatype Step = Step(source: Target, target: Target)

  datatype Plan =
    | FreshInstall
    | AlreadyCurrent
    | Upgrade(from: Target, steps: seq<Step>)

  datatype PlanError =
    | InvalidTarget
    | FingerprintMismatch
    | NewerThanSupported
    | NoStep
    | SeveralSteps
    | WrongEnd

  predicate ValidTarget(t: Target) {
    t.version > 0 && t.fingerprint != ""
  }

  predicate ValidStep(current: Target, s: Step) {
    && ValidTarget(s.source) && ValidTarget(s.target)
    && s.source.version < s.target.version <= current.version
  }

  predicate ValidSteps(current: Target, steps: seq<Step>) {
    forall s | s in steps :: ValidStep(current, s)
  }

  /** The steps that leave `cursor`, in order. */
  function Matching(steps: seq<Step>, cursor: Target): (m: seq<Step>)
    ensures forall s | s in m :: s in steps && s.source == cursor
  {
    if steps == [] then []
    else (if steps[0].source == cursor then [steps[0]] else []) + Matching(steps[1..], cursor)
  }

  /** Extends `selected` step by step from `cursor` to `current`. */
  function Walk(steps: seq<Step>, current: Target, cursor: Target): Result<seq<Step>, PlanError>
    requires ValidSteps(current, steps)
    decreases current.version - cursor.version
  {
    var matching := Matching(steps, cursor);
    if matching == [] then Err(NoStep)
    else if |matching| > 1 then Err(SeveralSteps)
    else
      var step := matching[0];
      assert step in matching;
      if step.target == current then Ok([step])
      else if step.target.version >= current.version then Err(WrongEnd)
      else
        Extend([step], Walk(steps, current, step.target))
  }

  function Extend(selected: seq<Step>, rest: Result<seq<Step>, PlanError>): Result<seq<Step>, PlanError> {
    match rest
    case Err(e) => Err(e)
    case Ok(chain) => Ok(selected + chain)
  }

  lemma ExtendNothing(rest: Result<seq<Step>, PlanError>)
    ensures Extend([], rest) == rest
  {
    if rest.Ok? {
      assert [] + rest.value == rest.value;
    }
  }

  lemma ExtendTwice(a: seq<Step>, b: seq<Step>, rest: Result<seq<Step>, PlanError>)
    ensures Extend(a, Extend(b, rest)) == Extend(a + b, rest)
  {
    if rest.Ok? {
      assert a + (b + rest.value) == a + b + rest.value;
    }
  }

  function PlanFor(current: Target, recorded: Option<Target>, steps: seq<Step>): Result<Plan, PlanError> {
    if !ValidTarget(current) || !ValidSteps(current, steps) then Err(InvalidTarget)
    else
      match recorded
      case None => Ok(FreshInstall)
      case Some(from) =>
        if from == current then Ok(AlreadyCurrent)
        else if from.version == current.version then Err(FingerprintMismatch)
        else if from.version > current.version then Err(NewerThanSupported)
        else
          match Walk(steps, current, from)
          case Err(e) => Err(e)
          case Ok(chain) => Ok(Upgrade(from, chain))
  }

  // ----- the loops -----

  method ValidateUpgradeSteps(current: Target, steps: seq<Step>) returns (valid: bool)
    ensures valid <==> ValidSteps(current, steps)
    ensures valid <==> forall s | s in steps ::
              && 0 < s.source.version < s.target.version <= current.version
              && s.source.fingerprint != "" && s.target.fingerprint != ""
  {
    for i := 0 to |steps|
      invariant forall k | 0 <= k < i :: ValidStep(current, steps[k])
    {
      assert steps[i] in steps;
      if !ValidTarget(steps[i].source) || !ValidTarget(steps[i].target) {
        return false;
      }
      if steps[i].target.version <= steps[i].source.version {
        return false;
      }
      if steps[i].target.version > current.version {
        return false;
      }
    }
    return true;
  }

  method CollectMatching(steps: seq<Step>, cursor: Target) returns (m: seq<Step>)
    ensures m == Matching(steps, cursor)
  {
    m := [];
    for i := 0 to |steps|
      invariant m + Matching(steps[i..], cursor) == Matching(steps, cursor)
    {
      assert steps[i..][1..] == steps[i + 1..];
      if steps[i].source == cursor {
        m := m + [steps[i]];
      }
    }
    assert m + [] == m;
  }

  method PlanComponentSchemaMigration(current: Target, recorded: Option<Target>, steps: seq<Step>)
    returns (r: Result<Plan, PlanError>)
    ensures r == PlanFor(current, recorded, steps)
  {
    if !ValidTarget(current) {
      return Err(InvalidTarget);
    }
    var valid := ValidateUpgradeSteps(current, steps);
    if !valid {
      return Err(InvalidTarget);
    }
    if recorded == None {
      return Ok(FreshInstall);
    }
    var from := recorded.value;
    if from.version == current.version {
      return if from.fingerprint == current.fingerprint then Ok(AlreadyCurrent) else Err(FingerprintMismatch);
    }
    if from.version > current.version {
      return Err(NewerThanSupported);
    }
    var selected: seq<Step> := [];
    var cursor := from;
    ExtendNothing(Walk(steps, current, from));
    while true
      invariant cursor.version < current.version
      invariant Walk(steps, current, from) ==
                Extend(selected, Walk(steps, current, cursor))
      decreases current.version - cursor.version
    {
      var matching := CollectMatching(steps, cursor);
      if |matching| != 1 {
        return Err(if matching == [] then NoStep else SeveralSteps);
      }
      var step := matching[0];
      assert step in matching && ValidStep(current, step);
      ghost var before := selected;
      selected := selected + [step];
      if step.target.version == current.version && step.target.fingerprint == current.fingerprint {
        return Ok(Upgrade(from, selected));
      }
      if step.target.version >= current.version {
        return Err(WrongEnd);
      }
      cursor := step.target;
      ExtendTwice(before, [step], Walk(steps, current, cursor));
    }
  }

  // ----- what a plan is -----

  /** `chain` leads from `from` to `to`, and at every stop its next step is the only one offered. */
  predicate ForcedChain(steps: seq<Step>, from: Target, chain: seq<Step>, to: Target)
    decreases |chain|
  {
    if chain == [] then from == to
    else Matching(steps, from) == [chain[0]] && ForcedChain(steps, chain[0].target, chain[1..], to)
  }

  lemma {:induction false} WalkIsForcedChain(steps: seq<Step>, current: Target, cursor: Target, chain: seq<Step>)
    requires ValidSteps(current, steps) && cursor.version < current.version
    ensures Walk(steps, current, cursor) == Ok(chain) <==> ForcedChain(steps, cursor, chain, current)
    decreases current.version - cursor.version
  {
    var matching := Matching(steps, cursor);
    if |matching| == 1 {
      var step := matching[0];
      assert step in matching && ValidStep(current, step);
      if step.target.version < current.version {
        if chain != [] {
          WalkIsForcedChain(steps, current, step.target, chain[1..]);
          assert chain == [chain[0]] + chain[1..];
          if Walk(steps, current, cursor) == Ok(chain) {
            assert chain[1..] == Walk(steps, current, step.target).value;
          }
        }
      } else if chain != [] && chain[0] == step && chain[1..] != [] {
        NothingBeyondCurrent(steps, current, step.target);
      }
      if |chain| == 1 {
        assert chain == [chain[0]] && chain[1..] == [];
      }
    }
  }

  /** No step leaves a target as new as the current one. */
  lemma {:induction false} NothingBeyondCurrent(steps: seq<Step>, current: Target, cursor: Target)
    requires ValidSteps(current, steps) && cursor.version >= current.version
    ensures Matching(steps, cursor) == []
  {
    if steps != [] {
      assert steps[0] in steps;
      NothingBeyondCurrent(steps[1..], current, cursor);
    }
  }

  /** An upgrade is planned exactly when the offered steps force a chain from the recorded
      target to the current one. */
  lemma {:induction false} UpgradePlannedExactly(current: Target, recorded: Option<Target>, steps: seq<Step>, from: Target, chain: seq<Step>)
    ensures PlanFor(current, recorded, steps) == Ok(Upgrade(from, chain)) <==>
            (&& ValidTarget(current) && ValidSteps(current, steps)
             && recorded == Some(from) && from.version < current.version
             && ForcedChain(steps, from, chain, current))
  {
    if ValidTarget(current) && ValidSteps(current, steps) && recorded.Some? && recorded.value.version < current.version {
      WalkIsForcedChain(steps, current, recorded.value, chain);
    }
  }

  /** Why a walk gets no further at a target. */
  predicate StopsAt(steps: seq<Step>, current: Target, at: Target, error: PlanError) {
    && at.version < current.version
    && match error
       case NoStep => forall s | s in steps :: s.source != at
       case SeveralSteps => |Matching(steps, at)| > 1
       case WrongEnd =>
         |Matching(steps, at)| == 1 && Matching(steps, at)[0].target != current &&
         Matching(steps, at)[0].target.version >= current.version
       case _ => false
  }

  lemma {:induction false} NoneMatch(steps: seq<Step>, at: Target)
    ensures Matching(steps, at) == [] <==> forall s | s in steps :: s.source != at
  {
    forall s | s in steps && s.source == at
      ensures Matching(steps, at) != []
    {
      MatchingCounts(steps, at, s);
      assert s in multiset(steps) && s in multiset(Matching(steps, at));
    }
    if Matching(steps, at) != [] {
      assert Matching(steps, at)[0] in Matching(steps, at);
    }
  }

  /** The chain that is forced as far as it goes, and the target where it stops. */
  lemma {:induction false} WalkStops(steps: seq<Step>, current: Target, cursor: Target) returns (chain: seq<Step>, at: Target)
    requires ValidSteps(current, steps) && cursor.version < current.version && Walk(steps, current, cursor).Err?
    ensures ForcedChain(steps, cursor, chain, at) && StopsAt(steps, current, at, Walk(steps, current, cursor).error)
    decreases current.version - cursor.version
  {
    NoneMatch(steps, cursor);
    chain, at := [], cursor;
    var matching := Matching(steps, cursor);
    if |matching| == 1 && matching[0].target.version < current.version {
      assert matching[0] in matching && ValidStep(current, matching[0]);
      var rest: seq<Step>;
      rest, at := WalkStops(steps, current, matching[0].target);
      chain := [matching[0]] + rest;
      assert chain[1..] == rest;
    }
  }

  lemma {:induction false} StopsWalk(steps: seq<Step>, current: Target, cursor: Target, chain: seq<Step>, at: Target, error: PlanError)
    requires ValidSteps(current, steps) && ForcedChain(steps, cursor, chain, at) && StopsAt(steps, current, at, error)
    ensures cursor.version < current.version && Walk(steps, current, cursor) == Err(error)
    decreases |chain|
  {
    NoneMatch(steps, cursor);
    ForcedChainIsContiguous(steps, current, cursor, chain, at);
    if chain != [] {
      StopsWalk(steps, current, chain[0].target, chain[1..], at, error);
    }
  }

  ghost predicate StuckFrom(steps: seq<Step>, current: Target, from: Target, error: PlanError) {
    exists chain, at :: ForcedChain(steps, from, chain, at) && StopsAt(steps, current, at, error)
  }

  /** Every other plan and every error, each exactly when: the declarations are not valid, the
      recorded version is absent, current, of another fingerprint or newer, or the chain forced
      from it stops for want of a step, for too many, or at a wrong end. */
  lemma PlansExactly(current: Target, recorded: Option<Target>, steps: seq<Step>, error: PlanError)
    ensures var valid := ValidTarget(current) && ValidSteps(current, steps);
            var plan := PlanFor(current, recorded, steps);
            && (plan == Err(InvalidTarget) <==> !valid)
            && (plan == Ok(FreshInstall) <==> valid && recorded == None)
            && (plan == Ok(AlreadyCurrent) <==> valid && recorded == Some(current))
            && (plan == Err(FingerprintMismatch) <==>
                  valid && recorded.Some? && recorded.value.version == current.version &&
                  recorded.value.fingerprint != current.fingerprint)
            && (plan == Err(NewerThanSupported) <==> valid && recorded.Some? && recorded.value.version > current.version)
            && (error in {NoStep, SeveralSteps, WrongEnd} ==>
                  (plan == Err(error) <==> valid && recorded.Some? && StuckFrom(steps, current, recorded.value, error)))
  {
    if ValidTarget(current) && ValidSteps(current, steps) && recorded.Some? {
      var from := recorded.value;
      if from.version < current.version && Walk(steps, current, from).Err? {
        var chain, at := WalkStops(steps, current, from);
      }
      if StuckFrom(steps, current, from, error) {
        var chain, at :| ForcedChain(steps, from, chain, at) && StopsAt(steps, current, at, error);
        StopsWalk(steps, current, from, chain, at, error);
      }
      WalkErrors(steps, current, from);
    }
  }

  lemma {:induction false} WalkErrors(steps: seq<Step>, current: Target, cursor: Target)
    requires ValidSteps(current, steps)
    ensures Walk(steps, current, cursor).Err? ==> Walk(steps, current, cursor).error in {NoStep, SeveralSteps, WrongEnd}
    decreases current.version - cursor.version
  {
    var matching := Matching(steps, cursor);
    if |matching| == 1 && matching[0].target.version < current.version {
      assert matching[0] in matching && ValidStep(current, matching[0]);
      WalkErrors(steps, current, matching[0].target);
    }
  }

  /** A planned chain is drawn from the steps, contiguous from end to end, and strictly
      increasing in version. */
  lemma {:induction false} ForcedChainIsContiguous(steps: seq<Step>, current: Target, from: Target, chain: seq<Step>, to: Target)
    requires ValidSteps(current, steps) && ForcedChain(steps, from, chain, to)
    ensures forall i | 0 <= i < |chain| :: chain[i] in steps && chain[i].source.version < chain[i].target.version
    ensures forall i | 0 < i < |chain| :: chain[i].source == chain[i - 1].target
    ensures if chain == [] then from == to else chain[0].source == from && chain[|chain| - 1].target == to
    ensures from.version + |chain| <= to.version
    decreases |chain|
  {
    if chain != [] {
      var m := Matching(steps, from);
      assert chain[0] in m && ValidStep(current, chain[0]);
      ForcedChainIsContiguous(steps, current, chain[0].target, chain[1..], to);
      forall i | 0 < i < |chain|
        ensures chain[i] in steps && chain[i].source.version < chain[i].target.version
        ensures chain[i].source == chain[i - 1].target
      {
        assert chain[i] == chain[1..][i - 1];
        assert i > 1 ==> chain[i - 1] == chain[1..][i - 2];
      }
    }
  }

  lemma {:induction false} MatchingCounts(steps: seq<Step>, cursor: Target, s: Step)
    ensures multiset(Matching(steps, cursor))[s] == if s.source == cursor then multiset(steps)[s] else 0
  {
    if steps != [] {
      MatchingCounts(steps[1..], cursor, s);
      assert steps == [steps[0]] + steps[1..];
    }
  }

  lemma {:induction false} WalkIgnoresOrder(a: seq<Step>, b: seq<Step>, current: Target, cursor: Target)
    requires multiset(a) == multiset(b) && ValidSteps(current, a) && ValidSteps(current, b)
    ensures Walk(a, current, cursor) == Walk(b, current, cursor)
    decreases current.version - cursor.version
  {
    var ma, mb := Matching(a, cursor), Matching(b, cursor);
    forall s
      ensures multiset(ma)[s] == multiset(mb)[s]
    {
      MatchingCounts(a, cursor, s);
      MatchingCounts(b, cursor, s);
    }
    assert multiset(ma) == multiset(mb);
    assert |ma| == |multiset(ma)| && |mb| == |multiset(mb)|;
    if |ma| == 1 {
      assert ma[0] in multiset(mb);
      assert ma == mb;
      assert ma[0] in ma && ValidStep(current, ma[0]);
      if ma[0].target.version < current.version {
        WalkIgnoresOrder(a, b, current, ma[0].target);
      }
    }
  }

  /** The order in which a component lists its steps does not matter. */
  lemma {:induction false} PlanIgnoresOrder(current: Target, recorded: Option<Target>, a: seq<Step>, b: seq<Step>)
    requires multiset(a) == multiset(b)
    ensures PlanFor(current, recorded, a) == PlanFor(current, recorded, b)
  {
    forall s
      ensures s in a <==> s in b
    {
      assert s in a <==> s in multiset(a);
      assert s in b <==> s in multiset(b);
    }
    assert ValidSteps(current, a) <==> ValidSteps(current, b);
    if ValidSteps(current, a) && recorded.Some? {
      WalkIgnoresOrder(a, b, current, recorded.value);
    }
  }
}
