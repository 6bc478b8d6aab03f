/** `src/reload/executor.ts`: one transactional reload over a list of components, any call of which may fail. */
module ReloadExecutors {
  import opened Common
  import opened ReloadTransactions

  datatype Stage = Parse | Validate | Prepare | Health | Commit | Rollback | Cleanup

  /** One call under `executeReloadOperation`. Parsing and validating concern no component (index 0). */
  datatype Call = Call(stage: Stage, component: nat)

  /** How a call ends. A call that throws may nevertheless have done its work (`tookEffect`). */
  datatype Outcome = Done | Throws(message: string, tookEffect: bool)

  /** What every call of a run will do: any such function is a possible run. */
  type World = Call -> Outcome

  datatype ComponentError = ComponentError(stage: Stage, component: nat, message: string)

  // --------------------------------------------- the run, described outright

  /** The first component from i on whose call of this stage throws, or n. */
  function FirstFailing(w: World, stage: Stage, i: nat, n: nat): (k: nat)
    requires i <= n
    ensures i <= k <= n
    ensures forall j :: i <= j < k ==> w(Call(stage, j)).Done?
    ensures k < n ==> w(Call(stage, k)).Throws?
    decreases n - i
  {
    if i == n || w(Call(stage, i)).Throws? then i else FirstFailing(w, stage, i + 1, n)
  }

  /** Calls 0, 1, ..., k - 1 of a stage. */
  function Up(stage: Stage, k: nat): (s: seq<Call>)
    ensures |s| == k
  {
    seq(k, i requires 0 <= i < k => Call(stage, i))
  }

  /** Calls k - 1, ..., 1, 0 of a stage. */
  function Down(stage: Stage, k: nat): (s: seq<Call>)
    ensures |s| == k
  {
    seq(k, i requires 0 <= i < k => Call(stage, k - 1 - i))
  }

  /** The attempts of a stage whose first failing component is k of n: the failing one is the last. */
  function Attempts(stage: Stage, k: nat, n: nat): seq<Call>
    requires k <= n
  {
    Up(stage, if k < n then k + 1 else n)
  }

  predicate ParsedAndValid(w: World) {
    w(Call(Parse, 0)).Done? && w(Call(Validate, 0)).Done?
  }

  /** How many components get prepared. */
  function PreparedCount(w: World, n: nat): (k: nat)
    ensures k <= n
  {
    if ParsedAndValid(w) then FirstFailing(w, Prepare, 0, n) else 0
  }

  predicate AllPrepared(w: World, n: nat) {
    ParsedAndValid(w) && PreparedCount(w, n) == n
  }

  predicate AllHealthy(w: World, n: nat) {
    AllPrepared(w, n) && FirstFailing(w, Health, 0, n) == n
  }

  /** How many components get committed. */
  function CommittedCount(w: World, n: nat): (k: nat)
    ensures k <= n
  {
    if AllHealthy(w, n) then FirstFailing(w, Commit, 0, n) else 0
  }

  /** The failure that ends the forward part, if any. */
  function PrimaryFailure(w: World, n: nat): Option<Call> {
    if w(Call(Parse, 0)).Throws? then Some(Call(Parse, 0))
    else if w(Call(Validate, 0)).Throws? then Some(Call(Validate, 0))
    else if PreparedCount(w, n) < n then Some(Call(Prepare, PreparedCount(w, n)))
    else if FirstFailing(w, Health, 0, n) < n then Some(Call(Health, FirstFailing(w, Health, 0, n)))
    else if CommittedCount(w, n) < n then Some(Call(Commit, CommittedCount(w, n)))
    else None
  }

  /** The calls on components, once parsing and validation are done. */
  function ComponentCalls(w: World, n: nat): seq<Call> {
    Attempts(Prepare, FirstFailing(w, Prepare, 0, n), n)
    + if FirstFailing(w, Prepare, 0, n) < n then [] else CheckedCalls(w, n)
  }

  /** The calls once every component is prepared. */
  function CheckedCalls(w: World, n: nat): seq<Call> {
    Attempts(Health, FirstFailing(w, Health, 0, n), n)
    + if FirstFailing(w, Health, 0, n) < n then [] else Attempts(Commit, FirstFailing(w, Commit, 0, n), n)
  }

  /** The calls up to and including the one that fails. */
  function Forward(w: World, n: nat): seq<Call> {
    [Call(Parse, 0)]
    + if w(Call(Parse, 0)).Throws? then []
      else [Call(Validate, 0)] + if w(Call(Validate, 0)).Throws? then [] else ComponentCalls(w, n)
  }

  /** What a failed parse or validation leaves undone. */
  lemma SimpleEnds(w: World, n: nat)
    ensures w(Call(Parse, 0)).Throws? ==>
      Forward(w, n) == [Call(Parse, 0)] && PrimaryFailure(w, n) == Some(Call(Parse, 0))
    ensures w(Call(Parse, 0)).Done? && w(Call(Validate, 0)).Throws? ==>
      Forward(w, n) == [Call(Parse, 0)] + [Call(Validate, 0)] && PrimaryFailure(w, n) == Some(Call(Validate, 0))
    ensures ParsedAndValid(w) ==> Forward(w, n) == [Call(Parse, 0)] + [Call(Validate, 0)] + ComponentCalls(w, n)
    ensures !ParsedAndValid(w) ==> PreparedCount(w, n) == 0 && CommittedCount(w, n) == 0
  {
  }

  /** `fail` refuses a blank reason, and the exception it throws inside the handler ends the run there. */
  predicate Rejected(w: World, n: nat) {
    match PrimaryFailure(w, n)
    case None => false
    case Some(call) => w(call).Throws? && Blank(w(call).message)
  }

  /** How many components are asked to roll back: the committed ones after a failed commit, the prepared
      ones after an earlier failure, and none if the reason was blank. */
  function RollbackCount(w: World, n: nat): (k: nat)
    ensures k <= n
  {
    match PrimaryFailure(w, n)
    case None => 0
    case Some(call) =>
      if Rejected(w, n) then 0
      else if call.stage == Commit then CommittedCount(w, n)
      else PreparedCount(w, n)
  }

  function Backward(w: World, n: nat): seq<Call> {
    Down(Rollback, RollbackCount(w, n))
  }

  /** Every call of the run, in order. */
  function ExpectedTrace(w: World, n: nat): seq<Call> {
    Forward(w, n) + Backward(w, n) + Down(Cleanup, PreparedCount(w, n))
  }

  /** The state the transaction ends in. */
  function FinalState(w: World, n: nat): TxState {
    match PrimaryFailure(w, n)
    case None => Committed
    case Some(call) =>
      if Rejected(w, n) then StateDuring(call.stage)
      else if call.stage == Parse || call.stage == Validate then Failed
      else RolledBack
  }

  /** The errors a list of calls leaves behind, in order. */
  function ErrorsOf(w: World, calls: seq<Call>): seq<ComponentError> {
    if calls == [] then []
    else
      var last := calls[|calls| - 1];
      ErrorsOf(w, calls[..|calls| - 1])
      + (match w(last) case Done => [] case Throws(m, _) => [ComponentError(last.stage, last.component, m)])
  }

  // ----------------------------------------------------------- the executor

  datatype ExecutionResult = ExecutionResult(
    success: bool,
    state: TxState,
    failureReason: Option<string>,
    componentErrors: seq<ComponentError>,
    preparedComponents: seq<nat>,
    committedComponents: seq<nat>)

  class ReloadExecutor {
    const world: World
    /** The number of components. */
    const n: nat
    const model: ReloadTransactionModel
    var componentErrors: seq<ComponentError>
    var preparedEntries: seq<nat>
    var committedEntries: seq<nat>
    var originalFailure: Option<string>
    var primaryFailureStage: Option<Stage>

    /** The calls made so far. */
    ghost var trace: seq<Call>

    /** The error list is that of the calls made. */
    ghost predicate Valid()
      reads this`trace, this`componentErrors, model
    {
      model.Valid() && componentErrors == ErrorsOf(world, trace)
    }

    constructor (world: World, n: nat)
      ensures Valid() && fresh(model) && this.world == world && this.n == n
      ensures model.state == Idle && trace == [] && primaryFailureStage.None?
      ensures preparedEntries == [] && committedEntries == [] && originalFailure.None?
    {
      this.world, this.n := world, n;
      model := new ReloadTransactionModel();
      componentErrors, preparedEntries, committedEntries := [], [], [];
      originalFailure, primaryFailureStage := None, None;
      trace := [];
    }

    /** Makes one call; when it throws, `recordError` notes the error and the first forward stage that failed. */
    method Perform(call: Call) returns (failure: Option<string>)
      requires Valid()
      modifies this`trace, this`componentErrors, this`primaryFailureStage
      ensures Valid() && trace == old(trace) + [call]
      ensures failure == FailureMessage(world, call)
      ensures primaryFailureStage ==
        if failure.Some? && call.stage != Rollback && call.stage != Cleanup && old(primaryFailureStage).None?
        then Some(call.stage) else old(primaryFailureStage)
    {
      ghost var before := trace;
      trace := trace + [call];
      assert trace[..|trace| - 1] == before;
      match world(call) {
        case Done =>
          failure := None;
        case Throws(message, _) =>
          failure := Some(message);
          if call.stage != Rollback && call.stage != Cleanup && primaryFailureStage.None? {
            primaryFailureStage := Some(call.stage);
          }
          componentErrors := componentErrors + [ComponentError(call.stage, call.component, message)];
      }
    }

    /** How a stage ended whose first failing component is k. */
    ghost predicate StageEnd(failure: Option<string>, stage: Stage, k: nat)
      reads this`primaryFailureStage
    {
      if k < n then
        failure.Some? && failure == FailureMessage(world, Call(stage, k)) && primaryFailureStage == Some(stage)
      else failure.None? && primaryFailureStage.None?
    }

    /** `runPrepare` */
    method RunPrepare() returns (failure: Option<string>)
      requires Valid() && preparedEntries == [] && primaryFailureStage.None?
      modifies this`trace, this`componentErrors, this`primaryFailureStage, this`preparedEntries
      ensures Valid()
      ensures var k := FirstFailing(world, Prepare, 0, n);
        && trace == old(trace) + Attempts(Prepare, k, n)
        && preparedEntries == Numbers(k)
        && StageEnd(failure, Prepare, k)
    {
      failure := None;
      var i := 0;
      while i < n
        invariant 0 <= i <= n && Valid() && primaryFailureStage.None? && failure.None?
        invariant FirstFailing(world, Prepare, 0, n) == FirstFailing(world, Prepare, i, n)
        invariant trace == old(trace) + Up(Prepare, i) && preparedEntries == Numbers(i)
      {
        AttemptAppended(old(trace), Prepare, i);
        failure := Perform(Call(Prepare, i));
        if failure.Some? {
          return;
        }
        preparedEntries := preparedEntries + [i];
        i := i + 1;
      }
    }

    /** `runHealthChecks`, over the prepared entries */
    method RunHealthChecks() returns (failure: Option<string>)
      requires Valid() && preparedEntries == Numbers(n) && primaryFailureStage.None?
      modifies this`trace, this`componentErrors, this`primaryFailureStage
      ensures Valid()
      ensures var k := FirstFailing(world, Health, 0, n);
        && trace == old(trace) + Attempts(Health, k, n)
        && StageEnd(failure, Health, k)
    {
      failure := None;
      var i := 0;
      while i < |preparedEntries|
        invariant 0 <= i <= n && Valid() && primaryFailureStage.None? && failure.None?
        invariant FirstFailing(world, Health, 0, n) == FirstFailing(world, Health, i, n)
        invariant trace == old(trace) + Up(Health, i)
      {
        AttemptAppended(old(trace), Health, i);
        assert preparedEntries[i] == i;
        failure := Perform(Call(Health, preparedEntries[i]));
        if failure.Some? {
          return;
        }
        i := i + 1;
      }
    }

    /** `runCommit`, over the prepared entries */
    method RunCommit() returns (failure: Option<string>)
      requires Valid() && preparedEntries == Numbers(n) && committedEntries == [] && primaryFailureStage.None?
      modifies this`trace, this`componentErrors, this`primaryFailureStage, this`committedEntries
      ensures Valid()
      ensures var k := FirstFailing(world, Commit, 0, n);
        && trace == old(trace) + Attempts(Commit, k, n)
        && committedEntries == Numbers(k)
        && StageEnd(failure, Commit, k)
    {
      failure := None;
      var i := 0;
      while i < |preparedEntries|
        invariant 0 <= i <= n && Valid() && primaryFailureStage.None? && failure.None?
        invariant FirstFailing(world, Commit, 0, n) == FirstFailing(world, Commit, i, n)
        invariant trace == old(trace) + Up(Commit, i) && committedEntries == Numbers(i)
      {
        AttemptAppended(old(trace), Commit, i);
        assert preparedEntries[i] == i;
        failure := Perform(Call(Commit, preparedEntries[i]));
        if failure.Some? {
          return;
        }
        committedEntries := committedEntries + [i];
        i := i + 1;
      }
    }

    /** The loop of `runRollback` and `runCleanup`: the entries in reverse, going on past errors. */
    method RunReversed(stage: Stage, entries: seq<nat>)
      requires Valid() && (stage == Rollback || stage == Cleanup) && entries == Numbers(|entries|)
      modifies this`trace, this`componentErrors, this`primaryFailureStage
      ensures Valid() && primaryFailureStage == old(primaryFailureStage)
      ensures trace == old(trace) + Down(stage, |entries|)
    {
      var i := |entries|;
      assert trace == trace + Down(stage, |entries|)[..0];
      while i > 0
        invariant 0 <= i <= |entries| && Valid() && primaryFailureStage == old(primaryFailureStage)
        invariant trace == old(trace) + Down(stage, |entries|)[..|entries| - i]
      {
        ghost var d, done := Down(stage, |entries|), |entries| - i;
        assert d[..done + 1] == d[..done] + [Call(stage, i - 1)];
        i := i - 1;
        var _ := Perform(Call(stage, entries[i]));
      }
      assert Down(stage, |entries|)[..|entries|] == Down(stage, |entries|);
    }

    /** `runSimplePhase` */
    method RunSimplePhase(stage: Stage, state: TxState, now: int) returns (failure: Option<string>)
      requires Valid() && primaryFailureStage.None? && state in Allowed(model.state) && !IsTerminal(state)
      requires stage == Parse || stage == Validate
      modifies model, this`trace, this`componentErrors, this`primaryFailureStage
      ensures Valid() && trace == old(trace) + [Call(stage, 0)] && model.state == state
      ensures failure == FailureMessage(world, Call(stage, 0))
      ensures primaryFailureStage == if failure.Some? then Some(stage) else None
    {
      var _ := model.Transition(state, now);
      failure := Perform(Call(stage, 0));
    }

    /** The `try` block: every stage up to the commit. Returns the exception that leaves it, if any. */
    method RunForward(now: int) returns (failure: Option<string>)
      requires Valid() && model.state == Idle && trace == [] && primaryFailureStage.None?
      requires preparedEntries == [] && committedEntries == []
      modifies this, model
      ensures Valid() && originalFailure == old(originalFailure)
      ensures trace == Forward(world, n)
      ensures preparedEntries == Numbers(PreparedCount(world, n))
      ensures committedEntries == Numbers(CommittedCount(world, n))
      ensures FailedWith(failure, PrimaryFailure(world, n))
    {
      hide Forward, PreparedCount, CommittedCount, PrimaryFailure;
      SimpleEnds(world, n);
      failure := RunSimplePhase(Parse, Parsing, now);
      if failure.Some? { return; }
      failure := RunSimplePhase(Validate, Validating, now);
      if failure.Some? { return; }
      failure := RunComponents(now);
      ComponentsEndMeans(failure);
    }

    /** How the `try` block was left, given the call that failed. */
    ghost predicate FailedWith(failure: Option<string>, primary: Option<Call>)
      reads this, model
    {
      match primary
      case None => failure.None? && model.state == Committed && primaryFailureStage.None?
      case Some(call) =>
        && failure.Some? && failure == FailureMessage(world, call)
        && primaryFailureStage == Some(call.stage) && model.state == StateDuring(call.stage)
    }

    /** How the health checks and commits ended. */
    ghost predicate CheckedEnd(failure: Option<string>)
      reads this, model
    {
      var h, c := FirstFailing(world, Health, 0, n), FirstFailing(world, Commit, 0, n);
      if h < n then StageEnd(failure, Health, h) && model.state == Prepared && committedEntries == []
      else
        && StageEnd(failure, Commit, c) && committedEntries == Numbers(c)
        && model.state == if c < n then Committing else Committed
    }

    /** How the component stages ended. */
    ghost predicate ComponentsEnd(failure: Option<string>)
      reads this, model
    {
      var p := FirstFailing(world, Prepare, 0, n);
      if p < n then
        && StageEnd(failure, Prepare, p) && model.state == Preparing
        && preparedEntries == Numbers(p) && committedEntries == []
      else preparedEntries == Numbers(n) && CheckedEnd(failure)
    }

    lemma ComponentsEndMeans(failure: Option<string>)
      requires ParsedAndValid(world) && ComponentsEnd(failure)
      ensures preparedEntries == Numbers(PreparedCount(world, n))
      ensures committedEntries == Numbers(CommittedCount(world, n))
      ensures FailedWith(failure, PrimaryFailure(world, n))
    {
    }

    method RunComponents(now: int) returns (failure: Option<string>)
      requires Valid() && model.state == Validating && primaryFailureStage.None?
      requires preparedEntries == [] && committedEntries == []
      modifies this, model
      ensures Valid() && originalFailure == old(originalFailure)
      ensures trace == old(trace) + ComponentCalls(world, n) && ComponentsEnd(failure)
    {
      ghost var before := trace;
      var _ := model.Transition(Preparing, now);
      failure := RunPrepare();
      if failure.None? {
        var _ := model.Transition(Prepared, now);
        failure := RunChecked(now);
        AppendAssoc(before, Attempts(Prepare, n, n), CheckedCalls(world, n));
      }
    }

    method RunChecked(now: int) returns (failure: Option<string>)
      requires Valid() && model.state == Prepared && primaryFailureStage.None?
      requires preparedEntries == Numbers(n) && committedEntries == []
      modifies this, model
      ensures Valid() && originalFailure == old(originalFailure) && preparedEntries == old(preparedEntries)
      ensures trace == old(trace) + CheckedCalls(world, n) && CheckedEnd(failure)
    {
      hide ErrorsOf, Attempts;
      ghost var before, h, c := trace, FirstFailing(world, Health, 0, n), FirstFailing(world, Commit, 0, n);
      failure := RunHealthChecks();
      if failure.None? {
        var _ := model.Transition(Committing, now);
        failure := RunCommit();
        AppendAssoc(before, Attempts(Health, h, n), Attempts(Commit, c, n));
        if failure.None? {
          var _ := model.Transition(Committed, now);
        }
      }
    }

    /** The `catch` block: fails the transaction and backs out. Returns the exception that leaves it, if any. */
    method RunBackward(failure: string, now: int) returns (rejected: Option<string>)
      requires Valid() && PrimaryFailure(world, n).Some? && FailedWith(Some(failure), PrimaryFailure(world, n))
      requires preparedEntries == Numbers(PreparedCount(world, n))
      requires committedEntries == Numbers(CommittedCount(world, n))
      modifies this, model
      ensures Valid() && originalFailure == Some(failure)
      ensures preparedEntries == old(preparedEntries) && committedEntries == old(committedEntries)
      ensures trace == old(trace) + Backward(world, n)
      ensures model.state == FinalState(world, n)
      ensures rejected.Some? <==> Rejected(world, n)
    {
      PrimaryFailureMeans(world, n);
      originalFailure := Some(failure);
      var failing := model.Fail(failure, now);
      if failing.Err? {
        return Some(failing.error);
      }
      rejected := None;
      if model.state == RollingBack {
        RunRollback();
        var _ := model.Transition(RolledBack, now);
      }
    }

    /** `runRollback` */
    method RunRollback()
      requires Valid() && PrimaryFailure(world, n).Some? && !Rejected(world, n)
      requires primaryFailureStage == Some(PrimaryFailure(world, n).value.stage)
      requires preparedEntries == Numbers(PreparedCount(world, n))
      requires committedEntries == Numbers(CommittedCount(world, n))
      modifies this`trace, this`componentErrors, this`primaryFailureStage
      ensures Valid() && trace == old(trace) + Backward(world, n)
    {
      if primaryFailureStage == Some(Commit) {
        RunReversed(Rollback, committedEntries);
      } else {
        RunReversed(Rollback, preparedEntries);
      }
    }

    /** `execute`. `Err` is the exception that leaves it when the failure reason is blank. */
    method Execute(now: int) returns (r: Result<ExecutionResult, string>)
      requires Valid() && model.state == Idle && trace == [] && primaryFailureStage.None?
      requires preparedEntries == [] && committedEntries == [] && originalFailure.None?
      modifies this, model
      ensures Valid()
      ensures trace == ExpectedTrace(world, n)
      ensures model.state == FinalState(world, n)
      ensures r.Err? <==> Rejected(world, n)
      ensures r.Ok? ==>
        && r.value.state == FinalState(world, n)
        && (r.value.success <==> r.value.state == Committed)
        && r.value.componentErrors == ErrorsOf(world, ExpectedTrace(world, n))
        && r.value.preparedComponents == Numbers(PreparedCount(world, n))
        && r.value.committedComponents == Numbers(CommittedCount(world, n))
        && r.value.failureReason == (match PrimaryFailure(world, n)
                                     case None => None
                                     case Some(call) => FailureMessage(world, call))
    {
      hide ErrorsOf, Blank, CommittedCount;
      var failure := RunForward(now);
      var rejected := None;
      if failure.Some? {
        rejected := RunBackward(failure.value, now);
      }
      assert trace == Forward(world, n) + Backward(world, n);
      RunReversed(Cleanup, preparedEntries);
      if rejected.Some? {
        return Err(rejected.value);
      }
      return Ok(ExecutionResult(
        model.state == Committed, model.state, originalFailure, componentErrors, preparedEntries, committedEntries));
    }
  }

  function FailureMessage(w: World, call: Call): Option<string> {
    match w(call) case Done => None case Throws(m, _) => Some(m)
  }

  lemma PrimaryFailureMeans(w: World, n: nat)
    requires PrimaryFailure(w, n).Some?
    ensures var call := PrimaryFailure(w, n).value;
      && w(call).Throws? && call.stage != Rollback && call.stage != Cleanup
      && (call.stage == Parse || call.stage == Validate || Rejected(w, n) ==> Backward(w, n) == [])
  {
  }

  /** The state the transaction is in while a forward stage runs. */
  function StateDuring(stage: Stage): TxState {
    match stage
    case Parse => Parsing
    case Validate => Validating
    case Prepare => Preparing
    case Health => Prepared
    case _ => Committing
  }

  function Numbers(k: nat): (s: seq<nat>)
    ensures |s| == k
  {
    seq(k, i => i)
  }

  lemma AttemptAppended(before: seq<Call>, stage: Stage, k: nat)
    ensures before + Up(stage, k + 1) == before + Up(stage, k) + [Call(stage, k)]
    ensures Numbers(k + 1) == Numbers(k) + [k]
  {
    UpGrows(stage, k);
  }

  lemma UpGrows(stage: Stage, k: nat)
    ensures Up(stage, k + 1) == Up(stage, k) + [Call(stage, k)]
    ensures Numbers(k + 1) == Numbers(k) + [k]
  {
  }
}
