/** Reload end to end: every run of the executor drives the routing runtime through the adapters
    (`src/reload/adapters`), while readers come and go. */
module ReloadRoutings {
  import opened Common
  import RE = ReloadExecutors
  import RA = ReloadAtomicity
  import RT = ReloadTransactions
  import opened RoutingRuntimes
  import opened RoutingSafety

  /** A reload of `n` components, with the places of those that take part in the routing transaction, as
      `createRuntimeComponents` sets it up, and what the router and policy adapters stage. */
  datatype Setup = Setup(
    id: string,
    n: nat,
    routerAt: Option<nat>,
    policyAt: Option<nat>,
    outboundAt: Option<nat>,
    router: RouterGeneration,
    policy: PolicyGeneration)
  {
    function At(c: Component): Option<nat> {
      match c case Router => routerAt case Policy => policyAt case Outbound => outboundAt
    }

    /** Different places; the outbound component takes part only beside the router or the policy. */
    ghost predicate Valid() {
      && (forall c :: At(c).Some? ==> At(c).value < n)
      && (forall c, d :: At(c).Some? && At(c) == At(d) ==> c == d)
      && (outboundAt.Some? ==> TakesPart())
    }

    predicate TakesPart() {
      routerAt.Some? || policyAt.Some?
    }

    function Role(i: nat): Option<Component> {
      if routerAt == Some(i) then Some(Router)
      else if policyAt == Some(i) then Some(Policy)
      else if outboundAt == Some(i) then Some(Outbound)
      else None
    }

    /** `expectedRoutingComponents` */
    function Expected(): seq<Component> {
      (if routerAt.Some? then [Router] else []) + (if policyAt.Some? then [Policy] else [])
      + (if outboundAt.Some? then [Outbound] else [])
    }

    /** The whole new pair; with a new policy its manager is not the old one. */
    predicate IsNew(old': RoutingPair, p: RoutingPair) {
      && p.router == (if routerAt.Some? then router else old'.router)
      && p.policy == (if policyAt.Some? then policy else old'.policy)
      && (policyAt.Some? <==> p.manager != old'.manager)
    }

    function NewKey(old': RoutingPair): string {
      (if routerAt.Some? then router.id else old'.router.id) + ":" +
      (if policyAt.Some? then policy.id else old'.policy.id)
    }

    /** What an adapter's call does to the runtime. The outbound adapter leaves opening and closing the transaction to
        the others; rolling back what was never published does nothing. */
    function Steps(call: RE.Call): seq<Step> {
      match Role(call.component)
      case None => []
      case Some(c) =>
        match call.stage
        case Prepare =>
          if c == Router then [DoBegin(Expected()), DoStageRouter(router)]
          else if c == Policy then [DoBegin(Expected()), DoStagePolicy(policy)]
          else []
        case Commit => [DoCommit(c)]
        case Rollback => [DoRollback]
        case Cleanup => if c == Outbound then [] else [DoCleanup]
        case _ => []
    }
  }

  // ------------------------------------------------------- what was effected

  type Calls = set<RE.Call>

  function Did(u: Setup, done: Calls, stage: RE.Stage, c: Component): bool {
    u.At(c).Some? && RE.Call(stage, u.At(c).value) in done
  }

  predicate AllPrepared(u: Setup, done: Calls) {
    && (u.routerAt.Some? ==> Did(u, done, RE.Prepare, Router))
    && (u.policyAt.Some? ==> Did(u, done, RE.Prepare, Policy))
  }

  /** Every routing component has committed. */
  predicate AllCommitted(u: Setup, done: Calls) {
    && u.TakesPart()
    && (u.routerAt.Some? ==> Did(u, done, RE.Commit, Router))
    && (u.policyAt.Some? ==> Did(u, done, RE.Commit, Policy))
    && (u.outboundAt.Some? ==> Did(u, done, RE.Commit, Outbound))
  }

  predicate AnyOf(u: Setup, done: Calls, stage: RE.Stage) {
    Did(u, done, stage, Router) || Did(u, done, stage, Policy) || Did(u, done, stage, Outbound)
  }

  predicate Opened(u: Setup, done: Calls) {
    Did(u, done, RE.Prepare, Router) || Did(u, done, RE.Prepare, Policy)
  }

  predicate Closed(u: Setup, done: Calls) {
    Did(u, done, RE.Cleanup, Router) || Did(u, done, RE.Cleanup, Policy)
  }

  function CommittedParts(u: Setup, done: Calls): set<Component> {
    (if Did(u, done, RE.Commit, Router) then {Router} else {})
    + (if Did(u, done, RE.Commit, Policy) then {Policy} else {})
    + (if Did(u, done, RE.Commit, Outbound) then {Outbound} else {})
  }

  /** The new pair is in force exactly when every routing component has committed and none has rolled back. */
  predicate Switched(u: Setup, done: Calls) {
    AllCommitted(u, done) && !AnyOf(u, done, RE.Rollback)
  }

  /** The state a reload starts from: the pair in force, the pairs known, the next handle, and whether keys tell pairs
      apart, and will tell the new one from the others. */
  datatype Before = Before(active: RoutingPair, known: set<RoutingPair>, handles: nat, apart: bool)

  ghost predicate TransactionAsDone(p: Protocol, u: Setup, b: Before, done: Calls) {
    && (u.id in p.s.transactions <==> Opened(u, done) && !Closed(u, done))
    && (u.id in p.s.transactions ==>
          var t := p.s.transactions[u.id];
          && t.oldGeneration == b.active && t.expected == ToSet(u.Expected())
          && t.routerCandidate == (if Did(u, done, RE.Prepare, Router) then Some(u.router) else None)
          && t.policyCandidate == (if Did(u, done, RE.Prepare, Policy) then Some(u.policy) else None)
          && t.committed == CommittedParts(u, done)
          && (p.backedOut <==> AnyOf(u, done, RE.Rollback)))
  }

  ghost predicate PairsAsDone(p: Protocol, u: Setup, b: Before, done: Calls) {
    && (if Switched(u, done) then u.IsNew(b.active, p.s.active) else p.s.active == b.active)
    && (forall q :: q in Pairs(p.s) ==> q in b.known || (AllCommitted(u, done) && u.IsNew(b.active, q)))
    && (forall h :: h in p.s.held && b.handles <= h ==>
          p.s.held[h] == b.active || (AllCommitted(u, done) && u.IsNew(b.active, p.s.held[h])))
    && b.handles <= p.s.handles
  }

  /** How the runtime stands when these calls have had their effect. */
  ghost predicate StandsAt(p: Protocol, u: Setup, b: Before, done: Calls) {
    && Inv(p, u.id) && b.active in b.known && TransactionAsDone(p, u, b, done) && PairsAsDone(p, u, b, done)
    && (AnyOf(u, done, RE.Commit) ==> AllPrepared(u, done))
    && (b.apart ==> Coherent(p.s))
  }

  /** When the executor makes a call, after these. */
  ghost predicate InTurn(u: Setup, done: Calls, call: RE.Call) {
    match call.stage
    case Prepare => forall x :: x in done ==> x.stage !in {RE.Commit, RE.Rollback, RE.Cleanup}
    case Commit =>
      && call !in done && (forall x :: x in done ==> x.stage !in {RE.Rollback, RE.Cleanup})
      && (forall i: nat :: i < u.n ==> RE.Call(RE.Prepare, i) in done)
    case Rollback => forall x :: x in done ==> x.stage != RE.Cleanup
    case _ => true
  }

  /** What is known of the ids at the beginning. */
  ghost predicate Known(u: Setup, b: Before) {
    b.active in b.known && (b.apart && u.TakesPart() ==> forall q :: q in b.known ==> PairKey(q) != u.NewKey(b.active))
  }

  // --------------------------------------------------------------- one step

  predicate IsReader(step: Step) {
    step.DoAcquire? || step.DoRelease?
  }

  lemma ReaderKeeps(p: Protocol, u: Setup, b: Before, done: Calls, step: Step)
    requires StandsAt(p, u, b, done) && IsReader(step)
    ensures Permitted(p, u.id, step) && StandsAt(Apply(p, u.id, step), u, b, done)
  {
    hide Apply, Inv, Pairs, Did, CommittedParts, AllCommitted, AnyOf, Opened, Closed;
    assert p.s.transactions.Keys <= {u.id} by { IdOnly(p, u.id); }
    StepKeeps(p, u.id, step);
    StaysApart(p, u.id, step, b.apart);
    PairsGrow(p, u.id, step);
    ReaderMoves(p, u.id, step);
  }

  lemma StaysApart(p: Protocol, id: string, step: Step, apart: bool)
    requires Inv(p, id) && (apart ==> Coherent(p.s) && FreshStep(p, id, step))
    ensures apart ==> Coherent(Apply(p, id, step).s)
  {
    if apart {
      StepKeepsCoherent(p, id, step);
    }
  }

  lemma IdOnly(p: Protocol, id: string)
    requires Inv(p, id)
    ensures p.s.transactions.Keys <= {id}
  {
  }

  /** A reader takes the pair in force or gives a handle back, and touches nothing else. */
  lemma ReaderMoves(p: Protocol, id: string, step: Step)
    requires IsReader(step)
    ensures var p' := Apply(p, id, step);
      && p'.s.transactions == p.s.transactions && p'.s.active == p.s.active && p'.backedOut == p.backedOut
      && p.s.handles <= p'.s.handles
      && forall h :: h in p'.s.held ==> (h in p.s.held && p'.s.held[h] == p.s.held[h]) || p'.s.held[h] == p.s.active
  {
  }

  /** What one more effective call adds. */
  lemma OneMoreDid(u: Setup, done: Calls, call: RE.Call, after: Calls, stage: RE.Stage, c: Component)
    requires u.Valid() && after == done + {call}
    ensures Did(u, after, stage, c) <==>
      Did(u, done, stage, c) || (call.stage == stage && u.Role(call.component) == Some(c))
  {
    var i := call.component;
    assert u.At(Router) == Some(i) || u.At(Policy) == Some(i) || u.At(Outbound) == Some(i) || u.Role(i).None?;
    assert u.At(c) == Some(i) <==> u.Role(i) == Some(c);
    assert call == RE.Call(call.stage, i);
  }

  /** Calls of another stage add nothing to a stage. */
  lemma OtherStage(u: Setup, done: Calls, call: RE.Call, after: Calls, stage: RE.Stage)
    requires after == done + {call} && call.stage != stage
    ensures forall c :: Did(u, after, stage, c) == Did(u, done, stage, c)
  {
  }

  /** The pairs and handles after a step that takes no handle. */
  lemma PairsCarry(p: Protocol, p': Protocol, u: Setup, b: Before, done: Calls, after: Calls)
    requires PairsAsDone(p, u, b, done) && b.active in b.known
    requires p'.s.held == p.s.held && p'.s.handles == p.s.handles && Pairs(p'.s) <= Pairs(p.s) + {p'.s.active}
    requires AllCommitted(u, done) ==> AllCommitted(u, after)
    requires if Switched(u, after) then u.IsNew(b.active, p'.s.active) else p'.s.active == b.active
    ensures PairsAsDone(p', u, b, after)
  {
  }

  lemma BeginRecorded(p: Protocol, u: Setup, b: Before, done: Calls, call: RE.Call, c: Component)
    requires u.Valid() && TransactionAsDone(p, u, b, done) && p.s.active == b.active
    requires call.stage == RE.Prepare && u.Role(call.component) == Some(c) && c != Outbound
    requires !AnyOf(u, done, RE.Commit) && !AnyOf(u, done, RE.Rollback) && !Closed(u, done)
    requires u.id !in p.s.transactions ==> !p.backedOut
    ensures var stage := if c == Router then DoStageRouter(u.router) else DoStagePolicy(u.policy);
      var p1 := Apply(p, u.id, DoBegin(u.Expected()));
      && p1.s.active == b.active && u.id in p1.s.transactions && p1.s.transactions[u.id].committed == {}
      && TransactionAsDone(Apply(p1, u.id, stage), u, b, done + {call})
  {
    var after := done + {call};
    assert u.Expected() != [];
    OtherStage(u, done, call, after, RE.Commit);
    OtherStage(u, done, call, after, RE.Rollback);
    OtherStage(u, done, call, after, RE.Cleanup);
    OneMoreDid(u, done, call, after, RE.Prepare, Router);
    OneMoreDid(u, done, call, after, RE.Prepare, Policy);
  }

  lemma BeginStands(p: Protocol, u: Setup, b: Before, done: Calls, call: RE.Call, c: Component)
    requires u.Valid() && StandsAt(p, u, b, done) && InTurn(u, done, call)
    requires call.stage == RE.Prepare && u.Role(call.component) == Some(c) && c != Outbound
    ensures var begin := DoBegin(u.Expected());
      var stage := if c == Router then DoStageRouter(u.router) else DoStagePolicy(u.policy);
      var p1 := Apply(p, u.id, begin);
      && Permitted(p, u.id, begin) && Permitted(p1, u.id, stage)
      && StandsAt(Apply(p1, u.id, stage), u, b, done + {call})
  {
    var begin := DoBegin(u.Expected());
    var stage := if c == Router then DoStageRouter(u.router) else DoStagePolicy(u.policy);
    var p1 := Apply(p, u.id, begin);
    var after := done + {call};
    BeginRecorded(p, u, b, done, call, c);
    OtherStage(u, done, call, after, RE.Commit);
    OtherStage(u, done, call, after, RE.Rollback);
    StepKeeps(p, u.id, begin);
    StaysApart(p, u.id, begin, b.apart);
    PairsGrow(p, u.id, begin);
    PairsCarry(p, p1, u, b, done, done);
    StepKeeps(p1, u.id, stage);
    StaysApart(p1, u.id, stage, b.apart);
    PairsGrow(p1, u.id, stage);
    PairsCarry(p1, Apply(p1, u.id, stage), u, b, done, after);
  }

  lemma CommitCounts(u: Setup, done: Calls, call: RE.Call, after: Calls, c: Component)
    requires u.Valid() && call.stage == RE.Commit && u.Role(call.component) == Some(c) && after == done + {call}
    ensures CommittedParts(u, after) == CommittedParts(u, done) + {c}
    ensures AllCommitted(u, after) <==> u.TakesPart() && ToSet(u.Expected()) <= CommittedParts(u, after)
    ensures CommittedParts(u, done) <= ToSet(u.Expected()) && c in ToSet(u.Expected())
  {
    assert u.At(c).Some?;
    OneMoreDid(u, done, call, after, RE.Commit, Router);
    OneMoreDid(u, done, call, after, RE.Commit, Policy);
    OneMoreDid(u, done, call, after, RE.Commit, Outbound);
    assert u.At(c) == Some(call.component);
    forall d ensures d in ToSet(u.Expected()) <==> u.At(d).Some? {
      ExpectedParts(u, d);
    }
    PartsAreDid(u, done);
    PartsAreDid(u, after);
    assert u.TakesPart() ==>
             (AllCommitted(u, after) <==> forall d :: u.At(d).Some? ==> Did(u, after, RE.Commit, d)) by {
      assert u.At(Router) == u.routerAt && u.At(Policy) == u.policyAt && u.At(Outbound) == u.outboundAt;
    }
  }

  lemma PartsAreDid(u: Setup, done: Calls)
    ensures forall d :: d in CommittedParts(u, done) <==> Did(u, done, RE.Commit, d)
  {
    forall d ensures d in CommittedParts(u, done) <==> Did(u, done, RE.Commit, d) {
      assert d == Router || d == Policy || d == Outbound;
    }
  }

  lemma ExpectedParts(u: Setup, c: Component)
    ensures c in u.Expected() <==> u.At(c).Some?
  {
    var r, p := if u.routerAt.Some? then [Router] else [], if u.policyAt.Some? then [Policy] else [];
    var o := if u.outboundAt.Some? then [Outbound] else [];
    assert c in u.Expected() <==> c in r || c in p || c in o;
  }

  lemma CommitHasTransaction(p: Protocol, u: Setup, b: Before, done: Calls, call: RE.Call, c: Component)
    requires u.Valid() && TransactionAsDone(p, u, b, done) && InTurn(u, done, call)
    requires call.stage == RE.Commit && u.Role(call.component) == Some(c)
    ensures AllPrepared(u, done) && !AllCommitted(u, done) && !p.backedOut
    ensures u.id in p.s.transactions && c !in p.s.transactions[u.id].committed && CommitError(p.s, u.id, c).None?
  {
    assert AllPrepared(u, done) && !AnyOf(u, done, RE.Rollback) && !Closed(u, done);
    CommitCounts(u, done, call, done + {call}, c);
    assert !Did(u, done, RE.Commit, c);
    PartsAreDid(u, done);
  }

  /** A routing commit in turn is accepted, and publishes, when it does, the whole new pair. */
  lemma CommitAccepted(p: Protocol, u: Setup, b: Before, done: Calls, call: RE.Call, c: Component)
    requires u.Valid() && Known(u, b) && TransactionAsDone(p, u, b, done) && PairsAsDone(p, u, b, done)
    requires InTurn(u, done, call) && Numbered(p.s)
    requires call.stage == RE.Commit && u.Role(call.component) == Some(c)
    ensures u.id in p.s.transactions && CommitError(p.s, u.id, c).None? && !p.backedOut
    ensures c !in p.s.transactions[u.id].committed && !AllCommitted(u, done) && AllPrepared(u, done)
    ensures var next := Candidate(p.s.transactions[u.id], p.s.managers);
      && u.IsNew(b.active, next) && PairKey(next) == u.NewKey(b.active)
      && (b.apart ==> FreshPair(p.s, next))
  {
    CommitHasTransaction(p, u, b, done, call, c);
    assert b.active in Olds(p.s);
  }

  lemma CommitRecorded(p: Protocol, u: Setup, b: Before, done: Calls, call: RE.Call, c: Component)
    requires u.Valid() && TransactionAsDone(p, u, b, done) && p.s.active == b.active
    requires call.stage == RE.Commit && u.Role(call.component) == Some(c)
    requires u.id in p.s.transactions && CommitError(p.s, u.id, c).None? && !p.backedOut
    requires u.IsNew(b.active, Candidate(p.s.transactions[u.id], p.s.managers))
    ensures var after, p' := done + {call}, Apply(p, u.id, DoCommit(c));
      && TransactionAsDone(p', u, b, after)
      && (if Switched(u, after) then u.IsNew(b.active, p'.s.active) else p'.s.active == b.active)
  {
    hide ToSet;
    var after := done + {call};
    CommitCounts(u, done, call, after, c);
    OtherStage(u, done, call, after, RE.Prepare);
    OtherStage(u, done, call, after, RE.Rollback);
    OtherStage(u, done, call, after, RE.Cleanup);
  }

  lemma CommitStands(p: Protocol, u: Setup, b: Before, done: Calls, call: RE.Call, c: Component)
    requires u.Valid() && Known(u, b) && StandsAt(p, u, b, done) && InTurn(u, done, call)
    requires call.stage == RE.Commit && u.Role(call.component) == Some(c)
    ensures Permitted(p, u.id, DoCommit(c))
    ensures StandsAt(Apply(p, u.id, DoCommit(c)), u, b, done + {call})
  {
    var after, p' := done + {call}, Apply(p, u.id, DoCommit(c));
    CommitAccepted(p, u, b, done, call, c);
    CommitRecorded(p, u, b, done, call, c);
    StepKeeps(p, u.id, DoCommit(c));
    StaysApart(p, u.id, DoCommit(c), b.apart);
    CommitPairs(p, p', u, b, done, call, c);
    StaysPrepared(u, done, call);
  }

  lemma CommitPairs(p: Protocol, p': Protocol, u: Setup, b: Before, done: Calls, call: RE.Call, c: Component)
    requires p' == Apply(p, u.id, DoCommit(c)) && p.s.transactions.Keys <= {u.id} && b.active in b.known
    requires PairsAsDone(p, u, b, done) && !AllCommitted(u, done)
    requires if Switched(u, done + {call}) then u.IsNew(b.active, p'.s.active) else p'.s.active == b.active
    ensures PairsAsDone(p', u, b, done + {call})
  {
    PairsGrow(p, u.id, DoCommit(c));
    PairsCarry(p, p', u, b, done, done + {call});
  }

  lemma StaysPrepared(u: Setup, done: Calls, call: RE.Call)
    requires AllPrepared(u, done)
    ensures AllPrepared(u, done + {call})
  {
  }

  lemma RollbackStands(p: Protocol, u: Setup, b: Before, done: Calls, call: RE.Call, c: Component)
    requires u.Valid() && StandsAt(p, u, b, done) && InTurn(u, done, call)
    requires call.stage == RE.Rollback && u.Role(call.component) == Some(c)
    ensures Permitted(p, u.id, DoRollback)
    ensures StandsAt(Apply(p, u.id, DoRollback), u, b, done + {call})
  {
    hide ToSet, Commit, UsageExact, Filed, Coherent, Candidate, Pairs, Setup.IsNew;
    var after, p' := done + {call}, Apply(p, u.id, DoRollback);
    OtherStage(u, done, call, after, RE.Prepare);
    OtherStage(u, done, call, after, RE.Commit);
    OtherStage(u, done, call, after, RE.Cleanup);
    OneMoreDid(u, done, call, after, RE.Rollback, c);
    assert AnyOf(u, after, RE.Rollback) && !Closed(u, done);
    StepKeeps(p, u.id, DoRollback);
    StaysApart(p, u.id, DoRollback, b.apart);
    PairsGrow(p, u.id, DoRollback);
    PairsCarry(p, p', u, b, done, after);
    assert TransactionAsDone(p', u, b, after);
  }

  lemma CleanupStands(p: Protocol, u: Setup, b: Before, done: Calls, call: RE.Call, c: Component)
    requires u.Valid() && StandsAt(p, u, b, done)
    requires call.stage == RE.Cleanup && u.Role(call.component) == Some(c) && c != Outbound
    ensures Permitted(p, u.id, DoCleanup)
    ensures StandsAt(Apply(p, u.id, DoCleanup), u, b, done + {call})
  {
    var after, p' := done + {call}, Apply(p, u.id, DoCleanup);
    OtherStage(u, done, call, after, RE.Prepare);
    OtherStage(u, done, call, after, RE.Commit);
    OtherStage(u, done, call, after, RE.Rollback);
    OneMoreDid(u, done, call, after, RE.Cleanup, c);
    StepKeeps(p, u.id, DoCleanup);
    StaysApart(p, u.id, DoCleanup, b.apart);
    PairsGrow(p, u.id, DoCleanup);
    PairsCarry(p, p', u, b, done, after);
  }

  // ------------------------------------------------------------- whole runs

  /** The calls of a run that had their effect. */
  function Effected(w: RE.World, calls: seq<RE.Call>): Calls {
    set c | c in calls && RA.Effective(w, c)
  }

  /** What comes to the runtime with one call. */
  function StepsOf(u: Setup, w: RE.World, call: RE.Call): seq<Step> {
    if RA.Effective(w, call) then u.Steps(call) else []
  }

  /** Readers taking and releasing handles, before the first call and after each. */
  type Readers = nat -> seq<Step>

  ghost predicate OnlyReaders(readers: Readers) {
    forall k, i :: 0 <= i < |readers(k)| ==> IsReader(readers(k)[i])
  }

  /** The runtime after some calls, each with its readers. */
  function After(p: Protocol, u: Setup, w: RE.World, calls: seq<RE.Call>, readers: Readers): Protocol
    decreases |calls|
  {
    if calls == [] then Run(p, u.id, readers(0))
    else
      var m := |calls| - 1;
      Run(Run(After(p, u, w, calls[..m], readers), u.id, StepsOf(u, w, calls[m])), u.id, readers(m + 1))
  }

  lemma {:induction false} ReadersKeep(p: Protocol, u: Setup, b: Before, done: Calls, steps: seq<Step>)
    requires StandsAt(p, u, b, done) && forall i :: 0 <= i < |steps| ==> IsReader(steps[i])
    ensures PermittedRun(p, u.id, steps) && StandsAt(Run(p, u.id, steps), u, b, done)
    decreases |steps|
  {
    if steps != [] {
      ReaderKeeps(p, u, b, done, steps[0]);
      ReadersKeep(Apply(p, u.id, steps[0]), u, b, done, steps[1..]);
    }
  }

  lemma CallKeeps(p: Protocol, u: Setup, b: Before, done: Calls, call: RE.Call)
    requires u.Valid() && Known(u, b) && StandsAt(p, u, b, done) && InTurn(u, done, call)
    ensures PermittedRun(p, u.id, u.Steps(call)) && StandsAt(Run(p, u.id, u.Steps(call)), u, b, done + {call})
  {
    var role := u.Role(call.component);
    var steps := u.Steps(call);
    if steps == [] {
      IdleKeeps(p, u, b, done, call);
    } else {
      var c := role.value;
      match call.stage
      case Prepare =>
        BeginStands(p, u, b, done, call, c);
        RunFirst(p, u.id, steps[0], [steps[1]]);
        RunOne(Apply(p, u.id, steps[0]), u.id, steps[1]);
      case Commit =>
        CommitStands(p, u, b, done, call, c);
        RunOne(p, u.id, steps[0]);
      case Rollback =>
        RollbackStands(p, u, b, done, call, c);
        RunOne(p, u.id, steps[0]);
      case Cleanup =>
        CleanupStands(p, u, b, done, call, c);
        RunOne(p, u.id, steps[0]);
    }
  }

  /** A call that does nothing to the runtime: by no routing component, or none that matters to it. */
  lemma IdleKeeps(p: Protocol, u: Setup, b: Before, done: Calls, call: RE.Call)
    requires u.Valid() && StandsAt(p, u, b, done) && u.Steps(call) == []
    ensures StandsAt(p, u, b, done + {call})
  {
    var after := done + {call};
    IdleCounts(u, done, call, after, Router);
    IdleCounts(u, done, call, after, Policy);
    IdleCounts(u, done, call, after, Outbound);
  }

  lemma IdleCounts(u: Setup, done: Calls, call: RE.Call, after: Calls, c: Component)
    requires u.Valid() && u.Steps(call) == [] && after == done + {call}
    ensures c != Outbound ==> Did(u, after, RE.Prepare, c) == Did(u, done, RE.Prepare, c)
    ensures Did(u, after, RE.Commit, c) == Did(u, done, RE.Commit, c)
    ensures Did(u, after, RE.Rollback, c) == Did(u, done, RE.Rollback, c)
    ensures c != Outbound ==> Did(u, after, RE.Cleanup, c) == Did(u, done, RE.Cleanup, c)
  {
    OneMoreDid(u, done, call, after, RE.Prepare, c);
    OneMoreDid(u, done, call, after, RE.Commit, c);
    OneMoreDid(u, done, call, after, RE.Rollback, c);
    OneMoreDid(u, done, call, after, RE.Cleanup, c);
  }

  // ----------------------------------------------------- the executor's order

  function StageRank(stage: RE.Stage): nat {
    match stage
    case Parse => 0
    case Validate => 1
    case Prepare => 2
    case Health => 3
    case Commit => 4
    case Rollback => 5
    case Cleanup => 6
  }

  /** Stage after stage; within a stage the components ascend on the way forward and descend on the way back. */
  predicate Precedes(a: RE.Call, b: RE.Call) {
    || StageRank(a.stage) < StageRank(b.stage)
    || (a.stage == b.stage && if StageRank(a.stage) <= 4 then a.component < b.component else b.component < a.component)
  }

  ghost predicate Ordered(calls: seq<RE.Call>) {
    forall i, j :: 0 <= i < j < |calls| ==> Precedes(calls[i], calls[j])
  }

  ghost predicate Between(calls: seq<RE.Call>, low: nat, high: nat) {
    forall i :: 0 <= i < |calls| ==> low <= StageRank(calls[i].stage) <= high
  }

  lemma OrderedAppend(a: seq<RE.Call>, b: seq<RE.Call>, low: nat, mid: nat, high: nat)
    requires Ordered(a) && Ordered(b) && low <= mid < high
    requires Between(a, low, mid) && Between(b, mid + 1, high)
    ensures Ordered(a + b) && Between(a + b, low, high)
  {
  }

  lemma CheckedIsOrdered(w: RE.World, n: nat)
    ensures Ordered(RE.CheckedCalls(w, n)) && Between(RE.CheckedCalls(w, n), 3, 4)
  {
    var h, c := RE.FirstFailing(w, RE.Health, 0, n), RE.FirstFailing(w, RE.Commit, 0, n);
    OrderedAppend(RE.Attempts(RE.Health, h, n), if h < n then [] else RE.Attempts(RE.Commit, c, n), 3, 3, 4);
  }

  lemma ComponentCallsAreOrdered(w: RE.World, n: nat)
    ensures Ordered(RE.ComponentCalls(w, n)) && Between(RE.ComponentCalls(w, n), 2, 4)
  {
    var p, checked := RE.FirstFailing(w, RE.Prepare, 0, n), RE.CheckedCalls(w, n);
    CheckedIsOrdered(w, n);
    OrderedAppend(RE.Attempts(RE.Prepare, p, n), if p < n then [] else checked, 2, 2, 4);
  }

  lemma ForwardIsOrdered(w: RE.World, n: nat)
    ensures Ordered(RE.Forward(w, n)) && Between(RE.Forward(w, n), 0, 4)
  {
    ComponentCallsAreOrdered(w, n);
    var calls := if w(RE.Call(RE.Validate, 0)).Throws? then [] else RE.ComponentCalls(w, n);
    OrderedAppend([RE.Call(RE.Validate, 0)], calls, 1, 1, 4);
    var rest := if w(RE.Call(RE.Parse, 0)).Throws? then [] else [RE.Call(RE.Validate, 0)] + calls;
    OrderedAppend([RE.Call(RE.Parse, 0)], rest, 0, 0, 4);
  }

  /** The stages of a run follow one another. */
  lemma TraceIsOrdered(w: RE.World, n: nat)
    ensures Ordered(RE.ExpectedTrace(w, n))
  {
    var forward, back, last := RE.Forward(w, n), RE.Backward(w, n), RE.Down(RE.Cleanup, RE.PreparedCount(w, n));
    ForwardIsOrdered(w, n);
    assert Between(back, 5, 5) && Between(last, 6, 6);
    OrderedAppend(forward, back, 0, 4, 5);
    OrderedAppend(forward + back, last, 0, 5, 6);
  }

  lemma EarlierCall(w: RE.World, n: nat, trace: seq<RE.Call>, m: nat, x: RE.Call)
    requires trace == RE.ExpectedTrace(w, n) && m < |trace| && x in trace[..m]
    ensures Precedes(x, trace[m])
  {
    TraceIsOrdered(w, n);
    var i :| 0 <= i < m && trace[..m][i] == x;
    assert trace[i] == x;
  }

  /** Of two calls of a run, the one that precedes is made first. */
  lemma MadeFirst(w: RE.World, n: nat, trace: seq<RE.Call>, m: nat, x: RE.Call, y: RE.Call)
    requires trace == RE.ExpectedTrace(w, n) && m <= |trace| && x in trace && y in trace[..m] && Precedes(x, y)
    ensures x in trace[..m]
  {
    TraceIsOrdered(w, n);
    var i :| 0 <= i < |trace| && trace[i] == x;
    var j :| 0 <= j < m && trace[..m][j] == y;
    assert trace[j] == y;
    assert i < m;
    assert trace[..m][i] == x;
  }

  /** Every call of a run is in turn: the executor keeps the discipline the routing transaction needs. */
  lemma CallsAreInTurn(u: Setup, w: RE.World, trace: seq<RE.Call>, m: nat)
    requires trace == RE.ExpectedTrace(w, u.n) && m < |trace|
    ensures InTurn(u, Effected(w, trace[..m]), trace[m])
  {
    var done, call := Effected(w, trace[..m]), trace[m];
    forall x | x in done ensures StageRank(x.stage) <= StageRank(call.stage) && x != call {
      EarlierCall(w, u.n, trace, m, x);
    }
    forall i: nat | i < u.n && call.stage == RE.Commit ensures RE.Call(RE.Prepare, i) in done {
      PreparedBefore(w, u.n, trace, m, i);
    }
    TurnByRank(u, done, call);
  }

  lemma TurnByRank(u: Setup, done: Calls, call: RE.Call)
    requires forall x :: x in done ==> StageRank(x.stage) <= StageRank(call.stage) && x != call
    requires forall i: nat :: i < u.n && call.stage == RE.Commit ==> RE.Call(RE.Prepare, i) in done
    ensures InTurn(u, done, call)
  {
  }

  lemma PreparedBefore(w: RE.World, n: nat, trace: seq<RE.Call>, m: nat, i: nat)
    requires trace == RE.ExpectedTrace(w, n) && m < |trace| && trace[m].stage == RE.Commit && i < n
    ensures RE.Call(RE.Prepare, i) in Effected(w, trace[..m])
  {
    hide RE.ExpectedTrace;
    var prepare := RE.Call(RE.Prepare, i);
    CommitNeedsPrepare(w, n, trace[m], i);
    TraceIsOrdered(w, n);
    var j :| 0 <= j < |trace| && trace[j] == prepare;
    assert j < m;
    assert trace[..m][j] == prepare;
  }

  lemma CommitNeedsPrepare(w: RE.World, n: nat, commit: RE.Call, i: nat)
    requires commit in RE.ExpectedTrace(w, n) && commit.stage == RE.Commit && i < n
    ensures RE.Call(RE.Prepare, i) in RE.ExpectedTrace(w, n) && w(RE.Call(RE.Prepare, i)).Done?
  {
    RA.MemberOf(w, n, commit);
    RA.MemberOf(w, n, RE.Call(RE.Prepare, i));
  }

  // ------------------------------------------------------------ main results

  /** The candidate's ids are new, if the reload takes part in a routing transaction at all. */
  ghost predicate FreshIds(p: Protocol, u: Setup) {
    u.TakesPart() ==> forall q :: q in Pairs(p.s) ==> PairKey(q) != u.NewKey(p.s.active)
  }

  ghost function Beginning(p: Protocol, u: Setup): Before {
    Before(p.s.active, Pairs(p.s), p.s.handles, Coherent(p.s) && FreshIds(p, u))
  }

  /** A runtime with no transaction open. The candidate may have any ids: a reload tried again repeats those of one
      that was rolled back, whose pair a reader may still hold. */
  ghost predicate Ready(p: Protocol, u: Setup) {
    u.Valid() && Inv(p, u.id) && p.s.transactions == map[]
  }

  ghost predicate AllInTurn(u: Setup, w: RE.World, calls: seq<RE.Call>) {
    forall m :: 0 <= m < |calls| ==> InTurn(u, Effected(w, calls[..m]), calls[m])
  }

  lemma PrefixInTurn(u: Setup, w: RE.World, calls: seq<RE.Call>, prefix: seq<RE.Call>)
    requires AllInTurn(u, w, calls) && prefix <= calls
    ensures AllInTurn(u, w, prefix)
  {
    forall m | 0 <= m < |prefix| ensures InTurn(u, Effected(w, prefix[..m]), prefix[m]) {
      assert prefix[..m] == calls[..m];
    }
  }

  lemma {:induction false} CallsStand(p: Protocol, u: Setup, b: Before, w: RE.World, calls: seq<RE.Call>,
                                      readers: Readers)
    returns (q: Protocol, done: Calls)
    requires u.Valid() && Known(u, b) && StandsAt(p, u, b, {}) && OnlyReaders(readers) && AllInTurn(u, w, calls)
    ensures q == After(p, u, w, calls, readers) && done == Effected(w, calls) && StandsAt(q, u, b, done)
    decreases |calls|
  {
    if calls == [] {
      assert Effected(w, calls) == {};
      ReadersKeep(p, u, b, {}, readers(0));
      return Run(p, u.id, readers(0)), {};
    }
    var m := |calls| - 1;
    var before, call := calls[..m], calls[m];
    assert calls == before + [call];
    PrefixInTurn(u, w, calls, before);
    var q0, done0 := CallsStand(p, u, b, w, before, readers);
    OneCallStands(q0, u, b, w, before, call, readers(m + 1));
    q, done := Run(Run(q0, u.id, StepsOf(u, w, call)), u.id, readers(m + 1)), Effected(w, calls);
  }

  lemma RunStands(p: Protocol, u: Setup, w: RE.World, readers: Readers, m: nat)
    returns (q: Protocol, done: Calls)
    requires Ready(p, u) && OnlyReaders(readers) && m <= |RE.ExpectedTrace(w, u.n)|
    ensures var calls := RE.ExpectedTrace(w, u.n)[..m];
      q == After(p, u, w, calls, readers) && done == Effected(w, calls)
    ensures StandsAt(q, u, Beginning(p, u), done)
  {
    var trace := RE.ExpectedTrace(w, u.n);
    StartStands(p, u);
    forall k | 0 <= k < |trace| ensures InTurn(u, Effected(w, trace[..k]), trace[k]) {
      CallsAreInTurn(u, w, trace, k);
    }
    PrefixInTurn(u, w, trace, trace[..m]);
    q, done := CallsStand(p, u, Beginning(p, u), w, trace[..m], readers);
  }

  lemma OneCallStands(q: Protocol, u: Setup, b: Before, w: RE.World, before: seq<RE.Call>, call: RE.Call,
                      steps: seq<Step>)
    requires u.Valid() && Known(u, b) && StandsAt(q, u, b, Effected(w, before)) && InTurn(u, Effected(w, before), call)
    requires forall i :: 0 <= i < |steps| ==> IsReader(steps[i])
    ensures StandsAt(Run(Run(q, u.id, StepsOf(u, w, call)), u.id, steps), u, b, Effected(w, before + [call]))
  {
    var done, after := Effected(w, before), Effected(w, before + [call]);
    assert after == if RA.Effective(w, call) then done + {call} else done;
    if RA.Effective(w, call) {
      CallKeeps(q, u, b, done, call);
    }
    ReadersKeep(Run(q, u.id, StepsOf(u, w, call)), u, b, after, steps);
  }

  lemma StartStands(p: Protocol, u: Setup)
    requires Ready(p, u)
    ensures StandsAt(p, u, Beginning(p, u), {})
  {
  }

  /** Main result: at every moment of every reload, whatever fails and whoever takes and releases handles meanwhile,
      the pair in force is the whole old one or the whole new one; it is the new one exactly when every routing
      component's commit has taken effect and none of their rollbacks has; and every handle taken since the reload
      began is on one of the two. The transaction is open exactly while a router or policy prepare has taken effect
      and no cleanup of theirs has: a prepare that failed after beginning it would leave it open. While none is open,
      pairs drain only as long as a handle to a pair of their ids is out; and keys that tell pairs apart go on doing so
      if the candidate's ids are new. */
  lemma ReadersSeeWholePairs(p: Protocol, u: Setup, w: RE.World, readers: Readers, m: nat)
    requires Ready(p, u) && OnlyReaders(readers) && m <= |RE.ExpectedTrace(w, u.n)|
    ensures var calls := RE.ExpectedTrace(w, u.n)[..m];
      var q := After(p, u, w, calls, readers);
      && (if Switched(u, Effected(w, calls)) then u.IsNew(p.s.active, q.s.active) else q.s.active == p.s.active)
      && (forall h :: h in q.s.held && p.s.handles <= h ==>
            q.s.held[h] == p.s.active || u.IsNew(p.s.active, q.s.held[h]))
      && (u.id in q.s.transactions <==> Opened(u, Effected(w, calls)) && !Closed(u, Effected(w, calls)))
      && UsageExact(q.s)
      && (u.id !in q.s.transactions ==>
            forall key :: key in q.s.draining ==> exists h :: h in q.s.held && PairKey(q.s.held[h]) == key)
      && (Coherent(p.s) && FreshIds(p, u) ==> Coherent(q.s))
  {
    hide Apply, Run, After, UsageExact, Coherent;
    var q, _ := RunStands(p, u, w, readers, m);
    if u.id !in q.s.transactions {
      DrainingIsHeld(q, u.id);
    }
  }

  lemma StandsMeans(q: Protocol, u: Setup, b: Before, done: Calls)
    requires StandsAt(q, u, b, done)
    ensures if Switched(u, done) then u.IsNew(b.active, q.s.active) else q.s.active == b.active
    ensures !Opened(u, done) || Closed(u, done) ==> q.s.transactions == map[]
  {
  }

  /** Main result: a committed reload leaves the new pair in force; a failed or cleanly rolled back one the old pair,
      under the contract that a failed commit has no effect; and no transaction is left open if the router's and the
      policy's cleanups take effect and their failed prepares have none. */
  lemma ReloadIsAllOrNothing(p: Protocol, u: Setup, w: RE.World, readers: Readers)
    requires Ready(p, u) && OnlyReaders(readers)
    ensures var q := After(p, u, w, RE.ExpectedTrace(w, u.n), readers);
      && (RE.FinalState(w, u.n) == RT.Committed && u.TakesPart() ==> u.IsNew(p.s.active, q.s.active))
      && (RA.FailedCommitsHaveNoEffect(w, u.n) && Aborted(w, u.n) ==> q.s.active == p.s.active)
      && (Tidy(u, w) ==> q.s.transactions == map[])
  {
    hide Aborted, Tidy, StandsAt, Switched;
    var trace := RE.ExpectedTrace(w, u.n);
    assert trace[..|trace|] == trace;
    var q, done := RunStands(p, u, w, readers, |trace|);
    StandsMeans(q, u, Beginning(p, u), done);
    if RE.FinalState(w, u.n) == RT.Committed && u.TakesPart() {
      CommittedSwitches(u, w);
    }
    if RA.FailedCommitsHaveNoEffect(w, u.n) && Aborted(w, u.n) {
      AbortedSwitchesBack(u, w);
    }
    if Tidy(u, w) {
      TidyCloses(u, w);
    }
  }

  /** Failed, or rolled back with no rollback error. */
  ghost predicate Aborted(w: RE.World, n: nat) {
    var s := RE.FinalState(w, n);
    s == RT.Failed || (s == RT.RolledBack && RA.NoRollbackError(w, n))
  }

  /** The router's and the policy's cleanups take effect, and a prepare of theirs that throws has had none: in their
      adapters nothing throws once the transaction has begun. */
  ghost predicate Tidy(u: Setup, w: RE.World) {
    forall c :: c != Outbound && u.At(c).Some? ==>
      && RA.Effective(w, RE.Call(RE.Cleanup, u.At(c).value))
      && (RA.Effective(w, RE.Call(RE.Prepare, u.At(c).value)) ==> w(RE.Call(RE.Prepare, u.At(c).value)).Done?)
  }

  lemma CommittedSwitches(u: Setup, w: RE.World)
    requires u.Valid() && u.TakesPart() && RE.FinalState(w, u.n) == RT.Committed
    ensures Switched(u, Effected(w, RE.ExpectedTrace(w, u.n)))
  {
    RA.CommittedMeansAllNew(w, u.n);
    forall c ensures u.At(c).Some? ==> Did(u, Effected(w, RE.ExpectedTrace(w, u.n)), RE.Commit, c) {
      if u.At(c).Some? {
        RA.MemberOf(w, u.n, RE.Call(RE.Commit, u.At(c).value));
      }
    }
    forall i: nat ensures RE.Call(RE.Rollback, i) !in RE.ExpectedTrace(w, u.n) {
      RA.MemberOf(w, u.n, RE.Call(RE.Rollback, i));
    }
    assert u.At(Router) == u.routerAt && u.At(Policy) == u.policyAt && u.At(Outbound) == u.outboundAt;
  }

  /** When every routing commit took effect and the reload was aborted cleanly, a routing component rolled back. */
  lemma AbortedSwitchesBack(u: Setup, w: RE.World)
    requires u.Valid() && RA.FailedCommitsHaveNoEffect(w, u.n) && Aborted(w, u.n)
    ensures !Switched(u, Effected(w, RE.ExpectedTrace(w, u.n)))
  {
    var done := Effected(w, RE.ExpectedTrace(w, u.n));
    if AllCommitted(u, done) {
      CommittedRollsBack(u, w, if u.routerAt.Some? then Router else Policy);
    }
  }

  lemma CommittedRollsBack(u: Setup, w: RE.World, c: Component)
    requires RA.FailedCommitsHaveNoEffect(w, u.n) && Aborted(w, u.n)
    requires Did(u, Effected(w, RE.ExpectedTrace(w, u.n)), RE.Commit, c)
    ensures Did(u, Effected(w, RE.ExpectedTrace(w, u.n)), RE.Rollback, c)
  {
    var i := u.At(c).value;
    CommittedIsBackedOut(w, u.n, i);
  }

  lemma CommittedIsBackedOut(w: RE.World, n: nat, i: nat)
    requires RA.FailedCommitsHaveNoEffect(w, n) && Aborted(w, n)
    requires RE.Call(RE.Commit, i) in RE.ExpectedTrace(w, n) && RA.Effective(w, RE.Call(RE.Commit, i))
    ensures RE.Call(RE.Rollback, i) in RE.ExpectedTrace(w, n) && RA.Effective(w, RE.Call(RE.Rollback, i))
  {
    CommitMade(w, n, i);
    AbortedCommitCount(w, n);
    EffectiveIsBelow(w, n, i, RE.CommittedCount(w, n));
    RollbackMade(w, n, i, RE.RollbackCount(w, n));
  }

  lemma EffectiveIsDone(w: RE.World, n: nat, k: nat)
    requires RA.FailedCommitsHaveNoEffect(w, n) && k < n && RA.Effective(w, RE.Call(RE.Commit, k))
    ensures w(RE.Call(RE.Commit, k)).Done?
  {
  }

  lemma EffectiveIsBelow(w: RE.World, n: nat, i: nat, k: nat)
    requires RA.FailedCommitsHaveNoEffect(w, n) && i <= k < n && w(RE.Call(RE.Commit, k)).Throws?
    requires RA.Effective(w, RE.Call(RE.Commit, i))
    ensures i < k
  {
  }

  lemma RollbackMade(w: RE.World, n: nat, i: nat, k: nat)
    requires k == RE.RollbackCount(w, n) && i < k && RA.NoRollbackError(w, n)
    ensures RE.Call(RE.Rollback, i) in RE.ExpectedTrace(w, n) && RA.Effective(w, RE.Call(RE.Rollback, i))
  {
    RA.MemberOf(w, n, RE.Call(RE.Rollback, i));
  }

  lemma CommitMade(w: RE.World, n: nat, i: nat)
    requires RE.Call(RE.Commit, i) in RE.ExpectedTrace(w, n)
    ensures RE.AllHealthy(w, n) && i < n && i <= RE.CommittedCount(w, n)
  {
    RA.MemberOf(w, n, RE.Call(RE.Commit, i));
  }

  lemma AbortedCommitCount(w: RE.World, n: nat)
    requires Aborted(w, n) && RE.AllHealthy(w, n)
    ensures RE.CommittedCount(w, n) < n && w(RE.Call(RE.Commit, RE.CommittedCount(w, n))).Throws?
    ensures RE.RollbackCount(w, n) == RE.CommittedCount(w, n) && RA.NoRollbackError(w, n)
  {
  }

  lemma TidyCloses(u: Setup, w: RE.World)
    requires u.Valid() && Tidy(u, w)
    ensures Opened(u, Effected(w, RE.ExpectedTrace(w, u.n))) ==> Closed(u, Effected(w, RE.ExpectedTrace(w, u.n)))
  {
    var done := Effected(w, RE.ExpectedTrace(w, u.n));
    forall c ensures c != Outbound && Did(u, done, RE.Prepare, c) ==> Did(u, done, RE.Cleanup, c) {
      if c != Outbound && Did(u, done, RE.Prepare, c) {
        PreparedIsCleaned(w, u.n, u.At(c).value);
      }
    }
  }

  lemma PreparedIsCleaned(w: RE.World, n: nat, i: nat)
    requires i < n && RA.Effective(w, RE.Call(RE.Cleanup, i)) && w(RE.Call(RE.Prepare, i)).Done?
    requires RE.Call(RE.Prepare, i) in RE.ExpectedTrace(w, n) && RA.Effective(w, RE.Call(RE.Prepare, i))
    ensures RE.Call(RE.Cleanup, i) in RE.ExpectedTrace(w, n) && RA.Effective(w, RE.Call(RE.Cleanup, i))
  {
    PrepareMade(w, n, i, RE.PreparedCount(w, n));
    RA.MemberOf(w, n, RE.Call(RE.Cleanup, i));
  }

  lemma PrepareMade(w: RE.World, n: nat, i: nat, k: nat)
    requires RE.Call(RE.Prepare, i) in RE.ExpectedTrace(w, n) && w(RE.Call(RE.Prepare, i)).Done?
    requires k == RE.PreparedCount(w, n)
    ensures i < k
  {
    RA.MemberOf(w, n, RE.Call(RE.Prepare, i));
  }

  // ------------------------------------------------------ the component list

  /** Which parts of the configuration changed. */
  datatype Changed = Changed(metrics: bool, dashboard: bool, router: bool, policy: bool, outbound: bool, dns: bool)

  /** `createRuntimeComponents`: the order of the components, and which take part in the routing transaction. */
  function SetupFor(changed: Changed, id: string, router: RouterGeneration, policy: PolicyGeneration): Setup {
    var a := (if changed.metrics then 1 else 0) + if changed.dashboard then 1 else 0;
    var b := a + if changed.router then 1 else 0;
    var c := b + if changed.policy then 1 else 0;
    var d := c + if changed.outbound then 1 else 0;
    Setup(
      id,
      d + if changed.dns then 1 else 0,
      if changed.router then Some(a) else None,
      if changed.policy then Some(b) else None,
      if changed.outbound && (changed.router || changed.policy) then Some(c) else None,
      router, policy)
  }

  /** New ids for the candidate generations: none that a known pair has. Router ids contain no colon. */
  ghost predicate NewIds(known: set<RoutingPair>, router: RouterGeneration, policy: PolicyGeneration) {
    && ':' !in router.id
    && forall q :: q in known ==> ':' !in q.router.id && q.router.id != router.id && q.policy.id != policy.id
  }

  lemma FirstColon(a: string, b: string, s: string)
    requires ':' !in a && s == a + ":" + b
    ensures |a| < |s| && s[|a|] == ':' && forall i :: 0 <= i < |a| ==> s[i] != ':'
    ensures a == s[..|a|] && b == s[|a| + 1..]
  {
    forall i | 0 <= i < |a| ensures s[i] != ':' {
      assert s[i] == a[i] && a[i] in a;
    }
  }

  /** Router ids without a colon make the key of a pair tell both its ids. */
  lemma KeyTellsIds(a: string, b: string, c: string, d: string)
    requires ':' !in a && ':' !in c && a + ":" + b == c + ":" + d
    ensures a == c && b == d
  {
    FirstColon(a, b, a + ":" + b);
    FirstColon(c, d, a + ":" + b);
    assert |a| == |c|;
  }

  /** Main result on the component list: whatever changed, the results above hold for a reload of it, from every
      runtime without an open transaction and whatever the ids; new ids keep pairs apart as well. */
  lemma EveryChangeIsCovered(p: Protocol, changed: Changed, id: string, router: RouterGeneration,
                             policy: PolicyGeneration)
    requires Inv(p, id) && p.s.transactions == map[]
    ensures Ready(p, SetupFor(changed, id, router, policy))
    ensures NewIds(Pairs(p.s), router, policy) ==> FreshIds(p, SetupFor(changed, id, router, policy))
  {
    var u := SetupFor(changed, id, router, policy);
    SetupIsValid(changed, id, router, policy);
    if u.TakesPart() && NewIds(Pairs(p.s), router, policy) {
      forall q | q in Pairs(p.s) ensures PairKey(q) != u.NewKey(p.s.active) {
        NewKeyIsNew(u, p.s.active, Pairs(p.s), q);
      }
    }
  }

  lemma NewKeyIsNew(u: Setup, active: RoutingPair, known: set<RoutingPair>, q: RoutingPair)
    requires u.TakesPart() && NewIds(known, u.router, u.policy) && active in known && q in known
    ensures PairKey(q) != u.NewKey(active)
  {
    var r := if u.routerAt.Some? then u.router.id else active.router.id;
    var p := if u.policyAt.Some? then u.policy.id else active.policy.id;
    if PairKey(q) == u.NewKey(active) {
      KeyTellsIds(q.router.id, q.policy.id, r, p);
    }
  }

  /** One place for each part that changed, router before policy before outbound, and the outbound in the transaction
      only with one of the others. */
  lemma SetupIsInOrder(changed: Changed, id: string, router: RouterGeneration, policy: PolicyGeneration)
    ensures var u := SetupFor(changed, id, router, policy);
      && u.id == id && u.router == router && u.policy == policy
      && (u.routerAt.Some? <==> changed.router) && (u.policyAt.Some? <==> changed.policy)
      && (u.outboundAt.Some? <==> changed.outbound && (changed.router || changed.policy))
      && (u.routerAt.Some? && u.policyAt.Some? ==> u.routerAt.value < u.policyAt.value)
      && (u.routerAt.Some? && u.outboundAt.Some? ==> u.routerAt.value < u.outboundAt.value)
      && (u.policyAt.Some? && u.outboundAt.Some? ==> u.policyAt.value < u.outboundAt.value)
  {
  }

  lemma SetupIsValid(changed: Changed, id: string, router: RouterGeneration, policy: PolicyGeneration)
    ensures SetupFor(changed, id, router, policy).Valid()
  {
  }
}
