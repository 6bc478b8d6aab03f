/** The outbound adapter (`src/reload/adapters/outboundRuntimeAdapter.ts`): a reload switches the outbound generation
    and the routing pair together. */
module ReloadOutbounds {
  import opened Common
  import opened Handles
  import RE = ReloadExecutors
  import RA = ReloadAtomicity
  import RR = ReloadRoutings
  import opened OutboundRegistries
  import opened RegistrySafety
  import OpenTcps
  import RoutingRuntimes
  import RoutingSafety

  /** A reload in which the outbounds change: its setup, the place of the outbound component, the generation it finds in
      force and the one it brings. */
  datatype Plan = Plan(u: RR.Setup, at: nat, oldId: string, candidate: Candidate) {
    /** The component comes after the router and the policy, as the component list is built, and takes part in the
        routing transaction if there is one. */
    ghost predicate Valid() {
      && u.Valid() && at < u.n && oldId != candidate.id
      && u.outboundAt == (if u.TakesPart() then Some(at) else None)
      && (u.routerAt.Some? ==> u.routerAt.value < at)
      && (u.policyAt.Some? ==> u.policyAt.value < at)
    }

    /** Whether the component's call of a stage is among these. */
    predicate Did(done: RR.Calls, stage: RE.Stage) {
      RE.Call(stage, at) in done
    }
  }

  /** The registry and the adapter's `switched` flag. */
  datatype Adapter = Adapter(registry: Registry, switched: bool)

  /** What a call to the outbound adapter does to the registry. A commit or rollback that throws has left it as it was:
      the commit undoes a switch that the routing runtime refuses, and a restore that throws changes nothing. */
  ghost function AfterCall(a: Adapter, plan: Plan, w: RE.World, call: RE.Call): Adapter {
    if call.component != plan.at || !RA.Effective(w, call) then a
    else match call.stage
      case Commit =>
        (match Switch(a.registry, plan.candidate)
         case Ok(s) => Adapter(s, true)
         case Err(_) => a)
      case Rollback =>
        if !a.switched then a
        else (match Restore(a.registry, plan.oldId, plan.candidate.id)
              case Ok(s) => Adapter(s, false)
              case Err(_) => a)
      case Cleanup =>
        if !AllValid(a.registry) then a
        else a.(registry := Retire(a.registry, if a.switched then plan.oldId else plan.candidate.id).0)
      case _ => a
  }

  /** A commit takes effect only if the switch is accepted, and a rollback of it only if the restore is: both throw
      otherwise. */
  ghost predicate Throwing(a: Adapter, plan: Plan, w: RE.World, call: RE.Call) {
    call.component == plan.at && RA.Effective(w, call) ==>
      && (call.stage == RE.Commit ==> Switch(a.registry, plan.candidate).Ok?)
      && (call.stage == RE.Rollback && a.switched ==> Restore(a.registry, plan.oldId, plan.candidate.id).Ok?)
  }

  /** Connections come and go between the calls: references are taken and released, unused generations retired. */
  type Connections = nat -> seq<Step>

  predicate IsConnection(step: Step) {
    step.DoAcquire? || step.DoRelease? || step.DoRetire?
  }

  ghost predicate OnlyConnections(others: Connections) {
    forall k, i :: 0 <= i < |others(k)| ==> IsConnection(others(k)[i])
  }

  ghost function Meanwhile(a: Adapter, steps: seq<Step>): Adapter {
    a.(registry := OpenTcps.Others(a.registry, steps, None))
  }

  /** The adapter after some calls, each followed by what connections do. */
  ghost function After(a: Adapter, plan: Plan, w: RE.World, calls: seq<RE.Call>, others: Connections): Adapter
    decreases |calls|
  {
    if calls == [] then Meanwhile(a, others(0))
    else
      var m := |calls| - 1;
      Meanwhile(AfterCall(After(a, plan, w, calls[..m], others), plan, w, calls[m]), others(m + 1))
  }

  ghost predicate ThrowingRun(a: Adapter, plan: Plan, w: RE.World, calls: seq<RE.Call>, others: Connections)
    decreases |calls|
  {
    calls == [] ||
    var m := |calls| - 1;
    && ThrowingRun(a, plan, w, calls[..m], others)
    && Throwing(After(a, plan, w, calls[..m], others), plan, w, calls[m])
  }

  // ------------------------------------------------------------- the registry

  /** The outbound component has committed and not been rolled back. */
  predicate OutboundSwitched(plan: Plan, done: RR.Calls) {
    plan.Did(done, RE.Commit) && !plan.Did(done, RE.Rollback)
  }

  ghost predicate RegistryAsDone(a: Adapter, plan: Plan, done: RR.Calls) {
    && a.registry.activeId == (if OutboundSwitched(plan, done) then plan.candidate.id else plan.oldId)
    && (a.switched <==> OutboundSwitched(plan, done))
  }

  lemma {:induction false} ConnectionsKeepActive(s: Registry, steps: seq<Step>)
    requires forall i :: 0 <= i < |steps| ==> IsConnection(steps[i])
    ensures OpenTcps.Others(s, steps, None).activeId == s.activeId
    decreases |steps|
  {
    if steps != [] {
      var step := steps[0];
      if OpenTcps.Taken(s, step, None) {
        StepKeepsActive(s, step);
        ConnectionsKeepActive(Apply(s, step), steps[1..]);
      } else {
        ConnectionsKeepActive(s, steps[1..]);
      }
    }
  }

  lemma StepKeepsActive(s: Registry, step: Step)
    requires AllValid(s) && IsConnection(step)
    ensures Apply(s, step).activeId == s.activeId
  {
  }

  lemma CallMoves(a: Adapter, plan: Plan, w: RE.World, done: RR.Calls, call: RE.Call)
    requires plan.Valid() && RegistryAsDone(a, plan, done)
    requires RR.InTurn(plan.u, done, call) && Throwing(a, plan, w, call)
    ensures RegistryAsDone(AfterCall(a, plan, w, call), plan, done + if RA.Effective(w, call) then {call} else {})
  {
    assert call == RE.Call(call.stage, call.component);
  }

  /** What the last of some calls adds. */
  lemma OneMoreCall(a: Adapter, plan: Plan, w: RE.World, calls: seq<RE.Call>, others: Connections)
    returns (before: seq<RE.Call>, call: RE.Call)
    requires calls != [] && RR.AllInTurn(plan.u, w, calls) && ThrowingRun(a, plan, w, calls, others)
    ensures before == calls[..|calls| - 1] && call == calls[|calls| - 1]
    ensures RR.AllInTurn(plan.u, w, before) && RR.InTurn(plan.u, RR.Effected(w, before), call)
    ensures ThrowingRun(a, plan, w, before, others) && Throwing(After(a, plan, w, before, others), plan, w, call)
    ensures RR.Effected(w, calls) == RR.Effected(w, before) + if RA.Effective(w, call) then {call} else {}
    ensures After(a, plan, w, calls, others)
         == Meanwhile(AfterCall(After(a, plan, w, before, others), plan, w, call), others(|calls|))
  {
    hide AfterCall, Throwing, RR.InTurn, Meanwhile;
    before, call := calls[..|calls| - 1], calls[|calls| - 1];
    assert calls == before + [call];
    RR.PrefixInTurn(plan.u, w, calls, before);
  }

  lemma {:induction false} RegistryFollows(a: Adapter, plan: Plan, w: RE.World, calls: seq<RE.Call>,
                                           others: Connections)
    requires plan.Valid() && a.registry.activeId == plan.oldId && !a.switched
    requires RR.AllInTurn(plan.u, w, calls) && OnlyConnections(others) && ThrowingRun(a, plan, w, calls, others)
    ensures RegistryAsDone(After(a, plan, w, calls, others), plan, RR.Effected(w, calls))
    decreases |calls|
  {
    hide AfterCall, Throwing;
    if calls == [] {
      ConnectionsKeepActive(a.registry, others(0));
    } else {
      var before, call := OneMoreCall(a, plan, w, calls, others);
      RegistryFollows(a, plan, w, before, others);
      var b := After(a, plan, w, before, others);
      CallMoves(b, plan, w, RR.Effected(w, before), call);
      ConnectionsKeepActive(AfterCall(b, plan, w, call).registry, others(|calls|));
    }
  }

  // --------------------------------------------- whether the old one is there

  /** Whether one of these steps takes a generation out. */
  ghost predicate TakenOutBy(s: Registry, steps: seq<Step>, id: string)
    decreases |steps|
  {
    steps != [] &&
    var taken := OpenTcps.Taken(s, steps[0], None);
    || (taken && TakesOut(s, steps[0], id))
    || TakenOutBy(if taken then Apply(s, steps[0]) else s, steps[1..], id)
  }

  /** Whether connections have taken the old generation out, over some calls. */
  ghost predicate TakenOut(a: Adapter, plan: Plan, w: RE.World, calls: seq<RE.Call>, others: Connections)
    decreases |calls|
  {
    if calls == [] then TakenOutBy(a.registry, others(0), plan.oldId)
    else
      var m := |calls| - 1;
      || TakenOut(a, plan, w, calls[..m], others)
      || TakenOutBy(AfterCall(After(a, plan, w, calls[..m], others), plan, w, calls[m]).registry, others(m + 1),
                    plan.oldId)
  }

  /** The registry's invariant, and until the candidate is committed its objects are new. */
  ghost predicate Sound(s: Registry, plan: Plan, done: RR.Calls) {
    Inv(s) && (!plan.Did(done, RE.Commit) ==> FreshObjects(s, plan.candidate))
  }

  /** What a reload starts from: the old generation in force, and a candidate of new objects. */
  ghost predicate Begins(a: Adapter, plan: Plan) {
    plan.Valid() && a.registry.activeId == plan.oldId && !a.switched && Sound(a.registry, plan, {})
  }

  lemma SameRecords(s: Registry, s': Registry, c: Candidate)
    requires AllValid(s) && FreshObjects(s, c)
    requires s'.records.Keys == s.records.Keys && s'.stopped == s.stopped
    requires forall k :: k in s.records ==> s'.records[k].outbounds == s.records[k].outbounds
    ensures AllValid(s') && FreshObjects(s', c)
  {
  }

  lemma AcquireKeepsFresh(s: Registry, tag: string, id: string, c: Candidate)
    requires AllValid(s) && FreshObjects(s, c)
    ensures AllValid(Acquire(s, tag, id).0) && FreshObjects(Acquire(s, tag, id).0, c)
  {
    hide FreshObjects;
    SameRecords(s, Acquire(s, tag, id).0, c);
  }

  lemma UncountKeepsFresh(s: Registry, ref: nat, c: Candidate)
    requires AllValid(s) && FreshObjects(s, c) && ref in s.refs
    ensures AllValid(Uncount(s, ref)) && FreshObjects(Uncount(s, ref), c)
  {
    hide FreshObjects;
    SameRecords(s, Uncount(s, ref), c);
  }

  lemma RetireKeepsFresh(s: Registry, id: string, c: Candidate)
    requires AllValid(s) && FreshObjects(s, c)
    ensures AllValid(Retire(s, id).0) && FreshObjects(Retire(s, id).0, c)
  {
  }

  /** Nothing that connections do makes the registry know an object that it did not. */
  lemma StepKeepsFresh(s: Registry, step: Step, c: Candidate)
    requires Inv(s) && IsConnection(step) && FreshObjects(s, c)
    ensures AllValid(Apply(s, step)) && FreshObjects(Apply(s, step), c)
  {
    hide CountsExact, RefsResolve, OneActive, Distinct, NewObjects, Uncount, Retire, Acquire;
    match step
    case DoAcquire(tag, id) => AcquireKeepsFresh(s, tag, id, c);
    case DoRelease(ref) =>
      if ref in s.refs {
        UncountKeepsFresh(s, ref, c);
        RetireKeepsFresh(Uncount(s, ref), s.refs[ref].generationId, c);
      }
    case DoRetire(id) => RetireKeepsFresh(s, id, c);
  }

  lemma {:induction false} ConnectionsKeep(s: Registry, steps: seq<Step>, id: string, c: Candidate)
    requires Inv(s) && forall i :: 0 <= i < |steps| ==> IsConnection(steps[i])
    ensures var s' := OpenTcps.Others(s, steps, None);
      && Inv(s')
      && (FreshObjects(s, c) ==> FreshObjects(s', c))
      && (id in s'.records <==> id in s.records && !TakenOutBy(s, steps, id))
    decreases |steps|
  {
    hide CountsExact, RefsResolve, OneActive, Distinct, FreshObjects, Apply, TakesOut;
    if steps != [] {
      var step := steps[0];
      StepKeeps(s, step);
      GoneExactlyWhen(s, step, id);
      if FreshObjects(s, c) {
        StepKeepsFresh(s, step, c);
      }
      ConnectionsKeep(Apply(s, step), steps[1..], id, c);
    }
  }

  /** A call keeps the registry sound, and the old generation where it is unless it is a cleanup. */
  lemma CallKeepsSound(a: Adapter, plan: Plan, w: RE.World, done: RR.Calls, call: RE.Call)
    requires plan.Valid() && RegistryAsDone(a, plan, done) && Sound(a.registry, plan, done)
    requires RR.InTurn(plan.u, done, call) && Throwing(a, plan, w, call)
    ensures var b, after := AfterCall(a, plan, w, call), done + if RA.Effective(w, call) then {call} else {};
      && Sound(b.registry, plan, after)
      && (call.stage != RE.Cleanup ==> (plan.oldId in b.registry.records <==> plan.oldId in a.registry.records))
  {
    hide Inv, AllValid, FreshObjects, ValidateError;
    assert call == RE.Call(call.stage, call.component);
    if call.component == plan.at && RA.Effective(w, call) {
      match call.stage
      case Commit => SwitchKeeps(a.registry, plan.candidate);
      case Rollback => if a.switched { RestoreKeeps(a.registry, plan.oldId); }
      case Cleanup => CleanupKeepsSound(a, plan, done);
      case _ =>
    }
  }

  lemma CleanupKeepsSound(a: Adapter, plan: Plan, done: RR.Calls)
    requires Sound(a.registry, plan, done)
    ensures AllValid(a.registry)
    ensures Sound(Retire(a.registry, if a.switched then plan.oldId else plan.candidate.id).0, plan, done)
  {
    var id := if a.switched then plan.oldId else plan.candidate.id;
    RetireKeeps(a.registry, id);
    if !plan.Did(done, RE.Commit) {
      RetireKeepsFresh(a.registry, id, plan.candidate);
    }
  }

  ghost predicate NoCleanup(calls: seq<RE.Call>) {
    forall k :: 0 <= k < |calls| ==> calls[k].stage != RE.Cleanup
  }

  /** Over any calls: the registry stays sound, and before the cleanups the old generation is there exactly if
      connections have not taken it out. */
  lemma {:induction false} OldIsThereExactlyWhen(a: Adapter, plan: Plan, w: RE.World, calls: seq<RE.Call>,
                                                 others: Connections)
    requires Begins(a, plan) && OnlyConnections(others)
    requires RR.AllInTurn(plan.u, w, calls) && ThrowingRun(a, plan, w, calls, others)
    ensures var b := After(a, plan, w, calls, others);
      && Sound(b.registry, plan, RR.Effected(w, calls))
      && (NoCleanup(calls) ==> (plan.oldId in b.registry.records <==> !TakenOut(a, plan, w, calls, others)))
    decreases |calls|
  {
    hide Inv, FreshObjects, TakenOutBy, AfterCall, Throwing, RegistryAsDone, RR.InTurn;
    if calls == [] {
      assert RR.Effected(w, calls) == {};
      ActiveIsThere(a.registry);
      ConnectionsKeep(a.registry, others(0), plan.oldId, plan.candidate);
    } else {
      var before, call := OneMoreCall(a, plan, w, calls, others);
      OldIsThereExactlyWhen(a, plan, w, before, others);
      RegistryFollows(a, plan, w, before, others);
      var b, done := After(a, plan, w, before, others), RR.Effected(w, before);
      CallKeepsSound(b, plan, w, done, call);
      ConnectionsKeep(AfterCall(b, plan, w, call).registry, others(|calls|), plan.oldId, plan.candidate);
    }
  }

  lemma ActiveIsThere(s: Registry)
    requires Inv(s)
    ensures s.activeId in s.records
  {
  }
  // ------------------------------------------------------------ with the pair

  lemma OutboundPlaces(plan: Plan)
    requires plan.Valid()
    ensures plan.u.At(RoutingRuntimes.Router) == plan.u.routerAt && plan.u.At(RoutingRuntimes.Policy) == plan.u.policyAt
    ensures plan.u.At(RoutingRuntimes.Outbound) == plan.u.outboundAt
  {
  }

  /** A commit is made only when every earlier one has returned. */
  lemma EarlierCommit(w: RE.World, n: nat, trace: seq<RE.Call>, m: nat, i: nat, k: nat)
    requires trace == RE.ExpectedTrace(w, n) && m <= |trace| && i < k && RE.Call(RE.Commit, k) in trace[..m]
    ensures RE.Call(RE.Commit, i) in RR.Effected(w, trace[..m])
  {
    RA.CallLaws(w, n, k);
    RA.CallLaws(w, n, i);
    RR.MadeFirst(w, n, trace, m, RE.Call(RE.Commit, i), RE.Call(RE.Commit, k));
  }

  /** The commits of the routing components come one after another, the outbound's last. */
  lemma OutboundCommitsLast(plan: Plan, w: RE.World, trace: seq<RE.Call>, m: nat)
    requires plan.Valid() && plan.u.TakesPart() && trace == RE.ExpectedTrace(w, plan.u.n) && m <= |trace|
    ensures var done := RR.Effected(w, trace[..m]); RR.AllCommitted(plan.u, done) <==> plan.Did(done, RE.Commit)
  {
    var u, done := plan.u, RR.Effected(w, trace[..m]);
    OutboundPlaces(plan);
    if plan.Did(done, RE.Commit) {
      if u.routerAt.Some? {
        EarlierCommit(w, u.n, trace, m, u.routerAt.value, plan.at);
      }
      if u.policyAt.Some? {
        EarlierCommit(w, u.n, trace, m, u.policyAt.value, plan.at);
      }
    }
  }

  /** A rollback of the router or the policy has taken effect. */
  predicate RoutingBack(u: RR.Setup, done: RR.Calls) {
    RR.Did(u, done, RE.Rollback, RoutingRuntimes.Router) || RR.Did(u, done, RE.Rollback, RoutingRuntimes.Policy)
  }

  /** The old pair is in force again, or still, and the new outbound generation is. */
  ghost predicate Apart(p: RoutingSafety.Protocol, a: Adapter, plan: Plan, w: RE.World, readers: RR.Readers,
                        others: Connections, calls: seq<RE.Call>) {
    && RR.After(p, plan.u, w, calls, readers).s.active == p.s.active
    && After(a, plan, w, calls, others).registry.activeId == plan.candidate.id
  }

  /** Main result: at every moment of every reload of the outbounds beside the router or the policy, whatever fails and
      whatever connections do, the pair in force is the whole new one or the whole old one and the generation in force
      the new one or the old one; the new pair is never in force without the new generation; and the old pair is in
      force with the new generation exactly when the router or the policy has been rolled back and the outbound, which
      had committed, has not. */
  lemma RegistryAndPairAgree(p: RoutingSafety.Protocol, a: Adapter, plan: Plan, w: RE.World, readers: RR.Readers,
                             others: Connections, m: nat)
    requires RR.Ready(p, plan.u) && RR.OnlyReaders(readers) && m <= |RE.ExpectedTrace(w, plan.u.n)|
    requires plan.u.TakesPart() && !plan.u.IsNew(p.s.active, p.s.active)
    requires plan.Valid() && a.registry.activeId == plan.oldId && !a.switched && OnlyConnections(others)
    requires ThrowingRun(a, plan, w, RE.ExpectedTrace(w, plan.u.n)[..m], others)
    ensures var calls := RE.ExpectedTrace(w, plan.u.n)[..m];
      var done, pair := RR.Effected(w, calls), RR.After(p, plan.u, w, calls, readers).s.active;
      var id := After(a, plan, w, calls, others).registry.activeId;
      && (plan.u.IsNew(p.s.active, pair) || pair == p.s.active) && (id == plan.candidate.id || id == plan.oldId)
      && (pair != p.s.active ==> id == plan.candidate.id)
      && (Apart(p, a, plan, w, readers, others, calls) <==>
            OutboundSwitched(plan, done) && RoutingBack(plan.u, done))
  {
    hide RR.After, RR.Effected, After, RR.Ready, RR.AllCommitted;
    var trace := RE.ExpectedTrace(w, plan.u.n);
    RR.ReadersSeeWholePairs(p, plan.u, w, readers, m);
    TraceInTurn(plan.u, w, trace, m);
    RegistryFollows(a, plan, w, trace[..m], others);
    OutboundCommitsLast(plan, w, trace, m);
    OutboundPlaces(plan);
  }

  lemma TraceInTurn(u: RR.Setup, w: RE.World, trace: seq<RE.Call>, m: nat)
    requires trace == RE.ExpectedTrace(w, u.n) && m <= |trace|
    ensures RR.AllInTurn(u, w, trace[..m])
  {
    forall k | 0 <= k < |trace| ensures RR.InTurn(u, RR.Effected(w, trace[..k]), trace[k]) {
      RR.CallsAreInTurn(u, w, trace, k);
    }
    RR.PrefixInTurn(u, w, trace, trace[..m]);
  }

  /** The outbound's rollback fails to take effect only if the restore is refused. */
  ghost predicate RefusedOnly(a: Adapter, plan: Plan, w: RE.World, call: RE.Call) {
    call == RE.Call(RE.Rollback, plan.at) ==>
      (RA.Effective(w, call) <==> !a.switched || Restore(a.registry, plan.oldId, plan.candidate.id).Ok?)
  }

  ghost predicate OnlyRefused(a: Adapter, plan: Plan, w: RE.World, calls: seq<RE.Call>, others: Connections) {
    forall k :: 0 <= k < |calls| ==> RefusedOnly(After(a, plan, w, calls[..k], others), plan, w, calls[k])
  }

  /** Connections have taken the old generation out before the outbound was asked to roll back. */
  ghost predicate TakenOutBeforeUndo(a: Adapter, plan: Plan, w: RE.World, calls: seq<RE.Call>, others: Connections) {
    exists k :: 0 <= k < |calls| && calls[k] == RE.Call(RE.Rollback, plan.at)
                && TakenOut(a, plan, w, calls[..k], others)
  }

  lemma RestoreAt(b: Adapter, plan: Plan, done: RR.Calls)
    requires RegistryAsDone(b, plan, done) && Inv(b.registry) && !plan.Did(done, RE.Rollback)
    ensures plan.Did(done, RE.Commit) ==>
      b.switched && (Restore(b.registry, plan.oldId, plan.candidate.id).Err? <==> plan.oldId !in b.registry.records)
    ensures !plan.Did(done, RE.Commit) ==> plan.oldId in b.registry.records
  {
    hide Inv;
    ActiveIsThere(b.registry);
  }

  lemma BeforeRollback(w: RE.World, n: nat, trace: seq<RE.Call>, k: nat)
    requires trace == RE.ExpectedTrace(w, n) && k < |trace| && trace[k].stage == RE.Rollback
    ensures NoCleanup(trace[..k]) && trace[k] !in RR.Effected(w, trace[..k])
  {
    hide RE.ExpectedTrace;
    forall j | 0 <= j < k ensures trace[..k][j].stage != RE.Cleanup && trace[..k][j] != trace[k] {
      RR.EarlierCall(w, n, trace, k, trace[..k][j]);
    }
  }

  /** When the outbound is asked to roll back, its restore is refused exactly if the old generation has been taken
      out. */
  lemma RestoreIsRefusedExactlyWhen(a: Adapter, plan: Plan, w: RE.World, trace: seq<RE.Call>, k: nat,
                                    others: Connections)
    requires Begins(a, plan) && OnlyConnections(others) && trace == RE.ExpectedTrace(w, plan.u.n) && k < |trace|
    requires trace[k] == RE.Call(RE.Rollback, plan.at) && ThrowingRun(a, plan, w, trace[..k], others)
    ensures var b := After(a, plan, w, trace[..k], others);
      && (plan.Did(RR.Effected(w, trace[..k]), RE.Commit) ==>
            b.switched && (Restore(b.registry, plan.oldId, plan.candidate.id).Err? <==>
                             TakenOut(a, plan, w, trace[..k], others)))
      && (TakenOut(a, plan, w, trace[..k], others) ==> plan.Did(RR.Effected(w, trace[..k]), RE.Commit))
  {
    hide Inv, FreshObjects, TakenOut, After, ThrowingRun, Restore, RE.ExpectedTrace, RegistryAsDone, NoCleanup;
    TraceInTurn(plan.u, w, trace, k);
    BeforeRollback(w, plan.u.n, trace, k);
    RegistryFollows(a, plan, w, trace[..k], others);
    OldIsThereExactlyWhen(a, plan, w, trace[..k], others);
    RestoreAt(After(a, plan, w, trace[..k], others), plan, RR.Effected(w, trace[..k]));
  }

  lemma {:induction false} ThrowingPrefix(a: Adapter, plan: Plan, w: RE.World, calls: seq<RE.Call>, others: Connections,
                                          k: nat)
    requires ThrowingRun(a, plan, w, calls, others) && k <= |calls|
    ensures ThrowingRun(a, plan, w, calls[..k], others)
    decreases |calls|
  {
    if k == |calls| {
      assert calls[..k] == calls;
    } else {
      var m := |calls| - 1;
      ThrowingPrefix(a, plan, w, calls[..m], others, k);
      assert calls[..m][..k] == calls[..k];
    }
  }

  /** The outbound's rollback, when it is made, takes effect exactly if the old generation is still there. */
  lemma UndoneExactlyWhen(a: Adapter, plan: Plan, w: RE.World, trace: seq<RE.Call>, m: nat, others: Connections)
    requires Begins(a, plan) && OnlyConnections(others) && trace == RE.ExpectedTrace(w, plan.u.n) && m <= |trace|
    requires ThrowingRun(a, plan, w, trace[..m], others) && OnlyRefused(a, plan, w, trace[..m], others)
    ensures var calls := trace[..m];
      && (TakenOutBeforeUndo(a, plan, w, calls, others) ==> plan.Did(RR.Effected(w, calls), RE.Commit))
      && (plan.Did(RR.Effected(w, calls), RE.Commit) ==>
            (plan.Did(RR.Effected(w, calls), RE.Rollback) <==>
               RE.Call(RE.Rollback, plan.at) in calls && !TakenOutBeforeUndo(a, plan, w, calls, others)))
  {
    hide TakenOut, After, ThrowingRun, Restore, Begins, RE.ExpectedTrace;
    var calls, call := trace[..m], RE.Call(RE.Rollback, plan.at);
    forall k | 0 <= k < m && trace[k] == call
      ensures TakenOut(a, plan, w, calls[..k], others) ==> plan.Did(RR.Effected(w, calls), RE.Commit)
      ensures plan.Did(RR.Effected(w, calls), RE.Commit) ==>
        (RA.Effective(w, call) <==> !TakenOut(a, plan, w, calls[..k], others))
    {
      assert calls[..k] == trace[..k] && calls[k] == call;
      ThrowingPrefix(a, plan, w, calls, others, k);
      RestoreIsRefusedExactlyWhen(a, plan, w, trace, k, others);
      CommittedBefore(plan, w, trace, m, k);
    }
  }

  lemma CommittedBefore(plan: Plan, w: RE.World, trace: seq<RE.Call>, m: nat, k: nat)
    requires trace == RE.ExpectedTrace(w, plan.u.n) && k < m <= |trace| && trace[k] == RE.Call(RE.Rollback, plan.at)
    ensures plan.Did(RR.Effected(w, trace[..m]), RE.Commit) <==> plan.Did(RR.Effected(w, trace[..k]), RE.Commit)
  {
    hide RE.ExpectedTrace;
    var commit := RE.Call(RE.Commit, plan.at);
    assert forall c :: c in trace[..k] ==> c in trace[..m];
    if commit in trace[..m] {
      assert trace[k] == trace[..k + 1][k];
      RR.MadeFirst(w, plan.u.n, trace, k + 1, commit, trace[k]);
      var j :| 0 <= j < k + 1 && trace[..k + 1][j] == commit;
      assert j < k && trace[..k][j] == commit;
    }
  }

  /** Main result on how they come apart, for a registry in any state it can be in and an outbound whose rollback fails
      only if its restore is refused: at every moment, the old pair is in force with the new generation exactly when the
      router or the policy has been rolled back, the outbound had committed, and either the outbound was not asked to
      roll back or connections had taken the old generation out before it was. It is asked if failed commits have no
      effect: then connections alone decide. */
  lemma ApartExactlyWhen(p: RoutingSafety.Protocol, a: Adapter, plan: Plan, w: RE.World, readers: RR.Readers,
                         others: Connections, m: nat)
    requires RR.Ready(p, plan.u) && RR.OnlyReaders(readers) && m <= |RE.ExpectedTrace(w, plan.u.n)|
    requires plan.u.TakesPart() && !plan.u.IsNew(p.s.active, p.s.active)
    requires Begins(a, plan) && OnlyConnections(others)
    requires ThrowingRun(a, plan, w, RE.ExpectedTrace(w, plan.u.n)[..m], others)
    requires OnlyRefused(a, plan, w, RE.ExpectedTrace(w, plan.u.n)[..m], others)
    ensures var calls := RE.ExpectedTrace(w, plan.u.n)[..m];
      var done := RR.Effected(w, calls);
      && (Apart(p, a, plan, w, readers, others, calls) <==>
            && RoutingBack(plan.u, done) && plan.Did(done, RE.Commit)
            && (RE.Call(RE.Rollback, plan.at) !in calls || TakenOutBeforeUndo(a, plan, w, calls, others)))
      && (RA.FailedCommitsHaveNoEffect(w, plan.u.n) ==>
            (Apart(p, a, plan, w, readers, others, calls) <==>
               RoutingBack(plan.u, done) && TakenOutBeforeUndo(a, plan, w, calls, others)))
  {
    hide Apart, TakenOutBeforeUndo, OnlyRefused, ThrowingRun, RR.Ready, RoutingBack, RR.Effected, RE.ExpectedTrace;
    var trace := RE.ExpectedTrace(w, plan.u.n);
    var done := RR.Effected(w, trace[..m]);
    RegistryAndPairAgree(p, a, plan, w, readers, others, m);
    UndoneExactlyWhen(a, plan, w, trace, m, others);
    if RA.FailedCommitsHaveNoEffect(w, plan.u.n) && RoutingBack(plan.u, done) && plan.Did(done, RE.Commit) {
      AskedFirst(plan, w, trace, m);
    }
  }

  lemma AskedFirst(plan: Plan, w: RE.World, trace: seq<RE.Call>, m: nat)
    requires plan.Valid() && trace == RE.ExpectedTrace(w, plan.u.n) && m <= |trace|
    requires RA.FailedCommitsHaveNoEffect(w, plan.u.n)
    requires RoutingBack(plan.u, RR.Effected(w, trace[..m])) && plan.Did(RR.Effected(w, trace[..m]), RE.Commit)
    ensures RE.Call(RE.Rollback, plan.at) in trace[..m]
  {
    hide RE.ExpectedTrace;
    if RR.Did(plan.u, RR.Effected(w, trace[..m]), RE.Rollback, RoutingRuntimes.Router) {
      OutboundRollsBackFirst(plan, w, trace, m, RoutingRuntimes.Router);
    } else {
      OutboundRollsBackFirst(plan, w, trace, m, RoutingRuntimes.Policy);
    }
  }

  /** Under the contract on failed commits, a router or policy rolls back after the outbound, if that had committed. */
  lemma OutboundRollsBackFirst(plan: Plan, w: RE.World, trace: seq<RE.Call>, m: nat, c: RoutingRuntimes.Component)
    requires plan.Valid() && trace == RE.ExpectedTrace(w, plan.u.n) && m <= |trace|
    requires RA.FailedCommitsHaveNoEffect(w, plan.u.n) && c != RoutingRuntimes.Outbound
    requires var done := RR.Effected(w, trace[..m]);
      plan.Did(done, RE.Commit) && RR.Did(plan.u, done, RE.Rollback, c)
    ensures RE.Call(RE.Rollback, plan.at) in trace[..m]
  {
    var u := plan.u;
    OutboundPlaces(plan);
    var i := u.At(c).value;
    CommittedThenRolledBack(w, u.n, i, plan.at);
    RR.MadeFirst(w, u.n, trace, m, RE.Call(RE.Rollback, plan.at), RE.Call(RE.Rollback, i));
  }

  lemma CommittedThenRolledBack(w: RE.World, n: nat, i: nat, k: nat)
    requires RA.FailedCommitsHaveNoEffect(w, n) && i < k
    requires RE.Call(RE.Commit, k) in RE.ExpectedTrace(w, n) && RA.Effective(w, RE.Call(RE.Commit, k))
    requires RE.Call(RE.Rollback, i) in RE.ExpectedTrace(w, n)
    ensures RE.Call(RE.Rollback, k) in RE.ExpectedTrace(w, n)
  {
    hide RE.ExpectedTrace, RE.CommittedCount, RE.RollbackCount, RE.AllHealthy;
    RR.CommitMade(w, n, k);
    RA.CallLaws(w, n, i);
    RA.CallLaws(w, n, k);
    RollbackAfterCommits(w, n);
    CommitsStop(w, n);
    RR.EffectiveIsDone(w, n, k);
  }

  lemma CommitsStop(w: RE.World, n: nat)
    requires RE.AllHealthy(w, n)
    ensures RE.CommittedCount(w, n) < n ==> w(RE.Call(RE.Commit, RE.CommittedCount(w, n))).Throws?
  {
  }

  /** When all are healthy and a rollback is made at all, every component whose commit returned is rolled back. */
  lemma RollbackAfterCommits(w: RE.World, n: nat)
    requires RE.AllHealthy(w, n) && 0 < RE.RollbackCount(w, n)
    ensures RE.RollbackCount(w, n) == RE.CommittedCount(w, n)
  {
  }

  /** The component list puts the outbound component where the results need it. */
  lemma PlanIsValid(changed: RR.Changed, id: string, router: RoutingRuntimes.RouterGeneration,
                    policy: RoutingRuntimes.PolicyGeneration, oldId: string, candidate: Candidate)
    returns (plan: Plan)
    requires changed.outbound && oldId != candidate.id
    ensures plan.Valid() && plan.u == RR.SetupFor(changed, id, router, policy)
    ensures plan.oldId == oldId && plan.candidate == candidate
    ensures plan.u.TakesPart() <==> changed.router || changed.policy
  {
    RR.SetupIsValid(changed, id, router, policy);
    var before := (if changed.metrics then 1 else 0) + (if changed.dashboard then 1 else 0)
      + (if changed.router then 1 else 0) + (if changed.policy then 1 else 0);
    plan := Plan(RR.SetupFor(changed, id, router, policy), before, oldId, candidate);
  }

  // ------------------------------------------------------- a run that does it

  /** Router, outbound and DNS change, in that order: the DNS commit misses its deadline, and the outbound's restore is
      refused. */
  function LateDns(): RE.World {
    call =>
      if call == RE.Call(RE.Commit, 2) then RE.Throws("deadline", false)
      else if call == RE.Call(RE.Rollback, 1) then RE.Throws("unavailable", false)
      else RE.Done
  }

  function LateDnsCalls(): seq<RE.Call> {
    [RE.Call(RE.Parse, 0), RE.Call(RE.Validate, 0),
     RE.Call(RE.Prepare, 0), RE.Call(RE.Prepare, 1), RE.Call(RE.Prepare, 2),
     RE.Call(RE.Health, 0), RE.Call(RE.Health, 1), RE.Call(RE.Health, 2),
     RE.Call(RE.Commit, 0), RE.Call(RE.Commit, 1), RE.Call(RE.Commit, 2),
     RE.Call(RE.Rollback, 1), RE.Call(RE.Rollback, 0)]
  }

  lemma LateDnsCounts()
    ensures var w := LateDns();
      && RE.ParsedAndValid(w) && RE.FirstFailing(w, RE.Prepare, 0, 3) == 3 && RE.FirstFailing(w, RE.Health, 0, 3) == 3
      && RE.FirstFailing(w, RE.Commit, 0, 3) == 2 && RE.RollbackCount(w, 3) == 2
  {
    var w := LateDns();
    assert RE.FirstFailing(w, RE.Prepare, 0, 3) == 3 && RE.FirstFailing(w, RE.Health, 0, 3) == 3;
    assert RE.FirstFailing(w, RE.Commit, 0, 3) == 2;
    hide RE.FirstFailing;
    assert RE.PrimaryFailure(w, 3) == Some(RE.Call(RE.Commit, 2));
    assert "deadline"[0] in "deadline";
    assert !RE.Rejected(w, 3);
  }

  lemma LateDnsTrace()
    ensures |RE.ExpectedTrace(LateDns(), 3)| >= 13 && RE.ExpectedTrace(LateDns(), 3)[..13] == LateDnsCalls()
  {
    hide RE.FirstFailing, RE.RollbackCount, RE.PreparedCount, LateDns;
    var w := LateDns();
    LateDnsCounts();
    assert RE.Up(RE.Prepare, 3) == [RE.Call(RE.Prepare, 0), RE.Call(RE.Prepare, 1), RE.Call(RE.Prepare, 2)];
    assert RE.Up(RE.Health, 3) == [RE.Call(RE.Health, 0), RE.Call(RE.Health, 1), RE.Call(RE.Health, 2)];
    assert RE.Up(RE.Commit, 3) == [RE.Call(RE.Commit, 0), RE.Call(RE.Commit, 1), RE.Call(RE.Commit, 2)];
    assert RE.Down(RE.Rollback, 2) == [RE.Call(RE.Rollback, 1), RE.Call(RE.Rollback, 0)];
    assert RE.Forward(w, 3) + RE.Backward(w, 3) == LateDnsCalls();
  }

  /** The last connection of the old generation ends once the outbound has committed. */
  function LastConnectionEnds(): Connections {
    k => if k == 10 then [DoRelease(1)] else []
  }

  lemma {:induction false} NothingYet(a: Adapter, plan: Plan, j: nat)
    requires plan.at == 1 && j <= 9
    ensures After(a, plan, LateDns(), LateDnsCalls()[..j], LastConnectionEnds()) == a
    ensures ThrowingRun(a, plan, LateDns(), LateDnsCalls()[..j], LastConnectionEnds())
  {
    var calls := LateDnsCalls()[..j];
    if j > 0 {
      NothingYet(a, plan, j - 1);
      assert calls[..j - 1] == LateDnsCalls()[..j - 1];
      assert calls[j - 1] == LateDnsCalls()[j - 1];
    }
  }

  /** One connection is on the generation in force. */
  ghost predicate OneConnection(s: Registry) {
    && Inv(s) && s.refs.Keys == {1} && s.refs[1].generationId == s.activeId
    && s.activeId in s.records && s.records[s.activeId].references == 1
  }

  /** Once the candidate is in force, the end of that connection takes the old generation out. */
  lemma LastReleaseTakesOut(s: Registry, next: Candidate)
    requires OneConnection(s) && FreshObjects(s, next) && Switch(s, next).Ok?
    ensures TakenOutBy(Switch(s, next).value, [DoRelease(1)], s.activeId)
  {
    hide CountsExact, RefsResolve, Distinct, NewObjects, ValidateError;
    SwitchKeeps(s, next);
    var s' := Switch(s, next).value;
    assert OpenTcps.Taken(s', DoRelease(1), None);
    assert TakesOut(s', DoRelease(1), s.activeId);
  }

  lemma LateDnsTakesOut(a: Adapter, plan: Plan)
    requires plan.at == 1 && plan.oldId == a.registry.activeId && OneConnection(a.registry)
    requires FreshObjects(a.registry, plan.candidate) && Switch(a.registry, plan.candidate).Ok?
    ensures ThrowingRun(a, plan, LateDns(), LateDnsCalls()[..11], LastConnectionEnds())
    ensures TakenOut(a, plan, LateDns(), LateDnsCalls()[..11], LastConnectionEnds())
  {
    hide Inv, FreshObjects, Switch, TakenOutBy;
    var w, others, calls := LateDns(), LastConnectionEnds(), LateDnsCalls();
    NothingYet(a, plan, 9);
    LastReleaseTakesOut(a.registry, plan.candidate);
    assert calls[..10][..9] == calls[..9] && calls[..10][9] == RE.Call(RE.Commit, 1);
    assert AfterCall(a, plan, w, RE.Call(RE.Commit, 1)) == Adapter(Switch(a.registry, plan.candidate).value, true);
    assert TakenOut(a, plan, w, calls[..10], others) && ThrowingRun(a, plan, w, calls[..10], others);
    assert calls[..11][..10] == calls[..10] && calls[..11][10] == RE.Call(RE.Commit, 2);
  }

  lemma LateDnsRuns(a: Adapter, plan: Plan)
    requires plan.at == 1 && plan.u.n == 3 && Begins(a, plan) && OneConnection(a.registry)
    requires Switch(a.registry, plan.candidate).Ok?
    ensures ThrowingRun(a, plan, LateDns(), LateDnsCalls(), LastConnectionEnds())
    ensures OnlyRefused(a, plan, LateDns(), LateDnsCalls(), LastConnectionEnds())
    ensures TakenOutBeforeUndo(a, plan, LateDns(), LateDnsCalls(), LastConnectionEnds())
  {
    hide Inv, FreshObjects, Switch, TakenOut, AfterCall, After, Restore, RE.ExpectedTrace;
    var w, others, calls := LateDns(), LastConnectionEnds(), LateDnsCalls();
    LateDnsTrace();
    LateDnsTakesOut(a, plan);
    var trace := RE.ExpectedTrace(w, 3);
    assert trace[..11] == calls[..11] && trace[11] == trace[..13][11] == calls[11] == RE.Call(RE.Rollback, 1);
    assert calls[..11][9] == RE.Call(RE.Commit, 1);
    RestoreIsRefusedExactlyWhen(a, plan, w, trace, 11, others);
    assert RE.Call(RE.Commit, 1) in RR.Effected(w, trace[..11]);
    assert RefusedOnly(After(a, plan, w, calls[..11], others), plan, w, calls[11]);
    forall k | 0 <= k < |calls| ensures RefusedOnly(After(a, plan, w, calls[..k], others), plan, w, calls[k]) {
      if k != 11 {
        assert calls[k] != RE.Call(RE.Rollback, 1);
      }
    }
    assert calls[..12][..11] == calls[..11] && calls[..12][11] == RE.Call(RE.Rollback, 1);
    assert ThrowingRun(a, plan, w, calls[..12], others);
    assert calls[..13][..12] == calls[..12] && calls[..13] == calls;
  }

  /** The input: with a single connection on the generation in force, a reload of router, outbound and DNS whose DNS
      commit comes too late leaves the old pair in force with the new generation, and the old generation gone. */
  lemma LateDnsComesApart(s: Registry, candidate: Candidate, pair: RoutingRuntimes.RoutingPair, id: string,
                          router: RoutingRuntimes.RouterGeneration, policy: RoutingRuntimes.PolicyGeneration)
    returns (plan: Plan)
    requires OneConnection(s) && FreshObjects(s, candidate) && Switch(s, candidate).Ok? && router != pair.router
    ensures plan.u == RR.SetupFor(RR.Changed(false, false, true, false, true, true), id, router, policy)
    ensures plan.candidate == candidate && Begins(Adapter(s, false), plan)
    ensures RA.FailedCommitsHaveNoEffect(LateDns(), 3) && OnlyConnections(LastConnectionEnds())
    ensures Apart(RoutingSafety.Start(pair), Adapter(s, false), plan, LateDns(), _ => [], LastConnectionEnds(),
                  RE.ExpectedTrace(LateDns(), plan.u.n)[..13])
  {
    hide Inv, FreshObjects, Apart, TakenOutBeforeUndo, ThrowingRun, OnlyRefused, RE.ExpectedTrace;
    var changed := RR.Changed(false, false, true, false, true, true);
    plan := PlanIsValid(changed, id, router, policy, s.activeId, candidate);
    LateDnsTrace();
    LateDnsRuns(Adapter(s, false), plan);
    RoutingSafety.InitiallyInv(pair, id);
    assert LateDnsCalls()[12] == RE.Call(RE.Rollback, 0);
    ApartExactlyWhen(RoutingSafety.Start(pair), Adapter(s, false), plan, LateDns(), _ => [], LastConnectionEnds(), 13);
  }

  /** There are such registries. */
  lemma OneConnectionExists(initial: Candidate, tag: string)
    requires initial.outbounds.Valid() && Distinct(initial.outbounds.Values()) && tag in initial.outbounds.vals
    ensures OneConnection(Acquire(Start(initial), tag, initial.id).0)
  {
    StartInv(initial);
    AcquireKeeps(Start(initial), tag, initial.id);
  }

  // ---------------------------------------------------------- trying it again

  /** A generation is not in force, and there only while it is referenced. */
  ghost predicate OnlyInUse(s: Registry, id: string) {
    id != s.activeId && (id in s.records ==> 0 < s.records[id].references)
  }

  lemma StepKeepsInUse(s: Registry, step: Step, id: string)
    requires Inv(s) && IsConnection(step) && OnlyInUse(s, id)
    ensures OnlyInUse(Apply(s, step), id)
  {
    hide CountsExact, RefsResolve, OneActive, Distinct;
    match step
    case DoAcquire(_, _) =>
    case DoRelease(ref) =>
    case DoRetire(_) =>
  }

  lemma {:induction false} ConnectionsKeepInUse(s: Registry, steps: seq<Step>, id: string)
    requires Inv(s) && OnlyInUse(s, id) && forall i :: 0 <= i < |steps| ==> IsConnection(steps[i])
    ensures OnlyInUse(OpenTcps.Others(s, steps, None), id)
    decreases |steps|
  {
    hide CountsExact, RefsResolve, OneActive, Distinct, Apply, OnlyInUse;
    if steps != [] {
      StepKeeps(s, steps[0]);
      StepKeepsInUse(s, steps[0], id);
      ConnectionsKeepInUse(Apply(s, steps[0]), steps[1..], id);
    }
  }

  /** Once the outbound is back and its cleanup has taken effect, the candidate is there only while it is referenced. */
  lemma {:induction false} CandidateOnlyInUse(a: Adapter, plan: Plan, w: RE.World, calls: seq<RE.Call>,
                                              others: Connections)
    requires Begins(a, plan) && OnlyConnections(others)
    requires RR.AllInTurn(plan.u, w, calls) && ThrowingRun(a, plan, w, calls, others)
    requires plan.Did(RR.Effected(w, calls), RE.Cleanup) && !OutboundSwitched(plan, RR.Effected(w, calls))
    ensures OnlyInUse(After(a, plan, w, calls, others).registry, plan.candidate.id)
    decreases |calls|
  {
    hide Inv, FreshObjects, AfterCall, Throwing, OnlyInUse, TakenOut, NoCleanup, RegistryAsDone, OutboundSwitched,
      RR.InTurn, RR.AllInTurn, RR.Effected, ThrowingRun, After;
    NothingEffected(w);
    var before, call := OneMoreCall(a, plan, w, calls, others);
    var b, done := After(a, plan, w, before, others), RR.Effected(w, before);
    OldIsThereExactlyWhen(a, plan, w, before, others);
    RegistryFollows(a, plan, w, before, others);
    if plan.Did(done, RE.Cleanup) && !OutboundSwitched(plan, done) {
      CandidateOnlyInUse(a, plan, w, before, others);
    }
    CallKeepsSound(b, plan, w, done, call);
    LateCallKeepsInUse(b, plan, w, done, call);
    ConnectionsKeepInUse(AfterCall(b, plan, w, call).registry, others(|calls|), plan.candidate.id);
  }

  lemma NothingEffected(w: RE.World)
    ensures RR.Effected(w, []) == {}
  {
  }

  lemma LateCallKeepsInUse(b: Adapter, plan: Plan, w: RE.World, done: RR.Calls, call: RE.Call)
    requires plan.Valid() && RegistryAsDone(b, plan, done) && Sound(b.registry, plan, done)
    requires RR.InTurn(plan.u, done, call)
    requires var after := done + if RA.Effective(w, call) then {call} else {};
      plan.Did(after, RE.Cleanup) && !OutboundSwitched(plan, after)
    requires plan.Did(done, RE.Cleanup) && !OutboundSwitched(plan, done) ==> OnlyInUse(b.registry, plan.candidate.id)
    ensures OnlyInUse(AfterCall(b, plan, w, call).registry, plan.candidate.id)
  {
    hide Inv, AllValid, FreshObjects, Switch, Restore;
    assert call == RE.Call(call.stage, call.component);
    assert AllValid(b.registry) by { InvIsValid(b.registry); }
  }

  lemma InvIsValid(s: Registry)
    requires Inv(s)
    ensures AllValid(s)
  {
  }

  /** Before an outbound commit a reload leaves the registry to connections, once its adapter has nothing to undo. */
  lemma {:induction false} UntilCommitted(b: Adapter, plan: Plan, w: RE.World, calls: seq<RE.Call>, others: Connections,
                                          id: string)
    requires Inv(b.registry) && OnlyInUse(b.registry, id) && !b.switched && OnlyConnections(others)
    requires forall k :: 0 <= k < |calls| && calls[k].component == plan.at ==>
      calls[k].stage != RE.Commit && calls[k].stage != RE.Cleanup
    ensures var c := After(b, plan, w, calls, others);
      Inv(c.registry) && OnlyInUse(c.registry, id) && !c.switched
    decreases |calls|
  {
    hide Inv, OnlyInUse, Switch, Restore, Retire;
    if calls == [] {
      ConnectionsKeep(b.registry, others(0), id, plan.candidate);
      ConnectionsKeepInUse(b.registry, others(0), id);
    } else {
      var m := |calls| - 1;
      UntilCommitted(b, plan, w, calls[..m], others, id);
      var c := After(b, plan, w, calls[..m], others);
      assert AfterCall(c, plan, w, calls[m]) == c;
      ConnectionsKeep(c.registry, others(m + 1), id, plan.candidate);
      ConnectionsKeepInUse(c.registry, others(m + 1), id);
    }
  }

  lemma BeforeCommit(w: RE.World, n: nat, trace: seq<RE.Call>, k: nat, at: nat)
    requires trace == RE.ExpectedTrace(w, n) && k < |trace| && trace[k] == RE.Call(RE.Commit, at)
    ensures forall j :: 0 <= j < k && trace[..k][j].component == at ==>
      trace[..k][j].stage != RE.Commit && trace[..k][j].stage != RE.Cleanup
  {
    hide RE.ExpectedTrace;
    forall j | 0 <= j < k && trace[..k][j].component == at
      ensures trace[..k][j].stage != RE.Commit && trace[..k][j].stage != RE.Cleanup
    {
      RR.EarlierCall(w, n, trace, k, trace[..k][j]);
    }
  }

  lemma InUseIsHeld(s: Registry, id: string)
    requires Inv(s) && OnlyInUse(s, id)
    ensures id in s.records <==> exists t :: t in s.refs && s.refs[t].generationId == id
  {
    hide RefsResolve, ObjectsSeparate, OneActive;
    if id in s.records {
      var t := CountedIsHeld(s.refs, GenerationOf, id);
    }
    forall t | t in s.refs ensures s.refs[t].generationId in s.records {
      HeldGenerationIsThere(s, t);
    }
  }

  /** Main result over two reloads. A reload that is not committed does not use its id up, so the next one brings a
      generation of the same id. After any reload whose outbound is back, and whose cleanup of it took effect, the next
      one's switch is refused, its generation existing already, exactly while a reference on the one that was rolled
      back is still held: the connections made while it was in force. */
  lemma RetryIsRefusedExactlyWhen(a: Adapter, plan: Plan, w: RE.World, others: Connections,
                                  retry: Plan, w': RE.World, others': Connections, k: nat)
    requires Begins(a, plan) && OnlyConnections(others)
    requires ThrowingRun(a, plan, w, RE.ExpectedTrace(w, plan.u.n), others)
    requires var done := RR.Effected(w, RE.ExpectedTrace(w, plan.u.n));
      plan.Did(done, RE.Cleanup) && !OutboundSwitched(plan, done)
    requires retry.candidate.id == plan.candidate.id && OnlyConnections(others')
    requires k < |RE.ExpectedTrace(w', retry.u.n)|
    requires RE.ExpectedTrace(w', retry.u.n)[k] == RE.Call(RE.Commit, retry.at)
    ensures var s0 := After(a, plan, w, RE.ExpectedTrace(w, plan.u.n), others).registry;
      var s := After(Adapter(s0, false), retry, w', RE.ExpectedTrace(w', retry.u.n)[..k], others').registry;
      Switch(s, retry.candidate) == Err("outbound runtime generation already exists") <==>
      exists t :: t in s.refs && s.refs[t].generationId == plan.candidate.id
  {
    hide Inv, FreshObjects, After, ThrowingRun, OnlyInUse, RE.ExpectedTrace, OutboundSwitched, TakenOut;
    var trace, trace', id := RE.ExpectedTrace(w, plan.u.n), RE.ExpectedTrace(w', retry.u.n), plan.candidate.id;
    assert trace[..|trace|] == trace;
    TraceInTurn(plan.u, w, trace, |trace|);
    OldIsThereExactlyWhen(a, plan, w, trace, others);
    CandidateOnlyInUse(a, plan, w, trace, others);
    var b := Adapter(After(a, plan, w, trace, others).registry, false);
    BeforeCommit(w', retry.u.n, trace', k, retry.at);
    UntilCommitted(b, retry, w', trace'[..k], others', id);
    InUseIsHeld(After(b, retry, w', trace'[..k], others').registry, id);
    AlreadyExistsMeans(After(b, retry, w', trace'[..k], others').registry, retry.candidate);
  }
}
