/** Opening a connection over the candidates of a policy (`openTcp`, `bindOutboundReference` in
    `src/core/engine.ts`). */
module OpenTcps {
  import opened Common
  import opened OrderedMaps
  import opened Handles
  import opened OutboundRegistries
  import opened RegistrySafety
  import RP = RoutingPolicies

  /** What happens outside, by attempt: whether the outbound connects, how long that takes, and what the clock says on
      failure; what everyone else does to the registry while the connection is awaited and while the release is, and
      what they report to the policy manager; and which outbounds reject when they are stopped. */
  datatype World = World(
    connects: nat -> bool,
    latency: nat -> real,
    clock: nat -> int,
    meanwhile: nat -> seq<Step>,
    afterwards: nat -> seq<Step>,
    reports: nat -> seq<RP.Event>,
    rejects: Outbound -> bool)
  {
    /** Generations come with real maps of outbounds, and random draws are below one. */
    ghost predicate WellFormed() {
      && (forall i, k :: 0 <= k < |meanwhile(i)| && meanwhile(i)[k].DoSwitch? ==>
            meanwhile(i)[k].candidate.outbounds.Valid())
      && (forall i, k :: 0 <= k < |afterwards(i)| && afterwards(i)[k].DoSwitch? ==>
            afterwards(i)[k].candidate.outbounds.Valid())
      && (forall i :: RP.Drawn(reports(i)))
    }
  }

  type Outbounds = map<string, Outbound>

  /** How an attempt ends: no such outbound; refused, and its reference given back; connected; or refused, and giving
      the reference back threw, because it retired a generation and a stop was rejected. */
  datatype Outcome = Missing | Refused | Connected | StopRejected

  /** One round of the loop: the outbound found, if any, the reference held on it, if any, and the outcome. */
  datatype Try = Try(tag: string, outbound: Option<Outbound>, ref: Option<nat>, outcome: Outcome) {
    /** Whether the loop ends here: with a connection, or with the exception that leaves the handler. */
    predicate Ends() {
      outcome == Connected || outcome == StopRejected
    }
  }

  // ------------------------------------------------------------- one attempt

  /** Whether someone else's step is taken: nothing that is not permitted, and nobody releases a reference that is not
      theirs. */
  ghost predicate Taken(s: Registry, step: Step, ours: Option<nat>) {
    AllValid(s) && Permitted(s, step) && (ours.Some? ==> step != DoRelease(ours.value))
  }

  ghost function Others(s: Registry, steps: seq<Step>, ours: Option<nat>): Registry
    decreases |steps|
  {
    if steps == [] then s
    else Others(if Taken(s, steps[0], ours) then Apply(s, steps[0]) else s, steps[1..], ours)
  }

  /** The outbound of a reference, or else the one the engine itself knows. */
  function Found(s: Registry, tag: string, ref: Option<nat>, known: Outbounds): Option<Outbound> {
    if ref.Some? && ref.value in s.refs then Some(s.refs[ref.value].outbound)
    else if tag in known then Some(known[tag])
    else None
  }

  /** The registry once the connection has been awaited, with the reference still held. */
  ghost function Awaited(s: Registry, tag: string, w: World, i: nat): Registry {
    var (held, ref) := Acquire(s, tag, s.activeId);
    Others(held, w.meanwhile(i), ref)
  }

  /** How an attempt ends once its connection has been awaited. */
  ghost function Conclude(later: Registry, tag: string, outbound: Outbound, ref: Option<nat>, w: World, i: nat)
    : (Registry, Try)
  {
    if w.connects(i) then (later, Try(tag, Some(outbound), ref, Connected))
    else if ref.None? || !AllValid(later) then (later, Try(tag, Some(outbound), ref, Refused))
    else
      (Others(Release(later, ref.value), w.afterwards(i), None),
       Try(tag, Some(outbound), ref, if ReleaseThrows(later, ref.value, w.rejects) then StopRejected else Refused))
  }

  ghost function Attempt(s: Registry, tag: string, known: Outbounds, w: World, i: nat): (Registry, Try) {
    var (held, ref) := Acquire(s, tag, s.activeId);
    var outbound := Found(held, tag, ref, known);
    if outbound.None? then (held, Try(tag, None, None, Missing))
    else Conclude(Awaited(s, tag, w, i), tag, outbound.value, ref, w, i)
  }

  /** What the policy manager hears of an attempt: others' reports while it waits, and its own outcome. An exception
      that leaves the handler is not reported. */
  function Heard(t: Try, w: World, i: nat): seq<RP.Event> {
    (if t.outcome == Missing then [] else w.reports(i)) + Own(t, w, i)
  }

  function Own(t: Try, w: World, i: nat): seq<RP.Event> {
    match t.outcome
    case Connected => [RP.Success(t.tag, w.latency(i))]
    case StopRejected => []
    case _ => [RP.Failure(t.tag, w.clock(i))]
  }

  function History(tries: seq<Try>, w: World): seq<RP.Event> {
    if tries == [] then []
    else
      var n := |tries| - 1;
      History(tries[..n], w) + Heard(tries[n], w, n)
  }

  // ------------------------------------------------------------ whole openings

  /** The loop over the candidates, so far: the registry before each attempt and after the last, and the attempts. */
  datatype Opening = Opening(states: seq<Registry>, tries: seq<Try>) {
    ghost predicate Follows(s: Registry, candidates: seq<string>, known: Outbounds, w: World) {
      && |tries| <= |candidates| && |states| == |tries| + 1 && states[0] == s
      && (forall k {:trigger tries[k]} :: 0 <= k < |tries| ==>
            (states[k + 1], tries[k]) == Attempt(states[k], candidates[k], known, w, k))
      && (forall k :: 0 <= k < |tries| - 1 ==> !tries[k].Ends())
    }

    predicate Ended() {
      tries != [] && tries[|tries| - 1].Ends()
    }

    predicate Won() {
      tries != [] && tries[|tries| - 1].outcome == Connected
    }

    predicate GaveUp() {
      tries != [] && tries[|tries| - 1].outcome == StopRejected
    }

    function End(): Registry
      requires states != []
    {
      states[|states| - 1]
    }
  }

  /** An opening from beginning to end. */
  ghost predicate IsOpening(o: Opening, s: Registry, candidates: seq<string>, known: Outbounds, w: World) {
    o.Follows(s, candidates, known, w) && (o.Ended() || |o.tries| == |candidates|)
  }

  lemma OneMoreAttempt(o: Opening, s: Registry, candidates: seq<string>, known: Outbounds, w: World,
                       after: Registry, t: Try)
    requires o.Follows(s, candidates, known, w) && !o.Ended() && |o.tries| < |candidates|
    requires (after, t) == Attempt(o.End(), candidates[|o.tries|], known, w, |o.tries|)
    ensures Opening(o.states + [after], o.tries + [t]).Follows(s, candidates, known, w)
  {
    hide Attempt;
    var n := |o.tries|;
    var o' := Opening(o.states + [after], o.tries + [t]);
    forall k {:trigger o'.tries[k]} | 0 <= k < n + 1
      ensures (o'.states[k + 1], o'.tries[k]) == Attempt(o'.states[k], candidates[k], known, w, k)
    {
      if k < n {
        assert o'.tries[k] == o.tries[k];
      }
    }
  }

  /** There is an opening for every registry, every list of candidates and every world. */
  lemma {:induction false} OpeningExists(o: Opening, s: Registry, candidates: seq<string>, known: Outbounds, w: World)
    returns (whole: Opening)
    requires o.Follows(s, candidates, known, w)
    ensures IsOpening(whole, s, candidates, known, w)
    decreases |candidates| - |o.tries|
  {
    if o.Ended() || |o.tries| == |candidates| {
      return o;
    }
    var (after, t) := Attempt(o.End(), candidates[|o.tries|], known, w, |o.tries|);
    OneMoreAttempt(o, s, candidates, known, w, after, t);
    whole := OpeningExists(Opening(o.states + [after], o.tries + [t]), s, candidates, known, w);
  }

  // ----------------------------------------------------------------- the code

  /** The release bound to a socket: `released` lets only its first call through. */
  class BoundReference {
    const registry: OutboundRuntimeRegistry
    const ref: nat
    var released: bool

    constructor (registry: OutboundRuntimeRegistry, ref: nat)
      ensures this.registry == registry && this.ref == ref && !released
    {
      this.registry, this.ref, released := registry, ref, false;
    }

    /** An exception of the release is caught and logged. */
    method Release(rejects: Outbound -> bool)
      requires registry.Valid()
      modifies this, registry
      ensures registry.Valid() && released
      ensures registry.State() ==
        if old(released) then old(registry.State()) else OutboundRegistries.Release(old(registry.State()), ref)
    {
      if released {
        return;
      }
      released := true;
      var _ := registry.ReleaseOutboundRef(ref, rejects);
    }
  }

  ghost predicate Binds(b: BoundReference, registry: OutboundRuntimeRegistry, ref: Option<nat>)
    reads b
  {
    b.registry == registry && !b.released && ref == Some(b.ref)
  }

  /** Someone else's step, on the registry itself. */
  method Act(registry: OutboundRuntimeRegistry, step: Step, ours: Option<nat>, rejects: Outbound -> bool)
    requires registry.Valid() && (step.DoSwitch? ==> step.candidate.outbounds.Valid())
    modifies registry
    ensures registry.Valid()
    ensures var s := old(registry.State());
      registry.State() == if Taken(s, step, ours) then Apply(s, step) else s
  {
    match step {
      case DoAcquire(tag, id) => var _ := registry.AcquireOutboundRef(tag, id);
      case DoRelease(ref) =>
        if ours != Some(ref) {
          var _ := registry.ReleaseOutboundRef(ref, rejects);
        }
      case DoSwitch(c) =>
        if NewObjects(registry.State(), c) {
          var _ := registry.SwitchGeneration(c);
        }
      case DoRestore(oldId) => var _ := registry.RestoreGeneration(oldId, registry.activeGenerationId);
      case DoMarkDraining(id) => var _ := registry.MarkGenerationDraining(id);
      case DoRetire(id) => var _, _ := registry.RetireIfUnused(id, rejects);
    }
  }

  /** What others do while the loop awaits something. */
  method OthersAct(registry: OutboundRuntimeRegistry, steps: seq<Step>, ours: Option<nat>, rejects: Outbound -> bool)
    requires registry.Valid()
    requires forall k :: 0 <= k < |steps| && steps[k].DoSwitch? ==> steps[k].candidate.outbounds.Valid()
    modifies registry
    ensures registry.Valid() && registry.State() == Others(old(registry.State()), steps, ours)
  {
    ghost var rest := steps;
    for i := 0 to |steps|
      invariant registry.Valid() && rest == steps[i..]
      invariant Others(registry.State(), rest, ours) == Others(old(registry.State()), steps, ours)
    {
      Act(registry, steps[i], ours, rejects);
      rest := rest[1..];
    }
  }

  /** The body of the loop: one candidate. */
  method TryOne(registry: OutboundRuntimeRegistry, policyManager: RP.RoutingPolicyManager, known: Outbounds,
                outboundTag: string, w: World, i: nat)
    returns (t: Try, bound: Option<BoundReference>)
    requires registry.Valid() && policyManager.Valid() && w.WellFormed()
    modifies registry, policyManager
    ensures registry.Valid() && policyManager.Valid()
    ensures (registry.State(), t) == Attempt(old(registry.State()), outboundTag, known, w, i)
    ensures policyManager.State() == RP.RunAll(old(policyManager.State()), Heard(t, w, i))
    ensures bound.Some? <==> t.outcome == Connected && t.ref.Some?
    ensures bound.Some? ==> fresh(bound.value) && Binds(bound.value, registry, t.ref)
  {
    hide Acquire, Others;
    var reference := registry.AcquireOutboundRef(outboundTag, registry.activeGenerationId);
    var outbound := Found(registry.State(), outboundTag, reference, known);
    if outbound.None? {
      t := Try(outboundTag, None, None, Missing);
      Report(policyManager, t, w, i);
      return t, None;
    }
    OthersAct(registry, w.meanwhile(i), reference, w.rejects);
    if w.connects(i) {
      t, bound := Try(outboundTag, outbound, reference, Connected), None;
      if reference.Some? {
        var b := new BoundReference(registry, reference.value);
        bound := Some(b);
      }
      Report(policyManager, t, w, i);
      return;
    }
    var threw := false;
    if reference.Some? {
      threw := registry.ReleaseOutboundRef(reference.value, w.rejects);
      OthersAct(registry, w.afterwards(i), None, w.rejects);
    }
    t := Try(outboundTag, outbound, reference, if threw then StopRejected else Refused);
    Report(policyManager, t, w, i);
    return t, None;
  }

  /** What the policy manager hears meanwhile, and `recordSuccess` or `recordFailure`. */
  method Report(policyManager: RP.RoutingPolicyManager, t: Try, w: World, i: nat)
    requires policyManager.Valid() && w.WellFormed()
    modifies policyManager
    ensures policyManager.Valid() && policyManager.State() == RP.RunAll(old(policyManager.State()), Heard(t, w, i))
  {
    policyManager.Hear(Heard(t, w, i));
  }

  /** The loop over the candidates. */
  method TryAll(registry: OutboundRuntimeRegistry, policyManager: RP.RoutingPolicyManager, known: Outbounds,
                candidates: seq<string>, w: World)
    returns (tries: seq<Try>, bound: Option<BoundReference>, ghost states: seq<Registry>)
    requires registry.Valid() && policyManager.Valid() && w.WellFormed()
    modifies registry, policyManager
    ensures registry.Valid() && policyManager.Valid()
    ensures IsOpening(Opening(states, tries), old(registry.State()), candidates, known, w)
    ensures registry.State() == Opening(states, tries).End()
    ensures policyManager.State() == RP.RunAll(old(policyManager.State()), History(tries, w))
    ensures bound.Some? <==> Opening(states, tries).Won() && tries[|tries| - 1].ref.Some?
    ensures bound.Some? ==> fresh(bound.value) && Binds(bound.value, registry, tries[|tries| - 1].ref)
  {
    hide Attempt;
    ghost var s, m := registry.State(), policyManager.State();
    tries, bound, states := [], None, [s];
    for i := 0 to |candidates|
      invariant registry.Valid() && policyManager.Valid() && |tries| == i && |states| == i + 1
      invariant Opening(states, tries).Follows(s, candidates, known, w) && !Opening(states, tries).Ended()
      invariant registry.State() == states[i] && bound.None?
      invariant policyManager.State() == RP.RunAll(m, History(tries, w))
    {
      var t;
      t, bound := TryOne(registry, policyManager, known, candidates[i], w, i);
      OneMoreAttempt(Opening(states, tries), s, candidates, known, w, registry.State(), t);
      OneMoreHeard(m, tries, t, w);
      tries, states := tries + [t], states + [registry.State()];
      if t.Ends() {
        return;
      }
    }
  }

  lemma OneMoreHeard(m: RP.Manager, tries: seq<Try>, t: Try, w: World)
    ensures RP.RunAll(m, History(tries + [t], w)) == RP.RunAll(RP.RunAll(m, History(tries, w)), Heard(t, w, |tries|))
  {
    assert (tries + [t])[..|tries|] == tries;
    RP.RunAppend(m, History(tries, w), Heard(t, w, |tries|));
  }

  method OpenTcp(registry: OutboundRuntimeRegistry, policyManager: RP.RoutingPolicyManager, known: Outbounds,
                 route: string, now: int, draw: real, w: World)
    returns (connection: Option<Outbound>, bound: Option<BoundReference>, ghost o: Opening)
    requires registry.Valid() && policyManager.Valid() && 0.0 <= draw < 1.0 && w.WellFormed()
    modifies registry, policyManager
    ensures registry.Valid() && policyManager.Valid()
    ensures var m := old(policyManager.State());
      && IsOpening(o, old(registry.State()), m.Candidates(route, now, draw), known, w)
      && registry.State() == o.End()
      && policyManager.State() == RP.RunAll(m.AfterSelect(route), History(o.tries, w))
    ensures connection == if o.Won() then o.tries[|o.tries| - 1].outbound else None
    ensures bound.Some? <==> o.Won() && o.tries[|o.tries| - 1].ref.Some?
    ensures bound.Some? ==> fresh(bound.value) && Binds(bound.value, registry, o.tries[|o.tries| - 1].ref)
  {
    hide IsOpening;
    var candidates := policyManager.Select(route, now, draw);
    var tries;
    ghost var states;
    tries, bound, states := TryAll(registry, policyManager, known, candidates, w);
    o := Opening(states, tries);
    if tries != [] && tries[|tries| - 1].outcome == Connected {
      return tries[|tries| - 1].outbound, bound, o;
    }
    return None, bound, o;
  }

  // ------------------------------------------------------------ what others do

  lemma {:induction false} OthersKeep(s: Registry, steps: seq<Step>, ours: Option<nat>)
    requires Inv(s)
    ensures Inv(Others(s, steps, ours))
    decreases |steps|
  {
    if steps != [] {
      if Taken(s, steps[0], ours) {
        StepKeeps(s, steps[0]);
        OthersKeep(Apply(s, steps[0]), steps[1..], ours);
      } else {
        OthersKeep(s, steps[1..], ours);
      }
    }
  }

  /** What a step leaves alone: references it does not release, and numbers given out before. */
  ghost predicate Leaves(s: Registry, s': Registry, ours: Option<nat>) {
    && s.nextReferenceId <= s'.nextReferenceId
    && (ours.Some? && ours.value in s.refs ==> ours.value in s'.refs && s'.refs[ours.value] == s.refs[ours.value])
    && (forall t :: t < s.nextReferenceId && t !in s.refs ==> t !in s'.refs)
  }

  lemma StepLeaves(s: Registry, step: Step, ours: Option<nat>)
    requires AllValid(s) && (ours.Some? ==> step != DoRelease(ours.value) && ours.value < s.nextReferenceId)
    ensures Leaves(s, Apply(s, step), ours)
  {
    hide AllValid, ValidateError;
    match step
    case DoAcquire(tag, id) =>
    case DoRelease(ref) => if ref in s.refs { assert Uncount(s, ref).refs == s.refs - {ref}; }
    case DoSwitch(c) =>
    case DoRestore(oldId) =>
    case DoMarkDraining(id) =>
    case DoRetire(id) =>
  }

  lemma {:induction false} OthersLeave(s: Registry, steps: seq<Step>, ours: Option<nat>)
    requires ours.Some? ==> ours.value < s.nextReferenceId
    ensures Leaves(s, Others(s, steps, ours), ours)
    decreases |steps|
  {
    if steps != [] {
      if Taken(s, steps[0], ours) {
        StepLeaves(s, steps[0], ours);
        OthersLeave(Apply(s, steps[0]), steps[1..], ours);
      } else {
        OthersLeave(s, steps[1..], ours);
      }
    }
  }

  // ------------------------------------------------- what one attempt leaves

  lemma AwaitedKeeps(s: Registry, tag: string, w: World, i: nat)
    requires Inv(s)
    ensures Inv(Awaited(s, tag, w, i))
  {
    var (held, ref) := Acquire(s, tag, s.activeId);
    AcquireKeeps(s, tag, s.activeId);
    OthersKeep(held, w.meanwhile(i), ref);
  }

  /** Waiting keeps the reference, and the outbound it was given. */
  lemma AwaitedHolds(s: Registry, tag: string, known: Outbounds, w: World, i: nat)
    requires Inv(s)
    ensures var later, ref := Awaited(s, tag, w, i), Acquire(s, tag, s.activeId).1;
      && s.nextReferenceId <= later.nextReferenceId
      && (forall r :: r < s.nextReferenceId && r !in s.refs ==> r !in later.refs)
      && (ref.Some? ==>
            && s.nextReferenceId == ref.value < later.nextReferenceId && ref.value in later.refs
            && Some(later.refs[ref.value].outbound) == Found(Acquire(s, tag, s.activeId).0, tag, ref, known))
  {
    var (held, ref) := Acquire(s, tag, s.activeId);
    OthersLeave(held, w.meanwhile(i), ref);
  }

  lemma ConcludeKeeps(later: Registry, tag: string, outbound: Outbound, ref: Option<nat>, w: World, i: nat)
    requires Inv(later)
    ensures Inv(Conclude(later, tag, outbound, ref, w, i).0)
  {
    hide OneActive, CountsExact, Release, Others;
    if ref.Some? {
      ReleaseKeeps(later, ref.value);
      OthersKeep(Release(later, ref.value), w.afterwards(i), None);
    }
  }

  lemma AttemptKeeps(s: Registry, tag: string, known: Outbounds, w: World, i: nat)
    requires Inv(s)
    ensures Inv(Attempt(s, tag, known, w, i).0)
  {
    var (held, ref) := Acquire(s, tag, s.activeId);
    var outbound := Found(held, tag, ref, known);
    if outbound.None? {
      AcquireKeeps(s, tag, s.activeId);
    } else {
      AwaitedKeeps(s, tag, w, i);
      ConcludeKeeps(Awaited(s, tag, w, i), tag, outbound.value, ref, w, i);
    }
  }

  /** A reference from an attempt: gone if the attempt failed; otherwise held, and still on the outbound that
      connected, which nobody has stopped. */
  ghost predicate Settled(s: Registry, t: Try) {
    t.ref.Some? ==>
      if t.outcome == Connected then
        && t.ref.value in s.refs && Some(s.refs[t.ref.value].outbound) == t.outbound
        && s.refs[t.ref.value].outbound !in s.stopped
      else t.ref.value !in s.refs
  }

  /** The numbers an attempt uses, and those it leaves unused. */
  ghost predicate Numbered(s: Registry, after: Registry, t: Try) {
    && s.nextReferenceId <= after.nextReferenceId
    && (t.ref.Some? ==> s.nextReferenceId <= t.ref.value < after.nextReferenceId)
    && (forall r :: r < s.nextReferenceId && r !in s.refs ==> r !in after.refs)
  }

  lemma GivenBackIsGone(s: Registry, ref: nat, steps: seq<Step>)
    requires Inv(s) && ref in s.refs
    ensures var after := Others(Release(s, ref), steps, None);
      && ref !in after.refs && s.nextReferenceId <= after.nextReferenceId
      && forall r :: r < s.nextReferenceId && r !in s.refs ==> r !in after.refs
  {
    var back := Release(s, ref);
    assert Uncount(s, ref).refs == s.refs - {ref};
    assert back.refs == s.refs - {ref} && back.nextReferenceId == s.nextReferenceId;
    OthersLeave(back, steps, None);
  }

  lemma ConcludeSettles(later: Registry, tag: string, outbound: Outbound, ref: Option<nat>, w: World, i: nat)
    requires Inv(later)
    requires ref.Some? ==> ref.value in later.refs && later.refs[ref.value].outbound == outbound
    ensures var (after, t) := Conclude(later, tag, outbound, ref, w, i);
      && Settled(after, t) && t.ref == ref && later.nextReferenceId <= after.nextReferenceId
      && (forall r :: r < later.nextReferenceId && r !in later.refs ==> r !in after.refs)
  {
    hide RefsResolve, Uncount, CountsExact;
    if ref.Some? {
      InUseNotStopped(later, ref.value);
      GivenBackIsGone(later, ref.value, w.afterwards(i));
    }
  }

  lemma AttemptSettles(s: Registry, tag: string, known: Outbounds, w: World, i: nat)
    requires Inv(s)
    ensures var (after, t) := Attempt(s, tag, known, w, i); Settled(after, t) && Numbered(s, after, t)
  {
    var (held, ref) := Acquire(s, tag, s.activeId);
    var outbound := Found(held, tag, ref, known);
    AwaitedHolds(s, tag, known, w, i);
    if outbound.Some? {
      AwaitedKeeps(s, tag, w, i);
      ConcludeSettles(Awaited(s, tag, w, i), tag, outbound.value, ref, w, i);
    }
  }

  lemma AttemptTag(s: Registry, tag: string, known: Outbounds, w: World, i: nat)
    ensures Attempt(s, tag, known, w, i).1.tag == tag
  {
  }

  // ---------------------------------------------------------- what is tried

  function TagsTried(tries: seq<Try>): (r: seq<string>)
    ensures |r| == |tries| && forall k :: 0 <= k < |r| ==> r[k] == tries[k].tag
  {
    seq(|tries|, k requires 0 <= k < |tries| => tries[k].tag)
  }

  lemma TriedInOrder(o: Opening, s: Registry, candidates: seq<string>, known: Outbounds, w: World)
    requires o.Follows(s, candidates, known, w)
    ensures TagsTried(o.tries) <= candidates
  {
    forall k | 0 <= k < |o.tries| ensures o.tries[k].tag == candidates[k] {
      AttemptTag(o.states[k], candidates[k], known, w, k);
    }
  }

  /** Main result on the loop: candidates are tried in order, and the loop goes on past every failed attempt but one:
      it ends early without a connection only when giving a reference back threw. Otherwise opening fails only after
      every outbound of the policy has been tried exactly once, when its outbounds are distinct. */
  lemma FailsOnlyAfterAll(o: Opening, s: Registry, m: RP.Manager, route: string, now: int, draw: real,
                          known: Outbounds, w: World)
    requires 0.0 <= draw < 1.0 && IsOpening(o, s, m.Candidates(route, now, draw), known, w)
    ensures var candidates, tags := m.Candidates(route, now, draw), TagsTried(o.tries);
      && tags <= candidates
      && (!o.Won() && !o.GaveUp() ==> tags == candidates)
      && (!o.Won() && !o.GaveUp() && route in m.policies && Distinct(m.policies[route].outbounds) ==>
            multiset(tags) == multiset(m.policies[route].outbounds) && Distinct(tags))
  {
    TriedInOrder(o, s, m.Candidates(route, now, draw), known, w);
    if route in m.policies && Distinct(m.policies[route].outbounds) {
      RP.SelectIsPermutation(m, route, now, draw);
    }
  }

  // -------------------------------------------------------------- connecting

  /** The outbound a tag stands for: that of the generation in force, or else the one the engine itself knows. */
  function OutboundOf(s: Registry, tag: string, known: Outbounds): Option<Outbound> {
    if InForce(s, tag) then Some(s.records[s.activeId].outbounds.vals[tag])
    else if tag in known then Some(known[tag])
    else None
  }

  predicate InForce(s: Registry, tag: string) {
    s.activeId in s.records && tag in s.records[s.activeId].outbounds.vals
  }

  /** What an attempt comes to: it is missing without an outbound, and connected exactly if that outbound connects; a
      new reference is taken exactly if the outbound is one of the generation in force. */
  lemma AttemptComesTo(s: Registry, tag: string, known: Outbounds, w: World, i: nat)
    ensures var t := Attempt(s, tag, known, w, i).1;
      && t.tag == tag && t.outbound == OutboundOf(s, tag, known)
      && t.ref == (if InForce(s, tag) then Some(s.nextReferenceId) else None)
      && (t.outcome == Missing <==> t.outbound.None?)
      && (t.outcome == Connected <==> t.outbound.Some? && w.connects(i))
  {
  }

  /** Main result on connecting: the candidates tried are those up to the first that has an outbound and connects, if
      there is one among those tried; opening succeeds exactly then, with that outbound. */
  lemma ConnectsExactlyWhen(o: Opening, s: Registry, candidates: seq<string>, known: Outbounds, w: World)
    requires IsOpening(o, s, candidates, known, w)
    ensures forall k :: 0 <= k < |o.tries| ==>
      && o.tries[k].tag == candidates[k] && o.tries[k].outbound == OutboundOf(o.states[k], candidates[k], known)
      && (o.tries[k].outcome == Missing <==> o.tries[k].outbound.None?)
      && (o.tries[k].outcome == Connected <==> o.tries[k].outbound.Some? && w.connects(k))
    ensures forall k :: 0 <= k < |o.tries| && o.tries[k].outbound.Some? && w.connects(k) ==> k == |o.tries| - 1
    ensures o.Won() <==> exists k :: 0 <= k < |o.tries| && o.tries[k].outbound.Some? && w.connects(k)
  {
    hide Attempt, OutboundOf;
    forall k | 0 <= k < |o.tries|
      ensures
        && o.tries[k].tag == candidates[k] && o.tries[k].outbound == OutboundOf(o.states[k], candidates[k], known)
        && (o.tries[k].outcome == Missing <==> o.tries[k].outbound.None?)
        && (o.tries[k].outcome == Connected <==> o.tries[k].outbound.Some? && w.connects(k))
    {
      AttemptAt(o, s, candidates, known, w, k);
      AttemptComesTo(o.states[k], candidates[k], known, w, k);
    }
    forall k | 0 <= k < |o.tries| && o.tries[k].outbound.Some? && w.connects(k) ensures k == |o.tries| - 1 {
      assert o.tries[k].Ends();
    }
    if o.Won() {
      assert o.tries[|o.tries| - 1].outcome == Connected;
    }
  }

  // ------------------------------------------------------------- giving up

  /** A reference is the last one on its generation, which is no longer the active one and has an outbound that
      rejects when it is stopped. */
  ghost predicate LastOnDoomed(s: Registry, ref: nat, rejects: Outbound -> bool) {
    && ref in s.refs && s.refs[ref].generationId in s.records
    && var id := s.refs[ref].generationId;
       && id != s.activeId && s.records[id].references == 1
       && s.records[id].outbounds.Valid() && AnyRejects(s.records[id].outbounds.Values(), rejects)
  }

  lemma ThrowsExactlyWhen(s: Registry, ref: nat, rejects: Outbound -> bool)
    requires Inv(s) && ref in s.refs
    ensures ReleaseThrows(s, ref, rejects) <==> LastOnDoomed(s, ref, rejects)
  {
    var id := s.refs[ref].generationId;
    assert GetOutbound(s, s.refs[ref].tag, id).Some?;
    HeldIsCounted(s.refs, GenerationOf, ref);
    UncountRecords(s, ref);
    ThrowsByCount(s, ref, rejects);
  }

  lemma ThrowsByCount(s: Registry, ref: nat, rejects: Outbound -> bool)
    requires AllValid(s) && ref in s.refs && s.refs[ref].generationId in s.records
    requires 0 < s.records[s.refs[ref].generationId].references
    ensures ReleaseThrows(s, ref, rejects) <==> LastOnDoomed(s, ref, rejects)
  {
    var id, g := s.refs[ref].generationId, Uncount(s, ref).records[s.refs[ref].generationId];
    assert g.outbounds == s.records[id].outbounds && g.references == s.records[id].references - 1;
  }

  /** An attempt whose connection fails and whose reference, by then, is the last one on a generation that cannot be
      stopped without an exception. */
  ghost predicate Doomed(s: Registry, tag: string, w: World, i: nat) {
    var ref := Acquire(s, tag, s.activeId).1;
    ref.Some? && !w.connects(i) && LastOnDoomed(Awaited(s, tag, w, i), ref.value, w.rejects)
  }

  lemma ConcludeThrows(later: Registry, tag: string, outbound: Outbound, ref: Option<nat>, w: World, i: nat)
    requires Inv(later) && (ref.Some? ==> ref.value in later.refs)
    ensures Conclude(later, tag, outbound, ref, w, i).1.outcome == StopRejected <==>
      ref.Some? && !w.connects(i) && LastOnDoomed(later, ref.value, w.rejects)
  {
    hide RefsResolve, CountsExact, Stops, ReleaseThrows;
    if ref.Some? {
      ThrowsExactlyWhen(later, ref.value, w.rejects);
    }
  }

  lemma AttemptDoomedExactlyWhen(s: Registry, tag: string, known: Outbounds, w: World, i: nat)
    requires Inv(s)
    ensures Attempt(s, tag, known, w, i).1.outcome == StopRejected <==> Doomed(s, tag, w, i)
  {
    var (held, ref) := Acquire(s, tag, s.activeId);
    var outbound := Found(held, tag, ref, known);
    if outbound.Some? {
      AwaitedKeeps(s, tag, w, i);
      AwaitedHolds(s, tag, known, w, i);
      ConcludeThrows(Awaited(s, tag, w, i), tag, outbound.value, ref, w, i);
    }
  }

  lemma AttemptAt(o: Opening, s: Registry, candidates: seq<string>, known: Outbounds, w: World, k: nat)
    requires o.Follows(s, candidates, known, w) && k < |o.tries|
    ensures (o.states[k + 1], o.tries[k]) == Attempt(o.states[k], candidates[k], known, w, k)
  {
    assert o.tries[k] == o.tries[k];
  }

  lemma {:induction false} InvAt(o: Opening, s: Registry, candidates: seq<string>, known: Outbounds, w: World, k: nat)
    requires Inv(s) && o.Follows(s, candidates, known, w) && k < |o.states|
    ensures Inv(o.states[k])
  {
    if k > 0 {
      var m := k - 1;
      InvAt(o, s, candidates, known, w, m);
      AttemptAt(o, s, candidates, known, w, m);
      AttemptKeeps(o.states[m], candidates[m], known, w, m);
    }
  }

  /** Main result on giving up: the loop ends early without a connection, leaving candidates untried and the attempt
      unrecorded, exactly when an attempt it makes is doomed. */
  lemma GivesUpExactlyWhen(o: Opening, s: Registry, candidates: seq<string>, known: Outbounds, w: World)
    requires Inv(s) && IsOpening(o, s, candidates, known, w)
    ensures !o.Won() && |o.tries| < |candidates| ==> o.GaveUp()
    ensures o.GaveUp() <==> exists k :: 0 <= k < |o.tries| && Doomed(o.states[k], candidates[k], w, k)
  {
    hide Inv, LastOnDoomed;
    forall k | 0 <= k < |o.tries|
      ensures o.tries[k].outcome == StopRejected <==> Doomed(o.states[k], candidates[k], w, k)
    {
      InvAt(o, s, candidates, known, w, k);
      AttemptDoomedExactlyWhen(o.states[k], candidates[k], known, w, k);
    }
    if o.GaveUp() {
      assert o.tries[|o.tries| - 1].outcome == StopRejected;
    }
  }

  /** Nobody else: no steps while the loop waits. */
  ghost predicate Alone(w: World) {
    forall i :: w.meanwhile(i) == [] && w.afterwards(i) == []
  }

  /** With nobody else at the registry no attempt is doomed: its reference is on the active generation. */
  lemma AloneNeverGivesUp(o: Opening, s: Registry, candidates: seq<string>, known: Outbounds, w: World)
    requires Inv(s) && IsOpening(o, s, candidates, known, w) && Alone(w)
    ensures !o.GaveUp() && (!o.Won() ==> |o.tries| == |candidates|)
  {
    hide Inv, Apply;
    GivesUpExactlyWhen(o, s, candidates, known, w);
    forall k | 0 <= k < |o.tries| ensures !Doomed(o.states[k], candidates[k], w, k) {
      var held := Acquire(o.states[k], candidates[k], o.states[k].activeId).0;
      assert Awaited(o.states[k], candidates[k], w, k) == held;
    }
  }

  /** A world in which an opening gives up at once: while the first candidate is awaited, the generation is switched
      away; the connection fails; and stopping the old outbound rejects. However many candidates follow, none is
      tried. */
  lemma RejectedStopEndsLoop(initial: Candidate, next: Candidate, tag: string, more: seq<string>, known: Outbounds)
    returns (w: World, o: Opening)
    requires initial.outbounds.Valid() && Distinct(initial.outbounds.Values()) && tag in initial.outbounds.vals
    requires next.id != initial.id && next.outbounds.Valid() && ValidateError(next).None?
    requires FreshObjects(Start(initial), next)
    ensures IsOpening(o, Start(initial), [tag] + more, known, w) && o.GaveUp() && |o.tries| == 1
  {
    var old' := initial.outbounds.vals[tag];
    w := World(_ => false, _ => 0.0, _ => 0, k => if k == 0 then [DoSwitch(next)] else [], _ => [], _ => [],
               x => x == old');
    var s, all := Start(initial), [tag] + more;
    var begin := Opening([s], []);
    o := OpeningExists(begin, s, all, known, w);
    StartInv(initial);
    AttemptAt(o, s, all, known, w, 0) by {
      assert o.tries != [] by { assert |o.tries| == |all| || o.Ended(); }
    }
    SwitchedAwayIsDoomed(initial, next, tag, w);
    AttemptDoomedExactlyWhen(s, tag, known, w, 0);
    assert o.tries[0].outcome == StopRejected;
  }

  lemma SwitchedAwayIsDoomed(initial: Candidate, next: Candidate, tag: string, w: World)
    requires initial.outbounds.Valid() && Distinct(initial.outbounds.Values()) && tag in initial.outbounds.vals
    requires next.id != initial.id && next.outbounds.Valid() && ValidateError(next).None?
    requires FreshObjects(Start(initial), next)
    requires !w.connects(0) && w.meanwhile(0) == [DoSwitch(next)] && w.rejects(initial.outbounds.vals[tag])
    ensures Doomed(Start(initial), tag, w, 0)
  {
    var s := Start(initial);
    var (held, ref) := Acquire(s, tag, initial.id);
    var step := DoSwitch(next);
    assert Taken(held, step, ref);
    var later := Apply(held, step);
    assert [step][1..] == [];
    assert Others(held, [step], ref) == Others(later, [], ref) == later;
    var m := initial.outbounds;
    var i :| 0 <= i < |m.keys| && m.keys[i] == tag;
    assert m.Values()[i] == m.vals[tag];
    assert later.records[initial.id].outbounds == m;
  }

  // ------------------------------------------------------------- references

  /** What holds of the references of a whole opening: those of failed attempts are gone, that of the connection is
      held, and each is a new number, higher than those before. */
  ghost predicate AllSettled(s: Registry, end: Registry, tries: seq<Try>) {
    && (forall k :: 0 <= k < |tries| ==> Settled(end, tries[k]))
    && (forall k :: 0 <= k < |tries| && tries[k].ref.Some? ==> s.nextReferenceId <= tries[k].ref.value)
    && (forall k, l :: 0 <= k < l < |tries| && tries[k].ref.Some? && tries[l].ref.Some? ==>
          tries[k].ref.value < tries[l].ref.value)
  }

  /** Numbers given out before an attempt and no longer in use stay so to the end. */
  lemma {:induction false} StaysGone(o: Opening, s: Registry, candidates: seq<string>, known: Outbounds, w: World,
                                     i: nat, j: nat)
    requires Inv(s) && o.Follows(s, candidates, known, w) && i <= j < |o.states|
    ensures o.states[i].nextReferenceId <= o.states[j].nextReferenceId
    ensures forall r :: r < o.states[i].nextReferenceId && r !in o.states[i].refs ==> r !in o.states[j].refs
  {
    hide Inv, Attempt;
    if i < j {
      var m := j - 1;
      StaysGone(o, s, candidates, known, w, i, m);
      InvAt(o, s, candidates, known, w, m);
      AttemptAt(o, s, candidates, known, w, m);
      AttemptSettles(o.states[m], candidates[m], known, w, m);
    }
  }

  lemma NumberedAt(o: Opening, s: Registry, candidates: seq<string>, known: Outbounds, w: World, k: nat)
    requires Inv(s) && o.Follows(s, candidates, known, w) && k < |o.tries|
    ensures Settled(o.states[k + 1], o.tries[k]) && Numbered(o.states[k], o.states[k + 1], o.tries[k])
  {
    InvAt(o, s, candidates, known, w, k);
    AttemptAt(o, s, candidates, known, w, k);
    AttemptSettles(o.states[k], candidates[k], known, w, k);
  }

  lemma NewNumberAt(o: Opening, s: Registry, candidates: seq<string>, known: Outbounds, w: World, k: nat)
    requires Inv(s) && o.Follows(s, candidates, known, w) && k < |o.tries|
    ensures o.tries[k].ref.Some? ==> s.nextReferenceId <= o.tries[k].ref.value
  {
    NumberedAt(o, s, candidates, known, w, k);
    StaysGone(o, s, candidates, known, w, 0, k);
  }

  lemma RisingAt(o: Opening, s: Registry, candidates: seq<string>, known: Outbounds, w: World, k: nat, l: nat)
    requires Inv(s) && o.Follows(s, candidates, known, w) && k < l < |o.tries|
    ensures o.tries[k].ref.Some? && o.tries[l].ref.Some? ==> o.tries[k].ref.value < o.tries[l].ref.value
  {
    hide Attempt, RefsResolve, Inv;
    NumberedAt(o, s, candidates, known, w, k);
    NumberedAt(o, s, candidates, known, w, l);
    StaysGone(o, s, candidates, known, w, k + 1, l);
  }

  lemma SettledAt(o: Opening, s: Registry, candidates: seq<string>, known: Outbounds, w: World, k: nat)
    requires Inv(s) && o.Follows(s, candidates, known, w) && k < |o.tries|
    ensures Settled(o.End(), o.tries[k])
  {
    hide Inv, Attempt;
    NumberedAt(o, s, candidates, known, w, k);
    if k < |o.tries| - 1 {
      StaysGone(o, s, candidates, known, w, k + 1, |o.tries|);
    }
  }

  /** Main result on references, whatever others do to the registry while the loop waits, switches and retirements
      included: when opening ends, every reference it took has been given back, but that of the connection, which is
      held, resolves to the outbound that connected, and keeps it from being stopped. */
  lemma ReferencesAreSettled(o: Opening, s: Registry, candidates: seq<string>, known: Outbounds, w: World)
    requires Inv(s) && IsOpening(o, s, candidates, known, w)
    ensures AllSettled(s, o.End(), o.tries) && Inv(o.End())
  {
    hide Inv, Attempt, Settled;
    InvAt(o, s, candidates, known, w, |o.tries|);
    forall k | 0 <= k < |o.tries| ensures Settled(o.End(), o.tries[k]) {
      SettledAt(o, s, candidates, known, w, k);
    }
    forall k | 0 <= k < |o.tries| ensures o.tries[k].ref.Some? ==> s.nextReferenceId <= o.tries[k].ref.value {
      NewNumberAt(o, s, candidates, known, w, k);
    }
    forall k, l | 0 <= k < l < |o.tries| && o.tries[k].ref.Some? && o.tries[l].ref.Some?
      ensures o.tries[k].ref.value < o.tries[l].ref.value
    {
      RisingAt(o, s, candidates, known, w, k, l);
    }
  }

  lemma UncountUndoesAcquire(s: Registry, tag: string, id: string)
    requires GetOutbound(s, tag, id).Some? && s.nextReferenceId !in s.refs
    requires forall t :: t in s.records[id].byTag ==> 0 < s.records[id].byTag[t]
    ensures Uncount(Acquire(s, tag, id).0, s.nextReferenceId) == s.(nextReferenceId := s.nextReferenceId + 1)
  {
    var back := Uncount(Acquire(s, tag, id).0, s.nextReferenceId);
    assert back.refs == s.refs;
    assert back.records[id].byTag == s.records[id].byTag;
    assert back.records == s.records;
  }

  /** Taking a reference on the generation in force and giving it back changes nothing but the next number. */
  lemma TakenAndGivenBack(s: Registry, tag: string)
    requires Inv(s)
    ensures var (held, ref) := Acquire(s, tag, s.activeId);
      && AllValid(held)
      && (ref.None? ==> held == s)
      && (ref.Some? ==> ref.value in held.refs
                        && Release(held, ref.value) == s.(nextReferenceId := s.nextReferenceId + 1))
  {
    hide RefsResolve, OneActive, Distinct, Holders, Uncount;
    AcquireKeeps(s, tag, s.activeId);
    if GetOutbound(s, tag, s.activeId).Some? {
      UncountUndoesAcquire(s, tag, s.activeId);
    }
  }

  ghost function GiveBack(s: Registry, ref: Option<nat>): Registry {
    if ref.Some? && AllValid(s) then Release(s, ref.value) else s
  }

  lemma AttemptCancels(s: Registry, tag: string, known: Outbounds, w: World, i: nat) returns (n: nat)
    requires Inv(s) && w.meanwhile(i) == [] && w.afterwards(i) == []
    ensures var (after, t) := Attempt(s, tag, known, w, i);
      (if t.outcome == Connected then GiveBack(after, t.ref) else after) == s.(nextReferenceId := n)
  {
    hide Inv, Acquire, Release, ReleaseThrows, AllValid;
    TakenAndGivenBack(s, tag);
    n := s.nextReferenceId + if Acquire(s, tag, s.activeId).1.Some? then 1 else 0;
  }

  lemma {:induction false} SameAt(o: Opening, s: Registry, candidates: seq<string>, known: Outbounds, w: World, k: nat)
    returns (n: nat)
    requires Inv(s) && o.Follows(s, candidates, known, w) && Alone(w)
    requires k < |o.states| && (k == |o.tries| ==> !o.Won())
    ensures o.states[k] == s.(nextReferenceId := n)
  {
    hide Inv, Attempt;
    if k == 0 {
      return s.nextReferenceId;
    }
    var m := k - 1;
    var n0 := SameAt(o, s, candidates, known, w, m);
    InvAt(o, s, candidates, known, w, m);
    AttemptAt(o, s, candidates, known, w, m);
    n := AttemptCancels(o.states[m], candidates[m], known, w, m);
    assert !o.tries[m].Ends() || m == |o.tries| - 1;
  }

  /** Main result for a registry nobody else touches: a failed opening leaves it as it was but for the numbers used, and
      so does a successful one once its reference is released, which closing the socket does. */
  lemma RegistryIsAsBefore(o: Opening, s: Registry, candidates: seq<string>, known: Outbounds, w: World)
    returns (n: nat)
    requires Inv(s) && IsOpening(o, s, candidates, known, w) && Alone(w)
    ensures GiveBack(o.End(), if o.Won() then o.tries[|o.tries| - 1].ref else None) == s.(nextReferenceId := n)
  {
    if !o.Won() {
      n := SameAt(o, s, candidates, known, w, |o.tries|);
      return;
    }
    var m := |o.tries| - 1;
    var n0 := SameAt(o, s, candidates, known, w, m);
    InvAt(o, s, candidates, known, w, m);
    AttemptAt(o, s, candidates, known, w, m);
    n := AttemptCancels(o.states[m], candidates[m], known, w, m);
  }

  // ----------------------------------------------------------------- health

  /** Others report nothing about an outbound. */
  ghost predicate Unreported(w: World, tag: string) {
    forall i, k :: 0 <= k < |w.reports(i)| ==> !RP.Judges(w.reports(i)[k], tag)
  }

  /** The record an outcome gives. */
  function Judgement(h: RP.Health, t: Try, w: World, i: nat): RP.Health {
    match t.outcome
    case Connected => RP.Health(0, None, Some(RP.Average(h.latencyEwmaMs, w.latency(i))), h.successes + 1)
    case StopRejected => h
    case _ => h.(failures := h.failures + 1, lastFailureAt := Some(w.clock(i)))
  }

  lemma HeardJudges(m: RP.Manager, t: Try, w: World, i: nat, tag: string)
    requires Unreported(w, tag)
    ensures RP.HealthOf(RP.RunAll(m, Heard(t, w, i)).health, tag)
      == if t.tag == tag then Judgement(RP.HealthOf(m.health, tag), t, w, i) else RP.HealthOf(m.health, tag)
  {
    var others := if t.outcome == Missing then [] else w.reports(i);
    RP.SilentKeeps(m, others, tag);
    RP.RunAppend(m, others, Own(t, w, i));
    var m' := RP.RunAll(m, others);
    if Own(t, w, i) != [] {
      assert Own(t, w, i)[1..] == [];
    }
  }

  /** Every outbound tried is judged once: for distinct candidates, the record of one that others do not report on is
      the one before with the one outcome added, and that of one not tried is as it was. An attempt that ends the
      loop with an exception adds nothing. */
  lemma {:induction false} JudgedOnce(m: RP.Manager, tries: seq<Try>, w: World, tag: string)
    requires Unreported(w, tag)
    requires forall a, b :: 0 <= a < b < |tries| ==> tries[a].tag != tries[b].tag
    ensures var h0, h := RP.HealthOf(m.health, tag), RP.HealthOf(RP.RunAll(m, History(tries, w)).health, tag);
      && (forall k :: 0 <= k < |tries| && tries[k].tag == tag ==> h == Judgement(h0, tries[k], w, k))
      && ((forall k :: 0 <= k < |tries| ==> tries[k].tag != tag) ==> h == h0)
    decreases |tries|
  {
    hide RP.HealthOf, Own, RP.Next;
    if tries != [] {
      var n := |tries| - 1;
      var earlier, t := tries[..n], tries[n];
      JudgedOnce(m, earlier, w, tag);
      assert tries == earlier + [t];
      OneMoreHeard(m, earlier, t, w);
      HeardJudges(RP.RunAll(m, History(earlier, w)), t, w, n, tag);
    }
  }
}
