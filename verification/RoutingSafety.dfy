/** What holds of the routing runtime in every state reachable with one transaction at a time. */
module RoutingSafety {
  import opened Common
  import opened Handles
  import opened RoutingRuntimes

  datatype Step =
    | DoAcquire
    | DoRelease(handle: nat)
    | DoBegin(expected: seq<Component>)
    | DoStageRouter(router: RouterGeneration)
    | DoStagePolicy(policy: PolicyGeneration)
    | DoCommit(component: Component)
    | DoRollback
    | DoCleanup
    | DoReplace(next: RoutingPair)

  /** The runtime, whether the open transaction has been rolled back, and the first handle taken since it began. */
  datatype Protocol = Protocol(s: Routing, backedOut: bool, since: nat)

  /** Every pair the runtime knows of. */
  function Pairs(s: Routing): set<RoutingPair> {
    {s.active} + s.held.Values + s.draining.Values
    + Olds(s)
  }

  /** Whether a pair's key names no other pair. */
  ghost predicate FreshPair(s: Routing, p: RoutingPair) {
    forall q :: q in Pairs(s) && PairKey(q) == PairKey(p) ==> q == p
  }

  /** The discipline of one transaction at a time: candidates are staged before the first commit, and a component
      does not commit again once the pair is published nor after a rollback. */
  ghost predicate Permitted(w: Protocol, id: string, step: Step) {
    match step
    case DoStageRouter(_) => id in w.s.transactions ==> w.s.transactions[id].committed == {}
    case DoStagePolicy(_) => id in w.s.transactions ==> w.s.transactions[id].committed == {}
    case DoCommit(c) =>
      id in w.s.transactions ==>
        !w.backedOut && (c in w.s.transactions[id].committed ==> !w.s.transactions[id].published)
    case DoReplace(next) => id !in w.s.transactions
    case _ => true
  }

  /** Whether the ids that come in with a step are new. */
  ghost predicate FreshStep(w: Protocol, id: string, step: Step) {
    match step
    case DoCommit(_) => id in w.s.transactions ==> FreshPair(w.s, Candidate(w.s.transactions[id], w.s.managers))
    case DoReplace(next) => FreshPair(w.s, next)
    case _ => true
  }

  /** A call that throws leaves the runtime as it was. */
  function OrSame(s: Routing, r: Result<Routing, string>): Routing {
    match r case Ok(s') => s' case Err(_) => s
  }

  function Apply(w: Protocol, id: string, step: Step): Protocol {
    match step
    case DoAcquire => w.(s := Acquire(w.s))
    case DoRelease(h) => w.(s := Release(w.s, h))
    case DoBegin(expected) =>
      w.(s := OrSame(w.s, Begin(w.s, id, expected)), since := if id in w.s.transactions then w.since else w.s.handles)
    case DoStageRouter(c) => w.(s := OrSame(w.s, StageRouter(w.s, id, c)))
    case DoStagePolicy(c) => w.(s := OrSame(w.s, StagePolicy(w.s, id, c)))
    case DoCommit(c) => w.(s := OrSame(w.s, Commit(w.s, id, c)))
    case DoRollback => w.(s := Rollback(w.s, id), backedOut := id in w.s.transactions)
    case DoCleanup => w.(s := Cleanup(w.s, id), backedOut := false)
    case DoReplace(next) => w.(s := ReplaceLegacy(w.s, next))
  }

  // -------------------------------------------------------------- invariant

  /** Usage counts are exactly the outstanding handles, key by key. */
  ghost predicate UsageExact(s: Routing) {
    && (forall key :: Usage(s, key) == Holders(s.held, PairKey, key))
    && (forall key :: key in s.usage ==> 0 < s.usage[key])
    && (forall h :: h in s.held ==> h < s.handles)
  }

  /** `draining` is filed under the keys of its pairs. */
  ghost predicate Filed(s: Routing) {
    forall key :: key in s.draining ==> PairKey(s.draining[key]) == key
  }

  /** One key, one pair: not part of the invariant, as ids may come again. */
  ghost predicate Coherent(s: Routing) {
    forall p, q :: p in Pairs(s) && q in Pairs(s) && PairKey(p) == PairKey(q) ==> p == q
  }

  /** The whole pair a transaction publishes: what is staged, the rest from the old pair, and a manager that is not the
      old one exactly if a policy is staged. */
  predicate IsCandidate(t: Transaction, p: RoutingPair) {
    && p.router == (match t.routerCandidate case Some(r) => r case None => t.oldGeneration.router)
    && p.policy == (match t.policyCandidate case Some(q) => q case None => t.oldGeneration.policy)
    && (t.policyCandidate.Some? <==> p.manager != t.oldGeneration.manager)
  }

  /** What the open transaction guarantees its readers. */
  ghost predicate OpenTransaction(w: Protocol, t: Transaction) {
    && t.expected != {} && t.committed <= t.expected
    && (Router in t.committed ==> t.routerCandidate.Some?) && (Policy in t.committed ==> t.policyCandidate.Some?)
    && (t.published ==> IsCandidate(t, w.s.active) && t.committed == t.expected && !w.backedOut)
    && (!t.published ==> w.s.active == t.oldGeneration)
    && (!t.published && !w.backedOut ==> t.committed != t.expected)
    && (forall key :: key in w.s.draining ==> key in w.s.usage || (t.published && key == PairKey(t.oldGeneration)))
    && (forall h :: h in w.s.held && w.since <= h ==>
          w.s.held[h] == t.oldGeneration || (t.committed == t.expected && IsCandidate(t, w.s.held[h])))
  }

  /** The next manager will be a new one. */
  ghost predicate Numbered(s: Routing) {
    forall q :: q in Pairs(s) ==> q.manager < s.managers
  }

  ghost predicate Inv(w: Protocol, id: string) {
    InOrder(w, id) && Numbered(w.s)
  }

  ghost predicate InOrder(w: Protocol, id: string) {
    && UsageExact(w.s) && Filed(w.s)
    && w.s.transactions.Keys <= {id}
    && (id !in w.s.transactions ==>
          !w.backedOut && forall key :: key in w.s.draining ==> key in w.s.usage)
    && (id in w.s.transactions ==> OpenTransaction(w, w.s.transactions[id]))
  }

  // ----------------------------------------------------------- preservation

  lemma AcquireUsage(s: Routing)
    requires UsageExact(s)
    ensures UsageExact(Acquire(s))
  {
    var s' := Acquire(s);
    forall k ensures Usage(s', k) == Holders(s'.held, PairKey, k) {
      TakeCounts(s.held, PairKey, s.handles, s.active, k);
    }
  }

  lemma AcquireKeeps(w: Protocol, id: string)
    requires InOrder(w, id)
    ensures InOrder(Apply(w, id, DoAcquire), id)
  {
    AcquireUsage(w.s);
  }

  ghost predicate Submap<K, V>(m: map<K, V>, of: map<K, V>) {
    forall k :: k in m ==> k in of && m[k] == of[k]
  }

  lemma FewerValues<K, V>(m: map<K, V>, of: map<K, V>)
    requires Submap(m, of)
    ensures m.Values <= of.Values
  {
    forall v | v in m.Values ensures v in of.Values {
      var k :| k in m && m[k] == v;
      assert of[k] == v;
    }
  }

  function Olds(s: Routing): set<RoutingPair> {
    set id | id in s.transactions :: s.transactions[id].oldGeneration
  }

  /** A step adds to the maps of pairs nothing but the active pair. */
  ghost predicate AddsActive(s: Routing, s': Routing) {
    && (Submap(s'.held, s.held) || s'.held == s.held[s.handles := s.active])
    && (Submap(s'.draining, s.draining) || s'.draining == s.draining[PairKey(s.active) := s.active])
    && Olds(s') <= Olds(s) + {s.active}
  }

  lemma FewPairs(s: Routing, s': Routing)
    requires AddsActive(s, s')
    ensures Pairs(s') <= Pairs(s) + {s'.active}
  {
    if Submap(s'.held, s.held) {
      FewerValues(s'.held, s.held);
    }
    if Submap(s'.draining, s.draining) {
      FewerValues(s'.draining, s.draining);
    }
    assert s'.held.Values <= s.held.Values + {s.active};
    assert s'.draining.Values <= s.draining.Values + {s.active};
  }

  /** A pair that comes in has a number below the next one. */
  lemma NewManagersAreNew(w: Protocol, id: string, step: Step)
    requires Inv(w, id)
    ensures Numbered(Apply(w, id, step).s)
  {
    hide Pairs, UsageExact, Filed;
    var s, s' := w.s, Apply(w, id, step).s;
    PairsGrow(w, id, step);
    assert s.managers <= s'.managers;
    ActiveIsNumbered(w, id, step);
  }

  lemma ActiveIsNumbered(w: Protocol, id: string, step: Step)
    requires w.s.transactions.Keys <= {id} && Numbered(w.s)
    ensures var s' := Apply(w, id, step).s; s'.active.manager < s'.managers
  {
    if id in w.s.transactions {
      assert w.s.transactions[id].oldGeneration in Olds(w.s);
    }
    assert w.s.active in Pairs(w.s);
  }

  /** Such a step keeps keys and pairs together. */
  lemma SamePairs(s: Routing, s': Routing)
    requires Coherent(s) && FreshPair(s, s'.active) && AddsActive(s, s')
    ensures Coherent(s')
  {
    FewPairs(s, s');
  }

  lemma ReleaseUsage(s: Routing, h: nat)
    requires UsageExact(s)
    ensures UsageExact(Release(s, h))
  {
    var s' := Release(s, h);
    if h in s.held {
      HeldIsCounted(s.held, PairKey, h);
      forall k ensures Usage(s', k) == Holders(s'.held, PairKey, k) {
        GiveCounts(s.held, PairKey, h, k);
      }
    }
  }

  lemma ReleaseOpen(w: Protocol, t: Transaction, h: nat)
    requires OpenTransaction(w, t)
    ensures OpenTransaction(Apply(w, "", DoRelease(h)), t)
  {
    var s, s' := w.s, Release(w.s, h);
    forall key | key in s'.draining
      ensures key in s'.usage || (t.published && key == PairKey(t.oldGeneration))
    {
      assert key in s.draining;
    }
  }

  lemma ReleaseKeeps(w: Protocol, id: string, h: nat)
    requires InOrder(w, id)
    ensures InOrder(Apply(w, id, DoRelease(h)), id)
  {
    ReleaseUsage(w.s, h);
    if id in w.s.transactions {
      ReleaseOpen(w, w.s.transactions[id], h);
    }
  }

  lemma BeginKeeps(w: Protocol, id: string, expected: seq<Component>)
    requires InOrder(w, id)
    ensures InOrder(Apply(w, id, DoBegin(expected)), id)
  {
    var s' := Apply(w, id, DoBegin(expected)).s;
    if expected != [] {
      assert expected[0] in ToSet(expected);
    }
  }

  lemma StageKeeps(w: Protocol, id: string, step: Step)
    requires InOrder(w, id) && Permitted(w, id, step) && (step.DoStageRouter? || step.DoStagePolicy?)
    ensures InOrder(Apply(w, id, step), id)
  {
    var s' := Apply(w, id, step).s;
  }

  lemma CommitKeeps(w: Protocol, id: string, c: Component)
    requires Inv(w, id) && Permitted(w, id, DoCommit(c))
    ensures InOrder(Apply(w, id, DoCommit(c)), id)
  {
    var s, s' := w.s, Apply(w, id, DoCommit(c)).s;
    if CommitError(s, id, c).None? {
      CommitOpen(w, id, c);
    }
  }

  lemma CommitOpen(w: Protocol, id: string, c: Component)
    requires id in w.s.transactions && OpenTransaction(w, w.s.transactions[id]) && Numbered(w.s)
    requires CommitError(w.s, id, c).None? && !w.backedOut
    requires c in w.s.transactions[id].committed ==> !w.s.transactions[id].published
    ensures var w' := Apply(w, id, DoCommit(c)); OpenTransaction(w', w'.s.transactions[id])
  {
    var t := w.s.transactions[id];
    assert !t.published;
    var w' := Apply(w, id, DoCommit(c));
    var t' := w'.s.transactions[id];
    assert t'.committed == t.committed + {c};
    if t.expected <= t'.committed {
      assert t.oldGeneration in Olds(w.s);
      assert IsCandidate(t', w'.s.active);
    }
  }

  lemma RollbackKeeps(w: Protocol, id: string)
    requires InOrder(w, id)
    ensures InOrder(Apply(w, id, DoRollback), id)
  {
    hide PairKey;
  }

  lemma CleanupKeeps(w: Protocol, id: string)
    requires InOrder(w, id)
    ensures InOrder(Apply(w, id, DoCleanup), id)
  {
    hide PairKey;
    var s' := Apply(w, id, DoCleanup).s;
  }

  lemma ReplaceKeeps(w: Protocol, id: string, next: RoutingPair)
    requires InOrder(w, id) && Permitted(w, id, DoReplace(next))
    ensures InOrder(Apply(w, id, DoReplace(next)), id)
  {
    var s' := Apply(w, id, DoReplace(next)).s;
  }

  lemma StepKeeps(w: Protocol, id: string, step: Step)
    requires Inv(w, id) && Permitted(w, id, step)
    ensures Inv(Apply(w, id, step), id)
  {
    hide Apply, Permitted, InOrder, Numbered;
    NewManagersAreNew(w, id, step);
    StepKeepsOrder(w, id, step);
  }

  lemma StepKeepsOrder(w: Protocol, id: string, step: Step)
    requires Inv(w, id) && Permitted(w, id, step)
    ensures InOrder(Apply(w, id, step), id)
  {
    hide Apply, Permitted, OpenTransaction, UsageExact, Filed, Numbered;
    match step
    case DoAcquire => AcquireKeeps(w, id);
    case DoRelease(h) => ReleaseKeeps(w, id, h);
    case DoBegin(expected) => BeginKeeps(w, id, expected);
    case DoStageRouter(_) => StageKeeps(w, id, step);
    case DoStagePolicy(_) => StageKeeps(w, id, step);
    case DoCommit(c) => CommitKeeps(w, id, c);
    case DoRollback => RollbackKeeps(w, id);
    case DoCleanup => CleanupKeeps(w, id);
    case DoReplace(next) => ReplaceKeeps(w, id, next);
  }

  // ------------------------------------------------------------ pairs apart

  lemma PairsGrow(p: Protocol, id: string, step: Step)
    requires p.s.transactions.Keys <= {id}
    ensures var p' := Apply(p, id, step);
      Pairs(p'.s) <= Pairs(p.s) + {p'.s.active}
  {
    StepMaps(p.s, Apply(p, id, step).s, p, id, step);
    FewPairs(p.s, Apply(p, id, step).s);
  }

  lemma StepMaps(s: Routing, s': Routing, p: Protocol, id: string, step: Step)
    requires p.s.transactions.Keys <= {id} && s == p.s && s' == Apply(p, id, step).s
    ensures AddsActive(s, s')
  {
    hide Acquire, Release, Begin, Commit, Rollback, Cleanup;
    match step
    case DoAcquire => AcquireMaps(s);
    case DoRelease(h) => ReleaseMaps(s, h);
    case DoBegin(expected) => BeginMaps(s, id, expected);
    case DoStageRouter(_) => assert Olds(s') <= Olds(s);
    case DoStagePolicy(_) => assert Olds(s') <= Olds(s);
    case DoCommit(c) => CommitMaps(s, id, c);
    case DoRollback => RollbackMaps(s, id);
    case DoCleanup => CleanupMaps(s, id);
    case DoReplace(next) => assert Olds(s') <= Olds(s);
  }

  lemma AcquireMaps(s: Routing)
    ensures AddsActive(s, Acquire(s))
  {
  }

  lemma ReleaseMaps(s: Routing, handle: nat)
    ensures AddsActive(s, Release(s, handle))
  {
  }

  lemma BeginMaps(s: Routing, id: string, expected: seq<Component>)
    ensures AddsActive(s, OrSame(s, Begin(s, id, expected)))
  {
    assert Olds(OrSame(s, Begin(s, id, expected))) <= Olds(s) + {s.active};
  }

  lemma CommitMaps(s: Routing, id: string, c: Component)
    ensures AddsActive(s, OrSame(s, Commit(s, id, c)))
  {
    assert Olds(OrSame(s, Commit(s, id, c))) <= Olds(s);
  }

  lemma RollbackMaps(s: Routing, id: string)
    ensures AddsActive(s, Rollback(s, id))
  {
    assert Olds(Rollback(s, id)) <= Olds(s);
  }

  lemma CleanupMaps(s: Routing, id: string)
    ensures AddsActive(s, Cleanup(s, id))
  {
    assert Olds(Cleanup(s, id)) <= Olds(s);
  }

  /** With new ids no key comes to name two pairs. */
  lemma StepKeepsCoherent(w: Protocol, id: string, step: Step)
    requires Inv(w, id) && Coherent(w.s) && FreshStep(w, id, step)
    ensures Coherent(Apply(w, id, step).s)
  {
    hide AddsActive;
    var s' := Apply(w, id, step).s;
    ActiveIsFresh(w, id, step);
    StepMaps(w.s, s', w, id, step);
    SamePairs(w.s, s');
  }

  lemma ActiveIsFresh(w: Protocol, id: string, step: Step)
    requires Inv(w, id) && Coherent(w.s) && FreshStep(w, id, step)
    ensures FreshPair(w.s, Apply(w, id, step).s.active)
  {
    hide UsageExact, Filed, Numbered, IsCandidate;
  }

  // ----------------------------------------------------------------- runs

  function Run(w: Protocol, id: string, steps: seq<Step>): Protocol
    decreases |steps|
  {
    if steps == [] then w else Run(Apply(w, id, steps[0]), id, steps[1..])
  }

  ghost predicate PermittedRun(w: Protocol, id: string, steps: seq<Step>)
    decreases |steps|
  {
    steps == [] || (Permitted(w, id, steps[0]) && PermittedRun(Apply(w, id, steps[0]), id, steps[1..]))
  }

  function Start(initial: RoutingPair): Protocol {
    Protocol(Initial(initial), false, 0)
  }

  lemma {:induction false} RunKeeps(w: Protocol, id: string, steps: seq<Step>)
    requires Inv(w, id) && PermittedRun(w, id, steps)
    ensures Inv(Run(w, id, steps), id)
    decreases |steps|
  {
    if steps != [] {
      StepKeeps(w, id, steps[0]);
      RunKeeps(Apply(w, id, steps[0]), id, steps[1..]);
    }
  }

  /** A run in which all ids that come in are new. */
  ghost predicate FreshRun(w: Protocol, id: string, steps: seq<Step>)
    decreases |steps|
  {
    steps == [] || (FreshStep(w, id, steps[0]) && FreshRun(Apply(w, id, steps[0]), id, steps[1..]))
  }

  lemma {:induction false} RunKeepsCoherent(w: Protocol, id: string, steps: seq<Step>)
    requires Inv(w, id) && PermittedRun(w, id, steps) && Coherent(w.s) && FreshRun(w, id, steps)
    ensures Coherent(Run(w, id, steps).s)
    decreases |steps|
  {
    if steps != [] {
      StepKeeps(w, id, steps[0]);
      StepKeepsCoherent(w, id, steps[0]);
      RunKeepsCoherent(Apply(w, id, steps[0]), id, steps[1..]);
    }
  }

  /** Main result, over every permitted run from the start, with whatever ids: usage counts are the outstanding
      handles; outside a transaction a pair is draining only while a handle to a pair of its ids is out, and to that
      very pair if all ids that came in were new; inside one, the active pair and
      every pair acquired since it began is the whole old pair or the whole new one, and the new one is in
      force exactly when every expected component has committed and nothing was rolled back. */
  lemma RoutingIsSafe(initial: RoutingPair, id: string, steps: seq<Step>)
    requires PermittedRun(Start(initial), id, steps)
    ensures var w := Run(Start(initial), id, steps);
      && (forall key :: Usage(w.s, key) == Holders(w.s.held, PairKey, key))
      && (id !in w.s.transactions ==>
            forall key :: key in w.s.draining ==>
              PairKey(w.s.draining[key]) == key && exists h :: h in w.s.held && PairKey(w.s.held[h]) == key)
      && (id !in w.s.transactions && FreshRun(Start(initial), id, steps) ==>
            forall key :: key in w.s.draining ==> exists h :: h in w.s.held && w.s.held[h] == w.s.draining[key])
      && (id in w.s.transactions ==>
            var t := w.s.transactions[id];
            && (t.published <==> t.committed == t.expected && !w.backedOut)
            && (t.published && Router in t.expected ==> Some(w.s.active.router) == t.routerCandidate)
            && (t.published && Policy in t.expected ==> Some(w.s.active.policy) == t.policyCandidate)
            && (if t.published then IsCandidate(t, w.s.active) else w.s.active == t.oldGeneration)
            && (forall h :: h in w.s.held && w.since <= h ==>
                  w.s.held[h] == t.oldGeneration || IsCandidate(t, w.s.held[h])))
  {
    var w := Run(Start(initial), id, steps);
    InitiallyInv(initial, id);
    RunKeeps(Start(initial), id, steps);
    if id !in w.s.transactions {
      DrainingIsHeld(w, id);
      if FreshRun(Start(initial), id, steps) {
        RunKeepsCoherent(Start(initial), id, steps);
        DrainingPairIsHeld(w, id);
      }
    }
  }

  lemma DrainingIsHeld(w: Protocol, id: string)
    requires Inv(w, id) && id !in w.s.transactions
    ensures forall key :: key in w.s.draining ==> exists h :: h in w.s.held && PairKey(w.s.held[h]) == key
  {
    forall key | key in w.s.draining ensures exists h :: h in w.s.held && PairKey(w.s.held[h]) == key {
      var h := CountedIsHeld(w.s.held, PairKey, key);
      assert w.s.held[h] in w.s.held.Values;
    }
  }

  lemma DrainingPairIsHeld(w: Protocol, id: string)
    requires Inv(w, id) && id !in w.s.transactions && Coherent(w.s)
    ensures forall key :: key in w.s.draining ==> exists h :: h in w.s.held && w.s.held[h] == w.s.draining[key]
  {
    DrainingIsHeld(w, id);
    forall key | key in w.s.draining ensures exists h :: h in w.s.held && w.s.held[h] == w.s.draining[key] {
      var h :| h in w.s.held && PairKey(w.s.held[h]) == key;
      assert w.s.held[h] in Pairs(w.s) && w.s.draining[key] in Pairs(w.s);
    }
  }

  lemma InitiallyInv(initial: RoutingPair, id: string)
    ensures Inv(Start(initial), id)
  {
    forall key ensures Holders(Start(initial).s.held, PairKey, key) == 0 {
      NoneHeld(Start(initial).s.held, PairKey, key);
    }
  }

  // ------------------------------------------------------ single operations

  /** The pair in force changes at the commit that completes the expected set, at the rollback of a published
      transaction and at a replacement, and at no other step; and a commit that is refused changes nothing, as the
      reload executor relies on. */
  lemma ActiveChangesOnlyAt(w: Protocol, id: string, step: Step)
    requires Inv(w, id) && Permitted(w, id, step)
    ensures var s' := Apply(w, id, step).s;
      && (s'.active != w.s.active ==>
            || (step.DoCommit? && CommitError(w.s, id, step.component).None?
                && w.s.transactions[id].committed + {step.component} == w.s.transactions[id].expected)
            || (step.DoRollback? && id in w.s.transactions && w.s.transactions[id].published)
            || step.DoReplace?)
      && (step.DoCommit? && CommitError(w.s, id, step.component).None? ==>
            (s'.transactions[id].published <==>
               w.s.transactions[id].committed + {step.component} == w.s.transactions[id].expected))
      && (step.DoCommit? && CommitError(w.s, id, step.component).Some? ==> Apply(w, id, step) == w)
  {
    hide UsageExact, Filed, Numbered, PairKey;
  }

  /** The commit that completes the expected set publishes what was staged, and the rest from the old pair. With a
      policy staged its manager is a new one, which no known pair has; without one it stays the old one. */
  lemma CompletingCommitPublishes(w: Protocol, id: string, c: Component)
    requires Inv(w, id) && CommitError(w.s, id, c).None?
    requires w.s.transactions[id].committed + {c} == w.s.transactions[id].expected
    ensures var t, s' := w.s.transactions[id], Apply(w, id, DoCommit(c)).s;
      && s'.active.router == (match t.routerCandidate case Some(r) => r case None => t.oldGeneration.router)
      && s'.active.policy == (match t.policyCandidate case Some(p) => p case None => t.oldGeneration.policy)
      && (t.policyCandidate.Some? ==>
            && s'.active.manager == w.s.managers && s'.managers == w.s.managers + 1
            && forall q :: q in Pairs(w.s) ==> q.manager < s'.active.manager)
      && (t.policyCandidate.None? ==>
            s'.active.manager == t.oldGeneration.manager && s'.managers == w.s.managers)
  {
    hide Pairs, UsageExact, Filed;
  }

  /** A pair begins to drain when the commit that completes the set, or a legacy replacement while a handle to it is
      out, puts another in its place. */
  lemma DrainingBegins(w: Protocol, id: string, step: Step, key: string)
    requires Inv(w, id) && (step.DoCommit? || step.DoReplace?)
    ensures var s, s' := w.s, Apply(w, id, step).s;
      var replaced := if step.DoCommit? then Completes(s, id, step.component)
                      else 0 < Holders(s.held, PairKey, PairKey(s.active));
      && (key in s'.draining <==> key in s.draining || (replaced && key == PairKey(s.active)))
      && (key in s'.draining ==>
            s'.draining[key] == if replaced && key == PairKey(s.active) then s.active else s.draining[key])
      && (step.DoReplace? ==> s'.active == step.next)
  {
    hide Numbered, Filed, PairKey;
    assert Usage(w.s, PairKey(w.s.active)) == Holders(w.s.held, PairKey, PairKey(w.s.active));
  }

  /** It stops with the last handle to a pair of its ids, with a cleanup that finds none, or as it is put back. */
  lemma DrainingEnds(w: Protocol, id: string, step: Step, key: string)
    requires Inv(w, id) && (step.DoRelease? || step.DoRollback? || step.DoCleanup?)
    ensures var s, s' := w.s, Apply(w, id, step).s;
      var left := Holders(s'.held, PairKey, key);
      var ends :=
        if step.DoRelease? then step.handle in s.held && PairKey(s.held[step.handle]) == key && left == 0
        else
          && Published(s, id)
          && ((key == PairKey(s.transactions[id].oldGeneration) && (step.DoRollback? || left == 0))
              || (key == PairKey(s.active) && step.DoRollback?));
      && (key in s'.draining <==> key in s.draining && !ends)
      && (key in s'.draining ==> s'.draining[key] == s.draining[key])
  {
    hide Numbered, Filed, PairKey;
    if step.DoRelease? {
      ReleaseEnds(w.s, step.handle, key);
    } else if step.DoCleanup? && Published(w.s, id) {
      var old' := PairKey(w.s.transactions[id].oldGeneration);
      assert Usage(w.s, old') == Holders(w.s.held, PairKey, old');
    }
  }

  lemma ReleaseEnds(s: Routing, h: nat, key: string)
    requires UsageExact(s)
    ensures var s' := Release(s, h);
      && (key in s'.draining <==>
            key in s.draining
            && !(h in s.held && PairKey(s.held[h]) == key && Holders(s'.held, PairKey, key) == 0))
      && (key in s'.draining ==> s'.draining[key] == s.draining[key])
  {
    if h in s.held {
      HeldIsCounted(s.held, PairKey, h);
      GiveCounts(s.held, PairKey, h, key);
      assert Usage(s, key) == Holders(s.held, PairKey, key);
    }
  }

  predicate Published(s: Routing, id: string) {
    id in s.transactions && s.transactions[id].published
  }

  predicate Completes(s: Routing, id: string, c: Component) {
    CommitError(s, id, c).None? && s.transactions[id].committed + {c} == s.transactions[id].expected
  }

  /** Readers are given the pair in force, and touch no transaction. */
  lemma ReadersGetActive(w: Protocol, id: string, step: Step)
    requires step.DoAcquire? || step.DoRelease?
    requires Inv(w, id)
    ensures var s, s' := w.s, Apply(w, id, step).s;
      && s'.active == s.active && s'.transactions == s.transactions && s'.managers == s.managers
      && (step.DoAcquire? ==> s.handles !in s.held && s'.held - {s.handles} == s.held
                              && s.handles in s'.held && s'.held[s.handles] == s.active)
      && (step.DoRelease? ==> s'.held == s.held - {step.handle})
  {
    hide Filed, Numbered, OpenTransaction, PairKey, Holders;
  }

  /** However often and whenever it is rolled back, the transaction leaves the pair it found in force. */
  lemma {:induction false} RollbackRestores(w: Protocol, id: string, times: nat)
    requires Inv(w, id) && id in w.s.transactions && times > 0
    ensures var s' := Run(w, id, seq(times, _ => DoRollback)).s;
      && s'.active == w.s.transactions[id].oldGeneration
      && s' == Rollback(w.s, id)
    decreases times
  {
    var rest := seq(times - 1, _ => DoRollback);
    var w' := Apply(w, id, DoRollback);
    assert seq(times, _ => DoRollback)[1..] == rest;
    if times > 1 {
      StepKeeps(w, id, DoRollback);
      RollbackRestores(w', id, times - 1);
    }
  }

  /** Committing a component that has committed before, outside a rollback: it changes nothing exactly as long as the
      pair is not published, or when no new manager is made and the active pair itself is draining already. */
  lemma CommitAgainIsHarmlessExactlyWhen(w: Protocol, id: string, c: Component)
    requires Inv(w, id) && CommitError(w.s, id, c).None? && !w.backedOut && c in w.s.transactions[id].committed
    ensures var t := w.s.transactions[id];
      Commit(w.s, id, c).value == w.s <==>
      !t.published || (t.policyCandidate.None? && (PairKey(w.s.active), w.s.active) in w.s.draining.Items)
  {
    var s, t := w.s, w.s.transactions[id];
    assert t.committed + {c} == t.committed;
    if t.published {
      if (PairKey(s.active), s.active) in s.draining.Items {
        assert s.draining[PairKey(s.active) := s.active] == s.draining;
      }
      assert s.transactions[id := t.(published := true)] == s.transactions;
    } else {
      assert s.transactions[id := t] == s.transactions;
    }
  }

  // -------------------------------------------------------- whole transactions

  /** One transaction on the router from beginning to cleanup, with these steps after the commit. */
  function RouterReload(router: RouterGeneration, between: seq<Step>): seq<Step> {
    [DoBegin([Router]), DoStageRouter(router), DoCommit(Router)] + between + [DoCleanup]
  }

  /** A transaction that is rolled back while a reader holds the new pair, then one with the same ids, then another. */
  function RetriedReload(first: RouterGeneration, again: RouterGeneration, last: RouterGeneration): seq<Step> {
    RouterReload(first, [DoAcquire, DoRollback]) + (RouterReload(again, []) + RouterReload(last, []))
  }

  lemma {:induction false} RunAppend(w: Protocol, id: string, a: seq<Step>, b: seq<Step>)
    ensures Run(w, id, a + b) == Run(Run(w, id, a), id, b)
    ensures PermittedRun(w, id, a + b) <==> PermittedRun(w, id, a) && PermittedRun(Run(w, id, a), id, b)
    decreases |a|
  {
    hide Apply, Permitted;
    if a == [] {
      assert a + b == b;
    } else {
      RunAppend(Apply(w, id, a[0]), id, a[1..], b);
      assert (a + b)[0] == a[0] && (a + b)[1..] == a[1..] + b;
    }
  }

  lemma RunFirst(w: Protocol, id: string, first: Step, rest: seq<Step>)
    ensures Run(w, id, [first] + rest) == Run(Apply(w, id, first), id, rest)
    ensures PermittedRun(w, id, [first] + rest) <==>
      Permitted(w, id, first) && PermittedRun(Apply(w, id, first), id, rest)
  {
    hide Apply, Permitted;
    assert ([first] + rest)[1..] == rest;
  }

  /** The protocol once a transaction on the router alone has committed. */
  function RouterCommitted(w: Protocol, id: string, router: RouterGeneration): Protocol {
    Apply(Apply(Apply(w, id, DoBegin([Router])), id, DoStageRouter(router)), id, DoCommit(Router))
  }

  lemma RouterCommits(w: Protocol, id: string, router: RouterGeneration)
    requires w.s.transactions == map[] && !w.backedOut
    ensures var w3, old' := RouterCommitted(w, id, router), w.s.active;
      && w3.s == w.s.(active := old'.(router := router), draining := w.s.draining[PairKey(old') := old'],
                      transactions := map[id := Transaction(old', {Router}, {Router}, Some(router), None, true)])
      && !w3.backedOut
    ensures var w1 := Apply(w, id, DoBegin([Router]));
      && Permitted(w, id, DoBegin([Router])) && Permitted(w1, id, DoStageRouter(router))
      && Permitted(Apply(w1, id, DoStageRouter(router)), id, DoCommit(Router))
  {
    assert ToSet([Router]) == {Router};
    var t := Transaction(w.s.active, {Router}, {}, None, None, false);
    var w1 := Apply(w, id, DoBegin([Router]));
    assert w1.s.transactions == map[id := t];
    var w2 := Apply(w1, id, DoStageRouter(router));
    assert w2.s.transactions == map[id := t.(routerCandidate := Some(router))];
    var w3 := RouterCommitted(w, id, router);
    assert t.committed + {Router} == {Router};
    var published := t.(routerCandidate := Some(router), committed := {Router}, published := true);
    assert w3.s.transactions == map[id := published];
  }

  lemma RouterReloadRuns(w: Protocol, id: string, router: RouterGeneration, between: seq<Step>)
    requires w.s.transactions == map[] && !w.backedOut
    ensures var w3, rest := RouterCommitted(w, id, router), between + [DoCleanup];
      && Run(w, id, RouterReload(router, between)) == Run(w3, id, rest)
      && (PermittedRun(w, id, RouterReload(router, between)) <==> PermittedRun(w3, id, rest))
  {
    hide Apply, Permitted, Run, PermittedRun;
    var a, b, c, rest := DoBegin([Router]), DoStageRouter(router), DoCommit(Router), between + [DoCleanup];
    RouterCommits(w, id, router);
    assert RouterReload(router, between) == [a] + ([b] + ([c] + rest));
    RunFirst(w, id, a, [b] + ([c] + rest));
    RunFirst(Apply(w, id, a), id, b, [c] + rest);
    RunFirst(Apply(Apply(w, id, a), id, b), id, c, rest);
  }

  lemma RunOne(w: Protocol, id: string, step: Step)
    ensures Run(w, id, [step]) == Apply(w, id, step) && (PermittedRun(w, id, [step]) <==> Permitted(w, id, step))
  {
    assert [step][1..] == [];
  }

  /** A reload that goes well: the new router comes in, and the old pair drains if it is in use. */
  lemma ReloadGoesWell(w: Protocol, id: string, router: RouterGeneration)
    requires w.s.transactions == map[] && !w.backedOut
    ensures PermittedRun(w, id, RouterReload(router, []))
    ensures var w', old' := Run(w, id, RouterReload(router, [])), w.s.active;
      && w'.s == w.s.(active := old'.(router := router),
                      draining := if Usage(w.s, PairKey(old')) == 0 then w.s.draining - {PairKey(old')}
                                  else w.s.draining[PairKey(old') := old'])
      && !w'.backedOut
  {
    hide Run, PermittedRun, RouterReload, RouterCommitted;
    RouterReloadRuns(w, id, router, []);
    RouterCommits(w, id, router);
    var w3 := RouterCommitted(w, id, router);
    RunOne(w3, id, DoCleanup);
    assert [] + [DoCleanup] == [DoCleanup];
    assert w3.s.transactions - {id} == w.s.transactions;
    assert w3.s.draining - {PairKey(w.s.active)} == w.s.draining - {PairKey(w.s.active)};
  }

  /** A reload that is rolled back while a reader holds the new pair leaves that handle, and nothing else. */
  lemma ReloadIsRolledBack(initial: RoutingPair, id: string, router: RouterGeneration)
    ensures PermittedRun(Start(initial), id, RouterReload(router, [DoAcquire, DoRollback]))
    ensures var w := Run(Start(initial), id, RouterReload(router, [DoAcquire, DoRollback]));
      var p := initial.(router := router);
      && w.s.active == initial && w.s.transactions == map[] && w.s.draining == map[] && !w.backedOut
      && w.s.held == map[0 := p] && w.s.usage == map[PairKey(p) := 1]
  {
    hide Run, PermittedRun, RouterReload, RouterCommitted;
    var w := Start(initial);
    RouterReloadRuns(w, id, router, [DoAcquire, DoRollback]);
    RouterCommits(w, id, router);
    var w3 := RouterCommitted(w, id, router);
    assert [DoAcquire, DoRollback] + [DoCleanup] == [DoAcquire] + ([DoRollback] + [DoCleanup]);
    RunFirst(w3, id, DoAcquire, [DoRollback] + [DoCleanup]);
    RunFirst(Apply(w3, id, DoAcquire), id, DoRollback, [DoCleanup]);
    RunOne(Apply(Apply(w3, id, DoAcquire), id, DoRollback), id, DoCleanup);
  }

  /** Ids that come again can make a pair drain on another's handle: the one a reader kept from the transaction that was
      rolled back. */
  lemma RetryDrainsOnOldHandle(initial: RoutingPair, id: string, first: RouterGeneration, again: RouterGeneration,
                               last: RouterGeneration)
    requires first.id == again.id && first != again
    requires PairKey(initial.(router := first)) != PairKey(initial)
    ensures PermittedRun(Start(initial), id, RetriedReload(first, again, last))
    ensures var w := Run(Start(initial), id, RetriedReload(first, again, last));
      var held, drained := initial.(router := first), initial.(router := again);
      && w.s.transactions == map[] && w.s.held == map[0 := held]
      && w.s.draining == map[PairKey(drained) := drained]
  {
    hide Run, PermittedRun, RouterReload;
    var a, b, c := RouterReload(first, [DoAcquire, DoRollback]), RouterReload(again, []), RouterReload(last, []);
    ReloadIsRolledBack(initial, id, first);
    var w1 := Run(Start(initial), id, a);
    ReloadGoesWell(w1, id, again);
    var w2, p, q := Run(w1, id, b), initial.(router := first), initial.(router := again);
    assert w2.s.draining == map[];
    ReloadGoesWell(w2, id, last);
    assert Run(w2, id, c).s.draining == map[PairKey(q) := q];
    RunAppend(Start(initial), id, a, b + c);
    RunAppend(w1, id, b, c);
  }

  /** Once it is published, the second commit files the active pair as draining, with no handle to it, where it stays
      after the cleanup. */
  lemma CommittingTwiceLeavesActiveDraining(initial: RoutingPair, id: string, router: RouterGeneration)
    requires PairKey(initial.(router := router)) != PairKey(initial)
    ensures var w := Run(Start(initial), id, RouterReload(router, [DoCommit(Router)]));
      w.s.transactions == map[] && w.s.held == map[] && PairKey(w.s.active) in w.s.draining
  {
    hide Run, PermittedRun, RouterReload, RouterCommitted;
    var w := Start(initial);
    RouterReloadRuns(w, id, router, [DoCommit(Router)]);
    RouterCommits(w, id, router);
    var w3 := RouterCommitted(w, id, router);
    RunFirst(w3, id, DoCommit(Router), [DoCleanup]);
    RunOne(Apply(w3, id, DoCommit(Router)), id, DoCleanup);
  }
}
