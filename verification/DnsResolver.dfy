/** `resolve` and `resolveUncached` of `src/dns/resolver.ts` as steps of many queries at once, interleaved with
    switches and restores of the DNS generation. */
module DnsResolvers {
  import opened Common
  import opened OrderedMaps
  import opened Handles
  import opened DnsCaches
  import opened DnsStores

  datatype Config = Config(
    hosts: map<string, string>,
    fallbackHosts: map<string, string>,
    maxEntries: nat,
    cacheTtlMs: nat,
    negativeTtlMs: nat)

  datatype Answer = Address(address: string) | Failure(message: string)

  /** Acquired a generation; waiting for a lookup in flight; about to return or throw. */
  datatype Phase = Started | Waiting | Done(answer: Answer)

  datatype Query = Query(generation: string, host: string, phase: Phase)

  /** What a generation holds: its fixed configuration, its caches, and the hosts being looked up. */
  datatype Generation = Generation(config: Config, cache: Cache, flights: set<string>)

  /** The whole: the store, the generations' contents, and the queries that hold a handle. */
  datatype Resolver = Resolver(store: Store, gens: map<string, Generation>, queries: map<nat, Query>, nextQuery: nat)

  /** How a lookup ends: an address with the lifetime the answer gave it, if any; an error; or an abort. */
  datatype Outcome =
    | Resolved(address: string, ttlMs: Option<nat>, source: Source)
    | Failed(message: string, from: Source)
    | Aborted(reason: string)

  datatype Step =
    | DoBegin(host: string)
    | DoLook(query: nat, now: int)
    | DoLand(generation: string, host: string, outcome: Outcome, at: int)
    | DoEnd(done: nat)
    | DoSwitch(id: string, next: Config, carried: Cache)
    | DoRestore(to: string)

  function Min(a: nat, b: nat): nat {
    if a <= b then a else b
  }

  // ------------------------------------------------------ one generation

  /** The lookup part of `resolve` on the generation acquired: its static hosts, then its positive and negative
      caches, and otherwise a lookup in flight, joined if there already is one. */
  function Look(g: Generation, host: string, now: int): (Generation, Phase)
    requires Valid(g.cache)
  {
    var key := Lower(host);
    if key in g.config.hosts then (g, Done(Address(g.config.hosts[key])))
    else
      var (c1, positive) := GetPositive(g.cache, key, now);
      if positive.Some? then (g.(cache := c1), Done(Address(positive.value.data)))
      else
        LookupKeeps(g.cache.positive, key, now);
        var (c2, negative) := GetNegative(c1, key, now);
        if negative.Some? then (g.(cache := c2), Done(Failure(negative.value.data)))
        else (g.(cache := c2, flights := g.flights + {key}), Waiting)
  }

  /** The end of `resolveUncached`: what is cached, in the generation the lookup belongs to, and the answer. */
  function Land(g: Generation, key: string, outcome: Outcome, now: int): (Generation, Answer)
    requires Valid(g.cache)
  {
    var landed := g.(flights := g.flights - {key});
    match outcome
    case Resolved(address, ttlMs, source) =>
      var ttl := match ttlMs case Some(t) => Min(t, g.config.cacheTtlMs) case None => g.config.cacheTtlMs;
      var entry := Entry(key, address, now + ttl, now, source, false, false);
      (landed.(cache := SetPositive(g.cache, entry, g.config.maxEntries)), Address(address))
    case Failed(message, source) =>
      if key in g.config.fallbackHosts then (landed, Address(g.config.fallbackHosts[key]))
      else if g.config.negativeTtlMs > 0 then
        (landed.(cache := SetNegative(g.cache,
                   Entry(key, message, now + g.config.negativeTtlMs, now, source, false, false), g.config.maxEntries)),
         Failure(message))
      else (landed, Failure(message))
    case Aborted(reason) => (landed, Failure(reason))
  }

  // ------------------------------------------------------------------ steps

  predicate Enabled(s: Resolver, step: Step) {
    match step
    case DoBegin(_) => true
    case DoLook(q, _) => q in s.queries && s.queries[q].phase == Started
    case DoLand(id, key, _, _) => id in s.gens && key in s.gens[id].flights
    case DoEnd(q) => q in s.queries && s.queries[q].phase.Done?
    case DoSwitch(id, _, _) => id !in s.gens
    case DoRestore(to) => to in s.gens && to != s.store.active
  }

  /** Puts a generation's contents back, with the number of its lookups in flight. */
  function Update(s: Resolver, id: string, g: Generation): Resolver
    requires id in s.store.gens
  {
    s.(gens := s.gens[id := g],
       store := WithLife(s.store, id, s.store.gens[id].(inFlight := |g.flights|)))
  }

  /** The queries waiting for this lookup get its answer. */
  function Tell(queries: map<nat, Query>, id: string, key: string, answer: Answer): map<nat, Query> {
    map q | q in queries ::
      if queries[q].phase == Waiting && queries[q].generation == id && Lower(queries[q].host) == key
      then queries[q].(phase := Done(answer)) else queries[q]
  }

  function AfterLook(s: Resolver, q: nat, now: int): Resolver
    requires q in s.queries && s.queries[q].generation in s.gens && s.queries[q].generation in s.store.gens
    requires Valid(s.gens[s.queries[q].generation].cache)
  {
    var query := s.queries[q];
    var (g, phase) := Look(s.gens[query.generation], query.host, now);
    Update(s, query.generation, g).(queries := s.queries[q := query.(phase := phase)])
  }

  function AfterLand(s: Resolver, id: string, key: string, outcome: Outcome, now: int): Resolver
    requires id in s.gens && id in s.store.gens && Valid(s.gens[id].cache)
  {
    var (g, answer) := Land(s.gens[id], key, outcome, now);
    Update(s, id, g).(queries := Tell(s.queries, id, key, answer))
  }

  function Apply(s: Resolver, step: Step): Resolver
    requires Inv(s) && Enabled(s, step) && Permitted(step)
  {
    match step
    case DoBegin(host) =>
      s.(store := BeginQuery(s.store), queries := s.queries[s.nextQuery := Query(s.store.active, host, Started)],
         nextQuery := s.nextQuery + 1)
    case DoLook(q, now) => AfterLook(s, q, now)
    case DoLand(id, key, outcome, now) => AfterLand(s, id, key, outcome, now)
    case DoEnd(q) =>
      s.(store := ReleaseHandle(s.store, s.queries[q].generation), queries := s.queries - {q})
    case DoSwitch(id, config, cache) =>
      s.(store := SwitchTo(WithLife(s.store, id, Life(0, 0, false)), id),
         gens := s.gens[id := Generation(config, cache, {})])
    case DoRestore(to) =>
      s.(store := Restore(s.store, to, s.store.active))
  }

  /** A new generation comes with a well-formed cache. */
  ghost predicate Permitted(step: Step) {
    step.DoSwitch? ==> Valid(step.carried)
  }

  // -------------------------------------------------------------- invariant

  /** What a query counts under. */
  function GenerationOf(q: Query): string {
    q.generation
  }

  /** The store: the active generation is present and not draining, every other one present is draining. */
  ghost predicate StoreOk(s: Store) {
    && Wf(s) && s.active in s.stored
    && (forall id :: id in s.stored ==> (s.gens[id].draining <==> id != s.active))
  }

  /** Counts are exact: query references are the queries holding the generation, lookups in flight its flights. */
  ghost predicate CountsOk(s: Resolver) {
    && s.gens.Keys == s.store.gens.Keys
    && (forall id :: id in s.gens ==>
          && Valid(s.gens[id].cache)
          && s.store.gens[id].queryRefs == Holders(s.queries, GenerationOf, id)
          && s.store.gens[id].inFlight == |s.gens[id].flights|)
    && (forall q :: q in s.queries ==> q < s.nextQuery)
  }

  /** A query's generation is in the store, and a lookup is in flight exactly if a query waits for it. */
  ghost predicate QueriesOk(s: Resolver) {
    && (forall q :: q in s.queries ==> s.queries[q].generation in s.store.stored)
    && WaitersFly(s) && FlightsAwaited(s)
  }

  ghost predicate WaitersFly(s: Resolver) {
    forall q :: q in s.queries && s.queries[q].phase == Waiting ==>
      s.queries[q].generation in s.gens && Lower(s.queries[q].host) in s.gens[s.queries[q].generation].flights
  }

  ghost predicate FlightsAwaited(s: Resolver) {
    forall id, key :: id in s.gens && key in s.gens[id].flights ==> exists q :: WaitsFor(s, q, id, key)
  }

  ghost predicate WaitsFor(s: Resolver, q: nat, id: string, key: string) {
    && q in s.queries && s.queries[q].phase == Waiting
    && s.queries[q].generation == id && Lower(s.queries[q].host) == key
  }

  ghost predicate Inv(s: Resolver) {
    StoreOk(s.store) && CountsOk(s) && QueriesOk(s)
  }

  // ----------------------------------------------------------- preservation

  lemma BeginCounts(s: Resolver, s': Resolver, host: string)
    requires CountsOk(s) && StoreOk(s.store)
    requires s' == s.(store := BeginQuery(s.store), nextQuery := s.nextQuery + 1,
                      queries := s.queries[s.nextQuery := Query(s.store.active, host, Started)])
    ensures CountsOk(s') && StoreOk(s'.store)
  {
    hide FiledByHost;
    forall id | id in s'.gens ensures s'.store.gens[id].queryRefs == Holders(s'.queries, GenerationOf, id) {
      TakeCounts(s.queries, GenerationOf, s.nextQuery, Query(s.store.active, host, Started), id);
    }
  }

  lemma BeginAwaited(s: Resolver, host: string)
    requires Inv(s)
    ensures FlightsAwaited(Apply(s, DoBegin(host)))
  {
    var s' := Apply(s, DoBegin(host));
    forall id, key | id in s'.gens && key in s'.gens[id].flights ensures exists q :: WaitsFor(s', q, id, key) {
      var q :| WaitsFor(s, q, id, key);
      assert WaitsFor(s', q, id, key);
    }
  }

  lemma BeginKeeps(s: Resolver, host: string)
    requires Inv(s)
    ensures Inv(Apply(s, DoBegin(host)))
  {
    hide CountsOk;
    BeginCounts(s, Apply(s, DoBegin(host)), host);
    BeginAwaited(s, host);
  }

  /** Changing one generation's contents, and phases of queries, keeps the counts and the store as they are. */
  lemma UpdateKeeps(s: Resolver, id: string, g: Generation, queries: map<nat, Query>)
    requires Inv(s) && id in s.gens && Valid(g.cache)
    requires queries.Keys == s.queries.Keys
    requires forall q :: q in queries ==> queries[q].generation == s.queries[q].generation
    requires var s' := Update(s, id, g).(queries := queries); WaitersFly(s') && FlightsAwaited(s')
    ensures Inv(Update(s, id, g).(queries := queries))
  {
    UpdateCounts(s, id, g, queries);
    UpdateStore(s, id, g);
  }

  lemma UpdateCounts(s: Resolver, id: string, g: Generation, queries: map<nat, Query>)
    requires CountsOk(s) && id in s.gens && Valid(g.cache)
    requires queries.Keys == s.queries.Keys
    requires forall q :: q in queries ==> queries[q].generation == s.queries[q].generation
    ensures CountsOk(Update(s, id, g).(queries := queries))
  {
    hide Holders, Valid;
    forall k ensures Holders(queries, GenerationOf, k) == Holders(s.queries, GenerationOf, k) {
      SameHolders(s.queries, queries, GenerationOf, k);
    }
  }

  lemma UpdateStore(s: Resolver, id: string, g: Generation)
    requires StoreOk(s.store) && CountsOk(s) && id in s.gens
    ensures StoreOk(Update(s, id, g).store) && Update(s, id, g).store.stored == s.store.stored
  {
  }

  /** What a lookup does to its generation. */
  lemma LookEffect(g: Generation, host: string, now: int)
    requires Valid(g.cache)
    ensures var (g', phase) := Look(g, host, now);
      && Valid(g'.cache) && g'.config == g.config
      && g'.flights == (if phase == Waiting then g.flights + {Lower(host)} else g.flights)
      && phase != Started
  {
    var key := Lower(host);
    LookupKeeps(g.cache.positive, key, now);
    var c1 := GetPositive(g.cache, key, now).0;
    LookupKeeps(c1.negative, key, now);
  }

  lemma LookAwaited(s: Resolver, q: nat, now: int)
    requires Inv(s) && Enabled(s, DoLook(q, now))
    ensures FlightsAwaited(AfterLook(s, q, now))
  {
    hide Valid;
    var s', query := AfterLook(s, q, now), s.queries[q];
    LookEffect(s.gens[query.generation], query.host, now);
    forall id, key | id in s'.gens && key in s'.gens[id].flights ensures exists p :: WaitsFor(s', p, id, key) {
      if id in s.gens && key in s.gens[id].flights {
        var p :| WaitsFor(s, p, id, key);
        assert WaitsFor(s', p, id, key);
      } else {
        assert WaitsFor(s', q, id, key);
      }
    }
  }

  lemma LookKeeps(s: Resolver, q: nat, now: int)
    requires Inv(s) && Enabled(s, DoLook(q, now))
    ensures Inv(Apply(s, DoLook(q, now)))
  {
    hide Look, Valid;
    var query := s.queries[q];
    var (g, phase) := Look(s.gens[query.generation], query.host, now);
    LookEffect(s.gens[query.generation], query.host, now);
    LookAwaited(s, q, now);
    UpdateKeeps(s, query.generation, g, s.queries[q := query.(phase := phase)]);
  }

  lemma LandEffect(g: Generation, key: string, outcome: Outcome, now: int)
    requires Valid(g.cache)
    ensures var g' := Land(g, key, outcome, now).0;
      Valid(g'.cache) && g'.config == g.config && g'.flights == g.flights - {key}
  {
  }

  /** What landing does to the flights, and to the queries that do not wait for this one. */
  lemma AfterLandFlights(s: Resolver, id: string, key: string, outcome: Outcome, now: int)
    requires id in s.gens && id in s.store.gens && Valid(s.gens[id].cache)
    ensures var s' := AfterLand(s, id, key, outcome, now);
      && s'.gens.Keys == s.gens.Keys
      && (forall k :: k in s.gens ==> s'.gens[k].flights == s.gens[k].flights - if k == id then {key} else {})
      && (forall q :: q in s.queries && !WaitsFor(s, q, id, key) ==> q in s'.queries && s'.queries[q] == s.queries[q])
  {
    hide Land, Valid, Lower;
    LandEffect(s.gens[id], key, outcome, now);
  }

  lemma LandAwaited(s: Resolver, id: string, key: string, outcome: Outcome, now: int)
    requires Inv(s) && Enabled(s, DoLand(id, key, outcome, now))
    ensures FlightsAwaited(AfterLand(s, id, key, outcome, now))
  {
    hide AfterLand, StoreOk, Valid, Lower;
    var s' := AfterLand(s, id, key, outcome, now);
    AfterLandFlights(s, id, key, outcome, now);
    forall id', key' | id' in s'.gens && key' in s'.gens[id'].flights ensures exists p :: WaitsFor(s', p, id', key') {
      var p :| WaitsFor(s, p, id', key');
      assert WaitsFor(s', p, id', key');
    }
  }

  lemma LandWaiters(s: Resolver, id: string, key: string, outcome: Outcome, now: int)
    requires Inv(s) && Enabled(s, DoLand(id, key, outcome, now))
    ensures WaitersFly(AfterLand(s, id, key, outcome, now))
  {
    hide Valid, StoreOk, Land, Lower;
    LandEffect(s.gens[id], key, outcome, now);
  }

  lemma LandKeeps(s: Resolver, id: string, key: string, outcome: Outcome, now: int)
    requires Inv(s) && Enabled(s, DoLand(id, key, outcome, now))
    ensures Inv(Apply(s, DoLand(id, key, outcome, now)))
  {
    hide AfterLook, SetPositive, Lower;
    var (g, answer) := Land(s.gens[id], key, outcome, now);
    LandEffect(s.gens[id], key, outcome, now);
    LandAwaited(s, id, key, outcome, now);
    LandWaiters(s, id, key, outcome, now);
    UpdateKeeps(s, id, g, Tell(s.queries, id, key, answer));
  }

  /** After `releaseDrained` the store holds, of what it held, the active generation and those still held. */
  lemma DrainedAway(s: Resolver, store: Store)
    requires StoreOk(store) && CountsOk(s.(store := store)) && s.gens.Keys == store.gens.Keys
    requires FlightsAwaited(s)
    ensures StoreOk(ReleaseDrained(store))
    ensures forall id :: id in ReleaseDrained(store).stored <==>
      id in store.stored && (id == store.active || 0 < Holders(s.queries, GenerationOf, id))
  {
    KeepSelects(store, store.stored);
    forall id | id in store.stored && id != store.active
      ensures store.gens[id].Releasable() <==> Holders(s.queries, GenerationOf, id) == 0
    {
      assert id in s.gens;
      if s.gens[id].flights != {} {
        var key :| key in s.gens[id].flights;
        var q :| WaitsFor(s, q, id, key);
        HeldIsCounted(s.queries, GenerationOf, q);
      }
    }
  }

  lemma EndCounts(s: Resolver, q: nat)
    requires Inv(s) && Enabled(s, DoEnd(q))
    ensures var after := s.(store := EndQuery(s.store, s.queries[q].generation), queries := s.queries - {q});
      StoreOk(after.store) && CountsOk(after)
      && FlightsAwaited(after)
  {
    hide CountsOk;
    var id := s.queries[q].generation;
    var after := s.(store := EndQuery(s.store, id), queries := s.queries - {q});
    OneLessHeld(s, after, q);
    forall k, key | k in after.gens && key in after.gens[k].flights ensures exists p :: WaitsFor(after, p, k, key) {
      var p :| WaitsFor(s, p, k, key);
      assert WaitsFor(after, p, k, key);
    }
  }

  lemma OneLessHeld(s: Resolver, after: Resolver, q: nat)
    requires CountsOk(s) && StoreOk(s.store) && q in s.queries && s.queries[q].generation in s.store.stored
    requires after == s.(store := EndQuery(s.store, s.queries[q].generation), queries := s.queries - {q})
    ensures StoreOk(after.store) && CountsOk(after)
  {
    hide FiledByHost, Holders;
    HeldIsCounted(s.queries, GenerationOf, q);
    forall k | k in after.gens ensures after.store.gens[k].queryRefs == Holders(after.queries, GenerationOf, k) {
      GiveCounts(s.queries, GenerationOf, q, k);
    }
  }

  lemma EndKeeps(s: Resolver, q: nat)
    requires Inv(s) && Enabled(s, DoEnd(q))
    ensures Inv(Apply(s, DoEnd(q)))
    ensures var s' := Apply(s, DoEnd(q));
      forall id :: id in s'.store.stored <==>
        id in s.store.stored && (id == s.store.active || 0 < Holders(s'.queries, GenerationOf, id))
  {
    var s' := Apply(s, DoEnd(q));
    var after := s.(store := EndQuery(s.store, s.queries[q].generation), queries := s.queries - {q});
    EndCounts(s, q);
    DrainedAway(after, after.store);
    forall p | p in s'.queries ensures s'.queries[p].generation in s'.store.stored {
      HeldIsCounted(s'.queries, GenerationOf, p);
    }
    SameWaits(after, s');
  }

  lemma SameWaits(s: Resolver, s': Resolver)
    requires s'.queries == s.queries && s'.gens == s.gens
    requires FlightsAwaited(s)
    ensures FlightsAwaited(s')
  {
    forall id, key | id in s'.gens && key in s'.gens[id].flights ensures exists q :: WaitsFor(s', q, id, key) {
      var q :| WaitsFor(s, q, id, key);
      assert WaitsFor(s', q, id, key);
    }
  }

  /** Nothing holds a generation that is not there yet. */
  lemma NewIsUnheld(s: Resolver, id: string)
    requires Inv(s) && id !in s.gens
    ensures Holders(s.queries, GenerationOf, id) == 0
  {
    forall q | q in s.queries ensures s.queries[q].generation != id {
      assert s.queries[q].generation in s.store.stored;
    }
    NoneHeld(s.queries, GenerationOf, id);
  }

  lemma SwitchStore(s: Store, id: string)
    requires StoreOk(s) && id !in s.gens
    ensures var s' := SwitchTo(WithLife(s, id, Life(0, 0, false)), id);
      StoreOk(s') && s'.stored == s.stored + [id] && s'.gens.Keys == s.gens.Keys + {id}
      && s'.gens[id].queryRefs == 0 && s'.gens[id].inFlight == 0
      && forall k :: k in s.gens ==>
           s'.gens[k].queryRefs == s.gens[k].queryRefs && s'.gens[k].inFlight == s.gens[k].inFlight
  {
  }

  lemma SwitchCounts(s: Resolver, s': Resolver, id: string, config: Config, cache: Cache)
    requires CountsOk(s) && id !in s.gens && Valid(cache) && Holders(s.queries, GenerationOf, id) == 0
    requires s'.queries == s.queries && s'.nextQuery == s.nextQuery
    requires s'.gens == s.gens[id := Generation(config, cache, {})] && s'.store.gens.Keys == s.store.gens.Keys + {id}
    requires s'.store.gens[id].queryRefs == 0 && s'.store.gens[id].inFlight == 0
    requires forall k :: k in s.store.gens ==>
      s'.store.gens[k].queryRefs == s.store.gens[k].queryRefs && s'.store.gens[k].inFlight == s.store.gens[k].inFlight
    ensures CountsOk(s')
  {
    hide Valid;
  }

  lemma SwitchWaits(s: Resolver, s': Resolver, id: string, config: Config, cache: Cache)
    requires FlightsAwaited(s) && WaitersFly(s) && id !in s.gens
    requires s'.queries == s.queries && s'.gens == s.gens[id := Generation(config, cache, {})]
    ensures FlightsAwaited(s') && WaitersFly(s')
  {
    forall k, key | k in s'.gens && key in s'.gens[k].flights ensures exists q :: WaitsFor(s', q, k, key) {
      var q :| WaitsFor(s, q, k, key);
      assert WaitsFor(s', q, k, key);
    }
  }

  lemma SwitchKeeps(s: Resolver, id: string, config: Config, cache: Cache)
    requires Inv(s) && id !in s.gens && Valid(cache)
    ensures Inv(Apply(s, DoSwitch(id, config, cache)))
  {
    var s' := Apply(s, DoSwitch(id, config, cache));
    NewIsUnheld(s, id);
    SwitchStore(s.store, id);
    SwitchCounts(s, s', id, config, cache);
    SwitchWaits(s, s', id, config, cache);
  }

  lemma ReinstateCounts(s: Resolver, to: string)
    requires Inv(s) && to in s.gens && to != s.store.active
    ensures var store := Reinstate(s.store, to, s.store.active);
      StoreOk(store) && CountsOk(s.(store := store))
  {
    hide Valid, Holders;
    var s1 := s.(store := Reinstate(s.store, to, s.store.active));
  }

  lemma RestoreKeeps(s: Resolver, to: string)
    requires Inv(s) && to in s.gens && to != s.store.active
    ensures Inv(Apply(s, DoRestore(to)))
    ensures var s' := Apply(s, DoRestore(to));
      s'.store.active == to && forall id :: id in s'.store.stored <==>
        (id in s.store.stored || id == to) && (id == to || 0 < Holders(s'.queries, GenerationOf, id))
  {
    var s', store := Apply(s, DoRestore(to)), Reinstate(s.store, to, s.store.active);
    ReinstateCounts(s, to);
    DrainedAway(s, store);
    forall p | p in s'.queries ensures s'.queries[p].generation in s'.store.stored {
      HeldIsCounted(s'.queries, GenerationOf, p);
    }
    SameWaits(s, s');
  }

  lemma StepKeeps(s: Resolver, step: Step)
    requires Inv(s) && Enabled(s, step) && Permitted(step)
    ensures Inv(Apply(s, step))
  {
    match step
    case DoBegin(host) => BeginKeeps(s, host);
    case DoLook(q, now) => LookKeeps(s, q, now);
    case DoLand(id, key, outcome, now) => LandKeeps(s, id, key, outcome, now);
    case DoEnd(q) => EndKeeps(s, q);
    case DoSwitch(id, config, cache) => SwitchKeeps(s, id, config, cache);
    case DoRestore(to) => RestoreKeeps(s, to);
  }

  // ------------------------------------------------------------------- runs

  function Start(id: string, config: Config): Resolver {
    var store := Store(id, [id], map[id := Life(0, 0, false)]);
    Resolver(store, map[id := Generation(config, DnsCaches.EMPTY, {})], map[], 0)
  }

  /** Every state reachable from a start, by steps that are enabled, in any order. */
  ghost predicate Reaches(s: Resolver, steps: seq<Step>, t: Resolver)
    decreases |steps|
  {
    if steps == [] then s == t
    else Inv(s) && Enabled(s, steps[0]) && Permitted(steps[0]) && Reaches(Apply(s, steps[0]), steps[1..], t)
  }

  lemma {:induction false} ReachesKeeps(s: Resolver, steps: seq<Step>, t: Resolver)
    requires Inv(s) && Reaches(s, steps, t)
    ensures Inv(t)
    decreases |steps|
  {
    if steps != [] {
      StepKeeps(s, steps[0]);
      ReachesKeeps(Apply(s, steps[0]), steps[1..], t);
    }
  }

  /** No run is left out: from a state reached, every step that is enabled and permitted reaches the next. */
  lemma {:induction false} EveryStepReaches(s: Resolver, steps: seq<Step>, t: Resolver, step: Step)
    requires Inv(s) && Reaches(s, steps, t) && Enabled(t, step) && Permitted(step)
    ensures Inv(t) && Reaches(s, steps + [step], Apply(t, step))
    decreases |steps|
  {
    hide Inv;
    var all := steps + [step];
    if steps == [] {
      assert all == [step] && all[1..] == [];
    } else {
      StepKeeps(s, steps[0]);
      EveryStepReaches(Apply(s, steps[0]), steps[1..], t, step);
      assert all[0] == steps[0] && all[1..] == steps[1..] + [step];
    }
  }

  lemma StartInv(id: string, config: Config)
    ensures Inv(Start(id, config))
  {
    NoneHeld(Start(id, config).queries, GenerationOf, id);
  }

  /** Main result, over all interleavings: a generation that a query holds is in the store, the active one always
      is, every other one there is draining, and the counts the store goes by are exact. */
  lemma HeldGenerationsStay(id: string, config: Config, steps: seq<Step>, t: Resolver)
    requires Reaches(Start(id, config), steps, t)
    ensures t.store.active in t.store.stored
    ensures forall q :: q in t.queries ==> t.queries[q].generation in t.store.stored
    ensures forall k :: k in t.store.stored ==> k in t.store.gens && (t.store.gens[k].draining <==> k != t.store.active)
    ensures forall k :: k in t.store.stored ==> t.store.gens[k].queryRefs == Holders(t.queries, GenerationOf, k)
  {
    StartInv(id, config);
    ReachesKeeps(Start(id, config), steps, t);
  }

  // -------------------------------------------------------------- isolation

  /** The generation a step may change: the one its query acquired, or the one its lookup belongs to. */
  function Touched(s: Resolver, step: Step): Option<string>
    requires Enabled(s, step)
  {
    match step
    case DoLook(q, _) => Some(s.queries[q].generation)
    case DoLand(id, _, _, _) => Some(id)
    case DoSwitch(id, _, _) => Some(id)
    case _ => None
  }

  /** Main result: a step changes the contents of no generation but the one its query holds, whichever is active
      by then; and when a lookup lands, some query still holds the generation it writes to. */
  lemma OnlyOwnGenerationChanges(s: Resolver, step: Step, id: string)
    requires Inv(s) && Enabled(s, step) && Permitted(step)
    ensures id in s.gens && Touched(s, step) != Some(id) ==>
      id in Apply(s, step).gens && Apply(s, step).gens[id] == s.gens[id]
    ensures step.DoLand? ==> 0 < Holders(s.queries, GenerationOf, step.generation)
    ensures forall q :: q in s.queries && q in Apply(s, step).queries ==>
      Apply(s, step).queries[q].generation == s.queries[q].generation
  {
    hide Valid, Holders, Apply, StoreOk, CountsOk;
    if step.DoLand? {
      var q :| WaitsFor(s, q, step.generation, step.host);
      HeldIsCounted(s.queries, GenerationOf, q);
    }
    QueriesKeepGeneration(s, step);
    if id in s.gens && Touched(s, step) != Some(id) {
      OthersStay(s, step, id);
    }
  }

  lemma OthersStay(s: Resolver, step: Step, id: string)
    requires Inv(s) && Enabled(s, step) && Permitted(step) && id in s.gens && Touched(s, step) != Some(id)
    ensures id in Apply(s, step).gens && Apply(s, step).gens[id] == s.gens[id]
  {
    hide StoreOk, Valid, Land, Look;
  }

  lemma QueriesKeepGeneration(s: Resolver, step: Step)
    requires Inv(s) && Enabled(s, step) && Permitted(step)
    ensures forall q :: q in s.queries && q in Apply(s, step).queries ==>
      Apply(s, step).queries[q].generation == s.queries[q].generation
  {
    hide StoreOk, QueriesOk, Valid;
  }

  /** A run none of whose steps touches a generation. */
  ghost predicate Untouched(s: Resolver, steps: seq<Step>, id: string)
    decreases |steps|
  {
    steps == [] ||
    (&& Inv(s) && Enabled(s, steps[0]) && Permitted(steps[0]) && Touched(s, steps[0]) != Some(id)
     && Untouched(Apply(s, steps[0]), steps[1..], id))
  }

  /** What a query finds is its own generation's, whatever happens to the others meanwhile: after any run that does not
      touch it, queries beginning, ending and looking elsewhere, switches and restores included, a lookup gives the
      answer and leaves the generation it would have before. */
  lemma {:induction false} AnswersComeFromOwnGeneration(s: Resolver, steps: seq<Step>, t: Resolver, id: string,
                                                        host: string, now: int)
    requires Inv(s) && Reaches(s, steps, t) && Untouched(s, steps, id) && id in s.gens
    ensures id in t.gens && Valid(s.gens[id].cache) && Valid(t.gens[id].cache)
    ensures Look(t.gens[id], host, now) == Look(s.gens[id], host, now)
    decreases |steps|
  {
    if steps != [] {
      OnlyOwnGenerationChanges(s, steps[0], id);
      StepKeeps(s, steps[0]);
      AnswersComeFromOwnGeneration(Apply(s, steps[0]), steps[1..], t, id, host, now);
    }
  }

  /** A generation no longer active leaves the store when its last query ends, and no sooner. */
  lemma LastQueryDropsGeneration(s: Resolver, q: nat)
    requires Inv(s) && Enabled(s, DoEnd(q)) && s.queries[q].generation != s.store.active
    ensures s.queries[q].generation !in Apply(s, DoEnd(q)).store.stored
       <==> forall p :: p in s.queries && p != q ==> s.queries[p].generation != s.queries[q].generation
  {
    hide CountsOk;
    var id, s' := s.queries[q].generation, Apply(s, DoEnd(q));
    EndKeeps(s, q);
    if 0 < Holders(s'.queries, GenerationOf, id) {
      var p := CountedIsHeld(s'.queries, GenerationOf, id);
      assert p in s.queries && p != q;
    } else {
      forall p | p in s.queries && p != q ensures s.queries[p].generation != id {
        if s.queries[p].generation == id {
          HeldIsCounted(s'.queries, GenerationOf, p);
          assert false;
        }
      }
    }
  }
}
