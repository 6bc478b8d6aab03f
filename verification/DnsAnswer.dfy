/** What DNS queries are answered, and what is cached for the next ones, said of the maps of a generation. */
module DnsAnswers {
  import opened Common
  import opened OrderedMaps
  import opened Handles
  import opened DnsCaches
  import opened DnsStores
  import opened DnsResolvers
  import DnsRecency
  import opened CacheCarryovers

  /** An entry is filed that has not expired; at the instant it expires it has. */
  predicate Live(entries: map<string, Entry>, key: string, now: int) {
    key in entries && now < entries[key].expiresAt
  }

  /** Two hosts that differ in the case of ASCII letters at most. */
  ghost predicate SameButCase(a: string, b: string) {
    && |a| == |b|
    && forall i :: 0 <= i < |a| ==>
         || a[i] == b[i]
         || ('A' <= a[i] <= 'Z' && b[i] as int == a[i] as int + 32)
         || ('A' <= b[i] <= 'Z' && a[i] as int == b[i] as int + 32)
  }

  /** Hosts are told apart without regard to case, and in no other way. */
  lemma HostsIgnoreCase(a: string, b: string)
    ensures Lower(a) == Lower(b) <==> SameButCase(a, b)
  {
    if Lower(a) == Lower(b) {
      forall i | 0 <= i < |a|
        ensures a[i] == b[i] || ('A' <= a[i] <= 'Z' && b[i] as int == a[i] as int + 32)
             || ('A' <= b[i] <= 'Z' && a[i] as int == b[i] as int + 32)
      {
        assert Lower(a)[i] == LowerChar(a[i]) && Lower(b)[i] == LowerChar(b[i]);
      }
    }
  }

  // -------------------------------------------------------------------- looking

  /** A map after it was asked for a key: an expired entry is gone, a live one was used now and is last. */
  ghost predicate Consulted(m: EntryMap, m': EntryMap, key: string, now: int) {
    && m'.vals == (if key !in m.vals then m.vals
                   else if Live(m.vals, key, now) then m.vals[key := m.vals[key].(touchedAt := now)]
                   else m.vals - {key})
    && m'.keys == Without(m.keys, key) + if Live(m.vals, key, now) then [key] else []
  }

  lemma LookupConsults(m: EntryMap, host: string, now: int)
    requires FiledByHost(m)
    ensures var (m', found) := Lookup(m, host, now);
      && Consulted(m, m', Lower(host), now)
      && found == if Live(m.vals, Lower(host), now) then Some(m.vals[Lower(host)].(touchedAt := now)) else None
  {
    var key := Lower(host);
    if key !in m.vals {
      WithoutAbsent(m.keys, key);
      assert m.keys + [] == m.keys;
    } else if !Live(m.vals, key, now) {
      assert Without(m.keys, key) + [] == Without(m.keys, key);
    }
  }

  /** What a query is answered at once, if anything: the static address of its host; or else the address in a live
      positive entry; or else the error in a live negative one. */
  function AtOnce(g: Generation, key: string, now: int): Phase {
    if key in g.config.hosts then Done(Address(g.config.hosts[key]))
    else if Live(g.cache.positive.vals, key, now) then Done(Address(g.cache.positive.vals[key].data))
    else if Live(g.cache.negative.vals, key, now) then Done(Failure(g.cache.negative.vals[key].data))
    else Waiting
  }

  /** Main result on looking: the static hosts come before the positive cache, that before the negative one, and only
      what none of them answers waits for a lookup, in flight from then on; the caches asked, and no others, have been
      consulted. */
  lemma LookAnswers(g: Generation, host: string, now: int)
    requires Valid(g.cache)
    ensures var (g', phase), key := Look(g, host, now), Lower(host);
      && phase == AtOnce(g, key, now)
      && g'.config == g.config
      && g'.flights == (if phase == Waiting then g.flights + {key} else g.flights)
      && (if key in g.config.hosts then g'.cache == g.cache
          else
            && Consulted(g.cache.positive, g'.cache.positive, key, now)
            && if Live(g.cache.positive.vals, key, now) then g'.cache.negative == g.cache.negative
               else Consulted(g.cache.negative, g'.cache.negative, key, now))
  {
    hide Consulted;
    LookupConsults(g.cache.positive, host, now);
    LookupConsults(g.cache.negative, host, now);
    LowerTwice(host);
    LookupConsults(g.cache.positive, Lower(host), now);
    LookupConsults(g.cache.negative, Lower(host), now);
  }

  /** So a query that looks gets this answer, and the other queries nothing. */
  lemma LookerIsAnswered(s: Resolver, q: nat, now: int)
    requires Inv(s) && Enabled(s, DoLook(q, now))
    ensures var s', query := Apply(s, DoLook(q, now)), s.queries[q];
      && s'.queries == s.queries[q := query.(phase := AtOnce(s.gens[query.generation], Lower(query.host), now))]
      && s'.store.active == s.store.active && s'.store.stored == s.store.stored && s'.nextQuery == s.nextQuery
  {
    hide Look, AtOnce, Holders;
    LookAnswers(s.gens[s.queries[q].generation], s.queries[q].host, now);
  }

  // -------------------------------------------------------------------- landing

  /** What those who waited for a lookup get: its address; or, if it failed, the fallback address of the host, if it has
      one; or the error. An abort has no fallback. */
  function Landed(config: Config, key: string, outcome: Outcome): Answer {
    match outcome
    case Resolved(address, _, _) => Address(address)
    case Failed(message, _) =>
      if key in config.fallbackHosts then Address(config.fallbackHosts[key]) else Failure(message)
    case Aborted(reason) => Failure(reason)
  }

  /** Main result on landing: every query that waits for this host in this generation, and no other, gets the answer. */
  lemma WaitersAreAnswered(s: Resolver, id: string, key: string, outcome: Outcome, at: int)
    requires Inv(s) && Enabled(s, DoLand(id, key, outcome, at))
    ensures var s' := Apply(s, DoLand(id, key, outcome, at));
      && s'.queries.Keys == s.queries.Keys
      && (forall q :: q in s.queries ==>
            s'.queries[q] == if WaitsFor(s, q, id, key) then
                               s.queries[q].(phase := Done(Landed(s.gens[id].config, key, outcome)))
                             else s.queries[q])
      && s'.gens[id].flights == s.gens[id].flights - {key} && s'.gens[id].config == s.gens[id].config
      && s'.store.active == s.store.active && s'.store.stored == s.store.stored && s'.nextQuery == s.nextQuery
  {
    hide Valid, StoreOk, QueriesOk, Holders, Lower, SetPositive, SetNegative;
  }

  /** The entry a lookup leaves, and whether it is a negative one. An answer lives as long as it says, but no longer
      than configured; without a lifetime of its own as long as configured. */
  function Leaves(config: Config, key: string, outcome: Outcome, at: int): Option<(Entry, bool)> {
    match outcome
    case Resolved(address, ttlMs, source) =>
      var lifetime := if ttlMs.Some? && ttlMs.value < config.cacheTtlMs then ttlMs.value else config.cacheTtlMs;
      Some((Entry(key, address, at + lifetime, at, source, false, false), false))
    case Failed(message, source) =>
      if key in config.fallbackHosts || config.negativeTtlMs == 0 then None
      else Some((Entry(key, message, at + config.negativeTtlMs, at, source, false, false), true))
    case Aborted(_) => None
  }

  /** A cache after an entry was stored: if there is anything of its host, it is this entry; of the other hosts there is
      nothing new; and with room for it, everything is there. */
  ghost predicate HoldsNow(c: Cache, c': Cache, e: Entry, negative: bool, size: nat) {
    && e.host !in MapOf(c', !negative).vals
    && (e.host in MapOf(c', negative).vals ==> MapOf(c', negative).vals[e.host] == e)
    && (forall side, k :: k in MapOf(c', side).vals && k != e.host ==>
          k in MapOf(c, side).vals && MapOf(c', side).vals[k] == MapOf(c, side).vals[k])
    && Total(c') <= size
    && (HasRoom(c, e.host, size) ==>
          && e.host in MapOf(c', negative).vals
          && forall side, k :: k in MapOf(c, side).vals && k != e.host ==> k in MapOf(c', side).vals)
  }

  /** Whether an entry of this host fits in beside those of the others. */
  predicate HasRoom(c: Cache, host: string, size: nat) {
    Total(c) + (if host in c.positive.vals || host in c.negative.vals then 0 else 1) <= size
  }

  function Put(c: Cache, e: Entry, negative: bool): (c': Cache)
    requires Valid(c)
    ensures Valid(c')
  {
    if negative then PutNegative(c, e) else PutPositive(c, e)
  }

  /** A cache that holds an entry, nothing else of its host, and all that another cache holds of other hosts. */
  ghost predicate Holding(c: Cache, c': Cache, e: Entry, negative: bool) {
    && e.host in MapOf(c', negative).vals && MapOf(c', negative).vals[e.host] == e
    && e.host !in MapOf(c', !negative).vals
    && (forall side, k :: k != e.host ==>
          && (k in MapOf(c', side).vals <==> k in MapOf(c, side).vals)
          && (k in MapOf(c, side).vals ==> MapOf(c', side).vals[k] == MapOf(c, side).vals[k]))
    && Total(c') == Total(c) + if e.host in c.positive.vals || e.host in c.negative.vals then 0 else 1
  }

  lemma PutHolds(c: Cache, e: Entry, negative: bool)
    requires Valid(c) && Lower(e.host) == e.host
    ensures Holding(c, Put(c, e, negative), e, negative)
  {
    WithoutLength(c.positive.keys, e.host);
    WithoutLength(c.negative.keys, e.host);
    assert Filed(e) == e;
  }

  lemma FewerHoldNow(c: Cache, put: Cache, c': Cache, e: Entry, negative: bool, size: nat)
    requires Holding(c, put, e, negative) && Total(c') <= size && (Total(put) <= size ==> c' == put)
    requires forall side, k :: k in MapOf(c', side).vals ==>
      k in MapOf(put, side).vals && MapOf(c', side).vals[k] == MapOf(put, side).vals[k]
    ensures HoldsNow(c, c', e, negative, size)
  {
    if HasRoom(c, e.host, size) {
      assert c' == put;
    }
  }

  lemma StoreHolds(c: Cache, e: Entry, negative: bool, size: nat)
    requires Valid(c) && Lower(e.host) == e.host
    ensures HoldsNow(c, if negative then SetNegative(c, e, size) else SetPositive(c, e, size), e, negative, size)
  {
    hide Valid, FiledByHost, Lower, Holding, HoldsNow, MapOf;
    var put := Put(c, e, negative);
    PutHolds(c, e, negative);
    DnsRecency.TrimBounds(put, size);
    forall side, k | k in MapOf(Trim(put, size), side).vals
      ensures k in MapOf(put, side).vals && MapOf(Trim(put, size), side).vals[k] == MapOf(put, side).vals[k]
    {
      TrimTakesOut(put, size, k, side);
    }
    FewerHoldNow(c, put, Trim(put, size), e, negative, size);
  }

  /** Main result on what is cached: a lookup that lands stores this one entry in the generation it belongs to, or
      nothing, and the cache stays within its limit. */
  lemma LandingIsCached(s: Resolver, id: string, key: string, outcome: Outcome, at: int)
    requires Inv(s) && Enabled(s, DoLand(id, key, outcome, at))
    ensures var g, c' := s.gens[id], Apply(s, DoLand(id, key, outcome, at)).gens[id].cache;
      match Leaves(g.config, key, outcome, at)
      case None => c' == g.cache
      case Some(e) => HoldsNow(g.cache, c', e.0, e.1, g.config.maxEntries)
  {
    hide HoldsNow, Valid, StoreOk, Holders, Lower, SetPositive, SetNegative;
    var q :| WaitsFor(s, q, id, key);
    LowerTwice(s.queries[q].host);
    var g := s.gens[id];
    match Leaves(g.config, key, outcome, at)
    case None =>
    case Some(e) => StoreHolds(g.cache, e.0, e.1, g.config.maxEntries);
  }

  // ------------------------------------------------------------ the other steps

  /** A query begins on the generation in force; it goes when it ends; and a switch or a restore, and nothing else, puts
      another generation in force, a new one as it was made. */
  lemma StepMeans(s: Resolver, step: Step)
    requires Inv(s) && Enabled(s, step) && Permitted(step)
    ensures var s' := Apply(s, step);
      && s'.store.active == (match step case DoSwitch(id, _, _) => id case DoRestore(to) => to case _ => s.store.active)
      && (step.DoBegin? ==>
            s.nextQuery !in s.queries
            && s'.queries == s.queries[s.nextQuery := Query(s.store.active, step.host, Started)])
      && (step.DoEnd? ==> s'.queries == s.queries - {step.done})
      && (step.DoSwitch? ==>
            s'.gens == s.gens[step.id := Generation(step.next, step.carried, {})]
            && s'.store.stored == s.store.stored + [step.id])
      && (step.DoSwitch? || step.DoRestore? ==> s'.queries == s.queries)
      && (step.DoBegin? || step.DoEnd? || step.DoRestore? ==> s'.gens == s.gens)
  {
    hide Valid, Holders, Lower, Look, Land, QueriesOk;
  }
}
