/** `src/dns/cacheCarryover.ts`: which cache entries a new DNS generation takes over from the old one. */
module CacheCarryovers {
  import opened Common
  import opened OrderedMaps
  import opened DnsCaches
  import opened DnsRecency

  /** What the plan looks at in a DNS configuration. `resolver` stands for everything the compatibility hash
      covers; equal hashes are taken to be equal settings. */
  datatype DnsConfig = DnsConfig(
    fakeIpEnabled: bool,
    fakeIpSettings: string,
    resolver: string,
    cacheTtlMs: nat,
    cacheMaxEntries: Option<nat>,
    negativeTtlMs: Option<nat>)

  datatype Plan = Plan(
    allowed: bool,
    reason: string,
    positiveEntries: seq<Entry>,
    negativeEntries: seq<Entry>,
    carried: nat,
    dropped: int)

  /** The limit of a generation with this configuration. */
  function Limit(config: DnsConfig): nat {
    match config.cacheMaxEntries case Some(n) => n case None => 4096
  }

  predicate Eligible(e: Entry, now: int) {
    e.expiresAt > now && !e.sensitive && !e.synthetic
  }

  function Filter(s: seq<Entry>, now: int): (r: seq<Entry>)
    ensures |r| <= |s|
  {
    if s == [] then []
    else if Eligible(s[0], now) then [s[0]] + Filter(s[1..], now)
    else Filter(s[1..], now)
  }

  function Min(a: int, b: int): int {
    if a <= b then a else b
  }

  /** The copy a new generation gets: fresh, and expiring no later than before. */
  function Carry(e: Entry, now: int, ttl: nat): Entry {
    e.(expiresAt := Min(e.expiresAt, now + ttl), touchedAt := now)
  }

  function CarryAll(s: seq<Entry>, now: int, ttl: nat): (r: seq<Entry>)
    ensures |r| == |s| && forall i :: 0 <= i < |s| ==> r[i] == Carry(s[i], now, ttl)
  {
    seq(|s|, i requires 0 <= i < |s| => Carry(s[i], now, ttl))
  }

  /** The last entries that fit. */
  function KeptPositive(positive: seq<Entry>, candidate: DnsConfig, now: int): (r: seq<Entry>)
    ensures |r| <= Limit(candidate) && |r| <= |positive|
  {
    var eligible := CarryAll(Filter(positive, now), now, candidate.cacheTtlMs);
    if |eligible| <= Limit(candidate) then eligible else eligible[|eligible| - Limit(candidate)..]
  }

  function NegativeTtl(config: DnsConfig): nat {
    match config.negativeTtlMs case Some(n) => n case None => 5000
  }

  /** The first entries that fit. */
  function KeptNegative(negative: seq<Entry>, candidate: DnsConfig, now: int, room: nat): (r: seq<Entry>)
    ensures |r| <= room && |r| <= |negative|
  {
    var eligible := CarryAll(Filter(negative, now), now, NegativeTtl(candidate));
    if |eligible| <= room then eligible else eligible[..room]
  }

  predicate FakeIpChanges(current: DnsConfig, candidate: DnsConfig) {
    current.fakeIpEnabled != candidate.fakeIpEnabled || current.fakeIpSettings != candidate.fakeIpSettings
  }

  /** `planDnsCacheCarryover`. A fake-IP change is rejected outright. */
  function PlanCarryover(current: Cache, currentConfig: DnsConfig, candidate: DnsConfig, now: int,
                         carryNegative: bool): Result<Plan, string>
    requires Valid(current)
  {
    if FakeIpChanges(currentConfig, candidate) then
      Err("DNS-only transactional reload rejected high-risk fake-IP configuration change")
    else
      var positive, negative := current.positive.Values(), current.negative.Values();
      var sameResolver := currentConfig.resolver == candidate.resolver;
      var fakeIpDisabled := !currentConfig.fakeIpEnabled && !candidate.fakeIpEnabled;
      if !sameResolver || !fakeIpDisabled then
        Ok(Plan(false, if !sameResolver then "resolver-identity-changed" else "fake-ip-enabled", [], [], 0,
                |positive| + |negative|))
      else
        var kept := KeptPositive(positive, candidate, now);
        var keptNegative :=
          if carryNegative then KeptNegative(negative, candidate, now, Limit(candidate) - |kept|) else [];
        Ok(Plan(true, "compatible-resolver", kept, keptNegative, |kept| + |keptNegative|,
                |positive| + |negative| - (|kept| + |keptNegative|)))
  }

  function PutAll(c: Cache, negative: bool, entries: seq<Entry>, size: nat): (c': Cache)
    requires Valid(c)
    ensures Valid(c')
    decreases |entries|
  {
    if entries == [] then c
    else PutAll(if negative then SetNegative(c, entries[0], size) else SetPositive(c, entries[0], size),
                negative, entries[1..], size)
  }

  /** `applyDnsCacheCarryover` on values */
  function ApplyPlan(c: Cache, plan: Plan, size: nat): (c': Cache)
    requires Valid(c)
    ensures Valid(c')
  {
    PutAll(PutAll(c, false, plan.positiveEntries, size), true, plan.negativeEntries, size)
  }

  /** `applyDnsCacheCarryover` */
  method ApplyCarryover(candidate: DNSGeneration, plan: Plan)
    requires candidate.Wf()
    modifies candidate`positiveCache, candidate`negativeCache
    ensures candidate.Wf() && candidate.Contents() == ApplyPlan(old(candidate.Contents()), plan, candidate.maxEntries)
  {
    var i := 0;
    while i < |plan.positiveEntries|
      invariant 0 <= i <= |plan.positiveEntries| && candidate.Wf()
      invariant PutAll(candidate.Contents(), false, plan.positiveEntries[i..], candidate.maxEntries)
             == PutAll(old(candidate.Contents()), false, plan.positiveEntries, candidate.maxEntries)
    {
      assert plan.positiveEntries[i..][1..] == plan.positiveEntries[i + 1..];
      candidate.WritePositive(plan.positiveEntries[i]);
      i := i + 1;
    }
    ghost var middle := candidate.Contents();
    i := 0;
    while i < |plan.negativeEntries|
      invariant 0 <= i <= |plan.negativeEntries| && candidate.Wf()
      invariant PutAll(candidate.Contents(), true, plan.negativeEntries[i..], candidate.maxEntries)
             == PutAll(middle, true, plan.negativeEntries, candidate.maxEntries)
    {
      assert plan.negativeEntries[i..][1..] == plan.negativeEntries[i + 1..];
      candidate.WriteNegative(plan.negativeEntries[i]);
      i := i + 1;
    }
  }

  // ------------------------------------------------------------ what is carried

  /** Distinct lower-case hosts, as the values of a cache map have. */
  ghost predicate Hosts(s: seq<Entry>) {
    && (forall i, j :: 0 <= i < j < |s| ==> s[i].host != s[j].host)
    && (forall i :: 0 <= i < |s| ==> Lower(s[i].host) == s[i].host)
  }

  ghost predicate NoClash(a: seq<Entry>, b: seq<Entry>) {
    forall i, j :: 0 <= i < |a| && 0 <= j < |b| ==> a[i].host != b[j].host
  }

  /** `r` holds carried copies of some entries of `s`, and nothing else. */
  ghost predicate CopiesOf(r: seq<Entry>, s: seq<Entry>, now: int, ttl: nat) {
    forall e :: e in r ==> exists o :: o in s && Eligible(o, now) && e == Carry(o, now, ttl)
  }

  lemma {:induction false} FilterSelects(s: seq<Entry>, now: int)
    requires Hosts(s)
    ensures Hosts(Filter(s, now))
    ensures forall e :: e in Filter(s, now) ==> e in s && Eligible(e, now)
  {
    if s != [] {
      FilterSelects(s[1..], now);
      var r := Filter(s[1..], now);
      forall i | 0 <= i < |r| ensures r[i].host != s[0].host {
        assert r[i] in s[1..];
      }
    }
  }

  lemma ValuesHaveHosts(m: EntryMap)
    requires FiledByHost(m)
    ensures Hosts(m.Values())
  {
    forall i | 0 <= i < |m.Values()| ensures m.Values()[i].host == m.keys[i] && Lower(m.keys[i]) == m.keys[i] {
      assert m.keys[i] in m.vals;
    }
  }

  lemma CarriedHosts(s: seq<Entry>, now: int, ttl: nat)
    requires Hosts(s)
    ensures var r := CarryAll(Filter(s, now), now, ttl); Hosts(r) && CopiesOf(r, s, now, ttl)
  {
    FilterSelects(s, now);
  }

  /** The arithmetic of the plan: nothing is counted twice or lost, and it fits the new generation. */
  lemma PlanAddsUp(current: Cache, currentConfig: DnsConfig, candidate: DnsConfig, now: int, carryNegative: bool)
    requires Valid(current)
    ensures match PlanCarryover(current, currentConfig, candidate, now, carryNegative)
      case Err(_) =>
        || currentConfig.fakeIpEnabled != candidate.fakeIpEnabled
        || currentConfig.fakeIpSettings != candidate.fakeIpSettings
      case Ok(plan) =>
        && currentConfig.fakeIpEnabled == candidate.fakeIpEnabled
        && currentConfig.fakeIpSettings == candidate.fakeIpSettings
        && plan.carried == |plan.positiveEntries| + |plan.negativeEntries|
        && plan.carried + plan.dropped == Total(current) && 0 <= plan.dropped
        && plan.carried <= Limit(candidate)
        && (plan.allowed <==> currentConfig.resolver == candidate.resolver
                              && !currentConfig.fakeIpEnabled && !candidate.fakeIpEnabled)
        && (!plan.allowed ==> plan.carried == 0)
        && (plan.reason == "resolver-identity-changed" <==> currentConfig.resolver != candidate.resolver)
  {
    hide KeptPositive, KeptNegative, FiledByHost;
  }

  /** Every planned entry is a copy of a live, insensitive, real entry of the same kind, the hosts are all
      different, and positive entries are given room first: negative ones come in only after all of them. */
  lemma PlanCopies(current: Cache, currentConfig: DnsConfig, candidate: DnsConfig, now: int, carryNegative: bool)
    requires Valid(current)
    requires PlanCarryover(current, currentConfig, candidate, now, carryNegative).Ok?
    ensures var plan := PlanCarryover(current, currentConfig, candidate, now, carryNegative).value;
      && CopiesOf(plan.positiveEntries, current.positive.Values(), now, candidate.cacheTtlMs)
      && CopiesOf(plan.negativeEntries, current.negative.Values(), now, NegativeTtl(candidate))
      && Hosts(plan.positiveEntries + plan.negativeEntries)
      && (plan.negativeEntries != [] ==> |plan.positiveEntries| == |Filter(current.positive.Values(), now)|)
  {
    hide Filter, Hosts;
    var plan := PlanCarryover(current, currentConfig, candidate, now, carryNegative).value;
    KeptPositiveCopies(current, candidate, now);
    KeptNegativeCopies(current, candidate, now, if plan.allowed then Limit(candidate) - |plan.positiveEntries| else 0);
    HostsApart(current, plan.positiveEntries, plan.negativeEntries, now, candidate.cacheTtlMs, NegativeTtl(candidate));
  }

  lemma HostsApart(current: Cache, positive: seq<Entry>, negative: seq<Entry>, now: int, ttl: nat, negativeTtl: nat)
    requires Valid(current) && Hosts(positive) && Hosts(negative)
    requires CopiesOf(positive, current.positive.Values(), now, ttl)
    requires CopiesOf(negative, current.negative.Values(), now, negativeTtl)
    ensures Hosts(positive + negative)
  {
    forall i, j | 0 <= i < |positive| && 0 <= j < |negative| ensures positive[i].host != negative[j].host {
      HostOf(positive[i], current.positive, positive, now, ttl);
      HostOf(negative[j], current.negative, negative, now, negativeTtl);
    }
    HostsAppend(positive, negative);
  }

  lemma SliceCopies(r: seq<Entry>, lo: nat, hi: nat, s: seq<Entry>, now: int, ttl: nat)
    requires lo <= hi <= |r| && Hosts(r) && CopiesOf(r, s, now, ttl)
    ensures Hosts(r[lo..hi]) && CopiesOf(r[lo..hi], s, now, ttl)
  {
    var part := r[lo..hi];
    forall i | 0 <= i < |part| ensures part[i] == r[lo + i] {}
    forall e | e in part ensures e in r {}
  }

  lemma KeptPositiveCopies(current: Cache, candidate: DnsConfig, now: int)
    requires Valid(current)
    ensures var r := KeptPositive(current.positive.Values(), candidate, now);
      Hosts(r) && CopiesOf(r, current.positive.Values(), now, candidate.cacheTtlMs)
  {
    hide LowerChar, Limit;
    var s := current.positive.Values();
    ValuesHaveHosts(current.positive);
    CarriedHosts(s, now, candidate.cacheTtlMs);
    var eligible := CarryAll(Filter(s, now), now, candidate.cacheTtlMs);
    if |eligible| > Limit(candidate) {
      var lo := |eligible| - Limit(candidate);
      SliceCopies(eligible, lo, |eligible|, s, now, candidate.cacheTtlMs);
      assert eligible[lo..|eligible|] == eligible[lo..];
    }
  }

  lemma KeptNegativeCopies(current: Cache, candidate: DnsConfig, now: int, room: nat)
    requires Valid(current)
    ensures var r := KeptNegative(current.negative.Values(), candidate, now, room);
      Hosts(r) && CopiesOf(r, current.negative.Values(), now, NegativeTtl(candidate))
  {
    var s := current.negative.Values();
    ValuesHaveHosts(current.negative);
    CarriedHosts(s, now, NegativeTtl(candidate));
    var eligible := CarryAll(Filter(s, now), now, NegativeTtl(candidate));
    if |eligible| > room {
      SliceCopies(eligible, 0, room, s, now, NegativeTtl(candidate));
    }
  }

  lemma HostsAppend(p: seq<Entry>, n: seq<Entry>)
    requires Hosts(p) && Hosts(n)
    requires NoClash(p, n)
    ensures Hosts(p + n)
  {
  }

  /** A carried copy's host is a key of the map it came from, and names the entry it was copied from. */
  lemma HostOf(e: Entry, m: EntryMap, r: seq<Entry>, now: int, ttl: nat)
    requires FiledByHost(m) && e in r && CopiesOf(r, m.Values(), now, ttl)
    ensures e.host in m.vals && Eligible(m.vals[e.host], now) && e == Carry(m.vals[e.host], now, ttl)
  {
    var o :| o in m.Values() && Eligible(o, now) && e == Carry(o, now, ttl);
    var i :| 0 <= i < |m.Values()| && m.Values()[i] == o;
    assert m.keys[i] in m.vals;
  }

  // -------------------------------------------------------- which are carried

  /** The eligible ones, from first to last. */
  lemma {:induction false} FilterAt(s: seq<Entry>, now: int) returns (at: seq<nat>)
    ensures Picks(s, at, Filter(s, now)) && Rising(at)
    ensures forall k: nat :: k < |s| ==> (k in at <==> Eligible(s[k], now))
  {
    if s == [] {
      return [];
    }
    at := FilterAt(s[1..], now);
    at := OneEarlier(s, at, Filter(s[1..], now), Eligible(s[0], now));
  }

  /** An entry is a copy of another, used now and living no longer than `ttl` from now. */
  ghost predicate IsCopy(e: Entry, o: Entry, now: int, ttl: nat) {
    && e.host == o.host && e.data == o.data && e.source == o.source
    && e.sensitive == o.sensitive && e.synthetic == o.synthetic
    && e.touchedAt == now && e.expiresAt == if o.expiresAt < now + ttl then o.expiresAt else now + ttl
  }

  /** A list copies the entries at these places, one by one. */
  ghost predicate CopiesAt(r: seq<Entry>, s: seq<Entry>, at: seq<nat>, now: int, ttl: nat) {
    && |r| == |at| && Rising(at)
    && (forall i :: 0 <= i < |at| ==>
          && at[i] < |s| && IsCopy(r[i], s[at[i]], now, ttl)
          && now < s[at[i]].expiresAt && !s[at[i]].sensitive && !s[at[i]].synthetic)
  }

  /** Those left out of a list of places. */
  ghost predicate LeftOut(s: seq<Entry>, at: seq<nat>, now: int, k: nat) {
    k < |s| && now < s[k].expiresAt && !s[k].sensitive && !s[k].synthetic && k !in at
  }

  /** The last entries that fit are kept. */
  lemma KeptPositiveAt(s: seq<Entry>, candidate: DnsConfig, now: int) returns (at: seq<nat>)
    ensures CopiesAt(KeptPositive(s, candidate, now), s, at, now, candidate.cacheTtlMs)
    ensures forall k :: LeftOut(s, at, now, k) ==> |at| == Limit(candidate) && forall i :: 0 <= i < |at| ==> k < at[i]
  {
    hide Filter, CarryAll, IsCopy, Limit, CopiesAt, Rising;
    var all := EligibleAt(s, now, candidate.cacheTtlMs);
    var eligible := CarryAll(Filter(s, now), now, candidate.cacheTtlMs);
    var cut: nat := if |all| <= Limit(candidate) then 0 else |all| - Limit(candidate);
    at := all[cut..];
    PartCopies(eligible, s, all, cut, |all|, now, candidate.cacheTtlMs);
    assert eligible[cut..] == eligible[cut..|all|] && at == all[cut..|all|];
    assert cut == 0 ==> eligible[cut..] == eligible;
    assert Rising(all) by { CopiesRise(eligible, s, all, now, candidate.cacheTtlMs); }
    forall k | LeftOut(s, at, now, k) ensures |at| == Limit(candidate) && forall i :: 0 <= i < |at| ==> k < at[i] {
      CutOff(all, cut, |all|, k);
    }
  }

  /** A place not in a part of a rising list lies before or behind it. */
  lemma CutOff(all: seq<nat>, lo: nat, hi: nat, k: nat)
    requires Rising(all) && lo <= hi <= |all| && k in all && k !in all[lo..hi]
    ensures || (lo > 0 && forall i :: lo <= i < hi ==> k < all[i])
            || (hi < |all| && forall i :: lo <= i < hi ==> all[i] < k)
  {
    assert forall i :: lo <= i < hi ==> all[lo..hi][i - lo] == all[i];
    assert forall i :: 0 <= i < |all[lo..hi]| ==> all[lo..hi][i] in all[lo..hi];
    var i :| 0 <= i < |all| && all[i] == k;
  }

  /** All the eligible ones, and a part of them. */
  lemma EligibleAt(s: seq<Entry>, now: int, ttl: nat) returns (all: seq<nat>)
    ensures CopiesAt(CarryAll(Filter(s, now), now, ttl), s, all, now, ttl)
    ensures forall k: nat :: k < |s| && now < s[k].expiresAt && !s[k].sensitive && !s[k].synthetic ==> k in all
  {
    all := FilterAt(s, now);
    assert forall i :: 0 <= i < |all| ==> all[i] in all;
  }

  lemma CopiesRise(r: seq<Entry>, s: seq<Entry>, at: seq<nat>, now: int, ttl: nat)
    requires CopiesAt(r, s, at, now, ttl)
    ensures |r| == |at| && Rising(at)
  {
  }

  lemma PartCopies(r: seq<Entry>, s: seq<Entry>, all: seq<nat>, lo: nat, hi: nat, now: int, ttl: nat)
    requires CopiesAt(r, s, all, now, ttl) && lo <= hi <= |all|
    ensures |r| == |all| && CopiesAt(r[lo..hi], s, all[lo..hi], now, ttl)
  {
  }

  /** The first negative entries that fit beside them. */
  lemma KeptNegativeAt(s: seq<Entry>, candidate: DnsConfig, now: int, room: nat) returns (at: seq<nat>)
    ensures CopiesAt(KeptNegative(s, candidate, now, room), s, at, now, NegativeTtl(candidate))
    ensures forall k :: LeftOut(s, at, now, k) ==> |at| == room && forall i :: 0 <= i < |at| ==> at[i] < k
  {
    hide Filter, CarryAll, IsCopy;
    var all := EligibleAt(s, now, NegativeTtl(candidate));
    var eligible := CarryAll(Filter(s, now), now, NegativeTtl(candidate));
    var cut := if |all| <= room then |all| else room;
    at := all[..cut];
    PartCopies(eligible, s, all, 0, cut, now, NegativeTtl(candidate));
    assert eligible[..cut] == eligible[0..cut] && at == all[0..cut];
    assert cut == |all| ==> eligible[..cut] == eligible;
    forall k | LeftOut(s, at, now, k) ensures |at| == room && forall i :: 0 <= i < |at| ==> at[i] < k {
      CutOff(all, 0, cut, k);
    }
  }

  /** Main result on what is carried, of an allowed plan: copies of the live, insensitive, real entries, in order. A
      positive one is left out only if the limit is reached, and then those used last are kept; a negative one only if
      they are not wanted, or the limit is reached, and then the first ones are kept. */
  lemma PlanTakes(current: Cache, currentConfig: DnsConfig, candidate: DnsConfig, now: int, carryNegative: bool)
    returns (p: seq<nat>, n: seq<nat>)
    requires Valid(current)
    requires currentConfig.resolver == candidate.resolver && currentConfig.fakeIpSettings == candidate.fakeIpSettings
    requires !currentConfig.fakeIpEnabled && !candidate.fakeIpEnabled
    ensures PlanCarryover(current, currentConfig, candidate, now, carryNegative).Ok?
    ensures var plan := PlanCarryover(current, currentConfig, candidate, now, carryNegative).value;
      var limit := if candidate.cacheMaxEntries.Some? then candidate.cacheMaxEntries.value else 4096;
      var negativeTtl := if candidate.negativeTtlMs.Some? then candidate.negativeTtlMs.value else 5000;
      var positive, negative := current.positive.Values(), current.negative.Values();
      && CopiesAt(plan.positiveEntries, positive, p, now, candidate.cacheTtlMs)
      && CopiesAt(plan.negativeEntries, negative, n, now, negativeTtl)
      && (forall k :: LeftOut(positive, p, now, k) ==> |p| == limit && forall i :: 0 <= i < |p| ==> k < p[i])
      && (!carryNegative ==> n == [])
      && (carryNegative ==> forall k :: LeftOut(negative, n, now, k) ==>
            |p| + |n| == limit && forall i :: 0 <= i < |n| ==> n[i] < k)
  {
    hide KeptPositive, KeptNegative, LeftOut, CopiesAt;
    p := KeptPositiveAt(current.positive.Values(), candidate, now);
    n := [];
    CopiesRise(KeptPositive(current.positive.Values(), candidate, now), current.positive.Values(), p, now,
               candidate.cacheTtlMs);
    if carryNegative {
      n := KeptNegativeAt(current.negative.Values(), candidate, now, Limit(candidate) - |p|);
    } else {
      NoCopies(current.negative.Values(), now, NegativeTtl(candidate));
    }
  }

  lemma NoCopies(s: seq<Entry>, now: int, ttl: nat)
    ensures CopiesAt([], s, [], now, ttl)
  {
  }

  // ------------------------------------------------------------- applying it

  /** A cache built by plain appending: its values are these lists. */
  ghost predicate Holds(c: Cache, p: seq<Entry>, n: seq<Entry>) {
    Valid(c) && c.positive.Values() == p && c.negative.Values() == n
  }

  /** Storing a new host within the limit appends it and evicts nothing. */
  lemma SetAppends(c: Cache, negative: bool, e: Entry, size: nat, p: seq<Entry>, n: seq<Entry>)
    requires Holds(c, p, n) && Total(c) < size && Lower(e.host) == e.host
    requires forall x :: x in p ==> x.host != e.host
    requires forall x :: x in n ==> x.host != e.host
    ensures var c' := if negative then SetNegative(c, e, size) else SetPositive(c, e, size);
      && Holds(c', if negative then p else p + [e], if negative then n + [e] else n)
      && Total(c') == Total(c) + 1
  {
    assert Filed(e) == e;
    ValuesAfter(c.positive, e.host, e);
    ValuesAfter(c.negative, e.host, e);
    DropAbsent(p, e.host);
    DropAbsent(n, e.host);
    var put := if negative then PutNegative(c, e) else PutPositive(c, e);
    assert |put.positive.Values()| == if negative then |p| else |p| + 1;
    assert |put.negative.Values()| == if negative then |n| + 1 else |n|;
    assert Total(put) == Total(c) + 1 <= size;
  }

  lemma {:induction false} PutAllAppends(c: Cache, negative: bool, entries: seq<Entry>, size: nat,
                                         p: seq<Entry>, n: seq<Entry>, p': seq<Entry>, n': seq<Entry>)
    requires Holds(c, p, n) && Total(c) + |entries| <= size
    requires p' == if negative then p else p + entries
    requires n' == if negative then n + entries else n
    requires Hosts(entries) && NoClash(p, entries) && NoClash(n, entries)
    ensures Holds(PutAll(c, negative, entries, size), p', n')
    decreases |entries|
  {
    if entries != [] {
      var e, rest := entries[0], entries[1..];
      SetAppends(c, negative, e, size, p, n);
      NoClashStep(p, entries);
      NoClashStep(n, entries);
      var c' := if negative then SetNegative(c, e, size) else SetPositive(c, e, size);
      if negative {
        Regroup(n, entries);
        PutAllAppends(c', negative, rest, size, p, n + [e], p', n');
      } else {
        Regroup(p, entries);
        PutAllAppends(c', negative, rest, size, p + [e], n, p', n');
      }
    }
  }

  lemma Regroup(p: seq<Entry>, entries: seq<Entry>)
    requires entries != []
    ensures p + [entries[0]] + entries[1..] == p + entries
  {
  }

  lemma NoClashStep(p: seq<Entry>, entries: seq<Entry>)
    requires entries != [] && Hosts(entries) && NoClash(p, entries)
    ensures NoClash(p, entries[1..]) && NoClash(p + [entries[0]], entries[1..]) && Hosts(entries[1..])
    ensures forall x :: x in p ==> x.host != entries[0].host
  {
  }

  /** Main result: in a fresh generation the planned entries are exactly what the caches hold, in order; not one of
      them is trimmed away. */
  lemma FreshCandidateHoldsPlan(current: Cache, currentConfig: DnsConfig, candidate: DnsConfig, now: int,
                                carryNegative: bool)
    requires Valid(current)
    requires PlanCarryover(current, currentConfig, candidate, now, carryNegative).Ok?
    ensures var plan := PlanCarryover(current, currentConfig, candidate, now, carryNegative).value;
      Holds(ApplyPlan(EMPTY, plan, Limit(candidate)), plan.positiveEntries, plan.negativeEntries)
  {
    hide PutAll, KeptPositive, PlanCarryover;
    var plan := PlanCarryover(current, currentConfig, candidate, now, carryNegative).value;
    var p, n := plan.positiveEntries, plan.negativeEntries;
    PlanAddsUp(current, currentConfig, candidate, now, carryNegative);
    PlanCopies(current, currentConfig, candidate, now, carryNegative);
    HostsSplit(p, n);
    PutAllAppends(EMPTY, false, p, Limit(candidate), [], [], p, []);
    PutAllAppends(PutAll(EMPTY, false, p, Limit(candidate)), true, n, Limit(candidate), p, [], p, n);
  }

  lemma HostsSplit(p: seq<Entry>, n: seq<Entry>)
    requires Hosts(p + n)
    ensures Hosts(p) && Hosts(n) && NoClash(p, n)
  {
    var all := p + n;
    assert all[..|p|] == p && all[|p|..] == n;
    forall i | 0 <= i < |n| ensures n[i] == all[|p| + i] {}
    forall i | 0 <= i < |p| ensures p[i] == all[i] {}
  }

  /** Whether an operation stores this host in this map. */
  predicate Stores(op: Op, key: string, negative: bool) {
    op.Set? && op.negative == negative && Lower(op.entry.host) == key
  }

  function MapOf(c: Cache, negative: bool): EntryMap {
    if negative then c.negative else c.positive
  }

  /** An operation that does not store a host leaves its entry as it is but for the time of use, or takes it out. */
  lemma EntryStays(c: Cache, op: Op, size: nat, key: string, negative: bool)
    requires Valid(c) && !Stores(op, key, negative)
    ensures var m, m' := MapOf(c, negative), MapOf(DnsRecency.Apply(c, op, size), negative);
      key in m'.vals ==> key in m.vals && m'.vals[key] == m.vals[key].(touchedAt := m'.vals[key].touchedAt)
  {
    hide FiledByHost, Lower, Trim;
    match op
    case Get(_, host, now) =>
    case Set(into, entry) =>
      TrimTakesOut(if into then PutNegative(c, entry) else PutPositive(c, entry), size, key, negative);
  }

  lemma {:induction false} TrimTakesOut(c: Cache, size: nat, key: string, negative: bool)
    requires Valid(c)
    ensures var m, m' := MapOf(c, negative), MapOf(Trim(c, size), negative);
      key in m'.vals ==> key in m.vals && m'.vals[key] == m.vals[key]
    decreases Total(c)
  {
    hide FiledByHost, Lower;
    if Total(c) > size {
      TrimTakesOut(TrimOne(c), size, key, negative);
    }
  }

  lemma {:induction false} EntryStaysOverRun(c: Cache, ops: seq<Op>, size: nat, key: string, negative: bool)
    requires Valid(c) && forall i :: 0 <= i < |ops| ==> !Stores(ops[i], key, negative)
    ensures var m, m' := MapOf(c, negative), MapOf(RunFrom(c, ops, size), negative);
      key in m'.vals ==> key in m.vals && m'.vals[key] == m.vals[key].(touchedAt := m'.vals[key].touchedAt)
  {
    if ops != [] {
      hide DnsRecency.Apply, FiledByHost, Stores;
      var before, last := ops[..|ops| - 1], ops[|ops| - 1];
      EntryStaysOverRun(c, before, size, key, negative);
      EntryStays(RunFrom(c, before, size), last, size, key, negative);
    }
  }

  /** Main result: carryover never invents or extends an answer. Whatever has been looked up and stored in the candidate
      since, as long as the host itself has not been stored, and at any instant: whatever the candidate answers for the
      host, positive or negative, the old generation's cache answers too, with the same data. */
  lemma EveryHitWasAHit(current: Cache, currentConfig: DnsConfig, candidate: DnsConfig, now: int, carryNegative: bool,
                        ops: seq<Op>, host: string, negative: bool, at: int)
    requires Valid(current)
    requires PlanCarryover(current, currentConfig, candidate, now, carryNegative).Ok?
    requires forall i :: 0 <= i < |ops| ==> !Stores(ops[i], Lower(host), negative)
    ensures var plan := PlanCarryover(current, currentConfig, candidate, now, carryNegative).value;
      var later := RunFrom(ApplyPlan(EMPTY, plan, Limit(candidate)), ops, Limit(candidate));
      var mine := if negative then GetNegative(later, host, at).1 else GetPositive(later, host, at).1;
      var theirs := if negative then GetNegative(current, host, at).1 else GetPositive(current, host, at).1;
      mine.Some? ==>
        && theirs.Some? && theirs.value.data == mine.value.data && theirs.value.source == mine.value.source
        && mine.value.expiresAt <= theirs.value.expiresAt
        && !mine.value.sensitive && !mine.value.synthetic
  {
    hide PutAll, PlanCarryover, ApplyPlan, RunFrom;
    var plan := PlanCarryover(current, currentConfig, candidate, now, carryNegative).value;
    var built := ApplyPlan(EMPTY, plan, Limit(candidate));
    var key := Lower(host);
    EntryStaysOverRun(built, ops, Limit(candidate), key, negative);
    if key in MapOf(built, negative).vals {
      CarriedEntry(current, currentConfig, candidate, now, carryNegative, key, negative);
    }
  }

  /** What the candidate starts with for a host is a copy of what the old generation has. */
  lemma CarriedEntry(current: Cache, currentConfig: DnsConfig, candidate: DnsConfig, now: int, carryNegative: bool,
                     key: string, negative: bool)
    requires Valid(current)
    requires PlanCarryover(current, currentConfig, candidate, now, carryNegative).Ok?
    requires var plan := PlanCarryover(current, currentConfig, candidate, now, carryNegative).value;
      key in MapOf(ApplyPlan(EMPTY, plan, Limit(candidate)), negative).vals
    ensures var plan := PlanCarryover(current, currentConfig, candidate, now, carryNegative).value;
      var e, m := MapOf(ApplyPlan(EMPTY, plan, Limit(candidate)), negative).vals[key], MapOf(current, negative);
      && key in m.vals && Eligible(m.vals[key], now)
      && e == Carry(m.vals[key], now, if negative then NegativeTtl(candidate) else candidate.cacheTtlMs)
  {
    hide PutAll, PlanCarryover, ApplyPlan;
    var plan := PlanCarryover(current, currentConfig, candidate, now, carryNegative).value;
    FreshCandidateHoldsPlan(current, currentConfig, candidate, now, carryNegative);
    PlanCopies(current, currentConfig, candidate, now, carryNegative);
    var m := MapOf(ApplyPlan(EMPTY, plan, Limit(candidate)), negative);
    ValueListed(m, key);
    if negative {
      HostOf(m.vals[key], current.negative, plan.negativeEntries, now, NegativeTtl(candidate));
    } else {
      HostOf(m.vals[key], current.positive, plan.positiveEntries, now, candidate.cacheTtlMs);
    }
  }

  lemma ValueListed(m: EntryMap, key: string)
    requires FiledByHost(m) && key in m.vals
    ensures m.vals[key] in m.Values() && m.vals[key].host == key
  {
    assert key in m.keys;
    var i :| 0 <= i < |m.keys| && m.keys[i] == key;
    assert m.Values()[i] == m.vals[key];
  }
}
