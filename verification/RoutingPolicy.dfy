/** Policy selection (`src/router/policy.ts`). */
module RoutingPolicies {
  import opened Common
  import opened Turns

  datatype PolicyKind = Failover | LoadBalance

  datatype Strategy = RoundRobin | Random | LeastLatency

  datatype Policy = Policy(tag: string, kind: PolicyKind, strategy: Strategy, outbounds: seq<string>,
                           unhealthyAfterFailures: int, recoverAfterMs: int)

  datatype Health = Health(failures: nat, lastFailureAt: Option<int>, latencyEwmaMs: Option<real>, successes: nat)

  const UNSEEN := Health(0, None, None, 0)

  type Healths = map<string, Health>

  /** The health of an outbound, which starts out unseen (`getHealth`). */
  function HealthOf(health: Healths, tag: string): Health {
    if tag in health then health[tag] else UNSEEN
  }

  /** `isHealthy`, at the instant `now`. */
  predicate IsHealthy(health: Healths, policy: Policy, tag: string, now: int) {
    var h := HealthOf(health, tag);
    || h.failures < policy.unhealthyAfterFailures
    || h.lastFailureAt.None?
    || now - h.lastFailureAt.value >= policy.recoverAfterMs
  }

  // ---------------------------------------------------------------- the lists

  /** The healthy ones, in order. */
  function Healthy(health: Healths, policy: Policy, now: int, tags: seq<string>): (r: seq<string>)
    ensures |r| <= |tags|
  {
    if tags == [] then []
    else (if IsHealthy(health, policy, tags[0], now) then [tags[0]] else []) + Healthy(health, policy, now, tags[1..])
  }

  /** Those not in a list, in order. */
  function NotIn(tags: seq<string>, others: seq<string>): seq<string> {
    if tags == [] then []
    else (if tags[0] in others then [] else [tags[0]]) + NotIn(tags[1..], others)
  }

  function FailoverOrder(health: Healths, policy: Policy, now: int): seq<string> {
    var healthy := Healthy(health, policy, now, policy.outbounds);
    healthy + NotIn(policy.outbounds, healthy)
  }

  /** What a load balancer chooses from: the healthy ones if there are any. */
  function Pool(health: Healths, policy: Policy, now: int): seq<string> {
    var healthy := Healthy(health, policy, now, policy.outbounds);
    if |healthy| > 0 then healthy else policy.outbounds
  }

  /** The order when a given member of the pool goes first. */
  function OrderWith(policy: Policy, pool: seq<string>, first: string): seq<string> {
    [first] + NotIn(pool, [first]) + NotIn(policy.outbounds, pool)
  }

  /** Whether one outbound's average latency is below another's; an unmeasured one counts as infinite. */
  predicate Faster(health: Healths, a: string, b: string) {
    var x, y := HealthOf(health, a).latencyEwmaMs, HealthOf(health, b).latencyEwmaMs;
    x.Some? && (y.None? || x.value < y.value)
  }

  /** The head of the pool sorted by latency: sorting is stable, so the leftmost of the fastest. */
  function Fastest(health: Healths, pool: seq<string>): string
    requires pool != []
  {
    if |pool| == 1 then pool[0]
    else
      var rest := Fastest(health, pool[1..]);
      if Faster(health, rest, pool[0]) then rest else pool[0]
  }

  lemma PartOf(draw: real, x: real)
    requires 0.0 <= draw < 1.0 && 0.0 < x
    ensures 0.0 <= draw * x < x
  {
    assert (1.0 - draw) * x > 0.0;
  }

  /** `Math.floor(Math.random() * n)`. */
  function RandomIndex(draw: real, n: nat): (i: nat)
    requires 0.0 <= draw < 1.0 && n > 0
    ensures i < n && i as real <= draw * n as real < i as real + 1.0
  {
    PartOf(draw, n as real);
    Below(draw * n as real, n)
  }

  /** `Math.floor` */
  function Below(scaled: real, n: nat): (i: nat)
    requires 0.0 <= scaled < n as real
    ensures i < n && i as real <= scaled < i as real + 1.0
  {
    scaled.Floor
  }

  /** The whole manager as a value. */
  datatype Manager = Manager(policies: map<string, Policy>, health: Healths, turns: map<string, nat>) {
    /** Every policy is under its own tag. */
    ghost predicate Filed() {
      forall tag :: tag in policies ==> policies[tag].tag == tag
    }

    function Turn(tag: string): nat {
      if tag in turns then turns[tag] else 0
    }

    /** `pickLoadBalanceFirst`. */
    function First(policy: Policy, pool: seq<string>, draw: real): string
      requires pool != [] && 0.0 <= draw < 1.0
    {
      match policy.strategy
      case LeastLatency => Fastest(health, pool)
      case Random => pool[RandomIndex(draw, |pool|)]
      case RoundRobin => pool[Turn(policy.tag) % |pool|]
    }

    function Candidates(tag: string, now: int, draw: real): seq<string>
      requires 0.0 <= draw < 1.0
    {
      if tag !in policies then [tag]
      else
        var policy := policies[tag];
        if policy.kind == Failover then FailoverOrder(health, policy, now)
        else
          var pool := Pool(health, policy, now);
          if pool == [] then [] else OrderWith(policy, pool, First(policy, pool, draw))
    }

    /** Selecting moves the turn of a round-robin policy on, and nothing else. */
    function AfterSelect(tag: string): Manager {
      if tag in policies && policies[tag].kind == LoadBalance && policies[tag].strategy == RoundRobin
         && policies[tag].outbounds != []
      then this.(turns := turns[policies[tag].tag := Turn(policies[tag].tag) + 1])
      else this
    }

    function AfterSuccess(tag: string, latencyMs: real): Manager {
      var h := HealthOf(health, tag);
      this.(health := health[tag := Health(0, None, Some(Average(h.latencyEwmaMs, latencyMs)), h.successes + 1)])
    }

    function AfterFailure(tag: string, now: int): Manager {
      var h := HealthOf(health, tag);
      this.(health := health[tag := h.(failures := h.failures + 1, lastFailureAt := Some(now))])
    }
  }

  /** The exponentially weighted average. */
  function Average(before: Option<real>, latencyMs: real): real {
    if before.None? then latencyMs else before.value * 0.8 + latencyMs * 0.2
  }

  /** `new Map(policies.map(...))`: of two policies with one tag the later stays. */
  function ByTag(list: seq<Policy>): map<string, Policy> {
    if list == [] then map[]
    else
      var last := list[|list| - 1];
      ByTag(list[..|list| - 1])[last.tag := last]
  }

  lemma {:induction false} TaggedLast(list: seq<Policy>, tag: string) returns (i: nat)
    requires tag in ByTag(list)
    ensures i < |list| && list[i].tag == tag && ByTag(list)[tag] == list[i]
    ensures forall j :: i < j < |list| ==> list[j].tag != tag
  {
    var n := |list| - 1;
    if list[n].tag == tag {
      return n;
    }
    i := TaggedLast(list[..n], tag);
  }

  /** Every tag of the list has a policy, and it is the last one with that tag. */
  lemma {:induction false} LaterPolicyStays(list: seq<Policy>, i: nat)
    requires i < |list|
    ensures list[i].tag in ByTag(list)
    ensures ByTag(list)[list[i].tag] == list[i] || exists j :: i < j < |list| && list[j].tag == list[i].tag
  {
    var n := |list| - 1;
    if i < n {
      LaterPolicyStays(list[..n], i);
      assert list[..n][i] == list[i];
      if list[n].tag != list[i].tag && ByTag(list[..n])[list[i].tag] != list[i] {
        var j :| i < j < n && list[..n][j].tag == list[i].tag;
        assert list[j].tag == list[i].tag;
      }
    }
  }

  class RoutingPolicyManager {
    var policies: map<string, Policy>
    var health: Healths
    var roundRobinIndex: map<string, nat>

    function State(): Manager
      reads this
    {
      Manager(policies, health, roundRobinIndex)
    }

    /** Every policy is filed under its tag, and every outbound of a policy has a health record. */
    ghost predicate Valid()
      reads this
    {
      && State().Filed()
      && (forall tag, o :: tag in policies && o in policies[tag].outbounds ==> o in health)
    }

    constructor (list: seq<Policy>, initialHealth: Healths)
      ensures Valid() && policies == ByTag(list) && roundRobinIndex == map[]
      ensures forall t :: HealthOf(health, t) == HealthOf(initialHealth, t)
    {
      policies, health, roundRobinIndex := map[], initialHealth, map[];
      new;
      Reload(list);
    }

    /** A reload replaces the policies and keeps every health record and every turn. */
    method Reload(list: seq<Policy>)
      modifies `policies, `health
      ensures Valid() && policies == ByTag(list)
      ensures forall t :: HealthOf(health, t) == HealthOf(old(health), t)
    {
      policies := ByTag(list);
      for i := 0 to |list|
        invariant policies == ByTag(list)
        invariant forall k, o :: 0 <= k < i && o in list[k].outbounds ==> o in health
        invariant forall t :: HealthOf(health, t) == HealthOf(old(health), t)
      {
        AddHealth(list[i].outbounds);
      }
      forall tag | tag in policies ensures policies[tag].tag == tag && policies[tag] in list {
        var _ := TaggedLast(list, tag);
      }
    }

    /** `getHealth` for each of these: one without a record gets an unseen one. */
    method AddHealth(outbounds: seq<string>)
      modifies `health
      ensures forall o :: o in outbounds ==> o in health
      ensures old(health.Keys) <= health.Keys
      ensures forall t :: HealthOf(health, t) == HealthOf(old(health), t)
    {
      for k := 0 to |outbounds|
        invariant forall o :: o in outbounds[..k] ==> o in health
        invariant old(health.Keys) <= health.Keys
        invariant forall t :: HealthOf(health, t) == HealthOf(old(health), t)
      {
        if outbounds[k] !in health {
          health := health[outbounds[k] := UNSEEN];
        }
      }
    }

    /** `select`: the candidates, and the turn of a round-robin policy moved on. */
    method Select(tag: string, now: int, draw: real) returns (candidates: seq<string>)
      requires Valid() && 0.0 <= draw < 1.0
      modifies `roundRobinIndex
      ensures Valid() && State() == old(State()).AfterSelect(tag)
      ensures candidates == old(State()).Candidates(tag, now, draw)
    {
      if tag !in policies {
        return [tag];
      }
      var policy := policies[tag];
      if policy.kind == Failover {
        var healthy := Healthy(health, policy, now, policy.outbounds);
        var unhealthy := NotIn(policy.outbounds, healthy);
        return healthy + unhealthy;
      }
      var healthy := Healthy(health, policy, now, policy.outbounds);
      var pool := if |healthy| > 0 then healthy else policy.outbounds;
      if pool == [] {
        return [];
      }
      var first := PickLoadBalanceFirst(policy, pool, draw);
      return [first] + NotIn(pool, [first]) + NotIn(policy.outbounds, pool);
    }

    method PickLoadBalanceFirst(policy: Policy, pool: seq<string>, draw: real) returns (first: string)
      requires pool != [] && 0.0 <= draw < 1.0
      modifies `roundRobinIndex
      ensures first == old(State()).First(policy, pool, draw)
      ensures roundRobinIndex ==
        if policy.strategy == RoundRobin then old(roundRobinIndex)[policy.tag := old(State()).Turn(policy.tag) + 1]
        else old(roundRobinIndex)
    {
      if policy.strategy == LeastLatency {
        return Fastest(health, pool);
      }
      if policy.strategy == Random {
        return pool[RandomIndex(draw, |pool|)];
      }
      var current := if policy.tag in roundRobinIndex then roundRobinIndex[policy.tag] else 0;
      roundRobinIndex := roundRobinIndex[policy.tag := current + 1];
      return pool[current % |pool|];
    }

    method RecordSuccess(tag: string, latencyMs: real)
      requires Valid()
      modifies `health
      ensures Valid() && State() == old(State()).AfterSuccess(tag, latencyMs)
    {
      var h := HealthOf(health, tag);
      var average := if h.latencyEwmaMs.None? then latencyMs else h.latencyEwmaMs.value * 0.8 + latencyMs * 0.2;
      health := health[tag := Health(0, None, Some(average), h.successes + 1)];
    }

    /** What others ask of the manager and report to it, one after another. */
    method Hear(events: seq<Event>)
      requires Valid() && Drawn(events)
      modifies `health, `roundRobinIndex
      ensures Valid() && State() == RunAll(old(State()), events)
    {
      ghost var m := State();
      for i := 0 to |events|
        invariant Valid() && State() == RunAll(m, events[..i])
      {
        OneMoreEvent(m, events[..i], events[i]);
        assert events[..i] + [events[i]] == events[..i + 1];
        match events[i] {
          case Select(tag, now, draw) => var _ := Select(tag, now, draw);
          case Success(tag, latencyMs) => RecordSuccess(tag, latencyMs);
          case Failure(tag, now) => RecordFailure(tag, now);
        }
      }
      assert events[..|events|] == events;
    }

    method RecordFailure(tag: string, now: int)
      requires Valid()
      modifies `health
      ensures Valid() && State() == old(State()).AfterFailure(tag, now)
    {
      var h := HealthOf(health, tag);
      health := health[tag := h.(failures := h.failures + 1, lastFailureAt := Some(now))];
    }
  }

  // ------------------------------------------------------------------ events

  datatype Event =
    | Select(tag: string, now: int, draw: real)
    | Success(tag: string, latencyMs: real)
    | Failure(tag: string, now: int)

  function Next(m: Manager, e: Event): Manager {
    match e
    case Select(tag, _, _) => m.AfterSelect(tag)
    case Success(tag, latencyMs) => m.AfterSuccess(tag, latencyMs)
    case Failure(tag, now) => m.AfterFailure(tag, now)
  }

  function RunAll(m: Manager, events: seq<Event>): Manager
    decreases |events|
  {
    if events == [] then m else RunAll(Next(m, events[0]), events[1..])
  }

  /** Every random draw is what `Math.random` promises. */
  ghost predicate Drawn(events: seq<Event>) {
    forall i :: 0 <= i < |events| ==> events[i].Select? ==> 0.0 <= events[i].draw < 1.0
  }

  lemma {:induction false} RunAppend(m: Manager, a: seq<Event>, b: seq<Event>)
    ensures RunAll(m, a + b) == RunAll(RunAll(m, a), b)
    decreases |a|
  {
    if a == [] {
      assert a + b == b;
    } else {
      assert (a + b)[1..] == a[1..] + b && (a + b)[0] == a[0];
      RunAppend(Next(m, a[0]), a[1..], b);
    }
  }

  lemma OneMoreEvent(m: Manager, events: seq<Event>, e: Event)
    ensures RunAll(m, events + [e]) == Next(RunAll(m, events), e)
  {
    RunAppend(m, events, [e]);
    assert [e][1..] == [];
  }

  /** Whether an event writes the health record of an outbound. */
  predicate Judges(e: Event, tag: string) {
    !e.Select? && e.tag == tag
  }

  lemma {:induction false} SilentKeeps(m: Manager, events: seq<Event>, tag: string)
    requires forall i :: 0 <= i < |events| ==> !Judges(events[i], tag)
    ensures HealthOf(RunAll(m, events).health, tag) == HealthOf(m.health, tag)
    decreases |events|
  {
    if events != [] {
      SilentKeeps(Next(m, events[0]), events[1..], tag);
    }
  }

  // ----------------------------------------------------------- the orderings

  lemma {:induction false} HealthySplit(health: Healths, policy: Policy, now: int, tags: seq<string>)
    ensures forall t :: t in Healthy(health, policy, now, tags) <==> t in tags && IsHealthy(health, policy, t, now)
    ensures forall t ::
      multiset(Healthy(health, policy, now, tags))[t] ==
      (if IsHealthy(health, policy, t, now) then multiset(tags)[t] else 0)
  {
    if tags != [] {
      HealthySplit(health, policy, now, tags[1..]);
      assert tags == [tags[0]] + tags[1..];
    }
  }

  lemma {:induction false} NotInSplit(tags: seq<string>, others: seq<string>)
    ensures forall t :: t in NotIn(tags, others) <==> t in tags && t !in others
    ensures forall t :: multiset(NotIn(tags, others))[t] == if t in others then 0 else multiset(tags)[t]
  {
    if tags != [] {
      NotInSplit(tags[1..], others);
      assert tags == [tags[0]] + tags[1..];
    }
  }

  /** No healthy outbound stands behind an unhealthy one. */
  ghost predicate HealthyFirst(order: seq<string>, health: Healths, policy: Policy, now: int) {
    forall i, j :: 0 <= i < j < |order| && IsHealthy(health, policy, order[j], now) ==>
      IsHealthy(health, policy, order[i], now)
  }

  /** Main result on failover: the outbounds in another order, healthy ones first. */
  lemma FailoverIsPermutation(health: Healths, policy: Policy, now: int)
    ensures multiset(FailoverOrder(health, policy, now)) == multiset(policy.outbounds)
    ensures HealthyFirst(FailoverOrder(health, policy, now), health, policy, now)
  {
    hide NotIn, Healthy;
    var healthy := Healthy(health, policy, now, policy.outbounds);
    var unhealthy := NotIn(policy.outbounds, healthy);
    HealthySplit(health, policy, now, policy.outbounds);
    NotInSplit(policy.outbounds, healthy);
    forall j | 0 <= j < |unhealthy| ensures !IsHealthy(health, policy, unhealthy[j], now) {
      assert unhealthy[j] in unhealthy;
    }
    forall i | 0 <= i < |healthy| ensures IsHealthy(health, policy, healthy[i], now) {
      assert healthy[i] in healthy;
    }
  }

  /** Main result on load balancing: whichever member of the pool goes first, every outbound is a candidate, exactly as
      often as it is listed, but for the first, which is a candidate once; and healthy ones come first. */
  lemma LoadBalanceIsPermutation(health: Healths, policy: Policy, now: int, first: string)
    requires first in Pool(health, policy, now)
    ensures var order := OrderWith(policy, Pool(health, policy, now), first);
      && order[0] == first
      && multiset(order) == multiset(policy.outbounds)[first := 1]
      && HealthyFirst(order, health, policy, now)
  {
    var pool := Pool(health, policy, now);
    PoolCounts(health, policy, now, pool);
    OrderCounts(policy.outbounds, pool, first);
    var rest, others := NotIn(pool, [first]), NotIn(policy.outbounds, pool);
    forall t | t in rest ensures t in pool {
      NotInSplit(pool, [first]);
    }
    forall t | t in others ensures !IsHealthy(health, policy, t, now) {
      NotInSplit(policy.outbounds, pool);
    }
    AllOrNone(health, policy, now, [first] + rest, others);
  }

  lemma PoolCounts(health: Healths, policy: Policy, now: int, pool: seq<string>)
    requires pool == Pool(health, policy, now)
    ensures forall t :: t in pool ==> multiset(pool)[t] == multiset(policy.outbounds)[t]
    ensures forall t :: t in policy.outbounds && t !in pool ==> !IsHealthy(health, policy, t, now)
  {
    HealthySplit(health, policy, now, policy.outbounds);
  }

  /** A pool is all healthy, or everything and nothing healthy. */
  lemma AllOrNone(health: Healths, policy: Policy, now: int, front: seq<string>, others: seq<string>)
    requires forall t :: t in front ==> t in Pool(health, policy, now)
    requires forall t :: t in others ==> !IsHealthy(health, policy, t, now)
    ensures HealthyFirst(front + others, health, policy, now)
  {
    HealthySplit(health, policy, now, policy.outbounds);
    var order := front + others;
    assert forall i :: |front| <= i < |order| ==> order[i] in others;
    assert forall i :: 0 <= i < |front| ==> order[i] in front;
  }

  lemma OrderCounts(outbounds: seq<string>, pool: seq<string>, first: string)
    requires first in pool
    requires forall t :: t in pool ==> multiset(pool)[t] == multiset(outbounds)[t]
    ensures multiset([first] + NotIn(pool, [first]) + NotIn(outbounds, pool)) == multiset(outbounds)[first := 1]
  {
    NotInSplit(pool, [first]);
    NotInSplit(outbounds, pool);
    var rest, others := NotIn(pool, [first]), NotIn(outbounds, pool);
    forall t ensures multiset([first] + rest + others)[t] == multiset(outbounds)[first := 1][t] {
      assert multiset([first])[t] == if t == first then 1 else 0;
      assert t !in pool ==> multiset(pool)[t] == 0;
    }
  }

  /** What goes first is in the pool. */
  lemma FirstIsInPool(m: Manager, policy: Policy, pool: seq<string>, draw: real)
    requires pool != [] && 0.0 <= draw < 1.0
    ensures m.First(policy, pool, draw) in pool
  {
    if policy.strategy == LeastLatency {
      var _ := FastestIsLeftmostMinimum(m.health, pool);
    }
  }

  /** The least-latency choice: none is faster, and it is the leftmost of those. */
  lemma {:induction false} FastestIsLeftmostMinimum(health: Healths, pool: seq<string>) returns (k: nat)
    requires pool != []
    ensures k < |pool| && pool[k] == Fastest(health, pool)
    ensures forall i :: 0 <= i < |pool| ==> !Faster(health, pool[i], pool[k])
    ensures forall i :: 0 <= i < k ==> Faster(health, pool[k], pool[i])
  {
    if |pool| == 1 {
      return 0;
    }
    var rest := pool[1..];
    var j := FastestIsLeftmostMinimum(health, rest);
    assert forall i :: 1 <= i < |pool| ==> pool[i] == rest[i - 1];
    if Faster(health, rest[j], pool[0]) {
      return j + 1;
    }
    return 0;
  }

  /** Main result on `select`: for a policy whose outbounds are distinct, a permutation of them; healthy ones first. */
  lemma SelectIsPermutation(m: Manager, tag: string, now: int, draw: real)
    requires 0.0 <= draw < 1.0 && tag in m.policies && Distinct(m.policies[tag].outbounds)
    ensures multiset(m.Candidates(tag, now, draw)) == multiset(m.policies[tag].outbounds)
    ensures HealthyFirst(m.Candidates(tag, now, draw), m.health, m.policies[tag], now)
    ensures Distinct(m.Candidates(tag, now, draw))
  {
    var policy := m.policies[tag];
    if policy.kind == Failover {
      FailoverIsPermutation(m.health, policy, now);
    } else {
      BalancedSelect(m, policy, now, draw);
    }
    DistinctByCount(policy.outbounds, m.Candidates(tag, now, draw));
  }

  lemma BalancedSelect(m: Manager, policy: Policy, now: int, draw: real)
    requires 0.0 <= draw < 1.0 && Distinct(policy.outbounds)
    ensures var pool := Pool(m.health, policy, now);
      if pool == [] then policy.outbounds == [] else
        var order := OrderWith(policy, pool, m.First(policy, pool, draw));
        multiset(order) == multiset(policy.outbounds) && HealthyFirst(order, m.health, policy, now)
  {
    var pool := Pool(m.health, policy, now);
    if pool != [] {
      FirstIsInPool(m, policy, pool, draw);
      var first := m.First(policy, pool, draw);
      LoadBalanceIsPermutation(m.health, policy, now, first);
      PoolCounts(m.health, policy, now, pool);
      OnceEach(policy.outbounds);
      assert multiset(pool)[first] > 0;
    }
  }

  lemma {:induction false} OnceEach(s: seq<string>)
    requires Distinct(s)
    ensures forall t :: t in s ==> multiset(s)[t] == 1
  {
    if s != [] {
      OnceEach(s[1..]);
      assert s == [s[0]] + s[1..];
    }
  }

  lemma {:induction false} NoRepeat(s: seq<string>)
    requires forall t :: multiset(s)[t] <= 1
    ensures Distinct(s)
  {
    if s != [] {
      var later := s[1..];
      assert s == [s[0]] + later;
      forall t ensures multiset(later)[t] <= 1 {
        assert multiset(s)[t] == multiset([s[0]])[t] + multiset(later)[t];
      }
      NoRepeat(later);
      assert multiset(s)[s[0]] == 1 + multiset(later)[s[0]];
      assert s[0] !in later;
    }
  }

  lemma DistinctByCount(s: seq<string>, t: seq<string>)
    requires Distinct(s) && multiset(t) == multiset(s)
    ensures Distinct(t)
  {
    OnceEach(s);
    forall x ensures multiset(t)[x] <= 1 {
      assert x !in s ==> multiset(s)[x] == 0;
    }
    NoRepeat(t);
  }

  // ------------------------------------------------------- who stands where

  /** The healthy ones, from left to right. */
  lemma {:induction false} HealthyAt(health: Healths, policy: Policy, now: int, tags: seq<string>)
    returns (at: seq<nat>)
    ensures Picks(tags, at, Healthy(health, policy, now, tags)) && Rising(at)
    ensures forall k: nat :: k < |tags| ==> (k in at <==> IsHealthy(health, policy, tags[k], now))
  {
    if tags == [] {
      return [];
    }
    at := HealthyAt(health, policy, now, tags[1..]);
    at := OneEarlier(tags, at, Healthy(health, policy, now, tags[1..]), IsHealthy(health, policy, tags[0], now));
  }

  lemma {:induction false} NotInAt(tags: seq<string>, others: seq<string>) returns (at: seq<nat>)
    ensures Picks(tags, at, NotIn(tags, others)) && Rising(at)
    ensures forall k: nat :: k < |tags| ==> (k in at <==> tags[k] !in others)
  {
    if tags == [] {
      return [];
    }
    at := NotInAt(tags[1..], others);
    at := OneEarlier(tags, at, NotIn(tags[1..], others), tags[0] !in others);
  }

  /** The healthy ones but for one. */
  lemma {:induction false} HealthyOthersAt(health: Healths, policy: Policy, now: int, tags: seq<string>, first: string)
    returns (at: seq<nat>)
    ensures Picks(tags, at, NotIn(Healthy(health, policy, now, tags), [first])) && Rising(at)
    ensures forall k: nat :: k < |tags| ==> (k in at <==> IsHealthy(health, policy, tags[k], now) && tags[k] != first)
  {
    if tags == [] {
      return [];
    }
    var later := Healthy(health, policy, now, tags[1..]);
    var here := IsHealthy(health, policy, tags[0], now);
    at := HealthyOthersAt(health, policy, now, tags[1..], first);
    if here {
      assert ([tags[0]] + later)[1..] == later;
    } else {
      assert [] + later == later;
    }
    at := OneEarlier(tags, at, NotIn(later, [first]), here && tags[0] != first);
  }

  /** The places of an order: all of them but those left out, the healthy ones before the others, and both from left to
      right. */
  ghost predicate Ordered(health: Healths, policy: Policy, now: int, at: seq<nat>) {
    && (forall i :: 0 <= i < |at| ==> at[i] < |policy.outbounds|)
    && forall i, j :: 0 <= i < j < |at| ==>
         var a, b := policy.outbounds[at[i]], policy.outbounds[at[j]];
         if IsHealthy(health, policy, a, now) == IsHealthy(health, policy, b, now) then at[i] < at[j]
         else IsHealthy(health, policy, a, now)
  }

  lemma JoinOrdered(health: Healths, policy: Policy, now: int, a: seq<nat>, b: seq<nat>)
    requires Rising(a) && Rising(b)
    requires forall i :: 0 <= i < |a| ==> a[i] < |policy.outbounds|
    requires forall i :: 0 <= i < |b| ==> b[i] < |policy.outbounds|
    requires (forall k :: k in a ==> IsHealthy(health, policy, policy.outbounds[k], now)) || b == []
    requires forall k :: k in b ==> !IsHealthy(health, policy, policy.outbounds[k], now)
    requires b == [] ==> forall k, l :: k in a && l in a ==>
      IsHealthy(health, policy, policy.outbounds[k], now) == IsHealthy(health, policy, policy.outbounds[l], now)
    ensures Ordered(health, policy, now, a + b)
  {
    var at := a + b;
    forall i, j | 0 <= i < j < |at|
      ensures var x, y := policy.outbounds[at[i]], policy.outbounds[at[j]];
        if IsHealthy(health, policy, x, now) == IsHealthy(health, policy, y, now) then at[i] < at[j]
        else IsHealthy(health, policy, x, now)
    {
      assert i < |a| ==> at[i] in a;
      assert j < |a| ==> at[j] in a;
      assert i >= |a| ==> at[i] in b;
      assert j >= |a| ==> at[j] in b;
    }
  }

  /** Main result on the order of failover: every place of the list once, healthy ones first, both kinds in the order in
      which they are listed. */
  lemma FailoverKeepsOrder(health: Healths, policy: Policy, now: int) returns (at: seq<nat>)
    ensures Picks(policy.outbounds, at, FailoverOrder(health, policy, now))
    ensures Ordered(health, policy, now, at)
    ensures forall k: nat :: k < |policy.outbounds| ==> k in at
  {
    hide Healthy, NotIn, IsHealthy;
    var healthy := Healthy(health, policy, now, policy.outbounds);
    var a := HealthyAt(health, policy, now, policy.outbounds);
    var b := NotInAt(policy.outbounds, healthy);
    HealthySplit(health, policy, now, policy.outbounds);
    assert forall k: nat :: k < |policy.outbounds| ==> policy.outbounds[k] in policy.outbounds;
    at := a + b;
    PicksAppend(policy.outbounds, a, healthy, b, NotIn(policy.outbounds, healthy));
    JoinOrdered(health, policy, now, a, b);
  }

  /** The places of the rest of the pool, and of those outside it. */
  lemma RestAt(health: Healths, policy: Policy, now: int, pool: seq<string>, first: string)
    returns (a: seq<nat>, b: seq<nat>)
    requires pool == Pool(health, policy, now) && first in pool
    ensures Picks(policy.outbounds, a, NotIn(pool, [first])) && Rising(a)
    ensures Picks(policy.outbounds, b, NotIn(policy.outbounds, pool)) && Rising(b)
    ensures forall k: nat :: k < |policy.outbounds| ==>
      var x := policy.outbounds[k];
      (k in a <==> x in pool && x != first) && (k in b <==> x !in pool)
  {
    hide Healthy, NotIn, IsHealthy;
    HealthySplit(health, policy, now, policy.outbounds);
    assert forall k: nat :: k < |policy.outbounds| ==> policy.outbounds[k] in policy.outbounds;
    b := NotInAt(policy.outbounds, pool);
    if |Healthy(health, policy, now, policy.outbounds)| > 0 {
      a := HealthyOthersAt(health, policy, now, policy.outbounds, first);
    } else {
      a := NotInAt(policy.outbounds, [first]);
    }
  }

  /** The places behind the first of a load balancer: all that are not the first outbound's, in the same order. */
  lemma LoadBalanceKeepsOrder(health: Healths, policy: Policy, now: int, first: string) returns (at: seq<nat>)
    requires first in Pool(health, policy, now)
    ensures Picks(policy.outbounds, at, OrderWith(policy, Pool(health, policy, now), first)[1..])
    ensures Ordered(health, policy, now, at)
    ensures forall k: nat :: k < |policy.outbounds| ==> (k in at <==> policy.outbounds[k] != first)
  {
    hide Healthy, NotIn, IsHealthy, Pool, Rising, Picks;
    var pool := Pool(health, policy, now);
    var rest, others := NotIn(pool, [first]), NotIn(policy.outbounds, pool);
    var a, b := RestAt(health, policy, now, pool, first);
    at := a + b;
    assert OrderWith(policy, pool, first)[1..] == rest + others;
    PicksAppend(policy.outbounds, a, rest, b, others);
    PlacesInside(policy.outbounds, a, rest);
    PlacesInside(policy.outbounds, b, others);
    PoolIsEven(health, policy, now, pool);
    assert forall k :: k in a ==> policy.outbounds[k] in pool;
    assert forall k :: k in b ==> policy.outbounds[k] !in pool;
    if forall x :: x in pool ==> !IsHealthy(health, policy, x, now) {
      NotInAll(policy.outbounds, pool);
    }
    JoinOrdered(health, policy, now, a, b);
  }

  lemma {:induction false} NotInAll(tags: seq<string>, others: seq<string>)
    requires forall t :: t in tags ==> t in others
    ensures NotIn(tags, others) == []
  {
    if tags != [] {
      NotInAll(tags[1..], others);
    }
  }

  lemma PlacesInside(tags: seq<string>, at: seq<nat>, r: seq<string>)
    requires Picks(tags, at, r)
    ensures |at| == |r| && forall k :: k in at ==> k < |tags|
    ensures forall i :: 0 <= i < |at| ==> at[i] < |tags|
  {
  }

  /** A pool is all healthy, or all unhealthy and everything there is. */
  lemma PoolIsEven(health: Healths, policy: Policy, now: int, pool: seq<string>)
    requires pool == Pool(health, policy, now)
    ensures forall x :: x in policy.outbounds && x !in pool ==> !IsHealthy(health, policy, x, now)
    ensures (forall x :: x in pool ==> IsHealthy(health, policy, x, now))
         || ((forall x :: x in pool ==> !IsHealthy(health, policy, x, now)) && pool == policy.outbounds)
  {
    HealthySplit(health, policy, now, policy.outbounds);
  }

  /** Who goes first in a load balancer, by its place in the pool: at random each place for its share of the draws, the
      leftmost of those with the least latency, unmeasured ones last, or the next in turn. A tag without a policy stands
      for itself. */
  lemma GoesFirst(m: Manager, tag: string, now: int, draw: real) returns (k: nat)
    requires 0.0 <= draw < 1.0
    ensures tag !in m.policies ==> m.Candidates(tag, now, draw) == [tag]
    ensures tag in m.policies && m.policies[tag].kind == LoadBalance && m.policies[tag].outbounds != [] ==>
      var policy := m.policies[tag];
      var pool := Pool(m.health, policy, now);
      && k < |pool| && m.Candidates(tag, now, draw) != [] && m.Candidates(tag, now, draw)[0] == pool[k]
      && (policy.strategy == Random ==> k as real <= draw * |pool| as real < k as real + 1.0)
      && (policy.strategy == LeastLatency ==> LeastAt(m.health, pool, k))
      && (policy.strategy == RoundRobin ==>
            k == (if policy.tag in m.turns then m.turns[policy.tag] else 0) % |pool|)
  {
    hide *;
    k := 0;
    OrderFollows(m, tag, now, draw);
    if tag in m.policies && m.policies[tag].kind == LoadBalance && m.policies[tag].outbounds != [] {
      k := Choice(m, m.policies[tag], Pool(m.health, m.policies[tag], now), draw);
    }
  }

  lemma OrderFollows(m: Manager, tag: string, now: int, draw: real)
    requires 0.0 <= draw < 1.0
    ensures tag !in m.policies ==> m.Candidates(tag, now, draw) == [tag]
    ensures tag in m.policies && m.policies[tag].kind == LoadBalance && m.policies[tag].outbounds != [] ==>
      var pool, order := Pool(m.health, m.policies[tag], now), m.Candidates(tag, now, draw);
      pool != [] && order != [] && order[0] == m.First(m.policies[tag], pool, draw)
  {
    hide Healthy, NotIn, Manager.First;
  }

  /** The place in the pool of the one chosen. */
  lemma Choice(m: Manager, policy: Policy, pool: seq<string>, draw: real) returns (k: nat)
    requires pool != [] && 0.0 <= draw < 1.0
    ensures k < |pool| && m.First(policy, pool, draw) == pool[k]
    ensures policy.strategy == Random ==> k as real <= draw * |pool| as real < k as real + 1.0
    ensures policy.strategy == LeastLatency ==> LeastAt(m.health, pool, k)
    ensures policy.strategy == RoundRobin ==>
      k == (if policy.tag in m.turns then m.turns[policy.tag] else 0) % |pool|
  {
    match policy.strategy
    case LeastLatency => k := FastestIsLeftmostMinimum(m.health, pool);
    case Random => k := RandomIndex(draw, |pool|);
    case RoundRobin => k := m.Turn(policy.tag) % |pool|;
  }

  /** Nothing in the pool has a lower average, nothing before this place one as low, and none is measured if this one is
      not. */
  ghost predicate LeastAt(health: Healths, pool: seq<string>, k: nat)
    requires k < |pool|
  {
    var least := HealthOf(health, pool[k]).latencyEwmaMs;
    forall i {:trigger pool[i]} :: 0 <= i < |pool| ==>
      match HealthOf(health, pool[i]).latencyEwmaMs
      case None => i < k ==> least.Some?
      case Some(other) => least.Some? && least.value <= other && (i < k ==> least.value < other)
  }

  // ---------------------------------------------------------------- whole runs

  /** How often selecting a policy puts an outbound first, over a run. */
  ghost function TimesFirst(m: Manager, events: seq<Event>, tag: string, x: string): nat
    requires Drawn(events)
    decreases |events|
  {
    if events == [] then 0
    else
      var e := events[0];
      var order := if e.Select? && e.tag == tag then m.Candidates(tag, e.now, e.draw) else [];
      (if order != [] && order[0] == x then 1 else 0) + TimesFirst(Next(m, e), events[1..], tag, x)
  }

  function TimesSelected(events: seq<Event>, tag: string): nat
    decreases |events|
  {
    if events == [] then 0
    else (if events[0].Select? && events[0].tag == tag then 1 else 0) + TimesSelected(events[1..], tag)
  }

  /** The pool of a policy is the same at each of its selections. */
  ghost predicate Steady(m: Manager, events: seq<Event>, policy: Policy, pool: seq<string>)
    decreases |events|
  {
    events == [] ||
    (&& (events[0].Select? && events[0].tag == policy.tag ==> Pool(m.health, policy, events[0].now) == pool)
     && Steady(Next(m, events[0]), events[1..], policy, pool))
  }

  lemma {:induction false} FirstsFollowTurns(m: Manager, events: seq<Event>, policy: Policy, pool: seq<string>, i: nat)
    requires Drawn(events)
    requires policy.tag in m.policies && m.policies[policy.tag] == policy
    requires policy.kind == LoadBalance && policy.strategy == RoundRobin
    requires Steady(m, events, policy, pool) && Distinct(pool) && i < |pool| && policy.outbounds != []
    requires m.Filed()
    ensures TimesFirst(m, events, policy.tag, pool[i]) ==
      Falls(m.Turn(policy.tag), TimesSelected(events, policy.tag), |pool|, i)
    decreases |events|
  {
    hide Next, Pool, Manager.Filed, Manager.Candidates;
    if events != [] {
      var e, later := events[0], Next(m, events[0]);
      TurnMoves(m, e, policy);
      FirstsFollowTurns(later, events[1..], policy, pool, i);
      if e.Select? && e.tag == policy.tag {
        FirstIsTurn(m, policy, pool, e.now, e.draw, i);
      }
    }
  }

  lemma TurnMoves(m: Manager, e: Event, policy: Policy)
    requires policy.tag in m.policies && m.policies[policy.tag] == policy && m.Filed()
    requires policy.kind == LoadBalance && policy.strategy == RoundRobin && policy.outbounds != []
    ensures var later := Next(m, e);
      && later.policies == m.policies && later.Filed()
      && later.Turn(policy.tag) == m.Turn(policy.tag) + if e.Select? && e.tag == policy.tag then 1 else 0
  {
  }

  lemma FirstIsTurn(m: Manager, policy: Policy, pool: seq<string>, now: int, draw: real, i: nat)
    requires policy.tag in m.policies && m.policies[policy.tag] == policy && 0.0 <= draw < 1.0
    requires policy.kind == LoadBalance && policy.strategy == RoundRobin
    requires Pool(m.health, policy, now) == pool && Distinct(pool) && i < |pool|
    ensures var order := m.Candidates(policy.tag, now, draw);
      order != [] && (order[0] == pool[i] <==> m.Turn(policy.tag) % |pool| == i)
  {
  }

  /** Main result on round robin: over any run in which the pool of a policy is the same `n` distinct outbounds at each
      of its `k` selections, whatever other policies are asked and whatever successes and failures are recorded in
      between, each of them goes first `k / n` times, rounded down or up. */
  lemma RoundRobinIsFair(m: Manager, events: seq<Event>, policy: Policy, pool: seq<string>, x: string)
    requires Drawn(events)
    requires policy.tag in m.policies && m.policies[policy.tag] == policy
    requires policy.kind == LoadBalance && policy.strategy == RoundRobin
    requires Steady(m, events, policy, pool) && Distinct(pool) && x in pool && policy.outbounds != []
    requires m.Filed()
    ensures var k, n := TimesSelected(events, policy.tag), |pool|;
      k / n <= TimesFirst(m, events, policy.tag, x) <= (k + n - 1) / n
  {
    hide TimesFirst, TimesSelected, Steady;
    var i :| 0 <= i < |pool| && pool[i] == x;
    FirstsFollowTurns(m, events, policy, pool, i);
    FallsAreEven(m.Turn(policy.tag), TimesSelected(events, policy.tag), |pool|, i);
  }

  /** Main result on the average: it never leaves the range of the latencies recorded. */
  lemma {:induction false} AverageStaysInRange(m: Manager, events: seq<Event>, tag: string, low: real, high: real)
    requires forall e :: e in events && e.Success? && e.tag == tag ==> low <= e.latencyMs <= high
    requires InRange(m, tag, low, high)
    ensures InRange(RunAll(m, events), tag, low, high)
    decreases |events|
  {
    if events != [] {
      assert events[0] in events;
      AverageStaysInRange(Next(m, events[0]), events[1..], tag, low, high);
    }
  }

  ghost predicate InRange(m: Manager, tag: string, low: real, high: real) {
    var average := HealthOf(m.health, tag).latencyEwmaMs;
    average.Some? ==> low <= average.value <= high
  }

  /** The latencies recorded for an outbound, in order. */
  function Latencies(events: seq<Event>, tag: string): seq<real> {
    if events == [] then []
    else
      var earlier, e := Latencies(events[..|events| - 1], tag), events[|events| - 1];
      if e.Success? && e.tag == tag then earlier + [e.latencyMs] else earlier
  }

  /** The first of them, and then four parts of what there was to one part of each new one. */
  function Smoothed(before: Option<real>, latencies: seq<real>): Option<real> {
    if latencies == [] then before
    else
      var last := latencies[|latencies| - 1];
      match Smoothed(before, latencies[..|latencies| - 1])
      case None => Some(last)
      case Some(average) => Some((4.0 * average + last) / 5.0)
  }

  /** The latency average is the history of its outbound, and successes are counted. */
  lemma {:induction false} LatencyIsHistory(m: Manager, events: seq<Event>, tag: string)
    ensures var h0, h := HealthOf(m.health, tag), HealthOf(RunAll(m, events).health, tag);
      && h.latencyEwmaMs == Smoothed(h0.latencyEwmaMs, Latencies(events, tag))
      && h.successes == h0.successes + |Latencies(events, tag)|
    decreases |events|
  {
    if events != [] {
      var earlier, e := events[..|events| - 1], events[|events| - 1];
      assert events == earlier + [e];
      OneMoreEvent(m, earlier, e);
      LatencyIsHistory(m, earlier, tag);
      var ls := Latencies(earlier, tag);
      if e.Success? && e.tag == tag {
        assert (ls + [e.latencyMs])[..|ls|] == ls;
      }
    }
  }

  // ----------------------------------------------------- health as history

  /** The failures of an outbound since its last success, or since the start. */
  function FailuresSince(events: seq<Event>, tag: string): seq<int>
    decreases |events|
  {
    if events == [] then []
    else
      var earlier, e := FailuresSince(events[..|events| - 1], tag), events[|events| - 1];
      if e.Success? && e.tag == tag then []
      else if e.Failure? && e.tag == tag then earlier + [e.now]
      else earlier
  }

  predicate Succeeded(events: seq<Event>, tag: string) {
    exists i | 0 <= i < |events| :: events[i].Success? && events[i].tag == tag
  }

  /** The number of failures since the last success, and the last of them; what the record said at the start counts as
      long as there has been no success. */
  function FailureCount(h: Health, events: seq<Event>, tag: string): nat {
    |FailuresSince(events, tag)| + if Succeeded(events, tag) then 0 else h.failures
  }

  function LastFailure(h: Health, events: seq<Event>, tag: string): Option<int> {
    var failed := FailuresSince(events, tag);
    if failed != [] then Some(failed[|failed| - 1])
    else if Succeeded(events, tag) then None
    else h.lastFailureAt
  }

  /** A health record is the history of its outbound. */
  lemma {:induction false} HealthIsHistory(m: Manager, events: seq<Event>, tag: string)
    ensures var h0, h := HealthOf(m.health, tag), HealthOf(RunAll(m, events).health, tag);
      h.failures == FailureCount(h0, events, tag) && h.lastFailureAt == LastFailure(h0, events, tag)
    decreases |events|
  {
    if events != [] {
      var earlier, e := events[..|events| - 1], events[|events| - 1];
      assert events == earlier + [e];
      OneMoreEvent(m, earlier, e);
      HealthIsHistory(m, earlier, tag);
      SucceededMore(earlier, e, tag);
    }
  }

  lemma SucceededMore(earlier: seq<Event>, e: Event, tag: string)
    ensures Succeeded(earlier + [e], tag) <==> Succeeded(earlier, tag) || (e.Success? && e.tag == tag)
  {
    var all := earlier + [e];
    assert all[|earlier|] == e;
    if Succeeded(earlier, tag) {
      var i :| 0 <= i < |earlier| && earlier[i].Success? && earlier[i].tag == tag;
      assert all[i] == earlier[i];
    }
  }

  /** Main result on health: over any run, an outbound counts as healthy exactly when it has failed fewer times since
      its last success than the policy tolerates, or not at all, or last failed long enough ago. */
  lemma HealthyExactlyWhen(m: Manager, events: seq<Event>, policy: Policy, tag: string, now: int)
    ensures var h0 := HealthOf(m.health, tag);
      IsHealthy(RunAll(m, events).health, policy, tag, now) <==>
      || FailureCount(h0, events, tag) < policy.unhealthyAfterFailures
      || LastFailure(h0, events, tag).None?
      || LastFailure(h0, events, tag).value + policy.recoverAfterMs <= now
  {
    HealthIsHistory(m, events, tag);
  }
}
