/** The classes `FakeIpStore`, `FakeIpPool` and `FakeIpService`, each method at one instant `now`. */
module FakeIpServices {
  import opened Common
  import opened OrderedMaps
  import opened DnsCaches
  import opened FakeIps
  import opened FakeIpSafety

  class FakeIpStore {
    const maxSize: nat
    var byDomain: OrderedMap<string, Record>
    var byAddress: map<Ipv4, Record>

    ghost function State(): Store
      reads this
    {
      Store(byDomain, byAddress)
    }

    constructor (maxSize: nat)
      ensures this.maxSize == maxSize && State() == FakeIps.EMPTY
    {
      this.maxSize := maxSize;
      byDomain, byAddress := OrderedMap([], map[]), map[];
    }

    method Touch(record: Record)
      requires byDomain.Valid()
      modifies this`byDomain
      ensures State() == FakeIps.Touch(old(State()), record)
    {
      byDomain := byDomain.Renew(record.domain, record);
    }

    method Delete(record: Record)
      requires byDomain.Valid()
      modifies this
      ensures State() == Remove(old(State()), record)
    {
      byDomain := byDomain.Delete(record.domain);
      byAddress := byAddress - {record.address};
    }

    /** `read`, then `touch` if there is a record */
    method ReadAndTouch(record: Option<Record>, now: int) returns (found: Option<Record>)
      requires byDomain.Valid()
      modifies this
      ensures match record
        case None => found.None? && State() == old(State())
        case Some(r) => (State(), found) == Visit(old(State()), r, now)
    {
      if record.None? {
        return None;
      }
      if record.value.expiresAt <= now {
        Delete(record.value);
        return None;
      }
      Touch(record.value);
      return record;
    }

    method LookupDomain(domain: string, now: int) returns (found: Option<Record>)
      requires byDomain.Valid()
      modifies this
      ensures (State(), found) == GetByDomain(old(State()), domain, now)
    {
      found := ReadAndTouch(byDomain.Get(domain), now);
    }

    method LookupAddress(address: Ipv4, now: int) returns (found: Option<Record>)
      requires byDomain.Valid()
      modifies this
      ensures (State(), found) == GetByAddress(old(State()), address, now)
    {
      found := ReadAndTouch(if address in byAddress then Some(byAddress[address]) else None, now);
    }

    /** `set`: on an invariant store, within its limit, the trim loop finds nothing to do. */
    method Set(record: Record)
      requires Mutual(State())
      modifies this
      ensures State() == TrimTo(Put(old(State()), record), maxSize)
    {
      PutDomains(State(), record);
      if record.domain in byDomain.vals {
        byAddress := byAddress - {byDomain.vals[record.domain].address};
      }
      byDomain := byDomain.Put(record.domain, record);
      byAddress := byAddress[record.address := record];
      while byDomain.Size() > maxSize
        invariant byDomain.Valid() && forall d :: d in byDomain.vals ==> byDomain.vals[d].domain == d
        invariant TrimTo(State(), maxSize) == TrimTo(Put(old(State()), record), maxSize)
        decreases byDomain.Size()
      {
        assert byDomain.keys[0] in byDomain.vals;
        WithoutLength(byDomain.keys, byDomain.keys[0]);
        Delete(byDomain.vals[byDomain.keys[0]]);
      }
    }

    method EvictOldest() returns (oldest: Option<Record>)
      requires byDomain.Valid()
      modifies this
      ensures oldest == Oldest(old(State()))
      ensures State() == if oldest.Some? then Remove(old(State()), oldest.value) else old(State())
    {
      if byDomain.Size() == 0 {
        return None;
      }
      assert byDomain.keys[0] in byDomain.vals;
      oldest := Some(byDomain.vals[byDomain.keys[0]]);
      Delete(oldest.value);
    }
  }

  class FakeIpPool {
    const range: Range
    var cursor: nat

    constructor (range: Range)
      requires range.Valid()
      ensures this.range == range && cursor == 0
    {
      this.range, cursor := range, 0;
    }

    /** `next`, with the store's `hasAddress` as the test whether an address is used */
    method Next(store: FakeIpStore, now: int) returns (address: Option<Ipv4>)
      requires range.Valid() && cursor < range.capacity && Mutual(store.State())
      modifies this, store
      ensures (store.State(), cursor, address) == Probe(old(store.State()), range, old(cursor), range.capacity, now)
      ensures cursor < range.capacity && Mutual(store.State())
    {
      var attempt := 0;
      ghost var s := store.State();
      ghost var probed := Probe(s, range, cursor, range.capacity, now);
      while attempt < range.capacity
        invariant attempt <= range.capacity && cursor < range.capacity
        invariant store.State() == s && Mutual(s)
        invariant Probe(s, range, cursor, range.capacity - attempt, now) == probed
      {
        var candidate := range.At(cursor);
        ghost var (s1, found) := GetByAddress(s, candidate, now);
        AddressLookedUp(s, candidate, now);
        ProbeStep(s, range, cursor, range.capacity - attempt, now, s1, found, Advance(cursor, range.capacity),
                  range.capacity - attempt - 1);
        s := s1;
        cursor := Advance(cursor, range.capacity);
        var used := store.LookupAddress(candidate, now);
        if used.None? {
          return Some(candidate);
        }
        attempt := attempt + 1;
      }
      return None;
    }
  }

  class FakeIpService {
    const config: Config
    const pool: FakeIpPool
    const store: FakeIpStore

    ghost function State(): Service
      reads pool, store
    {
      Service(store.State(), pool.cursor)
    }

    ghost predicate Valid()
      reads pool, store
    {
      && config.Valid() && pool.range == config.range && store.maxSize == config.size
      && ServiceValid(config, State())
    }

    constructor (config: Config)
      requires config.Valid()
      ensures Valid() && this.config == config && fresh(pool) && fresh(store)
      ensures State() == Service(FakeIps.EMPTY, 0)
    {
      this.config := config;
      pool := new FakeIpPool(config.range);
      store := new FakeIpStore(config.size);
    }

    /** The address for a new record: a free one, or the one of the record evicted for it. */
    method Allocate(now: int) returns (address: Ipv4)
      requires config.Valid() && pool.range == config.range && ServiceValid(config, State())
      requires var r := Probe(store.State(), config.range, pool.cursor, config.range.capacity, now);
        r.2.None? ==> r.0.byDomain.Valid() && Oldest(r.0).Some?
      modifies pool, store
      ensures var r := Probe(old(store.State()), config.range, old(pool.cursor), config.range.capacity, now);
        && pool.cursor == r.1
        && (r.2.Some? ==> store.State() == r.0 && address == r.2.value)
        && (r.2.None? ==> r.0.byDomain.Valid() && Oldest(r.0).Some? && store.State() == Remove(r.0, Oldest(r.0).value)
                          && address == Oldest(r.0).value.address)
    {
      var next := pool.Next(store, now);
      if next.Some? {
        return next.value;
      }
      var evicted := store.EvictOldest();
      return evicted.value.address;
    }

    /** `assign`. The store is never empty once the pool is exhausted, so this never throws. */
    method AssignDomain(domain: string, now: int) returns (address: Ipv4)
      requires Valid()
      modifies pool, store
      ensures Valid() && Assign(config, old(State()), domain, now) == Ok((State(), address))
    {
      ghost var before := State();
      AssignKeepsInvariant(config, before, domain, now);
      LookedUp(config, before, Lower(domain), now);
      var existing := store.LookupDomain(Lower(domain), now);
      if existing.Some? {
        return existing.value.address;
      }
      ghost var s, cursor, a, victim := AssignReaches(config, before, domain, now);
      address := Allocate(now);
      assert store.State() == s && a == address && cursor == pool.cursor;
      SaveNew(NewRecord(config, domain, address, now));
    }

    /** Storing a new record in a store that has room for it. */
    method SaveNew(record: Record)
      requires config.Valid() && store.maxSize == config.size
      requires Mutual(store.State()) && InPool(store.State(), config.range)
      requires record.domain !in store.byDomain.vals && record.address !in store.byAddress
      requires config.range.Contains(record.address)
      modifies store
      ensures store.State() == Put(old(store.State()), record)
    {
      PutKeeps(store.State(), record, config.range);
      NeverLargerThanPool(Put(store.State(), record), config.range);
      store.Set(record);
    }

    method ReverseAddress(address: Ipv4, now: int) returns (domain: Option<string>)
      requires Valid()
      modifies store
      ensures Valid() && (State(), domain) == Reverse(old(State()), address, now)
    {
      ReverseKeepsInvariant(config, State(), address, now);
      var found := store.LookupAddress(address, now);
      return match found case None => None case Some(r) => Some(r.domain);
    }
  }
}
