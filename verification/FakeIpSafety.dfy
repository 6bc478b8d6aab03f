/** What the fake-IP allocator guarantees, and what it does when its pool is exhausted. */
module FakeIpSafety {
  import opened Common
  import opened OrderedMaps
  import opened DnsCaches
  import opened FakeIps

  // ------------------------------------------------------------- pigeonhole

  function Interval(first: int, n: nat): (r: set<int>)
    ensures forall x :: x in r <==> first <= x < first + n
    ensures |r| == n
  {
    if n == 0 then {} else Interval(first, n - 1) + {first + n - 1}
  }

  lemma HeadIn<T>(s: seq<T>)
    requires s != []
    ensures s[0] in s
  {
  }

  /** The addresses of the stored records, in the store's order. */
  function Values32(s: Store): (r: seq<int>)
    requires Mutual(s)
    ensures |r| == s.byDomain.Size()
  {
    seq(s.byDomain.Size(), i requires 0 <= i < s.byDomain.Size() =>
      assert s.byDomain.keys[i] in s.byDomain.vals; s.byDomain.vals[s.byDomain.keys[i]].address.value)
  }

  /** A store of pool addresses is never larger than the pool. */
  lemma NeverLargerThanPool(s: Store, range: Range)
    requires Mutual(s) && InPool(s, range)
    ensures s.byDomain.Size() <= range.capacity
  {
    var r := Values32(s);
    forall i | 0 <= i < |r| ensures s.byDomain.keys[i] in s.byDomain.vals {
      assert s.byDomain.keys[i] in s.byDomain.keys;
    }
    forall i, j | 0 <= i < j < |r| ensures r[i] != r[j] {
      var p, q := s.byDomain.vals[s.byDomain.keys[i]], s.byDomain.vals[s.byDomain.keys[j]];
      assert p.domain != q.domain;
      assert s.byAddress[p.address] == p && s.byAddress[q.address] == q;
    }
    forall x | x in r ensures x in Interval(range.first, range.capacity) {
      var i :| 0 <= i < |r| && r[i] == x;
      assert s.byDomain.vals[s.byDomain.keys[i]].address in s.byAddress;
    }
    DistinctWithin(r, Interval(range.first, range.capacity));
  }

  // ---------------------------------------------------------------- assign

  /** What `assign` has done when it comes to store a new record: this store, cursor and address. */
  lemma AssignReaches(config: Config, v: Service, domain: string, now: int)
    returns (s: Store, cursor: nat, address: Ipv4, victim: Option<Record>)
    requires config.Valid() && ServiceValid(config, v)
    requires GetByDomain(v.store, Lower(domain), now).1.None?
    ensures Mutual(s) && InPool(s, config.range) && cursor < config.range.capacity
    ensures Lower(domain) !in s.byDomain.vals && address !in s.byAddress && config.range.Contains(address)
    ensures Assign(config, v, domain, now)
         == Ok((Service(Put(s, NewRecord(config, domain, address, now)), cursor), address))
    ensures var looked := GetByDomain(v.store, Lower(domain), now).0;
      var r := Probe(looked, config.range, v.cursor, config.range.capacity, now);
      && cursor == r.1
      && (r.2.Some? ==> s == r.0 && address == r.2.value)
      && (r.2.None? ==> r.0.byDomain.Valid() && Oldest(r.0).Some? && s == Remove(r.0, Oldest(r.0).value)
                        && address == Oldest(r.0).value.address)
    ensures forall a :: a in s.byAddress ==> a in v.store.byAddress && s.byAddress[a] == v.store.byAddress[a]
    ensures forall a :: a in v.store.byAddress && v.store.byAddress[a].expiresAt > now && a !in s.byAddress ==>
      victim == Some(v.store.byAddress[a]) && a == address
  {
    hide GetByAddress;
    var normalized := Lower(domain);
    LookedUp(config, v, normalized, now);
    var (s1, existing) := GetByDomain(v.store, normalized, now);
    var r := Probe(s1, config.range, v.cursor, config.range.capacity, now);
    ProbeKeeps(s1, config.range, v.cursor, config.range.capacity, now, r);
    cursor := r.1;
    if r.2.Some? {
      s, address, victim := r.0, r.2.value, None;
    } else {
      KeysRemain(s1, r.0, config.range, v.cursor, now);
      var oldest := Oldest(r.0).value;
      OldestRemoved(r.0, config.range);
      s, address, victim := Remove(r.0, oldest), oldest.address, Some(oldest);
    }
    var record := NewRecord(config, domain, address, now);
    PutKeeps(s, record, config.range);
    NeverLargerThanPool(Put(s, record), config.range);
  }

  /** A failing probe has found a record at every address, so the store is not empty. */
  lemma KeysRemain(s: Store, s': Store, range: Range, cursor: nat, now: int)
    requires range.Valid() && Mutual(s) && cursor < range.capacity
    requires Probe(s, range, cursor, range.capacity, now).2.None?
    requires s' == Probe(s, range, cursor, range.capacity, now).0 && Mutual(s') && SameRecords(s, s')
    ensures s'.byDomain.keys != []
  {
    AddressLookedUp(s, range.At(cursor), now);
    var r := s.byAddress[range.At(cursor)];
    assert r.domain in s'.byDomain.vals;
    assert r.domain in s'.byDomain.keys;
  }

  lemma OldestRemoved(s: Store, range: Range)
    requires Mutual(s) && InPool(s, range) && s.byDomain.keys != []
    ensures var oldest := Oldest(s).value;
      && Mutual(Remove(s, oldest)) && InPool(Remove(s, oldest), range)
      && oldest.address in s.byAddress && s.byAddress[oldest.address] == oldest
      && (forall a :: a in Remove(s, oldest).byAddress <==> a in s.byAddress && a != oldest.address)
  {
    assert s.byDomain.keys[0] in s.byDomain.vals;
  }

  lemma PutKeeps(s: Store, r: Record, range: Range)
    requires Mutual(s) && InPool(s, range) && r.domain !in s.byDomain.vals && r.address !in s.byAddress
    requires range.Contains(r.address)
    ensures Mutual(Put(s, r)) && InPool(Put(s, r), range)
    ensures Put(s, r).byAddress == s.byAddress[r.address := r]
  {
  }

  /** Main result: from any reachable state `assign` succeeds and stays inside the invariant, so the store never
      outgrows the pool and the trim loop of `set` never takes anything out. */
  lemma AssignKeepsInvariant(config: Config, v: Service, domain: string, now: int)
    requires config.Valid() && ServiceValid(config, v)
    ensures Assign(config, v, domain, now).Ok?
    ensures var (v', address) := Assign(config, v, domain, now).value;
      && ServiceValid(config, v') && v'.store.byDomain.Size() <= config.range.capacity
      && config.range.Contains(address)
      && Lower(domain) in v'.store.byDomain.vals && v'.store.byDomain.vals[Lower(domain)].address == address
  {
    var (s1, existing) := GetByDomain(v.store, Lower(domain), now);
    if existing.Some? {
      LookedUp(config, v, Lower(domain), now);
      NeverLargerThanPool(s1, config.range);
    } else {
      var s, cursor, address, victim := AssignReaches(config, v, domain, now);
      var record := NewRecord(config, domain, address, now);
      PutKeeps(s, record, config.range);
      NeverLargerThanPool(Put(s, record), config.range);
    }
  }

  /** `assign` from a reachable state, where it does not throw. */
  function Assigned(config: Config, v: Service, domain: string, now: int): (r: (Service, Ipv4))
    requires config.Valid() && ServiceValid(config, v)
    ensures ServiceValid(config, r.0)
  {
    AssignKeepsInvariant(config, v, domain, now);
    Assign(config, v, domain, now).value
  }

  /** `reverse` undoes `assign` at the same instant: exactly when the domain already had a live address, or new
      records live for some time. */
  lemma ReverseUndoesAssign(config: Config, v: Service, domain: string, now: int)
    requires config.Valid() && ServiceValid(config, v)
    ensures var (v', address) := Assigned(config, v, domain, now);
      Reverse(v', address, now).1 == Some(Lower(domain))
      <==> (GetByDomain(v.store, Lower(domain), now).1.Some? || config.ttlSeconds > 0)
  {
    var (s1, existing) := GetByDomain(v.store, Lower(domain), now);
    if existing.Some? {
      LookedUp(config, v, Lower(domain), now);
    } else {
      var s, cursor, address, victim := AssignReaches(config, v, domain, now);
    }
  }

  /** Every other live assignment survives, except that of one victim, and only if its very address is the one
      given to the new domain. */
  lemma AssignKeepsOthers(config: Config, v: Service, domain: string, now: int, other: string)
    requires config.Valid() && ServiceValid(config, v)
    requires other in v.store.byDomain.vals && v.store.byDomain.vals[other].expiresAt > now && other != Lower(domain)
    ensures var (v', address) := Assigned(config, v, domain, now);
      var record := v.store.byDomain.vals[other];
      || (other in v'.store.byDomain.vals && v'.store.byDomain.vals[other] == record)
      || (record.address == address && other !in v'.store.byDomain.vals)
  {
    var record := v.store.byDomain.vals[other];
    var (s1, existing) := GetByDomain(v.store, Lower(domain), now);
    if existing.Some? {
      LookedUp(config, v, Lower(domain), now);
    } else {
      var s, cursor, address, victim := AssignReaches(config, v, domain, now);
      if record.address in s.byAddress {
        assert s.byAddress[record.address] == record;
      } else if other in s.byDomain.vals {
        SameRecordThen(s, v.store, other);
      }
    }
  }

  lemma SameRecordThen(s: Store, before: Store, d: string)
    requires Mutual(s) && Mutual(before) && d in s.byDomain.vals
    requires forall a :: a in s.byAddress ==> a in before.byAddress && s.byAddress[a] == before.byAddress[a]
    ensures d in before.byDomain.vals && before.byDomain.vals[d] == s.byDomain.vals[d]
    ensures s.byDomain.vals[d].address in s.byAddress
  {
    var r := s.byDomain.vals[d];
    assert s.byAddress[r.address] == r == before.byAddress[r.address];
  }

  /** A domain with a live address is given that address again; no record changes, and its own becomes the newest. */
  lemma LiveDomainKeepsAddress(config: Config, v: Service, domain: string, now: int)
    requires config.Valid() && ServiceValid(config, v)
    requires Lower(domain) in v.store.byDomain.vals && now < v.store.byDomain.vals[Lower(domain)].expiresAt
    ensures var (v', address) := Assigned(config, v, domain, now);
      && address == v.store.byDomain.vals[Lower(domain)].address && SameRecords(v.store, v'.store)
      && v'.cursor == v.cursor
      && v'.store.byDomain.keys == Without(v.store.byDomain.keys, Lower(domain)) + [Lower(domain)]
  {
    VisitKeeps(v.store, v.store.byDomain.vals[Lower(domain)], now);
  }

  /** Any other domain gets a new record, which lives for `ttlSeconds` seconds, and no longer. */
  lemma NewRecordLives(config: Config, v: Service, domain: string, now: int)
    requires config.Valid() && ServiceValid(config, v)
    requires Lower(domain) in v.store.byDomain.vals ==> v.store.byDomain.vals[Lower(domain)].expiresAt <= now
    ensures var (v', address) := Assigned(config, v, domain, now);
      && Lower(domain) in v'.store.byDomain.vals
      && var r := v'.store.byDomain.vals[Lower(domain)];
         r.domain == Lower(domain) && r.address == address && r.expiresAt == now + 1000 * config.ttlSeconds
  {
    var s, cursor, address, victim := AssignReaches(config, v, domain, now);
  }

  // ------------------------------------------------------- the first free one

  /** An address has a live record. */
  predicate Taken(s: Store, address: Ipv4, now: int) {
    address in s.byAddress && now < s.byAddress[address].expiresAt
  }

  /** A probe from a cursor ends with the first address that is not taken, k turns on, and the cursor behind it; or, if
      all it may try are taken, with none. */
  ghost predicate StopsAtFirst(s: Store, range: Range, cursor: nat, attempts: nat, now: int,
                               r: (Store, nat, Option<Ipv4>), k: nat)
    requires cursor < range.capacity
  {
    var at := AdvanceBy(cursor, k, range.capacity);
    && k <= attempts
    && (forall j: nat :: j < k ==> Taken(s, range.At(AdvanceBy(cursor, j, range.capacity)), now))
    && if k == attempts then r.1 == at && r.2.None?
       else !Taken(s, range.At(at), now) && r.1 == Advance(at, range.capacity) && r.2 == Some(range.At(at))
  }

  lemma {:induction false} ProbeFindsFirst(s: Store, range: Range, cursor: nat, attempts: nat, now: int,
                                           r: (Store, nat, Option<Ipv4>)) returns (k: nat)
    requires range.Valid() && Mutual(s) && cursor < range.capacity
    requires r == Probe(s, range, cursor, attempts, now)
    ensures StopsAtFirst(s, range, cursor, attempts, now, r, k)
    decreases attempts
  {
    hide *;
    MutualIsValid(s);
    if attempts == 0 {
      StopsAtOnce(s, range, cursor, now);
      return 0;
    }
    var left: nat, next := attempts - 1, Advance(cursor, range.capacity);
    var (s1, found) := GetByAddress(s, range.At(cursor), now);
    ProbeTurn(s, range, cursor, now, s1, found);
    ProbeStep(s, range, cursor, attempts, now, s1, found, next, left);
    if found.None? {
      StopsHere(s, range, cursor, attempts, now, r);
      return 0;
    }
    k := ProbeFindsFirst(s1, range, next, left, now, r);
    StopsLater(s, s1, range, cursor, left, now, r, k);
    k := k + 1;
  }

  lemma MutualIsValid(s: Store)
    requires Mutual(s)
    ensures s.byDomain.Valid()
  {
  }

  lemma StopsAtOnce(s: Store, range: Range, cursor: nat, now: int)
    requires range.Valid() && s.byDomain.Valid() && cursor < range.capacity
    ensures StopsAtFirst(s, range, cursor, 0, now, Probe(s, range, cursor, 0, now), 0)
  {
  }

  lemma ProbeTurn(s: Store, range: Range, cursor: nat, now: int, s1: Store, found: Option<Record>)
    requires Mutual(s) && (s1, found) == GetByAddress(s, range.At(cursor), now)
    ensures Mutual(s1) && s.byDomain.Valid() && s1.byDomain.Valid()
    ensures found.Some? <==> Taken(s, range.At(cursor), now)
    ensures found.Some? ==> SameRecords(s, s1)
  {
    AddressLookedUp(s, range.At(cursor), now);
  }

  lemma StopsHere(s: Store, range: Range, cursor: nat, attempts: nat, now: int, r: (Store, nat, Option<Ipv4>))
    requires cursor < range.capacity && 0 < attempts && !Taken(s, range.At(cursor), now)
    requires r.1 == Advance(cursor, range.capacity) && r.2 == Some(range.At(cursor))
    ensures StopsAtFirst(s, range, cursor, attempts, now, r, 0)
  {
  }

  lemma StopsLater(s: Store, s1: Store, range: Range, cursor: nat, left: nat, now: int,
                   r: (Store, nat, Option<Ipv4>), k: nat)
    requires cursor < range.capacity && Taken(s, range.At(cursor), now) && SameRecords(s, s1)
    requires StopsAtFirst(s1, range, Advance(cursor, range.capacity), left, now, r, k)
    ensures StopsAtFirst(s, range, cursor, left + 1, now, r, k + 1)
  {
    var next := Advance(cursor, range.capacity);
    forall j: nat | j < k + 1 ensures Taken(s, range.At(AdvanceBy(cursor, j, range.capacity)), now) {
      if j > 0 {
        assert AdvanceBy(cursor, j, range.capacity) == AdvanceBy(next, j - 1, range.capacity);
        assert Taken(s1, range.At(AdvanceBy(next, j - 1, range.capacity)), now);
      }
    }
    assert AdvanceBy(cursor, k + 1, range.capacity) == AdvanceBy(next, k, range.capacity);
  }

  /** Main result on a domain without a live address: it is given the first address from the cursor on that is not
      taken, and the cursor comes to stand behind it; if all are taken, the one at the cursor. */
  lemma FirstFreeIsGiven(config: Config, v: Service, domain: string, now: int) returns (k: nat)
    requires config.Valid() && ServiceValid(config, v)
    requires Lower(domain) in v.store.byDomain.vals ==> v.store.byDomain.vals[Lower(domain)].expiresAt <= now
    ensures k <= config.range.capacity
    ensures forall j: nat :: j < k ==>
      Taken(v.store, config.range.At(AdvanceBy(v.cursor, j, config.range.capacity)), now)
    ensures var (v', address) := Assigned(config, v, domain, now);
      var at := AdvanceBy(v.cursor, k, config.range.capacity);
      && address == config.range.At(at)
      && (k < config.range.capacity ==>
            !Taken(v.store, address, now) && v'.cursor == Advance(at, config.range.capacity))
      && (k == config.range.capacity ==>
            at == v.cursor == v'.cursor && Exhausted(v.store, config.range, now))
  {
    var s, cursor, address, victim := AssignReaches(config, v, domain, now);
    LookedUp(config, v, Lower(domain), now);
    var looked := GetByDomain(v.store, Lower(domain), now).0;
    k := ProbeFindsFirst(looked, config.range, v.cursor, config.range.capacity, now,
                         Probe(looked, config.range, v.cursor, config.range.capacity, now));
    SameTaken(v.store, looked, now);
    AdvanceIsOffset(v.cursor, k, config.range.capacity);
    if k == config.range.capacity {
      AllTaken(v.store, config.range, v.cursor, now);
      AllTaken(looked, config.range, v.cursor, now);
      var s' := FullProbe(looked, config.range, v.cursor, now);
    }
  }

  lemma SameTaken(s: Store, s': Store, now: int)
    requires DropsExpiredOnly(s, s', now)
    ensures forall a :: Taken(s', a, now) <==> Taken(s, a, now)
  {
  }

  lemma AllTaken(s: Store, range: Range, cursor: nat, now: int)
    requires range.Valid() && cursor < range.capacity
    requires forall j: nat :: j < range.capacity ==> Taken(s, range.At(AdvanceBy(cursor, j, range.capacity)), now)
    ensures Exhausted(s, range, now)
  {
    forall i | 0 <= i < range.capacity
      ensures range.At(i) in s.byAddress && s.byAddress[range.At(i)].expiresAt > now
    {
      var j := if i >= cursor then i - cursor else i + range.capacity - cursor;
      AdvanceIsOffset(cursor, j, range.capacity);
      assert Taken(s, range.At(AdvanceBy(cursor, j, range.capacity)), now);
    }
  }

  /** So nobody loses a live address as long as there is one that is not taken. */
  lemma FreeAddressSparesAll(config: Config, v: Service, domain: string, now: int, other: string)
    requires config.Valid() && ServiceValid(config, v) && !Exhausted(v.store, config.range, now)
    requires other in v.store.byDomain.vals && v.store.byDomain.vals[other].expiresAt > now && other != Lower(domain)
    ensures var v' := Assigned(config, v, domain, now).0;
      other in v'.store.byDomain.vals && v'.store.byDomain.vals[other] == v.store.byDomain.vals[other]
  {
    AssignKeepsOthers(config, v, domain, now, other);
    FiledByAddress(v.store, other);
    if Lower(domain) in v.store.byDomain.vals && now < v.store.byDomain.vals[Lower(domain)].expiresAt {
      LiveDomainKeepsAddress(config, v, domain, now);
    } else {
      var k := FirstFreeIsGiven(config, v, domain, now);
    }
  }

  lemma ReverseKeepsInvariant(config: Config, v: Service, address: Ipv4, now: int)
    requires config.Valid() && ServiceValid(config, v)
    ensures ServiceValid(config, Reverse(v, address, now).0)
    ensures Reverse(v, address, now).1
         == if Taken(v.store, address, now) then Some(v.store.byAddress[address].domain) else None
    ensures DropsExpiredOnly(v.store, Reverse(v, address, now).0.store, now)
    ensures Reverse(v, address, now).0.cursor == v.cursor
  {
    AddressLookedUp(v.store, address, now);
  }

  // -------------------------------------------------------------- exhaustion

  /** The cursor after k turns. */
  function AdvanceBy(cursor: nat, k: nat, capacity: nat): (r: nat)
    requires cursor < capacity
    ensures r < capacity
    decreases k
  {
    if k == 0 then cursor else AdvanceBy(Advance(cursor, capacity), k - 1, capacity)
  }

  lemma {:induction false} AdvanceIsOffset(cursor: nat, k: nat, capacity: nat)
    requires cursor < capacity && k <= capacity
    ensures AdvanceBy(cursor, k, capacity) == if cursor + k < capacity then cursor + k else cursor + k - capacity
    decreases k
  {
    if k > 0 {
      AdvanceIsOffset(Advance(cursor, capacity), k - 1, capacity);
    }
  }

  /** Every address of the pool has a live record. */
  ghost predicate Exhausted(s: Store, range: Range, now: int)
    requires range.Valid()
  {
    forall i :: 0 <= i < range.capacity ==> range.At(i) in s.byAddress && s.byAddress[range.At(i)].expiresAt > now
  }

  /** The domain at an address, if it is in use. */
  function DomainAt(records: map<Ipv4, Record>, address: Ipv4): string {
    if address in records then records[address].domain else ""
  }

  /** The domains at k addresses from the cursor on. */
  function AddressOrder(records: map<Ipv4, Record>, range: Range, cursor: nat, k: nat): (r: seq<string>)
    requires cursor < range.capacity
    ensures |r| == k
    decreases k
  {
    if k == 0 then []
    else [DomainAt(records, range.At(cursor))] + AddressOrder(records, range, Advance(cursor, range.capacity), k - 1)
  }

  lemma {:induction false} AddressOrderAt(records: map<Ipv4, Record>, range: Range, cursor: nat, k: nat, j: nat)
    requires cursor < range.capacity && j < k
    ensures AddressOrder(records, range, cursor, k)[j]
         == DomainAt(records, range.At(AdvanceBy(cursor, j, range.capacity)))
    decreases k
  {
    if j > 0 {
      AddressOrderAt(records, range, Advance(cursor, range.capacity), k - 1, j - 1);
    }
  }

  /** The list without the elements of another. */
  function Strip(s: seq<string>, d: seq<string>): seq<string>
    decreases |d|
  {
    if d == [] then s else Strip(Without(s, d[0]), d[1..])
  }

  lemma {:induction false} StripLast(s: seq<string>, x: string, d: seq<string>)
    requires x !in d
    ensures Strip(s + [x], d) == Strip(s, d) + [x]
    decreases |d|
  {
    if d != [] {
      WithoutAppend(s, [x], d[0]);
      assert Without([x], d[0]) == [x] + Without([x][1..], d[0]) == [x];
      StripLast(Without(s, d[0]), x, d[1..]);
    }
  }

  lemma {:induction false} StripElements(s: seq<string>, d: seq<string>)
    ensures forall x :: x in Strip(s, d) ==> x in s && x !in d
    decreases |d|
  {
    if d != [] {
      WithoutElements(s, d[0]);
      StripElements(Without(s, d[0]), d[1..]);
      assert forall x :: x in d ==> x == d[0] || x in d[1..];
    }
  }

  /** A domain at the cursor's address is not at any of the next addresses, once round. */
  lemma NotAgain(s: Store, range: Range, cursor: nat, k: nat, now: int)
    requires range.Valid() && Mutual(s) && Exhausted(s, range, now) && cursor < range.capacity && k < range.capacity
    ensures s.byAddress[range.At(cursor)].domain !in
      AddressOrder(s.byAddress, range, Advance(cursor, range.capacity), k)
  {
    var next := Advance(cursor, range.capacity);
    var d := s.byAddress[range.At(cursor)].domain;
    var order := AddressOrder(s.byAddress, range, next, k);
    if d in order {
      var j :| 0 <= j < k && order[j] == d;
      AddressOrderAt(s.byAddress, range, next, k, j);
      AdvanceIsOffset(next, j, range.capacity);
      AtIsOffset(range, cursor);
      AtIsOffset(range, AdvanceBy(next, j, range.capacity));
    }
  }

  /** Probing an exhausted pool renews the records in address order, one turn of the loop at a time. */
  lemma {:induction false} ProbeReorders(s: Store, range: Range, cursor: nat, attempts: nat, now: int)
    returns (s': Store)
    requires range.Valid() && Mutual(s) && Exhausted(s, range, now)
    requires cursor < range.capacity && attempts <= range.capacity
    ensures Probe(s, range, cursor, attempts, now) == (s', AdvanceBy(cursor, attempts, range.capacity), None)
    ensures Mutual(s') && SameRecords(s, s')
    ensures var order := AddressOrder(s.byAddress, range, cursor, attempts);
      s'.byDomain.keys == Strip(s.byDomain.keys, order) + order
    decreases attempts
  {
    if attempts == 0 {
      assert Strip(s.byDomain.keys, []) + [] == s.byDomain.keys;
      return s;
    }
    var next, left: nat := Advance(cursor, range.capacity), attempts - 1;
    var (s1, found) := GetByAddress(s, range.At(cursor), now);
    ExhaustedTurn(s, range, cursor, left, now, s1, found);
    ProbeStep(s, range, cursor, attempts, now, s1, found, next, left);
    s' := ProbeReorders(s1, range, next, left, now);
    var d, rest := s.byAddress[range.At(cursor)].domain, AddressOrder(s1.byAddress, range, next, left);
    StepOrder(s.byDomain.keys, s1.byDomain.keys, s'.byDomain.keys, d, rest);
  }

  lemma ExhaustedTurn(s: Store, range: Range, cursor: nat, left: nat, now: int, s1: Store, found: Option<Record>)
    requires range.Valid() && Mutual(s) && Exhausted(s, range, now) && cursor < range.capacity && left < range.capacity
    requires (s1, found) == GetByAddress(s, range.At(cursor), now)
    ensures found.Some? && Mutual(s1) && Exhausted(s1, range, now) && SameRecords(s, s1)
    ensures var d := s.byAddress[range.At(cursor)].domain;
      && s1.byDomain.keys == Without(s.byDomain.keys, d) + [d]
      && d !in AddressOrder(s1.byAddress, range, Advance(cursor, range.capacity), left)
  {
    AddressLookedUp(s, range.At(cursor), now);
    NotAgain(s, range, cursor, left, now);
  }

  lemma StepOrder(keys: seq<string>, keys1: seq<string>, keys2: seq<string>, d: string, rest: seq<string>)
    requires keys1 == Without(keys, d) + [d] && keys2 == Strip(keys1, rest) + rest && d !in rest
    ensures keys2 == Strip(keys, [d] + rest) + ([d] + rest)
  {
    StripLast(Without(keys, d), d, rest);
    assert ([d] + rest)[1..] == rest;
  }

  /** Main result: a full probe of an exhausted pool leaves the cursor where it was and the store in address order
      from the cursor on, so that the record `evictOldest` takes is the one at the cursor's address. */
  lemma FullProbe(s: Store, range: Range, cursor: nat, now: int)
    returns (s': Store)
    requires range.Valid() && Mutual(s) && InPool(s, range) && Exhausted(s, range, now) && cursor < range.capacity
    ensures Probe(s, range, cursor, range.capacity, now) == (s', cursor, None)
    ensures Mutual(s') && SameRecords(s, s')
    ensures s'.byDomain.keys == AddressOrder(s.byAddress, range, cursor, range.capacity)
    ensures Oldest(s') == Some(s.byAddress[range.At(cursor)])
  {
    s' := ProbeReorders(s, range, cursor, range.capacity, now);
    AdvanceIsOffset(cursor, range.capacity, range.capacity);
    var order := AddressOrder(s.byAddress, range, cursor, range.capacity);
    StripElements(s.byDomain.keys, order);
    forall d | d in s.byDomain.keys ensures d in order {
      DomainInOrder(s, range, cursor, now, d);
    }
    if Strip(s.byDomain.keys, order) != [] {
      HeadIn(Strip(s.byDomain.keys, order));
      assert false;
    }
    var first := s.byAddress[range.At(cursor)];
    assert s'.byDomain.keys[0] == first.domain;
  }

  lemma DomainInOrder(s: Store, range: Range, cursor: nat, now: int, d: string)
    requires range.Valid() && Mutual(s) && InPool(s, range) && Exhausted(s, range, now) && cursor < range.capacity
    requires d in s.byDomain.keys
    ensures d in AddressOrder(s.byAddress, range, cursor, range.capacity)
  {
    var record := s.byDomain.vals[d];
    var i := record.address.value - range.first;
    var j := if i >= cursor then i - cursor else i + range.capacity - cursor;
    AdvanceIsOffset(cursor, j, range.capacity);
    AddressOrderAt(s.byAddress, range, cursor, range.capacity, j);
    AtIsOffset(range, i);
  }

  lemma ExhaustedReaches(config: Config, v: Service, domain: string, now: int)
    returns (s: Store)
    requires config.Valid() && ServiceValid(config, v) && Exhausted(v.store, config.range, now)
    requires Lower(domain) !in v.store.byDomain.vals
    ensures var address := config.range.At(v.cursor);
      && Mutual(s) && InPool(s, config.range) && Lower(domain) !in s.byDomain.vals && address !in s.byAddress
      && s.byAddress == v.store.byAddress - {address}
      && Assign(config, v, domain, now)
         == Ok((Service(Put(s, NewRecord(config, domain, address, now)), v.cursor), address))
  {
    assert GetByDomain(v.store, Lower(domain), now) == (v.store, None);
    var probed := FullProbe(v.store, config.range, v.cursor, now);
    var s2, cursor, address, victim := AssignReaches(config, v, domain, now);
    OldestRemoved(probed, config.range);
    s := s2;
  }

  /** At exhaustion a new domain gets the address at the cursor, its former holder is gone, the other addresses keep
      theirs, and the cursor does not move. */
  lemma ExhaustedAssign(config: Config, v: Service, domain: string, now: int)
    requires config.Valid() && ServiceValid(config, v) && Exhausted(v.store, config.range, now)
    requires Lower(domain) !in v.store.byDomain.vals
    ensures var address := config.range.At(v.cursor);
      var (v', got) := Assigned(config, v, domain, now);
      && got == address && v'.cursor == v.cursor
      && v'.store.byAddress == v.store.byAddress[address := NewRecord(config, domain, address, now)]
  {
    var address := config.range.At(v.cursor);
    var record := NewRecord(config, domain, address, now);
    var s := ExhaustedReaches(config, v, domain, now);
    PutAddress(s, record);
    AddressSetAgain(v.store.byAddress, address, record);
  }

  /** Putting the record of a new domain at a free address. */
  lemma PutAddress(s: Store, record: Record)
    requires Mutual(s) && record.domain !in s.byDomain.vals
    ensures Put(s, record).byAddress == s.byAddress[record.address := record]
  {
  }

  lemma AddressSetAgain(m: map<Ipv4, Record>, address: Ipv4, record: Record)
    ensures (m - {address})[address := record] == m[address := record]
  {
  }

  /** Assigning one domain after another, each at its own instant. */
  function AssignAll(config: Config, v: Service, domains: seq<string>, times: seq<int>): (r: (Service, seq<Ipv4>))
    requires config.Valid() && ServiceValid(config, v) && |times| == |domains|
    ensures |r.1| == |domains|
    decreases |domains|
  {
    if domains == [] then (v, [])
    else
      var (v', address) := Assigned(config, v, domains[0], times[0]);
      var (v'', rest) := AssignAll(config, v', domains[1..], times[1..]);
      (v'', [address] + rest)
  }

  /** Main result, and not what least-recently-used eviction would do: once the pool is exhausted, and as long as no
      record expires, every further new domain is given one and the same address, the one at the cursor, each taking
      it from the one before. */
  lemma {:induction false} ExhaustedPoolSharesOneAddress(config: Config, v: Service, domains: seq<string>,
                                                         times: seq<int>, until: int)
    requires config.Valid() && ServiceValid(config, v) && |times| == |domains|
    requires Exhausted(v.store, config.range, until)
    requires forall i :: 0 <= i < |times| ==> times[i] <= until < times[i] + config.ttlSeconds * 1000
    requires forall i :: 0 <= i < |domains| ==> Lower(domains[i]) !in v.store.byDomain.vals
    requires forall i, j :: 0 <= i < j < |domains| ==> Lower(domains[i]) != Lower(domains[j])
    ensures forall i :: 0 <= i < |domains| ==> AssignAll(config, v, domains, times).1[i] == config.range.At(v.cursor)
    decreases |domains|
  {
    hide Mutual, Assigned, ServiceValid, Lower;
    if domains != [] {
      var now, later := times[0], domains[1..];
      ExhaustedAssign(config, v, domains[0], now);
      var (v', address) := Assigned(config, v, domains[0], now);
      forall i | 0 <= i < |later| ensures Lower(later[i]) !in v'.store.byDomain.vals {
        DomainsAfter(config, v, v', domains[0], domains[1 + i], now);
      }
      ExhaustedPoolSharesOneAddress(config, v', later, times[1..], until);
    }
  }

  lemma FiledByAddress(s: Store, d: string)
    requires Mutual(s) && d in s.byDomain.vals
    ensures var r := s.byDomain.vals[d]; r.domain == d && r.address in s.byAddress && s.byAddress[r.address] == r
  {
  }

  /** The domains stored after an exhausted assignment: those before, less one, and the new one. */
  lemma DomainsAfter(config: Config, v: Service, v': Service, domain: string, other: string, now: int)
    requires config.Valid() && ServiceValid(config, v) && ServiceValid(config, v')
    requires v'.store.byAddress
          == v.store.byAddress[config.range.At(v.cursor) := NewRecord(config, domain, config.range.At(v.cursor), now)]
    requires Lower(other) !in v.store.byDomain.vals && Lower(other) != Lower(domain)
    ensures Lower(other) !in v'.store.byDomain.vals
  {
    if Lower(other) in v'.store.byDomain.vals {
      FiledByAddress(v'.store, Lower(other));
      assert false;
    }
  }

  /** A range that is accepted makes, with the size it was asked for, a configuration the service runs on. */
  lemma RangeMakesConfig(base: nat, prefix: int, size: nat, ttlSeconds: nat)
    requires base < TWO_32 && MakeRange(base, prefix, size).Ok?
    ensures Config(MakeRange(base, prefix, size).value, size, ttlSeconds).Valid()
  {
    RangeIsInside(base, prefix, size);
  }
}
