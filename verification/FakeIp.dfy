/** The fake-IP allocator: `src/dns/fakeIpPool.ts`, `fakeIpStore.ts` and `fakeIp.ts`, without persistence. */
module FakeIps {
  import opened Common
  import opened OrderedMaps
  import opened DnsCaches

  // ------------------------------------------------------------- addresses

  const TWO_32: nat := 0x1_0000_0000

  /** An IPv4 address is named by its 32-bit value; `FakeIpAddresses` is about its text. */
  datatype Ipv4 = Ipv4(value: nat)

  /** `x >>> 0` */
  function ToUint32(x: int): (r: nat)
    ensures r < TWO_32
  {
    x % TWO_32
  }

  /** `x | 0`: what the 32-bit operators leave in a JavaScript number. */
  function ToInt32(x: int): int {
    if ToUint32(x) >= TWO_32 / 2 then ToUint32(x) - TWO_32 else ToUint32(x)
  }

  lemma Uint32Same(x: nat)
    requires x < TWO_32
    ensures ToUint32(x) == x
  {
  }

  lemma RemainderAtMost(x: nat, m: nat)
    requires 0 < m
    ensures x % m <= x && x % m < m
  {
    if x < m {
      assert x % m == x;
    }
  }

  function Pow2(n: nat): (r: nat)
    ensures 0 < r
  {
    if n == 0 then 1 else 2 * Pow2(n - 1)
  }

  lemma {:induction false} Pow2Add(m: nat, n: nat)
    ensures Pow2(m + n) == Pow2(m) * Pow2(n)
  {
    if m > 0 {
      Pow2Add(m - 1, n);
    }
  }

  /** The first address and the number of addresses of a pool. */
  datatype Range = Range(first: nat, capacity: nat)
  {
    predicate Valid() {
      0 < capacity && first + capacity <= TWO_32
    }

    /** The i-th address, as `next` computes it. */
    function At(i: nat): Ipv4 {
      Ipv4(ToUint32(first + i))
    }

    predicate Contains(address: Ipv4) {
      first <= address.value < first + capacity
    }
  }

  /** The start of the network of this prefix length: `base & mask`, read as an unsigned number. */
  function Network(base: nat, prefix: nat): nat
    requires prefix <= 32
  {
    RemainderAtMost(base, Pow2(32 - prefix));
    base - base % Pow2(32 - prefix)
  }

  /** The pool's constructor, given a parsed range. `base & mask` is a signed 32-bit number there. */
  function MakeRange(base: nat, prefix: int, requestedSize: int): Result<Range, string>
    requires base < TWO_32
  {
    if prefix < 1 || prefix > 30 then Err("fake-ip range must be an IPv4 CIDR with prefix 1..30")
    else
      var network := ToInt32(Network(base, prefix));
      var available := Pow2(32 - prefix) - 2;
      var capacity := if requestedSize <= available then requestedSize else available;
      if capacity < 1 then Err("fake-ip range has no usable addresses")
      else Ok(Range(ToUint32(network + 1), capacity))
  }

  /** Every pool address lies strictly between the network and the broadcast address, and adding an index to the
      first address never wraps around 32 bits. */
  lemma RangeIsInside(base: nat, prefix: int, requestedSize: int)
    requires base < TWO_32
    ensures var r := MakeRange(base, prefix, requestedSize);
      && (r.Ok? <==> 1 <= prefix <= 30 && requestedSize >= 1)
      && (r.Ok? ==>
            var network := Network(base, prefix);
            var broadcast := network + Pow2(32 - prefix) - 1;
            && r.value.Valid() && network % Pow2(32 - prefix) == 0 && broadcast < TWO_32
            && r.value.first == network + 1 && r.value.first + r.value.capacity - 1 < broadcast
            && (r.value.capacity == requestedSize || r.value.first + r.value.capacity == broadcast))
  {
    if 1 <= prefix <= 30 {
      var size, network := Pow2(32 - prefix), Network(base, prefix);
      PowersOfTwo(prefix);
      NetworkFits(base, size, Pow2(prefix));
      SignedAndBack(network);
    }
  }

  lemma PowersOfTwo(prefix: nat)
    requires 1 <= prefix <= 30
    ensures Pow2(prefix) * Pow2(32 - prefix) == TWO_32
    ensures Pow2(32 - prefix) >= 4
  {
    Pow2Add(prefix, 32 - prefix);
    Pow2Of32();
    Pow2Add(2, 32 - prefix - 2);
    assert Pow2(2) == 4;
  }

  lemma Pow2Of32()
    ensures Pow2(32) == TWO_32
  {
    Pow2Add(16, 16);
    Pow2Add(8, 8);
    assert Pow2(8) == 256 && Pow2(16) == 0x10000;
  }

  /** Adding one to the signed network number and taking it back to unsigned adds one. */
  lemma SignedAndBack(network: nat)
    requires network + 1 < TWO_32
    ensures ToUint32(ToInt32(network) + 1) == network + 1
  {
    Uint32Same(network);
  }

  lemma NetworkFits(base: nat, size: nat, count: nat)
    requires 0 < size && base < count * size
    ensures base % size <= base && (base - base % size) % size == 0
    ensures base - base % size + size <= count * size
  {
    var q, r := base / size, base % size;
    RemainderAtMost(base, size);
    assert base == q * size + r;
    if q >= count {
      AtLeast(q, count, size);
    }
    AtLeast(count, q + 1, size);
    assert (q + 1) * size == q * size + size;
    MultipleHasNoRemainder(q, size);
  }

  lemma AtLeast(x: nat, y: nat, m: nat)
    ensures x >= y ==> x * m >= y * m
  {
    if x >= y {
      assert x * m == y * m + (x - y) * m;
    }
  }

  lemma {:induction false} MultipleHasNoRemainder(q: nat, size: nat)
    requires 0 < size
    ensures (q * size) % size == 0
  {
    RemainderAtMost(q * size, size);
    var d, r := (q * size) / size, (q * size) % size;
    assert q * size == d * size + r;
    assert (d + 1) * size == d * size + size;
    if d < q {
      AtLeast(q, d + 1, size);
    } else {
      AtLeast(d, q, size);
    }
  }

  /** A pool index denotes the address that far from the first, without wrap-around. */
  lemma AtIsOffset(r: Range, i: nat)
    requires r.Valid() && i < r.capacity
    ensures r.At(i) == Ipv4(r.first + i) && r.Contains(r.At(i))
  {
    Uint32Same(r.first + i);
  }

  // ----------------------------------------------------------------- store

  datatype Record = Record(domain: string, address: Ipv4, expiresAt: int)

  datatype Store = Store(byDomain: OrderedMap<string, Record>, byAddress: map<Ipv4, Record>)

  const EMPTY: Store := Store(OrderedMap([], map[]), map[])

  /** The two maps are each other's inverse. */
  ghost predicate Mutual(s: Store) {
    && s.byDomain.Valid()
    && (forall d :: d in s.byDomain.vals ==>
          var r := s.byDomain.vals[d]; r.domain == d && r.address in s.byAddress && s.byAddress[r.address] == r)
    && (forall a :: a in s.byAddress ==>
          var r := s.byAddress[a]; r.address == a && r.domain in s.byDomain.vals && s.byDomain.vals[r.domain] == r)
  }

  function Remove(s: Store, r: Record): Store
    requires s.byDomain.Valid()
  {
    Store(s.byDomain.Delete(r.domain), s.byAddress - {r.address})
  }

  function Touch(s: Store, r: Record): Store
    requires s.byDomain.Valid()
  {
    s.(byDomain := s.byDomain.Renew(r.domain, r))
  }

  /** `read` then `touch`: an expired record goes, a live one becomes the newest. */
  function Visit(s: Store, r: Record, now: int): (Store, Option<Record>)
    requires s.byDomain.Valid()
  {
    if r.expiresAt <= now then (Remove(s, r), None) else (Touch(s, r), Some(r))
  }

  function GetByDomain(s: Store, domain: string, now: int): (Store, Option<Record>)
    requires s.byDomain.Valid()
  {
    if domain in s.byDomain.vals then Visit(s, s.byDomain.vals[domain], now) else (s, None)
  }

  function GetByAddress(s: Store, address: Ipv4, now: int): (Store, Option<Record>)
    requires s.byDomain.Valid()
  {
    if address in s.byAddress then Visit(s, s.byAddress[address], now) else (s, None)
  }

  function Oldest(s: Store): Option<Record>
    requires s.byDomain.Valid()
  {
    if s.byDomain.keys == [] then None else s.byDomain.Get(s.byDomain.keys[0])
  }

  function TrimTo(s: Store, maxSize: nat): Store
    requires s.byDomain.Valid()
    requires forall d :: d in s.byDomain.vals ==> s.byDomain.vals[d].domain == d
    decreases s.byDomain.Size()
  {
    if s.byDomain.Size() <= maxSize then s
    else
      assert s.byDomain.keys[0] in s.byDomain.vals;
      WithoutLength(s.byDomain.keys, s.byDomain.keys[0]);
      TrimTo(Remove(s, s.byDomain.vals[s.byDomain.keys[0]]), maxSize)
  }

  /** `set` up to its trim loop */
  function Put(s: Store, r: Record): Store
    requires s.byDomain.Valid()
  {
    var cleared :=
      if r.domain in s.byDomain.vals then s.byAddress - {s.byDomain.vals[r.domain].address} else s.byAddress;
    Store(s.byDomain.Put(r.domain, r), cleared[r.address := r])
  }

  /** Trimming takes out the oldest records, as many as are too many. */
  lemma {:induction false} TrimDropsOldest(s: Store, maxSize: nat)
    requires Mutual(s) && s.byDomain.Valid() && forall d :: d in s.byDomain.vals ==> s.byDomain.vals[d].domain == d
    ensures Mutual(TrimTo(s, maxSize))
    ensures var left, keys := TrimTo(s, maxSize).byDomain, s.byDomain.keys;
      && left.keys == (if |keys| <= maxSize then keys else keys[|keys| - maxSize..])
      && forall d :: d in left.vals ==> d in s.byDomain.vals && left.vals[d] == s.byDomain.vals[d]
    decreases s.byDomain.Size()
  {
    hide Mutual, Remove, Without, OrderedMap.Valid, OrderedMap.Delete;
    if s.byDomain.Size() > maxSize {
      FirstRemoved(s);
      TrimDropsOldest(Remove(s, s.byDomain.vals[s.byDomain.keys[0]]), maxSize);
    }
  }

  lemma FirstRemoved(s: Store)
    requires Mutual(s) && s.byDomain.keys != []
    ensures s.byDomain.keys[0] in s.byDomain.vals
    ensures var s' := Remove(s, s.byDomain.vals[s.byDomain.keys[0]]);
      && Mutual(s') && s'.byDomain.Valid() && s'.byDomain.keys == s.byDomain.keys[1..]
      && forall d :: d in s'.byDomain.vals ==> d in s.byDomain.vals && s'.byDomain.vals[d] == s.byDomain.vals[d]
  {
    OldestIsFiled(s);
    var first := s.byDomain.vals[s.byDomain.keys[0]];
    hide Mutual;
    VisitKeeps(s, first, first.expiresAt);
    WithoutHead(s.byDomain.keys);
  }

  lemma OldestIsFiled(s: Store)
    requires Mutual(s) && s.byDomain.keys != []
    ensures s.byDomain.Valid() && s.byDomain.keys[0] in s.byDomain.vals
    ensures s.byDomain.vals[s.byDomain.keys[0]].domain == s.byDomain.keys[0]
  {
    assert s.byDomain.keys[0] in s.byDomain.keys;
  }

  /** Looking a record up keeps the maps inverse, keeps every other record, and the record itself if it is live. */
  lemma VisitKeeps(s: Store, r: Record, now: int)
    requires Mutual(s) && r.domain in s.byDomain.vals && s.byDomain.vals[r.domain] == r
    ensures var (s', found) := Visit(s, r, now);
      && Mutual(s')
      && (if r.expiresAt <= now then found.None? && s'.byAddress == s.byAddress - {r.address}
          else found == Some(r) && s'.byAddress == s.byAddress && s'.byDomain.vals == s.byDomain.vals
               && s'.byDomain.keys == Without(s.byDomain.keys, r.domain) + [r.domain])
  {
    if r.expiresAt > now {
      assert s.byDomain.vals[r.domain := r] == s.byDomain.vals;
    }
  }

  // ------------------------------------------------------------------ pool

  /** The probe loop of `next`, `attempts` turns from `cursor`: each turn looks the candidate up in the store,
      which drops it if expired and otherwise makes it the newest. */
  function Advance(cursor: nat, capacity: nat): (r: nat)
    requires cursor < capacity
    ensures r == if cursor + 1 == capacity then 0 else cursor + 1
  {
    (cursor + 1) % capacity
  }

  function Probe(s: Store, range: Range, cursor: nat, attempts: nat, now: int): (r: (Store, nat, Option<Ipv4>))
    requires range.Valid() && s.byDomain.Valid() && cursor < range.capacity
    decreases attempts
  {
    if attempts == 0 then (s, cursor, None)
    else
      var candidate := range.At(cursor);
      var (s', found) := GetByAddress(s, candidate, now);
      var next := Advance(cursor, range.capacity);
      if found.None? then (s', next, Some(candidate)) else Probe(s', range, next, attempts - 1, now)
  }

  // --------------------------------------------------------------- service

  datatype Service = Service(store: Store, cursor: nat)

  datatype Config = Config(range: Range, size: nat, ttlSeconds: nat)
  {
    /** The pool is no larger than the requested size, which is also the store's limit. */
    predicate Valid() {
      range.Valid() && range.capacity <= size
    }
  }

  function NewRecord(config: Config, domain: string, address: Ipv4, now: int): Record {
    Record(Lower(domain), address, now + config.ttlSeconds * 1000)
  }

  /** `assign`, at one instant */
  function Assign(config: Config, v: Service, domain: string, now: int): Result<(Service, Ipv4), string>
    requires config.Valid() && ServiceValid(config, v)
  {
    var normalized := Lower(domain);
    var (s1, existing) := GetByDomain(v.store, normalized, now);
    if existing.Some? then Ok((v.(store := s1), existing.value.address))
    else
      LookedUp(config, v, normalized, now);
      var probed := Probe(s1, config.range, v.cursor, config.range.capacity, now);
      var (s2, cursor, free) := probed;
      assert Mutual(s2) && cursor < config.range.capacity by {
        ProbeKeeps(s1, config.range, v.cursor, config.range.capacity, now, probed);
      }
      if free.None? && Oldest(s2).None? then Err("fake-ip pool is exhausted")
      else
        var address := if free.Some? then free.value else Oldest(s2).value.address;
        var s3 := if free.Some? then s2 else Remove(s2, Oldest(s2).value);
        var record := NewRecord(config, domain, address, now);
        PutDomains(s3, record);
        Ok((Service(TrimTo(Put(s3, record), config.size), cursor), address))
  }

  /** `reverse`, at one instant */
  function Reverse(v: Service, address: Ipv4, now: int): (Service, Option<string>)
    requires v.store.byDomain.Valid()
  {
    var (s, found) := GetByAddress(v.store, address, now);
    (v.(store := s), match found case None => None case Some(r) => Some(r.domain))
  }

  /** The invariant: inverse maps, every address in the pool, the cursor inside it. */
  ghost predicate ServiceValid(config: Config, v: Service) {
    && Mutual(v.store) && v.cursor < config.range.capacity
    && InPool(v.store, config.range)
  }

  ghost predicate InPool(s: Store, range: Range) {
    forall a :: a in s.byAddress ==> range.Contains(a)
  }

  lemma PutDomains(s: Store, r: Record)
    requires Mutual(s) || (s.byDomain.Valid() && forall d :: d in s.byDomain.vals ==> s.byDomain.vals[d].domain == d)
    ensures Put(s, r).byDomain.Valid()
    ensures forall d :: d in Put(s, r).byDomain.vals ==> Put(s, r).byDomain.vals[d].domain == d
  {
  }

  /** After looking up the domain in vain, the domain is not in the store. */
  lemma LookedUp(config: Config, v: Service, normalized: string, now: int)
    requires config.Valid() && ServiceValid(config, v)
    ensures var (s1, existing) := GetByDomain(v.store, normalized, now);
      && ServiceValid(config, v.(store := s1))
      && (existing.None? ==> normalized !in s1.byDomain.vals)
      && (existing.Some? ==> normalized in v.store.byDomain.vals && existing == Some(v.store.byDomain.vals[normalized])
                             && existing.value.expiresAt > now
                             && SameRecords(v.store, s1))
      && DropsExpiredOnly(v.store, s1, now)
  {
    if normalized in v.store.byDomain.vals {
      VisitKeeps(v.store, v.store.byDomain.vals[normalized], now);
    }
  }

  /** Records of `s` only, and all the live ones. */
  ghost predicate DropsExpiredOnly(s: Store, s': Store, now: int) {
    && (forall a :: a in s'.byAddress ==> a in s.byAddress && s'.byAddress[a] == s.byAddress[a])
    && (forall a :: a in s.byAddress && s.byAddress[a].expiresAt > now ==> a in s'.byAddress)
  }

  ghost predicate SameRecords(s: Store, s': Store) {
    s'.byAddress == s.byAddress && s'.byDomain.vals == s.byDomain.vals
  }

  /** One turn of the probe loop. */
  lemma AddressLookedUp(s: Store, address: Ipv4, now: int)
    requires Mutual(s)
    ensures var (s1, found) := GetByAddress(s, address, now);
      && Mutual(s1) && DropsExpiredOnly(s, s1, now)
      && (found.None? ==> address !in s1.byAddress)
      && (found.Some? ==> address in s.byAddress && found.value == s.byAddress[address] && found.value.expiresAt > now
                            && SameRecords(s, s1)
                            && s1.byDomain.keys == Without(s.byDomain.keys, found.value.domain) + [found.value.domain])
  {
    if address in s.byAddress {
      VisitKeeps(s, s.byAddress[address], now);
    }
  }

  /** What a run of the probe loop from `s` leaves behind. */
  ghost predicate ProbedTo(s: Store, range: Range, now: int, r: (Store, nat, Option<Ipv4>)) {
    && Mutual(r.0) && r.1 < range.capacity && DropsExpiredOnly(s, r.0, now)
    && (match r.2
        case Some(address) => range.Contains(address) && address !in r.0.byAddress
        case None => SameRecords(s, r.0))
  }

  lemma ProbedOn(s: Store, s1: Store, range: Range, now: int, r: (Store, nat, Option<Ipv4>))
    requires DropsExpiredOnly(s, s1, now) && SameRecords(s, s1) && ProbedTo(s1, range, now, r)
    ensures ProbedTo(s, range, now, r)
  {
  }

  /** One turn of the probe loop, as `Probe` puts it. */
  lemma ProbeStep(s: Store, range: Range, cursor: nat, attempts: nat, now: int, s1: Store, found: Option<Record>,
                  next: nat, left: nat)
    requires range.Valid() && s.byDomain.Valid() && s1.byDomain.Valid()
    requires cursor < range.capacity && attempts == left + 1
    requires (s1, found) == GetByAddress(s, range.At(cursor), now) && next == Advance(cursor, range.capacity)
    ensures found.None? ==> Probe(s, range, cursor, attempts, now) == (s1, next, Some(range.At(cursor)))
    ensures found.Some? ==> Probe(s, range, cursor, attempts, now) == Probe(s1, range, next, left, now)
  {
  }

  /** Probing drops expired records only; it stops at an address that is free, or has found them all live. */
  lemma {:induction false} ProbeKeeps(s: Store, range: Range, cursor: nat, attempts: nat, now: int,
                                      r: (Store, nat, Option<Ipv4>))
    requires range.Valid() && Mutual(s) && cursor < range.capacity
    requires r == Probe(s, range, cursor, attempts, now)
    ensures ProbedTo(s, range, now, r)
    decreases attempts
  {
    if attempts > 0 {
      var (s1, found) := GetByAddress(s, range.At(cursor), now);
      var next, left: nat := Advance(cursor, range.capacity), attempts - 1;
      ProbedOnce(s, range, cursor, now, s1, found);
      ProbeStep(s, range, cursor, attempts, now, s1, found, next, left);
      if found.Some? {
        ProbeKeeps(s1, range, next, left, now, r);
        ProbedOn(s, s1, range, now, r);
      }
    }
  }

  lemma ProbedOnce(s: Store, range: Range, cursor: nat, now: int, s1: Store, found: Option<Record>)
    requires range.Valid() && Mutual(s) && cursor < range.capacity
    requires (s1, found) == GetByAddress(s, range.At(cursor), now)
    ensures found.None? ==> ProbedTo(s, range, now, (s1, Advance(cursor, range.capacity), Some(range.At(cursor))))
    ensures found.Some? ==> DropsExpiredOnly(s, s1, now) && SameRecords(s, s1)
    ensures Mutual(s1)
  {
    AtIsOffset(range, cursor);
    AddressLookedUp(s, range.At(cursor), now);
  }
}
