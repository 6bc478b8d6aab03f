/** The two insertion-ordered maps of a DNS generation are one bounded list ordered by last use. */
module DnsRecency {
  import opened Common
  import opened OrderedMaps
  import opened DnsCaches

  /** An entry together with the map it is in. */
  datatype Slot = Slot(negative: bool, entry: Entry)

  /** Both lists merged by time of last use, positive entries first on ties. */
  function Merge(p: seq<Entry>, n: seq<Entry>): (r: seq<Slot>)
    ensures |r| == |p| + |n|
    decreases |p| + |n|
  {
    if p == [] && n == [] then []
    else if n == [] || (p != [] && p[0].touchedAt <= n[0].touchedAt) then [Slot(false, p[0])] + Merge(p[1..], n)
    else [Slot(true, n[0])] + Merge(p, n[1..])
  }

  /** The cache as one list, least recently used first. */
  function Recency(c: Cache): (r: seq<Slot>)
    requires Valid(c)
    ensures |r| == Total(c)
  {
    Merge(c.positive.Values(), c.negative.Values())
  }

  // ------------------------------------------------------------- the reference

  /** The list without the entries of one host. */
  function Forget(s: seq<Slot>, host: string): seq<Slot> {
    if s == [] then []
    else if s[0].entry.host == host then Forget(s[1..], host)
    else [s[0]] + Forget(s[1..], host)
  }

  /** At most `size` entries, the newest ones. */
  function Newest(s: seq<Slot>, size: nat): seq<Slot> {
    if |s| <= size then s else s[|s| - size..]
  }

  /** The slot of a host in one of the maps. */
  function Find(s: seq<Slot>, host: string, negative: bool): Option<Entry> {
    if s == [] then None
    else if s[0].entry.host == host && s[0].negative == negative then Some(s[0].entry)
    else Find(s[1..], host, negative)
  }

  function LruGet(s: seq<Slot>, host: string, negative: bool, now: int): seq<Slot> {
    match Find(s, host, negative)
    case None => s
    case Some(e) =>
      if e.expiresAt <= now then Forget(s, host)
      else Forget(s, host) + [Slot(negative, e.(touchedAt := now))]
  }

  function LruSet(s: seq<Slot>, slot: Slot, size: nat): seq<Slot> {
    Newest(Forget(s, slot.entry.host) + [slot], size)
  }

  // --------------------------------------------------------- time of last use

  ghost predicate Sorted(s: seq<Entry>) {
    forall i, j :: 0 <= i <= j < |s| ==> s[i].touchedAt <= s[j].touchedAt
  }

  /** Nothing was used later than `t`. */
  ghost predicate UsedBy(s: seq<Entry>, t: int) {
    forall i :: 0 <= i < |s| ==> s[i].touchedAt <= t
  }

  /** Both maps are in order of last use, none later than `t`. */
  ghost predicate InOrder(c: Cache, t: int)
    requires Valid(c)
  {
    && Sorted(c.positive.Values()) && UsedBy(c.positive.Values(), t)
    && Sorted(c.negative.Values()) && UsedBy(c.negative.Values(), t)
  }

  // ------------------------------------------------------ lists and their maps

  /** The list without the entries of one host, on one map's values. */
  function Drop(s: seq<Entry>, host: string): (r: seq<Entry>)
    ensures forall e :: e in r ==> e in s
  {
    if s == [] then []
    else if s[0].host == host then Drop(s[1..], host)
    else [s[0]] + Drop(s[1..], host)
  }

  lemma {:induction false} DropSorted(s: seq<Entry>, host: string)
    requires Sorted(s)
    ensures Sorted(Drop(s, host))
  {
    if s != [] {
      DropSorted(s[1..], host);
      var r := Drop(s[1..], host);
      forall i | 0 <= i < |r| ensures s[0].touchedAt <= r[i].touchedAt {
        assert r[i] in s[1..];
      }
    }
  }

  /** The values listed under some of a map's keys. */
  function Listed(keys: seq<string>, vals: map<string, Entry>): (r: seq<Entry>)
    requires forall k :: k in keys ==> k in vals
    ensures |r| == |keys| && forall i :: 0 <= i < |keys| ==> r[i] == vals[keys[i]]
  {
    seq(|keys|, i requires 0 <= i < |keys| => assert keys[i] in keys; vals[keys[i]])
  }

  lemma ListedHead(keys: seq<string>, vals: map<string, Entry>)
    requires keys != [] && forall x :: x in keys ==> x in vals
    ensures Listed(keys, vals) == [vals[keys[0]]] + Listed(keys[1..], vals)
  {
  }

  lemma {:induction false} ListedWithout(keys: seq<string>, vals: map<string, Entry>, k: string)
    requires forall x :: x in keys ==> x in vals && vals[x].host == x
    ensures forall x :: x in Without(keys, k) ==> x in keys && x != k
    ensures Listed(Without(keys, k), vals) == Drop(Listed(keys, vals), k)
  {
    WithoutElements(keys, k);
    if keys == [] {
      assert Listed(keys, vals) == [];
    } else {
      hide Listed;
      ListedHead(keys, vals);
      ListedWithout(keys[1..], vals, k);
      if keys[0] != k {
        assert Without(keys, k)[1..] == Without(keys[1..], k);
        ListedHead(Without(keys, k), vals);
      }
    }
  }

  /** What `delete` and `delete`-then-`set` do to the list of values. */
  lemma ValuesAfter(m: EntryMap, k: string, e: Entry)
    requires FiledByHost(m)
    ensures m.Delete(k).Values() == Drop(m.Values(), k)
    ensures m.Renew(k, e).Values() == Drop(m.Values(), k) + [e]
  {
    var w := Without(m.keys, k);
    ListedWithout(m.keys, m.vals, k);
    assert m.Values() == Listed(m.keys, m.vals);
    assert m.Delete(k).Values() == Listed(w, m.vals);
    assert m.Renew(k, e).Values() == Listed(w, m.vals) + [e];
  }

  // ------------------------------------------------------ merging and deleting

  /** Deleting from sorted lists and merging commute. */
  lemma {:induction false} MergeDrop(p: seq<Entry>, n: seq<Entry>, host: string)
    requires Sorted(p) && Sorted(n)
    ensures Merge(Drop(p, host), Drop(n, host)) == Forget(Merge(p, n), host)
    decreases |p| + |n|
  {
    if p == [] && n == [] {
    } else if n == [] || (p != [] && p[0].touchedAt <= n[0].touchedAt) {
      MergeDrop(p[1..], n, host);
      assert Merge(p, n)[1..] == Merge(p[1..], n);
      if p[0].host != host {
        MergeTakesPositive(p[0], Drop(p[1..], host), Drop(n, host), n);
      }
    } else {
      MergeDrop(p, n[1..], host);
      assert Merge(p, n)[1..] == Merge(p, n[1..]);
      if n[0].host != host {
        MergeTakesNegative(Drop(p, host), n[0], Drop(n[1..], host), p);
      }
    }
  }

  lemma MergeTakesPositive(e: Entry, p: seq<Entry>, n: seq<Entry>, all: seq<Entry>)
    requires all == [] || (Sorted(all) && e.touchedAt <= all[0].touchedAt)
    requires forall x :: x in n ==> x in all
    ensures Merge([e] + p, n) == [Slot(false, e)] + Merge(p, n)
  {
    if n != [] {
      assert n[0] in all;
    }
    assert ([e] + p)[1..] == p;
  }

  lemma MergeTakesNegative(p: seq<Entry>, e: Entry, n: seq<Entry>, all: seq<Entry>)
    requires all == [] || (Sorted(all) && e.touchedAt < all[0].touchedAt)
    requires forall x :: x in p ==> x in all
    ensures Merge(p, [e] + n) == [Slot(true, e)] + Merge(p, n)
  {
    if p != [] {
      assert p[0] in all;
    }
    assert ([e] + n)[1..] == n;
  }

  /** An entry used later than everything else goes to the end; a negative one also on a tie. */
  lemma {:induction false} MergeSnoc(p: seq<Entry>, n: seq<Entry>, slot: Slot)
    requires forall x :: x in p ==> x.touchedAt <= slot.entry.touchedAt
    requires forall x :: x in n ==> x.touchedAt <= slot.entry.touchedAt
    requires !slot.negative ==> forall x :: x in n ==> x.touchedAt < slot.entry.touchedAt
    ensures Merge(if slot.negative then p else p + [slot.entry], if slot.negative then n + [slot.entry] else n)
         == Merge(p, n) + [slot]
    decreases |p| + |n|
  {
    var p' := if slot.negative then p else p + [slot.entry];
    var n' := if slot.negative then n + [slot.entry] else n;
    if p == [] && n == [] {
      assert Merge(p'[if slot.negative then 0 else 1..], n'[if slot.negative then 1 else 0..]) == [];
    } else if n == [] || (p != [] && p[0].touchedAt <= n[0].touchedAt) {
      MergeSnoc(p[1..], n, slot);
      assert p'[1..] == if slot.negative then p[1..] else p[1..] + [slot.entry];
    } else {
      MergeSnoc(p, n[1..], slot);
      assert n'[1..] == if slot.negative then n[1..] + [slot.entry] else n[1..];
    }
  }

  /** The merge of sorted lists is sorted. */
  lemma {:induction false} MergeSorted(p: seq<Entry>, n: seq<Entry>, floor: int)
    requires Sorted(p) && Sorted(n)
    requires forall x :: x in p || x in n ==> floor <= x.touchedAt
    ensures forall i, j :: 0 <= i <= j < |Merge(p, n)| ==>
      floor <= Merge(p, n)[i].entry.touchedAt <= Merge(p, n)[j].entry.touchedAt
    decreases |p| + |n|
  {
    if p == [] && n == [] {
    } else if n == [] || (p != [] && p[0].touchedAt <= n[0].touchedAt) {
      MergeSorted(p[1..], n, p[0].touchedAt);
    } else {
      MergeSorted(p, n[1..], n[0].touchedAt);
    }
  }

  // ----------------------------------------------------------------- trimming

  lemma TrimOneDropsOldest(c: Cache)
    requires Valid(c) && Total(c) > 0
    ensures Recency(TrimOne(c)) == Recency(c)[1..]
  {
    if c.positive.Size() > 0 {
      DropFirst(c.positive);
    }
    if c.negative.Size() > 0 {
      DropFirst(c.negative);
    }
  }

  lemma NewestOfRest(s: seq<Slot>, size: nat)
    requires |s| > size
    ensures Newest(s[1..], size) == Newest(s, size)
  {
  }

  /** Trimming keeps the newest entries: what goes is a beginning of the recency list. */
  lemma {:induction false} TrimKeepsNewest(c: Cache, size: nat)
    requires Valid(c)
    ensures Recency(Trim(c, size)) == Newest(Recency(c), size)
    decreases Total(c)
  {
    if Total(c) > size {
      TrimOneDropsOldest(c);
      TrimKeepsNewest(TrimOne(c), size);
      NewestOfRest(Recency(c), size);
    }
  }

  /** In any cache kept in order of use, every evicted entry was last used no later than every kept one. */
  lemma EvictsOldest(c: Cache, size: nat, t: int, i: nat, j: nat)
    requires Valid(c) && InOrder(c, t)
    requires i < Total(c) - |Recency(Trim(c, size))| <= j < Total(c)
    ensures Recency(c)[i].entry.touchedAt <= Recency(c)[j].entry.touchedAt
    ensures Recency(Trim(c, size)) == Recency(c)[Total(c) - |Recency(Trim(c, size))|..]
  {
    hide Trim, Merge;
    TrimKeepsNewest(c, size);
    var p, n := c.positive.Values(), c.negative.Values();
    var floor := if p != [] && (n == [] || p[0].touchedAt <= n[0].touchedAt) then p[0].touchedAt else n[0].touchedAt;
    MergeSorted(p, n, floor);
  }

  // ------------------------------------------------------------- the operations

  lemma {:induction false} DropAbsent(s: seq<Entry>, host: string)
    requires forall e :: e in s ==> e.host != host
    ensures Drop(s, host) == s
  {
    if s != [] {
      DropAbsent(s[1..], host);
    }
  }

  /** A map's values carry their keys. */
  lemma HostsAreKeys(m: EntryMap)
    requires FiledByHost(m)
    ensures forall e :: e in m.Values() ==> e.host in m.vals && m.vals[e.host] == e
  {
    forall e | e in m.Values() ensures e.host in m.vals && m.vals[e.host] == e {
      var i :| 0 <= i < |m.Values()| && m.Values()[i] == e;
      assert m.keys[i] in m.vals;
    }
  }

  lemma {:induction false} DropWeakens(s: seq<Entry>, host: string, t: int)
    requires Sorted(s) && UsedBy(s, t)
    ensures Sorted(Drop(s, host)) && UsedBy(Drop(s, host), t)
  {
    DropSorted(s, host);
    var r := Drop(s, host);
    forall i | 0 <= i < |r| ensures r[i].touchedAt <= t {
      assert r[i] in s;
    }
  }

  lemma AppendOrdered(s: seq<Entry>, e: Entry, t: int)
    requires Sorted(s) && UsedBy(s, t) && t <= e.touchedAt
    ensures Sorted(s + [e]) && UsedBy(s + [e], e.touchedAt)
  {
  }

  /** Storing an entry moves its host to the end of the list: for a negative one whenever time does not go back,
      for a positive one if it has moved on. */
  lemma PutIsForgetAndAppend(c: Cache, entry: Entry, negative: bool, t: int)
    requires Valid(c) && InOrder(c, t)
    requires if negative then t <= entry.touchedAt else t < entry.touchedAt
    ensures Recency(if negative then PutNegative(c, entry) else PutPositive(c, entry))
         == Forget(Recency(c), Lower(entry.host)) + [Slot(negative, Filed(entry))]
  {
    var key, p, n := Lower(entry.host), c.positive.Values(), c.negative.Values();
    ValuesAfter(c.positive, key, Filed(entry));
    ValuesAfter(c.negative, key, Filed(entry));
    MergeDrop(p, n, key);
    DropWeakens(p, key, t);
    DropWeakens(n, key, t);
    MergeSnoc(Drop(p, key), Drop(n, key), Slot(negative, Filed(entry)));
  }

  lemma PutInOrder(c: Cache, entry: Entry, negative: bool, t: int)
    requires Valid(c) && InOrder(c, t) && t <= entry.touchedAt
    ensures InOrder(if negative then PutNegative(c, entry) else PutPositive(c, entry), entry.touchedAt)
  {
    var key := Lower(entry.host);
    ValuesAfter(c.positive, key, Filed(entry));
    ValuesAfter(c.negative, key, Filed(entry));
    DropWeakens(c.positive.Values(), key, t);
    DropWeakens(c.negative.Values(), key, t);
    AppendOrdered(Drop(if negative then c.negative.Values() else c.positive.Values(), key), Filed(entry), t);
  }

  lemma TrimOneInOrder(c: Cache, t: int)
    requires Valid(c) && InOrder(c, t) && Total(c) > 0
    ensures InOrder(TrimOne(c), t)
  {
    hide FiledByHost, Total;
    if c.positive.Size() > 0 {
      DropFirst(c.positive);
    }
    if c.negative.Size() > 0 {
      DropFirst(c.negative);
    }
  }

  lemma {:induction false} TrimInOrder(c: Cache, size: nat, t: int)
    requires Valid(c) && InOrder(c, t)
    ensures InOrder(Trim(c, size), t) && Total(Trim(c, size)) == if Total(c) > size then size else Total(c)
    decreases Total(c)
  {
    if Total(c) > size {
      TrimOneInOrder(c, t);
      TrimInOrder(TrimOne(c), size, t);
    }
  }

  /** Finding an entry in one of the maps is finding it in the list. */
  lemma {:induction false} FindInMerge(p: seq<Entry>, n: seq<Entry>, host: string, negative: bool)
    ensures Find(Merge(p, n), host, negative) == FindIn(if negative then n else p, host)
    decreases |p| + |n|
  {
    if p == [] && n == [] {
    } else if n == [] || (p != [] && p[0].touchedAt <= n[0].touchedAt) {
      FindInMerge(p[1..], n, host, negative);
      assert Merge(p, n)[1..] == Merge(p[1..], n);
    } else {
      FindInMerge(p, n[1..], host, negative);
      assert Merge(p, n)[1..] == Merge(p, n[1..]);
    }
  }

  function FindIn(s: seq<Entry>, host: string): Option<Entry> {
    if s == [] then None else if s[0].host == host then Some(s[0]) else FindIn(s[1..], host)
  }

  lemma {:induction false} FindInListed(keys: seq<string>, vals: map<string, Entry>, host: string)
    requires forall x :: x in keys ==> x in vals && vals[x].host == x
    ensures FindIn(Listed(keys, vals), host) == if host in keys then Some(vals[host]) else None
  {
    if keys != [] {
      assert keys[0] in keys;
      FindInListed(keys[1..], vals, host);
      assert Listed(keys, vals)[1..] == Listed(keys[1..], vals);
    }
  }

  /** The list of values after a lookup in one map. */
  lemma LookupShape(m: EntryMap, host: string, now: int)
    requires FiledByHost(m)
    ensures var (m', found) := Lookup(m, host, now);
      var key := Lower(host);
      && FiledByHost(m') && m'.Size() <= m.Size() && (forall k :: k in m'.vals ==> k in m.vals)
      && match FindIn(m.Values(), key)
         case None => key !in m.vals && m' == m && found.None?
         case Some(e) =>
           && key in m.vals
           && (if e.expiresAt <= now then m'.Values() == Drop(m.Values(), key) && found.None?
               else
                 && m'.Values() == Drop(m.Values(), key) + [e.(touchedAt := now)]
                 && found == Some(e.(touchedAt := now)))
  {
    var key := Lower(host);
    LookupKeeps(m, host, now);
    assert m.Values() == Listed(m.keys, m.vals);
    FindInListed(m.keys, m.vals, key);
    if key in m.vals {
      ValuesAfter(m, key, m.vals[key].(touchedAt := now));
    }
  }

  lemma LookupInOrder(m: EntryMap, host: string, t: int, now: int)
    requires FiledByHost(m) && Sorted(m.Values()) && UsedBy(m.Values(), t) && t <= now
    ensures var m' := Lookup(m, host, now).0;
      m'.Valid() && Sorted(m'.Values()) && UsedBy(m'.Values(), now)
  {
    var key := Lower(host);
    LookupShape(m, host, now);
    DropWeakens(m.Values(), key, t);
    match FindIn(m.Values(), key)
    case None =>
    case Some(e) => AppendOrdered(Drop(m.Values(), key), e.(touchedAt := now), t);
  }

  lemma GetInOrder(c: Cache, negative: bool, host: string, now: int, t: int)
    requires Valid(c) && InOrder(c, t) && t <= now
    ensures var c' := (if negative then GetNegative(c, host, now) else GetPositive(c, host, now)).0;
      Valid(c') && InOrder(c', now) && Total(c') <= Total(c)
  {
    var m := if negative then c.negative else c.positive;
    LookupShape(m, host, now);
    LookupInOrder(m, host, t, now);
  }

  /** `getPositive` and `getNegative` are the reference lookup, and give back the entry it finds. */
  lemma GetIsLruGet(c: Cache, host: string, negative: bool, t: int, now: int)
    requires Valid(c) && InOrder(c, t) && t < now
    ensures var (c', found) := if negative then GetNegative(c, host, now) else GetPositive(c, host, now);
      && Valid(c')
      && Recency(c') == LruGet(Recency(c), Lower(host), negative, now)
      && found == (match Find(Recency(c), Lower(host), negative)
                   case None => None
                   case Some(e) => if e.expiresAt <= now then None else Some(e.(touchedAt := now)))
  {
    var key, p, n := Lower(host), c.positive.Values(), c.negative.Values();
    LookupShape(if negative then c.negative else c.positive, host, now);
    FindInMerge(p, n, key, negative);
    match FindIn(if negative then n else p, key)
    case None =>
    case Some(e) =>
      OnlyInOneMap(c, key, negative);
      MergeDrop(p, n, key);
      if e.expiresAt > now {
        DropWeakens(p, key, t);
        DropWeakens(n, key, t);
        MergeSnoc(Drop(p, key), Drop(n, key), Slot(negative, e.(touchedAt := now)));
      }
  }

  /** A host in one map is not in the other. */
  lemma OnlyInOneMap(c: Cache, key: string, negative: bool)
    requires Valid(c) && key in (if negative then c.negative else c.positive).vals
    ensures var other := (if negative then c.positive else c.negative).Values(); Drop(other, key) == other
  {
    var other := if negative then c.positive else c.negative;
    HostsAreKeys(other);
    DropAbsent(other.Values(), key);
  }

  // --------------------------------------------------------------------- runs

  datatype Op = Get(negative: bool, host: string, now: int) | Set(negative: bool, entry: Entry)

  function TimeOf(op: Op): int {
    match op case Get(_, _, now) => now case Set(_, entry) => entry.touchedAt
  }

  function Apply(c: Cache, op: Op, size: nat): (c': Cache)
    requires Valid(c)
    ensures Valid(c')
  {
    match op
    case Get(negative, host, now) =>
      LookupKeeps(c.positive, host, now);
      LookupKeeps(c.negative, host, now);
      if negative then GetNegative(c, host, now).0 else GetPositive(c, host, now).0
    case Set(negative, entry) =>
      if negative then SetNegative(c, entry, size) else SetPositive(c, entry, size)
  }

  function LruApply(s: seq<Slot>, op: Op, size: nat): seq<Slot> {
    match op
    case Get(negative, host, now) => LruGet(s, Lower(host), negative, now)
    case Set(negative, entry) => LruSet(s, Slot(negative, Filed(entry)), size)
  }

  /** A cache after these operations. */
  function RunFrom(c: Cache, ops: seq<Op>, size: nat): (c': Cache)
    requires Valid(c)
    ensures Valid(c')
  {
    if ops == [] then c else Apply(RunFrom(c, ops[..|ops| - 1], size), ops[|ops| - 1], size)
  }

  /** An empty cache after these operations. */
  function Run(ops: seq<Op>, size: nat): (c: Cache)
    ensures Valid(c)
  {
    RunFrom(EMPTY, ops, size)
  }

  function LruRun(ops: seq<Op>, size: nat): seq<Slot> {
    if ops == [] then [] else LruApply(LruRun(ops[..|ops| - 1], size), ops[|ops| - 1], size)
  }

  ghost predicate ClockAdvances(ops: seq<Op>) {
    forall i, j :: 0 <= i < j < |ops| ==> TimeOf(ops[i]) < TimeOf(ops[j])
  }

  ghost predicate ClockNeverGoesBack(ops: seq<Op>) {
    forall i, j :: 0 <= i < j < |ops| ==> TimeOf(ops[i]) <= TimeOf(ops[j])
  }

  /** Over every run, whatever the clock does, no host is in both maps and the cache never outgrows its limit; and if
      the clock never goes back, both maps stay in order of use. */
  lemma {:induction false} RunStaysBounded(ops: seq<Op>, size: nat)
    ensures Total(Run(ops, size)) <= size
    ensures forall k :: k in Run(ops, size).positive.vals ==> k !in Run(ops, size).negative.vals
    ensures ClockNeverGoesBack(ops) && ops != [] ==> InOrder(Run(ops, size), TimeOf(ops[|ops| - 1]))
  {
    if ops != [] {
      var before, last := ops[..|ops| - 1], ops[|ops| - 1];
      hide Apply, InOrder, FiledByHost;
      RunStaysBounded(before, size);
      StaysBounded(Run(before, size), last, size);
      if ClockNeverGoesBack(ops) {
        assert ClockNeverGoesBack(before);
        RunStaysInOrder(before, last, size);
      }
    }
  }

  lemma StaysBounded(c: Cache, op: Op, size: nat)
    requires Valid(c) && Total(c) <= size
    ensures Total(Apply(c, op, size)) <= size
  {
    match op
    case Get(negative, host, now) => LookupShape(if negative then c.negative else c.positive, host, now);
    case Set(negative, entry) => TrimBounds(if negative then PutNegative(c, entry) else PutPositive(c, entry), size);
  }

  lemma {:induction false} TrimBounds(c: Cache, size: nat)
    requires Valid(c)
    ensures Total(Trim(c, size)) <= size
    decreases Total(c)
  {
    if Total(c) > size {
      TrimBounds(TrimOne(c), size);
    }
  }

  lemma RunStaysInOrder(before: seq<Op>, last: Op, size: nat)
    requires before != [] ==> InOrder(Run(before, size), TimeOf(before[|before| - 1]))
    requires before != [] ==> TimeOf(before[|before| - 1]) <= TimeOf(last)
    ensures InOrder(Apply(Run(before, size), last, size), TimeOf(last))
  {
    var c, t := Run(before, size), if before == [] then TimeOf(last) else TimeOf(before[|before| - 1]);
    assert InOrder(c, t);
    match last
    case Get(negative, host, now) =>
      GetInOrder(c, negative, host, now, t);
    case Set(negative, entry) =>
      PutInOrder(c, entry, negative, t);
      TrimInOrder(if negative then PutNegative(c, entry) else PutPositive(c, entry), size, entry.touchedAt);
  }

  /** Main result: with a clock that advances between operations, the two maps are one list kept by last use
      and cut to size, after every sequence of lookups and stores. */
  lemma {:induction false} TwoMapsAreOneLru(ops: seq<Op>, size: nat)
    requires ClockAdvances(ops)
    ensures Recency(Run(ops, size)) == LruRun(ops, size)
  {
    if ops != [] {
      var before, last := ops[..|ops| - 1], ops[|ops| - 1];
      var c, t := Run(before, size), if before == [] then TimeOf(last) - 1 else TimeOf(before[|before| - 1]);
      TwoMapsAreOneLru(before, size);
      RunStaysBounded(before, size);
      assert InOrder(c, t);
      match last
      case Get(negative, host, now) =>
        GetIsLruGet(c, host, negative, t, now);
      case Set(negative, entry) =>
        PutIsForgetAndAppend(c, entry, negative, t);
        TrimKeepsNewest(if negative then PutNegative(c, entry) else PutPositive(c, entry), size);
    }
  }

  // ------------------------------------------------------- the entry just set

  /** Whether a store into this cache will push the stored entry straight out again: there is no room at all, or a
      positive entry for a new host enters a full cache of negative entries none of which is older. */
  predicate PushedOutAtOnce(c: Cache, entry: Entry, negative: bool, size: nat)
    requires Valid(c)
  {
    var key := Lower(entry.host);
    size == 0
    || (!negative && Total(c) == size && c.positive.Size() == 0 && key !in c.negative.vals
        && entry.touchedAt <= c.negative.Values()[0].touchedAt)
  }

  /** The entry just stored is kept, exactly unless `PushedOutAtOnce`. */
  lemma StoredEntrySurvives(c: Cache, entry: Entry, negative: bool, size: nat, t: int)
    requires Valid(c) && InOrder(c, t) && t <= entry.touchedAt && Total(c) <= size
    ensures var kept := if negative then SetNegative(c, entry, size) else SetPositive(c, entry, size);
      Lower(entry.host) in (if negative then kept.negative else kept.positive).vals
      <==> !PushedOutAtOnce(c, entry, negative, size)
  {
    var put := if negative then PutNegative(c, entry) else PutPositive(c, entry);
    var key := Lower(entry.host);
    PutSizes(c, entry, negative);
    if Total(put) > size {
      assert Trim(put, size) == TrimOne(put);
      PutInOrder(c, entry, negative, t);
      FirstGoes(put, key, negative, entry);
    }
  }

  lemma PutSizes(c: Cache, entry: Entry, negative: bool)
    requires Valid(c)
    ensures var key := Lower(entry.host);
      var put := if negative then PutNegative(c, entry) else PutPositive(c, entry);
      var into := if negative then put.negative else put.positive;
      var other := if negative then put.positive else put.negative;
      && Total(put) == Total(c) + (if key in c.positive.vals || key in c.negative.vals then 0 else 1)
      && into.Size() > 0 && into.keys[into.Size() - 1] == key && into.Values()[into.Size() - 1] == Filed(entry)
      && (key !in c.positive.vals && key !in c.negative.vals ==>
            && other == (if negative then c.positive else c.negative)
            && into.Size() == (if negative then c.negative else c.positive).Size() + 1)
  {
    hide Without, Lower, Distinct;
    var key := Lower(entry.host);
    WithoutLength(c.positive.keys, key);
    WithoutLength(c.negative.keys, key);
    if key !in c.positive.vals && key !in c.negative.vals {
      WithoutAbsent(c.positive.keys, key);
      WithoutAbsent(c.negative.keys, key);
      assert c.positive.vals - {key} == c.positive.vals;
      assert c.negative.vals - {key} == c.negative.vals;
    }
  }

  /** One trim of a cache whose newest entry is the last of its map. */
  lemma FirstGoes(put: Cache, key: string, negative: bool, entry: Entry)
    requires Valid(put)
    requires var into := if negative then put.negative else put.positive;
      && into.Size() > 0 && into.keys[into.Size() - 1] == key && into.Values()[into.Size() - 1] == Filed(entry)
    requires InOrder(put, entry.touchedAt)
    ensures var into := if negative then put.negative else put.positive;
      var after := TrimOne(put);
      key in (if negative then after.negative else after.positive).vals
      <==> !(into.Size() == 1
             && if negative then put.positive.Size() == 0
                else put.negative.Size() == 0 || entry.touchedAt <= put.negative.Values()[0].touchedAt)
  {
    if negative {
      FirstNegativeGoes(put, key, entry);
    } else {
      FirstPositiveGoes(put, key, entry);
    }
  }

  lemma FirstPositiveGoes(put: Cache, key: string, entry: Entry)
    requires Valid(put) && put.positive.Size() > 0 && InOrder(put, entry.touchedAt)
    requires var p := put.positive; p.keys[p.Size() - 1] == key && p.Values()[p.Size() - 1] == Filed(entry)
    ensures key in TrimOne(put).positive.vals <==>
      put.positive.Size() > 1 || (put.negative.Size() > 0 && put.negative.Values()[0].touchedAt < entry.touchedAt)
  {
    hide Sorted;
    DropFirst(put.positive);
    KeyAtEnd(put.positive, key);
  }

  lemma FirstNegativeGoes(put: Cache, key: string, entry: Entry)
    requires Valid(put) && put.negative.Size() > 0 && InOrder(put, entry.touchedAt)
    requires var n := put.negative; n.keys[n.Size() - 1] == key && n.Values()[n.Size() - 1] == Filed(entry)
    ensures key in TrimOne(put).negative.vals <==> put.negative.Size() > 1 || put.positive.Size() > 0
  {
    hide Sorted;
    DropFirst(put.negative);
    KeyAtEnd(put.negative, key);
  }

  /** The last key survives the removal of the first one unless it is the only key. */
  lemma KeyAtEnd(m: EntryMap, key: string)
    requires m.Valid() && m.Size() > 0
    ensures m.keys[m.Size() - 1] == key ==> (key in m.keys[1..] <==> m.Size() > 1)
  {
    if m.Size() > 1 && m.keys[m.Size() - 1] == key {
      assert m.keys[1..][m.Size() - 2] == key;
    }
  }
}
