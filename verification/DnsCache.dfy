/** The two caches of `DNSGeneration` (`src/dns/generation.ts`), and the single recency list they amount to. */
module DnsCaches {
  import opened Common
  import opened OrderedMaps

  datatype Source = System | Udp | Doh

  /** A positive or a negative entry; `data` is the address of the one and the message of the other. */
  datatype Entry = Entry(
    host: string,
    data: string,
    expiresAt: int,
    touchedAt: int,
    source: Source,
    sensitive: bool,
    synthetic: bool)

  /** `toLowerCase`, for ASCII letters. */
  function LowerChar(c: char): char {
    if 'A' <= c <= 'Z' then ((c as int) + 32) as char else c
  }

  function Lower(s: string): (r: string)
    ensures |r| == |s| && forall i :: 0 <= i < |s| ==> r[i] == LowerChar(s[i])
  {
    seq(|s|, i requires 0 <= i < |s| => LowerChar(s[i]))
  }

  lemma LowerTwice(s: string)
    ensures Lower(Lower(s)) == Lower(s)
  {
  }

  type EntryMap = OrderedMap<string, Entry>

  datatype Cache = Cache(positive: EntryMap, negative: EntryMap)

  const EMPTY: Cache := Cache(OrderedMap([], map[]), OrderedMap([], map[]))

  /** Entries are filed under their own host, which is in lower case. */
  ghost predicate FiledByHost(m: EntryMap) {
    && m.Valid()
    && forall k :: k in m.vals ==> m.vals[k].host == k && Lower(k) == k
  }

  ghost predicate Valid(c: Cache) {
    && FiledByHost(c.positive) && FiledByHost(c.negative)
    && (forall k :: k in c.positive.vals ==> k !in c.negative.vals)
  }

  function Total(c: Cache): nat {
    c.positive.Size() + c.negative.Size()
  }

  // ------------------------------------------------------------ operations

  /** `getPositive` / `getNegative` on one map: an expired entry goes, a live one becomes the newest. */
  function Lookup(m: EntryMap, host: string, now: int): (r: (EntryMap, Option<Entry>))
    requires m.Valid()
    ensures r.0.Valid()
  {
    var key := Lower(host);
    match m.Get(key)
    case None => (m, None)
    case Some(entry) =>
      if entry.expiresAt <= now then (m.Delete(key), None)
      else
        var touched := entry.(touchedAt := now);
        (m.Renew(key, touched), Some(touched))
  }

  function GetPositive(c: Cache, host: string, now: int): (Cache, Option<Entry>)
    requires c.positive.Valid()
  {
    var (m, found) := Lookup(c.positive, host, now);
    (c.(positive := m), found)
  }

  function GetNegative(c: Cache, host: string, now: int): (Cache, Option<Entry>)
    requires c.negative.Valid()
  {
    var (m, found) := Lookup(c.negative, host, now);
    (c.(negative := m), found)
  }

  /** One turn of `trimCache`: the older of the two first entries goes, the positive one on a tie. */
  function TrimOne(c: Cache): (c': Cache)
    requires Valid(c) && Total(c) > 0
    ensures Valid(c') && Total(c') == Total(c) - 1
  {
    var p, n := c.positive.Values(), c.negative.Values();
    if n == [] || (p != [] && p[0].touchedAt <= n[0].touchedAt) then
      DropFirst(c.positive);
      c.(positive := c.positive.Delete(p[0].host))
    else
      DropFirst(c.negative);
      c.(negative := c.negative.Delete(n[0].host))
  }

  /** Deleting the first entry by its own host removes just that entry: this is why the trim loop ends. */
  lemma DropFirst(m: EntryMap)
    requires FiledByHost(m) && m.Size() > 0
    ensures var m' := m.Delete(m.Values()[0].host);
      && FiledByHost(m') && m'.keys == m.keys[1..] && m'.Values() == m.Values()[1..]
      && (forall k :: k in m'.vals ==> k in m.vals)
  {
    assert m.keys[0] in m.vals;
    WithoutHead(m.keys);
  }

  function Trim(c: Cache, maxEntries: nat): (c': Cache)
    requires Valid(c)
    ensures Valid(c')
    decreases Total(c)
  {
    if Total(c) > maxEntries then Trim(TrimOne(c), maxEntries) else c
  }

  function Filed(entry: Entry): Entry {
    entry.(host := Lower(entry.host))
  }

  function PutPositive(c: Cache, entry: Entry): (c': Cache)
    requires Valid(c)
    ensures Valid(c')
  {
    var key := Lower(entry.host);
    LowerTwice(entry.host);
    Cache(c.positive.Renew(key, Filed(entry)), c.negative.Delete(key))
  }

  function PutNegative(c: Cache, entry: Entry): (c': Cache)
    requires Valid(c)
    ensures Valid(c')
  {
    var key := Lower(entry.host);
    LowerTwice(entry.host);
    Cache(c.positive.Delete(key), c.negative.Renew(key, Filed(entry)))
  }

  function SetPositive(c: Cache, entry: Entry, maxEntries: nat): (c': Cache)
    requires Valid(c)
    ensures Valid(c')
  {
    Trim(PutPositive(c, entry), maxEntries)
  }

  function SetNegative(c: Cache, entry: Entry, maxEntries: nat): (c': Cache)
    requires Valid(c)
    ensures Valid(c')
  {
    Trim(PutNegative(c, entry), maxEntries)
  }

  // -------------------------------------------------------------- the class

  class DNSGeneration {
    const id: string
    const maxEntries: nat
    var positiveCache: EntryMap
    var negativeCache: EntryMap
    var queryRefs: nat
    var inFlight: nat
    var draining: bool

    ghost function Contents(): Cache
      reads this
    {
      Cache(positiveCache, negativeCache)
    }

    ghost predicate Wf()
      reads this
    {
      Valid(Contents())
    }

    constructor (id: string, maxEntries: nat)
      ensures this.id == id && this.maxEntries == maxEntries
      ensures Wf() && Contents() == EMPTY && queryRefs == 0 && inFlight == 0 && !draining
    {
      this.id, this.maxEntries := id, maxEntries;
      positiveCache, negativeCache := OrderedMap([], map[]), OrderedMap([], map[]);
      queryRefs, inFlight, draining := 0, 0, false;
    }

    method ReadPositive(host: string, now: int) returns (found: Option<Entry>)
      requires Wf()
      modifies this`positiveCache
      ensures Wf() && (Contents(), found) == GetPositive(old(Contents()), host, now)
    {
      LookupKeeps(positiveCache, host, now);
      var normalized := Lower(host);
      var entry := positiveCache.Get(normalized);
      if entry.None? {
        return None;
      }
      if entry.value.expiresAt <= now {
        positiveCache := positiveCache.Delete(normalized);
        return None;
      }
      var touched := entry.value.(touchedAt := now);
      positiveCache := positiveCache.Renew(normalized, touched);
      return Some(touched);
    }

    method ReadNegative(host: string, now: int) returns (found: Option<Entry>)
      requires Wf()
      modifies this`negativeCache
      ensures Wf() && (Contents(), found) == GetNegative(old(Contents()), host, now)
    {
      LookupKeeps(negativeCache, host, now);
      var normalized := Lower(host);
      var entry := negativeCache.Get(normalized);
      if entry.None? {
        return None;
      }
      if entry.value.expiresAt <= now {
        negativeCache := negativeCache.Delete(normalized);
        return None;
      }
      var touched := entry.value.(touchedAt := now);
      negativeCache := negativeCache.Renew(normalized, touched);
      return Some(touched);
    }

    method WritePositive(entry: Entry)
      requires Wf()
      modifies this`positiveCache, this`negativeCache
      ensures Wf() && Contents() == SetPositive(old(Contents()), entry, maxEntries)
    {
      LowerTwice(entry.host);
      var normalized := Lower(entry.host);
      negativeCache := negativeCache.Delete(normalized);
      positiveCache := positiveCache.Delete(normalized);
      positiveCache := positiveCache.Put(normalized, entry.(host := normalized));
      assert Contents() == PutPositive(old(Contents()), entry);
      TrimCache();
    }

    method WriteNegative(entry: Entry)
      requires Wf()
      modifies this`positiveCache, this`negativeCache
      ensures Wf() && Contents() == SetNegative(old(Contents()), entry, maxEntries)
    {
      LowerTwice(entry.host);
      var normalized := Lower(entry.host);
      positiveCache := positiveCache.Delete(normalized);
      negativeCache := negativeCache.Delete(normalized);
      negativeCache := negativeCache.Put(normalized, entry.(host := normalized));
      assert Contents() == PutNegative(old(Contents()), entry);
      TrimCache();
    }

    /** `trimCache` */
    method TrimCache()
      requires Wf()
      modifies this`positiveCache, this`negativeCache
      ensures Wf() && Contents() == Trim(old(Contents()), maxEntries)
    {
      while positiveCache.Size() + negativeCache.Size() > maxEntries
        invariant Wf() && Trim(Contents(), maxEntries) == Trim(old(Contents()), maxEntries)
        decreases positiveCache.Size() + negativeCache.Size()
      {
        ghost var next := TrimOne(Contents());
        var p, n := positiveCache.Values(), negativeCache.Values();
        if |p| == 0 && |n| == 0 {
          return;
        }
        if |n| == 0 || (|p| != 0 && p[0].touchedAt <= n[0].touchedAt) {
          if |p| != 0 {
            positiveCache := positiveCache.Delete(p[0].host);
          }
        } else {
          negativeCache := negativeCache.Delete(n[0].host);
        }
        assert Contents() == next;
      }
    }

    method BeginQuery()
      modifies this`queryRefs
      ensures queryRefs == old(queryRefs) + 1
    {
      queryRefs := queryRefs + 1;
    }

    method EndQuery()
      modifies this`queryRefs
      ensures queryRefs == if old(queryRefs) > 0 then old(queryRefs) - 1 else 0
    {
      queryRefs := if queryRefs > 0 then queryRefs - 1 else 0;
    }

    method MarkDraining()
      modifies this`draining
      ensures draining
    {
      draining := true;
    }

    method MarkActive()
      modifies this`draining
      ensures !draining
    {
      draining := false;
    }

    predicate IsReleasable()
      reads this
    {
      draining && queryRefs == 0 && inFlight == 0
    }
  }

  lemma LookupKeeps(m: EntryMap, host: string, now: int)
    requires FiledByHost(m)
    ensures var m' := Lookup(m, host, now).0;
      FiledByHost(m') && (forall k :: k in m'.vals ==> k in m.vals) && m'.Size() <= m.Size()
  {
    WithoutLength(m.keys, Lower(host));
  }
}
