/** Rename detection in `diffOutboundConfigs` (`src/outbound/generationBuilder.ts`). */
module OutboundDiffs {
  import opened Common

  /** An outbound configuration: its tag, its type, and everything else. */
  datatype OutboundConfig = OutboundConfig(tag: string, kind: string, settings: map<string, string>)

  /** Equal but for the tag: equal types, and equal JSON without the tag. */
  predicate Alike(a: OutboundConfig, b: OutboundConfig) {
    a.kind == b.kind && a.settings == b.settings
  }

  datatype Rename = Rename(from: string, to: string, kind: string)

  datatype Diff = Diff(added: seq<string>, removed: seq<string>, renamed: seq<Rename>)

  type Configs = seq<OutboundConfig>
  type Pair = (OutboundConfig, OutboundConfig)

  function Tags(s: Configs): set<string> {
    set c | c in s :: c.tag
  }

  ghost predicate UniqueTags(s: Configs) {
    forall i, j :: 0 <= i < j < |s| ==> s[i].tag != s[j].tag
  }

  /** The configurations whose tags are not in a set, in order (`filter`). */
  function Missing(s: Configs, tags: set<string>): Configs {
    if s == [] then []
    else (if s[0].tag in tags then [] else [s[0]]) + Missing(s[1..], tags)
  }

  function TagList(s: Configs): (r: seq<string>)
    ensures |r| == |s| && forall i :: 0 <= i < |s| ==> r[i] == s[i].tag
  {
    seq(|s|, i requires 0 <= i < |s| => s[i].tag)
  }

  /** `find`: the first configuration not consumed that is alike. */
  function FindAlike(added: Configs, consumed: set<string>, c: OutboundConfig): Option<OutboundConfig> {
    if added == [] then None
    else if added[0].tag !in consumed && Alike(added[0], c) then Some(added[0])
    else FindAlike(added[1..], consumed, c)
  }

  /** The pairs the greedy loop makes, in order. */
  function Greedy(removed: Configs, added: Configs, consumed: set<string>): seq<Pair> {
    if removed == [] then []
    else match FindAlike(added, consumed, removed[0])
      case None => Greedy(removed[1..], added, consumed)
      case Some(replacement) =>
        [(removed[0], replacement)] + Greedy(removed[1..], added, consumed + {replacement.tag})
  }

  function Renames(pairs: seq<Pair>): (r: seq<Rename>)
    ensures |r| == |pairs|
  {
    seq(|pairs|, i requires 0 <= i < |pairs| => Rename(pairs[i].0.tag, pairs[i].1.tag, pairs[i].1.kind))
  }

  function Froms(pairs: seq<Pair>): set<string> {
    set p | p in pairs :: p.0.tag
  }

  function Tos(pairs: seq<Pair>): set<string> {
    set p | p in pairs :: p.1.tag
  }

  /** The part of the diff this is about, as a whole. */
  function DiffOf(current: Configs, candidate: Configs): Diff {
    var removed, added := Missing(current, Tags(candidate)), Missing(candidate, Tags(current));
    var pairs := Greedy(removed, added, {});
    Diff(TagList(Missing(added, Tos(pairs))), TagList(Missing(removed, Froms(pairs))), Renames(pairs))
  }

  // -------------------------------------------------------------- the loops

  method Find(added: Configs, consumed: set<string>, c: OutboundConfig) returns (r: Option<OutboundConfig>)
    ensures r == FindAlike(added, consumed, c)
  {
    var i := 0;
    while i < |added|
      invariant 0 <= i <= |added|
      invariant FindAlike(added, consumed, c) == FindAlike(added[i..], consumed, c)
    {
      if added[i].tag !in consumed && Alike(added[i], c) {
        return Some(added[i]);
      }
      assert added[i..][1..] == added[i + 1..];
      i := i + 1;
    }
    return None;
  }

  method DiffOutboundConfigs(current: Configs, candidate: Configs) returns (diff: Diff)
    ensures diff == DiffOf(current, candidate)
  {
    var removedCandidates := Missing(current, Tags(candidate));
    var addedCandidates := Missing(candidate, Tags(current));
    ghost var all := Greedy(removedCandidates, addedCandidates, {});
    var renamed: seq<Rename> := [];
    var consumedAdded: set<string>, consumedRemoved: set<string> := {}, {};
    ghost var done: seq<Pair> := [];
    var i := 0;
    assert removedCandidates[0..] == removedCandidates;
    while i < |removedCandidates|
      invariant 0 <= i <= |removedCandidates|
      invariant all == done + Greedy(removedCandidates[i..], addedCandidates, consumedAdded)
      invariant renamed == Renames(done) && consumedAdded == Tos(done) && consumedRemoved == Froms(done)
    {
      var oldConfig := removedCandidates[i];
      var replacement := Find(addedCandidates, consumedAdded, oldConfig);
      assert removedCandidates[i..][1..] == removedCandidates[i + 1..];
      if replacement.Some? {
        ghost var pair := (oldConfig, replacement.value);
        OnePairMore(done, pair,
                    Greedy(removedCandidates[i + 1..], addedCandidates, consumedAdded + {replacement.value.tag}));
        consumedRemoved := consumedRemoved + {oldConfig.tag};
        consumedAdded := consumedAdded + {replacement.value.tag};
        renamed := renamed + [Rename(oldConfig.tag, replacement.value.tag, replacement.value.kind)];
        done := done + [pair];
      }
      i := i + 1;
    }
    assert done + [] == done;
    diff := Diff(TagList(Missing(addedCandidates, consumedAdded)),
                 TagList(Missing(removedCandidates, consumedRemoved)), renamed);
  }

  lemma OnePairMore(done: seq<Pair>, p: Pair, rest: seq<Pair>)
    ensures done + ([p] + rest) == (done + [p]) + rest
    ensures Renames(done + [p]) == Renames(done) + [Rename(p.0.tag, p.1.tag, p.1.kind)]
    ensures Froms(done + [p]) == Froms(done) + {p.0.tag} && Tos(done + [p]) == Tos(done) + {p.1.tag}
  {
    forall t | t in Froms(done) ensures t in Froms(done + [p]) {
      var q :| q in done && q.0.tag == t;
      assert q in done + [p];
    }
    forall t | t in Tos(done) ensures t in Tos(done + [p]) {
      var q :| q in done && q.1.tag == t;
      assert q in done + [p];
    }
    assert p in done + [p];
  }

  // ------------------------------------------------------------- partition

  lemma {:induction false} MissingSelects(s: Configs, tags: set<string>)
    ensures forall c :: c in Missing(s, tags) <==> c in s && c.tag !in tags
    ensures UniqueTags(s) ==> UniqueTags(Missing(s, tags))
  {
    if s != [] {
      MissingSelects(s[1..], tags);
      assert s == [s[0]] + s[1..];
      var rest := Missing(s[1..], tags);
      if UniqueTags(s) {
        forall i | 0 <= i < |rest| ensures rest[i].tag != s[0].tag {
          assert rest[i] in s[1..];
        }
      }
    }
  }

  /** What one pass of the greedy loop guarantees: the pairs are alike, from the lists given, and no configuration
      is in two of them. */
  lemma {:induction false} GreedyPairs(removed: Configs, added: Configs, consumed: set<string>)
    returns (pairs: seq<Pair>)
    requires UniqueTags(removed) && UniqueTags(added)
    ensures pairs == Greedy(removed, added, consumed)
    ensures forall p :: p in pairs ==> p.0 in removed && p.1 in added && p.1.tag !in consumed && Alike(p.0, p.1)
    ensures forall i, j :: 0 <= i < j < |pairs| ==> pairs[i].0.tag != pairs[j].0.tag && pairs[i].1.tag != pairs[j].1.tag
  {
    if removed == [] {
      return [];
    }
    var first, later := removed[0], removed[1..];
    assert removed == [first] + later;
    FoundIsFirst(added, consumed, first);
    var found := FindAlike(added, consumed, first);
    if found.None? {
      pairs := GreedyPairs(later, added, consumed);
      return;
    }
    var rest := GreedyPairs(later, added, consumed + {found.value.tag});
    pairs := [(first, found.value)] + rest;
    forall j | 0 <= j < |rest| ensures rest[j].0.tag != first.tag && rest[j].1.tag != found.value.tag {
      assert rest[j] in rest && rest[j].0 in later;
    }
  }

  /** And no alike pair is left over. */
  lemma {:induction false} GreedyLeavesNone(removed: Configs, added: Configs, consumed: set<string>)
    returns (pairs: seq<Pair>)
    ensures pairs == Greedy(removed, added, consumed)
    ensures forall r, a ::
      r in removed && a in added && r.tag !in Froms(pairs) && a.tag !in Tos(pairs) && a.tag !in consumed ==>
        !Alike(r, a)
  {
    if removed == [] {
      return [];
    }
    var first, later := removed[0], removed[1..];
    assert removed == [first] + later;
    FoundIsFirst(added, consumed, first);
    var found := FindAlike(added, consumed, first);
    if found.None? {
      pairs := GreedyLeavesNone(later, added, consumed);
      return;
    }
    var rest := GreedyLeavesNone(later, added, consumed + {found.value.tag});
    PairInFront((first, found.value), rest);
    pairs := [(first, found.value)] + rest;
  }

  lemma PairInFront(p: Pair, rest: seq<Pair>)
    ensures Froms([p] + rest) == {p.0.tag} + Froms(rest) && Tos([p] + rest) == {p.1.tag} + Tos(rest)
  {
    var pairs := [p] + rest;
    assert p in pairs && forall q :: q in rest ==> q in pairs;
  }

  lemma {:induction false} FoundIsFirst(added: Configs, consumed: set<string>, c: OutboundConfig)
    ensures match FindAlike(added, consumed, c)
      case None => forall a :: a in added && a.tag !in consumed ==> !Alike(a, c)
      case Some(a) => a in added && a.tag !in consumed && Alike(a, c)
  {
    if added != [] {
      FoundIsFirst(added[1..], consumed, c);
      assert added == [added[0]] + added[1..];
    }
  }

  /** The tags the renames start from, and those they lead to. */
  function Sources(renamed: seq<Rename>): (r: seq<string>)
    ensures |r| == |renamed| && forall i :: 0 <= i < |r| ==> r[i] == renamed[i].from
  {
    seq(|renamed|, i requires 0 <= i < |renamed| => renamed[i].from)
  }

  function Targets(renamed: seq<Rename>): (r: seq<string>)
    ensures |r| == |renamed| && forall i :: 0 <= i < |r| ==> r[i] == renamed[i].to
  {
    seq(|renamed|, i requires 0 <= i < |renamed| => renamed[i].to)
  }

  /** Two lists hold every element of a set between them, each exactly once. */
  ghost predicate Partition(whole: set<string>, left: seq<string>, right: seq<string>) {
    Distinct(left) && Distinct(right) && ToSet(left) !! ToSet(right) && ToSet(left) + ToSet(right) == whole
  }

  /** Main result: for unique tags, the removed tags and the rename sources are exactly the current tags the
      candidate lacks, the added tags and the rename targets exactly the candidate tags that are new, without
      overlap or repetition. */
  lemma DiffPartitions(current: Configs, candidate: Configs)
    requires UniqueTags(current) && UniqueTags(candidate)
    ensures var d := DiffOf(current, candidate);
      && Partition(Tags(current) - Tags(candidate), d.removed, Sources(d.renamed))
      && Partition(Tags(candidate) - Tags(current), d.added, Targets(d.renamed))
  {
    var removed, added := Missing(current, Tags(candidate)), Missing(candidate, Tags(current));
    MissingSelects(current, Tags(candidate));
    MissingSelects(candidate, Tags(current));
    MissingTags(current, Tags(candidate), removed);
    MissingTags(candidate, Tags(current), added);
    var pairs := GreedyPairs(removed, added, {});
    SourcesOfPairs(pairs);
    TargetsOfPairs(pairs);
    EndsComeFrom(pairs, removed, added);
    Remainder(removed, Froms(pairs));
    Remainder(added, Tos(pairs));
  }

  lemma MissingTags(s: Configs, tags: set<string>, m: Configs)
    requires forall c :: c in m <==> c in s && c.tag !in tags
    ensures Tags(m) == Tags(s) - tags
  {
    forall t | t in Tags(s) - tags ensures t in Tags(m) {
      var c :| c in s && c.tag == t;
      assert c in m;
    }
  }

  lemma EndsComeFrom(pairs: seq<Pair>, removed: Configs, added: Configs)
    requires forall p :: p in pairs ==> p.0 in removed && p.1 in added
    ensures Froms(pairs) <= Tags(removed) && Tos(pairs) <= Tags(added)
  {
  }

  lemma SourcesOfPairs(pairs: seq<Pair>)
    requires forall i, j :: 0 <= i < j < |pairs| ==> pairs[i].0.tag != pairs[j].0.tag
    ensures var tags := Sources(Renames(pairs)); ToSet(tags) == Froms(pairs) && Distinct(tags)
  {
    var tags := Sources(Renames(pairs));
    forall t | t in Froms(pairs) ensures t in ToSet(tags) {
      var i :| 0 <= i < |pairs| && pairs[i].0.tag == t;
      assert tags[i] == t;
    }
    forall i | 0 <= i < |tags| ensures tags[i] in Froms(pairs) {
      assert pairs[i] in pairs;
    }
  }

  lemma TargetsOfPairs(pairs: seq<Pair>)
    requires forall i, j :: 0 <= i < j < |pairs| ==> pairs[i].1.tag != pairs[j].1.tag
    ensures var tags := Targets(Renames(pairs)); ToSet(tags) == Tos(pairs) && Distinct(tags)
  {
    var tags := Targets(Renames(pairs));
    forall t | t in Tos(pairs) ensures t in ToSet(tags) {
      var i :| 0 <= i < |pairs| && pairs[i].1.tag == t;
      assert tags[i] == t;
    }
    forall i | 0 <= i < |tags| ensures tags[i] in Tos(pairs) {
      assert pairs[i] in pairs;
    }
  }

  /** What is left of a list once some of its tags are taken out. */
  lemma Remainder(s: Configs, taken: set<string>)
    requires UniqueTags(s)
    ensures var left := TagList(Missing(s, taken));
      ToSet(left) == Tags(s) - taken && Distinct(left)
  {
    MissingSelects(s, taken);
    var m := Missing(s, taken);
    var left := TagList(m);
    forall t | t in Tags(s) - taken ensures t in ToSet(left) {
      var c :| c in s && c.tag == t;
      var i :| 0 <= i < |m| && m[i] == c;
      assert left[i] == t;
    }
    forall i | 0 <= i < |left| ensures left[i] in Tags(s) - taken {
      assert m[i] in m;
    }
  }

  // ------------------------------------------------------ who replaces whom

  /** Everything but the tags is the same. */
  ghost predicate SameButTag(a: OutboundConfig, b: OutboundConfig) {
    a.kind == b.kind && a.settings == b.settings
  }

  /** The removed configurations at places `p` were given the added ones at places `q`, first come, first served: the
      same but for the tag, and each tag once. An added configuration that would do for a removed one was taken before
      its turn, or it was given that one or an earlier one. */
  ghost predicate Served(removed: Configs, added: Configs, consumed: set<string>, p: seq<nat>, q: seq<nat>) {
    && |p| == |q| && Rising(p)
    && (forall i :: 0 <= i < |p| ==>
          && p[i] < |removed| && q[i] < |added|
          && SameButTag(removed[p[i]], added[q[i]]) && added[q[i]].tag !in consumed)
    && (forall i, j :: 0 <= i < j < |q| ==> added[q[i]].tag != added[q[j]].tag)
    && (forall m: nat, k: nat :: m < |removed| && k < |added| && SameButTag(removed[m], added[k]) ==>
          added[k].tag in consumed || TakenBefore(added, p, q, m, k) || GivenUpTo(p, q, m, k))
  }

  ghost predicate TakenBefore(added: Configs, p: seq<nat>, q: seq<nat>, m: nat, k: nat)
    requires |p| == |q| && k < |added| && forall j :: 0 <= j < |q| ==> q[j] < |added|
  {
    exists j :: 0 <= j < |p| && p[j] < m && added[q[j]].tag == added[k].tag
  }

  ghost predicate GivenUpTo(p: seq<nat>, q: seq<nat>, m: nat, k: nat)
    requires |p| == |q|
  {
    exists i :: 0 <= i < |p| && p[i] == m && q[i] <= k
  }

  lemma {:induction false} FoundAt(added: Configs, consumed: set<string>, c: OutboundConfig) returns (f: nat)
    ensures forall k: nat :: k < f && k < |added| && SameButTag(c, added[k]) ==> added[k].tag in consumed
    ensures match FindAlike(added, consumed, c)
      case None => f == |added|
      case Some(a) => f < |added| && added[f] == a && SameButTag(c, a) && a.tag !in consumed
  {
    if added == [] {
      return 0;
    }
    if added[0].tag !in consumed && Alike(added[0], c) {
      return 0;
    }
    f := FoundAt(added[1..], consumed, c);
    forall k: nat | k < f + 1 && k < |added| && SameButTag(c, added[k]) ensures added[k].tag in consumed {
      if k > 0 {
        assert added[1..][k - 1] == added[k];
      }
    }
    f := f + 1;
  }

  /** Pairs of what stands at these places. */
  ghost predicate PairsAt(pairs: seq<Pair>, removed: Configs, added: Configs, p: seq<nat>, q: seq<nat>) {
    && |pairs| == |p| == |q|
    && forall i :: 0 <= i < |p| ==> p[i] < |removed| && q[i] < |added| && pairs[i] == (removed[p[i]], added[q[i]])
  }

  lemma PairsLater(pairs: seq<Pair>, removed: Configs, added: Configs, p: seq<nat>, q: seq<nat>)
    requires removed != [] && PairsAt(pairs, removed[1..], added, p, q)
    ensures PairsAt(pairs, removed, added, Later(p), q)
  {
  }

  lemma PairsInFront(pairs: seq<Pair>, removed: Configs, added: Configs, p: seq<nat>, q: seq<nat>, f: nat)
    requires removed != [] && f < |added| && PairsAt(pairs, removed, added, p, q)
    ensures PairsAt([(removed[0], added[f])] + pairs, removed, added, [0] + p, [f] + q)
  {
  }

  /** The greedy loop serves in order. */
  lemma {:induction false} GreedyServes(removed: Configs, added: Configs, consumed: set<string>)
    returns (p: seq<nat>, q: seq<nat>)
    ensures Served(removed, added, consumed, p, q)
    ensures PairsAt(Greedy(removed, added, consumed), removed, added, p, q)
  {
    hide Served, FindAlike, PairsAt;
    if removed == [] {
      NobodyServed(added, consumed);
      return [], [];
    }
    var f := FoundAt(added, consumed, removed[0]);
    var found := FindAlike(added, consumed, removed[0]);
    if found.None? {
      p, q := GreedyServes(removed[1..], added, consumed);
      FirstGoesWithout(removed, added, consumed, p, q);
      PairsLater(Greedy(removed[1..], added, consumed), removed, added, p, q);
      p := Later(p);
    } else {
      var later := consumed + {added[f].tag};
      p, q := GreedyServes(removed[1..], added, later);
      FirstIsServed(removed, added, consumed, f, p, q);
      PairsLater(Greedy(removed[1..], added, later), removed, added, p, q);
      PairsInFront(Greedy(removed[1..], added, later), removed, added, Later(p), q, f);
      p, q := [0] + Later(p), [f] + q;
    }
  }

  lemma NobodyServed(added: Configs, consumed: set<string>)
    ensures Served([], added, consumed, [], []) && PairsAt([], [], added, [], [])
  {
  }

  lemma FirstGoesWithout(removed: Configs, added: Configs, consumed: set<string>, p: seq<nat>, q: seq<nat>)
    requires removed != [] && Served(removed[1..], added, consumed, p, q)
    requires forall k: nat :: k < |added| && SameButTag(removed[0], added[k]) ==> added[k].tag in consumed
    ensures Served(removed, added, consumed, Later(p), q)
  {
    var p' := Later(p);
    forall m: nat, k: nat | m < |removed| && k < |added| && SameButTag(removed[m], added[k])
      ensures added[k].tag in consumed || TakenBefore(added, p', q, m, k) || GivenUpTo(p', q, m, k)
    {
      if m > 0 {
        assert removed[1..][m - 1] == removed[m];
        OneLater(added, p, q, m - 1, k);
      }
    }
  }

  lemma OneLater(added: Configs, p: seq<nat>, q: seq<nat>, m: nat, k: nat)
    requires |p| == |q| && k < |added| && forall j :: 0 <= j < |q| ==> q[j] < |added|
    ensures TakenBefore(added, p, q, m, k) ==> TakenBefore(added, Later(p), q, m + 1, k)
    ensures GivenUpTo(p, q, m, k) ==> GivenUpTo(Later(p), q, m + 1, k)
  {
    if TakenBefore(added, p, q, m, k) {
      var j :| 0 <= j < |p| && p[j] < m && added[q[j]].tag == added[k].tag;
      assert Later(p)[j] < m + 1;
    }
    if GivenUpTo(p, q, m, k) {
      var i :| 0 <= i < |p| && p[i] == m && q[i] <= k;
      assert Later(p)[i] == m + 1;
    }
  }

  lemma OneInFront(added: Configs, p: seq<nat>, q: seq<nat>, f: nat, m: nat, k: nat)
    requires |p| == |q| && k < |added| && f < |added| && forall j :: 0 <= j < |q| ==> q[j] < |added|
    ensures forall j :: 0 <= j < |[f] + q| ==> ([f] + q)[j] < |added|
    ensures TakenBefore(added, p, q, m, k) ==> TakenBefore(added, [0] + p, [f] + q, m, k)
    ensures GivenUpTo(p, q, m, k) ==> GivenUpTo([0] + p, [f] + q, m, k)
    ensures m > 0 && added[f].tag == added[k].tag ==> TakenBefore(added, [0] + p, [f] + q, m, k)
    ensures m == 0 && f <= k ==> GivenUpTo([0] + p, [f] + q, m, k)
  {
    var p', q' := [0] + p, [f] + q;
    assert p'[0] == 0 && q'[0] == f;
    if TakenBefore(added, p, q, m, k) {
      var j :| 0 <= j < |p| && p[j] < m && added[q[j]].tag == added[k].tag;
      assert p'[j + 1] == p[j] && q'[j + 1] == q[j];
    }
    if GivenUpTo(p, q, m, k) {
      var i :| 0 <= i < |p| && p[i] == m && q[i] <= k;
      assert p'[i + 1] == p[i] && q'[i + 1] == q[i];
    }
  }

  lemma FirstIsServed(removed: Configs, added: Configs, consumed: set<string>, f: nat, p: seq<nat>, q: seq<nat>)
    requires removed != [] && f < |added| && SameButTag(removed[0], added[f]) && added[f].tag !in consumed
    requires Served(removed[1..], added, consumed + {added[f].tag}, p, q)
    requires forall k: nat :: k < f && SameButTag(removed[0], added[k]) ==> added[k].tag in consumed
    ensures Served(removed, added, consumed, [0] + Later(p), [f] + q)
  {
    hide SameButTag, TakenBefore, GivenUpTo, Tags;
    var p', q' := [0] + Later(p), [f] + q;
    forall m: nat, k: nat | m < |removed| && k < |added| && SameButTag(removed[m], added[k])
      ensures added[k].tag in consumed || TakenBefore(added, p', q', m, k) || GivenUpTo(p', q', m, k)
    {
      OneInFront(added, Later(p), q, f, m, k);
      if m > 0 {
        assert removed[1..][m - 1] == removed[m];
        OneLater(added, p, q, m - 1, k);
      }
    }
  }

  /** The configurations whose tags are not in a set, from first to last. */
  lemma {:induction false} MissingAt(s: Configs, tags: set<string>) returns (at: seq<nat>)
    ensures Picks(s, at, Missing(s, tags)) && Rising(at)
    ensures forall k: nat :: k < |s| ==> (k in at <==> s[k].tag !in tags)
  {
    if s == [] {
      return [];
    }
    at := MissingAt(s[1..], tags);
    at := OneEarlier(s, at, Missing(s[1..], tags), s[0].tag !in tags);
  }

  /** Main result on renames, whatever the tags: of the configurations that are gone (at places `gone`) and those that
      are new (at places `come`), first come, first served, those that are the same but for the tag are renames. */
  lemma RenamesAreServed(current: Configs, candidate: Configs)
    returns (gone: seq<nat>, come: seq<nat>, removed: Configs, added: Configs, p: seq<nat>, q: seq<nat>)
    ensures Picks(current, gone, removed) && Rising(gone)
    ensures Picks(candidate, come, added) && Rising(come)
    ensures forall k: nat :: k < |current| ==> (k in gone <==> current[k].tag !in Tags(candidate))
    ensures forall k: nat :: k < |candidate| ==> (k in come <==> candidate[k].tag !in Tags(current))
    ensures Served(removed, added, {}, p, q)
    ensures var d := DiffOf(current, candidate);
      && |d.renamed| == |p|
      && forall i :: 0 <= i < |p| ==>
           d.renamed[i] == Rename(removed[p[i]].tag, added[q[i]].tag, removed[p[i]].kind)
  {
    gone := MissingAt(current, Tags(candidate));
    come := MissingAt(candidate, Tags(current));
    removed, added := Missing(current, Tags(candidate)), Missing(candidate, Tags(current));
    p, q := GreedyServes(removed, added, {});
  }

  /** The tags left over on both sides are listed in the order of the configurations. */
  lemma LeftoversKeepOrder(current: Configs, candidate: Configs) returns (r: seq<nat>, a: seq<nat>)
    ensures var d := DiffOf(current, candidate);
      && |d.removed| == |r| && Rising(r)
      && (forall i :: 0 <= i < |r| ==> r[i] < |current| && d.removed[i] == current[r[i]].tag)
      && |d.added| == |a| && Rising(a)
      && (forall i :: 0 <= i < |a| ==> a[i] < |candidate| && d.added[i] == candidate[a[i]].tag)
  {
    var removed, added := Missing(current, Tags(candidate)), Missing(candidate, Tags(current));
    var pairs := Greedy(removed, added, {});
    r := LeftAt(current, Tags(candidate), Froms(pairs));
    a := LeftAt(candidate, Tags(current), Tos(pairs));
  }

  lemma LeftAt(s: Configs, tags: set<string>, taken: set<string>) returns (at: seq<nat>)
    ensures Rising(at) && Picks(s, at, Missing(Missing(s, tags), taken))
  {
    var a := MissingAt(s, tags);
    var b := MissingAt(Missing(s, tags), taken);
    at := seq(|b|, i requires 0 <= i < |b| => a[b[i]]);
  }

  // ------------------------------------------------------ maximum matching

  /** A way to pair removed with added configurations that are alike, using none twice. */
  ghost predicate Pairing(p: set<Pair>, removed: Configs, added: Configs) {
    && (forall x :: x in p ==> x.0 in removed && x.1 in added && Alike(x.0, x.1))
    && (forall x, y :: x in p && y in p && (x.0 == y.0 || x.1 == y.1) ==> x == y)
  }

  /** Some configuration like this one was left over among the removed. */
  ghost predicate LeftOver(c: OutboundConfig, removed: Configs, pairs: seq<Pair>) {
    exists r :: r in removed && r.tag !in Froms(pairs) && Alike(r, c)
  }

  /** The pair of the greedy matching that answers for a pair of any other: if a configuration like it is left over
      among the removed, the one with the same target, and otherwise the one with the same source. */
  ghost predicate AnswersFor(g: Pair, x: Pair, removed: Configs, pairs: seq<Pair>) {
    && g in pairs && Alike(g.0, x.0)
    && if LeftOver(x.0, removed, pairs) then g.1 == x.1 else g.0 == x.0
  }

  lemma SameTagSame(s: Configs, a: OutboundConfig, b: OutboundConfig)
    requires UniqueTags(s) && a in s && b in s && a.tag == b.tag
    ensures a == b
  {
    var i :| 0 <= i < |s| && s[i] == a;
    var j :| 0 <= j < |s| && s[j] == b;
  }

  lemma SomeoneAnswers(x: Pair, removed: Configs, added: Configs) returns (g: Pair)
    requires UniqueTags(removed) && UniqueTags(added)
    requires x.0 in removed && x.1 in added && Alike(x.0, x.1)
    ensures AnswersFor(g, x, removed, Greedy(removed, added, {}))
  {
    hide Greedy, UniqueTags;
    var pairs := GreedyPairs(removed, added, {});
    var _ := GreedyLeavesNone(removed, added, {});
    if LeftOver(x.0, removed, pairs) {
      var r :| r in removed && r.tag !in Froms(pairs) && Alike(r, x.0);
      assert x.1.tag in Tos(pairs);
      g :| g in pairs && g.1.tag == x.1.tag;
      SameTagSame(added, g.1, x.1);
    } else {
      assert x.0.tag in Froms(pairs);
      g :| g in pairs && g.0.tag == x.0.tag;
      SameTagSame(removed, g.0, x.0);
    }
  }

  lemma LikesLeftOver(a: OutboundConfig, b: OutboundConfig, removed: Configs, pairs: seq<Pair>)
    requires Alike(a, b) && LeftOver(a, removed, pairs)
    ensures LeftOver(b, removed, pairs)
  {
    var r :| r in removed && r.tag !in Froms(pairs) && Alike(r, a);
    assert Alike(r, b);
  }

  /** Two different pairs of a pairing are answered for by different greedy pairs. */
  lemma AnswersDiffer(p: set<Pair>, x: Pair, y: Pair, g: Pair, removed: Configs, added: Configs, pairs: seq<Pair>)
    requires Pairing(p, removed, added) && x in p && y in p
    requires AnswersFor(g, x, removed, pairs) && AnswersFor(g, y, removed, pairs)
    ensures x == y
  {
    if LeftOver(x.0, removed, pairs) {
      LikesLeftOver(x.0, y.0, removed, pairs);
    }
    if LeftOver(y.0, removed, pairs) {
      LikesLeftOver(y.0, x.0, removed, pairs);
    }
  }

  /** A set whose elements are answered for by different members of another is no larger. */
  lemma {:induction false} NoLarger(p: set<Pair>, rest: set<Pair>, used: set<Pair>, removed: Configs, added: Configs)
    requires UniqueTags(removed) && UniqueTags(added) && Pairing(p, removed, added) && rest <= p
    requires used <= ToSet(Greedy(removed, added, {}))
    requires forall g, x :: g in used && x in rest ==> !AnswersFor(g, x, removed, Greedy(removed, added, {}))
    ensures |rest| + |used| <= |ToSet(Greedy(removed, added, {}))|
    decreases |rest|
  {
    var pairs := Greedy(removed, added, {});
    if rest == {} {
      SubsetSize(used, ToSet(pairs));
    } else {
      var x :| x in rest;
      var g := SomeoneAnswers(x, removed, added);
      forall g', y | g' in used + {g} && y in rest - {x} ensures !AnswersFor(g', y, removed, pairs) {
        if g' == g && AnswersFor(g, y, removed, pairs) {
          AnswersDiffer(p, x, y, g, removed, added, pairs);
        }
      }
      assert g !in used;
      NoLarger(p, rest - {x}, used + {g}, removed, added);
    }
  }

  /** Main result: the greedy pass finds a pairing, and no pairing of removed with added configurations that are
      alike has more pairs. */
  lemma GreedyIsMaximum(removed: Configs, added: Configs, p: set<Pair>)
    requires UniqueTags(removed) && UniqueTags(added) && Pairing(p, removed, added)
    ensures var pairs := Greedy(removed, added, {});
      && Pairing(ToSet(pairs), removed, added) && |ToSet(pairs)| == |pairs|
      && |p| <= |pairs|
  {
    var pairs := GreedyPairs(removed, added, {});
    GreedyIsPairing(removed, added, pairs);
    DistinctSize(pairs);
    NoLarger(p, p, {}, removed, added);
  }

  lemma GreedyIsPairing(removed: Configs, added: Configs, pairs: seq<Pair>)
    requires forall p :: p in pairs ==> p.0 in removed && p.1 in added && Alike(p.0, p.1)
    requires forall i, j :: 0 <= i < j < |pairs| ==>
      pairs[i].0.tag != pairs[j].0.tag && pairs[i].1.tag != pairs[j].1.tag
    ensures Pairing(ToSet(pairs), removed, added) && Distinct(pairs)
  {
    forall x, y | x in ToSet(pairs) && y in ToSet(pairs) && (x.0 == y.0 || x.1 == y.1) ensures x == y {
      var i :| 0 <= i < |pairs| && pairs[i] == x;
      var j :| 0 <= j < |pairs| && pairs[j] == y;
    }
  }
}
