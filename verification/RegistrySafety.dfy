/** What holds of the outbound registry in every reachable state. */
module RegistrySafety {
  import opened Common
  import opened OrderedMaps
  import opened Handles
  import opened OutboundRegistries

  /** What a reference counts under: its generation, and its generation and tag. */
  function GenerationOf(r: Reference): string {
    r.generationId
  }

  function PlaceOf(r: Reference): (string, string) {
    (r.generationId, r.tag)
  }

  // -------------------------------------------------------------- invariant

  /** Exactly one record is active, and it is the one the registry hands out. */
  ghost predicate OneActive(s: Registry) {
    && s.activeId in s.records
    && forall id :: id in s.records ==> (s.records[id].state == Active <==> id == s.activeId)
  }

  /** Every count is the number of outstanding references it stands for. */
  ghost predicate CountsExact(s: Registry) {
    && (forall id :: id in s.records ==> s.records[id].references == Holders(s.refs, GenerationOf, id))
    && (forall id, tag :: id in s.records ==> Count(s.records[id].byTag, tag) == Holders(s.refs, PlaceOf, (id, tag)))
    && (forall id, tag :: id in s.records && tag in s.records[id].byTag ==> 0 < s.records[id].byTag[tag])
    && (forall t :: t in s.refs ==> t < s.nextReferenceId)
  }

  /** Every outstanding reference still resolves to the outbound it was given. */
  ghost predicate RefsResolve(s: Registry) {
    forall t :: t in s.refs ==>
      GetOutbound(s, s.refs[t].tag, s.refs[t].generationId) == Some(s.refs[t].outbound)
  }

  ghost predicate AllValid(s: Registry) {
    forall id :: id in s.records ==> s.records[id].outbounds.Valid()
  }

  /** Every outbound object belongs to one tag of one generation, or has been stopped once. */
  ghost predicate ObjectsSeparate(s: Registry) {
    && AllValid(s)
    && (forall id :: id in s.records ==> Distinct(s.records[id].outbounds.Values()))
    && (forall i, j, o :: (i in s.records && j in s.records && i != j && o in s.records[i].outbounds.Values()) ==>
          o !in s.records[j].outbounds.Values())
    && Distinct(s.stopped)
    && (forall i, o :: i in s.records && o in s.records[i].outbounds.Values() ==> o !in s.stopped)
  }

  ghost predicate Inv(s: Registry) {
    OneActive(s) && CountsExact(s) && RefsResolve(s) && ObjectsSeparate(s)
  }

  // ------------------------------------------------------------------ steps

  datatype Step =
    | DoAcquire(tag: string, id: string)
    | DoRelease(ref: nat)
    | DoSwitch(candidate: Candidate)
    | DoRestore(oldId: string)
    | DoMarkDraining(id: string)
    | DoRetire(id: string)

  /** Whether the objects of a candidate are all different and were never given to the registry before. */
  predicate NewObjects(s: Registry, c: Candidate)
    requires AllValid(s) && c.outbounds.Valid()
  {
    && Distinct(c.outbounds.Values())
    && (forall o | o in c.outbounds.Values() :: o !in s.stopped)
    && (forall o, id | o in c.outbounds.Values() && id in s.records :: o !in s.records[id].outbounds.Values())
  }

  ghost predicate FreshObjects(s: Registry, c: Candidate)
    requires AllValid(s)
  {
    c.outbounds.Valid() && NewObjects(s, c)
  }

  ghost predicate Permitted(s: Registry, step: Step)
    requires AllValid(s)
  {
    step.DoSwitch? ==> FreshObjects(s, step.candidate)
  }

  function OrSame(s: Registry, r: Result<Registry, string>): Registry {
    match r case Ok(s') => s' case Err(_) => s
  }

  /** One step; a call that throws changes nothing, and a restore is from the generation in force. */
  function Apply(s: Registry, step: Step): Registry
    requires AllValid(s)
  {
    match step
    case DoAcquire(tag, id) => Acquire(s, tag, id).0
    case DoRelease(ref) => Release(s, ref)
    case DoSwitch(c) => OrSame(s, Switch(s, c))
    case DoRestore(oldId) => OrSame(s, Restore(s, oldId, s.activeId))
    case DoMarkDraining(id) => OrSame(s, MarkDraining(s, id))
    case DoRetire(id) => Retire(s, id).0
  }

  // ----------------------------------------------------------- preservation

  lemma AcquireCounts(s: Registry, tag: string, id: string)
    requires CountsExact(s)
    ensures CountsExact(Acquire(s, tag, id).0)
  {
    hide Holders;
    var s' := Acquire(s, tag, id).0;
    if GetOutbound(s, tag, id).Some? {
      var t, r := s.nextReferenceId, Reference(id, tag, GetOutbound(s, tag, id).value);
      forall k | k in s'.records ensures s'.records[k].references == Holders(s'.refs, GenerationOf, k) {
        TakeCounts(s.refs, GenerationOf, t, r, k);
      }
      forall k, g | k in s'.records ensures Count(s'.records[k].byTag, g) == Holders(s'.refs, PlaceOf, (k, g)) {
        TakeCounts(s.refs, PlaceOf, t, r, (k, g));
      }
    }
  }

  lemma AcquireResolves(s: Registry, tag: string, id: string)
    requires RefsResolve(s)
    ensures RefsResolve(Acquire(s, tag, id).0)
  {
    var s' := Acquire(s, tag, id).0;
    forall t | t in s'.refs
      ensures GetOutbound(s', s'.refs[t].tag, s'.refs[t].generationId) == Some(s'.refs[t].outbound)
    {
      if t in s.refs && s'.refs[t] == s.refs[t] {
        assert GetOutbound(s, s.refs[t].tag, s.refs[t].generationId) == Some(s.refs[t].outbound);
      }
    }
  }

  lemma AcquireObjects(s: Registry, tag: string, id: string)
    requires ObjectsSeparate(s)
    ensures ObjectsSeparate(Acquire(s, tag, id).0)
  {
    var s' := Acquire(s, tag, id).0;
    SameOutbounds(s, s');
  }

  /** Separation depends on the outbounds only. */
  lemma SameOutbounds(s: Registry, s': Registry)
    requires ObjectsSeparate(s) && s'.records.Keys == s.records.Keys && s'.stopped == s.stopped
    requires forall k :: k in s.records ==> s'.records[k].outbounds == s.records[k].outbounds
    ensures ObjectsSeparate(s')
  {
  }

  lemma AcquireKeeps(s: Registry, tag: string, id: string)
    requires Inv(s)
    ensures Inv(Acquire(s, tag, id).0)
  {
    AcquireCounts(s, tag, id);
    AcquireResolves(s, tag, id);
    AcquireObjects(s, tag, id);
  }

  lemma UncountCounts(s: Registry, ref: nat)
    requires CountsExact(s) && ref in s.refs && s.refs[ref].generationId in s.records
    ensures CountsExact(Uncount(s, ref))
  {
    hide HoldersOf;
    var s', r := Uncount(s, ref), s.refs[ref];
    HeldIsCounted(s.refs, GenerationOf, ref);
    HeldIsCounted(s.refs, PlaceOf, ref);
    forall k | k in s'.records ensures s'.records[k].references == Holders(s'.refs, GenerationOf, k) {
      GiveCounts(s.refs, GenerationOf, ref, k);
    }
    forall k, g | k in s'.records ensures Count(s'.records[k].byTag, g) == Holders(s'.refs, PlaceOf, (k, g)) {
      GiveCounts(s.refs, PlaceOf, ref, (k, g));
    }
  }

  /** The generation of a reference is there, and the reference is counted. */
  lemma HeldGenerationIsThere(s: Registry, ref: nat)
    requires Inv(s) && ref in s.refs
    ensures s.refs[ref].generationId in s.records && 0 < s.records[s.refs[ref].generationId].references
  {
    hide ObjectsSeparate, OneActive;
    HeldIsCounted(s.refs, GenerationOf, ref);
    assert GetOutbound(s, s.refs[ref].tag, s.refs[ref].generationId).Some?;
  }

  lemma UncountResolves(s: Registry, ref: nat)
    requires RefsResolve(s) && ref in s.refs
    ensures RefsResolve(Uncount(s, ref))
  {
    var s' := Uncount(s, ref);
    forall t | t in s'.refs
      ensures GetOutbound(s', s'.refs[t].tag, s'.refs[t].generationId) == Some(s'.refs[t].outbound)
    {
      assert GetOutbound(s, s.refs[t].tag, s.refs[t].generationId) == Some(s.refs[t].outbound);
    }
  }

  lemma UncountKeeps(s: Registry, ref: nat)
    requires Inv(s) && ref in s.refs
    ensures Inv(Uncount(s, ref))
  {
    hide CountsExact, RefsResolve, ObjectsSeparate;
    HeldGenerationIsThere(s, ref);
    UncountCounts(s, ref);
    UncountResolves(s, ref);
    SameOutbounds(s, Uncount(s, ref));
  }

  /** A generation without references can go: no reference points at it. */
  lemma RetireResolves(s: Registry, id: string)
    requires Inv(s)
    ensures RefsResolve(Retire(s, id).0)
  {
    hide CountsExact, OneActive, Distinct;
    var s' := Retire(s, id).0;
    forall t | t in s'.refs
      ensures GetOutbound(s', s'.refs[t].tag, s'.refs[t].generationId) == Some(s'.refs[t].outbound)
    {
      HeldGenerationIsThere(s, t);
      assert GetOutbound(s, s.refs[t].tag, s.refs[t].generationId) == Some(s.refs[t].outbound);
    }
  }

  lemma RetireObjects(s: Registry, id: string)
    requires ObjectsSeparate(s)
    ensures ObjectsSeparate(Retire(s, id).0)
  {
    if Retire(s, id).1 {
      DistinctAppend(s.stopped, s.records[id].outbounds.Values());
    }
  }

  lemma RetireCounts(s: Registry, id: string)
    requires CountsExact(s) && AllValid(s)
    ensures CountsExact(Retire(s, id).0)
  {
    var s' := Retire(s, id).0;
  }

  lemma RetireKeeps(s: Registry, id: string)
    requires Inv(s)
    ensures Inv(Retire(s, id).0)
  {
    RetireCounts(s, id);
    RetireResolves(s, id);
    RetireObjects(s, id);
  }

  lemma ReleaseKeeps(s: Registry, ref: nat)
    requires Inv(s)
    ensures Inv(Release(s, ref))
  {
    if ref in s.refs {
      UncountKeeps(s, ref);
      RetireKeeps(Uncount(s, ref), s.refs[ref].generationId);
    }
  }

  /** No reference is filed under a generation that is not there. */
  lemma AbsentUncounted(s: Registry, id: string)
    requires RefsResolve(s) && id !in s.records
    ensures Holders(s.refs, GenerationOf, id) == 0 && forall g :: Holders(s.refs, PlaceOf, (id, g)) == 0
  {
    forall t | t in s.refs ensures s.refs[t].generationId != id {
      assert GetOutbound(s, s.refs[t].tag, s.refs[t].generationId).Some?;
    }
    NoneHeld(s.refs, GenerationOf, id);
    forall g ensures Holders(s.refs, PlaceOf, (id, g)) == 0 {
      NoneHeld(s.refs, PlaceOf, (id, g));
    }
  }

  lemma SwitchCounts(s: Registry, c: Candidate)
    requires CountsExact(s) && RefsResolve(s) && Switch(s, c).Ok?
    ensures CountsExact(Switch(s, c).value)
  {
    AbsentUncounted(s, c.id);
    SameCounts(s, Switch(s, c).value, c.id);
  }

  /** A generation without counts comes in, and no other count changes. */
  lemma SameCounts(s: Registry, s': Registry, id: string)
    requires CountsExact(s) && s'.refs == s.refs && s'.nextReferenceId == s.nextReferenceId
    requires s'.records.Keys == s.records.Keys + {id} && s'.records[id].references == 0 && s'.records[id].byTag == map[]
    requires forall k :: k in s.records && k != id ==>
      s'.records[k].references == s.records[k].references && s'.records[k].byTag == s.records[k].byTag
    requires Holders(s.refs, GenerationOf, id) == 0 && forall tag :: Holders(s.refs, PlaceOf, (id, tag)) == 0
    ensures CountsExact(s')
  {
  }

  lemma SwitchResolves(s: Registry, c: Candidate)
    requires RefsResolve(s) && Switch(s, c).Ok?
    ensures RefsResolve(Switch(s, c).value)
  {
    var s' := Switch(s, c).value;
    forall t | t in s'.refs
      ensures GetOutbound(s', s'.refs[t].tag, s'.refs[t].generationId) == Some(s'.refs[t].outbound)
    {
      assert GetOutbound(s, s.refs[t].tag, s.refs[t].generationId) == Some(s.refs[t].outbound);
    }
  }

  lemma SwitchObjects(s: Registry, c: Candidate)
    requires ObjectsSeparate(s) && FreshObjects(s, c) && Switch(s, c).Ok?
    ensures ObjectsSeparate(Switch(s, c).value)
  {
    hide ObjectsSeparate, NewObjects, ValidateError;
    NewOutbounds(s, Switch(s, c).value, c);
  }

  /** One generation of new objects more. */
  lemma NewOutbounds(s: Registry, s': Registry, c: Candidate)
    requires ObjectsSeparate(s) && FreshObjects(s, c)
    requires c.id !in s.records && s'.records.Keys == s.records.Keys + {c.id} && s'.stopped == s.stopped
    requires s'.records[c.id].outbounds == c.outbounds
    requires forall k :: k in s.records ==> s'.records[k].outbounds == s.records[k].outbounds
    ensures ObjectsSeparate(s')
  {
    hide Distinct;
    forall i, o | i in s'.records && o in s'.records[i].outbounds.Values() ensures o !in s'.stopped {
      assert i == c.id || i in s.records;
    }
    forall i, j, o | i in s'.records && j in s'.records && i != j && o in s'.records[i].outbounds.Values()
      ensures o !in s'.records[j].outbounds.Values()
    {
      assert (i == c.id || i in s.records) && (j == c.id || j in s.records);
    }
  }

  lemma SwitchKeeps(s: Registry, c: Candidate)
    requires Inv(s) && FreshObjects(s, c) && Switch(s, c).Ok?
    ensures Inv(Switch(s, c).value)
  {
    hide CountsExact, ObjectsSeparate;
    SwitchCounts(s, c);
    SwitchResolves(s, c);
    SwitchObjects(s, c);
  }

  /** Changing record states only. */
  ghost predicate SameButStates(s: Registry, s': Registry) {
    && s'.records.Keys == s.records.Keys && s'.refs == s.refs && s'.nextReferenceId == s.nextReferenceId
    && s'.stopped == s.stopped
    && forall id :: id in s.records ==> s'.records[id] == s.records[id].(state := s'.records[id].state)
  }

  lemma StatesKeep(s: Registry, s': Registry)
    requires Inv(s) && SameButStates(s, s') && OneActive(s')
    ensures Inv(s')
  {
    hide ObjectsSeparate, OneActive, Holders, Count;
    SameOutbounds(s, s');
    forall t | t in s'.refs
      ensures GetOutbound(s', s'.refs[t].tag, s'.refs[t].generationId) == Some(s'.refs[t].outbound)
    {
      assert GetOutbound(s, s.refs[t].tag, s.refs[t].generationId) == Some(s.refs[t].outbound);
    }
  }

  lemma RestoreKeeps(s: Registry, oldId: string)
    requires Inv(s) && Restore(s, oldId, s.activeId).Ok?
    ensures Inv(Restore(s, oldId, s.activeId).value)
  {
    hide ObjectsSeparate, CountsExact, AllValid;
    var s' := Restore(s, oldId, s.activeId).value;
    assert SameButStates(s, s');
    assert OneActive(s');
    StatesKeep(s, s');
  }

  /** A generation that is not active is draining already. */
  lemma MarkDrainingKeeps(s: Registry, id: string)
    requires OneActive(s) && MarkDraining(s, id).Ok?
    ensures MarkDraining(s, id).value == s
  {
    assert id != s.activeId ==> s.records[id].(state := Draining) == s.records[id];
  }

  lemma StepKeeps(s: Registry, step: Step)
    requires Inv(s) && Permitted(s, step)
    ensures Inv(Apply(s, step))
  {
    match step
    case DoAcquire(tag, id) => AcquireKeeps(s, tag, id);
    case DoRelease(ref) => ReleaseKeeps(s, ref);
    case DoSwitch(c) => if Switch(s, c).Ok? { SwitchKeeps(s, c); }
    case DoRestore(oldId) => if Restore(s, oldId, s.activeId).Ok? { RestoreKeeps(s, oldId); }
    case DoMarkDraining(id) => if MarkDraining(s, id).Ok? { MarkDrainingKeeps(s, id); }
    case DoRetire(id) => RetireKeeps(s, id);
  }

  // ------------------------------------------------------------------- runs

  function Start(c: Candidate): Registry {
    Registry(c.id, map[c.id := Generation(0, c.outbounds, 0, map[], Active)], map[], 1, [])
  }

  /** A run of steps in any order; `false` if some switch reuses objects. */
  ghost predicate PermittedRun(s: Registry, steps: seq<Step>)
    decreases |steps|
  {
    steps == [] || (AllValid(s) && Permitted(s, steps[0]) && PermittedRun(Apply(s, steps[0]), steps[1..]))
  }

  function Run(s: Registry, steps: seq<Step>): Registry
    requires PermittedRun(s, steps)
    decreases |steps|
  {
    if steps == [] then s else Run(Apply(s, steps[0]), steps[1..])
  }

  lemma {:induction false} RunKeeps(s: Registry, steps: seq<Step>)
    requires Inv(s) && PermittedRun(s, steps)
    ensures Inv(Run(s, steps))
    decreases |steps|
  {
    if steps != [] {
      StepKeeps(s, steps[0]);
      RunKeeps(Apply(s, steps[0]), steps[1..]);
    }
  }

  lemma StartInv(c: Candidate)
    requires c.outbounds.Valid() && Distinct(c.outbounds.Values())
    ensures Inv(Start(c))
  {
    var s := Start(c);
    NoneHeld(s.refs, GenerationOf, c.id);
    forall tag ensures Holders(s.refs, PlaceOf, (c.id, tag)) == 0 {
      NoneHeld(s.refs, PlaceOf, (c.id, tag));
    }
  }

  /** The sum of all counts. */
  ghost function Total(m: map<string, nat>): nat
    decreases |m|
  {
    if m == map[] then 0 else var k :| k in m; m[k] + Total(m - {k})
  }

  lemma {:induction false} TotalSplits(m: map<string, nat>, k: string)
    requires k in m
    ensures Total(m) == m[k] + Total(m - {k})
    decreases |m|
  {
    var pick :| pick in m && Total(m) == m[pick] + Total(m - {pick});
    if pick != k {
      TotalSplits(m - {pick}, k);
      assert (m - {pick}) - {k} == (m - {k}) - {pick};
      if (m - {k}) != map[] {
        TotalSplits(m - {k}, pick);
      }
    }
  }

  /** Counting references tag by tag: if every tag's count is that of the references under it, the counts add up to all
      of them. */
  lemma {:induction false} TagsAddUp(counts: map<string, nat>, refs: map<nat, Reference>)
    requires forall tag :: Count(counts, tag) == Holders(refs, TagOf, tag)
    ensures Total(counts) == |refs|
    decreases |counts|
  {
    if counts == map[] {
      if refs != map[] {
        var t :| t in refs;
        HeldIsCounted(refs, TagOf, t);
        assert false;
      }
    } else {
      var tag :| tag in counts;
      TotalSplits(counts, tag);
      OthersCount(counts, refs, tag);
      TagsAddUp(counts - {tag}, refs - HoldersOf(refs, TagOf, tag));
    }
  }

  function TagOf(r: Reference): string {
    r.tag
  }

  /** The references under other tags, and how many they are. */
  lemma OthersCount(counts: map<string, nat>, refs: map<nat, Reference>, tag: string)
    requires forall g :: Count(counts, g) == Holders(refs, TagOf, g)
    ensures var rest := refs - HoldersOf(refs, TagOf, tag);
      && |refs| == Holders(refs, TagOf, tag) + |rest|
      && forall g :: Count(counts - {tag}, g) == Holders(rest, TagOf, g)
  {
    var here := HoldersOf(refs, TagOf, tag);
    var rest := refs - here;
    assert refs.Keys == here + rest.Keys && here !! rest.Keys;
    assert |refs.Keys| == |here| + |rest.Keys|;
    forall g ensures Count(counts - {tag}, g) == Holders(rest, TagOf, g) {
      if g == tag {
        assert HoldersOf(rest, TagOf, g) == {};
      } else {
        assert HoldersOf(rest, TagOf, g) == HoldersOf(refs, TagOf, g);
      }
    }
  }

  /** One generation's references. */
  function RefsOn(s: Registry, id: string): map<nat, Reference> {
    s.refs - (s.refs.Keys - HoldersOf(s.refs, GenerationOf, id))
  }

  lemma SumOfTags(s: Registry, id: string)
    requires CountsExact(s) && id in s.records
    ensures s.records[id].references == Total(s.records[id].byTag) == |RefsOn(s, id)|
  {
    forall tag ensures Count(s.records[id].byTag, tag) == Holders(RefsOn(s, id), TagOf, tag) {
      assert HoldersOf(RefsOn(s, id), TagOf, tag) == HoldersOf(s.refs, PlaceOf, (id, tag));
    }
    TagsAddUp(s.records[id].byTag, RefsOn(s, id));
    assert RefsOn(s, id).Keys == HoldersOf(s.refs, GenerationOf, id);
  }

  /** Main result, over every run of acquires, releases, switches, restores, drains and retires in any order: one
      record is active; each generation's reference count is the sum of its per-tag counts and the number of its
      unreleased references; every unreleased reference resolves to its own outbound, which has not been stopped;
      and no outbound is stopped twice. */
  lemma RegistryIsSafe(initial: Candidate, steps: seq<Step>)
    requires initial.outbounds.Valid() && Distinct(initial.outbounds.Values())
    requires PermittedRun(Start(initial), steps)
    ensures var s := Run(Start(initial), steps);
      && (forall id :: id in s.records ==> (s.records[id].state == Active <==> id == s.activeId))
      && s.activeId in s.records
      && (forall id :: id in s.records ==>
            s.records[id].references == Total(s.records[id].byTag) == |RefsOn(s, id)|)
      && (forall t :: t in s.refs ==>
            var r := s.refs[t];
            && r.generationId in s.records && r.tag in s.records[r.generationId].outbounds.vals
            && s.records[r.generationId].outbounds.vals[r.tag] == r.outbound
            && r.outbound !in s.stopped)
      && Distinct(s.stopped)
  {
    var s := Run(Start(initial), steps);
    StartInv(initial);
    RunKeeps(Start(initial), steps);
    forall id | id in s.records ensures s.records[id].references == Total(s.records[id].byTag) == |RefsOn(s, id)| {
      SumOfTags(s, id);
    }
    forall t | t in s.refs
      ensures var r := s.refs[t];
        && r.generationId in s.records && r.tag in s.records[r.generationId].outbounds.vals
        && s.records[r.generationId].outbounds.vals[r.tag] == r.outbound && r.outbound !in s.stopped
    {
      InUseNotStopped(s, t);
    }
  }

  lemma InUseNotStopped(s: Registry, t: nat)
    requires Inv(s) && t in s.refs
    ensures var r := s.refs[t];
      && r.generationId in s.records && r.tag in s.records[r.generationId].outbounds.vals
      && s.records[r.generationId].outbounds.vals[r.tag] == r.outbound && r.outbound !in s.stopped
  {
    var r := s.refs[t];
    assert GetOutbound(s, r.tag, r.generationId) == Some(r.outbound);
    var m := s.records[r.generationId].outbounds;
    assert r.tag in m.keys;
    var i :| 0 <= i < |m.keys| && m.keys[i] == r.tag;
    assert m.Values()[i] == r.outbound;
  }

  // ---------------------------------------------------------- single steps

  /** A reference is given exactly if the generation has an outbound of that tag: a new one, to that outbound. */
  lemma AcquireGivesOwn(s: Registry, tag: string, id: string)
    requires Inv(s)
    ensures var (s', ref) := Acquire(s, tag, id);
      if id in s.records && tag in s.records[id].outbounds.vals then
        && ref == Some(s.nextReferenceId) && s.nextReferenceId !in s.refs
        && s'.refs == s.refs[s.nextReferenceId := Reference(id, tag, s.records[id].outbounds.vals[tag])]
        && s'.nextReferenceId == s.nextReferenceId + 1
      else ref == None && s' == s
  {
  }

  /** Every outbound of a generation, and no other. */
  ghost predicate StopsAll(vals: map<string, Outbound>, now: seq<Outbound>) {
    && |now| == |vals|
    && (forall tag :: tag in vals ==> vals[tag] in now)
    && (forall o :: o in now ==> o in vals.Values)
  }

  /** What a step does to a generation: its outbounds and its place stay; or it goes, and they are all stopped. Nothing
      else is stopped. */
  ghost predicate Carries(s: Registry, s': Registry, id: string) {
    && (id in s.records && id in s'.records ==>
          s'.records[id].outbounds == s.records[id].outbounds && s'.records[id].sequence == s.records[id].sequence)
    && s.stopped <= s'.stopped
    && (s.records.Keys <= s'.records.Keys ==> s'.stopped == s.stopped)
    && (id in s.records && id !in s'.records ==>
          StopsAll(s.records[id].outbounds.vals, s'.stopped[|s.stopped|..]))
  }

  function ActiveAfter(s: Registry, step: Step): string {
    if step.DoSwitch? && Switch(s, step.candidate).Ok? then step.candidate.id
    else if step.DoRestore? && step.oldId in s.records then step.oldId
    else s.activeId
  }

  /** Who is in force after a step, and what it does to a generation; one that comes in has the candidate's outbounds,
      and its place is behind the generation in force before. */
  lemma StepMeans(s: Registry, step: Step, id: string)
    requires AllValid(s) && s.activeId in s.records && Permitted(s, step)
    ensures var s' := Apply(s, step);
      && s'.activeId == ActiveAfter(s, step) && Carries(s, s', id)
      && (BringsIn(s, step, id) ==>
            && s.activeId in s.records && id in s'.records
            && s'.records[id].outbounds == step.candidate.outbounds
            && s'.records[id].sequence == s.records[s.activeId].sequence + 1)
  {
    hide StopsAll, NewObjects, ValidateError, Release, Retire, Acquire, Switch, Restore, MarkDraining, Carries;
    match step
    case DoAcquire(tag, other) => AcquireCarries(s, tag, other, id);
    case DoRelease(ref) => ReleaseCarries(s, ref, id);
    case DoSwitch(c) => SwitchCarries(s, c, id);
    case DoRestore(oldId) => RestoreCarries(s, oldId, id);
    case DoMarkDraining(other) => MarkCarries(s, other, id);
    case DoRetire(other) => RetireCarries(s, other, id);
  }

  /** References come in by acquiring and go by releasing, each the one asked for. */
  lemma ReferencesAre(s: Registry, step: Step)
    requires AllValid(s) && Permitted(s, step) && !step.DoAcquire?
    ensures var s' := Apply(s, step);
      && s'.refs == (if step.DoRelease? then s.refs - {step.ref} else s.refs)
      && s'.nextReferenceId == s.nextReferenceId
  {
    if step.DoRelease? && step.ref !in s.refs {
      assert s.refs - {step.ref} == s.refs;
    }
  }

  lemma AcquireCarries(s: Registry, tag: string, other: string, id: string)
    ensures var s' := Acquire(s, tag, other).0; s'.activeId == s.activeId && Carries(s, s', id)
  {
  }

  lemma SwitchCarries(s: Registry, c: Candidate, id: string)
    ensures var s' := OrSame(s, Switch(s, c));
      && s'.activeId == (if Switch(s, c).Ok? then c.id else s.activeId) && Carries(s, s', id)
      && (Switch(s, c).Ok? ==>
            && s.activeId in s.records && c.id in s'.records && s'.records[c.id].outbounds == c.outbounds
            && s'.records[c.id].sequence == s.records[s.activeId].sequence + 1)
  {
  }

  lemma RestoreCarries(s: Registry, oldId: string, id: string)
    requires s.activeId in s.records
    ensures var s' := OrSame(s, Restore(s, oldId, s.activeId));
      s'.activeId == (if oldId in s.records then oldId else s.activeId) && Carries(s, s', id)
  {
  }

  lemma MarkCarries(s: Registry, other: string, id: string)
    ensures var s' := OrSame(s, MarkDraining(s, other)); s'.activeId == s.activeId && Carries(s, s', id)
  {
  }

  lemma RetireCarries(s: Registry, other: string, id: string)
    requires AllValid(s)
    ensures Retire(s, other).0.activeId == s.activeId && Carries(s, Retire(s, other).0, id)
  {
    if Retire(s, other).1 {
      assert other in s.records && other !in Retire(s, other).0.records;
      ValuesAreStored(s.records[other].outbounds);
    }
  }

  lemma ReleaseCarries(s: Registry, ref: nat, id: string)
    requires AllValid(s)
    ensures Release(s, ref).activeId == s.activeId && Carries(s, Release(s, ref), id)
  {
    hide StopsAll, Retire;
    if ref in s.refs {
      UncountCarries(s, ref);
      RetireCarries(Uncount(s, ref), s.refs[ref].generationId, id);
    }
  }

  lemma UncountCarries(s: Registry, ref: nat)
    requires ref in s.refs
    ensures var s' := Uncount(s, ref);
      && s'.activeId == s.activeId && s'.stopped == s.stopped && s'.records.Keys == s.records.Keys
      && forall id :: id in s.records ==>
           s'.records[id].outbounds == s.records[id].outbounds && s'.records[id].sequence == s.records[id].sequence
  {
  }

  // ----------------------------------------------------------- going back

  /** The steps that take a generation out: giving back its last reference, or retiring it unused, when it is not the
      active one. */
  predicate TakesOut(s: Registry, step: Step, id: string) {
    && id in s.records && id != s.activeId
    && match step
       case DoRelease(ref) => ref in s.refs && s.refs[ref].generationId == id && s.records[id].references == 1
       case DoRetire(other) => other == id && s.records[id].references == 0
       case _ => false
  }

  /** A switch to a generation of this id. */
  predicate BringsIn(s: Registry, step: Step, id: string) {
    step.DoSwitch? && step.candidate.id == id && Switch(s, step.candidate).Ok?
  }

  /** No other step takes it out, and none but a switch brings it in. */
  lemma GoneExactlyWhen(s: Registry, step: Step, id: string)
    requires Inv(s) && Permitted(s, step)
    ensures id in Apply(s, step).records <==> (id in s.records && !TakesOut(s, step, id)) || BringsIn(s, step, id)
  {
    hide CountsExact, ObjectsSeparate, FreshObjects;
    if step.DoRelease? {
      hide Release;
      ReleaseGoneExactlyWhen(s, step.ref, id);
    }
  }

  lemma ReleaseGoneExactlyWhen(s: Registry, ref: nat, id: string)
    requires Inv(s)
    ensures id in Release(s, ref).records <==> id in s.records && !TakesOut(s, DoRelease(ref), id)
  {
    hide Inv, AllValid, Uncount;
    if ref in s.refs {
      HeldGenerationIsThere(s, ref);
      UncountRecords(s, ref);
    }
  }

  lemma UncountRecords(s: Registry, ref: nat)
    requires ref in s.refs && s.refs[ref].generationId in s.records
    requires 0 < s.records[s.refs[ref].generationId].references
    ensures var id, s' := s.refs[ref].generationId, Uncount(s, ref);
      && s'.records.Keys == s.records.Keys && s'.activeId == s.activeId
      && s'.records[id].references == s.records[id].references - 1
  {
  }

  /** Whether a generation is in after a run: it was, or was brought in, and no step has taken it out since. */
  ghost predicate StaysIn(s: Registry, steps: seq<Step>, id: string, here: bool)
    requires PermittedRun(s, steps)
    decreases |steps|
  {
    if steps == [] then here
    else
      StaysIn(Apply(s, steps[0]), steps[1..], id, (here && !TakesOut(s, steps[0], id)) || BringsIn(s, steps[0], id))
  }

  lemma {:induction false} ThereExactlyWhen(s: Registry, steps: seq<Step>, id: string)
    requires Inv(s) && PermittedRun(s, steps)
    ensures id in Run(s, steps).records <==> StaysIn(s, steps, id, id in s.records)
    decreases |steps|
  {
    if steps != [] {
      StepKeeps(s, steps[0]);
      GoneExactlyWhen(s, steps[0], id);
      ThereExactlyWhen(Apply(s, steps[0]), steps[1..], id);
    }
  }

  /** Main result on going back: after any run, a generation can be restored exactly when no step of the run took it
      out for good, and restoring it puts it in force and keeps the invariant. */
  lemma RestorableExactlyWhen(s: Registry, steps: seq<Step>, oldId: string)
    requires Inv(s) && PermittedRun(s, steps)
    ensures var t := Run(s, steps);
      && (Restore(t, oldId, t.activeId).Ok? <==> StaysIn(s, steps, oldId, oldId in s.records))
      && (Restore(t, oldId, t.activeId).Ok? ==>
            Restore(t, oldId, t.activeId).value.activeId == oldId && Inv(Restore(t, oldId, t.activeId).value))
  {
    RunKeeps(s, steps);
    ThereExactlyWhen(s, steps, oldId);
    var t := Run(s, steps);
    if Restore(t, oldId, t.activeId).Ok? {
      RestoreKeeps(t, oldId);
    }
  }

  /** Restoring from a generation that is not the active one leaves two records active, unless the old one is the
      active one already. */
  lemma RestoreKeepsOneActiveExactlyWhen(s: Registry, oldId: string, candidateId: string)
    requires OneActive(s) && Restore(s, oldId, candidateId).Ok?
    ensures OneActive(Restore(s, oldId, candidateId).value) <==> candidateId == s.activeId || oldId == s.activeId
  {
    var s' := Restore(s, oldId, candidateId).value;
    if candidateId != s.activeId && oldId != s.activeId {
      assert s'.records[s.activeId].state == Active;
    }
  }

  /** So a reference is enough, whatever happened since the switch. */
  lemma HeldGenerationCanBeRestored(s: Registry, oldId: string, t: nat)
    requires Inv(s) && t in s.refs && s.refs[t].generationId == oldId
    ensures Restore(s, oldId, s.activeId).Ok?
    ensures Restore(s, oldId, s.activeId).value.activeId == oldId && Inv(Restore(s, oldId, s.activeId).value)
  {
    assert GetOutbound(s, s.refs[t].tag, oldId).Some?;
    RestoreKeeps(s, oldId);
  }

  /** Without a reference it may be gone: releasing the last reference to the old generation after a switch retires
      it at once, and the switch can no longer be undone. */
  lemma ReleaseCanPreventRestore(initial: Candidate, next: Candidate, tag: string)
    requires initial.outbounds.Valid() && tag in initial.outbounds.vals
    requires next.outbounds.Valid() && ValidateError(next).None? && next.id != initial.id
    ensures var s1 := Acquire(Start(initial), tag, initial.id).0;
      && Switch(s1, next).Ok?
      && var s2 := Switch(s1, next).value;
      && 1 in s2.refs && Restore(s2, initial.id, next.id).Ok?
      && AllValid(s2)
      && Restore(Release(s2, 1), initial.id, next.id).Err?
  {
  }

  lemma {:induction false} TagsFitExactlyWhen(c: Candidate, tags: seq<string>)
    ensures TagsError(c, tags).None? <==> forall tag :: tag in tags ==> Fits(c, tag)
  {
    if tags != [] {
      TagsFitExactlyWhen(c, tags[1..]);
      assert tags[0] in tags && forall tag :: tag in tags ==> tag == tags[0] || tag in tags[1..];
    }
  }

  /** The first tag that does not fit decides the error. */
  lemma {:induction false} FirstMisfitDecides(c: Candidate, tags: seq<string>, i: nat)
    requires i < |tags| && !Fits(c, tags[i]) && forall j :: 0 <= j < i ==> Fits(c, tags[j])
    ensures TagsError(c, tags) == Some(
      if tags[i] in c.outbounds.vals then "outbound runtime generation type mismatch"
      else "outbound runtime generation is missing object")
  {
    if i != 0 {
      FirstMisfitDecides(c, tags[1..], i - 1);
    }
  }

  /** What validation means: the objects are for exactly the tags of the generation, each of the right kind. */
  lemma ValidEntriesAreExact(c: Candidate)
    requires c.outbounds.Valid() && Distinct(c.tags)
    ensures ValidateError(c).None? <==>
      ToSet(c.tags) == c.outbounds.vals.Keys
      && forall tag :: tag in c.tags ==> tag in c.kinds && c.outbounds.vals[tag].kind == c.kinds[tag]
  {
    DistinctSize(c.tags);
    DistinctSize(c.outbounds.keys);
    TagsFitExactlyWhen(c, c.tags);
    assert ToSet(c.outbounds.keys) == c.outbounds.vals.Keys;
    if ValidateError(c).None? {
      assert ToSet(c.tags) <= c.outbounds.vals.Keys;
      SameSizeSubset(ToSet(c.tags), c.outbounds.vals.Keys);
    }
  }

  /** A switch is refused exactly if the id is taken or the objects are not those described. */
  lemma SwitchIsRefusedExactlyWhen(s: Registry, c: Candidate)
    requires OneActive(s) && c.outbounds.Valid() && Distinct(c.tags)
    ensures Switch(s, c).Err? <==>
      || c.id in s.records
      || ToSet(c.tags) != c.outbounds.vals.Keys
      || exists tag :: tag in c.tags && (tag !in c.kinds || c.outbounds.vals[tag].kind != c.kinds[tag])
    ensures Switch(s, c) == Err("outbound runtime generation already exists") <==> c.id in s.records
  {
    ValidEntriesAreExact(c);
    AlreadyExistsMeans(s, c);
  }

  /** The other errors say something else. */
  lemma AlreadyExistsMeans(s: Registry, c: Candidate)
    ensures Switch(s, c) == Err("outbound runtime generation already exists") <==> c.id in s.records
  {
    ErrorsDiffer(c, c.tags);
    assert "outbound runtime generation already exists"[28] == 'a';
    assert "outbound runtime generation contains unexpected objects"[28] == 'c';
    assert "outbound runtime generation is unavailable"[28] == 'i';
  }

  lemma {:induction false} ErrorsDiffer(c: Candidate, tags: seq<string>)
    ensures TagsError(c, tags) != Some("outbound runtime generation already exists")
  {
    assert "outbound runtime generation already exists"[28] == 'a';
    assert "outbound runtime generation is missing object"[28] == 'i';
    assert "outbound runtime generation type mismatch"[28] == 't';
    if tags != [] {
      ErrorsDiffer(c, tags[1..]);
    }
  }

  lemma SameSizeSubset<T>(a: set<T>, b: set<T>)
    requires a <= b && |a| == |b|
    ensures a == b
  {
    assert b == a + (b - a);
  }

  /** What a retirement stops, it stops once exactly when its objects differ from one another and from those stopped
      before. */
  lemma StoppedOnceExactlyWhen(s: Registry, id: string)
    requires AllValid(s) && Retire(s, id).1 && Distinct(s.stopped)
    ensures Distinct(Retire(s, id).0.stopped) <==>
      && Distinct(s.records[id].outbounds.Values())
      && forall o :: o in s.records[id].outbounds.Values() ==> o !in s.stopped
  {
    var values := s.records[id].outbounds.Values();
    if Distinct(s.stopped + values) {
      DistinctParts(s.stopped, values);
    }
    if Distinct(values) && forall o :: o in values ==> o !in s.stopped {
      DistinctAppend(s.stopped, values);
    }
  }

  /** One object under two tags, say. */
  lemma SharedObjectIsStoppedTwice(s: Registry, id: string, i: nat, j: nat)
    requires AllValid(s) && Retire(s, id).1
    requires i < j < |s.records[id].outbounds.Values()|
    requires s.records[id].outbounds.Values()[i] == s.records[id].outbounds.Values()[j]
    ensures !Distinct(Retire(s, id).0.stopped)
  {
    var stopped := Retire(s, id).0.stopped;
    assert stopped[|s.stopped| + i] == stopped[|s.stopped| + j];
  }
}
