/** `src/outbound/runtimeRegistry.ts` with the usage counter of `src/outbound/generation.ts`: outbound
    generations, the references held on them, and when they are retired. */
module OutboundRegistries {
  import opened Common
  import opened OrderedMaps

  /** An outbound object, named by its identity. */
  datatype Outbound = Outbound(object: nat, kind: string)

  datatype RecordState = Active | Draining

  /** One generation. `references` is its own usage counter, `byTag` the registry's count per tag. */
  datatype Generation = Generation(
    sequence: nat,
    outbounds: OrderedMap<string, Outbound>,
    references: nat,
    byTag: map<string, nat>,
    state: RecordState)

  datatype Reference = Reference(generationId: string, tag: string, outbound: Outbound)

  /** The registry's fields. `refs` has an entry for every reference not yet released; `stopped` lists the
      outbounds stopped so far. */
  datatype Registry = Registry(
    activeId: string,
    records: map<string, Generation>,
    refs: map<nat, Reference>,
    nextReferenceId: nat,
    stopped: seq<Outbound>)

  /** A generation description and the objects made for it. */
  datatype Candidate = Candidate(
    id: string,
    tags: seq<string>,
    kinds: map<string, string>,
    outbounds: OrderedMap<string, Outbound>)

  // ------------------------------------------------------------ operations

  /** Whether the object made for a tag is there, and of the kind described. */
  predicate Fits(c: Candidate, tag: string) {
    tag in c.outbounds.vals && tag in c.kinds && c.outbounds.vals[tag].kind == c.kinds[tag]
  }

  /** What is wrong with the first tag that does not fit. */
  function TagsError(c: Candidate, tags: seq<string>): Option<string> {
    if tags == [] then None
    else if tags[0] !in c.outbounds.vals then Some("outbound runtime generation is missing object")
    else if !Fits(c, tags[0]) then Some("outbound runtime generation type mismatch")
    else TagsError(c, tags[1..])
  }

  function ValidateError(c: Candidate): Option<string> {
    if TagsError(c, c.tags).Some? then TagsError(c, c.tags)
    else if c.outbounds.Size() != |c.tags| then Some("outbound runtime generation contains unexpected objects")
    else None
  }

  /** `validateRuntimeEntries`: the loop over the tags. */
  method ValidateRuntimeEntries(c: Candidate) returns (r: Option<string>)
    ensures r == ValidateError(c)
  {
    for i := 0 to |c.tags|
      invariant TagsError(c, c.tags) == TagsError(c, c.tags[i..])
    {
      var tag := c.tags[i];
      var outbound := c.outbounds.Get(tag);
      if outbound.None? {
        return Some("outbound runtime generation is missing object");
      }
      if tag !in c.kinds || outbound.value.kind != c.kinds[tag] {
        return Some("outbound runtime generation type mismatch");
      }
    }
    if c.outbounds.Size() != |c.tags| {
      return Some("outbound runtime generation contains unexpected objects");
    }
    return None;
  }

  function GetOutbound(s: Registry, tag: string, id: string): Option<Outbound> {
    if id in s.records then s.records[id].outbounds.Get(tag) else None
  }

  function Count(m: map<string, nat>, tag: string): nat {
    if tag in m then m[tag] else 0
  }

  /** `acquireOutboundRef`: the reference is the token `s.nextReferenceId`. */
  function Acquire(s: Registry, tag: string, id: string): (Registry, Option<nat>) {
    match GetOutbound(s, tag, id)
    case None => (s, None)
    case Some(outbound) =>
      var g := s.records[id];
      var g' := g.(references := g.references + 1, byTag := g.byTag[tag := Count(g.byTag, tag) + 1]);
      (s.(records := s.records[id := g'],
          refs := s.refs[s.nextReferenceId := Reference(id, tag, outbound)],
          nextReferenceId := s.nextReferenceId + 1),
       Some(s.nextReferenceId))
  }

  /** `retireIfUnused` */
  function Retire(s: Registry, id: string): (Registry, bool)
    requires forall k :: k in s.records ==> s.records[k].outbounds.Valid()
  {
    if id !in s.records || id == s.activeId || s.records[id].references > 0 then (s, false)
    else (s.(records := s.records - {id}, stopped := s.stopped + s.records[id].outbounds.Values()), true)
  }

  /** The outbounds that `retireIfUnused` stops: those of the generation it retires. */
  function Stops(s: Registry, id: string): seq<Outbound>
    requires forall k :: k in s.records ==> s.records[k].outbounds.Valid()
  {
    if Retire(s, id).1 then s.records[id].outbounds.Values() else []
  }

  /** Whether one of these stops rejects, and with it the `Promise.all` that awaits them; all have begun by then. */
  predicate AnyRejects(stops: seq<Outbound>, rejects: Outbound -> bool) {
    exists o | o in stops :: rejects(o)
  }

  /** Whether releasing a reference throws. */
  predicate ReleaseThrows(s: Registry, ref: nat, rejects: Outbound -> bool)
    requires forall k :: k in s.records ==> s.records[k].outbounds.Valid()
  {
    ref in s.refs && AnyRejects(Stops(Uncount(s, ref), s.refs[ref].generationId), rejects)
  }

  /** `releaseOutboundRef` up to the retirement check: the first release of a reference counts, others do nothing. */
  function Uncount(s: Registry, ref: nat): Registry
    requires ref in s.refs
  {
    var r := s.refs[ref];
    var rest := s.(refs := s.refs - {ref});
    if r.generationId !in s.records then rest
    else
      var g := s.records[r.generationId];
      var before := if r.tag in g.byTag then g.byTag[r.tag] else 1;
      rest.(records := s.records[r.generationId := g.(
        references := if g.references > 0 then g.references - 1 else 0,
        byTag := if before <= 1 then g.byTag - {r.tag} else g.byTag[r.tag := before - 1])])
  }

  function Release(s: Registry, ref: nat): Registry
    requires forall k :: k in s.records ==> s.records[k].outbounds.Valid()
  {
    if ref !in s.refs then s else Retire(Uncount(s, ref), s.refs[ref].generationId).0
  }

  function Switch(s: Registry, c: Candidate): Result<Registry, string> {
    if c.id in s.records then Err("outbound runtime generation already exists")
    else if ValidateError(c).Some? then Err(ValidateError(c).value)
    else if s.activeId !in s.records then Err("outbound runtime generation is unavailable")
    else
      var old' := s.records[s.activeId];
      Ok(s.(
        records := s.records[s.activeId := old'.(state := Draining)]
                            [c.id := Generation(old'.sequence + 1, c.outbounds, 0, map[], Active)],
        activeId := c.id))
  }

  function Restore(s: Registry, oldId: string, candidateId: string): Result<Registry, string> {
    if oldId !in s.records || candidateId !in s.records then Err("outbound runtime generation is unavailable")
    else
      var drained := s.records[candidateId := s.records[candidateId].(state := Draining)];
      Ok(s.(records := drained[oldId := drained[oldId].(state := Active)], activeId := oldId))
  }

  function MarkDraining(s: Registry, id: string): Result<Registry, string> {
    if id !in s.records then Err("outbound runtime generation is unavailable")
    else if id == s.activeId then Ok(s)
    else Ok(s.(records := s.records[id := s.records[id].(state := Draining)]))
  }

  // -------------------------------------------------------------- the class

  class OutboundRuntimeRegistry {
    var activeGenerationId: string
    var records: map<string, Generation>
    var refs: map<nat, Reference>
    var nextReferenceId: nat
    var stopped: seq<Outbound>

    function State(): Registry
      reads this
    {
      Registry(activeGenerationId, records, refs, nextReferenceId, stopped)
    }

    ghost predicate Valid()
      reads this
    {
      forall k :: k in records ==> records[k].outbounds.Valid()
    }

    constructor (initial: Candidate)
      requires ValidateError(initial).None? && initial.outbounds.Valid()
      ensures Valid()
      ensures var g := Generation(0, initial.outbounds, 0, map[], Active);
        State() == Registry(initial.id, map[initial.id := g], map[], 1, [])
    {
      activeGenerationId := initial.id;
      records := map[initial.id := Generation(0, initial.outbounds, 0, map[], Active)];
      refs, nextReferenceId, stopped := map[], 1, [];
    }

    method AcquireOutboundRef(tag: string, generationId: string) returns (ref: Option<nat>)
      requires Valid()
      modifies this
      ensures Valid() && (State(), ref) == Acquire(old(State()), tag, generationId)
    {
      if generationId !in records {
        return None;
      }
      var record := records[generationId];
      var outbound := record.outbounds.Get(tag);
      if outbound.None? {
        return None;
      }
      record := record.(references := record.references + 1);
      record := record.(byTag := record.byTag[tag := (if tag in record.byTag then record.byTag[tag] else 0) + 1]);
      records := records[generationId := record];
      refs := refs[nextReferenceId := Reference(generationId, tag, outbound.value)];
      ref := Some(nextReferenceId);
      nextReferenceId := nextReferenceId + 1;
    }

    /** Releasing throws if it retires the generation and one of the stops this takes rejects; the registry is the
        same either way. */
    method ReleaseOutboundRef(ref: nat, rejects: Outbound -> bool) returns (threw: bool)
      requires Valid()
      modifies this
      ensures Valid() && State() == Release(old(State()), ref)
      ensures threw == ReleaseThrows(old(State()), ref, rejects)
    {
      if ref !in refs {
        return false;
      }
      var release := refs[ref];
      refs := refs - {ref};
      if release.generationId in records {
        var record := records[release.generationId];
        var counted := if release.tag in record.byTag then record.byTag[release.tag] else 1;
        var remaining := if counted >= 1 then counted - 1 else 0;
        records := records[release.generationId := record.(
          references := if record.references >= 1 then record.references - 1 else 0,
          byTag := if remaining == 0 then record.byTag - {release.tag} else record.byTag[release.tag := remaining])];
      }
      assert State() == Uncount(old(State()), ref);
      var _, stopThrew := RetireIfUnused(release.generationId, rejects);
      return stopThrew;
    }

    method SwitchGeneration(candidate: Candidate) returns (r: Result<string, string>)
      requires Valid() && candidate.outbounds.Valid()
      modifies this
      ensures Valid()
      ensures match Switch(old(State()), candidate)
        case Ok(s) => r == Ok(old(activeGenerationId)) && State() == s
        case Err(e) => r == Err(e) && State() == old(State())
    {
      if candidate.id in records {
        return Err("outbound runtime generation already exists");
      }
      var invalid := ValidateRuntimeEntries(candidate);
      if invalid.Some? {
        return Err(invalid.value);
      }
      if activeGenerationId !in records {
        return Err("outbound runtime generation is unavailable");
      }
      var oldId := activeGenerationId;
      var old' := records[oldId];
      records := records[oldId := old'.(state := Draining)];
      records := records[candidate.id := Generation(old'.sequence + 1, candidate.outbounds, 0, map[], Active)];
      activeGenerationId := candidate.id;
      return Ok(oldId);
    }

    method RestoreGeneration(oldId: string, candidateId: string) returns (r: Result<(), string>)
      requires Valid()
      modifies this
      ensures Valid()
      ensures match Restore(old(State()), oldId, candidateId)
        case Ok(s) => r == Ok(()) && State() == s
        case Err(e) => r == Err(e) && State() == old(State())
    {
      if oldId !in records || candidateId !in records {
        return Err("outbound runtime generation is unavailable");
      }
      records := records[candidateId := records[candidateId].(state := Draining)];
      records := records[oldId := records[oldId].(state := Active)];
      activeGenerationId := oldId;
      return Ok(());
    }

    method MarkGenerationDraining(id: string) returns (r: Result<(), string>)
      requires Valid()
      modifies this
      ensures Valid()
      ensures match MarkDraining(old(State()), id)
        case Ok(s) => r == Ok(()) && State() == s
        case Err(e) => r == Err(e) && State() == old(State())
    {
      if id !in records {
        return Err("outbound runtime generation is unavailable");
      }
      if id != activeGenerationId {
        records := records[id := records[id].(state := Draining)];
      }
      return Ok(());
    }

    /** The record is gone and every stop has begun before the first rejection is seen. */
    method RetireIfUnused(id: string, rejects: Outbound -> bool) returns (retired: bool, threw: bool)
      requires Valid()
      modifies this
      ensures Valid() && (State(), retired) == Retire(old(State()), id)
      ensures threw == AnyRejects(Stops(old(State()), id), rejects)
    {
      if id !in records || id == activeGenerationId || records[id].references > 0 {
        return false, false;
      }
      var outbounds := records[id].outbounds.Values();
      records := records - {id};
      stopped := stopped + outbounds;
      return true, AnyRejects(outbounds, rejects);
    }
  }
}
