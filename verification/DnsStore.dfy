/** `src/dns/generationStore.ts`: which DNS generation answers new queries, and which old ones are still in use. */
module DnsStores {
  import opened Common
  import opened OrderedMaps
  import opened DnsCaches

  /** The part of a generation the store deals with. */
  datatype Life = Life(queryRefs: nat, inFlight: nat, draining: bool)
  {
    /** `isReleasable` */
    predicate Releasable() {
      draining && queryRefs == 0 && inFlight == 0
    }
  }

  /** The store: the active id, the ids stored, in order, and the lives of all generations there are. */
  datatype Store = Store(active: string, stored: seq<string>, gens: map<string, Life>)

  predicate Wf(s: Store) {
    s.active in s.gens && forall id :: id in s.stored ==> id in s.gens
  }

  function WithLife(s: Store, id: string, life: Life): Store {
    s.(gens := s.gens[id := life])
  }

  function Insert(ids: seq<string>, id: string): seq<string> {
    if id in ids then ids else ids + [id]
  }

  // ------------------------------------------------------------ operations

  /** `acquire`, up to the handle */
  function BeginQuery(s: Store): Store
    requires Wf(s)
  {
    var life := s.gens[s.active];
    WithLife(s, s.active, life.(queryRefs := life.queryRefs + 1))
  }

  /** `endQuery` */
  function EndQuery(s: Store, id: string): Store
    requires id in s.gens
  {
    var life := s.gens[id];
    WithLife(s, id, life.(queryRefs := if life.queryRefs > 0 then life.queryRefs - 1 else 0))
  }

  /** Whether `releaseDrained` keeps a generation. */
  predicate Stays(s: Store, id: string)
    requires id in s.gens
  {
    id == s.active || !s.gens[id].Releasable()
  }

  function Keep(s: Store, ids: seq<string>): seq<string>
    requires forall id :: id in ids ==> id in s.gens
  {
    if ids == [] then []
    else (if Stays(s, ids[0]) then [ids[0]] else []) + Keep(s, ids[1..])
  }

  function ReleaseDrained(s: Store): Store
    requires Wf(s)
  {
    s.(stored := Keep(s, s.stored))
  }

  /** A handle's `release`, the first time */
  function ReleaseHandle(s: Store, id: string): Store
    requires Wf(s) && id in s.gens
  {
    ReleaseDrained(EndQuery(s, id))
  }

  function SwitchTo(s: Store, candidate: string): Store
    requires Wf(s) && candidate in s.gens
  {
    var drained := WithLife(s, s.active, s.gens[s.active].(draining := true));
    var activated := WithLife(drained, candidate, drained.gens[candidate].(draining := false));
    activated.(stored := Insert(s.stored, candidate), active := candidate)
  }

  /** The candidate drains, the old one is active again. */
  function Remark(s: Store, old': string, candidate: string): Store
    requires old' in s.gens && candidate in s.gens
  {
    var drained := WithLife(s, candidate, s.gens[candidate].(draining := true));
    WithLife(drained, old', drained.gens[old'].(draining := false))
  }

  /** `restore` up to its last line */
  function Reinstate(s: Store, old': string, candidate: string): (r: Store)
    requires Wf(s) && old' in s.gens && candidate in s.gens
    ensures Wf(r)
  {
    Remark(s, old', candidate).(stored := Insert(Insert(s.stored, old'), candidate), active := old')
  }

  function Restore(s: Store, old': string, candidate: string): Store
    requires Wf(s) && old' in s.gens && candidate in s.gens
  {
    ReleaseDrained(Reinstate(s, old', candidate))
  }

  lemma {:induction false} KeepSelects(s: Store, ids: seq<string>)
    requires forall id :: id in ids ==> id in s.gens
    ensures forall id :: id in Keep(s, ids) <==> id in ids && Stays(s, id)
    ensures Distinct(ids) ==> Distinct(Keep(s, ids))
  {
    if ids != [] {
      KeepSelects(s, ids[1..]);
      assert ids == [ids[0]] + ids[1..];
      if Distinct(ids) {
        assert ids[0] !in ids[1..];
        var rest := Keep(s, ids[1..]);
        forall i | 0 <= i < |rest| ensures rest[i] != ids[0] {
          assert rest[i] in rest;
        }
      }
    }
  }

  // -------------------------------------------------------------- the class

  function LifeOf(g: DNSGeneration): Life
    reads g
  {
    Life(g.queryRefs, g.inFlight, g.draining)
  }

  class DNSGenerationStore {
    var activeGeneration: DNSGeneration
    var generations: OrderedMap<string, DNSGeneration>
    /** Every generation object made so far; ids name them. */
    ghost var known: set<DNSGeneration>

    ghost predicate Valid()
      reads this
    {
      && generations.Valid()
      && activeGeneration in known
      && (forall g, h :: g in known && h in known && g.id == h.id ==> g == h)
      && (forall id :: id in generations.vals ==> generations.vals[id] in known && generations.vals[id].id == id)
    }

    ghost function State(): Store
      requires Valid()
      reads this, known
    {
      Store(activeGeneration.id, generations.keys, map g | g in known :: g.id := LifeOf(g))
    }

    constructor (initial: DNSGeneration)
      ensures Valid() && activeGeneration == initial && known == {initial}
      ensures State() == Store(initial.id, [initial.id], map[initial.id := LifeOf(initial)])
    {
      activeGeneration := initial;
      generations := OrderedMap([initial.id], map[initial.id := initial]);
      known := {initial};
    }

    /** A generation object comes to the store. */
    ghost method Introduce(candidate: DNSGeneration)
      requires Valid() && forall g :: g in known ==> g.id != candidate.id
      modifies this`known
      ensures Valid() && known == old(known) + {candidate}
      ensures State() == WithLife(old(State()), candidate.id, LifeOf(candidate))
    {
      hide LifeOf;
      known := known + {candidate};
    }

    method Acquire() returns (handle: DNSGeneration)
      requires Valid()
      modifies activeGeneration`queryRefs
      ensures Valid() && handle == activeGeneration
      ensures Wf(old(State())) && State() == BeginQuery(old(State()))
    {
      handle := activeGeneration;
      handle.BeginQuery();
    }

    /** The handle's `release`, the first time it is called */
    method Release(handle: DNSGeneration)
      requires Valid() && handle in known
      modifies this`generations, handle`queryRefs
      ensures Valid() && Wf(old(State())) && State() == ReleaseHandle(old(State()), handle.id)
    {
      handle.EndQuery();
      assert State() == EndQuery(old(State()), handle.id);
      var _ := ReleaseAllDrained();
    }

    /** `markDraining` or `markActive` on one generation */
    method Mark(generation: DNSGeneration, draining: bool)
      requires Valid() && generation in known
      modifies generation`draining
      ensures Valid() && generation.id in old(State()).gens
      ensures State() == WithLife(old(State()), generation.id, old(State()).gens[generation.id].(draining := draining))
    {
      if draining {
        generation.MarkDraining();
      } else {
        generation.MarkActive();
      }
    }

    /** `generations.set(generation.id, generation)` */
    method File(generation: DNSGeneration)
      requires Valid() && generation in known
      modifies this`generations
      ensures Valid() && State() == old(State()).(stored := Insert(old(State()).stored, generation.id))
    {
      generations := generations.Put(generation.id, generation);
    }

    /** `activeGeneration = generation` */
    method Activate(generation: DNSGeneration)
      requires Valid() && generation in known
      modifies this`activeGeneration
      ensures Valid() && activeGeneration == generation && State() == old(State()).(active := generation.id)
    {
      activeGeneration := generation;
    }

    /** `switchTo` */
    method Switch(candidate: DNSGeneration) returns (old': DNSGeneration)
      requires Valid() && forall g :: g in known ==> g.id != candidate.id
      modifies this`activeGeneration, this`generations, this`known, activeGeneration`draining, candidate`draining
      ensures Valid() && old' == old(activeGeneration) && activeGeneration == candidate
      ensures known == old(known) + {candidate} && Wf(old(State()))
      ensures State() == SwitchTo(WithLife(old(State()), candidate.id, old(LifeOf(candidate))), candidate.id)
    {
      hide LifeOf, SwitchTo;
      Introduce(candidate);
      old' := Promote(candidate);
    }

    method Promote(candidate: DNSGeneration) returns (old': DNSGeneration)
      requires Valid() && candidate in known
      modifies this`activeGeneration, this`generations, activeGeneration`draining, candidate`draining
      ensures Valid() && old' == old(activeGeneration) && activeGeneration == candidate
      ensures Wf(old(State())) && State() == SwitchTo(old(State()), candidate.id)
    {
      old' := activeGeneration;
      Mark(old', true);
      Mark(candidate, false);
      File(candidate);
      Activate(candidate);
    }

    method RestoreOld(old': DNSGeneration, candidate: DNSGeneration)
      requires Valid() && old' in known && candidate in known
      modifies this`activeGeneration, this`generations, old'`draining, candidate`draining
      ensures Valid() && activeGeneration == old'
      ensures Wf(old(State())) && State() == Restore(old(State()), old'.id, candidate.id)
    {
      PutBack(old', candidate);
      var _ := ReleaseAllDrained();
    }

    method PutBack(old': DNSGeneration, candidate: DNSGeneration)
      requires Valid() && old' in known && candidate in known
      modifies this`activeGeneration, this`generations, old'`draining, candidate`draining
      ensures Valid() && activeGeneration == old'
      ensures Wf(old(State())) && State() == Reinstate(old(State()), old'.id, candidate.id)
    {
      hide Insert;
      MarkBoth(old', candidate);
      FileBoth(old', candidate);
      Activate(old');
    }

    method MarkBoth(old': DNSGeneration, candidate: DNSGeneration)
      requires Valid() && old' in known && candidate in known
      modifies old'`draining, candidate`draining
      ensures Valid() && old'.id in old(State()).gens && candidate.id in old(State()).gens
      ensures State() == Remark(old(State()), old'.id, candidate.id)
    {
      Mark(candidate, true);
      Mark(old', false);
    }

    method FileBoth(old': DNSGeneration, candidate: DNSGeneration)
      requires Valid() && old' in known && candidate in known
      modifies this`generations
      ensures Valid()
      ensures State() == old(State()).(stored := Insert(Insert(old(State()).stored, old'.id), candidate.id))
    {
      File(old');
      File(candidate);
    }

    /** `releaseDrained`: one pass over the stored generations, deleting those no longer needed. */
    method ReleaseAllDrained() returns (released: seq<string>)
      requires Valid()
      modifies this`generations
      ensures Valid() && Wf(old(State())) && State() == ReleaseDrained(old(State()))
    {
      released := [];
      var ids := generations.keys;
      var i := 0;
      ghost var s, before, rest := State(), [], ids;
      while i < |ids|
        invariant 0 <= i <= |ids| && Valid()
        invariant Distinct(ids) && forall id :: id in ids ==> id in s.gens
        invariant before == Keep(s, ids[..i]) && rest == ids[i..]
        invariant generations.keys == before + rest
        invariant State() == s.(stored := generations.keys)
      {
        KeepOneMore(s, ids, i);
        var dropped := Visit(ids[i], before, ids[i + 1..]);
        if dropped {
          released := released + [ids[i]];
        } else {
          before := before + [ids[i]];
        }
        i := i + 1;
        rest := ids[i..];
      }
      assert ids[..i] == ids;
    }

    /** One turn of that pass. */
    method Visit(id: string, ghost before: seq<string>, ghost after: seq<string>) returns (dropped: bool)
      requires Valid() && generations.keys == before + ([id] + after) && id !in before && id !in after
      modifies this`generations
      ensures Valid() && id in old(State()).gens && dropped == !Stays(old(State()), id)
      ensures generations.keys == if dropped then before + after else before + [id] + after
      ensures State() == old(State()).(stored := generations.keys)
    {
      hide FiledByHost;
      assert id in generations.keys;
      var generation := generations.vals[id];
      dropped := generation != activeGeneration && generation.IsReleasable();
      if dropped {
        DeleteFromMiddle(before, id, after);
        generations := generations.Delete(id);
      }
    }
  }

  /** One more id looked at. */
  lemma KeepOneMore(s: Store, ids: seq<string>, i: nat)
    requires i < |ids| && Distinct(ids) && forall id :: id in ids ==> id in s.gens
    ensures Keep(s, ids[..i + 1]) == if Stays(s, ids[i]) then Keep(s, ids[..i]) + [ids[i]] else Keep(s, ids[..i])
    ensures ids[i] !in Keep(s, ids[..i]) && ids[i] !in ids[i + 1..] && ids[i..] == [ids[i]] + ids[i + 1..]
  {
    assert ids[..i + 1] == ids[..i] + [ids[i]];
    KeepAppend(s, ids[..i], [ids[i]]);
    assert Keep(s, [ids[i]]) == (if Stays(s, ids[i]) then [ids[i]] else []) + Keep(s, [ids[i]][1..]);
    KeepSelects(s, ids[..i]);
  }

  lemma {:induction false} KeepAppend(s: Store, a: seq<string>, b: seq<string>)
    requires forall id :: id in a + b ==> id in s.gens
    ensures Keep(s, a + b) == Keep(s, a) + Keep(s, b)
  {
    if a == [] {
      assert a + b == b;
    } else {
      assert (a + b)[1..] == a[1..] + b;
      KeepAppend(s, a[1..], b);
    }
  }

  lemma DeleteFromMiddle(a: seq<string>, id: string, b: seq<string>)
    requires id !in a && id !in b
    ensures Without(a + ([id] + b), id) == a + b
  {
    WithoutAppend(a, [id] + b, id);
    WithoutAbsent(a, id);
    HeadWithout(id, b);
  }

  lemma HeadWithout(id: string, b: seq<string>)
    requires id !in b
    ensures Without([id] + b, id) == b
  {
    assert ([id] + b)[1..] == b;
    WithoutAbsent(b, id);
  }
}
