/** `src/router/generation.ts`: the router and policy in force, switched as one pair by a transaction, while
    old holders keep the pair they acquired. */
module RoutingRuntimes {
  import opened Common

  /** `object` tells apart objects of one id: a reload tried again after it was rolled back repeats its ids. */
  datatype RouterGeneration = RouterGeneration(id: string, sequence: nat, object: nat)
  datatype PolicyGeneration = PolicyGeneration(id: string, sequence: nat, object: nat)

  /** What readers get; `manager` names the policy manager object. */
  datatype RoutingPair = RoutingPair(router: RouterGeneration, policy: PolicyGeneration, manager: nat)

  datatype Component = Router | Policy | Outbound

  datatype Transaction = Transaction(
    oldGeneration: RoutingPair,
    expected: set<Component>,
    committed: set<Component>,
    routerCandidate: Option<RouterGeneration>,
    policyCandidate: Option<PolicyGeneration>,
    published: bool)

  /** The runtime's fields. `held` has an entry for every handle whose `released` flag is still false;
      `managers` is the number the next manager created gets, above all given so far. */
  datatype Routing = Routing(
    active: RoutingPair,
    transactions: map<string, Transaction>,
    usage: map<string, nat>,
    draining: map<string, RoutingPair>,
    held: map<nat, RoutingPair>,
    handles: nat,
    managers: nat)

  function PairKey(p: RoutingPair): string {
    p.router.id + ":" + p.policy.id
  }

  function Usage(s: Routing, key: string): nat {
    if key in s.usage then s.usage[key] else 0
  }

  // ------------------------------------------------------------ operations

  function Initial(pair: RoutingPair): Routing {
    Routing(pair, map[], map[], map[], map[], 0, pair.manager + 1)
  }

  /** `acquire`: the handle is the token `s.handles`. */
  function Acquire(s: Routing): Routing {
    var key := PairKey(s.active);
    s.(usage := s.usage[key := Usage(s, key) + 1], held := s.held[s.handles := s.active], handles := s.handles + 1)
  }

  /** `release` of a handle: the first call counts, later ones do nothing. */
  function Release(s: Routing, handle: nat): Routing {
    if handle !in s.held then s
    else
      var key := PairKey(s.held[handle]);
      var before := if key in s.usage then s.usage[key] else 1;
      var rest := s.(held := s.held - {handle});
      if before <= 1 then rest.(usage := s.usage - {key}, draining := s.draining - {key})
      else rest.(usage := s.usage[key := before - 1])
  }

  function Begin(s: Routing, id: string, expected: seq<Component>): Result<Routing, string> {
    if id in s.transactions then Ok(s)
    else if expected == [] then Err("routing transaction requires a component")
    else Ok(s.(transactions := s.transactions[id := Transaction(s.active, ToSet(expected), {}, None, None, false)]))
  }

  function StageRouter(s: Routing, id: string, candidate: RouterGeneration): Result<Routing, string> {
    if id !in s.transactions then Err("routing transaction was not initialized")
    else Ok(s.(transactions := s.transactions[id := s.transactions[id].(routerCandidate := Some(candidate))]))
  }

  function StagePolicy(s: Routing, id: string, candidate: PolicyGeneration): Result<Routing, string> {
    if id !in s.transactions then Err("routing transaction was not initialized")
    else Ok(s.(transactions := s.transactions[id := s.transactions[id].(policyCandidate := Some(candidate))]))
  }

  /** The pair a transaction publishes; staging a policy makes a new manager, numbered `serial`. */
  function Candidate(t: Transaction, serial: nat): RoutingPair {
    RoutingPair(
      if t.routerCandidate.Some? then t.routerCandidate.value else t.oldGeneration.router,
      if t.policyCandidate.Some? then t.policyCandidate.value else t.oldGeneration.policy,
      if t.policyCandidate.Some? then serial else t.oldGeneration.manager)
  }

  /** Why a commit is refused, if it is; nothing has been changed by then. */
  function CommitError(s: Routing, id: string, c: Component): Option<string> {
    if id !in s.transactions then Some("routing transaction was not initialized")
    else
      var t := s.transactions[id];
      if c !in t.expected then Some("routing transaction did not expect component")
      else if c == Router && t.routerCandidate.None? then Some("routing transaction has no router candidate")
      else if c == Policy && t.policyCandidate.None? then Some("routing transaction has no policy candidate")
      else None
  }

  function Commit(s: Routing, id: string, c: Component): Result<Routing, string> {
    match CommitError(s, id, c)
    case Some(message) => Err(message)
    case None =>
      var t := s.transactions[id];
      var t' := t.(committed := t.committed + {c});
      if !(t.expected <= t'.committed) then Ok(s.(transactions := s.transactions[id := t']))
      else Ok(s.(
        transactions := s.transactions[id := t'.(published := true)],
        active := Candidate(t, s.managers),
        draining := s.draining[PairKey(s.active) := s.active],
        managers := s.managers + if t.policyCandidate.Some? then 1 else 0))
  }

  function Rollback(s: Routing, id: string): Routing {
    if id !in s.transactions || !s.transactions[id].published then s
    else
      var t := s.transactions[id];
      s.(active := t.oldGeneration,
         draining := s.draining - {PairKey(t.oldGeneration)} - {PairKey(s.active)},
         transactions := s.transactions[id := t.(published := false)])
  }

  function Cleanup(s: Routing, id: string): Routing {
    if id !in s.transactions then s
    else
      var t := s.transactions[id];
      var oldKey := PairKey(t.oldGeneration);
      var drained := if t.published && Usage(s, oldKey) == 0 then s.draining - {oldKey} else s.draining;
      s.(draining := drained, transactions := s.transactions - {id})
  }

  /** The next number, once a manager made elsewhere has come in. */
  function Above(managers: nat, manager: nat): nat {
    if manager < managers then managers else manager + 1
  }

  function ReplaceLegacy(s: Routing, next: RoutingPair): Routing {
    var oldKey := PairKey(s.active);
    s.(active := next, draining := if Usage(s, oldKey) > 0 then s.draining[oldKey := s.active] else s.draining,
       managers := Above(s.managers, next.manager))
  }

  // -------------------------------------------------------------- the class

  class RoutingGenerationRuntime {
    var activeGeneration: RoutingPair
    var transactions: map<string, Transaction>
    var usage: map<string, nat>
    var draining: map<string, RoutingPair>
    /** The handles not yet released, and the next numbers for handles and managers. */
    var held: map<nat, RoutingPair>
    var handles: nat
    var managers: nat

    ghost function State(): Routing
      reads this
    {
      Routing(activeGeneration, transactions, usage, draining, held, handles, managers)
    }

    constructor (initial: RoutingPair)
      ensures State() == Initial(initial)
    {
      activeGeneration := initial;
      transactions, usage, draining := map[], map[], map[];
      held, handles, managers := map[], 0, initial.manager + 1;
    }

    method AcquireHandle() returns (handle: nat, generation: RoutingPair)
      modifies this
      ensures State() == Acquire(old(State()))
      ensures handle == old(handles) && generation == activeGeneration == old(activeGeneration)
    {
      var key := PairKey(activeGeneration);
      usage := usage[key := (if key in usage then usage[key] else 0) + 1];
      held := held[handles := activeGeneration];
      handle, generation := handles, activeGeneration;
      handles := handles + 1;
    }

    method ReleaseHandle(handle: nat)
      modifies this
      ensures State() == Release(old(State()), handle)
    {
      if handle !in held {
        return;
      }
      var key := PairKey(held[handle]);
      held := held - {handle};
      var before := if key in usage then usage[key] else 1;
      var remaining := if before >= 1 then before - 1 else 0;
      if remaining == 0 {
        usage := usage - {key};
        draining := draining - {key};
      } else {
        usage := usage[key := remaining];
      }
    }

    method BeginTransaction(id: string, expected: seq<Component>) returns (r: Result<(), string>)
      modifies this
      ensures match Begin(old(State()), id, expected)
        case Ok(s) => r == Ok(()) && State() == s
        case Err(e) => r == Err(e) && State() == old(State())
    {
      if id in transactions {
        return Ok(());
      }
      if |expected| == 0 {
        return Err("routing transaction requires a component");
      }
      transactions := transactions[id := Transaction(activeGeneration, ToSet(expected), {}, None, None, false)];
      return Ok(());
    }

    method Stage(id: string, router: Option<RouterGeneration>, policy: Option<PolicyGeneration>)
      returns (r: Result<(), string>)
      requires router.Some? != policy.Some?
      modifies this
      ensures match (if router.Some? then StageRouter(old(State()), id, router.value)
                     else StagePolicy(old(State()), id, policy.value))
        case Ok(s) => r == Ok(()) && State() == s
        case Err(e) => r == Err(e) && State() == old(State())
    {
      if id !in transactions {
        return Err("routing transaction was not initialized");
      }
      if router.Some? {
        transactions := transactions[id := transactions[id].(routerCandidate := router)];
      } else {
        transactions := transactions[id := transactions[id].(policyCandidate := policy)];
      }
      return Ok(());
    }

    method CommitComponent(id: string, c: Component) returns (r: Result<(), string>)
      modifies this
      ensures match Commit(old(State()), id, c)
        case Ok(s) => r == Ok(()) && State() == s
        case Err(e) => r == Err(e) && State() == old(State())
    {
      if id !in transactions {
        return Err("routing transaction was not initialized");
      }
      var t := transactions[id];
      if c !in t.expected {
        return Err("routing transaction did not expect component");
      }
      if c == Router && t.routerCandidate.None? {
        return Err("routing transaction has no router candidate");
      }
      if c == Policy && t.policyCandidate.None? {
        return Err("routing transaction has no policy candidate");
      }
      t := t.(committed := t.committed + {c});
      transactions := transactions[id := t];
      if !(t.expected <= t.committed) {
        return Ok(());
      }
      var next := Candidate(t, managers);
      if t.policyCandidate.Some? {
        managers := managers + 1;
      }
      var old' := activeGeneration;
      activeGeneration := next;
      draining := draining[PairKey(old') := old'];
      transactions := transactions[id := t.(published := true)];
      assert transactions == old(transactions)[id := t.(published := true)];
      return Ok(());
    }

    method RollbackTransaction(id: string)
      modifies this
      ensures State() == Rollback(old(State()), id)
    {
      if id !in transactions {
        return;
      }
      var t := transactions[id];
      if t.published {
        var candidateKey := PairKey(activeGeneration);
        activeGeneration := t.oldGeneration;
        draining := draining - {PairKey(t.oldGeneration)};
        draining := draining - {candidateKey};
        transactions := transactions[id := t.(published := false)];
      }
    }

    method CleanupTransaction(id: string)
      modifies this
      ensures State() == Cleanup(old(State()), id)
    {
      if id !in transactions {
        return;
      }
      var t := transactions[id];
      if t.published {
        var oldKey := PairKey(t.oldGeneration);
        if oldKey !in usage || usage[oldKey] == 0 {
          draining := draining - {oldKey};
        }
      }
      transactions := transactions - {id};
    }

    method Replace(next: RoutingPair)
      modifies this
      ensures State() == ReplaceLegacy(old(State()), next)
    {
      var old' := activeGeneration;
      activeGeneration := next;
      managers := Above(managers, next.manager);
      var oldKey := PairKey(old');
      if oldKey in usage && usage[oldKey] > 0 {
        draining := draining[oldKey := old'];
      }
    }
  }
}
