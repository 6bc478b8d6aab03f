/** What every run of the reload executor guarantees: the order of its calls, and all-or-nothing. */
module ReloadAtomicity {
  import opened Common
  import opened ReloadTransactions
  import opened ReloadExecutors

  // ------------------------------------- which components run the new generation

  /** Whether a call had its effect on the component: always when it returns, possibly when it throws. */
  predicate Effective(w: World, call: Call) {
    match w(call) case Done => true case Throws(_, took) => took
  }

  function LiveStep(w: World, live: set<nat>, call: Call): set<nat> {
    if !Effective(w, call) then live
    else if call.stage == Commit then live + {call.component}
    else if call.stage == Rollback then live - {call.component}
    else live
  }

  /** The components live on the new generation after these calls, starting from these. */
  function LiveAfter(w: World, live: set<nat>, calls: seq<Call>): set<nat>
    decreases |calls|
  {
    if calls == [] then live else LiveAfter(w, LiveStep(w, live, calls[0]), calls[1..])
  }

  function Below(k: nat): set<nat> {
    ToSet(Numbers(k))
  }

  lemma InBelow(i: nat, k: nat)
    ensures i in Below(k) <==> i < k
  {
    if i < k {
      assert Numbers(k)[i] == i;
    }
  }

  lemma {:induction false} LiveAppend(w: World, live: set<nat>, a: seq<Call>, b: seq<Call>)
    ensures LiveAfter(w, live, a + b) == LiveAfter(w, LiveAfter(w, live, a), b)
    decreases |a|
  {
    if a == [] {
      assert a + b == b;
    } else {
      LiveAppend(w, LiveStep(w, live, a[0]), a[1..], b);
      assert (a + b)[1..] == a[1..] + b;
    }
  }

  lemma {:induction false} LiveUntouched(w: World, live: set<nat>, calls: seq<Call>)
    requires forall i :: 0 <= i < |calls| ==> calls[i].stage != Commit && calls[i].stage != Rollback
    ensures LiveAfter(w, live, calls) == live
    decreases |calls|
  {
    if calls != [] {
      LiveUntouched(w, live, calls[1..]);
    }
  }

  lemma {:induction false} LiveCommits(w: World, live: set<nat>, k: nat)
    ensures LiveAfter(w, live, Up(Commit, k)) == live + set i: nat | i < k && Effective(w, Call(Commit, i))
  {
    if k > 0 {
      UpGrows(Commit, k - 1);
      LiveCommits(w, live, k - 1);
      LiveAppend(w, live, Up(Commit, k - 1), [Call(Commit, k - 1)]);
      var before := LiveAfter(w, live, Up(Commit, k - 1));
      assert LiveAfter(w, before, [Call(Commit, k - 1)]) == LiveStep(w, before, Call(Commit, k - 1));
    }
  }

  lemma {:induction false} LiveRollbacks(w: World, live: set<nat>, k: nat)
    ensures LiveAfter(w, live, Down(Rollback, k)) == live - set i: nat | i < k && Effective(w, Call(Rollback, i))
  {
    if k > 0 {
      assert Down(Rollback, k)[1..] == Down(Rollback, k - 1);
      LiveRollbacks(w, LiveStep(w, live, Call(Rollback, k - 1)), k - 1);
    }
  }

  /** The components that end up on the new generation after any run: those whose commit was attempted and
      took effect, less those whose rollback was attempted and took effect. */
  function FinallyNew(w: World, n: nat): set<nat> {
    (set i: nat | i < n && AllHealthy(w, n) && i <= CommittedCount(w, n) && Effective(w, Call(Commit, i)))
    - set i: nat | i < RollbackCount(w, n) && Effective(w, Call(Rollback, i))
  }

  lemma LiveForward(w: World, n: nat)
    ensures LiveAfter(w, {}, Forward(w, n))
         == set i: nat | i < n && AllHealthy(w, n) && i <= CommittedCount(w, n) && Effective(w, Call(Commit, i))
  {
    if AllHealthy(w, n) {
      var c := CommittedCount(w, n);
      var simple := [Call(Parse, 0)] + ([Call(Validate, 0)] + (Up(Prepare, n) + Up(Health, n)));
      var commits := Attempts(Commit, c, n);
      assert Forward(w, n) == simple + commits;
      LiveUntouched(w, {}, simple);
      LiveAppend(w, {}, simple, commits);
      LiveCommits(w, {}, |commits|);
    } else {
      LiveUntouched(w, {}, Forward(w, n));
    }
  }

  /** Main result: the exact outcome of every run, whatever fails. */
  lemma LiveAtTheEnd(w: World, n: nat)
    ensures LiveAfter(w, {}, ExpectedTrace(w, n)) == FinallyNew(w, n)
  {
    var cleanups := Down(Cleanup, PreparedCount(w, n));
    LiveForward(w, n);
    var committed := LiveAfter(w, {}, Forward(w, n));
    LiveAppend(w, {}, Forward(w, n), Backward(w, n));
    LiveRollbacks(w, committed, RollbackCount(w, n));
    LiveAppend(w, {}, Forward(w, n) + Backward(w, n), cleanups);
    LiveUntouched(w, LiveAfter(w, {}, Forward(w, n) + Backward(w, n)), cleanups);
  }

  // -------------------------------------------------------------- atomicity

  /** The contract of `commit`: one that throws has had no visible effect. */
  ghost predicate FailedCommitsHaveNoEffect(w: World, n: nat) {
    forall i: nat :: i < n && w(Call(Commit, i)).Throws? ==> !w(Call(Commit, i)).tookEffect
  }

  ghost predicate NoRollbackError(w: World, n: nat) {
    forall i: nat :: i < RollbackCount(w, n) ==> w(Call(Rollback, i)).Done?
  }

  /** A caller sees it in `componentErrors`. */
  lemma NoRollbackErrorIsSeen(w: World, n: nat)
    ensures NoRollbackError(w, n) <==> forall e :: e in ErrorsOf(w, ExpectedTrace(w, n)) ==> e.stage != Rollback
  {
    var trace := ExpectedTrace(w, n);
    ErrorsAreThrown(w, trace, Rollback);
    forall i: nat ensures Call(Rollback, i) in trace <==> i < RollbackCount(w, n) {
      MemberOf(w, n, Call(Rollback, i));
    }
    if NoRollbackError(w, n) {
      forall c | c in trace && c.stage == Rollback ensures w(c).Done? {
        assert c == Call(Rollback, c.component);
      }
    } else {
      var i: nat :| i < RollbackCount(w, n) && w(Call(Rollback, i)).Throws?;
      assert Call(Rollback, i) in trace;
    }
  }

  /** The entry for a call that threw: its stage, its component and its message. */
  predicate IsEntry(w: World, c: Call, e: ComponentError) {
    w(c).Throws? && e.stage == c.stage && e.component == c.component && e.message == w(c).message
  }

  /** An entry for each call that threw, in the order of the calls. */
  ghost predicate ErrorsAt(w: World, calls: seq<Call>, errors: seq<ComponentError>, at: seq<nat>) {
    && |errors| == |at| && Rising(at)
    && (forall i :: 0 <= i < |at| ==> at[i] < |calls| && IsEntry(w, calls[at[i]], errors[i]))
    && (forall k: nat :: k < |calls| && k !in at ==> w(calls[k]).Done?)
  }

  /** Main result on the error list, of any list of calls. */
  lemma {:induction false} ErrorsAreExact(w: World, calls: seq<Call>) returns (at: seq<nat>)
    ensures ErrorsAt(w, calls, ErrorsOf(w, calls), at)
    decreases |calls|
  {
    hide ErrorsAt;
    if calls == [] {
      NoErrors(w);
      return [];
    }
    var m := |calls| - 1;
    var earlier, last := calls[..m], calls[m];
    assert calls == earlier + [last];
    at := ErrorsAreExact(w, earlier);
    if w(last).Throws? {
      var e := ComponentError(last.stage, last.component, w(last).message);
      OneMoreError(w, earlier, ErrorsOf(w, earlier), at, last, e);
      at := at + [m];
    } else {
      assert ErrorsOf(w, calls) == ErrorsOf(w, earlier);
      OneMoreDone(w, earlier, ErrorsOf(w, earlier), at, last);
    }
  }

  lemma NoErrors(w: World)
    ensures ErrorsAt(w, [], [], [])
  {
  }

  lemma OneMoreError(w: World, calls: seq<Call>, errors: seq<ComponentError>, at: seq<nat>, last: Call,
                     e: ComponentError)
    requires ErrorsAt(w, calls, errors, at) && IsEntry(w, last, e)
    ensures ErrorsAt(w, calls + [last], errors + [e], at + [|calls|])
  {
    hide IsEntry;
    var all, at' := calls + [last], at + [|calls|];
    forall k: nat | k < |all| && k !in at' ensures w(all[k]).Done? {
      assert at'[|at|] in at' && k !in at;
    }
  }

  lemma OneMoreDone(w: World, calls: seq<Call>, errors: seq<ComponentError>, at: seq<nat>, last: Call)
    requires ErrorsAt(w, calls, errors, at) && w(last).Done?
    ensures ErrorsAt(w, calls + [last], errors, at)
  {
    hide IsEntry;
  }

  lemma ErrorsAreThrown(w: World, calls: seq<Call>, stage: Stage)
    ensures (exists e :: e in ErrorsOf(w, calls) && e.stage == stage) <==>
      exists c :: c in calls && c.stage == stage && w(c).Throws?
  {
    hide ErrorsOf;
    var errors := ErrorsOf(w, calls);
    var at := ErrorsAreExact(w, calls);
    if c :| c in calls && c.stage == stage && w(c).Throws? {
      var k: nat :| k < |calls| && calls[k] == c;
      var i :| 0 <= i < |at| && at[i] == k;
      assert errors[i] in errors;
    }
    if e :| e in errors && e.stage == stage {
      var i :| 0 <= i < |errors| && errors[i] == e;
      assert calls[at[i]] in calls;
    }
  }

  /** `committed`: every component is live on the new generation. */
  lemma CommittedMeansAllNew(w: World, n: nat)
    ensures FinalState(w, n) == Committed <==> PrimaryFailure(w, n).None?
    ensures FinalState(w, n) == Committed ==> LiveAfter(w, {}, ExpectedTrace(w, n)) == Below(n)
  {
    LiveAtTheEnd(w, n);
    forall i: nat ensures i in Below(n) <==> i < n {
      InBelow(i, n);
    }
  }

  /** `failed`, or `rolled-back` with no rollback error: every component is live on the old generation. */
  lemma AbortedMeansAllOld(w: World, n: nat)
    requires FailedCommitsHaveNoEffect(w, n)
    requires FinalState(w, n) == Failed || (FinalState(w, n) == RolledBack && NoRollbackError(w, n))
    ensures LiveAfter(w, {}, ExpectedTrace(w, n)) == {}
  {
    LiveAtTheEnd(w, n);
  }

  /** The commit that fails is not rolled back, so its having had no effect is exactly what is needed. */
  lemma RolledBackIsCleanExactlyWhen(w: World, n: nat)
    requires FinalState(w, n) == RolledBack && NoRollbackError(w, n)
    ensures LiveAfter(w, {}, ExpectedTrace(w, n)) == {}
       <==> !(AllHealthy(w, n) && Effective(w, Call(Commit, CommittedCount(w, n))))
  {
    LiveAtTheEnd(w, n);
    var c := CommittedCount(w, n);
    if AllHealthy(w, n) && Effective(w, Call(Commit, c)) {
      assert c in FinallyNew(w, n);
    }
  }

  /** A blank failure reason skips the rollback: whatever was committed stays on the new generation. The old
      generation is whole again only if no commit had taken effect. */
  lemma RejectedKeepsCommits(w: World, n: nat)
    requires Rejected(w, n)
    ensures LiveAfter(w, {}, ExpectedTrace(w, n))
         == set i: nat | i < n && AllHealthy(w, n) && i <= CommittedCount(w, n) && Effective(w, Call(Commit, i))
    ensures FinalState(w, n) in {Parsing, Validating, Preparing, Prepared, Committing}
  {
    LiveAtTheEnd(w, n);
    PrimaryFailureMeans(w, n);
  }

  /** A run that does split the components: the second commit throws a blank message. */
  lemma BlankReasonSplitsComponents()
    returns (w: World)
    ensures FailedCommitsHaveNoEffect(w, 2) && Rejected(w, 2)
    ensures LiveAfter(w, {}, ExpectedTrace(w, 2)) == {0}
  {
    w := call => if call == Call(Commit, 1) then Throws(" ", false) else Done;
    assert FirstFailing(w, Commit, 0, 2) == 1;
    assert Effective(w, Call(Commit, 0)) && !Effective(w, Call(Commit, 1));
    RejectedKeepsCommits(w, 2);
  }

  // ----------------------------------------------------------- call order

  /** Main result: a call is made exactly when it may be. Commits come only once every
      component is prepared and healthy; a rollback only for a component that was prepared, and after a failed
      commit only for one whose commit returned; a cleanup for exactly the components that were prepared. */
  lemma CallLaws(w: World, n: nat, i: nat)
    ensures Call(Prepare, i) in ExpectedTrace(w, n)
       <==> i < n && ParsedAndValid(w) && i <= PreparedCount(w, n)
    ensures Call(Health, i) in ExpectedTrace(w, n)
       <==> i < n && AllPrepared(w, n) && forall j: nat :: j < i ==> w(Call(Health, j)).Done?
    ensures Call(Commit, i) in ExpectedTrace(w, n)
       <==> i < n && AllHealthy(w, n) && forall j: nat :: j < i ==> w(Call(Commit, j)).Done?
    ensures Call(Rollback, i) in ExpectedTrace(w, n) <==> i < RollbackCount(w, n)
    ensures i < RollbackCount(w, n) ==> w(Call(Prepare, i)).Done? && (AllHealthy(w, n) ==> w(Call(Commit, i)).Done?)
    ensures Call(Cleanup, i) in ExpectedTrace(w, n) <==> i < PreparedCount(w, n)
  {
    MemberOf(w, n, Call(Prepare, i));
    MemberOf(w, n, Call(Health, i));
    MemberOf(w, n, Call(Commit, i));
    MemberOf(w, n, Call(Rollback, i));
    MemberOf(w, n, Call(Cleanup, i));
  }

  /** Calls 0 to k - 1 of a stage return. */
  ghost predicate AllDone(w: World, stage: Stage, k: nat) {
    forall j: nat :: j < k ==> w(Call(stage, j)).Done?
  }

  /** The same outright, by what the calls before it did. After a failed commit those are rolled back whose commits
      returned, after an earlier failure those whose prepares did, unless its reason was blank. */
  lemma CallsOutright(w: World, n: nat, i: nat)
    ensures var trace, begun := ExpectedTrace(w, n), w(Call(Parse, 0)).Done? && w(Call(Validate, 0)).Done? && i < n;
      var prepared := begun && AllDone(w, Prepare, n);
      var healthy := prepared && AllDone(w, Health, n);
      && (Call(Prepare, i) in trace <==> begun && AllDone(w, Prepare, i))
      && (Call(Health, i) in trace <==> prepared && AllDone(w, Health, i))
      && (Call(Commit, i) in trace <==> healthy && AllDone(w, Commit, i))
      && (Call(Cleanup, i) in trace <==> begun && AllDone(w, Prepare, i + 1))
      && (Call(Rollback, i) in trace <==>
            && !Rejected(w, n) && begun
            && if healthy then !AllDone(w, Commit, n) && AllDone(w, Commit, i + 1) else AllDone(w, Prepare, i + 1))
  {
    CallLaws(w, n, i);
    DoneUpTo(w, Prepare, n, i);
    DoneUpTo(w, Health, n, i);
    DoneUpTo(w, Commit, n, i);
  }

  lemma DoneUpTo(w: World, stage: Stage, n: nat, i: nat)
    ensures var k := FirstFailing(w, stage, 0, n);
      && (k == n <==> AllDone(w, stage, n))
      && (i < n ==> (i <= k <==> AllDone(w, stage, i)) && (i < k <==> AllDone(w, stage, i + 1)))
  {
  }

  /** The failure a run goes by is the one call before the rollback that throws. */
  lemma OnlyPrimaryThrows(w: World, n: nat, c: Call)
    ensures PrimaryFailure(w, n) == Some(c) <==>
      c in ExpectedTrace(w, n) && c.stage != Rollback && c.stage != Cleanup && w(c).Throws?
  {
    hide ExpectedTrace, AllHealthy, AllPrepared;
    MemberOf(w, n, c);
    PrimaryIsMade(w, n, c);
  }

  lemma PrimaryIsMade(w: World, n: nat, c: Call)
    ensures PrimaryFailure(w, n) == Some(c) <==> ForwardCall(w, n, c) && w(c).Throws?
  {
    assert c == Call(c.stage, c.component);
    match c.stage
    case Prepare => assert w(c) == w(Call(Prepare, c.component));
    case Health => assert w(c) == w(Call(Health, c.component));
    case Commit => assert w(c) == w(Call(Commit, c.component));
    case _ =>
  }

  lemma InAttempts(stage: Stage, k: nat, n: nat, c: Call)
    requires k <= n
    ensures c in Attempts(stage, k, n) <==> c.stage == stage && c.component < n && c.component <= k
  {
    if c.stage == stage && c.component < n && c.component <= k {
      assert Attempts(stage, k, n)[c.component] == c;
    }
  }

  lemma InDown(stage: Stage, k: nat, c: Call)
    ensures c in Down(stage, k) <==> c.stage == stage && c.component < k
  {
    if c.stage == stage && c.component < k {
      assert Down(stage, k)[k - 1 - c.component] == c;
    }
  }

  /** The calls of a run, stage by stage. */
  lemma MemberOf(w: World, n: nat, c: Call)
    ensures c in ExpectedTrace(w, n) <==>
      match c.stage
      case Rollback => c.component < RollbackCount(w, n)
      case Cleanup => c.component < PreparedCount(w, n)
      case _ => ForwardCall(w, n, c)
  {
    InForward(w, n, c);
    InDown(Rollback, RollbackCount(w, n), c);
    InDown(Cleanup, PreparedCount(w, n), c);
  }

  ghost predicate ForwardCall(w: World, n: nat, c: Call) {
    match c.stage
    case Parse => c.component == 0
    case Validate => c.component == 0 && w(Call(Parse, 0)).Done?
    case Prepare => ParsedAndValid(w) && c.component < n && c.component <= PreparedCount(w, n)
    case Health => AllPrepared(w, n) && c.component < n && c.component <= FirstFailing(w, Health, 0, n)
    case Commit => AllHealthy(w, n) && c.component < n && c.component <= CommittedCount(w, n)
    case _ => false
  }

  lemma InForward(w: World, n: nat, c: Call)
    ensures c in Forward(w, n) <==> ForwardCall(w, n, c)
  {
    if ParsedAndValid(w) {
      InComponentCalls(w, n, c);
      assert Forward(w, n) == [Call(Parse, 0)] + ([Call(Validate, 0)] + ComponentCalls(w, n));
    } else if w(Call(Parse, 0)).Done? {
      assert Forward(w, n) == [Call(Parse, 0)] + [Call(Validate, 0)];
    }
  }

  lemma InComponentCalls(w: World, n: nat, c: Call)
    requires ParsedAndValid(w)
    ensures c in ComponentCalls(w, n) <==> ForwardCall(w, n, c) && c.stage != Parse && c.stage != Validate
  {
    InAttempts(Prepare, FirstFailing(w, Prepare, 0, n), n, c);
    InAttempts(Health, FirstFailing(w, Health, 0, n), n, c);
    InAttempts(Commit, FirstFailing(w, Commit, 0, n), n, c);
  }

  /** No call is made twice. */
  lemma NoCallTwice(w: World, n: nat)
    ensures Distinct(ExpectedTrace(w, n))
  {
    hide Forward, RollbackCount, PreparedCount;
    var back, last := Backward(w, n), Down(Cleanup, PreparedCount(w, n));
    ForwardDistinct(w, n);
    forall c | c in Forward(w, n) ensures c !in back && c !in last {
      InForward(w, n, c);
    }
    DistinctAppend(Forward(w, n), back);
    DistinctAppend(Forward(w, n) + back, last);
  }

  lemma ForwardDistinct(w: World, n: nat)
    ensures Distinct(Forward(w, n))
  {
    var p, h, c := FirstFailing(w, Prepare, 0, n), FirstFailing(w, Health, 0, n), FirstFailing(w, Commit, 0, n);
    DistinctAppend(Attempts(Health, h, n), Attempts(Commit, c, n));
    DistinctAppend(Attempts(Prepare, p, n), CheckedCalls(w, n));
    DistinctAppend([Call(Validate, 0)], ComponentCalls(w, n));
    DistinctAppend([Call(Parse, 0)], [Call(Validate, 0)] + ComponentCalls(w, n));
  }
}
