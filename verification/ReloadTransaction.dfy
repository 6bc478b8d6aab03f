/** `src/reload/generation.ts`: the state machine of one reload transaction. */
module ReloadTransactions {
  import opened Common

  datatype TxState =
    | Idle | Parsing | Validating | Preparing | Prepared | Committing
    | Committed | RollingBack | RolledBack | Failed

  /** `TRANSITIONS` */
  function Allowed(s: TxState): set<TxState> {
    match s
    case Idle => {Parsing}
    case Parsing => {Validating, Failed}
    case Validating => {Preparing, Failed}
    case Preparing => {Prepared, RollingBack, Failed}
    case Prepared => {Committing, RollingBack}
    case Committing => {Committed, RollingBack, Failed}
    case Committed => {}
    case RollingBack => {RolledBack, Failed}
    case RolledBack => {}
    case Failed => {}
  }

  predicate IsTerminal(s: TxState) {
    s == Committed || s == RolledBack || s == Failed
  }

  /** Where `fail` goes: back out once preparing has begun, otherwise straight to failed. */
  function AfterFailure(s: TxState): TxState {
    if s == Preparing || s == Prepared || s == Committing then RollingBack else Failed
  }

  /** A legal change of state: listed in the table, or made by `fail` out of a state that is not terminal. */
  predicate LegalMove(a: TxState, b: TxState) {
    b in Allowed(a) || (!IsTerminal(a) && b == AfterFailure(a))
  }

  ghost predicate LegalHistory(h: seq<TxState>) {
    && h != [] && h[0] == Idle
    && forall i :: 0 < i < |h| ==> LegalMove(h[i - 1], h[i])
  }

  /** The white space `String.prototype.trim` removes. */
  predicate IsSpace(c: char) {
    || c in "\t\n\r \U{00A0}\U{FEFF}\U{1680}\U{2028}\U{2029}\U{202F}\U{205F}\U{3000}"
    || c == '\U{000B}' || c == '\U{000C}'
    || '\U{2000}' <= c <= '\U{200A}'
  }

  /** `reason.trim().length === 0` */
  predicate Blank(reason: string) {
    forall c :: c in reason ==> IsSpace(c)
  }

  class ReloadTransactionModel {
    var state: TxState
    var completedAt: Option<int>
    var failureReason: Option<string>
    /** Every state so far, the current one last. */
    ghost var history: seq<TxState>

    ghost predicate Valid()
      reads this
    {
      && LegalHistory(history) && history[|history| - 1] == state
      && (completedAt.Some? <==> IsTerminal(state))
      && (failureReason.Some? ==> !Blank(failureReason.value))
    }

    constructor ()
      ensures Valid() && state == Idle && history == [Idle] && failureReason.None?
    {
      state, completedAt, failureReason := Idle, None, None;
      history := [Idle];
    }

    /** Moves to `next` if the table allows it; otherwise throws and changes nothing. */
    method Transition(next: TxState, now: int) returns (r: Result<(), string>)
      requires Valid()
      modifies this
      ensures Valid() && failureReason == old(failureReason)
      ensures r.Ok? <==> next in Allowed(old(state))
      ensures r.Ok? ==> state == next && history == old(history) + [next]
      ensures r.Ok? ==> completedAt == if IsTerminal(next) then Some(now) else old(completedAt)
      ensures r.Err? ==> state == old(state) && history == old(history) && completedAt == old(completedAt)
    {
      if next !in Allowed(state) {
        return Err("invalid reload transaction transition");
      }
      state := next;
      history := history + [next];
      if IsTerminal(next) {
        completedAt := Some(now);
      }
      return Ok(());
    }

    /** Records a failure. A blank reason, or a terminal state, throws and changes nothing. */
    method Fail(reason: string, now: int) returns (r: Result<(), string>)
      requires Valid()
      modifies this
      ensures Valid()
      ensures r.Ok? <==> !Blank(reason) && !IsTerminal(old(state))
      ensures r.Ok? ==>
        state == AfterFailure(old(state)) && history == old(history) + [state] && failureReason == Some(reason)
        && completedAt == if state == Failed then Some(now) else old(completedAt)
      ensures r.Err? ==>
        state == old(state) && history == old(history)
        && completedAt == old(completedAt) && failureReason == old(failureReason)
    {
      if Blank(reason) {
        return Err("reload failure reason must not be empty");
      }
      if IsTerminal(state) {
        return Err("cannot fail terminal reload transaction");
      }
      failureReason := Some(reason);
      if state == Preparing || state == Prepared || state == Committing {
        state := RollingBack;
      } else {
        state := Failed;
        completedAt := Some(now);
      }
      history := history + [state];
      return Ok(());
    }
  }

  /** How far a state is along the life of a transaction. */
  function Rank(s: TxState): nat {
    match s
    case Idle => 0 case Parsing => 1 case Validating => 2 case Preparing => 3 case Prepared => 4
    case Committing => 5 case RollingBack => 6 case _ => 7
  }

  /** Every legal move goes forward, so a transaction takes at most seven moves, a terminal state is the
      last one, and nothing commits after it has begun to roll back. */
  lemma {:induction false} HistoryRises(h: seq<TxState>, i: nat, j: nat)
    requires LegalHistory(h) && i < j < |h|
    ensures Rank(h[i]) + (j - i) <= Rank(h[j])
    ensures !IsTerminal(h[i]) && (h[i] == RollingBack ==> h[j] != Committed)
    decreases j
  {
    assert LegalMove(h[j - 1], h[j]);
    if i < j - 1 {
      HistoryRises(h, i, j - 1);
    }
  }

  // --------------------------------------------------------- whole histories

  /** What a transaction goes through as long as nothing fails. */
  const WAY: seq<TxState> := [Idle, Parsing, Validating, Preparing, Prepared, Committing, Committed]

  /** How a history can leave that way after k of its states: to `failed` outright, but not out of `prepared` or once it
      is over; or, once preparing has begun and before it is over, into the rollback, to `rolled-back` or `failed`. */
  predicate Leaves(k: nat, tail: seq<TxState>) {
    || tail == []
    || (tail == [Failed] && k <= 6 && k != 5)
    || (tail in {[RollingBack], [RollingBack, RolledBack], [RollingBack, Failed]} && 4 <= k <= 6)
  }

  ghost predicate Shape(h: seq<TxState>) {
    exists k: nat, tail :: 1 <= k <= 7 && Leaves(k, tail) && h == WAY[..k] + tail
  }

  /** Main result on histories: these are the legal ones, and no others. */
  lemma HistoriesAre(h: seq<TxState>)
    ensures LegalHistory(h) <==> Shape(h)
  {
    if LegalHistory(h) {
      LegalHasShape(h);
    }
    if Shape(h) {
      ShapeIsLegal(h);
    }
  }

  lemma {:induction false} LegalHasShape(h: seq<TxState>)
    requires LegalHistory(h)
    ensures Shape(h)
    decreases |h|
  {
    var n := |h| - 1;
    if n == 0 {
      assert h == WAY[..1] + [];
      return;
    }
    var earlier, last := h[..n], h[n];
    assert LegalMove(h[n - 1], h[n]);
    LegalHasShape(earlier);
    var k: nat, tail :| 1 <= k <= 7 && Leaves(k, tail) && earlier == WAY[..k] + tail;
    assert h == earlier + [last];
    OneStateMore(k, tail, last);
  }

  lemma OneStateMore(k: nat, tail: seq<TxState>, last: TxState)
    requires 1 <= k <= 7 && Leaves(k, tail) && LegalMove((WAY[..k] + tail)[|WAY[..k] + tail| - 1], last)
    ensures Shape(WAY[..k] + tail + [last])
  {
    var h := WAY[..k] + tail + [last];
    if tail == [] {
      if k < 7 && last == WAY[k] {
        assert h == WAY[..k + 1] + [];
      } else {
        assert h == WAY[..k] + [last] && Leaves(k, [last]);
      }
    } else if tail == [RollingBack] {
      assert (WAY[..k] + tail)[k] == RollingBack;
      assert h == WAY[..k] + [RollingBack, last] && Leaves(k, [RollingBack, last]);
    }
  }

  lemma ShapeIsLegal(h: seq<TxState>)
    requires Shape(h)
    ensures LegalHistory(h)
  {
    var k: nat, tail :| 1 <= k <= 7 && Leaves(k, tail) && h == WAY[..k] + tail;
    forall i | 0 < i < |h| ensures LegalMove(h[i - 1], h[i]) {
    }
  }

  /** The table allows what `fail` does, but for failing before parsing has begun. */
  lemma FailFollowsTable(a: TxState, b: TxState)
    ensures LegalMove(a, b) <==> b in Allowed(a) || (a == Idle && b == Failed)
  {
  }
}
