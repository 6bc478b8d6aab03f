/** The arithmetic of taking turns: how often a counter that grows by one falls on each of `n` places. */
module Turns {

  lemma Scaled(d: int, n: int)
    requires n >= 0
    ensures d <= -1 ==> d * n <= -n
    ensures d >= 1 ==> d * n >= n
  {
    if d <= -1 {
      assert (d + 1) * n <= 0;
      assert d * n == (d + 1) * n - n;
    } else if d >= 1 {
      assert (d - 1) * n >= 0;
      assert d * n == (d - 1) * n + n;
    }
  }

  /** Quotient and remainder are the only ones. */
  lemma Divided(x: int, n: nat, q: int, r: nat)
    requires r < n && x == q * n + r
    ensures x / n == q && x % n == r
  {
    var d := x / n - q;
    assert d * n == (x / n) * n - q * n;
    Scaled(d, n);
  }

  lemma OneRoundMore(x: nat, n: nat)
    requires n > 0
    ensures (x + n) / n == x / n + 1 && (x + n) % n == x % n
  {
    var q := x / n;
    assert (q + 1) * n == q * n + n;
    Divided(x + n, n, q + 1, x % n);
  }

  lemma NextTurn(turn: nat, n: nat)
    requires n > 0
    ensures (turn + 1) % n == if turn % n == n - 1 then 0 else turn % n + 1
  {
    var q, r := turn / n, turn % n;
    if r == n - 1 {
      assert (q + 1) * n == q * n + n;
      Divided(turn + 1, n, q + 1, 0);
    } else {
      Divided(turn + 1, n, q, r + 1);
    }
  }

  lemma DivideGrows(a: nat, b: nat, n: nat)
    requires a <= b && n > 0
    ensures a / n <= b / n
  {
    var d := b / n - a / n;
    assert d * n == (b / n) * n - (a / n) * n;
    Scaled(d, n);
  }

  /** How many of the turns `turn`, `turn + 1`, ... `turn + k - 1` fall on place `i` of `n`. */
  function Falls(turn: nat, k: nat, n: nat, i: nat): nat
    requires n > 0
    decreases k
  {
    if k == 0 then 0 else (if turn % n == i then 1 else 0) + Falls(turn + 1, k - 1, n, i)
  }

  /** From place `at` of `n`, the wait until place `i` comes round. */
  function Wait(at: nat, n: nat, i: nat): (w: nat)
    requires i < n && at < n
    ensures w < n
  {
    if i >= at then i - at else i - at + n
  }

  /** How often a place comes round in `k` turns, when it does first after `w`. */
  function Rounds(k: nat, w: nat, n: nat): nat
    requires w < n
  {
    if k <= w then 0 else (k - w - 1) / n + 1
  }

  lemma {:induction false} FallsInClosedForm(turn: nat, k: nat, n: nat, i: nat)
    requires i < n
    ensures Falls(turn, k, n, i) == Rounds(k, Wait(turn % n, n, i), n)
    decreases k
  {
    if k > 0 {
      FallsInClosedForm(turn + 1, k - 1, n, i);
      NextTurn(turn, n);
      var w, w' := Wait(turn % n, n, i), Wait((turn + 1) % n, n, i);
      if w == 0 {
        assert w' == n - 1;
        WholeRound(k - 1, n);
      } else {
        assert w' == w - 1;
      }
    }
  }

  lemma WholeRound(k: nat, n: nat)
    requires n > 0
    ensures 1 + Rounds(k, n - 1, n) == Rounds(k + 1, 0, n)
  {
    if k < n {
      Divided(k, n, 0, k);
    } else {
      OneRoundMore(k - n, n);
    }
  }

  /** Over `k` turns every place comes round `k / n` times, rounded down or up. */
  lemma FallsAreEven(turn: nat, k: nat, n: nat, i: nat)
    requires i < n
    ensures k / n <= Falls(turn, k, n, i) <= (k + n - 1) / n
  {
    FallsInClosedForm(turn, k, n, i);
    var w := Wait(turn % n, n, i);
    if k <= w {
      Divided(k, n, 0, k);
      DivideGrows(0, k + n - 1, n);
      Divided(0, n, 0, 0);
    } else {
      var x := k - w - 1;
      OneRoundMore(x, n);
      DivideGrows(k, x + n, n);
      DivideGrows(x + n, k + n - 1, n);
    }
  }
}
