/** The idle counter of the driver loops: reset by useful input, incremented by every tick. */
module IdleCounter {

  /** The counter after `n` events, as the loops keep it. */
  function IdleTicks(done: seq<bool>, ticks: seq<bool>, n: nat): nat
    requires n <= |done| == |ticks|
  {
    if n == 0 then 0
    else (if done[n - 1] then 0 else IdleTicks(done, ticks, n - 1)) + if ticks[n - 1] then 1 else 0
  }

  predicate Below(done: seq<bool>, ticks: seq<bool>, limit: nat, n: nat)
    requires n <= |done| == |ticks|
  {
    IdleTicks(done, ticks, n) < limit
  }

  /** At none of the first `n` loop heads had the counter reached `limit`. */
  ghost predicate NeverReached(done: seq<bool>, ticks: seq<bool>, limit: nat, n: nat)
    requires n <= |done| == |ticks|
  {
    forall k :: 0 <= k < n ==> Below(done, ticks, limit, k)
  }

  lemma NeverReachedStep(done: seq<bool>, ticks: seq<bool>, limit: nat, n: nat)
    requires n < |done| == |ticks| && NeverReached(done, ticks, limit, n) && IdleTicks(done, ticks, n) < limit
    ensures NeverReached(done, ticks, limit, n + 1)
  {
    assert Below(done, ticks, limit, n);
  }

  /** The number of ticks among events `from` to `n - 1`. */
  function TicksIn(ticks: seq<bool>, from: nat, n: nat): nat
    requires n <= |ticks|
  {
    if n <= from then 0 else TicksIn(ticks, from, n - 1) + if ticks[n - 1] then 1 else 0
  }

  lemma {:induction false} TicksCounted(ticks: seq<bool>, from: nat, n: nat)
    requires n <= |ticks|
    ensures TicksIn(ticks, from, n) == |set k: nat | from <= k < n && ticks[k]|
  {
    var counted := set k: nat | from <= k < n && ticks[k];
    if n <= from {
      assert counted == {};
    } else {
      TicksCounted(ticks, from, n - 1);
      var before := set k: nat | from <= k < n - 1 && ticks[k];
      assert counted == before + if ticks[n - 1] then {n - 1} else {};
    }
  }

  /**
   * The counter is the number of ticks since, and including those of, the last event `since`
   * that reset it, or since the start if there was none.
   */
  lemma {:induction false} IdleTicksMeaning(done: seq<bool>, ticks: seq<bool>, n: nat) returns (since: nat)
    requires n <= |done| == |ticks|
    ensures since <= n && IdleTicks(done, ticks, n) == TicksIn(ticks, since, n)
    ensures since == 0 || (since < n && done[since])
    ensures forall k :: since < k < n ==> !done[k]
  {
    if n == 0 {
      since := 0;
    } else if done[n - 1] {
      since := n - 1;
    } else {
      since := IdleTicksMeaning(done, ticks, n - 1);
    }
  }

  // ---- lost ticks -----------------------------------------------------------------------

  /** Every tick that happens but is not counted is made up for by a later reset. */
  ghost predicate LossesForgotten(done: seq<bool>, counted: seq<bool>, all: seq<bool>, n: nat)
    requires n <= |done| == |counted| == |all|
  {
    forall k :: 0 <= k < n && all[k] && !counted[k] ==> exists j :: k < j < n && done[j]
  }

  /**
   * A counter that misses ticks is never ahead of one that does not, and agrees with it exactly
   * when every missed tick is followed by a reset.
   */
  lemma {:induction false} MissedTicks(done: seq<bool>, counted: seq<bool>, all: seq<bool>, n: nat)
    requires n <= |done| == |counted| == |all|
    requires forall k :: 0 <= k < |all| && counted[k] ==> all[k]
    ensures IdleTicks(done, counted, n) <= IdleTicks(done, all, n)
    ensures IdleTicks(done, counted, n) == IdleTicks(done, all, n) <==> LossesForgotten(done, counted, all, n)
  {
    if n > 0 {
      MissedTicks(done, counted, all, n - 1);
      LossesStep(done, counted, all, n - 1);
    }
  }

  /** A reset forgets earlier losses; an uncounted tick is a new one. */
  lemma LossesStep(done: seq<bool>, counted: seq<bool>, all: seq<bool>, n: nat)
    requires n < |done| == |counted| == |all|
    ensures LossesForgotten(done, counted, all, n + 1) <==>
              (done[n] || LossesForgotten(done, counted, all, n)) && !(all[n] && !counted[n])
  {
    if LossesForgotten(done, counted, all, n + 1) && !done[n] {
      forall k | 0 <= k < n && all[k] && !counted[k]
        ensures exists j :: k < j < n && done[j]
      {
        var j :| k < j < n + 1 && done[j];
        assert k < j < n;
      }
    }
  }
}
