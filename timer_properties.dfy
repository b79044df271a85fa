/** Properties of the composite strategy's countdown over a run of ticks. A run
    is described by the sequence of deltas passed to successive calls of
    MoveStrategy; since each call sets `temps` to `Step(old(temps), delta)`,
    the countdown after the run is `Run(temps, deltas)`. */
module TimerProperties {
  import opened CompositeStrategy

  /** The countdown after one call per delta, in order, from `temps`. */
  function Run(temps: int, deltas: seq<int>): (t: int)
  {
    if deltas == [] then temps
    else Step(Run(temps, deltas[..|deltas| - 1]), deltas[|deltas| - 1])
  }

  /** Total time passed to a run of calls. */
  function Sum(deltas: seq<int>): (total: int)
  {
    if deltas == [] then 0 else Sum(deltas[..|deltas| - 1]) + deltas[|deltas| - 1]
  }

  /** `n` ticks of the same delta `d`. */
  function Constant(d: int, n: nat): (ds: seq<int>)
    ensures |ds| == n && forall i :: 0 <= i < n ==> ds[i] == d
  {
    seq(n, _ => d)
  }

  /** Splitting a run: the second part starts from where the first one ended. */
  lemma {:induction false} RunAppend(temps: int, a: seq<int>, b: seq<int>)
    ensures Run(temps, a + b) == Run(Run(temps, a), b)
  {
    if b != [] {
      assert (a + b)[..|a + b| - 1] == a + b[..|b| - 1];
      assert (a + b)[|a + b| - 1] == b[|b| - 1];
      RunAppend(temps, a, b[..|b| - 1]);
    } else {
      assert a + b == a;
    }
  }

  /** With non-negative deltas the countdown never rises above the interval:
      `temps <= Interval` is kept by every call. */
  lemma {:induction false} RunStaysWithinInterval(temps: int, deltas: seq<int>)
    requires temps <= Interval
    requires forall i :: 0 <= i < |deltas| ==> deltas[i] >= 0
    ensures Run(temps, deltas) <= Interval
  {
    if deltas != [] {
      RunStaysWithinInterval(temps, deltas[..|deltas| - 1]);
    }
  }

  /** With deltas between 0 and `maxDelta`, the countdown stays in
      `(-maxDelta, Interval]`: it only goes to zero or below on the tick that
      takes it there, and it never undershoots by a whole `maxDelta`. */
  lemma {:induction false} RunBounds(temps: int, deltas: seq<int>, maxDelta: int)
    requires -maxDelta < temps <= Interval
    requires forall i :: 0 <= i < |deltas| ==> 0 <= deltas[i] <= maxDelta
    ensures -maxDelta < Run(temps, deltas) <= Interval
  {
    if deltas != [] {
      RunBounds(temps, deltas[..|deltas| - 1], maxDelta);
    }
  }

  /** From a fresh countdown, as long as every earlier prefix of the run has
      passed less than the interval, no reset has happened and the countdown
      is the interval minus the total time passed. */
  lemma {:induction false} CountdownBeforeReset(deltas: seq<int>)
    requires forall j :: 0 <= j < |deltas| ==> Sum(deltas[..j]) < Interval
    ensures Run(Interval, deltas) == Interval - Sum(deltas)
  {
    if deltas != [] {
      var prefix := deltas[..|deltas| - 1];
      forall j | 0 <= j < |prefix| ensures Sum(prefix[..j]) < Interval {
        assert prefix[..j] == deltas[..j];
      }
      CountdownBeforeReset(prefix);
      assert Sum(prefix) < Interval by {
        assert deltas[..|deltas| - 1] == prefix;
      }
    }
  }

  /** From a fresh countdown, let call `k + 1` be the first one made after the
      total time passed reaches the interval. Then none of the first `k`
      calls resets the countdown, call `k + 1` does, and after it the
      countdown is back at the full interval. */
  lemma FirstReset(deltas: seq<int>, k: nat)
    requires k < |deltas|
    requires forall j :: 0 <= j < k ==> Sum(deltas[..j]) < Interval
    requires Sum(deltas[..k]) >= Interval
    ensures forall j :: 0 <= j < k ==> Run(Interval, deltas[..j]) > 0
    ensures Run(Interval, deltas[..k]) <= 0
    ensures Run(Interval, deltas[..k + 1]) == Interval
  {
    forall j | 0 <= j <= k ensures Run(Interval, deltas[..j]) == Interval - Sum(deltas[..j]) {
      forall i | 0 <= i < j ensures Sum(deltas[..j][..i]) < Interval {
        assert deltas[..j][..i] == deltas[..i];
      }
      CountdownBeforeReset(deltas[..j]);
    }
    assert deltas[..k + 1][..k] == deltas[..k];
  }

  /** The time passed by `n` ticks of `d`. */
  lemma {:induction false} SumConstant(d: int, n: nat)
    ensures Sum(Constant(d, n)) == n * d
  {
    if n > 0 {
      assert Constant(d, n)[..n - 1] == Constant(d, n - 1);
      SumConstant(d, n - 1);
    }
  }

  /** Ticks of a positive delta pass more time the more of them there are. */
  lemma {:induction false} MoreTicksMoreTime(i: nat, k: nat, d: int)
    requires i <= k && d > 0
    ensures i * d <= k * d
  {
    if i < k {
      MoreTicksMoreTime(i, k - 1, d);
      assert k * d == (k - 1) * d + d;
    }
  }

  /** With a constant delta `d > 0`, while fewer ticks than the first total to
      reach the interval have passed, the countdown is the interval minus the
      time passed. */
  lemma ConstantDeltaCountdown(d: int, n: nat, j: nat)
    requires d > 0
    requires (n - 1) * d < Interval
    requires j <= n
    ensures Run(Interval, Constant(d, j)) == Interval - j * d
  {
    forall i | 0 <= i < j ensures Sum(Constant(d, j)[..i]) < Interval {
      assert Constant(d, j)[..i] == Constant(d, i);
      SumConstant(d, i);
      MoreTicksMoreTime(i, n - 1, d);
    }
    CountdownBeforeReset(Constant(d, j));
    SumConstant(d, j);
  }

  /** With a constant delta `d > 0`, let `n` be the smallest number of ticks
      whose total reaches the interval. The countdown stays positive for
      `n` calls, reaches zero or below on call `n`, and call `n + 1` resets
      it. */
  lemma ConstantDeltaFirstReset(d: int, n: nat)
    requires d > 0
    requires (n - 1) * d < Interval <= n * d
    ensures forall j :: 0 <= j < n ==> Run(Interval, Constant(d, j)) == Interval - j * d > 0
    ensures Run(Interval, Constant(d, n)) == Interval - n * d <= 0
    ensures Run(Interval, Constant(d, n + 1)) == Interval
  {
    forall j | 0 <= j < n ensures Run(Interval, Constant(d, j)) == Interval - j * d > 0 {
      ConstantDeltaCountdown(d, n, j);
      MoreTicksMoreTime(j, n - 1, d);
    }
    ConstantDeltaCountdown(d, n, n);
    var ds := Constant(d, n + 1);
    assert ds[..|ds| - 1] == Constant(d, n);
    assert Run(Interval, ds) == Step(Run(Interval, Constant(d, n)), d);
  }

  /** With a constant delta, the countdown is periodic: every `n + 1` calls
      it is back at the full interval, so the reset points repeat exactly. */
  lemma {:induction false} ConstantDeltaPeriodic(d: int, n: nat, m: nat)
    requires d > 0
    requires (n - 1) * d < Interval <= n * d
    ensures Run(Interval, Constant(d, m * (n + 1))) == Interval
  {
    if m > 0 {
      var head := Constant(d, (m - 1) * (n + 1));
      var tail := Constant(d, n + 1);
      assert Constant(d, m * (n + 1)) == head + tail;
      RunAppend(Interval, head, tail);
      ConstantDeltaPeriodic(d, n, m - 1);
      ConstantDeltaFirstReset(d, n);
    }
  }
}
