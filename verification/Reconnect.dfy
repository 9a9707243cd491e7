/** The reconnect backoff: the attempt counter and the sleeps of every run of connection attempts. */
module Reconnect {
  import opened Powers

  /** How a connection attempt goes: the transport fails, or it works and the handshake has a verdict. */
  datatype Attempt = Unreachable | Reached(verdict: bool)

  const MAX_RECONNECT_DELAY: nat := 300

  /** Seconds `reconnect` sleeps with the counter at `n`. */
  function Delay(n: nat): nat {
    if Pow2(n) < MAX_RECONNECT_DELAY then Pow2(n) else MAX_RECONNECT_DELAY
  }

  // ---------------------------------------------------------------------------------------------
  // Runs of reconnects
  // ---------------------------------------------------------------------------------------------

  /** The counter after one attempt, and after a run of attempts, from `n`. */
  function Next(n: nat, a: Attempt): nat { if a.Unreachable? then n + 1 else 0 }

  function Counter(n: nat, run: seq<Attempt>): nat
    decreases |run|
  {
    if run == [] then n else Counter(Next(n, run[0]), run[1..])
  }

  /** The sleep before each attempt of the run. */
  function Sleeps(n: nat, run: seq<Attempt>): (s: seq<nat>)
    ensures |s| == |run|
    decreases |run|
  {
    if run == [] then [] else [Delay(n)] + Sleeps(Next(n, run[0]), run[1..])
  }

  lemma {:induction false} SleepsSnoc(n: nat, run: seq<Attempt>, a: Attempt)
    ensures Sleeps(n, run + [a]) == Sleeps(n, run) + [Delay(Counter(n, run))]
    ensures Counter(n, run + [a]) == Next(Counter(n, run), a)
    decreases |run|
  {
    if run == [] {
      assert run + [a] == [a] && [a][1..] == run;
    } else {
      assert (run + [a])[1..] == run[1..] + [a];
      SleepsSnoc(Next(n, run[0]), run[1..], a);
    }
  }

  /** Length of the stretch of transport failures `run` ends with. */
  function Trailing(run: seq<Attempt>): nat {
    if run == [] || !run[|run| - 1].Unreachable? then 0 else 1 + Trailing(run[..|run| - 1])
  }

  /** The counter counts the transport failures since the last transport success, whether or not the handshake
      after it was accepted. */
  lemma {:induction false} CounterCounts(n: nat, run: seq<Attempt>)
    ensures Trailing(run) <= |run|
    ensures Counter(n, run) == Trailing(run) + (if Trailing(run) == |run| then n else 0)
    decreases |run|
  {
    if run != [] {
      var front, a := run[..|run| - 1], run[|run| - 1];
      assert run == front + [a];
      CounterCounts(n, front);
      SleepsSnoc(n, front, a);
    }
  }

  /** Every sleep of every run is `min(2^k, 300)` for the `k` failures just before it. */
  lemma {:induction false} SleepAt(n: nat, run: seq<Attempt>, i: nat)
    requires i < |run|
    ensures Sleeps(n, run)[i] == Delay(Counter(n, run[..i]))
    decreases i
  {
    if i > 0 {
      SleepAt(Next(n, run[0]), run[1..], i - 1);
      assert run[1..][..i - 1] == run[..i][1..];
    }
  }

  lemma {:induction false} DelayGrows(m: nat, n: nat)
    requires m <= n
    ensures 1 <= Delay(m) <= Delay(n) <= MAX_RECONNECT_DELAY
    ensures 1 <= Pow2(m) <= Pow2(n)
    decreases n
  {
    if m < n {
      DelayGrows(m, n - 1);
    } else if n > 0 {
      DelayGrows(n - 1, n - 1);
    }
  }

  /** Sleeps never shrink while the transport fails, are 1 again after it worked, and never exceed 300. */
  lemma BackoffShape(n: nat, run: seq<Attempt>, i: nat)
    requires i < |run|
    ensures 1 <= Sleeps(n, run)[i] <= MAX_RECONNECT_DELAY
    ensures i + 1 < |run| && run[i].Unreachable? ==> Sleeps(n, run)[i] <= Sleeps(n, run)[i + 1]
    ensures i + 1 < |run| && run[i].Reached? ==> Sleeps(n, run)[i + 1] == 1
  {
    SleepAt(n, run, i);
    DelayGrows(Counter(n, run[..i]), Counter(n, run[..i]));
    if i + 1 < |run| {
      SleepAt(n, run, i + 1);
      assert run[..i + 1] == run[..i] + [run[i]];
      SleepsSnoc(n, run[..i], run[i]);
      if run[i].Unreachable? {
        DelayGrows(Counter(n, run[..i]), Counter(n, run[..i]) + 1);
      }
    }
  }

  function Sum(s: seq<nat>): nat {
    if s == [] then 0 else Sum(s[..|s| - 1]) + s[|s| - 1]
  }

  /** `n` straight failures sleep 2^n - 1 seconds in all for n <= 9, and 300 more for each one beyond. */
  lemma {:induction false} TotalBackoff(run: seq<Attempt>)
    requires forall a <- run :: a.Unreachable?
    ensures Counter(0, run) == |run|
    ensures Sum(Sleeps(0, run)) == if |run| <= 9 then Pow2(|run|) - 1 else 511 + 300 * (|run| - 9)
    decreases |run|
  {
    if run != [] {
      var n := |run| - 1;
      var front := run[..n];
      assert run == front + [run[n]];
      TotalBackoff(front);
      SleepsSnoc(0, front, run[n]);
      var s := Sleeps(0, run);
      assert s[..|s| - 1] == Sleeps(0, front) && s[|s| - 1] == Delay(n);
      SmallPowers();
      if n <= 8 {
        DelayGrows(n, 8);
      } else {
        DelayGrows(9, n);
      }
    }
  }
}
