/** The bounded retry loop around the process runner (loop_command). */
module Retry {
  import opened Outcomes

  function Abs(x: int): (r: nat)
    ensures r == x || r == -x
  {
    if x < 0 then -x else x
  }

  /**
   * How many attempts the loop makes when none succeeds: the sign of
   * max_attempts is ignored, and the bound is only checked after an attempt,
   * so there is always at least one.
   */
  function AttemptLimit(maxAttempts: int): (n: nat)
    ensures 1 <= n
    ensures maxAttempts != 0 ==> n == Abs(maxAttempts)
    ensures n == Abs(maxAttempts) || n == 1
  {
    if Abs(maxAttempts) == 0 then 1 else Abs(maxAttempts)
  }

  /**
   * The output variable after the given attempts: the output of the last
   * attempt that did not raise, or None when every attempt raised.
   */
  function LastOutput(attempts: seq<Outcome>): (r: Option<string>)
    ensures r.None? <==> forall k :: 0 <= k < |attempts| ==> attempts[k].Raised?
    ensures r.Some? ==> exists j :: 0 <= j < |attempts| && !attempts[j].Raised? && attempts[j].output == r.value
                                   && forall k :: j < k < |attempts| ==> attempts[k].Raised?
  {
    if attempts == [] then None
    else if !attempts[|attempts| - 1].Raised? then Some(attempts[|attempts| - 1].output)
    else
      var front := attempts[..|attempts| - 1];
      assert forall k :: 0 <= k < |front| ==> front[k] == attempts[k];
      LastOutput(front)
  }

  lemma LastOutputStep(outcomes: seq<Outcome>, k: nat)
    requires k < |outcomes|
    ensures LastOutput(outcomes[..k + 1])
         == if outcomes[k].Raised? then LastOutput(outcomes[..k]) else Some(outcomes[k].output)
  {
    assert outcomes[..k + 1][..k] == outcomes[..k];
  }

  /** loop_command with default max_attempts, as used for the clone. */
  const DefaultAttempts := 5

  /**
   * loop_command. `outcomes[k]` is what the process runner does on attempt
   * k + 1. Instead of sleeping, the loop records each requested delay in
   * `sleeps`; `attempts` is how many times it called the runner.
   */
  method LoopCommand(outcomes: seq<Outcome>, maxAttempts: int)
    returns (success: bool, output: Option<string>, attempts: nat, sleeps: seq<nat>)
    requires AttemptLimit(maxAttempts) <= |outcomes|
    ensures 1 <= attempts <= AttemptLimit(maxAttempts)
    ensures forall k :: 0 <= k < attempts - 1 ==> !outcomes[k].Success?
    ensures success <==> outcomes[attempts - 1].Success?
    ensures success <==> exists k :: 0 <= k < AttemptLimit(maxAttempts) && outcomes[k].Success?
    ensures !success ==> attempts == AttemptLimit(maxAttempts)
    ensures success ==> output == Some(outcomes[attempts - 1].output)
    ensures output == LastOutput(outcomes[..attempts])
    ensures |sleeps| == attempts - 1
    ensures forall k :: 0 <= k < |sleeps| ==> sleeps[k] == k + 1
    ensures 2 * Sum(sleeps) == (attempts - 1) * attempts
  {
    output := None;
    sleeps := [];
    var attemptCounter := 0;
    while true
      invariant 0 <= attemptCounter < AttemptLimit(maxAttempts)
      invariant forall k :: 0 <= k < attemptCounter ==> !outcomes[k].Success?
      invariant output == LastOutput(outcomes[..attemptCounter])
      invariant |sleeps| == attemptCounter
      invariant forall k :: 0 <= k < |sleeps| ==> sleeps[k] == k + 1
      decreases AttemptLimit(maxAttempts) - attemptCounter
    {
      attemptCounter := attemptCounter + 1;
      var result := outcomes[attemptCounter - 1];
      LastOutputStep(outcomes, attemptCounter - 1);
      if !result.Raised? {
        output := Some(result.output);
        if result.Success? {
          LinearBackoffTotal(sleeps);
          return true, output, attemptCounter, sleeps;
        }
      }
      if attemptCounter >= Abs(maxAttempts) {
        LinearBackoffTotal(sleeps);
        return false, output, attemptCounter, sleeps;
      }
      sleeps := sleeps + [attemptCounter];
    }
  }

  function Sum(s: seq<nat>): nat
  {
    if s == [] then 0 else Sum(s[..|s| - 1]) + s[|s| - 1]
  }

  /** Linear backoff: delays 1, 2, ..., n add up to n(n+1)/2 seconds. */
  lemma {:induction false} LinearBackoffTotal(sleeps: seq<nat>)
    requires forall k :: 0 <= k < |sleeps| ==> sleeps[k] == k + 1
    ensures 2 * Sum(sleeps) == |sleeps| * (|sleeps| + 1)
  {
    if sleeps != [] {
      var n := |sleeps|;
      LinearBackoffTotal(sleeps[..n - 1]);
      assert sleeps[n - 1] == n;
    }
  }
}
