/**
 * Building the per-combination test commands and sorting their results.
 * Releases arrive here already turned into text (the script's str(release)).
 */
module TestRun {
  import opened Outcomes

  /** The command for one combination: ./run-ci.sh <os> <release> <repository>. */
  function TestCommand(os: string, release: string, repository: string): (c: Command)
    ensures |c| == 4 && c[0] == "./run-ci.sh"
    ensures c[1] == os && c[2] == release && c[3] == repository
  {
    ["./run-ci.sh", os, release, repository]
  }

  /** The innermost loop: one command per release, for one os and repository. */
  function ReleaseCommands(os: string, repository: string, releases: seq<string>): (cs: seq<Command>)
    ensures |cs| == |releases|
  {
    if releases == [] then []
    else
      var n := |releases|;
      ReleaseCommands(os, repository, releases[..n - 1]) + [TestCommand(os, releases[n - 1], repository)]
  }

  /** The middle loop: the release commands for each repository in turn. */
  function RepositoryCommands(os: string, repositories: seq<string>, releases: seq<string>): (cs: seq<Command>)
  {
    if repositories == [] then []
    else
      var n := |repositories|;
      RepositoryCommands(os, repositories[..n - 1], releases) + ReleaseCommands(os, repositories[n - 1], releases)
  }

  /**
   * Every command the test loop generates, in generation order: os
   * outermost, then repository, then release.
   */
  function MatrixCommands(oses: seq<string>, repositories: seq<string>, releases: seq<string>): (cs: seq<Command>)
  {
    if oses == [] then []
    else
      var n := |oses|;
      MatrixCommands(oses[..n - 1], repositories, releases) + RepositoryCommands(oses[n - 1], repositories, releases)
  }

  lemma MulSucc(a: nat, b: nat)
    ensures (a + 1) * b == a * b + b
  {
  }

  lemma BlockBound(i: nat, n: nat, width: nat, offset: nat)
    requires i < n && offset < width
    ensures i * width + offset < n * width
  {
    assert i * width + offset < (i + 1) * width;
    assert (i + 1) * width <= n * width;
  }

  lemma {:induction false} RepositoryCommandsLength(os: string, repositories: seq<string>, releases: seq<string>)
    ensures |RepositoryCommands(os, repositories, releases)| == |repositories| * |releases|
  {
    if repositories != [] {
      var n := |repositories|;
      RepositoryCommandsLength(os, repositories[..n - 1], releases);
      MulSucc(n - 1, |releases|);
    }
  }

  /** One command per combination, duplicates included: |os| * |repositories| * |releases| of them. */
  lemma {:induction false} MatrixCommandsLength(oses: seq<string>, repositories: seq<string>, releases: seq<string>)
    ensures |MatrixCommands(oses, repositories, releases)| == |oses| * (|repositories| * |releases|)
  {
    if oses != [] {
      var n := |oses|;
      MatrixCommandsLength(oses[..n - 1], repositories, releases);
      RepositoryCommandsLength(oses[n - 1], repositories, releases);
      MulSucc(n - 1, |repositories| * |releases|);
    }
  }

  lemma {:induction false} ReleaseCommandsAt(os: string, repository: string, releases: seq<string>, k: nat)
    requires k < |releases|
    ensures ReleaseCommands(os, repository, releases)[k] == TestCommand(os, releases[k], repository)
  {
    var n := |releases|;
    if k < n - 1 {
      ReleaseCommandsAt(os, repository, releases[..n - 1], k);
    }
  }

  lemma {:induction false} RepositoryCommandsAt(os: string, repositories: seq<string>, releases: seq<string>, j: nat, k: nat)
    requires j < |repositories| && k < |releases|
    ensures j * |releases| + k < |RepositoryCommands(os, repositories, releases)|
    ensures RepositoryCommands(os, repositories, releases)[j * |releases| + k]
         == TestCommand(os, releases[k], repositories[j])
  {
    var n, m := |repositories|, |releases|;
    BlockBound(j, n, m, k);
    RepositoryCommandsLength(os, repositories, releases);
    RepositoryCommandsLength(os, repositories[..n - 1], releases);
    var prefix := RepositoryCommands(os, repositories[..n - 1], releases);
    if j < n - 1 {
      RepositoryCommandsAt(os, repositories[..n - 1], releases, j, k);
    } else {
      assert j * m + k - |prefix| == k;
      ReleaseCommandsAt(os, repositories[n - 1], releases, k);
    }
  }

  /**
   * Position of a combination in the generated list: os index i, repository
   * index j and release index k give the command at
   * i * (|repositories| * |releases|) + j * |releases| + k.
   */
  lemma {:induction false} MatrixCommandsAt(oses: seq<string>, repositories: seq<string>, releases: seq<string>, i: nat, j: nat, k: nat)
    requires i < |oses| && j < |repositories| && k < |releases|
    ensures i * (|repositories| * |releases|) + j * |releases| + k < |MatrixCommands(oses, repositories, releases)|
    ensures MatrixCommands(oses, repositories, releases)[i * (|repositories| * |releases|) + j * |releases| + k]
         == TestCommand(oses[i], releases[k], repositories[j])
  {
    var n, block := |oses|, |repositories| * |releases|;
    var offset := j * |releases| + k;
    RepositoryCommandsAt(oses[i], repositories, releases, j, k);
    RepositoryCommandsLength(oses[i], repositories, releases);
    MatrixCommandsLength(oses, repositories, releases);
    MatrixCommandsLength(oses[..n - 1], repositories, releases);
    BlockIndex(i, n, block, offset);
    if i < n - 1 {
      MatrixCommandsAt(oses[..n - 1], repositories, releases, i, j, k);
    }
  }

  /** Where index i * width + offset falls in a sequence of n blocks of the given width. */
  lemma BlockIndex(i: nat, n: nat, width: nat, offset: nat)
    requires i < n && offset < width
    ensures i * width + offset < n * width
    ensures i < n - 1 ==> i * width + offset < (n - 1) * width
    ensures i == n - 1 ==> i * width + offset - (n - 1) * width == offset
  {
    BlockBound(i, n, width, offset);
    if i < n - 1 {
      BlockBound(i, n - 1, width, offset);
    }
  }

  /** No run among the first n raised. */
  predicate NoneRaised(outcomes: seq<Outcome>, n: nat)
    requires n <= |outcomes|
  {
    forall t :: 0 <= t < n ==> !outcomes[t].Raised?
  }

  /** Whether an outcome is sorted into the list asked for (a raise is in neither). */
  predicate Lands(o: Outcome, passed: bool)
  {
    if passed then o.Success? else o.Failure?
  }

  /**
   * The commands whose run passed (`passed` true) or failed (`passed` false),
   * in generation order; `outcomes[t]` is the outcome of `cmds[t]`.
   */
  function Select<T>(cmds: seq<T>, outcomes: seq<Outcome>, passed: bool): (r: seq<T>)
    requires |cmds| <= |outcomes|
    ensures |r| <= |cmds|
  {
    if cmds == [] then []
    else
      var n := |cmds|;
      Select(cmds[..n - 1], outcomes, passed) + (if Lands(outcomes[n - 1], passed) then [cmds[n - 1]] else [])
  }

  lemma MultisetAppend<T>(passed: seq<T>, failed: seq<T>, front: seq<T>, x: T)
    requires multiset(passed) + multiset(failed) == multiset(front)
    ensures multiset(passed + [x]) + multiset(failed) == multiset(front + [x])
    ensures multiset(passed) + multiset(failed + [x]) == multiset(front + [x])
  {
  }

  /**
   * When no run raised, every command lands in exactly one of the two lists:
   * together they hold each command as often as it was generated.
   */
  lemma {:induction false} SelectPartitions<T>(cmds: seq<T>, outcomes: seq<Outcome>)
    requires |cmds| <= |outcomes|
    requires NoneRaised(outcomes, |cmds|)
    ensures multiset(Select(cmds, outcomes, true)) + multiset(Select(cmds, outcomes, false)) == multiset(cmds)
  {
    if cmds != [] {
      var n := |cmds|;
      var front := cmds[..n - 1];
      SelectPartitions(front, outcomes);
      assert cmds == front + [cmds[n - 1]];
      MultisetAppend(Select(front, outcomes, true), Select(front, outcomes, false), front, cmds[n - 1]);
    }
  }

  /**
   * A command is in the list asked for exactly when one of its runs landed
   * there: a run's outcome alone decides its list, whatever ran before it.
   */
  lemma {:induction false} SelectMembership<T>(cmds: seq<T>, outcomes: seq<Outcome>, passed: bool, x: T)
    requires |cmds| <= |outcomes|
    ensures x in Select(cmds, outcomes, passed)
            <==> exists t :: 0 <= t < |cmds| && cmds[t] == x && Lands(outcomes[t], passed)
  {
    if cmds != [] {
      var n := |cmds|;
      var front := cmds[..n - 1];
      SelectMembership(front, outcomes, passed, x);
      if exists t :: 0 <= t < n && cmds[t] == x && Lands(outcomes[t], passed) {
        var t :| 0 <= t < n && cmds[t] == x && Lands(outcomes[t], passed);
        if t < n - 1 {
          assert front[t] == x;
        }
      }
      if x in Select(front, outcomes, passed) {
        var t :| 0 <= t < n - 1 && front[t] == x && Lands(outcomes[t], passed);
        assert cmds[t] == x;
      }
    }
  }

  /**
   * Where a run lands: command t is appended to its list right after the
   * entries of the runs before it.
   */
  lemma {:induction false} SelectAt<T>(cmds: seq<T>, outcomes: seq<Outcome>, passed: bool, t: nat)
    requires t < |cmds| <= |outcomes|
    requires Lands(outcomes[t], passed)
    ensures |Select(cmds[..t], outcomes, passed)| < |Select(cmds, outcomes, passed)|
    ensures Select(cmds, outcomes, passed)[|Select(cmds[..t], outcomes, passed)|] == cmds[t]
  {
    var n := |cmds|;
    assert cmds[..t + 1][..t] == cmds[..t];
    var upto := Select(cmds[..t + 1], outcomes, passed);
    assert upto == Select(cmds[..t], outcomes, passed) + [cmds[t]];
    SelectKeepsOrder(cmds, outcomes, passed, t + 1);
  }

  /** Both lists keep generation order: a command before another stays before it. */
  lemma {:induction false} SelectKeepsOrder<T>(cmds: seq<T>, outcomes: seq<Outcome>, passed: bool, k: nat)
    requires k <= |cmds| <= |outcomes|
    ensures Select(cmds[..k], outcomes, passed) <= Select(cmds, outcomes, passed)
  {
    if k < |cmds| {
      var n := |cmds|;
      assert cmds[..n - 1][..k] == cmds[..k];
      SelectKeepsOrder(cmds[..n - 1], outcomes, passed, k);
    } else {
      assert cmds[..k] == cmds;
    }
  }

  /** The failed list is empty exactly when no run failed. */
  lemma {:induction false} NoFailures<T>(cmds: seq<T>, outcomes: seq<Outcome>)
    requires |cmds| <= |outcomes|
    ensures Select(cmds, outcomes, false) == [] <==> forall t :: 0 <= t < |cmds| ==> !outcomes[t].Failure?
  {
    if cmds != [] {
      var n := |cmds|;
      NoFailures(cmds[..n - 1], outcomes);
      if outcomes[n - 1].Failure? {
        assert |Select(cmds, outcomes, false)| > 0;
      }
    }
  }

  lemma SelectAppend<T>(cmds: seq<T>, c: T, outcomes: seq<Outcome>, passed: bool)
    requires |cmds| < |outcomes|
    ensures Select(cmds + [c], outcomes, passed)
         == Select(cmds, outcomes, passed) + (if Lands(outcomes[|cmds|], passed) then [c] else [])
  {
    assert (cmds + [c])[..|cmds|] == cmds;
  }

  /**
   * The commands actually started: all of them, unless a run raises, in
   * which case the script stops after that command.
   */
  function Attempted<T>(cmds: seq<T>, outcomes: seq<Outcome>): (r: seq<T>)
    requires |cmds| <= |outcomes|
    ensures r <= cmds
    ensures forall t :: 0 <= t < |r| - 1 ==> !outcomes[t].Raised?
    ensures r == cmds || (r != [] && outcomes[|r| - 1].Raised?)
  {
    if cmds == [] then []
    else if outcomes[0].Raised? then [cmds[0]]
    else
      var rest := Attempted(cmds[1..], outcomes[1..]);
      assert forall t :: 1 <= t < |rest| ==> !outcomes[t].Raised? by {
        forall t | 1 <= t < |rest| ensures !outcomes[t].Raised? {
          assert outcomes[1..][t - 1] == outcomes[t];
        }
      }
      [cmds[0]] + rest
  }

  lemma {:induction false} AttemptedAll<T>(cmds: seq<T>, outcomes: seq<Outcome>)
    requires |cmds| <= |outcomes|
    requires NoneRaised(outcomes, |cmds|)
    ensures Attempted(cmds, outcomes) == cmds
  {
    if cmds != [] {
      assert forall t :: 0 <= t < |cmds| - 1 ==> outcomes[1..][t] == outcomes[t + 1];
      AttemptedAll(cmds[1..], outcomes[1..]);
    }
  }

  lemma {:induction false} AttemptedStops<T>(cmds: seq<T>, outcomes: seq<Outcome>, stop: nat)
    requires |cmds| <= |outcomes| && stop < |cmds|
    requires outcomes[stop].Raised?
    requires NoneRaised(outcomes, stop)
    ensures Attempted(cmds, outcomes) == cmds[..stop + 1]
  {
    if stop > 0 {
      assert forall t :: 0 <= t < |cmds| - 1 ==> outcomes[1..][t] == outcomes[t + 1];
      AttemptedStops(cmds[1..], outcomes[1..], stop - 1);
      assert cmds[..stop + 1] == [cmds[0]] + cmds[1..][..stop];
    }
  }

  /**
   * The run ends with no raise and an empty failed list exactly when every
   * planned command succeeded.
   */
  lemma AllPassedIffClean<T>(plan: seq<T>, outcomes: seq<Outcome>)
    requires |plan| <= |outcomes|
    ensures var ran := Attempted(plan, outcomes);
            (!(ran != [] && outcomes[|ran| - 1].Raised?) && Select(ran, outcomes, false) == [])
            <==> forall t :: 0 <= t < |plan| ==> outcomes[t].Success?
  {
    var ran := Attempted(plan, outcomes);
    if ran != [] && outcomes[|ran| - 1].Raised? {
      assert !outcomes[|ran| - 1].Success?;
    } else {
      assert ran == plan;
      assert NoneRaised(outcomes, |plan|);
      NoFailures(plan, outcomes);
    }
  }

  lemma PrefixExtend<T>(a: seq<T>, b: seq<T>, c: seq<T>)
    requires b <= c
    ensures a + b <= a + c
  {
    assert (a + c)[..|a + b|] == a + c[..|b|];
  }

  /**
   * The shared contract of the three loop levels below. Before a level runs,
   * the commands started so far (`ran`) followed by the commands this level
   * generates (`batch`) are a prefix of the whole plan `cmds`, no run so far
   * has raised, and the two lists hold the passed and failed runs.
   */
  predicate Ready(cmds: seq<Command>, outcomes: seq<Outcome>, ran: seq<Command>, batch: seq<Command>,
                  passed: seq<Command>, failed: seq<Command>)
  {
    && |cmds| <= |outcomes|
    && ran + batch <= cmds
    && NoneRaised(outcomes, |ran|)
    && passed == Select(ran, outcomes, true)
    && failed == Select(ran, outcomes, false)
  }

  /** After a level: it either ran its whole batch, or stopped at a raise. */
  predicate Done(cmds: seq<Command>, outcomes: seq<Outcome>, ran0: seq<Command>, batch: seq<Command>,
                 ran: seq<Command>, passed: seq<Command>, failed: seq<Command>, aborted: bool)
    requires |cmds| <= |outcomes|
  {
    && |ran| <= |outcomes|
    && passed == Select(ran, outcomes, true)
    && failed == Select(ran, outcomes, false)
    && (!aborted ==> ran == ran0 + batch && NoneRaised(outcomes, |ran|))
    && (aborted ==> ran == Attempted(cmds, outcomes) && ran != [] && outcomes[|ran| - 1].Raised?)
  }

  lemma ConcatAssoc<T>(a: seq<T>, b: seq<T>, c: seq<T>)
    ensures a + b + c == a + (b + c)
  {
  }

  /** What running the next planned command does to the passed and failed lists. */
  lemma RecordRun<T>(ran: seq<T>, c: T, outcomes: seq<Outcome>)
    requires |ran| < |outcomes|
    requires NoneRaised(outcomes, |ran|)
    ensures Select(ran + [c], outcomes, true) == Select(ran, outcomes, true) + (if outcomes[|ran|].Success? then [c] else [])
    ensures Select(ran + [c], outcomes, false) == Select(ran, outcomes, false) + (if outcomes[|ran|].Failure? then [c] else [])
    ensures !outcomes[|ran|].Raised? ==> NoneRaised(outcomes, |ran| + 1)
  {
    SelectAppend(ran, c, outcomes, true);
    SelectAppend(ran, c, outcomes, false);
  }

  /** A planned command that raises ends the run right after it. */
  lemma RecordAbort<T>(cmds: seq<T>, ran: seq<T>, c: T, outcomes: seq<Outcome>)
    requires ran + [c] <= cmds && |cmds| <= |outcomes|
    requires NoneRaised(outcomes, |ran|) && outcomes[|ran|].Raised?
    ensures Attempted(cmds, outcomes) == ran + [c]
  {
    AttemptedStops(cmds, outcomes, |ran|);
    assert cmds[..|ran| + 1] == ran + [c];
  }

  /** The next release command extends what this level has run, within the plan. */
  lemma ReleaseStep(os: string, repository: string, releases: seq<string>, k: nat,
                    cmds: seq<Command>, ran0: seq<Command>, ran: seq<Command>)
    requires k < |releases|
    requires ran0 + ReleaseCommands(os, repository, releases) <= cmds
    requires ran == ran0 + ReleaseCommands(os, repository, releases[..k])
    ensures ran + [TestCommand(os, releases[k], repository)] == ran0 + ReleaseCommands(os, repository, releases[..k + 1])
    ensures ran + [TestCommand(os, releases[k], repository)] <= cmds
  {
    assert releases[..k + 1][..k] == releases[..k];
    ConcatAssoc(ran0, ReleaseCommands(os, repository, releases[..k]), [TestCommand(os, releases[k], repository)]);
    ReleasePrefix(os, repository, releases, k + 1);
    PrefixExtend(ran0, ReleaseCommands(os, repository, releases[..k + 1]), ReleaseCommands(os, repository, releases));
  }

  /** The next repository's batch extends what this level has run, within the plan. */
  lemma RepositoryStep(os: string, repositories: seq<string>, releases: seq<string>, j: nat,
                       cmds: seq<Command>, ran0: seq<Command>, ran: seq<Command>)
    requires j < |repositories|
    requires ran0 + RepositoryCommands(os, repositories, releases) <= cmds
    requires ran == ran0 + RepositoryCommands(os, repositories[..j], releases)
    ensures ran + ReleaseCommands(os, repositories[j], releases) <= cmds
    ensures RepositoryCommands(os, repositories[..j], releases) + ReleaseCommands(os, repositories[j], releases)
         == RepositoryCommands(os, repositories[..j + 1], releases)
  {
    assert repositories[..j + 1][..j] == repositories[..j];
    ConcatAssoc(ran0, RepositoryCommands(os, repositories[..j], releases), ReleaseCommands(os, repositories[j], releases));
    RepositoryPrefix(os, repositories, releases, j + 1);
    PrefixExtend(ran0, RepositoryCommands(os, repositories[..j + 1], releases), RepositoryCommands(os, repositories, releases));
  }

  /** The innermost loop, over the releases, for one os and one repository. */
  method RunReleases(os: string, repository: string, releases: seq<string>, outcomes: seq<Outcome>,
                     ghost cmds: seq<Command>, ran0: seq<Command>, passed0: seq<Command>, failed0: seq<Command>)
    returns (ran: seq<Command>, passed: seq<Command>, failed: seq<Command>, aborted: bool)
    requires Ready(cmds, outcomes, ran0, ReleaseCommands(os, repository, releases), passed0, failed0)
    ensures Done(cmds, outcomes, ran0, ReleaseCommands(os, repository, releases), ran, passed, failed, aborted)
  {
    ran, passed, failed, aborted := ran0, passed0, failed0, false;
    for k := 0 to |releases|
      invariant ran == ran0 + ReleaseCommands(os, repository, releases[..k])
      invariant Ready(cmds, outcomes, ran, [], passed, failed)
    {
      var testCommand := TestCommand(os, releases[k], repository);
      ReleaseStep(os, repository, releases, k, cmds, ran0, ran);
      RecordRun(ran, testCommand, outcomes);
      var result := outcomes[|ran|];
      if result.Raised? {
        RecordAbort(cmds, ran, testCommand, outcomes);
        ran := ran + [testCommand];
        aborted := true;
        return;
      }
      ran := ran + [testCommand];
      if result.Success? {
        passed := passed + [testCommand];
      } else {
        failed := failed + [testCommand];
      }
    }
    assert releases[..|releases|] == releases;
  }

  lemma {:induction false} ReleasePrefix(os: string, repository: string, releases: seq<string>, k: nat)
    requires k <= |releases|
    ensures ReleaseCommands(os, repository, releases[..k]) <= ReleaseCommands(os, repository, releases)
  {
    var n := |releases|;
    if k < n {
      assert releases[..n - 1][..k] == releases[..k];
      ReleasePrefix(os, repository, releases[..n - 1], k);
    } else {
      assert releases[..k] == releases;
    }
  }

  lemma {:induction false} RepositoryPrefix(os: string, repositories: seq<string>, releases: seq<string>, j: nat)
    requires j <= |repositories|
    ensures RepositoryCommands(os, repositories[..j], releases) <= RepositoryCommands(os, repositories, releases)
  {
    var n := |repositories|;
    if j < n {
      assert repositories[..n - 1][..j] == repositories[..j];
      RepositoryPrefix(os, repositories[..n - 1], releases, j);
    } else {
      assert repositories[..j] == repositories;
    }
  }

  lemma {:induction false} MatrixPrefix(oses: seq<string>, repositories: seq<string>, releases: seq<string>, i: nat)
    requires i <= |oses|
    ensures MatrixCommands(oses[..i], repositories, releases) <= MatrixCommands(oses, repositories, releases)
  {
    var n := |oses|;
    if i < n {
      assert oses[..n - 1][..i] == oses[..i];
      MatrixPrefix(oses[..n - 1], repositories, releases, i);
    } else {
      assert oses[..i] == oses;
    }
  }

  /** The middle loop, over the supported repositories, for one os. */
  method RunRepositories(os: string, repositories: seq<string>, releases: seq<string>, outcomes: seq<Outcome>,
                         ghost cmds: seq<Command>, ran0: seq<Command>, passed0: seq<Command>, failed0: seq<Command>)
    returns (ran: seq<Command>, passed: seq<Command>, failed: seq<Command>, aborted: bool)
    requires Ready(cmds, outcomes, ran0, RepositoryCommands(os, repositories, releases), passed0, failed0)
    ensures Done(cmds, outcomes, ran0, RepositoryCommands(os, repositories, releases), ran, passed, failed, aborted)
  {
    ran, passed, failed, aborted := ran0, passed0, failed0, false;
    for j := 0 to |repositories|
      invariant ran == ran0 + RepositoryCommands(os, repositories[..j], releases)
      invariant Ready(cmds, outcomes, ran, [], passed, failed)
    {
      RepositoryStep(os, repositories, releases, j, cmds, ran0, ran);
      ghost var before := ran;
      ran, passed, failed, aborted := RunReleases(os, repositories[j], releases, outcomes, cmds, ran, passed, failed);
      if aborted {
        return;
      }
      ConcatAssoc(ran0, RepositoryCommands(os, repositories[..j], releases), ReleaseCommands(os, repositories[j], releases));
    }
    assert repositories[..|repositories|] == repositories;
  }

  /**
   * The test loop. Each generated command is run once, without retry, and
   * appended to `passed` or `failed`. A raise from the process runner is not
   * caught there, so it ends the run (`aborted`) after that command.
   */
  method RunTests(oses: seq<string>, repositories: seq<string>, releases: seq<string>, outcomes: seq<Outcome>)
    returns (ran: seq<Command>, passed: seq<Command>, failed: seq<Command>, aborted: bool)
    requires |MatrixCommands(oses, repositories, releases)| <= |outcomes|
    ensures ran == Attempted(MatrixCommands(oses, repositories, releases), outcomes)
    ensures aborted <==> ran != [] && outcomes[|ran| - 1].Raised?
    ensures !aborted ==> ran == MatrixCommands(oses, repositories, releases)
    ensures passed == Select(ran, outcomes, true)
    ensures failed == Select(ran, outcomes, false)
  {
    ghost var cmds := MatrixCommands(oses, repositories, releases);
    ran, passed, failed, aborted := [], [], [], false;
    for i := 0 to |oses|
      invariant ran == MatrixCommands(oses[..i], repositories, releases)
      invariant Ready(cmds, outcomes, ran, [], passed, failed)
    {
      ghost var inner := RepositoryCommands(oses[i], repositories, releases);
      assert oses[..i + 1][..i] == oses[..i];
      assert ran + inner <= cmds by {
        MatrixPrefix(oses, repositories, releases, i + 1);
      }
      ran, passed, failed, aborted := RunRepositories(oses[i], repositories, releases, outcomes, cmds, ran, passed, failed);
      if aborted {
        return;
      }
    }
    assert oses[..|oses|] == oses;
    AttemptedAll(cmds, outcomes);
  }
}
