/**
 * The top-level script: load the requested matrix, clone the infrastructure
 * repository, load the supported configuration, validate, check the host,
 * run the tests, and choose the exit code.
 */
module Driver {
  import opened Outcomes
  import opened Config
  import opened Retry
  import opened Validation
  import opened Eligibility
  import opened TestRun

  /** The release values as the test command spells them (str(release)). */
  function ReleaseNames<R>(releases: seq<R>, show: R -> string): (names: seq<string>)
    ensures |names| == |releases|
    ensures forall k :: 0 <= k < |releases| ==> names[k] == show(releases[k])
  {
    if releases == [] then []
    else ReleaseNames(releases[..|releases| - 1], show) + [show(releases[|releases| - 1])]
  }

  /** The clone is run through loop_command with its default bound. */
  predicate CloneSucceeds(outcomes: seq<Outcome>)
    requires DefaultAttempts <= |outcomes|
  {
    exists k :: 0 <= k < DefaultAttempts && outcomes[k].Success?
  }

  /**
   * The test commands the script plans: requested os, SUPPORTED repositories
   * (the requested repositories only take part in validation), requested
   * releases.
   */
  function Plan<R>(requested: TestMatrix<R>, supported: SupportedConfig<R>, show: R -> string): seq<Command>
  {
    MatrixCommands(requested.os, supported.repositories, ReleaseNames(requested.releases, show))
  }

  /** Every gate before the test loop lets the run through. */
  predicate Proceeds<R(==,!new)>(requested: Option<TestMatrix<R>>, cloneOutcomes: seq<Outcome>,
                                 supported: Option<SupportedConfig<R>>, hostname: string)
    requires DefaultAttempts <= |cloneOutcomes|
  {
    && requested.Some? && CloneSucceeds(cloneOutcomes) && supported.Some?
    && Supported(requested.value, supported.value)
    && hostname != []
    && HostSupported(requested.value.arches, supported.value.arches, hostname)
  }

  /** The process exit status and the test commands that were started. */
  datatype Verdict = Verdict(exitCode: int, tests: seq<Command>)

  /**
   * What the script does, as a function of its environment: `requested` and
   * `supported` are the parsed documents (None when reading or parsing one
   * failed), `cloneOutcomes` the clone attempts, `hostname` the node name,
   * and `testOutcomes[t]` the outcome of the t-th planned test command.
   */
  function Drive<R(==,!new)>(requested: Option<TestMatrix<R>>, cloneOutcomes: seq<Outcome>,
                             supported: Option<SupportedConfig<R>>, hostname: string,
                             testOutcomes: seq<Outcome>, show: R -> string): (v: Verdict)
    requires DefaultAttempts <= |cloneOutcomes|
    requires requested.Some? && supported.Some? ==> |Plan(requested.value, supported.value, show)| <= |testOutcomes|
    ensures v.exitCode == 0 || v.exitCode == 1
    ensures v.tests != [] ==> Proceeds(requested, cloneOutcomes, supported, hostname)
  {
    if requested.None? then Verdict(1, [])
    else if !CloneSucceeds(cloneOutcomes) then Verdict(1, [])
    else if supported.None? then Verdict(1, [])
    else if !Supported(requested.value, supported.value) then Verdict(1, [])
    else if hostname == [] then Verdict(1, [])
    else if !HostSupported(requested.value.arches, supported.value.arches, hostname) then Verdict(0, [])
    else TestVerdict(Plan(requested.value, supported.value, show), testOutcomes)
  }

  /**
   * The test phase: the planned commands are started in order up to the
   * first raise, and the status is 1 when a run raised or failed.
   */
  function TestVerdict(plan: seq<Command>, testOutcomes: seq<Outcome>): (v: Verdict)
    requires |plan| <= |testOutcomes|
    ensures v.exitCode == 0 || v.exitCode == 1
    ensures v.tests <= plan
  {
    var ran := Attempted(plan, testOutcomes);
    var aborted := ran != [] && testOutcomes[|ran| - 1].Raised?;
    Verdict(if aborted || Select(ran, testOutcomes, false) != [] then 1 else 0, ran)
  }

  lemma DefaultLimit()
    ensures AttemptLimit(DefaultAttempts) == DefaultAttempts
  {
  }

  /**
   * The script, step by step, with the helpers of the other modules. It
   * produces exactly the verdict of Drive.
   */
  method RunScript<R(==,!new)>(requested: Option<TestMatrix<R>>, cloneOutcomes: seq<Outcome>,
                               supported: Option<SupportedConfig<R>>, hostname: string,
                               testOutcomes: seq<Outcome>, show: R -> string)
    returns (exitCode: int, tests: seq<Command>)
    requires DefaultAttempts <= |cloneOutcomes|
    requires requested.Some? && supported.Some? ==> |Plan(requested.value, supported.value, show)| <= |testOutcomes|
    ensures Verdict(exitCode, tests) == Drive(requested, cloneOutcomes, supported, hostname, testOutcomes, show)
  {
    if requested.None? {
      return 1, [];
    }
    var cloned := CloneInfrastructure(cloneOutcomes);
    if !cloned {
      return 1, [];
    }
    if supported.None? {
      return 1, [];
    }
    var notSupported, _ := Validate(requested.value, supported.value);
    if notSupported {
      return 1, [];
    }
    if hostname == [] {
      return 1, [];
    }
    var found := HostEligible(requested.value.arches, supported.value.arches, hostname);
    if !found {
      return 0, [];
    }
    exitCode, tests := RunTestPhase(requested.value.os, supported.value.repositories,
                                    ReleaseNames(requested.value.releases, show), testOutcomes);
  }

  /** The clone of the infrastructure repository through loop_command with its default bound. */
  method CloneInfrastructure(cloneOutcomes: seq<Outcome>) returns (cloned: bool)
    requires DefaultAttempts <= |cloneOutcomes|
    ensures cloned <==> CloneSucceeds(cloneOutcomes)
  {
    DefaultLimit();
    var output, attempts, sleeps;
    cloned, output, attempts, sleeps := LoopCommand(cloneOutcomes, DefaultAttempts);
  }

  /** The test loop followed by the exit-code decision; it produces the verdict of TestVerdict. */
  method RunTestPhase(oses: seq<string>, repositories: seq<string>, releases: seq<string>, testOutcomes: seq<Outcome>)
    returns (exitCode: int, tests: seq<Command>)
    requires |MatrixCommands(oses, repositories, releases)| <= |testOutcomes|
    ensures Verdict(exitCode, tests) == TestVerdict(MatrixCommands(oses, repositories, releases), testOutcomes)
  {
    var ran, passed, failed, aborted := RunTests(oses, repositories, releases, testOutcomes);
    if aborted || |failed| > 0 {
      return 1, ran;
    }
    return 0, ran;
  }

  /**
   * A run stopped by a gate starts no test. Its status is 1 when a document
   * failed to load, every clone attempt failed, the matrix is not supported
   * or the host name is empty, and 0 only when the sole gate that stopped it
   * is host eligibility.
   */
  lemma GateStopsRun<R(!new)>(requested: Option<TestMatrix<R>>, cloneOutcomes: seq<Outcome>,
                              supported: Option<SupportedConfig<R>>, hostname: string,
                              testOutcomes: seq<Outcome>, show: R -> string)
    requires DefaultAttempts <= |cloneOutcomes|
    requires requested.Some? && supported.Some? ==> |Plan(requested.value, supported.value, show)| <= |testOutcomes|
    requires !Proceeds(requested, cloneOutcomes, supported, hostname)
    ensures var v := Drive(requested, cloneOutcomes, supported, hostname, testOutcomes, show);
            && v.tests == []
            && (v.exitCode == 0 <==> && requested.Some? && CloneSucceeds(cloneOutcomes) && supported.Some?
                                     && Supported(requested.value, supported.value) && hostname != [])
  {
  }

  /** A requested value outside the supported configuration stops the run with status 1 before any test. */
  lemma UnsupportedMatrixFails<R(!new)>(requested: TestMatrix<R>, cloneOutcomes: seq<Outcome>,
                                          supported: SupportedConfig<R>, hostname: string,
                                          testOutcomes: seq<Outcome>, show: R -> string)
    requires DefaultAttempts <= |cloneOutcomes| && CloneSucceeds(cloneOutcomes)
    requires |Plan(requested, supported, show)| <= |testOutcomes|
    requires !Supported(requested, supported)
    ensures Drive(Some(requested), cloneOutcomes, Some(supported), hostname, testOutcomes, show) == Verdict(1, [])
  {
  }

  /** A host that no requested architecture lists ends the run with status 0 and no test. */
  lemma IneligibleHostIsNoOp<R(!new)>(requested: TestMatrix<R>, cloneOutcomes: seq<Outcome>,
                                        supported: SupportedConfig<R>, hostname: string,
                                        testOutcomes: seq<Outcome>, show: R -> string)
    requires DefaultAttempts <= |cloneOutcomes| && CloneSucceeds(cloneOutcomes)
    requires |Plan(requested, supported, show)| <= |testOutcomes|
    requires Supported(requested, supported) && hostname != []
    requires !HostSupported(requested.arches, supported.arches, hostname)
    ensures Drive(Some(requested), cloneOutcomes, Some(supported), hostname, testOutcomes, show) == Verdict(0, [])
  {
  }

  /**
   * Once every gate is passed, the planned commands are started in order
   * (up to the first raise), and the status is 0 exactly when every planned
   * command succeeded.
   */
  lemma TestsDecideExitCode<R(!new)>(requested: TestMatrix<R>, cloneOutcomes: seq<Outcome>,
                                       supported: SupportedConfig<R>, hostname: string,
                                       testOutcomes: seq<Outcome>, show: R -> string)
    requires DefaultAttempts <= |cloneOutcomes|
    requires |Plan(requested, supported, show)| <= |testOutcomes|
    requires Proceeds(Some(requested), cloneOutcomes, Some(supported), hostname)
    ensures var v := Drive(Some(requested), cloneOutcomes, Some(supported), hostname, testOutcomes, show);
            var plan := Plan(requested, supported, show);
            && v.tests == Attempted(plan, testOutcomes)
            && (v.exitCode == 0 <==> forall t :: 0 <= t < |plan| ==> testOutcomes[t].Success?)
  {
    var plan := Plan(requested, supported, show);
    assert Drive(Some(requested), cloneOutcomes, Some(supported), hostname, testOutcomes, show)
        == TestVerdict(plan, testOutcomes);
    TestVerdictExitCode(plan, testOutcomes);
  }

  /** The test phase ends with status 0 exactly when every planned command succeeded. */
  lemma TestVerdictExitCode(plan: seq<Command>, testOutcomes: seq<Outcome>)
    requires |plan| <= |testOutcomes|
    ensures TestVerdict(plan, testOutcomes).exitCode == 0
            <==> forall t :: 0 <= t < |plan| ==> testOutcomes[t].Success?
  {
    AllPassedIffClean(plan, testOutcomes);
  }

  /**
   * The requested repositories only take part in validation: two matrices
   * that differ only there and both pass validation run the same tests with
   * the same result.
   */
  lemma RequestedRepositoriesDoNotSelectTests<R(!new)>(requested: TestMatrix<R>, other: seq<string>,
                                                         cloneOutcomes: seq<Outcome>, supported: SupportedConfig<R>,
                                                         hostname: string, testOutcomes: seq<Outcome>, show: R -> string)
    requires DefaultAttempts <= |cloneOutcomes|
    requires |Plan(requested, supported, show)| <= |testOutcomes|
    requires Supported(requested, supported) && Supported(requested.(repositories := other), supported)
    ensures Drive(Some(requested), cloneOutcomes, Some(supported), hostname, testOutcomes, show)
         == Drive(Some(requested.(repositories := other)), cloneOutcomes, Some(supported), hostname, testOutcomes, show)
  {
  }
}
