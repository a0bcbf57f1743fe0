# test-runner: a Dafny model of run-tests.py

`run-tests.py` is a continuous-integration driver. It reads a requested test
matrix (releases, operating systems, architectures, repositories), clones an
infrastructure repository with a bounded retry loop, reads the supported
configuration from that clone, and validates the request against it. It then
checks that the current host serves one of the requested architectures. After
that it runs `./run-ci.sh <os> <release> <repository>` for every requested os,
every *supported* repository and every requested release, in that nesting
order. The exit status is 1 when a test failed, and 0 when every test passed.

The model has seven modules, one per concern of the script:

- `Outcomes` (`outcomes.dfy`): what one run of an external command does.
  It succeeds with an output, fails with an output, or raises (`Raised`).
- `Config` (`config.dfy`): the requested matrix and the supported
  configuration. `supported_arches` is a map from architecture name to host
  groups. Using the same key as a list of allowed values means checking key
  membership, which is what Python's `in` on a dictionary does.
- `Retry` (`retry.dfy`): `loop_command`, as a method with a `while` loop.
  The process runner is replaced by a sequence of outcomes, one per attempt.
  The sleeps are recorded in a sequence instead of being performed.
- `Validation` (`validation.dfy`): the four scanning loops and the
  `not_supported` flag.
- `Eligibility` (`eligibility.dfy`): the nested host-search loop with its two
  `break`s.
- `TestRun` (`testrun.dfy`): the triple loop that builds and runs the test
  commands and sorts them into `test_success` and `failed`. It is proved
  against a generation function `MatrixCommands` and a partition function
  `Select`. Each loop level is its own method, and all three share one
  contract (`Ready`/`Done`).
- `Driver` (`driver.dfy`): the top-level script as a method (`RunScript`),
  proved equal to a function of its environment (`Drive`).

The environment is passed in as parameters:

- the parsed documents, as an `Option` (`None` when reading or parsing failed);
- the clone outcomes;
- the host name;
- the test outcomes, indexed in the order the commands are generated.

Release values have a generic type. The parameter `show` stands for Python's
`str`, which the script applies when it builds a command.

Three behaviours of the code are easy to miss, and the model keeps them:

- A `run_command` call in the test loop (run-tests.py:182) is not inside a
  `try`. An exception there propagates and ends the script with status 1. The
  model records this as `aborted`: later commands are not started.
- `loop_command` with `max_attempts == 0` still makes one attempt, because the
  bound is only checked after an attempt (`AttemptLimit`).
- The requested repositories only take part in validation. The commands are
  built from the supported repositories
  (`Driver.RequestedRepositoriesDoNotSelectTests`).

## Model

| member | source | states |
|---|---|---|
| Retry.AttemptLimit | run-tests.py:58-73 | The number of attempts made when none succeeds is at least 1. It equals abs(max_attempts) whenever max_attempts is not 0. |
| Retry.LastOutput | run-tests.py:59-73 | The returned output is None exactly when every attempt so far raised. Otherwise it is the output of an attempt that did not raise, and every later attempt raised. |
| Retry.LoopCommand | run-tests.py:58-76 | Makes between 1 and the attempt limit attempts, and no attempt before the last succeeded. Returns success exactly when some attempt within the limit succeeds, with that attempt's output. Without a success it makes exactly the limit. The output is the last output observed. After attempt k it sleeps k seconds, with no sleep after the last attempt, so the delays add up to (attempts − 1)·attempts/2 seconds. |
| Retry.LinearBackoffTotal | run-tests.py:75-76 | The sleeps 1, 2, ..., n of the retry loop add up to n(n+1)/2 seconds. |
| Validation.Missing | run-tests.py:111-145 | The reported violations of one dimension are exactly the requested values that are not allowed. Each is reported as often as it was requested; allowed values are never reported. |
| Validation.ScanDimension | run-tests.py:111-118 | One scanning loop collects exactly `Missing` of its dimension, in request order. |
| Validation.Validate | run-tests.py:109-148 | All four dimensions are scanned and reported in full. Architectures are checked against the keys of `supported_arches`. The flag is set exactly when something was reported, and that is exactly when the matrix is not supported. |
| Validation.MissingEmpty | run-tests.py:147-148 | One dimension reports nothing exactly when all of its requested values are allowed. |
| Validation.Supported | run-tests.py:109-148 | Definition of a supported matrix: every requested release, os, architecture and repository is allowed, with architectures checked against the keys of `supported_arches`. `Validate` proves the flag is its negation. |
| Eligibility.HostEligible | run-tests.py:156-164 | The nested loop with its breaks finds a host exactly when some requested architecture has a host group that lists the host name. |
| Eligibility.HostSupported | run-tests.py:156-164 | Definition of an eligible host: some requested architecture has a supported host group that lists the host name. `HostEligible` proves the loop computes it. |
| TestRun.TestCommand | run-tests.py:176-181 | A test command is the four words `./run-ci.sh`, os, release and repository, in that order. |
| TestRun.ReleaseCommands | run-tests.py:175-181 | The innermost loop generates one command per requested release. |
| TestRun.RepositoryCommands | run-tests.py:174-181 | Definition of one os's commands: for each repository in order, that repository's release commands. Their number and contents are fixed by `RepositoryCommandsLength` and `RepositoryCommandsAt`. |
| TestRun.MatrixCommands | run-tests.py:173-181 | Definition of the plan: for each os in order, that os's repository commands. Their number and contents are fixed by `MatrixCommandsLength` and `MatrixCommandsAt`. |
| TestRun.RepositoryCommandsLength | run-tests.py:174-181 | One os generates repositories × releases commands. |
| TestRun.MatrixCommandsLength | run-tests.py:173-181 | The plan has os × repositories × releases commands. |
| TestRun.ReleaseCommandsAt | run-tests.py:175-181 | Command k of the innermost loop is built from release k. |
| TestRun.RepositoryCommandsAt | run-tests.py:174-181 | Command j·len(releases) + k of one os is built from repository j and release k. |
| TestRun.MatrixCommandsAt | run-tests.py:173-181 | Command i·(len(repositories)·len(releases)) + j·len(releases) + k of the plan is built from os i, repository j and release k. This is the nesting order os, then repository, then release. |
| TestRun.Select | run-tests.py:183-187 | The passed (or failed) commands, in run order; never longer than the commands run. What it holds is fixed by `SelectMembership`, `SelectAt`, `SelectPartitions` and `SelectKeepsOrder`. |
| TestRun.SelectMembership | run-tests.py:182-187 | A command is in `test_success` (or `failed`) exactly when one of its runs succeeded (or failed). The outcome of a run alone decides its list, whatever ran before it. |
| TestRun.SelectAt | run-tests.py:182-187 | A run that lands in a list is appended to it right after the entries of the runs before it. |
| TestRun.SelectPartitions | run-tests.py:182-187 | When no run raised, every command is in exactly one of `test_success` and `failed`, as often as it was generated. |
| TestRun.SelectKeepsOrder | run-tests.py:183-187 | Both lists keep generation order: the list after a prefix of the runs is a prefix of the final list. |
| TestRun.NoFailures | run-tests.py:185-187 | `failed` is empty exactly when no run failed. |
| TestRun.Attempted | run-tests.py:173-182 | The commands started are a prefix of the plan, and no command before the last started one raised. Either all were started or the last one raised. |
| TestRun.AttemptedAll | run-tests.py:173-187 | Without a raise, every planned command is started. |
| TestRun.AttemptedStops | run-tests.py:182 | A raise at command `stop` ends the run right after that command. |
| TestRun.AllPassedIffClean | run-tests.py:182-201 | The run ends with no raise and an empty `failed` list exactly when every planned command succeeded. |
| TestRun.RunReleases | run-tests.py:175-187 | The innermost loop runs its batch of commands in order. It either runs the whole batch with no raise, or stops at the first raise. It keeps both lists equal to the passed and failed runs. |
| TestRun.RunRepositories | run-tests.py:174-187 | The middle loop runs one os's commands under the same contract. |
| TestRun.RunTests | run-tests.py:170-187 | The triple loop starts exactly `Attempted` of the plan. It is aborted exactly when the last started run raised, and otherwise it started the whole plan. `test_success` and `failed` are the passed and the failed runs, in order. |
| Driver.ReleaseNames | run-tests.py:175-179 | The release values as the command spells them: one per release, each `str(release)`. |
| Driver.CloneSucceeds | run-tests.py:94-97 | Definition of a successful clone: one of the 5 attempts of `loop_command` succeeds. `RunScript` uses the result of `LoopCommand` for it. |
| Driver.CloneInfrastructure | run-tests.py:88-97 | The clone through `loop_command` with its default of 5 attempts succeeds exactly when one of those attempts succeeds. |
| Driver.Plan | run-tests.py:173-181 | Definition of the planned test commands: requested os, *supported* repositories and requested releases. The requested repositories take no part. |
| Driver.Drive | run-tests.py:81-201 | The exit status is 0 or 1. A test is started only when every gate passed: both documents loaded, the clone succeeded, the matrix is supported, the host name is non-empty and the host is eligible. |
| Driver.GateStopsRun | run-tests.py:81-168 | A run stopped before the test loop starts no test. Its status is 1 when a document failed to load, every clone attempt failed, the matrix is unsupported or the host name is empty. It is 0 only when host eligibility alone stopped it. |
| Driver.TestVerdict | run-tests.py:189-201 | The test phase's status is 0 or 1, and the tests started are a prefix of the plan. |
| Driver.TestVerdictExitCode | run-tests.py:182-201 | The test phase ends with status 0 exactly when every planned command succeeded, and with status 1 when one failed or raised. |
| Driver.RunTestPhase | run-tests.py:170-201 | The test loop followed by the exit-code decision gives exactly the verdict of `TestVerdict`. |
| Driver.RunScript | run-tests.py:81-201 | The script, step by step, gives exactly the verdict of `Drive`. |
| Driver.UnsupportedMatrixFails | run-tests.py:147-148 | An unsupported value in any dimension ends the run with status 1 before any test. |
| Driver.IneligibleHostIsNoOp | run-tests.py:166-168 | A host that serves no requested architecture ends the run with status 0 and no test. |
| Driver.TestsDecideExitCode | run-tests.py:170-201 | Once every gate is passed, the planned commands are started in order, up to the first raise. The status is 0 exactly when every planned command succeeded. |
| Driver.RequestedRepositoriesDoNotSelectTests | run-tests.py:173-175 | Two matrices that differ only in their requested repositories, and both pass validation, give the same verdict. |

## Left out

- Reading and parsing the two YAML files is not modelled. A failure in either is the `None` case, which exits with status 1. A document that lacks one of the expected keys raises `KeyError` in the source; the model assumes every key is present.
- `run_command` is not modelled: the child process, the selector loop over its output, and the copy of that output to standard output. Each call is one `Outcome` taken from an input sequence.
- The `git clone` command itself and the `os.chdir` into the clone are left out. They only touch the file system; the clone's effect is its sequence of outcomes.
- Reading the host name (`os.uname`) is left out; the host name is a parameter.
- `time.sleep` is not performed. The requested delays are returned in `sleeps`.
- Logging is left out, including the summary lines of the passed and failed commands (run-tests.py:189-197); it affects neither the control flow nor the status.
- Eligibility.HostEligible: requires every requested architecture to be a key of `supported_arches`. In the script, validation has already checked this; a missing key would raise `KeyError`.
- Eligibility.HostSupported: treats each host group as a list of names. If a configuration held a plain string there, Python's `in` would match substrings; that case is not modelled.
- Driver.Drive: the commands it reports as started are the test commands only. The clone attempts are not included.
- TestRun.Select: its own contract states only a length bound. What it holds is stated by `SelectMembership`, `SelectAt`, `SelectPartitions`, `SelectKeepsOrder` and `NoFailures`.
