/** The two configuration documents once they have been parsed. */
module Config {

  /** A group of host names allowed to run one architecture. */
  type HostGroup = seq<string>

  /**
   * The requested test matrix (run-tests.yaml). Release values are kept
   * abstract (`R`): the YAML may hold numbers or strings, and the script only
   * compares them and turns them into text.
   */
  datatype TestMatrix<R> = TestMatrix(
    releases: seq<R>,
    os: seq<string>,
    arches: seq<string>,
    repositories: seq<string>)

  /**
   * The supported configuration (run-tests-config.yaml). `arches` is the
   * document's supported_arches mapping: its keys are the supported
   * architectures and each value lists the host groups for that architecture.
   */
  datatype SupportedConfig<R> = SupportedConfig(
    releases: seq<R>,
    os: seq<string>,
    arches: map<string, seq<HostGroup>>,
    repositories: seq<string>)
}
