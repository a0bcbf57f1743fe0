/** Checking the requested matrix against the supported configuration. */
module Validation {
  import opened Config

  function Elements<T(!new)>(s: seq<T>): (r: set<T>)
    ensures forall x :: x in r <==> x in s
  {
    set x | x in s
  }

  /**
   * The requested values that are not allowed, in request order, one entry
   * per occurrence (a value requested twice is reported twice).
   */
  function Missing<T(==,!new)>(values: seq<T>, allowed: set<T>): (r: seq<T>)
    ensures |r| <= |values|
    ensures forall x :: x in r <==> x in values && x !in allowed
    ensures forall x :: multiset(r)[x] == if x in allowed then 0 else multiset(values)[x]
  {
    if values == [] then []
    else
      var n := |values|;
      assert values == values[..n - 1] + [values[n - 1]];
      Missing(values[..n - 1], allowed) + (if values[n - 1] in allowed then [] else [values[n - 1]])
  }

  /** The violations found in each of the four dimensions. */
  datatype Report<R> = Report(
    releases: seq<R>,
    os: seq<string>,
    arches: seq<string>,
    repositories: seq<string>)

  /** Every requested value, in every dimension, is supported. */
  predicate Supported<R(==,!new)>(requested: TestMatrix<R>, supported: SupportedConfig<R>)
  {
    && (forall r :: r in requested.releases ==> r in supported.releases)
    && (forall o :: o in requested.os ==> o in supported.os)
    && (forall a :: a in requested.arches ==> a in supported.arches)
    && (forall p :: p in requested.repositories ==> p in supported.repositories)
  }

  /** One of the four scanning loops: collect every value that is not allowed. */
  method ScanDimension<T(==,!new)>(values: seq<T>, allowed: set<T>) returns (missing: seq<T>)
    ensures missing == Missing(values, allowed)
  {
    missing := [];
    for i := 0 to |values|
      invariant missing == Missing(values[..i], allowed)
    {
      assert values[..i + 1][..i] == values[..i];
      if values[i] !in allowed {
        missing := missing + [values[i]];
      }
    }
    assert values[..|values|] == values;
  }

  /**
   * The validation block: all four dimensions are scanned whatever the
   * earlier ones found, every violating value is reported, and one flag
   * records whether anything was unsupported.
   */
  method Validate<R(==,!new)>(requested: TestMatrix<R>, supported: SupportedConfig<R>)
    returns (notSupported: bool, report: Report<R>)
    ensures report.releases == Missing(requested.releases, Elements(supported.releases))
    ensures report.os == Missing(requested.os, Elements(supported.os))
    ensures report.arches == Missing(requested.arches, supported.arches.Keys)
    ensures report.repositories == Missing(requested.repositories, Elements(supported.repositories))
    ensures notSupported <==> report != Report([], [], [], [])
    ensures notSupported <==> !Supported(requested, supported)
  {
    notSupported := false;
    var releases := ScanDimension(requested.releases, Elements(supported.releases));
    notSupported := notSupported || releases != [];
    var os := ScanDimension(requested.os, Elements(supported.os));
    notSupported := notSupported || os != [];
    var arches := ScanDimension(requested.arches, supported.arches.Keys);
    notSupported := notSupported || arches != [];
    var repositories := ScanDimension(requested.repositories, Elements(supported.repositories));
    notSupported := notSupported || repositories != [];
    report := Report(releases, os, arches, repositories);
    MissingEmpty(requested.releases, Elements(supported.releases));
    MissingEmpty(requested.os, Elements(supported.os));
    MissingEmpty(requested.arches, supported.arches.Keys);
    MissingEmpty(requested.repositories, Elements(supported.repositories));
  }

  /** Nothing is reported exactly when every requested value is allowed. */
  lemma MissingEmpty<T(!new)>(values: seq<T>, allowed: set<T>)
    ensures Missing(values, allowed) == [] <==> forall x :: x in values ==> x in allowed
  {
    if Missing(values, allowed) != [] {
      assert Missing(values, allowed)[0] in Missing(values, allowed);
    }
  }
}
