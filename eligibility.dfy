/** Whether this host may run any of the requested architectures. */
module Eligibility {
  import opened Config

  /**
   * Some requested architecture has, among its supported host groups, one
   * that lists the host name.
   */
  predicate HostSupported(arches: seq<string>, groups: map<string, seq<HostGroup>>, hostname: string)
  {
    exists a, g :: a in arches && a in groups && g in groups[a] && hostname in g
  }

  /**
   * The eligibility loop: stops at the first matching group. Every requested
   * architecture must be a key of the mapping (validation has checked this
   * before the loop runs; a missing key would raise).
   */
  method HostEligible(arches: seq<string>, groups: map<string, seq<HostGroup>>, hostname: string)
    returns (supportedHostFound: bool)
    requires forall a :: a in arches ==> a in groups
    ensures supportedHostFound <==> HostSupported(arches, groups, hostname)
  {
    supportedHostFound := false;
    var i := 0;
    while i < |arches|
      invariant 0 <= i <= |arches|
      invariant !supportedHostFound
      invariant forall a, g :: a in arches[..i] && g in groups[a] ==> hostname !in g
    {
      var hosts := groups[arches[i]];
      var j := 0;
      while j < |hosts|
        invariant 0 <= j <= |hosts|
        invariant !supportedHostFound
        invariant forall g :: g in hosts[..j] ==> hostname !in g
      {
        if hostname in hosts[j] {
          supportedHostFound := true;
          break;
        }
        j := j + 1;
      }
      if supportedHostFound {
        assert hosts[j] in groups[arches[i]];
        break;
      }
      assert hosts[..j] == hosts;
      assert arches[..i + 1] == arches[..i] + [arches[i]];
      i := i + 1;
    }
    if !supportedHostFound {
      assert arches[..i] == arches;
    }
  }
}
