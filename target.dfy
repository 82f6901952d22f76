/**
 * Target resolution: a URL that mentions `localhost` is rewritten to use the container
 * host's address, when one was detected, so that a browser in another network namespace
 * can reach a service bound on the host.
 */
module Target {
  import opened Prelude
  import opened Strings

  const Loopback: string := "localhost"

  /** The detected address is usable: present and non-empty (JavaScript truthiness). */
  predicate Usable(hostIp: Option<string>) {
    hostIp.Some? && hostIp.value != ""
  }

  /**
   * The URL the capture waits for and visits. `hostIp` is what the default-route lookup
   * reports (`None` when it failed).
   */
  method ResolveUrl(rawUrl: string, hostIp: Option<string>) returns (url: string)
    ensures Contains(rawUrl, Loopback) && Usable(hostIp) ==> url == ReplaceAll(rawUrl, Loopback, hostIp.value)
    ensures !(Contains(rawUrl, Loopback) && Usable(hostIp)) ==> url == rawUrl
    ensures Usable(hostIp) && SharesNoChar(hostIp.value, Loopback) ==> !Contains(url, Loopback)
  {
    url := rawUrl;
    if Contains(url, Loopback) {
      if Usable(hostIp) {
        url := ReplaceAll(url, Loopback, hostIp.value);
        if SharesNoChar(hostIp.value, Loopback) {
          ReplaceAllRemovesPattern(rawUrl, Loopback, hostIp.value);
        }
      }
    }
  }

  /** The `includes` guard never changes the result: without `localhost` the rewrite is the identity. */
  lemma GuardIsRedundant(rawUrl: string, ip: string)
    ensures !Contains(rawUrl, Loopback) ==> ReplaceAll(rawUrl, Loopback, ip) == rawUrl
  {
    if !Contains(rawUrl, Loopback) {
      ReplaceAllAbsent(rawUrl, Loopback, ip);
    }
  }

  /**
   * "No `localhost` remains" needs more than an address that does not itself contain
   * `localhost`: the rewrite can assemble a new occurrence across the seam.
   */
  lemma SeamCanRebuildLoopback()
    ensures !Contains("local", Loopback)
    ensures ReplaceAll("localhosthost", Loopback, "local") == "localhost"
    ensures Contains(ReplaceAll("localhosthost", Loopback, "local"), Loopback)
  {
    var s := "localhosthost";
    assert StartsWith(s, Loopback);
    assert s[|Loopback|..] == "host";
    var h := "host";
    assert !StartsWith(h, Loopback);
    assert !StartsWith(h[1..], Loopback) && !StartsWith(h[2..], Loopback) && !StartsWith(h[3..], Loopback);
    assert ReplaceAll(h, Loopback, "local") == "host";
    assert OccursAt("localhost", Loopback, 0);
  }
}
