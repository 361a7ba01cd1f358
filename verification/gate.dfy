/** The origin/status gate: a URL is processed only when it starts with the configured
    site address and the liveness probe answered 200. */
module Gate {

  /** The site address the source compares against (a placeholder in the source). */
  const ConfiguredSite := "your-website-address"

  /** What the liveness probe (`urlopen(url).getcode()`) came back with. */
  datatype ProbeOutcome = Responded(code: int) | Raised

  /** The status the handlers test: any exception during the probe collapses to 0. */
  function StatusOf(p: ProbeOutcome): (r: int)
    ensures r == 200 <==> p == Responded(200)
    ensures p.Raised? ==> r == 0
  {
    match p
    case Responded(code) => code
    case Raised => 0
  }

  /** Python's `s[:n]` for `n >= 0`: the first `n` characters, or all of `s` if shorter. */
  function PyPrefix(s: string, n: nat): (r: string)
    ensures |r| == if n <= |s| then n else |s|
    ensures r == s[..|r|]
  {
    if n <= |s| then s[..n] else s
  }

  /** The negation of the rejection test `url[:len(site)] != site or status != 200`. */
  predicate Admitted(url: string, site: string, status: int)
    ensures Admitted(url, site, status) <==> |site| <= |url| && url[..|site|] == site && status == 200
  {
    PyPrefix(url, |site|) == site && status == 200
  }

  /** A URL is admitted exactly when the site address is a prefix of it and the status is
      200; in particular a URL shorter than the site address is always rejected, and so
      is any URL whose probe raised. */
  lemma AdmittedIff(url: string, site: string, probe: ProbeOutcome)
    ensures Admitted(url, site, StatusOf(probe))
        <==> |site| <= |url| && url[..|site|] == site && probe == Responded(200)
    ensures |url| < |site| ==> !Admitted(url, site, StatusOf(probe))
  {
    if |url| < |site| {
      assert |PyPrefix(url, |site|)| != |site|;
    }
  }
}
