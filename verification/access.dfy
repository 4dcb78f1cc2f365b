/**
 * The access decision shared by both protocol paths of the proxy: strip an
 * optional `:port` from a `host[:port]` string (the Host header of section
 * 7.2 of RFC 9110, or the CONNECT target of section 9.3.6 of RFC 9110) and
 * ask whether any glob of the allowlist matches what is left.
 *
 * The module is generic in the compiled glob type `G` and in the matcher
 * `matches`, so everything proved here holds for every per-pattern matcher,
 * not only for the stand-in of module Glob.
 */
module Access {

  /** The character that starts the port part of `host[:port]`. */
  const PortSeparator := ':'

  /**
   * The hostname used for matching: the text before the first ':' (all of
   * the input when it has none).
   */
  function HostnameOf(hostport: string): (name: string)
    ensures name <= hostport
    ensures PortSeparator !in name
    ensures |name| == |hostport| || hostport[|name|] == PortSeparator
    ensures PortSeparator !in hostport ==> name == hostport
  {
    if hostport == [] || hostport[0] == PortSeparator then []
    else [hostport[0]] + HostnameOf(hostport[1..])
  }

  /**
   * HostnameOf is the only prefix without ':' that is either the whole input
   * or followed by a ':'.
   */
  lemma HostnameOfUnique(hostport: string, name: string)
    requires name <= hostport && PortSeparator !in name
    requires |name| == |hostport| || hostport[|name|] == PortSeparator
    ensures HostnameOf(hostport) == name
  {
  }

  /** Appending a port to a colon-free host leaves its hostname unchanged. */
  lemma PortStripped(host: string, port: string)
    requires PortSeparator !in host
    ensures HostnameOf(host + [PortSeparator] + port) == host
  {
    var hostport := host + [PortSeparator] + port;
    assert hostport[|host|] == PortSeparator;
    assert host <= hostport;
    HostnameOfUnique(hostport, host);
  }

  /** The verdict the proxy promises: some glob of the allowlist matches the hostname. */
  predicate Allowed<G>(globs: seq<G>, hostport: string, matches: (G, string) -> bool) {
    exists i :: 0 <= i < |globs| && matches(globs[i], HostnameOf(hostport))
  }

  /**
   * The access check: strips the port, then scans the allowlist in order and
   * stops at the first glob that matches.
   */
  method IsHostAllowed<G>(globs: seq<G>, hostport: string, matches: (G, string) -> bool)
    returns (allowed: bool)
    ensures allowed <==> Allowed(globs, hostport, matches)
  {
    var name := HostnameOf(hostport);
    var i := 0;
    while i < |globs|
      invariant 0 <= i <= |globs|
      invariant forall j :: 0 <= j < i ==> !matches(globs[j], name)
    {
      if matches(globs[i], name) {
        return true;
      }
      i := i + 1;
    }
    return false;
  }

  /** An empty allowlist denies every host. */
  lemma EmptyAllowlistDenies<G>(hostport: string, matches: (G, string) -> bool)
    ensures !Allowed([], hostport, matches)
  {
  }

  /** A port suffix never changes the verdict for a colon-free host. */
  lemma PortDoesNotChangeVerdict<G>(globs: seq<G>, host: string, port: string,
                                    matches: (G, string) -> bool)
    requires PortSeparator !in host
    ensures Allowed(globs, host + [PortSeparator] + port, matches) == Allowed(globs, host, matches)
  {
    PortStripped(host, port);
  }

  /**
   * The verdict depends only on which globs the allowlist holds: not on their
   * order, nor on how often each one occurs.
   */
  lemma SameGlobsSameVerdict<G>(a: seq<G>, b: seq<G>, hostport: string,
                                matches: (G, string) -> bool)
    requires forall g :: g in a <==> g in b
    ensures Allowed(a, hostport, matches) == Allowed(b, hostport, matches)
  {
    var name := HostnameOf(hostport);
    if Allowed(a, hostport, matches) {
      var i :| 0 <= i < |a| && matches(a[i], name);
      assert a[i] in b;
      var j :| 0 <= j < |b| && b[j] == a[i];
    }
    if Allowed(b, hostport, matches) {
      var j :| 0 <= j < |b| && matches(b[j], name);
      assert b[j] in a;
      var i :| 0 <= i < |a| && a[i] == b[j];
    }
  }

  /**
   * Appending globs to an allowlist allows exactly what either part allows; in
   * particular an allowed host stays allowed.
   */
  lemma AppendAllowsUnion<G>(a: seq<G>, b: seq<G>, hostport: string,
                             matches: (G, string) -> bool)
    ensures Allowed(a + b, hostport, matches) <==>
            Allowed(a, hostport, matches) || Allowed(b, hostport, matches)
  {
    var name := HostnameOf(hostport);
    if Allowed(a + b, hostport, matches) {
      var i :| 0 <= i < |a + b| && matches((a + b)[i], name);
      if i >= |a| {
        assert (a + b)[i] == b[i - |a|];
      }
    }
    if Allowed(b, hostport, matches) {
      var j :| 0 <= j < |b| && matches(b[j], name);
      assert (a + b)[|a| + j] == b[j];
    }
    if Allowed(a, hostport, matches) {
      var i :| 0 <= i < |a| && matches(a[i], name);
      assert (a + b)[i] == a[i];
    }
  }

  /**
   * The decision stops at the first glob that matches: the verdict is that of
   * the first glob when it matches, and that of the rest otherwise.
   */
  lemma FirstMatchDecides<G>(globs: seq<G>, hostport: string, matches: (G, string) -> bool)
    requires globs != []
    ensures Allowed(globs, hostport, matches) <==>
            matches(globs[0], HostnameOf(hostport)) || Allowed(globs[1..], hostport, matches)
  {
  }

  /**
   * The split is on the first ':' with no notion of a bracketed IPv6
   * literal, so the hostname of "[::1]:8080" is "[".
   */
  lemma Ipv6LiteralIsCutAtFirstColon()
    ensures HostnameOf("[::1]:8080") == "["
  {
    HostnameOfUnique("[::1]:8080", "[");
  }
}
