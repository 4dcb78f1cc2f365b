/**
 * The proxy's start-up and its two decision callbacks: the allowlist is
 * compiled once from the `--allow` entries, the plain-HTTP callback either
 * passes a request on or answers it with 403 Forbidden (section 15.5.4 of
 * RFC 9110), and the CONNECT callback accepts or rejects a tunnel target.
 * Both callbacks decide through the one access check of module Access, for
 * any per-pattern matcher; what they print to standard output is returned as
 * a sequence of lines (each is printed followed by a newline).
 */
module Proxy {
  import Glob
  import Access

  datatype Option<T> = None | Some(value: T)

  /** A header field of a request: name and value. */
  datatype Header = Header(name: string, value: string)

  /** An inbound plain-HTTP request; the callback reads only `host`. */
  datatype Request = Request(
    requestMethod: string,
    uri: string,
    host: string,
    headers: seq<Header>,
    body: seq<bv8>)

  /** A response synthesised by the proxy itself, tied to the request it answers. */
  datatype Response = Response(
    request: Request,
    status: nat,
    contentType: string,
    contentLength: nat,
    body: string)

  /** What the plain-HTTP callback returns, and the lines it prints. */
  datatype HttpOutcome = HttpOutcome(request: Request, response: Option<Response>, log: seq<string>)

  /** The two answers a CONNECT callback can give. */
  datatype ConnectAction = OkConnect | RejectConnect

  /** What the CONNECT callback returns, and the lines it prints. */
  datatype ConnectOutcome = ConnectOutcome(action: ConnectAction, host: string, log: seq<string>)

  const StatusForbidden: nat := 403
  const ContentTypeText := "text/plain"
  const ForbiddenBody := "Forbidden"

  /**
   * Compiles every `--allow` entry, in order, into a glob and appends it to
   * the allowlist, which starts empty.
   */
  method BuildAllowlist<G>(hostnames: seq<string>, compile: string -> G) returns (globs: seq<G>)
    ensures |globs| == |hostnames|
    ensures forall i :: 0 <= i < |hostnames| ==> globs[i] == compile(hostnames[i])
  {
    globs := [];
    for i := 0 to |hostnames|
      invariant |globs| == i
      invariant forall j :: 0 <= j < i ==> globs[j] == compile(hostnames[j])
    {
      globs := globs + [compile(hostnames[i])];
    }
  }

  /** A log line: protocol, verdict and host, separated by spaces. */
  function LogLine(protocol: string, verdict: string, host: string): string {
    protocol + " " + verdict + " " + host
  }

  /** The response the proxy gives a request it refuses. */
  function Forbidden(request: Request): (r: Response)
    ensures r.request == request && r.status == StatusForbidden
    ensures r.contentType == ContentTypeText && r.body == ForbiddenBody
    ensures r.contentLength == |r.body|
  {
    Response(request, StatusForbidden, ContentTypeText, |ForbiddenBody|, ForbiddenBody)
  }

  /**
   * The plain-HTTP callback.  An allowed request passes on unchanged with no
   * response; a denied one is answered with 403 Forbidden.  A rejection is
   * always logged, an acceptance only when verbose.
   */
  function HandleRequest<G>(globs: seq<G>, matches: (G, string) -> bool, verbose: bool, request: Request)
    : (out: HttpOutcome)
    ensures out.request == request
    ensures out.response.None? <==> Access.Allowed(globs, request.host, matches)
    ensures out.response.Some? ==> out.response.value == Forbidden(request)
    ensures |out.log| <= 1
    ensures LogLine("HTTP", "REJECTED", request.host) in out.log <==> !Access.Allowed(globs, request.host, matches)
    ensures LogLine("HTTP", "ALLOWED", request.host) in out.log <==> Access.Allowed(globs, request.host, matches) && verbose
    ensures out.log == [] <==> Access.Allowed(globs, request.host, matches) && !verbose
  {
    if Access.Allowed(globs, request.host, matches) then
      HttpOutcome(request, None, if verbose then [LogLine("HTTP", "ALLOWED", request.host)] else [])
    else
      HttpOutcome(request, Some(Forbidden(request)), [LogLine("HTTP", "REJECTED", request.host)])
  }

  /**
   * The CONNECT callback.  It accepts the tunnel exactly when the target is
   * allowed and always hands the target back unchanged.  A rejection is
   * always logged, an acceptance only when verbose.
   */
  function HandleConnect<G>(globs: seq<G>, matches: (G, string) -> bool, verbose: bool, host: string)
    : (out: ConnectOutcome)
    ensures out.host == host
    ensures out.action == OkConnect <==> Access.Allowed(globs, host, matches)
    ensures |out.log| <= 1
    ensures LogLine("CONNECT", "REJECTED", host) in out.log <==> !Access.Allowed(globs, host, matches)
    ensures LogLine("CONNECT", "ALLOWED", host) in out.log <==> Access.Allowed(globs, host, matches) && verbose
    ensures out.log == [] <==> Access.Allowed(globs, host, matches) && !verbose
  {
    if Access.Allowed(globs, host, matches) then
      ConnectOutcome(OkConnect, host, if verbose then [LogLine("CONNECT", "ALLOWED", host)] else [])
    else
      ConnectOutcome(RejectConnect, host, [LogLine("CONNECT", "REJECTED", host)])
  }

  /**
   * Both paths share one chokepoint: for the same host string the plain-HTTP
   * callback lets the request through exactly when the CONNECT callback
   * accepts the tunnel, whatever the verbosity of either.
   */
  lemma SameVerdictOnBothPaths<G>(globs: seq<G>, matches: (G, string) -> bool,
                                  verboseHttp: bool, verboseConnect: bool, request: Request)
    ensures HandleRequest(globs, matches, verboseHttp, request).response.None? <==>
            HandleConnect(globs, matches, verboseConnect, request.host).action == OkConnect
  {
  }

  /** A port on a colon-free host changes neither callback's verdict. */
  lemma PortDoesNotChangeDecisions<G>(globs: seq<G>, matches: (G, string) -> bool, verbose: bool,
                                      request: Request, host: string, port: string)
    requires Access.PortSeparator !in host
    ensures HandleConnect(globs, matches, verbose, host + ":" + port).action ==
            HandleConnect(globs, matches, verbose, host).action
    ensures HandleRequest(globs, matches, verbose, request.(host := host + ":" + port)).response.None? ==
            HandleRequest(globs, matches, verbose, request.(host := host)).response.None?
  {
    Access.PortDoesNotChangeVerdict(globs, host, port, matches);
  }

  /** An allowlist built from no entries refuses everything on both paths. */
  lemma EmptyAllowlistRejectsAll<G>(matches: (G, string) -> bool, verbose: bool, request: Request,
                                    host: string)
    ensures HandleRequest([], matches, verbose, request).response == Some(Forbidden(request))
    ensures HandleConnect([], matches, verbose, host).action == RejectConnect
  {
  }

  /**
   * The verdict for a built allowlist: some `--allow` entry, compiled,
   * matches the hostname; and adding entries never turns an allowed host into
   * a denied one.  (That reordering or repeating entries changes nothing is
   * Access.SameGlobsSameVerdict.)
   */
  lemma AllowlistEntriesDecide<G>(hostnames: seq<string>, globs: seq<G>, more: seq<string>,
                                  moreGlobs: seq<G>, compile: string -> G,
                                  matches: (G, string) -> bool, hostport: string)
    requires |globs| == |hostnames|
    requires forall i :: 0 <= i < |hostnames| ==> globs[i] == compile(hostnames[i])
    requires |moreGlobs| == |more|
    requires forall i :: 0 <= i < |more| ==> moreGlobs[i] == compile(more[i])
    ensures Access.Allowed(globs, hostport, matches) <==>
            exists i :: 0 <= i < |hostnames| && matches(compile(hostnames[i]), Access.HostnameOf(hostport))
    ensures Access.Allowed(globs, hostport, matches) ==> Access.Allowed(globs + moreGlobs, hostport, matches)
  {
    Access.AppendAllowsUnion(globs, moreGlobs, hostport, matches);
  }

  /** An allowlist of one glob allows exactly the hosts that glob matches. */
  lemma SingleEntryDecides(glob: Glob.Pattern, hostport: string)
    ensures Access.Allowed([glob], hostport, Glob.Matches) <==> Glob.Matches(glob, Access.HostnameOf(hostport))
  {
    if Glob.Matches(glob, Access.HostnameOf(hostport)) {
      assert [glob][0] == glob;
    }
  }

  /** A single entry without special characters allows exactly the host it names, with any port. */
  lemma LiteralEntryDecides(entry: string, hostport: string)
    requires Glob.IsLiteral(entry)
    ensures Access.Allowed([Glob.Compile(entry)], hostport, Glob.Matches) <==> Access.HostnameOf(hostport) == entry
  {
    Glob.LiteralMatchesExactly(entry, Access.HostnameOf(hostport));
    SingleEntryDecides(Glob.Compile(entry), hostport);
  }

  /**
   * A single entry `*` + `suffix`, the suffix without special characters, allows the
   * hosts whose name is a run without '.' followed by the suffix.
   */
  lemma SubdomainEntryDecides(suffix: string, hostport: string)
    requires Glob.IsLiteral(suffix)
    ensures Access.Allowed([Glob.Compile("*" + suffix)], hostport, Glob.Matches) <==>
            var name := Access.HostnameOf(hostport);
            exists k :: 0 <= k <= |name| && Glob.Separator !in name[..k] && name[k..] == suffix
  {
    var name := Access.HostnameOf(hostport);
    assert ("*" + suffix)[1..] == suffix;
    assert Glob.Compile("*" + suffix) == [Glob.Star] + Glob.Compile(suffix);
    Glob.StarThenLiteral(suffix, name);
    SingleEntryDecides(Glob.Compile("*" + suffix), hostport);
  }

  /**
   * With the single entry `*.` + `domain` (say "*.example.com"), a tunnel to a
   * one-label subdomain of `domain` is accepted and one to `domain` itself is
   * rejected, whatever the port.
   */
  lemma SubdomainEntryScenario(verbose: bool, subLabel: string, domain: string, port: string)
    requires Glob.IsLiteral("." + domain)
    requires Glob.Separator !in subLabel
    requires Access.PortSeparator !in subLabel + "." + domain
    ensures HandleConnect([Glob.Compile("*." + domain)], Glob.Matches, verbose, subLabel + "." + domain + ":" + port).action
            == OkConnect
    ensures HandleConnect([Glob.Compile("*." + domain)], Glob.Matches, verbose, domain + ":" + port).action
            == RejectConnect
  {
    var suffix := "." + domain;
    var sub := subLabel + suffix;
    assert "*." + domain == "*" + suffix;
    assert subLabel + "." + domain == sub;
    assert Access.PortSeparator !in domain by {
      assert forall i :: 0 <= i < |domain| ==> domain[i] == sub[|subLabel| + 1 + i];
    }
    Access.PortStripped(sub, port);
    Access.PortStripped(domain, port);
    SubdomainEntryDecides(suffix, sub + ":" + port);
    SubdomainEntryDecides(suffix, domain + ":" + port);
    assert sub[..|subLabel|] == subLabel && sub[|subLabel|..] == suffix;
  }

  /**
   * With the single entry "api.example.com", a request for that host passes
   * on and one for "evil.example.com" is answered with 403 Forbidden.
   */
  lemma ExactEntryScenario(verbose: bool, request: Request, api: string, evil: string)
    requires api == "api.example.com" && evil == "evil.example.com"
    ensures HandleRequest([Glob.Compile(api)], Glob.Matches, verbose, request.(host := api)).response
            == None
    ensures HandleRequest([Glob.Compile(api)], Glob.Matches, verbose, request.(host := evil)).response
            == Some(Forbidden(request.(host := evil)))
  {
    assert Glob.IsLiteral(api);
    assert ':' !in api && ':' !in evil;
    LiteralEntryDecides(api, api);
    LiteralEntryDecides(api, evil);
  }

  /** A `**` entry allows every host; a `*` entry only hosts whose name has no '.'. */
  lemma WildcardEntries(globs: seq<Glob.Pattern>, hostport: string)
    ensures Glob.Compile("**") in globs ==> Access.Allowed(globs, hostport, Glob.Matches)
    ensures Access.Allowed([Glob.Compile("*")], hostport, Glob.Matches) <==> Glob.Separator !in Access.HostnameOf(hostport)
  {
    var name := Access.HostnameOf(hostport);
    assert Glob.Compile("**") == [Glob.SuperStar];
    assert Glob.Compile("*") == [Glob.Star];
    Glob.SuperStarMatchesAll(name);
    Glob.StarMatchesOneLabel(name);
    assert [Glob.Compile("*")][0] == [Glob.Star];
    if Glob.Compile("**") in globs {
      var i :| 0 <= i < |globs| && globs[i] == Glob.Compile("**");
      assert Glob.Matches(globs[i], name);
    }
  }
}
