# http-filter-proxy: the allowlist decision, in Dafny

http-filter-proxy is a forward HTTP proxy that lets clients reach only the
hostnames an operator allows, written as glob patterns with `.` as the
separator (`--allow '*.example.com'`). This project models the one piece of
logic the program owns:

- **Allowlist construction.** Each `--allow` entry is compiled, in order, into a glob. The globs are appended to the allowlist, which starts empty.
- **The access check `isHostAllowed`.** It takes a `host[:port]` string. That is the Host header of section 7.2 of RFC 9110, or the CONNECT target of section 9.3.6 of RFC 9110. The check keeps the text before the first `:`. It then scans the allowlist and returns true at the first glob that matches, or false when none does.
- **The plain-HTTP callback.** An allowed request passes on unchanged with no response. A denied one gets a `text/plain` response with status 403 (section 15.5.4 of RFC 9110) and body `Forbidden`.
- **The CONNECT callback.** It answers `OkConnect` or `RejectConnect` and hands the target back unchanged.
- **Logging.** Both callbacks always log `<PROTOCOL> REJECTED <host>`. They log `<PROTOCOL> ALLOWED <host>` only in verbose mode.

Modules:

- `Access` (access.dfy) holds the port stripping, the specification `Allowed` (an existential over the allowlist) and the loop `IsHostAllowed`, which is proved equal to it. It is generic in the glob type and in the per-pattern matcher. Every property of the access decision is therefore proved for any matcher.
- `Glob` (glob.dfy) is a small stand-in for the glob library. It is an assumption, not that library's code. It supports literal characters, `?`, `*` (which does not cross `.`) and `**` (which does). Matching is case-sensitive.
- `Proxy` (proxy.dfy) holds the allowlist construction and the two callbacks. The callbacks, like `Access`, take the matcher as a parameter, so their properties hold for any matcher. `BuildAllowlist` and `AllowlistEntriesDecide` likewise take the compile function and the matcher as parameters. Only the lemmas about particular entries (`SingleEntryDecides` onward) fix the compile function and the matcher to the stand-in. The callbacks' results are values. Printed lines are returned as a sequence of strings, one per line, without the trailing newline.

Behaviour of the program that is easy to mistake:

- A lone `*` entry does not allow every host. With `.` as separator it allows only names without a dot (`WildcardEntries`). `**` allows every host.
- An allowed plain-HTTP request is logged only in verbose mode.
- A denied CONNECT gets no 403 line from the callback. It only answers `RejectConnect`.
- The port split has no notion of a bracketed IPv6 literal. `[::1]:8080` is checked as `[` (`Ipv6LiteralIsCutAtFirstColon`).

## Model

| member | source | states |
|---|---|---|
| Access.HostnameOf | main.go:26 | the hostname is a prefix of the input, contains no `:`, is the whole input or is followed by `:`, and is the whole input when there is no `:` |
| Access.HostnameOfUnique | main.go:26 | any prefix with those three properties is the hostname, so they characterise the split on the first `:` |
| Access.PortStripped | main.go:26 | for a colon-free host `h`, the hostname of `h:port` is `h` |
| Access.Ipv6LiteralIsCutAtFirstColon | main.go:26 | the hostname of `[::1]:8080` is `[`: bracketed IPv6 literals are cut at their first colon |
| Access.IsHostAllowed | main.go:25-35 | the early-return scan returns true iff some glob of the allowlist matches the port-stripped hostname |
| Access.EmptyAllowlistDenies | main.go:28-34 | an empty allowlist denies every input |
| Access.PortDoesNotChangeVerdict | main.go:26-34 | for a colon-free host, adding any `:port` leaves the verdict unchanged |
| Access.SameGlobsSameVerdict | main.go:28-32 | two allowlists holding the same globs give the same verdict, whatever their order or repetitions |
| Access.AppendAllowsUnion | main.go:28-32 | the verdict for `a + b` is the verdict for `a` or the one for `b`, so appending a glob never denies an allowed host |
| Access.FirstMatchDecides | main.go:28-32 | the verdict is true when the first glob matches, and otherwise it is the verdict of the remaining globs |
| Glob.Compile | main.go:46 | every entry compiles, the compiled glob spells out the entry exactly, `*` and `?` are never read as literal characters, and an entry without special characters compiles to one literal per character |
| Glob.Matches | main.go:29 | a name containing `.` matches only a glob holding `**` or a literal `.`; what each token matches is pinned down by LiteralMatchesExactly (literals), QuestionMatchesOneChar (`?`), StarMatchesOneLabel and StarThenLiteral (`*`) and SuperStarMatchesAll (`**`) |
| Glob.LiteralMatchesExactly | main.go:46 | a glob compiled from an entry without special characters (`*`, `?`, `[`, `]`, `{`, `}`, `\`) matches exactly that entry's text |
| Glob.QuestionMatchesOneChar | main.go:46 | a `?` glob matches exactly the one-character names other than `.` |
| Glob.StarMatchesOneLabel | main.go:46 | a `*` glob matches exactly the names without a `.` |
| Glob.SuperStarMatchesAll | main.go:46 | a `**` glob matches every name |
| Glob.StarThenLiteral | main.go:46 | `*` followed by literal text `s` matches exactly the names that are a dot-free run followed by `s` |
| Proxy.BuildAllowlist | main.go:45-47 | for any compile function, the allowlist has one glob per `--allow` entry, in the same order, each the compiled entry |
| Proxy.AllowlistEntriesDecide | main.go:45-47 | for any compile function and matcher, with a built allowlist, a host is allowed iff some compiled entry matches its hostname, and adding entries keeps it allowed |
| Proxy.SingleEntryDecides | main.go:28-34 | a one-glob allowlist allows exactly the hosts that glob matches |
| Proxy.LiteralEntryDecides | main.go:26-34 | a single entry without special characters allows exactly the inputs whose hostname is that entry, with or without a port |
| Proxy.SubdomainEntryDecides | main.go:26-34 | a single `*`+suffix entry allows exactly the inputs whose hostname is a dot-free run followed by the suffix |
| Proxy.WildcardEntries | main.go:46 | an allowlist holding `**` allows every input; the allowlist `[*]` allows an input iff its hostname has no `.` |
| Proxy.Forbidden | main.go:62 | the rejection response answers the request, with status 403, content type `text/plain`, body `Forbidden` and a content length equal to the body's |
| Proxy.HandleRequest | main.go:53-63 | for any matcher, the request comes back unchanged; there is no response iff the host is allowed, and otherwise the response is the 403 rejection; `HTTP REJECTED <host>` is logged iff denied, `HTTP ALLOWED <host>` iff allowed and verbose, and the callback logs nothing else |
| Proxy.HandleConnect | main.go:66-76 | for any matcher, the host comes back unchanged; the action is `OkConnect` iff the host is allowed; `CONNECT REJECTED <host>` is logged iff denied, `CONNECT ALLOWED <host>` iff allowed and verbose, and the callback logs nothing else |
| Proxy.SameVerdictOnBothPaths | main.go:53-76 | for any matcher and the same host string, the HTTP callback passes the request on iff the CONNECT callback accepts the tunnel, whatever the verbosity |
| Proxy.PortDoesNotChangeDecisions | main.go:53-76 | for any matcher and a colon-free host, adding a `:port` changes neither callback's verdict |
| Proxy.EmptyAllowlistRejectsAll | main.go:53-76 | for any matcher, with an empty allowlist every request gets the 403 rejection and every CONNECT is rejected |
| Proxy.SubdomainEntryScenario | main.go:66-76 | with the single entry `*.<domain>`, a CONNECT to `<label>.<domain>:<port>` is accepted and one to `<domain>:<port>` is rejected |
| Proxy.ExactEntryScenario | main.go:53-63 | with the single entry `api.example.com`, a request for that host passes on and one for `evil.example.com` gets the 403 rejection |

## Left out

- Flag parsing (main.go:38-43) is command-line glue. The model takes the `--allow` entries and the verbose flag as parameters.
- The glob library is not part of this model. `Glob.Matches` is a stand-in that supports literals, `?`, `*` and `**`. It does not model character classes (`[...]`), alternatives (`{a,b}`) or escapes. Every property in module `Access` holds for any matcher.
- Glob.Compile: reads `[`, `]`, `{`, `}` and `\` as ordinary characters, where the glob library reads a character class, alternatives and an escape; entries holding them get the stand-in's verdict, not the library's, and the entry lemmas exclude them through `IsLiteral`.
- Glob.Compile: every entry compiles. The library rejects malformed patterns with a panic at start-up, and that failure path is not modelled.
- The global allowlist variable is modelled as the result of `BuildAllowlist`. It is written once at start-up and only read afterwards.
- Forwarding of allowed requests, the CONNECT tunnel and its byte relay, and the closing of rejected tunnels all belong to the proxy library. Upstream error responses do too. These are library I/O and concurrency.
- The verbose flag also turns on the proxy library's own per-request log lines (main.go:50). Those lines are not modelled; the log of `HandleRequest` and `HandleConnect` is only what the two callbacks print.
- Listening, serving and the exit codes (main.go:78-84, 105-109) are socket I/O.
- The readiness notification to the init system (main.go:87-90) is an external process protocol.
- Signal handling and the shutdown with a 10-second timeout (main.go:92-103) are concurrency and timers.
- Printing is not modelled as I/O. Log lines are returned as values.
