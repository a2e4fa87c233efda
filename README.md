# dns-multi-reverse-proxy, modelled in Dafny

`dns_reverse_proxy.go` is a DNS reverse proxy. At start-up it reads the
`-route domain=host:port[,host:port...]`, `-default host:port` and
`-allow-transfer ip[,ip...]` flags into a route table, a default server and a
transfer allow-list. It then answers every request through the `route` handler:

- A request with no question is refused with a failure reply. So is a zone
  transfer (AXFR/IXFR) whose client host is not on the allow-list.
- Otherwise the handler lower-cases the first question name and looks for a
  route whose domain is a suffix of it.
- On a match, every backend of that route is asked in order. Each error gets a
  failure reply. The non-nil responses are merged: the first one is the base,
  and later ones add only answer records whose data field has not been seen.
  The merged message is written once, at the end.
- With no match, the default server answers. With no default server set, the
  request gets a failure reply.
- `proxy` forwards one request to one backend over the client's own transport.
  A zone transfer is relayed only for a TCP client: the zone is pulled from the
  backend and streamed to the client.

The model has these modules:

| file | module | what it holds |
|---|---|---|
| `wrappers.dfy` | `Wrappers` | `Option` and `Result` |
| `gostrings.dfy` | `GoStrings` | the string operations the program uses: `ToLower`, `HasSuffix`, `Split`, `SplitN(…, 2)`, and `Join` as the inverse of `Split` |
| `hostport.dfy` | `HostPort` | `net.SplitHostPort` following Go's algorithm, `JoinHostPort`, `validHostPort` |
| `dns.dfy` | `Dns` | messages, records, client addresses; the client connection (`ResponseWriter`, which logs every write) and the backends (`Upstream`, which logs every call), with the library's behaviour supplied as function values |
| `policy.dfy` | `Policy` | `isTransfer`, `allowed`, the allow-list built from its flag |
| `routetable.dfy` | `RouteTable` | the route table `main` builds, as a specification function and as the loop `main` runs |
| `answers.dfy` | `Answers` | the answer merger of a matched route, as a fold and as the loops `route` runs |
| `backend.dfy` | `Backend` | `proxy`, as a reference function and as a method over the connection and backends |
| `router.dfy` | `Router` | the configuration and `route` |

Go's map iteration order is unspecified. `Router.Route` therefore picks any
not-yet-tried route key at each step. Its postcondition holds for every choice,
and its ghost result names the route that was taken.

Three behaviours of the code are worth knowing, and the model keeps them as written:

- **Unset allow-list.** With `-allow-transfer` unset, the allow-list is
  `strings.Split("", ",")`, which is `[""]` and not an empty list. A transfer is
  then admitted from any client whose host part is empty, and that includes
  every client address that does not split into host and port. See
  `Policy.UnsetAllowList`.
- **No response on a matched route.** When every backend of a matched route
  returns no response, `route` still calls `WriteMsg` with a nil message. This
  always happens for a zone transfer, because `proxy` never returns a response
  for one. See `Router.Route` and `Router.TransferMergesNothing`.
- **The base response is not deduplicated.** The keys of the first non-nil
  response are collected without checking for repeats (lines 147-150). Only
  records from later responses are filtered. Two records with the same key in
  the base therefore both reach the client. See `Answers.MergeDistinctIff` and
  `Answers.MergeSize`.

## Model

| member | source | states |
|---|---|---|
| GoStrings.ToLower | dns_reverse_proxy.go:89 | the result has the same length, maps each character through ASCII case folding and contains no upper-case letter |
| GoStrings.ToLowerIdempotent | dns_reverse_proxy.go:89 | lower-casing an already lower-cased key changes nothing, so stored keys are fixed points |
| GoStrings.HasSuffix | dns_reverse_proxy.go:86 | `strings.HasSuffix`, used at lines 86 and 133: the text is its own prefix followed by the suffix, which is then no longer than the text |
| GoStrings.HasSuffixIff | dns_reverse_proxy.go:133 | the suffix test holds exactly when the name is some prefix followed by the route domain |
| GoStrings.Split | dns_reverse_proxy.go:72 | splitting on a separator yields at least one field, and no field contains the separator |
| GoStrings.JoinSplit | dns_reverse_proxy.go:80 | joining the fields of a split with the separator gives back the original text, so nothing is lost |
| GoStrings.SplitJoin | dns_reverse_proxy.go:80 | splitting a join of separator-free fields gives back exactly those fields |
| GoStrings.SplitN2 | dns_reverse_proxy.go:75 | splitting at most once gives two parts exactly when the separator occurs, and otherwise the whole text |
| GoStrings.SplitN2Of | dns_reverse_proxy.go:75-76 | text made of a separator-free domain, the separator and a rest splits into exactly that domain and that rest |
| HostPort.SplitHostPortShape | dns_reverse_proxy.go:116 | a successful split gives back the address as `host:port` or `[host]:port`, with a colon-free port and no stray brackets |
| HostPort.SplitHostPort | dns_reverse_proxy.go:116 | Go's `net.SplitHostPort`, called at lines 116 and 195: an address without a colon (whose last-colon search finds none) has no port; a successful split takes the port from after the last colon and leaves no bracket in either part |
| HostPort.ValidHostPort | dns_reverse_proxy.go:115-121 | `validHostPort`: the address splits into a non-empty host and a non-empty port; a valid address has a colon, does not end in one, and has a bracket-free port |
| HostPort.SplitJoinHostPort | dns_reverse_proxy.go:116 | splitting undoes joining for a bracket-free host and a bracket-free, colon-free port, including bracketed IPv6 hosts |
| HostPort.ValidHostPortJoin | dns_reverse_proxy.go:115-121 | a non-empty bracket-free host joined with a non-empty bracket-free, colon-free port passes `validHostPort` |
| HostPort.ValidHostPortShape | dns_reverse_proxy.go:115-121 | every address that passes `validHostPort` is a non-empty host and a non-empty colon-free port around a colon |
| Policy.AnyTransfer | dns_reverse_proxy.go:181-189 | the scan is true exactly when some question has type IXFR (251) or AXFR (252) |
| Policy.IsTransfer | dns_reverse_proxy.go:181-189 | a request is a transfer exactly when one of its questions asks for IXFR or AXFR |
| Policy.Listed | dns_reverse_proxy.go:196-201 | the linear search succeeds exactly when the host is an entry of the list |
| Policy.RemoteHost | dns_reverse_proxy.go:195 | the host part of the client address, "" when the split fails as Go's ignored error leaves it; it never holds a bracket, and an address without a colon gives "" |
| Policy.Allowed | dns_reverse_proxy.go:191-202 | a non-transfer is always allowed; a transfer is allowed exactly when the client's host equals an allow-list entry |
| Policy.TransferIPs | dns_reverse_proxy.go:72 | the allow-list has at least one entry, has no commas in its entries, and joins back to the flag |
| Policy.TransferIPsOfList | dns_reverse_proxy.go:72 | a flag that lists comma-free addresses gives exactly that list |
| Policy.AllowedTransferFrom | dns_reverse_proxy.go:191-202 | for a bracket-free host and a bracket-free, colon-free port, a transfer from a client at `host:port`, over TCP or UDP, is allowed exactly when `host` is listed |
| Policy.UnsetAllowList | dns_reverse_proxy.go:72 | with the flag unset the list is `[""]`, and a transfer is allowed exactly when the client's host part is empty, which includes every unparsable address |
| RouteTable.NormalizeDomain | dns_reverse_proxy.go:86-89 | the key is dot-terminated and lower case; it is the lower-cased domain, with a dot appended only when missing |
| RouteTable.FirstInvalid | dns_reverse_proxy.go:80-83 | no backend is reported exactly when all backends are valid; a reported backend is in the list and invalid |
| RouteTable.FirstInvalidAt | dns_reverse_proxy.go:80-83 | the backend reported is the first invalid one in list order |
| RouteTable.ParseRouteIff | dns_reverse_proxy.go:75-89 | a flag `d=list` is accepted exactly when `d` and `list` are non-empty and every comma-separated piece is a valid host:port; it then maps the normalised domain to those pieces in order |
| RouteTable.ParseRoute | dns_reverse_proxy.go:75-89 | one pass of the flag loop: a flag without `=` is refused as an invalid route, and an accepted flag has a well-formed key and a non-empty list of valid backends |
| RouteTable.BuildTable | dns_reverse_proxy.go:73-90 | the table the flags build, or the first fatal error; every table the flags can build has dot-terminated lower-case keys and non-empty lists of valid backends |
| RouteTable.BuildTableFails | dns_reverse_proxy.go:74-85 | start-up fails exactly when some flag is malformed, and it fails with the error of the first malformed flag |
| RouteTable.BuildTableLookup | dns_reverse_proxy.go:74-90 | a key is in the table exactly when some flag produced it, and its backends are those of the last such flag |
| RouteTable.CollectBackends | dns_reverse_proxy.go:79-85 | the loop computes the backend parse; on success the list is non-empty, all valid, and joins back to the flag text |
| RouteTable.BuildRoutes | dns_reverse_proxy.go:73-90 | the loop computes the table of the specification (or its first error), and a table it builds is well formed |
| Answers.Unseen | dns_reverse_proxy.go:152-158 | the appended records have keys that were not yet seen and are pairwise distinct, come from the response, and add exactly the response's keys to those seen |
| Answers.UnseenStep | dns_reverse_proxy.go:152-158 | scanning one more record appends it exactly when its key is neither already collected nor on an earlier record of the response, and adds its key to those seen |
| Answers.UnseenAllSeen | dns_reverse_proxy.go:152-158 | a response whose keys were all seen contributes nothing |
| Answers.DistinctCard | dns_reverse_proxy.go:152-158 | records with pairwise distinct keys have as many keys as records |
| Answers.Step | dns_reverse_proxy.go:144-159 | one response folded into the merge: there is a message once some response was non-nil; the first non-nil response becomes the message as it is; a later one only appends answers, keeping the earlier answers as a prefix and every other field |
| Answers.Merge | dns_reverse_proxy.go:162 | the message `finishResp` written at line 162: when present, its answers carry exactly the keys of all non-nil responses |
| Answers.MergeAll | dns_reverse_proxy.go:137-161 | the collected key set is empty before the first response and afterwards is exactly the keys of the message being built |
| Answers.MergeNoneIff | dns_reverse_proxy.go:144-146 | the merge is nil exactly when every response is nil |
| Answers.MergeKeepsBase | dns_reverse_proxy.go:145-150 | the first non-nil response is the base: its answers are kept in order as a prefix, and every other field is the base's |
| Answers.MergeAppendsFresh | dns_reverse_proxy.go:151-158 | every record after the base's answers has a key that no earlier record of the merged answer has |
| Answers.MergeCollectsAll | dns_reverse_proxy.go:147-158 | the keys collected are the keys of every non-nil response |
| Answers.AllKeysContains | dns_reverse_proxy.go:147-158 | each non-nil response's keys are among all collected keys |
| Answers.MergeAbsorbs | dns_reverse_proxy.go:152-158 | a further response whose keys are all in the merged answer leaves the merge unchanged |
| Answers.MergeIdempotent | dns_reverse_proxy.go:144-158 | merging the merged message again, or repeating any non-nil response, leaves the merge unchanged |
| Answers.MergeCount | dns_reverse_proxy.go:144-158 | if the base has distinct keys, the merged answer has distinct keys, covers every key of every response, and has one record per distinct key |
| Answers.MergeTail | dns_reverse_proxy.go:151-158 | the merged answers are the base's answers followed by records with distinct keys, none of which is a key of the base |
| Answers.MergeSize | dns_reverse_proxy.go:144-158 | for any base, the merged answers cover every key of every response and number the base's answers plus one per key the base lacks |
| Answers.MergeDistinctIff | dns_reverse_proxy.go:145-158 | the merged answers have distinct keys exactly when the base's answers do, so repeated keys in the base are kept |
| Answers.CollectKeys | dns_reverse_proxy.go:147-150 | the loop collects exactly the keys of the base's answers |
| Answers.AppendUnseen | dns_reverse_proxy.go:152-158 | the loop appends exactly the unseen records in order and adds all of the response's keys |
| Answers.Absorb | dns_reverse_proxy.go:144-159 | one non-nil response updates the message and the key set exactly as the fold's step does |
| Backend.TransportOf | dns_reverse_proxy.go:205-208 | the transport is TCP exactly when the client address is a TCP address |
| Backend.ProxyOutcome | dns_reverse_proxy.go:204-231 | a transfer never yields a response; a transfer from a UDP client is refused with no call and no write; a TCP transfer pulls the zone from the backend once, streams it to the client exactly when the pull succeeded, and succeeds exactly when both the pull and the stream succeeded; a query is one exchange on the client's transport that writes nothing and yields the reply exactly when the exchange succeeds; the refusal is the only outcome without a backend call |
| Backend.Proxy | dns_reverse_proxy.go:204-231 | the returned response and error, the backend calls and the client writes are those of the reference outcome |
| Router.Configure | dns_reverse_proxy.go:72-90 | configuration succeeds exactly when the route table builds; it then holds that table, the default server and the split allow-list; every key is a lower-case, dot-terminated domain with a non-empty list of valid backends, and the allow-list has at least one entry |
| Router.ConfigureRoutable | dns_reverse_proxy.go:134 | every accepted configuration has a first backend for every route, as `route` requires |
| Router.Forward | dns_reverse_proxy.go:138-160 | one backend of a matched route adds its calls, its writes and a failure reply on error, and folds its response into the merge |
| Router.FanIn | dns_reverse_proxy.go:134-161 | the matched-route loop contacts every backend in order, writes each outcome's writes and failure replies, and ends with the merge of all responses |
| Router.Route | dns_reverse_proxy.go:123-179 | a request with no question or a disallowed transfer gets exactly one failure reply and no backend call. A request served by a route: that route's domain is a suffix of the lower-cased name, its backends are all proxied in order, and the merged message is written last. A request served by no route: no route matches, and it gets one failure reply with no default server, or otherwise the default server's outcome, a failure reply on error and its response if non-nil |
| Router.QueryCalls | dns_reverse_proxy.go:137-140 | for a query, a matched route queries each of its backends exactly once, in list order, on the client's transport, and nothing else |
| Router.QueryMergeNone | dns_reverse_proxy.go:137-162 | for a query, the merged message is nil exactly when every backend's exchange failed |
| Router.TransferMergesNothing | dns_reverse_proxy.go:162 | for a zone transfer the merged message is always nil, so a matched route writes a nil message |
| Router.UdpTransferRefused | dns_reverse_proxy.go:209-212 | a zone transfer from a UDP client through a matched route contacts no backend and writes one failure reply per backend |

## Left out

- Listening on UDP and TCP, signal handling and graceful shutdown are not modelled, because they are I/O (`main`, lines 92-112). Requests handled concurrently are not modelled either: each `Route` call is one request against read-only configuration.
- Flag parsing by the `flag` package and `rand.Seed` are not modelled. The configuration is taken as the already-split list of `-route` values plus the `-default` and `-allow-transfer` strings.
- `log.Fatal` is modelled as an error result of `BuildRoutes` / `BuildTable`. Process exit is not modelled.
- The DNS library (miekg/dns) is not part of this model:
  - Message packing and the wire format are not modelled.
  - `Client.Exchange`, `Transfer.In` and `Transfer.Out` are opaque functions of their inputs in `DnsLib`.
  - Timeouts and retries are not modelled.
  - What `HandleFailed` (a SERVFAIL reply, section 4.1.1 of RFC 1035) and `WriteMsg` put on the wire is not modelled; each is recorded as one write.
  - The zone is not streamed envelope by envelope; one `Streamed` write stands for the whole transfer.
- The merge key is an opaque function `dataField` of the record. It stands for field 4 of the record's tab-separated text form. A record whose text form has fewer than five fields makes the Go program panic, and that is not modelled.
- `GoStrings.ToLower` folds ASCII letters only. Go's `strings.ToLower` also maps non-ASCII Unicode letters.
- `HostPort.SplitHostPort` follows the checks of Go's `net.SplitHostPort` (last colon, bracketed host, extra colons, stray brackets). Go's `net` package is not part of this model, and its error messages are reduced to the `AddrError` kinds.
- The client's remote address is given by its dynamic type (TCP or UDP) and its text form.
- `Router.Route` does not model update in place: Go extends the first response's answer slice in place, and the model builds a new message value. No other code holds that message, so the difference cannot be observed.
- Answers.MergeCount: requires the base response's answers to have distinct keys. The code does not deduplicate the base (lines 147-150), so without that condition the one-record-per-key count does not hold. `Answers.MergeSize` and `Answers.MergeDistinctIff` cover every base.
- `Router.Route` does not model Go's map order as a runtime distribution. The postcondition covers every possible choice of serving route, and no particular order is assumed.
