/** The request handler (`route`, dns_reverse_proxy.go:123-179): admits a
    request, picks a route whose domain is a suffix of the question name, fans
    the request out to every backend of that route and merges their answers,
    or falls back to the default server. */
module Router {
  import opened Wrappers
  import opened GoStrings
  import opened Dns
  import opened Policy
  import opened RouteTable
  import opened Answers
  import opened Backend

  /** The process-wide settings `route` reads: the route table, the default
      server ("" when unset) and the transfer allow-list. */
  datatype Config = Config(routes: Table, defaultServer: string, transferIPs: seq<string>)

  /** The settings `main` derives from its flags (dns_reverse_proxy.go:72-90). */
  function Configure(routeSpecs: seq<string>, defaultServer: string, allowTransfer: string): (r: Result<Config, ConfigError>)
    ensures r.Ok? <==> BuildTable(routeSpecs).Ok?
    ensures r.Ok? ==> r.value.routes == BuildTable(routeSpecs).value && r.value.defaultServer == defaultServer
    ensures r.Ok? ==> r.value.transferIPs == TransferIPs(allowTransfer)
    // every key is a lower-case, dot-terminated domain with a non-empty list
    // of valid backends, and the allow-list has at least one entry
    ensures r.Ok? ==> WellFormedTable(r.value.routes) && |r.value.transferIPs| >= 1
  {
    match BuildTable(routeSpecs)
    case Err(e) => Err(e)
    case Ok(t) => Ok(Config(t, defaultServer, TransferIPs(allowTransfer)))
  }

  /** Every route has a first backend, as `route` takes addrs[0]. */
  predicate Routable(cfg: Config) {
    forall k :: k in cfg.routes ==> |cfg.routes[k]| > 0
  }

  /** Whatever `main` accepts can be routed. */
  lemma ConfigureRoutable(routeSpecs: seq<string>, defaultServer: string, allowTransfer: string)
    ensures Configure(routeSpecs, defaultServer, allowTransfer).Ok? ==>
      Routable(Configure(routeSpecs, defaultServer, allowTransfer).value)
  {
  }

  /** The request carries a question and passes the transfer allow-list. */
  predicate Admitted(cfg: Config, remote: Addr, req: Msg) {
    |req.question| > 0 && Allowed(cfg.transferIPs, remote, req)
  }

  /** Route `k` serves `req`: it is a key and a suffix of the lower-cased first
      question name. */
  predicate Serves(cfg: Config, req: Msg, k: string)
    requires |req.question| > 0
  {
    k in cfg.routes && HasSuffix(ToLower(req.question[0].name), k)
  }

  /** The `proxy` outcomes for each backend of a route, in order. */
  function FanOut(lib: DnsLib, remote: Addr, req: Msg, addrs: seq<string>): seq<Outcome> {
    seq(|addrs|, i requires 0 <= i < |addrs| => ProxyOutcome(lib, addrs[i], remote, req))
  }

  function Responses(outs: seq<Outcome>): seq<Option<Msg>> {
    seq(|outs|, i requires 0 <= i < |outs| => outs[i].resp)
  }

  /** What one `proxy` call and its error handling write to the client. */
  function Reply(o: Outcome, req: Msg): seq<Write> {
    o.writes + (if o.err.Some? then [Failed(req)] else [])
  }

  function Writes(outs: seq<Outcome>, req: Msg): seq<Write> {
    if outs == [] then [] else Writes(outs[..|outs| - 1], req) + Reply(outs[|outs| - 1], req)
  }

  function Calls(outs: seq<Outcome>): seq<Call> {
    if outs == [] then [] else Calls(outs[..|outs| - 1]) + outs[|outs| - 1].calls
  }

  /** One more backend extends the fan-out by its own outcome: its writes and
      calls follow those before it, and its response is folded in last. */
  lemma FanStep(lib: DnsLib, remote: Addr, req: Msg, addrs: seq<string>, n: nat, w0: seq<Write>, c0: seq<Call>)
    requires n < |addrs|
    ensures var outs, o := FanOut(lib, remote, req, addrs), ProxyOutcome(lib, addrs[n], remote, req);
      && w0 + Writes(outs[..n], req) + Reply(o, req) == w0 + Writes(outs[..n + 1], req)
      && c0 + Calls(outs[..n]) + o.calls == c0 + Calls(outs[..n + 1])
      && Step(MergeAll(Responses(outs[..n]), lib.dataField), o.resp, lib.dataField) ==
         MergeAll(Responses(outs[..n + 1]), lib.dataField)
  {
    var outs := FanOut(lib, remote, req, addrs);
    WritesStep(outs, req, n, w0);
    CallsStep(outs, n, c0);
    MergeStep(outs, n, lib.dataField);
  }

  lemma WritesStep(outs: seq<Outcome>, req: Msg, n: nat, w0: seq<Write>)
    requires n < |outs|
    ensures w0 + Writes(outs[..n], req) + Reply(outs[n], req) == w0 + Writes(outs[..n + 1], req)
  {
    assert outs[..n + 1][..n] == outs[..n];
  }

  lemma CallsStep(outs: seq<Outcome>, n: nat, c0: seq<Call>)
    requires n < |outs|
    ensures c0 + Calls(outs[..n]) + outs[n].calls == c0 + Calls(outs[..n + 1])
  {
    assert outs[..n + 1][..n] == outs[..n];
  }

  lemma MergeStep(outs: seq<Outcome>, n: nat, key: RR -> string)
    requires n < |outs|
    ensures Step(MergeAll(Responses(outs[..n]), key), outs[n].resp, key) == MergeAll(Responses(outs[..n + 1]), key)
  {
    assert Responses(outs[..n + 1]) == Responses(outs[..n]) + [outs[n].resp];
    MergeAllLast(Responses(outs[..n]), outs[n].resp, key);
  }

  /** One backend of a matched route (dns_reverse_proxy.go:138-159): a failure
      reply for an error, and a non-nil response folded into the merge. */
  method Forward(addr: string, w: ResponseWriter, up: Upstream, req: Msg, finish: Option<Msg>, collected: set<string>)
    returns (finish': Option<Msg>, collected': set<string>)
    requires finish.Some? ==> collected == Keys(finish.value.answer, up.lib.dataField)
    modifies w, up
    ensures var o := ProxyOutcome(up.lib, addr, w.remote, req);
      && State(finish', collected') == Step(State(finish, collected), o.resp, up.lib.dataField)
      && up.calls == old(up.calls) + o.calls
      && w.writes == old(w.writes) + Reply(o, req)
  {
    var resp, err := Proxy(addr, w, up, req);
    if err.Some? {
      w.HandleFailed(req);
    }
    finish', collected' := finish, collected;
    if resp.Some? {
      finish', collected' := Absorb(finish, collected, resp.value, up.lib.dataField);
    }
  }

  /** The body of a matched route (dns_reverse_proxy.go:134-160): proxies to
      each backend in order, answers each error with a failure reply, and
      folds every non-nil response into the merged message. */
  method FanIn(addrs: seq<string>, w: ResponseWriter, up: Upstream, req: Msg) returns (finishResp: Option<Msg>)
    modifies w, up
    ensures var outs := FanOut(up.lib, w.remote, req, addrs);
      && finishResp == Merge(Responses(outs), up.lib.dataField)
      && up.calls == old(up.calls) + Calls(outs)
      && w.writes == old(w.writes) + Writes(outs, req)
  {
    var key := up.lib.dataField;
    ghost var outs := FanOut(up.lib, w.remote, req, addrs);
    finishResp := None;
    var collected: set<string> := {};
    for n := 0 to |addrs|
      invariant w.writes == old(w.writes) + Writes(outs[..n], req)
      invariant up.calls == old(up.calls) + Calls(outs[..n])
      invariant MergeAll(Responses(outs[..n]), key) == State(finishResp, collected)
    {
      FanStep(up.lib, w.remote, req, addrs, n, old(w.writes), old(up.calls));
      finishResp, collected := Forward(addrs[n], w, up, req, finishResp, collected);
    }
    assert outs[..|addrs|] == outs;
  }

  /** `route(w, req)`. Go's map iteration order is unspecified, so when several
      routes serve the request any one of them may be taken; `chosen` reports
      which one was. */
  method Route(cfg: Config, w: ResponseWriter, up: Upstream, req: Msg) returns (ghost chosen: Option<string>)
    requires Routable(cfg)
    modifies w, up
    // refused: one failure reply, no backend contacted
    ensures !Admitted(cfg, w.remote, req) ==>
      chosen.None? && w.writes == old(w.writes) + [Failed(req)] && up.calls == old(up.calls)
    // a serving route: every backend of it is proxied to, in order, and the
    // merge of their responses is written last
    ensures chosen.Some? ==>
      && Admitted(cfg, w.remote, req) && Serves(cfg, req, chosen.value)
      && var outs := FanOut(up.lib, w.remote, req, cfg.routes[chosen.value]);
      && up.calls == old(up.calls) + Calls(outs)
      && w.writes == old(w.writes) + Writes(outs, req) + [Wrote(Merge(Responses(outs), up.lib.dataField))]
    // no serving route: the default server, if any, answers
    ensures Admitted(cfg, w.remote, req) && chosen.None? ==>
      && (forall k :: k in cfg.routes ==> !Serves(cfg, req, k))
      && (cfg.defaultServer == "" ==> w.writes == old(w.writes) + [Failed(req)] && up.calls == old(up.calls))
      && (cfg.defaultServer != "" ==>
            var o := ProxyOutcome(up.lib, cfg.defaultServer, w.remote, req);
            && up.calls == old(up.calls) + o.calls
            && w.writes == old(w.writes) + Reply(o, req) + (if o.resp.Some? then [Wrote(o.resp)] else []))
  {
    chosen := None;
    if |req.question| == 0 || !Allowed(cfg.transferIPs, w.remote, req) {
      w.HandleFailed(req);
      return;
    }
    var lcName := ToLower(req.question[0].name);
    var remaining := cfg.routes.Keys;
    while remaining != {}
      invariant remaining <= cfg.routes.Keys
      invariant forall k :: k in cfg.routes && k !in remaining ==> !HasSuffix(lcName, k)
      invariant w.writes == old(w.writes) && up.calls == old(up.calls)
      decreases |remaining|
    {
      var name :| name in remaining;
      if HasSuffix(lcName, name) {
        var addrs := cfg.routes[name];
        // the first backend, as at line 134; the value is not used again, but
        // the index is in range because every route of a Routable
        // configuration has a backend, so this lookup cannot panic
        var addr := addrs[0];
        var finishResp := FanIn(addrs, w, up, req);
        w.WriteMsg(finishResp);
        chosen := Some(name);
        return;
      }
      remaining := remaining - {name};
    }

    if cfg.defaultServer == "" {
      w.HandleFailed(req);
      return;
    }
    var resp, err := Proxy(cfg.defaultServer, w, up, req);
    if err.Some? {
      w.HandleFailed(req);
    }
    if resp.Some? {
      w.WriteMsg(resp);
    }
  }

  lemma FanOutPrefix(lib: DnsLib, remote: Addr, req: Msg, addrs: seq<string>, n: nat)
    requires n <= |addrs|
    ensures FanOut(lib, remote, req, addrs)[..n] == FanOut(lib, remote, req, addrs[..n])
  {
  }

  /** For a query, a matched route contacts each of its backends exactly once,
      in the configured order, over the client's transport, and no one else. */
  lemma {:induction false} QueryCalls(lib: DnsLib, remote: Addr, req: Msg, addrs: seq<string>)
    requires !IsTransfer(req)
    ensures Calls(FanOut(lib, remote, req, addrs)) ==
      seq(|addrs|, i requires 0 <= i < |addrs| => Queried(addrs[i], TransportOf(remote), req))
  {
    if addrs != [] {
      var n := |addrs| - 1;
      var outs := FanOut(lib, remote, req, addrs);
      QueryCalls(lib, remote, req, addrs[..n]);
      FanOutPrefix(lib, remote, req, addrs, n);
      assert outs[..n] == FanOut(lib, remote, req, addrs[..n]);
      assert Calls(outs) == Calls(outs[..n]) + [Queried(addrs[n], TransportOf(remote), req)];
    }
  }

  /** For a query, the merged answer is nil exactly when every backend's
      exchange failed. */
  lemma QueryMergeNone(lib: DnsLib, remote: Addr, req: Msg, addrs: seq<string>)
    requires !IsTransfer(req)
    ensures Merge(Responses(FanOut(lib, remote, req, addrs)), lib.dataField).None? <==>
      forall i :: 0 <= i < |addrs| ==> lib.exchange(req, addrs[i], TransportOf(remote)).Err?
  {
    var resps := Responses(FanOut(lib, remote, req, addrs));
    MergeNoneIff(resps, lib.dataField);
    assert forall i :: 0 <= i < |addrs| ==> resps[i] == ProxyOutcome(lib, addrs[i], remote, req).resp;
  }

  /** A zone transfer produces no response to merge, so a matched route ends
      by writing a nil message after whatever the transfers streamed. */
  lemma TransferMergesNothing(lib: DnsLib, remote: Addr, req: Msg, addrs: seq<string>)
    requires IsTransfer(req)
    ensures Merge(Responses(FanOut(lib, remote, req, addrs)), lib.dataField).None?
  {
    var resps := Responses(FanOut(lib, remote, req, addrs));
    MergeNoneIff(resps, lib.dataField);
    assert forall i :: 0 <= i < |addrs| ==> resps[i] == ProxyOutcome(lib, addrs[i], remote, req).resp;
  }

  /** A zone transfer from a UDP client through a matched route contacts no
      backend and answers with one failure reply per backend. */
  lemma {:induction false} UdpTransferRefused(lib: DnsLib, remote: Addr, req: Msg, addrs: seq<string>)
    requires IsTransfer(req) && !remote.TCPAddr?
    ensures Calls(FanOut(lib, remote, req, addrs)) == []
    ensures Writes(FanOut(lib, remote, req, addrs), req) == seq(|addrs|, i => Failed(req))
  {
    if addrs != [] {
      var n := |addrs| - 1;
      var outs := FanOut(lib, remote, req, addrs);
      UdpTransferRefused(lib, remote, req, addrs[..n]);
      FanOutPrefix(lib, remote, req, addrs, n);
      assert outs[n] == Outcome(None, Some(TransferNeedsTcp), [], []);
      assert Writes(outs, req) == Writes(outs[..n], req) + [Failed(req)];
    }
  }
}
