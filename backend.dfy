/** Forwarding one request to one backend (`proxy`, dns_reverse_proxy.go:204-231):
    a query is exchanged over the client's own transport; a zone transfer is
    only relayed for a TCP client, by pulling the zone from the backend and
    streaming it to the client. */
module Backend {
  import opened Wrappers
  import opened Dns
  import opened Policy

  datatype ProxyError =
    | TransferNeedsTcp          // the "transfer only by tcp" refusal
    | BackendError(msg: string) // an error passed up from the library

  /** Everything one `proxy` call does: its two results, the backend calls it
      makes and what it writes to the client itself. */
  datatype Outcome = Outcome(resp: Option<Msg>, err: Option<ProxyError>, calls: seq<Call>, writes: seq<Write>)

  /** The transport of the client connection: TCP exactly when the remote
      address is a TCP address, UDP otherwise. */
  function TransportOf(remote: Addr): (t: Transport)
    ensures t == Tcp <==> remote.TCPAddr?
  {
    if remote.TCPAddr? then Tcp else Udp
  }

  /** The reference definition of `proxy(addr, w, req)`. */
  function ProxyOutcome(lib: DnsLib, addr: string, remote: Addr, req: Msg): (o: Outcome)
    // a zone transfer never produces a response for the merger
    ensures IsTransfer(req) ==> o.resp.None?
    // a transfer from a UDP client is refused without contacting anyone
    ensures IsTransfer(req) && !remote.TCPAddr? ==> o == Outcome(None, Some(TransferNeedsTcp), [], [])
    // a transfer from a TCP client pulls the zone from `addr` exactly once
    ensures IsTransfer(req) && remote.TCPAddr? ==> o.calls == [Transferred(addr, req)]
    // ... streams it to the client exactly when the pull succeeded ...
    ensures IsTransfer(req) && remote.TCPAddr? ==>
      o.writes == (if lib.transferIn(req, addr).Ok? then [Streamed(lib.transferIn(req, addr).value)] else [])
    // ... and succeeds exactly when both the pull and the stream succeeded
    ensures IsTransfer(req) && remote.TCPAddr? ==>
      (o.err.None? <==> lib.transferIn(req, addr).Ok? && lib.transferOut(req, lib.transferIn(req, addr).value).None?)
    // a query is one exchange with `addr` on the client's transport, and
    // writes nothing to the client
    ensures !IsTransfer(req) ==> o.calls == [Queried(addr, TransportOf(remote), req)] && o.writes == []
    // a query yields the backend's reply or its error, never both nor neither
    ensures !IsTransfer(req) ==> (o.resp.Some? <==> o.err.None?)
    ensures !IsTransfer(req) ==> (o.resp.Some? <==> lib.exchange(req, addr, TransportOf(remote)).Ok?)
    ensures !IsTransfer(req) && o.resp.Some? ==> lib.exchange(req, addr, TransportOf(remote)) == Ok(o.resp.value)
    ensures o.resp.Some? ==> o.err.None?
    // only the TransferNeedsTcp refusal comes without a backend call
    ensures o.calls == [] <==> o.err == Some(TransferNeedsTcp)
  {
    var net := TransportOf(remote);
    if IsTransfer(req) then
      if net != Tcp then Outcome(None, Some(TransferNeedsTcp), [], [])
      else
        match lib.transferIn(req, addr)
        case Err(e) => Outcome(None, Some(BackendError(e)), [Transferred(addr, req)], [])
        case Ok(c) =>
          match lib.transferOut(req, c)
          case Some(e) => Outcome(None, Some(BackendError(e)), [Transferred(addr, req)], [Streamed(c)])
          case None => Outcome(None, None, [Transferred(addr, req)], [Streamed(c)])
    else
      match lib.exchange(req, addr, net)
      case Err(e) => Outcome(None, Some(BackendError(e)), [Queried(addr, net, req)], [])
      case Ok(m) => Outcome(Some(m), None, [Queried(addr, net, req)], [])
  }

  /** `proxy(addr, w, req)`: forwards `req` to `addr`, returning the backend's
      reply or the error, with the calls and client writes of ProxyOutcome. */
  method Proxy(addr: string, w: ResponseWriter, up: Upstream, req: Msg) returns (resp: Option<Msg>, err: Option<ProxyError>)
    modifies w, up
    ensures var o := ProxyOutcome(up.lib, addr, w.remote, req);
      && resp == o.resp && err == o.err
      && up.calls == old(up.calls) + o.calls
      && w.writes == old(w.writes) + o.writes
  {
    var transport := Udp;
    if w.remote.TCPAddr? {
      transport := Tcp;
    }
    if IsTransfer(req) {
      if transport != Tcp {
        return None, Some(TransferNeedsTcp);
      }
      var c := up.TransferIn(req, addr);
      if c.Err? {
        return None, Some(BackendError(c.error));
      }
      var e := up.TransferOut(w, req, c.value);
      if e.Some? {
        return None, Some(BackendError(e.value));
      }
      return None, None;
    }
    var r := up.Exchange(req, addr, transport);
    if r.Err? {
      return None, Some(BackendError(r.error));
    }
    return Some(r.value), None;
  }
}
