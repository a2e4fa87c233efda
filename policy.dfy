/** The zone-transfer access policy: `isTransfer` and `allowed`
    (dns_reverse_proxy.go:181-202), and the allow-list read from the
    `-allow-transfer` flag (dns_reverse_proxy.go:72). */
module Policy {
  import opened Wrappers
  import opened GoStrings
  import opened HostPort
  import opened Dns

  predicate IsTransferType(qtype: nat) {
    qtype == TypeIXFR || qtype == TypeAXFR
  }

  /** Some question, scanned from the first, asks for AXFR or IXFR. */
  function AnyTransfer(qs: seq<Question>): (r: bool)
    ensures r <==> exists i :: 0 <= i < |qs| && IsTransferType(qs[i].qtype)
  {
    if qs == [] then false
    else if IsTransferType(qs[0].qtype) then true
    else
      assert forall i :: 1 <= i < |qs| ==> qs[i] == qs[1..][i - 1];
      AnyTransfer(qs[1..])
  }

  /** isTransfer: the request carries an AXFR or IXFR question. */
  function IsTransfer(req: Msg): (r: bool)
    ensures r <==> exists q :: q in req.question && IsTransferType(q.qtype)
  {
    AnyTransfer(req.question)
  }

  /** The host part of the client's address; "" when the address does not split. */
  function RemoteHost(remote: Addr): (h: string)
    // a host part never carries a bracket, and an address without a port has none
    ensures NoBrackets(h)
    ensures ':' !in remote.text ==> h == ""
  {
    match SplitHostPort(remote.text)
    case Ok((host, _)) => host
    case Err(_) => ""
  }

  /** The linear search of `allowed` over the allow-list. */
  function Listed(ips: seq<string>, host: string): (r: bool)
    ensures r <==> host in ips
  {
    if ips == [] then false
    else if ips[0] == host then true
    else
      assert forall x :: x in ips[1..] ==> x in ips;
      assert host in ips ==> ips[0] == host || host in ips[1..];
      Listed(ips[1..], host)
  }

  /** allowed: every non-transfer request passes; a transfer passes only when
      the client's host string equals an allow-list entry. */
  function Allowed(transferIPs: seq<string>, remote: Addr, req: Msg): (r: bool)
    ensures !IsTransfer(req) ==> r
    ensures IsTransfer(req) ==> (r <==> exists ip :: ip in transferIPs && ip == RemoteHost(remote))
  {
    if !IsTransfer(req) then true else Listed(transferIPs, RemoteHost(remote))
  }

  /** transferIPs: the `-allow-transfer` flag split on commas. */
  function TransferIPs(flag: string): (ips: seq<string>)
    ensures |ips| >= 1
    ensures forall i :: 0 <= i < |ips| ==> ',' !in ips[i]
    ensures Join(ips, ',') == flag
  {
    JoinSplit(flag, ',');
    Split(flag, ',')
  }

  /** A flag that lists comma-free addresses yields exactly those addresses. */
  lemma TransferIPsOfList(ips: seq<string>)
    requires |ips| >= 1
    requires forall i :: 0 <= i < |ips| ==> ',' !in ips[i]
    ensures TransferIPs(Join(ips, ',')) == ips
  {
    SplitJoin(ips, ',');
  }

  /** For a client at `host:port`, a transfer is allowed iff `host` is listed. */
  lemma AllowedTransferFrom(transferIPs: seq<string>, host: string, port: string, tcp: bool, req: Msg)
    requires NoBrackets(host) && NoBrackets(port) && ':' !in port
    requires IsTransfer(req)
    ensures var text := JoinHostPort(host, port);
      Allowed(transferIPs, if tcp then TCPAddr(text) else UDPAddr(text), req) <==> host in transferIPs
  {
    SplitJoinHostPort(host, port);
  }

  /** With the flag unset the allow-list is [""], not empty: a transfer is
      admitted exactly when the client's host part is empty, which includes
      every client address that does not split into host and port. */
  lemma UnsetAllowList(remote: Addr, req: Msg)
    requires IsTransfer(req)
    ensures TransferIPs("") == [""]
    ensures Allowed(TransferIPs(""), remote, req) <==> RemoteHost(remote) == ""
    ensures SplitHostPort(remote.text).Err? ==> Allowed(TransferIPs(""), remote, req)
  {
    assert Join([""], ',') == "";
    SplitJoin([""], ',');
  }
}
