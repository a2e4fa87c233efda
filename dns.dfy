/** The surface of the DNS library the router is written against: messages,
    resource records, the client's address, and the foreign calls (query
    exchange, zone transfer in and out, the failure reply). Message wire
    formats are not modelled; the library's own behaviour is opaque and is
    supplied as function values in `DnsLib`. */
module Dns {
  import opened Wrappers

  /** Query types of the two zone-transfer requests: IXFR (RFC 1995) and AXFR (RFC 5936). */
  const TypeIXFR: nat := 251
  const TypeAXFR: nat := 252

  datatype Question = Question(name: string, qtype: nat, qclass: nat)

  /** A resource record; `rdata` is its data in presentation form. */
  datatype RR = RR(name: string, rrtype: nat, rrclass: nat, ttl: nat, rdata: string)

  /** A DNS message: header id, question section and the three record sections. */
  datatype Msg = Msg(id: nat, question: seq<Question>, answer: seq<RR>, ns: seq<RR>, extra: seq<RR>)

  /** The network a backend exchange uses. */
  datatype Transport = Udp | Tcp

  /** w.RemoteAddr(): the dynamic type of the client's address and its String() form. */
  datatype Addr = TCPAddr(text: string) | UDPAddr(text: string)

  /** The record envelopes an inbound zone transfer delivers. */
  datatype Zone = Zone(envelopes: seq<seq<RR>>)

  /** The library calls the router cannot see into, each as an opaque function:
      `exchange` is Client{Net: t}.Exchange(req, addr), `transferIn` is
      Transfer.In(req, addr), `transferOut` is Transfer.Out(w, req, c) (an error
      or none), and `dataField` is field 4 of the tab-separated rendering of a
      record, the answer merger's deduplication key. */
  datatype DnsLib = DnsLib(
    exchange: (Msg, string, Transport) -> Result<Msg, string>,
    transferIn: (Msg, string) -> Result<Zone, string>,
    transferOut: (Msg, Zone) -> Option<string>,
    dataField: RR -> string)

  /** What the client sees on its connection. */
  datatype Write =
    | Failed(req: Msg)          // dns.HandleFailed: a failure reply to `req`
    | Wrote(m: Option<Msg>)     // w.WriteMsg(m); `None` is a nil message
    | Streamed(zone: Zone)      // the outbound half of a zone transfer

  /** What a backend sees: one query exchange or one inbound zone transfer. */
  datatype Call =
    | Queried(addr: string, net: Transport, req: Msg)
    | Transferred(addr: string, req: Msg)

  /** The client connection (dns.ResponseWriter): its remote address and
      everything written to it so far. */
  class ResponseWriter {
    const remote: Addr
    var writes: seq<Write>

    constructor (remote: Addr)
      ensures this.remote == remote && writes == []
    {
      this.remote := remote;
      writes := [];
    }

    method WriteMsg(m: Option<Msg>)
      modifies this
      ensures writes == old(writes) + [Wrote(m)]
    {
      writes := writes + [Wrote(m)];
    }

    /** dns.HandleFailed(w, req). */
    method HandleFailed(req: Msg)
      modifies this
      ensures writes == old(writes) + [Failed(req)]
    {
      writes := writes + [Failed(req)];
    }
  }

  /** The backends as the router reaches them: the library's behaviour and
      every call made so far. */
  class Upstream {
    const lib: DnsLib
    var calls: seq<Call>

    constructor (lib: DnsLib)
      ensures this.lib == lib && calls == []
    {
      this.lib := lib;
      calls := [];
    }

    method Exchange(req: Msg, addr: string, net: Transport) returns (r: Result<Msg, string>)
      modifies this
      ensures r == lib.exchange(req, addr, net)
      ensures calls == old(calls) + [Queried(addr, net, req)]
    {
      r := lib.exchange(req, addr, net);
      calls := calls + [Queried(addr, net, req)];
    }

    method TransferIn(req: Msg, addr: string) returns (r: Result<Zone, string>)
      modifies this
      ensures r == lib.transferIn(req, addr)
      ensures calls == old(calls) + [Transferred(addr, req)]
    {
      r := lib.transferIn(req, addr);
      calls := calls + [Transferred(addr, req)];
    }

    /** Transfer.Out: streams the zone to the client connection. */
    method TransferOut(w: ResponseWriter, req: Msg, c: Zone) returns (err: Option<string>)
      modifies w
      ensures err == lib.transferOut(req, c)
      ensures w.writes == old(w.writes) + [Streamed(c)]
    {
      err := lib.transferOut(req, c);
      w.writes := w.writes + [Streamed(c)];
    }
  }
}
