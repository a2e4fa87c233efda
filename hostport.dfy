/** `host:port` addresses: the splitting rules of Go's net.SplitHostPort and
    the `validHostPort` check built on them (dns_reverse_proxy.go:115-121). */
module HostPort {
  import opened Wrappers
  import opened GoStrings

  /** The ways net.SplitHostPort refuses an address. */
  datatype AddrError =
    | MissingPort
    | TooManyColons
    | MissingCloseBracket
    | UnexpectedOpenBracket
    | UnexpectedCloseBracket

  predicate NoBrackets(s: string) { '[' !in s && ']' !in s }

  /** net.JoinHostPort: a host with a colon in it (an IPv6 literal) is bracketed. */
  function JoinHostPort(host: string, port: string): string {
    if ':' in host then "[" + host + "]:" + port else host + ":" + port
  }

  /** net.SplitHostPort: the port follows the last colon; a host that starts
      with '[' must close with ']' right before that colon; stray brackets
      and extra colons in an unbracketed host are errors. */
  function SplitHostPort(s: string): (r: Result<(string, string), AddrError>)
    // an address without a colon (no last colon) has no port
    ensures LastIndexOf(s, ':') < 0 ==> r == Err(MissingPort)
    // the port is everything after the last colon; neither part keeps a bracket
    ensures r.Ok? ==> var i := LastIndexOf(s, ':');
      && 0 <= i && r.value.1 == s[i + 1..]
      && NoBrackets(r.value.0) && NoBrackets(r.value.1)
  {
    var i := LastIndexOf(s, ':');
    if i < 0 then Err(MissingPort)
    else if s[0] == '[' then SplitBracketed(s, i)
    else SplitPlain(s, i)
  }

  /** The split of an address `[host]:port` whose last colon is at `i`. */
  function SplitBracketed(s: string, i: nat): (r: Result<(string, string), AddrError>)
    requires i < |s| && s[0] == '['
    ensures r.Ok? ==> r.value.1 == s[i + 1..] && NoBrackets(r.value.0) && NoBrackets(r.value.1)
  {
    var end := IndexOf(s, ']');
    if end < 0 then Err(MissingCloseBracket)
    else if end + 1 == |s| then Err(MissingPort)
    else if end + 1 != i then
      (if s[end + 1] == ':' then Err(TooManyColons) else Err(MissingPort))
    else
      var r := StrayBrackets(s, s[1..end], 1, end + 1, i);
      assert r.Ok? ==> s[1..end] == s[..end][1..] == s[1..][..end - 1];
      r
  }

  /** The split of an unbracketed address whose last colon is at `i`. */
  function SplitPlain(s: string, i: nat): (r: Result<(string, string), AddrError>)
    requires i < |s|
    ensures r.Ok? ==> r.value == (s[..i], s[i + 1..]) && NoBrackets(r.value.0) && NoBrackets(r.value.1)
  {
    var host := s[..i];
    if ':' in host then Err(TooManyColons)
    else
      var r := StrayBrackets(s, host, 0, 0, i);
      assert r.Ok? ==> host == s[0..][..i];
      r
  }

  /** The last two checks of net.SplitHostPort: no '[' from `j` on and no ']'
      from `k` on; otherwise the split at colon `i` succeeds. */
  function StrayBrackets(s: string, host: string, j: nat, k: nat, i: nat): (r: Result<(string, string), AddrError>)
    requires j <= k <= i < |s|
    ensures r.Ok? ==> r.value == (host, s[i + 1..]) && '[' !in s[j..] && ']' !in s[k..]
    ensures r.Ok? ==> NoBrackets(s[i + 1..])
  {
    if '[' in s[j..] then Err(UnexpectedOpenBracket)
    else if ']' in s[k..] then Err(UnexpectedCloseBracket)
    else
      assert s[i + 1..] == s[j..][i + 1 - j..] == s[k..][i + 1 - k..];
      Ok((host, s[i + 1..]))
  }

  /** A successful split gives back the address as `host:port` or
      `[host]:port`, with a colon-free port and no brackets left over. */
  lemma SplitHostPortShape(s: string)
    requires SplitHostPort(s).Ok?
    ensures var (host, port) := SplitHostPort(s).value;
      && (s == host + ":" + port || s == "[" + host + "]:" + port)
      && ':' !in port && NoBrackets(host) && NoBrackets(port)
  {
    var i := LastIndexOf(s, ':');
    if s[0] == '[' {
      var end := IndexOf(s, ']');
      assert s == "[" + s[1..end] + "]:" + s[i + 1..];
    } else {
      assert s == s[..i] + ":" + s[i + 1..];
    }
  }

  /** validHostPort: the address splits and neither part is empty. */
  predicate ValidHostPort(s: string): (b: bool)
    // a valid address has a colon and ends in a port character
    ensures b ==> ':' in s && s[|s| - 1] != ':' && NoBrackets(s[LastIndexOf(s, ':') + 1..])
  {
    match SplitHostPort(s)
    case Ok((host, port)) => host != "" && port != ""
    case Err(_) => false
  }

  /** Splitting undoes joining for a bracket-free host and port whose port has no colon. */
  lemma SplitJoinHostPort(host: string, port: string)
    requires NoBrackets(host) && NoBrackets(port) && ':' !in port
    ensures SplitHostPort(JoinHostPort(host, port)) == Ok((host, port))
  {
    if ':' in host { SplitJoinBracketed(host, port); } else { SplitJoinPlain(host, port); }
  }

  lemma SplitJoinBracketed(host: string, port: string)
    requires NoBrackets(host) && NoBrackets(port) && ':' !in port && ':' in host
    ensures SplitHostPort("[" + host + "]:" + port) == Ok((host, port))
  {
    var s := "[" + host + "]:" + port;
    var end, i := |host| + 1, |host| + 2;
    BracketedColon(host, port);
    BracketedClose(host, port);
    BracketedNoStray(host, port);
    assert s[1..end] == host;
    assert s[0] == '[';
  }

  lemma BracketedColon(host: string, port: string)
    requires ':' !in port
    ensures LastIndexOf("[" + host + "]:" + port, ':') == |host| + 2
  {
    var s := "[" + host + "]:" + port;
    assert s[|host| + 3..] == port;
    LastIndexOfAt(s, ':', |host| + 2);
  }

  lemma BracketedClose(host: string, port: string)
    requires NoBrackets(host)
    ensures IndexOf("[" + host + "]:" + port, ']') == |host| + 1
  {
    var s := "[" + host + "]:" + port;
    assert s[..|host| + 1] == "[" + host;
    IndexOfAt(s, ']', |host| + 1);
  }

  lemma BracketedNoStray(host: string, port: string)
    requires NoBrackets(host) && NoBrackets(port)
    ensures var s := "[" + host + "]:" + port;
      StrayBrackets(s, host, 1, |host| + 2, |host| + 2) == Ok((host, port))
  {
    var s := "[" + host + "]:" + port;
    assert s[1..] == host + "]:" + port;
    assert s[|host| + 2..] == ":" + port;
    assert s[|host| + 3..] == port;
  }

  lemma SplitJoinPlain(host: string, port: string)
    requires NoBrackets(host) && NoBrackets(port) && ':' !in port && ':' !in host
    ensures SplitHostPort(host + ":" + port) == Ok((host, port))
  {
    var s := host + ":" + port;
    var i := |host|;
    assert s[i + 1..] == port;
    LastIndexOfAt(s, ':', i);
    assert s[..i] == host;
    if host != [] { assert s[0] == host[0]; } else { assert s[0] == ':'; }
  }

  /** A join of two non-empty bracket-free parts is a valid backend address,
      and every valid backend address has a non-empty host and port on
      either side of a colon. */
  lemma ValidHostPortJoin(host: string, port: string)
    requires host != "" && port != ""
    requires NoBrackets(host) && NoBrackets(port) && ':' !in port
    ensures ValidHostPort(JoinHostPort(host, port))
  {
    SplitJoinHostPort(host, port);
  }

  lemma ValidHostPortShape(s: string)
    requires ValidHostPort(s)
    ensures exists host, port ::
      && host != "" && port != "" && ':' !in port
      && (s == host + ":" + port || s == "[" + host + "]:" + port)
  {
    SplitHostPortShape(s);
    var (host, port) := SplitHostPort(s).value;
    assert host != "" && port != "";
  }
}
