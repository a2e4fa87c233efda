/** The route table built in `main` from the `-route` flags
    (dns_reverse_proxy.go:73-90): each flag is `domain=host:port[,host:port...]`;
    the domain is dot-terminated and lower-cased to form the key, and a later
    flag for the same key replaces an earlier one. Any malformed flag is fatal. */
module RouteTable {
  import opened Wrappers
  import opened GoStrings
  import opened HostPort

  /** The two fatal configuration errors (log.Fatal in `main`). */
  datatype ConfigError =
    | InvalidRoute(spec: string)        // no '=', empty domain or empty backend list
    | InvalidHostPort(backend: string)  // a backend that fails validHostPort

  type Table = map<string, seq<string>>

  /** A key as the table stores it: dot-terminated and already lower case. */
  predicate WellFormedKey(k: string) {
    |k| > 0 && k[|k| - 1] == '.' && ToLower(k) == k
  }

  predicate AllValid(bs: seq<string>) {
    forall i :: 0 <= i < |bs| ==> ValidHostPort(bs[i])
  }

  predicate WellFormedBackends(bs: seq<string>) {
    |bs| > 0 && AllValid(bs)
  }

  predicate WellFormedTable(t: Table) {
    forall k :: k in t ==> WellFormedKey(k) && WellFormedBackends(t[k])
  }

  /** The key for a domain: a '.' is appended unless present, then lower-cased. */
  function NormalizeDomain(d: string): (k: string)
    ensures WellFormedKey(k)
    ensures HasSuffix(d, ".") ==> k == ToLower(d)
    ensures !HasSuffix(d, ".") ==> k == ToLower(d) + "."
  {
    var dotted := if HasSuffix(d, ".") then d else d + ".";
    ToLowerIdempotent(dotted);
    ToLowerAppend(d, ".");
    ToLower(dotted)
  }

  /** The first backend, in list order, that is not a valid host:port. */
  function FirstInvalid(bs: seq<string>): (r: Option<string>)
    ensures r.None? <==> AllValid(bs)
    ensures r.Some? ==> r.value in bs && !ValidHostPort(r.value)
  {
    if bs == [] then None
    else if !ValidHostPort(bs[0]) then Some(bs[0])
    else
      assert forall i :: 1 <= i < |bs| ==> bs[i] == bs[1..][i - 1];
      FirstInvalid(bs[1..])
  }

  /** The backend reported is the one at the first invalid position. */
  lemma {:induction false} FirstInvalidAt(bs: seq<string>, i: nat)
    requires i < |bs| && !ValidHostPort(bs[i])
    requires forall j :: 0 <= j < i ==> ValidHostPort(bs[j])
    ensures FirstInvalid(bs) == Some(bs[i])
  {
    if i > 0 {
      var tail := bs[1..];
      assert ValidHostPort(bs[0]);
      assert tail[i - 1] == bs[i];
      forall j | 0 <= j < i - 1 ensures ValidHostPort(tail[j]) {
        assert tail[j] == bs[j + 1];
      }
      FirstInvalidAt(tail, i - 1);
    }
  }

  /** The backend half of a route flag: split on ',' and every piece checked. */
  function ParseBackends(list: string): Result<seq<string>, ConfigError> {
    var fields := Split(list, ',');
    match FirstInvalid(fields)
    case Some(b) => Err(InvalidHostPort(b))
    case None => Ok(fields)
  }

  /** One `-route` flag: the domain key and its backends, or the fatal error. */
  function ParseRoute(spec: string): (r: Result<(string, seq<string>), ConfigError>)
    // a flag without '=' is refused as an invalid route
    ensures '=' !in spec ==> r == Err(InvalidRoute(spec))
    // an accepted flag has a well-formed key and a non-empty list of valid backends
    ensures r.Ok? ==> WellFormedKey(r.value.0) && WellFormedBackends(r.value.1)
  {
    var s := SplitN2(spec, '=');
    if |s| != 2 || |s[0]| == 0 || |s[1]| == 0 then Err(InvalidRoute(spec))
    else match ParseBackends(s[1])
      case Err(e) => Err(e)
      case Ok(bs) => Ok((NormalizeDomain(s[0]), bs))
  }

  type Parsed = Result<(string, seq<string>), ConfigError>

  /** Every flag parsed on its own. */
  function ParseAll(specs: seq<string>): (ps: seq<Parsed>)
    ensures |ps| == |specs|
    ensures forall i :: 0 <= i < |specs| ==> ps[i] == ParseRoute(specs[i])
  {
    seq(|specs|, i requires 0 <= i < |specs| => ParseRoute(specs[i]))
  }

  /** The table after inserting parsed routes in order, stopping at the first error. */
  function Assemble(ps: seq<Parsed>): Result<Table, ConfigError> {
    if ps == [] then Ok(map[])
    else
      match Assemble(ps[..|ps| - 1])
      case Err(e) => Err(e)
      case Ok(t) =>
        match ps[|ps| - 1]
        case Err(e) => Err(e)
        case Ok((k, bs)) => Ok(t[k := bs])
  }

  /** The table the `-route` flags produce, or the first flag's fatal error.
      Every table the flags can build is well formed. */
  function BuildTable(specs: seq<string>): (r: Result<Table, ConfigError>)
    ensures r.Ok? ==> WellFormedTable(r.value)
  {
    var t := Assemble(ParseAll(specs));
    if t.Ok? then AssembleWellFormed(ParseAll(specs)); t else t
  }

  /** A route flag is accepted exactly when it is `domain=list` with a
      '='-free, non-empty domain and a non-empty list whose every
      comma-separated piece is a valid host:port; the route then maps the
      normalised domain to those pieces in order. */
  lemma ParseRouteIff(spec: string, d: string, list: string)
    requires spec == d + "=" + list && '=' !in d
    ensures ParseRoute(spec).Ok? <==> d != "" && list != "" && AllValid(Split(list, ','))
    ensures ParseRoute(spec).Ok? ==> ParseRoute(spec).value == (NormalizeDomain(d), Split(list, ','))
  {
    SplitN2Of(d, '=', list);
    var fi := FirstInvalid(Split(list, ','));
    assert fi.None? <==> AllValid(Split(list, ','));
  }

  lemma {:induction false} AssembleWellFormed(ps: seq<Parsed>)
    requires Assemble(ps).Ok?
    requires forall i :: 0 <= i < |ps| && ps[i].Ok? ==>
      WellFormedKey(ps[i].value.0) && WellFormedBackends(ps[i].value.1)
    ensures WellFormedTable(Assemble(ps).value)
  {
    if ps != [] {
      AssembleWellFormed(ps[..|ps| - 1]);
    }
  }

  lemma {:induction false} AssembleFails(ps: seq<Parsed>)
    ensures Assemble(ps).Err? <==> exists i :: 0 <= i < |ps| && ps[i].Err?
    ensures Assemble(ps).Err? ==> exists i ::
      && 0 <= i < |ps| && ps[i].Err? && Assemble(ps).error == ps[i].error
      && forall j :: 0 <= j < i ==> ps[j].Ok?
  {
    if ps != [] {
      var n := |ps| - 1;
      AssembleFails(ps[..n]);
      assert forall i :: 0 <= i < n ==> ps[..n][i] == ps[i];
    }
  }

  /** Building fails exactly when some flag is malformed, and then with the
      error of the first malformed flag. */
  lemma BuildTableFails(specs: seq<string>)
    ensures BuildTable(specs).Err? <==> exists i :: 0 <= i < |specs| && ParseRoute(specs[i]).Err?
    ensures BuildTable(specs).Err? ==> exists i ::
      && 0 <= i < |specs|
      && ParseRoute(specs[i]).Err? && BuildTable(specs).error == ParseRoute(specs[i]).error
      && forall j :: 0 <= j < i ==> ParseRoute(specs[j]).Ok?
  {
    AssembleFails(ParseAll(specs));
  }

  lemma {:induction false} AssembleLookup(ps: seq<Parsed>, k: string)
    requires Assemble(ps).Ok?
    ensures forall i :: 0 <= i < |ps| ==> ps[i].Ok?
    ensures k in Assemble(ps).value <==> exists i :: 0 <= i < |ps| && ps[i].value.0 == k
    ensures k in Assemble(ps).value ==> exists i ::
      && 0 <= i < |ps| && ps[i].value == (k, Assemble(ps).value[k])
      && forall j :: i < j < |ps| ==> ps[j].value.0 != k
  {
    if ps != [] {
      var n := |ps| - 1;
      var init := ps[..n];
      AssembleLookup(init, k);
      assert forall i :: 0 <= i < n ==> init[i] == ps[i];
      var t := Assemble(ps).value;
      if k == ps[n].value.0 {
        assert ps[n].value == (k, t[k]);
      } else if k in t {
        var i :| 0 <= i < |init| && init[i].value == (k, Assemble(init).value[k]) &&
                 forall j :: i < j < |init| ==> init[j].value.0 != k;
        assert ps[i].value == (k, t[k]);
      }
    }
  }

  /** The table maps each key to the backends of the LAST flag with that key,
      and holds no other keys. */
  lemma BuildTableLookup(specs: seq<string>, k: string)
    requires BuildTable(specs).Ok?
    ensures forall i :: 0 <= i < |specs| ==> ParseRoute(specs[i]).Ok?
    ensures k in BuildTable(specs).value <==>
      exists i :: 0 <= i < |specs| && ParseRoute(specs[i]).value.0 == k
    ensures k in BuildTable(specs).value ==> exists i ::
      && 0 <= i < |specs|
      && ParseRoute(specs[i]).value == (k, BuildTable(specs).value[k])
      && forall j :: i < j < |specs| ==> ParseRoute(specs[j]).value.0 != k
  {
    AssembleLookup(ParseAll(specs), k);
  }

  /** A list whose every piece is valid parses to exactly those pieces. */
  lemma ParseBackendsAllValid(list: string)
    requires AllValid(Split(list, ','))
    ensures ParseBackends(list) == Ok(Split(list, ','))
  {
  }

  /** The loop of `main` over the comma-separated backends of one flag:
      backends are appended in order, and the first invalid one is fatal. */
  method CollectBackends(list: string) returns (r: Result<seq<string>, ConfigError>)
    ensures r == ParseBackends(list)
    ensures r.Ok? ==> WellFormedBackends(r.value) && Join(r.value, ',') == list
  {
    var fields := Split(list, ',');
    var backends: seq<string> := [];
    var i := 0;
    while i < |fields|
      invariant 0 <= i <= |fields|
      invariant backends == fields[..i]
      invariant forall j :: 0 <= j < i ==> ValidHostPort(fields[j])
    {
      var backend := fields[i];
      if !ValidHostPort(backend) {
        FirstInvalidAt(fields, i);
        return Err(InvalidHostPort(backend));
      }
      backends := backends + [backend];
      i := i + 1;
    }
    assert backends == fields;
    JoinSplit(list, ',');
    ParseBackendsAllValid(list);
    return Ok(backends);
  }

  /** The loop of `main` over the `-route` flags, in command-line order. */
  method BuildRoutes(routeLists: seq<string>) returns (r: Result<Table, ConfigError>)
    ensures r == BuildTable(routeLists)
    ensures r.Ok? ==> WellFormedTable(r.value)
  {
    ghost var ps := ParseAll(routeLists);
    var routes: Table := map[];
    var n := 0;
    assert ps[..0] == [];
    while n < |routeLists|
      invariant 0 <= n <= |routeLists|
      invariant Assemble(ps[..n]) == Ok(routes)
    {
      var routeList := routeLists[n];
      AssembleExtend(ps, n);
      ParseRouteSteps(routeList);
      var s := SplitN2(routeList, '=');
      if |s| != 2 || |s[0]| == 0 || |s[1]| == 0 {
        AssemblePrefixFails(ps, n + 1);
        return Err(InvalidRoute(routeList));
      }
      var backends := CollectBackends(s[1]);
      if backends.Err? {
        AssemblePrefixFails(ps, n + 1);
        return Err(backends.error);
      }
      var domain := s[0];
      if !HasSuffix(domain, ".") {
        domain := domain + ".";
      }
      assert ps[n] == ParseRoute(routeList) == Ok((ToLower(domain), backends.value));
      routes := routes[ToLower(domain) := backends.value];
      n := n + 1;
      assert Assemble(ps[..n]) == Ok(routes);
    }
    assert ps[..n] == ps;
    return Ok(routes);
  }

  /** ParseRoute unfolded into the steps `main` takes. */
  lemma ParseRouteSteps(spec: string)
    ensures var s := SplitN2(spec, '=');
      |s| != 2 || |s[0]| == 0 || |s[1]| == 0 ==> ParseRoute(spec) == Err(InvalidRoute(spec))
    ensures var s := SplitN2(spec, '=');
      |s| == 2 && |s[0]| > 0 && |s[1]| > 0 && ParseBackends(s[1]).Err? ==>
      ParseRoute(spec) == Err(ParseBackends(s[1]).error)
    ensures var s := SplitN2(spec, '=');
      |s| == 2 && |s[0]| > 0 && |s[1]| > 0 && ParseBackends(s[1]).Ok? ==>
      ParseRoute(spec) == Ok((ToLower(if HasSuffix(s[0], ".") then s[0] else s[0] + "."), ParseBackends(s[1]).value))
  {
  }

  lemma AssembleExtend(ps: seq<Parsed>, n: nat)
    requires n < |ps| && Assemble(ps[..n]).Ok?
    ensures Assemble(ps[..n + 1]) ==
      match ps[n]
      case Err(e) => Err(e)
      case Ok((k, bs)) => Ok(Assemble(ps[..n]).value[k := bs])
  {
    assert ps[..n + 1][..n] == ps[..n];
  }

  /** Once a prefix of the parsed flags fails, the whole list fails the same way. */
  lemma {:induction false} AssemblePrefixFails(ps: seq<Parsed>, n: nat)
    requires n <= |ps| && Assemble(ps[..n]).Err?
    ensures Assemble(ps) == Assemble(ps[..n])
    decreases |ps| - n
  {
    if n == |ps| {
      assert ps[..n] == ps;
    } else {
      assert ps[..n + 1][..n] == ps[..n];
      AssemblePrefixFails(ps, n + 1);
    }
  }
}
