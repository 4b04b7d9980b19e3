/**
  Collecting the hosts one Traefik endpoint serves: the HTTP and the TCP router
  lists are fetched from the endpoint's API, each rule goes through the host
  matcher, and every host found is mapped to the endpoint's IPv4 address.

  The network is an oracle `fetch` from a URL to the response it gets (or the
  transport error); DNS resolution of the endpoint is an input `Resolution`.
 */
module Routers {
  import opened Wrappers
  import opened Rules

  /** The body of a response, after `io.ReadAll` and `json.Unmarshal`. */
  datatype Body = Unreadable | Malformed | Decoded(rules: seq<string>)

  /** What `http.Get` gives back for one URL. */
  datatype Response = NetworkError | Answer(status: int, body: Body)

  /** The pair `([]router, error)` of `getTraefikRouters`: the rules, or a non-nil error. */
  datatype Fetched = Got(rules: seq<string>) | FetchError

  /** The endpoint's address: the first IP of its host forced to four octets, or the
      lookup/conversion failure that `retrieveIP` makes fatal. */
  datatype Resolution = Resolved(ip: string) | Unresolvable

  /** Reasons the whole run stops while collecting hosts. */
  datatype Fatal =
    | NoAddress(url: string)   // log.Fatalf in retrieveIP
    | IndexOutOfRange          // runtime panic: a rule without a match indexes a nil slice

  /** The result of `retrieveServicesHosts` for one endpoint, with what `main` makes of it. */
  datatype Collected =
    | Hosts(urls: map<string, string>)  // the map, nil error
    | Skipped                           // nil map with an error: logged, the endpoint adds nothing
    | Aborted(reason: Fatal)            // the process ends

  function HttpRoutersUrl(url: string): string { url + "/api/http/routers" }

  function TcpRoutersUrl(url: string): string { url + "/api/tcp/routers" }

  /** `getTraefikRouters` once the GET has been answered. */
  function GetTraefikRouters(resp: Response): (r: Fetched)
    ensures r.FetchError? <==> resp.NetworkError? || (resp.status < 400 && !resp.body.Decoded?)
    ensures resp.Answer? && resp.status >= 400 ==> r == Got([])
    ensures resp.Answer? && resp.status < 400 && resp.body.Decoded? ==> r == Got(resp.body.rules)
  {
    match resp
    case NetworkError => FetchError
    case Answer(status, body) =>
      if status >= 400 then Got([])
      else match body
        case Decoded(rules) => Got(rules)
        case _ => FetchError
  }

  /** Every rule of the list has a match. */
  predicate AllMatch(rules: seq<string>)
  {
    forall i | 0 <= i < |rules| :: Extract(rules[i]).Some?
  }

  /** The hosts extracted from the rules that match. */
  function ExtractedHosts(rules: seq<string>): set<string>
  {
    set i | 0 <= i < |rules| && Extract(rules[i]).Some? :: Extract(rules[i]).value
  }

  /** What `retrieveServicesHosts` returns for one endpoint. */
  function ServicesHosts(url: string, ip: Resolution, fetch: string -> Response): Collected
  {
    if ip.Unresolvable? then Aborted(NoAddress(url))
    else
      var http := GetTraefikRouters(fetch(HttpRoutersUrl(url)));
      if http.FetchError? then Skipped
      else
        var tcp := GetTraefikRouters(fetch(TcpRoutersUrl(url)));
        if tcp.FetchError? then Skipped
        else
          var all := http.rules + tcp.rules;
          if !AllMatch(all) then Aborted(IndexOutOfRange)
          else Hosts(map h | h in ExtractedHosts(all) :: ip.ip)
  }

  /** The URLs `retrieveServicesHosts` requests, in order. */
  function Requests(url: string, ip: Resolution, fetch: string -> Response): seq<string>
  {
    if ip.Unresolvable? then []
    else if GetTraefikRouters(fetch(HttpRoutersUrl(url))).FetchError? then [HttpRoutersUrl(url)]
    else [HttpRoutersUrl(url), TcpRoutersUrl(url)]
  }

  /** `retrieveServicesHosts`: resolve, fetch both router kinds, then fill the map
      rule by rule. `requested` lists the URLs passed to `fetch`. */
  method RetrieveServicesHosts(url: string, ip: Resolution, fetch: string -> Response)
    returns (r: Collected, requested: seq<string>)
    ensures r == ServicesHosts(url, ip, fetch)
    ensures requested == Requests(url, ip, fetch)
  {
    requested := [];
    if ip.Unresolvable? {
      return Aborted(NoAddress(url)), requested;
    }
    requested := requested + [HttpRoutersUrl(url)];
    var http := GetTraefikRouters(fetch(HttpRoutersUrl(url)));
    if http.FetchError? {
      return Skipped, requested;
    }
    requested := requested + [TcpRoutersUrl(url)];
    var tcp := GetTraefikRouters(fetch(TcpRoutersUrl(url)));
    if tcp.FetchError? {
      return Skipped, requested;
    }
    r := MapHosts(http.rules + tcp.rules, ip.ip);
  }

  /** The map-building loop of `retrieveServicesHosts`: every rule's host maps to the
      endpoint's address; the first rule without a match panics. */
  method MapHosts(all: seq<string>, ip: string) returns (r: Collected)
    ensures r == if AllMatch(all) then Hosts(map h | h in ExtractedHosts(all) :: ip) else Aborted(IndexOutOfRange)
  {
    var urls: map<string, string> := map[];
    var i := 0;
    while i < |all|
      invariant 0 <= i <= |all|
      invariant AllMatch(all[..i])
      invariant urls.Keys == ExtractedHosts(all[..i])
      invariant forall h | h in urls :: urls[h] == ip
    {
      var found := Extract(all[i]);
      if found.None? {
        return Aborted(IndexOutOfRange);
      }
      assert all[..i + 1] == all[..i] + [all[i]];
      HostsOfAppend(all[..i], all[i]);
      urls := urls[found.value := ip];
      i := i + 1;
    }
    assert all[..i] == all;
    r := Hosts(urls);
  }

  lemma HostsOfAppend(rules: seq<string>, rule: string)
    requires Extract(rule).Some?
    ensures ExtractedHosts(rules + [rule]) == ExtractedHosts(rules) + {Extract(rule).value}
  {
    var all := rules + [rule];
    forall h | h in ExtractedHosts(all)
      ensures h in ExtractedHosts(rules) + {Extract(rule).value}
    {
      var i :| 0 <= i < |all| && Extract(all[i]).Some? && Extract(all[i]).value == h;
      if i < |rules| {
        assert all[i] == rules[i];
      }
    }
    forall h | h in ExtractedHosts(rules)
      ensures h in ExtractedHosts(all)
    {
      var i :| 0 <= i < |rules| && Extract(rules[i]).Some? && Extract(rules[i]).value == h;
      assert all[i] == rules[i];
    }
    assert all[|rules|] == rule;
  }

  /** The per-endpoint map: keys are exactly the hosts of the HTTP rules and then the
      TCP rules, each mapped to the endpoint's one address; a rule without a match
      makes the run panic, and a failed fetch of either kind skips the endpoint. */
  lemma ServicesHostsSpec(url: string, ip: Resolution, fetch: string -> Response)
    ensures ip.Unresolvable? ==> ServicesHosts(url, ip, fetch) == Aborted(NoAddress(url))
    ensures ip.Resolved? && GetTraefikRouters(fetch(HttpRoutersUrl(url))).FetchError? ==>
      ServicesHosts(url, ip, fetch) == Skipped && Requests(url, ip, fetch) == [HttpRoutersUrl(url)]
    ensures ServicesHosts(url, ip, fetch).Hosts? ==>
      var http := GetTraefikRouters(fetch(HttpRoutersUrl(url)));
      var tcp := GetTraefikRouters(fetch(TcpRoutersUrl(url)));
      var m := ServicesHosts(url, ip, fetch).urls;
      && ip.Resolved? && http.Got? && tcp.Got?
      && (forall h :: h in m <==> exists i :: 0 <= i < |http.rules + tcp.rules| && Extract((http.rules + tcp.rules)[i]) == Some(h))
      && (forall h | h in m :: m[h] == ip.ip)
    ensures ServicesHosts(url, ip, fetch) == Aborted(IndexOutOfRange) ==>
      var http := GetTraefikRouters(fetch(HttpRoutersUrl(url)));
      var tcp := GetTraefikRouters(fetch(TcpRoutersUrl(url)));
      && http.Got? && tcp.Got?
      && exists i :: 0 <= i < |http.rules + tcp.rules| && Extract((http.rules + tcp.rules)[i]) == None
  {
  }

  /** An error status is not an error: that router kind contributes no rules, and the
      endpoint yields whatever the TCP routers yield on their own. */
  lemma ErrorStatusContributesNothing(url: string, ip: string, fetch: string -> Response)
    requires fetch(HttpRoutersUrl(url)).Answer? && fetch(HttpRoutersUrl(url)).status >= 400
    ensures var tcp := GetTraefikRouters(fetch(TcpRoutersUrl(url)));
      ServicesHosts(url, Resolved(ip), fetch) ==
        if tcp.FetchError? then Skipped
        else if !AllMatch(tcp.rules) then Aborted(IndexOutOfRange)
        else Hosts(map h | h in ExtractedHosts(tcp.rules) :: ip)
  {
    var tcp := GetTraefikRouters(fetch(TcpRoutersUrl(url)));
    if tcp.Got? {
      assert [] + tcp.rules == tcp.rules;
    }
  }

  /** The same for the TCP routers: after a TCP answer with an error status the endpoint
      yields whatever the HTTP routers yield on their own. */
  lemma TcpErrorStatusContributesNothing(url: string, ip: string, fetch: string -> Response)
    requires fetch(TcpRoutersUrl(url)).Answer? && fetch(TcpRoutersUrl(url)).status >= 400
    ensures var http := GetTraefikRouters(fetch(HttpRoutersUrl(url)));
      ServicesHosts(url, Resolved(ip), fetch) ==
        if http.FetchError? then Skipped
        else if !AllMatch(http.rules) then Aborted(IndexOutOfRange)
        else Hosts(map h | h in ExtractedHosts(http.rules) :: ip)
  {
    var http := GetTraefikRouters(fetch(HttpRoutersUrl(url)));
    if http.Got? {
      assert http.rules + [] == http.rules;
    }
  }

  /** Two rules whose hosts are known give the map of those two hosts. */
  lemma TwoRuleHosts(r1: string, r2: string, h1: string, h2: string, ip: string)
    requires Extract(r1) == Some(h1) && Extract(r2) == Some(h2)
    ensures AllMatch([r1, r2])
    ensures (map h | h in ExtractedHosts([r1, r2]) :: ip) == map[h1 := ip, h2 := ip]
  {
    var all := [r1, r2];
    assert ExtractedHosts(all) == {h1, h2} by {
      forall h | h in ExtractedHosts(all)
        ensures h == h1 || h == h2
      {
        var i :| 0 <= i < |all| && Extract(all[i]).Some? && Extract(all[i]).value == h;
        assert i == 0 || i == 1;
      }
      assert Extract(all[0]).value == h1;
      assert Extract(all[1]).value == h2;
    }
  }

  /** An endpoint with one HTTP rule `Host(`a`)` and one TCP rule `HostSNI(`b`)`
      (for example a.example.com and b.example.com) maps both hosts to its address. */
  lemma OneRuleOfEachKind(url: string, fetch: string -> Response, a: string, b: string, ip: string)
    requires IsHostName(a) && IsHostName(b)
    requires fetch(HttpRoutersUrl(url)) == Answer(200, Decoded(["Host(`" + a + "`)"]))
    requires fetch(TcpRoutersUrl(url)) == Answer(200, Decoded(["HostSNI(`" + b + "`)"]))
    ensures ServicesHosts(url, Resolved(ip), fetch) == Hosts(map[a := ip, b := ip])
  {
    ExtractHostRule(a);
    ExtractHostRule(b);
    var r1, r2 := "Host(`" + a + "`)", "HostSNI(`" + b + "`)";
    assert [r1] + [r2] == [r1, r2];
    TwoRuleHosts(r1, r2, a, b, ip);
  }
}
