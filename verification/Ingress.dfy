/**
 Ingress routing: the table the reconcile loop publishes and requests read, against the
 live lookup it replaces.

 Docker's answers (pod addresses of a service) and the deployment behind a service are
 parameters.  The rules of all ingresses come as one sequence, in the order the hash map of
 ingresses happens to iterate; the two lookups may see different orders.
 */
module Ingress {
  import opened Bytes
  import opened RoundRobin
  import opened ClusterTypes
  import MeshRouting
  import Strings

  datatype PathEntry = PathEntry(path: string, service: string, port: u16)
  datatype Rule = Rule(host: string, paths: seq<PathEntry>)

  /** `pod` empty: a local pod address; otherwise a peer's mesh proxy that hands over. */
  datatype Backend = Backend(ip: string, port: u16, pod: string, podPort: u16)
  datatype Route = Route(host: string, path: string, backends: seq<Backend>)

  datatype Cluster = Cluster(
    ports: string -> Option<seq<ServicePort>>,   // of a known service
    localIps: string -> seq<string>,
    deployment: string -> Option<string>,
    peers: seq<PeerPod>)

  const MESH_PORT := 6550

  // ---- ports ----

  function TargetPortFor(ports: seq<ServicePort>, rulePort: u16): (r: u16)
  {
    if ports == [] then rulePort
    else if ports[0].port == rulePort then ports[0].targetPort
    else TargetPortFor(ports[1..], rulePort)
  }

  /** The target port of the first service port with the rule's number, else that number. */
  lemma {:induction false} TargetPortIsFirstMatch(ports: seq<ServicePort>, rulePort: u16, i: nat)
    requires i <= |ports| && (i < |ports| ==> ports[i].port == rulePort)
    requires forall j :: 0 <= j < i ==> ports[j].port != rulePort
    ensures TargetPortFor(ports, rulePort) == if i < |ports| then ports[i].targetPort else rulePort
  {
    if i > 0 {
      TargetPortIsFirstMatch(ports[1..], rulePort, i - 1);
    }
  }

  function ResolveTargetPort(c: Cluster, service: string, rulePort: u16): (r: u16)
  {
    match c.ports(service)
    case Some(ports) => TargetPortFor(ports, rulePort)
    case None => rulePort
  }

  // ---- the published table ----

  function LocalBackends(ips: seq<string>, podPort: u16): (r: seq<Backend>)
  {
    seq(|ips|, i requires 0 <= i < |ips| => Backend(ips[i], podPort, "", podPort))
  }

  /** `rsplit_once(':')`: the part before the last colon. */
  function HostOf(addr: string): (r: string)
  {
    if ':' !in addr then addr else BeforeLastColon(addr)
  }

  function BeforeLastColon(addr: string): (r: string)
    requires ':' in addr
  {
    if addr[|addr| - 1] == ':' then addr[..|addr| - 1]
    else
      assert forall i :: 0 <= i < |addr| - 1 ==> addr[..|addr| - 1][i] == addr[i];
      BeforeLastColon(addr[..|addr| - 1])
  }

  function RemoteBackends(peers: seq<PeerPod>, prefix: string, podPort: u16): (r: seq<Backend>)
  {
    if peers == [] then []
    else
      (if prefix <= peers[0].pod then [Backend(HostOf(peers[0].addr), MESH_PORT, peers[0].pod, podPort)] else [])
      + RemoteBackends(peers[1..], prefix, podPort)
  }

  function BackendsFor(c: Cluster, e: PathEntry): (r: seq<Backend>)
  {
    var podPort := ResolveTargetPort(c, e.service, e.port);
    LocalBackends(c.localIps(e.service), podPort) +
    match c.deployment(e.service)
    case Some(d) => RemoteBackends(c.peers, "rk-" + d + "-", podPort)
    case None => []
  }

  function RoutesOfPaths(c: Cluster, host: string, paths: seq<PathEntry>): (r: seq<Route>)
  {
    if paths == [] then []
    else
      var e := paths[|paths| - 1];
      RoutesOfPaths(c, host, paths[..|paths| - 1]) +
      if BackendsFor(c, e) != [] then [Route(host, e.path, BackendsFor(c, e))] else []
  }

  function Routes(c: Cluster, rules: seq<Rule>): (r: seq<Route>)
  {
    if rules == [] then []
    else
      var rule := rules[|rules| - 1];
      Routes(c, rules[..|rules| - 1]) + RoutesOfPaths(c, rule.host, rule.paths)
  }

  method PublishSnapshot(c: Cluster, rules: seq<Rule>) returns (routes: seq<Route>)
    ensures routes == Routes(c, rules)
  {
    hide BackendsFor;
    routes := [];
    for i := 0 to |rules|
      invariant routes == Routes(c, rules[..i])
    {
      var rule := rules[i];
      assert rules[..i + 1][..i] == rules[..i];
      ghost var before := routes;
      for j := 0 to |rule.paths|
        invariant routes == before + RoutesOfPaths(c, rule.host, rule.paths[..j])
      {
        var e := rule.paths[j];
        assert rule.paths[..j + 1][..j] == rule.paths[..j];
        var backends := BackendsFor(c, e);
        if backends != [] {
          Assoc(before, RoutesOfPaths(c, rule.host, rule.paths[..j]), [Route(rule.host, e.path, backends)]);
          routes := routes + [Route(rule.host, e.path, backends)];
        }
      }
      assert rule.paths[..|rule.paths|] == rule.paths;
    }
    assert rules[..|rules|] == rules;
  }

  // ---- lookup in the table ----

  predicate HostAdmits(ruleHost: string, host: string)
  {
    ruleHost == "" || ruleHost == host
  }

  predicate Matches(r: Route, host: string, path: string)
  {
    HostAdmits(r.host, host) && r.path <= path
  }

  /** The last of the longest matching routes (`max_by_key` keeps the last maximum). */
  function PickRoute(routes: seq<Route>, host: string, path: string): (r: Option<Route>)
    ensures r.Some? ==> r.value in routes && Matches(r.value, host, path)
    ensures r.Some? ==> forall x :: x in routes && Matches(x, host, path) ==> |x.path| <= |r.value.path|
    ensures r.None? ==> forall x :: x in routes ==> !Matches(x, host, path)
  {
    if routes == [] then None
    else
      var last := routes[|routes| - 1];
      var before := PickRoute(routes[..|routes| - 1], host, path);
      assert forall x :: x in routes <==> x in routes[..|routes| - 1] || x == last;
      if Matches(last, host, path) && (before.None? || |last.path| >= |before.value.path|) then Some(last)
      else before
  }

  /** One request: a backend of the picked route, by the shared round-robin counter. */
  function SnapshotBackend(routes: seq<Route>, host: string, path: string, counter: nat): (r: Option<Backend>)
  {
    match PickRoute(routes, host, path)
    case None => None
    case Some(route) =>
      if route.backends == [] then None else Some(route.backends[counter % |route.backends|])
  }

  // ---- the live lookup ----

  /** The first of the longest matching paths of one rule. */
  function BestPath(paths: seq<PathEntry>, path: string): (r: Option<PathEntry>)
    ensures r.Some? ==> r.value in paths && r.value.path <= path
    ensures r.Some? ==> forall e :: e in paths && e.path <= path ==> |e.path| <= |r.value.path|
    ensures r.None? ==> forall e :: e in paths ==> !(e.path <= path)
  {
    if paths == [] then None
    else
      var last := paths[|paths| - 1];
      var best := BestPath(paths[..|paths| - 1], path);
      assert forall e :: e in paths <==> e in paths[..|paths| - 1] || e == last;
      if last.path <= path && (best.None? || |last.path| > |best.value.path|) then Some(last) else best
  }

  function LiveEntry(rules: seq<Rule>, host: string, path: string): (r: Option<PathEntry>)
  {
    if rules == [] then None
    else if HostAdmits(rules[0].host, host) && BestPath(rules[0].paths, path).Some?
    then BestPath(rules[0].paths, path)
    else LiveEntry(rules[1..], host, path)
  }

  method FindBackend(rules: seq<Rule>, host: string, path: string) returns (r: Option<(string, u16)>)
    ensures
      var e := LiveEntry(rules, host, path);
      r == if e.Some? then Some((e.value.service, e.value.port)) else None
  {
    for i := 0 to |rules|
      invariant LiveEntry(rules, host, path) == LiveEntry(rules[i..], host, path)
    {
      var rule := rules[i];
      assert rules[i..][0] == rule && rules[i..][1..] == rules[i + 1..];
      if !(rule.host != "" && rule.host != host) {
        var best: Option<PathEntry> := None;
        for j := 0 to |rule.paths|
          invariant best == BestPath(rule.paths[..j], path)
        {
          assert rule.paths[..j + 1][..j] == rule.paths[..j];
          if rule.paths[j].path <= path {
            if best.None? || |rule.paths[j].path| > |best.value.path| {
              best := Some(rule.paths[j]);
            }
          }
        }
        assert rule.paths[..|rule.paths|] == rule.paths;
        if best.Some? {
          return Some((best.value.service, best.value.port));
        }
      }
    }
    assert rules[|rules|..] == [];
    r := None;
  }

  // ---- where routes come from ----

  /** The route a path entry is published as. */
  function RouteOf(c: Cluster, rule: Rule, e: PathEntry): (r: Route)
  {
    Route(rule.host, e.path, BackendsFor(c, e))
  }

  lemma {:induction false} PathRoutesOrigin(c: Cluster, host: string, paths: seq<PathEntry>, r: Route)
    ensures r in RoutesOfPaths(c, host, paths) <==>
              exists e :: e in paths && r == Route(host, e.path, BackendsFor(c, e)) && r.backends != []
  {
    hide BackendsFor;
    if paths != [] {
      var init, last := paths[..|paths| - 1], paths[|paths| - 1];
      PathRoutesOrigin(c, host, init, r);
      assert forall e :: e in paths <==> e in init || e == last;
    }
  }

  /** A route is in the table exactly when some path entry of some rule with at least one
      backend is published as it. */
  lemma {:induction false} RoutesOrigin(c: Cluster, rules: seq<Rule>, r: Route)
    ensures r in Routes(c, rules) <==>
              exists rule, e :: rule in rules && e in rule.paths && r == RouteOf(c, rule, e) && r.backends != []
  {
    hide BackendsFor;
    if rules != [] {
      var init, last := rules[..|rules| - 1], rules[|rules| - 1];
      RoutesOrigin(c, init, r);
      PathRoutesOrigin(c, last.host, last.paths, r);
      assert forall rule :: rule in rules <==> rule in init || rule == last;
      if r in RoutesOfPaths(c, last.host, last.paths) {
        var e :| e in last.paths && r == Route(last.host, e.path, BackendsFor(c, e)) && r.backends != [];
        assert r == RouteOf(c, last, e);
      }
    }
  }

  /** The table always yields a longest path among all entries that match and have a
      backend, and yields something exactly when there is one. */
  lemma TableYieldsLongest(c: Cluster, rules: seq<Rule>, host: string, path: string)
    ensures
      var picked := PickRoute(Routes(c, rules), host, path);
      && (picked.Some? <==>
            exists rule, e :: rule in rules && e in rule.paths && HostAdmits(rule.host, host) && e.path <= path
                              && BackendsFor(c, e) != [])
      && (picked.Some? ==>
            forall rule, e ::
              (rule in rules && e in rule.paths && HostAdmits(rule.host, host) && e.path <= path
               && BackendsFor(c, e) != []) ==> |e.path| <= |picked.value.path|)
  {
    hide BackendsFor, Routes, PickRoute;
    var routes := Routes(c, rules);
    var picked := PickRoute(routes, host, path);
    forall rule, e | rule in rules && e in rule.paths && HostAdmits(rule.host, host) && e.path <= path
                     && BackendsFor(c, e) != []
      ensures RouteOf(c, rule, e) in routes && Matches(RouteOf(c, rule, e), host, path)
    {
      RoutesOrigin(c, rules, RouteOf(c, rule, e));
    }
    if picked.Some? {
      RoutesOrigin(c, rules, picked.value);
    }
  }

  // ---- table and live lookup agree ----

  /** `rule` is the one rule that admits the host. */
  ghost predicate OnlyRule(rules: seq<Rule>, host: string, rule: Rule)
  {
    HostAdmits(rule.host, host) &&
    exists i :: 0 <= i < |rules| && rules[i] == rule
                && forall j :: 0 <= j < |rules| && HostAdmits(rules[j].host, host) ==> j == i
  }

  predicate DistinctPaths(paths: seq<PathEntry>)
  {
    forall i, j :: 0 <= i < j < |paths| ==> paths[i].path != paths[j].path
  }

  lemma {:induction false} LiveUsesOnlyRule(rules: seq<Rule>, host: string, path: string, rule: Rule, i: nat)
    requires i < |rules| && rules[i] == rule && HostAdmits(rule.host, host)
    requires forall j :: 0 <= j < |rules| && HostAdmits(rules[j].host, host) ==> j == i
    ensures LiveEntry(rules, host, path) == BestPath(rule.paths, path)
  {
    hide BestPath;
    if i == 0 {
      NoRuleNoEntry(rules[1..], host, path);
    } else {
      LiveUsesOnlyRule(rules[1..], host, path, rule, i - 1);
    }
  }

  lemma {:induction false} NoRuleNoEntry(rules: seq<Rule>, host: string, path: string)
    requires forall j :: 0 <= j < |rules| ==> !HostAdmits(rules[j].host, host)
    ensures LiveEntry(rules, host, path) == None
  {
    if rules != [] {
      NoRuleNoEntry(rules[1..], host, path);
    }
  }

  /** When one rule admits the host, its paths are distinct and each has a backend, the
      table picks the route of exactly the path entry the live lookup finds. */
  lemma TableAgreesWithLive(c: Cluster, published: seq<Rule>, live: seq<Rule>, host: string, path: string, rule: Rule)
    requires OnlyRule(published, host, rule) && OnlyRule(live, host, rule)
    requires DistinctPaths(rule.paths)
    requires forall e :: e in rule.paths ==> BackendsFor(c, e) != []
    ensures
      var e := LiveEntry(live, host, path);
      PickRoute(Routes(c, published), host, path) == if e.Some? then Some(RouteOf(c, rule, e.value)) else None
  {
    hide BackendsFor, Routes, PickRoute, BestPath, LiveEntry;
    var i :| 0 <= i < |live| && live[i] == rule
             && forall j :: 0 <= j < |live| && HostAdmits(live[j].host, host) ==> j == i;
    LiveUsesOnlyRule(live, host, path, rule, i);
    var best := BestPath(rule.paths, path);
    var picked := PickRoute(Routes(c, published), host, path);
    assert rule in published;
    if best.Some? {
      RoutesOrigin(c, published, RouteOf(c, rule, best.value));
    }
    if picked.Some? {
      RoutesOrigin(c, published, picked.value);
      var rule', e' :| rule' in published && e' in rule'.paths && picked.value == RouteOf(c, rule', e')
                       && picked.value.backends != [];
      assert HostAdmits(rule'.host, host);
      assert rule' == rule;
      SamePrefix(best.value.path, e'.path, path);
      assert best.value == e';
    }
  }

  /** Two prefixes of one path with the same length are the same. */
  lemma SamePrefix(a: string, b: string, path: string)
    requires a <= path && b <= path
    ensures |a| == |b| ==> a == b
  {
    assert a == path[..|a|] && b == path[..|b|];
  }

  /** A route's backends are exactly: every local pod address, dialled on the pod's real
      port, and every census pod whose name starts with the deployment's prefix, through its
      node's mesh proxy and with the real port for the hand-off. */
  lemma BackendsAre(c: Cluster, e: PathEntry, b: Backend)
    ensures
      var t := ResolveTargetPort(c, e.service, e.port);
      b in BackendsFor(c, e) <==>
        || (exists ip :: ip in c.localIps(e.service) && b == Backend(ip, t, "", t))
        || (c.deployment(e.service).Some? &&
            exists p :: p in c.peers && "rk-" + c.deployment(e.service).value + "-" <= p.pod
                        && b == Backend(HostOf(p.addr), MESH_PORT, p.pod, t))
  {
    hide ResolveTargetPort, HostOf;
    var t := ResolveTargetPort(c, e.service, e.port);
    var local := LocalBackends(c.localIps(e.service), t);
    if b in local {
      var i :| 0 <= i < |local| && local[i] == b;
      assert c.localIps(e.service)[i] in c.localIps(e.service);
    }
    if ip :| ip in c.localIps(e.service) && b == Backend(ip, t, "", t) {
      var i :| 0 <= i < |local| && c.localIps(e.service)[i] == ip;
      assert local[i] == b;
    }
    if c.deployment(e.service).Some? {
      RemoteBackendsAre(c.peers, "rk-" + c.deployment(e.service).value + "-", t, b);
    }
  }

  /** The port a rule's entry stands for: the target port of the service's first port with the
      rule's number; the rule's number itself if there is none or the service is unknown. */
  ghost predicate StandsFor(c: Cluster, e: PathEntry, target: u16)
  {
    match c.ports(e.service)
    case None => target == e.port
    case Some(ports) =>
      if forall i :: 0 <= i < |ports| ==> ports[i].port != e.port then target == e.port
      else exists i :: 0 <= i < |ports| && ports[i].port == e.port && target == ports[i].targetPort
                       && forall j :: 0 <= j < i ==> ports[j].port != e.port
  }

  lemma ResolvedPort(c: Cluster, e: PathEntry)
    ensures StandsFor(c, e, ResolveTargetPort(c, e.service, e.port))
  {
    if c.ports(e.service).Some? {
      var ports := c.ports(e.service).value;
      var i := FirstWith(ports, e.port);
      TargetPortIsFirstMatch(ports, e.port, i);
    }
  }

  lemma {:induction false} FirstWith(ports: seq<ServicePort>, port: u16) returns (i: nat)
    ensures i <= |ports| && (i < |ports| ==> ports[i].port == port)
    ensures forall j :: 0 <= j < i ==> ports[j].port != port
  {
    i := 0;
    while i < |ports| && ports[i].port != port
      invariant i <= |ports| && forall j :: 0 <= j < i ==> ports[j].port != port
    {
      i := i + 1;
    }
  }

  /** Every backend of every published route dials, or hands over, the port its entry stands
      for: a local pod directly, a pod on a peer through the mesh port. */
  lemma RoutesUseTargetPorts(c: Cluster, rules: seq<Rule>, r: Route, b: Backend)
    requires r in Routes(c, rules) && b in r.backends
    ensures exists rule, e :: rule in rules && e in rule.paths && r.host == rule.host && r.path == e.path
                              && StandsFor(c, e, b.podPort)
                              && ((b.port == b.podPort && b.pod == "" && b.ip in c.localIps(e.service))
                                  || (b.port == 6550 && exists p :: p in c.peers && p.pod == b.pod && b.ip == HostOf(p.addr)))
  {
    hide BackendsFor, Routes, ResolveTargetPort, StandsFor, HostOf;
    RoutesOrigin(c, rules, r);
    var rule, e :| rule in rules && e in rule.paths && r == RouteOf(c, rule, e) && r.backends != [];
    BackendsAre(c, e, b);
    ResolvedPort(c, e);
    assert r.host == rule.host && r.path == e.path && StandsFor(c, e, b.podPort);
  }

  /** The prefix of deployment `d` takes its own pods and those of every deployment whose name
      continues `d` with a dash, as "web-api" does "web". */
  lemma PrefixTakesPodsOf(d: string, d': string, i: nat)
    ensures "rk-" + d + "-" <= MeshRouting.PodName(d', i) <==> d' == d || d + "-" <= d'
  {
    var digits := Strings.Decimal(i);
    Strings.RadixRoundTrip(i, 10);
    assert forall k :: 0 <= k < |digits| ==> digits[k] != '-' by {
      forall k | 0 <= k < |digits|
        ensures digits[k] != '-'
      {
        assert Strings.DigitValue(digits[k], 10).Some?;
      }
    }
    hide Strings.Decimal;
    PrefixOf(d, d', digits);
    assert MeshRouting.PodName(d', i) == "rk-" + (d' + "-" + digits);
    assert "rk-" + d + "-" == "rk-" + (d + "-");
    SameFront("rk-", d + "-", d' + "-" + digits);
  }

  lemma SameFront(front: string, a: string, b: string)
    ensures front + a <= front + b <==> a <= b
  {
    if front + a <= front + b {
      assert a == (front + a)[|front|..] == (front + b)[|front|..|front| + |a|];
    }
  }

  lemma PrefixOf(d: string, d': string, digits: string)
    requires forall k :: 0 <= k < |digits| ==> digits[k] != '-'
    ensures d + "-" <= d' + "-" + digits <==> d' == d || d + "-" <= d'
  {
    var a, b := d + "-", d' + "-" + digits;
    assert |d'| < |d| < |b| ==> b[|d|] == digits[|d| - |d'| - 1] != '-';
    if a <= b {
      assert a[|d|] == b[|d|] == '-';
      assert forall k :: 0 <= k < |d| ==> d[k] == a[k] == b[k];
      if |d| < |d'| {
        assert a == b[..|d| + 1] == d'[..|d| + 1];
      } else {
        assert d == d';
      }
    }
  }

  lemma {:induction false} RemoteBackendsAre(peers: seq<PeerPod>, prefix: string, podPort: u16, b: Backend)
    ensures b in RemoteBackends(peers, prefix, podPort) <==>
              exists p :: p in peers && prefix <= p.pod && b == Backend(HostOf(p.addr), MESH_PORT, p.pod, podPort)
  {
    hide HostOf;
    if peers != [] {
      RemoteBackendsAre(peers[1..], prefix, podPort, b);
      assert forall p :: p in peers <==> p == peers[0] || p in peers[1..];
    }
  }

  /** The host of an address is what stands before its last colon. */
  lemma {:induction false} HostOfAddress(host: string, port: string)
    requires ':' !in port
    ensures HostOf(host + ":" + port) == host
  {
    var addr := host + ":" + port;
    assert addr[|host|] == ':';
    if port == "" {
      assert addr[..|host|] == host;
    } else {
      var short := host + ":" + port[..|port| - 1];
      assert addr[..|addr| - 1] == short;
      assert short[|host|] == ':';
      HostOfAddress(host, port[..|port| - 1]);
    }
  }

  /** Requests to one route with consecutive counter values reach each backend once. */
  lemma RequestsRotate(routes: seq<Route>, host: string, path: string, start: nat)
    requires PickRoute(routes, host, path).Some? && PickRoute(routes, host, path).value.backends != []
    ensures
      var bs := PickRoute(routes, host, path).value.backends;
      && (forall n :: start <= n < start + |bs| ==> SnapshotBackend(routes, host, path, n) == Some(Chosen(bs, n)))
      && multiset(Picks(bs, start)) == multiset(bs)
  {
    hide PickRoute;
    EachChosenOnce(PickRoute(routes, host, path).value.backends, start);
  }

  /** With two rules admitting the host the table may pick another entry: the live lookup
      stops at the first rule that has any match, the table takes the longest overall. */
  lemma TwoRulesMayDisagree()
    ensures exists c: Cluster, rules: seq<Rule>, host: string, path: string ::
              && LiveEntry(rules, host, path).Some?
              && PickRoute(Routes(c, rules), host, path).Some?
              && PickRoute(Routes(c, rules), host, path).value.path != LiveEntry(rules, host, path).value.path
  {
    hide Routes, PickRoute;
    var c := Cluster(_ => None, _ => ["10.0.0.1"], _ => None, []);
    var a, b := PathEntry("/", "web", 80), PathEntry("/api", "api", 80);
    var rules := [Rule("", [a]), Rule("", [b])];
    assert BackendsFor(c, b) != [] by { assert BackendsFor(c, b)[0].port == 80; }
    hide BackendsFor;
    assert BestPath([a], "/api") == Some(a) by { assert [a][..0] == []; }
    assert LiveEntry(rules, "h", "/api") == Some(a);
    TableYieldsLongest(c, rules, "h", "/api");
    assert rules[1] in rules && b in rules[1].paths;
    assert PickRoute(Routes(c, rules), "h", "/api").Some?;
    assert |b.path| <= |PickRoute(Routes(c, rules), "h", "/api").value.path|;
  }

  // ---- when table and live lookup agree, in general ----

  /** An entry the table can pick: its rule admits the host, its path matches, and it has a
      backend. */
  predicate Candidate(c: Cluster, rule: Rule, e: PathEntry, host: string, path: string)
  {
    HostAdmits(rule.host, host) && e.path <= path && BackendsFor(c, e) != []
  }

  /** Of every table and every live lookup: they choose the same path if and only if some
      candidate has the live path and none has a longer one. */
  lemma TableAgreesIff(c: Cluster, published: seq<Rule>, live: seq<Rule>, host: string, path: string)
    requires LiveEntry(live, host, path).Some?
    ensures
      var picked, e := PickRoute(Routes(c, published), host, path), LiveEntry(live, host, path).value;
      (picked.Some? && picked.value.path == e.path) <==>
      && (exists rule, x :: rule in published && x in rule.paths && Candidate(c, rule, x, host, path) && x.path == e.path)
      && (forall rule, x :: rule in published && x in rule.paths && Candidate(c, rule, x, host, path) ==>
            |x.path| <= |e.path|)
  {
    hide BackendsFor, Routes, PickRoute, LiveEntry;
    var picked, e := PickRoute(Routes(c, published), host, path), LiveEntry(live, host, path).value;
    TableYieldsLongest(c, published, host, path);
    LiveEntryMatches(live, host, path);
    if picked.Some? {
      RoutesOrigin(c, published, picked.value);
      var rule, x :| rule in published && x in rule.paths && picked.value == RouteOf(c, rule, x)
                     && picked.value.backends != [];
      assert Candidate(c, rule, x, host, path);
      SamePrefix(x.path, e.path, path);
    }
  }

  lemma {:induction false} LiveEntryMatches(rules: seq<Rule>, host: string, path: string)
    ensures LiveEntry(rules, host, path).Some? ==> LiveEntry(rules, host, path).value.path <= path
    ensures LiveEntry(rules, host, path).None? <==>
              forall rule, e :: rule in rules && e in rule.paths && HostAdmits(rule.host, host) ==> !(e.path <= path)
  {
    hide BestPath;
    if rules != [] {
      LiveEntryMatches(rules[1..], host, path);
      assert forall rule :: rule in rules <==> rule == rules[0] || rule in rules[1..];
    }
  }

  /** The first of the longest matching paths of a rule. */
  ghost predicate FirstLongest(paths: seq<PathEntry>, path: string, j: nat)
  {
    && j < |paths| && paths[j].path <= path
    && (forall k :: 0 <= k < |paths| && paths[k].path <= path ==> |paths[k].path| <= |paths[j].path|)
    && (forall k :: 0 <= k < j && paths[k].path <= path ==> |paths[k].path| < |paths[j].path|)
  }

  /** The last of the longest candidates of a rule. */
  ghost predicate LastLongest(c: Cluster, rule: Rule, host: string, path: string, j: nat)
  {
    && j < |rule.paths| && Candidate(c, rule, rule.paths[j], host, path)
    && (forall k :: 0 <= k < |rule.paths| && Candidate(c, rule, rule.paths[k], host, path) ==>
          |rule.paths[k].path| <= |rule.paths[j].path|)
    && (forall k :: j < k < |rule.paths| && Candidate(c, rule, rule.paths[k], host, path) ==>
          |rule.paths[k].path| < |rule.paths[j].path|)
  }

  lemma {:induction false} BestPathIsFirst(paths: seq<PathEntry>, path: string, j: nat)
    requires FirstLongest(paths, path, j)
    ensures BestPath(paths, path) == Some(paths[j])
  {
    var init := paths[..|paths| - 1];
    var best := BestPath(init, path);
    if j < |init| {
      BestPathIsFirst(init, path, j);
    } else if best.Some? {
      var k :| 0 <= k < |init| && init[k] == best.value;
      assert |paths[k].path| < |paths[j].path|;
    }
  }

  /** The live lookup stops at the first rule that admits the host and has a matching path. */
  lemma {:induction false} LiveFinds(rules: seq<Rule>, host: string, path: string, i: nat, j: nat)
    requires i < |rules| && HostAdmits(rules[i].host, host) && FirstLongest(rules[i].paths, path, j)
    requires forall h, e :: 0 <= h < i && HostAdmits(rules[h].host, host) && e in rules[h].paths ==> !(e.path <= path)
    ensures LiveEntry(rules, host, path) == Some(rules[i].paths[j])
  {
    hide FirstLongest, BestPath;
    if i == 0 {
      BestPathIsFirst(rules[0].paths, path, j);
    } else {
      assert rules[1..][i - 1] == rules[i];
      LiveFinds(rules[1..], host, path, i - 1, j);
    }
  }

  lemma {:induction false} PickOfPaths(c: Cluster, rule: Rule, host: string, path: string, n: nat, j: nat)
    requires n <= |rule.paths| && LastLongest(c, Rule(rule.host, rule.paths[..n]), host, path, j)
    ensures PickRoute(RoutesOfPaths(c, rule.host, rule.paths[..n]), host, path) == Some(RouteOf(c, rule, rule.paths[j]))
  {
    hide BackendsFor, PickRoute;
    var paths, e := rule.paths[..n], rule.paths[n - 1];
    var init := paths[..n - 1];
    assert init == rule.paths[..n - 1];
    var before := RoutesOfPaths(c, rule.host, init);
    if j < n - 1 {
      assert forall k :: 0 <= k < n - 1 ==> init[k] == paths[k];
      PickOfPaths(c, rule, host, path, n - 1, j);
    } else if PickRoute(before, host, path).Some? {
      PathRoutesOrigin(c, rule.host, init, PickRoute(before, host, path).value);
      var x :| x in init && PickRoute(before, host, path).value == Route(rule.host, x.path, BackendsFor(c, x))
               && BackendsFor(c, x) != [];
      var k :| 0 <= k < |init| && init[k] == x;
      assert paths[k] == x && Candidate(c, rule, x, host, path);
    }
    if BackendsFor(c, e) != [] {
      PickSnoc(before, RouteOf(c, rule, e), host, path);
    } else {
      assert before + [] == before;
    }
  }

  lemma PickSnoc(routes: seq<Route>, r: Route, host: string, path: string)
    ensures
      var before := PickRoute(routes, host, path);
      PickRoute(routes + [r], host, path) ==
      if Matches(r, host, path) && (before.None? || |r.path| >= |before.value.path|) then Some(r) else before
  {
    assert (routes + [r])[..|routes|] == routes;
  }

  /** One rule admits the host: the table picks the last longest entry with a backend, the
      live lookup the first longest entry.  They lead to the same route if and only if those
      have the same path and the same backends. */
  lemma OneRuleAgreesIff(c: Cluster, published: seq<Rule>, live: seq<Rule>, host: string, path: string, rule: Rule,
                         last: nat, first: nat)
    requires OnlyRule(published, host, rule) && OnlyRule(live, host, rule)
    requires LastLongest(c, rule, host, path, last) && FirstLongest(rule.paths, path, first)
    ensures PickRoute(Routes(c, published), host, path) == Some(RouteOf(c, rule, rule.paths[last]))
    ensures LiveEntry(live, host, path) == Some(rule.paths[first])
    ensures
      var t, l := rule.paths[last], rule.paths[first];
      RouteOf(c, rule, t) == RouteOf(c, rule, l) <==> t.path == l.path && BackendsFor(c, t) == BackendsFor(c, l)
  {
    hide BackendsFor, Routes, PickRoute, BestPath, LiveEntry, LastLongest, FirstLongest;
    var i :| 0 <= i < |live| && live[i] == rule
             && forall j :: 0 <= j < |live| && HostAdmits(live[j].host, host) ==> j == i;
    LiveUsesOnlyRule(live, host, path, rule, i);
    BestPathIsFirst(rule.paths, path, first);
    var p :| 0 <= p < |published| && published[p] == rule
             && forall j :: 0 <= j < |published| && HostAdmits(published[j].host, host) ==> j == p;
    assert rule.paths[..|rule.paths|] == rule.paths && Rule(rule.host, rule.paths) == rule;
    PickOfPaths(c, rule, host, path, |rule.paths|, last);
    PickUsesOnlyRule(c, published, host, path, rule, p);
  }

  lemma {:induction false} PickUsesOnlyRule(c: Cluster, rules: seq<Rule>, host: string, path: string, rule: Rule, i: nat)
    requires i < |rules| && rules[i] == rule && HostAdmits(rule.host, host)
    requires forall j :: 0 <= j < |rules| && HostAdmits(rules[j].host, host) ==> j == i
    ensures PickRoute(Routes(c, rules), host, path) == PickRoute(RoutesOfPaths(c, rule.host, rule.paths), host, path)
  {
    hide PickRoute, RoutesOfPaths;
    var init, end := rules[..|rules| - 1], rules[|rules| - 1];
    var mine := RoutesOfPaths(c, end.host, end.paths);
    if i < |init| {
      PickUsesOnlyRule(c, init, host, path, rule, i);
      ForeignRoutes(c, end, host, path, mine);
      PickAppendUnmatched(Routes(c, init), mine, host, path);
    } else {
      NoRoutesFromOthers(c, init, host, path);
      PickAfterUnmatched(Routes(c, init), mine, host, path);
    }
  }

  lemma ForeignRoutes(c: Cluster, rule: Rule, host: string, path: string, routes: seq<Route>)
    requires !HostAdmits(rule.host, host) && routes == RoutesOfPaths(c, rule.host, rule.paths)
    ensures forall r :: r in routes ==> !Matches(r, host, path)
  {
    forall r | r in routes
      ensures !Matches(r, host, path)
    {
      PathRoutesOrigin(c, rule.host, rule.paths, r);
    }
  }

  lemma NoRoutesFromOthers(c: Cluster, rules: seq<Rule>, host: string, path: string)
    requires forall j :: 0 <= j < |rules| ==> !HostAdmits(rules[j].host, host)
    ensures forall r :: r in Routes(c, rules) ==> !Matches(r, host, path)
  {
    forall r | r in Routes(c, rules)
      ensures !Matches(r, host, path)
    {
      RoutesOrigin(c, rules, r);
    }
  }

  lemma {:induction false} PickAppendUnmatched(a: seq<Route>, b: seq<Route>, host: string, path: string)
    requires forall r :: r in b ==> !Matches(r, host, path)
    ensures PickRoute(a + b, host, path) == PickRoute(a, host, path)
  {
    if b == [] {
      assert a + b == a;
    } else {
      var init := b[..|b| - 1];
      PickAppendUnmatched(a, init, host, path);
      PickSnoc(a + init, b[|b| - 1], host, path);
      assert a + init + [b[|b| - 1]] == a + b;
    }
  }

  lemma {:induction false} PickAfterUnmatched(a: seq<Route>, b: seq<Route>, host: string, path: string)
    requires forall r :: r in a ==> !Matches(r, host, path)
    ensures PickRoute(a + b, host, path) == PickRoute(b, host, path)
  {
    if b == [] {
      assert a + b == a;
    } else {
      var init := b[..|b| - 1];
      PickAfterUnmatched(a, init, host, path);
      PickSnoc(a + init, b[|b| - 1], host, path);
      PickSnoc(init, b[|b| - 1], host, path);
      assert a + init + [b[|b| - 1]] == a + b && init + [b[|b| - 1]] == b;
    }
  }

  /** The longest path of the only rule has no backend: the table falls back to a shorter one. */
  lemma MissingBackendDisagrees(c: Cluster, host: string, service: string, other: string)
    requires BackendsFor(c, PathEntry("/", service, 80)) != [] && BackendsFor(c, PathEntry("/api", other, 80)) == []
    ensures
      var rules := [Rule(host, [PathEntry("/", service, 80), PathEntry("/api", other, 80)])];
      var picked := PickRoute(Routes(c, rules), host, "/api");
      && picked.Some? && picked.value.path == "/"
      && LiveEntry(rules, host, "/api") == Some(PathEntry("/api", other, 80))
  {
    hide BackendsFor, Routes, PickRoute, BestPath, LiveEntry;
    var a, b := PathEntry("/", service, 80), PathEntry("/api", other, 80);
    var rule := Rule(host, [a, b]);
    assert rule.paths[0] == a && rule.paths[1] == b;
    assert LastLongest(c, rule, host, "/api", 0);
    assert FirstLongest(rule.paths, "/api", 1);
    assert [rule][0] == rule && OnlyRule([rule], host, rule);
    OneRuleAgreesIff(c, [rule], [rule], host, "/api", rule, 0, 1);
  }

  /** A path listed twice: the table takes the last, the live lookup the first. */
  lemma RepeatedPathDisagrees(c: Cluster, host: string, service: string, other: string)
    requires BackendsFor(c, PathEntry("/", service, 80)) != [] && BackendsFor(c, PathEntry("/", other, 80)) != []
    ensures
      var a, b := PathEntry("/", service, 80), PathEntry("/", other, 80);
      var rules := [Rule(host, [a, b])];
      PickRoute(Routes(c, rules), host, "/") == Some(RouteOf(c, rules[0], b)) && LiveEntry(rules, host, "/") == Some(a)
  {
    hide BackendsFor, Routes, PickRoute, BestPath, LiveEntry;
    var a, b := PathEntry("/", service, 80), PathEntry("/", other, 80);
    var rule := Rule(host, [a, b]);
    assert rule.paths[0] == a && rule.paths[1] == b;
    assert LastLongest(c, rule, host, "/", 1);
    assert FirstLongest(rule.paths, "/", 0);
    assert [rule][0] == rule && OnlyRule([rule], host, rule);
    OneRuleAgreesIff(c, [rule], [rule], host, "/", rule, 1, 0);
  }
}
