/**
 The mesh proxy from end to end: what a node does with a connection's first read, what the
 peer does with the forwarded stream, and the whole cross-node request composed of routing,
 hand-off headers, sealed frames, an arbitrary network and the peer's two-phase loop.

 The lookup of a container's address is a parameter.
 */
module MeshProxy {
  import opened Bytes
  import opened Strings
  import opened Framing
  import opened MeshStream
  import opened MeshRouting
  import opened ClusterTypes

  // ---- the Host header ----

  function StripHost(line: string): (r: Option<string>)
  {
    if |line| >= 5 && (line[..5] == "Host:" || line[..5] == "host:") then Some(line[5..]) else None
  }

  /** The host without its port; looks past the end of the headers, unlike the other readers. */
  function HostOf(lines: seq<string>): (host: string)
  {
    if lines == [] then ""
    else match StripHost(lines[0])
      case Some(v) => Split(Trim(v), ':')[0]
      case None => HostOf(lines[1..])
  }

  function PortOf(lines: seq<string>): (port: Option<u16>)
  {
    if lines == [] || lines[0] == "" then None
    else match StripHost(lines[0])
      case Some(v) =>
        var parts := Split(Trim(v), ':');
        if |parts| == 1 then None else FromStrRadix(parts[|parts| - 1], 10, U16)
      case None => PortOf(lines[1..])
  }

  /** `service.namespace.…`, or a bare service in the default namespace. */
  function ServiceOf(host: string): (service: string)
  {
    Split(host, '.')[0]
  }

  function NamespaceOf(host: string): (namespace: string)
  {
    var parts := Split(host, '.');
    if |parts| == 1 then "default" else parts[1]
  }

  /** `web.shop.svc.cluster.local:8080` names the service, its namespace and its port. */
  lemma HostNames(service: string, namespace: string, domain: seq<string>)
    requires forall part :: part in [service, namespace] + domain ==> '.' !in part
    ensures
      var host := Join([service, namespace] + domain, '.');
      ServiceOf(host) == service && NamespaceOf(host) == namespace
    ensures ServiceOf(service) == service && NamespaceOf(service) == "default"
  {
    var labels := [service, namespace] + domain;
    assert labels[0] == service && labels[1] == namespace;
    assert forall i :: 0 <= i < |labels| ==> labels[i] in labels;
    SplitJoin(labels, '.');
    SplitJoin([service], '.');
  }

  /** A line that is no Host header. */
  predicate NoHost(line: string)
  {
    !("Host:" <= line) && !("host:" <= line)
  }

  /** The first Host line decides, in either spelling and with any blanks around its value. */
  lemma {:induction false} FirstHostLine(before: seq<string>, line: string, v: string, after: seq<string>)
    requires forall i :: 0 <= i < |before| ==> NoHost(before[i])
    requires line == "Host:" + v || line == "host:" + v
    ensures HostOf(before + [line] + after) == HostOf([line])
    ensures (forall i :: 0 <= i < |before| ==> before[i] != "") ==> PortOf(before + [line] + after) == PortOf([line])
    ensures StripHost(line) == Some(v)
  {
    var lines := before + [line] + after;
    assert line[..5] == "Host:" || line[..5] == "host:";
    assert line[5..] == v;
    if before != [] {
      assert lines[0] == before[0] && lines[1..] == before[1..] + [line] + after;
      NotStripped(before[0]);
      FirstHostLine(before[1..], line, v, after);
    } else {
      assert lines[0] == line;
    }
  }

  /** So is every line that starts with another letter, as a request line does. */
  lemma OtherLinesAreNoHost(line: string)
    requires line != "" ==> line[0] != 'H' && line[0] != 'h'
    ensures NoHost(line)
  {
  }

  /** Without one there is no host and no port. */
  lemma {:induction false} NoHostLine(lines: seq<string>)
    requires forall i :: 0 <= i < |lines| ==> NoHost(lines[i])
    ensures HostOf(lines) == "" && PortOf(lines) == None
  {
    if lines != [] {
      NotStripped(lines[0]);
      NoHostLine(lines[1..]);
    }
  }

  lemma NotStripped(line: string)
    requires NoHost(line)
    ensures StripHost(line) == None
  {
    if |line| >= 5 {
      assert line[..5] == "Host:" ==> "Host:" <= line;
      assert line[..5] == "host:" ==> "host:" <= line;
    }
  }

  /** What a Host line says: a name, and a port behind a colon or none. */
  lemma HostLineSays(line: string, v: string, host: string, port: Option<u16>)
    requires line == "Host:" + v || line == "host:" + v
    requires ':' !in host && Trim(v) == (if port.Some? then host + ":" + Decimal(port.value) else host)
    ensures HostOf([line]) == host && PortOf([line]) == port
  {
    hide Trim;
    FirstHostLine([], line, v, []);
    if port.Some? {
      var d := Decimal(port.value);
      RadixRoundTrip(port.value, 10);
      DigitTextIsTrimmed(d, 10);
      ParseFormatted(port.value, 10, U16);
      hide Decimal;
      assert ':' !in d;
      var parts := [host, d];
      assert Join(parts, ':') == host + ":" + d by { assert parts[1..] == [d]; }
      SplitJoin(parts, ':');
    } else {
      assert Split(host, ':') == [host];
    }
  }

  /** The usual spelling, with one blank. */
  function HostLine(host: string, port: Option<u16>): (line: string)
  {
    "Host: " + if port.Some? then host + ":" + Decimal(port.value) else host
  }

  lemma UsualHostLine(host: string, port: Option<u16>)
    requires ':' !in host && Trimmed(host)
    ensures HostOf([HostLine(host, port)]) == host && PortOf([HostLine(host, port)]) == port
  {
    var text := if port.Some? then host + ":" + Decimal(port.value) else host;
    if port.Some? {
      var d := Decimal(port.value);
      RadixRoundTrip(port.value, 10);
      DigitTextIsTrimmed(d, 10);
      assert text[|text| - 1] == d[|d| - 1];
      assert host != "" ==> text[0] == host[0];
      assert host == "" ==> text[0] == ':';
    }
    TrimIsIdentity(text);
    hide Trim, Trimmed;
    assert HostLine(host, port) == "Host:" + (" " + text);
    HostLineSays(HostLine(host, port), " " + text, host, port);
  }

  // ---- a connection's first read ----

  datatype Route =
    | Empty
    | Serve(early: Text)
    | Dial(pod: string, ip: string, port: u16)
    | Forward(addr: string, pod: string, port: u16)
    | Refuse(status: nat)

  /** The address Docker reports for a pod, if it reports one. */
  type Lookup = string -> Option<string>

  /** The deployment's pod with number `i` is the lowest replica on no peer. */
  ghost predicate LowestLocal(w: World, node: string, peers: seq<PeerPod>, d: Deployment, pod: string, i: nat)
  {
    1 <= i <= d.replicas && pod == PodName(d.name, i)
    && !OnPeer(w, node, peers, pod) && RemoteBelow(w, node, peers, d.name, i)
  }

  /** What is to be done with a plaintext request: an explicit hand-off wins over the Host
      header; otherwise the router decides, and only a service all of whose replicas are on
      peers is forwarded. */
  ghost predicate RightRoute(u: Utf8, ip: Lookup, w: World, node: string, peers: seq<PeerPod>, raw: Octets, r: Route)
  {
    var head := u.decode(raw);
    var host := HostOf(Lines(head));
    match ParseHeader(head, POD)
    case Some(pod) => r == if Reachable(ip, pod) then Dial(pod, ip(pod).value, ParsePodPort(head)) else Refuse(502)
    case None => ServiceRoute(ip, w, node, peers, ServiceOf(host), NamespaceOf(host), PortOf(Lines(head)), r)
  }

  /** What is to be done with a request for a service, at the port it names if it names one. */
  ghost predicate ServiceRoute(ip: Lookup, w: World, node: string, peers: seq<PeerPod>,
                               service: string, namespace: string, named: Option<u16>, r: Route)
  {
    var backing := Backing(w, service, namespace);
    var target := ServiceTargetPort(w, service, namespace, named);
    if service == "" then r == Refuse(400)
    else if FindService(w.services, service, namespace).None? then r == Refuse(404)
    else if backing.None? || backing.value.replicas == 0 then r == Refuse(503)
    else
      var d := backing.value;
      match r
      case Forward(addr, pod, port) =>
        && port == target && pod == PodName(d.name, 1) && LivesAt(w, node, peers, pod, addr)
        && RemoteBelow(w, node, peers, d.name, d.replicas + 1)
      case _ =>
        exists pod, i :: LowestLocal(w, node, peers, d, pod, i)
                         && r == if ip(pod).Some? then Dial(pod, ip(pod).value, target) else Refuse(502)
  }

  /** A request without a hand-off whose Host header is `service.namespace:port` is for that
      service, namespace and port, whatever its other headers are. */
  lemma HostDecidesRoute(u: Utf8, ip: Lookup, w: World, node: string, peers: seq<PeerPod>, raw: Octets, r: Route,
                         before: seq<string>, after: seq<string>, service: string, namespace: string, port: Option<u16>)
    requires ParseHeader(u.decode(raw), POD) == None
    requires
      var host := Join([service, namespace], '.');
      && '.' !in service && '.' !in namespace && ':' !in host && Trimmed(host)
      && Lines(u.decode(raw)) == before + [HostLine(host, port)] + after
    requires forall i :: 0 <= i < |before| ==> NoHost(before[i]) && before[i] != ""
    ensures RightRoute(u, ip, w, node, peers, raw, r) <==>
            ServiceRoute(ip, w, node, peers, service, namespace, port, r)
  {
    hide Lines, ParseHeader, ServiceRoute, HostOf, PortOf, Join, Trimmed, Decimal;
    var host := Join([service, namespace], '.');
    UsualHostLine(host, port);
    var text := if port.Some? then host + ":" + Decimal(port.value) else host;
    assert HostLine(host, port) == "Host:" + (" " + text);
    FirstHostLine(before, HostLine(host, port), " " + text, after);
    HostNames(service, namespace, []);
    assert [service, namespace] + [] == [service, namespace];
  }

  /** Such a request: its request line, then the Host header, then anything. */
  lemma HostAfterRequestLine(requestLine: string, host: string, port: Option<u16>, rest: string)
    requires '\n' !in requestLine && '\n' !in host
    ensures Lines(requestLine + "\r\n" + (HostLine(host, port) + "\r\n" + rest)) ==
            [requestLine] + [HostLine(host, port)] + Lines(rest)
  {
    HostLineIsOneLine(host, port);
    hide Lines, HostLine;
    TwoLines(requestLine, HostLine(host, port), rest);
  }

  lemma HostLineIsOneLine(host: string, port: Option<u16>)
    requires '\n' !in host
    ensures '\n' !in HostLine(host, port)
  {
    if port.Some? {
      RadixRoundTrip(port.value, 10);
      DigitTextIsTrimmed(Decimal(port.value), 10);
    }
  }

  lemma TwoLines(a: string, b: string, rest: string)
    requires '\n' !in a && '\n' !in b
    ensures Lines(a + "\r\n" + (b + "\r\n" + rest)) == [a] + [b] + Lines(rest)
  {
    hide Lines;
    OneLine(a);
    OneLine(b);
    LinesAppend(b + "\r\n", rest);
    LinesAppend(a + "\r\n", b + "\r\n" + rest);
    Assoc([a], [b], Lines(rest));
  }

  /** The test on a handed-off pod; an empty address counts as none here, and only here. */
  predicate Reachable(ip: Lookup, pod: string)
  {
    ip(pod).Some? && ip(pod).value != ""
  }

  lemma MagicIs()
    ensures AsText(MAGIC) == "RKMESHc1"
  {
  }

  /** The magic marks an encrypted peer connection; anything else is a plaintext request. */
  method HandleConn(u: Utf8, ip: Lookup, w: World, node: string, peers: seq<PeerPod>, raw: Octets) returns (r: Route)
    ensures r == Empty <==> raw == []
    ensures r.Serve? <==> MAGIC <= raw
    ensures r.Serve? ==> raw == MAGIC + r.early
    ensures raw != [] && !r.Serve? ==> RightRoute(u, ip, w, node, peers, raw, r)
    ensures r.Forward? ==> r.port != 0 && Trimmed(r.pod)
  {
    hide Lines, HostOf, PortOf, ServiceOf, NamespaceOf, ParsePodPort, ServiceTargetPort, Backing, FindService,
         PodName, LivesAt, RemoteBelow, OnPeer, Trimmed;
    if raw == [] { return Empty; }
    if |raw| >= |MAGIC| && raw[..|MAGIC|] == MAGIC { return Serve(raw[|MAGIC|..]); }
    var head := u.decode(raw);
    var explicit := ParseHeaderLoop(head, POD);
    if explicit.Some? {
      var found := ip(explicit.value);
      return if found.Some? && found.value != ""
        then Dial(explicit.value, found.value, ParsePodPort(head)) else Refuse(502);
    }
    var host := HostOf(Lines(head));
    var service, namespace := ServiceOf(host), NamespaceOf(host);
    if service == "" { return Refuse(400); }
    var endpoint := Resolve(w, node, peers, service, namespace);
    var port := ServiceTargetPort(w, service, namespace, PortOf(Lines(head)));
    match endpoint {
      case Local(pod) =>
        ghost var d := Backing(w, service, namespace).value;
        ghost var i :| 1 <= i <= d.replicas && pod == PodName(d.name, i)
                       && !OnPeer(w, node, peers, pod) && RemoteBelow(w, node, peers, d.name, i);
        assert LowestLocal(w, node, peers, d, pod, i);
        r := if ip(pod).Some? then Dial(pod, ip(pod).value, port) else Refuse(502);
      case Remote(addr, pod) =>
        PodNameIsTrimmed(Backing(w, service, namespace).value.name, 1);
        r := Forward(addr, pod, port);
      case NoBackend => r := Refuse(503);
      case Unknown => r := Refuse(404);
    }
  }

  // ---- the peer ----

  /** Enough has been decrypted to resolve the request. */
  predicate HeadDone(u: Utf8, plain: Octets)
  {
    HostOf(Lines(u.decode(plain))) != "" && Find(plain, CRLFCRLF).Some?
  }

  datatype Target = Target(pod: string, ip: string, port: u16)

  /** The pod a peer dials: the handed-off one, else replica 1 of the service's deployment,
      since a peer resolves without a census. */
  function TargetOf(u: Utf8, ip: Lookup, w: World, plain: Octets): (r: Option<Target>)
  {
    var head := u.decode(plain);
    var host := HostOf(Lines(head));
    var service, namespace := ServiceOf(host), NamespaceOf(host);
    var backing := Backing(w, service, namespace);
    match ParseHeader(head, POD)
    case Some(pod) => if Reachable(ip, pod) then Some(Target(pod, ip(pod).value, ParsePodPort(head))) else None
    case None =>
      if backing.None? || backing.value.replicas == 0 then None
      else
        var pod := PodName(backing.value.name, 1);
        if ip(pod).None? then None
        else Some(Target(pod, ip(pod).value, ServiceTargetPort(w, service, namespace, PortOf(Lines(head)))))
  }

  method PeerTarget(u: Utf8, ip: Lookup, w: World, node: string, plain: Octets) returns (r: Option<Target>)
    ensures r == TargetOf(u, ip, w, plain)
  {
    hide Lines, HostOf, PortOf, ServiceOf, NamespaceOf, ParsePodPort, ServiceTargetPort, FindService, PodName;
    var head := u.decode(plain);
    var explicit := ParseHeaderLoop(head, POD);
    if explicit.Some? {
      var found := ip(explicit.value);
      if found.Some? && found.value != "" {
        return Some(Target(explicit.value, found.value, ParsePodPort(head)));
      }
      return None;
    }
    var host := HostOf(Lines(head));
    var service, namespace := ServiceOf(host), NamespaceOf(host);
    var endpoint := Resolve(w, node, [], service, namespace);
    var port := ServiceTargetPort(w, service, namespace, PortOf(Lines(head)));
    NoPeers(w, node);
    if endpoint.Local? && ip(endpoint.pod).Some? {
      r := Some(Target(endpoint.pod, ip(endpoint.pod).value, port));
    } else {
      r := None;
    }
  }

  lemma NoPeers(w: World, node: string)
    ensures forall pod :: !OnPeer(w, node, [], pod)
  {
  }

  datatype Served = Served(target: Target, toPod: Octets)

  /** Phase one may stop after `frames` frames: the head is complete or the stream is over. */
  ghost predicate HeadPhase(u: Utf8, items: seq<Text>, frames: nat)
  {
    frames <= |items| && var plain := Flatten(items[..frames]); HeadDone(u, plain) || plain == Flatten(items)
  }

  /** Having decrypted `frames` of the frames `items`, the peer picks the pod, or refuses, and
      the pod receives them all. */
  ghost predicate ServedAfter(u: Utf8, ip: Lookup, w: World, items: seq<Text>, frames: nat, served: Option<Served>)
  {
    HeadPhase(u, items, frames) &&
    match TargetOf(u, ip, w, Flatten(items[..frames]))
    case None => served == None
    case Some(target) => served == Some(Served(target, Flatten(items)))
  }

  /** An accepted peer connection: decrypt until the head is complete, pick the pod by it,
      and send the pod every byte the stream holds. */
  method ServeConn(u: Utf8, ip: Lookup, a: Aead, key: Key, w: World, node: string, early: Text, segments: seq<Text>)
    returns (served: Option<Served>)
    ensures exists frames ::
              ServedAfter(u, ip, w, Drain(Opener(a, key), early + Flatten(segments)).items, frames, served)
  {
    hide HeadDone, TargetOf;
    var head, toPod, n := ServePeer(a, key, early, segments, plain => HeadDone(u, plain));
    var target := PeerTarget(u, ip, w, node, head);
    served := if target.None? then None else Some(Served(target.value, toPod));
    assert ServedAfter(u, ip, w, Drain(Opener(a, key), early + Flatten(segments)).items, n, served);
  }

  /** Unless the stream is over, phase one stops only when the host is known and the blank
      line that ends the headers is there. */
  lemma PhaseOneKnowsHost(u: Utf8, items: seq<Text>, frames: nat)
    requires HeadPhase(u, items, frames)
    ensures
      var plain := Flatten(items[..frames]);
      plain == Flatten(items) || (HostOf(Lines(u.decode(plain))) != "" && exists i :: OccursAt(plain, CRLFCRLF, i))
  {
    hide HostOf, Lines;
  }

  lemma NotDoneBeforeHead(u: Utf8)
    ensures !HeadDone(u, [])
  {
    hide HostOf, Lines;
  }

  /** Phase one never stops before the frame that carries the head. */
  lemma HeadFrameIsRead(u: Utf8, framed: Octets, clientReads: seq<Text>, frames: nat)
    requires framed != [] && HeadPhase(u, [framed] + clientReads, frames)
    ensures 0 < frames <= |clientReads| + 1
    ensures Flatten(([framed] + clientReads)[..frames]) == framed + Flatten(clientReads[..frames - 1])
  {
    hide HeadDone;
    var items := [framed] + clientReads;
    assert items[0] == framed && items[1..] == clientReads;
    NotDoneBeforeHead(u);
    assert Flatten(items[..0]) == [];
    assert items[..frames][1..] == clientReads[..frames - 1];
  }

  lemma InjectedIsNotEmpty(u: Utf8, raw: Octets, pod: string, port: u16)
    requires Lawful(u)
    ensures InjectHandoff(u, raw, pod, port) != []
  {
    hide PodLine, PortLine, Find;
    var s := Handoff(pod, port);
    assert s[|s| - 1] == '\n';
    assert EndsInLf(u.encode(s));
  }

  /** However much of the stream was decrypted first, the peer's choice is the handed-off pod. */
  lemma HandoffIsTarget(u: Utf8, ip: Lookup, w: World, raw: Octets, pod: string, port: u16, clientReads: seq<Text>, frames: nat,
                        served: Option<Served>)
    requires Lawful(u) && HeaderSafe(pod) && port != 0 && HandoffSurvives(u, raw, pod, port)
    requires ServedAfter(u, ip, w, [InjectHandoff(u, raw, pod, port)] + clientReads, frames, served)
    ensures served == if Reachable(ip, pod)
                      then Some(Served(Target(pod, ip(pod).value, port),
                                       InjectHandoff(u, raw, pod, port) + Flatten(clientReads)))
                      else None
  {
    hide Lines, HostOf, PortOf, InjectHandoff, ParseHeader, ParsePodPort, Backing, ServiceTargetPort, HeaderSafe,
         HandoffSurvives, HeadPhase, Lawful;
    var framed := InjectHandoff(u, raw, pod, port);
    InjectedIsNotEmpty(u, raw, pod, port);
    HeadFrameIsRead(u, framed, clientReads, frames);
    HandoffArrivesIff(u, raw, pod, port, Flatten(clientReads[..frames - 1]));
    assert ([framed] + clientReads)[1..] == clientReads;
  }

  // ---- the whole hop ----

  /** A network may cut what it carries anywhere, but neither loses nor reorders. */
  ghost predicate Faithful(network: Text -> seq<Text>)
  {
    forall wire :: Flatten(network(wire)) == wire
  }

  function Wire(a: Aead, key: Key, head: Octets, clientReads: seq<Text>, nonces: seq<Text>): (wire: Text)
    requires |nonces| == |clientReads| + 1
  {
    MAGIC + Flatten(SealAll(a, key, [head] + clientReads, nonces))
  }

  /** One cross-node request, sender to pod.  Whatever pod and port the sender's router
      chose, whatever the client wrote after its request line and however the network cut the
      sealed stream, the peer dials that pod on that port and the pod receives exactly the
      framed head and the client's later bytes, if the first read holds the magic and the
      peer finds the pod's container. */
  method CrossNodeRequest(u: Utf8, a: Aead, key: Key, ip: Lookup, w: World, node: string, peers: seq<PeerPod>, raw: Octets,
                          clientReads: seq<Text>, nonces: seq<Text>, network: Text -> seq<Text>,
                          ip': Lookup, w': World, node': string)
    returns (route: Route, served: Option<Served>)
    requires Lawful(u) && Correct(a) && Faithful(network) && |nonces| == |clientReads| + 1
    ensures raw != [] && !(MAGIC <= raw) ==> RightRoute(u, ip, w, node, peers, raw, route)
    ensures !route.Forward? ==> served.None?
    ensures route.Forward? && HandoffSurvives(u, raw, route.pod, route.port) && '\n' !in route.pod ==>
              var framed := InjectHandoff(u, raw, route.pod, route.port);
              var cuts := network(Wire(a, key, framed, clientReads, nonces));
              AllFit(a, key, [framed] + clientReads, nonces) ==>
              served == if cuts != [] && |cuts[0]| >= |MAGIC| && Reachable(ip', route.pod)
                        then Some(Served(Target(route.pod, ip'(route.pod).value, route.port),
                                         framed + Flatten(clientReads)))
                        else None
  {
    hide Lawful, Correct, HandoffSurvives, InjectHandoff, AllFit, SealAll, Trimmed, Opener, Drain, RightRoute, ServedAfter;
    route := HandleConn(u, ip, w, node, peers, raw);
    served := None;
    if !route.Forward? { return; }
    var framed := InjectHandoff(u, raw, route.pod, route.port);
    var cuts := network(Wire(a, key, framed, clientReads, nonces));
    ghost var frameBytes := Flatten(SealAll(a, key, [framed] + clientReads, nonces));
    served := AcceptPeer(u, ip', a, key, w', node', cuts, frameBytes);
    if AllFit(a, key, [framed] + clientReads, nonces) && HandoffSurvives(u, raw, route.pod, route.port)
       && '\n' !in route.pod && |cuts[0]| >= |MAGIC| {
      ghost var frames :| ServedAfter(u, ip', w', Drain(Opener(a, key), frameBytes).items, frames, served);
      HopDelivers(u, ip', a, key, w', raw, route.pod, route.port, clientReads, nonces, frames, served);
    }
  }

  /** The peer's end of a connection that carries the magic and then `wire`. */
  method AcceptPeer(u: Utf8, ip: Lookup, a: Aead, key: Key, w: World, node: string, cuts: seq<Text>, ghost wire: Text)
    returns (served: Option<Served>)
    requires Flatten(cuts) == MAGIC + wire
    ensures cuts != []
    ensures |cuts[0]| < |MAGIC| ==> served.None?
    ensures |cuts[0]| >= |MAGIC| ==> exists frames :: ServedAfter(u, ip, w, Drain(Opener(a, key), wire).items, frames, served)
  {
    hide ServedAfter, RightRoute;
    served := None;
    var accepted := HandleConn(u, ip, w, node, [], cuts[0]);
    if |cuts[0]| >= |MAGIC| {
      MagicFirst(cuts[0], Flatten(cuts[1..]), wire);
    }
    if accepted.Serve? {
      assert accepted.early == cuts[0][|MAGIC|..];
      served := ServeConn(u, ip, a, key, w, node, accepted.early, cuts[1..]);
    }
  }

  lemma MagicFirst(first: Text, rest: Text, wire: Text)
    requires first + rest == MAGIC + wire && |first| >= |MAGIC|
    ensures MAGIC <= first && first[|MAGIC|..] + rest == wire
  {
    assert first[..|MAGIC|] == (first + rest)[..|MAGIC|];
    assert first[|MAGIC|..] + rest == (first + rest)[|MAGIC|..];
  }

  lemma HopDelivers(u: Utf8, ip: Lookup, a: Aead, key: Key, w: World, raw: Octets, pod: string, port: u16, clientReads: seq<Text>,
                    nonces: seq<Text>, frames: nat, served: Option<Served>)
    requires Lawful(u) && Correct(a) && HeaderSafe(pod) && port != 0 && HandoffSurvives(u, raw, pod, port)
    requires AllFit(a, key, [InjectHandoff(u, raw, pod, port)] + clientReads, nonces)
    requires
      var wire := Flatten(SealAll(a, key, [InjectHandoff(u, raw, pod, port)] + clientReads, nonces));
      ServedAfter(u, ip, w, Drain(Opener(a, key), wire).items, frames, served)
    ensures served == if Reachable(ip, pod)
                      then Some(Served(Target(pod, ip(pod).value, port),
                                       InjectHandoff(u, raw, pod, port) + Flatten(clientReads)))
                      else None
  {
    hide Lawful, HandoffSurvives, InjectHandoff, ServedAfter, HeaderSafe;
    var chunks := [InjectHandoff(u, raw, pod, port)] + clientReads;
    var wire := Flatten(SealAll(a, key, chunks, nonces));
    DrainSealed(a, key, chunks, nonces, []);
    assert wire + [] == wire && chunks + [] == chunks;
    HandoffIsTarget(u, ip, w, raw, pod, port, clientReads, frames, served);
  }
}
