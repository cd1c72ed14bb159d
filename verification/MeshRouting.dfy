/**
 Cross-node routing: which pod serves a request, and the two headers that tell the peer
 which pod and port were chosen.

 Requests are bytes; a peer reads headers from their lossily decoded text.  Hash-map values
 come as a sequence, in whatever order the map iterates.
 */
module MeshRouting {
  import opened Bytes
  import opened Strings
  import opened ClusterTypes

  // ---- the world, as far as routing looks at it ----

  datatype Service = Service(name: string, namespace: string, selector: map<string, string>, ports: seq<ServicePort>)
  datatype Deployment = Deployment(name: string, namespace: string, replicas: nat)
  datatype World = World(services: seq<Service>, deployments: seq<Deployment>, addresses: map<string, string>)

  datatype Endpoint =
    | Local(pod: string)
    | Remote(addr: string, pod: string)
    | NoBackend
    | Unknown

  function FindService(ss: seq<Service>, name: string, namespace: string): (r: Option<Service>)
    ensures r.Some? ==> r.value in ss && r.value.name == name && r.value.namespace == namespace
    ensures r.None? ==> forall s :: s in ss ==> s.name != name || s.namespace != namespace
  {
    if ss == [] then None
    else if ss[0].name == name && ss[0].namespace == namespace then Some(ss[0])
    else FindService(ss[1..], name, namespace)
  }

  function FindDeployment(ds: seq<Deployment>, name: string, namespace: string): (r: Option<Deployment>)
    ensures r.Some? ==> r.value in ds && r.value.name == name && r.value.namespace == namespace
    ensures r.None? ==> forall d :: d in ds ==> d.name != name || d.namespace != namespace
  {
    if ds == [] then None
    else if ds[0].name == name && ds[0].namespace == namespace then Some(ds[0])
    else FindDeployment(ds[1..], name, namespace)
  }

  /** The deployment behind a service: by its `app` selector, in its namespace. */
  function Backing(w: World, service: string, namespace: string): (r: Option<Deployment>)
  {
    var svc := FindService(w.services, service, namespace);
    if svc.None? || "app" !in svc.value.selector then None
    else FindDeployment(w.deployments, svc.value.selector["app"], namespace)
  }

  function PodName(deployment: string, i: nat): (pod: string)
  {
    "rk-" + deployment + "-" + Decimal(i)
  }

  /** The pod lives at `addr`, an address in the census other than our own. */
  predicate LivesAt(w: World, localNode: string, peers: seq<PeerPod>, pod: string, addr: string)
  {
    PeerPod(addr, pod) in peers && (localNode in w.addresses ==> addr != w.addresses[localNode])
  }

  /** First census entry for the pod that is not ourselves; none means the pod is local. */
  function LookupPodNode(w: World, localNode: string, peers: seq<PeerPod>, pod: string): (r: Option<string>)
    ensures r.Some? ==> LivesAt(w, localNode, peers, pod, r.value)
    ensures r.None? ==> forall addr :: !LivesAt(w, localNode, peers, pod, addr)
  {
    if peers == [] then None
    else
      assert forall addr :: LivesAt(w, localNode, peers, pod, addr) ==>
               PeerPod(addr, pod) == peers[0] || LivesAt(w, localNode, peers[1..], pod, addr);
      if peers[0].pod == pod && (localNode in w.addresses ==> peers[0].addr != w.addresses[localNode])
      then Some(peers[0].addr)
      else LookupPodNode(w, localNode, peers[1..], pod)
  }

  ghost predicate OnPeer(w: World, localNode: string, peers: seq<PeerPod>, pod: string)
  {
    exists addr :: LivesAt(w, localNode, peers, pod, addr)
  }

  /** Every replica below `n` lives on a peer. */
  ghost predicate RemoteBelow(w: World, localNode: string, peers: seq<PeerPod>, deployment: string, n: nat)
  {
    forall i :: 1 <= i < n ==> OnPeer(w, localNode, peers, PodName(deployment, i))
  }

  /** Local exactly for the lowest replica that is on no peer; Remote exactly when every
      replica is on a peer, and then for the first replica at a census address that is not
      our own. */
  method Resolve(w: World, localNode: string, peers: seq<PeerPod>, service: string, namespace: string)
    returns (r: Endpoint)
    ensures r == Unknown <==> FindService(w.services, service, namespace).None?
    ensures
      var d := Backing(w, service, namespace);
      r == NoBackend <==> r != Unknown && (d.None? || d.value.replicas == 0)
    ensures r.Local? || r.Remote? ==> Backing(w, service, namespace).Some?
    ensures r.Local? ==>
              var d := Backing(w, service, namespace).value;
              exists i :: 1 <= i <= d.replicas && r.pod == PodName(d.name, i)
                          && !OnPeer(w, localNode, peers, r.pod)
                          && RemoteBelow(w, localNode, peers, d.name, i)
    ensures r.Remote? ==>
              var d := Backing(w, service, namespace).value;
              && r.pod == PodName(d.name, 1) && LivesAt(w, localNode, peers, r.pod, r.addr)
              && RemoteBelow(w, localNode, peers, d.name, d.replicas + 1)
  {
    hide PodName, LivesAt;
    var svc := FindService(w.services, service, namespace);
    if svc.None? { return Unknown; }
    if "app" !in svc.value.selector { return NoBackend; }
    var deployment := FindDeployment(w.deployments, svc.value.selector["app"], namespace);
    if deployment.None? { return NoBackend; }
    var d := deployment.value;
    if d.replicas == 0 { return NoBackend; }
    var remote: Option<PeerPod> := None;
    var i := 1;
    while i <= d.replicas
      invariant 1 <= i <= d.replicas + 1
      invariant RemoteBelow(w, localNode, peers, d.name, i)
      invariant remote.None? <==> i == 1
      invariant remote.Some? ==> remote.value.pod == PodName(d.name, 1)
                                 && LivesAt(w, localNode, peers, remote.value.pod, remote.value.addr)
    {
      var pod := PodName(d.name, i);
      var at := LookupPodNode(w, localNode, peers, pod);
      if at.None? {
        return Local(pod);
      }
      assert OnPeer(w, localNode, peers, pod);
      if remote.None? {
        remote := Some(PeerPod(at.value, pod));
      }
      i := i + 1;
    }
    r := Remote(remote.value.addr, remote.value.pod);
  }

  /** The port to dial: the service port the client named, else the first one. */
  function ServiceTargetPort(w: World, service: string, namespace: string, port: Option<u16>): (r: u16)
    ensures r != 0
  {
    var svc := FindService(w.services, service, namespace);
    if svc.None? then 80
    else
      var named := if port.Some? then FindPort(svc.value.ports, port.value) else None;
      var chosen := if named.Some? then named else if svc.value.ports != [] then Some(svc.value.ports[0]) else None;
      if chosen.Some? && chosen.value.targetPort != 0 then chosen.value.targetPort else 80
  }

  function FindPort(ps: seq<ServicePort>, port: u16): (r: Option<ServicePort>)
  {
    if ps == [] then None else if ps[0].port == port then Some(ps[0]) else FindPort(ps[1..], port)
  }

  /** For a known service: the first port with the number the client named, or the first
      port if none has it, decides; a target port of zero, like no port, means 80. */
  lemma TargetPortChoice(w: World, service: string, namespace: string, port: Option<u16>, i: nat)
    requires FindService(w.services, service, namespace).Some?
    requires
      var ports := FindService(w.services, service, namespace).value.ports;
      i < |ports| &&
      if port.Some? && exists j :: 0 <= j < |ports| && ports[j].port == port.value
      then ports[i].port == port.value && forall j :: 0 <= j < i ==> ports[j].port != port.value
      else i == 0
    ensures
      var target := FindService(w.services, service, namespace).value.ports[i].targetPort;
      ServiceTargetPort(w, service, namespace, port) == if target != 0 then target else 80
  {
    hide FindService;
    var ports := FindService(w.services, service, namespace).value.ports;
    if port.Some? {
      FirstPort(ports, port.value);
    }
  }

  /** An unknown service, or one without ports, means 80. */
  lemma TargetPortByDefault(w: World, service: string, namespace: string, port: Option<u16>)
    requires
      var svc := FindService(w.services, service, namespace);
      svc.None? || svc.value.ports == []
    ensures ServiceTargetPort(w, service, namespace, port) == 80
  {
  }

  lemma {:induction false} FirstPort(ps: seq<ServicePort>, port: u16)
    ensures FindPort(ps, port).None? <==> forall j :: 0 <= j < |ps| ==> ps[j].port != port
    ensures forall i :: 0 <= i < |ps| && ps[i].port == port && (forall j :: 0 <= j < i ==> ps[j].port != port) ==>
              FindPort(ps, port) == Some(ps[i])
  {
    if ps != [] {
      FirstPort(ps[1..], port);
      assert forall j :: 0 < j < |ps| ==> ps[j] == ps[1..][j - 1];
    }
  }

  // ---- reading headers ----

  /** `str::lines`: a line ends at LF, and a CR right before it belongs to the line end. */
  function Lines(s: string): (r: seq<string>)
    decreases |s|
  {
    if s == "" then []
    else match IndexOf(s, '\n')
      case None => [s]
      case Some(i) => [DropCr(s[..i])] + Lines(s[i + 1..])
  }

  function DropCr(line: string): (r: string)
  {
    if line != "" && line[|line| - 1] == '\r' then line[..|line| - 1] else line
  }

  /** The header's value if the line is that header, in any letter case. */
  function HeaderValue(line: string, name: string): (r: Option<string>)
  {
    match IndexOf(line, ':')
    case None => None
    case Some(i) => if Lower(Trim(line[..i])) == Lower(name) then Some(Trim(line[i + 1..])) else None
  }

  datatype Scan = Found(value: string) | HeadersEnd | NotFound

  function ScanLines(lines: seq<string>, name: string): (r: Scan)
  {
    if lines == [] then NotFound
    else if lines[0] == "" then HeadersEnd
    else match HeaderValue(lines[0], name)
      case Some(v) => Found(v)
      case None => ScanLines(lines[1..], name)
  }

  function ParseHeader(head: string, name: string): (r: Option<string>)
  {
    match ScanLines(Lines(head), name)
    case Found(v) => Some(v)
    case _ => None
  }

  method ParseHeaderLoop(head: string, name: string) returns (r: Option<string>)
    ensures r == ParseHeader(head, name)
  {
    hide HeaderValue;
    var lines := Lines(head);
    for i := 0 to |lines|
      invariant ScanLines(lines, name) == ScanLines(lines[i..], name)
    {
      if lines[i] == "" { return None; }
      var v := HeaderValue(lines[i], name);
      if v.Some? { return v; }
      assert lines[i..][1..] == lines[i + 1..];
    }
    assert lines[|lines|..] == [];
    r := None;
  }

  const POD := "x-royak-pod"
  const PORT := "x-royak-port"

  function PortOr80(value: Option<string>): (port: u16)
    ensures port != 0
  {
    match value
    case None => 80
    case Some(v) =>
      match FromStrRadix(Trim(v), 10, U16)
      case Some(p) => if p != 0 then p else 80
      case None => 80
  }

  /** The header's number, blanks around it aside, if it is one from 1 to 65535; 80 if the
      header is missing, zero, too large or no number. */
  lemma PortOr80Is(value: Option<string>)
    ensures
      var n := if value.Some? then FromStrRadix(Trim(value.value), 10, 65536) else None;
      if n.Some? && n.value != 0 then PortOr80(value) == n.value else PortOr80(value) == 80
  {
  }

  function ParsePodPort(head: string): (port: u16)
    ensures port != 0
  {
    PortOr80(ParseHeader(head, PORT))
  }

  // ---- the hand-off ----

  function PodLine(pod: string): string { "X-Royak-Pod: " + pod }
  function PortLine(port: u16): string { "X-Royak-Port: " + Decimal(port) }

  function Handoff(pod: string, port: u16): (s: string)
  {
    PodLine(pod) + "\r\n" + PortLine(port) + "\r\n"
  }

  /** A pod name that survives a header: no line break and no blanks around it. */
  predicate HeaderSafe(pod: string)
  {
    Trimmed(pod) && '\n' !in pod
  }

  lemma PodNameIsTrimmed(deployment: string, i: nat)
    ensures Trimmed(PodName(deployment, i))
  {
    var d := Decimal(i);
    RadixRoundTrip(i, 10);
    DigitTextIsTrimmed(d, 10);
    var pod := PodName(deployment, i);
    assert pod[0] == 'r';
    assert pod[|pod| - 1] == d[|d| - 1];
  }

  lemma PodNameIsHeaderSafe(deployment: string, i: nat)
    ensures HeaderSafe(PodName(deployment, i)) <==> '\n' !in deployment
  {
    hide Trimmed;
    PodNameIsTrimmed(deployment, i);
    RadixRoundTrip(i, 10);
    var d, pod := Decimal(i), PodName(deployment, i);
    DigitTextIsTrimmed(d, 10);
    assert forall k :: 0 <= k < |d| ==> d[k] != '\n';
    assert pod == "rk-" + deployment + "-" + d;
    assert '\n' in pod <==> '\n' in deployment;
  }

  lemma FirstLine(s: string, i: nat)
    requires i < |s| && s[i] == '\n' && forall j :: 0 <= j < i ==> s[j] != '\n'
    ensures Lines(s) == [DropCr(s[..i])] + Lines(s[i + 1..])
  {
    IndexOfIs(s, '\n', i);
    hide IndexOf, DropCr;
  }

  lemma {:induction false} LinesAppend(head: string, rest: string)
    requires head != "" && head[|head| - 1] == '\n'
    ensures Lines(head + rest) == Lines(head) + Lines(rest)
    decreases |head|
  {
    hide Lines, DropCr, IndexOf;
    var s := head + rest;
    assert head[|head| - 1] in head;
    var i := IndexOf(head, '\n').value;
    var line, tail := head[..i], head[i + 1..];
    FirstLine(head, i);
    FirstLine(s, i);
    assert s[..i] == line && s[i + 1..] == tail + rest;
    if tail != "" {
      LinesAppend(tail, rest);
      Assoc([DropCr(line)], Lines(tail), Lines(rest));
    } else {
      NoLines();
      assert tail + rest == rest;
    }
  }

  lemma NoLines()
    ensures Lines("") == []
  {
  }

  lemma OneLine(line: string)
    requires '\n' !in line
    ensures Lines(line + "\r\n") == [line]
  {
    var s := line + "\r\n";
    assert forall j :: 0 <= j < |line| ==> s[j] == line[j] && line[j] in line;
    IndexOfIs(s, '\n', |line| + 1);
    assert s[..|line| + 1] == line + "\r";
    assert s[|line| + 2..] == "";
    assert (line + "\r")[..|line|] == line;
  }

  lemma {:induction false} ScanAppend(a: seq<string>, b: seq<string>, name: string)
    ensures ScanLines(a + b, name) ==
            if ScanLines(a, name).NotFound? then ScanLines(b, name) else ScanLines(a, name)
  {
    hide HeaderValue;
    if a == [] {
      assert a + b == b;
    } else {
      assert (a + b)[0] == a[0] && (a + b)[1..] == a[1..] + b;
      ScanAppend(a[1..], b, name);
    }
  }

  lemma HandoffLines(pod: string, port: u16, rest: string)
    requires '\n' !in pod
    ensures Lines(Handoff(pod, port) + rest) == [PodLine(pod), PortLine(port)] + Lines(rest)
  {
    hide Lines;
    var one, two := PodLine(pod) + "\r\n", PortLine(port) + "\r\n";
    RadixRoundTrip(port, 10);
    DigitTextIsTrimmed(Decimal(port), 10);
    OneLine(PodLine(pod));
    OneLine(PortLine(port));
    LinesAppend(one, two);
    LinesAppend(one + two, rest);
    assert Handoff(pod, port) == one + two;
    assert [PodLine(pod)] + [PortLine(port)] == [PodLine(pod), PortLine(port)];
  }

  lemma FirstColon(key: string, rest: string)
    requires ':' !in key
    ensures
      var line := key + (":" + rest);
      IndexOf(line, ':') == Some(|key|) && line[..|key|] == key && line[|key| + 1..] == rest
  {
    hide IndexOf;
    var line := key + (":" + rest);
    assert forall j :: 0 <= j < |key| ==> line[j] == key[j] && key[j] in key;
    IndexOfIs(line, ':', |key|);
  }

  lemma KeyOf(key: string, value: string, name: string)
    requires ':' !in key && Trimmed(key) && Trimmed(value)
    ensures HeaderValue(key + ": " + value, name) == if Lower(key) == Lower(name) then Some(value) else None
  {
    hide IndexOf, Trim, Trimmed, Lower;
    FirstColon(key, " " + value);
    assert key + ": " + value == key + (":" + (" " + value));
    TrimIsIdentity(key);
    TrimIsIdentity(value);
  }

  lemma HandoffValues(pod: string, port: u16)
    requires HeaderSafe(pod)
    ensures HeaderValue(PodLine(pod), POD) == Some(pod)
    ensures HeaderValue(PodLine(pod), PORT) == None
    ensures HeaderValue(PortLine(port), PORT) == Some(Decimal(port))
  {
    hide HeaderValue, Lower, Decimal;
    RadixRoundTrip(port, 10);
    DecimalIsTrimmed(port);
    HandoffKeys();
    KeyOf("X-Royak-Pod", pod, POD);
    KeyOf("X-Royak-Pod", pod, PORT);
    KeyOf("X-Royak-Port", Decimal(port), PORT);
    assert PodLine(pod) == "X-Royak-Pod" + ": " + pod;
    assert PortLine(port) == "X-Royak-Port" + ": " + Decimal(port);
  }

  lemma DecimalIsTrimmed(n: nat)
    ensures Trimmed(Decimal(n))
  {
    RadixRoundTrip(n, 10);
    DigitTextIsTrimmed(Decimal(n), 10);
  }

  lemma HandoffKeys()
    ensures Lower("X-Royak-Pod") == POD == Lower(POD) && Lower("X-Royak-Port") == PORT == Lower(PORT)
    ensures POD != PORT
    ensures ':' !in "X-Royak-Pod" && Trimmed("X-Royak-Pod") && ':' !in "X-Royak-Port" && Trimmed("X-Royak-Port")
  {
    assert |POD| == 11 && |PORT| == 12;
  }

  lemma HandoffScan(pod: string, port: u16, rest: seq<string>)
    requires HeaderSafe(pod)
    ensures ScanLines([PodLine(pod), PortLine(port)] + rest, POD) == Found(pod)
    ensures ScanLines([PodLine(pod), PortLine(port)] + rest, PORT) == Found(Decimal(port))
  {
    HandoffValues(pod, port);
    hide HeaderValue;
    var lines := [PodLine(pod), PortLine(port)] + rest;
    assert lines[1..] == [PortLine(port)] + rest;
    assert lines[0] == PodLine(pod) && lines[1..][0] == PortLine(port);
  }

  // ---- bytes and text ----

  type Octets = seq<byte>

  /** UTF-8: `encode` of a string, and the lossy `decode`. */
  datatype Utf8 = Utf8(encode: string -> Octets, decode: Octets -> string)

  /** Next to an ASCII byte nothing is decoded across. */
  predicate Boundary(a: Octets, b: Octets)
  {
    a == [] || b == [] || a[|a| - 1] < 128 || b[0] < 128
  }

  predicate EndsInLf(a: Octets)
  {
    a != [] && a[|a| - 1] == LF
  }

  /** What is used of UTF-8: strings decode back, CRLF is itself, an ASCII byte separates,
      and line feeds are line feed bytes. */
  ghost predicate Lawful(u: Utf8)
  {
    && (forall s :: u.decode(u.encode(s)) == s)
    && (forall s :: s != "" && s[|s| - 1] == '\n' ==> EndsInLf(u.encode(s)))
    && (forall a, b :: Boundary(a, b) ==> u.decode(a + b) == u.decode(a) + u.decode(b))
    && (forall a :: LF !in a ==> '\n' !in u.decode(a))
    && u.decode(CRLF) == "\r\n"
  }

  /** The headers go right after the first line end, or in front if there is none. */
  function InjectHandoff(u: Utf8, raw: Octets, pod: string, port: u16): (out: Octets)
  {
    var headers := u.encode(Handoff(pod, port));
    match Find(raw, CRLF)
    case Some(pos) => raw[..pos + 2] + headers + raw[pos + 2..]
    case None => headers + raw
  }

  lemma DecodeHandoff(u: Utf8, pod: string, port: u16, rest: Octets)
    requires Lawful(u)
    ensures u.decode(u.encode(Handoff(pod, port)) + rest) == Handoff(pod, port) + u.decode(rest)
  {
    hide PodLine, PortLine;
    var s := Handoff(pod, port);
    assert s[|s| - 1] == '\n';
    assert Boundary(u.encode(s), rest);
  }

  // ---- what the peer reads ----

  /** The request up to and including its first line end, and the rest. */
  function RequestLine(raw: Octets): (r: Octets)
  {
    match Find(raw, CRLF)
    case Some(pos) => raw[..pos + 2]
    case None => []
  }

  function AfterRequestLine(raw: Octets): (r: Octets)
  {
    match Find(raw, CRLF)
    case Some(pos) => raw[pos + 2..]
    case None => raw
  }

  lemma InjectedBytes(u: Utf8, raw: Octets, pod: string, port: u16, more: Octets)
    ensures InjectHandoff(u, raw, pod, port) + more ==
            RequestLine(raw) + (u.encode(Handoff(pod, port)) + (AfterRequestLine(raw) + more))
  {
    hide Handoff, Find;
    var headers, line, rest := u.encode(Handoff(pod, port)), RequestLine(raw), AfterRequestLine(raw);
    assert [] + headers == headers;
    Assoc(line, headers, rest);
    Assoc(line, headers + rest, more);
    Assoc(headers, rest, more);
  }

  lemma RequestLineEnds(u: Utf8, raw: Octets)
    requires Lawful(u)
    ensures
      var line := RequestLine(raw);
      if Find(raw, CRLF).None? then line == [] && u.decode(line) == ""
      else EndsInLf(line) && u.decode(line) == u.decode(raw[..Find(raw, CRLF).value]) + "\r\n"
  {
    var pos := Find(raw, CRLF);
    if pos.Some? {
      OccursCrlf(raw, pos.value);
      assert raw[..pos.value + 2] == raw[..pos.value] + CRLF;
      assert Boundary(raw[..pos.value], CRLF);
    } else {
      var none: Octets := [];
      assert none + none == none;
      assert Boundary(none, none);
      assert |u.decode(none)| == |u.decode(none)| + |u.decode(none)|;
    }
  }

  lemma DecodeInjected(u: Utf8, raw: Octets, pod: string, port: u16, more: Octets)
    requires Lawful(u)
    ensures u.decode(InjectHandoff(u, raw, pod, port) + more) ==
            u.decode(RequestLine(raw)) + (Handoff(pod, port) + u.decode(AfterRequestLine(raw) + more))
  {
    hide Handoff, InjectHandoff, RequestLine, AfterRequestLine, Find;
    var tail := AfterRequestLine(raw) + more;
    InjectedBytes(u, raw, pod, port, more);
    RequestLineEnds(u, raw);
    DecodeHandoff(u, pod, port, tail);
    assert Boundary(RequestLine(raw), u.encode(Handoff(pod, port)) + tail);
  }

  /** What a peer reads after the hand-off, for every request and whatever bytes follow it: a
      line before the first CRLF can pre-empt the injected header or end the headers;
      otherwise the injected value is read. */
  lemma PeerReads(u: Utf8, raw: Octets, pod: string, port: u16, more: Octets, name: string)
    requires Lawful(u) && HeaderSafe(pod) && (name == POD || name == PORT)
    ensures ParseHeader(u.decode(InjectHandoff(u, raw, pod, port) + more), name) ==
              match ScanLines(Lines(u.decode(RequestLine(raw))), name)
              case Found(v) => Some(v)
              case HeadersEnd => None
              case NotFound => Some(if name == POD then pod else Decimal(port))
  {
    hide ScanLines, Lines, Handoff, InjectHandoff, RequestLine, AfterRequestLine, Find;
    DecodeInjected(u, raw, pod, port, more);
    RequestLineEnds(u, raw);
    var after := u.decode(AfterRequestLine(raw) + more);
    var head := u.decode(RequestLine(raw));
    HandoffLines(pod, port, after);
    HandoffScan(pod, port, Lines(after));
    NoLines();
    if head != "" {
      LinesAppend(head, Handoff(pod, port) + after);
    } else {
      assert head + (Handoff(pod, port) + after) == Handoff(pod, port) + after;
      assert [] + Lines(Handoff(pod, port) + after) == Lines(Handoff(pod, port) + after);
    }
    ScanAppend(Lines(head), [PodLine(pod), PortLine(port)] + Lines(after), name);
  }

  /** The lines of the request before its first CRLF neither end the headers nor set the pod
      or the port to something else. */
  predicate HandoffSurvives(u: Utf8, raw: Octets, pod: string, port: u16)
  {
    var first := Lines(u.decode(RequestLine(raw)));
    var (podScan, portScan) := (ScanLines(first, POD), ScanLines(first, PORT));
    && !podScan.HeadersEnd? && (podScan.Found? ==> podScan.value == pod)
    && (portScan.Found? ==> PortOr80(Some(portScan.value)) == port)
    && (portScan.HeadersEnd? ==> port == 80)
  }

  /** The peer reads back the pod and the port exactly if the request line lets them through;
      nothing after it matters. */
  lemma HandoffArrivesIff(u: Utf8, raw: Octets, pod: string, port: u16, more: Octets)
    requires Lawful(u) && HeaderSafe(pod) && port != 0
    ensures
      var text := u.decode(InjectHandoff(u, raw, pod, port) + more);
      (ParseHeader(text, POD) == Some(pod) && ParsePodPort(text) == port) <==> HandoffSurvives(u, raw, pod, port)
  {
    hide ScanLines, Lines, InjectHandoff, ParseHeader, RequestLine, Lawful, HeaderSafe, Trimmed, Trim, FromStrRadix;
    PeerReads(u, raw, pod, port, more, POD);
    PeerReads(u, raw, pod, port, more, PORT);
    DecimalIsTrimmed(port);
    TrimIsIdentity(Decimal(port));
    ParseFormatted(port, 10, U16);
    HandoffKeys();
  }

  /** A request line that is not empty and not itself a hand-off header. */
  predicate PlainFirstLine(line: string)
  {
    line != "" && HeaderValue(line, POD).None? && HeaderValue(line, PORT).None?
  }

  /** The request has no CRLF, or its first line has no bare line feed and is plain. */
  predicate PlainRequest(u: Utf8, raw: Octets)
  {
    var pos := Find(raw, CRLF);
    pos.Some? ==> LF !in raw[..pos.value] && PlainFirstLine(u.decode(raw[..pos.value]))
  }

  /** For every plain request the peer reads back exactly the pod and the port, whatever
      headers the client wrote and whatever follows. */
  lemma PeerDialsSamePod(u: Utf8, raw: Octets, pod: string, port: u16, more: Octets)
    requires Lawful(u) && HeaderSafe(pod) && port != 0 && PlainRequest(u, raw)
    ensures
      var text := u.decode(InjectHandoff(u, raw, pod, port) + more);
      ParseHeader(text, POD) == Some(pod) && ParsePodPort(text) == port
  {
    hide InjectHandoff, ParseHeader, ParsePodPort, Lawful, HeaderSafe, HandoffSurvives;
    PlainRequestSurvives(u, raw, pod, port);
    HandoffArrivesIff(u, raw, pod, port, more);
  }

  lemma PlainRequestSurvives(u: Utf8, raw: Octets, pod: string, port: u16)
    requires Lawful(u) && PlainRequest(u, raw)
    ensures HandoffSurvives(u, raw, pod, port)
  {
    hide ScanLines, Lines, RequestLine, Lawful, PlainRequest;
    PlainHeadIsSkipped(u, raw);
  }

  lemma PlainHeadIsSkipped(u: Utf8, raw: Octets)
    requires Lawful(u) && PlainRequest(u, raw)
    ensures ScanLines(Lines(u.decode(RequestLine(raw))), POD) == NotFound
    ensures ScanLines(Lines(u.decode(RequestLine(raw))), PORT) == NotFound
  {
    hide Lines, HeaderValue, RequestLine, Find;
    RequestLineEnds(u, raw);
    NoLines();
    var pos := Find(raw, CRLF);
    if pos.Some? {
      var line := u.decode(raw[..pos.value]);
      OneLine(line);
      assert [line][1..] == [];
    }
  }

  /** A request whose first line is itself a hand-off header for another pod, or for another
      port: the peer follows that line. */
  lemma OwnHeaderWins(u: Utf8, raw: Octets, pod: string, port: u16, more: Octets, name: string, v: string)
    requires Lawful(u) && HeaderSafe(pod) && port != 0 && (name == POD || name == PORT)
    requires Find(raw, CRLF).Some? && LF !in raw[..Find(raw, CRLF).value]
    requires HeaderValue(u.decode(raw[..Find(raw, CRLF).value]), name) == Some(v)
    requires if name == POD then v != pod else PortOr80(Some(v)) != port
    ensures ParseHeader(u.decode(InjectHandoff(u, raw, pod, port) + more), name) == Some(v)
    ensures !HandoffSurvives(u, raw, pod, port)
  {
    hide Lines, HeaderValue, RequestLine, Find, InjectHandoff, Lawful, PortOr80, HeaderSafe;
    LineFeedFree(u, raw[..Find(raw, CRLF).value]);
    RequestLineEnds(u, raw);
    var line := u.decode(raw[..Find(raw, CRLF).value]);
    OneLine(line);
    NoHeaderInEmptyLine(name);
    PeerReads(u, raw, pod, port, more, name);
  }

  lemma LineFeedFree(u: Utf8, a: Octets)
    requires Lawful(u) && LF !in a
    ensures '\n' !in u.decode(a)
  {
  }

  lemma NoHeaderInEmptyLine(name: string)
    ensures HeaderValue("", name) == None
  {
  }

  /** A request that starts with a line end: the headers end before the injected ones,
      and the peer reads neither. */
  lemma EmptyFirstLineHides(u: Utf8, raw: Octets, pod: string, port: u16, more: Octets)
    requires Lawful(u) && HeaderSafe(pod) && port != 0
    requires CRLF <= raw
    ensures
      var text := u.decode(InjectHandoff(u, raw, pod, port) + more);
      ParseHeader(text, POD) == None && ParseHeader(text, PORT) == None && !HandoffSurvives(u, raw, pod, port)
  {
    hide Lines, HeaderValue, InjectHandoff, PortOr80, HeaderSafe;
    assert OccursAt(raw, CRLF, 0);
    assert Find(raw, CRLF) == Some(0);
    hide Find;
    var none: Octets := [];
    assert raw[..0] == none && none + none == none && Boundary(none, none);
    assert |u.decode(none)| == |u.decode(none)| + |u.decode(none)|;
    RequestLineEnds(u, raw);
    OneLine("");
    assert "" + "\r\n" == "\r\n";
    PeerReads(u, raw, pod, port, more, POD);
    PeerReads(u, raw, pod, port, more, PORT);
  }
}
