/**
 The NodePort load balancer's choice of a pod: sort the eligible pods, try them cyclically
 from a round-robin index, take the first that publishes the port.
 */
module ServiceLb {
  import opened Bytes
  import opened RoundRobin

  datatype Container = Container(state: string, labels: map<string, string>, names: seq<string>)

  /** The host port Docker assigned to a pod's container port, if it is published. */
  type Published = (string, nat) -> Option<nat>

  function TrimSlashes(s: string): (r: string)
  {
    if s != "" && s[0] == '/' then TrimSlashes(s[1..]) else s
  }

  predicate Eligible(c: Container, deployment: string)
  {
    && c.state == "running"
    && "royak.deployment" in c.labels && c.labels["royak.deployment"] == deployment
    && !("royak.role" in c.labels && c.labels["royak.role"] == "sidecar")
  }

  function EligiblePods(cs: seq<Container>, deployment: string): (pods: seq<string>)
  {
    if cs == [] then []
    else
      (if Eligible(cs[0], deployment) && cs[0].names != [] then [TrimSlashes(cs[0].names[0])] else [])
      + EligiblePods(cs[1..], deployment)
  }

  /** A running container of the deployment, no sidecar, that has a name. */
  predicate IsPodOf(c: Container, deployment: string)
  {
    && c.state == "running" && c.names != []
    && ("royak.deployment", deployment) in c.labels.Items
    && ("royak.role", "sidecar") !in c.labels.Items
  }

  /** `name` without the slashes in front. */
  ghost predicate Unslashed(name: string, pod: string)
  {
    && |pod| <= |name| && name[|name| - |pod|..] == pod && (pod != "" ==> pod[0] != '/')
    && forall i :: 0 <= i < |name| - |pod| ==> name[i] == '/'
  }

  lemma {:induction false} TrimmedIsUnslashed(name: string)
    ensures Unslashed(name, TrimSlashes(name))
  {
    hide Unslashed;
    if name != "" && name[0] == '/' {
      TrimmedIsUnslashed(name[1..]);
      OneMoreSlash(name, TrimSlashes(name[1..]));
    } else {
      NoSlash(name);
    }
  }

  lemma NoSlash(name: string)
    requires name != "" ==> name[0] != '/'
    ensures Unslashed(name, name)
  {
  }

  lemma OneMoreSlash(name: string, pod: string)
    requires name != "" && name[0] == '/' && Unslashed(name[1..], pod)
    ensures Unslashed(name, pod)
  {
    var rest := name[1..];
    assert rest[|rest| - |pod|..] == name[|name| - |pod|..];
    forall i | 0 <= i < |name| - |pod|
      ensures name[i] == '/'
    {
      if i > 0 {
        assert name[i] == rest[i - 1];
      }
    }
  }

  /** The container is a pod of the deployment and `pod` its first name. */
  ghost predicate PodAs(c: Container, deployment: string, pod: string)
  {
    IsPodOf(c, deployment) && Unslashed(c.names[0], pod)
  }

  /** `pods` are the pods of the deployment among the containers, those at the positions `at`:
      all of them, each once, in the order listed. */
  ghost predicate Listed(cs: seq<Container>, deployment: string, pods: seq<string>, at: seq<nat>)
  {
    && |at| == |pods|
    && (forall k :: 0 <= k < |at| ==> at[k] < |cs| && PodAs(cs[at[k]], deployment, pods[k]))
    && (forall i :: 0 <= i < |cs| && IsPodOf(cs[i], deployment) ==> i in at)
    && (forall k, l :: 0 <= k < l < |at| ==> at[k] < at[l])
  }

  /** The pods are exactly the running containers of the deployment that are no sidecars, each
      once, in the order listed, by their first names without slashes in front. */
  lemma {:induction false} EligiblePodsAre(cs: seq<Container>, deployment: string) returns (at: seq<nat>)
    ensures Listed(cs, deployment, EligiblePods(cs, deployment), at)
  {
    hide PodAs, IsPodOf, EligiblePods;
    if cs == [] {
      at := [];
      NoContainers(deployment);
    } else {
      hide Listed;
      var rest := EligiblePodsAre(cs[1..], deployment);
      var first := FirstContainer(cs, deployment);
      at := if first then [0] + Later(rest) else Later(rest);
      var pods := EligiblePods(cs, deployment);
      if first {
        ListedWithFirst(cs, deployment, pods, rest);
      } else {
        ListedWithoutFirst(cs, deployment, pods, rest);
      }
    }
  }

  function Later(at: seq<nat>): (r: seq<nat>)
    ensures |r| == |at| && forall k :: 0 <= k < |at| ==> r[k] == at[k] + 1
  {
    seq(|at|, k requires 0 <= k < |at| => at[k] + 1)
  }

  lemma LaterHolds(at: seq<nat>, i: nat)
    requires i in at
    ensures i + 1 in Later(at)
  {
    var k :| 0 <= k < |at| && at[k] == i;
    assert Later(at)[k] == i + 1;
  }

  lemma ListedWithoutFirst(cs: seq<Container>, deployment: string, pods: seq<string>, rest: seq<nat>)
    requires cs != [] && !IsPodOf(cs[0], deployment) && Listed(cs[1..], deployment, pods, rest)
    ensures Listed(cs, deployment, pods, Later(rest))
  {
    hide PodAs, IsPodOf, Later;
    var at := Later(rest);
    assert forall k :: 0 <= k < |at| ==> at[k] == rest[k] + 1 && cs[at[k]] == cs[1..][rest[k]];
    forall i | 0 <= i < |cs| && IsPodOf(cs[i], deployment)
      ensures i in at
    {
      assert cs[1..][i - 1] == cs[i];
      LaterHolds(rest, i - 1);
    }
  }

  lemma ListedWithFirst(cs: seq<Container>, deployment: string, pods: seq<string>, rest: seq<nat>)
    requires cs != [] && pods != [] && PodAs(cs[0], deployment, pods[0]) && Listed(cs[1..], deployment, pods[1..], rest)
    ensures Listed(cs, deployment, pods, [0] + Later(rest))
  {
    hide PodAs, IsPodOf, Later;
    var at := [0] + Later(rest);
    forall k | 0 <= k < |at|
      ensures at[k] < |cs| && PodAs(cs[at[k]], deployment, pods[k])
    {
      if k > 0 {
        assert at[k] == rest[k - 1] + 1;
        assert cs[at[k]] == cs[1..][rest[k - 1]] && pods[k] == pods[1..][k - 1];
      }
    }
    forall i | 0 <= i < |cs| && IsPodOf(cs[i], deployment)
      ensures i in at
    {
      if i > 0 {
        assert cs[1..][i - 1] == cs[i];
        LaterHolds(rest, i - 1);
      } else {
        assert at[0] == 0;
      }
    }
  }

  lemma NoContainers(deployment: string)
    ensures EligiblePods([], deployment) == []
  {
  }

  lemma FirstContainer(cs: seq<Container>, deployment: string) returns (first: bool)
    requires cs != []
    ensures first <==> IsPodOf(cs[0], deployment)
    ensures
      var pods, rest := EligiblePods(cs, deployment), EligiblePods(cs[1..], deployment);
      if first then |pods| == 1 + |rest| && pods[1..] == rest && PodAs(cs[0], deployment, pods[0]) else pods == rest
  {
    EligibleIsPodOf(cs[0], deployment);
    first := IsPodOf(cs[0], deployment);
    if first {
      TrimmedIsUnslashed(cs[0].names[0]);
    } else {
      assert [] + EligiblePods(cs[1..], deployment) == EligiblePods(cs[1..], deployment);
    }
  }

  lemma EligibleIsPodOf(c: Container, deployment: string)
    ensures IsPodOf(c, deployment) <==> Eligible(c, deployment) && c.names != []
  {
  }

  // ---- sorting ----

  /** Lexicographic order of strings. */
  predicate AtMost(a: string, b: string)
  {
    a == "" || (b != "" && (a[0] < b[0] || (a[0] == b[0] && AtMost(a[1..], b[1..]))))
  }

  lemma {:induction false} AtMostTotal(a: string, b: string)
    ensures AtMost(a, b) || AtMost(b, a)
    ensures AtMost(a, b) && AtMost(b, a) ==> a == b
  {
    if a != "" && b != "" && a[0] == b[0] {
      AtMostTotal(a[1..], b[1..]);
      assert a == [a[0]] + a[1..] && b == [b[0]] + b[1..];
    }
  }

  lemma {:induction false} AtMostTransitive(a: string, b: string, c: string)
    requires AtMost(a, b) && AtMost(b, c)
    ensures AtMost(a, c)
  {
    if a != "" && a[0] == b[0] && b[0] == c[0] {
      AtMostTransitive(a[1..], b[1..], c[1..]);
    }
  }

  predicate Sorted(s: seq<string>)
  {
    forall i, j :: 0 <= i < j < |s| ==> AtMost(s[i], s[j])
  }

  function Insert(x: string, s: seq<string>): (r: seq<string>)
    ensures multiset(r) == multiset(s) + multiset{x}
  {
    if s == [] then [x]
    else if AtMost(x, s[0]) then [x] + s
    else
      assert s == [s[0]] + s[1..];
      [s[0]] + Insert(x, s[1..])
  }

  function Sort(s: seq<string>): (r: seq<string>)
    ensures multiset(r) == multiset(s)
  {
    if s == [] then []
    else
      assert s == [s[0]] + s[1..];
      Insert(s[0], Sort(s[1..]))
  }

  lemma {:induction false} InsertKeepsSorted(x: string, s: seq<string>)
    requires Sorted(s)
    ensures Sorted(Insert(x, s))
  {
    hide AtMost;
    if s != [] {
      AtMostTotal(x, s[0]);
      if AtMost(x, s[0]) {
        forall j | 0 <= j < |s|
          ensures AtMost(x, s[j])
        {
          if j > 0 { AtMostTransitive(x, s[0], s[j]); }
        }
      } else {
        InsertKeepsSorted(x, s[1..]);
        var r := Insert(x, s[1..]);
        forall j | 0 <= j < |r|
          ensures AtMost(s[0], r[j])
        {
          assert r[j] in multiset(r);
          assert r[j] == x || r[j] in s[1..];
        }
      }
    }
  }

  lemma {:induction false} SortSorts(s: seq<string>)
    ensures Sorted(Sort(s))
  {
    hide Insert;
    if s != [] {
      SortSorts(s[1..]);
      InsertKeepsSorted(s[0], Sort(s[1..]));
    }
  }

  /** Two sorted listings of one multiset start alike. */
  lemma SameLeast(a: seq<string>, b: seq<string>)
    requires Sorted(a) && Sorted(b) && a != [] && b != []
    requires a[0] in b && b[0] in a
    ensures a[0] == b[0]
  {
    hide AtMost;
    var i :| 0 <= i < |b| && b[i] == a[0];
    var j :| 0 <= j < |a| && a[j] == b[0];
    AtMostTotal(a[0], b[0]);
  }

  lemma TailMultiset(a: seq<string>)
    requires a != []
    ensures multiset(a[1..]) == multiset(a) - multiset{a[0]}
  {
    assert a == [a[0]] + a[1..];
  }

  /** A multiset of strings has one sorted listing. */
  lemma {:induction false} SortedIsUnique(a: seq<string>, b: seq<string>)
    requires Sorted(a) && Sorted(b) && multiset(a) == multiset(b)
    ensures a == b
  {
    hide AtMost;
    assert |a| == |multiset(a)| == |multiset(b)| == |b|;
    if a != [] {
      assert a[0] in multiset(a) && b[0] in multiset(b);
      SameLeast(a, b);
      TailMultiset(a);
      TailMultiset(b);
      SortedIsUnique(a[1..], b[1..]);
      assert a == [a[0]] + a[1..] && b == [b[0]] + b[1..];
    }
  }

  // ---- the choice ----

  function FirstPublished(pods: seq<string>, published: Published, port: nat): (r: Option<nat>)
    ensures r.Some? ==> r.value < |pods| && published(pods[r.value], port).Some?
                        && forall i :: 0 <= i < r.value ==> published(pods[i], port).None?
    ensures r.None? ==> forall i :: 0 <= i < |pods| ==> published(pods[i], port).None?
  {
    if pods == [] then None
    else if published(pods[0], port).Some? then Some(0)
    else match FirstPublished(pods[1..], published, port)
      case None => None
      case Some(i) => Some(i + 1)
  }

  /** Returns the host port of the first publishing pod in cyclic order, and nothing exactly
      when no eligible pod publishes the port; `probed` lists Docker's inspections, each pod
      of the rotation at most once. */
  method PickBackend(cs: seq<Container>, published: Published, deployment: string, port: nat, start: nat)
    returns (hostPort: Option<nat>, probed: seq<string>)
    ensures
      var pods := Sort(EligiblePods(cs, deployment));
      && (hostPort.Some? <==> exists pod :: pod in pods && published(pod, port).Some?)
      && (pods != [] ==>
            var order := Rotation(pods, start);
            var first := FirstPublished(order, published, port);
            && probed == order[..if first.Some? then first.value + 1 else |order|]
            && hostPort == if first.Some? then published(order[first.value], port) else None)
      && (pods == [] ==> probed == [])
  {
    hide EligiblePods, Sort, Rotation;
    var pods := Sort(EligiblePods(cs, deployment));
    probed := [];
    if pods == [] { return None, []; }
    ghost var order := Rotation(pods, start);
    RotationHoldsSame(pods, start);
    for i := 0 to |pods|
      invariant probed == order[..i]
      invariant forall j :: 0 <= j < i ==> published(order[j], port).None?
    {
      RotationAt(pods, start, i);
      var pod := pods[(start + i) % |pods|];
      probed := probed + [pod];
      var hp := published(pod, port);
      if hp.Some? {
        assert order[i] in order;
        FirstIs(order, published, port, i);
        return hp, probed;
      }
    }
    NoneIs(order, published, port);
    hostPort := None;
  }

  lemma FirstIs(pods: seq<string>, published: Published, port: nat, i: nat)
    requires i < |pods| && published(pods[i], port).Some?
    requires forall j :: 0 <= j < i ==> published(pods[j], port).None?
    ensures FirstPublished(pods, published, port) == Some(i)
  {
  }

  lemma NoneIs(pods: seq<string>, published: Published, port: nat)
    requires forall j :: 0 <= j < |pods| ==> published(pods[j], port).None?
    ensures FirstPublished(pods, published, port) == None
    ensures forall pod :: pod in pods ==> published(pod, port).None?
  {
  }

  // ---- fairness and stability ----

  /** While every eligible pod publishes, the connection with index `start` goes to the pod
      at that index cyclically, so `|pods|` consecutive connections reach each pod once. */
  lemma AllPublishMeansFirst(pods: seq<string>, published: Published, port: nat, start: nat)
    requires pods != [] && forall pod :: pod in pods ==> published(pod, port).Some?
    ensures FirstPublished(Rotation(pods, start), published, port) == Some(0)
    ensures Rotation(pods, start)[0] == Chosen(pods, start)
    ensures multiset(Picks(pods, start)) == multiset(pods)
  {
    hide Rotation;
    EachChosenOnce(pods, start);
    RotationHoldsSame(pods, start);
    RotationAt(pods, start, 0);
    var r := Rotation(pods, start);
    assert r[0] in r;
    FirstIs(r, published, port, 0);
  }

  /** A round of connections, one for each eligible pod, with the listener's counter going up
      by one each time.  While every pod publishes, each pod is the target of exactly one. */
  method AcceptRound(cs: seq<Container>, published: Published, deployment: string, port: nat, start: nat)
    returns (targets: seq<string>, hostPorts: seq<Option<nat>>)
    ensures
      var pods := Sort(EligiblePods(cs, deployment));
      && |hostPorts| == |pods|
      && ((forall pod :: pod in pods ==> published(pod, port).Some?) ==>
            && multiset(targets) == multiset(pods)
            && forall i :: 0 <= i < |pods| ==> hostPorts[i] == published(targets[i], port))
  {
    hide EligiblePods, Sort, Rotation, Chosen, FirstPublished;
    var pods := Sort(EligiblePods(cs, deployment));
    ghost var healthy := forall pod :: pod in pods ==> published(pod, port).Some?;
    targets, hostPorts := [], [];
    for i := 0 to |pods|
      invariant |hostPorts| == i
      invariant healthy ==> |targets| == i
      invariant healthy ==> forall j :: 0 <= j < i ==> targets[j] == Chosen(pods, start + j)
      invariant healthy ==> forall j :: 0 <= j < i ==> hostPorts[j] == published(targets[j], port)
    {
      var hostPort, probed := PickBackend(cs, published, deployment, port, start + i);
      if healthy {
        AllPublishMeansFirst(pods, published, port, start + i);
      }
      hostPorts := hostPorts + [hostPort];
      if hostPort.Some? {
        targets := targets + [probed[|probed| - 1]];
      }
    }
    if healthy && pods != [] {
      EachChosenOnce(pods, start);
      assert targets == Picks(pods, start);
    }
  }

  /** The order in which Docker lists containers does not matter. */
  lemma ListingOrderIsIrrelevant(cs: seq<Container>, cs': seq<Container>, deployment: string)
    requires multiset(EligiblePods(cs, deployment)) == multiset(EligiblePods(cs', deployment))
    ensures Sort(EligiblePods(cs, deployment)) == Sort(EligiblePods(cs', deployment))
  {
    hide Sort;
    SortSorts(EligiblePods(cs, deployment));
    SortSorts(EligiblePods(cs', deployment));
    SortedIsUnique(Sort(EligiblePods(cs, deployment)), Sort(EligiblePods(cs', deployment)));
  }
}
