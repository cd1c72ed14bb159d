/**
 The Raft log store and state machine.

 openraft drives the store; what it promises about the order of its calls is `Legal`.
 `DesiredWorld::apply` and `delete_resource` are deterministic parameters.
 */
module RaftStore {
  import opened Bytes
  import opened Strings

  // ---- log entries and commands ----

  datatype LogId = LogId(term: nat, node: nat, index: nat)

  datatype Command =
    | Apply(kind: string, name: string, namespace: string, specJson: string)
    | Scale(name: string, namespace: string, replicas: nat)
    | Delete(kind: string, name: string, namespace: string)
    | Heartbeat(node: string, cpuUsed: int, memUsed: int, podCount: nat)

  datatype Payload = Blank | Normal(cmd: Command) | Membership(voters: set<nat>)

  datatype Entry = Entry(id: LogId, payload: Payload)

  // ---- the replicated world ----

  datatype Deployment = Deployment(replicas: nat, spec: string)
  datatype Node = Node(cpuUsed: int, memUsed: int, podCount: nat, address: string)

  datatype World = World(
    deployments: map<string, Deployment>,
    nodes: map<string, Node>,
    runtime: string,
    others: map<string, string>)

  /** The parts of the cluster the store calls into: manifest parsing, applying a resource
      (which may change the world and still report an error) and deleting one. */
  datatype Cluster = Cluster(
    parse: string -> Option<string>,
    apply: (World, string) -> (World, bool, string),
    delete: (World, string, string) -> (World, bool))

  /** One committed command: the new world and the response message. */
  function ApplyCommand(c: Cluster, w: World, cmd: Command): (r: (World, string))
    ensures r.0.runtime == "raft:[raft] " + r.1
  {
    var (w', message) := match cmd
      case Apply(kind, name, namespace, specJson) =>
        (match c.parse(specJson)
         case Some(resource) =>
           var (w1, ok, text) := c.apply(w, resource);
           (w1, if ok then text else "apply " + kind + "/" + name + " ns=" + namespace + " failed: " + text)
         case None => (w, "apply " + kind + "/" + name + ": could not parse spec_json"))
      case Scale(name, namespace, replicas) =>
        if name in w.deployments
        then (w.(deployments := w.deployments[name := w.deployments[name].(replicas := replicas)]),
              "scale " + name + " ns=" + namespace + " → " + Decimal(replicas))
        else (w, "scale " + name + ": not found")
      case Delete(kind, name, namespace) =>
        var (w1, ok) := c.delete(w, kind, name);
        (w1, "delete " + kind + "/" + name + " ns=" + namespace + " (" + (if ok then "removed" else "not found") + ")")
      case Heartbeat(node, cpu, mem, pods) =>
        (if node in w.nodes
         then w.(nodes := w.nodes[node := w.nodes[node].(cpuUsed := cpu, memUsed := mem, podCount := pods)])
         else w,
         "heartbeat " + node);
    (w'.(runtime := "raft:[raft] " + message), message)
  }

  /** State machine state: the world and the last membership entry. */
  datatype Machine = Machine(world: World, membership: Option<(LogId, set<nat>)>)

  function StepMachine(c: Cluster, m: Machine, e: Entry): (r: (Machine, string))
  {
    match e.payload
    case Blank => (m, "")
    case Normal(cmd) => var (w, message) := ApplyCommand(c, m.world, cmd); (m.(world := w), message)
    case Membership(voters) => (m.(membership := Some((e.id, voters))), "")
  }

  /** The state machine after a whole sequence of entries. */
  function RunMachine(c: Cluster, m: Machine, es: seq<Entry>): (r: Machine)
  {
    if es == [] then m else StepMachine(c, RunMachine(c, m, es[..|es| - 1]), es[|es| - 1]).0
  }

  lemma {:induction false} RunMachineAppend(c: Cluster, m: Machine, a: seq<Entry>, b: seq<Entry>)
    ensures RunMachine(c, m, a + b) == RunMachine(c, RunMachine(c, m, a), b)
  {
    hide StepMachine;
    if b == [] {
      assert a + b == a;
    } else {
      RunMachineAppend(c, m, a, b[..|b| - 1]);
      assert (a + b)[..|a + b| - 1] == a + b[..|b| - 1];
    }
  }

  // ---- what each command leaves ----

  /** `w'` is `w` but for the stamp. */
  predicate OnlyStamped(w: World, w': World)
  {
    w'.deployments == w.deployments && w'.nodes == w.nodes && w'.others == w.others
  }

  /** The resource of a command that applies one, if its manifest parses. */
  function Resource(c: Cluster, cmd: Command): (r: Option<string>)
  {
    if cmd.Apply? then c.parse(cmd.specJson) else None
  }

  /** What a command that applies or deletes a resource leaves and answers, in terms of the
      cluster's own operations. */
  ghost predicate Carries(c: Cluster, w: World, cmd: Command, w': World, message: string)
  {
    && w'.runtime == "raft:[raft] " + message
    && (Resource(c, cmd).Some? ==>
          var (applied, ok, text) := c.apply(w, Resource(c, cmd).value);
          OnlyStamped(applied, w') && (ok ==> message == text)
          && (!ok ==> message == "apply " + cmd.kind + "/" + cmd.name + " ns=" + cmd.namespace + " failed: " + text))
    && (cmd.Apply? && Resource(c, cmd).None? ==>
          OnlyStamped(w, w') && message == "apply " + cmd.kind + "/" + cmd.name + ": could not parse spec_json")
    && (cmd.Delete? ==>
          var (left, ok) := c.delete(w, cmd.kind, cmd.name);
          var answer := "delete " + cmd.kind + "/" + cmd.name + " ns=" + cmd.namespace + " (";
          OnlyStamped(left, w') && (ok ==> message == answer + "removed" + ")") && (!ok ==> message == answer + "not found" + ")"))
  }

  lemma CommandCarries(c: Cluster, w: World, cmd: Command)
    requires cmd.Apply? || cmd.Delete?
    ensures Carries(c, w, cmd, ApplyCommand(c, w, cmd).0, ApplyCommand(c, w, cmd).1)
  {
  }

  /** The answers to scalings and heartbeats. */
  lemma UpdateAnswers(c: Cluster, w: World, cmd: Command)
    ensures cmd.Scale? && cmd.name in w.deployments ==>
              ApplyCommand(c, w, cmd).1 == "scale " + cmd.name + " ns=" + cmd.namespace + " → " + Decimal(cmd.replicas)
    ensures cmd.Scale? && cmd.name !in w.deployments ==> ApplyCommand(c, w, cmd).1 == "scale " + cmd.name + ": not found"
    ensures cmd.Heartbeat? ==> ApplyCommand(c, w, cmd).1 == "heartbeat " + cmd.node
  {
  }

  /** In every sequence of entries whose last command, at `k`, applies or deletes: the world is
      what the cluster's operation makes of the world before it. */
  lemma {:induction false} LastCommandCarries(c: Cluster, m: Machine, es: seq<Entry>, k: nat)
    requires k < |es| && es[k].payload.Normal? && (es[k].payload.cmd.Apply? || es[k].payload.cmd.Delete?)
    requires forall j :: k < j < |es| ==> !es[j].payload.Normal?
    ensures exists message ::
              Carries(c, RunMachine(c, m, es[..k]).world, es[k].payload.cmd, RunMachine(c, m, es).world, message)
  {
    hide ApplyCommand, Carries;
    var before := es[..|es| - 1];
    if k < |es| - 1 {
      assert before[..k] == es[..k];
      LastCommandCarries(c, m, before, k);
      var w, cmd := RunMachine(c, m, es[..k]).world, es[k].payload.cmd;
      var message :| Carries(c, w, cmd, RunMachine(c, m, before).world, message);
      assert !es[|es| - 1].payload.Normal?;
      assert RunMachine(c, m, es).world == RunMachine(c, m, before).world;
      assert Carries(c, w, cmd, RunMachine(c, m, es).world, message);
    } else {
      var w, cmd := RunMachine(c, m, before).world, es[k].payload.cmd;
      CommandCarries(c, w, cmd);
      assert RunMachine(c, m, es).world == ApplyCommand(c, w, cmd).0;
      assert Carries(c, w, cmd, RunMachine(c, m, es).world, ApplyCommand(c, w, cmd).1);
    }
  }

  /** The last membership entry. */
  function LastMembership(es: seq<Entry>): (r: Option<(LogId, set<nat>)>)
  {
    if es == [] then None
    else if es[|es| - 1].payload.Membership? then Some((es[|es| - 1].id, es[|es| - 1].payload.voters))
    else LastMembership(es[..|es| - 1])
  }

  /** The membership is that of the last membership entry, with its id; without one it stays. */
  lemma {:induction false} MembershipIsLast(c: Cluster, m: Machine, es: seq<Entry>)
    ensures RunMachine(c, m, es).membership == if LastMembership(es).Some? then LastMembership(es) else m.membership
  {
    hide ApplyCommand;
    if es != [] {
      MembershipIsLast(c, m, es[..|es| - 1]);
    }
  }

  /** Entries that are no commands are answered with nothing and leave the world alone. */
  lemma NoCommandNoChange(c: Cluster, m: Machine, e: Entry)
    requires !e.payload.Normal?
    ensures StepMachine(c, m, e).1 == "" && StepMachine(c, m, e).0.world == m.world
  {
  }

  // ---- what scaling commands leave ----

  /** Entries that neither apply nor delete a resource. */
  predicate OnlyUpdates(es: seq<Entry>)
  {
    forall i :: 0 <= i < |es| ==> es[i].payload.Normal? ==> es[i].payload.cmd.Scale? || es[i].payload.cmd.Heartbeat?
  }

  /** The replica count of the last scaling of a deployment, if there is one. */
  function LastScale(es: seq<Entry>, name: string): (r: Option<nat>)
  {
    if es == [] then None
    else
      var p := es[|es| - 1].payload;
      if p.Normal? && p.cmd.Scale? && p.cmd.name == name then Some(p.cmd.replicas)
      else LastScale(es[..|es| - 1], name)
  }

  /** The last heartbeat of a node, and the last command of any kind. */
  function LastBeat(es: seq<Entry>, node: string): (r: Option<Command>)
    ensures r.Some? ==> r.value.Heartbeat?
  {
    if es == [] then None
    else
      var p := es[|es| - 1].payload;
      if p.Normal? && p.cmd.Heartbeat? && p.cmd.node == node then Some(p.cmd) else LastBeat(es[..|es| - 1], node)
  }

  function LastCommand(es: seq<Entry>): (r: Option<Command>)
  {
    if es == [] then None
    else if es[|es| - 1].payload.Normal? then Some(es[|es| - 1].payload.cmd)
    else LastCommand(es[..|es| - 1])
  }

  function Beaten(n: Node, beat: Option<Command>): (r: Node)
    requires beat.Some? ==> beat.value.Heartbeat?
  {
    if beat.None? then n else Node(beat.value.cpuUsed, beat.value.memUsed, beat.value.podCount, n.address)
  }

  function Scaled(d: Deployment, replicas: Option<nat>): (r: Deployment)
  {
    if replicas.None? then d else d.(replicas := replicas.value)
  }

  /** A scaling changes the replica count of its deployment and nothing else of the world
      but the stamp; a heartbeat changes the three gauges of its node. */
  lemma CommandIsLocal(c: Cluster, w: World, cmd: Command)
    requires cmd.Scale? || cmd.Heartbeat?
    ensures
      var w' := ApplyCommand(c, w, cmd).0;
      && w'.deployments.Keys == w.deployments.Keys && w'.nodes.Keys == w.nodes.Keys && w'.others == w.others
      && (forall d :: d in w.deployments ==>
            w'.deployments[d] == Scaled(w.deployments[d], if cmd.Scale? && cmd.name == d then Some(cmd.replicas) else None))
      && (forall n :: n in w.nodes ==>
            w'.nodes[n] == Beaten(w.nodes[n], if cmd.Heartbeat? && cmd.node == n then Some(cmd) else None))
  {
  }

  /** The response to such a command depends only on which deployments there are. */
  lemma ResponseByKeys(c: Cluster, w: World, w': World, cmd: Command)
    requires (cmd.Scale? || cmd.Heartbeat?) && w.deployments.Keys == w'.deployments.Keys
    ensures ApplyCommand(c, w, cmd).1 == ApplyCommand(c, w', cmd).1
  {
    assert cmd.Scale? ==> (cmd.name in w.deployments <==> cmd.name in w.deployments.Keys);
    assert cmd.Scale? ==> (cmd.name in w'.deployments <==> cmd.name in w'.deployments.Keys);
  }

  /** `w'` is `w` with, for each deployment and node, the last scaling and heartbeat among
      the entries, stamped with the response to the last command. */
  ghost predicate Updated(c: Cluster, w: World, es: seq<Entry>, w': World)
  {
    && w'.deployments.Keys == w.deployments.Keys && w'.nodes.Keys == w.nodes.Keys && w'.others == w.others
    && (forall d :: d in w.deployments ==> w'.deployments[d] == Scaled(w.deployments[d], LastScale(es, d)))
    && (forall n :: n in w.nodes ==> w'.nodes[n] == Beaten(w.nodes[n], LastBeat(es, n)))
    && w'.runtime == match LastCommand(es)
                     case None => w.runtime
                     case Some(cmd) => "raft:[raft] " + ApplyCommand(c, w, cmd).1
  }

  /** After any such entries the last scaling of each deployment and the last heartbeat of
      each node decide, and everything else is as before. */
  lemma {:induction false} LastScaleWins(c: Cluster, m: Machine, es: seq<Entry>)
    requires OnlyUpdates(es)
    ensures Updated(c, m.world, es, RunMachine(c, m, es).world)
  {
    hide ApplyCommand, Updated;
    if es == [] {
      NothingUpdated(c, m.world);
    } else {
      var before, e := es[..|es| - 1], es[|es| - 1];
      LastScaleWins(c, m, before);
      if e.payload.Normal? {
        UpdatedByCommand(c, m.world, es, RunMachine(c, m, before).world);
      } else {
        UpdatedByOther(c, m.world, es, RunMachine(c, m, before).world);
      }
    }
  }

  lemma NothingUpdated(c: Cluster, w: World)
    ensures Updated(c, w, [], w)
  {
  }

  lemma UpdatedByOther(c: Cluster, w0: World, es: seq<Entry>, w: World)
    requires es != [] && !es[|es| - 1].payload.Normal? && Updated(c, w0, es[..|es| - 1], w)
    ensures Updated(c, w0, es, w)
  {
    hide ApplyCommand;
  }

  lemma UpdatedByCommand(c: Cluster, w0: World, es: seq<Entry>, w: World)
    requires es != [] && es[|es| - 1].payload.Normal? && Updated(c, w0, es[..|es| - 1], w)
    requires es[|es| - 1].payload.cmd.Scale? || es[|es| - 1].payload.cmd.Heartbeat?
    ensures Updated(c, w0, es, ApplyCommand(c, w, es[|es| - 1].payload.cmd).0)
  {
    hide ApplyCommand;
    var cmd := es[|es| - 1].payload.cmd;
    CommandIsLocal(c, w, cmd);
    ResponseByKeys(c, w0, w, cmd);
    StampOf(c, w, cmd);
  }

  lemma StampOf(c: Cluster, w: World, cmd: Command)
    ensures ApplyCommand(c, w, cmd).0.runtime == "raft:[raft] " + ApplyCommand(c, w, cmd).1
  {
  }

  // ---- the store ----

  datatype Store = Store(
    log: map<nat, Entry>,
    lastPurged: Option<LogId>,
    lastApplied: Option<LogId>,
    machine: Machine)

  function Insert(log: map<nat, Entry>, es: seq<Entry>): (r: map<nat, Entry>)
  {
    if es == [] then log
    else Insert(log, es[..|es| - 1])[es[|es| - 1].id.index := es[|es| - 1]]
  }

  function Below(log: map<nat, Entry>, i: nat): (r: map<nat, Entry>) { map k | k in log && k < i :: log[k] }

  function Above(log: map<nat, Entry>, i: nat): (r: map<nat, Entry>) { map k | k in log && k > i :: log[k] }

  /** The stored entries with indices from `lo` below `hi`, in index order. */
  function Range(log: map<nat, Entry>, lo: nat, hi: nat): (r: seq<Entry>)
  {
    if hi <= lo then [] else Range(log, lo, hi - 1) + if hi - 1 in log then [log[hi - 1]] else []
  }

  datatype Op =
    | Append(entries: seq<Entry>)
    | DeleteConflictsSince(id: LogId)
    | PurgeUpto(id: LogId)
    | ApplyEntries(entries: seq<Entry>)

  function Step(c: Cluster, s: Store, op: Op): (r: Store)
  {
    match op
    case Append(es) => s.(log := Insert(s.log, es))
    case DeleteConflictsSince(id) => s.(log := Below(s.log, id.index))
    case PurgeUpto(id) => s.(lastPurged := Some(id), log := Above(s.log, id.index))
    case ApplyEntries(es) =>
      s.(machine := RunMachine(c, s.machine, es),
         lastApplied := if es == [] then s.lastApplied else Some(es[|es| - 1].id))
  }

  class NeuroStore {
    const cluster: Cluster
    var log: map<nat, Entry>
    var lastPurged: Option<LogId>
    var lastApplied: Option<LogId>
    var world: World
    var lastMembership: Option<(LogId, set<nat>)>

    ghost function State(): Store
      reads this
    {
      Store(log, lastPurged, lastApplied, Machine(world, lastMembership))
    }

    constructor (cluster: Cluster, world: World)
      ensures State() == Store(map[], None, None, Machine(world, None)) && this.cluster == cluster
    {
      this.cluster, this.world := cluster, world;
      log, lastPurged, lastApplied, lastMembership := map[], None, None, None;
    }

    method AppendToLog(entries: seq<Entry>)
      modifies this`log
      ensures State() == Step(cluster, old(State()), Append(entries))
    {
      for i := 0 to |entries|
        invariant log == Insert(old(log), entries[..i])
      {
        assert entries[..i + 1][..i] == entries[..i];
        log := log[entries[i].id.index := entries[i]];
      }
      assert entries[..|entries|] == entries;
    }

    /** Collects the keys first, then removes them one by one. */
    method RemoveKeys(keys: set<nat>)
      modifies this`log
      ensures log == old(log) - keys
    {
      var rest := keys;
      while rest != {}
        invariant rest <= keys
        invariant log == old(log) - (keys - rest)
        decreases rest
      {
        var k :| k in rest;
        log := log - {k};
        rest := rest - {k};
        assert keys - rest == (keys - (rest + {k})) + {k};
      }
      assert keys - {} == keys;
    }

    method DeleteConflictLogsSince(id: LogId)
      modifies this`log
      ensures State() == Step(cluster, old(State()), DeleteConflictsSince(id))
    {
      var keys := set k | k in log && k >= id.index;
      RemoveKeys(keys);
      assert old(log) - keys == Below(old(log), id.index);
    }

    method PurgeLogsUpto(id: LogId)
      modifies this`log, this`lastPurged
      ensures State() == Step(cluster, old(State()), PurgeUpto(id))
    {
      lastPurged := Some(id);
      var keys := set k | k in log && k <= id.index;
      RemoveKeys(keys);
      assert old(log) - keys == Above(old(log), id.index);
    }

    method ApplyToStateMachine(entries: seq<Entry>) returns (out: seq<string>)
      modifies this`world, this`lastMembership, this`lastApplied
      ensures State() == Step(cluster, old(State()), ApplyEntries(entries))
      ensures |out| == |entries|
      ensures forall i :: 0 <= i < |entries| ==>
                out[i] == StepMachine(cluster, RunMachine(cluster, old(State()).machine, entries[..i]), entries[i]).1
    {
      hide ApplyCommand, RunMachine;
      out := [];
      EmptyRun(cluster, old(State()).machine);
      for i := 0 to |entries|
        invariant State() == Step(cluster, old(State()), ApplyEntries(entries[..i]))
        invariant |out| == i
        invariant forall j :: 0 <= j < i ==>
                    out[j] == StepMachine(cluster, RunMachine(cluster, old(State()).machine, entries[..j]), entries[j]).1
      {
        var entry := entries[i];
        assert entries[..i + 1] == entries[..i] + [entry];
        RunOneMore(cluster, old(State()).machine, entries[..i], entry);
        lastApplied := Some(entry.id);
        match entry.payload {
          case Blank =>
            out := out + [""];
          case Normal(cmd) =>
            var (w, message) := ApplyCommand(cluster, world, cmd);
            world := w;
            out := out + [message];
          case Membership(voters) =>
            lastMembership := Some((entry.id, voters));
            out := out + [""];
        }
      }
      assert entries[..|entries|] == entries;
    }

    /** The calls openraft makes over a node's life, one after the other. */
    method Drive(ops: seq<Op>)
      modifies this
      ensures State() == Run(cluster, old(State()), ops)
    {
      hide Step;
      for i := 0 to |ops|
        invariant State() == Run(cluster, old(State()), ops[..i])
      {
        assert ops[..i + 1][..i] == ops[..i];
        match ops[i] {
          case Append(es) => AppendToLog(es);
          case DeleteConflictsSince(id) => DeleteConflictLogsSince(id);
          case PurgeUpto(id) => PurgeLogsUpto(id);
          case ApplyEntries(es) => var _ := ApplyToStateMachine(es);
        }
      }
      assert ops[..|ops|] == ops;
    }

    /** `BTreeMap::range` panics on a range that ends before it starts. */
    method TryGetLogEntries(lo: nat, hi: nat) returns (es: seq<Entry>)
      requires lo <= hi
      ensures es == Range(log, lo, hi)
    {
      es := [];
      for i := lo to hi
        invariant es == Range(log, lo, i)
      {
        if i in log {
          es := es + [log[i]];
        }
      }
    }

    /** Both ends of the log: the highest stored entry, or the purge point if none is. */
    method GetLogState() returns (purged: Option<LogId>, last: Option<LogId>)
      ensures purged == lastPurged
      ensures log == map[] ==> last == lastPurged
      ensures log != map[] ==>
                exists k :: k in log && (forall j :: j in log ==> j <= k) && last == Some(log[k].id)
    {
      purged := lastPurged;
      if log == map[] {
        last := lastPurged;
        return;
      }
      assert log.Keys == {} ==> log == map[];
      var top :| top in log.Keys;
      var rest := log.Keys;
      while rest != {}
        invariant rest <= log.Keys && top in log
        invariant forall j :: j in log && j !in rest ==> j <= top
        decreases rest
      {
        var k :| k in rest;
        if k > top {
          top := k;
        }
        rest := rest - {k};
      }
      last := Some(log[top].id);
    }
  }

  // ---- runs ----

  function Purged(s: Store): nat { if s.lastPurged.Some? then s.lastPurged.value.index + 1 else 0 }
  function Applied(s: Store): nat { if s.lastApplied.Some? then s.lastApplied.value.index + 1 else 0 }
  /** The index the next appended entry gets. */
  function NextIndex(s: Store): nat { Purged(s) + |s.log| }

  /** The sequence of committed entries the whole cluster agrees on. */
  predicate Committed(committed: seq<Entry>)
  {
    forall i :: 0 <= i < |committed| ==> committed[i].id.index == i
  }

  /** openraft's calling order: entries are appended consecutively; conflicts are deleted
      only above what has been applied; only applied entries are purged, by their own id and
      upwards; entries are applied in committed order from the log. */
  predicate Legal(committed: seq<Entry>, s: Store, op: Op)
  {
    match op
    case Append(es) =>
      forall j :: 0 <= j < |es| ==> es[j].id.index == NextIndex(s) + j
    case DeleteConflictsSince(id) =>
      id.index >= Applied(s)
    case PurgeUpto(id) =>
      Purged(s) <= id.index < Applied(s) && id.index in s.log && s.log[id.index].id == id
    case ApplyEntries(es) =>
      && Applied(s) + |es| <= |committed|
      && es == committed[Applied(s)..Applied(s) + |es|]
      && forall j :: 0 <= j < |es| ==> Applied(s) + j in s.log && s.log[Applied(s) + j] == es[j]
  }

  function Run(c: Cluster, s: Store, ops: seq<Op>): (r: Store)
  {
    if ops == [] then s else Step(c, Run(c, s, ops[..|ops| - 1]), ops[|ops| - 1])
  }

  predicate LegalRun(c: Cluster, committed: seq<Entry>, s: Store, ops: seq<Op>)
  {
    forall i :: 0 <= i < |ops| ==> Legal(committed, Run(c, s, ops[..i]), ops[i])
  }

  function Initial(world: World): (s: Store)
  {
    Store(map[], None, None, Machine(world, None))
  }

  // ---- the invariant ----

  /** The stored indices are exactly those after the purge point, each entry under its own
      index. */
  ghost predicate Contiguous(s: Store)
  {
    && (forall i: nat :: i in s.log <==> Purged(s) <= i < NextIndex(s))
    && (forall i :: i in s.log ==> s.log[i].id.index == i)
  }

  /** Purge point and applied point are ids of committed entries, in order and within the
      log, and what is stored below the applied point is the committed sequence. */
  ghost predicate LogInv(committed: seq<Entry>, s: Store)
  {
    && Contiguous(s)
    && Purged(s) <= Applied(s) <= NextIndex(s) && Applied(s) <= |committed|
    && (forall i :: Purged(s) <= i < Applied(s) ==> s.log[i] == committed[i])
    && (s.lastPurged.Some? ==> s.lastPurged.value == committed[Purged(s) - 1].id)
    && (s.lastApplied.Some? ==> s.lastApplied.value == committed[Applied(s) - 1].id)
  }

  /** The machine is the fold of the committed entries up to the applied point. */
  ghost predicate Inv(c: Cluster, committed: seq<Entry>, world: World, s: Store)
  {
    LogInv(committed, s) && s.machine == RunMachine(c, Machine(world, None), committed[..Applied(s)])
  }

  /** A log whose indices are `lo` up to `hi` has `hi - lo` entries. */
  lemma {:induction false} LogSize(log: map<nat, Entry>, lo: nat, hi: nat)
    requires lo <= hi && forall i: nat :: i in log <==> lo <= i < hi
    ensures |log| == hi - lo
    decreases hi - lo
  {
    if lo == hi {
      assert log.Keys == {};
    } else {
      var rest := log - {hi - 1};
      LogSize(rest, lo, hi - 1);
      assert log.Keys == rest.Keys + {hi - 1};
    }
  }

  lemma {:induction false} InsertRange(log: map<nat, Entry>, es: seq<Entry>, lo: nat, hi: nat)
    requires lo <= hi && forall i: nat :: i in log <==> lo <= i < hi
    requires forall i :: i in log ==> log[i].id.index == i
    requires forall j :: 0 <= j < |es| ==> es[j].id.index == hi + j
    ensures forall i: nat :: i in Insert(log, es) <==> lo <= i < hi + |es|
    ensures forall i :: i in Insert(log, es) ==> Insert(log, es)[i].id.index == i
    ensures forall i :: i in log ==> Insert(log, es)[i] == log[i]
  {
    if es != [] {
      InsertRange(log, es[..|es| - 1], lo, hi);
    }
  }

  lemma AppendKeepsInv(c: Cluster, committed: seq<Entry>, s: Store, es: seq<Entry>)
    requires LogInv(committed, s) && Legal(committed, s, Append(es))
    ensures LogInv(committed, Step(c, s, Append(es)))
  {
    hide RunMachine, Insert;
    InsertRange(s.log, es, Purged(s), NextIndex(s));
    LogSize(Insert(s.log, es), Purged(s), NextIndex(s) + |es|);
  }

  lemma DeleteKeepsInv(c: Cluster, committed: seq<Entry>, s: Store, id: LogId)
    requires LogInv(committed, s) && Legal(committed, s, DeleteConflictsSince(id))
    ensures LogInv(committed, Step(c, s, DeleteConflictsSince(id)))
  {
    hide RunMachine;
    var hi := if id.index < NextIndex(s) then id.index else NextIndex(s);
    LogSize(Below(s.log, id.index), Purged(s), hi);
  }

  lemma PurgeKeepsInv(c: Cluster, committed: seq<Entry>, s: Store, id: LogId)
    requires LogInv(committed, s) && Legal(committed, s, PurgeUpto(id))
    ensures LogInv(committed, Step(c, s, PurgeUpto(id)))
  {
    hide RunMachine;
    LogSize(Above(s.log, id.index), id.index + 1, NextIndex(s));
  }

  lemma ApplyKeepsInv(c: Cluster, committed: seq<Entry>, s: Store, es: seq<Entry>)
    requires Committed(committed) && LogInv(committed, s) && es != [] && Legal(committed, s, ApplyEntries(es))
    ensures LogInv(committed, Step(c, s, ApplyEntries(es)))
    ensures Applied(Step(c, s, ApplyEntries(es))) == Applied(s) + |es|
  {
    hide RunMachine;
    var a, s' := Applied(s), Step(c, s, ApplyEntries(es));
    assert es[|es| - 1] == committed[a + |es| - 1];
    assert Applied(s') == a + |es|;
    AppliedAreStored(committed, s, es);
    assert Contiguous(s') && NextIndex(s') == NextIndex(s) && Purged(s') == Purged(s);
  }

  lemma AppliedAreStored(committed: seq<Entry>, s: Store, es: seq<Entry>)
    requires LogInv(committed, s) && es != [] && Legal(committed, s, ApplyEntries(es))
    ensures Applied(s) + |es| <= NextIndex(s)
    ensures forall i :: Purged(s) <= i < Applied(s) + |es| ==> s.log[i] == committed[i]
  {
    var a, last := Applied(s), es[|es| - 1];
    assert a + (|es| - 1) in s.log && s.log[a + (|es| - 1)] == last;
    forall i | Purged(s) <= i < a + |es|
      ensures s.log[i] == committed[i]
    {
      if i >= a {
        assert s.log[a + (i - a)] == es[i - a];
      }
    }
  }

  lemma ApplyAdvancesMachine(c: Cluster, committed: seq<Entry>, world: World, s: Store, es: seq<Entry>)
    requires Inv(c, committed, world, s) && Legal(committed, s, ApplyEntries(es))
    ensures Step(c, s, ApplyEntries(es)).machine == RunMachine(c, Machine(world, None), committed[..Applied(s) + |es|])
  {
    hide RunMachine, LogInv;
    var a := Applied(s);
    RunMachineAppend(c, Machine(world, None), committed[..a], es);
    assert committed[..a] + es == committed[..a + |es|];
  }

  lemma StepKeepsInv(c: Cluster, committed: seq<Entry>, world: World, s: Store, op: Op)
    requires Committed(committed) && Inv(c, committed, world, s) && Legal(committed, s, op)
    ensures Inv(c, committed, world, Step(c, s, op))
  {
    hide LogInv, Legal, RunMachine;
    match op {
      case Append(es) => AppendKeepsInv(c, committed, s, es);
      case DeleteConflictsSince(id) => DeleteKeepsInv(c, committed, s, id);
      case PurgeUpto(id) => PurgeKeepsInv(c, committed, s, id);
      case ApplyEntries(es) =>
        if es == [] {
          EmptyRun(c, s.machine);
          assert Step(c, s, op) == s;
        } else {
          ApplyKeepsInv(c, committed, s, es);
          ApplyAdvancesMachine(c, committed, world, s, es);
        }
    }
  }

  lemma RunOneMore(c: Cluster, m: Machine, es: seq<Entry>, e: Entry)
    ensures RunMachine(c, m, es + [e]) == StepMachine(c, RunMachine(c, m, es), e).0
  {
    hide StepMachine;
    assert (es + [e])[..|es|] == es;
  }

  lemma EmptyRun(c: Cluster, m: Machine)
    ensures RunMachine(c, m, []) == m
  {
  }

  /** Every legal run, however it appends, truncates, purges and batches. */
  lemma {:induction false} RunKeepsInv(c: Cluster, committed: seq<Entry>, world: World, ops: seq<Op>)
    requires Committed(committed) && LegalRun(c, committed, Initial(world), ops)
    ensures Inv(c, committed, world, Run(c, Initial(world), ops))
  {
    hide Legal, Step;
    var s0 := Initial(world);
    if ops == [] {
      EmptyRun(c, Machine(world, None));
      assert committed[..0] == [];
    } else {
      var before := ops[..|ops| - 1];
      assert forall i :: 0 <= i < |before| ==> before[i] == ops[i] && before[..i] == ops[..i];
      RunKeepsInv(c, committed, world, before);
      assert ops[..|ops| - 1] == before;
      StepKeepsInv(c, committed, world, Run(c, s0, before), ops[|ops| - 1]);
    }
  }

  /** `get_log_state` in a reachable state: the purge point, and the id of the entry just
      below the next index, or the purge point again when nothing is stored. */
  lemma LogStateReportsBothEnds(c: Cluster, committed: seq<Entry>, world: World, s: Store, k: nat)
    requires Committed(committed) && Inv(c, committed, world, s)
    requires k in s.log && forall j :: j in s.log ==> j <= k
    ensures k == NextIndex(s) - 1 && s.log[k].id.index == k
  {
    assert NextIndex(s) - 1 in s.log;
  }

  /** In a reachable state every range above the purge point is read without a gap, each
      entry at its own index, and what is applied is the committed sequence. */
  lemma {:induction false} RangeHasNoGap(committed: seq<Entry>, s: Store, lo: nat, hi: nat)
    requires LogInv(committed, s) && Purged(s) <= lo <= hi <= NextIndex(s)
    ensures |Range(s.log, lo, hi)| == hi - lo
    ensures forall j :: 0 <= j < hi - lo ==> Range(s.log, lo, hi)[j] == s.log[lo + j]
    ensures hi <= Applied(s) ==> Range(s.log, lo, hi) == committed[lo..hi]
  {
    if lo < hi {
      RangeHasNoGap(committed, s, lo, hi - 1);
      assert hi - 1 in s.log;
      if hi <= Applied(s) {
        assert committed[lo..hi] == committed[lo..hi - 1] + [committed[hi - 1]];
      }
    }
  }

  /** Replicas never diverge: one that has applied further is the other one plus the
      committed entries in between. */
  lemma LaggingReplicaCatchesUp(c: Cluster, committed: seq<Entry>, world: World, ops: seq<Op>, ops': seq<Op>)
    requires Committed(committed)
    requires LegalRun(c, committed, Initial(world), ops) && LegalRun(c, committed, Initial(world), ops')
    requires Applied(Run(c, Initial(world), ops)) <= Applied(Run(c, Initial(world), ops'))
    ensures
      var s, s' := Run(c, Initial(world), ops), Run(c, Initial(world), ops');
      Applied(s') <= |committed| && s'.machine == RunMachine(c, s.machine, committed[Applied(s)..Applied(s')])
  {
    hide LegalRun, Run, RunMachine;
    RunKeepsInv(c, committed, world, ops);
    RunKeepsInv(c, committed, world, ops');
    var n, n' := Applied(Run(c, Initial(world), ops)), Applied(Run(c, Initial(world), ops'));
    RunMachineAppend(c, Machine(world, None), committed[..n], committed[n..n']);
    assert committed[..n] + committed[n..n'] == committed[..n'];
  }

  /** Two replicas that have applied equally far hold equal worlds and memberships, however
      differently they were driven. */
  lemma ReplicasAgree(c: Cluster, committed: seq<Entry>, world: World, ops: seq<Op>, ops': seq<Op>)
    requires Committed(committed)
    requires LegalRun(c, committed, Initial(world), ops) && LegalRun(c, committed, Initial(world), ops')
    requires Run(c, Initial(world), ops).lastApplied == Run(c, Initial(world), ops').lastApplied
    ensures Run(c, Initial(world), ops).machine == Run(c, Initial(world), ops').machine
  {
    hide LegalRun, Run;
    RunKeepsInv(c, committed, world, ops);
    RunKeepsInv(c, committed, world, ops');
  }

  // ---- snapshots are outside these runs ----

  /** `install_snapshot`: the applied point and the membership move, the world does not. */
  function InstallSnapshot(s: Store, id: Option<LogId>, membership: Option<(LogId, set<nat>)>): (r: Store)
  {
    s.(lastApplied := id, machine := s.machine.(membership := membership))
  }

  /** The entries would leave the world as it is: each last scaling and heartbeat repeats
      what is there, and the last command would leave the same stamp. */
  ghost predicate NoEffect(c: Cluster, w: World, es: seq<Entry>)
  {
    && (forall d :: d in w.deployments && LastScale(es, d).Some? ==> LastScale(es, d).value == w.deployments[d].replicas)
    && (forall n :: n in w.nodes && LastBeat(es, n).Some? ==> Beaten(w.nodes[n], LastBeat(es, n)) == w.nodes[n])
    && (LastCommand(es).Some? ==> w.runtime == "raft:[raft] " + ApplyCommand(c, w, LastCommand(es).value).1)
  }

  lemma UpdatesKeepWorldIff(c: Cluster, m: Machine, es: seq<Entry>)
    requires OnlyUpdates(es)
    ensures RunMachine(c, m, es).world == m.world <==> NoEffect(c, m.world, es)
  {
    hide ApplyCommand, RunMachine, LastScale, LastBeat, LastCommand, OnlyUpdates;
    LastScaleWins(c, m, es);
    var w, w' := m.world, RunMachine(c, m, es).world;
    if NoEffect(c, w, es) {
      assert forall d :: d in w.deployments ==> w'.deployments[d] == w.deployments[d];
      assert w'.deployments == w.deployments;
      assert forall n :: n in w.nodes ==> w'.nodes[n] == w.nodes[n];
      assert w'.nodes == w.nodes;
    }
  }

  /** Whatever the entries are, the world carries the stamp of the last command. */
  lemma {:induction false} LastCommandStamps(c: Cluster, m: Machine, es: seq<Entry>, k: nat)
    requires k < |es| && es[k].payload.Normal? && forall j :: k < j < |es| ==> !es[j].payload.Normal?
    ensures RunMachine(c, m, es).world.runtime == "raft:[raft] " + StepMachine(c, RunMachine(c, m, es[..k]), es[k]).1
  {
    hide ApplyCommand;
    var before := es[..|es| - 1];
    if k < |es| - 1 {
      assert before[..k] == es[..k];
      LastCommandStamps(c, m, before, k);
    }
  }

  /** Installing the snapshot of the first `n` committed entries leaves the world where it was.
      It then is the fold of those entries if and only if the skipped ones change nothing; for
      entries that only scale and beat this is decided by the last of each. */
  lemma SnapshotWorldIsFoldIff(c: Cluster, committed: seq<Entry>, world: World, s: Store, n: nat,
                               membership: Option<(LogId, set<nat>)>)
    requires Committed(committed) && Inv(c, committed, world, s) && Applied(s) <= n <= |committed| && n > 0
    ensures
      var s' := InstallSnapshot(s, Some(committed[n - 1].id), membership);
      var skipped := committed[Applied(s)..n];
      var isFold := s'.machine.world == RunMachine(c, Machine(world, None), committed[..n]).world;
      && Applied(s') == n && s'.machine.membership == membership
      && s'.log == s.log && s'.lastPurged == s.lastPurged && s'.machine.world == s.machine.world
      && (isFold <==> RunMachine(c, s.machine, skipped).world == s.machine.world)
      && (OnlyUpdates(skipped) ==> (isFold <==> NoEffect(c, s.machine.world, skipped)))
      && (LastCommand(skipped).None? ==> isFold)
  {
    hide RunMachine, LastScale, LastBeat, ApplyCommand, NoEffect, LogInv, OnlyUpdates;
    var a, skipped := Applied(s), committed[Applied(s)..n];
    RunMachineAppend(c, Machine(world, None), committed[..a], skipped);
    assert committed[..a] + skipped == committed[..n];
    if OnlyUpdates(skipped) {
      UpdatesKeepWorldIff(c, s.machine, skipped);
    }
    if LastCommand(skipped).None? {
      QuietEntries(c, s.machine, skipped);
    }
  }

  lemma {:induction false} QuietEntries(c: Cluster, m: Machine, es: seq<Entry>)
    requires LastCommand(es).None?
    ensures RunMachine(c, m, es).world == m.world
  {
    hide ApplyCommand;
    if es != [] {
      QuietEntries(c, m, es[..|es| - 1]);
    }
  }

  /** A replica that holds the whole log and installs a snapshot: every index agrees with the
      committed sequence, and the world is not its fold. */
  lemma SnapshotSkipsCommands(c: Cluster, name: string, namespace: string, from: nat, to: nat, spec: string)
    requires from != to
    ensures
      var committed := [Entry(LogId(1, 1, 0), Normal(Scale(name, namespace, to)))];
      var world := World(map[name := Deployment(from, spec)], map[], "", map[]);
      var s := Run(c, Initial(world), [Append(committed)]);
      var s' := InstallSnapshot(s, Some(committed[0].id), None);
      && Committed(committed) && LegalRun(c, committed, Initial(world), [Append(committed)])
      && LogInv(committed, s') && Applied(s') == 1
      && s'.machine.world.deployments == map[name := Deployment(from, spec)]
      && RunMachine(c, Machine(world, None), committed[..1]).world.deployments == map[name := Deployment(to, spec)]
  {
    var committed := [Entry(LogId(1, 1, 0), Normal(Scale(name, namespace, to)))];
    var world := World(map[name := Deployment(from, spec)], map[], "", map[]);
    var ops := [Append(committed)];
    assert ops[..0] == [] && committed[..0] == [];
    assert Insert(map[], committed) == map[0 := committed[0]];
    assert LegalRun(c, committed, Initial(world), ops);
    RunKeepsInv(c, committed, world, ops);
    var s := Run(c, Initial(world), ops);
    assert s == Initial(world).(log := map[0 := committed[0]]);
    assert committed[..1] == committed;
    assert RunMachine(c, Machine(world, None), committed) == StepMachine(c, Machine(world, None), committed[0]).0;
  }
}
