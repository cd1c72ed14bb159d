/**
 The file-based leader lease.

 An attempt reads the clock, looks at the lease file and, if it may, opens the temporary file
 all instances share, writes its lease into it and renames it; a shutdown looks at the lease
 file and removes it if it is its own.  All of these are separate steps, so steps of other
 instances can fall in between.  Files are names for numbered contents: a rename moves the
 name, and who has opened the temporary file before goes on writing into what has become the
 lease.  An instance mutates the cluster from an attempt that returned true until its next
 attempt returns, however long that takes.  Nothing is assumed of the clocks: each attempt
 reads whatever its machine shows.

 The promise is one mutator at a time.  A run breaks it exactly if one of its renames is a
 race: it replaces the lease of an instance that has not stood down, fresh or run out, or it
 succeeds while the lease of such an instance has been removed by somebody's release, or
 displaced by writes into the shared file.
 */
module LeaderLease {
  import opened Bytes

  type NodeId = string

  const TTL := 15

  datatype Lease = Lease(leader: NodeId, acquiredAt: nat)

  /** What is in a file; garbled text does not parse. */
  datatype Content = Empty | Written(lease: Lease) | Garbled

  /** Where an instance is inside an attempt, with the clock it read, or inside a release. */
  datatype Phase =
    | Reading(now: nat)
    | Cleared(now: nat)
    | Opened(now: nat, file: nat)
    | Filled(now: nat)
    | Removing

  /** `link` and `tmp` are the contents the lease file and the temporary file name, if they
      exist.  `leads` holds the instances whose last attempt returned true, with the clock it
      read.  The last two only observe: the instances whose lease another one removed, or
      displaced, and whose own lease has not been installed since. */
  datatype State = State(
    disk: seq<Content>,
    link: Option<nat>,
    tmp: Option<nat>,
    phase: map<NodeId, Phase>,
    leads: map<NodeId, nat>,
    removed: set<NodeId>,
    displaced: set<NodeId>)

  datatype Event =
    | Start(node: NodeId, now: nat)
    | Look(node: NodeId)
    | Open(node: NodeId)
    | Fill(node: NodeId, whole: bool)
    | Break(node: NodeId)
    | Rename(node: NodeId)
    | Fail(node: NodeId)
    | Inspect(node: NodeId)
    | Remove(node: NodeId)
    | Crash(node: NodeId)

  function ContentOf(disk: seq<Content>, name: Option<nat>): (r: Option<Lease>)
  {
    if name.Some? && name.value < |disk| && disk[name.value].Written? then Some(disk[name.value].lease) else None
  }

  /** The lease a reader of the lease file sees: none if it is missing or unreadable. */
  function File(s: State): (r: Option<Lease>)
  {
    ContentOf(s.disk, s.link)
  }

  /** The test of `try_acquire_lease`: own lease, no lease, or one that has run out. */
  predicate MayClaim(file: Option<Lease>, now: nat, node: NodeId)
  {
    match file
    case None => true
    case Some(l) => l.leader == node || !(Age(now, l.acquiredAt) < TTL && l.leader != "")
  }

  function Age(now: nat, acquired: nat): (r: nat)
  {
    if now >= acquired then now - acquired else 0
  }

  predicate Names(file: Option<Lease>, p: NodeId)
  {
    file.Some? && file.value.leader == p
  }

  predicate InWrite(s: State, p: NodeId)
  {
    p in s.phase && (s.phase[p].Cleared? || s.phase[p].Opened? || s.phase[p].Filled?)
  }

  predicate HasOpen(s: State, p: NodeId)
  {
    p in s.phase && s.phase[p].Opened? && s.phase[p].file < |s.disk|
  }

  /** Written over other text, a lease may come out garbled, as the texts differ in length. */
  predicate Enabled(s: State, e: Event)
  {
    match e
    case Start(p, _) => p != "" && p !in s.phase
    case Look(p) => p in s.phase && s.phase[p].Reading?
    case Open(p) => p in s.phase && s.phase[p].Cleared?
    case Fill(p, whole) => HasOpen(s, p) && (s.disk[s.phase[p].file].Empty? ==> whole)
    case Break(p) => HasOpen(s, p)
    case Rename(p) => p in s.phase && s.phase[p].Filled?
    case Fail(p) => InWrite(s, p)
    case Inspect(p) => p in s.leads && p !in s.phase
    case Remove(p) => p in s.phase && s.phase[p].Removing?
    case Crash(_) => true
  }

  /** Opening, writing and renaming can each fail, and an instance can crash at any time. */
  lemma AnyStepCanFail(s: State, p: NodeId)
    requires p in s.phase && !s.phase[p].Reading? && !s.phase[p].Removing?
    ensures Enabled(s, Fail(p)) && Enabled(s, Crash(p))
  {
  }

  /** The instance is through with its attempt, which returned false, or is gone. */
  function StoodDown(s: State, p: NodeId): (r: State)
  {
    s.(phase := s.phase - {p}, leads := s.leads - {p})
  }

  /** A write into opened contents: if they have become the lease file and named another
      instance, that one is displaced. */
  function Overwritten(s: State, i: nat, c: Content, p: NodeId): (r: State)
    requires i < |s.disk|
  {
    var was := File(s);
    s.(disk := s.disk[i := c],
       displaced := if s.link == Some(i) && was.Some? && (was.value.leader != p || !c.Written?)
                    then s.displaced + {was.value.leader} else s.displaced)
  }

  function Step(s: State, e: Event): (r: State)
    requires Enabled(s, e)
  {
    match e
    case Start(p, now) => s.(phase := s.phase[p := Reading(now)])
    case Look(p) =>
      var now := s.phase[p].now;
      if MayClaim(File(s), now, p) then s.(phase := s.phase[p := Cleared(now)]) else StoodDown(s, p)
    case Open(p) =>
      var now := s.phase[p].now;
      if s.tmp.Some? && s.tmp.value < |s.disk|
      then s.(disk := s.disk[s.tmp.value := Empty], phase := s.phase[p := Opened(now, s.tmp.value)])
      else s.(disk := s.disk + [Empty], tmp := Some(|s.disk|), phase := s.phase[p := Opened(now, |s.disk|)])
    case Fill(p, whole) =>
      var now, i := s.phase[p].now, s.phase[p].file;
      Overwritten(s, i, if whole then Written(Lease(p, now)) else Garbled, p).(phase := s.phase[p := Filled(now)])
    case Break(p) => StoodDown(Overwritten(s, s.phase[p].file, Garbled, p), p)
    case Rename(p) => if s.tmp.None? then StoodDown(s, p) else Renamed(s, p)
    case Fail(p) => StoodDown(s, p)
    case Inspect(p) =>
      s.(leads := s.leads - {p}, phase := if Names(File(s), p) then s.phase[p := Removing] else s.phase)
    case Remove(p) =>
      var was := File(s);
      s.(link := None, phase := s.phase - {p},
         removed := if was.Some? && was.value.leader != p then s.removed + {was.value.leader} else s.removed)
    case Crash(p) => StoodDown(s, p)
  }

  /** Whatever the temporary file holds becomes the lease file, and the attempt returns true. */
  function Renamed(s: State, p: NodeId): (r: State)
    requires p in s.phase && s.phase[p].Filled?
  {
    var own := Names(ContentOf(s.disk, s.tmp), p);
    s.(link := s.tmp, tmp := None, phase := s.phase - {p}, leads := s.leads[p := s.phase[p].now],
       removed := if own then s.removed - {p} else s.removed,
       displaced := if own then s.displaced - {p} else s.displaced + {p})
  }

  // ---- runs ----

  const START := State([], None, None, map[], map[], {}, {})

  predicate Legal(h: seq<Event>)
    decreases |h|, 0
  {
    h == [] || (Legal(h[..|h| - 1]) && Enabled(Run(h[..|h| - 1]), h[|h| - 1]))
  }

  function Run(h: seq<Event>): (s: State)
    requires Legal(h)
    decreases |h|, 1
  {
    if h == [] then START else Step(Run(h[..|h| - 1]), h[|h| - 1])
  }

  ghost predicate OneLeader(s: State)
  {
    forall p, q :: p in s.leads && q in s.leads ==> p == q
  }

  ghost predicate AlwaysOneLeader(h: seq<Event>)
    requires Legal(h)
  {
    OneLeader(Run(h)) && (h == [] || AlwaysOneLeader(h[..|h| - 1]))
  }

  // ---- the four races ----

  /** The file names another instance that has not stood down. */
  predicate HeldByOther(s: State, q: NodeId)
  {
    File(s).Some? && File(s).value.leader != q && File(s).value.leader in s.leads
  }

  /** A rename that succeeds. */
  predicate Takes(s: State, e: Event)
  {
    e.Rename? && s.tmp.Some? && e.node in s.phase && s.phase[e.node].Filled?
  }

  /** By the taker's clock, the lease in the file is still running. */
  predicate Running(s: State, q: NodeId)
    requires q in s.phase && s.phase[q].Filled?
  {
    File(s).Some? && Age(s.phase[q].now, File(s).value.acquiredAt) < TTL
  }

  /** It replaces a lease that is still running: the look that allowed it is out of date. */
  predicate Overlap(s: State, e: Event)
  {
    Takes(s, e) && HeldByOther(s, e.node) && Running(s, e.node)
  }

  /** It replaces a lease that has run out while its holder still acts on it. */
  predicate LateRenewal(s: State, e: Event)
  {
    Takes(s, e) && HeldByOther(s, e.node) && !Running(s, e.node)
  }

  /** A release has removed the lease of another instance that still acts on it. */
  predicate StrayRemoval(s: State, e: Event)
  {
    Takes(s, e) && exists p :: p in s.removed && p in s.leads && p != e.node
  }

  /** Another instance acts on a lease that writes into the shared file have displaced. */
  predicate SharedFile(s: State, e: Event)
  {
    Takes(s, e) && exists p :: p in s.displaced && p in s.leads && p != e.node
  }

  predicate Race(s: State, e: Event)
  {
    Overlap(s, e) || LateRenewal(s, e) || StrayRemoval(s, e) || SharedFile(s, e)
  }

  /** Holds of every event of the run, in the state it happens in. */
  ghost predicate Throughout(h: seq<Event>, good: (State, Event) -> bool)
    requires Legal(h)
  {
    h == [] || (Throughout(h[..|h| - 1], good) && good(Run(h[..|h| - 1]), h[|h| - 1]))
  }

  ghost predicate NoRace(h: seq<Event>)
    requires Legal(h)
  {
    Throughout(h, NotRace)
  }

  predicate NotRace(s: State, e: Event) { !Race(s, e) }
  predicate NotOverlap(s: State, e: Event) { !Overlap(s, e) }
  predicate NotLate(s: State, e: Event) { !LateRenewal(s, e) }
  predicate NotStray(s: State, e: Event) { !StrayRemoval(s, e) }
  predicate NotShared(s: State, e: Event) { !SharedFile(s, e) }

  // ---- what every run keeps, races included ----

  /** Lease file and temporary file are different files, and opened files exist. */
  ghost predicate FilesExist(s: State)
  {
    && (s.link.Some? ==> s.link.value < |s.disk|)
    && (s.tmp.Some? ==> s.tmp.value < |s.disk| && s.tmp != s.link)
    && (forall p :: p in s.phase && s.phase[p].Opened? ==> s.phase[p].file < |s.disk|)
  }

  /** Identifiers are not empty, and who is shutting down does not lead. */
  ghost predicate NodesExist(s: State)
  {
    && (forall p :: p in s.leads ==> p != "")
    && (forall p :: p in s.phase ==> p != "" && (s.phase[p].Removing? ==> p !in s.leads))
  }

  ghost predicate Traceable(s: State)
  {
    FilesExist(s) && NodesExist(s)
  }

  lemma StepIsTraceable(s: State, e: Event)
    requires Traceable(s) && Enabled(s, e)
    ensures Traceable(Step(s, e))
  {
  }

  lemma {:induction false} RunIsTraceable(h: seq<Event>)
    requires Legal(h)
    ensures Traceable(Run(h))
  {
    hide Step, Enabled;
    if h != [] {
      RunIsTraceable(h[..|h| - 1]);
      StepIsTraceable(Run(h[..|h| - 1]), h[|h| - 1]);
    }
  }

  // ---- who leads, read off the history ----

  /** The event ends an attempt of `p`, its part in the cluster, or the instance itself; a look
      does so exactly if the lease it finds is another's, named and still running. */
  predicate Ends(s: State, e: Event, p: NodeId)
  {
    match e
    case Look(q) => q == p && q in s.phase && s.phase[q].Reading? && Refuses(File(s), s.phase[q].now, q)
    case Rename(q) => q == p
    case Fail(q) => q == p
    case Break(q) => q == p
    case Inspect(q) => q == p
    case Crash(q) => q == p
    case _ => false
  }

  predicate Refuses(file: Option<Lease>, now: nat, q: NodeId)
  {
    file.Some? && file.value.leader != q && file.value.leader != "" && now < file.value.acquiredAt + 15
  }

  /** The last event that ended something for `p` is a rename, and there was a file to rename. */
  ghost predicate LastSucceeded(h: seq<Event>, p: NodeId)
    requires Legal(h)
  {
    h != [] &&
    var s, e := Run(h[..|h| - 1]), h[|h| - 1];
    if Ends(s, e, p) then e.Rename? && s.tmp.Some? else LastSucceeded(h[..|h| - 1], p)
  }

  /** Of every run: an instance leads if and only if the last thing that ended for it is an
      attempt that returned true. */
  lemma {:induction false} LeadsIff(h: seq<Event>, p: NodeId)
    requires Legal(h)
    ensures p in Run(h).leads <==> LastSucceeded(h, p)
  {
    if h != [] {
      LeadsIff(h[..|h| - 1], p);
      StepLeads(Run(h[..|h| - 1]), h[|h| - 1], p);
    }
  }

  lemma StepLeads(s: State, e: Event, p: NodeId)
    requires Enabled(s, e)
    ensures p in Step(s, e).leads <==> if Ends(s, e, p) then e.Rename? && s.tmp.Some? else p in s.leads
  {
  }

  predicate SameFor(s: State, s': State, q: NodeId)
  {
    && (q in s.phase <==> q in s'.phase) && (q in s.phase ==> s'.phase[q] == s.phase[q])
    && (q in s.leads <==> q in s'.leads) && (q in s.leads ==> s'.leads[q] == s.leads[q])
  }

  /** A step concerns its own instance only; and what ends, or removes, leaves it idle, except
      that a shutdown that finds its own lease goes on to remove it. */
  lemma StepIsLocal(s: State, e: Event, q: NodeId)
    requires Enabled(s, e)
    ensures q != e.node ==> SameFor(s, Step(s, e), q)
    ensures (Ends(s, e, q) || e == Remove(q)) && e != Inspect(q) ==> q !in Step(s, e).phase
    ensures e == Inspect(q) ==>
              if Names(File(s), q) then q in Step(s, e).phase && Step(s, e).phase[q].Removing?
              else q !in Step(s, e).phase
  {
  }

  /** Only writing, renaming and removing change what the lease file shows, and a write only if
      it goes into a file that has been renamed since it was opened. */
  lemma FileChangesBy(s: State, e: Event)
    requires Traceable(s) && Enabled(s, e)
    ensures File(Step(s, e)) ==
            match e
            case Fill(p, whole) =>
              if s.link != Some(s.phase[p].file) then File(s)
              else if whole then Some(Lease(p, s.phase[p].now)) else None
            case Break(p) => if s.link != Some(s.phase[p].file) then File(s) else None
            case Rename(_) => if s.tmp.None? then File(s) else ContentOf(s.disk, s.tmp)
            case Remove(_) => None
            case _ => File(s)
  {
  }

  /** An attempt is refused if and only if the file names another instance whose lease is
      younger than the lease time by the clock read; the instance then does not lead. */
  lemma RefusedIff(h: seq<Event>, q: NodeId, now: nat)
    requires Legal(h) && q != "" && q !in Run(h).phase
    ensures
      var h' := h + [Start(q, now), Look(q)];
      && Legal(h') && File(Run(h')) == File(Run(h))
      && (q !in Run(h').phase <==> Refuses(File(Run(h)), now, q))
      && (q !in Run(h').phase ==> q !in Run(h').leads)
      && (q in Run(h').phase ==> Run(h').phase[q] == Cleared(now) && SameLeads(Run(h), Run(h')))
  {
    hide Run, Legal;
    Extend(h, Start(q, now));
    Extend(h + [Start(q, now)], Look(q));
    assert h + [Start(q, now)] + [Look(q)] == h + [Start(q, now), Look(q)];
  }

  predicate SameLeads(s: State, s': State) { s'.leads == s.leads }

  // ---- one leader exactly without races ----

  /** Whoever leads is named by the file, or its lease was removed or displaced. */
  ghost predicate LeaderIsKnown(s: State)
  {
    forall p :: p in s.leads ==> Names(File(s), p) || p in s.removed || p in s.displaced
  }

  /** Without a race a rename succeeds only when nobody else leads. */
  lemma NobodyElse(s: State, e: Event)
    requires LeaderIsKnown(s) && Takes(s, e) && !Race(s, e)
    ensures forall p :: p in s.leads ==> p == e.node
  {
  }

  lemma StepWithoutRace(s: State, e: Event)
    requires Traceable(s) && Enabled(s, e) && OneLeader(s) && LeaderIsKnown(s) && !Race(s, e)
    ensures OneLeader(Step(s, e)) && LeaderIsKnown(Step(s, e))
  {
    if Takes(s, e) {
      NobodyElse(s, e);
    }
  }

  /** Every race makes a second leader, in any state. */
  lemma RaceMakesTwo(s: State, e: Event)
    requires Enabled(s, e) && Race(s, e)
    ensures !OneLeader(Step(s, e))
  {
    var p :| p in s.leads && p != e.node;
    assert p in Step(s, e).leads && e.node in Step(s, e).leads;
  }

  lemma {:induction false} WithoutRace(h: seq<Event>)
    requires Legal(h) && NoRace(h)
    ensures AlwaysOneLeader(h) && LeaderIsKnown(Run(h))
  {
    hide Step, Enabled, Race;
    if h != [] {
      WithoutRace(h[..|h| - 1]);
      RunIsTraceable(h[..|h| - 1]);
      StepWithoutRace(Run(h[..|h| - 1]), h[|h| - 1]);
    }
  }

  lemma {:induction false} OneLeaderHasNoRace(h: seq<Event>)
    requires Legal(h) && AlwaysOneLeader(h)
    ensures NoRace(h)
  {
    hide Step, Enabled, Race;
    if h != [] {
      var before, e := h[..|h| - 1], h[|h| - 1];
      OneLeaderHasNoRace(before);
      if Race(Run(before), e) {
        RaceMakesTwo(Run(before), e);
      }
    }
  }

  /** Of every run: there is one leader at all times if and only if no rename is a race. */
  lemma OneLeaderIffNoRace(h: seq<Event>)
    requires Legal(h)
    ensures AlwaysOneLeader(h) <==> NoRace(h)
  {
    if NoRace(h) {
      WithoutRace(h);
    }
    if AlwaysOneLeader(h) {
      OneLeaderHasNoRace(h);
    }
  }

  // ---- ways to stay clear of them ----

  /** No step of another instance falls into an attempt: each of its steps comes right after
      the one before. */
  predicate UnbrokenAttempts(h: seq<Event>)
  {
    forall i :: 0 <= i < |h| ==> InPlace(h, i)
  }

  predicate InPlace(h: seq<Event>, i: nat)
    requires i < |h|
  {
    InSequence(if i > 0 then Some(h[i - 1]) else None, h[i])
  }

  predicate InSequence(before: Option<Event>, e: Event)
  {
    match e
    case Look(p) => before.Some? && before.value.Start? && before.value.node == p
    case Open(p) => before == Some(Look(p))
    case Fill(p, _) => before == Some(Open(p))
    case Break(p) => before == Some(Open(p))
    case Rename(p) => before.Some? && before.value.Fill? && before.value.node == p
    case _ => true
  }

  /** No other step falls into a release. */
  predicate UnbrokenReleases(h: seq<Event>)
  {
    forall i :: 0 <= i < |h| && h[i].Remove? ==> i > 0 && h[i - 1] == Inspect(h[i].node)
  }

  /** Whenever a rename succeeds, no other leader's attempt is a lease time ago by the taker's
      clock. */
  predicate OnTime(s: State, e: Event)
  {
    Takes(s, e) ==> forall p :: p in s.leads && p != e.node ==> s.phase[e.node].now < s.leads[p] + TTL
  }

  /** A leader's own clock does not go back from one attempt to the next. */
  predicate ClockAdvances(s: State, e: Event)
  {
    e.Start? && e.node in s.leads ==> s.leads[e.node] <= e.now
  }

  lemma Shorter(h: seq<Event>)
    requires h != []
    ensures UnbrokenAttempts(h) ==> UnbrokenAttempts(h[..|h| - 1])
    ensures UnbrokenReleases(h) ==> UnbrokenReleases(h[..|h| - 1])
  {
    hide InSequence;
    var before := h[..|h| - 1];
    assert forall i :: 0 <= i < |before| ==> before[i] == h[i];
    if UnbrokenAttempts(h) {
      forall i | 0 <= i < |before|
        ensures InPlace(before, i)
      {
        assert InPlace(h, i);
      }
    }
  }

  lemma LastStep(h: seq<Event>)
    requires Legal(h) && h != []
    ensures Legal(h[..|h| - 1]) && Enabled(Run(h[..|h| - 1]), h[|h| - 1])
    ensures Run(h) == Step(Run(h[..|h| - 1]), h[|h| - 1])
  {
  }

  /** The last step of an unbroken attempt and what came right before it. */
  lemma StepBefore(h: seq<Event>) returns (s: State, e: Event)
    requires Legal(h) && UnbrokenAttempts(h) && h != []
    requires h[|h| - 1].Look? || h[|h| - 1].Open? || h[|h| - 1].Fill? || h[|h| - 1].Break? || h[|h| - 1].Rename?
    ensures |h| > 1 && e == h[|h| - 2] && InSequence(Some(e), h[|h| - 1])
    ensures Legal(h[..|h| - 1]) && Legal(h[..|h| - 1][..|h| - 2]) && s == Run(h[..|h| - 1][..|h| - 2])
    ensures Enabled(s, e) && Run(h[..|h| - 1]) == Step(s, e) && Enabled(Step(s, e), h[|h| - 1])
    ensures Traceable(s)
  {
    hide Step, Enabled, InSequence;
    LastStep(h);
    assert InPlace(h, |h| - 1);
    assert |h| > 1 by { NeedsPredecessor(h[|h| - 1]); }
    LastStep(h[..|h| - 1]);
    s, e := Run(h[..|h| - 1][..|h| - 2]), h[|h| - 2];
    RunIsTraceable(h[..|h| - 1][..|h| - 2]);
  }

  lemma NeedsPredecessor(e: Event)
    requires e.Look? || e.Open? || e.Fill? || e.Break? || e.Rename?
    ensures !InSequence(None, e)
  {
  }

  /** Right after its opening, a write goes into the empty temporary file and nowhere else. */
  lemma UndisturbedWrite(s: State, q: NodeId, whole: bool)
    requires Traceable(s) && Enabled(s, Open(q)) && Enabled(Step(s, Open(q)), Fill(q, whole))
    ensures
      var s' := Step(Step(s, Open(q)), Fill(q, whole));
      && File(s') == File(s) && ContentOf(s'.disk, s'.tmp) == Some(Lease(q, s.phase[q].now)) && s'.tmp.Some?
      && q in s'.phase && s'.phase[q] == Filled(s.phase[q].now)
      && s'.leads == s.leads && s'.removed == s.removed && s'.displaced == s.displaced
  {
  }

  lemma UndisturbedBreak(s: State, q: NodeId)
    requires Traceable(s) && Enabled(s, Open(q)) && Enabled(Step(s, Open(q)), Break(q))
    ensures Step(Step(s, Open(q)), Break(q)).displaced == s.displaced
  {
  }

  /** When an unbroken attempt comes to its rename, the look that allowed it still holds and
      the temporary file holds its own lease. */
  lemma WholeAttempt(h: seq<Event>)
    requires Legal(h) && UnbrokenAttempts(h) && h != [] && h[|h| - 1].Rename?
    ensures
      var s, q := Run(h[..|h| - 1]), h[|h| - 1].node;
      && Enabled(s, Rename(q)) && Names(ContentOf(s.disk, s.tmp), q)
      && MayClaim(File(s), s.phase[q].now, q)
  {
    hide Step, Enabled, Legal, Run, UnbrokenAttempts;
    var q := h[|h| - 1].node;
    var s3, fill := StepBefore(h);
    Shorter(h);
    var h3 := h[..|h| - 1];
    var s2, open := StepBefore(h3);
    assert open == Open(q);
    Shorter(h3);
    var h2 := h3[..|h3| - 1];
    var s1, look := StepBefore(h2);
    LookAllows(s1, q);
    UndisturbedWrite(s2, q, fill.whole);
  }

  lemma LookAllows(s: State, q: NodeId)
    requires Enabled(s, Look(q)) && Enabled(Step(s, Look(q)), Open(q))
    ensures
      var s' := Step(s, Look(q));
      q in s'.phase && s'.phase[q].Cleared? && MayClaim(File(s'), s'.phase[q].now, q)
  {
  }

  lemma {:induction false} UnbrokenAttemptsAreClean(h: seq<Event>)
    requires Legal(h) && UnbrokenAttempts(h)
    ensures Throughout(h, NotOverlap) && Throughout(h, NotShared) && Run(h).displaced == {}
  {
    if h != [] {
      Shorter(h);
      UnbrokenAttemptsAreClean(h[..|h| - 1]);
      RunIsTraceable(h[..|h| - 1]);
      var e := h[|h| - 1];
      if e.Rename? {
        WholeAttempt(h);
      } else if e.Fill? || e.Break? {
        var s, open := StepBefore(h);
        if e.Fill? {
          UndisturbedWrite(s, e.node, e.whole);
        } else {
          UndisturbedBreak(s, e.node);
        }
        Shorter(h[..|h| - 1]);
        UnbrokenAttemptsAreClean(h[..|h| - 1][..|h| - 2]);
      }
    }
  }

  lemma {:induction false} UnbrokenReleasesRemoveTheirOwn(h: seq<Event>)
    requires Legal(h) && UnbrokenReleases(h)
    ensures Throughout(h, NotStray) && Run(h).removed == {}
  {
    if h != [] {
      var before, e := h[..|h| - 1], h[|h| - 1];
      Shorter(h);
      UnbrokenReleasesRemoveTheirOwn(before);
      if e.Remove? {
        assert before[|before| - 1] == Inspect(e.node);
        LastStep(before);
        assert Names(File(Run(before)), e.node);
      }
    }
  }

  /** As long as leaders' clocks advance, a lease found in either file is at least as new as
      what its instance leads by, and one in the temporary file as new as what its instance is
      writing. */
  ghost predicate LeasesAreCurrent(s: State)
  {
    var file, tmp := File(s), ContentOf(s.disk, s.tmp);
    && (forall p :: p in s.phase && p in s.leads && !s.phase[p].Removing? ==> s.leads[p] <= s.phase[p].now)
    && (file.Some? && file.value.leader in s.leads ==> s.leads[file.value.leader] <= file.value.acquiredAt)
    && (tmp.Some? && tmp.value.leader in s.leads ==> s.leads[tmp.value.leader] <= tmp.value.acquiredAt)
    && (tmp.Some? && tmp.value.leader in s.phase &&
        (s.phase[tmp.value.leader].Opened? || s.phase[tmp.value.leader].Filled?) ==>
          s.phase[tmp.value.leader].now <= tmp.value.acquiredAt)
  }

  lemma StepKeepsLeases(s: State, e: Event)
    requires Traceable(s) && LeasesAreCurrent(s) && Enabled(s, e) && ClockAdvances(s, e)
    ensures LeasesAreCurrent(Step(s, e))
  {
    hide LeasesAreCurrent, Traceable, Step;
    match e {
      case Open(p) => OpenKeepsLeases(s, p);
      case Fill(p, whole) => FillKeepsLeases(s, p, whole);
      case Break(p) => BreakKeepsLeases(s, p);
      case Rename(p) => RenameKeepsLeases(s, p);
      case _ => OtherStepsKeepLeases(s, e);
    }
  }

  lemma OpenKeepsLeases(s: State, p: NodeId)
    requires Traceable(s) && LeasesAreCurrent(s) && Enabled(s, Open(p))
    ensures LeasesAreCurrent(Step(s, Open(p)))
  {
  }

  lemma FillKeepsLeases(s: State, p: NodeId, whole: bool)
    requires Traceable(s) && LeasesAreCurrent(s) && Enabled(s, Fill(p, whole))
    ensures LeasesAreCurrent(Step(s, Fill(p, whole)))
  {
  }

  lemma BreakKeepsLeases(s: State, p: NodeId)
    requires Traceable(s) && LeasesAreCurrent(s) && Enabled(s, Break(p))
    ensures LeasesAreCurrent(Step(s, Break(p)))
  {
  }

  lemma RenameKeepsLeases(s: State, p: NodeId)
    requires Traceable(s) && LeasesAreCurrent(s) && Enabled(s, Rename(p))
    ensures LeasesAreCurrent(Step(s, Rename(p)))
  {
  }

  lemma OtherStepsKeepLeases(s: State, e: Event)
    requires Traceable(s) && LeasesAreCurrent(s) && Enabled(s, e) && ClockAdvances(s, e)
    requires !e.Open? && !e.Fill? && !e.Break? && !e.Rename?
    ensures LeasesAreCurrent(Step(s, e))
  {
  }

  lemma {:induction false} LeasesStayCurrent(h: seq<Event>)
    requires Legal(h) && Throughout(h, ClockAdvances)
    ensures LeasesAreCurrent(Run(h))
  {
    hide Step, Enabled, ClockAdvances;
    if h != [] {
      LeasesStayCurrent(h[..|h| - 1]);
      RunIsTraceable(h[..|h| - 1]);
      StepKeepsLeases(Run(h[..|h| - 1]), h[|h| - 1]);
    }
  }

  lemma {:induction false} OnTimeIsNotLate(h: seq<Event>)
    requires Legal(h) && Throughout(h, OnTime) && Throughout(h, ClockAdvances)
    ensures Throughout(h, NotLate)
  {
    if h != [] {
      OnTimeIsNotLate(h[..|h| - 1]);
      LeasesStayCurrent(h[..|h| - 1]);
    }
  }

  lemma {:induction false} NoRaceIsNoneOfFour(h: seq<Event>)
    requires Legal(h)
    ensures NoRace(h) <==>
            Throughout(h, NotOverlap) && Throughout(h, NotLate) && Throughout(h, NotStray) && Throughout(h, NotShared)
  {
    hide Overlap, LateRenewal, StrayRemoval, SharedFile;
    if h != [] {
      NoRaceIsNoneOfFour(h[..|h| - 1]);
    }
  }

  /** Instances that do not fall into each other's attempts and releases: one leader at all
      times if and only if no lease is taken over from a holder that still acts on it. */
  lemma UnbrokenRunsAreSafeIff(h: seq<Event>)
    requires Legal(h) && UnbrokenAttempts(h) && UnbrokenReleases(h)
    ensures AlwaysOneLeader(h) <==> Throughout(h, NotLate)
    ensures Throughout(h, OnTime) && Throughout(h, ClockAdvances) ==> AlwaysOneLeader(h)
  {
    UnbrokenAttemptsAreClean(h);
    UnbrokenReleasesRemoveTheirOwn(h);
    NoRaceIsNoneOfFour(h);
    OneLeaderIffNoRace(h);
    if Throughout(h, OnTime) && Throughout(h, ClockAdvances) {
      OnTimeIsNotLate(h);
    }
  }

  /** With leaders on time and unbroken releases, what is left is the gap between look and
      rename: a write over a running lease, or into a file another instance is using. */
  lemma OnTimeRunsAreSafeIff(h: seq<Event>)
    requires Legal(h) && Throughout(h, OnTime) && Throughout(h, ClockAdvances) && UnbrokenReleases(h)
    ensures AlwaysOneLeader(h) <==> Throughout(h, NotOverlap) && Throughout(h, NotShared)
  {
    OnTimeIsNotLate(h);
    UnbrokenReleasesRemoveTheirOwn(h);
    NoRaceIsNoneOfFour(h);
    OneLeaderIffNoRace(h);
  }

  // ---- each race happens ----

  function Attempt(p: NodeId, now: nat): (h: seq<Event>)
  {
    [Start(p, now), Look(p), Open(p), Fill(p, true), Rename(p)]
  }

  lemma EmptyRun()
    ensures Legal([]) && Run([]) == START
  {
  }

  lemma Extend(h: seq<Event>, e: Event)
    requires Legal(h) && Enabled(Run(h), e)
    ensures Legal(h + [e]) && Run(h + [e]) == Step(Run(h), e)
  {
    assert (h + [e])[..|h|] == h;
  }

  /** What an undisturbed attempt leaves: its own lease in the file and itself among the
      leaders, everything else as before. */
  ghost predicate Attempted(s: State, q: NodeId, now: nat, s': State)
  {
    && File(s') == Some(Lease(q, now)) && s'.tmp == None
    && s'.leads == s.leads[q := now] && s'.phase == s.phase - {q}
    && s'.removed == s.removed - {q} && s'.displaced == s.displaced - {q}
  }

  /** An undisturbed write and rename of an instance that has looked. */
  lemma WriteOnce(h: seq<Event>, q: NodeId)
    requires Legal(h) && q in Run(h).phase && Run(h).phase[q].Cleared?
    ensures
      var h' := h + [Open(q), Fill(q, true), Rename(q)];
      Legal(h') && Attempted(Run(h), q, Run(h).phase[q].now, Run(h'))
  {
    hide Run, Legal;
    RunIsTraceable(h);
    var s := Run(h);
    Extend(h, Open(q));
    Extend(h + [Open(q)], Fill(q, true));
    UndisturbedWrite(s, q, true);
    Extend(h + [Open(q)] + [Fill(q, true)], Rename(q));
    assert h + [Open(q)] + [Fill(q, true)] + [Rename(q)] == h + [Open(q), Fill(q, true), Rename(q)];
    assert Run(h + [Open(q)] + [Fill(q, true)]).phase - {q} == s.phase - {q};
  }

  /** An undisturbed attempt in a run in which the file lets it through. */
  lemma AttemptSucceeds(h: seq<Event>, q: NodeId, now: nat)
    requires Legal(h) && q != "" && q !in Run(h).phase && MayClaim(File(Run(h)), now, q)
    ensures Legal(h + Attempt(q, now)) && Attempted(Run(h), q, now, Run(h + Attempt(q, now)))
  {
    hide Run, Legal;
    var s := Run(h);
    Extend(h, Start(q, now));
    var h1 := h + [Start(q, now)];
    Extend(h1, Look(q));
    WriteOnce(h1 + [Look(q)], q);
    assert h1 + [Look(q)] + [Open(q), Fill(q, true), Rename(q)] == h + Attempt(q, now);
    assert Run(h1 + [Look(q)]).phase - {q} == s.phase - {q};
  }

  /** In every run: once the lease of a leader that has not come back for its next attempt has
      run out by the clock of another instance, its undisturbed attempt makes two leaders. */
  lemma LateLeaderMakesTwo(h: seq<Event>, q: NodeId, now: nat)
    requires Legal(h) && File(Run(h)).Some?
    requires
      var s := Run(h); var l := File(s).value;
      l.leader in s.leads && now >= l.acquiredAt + TTL && q != l.leader && q != "" && q !in s.phase
    ensures Legal(h + Attempt(q, now)) && !OneLeader(Run(h + Attempt(q, now)))
  {
    hide Run, Legal;
    AttemptSucceeds(h, q, now);
    var p := File(Run(h)).value.leader;
    assert p in Run(h + Attempt(q, now)).leads && q in Run(h + Attempt(q, now)).leads;
  }

  lemma AttemptIsUnbroken(h: seq<Event>, q: NodeId, now: nat)
    requires UnbrokenAttempts(h)
    ensures UnbrokenAttempts(h + Attempt(q, now))
  {
    var all, a := h + Attempt(q, now), Attempt(q, now);
    forall i | 0 <= i < |all|
      ensures InPlace(all, i)
    {
      if i < |h| {
        assert InPlace(h, i) && all[i] == h[i] && (i > 0 ==> all[i - 1] == h[i - 1]);
      } else {
        assert all[i] == a[i - |h|];
        assert i > |h| ==> all[i - 1] == a[i - |h| - 1];
      }
    }
  }

  lemma ReleaseStepIsUnbroken(h: seq<Event>, e: Event)
    requires UnbrokenAttempts(h) && (e.Inspect? || e.Remove?)
    ensures UnbrokenAttempts(h + [e])
  {
    var all := h + [e];
    forall i | 0 <= i < |all|
      ensures InPlace(all, i)
    {
      if i < |h| {
        assert InPlace(h, i) && all[i] == h[i] && (i > 0 ==> all[i - 1] == h[i - 1]);
      }
    }
  }

  /** The first leader there is. */
  lemma FirstLeader(a: NodeId)
    requires a != ""
    ensures
      var h := Attempt(a, 0);
      Legal(h) && UnbrokenAttempts(h) && Attempted(START, a, 0, Run(h))
      && Run(h).phase == map[] && Run(h).leads == map[a := 0]
  {
    hide Run, Legal, UnbrokenAttempts;
    EmptyRun();
    assert UnbrokenAttempts([]) by { NothingIsBroken(); }
    AttemptSucceeds([], a, 0);
    AttemptIsUnbroken([], a, 0);
    assert [] + Attempt(a, 0) == Attempt(a, 0);
    assert START.phase - {a} == map[];
  }

  lemma NothingIsBroken()
    ensures UnbrokenAttempts([])
  {
  }

  /** One leader takes the lease time for a tick, another instance takes over: two leaders,
      with every attempt unbroken and no release at all. */
  lemma SlowTickMakesTwoLeaders(a: NodeId, b: NodeId)
    requires a != "" && b != "" && a != b
    ensures
      var h := Attempt(a, 0) + Attempt(b, TTL);
      Legal(h) && UnbrokenAttempts(h) && UnbrokenReleases(h) && !OneLeader(Run(h))
  {
    hide Legal, Run, UnbrokenAttempts;
    FirstLeader(a);
    LateLeaderMakesTwo(Attempt(a, 0), b, TTL);
    AttemptIsUnbroken(Attempt(a, 0), b, TTL);
  }

  /** A release nobody falls into hands over at once: the next instance leads at any clock, and
      alone. */
  lemma ReleaseHandsOver(p: NodeId, q: NodeId, now: nat)
    requires p != "" && q != "" && p != q
    ensures
      var h := Attempt(p, 0) + [Inspect(p), Remove(p)] + Attempt(q, now);
      && Legal(h) && UnbrokenAttempts(h) && UnbrokenReleases(h) && Run(h).leads == map[q := now]
  {
    hide Run, Legal, UnbrokenAttempts;
    FirstLeader(p);
    var h1 := Attempt(p, 0) + [Inspect(p)];
    Extend(Attempt(p, 0), Inspect(p));
    ReleaseStepIsUnbroken(Attempt(p, 0), Inspect(p));
    var h2 := h1 + [Remove(p)];
    Extend(h1, Remove(p));
    ReleaseStepIsUnbroken(h1, Remove(p));
    assert h2 == Attempt(p, 0) + [Inspect(p), Remove(p)];
    AttemptSucceeds(h2, q, now);
    AttemptIsUnbroken(h2, q, now);
    var h := h2 + Attempt(q, now);
    assert h[5] == Inspect(p) && h[6] == Remove(p);
    assert forall i :: 0 <= i < |h| && h[i].Remove? ==> i == 6;
  }

  /** A release that has looked at its own lease and stalls past the lease time removes the
      lease of its successor, and a third instance leads beside that one.  All attempts are
      unbroken. */
  lemma StalledReleaseMakesTwoLeaders(p: NodeId, q: NodeId, r: NodeId)
    requires p != "" && q != "" && r != "" && p != q && q != r && p != r
    ensures
      var h := Attempt(p, 0) + [Inspect(p)] + Attempt(q, TTL) + [Remove(p)] + Attempt(r, TTL);
      Legal(h) && UnbrokenAttempts(h) && Run(h).leads == map[q := TTL, r := TTL] && !OneLeader(Run(h))
  {
    hide Run, Legal, UnbrokenAttempts;
    FirstLeader(p);
    var h1 := Attempt(p, 0) + [Inspect(p)];
    Extend(Attempt(p, 0), Inspect(p));
    ReleaseStepIsUnbroken(Attempt(p, 0), Inspect(p));
    AttemptSucceeds(h1, q, TTL);
    AttemptIsUnbroken(h1, q, TTL);
    var h2 := h1 + Attempt(q, TTL);
    Extend(h2, Remove(p));
    ReleaseStepIsUnbroken(h2, Remove(p));
    var h3 := h2 + [Remove(p)];
    AttemptSucceeds(h3, r, TTL);
    AttemptIsUnbroken(h3, r, TTL);
    var s := Run(h3 + Attempt(r, TTL));
    assert q in s.leads && r in s.leads;
  }

  /** Several steps at once. */
  ghost predicate Reaches(s: State, es: seq<Event>, s': State)
    decreases |es|
  {
    if es == [] then s' == s else Enabled(s, es[0]) && Reaches(Step(s, es[0]), es[1..], s')
  }

  lemma {:induction false} ExtendAll(h: seq<Event>, es: seq<Event>, s': State)
    requires Legal(h) && Reaches(Run(h), es, s')
    ensures Legal(h + es) && Run(h + es) == s'
    decreases |es|
  {
    hide Step, Enabled, Legal, Run;
    if es == [] {
      assert h + es == h;
    } else {
      Extend(h, es[0]);
      ExtendAll(h + [es[0]], es[1..], s');
      assert h + [es[0]] + es[1..] == h + es;
    }
  }

  /** Two instances that have both looked before either renames both lead. */
  lemma OverlappingLooksMakeTwoLeaders(a: NodeId, b: NodeId)
    requires a != "" && b != "" && a != b
    ensures
      var h := [Start(a, 0), Start(b, 0), Look(a), Look(b)]
               + [Open(a), Fill(a, true), Rename(a)] + [Open(b), Fill(b, true), Rename(b)];
      Legal(h) && !OneLeader(Run(h))
  {
    hide Run, Legal, Reaches;
    var looks := [Start(a, 0), Start(b, 0), Look(a), Look(b)];
    var s := BothHaveLooked(a, b);
    WriteOnce(looks, a);
    var h := looks + [Open(a), Fill(a, true), Rename(a)];
    WriteOnce(h, b);
    var h' := h + [Open(b), Fill(b, true), Rename(b)];
    assert a in Run(h').leads && b in Run(h').leads;
  }

  lemma BothHaveLooked(a: NodeId, b: NodeId) returns (s: State)
    requires a != "" && b != "" && a != b
    ensures
      var h := [Start(a, 0), Start(b, 0), Look(a), Look(b)];
      Legal(h) && Run(h) == s == START.(phase := map[a := Cleared(0), b := Cleared(0)])
  {
    hide Legal, Run, Reaches, Step, Enabled;
    var h := [Start(a, 0), Start(b, 0), Look(a), Look(b)];
    s := START.(phase := map[a := Cleared(0), b := Cleared(0)]);
    EmptyRun();
    BothLook(a, b);
    ExtendAll([], h, s);
    assert [] + h == h;
  }

  lemma BothLook(a: NodeId, b: NodeId)
    requires a != "" && b != "" && a != b
    ensures Reaches(START, [Start(a, 0), Start(b, 0), Look(a), Look(b)],
                    START.(phase := map[a := Cleared(0), b := Cleared(0)]))
  {
    var s1 := START.(phase := map[a := Reading(0)]);
    var s2 := START.(phase := map[a := Reading(0), b := Reading(0)]);
    var s3 := START.(phase := map[a := Cleared(0), b := Reading(0)]);
    var s4 := START.(phase := map[a := Cleared(0), b := Cleared(0)]);
    assert Step(START, Start(a, 0)) == s1 && Step(s1, Start(b, 0)) == s2;
    assert Step(s2, Look(a)) == s3 && Step(s3, Look(b)) == s4;
    hide Step, Enabled;
    assert Reaches(s4, [], s4);
    Then(s3, Look(b), [], s4);
    Then(s2, Look(a), [Look(b)], s4);
    Then(s1, Start(b, 0), [Look(a), Look(b)], s4);
    Then(START, Start(a, 0), [Start(b, 0), Look(a), Look(b)], s4);
    assert [Start(a, 0)] + [Start(b, 0), Look(a), Look(b)] == [Start(a, 0), Start(b, 0), Look(a), Look(b)];
    assert [Start(b, 0)] + [Look(a), Look(b)] == [Start(b, 0), Look(a), Look(b)];
    assert [Look(a)] + [Look(b)] == [Look(a), Look(b)];
    assert [Look(b)] + [] == [Look(b)];
  }

  lemma Then(s: State, e: Event, es: seq<Event>, s': State)
    requires Enabled(s, e) && Reaches(Step(s, e), es, s')
    ensures Reaches(s, [e] + es, s')
  {
    assert ([e] + es)[1..] == es;
  }

  /** Both have looked, both write into the same temporary file, `b` last, and `a` renames it:
      `a` leads on a file that names `b`, and `b`'s own rename finds nothing and fails. */
  lemma CrossedWrites(a: NodeId, b: NodeId)
    requires a != "" && b != "" && a != b
    ensures
      var s := START.(phase := map[a := Cleared(0), b := Cleared(0)]);
      Reaches(s, [Open(a), Open(b), Fill(a, true), Fill(b, true), Rename(a), Rename(b)],
              State([Written(Lease(b, 0))], Some(0), None, map[], map[a := 0], {}, {a}))
  {
    hide Step, Enabled, CrossedState, Reaches;
    CrossedEnds(a, b);
    CrossedOpens(a, b);
    CrossedFills(a, b);
    CrossedRenames(a, b);
    var end := CrossedState(a, b, 6);
    assert Reaches(end, [], end) by { NoSteps(end); }
    Then(CrossedState(a, b, 5), Rename(b), [], end);
    assert [Rename(b)] + [] == [Rename(b)];
    Then(CrossedState(a, b, 4), Rename(a), [Rename(b)], end);
    var renames := [Rename(a), Rename(b)];
    assert [Rename(a)] + [Rename(b)] == renames;
    Then(CrossedState(a, b, 3), Fill(b, true), renames, end);
    Then(CrossedState(a, b, 2), Fill(a, true), [Fill(b, true)] + renames, end);
    var fills := [Fill(a, true)] + ([Fill(b, true)] + renames);
    Then(CrossedState(a, b, 1), Open(b), fills, end);
    Then(CrossedState(a, b, 0), Open(a), [Open(b)] + fills, end);
    assert [Open(a)] + ([Open(b)] + fills) ==
           [Open(a), Open(b), Fill(a, true), Fill(b, true), Rename(a), Rename(b)];
  }

  lemma NoSteps(s: State)
    ensures Reaches(s, [], s)
  {
  }

  /** The states crossed writes go through. */
  function CrossedState(a: NodeId, b: NodeId, k: nat): (s: State)
  {
    var disk := if k == 0 then [] else if k <= 2 then [Empty] else [Written(Lease(if k == 3 then a else b, 0))];
    var phase :=
      if k == 0 then map[a := Cleared(0), b := Cleared(0)]
      else if k == 1 then map[a := Opened(0, 0), b := Cleared(0)]
      else if k == 2 then map[a := Opened(0, 0), b := Opened(0, 0)]
      else if k == 3 then map[a := Filled(0), b := Opened(0, 0)]
      else if k == 4 then map[a := Filled(0), b := Filled(0)]
      else if k == 5 then map[b := Filled(0)]
      else map[];
    if k <= 4 then State(disk, None, if k == 0 then None else Some(0), phase, map[], {}, {})
    else State(disk, Some(0), None, phase, map[a := 0], {}, {a})
  }

  lemma CrossedEnds(a: NodeId, b: NodeId)
    ensures CrossedState(a, b, 0) == START.(phase := map[a := Cleared(0), b := Cleared(0)])
    ensures CrossedState(a, b, 6) == State([Written(Lease(b, 0))], Some(0), None, map[], map[a := 0], {}, {a})
  {
  }

  lemma CrossedOpens(a: NodeId, b: NodeId)
    requires a != b
    ensures Enabled(CrossedState(a, b, 0), Open(a)) && Step(CrossedState(a, b, 0), Open(a)) == CrossedState(a, b, 1)
    ensures Enabled(CrossedState(a, b, 1), Open(b)) && Step(CrossedState(a, b, 1), Open(b)) == CrossedState(a, b, 2)
  {
  }

  lemma CrossedFills(a: NodeId, b: NodeId)
    requires a != b
    ensures Enabled(CrossedState(a, b, 2), Fill(a, true))
    ensures Step(CrossedState(a, b, 2), Fill(a, true)) == CrossedState(a, b, 3)
    ensures Enabled(CrossedState(a, b, 3), Fill(b, true))
    ensures Step(CrossedState(a, b, 3), Fill(b, true)) == CrossedState(a, b, 4)
  {
  }

  lemma CrossedRenames(a: NodeId, b: NodeId)
    requires a != b
    ensures Enabled(CrossedState(a, b, 4), Rename(a)) && Step(CrossedState(a, b, 4), Rename(a)) == CrossedState(a, b, 5)
    ensures Enabled(CrossedState(a, b, 5), Rename(b)) && Step(CrossedState(a, b, 5), Rename(b)) == CrossedState(a, b, 6)
  {
    assert CrossedState(a, b, 4).phase - {a} == CrossedState(a, b, 5).phase;
    assert CrossedState(a, b, 5).phase - {b} == map[];
    assert CrossedState(a, b, 5).leads - {b} == CrossedState(a, b, 5).leads;
  }

  /** In every run: a displaced leader does not keep another instance from leading that the
      file lets through. */
  lemma DisplacedLeaderMakesTwo(h: seq<Event>, p: NodeId, q: NodeId, now: nat)
    requires Legal(h) && p in Run(h).leads && p in Run(h).displaced && q != p && q != "" && q !in Run(h).phase
    requires MayClaim(File(Run(h)), now, q)
    ensures Legal(h + Attempt(q, now)) && !OneLeader(Run(h + Attempt(q, now)))
  {
    hide Run, Legal;
    AttemptSucceeds(h, q, now);
    assert p in Run(h + Attempt(q, now)).leads && q in Run(h + Attempt(q, now)).leads;
  }

  /** So crossed writes make two leaders at one and the same time, with nothing run out and
      nothing released: `b` takes the lease it finds for its own and renews it. */
  lemma CrossedWritesMakeTwoLeaders(a: NodeId, b: NodeId)
    requires a != "" && b != "" && a != b
    ensures
      var h := [Start(a, 0), Start(b, 0), Look(a), Look(b)]
               + [Open(a), Open(b), Fill(a, true), Fill(b, true), Rename(a), Rename(b)];
      && Legal(h) && Run(h).leads == map[a := 0] && File(Run(h)) == Some(Lease(b, 0))
      && Legal(h + Attempt(b, 0)) && !OneLeader(Run(h + Attempt(b, 0)))
  {
    hide Legal, Run, Reaches, Step, Enabled;
    var looks := [Start(a, 0), Start(b, 0), Look(a), Look(b)];
    var writes := [Open(a), Open(b), Fill(a, true), Fill(b, true), Rename(a), Rename(b)];
    var s := BothHaveLooked(a, b);
    CrossedWrites(a, b);
    ExtendAll(looks, writes, State([Written(Lease(b, 0))], Some(0), None, map[], map[a := 0], {}, {a}));
    DisplacedLeaderMakesTwo(looks + writes, a, b, 0);
  }

  /** A leader that is gone is replaced: once its lease has run out, an undisturbed attempt
      succeeds, and is the only leader if nobody else was one. */
  lemma SilentLeaderIsReplaced(h: seq<Event>, q: NodeId, now: nat)
    requires Legal(h) && q != "" && q !in Run(h).phase && File(Run(h)).Some?
    requires now >= File(Run(h)).value.acquiredAt + TTL
    ensures
      var h' := h + Attempt(q, now);
      Legal(h') && File(Run(h')) == Some(Lease(q, now)) && q in Run(h').leads
      && (Run(h).leads == map[] ==> OneLeader(Run(h')))
  {
    AttemptSucceeds(h, q, now);
  }
}
