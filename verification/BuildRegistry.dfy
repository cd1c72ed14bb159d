/**
 The registry of background image builds.

 Starting a build registers a fresh result slot under the job's key and hands the slot to a
 thread; the thread writes the slot when it is done, whatever has become of the key.  Each
 locked section is one step, so a run is a sequence of events in any interleaving.
 */
module BuildRegistry {
  import opened Bytes

  datatype BuildResult = Image(id: string) | Failure(message: string)

  datatype Poll = NotStarted | Running | Done(result: BuildResult)

  // ---- the steps ----

  /** Builds are numbered in launch order; `slots[b]` is the slot build `b` writes. */
  datatype State = State(jobs: map<string, nat>, slots: seq<Option<BuildResult>>)

  datatype Event =
    | Start(job: string)
    | Finish(build: nat, result: BuildResult)
    | Clear(job: string)

  predicate Enabled(s: State, e: Event)
  {
    e.Finish? ==> e.build < |s.slots| && s.slots[e.build].None?
  }

  function Step(s: State, e: Event): (r: State)
    requires Enabled(s, e)
  {
    match e
    case Start(job) =>
      if job in s.jobs then s else State(s.jobs[job := |s.slots|], s.slots + [None])
    case Finish(b, result) => s.(slots := s.slots[b := Some(result)])
    case Clear(job) => s.(jobs := s.jobs - {job})
  }

  function PollState(s: State, job: string): (r: Poll)
    requires job in s.jobs ==> s.jobs[job] < |s.slots|
  {
    if job !in s.jobs then NotStarted
    else match s.slots[s.jobs[job]]
      case None => Running
      case Some(result) => Done(result)
  }

  // ---- the registry object ----

  class Slot {
    var result: Option<BuildResult>
    constructor ()
      ensures result == None
    {
      result := None;
    }
  }

  class Registry {
    var jobs: map<string, Slot>
    /** Every slot ever handed to a thread, in launch order, and each key's build number. */
    ghost var launched: seq<Slot>
    ghost var number: map<string, nat>

    ghost predicate Valid()
      reads this
    {
      && (forall i, j :: 0 <= i < j < |launched| ==> launched[i] != launched[j])
      && number.Keys == jobs.Keys
      && (forall k :: k in jobs ==> number[k] < |launched| && jobs[k] == launched[number[k]])
    }

    ghost function Abs(): State
      reads this, launched
    {
      State(number, seq(|launched|, i requires 0 <= i < |launched| reads this, launched => launched[i].result))
    }

    constructor ()
      ensures Valid() && Abs() == State(map[], [])
    {
      jobs, launched, number := map[], [], map[];
    }

    /** Does nothing if the key is taken; otherwise the returned slot is the thread's. */
    method StartBuild(job: string) returns (slot: Slot?)
      requires Valid()
      modifies this
      ensures Valid() && Abs() == Step(old(Abs()), Start(job))
      ensures job in old(jobs) ==> slot == null && launched == old(launched)
      ensures job !in old(jobs) ==> slot != null && fresh(slot) && launched == old(launched) + [slot]
    {
      if job in jobs {
        return null;
      }
      slot := new Slot();
      jobs := jobs[job := slot];
      number := number[job := |launched|];
      launched := launched + [slot];
      assert Abs().slots == old(Abs()).slots + [None];
    }

    /** The background thread's last act. */
    method FinishBuild(slot: Slot, ghost b: nat, result: BuildResult)
      requires Valid() && b < |launched| && launched[b] == slot && slot.result.None?
      modifies slot
      ensures Valid() && Abs() == Step(old(Abs()), Finish(b, result))
    {
      slot.result := Some(result);
      assert Abs().slots == old(Abs()).slots[b := Some(result)];
    }

    method PollBuild(job: string) returns (r: Poll)
      requires Valid()
      ensures r == PollState(Abs(), job)
    {
      if job !in jobs {
        return NotStarted;
      }
      var slot := jobs[job];
      assert Abs().slots[number[job]] == slot.result;
      match slot.result {
        case None => r := Running;
        case Some(result) => r := Done(result);
      }
    }

    method ClearBuild(job: string)
      requires Valid()
      modifies this`jobs, this`number
      ensures Valid() && Abs() == Step(old(Abs()), Clear(job))
    {
      jobs := jobs - {job};
      number := number - {job};
    }
  }

  // ---- histories, read without running the registry ----

  function Last<T>(s: seq<T>): T
    requires s != []
  {
    s[|s| - 1]
  }

  function Front<T>(s: seq<T>): (r: seq<T>)
    requires s != []
    ensures |r| == |s| - 1
  {
    s[..|s| - 1]
  }

  /** A start of this job is more recent than any clear of it. */
  predicate Active(h: seq<Event>, job: string)
  {
    h != [] &&
    (Last(h) == Start(job) || (Last(h) != Clear(job) && Active(Front(h), job)))
  }

  /** Starts that found no active job, of any key. */
  function Launches(h: seq<Event>): (n: nat)
  {
    if h == [] then 0
    else Launches(Front(h)) + if Last(h).Start? && !Active(Front(h), Last(h).job) then 1 else 0
  }

  /** The build an active job belongs to: the one launched by the first start after the
      last clear. */
  function CurrentBuild(h: seq<Event>, job: string): (b: nat)
    requires Active(h, job)
    ensures b < Launches(h)
  {
    if Last(h) == Start(job) && !Active(Front(h), job) then Launches(Front(h))
    else CurrentBuild(Front(h), job)
  }

  /** What build `b` reported, if it has finished. */
  function ResultOf(h: seq<Event>, b: nat): (r: Option<BuildResult>)
  {
    if h == [] then None
    else if Last(h).Finish? && Last(h).build == b then Some(Last(h).result)
    else ResultOf(Front(h), b)
  }

  /** Each thread finishes at most once, and only after it was launched. */
  predicate Plausible(h: seq<Event>)
  {
    h != [] ==>
      && Plausible(Front(h))
      && (Last(h).Finish? ==> Last(h).build < Launches(Front(h)) && ResultOf(Front(h), Last(h).build).None?)
  }

  // ---- the registry agrees with every history ----

  /** The registry's state, described by the history alone. */
  ghost predicate Describes(h: seq<Event>, s: State)
  {
    && |s.slots| == Launches(h)
    && (forall job :: job in s.jobs <==> Active(h, job))
    && (forall job :: job in s.jobs ==> s.jobs[job] == CurrentBuild(h, job))
    && (forall b :: 0 <= b < |s.slots| ==> s.slots[b] == ResultOf(h, b))
  }

  lemma {:induction false} NoResultBeforeLaunch(h: seq<Event>, b: nat)
    requires Plausible(h) && b >= Launches(h)
    ensures ResultOf(h, b).None?
  {
    if h != [] {
      NoResultBeforeLaunch(Front(h), b);
    }
  }

  lemma StepAgrees(h: seq<Event>, s: State)
    requires h != [] && Plausible(h) && Describes(Front(h), s)
    ensures Enabled(s, Last(h)) && Describes(h, Step(s, Last(h)))
  {
    var e, s' := Last(h), Step(s, Last(h));
    NoResultBeforeLaunch(Front(h), Launches(Front(h)));
    forall job
      ensures job in s'.jobs <==> Active(h, job)
      ensures job in s'.jobs ==> s'.jobs[job] == CurrentBuild(h, job)
    {
      assert job in s.jobs <==> Active(Front(h), job);
    }
  }

  /** A run of the registry from the empty state. */
  function Run(h: seq<Event>): (s: State)
    requires Plausible(h)
    ensures Describes(h, s)
  {
    if h == [] then State(map[], [])
    else
      var before := Run(Front(h));
      StepAgrees(h, before);
      Step(before, Last(h))
  }

  /** What a poll answers after any interleaving: nothing without a start since the last
      clear, otherwise the state of the build that start launched. */
  lemma PollReportsCurrentBuild(h: seq<Event>, job: string)
    requires Plausible(h)
    ensures
      && (job in Run(h).jobs ==> Run(h).jobs[job] < |Run(h).slots|)
      && PollState(Run(h), job) ==
         if !Active(h, job) then NotStarted
         else match ResultOf(h, CurrentBuild(h, job))
           case None => Running
           case Some(r) => Done(r)
  {
    hide Run;
    assert Describes(h, Run(h));
  }

  // ---- one build per clear ----

  function LaunchesOf(h: seq<Event>, job: string): (n: nat)
  {
    if h == [] then 0
    else LaunchesOf(Front(h), job) + if Last(h) == Start(job) && !Active(Front(h), job) then 1 else 0
  }

  /** Clears that removed an active job. */
  function ClearsOf(h: seq<Event>, job: string): (n: nat)
  {
    if h == [] then 0
    else ClearsOf(Front(h), job) + if Last(h) == Clear(job) && Active(Front(h), job) then 1 else 0
  }

  /** However often a job is started, one build is launched per clear that removed it, plus
      the current one. */
  lemma {:induction false} OneBuildPerClear(h: seq<Event>, job: string)
    ensures LaunchesOf(h, job) == ClearsOf(h, job) + if Active(h, job) then 1 else 0
  {
    if h != [] {
      OneBuildPerClear(Front(h), job);
    }
  }

  // ---- threads that outlive a clear ----

  /** A build launched before the job's latest clear is not the current one, and its finish
      does not change what the job's poll answers. */
  lemma StaleThreadIsInvisible(h: seq<Event>, job: string, b: nat, result: BuildResult)
    requires Plausible(h + [Finish(b, result)])
    requires Active(h, job) ==> b != CurrentBuild(h, job)
    ensures Plausible(h)
    ensures
      var s, s' := Run(h), Run(h + [Finish(b, result)]);
      && (job in s.jobs ==> s.jobs[job] < |s.slots|) && (job in s'.jobs ==> s'.jobs[job] < |s'.slots|)
      && PollState(s', job) == PollState(s, job)
  {
    hide Run;
    var h' := h + [Finish(b, result)];
    assert Front(h') == h && Last(h') == Finish(b, result);
    assert Active(h', job) == Active(h, job);
    PollReportsCurrentBuild(h, job);
    PollReportsCurrentBuild(h', job);
  }

  /** Every build a job had before a clear has a lower number than any it gets afterwards. */
  lemma {:induction false} LaterBuildIsNewer(h: seq<Event>, more: seq<Event>, job: string)
    requires Active(h, job) && Active(h + [Clear(job)] + more, job)
    ensures CurrentBuild(h + [Clear(job)] + more, job) > CurrentBuild(h, job)
    decreases |more|
  {
    var cleared := h + [Clear(job)];
    var all := cleared + more;
    assert Last(cleared) == Clear(job);
    assert more == [] ==> all == cleared;
    if more != [] {
      assert Front(all) == cleared + Front(more) && Last(all) == Last(more);
      if Last(all) == Start(job) && !Active(Front(all), job) {
        LaunchesGrow(h, [Clear(job)] + Front(more));
        assert h + ([Clear(job)] + Front(more)) == Front(all);
      } else {
        LaterBuildIsNewer(h, Front(more), job);
      }
    }
  }

  lemma {:induction false} LaunchesGrow(h: seq<Event>, more: seq<Event>)
    ensures Launches(h + more) >= Launches(h)
  {
    if more == [] {
      assert h + more == h;
    } else {
      assert Front(h + more) == h + Front(more);
      LaunchesGrow(h, Front(more));
    }
  }
}
