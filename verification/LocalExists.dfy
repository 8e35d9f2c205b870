/**
 What holds of the local-directory store in every reachable state, with no proviso at
 all: `current` and every generation of the history name directories that exist.
 */
module LocalExists {
  import opened Wrappers
  import opened Utf16
  import opened OrderedMap
  import opened Utf8
  import opened Digest
  import opened GenerationFence
  import opened Marker
  import opened LocalStore
  import opened LocalAnswers
  import opened LocalSafety
  import opened LocalRuns
  import opened LocalHistory

  ghost predicate Sound(d: Disk) {
    (d.current.Some? ==> Release(d.current.value) in d.dirs)
    && (forall id :: id in Ids(d.history) ==> Release(id) in d.dirs)
  }

  /** The steps that keep it. */
  ghost predicate Keeps(d: Disk, step: Step) {
    match step
    case Swap(id) => Release(id) in d.dirs
    case WriteHistory(record) => Release(record.generationId) in d.dirs
    case RemoveDir(dir) => dir.Release? ==> dir.id !in Ids(d.history) && d.current != Some(dir.id)
    case _ => true
  }

  lemma KeepsSound(d: Disk, step: Step)
    requires Sound(d) && Keeps(d, step)
    ensures Sound(Apply(d, step))
  {
    hide Set, Delete, Retain, Ids;
    if step.WriteHistory? {
      RetainedIds(d.history, step.record);
    }
  }

  ghost predicate AllKeep(d: Disk, steps: seq<Step>)
    decreases |steps|
  {
    steps == [] || (Keeps(d, steps[0]) && AllKeep(Apply(d, steps[0]), steps[1..]))
  }

  lemma {:induction false} AllKeepSound(d: Disk, steps: seq<Step>)
    requires Sound(d) && AllKeep(d, steps)
    ensures Sound(Run(d, steps))
    decreases |steps|
  {
    hide Apply, Sound, Keeps;
    if steps != [] {
      KeepsSound(d, steps[0]);
      AllKeepSound(Apply(d, steps[0]), steps[1..]);
    }
  }

  lemma {:induction false} AllKeepAppend(d: Disk, a: seq<Step>, b: seq<Step>)
    requires AllKeep(d, a) && AllKeep(Run(d, a), b)
    ensures AllKeep(d, a + b)
    decreases |a|
  {
    hide Apply, Keeps;
    if a == [] {
      assert a + b == b;
    } else {
      AllKeepAppend(Apply(d, a[0]), a[1..], b);
      assert (a + b)[1..] == a[1..] + b;
    }
  }

  lemma {:induction false} PrefixKeeps(d: Disk, p: seq<Step>, steps: seq<Step>)
    requires p <= steps && AllKeep(d, steps)
    ensures AllKeep(d, p)
    decreases |p|
  {
    hide Apply, Keeps;
    if p != [] {
      assert p[0] == steps[0] && p[1..] <= steps[1..];
      PrefixKeeps(Apply(d, p[0]), p[1..], steps[1..]);
    }
  }

  lemma {:induction false} HarmlessKeeps(d: Disk, steps: seq<Step>)
    requires Harmless(steps)
    ensures AllKeep(d, steps)
    decreases |steps|
  {
    hide Apply;
    if steps != [] {
      HarmlessKeeps(Apply(d, steps[0]), steps[1..]);
    }
  }

  lemma ActivateKeeps(env: Env, d: Disk, input: ActivateInput)
    ensures AllKeep(d, ActivatePlan(env, d, input).fixed)
  {
    hide WalkDigest, MarkerOf, DigestOf, Retain, Retired, RequireGenerationFence, FenceDisagrees, Run;
    var plan := ActivatePlan(env, d, input);
    var id := input.generationId;
    if plan.fixed != [] {
      var onDisk := Release(id) in d.dirs;
      var rest := if onDisk then plan.fixed else plan.fixed[1..];
      var ready := if onDisk then d else Apply(d, Commit(input.stageToken, id));
      assert Release(id) in ready.dirs && rest[0] == Swap(id);
      var swapped := Apply(ready, Swap(id));
      if |rest| > 1 {
        assert rest[1..][0] == rest[1] && rest[1..][1..] == [];
        assert AllKeep(swapped, rest[1..]);
      } else {
        assert rest[1..] == [];
      }
      assert AllKeep(swapped, rest[1..]);
      assert Keeps(ready, rest[0]) && Apply(ready, rest[0]) == swapped;
      assert AllKeep(ready, rest);
      if !onDisk {
        assert plan.fixed[0] == Commit(input.stageToken, id) && Keeps(d, plan.fixed[0]);
      }
    }
  }

  /** Nothing doomed is current or retained. */
  ghost predicate Spare(d: Disk, doomed: set<Dir>) {
    forall dir :: dir in doomed && dir.Release? ==> dir.id !in Ids(d.history) && d.current != Some(dir.id)
  }

  lemma {:induction false} RemovalsKeep(d: Disk, doomed: set<Dir>, steps: seq<Step>)
    requires Spare(d, doomed) && forall i :: 0 <= i < |steps| ==> IsRemoval(steps[i], doomed)
    ensures AllKeep(d, steps)
    decreases |steps|
  {
    hide Delete, Ids;
    if steps != [] {
      assert IsRemoval(steps[0], doomed);
      RemovalsKeep(Apply(d, steps[0]), doomed, steps[1..]);
    }
  }

  lemma ActivateSpares(env: Env, d: Disk, input: ActivateInput)
    ensures Spare(Run(d, ActivatePlan(env, d, input).fixed), ActivatePlan(env, d, input).doomed)
  {
    hide ActivatePlan, Ids;
    var w := World(d, map[], {}, []);
    ActivateDoomsOnlyRetired(env, w, input);
    ProgressRuns(w, ActivatePlan(env, d, input).fixed);
  }

  lemma CallKeeps(env: Env, d: Disk, call: Call)
    ensures var plan := PlanOf(env, d, call);
            AllKeep(d, plan.fixed) && Spare(Run(d, plan.fixed), plan.doomed)
  {
    hide StagePlan, ActivatePlan, WalkDigest, Walk, FenceFor;
    match call
    case CallStage(input) =>
      StageHarmless(env, d, input);
      HarmlessKeeps(d, StagePlan(env, d, input).fixed);
    case CallActivate(input) =>
      ActivateKeeps(env, d, input);
      ActivateSpares(env, d, input);
    case CallCleanup(_, _) =>
    case CallRollback(input) =>
      if Release(input.target) in d.dirs {
        var staging := StagePlan(env, d, RollbackStage(env, d, input));
        StageHarmless(env, d, RollbackStage(env, d, input));
        HarmlessKeeps(d, staging.fixed);
        if staging.outcome.Ok? {
          var staged := Run(d, staging.fixed);
          var token := env.tokenOf(input.operationId, input.attemptId, input.newGenerationId);
          var activate := ActivateInput(token, input.newGenerationId, Some(FenceFor(staged.current)), None);
          ActivateKeeps(env, staged, activate);
          ActivateSpares(env, staged, activate);
          AllKeepAppend(d, staging.fixed, ActivatePlan(env, staged, activate).fixed);
          RunAppend(d, staging.fixed, ActivatePlan(env, staged, activate).fixed);
        }
      }
  }

  lemma CallSound(env: Env, d: Disk, call: Call, steps: seq<Step>, done: bool)
    requires Sound(d) && Performs(d, PlanOf(env, d, call), steps, done)
    ensures Sound(Run(d, steps))
  {
    hide Sound, PlanOf, Spare;
    CallKeeps(env, d, call);
    var plan := PlanOf(env, d, call);
    if steps <= plan.fixed {
      PrefixKeeps(d, steps, plan.fixed);
    } else {
      var removals := steps[|plan.fixed|..];
      RemovalsKeep(Run(d, plan.fixed), plan.doomed, removals);
      AllKeepAppend(d, plan.fixed, removals);
      assert steps == plan.fixed + removals;
    }
    AllKeepSound(d, steps);
  }

  /**
   In every state reachable by any calls, each stopped anywhere, `current` is absent or
   names an existing release, and every generation of the history has its release on disk.
   */
  lemma {:induction false} AlwaysSound(env: Env, w: World, events: seq<Event>)
    requires Sound(w.disk) && Happens(env, w, events)
    ensures Sound(After(w, events).disk)
    decreases |events|
  {
    hide Sound, PlanOf, Performs;
    if events != [] {
      var e := events[0];
      CallSound(env, w.disk, e.call, e.steps, e.done);
      ProgressRuns(w, e.steps);
      AlwaysSound(env, Progress(w, e.steps), events[1..]);
    }
  }

  /** Every event moved the pointer only as its call's fence allows. */
  ghost predicate MovesAsFenced(env: Env, w: World, events: seq<Event>)
    decreases |events|
  {
    events == []
    || (var next := Progress(w, events[0].steps);
        MovedAsFenced(env, w.disk, events[0].call, next.disk) && MovesAsFenced(env, next, events[1..]))
  }

  /**
   Over any calls, each stopped anywhere: the pointer leaves a generation only for an
   activation whose fence named that generation, or for a rollback that found it current.
   */
  lemma {:induction false} AlwaysFenced(env: Env, w: World, events: seq<Event>)
    requires Happens(env, w, events)
    ensures MovesAsFenced(env, w, events)
    decreases |events|
  {
    hide PlanOf, Performs, MovedAsFenced;
    if events != [] {
      var e := events[0];
      CallMovesAsFenced(env, w.disk, e.call, e.steps, e.done);
      ProgressRuns(w, e.steps);
      AlwaysFenced(env, Progress(w, e.steps), events[1..]);
    }
  }

  lemma StartsSound()
    ensures Sound(GENESIS.disk)
  {
  }

  /** After a completed fresh activation the releases on disk are exactly the history's, the new one first and served. */
  lemma FreshActivationLeavesHistory(env: Env, d: Disk, input: ActivateInput, steps: seq<Step>)
    requires Sound(d) && Performs(d, ActivatePlan(env, d, input), steps, true)
    requires ActivatesFreshly(ActivatePlan(env, d, input).outcome)
    ensures var next := Run(d, steps);
            next.current == Some(input.generationId)
            && next.history != [] && next.history[0].generationId == input.generationId
            && forall id :: Release(id) in next.dirs <==> id in Ids(next.history)
  {
    hide ActivatePlan, Ids, Apply;
    var plan := ActivatePlan(env, d, input);
    var removals := steps[|plan.fixed|..];
    assert steps == plan.fixed + removals;
    FreshFixedEnds(env, d, input);
    CallSound(env, d, CallActivate(input), steps, true);
    ActivateSpares(env, d, input);
    RunAppend(d, plan.fixed, removals);
    var w := World(Run(d, plan.fixed), map[], {}, []);
    RemovalsSafe(w, plan.doomed, removals);
    ProgressRuns(w, removals);
  }
}
