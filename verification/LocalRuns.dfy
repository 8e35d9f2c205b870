/**
 Results about the local-directory store over whole runs: calls one after another, each
 stopped anywhere.
 */
module LocalRuns {
  import opened Wrappers
  import opened Utf16
  import opened OrderedMap
  import opened Utf8
  import opened Digest
  import opened GenerationFence
  import opened Marker
  import opened LocalStore
  import opened LocalSafety

  /** The generation a call would make current. */
  function TargetOf(call: Call): Option<Id> {
    match call
    case CallActivate(input) => Some(input.generationId)
    case CallRollback(input) => Some(input.newGenerationId)
    case _ => None
  }

  /** The call does not activate a release that an unfinished removal has damaged. */
  ghost predicate AvoidsTorn(w: World, call: Call) {
    TargetOf(call).Some? ==> TargetOf(call).value !in w.torn
  }

  // ---- Plans take only safe steps ----

  ghost predicate Harmless(steps: seq<Step>) {
    forall i :: 0 <= i < |steps| ==> steps[i].WriteFile? || steps[i].WriteJournal?
  }

  lemma {:induction false} HarmlessSafe(w: World, steps: seq<Step>)
    requires Harmless(steps)
    ensures AllSafe(w, steps) && AllServe(w, steps)
    ensures var next := Progress(w, steps);
            next.torn == w.torn && next.certified == w.certified && next.committed == w.committed
            && next.disk.current == w.disk.current && next.disk.history == w.disk.history
            && (forall id :: OnDisk(next, id) <==> OnDisk(w, id))
            && (forall id :: OnDisk(w, id) ==> next.disk.dirs[Release(id)] == w.disk.dirs[Release(id)])
    decreases |steps|
  {
    hide Set;
    if steps != [] {
      HarmlessSafe(Advance(w, steps[0]), steps[1..]);
    }
  }

  lemma {:induction false} WritesHarmless(token: Token, files: seq<File>)
    ensures Harmless(WriteFiles(token, files))
  {
    if files != [] {
      WritesHarmless(token, files[1..]);
    }
  }

  lemma StageHarmless(env: Env, d: Disk, input: StageInput)
    ensures Harmless(StagePlan(env, d, input).fixed) && StagePlan(env, d, input).doomed == {}
  {
    WritesHarmless(env.tokenOf(input.operationId, input.attemptId, input.generationId), input.files);
  }

  lemma {:induction false} ActivateSafe(env: Env, w: World, input: ActivateInput)
    requires Inv(w) && input.generationId !in w.torn
    ensures AllSafe(w, ActivatePlan(env, w.disk, input).fixed)
    ensures AllServe(w, ActivatePlan(env, w.disk, input).fixed)
  {
    hide WalkDigest, MarkerOf, Retain, Retired, Inv, RequireGenerationFence, FenceDisagrees;
    var plan := ActivatePlan(env, w.disk, input);
    var id := input.generationId;
    if plan.fixed != [] {
      var rest := if OnDisk(w, id) then plan.fixed else plan.fixed[1..];
      var ready := if OnDisk(w, id) then w else Advance(w, Commit(input.stageToken, id));
      assert OnDisk(ready, id) && id !in ready.torn;
      assert rest[0] == Swap(id);
      var swapped := Advance(ready, Swap(id));
      assert OnDisk(swapped, id) && id !in swapped.torn;
      if |rest| > 1 {
        assert rest[1..][0] == rest[1] && rest[1..][1..] == [];
        assert AllSafe(swapped, rest[1..]) && AllServe(swapped, rest[1..]);
      } else {
        assert rest[1..] == [];
      }
      assert AllSafe(swapped, rest[1..]) && AllServe(swapped, rest[1..]);
      assert Safe(ready, rest[0]) && SafeForServed(ready, rest[0]) && Advance(ready, rest[0]) == swapped;
      assert AllSafe(ready, rest) && AllServe(ready, rest);
      if !OnDisk(w, id) {
        assert plan.fixed[0] == Commit(input.stageToken, id) && Safe(w, plan.fixed[0]) && SafeForServed(w, plan.fixed[0]);
      }
    }
  }

  /** Nothing doomed is served or retained. */
  ghost predicate Expendable(w: World, doomed: set<Dir>) {
    forall dir :: dir in doomed && dir.Release? ==>
      dir.id !in Ids(w.disk.history) && w.disk.current != Some(dir.id)
  }

  lemma {:induction false} RemovalsSafe(w: World, doomed: set<Dir>, steps: seq<Step>)
    requires Expendable(w, doomed)
    requires forall i :: 0 <= i < |steps| ==> IsRemoval(steps[i], doomed)
    ensures AllSafe(w, steps) && AllServe(w, steps)
    ensures var next := Progress(w, steps);
            next.certified == w.certified && next.committed == w.committed
            && next.disk.current == w.disk.current && next.disk.history == w.disk.history
            && (forall dir :: dir in w.disk.dirs && dir !in doomed ==>
                  dir in next.disk.dirs && next.disk.dirs[dir] == w.disk.dirs[dir])
            && (forall dir :: dir in next.disk.dirs ==> dir in w.disk.dirs)
    decreases |steps|
  {
    hide Delete, Ids;
    if steps != [] {
      assert IsRemoval(steps[0], doomed);
      RemovalsSafe(Advance(w, steps[0]), doomed, steps[1..]);
    }
  }

  /** A swap and the history write after it: what is current is retained. */
  lemma SwapRecordExpends(d: Disk, before: seq<Step>, id: Id, record: Record)
    requires record.generationId == id
    ensures var end := Run(d, before + [Swap(id), WriteHistory(record)]);
            end.current == Some(id) && id in Ids(end.history)
  {
    hide Retain, Ids;
    var ready := Run(d, before);
    RunAppend(d, before, [Swap(id), WriteHistory(record)]);
    RunTwo(ready, Swap(id), WriteHistory(record));
    RetainedIds(ready.history, record);
  }

  /** After the fixed steps of an activation, what is current is retained. */
  lemma ActivateDoomsOnlyRetired(env: Env, w: World, input: ActivateInput)
    ensures var plan := ActivatePlan(env, w.disk, input);
            Expendable(Progress(w, plan.fixed), plan.doomed)
            && (plan.doomed != {} ==> plan.doomed == Retired(Progress(w, plan.fixed).disk))
  {
    hide WalkDigest, MarkerOf, DigestOf, RequireGenerationFence, FenceDisagrees, Retain, Run, Progress, Ids;
    var plan := ActivatePlan(env, w.disk, input);
    ProgressRuns(w, plan.fixed);
    if plan.doomed != {} {
      var id := input.generationId;
      var commit := if Release(id) in w.disk.dirs then [] else [Commit(input.stageToken, id)];
      var record := plan.fixed[|plan.fixed| - 1].record;
      assert plan.fixed == commit + [Swap(id), WriteHistory(record)];
      SwapRecordExpends(w.disk, commit, id, record);
    }
  }

  lemma CallSafe(env: Env, w: World, call: Call)
    requires Inv(w) && AvoidsTorn(w, call)
    ensures var plan := PlanOf(env, w.disk, call);
            AllSafe(w, plan.fixed) && AllServe(w, plan.fixed) && Expendable(Progress(w, plan.fixed), plan.doomed)
  {
    hide StagePlan, ActivatePlan, Inv;
    match call
    case CallStage(input) =>
      StageHarmless(env, w.disk, input);
      HarmlessSafe(w, StagePlan(env, w.disk, input).fixed);
    case CallActivate(input) =>
      ActivateSafe(env, w, input);
      ActivateDoomsOnlyRetired(env, w, input);
    case CallCleanup(_, _) =>
    case CallRollback(input) => RollbackSafe(env, w, input);
  }

  lemma RollbackSafe(env: Env, w: World, input: RollbackInput)
    requires Inv(w) && input.newGenerationId !in w.torn
    ensures var plan := RollbackPlan(env, w.disk, input);
            AllSafe(w, plan.fixed) && AllServe(w, plan.fixed) && Expendable(Progress(w, plan.fixed), plan.doomed)
  {
    hide StagePlan, ActivatePlan, Inv, WalkDigest, Walk, FenceFor;
    if Release(input.target) in w.disk.dirs {
      var staging := StagePlan(env, w.disk, RollbackStage(env, w.disk, input));
      StageHarmless(env, w.disk, RollbackStage(env, w.disk, input));
      HarmlessSafe(w, staging.fixed);
      if staging.outcome.Ok? {
        var staged := Progress(w, staging.fixed);
        ProgressRuns(w, staging.fixed);
        AllSafeKeepsInv(w, staging.fixed);
        var token := env.tokenOf(input.operationId, input.attemptId, input.newGenerationId);
        var activate := ActivateInput(token, input.newGenerationId, Some(FenceFor(staged.disk.current)), None);
        ActivateSafe(env, staged, activate);
        ActivateDoomsOnlyRetired(env, staged, activate);
        AllSafeAppend(w, staging.fixed, ActivatePlan(env, staged.disk, activate).fixed);
        ProgressAppend(w, staging.fixed, ActivatePlan(env, staged.disk, activate).fixed);
      }
    }
  }

  /** Whatever part of a call happened, the invariant holds and what is served is what was committed. */
  lemma CallKeepsServed(env: Env, w: World, call: Call, steps: seq<Step>, done: bool)
    requires Inv(w) && Served(w) && AvoidsTorn(w, call)
    requires Performs(w.disk, PlanOf(env, w.disk, call), steps, done)
    ensures Inv(Progress(w, steps)) && Served(Progress(w, steps))
  {
    hide Inv, Served, PlanOf, AvoidsTorn, Expendable;
    CallSafe(env, w, call);
    var plan := PlanOf(env, w.disk, call);
    if steps <= plan.fixed {
      PrefixSafe(w, steps, plan.fixed);
    } else {
      var removals := steps[|plan.fixed|..];
      RemovalsSafe(Progress(w, plan.fixed), plan.doomed, removals);
      AllSafeAppend(w, plan.fixed, removals);
      assert steps == plan.fixed + removals;
    }
    AllSafeKeepsInv(w, steps);
    AllServeKeepsServed(w, steps);
  }

  // ---- Runs ----

  /** A call and what it did before it finished or was stopped. */
  datatype Event = Event(call: Call, steps: seq<Step>, done: bool)

  function After(w: World, events: seq<Event>): World
    decreases |events|
  {
    if events == [] then w else After(Progress(w, events[0].steps), events[1..])
  }

  /** Each event is something its call can do to the disk it finds. */
  ghost predicate Happens(env: Env, w: World, events: seq<Event>)
    decreases |events|
  {
    events == []
    || (Performs(w.disk, PlanOf(env, w.disk, events[0].call), events[0].steps, events[0].done)
        && Happens(env, Progress(w, events[0].steps), events[1..]))
  }

  ghost predicate NeverReusesTorn(w: World, events: seq<Event>)
    decreases |events|
  {
    events == [] || (AvoidsTorn(w, events[0].call) && NeverReusesTorn(Progress(w, events[0].steps), events[1..]))
  }

  lemma {:induction false} RunKeepsServed(env: Env, w: World, events: seq<Event>)
    requires Inv(w) && Served(w) && Happens(env, w, events) && NeverReusesTorn(w, events)
    ensures Inv(After(w, events)) && Served(After(w, events))
    decreases |events|
  {
    hide Inv, Served, PlanOf, Performs, AvoidsTorn;
    if events != [] {
      var e := events[0];
      CallKeepsServed(env, w, e.call, e.steps, e.done);
      RunKeepsServed(env, Progress(w, e.steps), events[1..]);
    }
  }

  lemma GenesisHolds()
    ensures Inv(GENESIS) && Served(GENESIS)
  {
  }

  /**
   Over every run from an empty root, every call stopped anywhere: `current` is absent or
   names a release whose files are exactly those it had when it was renamed out of staging,
   provided no call activates a release an unfinished removal has damaged.
   */
  lemma ServedIsCommitted(env: Env, events: seq<Event>)
    requires Happens(env, GENESIS, events) && NeverReusesTorn(GENESIS, events)
    ensures Inv(After(GENESIS, events)) && Served(After(GENESIS, events))
  {
    GenesisHolds();
    RunKeepsServed(env, GENESIS, events);
  }

  /** The event unlinks a file of this release. */
  predicate UnlinksIn(event: Event, id: Id) {
    exists i :: 0 <= i < |event.steps| && event.steps[i].Unlink? && event.steps[i].dir == Release(id)
  }

  /** No event stops between the first file it unlinks in a release and the removal of that release. */
  ghost predicate RemovesWhole(w: World, events: seq<Event>)
    decreases |events|
  {
    events == []
    || (var next := Progress(w, events[0].steps);
        (forall id :: UnlinksIn(events[0], id) ==> !OnDisk(next, id)) && RemovesWhole(next, events[1..]))
  }

  /** Only an unlinked release becomes torn. */
  lemma {:induction false} TornIsUnlinked(w: World, steps: seq<Step>, id: Id)
    requires id in Progress(w, steps).torn && id !in w.torn
    ensures exists i :: 0 <= i < |steps| && steps[i].Unlink? && steps[i].dir == Release(id)
    decreases |steps|
  {
    hide Apply, TreeAt;
    if id !in Advance(w, steps[0]).torn {
      TornIsUnlinked(Advance(w, steps[0]), steps[1..], id);
      var i :| 0 <= i < |steps[1..]| && steps[1..][i].Unlink? && steps[1..][i].dir == Release(id);
      assert steps[i + 1] == steps[1..][i];
    } else {
      assert steps[0].Unlink? && steps[0].dir == Release(id);
    }
  }

  lemma {:induction false} WholeNeverTorn(env: Env, w: World, events: seq<Event>)
    requires Inv(w) && Served(w) && Happens(env, w, events) && RemovesWhole(w, events) && w.torn == {}
    ensures NeverReusesTorn(w, events)
    decreases |events|
  {
    hide Progress, PlanOf, Performs, Served, Inv;
    if events != [] {
      var e := events[0];
      var next := Progress(w, e.steps);
      CallKeepsServed(env, w, e.call, e.steps, e.done);
      forall id ensures id !in next.torn {
        if id in next.torn {
          TornIsUnlinked(w, e.steps, id);
          assert UnlinksIn(e, id);
          TornOnDisk(next, id);
        }
      }
      WholeNeverTorn(env, next, events[1..]);
    }
  }

  lemma TornOnDisk(w: World, id: Id)
    requires Inv(w) && id in w.torn
    ensures OnDisk(w, id)
  {
  }

  /** When directory removals are not interrupted, no proviso is needed. */
  lemma ServedWhenRemovalsAreWhole(env: Env, events: seq<Event>)
    requires Happens(env, GENESIS, events) && RemovesWhole(GENESIS, events)
    ensures Inv(After(GENESIS, events)) && Served(After(GENESIS, events))
  {
    GenesisHolds();
    WholeNeverTorn(env, GENESIS, events);
    ServedIsCommitted(env, events);
  }

  /** What a caller can look up before a call: the wanted release is absent, retained or already current. */
  predicate CallerChecks(d: Disk, call: Call) {
    TargetOf(call).Some? ==>
      Release(TargetOf(call).value) !in d.dirs || TargetOf(call).value in Ids(d.history) || d.current == TargetOf(call)
  }

  ghost predicate ChecksEach(w: World, events: seq<Event>)
    decreases |events|
  {
    events == [] || (CallerChecks(w.disk, events[0].call) && ChecksEach(Progress(w, events[0].steps), events[1..]))
  }

  lemma CheckedAvoidsTorn(w: World, call: Call)
    requires Inv(w) && Served(w) && CallerChecks(w.disk, call)
    ensures AvoidsTorn(w, call)
  {
    hide MostRecent, First, IdList, Ids;
  }

  /** With that look-up before every activation and rollback the guarantee needs no proviso about the past, and nothing of the hash. */
  lemma {:induction false} ServedWhenChecked(env: Env, w: World, events: seq<Event>)
    requires Inv(w) && Served(w) && Happens(env, w, events) && ChecksEach(w, events)
    ensures Inv(After(w, events)) && Served(After(w, events))
    decreases |events|
  {
    hide Inv, Served, PlanOf, Performs, CallerChecks, AvoidsTorn;
    if events != [] {
      var e := events[0];
      CheckedAvoidsTorn(w, e.call);
      CallKeepsServed(env, w, e.call, e.steps, e.done);
      ServedWhenChecked(env, Progress(w, e.steps), events[1..]);
    }
  }
}
