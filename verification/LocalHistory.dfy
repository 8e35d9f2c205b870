/**
 What the local-directory store retains over whole runs, and what a rollback serves.
 */
module LocalHistory {
  import opened Wrappers
  import opened Utf16
  import opened OrderedMap
  import opened Utf8
  import opened Digest
  import opened GenerationFence
  import opened Marker
  import opened LocalStore
  import opened LocalSafety
  import opened LocalRuns

  // ---- Retention ----

  predicate ActivatesFreshly(outcome: Outcome) {
    outcome.Ok? && outcome.value.Activated? && !outcome.value.idempotent
  }

  /** What an outcome adds to the certified generations. */
  function Certify(outcome: Outcome, earlier: seq<Id>): seq<Id> {
    if ActivatesFreshly(outcome) then [outcome.value.id] + earlier else earlier
  }

  /** The fresh activations of a run, newest first, on top of `earlier`. */
  function Fresh(env: Env, w: World, events: seq<Event>, earlier: seq<Id>): seq<Id>
    decreases |events|
  {
    if events == [] then earlier
    else
      var now := if events[0].done then Certify(PlanOf(env, w.disk, events[0].call).outcome, earlier) else earlier;
      Fresh(env, Progress(w, events[0].steps), events[1..], now)
  }

  lemma {:induction false} RemovalsKeepCertified(w: World, steps: seq<Step>)
    requires forall i :: 0 <= i < |steps| ==> steps[i].Unlink? || steps[i].RemoveDir?
    ensures Progress(w, steps).certified == w.certified
    ensures Progress(w, steps).disk.history == w.disk.history
    decreases |steps|
  {
    if steps != [] {
      RemovalsKeepCertified(Advance(w, steps[0]), steps[1..]);
    }
  }

  lemma ActivateCertifies(env: Env, w: World, input: ActivateInput)
    ensures var plan := ActivatePlan(env, w.disk, input);
            Progress(w, plan.fixed).certified == Certify(plan.outcome, w.certified)
  {
    hide WalkDigest, MarkerOf, DigestOf, RequireGenerationFence, FenceDisagrees, Retain, Retired, Run, Apply, TreeAt, Find;
    var plan := ActivatePlan(env, w.disk, input);
    var id := input.generationId;
    var commit := if Release(id) in w.disk.dirs then [] else [Commit(input.stageToken, id)];
    if plan.fixed != [] {
      ProgressSnoc(w, [], Commit(input.stageToken, id));
      assert [] + [Commit(input.stageToken, id)] == [Commit(input.stageToken, id)];
      assert Progress(w, commit).certified == w.certified;
      ProgressSnoc(w, commit, Swap(id));
      if plan.outcome.Ok? {
        var record := plan.fixed[|plan.fixed| - 1].record;
        assert plan.fixed == commit + [Swap(id)] + [WriteHistory(record)];
        ProgressSnoc(w, commit + [Swap(id)], WriteHistory(record));
      } else {
        assert plan.fixed == commit + [Swap(id)];
      }
    }
  }

  /** A call that ran to its end certified exactly what it freshly activated. */
  lemma DoneCertifies(env: Env, w: World, event: Event)
    requires Performs(w.disk, PlanOf(env, w.disk, event.call), event.steps, event.done) && event.done
    ensures Progress(w, event.steps).certified ==
            Certify(PlanOf(env, w.disk, event.call).outcome, w.certified)
  {
    hide StagePlan, ActivatePlan, WalkDigest, Walk, FenceFor, Run;
    var plan := PlanOf(env, w.disk, event.call);
    var removals := event.steps[|plan.fixed|..];
    assert event.steps == plan.fixed + removals;
    ProgressAppend(w, plan.fixed, removals);
    RemovalsKeepCertified(Progress(w, plan.fixed), removals);
    match event.call
    case CallStage(input) =>
      StageHarmless(env, w.disk, input);
      HarmlessSafe(w, plan.fixed);
      StageStages(env, w.disk, input);
    case CallActivate(input) => ActivateCertifies(env, w, input);
    case CallCleanup(_, _) =>
    case CallRollback(input) => RollbackCertifies(env, w, input);
  }

  lemma StageStages(env: Env, d: Disk, input: StageInput)
    ensures !ActivatesFreshly(StagePlan(env, d, input).outcome)
  {
  }

  lemma RollbackCertifies(env: Env, w: World, input: RollbackInput)
    ensures var plan := RollbackPlan(env, w.disk, input);
            Progress(w, plan.fixed).certified == Certify(plan.outcome, w.certified)
  {
    hide StagePlan, ActivatePlan, WalkDigest, Walk, FenceFor;
    if Release(input.target) in w.disk.dirs {
      var staging := StagePlan(env, w.disk, RollbackStage(env, w.disk, input));
      StageHarmless(env, w.disk, RollbackStage(env, w.disk, input));
      HarmlessSafe(w, staging.fixed);
      StageStages(env, w.disk, RollbackStage(env, w.disk, input));
      if staging.outcome.Ok? {
        var staged := Progress(w, staging.fixed);
        ProgressRuns(w, staging.fixed);
        var token := env.tokenOf(input.operationId, input.attemptId, input.newGenerationId);
        var activate := ActivateInput(token, input.newGenerationId, Some(FenceFor(staged.disk.current)), None);
        ActivateCertifies(env, staged, activate);
        ProgressAppend(w, staging.fixed, ActivatePlan(env, staged.disk, activate).fixed);
      }
    }
  }

  lemma {:induction false} CertifiedIsFresh(env: Env, w: World, events: seq<Event>)
    requires Happens(env, w, events) && forall i :: 0 <= i < |events| ==> events[i].done
    ensures After(w, events).certified == Fresh(env, w, events, w.certified)
    decreases |events|
  {
    hide Performs, PlanOf, Certify;
    if events != [] {
      DoneCertifies(env, w, events[0]);
      CertifiedIsFresh(env, Progress(w, events[0].steps), events[1..]);
    }
  }

  /** The history is the head of the certified generations. */
  ghost predicate Recorded(w: World) {
    IdList(w.disk.history) == First(MostRecent(w.certified), RETAINED)
  }

  /** Whatever the steps, written records keep the history in step with them. */
  lemma {:induction false} StepsKeepRecorded(w: World, steps: seq<Step>)
    requires Recorded(w)
    ensures Recorded(Progress(w, steps))
    decreases |steps|
  {
    hide Retain, MostRecent, First, IdList;
    if steps != [] {
      if steps[0].WriteHistory? {
        RetainKeepsMostRecent(w.disk.history, steps[0].record, w.certified);
      }
      StepsKeepRecorded(Advance(w, steps[0]), steps[1..]);
    }
  }

  lemma {:induction false} RunsKeepRecorded(w: World, events: seq<Event>)
    requires Recorded(w)
    ensures Recorded(After(w, events))
    decreases |events|
  {
    hide Recorded;
    if events != [] {
      StepsKeepRecorded(w, events[0].steps);
      RunsKeepRecorded(Progress(w, events[0].steps), events[1..]);
    }
  }

  /**
   Over every crash-free run the persisted history is the first six of the deduplicated,
   most-recent-first list of fresh activations.
   */
  lemma HistoryIsMostRecent(env: Env, events: seq<Event>)
    requires Happens(env, GENESIS, events) && forall i :: 0 <= i < |events| ==> events[i].done
    ensures IdList(After(GENESIS, events).disk.history) == First(MostRecent(Fresh(env, GENESIS, events, [])), 6)
  {
    RunsKeepRecorded(GENESIS, events);
    CertifiedIsFresh(env, GENESIS, events);
  }

  lemma InvHistory(w: World)
    requires Inv(w)
    ensures IdList(w.disk.history) == First(MostRecent(w.certified), 6)
    ensures forall id :: id in Ids(w.disk.history) ==> Intact(w, id)
  {
  }

  /** Where the fixed steps of a fresh activation end: served, first in the history, the rest doomed. */
  lemma FreshFixedEnds(env: Env, d: Disk, input: ActivateInput)
    requires ActivatesFreshly(ActivatePlan(env, d, input).outcome)
    ensures var plan := ActivatePlan(env, d, input);
            var end := Run(d, plan.fixed);
            end.current == Some(input.generationId) && plan.doomed == Retired(end)
            && end.history != [] && end.history[0].generationId == input.generationId
  {
    hide WalkDigest, MarkerOf, RequireGenerationFence, FenceDisagrees, Retain, Retired;
    var plan := ActivatePlan(env, d, input);
    var n := |plan.fixed|;
    var record := plan.fixed[n - 1].record;
    var swapped := Run(d, plan.fixed[..n - 2]);
    assert plan.fixed == plan.fixed[..n - 2] + [Swap(input.generationId), WriteHistory(record)];
    RunAppend(d, plan.fixed[..n - 2], [Swap(input.generationId), WriteHistory(record)]);
    RunTwo(swapped, Swap(input.generationId), WriteHistory(record));
    RetainedIds(swapped.history, record);
    RetainNotEmpty(swapped.history, record);
  }

  lemma RetainNotEmpty(history: seq<Record>, record: Record)
    ensures Retain(history, record) != []
  {
  }

  /**
   After a completed fresh activation the release directories on disk are exactly the
   generations the history holds, the new one first and served.
   */
  lemma FreshActivationRetains(env: Env, w: World, input: ActivateInput, steps: seq<Step>)
    requires Inv(w) && input.generationId !in w.torn
    requires Performs(w.disk, ActivatePlan(env, w.disk, input), steps, true)
    requires ActivatesFreshly(ActivatePlan(env, w.disk, input).outcome)
    ensures var next := Progress(w, steps);
            next.disk.current == Some(input.generationId)
            && next.disk.history != [] && next.disk.history[0].generationId == input.generationId
            && (forall id :: OnDisk(next, id) <==> id in Ids(next.disk.history))
            && (forall id :: OnDisk(next, id) ==> Intact(next, id))
  {
    hide ActivatePlan, Inv, Ids, Expendable, Apply, Advance, Set, Delete, Find, Retain;
    var plan := ActivatePlan(env, w.disk, input);
    var fixed := Progress(w, plan.fixed);
    var removals := steps[|plan.fixed|..];
    FreshFixedEnds(env, w.disk, input);
    ActivateSafe(env, w, input);
    ActivateDoomsOnlyRetired(env, w, input);
    AllSafeKeepsInv(w, plan.fixed);
    ProgressRuns(w, plan.fixed);
    RemovalsSafe(fixed, plan.doomed, removals);
    assert steps == plan.fixed + removals;
    ProgressAppend(w, plan.fixed, removals);
    ProgressRuns(w, steps);
    AllSafeKeepsInv(fixed, removals);
    var next := Progress(w, steps);
    InvHistory(next);
    forall id | OnDisk(next, id) ensures id in Ids(next.disk.history) {
    }
  }

  // ---- Directories hold each name once ----

  ghost predicate TreesDistinct(d: Disk) {
    forall dir :: dir in d.dirs ==> DistinctKeys(d.dirs[dir])
  }

  lemma ApplyKeepsDistinct(d: Disk, step: Step)
    requires TreesDistinct(d)
    ensures TreesDistinct(Apply(d, step))
  {
    hide Set, Delete, Retain;
    match step
    case WriteFile(token, path, bytes) => SetKeys(TreeAt(d, Scratch(token)), path, bytes);
    case Unlink(dir, path) => DeleteKeys(TreeAt(d, dir), path);
    case _ =>
  }

  lemma {:induction false} RunKeepsDistinct(d: Disk, steps: seq<Step>)
    requires TreesDistinct(d)
    ensures TreesDistinct(Run(d, steps))
    decreases |steps|
  {
    hide TreesDistinct, Apply;
    if steps != [] {
      ApplyKeepsDistinct(d, steps[0]);
      RunKeepsDistinct(Apply(d, steps[0]), steps[1..]);
    }
  }

  /** In every reachable disk each directory holds each path once. */
  lemma {:induction false} AlwaysDistinct(w: World, events: seq<Event>)
    requires TreesDistinct(w.disk)
    ensures TreesDistinct(After(w, events).disk)
    decreases |events|
  {
    hide TreesDistinct;
    if events != [] {
      RunKeepsDistinct(w.disk, events[0].steps);
      ProgressRuns(w, events[0].steps);
      AlwaysDistinct(Progress(w, events[0].steps), events[1..]);
    }
  }

  // ---- Rollback ----

  /** Only the stage directory of `token` differs. */
  ghost predicate OnlyStage(d: Disk, next: Disk, token: Token) {
    next.current == d.current && next.history == d.history && next.journal == d.journal
    && (forall dir :: dir != Scratch(token) ==> (dir in next.dirs <==> dir in d.dirs))
    && (forall dir :: dir != Scratch(token) && dir in d.dirs ==> next.dirs[dir] == d.dirs[dir])
  }

  lemma WriteOne(d: Disk, token: Token, file: File)
    requires forall i :: 0 <= i < |TreeAt(d, Scratch(token))| ==> TreeAt(d, Scratch(token))[i].key != file.key
    ensures var next := Apply(d, WriteFile(token, file.key, file.val));
            OnlyStage(d, next, token) && Scratch(token) in next.dirs
            && TreeAt(next, Scratch(token)) == TreeAt(d, Scratch(token)) + [file]
  {
    SetAppends(TreeAt(d, Scratch(token)), file.key, file.val);
  }

  lemma {:induction false} WritesAppend(d: Disk, token: Token, files: seq<File>)
    requires DistinctKeys(TreeAt(d, Scratch(token)) + files)
    ensures var next := Run(d, WriteFiles(token, files));
            OnlyStage(d, next, token)
            && TreeAt(next, Scratch(token)) == TreeAt(d, Scratch(token)) + files
    decreases |files|
  {
    hide Apply, TreeAt;
    var tree := TreeAt(d, Scratch(token));
    if files == [] {
      assert tree + files == tree;
    } else {
      var whole := tree + files;
      assert whole[|tree|] == files[0];
      forall i | 0 <= i < |tree| ensures tree[i].key != files[0].key {
        assert whole[i] == tree[i];
      }
      WriteOne(d, token, files[0]);
      var step := WriteFile(token, files[0].key, files[0].val);
      HeadAndTail(files);
      Regroup(tree, [files[0]], files[1..]);
      WritesAppend(Apply(d, step), token, files[1..]);
      Uncons(step, WriteFiles(token, files[1..]));
    }
  }

  lemma {:induction false} SelectMeans(tree: Tree)
    ensures forall x :: x in Select(IsPayload, tree) <==> x in tree && x.key != MARKER_FILENAME
    ensures DistinctKeys(tree) ==> DistinctKeys(Select(IsPayload, tree))
  {
    if tree != [] {
      SelectMeans(tree[1..]);
      HeadAndTail(tree);
      if DistinctKeys(tree) && IsPayload(tree[0]) {
        var rest := Select(IsPayload, tree[1..]);
        forall j | 0 <= j < |rest| ensures rest[j].key != tree[0].key {
          assert rest[j] in rest;
          var k :| 0 <= k < |tree[1..]| && tree[1..][k] == rest[j];
          assert tree[k + 1].key != tree[0].key;
        }
      }
    }
  }

  lemma WalkMeans(tree: Tree)
    ensures forall x :: x in Walk(tree) <==> x in tree && x.key != MARKER_FILENAME
    ensures DistinctKeys(tree) ==> DistinctKeys(Walk(tree))
    ensures Sorted(Walk(tree))
  {
    hide Select, Sort;
    SelectMeans(tree);
    SortContents(Select(IsPayload, tree));
    SortSorted(Select(IsPayload, tree));
    forall x ensures x in Walk(tree) <==> x in Select(IsPayload, tree) {
      assert x in Walk(tree) <==> x in multiset(Walk(tree));
    }
    if DistinctKeys(tree) {
      DistinctByContents(Select(IsPayload, tree), Walk(tree));
    }
  }

  lemma {:induction false} SelectAll(tree: Tree)
    requires forall x :: x in tree ==> x.key != MARKER_FILENAME
    ensures Select(IsPayload, tree) == tree
  {
    if tree != [] {
      assert tree[0] in tree;
      HeadAndTail(tree);
      SelectAll(tree[1..]);
    }
  }

  /** A staged copy of a walk, marker added, walks to the same files. */
  lemma WalkOfCopy(files: seq<File>, marker: Bytes)
    requires Sorted(files) && forall x :: x in files ==> x.key != MARKER_FILENAME
    ensures Walk(files + [Keyed(MARKER_FILENAME, marker)]) == files
  {
    SelectAppend(IsPayload, files, [Keyed(MARKER_FILENAME, marker)]);
    SelectAll(files);
    assert Select(IsPayload, [Keyed(MARKER_FILENAME, marker)]) == [];
    assert files + [] == files;
    SortFixesSorted(files);
  }

  lemma {:induction false} FileAtEnd(files: seq<File>, marker: Bytes)
    requires forall x :: x in files ==> x.key != MARKER_FILENAME
    ensures Find(files + [Keyed(MARKER_FILENAME, marker)], MARKER_FILENAME) == Some(marker)
  {
    var tree := files + [Keyed(MARKER_FILENAME, marker)];
    if files != [] {
      assert files[0] in files;
      HeadAndTail(files);
      FileAtEnd(files[1..], marker);
      assert tree[1..] == files[1..] + [Keyed(MARKER_FILENAME, marker)];
    }
  }

  /** The marker a rollback stages. */
  function RollbackMarker(env: Env, d: Disk, input: RollbackInput): Identity
    requires Release(input.target) in d.dirs
  {
    Identity(input.newArtifactId, WalkDigest(env, d.dirs[Release(input.target)]), input.newGenerationId)
  }

  /** A rollback under a new key, a new id and an absent stage directory. */
  ghost predicate StagesAfresh(env: Env, d: Disk, input: RollbackInput) {
    TreesDistinct(d)
    && Release(input.target) in d.dirs
    && FindKey(d.journal, input.idempotencyKey).None?
    && Release(input.newGenerationId) !in d.dirs
    && Scratch(env.tokenOf(input.operationId, input.attemptId, input.newGenerationId)) !in d.dirs
    && env.markerValid(RollbackMarker(env, d, input))
  }

  /** Such a rollback whose new id is not served and whose fence can be built. */
  ghost predicate FreshRollback(env: Env, d: Disk, input: RollbackInput) {
    StagesAfresh(env, d, input)
    && d.current != Some(input.newGenerationId)
    && (d.current.Some? ==> IsGenerationId(d.current.value))
  }

  /** What a fresh rollback has staged: the target's files in path order, then the new marker. */
  lemma RollbackStages(env: Env, d: Disk, input: RollbackInput)
    requires StagesAfresh(env, d, input)
    ensures var token := env.tokenOf(input.operationId, input.attemptId, input.newGenerationId);
            var plan := StagePlan(env, d, RollbackStage(env, d, input));
            var staged := Run(d, plan.fixed);
            plan.outcome == Ok(Staged(token, false))
            && Scratch(token) in staged.dirs
            && staged.dirs[Scratch(token)] ==
                 Walk(d.dirs[Release(input.target)]) + [Keyed(MARKER_FILENAME, MarkerBytes(RollbackMarker(env, d, input)))]
            && Release(input.newGenerationId) !in staged.dirs
            && staged.current == d.current && staged.history == d.history
  {
    hide Walk, WalkDigest, MarkerBytes, Run, TreesDistinct;
    var token := env.tokenOf(input.operationId, input.attemptId, input.newGenerationId);
    var files := Walk(d.dirs[Release(input.target)]);
    var stage := RollbackStage(env, d, input);
    var marker := Keyed(MARKER_FILENAME, MarkerBytes(RollbackMarker(env, d, input)));
    var writes := WriteFiles(token, files);
    var writeMarker, writeJournal := WriteFile(token, marker.key, marker.val), WriteJournal(EntryFor(stage));
    assert StagePlan(env, d, stage).fixed == writes + [writeMarker, writeJournal];
    WalkMeans(d.dirs[Release(input.target)]);
    TreeDistinctAt(d, Release(input.target));
    assert TreeAt(d, Scratch(token)) + files == files;
    WritesAppend(d, token, files);
    var written := Run(d, writes);
    assert TreeAt(written, Scratch(token)) == files;
    WriteOne(written, token, marker);
    RunAppend(d, writes, [writeMarker, writeJournal]);
    RunTwo(written, writeMarker, writeJournal);
  }

  lemma TreeDistinctAt(d: Disk, dir: Dir)
    requires TreesDistinct(d) && dir in d.dirs
    ensures DistinctKeys(d.dirs[dir])
  {
  }

  /**
   A fresh rollback that ran to its end serves, byte for byte, the target's files under the
   new id, with a marker carrying their recomputed digest, even when its own sweep removed
   the target.
   */
  lemma RollbackServesTarget(env: Env, w: World, input: RollbackInput, steps: seq<Step>)
    requires FreshRollback(env, w.disk, input)
    requires Performs(w.disk, RollbackPlan(env, w.disk, input), steps, true)
    ensures var target := w.disk.dirs[Release(input.target)];
            var next := Progress(w, steps).disk;
            RollbackPlan(env, w.disk, input).outcome == Ok(Activated(input.newGenerationId, w.disk.current, false))
            && next.current == Some(input.newGenerationId)
            && Release(input.newGenerationId) in next.dirs
            && Walk(next.dirs[Release(input.newGenerationId)]) == Walk(target)
            && MarkerOf(next.dirs[Release(input.newGenerationId)]) == Some(MarkerJson(RollbackMarker(env, w.disk, input)))
            && WalkDigest(env, next.dirs[Release(input.newGenerationId)]) == RollbackMarker(env, w.disk, input).artifactDigest
  {
    hide Walk, WalkDigest, MarkerBytes, StagePlan, Retain, MarkerJson, ReadMarker, Performs, FenceFor,
      FenceDisagrees, RequireGenerationFence;
    var d := w.disk;
    var id := input.newGenerationId;
    var token := env.tokenOf(input.operationId, input.attemptId, id);
    var files := Walk(d.dirs[Release(input.target)]);
    var marker := RollbackMarker(env, d, input);
    var copy := files + [Keyed(MARKER_FILENAME, MarkerBytes(marker))];
    RollbackStages(env, d, input);
    WalkMeans(d.dirs[Release(input.target)]);
    WalkOfCopy(files, MarkerBytes(marker));
    FileAtEnd(files, MarkerBytes(marker));
    MarkerReadsBack(marker);
    FenceForPins(d.current, d.current);
    var staging := StagePlan(env, d, RollbackStage(env, d, input));
    var staged := Run(d, staging.fixed);
    var activate := ActivateInput(token, id, Some(FenceFor(staged.current)), None);
    var fixed := [Commit(token, id), Swap(id), WriteHistory(Record(id, Some(marker.artifactDigest)))];
    assert ActivatePlan(env, staged, activate).fixed == fixed;
    RollbackEnds(env, w, input, steps, staged, copy);
    CopyDigest(env, d.dirs[Release(input.target)], copy);
  }

  lemma CopyDigest(env: Env, tree: Tree, copy: Tree)
    requires Walk(copy) == Walk(tree)
    ensures WalkDigest(env, copy) == WalkDigest(env, tree)
  {
  }

  /** The activation half: the copy becomes the release, is served, and survives the sweep. */
  lemma RollbackEnds(env: Env, w: World, input: RollbackInput, steps: seq<Step>, staged: Disk, copy: Tree)
    requires FreshRollback(env, w.disk, input)
    requires Performs(w.disk, RollbackPlan(env, w.disk, input), steps, true)
    requires var staging := StagePlan(env, w.disk, RollbackStage(env, w.disk, input));
             staging.outcome.Ok? && staged == Run(w.disk, staging.fixed)
    requires var token := env.tokenOf(input.operationId, input.attemptId, input.newGenerationId);
             Scratch(token) in staged.dirs && staged.dirs[Scratch(token)] == copy
             && Release(input.newGenerationId) !in staged.dirs
             && |ActivatePlan(env, staged, ActivateInput(token, input.newGenerationId, Some(FenceFor(staged.current)), None)).fixed| == 3
             && ActivatePlan(env, staged, ActivateInput(token, input.newGenerationId, Some(FenceFor(staged.current)), None)).fixed[..2]
                == [Commit(token, input.newGenerationId), Swap(input.newGenerationId)]
             && ActivatePlan(env, staged, ActivateInput(token, input.newGenerationId, Some(FenceFor(staged.current)), None)).fixed[2].WriteHistory?
    ensures var next := Progress(w, steps).disk;
            next.current == Some(input.newGenerationId)
            && Release(input.newGenerationId) in next.dirs
            && next.dirs[Release(input.newGenerationId)] == copy
  {
    hide StagePlan, ActivatePlan, Retain, TreesDistinct, FenceFor, RollbackStage, Run, Progress;
    var id := input.newGenerationId;
    var token := env.tokenOf(input.operationId, input.attemptId, id);
    var plan := RollbackPlan(env, w.disk, input);
    var staging := StagePlan(env, w.disk, RollbackStage(env, w.disk, input));
    var activation := ActivatePlan(env, staged, ActivateInput(token, id, Some(FenceFor(staged.current)), None));
    assert plan.fixed == staging.fixed + activation.fixed;
    var activate := ActivateInput(token, id, Some(FenceFor(staged.current)), None);
    ProgressRuns(w, staging.fixed);
    ActivateDoomsOnlyRetired(env, Progress(w, staging.fixed), activate);
    ProgressAppend(w, staging.fixed, activation.fixed);
    var removals := steps[|plan.fixed|..];
    assert steps == plan.fixed + removals;
    ProgressAppend(w, plan.fixed, removals);
    ProgressRuns(w, plan.fixed);
    RunAppend(w.disk, staging.fixed, activation.fixed);
    var f := activation.fixed;
    assert f[0] == f[..2][0] && f[1] == f[..2][1];
    assert f == [f[0], f[1], f[2]];
    RunThree(staged, f[0], f[1], f[2]);
    var served := Progress(w, plan.fixed);
    assert served.disk.current == Some(id) && served.disk.dirs[Release(id)] == copy;
    assert Release(id) !in plan.doomed;
    RemovalsSafe(served, plan.doomed, removals);
  }
}
