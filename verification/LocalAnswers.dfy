/**
 What each call of the local-directory store answers and leaves, in the caller's terms:
 the fence, the staged bytes, the journal and the directories it finds.
 */
module LocalAnswers {
  import opened Wrappers
  import opened Utf16
  import opened OrderedMap
  import opened Utf8
  import opened Digest
  import opened GenerationFence
  import opened Marker
  import opened LocalStore

  // ---- Activation ----

  /** Something else is current and the fence names it. */
  predicate PastFence(d: Disk, input: ActivateInput) {
    d.current != Some(input.generationId) && FenceNames(input.expectedCurrent, d.current)
  }

  /** The staged files digest to what the caller expects. */
  predicate DigestsAsExpected(env: Env, d: Disk, input: ActivateInput) {
    input.expectedDigest.Some? ==>
      Scratch(input.stageToken) in d.dirs && WalkDigest(env, d.dirs[Scratch(input.stageToken)]) == input.expectedDigest.value
  }

  /** What an activation needs to move the pointer. */
  predicate Moves(env: Env, d: Disk, input: ActivateInput) {
    && PastFence(d, input)
    && DigestsAsExpected(env, d, input)
    && (Release(input.generationId) in d.dirs || Scratch(input.stageToken) in d.dirs)
  }

  /** The answer of an activation that leaves the pointer alone. */
  predicate ActivateRefused(env: Env, d: Disk, input: ActivateInput, r: Outcome) {
    var id := input.generationId;
    && (!FenceAccepted(input.expectedCurrent) ==> r == Err(FenceInvalid))
    && (FenceAccepted(input.expectedCurrent) && d.current == Some(id) ==> r == Ok(Activated(id, d.current, true)))
    && (FenceAccepted(input.expectedCurrent) && d.current != Some(id) && !FenceNames(input.expectedCurrent, d.current) ==>
          r == Ok(Reconcile(id, d.current)))
    && (PastFence(d, input) ==>
          && (r == Err(StageIntegrityMismatch) <==>
                Scratch(input.stageToken) in d.dirs && input.expectedDigest.Some?
                && WalkDigest(env, d.dirs[Scratch(input.stageToken)]) != input.expectedDigest.value)
          && (r == Err(StageMissing) <==>
                Scratch(input.stageToken) !in d.dirs
                && (input.expectedDigest.Some? || Release(input.generationId) !in d.dirs)))
  }

  /** The release an activation serves: the one there already, or the renamed stage. */
  function TreeServed(d: Disk, input: ActivateInput): Tree {
    if Release(input.generationId) in d.dirs then d.dirs[Release(input.generationId)] else TreeAt(d, Scratch(input.stageToken))
  }

  /** An activation takes steps exactly when it may move the pointer; otherwise it only answers. */
  lemma ActivateAnswers(env: Env, d: Disk, input: ActivateInput)
    ensures var plan := ActivatePlan(env, d, input);
            && (Moves(env, d, input) <==> plan.fixed != [])
            && (!Moves(env, d, input) ==> plan.doomed == {} && ActivateRefused(env, d, input, plan.outcome))
            && (Moves(env, d, input) ==>
                  var id, tree := input.generationId, TreeServed(d, input);
                  var commit := if Release(id) in d.dirs then [] else [Commit(input.stageToken, id)];
                  match MarkerOf(tree) {
                    case None => plan.fixed == commit + [Swap(id)] && plan.doomed == {} && plan.outcome == Err(MarkerUnreadable)
                    case Some(marker) =>
                      plan.fixed == commit + [Swap(id), WriteHistory(Record(id, DigestOf(marker)))]
                      && plan.outcome == Ok(Activated(id, d.current, false))
                  })
  {
    hide WalkDigest, MarkerOf, DigestOf, FenceNames, FenceAccepted, FenceDisagrees, RequireGenerationFence, Retired, Run;
    FenceReads(input.expectedCurrent, d.current);
  }

  /** Only removals. */
  predicate Removals(steps: seq<Step>) {
    forall i :: 0 <= i < |steps| ==> steps[i].Unlink? || steps[i].RemoveDir?
  }

  lemma {:induction false} RemovalsLeave(d: Disk, steps: seq<Step>)
    requires Removals(steps)
    ensures var end := Run(d, steps);
            end.current == d.current && end.history == d.history && end.journal == d.journal
    decreases |steps|
  {
    hide Delete;
    if steps != [] {
      RemovalsLeave(Apply(d, steps[0]), steps[1..]);
    }
  }

  /** A call without fixed steps or removals changes nothing. */
  lemma NothingPerformed(d: Disk, plan: Plan, steps: seq<Step>, done: bool)
    requires Performs(d, plan, steps, done) && plan.fixed == [] && plan.doomed == {}
    ensures steps == [] && Run(d, steps) == d
  {
    if steps != [] {
      NoneDoomed(steps[0]);
    }
  }

  lemma NoneDoomed(step: Step)
    ensures !IsRemoval(step, {})
  {
  }

  /** What an activation that may move the pointer has left when it ran to its end. */
  lemma ActivateLeaves(env: Env, d: Disk, input: ActivateInput, steps: seq<Step>)
    requires Moves(env, d, input) && Performs(d, ActivatePlan(env, d, input), steps, true)
    ensures var end := Run(d, steps);
            && end.current == Some(input.generationId)
            && end.journal == d.journal
            && (MarkerOf(TreeServed(d, input)).Some? ==>
                  end.history == Retain(d.history, Record(input.generationId, DigestOf(MarkerOf(TreeServed(d, input)).value))))
            && (MarkerOf(TreeServed(d, input)).None? ==> end.history == d.history)
  {
    hide Moves, ActivatePlan, ActivateRefused, MarkerOf, DigestOf, Retain, TreeServed, Run;
    var plan, id := ActivatePlan(env, d, input), input.generationId;
    ActivateAnswers(env, d, input);
    var removals := steps[|plan.fixed|..];
    assert steps == plan.fixed + removals;
    RunAppend(d, plan.fixed, removals);
    RemovalsLeave(Run(d, plan.fixed), removals);
    var commit := if Release(id) in d.dirs then [] else [Commit(input.stageToken, id)];
    CommitLeaves(d, commit, input);
    var ready := Run(d, commit);
    match MarkerOf(TreeServed(d, input)) {
      case None => RunSnoc(d, commit, Swap(id));
      case Some(marker) =>
        var record := WriteHistory(Record(id, DigestOf(marker)));
        RunAppend(d, commit, [Swap(id), record]);
        RunTwo(ready, Swap(id), record);
    }
  }

  lemma CommitLeaves(d: Disk, commit: seq<Step>, input: ActivateInput)
    requires commit == [] || commit == [Commit(input.stageToken, input.generationId)]
    ensures var end := Run(d, commit);
            end.current == d.current && end.history == d.history && end.journal == d.journal
  {
    if commit != [] {
      assert commit[1..] == [];
    }
  }

  // ---- Staging ----

  /** The entry a key finds is the first one under it. */
  lemma {:induction false} FindKeyMeans(journal: seq<JournalEntry>, key: Text)
    ensures FindKey(journal, key).None? <==> forall i :: 0 <= i < |journal| ==> journal[i].idempotencyKey != key
    ensures FindKey(journal, key).Some? ==>
              exists i :: 0 <= i < |journal| && journal[i] == FindKey(journal, key).value && journal[i].idempotencyKey == key
                          && forall j :: 0 <= j < i ==> journal[j].idempotencyKey != key
  {
    if journal != [] {
      HeadAndTail(journal);
      var rest := journal[1..];
      FindKeyMeans(rest, key);
      if journal[0].idempotencyKey == key {
        assert journal[0] == FindKey(journal, key).value;
      } else if FindKey(rest, key).Some? {
        var i :| 0 <= i < |rest| && rest[i] == FindKey(rest, key).value && rest[i].idempotencyKey == key
                 && forall j :: 0 <= j < i ==> rest[j].idempotencyKey != key;
        assert journal[i + 1] == rest[i];
        forall j | 0 <= j < i + 1 ensures journal[j].idempotencyKey != key {
          assert j > 0 ==> journal[j] == rest[j - 1];
        }
      } else {
        forall i | 0 <= i < |journal| ensures journal[i].idempotencyKey != key {
          assert i > 0 ==> journal[i] == rest[i - 1];
        }
      }
    }
  }

  /** The bytes the last file of a path holds; what was there when there is none. */
  function LastBytes(files: seq<File>, path: Text, before: Option<Bytes>): Option<Bytes> {
    if files == [] then before
    else
      var last := files[|files| - 1];
      if last.key == path then Some(last.val) else LastBytes(files[..|files| - 1], path, before)
  }

  /** Writing files one after another: each path holds its last file's bytes, and nothing else changes. */
  lemma {:induction false} WritesLeave(d: Disk, token: Token, files: seq<File>)
    ensures var end := Run(d, WriteFiles(token, files));
            && end.current == d.current && end.history == d.history && end.journal == d.journal
            && (forall dir :: dir != Scratch(token) ==> (dir in end.dirs <==> dir in d.dirs) && TreeAt(end, dir) == TreeAt(d, dir))
            && (forall path :: Find(TreeAt(end, Scratch(token)), path) == LastBytes(files, path, Find(TreeAt(d, Scratch(token)), path)))
  {
    hide Apply, Find, TreeAt;
    if files != [] {
      var n := |files| - 1;
      var front, last := files[..n], files[n];
      WritesLeave(d, token, front);
      assert files == front + [last];
      WritesSnoc(token, front, last);
      RunSnoc(d, WriteFiles(token, front), WriteFile(token, last.key, last.val));
      WriteLeaves(Run(d, WriteFiles(token, front)), token, last);
    }
  }

  lemma {:induction false} WritesSnoc(token: Token, files: seq<File>, last: File)
    ensures WriteFiles(token, files + [last]) == WriteFiles(token, files) + [WriteFile(token, last.key, last.val)]
  {
    if files == [] {
      assert [last][1..] == [] && files + [last] == [last];
    } else {
      WritesSnoc(token, files[1..], last);
      assert (files + [last])[1..] == files[1..] + [last];
    }
  }

  lemma WriteLeaves(d: Disk, token: Token, file: File)
    ensures var end := Apply(d, WriteFile(token, file.key, file.val));
            && end.current == d.current && end.history == d.history && end.journal == d.journal
            && (forall dir :: dir != Scratch(token) ==> (dir in end.dirs <==> dir in d.dirs) && TreeAt(end, dir) == TreeAt(d, dir))
            && (forall path :: Find(TreeAt(end, Scratch(token)), path) ==
                                 if path == file.key then Some(file.val) else Find(TreeAt(d, Scratch(token)), path))
  {
    hide Find, Set;
    SetKeys(TreeAt(d, Scratch(token)), file.key, file.val);
  }

  /** The answer of staging, from the first journal entry under its key and the marker. */
  lemma StageDecides(env: Env, d: Disk, input: StageInput)
    ensures var plan, prior := StagePlan(env, d, input), FindKey(d.journal, input.idempotencyKey);
            var token := env.tokenOf(input.operationId, input.attemptId, input.generationId);
            && plan.doomed == {}
            && (prior.Some? ==>
                  plan.fixed == []
                  && plan.outcome == if prior.value.artifactDigest == input.artifactDigest then Ok(Staged(token, true))
                                     else Err(IdempotencyKeyReuseConflict))
            && (prior.None? ==>
                  plan.outcome == if env.markerValid(Identity(input.artifactId, input.artifactDigest, input.generationId))
                                  then Ok(Staged(token, false)) else Err(MarkerInvalid))
  {
  }

  /**
   Every staged path holds its last file's bytes, the marker path the marker's, the journal
   one entry more, and nothing else has changed.
   */
  ghost predicate StageLeft(env: Env, d: Disk, input: StageInput, end: Disk) {
    var scratch := Scratch(env.tokenOf(input.operationId, input.attemptId, input.generationId));
    && end.current == d.current && end.history == d.history
    && end.journal == d.journal + [JournalEntry(input.operationId, input.attemptId, input.idempotencyKey,
                                                input.artifactDigest, input.generationId)]
    && (forall dir :: dir != scratch ==> (dir in end.dirs <==> dir in d.dirs) && TreeAt(end, dir) == TreeAt(d, dir))
    && (forall path :: Find(TreeAt(end, scratch), path) ==
                         if path == MARKER_FILENAME then
                           Some(MarkerBytes(Identity(input.artifactId, input.artifactDigest, input.generationId)))
                         else LastBytes(input.files, path, Find(TreeAt(d, scratch), path)))
  }

  /** What a completed fresh staging leaves. */
  lemma StageLeaves(env: Env, d: Disk, input: StageInput)
    requires FindKey(d.journal, input.idempotencyKey).None?
    requires env.markerValid(Identity(input.artifactId, input.artifactDigest, input.generationId))
    ensures StageLeft(env, d, input, Run(d, StagePlan(env, d, input).fixed))
  {
    hide Run, Find, TreeAt, MarkerBytes, LastBytes, MARKER_FILENAME;
    var token := env.tokenOf(input.operationId, input.attemptId, input.generationId);
    var marker := Keyed(MARKER_FILENAME, MarkerBytes(Identity(input.artifactId, input.artifactDigest, input.generationId)));
    var writes := WriteFiles(token, input.files);
    var writeMarker, writeJournal := WriteFile(token, marker.key, marker.val), WriteJournal(EntryFor(input));
    assert StagePlan(env, d, input).fixed == writes + [writeMarker, writeJournal];
    WritesLeave(d, token, input.files);
    var written := Run(d, writes);
    WriteLeaves(written, token, marker);
    RunAppend(d, writes, [writeMarker, writeJournal]);
    RunTwo(written, writeMarker, writeJournal);
    JournalLeaves(Apply(written, writeMarker), EntryFor(input));
  }

  lemma JournalLeaves(d: Disk, entry: JournalEntry)
    ensures var end := Apply(d, WriteJournal(entry));
            end.dirs == d.dirs && end.current == d.current && end.history == d.history && end.journal == d.journal + [entry]
            && forall dir :: TreeAt(end, dir) == TreeAt(d, dir)
  {
  }

  // ---- Cleanup ----

  /** The release a cleanup may take: named, neither current nor retained. */
  predicate Abandoned(d: Disk, generationId: Option<Id>) {
    generationId.Some? && d.current != generationId && generationId.value !in Ids(d.history)
  }

  predicate GoesInCleanup(d: Disk, token: Token, generationId: Option<Id>, dir: Dir) {
    dir == Scratch(token) || (Abandoned(d, generationId) && dir == Release(generationId.value))
  }

  lemma CleanupDoomsExactly(d: Disk, token: Token, generationId: Option<Id>)
    ensures var plan := CleanupPlan(d, token, generationId);
            && plan.fixed == []
            && (forall dir :: dir in plan.doomed <==> dir in d.dirs && GoesInCleanup(d, token, generationId, dir))
            && plan.outcome == Ok(Cleaned(exists dir :: dir in d.dirs && GoesInCleanup(d, token, generationId, dir)))
  {
    hide Ids;
    var plan := CleanupPlan(d, token, generationId);
    if plan.doomed != {} {
      var dir :| dir in plan.doomed;
      assert GoesInCleanup(d, token, generationId, dir);
    }
  }

  lemma {:induction false} OthersStay(d: Disk, doomed: set<Dir>, steps: seq<Step>)
    requires forall i :: 0 <= i < |steps| ==> IsRemoval(steps[i], doomed)
    ensures var end := Run(d, steps);
            && end.current == d.current && end.history == d.history && end.journal == d.journal
            && (forall dir :: dir in end.dirs ==> dir in d.dirs)
            && (forall dir :: dir in d.dirs && dir !in doomed ==> dir in end.dirs && end.dirs[dir] == d.dirs[dir])
    decreases |steps|
  {
    hide Delete;
    if steps != [] {
      assert IsRemoval(steps[0], doomed);
      OthersStay(Apply(d, steps[0]), doomed, steps[1..]);
    }
  }

  /** Every directory is left but the stage's and an abandoned release, each as it was. */
  ghost predicate CleanupLeft(d: Disk, token: Token, generationId: Option<Id>, end: Disk) {
    && end.current == d.current && end.history == d.history && end.journal == d.journal
    && (forall dir :: dir in end.dirs <==> dir in d.dirs && !GoesInCleanup(d, token, generationId, dir))
    && (forall dir :: dir in end.dirs ==> end.dirs[dir] == d.dirs[dir])
  }

  /** What a completed cleanup leaves. */
  lemma CleanupLeaves(d: Disk, token: Token, generationId: Option<Id>, steps: seq<Step>)
    requires Performs(d, CleanupPlan(d, token, generationId), steps, true)
    ensures CleanupLeft(d, token, generationId, Run(d, steps))
  {
    hide CleanupPlan, GoesInCleanup, Run;
    CleanupDoomsExactly(d, token, generationId);
    OthersStay(d, CleanupPlan(d, token, generationId).doomed, steps);
  }

  // ---- Rollback ----

  /** How a rollback answers when it never reaches its activation. */
  lemma RollbackRefuses(env: Env, d: Disk, input: RollbackInput)
    ensures var plan := RollbackPlan(env, d, input);
            && (Release(input.target) !in d.dirs ==>
                  plan.fixed == [] && plan.doomed == {} && plan.outcome == Err(RollbackGenerationNotRetained))
            && (Release(input.target) in d.dirs ==>
                  var tree, prior := d.dirs[Release(input.target)], FindKey(d.journal, input.idempotencyKey);
                  var marker := Identity(input.newArtifactId, WalkDigest(env, tree), input.newGenerationId);
                  && (prior.Some? && prior.value.artifactDigest != WalkDigest(env, tree) ==>
                        plan.fixed == [] && plan.doomed == {} && plan.outcome == Err(IdempotencyKeyReuseConflict))
                  && (prior.None? && !env.markerValid(marker) ==> plan.doomed == {} && plan.outcome == Err(MarkerInvalid)))
  {
    hide WalkDigest, Walk, ActivatePlan, FenceFor, Run;
  }

  lemma StageKeepsCurrent(env: Env, d: Disk, input: StageInput)
    ensures var end := Run(d, StagePlan(env, d, input).fixed);
            end.current == d.current && (Release(input.generationId) in end.dirs <==> Release(input.generationId) in d.dirs)
  {
    hide Run, WriteFiles, MarkerBytes, TreeAt, Find;
    var token := env.tokenOf(input.operationId, input.attemptId, input.generationId);
    if FindKey(d.journal, input.idempotencyKey).Some? {
      NothingPerformed(d, StagePlan(env, d, input), [], true);
    } else {
      WritesLeave(d, token, input.files);
      if env.markerValid(Identity(input.artifactId, input.artifactDigest, input.generationId)) {
        StageLeaves(env, d, input);
      }
    }
  }

  /** A rollback that stages goes on to activate the copy under the fence of what it finds current. */
  lemma RollbackActivates(env: Env, d: Disk, input: RollbackInput)
    requires Release(input.target) in d.dirs && StagePlan(env, d, RollbackStage(env, d, input)).outcome.Ok?
    ensures var plan, id := RollbackPlan(env, d, input), input.newGenerationId;
            var staged := Run(d, StagePlan(env, d, RollbackStage(env, d, input)).fixed);
            var scratch := Scratch(env.tokenOf(input.operationId, input.attemptId, id));
            && (d.current.Some? && !IsGenerationId(d.current.value) && d.current.value != EXPECT_NOTHING_SERVED ==>
                  plan.outcome == Err(FenceInvalid))
            && ((d.current.Some? ==> IsGenerationId(d.current.value)) ==>
                  if d.current == Some(id) then plan.outcome == Ok(Activated(id, d.current, true))
                  else if Release(id) in d.dirs || scratch in staged.dirs then
                    Swap(id) in plan.fixed && plan.outcome in {Ok(Activated(id, d.current, false)), Err(MarkerUnreadable)}
                  else plan.outcome == Err(StageMissing))
  {
    hide WalkDigest, Walk, StagePlan, ActivatePlan, IsGenerationId, FenceFor, MarkerOf;
    var stage := RollbackStage(env, d, input);
    StageKeepsCurrent(env, d, stage);
    var staged := Run(d, StagePlan(env, d, stage).fixed);
    var token := env.tokenOf(input.operationId, input.attemptId, input.newGenerationId);
    UnderItsFence(env, staged, ActivateInput(token, input.newGenerationId, Some(FenceFor(staged.current)), None));
  }

  /** An activation under the fence of what is current. */
  lemma UnderItsFence(env: Env, d: Disk, input: ActivateInput)
    requires input.expectedCurrent == Some(FenceFor(d.current)) && input.expectedDigest.None?
    ensures var plan, id := ActivatePlan(env, d, input), input.generationId;
            && (d.current.Some? && !IsGenerationId(d.current.value) && d.current.value != EXPECT_NOTHING_SERVED ==>
                  plan.outcome == Err(FenceInvalid))
            && ((d.current.Some? ==> IsGenerationId(d.current.value)) ==>
                  if d.current == Some(id) then plan.outcome == Ok(Activated(id, d.current, true))
                  else if Release(id) in d.dirs || Scratch(input.stageToken) in d.dirs then
                    Swap(id) in plan.fixed && plan.outcome in {Ok(Activated(id, d.current, false)), Err(MarkerUnreadable)}
                  else plan.outcome == Err(StageMissing))
  {
    hide ActivatePlan, IsGenerationId, MarkerOf;
    ActivateAnswers(env, d, input);
    var plan, id := ActivatePlan(env, d, input), input.generationId;
    if Moves(env, d, input) {
      var commit := if Release(id) in d.dirs then [] else [Commit(input.stageToken, id)];
      assert plan.fixed[|commit|] == Swap(id);
    }
  }

  // ---- The fence over a call ----

  /** The pointer after a call is the pointer before it, or the call's own generation under a fence that named the pointer before it. */
  ghost predicate MovedAsFenced(env: Env, d: Disk, call: Call, end: Disk) {
    end.current == d.current
    || match call {
         case CallActivate(input) => end.current == Some(input.generationId) && Moves(env, d, input)
         case CallRollback(input) =>
           end.current == Some(input.newGenerationId) && Release(input.target) in d.dirs
           && (d.current.Some? ==> IsGenerationId(d.current.value))
         case _ => false
       }
  }

  /** Only a swap moves the pointer. */
  lemma {:induction false} SwapMoves(d: Disk, steps: seq<Step>)
    ensures Run(d, steps).current != d.current ==>
              exists i :: 0 <= i < |steps| && steps[i].Swap? && Run(d, steps).current == Some(steps[i].id)
    decreases |steps|
  {
    hide Set, Delete, Retain, TreeAt;
    if steps != [] {
      var next := Apply(d, steps[0]);
      SwapMoves(next, steps[1..]);
      if Run(d, steps).current != next.current {
        var i :| 0 <= i < |steps[1..]| && steps[1..][i].Swap? && Run(d, steps).current == Some(steps[1..][i].id);
        assert steps[i + 1] == steps[1..][i];
      }
    }
  }

  lemma {:induction false} WritesSwapNothing(token: Token, files: seq<File>)
    ensures forall i :: 0 <= i < |WriteFiles(token, files)| ==> WriteFiles(token, files)[i].WriteFile?
  {
    if files != [] {
      WritesSwapNothing(token, files[1..]);
    }
  }

  lemma StageSwapsNothing(env: Env, d: Disk, input: StageInput)
    ensures forall i :: 0 <= i < |StagePlan(env, d, input).fixed| ==> !StagePlan(env, d, input).fixed[i].Swap?
  {
    hide MarkerBytes;
    WritesSwapNothing(env.tokenOf(input.operationId, input.attemptId, input.generationId), input.files);
  }

  /** A swap among an activation's steps is to its own generation, and then it may move the pointer. */
  lemma ActivateSwaps(env: Env, d: Disk, input: ActivateInput, i: nat)
    requires i < |ActivatePlan(env, d, input).fixed| && ActivatePlan(env, d, input).fixed[i].Swap?
    ensures Moves(env, d, input) && ActivatePlan(env, d, input).fixed[i].id == input.generationId
  {
    hide ActivatePlan, MarkerOf, DigestOf, Moves;
    ActivateAnswers(env, d, input);
  }

  lemma PerformedSwap(d: Disk, plan: Plan, steps: seq<Step>, done: bool, i: nat)
    requires Performs(d, plan, steps, done) && i < |steps| && steps[i].Swap?
    ensures i < |plan.fixed| && plan.fixed[i] == steps[i]
  {
    hide Run;
  }

  /** Whatever part of a call happened, the pointer only moved as its fence allows. */
  lemma CallMovesAsFenced(env: Env, d: Disk, call: Call, steps: seq<Step>, done: bool)
    requires Performs(d, PlanOf(env, d, call), steps, done)
    ensures MovedAsFenced(env, d, call, Run(d, steps))
  {
    hide Run, Performs, Moves, StagePlan, ActivatePlan, RollbackPlan, IsGenerationId;
    SwapMoves(d, steps);
    if Run(d, steps).current != d.current {
      var i: nat :| i < |steps| && steps[i].Swap? && Run(d, steps).current == Some(steps[i].id);
      PerformedSwap(d, PlanOf(env, d, call), steps, done, i);
      match call {
        case CallStage(input) => StageSwapsNothing(env, d, input);
        case CallActivate(input) => ActivateSwaps(env, d, input, i);
        case CallCleanup(token, generationId) => CleanupDoomsExactly(d, token, generationId);
        case CallRollback(input) => RollbackSwaps(env, d, input, i);
      }
    }
  }

  lemma RollbackSwaps(env: Env, d: Disk, input: RollbackInput, i: nat)
    requires i < |RollbackPlan(env, d, input).fixed| && RollbackPlan(env, d, input).fixed[i].Swap?
    ensures RollbackPlan(env, d, input).fixed[i].id == input.newGenerationId
    ensures Release(input.target) in d.dirs && (d.current.Some? ==> IsGenerationId(d.current.value))
  {
    hide StagePlan, ActivatePlan, WalkDigest, Walk, IsGenerationId, Run;
    var stage := RollbackStage(env, d, input);
    var staging := StagePlan(env, d, stage);
    StageSwapsNothing(env, d, stage);
    StageKeepsCurrent(env, d, stage);
    var staged := Run(d, staging.fixed);
    var token := env.tokenOf(input.operationId, input.attemptId, input.newGenerationId);
    var activate := ActivateInput(token, input.newGenerationId, Some(FenceFor(staged.current)), None);
    var n := |staging.fixed|;
    assert RollbackPlan(env, d, input).fixed == staging.fixed + ActivatePlan(env, staged, activate).fixed;
    assert i >= n && ActivatePlan(env, staged, activate).fixed[i - n] == RollbackPlan(env, d, input).fixed[i];
    ActivateSwaps(env, staged, activate, i - n);
  }
}
