/**
 The local-directory adapter itself: an object over one publication root whose methods
 change the directory tree, the pointer, the history and the journal step by step. The
 process may die before any filesystem step: `fuse` is how many it still gets to take.
 Each method is proved to do what its plan in `LocalStore` says.
 */
module LocalDirectory {
  import opened Wrappers
  import opened Utf16
  import opened OrderedMap
  import opened Utf8
  import opened Digest
  import opened GenerationFence
  import opened Marker
  import opened LocalStore
  import opened LocalAnswers

  class LocalDirectory {
    const env: Env
    var dirs: map<Dir, Tree>
    var current: Option<Id>
    var history: seq<Record>
    var journal: seq<JournalEntry>
    var fuse: nat

    /** The disk the running call started from and the steps it has taken. */
    ghost var start: Disk
    ghost var trail: seq<Step>

    ghost function Now(): Disk
      reads this
    {
      Disk(dirs, current, history, journal)
    }

    ghost predicate Tracked()
      reads this
    {
      Now() == Run(start, trail)
    }

    /** One filesystem step happened, or the process died before it. */
    twostate predicate Took(step: Step, alive: bool)
      reads this
    {
      start == old(start)
      && (alive ==> Now() == Apply(old(Now()), step) && trail == old(trail) + [step])
      && (!alive ==> Now() == old(Now()) && trail == old(trail))
    }

    constructor (env: Env, fuse: nat)
      ensures this.env == env && Now() == EMPTY_DISK && this.fuse == fuse
    {
      this.env := env;
      this.fuse := fuse;
      dirs, current, history, journal := map[], None, [], [];
      start, trail := EMPTY_DISK, [];
    }

    ghost method Begin()
      modifies this`start, this`trail
      ensures start == Now() && trail == [] && Tracked()
    {
      start, trail := Now(), [];
    }

    ghost method Log(step: Step)
      requires Now() == Apply(Run(start, trail), step)
      modifies this`trail
      ensures trail == old(trail) + [step] && Tracked()
    {
      RunSnoc(start, trail, step);
      trail := trail + [step];
    }

    // ---- Filesystem steps ----

    method Survives() returns (alive: bool)
      modifies this`fuse
    {
      alive := fuse > 0;
      if alive {
        fuse := fuse - 1;
      }
    }

    method WriteStagedFile(token: Token, path: Text, bytes: Bytes) returns (alive: bool)
      requires Tracked()
      modifies this
      ensures Tracked() && Took(WriteFile(token, path, bytes), alive)
    {
      alive := Survives();
      if alive {
        var tree := if Scratch(token) in dirs then dirs[Scratch(token)] else [];
        dirs := dirs[Scratch(token) := Set(tree, path, bytes)];
        Log(WriteFile(token, path, bytes));
      }
    }

    method AppendJournal(entry: JournalEntry) returns (alive: bool)
      requires Tracked()
      modifies this
      ensures Tracked() && Took(WriteJournal(entry), alive)
    {
      alive := Survives();
      if alive {
        journal := journal + [entry];
        Log(WriteJournal(entry));
      }
    }

    /** `fs.rename(stageDir, releaseDir)`. */
    method RenameIntoRelease(token: Token, id: Id) returns (alive: bool)
      requires Tracked() && Scratch(token) in dirs && Release(id) !in dirs
      modifies this
      ensures Tracked() && Took(Commit(token, id), alive)
    {
      alive := Survives();
      if alive {
        dirs := dirs[Release(id) := dirs[Scratch(token)]] - {Scratch(token)};
        Log(Commit(token, id));
      }
    }

    method AtomicSymlinkSwap(id: Id) returns (alive: bool)
      requires Tracked()
      modifies this
      ensures Tracked() && Took(Swap(id), alive)
    {
      alive := Survives();
      if alive {
        current := Some(id);
        Log(Swap(id));
      }
    }

    method RetainAndPersist(record: Record) returns (alive: bool)
      requires Tracked()
      modifies this
      ensures Tracked() && Took(WriteHistory(record), alive)
    {
      alive := Survives();
      if alive {
        history := Retain(history, record);
        Log(WriteHistory(record));
      }
    }

    method UnlinkFile(dir: Dir, path: Text) returns (alive: bool)
      requires Tracked() && dir in dirs
      modifies this
      ensures Tracked() && Took(Unlink(dir, path), alive)
    {
      alive := Survives();
      if alive {
        dirs := dirs[dir := Delete(dirs[dir], path)];
        Log(Unlink(dir, path));
      }
    }

    method RemoveEmptyDir(dir: Dir) returns (alive: bool)
      requires Tracked() && dir in dirs && dirs[dir] == []
      modifies this
      ensures Tracked() && Took(RemoveDir(dir), alive)
    {
      alive := Survives();
      if alive {
        dirs := dirs - {dir};
        Log(RemoveDir(dir));
      }
    }

    /** Only removals below `doomed` happened since `before`, with `taken` the steps so far. */
    twostate predicate OnlyRemoved(doomed: set<Dir>)
      reads this
    {
      start == old(start) && |old(trail)| <= |trail| && trail[..|old(trail)|] == old(trail)
      && (forall i :: |old(trail)| <= i < |trail| ==> IsRemoval(trail[i], doomed))
      && current == old(current) && history == old(history) && journal == old(journal)
      && (forall dir :: dir in dirs ==> dir in old(dirs))
      && (forall dir :: dir in old(dirs) && dir !in doomed ==> dir in dirs && dirs[dir] == old(dirs[dir]))
    }

    /** `removeContainedTree`: unlink every file in whatever order, then the directory. */
    method RemoveTree(dir: Dir) returns (alive: bool)
      requires Tracked() && dir in dirs
      modifies this
      ensures Tracked() && OnlyRemoved({dir})
      ensures alive ==> dir !in dirs
    {
      label begin:
      while dirs[dir] != []
        invariant dir in dirs && Tracked() && OnlyRemoved@begin({dir})
        decreases |dirs[dir]|
      {
        var i: nat :| i < |dirs[dir]|;
        var path := dirs[dir][i].key;
        RemovesOne(dirs[dir], i);
        alive := UnlinkFile(dir, path);
        if !alive {
          return;
        }
      }
      alive := RemoveEmptyDir(dir);
    }

    /** `sweepRetiredGenerations`: remove every release the history no longer holds, in listing order. */
    method Sweep() returns (alive: bool)
      requires Tracked()
      modifies this
      ensures Tracked() && OnlyRemoved(Retired(old(Now())))
      ensures alive ==> forall dir :: dir in Retired(old(Now())) ==> dir !in dirs
    {
      hide Apply, Run, Delete;
      label begin:
      ghost var doomed := Retired(Now());
      var retainedIds := Ids(history);
      var onDisk := set dir | dir in dirs && dir.Release?;
      assert doomed <= onDisk;
      while onDisk != {}
        invariant Tracked() && OnlyRemoved@begin(doomed)
        invariant onDisk <= dirs.Keys
        invariant forall dir :: dir in onDisk ==> dir.Release? && (dir in doomed <==> dir.id !in retainedIds)
        invariant forall dir :: dir in doomed && dir !in onDisk ==> dir !in dirs
        decreases |onDisk|
      {
        var dir :| dir in onDisk;
        onDisk := onDisk - {dir};
        if dir.id !in retainedIds {
          alive := RemoveTree(dir);
          if !alive {
            return;
          }
        }
      }
      alive := true;
    }

    // ---- The lifecycle ----

    /** The loop over the input files; every file starts as a fresh or truncated file. */
    method WriteStagedFiles(token: Token, files: seq<File>) returns (alive: bool)
      requires Tracked()
      modifies this
      ensures Tracked() && start == old(start)
      ensures old(trail) <= trail <= old(trail) + WriteFiles(token, files)
      ensures alive ==> trail == old(trail) + WriteFiles(token, files)
    {
      hide Apply, Run, Set;
      ghost var writes := WriteFiles(token, files);
      assert files[0..] == files;
      var i := 0;
      while i < |files|
        invariant 0 <= i <= |files|
        invariant Tracked() && start == old(start) && old(trail) <= trail
        invariant old(trail) + writes == trail + WriteFiles(token, files[i..])
      {
        assert files[i..][1..] == files[i + 1..];
        alive := WriteStagedFile(token, files[i].key, files[i].val);
        if !alive {
          return;
        }
        i := i + 1;
      }
      assert files[i..] == [];
      alive := true;
    }

    method Stage(input: StageInput) returns (alive: bool, r: Outcome)
      modifies this
      ensures start == old(Now()) && Tracked()
      ensures Performs(old(Now()), StagePlan(env, old(Now()), input), trail, alive)
      ensures alive ==> r == StagePlan(env, old(Now()), input).outcome
      ensures var prior := FindKey(old(journal), input.idempotencyKey);
              prior.Some? ==>
                alive && Now() == old(Now())
                && r == if prior.value.artifactDigest == input.artifactDigest
                        then Ok(Staged(env.tokenOf(input.operationId, input.attemptId, input.generationId), true))
                        else Err(IdempotencyKeyReuseConflict)
      ensures alive && r == Ok(Staged(env.tokenOf(input.operationId, input.attemptId, input.generationId), false)) ==>
                StageLeft(env, old(Now()), input, Now())
    {
      hide Apply, Run, Set, MarkerBytes, EntryFor, FindKey, IsRemoval, StageLeft;
      Begin();
      r := Err(IdempotencyKeyReuseConflict);
      ghost var plan := StagePlan(env, Now(), input);
      var token := env.tokenOf(input.operationId, input.attemptId, input.generationId);
      var priorSameKey := FindKey(journal, input.idempotencyKey);
      if priorSameKey.Some? {
        if priorSameKey.value.artifactDigest != input.artifactDigest {
          return true, Err(IdempotencyKeyReuseConflict);
        }
        return true, Ok(Staged(token, true));
      }
      ghost var writes := WriteFiles(token, input.files);
      alive := WriteStagedFiles(token, input.files);
      if !alive {
        assert trail <= writes <= plan.fixed;
        return;
      }
      assert trail == writes;
      var marker := Identity(input.artifactId, input.artifactDigest, input.generationId);
      if !env.markerValid(marker) {
        return true, Err(MarkerInvalid);
      }
      alive := WriteStagedFile(token, MARKER_FILENAME, MarkerBytes(marker));
      if !alive {
        return;
      }
      alive := AppendJournal(EntryFor(input));
      assert plan.fixed == writes + [WriteFile(token, MARKER_FILENAME, MarkerBytes(marker)), WriteJournal(EntryFor(input))];
      r := Ok(Staged(token, false));
      if alive {
        assert trail == plan.fixed;
        StageLeaves(env, start, input);
      }
    }

    method Activate(input: ActivateInput) returns (alive: bool, r: Outcome)
      modifies this
      ensures start == old(Now()) && Tracked()
      ensures Performs(old(Now()), ActivatePlan(env, old(Now()), input), trail, alive)
      ensures alive ==> r == ActivatePlan(env, old(Now()), input).outcome
      ensures !Moves(env, old(Now()), input) ==> alive && Now() == old(Now()) && ActivateRefused(env, old(Now()), input, r)
      ensures current != old(current) ==> current == Some(input.generationId) && Moves(env, old(Now()), input)
      ensures Moves(env, old(Now()), input) && alive ==>
                current == Some(input.generationId) && r in {Ok(Activated(input.generationId, old(current), false)), Err(MarkerUnreadable)}
    {
      hide WalkDigest, MarkerOf, RequireGenerationFence, FenceDisagrees, Retain, Retired, Moves, ActivateRefused;
      Begin();
      ActivateAnswers(env, Now(), input);
      var fence := RequireGenerationFence(input.expectedCurrent);
      if fence.None? {
        return true, Err(FenceInvalid);
      }
      var observed := current;
      if observed == Some(input.generationId) {
        return true, Ok(Activated(input.generationId, observed, true));
      }
      if FenceDisagrees(fence.value, observed) {
        return true, Ok(Reconcile(input.generationId, observed));
      }
      var stageDir, releaseDir := Scratch(input.stageToken), Release(input.generationId);
      if input.expectedDigest.Some? {
        if stageDir !in dirs {
          return true, Err(StageMissing);
        }
        if WalkDigest(env, dirs[stageDir]) != input.expectedDigest.value {
          return true, Err(StageIntegrityMismatch);
        }
      }
      r := Err(StageMissing);
      ghost var plan := ActivatePlan(env, Now(), input);
      ghost var commit := if releaseDir in dirs then [] else [Commit(input.stageToken, input.generationId)];
      if releaseDir !in dirs {
        if stageDir !in dirs {
          return true, r;
        }
        alive := RenameIntoRelease(input.stageToken, input.generationId);
        if !alive {
          assert trail <= plan.fixed;
          return;
        }
      }
      assert trail == commit <= plan.fixed;
      alive := AtomicSymlinkSwap(input.generationId);
      if !alive {
        return;
      }
      assert trail == commit + [Swap(input.generationId)] <= plan.fixed;
      var marker := MarkerOf(dirs[releaseDir]);
      if marker.None? {
        assert trail == plan.fixed;
        return true, Err(MarkerUnreadable);
      }
      var record := Record(input.generationId, DigestOf(marker.value));
      assert plan.fixed == commit + [Swap(input.generationId), WriteHistory(record)];
      alive := RetainAndPersist(record);
      if !alive {
        return;
      }
      assert trail == plan.fixed;
      alive := Sweep();
      r := Ok(Activated(input.generationId, observed, false));
    }

    method CleanupStaged(token: Token, generationId: Option<Id>) returns (alive: bool, r: Outcome)
      modifies this
      ensures start == old(Now()) && Tracked()
      ensures Performs(old(Now()), CleanupPlan(old(Now()), token, generationId), trail, alive)
      ensures alive ==> r == CleanupPlan(old(Now()), token, generationId).outcome
      ensures alive ==> CleanupLeft(old(Now()), token, generationId, Now())
      ensures alive ==> r == Ok(Cleaned(exists dir :: dir in old(dirs) && GoesInCleanup(old(Now()), token, generationId, dir)))
    {
      hide Apply, Run;
      Begin();
      CleanupDoomsExactly(Now(), token, generationId);
      var stageExisted := Scratch(token) in dirs;
      r := Ok(Cleaned(false));
      if stageExisted {
        alive := RemoveTree(Scratch(token));
        if !alive {
          return;
        }
      }
      var releaseExisted := false;
      if generationId.Some? {
        var isRetainedOrActive := generationId == current || generationId.value in Ids(history);
        if !isRetainedOrActive {
          releaseExisted := Release(generationId.value) in dirs;
          if releaseExisted {
            alive := RemoveTree(Release(generationId.value));
            if !alive {
              return;
            }
          }
        }
      }
      alive := true;
      r := Ok(Cleaned(stageExisted || releaseExisted));
      CleanupLeaves(start, token, generationId, trail);
    }

    method Rollback(input: RollbackInput) returns (alive: bool, r: Outcome)
      modifies this
      ensures start == old(Now()) && Tracked()
      ensures Performs(old(Now()), RollbackPlan(env, old(Now()), input), trail, alive)
      ensures alive ==> r == RollbackPlan(env, old(Now()), input).outcome
      ensures MovedAsFenced(env, old(Now()), CallRollback(input), Now())
    {
      hide WalkDigest, Walk, StagePlan, ActivatePlan, FenceFor, MovedAsFenced, StageLeft, Moves, ActivateRefused;
      Begin();
      StaysFenced(env, Now(), CallRollback(input));
      if Release(input.target) !in dirs {
        return true, Err(RollbackGenerationNotRetained);
      }
      ghost var first := Now();
      var tree := dirs[Release(input.target)];
      var files, artifactDigest := Walk(tree), WalkDigest(env, tree);
      alive, r := Stage(StageInput(input.operationId, input.attemptId, input.idempotencyKey, input.newGenerationId,
                                   input.newArtifactId, artifactDigest, files));
      ghost var staging := StagePlan(env, first, RollbackStage(env, first, input));
      StageDoomsNothing(env, first, RollbackStage(env, first, input));
      if !alive || r.Err? {
        CallMovesAsFenced(env, first, CallRollback(input), trail, alive);
        return;
      }
      ghost var stagingSteps := trail;
      DoneWithoutRemovals(first, staging, stagingSteps);
      StageAnswers(env, first, RollbackStage(env, first, input));
      alive, r := Activate(ActivateInput(r.value.token, input.newGenerationId, Some(FenceFor(current)), None));
      ghost var steps := stagingSteps + trail;
      PerformsAfter(first, staging.fixed, ActivatePlan(env, Run(first, stagingSteps),
        ActivateInput(env.tokenOf(input.operationId, input.attemptId, input.newGenerationId), input.newGenerationId,
                      Some(FenceFor(Run(first, stagingSteps).current)), None)), trail, alive);
      RunAppend(first, stagingSteps, trail);
      start, trail := first, steps;
      CallMovesAsFenced(env, first, CallRollback(input), steps, alive);
    }
  }

  lemma {:induction false} RemovesOne(tree: Tree, i: nat)
    requires i < |tree|
    ensures |Delete(tree, tree[i].key)| < |tree|
  {
    if tree[0].key != tree[i].key {
      RemovesOne(tree[1..], i - 1);
    }
  }

  lemma StaysFenced(env: Env, d: Disk, call: Call)
    ensures MovedAsFenced(env, d, call, d)
  {
  }

  lemma StageDoomsNothing(env: Env, d: Disk, input: StageInput)
    ensures StagePlan(env, d, input).doomed == {}
  {
  }

  lemma DoneWithoutRemovals(d: Disk, plan: Plan, steps: seq<Step>)
    requires Performs(d, plan, steps, true) && plan.doomed == {}
    ensures steps == plan.fixed
  {
    var n := |plan.fixed|;
    assert |steps| > n ==> IsRemoval(steps[n], plan.doomed);
  }

  lemma StageAnswers(env: Env, d: Disk, input: StageInput)
    requires StagePlan(env, d, input).outcome.Ok?
    ensures StagePlan(env, d, input).outcome.value.Staged?
    ensures StagePlan(env, d, input).outcome.value.token == env.tokenOf(input.operationId, input.attemptId, input.generationId)
  {
  }

  /** A plan performed after some fixed steps is the longer plan performed from the start. */
  lemma PerformsAfter(d: Disk, before: seq<Step>, plan: Plan, steps: seq<Step>, done: bool)
    requires Performs(Run(d, before), plan, steps, done)
    ensures Performs(d, Plan(before + plan.fixed, plan.doomed, plan.outcome), before + steps, done)
  {
    RunAppend(d, before, steps);
    if steps <= plan.fixed && !done {
      assert before + steps <= before + plan.fixed;
    } else {
      assert before + plan.fixed <= before + steps;
    }
  }
}
