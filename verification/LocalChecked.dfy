/**
 What looking at a release before serving it decides: a release whose marker carries the
 digest of its own files is the committed one, and no other is. With it the proviso of
 `LocalRuns.ServedIsCommitted` becomes exact in terms of the disk alone.
 */
module LocalChecked {
  import opened Wrappers
  import opened Utf16
  import opened OrderedMap
  import opened Utf8
  import opened Digest
  import opened GenerationFence
  import opened Marker
  import opened LocalStore
  import opened LocalSafety
  import opened LocalRuns
  import opened LocalHistory

  /** The marker is readable and carries the digest of the other files: the comparison `observe` makes. */
  predicate SelfConsistent(env: Env, tree: Tree) {
    MarkerOf(tree).Some? && DigestOf(MarkerOf(tree).value) == Some(WalkDigest(env, tree))
  }

  ghost predicate CollisionFree(sha: Sha) {
    forall a, b :: sha(a) == sha(b) ==> a == b
  }

  // ---- A part of a self-consistent tree ----

  ghost predicate Within(part: Tree, whole: Tree) {
    DistinctKeys(part) && DistinctKeys(whole) && forall x :: x in part ==> x in whole
  }

  lemma {:induction false} PayloadCount(tree: Tree)
    requires DistinctKeys(tree)
    ensures |tree| == |Select(IsPayload, tree)| + if Find(tree, MARKER_FILENAME).Some? then 1 else 0
  {
    hide MARKER_FILENAME;
    if tree != [] {
      var rest := tree[1..];
      assert DistinctKeys(rest);
      PayloadCount(rest);
      if tree[0].key == MARKER_FILENAME {
        NotFound(rest, MARKER_FILENAME);
      }
    }
  }

  /** The marker a part holds is the whole tree's. */
  lemma MarkerWithin(part: Tree, whole: Tree)
    requires Within(part, whole) && Find(part, MARKER_FILENAME).Some?
    ensures Find(whole, MARKER_FILENAME) == Find(part, MARKER_FILENAME)
  {
    hide Find, MARKER_FILENAME;
    FindMeans(part, MARKER_FILENAME);
    FindMeans(whole, MARKER_FILENAME);
  }

  lemma SameWalkLengths(env: Env, a: Tree, b: Tree)
    requires CollisionFree(env.sha) && WalkDigest(env, a) == WalkDigest(env, b)
    ensures |Walk(a)| == |Walk(b)|
  {
    hide DigestSorted, Walk;
    EqualDigestsEntries(env.sha, Project(env.sha, Walk(a)), Project(env.sha, Walk(b)));
    ProjectAt(env.sha, Walk(a));
    ProjectAt(env.sha, Walk(b));
  }

  /** A part of a self-consistent tree that is self-consistent has lost nothing. */
  lemma ConsistentPartIsWhole(env: Env, part: Tree, whole: Tree)
    requires CollisionFree(env.sha) && Within(part, whole)
    requires SelfConsistent(env, part) && SelfConsistent(env, whole)
    ensures |part| == |whole|
  {
    hide WalkDigest, Find, ReadMarker, DigestOf, Select, Sort;
    MarkerWithin(part, whole);
    SameWalkLengths(env, part, whole);
    SortContents(Select(IsPayload, part));
    SortContents(Select(IsPayload, whole));
    PayloadCount(part);
    PayloadCount(whole);
  }

  // ---- Releases committed whole ----

  /** What was committed under `id` was self-consistent, and the release holds nothing else. */
  ghost predicate SealedAt(env: Env, w: World, id: Id) {
    OnDisk(w, id) && id in w.committed
    && SelfConsistent(env, w.committed[id]) && Within(w.disk.dirs[Release(id)], w.committed[id])
  }

  ghost predicate Sealed(env: Env, w: World) {
    TreesDistinct(w.disk) && forall id :: OnDisk(w, id) ==> SealedAt(env, w, id)
  }

  /** The release of `id` is intact exactly when it is self-consistent. */
  lemma IntactExactly(env: Env, w: World, id: Id)
    requires CollisionFree(env.sha) && Inv(w) && Sealed(env, w) && OnDisk(w, id)
    ensures Intact(w, id) <==> SelfConsistent(env, w.disk.dirs[Release(id)])
  {
    hide SelfConsistent, TreesDistinct, MostRecent, First, IdList, Ids;
    assert SealedAt(env, w, id);
    if SelfConsistent(env, w.disk.dirs[Release(id)]) {
      ConsistentPartIsWhole(env, w.disk.dirs[Release(id)], w.committed[id]);
    }
  }

  /** A rename out of staging moves a self-consistent tree. */
  predicate SealsOne(env: Env, d: Disk, step: Step) {
    step.Commit? && Scratch(step.token) in d.dirs && Release(step.id) !in d.dirs ==>
      SelfConsistent(env, d.dirs[Scratch(step.token)])
  }

  predicate Seals(env: Env, d: Disk, steps: seq<Step>)
    decreases |steps|
  {
    steps == [] || (SealsOne(env, d, steps[0]) && Seals(env, Apply(d, steps[0]), steps[1..]))
  }

  lemma StepKeepsSealed(env: Env, w: World, step: Step)
    requires Sealed(env, w) && SealsOne(env, w.disk, step)
    ensures Sealed(env, Advance(w, step))
  {
    hide SelfConsistent, Set, Delete, Retain, TreesDistinct;
    var next := Advance(w, step);
    ApplyKeepsDistinct(w.disk, step);
    forall id | OnDisk(next, id) ensures SealedAt(env, next, id) {
      TreeDistinctAt(next.disk, Release(id));
      if step.Commit? && !OnDisk(w, id) {
        TreeDistinctAt(w.disk, Scratch(step.token));
      } else {
        assert SealedAt(env, w, id);
        if step.Unlink? && step.dir == Release(id) {
          DeleteKeys(w.disk.dirs[Release(id)], step.path);
        }
      }
    }
  }

  lemma {:induction false} StepsKeepSealed(env: Env, w: World, steps: seq<Step>)
    requires Sealed(env, w) && Seals(env, w.disk, steps)
    ensures Sealed(env, Progress(w, steps))
    decreases |steps|
  {
    hide Sealed, SealsOne, Apply;
    if steps != [] {
      StepKeepsSealed(env, w, steps[0]);
      StepsKeepSealed(env, Advance(w, steps[0]), steps[1..]);
    }
  }

  lemma {:induction false} SealsAppend(env: Env, d: Disk, a: seq<Step>, b: seq<Step>)
    ensures Seals(env, d, a + b) <==> Seals(env, d, a) && Seals(env, Run(d, a), b)
    decreases |a|
  {
    hide SealsOne, Apply;
    if a == [] {
      assert a + b == b;
    } else {
      SealsAppend(env, Apply(d, a[0]), a[1..], b);
      assert (a + b)[1..] == a[1..] + b;
    }
  }

  lemma {:induction false} NoCommitSeals(env: Env, d: Disk, steps: seq<Step>)
    requires forall i :: 0 <= i < |steps| ==> !steps[i].Commit?
    ensures Seals(env, d, steps)
    decreases |steps|
  {
    hide Apply;
    if steps != [] {
      NoCommitSeals(env, Apply(d, steps[0]), steps[1..]);
    }
  }

  /** What the call would rename out of staging is self-consistent. */
  predicate CommitsWhole(env: Env, d: Disk, call: Call) {
    Seals(env, d, PlanOf(env, d, call).fixed)
  }

  lemma PerformedSeals(env: Env, d: Disk, call: Call, steps: seq<Step>, done: bool)
    requires CommitsWhole(env, d, call) && Performs(d, PlanOf(env, d, call), steps, done)
    ensures Seals(env, d, steps)
  {
    hide PlanOf, Seals;
    var plan := PlanOf(env, d, call);
    if steps <= plan.fixed {
      assert plan.fixed == steps + plan.fixed[|steps|..];
      SealsAppend(env, d, steps, plan.fixed[|steps|..]);
    } else {
      var removals := steps[|plan.fixed|..];
      assert steps == plan.fixed + removals;
      NoCommitSeals(env, Run(d, plan.fixed), removals);
      SealsAppend(env, d, plan.fixed, removals);
    }
  }

  // ---- Where a call swaps ----

  /** The event got as far as swapping the pointer to its target. */
  predicate Swaps(event: Event) {
    TargetOf(event.call).Some? && Swap(TargetOf(event.call).value) in event.steps
  }

  /** If the target's release was there before the call and was swapped in, it was self-consistent. */
  predicate SwapsWhole(env: Env, d: Disk, event: Event) {
    Swaps(event) && Release(TargetOf(event.call).value) in d.dirs ==>
      SelfConsistent(env, d.dirs[Release(TargetOf(event.call).value)])
  }

  /** The fixed steps of a call whose target is on disk: staging writes, then the swap and what follows it. */
  ghost predicate SwapAfter(fixed: seq<Step>, writes: seq<Step>, id: Id) {
    writes <= fixed && Harmless(writes)
    && (fixed == writes || fixed == writes + [Swap(id)]
        || (|fixed| == |writes| + 2 && fixed[|writes|] == Swap(id) && fixed[|writes| + 1].WriteHistory?))
  }

  lemma ActivateSwapAfter(env: Env, d: Disk, input: ActivateInput)
    requires Release(input.generationId) in d.dirs
    ensures SwapAfter(ActivatePlan(env, d, input).fixed, [], input.generationId)
    ensures ActivatePlan(env, d, input).fixed == [] ==> ActivatePlan(env, d, input).doomed == {}
  {
    hide WalkDigest, MarkerOf, DigestOf, RequireGenerationFence, FenceDisagrees, Retired, Run;
    assert forall x: seq<Step> :: [] + x == x;
  }

  lemma RollbackSwapAfter(env: Env, d: Disk, input: RollbackInput) returns (writes: seq<Step>)
    requires Release(input.newGenerationId) in d.dirs
    ensures SwapAfter(RollbackPlan(env, d, input).fixed, writes, input.newGenerationId)
    ensures RollbackPlan(env, d, input).fixed == writes ==> RollbackPlan(env, d, input).doomed == {}
  {
    hide StagePlan, ActivatePlan, WalkDigest, Walk, FenceFor, Run;
    if Release(input.target) !in d.dirs {
      return [];
    }
    var staging := StagePlan(env, d, RollbackStage(env, d, input));
    StageHarmless(env, d, RollbackStage(env, d, input));
    writes := staging.fixed;
    if staging.outcome.Ok? {
      var staged := Run(d, writes);
      var w := World(d, map[], {}, []);
      HarmlessSafe(w, writes);
      ProgressRuns(w, writes);
      assert OnDisk(w, input.newGenerationId);
      var token := env.tokenOf(input.operationId, input.attemptId, input.newGenerationId);
      var activate := ActivateInput(token, input.newGenerationId, Some(FenceFor(staged.current)), None);
      ActivateSwapAfter(env, staged, activate);
      var fixed := ActivatePlan(env, staged, activate).fixed;
      assert writes + [] == writes;
      assert RollbackPlan(env, d, input).fixed == writes + fixed;
    }
  }

  /** Neither a rename out of staging nor a pointer swap. */
  predicate IsTail(steps: seq<Step>) {
    forall i :: 0 <= i < |steps| ==> !steps[i].Commit? && !steps[i].Swap?
  }

  /** An event whose target was on disk wrote staging files only, or swapped once after them and then renamed nothing. */
  lemma SplitAtSwap(env: Env, d: Disk, event: Event) returns (writes: seq<Step>, tail: seq<Step>)
    requires Performs(d, PlanOf(env, d, event.call), event.steps, event.done)
    requires TargetOf(event.call).Some? && Release(TargetOf(event.call).value) in d.dirs
    ensures Harmless(writes) && IsTail(tail)
    ensures event.steps == if Swaps(event) then writes + [Swap(TargetOf(event.call).value)] + tail else writes
  {
    hide StagePlan, ActivatePlan, RollbackPlan, Run;
    var id := TargetOf(event.call).value;
    var plan, steps := PlanOf(env, d, event.call), event.steps;
    if event.call.CallActivate? {
      writes := [];
      ActivateSwapAfter(env, d, event.call.activate);
    } else {
      writes := RollbackSwapAfter(env, d, event.call.rollback);
    }
    tail := SplitSteps(d, plan, steps, event.done, writes, id);
    if Swap(id) !in steps {
      writes := steps;
    }
  }

  /** The same of steps a plan allows. */
  lemma SplitSteps(d: Disk, plan: Plan, steps: seq<Step>, done: bool, writes: seq<Step>, id: Id) returns (tail: seq<Step>)
    requires SwapAfter(plan.fixed, writes, id) && (plan.fixed == writes ==> plan.doomed == {})
    requires Performs(d, plan, steps, done)
    ensures IsTail(tail)
    ensures if Swap(id) in steps then steps == writes + [Swap(id)] + tail else Harmless(steps)
  {
    hide Run, SwapAfter;
    var n := |writes|;
    FixedAt(plan.fixed, writes, id);
    if |steps| <= n {
      NoSwapInWrites(steps, id);
      return [];
    }
    NothingToRemove(steps[n]);
    assert steps[n] == Swap(id) && steps[..n] == writes;
    forall i | n < i < |steps| ensures !steps[i].Commit? && !steps[i].Swap? {
      if i >= |plan.fixed| {
        assert IsRemoval(steps[i], plan.doomed);
      }
    }
    tail := steps[n + 1..];
    CutAtStep(steps, n);
  }

  /** The fixed steps one by one. */
  lemma FixedAt(fixed: seq<Step>, writes: seq<Step>, id: Id)
    requires SwapAfter(fixed, writes, id)
    ensures writes <= fixed && Harmless(writes)
    ensures forall i :: |writes| <= i < |fixed| ==> if i == |writes| then fixed[i] == Swap(id) else fixed[i].WriteHistory?
  {
  }

  lemma CutAtStep(steps: seq<Step>, n: nat)
    requires n < |steps|
    ensures steps == steps[..n] + [steps[n]] + steps[n + 1..]
  {
  }

  lemma NothingToRemove(step: Step)
    ensures !IsRemoval(step, {})
  {
  }

  lemma NoSwapInWrites(steps: seq<Step>, id: Id)
    requires Harmless(steps)
    ensures Swap(id) !in steps
  {
  }

  /** Served, and fewer files than were committed. */
  ghost predicate Spoiled(w: World, id: Id) {
    w.disk.current == Some(id) && id in w.committed
    && (OnDisk(w, id) ==> |w.disk.dirs[Release(id)]| < |w.committed[id]|)
  }

  lemma {:induction false} TailKeepsSpoiled(w: World, steps: seq<Step>, id: Id)
    requires Spoiled(w, id) && IsTail(steps)
    ensures Spoiled(Progress(w, steps), id)
    decreases |steps|
  {
    hide Delete, Set, Retain;
    if steps != [] {
      assert !steps[0].Commit? && !steps[0].Swap?;
      TailKeepsSpoiled(Advance(w, steps[0]), steps[1..], id);
    }
  }

  /** A torn release swapped in is served torn, whatever follows. */
  lemma TornSwapSpoils(w: World, writes: seq<Step>, tail: seq<Step>, id: Id)
    requires Inv(w) && id in w.torn && Harmless(writes) && IsTail(tail)
    ensures !Served(Progress(w, writes + [Swap(id)] + tail))
  {
    hide MostRecent, First, IdList, Ids;
    var written := Progress(w, writes);
    HarmlessSafe(w, writes);
    ProgressAppend(w, writes + [Swap(id)], tail);
    ProgressSnoc(w, writes, Swap(id));
    assert Spoiled(Advance(written, Swap(id)), id);
    TailKeepsSpoiled(Advance(written, Swap(id)), tail, id);
  }

  lemma HarmlessKeepsServed(w: World, steps: seq<Step>)
    requires Inv(w) && Served(w) && Harmless(steps)
    ensures Inv(Progress(w, steps)) && Served(Progress(w, steps))
  {
    hide Inv, Served;
    HarmlessSafe(w, steps);
    AllSafeKeepsInv(w, steps);
    AllServeKeepsServed(w, steps);
  }

  // ---- The exact condition ----

  /** The invariant with every release committed whole. */
  ghost predicate Kept(env: Env, w: World) {
    Inv(w) && Served(w) && Sealed(env, w)
  }

  /**
   One call, stopped anywhere: what is served afterwards is what was committed exactly when
   the call did not swap in a release it found on disk that was not self-consistent.
   */
  lemma CallServesExactly(env: Env, w: World, event: Event)
    requires CollisionFree(env.sha) && Kept(env, w)
    requires Performs(w.disk, PlanOf(env, w.disk, event.call), event.steps, event.done)
    requires CommitsWhole(env, w.disk, event.call)
    ensures Served(Progress(w, event.steps)) <==> SwapsWhole(env, w.disk, event)
    ensures Served(Progress(w, event.steps)) ==> Kept(env, Progress(w, event.steps))
  {
    hide Inv, Served, Sealed, PlanOf, CommitsWhole, Performs, SelfConsistent, Intact, CollisionFree;
    var target := TargetOf(event.call);
    PerformedSeals(env, w.disk, event.call, event.steps, event.done);
    StepsKeepSealed(env, w, event.steps);
    if target.Some? && target.value in w.torn {
      var id := target.value;
      TornOnDisk(w, id);
      IntactMeansNotTorn(w, id);
      IntactExactly(env, w, id);
      var writes, tail := SplitAtSwap(env, w.disk, event);
      if Swaps(event) {
        TornSwapSpoils(w, writes, tail, id);
      } else {
        HarmlessKeepsServed(w, writes);
      }
    } else {
      CallKeepsServed(env, w, event.call, event.steps, event.done);
      if target.Some? && OnDisk(w, target.value) {
        IntactMeansNotTorn(w, target.value);
        IntactExactly(env, w, target.value);
      }
    }
  }

  /** What is served is what was committed after every event of the run. */
  ghost predicate AlwaysServed(w: World, events: seq<Event>)
    decreases |events|
  {
    events == [] || (var next := Progress(w, events[0].steps); Served(next) && AlwaysServed(next, events[1..]))
  }

  /** Every release swapped in that was on disk before its call was self-consistent then. */
  ghost predicate SwapsOnlyWhole(env: Env, w: World, events: seq<Event>)
    decreases |events|
  {
    events == []
    || (SwapsWhole(env, w.disk, events[0]) && SwapsOnlyWhole(env, Progress(w, events[0].steps), events[1..]))
  }

  /** Every call of the run that renames a tree out of staging renames a self-consistent one. */
  ghost predicate CommitsOnlyWhole(env: Env, w: World, events: seq<Event>)
    decreases |events|
  {
    events == []
    || (CommitsWhole(env, w.disk, events[0].call) && CommitsOnlyWhole(env, Progress(w, events[0].steps), events[1..]))
  }

  lemma {:induction false} RunServesExactly(env: Env, w: World, events: seq<Event>)
    requires CollisionFree(env.sha) && Kept(env, w)
    requires Happens(env, w, events) && CommitsOnlyWhole(env, w, events)
    ensures AlwaysServed(w, events) <==> SwapsOnlyWhole(env, w, events)
    decreases |events|
  {
    hide Kept, Served, PlanOf, Performs, CommitsWhole, SwapsWhole, CollisionFree;
    if events != [] {
      CallServesExactly(env, w, events[0]);
      if Served(Progress(w, events[0].steps)) {
        RunServesExactly(env, Progress(w, events[0].steps), events[1..]);
      }
    }
  }

  lemma GenesisKept(env: Env)
    ensures Kept(env, GENESIS)
  {
    GenesisHolds();
  }

  /**
   Over every run from an empty root, every call stopped anywhere: what is served is always
   what was committed exactly when no call swaps in a release it finds on disk whose marker
   does not carry the digest of its own files.
   */
  lemma ServedExactly(env: Env, events: seq<Event>)
    requires CollisionFree(env.sha)
    requires Happens(env, GENESIS, events) && CommitsOnlyWhole(env, GENESIS, events)
    ensures AlwaysServed(GENESIS, events) <==> SwapsOnlyWhole(env, GENESIS, events)
  {
    GenesisKept(env);
    RunServesExactly(env, GENESIS, events);
  }

  // ---- Looking before each call ----

  /** A release already there under the wanted id is self-consistent. */
  predicate CallerChecks(env: Env, d: Disk, call: Call) {
    TargetOf(call).Some? && Release(TargetOf(call).value) in d.dirs ==>
      SelfConsistent(env, d.dirs[Release(TargetOf(call).value)])
  }

  /** A completed activation that swapped serves what was committed exactly when that look would have passed. */
  lemma ActivationServesExactly(env: Env, w: World, input: ActivateInput, steps: seq<Step>)
    requires CollisionFree(env.sha) && Kept(env, w) && CommitsWhole(env, w.disk, CallActivate(input))
    requires Performs(w.disk, ActivatePlan(env, w.disk, input), steps, true)
    requires ActivatePlan(env, w.disk, input).fixed != []
    ensures Served(Progress(w, steps)) <==> CallerChecks(env, w.disk, CallActivate(input))
  {
    hide Kept, Served, CommitsWhole, SelfConsistent, CollisionFree, Run;
    var fixed := ActivatePlan(env, w.disk, input).fixed;
    SwapInFixed(env, w.disk, input);
    assert fixed <= steps;
    CallServesExactly(env, w, Event(CallActivate(input), steps, true));
  }

  lemma SwapInFixed(env: Env, d: Disk, input: ActivateInput)
    requires ActivatePlan(env, d, input).fixed != []
    ensures Swap(input.generationId) in ActivatePlan(env, d, input).fixed
  {
    hide WalkDigest, MarkerOf, DigestOf, RequireGenerationFence, FenceDisagrees, Retired, Run;
    var fixed := ActivatePlan(env, d, input).fixed;
    assert fixed[if Release(input.generationId) in d.dirs then 0 else 1] == Swap(input.generationId);
  }

  ghost predicate ChecksEach(env: Env, w: World, events: seq<Event>)
    decreases |events|
  {
    events == []
    || (CallerChecks(env, w.disk, events[0].call) && ChecksEach(env, Progress(w, events[0].steps), events[1..]))
  }

  lemma {:induction false} ChecksSwapWhole(env: Env, w: World, events: seq<Event>)
    requires ChecksEach(env, w, events)
    ensures SwapsOnlyWhole(env, w, events)
    decreases |events|
  {
    hide SelfConsistent;
    if events != [] {
      ChecksSwapWhole(env, Progress(w, events[0].steps), events[1..]);
    }
  }

  /** With that look before every call, what is served is always what was committed. */
  lemma CheckedAlwaysServes(env: Env, events: seq<Event>)
    requires CollisionFree(env.sha)
    requires Happens(env, GENESIS, events) && CommitsOnlyWhole(env, GENESIS, events) && ChecksEach(env, GENESIS, events)
    ensures AlwaysServed(GENESIS, events)
  {
    ChecksSwapWhole(env, GENESIS, events);
    ServedExactly(env, events);
  }

  /** Retained and served releases pass the look. */
  lemma RetainedPass(env: Env, w: World, id: Id)
    requires Kept(env, w) && (id in Ids(w.disk.history) || w.disk.current == Some(id))
    ensures OnDisk(w, id) && SelfConsistent(env, w.disk.dirs[Release(id)])
  {
    hide SelfConsistent, TreesDistinct, MostRecent, First, IdList, Ids;
    assert Intact(w, id);
    assert SealedAt(env, w, id);
  }

  // ---- When a call commits whole ----

  /** A staged tree passes when it is self-consistent, or when its marker carries the digest the activation demands. */
  lemma ActivationCommitsWhole(env: Env, d: Disk, input: ActivateInput)
    requires Release(input.generationId) !in d.dirs && Scratch(input.stageToken) in d.dirs ==>
               var tree := d.dirs[Scratch(input.stageToken)];
               SelfConsistent(env, tree)
               || (input.expectedDigest.Some? && MarkerOf(tree).Some? && DigestOf(MarkerOf(tree).value) == input.expectedDigest)
    ensures CommitsWhole(env, d, CallActivate(input))
  {
    hide WalkDigest, MarkerOf, DigestOf, RequireGenerationFence, FenceDisagrees, Retired, Run;
    var fixed := ActivatePlan(env, d, input).fixed;
    if fixed != [] && fixed[0].Commit? {
      NoCommitSeals(env, Apply(d, fixed[0]), fixed[1..]);
    } else {
      NoCommitSeals(env, d, fixed);
    }
  }

  /** A stage of distinct payload files under their own digest, into an absent directory, is self-consistent. */
  lemma StageIsSelfConsistent(env: Env, d: Disk, input: StageInput)
    requires DistinctKeys(input.files) && forall x :: x in input.files ==> x.key != MARKER_FILENAME
    requires input.artifactDigest == ComputeArtifactDigest(env.sha, input.files)
    requires StagePlan(env, d, input).outcome.Ok? && FindKey(d.journal, input.idempotencyKey).None?
    requires Scratch(env.tokenOf(input.operationId, input.attemptId, input.generationId)) !in d.dirs
    ensures var staged := Run(d, StagePlan(env, d, input).fixed);
            var scratch := Scratch(env.tokenOf(input.operationId, input.attemptId, input.generationId));
            scratch in staged.dirs && SelfConsistent(env, staged.dirs[scratch])
  {
    hide Run, Walk, DigestSorted, ReadMarker, DigestOf, MarkerBytes, MarkerJson;
    var token := env.tokenOf(input.operationId, input.attemptId, input.generationId);
    var identity := Identity(input.artifactId, input.artifactDigest, input.generationId);
    var marker := Keyed(MARKER_FILENAME, MarkerBytes(identity));
    var writes := WriteFiles(token, input.files);
    var writeMarker, writeJournal := WriteFile(token, marker.key, marker.val), WriteJournal(EntryFor(input));
    assert StagePlan(env, d, input).fixed == writes + [writeMarker, writeJournal];
    assert TreeAt(d, Scratch(token)) + input.files == input.files;
    WritesAppend(d, token, input.files);
    var written := Run(d, writes);
    WriteOne(written, token, marker);
    RunAppend(d, writes, [writeMarker, writeJournal]);
    RunTwo(written, writeMarker, writeJournal);
    MarkerReadsBack(identity);
    FileAtEnd(input.files, marker.val);
    WalkOfStaged(input.files, marker.val);
    ProjectSort(env.sha, input.files);
  }

  lemma WalkOfStaged(files: seq<File>, marker: Bytes)
    requires forall x :: x in files ==> x.key != MARKER_FILENAME
    ensures Walk(files + [Keyed(MARKER_FILENAME, marker)]) == Sort(files)
  {
    SelectAppend(IsPayload, files, [Keyed(MARKER_FILENAME, marker)]);
    SelectAll(files);
    assert Select(IsPayload, [Keyed(MARKER_FILENAME, marker)]) == [];
    assert files + [] == files;
  }

  /** A rollback under a new key commits whole when its stage directory is absent; under a used key when what is staged is self-consistent. */
  lemma RollbackCommitsWhole(env: Env, d: Disk, input: RollbackInput)
    requires TreesDistinct(d)
    requires var scratch := Scratch(env.tokenOf(input.operationId, input.attemptId, input.newGenerationId));
             Release(input.newGenerationId) !in d.dirs && scratch in d.dirs ==>
               FindKey(d.journal, input.idempotencyKey).Some? && SelfConsistent(env, d.dirs[scratch])
    ensures CommitsWhole(env, d, CallRollback(input))
  {
    hide StagePlan, ActivatePlan, WalkDigest, Walk, FenceFor, Run, MarkerOf, DigestOf;
    if Release(input.target) in d.dirs {
      var staging := StagePlan(env, d, RollbackStage(env, d, input));
      StageHarmless(env, d, RollbackStage(env, d, input));
      NoCommitSeals(env, d, staging.fixed);
      if staging.outcome.Ok? {
        var staged := Run(d, staging.fixed);
        var token := env.tokenOf(input.operationId, input.attemptId, input.newGenerationId);
        var activate := ActivateInput(token, input.newGenerationId, Some(FenceFor(staged.current)), None);
        StagedForRollback(env, d, input);
        ActivationCommitsWhole(env, staged, activate);
        SealsAppend(env, d, staging.fixed, ActivatePlan(env, staged, activate).fixed);
      }
    }
  }

  lemma StagedForRollback(env: Env, d: Disk, input: RollbackInput)
    requires TreesDistinct(d) && Release(input.target) in d.dirs
    requires var scratch := Scratch(env.tokenOf(input.operationId, input.attemptId, input.newGenerationId));
             Release(input.newGenerationId) !in d.dirs && scratch in d.dirs ==>
               FindKey(d.journal, input.idempotencyKey).Some? && SelfConsistent(env, d.dirs[scratch])
    requires StagePlan(env, d, RollbackStage(env, d, input)).outcome.Ok?
    ensures var staged := Run(d, StagePlan(env, d, RollbackStage(env, d, input)).fixed);
            var scratch := Scratch(env.tokenOf(input.operationId, input.attemptId, input.newGenerationId));
            Release(input.newGenerationId) !in staged.dirs && scratch in staged.dirs ==> SelfConsistent(env, staged.dirs[scratch])
  {
    hide Run, Walk, DigestSorted, ReadMarker, DigestOf, MarkerBytes, MarkerJson;
    var staging := StagePlan(env, d, RollbackStage(env, d, input));
    var w := World(d, map[], {}, []);
    StageHarmless(env, d, RollbackStage(env, d, input));
    HarmlessSafe(w, staging.fixed);
    ProgressRuns(w, staging.fixed);
    assert OnDisk(w, input.newGenerationId) <==> Release(input.newGenerationId) in d.dirs;
    if FindKey(d.journal, input.idempotencyKey).Some? {
      assert Run(d, []) == d;
    } else if Release(input.newGenerationId) !in d.dirs {
      var target := d.dirs[Release(input.target)];
      RollbackStages(env, d, input);
      WalkMeans(target);
      WalkOfCopy(Walk(target), MarkerBytes(RollbackMarker(env, d, input)));
      FileAtEnd(Walk(target), MarkerBytes(RollbackMarker(env, d, input)));
      MarkerReadsBack(RollbackMarker(env, d, input));
    }
  }
}
