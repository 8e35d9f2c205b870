/**
 The run that shows the proviso of `LocalRuns.ServedIsCommitted` cannot be dropped: a
 cleanup stopped after one file, then a complete stage and a complete, digest-checked
 activation of the same generation, which reports success and serves less than was
 committed.
 */
module LocalTorn {
  import opened Wrappers
  import opened Utf16
  import opened OrderedMap
  import opened Utf8
  import opened Digest
  import opened GenerationFence
  import opened Marker
  import opened LocalStore
  import opened LocalSafety
  import opened LocalRuns

  /** The fixed parts of the story: one file, one generation, one operation. */
  datatype Story = Story(env: Env, id: Id, file: File, operationId: Text, attemptId: Text, artifactId: Text) {
    function Digest(): Text {
      ComputeArtifactDigest(env.sha, [file])
    }

    function Stage(key: Text): StageInput {
      StageInput(operationId, attemptId, key, id, artifactId, Digest(), [file])
    }

    function Token(): Token {
      env.tokenOf(operationId, attemptId, id)
    }

    function MarkerFile(): File {
      Keyed(MARKER_FILENAME, MarkerBytes(Identity(artifactId, Digest(), id)))
    }

    function Activate(): ActivateInput {
      ActivateInput(Token(), id, Some(EXPECT_NOTHING_SERVED), Some(Digest()))
    }

    ghost predicate Plausible() {
      file.key != MARKER_FILENAME && env.markerValid(Identity(artifactId, Digest(), id))
    }

    function StageSteps(key: Text): seq<Step> {
      [WriteFile(Token(), file.key, file.val),
       WriteFile(Token(), MARKER_FILENAME, MarkerFile().val),
       WriteJournal(EntryFor(Stage(key)))]
    }
  }

  const KEY_ONE: Text := [0x31]
  const KEY_TWO: Text := [0x32]

  /** Staging into an absent scratch directory. */
  lemma StageEvent(s: Story, w: World, key: Text)
    requires s.Plausible() && FindKey(w.disk.journal, key).None? && Scratch(s.Token()) !in w.disk.dirs
    ensures var next := Progress(w, s.StageSteps(key));
            Performs(w.disk, PlanOf(s.env, w.disk, CallStage(s.Stage(key))), s.StageSteps(key), true)
            && next == w.(disk := w.disk.(
                 dirs := w.disk.dirs[Scratch(s.Token()) := [s.file, s.MarkerFile()]],
                 journal := w.disk.journal + [EntryFor(s.Stage(key))]))
  {
    hide MarkerBytes, ComputeArtifactDigest;
    var t := s.Token();
    var steps := s.StageSteps(key);
    assert WriteFiles(t, [s.file]) == [steps[0]];
    assert StagePlan(s.env, w.disk, s.Stage(key)).fixed == steps;
    var one := Advance(w, steps[0]);
    assert Set([], s.file.key, s.file.val) == [s.file];
    var two := Advance(one, steps[1]);
    assert Set([s.file], MARKER_FILENAME, s.MarkerFile().val) == [s.file] + Set([], MARKER_FILENAME, s.MarkerFile().val);
    var three := Advance(two, steps[2]);
    assert Set([s.file], MARKER_FILENAME, s.MarkerFile().val) == [s.file, s.MarkerFile()];
    assert steps == [steps[0], steps[1], steps[2]];
    ProgressThree(w, steps[0], steps[1], steps[2]);
    assert TreeAt(one.disk, Scratch(t)) == [s.file];
    assert three.disk.dirs == w.disk.dirs[Scratch(t) := [s.file]][Scratch(t) := [s.file, s.MarkerFile()]];
    assert w.disk.dirs[Scratch(t) := [s.file]][Scratch(t) := [s.file, s.MarkerFile()]]
        == w.disk.dirs[Scratch(t) := [s.file, s.MarkerFile()]];
  }

  /** The staged bytes pass the digest check. */
  lemma StagedDigest(s: Story)
    requires s.Plausible()
    ensures WalkDigest(s.env, [s.file, s.MarkerFile()]) == s.Digest()
    ensures MarkerOf([s.file, s.MarkerFile()]).Some? && MarkerOf([s.MarkerFile()]).Some?
  {
    hide MarkerBytes, DigestSorted, ReadMarker, MarkerJson;
    var tree: Tree := [s.file, s.MarkerFile()];
    assert tree[1..] == [s.MarkerFile()] && tree[1..][1..] == [];
    assert Select(IsPayload, tree[1..]) == [];
    assert Select(IsPayload, tree) == [s.file];
    assert Find(tree[1..], MARKER_FILENAME) == Some(s.MarkerFile().val);
    assert Find(tree, MARKER_FILENAME) == Some(s.MarkerFile().val);
    assert tree[..1][1..] == [] && tree[..1] == [s.file];
    assert Sort([s.file]) == [s.file];
    ProjectSort(s.env.sha, [s.file]);
    MarkerReadsBack(Identity(s.artifactId, s.Digest(), s.id));
  }

  /** Every call answers as in the source, and the last one serves a torn generation. */
  lemma DigestCheckedActivationServesTorn(s: Story) returns (events: seq<Event>)
    requires s.Plausible()
    ensures Happens(s.env, GENESIS, events)
    ensures events != [] && events[|events| - 1].call == CallActivate(s.Activate()) && events[|events| - 1].done
    ensures !Served(After(GENESIS, events))
  {
    hide MarkerBytes, ComputeArtifactDigest, WalkDigest, MarkerOf, DigestOf, Progress, PlanOf, Performs, Served;
    var t := s.Token();
    var call := CallActivate(s.Activate());
    StagedDigest(s);
    // a complete stage
    var one := Event(CallStage(s.Stage(KEY_ONE)), s.StageSteps(KEY_ONE), true);
    StageEvent(s, GENESIS, KEY_ONE);
    var w1 := Progress(GENESIS, one.steps);
    // an activation stopped right after the rename
    var two := Event(call, [Commit(t, s.id)], false);
    var w2 := CommittedOnly(s, w1);
    // a cleanup of the abandoned release, stopped after one file
    var three := Event(CallCleanup(t, Some(s.id)), [Unlink(Release(s.id), s.file.key)], false);
    var w3 := HalfRemoved(s, w2);
    // the same generation staged again, completely
    var four := Event(CallStage(s.Stage(KEY_TWO)), s.StageSteps(KEY_TWO), true);
    assert FindKey(w3.disk.journal, KEY_TWO).None? by {
      assert w3.disk.journal == [EntryFor(s.Stage(KEY_ONE))];
      assert w3.disk.journal[1..] == [];
    }
    StageEvent(s, w3, KEY_TWO);
    var w4 := Progress(w3, four.steps);
    // a complete activation that passes the digest check
    var five := Event(call, ActivatePlan(s.env, w4.disk, s.Activate()).fixed, true);
    var w5 := TornServed(s, w4);
    events := [one, two, three, four, five];
    assert events[1..] == [two, three, four, five] && events[1..][1..] == [three, four, five];
    assert [three, four, five][1..] == [four, five] && [four, five][1..] == [five] && [five][1..] == [];
    assert After(w4, [five]) == w5;
    assert After(w3, [four, five]) == w5;
    assert After(w2, [three, four, five]) == w5;
    assert After(w1, [two, three, four, five]) == w5;
    assert Happens(s.env, w4, [five]);
    assert Happens(s.env, w3, [four, five]);
    assert Happens(s.env, w2, [three, four, five]);
    assert Happens(s.env, w1, [two, three, four, five]);
  }

  lemma CommittedOnly(s: Story, w: World) returns (next: World)
    requires s.Plausible() && w.disk.current.None? && w.disk.history == []
    requires w.disk.dirs == map[Scratch(s.Token()) := [s.file, s.MarkerFile()]]
    ensures next == Progress(w, [Commit(s.Token(), s.id)])
    ensures Performs(w.disk, PlanOf(s.env, w.disk, CallActivate(s.Activate())), [Commit(s.Token(), s.id)], false)
    ensures next.disk.dirs == map[Release(s.id) := [s.file, s.MarkerFile()]]
    ensures next.committed == w.committed[s.id := [s.file, s.MarkerFile()]]
    ensures next.disk.current.None? && next.disk.history == [] && next.disk.journal == w.disk.journal
  {
    hide WalkDigest, MarkerOf, DigestOf, ComputeArtifactDigest, Retired, Run;
    StagedDigest(s);
    var commit := Commit(s.Token(), s.id);
    next := Advance(w, commit);
    assert [commit][1..] == [];
    assert ActivatePlan(s.env, w.disk, s.Activate()).fixed[..1] == [commit];
  }

  lemma HalfRemoved(s: Story, w: World) returns (next: World)
    requires s.Plausible() && w.disk.current.None? && w.disk.history == []
    requires w.disk.dirs == map[Release(s.id) := [s.file, s.MarkerFile()]]
    ensures next == Progress(w, [Unlink(Release(s.id), s.file.key)])
    ensures Performs(w.disk, PlanOf(s.env, w.disk, CallCleanup(s.Token(), Some(s.id))), [Unlink(Release(s.id), s.file.key)], false)
    ensures next.disk.dirs == map[Release(s.id) := [s.MarkerFile()]]
    ensures next.committed == w.committed
    ensures next.disk.current.None? && next.disk.history == [] && next.disk.journal == w.disk.journal
  {
    var unlink := Unlink(Release(s.id), s.file.key);
    next := Advance(w, unlink);
    assert [unlink][1..] == [];
    assert [s.file, s.MarkerFile()][1..] == [s.MarkerFile()];
    assert IsRemoval(unlink, CleanupPlan(w.disk, s.Token(), Some(s.id)).doomed);
  }

  lemma TornServed(s: Story, w: World) returns (next: World)
    requires s.Plausible() && w.disk.current.None? && w.disk.history == []
    requires w.disk.dirs == map[Release(s.id) := [s.MarkerFile()], Scratch(s.Token()) := [s.file, s.MarkerFile()]]
    requires s.id in w.committed && w.committed[s.id] == [s.file, s.MarkerFile()]
    ensures next == Progress(w, ActivatePlan(s.env, w.disk, s.Activate()).fixed)
    ensures Performs(w.disk, PlanOf(s.env, w.disk, CallActivate(s.Activate())),
                     ActivatePlan(s.env, w.disk, s.Activate()).fixed, true)
    ensures !Served(next)
  {
    hide WalkDigest, MarkerOf, DigestOf, ComputeArtifactDigest;
    StagedDigest(s);
    var plan := ActivatePlan(s.env, w.disk, s.Activate());
    var record := Record(s.id, DigestOf(MarkerOf([s.MarkerFile()]).value));
    assert plan.fixed == [Swap(s.id), WriteHistory(record)];
    next := Advance(Advance(w, Swap(s.id)), WriteHistory(record));
    ProgressTwo(w, Swap(s.id), WriteHistory(record));
    RunTwo(w.disk, Swap(s.id), WriteHistory(record));
    assert Others([], s.id) == [];
    assert Retain([], record) == [record];
    assert record in next.disk.history;
    assert s.id in Ids(next.disk.history);
    assert Retired(Run(w.disk, plan.fixed)) == {};
    assert |[s.MarkerFile()]| != |[s.file, s.MarkerFile()]|;
  }
}
