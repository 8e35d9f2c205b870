/**
 Safety of the local-directory store over every run of calls and every interruption:
 what `current` serves, what the history records, what the sweep may touch.
 */
module LocalSafety {
  import opened Wrappers
  import opened Utf16
  import opened OrderedMap
  import opened Utf8
  import opened Digest
  import opened GenerationFence
  import opened Marker
  import opened LocalStore

  /**
   The disk and three records of the past: the files each generation had when it was
   renamed out of staging, the releases some of whose files an unfinished removal has
   taken, and the generations certified so far, newest first.
   */
  datatype World = World(disk: Disk, committed: map<Id, Tree>, torn: set<Id>, certified: seq<Id>)

  const GENESIS := World(EMPTY_DISK, map[], {}, [])

  function Advance(w: World, step: Step): World {
    var next := w.(disk := Apply(w.disk, step));
    match step
    case Commit(token, id) =>
      if next.disk == w.disk then next
      else next.(committed := w.committed[id := w.disk.dirs[Scratch(token)]], torn := w.torn - {id})
    case WriteHistory(record) => next.(certified := [record.generationId] + w.certified)
    case Unlink(dir, path) =>
      if dir.Release? && |TreeAt(next.disk, dir)| < |TreeAt(w.disk, dir)| then next.(torn := w.torn + {dir.id}) else next
    case RemoveDir(dir) =>
      if dir.Release? && dir !in next.disk.dirs then next.(torn := w.torn - {dir.id}) else next
    case _ => next
  }

  function Progress(w: World, steps: seq<Step>): World
    decreases |steps|
  {
    if steps == [] then w else Progress(Advance(w, steps[0]), steps[1..])
  }

  lemma {:induction false} ProgressRuns(w: World, steps: seq<Step>)
    ensures Progress(w, steps).disk == Run(w.disk, steps)
    decreases |steps|
  {
    hide Apply;
    if steps != [] {
      ProgressRuns(Advance(w, steps[0]), steps[1..]);
    }
  }

  lemma {:induction false} ProgressAppend(w: World, a: seq<Step>, b: seq<Step>)
    ensures Progress(w, a + b) == Progress(Progress(w, a), b)
    decreases |a|
  {
    hide Advance;
    if a == [] {
      assert a + b == b;
    } else {
      ProgressAppend(Advance(w, a[0]), a[1..], b);
      assert (a + b)[1..] == a[1..] + b;
    }
  }

  lemma ProgressSnoc(w: World, a: seq<Step>, step: Step)
    ensures Progress(w, a + [step]) == Advance(Progress(w, a), step)
  {
    ProgressAppend(w, a, [step]);
  }

  lemma ProgressTwo(w: World, a: Step, b: Step)
    ensures Progress(w, [a, b]) == Advance(Advance(w, a), b)
  {
    hide Advance;
    var rest := [b];
    assert [a, b][1..] == rest && rest[1..] == [];
    assert Progress(Advance(w, a), rest) == Advance(Advance(w, a), b);
  }

  lemma ProgressThree(w: World, a: Step, b: Step, c: Step)
    ensures Progress(w, [a, b, c]) == Advance(Advance(Advance(w, a), b), c)
  {
    hide Advance;
    assert [a, b, c][1..] == [b, c];
    ProgressTwo(Advance(w, a), b, c);
  }

  // ---- The certified generations, newest first ----

  function Drop(ids: seq<Id>, id: Id): seq<Id> {
    if ids == [] then []
    else if ids[0] == id then Drop(ids[1..], id)
    else [ids[0]] + Drop(ids[1..], id)
  }

  /** Each id once, at its most recent place. */
  function MostRecent(ids: seq<Id>): seq<Id> {
    if ids == [] then [] else [ids[0]] + Drop(MostRecent(ids[1..]), ids[0])
  }

  function First(ids: seq<Id>, n: nat): seq<Id> {
    if |ids| <= n then ids else ids[..n]
  }

  const RETAINED := MAXIMUM_PRIOR_GENERATIONS_ON_DISK + 1

  function IdList(history: seq<Record>): (ids: seq<Id>)
    ensures |ids| == |history|
  {
    if history == [] then [] else [history[0].generationId] + IdList(history[1..])
  }

  ghost predicate Distinct(ids: seq<Id>) {
    forall i, j :: 0 <= i < j < |ids| ==> ids[i] != ids[j]
  }

  lemma {:induction false} DropMeans(ids: seq<Id>, id: Id)
    ensures forall x :: x in Drop(ids, id) <==> x in ids && x != id
    ensures Distinct(ids) ==> Distinct(Drop(ids, id))
    ensures id !in ids ==> Drop(ids, id) == ids
  {
    if ids != [] {
      var rest := ids[1..];
      DropMeans(rest, id);
      HeadAndTail(ids);
      if Distinct(ids) {
        assert ids[0] !in rest;
        assert forall i, j :: 0 <= i < j < |rest| ==> rest[i] == ids[i + 1] && rest[j] == ids[j + 1];
        assert Distinct(rest);
      }
    }
  }

  lemma {:induction false} MostRecentMeans(ids: seq<Id>)
    ensures Distinct(MostRecent(ids)) && forall x :: x in MostRecent(ids) <==> x in ids
  {
    if ids != [] {
      MostRecentMeans(ids[1..]);
      DropMeans(MostRecent(ids[1..]), ids[0]);
      HeadAndTail(ids);
    }
  }

  /** Cutting a list before or after taking one id out of it leaves the same head. */
  lemma {:induction false} DropFirst(ids: seq<Id>, id: Id, n: nat)
    requires Distinct(ids)
    ensures First(Drop(First(ids, n + 1), id), n) == First(Drop(ids, id), n)
  {
    if |ids| > n + 1 && n > 0 {
      var rest, head := ids[1..], ids[..n + 1];
      assert head[1..] == rest[..n];
      DropTail(ids, id);
      DropTail(head, id);
      if ids[0] == id {
        DropMeans(rest, id);
        DropMeans(rest[..n], id);
      } else {
        DropFirst(rest, id, n - 1);
      }
    }
  }

  lemma DropTail(ids: seq<Id>, id: Id)
    requires ids != []
    ensures ids[0] == id ==> Drop(ids, id) == Drop(ids[1..], id)
    ensures ids[0] != id ==> forall n: nat :: n > 0 ==> First(Drop(ids, id), n) == [ids[0]] + First(Drop(ids[1..], id), n - 1)
  {
  }

  lemma {:induction false} OthersAreDropped(history: seq<Record>, id: Id)
    ensures IdList(Others(history, id)) == Drop(IdList(history), id)
  {
    if history != [] {
      OthersAreDropped(history[1..], id);
    }
  }

  lemma {:induction false} IdListAt(history: seq<Record>)
    ensures |IdList(history)| == |history|
    ensures forall i :: 0 <= i < |history| ==> IdList(history)[i] == history[i].generationId
  {
    if history != [] {
      IdListAt(history[1..]);
    }
  }

  lemma IdListFirst(history: seq<Record>, n: nat)
    requires n <= |history|
    ensures IdList(history[..n]) == IdList(history)[..n]
  {
    IdListAt(history);
    IdListAt(history[..n]);
  }

  /** The bounded move-to-front list is the head of the whole move-to-front list. */
  lemma RetainKeepsMostRecent(history: seq<Record>, record: Record, certified: seq<Id>)
    requires IdList(history) == First(MostRecent(certified), RETAINED)
    ensures IdList(Retain(history, record)) == First(MostRecent([record.generationId] + certified), RETAINED)
  {
    hide Others, Drop, MostRecent;
    var id := record.generationId;
    var inserted := [record] + Others(history, id);
    MostRecentMeans(certified);
    DropFirst(MostRecent(certified), id, RETAINED - 1);
    OthersAreDropped(history, id);
    assert IdList(inserted) == [id] + Drop(IdList(history), id);
    IdListAt(inserted);
    if |inserted| > RETAINED {
      IdListFirst(inserted, RETAINED);
    }
    MostRecentStep(id, certified);
  }

  lemma MostRecentStep(id: Id, certified: seq<Id>)
    ensures MostRecent([id] + certified) == [id] + Drop(MostRecent(certified), id)
  {
    Uncons(id, certified);
  }

  // ---- The invariant ----

  ghost predicate OnDisk(w: World, id: Id) {
    Release(id) in w.disk.dirs
  }

  /** The release directory of `id` holds exactly the files committed under that id. */
  ghost predicate Intact(w: World, id: Id) {
    OnDisk(w, id) && id in w.committed && w.disk.dirs[Release(id)] == w.committed[id]
  }

  ghost predicate Inv(w: World) {
    // a release not torn is intact, a torn one has lost a file
    (forall id :: OnDisk(w, id) ==> id in w.committed)
    && (forall id :: OnDisk(w, id) && id !in w.torn ==> Intact(w, id))
    && (forall id :: id in w.torn ==> OnDisk(w, id) && id in w.committed && |w.disk.dirs[Release(id)]| < |w.committed[id]|)
    // every generation the history holds is intact on disk
    && (forall id :: id in Ids(w.disk.history) ==> Intact(w, id))
    // the history is the head of the certified generations
    && IdList(w.disk.history) == First(MostRecent(w.certified), RETAINED)
    // what is served exists
    && (w.disk.current.Some? ==> OnDisk(w, w.disk.current.value))
  }

  /** What is served is what was committed. */
  ghost predicate Served(w: World) {
    w.disk.current.Some? ==> Intact(w, w.disk.current.value)
  }

  /** In a world keeping the invariant, a release is intact exactly when it is not torn. */
  lemma IntactMeansNotTorn(w: World, id: Id)
    requires Inv(w) && OnDisk(w, id)
    ensures Intact(w, id) <==> id !in w.torn
  {
  }

  /** The steps that keep the invariant. */
  ghost predicate Safe(w: World, step: Step) {
    match step
    case WriteFile(_, _, _) => true
    case WriteJournal(_) => true
    case Commit(token, id) => Scratch(token) in w.disk.dirs && !OnDisk(w, id)
    case Swap(id) => OnDisk(w, id)
    case WriteHistory(record) => OnDisk(w, record.generationId) && record.generationId !in w.torn
    case Unlink(dir, _) => dir.Release? ==> dir.id !in Ids(w.disk.history)
    case RemoveDir(dir) => dir.Release? ==> dir.id !in Ids(w.disk.history) && w.disk.current != Some(dir.id)
  }

  /** The steps that also keep what is served. */
  ghost predicate SafeForServed(w: World, step: Step) {
    match step
    case Swap(id) => id !in w.torn
    case Unlink(dir, _) => dir.Release? ==> w.disk.current != Some(dir.id)
    case _ => true
  }

  lemma SafeKeepsServed(w: World, step: Step)
    requires Inv(w) && Served(w) && Safe(w, step) && SafeForServed(w, step)
    ensures Served(Advance(w, step))
  {
    hide Retain, Delete, Set, MostRecent, First, IdList;
  }

  lemma CommitKeepsInv(w: World, token: Token, id: Id)
    requires Inv(w) && Safe(w, Commit(token, id))
    ensures Inv(Advance(w, Commit(token, id)))
  {
    hide MostRecent, First, IdList, Ids;
    var next := Advance(w, Commit(token, id));
    assert id !in w.torn && id !in Ids(w.disk.history);
    assert Release(id) in next.disk.dirs && Scratch(token) !in next.disk.dirs;
    assert forall other :: other != id ==> (OnDisk(next, other) <==> OnDisk(w, other));
    assert forall other :: other != id && OnDisk(w, other) ==>
      next.disk.dirs[Release(other)] == w.disk.dirs[Release(other)];
  }

  lemma UnlinkKeepsInv(w: World, dir: Dir, path: Text)
    requires Inv(w) && Safe(w, Unlink(dir, path))
    ensures Inv(Advance(w, Unlink(dir, path)))
  {
    hide Delete, MostRecent, First, IdList, Ids;
    var next := Advance(w, Unlink(dir, path));
    assert forall id :: OnDisk(next, id) <==> OnDisk(w, id);
    assert forall id :: OnDisk(w, id) && Release(id) != dir ==>
      next.disk.dirs[Release(id)] == w.disk.dirs[Release(id)];
  }

  lemma HistoryKeepsInv(w: World, record: Record)
    requires Inv(w) && Safe(w, WriteHistory(record))
    ensures Inv(Advance(w, WriteHistory(record)))
  {
    hide MostRecent, First, IdList, Retain, Ids;
    RetainKeepsMostRecent(w.disk.history, record, w.certified);
    RetainedIds(w.disk.history, record);
    var next := Advance(w, WriteHistory(record));
    forall id | id in Ids(next.disk.history) ensures Intact(next, id) {
      assert Intact(w, id);
    }
  }

  lemma RemoveDirKeepsInv(w: World, dir: Dir)
    requires Inv(w) && Safe(w, RemoveDir(dir))
    ensures Inv(Advance(w, RemoveDir(dir)))
  {
    hide MostRecent, First, IdList, Ids;
    var next := Advance(w, RemoveDir(dir));
    assert forall id :: OnDisk(next, id) ==> OnDisk(w, id) && next.disk.dirs[Release(id)] == w.disk.dirs[Release(id)];
    assert forall id :: OnDisk(w, id) && Release(id) != dir ==> OnDisk(next, id);
  }

  lemma WriteKeepsInv(w: World, token: Token, path: Text, bytes: Bytes)
    requires Inv(w)
    ensures Inv(Advance(w, WriteFile(token, path, bytes)))
  {
    hide Set, MostRecent, First, IdList, Ids;
    var next := Advance(w, WriteFile(token, path, bytes));
    assert forall id :: OnDisk(next, id) <==> OnDisk(w, id);
    assert forall id :: OnDisk(w, id) ==> next.disk.dirs[Release(id)] == w.disk.dirs[Release(id)];
  }

  lemma SafeKeepsInv(w: World, step: Step)
    requires Inv(w) && Safe(w, step)
    ensures Inv(Advance(w, step))
  {
    match step
    case WriteFile(token, path, bytes) => WriteKeepsInv(w, token, path, bytes);
    case WriteJournal(_) => QuietStepKeepsInv(w, step);
    case Commit(token, id) => CommitKeepsInv(w, token, id);
    case Swap(_) => QuietStepKeepsInv(w, step);
    case WriteHistory(record) => HistoryKeepsInv(w, record);
    case Unlink(dir, path) => UnlinkKeepsInv(w, dir, path);
    case RemoveDir(dir) => RemoveDirKeepsInv(w, dir);
  }

  lemma QuietStepKeepsInv(w: World, step: Step)
    requires Inv(w) && Safe(w, step) && (step.WriteJournal? || step.Swap?)
    ensures Inv(Advance(w, step))
  {
    hide MostRecent, First, IdList, Ids;
  }

  lemma {:induction false} OthersSubset(history: seq<Record>, id: Id)
    ensures forall r :: r in Others(history, id) ==> r in history && r.generationId != id
  {
    if history != [] {
      OthersSubset(history[1..], id);
    }
  }

  lemma RetainedIds(history: seq<Record>, record: Record)
    ensures forall id :: id in Ids(Retain(history, record)) ==> id == record.generationId || id in Ids(history)
    ensures record.generationId in Ids(Retain(history, record))
    ensures Retain(history, record)[0] == record
  {
    OthersSubset(history, record.generationId);
    assert Retain(history, record)[0] == record;
  }

  // ---- Every step a call can take is safe ----

  /** Each of the steps is safe when its turn comes. */
  ghost predicate AllSafe(w: World, steps: seq<Step>)
    decreases |steps|
  {
    steps == [] || (Safe(w, steps[0]) && AllSafe(Advance(w, steps[0]), steps[1..]))
  }

  ghost predicate AllServe(w: World, steps: seq<Step>)
    decreases |steps|
  {
    steps == [] || (SafeForServed(w, steps[0]) && AllServe(Advance(w, steps[0]), steps[1..]))
  }

  lemma {:induction false} AllSafeKeepsInv(w: World, steps: seq<Step>)
    requires Inv(w) && AllSafe(w, steps)
    ensures Inv(Progress(w, steps))
    decreases |steps|
  {
    hide Inv, Advance, Safe;
    if steps != [] {
      SafeKeepsInv(w, steps[0]);
      AllSafeKeepsInv(Advance(w, steps[0]), steps[1..]);
    }
  }

  lemma {:induction false} AllServeKeepsServed(w: World, steps: seq<Step>)
    requires Inv(w) && Served(w) && AllSafe(w, steps) && AllServe(w, steps)
    ensures Served(Progress(w, steps))
    decreases |steps|
  {
    hide Inv, Advance, Safe, SafeForServed, Served;
    if steps != [] {
      SafeKeepsInv(w, steps[0]);
      SafeKeepsServed(w, steps[0]);
      AllServeKeepsServed(Advance(w, steps[0]), steps[1..]);
    }
  }

  lemma {:induction false} AllSafeAppend(w: World, a: seq<Step>, b: seq<Step>)
    ensures AllSafe(w, a + b) <==> AllSafe(w, a) && AllSafe(Progress(w, a), b)
    ensures AllServe(w, a + b) <==> AllServe(w, a) && AllServe(Progress(w, a), b)
    decreases |a|
  {
    hide Advance, Safe, SafeForServed;
    if a == [] {
      assert a + b == b;
    } else {
      AllSafeAppend(Advance(w, a[0]), a[1..], b);
      assert (a + b)[1..] == a[1..] + b;
    }
  }

  lemma PrefixSafe(w: World, a: seq<Step>, whole: seq<Step>)
    requires a <= whole
    ensures AllSafe(w, whole) ==> AllSafe(w, a)
    ensures AllServe(w, whole) ==> AllServe(w, a)
  {
    AllSafeAppend(w, a, whole[|a|..]);
    assert whole == a + whole[|a|..];
  }
}
