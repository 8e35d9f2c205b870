/**
 Observing an activated generation through public reads that may answer anything: the
 three maps kept between passes, the sampled re-reads, the verdict and the waiting.
 */
module PagesObserve {
  import opened Wrappers
  import opened Utf16
  import opened Utf8
  import opened Digest
  import opened OrderedMap
  import PagesActivation

  const OBSERVE_FIRST_DELAY := 5_000
  const OBSERVE_MAXIMUM_DELAY := 30_000
  const OBSERVE_DEFAULT_MAX_AGE_SECONDS := 600
  const OBSERVE_MAXIMUM_MAX_AGE_SECONDS := 900
  const OBSERVE_MARGIN_SECONDS := 60
  const OBSERVE_SAMPLE_ROUTES := 20
  const OBSERVE_CONFIRM_MAXIMUM_ROUTES := 50
  const OBSERVE_TRANSIENT_STREAK := 3
  const OBSERVE_FINDINGS_NAMED := 10

  // ---- Public reads ----

  /** What the marker read last said; `findings` counts what it found wrong. */
  datatype Served = Served(generationId: Option<Text>, artifactDigest: Option<Text>, findings: nat, maxAge: Option<nat>, redirected: bool)

  const NOTHING_SERVED := Served(None, None, 0, None, false)

  datatype MarkerRead =
    | MarkerSeen(generationId: Option<Text>, artifactDigest: Option<Text>, findings: nat, maxAge: Option<nat>)
    | MarkerRedirected
    | MarkerFailed(code: string)
    | MarkerThrew

  /** A 200 with its bytes, any other status, a redirect, a transient failure, any other failure. */
  datatype RouteRead =
    | Body(bytes: Bytes, maxAge: Option<nat>)
    | OtherStatus(status: int, maxAge: Option<nat>)
    | Redirected(maxAge: Option<nat>)
    | RouteFailed(code: string, text: Text)
    | RouteThrew

  /** The lifetime a route read declares. */
  function AgeOf(read: RouteRead): Option<nat> {
    match read
    case Body(_, age) => age
    case OtherStatus(_, age) => age
    case Redirected(age) => age
    case _ => None
  }

  /** A completed read. */
  datatype Seen = SawMarker(served: Served) | SawBody(path: Text, bytes: Bytes) | SawStatus(path: Text, status: int)

  function CompletedMarker(read: MarkerRead): seq<Seen> {
    match read
    case MarkerSeen(id, digest, findings, maxAge) => [SawMarker(Served(id, digest, findings, maxAge, false))]
    case MarkerRedirected => [SawMarker(Served(None, None, 1, None, true))]
    case _ => []
  }

  function CompletedRoute(path: Text, read: RouteRead): seq<Seen> {
    match read
    case Body(bytes, _) => [SawBody(path, bytes)]
    case OtherStatus(status, _) => [SawStatus(path, status)]
    case _ => []
  }

  /** What reading these routes one after another leaves, from the `from`-th route read on. */
  function ReadLog(paths: seq<Text>, routes: (nat, Text) -> RouteRead, from: nat): seq<Seen> {
    if paths == [] then []
    else
      var n := |paths| - 1;
      ReadLog(paths[..n], routes, from) + CompletedRoute(paths[n], routes(from + n, paths[n]))
  }

  lemma ReadLogSnoc(paths: seq<Text>, path: Text, routes: (nat, Text) -> RouteRead, from: nat)
    ensures ReadLog(paths + [path], routes, from) == ReadLog(paths, routes, from) + CompletedRoute(path, routes(from + |paths|, path))
  {
    assert (paths + [path])[..|paths|] == paths;
  }

  /** The paths outside `skipped`, in order. */
  function Outside(paths: seq<Text>, skipped: seq<Text>): (rest: seq<Text>)
    ensures forall path :: path in rest <==> path in paths && path !in skipped
  {
    if paths == [] then []
    else
      HeadAndTail(paths);
      var tail := Outside(paths[1..], skipped);
      if paths[0] in skipped then tail else [paths[0]] + tail
  }

  lemma OutsideStep(paths: seq<Text>, skipped: seq<Text>, i: nat)
    requires i < |paths|
    ensures Outside(paths[i..], skipped) ==
            if paths[i] in skipped then Outside(paths[i + 1..], skipped) else [paths[i]] + Outside(paths[i + 1..], skipped)
  {
    assert paths[i..][1..] == paths[i + 1..];
  }

  lemma OutsideNothing(paths: seq<Text>, skipped: seq<Text>)
    requires paths == []
    ensures Outside(paths, skipped) == []
  {
  }

  lemma {:induction false} OutsideAll(paths: seq<Text>)
    ensures Outside(paths, []) == paths
  {
    if paths != [] {
      OutsideAll(paths[1..]);
    }
  }

  /** `now` is `before` and what reading these routes left. */
  ghost predicate Logged(before: seq<Seen>, paths: seq<Text>, routes: (nat, Text) -> RouteRead, from: nat, now: seq<Seen>) {
    now == before + ReadLog(paths, routes, from)
  }

  lemma NothingLogged(routes: (nat, Text) -> RouteRead, from: nat, log: seq<Seen>)
    ensures Logged(log, [], routes, from, log)
  {
    assert log + [] == log;
  }

  lemma LoggedNext(before: seq<Seen>, paths: seq<Text>, path: Text, routes: (nat, Text) -> RouteRead, from: nat, now: seq<Seen>)
    requires Logged(before, paths, routes, from, now)
    ensures Logged(before, paths + [path], routes, from, now + CompletedRoute(path, routes(from + |paths|, path)))
  {
    ReadLogSnoc(paths, path, routes, from);
    Regroup(before, ReadLog(paths, routes, from), CompletedRoute(path, routes(from + |paths|, path)));
  }

  lemma DoneFirst(todo: seq<Text>, done: seq<Text>, rest: seq<Text>)
    requires todo == done + rest
    ensures done <= todo && (rest == [] ==> todo == done)
  {
  }

  /** The last completed read of a route. */
  function LastSeen(log: seq<Seen>, path: Text): (last: Option<Seen>)
    ensures last.Some? ==> !last.value.SawMarker? && last.value.path == path
  {
    if log == [] then None
    else
      var last := log[|log| - 1];
      if !last.SawMarker? && last.path == path then Some(last) else LastSeen(log[..|log| - 1], path)
  }

  /** The last completed read of the marker. */
  function LastMarker(log: seq<Seen>): Option<Served> {
    if log == [] then None
    else
      var last := log[|log| - 1];
      if last.SawMarker? then Some(last.served) else LastMarker(log[..|log| - 1])
  }

  lemma LastSnoc(log: seq<Seen>, e: Seen)
    ensures forall path :: LastSeen(log + [e], path) ==
                             if !e.SawMarker? && e.path == path then Some(e) else LastSeen(log, path)
    ensures LastMarker(log + [e]) == if e.SawMarker? then Some(e.served) else LastMarker(log)
  {
    assert (log + [e])[..|log|] == log;
  }

  // ---- What the maps say ----

  /** `new Map(entries.map((entry) => [entry.path, entry]))`: the last of repeated paths wins. */
  function Expected(entries: seq<Keyed<Entry>>, path: Text): Option<Entry> {
    if entries == [] then None
    else
      var last := entries[|entries| - 1];
      if last.key == path then Some(last.val) else Expected(entries[..|entries| - 1], path)
  }

  /** The three maps between passes. */
  datatype Maps = Maps(matched: seq<Keyed<Entry>>, latest: seq<Keyed<Entry>>, statuses: map<Text, int>)

  const NO_MAPS := Maps([], [], map[])

  /** One route is where its last completed read puts it, and nowhere else. */
  ghost predicate Recorded(sha: Sha, entries: seq<Keyed<Entry>>, log: seq<Seen>, m: Maps, path: Text) {
    match LastSeen(log, path)
    case None => Find(m.matched, path).None? && Find(m.latest, path).None? && path !in m.statuses
    case Some(seen) =>
      if seen.SawBody? then
        var entry := ProjectEntry(sha, seen.bytes);
        path !in m.statuses
        && if Expected(entries, path) == Some(entry)
           then Find(m.matched, path) == Some(entry) && Find(m.latest, path).None?
           else Find(m.matched, path).None? && Find(m.latest, path) == Some(entry)
      else
        seen.SawStatus? && Find(m.matched, path).None? && Find(m.latest, path).None?
        && path in m.statuses && m.statuses[path] == seen.status
  }

  ghost predicate Tracks(sha: Sha, paths: seq<Text>, entries: seq<Keyed<Entry>>, log: seq<Seen>, m: Maps) {
    DistinctKeys(m.matched) && DistinctKeys(m.latest)
    && (forall path :: Recorded(sha, entries, log, m, path))
    && (forall path :: LastSeen(log, path).Some? ==> path in paths)
  }

  lemma TracksDistinct(sha: Sha, paths: seq<Text>, entries: seq<Keyed<Entry>>, log: seq<Seen>, m: Maps)
    requires Tracks(sha, paths, entries, log, m)
    ensures DistinctKeys(m.matched) && DistinctKeys(m.latest)
  {
  }

  /** The three maps stay pairwise disjoint and hold only staged routes. */
  lemma TracksDisjoint(sha: Sha, paths: seq<Text>, entries: seq<Keyed<Entry>>, log: seq<Seen>, m: Maps, path: Text)
    requires Tracks(sha, paths, entries, log, m)
    ensures !(Find(m.matched, path).Some? && Find(m.latest, path).Some?)
    ensures !(Find(m.matched, path).Some? && path in m.statuses)
    ensures !(Find(m.latest, path).Some? && path in m.statuses)
    ensures Find(m.matched, path).Some? || Find(m.latest, path).Some? || path in m.statuses <==> LastSeen(log, path).Some?
    ensures LastSeen(log, path).Some? ==> path in paths
  {
    assert Recorded(sha, entries, log, m, path);
  }

  /** A 200 read moves its route to `matched` or `latest`. */
  function AfterBody(entries: seq<Keyed<Entry>>, m: Maps, path: Text, entry: Entry): Maps {
    if Expected(entries, path) == Some(entry) then
      Maps(Set(m.matched, path, entry), Delete(m.latest, path), m.statuses - {path})
    else Maps(Delete(m.matched, path), Set(m.latest, path, entry), m.statuses - {path})
  }

  function AfterStatus(m: Maps, path: Text, status: int): Maps {
    Maps(Delete(m.matched, path), Delete(m.latest, path), m.statuses[path := status])
  }

  /** A 200 read changes no other route, and matches only with the staged entry. */
  lemma BodyKeepsOthers(entries: seq<Keyed<Entry>>, m: Maps, path: Text, entry: Entry)
    requires DistinctKeys(m.matched)
    ensures forall p :: p != path ==> Find(AfterBody(entries, m, path, entry).matched, p) == Find(m.matched, p)
    ensures Find(AfterBody(entries, m, path, entry).matched, path).Some? <==> Expected(entries, path) == Some(entry)
  {
    hide Find, Set, Delete, Expected;
    SetKeys(m.matched, path, entry);
    DeleteKeys(m.matched, path);
  }

  lemma StatusKeepsOthers(m: Maps, path: Text, status: int)
    requires DistinctKeys(m.matched)
    ensures forall p :: p != path ==> Find(AfterStatus(m, path, status).matched, p) == Find(m.matched, p)
    ensures Find(AfterStatus(m, path, status).matched, path).None?
  {
    hide Find, Set, Delete;
    DeleteKeys(m.matched, path);
  }

  lemma BodyTracked(sha: Sha, paths: seq<Text>, entries: seq<Keyed<Entry>>, log: seq<Seen>, m: Maps, path: Text, bytes: Bytes)
    requires Tracks(sha, paths, entries, log, m) && path in paths
    ensures Tracks(sha, paths, entries, log + [SawBody(path, bytes)], AfterBody(entries, m, path, ProjectEntry(sha, bytes)))
  {
    hide Expected, LastSeen, Set, Delete, Find, ProjectEntry;
    var entry := ProjectEntry(sha, bytes);
    var next := log + [SawBody(path, bytes)];
    LastSnoc(log, SawBody(path, bytes));
    SetKeys(m.matched, path, entry);
    SetKeys(m.latest, path, entry);
    DeleteKeys(m.matched, path);
    DeleteKeys(m.latest, path);
    forall p ensures Recorded(sha, entries, next, AfterBody(entries, m, path, entry), p) {
      assert Recorded(sha, entries, log, m, p);
    }
  }

  lemma StatusTracked(sha: Sha, paths: seq<Text>, entries: seq<Keyed<Entry>>, log: seq<Seen>, m: Maps, path: Text, status: int)
    requires Tracks(sha, paths, entries, log, m) && path in paths
    ensures Tracks(sha, paths, entries, log + [SawStatus(path, status)], AfterStatus(m, path, status))
  {
    hide Expected, LastSeen, Set, Delete, Find, ProjectEntry;
    var next := log + [SawStatus(path, status)];
    LastSnoc(log, SawStatus(path, status));
    DeleteKeys(m.matched, path);
    DeleteKeys(m.latest, path);
    forall p ensures Recorded(sha, entries, next, AfterStatus(m, path, status), p) {
      assert Recorded(sha, entries, log, m, p);
    }
  }

  lemma MarkerTracked(sha: Sha, paths: seq<Text>, entries: seq<Keyed<Entry>>, log: seq<Seen>, m: Maps, served: Served)
    requires Tracks(sha, paths, entries, log, m)
    ensures Tracks(sha, paths, entries, log + [SawMarker(served)], m)
  {
    hide Expected, LastSeen, Find, ProjectEntry;
    LastSnoc(log, SawMarker(served));
    forall p ensures Recorded(sha, entries, log + [SawMarker(served)], m, p) {
      assert Recorded(sha, entries, log, m, p);
    }
  }

  lemma NothingTracked(sha: Sha, paths: seq<Text>, entries: seq<Keyed<Entry>>)
    ensures Tracks(sha, paths, entries, [], NO_MAPS)
  {
  }

  // ---- What a full match means ----

  ghost predicate DistinctPaths(paths: seq<Text>) {
    forall i, j :: 0 <= i < j < |paths| ==> paths[i] != paths[j]
  }

  /** Entries staged beside their paths. */
  ghost predicate StagedTogether(paths: seq<Text>, entries: seq<Keyed<Entry>>) {
    |paths| == |entries| && forall i :: 0 <= i < |paths| ==> entries[i].key == paths[i]
  }

  /** What staging records beside its carrier: entries under their paths, digesting to the artifact digest. */
  lemma StagedRecordsTogether(sha: Sha, files: seq<File>)
    requires DistinctKeys(files)
    ensures StagedTogether(PagesActivation.Paths(files), Project(sha, files))
    ensures DistinctPaths(PagesActivation.Paths(files))
    ensures DigestSorted(sha, Sort(Project(sha, files))) == ComputeArtifactDigest(sha, files)
  {
    ProjectAt(sha, files);
  }

  lemma {:induction false} ExpectedAt(entries: seq<Keyed<Entry>>, path: Text)
    requires DistinctKeys(entries)
    ensures forall v :: Keyed(path, v) in entries <==> Expected(entries, path) == Some(v)
  {
    if entries != [] {
      var n := |entries| - 1;
      var front := entries[..n];
      assert entries == front + [entries[n]];
      ExpectedAt(front, path);
    }
  }

  /** When every staged route matches, the maps hold exactly the staged entries. */
  lemma AllMatched(sha: Sha, paths: seq<Text>, entries: seq<Keyed<Entry>>, log: seq<Seen>, m: Maps)
    requires Tracks(sha, paths, entries, log, m) && StagedTogether(paths, entries) && DistinctPaths(paths)
    requires forall path :: path in paths ==> Find(m.matched, path).Some?
    ensures m.latest == [] && multiset(m.matched) == multiset(entries)
    ensures DigestSorted(sha, Sort(m.matched + m.latest)) == DigestSorted(sha, Sort(entries))
    ensures |m.matched + m.latest| == |paths|
  {
    hide Expected, LastSeen, Find, ProjectEntry, DigestSorted, Sort;
    if m.latest != [] {
      var path := m.latest[0].key;
      FindMeans(m.latest, path);
      assert m.latest[0] == Keyed(path, m.latest[0].val) && m.latest[0] in m.latest;
      TracksDisjoint(sha, paths, entries, log, m, path);
      assert false;
    }
    forall x ensures x in m.matched <==> x in entries {
      FindMeans(m.matched, x.key);
      ExpectedAt(entries, x.key);
      assert x == Keyed(x.key, x.val);
      assert Recorded(sha, entries, log, m, x.key);
      if x in entries {
        var i :| 0 <= i < |entries| && entries[i] == x;
        assert paths[i] in paths;
      }
    }
    SameContents(m.matched, entries);
    SortIgnoresOrder(m.matched, entries);
    assert m.matched + m.latest == m.matched;
    assert |multiset(m.matched)| == |multiset(entries)|;
  }

  // ---- The verdict ----

  datatype Finding =
    | OfMarker
    | WrongGeneration
    | MarkerInvalid
    | RouteRedirected(path: Text)
    | NotStaged
    | RouteStatus(path: Text, status: int)
    | RouteStale(path: Text)
    | RouteNotYetRead(path: Text)
    | MoreUnmatched(n: nat)
    | ReadFailed(coordinate: Option<Text>)
    | DigestDisagrees
    | GivingUp

  /** A read that failed in passing: the marker's, or a route's with its message. */
  datatype ReadError = ReadError(path: Option<Text>, text: Text, code: string)

  datatype Attempt = Attempt(
    verified: bool, observedArtifactDigest: Option<Text>, currentGenerationId: Option<Text>, markerValid: bool,
    findings: seq<Finding>, failed: bool, retryable: bool, maxAge: Option<nat>)

  function Unmatched(paths: seq<Text>, m: Maps): (rest: seq<Text>)
    ensures forall path :: path in rest <==> path in paths && Find(m.matched, path).None?
  {
    if paths == [] then []
    else
      var tail := Unmatched(paths[1..], m);
      HeadAndTail(paths);
      if Find(m.matched, paths[0]).Some? then tail else [paths[0]] + tail
  }

  lemma NoneUnmatched(paths: seq<Text>, m: Maps)
    ensures Unmatched(paths, m) == [] <==> forall path :: path in paths ==> Find(m.matched, path).Some?
  {
    hide Find;
    if Unmatched(paths, m) != [] {
      assert Unmatched(paths, m)[0] in Unmatched(paths, m);
    }
  }

  predicate Named(errors: seq<ReadError>, path: Text) {
    exists e :: e in errors && e.path.Some? && path + COLON <= e.path.value + COLON + e.text
  }

  /** `: ` */
  const COLON: Text := [0x3A, 0x20]

  /** The finding about one unmatched route; none when a failed read already names it. */
  function RouteFinding(m: Maps, errors: seq<ReadError>, path: Text): seq<Finding> {
    if path in m.statuses then [RouteStatus(path, m.statuses[path])]
    else if Find(m.latest, path).Some? then [RouteStale(path)]
    else if !Named(errors, path) then [RouteNotYetRead(path)]
    else []
  }

  function ErrorFindings(errors: seq<ReadError>): (r: seq<Finding>)
    ensures |r| == |errors|
  {
    seq(|errors|, i requires 0 <= i < |errors| => ReadFailed(errors[i].path))
  }

  function MarkerFindings(n: nat): (r: seq<Finding>)
    ensures |r| == n
  {
    seq(n, i => OfMarker)
  }

  function DeadlineMs(declared: Option<nat>): (ms: nat)
    ensures 60_000 <= ms <= 960_000
  {
    var age := if declared.Some? then declared.value else OBSERVE_DEFAULT_MAX_AGE_SECONDS;
    ((if age <= OBSERVE_MAXIMUM_MAX_AGE_SECONDS then age else OBSERVE_MAXIMUM_MAX_AGE_SECONDS) + OBSERVE_MARGIN_SECONDS) * 1000
  }

  /** The larger of two ages, where there are any. */
  function Older(a: Option<nat>, b: Option<nat>): (r: Option<nat>)
    ensures r == a || r == b
    ensures a.Some? ==> r.Some? && r.value >= a.value
    ensures b.Some? ==> r.Some? && r.value >= b.value
  {
    if b.Some? && (a.None? || b.value > a.value) then b else a
  }

  /** The deadline of a declared lifetime: ten minutes when there is none, fifteen at most, and a minute over. */
  lemma DeadlineValues(seconds: nat)
    ensures DeadlineMs(None) == 660_000
    ensures seconds <= 900 ==> DeadlineMs(Some(seconds)) == (seconds + 60) * 1000
    ensures seconds >= 900 ==> DeadlineMs(Some(seconds)) == 960_000
  {
  }

  /** The latest deadline of the passes so far, from the age each heard. */
  function Deadline(ages: seq<Option<nat>>): (ms: nat)
    requires ages != []
    ensures 60_000 <= ms <= 960_000
  {
    var last := DeadlineMs(ages[|ages| - 1]);
    if |ages| == 1 then last else if Deadline(ages[..|ages| - 1]) >= last then Deadline(ages[..|ages| - 1]) else last
  }

  function Larger(a: int, b: int): int {
    if a >= b then a else b
  }

  /** What is left before the `k`-th wait, by the naps taken and by the clock. */
  function Left(ages: seq<Option<nat>>, naps: seq<nat>, clock: nat -> int): int
    requires ages != []
  {
    Deadline(ages) - Larger(Total(naps), clock(|naps| + 1) - clock(0))
  }

  /** Each nap is the scheduled one, cut to what was left. */
  ghost predicate NapsFit(ages: seq<Option<nat>>, naps: seq<nat>, clock: nat -> int) {
    |ages| == |naps| + 1
    && forall k :: 0 <= k < |naps| ==>
         naps[k] == if Delay(k) <= Left(ages[..k + 1], naps[..k], clock) then Delay(k) else Left(ages[..k + 1], naps[..k], clock)
  }

  lemma NoNapsFit(age: Option<nat>, clock: nat -> int)
    ensures NapsFit([age], [], clock) && Deadline([age]) == DeadlineMs(age)
  {
  }

  lemma OneMoreNap(ages: seq<Option<nat>>, naps: seq<nat>, clock: nat -> int, wait: nat, age: Option<nat>)
    requires NapsFit(ages, naps, clock)
    requires wait == if Delay(|naps|) <= Left(ages, naps, clock) then Delay(|naps|) else Left(ages, naps, clock)
    ensures NapsFit(ages + [age], naps + [wait], clock)
    ensures Deadline(ages + [age]) == Larger(Deadline(ages), DeadlineMs(age))
  {
    hide Left, Delay, DeadlineMs;
    var more, longer := ages + [age], naps + [wait];
    assert more[..|ages|] == ages && longer[..|naps|] == naps;
    forall k | 0 <= k < |longer|
      ensures longer[k] == if Delay(k) <= Left(more[..k + 1], longer[..k], clock) then Delay(k) else Left(more[..k + 1], longer[..k], clock) {
      if k < |naps| {
        assert more[..k + 1] == ages[..k + 1] && longer[..k] == naps[..k];
      }
    }
  }

  function Total(naps: seq<nat>): nat {
    if naps == [] then 0 else Total(naps[..|naps| - 1]) + naps[|naps| - 1]
  }

  /** The k-th wait before the deadline cuts it: 5, 10, 20, then 30 seconds. */
  function Delay(k: nat): nat {
    if k == 0 then OBSERVE_FIRST_DELAY
    else if Delay(k - 1) * 2 <= OBSERVE_MAXIMUM_DELAY then Delay(k - 1) * 2
    else OBSERVE_MAXIMUM_DELAY
  }

  lemma NapsSoFar(naps: seq<nat>, wait: nat)
    ensures Total([]) == 0 && Total(naps + [wait]) == Total(naps) + wait
    ensures Delay(0) == OBSERVE_FIRST_DELAY && 0 < Delay(|naps|) <= OBSERVE_MAXIMUM_DELAY
    ensures Delay(|naps| + 1) == if Delay(|naps|) * 2 <= OBSERVE_MAXIMUM_DELAY then Delay(|naps|) * 2 else OBSERVE_MAXIMUM_DELAY
  {
    assert (naps + [wait])[..|naps|] == naps;
    DelayBounds(|naps|);
  }

  lemma {:induction false} DelayBounds(k: nat)
    ensures 0 < Delay(k) <= OBSERVE_MAXIMUM_DELAY
  {
    if k > 0 {
      DelayBounds(k - 1);
    }
  }

  // ---- The observer ----

  /** One `observe` call: what was staged, what the origin will answer, what the passes keep. */
  class Observer {
    const sha: Sha
    const generationId: Text
    const expectedDigest: Text
    const entryPaths: Option<seq<Text>>
    const entries: seq<Keyed<Entry>>
    const markers: nat -> MarkerRead
    const routes: (nat, Text) -> RouteRead

    var readCount: nat
    var maps: Maps
    var matchedPass: map<Text, nat>
    var served: Option<Served>
    var markerPass: int
    var pass: nat
    var cursor: nat
    var confirmed: bool
    var errorCode: Option<string>
    var errorStreak: nat

    // of the running pass
    var readErrors: seq<ReadError>
    var seenMaxAge: Option<nat>
    var failed: bool
    var redirectedRoute: Option<Text>

    /** Every completed read of the call. */
    ghost var log: seq<Seen>
    /** The reads made before the running pass, and whether its marker was stuck. */
    ghost var begun: nat
    ghost var stuck: bool

    constructor (sha: Sha, generationId: Text, expectedDigest: Text, entryPaths: Option<seq<Text>>, entries: seq<Keyed<Entry>>,
                 markers: nat -> MarkerRead, routes: (nat, Text) -> RouteRead)
      ensures Valid() && Dated() && log == [] && !failed && pass == 0 && !confirmed
      ensures this.sha == sha && this.generationId == generationId && this.expectedDigest == expectedDigest
      ensures this.entryPaths == entryPaths && this.entries == entries && this.markers == markers && this.routes == routes
    {
      this.sha, this.generationId, this.expectedDigest := sha, generationId, expectedDigest;
      this.entryPaths, this.entries, this.markers, this.routes := entryPaths, entries, markers, routes;
      readCount, maps, matchedPass, served, markerPass, pass, cursor := 0, NO_MAPS, map[], None, -1, 0, 0;
      confirmed, errorCode, errorStreak := false, None, 0;
      readErrors, seenMaxAge, failed, redirectedRoute := [], None, false, None;
      log := [];
      new;
      NothingTracked(sha, Paths(), entries);
    }

    function Paths(): seq<Text> {
      if entryPaths.Some? then entryPaths.value else []
    }

    ghost predicate Valid()
      reads this`maps, this`served, this`log
    {
      Tracks(sha, Paths(), entries, log, maps)
      && match LastMarker(log) {
           case Some(seen) => served == Some(seen)
           case None => served.None? || served == Some(NOTHING_SERVED)
         }
      && (served.Some? && served.value.redirected ==> served.value.findings > 0)
    }

    /** Every match carries the pass that saw it. */
    ghost predicate Dated()
      reads this`maps, this`matchedPass
    {
      forall path :: Find(maps.matched, path).Some? ==> path in matchedPass
    }

    /** The marker and every staged route that matches were last read in this pass. */
    ghost predicate FreshlyRead(now: nat)
      reads this`maps, this`matchedPass, this`markerPass
    {
      markerPass >= now
      && forall path :: path in Paths() ==> SeenSince(path, now)
    }

    /** A redirect of this pass always leaves a finding. */
    ghost predicate RedirectNoted()
      reads this`failed, this`redirectedRoute, this`served
    {
      failed ==> redirectedRoute.Some? || (served.Some? && served.value.findings > 0)
    }

    predicate MarkerMatches()
      reads this`served
    {
      served.Some? && served.value.generationId == Some(generationId) && served.value.artifactDigest == Some(expectedDigest)
    }

    /** The latest completed reads of the marker and of every staged route are the staged ones. */
    ghost predicate Confirmed()
      reads this`log
    {
      LastMarker(log).Some?
      && LastMarker(log).value.generationId == Some(generationId) && LastMarker(log).value.artifactDigest == Some(expectedDigest)
      && LastMarker(log).value.findings == 0
      && entryPaths.Some?
      && (forall path :: path in entryPaths.value ==>
            LastSeen(log, path).Some? && LastSeen(log, path).value.SawBody?
            && Expected(entries, path) == Some(ProjectEntry(sha, LastSeen(log, path).value.bytes)))
      && (DistinctPaths(Paths()) && StagedTogether(Paths(), entries) ==> DigestSorted(sha, Sort(entries)) == expectedDigest)
    }

    /** A marker read that names the staged generation and finds nothing wrong. */
    predicate GoodMarker(read: MarkerRead) {
      read.MarkerSeen? && read.generationId == Some(generationId) && read.artifactDigest == Some(expectedDigest) && read.findings == 0
    }

    /** A route read that brings the staged bytes. */
    predicate GoodRoute(path: Text, read: RouteRead) {
      read.Body? && Expected(entries, path) == Some(ProjectEntry(sha, read.bytes))
    }

    /** From the `n`-th read on the origin serves what was staged. */
    ghost predicate GoodFrom(n: nat) {
      forall i: nat :: i >= n ==> GoodMarker(markers(i)) && GoodRoutes(i)
    }

    ghost predicate GoodRoutes(i: nat) {
      forall path :: path in Paths() ==> GoodRoute(path, routes(i, path))
    }

    /** The marker matches and nothing is wrong with it. */
    predicate MarkerSettled()
      reads this`served
    {
      MarkerMatches() && served.value.findings == 0
    }

    /** The marker matches, so it is not asked for again, but something is wrong with it. */
    predicate MarkerStuck()
      reads this`served
    {
      MarkerMatches() && served.value.findings > 0
    }

    /** Whether a route matches. */
    predicate Has(path: Text)
      reads this`maps
    {
      Find(maps.matched, path).Some?
    }

    method ReadMarker(now: nat) returns (threw: bool)
      requires Valid() && !failed
      modifies this`readCount, this`served, this`markerPass, this`readErrors, this`failed, this`seenMaxAge, this`log
      ensures Valid() && RedirectNoted() && (!threw || old(served.Some?) ==> served.Some?)
      ensures readCount == old(readCount) + 1 && log == old(log) + CompletedMarker(markers(old(readCount)))
      ensures old(readErrors) <= readErrors
      ensures !threw && readErrors == old(readErrors) ==> markerPass == now
      ensures !threw ==> seenMaxAge == Older(old(seenMaxAge), served.value.maxAge)
      ensures GoodMarker(markers(old(readCount))) ==> !threw && !failed && MarkerSettled() && readErrors == old(readErrors)
    {
      hide Tracks, NO_MAPS;
      threw := false;
      var read := markers(readCount);
      readCount := readCount + 1;
      match read {
      case MarkerThrew =>
        return true;
      case MarkerFailed(code) =>
        readErrors := readErrors + [ReadError(None, [], code)];
        if served.None? {
          served := Some(NOTHING_SERVED);
        }
      case MarkerRedirected =>
        served, markerPass := Some(Served(None, None, 1, None, true)), now;
        MarkerTracked(sha, Paths(), entries, log, maps, served.value);
        LastSnoc(log, SawMarker(served.value));
        log := log + [SawMarker(served.value)];
      case MarkerSeen(id, digest, findings, maxAge) =>
        served, markerPass := Some(Served(id, digest, findings, maxAge, false)), now;
        MarkerTracked(sha, Paths(), entries, log, maps, served.value);
        LastSnoc(log, SawMarker(served.value));
        log := log + [SawMarker(served.value)];
      }
      if served.value.redirected {
        failed := true;
      }
      seenMaxAge := Older(seenMaxAge, served.value.maxAge);
    }

    /** If the route matches, a pass from `now` on saw it. */
    ghost predicate SeenSince(path: Text, now: nat)
      reads this`maps, this`matchedPass
    {
      Find(maps.matched, path).Some? ==> path in matchedPass && matchedPass[path] >= now
    }

    /** `answered` is false when the origin redirects. */
    method ReadRoute(path: Text, now: nat) returns (threw: bool, answered: bool)
      requires Valid() && path in Paths()
      modifies this`readCount, this`maps, this`matchedPass, this`readErrors, this`failed, this`redirectedRoute, this`seenMaxAge, this`log
      ensures Valid() && LastMarker(log) == old(LastMarker(log))
      ensures readCount == old(readCount) + 1 && log == old(log) + CompletedRoute(path, routes(old(readCount), path))
      ensures routes(old(readCount), path).Redirected? <==> !threw && !answered
      ensures seenMaxAge == Older(old(seenMaxAge), AgeOf(routes(old(readCount), path)))
      ensures old(RedirectNoted()) ==> RedirectNoted()
      ensures if threw || answered then failed == old(failed) else failed && redirectedRoute == Some(path)
      ensures old(readErrors) <= readErrors
      ensures old(Dated()) ==> Dated()
      ensures forall other, since :: other != path && old(SeenSince(other, since)) ==> SeenSince(other, since)
      ensures !threw && answered && readErrors == old(readErrors) ==> SeenSince(path, now)
      ensures GoodRoute(path, routes(old(readCount), path)) ==> !threw && answered && readErrors == old(readErrors) && Has(path)
      ensures forall other :: other != path ==> (Has(other) <==> old(Has(other)))
    {
      hide Tracks, Find, Expected, AfterBody, AfterStatus, LastSeen, LastMarker, ProjectEntry;
      TracksDistinct(sha, Paths(), entries, log, maps);
      threw, answered := false, true;
      var read := routes(readCount, path);
      readCount := readCount + 1;
      match read {
      case RouteThrew =>
        threw := true;
      case RouteFailed(code, text) =>
        readErrors := readErrors + [ReadError(Some(path), text, code)];
      case Redirected(maxAge) =>
        seenMaxAge := Older(seenMaxAge, maxAge);
        failed, redirectedRoute := true, Some(path);
        answered := false;
      case OtherStatus(status, maxAge) =>
        seenMaxAge := Older(seenMaxAge, maxAge);
        StatusTracked(sha, Paths(), entries, log, maps, path, status);
        StatusKeepsOthers(maps, path, status);
        LastSnoc(log, SawStatus(path, status));
        maps := AfterStatus(maps, path, status);
        log := log + [SawStatus(path, status)];
      case Body(bytes, maxAge) =>
        seenMaxAge := Older(seenMaxAge, maxAge);
        var entry := ProjectEntry(sha, bytes);
        BodyTracked(sha, Paths(), entries, log, maps, path, bytes);
        BodyKeepsOthers(entries, maps, path, entry);
        LastSnoc(log, SawBody(path, bytes));
        if Expected(entries, path) == Some(entry) {
          matchedPass := matchedPass[path := now];
        }
        maps := AfterBody(entries, maps, path, entry);
        log := log + [SawBody(path, bytes)];
      }
    }

    /** The routes of `paths` outside `skipped`, until one redirects. */
    method ReadRoutes(paths: seq<Text>, skipped: seq<Text>, now: nat) returns (threw: bool, redirected: bool, ghost done: seq<Text>)
      requires Valid() && forall path :: path in paths ==> path in Paths()
      modifies this`readCount, this`maps, this`matchedPass, this`readErrors, this`failed, this`redirectedRoute, this`seenMaxAge, this`log
      ensures Valid() && LastMarker(log) == old(LastMarker(log))
      ensures old(RedirectNoted()) ==> RedirectNoted()
      ensures if threw || !redirected then failed == old(failed) else failed && redirectedRoute.Some?
      ensures old(readErrors) <= readErrors
      ensures old(Dated()) ==> Dated()
      ensures done <= Outside(paths, skipped) && (!threw && !redirected ==> done == Outside(paths, skipped))
      ensures readCount == old(readCount) + |done| && Logged(old(log), done, routes, old(readCount), log)
      ensures GoodFrom(old(readCount)) ==>
                !threw && !redirected && readErrors == old(readErrors)
                && (forall path :: path in Outside(paths, skipped) || old(Has(path)) ==> Has(path))
    {
      hide Valid, RedirectNoted, Dated, LastMarker, CompletedRoute, Outside, ReadLog, SeenSince, GoodFrom, GoodRoute, Has, Logged;
      hide Tracks, Find, GoodMarker, GoodRoutes, Expected, MarkerMatches;
      threw, redirected := false, false;
      ghost var todo := Outside(paths, skipped);
      done := [];
      NothingLogged(routes, readCount, log);
      assert paths[0..] == paths;
      var i := 0;
      while i < |paths|
        invariant 0 <= i <= |paths| && !threw && (old(Dated()) ==> Dated())
        invariant readCount == old(readCount) + |done| && todo == done + Outside(paths[i..], skipped)
        invariant Logged(old(log), done, routes, old(readCount), log)
        invariant Valid() && LastMarker(log) == old(LastMarker(log))
        invariant old(RedirectNoted()) ==> RedirectNoted()
        invariant failed == old(failed)
        invariant old(readErrors) <= readErrors
        invariant GoodFrom(old(readCount)) ==>
                    readErrors == old(readErrors) && forall path :: path in done || old(Has(path)) ==> Has(path)
      {
        OutsideStep(paths, skipped, i);
        if paths[i] !in skipped {
          GoodAt(old(readCount), readCount, paths[i]);
          LoggedNext(old(log), done, paths[i], routes, old(readCount), log);
          Regroup(done, [paths[i]], Outside(paths[i + 1..], skipped));
          done := done + [paths[i]];
          var answered;
          threw, answered := ReadRoute(paths[i], now);
          if threw || !answered {
            DoneFirst(todo, done, Outside(paths[i + 1..], skipped));
            return threw, !answered, done;
          }
        }
        i := i + 1;
      }
      OutsideNothing(paths[i..], skipped);
      DoneFirst(todo, done, []);
    }

    lemma GoodAt(n: nat, i: nat, path: Text)
      requires i >= n && path in Paths()
      ensures GoodFrom(n) ==> GoodFrom(i) && GoodMarker(markers(i)) && GoodRoute(path, routes(i, path))
    {
      hide GoodMarker, GoodRoute;
      assert GoodFrom(n) ==> GoodRoutes(i);
    }

    lemma GoodLater(n: nat, i: nat)
      requires i >= n
      ensures GoodFrom(n) ==> GoodFrom(i) && GoodMarker(markers(i))
    {
      hide GoodMarker, GoodRoutes;
    }

    /** A rotating sample of the unmatched routes; all of them on the first pass. */
    method Sample(unmatched: seq<Text>, now: nat) returns (sample: seq<Text>)
      modifies this`cursor
      ensures forall path :: path in sample ==> path in unmatched
      ensures now == 0 || |unmatched| <= OBSERVE_SAMPLE_ROUTES ==> sample == unmatched && cursor == old(cursor)
      ensures now > 0 && |unmatched| > OBSERVE_SAMPLE_ROUTES ==>
                |sample| == OBSERVE_SAMPLE_ROUTES && cursor == old(cursor) + OBSERVE_SAMPLE_ROUTES
                && forall k :: 0 <= k < OBSERVE_SAMPLE_ROUTES ==> sample[k] == unmatched[(old(cursor) % |unmatched| + k) % |unmatched|]
    {
      sample := unmatched;
      if now > 0 && |unmatched| > OBSERVE_SAMPLE_ROUTES {
        var n := |unmatched|;
        var start := cursor % n;
        sample := [];
        var offset := 0;
        while offset < OBSERVE_SAMPLE_ROUTES
          invariant 0 <= offset <= OBSERVE_SAMPLE_ROUTES && |sample| == offset
          invariant forall k :: 0 <= k < offset ==> sample[k] == unmatched[(start + k) % n]
        {
          sample := sample + [unmatched[(start + offset) % n]];
          offset := offset + 1;
        }
        cursor := cursor + OBSERVE_SAMPLE_ROUTES;
      }
    }

    /** Re-read what earlier passes matched, just before success. */
    method Reconfirm(now: nat) returns (threw: bool)
      requires Valid() && Dated() && served.Some? && !failed
      modifies this
      ensures GoodFrom(old(readCount)) && old(MarkerSettled()) ==>
                !threw && !failed && readErrors == old(readErrors) && MarkerSettled()
                && forall path :: old(Has(path)) ==> Has(path)
      ensures readCount >= old(readCount)
      ensures old(log) <= log && confirmed && Dated() && (!threw && !failed && readErrors == old(readErrors) ==> FreshlyRead(now))
      ensures old(readErrors) <= readErrors
      ensures Valid() && RedirectNoted() && served.Some? && pass == old(pass) && errorStreak == old(errorStreak) && errorCode == old(errorCode)
    {
      hide Valid, RedirectNoted, LastMarker, Find, CompletedRoute, CompletedMarker, GoodFrom, GoodMarker, MarkerSettled;
      threw := false;
      confirmed := true;
      NotFailedNoted();
      GoodLater(readCount, readCount);
      GoodLater(readCount, readCount + 1);
      if markerPass < now {
        threw := ReadMarker(now);
        if threw {
          return;
        }
      }
      threw := Reread(now);
    }

    /** Read again every route whose match an earlier pass saw. */
    method Reread(now: nat) returns (threw: bool)
      requires Valid() && Dated() && RedirectNoted() && served.Some?
      modifies this`readCount, this`maps, this`matchedPass, this`readErrors, this`failed, this`redirectedRoute, this`seenMaxAge, this`log
      ensures Valid() && Dated() && RedirectNoted() && old(log) <= log && old(readErrors) <= readErrors
      ensures !threw && !failed && readErrors == old(readErrors) ==> forall path :: path in Paths() ==> SeenSince(path, now)
      ensures readCount >= old(readCount)
      ensures GoodFrom(old(readCount)) ==>
                !threw && failed == old(failed) && readErrors == old(readErrors) && forall path :: old(Has(path)) ==> Has(path)
    {
      hide Valid, Dated, RedirectNoted, LastMarker, CompletedRoute, SeenSince, GoodFrom, GoodRoute, Has;
      threw := false;
      var paths, i := Paths(), 0;
      while i < |paths|
        invariant 0 <= i <= |paths| && !threw && Valid() && Dated() && RedirectNoted()
        invariant old(log) <= log && old(readErrors) <= readErrors && failed == old(failed)
        invariant readErrors == old(readErrors) ==> forall k :: 0 <= k < i ==> SeenSince(paths[k], now)
        invariant readCount >= old(readCount)
        invariant GoodFrom(old(readCount)) ==> readErrors == old(readErrors) && forall path :: old(Has(path)) ==> Has(path)
      {
        if paths[i] in matchedPass && matchedPass[paths[i]] < now {
          GoodAt(old(readCount), readCount, paths[i]);
          var answered;
          threw, answered := ReadRoute(paths[i], now);
          if threw || !answered {
            return;
          }
        } else {
          DatedAt(paths[i], now);
        }
        i := i + 1;
      }
    }

    lemma DatedAt(path: Text, now: nat)
      requires Dated() && (path in matchedPass ==> matchedPass[path] >= now)
      ensures SeenSince(path, now)
    {
    }

    /** The sample of a pass: what `Sample` picks, as a value. */
    ghost predicate Sampled(sample: seq<Text>, unmatched: seq<Text>, now: nat, start: nat) {
      if now == 0 || |unmatched| <= OBSERVE_SAMPLE_ROUTES then sample == unmatched
      else |sample| == OBSERVE_SAMPLE_ROUTES
           && forall k :: 0 <= k < OBSERVE_SAMPLE_ROUTES ==> sample[k] == unmatched[(start % |unmatched| + k) % |unmatched|]
    }

    /** The routes of one pass: the sample, the rest once the sample matches, the confirmation before success. */
    method ReadStaged(now: nat) returns (threw: bool, ghost sample: seq<Text>)
      requires Valid() && Dated() && RedirectNoted() && served.Some? && !failed && entryPaths.Some?
      modifies this
      ensures Valid() && Dated() && RedirectNoted() && served.Some?
      ensures pass == old(pass) && errorStreak == old(errorStreak) && errorCode == old(errorCode)
      ensures Sampled(sample, old(Unmatched(Paths(), maps)), now, old(cursor))
      ensures !threw && !failed ==> old(log) + ReadLog(sample, routes, old(readCount)) <= log
      ensures !threw && !failed && now == 0 ==> log == old(log) + ReadLog(sample, routes, old(readCount))
      ensures !threw && !failed && !old(confirmed) && confirmed && readErrors == [] ==> FreshlyRead(now)
      ensures (now > 0 && !threw && !failed && |Paths()| <= OBSERVE_CONFIRM_MAXIMUM_ROUTES && readErrors == []
               && MarkerMatches() && Unmatched(Paths(), maps) == []) ==> confirmed
      ensures GoodFrom(old(readCount)) && old(MarkerSettled()) ==>
                !threw && !failed && readErrors == old(readErrors) && MarkerSettled()
                && forall path :: path in Paths() ==> Has(path)
    {
      hide Valid, Dated, RedirectNoted, LastMarker, Find, Unmatched, MarkerMatches, CompletedMarker, CompletedRoute, ReadLog, Outside, FreshlyRead;
      hide GoodFrom, Has;
      var paths := entryPaths.value;
      var unmatched := Unmatched(paths, maps);
      UnmatchedWithin(paths, maps);
      AllHave(paths);
      var picked := Sample(unmatched, now);
      sample := picked;
      var redirected;
      OutsideAll(picked);
      ghost var done;
      threw, redirected, done := ReadRoutes(picked, [], now);
      if threw {
        return;
      }
      ghost var sampled := log;
      GoodLater(old(readCount), readCount);
      AllHave(picked);
      if !redirected && |picked| < |unmatched| && MarkerMatches() && Unmatched(picked, maps) == [] {
        threw, redirected, done := ReadRoutes(unmatched, picked, now);
        if threw {
          return;
        }
        GoodLater(old(readCount), readCount);
      }
      AllHave(paths);
      if !redirected && !confirmed && now > 0 && |paths| <= OBSERVE_CONFIRM_MAXIMUM_ROUTES && readErrors == []
         && MarkerMatches() && Unmatched(paths, maps) == [] {
        threw := Reconfirm(now);
      }
      assert sampled <= log;
    }

    lemma AllHave(paths: seq<Text>)
      ensures Unmatched(paths, maps) == [] <==> forall path :: path in paths ==> Has(path)
      ensures forall path :: path in paths ==> path in Unmatched(paths, maps) || Has(path)
    {
      NoneUnmatched(paths, maps);
    }

    lemma UnmatchedWithin(paths: seq<Text>, m: Maps)
      ensures forall path :: path in Unmatched(paths, m) ==> path in paths
    {
    }

    /** The reads of one pass. */
    method ReadPass(now: nat) returns (threw: bool, ghost sample: seq<Text>)
      requires Valid() && Dated()
      modifies this
      ensures Valid() && Dated() && RedirectNoted() && (!threw ==> served.Some?)
      ensures pass == old(pass) && errorStreak == old(errorStreak) && errorCode == old(errorCode)
      ensures Sampled(sample, old(Unmatched(Paths(), maps)), now, old(cursor))
      ensures !threw && !failed && entryPaths.Some? ==>
                var matched := old(MarkerMatches());
                var marker := if matched then [] else CompletedMarker(markers(old(readCount)));
                var first := old(readCount) + (if matched then 0 else 1);
                old(log) + marker + ReadLog(sample, routes, first) <= log
                && (now == 0 ==> log == old(log) + marker + ReadLog(sample, routes, first))
      ensures !threw && !failed && entryPaths.Some? && !old(confirmed) && confirmed && readErrors == [] ==> FreshlyRead(now)
      ensures (now > 0 && !threw && !failed && entryPaths.Some? && |Paths()| <= OBSERVE_CONFIRM_MAXIMUM_ROUTES && readErrors == []
               && MarkerMatches() && Unmatched(Paths(), maps) == []) ==> confirmed
      ensures GoodFrom(old(readCount)) && !old(MarkerStuck()) ==>
                !threw && !failed && readErrors == [] && MarkerSettled()
                && (entryPaths.Some? ==> forall path :: path in Paths() ==> Has(path))
    {
      hide Valid, Dated, RedirectNoted, LastMarker, Find, Unmatched, MarkerMatches, CompletedMarker, CompletedRoute, ReadLog, FreshlyRead, Sampled;
      hide GoodFrom, GoodMarker, Has;
      threw := false;
      GoodLater(readCount, readCount);
      GoodLater(readCount, readCount + 1);
      sample := SampleExists(Unmatched(Paths(), maps), now, cursor);
      readErrors, seenMaxAge, failed, redirectedRoute := [], None, false, None;
      NotFailedNoted();
      MatchingIsServed();
      if !MarkerMatches() {
        threw := ReadMarker(now);
        if threw {
          return;
        }
      }
      if !failed && entryPaths.Some? {
        threw, sample := ReadStaged(now);
      }
    }

    lemma SampleExists(unmatched: seq<Text>, now: nat, start: nat) returns (sample: seq<Text>)
      ensures Sampled(sample, unmatched, now, start)
    {
      if now == 0 || |unmatched| <= OBSERVE_SAMPLE_ROUTES {
        sample := unmatched;
      } else {
        var n := |unmatched|;
        sample := seq(OBSERVE_SAMPLE_ROUTES, k requires 0 <= k < OBSERVE_SAMPLE_ROUTES => unmatched[(start % n + k) % n]);
      }
    }

    lemma MatchingIsServed()
      ensures MarkerMatches() ==> served.Some?
    {
    }

    lemma NotFailedNoted()
      requires !failed
      ensures RedirectNoted()
    {
    }

    /** What a finding says of a route is what its last completed read was. */
    ghost predicate Truthful(findings: seq<Finding>)
      reads this`log
    {
      forall f :: f in findings ==>
        match f {
          case RouteStatus(path, status) => LastSeen(log, path) == Some(SawStatus(path, status))
          case RouteStale(path) =>
            LastSeen(log, path).Some? && LastSeen(log, path).value.SawBody?
            && Expected(entries, path) != Some(ProjectEntry(sha, LastSeen(log, path).value.bytes))
          case _ => true
        }
    }

    function NextFinding(path: Text): (r: seq<Finding>)
      requires Valid() && Find(maps.matched, path).None?
      reads this`maps, this`served, this`log, this`readErrors
      ensures Truthful(r) && (readErrors == [] ==> |r| == 1)
      ensures var seen := LastSeen(log, path);
              if seen.None? then r == (if Named(readErrors, path) then [] else [RouteNotYetRead(path)])
              else if seen.value.SawStatus? then r == [RouteStatus(path, seen.value.status)]
              else r == [RouteStale(path)]
    {
      assert Recorded(sha, entries, log, maps, path);
      RouteFinding(maps, readErrors, path)
    }

    /** The findings about the unmatched routes, the first ten by name. */
    method NameRoutes(unmatchedNow: seq<Text>) returns (findings: seq<Finding>)
      requires Valid() && forall path :: path in unmatchedNow ==> Find(maps.matched, path).None?
      ensures Truthful(findings)
      ensures unmatchedNow == [] ==> findings == []
      ensures unmatchedNow != [] && readErrors == [] ==> findings != []
      ensures forall k :: 0 <= k < |unmatchedNow| && k < OBSERVE_FINDINGS_NAMED ==>
                forall f :: f in NextFinding(unmatchedNow[k]) ==> f in findings
      ensures |unmatchedNow| > OBSERVE_FINDINGS_NAMED ==> MoreUnmatched(|unmatchedNow| - OBSERVE_FINDINGS_NAMED) in findings
    {
      hide Valid, Truthful, Find;
      NoFindingsTruthful();
      findings := [];
      var i := 0;
      while i < |unmatchedNow| && i < OBSERVE_FINDINGS_NAMED
        invariant 0 <= i <= |unmatchedNow| && (readErrors == [] ==> |findings| >= i)
        invariant i == 0 ==> findings == []
        invariant Truthful(findings)
        invariant forall k :: 0 <= k < i ==> forall f :: f in NextFinding(unmatchedNow[k]) ==> f in findings
      {
        TruthfulTogether(findings, NextFinding(unmatchedNow[i]));
        findings := findings + NextFinding(unmatchedNow[i]);
        i := i + 1;
      }
      if |unmatchedNow| > OBSERVE_FINDINGS_NAMED {
        var more := [MoreUnmatched(|unmatchedNow| - OBSERVE_FINDINGS_NAMED)];
        SilentTruthful(more);
        TruthfulTogether(findings, more);
        findings := findings + more;
      }
    }

    lemma NoFindingsTruthful()
      ensures Truthful([])
    {
    }

    lemma TruthfulTogether(a: seq<Finding>, b: seq<Finding>)
      requires Truthful(a) && Truthful(b)
      ensures Truthful(a + b)
    {
    }

    lemma SilentTruthful(findings: seq<Finding>)
      requires forall f :: f in findings ==> !f.RouteStatus? && !f.RouteStale?
      ensures Truthful(findings)
    {
    }

    /** How many passes in a row will have failed with the code this one failed with first. */
    function Streak(): nat
      reads this`readErrors, this`errorCode, this`errorStreak
    {
      if readErrors == [] then 0 else if errorCode == Some(readErrors[0].code) then errorStreak + 1 else 1
    }

    /** Consecutive passes failing with one code; true when there are too many. */
    method CountStreak() returns (giveUp: bool)
      modifies this`errorStreak, this`errorCode
      ensures errorStreak == old(Streak())
      ensures readErrors == [] ==> errorStreak == 0
      ensures readErrors != [] ==>
                errorStreak == if old(errorCode) == Some(readErrors[0].code) then old(errorStreak) + 1 else 1
      ensures errorCode == if readErrors == [] then None else Some(readErrors[0].code)
      ensures giveUp <==> errorStreak >= OBSERVE_TRANSIENT_STREAK
    {
      var code := if readErrors == [] then None else Some(readErrors[0].code);
      errorStreak := if code.None? then 0 else if code == errorCode then errorStreak + 1 else 1;
      errorCode := code;
      giveUp := errorStreak >= OBSERVE_TRANSIENT_STREAK;
    }

    /** The verdict on the routes: the unmatched ones, the failed reads, the digest of the whole set. */
    method JudgeRoutes(paths: seq<Text>) returns (findings: seq<Finding>, allMatched: bool, observed: Option<Text>)
      requires Valid()
      ensures Truthful(findings)
      ensures allMatched <==> forall path :: path in paths ==> Has(path)
      ensures observed ==
              if |maps.matched + maps.latest| == |paths| then Some(DigestSorted(sha, Sort(maps.matched + maps.latest))) else None
      ensures findings == [] <==> readErrors == [] && allMatched && observed in {None, Some(expectedDigest)}
    {
      hide Find, DigestSorted, Sort, Valid, Truthful, Unmatched;
      var unmatchedNow := Unmatched(paths, maps);
      NoneUnmatched(paths, maps);
      allMatched, observed := unmatchedNow == [], None;
      findings := NameRoutes(unmatchedNow);
      SilentTruthful(ErrorFindings(readErrors));
      TruthfulTogether(findings, ErrorFindings(readErrors));
      findings := findings + ErrorFindings(readErrors);
      var coherent := maps.matched + maps.latest;
      if |coherent| == |paths| {
        observed := Some(DigestSorted(sha, Sort(coherent)));
        if observed.value != expectedDigest {
          SilentTruthful([DigestDisagrees]);
          TruthfulTogether(findings, [DigestDisagrees]);
          findings := findings + [DigestDisagrees];
        }
      }
    }

    /** The verdict on what the passes hold. */
    method Judge() returns (a: Attempt)
      requires Valid() && RedirectNoted() && served.Some?
      modifies this`errorStreak, this`errorCode
      ensures a.verified <==>
                && !failed && entryPaths.Some? && MarkerMatches() && served.value.findings == 0 && readErrors == []
                && (forall path :: path in entryPaths.value ==> Has(path))
                && (|maps.matched + maps.latest| == |entryPaths.value| ==>
                      DigestSorted(sha, Sort(maps.matched + maps.latest)) == expectedDigest)
      ensures a.verified <==> a.findings == []
      ensures Truthful(a.findings)
      ensures a.retryable <==>
                && !failed && entryPaths.Some?
                && !(MarkerMatches() && forall path :: path in entryPaths.value ==> Has(path))
                && old(Streak()) < OBSERVE_TRANSIENT_STREAK
      ensures if failed || entryPaths.None? then errorStreak == old(errorStreak) && errorCode == old(errorCode)
              else errorStreak == old(Streak()) && errorCode == if readErrors == [] then None else Some(readErrors[0].code)
      ensures a.maxAge == seenMaxAge && a.currentGenerationId == served.value.generationId && (a.markerValid <==> MarkerMatches())
      ensures a.observedArtifactDigest ==
              if !failed && entryPaths.Some? && |maps.matched + maps.latest| == |entryPaths.value|
              then Some(DigestSorted(sha, Sort(maps.matched + maps.latest))) else None
    {
      hide Find, DigestSorted, Sort, Valid, Truthful, Unmatched, NOTHING_SERVED, Has;
      var findings := MarkerFindings(served.value.findings);
      if served.value.generationId != Some(generationId) {
        findings := findings + [WrongGeneration];
      }
      var markerValid := MarkerMatches();
      if !markerValid {
        findings := findings + [MarkerInvalid];
      }
      assert findings == [] <==> MarkerMatches() && served.value.findings == 0;
      SilentTruthful(findings);
      var retryable := true;
      var observed: Option<Text> := None;
      if failed {
        retryable := false;
        if redirectedRoute.Some? {
          SilentTruthful([RouteRedirected(redirectedRoute.value)]);
          TruthfulTogether(findings, [RouteRedirected(redirectedRoute.value)]);
          findings := findings + [RouteRedirected(redirectedRoute.value)];
        }
      } else if entryPaths.None? {
        retryable := false;
        SilentTruthful([NotStaged]);
        TruthfulTogether(findings, [NotStaged]);
        findings := findings + [NotStaged];
      } else {
        var found, allMatched;
        found, allMatched, observed := JudgeRoutes(entryPaths.value);
        TruthfulTogether(findings, found);
        findings := findings + found;
        if allMatched && markerValid {
          retryable := false;
        }
        var giveUp := CountStreak();
        if giveUp {
          retryable := false;
          SilentTruthful([GivingUp]);
          TruthfulTogether(findings, [GivingUp]);
          findings := findings + [GivingUp];
        }
      }
      a := Attempt(findings == [], observed, served.value.generationId, markerValid, findings, failed, retryable, seenMaxAge);
    }

    /** The generation was staged here under its digest, each route once. */
    ghost predicate Staged() {
      entryPaths.Some? && DistinctPaths(Paths()) && StagedTogether(Paths(), entries)
      && DigestSorted(sha, Sort(entries)) == expectedDigest
    }

    lemma StagedDigests()
      requires Valid() && Staged() && forall path :: path in Paths() ==> Has(path)
      ensures DigestSorted(sha, Sort(maps.matched + maps.latest)) == expectedDigest
    {
      hide Tracks, DigestSorted, Sort, Find, DistinctPaths, StagedTogether;
      AllMatched(sha, Paths(), entries, log, maps);
    }

    method ObserveOnce() returns (threw: bool, a: Attempt)
      requires Valid() && Dated()
      modifies this
      ensures !threw ==> served.Some? && a.maxAge == seenMaxAge
                         && a.currentGenerationId == served.value.generationId && (a.markerValid <==> MarkerMatches())
      ensures begun == old(readCount) && (stuck <==> old(MarkerStuck()))
      ensures Staged() && GoodFrom(begun) && !stuck ==> !threw && a.verified
      ensures Valid() && Dated() && pass == old(pass) + 1
      ensures !threw && a.verified ==> Confirmed() && !failed
      ensures !threw && a.verified && !old(confirmed) && confirmed ==> FreshlyRead(old(pass))
      ensures !threw && a.verified && old(pass) > 0 && |Paths()| <= OBSERVE_CONFIRM_MAXIMUM_ROUTES ==> confirmed
      ensures !threw && a.verified && DistinctPaths(Paths()) && StagedTogether(Paths(), entries) ==>
                a.observedArtifactDigest == Some(expectedDigest)
    {
      hide Tracks, LastMarker, Find, DigestSorted, Sort, Confirmed, Expected, LastSeen, ProjectEntry, Truthful, FreshlyRead, ReadLog, Sampled;
      hide GoodFrom, DistinctPaths, StagedTogether, Has, Unmatched, RedirectNoted, Dated, Valid, MarkerMatches;
      ghost var start, was := readCount, MarkerStuck();
      a := Attempt(false, None, None, false, [], false, false, None);
      var now := pass;
      pass := pass + 1;
      ghost var sample;
      threw, sample := ReadPass(now);
      begun, stuck := start, was;
      if threw {
        return;
      }
      if Staged() && GoodFrom(begun) && !stuck {
        StagedDigests();
      }
      a := Judge();
      if a.verified {
        AllHave(Paths());
        VerifiedIsConfirmed();
      }
    }

    lemma VerifiedIsConfirmed()
      requires Valid() && served.Some? && entryPaths.Some? && MarkerMatches() && served.value.findings == 0
      requires forall path :: path in entryPaths.value ==> Has(path)
      requires |maps.matched + maps.latest| == |entryPaths.value| ==>
                 DigestSorted(sha, Sort(maps.matched + maps.latest)) == expectedDigest
      ensures Confirmed()
      ensures DistinctPaths(Paths()) && StagedTogether(Paths(), entries) ==> |maps.matched + maps.latest| == |entryPaths.value|
    {
      hide LastMarker, Find, DigestSorted, Sort, Expected, LastSeen, ProjectEntry;
      forall path | path in entryPaths.value
        ensures LastSeen(log, path).Some? && LastSeen(log, path).value.SawBody?
                && Expected(entries, path) == Some(ProjectEntry(sha, LastSeen(log, path).value.bytes))
      {
        assert Recorded(sha, entries, log, maps, path);
      }
      if DistinctPaths(Paths()) && StagedTogether(Paths(), entries) {
        AllMatched(sha, Paths(), entries, log, maps);
      }
    }

    /** `observe`: passes until verified, until nothing can change, or until the deadline. */
    method Observe(clock: nat -> int) returns (r: Option<Attempt>, naps: seq<nat>, ghost ages: seq<Option<nat>>)
      requires Valid() && Dated()
      modifies this
      ensures Valid() && Dated() && pass > old(pass)
      ensures Total(naps) <= 960_000
      ensures forall k :: 0 <= k < |naps| ==> 0 < naps[k] <= Delay(k)
      ensures r.Some? && r.value.verified ==> Confirmed() && !failed
      ensures r.Some? && r.value.verified && naps != [] && |Paths()| <= OBSERVE_CONFIRM_MAXIMUM_ROUTES ==> confirmed
      ensures r.Some? && r.value.verified && DistinctPaths(Paths()) && StagedTogether(Paths(), entries) ==>
                r.value.observedArtifactDigest == Some(expectedDigest)
      ensures Staged() && !(r.Some? && r.value.verified) ==> stuck || !GoodFrom(begun)
      ensures r.Some? ==> NapsFit(ages, naps, clock) && ages[|naps|] == r.value.maxAge == seenMaxAge
      ensures r.Some? ==>
                served.Some? && r.value.currentGenerationId == served.value.generationId && (r.value.markerValid <==> MarkerMatches())
      ensures r.Some? && !r.value.verified && r.value.retryable ==> Left(ages, naps, clock) <= 0
    {
      hide GoodFrom, Staged, NapsFit, Deadline, MarkerMatches;
      hide Valid, Dated, Confirmed, FreshlyRead, StagedTogether, DistinctPaths, DeadlineMs, Total, Delay;
      NapsSoFar([], 0);
      naps, ages := [], [];
      var startedAt, ticks := clock(0), 1;
      var slept, delay := 0, OBSERVE_FIRST_DELAY;
      var threw, attempt := ObserveOnce();
      if threw {
        return None, naps, ages;
      }
      var deadline := DeadlineMs(attempt.maxAge);
      ages := [attempt.maxAge];
      NoNapsFit(attempt.maxAge, clock);
      while true
        invariant Valid() && slept == Total(naps) <= deadline <= 960_000 && delay == Delay(|naps|) > 0
        invariant forall k :: 0 <= k < |naps| ==> 0 < naps[k] <= Delay(k)
        invariant Dated() && pass == old(pass) + 1 + |naps| && ticks == |naps| + 1 && startedAt == clock(0)
        invariant |ages| == |naps| + 1 && NapsFit(ages, naps, clock) && ages[|naps|] == attempt.maxAge == seenMaxAge
        invariant Larger(deadline, DeadlineMs(attempt.maxAge)) == Deadline(ages)
        invariant served.Some? && attempt.currentGenerationId == served.value.generationId && (attempt.markerValid <==> MarkerMatches())
        invariant Staged() && !attempt.verified ==> stuck || !GoodFrom(begun)
        invariant attempt.verified ==> Confirmed() && !failed
        invariant attempt.verified && naps != [] && |Paths()| <= OBSERVE_CONFIRM_MAXIMUM_ROUTES ==> confirmed
        invariant attempt.verified && DistinctPaths(Paths()) && StagedTogether(Paths(), entries) ==>
                    attempt.observedArtifactDigest == Some(expectedDigest)
        decreases 960_000 - slept
      {
        if attempt.verified || !attempt.retryable {
          return Some(attempt), naps, ages;
        }
        if DeadlineMs(attempt.maxAge) > deadline {
          deadline := DeadlineMs(attempt.maxAge);
        }
        var elapsed := if clock(ticks) - startedAt > slept then clock(ticks) - startedAt else slept;
        ticks := ticks + 1;
        var wait := if delay <= deadline - elapsed then delay else deadline - elapsed;
        if wait <= 0 {
          return Some(attempt), naps, ages;
        }
        NapsSoFar(naps, wait);
        ghost var before := naps;
        naps := naps + [wait];
        slept := slept + wait;
        delay := if delay * 2 <= OBSERVE_MAXIMUM_DELAY then delay * 2 else OBSERVE_MAXIMUM_DELAY;
        threw, attempt := ObserveOnce();
        if threw {
          return None, naps, ages;
        }
        OneMoreNap(ages, before, clock, wait, attempt.maxAge);
        ages := ages + [attempt.maxAge];
      }
    }
  }
}
