/**
 Activations that interleave on one served bucket. Each has read the pointer's ETag
 before any of them writes the pointer; the provider honours the conditional write.
 */
module SpacesRace {
  import opened Wrappers
  import opened Utf16
  import opened Utf8
  import opened Marker
  import opened SpacesMarker
  import opened SpacesActivation

  /**
   Where one activation is: still replacing the root, past its pointer write, or gone.
   `previous` is the generation it read as served before it began.
   */
  datatype Phase =
    | Replacing(condition: Condition, previous: Option<Text>)
    | Wrote(previous: Option<Text>)
    | Returned(decision: Decision)
    | Threw

  /** The bucket and the activations, by their position in the list of markers they write. */
  datatype Race = Race(bucket: Bucket, phases: seq<Phase>)

  /**
   One provider call of one activation: an object written or deleted outside the pointer,
   the pointer write, the confirming public read (which may see anything), a failure.
   */
  datatype Move =
    | Touch(who: nat, step: Step)
    | WritePointer(who: nat)
    | Confirm(who: nat, seen: Option<Text>)
    | Stop(who: nat)

  predicate Allowed(race: Race, move: Move) {
    move.who < |race.phases|
    && match move {
         case Touch(who, step) => race.phases[who].Replacing? && step.key != GENERATION_MARKER_KEY
         case WritePointer(who) => race.phases[who].Replacing?
         case Confirm(who, _) => race.phases[who].Wrote?
         case Stop(who) => !race.phases[who].Returned?
       }
  }

  function At(race: Race, who: nat, phase: Phase): Race
    requires who < |race.phases|
  {
    race.(phases := race.phases[who := phase])
  }

  function Moved(etagOf: Bytes -> Text, markers: seq<Identity>, race: Race, move: Move): (next: Race)
    requires Allowed(race, move) && |markers| == |race.phases|
    ensures |next.phases| == |race.phases|
  {
    var id := markers[move.who].generationId;
    match move
    case Touch(_, step) => race.(bucket := Apply(race.bucket, step))
    case WritePointer(who) =>
      if Accepts(race.phases[who].condition, etagOf, ObjectAt(race.bucket, GENERATION_MARKER_KEY)) then
        At(race, who, Wrote(race.phases[who].previous)).(bucket := race.bucket[GENERATION_MARKER_KEY := Object(SpacesMarkerBytes(markers[who]), false)])
      else At(race, who, Returned(PointerLost(id, race.phases[who].previous)))
    case Confirm(who, seen) =>
      if seen == Some(id) then At(race, who, Returned(PointerWon(id, race.phases[who].previous))) else At(race, who, Threw)
    case Stop(who) => At(race, who, Threw)
  }

  ghost predicate Runs(etagOf: Bytes -> Text, markers: seq<Identity>, race: Race, moves: seq<Move>)
    requires |markers| == |race.phases|
    decreases |moves|
  {
    moves != [] ==> Allowed(race, moves[0]) && Runs(etagOf, markers, Moved(etagOf, markers, race, moves[0]), moves[1..])
  }

  function Final(etagOf: Bytes -> Text, markers: seq<Identity>, race: Race, moves: seq<Move>): Race
    requires |markers| == |race.phases| && Runs(etagOf, markers, race, moves)
    decreases |moves|
  {
    if moves == [] then race else Final(etagOf, markers, Moved(etagOf, markers, race, moves[0]), moves[1..])
  }

  /** The start: everyone's condition comes from a truthful head of the same pointer. */
  ghost predicate AllHeaded(etagOf: Bytes -> Text, race: Race) {
    forall i :: 0 <= i < |race.phases| ==>
      exists head :: HeadOf(head, etagOf, ObjectAt(race.bucket, GENERATION_MARKER_KEY))
                     && race.phases[i].Replacing? && race.phases[i].condition == ConditionFor(head)
  }

  /** Different marker bytes have different ETags, and nobody rewrites the pointer already there. */
  ghost predicate TagsTell(etagOf: Bytes -> Text, markers: seq<Identity>, pointer: Option<Object>) {
    (forall a, b :: etagOf(a) == etagOf(b) ==> a == b)
    && (forall i, j :: 0 <= i < j < |markers| ==> markers[i].generationId != markers[j].generationId)
    && (forall i :: 0 <= i < |markers| && pointer.Some? ==> pointer.value.bytes != SpacesMarkerBytes(markers[i]))
  }

  predicate Won(phase: Phase) {
    phase.Wrote? || (phase.Returned? && phase.decision.Activate?)
  }

  /** Has some pointer write been accepted, and whose. */
  datatype Holder = Nobody | Held(who: nat)

  function Seen(phase: Phase): Option<Text> {
    match phase
    case Replacing(_, previous) => previous
    case Wrote(previous) => previous
    case Returned(decision) => decision.previous
    case Threw => None
  }

  /** The generation each activation read as served, as long as it is not gone. */
  ghost predicate Remembers(seen: seq<Option<Text>>, race: Race) {
    |seen| == |race.phases|
    && forall i :: 0 <= i < |seen| ==>
         match race.phases[i] {
           case Replacing(_, previous) => previous == seen[i]
           case Wrote(previous) => previous == seen[i]
           case Returned(decision) => decision.previous == seen[i]
           case Threw => true
         }
  }

  /** The conditions still out were taken from `first`, the pointer as it was. */
  ghost predicate Inv(etagOf: Bytes -> Text, markers: seq<Identity>, seen: seq<Option<Text>>, first: Option<Object>, race: Race, holder: Holder) {
    |markers| == |race.phases| && Remembers(seen, race)
    && (forall i :: 0 <= i < |race.phases| && race.phases[i].Replacing? ==>
          exists head :: HeadOf(head, etagOf, first) && race.phases[i].condition == ConditionFor(head))
    && (forall i :: 0 <= i < |race.phases| && Won(race.phases[i]) ==> holder == Held(i))
    && (forall i :: 0 <= i < |race.phases| && race.phases[i].Returned? ==>
          var d := race.phases[i].decision;
          d.generationId == markers[i].generationId && (if d.Reconcile? then d.destinationChanged else !d.idempotent))
    && match holder {
         case Nobody => ObjectAt(race.bucket, GENERATION_MARKER_KEY) == first
         case Held(who) =>
           who < |markers| && !race.phases[who].Replacing?
           && ObjectAt(race.bucket, GENERATION_MARKER_KEY) == Some(Object(SpacesMarkerBytes(markers[who]), false))
       }
  }

  function Next(etagOf: Bytes -> Text, race: Race, move: Move, holder: Holder): Holder
    requires Allowed(race, move)
  {
    if move.WritePointer? && Accepts(race.phases[move.who].condition, etagOf, ObjectAt(race.bucket, GENERATION_MARKER_KEY))
    then Held(move.who) else holder
  }

  lemma MoveKeepsInv(etagOf: Bytes -> Text, markers: seq<Identity>, seen: seq<Option<Text>>, first: Option<Object>, race: Race, move: Move, holder: Holder)
    requires Inv(etagOf, markers, seen, first, race, holder) && Allowed(race, move) && TagsTell(etagOf, markers, first)
    ensures Inv(etagOf, markers, seen, first, Moved(etagOf, markers, race, move), Next(etagOf, race, move, holder))
    ensures move.WritePointer? && holder.Held? ==>
              Moved(etagOf, markers, race, move).phases[move.who] == Returned(PointerLost(markers[move.who].generationId, race.phases[move.who].previous))
  {
    hide SpacesMarkerBytes;
    if move.WritePointer? {
      var pointer := ObjectAt(race.bucket, GENERATION_MARKER_KEY);
      var head :| HeadOf(head, etagOf, first) && race.phases[move.who].condition == ConditionFor(head);
      ConditionPins(head, etagOf, first, pointer);
    }
  }

  /** The first to write the pointer is accepted, and returns `activate` when its confirming read names it. */
  lemma FirstWriterCanWin(etagOf: Bytes -> Text, markers: seq<Identity>, race: Race, who: nat)
    requires |markers| == |race.phases| && AllHeaded(etagOf, race) && who < |race.phases|
    ensures Allowed(race, WritePointer(who))
    ensures var wrote := Moved(etagOf, markers, race, WritePointer(who));
            && ObjectAt(wrote.bucket, GENERATION_MARKER_KEY) == Some(Object(SpacesMarkerBytes(markers[who]), false))
            && Allowed(wrote, Confirm(who, Some(markers[who].generationId)))
            && Moved(etagOf, markers, wrote, Confirm(who, Some(markers[who].generationId))).phases[who]
               == Returned(Decision.Activate(markers[who].generationId, race.phases[who].previous, false))
  {
    hide SpacesMarkerBytes;
    var pointer := ObjectAt(race.bucket, GENERATION_MARKER_KEY);
    var phase := race.phases[who];
    var head :| HeadOf(head, etagOf, pointer) && phase.Replacing? && phase.condition == ConditionFor(head);
    ConditionPins(head, etagOf, pointer, pointer);
  }

  /** The last state of a run, with the winner if there is one. */
  lemma {:induction false} RunKeepsInv(etagOf: Bytes -> Text, markers: seq<Identity>, seen: seq<Option<Text>>, first: Option<Object>, race: Race,
      moves: seq<Move>, holder: Holder)
      returns (last: Holder)
    requires |markers| == |race.phases| && Inv(etagOf, markers, seen, first, race, holder)
    requires TagsTell(etagOf, markers, first) && Runs(etagOf, markers, race, moves)
    ensures Inv(etagOf, markers, seen, first, Final(etagOf, markers, race, moves), last)
    decreases |moves|
  {
    hide Inv, TagsTell;
    last := holder;
    if moves != [] {
      MoveKeepsInv(etagOf, markers, seen, first, race, moves[0], holder);
      last := RunKeepsInv(etagOf, markers, seen, first, Moved(etagOf, markers, race, moves[0]), moves[1..], Next(etagOf, race, moves[0], holder));
    }
  }

  /** At most one activation returns `activate`; every other that returned says `reconcile` and admits the change. */
  lemma AtMostOneActivates(etagOf: Bytes -> Text, markers: seq<Identity>, race: Race, moves: seq<Move>)
    requires |markers| == |race.phases| && AllHeaded(etagOf, race) && Runs(etagOf, markers, race, moves)
    requires TagsTell(etagOf, markers, ObjectAt(race.bucket, GENERATION_MARKER_KEY))
    ensures var phases := Final(etagOf, markers, race, moves).phases;
            |phases| == |markers|
            && (forall i, j :: 0 <= i < j < |phases| ==> !(Won(phases[i]) && Won(phases[j])))
            && (forall i :: 0 <= i < |phases| && phases[i].Returned? && !Won(phases[i]) ==>
                  phases[i].decision == PointerLost(markers[i].generationId, race.phases[i].previous))
            && (forall i :: 0 <= i < |phases| && phases[i].Returned? && Won(phases[i]) ==>
                  phases[i].decision == PointerWon(markers[i].generationId, race.phases[i].previous))
            && (forall i :: 0 <= i < |phases| && Won(phases[i]) ==>
                  ObjectAt(Final(etagOf, markers, race, moves).bucket, GENERATION_MARKER_KEY)
                  == Some(Object(SpacesMarkerBytes(markers[i]), false)))
  {
    hide TagsTell, SpacesMarkerBytes, Runs;
    var seen := seq(|race.phases|, i requires 0 <= i < |race.phases| => Seen(race.phases[i]));
    var first := ObjectAt(race.bucket, GENERATION_MARKER_KEY);
    var last := RunKeepsInv(etagOf, markers, seen, first, race, moves, Nobody);
  }

  /** Once somebody's pointer write is accepted, every later one is refused. */
  lemma LaterWritesRefused(etagOf: Bytes -> Text, markers: seq<Identity>, race: Race, moves: seq<Move>, who: nat)
    requires |markers| == |race.phases| && AllHeaded(etagOf, race) && Runs(etagOf, markers, race, moves)
    requires TagsTell(etagOf, markers, ObjectAt(race.bucket, GENERATION_MARKER_KEY))
    requires ObjectAt(Final(etagOf, markers, race, moves).bucket, GENERATION_MARKER_KEY)
             != ObjectAt(race.bucket, GENERATION_MARKER_KEY)
    requires Allowed(Final(etagOf, markers, race, moves), WritePointer(who))
    ensures |Final(etagOf, markers, race, moves).phases| == |markers|
    ensures Moved(etagOf, markers, Final(etagOf, markers, race, moves), WritePointer(who)).phases[who]
            == Returned(PointerLost(markers[who].generationId, Final(etagOf, markers, race, moves).phases[who].previous))
  {
    hide TagsTell, SpacesMarkerBytes, Runs;
    var seen := seq(|race.phases|, i requires 0 <= i < |race.phases| => Seen(race.phases[i]));
    var first := ObjectAt(race.bucket, GENERATION_MARKER_KEY);
    var last := RunKeepsInv(etagOf, markers, seen, first, race, moves, Nobody);
    MoveKeepsInv(etagOf, markers, seen, first, Final(etagOf, markers, race, moves), WritePointer(who), last);
  }
}
