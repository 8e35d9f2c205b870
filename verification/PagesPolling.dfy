/**
 The two budgeted loops of the Pages adapter against an arbitrary provider: polling the
 current deployment, and resolving the prior attempt of an unresolved fence.
 */
module PagesPolling {
  import opened Wrappers

  // ---- Statuses, schedule, budgets ----

  const SUCCESS_STATUS := "succeed"

  const TEMPORARY_STATUSES: seq<string> := [
    "deployment_queued", "deployment_in_progress", "syncing_files", "finished_file_sync",
    "updating_pages", "purging_cdn", "deployment_attempt_error"]

  const TERMINAL_FAILURE_STATUSES: seq<string> := [
    "deployment_cancelled", "deployment_failed", "deployment_content_failed", "deployment_lost"]

  const PAGES_DEPLOYMENT_STATUSES: seq<string> := [
    "deployment_queued", "deployment_in_progress", "syncing_files", "finished_file_sync",
    "updating_pages", "purging_cdn", "deployment_cancelled", "deployment_failed",
    "deployment_content_failed", "deployment_attempt_error", "deployment_lost", "succeed"]

  const POLL_SCHEDULE_SECONDS: seq<nat> := [5, 8, 12, 18, 27, 30]
  const POLL_TAIL_SECONDS: nat := 30
  const POLL_BUDGET_SECONDS: nat := 1500
  const RECOVERY_POLL_BUDGET_SECONDS: nat := 300

  /** The accepted statuses are the temporary ones, the terminal failures and success. */
  lemma StatusesPartitioned(s: string)
    ensures s in PAGES_DEPLOYMENT_STATUSES <==>
              s in TEMPORARY_STATUSES || s in TERMINAL_FAILURE_STATUSES || s == SUCCESS_STATUS
    ensures s in TEMPORARY_STATUSES ==> s !in TERMINAL_FAILURE_STATUSES && s != SUCCESS_STATUS
    ensures s in TERMINAL_FAILURE_STATUSES ==> s != SUCCESS_STATUS
  {
    var t, f, a := TEMPORARY_STATUSES, TERMINAL_FAILURE_STATUSES, PAGES_DEPLOYMENT_STATUSES;
    assert t[0] == a[0] && t[1] == a[1] && t[2] == a[2] && t[3] == a[3] && t[4] == a[4] && t[5] == a[5] && t[6] == a[9];
    assert f[0] == a[6] && f[1] == a[7] && f[2] == a[8] && f[3] == a[10] && a[11] == SUCCESS_STATUS;
    assert |SUCCESS_STATUS| == 7;
    assert forall i :: 0 <= i < |t| ==> |t[i]| > 7;
    assert forall i :: 0 <= i < |f| ==> |f[i]| > 7;
    assert f[0][11] == 'c' && f[1][11] == 'f' && f[2][11] == 'c' && f[3][11] == 'l';
    assert t[0][11] == 'q' && t[1][11] == 'i' && t[6][11] == 'a';
    assert t[2][0] == 's' && t[3][0] == 'f' && t[4][0] == 'u' && t[5][0] == 'p';
    assert f[0][0] == 'd' && f[1][0] == 'd' && f[2][0] == 'd' && f[3][0] == 'd';
  }

  /** `POLL_SCHEDULE_SECONDS[attempt] ?? POLL_TAIL_SECONDS`. */
  function Wait(attempt: nat): (seconds: nat)
    ensures 5 <= seconds <= 30
  {
    if attempt < |POLL_SCHEDULE_SECONDS| then POLL_SCHEDULE_SECONDS[attempt] else POLL_TAIL_SECONDS
  }

  /** What the first `n` waits add up to. */
  function Spent(n: nat): nat {
    if n == 0 then 0 else Spent(n - 1) + Wait(n - 1)
  }

  lemma SpentStep(n: nat)
    ensures Spent(n + 1) == Spent(n) + Wait(n) >= Spent(n) + 5
  {
  }

  lemma SpentScheduled()
    ensures Spent(1) == 5 && Spent(2) == 13 && Spent(3) == 25 && Spent(4) == 43 && Spent(5) == 70 && Spent(6) == 100
  {
    assert Spent(1) == Spent(0) + 5;
    assert Spent(2) == Spent(1) + 8;
    assert Spent(3) == Spent(2) + 12;
    assert Spent(4) == Spent(3) + 18;
    assert Spent(5) == Spent(4) + 27;
    assert Spent(6) == Spent(5) + 30;
  }

  lemma {:induction false} SpentClosed(n: nat)
    requires n >= 6
    ensures Spent(n) == 100 + 30 * (n - 6)
  {
    if n == 6 {
      SpentScheduled();
    } else {
      SpentClosed(n - 1);
    }
  }

  lemma {:induction false} SpentGrows(m: nat, n: nat)
    requires m <= n
    ensures Spent(m) <= Spent(n)
  {
    if m < n {
      SpentGrows(m, n - 1);
    }
  }

  /** The waits a budget pays for: 52 of them in 1500 seconds, 12 (280 seconds) in 300. */
  lemma BudgetWaits(n: nat)
    ensures Spent(n) <= POLL_BUDGET_SECONDS <==> n <= 52
    ensures Spent(n) <= RECOVERY_POLL_BUDGET_SECONDS <==> n <= 12
    ensures Spent(12) == 280
  {
    SpentScheduled();
    SpentClosed(12);
    if n >= 6 {
      SpentClosed(n);
    } else if n == 0 {
    } else {
      assert n in {1, 2, 3, 4, 5};
    }
  }

  // ---- The provider ----

  /** The answer to one status read: no usable answer, 404, or a body whose `status` may be no string. */
  datatype Reply = Threw | NotFound | Reported(status: Option<string>)

  /** The i-th answer to a status read, whatever it may be. */
  type Replies = nat -> Reply

  function From(replies: Replies, n: nat): Replies {
    (i: nat) => replies(n + i)
  }

  datatype Event = Asked(reply: Reply) | Cancelled | Waited(seconds: nat) | Created

  function WaitTotal(log: seq<Event>): nat {
    if log == [] then 0
    else
      var e := log[|log| - 1];
      WaitTotal(log[..|log| - 1]) + (if e.Waited? then e.seconds else 0)
  }

  function CancelCount(log: seq<Event>): nat {
    if log == [] then 0
    else CancelCount(log[..|log| - 1]) + (if log[|log| - 1].Cancelled? then 1 else 0)
  }

  /** The answers received, in order. */
  function Answers(log: seq<Event>): seq<Reply> {
    if log == [] then []
    else
      var e := log[|log| - 1];
      if e.Asked? then Answers(log[..|log| - 1]) + [e.reply] else Answers(log[..|log| - 1])
  }

  function Recorded(statuses: seq<string>, reply: Reply): seq<string> {
    if reply.Reported? && reply.status.Some? then statuses + [reply.status.value] else statuses
  }

  /** The statuses among the answers, in order. */
  function Statuses(log: seq<Event>): seq<string> {
    if log == [] then []
    else
      var e := log[|log| - 1];
      if e.Asked? then Recorded(Statuses(log[..|log| - 1]), e.reply) else Statuses(log[..|log| - 1])
  }

  lemma LogSnoc(log: seq<Event>, e: Event)
    ensures WaitTotal(log + [e]) == WaitTotal(log) + (if e.Waited? then e.seconds else 0)
    ensures CancelCount(log + [e]) == CancelCount(log) + (if e.Cancelled? then 1 else 0)
    ensures Answers(log + [e]) == if e.Asked? then Answers(log) + [e.reply] else Answers(log)
    ensures Statuses(log + [e]) == if e.Asked? then Recorded(Statuses(log), e.reply) else Statuses(log)
  {
    assert (log + [e])[..|log|] == log;
  }

  lemma RoundAdds(log: seq<Event>, seconds: nat, reply: Reply)
    ensures var next := log + [Waited(seconds), Asked(reply)];
            WaitTotal(next) == WaitTotal(log) + seconds && CancelCount(next) == CancelCount(log)
            && Answers(next) == Answers(log) + [reply] && Statuses(next) == Recorded(Statuses(log), reply)
  {
    hide WaitTotal, CancelCount, Answers, Statuses;
    LogSnoc(log, Waited(seconds));
    LogSnoc(log + [Waited(seconds)], Asked(reply));
    assert log + [Waited(seconds), Asked(reply)] == log + [Waited(seconds)] + [Asked(reply)];
  }

  lemma NothingYet()
    ensures Statuses([]) == [] && Answers([]) == [] && WaitTotal([]) == 0 && CancelCount([]) == 0
  {
  }

  // ---- What a log says ----

  predicate SaysSuccess(reply: Reply) {
    reply.Reported? && reply.status == Some(SUCCESS_STATUS)
  }

  predicate SaysTerminalFailure(reply: Reply) {
    reply.Reported? && reply.status.Some? && reply.status.value in TERMINAL_FAILURE_STATUSES
  }

  predicate SaysTemporary(reply: Reply) {
    reply.Reported? && reply.status.Some? && reply.status.value in TEMPORARY_STATUSES
  }

  predicate SaysNothing(reply: Reply) {
    reply.NotFound? || reply == Reported(None)
  }

  predicate Undecided(reply: Reply) {
    SaysNothing(reply) || SaysTemporary(reply)
  }

  function Last(log: seq<Event>): Reply
    requires Answers(log) != []
  {
    Answers(log)[|Answers(log)| - 1]
  }

  // ---- Resolving the prior attempt ----

  datatype PriorOutcome = PriorSucceeded | PriorTerminalFailure | ReconciliationRequired

  datatype Observation = Observation(
    outcome: PriorOutcome, priorStatus: Option<string>, observedStatuses: seq<string>, cancelCallCount: nat)

  /** What a call did and, unless a provider call threw, what it answered. */
  datatype Resolution = Resolution(log: seq<Event>, answer: Option<Observation>)

  function LastStatus(log: seq<Event>): Option<string> {
    if Statuses(log) == [] then None else Some(Statuses(log)[|Statuses(log)| - 1])
  }

  function Observed(outcome: PriorOutcome, status: Option<string>, log: seq<Event>): Option<Observation> {
    Some(Observation(outcome, status, Statuses(log), CancelCount(log)))
  }

  /** A status the loop or the first read decides on; `None` while polling goes on. */
  function Verdict(status: string): Option<PriorOutcome> {
    if status == SUCCESS_STATUS then Some(PriorSucceeded)
    else if status in TERMINAL_FAILURE_STATUSES then Some(PriorTerminalFailure)
    else if status !in PAGES_DEPLOYMENT_STATUSES then Some(ReconciliationRequired)
    else None
  }

  /** The bounded polling after the cancel, from its `attempt`-th wait on; `log` is what happened before. */
  function PollPrior(replies: Replies, budget: nat, attempt: nat, log: seq<Event>): Resolution
    decreases if Spent(attempt) > budget then 0 else budget + 1 - Spent(attempt)
  {
    if Spent(attempt + 1) > budget then
      Resolution(log, Observed(ReconciliationRequired, LastStatus(log), log))
    else
      var reply := replies(attempt + 1);
      var next := log + [Waited(Wait(attempt)), Asked(reply)];
      if reply.Threw? then Resolution(next, None)
      else if SaysNothing(reply) then PollPrior(replies, budget, attempt + 1, next)
      else
        var status := reply.status.value;
        match Verdict(status)
        case Some(outcome) => Resolution(next, Observed(outcome, reply.status, next))
        case None => PollPrior(replies, budget, attempt + 1, next)
  }

  /** The whole call; `cancelAnswered` is false when the cancel call throws. */
  function ResolvePrior(replies: Replies, cancelAnswered: bool, budget: nat): Resolution {
    var first := replies(0);
    var log := [Asked(first)];
    if first.Threw? then Resolution(log, None)
    else if first == Reported(None) then Resolution(log, Observed(ReconciliationRequired, None, log))
    else if first.Reported? && Verdict(first.status.value).Some? then
      Resolution(log, Observed(Verdict(first.status.value).value, first.status, log))
    else if !cancelAnswered then Resolution(log + [Cancelled], None)
    else PollPrior(replies, budget, 0, log + [Cancelled])
  }

  /** The first read calls for the one cancel. */
  predicate CallsForCancel(first: Reply) {
    first.NotFound? || SaysTemporary(first)
  }

  /** The events of a call that read `n` answers after the first one called for the cancel. */
  function PriorLog(replies: Replies, n: nat): seq<Event>
    requires n >= 1
  {
    if n == 1 then [Asked(replies(0)), Cancelled]
    else PriorLog(replies, n - 1) + [Waited(Wait(n - 2)), Asked(replies(n - 1))]
  }

  /** What holds of the log while polling is still going on. */
  ghost predicate Polling(replies: Replies, budget: nat, attempt: nat, log: seq<Event>) {
    WaitTotal(log) == Spent(attempt) <= budget
    && CancelCount(log) == 1
    && |Answers(log)| == attempt + 1
    && (forall i :: 0 <= i <= attempt ==> Answers(log)[i] == replies(i))
    && (forall i :: 0 <= i <= attempt ==> Undecided(replies(i)))
    && log == PriorLog(replies, attempt + 1)
  }

  /** What a finished call has done and answered, from the provider's answers alone. */
  ghost predicate Truthful(replies: Replies, cancelAnswered: bool, budget: nat, r: Resolution) {
    var answers := Answers(r.log);
    answers != [] && WaitTotal(r.log) == Spent(|answers| - 1) <= budget
    && CancelCount(r.log) == (if CallsForCancel(replies(0)) then 1 else 0)
    && r.log == (if CallsForCancel(replies(0)) then PriorLog(replies, |answers|) else [Asked(replies(0))])
    && (CallsForCancel(replies(0)) && !cancelAnswered ==> |answers| == 1)
    && (r.answer.None? <==> Last(r.log).Threw? || (CallsForCancel(replies(0)) && !cancelAnswered))
    && (forall i :: 0 <= i < |answers| ==> answers[i] == replies(i))
    && (forall i :: 0 <= i < |answers| - 1 ==> Undecided(answers[i]))
    && (r.answer.Some? ==>
          && (r.answer.value.outcome.PriorSucceeded? <==> SaysSuccess(Last(r.log)))
          && (r.answer.value.outcome.PriorTerminalFailure? <==> SaysTerminalFailure(Last(r.log)))
          && r.answer.value.priorStatus == LastStatus(r.log)
          && r.answer.value.observedStatuses == Statuses(r.log)
          && r.answer.value.cancelCallCount == CancelCount(r.log)
          && (CallsForCancel(replies(0)) && Undecided(Last(r.log)) ==> Spent(|answers|) > budget))
  }

  lemma PollPriorStep(replies: Replies, budget: nat, attempt: nat, log: seq<Event>)
    ensures Spent(attempt + 1) > budget ==>
              PollPrior(replies, budget, attempt, log) == Resolution(log, Observed(ReconciliationRequired, LastStatus(log), log))
    ensures Spent(attempt + 1) <= budget ==>
              var reply := replies(attempt + 1);
              var next := log + [Waited(Wait(attempt)), Asked(reply)];
              PollPrior(replies, budget, attempt, log) ==
                if reply.Threw? then Resolution(next, None)
                else if SaysNothing(reply) || Verdict(reply.status.value).None? then PollPrior(replies, budget, attempt + 1, next)
                else Resolution(next, Observed(Verdict(reply.status.value).value, reply.status, next))
  {
    hide WaitTotal, CancelCount, Answers, Statuses, Wait;
  }

  lemma {:induction false} PollPriorTruthful(replies: Replies, budget: nat, attempt: nat, log: seq<Event>)
    requires Polling(replies, budget, attempt, log) && CallsForCancel(replies(0))
    ensures Truthful(replies, true, budget, PollPrior(replies, budget, attempt, log))
    decreases if Spent(attempt) > budget then 0 else budget + 1 - Spent(attempt)
  {
    hide WaitTotal, CancelCount, Answers, Statuses, PollPrior, Verdict, Recorded;
    hide SaysSuccess, SaysTerminalFailure, SaysTemporary, Spent, Wait;
    SpentStep(attempt);
    hide TEMPORARY_STATUSES, TERMINAL_FAILURE_STATUSES, PAGES_DEPLOYMENT_STATUSES, SUCCESS_STATUS;
    PollPriorStep(replies, budget, attempt, log);
    if Spent(attempt + 1) > budget {
      UndecidedMeans(replies(attempt));
    } else {
      var reply := replies(attempt + 1);
      var next := log + [Waited(Wait(attempt)), Asked(reply)];
      RoundAdds(log, Wait(attempt), reply);
      RoundLogged(replies, attempt, log);
      LastRecorded(Statuses(log), reply);
      UndecidedMeans(reply);
      if !reply.Threw? && (SaysNothing(reply) || Verdict(reply.status.value).None?) {
        PollPriorTruthful(replies, budget, attempt + 1, next);
      }
    }
  }

  lemma RoundLogged(replies: Replies, attempt: nat, log: seq<Event>)
    requires log == PriorLog(replies, attempt + 1)
    ensures log + [Waited(Wait(attempt)), Asked(replies(attempt + 1))] == PriorLog(replies, attempt + 2)
  {
  }

  lemma LastRecorded(statuses: seq<string>, reply: Reply)
    ensures reply.Reported? && reply.status.Some? ==>
              Recorded(statuses, reply) != [] && Recorded(statuses, reply)[|Recorded(statuses, reply)| - 1] == reply.status.value
  {
  }

  lemma UndecidedMeans(reply: Reply)
    ensures SaysNothing(reply) ==> !SaysSuccess(reply) && !SaysTerminalFailure(reply) && !SaysTemporary(reply)
    ensures SaysTemporary(reply) ==> !SaysSuccess(reply) && !SaysTerminalFailure(reply)
    ensures !reply.Reported? ==> !SaysTemporary(reply) && !SaysSuccess(reply) && !SaysTerminalFailure(reply)
    ensures reply.Reported? && reply.status.Some? ==>
              match Verdict(reply.status.value) {
                case Some(PriorSucceeded) => SaysSuccess(reply) && !SaysTerminalFailure(reply) && !SaysTemporary(reply)
                case Some(PriorTerminalFailure) => SaysTerminalFailure(reply) && !SaysSuccess(reply) && !SaysTemporary(reply)
                case Some(ReconciliationRequired) => !SaysSuccess(reply) && !SaysTerminalFailure(reply) && !SaysTemporary(reply)
                case None => SaysTemporary(reply)
              }
  {
    if reply.Reported? && reply.status.Some? {
      StatusesPartitioned(reply.status.value);
    }
  }

  /**
   Whatever the provider answers: the waits stay within the budget, the cancel is issued
   once and exactly when the first read was a temporary status or a 404, there is an answer
   exactly when neither the last read nor a called-for cancel threw, success and terminal
   failure are reported exactly when the last read said so with the last status there was,
   and every earlier read was undecided.
   */
  lemma ResolvePriorTruthful(replies: Replies, cancelAnswered: bool, budget: nat)
    ensures Truthful(replies, cancelAnswered, budget, ResolvePrior(replies, cancelAnswered, budget))
  {
    hide WaitTotal, CancelCount, Answers, Statuses, Wait, TEMPORARY_STATUSES, TERMINAL_FAILURE_STATUSES;
    var first := replies(0);
    FirstEvents(first);
    UndecidedMeans(first);
    var log := [Asked(first), Cancelled];
    assert [Asked(first)] + [Cancelled] == log;
    if CallsForCancel(first) && cancelAnswered {
      assert Spent(0) == 0;
      assert Polling(replies, budget, 0, log);
      PollPriorTruthful(replies, budget, 0, log);
    }
  }

  /** Nothing else is a truthful call: what it does and answers is decided by the provider's answers. */
  lemma TruthfulDecides(replies: Replies, cancelAnswered: bool, budget: nat, a: Resolution, b: Resolution)
    requires Truthful(replies, cancelAnswered, budget, a) && Truthful(replies, cancelAnswered, budget, b)
    ensures a == b
  {
    hide WaitTotal, CancelCount, Answers, Statuses, Wait, SaysSuccess, SaysTerminalFailure, SaysTemporary, PriorLog;
    TruthfulNoShorter(replies, cancelAnswered, budget, a, b);
    TruthfulNoShorter(replies, cancelAnswered, budget, b, a);
    assert a.log == b.log;
  }

  lemma TruthfulNoShorter(replies: Replies, cancelAnswered: bool, budget: nat, a: Resolution, b: Resolution)
    requires Truthful(replies, cancelAnswered, budget, a) && Truthful(replies, cancelAnswered, budget, b)
    ensures |Answers(a.log)| >= |Answers(b.log)|
  {
    hide WaitTotal, CancelCount, Answers, Statuses, Wait, PriorLog;
    FirstEvents(replies(0));
    var m, n := |Answers(a.log)|, |Answers(b.log)|;
    if m < n {
      assert Answers(b.log)[m - 1] == replies(m - 1) == Last(a.log);
      UndecidedMeans(replies(m - 1));
      SpentGrows(m, n - 1);
    }
  }

  lemma FirstEvents(first: Reply)
    ensures Statuses([Asked(first)]) == Recorded([], first)
    ensures Answers([Asked(first)]) == [first] && WaitTotal([Asked(first)]) == 0 && CancelCount([Asked(first)]) == 0
    ensures Answers([Asked(first), Cancelled]) == [first] && WaitTotal([Asked(first), Cancelled]) == 0
    ensures CancelCount([Asked(first), Cancelled]) == 1
  {
    NothingYet();
    LogSnoc([], Asked(first));
    LogSnoc([Asked(first)], Cancelled);
    assert [] + [Asked(first)] == [Asked(first)] && [Asked(first)] + [Cancelled] == [Asked(first), Cancelled];
  }

  // ---- Polling the current deployment ----

  datatype PollFailure = ProviderFailed | StatusUnknown | StatusUnpartitioned | BudgetExhausted

  datatype Terminal = Terminal(status: string, succeeded: bool, observedStatuses: seq<string>, waitedSeconds: seq<nat>)

  datatype Polled = Polled(log: seq<Event>, answer: Result<Terminal, PollFailure>)

  /** `String(body.status)`, where a `status` already read as a string stands for its coercion. */
  function Coerced(status: Option<string>): string {
    if status.Some? then status.value else "undefined"
  }

  function CoercedStatuses(answers: seq<Reply>): seq<string> {
    if answers == [] then []
    else
      var last := answers[|answers| - 1];
      CoercedStatuses(answers[..|answers| - 1]) + (if last.Reported? then [Coerced(last.status)] else [])
  }

  lemma CoercedSnoc(answers: seq<Reply>, reply: Reply)
    requires reply.Reported?
    ensures CoercedStatuses(answers + [reply]) == CoercedStatuses(answers) + [Coerced(reply.status)]
  {
    assert (answers + [reply])[..|answers|] == answers;
  }

  lemma NothingCoerced()
    ensures CoercedStatuses([]) == []
  {
  }

  /** The first `n` waits. */
  function Waits(n: nat): (w: seq<nat>)
    ensures |w| == n
  {
    if n == 0 then [] else Waits(n - 1) + [Wait(n - 1)]
  }

  /** The loop from its `attempt`-th read on. */
  function PollCurrent(replies: Replies, budget: nat, attempt: nat, log: seq<Event>): Polled
    decreases if Spent(attempt) > budget then 0 else budget + 1 - Spent(attempt)
  {
    var reply := replies(attempt);
    var next := log + [Asked(reply)];
    if !reply.Reported? then Polled(next, Err(ProviderFailed))
    else
      var status := Coerced(reply.status);
      var observed := CoercedStatuses(Answers(next));
      if status !in PAGES_DEPLOYMENT_STATUSES then Polled(next, Err(StatusUnknown))
      else if status == SUCCESS_STATUS then Polled(next, Ok(Terminal(status, true, observed, Waits(attempt))))
      else if status in TERMINAL_FAILURE_STATUSES then Polled(next, Ok(Terminal(status, false, observed, Waits(attempt))))
      else if status !in TEMPORARY_STATUSES then Polled(next, Err(StatusUnpartitioned))
      else if Spent(attempt + 1) > budget then Polled(next, Err(BudgetExhausted))
      else PollCurrent(replies, budget, attempt + 1, next + [Waited(Wait(attempt))])
  }

  lemma PollCurrentStep(replies: Replies, budget: nat, attempt: nat, log: seq<Event>)
    ensures var reply := replies(attempt);
            var next := log + [Asked(reply)];
            var r := PollCurrent(replies, budget, attempt, log);
            if !reply.Reported? then r == Polled(next, Err(ProviderFailed))
            else
              var status := Coerced(reply.status);
              var observed := CoercedStatuses(Answers(next));
              if status !in PAGES_DEPLOYMENT_STATUSES then r == Polled(next, Err(StatusUnknown))
              else if status == SUCCESS_STATUS then r == Polled(next, Ok(Terminal(status, true, observed, Waits(attempt))))
              else if status in TERMINAL_FAILURE_STATUSES then r == Polled(next, Ok(Terminal(status, false, observed, Waits(attempt))))
              else if status !in TEMPORARY_STATUSES then r == Polled(next, Err(StatusUnpartitioned))
              else if Spent(attempt + 1) > budget then r == Polled(next, Err(BudgetExhausted))
              else r == PollCurrent(replies, budget, attempt + 1, next + [Waited(Wait(attempt))])
  {
    hide WaitTotal, CancelCount, Answers, Statuses, Wait, Waits, CoercedStatuses, Coerced;
    hide TEMPORARY_STATUSES, TERMINAL_FAILURE_STATUSES, PAGES_DEPLOYMENT_STATUSES, SUCCESS_STATUS;
  }

  /** The events of `n` reads, each followed by its wait. */
  function WaitingLog(replies: Replies, n: nat): seq<Event> {
    if n == 0 then [] else WaitingLog(replies, n - 1) + [Asked(replies(n - 1))] + [Waited(Wait(n - 1))]
  }

  ghost predicate Pending(replies: Replies, budget: nat, attempt: nat, log: seq<Event>) {
    WaitTotal(log) == Spent(attempt) <= budget
    && CancelCount(log) == 0
    && |Answers(log)| == attempt
    && log == WaitingLog(replies, attempt)
    && (forall i :: 0 <= i < attempt ==> Answers(log)[i] == replies(i) && SaysTemporary(replies(i)))
  }

  /** What polling promises whatever the provider answers. */
  ghost predicate Bounded(replies: Replies, budget: nat, r: Polled) {
    var answers := Answers(r.log);
    WaitTotal(r.log) <= budget && CancelCount(r.log) == 0
    && answers != [] && WaitTotal(r.log) == Spent(|answers| - 1)
    && r.log == WaitingLog(replies, |answers| - 1) + [Asked(replies(|answers| - 1))]
    && (forall i :: 0 <= i < |answers| ==> answers[i] == replies(i))
    && (forall i :: 0 <= i < |answers| - 1 ==> SaysTemporary(answers[i]))
    && (var last := Last(r.log);
        && (r.answer.Ok? && r.answer.value.succeeded <==> SaysSuccess(last))
        && (r.answer.Ok? && !r.answer.value.succeeded <==> SaysTerminalFailure(last))
        && (r.answer == Err(BudgetExhausted) <==> SaysTemporary(last))
        && (r.answer == Err(BudgetExhausted) ==> Spent(|answers|) > budget)
        && (r.answer == Err(ProviderFailed) <==> !last.Reported?)
        && (r.answer == Err(StatusUnknown) <==>
              last.Reported? && !SaysSuccess(last) && !SaysTerminalFailure(last) && !SaysTemporary(last))
        && r.answer != Err(StatusUnpartitioned)
        && (r.answer.Ok? ==>
              r.answer.value.observedStatuses == CoercedStatuses(answers)
              && Reported(Some(r.answer.value.status)) == last
              && r.answer.value.waitedSeconds == Waits(|answers| - 1)))
  }

  lemma CoercedMeans(reply: Reply)
    requires reply.Reported?
    ensures var s := Coerced(reply.status);
            (SaysSuccess(reply) <==> s == SUCCESS_STATUS)
            && (SaysTerminalFailure(reply) <==> s in TERMINAL_FAILURE_STATUSES)
            && (SaysTemporary(reply) <==> s in TEMPORARY_STATUSES)
            && (s in PAGES_DEPLOYMENT_STATUSES ==> reply.status == Some(s))
  {
    StatusesPartitioned("undefined");
    assert |"undefined"| == 9;
    assert forall i :: 0 <= i < |TEMPORARY_STATUSES| ==> |TEMPORARY_STATUSES[i]| > 9;
    assert forall i :: 0 <= i < |TERMINAL_FAILURE_STATUSES| ==> |TERMINAL_FAILURE_STATUSES[i]| > 9;
  }

  lemma {:induction false} PollCurrentBounded(replies: Replies, budget: nat, attempt: nat, log: seq<Event>)
    requires Pending(replies, budget, attempt, log)
    ensures Bounded(replies, budget, PollCurrent(replies, budget, attempt, log))
    decreases if Spent(attempt) > budget then 0 else budget + 1 - Spent(attempt)
  {
    hide WaitTotal, CancelCount, Answers, Statuses, CoercedStatuses, Waits, Coerced, PollCurrent;
    hide SaysSuccess, SaysTerminalFailure, SaysTemporary, Spent, Wait;
    SpentStep(attempt);
    hide TEMPORARY_STATUSES, TERMINAL_FAILURE_STATUSES, PAGES_DEPLOYMENT_STATUSES, SUCCESS_STATUS;
    PollCurrentStep(replies, budget, attempt, log);
    var reply := replies(attempt);
    var next := log + [Asked(reply)];
    LogSnoc(log, Asked(reply));
    UndecidedMeans(reply);
    if reply.Reported? {
      CoercedMeans(reply);
      StatusesPartitioned(Coerced(reply.status));
      if Coerced(reply.status) in TEMPORARY_STATUSES && Spent(attempt + 1) <= budget {
        LogSnoc(next, Waited(Wait(attempt)));
        PollCurrentBounded(replies, budget, attempt + 1, next + [Waited(Wait(attempt))]);
      }
    }
  }

  function PollFor(replies: Replies, budget: nat): Polled {
    PollCurrent(replies, budget, 0, [])
  }

  /**
   Whatever the provider answers: waits within the budget, the answer is the last read's,
   every earlier read was temporary, the "unpartitioned" failure never happens.
   */
  lemma PollDeploymentBounded(replies: Replies, budget: nat)
    ensures Bounded(replies, budget, PollFor(replies, budget))
  {
    PollCurrentBounded(replies, budget, 0, []);
  }

  /** Nothing else is such a polling: what it does and answers is decided by the provider's answers. */
  lemma BoundedDecides(replies: Replies, budget: nat, a: Polled, b: Polled)
    requires Bounded(replies, budget, a) && Bounded(replies, budget, b)
    ensures a == b
  {
    hide WaitTotal, CancelCount, Answers, Wait, Waits, WaitingLog, CoercedStatuses;
    BoundedNoShorter(replies, budget, a, b);
    BoundedNoShorter(replies, budget, b, a);
    var last := Last(a.log);
    UndecidedMeans(last);
    assert a.log == b.log;
  }

  lemma BoundedNoShorter(replies: Replies, budget: nat, a: Polled, b: Polled)
    requires Bounded(replies, budget, a) && Bounded(replies, budget, b)
    ensures |Answers(a.log)| >= |Answers(b.log)|
  {
    hide WaitTotal, CancelCount, Answers, Wait, Waits, WaitingLog, CoercedStatuses, SaysTemporary, SaysSuccess, SaysTerminalFailure;
    var m, n := |Answers(a.log)|, |Answers(b.log)|;
    if m < n {
      assert Answers(b.log)[m - 1] == replies(m - 1) == Last(a.log);
      SpentGrows(m, n - 1);
    }
  }

  /** At the activation budget: at most 53 reads and 1480 seconds, both reached by a provider that never settles. */
  lemma ActivationBudget(replies: Replies)
    ensures var log := PollFor(replies, POLL_BUDGET_SECONDS).log;
            |Answers(log)| <= 53 && WaitTotal(log) <= 1480
            && ((forall i :: SaysTemporary(replies(i))) ==> |Answers(log)| == 53 && WaitTotal(log) == 1480)
  {
    hide Answers, WaitTotal;
    var r := PollFor(replies, POLL_BUDGET_SECONDS);
    PollDeploymentBounded(replies, POLL_BUDGET_SECONDS);
    var n := |Answers(r.log)|;
    BudgetWaits(n - 1);
    BudgetWaits(n);
    SpentClosed(52);
    SpentGrows(n - 1, 52);
    assert Last(r.log) == replies(n - 1);
  }

  /** At the recovery budget: at most 13 reads and 280 seconds. */
  lemma RecoveryBudget(replies: Replies, cancelAnswered: bool)
    ensures var log := ResolvePrior(replies, cancelAnswered, RECOVERY_POLL_BUDGET_SECONDS).log;
            1 <= |Answers(log)| <= 13 && WaitTotal(log) == Spent(|Answers(log)| - 1) <= 280
  {
    hide Answers, WaitTotal, CancelCount, Statuses;
    ResolvePriorTruthful(replies, cancelAnswered, RECOVERY_POLL_BUDGET_SECONDS);
    var n := |Answers(ResolvePrior(replies, cancelAnswered, RECOVERY_POLL_BUDGET_SECONDS).log)|;
    BudgetWaits(n - 1);
    SpentGrows(n - 1, 12);
  }

  // ---- The loops ----

  /** One REST context: what the provider will answer, and what has been done so far. */
  class Provider {
    const replies: Replies
    const cancelAnswered: bool
    var asked: nat
    var log: seq<Event>

    constructor (replies: Replies, cancelAnswered: bool)
      ensures this.replies == replies && this.cancelAnswered == cancelAnswered && asked == 0 && log == []
    {
      this.replies := replies;
      this.cancelAnswered := cancelAnswered;
      asked, log := 0, [];
    }

    /** The answers still to come. */
    function Coming(): Replies
      reads this`asked
    {
      From(replies, asked)
    }

    method ReadStatus() returns (reply: Reply)
      modifies this
      ensures reply == replies(old(asked)) && asked == old(asked) + 1 && log == old(log) + [Asked(reply)]
    {
      reply := replies(asked);
      asked, log := asked + 1, log + [Asked(reply)];
    }

    method Cancel() returns (answered: bool)
      modifies this`log
      ensures answered == cancelAnswered && log == old(log) + [Cancelled]
    {
      log := log + [Cancelled];
      answered := cancelAnswered;
    }

    /** `createDeployment`; `accepted` is false when it throws. */
    method Create(accepted: bool) returns (created: bool)
      modifies this`log
      ensures created == accepted && log == old(log) + [Created]
    {
      log := log + [Created];
      created := accepted;
    }

    method Sleep(seconds: nat)
      modifies this`log
      ensures log == old(log) + [Waited(seconds)]
    {
      log := log + [Waited(seconds)];
    }

    method ResolvePriorAttempt(budget: nat) returns (answer: Option<Observation>)
      modifies this
      ensures var r := ResolvePrior(old(Coming()), cancelAnswered, budget);
              answer == r.answer && log == old(log) + r.log && asked == old(asked) + |Answers(r.log)|
    {
      hide WaitTotal, Answers, Statuses, CancelCount, Verdict, PollPrior, Wait;
      ghost var coming := Coming();
      var observed: seq<string> := [];
      var first := ReadStatus();
      FirstEvents(first);
      ghost var done := [Asked(first)];
      if first.Threw? {
        return None;
      }
      observed := Recorded(observed, first);
      if first.Reported? {
        if first.status.None? {
          return Some(Observation(ReconciliationRequired, None, observed, 0));
        }
        var verdict := Verdict(first.status.value);
        if verdict.Some? {
          return Some(Observation(verdict.value, first.status, observed, 0));
        }
      }
      LogSnoc(done, Cancelled);
      done := done + [Cancelled];
      var answered := Cancel();
      if !answered {
        return None;
      }
      var spent, attempt := 0, 0;
      while true
        invariant asked == old(asked) + attempt + 1 && |Answers(done)| == attempt + 1 && log == old(log) + done
        invariant spent == Spent(attempt) && observed == Statuses(done) && CancelCount(done) == 1
        invariant PollPrior(coming, budget, attempt, done) == ResolvePrior(coming, cancelAnswered, budget)
        decreases if spent > budget then 0 else budget + 1 - spent
      {
        PollPriorStep(coming, budget, attempt, done);
        var wait := Wait(attempt);
        if spent + wait > budget {
          return Some(Observation(ReconciliationRequired, if observed == [] then None else Some(observed[|observed| - 1]), observed, 1));
        }
        spent := spent + wait;
        Sleep(wait);
        var reply := ReadStatus();
        RoundAdds(done, wait, reply);
        done := done + [Waited(wait), Asked(reply)];
        attempt := attempt + 1;
        if reply.Threw? {
          return None;
        }
        observed := Recorded(observed, reply);
        if SaysNothing(reply) {
          continue;
        }
        var verdict := Verdict(reply.status.value);
        if verdict.Some? {
          return Some(Observation(verdict.value, reply.status, observed, 1));
        }
      }
    }

    method PollDeployment(budget: nat) returns (answer: Result<Terminal, PollFailure>)
      modifies this
      ensures var r := PollFor(old(Coming()), budget);
              answer == r.answer && log == old(log) + r.log && asked == old(asked) + |Answers(r.log)|
    {
      hide WaitTotal, Answers, Statuses, CancelCount, Coerced, PollCurrent, CoercedStatuses, Wait;
      hide TEMPORARY_STATUSES, TERMINAL_FAILURE_STATUSES, PAGES_DEPLOYMENT_STATUSES, SUCCESS_STATUS;
      ghost var coming := Coming();
      NothingYet();
      NothingCoerced();
      ghost var done: seq<Event> := [];
      var observedStatuses: seq<string> := [];
      var waitedSeconds: seq<nat> := [];
      var spent, attempt := 0, 0;
      while true
        invariant asked == old(asked) + attempt && |Answers(done)| == attempt && log == old(log) + done
        invariant spent == Spent(attempt) && waitedSeconds == Waits(attempt)
        invariant observedStatuses == CoercedStatuses(Answers(done))
        invariant PollCurrent(coming, budget, attempt, done) == PollFor(coming, budget)
        decreases if spent > budget then 0 else budget + 1 - spent
      {
        var reply := ReadStatus();
        LogSnoc(done, Asked(reply));
        PollCurrentStep(coming, budget, attempt, done);
        if reply.Reported? {
          CoercedSnoc(Answers(done), reply);
        }
        done := done + [Asked(reply)];
        if !reply.Reported? {
          return Err(ProviderFailed);
        }
        var status := Coerced(reply.status);
        observedStatuses := observedStatuses + [status];
        if status !in PAGES_DEPLOYMENT_STATUSES {
          return Err(StatusUnknown);
        }
        if status == SUCCESS_STATUS {
          return Ok(Terminal(status, true, observedStatuses, waitedSeconds));
        }
        if status in TERMINAL_FAILURE_STATUSES {
          return Ok(Terminal(status, false, observedStatuses, waitedSeconds));
        }
        if status !in TEMPORARY_STATUSES {
          return Err(StatusUnpartitioned);
        }
        var wait := Wait(attempt);
        if spent + wait > budget {
          return Err(BudgetExhausted);
        }
        spent := spent + wait;
        waitedSeconds := waitedSeconds + [wait];
        Sleep(wait);
        LogSnoc(done, Waited(wait));
        done := done + [Waited(wait)];
        attempt := attempt + 1;
      }
    }
  }
}
