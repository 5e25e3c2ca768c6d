/** The life of one row of the exact-time fire log, with workers racing for it: claimed by an
    insert under a unique key, retried through conditional updates, released by a low-disk skip,
    and marked captured in the same step that writes the frame.
 */
module AnchorRetries {
  import opened Options
  import opened Ints
  import opened Anchors
  import opened FireLog

  const RETRY_BASE := 15
  const MAX_ATTEMPTS := 7
  const AUTH_MAX_ATTEMPTS := 2
  const RETRY_GRACE_MARGIN := 30

  function Pow2(n: nat): nat { if n == 0 then 1 else 2 * Pow2(n - 1) }

  // The wait before the next attempt of a failed anchor, or nothing when the failure is final.
  function RetryDelay(attempts: int, remaining: int, auth: bool): Option<int> {
    if attempts < 1 || attempts >= (if auth then AUTH_MAX_ATTEMPTS else MAX_ATTEMPTS) then None
    else
      var delay := RETRY_BASE * Pow2(attempts - 1);
      if delay > remaining - RETRY_GRACE_MARGIN then None else Some(delay)
  }

  datatype Row = Row(status: Status, attempts: nat, nextAttempt: Option<int>)

  type Worker = int

  // One row and the workers on it. inFlight holds the attempt number each worker is making.
  // lateWrites counts timed-out attempts whose frame write is still running in its thread.
  // authFailures and delay count since the row was last inserted, totals from the start.
  datatype State = State(row: Option<Row>, inFlight: map<Worker, nat>, lateWrites: nat, frames: nat,
                         alerts: nat, authFailures: nat, delay: nat, totals: Totals)

  // For the base date: claims of the row for an attempt, attempts made (those that failed, wrote
  // a frame or were cut off; a low-disk skip comes before the camera is asked), authentication
  // failures and seconds of scheduled waiting.
  datatype Totals = Totals(claims: nat, attempts: nat, authFailures: nat, delay: nat)

  const Start := State(None, map[], 0, 0, 0, 0, 0, Totals(0, 0, 0, 0))

  datatype Action =
    | Evaluate(w: Worker, now: int, hasGeo: bool)  // claim the row, or reclaim a due retry
    | Written(w: Worker)                           // the frame is written, the row marked with it
    | Fails(w: Worker, at: int, auth: bool, writing: bool)  // the attempt fails or times out
    | LateWrite                                    // a timed-out attempt's write finishes
    | LowDisk(w: Worker)                           // the capture is skipped, the row released
    | Crash(w: Worker, writing: bool)              // the worker is gone, or cut off by its guard

  // One atomic step for the row of an anchor firing at `instant`. A step that is not enabled
  // changes nothing.
  function Step(s: State, a: Action, instant: int): State {
    match a
    case Evaluate(w, now, hasGeo) =>
      if w in s.inFlight || now < instant then s else EvaluateRow(s, w, now, instant, hasGeo)
    case Written(w) =>
      if w !in s.inFlight then s
      else Made(s.(row := MarkCaptured(s.row), frames := s.frames + 1, inFlight := s.inFlight - {w}))
    case Fails(w, at, auth, writing) =>
      if w !in s.inFlight then s
      else
        var s' := FailAttempt(s, s.inFlight[w], at, auth, instant);
        Made(s'.(inFlight := s.inFlight - {w}, lateWrites := s.lateWrites + if writing then 1 else 0))
    case LateWrite =>
      if s.lateWrites == 0 then s
      else s.(row := MarkCaptured(s.row), frames := s.frames + 1, lateWrites := s.lateWrites - 1)
    case LowDisk(w) =>
      if w !in s.inFlight then s else s.(row := None, inFlight := s.inFlight - {w})
    case Crash(w, writing) =>
      if w !in s.inFlight then s
      else Made(s.(inFlight := s.inFlight - {w}, lateWrites := s.lateWrites + if writing then 1 else 0))
  }

  function Made(s: State): State { s.(totals := s.totals.(attempts := s.totals.attempts + 1)) }

  function MarkCaptured(row: Option<Row>): Option<Row> {
    match row
    case None => None
    case Some(r) => Some(r.(status := Captured, nextAttempt := None))
  }

  // Insert the row, or look at the one that exists.
  function EvaluateRow(s: State, w: Worker, now: int, instant: int, hasGeo: bool): State {
    var within := now <= instant + EXACT_TIME_GRACE;
    match s.row
    case None =>
      var status := ClaimStatus(hasGeo, within);
      var s' := s.(row := Some(Row(status, 1, None)), authFailures := 0, delay := 0);
      if status == Failed then Attempt(s', w, 1) else s'
    case Some(r) =>
      if !hasGeo || r.status != RetryPending then s
      else if !within then
        s.(row := Some(r.(status := Failed, nextAttempt := None)), alerts := s.alerts + 1)
      else if r.nextAttempt.Some? && r.nextAttempt.value > now then s
      else
        Attempt(s.(row := Some(Row(Failed, r.attempts + 1, None))), w, r.attempts + 1)
  }

  function Attempt(s: State, w: Worker, n: nat): State {
    s.(inFlight := s.inFlight[w := n], totals := s.totals.(claims := s.totals.claims + 1))
  }

  // Park the row for a retry, or make the failure final. Both updates are conditional on the
  // row still being in this attempt's provisional state.
  function FailAttempt(s: State, n: nat, at: int, auth: bool, instant: int): State {
    var failures := if auth then 1 else 0;
    var s' := s.(authFailures := s.authFailures + failures,
                 totals := s.totals.(authFailures := s.totals.authFailures + failures));
    var retry := RetryDelay(n, instant + EXACT_TIME_GRACE - at, auth);
    if s.row.None? || s.row.value.status != Failed || s.row.value.attempts != n then s'
    else if retry.None? then
      s'.(row := Some(s.row.value.(nextAttempt := None)), alerts := s.alerts + 1)
    else if s.row.value.nextAttempt.Some? then s'
    else
      s'.(row := Some(Row(RetryPending, n, Some(at + retry.value))), delay := s.delay + retry.value,
          totals := s'.totals.(delay := s.totals.delay + retry.value))
  }

  function Run(s: State, actions: seq<Action>, instant: int): State {
    if actions == [] then s else Step(Run(s, actions[..|actions| - 1], instant), actions[|actions| - 1], instant)
  }

  predicate AtMostOneInFlight(s: State) {
    forall v, w :: v in s.inFlight && w in s.inFlight ==> v == w
  }

  // What every step keeps, whatever the workers do.
  predicate Inv(s: State, instant: int) {
    && AtMostOneInFlight(s)
    && (s.row.None? ==> s.inFlight == map[] && s.alerts == 0 && s.authFailures <= 2 && s.delay <= 945)
    && (s.row.Some? ==> InvRow(s, s.row.value, instant))
  }

  predicate InvRow(s: State, r: Row, instant: int) {
    && 1 <= r.attempts <= MAX_ATTEMPTS
    && s.alerts <= 1
    && (s.alerts == 1 ==> s.inFlight == map[] && (r.status == Failed || r.status == Captured))
    && (forall w :: w in s.inFlight ==> s.inFlight[w] == r.attempts && (r.status == Failed || r.status == Captured))
    && (r.status == RetryPending <==> r.nextAttempt.Some?)
    && (r.status == RetryPending ==>
          && s.inFlight == map[] && r.attempts < MAX_ATTEMPTS
          && r.nextAttempt.value <= instant + EXACT_TIME_GRACE - RETRY_GRACE_MARGIN
          && s.authFailures <= 1 && s.delay == RETRY_BASE * (Pow2(r.attempts) - 1))
    && (s.inFlight != map[] ==>
          && s.authFailures <= (if r.attempts == 1 then 0 else 1)
          && s.delay == RETRY_BASE * (Pow2(r.attempts - 1) - 1))
    && s.authFailures <= 2 && s.delay <= 945
  }

  lemma NoneLeft(s: State, w: Worker)
    requires AtMostOneInFlight(s) && w in s.inFlight
    ensures s.inFlight - {w} == map[]
  {
    var rest := s.inFlight - {w};
    assert forall v :: v in s.inFlight.Keys ==> v in s.inFlight && v == w;
    assert rest.Keys == s.inFlight.Keys - {w} == {};
  }

  lemma Pow2Bound(n: nat, m: nat)
    requires n <= m
    ensures Pow2(n) <= Pow2(m)
  {}

  lemma DelayBound(n: nat)
    requires n < MAX_ATTEMPTS
    ensures RETRY_BASE * (Pow2(n) - 1) <= 945
  {
    Pow2Bound(n, 6);
    assert Pow2(6) == 64;
  }

  lemma EvaluateKeepsInv(s: State, w: Worker, now: int, hasGeo: bool, instant: int)
    requires Inv(s, instant)
    ensures Inv(Step(s, Evaluate(w, now, hasGeo), instant), instant)
  {
    assert Pow2(0) == 1;
    hide Pow2;
  }

  lemma FailKeepsInv(s: State, w: Worker, at: int, auth: bool, writing: bool, instant: int)
    requires Inv(s, instant)
    ensures Inv(Step(s, Fails(w, at, auth, writing), instant), instant)
  {
    if w in s.inFlight {
      var n := s.inFlight[w];
      NoneLeft(s, w);
      if n < MAX_ATTEMPTS { DelayBound(n); }
      assert Pow2(n) == 2 * Pow2(n - 1);
    }
    hide Pow2;
  }

  lemma StepKeepsInv(s: State, a: Action, instant: int)
    requires Inv(s, instant)
    ensures Inv(Step(s, a, instant), instant)
  {
    match a
    case Evaluate(w, now, hasGeo) => EvaluateKeepsInv(s, w, now, hasGeo, instant);
    case Fails(w, at, auth, writing) => FailKeepsInv(s, w, at, auth, writing, instant);
    case Written(w) => OthersKeepInv(s, a, instant);
    case LateWrite => OthersKeepInv(s, a, instant);
    case LowDisk(w) => OthersKeepInv(s, a, instant);
    case Crash(w, writing) => OthersKeepInv(s, a, instant);
  }

  lemma OthersKeepInv(s: State, a: Action, instant: int)
    requires Inv(s, instant) && !a.Evaluate? && !a.Fails?
    ensures Inv(Step(s, a, instant), instant)
  {
    hide Pow2;
    match a
    case Written(w) => if w in s.inFlight { NoneLeft(s, w); }
    case LateWrite =>
    case LowDisk(w) => if w in s.inFlight { NoneLeft(s, w); }
    case Crash(w, writing) => if w in s.inFlight { NoneLeft(s, w); }
  }

  /** Whatever the workers do: one attempt at a time, at most seven of them and two
      authentication failures to a row, at most 945 seconds of scheduled waiting, every retry
      due 30 seconds or more before the grace closes, and at most one failure alert. */
  lemma {:induction false} RunKeepsInv(actions: seq<Action>, instant: int)
    ensures Inv(Run(Start, actions, instant), instant)
  {
    if actions != [] {
      RunKeepsInv(actions[..|actions| - 1], instant);
      StepKeepsInv(Run(Start, actions[..|actions| - 1], instant), actions[|actions| - 1], instant);
    }
  }

  // Seven attempts, each failing at once and retried the moment it is due.
  function RetryTime(n: nat, instant: int): int { instant + RETRY_BASE * (Pow2(n) - 1) }

  function FailingRun(n: nat, instant: int): seq<Action> {
    if n == 0 then []
    else
      var t := RetryTime(n - 1, instant);
      FailingRun(n - 1, instant) + [Evaluate(0, t, true)] + [Fails(0, t, false, false)]
  }

  lemma RunMore(s: State, actions: seq<Action>, a: Action, instant: int)
    ensures Run(s, actions + [a], instant) == Step(Run(s, actions, instant), a, instant)
  {
    assert (actions + [a])[..|actions|] == actions;
  }

  // After n failed attempts, each made on time.
  predicate AfterFailures(s: State, n: nat, instant: int) {
    && s.inFlight == map[] && s.lateWrites == 0 && s.authFailures == 0 && s.frames == 0
    && if n == 0 then s == Start
       else if n < MAX_ATTEMPTS
       then && s.row == Some(Row(RetryPending, n, Some(RetryTime(n, instant)))) && s.alerts == 0
            && s.delay == RETRY_BASE * (Pow2(n) - 1)
       else s.row == Some(Row(Failed, n, None)) && s.alerts == 1 && s.delay == 945
  }

  lemma OnTimeRetry(n: nat, instant: int)
    requires n < MAX_ATTEMPTS
    ensures var t := RetryTime(n, instant);
            && instant <= t <= instant + 945
            && RetryDelay(n + 1, instant + EXACT_TIME_GRACE - t, false)
               == if n + 1 < MAX_ATTEMPTS then Some(RetryTime(n + 1, instant) - t) else None
  {
    DelayBound(n);
    Pow2Bound(0, n);
    assert Pow2(n + 1) == 2 * Pow2(n);
    if n + 1 < MAX_ATTEMPTS { DelayBound(n + 1); }
  }

  lemma OneMoreFailure(s: State, n: nat, instant: int)
    requires n < MAX_ATTEMPTS && AfterFailures(s, n, instant)
    ensures var t := RetryTime(n, instant);
            var held := Step(s, Evaluate(0, t, true), instant);
            AfterFailures(Step(held, Fails(0, t, false, false), instant), n + 1, instant)
  {
    var t := RetryTime(n, instant);
    OnTimeRetry(n, instant);
    assert Pow2(0) == 1 && Pow2(6) == 64;
    hide RetryDelay, Pow2;
    var held := Step(s, Evaluate(0, t, true), instant);
    assert held.row == Some(Row(Failed, n + 1, None)) && held.inFlight == map[0 := n + 1];
    assert held.inFlight - {0} == map[];
  }

  /** The bounds are reached: an anchor whose every attempt fails is retried after 15, 30, 60,
      120, 240 and 480 seconds, then given up with one alert. */
  lemma {:induction false} EveryRetryIsMade(n: nat, instant: int)
    requires n <= MAX_ATTEMPTS
    ensures AfterFailures(Run(Start, FailingRun(n, instant), instant), n, instant)
  {
    hide Step, AfterFailures;
    if n == 0 {
      NoFailureYet(instant);
    } else {
      var before, t := FailingRun(n - 1, instant), RetryTime(n - 1, instant);
      EveryRetryIsMade(n - 1, instant);
      RunMore(Start, before, Evaluate(0, t, true), instant);
      RunMore(Start, before + [Evaluate(0, t, true)], Fails(0, t, false, false), instant);
      OneMoreFailure(Run(Start, before, instant), n - 1, instant);
    }
  }

  lemma NoFailureYet(instant: int)
    ensures AfterFailures(Start, 0, instant)
  {}

  /** An authentication failure is retried once: two of them and the row is given up. */
  lemma AuthIsRetriedOnce(instant: int)
    ensures var s := Run(Start, [Evaluate(0, instant, true), Fails(0, instant, true, false)], instant);
            && s.row == Some(Row(RetryPending, 1, Some(instant + 15))) && s.authFailures == 1
            && var held := Step(s, Evaluate(0, instant + 15, true), instant);
               var last := Step(held, Fails(0, instant + 15, true, false), instant);
               last.row == Some(Row(Failed, 2, None)) && last.alerts == 1 && last.authFailures == 2
  {
    var claim, fail := Evaluate(0, instant, true), Fails(0, instant, true, false);
    RunMore(Start, [], claim, instant);
    RunMore(Start, [claim], fail, instant);
    assert [] + [claim] == [claim] && [claim] + [fail] == [claim, fail];
    assert Step(Start, claim, instant).inFlight == map[0 := 1];
    assert Pow2(0) == 1 && Pow2(1) == 2;
  }

  // ---------------------------------------------------------------------------------------
  // Totals for a base date
  // ---------------------------------------------------------------------------------------

  predicate NoLowDisk(actions: seq<Action>) {
    forall a :: a in actions ==> !a.LowDisk?
  }

  // While no claim is released, the totals are those of the one row there is.
  predicate OneRow(s: State) {
    && s.totals.authFailures == s.authFailures && s.totals.delay == s.delay
    && s.totals.attempts + (if s.inFlight == map[] then 0 else 1) <= s.totals.claims
    && s.totals.claims <= (if s.row.None? then 0 else s.row.value.attempts)
    && (s.row.None? ==> s.authFailures == 0 && s.delay == 0)
  }

  lemma StepKeepsOneRow(s: State, a: Action, instant: int)
    requires Inv(s, instant) && OneRow(s) && !a.LowDisk?
    ensures OneRow(Step(s, a, instant))
  {
    hide Pow2;
    match a
    case Evaluate(w, now, hasGeo) =>
    case Written(w) => if w in s.inFlight { NoneLeft(s, w); }
    case Fails(w, at, auth, writing) => if w in s.inFlight { NoneLeft(s, w); }
    case LateWrite =>
    case Crash(w, writing) => if w in s.inFlight { NoneLeft(s, w); }
  }

  lemma {:induction false} RunKeepsOneRow(actions: seq<Action>, instant: int)
    requires NoLowDisk(actions)
    ensures OneRow(Run(Start, actions, instant))
  {
    hide Step;
    if actions != [] {
      var n := |actions| - 1;
      RunKeepsOneRow(actions[..n], instant);
      RunKeepsInv(actions[..n], instant);
      StepKeepsOneRow(Run(Start, actions[..n], instant), actions[n], instant);
    }
  }

  /** In every run without a low-disk skip a base date gets at most seven attempts, two
      authentication failures and 945 seconds of scheduled waiting in all. */
  lemma TotalsAreBounded(actions: seq<Action>, instant: int)
    requires NoLowDisk(actions)
    ensures var t := Run(Start, actions, instant).totals;
            t.attempts <= t.claims <= 7 && t.authFailures <= 2 && t.delay <= 945
  {
    hide Run;
    RunKeepsOneRow(actions, instant);
    RunKeepsInv(actions, instant);
  }

  /** A low-disk skip forgets the attempts made: the next claim within grace is for a first
      attempt again. */
  lemma LowDiskStartsOver(s: State, w: Worker, now: int, instant: int)
    requires Inv(s, instant) && w in s.inFlight && InGrace(instant, now)
    ensures var after := Step(Step(s, LowDisk(w), instant), Evaluate(w, now, true), instant);
            && after.row == Some(Row(Failed, 1, None)) && after.inFlight == map[w := 1]
            && after.authFailures == 0 && after.delay == 0
            && after.totals == s.totals.(claims := s.totals.claims + 1)
  {
    NoneLeft(s, w);
  }

  function SkipsAndClaims(n: nat, w: Worker, now: int): seq<Action> {
    if n == 0 then [] else SkipsAndClaims(n - 1, w, now) + [LowDisk(w)] + [Evaluate(w, now, true)]
  }

  /** With low-disk skips there is no bound on the claims: an attempt in flight within grace can
      be followed by any number of other claims. */
  lemma {:induction false} LowDiskUnboundsClaims(s: State, n: nat, w: Worker, now: int, instant: int)
    requires Inv(s, instant) && w in s.inFlight && InGrace(instant, now)
    ensures var s' := Run(s, SkipsAndClaims(n, w, now), instant);
            Inv(s', instant) && w in s'.inFlight && s'.totals.claims == s.totals.claims + n
  {
    hide Step, Inv;
    if n > 0 {
      var before := SkipsAndClaims(n - 1, w, now);
      LowDiskUnboundsClaims(s, n - 1, w, now, instant);
      var s1 := Run(s, before, instant);
      RunMore(s, before, LowDisk(w), instant);
      RunMore(s, before + [LowDisk(w)], Evaluate(w, now, true), instant);
      StepKeepsInv(s1, LowDisk(w), instant);
      StepKeepsInv(Step(s1, LowDisk(w), instant), Evaluate(w, now, true), instant);
      LowDiskStartsOver(s1, w, now, instant);
    }
  }

  // A low-disk skip, a new claim that fails to authenticate, and its retry 15 seconds later.
  function Round(w: Worker, t: int): seq<Action> {
    [LowDisk(w), Evaluate(w, t, true), Fails(w, t, true, false), Evaluate(w, t + RETRY_BASE, true)]
  }

  function Rounds(n: nat, w: Worker, now: int): seq<Action> {
    if n == 0 then [] else Rounds(n - 1, w, now) + Round(w, now + RETRY_BASE * (n - 1))
  }

  lemma RunFour(s: State, before: seq<Action>, a: Action, b: Action, c: Action, d: Action, instant: int)
    ensures Run(s, before + [a, b, c, d], instant) ==
            Step(Step(Step(Step(Run(s, before, instant), a, instant), b, instant), c, instant), d, instant)
  {
    hide Step, Run;
    RunMore(s, before, a, instant);
    RunMore(s, before + [a], b, instant);
    RunMore(s, before + [a] + [b], c, instant);
    RunMore(s, before + [a] + [b] + [c], d, instant);
    assert before + [a] + [b] + [c] + [d] == before + [a, b, c, d];
  }

  lemma OneRound(s: State, w: Worker, t: int, instant: int)
    requires Inv(s, instant) && w in s.inFlight
    requires instant <= t && t + RETRY_BASE + RETRY_GRACE_MARGIN <= instant + EXACT_TIME_GRACE
    ensures var released := Step(s, LowDisk(w), instant);
            var claimed := Step(released, Evaluate(w, t, true), instant);
            var parked := Step(claimed, Fails(w, t, true, false), instant);
            var s' := Step(parked, Evaluate(w, t + RETRY_BASE, true), instant);
            && Inv(s', instant) && w in s'.inFlight
            && s'.totals == Totals(s.totals.claims + 2, s.totals.attempts + 1, s.totals.authFailures + 1,
                                   s.totals.delay + RETRY_BASE)
  {
    var released := Step(s, LowDisk(w), instant);
    var claimed := Step(released, Evaluate(w, t, true), instant);
    var parked := Step(claimed, Fails(w, t, true, false), instant);
    assert Inv(parked, instant) by {
      hide Step, Inv;
      StepKeepsInv(s, LowDisk(w), instant);
      StepKeepsInv(released, Evaluate(w, t, true), instant);
      StepKeepsInv(claimed, Fails(w, t, true, false), instant);
    }
    LowDiskStartsOver(s, w, t, instant);
    assert RetryDelay(1, instant + EXACT_TIME_GRACE - t, true) == Some(RETRY_BASE) by { assert Pow2(0) == 1; }
    assert parked.row == Some(Row(RetryPending, 1, Some(t + RETRY_BASE)));
    StepKeepsInv(parked, Evaluate(w, t + RETRY_BASE, true), instant);
    hide RetryDelay, Pow2, Inv;
  }

  /** Each round of these, from any attempt in flight, adds an attempt that fails to authenticate
      and 15 seconds of waiting: three rounds pass the limit of two failures, eight that of seven
      attempts, 64 the 945 seconds. */
  lemma {:induction false} LowDiskExceedsTotals(s: State, n: nat, w: Worker, now: int, instant: int)
    requires Inv(s, instant) && w in s.inFlight
    requires instant <= now && (n == 0 || now + RETRY_BASE * n + RETRY_GRACE_MARGIN <= instant + EXACT_TIME_GRACE)
    ensures var s' := Run(s, Rounds(n, w, now), instant);
            && Inv(s', instant) && w in s'.inFlight
            && s'.totals == Totals(s.totals.claims + 2 * n, s.totals.attempts + n, s.totals.authFailures + n,
                                   s.totals.delay + RETRY_BASE * n)
  {
    hide Step, Inv;
    if n > 0 {
      var t := now + RETRY_BASE * (n - 1);
      LowDiskExceedsTotals(s, n - 1, w, now, instant);
      RunFour(s, Rounds(n - 1, w, now), LowDisk(w), Evaluate(w, t, true), Fails(w, t, true, false),
              Evaluate(w, t + RETRY_BASE, true), instant);
      OneRound(Run(s, Rounds(n - 1, w, now), instant), w, t, instant);
    }
  }

  // From the first claim: 45 seconds after the fire the camera has refused the login three times.
  lemma ThreeAuthFailures(w: Worker, instant: int)
    ensures var claimed := Step(Start, Evaluate(w, instant, true), instant);
            Run(claimed, Rounds(3, w, instant), instant).totals.authFailures == 3
  {
    var claimed := Step(Start, Evaluate(w, instant, true), instant);
    assert Inv(claimed, instant);
    LowDiskExceedsTotals(claimed, 3, w, instant, instant);
    hide Run, Inv;
  }

  // The last instant an action of the run was made at.
  function ClockAfter(actions: seq<Action>, start: int): int {
    if actions == [] then start
    else
      match actions[|actions| - 1]
      case Evaluate(_, now, _) => now
      case Fails(_, at, _, _) => at
      case _ => ClockAfter(actions[..|actions| - 1], start)
  }

  predicate ClockAdvances(actions: seq<Action>, start: int) {
    forall n :: 0 <= n < |actions| ==> ClockAfter(actions[..n], start) <= ClockAfter(actions[..n + 1], start)
  }

  // No attempt is in flight and none is to come.
  predicate GivenUp(s: State) {
    s.row.Some? && s.row.value.status != RetryPending && s.inFlight == map[]
  }

  // The last instant a retry may be due.
  function LastDue(instant: int): int { instant + EXACT_TIME_GRACE - RETRY_GRACE_MARGIN }

  // Totals at an instant from which later ones are measured.
  datatype Since = Since(totals: Totals, from: int)

  // The waits scheduled since then have passed by the clock, or by the time the retry is due.
  // Every attempt made since then but the last scheduled one.
  predicate InvClock(s: State, c: int, b: Since, instant: int) {
    var waits, made := s.totals.delay - b.totals.delay, s.totals.attempts - b.totals.attempts;
    var failures := s.totals.authFailures - b.totals.authFailures;
    && (b.from == instant || b.from <= c)
    && waits % RETRY_BASE == 0 && (waits == 0 || waits <= LastDue(instant) - b.from)
    && (s.inFlight != map[] ==> waits <= c - b.from)
    && (s.row.None? ==> waits == 0 || waits <= c - b.from)
    && (s.row.Some? && s.row.value.nextAttempt.Some? ==> waits <= s.row.value.nextAttempt.value - b.from)
    && failures <= made && RETRY_BASE * made <= waits + if GivenUp(s) then RETRY_BASE else 0
  }

  lemma DelayIsWhole(attempts: int, remaining: int, auth: bool)
    ensures var r := RetryDelay(attempts, remaining, auth);
            r.Some? ==> RETRY_BASE <= r.value && r.value % RETRY_BASE == 0
  {
    if attempts >= 1 {
      Pow2Bound(0, attempts - 1);
      Multiple(Pow2(attempts - 1));
    }
    hide Pow2;
  }

  lemma Multiple(n: nat)
    ensures RETRY_BASE * n % RETRY_BASE == 0
  {}

  lemma EvaluateKeepsInvClock(s: State, w: Worker, now: int, hasGeo: bool, c: int, b: Since, instant: int)
    requires Inv(s, instant) && InvClock(s, c, b, instant) && c <= now
    ensures InvClock(Step(s, Evaluate(w, now, hasGeo), instant), now, b, instant)
  {
    hide Pow2;
  }

  lemma FailKeepsInvClock(s: State, w: Worker, at: int, auth: bool, writing: bool, c: int, b: Since, instant: int)
    requires Inv(s, instant) && InvClock(s, c, b, instant) && c <= at
    ensures InvClock(Step(s, Fails(w, at, auth, writing), instant), at, b, instant)
  {
    if w in s.inFlight {
      NoneLeft(s, w);
      DelayIsWhole(s.inFlight[w], instant + EXACT_TIME_GRACE - at, auth);
      var delay := RetryDelay(s.inFlight[w], instant + EXACT_TIME_GRACE - at, auth);
      assert delay.Some? ==> at + delay.value <= LastDue(instant);
    }
    hide Pow2, RetryDelay, InvRow;
  }

  lemma StepKeepsInvClock(s: State, a: Action, c: int, c': int, b: Since, instant: int)
    requires Inv(s, instant) && InvClock(s, c, b, instant) && c <= c'
    requires a.Evaluate? ==> c' == a.now
    requires a.Fails? ==> c' == a.at
    ensures InvClock(Step(s, a, instant), c', b, instant)
  {
    hide Pow2, RetryDelay;
    match a
    case Evaluate(w, now, hasGeo) => EvaluateKeepsInvClock(s, w, now, hasGeo, c, b, instant);
    case Fails(w, at, auth, writing) => FailKeepsInvClock(s, w, at, auth, writing, c, b, instant);
    case Written(w) => if w in s.inFlight { NoneLeft(s, w); }
    case LateWrite =>
    case LowDisk(w) => if w in s.inFlight { NoneLeft(s, w); }
    case Crash(w, writing) => if w in s.inFlight { NoneLeft(s, w); }
  }

  lemma {:induction false} RunKeepsInvClock(s: State, actions: seq<Action>, start: int, b: Since, instant: int)
    requires Inv(s, instant) && InvClock(s, start, b, instant) && ClockAdvances(actions, start)
    ensures Inv(Run(s, actions, instant), instant)
    ensures InvClock(Run(s, actions, instant), ClockAfter(actions, start), b, instant)
  {
    hide Step, InvClock, Inv;
    if actions != [] {
      var n := |actions| - 1;
      var front := actions[..n];
      forall k | 0 <= k < n ensures ClockAfter(front[..k], start) <= ClockAfter(front[..k + 1], start) {
        assert front[..k] == actions[..k] && front[..k + 1] == actions[..k + 1];
      }
      RunKeepsInvClock(s, front, start, b, instant);
      assert actions[..n + 1] == actions;
      StepKeepsInv(Run(s, front, instant), actions[n], instant);
      StepKeepsInvClock(Run(s, front, instant), actions[n], ClockAfter(front, start), ClockAfter(actions, start), b,
                        instant);
    }
  }

  /** Whatever is skipped, while the clock does not go back a base date gets at most 1770
      seconds of scheduled waiting and 119 attempts, so 119 authentication failures. */
  lemma ClockBoundsTotals(actions: seq<Action>, start: int, instant: int)
    requires ClockAdvances(actions, start)
    ensures var t := Run(Start, actions, instant).totals; t.delay <= 1770 && t.authFailures <= t.attempts <= 119
  {
    RunKeepsInvClock(Start, actions, start, Since(Totals(0, 0, 0, 0), instant), instant);
    hide Run, Inv;
  }

  // How many waits of 15 seconds the grace still has room for.
  function RoomFor(now: int, instant: int): nat {
    if now <= LastDue(instant) then (LastDue(instant) - now) / RETRY_BASE else 0
  }

  // The most attempts, authentication failures and waiting a run can come to from an attempt in
  // flight.
  lemma TotalsFromHere(s: State, w: Worker, now: int, instant: int, actions: seq<Action>)
    requires Inv(s, instant) && w in s.inFlight && instant <= now && ClockAdvances(actions, now)
    ensures var t := Run(s, actions, instant).totals;
            && t.delay <= s.totals.delay + RETRY_BASE * RoomFor(now, instant)
            && t.attempts <= s.totals.attempts + RoomFor(now, instant) + 1
            && t.authFailures <= s.totals.authFailures + RoomFor(now, instant) + 1
  {
    RunKeepsInvClock(s, actions, now, Since(s.totals, now), instant);
    hide Run, Inv;
  }

  function LongestRun(w: Worker, now: int, instant: int): seq<Action> {
    var n := RoomFor(now, instant);
    Rounds(n, w, now) + [Fails(w, now + RETRY_BASE * n, true, false)]
  }

  // Low-disk skips reach that.
  lemma TotalsReached(s: State, w: Worker, now: int, instant: int)
    requires Inv(s, instant) && w in s.inFlight && instant <= now
    ensures var t := Run(s, LongestRun(w, now, instant), instant).totals;
            && ClockAdvances(LongestRun(w, now, instant), now)
            && t.delay >= s.totals.delay + RETRY_BASE * RoomFor(now, instant)
            && t.attempts == s.totals.attempts + RoomFor(now, instant) + 1
            && t.authFailures == s.totals.authFailures + RoomFor(now, instant) + 1
  {
    var n := RoomFor(now, instant);
    var last := Fails(w, now + RETRY_BASE * n, true, false);
    LowDiskExceedsTotals(s, n, w, now, instant);
    RunMore(s, Rounds(n, w, now), last, instant);
    RoundsAdvance(n, w, now);
    AdvancesMore(Rounds(n, w, now), last, now, now + RETRY_BASE * n);
    hide Run, Inv, Rounds, Step, ClockAdvances;
    FailureCounts(Run(s, Rounds(n, w, now), instant), w, now + RETRY_BASE * n, instant);
  }

  lemma FailureCounts(s: State, w: Worker, at: int, instant: int)
    requires w in s.inFlight
    ensures var t := Step(s, Fails(w, at, true, false), instant).totals;
            && t.attempts == s.totals.attempts + 1 && t.authFailures == s.totals.authFailures + 1
            && t.delay >= s.totals.delay
  {
    DelayIsWhole(s.inFlight[w], instant + EXACT_TIME_GRACE - at, true);
    hide RetryDelay;
  }

  lemma AdvancesMore(actions: seq<Action>, a: Action, start: int, c: int)
    requires ClockAdvances(actions, start) && ClockAfter(actions, start) <= c
    requires match a case Evaluate(_, now, _) => c == now case Fails(_, at, _, _) => c == at
                     case _ => c == ClockAfter(actions, start)
    ensures ClockAdvances(actions + [a], start) && ClockAfter(actions + [a], start) == c
  {
    var more := actions + [a];
    assert more[..|actions|] == actions;
    assert more[..|more|] == more;
    forall n | 0 <= n < |more| ensures ClockAfter(more[..n], start) <= ClockAfter(more[..n + 1], start) {
      if n < |actions| { assert more[..n] == actions[..n] && more[..n + 1] == actions[..n + 1]; }
    }
  }

  lemma {:induction false} RoundsAdvance(n: nat, w: Worker, now: int)
    ensures ClockAdvances(Rounds(n, w, now), now) && ClockAfter(Rounds(n, w, now), now) == now + RETRY_BASE * n
  {
    hide ClockAdvances;
    if n == 0 {
      assert ClockAdvances([], now) by { NothingAdvances(now); }
    } else {
      var before, t := Rounds(n - 1, w, now), now + RETRY_BASE * (n - 1);
      var r := Round(w, t);
      RoundsAdvance(n - 1, w, now);
      AdvancesMore(before, r[0], now, t);
      AdvancesMore(before + [r[0]], r[1], now, t);
      AdvancesMore(before + [r[0]] + [r[1]], r[2], now, t);
      AdvancesMore(before + [r[0]] + [r[1]] + [r[2]], r[3], now, t + RETRY_BASE);
      assert before + [r[0]] + [r[1]] + [r[2]] + [r[3]] == Rounds(n, w, now);
    }
  }

  lemma NothingAdvances(start: int)
    ensures ClockAdvances([], start)
  {}

  /** From an attempt in flight, some run whose clock does not go back passes seven attempts, two
      authentication failures or 945 seconds of waiting exactly when the waits of 15 seconds the
      grace still has room for take that total past it. */
  lemma LimitsCanBePassed(s: State, w: Worker, now: int, instant: int)
    requires Inv(s, instant) && w in s.inFlight && instant <= now
    ensures (exists run :: ClockAdvances(run, now) && Run(s, run, instant).totals.attempts > MAX_ATTEMPTS)
            <==> s.totals.attempts + RoomFor(now, instant) + 1 > MAX_ATTEMPTS
    ensures (exists run :: ClockAdvances(run, now) && Run(s, run, instant).totals.authFailures > AUTH_MAX_ATTEMPTS)
            <==> s.totals.authFailures + RoomFor(now, instant) + 1 > AUTH_MAX_ATTEMPTS
    ensures (exists run :: ClockAdvances(run, now) && Run(s, run, instant).totals.delay > 945)
            <==> s.totals.delay + RETRY_BASE * RoomFor(now, instant) > 945
  {
    hide Inv, Run, ClockAdvances, LongestRun, RoomFor;
    TotalsReached(s, w, now, instant);
    forall run | ClockAdvances(run, now)
      ensures var t := Run(s, run, instant).totals;
              && t.delay <= s.totals.delay + RETRY_BASE * RoomFor(now, instant)
              && t.attempts <= s.totals.attempts + RoomFor(now, instant) + 1
              && t.authFailures <= s.totals.authFailures + RoomFor(now, instant) + 1
    {
      TotalsFromHere(s, w, now, instant, run);
    }
  }

  // ---------------------------------------------------------------------------------------
  // When a retry starts
  // ---------------------------------------------------------------------------------------

  // A retry is due 30 seconds or more before the grace closes, but nothing holds its start to
  // that: one due after 15 seconds starts one second before the end if it is first looked at
  // then.
  lemma RetryStartsLate(instant: int)
    ensures var claimed := Step(Start, Evaluate(0, instant, true), instant);
            var parked := Step(claimed, Fails(0, instant, false, false), instant);
            var late := Step(parked, Evaluate(0, instant + EXACT_TIME_GRACE - 1, true), instant);
            && parked.row == Some(Row(RetryPending, 1, Some(instant + RETRY_BASE)))
            && late.inFlight == map[0 := 2]
  {
    assert Pow2(0) == 1;
    assert Step(Start, Evaluate(0, instant, true), instant).inFlight == map[0 := 1];
  }

  // Evaluations by any workers.
  function EvaluateAll(ws: nat -> Worker, nows: seq<int>): seq<Action> {
    seq(|nows|, i requires 0 <= i < |nows| => Evaluate(ws(i), nows[i], true))
  }

  predicate IsPending(s: State) { s.row.Some? && s.row.value.status == RetryPending && s.row.value.nextAttempt.Some? }

  // From when on an evaluation may start the pending retry.
  function ReadyFrom(s: State, instant: int): int
    requires IsPending(s)
  {
    Max(instant, s.row.value.nextAttempt.value)
  }

  // An evaluation of a pending retry leaves it alone before it is due, and starts it from then
  // to the end of the grace.
  lemma PendingRetry(s: State, w: Worker, now: int, instant: int)
    requires Inv(s, instant) && IsPending(s) && now <= instant + EXACT_TIME_GRACE
    ensures var s' := Step(s, Evaluate(w, now, true), instant);
            if now < ReadyFrom(s, instant) then s' == s else s'.inFlight == map[w := s.row.value.attempts + 1]
  {}

  lemma DueInTime(s: State, instant: int)
    requires Inv(s, instant) && IsPending(s)
    ensures s.inFlight == map[] && ReadyFrom(s, instant) <= LastDue(instant)
  {}

  lemma OneMoreEvaluation(s: State, ws: nat -> Worker, nows: seq<int>, k: nat, instant: int)
    requires k < |nows|
    ensures Run(s, EvaluateAll(ws, nows[..k + 1]), instant) ==
            Step(Run(s, EvaluateAll(ws, nows[..k]), instant), Evaluate(ws(k), nows[k], true), instant)
  {
    assert EvaluateAll(ws, nows[..k + 1]) == EvaluateAll(ws, nows[..k]) + [Evaluate(ws(k), nows[k], true)];
    RunMore(s, EvaluateAll(ws, nows[..k]), Evaluate(ws(k), nows[k], true), instant);
  }

  // Evaluations before the retry is due change nothing.
  lemma {:induction false} NotReadyYet(s: State, ws: nat -> Worker, nows: seq<int>, k: nat, instant: int)
    requires Inv(s, instant) && IsPending(s) && k <= |nows|
    requires forall i :: 0 <= i < k ==> nows[i] < ReadyFrom(s, instant)
    ensures Run(s, EvaluateAll(ws, nows[..k]), instant) == s
  {
    hide Step, Inv, ReadyFrom;
    if k > 0 {
      NotReadyYet(s, ws, nows, k - 1, instant);
      DueInTime(s, instant);
      OneMoreEvaluation(s, ws, nows, k - 1, instant);
      PendingRetry(s, ws(k - 1), nows[k - 1], instant);
    }
  }

  // Evaluation k starts the pending retry: none before it changed anything, and after it the
  // next attempt is in flight.
  predicate StartsAt(s: State, ws: nat -> Worker, nows: seq<int>, k: nat, instant: int)
    requires IsPending(s)
  {
    && k < |nows|
    && Run(s, EvaluateAll(ws, nows[..k]), instant) == s
    && Run(s, EvaluateAll(ws, nows[..k + 1]), instant).inFlight == map[ws(k) := s.row.value.attempts + 1]
  }

  // The first evaluation at or after the time the retry is due.
  lemma FirstReady(s: State, ws: nat -> Worker, nows: seq<int>, m: nat, instant: int) returns (k: nat)
    requires Inv(s, instant) && IsPending(s) && m < |nows| && ReadyFrom(s, instant) <= nows[m]
    ensures k <= m && ReadyFrom(s, instant) <= nows[k]
    ensures forall i :: 0 <= i < k ==> nows[i] < ReadyFrom(s, instant)
    ensures nows[k] <= instant + EXACT_TIME_GRACE ==> StartsAt(s, ws, nows, k, instant)
  {
    hide Step, Inv, ReadyFrom;
    k := 0;
    while nows[k] < ReadyFrom(s, instant)
      invariant k <= m && forall i :: 0 <= i < k ==> nows[i] < ReadyFrom(s, instant)
      decreases m - k
    {
      k := k + 1;
    }
    NotReadyYet(s, ws, nows, k, instant);
    OneMoreEvaluation(s, ws, nows, k, instant);
    if nows[k] <= instant + EXACT_TIME_GRACE { PendingRetry(s, ws(k), nows[k], instant); }
  }

  /** A pending retry starts at least 30 seconds before the grace closes exactly when some
      evaluation comes between the time it is due and then. */
  lemma RetryIsInTime(s: State, ws: nat -> Worker, nows: seq<int>, instant: int)
    requires Inv(s, instant) && IsPending(s) && NonDecreasing(nows)
    ensures (exists k: nat :: StartsAt(s, ws, nows, k, instant) && nows[k] <= LastDue(instant))
            <==> exists k: nat :: k < |nows| && ReadyFrom(s, instant) <= nows[k] <= LastDue(instant)
  {
    hide Step, Inv, ReadyFrom, Run;
    if k: nat :| StartsAt(s, ws, nows, k, instant) && nows[k] <= LastDue(instant) {
      DueInTime(s, instant);
      assert ws(k) in Run(s, EvaluateAll(ws, nows[..k + 1]), instant).inFlight;
      if nows[k] < ReadyFrom(s, instant) {
        NotReadyYet(s, ws, nows, k + 1, instant);
        assert false;
      }
    }
    if m: nat :| m < |nows| && ReadyFrom(s, instant) <= nows[m] <= LastDue(instant) {
      var k := FirstReady(s, ws, nows, m, instant);
      assert nows[k] <= nows[m];
    }
  }

  /** So evaluations at most `gap` seconds apart, 30 or less, start it at most `gap` seconds after
      it is due. */
  lemma RetryStartsInTime(s: State, ws: nat -> Worker, nows: seq<int>, gap: nat, instant: int) returns (k: nat)
    requires Inv(s, instant) && IsPending(s) && gap <= RETRY_GRACE_MARGIN
    requires |nows| > 0 && nows[0] <= ReadyFrom(s, instant) <= nows[|nows| - 1]
    requires forall i :: 0 <= i < |nows| - 1 ==> nows[i] <= nows[i + 1] <= nows[i] + gap
    ensures StartsAt(s, ws, nows, k, instant)
    ensures ReadyFrom(s, instant) <= nows[k] <= ReadyFrom(s, instant) + gap <= LastDue(instant) + gap
  {
    hide Step, Inv, ReadyFrom, Run, StartsAt;
    DueInTime(s, instant);
    k := FirstReady(s, ws, nows, |nows| - 1, instant);
    if k > 0 { assert nows[k - 1] < ReadyFrom(s, instant) && nows[k] <= nows[k - 1] + gap; }
  }

  /** A retry still pending when the grace has closed becomes a failure at the next evaluation,
      with its attempts kept, one alert and no new attempt. */
  lemma PendingPastGraceFails(s: State, w: Worker, now: int, instant: int)
    requires Inv(s, instant) && IsPending(s) && now > instant + 30 * 60
    ensures var s' := Step(s, Evaluate(w, now, true), instant);
            && s'.row == Some(Row(Failed, s.row.value.attempts, None)) && s'.alerts == 1
            && s'.inFlight == map[] && s'.totals == s.totals && s'.frames == s.frames
  {}

  /** An attempt that fails while its row is still provisional is retried after 15, 30, 60, ...
      seconds while there are attempts left, seven or two after an authentication failure, and
      the retry is due 30 seconds or more before the grace closes. Otherwise the failure is final,
      with one alert. */
  lemma FailureOutcome(s: State, w: Worker, at: int, auth: bool, writing: bool, instant: int)
    requires Inv(s, instant) && w in s.inFlight && s.row.value.status == Failed
    ensures var n := s.row.value.attempts;
            var s', due := Step(s, Fails(w, at, auth, writing), instant), at + 15 * Pow2(n - 1);
            && s'.inFlight == map[] && s'.frames == s.frames
            && if n < (if auth then 2 else 7) && due + 30 <= instant + 30 * 60
               then s'.row == Some(Row(RetryPending, n, Some(due))) && s'.alerts == 0
               else s'.row == Some(Row(Failed, n, None)) && s'.alerts == 1
  {
    NoneLeft(s, w);
    hide Pow2;
  }

  /** A failure does not reopen a row that a late write captured meanwhile. A worker that is gone
      leaves the row as it is, and its write, if it was writing, to finish on its own. */
  lemma CapturedIsNotReopened(s: State, w: Worker, at: int, auth: bool, writing: bool, instant: int)
    requires Inv(s, instant) && w in s.inFlight
    ensures s.row.value.status == Captured ==>
              var s' := Step(s, Fails(w, at, auth, writing), instant);
              s'.row == s.row && s'.alerts == s.alerts && s'.inFlight == map[]
    ensures var s' := Step(s, Crash(w, writing), instant);
            && s'.row == s.row && s'.alerts == s.alerts && s'.inFlight == map[] && s'.frames == s.frames
            && s'.lateWrites == s.lateWrites + if writing then 1 else 0
  {
    NoneLeft(s, w);
    hide Pow2, RetryDelay;
  }

  /** An attempt that writes its frame, or whose late write finishes, leaves the row captured and
      raises no alert. */
  lemma WriteCaptures(s: State, w: Worker, instant: int)
    requires Inv(s, instant) && w in s.inFlight
    ensures var s' := Step(s, Written(w), instant);
            && s'.row == Some(Row(Captured, s.row.value.attempts, None)) && GivenUp(s')
            && s'.frames == s.frames + 1 && s'.alerts == s.alerts && s'.lateWrites == s.lateWrites
    ensures s.lateWrites > 0 ==>
              var s' := Step(s, LateWrite, instant);
              && s'.row == Some(Row(Captured, s.row.value.attempts, None)) && s'.inFlight == s.inFlight
              && s'.frames == s.frames + 1 && s'.alerts == s.alerts && s'.lateWrites == s.lateWrites - 1
  {
    NoneLeft(s, w);
    hide Pow2;
  }

  /** Without a location an evaluation changes no row there is. */
  lemma NoLocationChangesNothing(s: State, w: Worker, now: int, instant: int)
    requires s.row.Some?
    ensures Step(s, Evaluate(w, now, false), instant) == s
  {}

  /** No evaluation by any worker at any time changes a row with no attempt in flight or to come. */
  lemma {:induction false} FinalStays(s: State, actions: seq<Action>, instant: int)
    requires GivenUp(s) && forall a :: a in actions ==> a.Evaluate?
    ensures Run(s, actions, instant) == s
  {
    if actions != [] { FinalStays(s, actions[..|actions| - 1], instant); }
  }

  /** The first evaluation of a fire: before it nothing, within grace a claim, past it a recorded
      miss without an attempt; without a location a skip. */
  lemma FirstEvaluation(w: Worker, now: int, hasGeo: bool, instant: int)
    ensures var s := Step(Start, Evaluate(w, now, hasGeo), instant);
            if now < instant then s == Start
            else if !hasGeo then s == Start.(row := Some(Row(SkippedNoGeo, 1, None)))
            else if now > instant + 30 * 60 then s == Start.(row := Some(Row(SkippedMissed, 1, None)))
            else s.row == Some(Row(Failed, 1, None)) && s.inFlight == map[w := 1] && s.alerts == 0
  {}

  // ---------------------------------------------------------------------------------------
  // One frame
  // ---------------------------------------------------------------------------------------

  // No worker holds an attempt while a timed-out attempt's write is still running.
  predicate NoOverlap(s: State) { s.lateWrites > 0 ==> s.inFlight == map[] }

  // The run never lets a new attempt overlap a late write.
  predicate NeverOverlaps(actions: seq<Action>, instant: int) {
    forall n :: 0 <= n <= |actions| ==> NoOverlap(Run(Start, actions[..n], instant))
  }

  predicate OneFrame(s: State) {
    && s.frames + s.lateWrites <= 1
    && (s.frames == 1 ==> s.row.Some? && s.row.value.status == Captured && s.inFlight == map[])
    && (s.lateWrites == 1 ==> s.row.Some?)
  }

  lemma StepKeepsOneFrame(s: State, a: Action, instant: int)
    requires Inv(s, instant) && NoOverlap(s) && OneFrame(s) && NoOverlap(Step(s, a, instant))
    ensures OneFrame(Step(s, a, instant))
  {
    match a
    case Fails(w, at, auth, writing) => if w in s.inFlight { NoneLeft(s, w); }
    case Written(w) => if w in s.inFlight { NoneLeft(s, w); }
    case Crash(w, writing) => if w in s.inFlight { NoneLeft(s, w); }
    case _ =>
  }

  /** An anchor's base date gets at most one frame in every run that starts no attempt while a
      timed-out attempt's frame write is still running. */
  lemma {:induction false} AtMostOneFrame(actions: seq<Action>, instant: int)
    requires NeverOverlaps(actions, instant)
    ensures OneFrame(Run(Start, actions, instant))
  {
    if actions != [] {
      var n := |actions| - 1;
      var front := actions[..n];
      forall k | 0 <= k <= n ensures NoOverlap(Run(Start, front[..k], instant)) {
        assert front[..k] == actions[..k];
      }
      AtMostOneFrame(front, instant);
      RunKeepsInv(front, instant);
      assert actions[..n + 1] == actions;
      assert NoOverlap(Run(Start, actions[..n], instant)) && NoOverlap(Run(Start, actions[..n + 1], instant));
      StepKeepsOneFrame(Run(Start, front, instant), actions[n], instant);
    }
  }

  /** The condition is exact: from any state in which an attempt overlaps a late write, the two
      writes give a second frame. */
  lemma OverlapGivesTwoFrames(s: State, w: Worker, instant: int)
    requires w in s.inFlight && s.lateWrites > 0
    ensures Run(s, [LateWrite, Written(w)], instant).frames == s.frames + 2
  {
    assert [LateWrite, Written(w)][..1] == [LateWrite];
    assert Run(s, [LateWrite], instant) == Step(s, LateWrite, instant);
  }

  // Such a state is reachable: the first attempt times out in its write, the retry comes due.
  lemma OverlapIsReachable()
    ensures var s := Run(Start, [Evaluate(1, 0, true), Fails(1, 120, false, true), Evaluate(2, 135, true)], 0);
            2 in s.inFlight && s.lateWrites == 1
  {
    var actions := [Evaluate(1, 0, true), Fails(1, 120, false, true), Evaluate(2, 135, true)];
    assert actions[..2][..1] == actions[..1] == [actions[0]] && actions[..1][..0] == [];
    var s1 := Run(Start, actions[..1], 0);
    assert Run(Start, actions[..1][..0], 0) == Start && s1 == Step(Start, actions[0], 0);
    assert s1 == State(Some(Row(Failed, 1, None)), map[1 := 1], 0, 0, 0, 0, 0, Totals(1, 0, 0, 0));
    var s2 := Run(Start, actions[..2], 0);
    assert RetryDelay(1, EXACT_TIME_GRACE - 120, false) == Some(15);
    assert s2.row == Some(Row(RetryPending, 1, Some(135))) && s2.inFlight == map[];
  }
}
