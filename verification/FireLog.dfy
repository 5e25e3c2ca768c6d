/** The exact-time fire log: one durable row per anchor and base date, the once-per-day guard.
    Which fires get a row over a run of evaluations, and with what status.
 */
module FireLog {
  import opened Options
  import opened Zones
  import opened Anchors

  datatype Status = Captured | Failed | RetryPending | SkippedMissed | SkippedNoGeo

  // The status a decision's row is inserted with. Failed is provisional: an attempt follows.
  function ClaimStatus(hasGeo: bool, withinGrace: bool): Status {
    if !hasGeo then SkippedNoGeo else if withinGrace then Failed else SkippedMissed
  }

  // Rows by anchor id and base date, as they were inserted.
  type Log = map<(string, int), Status>

  // The inserts of one evaluation: a row that exists is left alone.
  function Claim(log: Log, decisions: seq<Decision>): Log {
    if decisions == [] then log
    else
      var n := |decisions| - 1;
      var before := Claim(log, decisions[..n]);
      var key := (decisions[n].anchor.id, decisions[n].localDate);
      if key in before then before
      else before[key := ClaimStatus(decisions[n].hasGeo, decisions[n].withinGrace)]
  }

  function Evaluations(log: Log, anchors: seq<Anchor>, site: Site, nows: seq<int>): Log {
    if nows == [] then log
    else
      var n := |nows| - 1;
      Claim(Evaluations(log, anchors, site, nows[..n]), DecisionsFor(anchors, nows[n], site, EXACT_TIME_GRACE))
  }

  // No other enabled anchor has the id of anchor i. Nothing in the stored list ensures it.
  predicate OwnId(anchors: seq<Anchor>, i: nat)
    requires i < |anchors|
  {
    forall j :: 0 <= j < |anchors| && j != i && anchors[j].enabled ==> anchors[j].id != anchors[i].id
  }

  // What one evaluation does to one key depends only on the decision for that anchor.
  function RowAfter(row: Option<Status>, decision: Option<Decision>, d: int): Option<Status> {
    if row.Some? || decision.None? || decision.value.localDate != d then row
    else Some(ClaimStatus(decision.value.hasGeo, decision.value.withinGrace))
  }

  function Lookup(log: Log, key: (string, int)): Option<Status> {
    if key in log then Some(log[key]) else None
  }

  // One evaluation, one anchor at a time, seen at one key.
  lemma {:induction false} ClaimStep(log: Log, anchors: seq<Anchor>, now: int, site: Site, key: (string, int))
    requires anchors != []
    ensures var n := |anchors| - 1;
            var before := Lookup(Claim(log, DecisionsFor(anchors[..n], now, site, EXACT_TIME_GRACE)), key);
            Lookup(Claim(log, DecisionsFor(anchors, now, site, EXACT_TIME_GRACE)), key) ==
              if anchors[n].id == key.0
              then RowAfter(before, DecisionFor(anchors[n], now, site, EXACT_TIME_GRACE), key.1)
              else before
  {
    hide DecisionFor, Claim;
    var n := |anchors| - 1;
    var front := DecisionsFor(anchors[..n], now, site, EXACT_TIME_GRACE);
    var r := DecisionFor(anchors[n], now, site, EXACT_TIME_GRACE);
    if r.Some? { ClaimOne(log, front, r.value, key); } else { assert front + [] == front; }
  }

  lemma ClaimOne(log: Log, front: seq<Decision>, decision: Decision, key: (string, int))
    ensures var before := Lookup(Claim(log, front), key);
            Lookup(Claim(log, front + [decision]), key) ==
              if decision.anchor.id == key.0 then RowAfter(before, Some(decision), key.1) else before
  {
    assert (front + [decision])[..|front|] == front;
  }

  lemma {:induction false} ClaimOfOthers(log: Log, anchors: seq<Anchor>, now: int, site: Site, key: (string, int))
    requires forall i :: 0 <= i < |anchors| && anchors[i].enabled ==> anchors[i].id != key.0
    ensures Lookup(Claim(log, DecisionsFor(anchors, now, site, EXACT_TIME_GRACE)), key) == Lookup(log, key)
  {
    hide Latest, ScannedFires, EffectiveTz;
    if anchors != [] {
      ClaimStep(log, anchors, now, site, key);
      ClaimOfOthers(log, anchors[..|anchors| - 1], now, site, key);
    }
  }

  lemma {:induction false} ClaimOfAnchor(log: Log, anchors: seq<Anchor>, now: int, site: Site, i: nat, d: int)
    requires i < |anchors| && OwnId(anchors, i)
    ensures Lookup(Claim(log, DecisionsFor(anchors, now, site, EXACT_TIME_GRACE)), (anchors[i].id, d))
            == RowAfter(Lookup(log, (anchors[i].id, d)), DecisionFor(anchors[i], now, site, EXACT_TIME_GRACE), d)
  {
    hide Latest, ScannedFires, EffectiveTz, Claim, Lookup;
    var n := |anchors| - 1;
    ClaimStep(log, anchors, now, site, (anchors[i].id, d));
    if i < n {
      ClaimOfAnchor(log, anchors[..n], now, site, i, d);
    } else {
      ClaimOfOthers(log, anchors[..n], now, site, (anchors[i].id, d));
    }
  }

  predicate NonDecreasing(nows: seq<int>) {
    forall i, j :: 0 <= i < j < |nows| ==> nows[i] <= nows[j]
  }

  // The evaluation comes past the grace of the fire, and d is still the latest base date that
  // has fired and no earlier than yesterday.
  ghost predicate SeesMissed(a: Anchor, d: int, site: Site, now: int) {
    && Fire(a, d, site).Some? && Fire(a, d, site).value + EXACT_TIME_GRACE < now
    && Today(a, now, site) - 1 <= d && forall e :: d < e ==> !Due(Fire(a, e, site), now)
  }

  // What the row of a fire should be after a run of evaluations.
  ghost function ExpectedRow(a: Anchor, d: int, site: Site, nows: seq<int>): Option<Status>
    requires Fire(a, d, site).Some?
  {
    if exists k :: 0 <= k < |nows| && InGrace(Fire(a, d, site).value, nows[k]) then Some(Failed)
    else if exists k :: 0 <= k < |nows| && SeesMissed(a, d, site, nows[k]) then Some(SkippedMissed)
    else None
  }

  // What one evaluation inserts where there is no row yet.
  lemma InsertOf(a: Anchor, now: int, site: Site, d: int)
    requires Regular(a, site) && a.enabled && Fire(a, d, site).Some?
    ensures RowAfter(None, DecisionFor(a, now, site, EXACT_TIME_GRACE), d) ==
            if InGrace(Fire(a, d, site).value, now) then Some(Failed)
            else if SeesMissed(a, d, site, now) then Some(SkippedMissed)
            else None
  {
    hide FirstInstant, Latest, Regular;
    GraceIsExact(a, now, site, d);
    ScanIsNewest(a, now, site, d);
  }

  // In time order, no evaluation within grace follows one that saw the fire missed.
  lemma RowStep(row: Option<Status>, insert: Option<Status>, a: Anchor, d: int, site: Site, nows: seq<int>)
    requires NonDecreasing(nows) && nows != [] && Fire(a, d, site).Some?
    requires row == ExpectedRow(a, d, site, nows[..|nows| - 1])
    requires insert == if InGrace(Fire(a, d, site).value, nows[|nows| - 1]) then Some(Failed)
                       else if SeesMissed(a, d, site, nows[|nows| - 1]) then Some(SkippedMissed)
                       else None
    ensures (if row.Some? then row else insert) == ExpectedRow(a, d, site, nows)
  {
    hide Fire, Today;
    var n, fire := |nows| - 1, Fire(a, d, site).value;
    var front := nows[..n];
    assert forall k :: 0 <= k < n ==> front[k] == nows[k] <= nows[n];
    if k :| 0 <= k < n && InGrace(fire, front[k]) { assert InGrace(fire, nows[k]); }
    if k :| 0 <= k < n && SeesMissed(a, d, site, front[k]) { assert SeesMissed(a, d, site, nows[k]); }
    if k :| 0 <= k <= n && InGrace(fire, nows[k]) { if k < n { assert InGrace(fire, front[k]); } }
    if k :| 0 <= k <= n && SeesMissed(a, d, site, nows[k]) { if k < n { assert SeesMissed(a, d, site, front[k]); } }
  }

  /** Over any run of evaluations in time order, the row of an anchor and a base date is a claim
      for capture exactly when some evaluation came within grace of the fire. Otherwise it is a
      recorded miss exactly when some evaluation past the grace came while the date was still
      the latest fired and no earlier than yesterday, and there is none if none did. */
  lemma {:induction false} RowsOfRun(log: Log, anchors: seq<Anchor>, site: Site, nows: seq<int>, i: nat, d: int)
    requires i < |anchors| && OwnId(anchors, i) && NonDecreasing(nows)
    requires Regular(anchors[i], site) && anchors[i].enabled && Fire(anchors[i], d, site).Some?
    requires (anchors[i].id, d) !in log
    ensures Lookup(Evaluations(log, anchors, site, nows), (anchors[i].id, d)) ==
            ExpectedRow(anchors[i], d, site, nows)
  {
    hide Fire, DecisionFor, Claim, SeesMissed, Regular;
    if nows != [] {
      var n, a := |nows| - 1, anchors[i];
      var before := Evaluations(log, anchors, site, nows[..n]);
      RowsOfRun(log, anchors, site, nows[..n], i, d);
      ClaimOfAnchor(before, anchors, nows[n], site, i, d);
      InsertOf(a, nows[n], site, d);
      var insert := RowAfter(None, DecisionFor(a, nows[n], site, EXACT_TIME_GRACE), d);
      RowStep(Lookup(before, (a.id, d)), insert, a, d, site, nows);
    }
  }

  /** A base date without a fire gets no row, except that an anchor whose camera has no location
      gets a skip for each local date it is evaluated on. */
  lemma {:induction false} RowsWithoutFire(log: Log, anchors: seq<Anchor>, site: Site, nows: seq<int>, i: nat, d: int)
    requires i < |anchors| && OwnId(anchors, i) && anchors[i].enabled
    requires Fire(anchors[i], d, site).None? && (anchors[i].id, d) !in log
    ensures Lookup(Evaluations(log, anchors, site, nows), (anchors[i].id, d)) ==
            if !site.located && exists k :: 0 <= k < |nows| && Today(anchors[i], nows[k], site) == d
            then Some(SkippedNoGeo) else None
  {
    hide DecisionFor, Claim, Today;
    if nows != [] {
      var n, a := |nows| - 1, anchors[i];
      RowsWithoutFire(log, anchors, site, nows[..n], i, d);
      ClaimOfAnchor(Evaluations(log, anchors, site, nows[..n]), anchors, nows[n], site, i, d);
      InsertWithoutFire(a, nows[n], site, d);
    }
  }

  lemma InsertWithoutFire(a: Anchor, now: int, site: Site, d: int)
    requires a.enabled && Fire(a, d, site).None?
    ensures RowAfter(None, DecisionFor(a, now, site, EXACT_TIME_GRACE), d) ==
            if !site.located && Today(a, now, site) == d then Some(SkippedNoGeo) else None
  {
    hide Latest, Zone.LocalDate;
  }

  // A noon anchor evaluated an hour before it fires on day 10 and next at midnight of day 13:
  // the fire was missed, and nothing records it.
  lemma MissLeavesNoRow(a: Anchor, site: Site)
    requires a == Anchor("a", Clock, 12 * 60, 0, true) && site.tz == Zone(0, [])
    ensures Lookup(Evaluations(map[], [a], site, [10 * DAY + NOON - 3600, 13 * DAY]), ("a", 10)) == None
    ensures Fire(a, 10, site) == Some(10 * DAY + NOON)
  {
    var nows := [10 * DAY + NOON - 3600, 13 * DAY];
    UtcFires(a, site, nows[0], 10);
    UtcFires(a, site, nows[1], 10);
    assert Regular(a, site);
    hide Fire, Today, Evaluations, Regular;
    RowsOfRun(map[], [a], site, nows, 0, 10);
  }

  lemma SomeEvaluationInGrace(fire: int, nows: seq<int>) returns (k: nat)
    requires nows != [] && nows[0] <= fire <= nows[|nows| - 1]
    requires forall i :: 0 <= i < |nows| - 1 ==> nows[i + 1] <= nows[i] + EXACT_TIME_GRACE
    ensures k < |nows| && InGrace(fire, nows[k])
  {
    k := 0;
    while nows[k] < fire
      invariant k < |nows| && (k > 0 ==> nows[k - 1] < fire)
      decreases |nows| - k
    {
      k := k + 1;
    }
  }

  /** In a run of evaluations no further apart than the grace, every fire inside the run gets
      its row as a claim for capture, whichever calendar day the offset moves it to. */
  lemma EveryFireIsClaimed(log: Log, anchors: seq<Anchor>, site: Site, nows: seq<int>, i: nat, d: int)
    requires i < |anchors| && OwnId(anchors, i) && NonDecreasing(nows) && nows != []
    requires Regular(anchors[i], site) && anchors[i].enabled && Fire(anchors[i], d, site).Some?
    requires (anchors[i].id, d) !in log
    requires nows[0] <= Fire(anchors[i], d, site).value <= nows[|nows| - 1]
    requires forall k :: 0 <= k < |nows| - 1 ==> nows[k + 1] <= nows[k] + EXACT_TIME_GRACE
    ensures Lookup(Evaluations(log, anchors, site, nows), (anchors[i].id, d)) == Some(Failed)
  {
    hide Fire, Evaluations, Regular;
    var k := SomeEvaluationInGrace(Fire(anchors[i], d, site).value, nows);
    RowsOfRun(log, anchors, site, nows, i, d);
  }

  // ---------------------------------------------------------------------------------------
  // Anchors that share an id
  // ---------------------------------------------------------------------------------------

  // The decisions of a run of evaluations, in the order they are acted on.
  function AllDecisions(anchors: seq<Anchor>, site: Site, nows: seq<int>): seq<Decision> {
    if nows == [] then []
    else
      var n := |nows| - 1;
      AllDecisions(anchors, site, nows[..n]) + DecisionsFor(anchors, nows[n], site, EXACT_TIME_GRACE)
  }

  // The first decision for a key.
  function First(decisions: seq<Decision>, key: (string, int)): Option<Decision> {
    if decisions == [] then None
    else if (decisions[0].anchor.id, decisions[0].localDate) == key then Some(decisions[0])
    else First(decisions[1..], key)
  }

  lemma {:induction false} FirstOfBoth(a: seq<Decision>, b: seq<Decision>, key: (string, int))
    ensures First(a + b, key) == if First(a, key).Some? then First(a, key) else First(b, key)
  {
    if a == [] {
      assert a + b == b;
    } else {
      assert (a + b)[0] == a[0] && (a + b)[1..] == a[1..] + b;
      FirstOfBoth(a[1..], b, key);
    }
  }

  lemma {:induction false} ClaimIsFirst(log: Log, decisions: seq<Decision>, key: (string, int))
    ensures Lookup(Claim(log, decisions), key) ==
            if key in log then Some(log[key])
            else match First(decisions, key)
              case None => None
              case Some(x) => Some(ClaimStatus(x.hasGeo, x.withinGrace))
  {
    if decisions != [] {
      var n := |decisions| - 1;
      ClaimIsFirst(log, decisions[..n], key);
      FirstOfBoth(decisions[..n], [decisions[n]], key);
      assert decisions == decisions[..n] + [decisions[n]];
    }
  }

  /** Whatever ids the anchors have, the row of a key is the one its first decision asks for:
      first in time, and at one evaluation first in the list. */
  lemma {:induction false} RowIsFirstDecision(log: Log, anchors: seq<Anchor>, site: Site, nows: seq<int>,
                                              key: (string, int))
    ensures Lookup(Evaluations(log, anchors, site, nows), key) ==
            if key in log then Some(log[key])
            else match First(AllDecisions(anchors, site, nows), key)
              case None => None
              case Some(x) => Some(ClaimStatus(x.hasGeo, x.withinGrace))
  {
    hide DecisionsFor, Claim, First;
    if nows == [] {
      assert First([], key) == None by { FirstOfNone(key); }
    } else {
      var n := |nows| - 1;
      var before := Evaluations(log, anchors, site, nows[..n]);
      var last := DecisionsFor(anchors, nows[n], site, EXACT_TIME_GRACE);
      RowIsFirstDecision(log, anchors, site, nows[..n], key);
      ClaimIsFirst(before, last, key);
      FirstOfBoth(AllDecisions(anchors, site, nows[..n]), last, key);
    }
  }

  lemma FirstOfNone(key: (string, int))
    ensures First([], key) == None
  {}

  // Two anchors with one id, at 00:00 and 01:00. The first evaluation, at 00:45, records the
  // midnight fire as missed, and so the one o'clock fire is not claimed although it is seen at
  // once.
  lemma SharedIdHidesFire(a: Anchor, b: Anchor, site: Site)
    requires a == Anchor("x", Clock, 0, 0, true) && b == Anchor("x", Clock, 60, 0, true)
    requires site.tz == Zone(0, [])
    ensures var nows := [10 * DAY + 2700, 10 * DAY + 3600];
            && Lookup(Evaluations(map[], [a, b], site, nows), ("x", 10)) == Some(SkippedMissed)
            && Fire(b, 10, site) == Some(nows[1])
  {
    var nows := [10 * DAY + 2700, 10 * DAY + 3600];
    forall d ensures Fire(a, d, site) == Some(FireWall(a, d)) && Today(a, nows[0], site) == 10 {
      UtcFires(a, site, nows[0], d);
    }
    UtcFires(b, site, nows[0], 10);
    assert Regular(a, site);
    hide Fire, Today, Evaluations, Regular, DecisionFor;
    ScanIsNewest(a, nows[0], site, 10);
    var first := DecisionFor(a, nows[0], site, EXACT_TIME_GRACE).value;
    FirstOfTwo(a, b, site, nows, first);
    RowIsFirstDecision(map[], [a, b], site, nows, ("x", 10));
  }

  lemma FirstOfTwo(a: Anchor, b: Anchor, site: Site, nows: seq<int>, first: Decision)
    requires |nows| == 2 && DecisionFor(a, nows[0], site, EXACT_TIME_GRACE) == Some(first)
    ensures First(AllDecisions([a, b], site, nows), (first.anchor.id, first.localDate)) == Some(first)
  {
    hide DecisionFor;
    var key := (first.anchor.id, first.localDate);
    assert nows[..1][..0] == [] && [a, b][..1] == [a] && [a][..0] == [];
    assert DecisionsFor([], nows[0], site, EXACT_TIME_GRACE) == [];
    assert DecisionsFor([a], nows[0], site, EXACT_TIME_GRACE) == [] + [first] == [first];
    var early := DecisionsFor([a, b], nows[0], site, EXACT_TIME_GRACE);
    assert early[0] == first;
    assert AllDecisions([a, b], site, nows[..1]) == AllDecisions([a, b], site, []) + early == early;
    FirstOfBoth(early, DecisionsFor([a, b], nows[1], site, EXACT_TIME_GRACE), key);
  }
}
