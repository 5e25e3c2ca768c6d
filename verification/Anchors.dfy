/** Exact-time capture anchors: when an anchor fires for a base date and which anchors are due
    now. Dates are day numbers, times are whole seconds.

    The position of the sun is not modelled: `Site.sun` gives the instant of a solar event on
    a date, or nothing when there is none.
 */
module Anchors {
  import opened Options
  import opened Zones

  const EXACT_TIME_GRACE := 30 * 60
  const MAX_OFFSET_MINUTES := 12 * 60

  datatype Kind = Clock | SolarNoon | Sunrise | Sunset

  datatype Anchor = Anchor(id: string, kind: Kind, minute: int, offsetMinutes: int, enabled: bool) {
    // What parse_anchors guarantees: HH:MM within a day (clock kind), offset within 12 hours.
    predicate Valid() {
      0 <= minute < 24 * 60 && -MAX_OFFSET_MINUTES <= offsetMinutes <= MAX_OFFSET_MINUTES
    }
  }

  datatype Decision = Decision(anchor: Anchor, localDate: int, instant: Option<int>,
                               withinGrace: bool, hasGeo: bool)

  datatype Site = Site(tz: Zone, solarTz: Option<Zone>, located: bool,
                       sun: (Kind, int, Zone) -> Option<int>) {
    predicate Spaced() {
      tz.Spaced() && (solarTz.Some? ==> solarTz.value.Spaced())
    }
  }

  // The zone that governs an anchor.
  function EffectiveTz(a: Anchor, site: Site): Zone {
    if a.kind != Clock && site.solarTz.Some? then site.solarTz.value else site.tz
  }

  // The configured wall time on a base date, offset applied. It may fall on another date.
  function FireWall(a: Anchor, d: int): int {
    d * DAY + a.minute * 60 + a.offsetMinutes * 60
  }

  // The instant an anchor fires for a base date.
  function Fire(a: Anchor, d: int, site: Site): Option<int> {
    var z := EffectiveTz(a, site);
    if a.kind == Clock then Some(FirstInstant(z, FireWall(a, d)))
    else if !site.located then None
    else match site.sun(a.kind, d, z)
      case None => None
      case Some(event) => Some(event + a.offsetMinutes * 60)
  }

  method AnchorFireInstant(a: Anchor, d: int, site: Site) returns (r: Option<int>)
    requires site.Spaced()
    ensures r == Fire(a, d, site)
  {
    var z := EffectiveTz(a, site);
    if a.kind == Clock {
      var wall := FireWall(a, d);
      if !WallTimeExists(z, wall) {
        var u := FirstValidInstantAfterGap(z, wall);
        return Some(u);
      }
      ghost var k := GapFolds(z, wall);
      return Some(wall - z.UtcOffset(wall, Fold0));
    }
    if !site.located { return None; }
    var event := site.sun(a.kind, d, z);
    if event.None? { return None; }
    return Some(event.value + a.offsetMinutes * 60);
  }

  /** A clock anchor fires at the least instant whose local reading has reached the configured
      time, whether that time is read once, twice (clocks going back) or never (going forward). */
  lemma ClockFiresFirst(a: Anchor, d: int, site: Site)
    requires site.tz.Spaced() && a.kind == Clock
    ensures Fire(a, d, site).Some? && IsFirst(site.tz, FireWall(a, d), Fire(a, d, site).value)
  {
    FirstInstantIsFirst(site.tz, FireWall(a, d));
  }

  // The date and time of day a clock anchor is set to, and how its offset moves them.
  lemma FireWallIs(a: Anchor, d: int, k: int)
    requires a.Valid()
    ensures a.offsetMinutes == 0 ==> FireWall(a, d) / DAY == d && FireWall(a, d) % DAY == a.minute * 60
    ensures FireWall(a.(offsetMinutes := a.offsetMinutes + k), d) == FireWall(a, d) + 60 * k
    ensures FireWall(a, d + k) == FireWall(a, d) + k * 24 * 60 * 60
  {}

  /** Where the time a clock anchor is set to is read on its date, the clock reads that date and
      time when it fires without an offset; k minutes of offset are 60 k seconds on the clock. */
  lemma ClockReadsConfigured(a: Anchor, d: int, site: Site, u: int)
    requires site.tz.Spaced() && a.kind == Clock && a.Valid()
    requires site.tz.Wall(u) == d * DAY + a.minute * 60 + a.offsetMinutes * 60
    ensures Fire(a, d, site).Some? && Fire(a, d, site).value <= u
    ensures site.tz.Wall(Fire(a, d, site).value) == (d * 24 * 60 + a.minute + a.offsetMinutes) * 60
    ensures a.offsetMinutes == 0 ==> site.tz.LocalDate(Fire(a, d, site).value) == d
  {
    FireWallIs(a, d, 0);
    FirstInstantReads(site.tz, FireWall(a, d));
    if Fire(a, d, site).value > u { FirstInstantIsLeast(site.tz, FireWall(a, d), u); }
    if site.tz.Wall(Fire(a, d, site).value) != FireWall(a, d) {
      var k: nat :| k < |site.tz.transitions| && Skips(site.tz, k, FireWall(a, d));
      NoReadingInGap(site.tz, k, FireWall(a, d), u);
    }
  }

  /** A solar anchor fires on the dates its own event has, in the camera's zone if it has one and
      else the project's, 60 seconds after the event for each minute of its offset. */
  lemma SolarFiresAtEvent(a: Anchor, d: int, site: Site)
    requires a.kind != Clock
    ensures var event := site.sun(a.kind, d, if site.solarTz.Some? then site.solarTz.value else site.tz);
            && (Fire(a, d, site).Some? <==> site.located && event.Some?)
            && (Fire(a, d, site).Some? ==> Fire(a, d, site).value - event.value == 60 * a.offsetMinutes)
  {}

  /** Two solar anchors of one kind fire on the same dates, as far apart as their offsets. */
  lemma SolarOffsetsShift(a: Anchor, b: Anchor, d: int, site: Site)
    requires a.kind == b.kind != Clock
    ensures Fire(a, d, site).Some? <==> Fire(b, d, site).Some?
    ensures Fire(a, d, site).Some? ==>
              Fire(b, d, site).value - Fire(a, d, site).value == 60 * (b.offsetMinutes - a.offsetMinutes)
  {
    SolarFiresAtEvent(a, d, site);
    SolarFiresAtEvent(b, d, site);
    hide Fire;
  }

  // ---------------------------------------------------------------------------------------
  // Due anchors
  // ---------------------------------------------------------------------------------------

  // The position of the latest instant that is not in the future, the first on a tie.
  function Latest(fires: seq<Option<int>>, now: int): (best: Option<nat>)
    ensures best.Some? ==> best.value < |fires| && Due(fires[best.value], now)
    ensures forall i :: 0 <= i < |fires| && Due(fires[i], now) ==>
              best.Some? && fires[i].value <= fires[best.value].value
  {
    if fires == [] then None
    else
      var n := |fires| - 1;
      var best := Latest(fires[..n], now);
      if Due(fires[n], now) && (best.None? || fires[n].value > fires[best.value].value)
      then Some(n) else best
  }

  lemma LatestNone(now: int)
    ensures Latest([], now) == None
  {}

  lemma LatestMore(fires: seq<Option<int>>, i: nat, now: int)
    requires i < |fires|
    ensures var best := Latest(fires[..i], now);
            Latest(fires[..i + 1], now) ==
              if Due(fires[i], now) && (best.None? || fires[i].value > fires[best.value].value) then Some(i) else best
  {
    assert fires[..i + 1][..i] == fires[..i];
  }

  predicate Due(fire: Option<int>, now: int) { fire.Some? && fire.value <= now }

  // In date order, the newest first, the scan takes the first fire that is due.
  lemma LatestIsFirst(x: Option<int>, y: Option<int>, z: Option<int>, now: int)
    requires x.Some? && y.Some? ==> y.value <= x.value
    requires x.Some? && z.Some? ==> z.value <= x.value
    requires y.Some? && z.Some? ==> z.value <= y.value
    ensures Latest([x, y, z], now) ==
            if Due(x, now) then Some(0) else if Due(y, now) then Some(1) else if Due(z, now) then Some(2) else None
  {
    var fires := [x, y, z];
    LatestNone(now);
    assert fires[..0] == [] && fires[..3] == fires;
    LatestMore(fires, 0, now);
    LatestMore(fires, 1, now);
    LatestMore(fires, 2, now);
    hide Latest;
  }

  // The fires due_anchors looks at: tomorrow's, today's and yesterday's base date.
  function ScannedFires(a: Anchor, today: int, site: Site): seq<Option<int>> {
    [Fire(a, today + 1, site), Fire(a, today, site), Fire(a, today - 1, site)]
  }

  // What due_anchors reports for one anchor, if anything.
  function DecisionFor(a: Anchor, now: int, site: Site, grace: int): (r: Option<Decision>)
    ensures r.Some? ==> r.value.anchor == a && r.value.hasGeo == (a.kind == Clock || site.located)
  {
    var today := EffectiveTz(a, site).LocalDate(now);
    if !a.enabled then None
    else if a.kind != Clock && !site.located then Some(Decision(a, today, None, false, false))
    else
      var fires := ScannedFires(a, today, site);
      match Latest(fires, now)
      case None => None
      case Some(i) =>
        Some(Decision(a, today + 1 - i, fires[i], now <= fires[i].value + grace, true))
  }

  function DecisionsFor(anchors: seq<Anchor>, now: int, site: Site, grace: int): seq<Decision> {
    if anchors == [] then []
    else
      var n := |anchors| - 1;
      DecisionsFor(anchors[..n], now, site, grace) +
      match DecisionFor(anchors[n], now, site, grace)
      case None => []
      case Some(decision) => [decision]
  }

  method DueAnchors(anchors: seq<Anchor>, now: int, site: Site, grace: int) returns (decisions: seq<Decision>)
    requires site.Spaced()
    ensures decisions == DecisionsFor(anchors, now, site, grace)
  {
    decisions := [];
    for n := 0 to |anchors|
      invariant decisions == DecisionsFor(anchors[..n], now, site, grace)
    {
      assert anchors[..n + 1][..n] == anchors[..n];
      var decision := Decide(anchors[n], now, site, grace);
      if decision.Some? { decisions := decisions + [decision.value]; }
    }
    assert anchors[..|anchors|] == anchors;
  }

  // The body of the loop of due_anchors, for one anchor.
  method Decide(a: Anchor, now: int, site: Site, grace: int) returns (r: Option<Decision>)
    requires site.Spaced()
    ensures r == DecisionFor(a, now, site, grace)
  {
    hide Fire, Latest, Site.Spaced, Zone.LocalDate, EffectiveTz;
    if !a.enabled { return None; }
    var today := EffectiveTz(a, site).LocalDate(now);
    if a.kind != Clock && !site.located {
      return Some(Decision(a, today, None, false, false));
    }
    var due := ScanDue(a, today, now, site);
    if due.None? { return None; }
    var (base, instant) := due.value;
    return Some(Decision(a, base, Some(instant), now <= instant + grace, true));
  }

  // The inner loop of due_anchors over the three base dates.
  method ScanDue(a: Anchor, today: int, now: int, site: Site) returns (due: Option<(int, int)>)
    requires site.Spaced()
    ensures var fires := ScannedFires(a, today, site);
            due == match Latest(fires, now)
                   case None => None
                   case Some(i) => Some((today + 1 - i, fires[i].value))
  {
    hide Fire, Site.Spaced, Latest;
    LatestNone(now);
    ghost var fires := ScannedFires(a, today, site);
    due := None;
    for i := 0 to 3
      invariant due == match Latest(fires[..i], now)
                       case None => None
                       case Some(j) => Some((today + 1 - j, fires[j].value))
    {
      LatestMore(fires, i, now);
      var base := today + 1 - i;
      var instant := AnchorFireInstant(a, base, site);
      assert instant == fires[i];
      if instant.None? || instant.value > now { continue; }
      if due.None? || instant.value > due.value.1 {
        due := Some((base, instant.value));
      }
    }
    assert fires[..3] == fires;
  }

  // ---------------------------------------------------------------------------------------
  // Three dates suffice
  // ---------------------------------------------------------------------------------------

  const MAX_JUMP := 11 * 60 * 60

  // A zone whose transitions are a day apart or more and move the clock by at most 11 hours.
  predicate Tame(z: Zone) {
    && (forall i :: 0 <= i < |z.transitions| ==> z.Jump(i) <= MAX_JUMP)
    && (forall i :: 0 <= i < |z.transitions| - 1 ==> z.Gap(i) >= DAY)
  }

  lemma TameIsSpaced(z: Zone)
    requires Tame(z)
    ensures z.Spaced()
  {}

  // The instant a clock anchor fires for a base date.
  function ClockFire(a: Anchor, z: Zone, d: int): int { FirstInstant(z, FireWall(a, d)) }

  lemma FiresInOrder(a: Anchor, z: Zone, d: int, e: int)
    requires z.Spaced() && d <= e
    ensures ClockFire(a, z, d) <= ClockFire(a, z, e)
  {
    FirstInstantMonotone(z, FireWall(a, d), FireWall(a, e));
  }

  // No earlier instant read more than one jump above the present reading.
  lemma ReadingsBefore(z: Zone, v: int, now: int)
    requires Tame(z) && v <= now
    ensures z.Wall(v) <= z.Wall(now) + MAX_JUMP
  {
    TameIsSpaced(z);
    var k := z.Past(Utc, now);
    if k > 0 {
      assert z.Jump(k - 1) <= MAX_JUMP;
      if v < z.transitions[k - 1].at { ReadingsBelow(z, k - 1, v); } else { PastIs(z, Utc, v, k); }
    } else {
      PastIs(z, Utc, v, 0);
    }
  }

  // Within less than a day the wall clock has not moved further than the elapsed time and one
  // jump.
  lemma ReadingsApart(z: Zone, u: int, v: int)
    requires Tame(z) && u <= v < u + DAY
    ensures z.Wall(v) <= z.Wall(u) + (v - u) + MAX_JUMP
  {
    TameIsSpaced(z);
    var i, j := z.Past(Utc, u), z.Past(Utc, v);
    if j < i {
      if j < i - 1 { KeysIncrease(z, Utc, j, i - 1); }
      assert false;
    }
    if j > i + 1 {
      KeysIncrease(z, Utc, i, i + 1);
      assert z.Gap(i) >= DAY;
      if i + 1 < j - 1 { KeysIncrease(z, Utc, i + 1, j - 1); }
      assert false;
    }
    if j == i + 1 { assert z.Jump(i) <= MAX_JUMP; }
  }

  // The same from the first instant of a wall time, read or skipped.
  lemma ReadingsNear(z: Zone, wall: int, v: int)
    requires Tame(z) && FirstInstant(z, wall) <= v < FirstInstant(z, wall) + DAY
    ensures wall - MAX_JUMP <= z.Wall(v) <= wall + (v - FirstInstant(z, wall)) + MAX_JUMP
  {
    TameIsSpaced(z);
    FirstInstantReads(z, wall);
    var u := FirstInstant(z, wall);
    ReadingsApart(z, u, v);
    ReadingsBefore(z, u, v);
    if z.Wall(u) != wall {
      var k: nat :| k < |z.transitions| && Skips(z, k, wall) && u == z.transitions[k].at;
      assert z.Jump(k) <= MAX_JUMP;
      AroundGap(z, k, wall, u);
      if k + 1 < |z.transitions| { assert z.Gap(k) >= DAY; }
      PastIs(z, Utc, u, k + 1);
      PastIs(z, Utc, v, k + 1);
    }
  }

  // A base date two days back has always fired, one two days ahead never has.
  lemma ScanBounds(a: Anchor, z: Zone, now: int)
    requires Tame(z) && a.Valid()
    ensures forall d :: d <= z.LocalDate(now) - 2 ==> ClockFire(a, z, d) <= now
    ensures forall d :: d >= z.LocalDate(now) + 2 ==> now < ClockFire(a, z, d)
  {
    TameIsSpaced(z);
    var today := z.LocalDate(now);
    assert today * DAY <= z.Wall(now) < (today + 1) * DAY;
    forall d | d <= today - 2 ensures ClockFire(a, z, d) <= now {
      FirstInstantIsFirst(z, FireWall(a, d));
    }
    forall d | d >= today + 2 ensures now < ClockFire(a, z, d) {
      var u := ClockFire(a, z, d);
      FirstInstantIsFirst(z, FireWall(a, d));
      if u <= now {
        ReadingsBefore(z, u, now);
        assert false;
      }
    }
  }

  // While a fire is within grace, its base date is one of the three scanned and no later base
  // date is due.
  lemma GraceDate(a: Anchor, z: Zone, now: int, d: int)
    requires Tame(z) && a.Valid()
    requires ClockFire(a, z, d) <= now <= ClockFire(a, z, d) + EXACT_TIME_GRACE
    ensures z.LocalDate(now) - 1 <= d <= z.LocalDate(now) + 1
    ensures forall e :: d < e ==> now < ClockFire(a, z, e)
  {
    TameIsSpaced(z);
    ReadingsNear(z, FireWall(a, d), now);
    forall e | d < e ensures now < ClockFire(a, z, e) {
      var u := ClockFire(a, z, e);
      FiresInOrder(a, z, d, e);
      FirstInstantIsFirst(z, FireWall(a, e));
      if u <= now {
        ReadingsNear(z, FireWall(a, d), u);
        assert false;
      }
    }
  }

  // The fires of one anchor, by base date.
  ghost predicate Ordered(f: int -> int) {
    forall d, e :: d <= e ==> f(d) <= f(e)
  }

  // d is the latest base date that has fired, over all dates.
  ghost predicate IsMostRecent(f: int -> int, now: int, d: int) {
    f(d) <= now && forall e :: d < e ==> now < f(e)
  }

  function ThreeFires(f: int -> int, today: int): seq<Option<int>> {
    [Some(f(today + 1)), Some(f(today)), Some(f(today - 1))]
  }

  lemma ScanOfThree(f: int -> int, today: int, now: int)
    requires Ordered(f) && f(today - 2) <= now < f(today + 2)
    ensures var best := Latest(ThreeFires(f, today), now);
            if f(today - 1) <= now
            then best.Some? && IsMostRecent(f, now, today + 1 - best.value)
            else best.None? && IsMostRecent(f, now, today - 2)
  {
    assert forall e :: today - 1 < e ==> f(today) <= f(e);
    assert forall e :: today < e ==> f(today + 1) <= f(e);
    assert forall e :: today + 1 < e ==> f(today + 2) <= f(e);
    assert forall e :: today - 2 < e ==> f(today - 1) <= f(e);
    LatestIsFirst(Some(f(today + 1)), Some(f(today)), Some(f(today - 1)), now);
  }

  function Fires(a: Anchor, z: Zone): int -> int { d => ClockFire(a, z, d) }

  lemma ClockScan(a: Anchor, now: int, site: Site)
    requires Tame(site.tz) && a.Valid() && a.kind == Clock
    ensures var f, today := Fires(a, site.tz), site.tz.LocalDate(now);
            && Ordered(f) && f(today - 2) <= now < f(today + 2)
            && ScannedFires(a, today, site) == ThreeFires(f, today)
  {
    TameIsSpaced(site.tz);
    ScanBounds(a, site.tz, now);
    forall d, e | d <= e ensures Fires(a, site.tz)(d) <= Fires(a, site.tz)(e) {
      FiresInOrder(a, site.tz, d, e);
    }
  }

  /** The scan reports the most recent fire over all dates exactly when yesterday's base date
      has fired. Otherwise it reports nothing, although the base date before has fired. */
  lemma ScanIsMostRecent(a: Anchor, now: int, site: Site)
    requires Tame(site.tz) && a.Valid() && a.kind == Clock && a.enabled
    ensures var f, today := Fires(a, site.tz), site.tz.LocalDate(now);
            var r := DecisionFor(a, now, site, EXACT_TIME_GRACE);
            if f(today - 1) <= now
            then r.Some? && r.value.instant == Some(f(r.value.localDate)) && IsMostRecent(f, now, r.value.localDate)
            else r.None? && IsMostRecent(f, now, today - 2)
  {
    hide FirstInstant;
    ClockScan(a, now, site);
    ScanOfThree(Fires(a, site.tz), site.tz.LocalDate(now), now);
  }

  /** However far a zone's jumps go, a base date is reported within grace exactly when its fire
      is within grace, the date is one of the three scanned, and the next date is not due as well. */
  lemma GraceInAnyZone(a: Anchor, now: int, site: Site, d: int)
    requires site.tz.Spaced() && a.kind == Clock && a.enabled
    ensures var today := site.tz.LocalDate(now);
            (var r := DecisionFor(a, now, site, EXACT_TIME_GRACE);
             r.Some? && r.value.localDate == d && r.value.withinGrace)
            <==> && ClockFire(a, site.tz, d) <= now <= ClockFire(a, site.tz, d) + EXACT_TIME_GRACE
                 && today - 1 <= d <= today + 1
                 && (d <= today ==> now < ClockFire(a, site.tz, d + 1))
  {
    hide FirstInstant, Latest, Zone.LocalDate;
    var f, today := Fires(a, site.tz), site.tz.LocalDate(now);
    FiresInOrder(a, site.tz, today - 1, today);
    FiresInOrder(a, site.tz, today, today + 1);
    LatestIsFirst(Some(f(today + 1)), Some(f(today)), Some(f(today - 1)), now);
    assert ScannedFires(a, today, site) == ThreeFires(f, today);
  }

  // 23:00 plus 12 hours fires at 11:00 the next day, so at 08:00 the latest fire belongs to
  // the base date two days back, and the scan reports nothing.
  lemma ScanMissesOlderFire()
    ensures var utc := Zone(0, []);
            var a := Anchor("a", Clock, 23 * 60, 12 * 60, true);
            var site := Site(utc, None, false, (_, _, _) => None);
            var now := 10 * DAY + 8 * 3600;
            DecisionFor(a, now, site, EXACT_TIME_GRACE).None? && ClockFire(a, utc, 8) <= now
  {}

  // A zone that skips a whole day (as Samoa did in 2011) fires two base dates at one instant,
  // and the scan reports only the later: the bound on jumps is needed.
  lemma SkippedDayHidesFire()
    ensures var z := Zone(-10 * 3600, [Transition(10 * 3600, 14 * 3600)]);
            var a := Anchor("a", Clock, 0, 0, true);
            var site := Site(z, None, false, (_, _, _) => None);
            var now := 10 * 3600;
            && z.Spaced() && ClockFire(a, z, 0) == ClockFire(a, z, 1) == now
            && DecisionFor(a, now, site, EXACT_TIME_GRACE) == Some(Decision(a, 1, Some(now), true, true))
  {
    var z := Zone(-10 * 3600, [Transition(10 * 3600, 14 * 3600)]);
    var a := Anchor("a", Clock, 0, 0, true);
    var site := Site(z, None, false, (_, _, _) => None);
    var now := 10 * 3600;
    assert ScannedFires(a, 1, site) == [Some(2 * DAY - 14 * 3600), Some(now), Some(now)] by {
      hide Latest;
      PastIs(z, Fold0, 0, 0);
      PastIs(z, Fold0, DAY, 1);
      PastIs(z, Fold0, 2 * DAY, 1);
    }
    assert z.Spaced() && ClockFire(a, z, 0) == ClockFire(a, z, 1) == now && z.LocalDate(now) == 1 by {
      hide Latest;
      assert FireWall(a, 0) == 0 && FireWall(a, 1) == DAY;
      PastIs(z, Fold0, 0, 0);
      PastIs(z, Fold0, DAY, 1);
      PastIs(z, Utc, now, 1);
    }
    hide Fire, FirstInstant, ScannedFires, Latest, Zone.LocalDate;
    LatestIsFirst(Some(2 * DAY - 14 * 3600), Some(now), Some(now), now);
  }

  // ---------------------------------------------------------------------------------------
  // Anchors of every kind
  // ---------------------------------------------------------------------------------------

  // The local date of an anchor's own zone.
  function Today(a: Anchor, now: int, site: Site): int { EffectiveTz(a, site).LocalDate(now) }

  /** What is assumed of solar events of one kind: the event asked for on a date happens on that
      local date, and those of different dates are more than the grace apart, in date order. A
      date may have no event. */
  ghost predicate SunKeepsDates(site: Site, kind: Kind, z: Zone) {
    && (forall d :: site.sun(kind, d, z).Some? ==> z.LocalDate(site.sun(kind, d, z).value) == d)
    && (forall d, e :: d < e && site.sun(kind, d, z).Some? && site.sun(kind, e, z).Some? ==>
          site.sun(kind, d, z).value + EXACT_TIME_GRACE < site.sun(kind, e, z).value)
  }

  // An anchor in a tame zone, its events on their dates if it is a solar one.
  ghost predicate Regular(a: Anchor, site: Site) {
    var z := EffectiveTz(a, site);
    a.Valid() && Tame(z) && (a.kind != Clock ==> SunKeepsDates(site, a.kind, z))
  }

  // A solar event of an earlier or later date, seen from now.
  lemma EventBounds(z: Zone, now: int, event: int)
    requires Tame(z)
    ensures z.LocalDate(event) <= z.LocalDate(now) - 2 ==> event + DAY / 2 + EXACT_TIME_GRACE < now
    ensures z.LocalDate(event) >= z.LocalDate(now) + 2 ==> now + DAY / 2 < event
  {
    var today, d := z.LocalDate(now), z.LocalDate(event);
    assert today * DAY <= z.Wall(now) < (today + 1) * DAY;
    assert d * DAY <= z.Wall(event) < (d + 1) * DAY;
    hide Tame, Zone.Wall;
    if d <= today - 2 {
      if now <= event {
        ReadingsBefore(z, now, event);
        assert false;
      }
      if now <= event + DAY / 2 + EXACT_TIME_GRACE {
        ReadingsApart(z, event, now);
        assert false;
      }
    }
    if d >= today + 2 {
      if event <= now {
        ReadingsBefore(z, event, now);
        assert false;
      }
      if event <= now + DAY / 2 {
        ReadingsApart(z, now, event);
        assert false;
      }
    }
  }

  /** For every kind of anchor, a base date two days back has fired and one two days ahead has
      not. */
  lemma FireBounds(a: Anchor, now: int, site: Site, d: int)
    requires Regular(a, site) && Fire(a, d, site).Some?
    ensures d <= Today(a, now, site) - 2 ==> Fire(a, d, site).value <= now
    ensures d >= Today(a, now, site) + 2 ==> now < Fire(a, d, site).value
  {
    if a.kind == Clock {
      ScanBounds(a, site.tz, now);
      assert Fire(a, d, site).value == ClockFire(a, site.tz, d);
    } else {
      EventBounds(EffectiveTz(a, site), now, site.sun(a.kind, d, EffectiveTz(a, site)).value);
    }
  }

  lemma FiresAreOrdered(a: Anchor, site: Site, d: int, e: int)
    requires Regular(a, site) && d <= e && Fire(a, d, site).Some? && Fire(a, e, site).Some?
    ensures Fire(a, d, site).value <= Fire(a, e, site).value
  {
    if a.kind == Clock {
      TameIsSpaced(site.tz);
      FiresInOrder(a, site.tz, d, e);
    }
  }

  predicate InGrace(fire: int, now: int) { fire <= now <= fire + 30 * 60 }

  // A fire within grace belongs to one of the three scanned dates, and no later date has fired.
  lemma GraceIsScanned(a: Anchor, now: int, site: Site, d: int)
    requires Regular(a, site) && Fire(a, d, site).Some? && InGrace(Fire(a, d, site).value, now)
    ensures Today(a, now, site) - 1 <= d <= Today(a, now, site) + 1
    ensures forall e :: d < e ==> !Due(Fire(a, e, site), now)
  {
    if a.kind == Clock {
      GraceDate(a, site.tz, now, d);
      forall e | d < e ensures !Due(Fire(a, e, site), now) {
        assert Fire(a, e, site).value == ClockFire(a, site.tz, e);
      }
    } else {
      EventBounds(EffectiveTz(a, site), now, site.sun(a.kind, d, EffectiveTz(a, site)).value);
    }
  }

  // Fires in date order, none from the day after tomorrow on due: the scan takes the latest date
  // that is due, if it is one of the three.
  lemma LatestIsNewest(f: int -> Option<int>, today: int, now: int, d: int)
    requires forall i, j :: i <= j && f(i).Some? && f(j).Some? ==> f(i).value <= f(j).value
    requires forall e :: e >= today + 2 ==> !Due(f(e), now)
    ensures (var best := Latest([f(today + 1), f(today), f(today - 1)], now);
             best.Some? && today + 1 - best.value == d)
            <==> today - 1 <= d <= today + 1 && Due(f(d), now) && forall e :: d < e ==> !Due(f(e), now)
  {
    LatestIsFirst(f(today + 1), f(today), f(today - 1), now);
    hide Latest;
  }

  /** For every kind of anchor the scan reports a base date exactly when it is the latest that
      has fired, of all dates there are, and no earlier than yesterday. */
  lemma ScanIsNewest(a: Anchor, now: int, site: Site, d: int)
    requires Regular(a, site) && a.enabled
    ensures var r := DecisionFor(a, now, site, EXACT_TIME_GRACE);
            && (r.Some? && r.value.instant.Some? && r.value.localDate == d <==>
                && Today(a, now, site) - 1 <= d && Due(Fire(a, d, site), now)
                && forall e :: d < e ==> !Due(Fire(a, e, site), now))
            && (r.Some? && r.value.instant.Some? ==>
                  && r.value.instant == Fire(a, r.value.localDate, site)
                  && r.value.withinGrace == InGrace(r.value.instant.value, now))
            && (r.Some? && r.value.instant.None? ==> !r.value.withinGrace)
  {
    hide Latest, Regular, Zone.LocalDate, FirstInstant, EffectiveTz;
    var today := Today(a, now, site);
    var f := e => Fire(a, e, site);
    forall i, j | i <= j && f(i).Some? && f(j).Some? ensures f(i).value <= f(j).value {
      FiresAreOrdered(a, site, i, j);
    }
    forall e | e >= today + 2 ensures !Due(f(e), now) {
      if f(e).Some? { FireBounds(a, now, site, e); }
    }
    LatestIsNewest(f, today, now, d);
    assert ScannedFires(a, today, site) == [f(today + 1), f(today), f(today - 1)];
    assert forall e :: f(e) == Fire(a, e, site);
  }

  /** For every kind of anchor the three-date scan reports a base date within grace exactly when
      its fire is within grace: for every base date there is, not only the three scanned. */
  lemma GraceIsExact(a: Anchor, now: int, site: Site, d: int)
    requires Regular(a, site) && a.enabled
    ensures (var r := DecisionFor(a, now, site, EXACT_TIME_GRACE);
             r.Some? && r.value.localDate == d && r.value.withinGrace)
            <==> Fire(a, d, site).Some? && InGrace(Fire(a, d, site).value, now)
  {
    hide DecisionFor, Regular, Fire, Today;
    ScanIsNewest(a, now, site, d);
    if Fire(a, d, site).Some? && InGrace(Fire(a, d, site).value, now) { GraceIsScanned(a, now, site, d); }
  }

  const NOON := 12 * 3600

  // In UTC a clock anchor fires at its wall time.
  lemma UtcFires(a: Anchor, site: Site, now: int, d: int)
    requires site.tz == Zone(0, []) && a.kind == Clock
    ensures Fire(a, d, site) == Some(FireWall(a, d)) && Today(a, now, site) == now / DAY
  {}
}
