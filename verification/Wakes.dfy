/** When the runner must wake next for its exact-time anchors, and when that wake is the
    earliest fire there is. */
module Wakes {
  import opened Options
  import opened Zones
  import opened Anchors

  // The instants after now among the fires of one anchor.
  function Upcoming(fires: seq<Option<int>>, now: int): (s: seq<int>)
    ensures forall x :: x in s <==> now < x && Some(x) in fires
  {
    if fires == [] then []
    else
      var n := |fires| - 1;
      assert forall x :: Some(x) in fires <==> Some(x) in fires[..n] || fires[n] == Some(x);
      Upcoming(fires[..n], now) + if fires[n].Some? && fires[n].value > now then [fires[n].value] else []
  }

  // The fires next_anchor_wake looks at: yesterday's, today's and tomorrow's base date.
  function WakeFires(a: Anchor, today: int, site: Site): seq<Option<int>> {
    [Fire(a, today - 1, site), Fire(a, today, site), Fire(a, today + 1, site)]
  }

  // The future instants of every enabled anchor on its three scanned base dates.
  function AllUpcoming(anchors: seq<Anchor>, now: int, site: Site): seq<int> {
    if anchors == [] then []
    else
      var n := |anchors| - 1;
      var a := anchors[n];
      AllUpcoming(anchors[..n], now, site) +
      if a.enabled then Upcoming(WakeFires(a, Today(a, now, site), site), now) else []
  }

  ghost predicate IsLeast(s: seq<int>, least: Option<int>) {
    if s == [] then least.None?
    else least.Some? && least.value in s && forall x :: x in s ==> least.value <= x
  }

  method NextAnchorWake(anchors: seq<Anchor>, now: int, site: Site) returns (soonest: Option<int>)
    requires site.Spaced()
    ensures IsLeast(AllUpcoming(anchors, now, site), soonest)
  {
    soonest := None;
    for n := 0 to |anchors|
      invariant IsLeast(AllUpcoming(anchors[..n], now, site), soonest)
    {
      assert anchors[..n + 1][..n] == anchors[..n];
      if !anchors[n].enabled { continue; }
      soonest := ScanUpcoming(anchors[n], now, site, AllUpcoming(anchors[..n], now, site), soonest);
    }
    assert anchors[..|anchors|] == anchors;
  }

  lemma UpcomingNone(now: int)
    ensures Upcoming([], now) == []
  {}

  lemma UpcomingMore(fires: seq<Option<int>>, i: nat, now: int)
    requires i < |fires|
    ensures Upcoming(fires[..i + 1], now) ==
            if fires[i].Some? && fires[i].value > now
            then Upcoming(fires[..i], now) + [fires[i].value]
            else Upcoming(fires[..i], now)
  {
    assert fires[..i + 1][..i] == fires[..i];
  }

  lemma LeastWith(s: seq<int>, least: Option<int>, x: int)
    requires IsLeast(s, least)
    ensures IsLeast(s + [x], if least.None? || x < least.value then Some(x) else least)
  {
    assert (s + [x])[|s|] == x;
  }

  // The inner loop of next_anchor_wake over the three base dates.
  method ScanUpcoming(a: Anchor, now: int, site: Site, ghost seen: seq<int>, start: Option<int>)
    returns (soonest: Option<int>)
    requires site.Spaced() && IsLeast(seen, start)
    ensures IsLeast(seen + Upcoming(WakeFires(a, Today(a, now, site), site), now), soonest)
  {
    var today := Today(a, now, site);
    hide Fire, Site.Spaced, Today, Upcoming, IsLeast;
    ghost var fires := WakeFires(a, today, site);
    soonest := start;
    UpcomingNone(now);
    assert seen + [] == seen;
    for i := 0 to 3
      invariant IsLeast(seen + Upcoming(fires[..i], now), soonest)
    {
      var instant := AnchorFireInstant(a, today - 1 + i, site);
      UpcomingMore(fires, i, now);
      if instant.None? || instant.value <= now { continue; }
      LeastWith(seen + Upcoming(fires[..i], now), soonest, instant.value);
      assert seen + Upcoming(fires[..i + 1], now) == (seen + Upcoming(fires[..i], now)) + [instant.value];
      if soonest.None? || instant.value < soonest.value { soonest := instant; }
    }
    assert fires[..3] == fires;
  }

  // ---------------------------------------------------------------------------------------
  // The earliest fire over all anchors and all dates
  // ---------------------------------------------------------------------------------------

  ghost predicate AllRegular(anchors: seq<Anchor>, site: Site) {
    forall a :: a in anchors && a.enabled ==> Regular(a, site)
  }

  ghost predicate WillFire(anchors: seq<Anchor>, now: int, site: Site, a: Anchor, d: int) {
    a in anchors && a.enabled && Fire(a, d, site).Some? && now < Fire(a, d, site).value
  }

  // The wake is at most every future fire of every enabled anchor on every date.
  ghost predicate IsEarliest(anchors: seq<Anchor>, now: int, site: Site, wake: int) {
    forall a, d :: WillFire(anchors, now, site, a, d) ==> wake <= Fire(a, d, site).value
  }

  // e is the first base date with a fire from the day after tomorrow on. For a clock anchor
  // it is the day after tomorrow.
  ghost predicate IsNext(a: Anchor, now: int, site: Site, e: int) {
    && Today(a, now, site) + 2 <= e && Fire(a, e, site).Some?
    && forall d :: Today(a, now, site) + 2 <= d < e ==> Fire(a, d, site).None?
  }

  // Some future fire for a date up to tomorrow is no later than any fire of any enabled
  // anchor from the day after tomorrow on.
  ghost predicate NearFireIsFirst(anchors: seq<Anchor>, now: int, site: Site, a: Anchor, d: int) {
    && WillFire(anchors, now, site, a, d) && d <= Today(a, now, site) + 1
    && forall b, e :: b in anchors && b.enabled && IsNext(b, now, site, e) ==>
         Fire(a, d, site).value <= Fire(b, e, site).value
  }

  // What the scan collects for one anchor.
  lemma UpcomingIs(a: Anchor, now: int, site: Site, x: int)
    ensures x in Upcoming(WakeFires(a, Today(a, now, site), site), now) <==>
            && now < x
            && exists d :: Today(a, now, site) - 1 <= d <= Today(a, now, site) + 1 && Fire(a, d, site) == Some(x)
  {
    hide Fire, Today, Upcoming;
    var today := Today(a, now, site);
    var fires := WakeFires(a, today, site);
    assert fires[0] == Fire(a, today - 1, site) && fires[1] == Fire(a, today, site);
    assert fires[2] == Fire(a, today + 1, site);
    if Some(x) in fires {
      var i :| 0 <= i < 3 && fires[i] == Some(x);
      assert Fire(a, today - 1 + i, site) == Some(x);
    }
  }

  // What it collects for all of them.
  lemma {:induction false} AllUpcomingIs(anchors: seq<Anchor>, now: int, site: Site, x: int)
    ensures x in AllUpcoming(anchors, now, site) <==>
            exists a, d :: && WillFire(anchors, now, site, a, d) && Fire(a, d, site).value == x
                           && Today(a, now, site) - 1 <= d <= Today(a, now, site) + 1
  {
    hide Fire, Today, Upcoming, WakeFires;
    if anchors != [] {
      var n := |anchors| - 1;
      var b := anchors[n];
      AllUpcomingIs(anchors[..n], now, site, x);
      assert forall a :: a in anchors <==> a in anchors[..n] || a == b;
      assert forall a, d :: WillFire(anchors[..n], now, site, a, d) ==> WillFire(anchors, now, site, a, d);
      UpcomingIs(b, now, site, x);
      if b.enabled && x in Upcoming(WakeFires(b, Today(b, now, site), site), now) {
        var d :| Today(b, now, site) - 1 <= d <= Today(b, now, site) + 1 && Fire(b, d, site) == Some(x);
        assert WillFire(anchors, now, site, b, d);
      }
    }
  }

  // A future fire for a date up to tomorrow is among those scanned.
  lemma NearFireIsScanned(anchors: seq<Anchor>, now: int, site: Site, a: Anchor, d: int)
    requires AllRegular(anchors, site)
    requires WillFire(anchors, now, site, a, d) && d <= Today(a, now, site) + 1
    ensures Fire(a, d, site).value in AllUpcoming(anchors, now, site)
  {
    FireBounds(a, now, site, d);
    AllUpcomingIs(anchors, now, site, Fire(a, d, site).value);
  }

  // A fire from the day after tomorrow on is not before the first of these.
  lemma FarFireHasNext(a: Anchor, now: int, site: Site, d: int) returns (e: int)
    requires Regular(a, site) && Today(a, now, site) + 2 <= d && Fire(a, d, site).Some?
    ensures IsNext(a, now, site, e) && Fire(a, e, site).value <= Fire(a, d, site).value
  {
    hide Fire, Today, Regular;
    e := Today(a, now, site) + 2;
    while Fire(a, e, site).None?
      invariant Today(a, now, site) + 2 <= e <= d
      invariant forall i :: Today(a, now, site) + 2 <= i < e ==> Fire(a, i, site).None?
      decreases d - e
    {
      e := e + 1;
    }
    FiresAreOrdered(a, site, e, d);
  }

  /** The runner gets no wake exactly when every enabled anchor has already fired for every
      base date up to tomorrow. It gets the earliest future fire over all anchors and all dates
      exactly when some future fire for a date up to tomorrow is no later than every enabled
      anchor's next fire from the day after tomorrow on. */
  lemma WakeIsExact(anchors: seq<Anchor>, now: int, site: Site, wake: Option<int>)
    requires AllRegular(anchors, site) && IsLeast(AllUpcoming(anchors, now, site), wake)
    ensures wake.None? <==>
            forall a, d :: WillFire(anchors, now, site, a, d) ==> Today(a, now, site) + 2 <= d
    ensures wake.Some? && IsEarliest(anchors, now, site, wake.value) <==>
            exists a, d :: NearFireIsFirst(anchors, now, site, a, d)
    ensures wake.Some? ==> exists a, d :: WillFire(anchors, now, site, a, d) && Fire(a, d, site).value == wake.value
  {
    hide Fire, Today, Regular, AllUpcoming;
    if wake.Some? { AllUpcomingIs(anchors, now, site, wake.value); }
    forall a, d | WillFire(anchors, now, site, a, d) && d <= Today(a, now, site) + 1
      ensures wake.Some? && wake.value <= Fire(a, d, site).value
    {
      NearFireIsScanned(anchors, now, site, a, d);
    }
    if wake.Some? && IsEarliest(anchors, now, site, wake.value) {
      NearFireExists(anchors, now, site, wake.value);
    }
    forall a, d | NearFireIsFirst(anchors, now, site, a, d)
      ensures wake.Some? && IsEarliest(anchors, now, site, wake.value)
    {
      NothingEarlier(anchors, now, site, wake.value, a, d);
    }
  }

  lemma NearFireExists(anchors: seq<Anchor>, now: int, site: Site, wake: int)
    requires AllRegular(anchors, site)
    requires wake in AllUpcoming(anchors, now, site) && IsEarliest(anchors, now, site, wake)
    ensures exists a, d :: NearFireIsFirst(anchors, now, site, a, d)
  {
    hide Fire, Today, Regular, AllUpcoming;
    AllUpcomingIs(anchors, now, site, wake);
    var a, d :| && WillFire(anchors, now, site, a, d) && Fire(a, d, site).value == wake
                && Today(a, now, site) - 1 <= d <= Today(a, now, site) + 1;
    forall b, e | b in anchors && b.enabled && IsNext(b, now, site, e) ensures wake <= Fire(b, e, site).value {
      FireBounds(b, now, site, e);
      assert WillFire(anchors, now, site, b, e);
    }
    assert NearFireIsFirst(anchors, now, site, a, d);
  }

  lemma NothingEarlier(anchors: seq<Anchor>, now: int, site: Site, wake: int, a: Anchor, d: int)
    requires AllRegular(anchors, site) && NearFireIsFirst(anchors, now, site, a, d)
    requires forall x :: x in AllUpcoming(anchors, now, site) ==> wake <= x
    ensures IsEarliest(anchors, now, site, wake)
  {
    hide Fire, Today, Regular, AllUpcoming;
    NearFireIsScanned(anchors, now, site, a, d);
    forall b, e | WillFire(anchors, now, site, b, e) ensures wake <= Fire(b, e, site).value {
      if e <= Today(b, now, site) + 1 {
        NearFireIsScanned(anchors, now, site, b, e);
      } else {
        var next := FarFireHasNext(b, now, site, e);
        assert IsNext(b, now, site, next);
      }
    }
  }

  // No fire from the day after tomorrow on is before this instant: tomorrow's local noon for
  // a clock anchor, half a day before the day after tomorrow begins for a solar one.
  function Horizon(a: Anchor, now: int, site: Site): int {
    var z, today := EffectiveTz(a, site), Today(a, now, site);
    if a.kind == Clock then FirstInstant(z, (today + 1) * DAY + DAY / 2)
    else FirstInstant(z, (today + 2) * DAY) - DAY / 2
  }

  lemma NotBeforeHorizon(a: Anchor, now: int, site: Site, d: int)
    requires Regular(a, site) && Fire(a, d, site).Some? && Today(a, now, site) + 2 <= d
    ensures Horizon(a, now, site) <= Fire(a, d, site).value
  {
    hide FirstInstant, Zone.LocalDate, Tame;
    var z, today := EffectiveTz(a, site), Today(a, now, site);
    TameIsSpaced(z);
    if a.kind == Clock {
      NotBeforeNoon(a, z, today, d);
    } else {
      FirstReadingOfDate(z, today + 2, site.sun(a.kind, d, z).value);
    }
  }

  lemma NotBeforeNoon(a: Anchor, z: Zone, today: int, d: int)
    requires z.Spaced() && a.Valid() && today + 2 <= d
    ensures FirstInstant(z, (today + 1) * DAY + DAY / 2) <= FirstInstant(z, FireWall(a, d))
  {
    FirstInstantMonotone(z, (today + 1) * DAY + DAY / 2, FireWall(a, d));
  }

  lemma FirstReadingOfDate(z: Zone, d: int, v: int)
    requires z.Spaced() && d <= z.LocalDate(v)
    ensures FirstInstant(z, d * DAY) <= v
  {
    FirstInstantIsFirst(z, d * DAY);
    assert d * DAY <= z.Wall(v);
  }

  /** When some enabled anchor fires, on any base date, after now and before the horizon of
      every enabled anchor, the wake is the earliest future fire over all anchors and dates. */
  lemma WakeBeforeNoon(anchors: seq<Anchor>, now: int, site: Site, wake: Option<int>, a: Anchor, d: int)
    requires AllRegular(anchors, site) && IsLeast(AllUpcoming(anchors, now, site), wake)
    requires WillFire(anchors, now, site, a, d)
    requires forall b :: b in anchors && b.enabled ==> Fire(a, d, site).value < Horizon(b, now, site)
    ensures wake.Some? && IsEarliest(anchors, now, site, wake.value)
    ensures exists b, e :: WillFire(anchors, now, site, b, e) && Fire(b, e, site).value == wake.value
  {
    hide Fire, Today, Regular, AllUpcoming, Horizon;
    if Today(a, now, site) + 2 <= d {
      NotBeforeHorizon(a, now, site, d);
      assert false;
    }
    forall b, e | b in anchors && b.enabled && IsNext(b, now, site, e)
      ensures Fire(a, d, site).value <= Fire(b, e, site).value
    {
      NotBeforeHorizon(b, now, site, e);
    }
    assert NearFireIsFirst(anchors, now, site, a, d);
    WakeIsExact(anchors, now, site, wake);
  }

  // Midnight less 12 hours fires at noon the day before. At 13:00 on day 10 it has fired for
  // day 11, so the runner gets no wake, although day 12 fires at noon on day 11.
  lemma WakeIsMissed(a: Anchor, site: Site, now: int)
    requires a == Anchor("a", Clock, 0, -12 * 60, true)
    requires site.tz == Zone(0, []) && now == 10 * DAY + NOON + 3600
    ensures AllUpcoming([a], now, site) == []
    ensures WillFire([a], now, site, a, 12) && Fire(a, 12, site) == Some(11 * DAY + NOON)
  {
    forall d ensures Fire(a, d, site) == Some(FireWall(a, d)) && Today(a, now, site) == 10 {
      UtcFires(a, site, now, d);
    }
    hide Fire, Today, AllUpcoming;
    if AllUpcoming([a], now, site) != [] {
      AllUpcomingIs([a], now, site, AllUpcoming([a], now, site)[0]);
    }
  }

  // The second anchor's fires for days 9 to 11, of which only that of day 11 is to come.
  lemma FiresAtHalfPast(a: Anchor, b: Anchor, site: Site, now: int, c: Anchor, d: int)
    requires a == Anchor("a", Clock, 0, -12 * 60, true) && b == Anchor("b", Clock, 12 * 60 + 30, 0, true)
    requires site.tz == Zone(0, []) && now == 10 * DAY + NOON + 3600
    requires WillFire([a, b], now, site, c, d) && Today(c, now, site) - 1 <= d <= Today(c, now, site) + 1
    ensures Fire(c, d, site).value == 11 * DAY + NOON + 1800
  {
    UtcFires(c, site, now, d);
    hide Fire, Today;
  }

  // With a second anchor at 12:30, the runner is woken at 12:30 on day 11, half an hour after
  // the first anchor fires.
  lemma WakeIsLate(a: Anchor, b: Anchor, site: Site, now: int)
    requires a == Anchor("a", Clock, 0, -12 * 60, true) && b == Anchor("b", Clock, 12 * 60 + 30, 0, true)
    requires site.tz == Zone(0, []) && now == 10 * DAY + NOON + 3600
    ensures IsLeast(AllUpcoming([a, b], now, site), Some(11 * DAY + NOON + 1800))
    ensures WillFire([a, b], now, site, a, 12) && Fire(a, 12, site) == Some(11 * DAY + NOON)
  {
    UtcFires(b, site, now, 11);
    UtcFires(a, site, now, 12);
    hide Fire, Today, AllUpcoming;
    assert WillFire([a, b], now, site, b, 11);
    AllUpcomingIs([a, b], now, site, 11 * DAY + NOON + 1800);
    forall x | x in AllUpcoming([a, b], now, site) ensures 11 * DAY + NOON + 1800 <= x {
      AllUpcomingIs([a, b], now, site, x);
      var c, d :| && WillFire([a, b], now, site, c, d) && Fire(c, d, site).value == x
                  && Today(c, now, site) - 1 <= d <= Today(c, now, site) + 1;
      FiresAtHalfPast(a, b, site, now, c, d);
    }
  }
}
