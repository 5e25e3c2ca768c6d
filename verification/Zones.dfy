/** Time zones as `zoneinfo` holds them: an offset in force at first, then a list of
    transitions, each with the UTC second it happens at and the offset after it.

    Instants are POSIX seconds, wall times are seconds on the local calendar, and offsets are
    the seconds a wall clock is ahead of UTC. Python's `datetime` covers the years 1 to 9999,
    so a finite list describes every zone over the whole range.
 */
module Zones {
  import opened Ints

  const DAY := 86400

  datatype Transition = Transition(at: int, after: int)

  // What a list of transition times is read against: instants, or wall times under the two
  // folds of PEP 495.
  datatype Scale = Utc | Fold0 | Fold1

  datatype Zone = Zone(initial: int, transitions: seq<Transition>) {

    // The offset in force once the first k transitions have happened.
    function Regime(k: nat): int
      requires k <= |transitions|
    {
      if k == 0 then initial else transitions[k - 1].after
    }

    // When transition i counts as past. On the wall scales it is the later of the two local
    // readings at the transition under fold 0, and the earlier under fold 1.
    function Key(scale: Scale, i: nat): int
      requires i < |transitions|
    {
      transitions[i].at +
      match scale
      case Utc => 0
      case Fold0 => Max(Regime(i), Regime(i + 1))
      case Fold1 => Min(Regime(i), Regime(i + 1))
    }

    // bisect.bisect_right over the first n keys: the transitions past at x.
    function PastOf(scale: Scale, x: int, n: nat): (k: nat)
      requires n <= |transitions|
      ensures k <= n
      ensures k > 0 ==> Key(scale, k - 1) <= x
      ensures k < n ==> x < Key(scale, k)
    {
      if n == 0 then 0
      else if Key(scale, n - 1) <= x then n
      else PastOf(scale, x, n - 1)
    }

    function Past(scale: Scale, x: int): (k: nat)
      ensures k <= |transitions|
    {
      PastOf(scale, x, |transitions|)
    }

    // The offset of a UTC instant: aware_utc.astimezone(tz).utcoffset().
    function OffsetAt(u: int): int { Regime(Past(Utc, u)) }

    // The local reading of a UTC instant.
    function Wall(u: int): int { u + OffsetAt(u) }

    // The offset `zoneinfo` gives a wall time that carries a fold.
    function UtcOffset(wall: int, fold: Scale): int { Regime(Past(fold, wall)) }

    // The local calendar date of an instant.
    function LocalDate(u: int): int { Wall(u) / DAY }

    function Gap(i: nat): int
      requires i + 1 < |transitions|
    {
      transitions[i + 1].at - transitions[i].at
    }

    // How far transition i moves the wall clock, forwards or back.
    function Jump(i: nat): nat
      requires i < |transitions|
    {
      Max(Regime(i + 1) - Regime(i), Regime(i) - Regime(i + 1))
    }

    // Transitions lie further apart than either of them moves the clock. This is what sorts
    // the keys on every scale, which `bisect` needs in the first place.
    predicate Spaced() {
      forall i :: 0 <= i < |transitions| - 1 ==> Gap(i) > Jump(i) && Gap(i) > Jump(i + 1)
    }
  }

  lemma {:induction false} KeysIncrease(z: Zone, scale: Scale, i: nat, j: nat)
    requires z.Spaced() && i < j < |z.transitions|
    ensures z.Key(scale, i) < z.Key(scale, j)
    decreases j
  {
    assert z.Gap(j - 1) > z.Jump(j - 1) && z.Gap(j - 1) > z.Jump(j);
    if i < j - 1 { KeysIncrease(z, scale, i, j - 1); }
  }

  // A count of past transitions is settled by the two keys around the point.
  lemma {:induction false} PastIs(z: Zone, scale: Scale, x: int, k: nat)
    requires z.Spaced() && k <= |z.transitions|
    requires k > 0 ==> z.Key(scale, k - 1) <= x
    requires k < |z.transitions| ==> x < z.Key(scale, k)
    ensures z.Past(scale, x) == k
  {
    var j := z.Past(scale, x);
    if j < k - 1 { KeysIncrease(z, scale, j, k - 1); }
    if k < j - 1 { KeysIncrease(z, scale, k, j - 1); }
  }

  // ---------------------------------------------------------------------------------------
  // The first instant at or after a wall time
  // ---------------------------------------------------------------------------------------

  // u is the least instant whose local reading is at or after the wall time.
  ghost predicate IsFirst(z: Zone, wall: int, u: int) {
    z.Wall(u) >= wall && forall v :: v < u ==> z.Wall(v) < wall
  }

  // Every reading before transition k is below its fold-0 key: fall-backs never carry the
  // wall clock past a later key.
  lemma ReadingsBelow(z: Zone, k: nat, v: int)
    requires z.Spaced() && k < |z.transitions| && v < z.transitions[k].at
    ensures z.Wall(v) < z.Key(Fold0, k)
  {
    var j := z.Past(Utc, v);
    if k < j - 1 { KeysIncrease(z, Utc, k, j - 1); }
    if j < k { KeysIncrease(z, Fold0, j, k); }
  }

  // Every reading from transition k on is at or above its fold-1 key.
  lemma ReadingsAbove(z: Zone, k: nat, u: int)
    requires z.Spaced() && k < |z.transitions| && z.transitions[k].at <= u
    ensures z.Wall(u) >= z.Key(Fold1, k)
  {
    var j := z.Past(Utc, u);
    if j < k { KeysIncrease(z, Utc, j, k); }
    if k < j - 1 { KeysIncrease(z, Fold1, k, j - 1); }
  }

  // Transition k skips the wall time.
  predicate Skips(z: Zone, k: nat, wall: int)
    requires k < |z.transitions|
  {
    z.transitions[k].at + z.Regime(k) <= wall < z.transitions[k].at + z.Regime(k + 1)
  }

  // The instant a wall time is fired at: its first occurrence, or the transition skipping it.
  function FirstInstant(z: Zone, wall: int): int {
    var k := z.Past(Fold0, wall);
    if k < |z.transitions| && Skips(z, k, wall) then z.transitions[k].at else wall - z.Regime(k)
  }

  // In a gap, the instants around the skipping transition k and their regimes.
  lemma AroundGap(z: Zone, k: nat, wall: int, u: int)
    requires z.Spaced() && k < |z.transitions| && Skips(z, k, wall)
    requires wall - z.Regime(k + 1) <= u <= wall - z.Regime(k)
    ensures z.OffsetAt(u) == if u < z.transitions[k].at then z.Regime(k) else z.Regime(k + 1)
  {
    if k > 0 { assert z.Gap(k - 1) > z.Jump(k); }
    if k + 1 < |z.transitions| { assert z.Gap(k) > z.Jump(k); }
    PastIs(z, Utc, u, if u < z.transitions[k].at then k else k + 1);
  }

  lemma FirstInstantReads(z: Zone, wall: int)
    requires z.Spaced()
    ensures z.Wall(FirstInstant(z, wall)) >= wall
    ensures z.Wall(FirstInstant(z, wall)) == wall ||
            exists k: nat :: k < |z.transitions| && Skips(z, k, wall) && FirstInstant(z, wall) == z.transitions[k].at
  {
    var k := z.Past(Fold0, wall);
    var u := FirstInstant(z, wall);
    if k < |z.transitions| && Skips(z, k, wall) {
      AroundGap(z, k, wall, u);
    } else {
      PastIs(z, Utc, u, k);
    }
  }

  lemma FirstInstantIsLeast(z: Zone, wall: int, v: int)
    requires z.Spaced() && v < FirstInstant(z, wall)
    ensures z.Wall(v) < wall
  {
    var k := z.Past(Fold0, wall);
    if k > 0 && v < z.transitions[k - 1].at {
      ReadingsBelow(z, k - 1, v);
    } else {
      PastIs(z, Utc, v, k);
    }
  }

  lemma FirstInstantIsFirst(z: Zone, wall: int)
    requires z.Spaced()
    ensures IsFirst(z, wall, FirstInstant(z, wall))
  {
    FirstInstantReads(z, wall);
    forall v | v < FirstInstant(z, wall) ensures z.Wall(v) < wall { FirstInstantIsLeast(z, wall, v); }
  }

  lemma FirstInstantMonotone(z: Zone, w1: int, w2: int)
    requires z.Spaced() && w1 <= w2
    ensures FirstInstant(z, w1) <= FirstInstant(z, w2)
  {
    FirstInstantIsFirst(z, w1);
    FirstInstantIsFirst(z, w2);
  }

  // ---------------------------------------------------------------------------------------
  // The gap test and the bisection
  // ---------------------------------------------------------------------------------------

  // dt == dt.astimezone(UTC).astimezone(tz): both sides carry tz, so Python compares the
  // wall readings and ignores the fold.
  predicate WallTimeExists(z: Zone, wall: int) {
    z.Wall(wall - z.UtcOffset(wall, Fold0)) == wall
  }

  // The round trip through UTC under fold 0 fails only inside a gap, and then the two folds
  // read the offsets on either side of it.
  lemma GapFolds(z: Zone, wall: int) returns (k: nat)
    requires z.Spaced()
    ensures k == z.Past(Fold0, wall)
    ensures WallTimeExists(z, wall) <==> !(k < |z.transitions| && Skips(z, k, wall))
    ensures k < |z.transitions| && Skips(z, k, wall) ==> z.UtcOffset(wall, Fold1) == z.Regime(k + 1)
  {
    k := z.Past(Fold0, wall);
    if k < |z.transitions| && Skips(z, k, wall) {
      AroundGap(z, k, wall, wall - z.Regime(k));
      if k + 1 < |z.transitions| { assert z.Gap(k) > z.Jump(k + 1); }
      PastIs(z, Fold1, wall, k + 1);
    } else {
      PastIs(z, Utc, wall - z.Regime(k), k);
    }
  }

  lemma NoReadingInGap(z: Zone, k: nat, wall: int, u: int)
    requires z.Spaced() && k < |z.transitions| && Skips(z, k, wall)
    ensures z.Wall(u) != wall
  {
    if u < z.transitions[k].at {
      if k > 0 && u < z.transitions[k - 1].at {
        assert z.Gap(k - 1) > z.Jump(k - 1);
        ReadingsBelow(z, k - 1, u);
      } else {
        PastIs(z, Utc, u, k);
      }
    } else if k + 1 < |z.transitions| && z.transitions[k + 1].at <= u {
      assert z.Gap(k) > z.Jump(k + 1);
      ReadingsAbove(z, k + 1, u);
    } else {
      PastIs(z, Utc, u, k + 1);
    }
  }

  // The round trip detects exactly the wall times no instant reads.
  lemma GapTest(z: Zone, wall: int)
    requires z.Spaced()
    ensures WallTimeExists(z, wall) <==> exists u :: z.Wall(u) == wall
  {
    var k := GapFolds(z, wall);
    if !WallTimeExists(z, wall) {
      forall u ensures z.Wall(u) != wall { NoReadingInGap(z, k, wall, u); }
    }
  }

  /** The bisection between the two PEP 495 readings of a skipped wall time. It lands exactly
      on the transition, the first instant at or after the wall time. */
  method FirstValidInstantAfterGap(z: Zone, wall: int) returns (hi: int)
    requires z.Spaced() && !WallTimeExists(z, wall)
    ensures hi == FirstInstant(z, wall) && IsFirst(z, wall, hi)
  {
    var before := wall - z.UtcOffset(wall, Fold1);
    var after := wall - z.UtcOffset(wall, Fold0);
    var postOffset := z.OffsetAt(after);
    ghost var k := GapFolds(z, wall);
    AroundGap(z, k, wall, after);
    var lo := before;
    hi := after;
    while hi - lo > 1
      invariant before <= lo < z.transitions[k].at <= hi <= after
    {
      var mid := (lo + hi) / 2;
      AroundGap(z, k, wall, mid);
      if z.OffsetAt(mid) == postOffset {
        hi := mid;
      } else {
        lo := mid;
      }
    }
    FirstInstantIsFirst(z, wall);
  }
}
