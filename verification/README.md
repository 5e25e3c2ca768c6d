# Timelapse Manager: a verified model of its hard parts

Timelapse Manager takes pictures from network cameras at set times. This project models the
parts of it whose correctness is hardest to see from the code, and proves what they promise over
every input, every history of calls or every run.

- **Exact-time anchors** (`Zones`, `Anchors`, `Wakes`, `FireLog`, `AnchorRetries`). An anchor fires
  once per local day at a wall-clock time or solar event shifted by up to 12 hours. `Zones` models a time zone as
  `zoneinfo` does: offsets between transitions, with the two folds of PEP 495. `Anchors` proves when
  an anchor fires and that looking at three dates finds what a search over all dates would. `Wakes`
  proves when the computed wake is the earliest fire. `FireLog` proves which fires get which row in
  the durable log over a run of evaluations, `AnchorRetries` what every interleaving of workers,
  retries, timeouts, crashes and low-disk skips keeps.
- **Camera authentication** (`Challenges`, `RoundTrip`, `AuthState`, `Downgrades`,
  `DigestHeaders`, `AuthHistory`, `NonceCounts`). A parser for `WWW-Authenticate` values (section
  11.6.1 of RFC 9110) with the round trip against a printer, the choice of scheme and what keeps it
  from falling to Basic, the Digest header as a server reads and recomputes it (section 3.4 of RFC
  7616), the per-origin memory as a function of the history of calls, and the nonce counts that the
  headers of one Digest negotiation carry.
- **Package versions** (`PackageVersions`, `RpmVersions`). The mapping from PEP 440 versions to
  .deb and .rpm versions keeps the order, compared with section 5.6.12 of the Debian Policy Manual
  and with rpm's own comparison.
- **Data migrations** (`UserMerge`, `IdSequences`). Merging accounts that differ only by case, and
  seeding id counters so that ids are never reused.
- **Walks and memories** (`JpegSegments`, `XmlWalk`, `RecentRequests`, `HttpProbe`, `ByteRanges`).
  The JPEG segment walkers (Annex B of ITU-T T.81), the explicit-stack XML walk, the bounded memory
  of recent requests, the credential-gated probe, and HTTP range streaming (section 14.1.2 of
  RFC 9110).

Code that updates things in place is modelled by classes and by methods with loops, each proved
against a specification function; the promises are lemmas about those functions. Times are whole
seconds, dates are day numbers, and strings are sequences of characters.

One thing is assumed of the sun (`Anchors.SunKeepsDates`): the event asked for on a date happens on
that local date, as `schedule.py` lines 325-328 say, and the events of different dates are in date
order and more than 30 minutes apart. A date may have no event.

## What turned out not to hold

Each of these is shown by a lemma, with the exact condition under which the promise does hold.

- The due scan is not always the most recent fire (`ScanMissesOlderFire`): it is, exactly when
  yesterday's base date has fired, and otherwise it reports nothing (`ScanIsMostRecent`).
- A zone that skips a whole day fires two base dates at once and reports one
  (`SkippedDayHidesFire`). `GraceInAnyZone` gives the exact condition for every zone; `GraceIsExact`
  shows that jumps of at most 11 hours, a day or more apart, never fail it.
- The wake can be missing or late. An anchor at midnight less 12 hours gets no wake at 13:00
  (`WakeIsMissed`), and with a second anchor at 12:30 the wake is half an hour late (`WakeIsLate`).
  `WakeIsExact` has the exact condition on the anchors' fires, and no wake for a clock anchor is
  missed before the next local noon (`WakeBeforeNoon`).
- An anchor can capture two frames for one date: a timed-out attempt's frame write may still be
  running when the retry starts (`OverlapIsReachable`). Runs in which that never happens give at
  most one frame (`AtMostOneFrame`), and any state in which it does can go on to two
  (`OverlapGivesTwoFrames`).
- A missed fire is not always recorded as missed: with evaluations before it and then days later
  there is no row (`MissLeavesNoRow`). `RowsOfRun` has the exact condition for each status.
- Nothing keeps the ids of anchors distinct. Of two with one id, a recorded miss of the first hides
  the fire of the second (`SharedIdHidesFire`). Every fire is claimed when no other enabled anchor
  has the id (`EveryFireIsClaimed`), and whatever the ids are, the row is the one its first decision
  asks for (`RowIsFirstDecision`).
- A base date gets at most seven attempts, two authentication failures and 945 seconds of waiting
  in every run without a low-disk skip (`TotalsAreBounded`). A skip deletes the row, and the counts
  start again (`LowDiskStartsOver`), so claims have no bound (`LowDiskUnboundsClaims`). Of the
  attempts that reach the camera, three rounds of skip, failed claim and retry pass the two
  authentication failures, eight the seven attempts and 64 the 945 seconds, as long as the grace has
  room for them (`LowDiskExceedsTotals`, `ThreeAuthFailures`). Each wait takes 15 seconds of the
  grace or more, so while the clock does not go back there are at most 119 attempts and 1770 seconds
  (`ClockBoundsTotals`). `LimitsCanBePassed` says exactly from which states a run can pass each
  limit.
- A retry is due at least 30 seconds before the grace closes but may start later than that
  (`RetryStartsLate`). It starts in time exactly when some evaluation comes between its being due and
  then (`RetryIsInTime`).
- Text the parser cannot read does not always keep Basic from being answered: at the head of a line
  it leaves no trace (`OneDigestIsDropped`, `UnreadLineAllowsBasic`). An unreadable element blocks
  Basic when a scheme or a parameter stands before it on its line, and is otherwise as if absent
  (`StrayIsSeen`). `LineBlocksBasic` says exactly which lines block Basic.
- The credential fingerprint joins user name and password with a NUL, so it tells pairs apart
  exactly when neither holds one (`TagIsFaithful`). A preemptive call for another pair with the same
  fingerprint can raise the nonce count and send nothing (`OneCountIsSkipped`): the headers of one
  negotiation carry the counts 1, 2, 3, ... in every continuation exactly when the answered password
  holds no NUL (`CountsInOrder`).
- PEP 440 pads releases with zeros and dpkg and rpm do not, so `1.0` and `1.0.0` compare
  differently (`CountsMatter`); `OrderIsKept` says exactly when the orders agree.
- A column that refers to a table gives the migration only its largest id, so an unbelievable one
  hides the others, and such an id is handed out again (`HiddenIdIsReused`). `RecordedIdsAreSafe` has
  the exact condition, which holds when every column's largest id is believable
  (`BelievableMaximaCover`).
- The TEM marker stands alone in T.81 but is read as a segment, so the walks jump 65280 bytes or
  more at it (`TemJumps`). With fewer bytes than that after the first TEM, the frame size and the
  Exif payload are read exactly when no TEM stands before them, and with no TEM always
  (`TemHidesFrame`, `TemHidesExif`).

The docstring of `_first_valid_instant_after_gap` names the two folds the wrong way round: fold 0
reads a skipped time with the offset before the gap, which puts its instant after the transition.
The code is right, and the model follows it.

## Model

| member | source | states |
|---|---|---|
| Zones.FirstInstantIsFirst | src/timelapse_manager/capture/anchors.py:296-307 | the fire instant is the least instant whose local reading has reached the wall time, whether that time is read once, twice or never |
| Zones.GapTest | src/timelapse_manager/capture/anchors.py:346-354 | the round trip through UTC fails exactly for the wall times that no instant reads |
| Zones.FirstValidInstantAfterGap | src/timelapse_manager/capture/anchors.py:357-384 | the bisection between the two folds terminates exactly on the transition, the first instant at or after the skipped time |
| Anchors.AnchorFireInstant | src/timelapse_manager/capture/anchors.py:274-324 | the gap branch, the ordinary branch and the solar branches together give the specified fire instant, or none |
| Anchors.ClockFiresFirst | src/timelapse_manager/capture/anchors.py:274-307 | a clock anchor fires at the least instant at or after its configured date, time and offset |
| Anchors.ClockReadsConfigured | src/timelapse_manager/capture/anchors.py:296-307 | where the configured time is read at all, the clock reads the base date's minute plus the offset when the anchor fires |
| Anchors.SolarFiresAtEvent | src/timelapse_manager/capture/anchors.py:308-324 | a solar anchor fires exactly on the dates its own event has at a located camera, in the camera's zone or else the project's, 60 s after the event for each minute of offset |
| Anchors.SolarOffsetsShift | src/timelapse_manager/capture/anchors.py:324 | two solar anchors of one kind fire on the same dates, as far apart as their offsets |
| Anchors.DueAnchors | src/timelapse_manager/capture/anchors.py:431-524 | the decisions are those specified for each anchor, in order, disabled ones left out |
| Anchors.Decide | src/timelapse_manager/capture/anchors.py:468-523 | one anchor's decision, with the no-location case and the grace flag |
| Anchors.ScanDue | src/timelapse_manager/capture/anchors.py:496-509 | the three-date loop finds the latest due instant and its base date, the first on a tie |
| Anchors.ScanBounds | src/timelapse_manager/capture/anchors.py:490-509 | for clock anchors, every base date two or more days back has fired, and none two or more days ahead has |
| Anchors.GraceIsExact | src/timelapse_manager/capture/anchors.py:431-524 | for every kind of anchor and every base date whatever, the scan reports it within grace exactly when it has a fire and now is from that fire to 30 minutes after |
| Anchors.ScanIsNewest | src/timelapse_manager/capture/anchors.py:490-523 | for every kind of anchor, the date reported is the latest that has fired of all dates there are, reported exactly when that is yesterday or later |
| Anchors.FireBounds | src/timelapse_manager/capture/anchors.py:490-509 | for every kind of anchor, every base date two or more days back with a fire has fired, and none two or more days ahead has |
| Anchors.GraceInAnyZone | src/timelapse_manager/capture/anchors.py:431-524 | for zones with jumps of any size: reported within grace exactly when the fire is, the date is scanned and the next date is not due |
| Anchors.ScanIsMostRecent | src/timelapse_manager/capture/anchors.py:454-459 | the decision is the most recent fire over all dates exactly when yesterday's has fired; otherwise there is none although the date before has fired |
| Anchors.ScanMissesOlderFire | src/timelapse_manager/capture/anchors.py:490-509 | 23:00 plus 12 hours at 08:00: a fire has happened and nothing is reported |
| Anchors.SkippedDayHidesFire | src/timelapse_manager/capture/anchors.py:490-509 | a skipped day fires two base dates at one instant and only the later is reported |
| Wakes.NextAnchorWake | src/timelapse_manager/capture/anchors.py:554-585 | the wake is the least future instant over all enabled anchors and their three base dates, none if there is none |
| Wakes.ScanUpcoming | src/timelapse_manager/capture/anchors.py:579-584 | one anchor's three dates extend the minimum so far |
| Wakes.WakeIsExact | src/timelapse_manager/capture/anchors.py:554-585 | for clock and solar anchors together: no wake exactly when all fires for dates up to tomorrow have happened; the wake is the earliest future fire over all anchors and dates exactly when some future fire for a date up to tomorrow is no later than every enabled anchor's next one from the day after tomorrow on |
| Wakes.WakeBeforeNoon | src/timelapse_manager/capture/anchors.py:554-585 | whenever some anchor fires after now and before every enabled anchor's horizon (tomorrow's local noon for clock anchors, half a day before the day after tomorrow for solar ones), the wake is the earliest future fire over all anchors and all dates |
| Wakes.WakeIsMissed | src/timelapse_manager/capture/anchors.py:577-585 | midnight less 12 hours at 13:00: no wake, although the day after tomorrow's base date fires tomorrow noon |
| Wakes.WakeIsLate | src/timelapse_manager/capture/anchors.py:577-585 | with a second anchor at 12:30 the wake is half an hour after that fire |
| FireLog.RowsOfRun | src/timelapse_manager/capture/supervisor.py:2714-2737 | for every kind of anchor, over any run of evaluations in time order, the row of a base date with a fire is a claim for capture exactly when some evaluation came within grace of it; else a recorded miss exactly when some evaluation past the grace saw the date as the latest fired and no earlier than yesterday; else there is none |
| FireLog.RowsWithoutFire | src/timelapse_manager/capture/supervisor.py:2715-2717 | a base date with no fire gets no row, except a skip for each local date on which an anchor without a location is evaluated |
| FireLog.EveryFireIsClaimed | src/timelapse_manager/capture/supervisor.py:3262-3292 | when evaluations are no further apart than the grace and no other enabled anchor has the id, every fire inside the run gets its one row as a claim for capture |
| FireLog.MissLeavesNoRow | src/timelapse_manager/capture/anchors.py:57-61 | a noon fire between an evaluation at 11:00 and one two and a half days later is missed and leaves no row |
| FireLog.RowIsFirstDecision | src/timelapse_manager/capture/supervisor.py:3262-3292 | whatever ids the anchors have, the row of an id and date is the one the first decision for them asks for |
| FireLog.SharedIdHidesFire | src/timelapse_manager/capture/anchors.py:205-260 | two anchors with one id at 00:00 and 01:00: the recorded miss of the first keeps the second from being claimed, although it is seen as it fires |
| AnchorRetries.StepKeepsInv | src/timelapse_manager/capture/supervisor.py:2995-3260 | every claim, reclaim, failure, write, release and crash keeps the row invariant |
| AnchorRetries.RunKeepsInv | src/timelapse_manager/capture/anchors.py:527-551 | in every interleaving: one attempt at a time, at most seven and at most two authentication failures to a row, at most 945 s of scheduled waiting, every retry due 30 s or more before the grace closes, at most one alert |
| AnchorRetries.EveryRetryIsMade | src/timelapse_manager/capture/anchors.py:66-71 | the bounds are reached: an anchor failing every time is retried after 15, 30, 60, 120, 240 and 480 s and given up at the seventh attempt with one alert |
| AnchorRetries.AuthIsRetriedOnce | src/timelapse_manager/capture/anchors.py:72-74 | an authentication failure is retried once, then final |
| AnchorRetries.FirstEvaluation | src/timelapse_manager/capture/supervisor.py:2714-2724 | the first evaluation claims within grace, records a miss past it, a skip without a location, and nothing before the fire |
| AnchorRetries.FailureOutcome | src/timelapse_manager/capture/anchors.py:527-551 | for every attempt that fails: retried after 15 s doubled with each attempt while attempts are left and the retry is due 30 s before the grace closes, else final with one alert |
| AnchorRetries.WriteCaptures | src/timelapse_manager/capture/supervisor.py:3303-3335 | a frame written, in time or late, leaves the row captured with no retry and no alert |
| AnchorRetries.CapturedIsNotReopened | src/timelapse_manager/capture/supervisor.py:3129-3150 | a failure leaves a row captured meanwhile as it is; a lost worker leaves the row, and its write to finish |
| AnchorRetries.PendingPastGraceFails | src/timelapse_manager/capture/supervisor.py:3078-3091 | every retry still pending past the grace becomes a failure with one alert and no new attempt |
| AnchorRetries.FinalStays | src/timelapse_manager/capture/supervisor.py:3076-3077 | no run of evaluations changes a row with nothing in flight or to come |
| AnchorRetries.NoLocationChangesNothing | src/timelapse_manager/capture/supervisor.py:3011-3013 | an evaluation without a location changes no row there is |
| AnchorRetries.TotalsAreBounded | src/timelapse_manager/capture/anchors.py:66-74 | in every run without a low-disk skip: at most seven claims and attempts, two authentication failures and 945 s of scheduled waiting in all for a base date |
| AnchorRetries.LowDiskStartsOver | src/timelapse_manager/capture/supervisor.py:2884-2895 | after a low-disk skip the next claim is for a first attempt again with no failure counted, one more claim in all and no attempt made |
| AnchorRetries.LowDiskUnboundsClaims | src/timelapse_manager/capture/supervisor.py:2884-2895 | from any attempt in flight within grace, skips lead to any number of further claims |
| AnchorRetries.LowDiskExceedsTotals | src/timelapse_manager/capture/supervisor.py:2884-2895 | from any attempt in flight, n rounds of skip, failed claim and retry add n attempts that fail to authenticate and 15 n seconds of waiting, as long as the grace lasts |
| AnchorRetries.ThreeAuthFailures | src/timelapse_manager/capture/supervisor.py:2884-2895 | one run with three authentication failures for a base date |
| AnchorRetries.ClockBoundsTotals | src/timelapse_manager/capture/anchors.py:72-77 | while the clock does not go back, at most 119 attempts made, so 119 authentication failures, and 1770 s of waiting whatever is skipped |
| AnchorRetries.TotalsFromHere | src/timelapse_manager/capture/anchors.py:72-77 | the most attempts, authentication failures and waiting any run whose clock does not go back can come to from an attempt in flight |
| AnchorRetries.TotalsReached | src/timelapse_manager/capture/supervisor.py:2884-2895 | low-disk skips reach all three |
| AnchorRetries.LimitsCanBePassed | src/timelapse_manager/capture/supervisor.py:2884-2895 | from an attempt in flight some run passes seven attempts, two authentication failures or 945 s exactly when the waits the grace still has room for take that total past it |
| AnchorRetries.RetryStartsLate | src/timelapse_manager/capture/supervisor.py:3077-3115 | a retry due after 15 s starts one second before the grace closes when it is first looked at then |
| AnchorRetries.RetryIsInTime | src/timelapse_manager/capture/anchors.py:75-77 | a pending retry starts at least 30 s before the grace closes exactly when some evaluation, by any worker, comes between its being due and then |
| AnchorRetries.RetryStartsInTime | src/timelapse_manager/capture/anchors.py:75-77 | with evaluations at most gap seconds apart, gap at most 30, a pending retry is left alone until due and started at most gap seconds later |
| AnchorRetries.AtMostOneFrame | src/timelapse_manager/capture/supervisor.py:2683-2699 | runs that start no attempt during a late frame write capture at most one frame for the date |
| AnchorRetries.OverlapGivesTwoFrames | src/timelapse_manager/capture/supervisor.py:2812-2920 | from any state where an attempt overlaps a late write, two more frames follow |
| AnchorRetries.OverlapIsReachable | src/timelapse_manager/capture/supervisor.py:2863-2919 | a time-out in the write and the 15 s retry reach such a state |
| Challenges.SplitElements | src/timelapse_manager/cameras/http_auth.py:144-174 | the loop splits at top-level commas and gives nothing for an unterminated quote |
| Challenges.Unquote | src/timelapse_manager/cameras/http_auth.py:177-200 | the loop undoes quoting, and refuses stray quotes and dangling escapes |
| Challenges.Builder.constructor | src/timelapse_manager/cameras/http_auth.py:206-210 | a new challenge is valid, with no parameters |
| Challenges.Builder.AddParam | src/timelapse_manager/cameras/http_auth.py:212-221 | a parameter is added, or the challenge marked invalid with its parameters kept |
| Challenges.ParseChallenges | src/timelapse_manager/cameras/http_auth.py:242-294 | the challenges of every line in order, an unreadable line giving one unusable challenge |
| Challenges.ParseElements | src/timelapse_manager/cameras/http_auth.py:261-293 | one line's elements are attributed to challenges as specified |
| RoundTrip.UnescapeOf | src/timelapse_manager/cameras/http_auth.py:353-356 | unquoting undoes quoting for every value |
| RoundTrip.LineRoundTrip | src/timelapse_manager/cameras/http_auth.py:242-294 | any list of challenges printed on one line, with any values and any blanks around each comma and equals sign and after each scheme, is read back as itself; a challenge comes back invalid exactly when it repeats a name or holds a control character |
| RoundTrip.LinesRoundTrip | src/timelapse_manager/cameras/http_auth.py:242-294 | the same over any number of header lines, each with its own blanks |
| RoundTrip.LineIsSeen | src/timelapse_manager/cameras/http_auth.py:249-294 | a line's challenges are seen whatever the other lines hold |
| RoundTrip.ParsedLinesAreClean | src/timelapse_manager/cameras/http_auth.py:218-221 | no header, however malformed, yields a parameter with a control character |
| RoundTrip.CharacterClasses | src/timelapse_manager/cameras/http_auth.py:79-88 | the character classes of the patterns, code by code |
| RoundTrip.LowerFoldsCase | src/timelapse_manager/cameras/http_auth.py:207-213 | schemes and names are the same exactly when they differ only by the case of ASCII letters |
| RoundTrip.BadValueIsInvalid | src/timelapse_manager/cameras/http_auth.py:177-200 | a value neither quoted nor a token, or without its closing quote, makes its challenge invalid |
| RoundTrip.LoneParameter | src/timelapse_manager/cameras/http_auth.py:265-273 | a parameter before any scheme is read as one invalid challenge without a name |
| RoundTrip.ParameterAfterToken | src/timelapse_manager/cameras/http_auth.py:215-217 | a parameter after a token68 makes its challenge invalid |
| AuthState.FromChallenge | src/timelapse_manager/cameras/http_auth.py:317-345 | only a valid Digest challenge is usable, and what it gives can be answered: a nonce, a supported algorithm, and qop for a session one |
| DigestHeaders.PrintedOfferReadsBack | src/timelapse_manager/cameras/http_auth.py:317-345 | every printed Digest offer is read as what it comes to: MD5 where no algorithm is named, nothing for an empty nonce, an algorithm not computed, a qop list without auth or a session algorithm without qop |
| DigestHeaders.DigestOfferReadsBack | src/timelapse_manager/cameras/http_auth.py:317-345 | every Digest offer that can be answered, printed by a camera, is read back as itself, each parameter in its place |
| Downgrades.UnreadableBlocksBasic | src/timelapse_manager/cameras/http_auth.py:253-260 | a line with an unterminated quote keeps the answer from being Basic, whatever else is offered |
| AuthState.BestDigest | src/timelapse_manager/cameras/http_auth.py:571-583 | the strongest usable offer, the first among equals, or none |
| AuthState.CameraAuthState.constructor | src/timelapse_manager/cameras/http_auth.py:507-510 | nothing is remembered at first |
| AuthState.CameraAuthState.PreemptiveCall | src/timelapse_manager/cameras/http_auth.py:522-550 | the header or error and the whole new memory, the count raised even when the header fails |
| AuthState.CameraAuthState.RespondCall | src/timelapse_manager/cameras/http_auth.py:552-621 | the header or error and the whole new memory, the old entry dropped in every case |
| AuthState.CameraAuthState.ForgetCall | src/timelapse_manager/cameras/http_auth.py:623-625 | only that origin's entry goes |
| AuthHistory.MemoryIsHistory | src/timelapse_manager/cameras/http_auth.py:495-625 | over any history on any origins, an origin's entry is the outcome of its last 401 unless forgotten, with one nonce count for each preemptive call with its fingerprint since |
| AuthHistory.PreemptiveIsHistory | src/timelapse_manager/cameras/http_auth.py:522-550 | a preemptive call answers exactly when the last 401 or forget on that origin was a 401 answered for the same fingerprint; with Digest it takes the count after all such calls since, and sends it unless the user name holds a control character |
| NonceCounts.CountsInOrder | src/timelapse_manager/cameras/http_auth.py:539-547 | the Digest headers given out in one negotiation carry the counts 1, 2, 3, ... with no repeat or gap, whatever calls follow on whatever origins, exactly when the answered password holds no NUL |
| NonceCounts.CountsOfFaithfulTag | src/timelapse_manager/cameras/http_auth.py:539-547 | without a NUL, there is exactly one count for the 401 and one for each matching preemptive call |
| NonceCounts.CountIsSkipped | src/timelapse_manager/cameras/http_auth.py:539-547 | for every password with a NUL, a call for another pair with the same fingerprint takes count 2 and sends nothing, so the counts sent are 1 and 3 |
| NonceCounts.OneCountIsSkipped | src/timelapse_manager/cameras/http_auth.py:539-547 | the same for one printed 401 and the password p, NUL, q |
| AuthHistory.BasicNeedsPolicy | src/timelapse_manager/cameras/http_auth.py:451-453 | in any history a Basic header goes out only over https or with the flag set, and only when the last 401 or forget on that origin was a 401 answered for the same fingerprint whose challenges, as read, are valid, one Basic and none Digest, and whose unreadable elements all stand before the first scheme or parameter of their line |
| AuthHistory.OriginIsExact | src/timelapse_manager/cameras/http_auth.py:463-465 | two URLs share an origin exactly when scheme, host up to case and effective port agree |
| AuthHistory.StrangerGetsNothing | src/timelapse_manager/cameras/http_auth.py:535-538 | nothing is sent unasked to an origin whose 401 was never answered, whatever was negotiated with others |
| Downgrades.RespondToBasic | src/timelapse_manager/cameras/http_auth.py:598-612 | a 401 that offers Basic, no Digest and nothing invalid is answered with Basic over https and wherever the flag is set, and refused anywhere else |
| Downgrades.RespondToDigest | src/timelapse_manager/cameras/http_auth.py:571-597 | a 401 that offers Digest gets a header for the strongest usable offer, the call's own verb, target, credentials and cnonce, and count 1, or the error that applies |
| Downgrades.Sha256IsPreferred | src/timelapse_manager/cameras/http_auth.py:96-101 | with a usable SHA-256 offer the offer answered is a SHA-256 one |
| Downgrades.HalfReadMarks | src/timelapse_manager/cameras/http_auth.py:283-292 | a scheme with something unreadable after it leaves an invalid challenge, wherever it stands |
| Downgrades.UnterminatedIsOffered | src/timelapse_manager/cameras/http_auth.py:253-260 | a line with a quote that does not end is one invalid challenge of the scheme it starts with |
| Downgrades.StrayIsSeen | src/timelapse_manager/cameras/http_auth.py:274-278 | an unreadable element leaves an invalid challenge when a scheme or parameter stands before it on its line, and otherwise the line is read as if it were absent |
| Downgrades.LineBlocksBasic | src/timelapse_manager/cameras/http_auth.py:598-607 | a line keeps Basic from being answered, whatever the other lines hold, exactly when a challenge read from it is invalid or Digest |
| Downgrades.UnreadLineAllowsBasic | src/timelapse_manager/cameras/http_auth.py:598-607 | a line of nothing but unreadable elements gives no challenge, and beside Basic the 401 is answered with Basic wherever the policy permits it |
| Downgrades.OneStrayElement | src/timelapse_manager/cameras/http_auth.py:275-278 | every text without comma or quote that starts with neither a token character nor a space is such a line |
| Downgrades.OneDigestIsDropped | src/timelapse_manager/cameras/http_auth.py:598-607 | a Digest offer behind one stray character, beside Basic, is answered with Basic |
| AuthHistory.TagIsFaithful | src/timelapse_manager/cameras/http_auth.py:474-477 | a fingerprint stands for one pair exactly when neither part holds a NUL |
| Downgrades.DigestIsNeverDowngraded | src/timelapse_manager/cameras/http_auth.py:571-597 | with a Digest challenge on any line the answer is never Basic: it is the strongest usable offer, first among equals, exactly when there is one and the user name can be sent |
| DigestHeaders.NonceCountText | src/timelapse_manager/cameras/http_auth.py:396 | the text has eight digits up to the 32-bit limit and determines the count |
| DigestHeaders.DigestTextReadsBack | src/timelapse_manager/cameras/http_auth.py:364-413 | the Digest header reads back as one challenge with exactly the parameters meant |
| DigestHeaders.HeaderLookups | src/timelapse_manager/cameras/http_auth.py:401-412 | each of the ten parameters is found at its own value, or absent where the offer does not ask for it |
| DigestHeaders.ServerAgrees | src/timelapse_manager/cameras/http_auth.py:388-400 | the response is the one a server computes from the header it reads, the request's verb and the password, by A1, A2 and KD of RFC 7616, for the qop, legacy and session forms |
| DigestHeaders.ResponseDecides | src/timelapse_manager/cameras/http_auth.py:392-400 | with an ideal hash, equal responses for one offer and user name mean the same password, under qop the same count and cnonce, and the same verb and target when neither verb holds a colon |
| DigestHeaders.ColonMoves | src/timelapse_manager/cameras/http_auth.py:395 | a colon in a verb can move to the target without changing the response |
| DigestHeaders.DigestTextIsOneLine | src/timelapse_manager/cameras/http_auth.py:381-385 | the header holds no line break and no NUL |
| DigestHeaders.AnswerIsSendable | src/timelapse_manager/cameras/http_auth.py:381-385 | whatever a camera sent, the answering header carries no control character |
| PackageVersions.MatchIsExact | packaging/pkgversion.py:44-52 | for every string and version: matched exactly when the version is valid and the string is it written out, alone or before a final newline |
| PackageVersions.RefusedExactly | packaging/pkgversion.py:74-84 | a string is refused exactly when it is no version of the grammar or one with both post and dev |
| PackageVersions.MappedTo | packaging/pkgversion.py:60-91 | the release, then ~rc, ~dev or +post with its number |
| PackageVersions.OddCharacterIsRefused | packaging/pkgversion.py:80-81 | a string with any other character, such as an alpha or a local version, is refused |
| PackageVersions.OrderIsKept | packaging/pkgversion.py:63-91 | dpkg order of the mapped strings equals PEP 440 order exactly when the component counts are equal, or the padded releases differ, or the shorter sorts first by its suffix |
| PackageVersions.CountsMatter | packaging/pkgversion.py:74-91 | 1.0 and 1.0.0 are equal to PEP 440 and ordered by dpkg |
| RpmVersions.RpmOrderIsKept | packaging/pkgversion.py:2-9 | rpm orders any two mapped versions as dpkg does, so under the same condition |
| UserMerge.Database.ResolveDuplicates | alembic/versions/025_add_user_username_key.py:67-122 | refuses exactly when accounts share a key and one is local, and then changes nothing; else the whole new table and columns |
| UserMerge.Database.MergeGroup | alembic/versions/025_add_user_username_key.py:90-114 | the statements for one group: four columns re-pointed, keeper updated, extras deleted |
| UserMerge.GroupRows | alembic/versions/025_add_user_username_key.py:73-75 | every row is in the group of its key, in id order |
| UserMerge.AnyBlocking | alembic/versions/025_add_user_username_key.py:77-79 | blocking exactly when two accounts share a key and one is local |
| UserMerge.TopRoleIsTop | alembic/versions/025_add_user_username_key.py:93 | the role kept is held in the group, is ranked highest, and is the first so ranked |
| UserMerge.MergedRow | alembic/versions/025_add_user_username_key.py:14-19 | one row is left for each key: the lowest id, the highest role, enabled exactly if all were |
| UserMerge.HighestRoleIsKept | alembic/versions/025_add_user_username_key.py:53 | the role kept is held by an account of the key: admin if there is one, else operator if there is one |
| UserMerge.MergedKeysAreUnique | alembic/versions/025_add_user_username_key.py:145-149 | after a merge no two rows share a key, as the unique index asks, and ids are still in order |
| UserMerge.LoneIsUntouched | alembic/versions/025_add_user_username_key.py:77 | an account alone in its key is unchanged |
| UserMerge.ReferencesResolve | alembic/versions/025_add_user_username_key.py:96-102 | every reference that named a user names one still, with the same key |
| IdSequences.Database.HighestKnownId | alembic/versions/031_entity_autoincrement.py:187-204 | the highest of the table's ids and the recorded ones within a million of them |
| IdSequences.Database.SeedSequence | alembic/versions/031_entity_autoincrement.py:207-219 | the counter is raised to the floor, inserted where missing; no other table changes |
| IdSequences.Database.Upgrade | alembic/versions/031_entity_autoincrement.py:252-253 | each listed table's counter ends at its floor, rows and other tables unchanged |
| IdSequences.IdsAreNeverReused | alembic/versions/028_render_job_autoincrement.py:99-144 | over any later inserts and deletes no new id repeats, is that of an existing row, or is a believable gathered one; the seed is at most a million above the largest id |
| IdSequences.OneGatheredId | alembic/versions/031_entity_autoincrement.py:189-203 | an id raises the seed when it is above the table's largest by a million at the most, and is ignored above that |
| IdSequences.IdsRecordedFor | alembic/versions/031_entity_autoincrement.py:150-184 | the ids gathered: the largest of each column and every one of the metadata and messages |
| IdSequences.RecordedIdsAreSafe | alembic/versions/031_entity_autoincrement.py:16-24 | no believable recorded id is ever handed out, over all inserts and deletes, exactly when each believable id of a column is at most the table's largest id or a believable gathered one |
| IdSequences.BelievableMaximaCover | alembic/versions/031_entity_autoincrement.py:71-93 | that holds when every column's largest id is believable |
| IdSequences.HiddenIdIsReused | alembic/versions/031_entity_autoincrement.py:71-93 | rows 1 to 3 and a column holding 5 and 99999999: the second insert is 5 |
| IdSequences.PlainRowidsAreReused | alembic/versions/028_render_job_autoincrement.py:3-7 | without AUTOINCREMENT, deleting the newest row frees its id for the next |
| JpegSegments.JpegDimensions | src/timelapse_manager/cameras/_imageinfo.py:71-101 | the walk over offsets stays in bounds, ends, and gives the specified size for every byte string |
| JpegSegments.FindExifSegment | src/timelapse_manager/cameras/_imageinfo.py:211-248 | the same for the Exif payload |
| JpegSegments.DimensionsOfFrame | src/timelapse_manager/cameras/_imageinfo.py:71-101 | after any fill bytes, standalone markers, stray bytes and other segments with any payload, the size is that of the first frame header |
| JpegSegments.DimensionsAreAFrames | src/timelapse_manager/cameras/_imageinfo.py:71-101 | a size is read only where such a frame header stands |
| JpegSegments.ExifOfSegment | src/timelapse_manager/cameras/_imageinfo.py:211-248 | the payload is that of the first Exif APP1 segment before the scan |
| JpegSegments.ExifIsASegments | src/timelapse_manager/cameras/_imageinfo.py:241-246 | Exif data is taken only from such a segment, whole or cut by the end of the data |
| JpegSegments.ExifStopsAtScan | src/timelapse_manager/cameras/_imageinfo.py:233-235 | nothing after the start of the scan is taken for Exif data |
| JpegSegments.TemJumps | src/timelapse_manager/cameras/_imageinfo.py:43 | at a TEM both walks resume as far on as the next two bytes say, 65280 bytes or more, or stop |
| JpegSegments.TemHidesFrame | src/timelapse_manager/cameras/_imageinfo.py:71-101 | after any T.81 markers the frame's size is read when no TEM is among them; with fewer than 65280 bytes after the first TEM nothing is read |
| JpegSegments.TemHidesExif | src/timelapse_manager/cameras/_imageinfo.py:211-248 | the same for the Exif payload |
| XmlWalk.WalkNamedDescendants | src/timelapse_manager/cameras/_bounded.py:228-262 | the explicit-stack walk yields exactly the recursive pre-order walk, elements and paths, and notes exactly when the depth cap cut something |
| XmlWalk.VisitsAreExact | src/timelapse_manager/cameras/_bounded.py:234-244 | an element is yielded with a path exactly when the path is the local names on the way down the tree to it, none empty or skipped, within the cap |
| XmlWalk.VisitsAreInOrder | src/timelapse_manager/cameras/_bounded.py:228-262 | the visits are in document order: each stands at a place of the tree with its path as the names on the way, and the places increase |
| XmlWalk.LocalNameIs | src/timelapse_manager/cameras/_bounded.py:218-225 | the local name is what follows the last brace of the tag |
| RecentRequests.Recent.constructor | src/timelapse_manager/logging.py:320-322 | empty at first |
| RecentRequests.Recent.Record | src/timelapse_manager/logging.py:324-334 | the whole new memory after one request |
| RecentRequests.Recent.ForUser | src/timelapse_manager/logging.py:336-338 | the user's own entry of the memory when the user is remembered, empty otherwise |
| RecentRequests.ActivityOrder | src/timelapse_manager/logging.py:331-332 | the users of a history, each once, ordered by their last request |
| RecentRequests.RememberedUsers | src/timelapse_manager/logging.py:296-334 | after any history the users remembered are exactly the 500 most recently active, in that order |
| RecentRequests.RememberedRequests | src/timelapse_manager/logging.py:324-334 | each holds the last 20 requests, repeats collapsed, since the user was last admitted |
| HttpProbe.ProbeHttp | src/timelapse_manager/cameras/probing.py:364-434 | no credentials before an anonymous refusal and the gate's consent, the gate asked at most once, at most one rejected login and none after it; each path settled with credentials exactly when that is allowed; paths in order up to the first image; the verdict is that of the settling replies |
| HttpProbe.ReasonIs | src/timelapse_manager/cameras/probing.py:423-424 | an authentication refusal on any path is the reason reported; without one, the last failure |
| HttpProbe.RefusalIs | src/timelapse_manager/cameras/probing.py:364-434 | the refusal reported is that of the last path that gave one |
| ByteRanges.MatchRangeIsExact | src/timelapse_manager/api/renders.py:74 | the header is matched with two groups exactly when it is those groups of up to 19 digits, written out |
| ByteRanges.RangeIsRight | src/timelapse_manager/api/renders.py:822-852 | an accepted range lies in the file and holds exactly the bytes of the range the header spells; the whole file is served exactly when it spells none, or one that names no byte |
| ByteRanges.RangesServed | src/timelapse_manager/api/renders.py:835-852 | first-last, first- and -suffix with their numbers written out, each with the positions served |
| ByteRanges.IterFileRange | src/timelapse_manager/api/renders.py:866-886 | however short the reads, the chunks are the requested bytes in order, none empty or over 64 KiB, and with full reads all but the last are 64 KiB |
| ByteRanges.ServeRange | src/timelapse_manager/api/renders.py:648-667 | a served range streams exactly its bytes, as many as the declared length |

## Left out

- Solar events, hash functions and username normalisation: they are parameters of the model, or fields of its rows.
- Zones: every result assumes transitions further apart than they move the clock, which is what sorts the wall-time keys that `zoneinfo` searches; `datetime`'s limits at years 1 and 9999 are not modelled.
- Anchors.GraceIsExact: for zones whose jumps are at most 11 hours and a day or more apart; Anchors.GraceInAnyZone has the exact condition without that.
- Wakes.WakeIsExact: for the same zones.
- Wakes.WakeBeforeNoon: for the same zones.
- `parse_anchors`, `next_solar_capture_instant` and the other readers of stored JSON: only easy facts.
- The `active_since` filter on decisions: it only removes decisions before a floor.
- FireLog.RowsOfRun: rows are only inserted in this part; low-disk releases are in the row protocol instead.
- The database around the fire log: each step is one transaction, as the conditional updates make it, and the event texts are not modelled.
- AuthState.FromChallenge: case folding is ASCII only, where Python's also folds letters such as the long s.
- PackageVersions.MatchReadsBack: digits are ASCII only, where Python's `\d` takes every decimal digit.
- Threads and locks: the recent-requests memory and the authentication state are modelled one call at a time, as their lock and the event loop run them.
- The text patterns and queries that find recorded ids in the two id migrations: the ids in each source are a parameter.
- `read_capped_body`, PNG and TIFF reading, image integrity checks: only easy members.
- Network, TLS, HTTP routes, rendering, process wiring and the other migrations: no algorithm to model.
