/** The nonce counts that the headers of one Digest negotiation carry (RFC 7616, section 3.4). */
module NonceCounts {
  import opened Options
  import opened Challenges
  import opened RoundTrip
  import opened AuthState
  import opened DigestHeaders
  import opened AuthHistory

  // The nonce count of the header call j gives out on an origin, if it gives one.
  function CountOf(policy: Policy, h: seq<Call>, j: nat, o: Origin): seq<nat>
    requires j < |h|
  {
    if OriginOf(h[j].url) != o then []
    else match Returned(Run(policy, h[..j]), policy, h[j])
      case Some(Ok(DigestAuth(_, _, _, _, n, _))) => [n]
      case _ => []
  }

  // The nonce counts of the headers given out on an origin from call k on.
  function Counts(policy: Policy, h: seq<Call>, k: nat, o: Origin): seq<nat> {
    if |h| <= k then []
    else Counts(policy, h[..|h| - 1], k, o) + CountOf(policy, h, |h| - 1, o)
  }

  // 1, 2, 3, ... with no repeat and no gap.
  predicate InOrder(counts: seq<nat>) {
    forall i :: 0 <= i < |counts| ==> counts[i] == i + 1
  }

  // A history that ends with a 401 answered by Digest.
  predicate EndsWithDigest(policy: Policy, h: seq<Call>) {
    && h != [] && h[|h| - 1].Respond? && AnswerOf(policy, h[|h| - 1]).Ok?
    && AnswerOf(policy, h[|h| - 1]).value.scheme.DigestScheme?
  }

  // Calls that leave the negotiation in force.
  predicate Quiet(t: seq<Call>, o: Origin) {
    forall call :: call in t ==> !Touches(call, o)
  }

  lemma LastTouchIs(h: seq<Call>, t: seq<Call>, o: Origin)
    requires h != [] && Touches(h[|h| - 1], o) && Quiet(t, o)
    ensures LastTouch(h + t, o) == |h| - 1
  {
    var k := LastTouch(h + t, o);
    assert (h + t)[|h| - 1] == h[|h| - 1];
  }

  // The 401 itself is answered with count 1.
  lemma FirstCount(policy: Policy, h: seq<Call>)
    requires EndsWithDigest(policy, h)
    ensures Counts(policy, h, |h| - 1, OriginOf(h[|h| - 1].url)) == [1]
  {
    hide AnswerOf, Run, Lower;
    AnswerCount(policy, h[|h| - 1]);
  }

  // What one more call adds to the counts.
  lemma OneMoreCall(policy: Policy, h: seq<Call>, t: seq<Call>, call: Call)
    requires EndsWithDigest(policy, h) && Quiet(t + [call], OriginOf(h[|h| - 1].url))
    ensures var k, o, tag := |h| - 1, OriginOf(h[|h| - 1].url), Tag(h[|h| - 1].credentials);
            && Bids(h + t + [call], k, o, tag) == Bids(h + t, k, o, tag) + (if IsBid(call, o, tag) then 1 else 0)
            && Counts(policy, h + t + [call], k, o) == Counts(policy, h + t, k, o) +
                 if IsBid(call, o, tag) && ControlFree(call.given.value.username)
                 then [2 + Bids(h + t, k, o, tag)] else []
  {
    hide AnswerOf, Run, Lower, Tag, ControlFree;
    var k, o := |h| - 1, OriginOf(h[|h| - 1].url);
    var all := h + t + [call];
    assert all[..|h + t|] == h + t && all[|h + t|] == call;
    forall c | c in t ensures !Touches(c, o) { assert c in t + [call]; }
    assert call in t + [call];
    if OriginOf(call.url) == o {
      LastTouchIs(h, t, o);
      assert (h + t)[k] == h[k];
      PreemptiveIsHistory(policy, h + t, call.verb, call.url, call.given, call.cnonce);
      assert call == Preemptive(call.verb, call.url, call.given, call.cnonce);
    }
  }

  /** When neither part of the answered credentials holds a NUL, the headers given out carry the
      counts 1, 2, 3, ... : one for the 401 and one for each preemptive call since. */
  lemma {:induction false} CountsOfFaithfulTag(policy: Policy, h: seq<Call>, t: seq<Call>)
    requires EndsWithDigest(policy, h) && '\0' !in h[|h| - 1].credentials.password
    requires Quiet(t, OriginOf(h[|h| - 1].url))
    ensures var k, o, tag := |h| - 1, OriginOf(h[|h| - 1].url), Tag(h[|h| - 1].credentials);
            var counts := Counts(policy, h + t, k, o);
            |counts| == 1 + Bids(h + t, k, o, tag) && InOrder(counts)
  {
    hide AnswerOf, Run, Lower, Tag, Counts, CountOf;
    var k, o, c := |h| - 1, OriginOf(h[|h| - 1].url), h[|h| - 1].credentials;
    if t == [] {
      assert h + t == h;
      FirstCount(policy, h);
    } else {
      var front, call := t[..|t| - 1], t[|t| - 1];
      assert t == front + [call] && h + t == h + front + [call];
      CountsOfFaithfulTag(policy, h, front);
      OneMoreCall(policy, h, front, call);
      AnswerPermitted(policy, h[k]);
      NoNulInUsername(c);
      if IsBid(call, o, Tag(c)) { TagSplits(call.given.value, c); }
    }
  }

  lemma NoNulInUsername(c: Credentials)
    requires ControlFree(c.username)
    ensures '\0' !in c.username
  {}

  // A pair with the same fingerprint, split at a NUL of the password.
  function Resplit(c: Credentials, i: nat): Credentials
    requires i < |c.password|
  {
    Credentials(c.username + ['\0'] + c.password[..i], c.password[i + 1..])
  }

  lemma ResplitIs(c: Credentials, i: nat)
    requires i < |c.password| && c.password[i] == '\0'
    ensures Tag(Resplit(c, i)) == Tag(c) && !ControlFree(Resplit(c, i).username)
  {
    assert c.password == c.password[..i] + ['\0'] + c.password[i + 1..];
    var u := Resplit(c, i).username;
    assert u[|c.username|] == '\0' && '\0' in u && IsControl('\0');
  }

  // A preemptive call for the other pair, then one for the answered pair.
  function Skipping(call: Call, i: nat): seq<Call>
    requires call.Respond? && i < |call.credentials.password|
  {
    [ Preemptive("GET", call.url, Some(Resplit(call.credentials, i)), ""),
      Preemptive("GET", call.url, Some(call.credentials), "")]
  }

  /** When the password holds a NUL, a preemptive call for another pair with the same fingerprint
      takes count 2 and gives out no header, so the counts given out are 1 and 3. */
  lemma CountIsSkipped(policy: Policy, h: seq<Call>, i: nat)
    requires EndsWithDigest(policy, h)
    requires i < |h[|h| - 1].credentials.password| && h[|h| - 1].credentials.password[i] == '\0'
    ensures var call := h[|h| - 1];
            var t, o := Skipping(call, i), OriginOf(call.url);
            Quiet(t, o) && Counts(policy, h + t, |h| - 1, o) == [1, 3]
  {
    hide AnswerOf, Run, Lower, Tag, Counts, CountOf, Resplit, ControlFree;
    var k, call := |h| - 1, h[|h| - 1];
    var o, tag, t := OriginOf(call.url), Tag(call.credentials), Skipping(call, i);
    ResplitIs(call.credentials, i);
    AnswerPermitted(policy, call);
    FirstCount(policy, h);
    assert h + [] == h && [] + [t[0]] == [t[0]] && h + [t[0]] + [t[1]] == h + t && [t[0]] + [t[1]] == t;
    assert Bids(h, k, o, tag) == 0;
    OneMoreCall(policy, h, [], t[0]);
    OneMoreCall(policy, h, [t[0]], t[1]);
  }

  /** The headers of one Digest negotiation carry the counts 1, 2, 3, ... in order, whatever
      calls follow on whatever origins, exactly when the answered password holds no NUL. */
  lemma CountsInOrder(policy: Policy, h: seq<Call>)
    requires EndsWithDigest(policy, h)
    ensures (forall t :: Quiet(t, OriginOf(h[|h| - 1].url)) ==>
               InOrder(Counts(policy, h + t, |h| - 1, OriginOf(h[|h| - 1].url))))
            <==> '\0' !in h[|h| - 1].credentials.password
  {
    var call := h[|h| - 1];
    hide AnswerOf, Run, Lower, Counts;
    var o := OriginOf(call.url);
    if '\0' in call.credentials.password {
      var i :| 0 <= i < |call.credentials.password| && call.credentials.password[i] == '\0';
      CountIsSkipped(policy, h, i);
      var t := Skipping(call, i);
      assert Counts(policy, h + t, |h| - 1, o)[1] == 3;
    } else {
      forall t | Quiet(t, o) ensures InOrder(Counts(policy, h + t, |h| - 1, o)) {
        CountsOfFaithfulTag(policy, h, t);
      }
    }
  }

  // Such a 401 exists: any printed offer this client can answer, for any username it can send.
  lemma OfferIsAnswered(policy: Policy, d: Digest, verb: string, url: Url, credentials: Credentials, cnonce: string)
    requires Answerable(d) && CleanDigest(d) && ControlFree(credentials.username)
    ensures var line := PrintLine([Params("Digest", OfferParams(PrintedOf(d)))], Comma);
            EndsWithDigest(policy, [Respond([line], verb, url, credentials, cnonce)])
  {
    hide OfferParams, PrintLine, ParsedLine, ParsedLines, FromChallenge, Usable, ControlFree;
    var line := PrintLine([Params("Digest", OfferParams(PrintedOf(d)))], Comma);
    DigestOfferReadsBack(d);
    var c := ParsedLine(line)[0];
    LineIsSeen([line], 0, c);
    assert d in Usable(ParsedLines([line]));
    UsableIsDigest(c, d);
  }

  lemma UsableIsDigest(c: Challenge, d: Digest)
    requires FromChallenge(c) == Some(d)
    ensures c.scheme == "digest"
  {}

  // For one pair: the user "u" with the password "p", NUL, "q".
  lemma OneCountIsSkipped(policy: Policy, url: Url)
    ensures var d := Digest("r", "n", "MD5", None, true);
            var line := PrintLine([Params("Digest", OfferParams(PrintedOf(d)))], Comma);
            var c := Credentials("u", "p\0q");
            var h := [Respond([line], "GET", url, c, "")];
            var t := [ Preemptive("GET", url, Some(Credentials("u\0p", "q")), ""),
                       Preemptive("GET", url, Some(c), "")];
            Counts(policy, h + t, 0, OriginOf(url)) == [1, 3]
  {
    var d := Digest("r", "n", "MD5", None, true);
    var line := PrintLine([Params("Digest", OfferParams(PrintedOf(d)))], Comma);
    var c := Credentials("u", "p\0q");
    var h := [Respond([line], "GET", url, c, "")];
    assert Resplit(c, 1) == Credentials("u\0p", "q");
    hide OfferParams, PrintLine, Counts, OriginOf, Resplit, EndsWithDigest;
    OfferIsAnswered(policy, d, "GET", url, c, "");
    CountIsSkipped(policy, h, 1);
  }
}
