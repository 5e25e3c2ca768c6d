/** What one camera's authentication state does over any history of calls. */
module AuthHistory {
  import opened Options
  import opened Challenges
  import opened RoundTrip
  import opened AuthState
  import opened Downgrades

  function Run(policy: Policy, h: seq<Call>): Memory {
    if h == [] then map[] else After(Run(policy, h[..|h| - 1]), policy, h[|h| - 1])
  }

  // ---------------------------------------------------------------------------------------
  // The memory as a function of the history
  // ---------------------------------------------------------------------------------------

  // A call that replaces or drops what is known of an origin.
  predicate Touches(call: Call, o: Origin) { !call.Preemptive? && OriginOf(call.url) == o }

  // The last such call, or -1.
  function LastTouch(h: seq<Call>, o: Origin): (k: int)
    ensures -1 <= k < |h| && (k >= 0 ==> Touches(h[k], o))
    ensures forall j :: k < j < |h| ==> !Touches(h[j], o)
  {
    if h == [] then -1
    else if Touches(h[|h| - 1], o) then |h| - 1
    else LastTouch(h[..|h| - 1], o)
  }

  predicate IsBid(call: Call, o: Origin, tag: string) {
    call.Preemptive? && OriginOf(call.url) == o && call.given.Some? && Tag(call.given.value) == tag
  }

  // How many preemptive calls for the same credentials followed call k.
  function Bids(h: seq<Call>, k: int, o: Origin, tag: string): nat {
    if |h| - 1 <= k || h == [] then 0
    else Bids(h[..|h| - 1], k, o, tag) + if IsBid(h[|h| - 1], o, tag) then 1 else 0
  }

  // What is known of an origin: the outcome of its last 401, unless it was forgotten, with one
  // nonce count for each preemptive call since, whether or not it gave out a header.
  function Known(policy: Policy, h: seq<Call>, o: Origin): Option<Remembered> {
    var k := LastTouch(h, o);
    if k < 0 || !h[k].Respond? then None
    else match AnswerOf(policy, h[k])
      case Err(_) => None
      case Ok(r) =>
        if r.scheme.DigestScheme? then Some(r.(nonceCount := 1 + Bids(h, k, o, r.tag))) else Some(r)
  }

  lemma LastTouchKept(h: seq<Call>, o: Origin)
    requires h != [] && !Touches(h[|h| - 1], o)
    ensures LastTouch(h, o) == LastTouch(h[..|h| - 1], o)
  {}

  /** Over any history of calls on any origins, the remembered entry of an origin is the one
      the calls on that origin determine. */
  lemma {:induction false} MemoryIsHistory(policy: Policy, h: seq<Call>, o: Origin)
    ensures Known(policy, h, o) == if o in Run(policy, h) then Some(Run(policy, h)[o]) else None
  {
    hide AnswerOf, Tag;
    if h != [] {
      var n := |h| - 1;
      MemoryIsHistory(policy, h[..n], o);
      if Touches(h[n], o) {
        assert LastTouch(h, o) == n;
        AnswerCount(policy, h[n]);
      } else {
        LastTouchKept(h, o);
        var k := LastTouch(h, o);
        assert k >= 0 ==> h[..n][k] == h[k];
      }
    }
  }

  // A fresh Digest negotiation has used its nonce once.
  lemma AnswerCount(policy: Policy, call: Call)
    ensures call.Respond? && AnswerOf(policy, call).Ok? && AnswerOf(policy, call).value.scheme.DigestScheme?
            ==> AnswerOf(policy, call).value.nonceCount == 1
  {
    hide Usable, Offered, ParsedLines, Strongest;
  }

  lemma AnswerPermitted(policy: Policy, call: Call)
    requires call.Respond? && AnswerOf(policy, call).Ok?
    ensures AnswerOf(policy, call).value.tag == Tag(call.credentials)
    ensures AnswerOf(policy, call).value.scheme.BasicScheme? ==> call.url.scheme == "https" || policy.allowOverHttp
    ensures AnswerOf(policy, call).value.scheme.DigestScheme? ==> ControlFree(call.credentials.username)
  {
    hide Usable, Offered, ParsedLines, Strongest;
  }

  /** A preemptive call answers exactly when the last 401 or forget on the same origin was a 401
      answered for credentials with the same fingerprint. With Digest it takes the count after
      that of the 401 and of every such call since, and gives out a header unless the username
      holds a control character. */
  lemma PreemptiveIsHistory(policy: Policy, h: seq<Call>, verb: string, url: Url, given: Option<Credentials>,
                            cnonce: string)
    ensures var o := OriginOf(url);
            var k := LastTouch(h, o);
            var answered := k >= 0 && h[k].Respond? && AnswerOf(policy, h[k]).Ok?
                            && given.Some? && Tag(h[k].credentials) == Tag(given.value);
            Returned(Run(policy, h), policy, Preemptive(verb, url, given, cnonce)) ==
              if !answered then None
              else match AnswerOf(policy, h[k]).value.scheme
                case BasicScheme => Some(Ok(BasicAuth(given.value)))
                case DigestScheme(d) =>
                  Some(if !ControlFree(given.value.username) then Err(ControlInUsername)
                       else Ok(DigestAuth(d, given.value, verb, url.target, 2 + Bids(h, k, o, Tag(given.value)),
                                          cnonce)))
  {
    hide AnswerOf, Tag, ControlFree, Lower;
    var o := OriginOf(url);
    MemoryIsHistory(policy, h, o);
    var k := LastTouch(h, o);
    if k >= 0 && h[k].Respond? && AnswerOf(policy, h[k]).Ok? {
      AnswerPermitted(policy, h[k]);
      AnswerCount(policy, h[k]);
    }
  }

  function EffectivePort(url: Url): nat {
    if url.port == 0 then if url.scheme == "https" then 443 else 80 else url.port
  }

  // The same scheme, host up to case and port, given or the scheme's own.
  predicate SameOrigin(u: Url, v: Url) {
    u.scheme == v.scheme && Lower(u.host) == Lower(v.host) && EffectivePort(u) == EffectivePort(v)
  }

  lemma OriginIsExact(u: Url, v: Url)
    ensures OriginOf(u) == OriginOf(v) <==> SameOrigin(u, v)
  {}

  /** Nothing is sent unasked to a scheme, host or port whose 401 was never answered, whatever
      was negotiated with others. */
  lemma StrangerGetsNothing(policy: Policy, h: seq<Call>, verb: string, url: Url, given: Option<Credentials>,
                            cnonce: string)
    requires forall call :: call in h && call.Respond? ==> !SameOrigin(call.url, url)
    ensures Returned(Run(policy, h), policy, Preemptive(verb, url, given, cnonce)) == None
  {
    hide AnswerOf, Run, Lower, Tag;
    PreemptiveIsHistory(policy, h, verb, url, given, cnonce);
    var k := LastTouch(h, OriginOf(url));
    if k >= 0 {
      assert h[k] in h;
      OriginIsExact(h[k].url, url);
    }
  }

  /** In any history a Basic header goes out only where the policy allows it, and only when the
      last 401 or forget on that origin, this call included, was a 401 answered for credentials
      with the same fingerprint that offered Basic, no Digest the parser saw and nothing it
      could not read, except text before the first scheme or parameter of a line. */
  lemma {:induction false} BasicNeedsPolicy(policy: Policy, h: seq<Call>, call: Call, credentials: Credentials)
    requires Returned(Run(policy, h), policy, call) == Some(Ok(BasicAuth(credentials)))
    ensures call.url.scheme == "https" || policy.allowOverHttp
    ensures var all := h + [call];
            var k := LastTouch(all, OriginOf(call.url));
            && k >= 0 && all[k].Respond? && Tag(all[k].credentials) == Tag(credentials)
            && OffersOnlyBasic(ParsedLines(all[k].headers))
            && forall line :: line in all[k].headers ==> UnreadIsLeading(line)
  {
    hide Usable, ParsedLines, Strongest, Run, Tag, Lower, UnreadIsLeading, Offered, OffersOnlyBasic;
    var all, o := h + [call], OriginOf(call.url);
    assert all[..|h|] == h;
    var at := call;
    if !call.Respond? {
      PreemptiveIsHistory(policy, h, call.verb, call.url, call.given, call.cnonce);
      LastTouchKept(all, o);
      at := h[LastTouch(h, o)];
    }
    AnswerPermitted(policy, at);
    BasicAnswers(policy, at.headers, at.url, at.credentials);
    ValidMeansLeading(at.headers);
  }

  // ---------------------------------------------------------------------------------------
  // Fingerprints
  // ---------------------------------------------------------------------------------------

  /** A fingerprint stands for one pair of credentials exactly when neither part holds a NUL,
      the character that joins them. */
  lemma TagIsFaithful(c: Credentials)
    ensures (forall b :: Tag(b) == Tag(c) ==> b == c) <==> '\0' !in c.username && '\0' !in c.password
  {
    if '\0' !in c.username && '\0' !in c.password {
      forall b | Tag(b) == Tag(c) ensures b == c { TagSplits(b, c); }
    } else if '\0' in c.username {
      var i :| 0 <= i < |c.username| && c.username[i] == '\0';
      var b := Credentials(c.username[..i], c.username[i + 1..] + ['\0'] + c.password);
      assert c.username == c.username[..i] + ['\0'] + c.username[i + 1..];
      assert Tag(b) == Tag(c) && |b.username| < |c.username|;
    } else {
      var i :| 0 <= i < |c.password| && c.password[i] == '\0';
      var b := Credentials(c.username + ['\0'] + c.password[..i], c.password[i + 1..]);
      assert c.password == c.password[..i] + ['\0'] + c.password[i + 1..];
      assert Tag(b) == Tag(c) && |b.username| > |c.username|;
    }
  }

  lemma TagSplits(b: Credentials, c: Credentials)
    requires Tag(b) == Tag(c) && '\0' !in c.username && '\0' !in c.password
    ensures b == c
  {
    var t, n := Tag(c), |c.username|;
    var m := |b.username|;
    assert t[n] == '\0' && t[m] == '\0';
    assert forall i :: 0 <= i < n ==> t[i] == c.username[i] && t[i] in c.username;
    assert forall i :: n < i < |t| ==> t[i] == c.password[i - n - 1] && t[i] in c.password;
    assert m == n;
    assert b.username == t[..n] == c.username;
    assert b.password == t[n + 1..] == c.password;
  }
}
