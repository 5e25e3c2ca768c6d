/** Scheme choice and reuse for camera requests: which challenge is answered, what is
    remembered per origin, and which nonce count each Digest header carries (RFC 7616).

    Hash functions are a parameter. The credential fingerprint is a keyed hash of the text it
    covers, so it is modelled by that text.
 */
module AuthState {
  import opened Options
  import opened Challenges
  import opened RoundTrip

  // ---------------------------------------------------------------------------------------
  // Usable Digest offers
  // ---------------------------------------------------------------------------------------

  // echo is the camera's `opaque` parameter, sent back unchanged.
  datatype Digest = Digest(realm: string, nonce: string, algorithm: string, echo: Option<string>, qopAuth: bool)

  const Supported := {"MD5", "MD5-SESS", "SHA-256", "SHA-256-SESS"}

  predicate IsSession(algorithm: string) { algorithm in {"MD5-SESS", "SHA-256-SESS"} }

  function Strength(d: Digest): nat { if d.algorithm in {"SHA-256", "SHA-256-SESS"} then 2 else 1 }

  function UpperChar(c: char): char { if 'a' <= c <= 'z' then (c as int - 32) as char else c }

  function Upper(s: string): string { if s == [] then [] else [UpperChar(s[0])] + Upper(s[1..]) }

  // The words of a qop list, which commas and white space separate.
  function Words(s: string, cur: string): seq<string> {
    var done := if cur == [] then [] else [cur];
    if s == [] then done
    else if s[0] == ',' || IsSpace(s[0]) then done + Words(s[1..], [])
    else Words(s[1..], cur + [s[0]])
  }

  predicate OffersAuth(qop: string) {
    exists w :: w in Words(qop, []) && Lower(w) == "auth"
  }

  function Get(params: map<string, string>, key: string): Option<string> {
    if key in params then Some(params[key]) else None
  }

  // What this client can answer: a nonce, an algorithm it computes, and for a session algorithm
  // the cnonce that only qop carries.
  predicate Answerable(d: Digest) {
    d.nonce != [] && d.algorithm in Supported && (IsSession(d.algorithm) ==> d.qopAuth)
  }

  function FromChallenge(c: Challenge): (r: Option<Digest>)
    ensures r.Some? ==> c.scheme == "digest" && c.valid && Answerable(r.value)
  {
    if c.scheme != "digest" || !c.valid then None
    else
      var realm, nonce, qop := Get(c.params, "realm"), Get(c.params, "nonce"), Get(c.params, "qop");
      var named := Get(c.params, "algorithm");
      var algorithm := if named.Some? then Upper(named.value) else "MD5";
      if realm.None? || nonce.None? || nonce.value == [] || algorithm !in Supported then None
      else if qop.Some? && !OffersAuth(qop.value) then None
      else if IsSession(algorithm) && qop.None? then None
      else Some(Digest(realm.value, nonce.value, algorithm, Get(c.params, "opaque"), qop.Some?))
  }

  // The usable Digest offers, in the order of the challenges.
  function Usable(challenges: seq<Challenge>): (r: seq<Digest>)
    ensures forall d :: d in r <==> exists c :: c in challenges && FromChallenge(c) == Some(d)
  {
    if challenges == [] then []
    else
      var n := |challenges| - 1;
      assert forall c :: c in challenges <==> c in challenges[..n] || c == challenges[n];
      var last := FromChallenge(challenges[n]);
      Usable(challenges[..n]) + if last.Some? then [last.value] else []
  }

  // The position of the strongest offer, the first among equals.
  function Strongest(ds: seq<Digest>): (i: nat)
    requires ds != []
    ensures i < |ds|
    ensures forall j :: 0 <= j < |ds| ==> Strength(ds[j]) <= Strength(ds[i])
    ensures forall j :: 0 <= j < i ==> Strength(ds[j]) < Strength(ds[i])
  {
    if |ds| == 1 then 0
    else
      var n := |ds| - 1;
      var i := Strongest(ds[..n]);
      if Strength(ds[n]) > Strength(ds[i]) then n else i
  }

  // ---------------------------------------------------------------------------------------
  // Headers
  // ---------------------------------------------------------------------------------------

  datatype Credentials = Credentials(username: string, password: string)

  // Port 0 stands for none given.
  datatype Url = Url(scheme: string, host: string, port: nat, target: string)

  type Origin = (string, string, nat)

  function OriginOf(url: Url): Origin {
    (url.scheme, Lower(url.host), if url.port != 0 then url.port else if url.scheme == "https" then 443 else 80)
  }

  // A header value before it is rendered.
  datatype Authorization =
    | DigestAuth(digest: Digest, credentials: Credentials, verb: string, uri: string, nonceCount: nat, cnonce: string)
    | BasicAuth(credentials: Credentials)

  function HexDigit(n: nat): char
    requires n < 16
  {
    "0123456789abcdef"[n]
  }

  function Hex(n: nat): string { if n < 16 then [HexDigit(n)] else Hex(n / 16) + [HexDigit(n % 16)] }

  // f"{n:08x}"
  function Hex8(n: nat): string { var h := Hex(n); (if |h| < 8 then seq(8 - |h|, _ => '0') else []) + h }

  // The response digest. hash takes an algorithm and a text.
  function Response(a: Authorization, hash: (string, string) -> string): string
    requires a.DigestAuth?
  {
    var d := a.digest;
    var base := hash(d.algorithm, a.credentials.username + ":" + d.realm + ":" + a.credentials.password);
    var ha1 := if IsSession(d.algorithm) then hash(d.algorithm, base + ":" + d.nonce + ":" + a.cnonce) else base;
    var ha2 := hash(d.algorithm, Upper(a.verb) + ":" + a.uri);
    hash(d.algorithm, if d.qopAuth then ha1 + ":" + d.nonce + ":" + Hex8(a.nonceCount) + ":" + a.cnonce + ":auth:" + ha2
                      else ha1 + ":" + d.nonce + ":" + ha2)
  }

  // The parameters of a Digest Authorization value.
  function AuthParams(a: Authorization, response: string): seq<Param>
    requires a.DigestAuth?
  {
    var d := a.digest;
    [ Param("username", a.credentials.username, true), Param("realm", d.realm, true), Param("nonce", d.nonce, true),
      Param("uri", a.uri, true), Param("algorithm", d.algorithm, false), Param("response", response, true)]
    + (if d.echo.Some? then [Param("opaque", d.echo.value, true)] else [])
    + (if d.qopAuth then [Param("qop", "auth", false), Param("nc", Hex8(a.nonceCount), false),
                          Param("cnonce", a.cnonce, true)]
       else [])
  }

  function DigestText(a: Authorization, hash: (string, string) -> string): string
    requires a.DigestAuth?
  {
    "Digest " + Join(ParamTexts(AuthParams(a, Response(a, hash))), Comma, 0)
  }

  // ---------------------------------------------------------------------------------------
  // One negotiation
  // ---------------------------------------------------------------------------------------

  datatype Policy = Policy(allowOverHttp: bool) {
    predicate Permits(url: Url) { url.scheme == "https" || allowOverHttp }
  }

  datatype AuthError = UnusableDigest | ControlInUsername | UnreadableChallenge | BasicRefused | UnsupportedScheme

  datatype Result<+T> = Ok(value: T) | Err(error: AuthError)

  // The fingerprint's text: the pair joined by a NUL.
  function Tag(c: Credentials): string { c.username + ['\0'] + c.password }

  datatype Scheme = DigestScheme(digest: Digest) | BasicScheme

  datatype Remembered = Remembered(tag: string, scheme: Scheme, nonceCount: nat)

  predicate Offered(challenges: seq<Challenge>, scheme: string) {
    exists c :: c in challenges && c.scheme == scheme
  }

  // What answering a 401 leads to: the entry to remember, or an error.
  function Negotiate(policy: Policy, challenges: seq<Challenge>, url: Url, credentials: Credentials)
    : Result<Remembered>
  {
    if Offered(challenges, "digest") then
      var usable := Usable(challenges);
      if usable == [] then Err(UnusableDigest)
      else if !ControlFree(credentials.username) then Err(ControlInUsername)
      else Ok(Remembered(Tag(credentials), DigestScheme(usable[Strongest(usable)]), 1))
    else if Offered(challenges, "basic") then
      if exists c :: c in challenges && !c.valid then Err(UnreadableChallenge)
      else if !policy.Permits(url) then Err(BasicRefused)
      else Ok(Remembered(Tag(credentials), BasicScheme, 0))
    else Err(UnsupportedScheme)
  }

  function Render(r: Remembered, credentials: Credentials, verb: string, url: Url, cnonce: string): Authorization {
    match r.scheme
    case DigestScheme(d) => DigestAuth(d, credentials, verb, url.target, r.nonceCount, cnonce)
    case BasicScheme => BasicAuth(credentials)
  }

  // A preemptive header from a remembered entry, after its count was raised.
  function Bid(r: Remembered, policy: Policy, credentials: Credentials, verb: string, url: Url, cnonce: string)
    : Option<Result<Authorization>>
  {
    if r.scheme.DigestScheme? && !ControlFree(credentials.username) then Some(Err(ControlInUsername))
    else if r.scheme.BasicScheme? && !policy.Permits(url) then None
    else Some(Ok(Render(r, credentials, verb, url, cnonce)))
  }

  function Raised(r: Remembered): Remembered {
    if r.scheme.DigestScheme? then r.(nonceCount := r.nonceCount + 1) else r
  }

  datatype Call =
    | Respond(headers: seq<string>, verb: string, url: Url, credentials: Credentials, cnonce: string)
    | Preemptive(verb: string, url: Url, given: Option<Credentials>, cnonce: string)
    | Forget(url: Url)

  type Memory = map<Origin, Remembered>

  function AnswerOf(policy: Policy, call: Call): Result<Remembered>
    requires call.Respond?
  {
    Negotiate(policy, ParsedLines(call.headers), call.url, call.credentials)
  }

  predicate Matches(memory: Memory, url: Url, given: Option<Credentials>) {
    given.Some? && OriginOf(url) in memory && memory[OriginOf(url)].tag == Tag(given.value)
  }

  // The memory after one call.
  function After(memory: Memory, policy: Policy, call: Call): Memory {
    var o := OriginOf(call.url);
    match call
    case Respond(_, _, _, _, _) =>
      var r := AnswerOf(policy, call);
      if r.Ok? then memory[o := r.value] else memory - {o}
    case Preemptive(_, url, given, _) =>
      if Matches(memory, url, given) then memory[o := Raised(memory[o])] else memory
    case Forget(_) => memory - {o}
  }

  // What the call returns: a header, an error raised, or nothing.
  function Returned(memory: Memory, policy: Policy, call: Call): Option<Result<Authorization>> {
    match call
    case Respond(_, verb, url, credentials, cnonce) =>
      Some(match AnswerOf(policy, call)
           case Err(e) => Err(e)
           case Ok(r) => Ok(Render(r, credentials, verb, url, cnonce)))
    case Preemptive(verb, url, given, cnonce) =>
      if !Matches(memory, url, given) then None
      else Bid(Raised(memory[OriginOf(url)]), policy, given.value, verb, url, cnonce)
    case Forget(_) => None
  }

  class CameraAuthState {
    const policy: Policy
    var remembered: Memory

    constructor (policy: Policy)
      ensures this.policy == policy && remembered == map[]
    {
      this.policy := policy;
      remembered := map[];
    }

    method PreemptiveCall(verb: string, url: Url, given: Option<Credentials>, cnonce: string)
      returns (r: Option<Result<Authorization>>)
      modifies this
      ensures remembered == After(old(remembered), policy, Preemptive(verb, url, given, cnonce))
      ensures r == Returned(old(remembered), policy, Preemptive(verb, url, given, cnonce))
    {
      if given.None? { return None; }
      var o := OriginOf(url);
      if o !in remembered || remembered[o].tag != Tag(given.value) { return None; }
      var entry := remembered[o];
      if entry.scheme.DigestScheme? {
        entry := entry.(nonceCount := entry.nonceCount + 1);
        remembered := remembered[o := entry];
        if !ControlFree(given.value.username) { return Some(Err(ControlInUsername)); }
        return Some(Ok(DigestAuth(entry.scheme.digest, given.value, verb, url.target, entry.nonceCount, cnonce)));
      }
      assert remembered[o := remembered[o]] == remembered;
      if policy.Permits(url) { return Some(Ok(BasicAuth(given.value))); }
      return None;
    }

    method RespondCall(headers: seq<string>, verb: string, url: Url, credentials: Credentials, cnonce: string)
      returns (r: Result<Authorization>)
      modifies this
      ensures remembered == After(old(remembered), policy, Respond(headers, verb, url, credentials, cnonce))
      ensures Some(r) == Returned(old(remembered), policy, Respond(headers, verb, url, credentials, cnonce))
    {
      hide Usable, Offered, FromChallenge, ParsedLines, Strongest;
      var o := OriginOf(url);
      remembered := remembered - {o};
      var challenges := ParseChallenges(headers);
      if Offered(challenges, "digest") {
        var best := BestDigest(challenges);
        if best.None? { return Err(UnusableDigest); }
        if !ControlFree(credentials.username) { return Err(ControlInUsername); }
        assert old(remembered)[o := Remembered(Tag(credentials), DigestScheme(best.value), 1)]
            == remembered[o := Remembered(Tag(credentials), DigestScheme(best.value), 1)];
        remembered := remembered[o := Remembered(Tag(credentials), DigestScheme(best.value), 1)];
        return Ok(DigestAuth(best.value, credentials, verb, url.target, 1, cnonce));
      }
      if Offered(challenges, "basic") {
        if exists c :: c in challenges && !c.valid { return Err(UnreadableChallenge); }
        if !policy.Permits(url) { return Err(BasicRefused); }
        assert old(remembered)[o := Remembered(Tag(credentials), BasicScheme, 0)]
            == remembered[o := Remembered(Tag(credentials), BasicScheme, 0)];
        remembered := remembered[o := Remembered(Tag(credentials), BasicScheme, 0)];
        return Ok(BasicAuth(credentials));
      }
      return Err(UnsupportedScheme);
    }

    method ForgetCall(url: Url)
      modifies this
      ensures remembered == After(old(remembered), policy, Forget(url))
    {
      remembered := remembered - {OriginOf(url)};
    }
  }

  // The usable offers of a 401 and the maximum over them.
  method BestDigest(challenges: seq<Challenge>) returns (best: Option<Digest>)
    ensures best.None? <==> Usable(challenges) == []
    ensures best.Some? ==> best.value == Usable(challenges)[Strongest(Usable(challenges))]
  {
    hide FromChallenge;
    best := None;
    for i := 0 to |challenges|
      invariant best.None? <==> Usable(challenges[..i]) == []
      invariant best.Some? ==> best.value == Usable(challenges[..i])[Strongest(Usable(challenges[..i]))]
    {
      assert challenges[..i + 1][..i] == challenges[..i];
      var d := FromChallenge(challenges[i]);
      ghost var before := Usable(challenges[..i]);
      if d.Some? {
        assert Usable(challenges[..i + 1]) == before + [d.value];
        assert (before + [d.value])[..|before|] == before;
        if best.None? || Strength(d.value) > Strength(best.value) { best := d; }
      } else {
        assert Usable(challenges[..i + 1]) == before;
      }
    }
    assert challenges[..|challenges|] == challenges;
  }
}
