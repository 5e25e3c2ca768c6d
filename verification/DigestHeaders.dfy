/** What the Digest texts say: the offers cameras print and the Authorization headers that answer
    them (section 3 of RFC 7616).
 */
module DigestHeaders {
  import opened Options
  import opened Challenges
  import opened RoundTrip
  import opened AuthState

  // ---------------------------------------------------------------------------------------
  // Reading a Digest offer
  // ---------------------------------------------------------------------------------------

  // A Digest offer as a camera prints it. The qop list is a list of words.
  datatype Printed = Printed(realm: string, nonce: string, algorithm: Option<string>, echo: Option<string>,
                             qop: Option<seq<string>>)

  // The parameter, if there is one.
  function Maybe(name: string, value: Option<string>, quoted: bool): seq<Param> {
    if value.Some? then [Param(name, value.value, quoted)] else []
  }

  function QopText(qop: Option<seq<string>>): Option<string> {
    if qop.Some? then Some(Join(qop.value, Comma, 0)) else None
  }

  function OfferParams(p: Printed): seq<Param> {
    [Param("realm", p.realm, true), Param("nonce", p.nonce, true)] + Maybe("algorithm", p.algorithm, false)
    + Maybe("opaque", p.echo, true) + Maybe("qop", QopText(p.qop), true)
  }

  // The texts are free of control characters, the algorithm and the words of qop are tokens.
  predicate CleanOffer(p: Printed) {
    && ControlFree(p.realm) && ControlFree(p.nonce) && (p.echo.Some? ==> ControlFree(p.echo.value))
    && (p.algorithm.Some? ==> IsToken(p.algorithm.value))
    && (p.qop.Some? ==> forall w :: w in p.qop.value ==> IsToken(w))
  }

  // The offer this client can answer, printed.
  function PrintedOf(d: Digest): Printed {
    Printed(d.realm, d.nonce, Some(d.algorithm), d.echo, if d.qopAuth then Some(["auth"]) else None)
  }

  predicate CleanDigest(d: Digest) {
    && ControlFree(d.realm) && ControlFree(d.nonce) && (d.echo.Some? ==> ControlFree(d.echo.value))
  }

  // The value of the first parameter of a name.
  function Find(ps: seq<Param>, name: string): Option<string> {
    if ps == [] then None else if ps[0].name == name then Some(ps[0].value) else Find(ps[1..], name)
  }

  lemma {:induction false} FindAt(ps: seq<Param>, name: string) returns (i: nat)
    ensures Find(ps, name).Some? ==> i < |ps| && ps[i].name == name && Find(ps, name) == Some(ps[i].value)
    ensures Find(ps, name).None? ==> forall j :: 0 <= j < |ps| ==> ps[j].name != name
  {
    i := 0;
    if ps != [] && ps[0].name != name {
      var j := FindAt(ps[1..], name);
      i := j + 1;
      assert forall j :: 0 < j < |ps| ==> ps[j] == ps[1..][j - 1];
    }
  }

  lemma {:induction false} FindOfBoth(a: seq<Param>, b: seq<Param>, name: string)
    ensures Find(a + b, name) == if Find(a, name).Some? then Find(a, name) else Find(b, name)
  {
    if a == [] {
      assert a + b == b;
    } else {
      assert (a + b)[0] == a[0] && (a + b)[1..] == a[1..] + b;
      FindOfBoth(a[1..], b, name);
    }
  }

  predicate LowerNames(ps: seq<Param>) { forall i :: 0 <= i < |ps| ==> Lower(ps[i].name) == ps[i].name }

  // Of readable parameters with lower-case names, the reader finds each under its name.
  lemma GetIsFind(ps: seq<Param>, name: string)
    requires Readable(ps) && LowerNames(ps)
    ensures Get(ParamMap(ps), name) == Find(ps, name)
  {
    hide Lower, ControlFree, ParamMap, Readable;
    var i := FindAt(ps, name);
    if Find(ps, name).Some? { ParamMapAt(ps, i); } else { ParamMapKeys(ps, name); }
  }

  const OfferNames := ["realm", "nonce", "algorithm", "opaque", "qop"]

  lemma OfferNamesDiffer()
    ensures forall i, j :: 0 <= i < j < 5 ==> OfferNames[i] != OfferNames[j]
  {
    assert "realm"[0] != "nonce"[0];
  }

  lemma OfferParamIs(p: Printed, q: Param)
    requires CleanOffer(p) && q in OfferParams(p)
    ensures ParamPrintable(q) && Lower(q.name) == q.name && ControlFree(q.value)
  {
    hide Lower, ControlFree, IsToken, Join;
    PlainName(q.name);
    if p.algorithm.Some? { TokenIsClean(p.algorithm.value); }
    if p.qop.Some? {
      forall w | w in p.qop.value ensures ControlFree(w) { TokenIsClean(w); }
      JoinedIsClean(p.qop.value, 0);
    }
  }

  lemma OfferNamesInOrder(p: Printed, i: nat, j: nat)
    requires i < j < |OfferParams(p)|
    ensures OfferParams(p)[i].name != OfferParams(p)[j].name
  {
    hide Join;
    OfferNamesDiffer();
  }

  lemma OfferParamsReadable(p: Printed)
    requires CleanOffer(p)
    ensures (forall q :: q in OfferParams(p) ==> ParamPrintable(q)) && Readable(OfferParams(p))
    ensures LowerNames(OfferParams(p))
  {
    hide Lower, ControlFree, IsToken, OfferParams, ParamPrintable, CleanOffer;
    var ps := OfferParams(p);
    forall q | q in ps ensures ParamPrintable(q) && Lower(q.name) == q.name && ControlFree(q.value) {
      OfferParamIs(p, q);
    }
    forall i, j | 0 <= i < j < |ps| ensures Lower(ps[i].name) != Lower(ps[j].name) {
      assert ps[i] in ps && ps[j] in ps;
      OfferNamesInOrder(p, i, j);
    }
    assert forall i :: 0 <= i < |ps| ==> ps[i] in ps;
  }

  lemma MaybeFind(name: string, value: Option<string>, quoted: bool, other: string)
    ensures Find(Maybe(name, value, quoted), other) == if other == name then value else None
  {
    if value.Some? { assert Maybe(name, value, quoted)[1..] == []; }
  }

  lemma TwoFind(p: Param, q: Param, name: string)
    ensures Find([p, q], name) ==
            if name == p.name then Some(p.value) else if name == q.name then Some(q.value) else None
  {
    assert [p, q][1..] == [q] && [q][1..] == [];
    assert Find([q], name) == if q.name == name then Some(q.value) else Find([q][1..], name);
  }

  // The parameters of the offer, as the reader finds them.
  lemma OfferFinds(p: Printed, name: string)
    ensures Find(OfferParams(p), name) ==
            if name == "realm" then Some(p.realm) else if name == "nonce" then Some(p.nonce)
            else if name == "algorithm" then p.algorithm else if name == "opaque" then p.echo
            else if name == "qop" then QopText(p.qop) else None
  {
    hide Find, Maybe, QopText;
    var two := [Param("realm", p.realm, true), Param("nonce", p.nonce, true)];
    var three := two + Maybe("algorithm", p.algorithm, false);
    var four := three + Maybe("opaque", p.echo, true);
    assert OfferParams(p) == four + Maybe("qop", QopText(p.qop), true);
    TwoFind(two[0], two[1], name);
    MaybeFind("algorithm", p.algorithm, false, name);
    MaybeFind("opaque", p.echo, true, name);
    MaybeFind("qop", QopText(p.qop), true, name);
    FindOfBoth(two, Maybe("algorithm", p.algorithm, false), name);
    FindOfBoth(three, Maybe("opaque", p.echo, true), name);
    FindOfBoth(four, Maybe("qop", QopText(p.qop), true), name);
    OfferNamesDiffer();
    assert OfferNames[0] == "realm" && OfferNames[1] == "nonce" && OfferNames[2] == "algorithm";
    assert OfferNames[3] == "opaque" && OfferNames[4] == "qop";
  }

  lemma {:induction false} UpperOf(s: string)
    requires forall i :: 0 <= i < |s| ==> !('a' <= s[i] <= 'z')
    ensures Upper(s) == s
  {
    if s != [] { UpperOf(s[1..]); }
  }

  lemma UpperSupported(algorithm: string)
    requires algorithm in Supported
    ensures Upper(algorithm) == algorithm
  {
    hide Upper;
    UpperOf(algorithm);
  }

  // A word without separators is read whole, and its end is where the next separator is.
  lemma {:induction false} WordRead(w: string, cur: string, rest: string)
    requires forall i :: 0 <= i < |w| ==> w[i] != ',' && !IsSpace(w[i])
    ensures Words(w + rest, cur) == Words(rest, cur + w)
  {
    if w == [] {
      assert w + rest == rest && cur + w == cur;
    } else {
      assert (w + rest)[0] == w[0] && (w + rest)[1..] == w[1..] + rest;
      WordRead(w[1..], cur + [w[0]], rest);
      assert cur + [w[0]] + w[1..] == cur + w;
    }
  }

  lemma OneWord(w: string)
    requires IsToken(w)
    ensures Words(w, []) == [w]
  {
    assert forall k :: 0 <= k < |w| ==> w[k] in w;
    WordRead(w, [], []);
    assert w + [] == w && [] + w == w;
  }

  lemma FirstWord(w: string, tail: string)
    requires IsToken(w)
    ensures Words(w + (", " + tail), []) == [w] + Words(tail, [])
  {
    assert forall k :: 0 <= k < |w| ==> w[k] in w;
    var after := ", " + tail;
    WordRead(w, [], after);
    assert [] + w == w && after[0] == ',' && after[1..] == " " + tail;
    var blank := " " + tail;
    assert blank[0] == ' ' && blank[1..] == tail;
    assert Words(blank, []) == [] + Words(tail, []) == Words(tail, []);
  }

  // The words of a list printed with commas are the words of the list.
  lemma {:induction false} WordsOfList(ws: seq<string>, i: nat)
    requires forall w :: w in ws ==> IsToken(w)
    ensures Words(Join(ws, Comma, i), []) == ws
    decreases |ws|
  {
    hide IsToken, Words;
    if ws == [] {
      NoWords();
    } else if |ws| == 1 {
      OneWord(ws[0]);
      assert ws == [ws[0]];
    } else {
      var tail := Join(ws[1..], Comma, i + 1);
      WordsOfList(ws[1..], i + 1);
      assert Join(ws, Comma, i) == ws[0] + (", " + tail);
      FirstWord(ws[0], tail);
    }
  }

  lemma NoWords()
    ensures Words([], []) == []
  {}

  lemma OneOfferReadsBack(ps: seq<Param>)
    requires (forall p :: p in ps ==> ParamPrintable(p)) && Readable(ps)
    ensures ParsedLine(PrintLine([Params("Digest", ps)], Comma)) == [Challenge("digest", ParamMap(ps), None, true)]
  {
    hide ParamMap, ParsedLine, PrintLine, Readable, ParamPrintable;
    var o := Params("Digest", ps);
    CommaSeparates();
    LineRoundTrip([o], Comma);
    assert Lower("Digest") == "digest";
    assert Meanings([o]) == [Meaning(o)];
  }

  // What a printed offer comes to: MD5 where no algorithm is named, in any case if one is; nothing
  // for an empty nonce, an algorithm not computed here, a qop list without auth, or a session
  // algorithm without qop.
  function OfferOf(p: Printed): Option<Digest> {
    var algorithm := if p.algorithm.Some? then Upper(p.algorithm.value) else "MD5";
    if p.nonce == [] || algorithm !in {"MD5", "MD5-SESS", "SHA-256", "SHA-256-SESS"} then None
    else if p.qop.Some? && !exists w :: w in p.qop.value && Lower(w) == "auth" then None
    else if algorithm in {"MD5-SESS", "SHA-256-SESS"} && p.qop.None? then None
    else Some(Digest(p.realm, p.nonce, algorithm, p.echo, p.qop.Some?))
  }

  /** Every printed Digest offer is read as what it comes to, each parameter in its place. */
  lemma PrintedOfferReadsBack(p: Printed)
    requires CleanOffer(p)
    ensures var challenges := ParsedLine(PrintLine([Params("Digest", OfferParams(p))], Comma));
            |challenges| == 1 && FromChallenge(challenges[0]) == OfferOf(p)
  {
    hide OfferParams, ParamMap, ParsedLine, PrintLine, Readable, Upper, Lower, Find, Words, Join, ControlFree;
    var ps := OfferParams(p);
    OfferParamsReadable(p);
    OneOfferReadsBack(ps);
    OfferGets(p, "realm");
    OfferGets(p, "nonce");
    OfferGets(p, "algorithm");
    OfferGets(p, "opaque");
    OfferGets(p, "qop");
    if p.qop.Some? { WordsOfList(p.qop.value, 0); }
  }

  lemma OfferGets(p: Printed, name: string)
    requires CleanOffer(p) && name in OfferNames
    ensures Get(ParamMap(OfferParams(p)), name) ==
            if name == "realm" then Some(p.realm) else if name == "nonce" then Some(p.nonce)
            else if name == "algorithm" then p.algorithm else if name == "opaque" then p.echo
            else QopText(p.qop)
  {
    hide OfferParams, ParamMap, Readable, Find, CleanOffer, LowerNames, QopText;
    OfferParamsReadable(p);
    GetIsFind(OfferParams(p), name);
    OfferFinds(p, name);
  }

  /** Every Digest offer this client can answer, printed by a camera, is read back as the offer
      it is. */
  lemma DigestOfferReadsBack(d: Digest)
    requires Answerable(d) && CleanDigest(d)
    ensures var challenges := ParsedLine(PrintLine([Params("Digest", OfferParams(PrintedOf(d)))], Comma));
            |challenges| == 1 && FromChallenge(challenges[0]) == Some(d)
  {
    hide OfferParams, ParsedLine, PrintLine, FromChallenge, Upper, ControlFree;
    PlainAlgorithm(d.algorithm);
    UpperSupported(d.algorithm);
    LowerOf("auth");
    PrintedOfferReadsBack(PrintedOf(d));
  }

  // ---------------------------------------------------------------------------------------
  // Reading a Digest header back
  // ---------------------------------------------------------------------------------------

  function HexValue(s: string): nat {
    if s == [] then 0
    else
      var c := s[|s| - 1];
      16 * HexValue(s[..|s| - 1]) +
      if '0' <= c <= '9' then c as int - '0' as int else if 'a' <= c <= 'f' then c as int - 'a' as int + 10 else 0
  }

  lemma HexValueMore(s: string, n: nat)
    requires n < 16
    ensures HexValue(s + [HexDigit(n)]) == 16 * HexValue(s) + n && IsAlnum(HexDigit(n))
  {
    assert (s + [HexDigit(n)])[..|s|] == s;
  }

  lemma {:induction false} HexOf(n: nat)
    ensures Hex(n) != [] && HexValue(Hex(n)) == n && forall c :: c in Hex(n) ==> IsAlnum(c)
  {
    hide HexDigit, HexValue;
    if n >= 16 {
      HexOf(n / 16);
      HexValueMore(Hex(n / 16), n % 16);
    } else {
      HexValueMore([], n);
      assert [] + [HexDigit(n)] == Hex(n) && HexValue([]) == 0 by { NoHex(); }
    }
  }

  lemma NoHex()
    ensures HexValue([]) == 0
  {}

  lemma {:induction false} HexPadded(k: nat, s: string)
    ensures HexValue(seq(k, _ => '0') + s) == HexValue(s)
    decreases |s|, k
  {
    var pad := seq(k, _ => '0');
    if s != [] {
      assert (pad + s)[..k + |s| - 1] == pad + s[..|s| - 1];
      HexPadded(k, s[..|s| - 1]);
    } else if k > 0 {
      assert pad + s == pad && pad[..k - 1] == seq(k - 1, _ => '0') + [];
      HexPadded(k - 1, []);
    } else {
      assert pad + s == s;
    }
  }

  function Pow16(k: nat): nat { if k == 0 then 1 else 16 * Pow16(k - 1) }

  lemma {:induction false} HexLength(n: nat, k: nat)
    requires k > 0 && n < Pow16(k)
    ensures |Hex(n)| <= k
  {
    if n >= 16 {
      assert k > 1 && n / 16 < Pow16(k - 1);
      HexLength(n / 16, k - 1);
    }
  }

  /** The text of a nonce count has eight digits, up to the 32-bit limit, and determines it. */
  lemma NonceCountText(n: nat)
    ensures HexValue(Hex8(n)) == n && IsToken(Hex8(n))
    ensures |Hex8(n)| >= 8 && (n < 0x1_0000_0000 ==> |Hex8(n)| == 8)
  {
    hide Hex, HexValue, Pow16;
    HexOf(n);
    var h := Hex(n);
    assert Pow16(8) == 0x1_0000_0000 by { EightDigits(); }
    if n < Pow16(8) { HexLength(n, 8); }
    if |h| < 8 { HexPadded(8 - |h|, h); } else { assert [] + h == h; }
  }

  lemma EightDigits()
    ensures Pow16(8) == 0x1_0000_0000
  {
    assert Pow16(2) == 256;
    assert Pow16(4) == 65536;
    assert Pow16(6) == 16777216;
  }

  /** In upper case no ASCII letter is left in lower case, and only the case has changed. */
  lemma {:induction false} UpperFoldsCase(s: string)
    ensures |Upper(s)| == |s|
    ensures forall i :: 0 <= i < |s| ==> SameButCase(s[i], Upper(s)[i]) && !(0x61 <= Upper(s)[i] as int <= 0x7A)
  {
    if s != [] { UpperFoldsCase(s[1..]); }
  }

  lemma LowerOf(s: string)
    requires forall i :: 0 <= i < |s| ==> 'a' <= s[i] <= 'z'
    ensures Lower(s) == s && (s != [] ==> IsToken(s))
  {
    assert forall i :: 0 <= i < |s| ==> Lower(s)[i] == s[i];
  }

  // Every text a header carries is free of control characters.
  predicate Sendable(a: Authorization) {
    && a.DigestAuth? && a.digest.algorithm in Supported
    && ControlFree(a.credentials.username) && ControlFree(a.digest.realm) && ControlFree(a.digest.nonce)
    && (a.digest.echo.Some? ==> ControlFree(a.digest.echo.value)) && ControlFree(a.uri) && ControlFree(a.cnonce)
  }

  const AuthNames := {"username", "realm", "nonce", "uri", "algorithm", "response", "opaque", "qop", "nc", "cnonce"}

  lemma PlainName(name: string)
    requires name in AuthNames
    ensures Lower(name) == name && IsToken(name)
  {
    hide Lower, IsToken;
    LowerOf(name);
  }

  lemma PlainAlgorithm(algorithm: string)
    requires algorithm in Supported
    ensures IsToken(algorithm)
  {}

  lemma TokenIsClean(s: string)
    requires IsToken(s)
    ensures ControlFree(s)
  {}

  lemma AuthParamIs(a: Authorization, response: string, p: Param)
    requires Sendable(a) && ControlFree(response) && p in AuthParams(a, response)
    ensures p.name in AuthNames && p.left == "" && p.right == ""
    ensures if p.quoted then ControlFree(p.value) else p.value in {a.digest.algorithm, "auth", Hex8(a.nonceCount)}
  {
    hide ControlFree, Hex8;
  }

  lemma ParamPrintableOf(a: Authorization, response: string, p: Param)
    requires Sendable(a) && ControlFree(response) && p in AuthParams(a, response)
    ensures ParamPrintable(p) && Lower(p.name) == p.name && ControlFree(p.value)
  {
    hide Lower, ControlFree, Hex8, IsToken, AuthParams;
    AuthParamIs(a, response, p);
    PlainName(p.name);
    PlainAlgorithm(a.digest.algorithm);
    LowerOf("auth");
    NonceCountText(a.nonceCount);
    if !p.quoted { TokenIsClean(p.value); }
  }

  lemma ParamsPrintable(a: Authorization, response: string)
    requires Sendable(a) && ControlFree(response)
    ensures forall p :: p in AuthParams(a, response) ==> ParamPrintable(p)
    ensures Readable(AuthParams(a, response))
  {
    var ps := AuthParams(a, response);
    hide Lower, ControlFree, Hex8, IsToken, AuthParams, Sendable;
    forall p | p in ps ensures ParamPrintable(p) && ControlFree(p.value) && Lower(p.name) == p.name {
      ParamPrintableOf(a, response, p);
    }
    forall i, j | 0 <= i < j < |ps| ensures Lower(ps[i].name) != Lower(ps[j].name) {
      assert ps[i] in ps && ps[j] in ps;
      NamesDiffer(a, response, i, j);
    }
    assert forall i :: 0 <= i < |ps| ==> ps[i] in ps;
  }

  lemma NamesDiffer(a: Authorization, response: string, i: nat, j: nat)
    requires a.DigestAuth? && i < j < |AuthParams(a, response)|
    ensures AuthParams(a, response)[i].name != AuthParams(a, response)[j].name
  {
    hide Hex8;
    assert "username"[0] != "response"[0] && "realm"[0] != "nonce"[0] && "uri"[0] != "qop"[0]
           && "opaque"[0] != "cnonce"[0];
  }

  lemma {:induction false} JoinFirst(prefix: string, texts: seq<string>, seps: Separators)
    requires texts != []
    ensures prefix + Join(texts, seps, 0) == Join([prefix + texts[0]] + texts[1..], seps, 0)
  {
    var joined := [prefix + texts[0]] + texts[1..];
    if |texts| == 1 {
      assert joined == [prefix + texts[0]];
    } else {
      assert joined[1..] == texts[1..];
      var tail := Join(texts[1..], seps, 1);
      assert Join(texts, seps, 0) == texts[0] + seps(0) + tail;
      assert Join(joined, seps, 0) == prefix + texts[0] + seps(0) + tail;
      hide Join;
      assert prefix + (texts[0] + seps(0) + tail) == prefix + texts[0] + seps(0) + tail;
    }
  }

  lemma DigestLine(a: Authorization, hash: (string, string) -> string)
    requires a.DigestAuth?
    ensures DigestText(a, hash) == PrintLine([Params("Digest", AuthParams(a, Response(a, hash)))], Comma)
  {
    hide ParamText, Response, Hex8;
    var ps := AuthParams(a, Response(a, hash));
    var o := Params("Digest", ps);
    JoinFirst("Digest ", ParamTexts(ps), Comma);
    assert ParamTexts(ps)[1..] == ParamTexts(ps[1..]);
    assert "Digest" + " " + ParamText(ps[0]) == "Digest " + ParamText(ps[0]);
    assert LineTexts([o]) == OfferTexts(o) + [] == OfferTexts(o);
  }

  /** A Digest header, read with the same grammar, is one challenge with exactly the parameters
      that were meant: no username, realm or target can add or change one. */
  lemma DigestTextReadsBack(a: Authorization, hash: (string, string) -> string)
    requires Sendable(a) && ControlFree(Response(a, hash))
    ensures ParsedLine(DigestText(a, hash)) ==
            [Challenge("digest", ParamMap(AuthParams(a, Response(a, hash))), None, true)]
  {
    hide AuthParams, ParsedLine, ParamMap, Response, ControlFree, PrintLine, DigestText, Readable;
    ParamsPrintable(a, Response(a, hash));
    DigestLine(a, hash);
    OneOfferReadsBack(AuthParams(a, Response(a, hash)));
  }

  lemma {:induction false} EscapeIsClean(v: string)
    requires ControlFree(v)
    ensures ControlFree(Escape(v))
  {
    if v != [] {
      assert v[0] in v;
      EscapeIsClean(v[1..]);
    }
  }

  lemma {:induction false} TextsAreClean(ps: seq<Param>)
    requires forall p :: p in ps ==> ParamPrintable(p) && ControlFree(p.value)
    ensures forall t :: t in ParamTexts(ps) ==> ControlFree(t)
  {
    if ps != [] {
      var p := ps[0];
      EscapeIsClean(p.value);
      TokenIsClean(p.name);
      assert ControlFree(ParamText(p));
      TextsAreClean(ps[1..]);
    }
  }

  lemma {:induction false} JoinedIsClean(texts: seq<string>, i: nat)
    requires forall t :: t in texts ==> ControlFree(t)
    ensures ControlFree(Join(texts, Comma, i))
    decreases |texts|
  {
    if texts != [] {
      assert texts[0] in texts;
      assert forall t :: t in texts[1..] ==> t in texts;
      JoinedIsClean(texts[1..], i + 1);
      var tail := Join(texts[1..], Comma, i + 1);
      assert |texts| > 1 ==> Join(texts, Comma, i) == texts[0] + ", " + tail;
    }
  }

  /** The header is one line: no user name, realm, target or cnonce that may be sent puts a line
      break or a NUL into it. */
  lemma DigestTextIsOneLine(a: Authorization, hash: (string, string) -> string)
    requires Sendable(a) && ControlFree(Response(a, hash))
    ensures '\r' !in DigestText(a, hash) && '\n' !in DigestText(a, hash) && '\0' !in DigestText(a, hash)
  {
    var ps := AuthParams(a, Response(a, hash));
    assert DigestText(a, hash) == "Digest " + Join(ParamTexts(ps), Comma, 0);
    hide AuthParams, Response, ParamText, ParamPrintable, DigestText, Join;
    forall p | p in ps ensures ParamPrintable(p) && ControlFree(p.value) {
      ParamPrintableOf(a, Response(a, hash), p);
    }
    TextsAreClean(ps);
    JoinedIsClean(ParamTexts(ps), 0);
    hide ParamTexts, Sendable;
    CleanIsOneLine("Digest ", Join(ParamTexts(ps), Comma, 0));
  }

  lemma CleanIsOneLine(head: string, s: string)
    requires head == "Digest " && ControlFree(s)
    ensures '\r' !in head + s && '\n' !in head + s && '\0' !in head + s
  {
    assert IsControl('\r') && IsControl('\n') && IsControl('\0');
  }

  lemma DigestIsClean(c: Challenge, d: Digest)
    requires CleanParams(c) && FromChallenge(c) == Some(d)
    ensures d.algorithm in Supported && ControlFree(d.realm) && ControlFree(d.nonce)
    ensures d.echo.Some? ==> ControlFree(d.echo.value)
  {
    hide ControlFree, OffersAuth, Upper;
  }

  /** Whatever a camera sent in its 401, the header answering it carries no control character
      from the challenge and no username with one. */
  lemma AnswerIsSendable(policy: Policy, call: Call)
    requires call.Respond? && AnswerOf(policy, call).Ok? && AnswerOf(policy, call).value.scheme.DigestScheme?
    requires ControlFree(call.url.target) && ControlFree(call.cnonce)
    ensures Sendable(Render(AnswerOf(policy, call).value, call.credentials, call.verb, call.url, call.cnonce))
  {
    hide ParsedLines, ControlFree, FromChallenge, Usable, Strongest;
    var challenges := ParsedLines(call.headers);
    ParsedLinesAreClean(call.headers);
    var d := AnswerOf(policy, call).value.scheme.digest;
    assert d in Usable(challenges);
    var c :| c in challenges && FromChallenge(c) == Some(d);
    DigestIsClean(c, d);
  }

  // ---------------------------------------------------------------------------------------
  // What a server makes of a Digest header
  // ---------------------------------------------------------------------------------------

  lemma AuthGet(a: Authorization, response: string, i: nat)
    requires Sendable(a) && ControlFree(response) && i < |AuthParams(a, response)|
    ensures var p := AuthParams(a, response)[i]; Get(ParamMap(AuthParams(a, response)), p.name) == Some(p.value)
  {
    var ps := AuthParams(a, response);
    hide AuthParams, Sendable, Lower, ControlFree, ParamMap, Readable, ParamPrintable;
    ParamsPrintable(a, response);
    ParamPrintableOf(a, response, ps[i]);
    ParamMapAt(ps, i);
  }

  // The parameters a header always has, as the reader finds them.
  lemma AlwaysFound(a: Authorization, response: string)
    requires Sendable(a) && ControlFree(response)
    ensures var m, d := ParamMap(AuthParams(a, response)), a.digest;
            && Get(m, "username") == Some(a.credentials.username) && Get(m, "realm") == Some(d.realm)
            && Get(m, "nonce") == Some(d.nonce) && Get(m, "uri") == Some(a.uri)
            && Get(m, "algorithm") == Some(d.algorithm) && Get(m, "response") == Some(response)
  {
    hide Get, ParamMap, Hex8, ControlFree;
    var ps := AuthParams(a, response);
    forall i | 0 <= i < 6 ensures Get(ParamMap(ps), ps[i].name) == Some(ps[i].value) { AuthGet(a, response, i); }
    assert ps[0].name == "username" && ps[1].name == "realm" && ps[2].name == "nonce" && ps[3].name == "uri";
    assert ps[4].name == "algorithm" && ps[5].name == "response";
  }

  // The names a header has, in order.
  function AuthNameList(d: Digest): seq<string> {
    ["username", "realm", "nonce", "uri", "algorithm", "response"] + (if d.echo.Some? then ["opaque"] else [])
    + (if d.qopAuth then ["qop", "nc", "cnonce"] else [])
  }

  lemma NamesAreListed(a: Authorization, response: string)
    requires a.DigestAuth?
    ensures var ps, names := AuthParams(a, response), AuthNameList(a.digest);
            |ps| == |names| && forall i :: 0 <= i < |ps| ==> ps[i].name == names[i]
  {
    hide Hex8;
  }

  lemma NotListed(d: Digest, i: nat)
    requires i < |AuthNameList(d)|
    ensures d.echo.None? ==> AuthNameList(d)[i] != "opaque"
    ensures !d.qopAuth ==> AuthNameList(d)[i] !in {"qop", "nc", "cnonce"}
  {
    assert "opaque"[0] != "cnonce"[0] && "uri"[0] != "qop"[0];
  }

  lemma AuthGetNone(a: Authorization, response: string, name: string)
    requires Sendable(a) && ControlFree(response)
    requires (name == "opaque" && a.digest.echo.None?) || (name in {"qop", "nc", "cnonce"} && !a.digest.qopAuth)
    ensures Get(ParamMap(AuthParams(a, response)), name) == None
  {
    var ps := AuthParams(a, response);
    NamesAreListed(a, response);
    hide AuthParams, Sendable, Lower, ControlFree, ParamMap, Readable, ParamPrintable, AuthNameList;
    forall i | 0 <= i < |ps| ensures Lower(ps[i].name) != name {
      assert ps[i] in ps;
      NotListed(a.digest, i);
      ParamPrintableOf(a, response, ps[i]);
    }
    ParamMapKeys(ps, name);
  }

  // The parameters that depend on the offer.
  lemma OpaqueFound(a: Authorization, response: string)
    requires Sendable(a) && ControlFree(response)
    ensures Get(ParamMap(AuthParams(a, response)), "opaque") == a.digest.echo
  {
    hide Get, ParamMap, Hex8, ControlFree;
    if a.digest.echo.Some? {
      assert AuthParams(a, response)[6] == Param("opaque", a.digest.echo.value, true);
      AuthGet(a, response, 6);
    } else {
      AuthGetNone(a, response, "opaque");
    }
  }

  lemma QopFound(a: Authorization, response: string)
    requires Sendable(a) && ControlFree(response)
    ensures var m, d := ParamMap(AuthParams(a, response)), a.digest;
            && Get(m, "qop") == (if d.qopAuth then Some("auth") else None)
            && Get(m, "nc") == (if d.qopAuth then Some(Hex8(a.nonceCount)) else None)
            && Get(m, "cnonce") == (if d.qopAuth then Some(a.cnonce) else None)
  {
    hide Get, ParamMap, Hex8, ControlFree;
    if a.digest.qopAuth {
      var ps := AuthParams(a, response);
      var n := |ps|;
      assert ps[n - 3] == Param("qop", "auth", false) && ps[n - 2] == Param("nc", Hex8(a.nonceCount), false);
      assert ps[n - 1] == Param("cnonce", a.cnonce, true);
      AuthGet(a, response, n - 3);
      AuthGet(a, response, n - 2);
      AuthGet(a, response, n - 1);
    } else {
      AuthGetNone(a, response, "qop");
      AuthGetNone(a, response, "nc");
      AuthGetNone(a, response, "cnonce");
    }
  }

  /** The header's parameters as a reader finds them: each of the ten at its own value, or absent
      where the offer does not ask for it. */
  lemma HeaderLookups(a: Authorization, response: string)
    requires Sendable(a) && ControlFree(response)
    ensures var m, d := ParamMap(AuthParams(a, response)), a.digest;
            && Get(m, "username") == Some(a.credentials.username) && Get(m, "realm") == Some(d.realm)
            && Get(m, "nonce") == Some(d.nonce) && Get(m, "uri") == Some(a.uri)
            && Get(m, "algorithm") == Some(d.algorithm) && Get(m, "response") == Some(response)
            && Get(m, "opaque") == d.echo
            && Get(m, "qop") == (if d.qopAuth then Some("auth") else None)
            && Get(m, "nc") == (if d.qopAuth then Some(Hex8(a.nonceCount)) else None)
            && Get(m, "cnonce") == (if d.qopAuth then Some(a.cnonce) else None)
  {
    var ps := AuthParams(a, response);
    hide Get, ParamMap, Hex8, Sendable, ControlFree, AuthParams;
    AlwaysFound(a, response);
    OpaqueFound(a, response);
    QopFound(a, response);
  }

  predicate EndsWith(s: string, end: string) { |end| <= |s| && s[|s| - |end|..] == end }

  // Section 3.4.2 of RFC 7616: A1, in its session form for the algorithms that say so.
  function A1(username: string, realm: string, password: string, algorithm: string, nonce: string, cnonce: string,
              hash: (string, string) -> string): string
  {
    var plain := username + ":" + realm + ":" + password;
    if EndsWith(algorithm, "-SESS") then hash(algorithm, plain) + ":" + nonce + ":" + cnonce else plain
  }

  // Section 3.4.3: A2 for qop auth and for none.
  function A2(verb: string, uri: string): string { verb + ":" + uri }

  // Section 3.3: KD(secret, data).
  function Kd(algorithm: string, secret: string, data: string, hash: (string, string) -> string): string {
    hash(algorithm, secret + ":" + data)
  }

  // What a server has to read in a header.
  predicate Complete(m: map<string, string>) {
    && "username" in m && "realm" in m && "nonce" in m && "uri" in m && "algorithm" in m && "response" in m
    && ("qop" in m ==> "nc" in m && "cnonce" in m)
    && (EndsWith(m["algorithm"], "-SESS") ==> "cnonce" in m)
  }

  // Section 3.4.1: the response a server computes for a header it read, the request's verb and
  // the password it knows.
  function ServerResponse(m: map<string, string>, verb: string, password: string, hash: (string, string) -> string)
    : string
    requires Complete(m)
  {
    var algorithm, nonce := m["algorithm"], m["nonce"];
    var cnonce := if "cnonce" in m then m["cnonce"] else "";
    var secret := hash(algorithm, A1(m["username"], m["realm"], password, algorithm, nonce, cnonce, hash));
    var target := hash(algorithm, A2(verb, m["uri"]));
    if "qop" in m
    then Kd(algorithm, secret, nonce + ":" + m["nc"] + ":" + cnonce + ":" + m["qop"] + ":" + target, hash)
    else Kd(algorithm, secret, nonce + ":" + target, hash)
  }

  lemma SessionNames(algorithm: string)
    requires algorithm in Supported
    ensures IsSession(algorithm) <==> EndsWith(algorithm, "-SESS")
  {
    assert "MD5-SESS"[3..] == "-SESS" && "SHA-256-SESS"[7..] == "-SESS";
    assert "SHA-256"[2..] == "A-256" && "A-256"[0] != "-SESS"[0];
  }

  // The texts hashed, put together in two ways.
  lemma SameTexts(secret: string, nonce: string, nc: string, cnonce: string, target: string)
    ensures secret + ":" + (nonce + ":" + nc + ":" + cnonce + ":" + "auth" + ":" + target)
            == secret + ":" + nonce + ":" + nc + ":" + cnonce + ":auth:" + target
    ensures secret + ":" + (nonce + ":" + target) == secret + ":" + nonce + ":" + target
  {
    var end := ":" + cnonce + ":auth:" + target;
    assert ":" + cnonce + ":" + "auth" + ":" + target == end;
  }

  lemma ResponseIsServers(a: Authorization, m: map<string, string>, hash: (string, string) -> string)
    requires a.DigestAuth? && Answerable(a.digest) && Complete(m)
    requires m["username"] == a.credentials.username && m["realm"] == a.digest.realm && m["nonce"] == a.digest.nonce
    requires m["uri"] == a.uri && m["algorithm"] == a.digest.algorithm
    requires "qop" in m <==> a.digest.qopAuth
    requires a.digest.qopAuth ==> m["qop"] == "auth" && m["nc"] == Hex8(a.nonceCount) && m["cnonce"] == a.cnonce
    ensures Response(a, hash) == ServerResponse(m, Upper(a.verb), a.credentials.password, hash)
  {
    hide Hex8, Upper, EndsWith, IsSession;
    var d := a.digest;
    SessionNames(d.algorithm);
    var cnonce := if "cnonce" in m then m["cnonce"] else "";
    var secret := hash(d.algorithm, A1(m["username"], m["realm"], a.credentials.password, d.algorithm, d.nonce, cnonce,
                                       hash));
    var target := hash(d.algorithm, A2(Upper(a.verb), a.uri));
    SameTexts(secret, d.nonce, Hex8(a.nonceCount), a.cnonce, target);
  }

  /** A server that reads a header this client sends finds each parameter in its place, and the
      response is the one it computes itself, with the password the client was given. */
  lemma ServerAgrees(a: Authorization, hash: (string, string) -> string)
    requires Sendable(a) && Answerable(a.digest) && ControlFree(Response(a, hash))
    ensures var challenges := ParsedLine(DigestText(a, hash));
            && |challenges| == 1 && challenges[0].valid && challenges[0].scheme == "digest"
            && var m := challenges[0].params;
               && Complete(m) && m["username"] == a.credentials.username && m["uri"] == a.uri
               && m["response"] == ServerResponse(m, Upper(a.verb), a.credentials.password, hash)
  {
    var response := Response(a, hash);
    var m := ParamMap(AuthParams(a, response));
    assert IsSession(a.digest.algorithm) ==> a.digest.qopAuth;
    hide ParamMap, AuthParams, ParsedLine, DigestText, Response, ServerResponse, ControlFree, Hex8, Upper, EndsWith;
    hide IsSession;
    DigestTextReadsBack(a, hash);
    HeaderLookups(a, response);
    SessionNames(a.digest.algorithm);
    ResponseIsServers(a, m, hash);
  }

  // ---------------------------------------------------------------------------------------
  // What a response depends on
  // ---------------------------------------------------------------------------------------

  // No two texts have one hash, and no hash holds a colon.
  ghost predicate Ideal(hash: (string, string) -> string) {
    && (forall h, s, t :: hash(h, s) == hash(h, t) ==> s == t)
    && (forall h, s :: ':' !in hash(h, s))
  }

  // Cut at the first colon: what stands before it holds none.
  lemma FirstColon(x: string, y: string, s: string, t: string)
    requires ':' !in x && ':' !in y && x + ":" + s == y + ":" + t
    ensures x == y && s == t
  {
    var u := x + ":" + s;
    assert u[|x|] == ':' && u[|y|] == ':';
    assert forall i :: 0 <= i < |x| ==> u[i] == x[i] && x[i] in x;
    assert forall i :: 0 <= i < |y| ==> u[i] == y[i] && y[i] in y;
    assert |x| == |y|;
    assert x == u[..|x|] && s == u[|x| + 1..];
  }

  // Cut at the last: what stands after it holds none.
  lemma LastColon(x: string, y: string, s: string, t: string)
    requires ':' !in s && ':' !in t && x + ":" + s == y + ":" + t
    ensures x == y && s == t
  {
    var u := x + ":" + s;
    assert u[|x|] == ':' && u[|y|] == ':';
    assert forall i :: |x| < i < |u| ==> u[i] == s[i - |x| - 1] && s[i - |x| - 1] in s;
    assert forall i :: |y| < i < |u| ==> u[i] == t[i - |y| - 1] && t[i - |y| - 1] in t;
    assert |x| == |y|;
    assert x == u[..|x|] && s == u[|x| + 1..];
  }

  lemma SameStart(x: string, s: string, t: string)
    requires x + s == x + t
    ensures s == t
  {
    assert (x + s)[|x|..] == s && (x + t)[|x|..] == t;
  }

  lemma HexHasNoColon(n: nat)
    ensures ':' !in Hex8(n)
  {
    NonceCountText(n);
  }

  lemma {:induction false} UpperHasNoColon(s: string)
    requires ':' !in s
    ensures ':' !in Upper(s)
  {
    if s != [] {
      assert s[0] in s;
      UpperHasNoColon(s[1..]);
    }
  }

  function Secret(a: Authorization, hash: (string, string) -> string): string
    requires a.DigestAuth?
  {
    var plain := hash(a.digest.algorithm, a.credentials.username + ":" + a.digest.realm + ":" + a.credentials.password);
    if IsSession(a.digest.algorithm) then hash(a.digest.algorithm, plain + ":" + a.digest.nonce + ":" + a.cnonce)
    else plain
  }

  lemma SecretDecides(a: Authorization, b: Authorization, hash: (string, string) -> string)
    requires Ideal(hash) && a.DigestAuth? && b.DigestAuth? && a.digest == b.digest
    requires a.credentials.username == b.credentials.username && Secret(a, hash) == Secret(b, hash)
    ensures a.credentials.password == b.credentials.password
  {
    var d, start := a.digest, a.credentials.username + ":" + a.digest.realm + ":";
    var x, y := hash(d.algorithm, start + a.credentials.password), hash(d.algorithm, start + b.credentials.password);
    if IsSession(d.algorithm) {
      assert x + ":" + d.nonce + ":" + a.cnonce == x + ":" + (d.nonce + ":" + a.cnonce);
      assert y + ":" + d.nonce + ":" + b.cnonce == y + ":" + (d.nonce + ":" + b.cnonce);
      FirstColon(x, y, d.nonce + ":" + a.cnonce, d.nonce + ":" + b.cnonce);
    }
    SameStart(start, a.credentials.password, b.credentials.password);
  }

  lemma TargetDecides(a: Authorization, b: Authorization, hash: (string, string) -> string)
    requires Ideal(hash) && a.DigestAuth? && b.DigestAuth? && ':' !in a.verb && ':' !in b.verb
    requires hash(a.digest.algorithm, A2(Upper(a.verb), a.uri)) == hash(a.digest.algorithm, A2(Upper(b.verb), b.uri))
    ensures Upper(a.verb) == Upper(b.verb) && a.uri == b.uri
  {
    hide Upper;
    UpperHasNoColon(a.verb);
    UpperHasNoColon(b.verb);
    FirstColon(Upper(a.verb), Upper(b.verb), a.uri, b.uri);
  }

  // The parts of the text hashed last can be told apart.
  lemma QopParts(x: string, x': string, nonce: string, nc: string, nc': string, cnonce: string, cnonce': string,
                 t: string, t': string)
    requires ':' !in x && ':' !in x' && ':' !in nc && ':' !in nc' && ':' !in t && ':' !in t'
    requires x + ":" + nonce + ":" + nc + ":" + cnonce + ":auth:" + t
             == x' + ":" + nonce + ":" + nc' + ":" + cnonce' + ":auth:" + t'
    ensures x == x' && nc == nc' && cnonce == cnonce' && t == t'
  {
    var end, end' := cnonce + ":auth:" + t, cnonce' + ":auth:" + t';
    var mid, mid' := nc + ":" + end, nc' + ":" + end';
    assert x + ":" + nonce + ":" + nc + ":" + cnonce + ":auth:" + t == x + ":" + (nonce + ":" + mid);
    assert x' + ":" + nonce + ":" + nc' + ":" + cnonce' + ":auth:" + t' == x' + ":" + (nonce + ":" + mid');
    FirstColon(x, x', nonce + ":" + mid, nonce + ":" + mid');
    SameStart(nonce + ":", mid, mid');
    FirstColon(nc, nc', end, end');
    EndParts(cnonce, cnonce', t, t');
  }

  lemma EndParts(cnonce: string, cnonce': string, t: string, t': string)
    requires ':' !in t && ':' !in t' && cnonce + ":auth:" + t == cnonce' + ":auth:" + t'
    ensures cnonce == cnonce' && t == t'
  {
    var x, y := cnonce + ":auth", cnonce' + ":auth";
    assert cnonce + ":auth:" + t == x + ":" + t && cnonce' + ":auth:" + t' == y + ":" + t';
    LastColon(x, y, t, t');
    assert cnonce == x[..|x| - 5] && cnonce' == y[..|y| - 5];
  }

  lemma LegacyParts(x: string, x': string, nonce: string, t: string, t': string)
    requires ':' !in x && ':' !in x' && x + ":" + nonce + ":" + t == x' + ":" + nonce + ":" + t'
    ensures x == x' && t == t'
  {
    assert x + ":" + nonce + ":" + t == x + ":" + (nonce + ":" + t);
    assert x' + ":" + nonce + ":" + t' == x' + ":" + (nonce + ":" + t');
    FirstColon(x, x', nonce + ":" + t, nonce + ":" + t');
    SameStart(nonce + ":", t, t');
  }

  // The text hashed last.
  function LastText(a: Authorization, hash: (string, string) -> string): string
    requires a.DigestAuth?
  {
    var t := hash(a.digest.algorithm, A2(Upper(a.verb), a.uri));
    if a.digest.qopAuth
    then Secret(a, hash) + ":" + a.digest.nonce + ":" + Hex8(a.nonceCount) + ":" + a.cnonce + ":auth:" + t
    else Secret(a, hash) + ":" + a.digest.nonce + ":" + t
  }

  lemma ResponseHashes(a: Authorization, hash: (string, string) -> string)
    requires a.DigestAuth?
    ensures Response(a, hash) == hash(a.digest.algorithm, LastText(a, hash))
  {
    hide Hex8, Upper, IsSession;
  }

  lemma SecretHasNoColon(a: Authorization, hash: (string, string) -> string)
    requires Ideal(hash) && a.DigestAuth?
    ensures ':' !in Secret(a, hash)
  {
    hide IsSession;
  }

  /** With an ideal hash, two headers for one offer and user name have the same response only if
      they were made for the same password and, under qop, the same count and cnonce, and for the
      same verb and target when neither verb holds a colon. */
  lemma ResponseDecides(a: Authorization, b: Authorization, hash: (string, string) -> string)
    requires Ideal(hash) && a.DigestAuth? && b.DigestAuth? && a.digest == b.digest
    requires a.credentials.username == b.credentials.username && Response(a, hash) == Response(b, hash)
    ensures a.credentials == b.credentials && A2(Upper(a.verb), a.uri) == A2(Upper(b.verb), b.uri)
    ensures ':' !in a.verb && ':' !in b.verb ==> Upper(a.verb) == Upper(b.verb) && a.uri == b.uri
    ensures a.digest.qopAuth ==> a.nonceCount == b.nonceCount && a.cnonce == b.cnonce
  {
    hide Hex8, Upper, Secret, Response;
    ResponseHashes(a, hash);
    ResponseHashes(b, hash);
    SecretHasNoColon(a, hash);
    SecretHasNoColon(b, hash);
    var d := a.digest;
    assert LastText(a, hash) == LastText(b, hash);
    var x, x' := Secret(a, hash), Secret(b, hash);
    var t, t' := hash(d.algorithm, A2(Upper(a.verb), a.uri)), hash(d.algorithm, A2(Upper(b.verb), b.uri));
    var nc, nc' := Hex8(a.nonceCount), Hex8(b.nonceCount);
    HexHasNoColon(a.nonceCount);
    HexHasNoColon(b.nonceCount);
    if d.qopAuth {
      QopParts(x, x', d.nonce, nc, nc', a.cnonce, b.cnonce, t, t');
      NonceCountText(a.nonceCount);
      NonceCountText(b.nonceCount);
    } else {
      LegacyParts(x, x', d.nonce, t, t');
    }
    SecretDecides(a, b, hash);
    if ':' !in a.verb && ':' !in b.verb { TargetDecides(a, b, hash); }
  }

  // A colon in a verb can move to the target without changing the response.
  lemma ColonMoves(a: Authorization, hash: (string, string) -> string)
    requires a.DigestAuth?
    ensures var b, c := a.(verb := "A:B", uri := "C"), a.(verb := "A", uri := "B:C");
            Response(b, hash) == Response(c, hash)
  {
    hide Hex8;
    assert "A:B"[1..] == ":B" && ":B"[1..] == "B" && "A"[1..] == [] && "B"[1..] == [];
    assert Upper("A:B") == "A:B" && Upper("A") == "A";
    assert "A:B" + ":" + "C" == "A" + ":" + "B:C";
  }

  // There are ideal functions: one that spells colons and semicolons in two characters.
  function Spell(s: string): string {
    if s == [] then []
    else (if s[0] == ':' then ";c" else if s[0] == ';' then ";s" else [s[0]]) + Spell(s[1..])
  }

  lemma {:induction false} SpellIsIdeal(s: string, t: string)
    ensures ':' !in Spell(s) && (Spell(s) == Spell(t) ==> s == t)
  {
    if s != [] {
      var x := Spell(s);
      if t == [] {
        SpellIsIdeal(s[1..], []);
      } else {
        SpellIsIdeal(s[1..], t[1..]);
        var y := Spell(t);
        assert s[0] in {':', ';'} ==> x[0] == ';' && x[2..] == Spell(s[1..]);
        assert s[0] !in {':', ';'} ==> x[0] == s[0] && x[1..] == Spell(s[1..]);
        assert t[0] in {':', ';'} ==> y[0] == ';' && y[2..] == Spell(t[1..]);
        assert t[0] !in {':', ';'} ==> y[0] == t[0] && y[1..] == Spell(t[1..]);
        if x == y {
          assert x[0] == y[0];
          if x[0] == ';' { assert x[1] == y[1]; }
        }
      }
    }
  }

  lemma SomeHashIsIdeal()
    ensures exists hash: (string, string) -> string :: Ideal(hash)
  {
    var hash: (string, string) -> string := (h: string, s: string) => Spell(s);
    forall h, s, t ensures (hash(h, s) == hash(h, t) ==> s == t) && ':' !in hash(h, s) { SpellIsIdeal(s, t); }
    assert Ideal(hash);
  }
}
