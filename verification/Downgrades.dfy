/** Which 401s are answered with Basic, the scheme that carries the password, and what a line the
    parser cannot read in full does to that.
 */
module Downgrades {
  import opened Options
  import opened Challenges
  import opened RoundTrip
  import opened AuthState

  // ---------------------------------------------------------------------------------------
  // Digest is offered
  // ---------------------------------------------------------------------------------------

  // Offer i is the strongest, and stronger than every offer before it.
  predicate IsBest(ds: seq<Digest>, i: nat)
    requires i < |ds|
  {
    && (forall j :: 0 <= j < |ds| ==> Strength(ds[j]) <= Strength(ds[i]))
    && (forall j :: 0 <= j < i ==> Strength(ds[j]) < Strength(ds[i]))
  }

  /** A Digest challenge printed on any header line is seen whatever the other lines hold: the
      401 is then never answered with Basic, and if it is answered, it is for the strongest
      usable offer, the first among equals. */
  lemma DigestIsNeverDowngraded(policy: Policy, headers: seq<string>, k: nat, offers: seq<Offer>,
                                seps: Separators, o: Offer, url: Url, credentials: Credentials)
    requires k < |headers| && headers[k] == PrintLine(offers, seps) && AllSeparators(seps)
    requires AllPrintable(offers) && o in offers && Lower(o.scheme) == "digest"
    ensures var r, usable := Negotiate(policy, ParsedLines(headers), url, credentials), Usable(ParsedLines(headers));
            && (r.Ok? <==> usable != [] && ControlFree(credentials.username))
            && (r.Ok? ==>
                  exists i :: 0 <= i < |usable| && r.value.scheme == DigestScheme(usable[i]) && IsBest(usable, i))
  {
    hide ParsedLines, Usable, PrintLine, ParsedLine, Printable, Lower;
    LineRoundTrip(offers, seps);
    MeaningIsListed(offers, o);
    LineIsSeen(headers, k, Meaning(o));
    assert Meaning(o).scheme == "digest" && Offered(ParsedLines(headers), "digest");
    var usable := Usable(ParsedLines(headers));
    if usable != [] { assert IsBest(usable, Strongest(usable)); }
  }

  /** A line whose quoting never ends blocks Basic, whatever else is offered: it may have been a
      Digest offer. */
  lemma UnreadableBlocksBasic(policy: Policy, headers: seq<string>, k: nat, url: Url, credentials: Credentials)
    requires k < |headers| && Split(headers[k], [], [], false, false) == None
    ensures var r := Negotiate(policy, ParsedLines(headers), url, credentials);
            r.Ok? ==> r.value.scheme.DigestScheme?
  {
    hide ParsedLines, Usable, Split, Strongest;
    LineIsSeen(headers, k, Unreadable(headers[k]));
  }

  // ---------------------------------------------------------------------------------------
  // Basic is answered
  // ---------------------------------------------------------------------------------------

  predicate AnswersBasic(policy: Policy, headers: seq<string>, url: Url, credentials: Credentials) {
    var r := Negotiate(policy, ParsedLines(headers), url, credentials);
    r.Ok? && r.value.scheme.BasicScheme?
  }

  // Basic is among the challenges read, Digest is not, and none is marked invalid.
  predicate OffersOnlyBasic(challenges: seq<Challenge>) {
    && (exists c :: c in challenges && c.scheme == "basic")
    && (forall c :: c in challenges ==> c.scheme != "digest" && c.valid)
  }

  lemma BasicAnswers(policy: Policy, headers: seq<string>, url: Url, credentials: Credentials)
    ensures AnswersBasic(policy, headers, url, credentials) <==>
            (url.scheme == "https" || policy.allowOverHttp) && OffersOnlyBasic(ParsedLines(headers))
  {
    hide ParsedLines, Usable, Strongest;
  }

  /** A 401 that offers Basic, no Digest and nothing invalid is answered with Basic on every https
      URL, and on every URL when the flag is set. Anywhere else it is refused. */
  lemma RespondToBasic(memory: Memory, policy: Policy, call: Call)
    requires call.Respond? && OffersOnlyBasic(ParsedLines(call.headers))
    ensures Returned(memory, policy, call) ==
            Some(if call.url.scheme == "https" || policy.allowOverHttp then Ok(BasicAuth(call.credentials))
                 else Err(BasicRefused))
  {
    hide ParsedLines, Usable, Strongest;
  }

  /** A 401 answered with Digest gets a header for the strongest usable offer, the given
      credentials, the call's own verb, target and cnonce, and count 1. */
  lemma RespondToDigest(memory: Memory, policy: Policy, call: Call)
    requires call.Respond? && exists c :: c in ParsedLines(call.headers) && c.scheme == "digest"
    ensures var usable := Usable(ParsedLines(call.headers));
            Returned(memory, policy, call) ==
              Some(if usable == [] then Err(UnusableDigest)
                   else if !ControlFree(call.credentials.username) then Err(ControlInUsername)
                   else Ok(DigestAuth(usable[Strongest(usable)], call.credentials, call.verb, call.url.target, 1,
                                      call.cnonce)))
  {
    hide ParsedLines, Usable, Strongest;
  }

  predicate IsSha256(d: Digest) { d.algorithm == "SHA-256" || d.algorithm == "SHA-256-SESS" }

  /** With a SHA-256 offer among the usable ones, the offer answered is a SHA-256 one. */
  lemma Sha256IsPreferred(policy: Policy, challenges: seq<Challenge>, url: Url, credentials: Credentials, c: Challenge)
    requires c in challenges && FromChallenge(c).Some? && IsSha256(FromChallenge(c).value)
    requires Negotiate(policy, challenges, url, credentials).Ok?
    ensures var scheme := Negotiate(policy, challenges, url, credentials).value.scheme;
            scheme.DigestScheme? && IsSha256(scheme.digest)
  {
    hide FromChallenge;
    var usable, d := Usable(challenges), FromChallenge(c).value;
    assert c.scheme == "digest" && d in usable;
    var best := usable[Strongest(usable)];
    assert Strength(d) <= Strength(best);
    var c' :| c' in challenges && FromChallenge(c') == Some(best);
    assert best.algorithm in Supported;
  }

  // ---------------------------------------------------------------------------------------
  // Elements that cannot be read
  // ---------------------------------------------------------------------------------------

  // Neither empty, nor a parameter, nor a scheme with or without something after it.
  predicate IsStray(e: string) { e != [] && ParamOf(e).None? && MatchScheme(e).None? }

  // A scheme or a parameter is among the elements.
  predicate Opens(elements: seq<string>) {
    exists i :: 0 <= i < |elements| && elements[i] != [] && !IsStray(elements[i])
  }

  ghost predicate SomeInvalid(challenges: seq<Challenge>) { exists c :: c in challenges && !c.valid }

  lemma {:induction false} InvalidIsKept(elements: seq<string>, found: seq<Challenge>, cur: Option<Challenge>)
    requires SomeInvalid(found + Emit(cur))
    ensures SomeInvalid(Parsed(elements, found, cur))
  {
    hide ParamOf, MatchScheme, Unquoted, Strip, Lower, ControlFree, Opened;
    if elements != [] {
      var e, rest := elements[0], elements[1..];
      var p, s := ParamOf(e), MatchScheme(e);
      var c :| c in found + Emit(cur) && !c.valid;
      if e == [] {
        InvalidIsKept(rest, found, cur);
      } else if p.Some? {
        var next := if cur.Some? then WithParam(cur.value, p.value.0, p.value.1) else Nameless;
        assert (if c in found then c else next) in found + Emit(Some(next));
        InvalidIsKept(rest, found, Some(next));
      } else if s.None? {
        var next := if cur.Some? then Some(cur.value.(valid := false)) else None;
        assert (if c in found then c else next.value) in found + Emit(next);
        InvalidIsKept(rest, found, next);
      } else {
        var next := Opened(s.value.0, s.value.1);
        assert c in found + Emit(cur) + Emit(Some(next));
        InvalidIsKept(rest, found + Emit(cur), Some(next));
      }
    }
  }

  lemma {:induction false} StrayMarks(before: seq<string>, e: string, after: seq<string>, found: seq<Challenge>,
                                      cur: Option<Challenge>)
    requires IsStray(e) && (cur.Some? || Opens(before))
    ensures SomeInvalid(Parsed(before + [e] + after, found, cur))
  {
    hide ParamOf, MatchScheme, WithParam, Opened;
    var all := before + [e] + after;
    if before == [] {
      var marked := cur.value.(valid := false);
      assert all[0] == e && all[1..] == after;
      assert marked in found + Emit(Some(marked));
      InvalidIsKept(after, found, Some(marked));
    } else {
      var b := before[0];
      var p, s := ParamOf(b), MatchScheme(b);
      assert all[0] == b && all[1..] == before[1..] + [e] + after;
      if cur.None? && (b == [] || IsStray(b)) { OpensLater(before); }
      if b == [] {
        StrayMarks(before[1..], e, after, found, cur);
      } else if p.Some? {
        var next := if cur.Some? then WithParam(cur.value, p.value.0, p.value.1) else Nameless;
        StrayMarks(before[1..], e, after, found, Some(next));
      } else if s.None? {
        StrayMarks(before[1..], e, after, found, if cur.Some? then Some(cur.value.(valid := false)) else None);
      } else {
        StrayMarks(before[1..], e, after, found + Emit(cur), Some(Opened(s.value.0, s.value.1)));
      }
    }
  }

  // A scheme followed by something that is neither a parameter nor a token68.
  predicate IsHalfRead(e: string) {
    && e != [] && ParamOf(e).None? && MatchScheme(e).Some?
    && var rest := Strip(MatchScheme(e).value.1); rest != [] && ParamOf(rest).None? && !IsToken68(rest)
  }

  /** A scheme with something unreadable after it leaves an invalid challenge, wherever it stands. */
  lemma {:induction false} HalfReadMarks(before: seq<string>, e: string, after: seq<string>, found: seq<Challenge>,
                                         cur: Option<Challenge>)
    requires IsHalfRead(e)
    ensures SomeInvalid(Parsed(before + [e] + after, found, cur))
    decreases |before|
  {
    hide ParamOf, MatchScheme, WithParam, IsToken68, Strip;
    var all := before + [e] + after;
    if before == [] {
      var s := MatchScheme(e).value;
      var half := Opened(s.0, s.1);
      assert all[0] == e && all[1..] == after;
      assert !half.valid && half in found + Emit(cur) + Emit(Some(half));
      InvalidIsKept(after, found + Emit(cur), Some(half));
    } else {
      var b := before[0];
      var p, s := ParamOf(b), MatchScheme(b);
      assert all[0] == b && all[1..] == before[1..] + [e] + after;
      if b == [] {
        HalfReadMarks(before[1..], e, after, found, cur);
      } else if p.Some? {
        var next := if cur.Some? then WithParam(cur.value, p.value.0, p.value.1) else Nameless;
        HalfReadMarks(before[1..], e, after, found, Some(next));
      } else if s.None? {
        HalfReadMarks(before[1..], e, after, found, if cur.Some? then Some(cur.value.(valid := false)) else None);
      } else {
        HalfReadMarks(before[1..], e, after, found + Emit(cur), Some(Opened(s.value.0, s.value.1)));
      }
    }
  }

  lemma OpensLater(elements: seq<string>)
    requires Opens(elements) && (elements[0] == [] || IsStray(elements[0]))
    ensures Opens(elements[1..])
  {
    hide IsStray;
    var i :| 0 <= i < |elements| && elements[i] != [] && !IsStray(elements[i]);
    assert elements[1..][i - 1] == elements[i];
  }

  lemma {:induction false} LeadingIsDropped(before: seq<string>, rest: seq<string>)
    requires !Opens(before)
    ensures Parsed(before + rest, [], None) == Parsed(rest, [], None)
  {
    if before == [] {
      assert before + rest == rest;
    } else {
      assert (before + rest)[0] == before[0] && (before + rest)[1..] == before[1..] + rest;
      assert before[0] == [] || IsStray(before[0]);
      assert forall i :: 0 <= i < |before[1..]| ==> before[1..][i] == before[i + 1];
      LeadingIsDropped(before[1..], rest);
    }
  }

  /** An element that cannot be read leaves an invalid challenge behind, which blocks Basic, when
      a scheme or a parameter stands before it on its line. Otherwise the line is read as if the
      element were not there. */
  lemma StrayIsSeen(before: seq<string>, e: string, after: seq<string>)
    requires IsStray(e)
    ensures Opens(before) ==> SomeInvalid(Parsed(before + [e] + after, [], None))
    ensures !Opens(before) ==> Parsed(before + [e] + after, [], None) == Parsed(before + after, [], None)
  {
    hide IsStray, Parsed;
    if Opens(before) {
      StrayMarks(before, e, after, [], None);
    } else {
      assert !Opens(before + [e]) by {
        assert forall i :: 0 <= i < |before| ==> (before + [e])[i] == before[i];
      }
      LeadingIsDropped(before + [e], after);
      LeadingIsDropped(before, after);
    }
  }

  // The quotes of the line all end, every scheme is followed by something readable if anything,
  // and elements that cannot be read stand before the first scheme or parameter.
  ghost predicate UnreadIsLeading(line: string) {
    match Split(line, [], [], false, false)
    case None => false
    case Some(elements) =>
      forall i :: 0 <= i < |elements| ==>
        !IsHalfRead(elements[i]) && (IsStray(elements[i]) ==> !Opens(elements[..i]))
  }

  lemma LineIsLeading(line: string)
    requires !SomeInvalid(ParsedLine(line))
    ensures UnreadIsLeading(line)
  {
    hide IsStray, Opens, Parsed, Split, IsHalfRead;
    match Split(line, [], [], false, false)
    case None =>
      assert false;
    case Some(elements) =>
      forall i | 0 <= i < |elements|
        ensures !IsHalfRead(elements[i]) && (IsStray(elements[i]) ==> !Opens(elements[..i]))
      {
        assert elements == elements[..i] + [elements[i]] + elements[i + 1..];
        if IsStray(elements[i]) { StrayIsSeen(elements[..i], elements[i], elements[i + 1..]); }
        if IsHalfRead(elements[i]) { HalfReadMarks(elements[..i], elements[i], elements[i + 1..], [], None); }
      }
  }

  lemma ValidMeansLeading(headers: seq<string>)
    requires forall c :: c in ParsedLines(headers) ==> c.valid
    ensures forall line :: line in headers ==> UnreadIsLeading(line)
  {
    hide ParsedLines, ParsedLine, UnreadIsLeading;
    forall line | line in headers ensures UnreadIsLeading(line) {
      var k :| 0 <= k < |headers| && headers[k] == line;
      forall c | c in ParsedLine(line) ensures c.valid { LineIsSeen(headers, k, c); }
      LineIsLeading(line);
    }
  }

  // ---------------------------------------------------------------------------------------
  // Quotes that do not end
  // ---------------------------------------------------------------------------------------

  lemma {:induction false} StripIsPrefix(s: string, n: nat)
    requires 0 < n <= |s| && !IsSpace(s[0]) && !IsSpace(s[n - 1])
    ensures Strip(s) <= s && |Strip(s)| >= n
  {
    if IsSpace(s[|s| - 1]) { StripIsPrefix(s[..|s| - 1], n); }
  }

  lemma {:induction false} UpToCommaIsPrefix(s: string, n: nat)
    requires n <= |s| && forall i :: 0 <= i < n ==> s[i] != ','
    ensures UpToComma(s) <= s && |UpToComma(s)| >= n
  {
    if n > 0 {
      UpToCommaIsPrefix(s[1..], n - 1);
    } else if s != [] && s[0] != ',' {
      UpToCommaIsPrefix(s[1..], 0);
    }
  }

  lemma PrefixHasScheme(s: string, scheme: string, gap: string, rest: string)
    requires IsToken(scheme) && gap != [] && AllBlank(gap)
    requires s <= scheme + gap + rest && |s| >= |scheme|
    ensures MatchScheme(s).Some? && MatchScheme(s).value.0 == scheme
  {
    hide TokenLen;
    var line := scheme + gap + rest;
    assert s[..|scheme|] == scheme && s == scheme + s[|scheme|..];
    if |s| > |scheme| { assert s[|scheme|] == line[|scheme|] == gap[0] && gap[0] in gap; }
    TokenLenOf(scheme, s[|scheme|..]);
  }

  /** A line with a quote that does not end is read as one invalid challenge of the scheme it
      starts with, so an unreadable Digest offer still counts as one. */
  lemma UnterminatedIsOffered(scheme: string, gap: string, rest: string)
    requires IsToken(scheme) && gap != [] && AllBlank(gap)
    requires Split(scheme + gap + rest, [], [], false, false) == None
    ensures ParsedLine(scheme + gap + rest) == [Challenge(Lower(scheme), map[], None, false)]
  {
    hide Split, Strip, UpToComma, MatchScheme, Lower;
    var line, n := scheme + gap + rest, |scheme|;
    assert scheme[0] in scheme && scheme[n - 1] in scheme && line[0] == scheme[0] && line[n - 1] == scheme[n - 1];
    StripIsPrefix(line, n);
    var stripped := Strip(line);
    assert forall i :: 0 <= i < n ==> stripped[i] == line[i] == scheme[i] && scheme[i] in scheme;
    UpToCommaIsPrefix(stripped, n);
    var head := UpToComma(stripped);
    StripIsPrefix(head, n);
    PrefixHasScheme(Strip(head), scheme, gap, rest);
  }

  // ---------------------------------------------------------------------------------------
  // Lines that keep Basic from being answered
  // ---------------------------------------------------------------------------------------

  // No 401 with the line in it is answered with Basic.
  ghost predicate BlocksBasic(line: string) {
    forall policy, headers, url, credentials :: line in headers ==> !AnswersBasic(policy, headers, url, credentials)
  }

  lemma BasicLine()
    ensures ParsedLine("Basic") == [Challenge("basic", map[], None, true)]
  {
    var o := Params("Basic", []);
    hide ParsedLine;
    CommaSeparates();
    LineRoundTrip([o], Comma);
    assert LineTexts([o]) == ["Basic"];
    assert Meanings([o]) == [Meaning(o)];
    assert Lower("Basic") == "basic";
  }

  lemma BesideBasic(line: string)
    ensures ParsedLines([line, "Basic"]) == ParsedLine(line) + [Challenge("basic", map[], None, true)]
  {
    hide ParsedLine;
    BasicLine();
    var headers := [line, "Basic"];
    assert headers[..1] == [line] && [line][..0] == [];
    assert ParsedLines([line]) == ParsedLines([]) + ParsedLine(line) == ParsedLine(line);
    assert ParsedLines(headers) == ParsedLines(headers[..1]) + ParsedLine(headers[1]);
  }

  /** A line keeps Basic from being answered, whatever stands on the other lines, exactly when a
      challenge read from it is invalid or a Digest one. */
  lemma LineBlocksBasic(line: string)
    ensures BlocksBasic(line) <==> exists c :: c in ParsedLine(line) && (!c.valid || c.scheme == "digest")
  {
    hide ParsedLine, ParsedLines, AnswersBasic;
    if c :| c in ParsedLine(line) && (!c.valid || c.scheme == "digest") {
      forall policy, headers, url, credentials | line in headers
        ensures !AnswersBasic(policy, headers, url, credentials)
      {
        var k :| 0 <= k < |headers| && headers[k] == line;
        LineIsSeen(headers, k, c);
        BasicAnswers(policy, headers, url, credentials);
      }
    } else {
      var headers, url, credentials := [line, "Basic"], Url("https", "", 0, ""), Credentials("", "");
      BesideBasic(line);
      var all := ParsedLines(headers);
      assert all[|all| - 1].scheme == "basic" && all[|all| - 1] in all;
      BasicAnswers(Policy(true), headers, url, credentials);
      assert line in headers && AnswersBasic(Policy(true), headers, url, credentials);
    }
  }

  /** So a line of nothing but unreadable elements blocks nothing: beside Basic, the 401 is
      answered with Basic wherever the policy permits it. */
  lemma UnreadLineAllowsBasic(line: string, policy: Policy, url: Url, credentials: Credentials)
    requires url.scheme == "https" || policy.allowOverHttp
    requires Split(line, [], [], false, false).Some?
    requires !Opens(Split(line, [], [], false, false).value)
    ensures ParsedLine(line) == [] && AnswersBasic(policy, [line, "Basic"], url, credentials)
  {
    hide Split, Opens, ParsedLines, AnswersBasic;
    var elements := Split(line, [], [], false, false).value;
    LeadingIsDropped(elements, []);
    assert elements + [] == elements && Parsed([], [], None) == [];
    BesideBasic(line);
    BasicAnswers(policy, [line, "Basic"], url, credentials);
    var basic := Challenge("basic", map[], None, true);
    assert ParsedLines([line, "Basic"]) == [basic] && basic in [basic];
  }

  // Any text without comma or quote that starts with neither a token character nor a space.
  lemma OneStrayElement(line: string)
    requires line != [] && ',' !in line && '"' !in line && !IsTokenChar(line[0]) && !IsSpace(line[0])
    ensures var elements := Split(line, [], [], false, false); elements.Some? && !Opens(elements.value)
  {
    CrossPlain(line, [], [], []);
    assert line + [] == line && [] + line == line;
    var e := Strip(line);
    StripKeepsFirst(line);
    assert [] + [e] == [e];
    assert Split(line, [], [], false, false) == Split([], [], line, false, false) == Some([e]);
    assert TokenLen(e) == 0;
  }

  lemma {:induction false} StripKeepsFirst(s: string)
    requires s != [] && !IsSpace(s[0])
    ensures Strip(s) != [] && Strip(s)[0] == s[0]
  {
    if IsSpace(s[|s| - 1]) { StripKeepsFirst(s[..|s| - 1]); }
  }

  // A Digest offer behind one stray character, beside Basic.
  lemma OneDigestIsDropped(policy: Policy, url: Url, credentials: Credentials)
    requires url.scheme == "https" || policy.allowOverHttp
    ensures AnswersBasic(policy, ["@Digest nonce=n", "Basic"], url, credentials)
  {
    hide AnswersBasic, Split, Opens;
    OneStrayElement("@Digest nonce=n");
    UnreadLineAllowsBasic("@Digest nonce=n", policy, url, credentials);
  }
}
