/** Printing challenges and reading them back (section 11.6.1 of RFC 9110). Values are printed
    as quoted strings or, where the grammar allows it, as bare tokens, with blanks wherever the
    grammar allows those.
 */
module RoundTrip {
  import opened Options
  import opened Challenges

  // left and right are the blanks around the equals sign.
  datatype Param = Param(name: string, value: string, quoted: bool, left: string := "", right: string := "")

  // gap is what stands between the scheme and what follows it.
  datatype Offer =
    | Params(scheme: string, params: seq<Param>, gap: string := " ")
    | Token68(scheme: string, token: string, gap: string := " ")

  // value.replace("\\", "\\\\").replace('"', '\\"') between quotes.
  function Escape(v: string): string {
    if v == [] then [] else EscapeChar(v[0]) + Escape(v[1..])
  }

  function EscapeChar(c: char): string { if c == '\\' || c == '"' then ['\\', c] else [c] }

  function Quote(v: string): string { "\"" + Escape(v) + "\"" }

  function ValueText(p: Param): string { if p.quoted then Quote(p.value) else p.value }

  function ParamText(p: Param): string { p.name + p.left + "=" + p.right + ValueText(p) }

  predicate AllBlank(s: string) { forall c :: c in s ==> IsBlank(c) }

  // What a header can spell: names are tokens, values any quoted text or a bare token.
  predicate ParamPrintable(p: Param) {
    IsToken(p.name) && (p.quoted || IsToken(p.value)) && AllBlank(p.left) && AllBlank(p.right)
  }

  predicate DistinctNames(ps: seq<Param>) {
    forall i, j :: 0 <= i < j < |ps| ==> Lower(ps[i].name) != Lower(ps[j].name)
  }

  predicate Printable(o: Offer) {
    && IsToken(o.scheme) && o.gap != [] && AllBlank(o.gap)
    && match o
       case Params(_, ps, _) => forall p :: p in ps ==> ParamPrintable(p)
       case Token68(_, t, _) => IsToken68(t)
  }

  predicate AllPrintable(offers: seq<Offer>) { forall o :: o in offers ==> Printable(o) }

  function ParamTexts(ps: seq<Param>): seq<string> {
    if ps == [] then [] else [ParamText(ps[0])] + ParamTexts(ps[1..])
  }

  // The comma-separated elements of one challenge: the scheme shares the first one.
  function OfferTexts(o: Offer): seq<string> {
    match o
    case Token68(scheme, t, gap) => [scheme + gap + t]
    case Params(scheme, ps, gap) =>
      if ps == [] then [scheme] else [scheme + gap + ParamText(ps[0])] + ParamTexts(ps[1..])
  }

  function LineTexts(offers: seq<Offer>): seq<string> {
    if offers == [] then [] else OfferTexts(offers[0]) + LineTexts(offers[1..])
  }

  // What separates the elements of a line, comma by comma.
  type Separators = nat -> string

  function Comma(i: nat): string { ", " }

  // The texts with the separators from the i-th on between them.
  function Join(texts: seq<string>, seps: Separators, i: nat): string {
    if texts == [] then [] else if |texts| == 1 then texts[0] else texts[0] + seps(i) + Join(texts[1..], seps, i + 1)
  }

  // One header value holding any number of challenges.
  function PrintLine(offers: seq<Offer>, seps: Separators): string { Join(LineTexts(offers), seps, 0) }

  // A comma with optional blanks on either side.
  predicate IsSeparator(sep: string) {
    exists n :: 0 <= n < |sep| && CommaAt(sep, n)
  }

  ghost predicate AllSeparators(seps: Separators) {
    forall i: nat :: IsSeparator(seps(i))
  }

  lemma CommaSeparates()
    ensures AllSeparators(Comma)
  {
    assert CommaAt(", ", 0);
  }

  predicate CommaAt(sep: string, n: nat)
    requires n < |sep|
  {
    sep[n] == ',' && forall i :: 0 <= i < |sep| && i != n ==> IsBlank(sep[i])
  }

  // The first clean value of each name.
  function ParamMap(ps: seq<Param>): map<string, string> {
    if ps == [] then map[]
    else
      var before, p := ParamMap(ps[..|ps| - 1]), ps[|ps| - 1];
      if Lower(p.name) in before || !ControlFree(p.value) then before else before[Lower(p.name) := p.value]
  }

  // Read without doubt: no name twice, no control character in a value.
  predicate Readable(ps: seq<Param>) {
    DistinctNames(ps) && forall i :: 0 <= i < |ps| ==> ControlFree(ps[i].value)
  }

  // The challenge an offer stands for. It is valid exactly when its parameters are readable.
  function Meaning(o: Offer): Challenge {
    match o
    case Params(scheme, ps, _) => Challenge(Lower(scheme), ParamMap(ps), None, Readable(ps))
    case Token68(scheme, t, _) => Challenge(Lower(scheme), map[], Some(t), true)
  }

  function Meanings(offers: seq<Offer>): seq<Challenge> {
    if offers == [] then [] else [Meaning(offers[0])] + Meanings(offers[1..])
  }

  // ---------------------------------------------------------------------------------------
  // Characters and case
  // ---------------------------------------------------------------------------------------

  predicate IsLetterOrDigit(code: int) { 0x30 <= code <= 0x39 || 0x41 <= code <= 0x5A || 0x61 <= code <= 0x7A }

  /** The character classes by their codes: tchar and token68 (sections 5.6.2 and 11.2 of RFC
      9110), OWS (section 5.6.3), the ASCII controls but the tab, and Python's white space. */
  lemma CharacterClasses(c: char)
    ensures var code := c as int;
            && (IsTokenChar(c) <==>
                  IsLetterOrDigit(code) || code == 0x21 || 0x23 <= code <= 0x27 || code == 0x2A || code == 0x2B
                  || code == 0x2D || code == 0x2E || 0x5E <= code <= 0x60 || code == 0x7C || code == 0x7E)
            && (IsToken68Char(c) <==>
                  IsLetterOrDigit(code) || code == 0x2B || 0x2D <= code <= 0x2F || code == 0x5F || code == 0x7E)
            && (IsBlank(c) <==> code == 0x20 || code == 0x09)
            && (IsControl(c) <==> (code < 0x20 && code != 0x09) || code == 0x7F)
            && (IsSpace(c) <==>
                  9 <= code <= 13 || 28 <= code <= 32 || code == 133 || code == 160 || code == 5760
                  || 8192 <= code <= 8202 || code == 8232 || code == 8233 || code == 8239 || code == 8287
                  || code == 12288)
  {}

  predicate SameButCase(c: char, d: char) {
    || c == d
    || (0x41 <= c as int <= 0x5A && d as int == c as int + 0x20)
    || (0x41 <= d as int <= 0x5A && c as int == d as int + 0x20)
  }

  lemma LowerCharFolds(c: char, d: char)
    ensures LowerChar(c) == LowerChar(d) <==> SameButCase(c, d)
    ensures !(0x41 <= LowerChar(c) as int <= 0x5A)
  {}

  /** Two texts are the same in lower case exactly when they differ only by the case of ASCII
      letters. */
  lemma LowerFoldsCase(s: string, t: string)
    ensures Lower(s) == Lower(t) <==> |s| == |t| && forall i :: 0 <= i < |s| ==> SameButCase(s[i], t[i])
  {
    hide Lower, LowerChar, SameButCase;
    if |s| == |t| {
      forall i | 0 <= i < |s| ensures Lower(s)[i] == Lower(t)[i] <==> SameButCase(s[i], t[i]) {
        LowerCharFolds(s[i], t[i]);
      }
    }
  }

  // ---------------------------------------------------------------------------------------
  // Splitting undoes joining
  // ---------------------------------------------------------------------------------------

  // Read outside quotes, the text is taken into the current element whole.
  ghost predicate Crosses(e: string) {
    forall found, cur, rest :: Split(e + rest, found, cur, false, false) == Split(rest, found, cur + e, false, false)
  }

  lemma {:induction false} CrossPlain(e: string, rest: string, found: seq<string>, cur: string)
    requires ',' !in e && '"' !in e
    ensures Split(e + rest, found, cur, false, false) == Split(rest, found, cur + e, false, false)
  {
    if e == [] {
      assert e + rest == rest && cur + e == cur;
    } else {
      assert (e + rest)[1..] == e[1..] + rest;
      CrossPlain(e[1..], rest, found, cur + [e[0]]);
      assert cur + [e[0]] + e[1..] == cur + e;
    }
  }

  lemma CrossEscapedChar(c: char, rest: string, found: seq<string>, cur: string)
    ensures Split(EscapeChar(c) + rest, found, cur, true, false) == Split(rest, found, cur + EscapeChar(c), true, false)
  {
    var s := EscapeChar(c) + rest;
    if c == '\\' || c == '"' {
      assert s[0] == '\\' && s[1..][0] == c && s[1..][1..] == rest;
      assert cur + ['\\'] + [c] == cur + EscapeChar(c);
    } else {
      assert s[0] == c && s[1..] == rest;
    }
  }

  lemma {:induction false} CrossEscaped(v: string, rest: string, found: seq<string>, cur: string)
    ensures Split(Escape(v) + rest, found, cur, true, false) == Split(rest, found, cur + Escape(v), true, false)
  {
    hide Split;
    if v == [] {
      assert Escape(v) + rest == rest && cur + Escape(v) == cur;
    } else {
      var head, tail := EscapeChar(v[0]), Escape(v[1..]);
      assert Escape(v) + rest == head + (tail + rest);
      CrossEscapedChar(v[0], tail + rest, found, cur);
      CrossEscaped(v[1..], rest, found, cur + head);
      assert cur + head + tail == cur + Escape(v);
    }
  }

  lemma CrossQuoted(v: string)
    ensures Crosses(Quote(v))
  {
    forall found, cur, rest
      ensures Split(Quote(v) + rest, found, cur, false, false) == Split(rest, found, cur + Quote(v), false, false)
    {
      var s := Quote(v) + rest;
      assert s[1..] == Escape(v) + ("\"" + rest);
      CrossEscaped(v, "\"" + rest, found, cur + [s[0]]);
      assert ("\"" + rest)[1..] == rest;
      assert cur + [s[0]] + Escape(v) + ['"'] == cur + Quote(v);
    }
  }

  lemma CrossBoth(a: string, b: string)
    requires Crosses(a) && Crosses(b)
    ensures Crosses(a + b)
  {
    forall found, cur, rest
      ensures Split(a + b + rest, found, cur, false, false) == Split(rest, found, cur + (a + b), false, false)
    {
      assert a + b + rest == a + (b + rest) && cur + a + b == cur + (a + b);
    }
  }

  lemma CrossesPlain(e: string)
    requires ',' !in e && '"' !in e
    ensures Crosses(e)
  {
    forall found, cur, rest
      ensures Split(e + rest, found, cur, false, false) == Split(rest, found, cur + e, false, false)
    {
      CrossPlain(e, rest, found, cur);
    }
  }

  // An element that survives splitting: crossed whole, with nothing to strip.
  ghost predicate Solid(e: string) {
    Crosses(e) && e != [] && !IsSpace(e[0]) && !IsSpace(e[|e| - 1])
  }

  lemma {:induction false} StripLeft(pre: string, s: string)
    requires AllBlank(pre)
    ensures Strip(pre + s) == Strip(s)
  {
    if pre == [] {
      assert pre + s == s;
    } else {
      assert pre[0] in pre && (pre + s)[0] == pre[0] && (pre + s)[1..] == pre[1..] + s;
      StripLeft(pre[1..], s);
    }
  }

  lemma {:induction false} StripRight(s: string, post: string)
    requires AllBlank(post) && s != [] && !IsSpace(s[0])
    ensures Strip(s + post) == Strip(s)
  {
    if post == [] {
      assert s + post == s;
    } else {
      var n := |post| - 1;
      assert post[n] in post && (s + post)[0] == s[0] && (s + post)[|s| + n] == post[n];
      assert (s + post)[..|s| + n] == s + post[..n];
      StripRight(s, post[..n]);
    }
  }

  lemma StripPadding(pre: string, e: string, post: string)
    requires AllBlank(pre) && AllBlank(post)
    requires e != [] && !IsSpace(e[0]) && !IsSpace(e[|e| - 1])
    ensures Strip(pre + e + post) == e
  {
    assert pre + e + post == pre + (e + post);
    StripLeft(pre, e + post);
    StripRight(e, post);
  }

  lemma SplitLast(e: string, found: seq<string>, pad: string)
    requires Solid(e) && AllBlank(pad)
    ensures Split(e, found, pad, false, false) == Some(found + [e])
  {
    hide Strip;
    assert e + [] == e && pad + e + [] == pad + e;
    assert Split(e + [], found, pad, false, false) == Split([], found, pad + e, false, false);
    StripPadding(pad, e, []);
  }

  // Past one element and the comma after it.
  lemma SplitFirst(e: string, before: string, after: string, found: seq<string>, pad: string)
    requires Solid(e) && AllBlank(pad) && AllBlank(before)
    ensures Split(e + (before + ("," + after)), found, pad, false, false) == Split(after, found + [e], [], false, false)
  {
    hide Strip;
    CrossesPlain(before);
    StripPadding(pad, e, before);
    assert ("," + after)[1..] == after;
  }

  lemma {:induction false} SplitJoined(texts: seq<string>, seps: Separators, i: nat, found: seq<string>, pad: string)
    requires texts != [] && AllSeparators(seps) && AllBlank(pad)
    requires forall e :: e in texts ==> Solid(e)
    ensures Split(Join(texts, seps, i), found, pad, false, false) == Some(found + texts)
    decreases |texts|
  {
    hide Solid, Split, Crosses;
    var e := texts[0];
    if |texts| == 1 {
      assert texts == [e];
      SplitLast(e, found, pad);
    } else {
      var sep := seps(i);
      assert IsSeparator(sep);
      var n :| 0 <= n < |sep| && CommaAt(sep, n);
      var before, after := sep[..n], sep[n + 1..];
      var tail := Join(texts[1..], seps, i + 1);
      assert Join(texts, seps, i) == e + (before + ("," + (after + tail)));
      SplitFirst(e, before, after + tail, found, pad);
      CrossPlain(after, tail, found + [e], []);
      assert [] + after == after;
      SplitJoined(texts[1..], seps, i + 1, found + [e], after);
      assert found + [e] + texts[1..] == found + texts;
    }
  }

  // ---------------------------------------------------------------------------------------
  // Parameters and schemes are recognised as printed
  // ---------------------------------------------------------------------------------------

  lemma {:induction false} TokenLenOf(t: string, rest: string)
    requires forall c :: c in t ==> IsTokenChar(c)
    requires rest != [] ==> !IsTokenChar(rest[0])
    ensures TokenLen(t + rest) == |t|
  {
    if t == [] {
      assert t + rest == rest;
    } else {
      assert (t + rest)[0] == t[0] && (t + rest)[1..] == t[1..] + rest;
      TokenLenOf(t[1..], rest);
    }
  }

  lemma {:induction false} UnescapeOf(v: string, read: string)
    ensures Unescape(Escape(v), read, false) == Some(read + v)
  {
    if v == [] {
      assert read + v == read;
    } else {
      UnescapeOf(v[1..], read + [v[0]]);
      assert read + [v[0]] + v[1..] == read + v;
      var s, tail := Escape(v), Escape(v[1..]);
      if v[0] == '\\' || v[0] == '"' {
        assert s[0] == '\\' && s[1..][0] == v[0] && s[1..][1..] == tail;
      } else {
        assert s[0] == v[0] && s[1..] == tail;
      }
    }
  }

  lemma ValueReadBack(p: Param)
    requires ParamPrintable(p)
    ensures ValueText(p) != [] && !IsSpace(ValueText(p)[0]) && !IsSpace(ValueText(p)[|ValueText(p)| - 1])
    ensures ValueText(p)[0] != '=' && Strip(ValueText(p)) == ValueText(p)
    ensures Unquoted(ValueText(p)) == Some(p.value)
    ensures Crosses(ValueText(p))
  {
    var text := ValueText(p);
    if p.quoted {
      assert text[1..|text| - 1] == Escape(p.value);
      UnescapeOf(p.value, []);
      assert [] + p.value == p.value;
      CrossQuoted(p.value);
    } else {
      assert text[0] in text && text[|text| - 1] in text;
      CrossesPlain(text);
    }
    StripPadding([], text, []);
    assert [] + text + [] == text;
  }

  lemma ParamIsSolid(p: Param)
    requires ParamPrintable(p)
    ensures Solid(ParamText(p)) && IsTokenChar(ParamText(p)[0])
  {
    var text, value := ParamText(p), ValueText(p);
    ValueReadBack(p);
    assert p.name[0] in p.name && text[0] == p.name[0] && text[|text| - 1] == value[|value| - 1];
    var head := p.name + p.left + "=" + p.right;
    CrossesPlain(head);
    CrossBoth(head, value);
  }

  lemma {:induction false} BlankLenOf(b: string, rest: string)
    requires AllBlank(b) && rest != [] && !IsBlank(rest[0])
    ensures BlankLen(b + rest) == |b|
  {
    if b == [] {
      assert b + rest == rest;
    } else {
      assert b[0] in b && (b + rest)[0] == b[0] && (b + rest)[1..] == b[1..] + rest;
      BlankLenOf(b[1..], rest);
    }
  }

  lemma SplitsAt(a: string, b: string)
    ensures (a + b)[..|a|] == a && (a + b)[|a|..] == b
  {}

  lemma MatchParamOf(name: string, left: string, right: string, value: string)
    requires IsToken(name) && AllBlank(left) && AllBlank(right) && value != [] && !IsBlank(value[0])
    ensures MatchParam(name + left + "=" + right + value) == Some((name, value))
  {
    hide BlankLen, TokenLen;
    var tail := right + value;
    var after := left + ("=" + tail);
    assert name + left + "=" + right + value == name + after;
    assert left != [] ==> left[0] in left;
    TokenLenOf(name, after);
    BlankLenOf(left, "=" + tail);
    BlankLenOf(right, value);
    SplitsAt(name, after);
    SplitsAt(left, "=" + tail);
    SplitsAt("=", tail);
    SplitsAt(right, value);
    hide AllBlank, IsToken;
  }

  lemma ParamReadBack(p: Param)
    requires ParamPrintable(p)
    ensures ParamOf(ParamText(p)) == Some((p.name, ValueText(p)))
    ensures Solid(ParamText(p)) && IsTokenChar(ParamText(p)[0])
  {
    hide Crosses, Strip, Unquoted, ValueText, IsToken68, MatchParam;
    var value := ValueText(p);
    ValueReadBack(p);
    MatchParamOf(p.name, p.left, p.right, value);
    assert value[0] in value;
    ParamIsSolid(p);
  }

  lemma MatchSchemeOf(scheme: string, gap: string, text: string)
    requires IsToken(scheme) && gap != [] && AllBlank(gap) && text != [] && !IsBlank(text[0]) && text[0] != '='
    ensures MatchScheme(scheme + gap + text) == Some((scheme, text)) && MatchParam(scheme + gap + text) == None
  {
    hide BlankLen, TokenLen;
    var e, after := scheme + gap + text, gap + text;
    assert gap[0] in gap;
    TokenLenOf(scheme, after);
    BlankLenOf(gap, text);
    assert e == scheme + after && e[..|scheme|] == scheme && e[|scheme|..] == after && after[|gap|..] == text;
  }

  // A scheme followed by blanks and a text that does not start with a blank or an equals sign.
  lemma SchemeReadBack(scheme: string, gap: string, text: string)
    requires IsToken(scheme) && gap != [] && AllBlank(gap) && Solid(text) && text[0] != '='
    ensures var e := scheme + gap + text;
            ParamOf(e) == None && MatchScheme(e) == Some((scheme, text)) && Solid(e) && Strip(text) == text
  {
    hide Crosses, MatchScheme, MatchParam, Strip, IsToken68;
    MatchSchemeOf(scheme, gap, text);
    var e := scheme + gap + text;
    assert scheme[0] in scheme && e[0] == scheme[0] && e[|e| - 1] == text[|text| - 1];
    CrossesPlain(scheme + gap);
    CrossBoth(scheme + gap, text);
    StripPadding([], text, []);
    assert [] + text + [] == text;
  }

  lemma BareReadBack(scheme: string)
    requires IsToken(scheme)
    ensures ParamOf(scheme) == None && MatchScheme(scheme) == Some((scheme, [])) && Solid(scheme)
  {
    TokenLenOf(scheme, []);
    assert scheme + [] == scheme;
    assert scheme[0] in scheme && scheme[|scheme| - 1] in scheme;
    CrossesPlain(scheme);
  }

  lemma Token68IsNoParam(t: string)
    requires IsToken68(t)
    ensures ParamOf(t) == None
  {
    var n :| 0 < n <= |t| && Token68Base(t, n);
    var m := TokenLen(t);
    if m < |t| {
      assert n < |t| ==> t[n] == '=' && !IsTokenChar(t[n]);
      assert t[m] == '/' || t[m] == '=';
      assert t[m..][0] == t[m] && t[m..][1..] == t[m + 1..];
      assert t[m] == '=' ==> m == n;
    }
  }

  lemma Token68ReadBack(t: string)
    requires IsToken68(t)
    ensures ParamOf(t) == None && Solid(t) && t[0] != '='
  {
    hide ParamOf, Crosses;
    Token68IsNoParam(t);
    var n :| 0 < n <= |t| && Token68Base(t, n);
    CrossesPlain(t);
  }

  // ---------------------------------------------------------------------------------------
  // The round trip
  // ---------------------------------------------------------------------------------------

  lemma {:induction false} ParamMapKeys(ps: seq<Param>, key: string)
    requires forall i :: 0 <= i < |ps| ==> Lower(ps[i].name) != key
    ensures key !in ParamMap(ps)
  {
    if ps != [] { ParamMapKeys(ps[..|ps| - 1], key); }
  }

  // Readable parameters all keep their values.
  lemma {:induction false} ParamMapAt(ps: seq<Param>, i: nat)
    requires Readable(ps) && i < |ps|
    ensures Lower(ps[i].name) in ParamMap(ps) && ParamMap(ps)[Lower(ps[i].name)] == ps[i].value
  {
    hide Lower, ControlFree;
    var n := |ps| - 1;
    if i < n {
      ParamMapAt(ps[..n], i);
    } else {
      ParamMapKeys(ps[..n], Lower(ps[n].name));
    }
  }

  lemma ParamMapMore(front: seq<Param>, p: Param)
    ensures var before, key := ParamMap(front), Lower(p.name);
            ParamMap(front + [p]) ==
              if key in before || !ControlFree(p.value) then before else before[key := p.value]
  {
    assert (front + [p])[..|front|] == front;
  }

  predicate IsNew(front: seq<Param>, key: string) {
    forall i :: 0 <= i < |front| ==> Lower(front[i].name) != key
  }

  lemma ReadableMore(front: seq<Param>, p: Param)
    ensures Readable(front + [p]) <==> Readable(front) && ControlFree(p.value) && IsNew(front, Lower(p.name))
  {
    hide Lower, ControlFree;
    var all := front + [p];
    assert forall i :: 0 <= i < |front| ==> all[i] == front[i];
    assert all[|front|] == p;
  }

  lemma NewKeys(front: seq<Param>, key: string)
    ensures IsNew(front, key) ==> key !in ParamMap(front)
    ensures Readable(front) && key !in ParamMap(front) ==> IsNew(front, key)
  {
    hide Lower, ControlFree, ParamMap, Readable;
    if IsNew(front, key) { ParamMapKeys(front, key); }
    if Readable(front) {
      forall i | 0 <= i < |front| ensures Lower(front[i].name) in ParamMap(front) { ParamMapAt(front, i); }
    }
  }

  lemma ParamAdded(front: seq<Param>, p: Param, scheme: string)
    requires ParamPrintable(p)
    ensures WithParam(Challenge(scheme, ParamMap(front), None, Readable(front)), p.name, ValueText(p))
            == Challenge(scheme, ParamMap(front + [p]), None, Readable(front + [p]))
  {
    hide Crosses, Strip, Unquoted, ValueText, Lower, ControlFree, ParamMap, Readable, IsNew;
    ValueReadBack(p);
    ParamMapMore(front, p);
    ReadableMore(front, p);
    NewKeys(front, Lower(p.name));
  }

  // A parameter element goes to the challenge being built.
  lemma {:induction false} ParamParsed(p: Param, rest: seq<string>, found: seq<Challenge>, cur: Challenge)
    requires ParamPrintable(p)
    ensures Parsed([ParamText(p)] + rest, found, Some(cur)) ==
            Parsed(rest, found, Some(WithParam(cur, p.name, ValueText(p))))
  {
    hide Crosses, ValueText, Lower, ParamOf, MatchScheme, WithParam, ParamText, ParamPrintable;
    ParamReadBack(p);
    assert ([ParamText(p)] + rest)[1..] == rest;
  }

  lemma {:induction false} ParamsParsed(front: seq<Param>, ps: seq<Param>, scheme: string, rest: seq<string>,
                                        found: seq<Challenge>)
    requires forall p :: p in ps ==> ParamPrintable(p)
    ensures Parsed(ParamTexts(ps) + rest, found, Some(Challenge(scheme, ParamMap(front), None, Readable(front))))
            == Parsed(rest, found, Some(Challenge(scheme, ParamMap(front + ps), None, Readable(front + ps))))
    decreases |ps|
  {
    hide ValueText, Lower, WithParam, ParamText, ParamMap, Parsed, ParamPrintable, Readable;
    if ps == [] {
      assert ParamTexts(ps) + rest == rest && front + ps == front;
    } else {
      var p := ps[0];
      var more := ParamTexts(ps[1..]) + rest;
      assert ParamTexts(ps) + rest == [ParamText(p)] + more;
      assert front + ps == front + [p] + ps[1..];
      ParamParsed(p, more, found, Challenge(scheme, ParamMap(front), None, Readable(front)));
      ParamAdded(front, p, scheme);
      ParamsParsed(front + [p], ps[1..], scheme, rest, found);
    }
  }

  lemma OpenedBy(o: Offer)
    requires Printable(o)
    ensures ParamOf(OfferTexts(o)[0]) == None && OfferTexts(o)[0] != []
    ensures var s := MatchScheme(OfferTexts(o)[0]);
            s.Some? && Opened(s.value.0, s.value.1) ==
                       if o.Token68? || o.params == [] then Meaning(o)
                       else Challenge(Lower(o.scheme), ParamMap(o.params[..1]), None, Readable(o.params[..1]))
    ensures Solid(OfferTexts(o)[0])
  {
    hide Crosses, Unquoted, ValueText, Lower, ParamOf, MatchScheme, WithParam, ParamText;
    if o.Token68? {
      Token68ReadBack(o.token);
      SchemeReadBack(o.scheme, o.gap, o.token);
    } else if o.params == [] {
      BareReadBack(o.scheme);
    } else {
      var p := o.params[0];
      ParamReadBack(p);
      SchemeReadBack(o.scheme, o.gap, ParamText(p));
      assert [] + [p] == o.params[..1];
      assert ParamMap([]) == map[] && Readable([]);
      ParamAdded([], p, Lower(o.scheme));
    }
  }

  // A scheme element closes the challenge being built and opens the next.
  lemma {:induction false} SchemeParsed(e: string, rest: seq<string>, found: seq<Challenge>, cur: Option<Challenge>,
                                        next: Challenge)
    requires e != [] && ParamOf(e) == None && MatchScheme(e).Some?
    requires Opened(MatchScheme(e).value.0, MatchScheme(e).value.1) == next
    ensures Parsed([e] + rest, found, cur) == Parsed(rest, found + Emit(cur), Some(next))
  {
    hide ParamOf, MatchScheme, Opened, WithParam;
    assert ([e] + rest)[1..] == rest;
  }

  lemma OfferParsed(o: Offer, rest: seq<string>, found: seq<Challenge>, cur: Option<Challenge>)
    requires Printable(o)
    ensures Parsed(OfferTexts(o) + rest, found, cur) == Parsed(rest, found + Emit(cur), Some(Meaning(o)))
  {
    hide Crosses, Lower, ParamOf, MatchScheme, ParamText, Opened, ParamMap, Parsed, Emit, Solid, Readable;
    OpenedBy(o);
    var e := OfferTexts(o)[0];
    if o.Token68? || o.params == [] {
      assert OfferTexts(o) + rest == [e] + rest;
      SchemeParsed(e, rest, found, cur, Meaning(o));
    } else {
      var more := ParamTexts(o.params[1..]) + rest;
      assert OfferTexts(o) + rest == [e] + more;
      assert o.params[..1] + o.params[1..] == o.params;
      var begun := Challenge(Lower(o.scheme), ParamMap(o.params[..1]), None, Readable(o.params[..1]));
      SchemeParsed(e, more, found, cur, begun);
      ParamsParsed(o.params[..1], o.params[1..], Lower(o.scheme), rest, found + Emit(cur));
    }
  }

  lemma {:induction false} LineParsed(offers: seq<Offer>, found: seq<Challenge>, cur: Option<Challenge>)
    requires AllPrintable(offers)
    ensures Parsed(LineTexts(offers), found, cur) == found + Emit(cur) + Meanings(offers)
  {
    hide Printable, OfferTexts, Meaning;
    if offers != [] {
      OfferParsed(offers[0], LineTexts(offers[1..]), found, cur);
      LineParsed(offers[1..], found + Emit(cur), Some(Meaning(offers[0])));
    }
  }

  lemma {:induction false} ParamTextsSolid(ps: seq<Param>)
    requires forall p :: p in ps ==> ParamPrintable(p)
    ensures forall e :: e in ParamTexts(ps) ==> Solid(e)
  {
    if ps != [] {
      ParamIsSolid(ps[0]);
      ParamTextsSolid(ps[1..]);
    }
  }

  lemma {:induction false} LineTextsSolid(offers: seq<Offer>)
    requires AllPrintable(offers)
    ensures forall e :: e in LineTexts(offers) ==> Solid(e)
  {
    if offers != [] {
      var o := offers[0];
      OpenedBy(o);
      if o.Params? && o.params != [] { ParamTextsSolid(o.params[1..]); }
      LineTextsSolid(offers[1..]);
    }
  }

  /** Whatever the challenges printed on a line, with whatever blanks the grammar allows around
      each comma and equals sign and after each scheme, reading the line gives them back: commas,
      quotes and backslashes inside values neither split nor merge anything. A challenge that
      repeats a name or holds a control character comes back marked invalid, and only such. */
  lemma LineRoundTrip(offers: seq<Offer>, seps: Separators)
    requires AllSeparators(seps) && AllPrintable(offers)
    ensures ParsedLine(PrintLine(offers, seps)) == Meanings(offers)
  {
    hide Printable, OfferTexts, Meaning, ParamOf, MatchScheme, WithParam, Opened;
    LineTextsSolid(offers);
    LineParsed(offers, [], None);
    if LineTexts(offers) == [] {
      assert Parsed([""], [], None) == Parsed([], [], None);
    } else {
      SplitJoined(LineTexts(offers), seps, 0, [], []);
      assert [] + LineTexts(offers) == LineTexts(offers);
    }
  }

  /** A value that is neither quoted nor a token makes its challenge invalid, and so does a quoted
      one without its closing quote. */
  lemma BadValueIsInvalid(c: Challenge, name: string, raw: string)
    requires var value := Strip(raw);
             if value != [] && value[0] == '"' then |value| == 1 || value[|value| - 1] != '"' else !IsToken(value)
    ensures WithParam(c, name, raw) == c.(valid := false)
  {
    hide Strip, Unescape, Lower;
  }

  /** A parameter before any scheme is read as one invalid challenge without a name. */
  lemma LoneParameter(p: Param)
    requires ParamPrintable(p)
    ensures ParsedLine(ParamText(p)) == [Challenge("", map[], None, false)]
  {
    hide Split, ParamOf, MatchScheme, Solid, ParamText, ParamPrintable;
    var e := ParamText(p);
    ParamReadBack(p);
    assert e != [] by { SolidIsText(e); }
    SplitLast(e, [], []);
    assert [] + [e] == [e] && [e][1..] == [];
    assert Parsed([e], [], None) == Parsed([], [], Some(Nameless));
    NothingMore([], Nameless);
  }

  lemma SolidIsText(e: string)
    requires Solid(e)
    ensures e != []
  {}

  /** A parameter after a token68 makes its challenge invalid. */
  lemma ParameterAfterToken(o: Offer, p: Param, seps: Separators)
    requires o.Token68? && Printable(o) && ParamPrintable(p) && AllSeparators(seps)
    ensures ParsedLine(Join([OfferTexts(o)[0], ParamText(p)], seps, 0)) ==
            [Challenge(Lower(o.scheme), map[], Some(o.token), false)]
  {
    hide Split, ParamOf, MatchScheme, Solid, ParamText, ParamPrintable, Parsed, Opened, Unquoted, Strip, Lower;
    var texts := [OfferTexts(o)[0], ParamText(p)];
    OpenedBy(o);
    ParamReadBack(p);
    SplitJoined(texts, seps, 0, [], []);
    assert [] + texts == texts && texts == OfferTexts(o) + [ParamText(p)];
    OfferParsed(o, [ParamText(p)], [], None);
    assert [ParamText(p)] + [] == [ParamText(p)];
    ParamParsed(p, [], [], Meaning(o));
    NothingMore([] + Emit(None), WithParam(Meaning(o), p.name, ValueText(p)));
  }

  lemma NothingMore(found: seq<Challenge>, c: Challenge)
    ensures Parsed([], found, Some(c)) == found + [c]
  {}

  function Flatten(lines: seq<seq<Offer>>): seq<Offer> {
    if lines == [] then [] else Flatten(lines[..|lines| - 1]) + lines[|lines| - 1]
  }

  lemma {:induction false} MeaningsOfBoth(a: seq<Offer>, b: seq<Offer>)
    ensures Meanings(a + b) == Meanings(a) + Meanings(b)
  {
    if a == [] { assert a + b == b; } else { assert (a + b)[1..] == a[1..] + b; MeaningsOfBoth(a[1..], b); }
  }

  // Header lines, each with its own separators.
  function PrintLines(lines: seq<seq<Offer>>, seps: nat -> Separators): seq<string> {
    seq(|lines|, i requires 0 <= i < |lines| => PrintLine(lines[i], seps(i)))
  }

  /** The round trip over any number of header lines. */
  lemma {:induction false} LinesRoundTrip(lines: seq<seq<Offer>>, seps: nat -> Separators)
    requires forall i: nat :: i < |lines| ==> AllSeparators(seps(i)) && AllPrintable(lines[i])
    ensures ParsedLines(PrintLines(lines, seps)) == Meanings(Flatten(lines))
  {
    hide PrintLine, ParsedLine, AllPrintable, AllSeparators;
    var printed := PrintLines(lines, seps);
    if lines != [] {
      var n := |lines| - 1;
      var front := lines[..n];
      assert printed[..n] == PrintLines(front, seps);
      LinesRoundTrip(front, seps);
      LineRoundTrip(lines[n], seps(n));
      MeaningsOfBoth(Flatten(front), lines[n]);
    }
  }

  /** A line's challenges are seen whatever the other lines hold. */
  lemma {:induction false} LineIsSeen(headers: seq<string>, k: nat, c: Challenge)
    requires k < |headers| && c in ParsedLine(headers[k])
    ensures c in ParsedLines(headers)
  {
    if k < |headers| - 1 { LineIsSeen(headers[..|headers| - 1], k, c); }
  }

  lemma {:induction false} MeaningIsListed(offers: seq<Offer>, o: Offer)
    requires o in offers
    ensures Meaning(o) in Meanings(offers)
  {
    if offers[0] != o { MeaningIsListed(offers[1..], o); }
  }

  // Every parameter of a challenge is free of control characters.
  predicate CleanParams(c: Challenge) { forall k :: k in c.params ==> ControlFree(c.params[k]) }

  lemma {:induction false} ParsedIsClean(elements: seq<string>, found: seq<Challenge>, cur: Option<Challenge>)
    requires (forall c :: c in found ==> CleanParams(c)) && (cur.Some? ==> CleanParams(cur.value))
    ensures forall c :: c in Parsed(elements, found, cur) ==> CleanParams(c)
  {
    hide ParamOf, MatchScheme, Strip, Unquoted, Lower, ControlFree;
    if elements != [] {
      var e, rest := elements[0], elements[1..];
      var p, s := ParamOf(e), MatchScheme(e);
      if e == [] { ParsedIsClean(rest, found, cur); }
      else if p.Some? {
        ParsedIsClean(rest, found, Some(if cur.Some? then WithParam(cur.value, p.value.0, p.value.1) else Nameless));
      }
      else if s.None? { ParsedIsClean(rest, found, if cur.Some? then Some(cur.value.(valid := false)) else None); }
      else { ParsedIsClean(rest, found + Emit(cur), Some(Opened(s.value.0, s.value.1))); }
    }
  }

  /** No header, however malformed, gives a parameter with a control character in it. */
  lemma {:induction false} ParsedLinesAreClean(headers: seq<string>)
    ensures forall c :: c in ParsedLines(headers) ==> CleanParams(c)
  {
    if headers != [] {
      var line := headers[|headers| - 1];
      ParsedLinesAreClean(headers[..|headers| - 1]);
      match Split(line, [], [], false, false)
      case None =>
      case Some(elements) => ParsedIsClean(elements, [], None);
    }
  }
}
