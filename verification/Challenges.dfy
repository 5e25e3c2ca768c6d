/** The parser of WWW-Authenticate values (section 11.6.1 of RFC 9110). */
module Challenges {
  import opened Options

  // ---------------------------------------------------------------------------------------
  // Characters
  // ---------------------------------------------------------------------------------------

  predicate IsAlnum(c: char) { '0' <= c <= '9' || 'A' <= c <= 'Z' || 'a' <= c <= 'z' }

  predicate IsTokenChar(c: char) {
    IsAlnum(c) || c in {'!', '#', '$', '%', '&', '\'', '*', '+', '.', '^', '_', '`', '|', '~', '-'}
  }

  predicate IsToken68Char(c: char) { IsAlnum(c) || c in {'.', '_', '~', '+', '/', '-'} }

  predicate IsBlank(c: char) { c == ' ' || c == '\t' }

  // What str.strip removes.
  predicate IsSpace(c: char) {
    || '\t' <= c <= '\r' || '\U{1c}' <= c <= ' ' || c == '\U{85}' || c == '\U{a0}' || c == '\U{1680}'
    || '\U{2000}' <= c <= '\U{200a}' || c == '\U{2028}' || c == '\U{2029}' || c == '\U{202f}'
    || c == '\U{205f}' || c == '\U{3000}'
  }

  // Control characters other than the horizontal tab.
  predicate IsControl(c: char) { c <= '\U{8}' || '\n' <= c <= '\U{1f}' || c == '\U{7f}' }

  predicate ControlFree(s: string) { forall c :: c in s ==> !IsControl(c) }

  predicate IsToken(s: string) { s != [] && forall c :: c in s ==> IsTokenChar(c) }

  function LowerChar(c: char): char { if 'A' <= c <= 'Z' then (c as int + 32) as char else c }

  // str.lower on the ASCII text a token can be made of.
  function Lower(s: string): (r: string)
    ensures |r| == |s|
    ensures forall i :: 0 <= i < |s| ==> r[i] == LowerChar(s[i])
  {
    if s == [] then [] else [LowerChar(s[0])] + Lower(s[1..])
  }

  // The length of the longest prefix of token characters, and of blanks.
  function TokenLen(s: string): (n: nat)
    ensures n <= |s| && (n < |s| ==> !IsTokenChar(s[n]))
    ensures forall i :: 0 <= i < n ==> IsTokenChar(s[i])
  {
    if s == [] || !IsTokenChar(s[0]) then 0 else 1 + TokenLen(s[1..])
  }

  function BlankLen(s: string): (n: nat)
    ensures n <= |s| && (n < |s| ==> !IsBlank(s[n]))
    ensures forall i :: 0 <= i < n ==> IsBlank(s[i])
  {
    if s == [] || !IsBlank(s[0]) then 0 else 1 + BlankLen(s[1..])
  }

  function Strip(s: string): string {
    if s == [] then []
    else if IsSpace(s[0]) then Strip(s[1..])
    else if IsSpace(s[|s| - 1]) then Strip(s[..|s| - 1])
    else s
  }

  // ---------------------------------------------------------------------------------------
  // The regular expressions
  // ---------------------------------------------------------------------------------------

  // ^(token)(?:[ \t]+(.*))?$ with the second group, or nothing, after the blanks.
  function MatchScheme(s: string): Option<(string, string)> {
    var n := TokenLen(s);
    var b := BlankLen(s[n..]);
    if n == 0 || (n < |s| && b == 0) then None else Some((s[..n], s[n..][b..]))
  }

  // ^(token)[ \t]*=[ \t]*(.*)$
  function MatchParam(s: string): Option<(string, string)> {
    var n := TokenLen(s);
    var r := s[n..][BlankLen(s[n..])..];
    if n == 0 || r == [] || r[0] != '=' then None else Some((s[..n], r[1..][BlankLen(r[1..])..]))
  }

  // ^[A-Za-z0-9._~+/-]+=*$
  predicate IsToken68(s: string) {
    exists n :: 0 < n <= |s| && Token68Base(s, n)
  }

  predicate Token68Base(s: string, n: nat)
    requires n <= |s|
  {
    (forall i :: 0 <= i < n ==> IsToken68Char(s[i])) && (forall i :: n <= i < |s| ==> s[i] == '=')
  }

  // name=value, unless the text is a token68 such as abc==.
  function ParamOf(s: string): Option<(string, string)> {
    var m := MatchParam(s);
    if m.None? || (IsToken68(s) && forall c :: c in m.value.1 ==> c == '=') then None else m
  }

  // ---------------------------------------------------------------------------------------
  // Splitting and unquoting
  // ---------------------------------------------------------------------------------------

  // The elements of a value, given those found, the one being read and the quoting state.
  function Split(s: string, found: seq<string>, cur: string, inQuotes: bool, escaped: bool): Option<seq<string>> {
    if s == [] then if inQuotes then None else Some(found + [Strip(cur)])
    else
      var c, rest := s[0], s[1..];
      if inQuotes then Split(rest, found, cur + [c], escaped || c != '"', !escaped && c == '\\')
      else if c == ',' then Split(rest, found + [Strip(cur)], [], false, false)
      else Split(rest, found, cur + [c], c == '"', false)
  }

  method SplitElements(value: string) returns (r: Option<seq<string>>)
    ensures r == Split(value, [], [], false, false)
  {
    var elements: seq<string> := [];
    var current: string := [];
    var inQuotes, escaped := false, false;
    assert value[0..] == value;
    for i := 0 to |value|
      invariant escaped ==> inQuotes
      invariant Split(value, [], [], false, false) == Split(value[i..], elements, current, inQuotes, escaped)
    {
      var c := value[i];
      assert value[i..][1..] == value[i + 1..];
      if inQuotes {
        current := current + [c];
        if escaped {
          escaped := false;
        } else if c == '\\' {
          escaped := true;
        } else if c == '"' {
          inQuotes := false;
        }
        continue;
      }
      if c == ',' {
        elements := elements + [Strip(current)];
        current := [];
        continue;
      }
      if c == '"' { inQuotes := true; }
      current := current + [c];
    }
    if inQuotes { return None; }
    return Some(elements + [Strip(current)]);
  }

  // The text of a quoted string's inside after what was read, or nothing when it is malformed.
  function Unescape(s: string, read: string, escaped: bool): Option<string> {
    if s == [] then if escaped then None else Some(read)
    else if !escaped && s[0] == '\\' then Unescape(s[1..], read, true)
    else if !escaped && s[0] == '"' then None
    else Unescape(s[1..], read + [s[0]], false)
  }

  function Unquoted(raw: string): Option<string> {
    if raw != [] && raw[0] == '"' then
      if |raw| < 2 || raw[|raw| - 1] != '"' then None else Unescape(raw[1..|raw| - 1], [], false)
    else if IsToken(raw) then Some(raw) else None
  }

  method Unquote(raw: string) returns (r: Option<string>)
    ensures r == Unquoted(raw)
  {
    if raw != [] && raw[0] == '"' {
      if |raw| < 2 || raw[|raw| - 1] != '"' { return None; }
      var inside := raw[1..|raw| - 1];
      var out: string := [];
      var escaped := false;
      assert inside[0..] == inside;
      for i := 0 to |inside|
        invariant Unescape(inside, [], false) == Unescape(inside[i..], out, escaped)
      {
        var c := inside[i];
        assert inside[i..][1..] == inside[i + 1..];
        if escaped {
          out := out + [c];
          escaped := false;
        } else if c == '\\' {
          escaped := true;
        } else if c == '"' {
          return None;
        } else {
          out := out + [c];
        }
      }
      if escaped { return None; }
      return Some(out);
    }
    if IsToken(raw) { return Some(raw); }
    return None;
  }

  // ---------------------------------------------------------------------------------------
  // Challenges
  // ---------------------------------------------------------------------------------------

  datatype Challenge = Challenge(scheme: string, params: map<string, string>, token68: Option<string>, valid: bool)

  function Fresh(scheme: string): Challenge { Challenge(Lower(scheme), map[], None, true) }

  function WithParam(c: Challenge, name: string, raw: string): Challenge {
    var key, value := Lower(name), Unquoted(Strip(raw));
    if value.None? || key in c.params || c.token68.Some? || !ControlFree(value.value) then c.(valid := false)
    else c.(params := c.params[key := value.value])
  }

  // A challenge opened by a scheme and what follows it in the same element.
  function Opened(scheme: string, after: string): Challenge {
    var c, rest := Fresh(scheme), Strip(after);
    if rest == [] then c
    else
      var p := ParamOf(rest);
      if p.Some? then WithParam(c, p.value.0, p.value.1)
      else if IsToken68(rest) then c.(token68 := Some(rest))
      else c.(valid := false)
  }

  function Emit(cur: Option<Challenge>): seq<Challenge> { if cur.None? then [] else [cur.value] }

  // A parameter before any scheme opens an unusable, nameless challenge.
  const Nameless := Challenge("", map[], None, false)

  // The challenges of a value, given those found and the one being built.
  function Parsed(elements: seq<string>, found: seq<Challenge>, cur: Option<Challenge>): seq<Challenge> {
    if elements == [] then found + Emit(cur)
    else
      var e, rest := elements[0], elements[1..];
      var p, s := ParamOf(e), MatchScheme(e);
      if e == [] then Parsed(rest, found, cur)
      else if p.Some? then
        Parsed(rest, found, Some(if cur.Some? then WithParam(cur.value, p.value.0, p.value.1) else Nameless))
      else if s.None? then
        Parsed(rest, found, if cur.Some? then Some(cur.value.(valid := false)) else None)
      else Parsed(rest, found + Emit(cur), Some(Opened(s.value.0, s.value.1)))
  }

  function UpToComma(s: string): string {
    if s == [] || s[0] == ',' then [] else [s[0]] + UpToComma(s[1..])
  }

  // A value with an unterminated quote: offered under the scheme it starts with, but unusable.
  function Unreadable(value: string): Challenge {
    var head := MatchScheme(Strip(UpToComma(Strip(value))));
    Challenge(if head.Some? then Lower(head.value.0) else "", map[], None, false)
  }

  function ParsedLine(value: string): seq<Challenge> {
    match Split(value, [], [], false, false)
    case None => [Unreadable(value)]
    case Some(elements) => Parsed(elements, [], None)
  }

  function ParsedLines(headers: seq<string>): seq<Challenge> {
    if headers == [] then []
    else ParsedLines(headers[..|headers| - 1]) + ParsedLine(headers[|headers| - 1])
  }

  class Builder {
    var scheme: string
    var params: map<string, string>
    var token68: Option<string>
    var valid: bool

    function Built(): Challenge
      reads this
    {
      Challenge(scheme, params, token68, valid)
    }

    constructor (name: string)
      ensures Built() == Fresh(name)
    {
      scheme, params, token68, valid := Lower(name), map[], None, true;
    }

    method AddParam(name: string, raw: string)
      modifies this
      ensures Built() == WithParam(old(Built()), name, raw)
    {
      var key := Lower(name);
      var value := Unquote(Strip(raw));
      if value.None? || key in params || token68.Some? {
        valid := false;
        return;
      }
      if !ControlFree(value.value) {
        valid := false;
        return;
      }
      params := params[key := value.value];
    }
  }

  method ParseChallenges(headers: seq<string>) returns (challenges: seq<Challenge>)
    ensures challenges == ParsedLines(headers)
  {
    hide Split, Parsed, Unreadable;
    challenges := [];
    for i := 0 to |headers|
      invariant challenges == ParsedLines(headers[..i])
    {
      assert headers[..i + 1][..i] == headers[..i];
      var value := headers[i];
      var elements := SplitElements(value);
      if elements.None? {
        challenges := challenges + [Unreadable(value)];
        continue;
      }
      var line := ParseElements(elements.value);
      challenges := challenges + line;
    }
    assert headers[..|headers|] == headers;
  }

  // The walk of parse_challenges over one value's elements.
  method ParseElements(elements: seq<string>) returns (challenges: seq<Challenge>)
    ensures challenges == Parsed(elements, [], None)
  {
    hide ParamOf, MatchScheme, WithParam, Opened, Lower;
    challenges := [];
    var current: Builder? := null;
    assert elements[0..] == elements;
    for i := 0 to |elements|
      invariant current == null || fresh(current)
      invariant Parsed(elements, [], None) == Parsed(elements[i..], challenges, Current(current))
    {
      var e := elements[i];
      assert elements[i..][1..] == elements[i + 1..];
      if e == [] { continue; }
      var p := ParamOf(e);
      if p.Some? {
        if current != null {
          current.AddParam(p.value.0, p.value.1);
        } else {
          current := new Builder("");
          current.valid := false;
          assert current.Built() == Nameless;
        }
        continue;
      }
      var s := MatchScheme(e);
      if s.None? {
        if current != null { current.valid := false; }
        continue;
      }
      assert challenges + [] == challenges;
      if current != null { challenges := challenges + [current.Built()]; }
      current := Open(s.value.0, s.value.1);
    }
    if current != null { challenges := challenges + [current.Built()]; }
  }

  // A builder for a scheme and what follows it in the same element.
  method Open(scheme: string, after: string) returns (b: Builder)
    ensures fresh(b) && b.Built() == Opened(scheme, after)
  {
    b := new Builder(scheme);
    var rest := Strip(after);
    if rest == [] { return; }
    var first := ParamOf(rest);
    if first.Some? {
      b.AddParam(first.value.0, first.value.1);
    } else if IsToken68(rest) {
      b.token68 := Some(rest);
    } else {
      b.valid := false;
    }
  }

  function Current(b: Builder?): Option<Challenge>
    reads b
  {
    if b == null then None else Some(b.Built())
  }
}
