/** The mapping from PEP 440 versions to .deb and .rpm versions, and the order it must keep:
    PEP 440's on one side, section 5.6.12 of the Debian Policy Manual on the other.
 */
module PackageVersions {
  import opened Options
  import opened Digits

  predicate IsNumber(s: string) { s != [] && AllDigits(s) }

  // ---------------------------------------------------------------------------------------
  // map_version
  // ---------------------------------------------------------------------------------------

  // A matched version: its numbers as they are written.
  datatype Version = Version(release: seq<string>, rc: Option<string>, post: Option<string>, dev: Option<string>) {
    predicate Valid() {
      && release != [] && (forall i :: 0 <= i < |release| ==> IsNumber(release[i]))
      && (rc.Some? ==> IsNumber(rc.value)) && (post.Some? ==> IsNumber(post.value))
      && (dev.Some? ==> IsNumber(dev.value))
    }
  }

  function JoinDots(parts: seq<string>): string {
    if parts == [] then [] else if |parts| == 1 then parts[0] else parts[0] + "." + JoinDots(parts[1..])
  }

  // \d+(?:\.\d+)* from the start of the text, and what follows.
  function MatchRelease(s: string): (r: (seq<string>, string))
    decreases |s|
  {
    var n := DigitLen(s);
    if n == 0 then ([], s)
    else if n + 1 < |s| && s[n] == '.' && IsDigit(s[n + 1]) then
      var (more, rest) := MatchRelease(s[n + 1..]);
      ([s[..n]] + more, rest)
    else ([s[..n]], s[n..])
  }

  // (?:prefix(\d+))? from the start of the text, and what follows.
  function MatchTagged(s: string, prefix: string): (Option<string>, string) {
    if prefix <= s && DigitLen(s[|prefix|..]) > 0 then
      var n := |prefix| + DigitLen(s[|prefix|..]);
      (Some(s[|prefix|..n]), s[n..])
    else (None, s)
  }

  // The whole expression. Its end may stand before a final newline, as Python's $ may.
  function Match(s: string): Option<Version> {
    var (release, s1) := MatchRelease(s);
    var (rc, s2) := MatchTagged(s1, "rc");
    var (post, s3) := MatchTagged(s2, ".post");
    var (dev, s4) := MatchTagged(s3, ".dev");
    if release == [] || (s4 != [] && s4 != "\n") then None else Some(Version(release, rc, post, dev))
  }

  datatype PackageVersion = PackageVersion(version: string, prerelease: string, metadata: string) {
    function Full(): string {
      version + (if prerelease != [] then "~" + prerelease else []) + (if metadata != [] then "+" + metadata else [])
    }
  }

  function Fields(v: Version): PackageVersion {
    var pre := (if v.rc.Some? then ["rc" + v.rc.value] else []) + (if v.dev.Some? then ["dev" + v.dev.value] else []);
    var joined := if pre == [] then [] else if |pre| == 1 then pre[0] else pre[0] + "~" + pre[1];
    PackageVersion(JoinDots(v.release), joined, if v.post.Some? then "post" + v.post.value else [])
  }

  // The package fields of a supported version string; nothing for a refused one.
  function MapVersion(pep440: string): Option<PackageVersion> {
    match Match(pep440)
    case None => None
    case Some(v) => if v.post.Some? && v.dev.Some? then None else Some(Fields(v))
  }

  // A version as PEP 440 writes it.
  function Text(v: Version): string {
    JoinDots(v.release) + Suffix("rc", v.rc) + Suffix(".post", v.post) + Suffix(".dev", v.dev)
  }

  function Suffix(prefix: string, n: Option<string>): string { if n.Some? then prefix + n.value else [] }

  lemma TaggedReadBack(prefix: string, n: Option<string>, rest: string)
    requires n.Some? ==> IsNumber(n.value)
    requires EndsNumber(rest) && (n.None? ==> !(prefix <= rest))
    ensures MatchTagged(Suffix(prefix, n) + rest, prefix) == (n, rest)
  {
    var s := Suffix(prefix, n) + rest;
    if n.Some? {
      assert s == prefix + (n.value + rest) && s[|prefix|..] == n.value + rest;
      DigitLenOf(n.value, rest);
      assert s[|prefix|..|prefix| + |n.value|] == n.value && s[|prefix| + |n.value|..] == rest;
    } else {
      assert s == rest;
    }
  }

  lemma MatchReleaseMore(d: string, tail: string)
    requires IsNumber(d) && tail != [] && IsDigit(tail[0])
    ensures MatchRelease(d + "." + tail) == ([d] + MatchRelease(tail).0, MatchRelease(tail).1)
  {
    var s := d + "." + tail;
    assert s == d + ("." + tail);
    DigitLenOf(d, "." + tail);
    assert s[..|d|] == d && s[|d|] == '.' && s[|d| + 1..] == tail && s[|d| + 1] == tail[0];
  }

  lemma MatchReleaseLast(d: string, rest: string)
    requires IsNumber(d) && EndsNumber(rest) && (|rest| > 1 && rest[0] == '.' ==> !IsDigit(rest[1]))
    ensures MatchRelease(d + rest) == ([d], rest)
  {
    DigitLenOf(d, rest);
    assert (d + rest)[..|d|] == d && (d + rest)[|d|..] == rest;
  }

  lemma {:induction false} ReleaseReadBack(parts: seq<string>, rest: string)
    requires parts != [] && (forall i :: 0 <= i < |parts| ==> IsNumber(parts[i]))
    requires EndsNumber(rest) && (|rest| > 1 && rest[0] == '.' ==> !IsDigit(rest[1]))
    ensures MatchRelease(JoinDots(parts) + rest) == (parts, rest)
  {
    hide MatchRelease, IsNumber;
    if |parts| == 1 {
      MatchReleaseLast(parts[0], rest);
      assert parts == [parts[0]];
    } else {
      var tail := JoinDots(parts[1..]) + rest;
      assert JoinDots(parts) + rest == parts[0] + "." + tail;
      JoinedStarts(parts[1..]);
      MatchReleaseMore(parts[0], tail);
      ReleaseReadBack(parts[1..], rest);
      assert [parts[0]] + parts[1..] == parts;
    }
  }

  // What may follow the version: Python's $ also matches before a final newline.
  predicate IsEnd(s: string) { s == "" || s == "\n" }

  // Every version of the grammar is matched with the numbers it was written with.
  lemma MatchReadsBack(v: Version, end: string)
    requires v.Valid() && IsEnd(end)
    ensures Match(Text(v) + end) == Some(v)
  {
    hide MatchRelease, MatchTagged, Suffix, JoinDots, IsNumber;
    var s3 := Suffix(".dev", v.dev) + end;
    var s2 := Suffix(".post", v.post) + s3;
    var s1 := Suffix("rc", v.rc) + s2;
    assert Text(v) + end == JoinDots(v.release) + s1;
    SuffixStarts(v, end);
    ReleaseReadBack(v.release, s1);
    TaggedReadBack("rc", v.rc, s2);
    TaggedReadBack(".post", v.post, s3);
    TaggedReadBack(".dev", v.dev, end);
  }

  // None of the parts after a release reads as one of the others, or as another number.
  lemma SuffixStarts(v: Version, end: string)
    requires IsEnd(end)
    ensures var s3 := Suffix(".dev", v.dev) + end;
            var s2 := Suffix(".post", v.post) + s3;
            var s1 := Suffix("rc", v.rc) + s2;
            && EndsNumber(s3) && EndsNumber(s2) && EndsNumber(s1) && !(".post" <= s3) && !("rc" <= s2)
            && !(".dev" <= end) && EndsNumber(end)
            && (|s1| > 1 && s1[0] == '.' ==> !IsDigit(s1[1]))
  {
    var s3 := Suffix(".dev", v.dev) + end;
    var s2 := Suffix(".post", v.post) + s3;
    assert v.dev.Some? ==> s3[0] == '.' && s3[1] == 'd' && ".post"[1] == 'p';
    assert v.dev.None? ==> s3 == end;
    assert v.post.Some? ==> s2[0] == '.' && s2[1] == 'p';
    assert v.post.None? ==> s2 == s3;
    assert "rc"[0] == 'r';
  }

  lemma JoinDotsWith(d: string, more: seq<string>, rest: string)
    requires more != []
    ensures JoinDots([d] + more) + rest == d + "." + (JoinDots(more) + rest)
  {
    assert ([d] + more)[1..] == more;
    assert JoinDots([d] + more) == d + "." + JoinDots(more);
  }

  lemma CutAtDot(s: string, n: nat)
    requires n < |s| && s[n] == '.'
    ensures s == s[..n] + "." + s[n + 1..]
  {}

  lemma {:induction false} ReleaseIsRead(s: string)
    ensures var (release, rest) := MatchRelease(s);
            && s == JoinDots(release) + rest
            && forall i :: 0 <= i < |release| ==> IsNumber(release[i])
    decreases |s|
  {
    hide JoinDots, DigitLen;
    var n := DigitLen(s);
    if n == 0 {
      assert JoinDots([]) + s == s by { NoDots(s); }
    } else if n + 1 < |s| && s[n] == '.' && IsDigit(s[n + 1]) {
      var tail := s[n + 1..];
      ReleaseIsRead(tail);
      var (more, rest) := MatchRelease(tail);
      assert tail[0] == s[n + 1] && more != [] by { StartsRelease(tail); }
      JoinDotsWith(s[..n], more, rest);
      CutAtDot(s, n);
    } else {
      assert s == s[..n] + s[n..] && JoinDots([s[..n]]) == s[..n] by { OneDots(s[..n]); }
    }
  }

  lemma StartsRelease(s: string)
    requires s != [] && IsDigit(s[0])
    ensures MatchRelease(s).0 != []
  {}

  lemma NoDots(s: string)
    ensures JoinDots([]) + s == s
  {}

  lemma OneDots(d: string)
    ensures JoinDots([d]) == d
  {}

  lemma TaggedIsRead(s: string, prefix: string)
    ensures var (n, rest) := MatchTagged(s, prefix);
            s == Suffix(prefix, n) + rest && (n.Some? ==> IsNumber(n.value))
  {
    if prefix <= s && DigitLen(s[|prefix|..]) > 0 {
      var k := |prefix| + DigitLen(s[|prefix|..]);
      assert s[|prefix|..k] == s[|prefix|..][..DigitLen(s[|prefix|..])];
      assert s == prefix + s[|prefix|..k] + s[k..];
    }
  }

  // A string that is matched is the version written out.
  lemma MatchIsText(s: string) returns (end: string)
    requires Match(s).Some?
    ensures Match(s).value.Valid() && IsEnd(end) && s == Text(Match(s).value) + end
  {
    hide MatchRelease, MatchTagged, JoinDots, Suffix, IsNumber;
    var (release, s1) := MatchRelease(s);
    var (rc, s2) := MatchTagged(s1, "rc");
    var (post, s3) := MatchTagged(s2, ".post");
    var (dev, s4) := MatchTagged(s3, ".dev");
    ReleaseIsRead(s);
    TaggedIsRead(s1, "rc");
    TaggedIsRead(s2, ".post");
    TaggedIsRead(s3, ".dev");
    end := s4;
  }

  /** A string is matched as a version exactly when it is that version written out, alone or
      before a final newline. */
  lemma MatchIsExact(s: string, v: Version)
    ensures Match(s) == Some(v) <==> v.Valid() && (s == Text(v) || s == Text(v) + "\n")
  {
    hide Match, Text;
    if Match(s) == Some(v) {
      var end := MatchIsText(s);
      assert Text(v) + "" == Text(v);
    }
    if v.Valid() {
      MatchReadsBack(v, "");
      MatchReadsBack(v, "\n");
      assert Text(v) + "" == Text(v);
    }
  }

  /** So a string is refused exactly when it is no version of the grammar, or one with both a
      .post and a .dev part. */
  lemma RefusedExactly(s: string)
    ensures MapVersion(s).None? <==>
            forall v: Version :: v.Valid() && (s == Text(v) || s == Text(v) + "\n") ==> v.post.Some? && v.dev.Some?
  {
    hide Match, Text, Version.Valid, Fields;
    forall v: Version ensures Match(s) == Some(v) <==> v.Valid() && (s == Text(v) || s == Text(v) + "\n") {
      MatchIsExact(s, v);
    }
  }

  /** What a supported version is mapped to, spelled out. */
  lemma MappedTo(v: Version)
    requires v.Valid() && !(v.post.Some? && v.dev.Some?)
    ensures MapVersion(Text(v)).Some?
    ensures MapVersion(Text(v)).value.version == JoinDots(v.release)
    ensures MapVersion(Text(v)).value.Full() ==
            JoinDots(v.release) + Suffix("~rc", v.rc) + Suffix("~dev", v.dev) + Suffix("+post", v.post)
  {
    hide Match, Text, JoinDots, Version.Valid;
    MatchIsExact(Text(v), v);
    var f := Fields(v);
    assert MapVersion(Text(v)) == Some(f);
    FullIs(v);
    var rc, tail := Suffix("~rc", v.rc), Suffix("~dev", v.dev) + Suffix("+post", v.post);
    assert JoinDots(v.release) + (rc + tail) ==
           JoinDots(v.release) + rc + Suffix("~dev", v.dev) + Suffix("+post", v.post);
  }

  lemma {:induction false} DotsCharacters(parts: seq<string>)
    requires forall i :: 0 <= i < |parts| ==> IsNumber(parts[i])
    ensures forall c :: c in JoinDots(parts) ==> c == '.' || IsDigit(c)
  {
    if |parts| > 1 { DotsCharacters(parts[1..]); }
  }

  // Alphas, betas, epochs, local parts and spellings with other characters are refused.
  lemma OddCharacterIsRefused(s: string, i: nat)
    requires i < |s| && !IsDigit(s[i]) && s[i] !in ".rcpostdev\n"
    ensures MapVersion(s) == None
  {
    hide Match, JoinDots, Fields;
    assert s[i] in s;
    if Match(s).Some? {
      var end := MatchIsText(s);
      TextCharacters(Match(s).value, end);
    }
  }

  lemma TextCharacters(v: Version, end: string)
    requires v.Valid() && IsEnd(end)
    ensures forall c :: c in Text(v) + end ==> IsDigit(c) || c in ".rcpostdev\n"
  {
    hide JoinDots;
    DotsCharacters(v.release);
    SuffixCharacters("rc", v.rc);
    SuffixCharacters(".post", v.post);
    SuffixCharacters(".dev", v.dev);
  }

  lemma SuffixCharacters(prefix: string, n: Option<string>)
    requires (n.Some? ==> IsNumber(n.value)) && (prefix == "rc" || prefix == ".post" || prefix == ".dev")
    ensures forall c :: c in Suffix(prefix, n) ==> IsDigit(c) || c in ".rcpostdev\n"
  {}

  // ---------------------------------------------------------------------------------------
  // The two orders
  // ---------------------------------------------------------------------------------------

  function Sign(x: int, y: int): int { if x < y then -1 else if x == y then 0 else 1 }

  function Then(c: int, d: int): int { if c != 0 then c else d }

  // PEP 440: releases number by number, the shorter padded with zeros.
  function ReleaseCmp(a: seq<string>, b: seq<string>): int
    decreases |a| + |b|
  {
    if a == [] && b == [] then 0
    else
      Then(Sign(if a == [] then 0 else Val(a[0]), if b == [] then 0 else Val(b[0])),
           ReleaseCmp(if a == [] then [] else a[1..], if b == [] then [] else b[1..]))
  }

  // PEP 440: a bare dev release sorts before every rc, an rc before the release itself.
  function PreRank(v: Version): int {
    if v.rc.Some? then 1 else if v.post.None? && v.dev.Some? then 0 else 2
  }

  function NumberOf(n: Option<string>, absent: int): int { if n.Some? then Val(n.value) else absent }

  function SuffixCmp(a: Version, b: Version): int {
    Then(Sign(PreRank(a), PreRank(b)),
    Then(Sign(NumberOf(a.rc, 0), NumberOf(b.rc, 0)),
    Then(Sign(NumberOf(a.post, -1), NumberOf(b.post, -1)),
    Then(Sign(if a.dev.Some? then 0 else 1, if b.dev.Some? then 0 else 1),
         Sign(NumberOf(a.dev, 0), NumberOf(b.dev, 0))))))
  }

  function PepCmp(a: Version, b: Version): int { Then(ReleaseCmp(a.release, b.release), SuffixCmp(a, b)) }

  // Debian: the tilde sorts before the end of a part, letters before non-letters.
  function Order(c: char): int {
    if c == '~' then -1
    else if 'a' <= c <= 'z' || 'A' <= c <= 'Z' then c as int
    else c as int + 256
  }

  function LexCmp(p: string, q: string): int
    decreases |p|
  {
    var o := Sign(if p == [] then 0 else Order(p[0]), if q == [] then 0 else Order(q[0]));
    if o != 0 || p == [] || q == [] then o else LexCmp(p[1..], q[1..])
  }

  function NonDigitLen(s: string): (n: nat)
    ensures n <= |s| && (n < |s| ==> IsDigit(s[n]))
  {
    if s == [] || IsDigit(s[0]) then 0 else 1 + NonDigitLen(s[1..])
  }

  // Debian: non-digit parts and numbers by turns, from left to right.
  function VerCmp(a: string, b: string): int
    decreases |a| + |b|
  {
    if a == [] && b == [] then 0
    else
      var (p, q) := (NonDigitLen(a), NonDigitLen(b));
      var (a1, b1) := (a[p..], b[q..]);
      var (m, n) := (DigitLen(a1), DigitLen(b1));
      assert a != [] ==> p > 0 || m > 0;
      assert b != [] ==> q > 0 || n > 0;
      Then(LexCmp(a[..p], b[..q]), Then(Sign(Val(a1[..m]), Val(b1[..n])), VerCmp(a1[m..], b1[n..])))
  }

  // ---------------------------------------------------------------------------------------
  // One order is the other
  // ---------------------------------------------------------------------------------------

  predicate NoDigits(s: string) { forall i :: 0 <= i < |s| ==> !IsDigit(s[i]) }

  predicate StartsNumber(s: string) { s == [] || IsDigit(s[0]) }

  lemma {:induction false} NonDigitLenOf(p: string, rest: string)
    requires NoDigits(p) && StartsNumber(rest)
    ensures NonDigitLen(p + rest) == |p|
  {
    if p == [] {
      assert p + rest == rest;
    } else {
      assert (p + rest)[0] == p[0] && (p + rest)[1..] == p[1..] + rest;
      NonDigitLenOf(p[1..], rest);
    }
  }

  // Comparing past a leading number.
  lemma CmpNumbers(d: string, x: string, e: string, y: string)
    requires IsNumber(d) && IsNumber(e) && EndsNumber(x) && EndsNumber(y)
    ensures VerCmp(d + x, e + y) == Then(Sign(Val(d), Val(e)), VerCmp(x, y))
  {
    var (a, b) := (d + x, e + y);
    assert NonDigitLen(a) == 0 && NonDigitLen(b) == 0 && a[0..] == a && b[0..] == b;
    DigitLenOf(d, x);
    DigitLenOf(e, y);
    assert a[..|d|] == d && a[|d|..] == x && b[..|e|] == e && b[|e|..] == y;
    assert LexCmp(a[..0], b[..0]) == 0;
  }

  // Comparing past a leading non-digit part.
  lemma CmpParts(p: string, x: string, q: string, y: string)
    requires NoDigits(p) && NoDigits(q) && StartsNumber(x) && StartsNumber(y)
    ensures VerCmp(p + x, q + y) == Then(LexCmp(p, q), VerCmp(x, y))
  {
    var (a, b) := (p + x, q + y);
    NonDigitLenOf(p, x);
    NonDigitLenOf(q, y);
    assert a[..|p|] == p && a[|p|..] == x && b[..|q|] == q && b[|q|..] == y;
    assert NonDigitLen(x) == 0 && NonDigitLen(y) == 0 && x[0..] == x && y[0..] == y && x[..0] == [] && y[..0] == [];
    assert LexCmp([], []) == 0 && VerCmp([], []) == 0 && Val([]) == 0;
    if x == [] && y == [] { assert DigitLen(x) == 0 && DigitLen(y) == 0; }
  }

  // What the mapping puts after the release: the rc part, then at most one of dev and post.
  function Tail(v: Version): string { Suffix("~dev", v.dev) + Suffix("+post", v.post) }

  function Mapped(v: Version): string { Suffix("~rc", v.rc) + Tail(v) }

  predicate Supported(v: Version) { v.Valid() && !(v.post.Some? && v.dev.Some?) }

  lemma FullIs(v: Version)
    requires Supported(v)
    ensures Fields(v).Full() == JoinDots(v.release) + Mapped(v)
  {
    hide JoinDots, IsNumber;
    PrereleaseIs(v);
    MetadataIs(v);
    JoinThree(JoinDots(v.release), Suffix("~rc", v.rc), Suffix("~dev", v.dev), Suffix("+post", v.post));
  }

  lemma JoinThree(r: string, a: string, b: string, c: string)
    ensures r + (a + b) + c == r + (a + (b + c))
  {}

  lemma MetadataIs(v: Version)
    ensures var meta := Fields(v).metadata;
            (if meta != [] then "+" + meta else []) == Suffix("+post", v.post)
  {
    hide JoinDots;
    if v.post.Some? { assert "+" + ("post" + v.post.value) == "+post" + v.post.value; }
  }

  lemma PrereleaseIs(v: Version)
    ensures var pre := Fields(v).prerelease;
            (if pre != [] then "~" + pre else []) == Suffix("~rc", v.rc) + Suffix("~dev", v.dev)
  {
    hide JoinDots;
    var pre := Fields(v).prerelease;
    if v.rc.Some? && v.dev.Some? {
      assert "~" + pre == ("~rc" + v.rc.value) + ("~dev" + v.dev.value);
    } else if v.rc.Some? {
      assert "~" + pre == "~rc" + v.rc.value;
    } else if v.dev.Some? {
      assert "~" + pre == "~dev" + v.dev.value;
    }
  }

  // How the parts that can follow a release or an rc compare: ~dev, ~rc, nothing, +post, a dot.
  lemma PartsOrder()
    ensures LexCmp("~dev", "~rc") == -1 && LexCmp("~dev", []) == -1 && LexCmp("~dev", "+post") == -1
    ensures LexCmp("~rc", []) == -1 && LexCmp("~rc", "+post") == -1 && LexCmp([], "+post") == -1
    ensures LexCmp("~rc", "~dev") == 1 && LexCmp([], "~dev") == 1 && LexCmp("+post", "~dev") == 1
    ensures LexCmp([], "~rc") == 1 && LexCmp("+post", "~rc") == 1 && LexCmp("+post", []) == 1
    ensures LexCmp("~dev", ".") == LexCmp("~rc", ".") == LexCmp([], ".") == LexCmp("+post", ".") == -1
    ensures LexCmp(".", "~dev") == LexCmp(".", "~rc") == LexCmp(".", []) == LexCmp(".", "+post") == 1
    ensures LexCmp("~dev", "~dev") == LexCmp("~rc", "~rc") == LexCmp("+post", "+post") == 0
    ensures LexCmp([], []) == LexCmp(".", ".") == 0
  {
    assert "~dev"[1..] == "dev" && "~rc"[1..] == "rc";
    SameParts("~dev");
    SameParts("~rc");
    SameParts("+post");
    SameParts(".");
  }

  lemma {:induction false} SameParts(p: string)
    ensures LexCmp(p, p) == 0
  {
    if p != [] { SameParts(p[1..]); }
  }

  // The first part and the number of a tail, with what follows them.
  function TailPart(v: Version): string { if v.dev.Some? then "~dev" else if v.post.Some? then "+post" else [] }
  function TailNumber(v: Version): string {
    if v.dev.Some? then v.dev.value else if v.post.Some? then v.post.value else []
  }

  lemma TailIs(v: Version)
    requires Supported(v)
    ensures Tail(v) == TailPart(v) + TailNumber(v) && EndsNumber(Tail(v))
    ensures NoDigits(TailPart(v)) && StartsNumber(TailNumber(v))
  {}

  lemma CmpLone(d: string, e: string)
    requires IsNumber(d) && IsNumber(e)
    ensures VerCmp(d, e) == Sign(Val(d), Val(e))
  {
    CmpNumbers(d, [], e, []);
    assert d + [] == d && e + [] == e && VerCmp([], []) == 0;
  }

  // After equal rc parts, dev sorts before nothing and nothing before post.
  function TailCmp(a: Version, b: Version): int {
    Then(Sign(NumberOf(a.post, -1), NumberOf(b.post, -1)),
    Then(Sign(if a.dev.Some? then 0 else 1, if b.dev.Some? then 0 else 1),
         Sign(NumberOf(a.dev, 0), NumberOf(b.dev, 0))))
  }

  lemma TailsAgree(a: Version, b: Version)
    requires Supported(a) && Supported(b)
    ensures VerCmp(Tail(a), Tail(b)) == TailCmp(a, b)
  {
    hide VerCmp, LexCmp, Val, Tail;
    TailIs(a);
    TailIs(b);
    CmpParts(TailPart(a), TailNumber(a), TailPart(b), TailNumber(b));
    PartsOrder();
    if a.post.Some? { ValNonNegative(a.post.value); }
    if b.post.Some? { ValNonNegative(b.post.value); }
    EmptyCmp();
    if a.dev.Some? && b.dev.Some? { CmpLone(a.dev.value, b.dev.value); }
    if a.post.Some? && b.post.Some? { CmpLone(a.post.value, b.post.value); }
  }

  lemma EmptyCmp()
    ensures VerCmp([], []) == 0 && LexCmp([], []) == 0
  {}

  // An rc part against a version without one.
  lemma RcAgrees(a: Version, b: Version)
    requires Supported(a) && Supported(b) && a.rc.Some? && b.rc.None?
    ensures VerCmp(Mapped(a), Mapped(b)) == SuffixCmp(a, b) && VerCmp(Mapped(b), Mapped(a)) == SuffixCmp(b, a)
  {
    hide VerCmp, LexCmp, Val, Tail, TailNumber;
    TailIs(a);
    TailIs(b);
    PartsOrder();
    assert Mapped(a) == "~rc" + (a.rc.value + Tail(a)) && Mapped(b) == TailPart(b) + TailNumber(b);
    CmpParts("~rc", a.rc.value + Tail(a), TailPart(b), TailNumber(b));
    CmpParts(TailPart(b), TailNumber(b), "~rc", a.rc.value + Tail(a));
  }

  // An rc part stands first, then its number, then the rest.
  lemma RcIsFirst(v: Version)
    requires Supported(v) && v.rc.Some?
    ensures Mapped(v) == "~rc" + (v.rc.value + Tail(v)) && IsNumber(v.rc.value) && EndsNumber(Tail(v))
    ensures StartsNumber(v.rc.value + Tail(v)) && NoDigits("~rc")
  {
    hide Tail;
    TailIs(v);
  }

  lemma BothRcAgree(a: Version, b: Version)
    requires Supported(a) && Supported(b) && a.rc.Some? && b.rc.Some?
    ensures VerCmp(Mapped(a), Mapped(b)) == SuffixCmp(a, b)
  {
    RcIsFirst(a);
    RcIsFirst(b);
    TailsAgree(a, b);
    SameParts("~rc");
    hide VerCmp, LexCmp, Val, Tail, Mapped, Supported, NoDigits, StartsNumber, EndsNumber, IsNumber;
    CmpParts("~rc", a.rc.value + Tail(a), "~rc", b.rc.value + Tail(b));
    CmpNumbers(a.rc.value, Tail(a), b.rc.value, Tail(b));
  }

  lemma MappedAgree(a: Version, b: Version)
    requires Supported(a) && Supported(b)
    ensures VerCmp(Mapped(a), Mapped(b)) == SuffixCmp(a, b)
  {
    hide VerCmp, LexCmp, Val, Tail;
    if a.rc.Some? && b.rc.Some? {
      BothRcAgree(a, b);
    } else if a.rc.Some? {
      RcAgrees(a, b);
    } else if b.rc.Some? {
      RcAgrees(b, a);
    } else {
      assert Mapped(a) == Tail(a) && Mapped(b) == Tail(b);
      TailsAgree(a, b);
      if a.post.Some? { ValNonNegative(a.post.value); }
      if b.post.Some? { ValNonNegative(b.post.value); }
    }
  }

  // What follows a release is a part that sorts before a dot, and then a number if anything.
  lemma MappedParts(v: Version) returns (p: string, x: string)
    requires Supported(v)
    ensures Mapped(v) == p + x && NoDigits(p) && StartsNumber(x)
    ensures LexCmp(p, ".") == -1 && LexCmp(".", p) == 1
  {
    hide LexCmp, JoinDots;
    TailIs(v);
    PartsOrder();
    if v.rc.Some? { p, x := "~rc", v.rc.value + Tail(v); } else { p, x := TailPart(v), TailNumber(v); }
  }

  // Against a dot, whatever follows a release sorts first.
  lemma MappedBeforeDot(v: Version, rest: string)
    requires Supported(v) && rest != [] && IsDigit(rest[0])
    ensures VerCmp(Mapped(v), "." + rest) == -1 && VerCmp("." + rest, Mapped(v)) == 1
  {
    hide VerCmp, LexCmp, Mapped, Supported;
    var p, x := MappedParts(v);
    CmpParts(p, x, ".", rest);
    CmpParts(".", rest, p, x);
  }

  // Releases number by number, over the components both have.
  function CommonCmp(a: seq<string>, b: seq<string>): int {
    if a == [] || b == [] then 0 else Then(Sign(Val(a[0]), Val(b[0])), CommonCmp(a[1..], b[1..]))
  }

  lemma {:induction false} ReleasesCompare(r: seq<string>, q: seq<string>, a: Version, b: Version)
    requires Supported(a) && Supported(b) && r != [] && q != []
    requires (forall i :: 0 <= i < |r| ==> IsNumber(r[i])) && (forall i :: 0 <= i < |q| ==> IsNumber(q[i]))
    ensures VerCmp(JoinDots(r) + Mapped(a), JoinDots(q) + Mapped(b))
            == Then(CommonCmp(r, q), if |r| == |q| then SuffixCmp(a, b) else Sign(|r|, |q|))
    decreases |r|
  {
    hide VerCmp, LexCmp, Val, SuffixCmp, Mapped;
    var (x, y) := (AfterFirst(r, Mapped(a)), AfterFirst(q, Mapped(b)));
    MappedEnds(a);
    MappedEnds(b);
    AfterFirstEnds(r, Mapped(a));
    AfterFirstEnds(q, Mapped(b));
    CmpNumbers(r[0], x, q[0], y);
    if |r| == 1 && |q| == 1 {
      MappedAgree(a, b);
    } else if |r| == 1 {
      MappedBeforeDot(a, JoinDots(q[1..]) + Mapped(b));
    } else if |q| == 1 {
      MappedBeforeDot(b, JoinDots(r[1..]) + Mapped(a));
    } else {
      PartsOrder();
      CmpParts(".", JoinDots(r[1..]) + Mapped(a), ".", JoinDots(q[1..]) + Mapped(b));
      ReleasesCompare(r[1..], q[1..], a, b);
    }
  }

  // What follows the first component of a release.
  function AfterFirst(r: seq<string>, m: string): string
    requires r != []
  {
    if |r| == 1 then m else "." + (JoinDots(r[1..]) + m)
  }

  lemma AfterFirstEnds(r: seq<string>, m: string)
    requires EndsNumber(m) && r != [] && (|r| > 1 ==> IsNumber(r[1]))
    ensures EndsNumber(AfterFirst(r, m)) && JoinDots(r) + m == r[0] + AfterFirst(r, m)
    ensures |r| > 1 ==> JoinDots(r[1..]) + m != [] && IsDigit((JoinDots(r[1..]) + m)[0])
  {
    hide IsNumber;
    if |r| > 1 {
      JoinedStarts(r[1..]);
      JoinDotsMore(r);
      hide JoinDots;
      DotInFront(r[0], JoinDots(r[1..]), m);
    } else {
      assert JoinDots(r) == r[0];
    }
  }

  lemma JoinDotsMore(r: seq<string>)
    requires |r| > 1
    ensures JoinDots(r) == r[0] + "." + JoinDots(r[1..])
  {}

  lemma DotInFront(d: string, rest: string, m: string)
    ensures d + "." + rest + m == d + ("." + (rest + m)) && EndsNumber("." + (rest + m))
    ensures rest != [] ==> rest + m != [] && (rest + m)[0] == rest[0]
  {}

  lemma JoinedStarts(r: seq<string>)
    requires r != [] && IsNumber(r[0])
    ensures JoinDots(r) != [] && IsDigit(JoinDots(r)[0])
  {
    assert |r| > 1 ==> JoinDots(r)[0] == r[0][0];
  }

  lemma MappedEnds(v: Version)
    requires Supported(v)
    ensures EndsNumber(Mapped(v))
  {
    TailIs(v);
  }

  lemma {:induction false} PaddedReleases(r: seq<string>, q: seq<string>)
    requires (forall i :: 0 <= i < |r| ==> IsNumber(r[i])) && (forall i :: 0 <= i < |q| ==> IsNumber(q[i]))
    ensures CommonCmp(r, q) != 0 ==> ReleaseCmp(r, q) == CommonCmp(r, q)
    ensures CommonCmp(r, q) == 0 ==> ReleaseCmp(r, q) == 0 || ReleaseCmp(r, q) == Sign(|r|, |q|)
    ensures |r| == |q| ==> ReleaseCmp(r, q) == CommonCmp(r, q)
    decreases |r| + |q|
  {
    hide Val;
    if r != [] { ValNonNegative(r[0]); }
    if q != [] { ValNonNegative(q[0]); }
    if r != [] && q != [] { PaddedReleases(r[1..], q[1..]); }
    else if r != [] { PaddedReleases(r[1..], []); }
    else if q != [] { PaddedReleases([], q[1..]); }
  }

  /** The dpkg order of two mapped versions is the PEP 440 order of the versions exactly when
      they have as many release components, or releases that differ once padded with zeros,
      or the one with fewer components sorts first by its suffix. */
  lemma OrderIsKept(s: string, t: string)
    requires MapVersion(s).Some? && MapVersion(t).Some?
    ensures var (a, b) := (Match(s).value, Match(t).value);
            VerCmp(MapVersion(s).value.Full(), MapVersion(t).value.Full()) == PepCmp(a, b)
            <==> || |a.release| == |b.release|
                 || ReleaseCmp(a.release, b.release) != 0
                 || SuffixCmp(a, b) == Sign(|a.release|, |b.release|)
  {
    hide VerCmp, Val, SuffixCmp, Mapped, ReleaseCmp, Fields, PackageVersion.Full;
    var (a, b) := (Match(s).value, Match(t).value);
    MatchIsValid(s);
    MatchIsValid(t);
    FullIs(a);
    FullIs(b);
    ReleasesCompare(a.release, b.release, a, b);
    PaddedReleases(a.release, b.release);
  }

  lemma {:induction false} MatchReleaseIsValid(s: string)
    ensures forall i :: 0 <= i < |MatchRelease(s).0| ==> IsNumber(MatchRelease(s).0[i])
    decreases |s|
  {
    var n := DigitLen(s);
    if n > 0 && n + 1 < |s| && s[n] == '.' && IsDigit(s[n + 1]) { MatchReleaseIsValid(s[n + 1..]); }
  }

  lemma MatchIsValid(s: string)
    requires Match(s).Some?
    ensures Match(s).value.Valid()
  {
    hide MatchRelease, MatchTagged;
    var (release, s1) := MatchRelease(s);
    var (rc, s2) := MatchTagged(s1, "rc");
    var (post, s3) := MatchTagged(s2, ".post");
    MatchReleaseIsValid(s);
    MatchTaggedIsValid(s1, "rc");
    MatchTaggedIsValid(s2, ".post");
    MatchTaggedIsValid(s3, ".dev");
  }

  lemma MatchTaggedIsValid(s: string, prefix: string)
    ensures MatchTagged(s, prefix).0.Some? ==> IsNumber(MatchTagged(s, prefix).0.value)
  {
    if prefix <= s {
      var n := DigitLen(s[|prefix|..]);
      assert s[|prefix|..|prefix| + n] == s[|prefix|..][..n];
    }
  }

  // 1.0 and 1.0.0 are one version to PEP 440, but 1.0 is the older one to dpkg.
  lemma CountsMatter()
    ensures var (a, b) := (Version(["1", "0"], None, None, None), Version(["1", "0", "0"], None, None, None));
            PepCmp(a, b) == 0 && VerCmp(Fields(a).Full(), Fields(b).Full()) == -1
  {
    var (a, b) := (Version(["1", "0"], None, None, None), Version(["1", "0", "0"], None, None, None));
    FullIs(a);
    FullIs(b);
    ReleasesCompare(a.release, b.release, a, b);
  }
}
