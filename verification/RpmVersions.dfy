/** The order rpm gives version strings (rpmvercmp), on mapped versions. */
module RpmVersions {
  import opened Options
  import opened Digits
  import opened PackageVersions

  predicate IsAlpha(c: char) { 'a' <= c <= 'z' || 'A' <= c <= 'Z' }

  // Past separators: anything but digits, letters, the tilde and the caret.
  function Skip(s: string): (r: string)
    ensures |r| <= |s|
  {
    if s == [] || IsDigit(s[0]) || IsAlpha(s[0]) || s[0] == '~' || s[0] == '^' then s else Skip(s[1..])
  }

  function AlphaLen(s: string): (n: nat)
    ensures n <= |s|
  {
    if s == [] || !IsAlpha(s[0]) then 0 else 1 + AlphaLen(s[1..])
  }

  function StrCmp(p: string, q: string): int {
    if p == [] || q == [] then Sign(|p|, |q|)
    else Then(Sign(p[0] as int, q[0] as int), StrCmp(p[1..], q[1..]))
  }

  predicate Starts(s: string, c: char) { s != [] && s[0] == c }

  // Segments by turns: a tilde sorts before everything, a caret after the end only, a number
  // after letters, and what is left over after what has ended.
  function RpmCmp(a: string, b: string): int
    decreases |a| + |b|
  {
    var (x, y) := (Skip(a), Skip(b));
    if Starts(x, '~') || Starts(y, '~') then
      if !Starts(x, '~') then 1 else if !Starts(y, '~') then -1 else RpmCmp(x[1..], y[1..])
    else if Starts(x, '^') || Starts(y, '^') then
      if x == [] then -1 else if y == [] then 1
      else if !Starts(x, '^') then 1 else if !Starts(y, '^') then -1 else RpmCmp(x[1..], y[1..])
    else if x == [] || y == [] then Sign(|x|, |y|)
    else if IsDigit(x[0]) then
      var (m, n) := (DigitLen(x), DigitLen(y));
      if n == 0 then 1 else Then(Sign(Val(x[..m]), Val(y[..n])), RpmCmp(x[m..], y[n..]))
    else
      var (m, n) := (AlphaLen(x), AlphaLen(y));
      if n == 0 then -1 else Then(StrCmp(x[..m], y[..n]), RpmCmp(x[m..], y[n..]))
  }

  lemma RpmNumbers(d: string, x: string, e: string, y: string)
    requires IsNumber(d) && IsNumber(e) && EndsNumber(x) && EndsNumber(y)
    ensures RpmCmp(d + x, e + y) == Then(Sign(Val(d), Val(e)), RpmCmp(x, y))
  {
    hide DigitLen, Val, StrCmp, AlphaLen;
    var (a, b) := (d + x, e + y);
    assert a[0] == d[0] && b[0] == e[0] && Skip(a) == a && Skip(b) == b;
    DigitLenOf(d, x);
    DigitLenOf(e, y);
    assert a[..|d|] == d && a[|d|..] == x && b[..|e|] == e && b[|e|..] == y;
  }

  predicate AllAlpha(s: string) { forall i :: 0 <= i < |s| ==> IsAlpha(s[i]) }

  lemma {:induction false} AlphaLenOf(p: string, rest: string)
    requires AllAlpha(p) && StartsNumber(rest)
    ensures AlphaLen(p + rest) == |p|
  {
    if p == [] {
      assert p + rest == rest;
    } else {
      assert (p + rest)[0] == p[0] && (p + rest)[1..] == p[1..] + rest;
      AlphaLenOf(p[1..], rest);
    }
  }

  // Comparing past a leading word.
  lemma RpmWords(p: string, x: string, q: string, y: string)
    requires p != [] && q != [] && AllAlpha(p) && AllAlpha(q) && StartsNumber(x) && StartsNumber(y)
    ensures RpmCmp(p + x, q + y) == Then(StrCmp(p, q), RpmCmp(x, y))
  {
    var (a, b) := (p + x, q + y);
    assert a[0] == p[0] && b[0] == q[0] && Skip(a) == a && Skip(b) == b;
    AlphaLenOf(p, x);
    AlphaLenOf(q, y);
    assert a[..|p|] == p && a[|p|..] == x && b[..|q|] == q && b[|q|..] == y;
  }

  // A separator in front changes nothing.
  lemma RpmSkips(c: char, x: string, b: string)
    requires c == '.' || c == '+'
    ensures RpmCmp([c] + x, b) == RpmCmp(x, b) && RpmCmp(b, [c] + x) == RpmCmp(b, x)
  {
    assert ([c] + x)[0] == c && ([c] + x)[1..] == x && Skip([c] + x) == Skip(x);
  }

  // The tilde against the tilde, and against anything that does not lead to one.
  lemma RpmTildes(x: string, y: string)
    ensures RpmCmp("~" + x, "~" + y) == RpmCmp(x, y)
    ensures !Starts(Skip(y), '~') ==> RpmCmp("~" + x, y) == -1 && RpmCmp(y, "~" + x) == 1
  {
    assert ("~" + x)[1..] == x && ("~" + y)[1..] == y;
    assert Skip("~" + x) == "~" + x && Skip("~" + y) == "~" + y;
  }

  lemma {:induction false} SameWord(p: string)
    ensures StrCmp(p, p) == 0
  {
    if p != [] { SameWord(p[1..]); }
  }

  lemma RpmEmpty(y: string)
    requires y != [] && (IsDigit(y[0]) || IsAlpha(y[0]))
    ensures RpmCmp([], y) == -1 && RpmCmp(y, []) == 1 && RpmCmp([], []) == 0 && Skip(y) == y && !Starts(Skip(y), '~')
  {}

  lemma RpmLone(d: string, e: string)
    requires IsNumber(d) && IsNumber(e)
    ensures RpmCmp(d, e) == Sign(Val(d), Val(e))
  {
    RpmNumbers(d, [], e, []);
    assert d + [] == d && e + [] == e && RpmCmp([], []) == 0;
  }

  // A word and a number against the same word and a number.
  lemma RpmTagged(p: string, d: string, e: string)
    requires p != [] && AllAlpha(p) && IsNumber(d) && IsNumber(e)
    ensures RpmCmp(p + d, p + e) == Sign(Val(d), Val(e))
  {
    RpmWords(p, d, p, e);
    SameWord(p);
    RpmLone(d, e);
  }

  // What follows a release or an rc: nothing, or a separator, a word and the rest.
  lemma TailForms(v: Version)
    requires Supported(v)
    ensures v.dev.Some? ==> Tail(v) == "~" + ("dev" + v.dev.value)
    ensures v.dev.None? && v.post.Some? ==> Tail(v) == "+" + ("post" + v.post.value)
    ensures v.dev.None? && v.post.None? ==> Tail(v) == []
    ensures v.rc.Some? ==> Mapped(v) == "~" + ("rc" + (v.rc.value + Tail(v)))
    ensures v.rc.None? ==> Mapped(v) == Tail(v)
  {}

  // A post part, seen past its separator.
  lemma RpmPost(v: Version, b: string)
    requires Supported(v) && v.post.Some?
    ensures RpmCmp(Tail(v), b) == RpmCmp("post" + v.post.value, b)
    ensures RpmCmp(b, Tail(v)) == RpmCmp(b, "post" + v.post.value)
    ensures !Starts(Skip(Tail(v)), '~')
  {
    hide RpmCmp;
    TailForms(v);
    RpmSkips('+', "post" + v.post.value, b);
    var s := "+" + ("post" + v.post.value);
    assert s[1..] == "post" + v.post.value && Skip(s) == Skip(s[1..]) && s[1..][0] == 'p';
  }

  lemma RpmTailsAgree(a: Version, b: Version)
    requires Supported(a) && Supported(b)
    ensures RpmCmp(Tail(a), Tail(b)) == TailCmp(a, b)
  {
    hide RpmCmp, Val, Tail, Skip, IsNumber;
    TailForms(a);
    TailForms(b);
    if a.post.Some? { PostFacts(a, Tail(b)); }
    if b.post.Some? { PostFacts(b, Tail(a)); if a.post.Some? { RpmPost(b, "post" + a.post.value); } }
    NoTilde();
    if a.dev.Some? { RpmTildes("dev" + a.dev.value, if b.dev.Some? then "dev" + b.dev.value else Tail(b)); }
    else if b.dev.Some? { RpmTildes("dev" + b.dev.value, Tail(a)); }
    if a.dev.Some? && b.dev.Some? { RpmTagged("dev", a.dev.value, b.dev.value); }
    if a.post.Some? && b.post.Some? { RpmTagged("post", a.post.value, b.post.value); }
  }

  lemma PostFacts(v: Version, b: string)
    requires Supported(v) && v.post.Some?
    ensures RpmCmp(Tail(v), b) == RpmCmp("post" + v.post.value, b)
    ensures RpmCmp(b, Tail(v)) == RpmCmp(b, "post" + v.post.value)
    ensures !Starts(Skip(Tail(v)), '~') && Val(v.post.value) >= 0
    ensures RpmCmp([], "post" + v.post.value) == -1 && RpmCmp("post" + v.post.value, []) == 1
  {
    hide RpmCmp, Tail;
    RpmPost(v, b);
    ValNonNegative(v.post.value);
    RpmEmpty("post" + v.post.value);
  }

  lemma NoTilde()
    ensures RpmCmp([], []) == 0 && !Starts(Skip([]), '~')
  {}

  // The rc part against whatever else can follow a release.
  lemma RpmRcCmp(a: Version, b: Version)
    requires Supported(a) && Supported(b) && a.rc.Some? && b.rc.None?
    ensures RpmCmp(Mapped(a), Mapped(b)) == SuffixCmp(a, b) && RpmCmp(Mapped(b), Mapped(a)) == SuffixCmp(b, a)
  {
    hide RpmCmp, Val, Tail, Mapped, Skip, IsNumber;
    TailForms(a);
    TailForms(b);
    TailIs(a);
    var x := a.rc.value + Tail(a);
    if b.dev.Some? {
      RpmTildes("rc" + x, "dev" + b.dev.value);
      RpmTildes("dev" + b.dev.value, "rc" + x);
      RcStarts(a);
      NumberStarts(b.dev.value);
      RpmWords("rc", x, "dev", b.dev.value);
      RpmWords("dev", b.dev.value, "rc", x);
      assert StrCmp("rc", "dev") == 1 && StrCmp("dev", "rc") == -1;
    } else {
      NoTilde();
      if b.post.Some? { PostFacts(b, []); }
      RpmTildes("rc" + x, Tail(b));
    }
  }

  lemma RcStarts(v: Version)
    requires Supported(v) && v.rc.Some?
    ensures StartsNumber(v.rc.value + Tail(v))
  {}

  lemma NumberStarts(d: string)
    requires IsNumber(d)
    ensures StartsNumber(d)
  {}

  lemma RpmMappedAgree(a: Version, b: Version)
    requires Supported(a) && Supported(b)
    ensures RpmCmp(Mapped(a), Mapped(b)) == SuffixCmp(a, b)
  {
    hide RpmCmp, Val, Tail, Mapped, Skip, IsNumber, StrCmp;
    if a.rc.Some? && b.rc.Some? {
      TailForms(a);
      TailForms(b);
      TailIs(a);
      TailIs(b);
      var (x, y) := (a.rc.value + Tail(a), b.rc.value + Tail(b));
      RcStarts(a);
      RcStarts(b);
      RpmTildes("rc" + x, "rc" + y);
      RpmWords("rc", x, "rc", y);
      SameWord("rc");
      RpmNumbers(a.rc.value, Tail(a), b.rc.value, Tail(b));
      RpmTailsAgree(a, b);
    } else if a.rc.Some? {
      RpmRcCmp(a, b);
    } else if b.rc.Some? {
      RpmRcCmp(b, a);
    } else {
      TailForms(a);
      TailForms(b);
      RpmTailsAgree(a, b);
      if a.post.Some? { PostFacts(a, []); }
      if b.post.Some? { PostFacts(b, []); }
    }
  }

  // Against another release component, whatever follows a release sorts first.
  lemma RpmMappedBeforeDot(v: Version, rest: string)
    requires Supported(v) && rest != [] && IsDigit(rest[0])
    ensures RpmCmp(Mapped(v), "." + rest) == -1 && RpmCmp("." + rest, Mapped(v)) == 1
  {
    hide RpmCmp, Tail, Mapped, IsNumber;
    TailForms(v);
    RpmSkips('.', rest, Mapped(v));
    RpmEmpty(rest);
    if v.rc.Some? {
      RpmTildes("rc" + (v.rc.value + Tail(v)), rest);
    } else if v.dev.Some? {
      RpmTildes("dev" + v.dev.value, rest);
    } else if v.post.Some? {
      RpmPost(v, rest);
      WordBeforeNumber("post" + v.post.value, rest);
    }
  }

  lemma WordBeforeNumber(w: string, rest: string)
    requires w != [] && IsAlpha(w[0]) && rest != [] && IsDigit(rest[0])
    ensures RpmCmp(w, rest) == -1 && RpmCmp(rest, w) == 1
  {
    hide Val, StrCmp;
  }

  lemma {:induction false} RpmReleasesCompare(r: seq<string>, q: seq<string>, a: Version, b: Version)
    requires Supported(a) && Supported(b) && r != [] && q != []
    requires (forall i :: 0 <= i < |r| ==> IsNumber(r[i])) && (forall i :: 0 <= i < |q| ==> IsNumber(q[i]))
    ensures RpmCmp(JoinDots(r) + Mapped(a), JoinDots(q) + Mapped(b))
            == Then(CommonCmp(r, q), if |r| == |q| then SuffixCmp(a, b) else Sign(|r|, |q|))
    decreases |r|
  {
    hide RpmCmp, Val, SuffixCmp, Mapped;
    var (x, y) := (AfterFirst(r, Mapped(a)), AfterFirst(q, Mapped(b)));
    MappedEnds(a);
    MappedEnds(b);
    AfterFirstEnds(r, Mapped(a));
    AfterFirstEnds(q, Mapped(b));
    RpmNumbers(r[0], x, q[0], y);
    if |r| == 1 && |q| == 1 {
      RpmMappedAgree(a, b);
    } else if |r| == 1 {
      RpmMappedBeforeDot(a, JoinDots(q[1..]) + Mapped(b));
    } else if |q| == 1 {
      RpmMappedBeforeDot(b, JoinDots(r[1..]) + Mapped(a));
    } else {
      var (s, t) := (JoinDots(r[1..]) + Mapped(a), JoinDots(q[1..]) + Mapped(b));
      RpmSkips('.', s, "." + t);
      RpmSkips('.', t, s);
      RpmReleasesCompare(r[1..], q[1..], a, b);
    }
  }

  /** rpm and dpkg give any two mapped versions the same order, so rpm keeps the PEP 440 order
      under exactly the same condition. */
  lemma RpmOrderIsKept(s: string, t: string)
    requires MapVersion(s).Some? && MapVersion(t).Some?
    ensures RpmCmp(MapVersion(s).value.Full(), MapVersion(t).value.Full())
            == VerCmp(MapVersion(s).value.Full(), MapVersion(t).value.Full())
    ensures var (a, b) := (Match(s).value, Match(t).value);
            RpmCmp(MapVersion(s).value.Full(), MapVersion(t).value.Full()) == PepCmp(a, b)
            <==> || |a.release| == |b.release|
                 || ReleaseCmp(a.release, b.release) != 0
                 || SuffixCmp(a, b) == Sign(|a.release|, |b.release|)
  {
    hide VerCmp, RpmCmp, Val, SuffixCmp, Mapped, ReleaseCmp, Fields, PackageVersion.Full;
    var (a, b) := (Match(s).value, Match(t).value);
    MatchIsValid(s);
    MatchIsValid(t);
    FullIs(a);
    FullIs(b);
    ReleasesCompare(a.release, b.release, a, b);
    RpmReleasesCompare(a.release, b.release, a, b);
    OrderIsKept(s, t);
  }
}
