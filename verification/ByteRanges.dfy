/** Range requests for render playback: the single range of a Range header (section 14.1.2 of
    RFC 9110) and the chunked stream of the bytes it names.
 */
module ByteRanges {
  import opened Options
  import opened Digits
  import opened Ints

  const STREAM_CHUNK := 64 * 1024

  // The two digit groups of ^bytes=(\d{0,19})-(\d{0,19})$ on a stripped header.
  function MatchRange(s: string): (m: Option<(string, string)>)
    ensures m.Some? ==> AllDigits(m.value.0) && AllDigits(m.value.1)
  {
    if !("bytes=" <= s) then None
    else
      var rest := s[6..];
      var n := DigitLen(rest);
      if n > 19 || n >= |rest| || rest[n] != '-' then None
      else
        var last := rest[n + 1..];
        if |last| > 19 || DigitLen(last) != |last| then None else Some((rest[..n], last))
  }

  // The range to serve as inclusive positions, or nothing for the whole file. header is the
  // stripped value, empty when absent.
  function ParseRange(header: string, size: nat): Option<(int, int)> {
    var m := MatchRange(header);
    if header == [] || size == 0 || m.None? then None
    else
      var (first, last) := m.value;
      if first == [] && last == [] then None
      else if first == [] then
        if Val(last) == 0 then None else Some((if size < Val(last) then 0 else size - Val(last), size - 1))
      else
        var start := Val(first);
        var wanted := if last != [] then Val(last) else size - 1;
        var end := if wanted < size - 1 then wanted else size - 1;
        if start >= size || end < start then None else Some((start, end))
  }

  // ---------------------------------------------------------------------------------------
  // What the standard names
  // ---------------------------------------------------------------------------------------

  // first-pos "-" [ last-pos ], or "-" suffix-length.
  datatype RangeSpec = IntRange(first: int, last: Option<int>) | SuffixRange(length: int)

  // Whether a byte position is selected from a representation of the given size.
  predicate Selects(r: RangeSpec, size: nat, i: int) {
    && 0 <= i < size
    && match r
       case IntRange(first, last) => first <= i && (last.Some? ==> i <= last.value)
       case SuffixRange(length) => size - length <= i
  }

  // Up to 19 digits, as many as a file position may need.
  predicate IsBound(s: string) { AllDigits(s) && |s| <= 19 }

  lemma MatchRangeOnly(s: string)
    requires MatchRange(s).Some?
    ensures var (first, last) := MatchRange(s).value;
            IsBound(first) && IsBound(last) && s == "bytes=" + first + "-" + last
  {
    hide DigitLen;
    var (first, last) := MatchRange(s).value;
    var rest := s[6..];
    assert s == "bytes=" + rest && rest == first + "-" + last;
  }

  lemma MatchRangeOf(first: string, last: string)
    requires IsBound(first) && IsBound(last)
    ensures MatchRange("bytes=" + first + "-" + last) == Some((first, last))
  {
    hide DigitLen;
    var s, rest := "bytes=" + first + "-" + last, first + ("-" + last);
    assert s == "bytes=" + rest && s[6..] == rest && "bytes=" <= s;
    DigitLenOf(first, "-" + last);
    assert rest[..|first|] == first && rest[|first|] == '-' && rest[|first| + 1..] == last;
    DigitLenOf(last, []);
    assert last + [] == last;
  }

  /** The header is matched with two groups exactly when it is those groups, written out. */
  lemma MatchRangeIsExact(s: string, first: string, last: string)
    ensures MatchRange(s) == Some((first, last)) <==>
            IsBound(first) && IsBound(last) && s == "bytes=" + first + "-" + last
  {
    hide MatchRange;
    if MatchRange(s).Some? { MatchRangeOnly(s); }
    if IsBound(first) && IsBound(last) { MatchRangeOf(first, last); }
  }

  // The header text names the range: first-last, first- or -suffix.
  predicate IsText(first: string, last: string, r: RangeSpec) {
    match r
    case IntRange(f, Some(l)) => first != [] && last != [] && f == Val(first) && l == Val(last)
    case IntRange(f, None) => first != [] && last == [] && f == Val(first)
    case SuffixRange(n) => first == [] && last != [] && n == Val(last)
  }

  ghost predicate Names(header: string, r: RangeSpec) {
    exists first, last :: && IsBound(first) && IsBound(last) && header == "bytes=" + first + "-" + last
                          && IsText(first, last, r)
  }

  lemma NamesIs(header: string, r: RangeSpec)
    ensures Names(header, r) <==>
            MatchRange(header).Some? && IsText(MatchRange(header).value.0, MatchRange(header).value.1, r)
  {
    hide MatchRange, IsText;
    if Names(header, r) {
      var first, last :| && IsBound(first) && IsBound(last) && header == "bytes=" + first + "-" + last
                         && IsText(first, last, r);
      MatchRangeIsExact(header, first, last);
    }
    if MatchRange(header).Some? { MatchRangeIsExact(header, MatchRange(header).value.0, MatchRange(header).value.1); }
  }

  // What the two groups come to.
  lemma GroupsAreRight(header: string, size: nat, r: RangeSpec)
    requires MatchRange(header).Some? && IsText(MatchRange(header).value.0, MatchRange(header).value.1, r)
    ensures var range := ParseRange(header, size);
            && (range.Some? ==> && 0 <= range.value.0 <= range.value.1 < size
                                && forall i :: Selects(r, size, i) <==> range.value.0 <= i <= range.value.1)
            && (range.None? <==> forall i :: !Selects(r, size, i))
  {
    hide MatchRange, Val;
    assert header != [] by { MatchNeedsText(header); }
    var (first, last) := MatchRange(header).value;
    ValNonNegative(first);
    ValNonNegative(last);
    var range := ParseRange(header, size);
    if range.Some? { assert Selects(r, size, range.value.0); }
  }

  /** An accepted range lies inside the file and holds exactly the bytes that the range the header
      spells names; the whole file is served exactly when the header spells no range, or one that
      names no byte. */
  lemma RangeIsRight(header: string, size: nat)
    ensures var range := ParseRange(header, size);
            && (range.Some? ==> 0 <= range.value.0 <= range.value.1 < size && exists r :: Names(header, r))
            && (forall r :: Names(header, r) && range.Some? ==>
                  forall i :: Selects(r, size, i) <==> range.value.0 <= i <= range.value.1)
            && (range.None? <==> forall r, i :: Names(header, r) ==> !Selects(r, size, i))
  {
    hide MatchRange, Val, Names;
    var range := ParseRange(header, size);
    forall r | Names(header, r)
      ensures range.Some? ==> forall i :: Selects(r, size, i) <==> range.value.0 <= i <= range.value.1
      ensures range.None? ==> forall i :: !Selects(r, size, i)
    {
      NamesIs(header, r);
      GroupsAreRight(header, size, r);
    }
    if range.Some? {
      var (first, last) := MatchRange(header).value;
      var r := if first == [] then SuffixRange(Val(last))
               else IntRange(Val(first), if last == [] then None else Some(Val(last)));
      NamesIs(header, r);
      GroupsAreRight(header, size, r);
      assert Names(header, r) && Selects(r, size, range.value.0);
    }
  }

  lemma MatchNeedsText(header: string)
    ensures MatchRange(header).Some? ==> header != []
  {}

  /** The three forms, with their numbers written out. */
  lemma RangesServed(first: nat, last: nat, size: nat)
    requires |Decimal(first)| <= 19 && |Decimal(last)| <= 19
    ensures ParseRange("bytes=" + Decimal(first) + "-" + Decimal(last), size) ==
            if first < size && first <= last then Some((first, Min(last, size - 1))) else None
    ensures ParseRange("bytes=" + Decimal(first) + "-", size) ==
            if first < size then Some((first, size - 1)) else None
    ensures ParseRange("bytes=-" + Decimal(last), size) ==
            if size > 0 && last > 0 then Some((Max(0, size - last), size - 1)) else None
  {
    hide MatchRange, Val, Decimal;
    ValOfDecimal(first);
    ValOfDecimal(last);
    MatchRangeIsExact("bytes=" + Decimal(first) + "-" + Decimal(last), Decimal(first), Decimal(last));
    assert "bytes=" + Decimal(first) + "-" + [] == "bytes=" + Decimal(first) + "-";
    MatchRangeIsExact("bytes=" + Decimal(first) + "-", Decimal(first), []);
    assert "bytes=" + [] + "-" + Decimal(last) == "bytes=-" + Decimal(last);
    MatchRangeIsExact("bytes=-" + Decimal(last), [], Decimal(last));
  }

  // ---------------------------------------------------------------------------------------
  // The stream
  // ---------------------------------------------------------------------------------------

  function Concat(chunks: seq<seq<Byte>>): seq<Byte> {
    if chunks == [] then [] else Concat(chunks[..|chunks| - 1]) + chunks[|chunks| - 1]
  }

  lemma ConcatMore(chunks: seq<seq<Byte>>, chunk: seq<Byte>)
    ensures Concat(chunks + [chunk]) == Concat(chunks) + chunk
  {
    assert (chunks + [chunk])[..|chunks|] == chunks;
  }

  // What one read gives: at most what is asked and left, and something unless nothing is left.
  function ReadSize(asked: nat, left: nat, short: nat): (given: nat)
    ensures given <= asked && given <= left && (given == 0 <==> asked == 0 || left == 0)
    ensures short == 0 ==> given == asked || given == left
  {
    var most := if asked < left then asked else left;
    if most == 0 then 0 else if short < most then most - short else 1
  }

  /** However short the reads, the chunks are the requested bytes in order, as far as the file
      goes, each chunk nonempty and at most 64 KiB; with full reads all but the last are 64 KiB.
      `short` says how much less than asked each read gives; a read gives nothing only at the end
      of the file. */
  method IterFileRange(content: seq<Byte>, start: nat, length: nat, short: nat -> nat) returns (chunks: seq<seq<Byte>>)
    ensures Concat(chunks) == content[Min(start, |content|)..Min(start + length, |content|)]
    ensures forall i :: 0 <= i < |chunks| ==> 0 < |chunks[i]| <= 64 * 1024
    ensures (forall n :: short(n) == 0) ==> forall i :: 0 <= i < |chunks| - 1 ==> |chunks[i]| == 64 * 1024
  {
    hide Concat, ReadSize;
    var remaining, position := length, Min(start, |content|);
    chunks := [];
    ghost var from := position;
    NoChunks();
    while remaining > 0
      invariant 0 <= remaining && from <= position <= |content|
      invariant position == start + length - remaining || (position == |content| <= start && remaining == length)
      invariant Concat(chunks) == content[from..position]
      invariant forall i :: 0 <= i < |chunks| ==> 0 < |chunks[i]| <= STREAM_CHUNK
      invariant (forall n :: short(n) == 0) ==> forall i :: 0 <= i < |chunks| - 1 ==> |chunks[i]| == 64 * 1024
      invariant (forall n :: short(n) == 0) && chunks != [] && remaining > 0 && position < |content| ==>
                  |chunks[|chunks| - 1]| == 64 * 1024
    {
      var given := ReadSize(Min(STREAM_CHUNK, remaining), |content| - position, short(|chunks|));
      var chunk := content[position..position + given];
      if chunk == [] { break; }
      ConcatMore(chunks, chunk);
      assert content[from..position] + chunk == content[from..position + given];
      remaining, position := remaining - |chunk|, position + |chunk|;
      chunks := chunks + [chunk];
    }
  }

  lemma NoChunks()
    ensures Concat([]) == []
  {}

  /** A served range streams exactly the named bytes, as many as the declared Content-Length. */
  method ServeRange(content: seq<Byte>, header: string, short: nat -> nat) returns (r: Option<(int, seq<seq<Byte>>)>)
    ensures r.None? <==> ParseRange(header, |content|).None?
    ensures r.Some? ==> var (start, end) := ParseRange(header, |content|).value;
                        && r.value.0 == end - start + 1 == |Concat(r.value.1)|
                        && 0 <= start <= end < |content| && Concat(r.value.1) == content[start..end + 1]
  {
    var range := ParseRange(header, |content|);
    RangeIsRight(header, |content|);
    if range.None? { return None; }
    var (start, end) := range.value;
    var chunks := IterFileRange(content, start, end - start + 1, short);
    return Some((end - start + 1, chunks));
  }
}
