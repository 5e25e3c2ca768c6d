/** The two walks over JPEG marker segments (Annex B of ITU-T T.81): the one that reads the
    frame size from the first SOF header and the one that finds the Exif payload.
 */
module JpegSegments {
  import opened Options
  import opened Ints

  type Bytes = seq<Byte>

  predicate IsSof(m: Byte) { 0xC0 <= m <= 0xCF && m != 0xC4 && m != 0xC8 && m != 0xCC }

  // SOI, EOI and the restart markers.
  predicate IsStandalone(m: Byte) { 0xD0 <= m <= 0xD9 }

  function U16(hi: Byte, lo: Byte): int { hi * 256 + lo }

  const EXIF_ID: Bytes := [0x45, 0x78, 0x69, 0x66, 0, 0]

  predicate IsExif(payload: Bytes): (yes: bool)
    ensures yes ==> |payload| >= 6
  {
    EXIF_ID <= payload
  }

  // ---------------------------------------------------------------------------------------
  // The walks
  // ---------------------------------------------------------------------------------------

  // (width, height) from the first SOF header in what is left of the data.
  function Dimensions(s: Bytes): Option<(int, int)> {
    if |s| < 2 then None
    else if s[0] != 0xFF || s[1] == 0xFF then Dimensions(s[1..])
    else if IsStandalone(s[1]) then Dimensions(s[2..])
    else if |s| < 4 || U16(s[2], s[3]) < 2 then None
    else if IsSof(s[1]) then if |s| < 9 then None else Some((U16(s[7], s[8]), U16(s[5], s[6])))
    else if 2 + U16(s[2], s[3]) > |s| then None
    else Dimensions(s[2 + U16(s[2], s[3])..])
  }

  // The data after the Exif identifier of the first Exif APP1 segment before the scan.
  function Exif(s: Bytes): Option<Bytes> {
    if |s| < 2 then None
    else if s[0] != 0xFF || s[1] == 0xFF then Exif(s[1..])
    else if IsStandalone(s[1]) then Exif(s[2..])
    else if s[1] == 0xDA || |s| < 4 || U16(s[2], s[3]) < 2 then None
    else
      var n := 2 + U16(s[2], s[3]);
      var payload := s[4..if n <= |s| then n else |s|];
      if s[1] == 0xE1 && IsExif(payload) then Some(payload[6..])
      else if n > |s| then None
      else Exif(s[n..])
  }

  // What is left of the data from an offset that may lie past its end.
  function From(data: Bytes, offset: nat): Bytes { if offset <= |data| then data[offset..] else [] }

  // One step of the walk, in terms of offsets into the data.
  lemma DimensionsAt(data: Bytes, offset: nat)
    requires offset + 1 < |data|
    ensures var m := data[offset + 1];
            Dimensions(From(data, offset)) ==
              if data[offset] != 0xFF || m == 0xFF then Dimensions(From(data, offset + 1))
              else if IsStandalone(m) then Dimensions(From(data, offset + 2))
              else if offset + 4 > |data| || U16(data[offset + 2], data[offset + 3]) < 2 then None
              else if IsSof(m) then
                if offset + 9 > |data| then None
                else Some((U16(data[offset + 7], data[offset + 8]), U16(data[offset + 5], data[offset + 6])))
              else Dimensions(From(data, offset + 2 + U16(data[offset + 2], data[offset + 3])))
  {
    hide IsSof, IsStandalone, U16;
    var s := data[offset..];
    assert s[1..] == data[offset + 1..] && s[2..] == data[offset + 2..];
    if offset + 4 <= |data| && U16(s[2], s[3]) >= 2 {
      var n := 2 + U16(s[2], s[3]);
      assert n <= |s| ==> s[n..] == data[offset + n..];
    }
  }

  method JpegDimensions(data: Bytes) returns (r: Option<(int, int)>)
    ensures r == Dimensions(From(data, 2))
  {
    hide Dimensions;
    var offset, length := 2, |data|;
    while offset + 1 < length
      invariant Dimensions(From(data, 2)) == Dimensions(From(data, offset))
      decreases length - offset
    {
      DimensionsAt(data, offset);
      if data[offset] != 0xFF {
        offset := offset + 1;
        continue;
      }
      var marker := data[offset + 1];
      offset := offset + 2;
      if marker == 0xFF {
        offset := offset - 1;
        continue;
      }
      if IsStandalone(marker) { continue; }
      if offset + 2 > length { return None; }
      var segmentLen := U16(data[offset], data[offset + 1]);
      if segmentLen < 2 { return None; }
      if IsSof(marker) {
        if offset + 7 > length { return None; }
        var height, width := U16(data[offset + 3], data[offset + 4]), U16(data[offset + 5], data[offset + 6]);
        return Some((width, height));
      }
      offset := offset + segmentLen;
    }
    NothingInShort(From(data, offset));
    return None;
  }

  // One step of the search, in terms of offsets into the data.
  lemma ExifAt(data: Bytes, offset: nat)
    requires offset + 1 < |data|
    ensures var m := data[offset + 1];
            Exif(From(data, offset)) ==
              if data[offset] != 0xFF || m == 0xFF then Exif(From(data, offset + 1))
              else if IsStandalone(m) then Exif(From(data, offset + 2))
              else if m == 0xDA || offset + 4 > |data| || U16(data[offset + 2], data[offset + 3]) < 2 then None
              else
                var end := offset + 2 + U16(data[offset + 2], data[offset + 3]);
                var payload := data[offset + 4..if end <= |data| then end else |data|];
                if m == 0xE1 && IsExif(payload) then Some(payload[6..]) else Exif(From(data, end))
  {
    hide IsExif;
    var s := data[offset..];
    if offset + 4 <= |data| && U16(s[2], s[3]) >= 2 {
      var n := 2 + U16(s[2], s[3]);
      assert s[4..if n <= |s| then n else |s|] == data[offset + 4..if offset + n <= |data| then offset + n else |data|];
      assert n <= |s| ==> s[n..] == data[offset + n..];
    }
  }

  method FindExifSegment(data: Bytes) returns (r: Option<Bytes>)
    ensures r == Exif(From(data, 2))
  {
    hide Exif, IsExif;
    var offset, length := 2, |data|;
    while offset + 1 < length
      invariant Exif(From(data, 2)) == Exif(From(data, offset))
      decreases length - offset
    {
      ExifAt(data, offset);
      if data[offset] != 0xFF {
        offset := offset + 1;
        continue;
      }
      var marker := data[offset + 1];
      offset := offset + 2;
      if marker == 0xFF {
        offset := offset - 1;
        continue;
      }
      if IsStandalone(marker) { continue; }
      if marker == 0xDA { return None; }
      if offset + 2 > length { return None; }
      var segmentLen := U16(data[offset], data[offset + 1]);
      if segmentLen < 2 { return None; }
      var payloadStart, payloadEnd := offset + 2, offset + segmentLen;
      if marker == 0xE1 {
        var payload := data[payloadStart..if payloadEnd <= length then payloadEnd else length];
        if IsExif(payload) { return Some(payload[6..]); }
      }
      offset := offset + segmentLen;
    }
    NothingInShort(From(data, offset));
    return None;
  }

  lemma NothingInShort(s: Bytes)
    requires |s| < 2
    ensures Dimensions(s) == None && Exif(s) == None
  {}

  // ---------------------------------------------------------------------------------------
  // The grammar
  // ---------------------------------------------------------------------------------------

  // The frame headers of table B.1 of T.81: SOF0 to SOF15 without DHT, JPG and DAC.
  predicate StartsFrame(m: Byte) {
    || m == 0xC0 || m == 0xC1 || m == 0xC2 || m == 0xC3 || m == 0xC5 || m == 0xC6 || m == 0xC7
    || m == 0xC9 || m == 0xCA || m == 0xCB || m == 0xCD || m == 0xCE || m == 0xCF
  }

  // The markers without a length, TEM aside: RST0 to RST7, SOI and EOI.
  predicate StandsAlone(m: Byte) {
    || m == 0xD0 || m == 0xD1 || m == 0xD2 || m == 0xD3 || m == 0xD4 || m == 0xD5 || m == 0xD6 || m == 0xD7
    || m == 0xD8 || m == 0xD9
  }

  const ExifIdentifier: Bytes := ['E' as int, 'x' as int, 'i' as int, 'f' as int, 0, 0]

  // What can stand before the header looked for. Any marker may have fill bytes before it.
  // Junk is a stray byte between segments, which both walks step over.
  datatype Item =
    | Junk(b: Byte)
    | Standalone(fill: nat, marker: Byte)
    | Segment(fill: nat, marker: Byte, payload: Bytes)

  function Fill(n: nat): Bytes { seq(n, _ => 0xFF) }

  // A 16-bit length field.
  function Length(n: nat): Bytes { [n / 256 % 256, n % 256] }

  predicate WellFormed(i: Item) {
    match i
    case Junk(b) => b != 0xFF
    case Standalone(_, m) => StandsAlone(m)
    case Segment(_, m, p) => m != 0xFF && !StandsAlone(m) && |p| + 2 < 0x10000
  }

  // A segment without its fill bytes.
  function Bare(m: Byte, p: Bytes): Bytes { [0xFF, m] + Length(|p| + 2) + p }

  function Encode(i: Item): Bytes {
    match i
    case Junk(b) => [b]
    case Standalone(fill, m) => Fill(fill) + [0xFF, m]
    case Segment(fill, m, p) => Fill(fill) + Bare(m, p)
  }

  function EncodeAll(items: seq<Item>): Bytes {
    if items == [] then [] else Encode(items[0]) + EncodeAll(items[1..])
  }

  // The first nine bytes of a frame header: marker, length, precision, height, width.
  datatype Frame = Frame(fill: nat, marker: Byte, length: nat, precision: Byte, height: nat, width: nat) {
    predicate Valid() {
      StartsFrame(marker) && 2 <= length < 0x10000 && height < 0x10000 && width < 0x10000
    }
  }

  function FrameHead(f: Frame): Bytes {
    [0xFF, f.marker] + Length(f.length) + [f.precision] + Length(f.height) + Length(f.width)
  }

  function EncodeFrame(f: Frame): Bytes { Fill(f.fill) + FrameHead(f) }

  // ---------------------------------------------------------------------------------------
  // The walks read the grammar
  // ---------------------------------------------------------------------------------------

  lemma LengthReads(n: nat)
    requires n < 0x10000
    ensures U16(Length(n)[0], Length(n)[1]) == n
  {}

  lemma {:induction false} SkipFill(n: nat, rest: Bytes)
    requires rest != [] && rest[0] == 0xFF
    ensures Dimensions(Fill(n) + rest) == Dimensions(rest) && Exif(Fill(n) + rest) == Exif(rest)
  {
    if n == 0 {
      assert Fill(n) + rest == rest;
    } else {
      var s := Fill(n) + rest;
      assert s[1..] == Fill(n - 1) + rest;
      assert s[0] == 0xFF && s[1] == 0xFF;
      SkipFill(n - 1, rest);
    }
  }

  // Before the frame header: anything but another frame header.
  predicate NotFrame(i: Item) { WellFormed(i) && (i.Segment? ==> !StartsFrame(i.marker)) }

  // Before the Exif segment: anything but the scan or another Exif segment.
  predicate NotExif(i: Item) {
    WellFormed(i) && (i.Segment? ==> i.marker != 0xDA && !(i.marker == 0xE1 && ExifIdentifier <= i.payload))
  }

  lemma BareReads(m: Byte, p: Bytes, rest: Bytes)
    requires |p| + 2 < 0x10000
    ensures var s := Bare(m, p) + rest;
            && |s| == 4 + |p| + |rest| && s[0] == 0xFF && s[1] == m && U16(s[2], s[3]) == |p| + 2
            && s[4..4 + |p|] == p && s[4 + |p|..] == rest
  {
    LengthReads(|p| + 2);
    var s := Bare(m, p) + rest;
    assert s[2] == Length(|p| + 2)[0] && s[3] == Length(|p| + 2)[1];
  }

  lemma SkipSegment(m: Byte, p: Bytes, rest: Bytes)
    requires WellFormed(Segment(0, m, p)) && |rest| >= 2
    ensures !StartsFrame(m) ==> Dimensions(Bare(m, p) + rest) == Dimensions(rest)
    ensures m != 0xDA && !(m == 0xE1 && ExifIdentifier <= p) ==> Exif(Bare(m, p) + rest) == Exif(rest)
  {
    assert IsExif(p) <==> ExifIdentifier <= p;
    hide Bare, IsExif;
    BareReads(m, p, rest);
  }

  lemma SkipStandalone(m: Byte, rest: Bytes)
    requires StandsAlone(m)
    ensures Dimensions([0xFF, m] + rest) == Dimensions(rest) && Exif([0xFF, m] + rest) == Exif(rest)
  {
    var s := [0xFF, m] + rest;
    assert s[0] == 0xFF && s[1] == m && s[2..] == rest;
  }

  lemma SkipJunk(b: Byte, rest: Bytes)
    requires b != 0xFF && |rest| >= 2
    ensures Dimensions([b] + rest) == Dimensions(rest) && Exif([b] + rest) == Exif(rest)
  {
    assert ([b] + rest)[0] == b && ([b] + rest)[1..] == rest;
  }

  lemma SkipItem(i: Item, rest: Bytes)
    requires WellFormed(i) && |rest| >= 2
    ensures NotFrame(i) ==> Dimensions(Encode(i) + rest) == Dimensions(rest)
    ensures NotExif(i) ==> Exif(Encode(i) + rest) == Exif(rest)
  {
    hide Bare, IsExif, Fill, Dimensions, Exif;
    match i
    case Junk(b) => SkipJunk(b, rest);
    case Standalone(fill, m) =>
      assert Encode(i) + rest == Fill(fill) + ([0xFF, m] + rest);
      SkipFill(fill, [0xFF, m] + rest);
      SkipStandalone(m, rest);
    case Segment(fill, m, p) =>
      assert Encode(i) + rest == Fill(fill) + (Bare(m, p) + rest);
      BareReads(m, p, rest);
      SkipFill(fill, Bare(m, p) + rest);
      SkipSegment(m, p, rest);
  }

  lemma {:induction false} SkipItems(items: seq<Item>, rest: Bytes)
    requires (forall i :: 0 <= i < |items| ==> WellFormed(items[i])) && |rest| >= 2
    ensures (forall i :: 0 <= i < |items| ==> NotFrame(items[i])) ==>
            Dimensions(EncodeAll(items) + rest) == Dimensions(rest)
    ensures (forall i :: 0 <= i < |items| ==> NotExif(items[i])) ==> Exif(EncodeAll(items) + rest) == Exif(rest)
  {
    hide Dimensions, Exif, Encode;
    if items == [] {
      assert EncodeAll(items) + rest == rest;
    } else {
      var tail := EncodeAll(items[1..]) + rest;
      assert EncodeAll(items) + rest == Encode(items[0]) + tail;
      SkipItem(items[0], tail);
      SkipItems(items[1..], rest);
    }
  }

  /** For any well-formed prefix, whatever its payload bytes look like, the size read is the one
      in the first frame header. */
  lemma DimensionsOfFrame(items: seq<Item>, f: Frame, rest: Bytes)
    requires (forall i :: 0 <= i < |items| ==> NotFrame(items[i])) && f.Valid()
    ensures Dimensions(EncodeAll(items) + (EncodeFrame(f) + rest)) == Some((f.width, f.height))
  {
    hide Encode;
    SkipItems(items, EncodeFrame(f) + rest);
    FrameReads(f, rest);
  }

  lemma FrameReads(f: Frame, rest: Bytes)
    requires f.Valid()
    ensures Dimensions(EncodeFrame(f) + rest) == Some((f.width, f.height))
  {
    var head := FrameHead(f);
    var after := head + rest;
    assert EncodeFrame(f) + rest == Fill(f.fill) + after;
    SkipFill(f.fill, after);
    FrameBytes(f);
    assert forall i :: 0 <= i < 9 ==> after[i] == head[i];
  }

  lemma FrameBytes(f: Frame)
    requires f.Valid()
    ensures var h := FrameHead(f);
            && |h| == 9 && h[0] == 0xFF && h[1] == f.marker && h[4] == f.precision
            && U16(h[2], h[3]) == f.length && U16(h[5], h[6]) == f.height && U16(h[7], h[8]) == f.width
  {
    LengthReads(f.length);
    LengthReads(f.height);
    LengthReads(f.width);
  }

  /** The payload found is that of the first Exif segment before the scan. */
  lemma ExifOfSegment(items: seq<Item>, fill: nat, tiff: Bytes, rest: Bytes)
    requires (forall i :: 0 <= i < |items| ==> NotExif(items[i])) && |tiff| + 8 < 0x10000
    ensures Exif(EncodeAll(items) + (Encode(Segment(fill, 0xE1, ExifIdentifier + tiff)) + rest)) == Some(tiff)
  {
    hide Exif, Bare, Fill;
    var p := ExifIdentifier + tiff;
    BareReads(0xE1, p, rest);
    assert Encode(Segment(fill, 0xE1, p)) + rest == Fill(fill) + (Bare(0xE1, p) + rest);
    SkipItems(items, Encode(Segment(fill, 0xE1, p)) + rest);
    SkipFill(fill, Bare(0xE1, p) + rest);
    ExifReads(tiff, rest);
  }

  lemma ExifReads(tiff: Bytes, rest: Bytes)
    requires |tiff| + 8 < 0x10000
    ensures Exif(Bare(0xE1, ExifIdentifier + tiff) + rest) == Some(tiff)
  {
    hide Bare;
    BareReads(0xE1, ExifIdentifier + tiff, rest);
    assert (ExifIdentifier + tiff)[6..] == tiff;
  }

  /** Nothing after the start of the scan is taken for Exif data. */
  lemma ExifStopsAtScan(items: seq<Item>, fill: nat, rest: Bytes)
    requires forall i :: 0 <= i < |items| ==> NotExif(items[i])
    ensures Exif(EncodeAll(items) + (Fill(fill) + ([0xFF, 0xDA] + rest))) == None
  {
    SkipItems(items, Fill(fill) + ([0xFF, 0xDA] + rest));
    SkipFill(fill, [0xFF, 0xDA] + rest);
  }

  // ---------------------------------------------------------------------------------------
  // The walk reads nothing else
  // ---------------------------------------------------------------------------------------

  /** A size is read only from data that has a frame header after a well-formed prefix. */
  lemma {:induction false} DimensionsAreAFrames(s: Bytes) returns (items: seq<Item>, f: Frame, rest: Bytes)
    requires Dimensions(s).Some?
    ensures (forall i :: 0 <= i < |items| ==> NotFrame(items[i])) && f.Valid()
    ensures s == EncodeAll(items) + (EncodeFrame(f) + rest)
    ensures Dimensions(s) == Some((f.width, f.height))
  {
    hide EncodeFrame, EncodeAll, Encode;
    if s[0] != 0xFF {
      items, f, rest := DimensionsAreAFrames(s[1..]);
      items := OneMoreItem(s, 1, Junk(s[0]), items, EncodeFrame(f) + rest);
    } else if s[1] == 0xFF {
      items, f, rest := DimensionsAreAFrames(s[1..]);
      FrameSplits(f, rest);
      var fill;
      items, fill := OneMoreFill(s, items, f.fill, FrameHead(f) + rest);
      f := f.(fill := fill);
      FrameSplits(f, rest);
    } else if StandsAlone(s[1]) {
      items, f, rest := DimensionsAreAFrames(s[2..]);
      items := OneMoreItem(s, 2, Standalone(0, s[1]), items, EncodeFrame(f) + rest);
    } else if StartsFrame(s[1]) {
      items, rest := [], s[9..];
      f := Frame(0, s[1], U16(s[2], s[3]), s[4], U16(s[5], s[6]), U16(s[7], s[8]));
      FrameOf(s, f);
    } else {
      var n := 2 + U16(s[2], s[3]);
      items, f, rest := DimensionsAreAFrames(s[n..]);
      items := OneMoreItem(s, n, Segment(0, s[1], s[4..n]), items, EncodeFrame(f) + rest);
    }
  }

  lemma FrameOf(s: Bytes, f: Frame)
    requires |s| >= 9 && s[0] == 0xFF
    requires f == Frame(0, s[1], U16(s[2], s[3]), s[4], U16(s[5], s[6]), U16(s[7], s[8]))
    ensures s == EncodeAll([]) + (EncodeFrame(f) + s[9..])
  {
    LengthOf(s[2], s[3]);
    LengthOf(s[5], s[6]);
    LengthOf(s[7], s[8]);
    assert EncodeFrame(f) == FrameHead(f) == s[..9];
  }

  lemma LengthOf(hi: Byte, lo: Byte)
    ensures Length(U16(hi, lo)) == [hi, lo]
  {}

  // The first n bytes are the item, without fill.
  predicate StartsWith(s: Bytes, n: nat, i: Item)
    requires n <= |s|
  {
    match i
    case Junk(b) => n == 1 && s[0] == b
    case Standalone(fill, m) => n == 2 && fill == 0 && s[0] == 0xFF && s[1] == m
    case Segment(fill, m, p) =>
      4 <= n && fill == 0 && s[0] == 0xFF && s[1] == m && 2 + U16(s[2], s[3]) == n && p == s[4..n]
  }

  lemma EncodeOf(s: Bytes, n: nat, i: Item)
    requires n <= |s| && StartsWith(s, n, i)
    ensures Encode(i) == s[..n]
  {
    if i.Segment? {
      LengthOf(s[2], s[3]);
      assert |i.payload| + 2 == U16(s[2], s[3]);
      assert Encode(i) == [] + Bare(i.marker, i.payload) == [0xFF, s[1]] + [s[2], s[3]] + s[4..n];
    }
  }

  lemma OneMoreItem(s: Bytes, n: nat, i: Item, items: seq<Item>, tail: Bytes) returns (more: seq<Item>)
    requires n <= |s| && s[n..] == EncodeAll(items) + tail && StartsWith(s, n, i)
    ensures more == [i] + items && s == EncodeAll(more) + tail
  {
    hide Encode, StartsWith;
    EncodeOf(s, n, i);
    more := [i] + items;
    assert more[1..] == items;
    assert s == s[..n] + s[n..];
    assert EncodeAll(more) + tail == Encode(i) + (EncodeAll(items) + tail);
  }

  lemma FrameSplits(f: Frame, rest: Bytes)
    ensures EncodeFrame(f) + rest == Fill(f.fill) + (FrameHead(f) + rest)
  {}

  // One more fill byte before whatever comes first.
  lemma OneMoreFill(s: Bytes, items: seq<Item>, fill: nat, body: Bytes) returns (items': seq<Item>, fill': nat)
    requires |s| >= 2 && s[0] == s[1] == 0xFF && s[1..] == EncodeAll(items) + (Fill(fill) + body)
    requires forall i :: 0 <= i < |items| ==> WellFormed(items[i])
    ensures |items'| == |items| && forall i :: 0 <= i < |items| ==> SameButFill(items[i], items'[i])
    ensures s == EncodeAll(items') + (Fill(fill') + body)
  {
    hide Encode, EncodeAll, Fill;
    items', fill' := items, fill;
    assert s == [0xFF] + s[1..];
    if items == [] {
      fill' := fill + 1;
      FillMore(fill);
      NoItems();
      assert [0xFF] + ([] + (Fill(fill) + body)) == [] + (([0xFF] + Fill(fill)) + body);
    } else {
      ItemsStart(items);
      assert s[1..][0] == EncodeAll(items)[0];
      items' := FillFirst(items);
      assert [0xFF] + (EncodeAll(items) + (Fill(fill) + body)) == ([0xFF] + EncodeAll(items)) + (Fill(fill) + body);
    }
  }

  predicate SameButFill(i: Item, j: Item) {
    i == j || (!i.Junk? && j == i.(fill := i.fill + 1))
  }

  lemma NoItems()
    ensures EncodeAll([]) == []
  {}

  lemma ItemsStart(items: seq<Item>)
    requires items != []
    ensures EncodeAll(items) != [] && (items[0].Junk? ==> EncodeAll(items)[0] == items[0].b)
  {
    EncodeStarts(items[0]);
  }

  lemma FillFirst(items: seq<Item>) returns (more: seq<Item>)
    requires items != [] && !items[0].Junk?
    ensures |more| == |items| && (forall i :: 0 <= i < |items| ==> SameButFill(items[i], more[i]))
    ensures EncodeAll(more) == [0xFF] + EncodeAll(items)
  {
    hide Encode;
    var first := items[0];
    EncodeMore(first);
    more := [first.(fill := first.fill + 1)] + items[1..];
    assert more[1..] == items[1..];
    assert [0xFF] + Encode(first) + EncodeAll(items[1..]) == [0xFF] + (Encode(first) + EncodeAll(items[1..]));
  }

  lemma EncodeStarts(i: Item)
    ensures Encode(i) != [] && (i.Junk? ==> Encode(i)[0] == i.b)
  {}

  lemma FillMore(n: nat)
    ensures Fill(n + 1) == [0xFF] + Fill(n)
  {}

  lemma EncodeMore(i: Item)
    requires !i.Junk?
    ensures Encode(i.(fill := i.fill + 1)) == [0xFF] + Encode(i)
  {
    FillMore(i.fill);
  }

  // The bytes of an Exif segment as found: what it declares may run past the end of the data.
  function ExifBody(length: nat, tiff: Bytes, rest: Bytes): Bytes {
    [0xFF, 0xE1] + Length(length) + ExifIdentifier + tiff + rest
  }

  /** Exif data is taken only from an APP1 segment with the Exif identifier after a well-formed
      prefix with no such segment and no scan in it, and it is all of the segment, or all there
      is of it when the data ends first. */
  lemma {:induction false} ExifIsASegments(s: Bytes)
    returns (items: seq<Item>, fill: nat, length: nat, tiff: Bytes, rest: Bytes)
    requires Exif(s).Some?
    ensures (forall i :: 0 <= i < |items| ==> NotExif(items[i])) && length < 0x10000
    ensures s == EncodeAll(items) + (Fill(fill) + ExifBody(length, tiff, rest)) && Exif(s) == Some(tiff)
    ensures |tiff| + 8 == length || (|tiff| + 8 < length && rest == [])
  {
    hide EncodeAll, Encode, Fill, ExifBody;
    if s[0] != 0xFF {
      items, fill, length, tiff, rest := ExifIsASegments(s[1..]);
      items := OneMoreItem(s, 1, Junk(s[0]), items, Fill(fill) + ExifBody(length, tiff, rest));
    } else if s[1] == 0xFF {
      items, fill, length, tiff, rest := ExifIsASegments(s[1..]);
      items, fill := OneMoreFill(s, items, fill, ExifBody(length, tiff, rest));
    } else if StandsAlone(s[1]) {
      items, fill, length, tiff, rest := ExifIsASegments(s[2..]);
      items := OneMoreItem(s, 2, Standalone(0, s[1]), items, Fill(fill) + ExifBody(length, tiff, rest));
    } else {
      var n := 2 + U16(s[2], s[3]);
      var end := if n <= |s| then n else |s|;
      if s[1] == 0xE1 && IsExif(s[4..end]) {
        items, fill, length, tiff, rest := [], 0, U16(s[2], s[3]), s[4..end][6..], s[end..];
        ExifOf(s, end);
      } else {
        items, fill, length, tiff, rest := ExifIsASegments(s[n..]);
        items := OneMoreItem(s, n, Segment(0, s[1], s[4..n]), items, Fill(fill) + ExifBody(length, tiff, rest));
      }
    }
  }

  lemma ExifOf(s: Bytes, end: nat)
    requires 4 <= end <= |s| && s[0] == 0xFF && s[1] == 0xE1 && IsExif(s[4..end])
    ensures s == EncodeAll([]) + (Fill(0) + ExifBody(U16(s[2], s[3]), s[4..end][6..], s[end..]))
  {
    LengthOf(s[2], s[3]);
    var payload := s[4..end];
    assert payload == ExifIdentifier + payload[6..];
    assert s == [s[0], s[1]] + [s[2], s[3]] + payload + s[end..];
    assert Fill(0) == [];
  }

  // ---------------------------------------------------------------------------------------
  // TEM
  // ---------------------------------------------------------------------------------------

  // The markers before a header as T.81 has them. TEM (0xFF01) stands alone there, but the walks
  // take the two bytes after it for a length.
  datatype T81Item = Plain(item: Item) | Tem(fill: nat)

  predicate InT81(i: T81Item) {
    i.Plain? ==> WellFormed(i.item) && !i.item.Junk? && (i.item.Segment? ==> i.item.marker != 0x01)
  }

  function EncodeOne(i: T81Item): Bytes {
    match i
    case Plain(item) => Encode(item)
    case Tem(fill) => Fill(fill) + [0xFF, 0x01]
  }

  function EncodeT81(items: seq<T81Item>): Bytes {
    if items == [] then [] else EncodeOne(items[0]) + EncodeT81(items[1..])
  }

  predicate NoTem(items: seq<T81Item>) { forall i :: 0 <= i < |items| ==> items[i].Plain? }

  predicate NoFrames(items: seq<T81Item>) {
    forall i :: 0 <= i < |items| ==> InT81(items[i]) && (items[i].Plain? ==> NotFrame(items[i].item))
  }

  predicate NoExifs(items: seq<T81Item>) {
    forall i :: 0 <= i < |items| ==> InT81(items[i]) && (items[i].Plain? ==> NotExif(items[i].item))
  }

  // How many bytes follow the first TEM.
  function LeftAfterTem(items: seq<T81Item>, tail: Bytes): nat {
    if items == [] then 0
    else if items[0].Tem? then |EncodeT81(items[1..]) + tail|
    else LeftAfterTem(items[1..], tail)
  }

  // Every item, and so every list of items before a marker, begins with 0xFF.
  lemma T81Starts(items: seq<T81Item>, tail: Bytes)
    requires (forall i :: 0 <= i < |items| ==> InT81(items[i])) && |tail| >= 2 && tail[0] == 0xFF
    ensures |EncodeT81(items) + tail| >= 2 && (EncodeT81(items) + tail)[0] == 0xFF
  {
    if items != [] && items[0].Plain? { ItemStarts(items[0].item); }
  }

  lemma ItemStarts(i: Item)
    requires !i.Junk?
    ensures |Encode(i)| >= 2 && Encode(i)[0] == 0xFF
  {}

  /** At a TEM both walks jump as far as the next two bytes say, 65280 bytes or more, or stop
      when there are not that many. */
  lemma TemJumps(fill: nat, tail: Bytes)
    requires |tail| >= 2 && tail[0] == 0xFF
    ensures var s, n := Fill(fill) + ([0xFF, 0x01] + tail), U16(tail[0], tail[1]);
            && n >= 0xFF00
            && Dimensions(s) == (if n > |tail| then None else Dimensions(tail[n..]))
            && Exif(s) == (if n > |tail| then None else Exif(tail[n..]))
  {
    var s, n := [0xFF, 0x01] + tail, U16(tail[0], tail[1]);
    SkipFill(fill, s);
    assert s[0] == 0xFF && s[1] == 0x01 && s[2] == tail[0] && s[3] == tail[1];
    if n <= |tail| { assert s[2 + n..] == tail[n..]; }
  }

  lemma SkipOne(i: T81Item, more: Bytes)
    requires InT81(i) && |more| >= 2 && more[0] == 0xFF
    ensures i.Plain? && NotFrame(i.item) ==> Dimensions(EncodeOne(i) + more) == Dimensions(more)
    ensures i.Plain? && NotExif(i.item) ==> Exif(EncodeOne(i) + more) == Exif(more)
    ensures i.Tem? && |more| < 0xFF00 ==>
              Dimensions(EncodeOne(i) + more) == None && Exif(EncodeOne(i) + more) == None
  {
    hide Dimensions, Exif, Encode, IsExif, Fill;
    match i
    case Plain(item) => SkipItem(item, more);
    case Tem(fill) =>
      assert EncodeOne(i) + more == Fill(fill) + ([0xFF, 0x01] + more);
      TemJumps(fill, more);
  }

  lemma {:induction false} SkipT81(items: seq<T81Item>, tail: Bytes)
    requires |tail| >= 2 && tail[0] == 0xFF
    ensures NoFrames(items) && NoTem(items) ==> Dimensions(EncodeT81(items) + tail) == Dimensions(tail)
    ensures NoExifs(items) && NoTem(items) ==> Exif(EncodeT81(items) + tail) == Exif(tail)
    ensures NoFrames(items) && !NoTem(items) && LeftAfterTem(items, tail) < 0xFF00 ==>
              Dimensions(EncodeT81(items) + tail) == None
    ensures NoExifs(items) && !NoTem(items) && LeftAfterTem(items, tail) < 0xFF00 ==>
              Exif(EncodeT81(items) + tail) == None
  {
    hide Dimensions, Exif, EncodeOne, NotFrame, NotExif, InT81;
    if items == [] {
      assert EncodeT81(items) + tail == tail;
    } else if NoFrames(items) || NoExifs(items) {
      var more := EncodeT81(items[1..]) + tail;
      assert EncodeT81(items) + tail == EncodeOne(items[0]) + more;
      T81Starts(items[1..], tail);
      SkipT81(items[1..], tail);
      SkipOne(items[0], more);
    }
  }

  /** With no TEM before it the frame's size is read, however much data follows. When fewer than
      65280 bytes follow the first TEM, the size is read exactly when there is none. */
  lemma TemHidesFrame(items: seq<T81Item>, f: Frame, rest: Bytes)
    requires NoFrames(items) && f.Valid()
    ensures var tail := EncodeFrame(f) + rest;
            var size := Dimensions(EncodeT81(items) + tail);
            NoTem(items) || LeftAfterTem(items, tail) < 0xFF00 ==>
              size == if NoTem(items) then Some((f.width, f.height)) else None
  {
    hide Dimensions, FrameHead;
    var tail := EncodeFrame(f) + rest;
    FrameBytes(f);
    FrameReads(f, rest);
    SkipT81(items, tail);
  }

  /** The same for the Exif payload. */
  lemma TemHidesExif(items: seq<T81Item>, fill: nat, tiff: Bytes, rest: Bytes)
    requires NoExifs(items) && |tiff| + 8 < 0x10000
    ensures var tail := Encode(Segment(fill, 0xE1, ExifIdentifier + tiff)) + rest;
            var payload := Exif(EncodeT81(items) + tail);
            NoTem(items) || LeftAfterTem(items, tail) < 0xFF00 ==>
              payload == if NoTem(items) then Some(tiff) else None
  {
    hide Exif, Encode;
    var segment := Segment(fill, 0xE1, ExifIdentifier + tiff);
    ItemStarts(segment);
    ExifOfSegment([], fill, tiff, rest);
    assert EncodeAll([]) + (Encode(segment) + rest) == Encode(segment) + rest;
    SkipT81(items, Encode(segment) + rest);
  }
}
