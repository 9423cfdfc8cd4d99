/** Image dimensions of store graphics (prepare-google-play-listing-assets.py), per Annex B of ITU-T T.81. */
module Jpeg {
  import opened Wrappers

  type byte = x: int | 0 <= x < 256

  predicate IsStandalone(m: byte) { m == 0x01 || 0xD0 <= m <= 0xD8 }

  predicate IsFrame(m: byte) { 0xC0 <= m <= 0xCF && m !in {0xC4, 0xC8, 0xCC} }

  predicate Stops(m: byte) { m == 0xD9 || m == 0xDA }

  function BigEndian(hi: byte, lo: byte): nat { 256 * hi + lo }

  // ---- what a marker stream looks like ----

  /** Bytes before a marker that are not 0xFF, then one or more 0xFF, then the marker (section B.1.1.2). */
  datatype Lead = Lead(junk: seq<byte>, fill: nat, marker: byte)

  /** A standalone marker, or a segment: a two-byte length that counts itself, and its parameters. */
  datatype Element = Element(lead: Lead, parameters: Option<seq<byte>>)

  predicate IsLead(l: Lead) {
    l.fill >= 1 && l.marker != 0xFF && forall i :: 0 <= i < |l.junk| ==> l.junk[i] != 0xFF
  }

  predicate IsSkippable(e: Element) {
    && IsLead(e.lead) && !Stops(e.lead.marker)
    && (e.parameters.None? <==> IsStandalone(e.lead.marker))
    && (e.parameters.Some? ==> !IsFrame(e.lead.marker) && |e.parameters.value| <= 65533)
  }

  /** A frame header has a precision byte, the height, the width, and more (section B.2.2). */
  predicate IsFrameHeader(e: Element) {
    IsLead(e.lead) && IsFrame(e.lead.marker) && e.parameters.Some? && 5 <= |e.parameters.value| <= 65533
  }

  function Fill(n: nat): (s: seq<byte>)
    ensures |s| == n && forall i :: 0 <= i < n ==> s[i] == 0xFF
  {
    if n == 0 then [] else [0xFF] + Fill(n - 1)
  }

  function LeadBytes(l: Lead): seq<byte> { l.junk + Fill(l.fill) + [l.marker] }

  function LengthBytes(n: nat): seq<byte>
    requires n <= 65535
  {
    [n / 256, n % 256]
  }

  function ElementBytes(e: Element): seq<byte>
    requires e.parameters.Some? ==> |e.parameters.value| <= 65533
  {
    LeadBytes(e.lead) + if e.parameters.None? then [] else LengthBytes(|e.parameters.value| + 2) + e.parameters.value
  }

  predicate AllSkippable(es: seq<Element>) { forall i :: 0 <= i < |es| ==> IsSkippable(es[i]) }

  function StreamBytes(es: seq<Element>, header: Element, rest: seq<byte>): seq<byte>
    requires AllSkippable(es) && IsFrameHeader(header)
  {
    if es == [] then ElementBytes(header) + rest else ElementBytes(es[0]) + StreamBytes(es[1..], header, rest)
  }

  /** Width and height, as the frame header states them. */
  function Dimensions(header: Element): (nat, nat)
    requires IsFrameHeader(header)
  {
    var p := header.parameters.value;
    (BigEndian(p[3], p[4]), BigEndian(p[1], p[2]))
  }

  // ---- the walk, on what is left of the data ----

  function CountOther(s: seq<byte>): (n: nat)
    ensures n <= |s| && (n < |s| ==> s[n] == 0xFF) && forall i :: 0 <= i < n ==> s[i] != 0xFF
  {
    if s == [] || s[0] == 0xFF then 0 else 1 + CountOther(s[1..])
  }

  function CountFill(s: seq<byte>): (n: nat)
    ensures n <= |s| && (n < |s| ==> s[n] != 0xFF) && forall i :: 0 <= i < n ==> s[i] == 0xFF
  {
    if s == [] || s[0] != 0xFF then 0 else 1 + CountFill(s[1..])
  }

  function LeadLength(s: seq<byte>): nat { CountOther(s) + CountFill(s[CountOther(s)..]) }

  /** What a marker makes of the bytes behind it: the walk ends, or goes on after some of them. */
  datatype Turn = Ends(r: Option<(nat, nat)>) | GoesOn(after: nat)

  function MarkerTurn(marker: byte, rest: seq<byte>): (t: Turn)
    ensures t.GoesOn? ==> t.after <= |rest|
  {
    if IsStandalone(marker) then GoesOn(0)
    else if Stops(marker) || |rest| < 2 then Ends(None)
    else
      var length := BigEndian(rest[0], rest[1]);
      if length < 2 || length > |rest| then Ends(None)
      else if !IsFrame(marker) then GoesOn(length)
      else if length < 7 then Ends(None)
      else Ends(Some((BigEndian(rest[5], rest[6]), BigEndian(rest[3], rest[4]))))
  }

  function Walk(s: seq<byte>): Option<(nat, nat)>
    decreases |s|
  {
    var n := LeadLength(s);
    if n >= |s| then None
    else
      var rest := s[n + 1..];
      match MarkerTurn(s[n], rest)
      case Ends(r) => r
      case GoesOn(after) => Walk(rest[after..])
  }

  /** The two inner loops: past other bytes, then past fill bytes. */
  method SkipToMarker(data: seq<byte>, start: nat) returns (offset: nat)
    requires start <= |data|
    ensures offset == start + LeadLength(data[start..]) <= |data|
  {
    hide CountOther, CountFill;
    offset := start;
    while offset < |data| && data[offset] != 0xFF
      invariant start <= offset <= |data|
      invariant CountOther(data[start..]) == offset - start + CountOther(data[offset..])
    {
      CountsOne(data, offset);
      offset := offset + 1;
    }
    if offset < |data| { CountsOne(data, offset); } else { CountsNone(data); }
    ghost var fill := offset;
    while offset < |data| && data[offset] == 0xFF
      invariant fill <= offset <= |data|
      invariant CountFill(data[fill..]) == offset - fill + CountFill(data[offset..])
    {
      CountsOne(data, offset);
      offset := offset + 1;
    }
    if offset < |data| { CountsOne(data, offset); } else { CountsNone(data); }
    assert data[start..][fill - start..] == data[fill..];
  }

  lemma CountsOne(data: seq<byte>, offset: nat)
    requires offset < |data|
    ensures CountOther(data[offset..]) == if data[offset] == 0xFF then 0 else 1 + CountOther(data[offset + 1..])
    ensures CountFill(data[offset..]) == if data[offset] != 0xFF then 0 else 1 + CountFill(data[offset + 1..])
  {
    assert data[offset..][1..] == data[offset + 1..];
  }

  lemma CountsNone(data: seq<byte>)
    ensures CountOther(data[|data|..]) == 0 && CountFill(data[|data|..]) == 0
  {
  }

  /** The body of the outer loop behind a marker. */
  method TakeTurn(data: seq<byte>, marker: byte, offset: nat) returns (t: Turn)
    requires offset <= |data|
    ensures t == MarkerTurn(marker, data[offset..])
  {
    if IsStandalone(marker) { return GoesOn(0); }
    if Stops(marker) { return Ends(None); }
    if offset + 2 > |data| { return Ends(None); }
    var length := BigEndian(data[offset], data[offset + 1]);
    if length < 2 { return Ends(None); }
    var segmentStart, segmentEnd := offset + 2, offset + length;
    if segmentEnd > |data| { return Ends(None); }
    if IsFrame(marker) {
      if segmentStart + 5 > segmentEnd { return Ends(None); }
      var height := BigEndian(data[segmentStart + 1], data[segmentStart + 2]);
      var width := BigEndian(data[segmentStart + 3], data[segmentStart + 4]);
      return Ends(Some((width, height)));
    }
    t := GoesOn(segmentEnd - offset);
  }

  lemma WalkUnfolds(s: seq<byte>, marker: byte, rest: seq<byte>, later: seq<byte>)
    requires LeadLength(s) < |s| && marker == s[LeadLength(s)] && rest == s[LeadLength(s) + 1..]
    requires MarkerTurn(marker, rest).GoesOn? ==> later == rest[MarkerTurn(marker, rest).after..]
    ensures Walk(s) == if MarkerTurn(marker, rest).Ends? then MarkerTurn(marker, rest).r else Walk(later)
  {
  }

  function From(data: seq<byte>, offset: nat): seq<byte>
    requires offset <= |data|
  {
    data[offset..]
  }

  lemma TailOfTail(data: seq<byte>, a: nat, b: nat)
    requires a + b <= |data|
    ensures From(From(data, a), b) == From(data, a + b)
    ensures b < |data| - a ==> From(data, a)[b] == data[a + b]
  {
  }

  /** jpeg_dimensions. */
  method JpegDimensions(data: seq<byte>) returns (r: Option<(nat, nat)>)
    ensures r == if |data| >= 2 && data[..2] == SOI then Walk(data[2..]) else None
  {
    hide LeadLength, MarkerTurn;
    if |data| < 2 || data[..2] != SOI { return None; }
    var offset := 2;
    while offset < |data|
      invariant 2 <= offset <= |data| && Walk(From(data, offset)) == Walk(From(data, 2))
      decreases |data| - offset
    {
      var at := SkipToMarker(data, offset);
      if at >= |data| { return None; }
      var turn := TakeTurn(data, data[at], at + 1);
      var next := if turn.Ends? then |data| else at + 1 + turn.after;
      TailOfTail(data, offset, at - offset);
      TailOfTail(data, offset, at - offset + 1);
      if turn.GoesOn? { TailOfTail(data, at + 1, turn.after); }
      WalkUnfolds(From(data, offset), data[at], From(data, at + 1), From(data, next));
      if turn.Ends? { return turn.r; }
      offset := next;
    }
    assert From(data, offset) == [];
    r := None;
  }

  // ---- the walk inverts the stream, and only streams have dimensions ----

  lemma {:induction false} CountOtherOf(junk: seq<byte>, rest: seq<byte>)
    requires (forall i :: 0 <= i < |junk| ==> junk[i] != 0xFF) && rest != [] && rest[0] == 0xFF
    ensures CountOther(junk + rest) == |junk|
  {
    if junk == [] {
      assert junk + rest == rest;
    } else {
      CountOtherOf(junk[1..], rest);
      assert (junk + rest)[1..] == junk[1..] + rest;
    }
  }

  lemma {:induction false} CountFillOf(n: nat, rest: seq<byte>)
    requires rest != [] && rest[0] != 0xFF
    ensures CountFill(Fill(n) + rest) == n
  {
    if n == 0 {
      assert Fill(n) + rest == rest;
    } else {
      CountFillOf(n - 1, rest);
      assert (Fill(n) + rest)[1..] == Fill(n - 1) + rest;
    }
  }

  lemma LeadIsSkipped(l: Lead, rest: seq<byte>)
    requires IsLead(l)
    ensures var s := LeadBytes(l) + rest;
            LeadLength(s) == |l.junk| + l.fill < |s| && s[LeadLength(s)] == l.marker && s[LeadLength(s) + 1..] == rest
  {
    var s := LeadBytes(l) + rest;
    var behind := Fill(l.fill) + ([l.marker] + rest);
    assert s == l.junk + behind;
    CountOtherOf(l.junk, behind);
    assert s[|l.junk|..] == behind;
    CountFillOf(l.fill, [l.marker] + rest);
  }

  lemma LengthReads(n: nat, rest: seq<byte>)
    requires n <= 65535
    ensures BigEndian((LengthBytes(n) + rest)[0], (LengthBytes(n) + rest)[1]) == n
  {
  }

  lemma SegmentReads(e: Element, later: seq<byte>)
    requires e.parameters.Some? && |e.parameters.value| <= 65533 && IsLead(e.lead) && !IsStandalone(e.lead.marker) && !Stops(e.lead.marker)
    ensures var s := ElementBytes(e) + later; var p := e.parameters.value;
            Walk(s) == if IsFrame(e.lead.marker) then
                         if |p| < 5 then None else Some((BigEndian(p[3], p[4]), BigEndian(p[1], p[2])))
                       else Walk(later)
  {
    var p := e.parameters.value;
    var behind := LengthBytes(|p| + 2) + (p + later);
    assert ElementBytes(e) + later == LeadBytes(e.lead) + behind;
    LeadIsSkipped(e.lead, behind);
    LengthReads(|p| + 2, p + later);
    assert behind[|p| + 2..] == later;
    assert forall i :: 0 <= i < |p| ==> behind[i + 2] == p[i];
  }

  lemma SkippableIsSkipped(e: Element, later: seq<byte>)
    requires IsSkippable(e)
    ensures Walk(ElementBytes(e) + later) == Walk(later)
  {
    if e.parameters.None? {
      assert ElementBytes(e) + later == LeadBytes(e.lead) + later;
      LeadIsSkipped(e.lead, later);
    } else {
      SegmentReads(e, later);
    }
  }

  /** Any list of skippable elements before a frame header is skipped, and the header's dimensions come out. */
  lemma {:induction false} WalkInvertsStream(es: seq<Element>, header: Element, rest: seq<byte>)
    requires AllSkippable(es) && IsFrameHeader(header)
    ensures Walk(StreamBytes(es, header, rest)) == Some(Dimensions(header))
    decreases |es|
  {
    if es == [] {
      SegmentReads(header, rest);
    } else {
      WalkInvertsStream(es[1..], header, rest);
      SkippableIsSkipped(es[0], StreamBytes(es[1..], header, rest));
    }
  }

  lemma {:induction false} FillIs(s: seq<byte>)
    requires forall i :: 0 <= i < |s| ==> s[i] == 0xFF
    ensures Fill(|s|) == s
  {
  }

  lemma LeadOf(s: seq<byte>) returns (l: Lead)
    requires LeadLength(s) < |s|
    ensures IsLead(l) && s == LeadBytes(l) + s[LeadLength(s) + 1..] && l.marker == s[LeadLength(s)]
  {
    var n := CountOther(s);
    var m := CountFill(s[n..]);
    assert s[n..][m] == s[n + m];
    l := Lead(s[..n], m, s[n + m]);
    FillIs(s[n..][..m]);
    assert s[n..][..m] == s[n..n + m];
    assert s == s[..n] + s[n..n + m] + [s[n + m]] + s[n + m + 1..];
  }

  /** The segment behind a lead, cut out. */
  lemma SegmentOf(l: Lead, s: seq<byte>, behind: seq<byte>) returns (e: Element, later: seq<byte>)
    requires IsLead(l) && s == LeadBytes(l) + behind && |behind| >= 2 && 2 <= BigEndian(behind[0], behind[1]) <= |behind|
    ensures later == behind[BigEndian(behind[0], behind[1])..] && |later| < |s|
    ensures e.lead == l && e.parameters.Some? && |e.parameters.value| + 2 == BigEndian(behind[0], behind[1])
    ensures s == ElementBytes(e) + later
  {
    var length := BigEndian(behind[0], behind[1]);
    var p := behind[2..length];
    e, later := Element(l, Some(p)), behind[length..];
    assert LengthBytes(length) == [behind[0], behind[1]];
    assert behind == LengthBytes(length) + p + later;
  }

  /** What a walk that ends in dimensions has before it. */
  lemma WalkMeets(s: seq<byte>)
    requires Walk(s).Some?
    ensures LeadLength(s) < |s|
    ensures var marker, behind := s[LeadLength(s)], s[LeadLength(s) + 1..];
            if IsStandalone(marker) then Walk(behind).Some?
            else
              && !Stops(marker) && |behind| >= 2 && 2 <= BigEndian(behind[0], behind[1]) <= |behind|
              && if IsFrame(marker) then BigEndian(behind[0], behind[1]) >= 7 else Walk(behind[BigEndian(behind[0], behind[1])..]).Some?
  {
    var behind := s[LeadLength(s) + 1..];
    assert behind[0..] == behind;
  }

  lemma StandaloneBytes(l: Lead)
    ensures ElementBytes(Element(l, None)) == LeadBytes(l)
  {
  }

  /** Dimensions come out of nothing but such a stream. */
  lemma {:induction false} WalkOnlyReadsStreams(s: seq<byte>) returns (es: seq<Element>, header: Element, rest: seq<byte>)
    requires Walk(s).Some?
    ensures AllSkippable(es) && IsFrameHeader(header) && s == StreamBytes(es, header, rest)
    decreases |s|
  {
    hide CountOther, CountFill, LeadBytes, LengthBytes, Walk, LeadLength, ElementBytes, MarkerTurn;
    WalkMeets(s);
    var l := LeadOf(s);
    var behind := s[LeadLength(s) + 1..];
    if IsStandalone(l.marker) {
      StandaloneBytes(l);
      es, header, rest := WalkOnlyReadsStreams(behind);
      es := Prepended(Element(l, None), es, header, rest, s);
    } else {
      var e, later := SegmentOf(l, s, behind);
      if IsFrame(l.marker) {
        es, header, rest := [], e, later;
      } else {
        es, header, rest := WalkOnlyReadsStreams(later);
        es := Prepended(e, es, header, rest, s);
      }
    }
  }

  lemma Prepended(e: Element, es: seq<Element>, header: Element, rest: seq<byte>, s: seq<byte>) returns (more: seq<Element>)
    requires IsSkippable(e) && AllSkippable(es) && IsFrameHeader(header)
    requires s == ElementBytes(e) + StreamBytes(es, header, rest)
    ensures AllSkippable(more) && s == StreamBytes(more, header, rest)
  {
    more := [e] + es;
    assert more[1..] == es;
  }

  const SOI: seq<byte> := [0xFF, 0xD8]

  /** data is a JPEG that reaches this frame header after these elements. */
  predicate IsStream(data: seq<byte>, es: seq<Element>, header: Element, rest: seq<byte>) {
    AllSkippable(es) && IsFrameHeader(header) && data == SOI + StreamBytes(es, header, rest)
  }

  /** jpeg_dimensions finds dimensions exactly in such data, and exactly those of that header. */
  lemma DimensionsIffStream(data: seq<byte>, found: (nat, nat))
    ensures (|data| >= 2 && data[..2] == SOI && Walk(data[2..]) == Some(found))
            <==> exists es, header, rest :: IsStream(data, es, header, rest) && Dimensions(header) == found
  {
    if |data| >= 2 && data[..2] == SOI && Walk(data[2..]) == Some(found) {
      var es, header, rest := WalkOnlyReadsStreams(data[2..]);
      WalkInvertsStream(es, header, rest);
      assert data == SOI + data[2..];
      assert IsStream(data, es, header, rest);
    }
    if es, header, rest :| IsStream(data, es, header, rest) && Dimensions(header) == found {
      WalkInvertsStream(es, header, rest);
      assert data[2..] == StreamBytes(es, header, rest);
    }
  }

  // ---- PNG ----

  const PNG_SIGNATURE: seq<byte> := [0x89, 0x50, 0x4E, 0x47, 0x0D, 0x0A, 0x1A, 0x0A]
  const IHDR: seq<byte> := [0x49, 0x48, 0x44, 0x52]

  function Int32(b: seq<byte>): nat
    requires |b| == 4
  {
    BigEndian(b[0], b[1]) * 65536 + BigEndian(b[2], b[3])
  }

  function PngDimensions(data: seq<byte>): Option<(nat, nat)> {
    if |data| < 24 || data[..8] != PNG_SIGNATURE || data[12..16] != IHDR then None
    else Some((Int32(data[16..20]), Int32(data[20..24])))
  }

  /** image_dimensions: a file is never both. */
  lemma SignaturesExclude(data: seq<byte>)
    requires |data| >= 2
    ensures PngDimensions(data).Some? ==> data[..2] != SOI
  {
    if PngDimensions(data).Some? {
      assert data[..8][0] == 0x89;
      assert data[..2][0] == data[0] == data[..8][0];
    }
  }
}
