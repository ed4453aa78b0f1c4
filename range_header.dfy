/** The `Range` request header parser and the `Content-Range` formatter of
    a storage worker: a single byte range, after section 2.1 of RFC 7233,
    becomes the descriptor a ranged storage read accepts, and a descriptor
    plus an object size becomes a `Content-Range` value (section 4.2 of
    RFC 7233). */
module RangeHeader {
  import opened Wrappers
  import opened JsText

  /** The descriptor a ranged read accepts. Exactly one shape per value;
      the single-sided shapes may hold `NaN` (`None`), because the parser
      stores `parseInt`'s result there without checking it. */
  datatype ByteRange =
    | OffsetLength(offset: int, length: int)  // bytes offset .. offset + length - 1
    | OffsetOnly(start: Number)               // from start to the end of the object
    | Suffix(suffix: Number)                  // the last `suffix` bytes

  /** What the parser can produce: no negative value, and a positive length
      whenever an offset and a length are both present. */
  predicate WellFormed(r: ByteRange) {
    match r
    case OffsetLength(offset, length) => offset >= 0 && length >= 1
    case OffsetOnly(start) => start.None? || start.value >= 0
    case Suffix(suffix) => suffix.None? || suffix.value >= 0
  }

  /** The range unit the parser looks for. */
  const Unit: string := "bytes="

  // ---------------------------------------------------------------------
  // parseRange
  // ---------------------------------------------------------------------

  /** `str.split('bytes=')[1] ?? ''`: the text after the first `bytes=`, up
      to the next `bytes=` or the end; empty when there is no `bytes=`. */
  function RangeSpecText(header: string): (t: string)
    ensures IndexOf(header, Unit).None? ==> t == ""
    ensures IndexOf(t, Unit).None?
  {
    var parts := Split(header, Unit);
    if |parts| > 1 then parts[1] else ""
  }

  /** `parseRange`: the descriptor a `Range` header asks for, or `None` when
      the header is not one this worker serves. A result only ever comes
      from a header holding `bytes=` whose range-spec has no comma and
      exactly one dash, and it is always well formed. */
  function ParseRange(header: string): (r: Option<ByteRange>)
    ensures r.Some? ==> IndexOf(header, Unit).Some? && RangeSpecText(header) != ""
    ensures r.Some? ==> ',' !in RangeSpecText(header)
    ensures r.Some? ==> multiset(RangeSpecText(header))['-'] == 1
    ensures r.Some? ==> WellFormed(r.value)
  {
    ParseRangeSpec(RangeSpecText(header))
  }

  /** The range-spec after `bytes=`: rejected when empty or when it lists
      more than one range (a comma). */
  function ParseRangeSpec(spec: string): (r: Option<ByteRange>)
    ensures r.Some? ==> spec != "" && ',' !in spec && multiset(spec)['-'] == 1
    ensures r.Some? ==> WellFormed(r.value)
  {
    if spec == "" then None
    else
      var ranges := Split(spec, ",");
      SplitCharCount(spec, ',');
      if |ranges| > 1 then None
      else
        SplitWithoutChar(spec, ',');
        ParseSingleRange(ranges[0])
  }

  /** One range: rejected unless it splits on `-` into exactly two sides,
      that is, unless it holds exactly one dash. */
  function ParseSingleRange(range: string): (r: Option<ByteRange>)
    ensures r.Some? ==> multiset(range)['-'] == 1
    ensures r.Some? ==> WellFormed(r.value)
  {
    var sides := Split(range, "-");
    SplitCharCount(range, '-');
    if |sides| != 2 then None
    else
      CharOccurrence(sides[0], '-');
      CharOccurrence(sides[1], '-');
      ClassifyRange(sides[0], sides[1])
  }

  /** The two sides of the dash pick the shape: none (both empty), a
      suffix, an open-ended offset, or an offset and a length. The
      single-sided shapes keep `parseInt`'s result as it is, NaN included. */
  function ClassifyRange(firstByte: string, lastByte: string): (r: Option<ByteRange>)
    ensures '-' !in firstByte && '-' !in lastByte && r.Some? ==> WellFormed(r.value)
  {
    if firstByte == "" && lastByte == "" then None
    else if firstByte == "" then Some(Suffix(ParseInt(lastByte)))
    else if lastByte == "" then Some(OffsetOnly(ParseInt(firstByte)))
    else RangeFromEnds(ParseInt(firstByte), ParseInt(lastByte))
  }

  /** A first and a last byte position: rejected when either is NaN or when
      the length `end - offset + 1` is not positive. */
  function RangeFromEnds(offset: Number, end: Number): (r: Option<ByteRange>)
    ensures r.Some? <==> offset.Some? && end.Some? && offset.value <= end.value
    ensures r.Some? ==> r.value.OffsetLength? && r.value.offset == offset.value
    ensures r.Some? ==> r.value.offset + r.value.length - 1 == end.value
  {
    if offset.None? || end.None? then None
    else
      var length := end.value - offset.value + 1;
      if length <= 0 then None
      else Some(OffsetLength(offset.value, length))
  }

  // ---------------------------------------------------------------------
  // makeContentRange
  // ---------------------------------------------------------------------

  /** `range.offset`: `None` when the property is absent (`undefined`). */
  function OffsetProperty(r: ByteRange): (p: Option<Number>)
    ensures p.None? <==> r.Suffix?
  {
    match r
    case OffsetLength(offset, _) => Some(Some(offset))
    case OffsetOnly(start) => Some(start)
    case Suffix(_) => None
  }

  /** `range.length`: `None` when the property is absent (`undefined`). */
  function LengthProperty(r: ByteRange): (p: Option<Number>)
    ensures p.Some? <==> r.OffsetLength?
  {
    match r
    case OffsetLength(_, length) => Some(Some(length))
    case _ => None
  }

  /** `p ?? d`: only an absent property falls back; `NaN` does not. */
  function Coalesce(p: Option<Number>, d: Number): Number
  {
    match p
    case None => d
    case Some(x) => x
  }

  /** `x + y` on numbers; `NaN` absorbs. */
  function Plus(x: Number, y: Number): (r: Number)
    ensures r.Some? <==> x.Some? && y.Some?
  {
    if x.Some? && y.Some? then Some(x.value + y.value) else None
  }

  /** The template `${offset}-${offset + length - 1}/${size}`. */
  function RenderContentRange(offset: Number, length: Number, size: nat): string
  {
    NumberToString(offset) + "-" + NumberToString(Plus(Plus(offset, length), Some(-1)))
      + "/" + NatToString(size)
  }

  /** `makeContentRange` as written: the empty string without a range, and
      otherwise a value whose `length` is read from the `offset` property,
      so the end position is always twice the offset minus one. */
  function MakeContentRange(range: Option<ByteRange>, size: nat): (v: string)
    ensures v == "" <==> range.None?
  {
    if range.None? then ""
    else
      var offset := Coalesce(OffsetProperty(range.value), Some(0));
      var length := Coalesce(OffsetProperty(range.value), Some(0));
      RenderContentRange(offset, length, size)
  }

  /** `makeContentRange` with `length` read from the `length` property, as
      the template `offset + length - 1` intends. */
  function IntendedContentRange(range: Option<ByteRange>, size: nat): (v: string)
    ensures v == "" <==> range.None?
  {
    if range.None? then ""
    else
      var offset := Coalesce(OffsetProperty(range.value), Some(0));
      var length := Coalesce(LengthProperty(range.value), Some(0));
      RenderContentRange(offset, length, size)
  }

  // ---------------------------------------------------------------------
  // Canonical headers: the inverse of ParseRange
  // ---------------------------------------------------------------------

  /** A `Range` header that asks for `r`: `bytes=first-last`, `bytes=first-`
      or `bytes=-suffix`. */
  function RangeHeaderOf(r: ByteRange): (h: string)
    ensures Unit <= h
  {
    match r
    case OffsetLength(offset, length) =>
      Unit + IntToString(offset) + "-" + IntToString(offset + length - 1)
    case OffsetOnly(start) => Unit + NumberToString(start) + "-"
    case Suffix(suffix) => Unit + "-" + NumberToString(suffix)
  }

  // ---------------------------------------------------------------------
  // Where the range-spec is taken from
  // ---------------------------------------------------------------------

  /** Text without `=` holds no `bytes=`. */
  lemma NoUnitWithoutEquals(s: string)
    requires '=' !in s
    ensures IndexOf(s, Unit).None?
  {
    if IndexOf(s, Unit).Some? {
      UnitEndsWithEquals(s, IndexOf(s, Unit).value);
      assert false;
    }
  }

  /** Every occurrence of `bytes=` ends in `=`. */
  lemma UnitEndsWithEquals(s: string, j: nat)
    requires OccursAt(s, Unit, j)
    ensures j + 5 < |s| && s[j + 5] == '='
  {
    assert s[j..j + |Unit|][5] == s[j + 5];
  }

  /** When `pre` holds no `bytes=`, the first `bytes=` of
      `pre + "bytes=" + rest` is the one right after `pre`: no occurrence
      can straddle the end of `pre`, as `=` comes last in `bytes=`. */
  lemma {:induction false} UnitAfterPlainText(pre: string, rest: string)
    requires IndexOf(pre, Unit).None?
    ensures IndexOf(pre + Unit + rest, Unit) == Some(|pre|)
  {
    var s := pre + Unit + rest;
    assert s[|pre|..|pre| + |Unit|] == Unit;
    forall j: nat | j < |pre|
      ensures !OccursAt(s, Unit, j)
    {
      if j + |Unit| <= |pre| {
        assert s[j..j + |Unit|] == pre[j..j + |Unit|];
        assert !OccursAt(pre, Unit, j);
      } else {
        assert s[j + 5] == Unit[j + 5 - |pre|] != '=';
        if OccursAt(s, Unit, j) {
          UnitEndsWithEquals(s, j);
        }
      }
    }
    IndexOfIs(s, Unit, |pre|);
  }

  /** The range-spec is what follows the first `bytes=` up to the next
      `bytes=`; whatever precedes the first `bytes=` plays no part. */
  lemma {:induction false} RangeSpecTextAfterUnit(pre: string, rest: string)
    requires IndexOf(pre, Unit).None?
    ensures RangeSpecText(pre + Unit + rest) == Split(rest, Unit)[0]
  {
    var h := pre + Unit + rest;
    UnitAfterPlainText(pre, rest);
    assert h[|pre| + |Unit|..] == rest;
    assert Split(h, Unit) == [h[..|pre|]] + Split(rest, Unit);
  }

  /** The first piece of `seg + post`, split on `bytes=`, is `seg` when
      `seg` holds no `bytes=` and `post` is empty or starts with one. */
  lemma {:induction false} FirstPieceOf(seg: string, post: string)
    requires IndexOf(seg, Unit).None?
    requires post == "" || Unit <= post
    ensures Split(seg + post, Unit)[0] == seg
  {
    if post == "" {
      assert seg + post == seg;
    } else {
      var tail := post[|Unit|..];
      assert post == Unit + tail;
      assert seg + post == seg + Unit + tail;
      UnitAfterPlainText(seg, tail);
      assert (seg + Unit + tail)[..|seg|] == seg;
    }
  }

  /** Leading text before the first `bytes=` is ignored, not rejected:
      `"xbytes=0-1"` parses like `"bytes=0-1"`. */
  lemma LeadingTextIgnored(pre: string, rest: string)
    requires IndexOf(pre, Unit).None?
    ensures ParseRange(pre + Unit + rest) == ParseRange(Unit + rest)
  {
    RangeSpecTextAfterUnit(pre, rest);
    RangeSpecTextAfterUnit("", rest);
    assert "" + Unit + rest == Unit + rest;
  }

  // ---------------------------------------------------------------------
  // The four shapes of a range-spec
  // ---------------------------------------------------------------------

  /** Once the range-spec is known to be `first-last` with one dash and no
      comma, the two sides alone decide the result. */
  lemma ParseRangeBySides(header: string, first: string, last: string)
    requires RangeSpecText(header) == first + "-" + last
    requires '-' !in first && '-' !in last && ',' !in first && ',' !in last
    ensures ParseRange(header) == ClassifyRange(first, last)
  {
    var spec := first + "-" + last;
    assert spec != "";
    SplitWithoutChar(spec, ',');
    SplitAroundChar(first, '-', last);
  }

  /** A range-spec `first-last` (one dash, no comma) is classified by which
      side is empty: both empty is rejected, an empty first side gives a
      suffix, an empty last side an open-ended offset, and two sides give
      an offset and a length exactly when both are numbers in order. */
  lemma ParseRangeOfSpec(header: string, first: string, last: string)
    requires RangeSpecText(header) == first + "-" + last
    requires '-' !in first && '-' !in last && ',' !in first && ',' !in last
    ensures first == "" && last == "" ==> ParseRange(header) == None
    ensures first == "" && last != "" ==> ParseRange(header) == Some(Suffix(ParseInt(last)))
    ensures first != "" && last == "" ==> ParseRange(header) == Some(OffsetOnly(ParseInt(first)))
    ensures first != "" && last != "" ==>
      (ParseRange(header).Some? <==>
         ParseInt(first).Some? && ParseInt(last).Some? && ParseInt(first).value <= ParseInt(last).value)
    ensures first != "" && last != "" && ParseRange(header).Some? ==>
      ParseRange(header) == Some(OffsetLength(ParseInt(first).value,
                                              ParseInt(last).value - ParseInt(first).value + 1))
  {
    ParseRangeBySides(header, first, last);
  }

  /** A range-spec of two number sides yields what `RangeFromEnds` makes
      of the two numbers. */
  lemma ParseRangeOfNumbers(header: string, first: string, last: string, a: int, b: int)
    requires RangeSpecText(header) == first + "-" + last
    requires '-' !in first && '-' !in last && ',' !in first && ',' !in last
    requires first != "" && last != ""
    requires ParseInt(first) == Some(a) && ParseInt(last) == Some(b)
    ensures ParseRange(header) == RangeFromEnds(Some(a), Some(b))
  {
    ParseRangeBySides(header, first, last);
  }

  /** `bytes=a-b` for decimal `a` and `b` reads as the numbers `a` and `b`. */
  lemma DecimalHeaderEnds(a: nat, b: nat, header: string)
    requires header == Unit + NatToString(a) + "-" + NatToString(b)
    ensures ParseRange(header) == RangeFromEnds(Some(a), Some(b))
  {
    var first, last := NatToString(a), NatToString(b);
    NumberText(Some(a));
    NumberText(Some(b));
    Regroup(Unit, first, "-", last);
    SpecOfPlainHeader(first + "-" + last);
    ParseIntOfNatToString(a);
    ParseIntOfNatToString(b);
    ParseRangeOfNumbers(header, first, last, a, b);
  }

  /** `bytes=a-b` for decimal `a` and `b`: the range of `b - a + 1` bytes at
      `a` when `a <= b`, and nothing when the range is inverted. */
  lemma ParseRangeDecimal(a: nat, b: nat, header: string)
    requires header == Unit + NatToString(a) + "-" + NatToString(b)
    ensures a <= b ==> ParseRange(header) == Some(OffsetLength(a, b - a + 1))
    ensures a > b ==> ParseRange(header) == None
  {
    DecimalHeaderEnds(a, b, header);
    RangeFromNumbers(a, b);
  }

  /** Two numbers in order make the range from the first to the last;
      out of order, none. */
  lemma RangeFromNumbers(a: int, b: int)
    ensures a <= b ==> RangeFromEnds(Some(a), Some(b)) == Some(OffsetLength(a, b - a + 1))
    ensures a > b ==> RangeFromEnds(Some(a), Some(b)) == None
  {
  }

  lemma Regroup(a: string, b: string, c: string, d: string)
    ensures a + b + c + d == a + (b + c + d)
  {
  }

  /** A header made of `bytes=` and text without `=` has that text as its
      range-spec. */
  lemma SpecOfPlainHeader(seg: string)
    requires '=' !in seg
    ensures RangeSpecText(Unit + seg) == seg
  {
    NoUnitWithoutEquals(seg);
    RangeSpecTextAfterUnit("", seg);
    FirstPieceOf(seg, "");
    assert "" + Unit + seg == Unit + seg && seg + "" == seg;
  }

  // ---------------------------------------------------------------------
  // Round trip: every well-formed descriptor has a header asking for it
  // ---------------------------------------------------------------------

  /** Rendered numbers hold no `=`, `-` or `,` unless they are negative. */
  lemma NumberText(x: Number)
    requires x.None? || x.value >= 0
    ensures var t := NumberToString(x); t != "" && '=' !in t && '-' !in t && ',' !in t
  {
    if x.Some? {
      assert AllDigits(NatToString(x.value));
    }
  }

  /** Parsing the canonical header of a well-formed descriptor gives that
      descriptor back; with `ParseRange`'s promise that every result is
      well formed, the well-formed descriptors are exactly what the parser
      can produce. */
  lemma ParseRangeHeaderOf(r: ByteRange)
    requires WellFormed(r)
    ensures ParseRange(RangeHeaderOf(r)) == Some(r)
  {
    match r
    case OffsetLength(offset, length) =>
      ParseRangeOffsetLength(offset, length, RangeHeaderOf(r));
    case OffsetOnly(start) =>
      ParseRangeOpenEnded(start, RangeHeaderOf(r));
    case Suffix(suffix) =>
      ParseRangeSuffix(suffix, RangeHeaderOf(r));
  }

  /** `bytes=a-b` with `b = a + length - 1` is the range of `length`
      bytes at `a`. */
  lemma ParseRangeOffsetLength(offset: int, length: int, header: string)
    requires offset >= 0 && length >= 1
    requires header == Unit + IntToString(offset) + "-" + IntToString(offset + length - 1)
    ensures ParseRange(header) == Some(OffsetLength(offset, length))
  {
    var last := offset + length - 1;
    assert IntToString(offset) == NatToString(offset);
    assert IntToString(last) == NatToString(last);
    ParseRangeDecimal(offset, last, header);
    assert last - offset + 1 == length;
  }

  /** `bytes=N-` for a rendered number `N` (NaN included) is the open-ended
      range at `N`. */
  lemma ParseRangeOpenEnded(start: Number, header: string)
    requires start.None? || start.value >= 0
    requires header == Unit + NumberToString(start) + "-"
    ensures ParseRange(header) == Some(OffsetOnly(start))
  {
    var first := NumberToString(start);
    NumberText(start);
    assert header == Unit + (first + "-" + "");
    SpecOfPlainHeader(first + "-" + "");
    ParseRangeBySides(header, first, "");
    ParseIntOfNumberToString(start);
  }

  /** `bytes=-N` for a rendered number `N` (NaN included) is the suffix of
      `N` bytes. */
  lemma ParseRangeSuffix(suffix: Number, header: string)
    requires suffix.None? || suffix.value >= 0
    requires header == Unit + "-" + NumberToString(suffix)
    ensures ParseRange(header) == Some(Suffix(suffix))
  {
    var last := NumberToString(suffix);
    NumberText(suffix);
    assert header == Unit + ("" + "-" + last);
    SpecOfPlainHeader("" + "-" + last);
    ParseRangeBySides(header, "", last);
    ParseIntOfNumberToString(suffix);
  }

  // ---------------------------------------------------------------------
  // What makeContentRange renders
  // ---------------------------------------------------------------------

  /** The rendering of two integers: `offset-(offset+length-1)/size`. */
  lemma RenderIntegers(offset: int, length: int, size: nat)
    ensures RenderContentRange(Some(offset), Some(length), size)
         == IntToString(offset) + "-" + IntToString(offset + length - 1) + "/" + NatToString(size)
  {
    assert Plus(Plus(Some(offset), Some(length)), Some(-1)) == Some(offset + length - 1);
  }

  /** As written, `makeContentRange` ignores the length: a range whose
      offset is the number `o` renders as `o-(2o-1)/size`, whatever its
      length. */
  lemma MakeContentRangeIgnoresLength(r: ByteRange, o: int, size: nat)
    requires OffsetProperty(r) == Some(Some(o))
    ensures MakeContentRange(Some(r), size)
         == IntToString(o) + "-" + IntToString(o + o - 1) + "/" + NatToString(size)
  {
    assert MakeContentRange(Some(r), size) == RenderContentRange(Some(o), Some(o), size);
    RenderIntegers(o, o, size);
  }

  /** A suffix range has no offset, so it renders as `0--1/size`. */
  lemma MakeContentRangeOfSuffix(suffix: Number, size: nat)
    ensures MakeContentRange(Some(Suffix(suffix)), size) == "0--1/" + NatToString(size)
  {
    assert MakeContentRange(Some(Suffix(suffix)), size) == RenderContentRange(Some(0), Some(0), size);
    RenderIntegers(0, 0, size);
    ZeroAndMinusOne();
  }

  lemma ZeroAndMinusOne()
    ensures IntToString(0) == "0" && IntToString(0 + 0 - 1) == "-1"
  {
    assert NatToString(1) == "1";
  }

  /** An open-ended range whose offset is NaN renders as `NaN-NaN/size`. */
  lemma MakeContentRangeOfNaN(size: nat)
    ensures MakeContentRange(Some(OffsetOnly(None)), size) == "NaN-NaN/" + NatToString(size)
  {
  }

  /** With the length read from the `length` property, an offset and a
      length render as `first-last/size`, `last` being the offset of the
      range's final byte. */
  lemma IntendedContentRangeOf(offset: int, length: int, size: nat)
    ensures IntendedContentRange(Some(OffsetLength(offset, length)), size)
         == IntToString(offset) + "-" + IntToString(offset + length - 1) + "/" + NatToString(size)
  {
    assert IntendedContentRange(Some(OffsetLength(offset, length)), size)
        == RenderContentRange(Some(offset), Some(length), size);
    RenderIntegers(offset, length, size);
  }

  /** With the length read from the `length` property, a range parsed from
      `bytes=a-b` renders back as `a-b/size`. */
  lemma IntendedContentRangeRoundTrip(a: nat, b: nat, size: nat, header: string)
    requires a <= b
    requires header == Unit + NatToString(a) + "-" + NatToString(b)
    ensures IntendedContentRange(ParseRange(header), size)
         == NatToString(a) + "-" + NatToString(b) + "/" + NatToString(size)
  {
    ParseRangeDecimal(a, b, header);
    IntendedOfParsed(ParseRange(header), a, b, size);
  }

  lemma IntendedOfParsed(r: Option<ByteRange>, a: nat, b: nat, size: nat)
    requires a <= b && r == Some(OffsetLength(a, b - a + 1))
    ensures IntendedContentRange(r, size)
         == NatToString(a) + "-" + NatToString(b) + "/" + NatToString(size)
  {
    IntendedContentRangeOf(a, b - a + 1, size);
    RenderedEnd(a, b - a + 1, b);
  }

  lemma RenderedEnd(offset: nat, length: int, last: nat)
    requires offset + length - 1 == last
    ensures IntToString(offset) == NatToString(offset)
    ensures IntToString(offset + length - 1) == NatToString(last)
  {
  }

  /** As written, that round trip fails for every range whose last byte is
      not twice its first byte minus one: the value names another end. */
  lemma MakeContentRangeMisreportsEnd(a: nat, b: nat, size: nat, header: string)
    requires a <= b && b != a + a - 1
    requires header == Unit + NatToString(a) + "-" + NatToString(b)
    ensures MakeContentRange(ParseRange(header), size)
         != NatToString(a) + "-" + NatToString(b) + "/" + NatToString(size)
  {
    ParseRangeDecimal(a, b, header);
    MakeContentRangeIgnoresLength(OffsetLength(a, b - a + 1), a, size);
    var first, size' := NatToString(a), NatToString(size);
    assert IntToString(a) == first && IntToString(b) == NatToString(b);
    EndDiffers(first + "-", a + a - 1, b, "/" + size');
    RegroupEnd(first, IntToString(a + a - 1), size');
    RegroupEnd(first, IntToString(b), size');
  }

  lemma RegroupEnd(first: string, last: string, size: string)
    ensures first + "-" + last + "/" + size == (first + "-") + (last + ("/" + size))
  {
  }

  /** Texts that differ only in a rendered number differ when the numbers do. */
  lemma EndDiffers(head: string, i: int, j: int, tail: string)
    requires i != j
    requires tail == "" || !IsDigit(tail[0])
    ensures head + (IntToString(i) + tail) != head + (IntToString(j) + tail)
  {
    if head + (IntToString(i) + tail) == head + (IntToString(j) + tail) {
      assert (head + (IntToString(i) + tail))[|head|..] == IntToString(i) + tail;
      assert (head + (IntToString(j) + tail))[|head|..] == IntToString(j) + tail;
      IntToStringInjective(i, j, tail);
    }
  }
}
