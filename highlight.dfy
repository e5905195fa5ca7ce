/**
 * Highlight rendering. The text is turned into a document of segments: plain
 * characters and markers, each marker carrying the attributes the overlay
 * inspects on hover (the offending word, the comma-joined suggestions, the
 * message) and the part of the document it wraps.
 *
 * The renderer sorts a copy of the error list by descending offset and wraps one
 * span after the other, each time cutting the current document with `substring`
 * at the error's offset and end. `Render` is that computation; `Reference`
 * instead builds the document from slices of the ORIGINAL text. The two agree for
 * in-bounds, disjoint spans (`RenderMatchesReference`), which is why working from
 * the right never moves a span that has not been wrapped yet.
 */
module Highlight {
  import opened Js
  import opened GrammarCheck

  datatype Segment =
    | Ch(c: char)
    | Marker(bad: string, suggestions: string, message: string, inner: seq<Segment>)

  /** The document of a text with nothing highlighted. */
  function Plain(s: string): (r: seq<Segment>)
    ensures |r| == |s|
    decreases |s|
  {
    if |s| == 0 then [] else [Ch(s[0])] + Plain(s[1..])
  }

  /** The marker for error `e` around `inner`; its suggestions attribute is `suggestions.join(',')`. */
  function MarkerOf(e: GrammarError, inner: seq<Segment>): Segment {
    Marker(e.bad, Join(e.suggestions, ','), e.message, inner)
  }

  /** The text a document shows once every marker is removed and its contents kept. */
  function Strip(doc: seq<Segment>): string
    decreases doc
  {
    if |doc| == 0 then ""
    else
      var head := match doc[0]
        case Ch(c) => [c]
        case Marker(_, _, _, inner) => Strip(inner);
      head + Strip(doc[1..])
  }

  /** The markers at the top level of a document, left to right. */
  function Markers(doc: seq<Segment>): seq<Segment>
    decreases |doc|
  {
    if |doc| == 0 then []
    else (if doc[0].Marker? then [doc[0]] else []) + Markers(doc[1..])
  }

  // ----- The stable sort by descending offset -----

  predicate SortedDesc(d: seq<GrammarError>) {
    forall i, j :: 0 <= i < j < |d| ==> d[i].offset >= d[j].offset
  }

  /** Places `e` before the first element whose offset is not larger. */
  function Insert(e: GrammarError, d: seq<GrammarError>): (r: seq<GrammarError>)
    ensures multiset(r) == multiset(d) + multiset{e}
    ensures |r| == |d| + 1 && (r[0] == e || (|d| > 0 && r[0] == d[0]))
    decreases |d|
  {
    if |d| == 0 || e.offset >= d[0].offset then [e] + d
    else
      assert d == [d[0]] + d[1..];
      [d[0]] + Insert(e, d[1..])
  }

  lemma {:induction false} InsertSorted(e: GrammarError, d: seq<GrammarError>)
    requires SortedDesc(d)
    ensures SortedDesc(Insert(e, d))
    decreases |d|
  {
    if |d| > 0 && e.offset < d[0].offset {
      var tail := Insert(e, d[1..]);
      InsertSorted(e, d[1..]);
      assert tail[0].offset <= d[0].offset;
      assert Insert(e, d) == [d[0]] + tail;
    }
  }

  /**
   * `[...errors].sort((a, b) => b.offset - a.offset)`: a new list, sorted by
   * descending offset, holding the same errors. `Array.prototype.sort` is stable,
   * and so is this insertion sort (`SortIsStable`).
   */
  function SortByOffsetDesc(errs: seq<GrammarError>): (r: seq<GrammarError>)
    ensures multiset(r) == multiset(errs)
    ensures SortedDesc(r)
    decreases |errs|
  {
    if |errs| == 0 then []
    else
      assert errs == [errs[0]] + errs[1..];
      InsertSorted(errs[0], SortByOffsetDesc(errs[1..]));
      Insert(errs[0], SortByOffsetDesc(errs[1..]))
  }

  /** The errors of `d` whose offset is `v`, in their order in `d`. */
  function WithOffset(d: seq<GrammarError>, v: int): seq<GrammarError>
    decreases |d|
  {
    if |d| == 0 then []
    else (if d[0].offset == v then [d[0]] else []) + WithOffset(d[1..], v)
  }

  lemma {:induction false} InsertWithOffset(e: GrammarError, d: seq<GrammarError>, v: int)
    ensures WithOffset(Insert(e, d), v) == (if e.offset == v then [e] else []) + WithOffset(d, v)
    decreases |d|
  {
    var pick := if e.offset == v then [e] else [];
    if |d| == 0 || e.offset >= d[0].offset {
      assert Insert(e, d) == [e] + d;
      assert ([e] + d)[1..] == d;
    } else {
      var tail := Insert(e, d[1..]);
      var keep := if d[0].offset == v then [d[0]] else [];
      assert Insert(e, d) == [d[0]] + tail;
      assert ([d[0]] + tail)[1..] == tail;
      InsertWithOffset(e, d[1..], v);
      assert WithOffset(Insert(e, d), v) == keep + (pick + WithOffset(d[1..], v));
      assert WithOffset(d, v) == keep + WithOffset(d[1..], v);
      assert pick == [] || keep == [];
    }
  }

  /** The sort keeps errors with equal offsets in their original order. */
  lemma {:induction false} SortIsStable(errs: seq<GrammarError>, v: int)
    ensures WithOffset(SortByOffsetDesc(errs), v) == WithOffset(errs, v)
    decreases |errs|
  {
    if |errs| > 0 {
      SortIsStable(errs[1..], v);
      InsertWithOffset(errs[0], SortByOffsetDesc(errs[1..]), v);
    }
  }

  // ----- Rendering as the component computes it -----

  /** One iteration of the render loop: wrap `[e.offset, e.offset + e.length)` of `doc`. */
  function Wrap(doc: seq<Segment>, e: GrammarError): (r: seq<Segment>)
    ensures 0 <= e.offset <= e.offset + e.length <= |doc| ==>
      && r == doc[..e.offset] + [MarkerOf(e, doc[e.offset..e.offset + e.length])] + doc[e.offset + e.length..]
      && |r| == |doc| - e.length + 1
  {
    Substring(doc, 0, e.offset)
    + [MarkerOf(e, Substring(doc, e.offset, e.offset + e.length))]
    + SubstringFrom(doc, e.offset + e.length)
  }

  /** Wrapping the errors of `d` one after the other, first to last. */
  function WrapAll(doc: seq<Segment>, d: seq<GrammarError>): seq<Segment>
    decreases |d|
  {
    if |d| == 0 then doc else WrapAll(Wrap(doc, d[0]), d[1..])
  }

  /** `getTextWithHighlights`: the text alone without errors; otherwise every span wrapped, highest offset first. */
  function Render(text: string, errs: seq<GrammarError>): seq<Segment> {
    if |errs| == 0 then Plain(text) else WrapAll(Plain(text), SortByOffsetDesc(errs))
  }

  // ----- The reference: slices of the original text -----

  predicate InBounds(text: string, e: GrammarError) {
    0 <= e.offset && 0 < e.length && e.offset + e.length <= |text|
  }

  predicate Disjoint(a: GrammarError, b: GrammarError) {
    a.offset + a.length <= b.offset || b.offset + b.length <= a.offset
  }

  /** Every span lies inside the text, is not empty, and no two spans overlap. */
  predicate WellPlaced(text: string, errs: seq<GrammarError>) {
    && (forall i :: 0 <= i < |errs| ==> InBounds(text, errs[i]))
    && (forall i, j :: 0 <= i < |errs| && 0 <= j < |errs| && i != j ==> Disjoint(errs[i], errs[j]))
  }

  /** `d` lists non-empty spans from right to left, each ending at or before the start of the previous one, the first by `bound`. */
  predicate DescChain(text: string, bound: int, d: seq<GrammarError>)
    decreases |d|
  {
    && 0 <= bound <= |text|
    && (|d| > 0 ==>
         && 0 <= d[0].offset && 0 < d[0].length && d[0].offset + d[0].length <= bound
         && DescChain(text, d[0].offset, d[1..]))
  }

  /** `text[..bound]` with the spans of `d` wrapped, assembled from the original text. */
  function Reference(text: string, bound: int, d: seq<GrammarError>): seq<Segment>
    requires DescChain(text, bound, d)
    decreases |d|
  {
    if |d| == 0 then Plain(text[..bound])
    else
      var e := d[0];
      Reference(text, e.offset, d[1..])
      + [MarkerOf(e, Plain(text[e.offset..e.offset + e.length]))]
      + Plain(text[e.offset + e.length..bound])
  }

  lemma {:induction false} PlainConcat(a: string, b: string)
    ensures Plain(a + b) == Plain(a) + Plain(b)
    decreases |a|
  {
    if |a| == 0 {
      assert a + b == b;
    } else {
      assert (a + b)[0] == a[0];
      assert (a + b)[1..] == a[1..] + b;
      PlainConcat(a[1..], b);
    }
  }

  /** Cutting a three-part sequence at the part boundaries gives back the parts. */
  lemma CutThree<T>(a: seq<T>, b: seq<T>, c: seq<T>)
    ensures Substring(a + b + c, 0, |a|) == a
    ensures Substring(a + b + c, |a|, |a| + |b|) == b
    ensures SubstringFrom(a + b + c, |a| + |b|) == c
  {
    assert (a + b + c)[..|a|] == a;
    assert (a + b + c)[|a|..|a| + |b|] == b;
    assert (a + b + c)[|a| + |b|..] == c;
  }

  /** `text[..bound]` is the text before a span, the span, and the text after it. */
  lemma SliceThree(text: string, o: int, l: int, bound: int)
    requires 0 <= o <= o + l <= bound <= |text|
    ensures text[..o] + text[o..o + l] + text[o + l..bound] == text[..bound]
  {
    var tail := text[o..bound];
    assert tail[..l] == text[o..o + l];
    assert tail[l..] == text[o + l..bound];
    assert tail == tail[..l] + tail[l..];
    assert text[..bound] == text[..o] + tail;
  }

  /** The document `Plain(text[..bound]) + tail`, split at the span of `e`. */
  lemma PlainAround(text: string, bound: int, o: int, l: int)
    requires 0 <= o && 0 <= l && o + l <= bound <= |text|
    ensures Plain(text[..bound]) == Plain(text[..o]) + Plain(text[o..o + l]) + Plain(text[o + l..bound])
  {
    SliceThree(text, o, l, bound);
    PlainConcat(text[..o] + text[o..o + l], text[o + l..bound]);
    PlainConcat(text[..o], text[o..o + l]);
  }

  /** One wrap inside the untouched prefix `text[..bound]`: the marker's contents and both sides come from the original text. */
  lemma WrapInPrefix(text: string, bound: int, e: GrammarError, tail: seq<Segment>)
    requires 0 <= e.offset && 0 <= e.length && e.offset + e.length <= bound <= |text|
    ensures Wrap(Plain(text[..bound]) + tail, e)
         == Plain(text[..e.offset])
            + ([MarkerOf(e, Plain(text[e.offset..e.offset + e.length]))] + Plain(text[e.offset + e.length..bound]) + tail)
  {
    var o, l := e.offset, e.length;
    var a, b, c := Plain(text[..o]), Plain(text[o..o + l]), Plain(text[o + l..bound]) + tail;
    PlainAround(text, bound, o, l);
    assert Plain(text[..bound]) + tail == a + b + c;
    CutThree(a, b, c);
  }

  lemma ConcatRegroup<T>(a: seq<T>, b: seq<T>, c: seq<T>, t: seq<T>)
    ensures a + (b + c + t) == a + b + c + t
  {
  }

  /** Wrapping inside the untouched prefix `text[..bound]` of a document builds the reference. */
  lemma {:induction false} WrapAllMatchesReference(text: string, bound: int, d: seq<GrammarError>, tail: seq<Segment>)
    requires DescChain(text, bound, d)
    ensures WrapAll(Plain(text[..bound]) + tail, d) == Reference(text, bound, d) + tail
    decreases |d|
  {
    if |d| > 0 {
      var e := d[0];
      var o, l := e.offset, e.length;
      var rest := [MarkerOf(e, Plain(text[o..o + l]))] + Plain(text[o + l..bound]) + tail;
      var h := Plain(text[..bound]) + tail;
      WrapInPrefix(text, bound, e, tail);
      assert WrapAll(h, d) == WrapAll(Wrap(h, e), d[1..]);
      WrapAllMatchesReference(text, o, d[1..], rest);
      var r := Reference(text, o, d[1..]);
      var m := MarkerOf(e, Plain(text[o..o + l]));
      assert Reference(text, bound, d) == r + [m] + Plain(text[o + l..bound]);
      ConcatRegroup(r, [m], Plain(text[o + l..bound]), tail);
    }
  }

  lemma SortedWellPlacedChain(text: string, bound: int, d: seq<GrammarError>)
    requires SortedDesc(d) && WellPlaced(text, d)
    requires 0 <= bound <= |text|
    requires forall i :: 0 <= i < |d| ==> d[i].offset + d[i].length <= bound
    ensures DescChain(text, bound, d)
    decreases |d|
  {
    if |d| > 0 {
      forall i | 0 <= i < |d| - 1
        ensures d[1..][i].offset + d[1..][i].length <= d[0].offset
      {
        assert Disjoint(d[0], d[i + 1]);
      }
      WellPlacedTail(text, d);
      SortedWellPlacedChain(text, d[0].offset, d[1..]);
    }
  }

  lemma WellPlacedTail(text: string, d: seq<GrammarError>)
    requires |d| > 0 && WellPlaced(text, d)
    ensures WellPlaced(text, d[1..])
  {
    forall i, j | 0 <= i < |d| - 1 && 0 <= j < |d| - 1 && i != j
      ensures Disjoint(d[1..][i], d[1..][j])
    {
      assert Disjoint(d[i + 1], d[j + 1]);
    }
  }

  lemma WellPlacedCons(text: string, x: GrammarError, d: seq<GrammarError>)
    requires WellPlaced(text, d) && InBounds(text, x)
    requires forall y :: y in d ==> Disjoint(x, y)
    ensures WellPlaced(text, [x] + d)
  {
    var r := [x] + d;
    forall i, j | 0 <= i < |r| && 0 <= j < |r| && i != j ensures Disjoint(r[i], r[j]) {
      if i == 0 {
        assert d[j - 1] in d;
      } else if j == 0 {
        assert d[i - 1] in d;
      } else {
        assert Disjoint(d[i - 1], d[j - 1]);
      }
    }
  }

  lemma {:induction false} InsertWellPlaced(text: string, e: GrammarError, d: seq<GrammarError>)
    requires WellPlaced(text, d) && InBounds(text, e)
    requires forall x :: x in d ==> Disjoint(e, x)
    ensures WellPlaced(text, Insert(e, d))
    decreases |d|
  {
    if |d| > 0 && e.offset < d[0].offset {
      WellPlacedTail(text, d);
      InsertWellPlaced(text, e, d[1..]);
      var tail := Insert(e, d[1..]);
      forall x | x in tail ensures Disjoint(d[0], x) {
        assert x in multiset(tail);
        if x == e {
          assert d[0] in d && Disjoint(e, d[0]);
        } else {
          var m :| 0 <= m < |d[1..]| && d[1..][m] == x;
          assert Disjoint(d[0], d[m + 1]);
        }
      }
      assert InBounds(text, d[0]);
      WellPlacedCons(text, d[0], tail);
      assert Insert(e, d) == [d[0]] + tail;
    } else {
      WellPlacedCons(text, e, d);
      assert Insert(e, d) == [e] + d;
    }
  }

  /** Sorting keeps the spans inside the text and pairwise disjoint. */
  lemma {:induction false} SortWellPlaced(text: string, errs: seq<GrammarError>)
    requires WellPlaced(text, errs)
    ensures WellPlaced(text, SortByOffsetDesc(errs))
    decreases |errs|
  {
    if |errs| > 0 {
      var rest := errs[1..];
      WellPlacedTail(text, errs);
      SortWellPlaced(text, rest);
      var sorted := SortByOffsetDesc(rest);
      forall x | x in sorted ensures Disjoint(errs[0], x) {
        assert x in multiset(sorted);
        var m :| 0 <= m < |rest| && rest[m] == x;
        assert Disjoint(errs[0], errs[m + 1]);
      }
      InsertWellPlaced(text, errs[0], sorted);
    }
  }

  /**
   * For in-bounds, disjoint spans the rendered document is the reference one:
   * cutting the working document at each offset, right to left, finds the same
   * characters as cutting the original text.
   */
  lemma RenderMatchesReference(text: string, errs: seq<GrammarError>)
    requires WellPlaced(text, errs)
    ensures DescChain(text, |text|, SortByOffsetDesc(errs))
    ensures Render(text, errs) == Reference(text, |text|, SortByOffsetDesc(errs))
  {
    var d := SortByOffsetDesc(errs);
    SortWellPlaced(text, errs);
    forall i | 0 <= i < |d| ensures d[i].offset + d[i].length <= |text| {
      assert InBounds(text, d[i]);
    }
    SortedWellPlacedChain(text, |text|, d);
    assert text[..|text|] == text;
    assert Plain(text[..|text|]) + [] == Plain(text);
    WrapAllMatchesReference(text, |text|, d, []);
  }

  // ----- What the reference document shows -----

  lemma {:induction false} StripConcat(a: seq<Segment>, b: seq<Segment>)
    ensures Strip(a + b) == Strip(a) + Strip(b)
    decreases |a|
  {
    if |a| > 0 {
      assert (a + b)[0] == a[0];
      assert (a + b)[1..] == a[1..] + b;
      StripConcat(a[1..], b);
    } else {
      assert a + b == b;
    }
  }

  lemma {:induction false} StripPlain(s: string)
    ensures Strip(Plain(s)) == s
    decreases |s|
  {
    if |s| > 0 {
      assert Plain(s)[1..] == Plain(s[1..]);
      StripPlain(s[1..]);
      assert [s[0]] + s[1..] == s;
    }
  }

  lemma {:induction false} MarkersConcat(a: seq<Segment>, b: seq<Segment>)
    ensures Markers(a + b) == Markers(a) + Markers(b)
    decreases |a|
  {
    if |a| > 0 {
      assert (a + b)[0] == a[0];
      assert (a + b)[1..] == a[1..] + b;
      MarkersConcat(a[1..], b);
    } else {
      assert a + b == b;
    }
  }

  lemma {:induction false} MarkersPlain(s: string)
    ensures Markers(Plain(s)) == []
    decreases |s|
  {
    if |s| > 0 {
      assert Plain(s)[1..] == Plain(s[1..]);
      MarkersPlain(s[1..]);
    }
  }

  lemma StripAroundMarker(before: seq<Segment>, m: Segment, after: seq<Segment>)
    requires m.Marker?
    ensures Strip(before + [m] + after) == Strip(before) + Strip(m.inner) + Strip(after)
  {
    StripConcat(before + [m], after);
    StripConcat(before, [m]);
    assert Strip([m]) == Strip(m.inner) by {
      assert [m][1..] == [];
    }
  }

  /** Removing the markers of the reference document gives back the text it covers. */
  lemma {:induction false} ReferenceLossless(text: string, bound: int, d: seq<GrammarError>)
    requires DescChain(text, bound, d)
    ensures Strip(Reference(text, bound, d)) == text[..bound]
    decreases |d|
  {
    if |d| == 0 {
      StripPlain(text[..bound]);
    } else {
      var e := d[0];
      var o, l := e.offset, e.length;
      ReferenceLossless(text, o, d[1..]);
      var before := Reference(text, o, d[1..]);
      var inside := text[o..o + l];
      var rest := text[o + l..bound];
      var m := MarkerOf(e, Plain(inside));
      assert Reference(text, bound, d) == before + [m] + Plain(rest);
      StripAroundMarker(before, m, Plain(rest));
      StripPlain(inside);
      StripPlain(rest);
      SliceThree(text, o, l, bound);
    }
  }

  /** The marker the reference puts around the span of `e`: the original characters of that span. */
  function Expected(text: string, e: GrammarError): Segment {
    MarkerOf(e, Plain(Substring(text, e.offset, e.offset + e.length)))
  }

  /** The markers expected for the spans of `d`: `d` lists the spans right to left, the result lists the markers left to right. */
  function ExpectedMarkers(text: string, d: seq<GrammarError>): (r: seq<Segment>)
    ensures |r| == |d|
    ensures forall x :: x in d ==> Expected(text, x) in r
    decreases |d|
  {
    if |d| == 0 then [] else ExpectedMarkers(text, d[1..]) + [Expected(text, d[0])]
  }

  /** The reference holds one marker per error, left to right, each around its span of the original text. */
  lemma {:induction false} ReferenceMarkers(text: string, bound: int, d: seq<GrammarError>)
    requires DescChain(text, bound, d)
    ensures Markers(Reference(text, bound, d)) == ExpectedMarkers(text, d)
    decreases |d|
  {
    if |d| == 0 {
      MarkersPlain(text[..bound]);
    } else {
      var e := d[0];
      var o, l := e.offset, e.length;
      ReferenceMarkers(text, o, d[1..]);
      var before := Reference(text, o, d[1..]);
      var m := MarkerOf(e, Plain(text[o..o + l]));
      var after := Plain(text[o + l..bound]);
      assert Reference(text, bound, d) == before + [m] + after;
      MarkersConcat(before + [m], after);
      MarkersConcat(before, [m]);
      MarkersPlain(text[o + l..bound]);
      assert Markers([m]) == [m] by {
        assert [m][1..] == [];
      }
      assert m == Expected(text, e);
    }
  }

  lemma RenderedMarkers(text: string, errs: seq<GrammarError>)
    requires WellPlaced(text, errs)
    ensures |Markers(Render(text, errs))| == |errs|
    ensures forall i :: 0 <= i < |errs| ==> Expected(text, errs[i]) in Markers(Render(text, errs))
  {
    var d := SortByOffsetDesc(errs);
    RenderMatchesReference(text, errs);
    ReferenceMarkers(text, |text|, d);
    assert |d| == |errs| by {
      assert |multiset(d)| == |multiset(errs)|;
    }
    forall i | 0 <= i < |errs| ensures errs[i] in d {
      assert errs[i] in multiset(d);
    }
  }

  /**
   * With in-bounds, disjoint spans the rendering loses nothing: removing the
   * markers gives back the text; and there is exactly one marker per error, each
   * wrapping `text[offset..offset + length]`, however many errors there are.
   */
  lemma HighlightsWrapOriginalSpans(text: string, errs: seq<GrammarError>)
    requires WellPlaced(text, errs)
    ensures Strip(Render(text, errs)) == text
    ensures |Markers(Render(text, errs))| == |errs|
    ensures Markers(Render(text, errs)) == ExpectedMarkers(text, SortByOffsetDesc(errs))
    ensures forall i :: 0 <= i < |errs| ==>
      MarkerOf(errs[i], Plain(text[errs[i].offset..errs[i].offset + errs[i].length])) in Markers(Render(text, errs))
  {
    RenderMatchesReference(text, errs);
    ReferenceLossless(text, |text|, SortByOffsetDesc(errs));
    ReferenceMarkers(text, |text|, SortByOffsetDesc(errs));
    assert text[..|text|] == text;
    RenderedMarkers(text, errs);
    forall i | 0 <= i < |errs|
      ensures Expected(text, errs[i]) == MarkerOf(errs[i], Plain(text[errs[i].offset..errs[i].offset + errs[i].length]))
    {
      assert InBounds(text, errs[i]);
    }
  }

  /** Without errors the overlay shows the text alone. */
  lemma NoErrorsRenderText(text: string)
    ensures Render(text, []) == Plain(text)
    ensures Strip(Render(text, [])) == text
    ensures Markers(Render(text, [])) == []
  {
    StripPlain(text);
    MarkersPlain(text);
  }
}
