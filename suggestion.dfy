/**
 * Hovering over a marker and applying one of its suggestions.
 *
 * On hover the overlay reads the marker's attributes back: the word, the
 * suggestions (split on `,`, empty pieces dropped) and the message. Applying a
 * suggestion looks up the first error whose `bad` is the hovered word and
 * replaces that error's span; when no error has that word it replaces the first
 * occurrence of the word in the text; when the word does not occur either, the
 * text stays as it is.
 */
module Suggestion {
  import opened Wrappers
  import opened Js
  import opened GrammarCheck
  import opened Highlight

  /** The tooltip's contents (its screen position is not modelled). */
  datatype Hover = Hover(word: string, suggestions: seq<string>, message: string)

  /** `.filter(s => s)`: the non-empty strings, in order. */
  function NonEmpty(parts: seq<string>): (r: seq<string>)
    ensures forall i :: 0 <= i < |r| ==> r[i] != ""
    ensures forall x :: x in r ==> x in parts
    ensures (forall i :: 0 <= i < |parts| ==> parts[i] != "") ==> r == parts
    ensures multiset(r) == multiset(parts)["" := 0]
    decreases |parts|
  {
    if |parts| == 0 then []
    else
      assert parts == [parts[0]] + parts[1..];
      (if parts[0] == "" then [] else [parts[0]]) + NonEmpty(parts[1..])
  }

  /** Filtering a concatenation filters each part: the kept pieces stay in their order. */
  lemma {:induction false} NonEmptyConcat(a: seq<string>, b: seq<string>)
    ensures NonEmpty(a + b) == NonEmpty(a) + NonEmpty(b)
    decreases |a|
  {
    if |a| == 0 {
      assert a + b == b;
    } else {
      assert (a + b)[0] == a[0];
      assert (a + b)[1..] == a[1..] + b;
      NonEmptyConcat(a[1..], b);
    }
  }

  /** The suggestions attribute decoded as on hover: split on `,`, empty pieces dropped. */
  function DecodeSuggestions(attr: string): (r: seq<string>)
    ensures forall i :: 0 <= i < |r| ==> r[i] != "" && ',' !in r[i]
  {
    var parts := Split(attr, ',');
    assert forall x :: x in parts ==> ',' !in x;
    NonEmpty(parts)
  }

  /** Suggestions that survive the comma join: none is empty, none holds a comma. */
  predicate Encodable(suggestions: seq<string>) {
    forall i :: 0 <= i < |suggestions| ==> suggestions[i] != "" && ',' !in suggestions[i]
  }

  /** Decoding the attribute written by the renderer gives back the suggestions, when they are encodable. */
  lemma DecodeJoin(suggestions: seq<string>)
    requires Encodable(suggestions)
    ensures DecodeSuggestions(Join(suggestions, ',')) == suggestions
  {
    if |suggestions| > 0 {
      SplitJoin(suggestions, ',');
    }
  }

  /** The pieces the attribute `"a,,b"` or `","` holds are dropped when empty: decoding is not injective. */
  lemma DecodeDropsEmptyPieces()
    ensures DecodeSuggestions(",") == []
    ensures DecodeSuggestions("a,,b") == ["a", "b"]
  {
    assert ","[1..] == "";
    assert Split(",", ',') == ["", ""];
    assert "a,,b"[1..] == ",,b";
    assert ",,b"[1..] == ",b";
    assert ",b"[1..] == "b";
    assert "b"[1..] == "";
    assert Split("", ',') == [""];
    assert ['b'] + "" == "b";
    assert Split("b", ',') == ["b"];
    assert Split(",b", ',') == ["", "b"];
    assert Split(",,b", ',') == ["", "", "b"];
    assert ['a'] + "" == "a";
    assert Split("a,,b", ',') == ["a", "", "b"];
  }

  /** The mouse-move handler: a marker under the pointer opens the tooltip, anything else closes it. */
  function HoverOf(target: Segment): (r: Option<Hover>)
    ensures r.Some? <==> target.Marker?
    ensures r.Some? ==> r.value.word == target.bad && r.value.message == target.message
    ensures r.Some? ==> r.value.suggestions == DecodeSuggestions(target.suggestions)
  {
    match target
    case Marker(bad, suggestions, message, _) => Some(Hover(bad, DecodeSuggestions(suggestions), message))
    case Ch(_) => None
  }

  /** Hovering the marker of `e` shows `e`'s word, suggestions and message. */
  lemma HoverShowsError(e: GrammarError, inner: seq<Segment>)
    requires Encodable(e.suggestions)
    ensures HoverOf(MarkerOf(e, inner)) == Some(Hover(e.bad, e.suggestions, e.message))
  {
    DecodeJoin(e.suggestions);
  }

  /** `errors.find(e => e.bad === word)`, as the index of the error found. */
  function FirstWithBad(errors: seq<GrammarError>, word: string): (r: Option<nat>)
    ensures r.Some? ==> r.value < |errors| && errors[r.value].bad == word
    ensures r.Some? ==> forall j :: 0 <= j < r.value ==> errors[j].bad != word
    ensures r.None? ==> forall j :: 0 <= j < |errors| ==> errors[j].bad != word
    decreases |errors|
  {
    if |errors| == 0 then None
    else if errors[0].bad == word then Some(0)
    else
      match FirstWithBad(errors[1..], word)
      case None => None
      case Some(k) => Some(k + 1)
  }

  /** `text.substring(0, start) + suggestion + text.substring(end)`. */
  function Splice(text: string, start: int, end: int, suggestion: string): string {
    Substring(text, 0, start) + suggestion + SubstringFrom(text, end)
  }

  /** Within bounds a splice replaces exactly `text[start..end]` and keeps the rest. */
  lemma SpliceInBounds(text: string, start: int, end: int, suggestion: string)
    requires 0 <= start <= end <= |text|
    ensures Splice(text, start, end, suggestion) == text[..start] + suggestion + text[end..]
    ensures |Splice(text, start, end, suggestion)| == |text| - (end - start) + |suggestion|
    ensures Splice(text, start, end, suggestion)[..start] == text[..start]
    ensures Splice(text, start, end, suggestion)[start..start + |suggestion|] == suggestion
    ensures Splice(text, start, end, suggestion)[start + |suggestion|..] == text[end..]
  {
    var r := Splice(text, start, end, suggestion);
    assert r == text[..start] + suggestion + text[end..];
    assert r[..start] == text[..start];
    assert r[start..start + |suggestion|] == suggestion;
    assert r[start + |suggestion|..] == text[end..];
  }

  /** The text after `applySuggestion(suggestion)` with `word` hovered. */
  function ApplyText(text: string, errors: seq<GrammarError>, word: string, suggestion: string): string {
    match FirstWithBad(errors, word)
    case Some(k) => Splice(text, errors[k].offset, errors[k].offset + errors[k].length, suggestion)
    case None =>
      var index := IndexOf(text, word);
      if index == -1 then text else Splice(text, index, index + |word|, suggestion)
  }

  /**
   * Exact-match path: the first error in list order whose `bad` is the word has its
   * span replaced; length and prefix follow from the splice.
   */
  lemma ExactMatchReplacesSpan(text: string, errors: seq<GrammarError>, word: string, suggestion: string, k: nat)
    requires k < |errors| && errors[k].bad == word
    requires forall j :: 0 <= j < k ==> errors[j].bad != word
    requires 0 <= errors[k].offset && 0 <= errors[k].length && errors[k].offset + errors[k].length <= |text|
    ensures ApplyText(text, errors, word, suggestion)
         == text[..errors[k].offset] + suggestion + text[errors[k].offset + errors[k].length..]
    ensures |ApplyText(text, errors, word, suggestion)| == |text| - errors[k].length + |suggestion|
    ensures ApplyText(text, errors, word, suggestion)[..errors[k].offset] == text[..errors[k].offset]
  {
    var f := FirstWithBad(errors, word);
    assert f == Some(k);
    SpliceInBounds(text, errors[k].offset, errors[k].offset + errors[k].length, suggestion);
  }

  lemma FirstOccurrence(text: string, word: string, i: nat)
    requires OccursAt(text, word, i)
    requires forall k :: 0 <= k < i ==> !OccursAt(text, word, k)
    ensures IndexOf(text, word) == i
  {
  }

  /** Fallback path: no error has the word, so its first occurrence in the text is replaced. */
  lemma FallbackReplacesFirstOccurrence(text: string, errors: seq<GrammarError>, word: string, suggestion: string, i: nat)
    requires forall j :: 0 <= j < |errors| ==> errors[j].bad != word
    requires OccursAt(text, word, i)
    requires forall k :: 0 <= k < i ==> !OccursAt(text, word, k)
    ensures ApplyText(text, errors, word, suggestion) == text[..i] + suggestion + text[i + |word|..]
    ensures |ApplyText(text, errors, word, suggestion)| == |text| - |word| + |suggestion|
  {
    assert FirstWithBad(errors, word) == None;
    FirstOccurrence(text, word, i);
    SpliceInBounds(text, i, i + |word|, suggestion);
  }

  /** When neither an error nor the text holds the word, the text is unchanged. */
  lemma UnmatchedWordLeavesText(text: string, errors: seq<GrammarError>, word: string, suggestion: string)
    requires forall j :: 0 <= j < |errors| ==> errors[j].bad != word
    requires forall k :: !OccursAt(text, word, k)
    ensures ApplyText(text, errors, word, suggestion) == text
  {
    assert IndexOf(text, word) == -1;
  }

  /**
   * From the rendered marker to the corrected text: the marker of a well-placed
   * error is part of the rendering, hovering it yields the error's word, and
   * applying a suggestion then replaces that error's span provided no earlier
   * error has the same word. The suggestions themselves play no part.
   */
  lemma HoverThenApply(text: string, errors: seq<GrammarError>, k: nat, suggestion: string)
    requires WellPlaced(text, errors)
    requires k < |errors|
    requires forall j :: 0 <= j < k ==> errors[j].bad != errors[k].bad
    ensures Expected(text, errors[k]) in Markers(Render(text, errors))
    ensures HoverOf(Expected(text, errors[k])).Some?
    ensures HoverOf(Expected(text, errors[k])).value.word == errors[k].bad
    ensures ApplyText(text, errors, HoverOf(Expected(text, errors[k])).value.word, suggestion)
         == text[..errors[k].offset] + suggestion + text[errors[k].offset + errors[k].length..]
  {
    RenderedMarkers(text, errors);
    assert InBounds(text, errors[k]);
    ExactMatchReplacesSpan(text, errors, errors[k].bad, suggestion, k);
  }

  /**
   * The hovered marker does not take part in the lookup, only its word: when two
   * errors share a word, applying a suggestion on the second one's marker rewrites
   * the first one's span.
   */
  lemma SameWordRewritesFirstSpan()
    ensures ApplyText("teh cat teh dog",
                      [GrammarError("teh", "Possible spelling mistake", ["the"], 0, 3),
                       GrammarError("teh", "Possible spelling mistake", ["the"], 8, 3)],
                      "teh", "the")
         == "the cat teh dog"
  {
    var errors := [GrammarError("teh", "Possible spelling mistake", ["the"], 0, 3),
                   GrammarError("teh", "Possible spelling mistake", ["the"], 8, 3)];
    ExactMatchReplacesSpan("teh cat teh dog", errors, "teh", "the", 0);
    assert "teh cat teh dog"[3..] == " cat teh dog";
  }

  /**
   * The example of the component's test: "an error" starts at position 8 of
   * "This is an error.". With that offset the suggestion lands in place; with the
   * offset 10 the test's mock reply states, the clamped substrings keep "an" and
   * drop the full stop.
   */
  lemma ExampleSentence()
    ensures ApplyText("This is an error.", [GrammarError("an error", "", ["a mistake"], 8, 8)], "an error", "a mistake")
         == "This is a mistake."
    ensures ApplyText("This is an error.", [GrammarError("an error", "", ["a mistake"], 10, 8)], "an error", "a mistake")
         == "This is ana mistake"
  {
    var text := "This is an error.";
    ExactMatchReplacesSpan(text, [GrammarError("an error", "", ["a mistake"], 8, 8)], "an error", "a mistake", 0);
    assert text[..8] == "This is ";
    assert text[16..] == ".";
    var e10 := [GrammarError("an error", "", ["a mistake"], 10, 8)];
    assert FirstWithBad(e10, "an error") == Some(0);
    assert Substring(text, 0, 10) == "This is an";
    assert SubstringFrom(text, 18) == "";
  }
}
