# GrammarRectifier, modelled in Dafny

The GrammarRectifier widget wraps a text field. It sends the text to a grammar-check
service after a pause in typing. It overlays the text with markers around the spans
the service flags, shows a marker's suggestions on hover, and splices a chosen
suggestion into the text. This project models the component's logic, which lives in
`src/components/GrammarRectifier.js`, and proves properties of it:

- `js.dfy` (module `Js`): the JavaScript built-ins the component relies on. `substring`
  clamps both arguments into range and swaps them when they are out of order.
  `indexOf` returns the first occurrence or -1. `split` and `join` work on a
  one-character separator.
- `grammar_check.dfy` (`GrammarCheck`): the error descriptor, and the normalisation of
  the service's reply. The request is replaced by its outcome: a decoded reply or a
  failure.
- `highlight.dfy` (`Highlight`): rendering. The overlay is a document of segments.
  A segment is a plain character or a marker carrying the word, the comma-joined
  suggestions, the message, and the wrapped sub-document. `Render` follows the
  component: it sorts a copy of the errors by descending offset, then cuts the
  working document at each span. `Reference` assembles the same document from slices
  of the original text. For in-bounds, disjoint spans the two are equal, the markers
  can be removed without losing a character, and each marker wraps exactly its span.
- `suggestion.dfy` (`Suggestion`): decoding the hovered marker's attributes, and
  splicing a suggestion into the text. The splice uses the first error whose `bad`
  is the hovered word, else the first occurrence of the word, else leaves the text
  as it is.
- `rectifier.dfy` (`Rectifier`): the lifecycle. The events are an edit, the debounce
  timer firing, a check settling, pointer moves, and applying a suggestion. A pure
  transition function per event gives the meaning of that event. The class
  `GrammarRectifier` holds the component's state in fields, and its methods are
  proved to perform those transitions.

Two behaviours of the code are stated as lemmas rather than corrected:

- Clearing the text while a timer is armed cancels the timer but keeps `loading`
  set (`ClearingWhileArmedKeepsLoading`). The effect's empty-text branch clears only
  the errors.
- A reply for an older text still replaces the current errors
  (`StaleReplyReplacesErrors`). The effect's cleanup cancels only the timer, never a
  request already issued. The code does not reject stale replies, and the model
  follows the code.

An example that places "an error" at offset 10 of "This is an error." does not work
with this code: the span starts at 8. With offset 10 the clamped splice yields
"This is ana mistake". `Suggestion.ExampleSentence` proves both outcomes.

## Model

| member | source | states |
|---|---|---|
| `Js.Clamp` | src/components/GrammarRectifier.js:72-74 | a `substring` argument is clamped into `[0, length]` and is unchanged when already in range |
| `Js.Substring` | src/components/GrammarRectifier.js:72-73 | in range, `substring(a, b)` is the slice `[a, b)`; with the ends reversed it is the slice `[b, a)`; it is never longer than the input |
| `Js.SubstringFrom` | src/components/GrammarRectifier.js:74 | `substring(a)` is the suffix from `a`; a negative start gives the whole string and a start past the end gives "" |
| `Js.IndexOf` | src/components/GrammarRectifier.js:113 | the result is -1 exactly when the word occurs nowhere; otherwise the word occurs there and at no earlier position |
| `Js.IndexFrom` | src/components/GrammarRectifier.js:113 | the same search started at a given position |
| `Js.Split` | src/components/GrammarRectifier.js:88 | `split(',')` yields at least one piece and no piece contains the separator |
| `Js.JoinSplit` | src/components/GrammarRectifier.js:88 | joining the pieces of a split gives back the string |
| `Js.Join` | src/components/GrammarRectifier.js:78 | `join(',')`: the parts with the separator between them; `JoinSplit` and `SplitJoin` state what it means, as the inverse of `split` |
| `Js.SplitJoin` | src/components/GrammarRectifier.js:78 | splitting a join of separator-free parts gives back the parts |
| `GrammarCheck.MapErrors` | src/components/GrammarRectifier.js:30-36 | the reply's errors map one to one, field for field, with a missing `suggestions` becoming `[]` |
| `GrammarCheck.CheckErrors` | src/components/GrammarRectifier.js:28-42 | a reply without `errors` and any failure yield the empty list; otherwise the mapped entries, in order |
| `Highlight.MarkerOf` | src/components/GrammarRectifier.js:78 | the `<span>` of line 78 as a marker: the error's word, `suggestions.join(',')` and message around the wrapped contents; it has no contract of its own, and `HoverShowsError` and `DecodeJoin` state what a hover reads back from it |
| `Highlight.Wrap` | src/components/GrammarRectifier.js:72-79 | one loop step: for a span inside the document, the part before it, one marker around exactly the span, and the part after it, one position per marker |
| `Highlight.WrapAll` | src/components/GrammarRectifier.js:71-80 | the `forEach` over the sorted copy, wrapping first to last; it has no contract of its own, and `WrapAllMatchesReference` and `GrammarRectifier.GetTextWithHighlights` state its behaviour |
| `Highlight.Render` | src/components/GrammarRectifier.js:65-83 | `getTextWithHighlights`; it has no contract of its own, and `NoErrorsRenderText`, `RenderMatchesReference` and `HighlightsWrapOriginalSpans` state its behaviour |
| `Highlight.SortByOffsetDesc` | src/components/GrammarRectifier.js:69 | the sorted copy is sorted by descending offset and is a permutation of the errors |
| `Highlight.SortIsStable` | src/components/GrammarRectifier.js:69 | errors with equal offsets keep their relative order, as `Array.prototype.sort` does |
| `Highlight.SortWellPlaced` | src/components/GrammarRectifier.js:69 | sorting keeps in-bounds, pairwise-disjoint spans in-bounds and pairwise disjoint |
| `Highlight.WrapAllMatchesReference` | src/components/GrammarRectifier.js:71-80 | wrapping right-to-left spans inside an untouched prefix of the text builds the reference document, whatever follows the prefix |
| `Highlight.RenderMatchesReference` | src/components/GrammarRectifier.js:65-83 | for in-bounds, disjoint spans the rendered document equals the one assembled from slices of the original text |
| `Highlight.ReferenceLossless` | src/components/GrammarRectifier.js:72-79 | removing the markers of the reference document gives back the text it covers |
| `Highlight.ReferenceMarkers` | src/components/GrammarRectifier.js:71-80 | the reference has one marker per error, left to right, each wrapping the error's span of the original text |
| `Highlight.RenderedMarkers` | src/components/GrammarRectifier.js:71-80 | the rendering holds exactly as many top-level markers as errors, and each error's marker is among them |
| `Highlight.HighlightsWrapOriginalSpans` | src/components/GrammarRectifier.js:69-80 | for in-bounds, disjoint spans, stripping the markers yields the text; the top-level markers are exactly one per error, left to right, each around `text[offset..offset+length]`, for any number of errors |
| `Highlight.NoErrorsRenderText` | src/components/GrammarRectifier.js:66 | with no errors the document holds exactly the text's characters, with no marker |
| `Highlight.StripPlain` | src/components/GrammarRectifier.js:68 | the unhighlighted document holds exactly the text's characters |
| `Suggestion.NonEmpty` | src/components/GrammarRectifier.js:88 | `.filter(s => s)` keeps only non-empty pieces, keeps every non-empty piece as often as it occurs (as a multiset), and keeps everything when nothing is empty |
| `Suggestion.NonEmptyConcat` | src/components/GrammarRectifier.js:88 | filtering a concatenation is the concatenation of the filtered parts, so the kept pieces keep their order |
| `Suggestion.DecodeSuggestions` | src/components/GrammarRectifier.js:88 | decoded suggestions are never empty and never contain a comma |
| `Suggestion.DecodeJoin` | src/components/GrammarRectifier.js:78 | decoding the attribute written from suggestions that are non-empty and comma-free gives them back |
| `Suggestion.DecodeDropsEmptyPieces` | src/components/GrammarRectifier.js:88 | empty pieces of the attribute vanish: `","` decodes to `[]` and `"a,,b"` to `["a", "b"]` |
| `Suggestion.HoverOf` | src/components/GrammarRectifier.js:85-101 | `handleMouseMove`: a hover exactly when the target is a marker, with the marker's word and message and its decoded suggestions |
| `Suggestion.HoverShowsError` | src/components/GrammarRectifier.js:86-91 | hovering an error's marker shows that error's word, suggestions and message, provided no suggestion is empty or holds a comma |
| `Suggestion.FirstWithBad` | src/components/GrammarRectifier.js:105 | the error found is the first in list order whose `bad` equals the word; none is found only when no error has it |
| `Suggestion.Splice` | src/components/GrammarRectifier.js:110-115 | `text.substring(0, start) + suggestion + text.substring(end)`, clamped as JavaScript clamps; it has no contract of its own, and `SpliceInBounds` states its in-bounds behaviour |
| `Suggestion.SpliceInBounds` | src/components/GrammarRectifier.js:108-110 | within bounds the splice is `text[..start] + suggestion + text[end..]`, of length `|text| - (end - start) + |suggestion|`, and the prefix and suffix are unchanged |
| `Suggestion.ApplyText` | src/components/GrammarRectifier.js:103-118 | the text `applySuggestion` leaves; it has no contract of its own, and `ExactMatchReplacesSpan`, `FallbackReplacesFirstOccurrence` and `UnmatchedWordLeavesText` state its three paths |
| `Suggestion.ExactMatchReplacesSpan` | src/components/GrammarRectifier.js:105-111 | on the exact-match path the first matching error's span is replaced; length and prefix follow |
| `Suggestion.FirstOccurrence` | src/components/GrammarRectifier.js:113 | `indexOf` returns the first position where the word occurs |
| `Suggestion.FallbackReplacesFirstOccurrence` | src/components/GrammarRectifier.js:113-116 | with no error matching, the first occurrence of the word is replaced |
| `Suggestion.UnmatchedWordLeavesText` | src/components/GrammarRectifier.js:112-117 | with neither an error nor an occurrence of the word, the text is unchanged |
| `Suggestion.HoverThenApply` | src/components/GrammarRectifier.js:103-111 | a well-placed error's marker is among the rendered markers, hovering it yields the error's word, and applying any suggestion then replaces that error's span when no earlier error has the same word, whatever its suggestions hold |
| `Suggestion.SameWordRewritesFirstSpan` | src/components/GrammarRectifier.js:105 | when two errors share a word, applying on either marker rewrites the first one's span |
| `Suggestion.ExampleSentence` | src/components/GrammarRectifier.js:107-111 | "an error" at offset 8 becomes "This is a mistake."; at offset 10 the clamped splice gives "This is ana mistake" |
| `Rectifier.Initial` | src/components/GrammarRectifier.js:5-8 | the mounted state is consistent; its values (empty text, no errors, not loading, nothing armed) are those of the body |
| `Rectifier.OnEdit` | src/components/GrammarRectifier.js:45-63 | the same text changes nothing; an empty text clears the errors and arms nothing; a non-empty text sets loading and arms one timer for it; no check is issued |
| `Rectifier.OnFire` | src/components/GrammarRectifier.js:48-50 | firing disarms the timer and issues one check for the captured text, changing nothing else |
| `Rectifier.OnSettle` | src/components/GrammarRectifier.js:49-57 | a settled check replaces the errors with the normalised reply (empty on failure), always clears loading, and removes exactly that check from the pending ones |
| `Rectifier.OnMouseMove` | src/components/GrammarRectifier.js:85-101 | the hover becomes the one decoded from the target, and nothing else in the state changes |
| `Rectifier.OnMouseLeave` | src/components/GrammarRectifier.js:153 | the hover is cleared, and nothing else in the state changes |
| `Rectifier.OnApplySuggestion` | src/components/GrammarRectifier.js:103-121 | with nothing hovered nothing changes; otherwise the text becomes the spliced text, the hover is cleared, and the edit re-runs the effect: an unchanged text changes nothing else, a new empty text clears the errors and disarms the timer, a new non-empty text sets loading and arms the timer for it |
| `Rectifier.ConsistentKept` | src/components/GrammarRectifier.js:45-63 | every event keeps at most one armed timer, and only for the current non-empty text |
| `Rectifier.RapidEditsIssueOneCheck` | src/components/GrammarRectifier.js:46-59 | a run of edits issues no check and leaves one timer for the last text; its firing issues exactly one check, for that text |
| `Rectifier.EditsIssueNothing` | src/components/GrammarRectifier.js:45-63 | edits alone never issue a check |
| `Rectifier.FiredTextNotEmpty` | src/components/GrammarRectifier.js:46-50 | a fired timer checks the current text, which is never empty |
| `Rectifier.ClearingWhileArmedKeepsLoading` | src/components/GrammarRectifier.js:59-62 | clearing the text while armed cancels the timer and clears the errors but leaves loading set |
| `Rectifier.StaleReplyReplacesErrors` | src/components/GrammarRectifier.js:50-51 | a reply for an older text still replaces the errors of the current text |
| `Rectifier.GrammarRectifier.constructor` | src/components/GrammarRectifier.js:5-9 | the fields start in the mounted state |
| `Rectifier.GrammarRectifier.Edit` | src/components/GrammarRectifier.js:45-63 | the fields make the `OnEdit` transition and stay consistent |
| `Rectifier.GrammarRectifier.Fire` | src/components/GrammarRectifier.js:48-50 | the fields make the `OnFire` transition; the text checked is the current, non-empty text |
| `Rectifier.GrammarRectifier.Settle` | src/components/GrammarRectifier.js:49-57 | the fields make the `OnSettle` transition |
| `Rectifier.GrammarRectifier.MouseMove` | src/components/GrammarRectifier.js:85-101 | a marker under the pointer sets the hover from its decoded attributes; anything else clears it |
| `Rectifier.GrammarRectifier.MouseLeave` | src/components/GrammarRectifier.js:153 | leaving the overlay clears the hover |
| `Rectifier.GrammarRectifier.ApplySuggestion` | src/components/GrammarRectifier.js:103-121 | the fields make the `OnApplySuggestion` transition |
| `Rectifier.GrammarRectifier.GetTextWithHighlights` | src/components/GrammarRectifier.js:65-83 | the loop over the sorted copy produces `Render(text, errors)`; the fields, the error list among them, are only read |

## Left out

- The HTTP request (`src/components/GrammarRectifier.js:16-28`) and the axios wrapper `src/utils/api.js` are not modelled. They are thin wrappers over foreign libraries, so a check is an abstract outcome: a decoded reply or a failure.
- Logging through `console.error` is left out. It is output only.
- The outer `catch` of the timer callback (lines 52-54) is not reachable, because `checkGrammar` catches every failure itself. Both paths end in the empty error list, which is what `OnSettle` stores.
- JavaScript values are typed in the model: offsets and lengths are integers, and `bad` and `message` are strings. A reply whose `errors` is falsy (missing, `null`, `0`, `""`, `false`) is replaced by `[]` at line 30, which the model writes as `Responded(None)`. A truthy `errors` without a `.map` makes the call throw, which the `catch` at line 39 turns into the empty list; the model counts it as `Failed`. Both give the empty list.
- The 600 ms delay is left out. Real time is replaced by the `Fire` event, which only an armed timer can raise. The callback captures the text it was armed with; since every change re-arms, that is also the text at firing time.
- React rendering, `cloneElement` child injection (lines 130-136), the JSX tree, and the summary lines (lines 177-180) are UI and are not modelled.
- DOM details are not modelled: `classList`, `getAttribute`, the tooltip's pixel position (lines 93-97) and `syncScroll` (lines 123-128). The hovered element is given as a segment of the document.
- Highlight.Render: a marker takes one position of the working document, whereas the source's markup takes many characters. For in-bounds, disjoint, non-empty spans this makes no difference, for the reason `RenderMatchesReference` captures. For overlapping, empty or out-of-range spans the source cuts inside markup text it has already inserted, and the model cuts around or inside whole markers instead, so the two differ.
- HTML escaping is not modelled. The source interpolates the attributes, the wrapped `errorText` and the text itself raw (line 78), and the whole string reaches the overlay through `dangerouslySetInnerHTML` (lines 66, 151). For a text holding `<`, `>` or `&`, or an attribute holding `"`, the overlay the browser displays is not the text. The model keeps the markers as structured segments, so its statements are about the characters the document holds, not about what the browser shows.
- Stale-reply rejection is not modelled as a property because the code does not implement it; `StaleReplyReplacesErrors` states the behaviour the code has.
- Character unit: the model reads each `char` as one UTF-16 code unit, the unit in which JavaScript's `length`, `substring` and `indexOf` count and in which the service's offsets are given. A Dafny `char` is a Unicode scalar value, so a character outside the Basic Multilingual Plane is one `char` in the model but two code units in JavaScript, and a lone surrogate that `substring` can cut out of a pair has no `char`. The model is exact only for text without characters outside the Basic Multilingual Plane. No proof depends on what a `char` is.
