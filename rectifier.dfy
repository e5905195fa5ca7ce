/**
 * The component's state and its check lifecycle, with the timer and the network
 * replaced by events:
 *   - an edit (a keystroke or an applied suggestion) that changes the text;
 *   - the debounce timer firing, which issues a check for the text it captured;
 *   - a pending check settling with a reply or a failure;
 *   - the pointer moving over the overlay or leaving it; applying a suggestion.
 *
 * `State` and the `On...` functions say what each event does; the class
 * `GrammarRectifier` holds the same state in fields and its methods are proved to
 * perform those transitions.
 */
module Rectifier {
  import opened Wrappers
  import opened Js
  import opened GrammarCheck
  import opened Highlight
  import opened Suggestion

  /**
   * `timer` is the armed debounce timer with the text it captured; `inFlight` lists
   * the texts of the checks issued and not yet settled, oldest first.
   */
  datatype State = State(
    text: string,
    errors: seq<GrammarError>,
    loading: bool,
    hovered: Option<Hover>,
    timer: Option<string>,
    inFlight: seq<string>)

  /** At most one timer is armed, and only for the current, non-empty text. */
  predicate Consistent(s: State) {
    s.timer.Some? ==> s.timer.value == s.text && s.text != ""
  }

  /** The state on mount: empty text, no errors, not loading, nothing hovered or pending. */
  function Initial(): (r: State)
    ensures Consistent(r)
  {
    State("", [], false, None, None, [])
  }

  /**
   * The effect on `[text]`. Setting the same text again does not re-run it. A new
   * text cancels the armed timer; if it is non-empty it sets loading and arms a
   * timer capturing it, and if it is empty it clears the errors (loading is left
   * as it was).
   */
  function OnEdit(s: State, t: string): (r: State)
    ensures t == s.text ==> r == s
    ensures r.text == t && r.inFlight == s.inFlight && r.hovered == s.hovered
    ensures t != s.text && t == "" ==> r.errors == [] && r.timer == None && r.loading == s.loading
    ensures t != s.text && t != "" ==> r.loading && r.timer == Some(t) && r.errors == s.errors
  {
    if t == s.text then s
    else if t != "" then s.(text := t, loading := true, timer := Some(t))
    else s.(text := t, errors := [], timer := None)
  }

  /** The timer fires: it is disarmed and a check for the text it captured is issued. */
  function OnFire(s: State): (r: State)
    requires s.timer.Some?
    ensures r.timer == None && r.inFlight == s.inFlight + [s.timer.value]
    ensures r.text == s.text && r.errors == s.errors && r.loading == s.loading && r.hovered == s.hovered
  {
    s.(timer := None, inFlight := s.inFlight + [s.timer.value])
  }

  /**
   * The `i`-th pending check settles: the errors become the normalised reply, or
   * the empty list on failure, and loading is cleared. Nothing compares the text
   * the check was issued for with the current one.
   */
  function OnSettle(s: State, i: nat, outcome: CheckOutcome): (r: State)
    requires i < |s.inFlight|
    ensures r.errors == CheckErrors(outcome) && !r.loading
    ensures r.inFlight == s.inFlight[..i] + s.inFlight[i + 1..]
    ensures r.text == s.text && r.timer == s.timer && r.hovered == s.hovered
  {
    s.(errors := CheckErrors(outcome), loading := false, inFlight := s.inFlight[..i] + s.inFlight[i + 1..])
  }

  /** The pointer moves over `target` in the overlay. */
  function OnMouseMove(s: State, target: Segment): (r: State)
    ensures r.hovered == HoverOf(target)
    ensures r.text == s.text && r.errors == s.errors && r.loading == s.loading
    ensures r.timer == s.timer && r.inFlight == s.inFlight
  {
    s.(hovered := HoverOf(target))
  }

  /** The pointer leaves the overlay. */
  function OnMouseLeave(s: State): (r: State)
    ensures r.hovered.None?
    ensures r.text == s.text && r.errors == s.errors && r.loading == s.loading
    ensures r.timer == s.timer && r.inFlight == s.inFlight
  {
    s.(hovered := None)
  }

  /**
   * A suggestion button is clicked: with an error hovered, the text is edited and
   * the tooltip closes. The edit re-runs the effect on `[text]` as any edit does.
   */
  function OnApplySuggestion(s: State, suggestion: string): (r: State)
    ensures s.hovered.None? ==> r == s
    ensures s.hovered.Some? ==> r.hovered == None
    ensures s.hovered.Some? ==> r.text == ApplyText(s.text, s.errors, s.hovered.value.word, suggestion)
    ensures r.inFlight == s.inFlight
    ensures s.hovered.Some? && r.text == s.text ==> r == s.(hovered := None)
    ensures s.hovered.Some? && r.text != s.text && r.text == "" ==>
      r.errors == [] && r.timer == None && r.loading == s.loading
    ensures s.hovered.Some? && r.text != s.text && r.text != "" ==>
      r.loading && r.timer == Some(r.text) && r.errors == s.errors
  {
    if s.hovered.None? then s
    else OnEdit(s, ApplyText(s.text, s.errors, s.hovered.value.word, suggestion)).(hovered := None)
  }

  /** Every event keeps a consistent state consistent. */
  lemma ConsistentKept(s: State, i: nat, outcome: CheckOutcome, target: Segment, t: string, suggestion: string)
    requires Consistent(s)
    ensures Consistent(OnEdit(s, t))
    ensures s.timer.Some? ==> Consistent(OnFire(s))
    ensures i < |s.inFlight| ==> Consistent(OnSettle(s, i, outcome))
    ensures Consistent(OnMouseMove(s, target)) && Consistent(OnMouseLeave(s))
    ensures Consistent(OnApplySuggestion(s, suggestion))
  {
  }

  /** A run of edits, one after the other. */
  function Edits(s: State, ts: seq<string>): State
    decreases |ts|
  {
    if |ts| == 0 then s else Edits(OnEdit(s, ts[0]), ts[1..])
  }

  /** Typing: every edit of `ts` changes the text it is applied to. */
  predicate Typing(from: string, ts: seq<string>) {
    && (|ts| > 0 ==> ts[0] != from)
    && (forall k :: 1 <= k < |ts| ==> ts[k] != ts[k - 1])
  }

  /**
   * Debounce: however many edits arrive before the timer fires, they issue no
   * check, and the firing issues exactly one, for the last text typed.
   */
  lemma {:induction false} RapidEditsIssueOneCheck(s: State, ts: seq<string>)
    requires |ts| > 0 && Typing(s.text, ts) && ts[|ts| - 1] != ""
    ensures Edits(s, ts).inFlight == s.inFlight
    ensures Edits(s, ts).timer == Some(ts[|ts| - 1]) && Edits(s, ts).loading
    ensures OnFire(Edits(s, ts)).inFlight == s.inFlight + [ts[|ts| - 1]]
    decreases |ts|
  {
    var s1 := OnEdit(s, ts[0]);
    if |ts| > 1 {
      assert Typing(s1.text, ts[1..]) by {
        forall k | 1 <= k < |ts| - 1 ensures ts[1..][k] != ts[1..][k - 1] {
          assert ts[k + 1] != ts[k];
        }
      }
      RapidEditsIssueOneCheck(s1, ts[1..]);
    }
  }

  /** Edits alone never issue a check. */
  lemma {:induction false} EditsIssueNothing(s: State, ts: seq<string>)
    ensures Edits(s, ts).inFlight == s.inFlight
    decreases |ts|
  {
    if |ts| > 0 {
      EditsIssueNothing(OnEdit(s, ts[0]), ts[1..]);
    }
  }

  /** No check is ever issued for the empty text: only an armed timer fires, and it captured a non-empty text. */
  lemma FiredTextNotEmpty(s: State)
    requires Consistent(s) && s.timer.Some?
    ensures OnFire(s).inFlight == s.inFlight + [s.text] && s.text != ""
  {
  }

  /**
   * Clearing the text while a timer is armed cancels the timer but leaves loading
   * set; with no check pending, nothing left in the lifecycle will clear it.
   */
  lemma ClearingWhileArmedKeepsLoading(s: State)
    requires Consistent(s) && s.timer.Some? && s.loading
    ensures OnEdit(s, "").loading && OnEdit(s, "").timer == None && OnEdit(s, "").errors == []
  {
  }

  /**
   * A check settles however old it is: a reply for a text that has since been
   * edited still replaces the errors of the current text.
   */
  lemma StaleReplyReplacesErrors(s: State, i: nat, outcome: CheckOutcome)
    requires i < |s.inFlight| && s.inFlight[i] != s.text
    ensures OnSettle(s, i, outcome).errors == CheckErrors(outcome)
    ensures OnSettle(s, i, outcome).text == s.text
  {
  }

  class GrammarRectifier {
    var text: string
    var errors: seq<GrammarError>
    var loading: bool
    var hovered: Option<Hover>
    var timer: Option<string>
    var inFlight: seq<string>

    function Snapshot(): State
      reads this
    {
      State(text, errors, loading, hovered, timer, inFlight)
    }

    ghost predicate Valid()
      reads this
    {
      Consistent(Snapshot())
    }

    constructor ()
      ensures Valid() && Snapshot() == Initial()
    {
      text, errors, loading, hovered, timer, inFlight := "", [], false, None, None, [];
    }

    /** `setText(t)` followed by the effect on `[text]`. */
    method Edit(t: string)
      requires Valid()
      modifies this
      ensures Valid() && Snapshot() == OnEdit(old(Snapshot()), t)
    {
      if t != text {
        text := t;
        timer := None;
        if t != "" {
          loading := true;
          timer := Some(t);
        } else {
          errors := [];
        }
      }
    }

    /** The armed timer's callback starts `checkGrammar` on the text it captured. */
    method Fire() returns (checked: string)
      requires Valid() && timer.Some?
      modifies this
      ensures Valid() && Snapshot() == OnFire(old(Snapshot()))
      ensures checked == old(text) && checked != ""
    {
      checked := timer.value;
      timer := None;
      inFlight := inFlight + [checked];
    }

    /** The `i`-th pending check returns (or fails): its errors are stored and `finally` clears loading. */
    method Settle(i: nat, outcome: CheckOutcome)
      requires Valid() && i < |inFlight|
      modifies this
      ensures Valid() && Snapshot() == OnSettle(old(Snapshot()), i, outcome)
    {
      errors := CheckErrors(outcome);
      loading := false;
      inFlight := inFlight[..i] + inFlight[i + 1..];
    }

    /** `handleMouseMove`, without the tooltip's pixel position. */
    method MouseMove(target: Segment)
      requires Valid()
      modifies this
      ensures Valid() && Snapshot() == OnMouseMove(old(Snapshot()), target)
    {
      match target {
        case Marker(bad, suggestions, message, _) =>
          hovered := Some(Hover(bad, DecodeSuggestions(suggestions), message));
        case Ch(_) =>
          hovered := None;
      }
    }

    /** The overlay's `onMouseLeave`. */
    method MouseLeave()
      requires Valid()
      modifies this
      ensures Valid() && Snapshot() == OnMouseLeave(old(Snapshot()))
    {
      hovered := None;
    }

    /** `applySuggestion(suggestion)`. */
    method ApplySuggestion(suggestion: string)
      requires Valid()
      modifies this
      ensures Valid() && Snapshot() == OnApplySuggestion(old(Snapshot()), suggestion)
    {
      if hovered.Some? {
        var word := hovered.value.word;
        var newText := text;
        match FirstWithBad(errors, word) {
          case Some(k) =>
            newText := Splice(text, errors[k].offset, errors[k].offset + errors[k].length, suggestion);
          case None =>
            var index := IndexOf(text, word);
            if index != -1 {
              newText := Splice(text, index, index + |word|, suggestion);
            }
        }
        Edit(newText);
        hovered := None;
      }
    }

    /**
     * `getTextWithHighlights`: wraps the spans of a sorted copy of the errors, highest
     * offset first, each time cutting the document built so far. The fields,
     * `errors` among them, are only read.
     */
    method GetTextWithHighlights() returns (doc: seq<Segment>)
      ensures doc == Render(text, errors)
    {
      if |errors| == 0 {
        return Plain(text);
      }
      doc := Plain(text);
      var sorted := SortByOffsetDesc(errors);
      var i := 0;
      while i < |sorted|
        invariant 0 <= i <= |sorted|
        invariant WrapAll(doc, sorted[i..]) == WrapAll(Plain(text), sorted)
      {
        var e := sorted[i];
        var before := Substring(doc, 0, e.offset);
        var errorText := Substring(doc, e.offset, e.offset + e.length);
        var after := SubstringFrom(doc, e.offset + e.length);
        assert sorted[i..][1..] == sorted[i + 1..];
        doc := before + [MarkerOf(e, errorText)] + after;
        i := i + 1;
      }
    }
  }
}
