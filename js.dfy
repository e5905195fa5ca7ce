/**
 * The JavaScript string and array built-ins the component relies on, with their
 * exact edge-case behaviour: `substring` clamps both arguments into range and swaps
 * them when the start lies after the end, `indexOf` reports the first occurrence or
 * -1, `split` on a separator character and `join` with it.
 *
 * `Substring` is generic so that the same definition serves the text and the
 * highlighted document built from it.
 */
module Js {

  /** A position clamped into `[0, n]`, as `substring` treats each of its arguments. */
  function Clamp(i: int, n: nat): (r: nat)
    ensures r <= n
    ensures 0 <= i <= n ==> r == i
    ensures i < 0 ==> r == 0
    ensures n < i ==> r == n
  {
    if i < 0 then 0 else if i > n then n else i
  }

  /** `s.substring(start, end)`: both ends clamped, and swapped when they are out of order. */
  function Substring<T>(s: seq<T>, start: int, end: int): (r: seq<T>)
    ensures 0 <= start <= end <= |s| ==> r == s[start..end]
    ensures 0 <= end <= start <= |s| ==> r == s[end..start]
    ensures |r| <= |s|
  {
    var a := Clamp(start, |s|);
    var b := Clamp(end, |s|);
    if a <= b then s[a..b] else s[b..a]
  }

  /** `s.substring(start)`: from the clamped start to the end. */
  function SubstringFrom<T>(s: seq<T>, start: int): (r: seq<T>)
    ensures 0 <= start <= |s| ==> r == s[start..]
    ensures start < 0 ==> r == s
    ensures |s| < start ==> r == []
  {
    Substring(s, start, |s|)
  }

  /** `word` occurs in `text` starting at position `k`. */
  predicate OccursAt(text: string, word: string, k: int) {
    0 <= k && k + |word| <= |text| && text[k..k + |word|] == word
  }

  /** `text.indexOf(word)`: the first position where `word` occurs, or -1. */
  function IndexOf(text: string, word: string): (r: int)
    ensures r == -1 || OccursAt(text, word, r)
    ensures r == -1 ==> forall k :: !OccursAt(text, word, k)
    ensures r != -1 ==> forall k :: 0 <= k < r ==> !OccursAt(text, word, k)
  {
    IndexFrom(text, word, 0)
  }

  /** The search of `IndexOf`, from position `from` on. */
  function IndexFrom(text: string, word: string, from: nat): (r: int)
    ensures r == -1 || (from <= r && OccursAt(text, word, r))
    ensures r == -1 ==> forall k :: from <= k ==> !OccursAt(text, word, k)
    ensures r != -1 ==> forall k :: from <= k < r ==> !OccursAt(text, word, k)
    decreases |text| - from
  {
    if from + |word| > |text| then -1
    else if text[from..from + |word|] == word then from
    else IndexFrom(text, word, from + 1)
  }

  /** `s.split(sep)` for a one-character separator: the empty string splits into `[""]`. */
  function Split(s: string, sep: char): (r: seq<string>)
    ensures |r| >= 1
    ensures forall i :: 0 <= i < |r| ==> sep !in r[i]
    decreases |s|
  {
    if |s| == 0 then [""]
    else
      var rest := Split(s[1..], sep);
      if s[0] == sep then [""] + rest
      else [[s[0]] + rest[0]] + rest[1..]
  }

  /** `parts.join(sep)`: the empty list joins into the empty string. */
  function Join(parts: seq<string>, sep: char): string
  {
    if |parts| == 0 then ""
    else if |parts| == 1 then parts[0]
    else parts[0] + [sep] + Join(parts[1..], sep)
  }

  /** Joining what `split` produced gives back the string it was split from. */
  lemma {:induction false} JoinSplit(s: string, sep: char)
    ensures Join(Split(s, sep), sep) == s
    decreases |s|
  {
    if |s| > 0 {
      JoinSplit(s[1..], sep);
      var rest := Split(s[1..], sep);
      if s[0] == sep {
        assert ([""] + rest)[1..] == rest;
      } else {
        var r := [[s[0]] + rest[0]] + rest[1..];
        if |rest| > 1 {
          assert r[1..] == rest[1..];
        }
      }
    }
  }

  /** A word without the separator splits into itself. */
  lemma {:induction false} SplitWord(w: string, sep: char)
    requires sep !in w
    ensures Split(w, sep) == [w]
    decreases |w|
  {
    if |w| > 0 {
      SplitWord(w[1..], sep);
      assert [w[0]] + w[1..] == w;
    }
  }

  /** Splitting at the first separator peels off the word before it. */
  lemma {:induction false} SplitAfterWord(w: string, sep: char, rest: string)
    requires sep !in w
    ensures Split(w + [sep] + rest, sep) == [w] + Split(rest, sep)
    decreases |w|
  {
    var s := w + [sep] + rest;
    if |w| == 0 {
      assert s[1..] == rest;
    } else {
      assert s[1..] == w[1..] + [sep] + rest;
      SplitAfterWord(w[1..], sep, rest);
      assert [w[0]] + w[1..] == w;
    }
  }

  /** Splitting a join gives back the parts, provided no part holds the separator. */
  lemma {:induction false} SplitJoin(parts: seq<string>, sep: char)
    requires |parts| >= 1
    requires forall i :: 0 <= i < |parts| ==> sep !in parts[i]
    ensures Split(Join(parts, sep), sep) == parts
    decreases |parts|
  {
    if |parts| == 1 {
      SplitWord(parts[0], sep);
    } else {
      SplitJoin(parts[1..], sep);
      SplitAfterWord(parts[0], sep, Join(parts[1..], sep));
      assert [parts[0]] + parts[1..] == parts;
    }
  }
}
