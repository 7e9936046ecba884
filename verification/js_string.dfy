/** The two JavaScript string primitives the highlighter is built on,
    `String.prototype.indexOf` and `String.prototype.slice`.  A JavaScript
    string is a sequence of UTF-16 code units; each one is read as one
    `char` through an injective encoding (a lone surrogate is not a Dafny
    `char`, so the encoding is not the identity).  Characters are only
    compared for equality and counted, so lengths and offsets agree with
    the source's. */
module JsString {

  /** `content` holds `pattern` starting at offset `i`. */
  predicate MatchAt(content: string, pattern: string, i: int)
  {
    0 <= i && i + |pattern| <= |content| && content[i..i + |pattern|] == pattern
  }

  /** Where `indexOf(pattern, from)` begins to look: `from` clamped into
      `[0, len]` (a negative `from` means 0, one past the end means `len`). */
  function SearchStart(from: int, len: nat): (k: nat)
    ensures k <= len
    ensures from <= 0 ==> k == 0
    ensures from >= len ==> k == len
    ensures 0 <= from <= len ==> k == from
  {
    if from < 0 then 0 else if from > len then len else from
  }

  /** The first offset `>= k` at which `pattern` occurs, or -1. */
  function SearchFrom(content: string, pattern: string, k: nat): (r: int)
    ensures r == -1 || (k <= r && MatchAt(content, pattern, r))
    decreases |content| - k
  {
    if k + |pattern| > |content| then -1
    else if content[k..k + |pattern|] == pattern then k
    else SearchFrom(content, pattern, k + 1)
  }

  /** The search from `k` stops at or before any occurrence at or after `k`. */
  lemma {:induction false} SearchFromFirst(content: string, pattern: string, k: nat, i: int)
    requires k <= i
    requires MatchAt(content, pattern, i)
    ensures 0 <= SearchFrom(content, pattern, k) <= i
    decreases i - k
  {
    if k < i && !MatchAt(content, pattern, k) {
      SearchFromFirst(content, pattern, k + 1, i);
    }
  }

  /** `content.indexOf(pattern, from)`: an offset at or after the clamped
      start where `pattern` occurs, or -1; an empty pattern is found at the
      clamped start itself. */
  function IndexOf(content: string, pattern: string, from: int): (r: int)
    ensures r == -1 || (SearchStart(from, |content|) <= r && MatchAt(content, pattern, r))
    ensures |pattern| == 0 ==> r == SearchStart(from, |content|)
  {
    var k := SearchStart(from, |content|);
    if |pattern| == 0 then
      SearchFromFirst(content, pattern, k, k);
      SearchFrom(content, pattern, k)
    else
      SearchFrom(content, pattern, k)
  }

  /** How `slice` reads an index argument: a negative index counts back from
      the end, and the outcome is clamped into `[0, len]`. */
  function RelativeIndex(i: int, len: nat): (k: nat)
    ensures k <= len
    ensures 0 <= i <= len ==> k == i
  {
    if i < 0 then (if len + i < 0 then 0 else len + i)
    else if i > len then len
    else i
  }

  /** `s.slice(start, end)`. */
  function Slice(s: string, start: int, end: int): (r: string)
    ensures |r| <= |s|
    ensures 0 <= start <= end <= |s| ==> r == s[start..end]
    ensures 0 <= end <= start ==> r == []
  {
    var a := RelativeIndex(start, |s|);
    var b := RelativeIndex(end, |s|);
    if a < b then s[a..b] else []
  }

  /** `s.slice(start)`: everything from `start` to the end. */
  function SliceFrom(s: string, start: int): (r: string)
    ensures 0 <= start <= |s| ==> r == s[start..]
    ensures start >= |s| ==> r == []
  {
    Slice(s, start, |s|)
  }

  /** The search is exact: it returns the first occurrence at or after the
      clamped start, so it reports -1 only when there is none. */
  lemma IndexOfFindsFirst(content: string, pattern: string, from: int, i: int)
    requires SearchStart(from, |content|) <= i
    requires MatchAt(content, pattern, i)
    ensures 0 <= IndexOf(content, pattern, from) <= i
  {
    SearchFromFirst(content, pattern, SearchStart(from, |content|), i);
  }

  /** `indexOf` reports -1 exactly when the pattern occurs nowhere at or
      after the clamped start. */
  lemma IndexOfMissing(content: string, pattern: string, from: int)
    ensures IndexOf(content, pattern, from) == -1
        <==> forall i :: SearchStart(from, |content|) <= i ==> !MatchAt(content, pattern, i)
  {
    if IndexOf(content, pattern, from) == -1 {
      forall i | SearchStart(from, |content|) <= i
        ensures !MatchAt(content, pattern, i)
      {
        if MatchAt(content, pattern, i) {
          IndexOfFindsFirst(content, pattern, from, i);
        }
      }
    }
  }
}
