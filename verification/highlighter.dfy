/** The sentiment highlighter: it splits a review's text into plain runs and
    highlighted sentences, walking the analytics' sentences in order with a
    cursor and finding each sentence with `indexOf` from that cursor. */
module Highlighter {
  import opened JsString
  import opened Reviews

  /** One piece of the rendered text: a plain run copied out of the content,
      or a highlighted sentence carrying its topic (the tooltip), its
      sentiment (the colour) and the `indexOf` result it was placed at (the
      element key). */
  datatype Segment =
    | Plain(text: string)
    | Highlight(sentence: string, topic: string, sentiment: string, start: int)
  {
    /** The characters this segment puts on the page. */
    function Shown(): string
    {
      if Plain? then text else sentence
    }
  }

  /** One sentence to highlight, with the labels of the analytic it came from. */
  datatype Mention = Mention(sentence: string, topic: string, sentiment: string)

  // ---------------------------------------------------------------------
  // Views of a segment list
  // ---------------------------------------------------------------------

  /** The page text: every segment's characters, in order. */
  function Texts(segs: seq<Segment>): string
  {
    if |segs| == 0 then [] else Texts(segs[..|segs| - 1]) + segs[|segs| - 1].Shown()
  }

  /** The highlighted segments, in order. */
  function Highlights(segs: seq<Segment>): (hs: seq<Segment>)
    ensures |hs| <= |segs|
    ensures forall i :: 0 <= i < |hs| ==> hs[i].Highlight?
  {
    if |segs| == 0 then []
    else Highlights(segs[..|segs| - 1]) + (if segs[|segs| - 1].Highlight? then [segs[|segs| - 1]] else [])
  }

  /** Where each of a list of highlighted segments was placed. */
  function Starts(hs: seq<Segment>): (ps: seq<int>)
    requires forall i :: 0 <= i < |hs| ==> hs[i].Highlight?
    ensures |ps| == |hs|
    ensures forall i :: 0 <= i < |hs| ==> ps[i] == hs[i].start
  {
    seq(|hs|, i requires 0 <= i < |hs| => hs[i].start)
  }

  /** No plain segment is empty. */
  predicate NoEmptyGaps(segs: seq<Segment>)
  {
    forall i :: 0 <= i < |segs| && segs[i].Plain? ==> segs[i].text != []
  }

  /** The highlighted segments `hs` show the mentions `ms`, one for one and
      in the same order, with their labels. */
  predicate Tags(hs: seq<Segment>, ms: seq<Mention>)
  {
    && |hs| == |ms|
    && forall i :: 0 <= i < |hs| ==>
         hs[i].Highlight? && Mention(hs[i].sentence, hs[i].topic, hs[i].sentiment) == ms[i]
  }

  /** `ps` places the sentences of `ms` in `content` one after another:
      each occurs where it is placed, and each ends before any later one begins. */
  predicate Placement(content: string, ms: seq<Mention>, ps: seq<int>)
  {
    && |ps| == |ms|
    && (forall i :: 0 <= i < |ms| ==> MatchAt(content, ms[i].sentence, ps[i]))
    && (forall i, j :: 0 <= i < j < |ms| ==> ps[i] + |ms[i].sentence| <= ps[j])
  }

  lemma {:induction false} TextsAppend(a: seq<Segment>, b: seq<Segment>)
    ensures Texts(a + b) == Texts(a) + Texts(b)
    decreases |b|
  {
    if |b| == 0 {
      assert a + b == a;
    } else {
      var b' := b[..|b| - 1];
      assert (a + b)[..|a + b| - 1] == a + b';
      TextsAppend(a, b');
    }
  }

  lemma TextsSingle(x: Segment)
    ensures Texts([x]) == x.Shown()
  {
    assert [x][..0] == [];
  }

  lemma {:induction false} HighlightsAppend(a: seq<Segment>, b: seq<Segment>)
    ensures Highlights(a + b) == Highlights(a) + Highlights(b)
    decreases |b|
  {
    if |b| == 0 {
      assert a + b == a;
    } else {
      var b' := b[..|b| - 1];
      assert (a + b)[..|a + b| - 1] == a + b';
      HighlightsAppend(a, b');
    }
  }

  // ---------------------------------------------------------------------
  // The sentences in iteration order
  // ---------------------------------------------------------------------

  /** The number of sentences over all analytics. */
  function TotalSentences(analytics: seq<Analytic>): nat
  {
    if |analytics| == 0 then 0
    else TotalSentences(analytics[..|analytics| - 1]) + |analytics[|analytics| - 1].sentences|
  }

  /** The sentences of one analytic, each labelled with its topic and sentiment. */
  function MentionsOf(a: Analytic): (ms: seq<Mention>)
    ensures |ms| == |a.sentences|
    ensures forall i :: 0 <= i < |ms| ==> ms[i] == Mention(a.sentences[i], a.topic, a.sentiment)
  {
    seq(|a.sentences|, i requires 0 <= i < |a.sentences| => Mention(a.sentences[i], a.topic, a.sentiment))
  }

  /** The sentences in the order the nested loops visit them: analytic by
      analytic, and within an analytic in list order. */
  function Mentions(analytics: seq<Analytic>): (ms: seq<Mention>)
    ensures |ms| == TotalSentences(analytics)
  {
    if |analytics| == 0 then []
    else Mentions(analytics[..|analytics| - 1]) + MentionsOf(analytics[|analytics| - 1])
  }


  /** One more analytic contributes its sentences after the earlier ones. */
  lemma MentionsSnoc(analytics: seq<Analytic>, a: nat)
    requires a < |analytics|
    ensures Mentions(analytics[..a + 1]) == Mentions(analytics[..a]) + MentionsOf(analytics[a])
  {
    assert analytics[..a + 1][..a] == analytics[..a];
  }

  lemma PrefixSnoc<T>(xs: seq<T>, k: nat)
    requires k < |xs|
    ensures xs[..k + 1] == xs[..k] + [xs[k]]
  {
  }

  // ---------------------------------------------------------------------
  // The walk, as written
  // ---------------------------------------------------------------------

  /** The plain text the loop pushes before a sentence found at
      `startIndex` when the cursor is at `lastIndex`: the skipped text when
      the match lies beyond the cursor, nothing otherwise. */
  function Gap(content: string, lastIndex: int, startIndex: int): seq<Segment>
  {
    if startIndex > lastIndex then [Plain(Slice(content, lastIndex, startIndex))] else []
  }

  /** What one iteration of the inner loop pushes with the cursor at
      `lastIndex`: the gap, then the highlight, whatever the search returned. */
  function Pushed(content: string, lastIndex: int, m: Mention): seq<Segment>
  {
    var startIndex := IndexOf(content, m.sentence, lastIndex);
    Gap(content, lastIndex, startIndex) + [Highlight(m.sentence, m.topic, m.sentiment, startIndex)]
  }

  /** Where one iteration leaves the cursor: `startIndex + sentence.length`. */
  function Advance(content: string, lastIndex: int, m: Mention): int
  {
    IndexOf(content, m.sentence, lastIndex) + |m.sentence|
  }

  /** `lastIndex` after the loops have visited the sentences `ms`. */
  function LastIndexAfter(content: string, ms: seq<Mention>): int
    decreases |ms|
  {
    if |ms| == 0 then 0
    else Advance(content, LastIndexAfter(content, ms[..|ms| - 1]), ms[|ms| - 1])
  }

  /** The segments pushed while the loops visit the sentences `ms`. */
  function SegmentsAfter(content: string, ms: seq<Mention>): seq<Segment>
    decreases |ms|
  {
    if |ms| == 0 then []
    else
      var done := ms[..|ms| - 1];
      SegmentsAfter(content, done) + Pushed(content, LastIndexAfter(content, done), ms[|ms| - 1])
  }

  /** Visiting one more sentence is one more iteration. */
  lemma WalkSnoc(content: string, ms: seq<Mention>, m: Mention)
    ensures LastIndexAfter(content, ms + [m]) == Advance(content, LastIndexAfter(content, ms), m)
    ensures SegmentsAfter(content, ms + [m])
         == SegmentsAfter(content, ms) + Pushed(content, LastIndexAfter(content, ms), m)
  {
    assert (ms + [m])[..|ms|] == ms;
  }

  /** The last iteration of a walk. */
  lemma WalkLast(content: string, ms: seq<Mention>)
    requires |ms| > 0
    ensures ms == ms[..|ms| - 1] + [ms[|ms| - 1]]
    ensures LastIndexAfter(content, ms)
         == Advance(content, LastIndexAfter(content, ms[..|ms| - 1]), ms[|ms| - 1])
    ensures SegmentsAfter(content, ms)
         == SegmentsAfter(content, ms[..|ms| - 1])
            + Pushed(content, LastIndexAfter(content, ms[..|ms| - 1]), ms[|ms| - 1])
  {
  }

  /** After the loops: push the text after the cursor, if any. */
  function Finish(content: string, segs: seq<Segment>, lastIndex: int): seq<Segment>
  {
    if lastIndex < |content| then segs + [Plain(SliceFrom(content, lastIndex))] else segs
  }

  lemma HighlightsSnoc(segs: seq<Segment>, x: Segment)
    ensures Highlights(segs + [x]) == Highlights(segs) + (if x.Highlight? then [x] else [])
  {
    assert (segs + [x])[..|segs|] == segs;
  }

  /** An iteration pushes exactly one highlight: its sentence's, placed where
      the search put it. */
  lemma PushedHighlights(content: string, segs: seq<Segment>, lastIndex: int, m: Mention)
    ensures Highlights(segs + Pushed(content, lastIndex, m))
         == Highlights(segs)
            + [Highlight(m.sentence, m.topic, m.sentiment, IndexOf(content, m.sentence, lastIndex))]
  {
    var startIndex := IndexOf(content, m.sentence, lastIndex);
    var h := Highlight(m.sentence, m.topic, m.sentiment, startIndex);
    var gap := Gap(content, lastIndex, startIndex);
    assert segs + Pushed(content, lastIndex, m) == segs + gap + [h];
    if startIndex > lastIndex {
      HighlightsSnoc(segs, gap[0]);
      assert segs + gap == segs + [gap[0]];
    } else {
      assert segs + gap == segs;
    }
    HighlightsSnoc(segs + gap, h);
  }

  lemma NoEmptyGapsAppend(a: seq<Segment>, b: seq<Segment>)
    requires NoEmptyGaps(a)
    requires NoEmptyGaps(b)
    ensures NoEmptyGaps(a + b)
  {
    forall i | 0 <= i < |a + b| && (a + b)[i].Plain?
      ensures (a + b)[i].text != []
    {
      if i >= |a| {
        assert (a + b)[i] == b[i - |a|];
      }
    }
  }

  /** From a non-negative cursor an iteration pushes no empty text and leaves
      the cursor non-negative: a gap is pushed only when the sentence lies
      beyond the cursor, and a sentence that is not found is never empty. */
  lemma PushedKeeps(content: string, lastIndex: int, m: Mention)
    requires lastIndex >= 0
    ensures NoEmptyGaps(Pushed(content, lastIndex, m))
    ensures Advance(content, lastIndex, m) >= 0
  {
    var startIndex := IndexOf(content, m.sentence, lastIndex);
    var h := Highlight(m.sentence, m.topic, m.sentiment, startIndex);
    if startIndex > lastIndex {
      assert MatchAt(content, m.sentence, startIndex);
    }
    assert NoEmptyGaps(Gap(content, lastIndex, startIndex));
    NoEmptyGapsAppend(Gap(content, lastIndex, startIndex), [h]);
  }

  /** Whatever the sentences and whether or not they are found, the walk
      keeps the cursor non-negative and every gap non-empty, and pushes one
      highlight per sentence, in order, with its labels. */
  lemma {:induction false} WalkKeeps(content: string, ms: seq<Mention>)
    ensures LastIndexAfter(content, ms) >= 0
    ensures NoEmptyGaps(SegmentsAfter(content, ms))
    ensures Tags(Highlights(SegmentsAfter(content, ms)), ms)
    decreases |ms|
  {
    if |ms| > 0 {
      var done := ms[..|ms| - 1];
      var m := ms[|ms| - 1];
      var last := LastIndexAfter(content, done);
      WalkKeeps(content, done);
      WalkLast(content, ms);
      PushedKeeps(content, last, m);
      NoEmptyGapsAppend(SegmentsAfter(content, done), Pushed(content, last, m));
      PushedHighlights(content, SegmentsAfter(content, done), last, m);
    }
  }

  /** The tail keeps the gaps non-empty and adds no highlight. */
  lemma FinishKeeps(content: string, segs: seq<Segment>, lastIndex: int)
    requires lastIndex >= 0
    requires NoEmptyGaps(segs)
    ensures NoEmptyGaps(Finish(content, segs, lastIndex))
    ensures Highlights(Finish(content, segs, lastIndex)) == Highlights(segs)
  {
    if lastIndex < |content| {
      var tail := Plain(SliceFrom(content, lastIndex));
      HighlightsSnoc(segs, tail);
      NoEmptyGapsAppend(segs, [tail]);
    }
  }

  /** The segments the highlighter renders for `content` under `analytics`.
      Plain segments are never empty (so in particular the list never ends
      with an empty slice); there is one highlight per sentence, in
      iteration order, whether or not the sentence was found; and without any
      sentence the content comes back whole, or nothing when it is empty. */
  function Highlighted(content: string, analytics: seq<Analytic>): (r: seq<Segment>)
    ensures NoEmptyGaps(r)
    ensures Tags(Highlights(r), Mentions(analytics))
    ensures |Highlights(r)| == TotalSentences(analytics)
    ensures Mentions(analytics) == [] ==> r == (if content == [] then [] else [Plain(content)])
  {
    var ms := Mentions(analytics);
    WalkKeeps(content, ms);
    FinishKeeps(content, SegmentsAfter(content, ms), LastIndexAfter(content, ms));
    Finish(content, SegmentsAfter(content, ms), LastIndexAfter(content, ms))
  }

  lemma PrefixEnds<T>(done: seq<T>, mine: seq<T>)
    ensures done + mine[..0] == done
    ensures done + mine[..|mine|] == done + mine
  {
    assert mine[..|mine|] == mine;
  }

  /** Visiting the next sentence of an analytic is one more iteration. */
  lemma VisitStep(content: string, done: seq<Mention>, mine: seq<Mention>, k: nat, m: Mention,
                  out: seq<Segment>, lastIndex: int)
    requires k < |mine|
    requires m == mine[k]
    requires out == SegmentsAfter(content, done + mine[..k])
    requires lastIndex == LastIndexAfter(content, done + mine[..k])
    ensures out + Pushed(content, lastIndex, m) == SegmentsAfter(content, done + mine[..k + 1])
    ensures Advance(content, lastIndex, m) == LastIndexAfter(content, done + mine[..k + 1])
  {
    assert done + mine[..k + 1] == (done + mine[..k]) + [m] by {
      PrefixSnoc(mine, k);
    }
    WalkSnoc(content, done + mine[..k], m);
  }

  /** The inner `sentences.forEach` of `highlightSentences`: visits the
      sentences of one analytic, continuing the walk that has visited `done`. */
  method VisitAnalytic(content: string, analytic: Analytic, ghost done: seq<Mention>,
                       out0: seq<Segment>, lastIndex0: int)
    returns (out: seq<Segment>, lastIndex: int)
    requires out0 == SegmentsAfter(content, done)
    requires lastIndex0 == LastIndexAfter(content, done)
    ensures out == SegmentsAfter(content, done + MentionsOf(analytic))
    ensures lastIndex == LastIndexAfter(content, done + MentionsOf(analytic))
  {
    out, lastIndex := out0, lastIndex0;
    ghost var mine := MentionsOf(analytic);
    PrefixEnds(done, mine);
    var k := 0;
    while k < |analytic.sentences|
      invariant 0 <= k <= |analytic.sentences|
      invariant out == SegmentsAfter(content, done + mine[..k])
      invariant lastIndex == LastIndexAfter(content, done + mine[..k])
    {
      var m := Mention(analytic.sentences[k], analytic.topic, analytic.sentiment);
      VisitStep(content, done, mine, k, m, out, lastIndex);
      out := out + Pushed(content, lastIndex, m);
      lastIndex := Advance(content, lastIndex, m);
      k := k + 1;
    }
  }

  /** `highlightSentences` as the source writes it: an outer loop over the
      analytics, the inner loop over each one's sentences, and the tail. */
  method HighlightSentences(content: string, analytics: seq<Analytic>) returns (out: seq<Segment>)
    ensures out == Highlighted(content, analytics)
  {
    out := [];
    var lastIndex := 0;
    var a := 0;
    while a < |analytics|
      invariant 0 <= a <= |analytics|
      invariant out == SegmentsAfter(content, Mentions(analytics[..a]))
      invariant lastIndex == LastIndexAfter(content, Mentions(analytics[..a]))
    {
      MentionsSnoc(analytics, a);
      out, lastIndex := VisitAnalytic(content, analytics[a], Mentions(analytics[..a]), out, lastIndex);
      a := a + 1;
    }
    assert analytics[..a] == analytics;
    if lastIndex < |content| {
      out := out + [Plain(SliceFrom(content, lastIndex))];
    }
  }

  // ---------------------------------------------------------------------
  // When every sentence is found
  // ---------------------------------------------------------------------

  /** Every sentence is found at or after the cursor the walk has reached. */
  predicate AllFound(content: string, ms: seq<Mention>)
    decreases |ms|
  {
    |ms| == 0
    || (AllFound(content, ms[..|ms| - 1])
        && IndexOf(content, ms[|ms| - 1].sentence, LastIndexAfter(content, ms[..|ms| - 1])) != -1)
  }

  /** The walk's invariant while every sentence is found: the cursor stays
      within the content, the segments spell out the content up to it, the
      highlights so far are placed one after another, and each ends at or
      before the cursor. */
  predicate FoundInvariant(content: string, done: seq<Mention>, segs: seq<Segment>, lastIndex: int)
  {
    && 0 <= lastIndex <= |content|
    && Texts(segs) == content[..lastIndex]
    && Placement(content, done, Starts(Highlights(segs)))
    && (forall i :: 0 <= i < |done| ==> Starts(Highlights(segs))[i] + |done[i].sentence| <= lastIndex)
  }

  /** Text up to `last`, then the text from `last` to `s`, then the text from
      `s` to `e`, is the text up to `e`. */
  lemma TextsThree(content: string, segs: seq<Segment>, gap: seq<Segment>, h: Segment,
                   last: nat, s: nat, e: nat)
    requires last <= s <= e <= |content|
    requires Texts(segs) == content[..last]
    requires Texts(gap) == content[last..s]
    requires Texts([h]) == content[s..e]
    ensures Texts(segs + gap + [h]) == content[..e]
  {
    TextsAppend(segs, gap);
    TextsAppend(segs + gap, [h]);
    assert content[..last] + content[last..s] == content[..s];
    assert content[..s] + content[s..e] == content[..e];
  }

  /** What an iteration pushes for a sentence found from the cursor: the
      text between the cursor and the match, if any, then the highlight. */
  lemma PushedFound(content: string, lastIndex: int, m: Mention)
    requires 0 <= lastIndex <= |content|
    requires IndexOf(content, m.sentence, lastIndex) != -1
    ensures var s := IndexOf(content, m.sentence, lastIndex);
      && lastIndex <= s
      && Advance(content, lastIndex, m) <= |content|
      && content[s..Advance(content, lastIndex, m)] == m.sentence
      && Pushed(content, lastIndex, m)
         == (if s > lastIndex then [Plain(content[lastIndex..s])] else [])
            + [Highlight(m.sentence, m.topic, m.sentiment, s)]
  {
    assert SearchStart(lastIndex, |content|) == lastIndex;
  }

  /** The segments a found sentence adds spell out the text from the cursor
      to its end. */
  lemma FoundStepText(content: string, segs: seq<Segment>, lastIndex: int, m: Mention)
    requires 0 <= lastIndex <= |content|
    requires Texts(segs) == content[..lastIndex]
    requires IndexOf(content, m.sentence, lastIndex) != -1
    ensures Advance(content, lastIndex, m) <= |content|
    ensures Texts(segs + Pushed(content, lastIndex, m)) == content[..Advance(content, lastIndex, m)]
  {
    var last := lastIndex;
    var s := IndexOf(content, m.sentence, last);
    var e := Advance(content, last, m);
    PushedFound(content, last, m);
    var h := Highlight(m.sentence, m.topic, m.sentiment, s);
    TextsSingle(h);
    var gap := if s > last then [Plain(content[last..s])] else [];
    assert Texts(gap) == content[last..s] by {
      if s > last {
        TextsSingle(Plain(content[last..s]));
      }
    }
    assert Texts([h]) == content[s..e];
    assert segs + Pushed(content, last, m) == segs + gap + [h];
    TextsThree(content, segs, gap, h, last, s, e);
  }

  /** The highlight a found sentence adds is placed where the sentence
      occurs, at or after the cursor. */
  lemma FoundStepStarts(content: string, segs: seq<Segment>, lastIndex: int, m: Mention)
    requires 0 <= lastIndex <= |content|
    requires IndexOf(content, m.sentence, lastIndex) != -1
    ensures var s := IndexOf(content, m.sentence, lastIndex);
      && lastIndex <= s
      && MatchAt(content, m.sentence, s)
      && Starts(Highlights(segs + Pushed(content, lastIndex, m))) == Starts(Highlights(segs)) + [s]
  {
    assert SearchStart(lastIndex, |content|) == lastIndex;
    PushedHighlights(content, segs, lastIndex, m);
  }

  /** A found sentence keeps the invariant. */
  lemma FoundStep(content: string, done: seq<Mention>, segs: seq<Segment>, lastIndex: int, m: Mention)
    requires FoundInvariant(content, done, segs, lastIndex)
    requires IndexOf(content, m.sentence, lastIndex) != -1
    ensures FoundInvariant(content, done + [m], segs + Pushed(content, lastIndex, m),
                           Advance(content, lastIndex, m))
  {
    FoundStepText(content, segs, lastIndex, m);
    FoundStepStarts(content, segs, lastIndex, m);
    var s := IndexOf(content, m.sentence, lastIndex);
    var ms := done + [m];
    var ps := Starts(Highlights(segs));
    var qs := ps + [s];
    forall i | 0 <= i < |ms|
      ensures MatchAt(content, ms[i].sentence, qs[i])
      ensures qs[i] + |ms[i].sentence| <= s + |m.sentence|
    {
      if i < |done| {
        assert ms[i] == done[i] && qs[i] == ps[i];
      }
    }
    forall i, j | 0 <= i < j < |ms|
      ensures qs[i] + |ms[i].sentence| <= qs[j]
    {
      assert ms[i] == done[i] && qs[i] == ps[i];
      if j < |done| {
        assert ms[j] == done[j] && qs[j] == ps[j];
      }
    }
  }

  /** `FoundStep`, with the state after the step given by name. */
  lemma FoundStepAt(content: string, done: seq<Mention>, segs: seq<Segment>, lastIndex: int, m: Mention,
                    ms: seq<Mention>, segs': seq<Segment>, lastIndex': int)
    requires FoundInvariant(content, done, segs, lastIndex)
    requires IndexOf(content, m.sentence, lastIndex) != -1
    requires ms == done + [m]
    requires segs' == segs + Pushed(content, lastIndex, m)
    requires lastIndex' == Advance(content, lastIndex, m)
    ensures FoundInvariant(content, ms, segs', lastIndex')
  {
    FoundStep(content, done, segs, lastIndex, m);
  }

  /** One found sentence more keeps the walk's invariant. */
  lemma FoundWalkStep(content: string, ms: seq<Mention>)
    requires |ms| > 0
    requires FoundInvariant(content, ms[..|ms| - 1], SegmentsAfter(content, ms[..|ms| - 1]),
                            LastIndexAfter(content, ms[..|ms| - 1]))
    requires IndexOf(content, ms[|ms| - 1].sentence, LastIndexAfter(content, ms[..|ms| - 1])) != -1
    ensures FoundInvariant(content, ms, SegmentsAfter(content, ms), LastIndexAfter(content, ms))
  {
    var done := ms[..|ms| - 1];
    var m := ms[|ms| - 1];
    WalkLast(content, ms);
    FoundStepAt(content, done, SegmentsAfter(content, done), LastIndexAfter(content, done), m,
                ms, SegmentsAfter(content, ms), LastIndexAfter(content, ms));
  }

  /** The walk over sentences that are all found keeps the invariant. */
  lemma {:induction false} FoundWalk(content: string, ms: seq<Mention>)
    requires AllFound(content, ms)
    ensures FoundInvariant(content, ms, SegmentsAfter(content, ms), LastIndexAfter(content, ms))
    decreases |ms|
  {
    if |ms| == 0 {
      assert Texts([]) == content[..0];
    } else {
      FoundWalk(content, ms[..|ms| - 1]);
      FoundWalkStep(content, ms);
    }
  }

  /** The tail completes the text the segments spell out up to the cursor. */
  lemma FinishTexts(content: string, segs: seq<Segment>, lastIndex: int)
    requires 0 <= lastIndex <= |content|
    requires Texts(segs) == content[..lastIndex]
    ensures Texts(Finish(content, segs, lastIndex)) == content
  {
    if lastIndex < |content| {
      var tail := Plain(SliceFrom(content, lastIndex));
      TextsAppend(segs, [tail]);
      TextsSingle(tail);
      assert content[..lastIndex] + content[lastIndex..] == content;
    } else {
      assert content[..lastIndex] == content;
    }
  }

  /** When every sentence is found, the rendered segments spell out exactly
      the review text. */
  lemma Reconstructs(content: string, analytics: seq<Analytic>)
    requires AllFound(content, Mentions(analytics))
    ensures Texts(Highlighted(content, analytics)) == content
  {
    var ms := Mentions(analytics);
    FoundWalk(content, ms);
    FinishTexts(content, SegmentsAfter(content, ms), LastIndexAfter(content, ms));
  }

  /** When every sentence is found, the highlights sit in the text one after
      another in iteration order, each where its sentence occurs, none
      overlapping the next. */
  lemma HighlightsInDocumentOrder(content: string, analytics: seq<Analytic>)
    requires AllFound(content, Mentions(analytics))
    ensures Placement(content, Mentions(analytics), Starts(Highlights(Highlighted(content, analytics))))
  {
    var ms := Mentions(analytics);
    FoundWalk(content, ms);
    WalkKeeps(content, ms);
    FinishKeeps(content, SegmentsAfter(content, ms), LastIndexAfter(content, ms));
  }

  lemma {:induction false} AllFoundPrefix(content: string, ms: seq<Mention>, n: nat)
    requires AllFound(content, ms)
    requires n <= |ms|
    ensures AllFound(content, ms[..n])
    decreases |ms|
  {
    if n < |ms| {
      AllFoundPrefix(content, ms[..|ms| - 1], n);
      assert ms[..|ms| - 1][..n] == ms[..n];
    } else {
      assert ms[..n] == ms;
    }
  }

  /** A found sentence moves the cursor forward. */
  lemma CursorAdvances(content: string, ms: seq<Mention>, j: nat)
    requires 0 < j <= |ms|
    requires AllFound(content, ms[..j])
    ensures LastIndexAfter(content, ms[..j - 1]) <= LastIndexAfter(content, ms[..j])
  {
    assert ms[..j][..j - 1] == ms[..j - 1];
    FoundWalk(content, ms[..j - 1]);
    var last := LastIndexAfter(content, ms[..j - 1]);
    assert SearchStart(last, |content|) == last;
  }

  /** When every sentence is found, the cursor never moves backwards. */
  lemma {:induction false} CursorMonotone(content: string, ms: seq<Mention>, i: nat, j: nat)
    requires AllFound(content, ms)
    requires i <= j <= |ms|
    ensures LastIndexAfter(content, ms[..i]) <= LastIndexAfter(content, ms[..j])
    decreases j
  {
    if i < j {
      CursorMonotone(content, ms, i, j - 1);
      AllFoundPrefix(content, ms, j);
      CursorAdvances(content, ms, j);
    }
  }

  /** A placement of the sentences places every prefix of them. */
  lemma PlacementPrefix(content: string, ms: seq<Mention>, ps: seq<int>)
    requires Placement(content, ms, ps)
    requires |ms| > 0
    ensures Placement(content, ms[..|ms| - 1], ps[..|ms| - 1])
  {
    var done := ms[..|ms| - 1];
    forall i, j | 0 <= i < j < |done|
      ensures ps[i] + |done[i].sentence| <= ps[j]
    {
      assert ms[i] == done[i];
    }
  }

  /** A sentence that occurs at `p`, at or after the cursor the walk has
      reached, is found, and the cursor then stops by the end of that occurrence. */
  lemma PlacementStep(content: string, ms: seq<Mention>, p: int)
    requires |ms| > 0
    requires AllFound(content, ms[..|ms| - 1])
    requires 0 <= LastIndexAfter(content, ms[..|ms| - 1]) <= p
    requires MatchAt(content, ms[|ms| - 1].sentence, p)
    ensures AllFound(content, ms)
    ensures LastIndexAfter(content, ms) <= p + |ms[|ms| - 1].sentence|
  {
    var m := ms[|ms| - 1];
    var last := LastIndexAfter(content, ms[..|ms| - 1]);
    IndexOfFindsFirst(content, m.sentence, last, p);
    WalkLast(content, ms);
  }

  /** Conversely, whenever the sentences can be placed in the text one after
      another at all, the walk finds every one of them, and its cursor never
      overtakes the end of the last placed sentence. */
  lemma {:induction false} PlacementFound(content: string, ms: seq<Mention>, ps: seq<int>)
    requires Placement(content, ms, ps)
    ensures AllFound(content, ms)
    ensures |ms| > 0 ==> LastIndexAfter(content, ms) <= ps[|ms| - 1] + |ms[|ms| - 1].sentence|
    decreases |ms|
  {
    if |ms| > 0 {
      var done := ms[..|ms| - 1];
      var p := ps[|ms| - 1];
      PlacementPrefix(content, ms, ps);
      PlacementFound(content, done, ps[..|ms| - 1]);
      WalkKeeps(content, done);
      assert LastIndexAfter(content, done) <= p by {
        if |done| > 0 {
          assert ps[|done| - 1] + |ms[|done| - 1].sentence| <= p;
        }
      }
      PlacementStep(content, ms, p);
    }
  }

  /** A sentence that cannot be found from the cursor still gets a highlight
      (placed at -1), gets no gap before it, and leaves the cursor at one
      less than its length, wherever the cursor was. */
  lemma MissingSentenceStep(content: string, lastIndex: int, m: Mention)
    requires lastIndex >= 0
    requires IndexOf(content, m.sentence, lastIndex) == -1
    ensures m.sentence != []
    ensures Pushed(content, lastIndex, m) == [Highlight(m.sentence, m.topic, m.sentiment, -1)]
    ensures Advance(content, lastIndex, m) == |m.sentence| - 1
  {
  }

  /** The two searches of the example below: "b" is found at 1 in "ab", and
      "zz" is not found from 2. */
  lemma ExampleSearches()
    ensures IndexOf("ab", "b", 0) == 1
    ensures IndexOf("ab", "zz", 2) == -1
  {
    assert "ab"[0..1][0] == 'a';
    assert !MatchAt("ab", "b", 0);
    assert "ab"[1..2] == "b";
    IndexOfFindsFirst("ab", "b", 0, 1);
  }

  /** The walk of the example below, sentence by sentence. */
  lemma ExampleWalk(b: Mention, zz: Mention)
    requires b == Mention("b", "room", "Negative")
    requires zz == Mention("zz", "room", "Negative")
    ensures LastIndexAfter("ab", [b]) == 2
    ensures LastIndexAfter("ab", [b, zz]) == 1
    ensures SegmentsAfter("ab", [b, zz])
         == [Plain("a"), Highlight("b", "room", "Negative", 1), Highlight("zz", "room", "Negative", -1)]
  {
    ExampleSearches();
    assert LastIndexAfter("ab", [b]) == 2
        && SegmentsAfter("ab", [b]) == [Plain("a"), Highlight("b", "room", "Negative", 1)] by {
      WalkSnoc("ab", [], b);
      assert [] + [b] == [b];
      assert Slice("ab", 0, 1) == "a";
    }
    WalkSnoc("ab", [b], zz);
    assert [b] + [zz] == [b, zz];
  }

  /** The page text of the example's rendering. */
  lemma ExampleTexts(hb: Segment, hzz: Segment)
    requires hb == Highlight("b", "room", "Negative", 1)
    requires hzz == Highlight("zz", "room", "Negative", -1)
    ensures Texts([Plain("a"), hb, hzz, Plain("b")]) == "abzzb"
  {
    var out := [Plain("a"), hb, hzz, Plain("b")];
    TextsSingle(Plain("a"));
    assert Texts([Plain("a"), hb]) == "ab" by {
      assert [Plain("a"), hb][..1] == [Plain("a")];
    }
    assert Texts([Plain("a"), hb, hzz]) == "abzz" by {
      assert [Plain("a"), hb, hzz][..2] == [Plain("a"), hb];
    }
    assert out[..3] == [Plain("a"), hb, hzz];
  }

  /** A review where a sentence is missing: in "ab", the sentence "b" is
      found at 1 and moves the cursor to 2; "zz" is then not found, and the
      cursor falls back to 1, so the tail repeats "b" and the rendered text
      reads "abzzb" instead of "ab". */
  lemma MissingSentenceCorruptsText()
    ensures var analytics := [Analytic("room", "room", [], ["b", "zz"], "Negative")];
      && LastIndexAfter("ab", Mentions(analytics)[..1]) == 2
      && LastIndexAfter("ab", Mentions(analytics)) == 1
      && Texts(Highlighted("ab", analytics)) == "abzzb"
      && Texts(Highlighted("ab", analytics)) != "ab"
  {
    var analytics := [Analytic("room", "room", [], ["b", "zz"], "Negative")];
    var b := Mention("b", "room", "Negative");
    var zz := Mention("zz", "room", "Negative");
    assert Mentions(analytics) == [b, zz] by {
      assert analytics[..0] == [];
    }
    assert [b, zz][..1] == [b];
    ExampleWalk(b, zz);
    var hb := Highlight("b", "room", "Negative", 1);
    var hzz := Highlight("zz", "room", "Negative", -1);
    var out := [Plain("a"), hb, hzz, Plain("b")];
    assert Highlighted("ab", analytics) == out by {
      assert SliceFrom("ab", 1) == "b";
      assert [Plain("a"), hb, hzz] + [Plain("b")] == out;
    }
    ExampleTexts(hb, hzz);
    assert "abzzb" != "ab" by {
      assert |"abzzb"| == 5;
    }
  }
}
