/** The highlighter with the not-found case repaired.  As written, a sentence
    that `indexOf` does not find from the cursor still gets a highlight
    (keyed -1, the same key for every such sentence) and sends the cursor to
    `sentence.length - 1`, after which the tail repeats text already shown.
    Here such a sentence (absent from the text, listed out of document order,
    or overlapping the previous match) is left plain: the walk pushes no
    highlight for it and leaves the cursor where it was. */
module CorrectedHighlighter {
  import opened JsString
  import opened Reviews
  import opened Highlighter

  /** The cursor after walking `ms`, skipping every sentence not found at or
      after the cursor. */
  function LastIndexSkipping(content: string, ms: seq<Mention>): int
    decreases |ms|
  {
    if |ms| == 0 then 0
    else
      var last := LastIndexSkipping(content, ms[..|ms| - 1]);
      if IndexOf(content, ms[|ms| - 1].sentence, last) == -1 then last
      else Advance(content, last, ms[|ms| - 1])
  }

  /** The segments pushed while walking `ms` with missing sentences skipped. */
  function SegmentsSkipping(content: string, ms: seq<Mention>): seq<Segment>
    decreases |ms|
  {
    if |ms| == 0 then []
    else
      var done := ms[..|ms| - 1];
      var last := LastIndexSkipping(content, done);
      if IndexOf(content, ms[|ms| - 1].sentence, last) == -1 then SegmentsSkipping(content, done)
      else SegmentsSkipping(content, done) + Pushed(content, last, ms[|ms| - 1])
  }

  /** The sentences the corrected walk highlights: those found from the
      cursor it has reached, in iteration order. */
  function FoundMentions(content: string, ms: seq<Mention>): seq<Mention>
    decreases |ms|
  {
    if |ms| == 0 then []
    else
      var done := ms[..|ms| - 1];
      if IndexOf(content, ms[|ms| - 1].sentence, LastIndexSkipping(content, done)) == -1
      then FoundMentions(content, done)
      else FoundMentions(content, done) + [ms[|ms| - 1]]
  }

  /** The segments rendered with missing sentences skipped. */
  function HighlightedSkippingMissing(content: string, analytics: seq<Analytic>): seq<Segment>
  {
    var ms := Mentions(analytics);
    Finish(content, SegmentsSkipping(content, ms), LastIndexSkipping(content, ms))
  }

  /** The last iteration of a walk that skips missing sentences. */
  lemma SkippingLast(content: string, ms: seq<Mention>)
    requires |ms| > 0
    ensures var done := ms[..|ms| - 1];
      var m := ms[|ms| - 1];
      var last := LastIndexSkipping(content, done);
      if IndexOf(content, m.sentence, last) == -1 then
        && LastIndexSkipping(content, ms) == last
        && SegmentsSkipping(content, ms) == SegmentsSkipping(content, done)
        && FoundMentions(content, ms) == FoundMentions(content, done)
      else
        && LastIndexSkipping(content, ms) == Advance(content, last, m)
        && SegmentsSkipping(content, ms) == SegmentsSkipping(content, done) + Pushed(content, last, m)
        && FoundMentions(content, ms) == FoundMentions(content, done) + [m]
  {
  }

  /** Whatever the sentences, the walk that skips missing ones keeps the
      invariant of a walk where every sentence is found, for the sentences
      it highlights: the cursor stays inside the content, the segments spell
      out the content up to the cursor, and the highlights sit where their
      sentences occur, one after another, ending by the cursor. */
  lemma {:induction false} SkippingWalk(content: string, ms: seq<Mention>)
    ensures FoundInvariant(content, FoundMentions(content, ms), SegmentsSkipping(content, ms),
                           LastIndexSkipping(content, ms))
    decreases |ms|
  {
    if |ms| == 0 {
      assert Texts([]) == content[..0];
    } else {
      var done := ms[..|ms| - 1];
      var m := ms[|ms| - 1];
      SkippingWalk(content, done);
      SkippingLast(content, ms);
      var last := LastIndexSkipping(content, done);
      if IndexOf(content, m.sentence, last) != -1 {
        FoundStepAt(content, FoundMentions(content, done), SegmentsSkipping(content, done), last, m,
                    FoundMentions(content, ms), SegmentsSkipping(content, ms), LastIndexSkipping(content, ms));
      }
    }
  }

  /** Whatever the sentences, the walk that skips missing ones pushes no
      empty gap and one highlight per sentence it found, with its labels. */
  lemma {:induction false} SkippingTags(content: string, ms: seq<Mention>)
    ensures NoEmptyGaps(SegmentsSkipping(content, ms))
    ensures Tags(Highlights(SegmentsSkipping(content, ms)), FoundMentions(content, ms))
    decreases |ms|
  {
    if |ms| > 0 {
      var done := ms[..|ms| - 1];
      var m := ms[|ms| - 1];
      SkippingTags(content, done);
      SkippingLast(content, ms);
      SkippingWalk(content, done);
      var last := LastIndexSkipping(content, done);
      if IndexOf(content, m.sentence, last) != -1 {
        var segs := SegmentsSkipping(content, done);
        PushedKeeps(content, last, m);
        NoEmptyGapsAppend(segs, Pushed(content, last, m));
        PushedHighlights(content, segs, last, m);
      }
    }
  }

  /** With missing sentences skipped, the rendered segments spell out the
      review text for every input, found or not. */
  lemma SkippingReconstructs(content: string, analytics: seq<Analytic>)
    ensures Texts(HighlightedSkippingMissing(content, analytics)) == content
  {
    var ms := Mentions(analytics);
    SkippingWalk(content, ms);
    FinishTexts(content, SegmentsSkipping(content, ms), LastIndexSkipping(content, ms));
  }

  /** With missing sentences skipped, for every input: no plain segment is
      empty; the highlights are the sentences found, one for one, with their
      labels; and each sits where its sentence occurs, ending before the next
      one begins. */
  lemma SkippingShape(content: string, analytics: seq<Analytic>)
    ensures var r := HighlightedSkippingMissing(content, analytics);
      var found := FoundMentions(content, Mentions(analytics));
      && NoEmptyGaps(r)
      && Tags(Highlights(r), found)
      && Placement(content, found, Starts(Highlights(r)))
  {
    var ms := Mentions(analytics);
    SkippingWalk(content, ms);
    SkippingTags(content, ms);
    FinishKeeps(content, SegmentsSkipping(content, ms), LastIndexSkipping(content, ms));
  }

  /** When every sentence is found, skipping never happens: the corrected
      walk pushes exactly what the walk as written pushes. */
  lemma {:induction false} SkippingAgreesWhenAllFound(content: string, ms: seq<Mention>)
    requires AllFound(content, ms)
    ensures LastIndexSkipping(content, ms) == LastIndexAfter(content, ms)
    ensures SegmentsSkipping(content, ms) == SegmentsAfter(content, ms)
    ensures FoundMentions(content, ms) == ms
    decreases |ms|
  {
    if |ms| > 0 {
      SkippingAgreesWhenAllFound(content, ms[..|ms| - 1]);
      SkippingLast(content, ms);
      WalkLast(content, ms);
    }
  }

  /** The same agreement for the whole rendering. */
  lemma HighlightedAgreesWhenAllFound(content: string, analytics: seq<Analytic>)
    requires AllFound(content, Mentions(analytics))
    ensures HighlightedSkippingMissing(content, analytics) == Highlighted(content, analytics)
  {
    SkippingAgreesWhenAllFound(content, Mentions(analytics));
  }
}
