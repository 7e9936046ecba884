# Review sentiment highlighter — a Dafny model

This project models the logic of a review page (`App.js`). Each review's
text is shown with its pre-computed sentiment sentences highlighted. Each
review also has a row of rating stars and a bookmark the user can toggle.
Three pieces of logic are modelled:

- `highlightSentences`, which splits a review's `content` into plain runs and
  highlighted sentences. It walks the sentences of every analytic in order
  with a cursor `lastIndex`. It finds each sentence with
  `content.indexOf(sentence, lastIndex)`, pushes the skipped text (only when
  the match lies beyond the cursor) and then the highlight, and moves the
  cursor to the end of the match. After the loops it pushes the rest of the
  text, if any.
- `handleBookmarkToggle`, the state update that flips `bookmarked` on the
  reviews whose `review_id` is the clicked one.
- `StarRating`, which builds `outOf` stars, each full, half or empty.

Modules:

- `JsString` (`js_string.dfy`): `String.prototype.indexOf` and
  `String.prototype.slice` with JavaScript's clamping of out-of-range and
  negative arguments.
- `Reviews` (`reviews.dfy`): the review and analytic records, and the
  bookmark toggle.
- `Stars` (`stars.dfy`): the star row.
- `Highlighter` (`highlighter.dfy`): the segmentation as written. It has two
  forms. `Highlighted` is a functional definition: the sentences are
  flattened in loop order (`Mentions`), and two folds give the cursor
  (`LastIndexAfter`) and the segments (`SegmentsAfter`). `HighlightSentences`
  and `VisitAnalytic` are the two nested loops, proved to compute
  `Highlighted`. The module also holds the properties of the walk.
- `CorrectedHighlighter` (`corrected_highlighter.dfy`): the segmentation with
  every sentence not found at or after the cursor skipped (see Findings).

A rendered segment is `Plain(text)` or `Highlight(sentence, topic, sentiment,
start)`. `start` is the `indexOf` result, which the source uses as the React
key. `Texts` is the page text a list of segments shows. `Highlights` is the
highlighted segments in order.

When `indexOf` does not find a sentence from the cursor, the source still
highlights it and moves the cursor to `sentence.length - 1` (`App.js:45`), so
the tail pushed at `App.js:49-51` can repeat text already shown, and every
such highlight gets the same key, -1 (`App.js:38`). `Highlighter` models this
as written. `CorrectedHighlighter` is this model's reading of the intent: a
sentence not found at or after the cursor (absent from the text, listed out
of document order, or overlapping the previous match) is left plain, with no
highlight and no cursor move.

## Model

| member | source | states |
|---|---|---|
| JsString.IndexOf | App.js:30 | `indexOf` returns -1 or an offset at or after the clamped start where the sentence occurs; an empty sentence is found at the clamped start |
| JsString.IndexOfFindsFirst | App.js:30 | the search returns the first occurrence at or after the cursor, so it reports -1 only when the sentence does not occur there at all |
| JsString.IndexOfMissing | App.js:30 | `indexOf` reports -1 exactly when the sentence occurs nowhere at or after the clamped start |
| JsString.Slice | App.js:34 | `slice(lastIndex, startIndex)` is the substring between the two offsets when they are in range, and empty when the end is not past the start |
| JsString.SliceFrom | App.js:50 | `slice(lastIndex)` is the text from the cursor to the end, empty past the end |
| Reviews.ToggleBookmark | App.js:515-523 | the list keeps its length and order; a review's flag changes exactly when its id is the clicked one; every other field of every review is unchanged |
| Reviews.ToggleTwice | App.js:515-523 | clicking the same bookmark twice restores the original list |
| Reviews.ToggleCommutes | App.js:515-523 | clicks on two bookmarks give the same list in either order |
| Reviews.ToggleClickedOnly | App.js:515-523 | with distinct ids, clicking the bookmark of the review at position k flips that review's flag and leaves every other review as it was |
| Stars.FullStars | App.js:535 | `Math.floor(score)` is the integer n with n <= score < n + 1 |
| Stars.HasHalfStar | App.js:536 | `score % 1 >= 0.5` holds exactly when the score is non-negative and exceeds its floor by at least one half (the remainder takes the sign of the score) |
| Stars.StarRating | App.js:538-546 | `outOf` stars (none for a negative `outOf`); star k is full iff k < fullStars, half iff k == fullStars and a half star is due; so the row is a block of full stars, at most one half star, then empty stars |
| Stars.StarRow | App.js:533-548 | from the score: star k is full iff the score reaches k + 1, half iff the score lies in [k + 0.5, k + 1), empty otherwise |
| Highlighter.Highlighted | App.js:23-54 | no plain segment is empty (so the output never ends with an empty slice); the highlights are the sentences one for one, in loop order, with their topic and sentiment, found or not; their number is the total number of sentences; with no sentences the output is `[content]`, or `[]` for empty content |
| Highlighter.HighlightSentences | App.js:23-54 | the nested loops and the tail push compute exactly the segments `Highlighted` defines |
| Highlighter.VisitAnalytic | App.js:28-46 | the inner loop over one analytic's sentences continues the walk by exactly those sentences, for both the segments and the cursor |
| Highlighter.WalkKeeps | App.js:27-46 | whatever is found or not, the cursor stays non-negative, every pushed gap is non-empty and one highlight is pushed per sentence, in order |
| Highlighter.PushedKeeps | App.js:30-45 | one iteration pushes a gap only when the match lies strictly beyond the cursor, so never an empty one, and leaves the cursor non-negative |
| Highlighter.FinishKeeps | App.js:49-51 | the tail is pushed only when the cursor is before the end, so it is never empty, and it adds no highlight |
| Highlighter.FoundStepText | App.js:30-45 | for a sentence found from the cursor, the gap and the highlight spell out the text from the cursor to the end of the match, and the new cursor stays within the text |
| Highlighter.FoundWalk | App.js:27-46 | when every sentence is found, the cursor stays within the text, the segments spell out the text up to the cursor, and the highlights are placed at occurrences of their sentences, one after another, ending by the cursor |
| Highlighter.FinishTexts | App.js:49-51 | the tail completes the text the segments spell out up to the cursor |
| Highlighter.Reconstructs | App.js:23-54 | when every sentence is found, the segments' texts concatenate to exactly the review content |
| Highlighter.HighlightsInDocumentOrder | App.js:27-45 | when every sentence is found, each highlight is placed where its sentence occurs, and each ends before the next one (in loop order) begins |
| Highlighter.CursorMonotone | App.js:30-45 | when every sentence is found, the cursor never moves backwards |
| Highlighter.PlacementFound | App.js:27-45 | conversely, if the sentences can be placed in the text one after another at all, the walk finds every one, and its cursor stays at or before the end of the last placed sentence |
| Highlighter.MissingSentenceStep | App.js:30-45 | a sentence not found from the cursor is non-empty, gets no gap and a highlight placed at -1, and sets the cursor to its length minus one, wherever the cursor was |
| Highlighter.MissingSentenceCorruptsText | App.js:23-54 | for content "ab" and sentences "b", "zz", the cursor goes from 2 back to 1 and the page text reads "abzzb" instead of "ab" |
| CorrectedHighlighter.SkippingWalk | App.js:27-46 | with sentences that are not found skipped, for every input, the cursor stays within the text, the segments spell out the text up to it, and the highlights of the found sentences are placed one after another, ending by the cursor |
| CorrectedHighlighter.SkippingReconstructs | App.js:23-54 | with sentences that are not found skipped, the segments' texts concatenate to exactly the review content, for every input |
| CorrectedHighlighter.SkippingTags | App.js:27-46 | with sentences that are not found skipped, no pushed gap is empty and the highlights are the found sentences, one for one, with their labels |
| CorrectedHighlighter.SkippingShape | App.js:23-54 | with sentences that are not found skipped, for every input: no plain segment is empty, the highlights are exactly the found sentences in loop order, and each sits where its sentence occurs, ending before the next begins |
| CorrectedHighlighter.SkippingAgreesWhenAllFound | App.js:27-46 | when every sentence is found, the corrected walk skips nothing, has the same cursor and pushes the same segments as the walk as written |
| CorrectedHighlighter.HighlightedAgreesWhenAllFound | App.js:23-54 | when every sentence is found, the corrected rendering equals the rendering as written |

## Left out

- React and JSX rendering: the `Tooltip`, `Review` and `ReviewList` components, icons, CSS class names and the `sentimentColors` table. These are presentation only. A highlight keeps the data they display: topic, sentiment and the key.
- `sentiment.toLowerCase()`: it only builds a class name. The sentiment label is kept as given.
- `useState` and `useEffect`: the bookmark update is modelled as a pure function from the old list to the new one. The mock review data is not modelled.
- The `highlight_indices` field of the mock analytics is not in the datatype, because the code never reads it.
- React's handling of duplicate element keys (two highlights at the same `startIndex`, or several at -1) is not modelled. The key is kept as data.
- Stars.FullStars, Stars.HasHalfStar: the score is a `real`, so NaN and the infinities are not modelled, and the floating-point `% 1` is exact here.
- JavaScript strings are sequences of UTF-16 code units, and a Dafny `char` is a Unicode scalar value, so a lone surrogate is not a `char`. The model reads each code unit as one `char` through an injective encoding, not the identity. The code only compares characters for equality and counts them, so lengths, offsets and every property carry over. No Unicode normalisation or case folding is involved in the source.
- Inputs that JavaScript accepts but the Dafny types exclude are not modelled. These are a null or undefined `analytics` or `sentences`, which throw at `App.js:27` and `App.js:29`; a null `sentiment`, which throws at `App.js:39`; a null `content`, which throws at `App.js:49`; and a non-integer `outOf`, for which the loop at `App.js:538` draws `floor(outOf)` stars, while `outOf` is an `int` here.

## Findings

| source | as written | input that shows it | evidently intended | confidence | as-written member | corrected member |
|---|---|---|---|---|---|---|
| App.js:30-45 | when `indexOf` returns -1 the loop still pushes a highlight and sets `lastIndex` to `sentence.length - 1`, which can move the cursor backwards | content "ab", one analytic with sentences "b" and "zz": the tail repeats "b" and the page text reads "abzzb" | a sentence not found at or after the cursor (absent, out of order or overlapping the previous match) is left plain: no highlight, cursor unchanged, so the text is shown exactly once | not executed | Highlighter.MissingSentenceCorruptsText | CorrectedHighlighter.SkippingReconstructs |
