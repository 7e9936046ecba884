/** The review records the page displays, and the bookmark toggle the page
    applies to its list of reviews when a bookmark icon is clicked. */
module Reviews {

  /** One pre-computed annotation of a review: the sentences of the review
      text it is about, with the sentiment label and topic shown for them. */
  datatype Analytic = Analytic(
    category: string,
    topic: string,
    phrases: seq<string>,
    sentences: seq<string>,
    sentiment: string)

  /** The fields of a review record that the page reads.  The rating score
      is a JavaScript number; `real` holds every finite value exactly. */
  datatype Review = Review(
    reviewId: string,
    reviewerName: string,
    content: string,
    date: string,
    ratingReviewScore: real,
    outOf: int,
    bookmarked: bool,
    analytics: seq<Analytic>)

  /** The record the toggle produces for one review: a copy with
      `bookmarked` negated when its id is the clicked one, else the same record. */
  function Toggled(review: Review, reviewId: string): (r: Review)
    ensures r.reviewId == review.reviewId
  {
    if review.reviewId == reviewId then review.(bookmarked := !review.bookmarked) else review
  }

  /** The state update for a click on the bookmark of review `reviewId`. */
  function ToggleBookmark(reviews: seq<Review>, reviewId: string): (r: seq<Review>)
    ensures |r| == |reviews|
    ensures forall i :: 0 <= i < |r| ==>
              (r[i].bookmarked != reviews[i].bookmarked <==> reviews[i].reviewId == reviewId)
    ensures forall i :: 0 <= i < |r| ==> r[i] == reviews[i].(bookmarked := r[i].bookmarked)
  {
    seq(|reviews|, i requires 0 <= i < |reviews| => Toggled(reviews[i], reviewId))
  }

  /** Clicking the same bookmark twice restores the list. */
  lemma ToggleTwice(reviews: seq<Review>, reviewId: string)
    ensures ToggleBookmark(ToggleBookmark(reviews, reviewId), reviewId) == reviews
  {
    var once := ToggleBookmark(reviews, reviewId);
    var twice := ToggleBookmark(once, reviewId);
    assert forall i :: 0 <= i < |reviews| ==> twice[i] == reviews[i];
  }

  /** Clicks on two bookmarks give the same list in either order. */
  lemma ToggleCommutes(reviews: seq<Review>, a: string, b: string)
    ensures ToggleBookmark(ToggleBookmark(reviews, a), b)
         == ToggleBookmark(ToggleBookmark(reviews, b), a)
  {
    var ab := ToggleBookmark(ToggleBookmark(reviews, a), b);
    var ba := ToggleBookmark(ToggleBookmark(reviews, b), a);
    assert forall i :: 0 <= i < |reviews| ==> ab[i] == ba[i];
  }

  /** Review ids are distinct within the list. */
  predicate DistinctIds(reviews: seq<Review>)
  {
    forall i, j :: 0 <= i < j < |reviews| ==> reviews[i].reviewId != reviews[j].reviewId
  }

  /** A click on the bookmark of the review at position `k` (which passes that
      review's own id) changes that review's flag and nothing else, provided
      ids are distinct. */
  lemma ToggleClickedOnly(reviews: seq<Review>, k: nat)
    requires k < |reviews|
    requires DistinctIds(reviews)
    ensures var r := ToggleBookmark(reviews, reviews[k].reviewId);
      && r[k] == reviews[k].(bookmarked := !reviews[k].bookmarked)
      && forall i :: 0 <= i < |reviews| && i != k ==> r[i] == reviews[i]
  {
    var r := ToggleBookmark(reviews, reviews[k].reviewId);
    forall i | 0 <= i < |reviews| && i != k
      ensures r[i] == reviews[i]
    {
      if i < k {
        assert reviews[i].reviewId != reviews[k].reviewId;
      } else {
        assert reviews[k].reviewId != reviews[i].reviewId;
      }
    }
  }
}
