/** The star row shown next to a review's score: `outOf` stars, each full,
    half or empty. */
module Stars {

  datatype Star = Full | Half | Empty

  /** `n` copies of `s`. */
  function Repeat(s: Star, n: nat): (r: seq<Star>)
    ensures |r| == n
    ensures forall i :: 0 <= i < n ==> r[i] == s
  {
    seq(n, _ => s)
  }

  /** `Math.floor(score)`: the greatest integer not above the score. */
  function FullStars(score: real): (n: int)
    ensures n as real <= score < n as real + 1.0
  {
    score.Floor
  }

  /** `score % 1`: JavaScript's remainder truncates towards zero, so it
      takes the sign of the score. */
  function FractionalPart(score: real): (f: real)
    ensures -1.0 < f < 1.0
    ensures score >= 0.0 ==> 0.0 <= f && score - f == score.Floor as real
    ensures score < 0.0 ==> f <= 0.0
  {
    if score >= 0.0 then score - score.Floor as real
    else score + (-score).Floor as real
  }

  /** `score % 1 >= 0.5`: a half star is due exactly when a non-negative
      score exceeds its integer part by at least one half. */
  function HasHalfStar(score: real): (b: bool)
    ensures b <==> score >= 0.0 && score - FullStars(score) as real >= 0.5
  {
    FractionalPart(score) >= 0.5
  }

  /** How many of the `outOf` stars are full: the integer part, clamped into
      `[0, outOf]`. */
  function FullCount(fullStars: int, outOf: nat): (n: nat)
    ensures n <= outOf
  {
    if fullStars < 0 then 0 else if fullStars > outOf then outOf else fullStars
  }

  /** How many stars are half: one when a half star is due and the position
      after the full stars still lies within the row. */
  function HalfCount(fullStars: int, hasHalfStar: bool, outOf: nat): (n: nat)
    ensures n <= 1
    ensures FullCount(fullStars, outOf) + n <= outOf
  {
    if hasHalfStar && 0 <= fullStars < outOf then 1 else 0
  }

  /** The row of stars for a score whose integer part is `fullStars` and
      whose half-star flag is `hasHalfStar`, built position by position from
      1 to `outOf`.  It is a block of full stars, then at most one half star,
      then empty stars up to `outOf`. */
  method StarRating(fullStars: int, hasHalfStar: bool, outOf: int) returns (stars: seq<Star>)
    ensures |stars| == (if outOf < 0 then 0 else outOf)
    ensures forall k :: 0 <= k < |stars| ==> (stars[k] == Full <==> k < fullStars)
    ensures forall k :: 0 <= k < |stars| ==> (stars[k] == Half <==> k == fullStars && hasHalfStar)
    ensures var n := if outOf < 0 then 0 else outOf;
            var f := FullCount(fullStars, n);
            var h := HalfCount(fullStars, hasHalfStar, n);
            stars == Repeat(Full, f) + Repeat(Half, h) + Repeat(Empty, n - f - h)
  {
    var n: nat := if outOf < 0 then 0 else outOf;
    stars := [];
    var i := 1;
    while i <= outOf
      invariant 1 <= i <= n + 1
      invariant |stars| == i - 1
      invariant forall k :: 0 <= k < |stars| ==> (stars[k] == Full <==> k < fullStars)
      invariant forall k :: 0 <= k < |stars| ==> (stars[k] == Half <==> k == fullStars && hasHalfStar)
    {
      if i <= fullStars {
        stars := stars + [Full];
      } else if i == fullStars + 1 && hasHalfStar {
        stars := stars + [Half];
      } else {
        stars := stars + [Empty];
      }
      i := i + 1;
    }
    var f := FullCount(fullStars, n);
    var h := HalfCount(fullStars, hasHalfStar, n);
    var block := Repeat(Full, f) + Repeat(Half, h) + Repeat(Empty, n - f - h);
    assert forall k :: 0 <= k < n ==> stars[k] == block[k];
  }

  /** The component as the page uses it, from the review's score: star `k`
      (counting from 0) is full when the score reaches `k + 1`, half when
      the score lies in `[k + 0.5, k + 1)`, and empty otherwise. */
  method StarRow(score: real, outOf: int) returns (stars: seq<Star>)
    ensures |stars| == (if outOf < 0 then 0 else outOf)
    ensures forall k :: 0 <= k < |stars| ==> (stars[k] == Full <==> (k + 1) as real <= score)
    ensures forall k :: 0 <= k < |stars| ==>
              (stars[k] == Half <==> k as real + 0.5 <= score < (k + 1) as real)
  {
    var fullStars := FullStars(score);
    var hasHalfStar := HasHalfStar(score);
    stars := StarRating(fullStars, hasHalfStar, outOf);
  }
}
