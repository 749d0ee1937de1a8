/** The appearance matcher's selection rule: among per-candidate
    histogram-intersection scores, the running best starts at 0.0 and only a
    strictly greater score replaces it. */
module Matching {

  /** A normalised colour histogram (OpenCV `MatND`), read as its bins. How it
      is computed and how two of them are compared is left to parameters. */
  type Signature = seq<real>

  /** p is what the search returns: the first index holding the maximum score
      when some score is above 0, and index 0 when none is. */
  predicate IsFirstBest(score: seq<real>, p: int) {
    0 <= p < |score| &&
    if exists k :: 0 <= k < |score| && score[k] > 0.0 then
      score[p] > 0.0 &&
      (forall k :: 0 <= k < |score| ==> score[k] <= score[p]) &&
      (forall k :: 0 <= k < p ==> score[k] < score[p])
    else p == 0
  }

  /** The loop over the candidates in the matching branch. */
  method SelectBest(score: seq<real>) returns (position: int)
    requires |score| > 0
    ensures IsFirstBest(score, position)
  {
    position := 0;
    var previousBest := 0.0;
    var i := 0;
    while i < |score|
      invariant 0 <= i <= |score|
      invariant 0 <= position < |score|
      invariant forall k :: 0 <= k < i ==> score[k] <= previousBest
      invariant (previousBest == 0.0 && position == 0) ||
        (previousBest > 0.0 && position < i && score[position] == previousBest &&
         forall k :: 0 <= k < position ==> score[k] < previousBest)
    {
      if score[i] > previousBest {
        previousBest := score[i];
        position := i;
      }
      i := i + 1;
    }
  }

  /** The selection rule leaves no choice: at most one index satisfies it. */
  lemma FirstBestUnique(score: seq<real>, p: int, q: int)
    requires IsFirstBest(score, p) && IsFirstBest(score, q)
    ensures p == q
  {
  }

  /** A later score equal to the best never replaces it. */
  lemma {:induction false} LaterTieLoses(score: seq<real>, p: int, q: int)
    requires IsFirstBest(score, p) && 0 <= p < q < |score| && score[q] == score[p]
    ensures !IsFirstBest(score, q)
  {
    if score[p] > 0.0 {
      assert !(score[p] < score[q]);
    }
  }

  /** The scores [0.2, 0.9, 0.9] select index 1, the first occurrence of the
      maximum. */
  lemma TieKeepsFirst()
    ensures IsFirstBest([0.2, 0.9, 0.9], 1)
    ensures !IsFirstBest([0.2, 0.9, 0.9], 2)
  {
    var s := [0.2, 0.9, 0.9];
    assert s[1] > 0.0;
  }
}
