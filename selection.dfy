/**
 * Best-score selection of the POST /report handler.
 *
 * The handler keeps a running pair (bestScore, bestScoreIndex), starting at
 * (0, 0), and replaces it with (score, attempt) only when an attempt's
 * performance score is STRICTLY greater than the running best. This module
 * states that rule on the sequence of scores, in attempt order, twice:
 * as the left fold the handler performs (`Fold`) and as a declarative
 * characterisation of its result (`Selected`), and proves the two agree.
 */
module Selection {

  /** The running best: a score and the attempt index it came from. */
  datatype Best = Best(score: real, index: nat)

  /** The pair the handler starts from, before any attempt has run. */
  const Initial: Best := Best(0.0, 0)

  /** One iteration of the selection: a strictly higher score wins, a tie keeps the earlier attempt. */
  function Step(b: Best, score: real, attempt: nat): Best
  {
    if score > b.score then Best(score, attempt) else b
  }

  /**
   * The pair after the handler has seen `scores` in order, attempt k
   * having score `scores[k]`. The running best never drops below the
   * initial 0, and its index is 0 or the index of an attempt that ran.
   */
  function Fold(scores: seq<real>): (b: Best)
    ensures 0.0 <= b.score
    ensures b.index == 0 || b.index < |scores|
  {
    if scores == [] then Initial
    else Step(Fold(scores[..|scores| - 1]), scores[|scores| - 1], |scores| - 1)
  }

  /**
   * What the pair means: `b.score` is the largest of 0 and all the scores;
   * when nothing beat 0 the index is still the initial 0; otherwise the
   * index is the FIRST attempt whose score reaches that maximum.
   */
  ghost predicate Selected(scores: seq<real>, b: Best)
  {
    && 0.0 <= b.score
    && (forall k :: 0 <= k < |scores| ==> scores[k] <= b.score)
    && (b.score == 0.0 ==> b.index == 0)
    && (b.score > 0.0 ==>
          && b.index < |scores|
          && scores[b.index] == b.score
          && forall k :: 0 <= k < b.index ==> scores[k] < b.score)
  }

  /** One step of the selection keeps the pair describing the longer prefix. */
  lemma StepSelected(scores: seq<real>, b: Best, score: real)
    requires Selected(scores, b)
    ensures Selected(scores + [score], Step(b, score, |scores|))
  {
  }

  /** The fold the handler performs ends in a pair that meets the characterisation. */
  lemma {:induction false} FoldSelected(scores: seq<real>)
    ensures Selected(scores, Fold(scores))
  {
    if scores != [] {
      var n := |scores| - 1;
      FoldSelected(scores[..n]);
      StepSelected(scores[..n], Fold(scores[..n]), scores[n]);
      assert scores[..n] + [scores[n]] == scores;
    }
  }

  /** At most one pair meets the characterisation for a given sequence of scores. */
  lemma SelectedUnique(scores: seq<real>, b1: Best, b2: Best)
    requires Selected(scores, b1) && Selected(scores, b2)
    ensures b1 == b2
  {
  }

  /** The characterisation holds of exactly one pair, the fold's result. */
  lemma FoldCharacterised(scores: seq<real>, b: Best)
    ensures Selected(scores, b) <==> b == Fold(scores)
  {
    FoldSelected(scores);
    if Selected(scores, b) {
      SelectedUnique(scores, b, Fold(scores));
    }
  }

  /**
   * With no negative score (Lighthouse scores lie in [0, 1]) and at least
   * one attempt, the index is the lowest index achieving the maximum
   * score, and the best score is that maximum.
   */
  lemma {:induction false} FoldFirstMaximum(scores: seq<real>)
    requires |scores| > 0
    requires forall k :: 0 <= k < |scores| ==> 0.0 <= scores[k]
    ensures Fold(scores).index < |scores|
    ensures scores[Fold(scores).index] == Fold(scores).score
    ensures forall k :: 0 <= k < |scores| ==> scores[k] <= Fold(scores).score
    ensures forall k :: 0 <= k < Fold(scores).index ==> scores[k] < Fold(scores).score
  {
    FoldSelected(scores);
    var b := Fold(scores);
    if b.score == 0.0 {
      assert scores[0] <= 0.0;
    }
  }

  /** Nothing scores strictly above 0 exactly when the pair is still the initial (0, 0). */
  lemma {:induction false} FoldNoPositiveScore(scores: seq<real>)
    ensures (forall k :: 0 <= k < |scores| ==> scores[k] <= 0.0) <==> Fold(scores) == Initial
  {
    FoldSelected(scores);
  }

  /**
   * The running best score never decreases as attempts complete, and the
   * running index changes only when a later attempt scores strictly higher.
   */
  lemma {:induction false} FoldMonotone(scores: seq<real>, j: nat)
    requires j <= |scores|
    ensures Fold(scores[..j]).score <= Fold(scores).score
    ensures Fold(scores[..j]).score == Fold(scores).score ==> Fold(scores[..j]) == Fold(scores)
    decreases |scores|
  {
    if j < |scores| {
      var n := |scores| - 1;
      assert scores[..n][..j] == scores[..j];
      FoldMonotone(scores[..n], j);
      assert scores[..|scores|] == scores;
    } else {
      assert scores[..j] == scores;
    }
  }
}
