/**
 * The candidate loop shared by findOptHead and findOptBigramHead, over plain
 * sequences: every flat position is visited once in order; skipped positions
 * are the pruned ones; the modifier itself being a candidate is a failed
 * assertion; candidates in the modifier's subtree and the old head are passed
 * over; every other candidate becomes the new trial state and is scored, and
 * it replaces the best only when it beats the best score by more than Eps.
 */
module Argmax {
  import opened Wrappers
  import opened Heads

  /** A candidate must beat the best score by more than this to be taken. */
  const Eps: real := 0.000001

  /**
   * The loop from flat position k on. test(c, h) is the subtree test for
   * candidate h while the trial state hangs the modifier from c (None: the
   * test's assertion fails); trial(h) is the score of the state with the
   * modifier hung from h. curH is the last head tried. The result is (last
   * head tried, best head, best score), or None on a failed assertion.
   */
  function Climb(cands: seq<HeadIndex>, skip: seq<bool>, self: HeadIndex, oldH: HeadIndex,
                 test: (HeadIndex, HeadIndex) -> Option<bool>, trial: HeadIndex -> real,
                 k: nat, curH: HeadIndex, best: HeadIndex, bestScore: real): (r: Option<(HeadIndex, HeadIndex, real)>)
    requires |skip| == |cands| && k <= |cands|
    decreases |cands| - k
  {
    if k == |cands| then Some((curH, best, bestScore))
    else if skip[k] then Climb(cands, skip, self, oldH, test, trial, k + 1, curH, best, bestScore)
    else
      var h := cands[k];
      if h == self then None
      else
        match test(curH, h)
        case None => None
        case Some(inSubtree) =>
          if inSubtree || h == oldH then Climb(cands, skip, self, oldH, test, trial, k + 1, curH, best, bestScore)
          else
            var sc := trial(h);
            if sc > bestScore + Eps then Climb(cands, skip, self, oldH, test, trial, k + 1, h, h, sc)
            else Climb(cands, skip, self, oldH, test, trial, k + 1, h, best, bestScore)
  }

  /** b was scored at some flat position from k on: unskipped, not the modifier, not the old head, outside the subtree in the trial state it was tested in. */
  ghost predicate Picked(cands: seq<HeadIndex>, skip: seq<bool>, self: HeadIndex, oldH: HeadIndex,
                         test: (HeadIndex, HeadIndex) -> Option<bool>, k: nat, b: HeadIndex)
    requires |skip| == |cands|
  {
    && b != self && b != oldH
    && (exists i :: k <= i < |cands| && !skip[i] && cands[i] == b)
    && (exists c :: test(c, b) == Some(false))
  }

  /** The best score never drops, and rises by more than Eps whenever the best head changes, which is then a scored candidate. */
  lemma {:induction false} ClimbRises(cands: seq<HeadIndex>, skip: seq<bool>, self: HeadIndex, oldH: HeadIndex,
                                      test: (HeadIndex, HeadIndex) -> Option<bool>, trial: HeadIndex -> real,
                                      k: nat, curH: HeadIndex, best: HeadIndex, bestScore: real)
    requires |skip| == |cands| && k <= |cands|
    ensures var r := Climb(cands, skip, self, oldH, test, trial, k, curH, best, bestScore);
      r.Some? ==>
        && r.value.2 >= bestScore
        && (r.value.1 != best ==> r.value.2 > bestScore + Eps && Picked(cands, skip, self, oldH, test, k, r.value.1))
    decreases |cands| - k
  {
    if k < |cands| && !skip[k] && cands[k] != self && test(curH, cands[k]).Some? {
      var h := cands[k];
      ClimbRises(cands, skip, self, oldH, test, trial, k + 1, h, h, trial(h));
      ClimbRises(cands, skip, self, oldH, test, trial, k + 1, h, best, bestScore);
    }
    if k < |cands| {
      ClimbRises(cands, skip, self, oldH, test, trial, k + 1, curH, best, bestScore);
    }
  }

  /** The returned score is the trial score of the returned head, when the running best is. */
  lemma {:induction false} ClimbScores(cands: seq<HeadIndex>, skip: seq<bool>, self: HeadIndex, oldH: HeadIndex,
                                       test: (HeadIndex, HeadIndex) -> Option<bool>, trial: HeadIndex -> real,
                                       k: nat, curH: HeadIndex, best: HeadIndex, bestScore: real)
    requires |skip| == |cands| && k <= |cands|
    requires bestScore == trial(best)
    ensures var r := Climb(cands, skip, self, oldH, test, trial, k, curH, best, bestScore);
      r.Some? ==> r.value.2 == trial(r.value.1) && (r.value.1 == best || r.value.1 in cands[k..])
    decreases |cands| - k
  {
    if k < |cands| && !skip[k] && cands[k] != self && test(curH, cands[k]).Some? {
      var h := cands[k];
      ClimbScores(cands, skip, self, oldH, test, trial, k + 1, h, h, trial(h));
      ClimbScores(cands, skip, self, oldH, test, trial, k + 1, h, best, bestScore);
      assert cands[k + 1..] == cands[k..][1..];
    }
    if k < |cands| {
      ClimbScores(cands, skip, self, oldH, test, trial, k + 1, curH, best, bestScore);
      assert cands[k + 1..] == cands[k..][1..];
    }
  }

  /** The trial state always hangs the modifier from the starting head or from a candidate. */
  lemma {:induction false} ClimbLast(cands: seq<HeadIndex>, skip: seq<bool>, self: HeadIndex, oldH: HeadIndex,
                                     test: (HeadIndex, HeadIndex) -> Option<bool>, trial: HeadIndex -> real,
                                     k: nat, curH: HeadIndex, best: HeadIndex, bestScore: real)
    requires |skip| == |cands| && k <= |cands|
    ensures var r := Climb(cands, skip, self, oldH, test, trial, k, curH, best, bestScore);
      r.Some? ==> r.value.0 == curH || r.value.0 in cands[k..]
    decreases |cands| - k
  {
    if k < |cands| && !skip[k] && cands[k] != self && test(curH, cands[k]).Some? {
      var h := cands[k];
      ClimbLast(cands, skip, self, oldH, test, trial, k + 1, h, h, trial(h));
      ClimbLast(cands, skip, self, oldH, test, trial, k + 1, h, best, bestScore);
      assert cands[k + 1..] == cands[k..][1..];
    }
    if k < |cands| {
      ClimbLast(cands, skip, self, oldH, test, trial, k + 1, curH, best, bestScore);
      assert cands[k + 1..] == cands[k..][1..];
    }
  }

  /** The subtree test does not depend on which of the start head and the candidates the modifier hangs from. */
  ghost predicate Stable(cands: seq<HeadIndex>, test: (HeadIndex, HeadIndex) -> Option<bool>, c0: HeadIndex) {
    forall c, h :: (c == c0 || c in cands) && h in cands ==> test(c, h) == test(c0, h)
  }

  /** Every unskipped position from k on is not the modifier and has a subtree test that finishes. */
  ghost predicate Passes(cands: seq<HeadIndex>, skip: seq<bool>, self: HeadIndex,
                         test: (HeadIndex, HeadIndex) -> Option<bool>, c0: HeadIndex, k: nat)
    requires |skip| == |cands|
  {
    forall i :: k <= i < |cands| && !skip[i] ==> cands[i] != self && test(c0, cands[i]).Some?
  }

  /** With a stable test, the loop finishes exactly when every remaining position passes the assertions. */
  lemma {:induction false} ClimbDefined(cands: seq<HeadIndex>, skip: seq<bool>, self: HeadIndex, oldH: HeadIndex,
                                        test: (HeadIndex, HeadIndex) -> Option<bool>, trial: HeadIndex -> real,
                                        c0: HeadIndex, k: nat, curH: HeadIndex, best: HeadIndex, bestScore: real)
    requires |skip| == |cands| && k <= |cands|
    requires Stable(cands, test, c0) && (curH == c0 || curH in cands)
    ensures Climb(cands, skip, self, oldH, test, trial, k, curH, best, bestScore).Some? <==> Passes(cands, skip, self, test, c0, k)
    decreases |cands| - k
  {
    if k < |cands| {
      assert Passes(cands, skip, self, test, c0, k) <==>
        (!skip[k] ==> cands[k] != self && test(c0, cands[k]).Some?) && Passes(cands, skip, self, test, c0, k + 1);
      if !skip[k] && cands[k] != self {
        var h := cands[k];
        assert test(curH, h) == test(c0, h);
        ClimbDefined(cands, skip, self, oldH, test, trial, c0, k + 1, h, h, trial(h));
        ClimbDefined(cands, skip, self, oldH, test, trial, c0, k + 1, h, best, bestScore);
      }
      ClimbDefined(cands, skip, self, oldH, test, trial, c0, k + 1, curH, best, bestScore);
    }
  }

  /** With a stable test, every candidate scored from k on is within Eps of the returned score. */
  lemma {:induction false} ClimbBound(cands: seq<HeadIndex>, skip: seq<bool>, self: HeadIndex, oldH: HeadIndex,
                                      test: (HeadIndex, HeadIndex) -> Option<bool>, trial: HeadIndex -> real,
                                      c0: HeadIndex, k: nat, curH: HeadIndex, best: HeadIndex, bestScore: real)
    requires |skip| == |cands| && k <= |cands|
    requires Stable(cands, test, c0) && (curH == c0 || curH in cands)
    ensures var r := Climb(cands, skip, self, oldH, test, trial, k, curH, best, bestScore);
      r.Some? ==> forall i :: k <= i < |cands| && !skip[i] && test(c0, cands[i]) == Some(false) && cands[i] != oldH ==>
        trial(cands[i]) <= r.value.2 + Eps
    decreases |cands| - k
  {
    if k < |cands| {
      if !skip[k] && cands[k] != self && test(curH, cands[k]).Some? {
        var h := cands[k];
        assert test(curH, h) == test(c0, h);
        ClimbBound(cands, skip, self, oldH, test, trial, c0, k + 1, h, h, trial(h));
        ClimbBound(cands, skip, self, oldH, test, trial, c0, k + 1, h, best, bestScore);
        ClimbRises(cands, skip, self, oldH, test, trial, k + 1, h, h, trial(h));
        ClimbRises(cands, skip, self, oldH, test, trial, k + 1, h, best, bestScore);
      }
      ClimbBound(cands, skip, self, oldH, test, trial, c0, k + 1, curH, best, bestScore);
    }
  }

  /** findOptPos never tries a POS candidate whose log-probability is below this. */
  const PosProbFloor: real := -15.0

  /**
   * findOptPos's candidate loop from POS candidate i on: the current choice
   * oldPos and candidates below PosProbFloor are passed over; every other
   * candidate becomes the trial state and is scored, and replaces the best
   * only when it beats the best score by more than Eps. The result is (last
   * candidate tried, best candidate, best score).
   */
  function RetagClimb(probs: seq<real>, oldPos: int, trial: int -> real,
                      i: nat, last: int, best: int, bestScore: real): (r: (int, int, real))
    requires i <= |probs|
    decreases |probs| - i
  {
    if i == |probs| then (last, best, bestScore)
    else if i == oldPos || probs[i] < PosProbFloor then RetagClimb(probs, oldPos, trial, i + 1, last, best, bestScore)
    else
      var sc := trial(i);
      if sc > bestScore + Eps then RetagClimb(probs, oldPos, trial, i + 1, i, i, sc)
      else RetagClimb(probs, oldPos, trial, i + 1, i, best, bestScore)
  }

  /** Candidate j is one findOptPos scores: not the current choice, and not below the floor. */
  predicate RetagTried(probs: seq<real>, oldPos: int, j: int) {
    0 <= j < |probs| && j != oldPos && probs[j] >= PosProbFloor
  }

  /**
   * The best score never drops; when the best candidate changes, the score
   * rose by more than Eps and the new best is a tried candidate. The last
   * candidate tried is the starting one or a candidate from i on.
   */
  lemma {:induction false} RetagRises(probs: seq<real>, oldPos: int, trial: int -> real,
                                      i: nat, last: int, best: int, bestScore: real)
    requires i <= |probs|
    ensures var r := RetagClimb(probs, oldPos, trial, i, last, best, bestScore);
      && r.2 >= bestScore
      && (r.1 != best ==> r.2 > bestScore + Eps && i <= r.1 && RetagTried(probs, oldPos, r.1))
      && (r.0 == last || i <= r.0 < |probs|)
    decreases |probs| - i
  {
    if i < |probs| {
      RetagRises(probs, oldPos, trial, i + 1, last, best, bestScore);
      RetagRises(probs, oldPos, trial, i + 1, i, i, trial(i));
      RetagRises(probs, oldPos, trial, i + 1, i, best, bestScore);
    }
  }

  /** The returned score is the trial score of the returned candidate, when the running best is. */
  lemma {:induction false} RetagScores(probs: seq<real>, oldPos: int, trial: int -> real,
                                       i: nat, last: int, best: int, bestScore: real)
    requires i <= |probs|
    requires bestScore == trial(best)
    ensures var r := RetagClimb(probs, oldPos, trial, i, last, best, bestScore);
      r.2 == trial(r.1)
    decreases |probs| - i
  {
    if i < |probs| {
      RetagScores(probs, oldPos, trial, i + 1, last, best, bestScore);
      RetagScores(probs, oldPos, trial, i + 1, i, i, trial(i));
      RetagScores(probs, oldPos, trial, i + 1, i, best, bestScore);
    }
  }

  /** Every candidate tried from i on scores at most Eps above the returned score. */
  lemma {:induction false} RetagBound(probs: seq<real>, oldPos: int, trial: int -> real,
                                      i: nat, last: int, best: int, bestScore: real)
    requires i <= |probs|
    ensures var r := RetagClimb(probs, oldPos, trial, i, last, best, bestScore);
      forall j :: i <= j && RetagTried(probs, oldPos, j) ==> trial(j) <= r.2 + Eps
    decreases |probs| - i
  {
    if i < |probs| {
      RetagBound(probs, oldPos, trial, i + 1, last, best, bestScore);
      RetagBound(probs, oldPos, trial, i + 1, i, i, trial(i));
      RetagBound(probs, oldPos, trial, i + 1, i, best, bestScore);
      RetagRises(probs, oldPos, trial, i + 1, i, i, trial(i));
      RetagRises(probs, oldPos, trial, i + 1, i, best, bestScore);
    }
  }
}
