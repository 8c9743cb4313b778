/**
 * The two first-best scans of the cracker, stated over a sequence of scores
 * independently of how the scores are computed. Both keep a running best and
 * replace it only by a strictly better score, so ties keep the earlier position.
 */
module Selection {

  /** The key-length scan over positions `lo .. hi - 1`: it starts from `(0, 0.0)` and moves to a
      position only when its score is strictly greater. The kept position is 0 when no score
      exceeds 0, otherwise a position whose positive score is strictly above every earlier score
      and at least every later one. */
  predicate IsRunningMax(scores: seq<real>, lo: nat, hi: nat, r: nat)
    requires 1 <= lo <= hi <= |scores|
    ensures IsRunningMax(scores, lo, hi, r) ==> r == 0 || lo <= r < hi
    ensures IsRunningMax(scores, lo, hi, r) && r == 0 ==> forall i :: lo <= i < hi ==> scores[i] <= 0.0
    ensures IsRunningMax(scores, lo, hi, r) && r != 0 ==>
              r < |scores| && 0.0 < scores[r] && forall i :: lo <= i < hi ==> scores[i] <= scores[r]
  {
    (r == 0 && forall i :: lo <= i < hi ==> scores[i] <= 0.0)
    || (lo <= r < hi && scores[r] > 0.0
        && (forall i :: lo <= i < r ==> scores[i] < scores[r])
        && (forall i :: r < i < hi ==> scores[i] <= scores[r]))
  }

  /** The score the key-length scan holds after keeping position `r`. */
  function RunningMaxScore(scores: seq<real>, r: nat): (score: real)
    requires r < |scores|
  {
    if r == 0 then 0.0 else scores[r]
  }

  /** One step of the key-length scan: the kept position moves to `hi` exactly when the score
      there is strictly greater than the score held. */
  lemma RunningMaxStep(scores: seq<real>, lo: nat, hi: nat, r: nat)
    requires 1 <= lo <= hi < |scores| && r < |scores| && IsRunningMax(scores, lo, hi, r)
    ensures scores[hi] > RunningMaxScore(scores, r) ==> IsRunningMax(scores, lo, hi + 1, hi)
    ensures scores[hi] <= RunningMaxScore(scores, r) ==> IsRunningMax(scores, lo, hi + 1, r)
  {
    if scores[hi] > RunningMaxScore(scores, r) && r != 0 {
      forall i | lo <= i < hi ensures scores[i] < scores[hi] {
        assert scores[i] <= scores[r];
      }
    }
  }

  /** The kept position is a maximum: no score in the range is higher than the score held. */
  lemma RunningMaxIsMaximum(scores: seq<real>, lo: nat, hi: nat, r: nat, i: nat)
    requires 1 <= lo <= hi <= |scores| && IsRunningMax(scores, lo, hi, r) && lo <= i < hi
    ensures r < |scores| && scores[i] <= RunningMaxScore(scores, r)
    ensures i < r ==> scores[i] < scores[r]
  {
  }

  /** At most one position satisfies the key-length scan. */
  lemma RunningMaxUnique(scores: seq<real>, lo: nat, hi: nat, r1: nat, r2: nat)
    requires 1 <= lo <= hi <= |scores|
    requires IsRunningMax(scores, lo, hi, r1) && IsRunningMax(scores, lo, hi, r2)
    ensures r1 == r2
  {
    if r1 != 0 && r2 != 0 {
      RunningMaxIsMaximum(scores, lo, hi, r1, r2);
      RunningMaxIsMaximum(scores, lo, hi, r2, r1);
    } else if r1 != 0 {
      RunningMaxIsMaximum(scores, lo, hi, r2, r1);
    } else if r2 != 0 {
      RunningMaxIsMaximum(scores, lo, hi, r1, r2);
    }
  }

  /** The shift scan over positions `lo .. hi - 1`: it starts from position `lo` and moves to a
      position only when its score is strictly lower. The kept position scores strictly below every
      earlier position and at most every later one. */
  predicate IsRunningMin(scores: seq<real>, lo: nat, hi: nat, r: nat)
    requires lo <= hi <= |scores|
    ensures IsRunningMin(scores, lo, hi, r) ==>
              lo <= r < hi && forall i :: lo <= i < hi ==> scores[r] <= scores[i]
  {
    lo <= r < hi
    && (forall i :: lo <= i < r ==> scores[r] < scores[i])
    && (forall i :: r < i < hi ==> scores[r] <= scores[i])
  }

  /** One step of the shift scan: the kept position moves to `hi` exactly when the score there is
      strictly lower than the score held. */
  lemma RunningMinStep(scores: seq<real>, lo: nat, hi: nat, r: nat)
    requires lo <= hi < |scores| && IsRunningMin(scores, lo, hi, r)
    ensures scores[hi] < scores[r] ==> IsRunningMin(scores, lo, hi + 1, hi)
    ensures scores[hi] >= scores[r] ==> IsRunningMin(scores, lo, hi + 1, r)
  {
    if scores[hi] < scores[r] {
      forall i | lo <= i < hi ensures scores[hi] < scores[i] {
        assert scores[r] <= scores[i];
      }
    }
  }

  /** The kept position is a minimum: no score in the range is lower, and earlier ones are higher. */
  lemma RunningMinIsMinimum(scores: seq<real>, lo: nat, hi: nat, r: nat, i: nat)
    requires lo <= hi <= |scores| && IsRunningMin(scores, lo, hi, r) && lo <= i < hi
    ensures scores[r] <= scores[i]
    ensures i < r ==> scores[r] < scores[i]
  {
  }

  /** At most one position satisfies the shift scan. */
  lemma RunningMinUnique(scores: seq<real>, lo: nat, hi: nat, r1: nat, r2: nat)
    requires lo <= hi <= |scores|
    requires IsRunningMin(scores, lo, hi, r1) && IsRunningMin(scores, lo, hi, r2)
    ensures r1 == r2
  {
    RunningMinIsMinimum(scores, lo, hi, r1, r2);
    RunningMinIsMinimum(scores, lo, hi, r2, r1);
  }
}
