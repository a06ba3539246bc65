/** A worked series for the three detectors: five quarters at 10 and a sixth at 100. */
module Scenarios {

  import opened Stats
  import opened Detectors
  import opened Engine

  /** The series [10, 10, 10, 10, 10, 100], given element by element. */
  ghost predicate IsJump(s: seq<real>)
  {
    |s| == 6 && s[0] == 10.0 && s[1] == 10.0 && s[2] == 10.0 && s[3] == 10.0 && s[4] == 10.0 && s[5] == 100.0
  }

  const LAST_ONLY: seq<bool> := [false, false, false, false, false, true]

  /** Mean 25 and sample variance 1350: only the jump lies more than 1.5 standard deviations out. */
  lemma JumpZScore(s: seq<real>)
    requires IsJump(s)
    ensures Mean(s) == 25.0 && Variance(s) == 1350.0
    ensures Detect(ZScoreDetector, s) == LAST_ONLY
  {
    JumpSum(s);
    JumpSquaredDeviations(s);
    var flags := ZScoreOutliers(s, Z_THRESHOLD);
    assert forall i :: 0 <= i < 6 ==> flags[i] == ZScoreExceeds(s, Z_THRESHOLD, s[i]);
  }

  lemma JumpSum(s: seq<real>)
    requires IsJump(s)
    ensures Sum(s) == 150.0
  {
    assert s[5..][1..] == [];
    assert Sum(s[5..]) == 100.0;
    assert Sum(s[4..]) == 110.0 by { assert s[4..][1..] == s[5..]; }
    assert Sum(s[3..]) == 120.0 by { assert s[3..][1..] == s[4..]; }
    assert Sum(s[2..]) == 130.0 by { assert s[2..][1..] == s[3..]; }
    assert Sum(s[1..]) == 140.0 by { assert s[1..][1..] == s[2..]; }
  }

  lemma JumpSquaredDeviations(s: seq<real>)
    requires IsJump(s)
    ensures SquaredDeviations(s, 25.0) == 6750.0
  {
    assert s[5..][1..] == [];
    assert SquaredDeviations(s[5..], 25.0) == 5625.0;
    assert SquaredDeviations(s[4..], 25.0) == 5850.0 by { assert s[4..][1..] == s[5..]; }
    assert SquaredDeviations(s[3..], 25.0) == 6075.0 by { assert s[3..][1..] == s[4..]; }
    assert SquaredDeviations(s[2..], 25.0) == 6300.0 by { assert s[2..][1..] == s[3..]; }
    assert SquaredDeviations(s[1..], 25.0) == 6525.0 by { assert s[1..][1..] == s[2..]; }
  }

  /** Both quartiles are 10, so the fences close on 10 and only the jump falls outside. */
  lemma JumpIqr(s: seq<real>)
    requires IsJump(s)
    ensures LowerQuartile(s) == 10.0 && UpperQuartile(s) == 10.0
    ensures Detect(IqrDetector, s) == LAST_ONLY
  {
    JumpSorted(s);
    JumpQuartiles(Sort(s));
    JumpOutsideFences(s);
  }

  lemma JumpSorted(s: seq<real>)
    requires IsJump(s)
    ensures Sort(s) == s
  {
    assert Sorted(s);
    SortedPermutationsEqual(Sort(s), s);
  }

  lemma JumpOutsideFences(s: seq<real>)
    requires IsJump(s) && LowerQuartile(s) == 10.0 && UpperQuartile(s) == 10.0
    ensures IqrOutliers(s) == LAST_ONLY
  {
    assert LowerFence(s) == 10.0 && UpperFence(s) == 10.0;
    var flags := IqrOutliers(s);
    assert forall i :: 0 <= i < 6 ==> flags[i] == (s[i] < 10.0 || s[i] > 10.0);
  }

  lemma JumpQuartiles(r: seq<real>)
    requires IsJump(r)
    ensures Quantile(r, 0.25) == 10.0 && Quantile(r, 0.75) == 10.0
  {
    assert Rank(6, 0.25) == 1 && Rank(6, 0.75) == 3;
    QuantileBetweenNeighbours(r, 0.25);
    QuantileBetweenNeighbours(r, 0.75);
  }

  /** The first four changes are 0% and the last is 900%. */
  lemma JumpPercentChange(s: seq<real>)
    requires IsJump(s)
    ensures Detect(PercentChangeDetector, s) == LAST_ONLY
  {
  }
}
