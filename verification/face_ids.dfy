/**
 * The three-digit sequence numbers both scripts write, `str(n).zfill(3)`:
 * experiment 1 uses 1..100, experiment 2 uses 101..200, and the age export
 * numbers the lines of the order file from 1.
 */
module FaceIds {
  import opened Strings

  /** `str(n).zfill(3)`: digits only, three of them below 1000, and reading them back gives `n`. */
  function FaceId(n: nat): (r: string)
    ensures IsDigits(r)
    ensures DecimalValue(r) == n
    ensures n < 1000 <==> |r| == 3
  {
    var d := NatToDecimal(n);
    DecimalRoundTrip(n);
    DecimalLength(n);
    if |d| < 3 then
      LeadingZerosValue(3 - |d|, d);
      ZFill(d, 3)
    else
      ZFill(d, 3)
  }

  /** Different numbers never share an identifier. */
  lemma FaceIdInjective(m: nat, n: nat)
    ensures FaceId(m) == FaceId(n) <==> m == n
  {
  }

  /** The concrete names the experiment uses at its boundaries. */
  lemma FaceIdExamples()
    ensures FaceId(1) == "001" && FaceId(100) == "100"
    ensures FaceId(101) == "101" && FaceId(200) == "200"
  {
    assert NatToDecimal(1) == "1";
    assert NatToDecimal(100) == "100" by {
      assert NatToDecimal(10) == "10";
    }
    assert NatToDecimal(101) == "101" by {
      assert NatToDecimal(10) == "10";
    }
    assert NatToDecimal(200) == "200" by {
      assert NatToDecimal(20) == "20";
    }
  }

  /**
   * Experiment 1's position `i` gets `i + 1` and experiment 2's gets
   * `i + 101`; with at most 100 faces each, all identifiers have three digits
   * and the two ranges never meet.
   */
  lemma ExperimentIdRanges(i: nat, j: nat)
    requires i < 100 && j < 100
    ensures |FaceId(i + 1)| == 3 && |FaceId(j + 101)| == 3
    ensures 1 <= DecimalValue(FaceId(i + 1)) <= 100
    ensures 101 <= DecimalValue(FaceId(j + 101)) <= 200
    ensures FaceId(i + 1) != FaceId(j + 101)
  {
  }
}
