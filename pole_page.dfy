/**
  The pole-review page's comparator and scorer. The page carries its own copies of the demo
  application's `compare` and `compute_risk`; the model states each copy's promise and shows it
  agrees with the application's.
 */
module PoleReview {
  import opened PoleRecords
  import opened PyNum
  import ExactCompare

  /**
    The page's `compare`: one message per field whose trimmed, lower-cased texts differ, in the
    order vegetation, guy guard, pole type, conduit riser, so at most four.
   */
  method Compare(ai: Record<string>, gis: Record<string>) returns (msgs: seq<string>)
    ensures msgs == ExactCompare.Messages(ai, gis, ExactCompare.DifferingFields(ai, gis))
    ensures |msgs| <= 4
    ensures forall f: Field :: ExactCompare.MessageFor(ai, gis, f) in msgs <==> ExactCompare.Differs(ai, gis, f)
  {
    msgs := ExactCompare.Compare(ai, gis);
    ExactCompare.CompareReports(ai, gis);
  }

  /** The page's `compute_risk`: the same score and status as the application's. */
  function ComputeRisk(ai: Record<string>, mismatches: seq<string>): (r: (int, Status))
    ensures 0 <= r.0 <= 100
    ensures r.1 == StatusOf(r.0)
    ensures r == ExactCompare.ComputeRisk(ai, mismatches)
  {
    ExactCompare.ComputeRisk(ai, mismatches)
  }

  /** Every score the page can give is a multiple of five. */
  lemma ScoreMultipleOfFive(ai: Record<string>, mismatches: seq<string>)
    ensures ComputeRisk(ai, mismatches).0 % 5 == 0
  {
    var q := 20 - (if ExactCompare.VegetationPresent(ai) then 3 else 0)
      - (if ExactCompare.GuyGuardMissing(ai) then 7 else 0) - 5 * |mismatches|;
    var score := ComputeRisk(ai, mismatches).0;
    assert score == Clamp100(5 * q);
    if 0 <= q <= 20 {
      assert score == 5 * q;
    }
  }

  /**
    With neither condition present, the status follows the mismatch count alone: OK with none,
    WARNING with one or two, HIGH RISK with three or more.
   */
  lemma StatusByMismatchCount(ai: Record<string>, mismatches: seq<string>)
    requires !ExactCompare.VegetationPresent(ai) && !ExactCompare.GuyGuardMissing(ai)
    ensures ComputeRisk(ai, mismatches).1 == Ok <==> |mismatches| == 0
    ensures ComputeRisk(ai, mismatches).1 == Warning <==> 1 <= |mismatches| <= 2
    ensures ComputeRisk(ai, mismatches).1 == HighRisk <==> |mismatches| >= 3
  {
    assert ComputeRisk(ai, mismatches).0 == Clamp100(100 - 25 * |mismatches|);
  }

  /** Vegetation alone costs 15 and leaves the pole OK; one mismatch more drops it to WARNING. */
  lemma VegetationAloneIsOk(ai: Record<string>)
    requires ExactCompare.VegetationPresent(ai) && !ExactCompare.GuyGuardMissing(ai)
    ensures ComputeRisk(ai, []) == (85, Ok)
    ensures ComputeRisk(ai, ["m"]) == (60, Warning)
  {
  }

  /** With a missing guy guard the page never reports OK. */
  lemma MissingGuyGuardNeverOk(ai: Record<string>, mismatches: seq<string>)
    requires ExactCompare.GuyGuardMissing(ai)
    ensures ComputeRisk(ai, mismatches).0 <= 65
    ensures ComputeRisk(ai, mismatches).1 != Ok
  {
    assert ComputeRisk(ai, mismatches).0 == Clamp100(100 - (if ExactCompare.VegetationPresent(ai) then 15 else 0) - 35 - 25 * |mismatches|);
  }
}
