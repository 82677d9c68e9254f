/**
  Vocabulary shared by the three comparators: the four inspected fields in the order the
  comparators visit them, a record holding one value per field, and the status ladder that all
  three risk scorers apply to their score.
 */
module PoleRecords {

  /** The inspected attributes of a pole, in comparison order. */
  datatype Field = Vegetation | GuyGuard | PoleType | ConduitRiser {
    function Rank(): nat {
      match this
      case Vegetation => 0
      case GuyGuard => 1
      case PoleType => 2
      case ConduitRiser => 3
    }
  }

  /** The order in which every comparator examines the fields. */
  const FieldOrder: seq<Field> := [Vegetation, GuyGuard, PoleType, ConduitRiser]

  /** Each field's position in `FieldOrder` is its rank. */
  lemma FieldOrderRanks()
    ensures |FieldOrder| == 4
    ensures forall k :: 0 <= k < 4 ==> FieldOrder[k].Rank() == k
    ensures forall f: Field :: f in FieldOrder
  {
    forall f: Field ensures f in FieldOrder {
      assert FieldOrder[f.Rank()] == f;
    }
  }

  /** Fields listed in strictly increasing comparison order. */
  predicate StrictlyOrdered(fs: seq<Field>) {
    forall i, j :: 0 <= i < j < |fs| ==> fs[i].Rank() < fs[j].Rank()
  }

  /** Examining field `f`: it is kept when it is flagged. */
  function Keep(d: Record<bool>, fs: seq<Field>, f: Field): seq<Field> {
    if d.Get(f) then fs + [f] else fs
  }

  /** The flagged fields, examined in the order vegetation, guy guard, pole type, conduit riser. */
  function Flagged(d: Record<bool>): seq<Field> {
    Keep(d, Keep(d, Keep(d, Keep(d, [], Vegetation), GuyGuard), PoleType), ConduitRiser)
  }

  /** The flagged fields come in comparison order, at most four, and are exactly those flagged. */
  lemma {:induction false} FlaggedContract(d: Record<bool>)
    ensures var fs := Flagged(d);
      StrictlyOrdered(fs) && |fs| <= 4 && forall f: Field :: f in fs <==> d.Get(f)
  {
    var afterVeg := Keep(d, [], Vegetation);
    var afterGg := Keep(d, afterVeg, GuyGuard);
    var afterType := Keep(d, afterGg, PoleType);
    var fs := Keep(d, afterType, ConduitRiser);
    assert forall i :: 0 <= i < |afterType| ==> afterType[i].Rank() <= 2;
    assert StrictlyOrdered(fs);
    OrderedAtMostFour(fs);
    forall f: Field
      ensures f in fs <==> d.Get(f)
    {
      assert f.Rank() < 4;
    }
  }

  /** A list of fields in strictly increasing order names each field at most once, so it has at most four entries. */
  lemma {:induction false} OrderedAtMostFour(fs: seq<Field>)
    requires StrictlyOrdered(fs)
    ensures |fs| <= 4
  {
    if |fs| > 4 {
      RankAtLeastIndex(fs, 4);
    }
  }

  lemma {:induction false} RankAtLeastIndex(fs: seq<Field>, k: nat)
    requires StrictlyOrdered(fs)
    requires k < |fs|
    ensures fs[k].Rank() >= k
  {
    if k > 0 {
      RankAtLeastIndex(fs, k - 1);
    }
  }

  /** One value per inspected field, as carried by a GIS row or an observation. */
  datatype Record<V> = Record(vegetation: V, guyGuard: V, poleType: V, conduitRiser: V) {
    function Get(f: Field): V {
      match f
      case Vegetation => vegetation
      case GuyGuard => guyGuard
      case PoleType => poleType
      case ConduitRiser => conduitRiser
    }
  }

  /** The coarse status label: "OK", "WARNING" or "HIGH RISK". */
  datatype Status = Ok | Warning | HighRisk {
    function Label(): string {
      match this
      case Ok => "OK"
      case Warning => "WARNING"
      case HighRisk => "HIGH RISK"
    }
  }

  /** The status ladder: OK from 80 up, WARNING from 50 up, HIGH RISK below. */
  function StatusOf(score: int): (s: Status)
    ensures s == Ok <==> score >= 80
    ensures s == Warning <==> 50 <= score < 80
    ensures s == HighRisk <==> score < 50
  {
    if score >= 80 then Ok else if score >= 50 then Warning else HighRisk
  }

  /** A higher score never gets a worse status. */
  lemma StatusMonotone(lo: int, hi: int)
    requires lo <= hi
    ensures StatusOf(hi).Label() == "OK" || StatusOf(lo).Label() != "OK"
    ensures StatusOf(lo).Label() == "HIGH RISK" || StatusOf(hi).Label() != "HIGH RISK"
  {
  }
}
