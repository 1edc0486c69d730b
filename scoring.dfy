/**
 * The garbage categories, the configured garbage kinds with their point
 * values, and the one scoring rule shared by manual drops, automatic
 * landings and misses.
 */
module Scoring {

  /** The disposal categories a garbage item or a bin can have. */
  datatype Category = Combustible | Resource | NonCombustible | Bulky

  /** One configured kind of garbage: its name, its category and the points a correct sort earns. */
  datatype GarbageKind = GarbageKind(name: string, category: Category, points: int)

  /** Points lost for a wrong sort or for an item that lands outside every bin. */
  const Penalty: int := 5

  /** The configured garbage kinds, in the order the random pick indexes them. */
  function GarbageTypes(): (r: seq<GarbageKind>)
    ensures |r| == 8
    ensures forall i :: 0 <= i < |r| ==> r[i].points > 0
  {
    [ GarbageKind("paper", Combustible, 10),
      GarbageKind("food", Combustible, 10),
      GarbageKind("pet-bottle", Resource, 15),
      GarbageKind("aluminum-can", Resource, 15),
      GarbageKind("plastic-bag", Resource, 12),
      GarbageKind("battery", NonCombustible, 20),
      GarbageKind("glass", NonCombustible, 18),
      GarbageKind("furniture", Bulky, 25) ]
  }

  /** A kind that appears in the configuration table. */
  predicate Configured(k: GarbageKind) {
    k in GarbageTypes()
  }

  lemma ConfiguredPointsPositive(k: GarbageKind)
    requires Configured(k)
    ensures k.points > 0
  {
    var i :| 0 <= i < |GarbageTypes()| && GarbageTypes()[i] == k;
  }

  /** How one item was resolved. */
  datatype Resolution = Correct(points: int) | Wrong | Missed

  /** The classifier: an item sorted into a bin of its own category earns its points, any other bin is wrong. */
  function Classify(item: Category, points: int, bin: Category): (r: Resolution)
    ensures r == Correct(points) <==> item == bin
    ensures item != bin ==> r == Wrong
  {
    if item == bin then Correct(points) else Wrong
  }

  /** The score after one resolution: a correct sort adds its points, anything else costs the penalty with a floor at 0. */
  function Apply(score: int, r: Resolution): (s: int)
    ensures r.Correct? ==> s == score + r.points
    ensures !r.Correct? ==> s >= 0
    ensures !r.Correct? && score >= Penalty ==> s == score - Penalty
    ensures !r.Correct? && score < Penalty ==> s == 0
  {
    match r
    case Correct(p) => score + p
    case _ => if score - Penalty > 0 then score - Penalty else 0
  }

  /** A resolution the game can produce: a correct sort of a configured kind, a wrong sort or a miss. */
  predicate Legal(r: Resolution) {
    r.Correct? ==> r.points > 0
  }

  /** The score after a run of resolutions, each applied in turn. */
  function ScoreAfter(score: int, rs: seq<Resolution>): int
    decreases |rs|
  {
    if rs == [] then score else ScoreAfter(Apply(score, rs[0]), rs[1..])
  }

  /** The signed change each resolution stands for, without the floor. */
  function Delta(r: Resolution): int {
    if r.Correct? then r.points else -Penalty
  }

  function SumDeltas(rs: seq<Resolution>): int
    decreases |rs|
  {
    if rs == [] then 0 else Delta(rs[0]) + SumDeltas(rs[1..])
  }

  /** The score never goes negative, whatever legal resolutions follow. */
  lemma {:induction false} ScoreAfterNonNegative(score: int, rs: seq<Resolution>)
    requires score >= 0
    requires forall i :: 0 <= i < |rs| ==> Legal(rs[i])
    ensures ScoreAfter(score, rs) >= 0
    decreases |rs|
  {
    if rs != [] {
      ScoreAfterNonNegative(Apply(score, rs[0]), rs[1..]);
    }
  }

  /**
   * Clamping at every step only ever helps: the score is at least the start
   * plus the unclamped sum of deltas, and equals it while no clamp ever bites.
   */
  lemma {:induction false} ScoreAfterAtLeastSum(score: int, rs: seq<Resolution>)
    ensures ScoreAfter(score, rs) >= score + SumDeltas(rs)
    decreases |rs|
  {
    if rs != [] {
      ScoreAfterAtLeastSum(Apply(score, rs[0]), rs[1..]);
    }
  }

  /** Without a wrong sort or a miss the score is exactly the start plus the points earned. */
  lemma {:induction false} ScoreAfterAllCorrect(score: int, rs: seq<Resolution>)
    requires forall i :: 0 <= i < |rs| ==> rs[i].Correct?
    ensures ScoreAfter(score, rs) == score + SumDeltas(rs)
    decreases |rs|
  {
    if rs != [] {
      ScoreAfterAllCorrect(Apply(score, rs[0]), rs[1..]);
    }
  }

  /** Per-step clamping is not the same as clamping the running sum: a miss at 0 followed by a 10-point sort ends at 10, not 5. */
  lemma ScoreIsNotClampedSum()
    ensures ScoreAfter(0, [Missed, Correct(10)]) == 10
    ensures SumDeltas([Missed, Correct(10)]) == 5
  {
  }
}
