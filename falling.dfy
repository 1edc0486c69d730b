/**
 * The falling items and the pure parts of their life cycle: where a new
 * item appears and how fast it falls, where a released item resumes, and
 * what one animation frame does to the list of falling items and to the
 * score.
 */
module Falling {
  import opened Options
  import opened Scoring
  import opened Bins

  /** Width of a garbage item in pixels; its horizontal centre is half of it. */
  const ItemWidth: real := 90.0
  const HalfItemWidth: real := 45.0

  /** A new item falls at MinSpeed plus up to (but not including) SpeedSpread pixels per frame. */
  const MinSpeed: real := 0.3
  const SpeedSpread: real := 0.3

  /**
   * A garbage element on screen. Object identity stands for the identity of
   * the on-screen node; its kind carries the category and points the node
   * is tagged with.
   */
  class Garbage {
    const kind: GarbageKind

    constructor (kind: GarbageKind)
      ensures this.kind == kind
    {
      this.kind := kind;
    }
  }

  /** An entry of the falling list: the element, its position in the falling zone and its speed. */
  datatype FallingItem = FallingItem(element: Garbage, x: real, y: real, speed: real)

  /**
   * The geometry read from the page at the moment of a call: the falling
   * zone's size and client position, the game area's left edge and the
   * bins' bounding boxes in client coordinates.
   */
  datatype Layout = Layout(zoneWidth: real, zoneHeight: real, zoneLeft: real, zoneTop: real,
                           areaLeft: real, bins: seq<Bin>)

  function MaxR(a: real, b: real): real { if a >= b then a else b }
  function MinR(a: real, b: real): real { if a <= b then a else b }
  function Dist(a: real, b: real): real { if a >= b then a - b else b - a }

  /** The kind picked by a random number in [0, 1): the floor of its product with the table size. */
  function KindIndex(roll: real): (k: nat)
    requires 0.0 <= roll < 1.0
    ensures k < |GarbageTypes()|
    ensures k as real <= roll * 8.0 < k as real + 1.0
  {
    (roll * (|GarbageTypes()| as real)).Floor
  }

  /** The speed given by a random number in [0, 1). */
  function FallSpeed(roll: real): (s: real)
    requires 0.0 <= roll < 1.0
    ensures MinSpeed <= s < MinSpeed + SpeedSpread
  {
    MinSpeed + roll * SpeedSpread
  }

  /** Where a new item appears horizontally: centred in the zone, with equal margins left and right. */
  function SpawnX(zoneWidth: real): (x: real)
    ensures x + ItemWidth + x == zoneWidth
  {
    (zoneWidth - ItemWidth) / 2.0
  }

  /**
   * The horizontal position a released item resumes at: the point of
   * [0, zoneWidth - ItemWidth] nearest to the release position, or 0 when
   * the zone is narrower than an item.
   */
  function ReturnX(relX: real, zoneWidth: real): (x: real)
    ensures 0.0 <= x
    ensures zoneWidth >= ItemWidth ==> x <= zoneWidth - ItemWidth
    ensures zoneWidth >= ItemWidth ==>
      forall p :: 0.0 <= p <= zoneWidth - ItemWidth ==> Dist(x, relX) <= Dist(p, relX)
    ensures zoneWidth < ItemWidth ==> x == 0.0
  {
    MaxR(0.0, MinR(relX, zoneWidth - ItemWidth))
  }

  /** The vertical position a released item resumes at: the least value that is neither negative nor above the release position. */
  function ReturnY(relY: real): (y: real)
    ensures y >= 0.0 && y >= relY
    ensures y == 0.0 || y == relY
  {
    MaxR(0.0, relY)
  }

  /** The invariant every falling item keeps: a configured kind, a speed in the spawn range, not above the zone. */
  predicate WellFormed(it: FallingItem) {
    Configured(it.element.kind) && MinSpeed <= it.speed < MinSpeed + SpeedSpread && it.y >= 0.0
  }

  predicate AllWellFormed(items: seq<FallingItem>) {
    forall i :: 0 <= i < |items| ==> WellFormed(items[i])
  }

  /** No element appears twice in the list. */
  predicate Distinct(items: seq<FallingItem>) {
    forall i, j :: 0 <= i < j < |items| ==> items[i].element != items[j].element
  }

  function Elements(items: seq<FallingItem>): set<Garbage> {
    set i | 0 <= i < |items| :: items[i].element
  }

  /** The item one frame later: its y grows by its speed. */
  function Advance(it: FallingItem): FallingItem {
    it.(y := it.y + it.speed)
  }

  /** How an item that has passed the bottom of the zone is resolved: against the bin below its centre, or a miss. */
  function Landing(it: FallingItem, lay: Layout): Resolution
  {
    match BinAtPosition(lay.bins, lay.areaLeft, it.x + HalfItemWidth)
    case None => Missed
    case Some(b) => Classify(it.element.kind.category, it.element.kind.points, lay.bins[b].accepts)
  }

  /**
   * What a landing means: a miss exactly when no bin's extent holds the
   * item's centre, and a correct sort, worth the item's own points, only
   * over a bin that accepts its category.
   */
  lemma LandingBinBelow(it: FallingItem, lay: Layout)
    ensures Landing(it, lay).Missed? <==>
      forall j :: 0 <= j < |lay.bins| ==> !CoversX(lay.bins[j], lay.areaLeft, it.x + HalfItemWidth)
    ensures Landing(it, lay).Correct? ==>
      (Landing(it, lay).points == it.element.kind.points &&
       exists j :: 0 <= j < |lay.bins| && CoversX(lay.bins[j], lay.areaLeft, it.x + HalfItemWidth) &&
         lay.bins[j].accepts == it.element.kind.category)
    ensures BinAtPosition(lay.bins, lay.areaLeft, it.x + HalfItemWidth).Some? ==>
      var j := BinAtPosition(lay.bins, lay.areaLeft, it.x + HalfItemWidth).value;
      (Landing(it, lay) == Correct(it.element.kind.points) <==> lay.bins[j].accepts == it.element.kind.category) &&
      (Landing(it, lay).Wrong? <==> lay.bins[j].accepts != it.element.kind.category)
  {
  }

  datatype FrameResult = FrameResult(items: seq<FallingItem>, score: int)

  /**
   * One animation frame as the code runs it. The list is walked by index;
   * each visited item is advanced, and one that is below the zone is
   * resolved and spliced out. Because the index moves on after a splice,
   * the item that slid into the removed one's place is not visited.
   */
  function Frame(rest: seq<FallingItem>, score: int, lay: Layout): FrameResult
    decreases |rest|
  {
    if rest == [] then FrameResult([], score)
    else
      var moved := Advance(rest[0]);
      if moved.y > lay.zoneHeight then
        var s := Apply(score, Landing(moved, lay));
        if |rest| == 1 then FrameResult([], s)
        else
          var r := Frame(rest[2..], s, lay);
          FrameResult([rest[1]] + r.items, r.score)
      else
        var r := Frame(rest[1..], score, lay);
        FrameResult([moved] + r.items, r.score)
  }

  /** One animation frame as intended: every item is advanced once, and each one below the zone is resolved and removed. */
  function FrameIntended(rest: seq<FallingItem>, score: int, lay: Layout): FrameResult
    decreases |rest|
  {
    if rest == [] then FrameResult([], score)
    else
      var moved := Advance(rest[0]);
      if moved.y > lay.zoneHeight then
        FrameIntended(rest[1..], Apply(score, Landing(moved, lay)), lay)
      else
        var r := FrameIntended(rest[1..], score, lay);
        FrameResult([moved] + r.items, r.score)
  }

  /** A landing item of a configured kind never leads to a negative score. */
  lemma LandingKeepsScore(score: int, it: FallingItem, lay: Layout)
    requires score >= 0 && Configured(it.element.kind)
    ensures Apply(score, Landing(it, lay)) >= 0
  {
    ConfiguredPointsPositive(it.element.kind);
  }

  /** A frame keeps the score non-negative. */
  lemma {:induction false} FrameScoreNonNegative(rest: seq<FallingItem>, score: int, lay: Layout)
    requires score >= 0 && AllWellFormed(rest)
    ensures Frame(rest, score, lay).score >= 0
    decreases |rest|
  {
    if rest != [] {
      var moved := Advance(rest[0]);
      if moved.y > lay.zoneHeight {
        LandingKeepsScore(score, moved, lay);
        if |rest| > 1 {
          FrameScoreNonNegative(rest[2..], Apply(score, Landing(moved, lay)), lay);
        }
      } else {
        FrameScoreNonNegative(rest[1..], score, lay);
      }
    }
  }

  /** The resolutions a frame as the code runs it applies, in order: one per visited item that passes the bottom. */
  function FrameLandings(rest: seq<FallingItem>, lay: Layout): seq<Resolution>
    decreases |rest|
  {
    if rest == [] then []
    else
      var moved := Advance(rest[0]);
      if moved.y > lay.zoneHeight then
        [Landing(moved, lay)] + (if |rest| == 1 then [] else FrameLandings(rest[2..], lay))
      else FrameLandings(rest[1..], lay)
  }

  /** A frame's score is its landings applied in turn, each clamped at 0, so every fact about such runs holds of a frame. */
  lemma {:induction false} FrameScoreIsScoreAfter(rest: seq<FallingItem>, score: int, lay: Layout)
    ensures Frame(rest, score, lay).score == ScoreAfter(score, FrameLandings(rest, lay))
    ensures Frame(rest, score, lay).score >= score + SumDeltas(FrameLandings(rest, lay))
    decreases |rest|
  {
    var ls := FrameLandings(rest, lay);
    if rest != [] {
      var moved := Advance(rest[0]);
      if moved.y > lay.zoneHeight {
        var s := Apply(score, Landing(moved, lay));
        if |rest| > 1 {
          FrameScoreIsScoreAfter(rest[2..], s, lay);
          assert ls[1..] == FrameLandings(rest[2..], lay);
        } else {
          assert ls[1..] == [];
        }
      } else {
        FrameScoreIsScoreAfter(rest[1..], score, lay);
      }
    }
    ScoreAfterAtLeastSum(score, ls);
  }

  /** The resolutions the corrected frame applies, in order: one per item that passes the bottom. */
  function FrameIntendedLandings(rest: seq<FallingItem>, lay: Layout): seq<Resolution>
    decreases |rest|
  {
    if rest == [] then []
    else
      var moved := Advance(rest[0]);
      if moved.y > lay.zoneHeight then [Landing(moved, lay)] + FrameIntendedLandings(rest[1..], lay)
      else FrameIntendedLandings(rest[1..], lay)
  }

  /** The corrected frame's score is its landings applied in turn, each clamped at 0. */
  lemma {:induction false} FrameIntendedScoreIsScoreAfter(rest: seq<FallingItem>, score: int, lay: Layout)
    ensures FrameIntended(rest, score, lay).score == ScoreAfter(score, FrameIntendedLandings(rest, lay))
    ensures FrameIntended(rest, score, lay).score >= score + SumDeltas(FrameIntendedLandings(rest, lay))
    decreases |rest|
  {
    var ls := FrameIntendedLandings(rest, lay);
    if rest != [] {
      var moved := Advance(rest[0]);
      if moved.y > lay.zoneHeight {
        FrameIntendedScoreIsScoreAfter(rest[1..], Apply(score, Landing(moved, lay)), lay);
        assert ls[1..] == FrameIntendedLandings(rest[1..], lay);
      } else {
        FrameIntendedScoreIsScoreAfter(rest[1..], score, lay);
      }
    }
    ScoreAfterAtLeastSum(score, ls);
  }

  /** The corrected frame keeps the score non-negative too. */
  lemma {:induction false} FrameIntendedScoreNonNegative(rest: seq<FallingItem>, score: int, lay: Layout)
    requires score >= 0 && AllWellFormed(rest)
    ensures FrameIntended(rest, score, lay).score >= 0
    decreases |rest|
  {
    if rest != [] {
      var moved := Advance(rest[0]);
      if moved.y > lay.zoneHeight {
        LandingKeepsScore(score, moved, lay);
        FrameIntendedScoreNonNegative(rest[1..], Apply(score, Landing(moved, lay)), lay);
      } else {
        FrameIntendedScoreNonNegative(rest[1..], score, lay);
      }
    }
  }

  /**
   * Whether the code's walk over the list visits index `m`: every index is
   * visited except one right behind a visited item that passed the bottom
   * and was spliced out, since the next index then holds the item after it.
   */
  predicate Visited(rest: seq<FallingItem>, m: nat, height: real)
    requires m < |rest|
    decreases m
  {
    m == 0 || !(Visited(rest, m - 1, height) && Advance(rest[m - 1]).y > height)
  }

  /** Seen from a visited index `d`, the walk over the suffix from `d` visits the same indices. */
  lemma {:induction false} VisitedShift(rest: seq<FallingItem>, d: nat, m: nat, height: real)
    requires d + m < |rest| && Visited(rest, d, height)
    ensures Visited(rest, d + m, height) == Visited(rest[d..], m, height)
    decreases m
  {
    if m > 0 {
      VisitedShift(rest, d, m - 1, height);
      assert rest[d..][m - 1] == rest[d + m - 1];
    }
  }

  /** `o` is an input item the walk skipped, left as it was, or a visited input item advanced by its speed and still inside the zone. */
  predicate Origin(o: FallingItem, rest: seq<FallingItem>, height: real) {
    exists m :: 0 <= m < |rest| &&
      ((!Visited(rest, m, height) && o == rest[m]) ||
       (Visited(rest, m, height) && o == Advance(rest[m]) && o.y <= height))
  }

  lemma OriginSuffix(o: FallingItem, rest: seq<FallingItem>, d: nat, height: real)
    requires d < |rest| && Visited(rest, d, height) && Origin(o, rest[d..], height)
    ensures Origin(o, rest, height)
  {
    var m :| 0 <= m < |rest[d..]| &&
      ((!Visited(rest[d..], m, height) && o == rest[d..][m]) ||
       (Visited(rest[d..], m, height) && o == Advance(rest[d..][m]) && o.y <= height));
    assert rest[d..][m] == rest[d + m];
    VisitedShift(rest, d, m, height);
  }

  lemma ElementsCons(x: FallingItem, r: seq<FallingItem>)
    ensures Elements([x] + r) == {x.element} + Elements(r)
  {
    var out := [x] + r;
    forall g | g in Elements(out) ensures g in {x.element} + Elements(r) {
      var k :| 0 <= k < |out| && out[k].element == g;
      if k > 0 { assert r[k - 1].element == g; }
    }
    forall g | g in Elements(r) ensures g in Elements(out) {
      var k :| 0 <= k < |r| && r[k].element == g;
      assert out[k + 1].element == g;
    }
    assert out[0].element == x.element;
  }

  lemma ElementsSuffix(rest: seq<FallingItem>, d: nat)
    requires d <= |rest|
    ensures Elements(rest[d..]) <= Elements(rest)
  {
    forall g | g in Elements(rest[d..]) ensures g in Elements(rest) {
      var k :| 0 <= k < |rest[d..]| && rest[d..][k].element == g;
      assert rest[k + d].element == g;
    }
  }

  lemma DistinctCons(x: FallingItem, r: seq<FallingItem>)
    requires Distinct(r) && x.element !in Elements(r)
    ensures Distinct([x] + r)
  {
    var out := [x] + r;
    forall i, j | 0 <= i < j < |out| ensures out[i].element != out[j].element {
      assert out[j] == r[j - 1];
      if i == 0 {
        assert r[j - 1].element in Elements(r);
      } else {
        assert out[i] == r[i - 1];
      }
    }
  }

  /** A frame keeps every remaining item well-formed. */
  lemma {:induction false} FrameWellFormed(rest: seq<FallingItem>, score: int, lay: Layout)
    requires AllWellFormed(rest)
    ensures AllWellFormed(Frame(rest, score, lay).items)
    decreases |rest|
  {
    if rest != [] {
      var moved := Advance(rest[0]);
      if moved.y > lay.zoneHeight {
        if |rest| > 1 {
          FrameWellFormed(rest[2..], Apply(score, Landing(moved, lay)), lay);
        }
      } else {
        FrameWellFormed(rest[1..], score, lay);
      }
    }
  }

  /** A frame removes elements but never adds or duplicates one. */
  lemma {:induction false} FrameElements(rest: seq<FallingItem>, score: int, lay: Layout)
    requires Distinct(rest)
    ensures Distinct(Frame(rest, score, lay).items)
    ensures Elements(Frame(rest, score, lay).items) <= Elements(rest)
    decreases |rest|
  {
    if rest != [] {
      var moved := Advance(rest[0]);
      if moved.y > lay.zoneHeight {
        if |rest| > 1 {
          var s := Apply(score, Landing(moved, lay));
          var tail := rest[2..];
          FrameElements(tail, s, lay);
          var r := Frame(tail, s, lay).items;
          assert rest[1].element !in Elements(tail);
          ElementsCons(rest[1], r);
          DistinctCons(rest[1], r);
          ElementsSuffix(rest, 2);
        }
      } else {
        var tail := rest[1..];
        FrameElements(tail, score, lay);
        var r := Frame(tail, score, lay).items;
        assert moved.element !in Elements(tail);
        ElementsCons(moved, r);
        DistinctCons(moved, r);
        ElementsSuffix(rest, 1);
        assert rest[0].element in Elements(rest);
      }
    }
  }

  /** Every item a frame leaves is an input item the walk skipped, unchanged, or a visited one advanced by its speed and still inside the zone. */
  lemma {:induction false} FrameOrigins(rest: seq<FallingItem>, score: int, lay: Layout)
    ensures forall k :: 0 <= k < |Frame(rest, score, lay).items| ==>
      Origin(Frame(rest, score, lay).items[k], rest, lay.zoneHeight)
    decreases |rest|
  {
    if rest != [] {
      var moved := Advance(rest[0]);
      var out := Frame(rest, score, lay).items;
      if moved.y > lay.zoneHeight {
        if |rest| > 1 {
          var s := Apply(score, Landing(moved, lay));
          FrameOrigins(rest[2..], s, lay);
          var r := Frame(rest[2..], s, lay).items;
          assert out == [rest[1]] + r;
          forall k | 0 <= k < |out| ensures Origin(out[k], rest, lay.zoneHeight) {
            assert !Visited(rest, 1, lay.zoneHeight);
            if k == 0 {
              assert out[0] == rest[1];
            } else {
              assert out[k] == r[k - 1] && Origin(r[k - 1], rest[2..], lay.zoneHeight);
              assert Visited(rest, 2, lay.zoneHeight);
              OriginSuffix(out[k], rest, 2, lay.zoneHeight);
            }
          }
        }
      } else {
        FrameOrigins(rest[1..], score, lay);
        var r := Frame(rest[1..], score, lay).items;
        assert out == [moved] + r;
        forall k | 0 <= k < |out| ensures Origin(out[k], rest, lay.zoneHeight) {
          if k == 0 {
            assert out[0] == Advance(rest[0]) && Visited(rest, 0, lay.zoneHeight);
          } else {
            assert out[k] == r[k - 1] && Origin(r[k - 1], rest[1..], lay.zoneHeight);
            assert Visited(rest, 1, lay.zoneHeight);
            OriginSuffix(out[k], rest, 1, lay.zoneHeight);
          }
        }
      }
    }
  }

  /**
   * What the code's frame keeps: every visited item still inside the zone
   * after advancing stays in the list, advanced, and every item the walk
   * skips stays in the list as it was.
   */
  lemma {:induction false} FrameKeeps(rest: seq<FallingItem>, score: int, lay: Layout)
    ensures forall m :: 0 <= m < |rest| && Visited(rest, m, lay.zoneHeight) && Advance(rest[m]).y <= lay.zoneHeight ==>
      Advance(rest[m]) in Frame(rest, score, lay).items
    ensures forall m :: 0 <= m < |rest| && !Visited(rest, m, lay.zoneHeight) ==>
      rest[m] in Frame(rest, score, lay).items
    decreases |rest|
  {
    if rest != [] {
      var h := lay.zoneHeight;
      var moved := Advance(rest[0]);
      var out := Frame(rest, score, lay).items;
      if moved.y > h {
        if |rest| > 1 {
          var s := Apply(score, Landing(moved, lay));
          FrameKeeps(rest[2..], s, lay);
          var r := Frame(rest[2..], s, lay).items;
          assert out == [rest[1]] + r;
          assert !Visited(rest, 1, h);
          forall m | 2 <= m < |rest|
            ensures Visited(rest, m, h) == Visited(rest[2..], m - 2, h) && rest[m] == rest[2..][m - 2]
          {
            assert Visited(rest, 2, h);
            VisitedShift(rest, 2, m - 2, h);
          }
        }
      } else {
        FrameKeeps(rest[1..], score, lay);
        var r := Frame(rest[1..], score, lay).items;
        assert out == [moved] + r;
        forall m | 1 <= m < |rest|
          ensures Visited(rest, m, h) == Visited(rest[1..], m - 1, h) && rest[m] == rest[1..][m - 1]
        {
          assert Visited(rest, 1, h);
          VisitedShift(rest, 1, m - 1, h);
        }
      }
    }
  }

  /** What the code's frame removes: every visited item that passes the bottom of the zone leaves the list. */
  lemma {:induction false} FrameRemovesLanded(rest: seq<FallingItem>, score: int, lay: Layout)
    requires Distinct(rest)
    ensures forall m :: 0 <= m < |rest| && Visited(rest, m, lay.zoneHeight) && Advance(rest[m]).y > lay.zoneHeight ==>
      rest[m].element !in Elements(Frame(rest, score, lay).items)
    decreases |rest|
  {
    if rest != [] {
      var h := lay.zoneHeight;
      var moved := Advance(rest[0]);
      var out := Frame(rest, score, lay).items;
      if moved.y > h {
        if |rest| > 1 {
          var s := Apply(score, Landing(moved, lay));
          var tail := rest[2..];
          FrameRemovesLanded(tail, s, lay);
          FrameElements(tail, s, lay);
          var r := Frame(tail, s, lay).items;
          assert out == [rest[1]] + r;
          ElementsCons(rest[1], r);
          assert rest[0].element !in Elements(tail) && rest[0].element != rest[1].element;
          assert !Visited(rest, 1, h);
          forall m | 2 <= m < |rest| && Visited(rest, m, h) && Advance(rest[m]).y > h
            ensures rest[m].element !in Elements(out)
          {
            assert Visited(rest, 2, h);
            VisitedShift(rest, 2, m - 2, h);
            assert rest[m] == tail[m - 2];
          }
        }
      } else {
        var tail := rest[1..];
        FrameRemovesLanded(tail, score, lay);
        var r := Frame(tail, score, lay).items;
        assert out == [moved] + r;
        ElementsCons(moved, r);
        forall m | 1 <= m < |rest| && Visited(rest, m, h) && Advance(rest[m]).y > h
          ensures rest[m].element !in Elements(out)
        {
          assert Visited(rest, 1, h);
          VisitedShift(rest, 1, m - 1, h);
          assert rest[m] == tail[m - 1];
        }
      }
    }
  }

  /** A frame where nothing reaches the bottom behaves as intended: the skip only follows a removal. */
  lemma {:induction false} FrameAgreesWhenNothingLands(rest: seq<FallingItem>, score: int, lay: Layout)
    requires forall m :: 0 <= m < |rest| ==> Advance(rest[m]).y <= lay.zoneHeight
    ensures Frame(rest, score, lay) == FrameIntended(rest, score, lay)
    decreases |rest|
  {
    if rest != [] {
      assert Advance(rest[0]).y <= lay.zoneHeight;
      FrameAgreesWhenNothingLands(rest[1..], score, lay);
    }
  }

  /** `o` is an input item advanced by its speed and still inside the zone. */
  predicate AdvancedOrigin(o: FallingItem, rest: seq<FallingItem>, height: real) {
    exists m :: 0 <= m < |rest| && o == Advance(rest[m]) && o.y <= height
  }

  /**
   * The corrected frame does what the game promises: every item it keeps
   * has been advanced exactly once and is still inside the zone, and every
   * item that is still inside the zone after advancing is kept.
   */
  lemma {:induction false} FrameIntendedResolvesAll(rest: seq<FallingItem>, score: int, lay: Layout)
    ensures forall k :: 0 <= k < |FrameIntended(rest, score, lay).items| ==>
      AdvancedOrigin(FrameIntended(rest, score, lay).items[k], rest, lay.zoneHeight)
    ensures forall m :: 0 <= m < |rest| && Advance(rest[m]).y <= lay.zoneHeight ==>
      Advance(rest[m]) in FrameIntended(rest, score, lay).items
    decreases |rest|
  {
    if rest != [] {
      var moved := Advance(rest[0]);
      var tail := rest[1..];
      var s := if moved.y > lay.zoneHeight then Apply(score, Landing(moved, lay)) else score;
      FrameIntendedResolvesAll(tail, s, lay);
      var r := FrameIntended(tail, s, lay).items;
      var out := FrameIntended(rest, score, lay).items;
      assert out == (if moved.y > lay.zoneHeight then [] else [moved]) + r;
      forall k | 0 <= k < |out| ensures AdvancedOrigin(out[k], rest, lay.zoneHeight) {
        if k < |out| - |r| {
          assert out[k] == Advance(rest[0]);
        } else {
          var i := k - (|out| - |r|);
          assert out[k] == r[i] && AdvancedOrigin(r[i], tail, lay.zoneHeight);
          var m :| 0 <= m < |tail| && r[i] == Advance(tail[m]) && r[i].y <= lay.zoneHeight;
          assert tail[m] == rest[m + 1];
        }
      }
      forall m | 0 <= m < |rest| && Advance(rest[m]).y <= lay.zoneHeight
        ensures Advance(rest[m]) in out
      {
        if m > 0 {
          assert rest[m] == tail[m - 1];
        }
      }
    }
  }

  /** The corrected frame keeps every remaining item well-formed, removes elements and never duplicates one. */
  lemma {:induction false} FrameIntendedItems(rest: seq<FallingItem>, score: int, lay: Layout)
    requires AllWellFormed(rest) && Distinct(rest)
    ensures AllWellFormed(FrameIntended(rest, score, lay).items)
    ensures Distinct(FrameIntended(rest, score, lay).items)
    ensures Elements(FrameIntended(rest, score, lay).items) <= Elements(rest)
    decreases |rest|
  {
    if rest != [] {
      var moved := Advance(rest[0]);
      var tail := rest[1..];
      ElementsSuffix(rest, 1);
      if moved.y > lay.zoneHeight {
        FrameIntendedItems(tail, Apply(score, Landing(moved, lay)), lay);
      } else {
        FrameIntendedItems(tail, score, lay);
        var r := FrameIntended(tail, score, lay).items;
        assert moved.element !in Elements(tail);
        ElementsCons(moved, r);
        DistinctCons(moved, r);
        assert rest[0].element in Elements(rest);
        assert AllWellFormed([moved] + r) by {
          forall k | 0 <= k < |[moved] + r| ensures WellFormed(([moved] + r)[k]) {
            if k > 0 { assert ([moved] + r)[k] == r[k - 1]; }
          }
        }
      }
    }
  }

  /**
   * The skip: when an item lands, the item right behind it is left exactly
   * where it was for this frame, while the corrected frame moves it (or
   * resolves it) like every other item.
   */
  lemma FrameSkipsSuccessor(a: FallingItem, b: FallingItem, rest: seq<FallingItem>, score: int, lay: Layout)
    requires Advance(a).y > lay.zoneHeight
    requires Distinct([a, b] + rest) && b.speed > 0.0
    ensures Frame([a, b] + rest, score, lay).items[0] == b
    ensures b !in FrameIntended([a, b] + rest, score, lay).items
  {
    var all := [a, b] + rest;
    assert all[0] == a && all[1] == b && all[2..] == rest;
    FrameIntendedResolvesAll(all, score, lay);
  }

  /** The index of the first entry holding `element`, as the list's find-index does; None when it is not in the list. */
  function IndexOf(items: seq<FallingItem>, element: Garbage): (r: Option<nat>)
    ensures r.Some? ==> r.value < |items| && items[r.value].element == element
    ensures r.Some? ==> forall j :: 0 <= j < r.value ==> items[j].element != element
    ensures r.None? <==> element !in Elements(items)
    decreases |items|
  {
    if items == [] then None
    else if items[0].element == element then Some(0)
    else
      assert Elements(items) == {items[0].element} + Elements(items[1..]) by { ElementsCons(items[0], items[1..]); }
      match IndexOf(items[1..], element)
      case None => None
      case Some(i) => Some(i + 1)
  }

  /** Splicing one entry out of a list of distinct, well-formed items keeps it so and loses exactly that element. */
  lemma RemoveAt(items: seq<FallingItem>, i: nat)
    requires i < |items| && Distinct(items) && AllWellFormed(items)
    ensures Distinct(items[..i] + items[i + 1..]) && AllWellFormed(items[..i] + items[i + 1..])
    ensures Elements(items[..i] + items[i + 1..]) == Elements(items) - {items[i].element}
  {
    var out := items[..i] + items[i + 1..];
    assert forall k :: 0 <= k < |out| ==> out[k] == items[if k < i then k else k + 1];
    forall g | g in Elements(items) - {items[i].element} ensures g in Elements(out) {
      var k :| 0 <= k < |items| && items[k].element == g;
      assert out[if k < i then k else k - 1] == items[k];
    }
  }

  /** Appending an item whose element is not yet in the list keeps the list distinct and adds exactly that element. */
  lemma Append(items: seq<FallingItem>, it: FallingItem)
    requires Distinct(items) && it.element !in Elements(items)
    ensures Distinct(items + [it])
    ensures Elements(items + [it]) == Elements(items) + {it.element}
  {
    var out := items + [it];
    assert forall k :: 0 <= k < |items| ==> out[k] == items[k];
    assert out[|items|] == it;
  }

  /**
   * Halfway through a frame as the code runs it: the entries before index
   * `i` are done, and finishing the frame from `i` with the current score
   * gives the whole frame's result.
   */
  predicate FrameInProgress(items: seq<FallingItem>, i: nat, score: int, lay: Layout, target: FrameResult) {
    var j := if i <= |items| then i else |items|;
    items[..j] + Frame(items[j..], score, lay).items == target.items &&
    Frame(items[j..], score, lay).score == target.score
  }

  /** One visited item that falls out: advancing it and splicing it out keeps the frame on course. */
  lemma FrameStepLands(before: seq<FallingItem>, i: nat, score: int, lay: Layout, target: FrameResult)
    requires i < |before| && Advance(before[i]).y > lay.zoneHeight
    requires FrameInProgress(before, i, score, lay, target)
    ensures FrameInProgress(before[..i] + before[i + 1..], i + 1, Apply(score, Landing(Advance(before[i]), lay)), lay, target)
  {
    var after := before[..i] + before[i + 1..];
    assert before[..i] + before[i..] == before;
    if i + 1 < |before| {
      assert before[i..][1] == before[i + 1];
      assert before[i..][2..] == before[i + 2..];
      assert after[..i + 1] == before[..i] + [before[i + 1]];
      assert after[i + 1..] == before[i + 2..];
    } else {
      assert after == before[..i];
      assert before[i..] == [before[i]];
    }
  }

  /** One visited item that stays: advancing it in place keeps the frame on course. */
  lemma FrameStepStays(before: seq<FallingItem>, i: nat, score: int, lay: Layout, target: FrameResult)
    requires i < |before| && Advance(before[i]).y <= lay.zoneHeight
    requires FrameInProgress(before, i, score, lay, target)
    ensures FrameInProgress(before[i := Advance(before[i])], i + 1, score, lay, target)
  {
    var after := before[i := Advance(before[i])];
    assert before[i..][1..] == before[i + 1..];
    assert after[..i + 1] == before[..i] + [Advance(before[i])];
    assert after[i + 1..] == before[i + 1..];
  }

  /** The whole frame, seen from its start and from its end. */
  lemma FrameBounds(items: seq<FallingItem>, score: int, lay: Layout, target: FrameResult)
    ensures target == Frame(items, score, lay) ==> FrameInProgress(items, 0, score, lay, target)
    ensures FrameInProgress(items, |items|, score, lay, target) ==> target == FrameResult(items, score)
  {
    assert items[..|items|] == items && items[|items|..] == [] && items[0..] == items;
  }

  /** Halfway through the corrected frame: the entries before `i` are done. */
  predicate FrameIntendedInProgress(items: seq<FallingItem>, i: nat, score: int, lay: Layout, target: FrameResult) {
    i <= |items| &&
    items[..i] + FrameIntended(items[i..], score, lay).items == target.items &&
    FrameIntended(items[i..], score, lay).score == target.score
  }

  /** In the corrected frame, an item that falls out is spliced out and the index stays on the item that takes its place. */
  lemma FrameIntendedStepLands(before: seq<FallingItem>, i: nat, score: int, lay: Layout, target: FrameResult)
    requires i < |before| && Advance(before[i]).y > lay.zoneHeight
    requires FrameIntendedInProgress(before, i, score, lay, target)
    ensures FrameIntendedInProgress(before[..i] + before[i + 1..], i, Apply(score, Landing(Advance(before[i]), lay)), lay, target)
  {
    var after := before[..i] + before[i + 1..];
    assert before[i..][1..] == before[i + 1..];
    assert after[..i] == before[..i];
    assert after[i..] == before[i + 1..];
  }

  /** In the corrected frame, an item that stays is advanced in place and the index moves on. */
  lemma FrameIntendedStepStays(before: seq<FallingItem>, i: nat, score: int, lay: Layout, target: FrameResult)
    requires i < |before| && Advance(before[i]).y <= lay.zoneHeight
    requires FrameIntendedInProgress(before, i, score, lay, target)
    ensures FrameIntendedInProgress(before[i := Advance(before[i])], i + 1, score, lay, target)
  {
    var after := before[i := Advance(before[i])];
    assert before[i..][1..] == before[i + 1..];
    assert after[..i + 1] == before[..i] + [Advance(before[i])];
    assert after[i + 1..] == before[i + 1..];
  }

  lemma FrameIntendedBounds(items: seq<FallingItem>, score: int, lay: Layout, target: FrameResult)
    ensures target == FrameIntended(items, score, lay) ==> FrameIntendedInProgress(items, 0, score, lay, target)
    ensures FrameIntendedInProgress(items, |items|, score, lay, target) ==> target == FrameResult(items, score)
  {
    assert items[..|items|] == items && items[|items|..] == [] && items[0..] == items;
  }
}
