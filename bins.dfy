/**
 * The bins and the two first-match lookups: the bin under a dragged
 * pointer (a rectangle test) and the bin below a landing item (a test on
 * the horizontal extent only).
 */
module Bins {
  import opened Options
  import opened Scoring

  /** A bin: the category it accepts and its bounding box in client coordinates. */
  datatype Bin = Bin(accepts: Category, left: real, right: real, top: real, bottom: real)

  /** The horizontal extent of the bin, made relative to a container whose left edge is `originLeft`, holds `x` (bounds included). */
  predicate CoversX(b: Bin, originLeft: real, x: real) {
    x >= b.left - originLeft && x <= b.right - originLeft
  }

  /** The bounding box of the bin holds the point (bounds included). */
  predicate CoversPoint(b: Bin, x: real, y: real) {
    x >= b.left && x <= b.right && y >= b.top && y <= b.bottom
  }

  /** The index of the first bin whose horizontal extent, relative to the game area, holds `x`; None when no bin does. */
  function BinAtPosition(bins: seq<Bin>, areaLeft: real, x: real): (r: Option<nat>)
    ensures r.Some? ==> r.value < |bins| && CoversX(bins[r.value], areaLeft, x)
    ensures r.Some? ==> forall j :: 0 <= j < r.value ==> !CoversX(bins[j], areaLeft, x)
    ensures r.None? <==> forall j :: 0 <= j < |bins| ==> !CoversX(bins[j], areaLeft, x)
    decreases |bins|
  {
    if bins == [] then None
    else if CoversX(bins[0], areaLeft, x) then Some(0)
    else match BinAtPosition(bins[1..], areaLeft, x)
      case None => None
      case Some(i) => Some(i + 1)
  }

  /** The index of the first bin whose bounding box holds the pointer; None when no bin does. */
  function TargetBin(bins: seq<Bin>, x: real, y: real): (r: Option<nat>)
    ensures r.Some? ==> r.value < |bins| && CoversPoint(bins[r.value], x, y)
    ensures r.Some? ==> forall j :: 0 <= j < r.value ==> !CoversPoint(bins[j], x, y)
    ensures r.None? <==> forall j :: 0 <= j < |bins| ==> !CoversPoint(bins[j], x, y)
    decreases |bins|
  {
    if bins == [] then None
    else if CoversPoint(bins[0], x, y) then Some(0)
    else match TargetBin(bins[1..], x, y)
      case None => None
      case Some(i) => Some(i + 1)
  }

  /** No two bins share a horizontal position. */
  predicate DisjointExtents(bins: seq<Bin>) {
    forall i, j :: 0 <= i < j < |bins| ==> bins[i].right < bins[j].left || bins[j].right < bins[i].left
  }

  /** With non-overlapping bins the lookup is unambiguous: it returns the one bin that covers `x`. */
  lemma BinAtPositionUnique(bins: seq<Bin>, areaLeft: real, x: real, k: nat)
    requires DisjointExtents(bins)
    requires k < |bins| && CoversX(bins[k], areaLeft, x)
    ensures BinAtPosition(bins, areaLeft, x) == Some(k)
  {
  }

  /** When one bin covers the point and the bins before it do not, the pointer lookup returns that bin. */
  lemma TargetBinFirst(bins: seq<Bin>, x: real, y: real, k: nat)
    requires k < |bins| && CoversPoint(bins[k], x, y)
    requires forall j :: 0 <= j < k ==> !CoversPoint(bins[j], x, y)
    ensures TargetBin(bins, x, y) == Some(k)
  {
  }
}
