/** Contour-level logic of scanalyzer.py. `cv2.findContours` and
    `cv2.contourArea` are not modelled: a contour arrives as its area and
    the pixels that `cv2.drawContours(..., thickness=-1)` fills for it. */
module Contours {
  import opened Image
  import opened Wrappers

  /** A region found by `cv2.findContours`: its `cv2.contourArea`, and the
      pixel coordinates (row, column) its filled drawing covers. */
  datatype Contour = Contour(area: real, fill: seq<(int, int)>)

  /** `max(contours, key=cv2.contourArea)`: Python scans left to right and
      replaces its candidate only on a strictly larger key, so the result is
      the first contour of maximal area. */
  function Largest(cs: seq<Contour>): (k: nat)
    requires |cs| > 0
    ensures k < |cs|
    ensures forall j :: 0 <= j < |cs| ==> cs[j].area <= cs[k].area
    ensures forall j :: 0 <= j < k ==> cs[j].area < cs[k].area
  {
    if |cs| == 1 then 0
    else
      var k := Largest(cs[..|cs| - 1]);
      if cs[|cs| - 1].area > cs[k].area then |cs| - 1 else k
  }

  /** A `dx` by `dy` mask, zero except the in-bounds points of `pts`, which
      are 255: `cv2.drawContours(np.zeros((dx,dy)), [c], -1, 255, -1)`. */
  function Fill(dx: nat, dy: nat, pts: seq<(int, int)>): seq<seq<Byte>>
  {
    seq(dx, i requires 0 <= i < dx => seq(dy, j requires 0 <= j < dy => if (i, j) in pts then White else 0))
  }

  /** The area of a filled mask is the number of distinct in-bounds points drawn. */
  lemma FillArea(dx: nat, dy: nat, pts: seq<(int, int)>)
    ensures Area(Fill(dx, dy, pts)) == |set p | p in pts && 0 <= p.0 < dx && 0 <= p.1 < dy|
  {
    var m := Fill(dx, dy, pts);
    AreaIsCount(m);
    assert Selected(m) == set p | p in pts && 0 <= p.0 < dx && 0 <= p.1 < dy;
  }

  /** `find_leaf` after its colour conversion (scanalyzer.py:141-150), given
      the contours of the leaf band: no contour gives `None`; otherwise the
      result is a `dx` by `dy` mask holding exactly the filled largest contour. */
  function FindLeaf(contours: seq<Contour>, dx: nat, dy: nat): (r: Option<seq<seq<Byte>>>)
    ensures r.None? <==> |contours| == 0
    ensures r.Some? ==> HasShape(r.value, dx, dy)
    ensures r.Some? ==> forall i, j :: 0 <= i < dx && 0 <= j < dy ==>
              (r.value[i][j] == White <==> (i, j) in contours[Largest(contours)].fill)
    ensures r.Some? ==> forall i, j :: 0 <= i < dx && 0 <= j < dy ==>
              r.value[i][j] == White || r.value[i][j] == 0
  {
    if |contours| != 0 then Some(Fill(dx, dy, contours[Largest(contours)].fill)) else None
  }

  /** `calculate_area(leaf_mask)` when `find_leaf` may have returned `None`:
      numpy compares `None == 255` to `False`, whose sum is 0. */
  function LeafArea(leafMask: Option<seq<seq<Byte>>>): nat
  {
    match leafMask
    case None => 0
    case Some(m) => Area(m)
  }

  /** The leaf area of a cell (scanalyzer.py:208-209): 0 when `find_leaf`
      finds no contour, otherwise the number of distinct in-bounds pixels
      that the largest contour fills. */
  lemma FindLeafArea(contours: seq<Contour>, dx: nat, dy: nat)
    ensures LeafArea(FindLeaf(contours, dx, dy)) ==
              if |contours| == 0 then 0
              else |set p | p in contours[Largest(contours)].fill && 0 <= p.0 < dx && 0 <= p.1 < dy|
  {
    if |contours| > 0 {
      FillArea(dx, dy, contours[Largest(contours)].fill);
    }
  }

  /** The total contour area of `cs`, added up in list order as
      `chlorosis_area += cv2.contourArea(contour)` does, from 0. */
  function TotalArea(cs: seq<Contour>): real {
    if |cs| == 0 then 0.0 else TotalArea(cs[..|cs| - 1]) + cs[|cs| - 1].area
  }

  /** Some contour of `cs` fills pixel `(i, j)`. */
  predicate Covered(cs: seq<Contour>, i: int, j: int) {
    |cs| > 0 && (Covered(cs[..|cs| - 1], i, j) || (i, j) in cs[|cs| - 1].fill)
  }

  /** Contour areas are never negative, so neither is their total. */
  lemma {:induction false} TotalAreaNonNegative(cs: seq<Contour>)
    requires forall k :: 0 <= k < |cs| ==> cs[k].area >= 0.0
    ensures TotalArea(cs) >= 0.0
  {
    if |cs| > 0 {
      TotalAreaNonNegative(cs[..|cs| - 1]);
    }
  }

  /** A pixel is covered exactly when one of the contours fills it. */
  lemma {:induction false} CoveredIff(cs: seq<Contour>, i: int, j: int)
    ensures Covered(cs, i, j) <==> exists k :: 0 <= k < |cs| && (i, j) in cs[k].fill
  {
    if |cs| > 0 {
      var init := cs[..|cs| - 1];
      CoveredIff(init, i, j);
      if exists k :: 0 <= k < |cs| && (i, j) in cs[k].fill {
        var k :| 0 <= k < |cs| && (i, j) in cs[k].fill;
        if k < |cs| - 1 {
          assert init[k] == cs[k];
        }
      }
    }
  }

  /** `cv2.drawContours(mask, [contour], -1, 255, -1)` on the mask in place:
      every in-bounds filled pixel becomes 255, the others keep their value. */
  method Paint(mask: array2<Byte>, pts: seq<(int, int)>)
    modifies mask
    ensures forall i, j :: 0 <= i < mask.Length0 && 0 <= j < mask.Length1 ==>
              mask[i, j] == if (i, j) in pts then White else old(mask[i, j])
  {
    for t := 0 to |pts|
      invariant forall i, j :: 0 <= i < mask.Length0 && 0 <= j < mask.Length1 ==>
                  mask[i, j] == if (i, j) in pts[..t] then White else old(mask[i, j])
    {
      var (i, j) := pts[t];
      if 0 <= i < mask.Length0 && 0 <= j < mask.Length1 {
        mask[i, j] := White;
      }
      assert pts[..t + 1] == pts[..t] + [pts[t]];
    }
    assert pts[..|pts|] == pts;
  }

  /** The contour loop of `find_chlorosis` (scanalyzer.py:111-124), given the
      contours of the yellow selection: start from a zero `dx` by `dy` mask
      and area 0, and for each contour add its area and paint its fill.
      The mask ends up white exactly on the pixels some contour fills, and
      the area is the sum of the contour areas. */
  method FindChlorosis(contours: seq<Contour>, dx: nat, dy: nat) returns (mask: array2<Byte>, area: real)
    ensures fresh(mask) && mask.Length0 == dx && mask.Length1 == dy
    ensures area == TotalArea(contours)
    ensures forall i, j :: 0 <= i < dx && 0 <= j < dy ==>
              mask[i, j] == if Covered(contours, i, j) then White else 0
  {
    area := 0.0;
    mask := new Byte[dx, dy]((i, j) => 0);
    for k := 0 to |contours|
      invariant mask.Length0 == dx && mask.Length1 == dy
      invariant area == TotalArea(contours[..k])
      invariant forall i, j :: 0 <= i < dx && 0 <= j < dy ==>
                  mask[i, j] == if Covered(contours[..k], i, j) then White else 0
    {
      assert contours[..k + 1][..k] == contours[..k];
      area := area + contours[k].area;
      Paint(mask, contours[k].fill);
    }
    assert contours[..|contours|] == contours;
  }
}
