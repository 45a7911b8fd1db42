/** The pixel-wise rules of `find_leaf`, `find_bacteria` and
    `find_chlorosis`: OpenCV's `inRange`, `bitwise_and` with a mask and the
    uint8 complement `~`, applied to whole cells. The colour conversions
    that feed them are outside this module: the cells arrive already in HSV
    or grey. */
module Threshold {
  import opened Image
  import opened Wrappers

  /** Leaf band bounds (scanalyzer.py:133-134): hue and value cover 0..255,
      saturation is capped at 75. */
  const LeafLower := Hsv(0, 0, 0)
  const LeafUpper := Hsv(255, 75, 255)

  /** Chlorosis bounds (scanalyzer.py:105-106). */
  const YellowLower := Hsv(12, 50, 170)
  const YellowUpper := Hsv(37, 210, 255)

  /** `cv2.inRange` on a one-channel value: white inside `[lo, hi]`. */
  function InRange(x: int, lo: int, hi: int): Byte {
    if lo <= x <= hi then White else 0
  }

  /** `cv2.inRange` on an HSV pixel: white when every channel is inside its bounds. */
  function InRangeHsv(p: Hsv, lo: Hsv, hi: Hsv): Byte {
    if lo.h <= p.h <= hi.h && lo.s <= p.s <= hi.s && lo.v <= p.v <= hi.v then White else 0
  }

  /** numpy's `~` on a uint8. */
  function Invert(x: Byte): Byte {
    255 - x
  }

  /** The pixel-wise image of `img` under `f`, same shape. */
  function MapImage<A, B>(img: seq<seq<A>>, f: A -> B): (r: seq<seq<B>>)
    ensures |r| == |img|
    ensures forall i :: 0 <= i < |r| ==> |r[i]| == |img[i]|
    ensures forall i, j :: 0 <= i < |r| && 0 <= j < |r[i]| ==> r[i][j] == f(img[i][j])
  {
    seq(|img|, i requires 0 <= i < |img| => seq(|img[i]|, j requires 0 <= j < |img[i]| => f(img[i][j])))
  }

  /** Two images have the same shape, as OpenCV demands of an image and its mask. */
  predicate SameShape<A, B>(a: seq<seq<A>>, b: seq<seq<B>>) {
    |a| == |b| && forall i :: 0 <= i < |a| ==> |a[i]| == |b[i]|
  }

  /** Pixel `(i, j)` passes `mask`: any non-zero mask value, or no mask at all. */
  predicate Passes(mask: Option<seq<seq<Byte>>>, i: nat, j: nat) {
    mask.None? || (i < |mask.value| && j < |mask.value[i]| && mask.value[i][j] != 0)
  }

  /** `&` on two non-negative integers, one binary digit at a time: the
      result has no bit that either operand lacks, so it is at most each of
      them, and a value anded with itself is unchanged. */
  function BitAnd(a: nat, b: nat): (r: nat)
    ensures r <= a && r <= b
    ensures a == b ==> r == a
    decreases a
  {
    if a == 0 || b == 0 then 0
    else 2 * BitAnd(a / 2, b / 2) + (if a % 2 == 1 && b % 2 == 1 then 1 else 0)
  }

  /** `&` on two uint8 values. */
  function ByteAnd(a: Byte, b: Byte): Byte {
    BitAnd(a, b)
  }

  /** `&` on two HSV pixels, channel by channel. */
  function HsvAnd(p: Hsv, q: Hsv): (r: Hsv)
    ensures p == q ==> r == p
  {
    Hsv(ByteAnd(p.h, q.h), ByteAnd(p.s, q.s), ByteAnd(p.v, q.v))
  }

  /** `cv2.bitwise_and(src1, src2, mask=mask)`, with `and` the pixel-wise
      `&`: where the mask is non-zero (or there is no mask) a pixel is
      `src1 & src2`, elsewhere it is `zero`. */
  function BitwiseAnd<T>(src1: seq<seq<T>>, src2: seq<seq<T>>, mask: Option<seq<seq<Byte>>>,
                         and: (T, T) -> T, zero: T): (r: seq<seq<T>>)
    requires SameShape(src1, src2)
    requires mask.Some? ==> SameShape(src1, mask.value)
    ensures SameShape(r, src1)
  {
    seq(|src1|, i requires 0 <= i < |src1| =>
      seq(|src1[i]|, j requires 0 <= j < |src1[i]| =>
        if Passes(mask, i, j) then and(src1[i][j], src2[i][j]) else zero))
  }

  /** `cv2.bitwise_and(img, img, mask=mask)`, the form both detectors use:
      since `x & x == x`, it keeps a pixel where the mask passes and blacks
      it out elsewhere; without a mask the image is unchanged. */
  lemma BitwiseAndSelf<T>(img: seq<seq<T>>, mask: Option<seq<seq<Byte>>>, and: (T, T) -> T, zero: T)
    requires forall x :: and(x, x) == x
    requires mask.Some? ==> SameShape(img, mask.value)
    ensures var r := BitwiseAnd(img, img, mask, and, zero);
            && SameShape(r, img)
            && (forall i, j :: 0 <= i < |r| && 0 <= j < |r[i]| ==>
                  r[i][j] == if Passes(mask, i, j) then img[i][j] else zero)
            && (mask.None? ==> r == img)
  {
    var r := BitwiseAnd(img, img, mask, and, zero);
    if mask.None? {
      forall i | 0 <= i < |img| ensures r[i] == img[i] {
        assert forall j :: 0 <= j < |img[i]| ==> r[i][j] == and(img[i][j], img[i][j]);
      }
    }
  }

  /** The leaf band of `find_leaf` (scanalyzer.py:133-137):
      `~cv2.inRange(hsv, [0,0,0], [255,75,255])`. A pixel is white exactly
      when its saturation is above 75, since the hue and value bounds cover
      every byte; every other pixel is black. */
  function LeafBand(hsv: seq<seq<Hsv>>): (r: seq<seq<Byte>>)
    ensures SameShape(r, hsv)
    ensures forall i, j :: 0 <= i < |r| && 0 <= j < |r[i]| ==>
              r[i][j] == if hsv[i][j].s > 75 then White else 0
  {
    MapImage(hsv, p => Invert(InRangeHsv(p, LeafLower, LeafUpper)))
  }

  /** The bacteria mask of `find_bacteria` (scanalyzer.py:64-73): invert the
      grey cell, black out what `leafMask` excludes, select the values in
      `[0, threshold]` and invert the selection. A pixel is white exactly
      when its masked inverted grey value exceeds `threshold`. */
  function BacteriaMask(grey: seq<seq<Byte>>, leafMask: Option<seq<seq<Byte>>>, threshold: int): (r: seq<seq<Byte>>)
    requires leafMask.Some? ==> SameShape(grey, leafMask.value)
    ensures SameShape(r, grey)
    ensures forall i, j :: 0 <= i < |r| && 0 <= j < |r[i]| ==>
              r[i][j] == if (if Passes(leafMask, i, j) then 255 - grey[i][j] else 0) > threshold then White else 0
  {
    var inverted := MapImage(grey, Invert);
    BitwiseAndSelf(inverted, leafMask, ByteAnd, 0);
    var masked := BitwiseAnd(inverted, inverted, leafMask, ByteAnd, 0);
    MapImage(masked, x => Invert(InRange(x, 0, threshold)))
  }

  /** The selection of `find_chlorosis` (scanalyzer.py:94-108): mask the HSV
      cell with the leaf and keep the pixels inside the yellow box. A pixel
      is white exactly when it passes the leaf mask and has
      `12 <= H <= 37`, `50 <= S <= 210` and `V >= 170`. */
  function YellowMask(hsv: seq<seq<Hsv>>, leafMask: Option<seq<seq<Byte>>>): (r: seq<seq<Byte>>)
    requires leafMask.Some? ==> SameShape(hsv, leafMask.value)
    ensures SameShape(r, hsv)
    ensures forall i, j :: 0 <= i < |r| && 0 <= j < |r[i]| ==>
              (r[i][j] == White <==>
                 Passes(leafMask, i, j) && 12 <= hsv[i][j].h <= 37 && 50 <= hsv[i][j].s <= 210 && 170 <= hsv[i][j].v)
    ensures forall i, j :: 0 <= i < |r| && 0 <= j < |r[i]| ==> r[i][j] == White || r[i][j] == 0
  {
    BitwiseAndSelf(hsv, leafMask, HsvAnd, Hsv(0, 0, 0));
    MapImage(BitwiseAnd(hsv, hsv, leafMask, HsvAnd, Hsv(0, 0, 0)), p => InRangeHsv(p, YellowLower, YellowUpper))
  }

  /** A mask is binary when each pixel is 0 or 255, as `cv2.drawContours`
      leaves a zero mask it fills with 255. */
  predicate IsBinary(mask: seq<seq<Byte>>) {
    forall i, j :: 0 <= i < |mask| && 0 <= j < |mask[i]| ==> mask[i][j] == 0 || mask[i][j] == White
  }

  /** With a non-negative threshold, the bacteria mask stays inside a binary
      leaf mask, so the bacteria area never exceeds the leaf area. */
  lemma BacteriaWithinLeaf(grey: seq<seq<Byte>>, leafMask: seq<seq<Byte>>, threshold: int)
    requires SameShape(grey, leafMask) && IsBinary(leafMask)
    requires threshold >= 0
    ensures forall i, j :: 0 <= i < |grey| && 0 <= j < |grey[i]| && BacteriaMask(grey, Some(leafMask), threshold)[i][j] == White ==>
              leafMask[i][j] == White
    ensures Area(BacteriaMask(grey, Some(leafMask), threshold)) <= Area(leafMask)
  {
    var b := BacteriaMask(grey, Some(leafMask), threshold);
    AreaMonotone(b, leafMask);
  }
}
