/** The scratch layer as the RGBA byte buffer that getImageData returns:
    pixel p occupies bytes 4p (red), 4p+1 (green), 4p+2 (blue) and 4p+3 (alpha).
    This module defines the coverage count the scan computes, the percentage
    it reports, and the three ways the buffer is rewritten: the brush erase,
    the opaque repaint and the delayed clear. */
module Coverage {

  type Byte = b: int | 0 <= b < 256

  /** A pixel whose alpha is below this cut-point counts as scratched away. */
  const AlphaCutoff: Byte := 128

  const Opaque: Byte := 255

  /** Radius of the brush disk, in canvas pixels. */
  const BrushSize: real := 5.0

  /** Alpha byte of pixel p. */
  function Alpha(px: seq<Byte>, p: nat): Byte
    requires 4 * p + 3 < |px|
  {
    px[4 * p + 3]
  }

  /** Pixel p counts as transparent. An alpha byte past the end of the buffer
      reads as `undefined`, and `undefined < 128` is false, so it never counts. */
  predicate IsTransparent(px: seq<Byte>, p: nat)
  {
    4 * p + 3 < |px| && Alpha(px, p) < AlphaCutoff
  }

  /** Transparent pixels among pixels 0 .. k-1. */
  function CountFirst(px: seq<Byte>, k: nat): nat
  {
    if k == 0 then 0 else CountFirst(px, k - 1) + (if IsTransparent(px, k - 1) then 1 else 0)
  }

  /** Iterations of the scan loop, which starts at byte 0 and steps by four
      bytes while it is inside a buffer of n bytes. */
  function Steps(n: nat): nat
  {
    (n + 3) / 4
  }

  /** What the scan loop counts: one test per step of four bytes. */
  function TransparentCount(px: seq<Byte>): nat
  {
    CountFirst(px, Steps(|px|))
  }

  /** Independent description of the same quantity: the set of whole pixels
      whose alpha byte is below the cut-point. */
  function TransparentPixels(px: seq<Byte>): set<nat>
  {
    set p: nat | p < |px| / 4 && Alpha(px, p) < AlphaCutoff
  }

  lemma {:induction false} CountFirstIsSetSize(px: seq<Byte>, k: nat)
    ensures CountFirst(px, k) == |set p: nat | p < k && IsTransparent(px, p)|
  {
    if k > 0 {
      CountFirstIsSetSize(px, k - 1);
      var prev := set p: nat | p < k - 1 && IsTransparent(px, p);
      var cur := set p: nat | p < k && IsTransparent(px, p);
      if IsTransparent(px, k - 1) {
        assert cur == prev + {k - 1};
      } else {
        assert cur == prev;
      }
    }
  }

  /** The scan counts exactly the pixels whose alpha byte is below 128. */
  lemma CountIsTransparentPixels(px: seq<Byte>)
    ensures TransparentCount(px) == |TransparentPixels(px)|
  {
    CountFirstIsSetSize(px, Steps(|px|));
    var scanned := set p: nat | p < Steps(|px|) && IsTransparent(px, p);
    forall p: nat
      ensures p in scanned <==> p in TransparentPixels(px)
    {
      assert 4 * p + 3 < |px| <==> p < |px| / 4;
    }
    assert scanned == TransparentPixels(px);
  }

  lemma {:induction false} CountFirstBound(px: seq<Byte>, k: nat)
    ensures CountFirst(px, k) <= k
    ensures CountFirst(px, k) <= |px| / 4
  {
    if k > 0 {
      CountFirstBound(px, k - 1);
      if IsTransparent(px, k - 1) {
        assert k - 1 < |px| / 4;
      }
    }
  }

  /** The count never exceeds the number of whole pixels in the buffer. */
  lemma CountBound(px: seq<Byte>)
    ensures TransparentCount(px) <= |px| / 4
  {
    CountFirstBound(px, Steps(|px|));
  }

  /** `after` has the same length as `before` and no alpha byte went up. */
  ghost predicate AlphaNotRaised(before: seq<Byte>, after: seq<Byte>)
  {
    |after| == |before| &&
    forall p: nat :: 4 * p + 3 < |before| ==> Alpha(after, p) <= Alpha(before, p)
  }

  lemma {:induction false} CountFirstMonotone(before: seq<Byte>, after: seq<Byte>, k: nat)
    requires AlphaNotRaised(before, after)
    ensures CountFirst(after, k) >= CountFirst(before, k)
  {
    if k > 0 {
      CountFirstMonotone(before, after, k - 1);
      if IsTransparent(before, k - 1) {
        assert Alpha(after, k - 1) <= Alpha(before, k - 1);
      }
    }
  }

  /** Lowering alpha can only add transparent pixels. */
  lemma CountMonotone(before: seq<Byte>, after: seq<Byte>)
    requires AlphaNotRaised(before, after)
    ensures TransparentCount(after) >= TransparentCount(before)
  {
    CountFirstMonotone(before, after, Steps(|before|));
  }

  lemma {:induction false} CountFirstOpaque(px: seq<Byte>, k: nat)
    requires forall p: nat :: 4 * p + 3 < |px| ==> Alpha(px, p) >= AlphaCutoff
    ensures CountFirst(px, k) == 0
  {
    if k > 0 {
      CountFirstOpaque(px, k - 1);
    }
  }

  lemma {:induction false} CountFirstAllTransparent(px: seq<Byte>, k: nat)
    requires forall p: nat :: 4 * p + 3 < |px| ==> Alpha(px, p) < AlphaCutoff
    ensures CountFirst(px, k) == if k <= |px| / 4 then k else |px| / 4
  {
    if k > 0 {
      CountFirstAllTransparent(px, k - 1);
      assert IsTransparent(px, k - 1) <==> k - 1 < |px| / 4;
    }
  }

  /** Coverage percent: the transparent count divided by the canvas area,
      times 100, on exact reals. */
  function Percentage(count: nat, area: nat): real
    requires area > 0
  {
    count as real / area as real * 100.0
  }

  /** Comparing the percentage with a whole-number threshold is the same as
      comparing `count * 100` with `threshold * area` on integers. */
  lemma PercentageAboveIff(count: nat, area: nat, threshold: nat)
    requires area > 0
    ensures Percentage(count, area) > threshold as real <==> count * 100 > threshold * area
  {
  }

  lemma PercentageInRange(count: nat, area: nat)
    requires 0 < area && count <= area
    ensures 0.0 <= Percentage(count, area) <= 100.0
  {
  }

  lemma PercentageMonotone(smaller: nat, larger: nat, area: nat)
    requires 0 < area && smaller <= larger
    ensures Percentage(smaller, area) <= Percentage(larger, area)
  {
  }

  /** The percentage of a `4 * width * height` byte buffer lies in [0, 100]. */
  lemma BufferPercentageInRange(px: seq<Byte>, width: nat, height: nat)
    requires |px| == 4 * (width * height) && width * height > 0
    ensures 0.0 <= Percentage(TransparentCount(px), width * height) <= 100.0
  {
    CountBound(px);
    assert |px| / 4 == width * height;
    PercentageInRange(TransparentCount(px), width * height);
  }

  /** Alpha of a `destination-out` composite: the source's alpha (0 = leave,
      255 = fully cover) is subtracted from the destination as a fraction,
      `dst * (1 - src/255)`, rounded down. */
  function DestinationOut(dst: Byte, src: Byte): (r: Byte)
    ensures r <= dst
    ensures src == Opaque ==> r == 0
    ensures src == 0 ==> r == dst
  {
    assert 0 <= dst * (Opaque - src) <= dst * Opaque;
    dst * (Opaque - src) / Opaque
  }

  /** The centre of pixel (col, row) lies inside the brush disk at (x, y). */
  predicate InDisk(col: nat, row: nat, x: real, y: real)
  {
    var dx := col as real + 0.5 - x;
    var dy := row as real + 0.5 - y;
    dx * dx + dy * dy <= BrushSize * BrushSize
  }

  /** Alpha of the brush fill. The scratch never sets a fill style of its
      own, so the arc is filled with the style the cover's label was drawn in,
      `rgba(0,0,0,0.3)`: 0.3 * 255 = 76.5, taken as 77. */
  const BrushFillAlpha: Byte := 77

  /** Alpha the brush path paints at pixel (col, row). */
  function BrushAlpha(col: nat, row: nat, x: real, y: real): Byte
  {
    if InDisk(col, row, x, y) then BrushFillAlpha else 0
  }

  /** The buffer after `arc(x, y, BrushSize)` is filled with `destination-out`
      on a canvas `width` pixels wide. */
  function Erased(px: seq<Byte>, width: nat, x: real, y: real): (r: seq<Byte>)
    ensures |r| == |px|
  {
    if width == 0 then px
    else
      seq(|px|, i requires 0 <= i < |px| =>
        if i % 4 == 3 then DestinationOut(px[i], BrushAlpha((i / 4) % width, (i / 4) / width, x, y))
        else px[i])
  }

  /** Inside the brush disk alpha falls to 70% of what it was (a
      `destination-out` of the 30% brush fill), outside it stays, no alpha
      goes up and no colour byte is touched. */
  lemma EraseEffect(px: seq<Byte>, width: nat, x: real, y: real)
    ensures AlphaNotRaised(px, Erased(px, width, x, y))
    ensures forall i :: 0 <= i < |px| && i % 4 != 3 ==> Erased(px, width, x, y)[i] == px[i]
    ensures width > 0 ==>
      forall p: nat :: 4 * p + 3 < |px| ==>
        Alpha(Erased(px, width, x, y), p) ==
          if InDisk(p % width, p / width, x, y) then DestinationOut(Alpha(px, p), BrushFillAlpha)
          else Alpha(px, p)
  {
  }

  /** One stroke over an opaque pixel leaves alpha 178, still above the
      cut-point; a second stroke takes it to 124, below it. So a pixel of the
      cover counts as scratched only once two strokes have covered it. */
  lemma TwoStrokesToClear()
    ensures DestinationOut(Opaque, BrushFillAlpha) == 178 >= AlphaCutoff
    ensures DestinationOut(DestinationOut(Opaque, BrushFillAlpha), BrushFillAlpha) == 124 < AlphaCutoff
  {
  }

  /** An erase never lowers the transparent count. */
  lemma EraseNeverLowersCount(px: seq<Byte>, width: nat, x: real, y: real)
    ensures TransparentCount(Erased(px, width, x, y)) >= TransparentCount(px)
  {
    EraseEffect(px, width, x, y);
    CountMonotone(px, Erased(px, width, x, y));
  }

  /** The buffer after an opaque `source-over` fill of the whole canvas:
      every alpha is 255 (the gradient colours are not modelled). */
  function Repainted(px: seq<Byte>): (r: seq<Byte>)
    ensures |r| == |px|
    ensures forall p: nat :: 4 * p + 3 < |px| ==> Alpha(r, p) == Opaque
  {
    seq(|px|, i requires 0 <= i < |px| => if i % 4 == 3 then Opaque else px[i])
  }

  /** After a repaint the scan counts nothing. */
  lemma RepaintedCountsZero(px: seq<Byte>)
    ensures TransparentCount(Repainted(px)) == 0
  {
    CountFirstOpaque(Repainted(px), Steps(|px|));
  }

  /** The buffer after `clearRect` over the whole canvas: transparent black. */
  function Cleared(n: nat): (r: seq<Byte>)
    ensures |r| == n
    ensures forall p: nat :: 4 * p + 3 < n ==> Alpha(r, p) == 0
  {
    seq(n, i => 0)
  }

  /** After a clear the scan counts every whole pixel. */
  lemma ClearedCountsAll(n: nat)
    ensures TransparentCount(Cleared(n)) == n / 4
  {
    CountFirstAllTransparent(Cleared(n), Steps(n));
  }
}
