/**
 * The mask refinement and compositing pipeline of the segmentation command:
 * a fresh background label grid, the external segmentation step, the collapse of
 * its four labels to a 0/255 mask, a 3x3 Gaussian feather, a binary threshold, and
 * the masked copy of the working image into a zero-filled result.
 */
module MaskPipeline {
  import opened Geometry
  import opened Raster

  // The four labels of the segmentation step.
  const GC_BGD: Byte := 0     // definite background
  const GC_FGD: Byte := 1     // definite foreground
  const GC_PR_BGD: Byte := 2  // probable background
  const GC_PR_FGD: Byte := 3  // probable foreground

  /** The fixed number of segmentation iterations. */
  const GrabCutIterations: nat := 5

  /** The threshold level and the value written above it. */
  const ThresholdLevel: Byte := 128
  const MaxValue: Byte := 255

  /** Every value of `m` is one of the four segmentation labels. */
  predicate IsLabelGrid(m: Mask) {
    forall i, j :: 0 <= i < |m| && 0 <= j < |m[i]| ==> m[i][j] <= GC_PR_FGD
  }

  /**
   * The external segmentation routine (`grabCut` initialised from a rectangle):
   * image, initial label grid, rectangle, iteration count to a new label grid.
   */
  type GrabCut = (Image, Mask, Rect, nat) -> Mask

  /** All that is known of the segmentation routine: it labels every pixel with one of the four labels. */
  ghost predicate IsSegmenter(grabCut: GrabCut) {
    forall img, m, r, n {:trigger grabCut(img, m, r, n)} :: SameSize(img, m) ==>
      var labels := grabCut(img, m, r, n);
      SameSize(img, labels) && IsLabelGrid(labels)
  }

  /** The label grid every segmentation starts from: the image's size, all definite background. */
  function InitialLabels(img: Image): (m: Mask)
    requires IsGrid(img)
    ensures SameSize(img, m)
    ensures forall i, j :: 0 <= i < Rows(img) && 0 <= j < Cols(img) ==> m[i][j] == GC_BGD
  {
    Filled(Rows(img), Cols(img), GC_BGD)
  }

  /** The labels kept by the cutout: definite and probable foreground. */
  predicate IsForeground(l: Byte) {
    l == GC_FGD || l == GC_PR_FGD
  }

  /** Stage 3: foreground labels become 255, every other value 0. */
  function Collapse(labels: Mask): (m: Mask)
    requires IsGrid(labels)
    ensures SameSize(labels, m) && IsBinary(m)
    ensures forall i, j :: 0 <= i < Rows(labels) && 0 <= j < Cols(labels) ==>
      (m[i][j] == MaxValue <==> IsForeground(labels[i][j]))
  {
    seq(Rows(labels), i requires 0 <= i < Rows(labels) =>
      seq(Cols(labels), j requires 0 <= j < Cols(labels) =>
        if IsForeground(labels[i][j]) then MaxValue else 0))
  }

  /**
   * The reflect-101 border rule (`gfedcb|abcdefgh|gfedcba`): the position one step
   * beyond either edge of a line of `n` values reads the value one step inside.
   */
  function Reflect101(p: int, n: nat): (q: nat)
    requires n > 0 && -1 <= p <= n
    ensures q < n
    ensures 0 <= p < n ==> q == p
    ensures n > 1 && p == -1 ==> q == 1
    ensures n > 1 && p == n ==> q == n - 2
  {
    if n == 1 then 0
    else if p < 0 then -p
    else if p >= n then 2 * n - 2 - p
    else p
  }

  /** The horizontal 1-2-1 pass of the 3x3 kernel at row `i`, column `j`. */
  function RowTap(m: Mask, i: nat, j: nat): (s: int)
    requires IsGrid(m) && i < Rows(m) && j < Cols(m)
    ensures 0 <= s <= 4 * 255
  {
    var w := Cols(m);
    m[i][Reflect101(j - 1, w)] as int + 2 * (m[i][j] as int) + m[i][Reflect101(j + 1, w)] as int
  }

  /** The full 1-2-1 by 1-2-1 weighted sum (weights total 16) at row `i`, column `j`. */
  function KernelSum(m: Mask, i: nat, j: nat): (s: int)
    requires IsGrid(m) && i < Rows(m) && j < Cols(m)
    ensures 0 <= s <= 16 * 255
  {
    var h := Rows(m);
    RowTap(m, Reflect101(i - 1, h), j) + 2 * RowTap(m, i, j) + RowTap(m, Reflect101(i + 1, h), j)
  }

  /**
   * Stage 4: the 3x3 Gaussian blur with sigma 0, whose kernel is 1-2-1 by 1-2-1
   * over 16, rounding the weighted sum half up to the nearest 8-bit value.
   */
  function Blur(m: Mask): (b: Mask)
    requires IsGrid(m)
    ensures SameSize(m, b)
    ensures forall i, j :: 0 <= i < Rows(m) && 0 <= j < Cols(m) ==> b[i][j] == (KernelSum(m, i, j) + 8) / 16
  {
    seq(Rows(m), i requires 0 <= i < Rows(m) =>
      seq(Cols(m), j requires 0 <= j < Cols(m) => (KernelSum(m, i, j) + 8) / 16))
  }

  /** Stage 5: the binary threshold, strictly above the level to 255, else 0. */
  function Threshold(m: Mask): (t: Mask)
    requires IsGrid(m)
    ensures SameSize(m, t) && IsBinary(t)
    ensures forall i, j :: 0 <= i < Rows(m) && 0 <= j < Cols(m) ==>
      (t[i][j] == MaxValue <==> m[i][j] > ThresholdLevel)
  {
    seq(Rows(m), i requires 0 <= i < Rows(m) =>
      seq(Cols(m), j requires 0 <= j < Cols(m) => if m[i][j] > ThresholdLevel then MaxValue else 0))
  }

  /** Stages 3 to 5: a label grid refined into a hard 0/255 mask of its size. */
  function Refine(labels: Mask): (m: Mask)
    requires IsGrid(labels)
    ensures SameSize(labels, m) && IsBinary(m)
  {
    Threshold(Blur(Collapse(labels)))
  }

  /**
   * `createMask`: segment the image inside the rectangle, starting from a fresh
   * all-background label grid, and refine the labels into a mask of the image's size.
   */
  function CreateMask(img: Image, rect: Rect, grabCut: GrabCut): (m: Mask)
    requires IsGrid(img) && IsSegmenter(grabCut)
    ensures SameSize(img, m) && IsBinary(m)
  {
    var labels := grabCut(img, InitialLabels(img), rect, GrabCutIterations);
    Refine(labels)
  }

  /**
   * Stages 1 and 2: whatever an earlier call produced, the segmentation input is
   * an all-background grid of the image's size, so any such grid gives the same mask.
   */
  lemma CreateMaskStartsFresh(img: Image, rect: Rect, grabCut: GrabCut, l: Mask)
    requires IsGrid(img) && IsSegmenter(grabCut)
    requires SameSize(img, l)
    requires forall i, j :: 0 <= i < Rows(img) && 0 <= j < Cols(img) ==> l[i][j] == GC_BGD
    ensures CreateMask(img, rect, grabCut) == Refine(grabCut(img, l, rect, GrabCutIterations))
  {
    var blank := InitialLabels(img);
    forall i | 0 <= i < Rows(img) ensures l[i] == blank[i] {
      assert |l[i]| == |blank[i]|;
    }
    assert l == blank;
  }

  /** `m` marks the foreground labels of `labels` with 1 and all others with 0. */
  function ForegroundIndicator(labels: Mask): (m: Mask)
    requires IsGrid(labels)
    ensures SameSize(labels, m)
    ensures forall i, j :: 0 <= i < Rows(labels) && 0 <= j < Cols(labels) ==>
      m[i][j] == if IsForeground(labels[i][j]) then 1 else 0
  {
    seq(Rows(labels), i requires 0 <= i < Rows(labels) =>
      seq(Cols(labels), j requires 0 <= j < Cols(labels) =>
        if IsForeground(labels[i][j]) then 1 else 0))
  }

  /**
   * The kernel weight (out of 16) of the foreground labels around row `i`,
   * column `j`: 4 for the pixel itself, 2 for each edge neighbour, 1 for each
   * corner neighbour, borders reflected.
   */
  function ForegroundWeight(labels: Mask, i: nat, j: nat): (k: int)
    requires IsGrid(labels) && i < Rows(labels) && j < Cols(labels)
  {
    KernelSum(ForegroundIndicator(labels), i, j)
  }

  /** The kernel is linear: a grid 255 times another has 255 times its weighted sums. */
  lemma KernelSumScales(a: Mask, b: Mask, i: nat, j: nat)
    requires SameSize(a, b) && i < Rows(a) && j < Cols(a)
    requires forall p, q :: 0 <= p < Rows(a) && 0 <= q < Cols(a) ==> b[p][q] as int == 255 * (a[p][q] as int)
    ensures KernelSum(b, i, j) == 255 * KernelSum(a, i, j)
  {
    var h, w := Rows(a), Cols(a);
    forall p | 0 <= p < h
      ensures RowTap(b, p, j) == 255 * RowTap(a, p, j)
    {
      var l, r := Reflect101(j - 1, w), Reflect101(j + 1, w);
      assert b[p][l] as int == 255 * (a[p][l] as int) && b[p][j] as int == 255 * (a[p][j] as int);
      assert b[p][r] as int == 255 * (a[p][r] as int);
    }
    var u, d := Reflect101(i - 1, h), Reflect101(i + 1, h);
    assert RowTap(b, u, j) == 255 * RowTap(a, u, j);
    assert RowTap(b, d, j) == 255 * RowTap(a, d, j);
    assert RowTap(b, i, j) == 255 * RowTap(a, i, j);
  }

  /**
   * What feathering then re-binarising does: a pixel of the refined mask is 255
   * exactly when the foreground carries at least 9 of the kernel's 16 weight units
   * around it (a weighted majority; exactly half, 8, is not enough).
   */
  lemma RefineIsWeightedMajority(labels: Mask, i: nat, j: nat)
    requires IsGrid(labels) && i < Rows(labels) && j < Cols(labels)
    ensures ForegroundWeight(labels, i, j) >= 0
    ensures Refine(labels)[i][j] == MaxValue <==> ForegroundWeight(labels, i, j) >= 9
  {
    var c := Collapse(labels);
    var ind := ForegroundIndicator(labels);
    KernelSumScales(ind, c, i, j);
    var k := KernelSum(ind, i, j);
    assert KernelSum(c, i, j) == 255 * k;
    assert 0 <= k <= 16;
    var b := Blur(c);
    assert b[i][j] == (255 * k + 8) / 16;
    if k >= 9 {
      assert 255 * k + 8 >= 2303;
    } else {
      assert 255 * k + 8 <= 2048;
    }
  }

  /** `(i, j)` is an interior pixel, so its 3x3 neighbourhood lies inside the grid. */
  predicate Interior<T>(g: Grid<T>, i: nat, j: nat) {
    IsGrid(g) && 0 < i < Rows(g) - 1 && 0 < j < Cols(g) - 1
  }

  /** The eight neighbours of interior pixel `(i, j)`, row by row. */
  function Ring<T>(g: Grid<T>, i: nat, j: nat): (ring: seq<T>)
    requires Interior(g, i, j)
    ensures |ring| == 8
  {
    [g[i-1][j-1], g[i-1][j], g[i-1][j+1],
     g[i][j-1],              g[i][j+1],
     g[i+1][j-1], g[i+1][j], g[i+1][j+1]]
  }

  /** The weight at an interior pixel, written out over its neighbourhood. */
  lemma InteriorWeight(labels: Mask, i: nat, j: nat)
    requires Interior(labels, i, j)
    ensures var f := Ring(ForegroundIndicator(labels), i, j);
      ForegroundWeight(labels, i, j) ==
        4 * ForegroundIndicator(labels)[i][j] +
        f[0] + 2 * f[1] + f[2] + 2 * f[3] + 2 * f[4] + f[5] + 2 * f[6] + f[7]
  {
  }

  /** Feathering leaves a flat interior neighbourhood as it is. */
  lemma BlurKeepsFlatRegions(m: Mask, i: nat, j: nat)
    requires Interior(m, i, j)
    requires forall v <- Ring(m, i, j) :: v == m[i][j]
    ensures Blur(m)[i][j] == m[i][j]
  {
    var ring := Ring(m, i, j);
    forall k | 0 <= k < 8 ensures ring[k] == m[i][j] {
      assert ring[k] in ring;
    }
    var v := m[i][j] as int;
    assert ring[0] == v && ring[1] == v && ring[2] == v && ring[3] == v;
    assert ring[4] == v && ring[5] == v && ring[6] == v && ring[7] == v;
    assert RowTap(m, i - 1, j) == 4 * v && RowTap(m, i, j) == 4 * v && RowTap(m, i + 1, j) == 4 * v;
    assert KernelSum(m, i, j) == 16 * v;
  }

  /** An interior foreground speck with an all-background ring is removed (weight at most 4). */
  lemma RefineRemovesSpecks(labels: Mask, i: nat, j: nat)
    requires Interior(labels, i, j)
    requires forall l <- Ring(labels, i, j) :: !IsForeground(l)
    ensures Refine(labels)[i][j] == 0
  {
    InteriorWeight(labels, i, j);
    var ring, f := Ring(labels, i, j), Ring(ForegroundIndicator(labels), i, j);
    forall k | 0 <= k < 8 ensures f[k] == 0 {
      assert ring[k] in ring;
    }
    RefineIsWeightedMajority(labels, i, j);
  }

  /** An interior background pinhole with an all-foreground ring is filled (weight at least 12). */
  lemma RefineFillsPinholes(labels: Mask, i: nat, j: nat)
    requires Interior(labels, i, j)
    requires forall l <- Ring(labels, i, j) :: IsForeground(l)
    ensures Refine(labels)[i][j] == MaxValue
  {
    InteriorWeight(labels, i, j);
    var ring, f := Ring(labels, i, j), Ring(ForegroundIndicator(labels), i, j);
    forall k | 0 <= k < 8 ensures f[k] == 1 {
      assert ring[k] in ring;
    }
    RefineIsWeightedMajority(labels, i, j);
  }

  /**
   * The masked copy `image.copyTo(result, mask)` into an empty result: the result
   * is allocated at the image's size and zero-filled, then receives the image's
   * pixel wherever the mask is non-zero.
   */
  function CopyTo(img: Image, mask: Mask): (r: Image)
    requires SameSize(img, mask)
    ensures SameSize(img, r)
    ensures forall i, j :: 0 <= i < Rows(img) && 0 <= j < Cols(img) ==>
      r[i][j] == if mask[i][j] != 0 then img[i][j] else Black
  {
    seq(Rows(img), i requires 0 <= i < Rows(img) =>
      seq(Cols(img), j requires 0 <= j < Cols(img) =>
        if mask[i][j] != 0 then img[i][j] else Black))
  }

  /** Under a 0/255 mask the cutout shows the image exactly where the mask is 255 and black where it is 0. */
  lemma CopyToSelects(img: Image, mask: Mask, i: nat, j: nat)
    requires SameSize(img, mask) && IsBinary(mask) && i < Rows(img) && j < Cols(img)
    ensures mask[i][j] == MaxValue ==> CopyTo(img, mask)[i][j] == img[i][j]
    ensures mask[i][j] == 0 ==> CopyTo(img, mask)[i][j] == Black
    ensures mask[i][j] == MaxValue || CopyTo(img, mask)[i][j] == Black
  {
  }

  /** Cutting out an already cut-out image with the same mask changes nothing. */
  lemma CopyToIdempotent(img: Image, mask: Mask)
    requires SameSize(img, mask)
    ensures SameSize(CopyTo(img, mask), mask)
    ensures CopyTo(CopyTo(img, mask), mask) == CopyTo(img, mask)
  {
    var once := CopyTo(img, mask);
    var twice := CopyTo(once, mask);
    assert |twice| == |once|;
    forall i | 0 <= i < |once| ensures twice[i] == once[i] {
      assert |twice[i]| == |once[i]|;
    }
  }

  /** An all-255 mask keeps the whole image; an all-0 mask keeps none of it. */
  lemma CopyToExtremes(img: Image)
    requires IsGrid(img)
    ensures CopyTo(img, Filled(Rows(img), Cols(img), MaxValue)) == img
    ensures CopyTo(img, Filled(Rows(img), Cols(img), 0)) == Filled(Rows(img), Cols(img), Black)
  {
    var all := CopyTo(img, Filled(Rows(img), Cols(img), MaxValue));
    forall i | 0 <= i < Rows(img) ensures all[i] == img[i] { }
    var none := CopyTo(img, Filled(Rows(img), Cols(img), 0));
    var black := Filled(Rows(img), Cols(img), Black);
    forall i | 0 <= i < Rows(img) ensures none[i] == black[i] { }
  }
}
