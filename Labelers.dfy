/**
 * Labeler: connected-component labelling of a binary image. Every
 * foreground pixel ends up with the index of its component, every
 * background pixel with -1, and the components are numbered from 0 by
 * decreasing size. The row-major label buffer of the source (entry i*n+j)
 * is held here as m rows of n entries.
 */
module Labelers {
  const INT_MAX: int := 0x7FFF_FFFF

  /** Which pixels are neighbours: the four edge neighbours, or also the four diagonal ones. */
  datatype Connectivity = FourConnected | EightConnected

  /** An m by n image: m rows of n entries each. */
  ghost predicate IsGrid<T>(g: seq<seq<T>>, m: int, n: int)
  {
    |g| == m && forall i :: 0 <= i < m ==> |g[i]| == n
  }

  /** (p, q) is a neighbour of (i, j) inside the m by n image. */
  predicate Adjacent(c: Connectivity, m: int, n: int, i: int, j: int, p: int, q: int)
  {
    0 <= p < m && 0 <= q < n && -1 <= p - i <= 1 && -1 <= q - j <= 1 && (p != i || q != j) &&
    (c == FourConnected ==> p == i || q == j)
  }

  lemma AdjacentSymmetric(c: Connectivity, m: int, n: int, i: int, j: int, p: int, q: int)
    requires 0 <= i < m && 0 <= j < n && Adjacent(c, m, n, i, j, p, q)
    ensures Adjacent(c, m, n, p, q, i, j) && (p != i || q != j)
  {
  }

  /**
   * The neighbours of (i, j) one by one, in the order the relabelling code
   * visits them: north, east, south, west, then the diagonals.
   */
  ghost predicate Around(c: Connectivity, i: int, j: int, p: int, q: int)
  {
    (p == i - 1 && q == j) || (p == i && q == j + 1) || (p == i + 1 && q == j) || (p == i && q == j - 1) ||
    (c == EightConnected &&
     ((p == i - 1 && q == j + 1) || (p == i + 1 && q == j + 1) || (p == i + 1 && q == j - 1) || (p == i - 1 && q == j - 1)))
  }

  /** (p, q) is a neighbour of (i, j) with the label v. */
  ghost predicate LabelledNeighbour(c: Connectivity, g: seq<seq<int>>, m: int, n: int, i: int, j: int, p: int, q: int, v: int)
  {
    Adjacent(c, m, n, i, j, p, q) && p < |g| && q < |g[p]| && g[p][q] == v && v >= 0
  }

  /**
   * One neighbour test of newLabel and relabel: when the neighbour (p, q)
   * is present and carries a label from 0 to labelIndex - 1, that label,
   * otherwise labelIndex. A label below bound stays witnessed by a
   * neighbour carrying it.
   */
  method Lower(c: Connectivity, g: seq<seq<int>>, m: int, n: int, i: int, j: int, present: bool, p: int, q: int,
               labelIndex: int, ghost bound: int, ghost wi: int, ghost wj: int)
    returns (r: int, ghost ri: int, ghost rj: int)
    requires present ==> Adjacent(c, m, n, i, j, p, q) && p < |g| && q < |g[p]|
    requires labelIndex < bound ==> LabelledNeighbour(c, g, m, n, i, j, wi, wj, labelIndex)
    ensures r <= labelIndex && (labelIndex >= 0 ==> r >= 0)
    ensures present && g[p][q] >= 0 ==> r <= g[p][q]
    ensures r < bound ==> LabelledNeighbour(c, g, m, n, i, j, ri, rj, r)
  {
    r, ri, rj := labelIndex, wi, wj;
    if present && g[p][q] >= 0 && g[p][q] < labelIndex {
      r, ri, rj := g[p][q], p, q;
    }
  }

  /** No foreground pixel (p, q) carries a label below v. */
  ghost predicate NoSmallerAt(b: seq<seq<bool>>, g: seq<seq<int>>, p: int, q: int, v: int)
  {
    0 <= p < |b| && 0 <= q < |b[p]| && p < |g| && q < |g[p]| && b[p][q] && g[p][q] >= 0 ==> v <= g[p][q]
  }

  /** No pixel (p, q) carries a label below v. */
  ghost predicate NoSmallerLabelAt(g: seq<seq<int>>, p: int, q: int, v: int)
  {
    0 <= p < |g| && 0 <= q < |g[p]| && g[p][q] >= 0 ==> v <= g[p][q]
  }

  /** Checking the eight neighbours one by one checks every labelled neighbour. */
  lemma LabelledNeighbourBound(c: Connectivity, g: seq<seq<int>>, m: int, n: int, i: int, j: int, v: int)
    requires IsGrid(g, m, n) && 0 <= i < m && 0 <= j < n
    requires NoSmallerLabelAt(g, i - 1, j, v) && NoSmallerLabelAt(g, i, j + 1, v)
    requires NoSmallerLabelAt(g, i + 1, j, v) && NoSmallerLabelAt(g, i, j - 1, v)
    requires c == EightConnected ==>
               NoSmallerLabelAt(g, i - 1, j + 1, v) && NoSmallerLabelAt(g, i + 1, j + 1, v) &&
               NoSmallerLabelAt(g, i + 1, j - 1, v) && NoSmallerLabelAt(g, i - 1, j - 1, v)
    ensures forall p, q :: Adjacent(c, m, n, i, j, p, q) && g[p][q] >= 0 ==> v <= g[p][q]
  {
    forall p, q | Adjacent(c, m, n, i, j, p, q) && g[p][q] >= 0
      ensures v <= g[p][q]
    {
      AdjacentCases(c, m, n, i, j, p, q);
      assert NoSmallerLabelAt(g, p, q, v);
    }
  }

  /** Checking the eight neighbours one by one checks every neighbour. */
  lemma NeighbourBound(c: Connectivity, b: seq<seq<bool>>, g: seq<seq<int>>, m: int, n: int, i: int, j: int, v: int)
    requires IsGrid(b, m, n) && IsGrid(g, m, n) && 0 <= i < m && 0 <= j < n
    requires NoSmallerAt(b, g, i - 1, j, v) && NoSmallerAt(b, g, i, j + 1, v)
    requires NoSmallerAt(b, g, i + 1, j, v) && NoSmallerAt(b, g, i, j - 1, v)
    requires c == EightConnected ==>
               NoSmallerAt(b, g, i - 1, j + 1, v) && NoSmallerAt(b, g, i + 1, j + 1, v) &&
               NoSmallerAt(b, g, i + 1, j - 1, v) && NoSmallerAt(b, g, i - 1, j - 1, v)
    ensures forall p, q :: Adjacent(c, m, n, i, j, p, q) && b[p][q] && g[p][q] >= 0 ==> v <= g[p][q]
  {
    forall p, q | Adjacent(c, m, n, i, j, p, q) && b[p][q] && g[p][q] >= 0
      ensures v <= g[p][q]
    {
      AdjacentCases(c, m, n, i, j, p, q);
      assert NoSmallerAt(b, g, p, q, v);
    }
  }

  lemma AdjacentCases(c: Connectivity, m: int, n: int, i: int, j: int, p: int, q: int)
    ensures Adjacent(c, m, n, i, j, p, q) <==> 0 <= p < m && 0 <= q < n && Around(c, i, j, p, q)
  {
  }

  /** The label v occurs somewhere in the image. */
  ghost predicate Occurs(g: seq<seq<int>>, v: int)
  {
    exists i, j :: 0 <= i < |g| && 0 <= j < |g[i]| && g[i][j] == v
  }

  /** Some pixel of the binary image is set. */
  ghost predicate Foreground(b: seq<seq<bool>>)
  {
    exists i, j :: 0 <= i < |b| && 0 <= j < |b[i]| && b[i][j]
  }

  /** The number of entries of the image equal to v. */
  function Count(g: seq<seq<int>>, v: int): nat
  {
    if |g| == 0 then 0 else Count(g[..|g| - 1], v) + RowCount(g[|g| - 1], v)
  }

  function RowCount(r: seq<int>, v: int): nat
  {
    if |r| == 0 then 0 else RowCount(r[..|r| - 1], v) + (if r[|r| - 1] == v then 1 else 0)
  }

  /** The sum of the labels of the foreground pixels: every relabelling lowers it. */
  function Weight(g: seq<seq<int>>): nat
  {
    if |g| == 0 then 0 else Weight(g[..|g| - 1]) + RowWeight(g[|g| - 1])
  }

  function RowWeight(r: seq<int>): nat
  {
    if |r| == 0 then 0 else RowWeight(r[..|r| - 1]) + Height(r[|r| - 1])
  }

  function Height(v: int): nat
  {
    if v < 0 then 0 else v
  }

  /**
   * The image labels exactly the pixels of b: background -1, foreground
   * a label from 0 to bound - 1.
   */
  ghost predicate Labelled(b: seq<seq<bool>>, g: seq<seq<int>>, m: int, n: int, bound: int)
  {
    IsGrid(b, m, n) && IsGrid(g, m, n) &&
    forall i, j :: 0 <= i < m && 0 <= j < n ==>
      if b[i][j] then 0 <= g[i][j] < bound else g[i][j] == -1
  }

  /** h has the labels of g or smaller ones, and the same foreground. */
  ghost predicate Lowered(g: seq<seq<int>>, h: seq<seq<int>>, m: int, n: int)
  {
    IsGrid(g, m, n) && IsGrid(h, m, n) &&
    forall i, j :: 0 <= i < m && 0 <= j < n ==>
      if g[i][j] >= 0 then 0 <= h[i][j] <= g[i][j] else h[i][j] == g[i][j]
  }

  /** No foreground neighbour of (i, j) has a smaller label. */
  ghost predicate SettledAt(c: Connectivity, g: seq<seq<int>>, m: int, n: int, i: int, j: int)
    requires IsGrid(g, m, n) && 0 <= i < m && 0 <= j < n
  {
    forall p, q :: Adjacent(c, m, n, i, j, p, q) && g[p][q] >= 0 ==> g[i][j] <= g[p][q]
  }

  /** Neighbouring foreground pixels carry the same label. */
  ghost predicate Stable(c: Connectivity, g: seq<seq<int>>, m: int, n: int)
    requires IsGrid(g, m, n)
  {
    forall i, j, p, q ::
      (0 <= i < m && 0 <= j < n && Adjacent(c, m, n, i, j, p, q) && g[i][j] >= 0 && g[p][q] >= 0) ==>
      g[i][j] == g[p][q]
  }

  /** A walk through foreground pixels of b, each step to a neighbour. */
  ghost predicate Path(c: Connectivity, b: seq<seq<bool>>, m: int, n: int, path: seq<(int, int)>)
  {
    IsGrid(b, m, n) &&
    (forall t :: 0 <= t < |path| ==> 0 <= path[t].0 < m && 0 <= path[t].1 < n && b[path[t].0][path[t].1]) &&
    forall t :: 0 <= t < |path| - 1 ==> Adjacent(c, m, n, path[t].0, path[t].1, path[t + 1].0, path[t + 1].1)
  }

  /** (i, j) and (p, q) lie in the same component of the foreground of b. */
  ghost predicate Connected(c: Connectivity, b: seq<seq<bool>>, m: int, n: int, i: int, j: int, p: int, q: int)
  {
    exists path :: Path(c, b, m, n, path) && |path| > 0 && path[0] == (i, j) && path[|path| - 1] == (p, q)
  }

  /** Pixels that share a label lie in the same component of b. */
  ghost predicate SameLabelConnected(c: Connectivity, b: seq<seq<bool>>, g: seq<seq<int>>, m: int, n: int)
  {
    IsGrid(g, m, n) &&
    forall i, j, p, q {:trigger Connected(c, b, m, n, i, j, p, q)} ::
      0 <= i < m && 0 <= j < n && 0 <= p < m && 0 <= q < n && g[i][j] >= 0 && g[i][j] == g[p][q] ==>
      Connected(c, b, m, n, i, j, p, q)
  }

  /** Every entry equal to from replaced by to. */
  ghost function ReplaceAll(g: seq<seq<int>>, from: int, to: int): (h: seq<seq<int>>)
    ensures |h| == |g| && forall i :: 0 <= i < |g| ==> |h[i]| == |g[i]|
  {
    seq(|g|, i requires 0 <= i < |g| => seq(|g[i]|, j requires 0 <= j < |g[i]| => if g[i][j] == from then to else g[i][j]))
  }

  /** Every entry at least amount lowered by amount. */
  ghost function ShiftDown(g: seq<seq<int>>, amount: int): (h: seq<seq<int>>)
    ensures |h| == |g| && forall i :: 0 <= i < |g| ==> |h[i]| == |g[i]|
  {
    seq(|g|, i requires 0 <= i < |g| => seq(|g[i]|, j requires 0 <= j < |g[i]| => if g[i][j] >= amount then g[i][j] - amount else g[i][j]))
  }

  /**
   * The neighbour scan of newLabel: the smallest label of a labelled
   * foreground neighbour of (i, j) below count, or count.
   */
  method NeighbourMinimum(connectivity: Connectivity, img: seq<seq<int>>, m: int, n: int, count: int,
                          binaryImage: seq<seq<bool>>, i: int, j: int)
    returns (labelIndex: int, ghost wi: int, ghost wj: int)
    requires IsGrid(img, m, n) && IsGrid(binaryImage, m, n) && 0 <= i < m && 0 <= j < n && 0 <= count
    ensures 0 <= labelIndex <= count
    ensures forall p, q :: Adjacent(connectivity, m, n, i, j, p, q) && binaryImage[p][q] && img[p][q] >= 0 ==>
      labelIndex <= img[p][q]
    ensures labelIndex < count ==> Adjacent(connectivity, m, n, i, j, wi, wj) && img[wi][wj] == labelIndex
  {
    labelIndex, wi, wj := NeighbourSides(connectivity, img, m, n, binaryImage, i, j, count, count, i, j);
    labelIndex, wi, wj := NeighbourCorners(connectivity, img, m, n, binaryImage, i, j, labelIndex, count, wi, wj);
    NeighbourBound(connectivity, binaryImage, img, m, n, i, j, labelIndex);
  }

  /** The north, east, south and west tests of the newLabel scan. */
  method NeighbourSides(connectivity: Connectivity, img: seq<seq<int>>, m: int, n: int, binaryImage: seq<seq<bool>>,
                        i: int, j: int, labelIndex: int, ghost bound: int, ghost wi: int, ghost wj: int)
    returns (r: int, ghost ri: int, ghost rj: int)
    requires IsGrid(img, m, n) && IsGrid(binaryImage, m, n) && 0 <= i < m && 0 <= j < n
    requires labelIndex < bound ==> LabelledNeighbour(connectivity, img, m, n, i, j, wi, wj, labelIndex)
    ensures r <= labelIndex && (labelIndex >= 0 ==> r >= 0)
    ensures NoSmallerAt(binaryImage, img, i - 1, j, r) && NoSmallerAt(binaryImage, img, i, j + 1, r)
    ensures NoSmallerAt(binaryImage, img, i + 1, j, r) && NoSmallerAt(binaryImage, img, i, j - 1, r)
    ensures r < bound ==> LabelledNeighbour(connectivity, img, m, n, i, j, ri, rj, r)
  {
    var maxRowIndex, maxColIndex := m - 1, n - 1;
    var north := if i > 0 then binaryImage[i - 1][j] else false;
    var east := if j < maxColIndex then binaryImage[i][j + 1] else false;
    var south := if i < maxRowIndex then binaryImage[i + 1][j] else false;
    var west := if j > 0 then binaryImage[i][j - 1] else false;
    r, ri, rj := Lower(connectivity, img, m, n, i, j, north, i - 1, j, labelIndex, bound, wi, wj);
    r, ri, rj := Lower(connectivity, img, m, n, i, j, east, i, j + 1, r, bound, ri, rj);
    r, ri, rj := Lower(connectivity, img, m, n, i, j, south, i + 1, j, r, bound, ri, rj);
    r, ri, rj := Lower(connectivity, img, m, n, i, j, west, i, j - 1, r, bound, ri, rj);
  }

  /** The four diagonal tests of the newLabel scan, made only under 8-connectivity. */
  method NeighbourCorners(connectivity: Connectivity, img: seq<seq<int>>, m: int, n: int, binaryImage: seq<seq<bool>>,
                          i: int, j: int, labelIndex: int, ghost bound: int, ghost wi: int, ghost wj: int)
    returns (r: int, ghost ri: int, ghost rj: int)
    requires IsGrid(img, m, n) && IsGrid(binaryImage, m, n) && 0 <= i < m && 0 <= j < n
    requires labelIndex < bound ==> LabelledNeighbour(connectivity, img, m, n, i, j, wi, wj, labelIndex)
    ensures r <= labelIndex && (labelIndex >= 0 ==> r >= 0)
    ensures connectivity == EightConnected ==>
              NoSmallerAt(binaryImage, img, i - 1, j + 1, r) && NoSmallerAt(binaryImage, img, i + 1, j + 1, r) &&
              NoSmallerAt(binaryImage, img, i + 1, j - 1, r) && NoSmallerAt(binaryImage, img, i - 1, j - 1, r)
    ensures r < bound ==> LabelledNeighbour(connectivity, img, m, n, i, j, ri, rj, r)
  {
    var maxRowIndex, maxColIndex := m - 1, n - 1;
    var eight := connectivity == EightConnected;
    var northeast := if eight && i > 0 && j < maxColIndex then binaryImage[i - 1][j + 1] else false;
    var southeast := if eight && i < maxRowIndex && j < maxColIndex then binaryImage[i + 1][j + 1] else false;
    var southwest := if eight && i < maxRowIndex && j > 0 then binaryImage[i + 1][j - 1] else false;
    var northwest := if eight && i > 0 && j > 0 then binaryImage[i - 1][j - 1] else false;
    r, ri, rj := Lower(connectivity, img, m, n, i, j, northeast, i - 1, j + 1, labelIndex, bound, wi, wj);
    r, ri, rj := Lower(connectivity, img, m, n, i, j, southeast, i + 1, j + 1, r, bound, ri, rj);
    r, ri, rj := Lower(connectivity, img, m, n, i, j, southwest, i + 1, j - 1, r, bound, ri, rj);
    r, ri, rj := Lower(connectivity, img, m, n, i, j, northwest, i - 1, j - 1, r, bound, ri, rj);
  }

  /**
   * The neighbour scan of relabel: the smallest label of a labelled
   * neighbour of (i, j) when it is below the label of (i, j), or the
   * label of (i, j).
   */
  method LabelledMinimum(connectivity: Connectivity, img: seq<seq<int>>, m: int, n: int, i: int, j: int)
    returns (labelIndex: int, ghost wi: int, ghost wj: int)
    requires IsGrid(img, m, n) && 0 <= i < m && 0 <= j < n
    ensures labelIndex <= img[i][j] && (labelIndex >= 0 <==> img[i][j] >= 0)
    ensures forall p, q :: Adjacent(connectivity, m, n, i, j, p, q) && img[p][q] >= 0 ==> labelIndex <= img[p][q]
    ensures labelIndex < img[i][j] ==> Adjacent(connectivity, m, n, i, j, wi, wj) && 0 <= img[wi][wj] == labelIndex
  {
    var own := img[i][j];
    labelIndex, wi, wj := LabelledSides(connectivity, img, m, n, i, j, own, own, i, j);
    labelIndex, wi, wj := LabelledCorners(connectivity, img, m, n, i, j, labelIndex, own, wi, wj);
    LabelledNeighbourBound(connectivity, img, m, n, i, j, labelIndex);
  }

  /** The north, east, south and west tests of the relabel scan. */
  method LabelledSides(connectivity: Connectivity, img: seq<seq<int>>, m: int, n: int, i: int, j: int,
                   labelIndex: int, ghost bound: int, ghost wi: int, ghost wj: int)
    returns (r: int, ghost ri: int, ghost rj: int)
    requires IsGrid(img, m, n) && 0 <= i < m && 0 <= j < n
    requires labelIndex < bound ==> LabelledNeighbour(connectivity, img, m, n, i, j, wi, wj, labelIndex)
    ensures r <= labelIndex && (labelIndex >= 0 ==> r >= 0)
    ensures NoSmallerLabelAt(img, i - 1, j, r) && NoSmallerLabelAt(img, i, j + 1, r)
    ensures NoSmallerLabelAt(img, i + 1, j, r) && NoSmallerLabelAt(img, i, j - 1, r)
    ensures r < bound ==> LabelledNeighbour(connectivity, img, m, n, i, j, ri, rj, r)
  {
    var maxRowIndex, maxColIndex := m - 1, n - 1;
    var north := i > 0 && img[i - 1][j] >= 0;
    var east := j < maxColIndex && img[i][j + 1] >= 0;
    var south := i < maxRowIndex && img[i + 1][j] >= 0;
    var west := j > 0 && img[i][j - 1] >= 0;
    r, ri, rj := Lower(connectivity, img, m, n, i, j, north, i - 1, j, labelIndex, bound, wi, wj);
    r, ri, rj := Lower(connectivity, img, m, n, i, j, east, i, j + 1, r, bound, ri, rj);
    r, ri, rj := Lower(connectivity, img, m, n, i, j, south, i + 1, j, r, bound, ri, rj);
    r, ri, rj := Lower(connectivity, img, m, n, i, j, west, i, j - 1, r, bound, ri, rj);
  }

  /** The four diagonal tests of the relabel scan, made only under 8-connectivity. */
  method LabelledCorners(connectivity: Connectivity, img: seq<seq<int>>, m: int, n: int, i: int, j: int,
                     labelIndex: int, ghost bound: int, ghost wi: int, ghost wj: int)
    returns (r: int, ghost ri: int, ghost rj: int)
    requires IsGrid(img, m, n) && 0 <= i < m && 0 <= j < n
    requires labelIndex < bound ==> LabelledNeighbour(connectivity, img, m, n, i, j, wi, wj, labelIndex)
    ensures r <= labelIndex && (labelIndex >= 0 ==> r >= 0)
    ensures connectivity == EightConnected ==>
              NoSmallerLabelAt(img, i - 1, j + 1, r) && NoSmallerLabelAt(img, i + 1, j + 1, r) &&
              NoSmallerLabelAt(img, i + 1, j - 1, r) && NoSmallerLabelAt(img, i - 1, j - 1, r)
    ensures r < bound ==> LabelledNeighbour(connectivity, img, m, n, i, j, ri, rj, r)
  {
    var maxRowIndex, maxColIndex := m - 1, n - 1;
    var eight := connectivity == EightConnected;
    var northeast := eight && i > 0 && j < maxColIndex && img[i - 1][j + 1] >= 0;
    var southeast := eight && i < maxRowIndex && j < maxColIndex && img[i + 1][j + 1] >= 0;
    var southwest := eight && i < maxRowIndex && j > 0 && img[i + 1][j - 1] >= 0;
    var northwest := eight && i > 0 && j > 0 && img[i - 1][j - 1] >= 0;
    r, ri, rj := Lower(connectivity, img, m, n, i, j, northeast, i - 1, j + 1, labelIndex, bound, wi, wj);
    r, ri, rj := Lower(connectivity, img, m, n, i, j, southeast, i + 1, j + 1, r, bound, ri, rj);
    r, ri, rj := Lower(connectivity, img, m, n, i, j, southwest, i + 1, j - 1, r, bound, ri, rj);
    r, ri, rj := Lower(connectivity, img, m, n, i, j, northwest, i - 1, j - 1, r, bound, ri, rj);
  }

  class Labeler {
    var connectivity: Connectivity
    var m: int
    var n: int
    var labelImage: seq<seq<int>>
    var labelCount: int

    ghost predicate Valid()
      reads this
    {
      0 <= m && 0 <= n && IsGrid(labelImage, m, n)
    }

    /** Labeler(connectivity): an empty labelling. */
    constructor (connectivity: Connectivity)
      ensures Valid() && this.connectivity == connectivity
      ensures m == 0 && n == 0 && labelImage == [] && labelCount == 0
    {
      this.connectivity := connectivity;
      m, n := 0, 0;
      labelImage := [];
      labelCount := 0;
    }

    /**
     * label(binaryImage, m, n): labels the components of the m by n
     * image. Background pixels get -1; the foreground labels run from 0
     * to labelCount - 1 and each of them is used; neighbouring foreground
     * pixels share their label; and a smaller label never has fewer
     * pixels than a larger one. The byte size of the buffer is computed
     * in int, so m * n must fit.
     */
    method Label(binaryImage: seq<seq<bool>>, m: int, n: int)
      requires 0 <= m && 0 <= n && m * n <= INT_MAX && IsGrid(binaryImage, m, n)
      modifies this
      ensures Valid() && this.m == m && this.n == n && connectivity == old(connectivity)
      ensures Labelled(binaryImage, labelImage, m, n, labelCount)
      ensures forall v :: 0 <= v < labelCount ==> Occurs(labelImage, v)
      ensures labelCount == 0 <==> !Foreground(binaryImage)
      ensures forall i, j, p, q ::
                (0 <= i < m && 0 <= j < n && Adjacent(connectivity, m, n, i, j, p, q) && binaryImage[i][j] && binaryImage[p][q]) ==>
                labelImage[i][j] == labelImage[p][q]
      ensures forall i, j, p, q :: 0 <= i < m && 0 <= j < n && 0 <= p < m && 0 <= q < n && binaryImage[i][j] && binaryImage[p][q] ==>
                (labelImage[i][j] == labelImage[p][q] <==> Connected(connectivity, binaryImage, m, n, i, j, p, q))
      ensures forall v :: 0 <= v < labelCount - 1 ==> Count(labelImage, v) >= Count(labelImage, v + 1)
    {
      this.m, this.n := m, n;
      labelImage := seq(m, _ => seq(n, _ => -1));
      var hasComponents := FirstPass(binaryImage);
      labelCount := 0;
      if hasComponents {
        Settle(binaryImage);
        var k := CompactLabels(binaryImage);
        labelCount := k;
        ForegroundCounted(binaryImage, labelImage, m, n, labelCount);
      } else {
        NoForeground(binaryImage, labelImage, m, n);
        assert Stable(connectivity, labelImage, m, n);
      }
      ghost var unsorted := labelImage;
      SortLabels(binaryImage);
      StableConnected(connectivity, binaryImage, labelImage, m, n, labelCount);
      PatternConnected(connectivity, binaryImage, unsorted, labelImage, m, n, labelCount);
      LabelsAreComponents(connectivity, binaryImage, labelImage, m, n, labelCount);
    }

    /**
     * The do-while loop of label: forward and backward passes until
     * neither changes a label. Afterwards neighbouring foreground pixels
     * share their label.
     */
    method Settle(ghost binaryImage: seq<seq<bool>>)
      requires Valid() && Labelled(binaryImage, labelImage, m, n, INT_MAX)
      requires SameLabelConnected(connectivity, binaryImage, labelImage, m, n)
      modifies this
      ensures Valid() && m == old(m) && n == old(n) && connectivity == old(connectivity)
      ensures labelCount == old(labelCount)
      ensures Labelled(binaryImage, labelImage, m, n, INT_MAX)
      ensures SameLabelConnected(connectivity, binaryImage, labelImage, m, n)
      ensures Stable(connectivity, labelImage, m, n)
    {
      while true
        invariant Valid() && m == old(m) && n == old(n) && connectivity == old(connectivity)
        invariant labelCount == old(labelCount)
        invariant Labelled(binaryImage, labelImage, m, n, INT_MAX)
        invariant SameLabelConnected(connectivity, binaryImage, labelImage, m, n)
        decreases Weight(labelImage)
      {
        ghost var before := labelImage;
        var forward := PassForward(binaryImage);
        LoweredLabelled(binaryImage, before, labelImage, m, n, INT_MAX);
        ghost var middle := labelImage;
        var backward := PassBackward(binaryImage);
        LoweredLabelled(binaryImage, middle, labelImage, m, n, INT_MAX);
        if !(forward || backward) {
          break;
        }
      }
      SettledStable(connectivity, labelImage, m, n);
    }

    /**
     * The renumbering in label: the labels still in use, taken in
     * increasing order, are renamed 0, 1, 2, ...; returns how many there
     * are, which the source stores plus one (see LabelCountAsWritten).
     */
    method CompactLabels(ghost binaryImage: seq<seq<bool>>) returns (k: int)
      requires Valid() && Labelled(binaryImage, labelImage, m, n, INT_MAX)
      requires Stable(connectivity, labelImage, m, n)
      requires SameLabelConnected(connectivity, binaryImage, labelImage, m, n)
      modifies this
      ensures Valid() && m == old(m) && n == old(n) && connectivity == old(connectivity)
      ensures labelCount == old(labelCount)
      ensures 0 <= k && Labelled(binaryImage, labelImage, m, n, k)
      ensures SameLabelConnected(connectivity, binaryImage, labelImage, m, n)
      ensures forall v :: 0 <= v < k ==> Occurs(labelImage, v)
      ensures Stable(connectivity, labelImage, m, n)
    {
      k := 0;
      var l := -1;
      while true
        invariant Valid() && m == old(m) && n == old(n) && connectivity == old(connectivity)
        invariant labelCount == old(labelCount)
        invariant -1 <= l < INT_MAX && 0 <= k <= l + 1
        invariant Labelled(binaryImage, labelImage, m, n, INT_MAX)
        invariant forall i, j :: 0 <= i < m && 0 <= j < n && labelImage[i][j] >= 0 ==>
          labelImage[i][j] < k || labelImage[i][j] > l
        invariant forall v :: 0 <= v < k ==> Occurs(labelImage, v)
        invariant Stable(connectivity, labelImage, m, n)
        invariant SameLabelConnected(connectivity, binaryImage, labelImage, m, n)
        decreases INT_MAX - l
      {
        ghost var before := labelImage;
        var previous := l;
        l := NextLabel(l);
        if l == INT_MAX {
          break;
        }
        if k != l {
          Replace(l, k);
          ReplaceFacts(connectivity, before, m, n, l, k);
          assert forall p, q :: 0 <= p < m && 0 <= q < n ==> before[p][q] != k;
          RenameConnected(connectivity, binaryImage, before, m, n, l, k);
          forall v | 0 <= v < k
            ensures Occurs(labelImage, v)
          {
            ReplaceOccurs(before, l, k, v);
          }
        }
        k := k + 1;
      }
    }

    /**
     * firstPass(binaryImage): visits the pixels in row-major order and
     * gives every foreground pixel the smallest label among its already
     * labelled foreground neighbours, or a fresh one; returns whether
     * there is a foreground pixel at all.
     */
    method FirstPass(binaryImage: seq<seq<bool>>) returns (changed: bool)
      requires Valid() && IsGrid(binaryImage, m, n) && m * n <= INT_MAX
      requires forall i, j :: 0 <= i < m && 0 <= j < n ==> labelImage[i][j] == -1
      modifies this
      ensures Valid() && m == old(m) && n == old(n) && connectivity == old(connectivity)
      ensures Labelled(binaryImage, labelImage, m, n, INT_MAX)
      ensures SameLabelConnected(connectivity, binaryImage, labelImage, m, n)
      ensures changed <==> Foreground(binaryImage)
    {
      var count := 0;
      changed := false;
      ghost var fi, fj := 0, 0;
      var i := 0;
      while i < m
        invariant 0 <= i <= m && Valid() && m == old(m) && n == old(n) && connectivity == old(connectivity)
        invariant 0 <= count <= i * n
        invariant FirstPassState(binaryImage, labelImage, m, n, count, i, 0)
        invariant SameLabelConnected(connectivity, binaryImage, labelImage, m, n)
        invariant changed ==> 0 <= fi < m && 0 <= fj < n && binaryImage[fi][fj]
        invariant !changed ==> forall p, q :: 0 <= p < i && 0 <= q < n ==> !binaryImage[p][q]
      {
        var found;
        ghost var rj;
        count, found, rj := FirstPassRow(binaryImage, i, count);
        if found {
          changed := true;
          fi, fj := i, rj;
        }
        assert (i + 1) * n == i * n + n;
        i := i + 1;
      }
      FirstPassDone(binaryImage, labelImage, m, n, count);
    }

    /**
     * The inner loop of firstPass: row i from left to right; returns the
     * new label count, and whether the row has a foreground pixel, with
     * one of them.
     */
    method FirstPassRow(binaryImage: seq<seq<bool>>, i: int, count: int) returns (newCount: int, found: bool, ghost fj: int)
      requires Valid() && IsGrid(binaryImage, m, n) && 0 <= i < m && 0 <= count
      requires FirstPassState(binaryImage, labelImage, m, n, count, i, 0)
      requires SameLabelConnected(connectivity, binaryImage, labelImage, m, n)
      modifies this
      ensures Valid() && m == old(m) && n == old(n) && connectivity == old(connectivity)
      ensures count <= newCount <= count + n
      ensures FirstPassState(binaryImage, labelImage, m, n, newCount, i + 1, 0)
      ensures SameLabelConnected(connectivity, binaryImage, labelImage, m, n)
      ensures found ==> 0 <= fj < n && binaryImage[i][fj]
      ensures !found ==> forall q :: 0 <= q < n ==> !binaryImage[i][q]
    {
      newCount, found, fj := count, false, 0;
      var j := 0;
      while j < n
        invariant 0 <= j <= n && Valid() && m == old(m) && n == old(n) && connectivity == old(connectivity)
        invariant count <= newCount <= count + j
        invariant FirstPassState(binaryImage, labelImage, m, n, newCount, i, j)
        invariant SameLabelConnected(connectivity, binaryImage, labelImage, m, n)
        invariant found ==> 0 <= fj < n && binaryImage[i][fj]
        invariant !found ==> forall q :: 0 <= q < j ==> !binaryImage[i][q]
      {
        if binaryImage[i][j] {
          ghost var before := labelImage;
          ghost var oldCount := newCount;
          newCount := NewLabel(newCount, binaryImage, i, j);
          FirstPassStep(binaryImage, before, labelImage, m, n, oldCount, newCount, i, j);
          FirstPassConnected(connectivity, binaryImage, before, labelImage, m, n, oldCount, i, j);
          found, fj := true, j;
        }
        j := j + 1;
      }
    }

    /**
     * passForward(): relabels every foreground pixel in row-major order;
     * returns whether a label changed. Labels only go down; without a
     * change no foreground pixel has a neighbour with a smaller label.
     */
    method PassForward(ghost binaryImage: seq<seq<bool>>) returns (changed: bool)
      requires Valid() && Labelled(binaryImage, labelImage, m, n, INT_MAX)
      requires SameLabelConnected(connectivity, binaryImage, labelImage, m, n)
      modifies this
      ensures SameLabelConnected(connectivity, binaryImage, labelImage, m, n)
      ensures Valid() && m == old(m) && n == old(n) && connectivity == old(connectivity)
      ensures labelCount == old(labelCount)
      ensures Lowered(old(labelImage), labelImage, m, n)
      ensures Weight(labelImage) + (if changed then 1 else 0) <= Weight(old(labelImage))
      ensures !changed ==> labelImage == old(labelImage)
      ensures !changed ==> forall i, j :: 0 <= i < m && 0 <= j < n && labelImage[i][j] >= 0 ==>
                             SettledAt(connectivity, labelImage, m, n, i, j)
    {
      changed := false;
      LoweredReflexive(labelImage, m, n);
      var i := 0;
      while i < m
        invariant 0 <= i <= m && Valid() && m == old(m) && n == old(n) && connectivity == old(connectivity)
        invariant labelCount == old(labelCount)
        invariant Lowered(old(labelImage), labelImage, m, n)
        invariant SameLabelConnected(connectivity, binaryImage, labelImage, m, n)
        invariant Weight(labelImage) + (if changed then 1 else 0) <= Weight(old(labelImage))
        invariant !changed ==> labelImage == old(labelImage)
        invariant !changed ==> forall p, q :: 0 <= p < i && 0 <= q < n && labelImage[p][q] >= 0 ==>
                                 SettledAt(connectivity, labelImage, m, n, p, q)
      {
        ghost var before := labelImage;
        LoweredLabelled(binaryImage, old(labelImage), labelImage, m, n, INT_MAX);
        var r := ForwardRow(binaryImage, i);
        LoweredTransitive(old(labelImage), before, labelImage, m, n);
        changed := changed || r;
        i := i + 1;
      }
    }

    /** The inner loop of passForward: row i from left to right. */
    method ForwardRow(ghost binaryImage: seq<seq<bool>>, i: int) returns (changed: bool)
      requires Valid() && 0 <= i < m && Labelled(binaryImage, labelImage, m, n, INT_MAX)
      requires SameLabelConnected(connectivity, binaryImage, labelImage, m, n)
      modifies this
      ensures SameLabelConnected(connectivity, binaryImage, labelImage, m, n)
      ensures Valid() && m == old(m) && n == old(n) && connectivity == old(connectivity)
      ensures labelCount == old(labelCount)
      ensures Lowered(old(labelImage), labelImage, m, n)
      ensures Weight(labelImage) + (if changed then 1 else 0) <= Weight(old(labelImage))
      ensures !changed ==> labelImage == old(labelImage)
      ensures !changed ==> forall q :: 0 <= q < n && labelImage[i][q] >= 0 ==> SettledAt(connectivity, labelImage, m, n, i, q)
    {
      changed := false;
      LoweredReflexive(labelImage, m, n);
      var j := 0;
      while j < n
        invariant 0 <= j <= n && Valid() && m == old(m) && n == old(n) && connectivity == old(connectivity)
        invariant labelCount == old(labelCount)
        invariant Lowered(old(labelImage), labelImage, m, n)
        invariant SameLabelConnected(connectivity, binaryImage, labelImage, m, n)
        invariant Weight(labelImage) + (if changed then 1 else 0) <= Weight(old(labelImage))
        invariant !changed ==> labelImage == old(labelImage)
        invariant !changed ==> forall q :: 0 <= q < j && labelImage[i][q] >= 0 ==> SettledAt(connectivity, labelImage, m, n, i, q)
      {
        if labelImage[i][j] >= 0 {
          ghost var before := labelImage;
          var r := Relabel(i, j);
          RelabelConnected(connectivity, binaryImage, old(labelImage), before, labelImage, m, n, i, j);
          LoweredStep(old(labelImage), before, labelImage, m, n, i, j);
          changed := changed || r;
        }
        j := j + 1;
      }
    }

    /**
     * passBackward(): relabels every foreground pixel in reverse
     * row-major order; the same guarantees as passForward.
     */
    method PassBackward(ghost binaryImage: seq<seq<bool>>) returns (changed: bool)
      requires Valid() && Labelled(binaryImage, labelImage, m, n, INT_MAX)
      requires SameLabelConnected(connectivity, binaryImage, labelImage, m, n)
      modifies this
      ensures SameLabelConnected(connectivity, binaryImage, labelImage, m, n)
      ensures Valid() && m == old(m) && n == old(n) && connectivity == old(connectivity)
      ensures labelCount == old(labelCount)
      ensures Lowered(old(labelImage), labelImage, m, n)
      ensures Weight(labelImage) + (if changed then 1 else 0) <= Weight(old(labelImage))
      ensures !changed ==> labelImage == old(labelImage)
      ensures !changed ==> forall i, j :: 0 <= i < m && 0 <= j < n && labelImage[i][j] >= 0 ==>
                             SettledAt(connectivity, labelImage, m, n, i, j)
    {
      changed := false;
      LoweredReflexive(labelImage, m, n);
      var i := m - 1;
      while i >= 0
        invariant -1 <= i < m && Valid() && m == old(m) && n == old(n) && connectivity == old(connectivity)
        invariant labelCount == old(labelCount)
        invariant Lowered(old(labelImage), labelImage, m, n)
        invariant SameLabelConnected(connectivity, binaryImage, labelImage, m, n)
        invariant Weight(labelImage) + (if changed then 1 else 0) <= Weight(old(labelImage))
        invariant !changed ==> labelImage == old(labelImage)
        invariant !changed ==> forall p, q :: i < p < m && 0 <= q < n && labelImage[p][q] >= 0 ==>
                                 SettledAt(connectivity, labelImage, m, n, p, q)
      {
        ghost var before := labelImage;
        LoweredLabelled(binaryImage, old(labelImage), labelImage, m, n, INT_MAX);
        var r := BackwardRow(binaryImage, i);
        LoweredTransitive(old(labelImage), before, labelImage, m, n);
        changed := changed || r;
        i := i - 1;
      }
    }

    /** The inner loop of passBackward: row i from right to left. */
    method BackwardRow(ghost binaryImage: seq<seq<bool>>, i: int) returns (changed: bool)
      requires Valid() && 0 <= i < m && Labelled(binaryImage, labelImage, m, n, INT_MAX)
      requires SameLabelConnected(connectivity, binaryImage, labelImage, m, n)
      modifies this
      ensures SameLabelConnected(connectivity, binaryImage, labelImage, m, n)
      ensures Valid() && m == old(m) && n == old(n) && connectivity == old(connectivity)
      ensures labelCount == old(labelCount)
      ensures Lowered(old(labelImage), labelImage, m, n)
      ensures Weight(labelImage) + (if changed then 1 else 0) <= Weight(old(labelImage))
      ensures !changed ==> labelImage == old(labelImage)
      ensures !changed ==> forall q :: 0 <= q < n && labelImage[i][q] >= 0 ==> SettledAt(connectivity, labelImage, m, n, i, q)
    {
      changed := false;
      LoweredReflexive(labelImage, m, n);
      var j := n - 1;
      while j >= 0
        invariant -1 <= j < n && Valid() && m == old(m) && n == old(n) && connectivity == old(connectivity)
        invariant labelCount == old(labelCount)
        invariant Lowered(old(labelImage), labelImage, m, n)
        invariant SameLabelConnected(connectivity, binaryImage, labelImage, m, n)
        invariant Weight(labelImage) + (if changed then 1 else 0) <= Weight(old(labelImage))
        invariant !changed ==> labelImage == old(labelImage)
        invariant !changed ==> forall q :: j < q < n && labelImage[i][q] >= 0 ==> SettledAt(connectivity, labelImage, m, n, i, q)
      {
        if labelImage[i][j] >= 0 {
          ghost var before := labelImage;
          var r := Relabel(i, j);
          RelabelConnected(connectivity, binaryImage, old(labelImage), before, labelImage, m, n, i, j);
          LoweredStep(old(labelImage), before, labelImage, m, n, i, j);
          changed := changed || r;
        }
        j := j - 1;
      }
    }

    /**
     * newLabel(count, binaryImage, i, j): labels (i, j) with the smallest
     * label of its labelled foreground neighbours, or with count when
     * there is none; returns count + 1 in that case and count otherwise.
     */
    method NewLabel(count: int, binaryImage: seq<seq<bool>>, i: int, j: int) returns (newCount: int)
      requires Valid() && IsGrid(binaryImage, m, n) && 0 <= i < m && 0 <= j < n && 0 <= count
      modifies this
      ensures Valid() && m == old(m) && n == old(n) && connectivity == old(connectivity)
      ensures labelCount == old(labelCount)
      ensures labelImage == old(labelImage)[i := old(labelImage)[i][j := labelImage[i][j]]]
      ensures 0 <= labelImage[i][j] <= count
      ensures newCount == if labelImage[i][j] == count then count + 1 else count
      ensures forall p, q :: Adjacent(connectivity, m, n, i, j, p, q) && binaryImage[p][q] && labelImage[p][q] >= 0 ==>
        labelImage[i][j] <= labelImage[p][q]
      ensures labelImage[i][j] < count ==>
                exists p, q :: Adjacent(connectivity, m, n, i, j, p, q) && labelImage[p][q] == labelImage[i][j]
    {
      var img := labelImage;
      var labelIndex, wi, wj := NeighbourMinimum(connectivity, img, m, n, count, binaryImage, i, j);
      labelImage := img[i := img[i][j := labelIndex]];
      forall p, q | Adjacent(connectivity, m, n, i, j, p, q)
        ensures labelImage[p][q] == img[p][q]
      {
        AdjacentSymmetric(connectivity, m, n, i, j, p, q);
      }
      if labelIndex < count {
        assert Adjacent(connectivity, m, n, i, j, wi, wj) && labelImage[wi][wj] == labelIndex;
      }
      if labelIndex == count {
        return count + 1;
      }
      return count;
    }

    /**
     * relabel(i, j): lowers the label of (i, j) to the smallest label of
     * its foreground neighbours when that is smaller; returns whether the
     * label changed. Nothing else changes.
     */
    method Relabel(i: int, j: int) returns (changed: bool)
      requires Valid() && 0 <= i < m && 0 <= j < n
      modifies this
      ensures Valid() && m == old(m) && n == old(n) && connectivity == old(connectivity)
      ensures labelCount == old(labelCount)
      ensures labelImage == old(labelImage)[i := old(labelImage)[i][j := labelImage[i][j]]]
      ensures labelImage[i][j] <= old(labelImage[i][j])
      ensures labelImage[i][j] >= 0 <==> old(labelImage[i][j]) >= 0
      ensures changed <==> labelImage[i][j] < old(labelImage[i][j])
      ensures !changed ==> labelImage == old(labelImage)
      ensures Weight(labelImage) + (if changed then 1 else 0) <= Weight(old(labelImage))
      ensures forall p, q :: Adjacent(connectivity, m, n, i, j, p, q) && labelImage[p][q] >= 0 ==>
        labelImage[i][j] <= labelImage[p][q]
      ensures changed ==> exists p, q :: Adjacent(connectivity, m, n, i, j, p, q) && labelImage[p][q] == labelImage[i][j]
    {
      var img := labelImage;
      var labelIndex, wi, wj := LabelledMinimum(connectivity, img, m, n, i, j);
      changed := labelIndex < img[i][j];
      forall p, q | Adjacent(connectivity, m, n, i, j, p, q)
        ensures img[i := img[i][j := labelIndex]][p][q] == img[p][q]
      {
        AdjacentSymmetric(connectivity, m, n, i, j, p, q);
      }
      if !changed {
        assert img[i][j := img[i][j]] == img[i];
        assert img[i := img[i][j := img[i][j]]] == img;
      }
      if changed {
        labelImage := img[i := img[i][j := labelIndex]];
        assert Adjacent(connectivity, m, n, i, j, wi, wj) && labelImage[wi][wj] == labelIndex == labelImage[i][j];
        WeightUpdate(img, i, j, labelIndex);
        assert Height(labelIndex) + 1 <= Height(img[i][j]);
      }
    }


    /**
     * nextLabel(l): the smallest label above l, or INT_MAX when there is
     * none below INT_MAX.
     */
    method NextLabel(labelIndex: int) returns (next: int)
      requires Valid()
      ensures next <= INT_MAX
      ensures next < INT_MAX ==> next > labelIndex && Occurs(labelImage, next)
      ensures forall i, j :: 0 <= i < m && 0 <= j < n && labelIndex < labelImage[i][j] < INT_MAX ==>
        next <= labelImage[i][j]
    {
      next := INT_MAX;
      ghost var wi, wj := 0, 0;
      var i := 0;
      while i < m
        invariant 0 <= i <= m && next <= INT_MAX
        invariant next < INT_MAX ==> next > labelIndex && 0 <= wi < m && 0 <= wj < n && labelImage[wi][wj] == next
        invariant forall p, q :: 0 <= p < i && 0 <= q < n && labelIndex < labelImage[p][q] < INT_MAX ==>
          next <= labelImage[p][q]
      {
        var j := 0;
        while j < n
          invariant 0 <= j <= n && next <= INT_MAX
          invariant next < INT_MAX ==> next > labelIndex && 0 <= wi < m && 0 <= wj < n && labelImage[wi][wj] == next
          invariant forall p, q ::
                      (0 <= p < m && 0 <= q < n && (p < i || (p == i && q < j)) && labelIndex < labelImage[p][q] < INT_MAX) ==>
                      next <= labelImage[p][q]
        {
          var currentLabelIndex := labelImage[i][j];
          if currentLabelIndex < next && currentLabelIndex > labelIndex {
            next, wi, wj := currentLabelIndex, i, j;
          }
          j := j + 1;
        }
        i := i + 1;
      }
    }

    /** get(binaryImage, labelIndex): marks exactly the pixels labelled labelIndex. */
    method Get(labelIndex: int) returns (binaryImage: seq<seq<bool>>)
      requires Valid()
      ensures IsGrid(binaryImage, m, n)
      ensures forall i, j :: 0 <= i < m && 0 <= j < n ==> (binaryImage[i][j] <==> labelImage[i][j] == labelIndex)
    {
      binaryImage := [];
      var i := 0;
      while i < m
        invariant 0 <= i <= m && |binaryImage| == i
        invariant forall p :: 0 <= p < i ==> |binaryImage[p]| == n
        invariant forall p, q :: 0 <= p < i && 0 <= q < n ==> (binaryImage[p][q] <==> labelImage[p][q] == labelIndex)
      {
        var row := [];
        var j := 0;
        while j < n
          invariant 0 <= j <= n && |row| == j
          invariant forall q :: 0 <= q < j ==> (row[q] <==> labelImage[i][q] == labelIndex)
        {
          row := row + [labelImage[i][j] == labelIndex];
          j := j + 1;
        }
        binaryImage := binaryImage + [row];
        i := i + 1;
      }
    }

    /** labelSize(labelIndex): the number of pixels labelled labelIndex. */
    method LabelSize(labelIndex: int) returns (count: nat)
      requires Valid()
      ensures count == Count(labelImage, labelIndex)
    {
      count := 0;
      var i := 0;
      while i < m
        invariant 0 <= i <= m
        invariant count == Count(labelImage[..i], labelIndex)
      {
        var j := 0;
        ghost var row := labelImage[i];
        while j < n
          invariant 0 <= j <= n
          invariant count == Count(labelImage[..i], labelIndex) + RowCount(row[..j], labelIndex)
        {
          assert row[..j + 1][..j] == row[..j];
          if labelImage[i][j] == labelIndex {
            count := count + 1;
          }
          j := j + 1;
        }
        assert row[..n] == row;
        assert labelImage[..i + 1][..i] == labelImage[..i];
        i := i + 1;
      }
      assert labelImage[..m] == labelImage;
    }

    /** The loop of label and of sortLabels that renames the label from to to. */
    method Replace(from: int, to: int)
      requires Valid()
      modifies this
      ensures Valid() && m == old(m) && n == old(n) && connectivity == old(connectivity)
      ensures labelCount == old(labelCount)
      ensures labelImage == ReplaceAll(old(labelImage), from, to)
    {
      ghost var g := labelImage;
      var i := 0;
      while i < m
        invariant 0 <= i <= m && IsGrid(labelImage, m, n) && IsGrid(g, m, n)
        invariant m == old(m) && n == old(n) && connectivity == old(connectivity) && labelCount == old(labelCount)
        invariant forall p :: 0 <= p < i ==> labelImage[p] == ReplaceAll(g, from, to)[p]
        invariant forall p :: i <= p < m ==> labelImage[p] == g[p]
      {
        var j := 0;
        while j < n
          invariant 0 <= j <= n && IsGrid(labelImage, m, n) && IsGrid(g, m, n)
          invariant m == old(m) && n == old(n) && connectivity == old(connectivity) && labelCount == old(labelCount)
          invariant forall p :: 0 <= p < i ==> labelImage[p] == ReplaceAll(g, from, to)[p]
          invariant forall p :: i < p < m ==> labelImage[p] == g[p]
          invariant forall q :: 0 <= q < j ==> labelImage[i][q] == ReplaceAll(g, from, to)[i][q]
          invariant forall q :: j <= q < n ==> labelImage[i][q] == g[i][q]
        {
          if labelImage[i][j] == from {
            labelImage := labelImage[i := labelImage[i][j := to]];
          }
          j := j + 1;
        }
        assert labelImage[i] == ReplaceAll(g, from, to)[i];
        i := i + 1;
      }
      assert labelImage == ReplaceAll(g, from, to);
    }

    /** The last loop of sortLabels: every label of at least amount lowered by amount. */
    method Unshift(amount: int)
      requires Valid()
      modifies this
      ensures Valid() && m == old(m) && n == old(n) && connectivity == old(connectivity)
      ensures labelCount == old(labelCount)
      ensures labelImage == ShiftDown(old(labelImage), amount)
    {
      ghost var g := labelImage;
      var i := 0;
      while i < m
        invariant 0 <= i <= m && IsGrid(labelImage, m, n) && IsGrid(g, m, n)
        invariant m == old(m) && n == old(n) && connectivity == old(connectivity) && labelCount == old(labelCount)
        invariant forall p :: 0 <= p < i ==> labelImage[p] == ShiftDown(g, amount)[p]
        invariant forall p :: i <= p < m ==> labelImage[p] == g[p]
      {
        var j := 0;
        while j < n
          invariant 0 <= j <= n && IsGrid(labelImage, m, n) && IsGrid(g, m, n)
          invariant m == old(m) && n == old(n) && connectivity == old(connectivity) && labelCount == old(labelCount)
          invariant forall p :: 0 <= p < i ==> labelImage[p] == ShiftDown(g, amount)[p]
          invariant forall p :: i < p < m ==> labelImage[p] == g[p]
          invariant forall q :: 0 <= q < j ==> labelImage[i][q] == ShiftDown(g, amount)[i][q]
          invariant forall q :: j <= q < n ==> labelImage[i][q] == g[i][q]
        {
          if labelImage[i][j] >= amount {
            labelImage := labelImage[i := labelImage[i][j := labelImage[i][j] - amount]];
          }
          j := j + 1;
        }
        assert labelImage[i] == ShiftDown(g, amount)[i];
        i := i + 1;
      }
      assert labelImage == ShiftDown(g, amount);
    }

    /**
     * sortLabels(): renames the labels 0 .. labelCount - 1, each of which
     * has a pixel, so that their pixel counts do not increase with the
     * label. The renaming is a bijection: two pixels share a label
     * afterwards exactly when they did before.
     */
    method SortLabels(ghost binaryImage: seq<seq<bool>>)
      requires Valid() && 0 <= labelCount && Labelled(binaryImage, labelImage, m, n, labelCount)
      requires forall v :: 0 <= v < labelCount ==> Occurs(labelImage, v)
      requires Stable(connectivity, labelImage, m, n)
      modifies this
      ensures Valid() && m == old(m) && n == old(n) && connectivity == old(connectivity)
      ensures labelCount == old(labelCount)
      ensures Labelled(binaryImage, labelImage, m, n, labelCount)
      ensures forall i, j, p, q :: 0 <= i < m && 0 <= j < n && 0 <= p < m && 0 <= q < n ==>
                (labelImage[i][j] == labelImage[p][q] <==> old(labelImage)[i][j] == old(labelImage)[p][q])
      ensures forall v :: 0 <= v < labelCount ==> Occurs(labelImage, v)
      ensures forall v :: 0 <= v < labelCount - 1 ==> Count(labelImage, v) >= Count(labelImage, v + 1)
      ensures Stable(connectivity, labelImage, m, n)
    {
      var labels := ComponentSizes();
      var sorted := SortBySize(labels);
      ghost var sizes := labels[labelCount..];
      SortedSizes(labelImage, labels, sorted, labelCount);
      var front := sorted[..labelCount];
      ghost var pos := InversePositions(sizes, front);
      Renumber(binaryImage, sizes, front, pos);
    }

    /**
     * The renaming part of sortLabels: label order[t].0 becomes t, for
     * order the labels with their sizes by descending size.
     */
    method Renumber(ghost binaryImage: seq<seq<bool>>, ghost sizes: seq<(int, int)>, order: seq<(int, int)>,
                    ghost pos: seq<int>)
      requires Valid() && 0 <= labelCount && Labelled(binaryImage, labelImage, m, n, labelCount)
      requires forall v :: 0 <= v < labelCount ==> Occurs(labelImage, v)
      requires Stable(connectivity, labelImage, m, n)
      requires |sizes| == labelCount && forall t :: 0 <= t < labelCount ==> sizes[t] == (t, Count(labelImage, t))
      requires Descending(order) && |order| == labelCount && |pos| == labelCount
      requires forall t :: 0 <= t < |order| ==> 0 <= order[t].0 < labelCount && order[t] == sizes[order[t].0]
      requires forall v :: 0 <= v < labelCount ==> 0 <= pos[v] < labelCount && order[pos[v]].0 == v
      requires forall t :: 0 <= t < |order| ==> pos[order[t].0] == t
      modifies this
      ensures Valid() && m == old(m) && n == old(n) && connectivity == old(connectivity)
      ensures labelCount == old(labelCount)
      ensures Labelled(binaryImage, labelImage, m, n, labelCount)
      ensures forall i, j, p, q :: 0 <= i < m && 0 <= j < n && 0 <= p < m && 0 <= q < n ==>
                (labelImage[i][j] == labelImage[p][q] <==> old(labelImage)[i][j] == old(labelImage)[p][q])
      ensures forall v :: 0 <= v < labelCount ==> Occurs(labelImage, v)
      ensures forall v :: 0 <= v < labelCount - 1 ==> Count(labelImage, v) >= Count(labelImage, v + 1)
      ensures Stable(connectivity, labelImage, m, n)
    {
      ghost var g1 := labelImage;
      RenameInOrder(order, pos);
      ghost var g2 := labelImage;
      Unshift(labelCount);
      SortedRenaming(binaryImage, g1, g2, labelImage, m, n, labelCount, sizes, order, pos);
      StableRenamed(connectivity, g1, labelImage, m, n);
    }

    /**
     * The renaming loop of sortLabels: the label order[l].0 becomes
     * l + labelCount, for every l below labelCount; pos inverts order.
     */
    method RenameInOrder(order: seq<(int, int)>, ghost pos: seq<int>)
      requires Valid() && 0 <= labelCount == |order| == |pos|
      requires forall i, j :: 0 <= i < m && 0 <= j < n ==> -1 <= labelImage[i][j] < labelCount
      requires forall t :: 0 <= t < |order| ==> 0 <= order[t].0 < labelCount
      requires forall v :: 0 <= v < labelCount ==> 0 <= pos[v] < labelCount && order[pos[v]].0 == v
      requires forall t :: 0 <= t < |order| ==> pos[order[t].0] == t
      modifies this
      ensures Valid() && m == old(m) && n == old(n) && connectivity == old(connectivity)
      ensures labelCount == old(labelCount)
      ensures forall i, j :: 0 <= i < m && 0 <= j < n ==>
                labelImage[i][j] == if old(labelImage)[i][j] >= 0 then pos[old(labelImage)[i][j]] + labelCount else old(labelImage)[i][j]
    {
      ghost var g1 := labelImage;
      var l := 0;
      while l < labelCount
        invariant 0 <= l <= labelCount
        invariant Valid() && m == old(m) && n == old(n) && connectivity == old(connectivity)
        invariant labelCount == old(labelCount) && g1 == old(labelImage)
        invariant forall i, j :: 0 <= i < m && 0 <= j < n ==>
                    labelImage[i][j] == if g1[i][j] >= 0 && pos[g1[i][j]] < l then pos[g1[i][j]] + labelCount else g1[i][j]
      {
        ghost var before := labelImage;
        Replace(order[l].0, l + labelCount);
        SortStep(g1, before, labelImage, m, n, labelCount, order, pos, l);
        l := l + 1;
      }
    }

    /**
     * The pairs sortLabels sorts: the labelCount pairs (0, 0) a vector of
     * that size starts with, then (k, pixel count of k) for every label k.
     */
    method ComponentSizes() returns (labels: seq<(int, int)>)
      requires Valid() && 0 <= labelCount
      ensures |labels| == 2 * labelCount
      ensures forall t :: 0 <= t < labelCount ==> labels[t] == (0, 0)
      ensures forall t :: 0 <= t < labelCount ==> labels[labelCount + t] == (t, Count(labelImage, t))
    {
      labels := seq(labelCount, _ => (0, 0));
      var k := 0;
      while k < labelCount
        invariant 0 <= k <= labelCount && |labels| == labelCount + k
        invariant forall t :: 0 <= t < labelCount ==> labels[t] == (0, 0)
        invariant forall t :: 0 <= t < k ==> labels[labelCount + t] == (t, Count(labelImage, t))
      {
        var size := LabelSize(k);
        labels := labels + [(k, size)];
        k := k + 1;
      }
    }
  }

  /** The loop state of firstPass before pixel (i, j). */
  ghost predicate FirstPassState(b: seq<seq<bool>>, g: seq<seq<int>>, m: int, n: int, count: int, i: int, j: int)
  {
    IsGrid(b, m, n) && IsGrid(g, m, n) &&
    forall p, q :: 0 <= p < m && 0 <= q < n ==>
      if p < i || (p == i && q < j) then
        (if b[p][q] then 0 <= g[p][q] < count else g[p][q] == -1)
      else g[p][q] == -1
  }

  lemma FirstPassStep(b: seq<seq<bool>>, g: seq<seq<int>>, h: seq<seq<int>>, m: int, n: int,
                      count: int, newCount: int, i: int, j: int)
    requires FirstPassState(b, g, m, n, count, i, j) && 0 <= i < m && 0 <= j < n && b[i][j] && IsGrid(h, m, n)
    requires h == g[i := g[i][j := h[i][j]]] && 0 <= h[i][j] < newCount && count <= newCount
    ensures FirstPassState(b, h, m, n, newCount, i, j + 1)
  {
  }

  /** A label given in the first pass is fresh or a neighbour's, so labels stay within components. */
  lemma FirstPassConnected(c: Connectivity, b: seq<seq<bool>>, g: seq<seq<int>>, h: seq<seq<int>>, m: int, n: int,
                           count: int, i: int, j: int)
    requires FirstPassState(b, g, m, n, count, i, j) && 0 <= i < m && 0 <= j < n && b[i][j] && IsGrid(h, m, n)
    requires h == g[i := g[i][j := h[i][j]]] && 0 <= h[i][j] <= count
    requires SameLabelConnected(c, b, g, m, n)
    requires h[i][j] < count ==> exists p, q :: Adjacent(c, m, n, i, j, p, q) && h[p][q] == h[i][j]
    ensures SameLabelConnected(c, b, h, m, n)
  {
    AssignConnected(c, b, g, h, m, n, i, j);
  }

  /** Relabelling (i, j) to a neighbour's label keeps labels within components. */
  lemma RelabelConnected(c: Connectivity, b: seq<seq<bool>>, g0: seq<seq<int>>, g: seq<seq<int>>, h: seq<seq<int>>,
                         m: int, n: int, i: int, j: int)
    requires Labelled(b, g0, m, n, INT_MAX) && Lowered(g0, g, m, n) && SameLabelConnected(c, b, g, m, n)
    requires 0 <= i < m && 0 <= j < n && g[i][j] >= 0 && IsGrid(h, m, n)
    requires h == g[i := g[i][j := h[i][j]]] && h[i][j] >= 0
    requires h == g || exists p, q :: Adjacent(c, m, n, i, j, p, q) && h[p][q] == h[i][j]
    ensures SameLabelConnected(c, b, h, m, n)
  {
    if h != g {
      LoweredLabelled(b, g0, g, m, n, INT_MAX);
      AssignConnected(c, b, g, h, m, n, i, j);
    }
  }

  lemma FirstPassDone(b: seq<seq<bool>>, g: seq<seq<int>>, m: int, n: int, count: int)
    requires FirstPassState(b, g, m, n, count, m, 0) && count <= INT_MAX
    ensures Labelled(b, g, m, n, INT_MAX)
  {
  }

  lemma LoweredStep(g0: seq<seq<int>>, g: seq<seq<int>>, h: seq<seq<int>>, m: int, n: int, i: int, j: int)
    requires Lowered(g0, g, m, n) && 0 <= i < m && 0 <= j < n && IsGrid(h, m, n)
    requires h == g[i := g[i][j := h[i][j]]] && 0 <= h[i][j] <= g[i][j]
    ensures Lowered(g0, h, m, n)
  {
  }

  lemma LoweredReflexive(g: seq<seq<int>>, m: int, n: int)
    requires IsGrid(g, m, n)
    ensures Lowered(g, g, m, n)
  {
  }

  lemma LoweredTransitive(f: seq<seq<int>>, g: seq<seq<int>>, h: seq<seq<int>>, m: int, n: int)
    requires Lowered(f, g, m, n) && Lowered(g, h, m, n)
    ensures Lowered(f, h, m, n)
  {
  }

  lemma LoweredLabelled(b: seq<seq<bool>>, g: seq<seq<int>>, h: seq<seq<int>>, m: int, n: int, bound: int)
    requires Labelled(b, g, m, n, bound) && Lowered(g, h, m, n)
    ensures Labelled(b, h, m, n, bound)
  {
  }

  /** Without a smaller neighbouring label anywhere, neighbours share labels. */
  lemma SettledStable(c: Connectivity, g: seq<seq<int>>, m: int, n: int)
    requires IsGrid(g, m, n)
    requires forall i, j :: 0 <= i < m && 0 <= j < n && g[i][j] >= 0 ==> SettledAt(c, g, m, n, i, j)
    ensures Stable(c, g, m, n)
  {
    forall i, j, p, q | 0 <= i < m && 0 <= j < n && Adjacent(c, m, n, i, j, p, q) && g[i][j] >= 0 && g[p][q] >= 0
      ensures g[i][j] == g[p][q]
    {
      AdjacentSymmetric(c, m, n, i, j, p, q);
      assert SettledAt(c, g, m, n, i, j) && SettledAt(c, g, m, n, p, q);
    }
  }

  lemma NoForeground(b: seq<seq<bool>>, g: seq<seq<int>>, m: int, n: int)
    requires Labelled(b, g, m, n, INT_MAX) && !Foreground(b)
    ensures Labelled(b, g, m, n, 0)
  {
  }

  lemma ForegroundCounted(b: seq<seq<bool>>, g: seq<seq<int>>, m: int, n: int, count: int)
    requires 0 <= count && Labelled(b, g, m, n, count) && (count > 0 ==> Occurs(g, 0))
    ensures count == 0 <==> !Foreground(b)
  {
    if count > 0 {
      var i, j :| 0 <= i < |g| && 0 <= j < |g[i]| && g[i][j] == 0;
      assert b[i][j];
    }
  }

  /** In a stable labelling, neighbouring foreground pixels share their label. */
  lemma StableConnected(c: Connectivity, b: seq<seq<bool>>, g: seq<seq<int>>, m: int, n: int, count: int)
    requires Labelled(b, g, m, n, count) && Stable(c, g, m, n)
    ensures forall i, j, p, q ::
              (0 <= i < m && 0 <= j < n && Adjacent(c, m, n, i, j, p, q) && b[i][j] && b[p][q]) ==>
              g[i][j] == g[p][q]
  {
  }

  /** Renaming one label keeps neighbouring labels equal. */
  lemma ReplaceFacts(c: Connectivity, g: seq<seq<int>>, m: int, n: int, from: int, to: int)
    requires IsGrid(g, m, n) && Stable(c, g, m, n) && (to >= 0 <==> from >= 0)
    ensures IsGrid(ReplaceAll(g, from, to), m, n) && Stable(c, ReplaceAll(g, from, to), m, n)
  {
  }

  lemma ReplaceOccurs(g: seq<seq<int>>, from: int, to: int, v: int)
    ensures Occurs(g, v) && v != from ==> Occurs(ReplaceAll(g, from, to), v)
    ensures Occurs(g, from) ==> Occurs(ReplaceAll(g, from, to), to)
  {
    if Occurs(g, v) && v != from {
      var i, j :| 0 <= i < |g| && 0 <= j < |g[i]| && g[i][j] == v;
      assert ReplaceAll(g, from, to)[i][j] == v;
    }
    if Occurs(g, from) {
      var i, j :| 0 <= i < |g| && 0 <= j < |g[i]| && g[i][j] == from;
      assert ReplaceAll(g, from, to)[i][j] == to;
    }
  }

  /** Changing one label changes the weight by the difference. */
  lemma {:induction false} WeightUpdate(g: seq<seq<int>>, i: int, j: int, v: int)
    requires 0 <= i < |g| && 0 <= j < |g[i]|
    ensures Weight(g[i := g[i][j := v]]) + Height(g[i][j]) == Weight(g) + Height(v)
    decreases |g|
  {
    var h := g[i := g[i][j := v]];
    var last := |g| - 1;
    assert h[..last] == if i < last then g[..last][i := g[i][j := v]] else g[..last];
    if i < last {
      WeightUpdate(g[..last], i, j, v);
    } else {
      RowWeightUpdate(g[i], j, v);
    }
  }

  lemma {:induction false} RowWeightUpdate(r: seq<int>, j: int, v: int)
    requires 0 <= j < |r|
    ensures RowWeight(r[j := v]) + Height(r[j]) == RowWeight(r) + Height(v)
    decreases |r|
  {
    var last := |r| - 1;
    assert r[j := v][..last] == if j < last then r[..last][j := v] else r[..last];
    if j < last {
      RowWeightUpdate(r[..last], j, v);
    }
  }

  /** The pixel counts of two images agree when v in one sits exactly where w sits in the other. */
  lemma {:induction false} CountSame(g: seq<seq<int>>, h: seq<seq<int>>, v: int, w: int)
    requires |g| == |h| && forall i :: 0 <= i < |g| ==> |g[i]| == |h[i]|
    requires forall i, j :: 0 <= i < |g| && 0 <= j < |g[i]| ==> (g[i][j] == v <==> h[i][j] == w)
    ensures Count(g, v) == Count(h, w)
    decreases |g|
  {
    if |g| > 0 {
      var last := |g| - 1;
      CountSame(g[..last], h[..last], v, w);
      RowCountSame(g[last], h[last], v, w);
    }
  }

  lemma {:induction false} RowCountSame(r: seq<int>, s: seq<int>, v: int, w: int)
    requires |r| == |s| && forall j :: 0 <= j < |r| ==> (r[j] == v <==> s[j] == w)
    ensures RowCount(r, v) == RowCount(s, w)
    decreases |r|
  {
    if |r| > 0 {
      RowCountSame(r[..|r| - 1], s[..|s| - 1], v, w);
    }
  }

  /** The pairs are ordered by decreasing second component (the pixel count). */
  ghost predicate Descending(s: seq<(int, int)>)
  {
    forall a, b :: 0 <= a < b < |s| ==> s[a].1 >= s[b].1
  }

  /** x inserted after the pairs of at least its size. */
  function InsertBySize(s: seq<(int, int)>, x: (int, int)): (r: seq<(int, int)>)
    ensures multiset(r) == multiset(s) + multiset{x}
  {
    if |s| == 0 then [x]
    else if s[0].1 >= x.1 then
      assert s == [s[0]] + s[1..];
      [s[0]] + InsertBySize(s[1..], x)
    else
      [x] + s
  }

  lemma {:induction false} InsertDescending(s: seq<(int, int)>, x: (int, int))
    requires Descending(s)
    ensures Descending(InsertBySize(s, x))
    decreases |s|
  {
    if |s| > 0 && s[0].1 >= x.1 {
      var rest := InsertBySize(s[1..], x);
      InsertDescending(s[1..], x);
      forall b | 0 <= b < |rest|
        ensures rest[b].1 <= s[0].1
      {
        assert rest[b] in multiset(rest);
        if rest[b] != x {
          assert rest[b] in multiset(s[1..]);
          var k :| 0 <= k < |s[1..]| && s[1..][k] == rest[b];
          assert s[1..][k] == s[k + 1];
        }
      }
      assert InsertBySize(s, x) == [s[0]] + rest;
    }
  }

  /**
   * std::sort of the (label, size) pairs with the comparator of
   * sortLabels: a permutation with decreasing sizes.
   */
  function SortBySize(s: seq<(int, int)>): (r: seq<(int, int)>)
    ensures multiset(r) == multiset(s) && Descending(r)
  {
    if |s| == 0 then []
    else
      assert s == s[..|s| - 1] + [s[|s| - 1]];
      var sortedPrefix := SortBySize(s[..|s| - 1]);
      InsertDescending(sortedPrefix, s[|s| - 1]);
      InsertBySize(sortedPrefix, s[|s| - 1])
  }

  ghost predicate Distinct<T>(s: seq<T>)
  {
    forall a, b :: 0 <= a < b < |s| ==> s[a] != s[b]
  }

  lemma {:induction false} DistinctCount<T>(s: seq<T>, x: T)
    requires Distinct(s)
    ensures multiset(s)[x] <= 1
    decreases |s|
  {
    if |s| > 0 {
      var last := |s| - 1;
      assert s == s[..last] + [s[last]];
      DistinctCount(s[..last], x);
      if s[last] == x {
        assert x !in s[..last];
      }
    }
  }

  /** A permutation of distinct elements has distinct elements. */
  lemma DistinctPermutation<T>(s: seq<T>, u: seq<T>)
    requires multiset(s) == multiset(u) && Distinct(u)
    ensures Distinct(s)
  {
    forall a, b | 0 <= a < b < |s|
      ensures s[a] != s[b]
    {
      if s[a] == s[b] {
        assert s == s[..b] + [s[b]] + s[b + 1..];
        assert s[a] in multiset(s[..b]);
        assert multiset(s)[s[b]] >= 2;
        DistinctCount(u, s[b]);
      }
    }
  }

  /**
   * The sorted pairs are the pairs (t, size) with their first components
   * permuted; pos inverts that permutation.
   */
  lemma InversePositions(labels: seq<(int, int)>, sorted: seq<(int, int)>) returns (pos: seq<int>)
    requires multiset(sorted) == multiset(labels)
    requires forall t :: 0 <= t < |labels| ==> labels[t].0 == t
    ensures |sorted| == |labels| && |pos| == |labels|
    ensures forall t :: 0 <= t < |sorted| ==> 0 <= sorted[t].0 < |labels| && sorted[t] == labels[sorted[t].0]
    ensures forall v :: 0 <= v < |labels| ==> 0 <= pos[v] < |labels| && sorted[pos[v]].0 == v
    ensures forall t :: 0 <= t < |sorted| ==> pos[sorted[t].0] == t
  {
    assert |sorted| == |multiset(sorted)| == |labels|;
    forall t | 0 <= t < |sorted|
      ensures 0 <= sorted[t].0 < |labels| && sorted[t] == labels[sorted[t].0]
    {
      assert sorted[t] in multiset(labels);
      var v :| 0 <= v < |labels| && labels[v] == sorted[t];
    }
    assert Distinct(labels);
    DistinctPermutation(sorted, labels);
    pos := seq(|labels|, v requires 0 <= v < |labels| => PositionOf(labels, sorted, v));
  }

  ghost function PositionOf(labels: seq<(int, int)>, sorted: seq<(int, int)>, v: int): (t: int)
    requires multiset(sorted) == multiset(labels) && 0 <= v < |labels|
    ensures 0 <= t < |sorted| && sorted[t] == labels[v]
  {
    assert labels[v] in multiset(sorted);
    var t :| 0 <= t < |sorted| && sorted[t] == labels[v];
    t
  }

  lemma {:induction false} OccursCounted(g: seq<seq<int>>, v: int)
    requires Occurs(g, v)
    ensures Count(g, v) >= 1
    decreases |g|
  {
    var i, j :| 0 <= i < |g| && 0 <= j < |g[i]| && g[i][j] == v;
    var last := |g| - 1;
    if i == last {
      RowOccursCounted(g[last], j, v);
    } else {
      assert g[..last][i][j] == v;
      OccursCounted(g[..last], v);
    }
  }

  lemma {:induction false} RowOccursCounted(r: seq<int>, j: int, v: int)
    requires 0 <= j < |r| && r[j] == v
    ensures RowCount(r, v) >= 1
    decreases |r|
  {
    if j < |r| - 1 {
      RowOccursCounted(r[..|r| - 1], j, v);
    }
  }

  /** A sequence of n copies of z holds z n times. */
  lemma {:induction false} ConstantCount<T>(s: seq<T>, z: T)
    requires forall k :: 0 <= k < |s| ==> s[k] == z
    ensures multiset(s)[z] == |s|
    decreases |s|
  {
    if |s| > 0 {
      var last := |s| - 1;
      assert s == s[..last] + [s[last]];
      ConstantCount(s[..last], z);
    }
  }

  lemma {:induction false} CountAtMostLength<T>(s: seq<T>, z: T)
    ensures multiset(s)[z] <= |s|
    decreases |s|
  {
    if |s| > 0 {
      var last := |s| - 1;
      assert s == s[..last] + [s[last]];
      CountAtMostLength(s[..last], z);
    }
  }

  /** A sequence holding z as often as it is long is all z. */
  lemma {:induction false} FullCount<T>(s: seq<T>, z: T)
    requires multiset(s)[z] == |s|
    ensures forall k :: 0 <= k < |s| ==> s[k] == z
    decreases |s|
  {
    if |s| > 0 {
      var last := |s| - 1;
      assert s == s[..last] + [s[last]];
      CountAtMostLength(s[..last], z);
      FullCount(s[..last], z);
      forall k | 0 <= k < |s|
        ensures s[k] == z
      {
        if k < last {
          assert s[k] == s[..last][k];
        }
      }
    }
  }

  /**
   * Sorted by decreasing size, the labelCount pairs of the real labels,
   * each of at least one pixel, come before the labelCount pairs (0, 0).
   */
  lemma SizedFront(labels: seq<(int, int)>, sorted: seq<(int, int)>, count: int)
    requires 0 <= count && |labels| == 2 * count
    requires forall t :: 0 <= t < count ==> labels[t] == (0, 0)
    requires forall t :: count <= t < 2 * count ==> labels[t].1 >= 1
    requires multiset(sorted) == multiset(labels) && Descending(sorted)
    ensures |sorted| == 2 * count && multiset(sorted[..count]) == multiset(labels[count..])
  {
    var z := (0, 0);
    assert |sorted| == |multiset(sorted)| == |labels|;
    EmptyPairs(labels, count);
    NoEmptyFront(labels, sorted, count);
    var front, back := sorted[..count], sorted[count..];
    assert sorted == front + back;
    assert z !in multiset(front);
    assert multiset(back)[z] == |back|;
    FullCount(back, z);
    assert back == labels[..count];
    assert labels == labels[..count] + labels[count..];
    MultisetCancel(front, back, labels[..count], labels[count..]);
  }

  /** No empty pair (0, 0) sorts into the first count places. */
  lemma {:induction false} NoEmptyFront(labels: seq<(int, int)>, sorted: seq<(int, int)>, count: int)
    requires 0 <= count && |labels| == 2 * count == |sorted|
    requires multiset(sorted) == multiset(labels) && Descending(sorted)
    requires multiset(labels)[(0, 0)] == count
    requires forall t :: 0 <= t < |labels| && labels[t].1 <= 0 ==> labels[t] == (0, 0)
    ensures forall a :: 0 <= a < count ==> sorted[a] != (0, 0)
  {
    var z := (0, 0);
    forall a | 0 <= a < count
      ensures sorted[a] != z
    {
      if sorted[a] == z {
        EmptyTail(labels, sorted, count, a);
        assert sorted == sorted[..a] + sorted[a..];
        ConstantCount(sorted[a..], z);
        assert false;
      }
    }
  }

  /** Equal back parts cancel from equal multisets of concatenations. */
  lemma MultisetCancel<T>(f: seq<T>, b: seq<T>, l1: seq<T>, l2: seq<T>)
    requires multiset(f + b) == multiset(l1 + l2) && b == l1
    ensures multiset(f) == multiset(l2)
  {
    forall x
      ensures multiset(f)[x] == multiset(l2)[x]
    {
      assert multiset(f + b)[x] == multiset(f)[x] + multiset(b)[x];
      assert multiset(l1 + l2)[x] == multiset(l1)[x] + multiset(l2)[x];
    }
  }

  /** The sizes sortLabels sorts, with the labels of the first half of the sorted pairs. */
  lemma SortedSizes(g: seq<seq<int>>, labels: seq<(int, int)>, sorted: seq<(int, int)>, count: int)
    requires 0 <= count && |labels| == 2 * count
    requires forall t :: 0 <= t < count ==> labels[t] == (0, 0)
    requires forall t :: 0 <= t < count ==> labels[count + t] == (t, Count(g, t))
    requires forall v :: 0 <= v < count ==> Occurs(g, v)
    requires multiset(sorted) == multiset(labels) && Descending(sorted)
    ensures |sorted| == 2 * count && multiset(sorted[..count]) == multiset(labels[count..])
    ensures forall t :: 0 <= t < count ==> labels[count..][t] == (t, Count(g, t))
  {
    forall t | count <= t < 2 * count
      ensures labels[t].1 >= 1
    {
      OccursCounted(g, t - count);
      assert labels[t] == labels[count + (t - count)];
    }
    SizedFront(labels, sorted, count);
  }

  /** The pairs (0, 0) are the labels' only pairs of size 0 or less, count of them. */
  lemma EmptyPairs(labels: seq<(int, int)>, count: int)
    requires 0 <= count && |labels| == 2 * count
    requires forall t :: 0 <= t < count ==> labels[t] == (0, 0)
    requires forall t :: count <= t < 2 * count ==> labels[t].1 >= 1
    ensures multiset(labels)[(0, 0)] == count
    ensures forall t :: 0 <= t < |labels| && labels[t].1 <= 0 ==> labels[t] == (0, 0)
  {
    assert labels == labels[..count] + labels[count..];
    ConstantCount(labels[..count], (0, 0));
    assert (0, 0) !in multiset(labels[count..]);
  }

  /** After a pair (0, 0), the sorted pairs are all (0, 0). */
  lemma EmptyTail(labels: seq<(int, int)>, sorted: seq<(int, int)>, count: int, a: int)
    requires multiset(sorted) == multiset(labels) && Descending(sorted)
    requires forall t :: 0 <= t < |labels| && labels[t].1 <= 0 ==> labels[t] == (0, 0)
    requires 0 <= a < |sorted| && sorted[a] == (0, 0)
    ensures forall k :: 0 <= k < |sorted[a..]| ==> sorted[a..][k] == (0, 0)
  {
    forall k | 0 <= k < |sorted[a..]|
      ensures sorted[a..][k] == (0, 0)
    {
      var b := a + k;
      assert sorted[a..][k] == sorted[b] && sorted[b].1 <= 0;
      assert sorted[b] in multiset(labels);
      var t :| 0 <= t < |labels| && labels[t] == sorted[b];
    }
  }

  /** One turn of the renaming loop of sortLabels. */
  lemma SortStep(g1: seq<seq<int>>, g: seq<seq<int>>, h: seq<seq<int>>, m: int, n: int, count: int,
                 sorted: seq<(int, int)>, pos: seq<int>, l: int)
    requires IsGrid(g1, m, n) && IsGrid(g, m, n) && 0 <= l < count == |sorted| == |pos|
    requires forall i, j :: 0 <= i < m && 0 <= j < n ==> -1 <= g1[i][j] < count
    requires forall t :: 0 <= t < |sorted| ==> 0 <= sorted[t].0 < count
    requires forall v :: 0 <= v < count ==> 0 <= pos[v] < count && sorted[pos[v]].0 == v
    requires forall t :: 0 <= t < |sorted| ==> pos[sorted[t].0] == t
    requires forall i, j :: 0 <= i < m && 0 <= j < n ==>
      g[i][j] == if g1[i][j] >= 0 && pos[g1[i][j]] < l then pos[g1[i][j]] + count else g1[i][j]
    requires h == ReplaceAll(g, sorted[l].0, l + count)
    ensures IsGrid(h, m, n)
    ensures forall i, j :: 0 <= i < m && 0 <= j < n ==>
      h[i][j] == if g1[i][j] >= 0 && pos[g1[i][j]] < l + 1 then pos[g1[i][j]] + count else g1[i][j]
  {
    forall i, j | 0 <= i < m && 0 <= j < n
      ensures h[i][j] == if g1[i][j] >= 0 && pos[g1[i][j]] < l + 1 then pos[g1[i][j]] + count else g1[i][j]
    {
      var v := g1[i][j];
      if v >= 0 && pos[v] == l {
        assert v == sorted[l].0;
      }
    }
  }

  /** What sortLabels achieves once the renaming loop and the shift back are done. */
  lemma SortedRenaming(b: seq<seq<bool>>, g1: seq<seq<int>>, g2: seq<seq<int>>, h: seq<seq<int>>, m: int, n: int,
                       count: int, labels: seq<(int, int)>, sorted: seq<(int, int)>, pos: seq<int>)
    requires Labelled(b, g1, m, n, count) && IsGrid(g2, m, n) && 0 <= count
    requires |labels| == count && forall t :: 0 <= t < count ==> labels[t] == (t, Count(g1, t))
    requires Descending(sorted) && |sorted| == count && |pos| == count
    requires forall t :: 0 <= t < |sorted| ==> 0 <= sorted[t].0 < count && sorted[t] == labels[sorted[t].0]
    requires forall v :: 0 <= v < count ==> 0 <= pos[v] < count && sorted[pos[v]].0 == v
    requires forall t :: 0 <= t < |sorted| ==> pos[sorted[t].0] == t
    requires forall i, j :: 0 <= i < m && 0 <= j < n ==>
      g2[i][j] == if g1[i][j] >= 0 && pos[g1[i][j]] < count then pos[g1[i][j]] + count else g1[i][j]
    requires h == ShiftDown(g2, count)
    ensures Labelled(b, h, m, n, count)
    ensures forall i, j, p, q :: 0 <= i < m && 0 <= j < n && 0 <= p < m && 0 <= q < n ==>
      (h[i][j] == h[p][q] <==> g1[i][j] == g1[p][q])
    ensures (forall v :: 0 <= v < count ==> Occurs(g1, v)) ==> forall v :: 0 <= v < count ==> Occurs(h, v)
    ensures forall v :: 0 <= v < count - 1 ==> Count(h, v) >= Count(h, v + 1)
  {
    assert forall i, j :: 0 <= i < m && 0 <= j < n ==> h[i][j] == if g1[i][j] >= 0 then pos[g1[i][j]] else -1;
    forall t | 0 <= t < count
      ensures Count(h, t) == sorted[t].1
      ensures Occurs(g1, sorted[t].0) ==> Occurs(h, t)
    {
      var v := sorted[t].0;
      CountSame(h, g1, t, v);
      if Occurs(g1, v) {
        var i, j :| 0 <= i < |g1| && 0 <= j < |g1[i]| && g1[i][j] == v;
        assert h[i][j] == t;
      }
    }
    if forall v :: 0 <= v < count ==> Occurs(g1, v) {
      forall t | 0 <= t < count
        ensures Occurs(h, t)
      {
        assert Occurs(g1, sorted[t].0);
      }
    }
  }

  /** The renaming keeps neighbouring labels equal. */
  lemma StableRenamed(c: Connectivity, g: seq<seq<int>>, h: seq<seq<int>>, m: int, n: int)
    requires IsGrid(g, m, n) && IsGrid(h, m, n) && Stable(c, g, m, n)
    requires forall i, j :: 0 <= i < m && 0 <= j < n ==> (h[i][j] >= 0 <==> g[i][j] >= 0)
    requires forall i, j, p, q :: 0 <= i < m && 0 <= j < n && 0 <= p < m && 0 <= q < n ==>
      (h[i][j] == h[p][q] <==> g[i][j] == g[p][q])
    ensures Stable(c, h, m, n)
  {
  }

  /**
   * labelCount as the source sets it after renumbering: one more than the
   * k labels in use.
   */
  function LabelCountAsWritten(k: int): int
  {
    k + 1
  }

  /**
   * After renumbering every label is below k, so the last label index
   * that LabelCountAsWritten reports has no pixel: an image with a single
   * foreground pixel gets k = 1 and a label count of 2.
   */
  lemma LabelCountAsWrittenHasEmptyLabel(g: seq<seq<int>>, k: int)
    requires forall i, j :: 0 <= i < |g| && 0 <= j < |g[i]| ==> g[i][j] < k
    ensures LabelCountAsWritten(k) - 1 == k && !Occurs(g, LabelCountAsWritten(k) - 1)
    ensures Count(g, LabelCountAsWritten(k) - 1) == 0
  {
    CountAbsent(g, k);
  }

  lemma {:induction false} CountAbsent(g: seq<seq<int>>, v: int)
    requires forall i, j :: 0 <= i < |g| && 0 <= j < |g[i]| ==> g[i][j] < v
    ensures Count(g, v) == 0
    decreases |g|
  {
    if |g| > 0 {
      CountAbsent(g[..|g| - 1], v);
      RowCountAbsent(g[|g| - 1], v);
    }
  }

  lemma {:induction false} RowCountAbsent(r: seq<int>, v: int)
    requires forall j :: 0 <= j < |r| ==> r[j] < v
    ensures RowCount(r, v) == 0
    decreases |r|
  {
    if |r| > 0 {
      RowCountAbsent(r[..|r| - 1], v);
    }
  }

  // Components: same label exactly when joined by a path of foreground neighbours.

  lemma ConnectedHere(c: Connectivity, b: seq<seq<bool>>, m: int, n: int, i: int, j: int)
    requires IsGrid(b, m, n) && 0 <= i < m && 0 <= j < n && b[i][j]
    ensures Connected(c, b, m, n, i, j, i, j)
  {
    assert Path(c, b, m, n, [(i, j)]);
  }

  lemma ConnectedExtend(c: Connectivity, b: seq<seq<bool>>, m: int, n: int, i: int, j: int, p: int, q: int, r: int, s: int)
    requires Connected(c, b, m, n, i, j, p, q) && Adjacent(c, m, n, p, q, r, s) && b[r][s]
    ensures Connected(c, b, m, n, i, j, r, s)
  {
    var path: seq<(int, int)> :| Path(c, b, m, n, path) && |path| > 0 && path[0] == (i, j) && path[|path| - 1] == (p, q);
    var longer := path + [(r, s)];
    assert Path(c, b, m, n, longer) by {
      forall t | 0 <= t < |longer| - 1
        ensures Adjacent(c, m, n, longer[t].0, longer[t].1, longer[t + 1].0, longer[t + 1].1)
      {
        if t < |path| - 1 {
          assert longer[t] == path[t] && longer[t + 1] == path[t + 1];
        }
      }
    }
  }

  lemma ConnectedReverse(c: Connectivity, b: seq<seq<bool>>, m: int, n: int, i: int, j: int, p: int, q: int)
    requires Connected(c, b, m, n, i, j, p, q)
    ensures Connected(c, b, m, n, p, q, i, j)
  {
    var path: seq<(int, int)> :| Path(c, b, m, n, path) && |path| > 0 && path[0] == (i, j) && path[|path| - 1] == (p, q);
    var back := seq(|path|, t requires 0 <= t < |path| => path[|path| - 1 - t]);
    assert Path(c, b, m, n, back) by {
      forall t | 0 <= t < |back| - 1
        ensures Adjacent(c, m, n, back[t].0, back[t].1, back[t + 1].0, back[t + 1].1)
      {
        var u := |path| - 2 - t;
        assert back[t] == path[u + 1] && back[t + 1] == path[u];
        AdjacentSymmetric(c, m, n, path[u].0, path[u].1, path[u + 1].0, path[u + 1].1);
      }
    }
  }

  /** A neighbour (w, v) of (i, j) joins (i, j) to everything joined to (w, v), in both directions. */
  lemma ConnectedThrough(c: Connectivity, b: seq<seq<bool>>, m: int, n: int, i: int, j: int, w: int, v: int, p: int, q: int)
    requires IsGrid(b, m, n) && 0 <= i < m && 0 <= j < n && b[i][j] && Adjacent(c, m, n, i, j, w, v)
    requires Connected(c, b, m, n, p, q, w, v)
    ensures Connected(c, b, m, n, p, q, i, j) && Connected(c, b, m, n, i, j, p, q)
  {
    AdjacentSymmetric(c, m, n, i, j, w, v);
    ConnectedExtend(c, b, m, n, p, q, w, v, i, j);
    ConnectedReverse(c, b, m, n, p, q, i, j);
  }

  /**
   * Giving (i, j) a label nobody else has, or the label of a labelled
   * neighbour, keeps every label within one component.
   */
  lemma AssignConnected(c: Connectivity, b: seq<seq<bool>>, g: seq<seq<int>>, h: seq<seq<int>>, m: int, n: int, i: int, j: int)
    requires IsGrid(b, m, n) && 0 <= i < m && 0 <= j < n && b[i][j]
    requires SameLabelConnected(c, b, g, m, n)
    requires forall p, q :: 0 <= p < m && 0 <= q < n && g[p][q] >= 0 ==> b[p][q]
    requires IsGrid(h, m, n) && h == g[i := g[i][j := h[i][j]]] && h[i][j] >= 0
    requires (forall p, q :: 0 <= p < m && 0 <= q < n ==> g[p][q] != h[i][j]) ||
             exists p, q :: Adjacent(c, m, n, i, j, p, q) && h[p][q] == h[i][j]
    ensures SameLabelConnected(c, b, h, m, n)
  {
    var v := h[i][j];
    forall x, y, p, q | 0 <= x < m && 0 <= y < n && 0 <= p < m && 0 <= q < n && h[x][y] >= 0 && h[x][y] == h[p][q]
      ensures Connected(c, b, m, n, x, y, p, q)
    {
      var xHere := x == i && y == j;
      var pHere := p == i && q == j;
      if xHere && pHere {
        ConnectedHere(c, b, m, n, i, j);
      } else if !xHere && !pHere {
        assert g[x][y] == h[x][y] && g[p][q] == h[p][q];
      } else {
        var u, z := if xHere then p else x, if xHere then q else y;
        assert g[u][z] == v;
        var wi, wj :| Adjacent(c, m, n, i, j, wi, wj) && h[wi][wj] == v;
        AdjacentSymmetric(c, m, n, i, j, wi, wj);
        assert g[wi][wj] == v;
        assert Connected(c, b, m, n, u, z, wi, wj);
        ConnectedThrough(c, b, m, n, i, j, wi, wj, u, z);
      }
    }
  }

  /** Renaming a label to one nobody has keeps every label within one component. */
  lemma RenameConnected(c: Connectivity, b: seq<seq<bool>>, g: seq<seq<int>>, m: int, n: int, from: int, to: int)
    requires SameLabelConnected(c, b, g, m, n) && from >= 0 && to >= 0
    requires forall p, q :: 0 <= p < m && 0 <= q < n && to != from ==> g[p][q] != to
    ensures SameLabelConnected(c, b, ReplaceAll(g, from, to), m, n)
  {
    var h := ReplaceAll(g, from, to);
    forall x, y, p, q | 0 <= x < m && 0 <= y < n && 0 <= p < m && 0 <= q < n && h[x][y] >= 0 && h[x][y] == h[p][q]
      ensures Connected(c, b, m, n, x, y, p, q)
    {
      assert g[x][y] == g[p][q];
    }
  }

  /** A renaming that keeps which pixels share a label keeps every label within one component. */
  lemma PatternConnected(c: Connectivity, b: seq<seq<bool>>, g: seq<seq<int>>, h: seq<seq<int>>, m: int, n: int, count: int)
    requires SameLabelConnected(c, b, g, m, n) && Labelled(b, g, m, n, count) && Labelled(b, h, m, n, count)
    requires forall i, j, p, q :: 0 <= i < m && 0 <= j < n && 0 <= p < m && 0 <= q < n ==>
               (h[i][j] == h[p][q] <==> g[i][j] == g[p][q])
    ensures SameLabelConnected(c, b, h, m, n)
  {
  }

  /** In a stable labelling, a path never changes label. */
  lemma {:induction false} PathLabel(c: Connectivity, b: seq<seq<bool>>, g: seq<seq<int>>, m: int, n: int, count: int,
                                     path: seq<(int, int)>)
    requires Labelled(b, g, m, n, count) && Stable(c, g, m, n) && Path(c, b, m, n, path) && |path| > 0
    ensures g[path[|path| - 1].0][path[|path| - 1].1] == g[path[0].0][path[0].1]
    decreases |path|
  {
    if |path| > 1 {
      var front := path[..|path| - 1];
      assert Path(c, b, m, n, front) by {
        forall t | 0 <= t < |front| - 1
          ensures Adjacent(c, m, n, front[t].0, front[t].1, front[t + 1].0, front[t + 1].1)
        {
          assert front[t] == path[t] && front[t + 1] == path[t + 1];
        }
      }
      PathLabel(c, b, g, m, n, count, front);
      var t := |path| - 2;
      assert Adjacent(c, m, n, path[t].0, path[t].1, path[t + 1].0, path[t + 1].1);
    }
  }

  /**
   * Two foreground pixels share their label exactly when a path of
   * foreground neighbours joins them.
   */
  lemma LabelsAreComponents(c: Connectivity, b: seq<seq<bool>>, g: seq<seq<int>>, m: int, n: int, count: int)
    requires Labelled(b, g, m, n, count) && Stable(c, g, m, n) && SameLabelConnected(c, b, g, m, n)
    ensures forall i, j, p, q :: 0 <= i < m && 0 <= j < n && 0 <= p < m && 0 <= q < n && b[i][j] && b[p][q] ==>
              (g[i][j] == g[p][q] <==> Connected(c, b, m, n, i, j, p, q))
  {
    forall i, j, p, q | 0 <= i < m && 0 <= j < n && 0 <= p < m && 0 <= q < n && b[i][j] && b[p][q] &&
                        Connected(c, b, m, n, i, j, p, q)
      ensures g[i][j] == g[p][q]
    {
      var path: seq<(int, int)> :| Path(c, b, m, n, path) && |path| > 0 && path[0] == (i, j) && path[|path| - 1] == (p, q);
      PathLabel(c, b, g, m, n, count, path);
    }
  }
}
