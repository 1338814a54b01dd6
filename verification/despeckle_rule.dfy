/**
 * The per-pixel rule of the despeckle (adaptive median) filter of
 * common/despeckle.c, and the row-by-row pass over a selection, as pure
 * functions. Both the streaming filter and the preview filter are proved
 * equal to `Despeckled` (see despeckle.dfy).
 *
 * An image is a sequence of rows of bytes; a row holds `width` bytes, that is
 * pixels of `bpp` bytes each, so column `x` of a row is channel `x % bpp` of
 * pixel `x / bpp`. Row numbers are relative to the top of the selection.
 */
module DespeckleRule {
  import opened CTypes
  import opened Arith
  import opened ShellSort

  const MaxRadius := 20
  const FilterAdaptive := 0x01
  const FilterRecursive := 0x02

  /** Bit 0 of the filter type (`filter_type & FILTER_ADAPTIVE`). */
  predicate Adaptive(filterType: int)
  {
    filterType % 2 == 1
  }

  /** Bit 1 of the filter type (`filter_type & FILTER_RECURSIVE`). */
  predicate Recursive(filterType: int)
  {
    (filterType / 2) % 2 == 1
  }

  /** The plug-in's parameters: `despeckle_vals`. */
  datatype Settings = Settings(radius: int, filterType: int, blackLevel: int, whiteLevel: int)

  /** The values the non-interactive call uses when it is given only a radius. */
  function DefaultSettings(radius: int): (s: Settings)
    ensures s.radius == radius && Adaptive(s.filterType) && !Recursive(s.filterType)
    ensures s.blackLevel == 7 && s.whiteLevel == 248
  {
    Settings(radius, FilterAdaptive, 7, 248)
  }

  type Image = seq<seq<Byte>>

  predicate Shaped(img: Image, width: int)
  {
    forall y :: 0 <= y < |img| ==> |img[y]| == width
  }

  // ---------------------------------------------------------------------
  // The sampled columns
  // ---------------------------------------------------------------------

  /** First sampled column: `radius` pixels to the left, or the same channel of pixel 0. */
  function XMin(x: int, r: int, bpp: int): (xmin: int)
    requires bpp >= 1
    ensures 0 <= xmin && x - r * bpp <= xmin
    ensures 0 <= x && 0 <= r ==> xmin <= x
  {
    if x - r * bpp < 0 then x % bpp else x - r * bpp
  }

  /** End of the sampled columns: `radius` pixels to the right, clamped to the row. */
  function XMax(x: int, r: int, bpp: int, width: int): (xmax: int)
    ensures xmax <= width && xmax <= x + (r + 1) * bpp
    ensures xmax == width || xmax == x + (r + 1) * bpp
  {
    if x + (r + 1) * bpp > width then width else x + (r + 1) * bpp
  }

  /** The columns `tx, tx + bpp, ...` below `xmax`. */
  function ColumnsFrom(tx: int, xmax: int, bpp: int): (cols: seq<int>)
    requires bpp >= 1
    ensures forall i :: 0 <= i < |cols| ==> tx <= cols[i] < xmax
    decreases xmax - tx
  {
    if tx >= xmax then [] else [tx] + ColumnsFrom(tx + bpp, xmax, bpp)
  }

  /** Stepping by `bpp` stays on the channel of the first column. */
  lemma {:induction false} ColumnsFromChannel(tx: int, xmax: int, bpp: int)
    requires bpp >= 1
    ensures forall i :: 0 <= i < |ColumnsFrom(tx, xmax, bpp)| ==> ColumnsFrom(tx, xmax, bpp)[i] % bpp == tx % bpp
    decreases xmax - tx
  {
    if tx < xmax {
      ColumnsFromChannel(tx + bpp, xmax, bpp);
      ModAddMultiple(tx, 1, bpp);
    }
  }

  /** The columns sampled around column `x` with radius `r`. */
  function Columns(x: int, r: int, bpp: int, width: int): seq<int>
    requires bpp >= 1
  {
    ColumnsFrom(XMin(x, r, bpp), XMax(x, r, bpp, width), bpp)
  }

  /** At most `k` columns fit below `tx + k * bpp`. */
  lemma {:induction false} ColumnsFromCount(tx: int, xmax: int, bpp: int, k: nat)
    requires bpp >= 1 && xmax <= tx + k * bpp
    ensures |ColumnsFrom(tx, xmax, bpp)| <= k
    decreases k
  {
    if tx < xmax {
      assert k >= 1;
      assert tx + k * bpp == (tx + bpp) + (k - 1) * bpp;
      ColumnsFromCount(tx + bpp, xmax, bpp, k - 1);
    }
  }

  /**
   * Every sampled column lies in the row and holds the same channel as `x`,
   * and there are at most `2r + 1` of them.
   */
  lemma ColumnsInRow(x: int, r: int, bpp: int, width: int)
    requires bpp >= 1 && 0 <= r && 0 <= x < width
    ensures forall i :: 0 <= i < |Columns(x, r, bpp, width)| ==>
      0 <= Columns(x, r, bpp, width)[i] < width &&
      Columns(x, r, bpp, width)[i] % bpp == x % bpp
    ensures |Columns(x, r, bpp, width)| <= 2 * r + 1
  {
    var xmin, xmax := XMin(x, r, bpp), XMax(x, r, bpp, width);
    XMinChannel(x, r, bpp);
    ColumnsFromChannel(xmin, xmax, bpp);
    assert xmax <= xmin + (2 * r + 1) * bpp by {
      assert (2 * r + 1) * bpp == r * bpp + (r + 1) * bpp;
    }
    ColumnsFromCount(xmin, xmax, bpp, 2 * r + 1);
  }

  /** The first sampled column is on the channel of `x` and inside the row. */
  lemma XMinChannel(x: int, r: int, bpp: int)
    requires bpp >= 1 && 0 <= r && 0 <= x
    ensures 0 <= XMin(x, r, bpp) && XMin(x, r, bpp) % bpp == x % bpp
    ensures XMin(x, r, bpp) >= x - r * bpp
  {
    if x - r * bpp < 0 {
      ModSmall(x % bpp, bpp);
    } else {
      ModAddMultiple(x - r * bpp, r, bpp);
    }
  }

  // ---------------------------------------------------------------------
  // The samples of a window
  // ---------------------------------------------------------------------

  /** The bytes of `row` at columns `tx, tx + bpp, ...` below `xmax`. */
  function RowSamples(row: seq<Byte>, tx: int, xmax: int, bpp: int): (s: seq<Byte>)
    requires bpp >= 1 && 0 <= tx && xmax <= |row|
    decreases xmax - tx
  {
    if tx >= xmax then [] else [row[tx]] + RowSamples(row, tx + bpp, xmax, bpp)
  }

  /** The samples of a row are the row's bytes at `ColumnsFrom`, in order. */
  lemma {:induction false} RowSamplesAtColumns(row: seq<Byte>, tx: int, xmax: int, bpp: int)
    requires bpp >= 1 && 0 <= tx && xmax <= |row|
    ensures |RowSamples(row, tx, xmax, bpp)| == |ColumnsFrom(tx, xmax, bpp)|
    ensures forall i :: 0 <= i < |RowSamples(row, tx, xmax, bpp)| ==>
      RowSamples(row, tx, xmax, bpp)[i] == row[ColumnsFrom(tx, xmax, bpp)[i]]
    decreases xmax - tx
  {
    if tx < xmax {
      RowSamplesAtColumns(row, tx + bpp, xmax, bpp);
    }
  }

  /** The samples of rows `lo..hi-1` at columns `xmin, xmin + bpp, ...` below `xmax`, row after row. */
  function WindowSamples(img: Image, lo: int, hi: int, xmin: int, xmax: int, bpp: int, width: int): (s: seq<Byte>)
    requires 0 <= lo <= hi <= |img| && Shaped(img, width)
    requires bpp >= 1 && 0 <= xmin && xmax <= width
    decreases hi - lo
  {
    if hi == lo then []
    else WindowSamples(img, lo, hi - 1, xmin, xmax, bpp, width) + RowSamples(img[hi - 1], xmin, xmax, bpp)
  }

  /** A window over fewer rows is a shorter prefix. */
  lemma {:induction false} WindowPrefix(img: Image, lo: int, mid: int, hi: int, xmin: int, xmax: int, bpp: int, width: int)
    requires 0 <= lo <= mid <= hi <= |img| && Shaped(img, width)
    requires bpp >= 1 && 0 <= xmin && xmax <= width
    ensures |WindowSamples(img, lo, mid, xmin, xmax, bpp, width)| <= |WindowSamples(img, lo, hi, xmin, xmax, bpp, width)|
    decreases hi - mid
  {
    if mid < hi {
      WindowPrefix(img, lo, mid, hi - 1, xmin, xmax, bpp, width);
    }
  }

  /** A window holds one row of samples per image row. */
  lemma {:induction false} WindowSamplesCount(img: Image, lo: int, hi: int, xmin: int, xmax: int, bpp: int, width: int)
    requires 0 <= lo <= hi <= |img| && Shaped(img, width)
    requires bpp >= 1 && 0 <= xmin && xmax <= width
    ensures |WindowSamples(img, lo, hi, xmin, xmax, bpp, width)| == (hi - lo) * |ColumnsFrom(xmin, xmax, bpp)|
    decreases hi - lo
  {
    if hi > lo {
      WindowSamplesCount(img, lo, hi - 1, xmin, xmax, bpp, width);
      RowSamplesAtColumns(img[hi - 1], xmin, xmax, bpp);
      var n := |ColumnsFrom(xmin, xmax, bpp)|;
      assert (hi - lo) * n == (hi - 1 - lo) * n + n;
    }
  }

  /** The samples below the white level, in order: what enters the sort array. */
  function Kept(s: seq<Byte>, white: int): (k: seq<Byte>)
    ensures |k| <= |s|
    ensures forall v :: v in k <==> v in s && v < white
  {
    if s == [] then []
    else
      var front := Kept(s[..|s| - 1], white);
      assert s == s[..|s| - 1] + [s[|s| - 1]];
      if s[|s| - 1] < white then front + [s[|s| - 1]] else front
  }

  /** The positions of `s` whose sample satisfies `p`. */
  ghost function Where(s: seq<Byte>, p: Byte -> bool): set<int>
  {
    set i | 0 <= i < |s| && p(s[i])
  }

  /** Adding a sample adds its position when it satisfies `p`. */
  lemma WhereSnoc(s: seq<Byte>, p: Byte -> bool)
    requires s != []
    ensures |Where(s, p)| == |Where(s[..|s| - 1], p)| + if p(s[|s| - 1]) then 1 else 0
  {
    var front := s[..|s| - 1];
    var last := |s| - 1;
    assert Where(front, p) == Where(s, p) - {last};
    if p(s[last]) {
      assert Where(s, p) == Where(front, p) + {last};
    } else {
      assert Where(s, p) == Where(front, p);
    }
  }

  /** The number of samples at or below the black level (`hist0`). */
  function CountBlack(s: seq<Byte>, black: int): (n: nat)
    ensures n <= |s|
  {
    if s == [] then 0
    else CountBlack(s[..|s| - 1], black) + if s[|s| - 1] <= black then 1 else 0
  }

  /** The number of samples above the black level and at or above the white level (`hist255`). */
  function CountWhite(s: seq<Byte>, black: int, white: int): (n: nat)
    ensures n <= |s|
  {
    if s == [] then 0
    else CountWhite(s[..|s| - 1], black, white) + if black < s[|s| - 1] && s[|s| - 1] >= white then 1 else 0
  }

  /** `hist0` counts exactly the positions whose sample is at or below the black level. */
  lemma {:induction false} CountBlackPositions(s: seq<Byte>, black: int)
    ensures CountBlack(s, black) == |Where(s, v => v <= black)|
  {
    if s != [] {
      CountBlackPositions(s[..|s| - 1], black);
      WhereSnoc(s, v => v <= black);
    }
  }

  /** `hist255` counts exactly the positions whose sample is above the black level and at or above the white level. */
  lemma {:induction false} CountWhitePositions(s: seq<Byte>, black: int, white: int)
    ensures CountWhite(s, black, white) == |Where(s, v => black < v && v >= white)|
  {
    if s != [] {
      CountWhitePositions(s[..|s| - 1], black, white);
      WhereSnoc(s, v => black < v && v >= white);
    }
  }

  /** Collecting one more sample: what each count and the kept samples become. */
  lemma CollectStep(seen: seq<Byte>, v: Byte, black: int, white: int)
    ensures Kept(seen + [v], white) == Kept(seen, white) + if v < white then [v] else []
    ensures CountBlack(seen + [v], black) == CountBlack(seen, black) + if v <= black then 1 else 0
    ensures CountWhite(seen + [v], black, white) == CountWhite(seen, black, white) + if black < v && v >= white then 1 else 0
  {
    assert (seen + [v])[..|seen|] == seen;
  }

  /**
   * No sample is counted twice: the black count, the white count and the
   * samples that are neither together are at most all samples, and when the
   * black level is below the white level, every sample is either kept or
   * counted white.
   */
  lemma {:induction false} HistogramPartition(s: seq<Byte>, black: int, white: int)
    ensures CountBlack(s, black) + CountWhite(s, black, white) <= |s|
    ensures black < white ==> |Kept(s, white)| + CountWhite(s, black, white) == |s|
  {
    if s != [] {
      HistogramPartition(s[..|s| - 1], black, white);
    }
  }

  // ---------------------------------------------------------------------
  // The median and the radius
  // ---------------------------------------------------------------------

  /**
   * The median as common/despeckle.c picks it from the sorted samples, with
   * `t = n / 2`: an odd count averages entries `t` and `t + 1`, an even count
   * takes entry `t`.
   */
  function MedianRule(sorted: seq<Byte>): (m: Byte)
    requires |sorted| > 1
    ensures var t := |sorted| / 2; var u := t + |sorted| % 2;
      (sorted[t] <= m <= sorted[u]) || (sorted[u] <= m <= sorted[t])
    ensures |sorted| % 2 == 0 ==> m == sorted[|sorted| / 2]
  {
    var t := |sorted| / 2;
    if |sorted| % 2 == 1 then (sorted[t] as int + sorted[t + 1] as int) / 2 else sorted[t]
  }

  /** The median of a sorted sequence lies between its first and last entries. */
  lemma MedianBetweenEnds(sorted: seq<Byte>)
    requires |sorted| > 1 && Sorted(sorted)
    ensures sorted[0] <= MedianRule(sorted) <= sorted[|sorted| - 1]
  {
  }

  /** The median value of kept samples. */
  function Median(kept: seq<Byte>): (m: Byte)
    requires |kept| > 1
    ensures exists i :: 0 <= i < |kept| && kept[i] <= m
    ensures exists j :: 0 <= j < |kept| && m <= kept[j]
  {
    var sorted := SortSeq(kept);
    MedianBetweenEnds(sorted);
    assert sorted[0] in multiset(kept) && sorted[|sorted| - 1] in multiset(kept);
    MedianRule(sorted)
  }

  /** The median of samples that all equal `v` is `v`. */
  lemma MedianOfUniform(kept: seq<Byte>, v: Byte)
    requires |kept| > 1 && forall i :: 0 <= i < |kept| ==> kept[i] == v
    ensures Median(kept) == v
  {
    var sorted := SortSeq(kept);
    forall i | 0 <= i < |sorted|
      ensures sorted[i] == v
    {
      assert sorted[i] in multiset(kept);
    }
  }

  /**
   * The adaptive radius step: grow by one, up to the full radius, when the
   * window has as many black or as many white samples as the radius;
   * otherwise shrink by one, down to 1.
   */
  function NextRadius(radius: int, hist0: int, hist255: int, maxRadius: int): (r: int)
    requires 0 <= radius <= maxRadius
    ensures 0 <= r <= maxRadius && radius - 1 <= r <= radius + 1
    ensures radius >= 1 ==> r >= 1
    ensures r == radius + 1 <==> (hist0 >= radius || hist255 >= radius) && radius < maxRadius
    ensures r == radius - 1 <==> hist0 < radius && hist255 < radius && radius > 1
  {
    if hist0 >= radius || hist255 >= radius then
      if radius < maxRadius then radius + 1 else radius
    else if radius > 1 then radius - 1
    else radius
  }

  // ---------------------------------------------------------------------
  // One pixel, one row, the whole selection
  // ---------------------------------------------------------------------

  /**
   * The state carried along a row: the current source image (changed by
   * recursive write-back), the output row and the current radius.
   */
  datatype RowState = RowState(img: Image, dst: seq<Byte>, radius: int)

  predicate ValidState(st: RowState, h: int, width: int, s: Settings)
  {
    |st.img| == h && Shaped(st.img, width) && |st.dst| == width && 0 <= st.radius <= s.radius
  }

  /** The samples of the window of radius `r` around byte `x` of row `y`. */
  function PixelWindow(img: Image, y: int, x: int, r: int, bpp: int, width: int): seq<Byte>
    requires bpp >= 1 && 0 <= x < width && 0 <= r && 0 <= y - r && y + r < |img| && Shaped(img, width)
  {
    WindowSamples(img, y - r, y + r + 1, XMin(x, r, bpp), XMax(x, r, bpp, width), bpp, width)
  }

  /** A window never holds more than `(2r + 1)^2` samples: the size of the sort array. */
  lemma PixelWindowSize(img: Image, y: int, x: int, r: int, bpp: int, width: int)
    requires bpp >= 1 && 0 <= x < width && 0 <= r && 0 <= y - r && y + r < |img| && Shaped(img, width)
    ensures |PixelWindow(img, y, x, r, bpp, width)| <= (2 * r + 1) * (2 * r + 1)
  {
    ColumnsInRow(x, r, bpp, width);
    WindowSamplesCount(img, y - r, y + r + 1, XMin(x, r, bpp), XMax(x, r, bpp, width), bpp, width);
    MulMonotone(2 * r + 1, |Columns(x, r, bpp, width)|, 2 * r + 1);
  }

  /** Filters byte `x` of row `y`: the body of the x loop. */
  function FilterPixel(st: RowState, s: Settings, y: int, x: int, bpp: int, width: int): (next: RowState)
    requires bpp >= 1 && 0 <= x < width && ValidState(st, |st.img|, width, s)
    requires s.radius <= y < |st.img| - s.radius
    ensures ValidState(next, |st.img|, width, s)
    ensures forall y' :: 0 <= y' < |st.img| && y' != y ==> next.img[y'] == st.img[y']
    ensures forall x' :: 0 <= x' < width && x' != x ==> next.dst[x'] == st.dst[x'] && next.img[y][x'] == st.img[y][x']
    ensures !Recursive(s.filterType) ==> next.img == st.img
  {
    var w := PixelWindow(st.img, y, x, st.radius, bpp, width);
    var kept := Kept(w, s.whiteLevel);
    var hist0 := CountBlack(w, s.blackLevel);
    var hist255 := CountWhite(w, s.blackLevel, s.whiteLevel);
    var radius := if Adaptive(s.filterType) then NextRadius(st.radius, hist0, hist255, s.radius) else st.radius;
    if |kept| > 1 then
      var v := Median(kept);
      var row: seq<Byte> := st.img[y][x := v];
      var img := if Recursive(s.filterType) then st.img[y := row] else st.img;
      RowState(img, st.dst[x := v], radius)
    else
      RowState(st.img, st.dst, radius)
  }

  /** Filters bytes `x..width-1` of row `y`. */
  function FilterRowFrom(st: RowState, s: Settings, y: int, x: int, bpp: int, width: int): (last: RowState)
    requires bpp >= 1 && 0 <= x <= width && ValidState(st, |st.img|, width, s)
    requires s.radius <= y < |st.img| - s.radius
    ensures ValidState(last, |st.img|, width, s)
    ensures forall y' :: 0 <= y' < |st.img| && y' != y ==> last.img[y'] == st.img[y']
    ensures forall x' :: 0 <= x' < x ==> last.dst[x'] == st.dst[x'] && last.img[y][x'] == st.img[y][x']
    ensures !Recursive(s.filterType) ==> last.img == st.img
    decreases width - x
  {
    if x == width then st
    else FilterRowFrom(FilterPixel(st, s, y, x, bpp, width), s, y, x + 1, bpp, width)
  }

  /**
   * Row `y` of the output, and the source image after it: rows within the
   * radius of the top or bottom edge are copied; the others are filtered
   * byte by byte, starting from a copy of the row with the full radius.
   */
  function FilterRow(img: Image, s: Settings, y: int, bpp: int, width: int): (st: RowState)
    requires bpp >= 1 && 0 <= s.radius && 0 <= y < |img| && Shaped(img, width)
    ensures ValidState(st, |img|, width, s)
    ensures forall y' :: 0 <= y' < |img| && y' != y ==> st.img[y'] == img[y']
    ensures !Recursive(s.filterType) ==> st.img == img
    ensures !(s.radius <= y < |img| - s.radius) ==> st.dst == img[y] && st.img == img
  {
    var start := RowState(img, img[y], s.radius);
    if s.radius <= y < |img| - s.radius then FilterRowFrom(start, s, y, 0, bpp, width)
    else start
  }

  /** The output rows so far and the source image as recursive write-back left it. */
  datatype PassResult = PassResult(rows: seq<seq<Byte>>, img: Image)

  /** The y loop from row `y` on, given the rows already written. */
  function PassFrom(img: Image, s: Settings, y: int, bpp: int, width: int, rows: seq<seq<Byte>>): (p: PassResult)
    requires bpp >= 1 && 0 <= s.radius && 0 <= y <= |img| && Shaped(img, width) && |rows| == y
    requires forall i :: 0 <= i < |rows| ==> |rows[i]| == width
    ensures |p.rows| == |img| && |p.img| == |img| && Shaped(p.img, width)
    ensures forall i :: 0 <= i < |p.rows| ==> |p.rows[i]| == width
    ensures p.rows[..y] == rows
    ensures forall y' :: 0 <= y' < y ==> p.img[y'] == img[y']
    decreases |img| - y
  {
    if y == |img| then PassResult(rows, img)
    else
      var st := FilterRow(img, s, y, bpp, width);
      var p := PassFrom(st.img, s, y + 1, bpp, width, rows + [st.dst]);
      assert p.rows[..y] == (p.rows[..y + 1])[..y];
      p
  }

  /** The filtered selection: every output row, and the final source image. */
  function Despeckled(src: Image, s: Settings, bpp: int, width: int): (p: PassResult)
    requires bpp >= 1 && 0 <= s.radius && Shaped(src, width)
    ensures |p.rows| == |src| && forall i :: 0 <= i < |p.rows| ==> |p.rows[i]| == width
  {
    PassFrom(src, s, 0, bpp, width, [])
  }

  // ---------------------------------------------------------------------
  // Properties of the pass
  // ---------------------------------------------------------------------

  /** From row `y` on, the rows of the current image are still the source rows. */
  lemma {:induction false} PassKeepsLaterRows(img: Image, src: Image, s: Settings, y: int, bpp: int, width: int, rows: seq<seq<Byte>>)
    requires bpp >= 1 && 0 <= s.radius && 0 <= y <= |img| && Shaped(img, width) && |rows| == y
    requires forall i :: 0 <= i < |rows| ==> |rows[i]| == width
    requires |src| == |img| && forall i :: y <= i < |img| ==> img[i] == src[i]
    ensures forall i :: y <= i < |img| && !(s.radius <= i < |img| - s.radius) ==>
      PassFrom(img, s, y, bpp, width, rows).rows[i] == src[i]
    decreases |img| - y
  {
    if y < |img| {
      var st := FilterRow(img, s, y, bpp, width);
      PassKeepsLaterRows(st.img, src, s, y + 1, bpp, width, rows + [st.dst]);
      var p := PassFrom(st.img, s, y + 1, bpp, width, rows + [st.dst]);
      assert p.rows[y] == (p.rows[..y + 1])[y];
    }
  }

  /**
   * Rows within the radius of the top or the bottom edge of the selection
   * are written out exactly as they were read.
   */
  lemma EdgeRowsCopied(src: Image, s: Settings, bpp: int, width: int)
    requires bpp >= 1 && 0 <= s.radius && Shaped(src, width)
    ensures forall y :: 0 <= y < |src| && (y < s.radius || y >= |src| - s.radius) ==>
      Despeckled(src, s, bpp, width).rows[y] == src[y]
  {
    PassKeepsLaterRows(src, src, s, 0, bpp, width, []);
  }

  /** Without the recursive flag every row is filtered from the unchanged source. */
  lemma {:induction false} NonRecursiveReadsSource(img: Image, s: Settings, y: int, bpp: int, width: int, rows: seq<seq<Byte>>)
    requires bpp >= 1 && 0 <= s.radius && 0 <= y <= |img| && Shaped(img, width) && |rows| == y
    requires forall i :: 0 <= i < |rows| ==> |rows[i]| == width
    requires !Recursive(s.filterType)
    ensures PassFrom(img, s, y, bpp, width, rows).img == img
    ensures forall i :: y <= i < |img| ==>
      PassFrom(img, s, y, bpp, width, rows).rows[i] == FilterRow(img, s, i, bpp, width).dst
    decreases |img| - y
  {
    if y < |img| {
      var st := FilterRow(img, s, y, bpp, width);
      NonRecursiveReadsSource(img, s, y + 1, bpp, width, rows + [st.dst]);
      var p := PassFrom(img, s, y + 1, bpp, width, rows + [st.dst]);
      assert p.rows[y] == (p.rows[..y + 1])[y];
    }
  }

  // ---------------------------------------------------------------------
  // Uniform images
  // ---------------------------------------------------------------------

  /** Every byte of the image is the value `v` gives its channel: a flat colour. */
  predicate Uniform(img: Image, v: seq<Byte>, bpp: int)
    requires bpp >= 1 && |v| == bpp
  {
    forall y, x :: 0 <= y < |img| && 0 <= x < |img[y]| ==> img[y][x] == v[x % bpp]
  }

  /** The samples of a flat row are all the value of the first column's channel. */
  lemma RowSamplesUniform(row: seq<Byte>, tx: int, xmax: int, bpp: int, c: Byte)
    requires bpp >= 1 && 0 <= tx && xmax <= |row|
    requires forall x :: 0 <= x < |row| && x % bpp == tx % bpp ==> row[x] == c
    ensures forall i :: 0 <= i < |RowSamples(row, tx, xmax, bpp)| ==> RowSamples(row, tx, xmax, bpp)[i] == c
  {
    RowSamplesAtColumns(row, tx, xmax, bpp);
    ColumnsFromChannel(tx, xmax, bpp);
  }

  /** The samples of a window over a flat image are all one value. */
  lemma {:induction false} WindowSamplesUniform(img: Image, lo: int, hi: int, xmin: int, xmax: int, bpp: int, width: int, v: seq<Byte>)
    requires 0 <= lo <= hi <= |img| && Shaped(img, width)
    requires bpp >= 1 && 0 <= xmin && xmax <= width && |v| == bpp && Uniform(img, v, bpp)
    ensures forall i :: 0 <= i < |WindowSamples(img, lo, hi, xmin, xmax, bpp, width)| ==>
      WindowSamples(img, lo, hi, xmin, xmax, bpp, width)[i] == v[xmin % bpp]
    decreases hi - lo
  {
    if hi > lo {
      WindowSamplesUniform(img, lo, hi - 1, xmin, xmax, bpp, width, v);
      RowSamplesUniform(img[hi - 1], xmin, xmax, bpp, v[xmin % bpp]);
    }
  }

  /** On a flat image one x turn writes back and outputs the byte already there. */
  lemma FilterPixelUniform(st: RowState, s: Settings, y: int, x: int, bpp: int, width: int, v: seq<Byte>)
    requires bpp >= 1 && 0 <= x < width && ValidState(st, |st.img|, width, s)
    requires s.radius <= y < |st.img| - s.radius
    requires |v| == bpp && Uniform(st.img, v, bpp) && st.dst == st.img[y]
    ensures FilterPixel(st, s, y, x, bpp, width).img == st.img
    ensures FilterPixel(st, s, y, x, bpp, width).dst == st.dst
  {
    var r := st.radius;
    var w := PixelWindow(st.img, y, x, r, bpp, width);
    var c := v[x % bpp];
    XMinChannel(x, r, bpp);
    WindowSamplesUniform(st.img, y - r, y + r + 1, XMin(x, r, bpp), XMax(x, r, bpp, width), bpp, width, v);
    var kept := Kept(w, s.whiteLevel);
    if |kept| > 1 {
      forall i | 0 <= i < |kept|
        ensures kept[i] == c
      {
        assert kept[i] in kept;
      }
      MedianOfUniform(kept, c);
      assert st.img[y][x] == c;
      assert st.img[y][x := c] == st.img[y];
    }
  }

  /** On a flat image the x loop leaves the image and the copied row as they were. */
  lemma {:induction false} FilterRowFromUniform(st: RowState, s: Settings, y: int, x: int, bpp: int, width: int, v: seq<Byte>)
    requires bpp >= 1 && 0 <= x <= width && ValidState(st, |st.img|, width, s)
    requires s.radius <= y < |st.img| - s.radius
    requires |v| == bpp && Uniform(st.img, v, bpp) && st.dst == st.img[y]
    ensures FilterRowFrom(st, s, y, x, bpp, width).img == st.img
    ensures FilterRowFrom(st, s, y, x, bpp, width).dst == st.img[y]
    decreases width - x
  {
    if x < width {
      var next := FilterPixel(st, s, y, x, bpp, width);
      FilterPixelUniform(st, s, y, x, bpp, width, v);
      assert next.img == st.img && next.dst == st.dst;
      FilterRowFromUniform(next, s, y, x + 1, bpp, width, v);
      assert FilterRowFrom(st, s, y, x, bpp, width) == FilterRowFrom(next, s, y, x + 1, bpp, width);
    }
  }

  /** On a flat image every row is output as it is, and the image is left alone. */
  lemma FilterRowUniform(img: Image, s: Settings, y: int, bpp: int, width: int, v: seq<Byte>)
    requires bpp >= 1 && 0 <= s.radius && 0 <= y < |img| && Shaped(img, width)
    requires |v| == bpp && Uniform(img, v, bpp)
    ensures FilterRow(img, s, y, bpp, width).img == img
    ensures FilterRow(img, s, y, bpp, width).dst == img[y]
  {
    if s.radius <= y < |img| - s.radius {
      FilterRowFromUniform(RowState(img, img[y], s.radius), s, y, 0, bpp, width, v);
    }
  }

  /** From row `y` on, a pass over a flat image outputs the image's own rows. */
  lemma {:induction false} PassFromUniform(img: Image, s: Settings, y: int, bpp: int, width: int, rows: seq<seq<Byte>>, v: seq<Byte>)
    requires bpp >= 1 && 0 <= s.radius && 0 <= y <= |img| && Shaped(img, width) && |rows| == y
    requires forall i :: 0 <= i < |rows| ==> |rows[i]| == width
    requires |v| == bpp && Uniform(img, v, bpp)
    ensures PassFrom(img, s, y, bpp, width, rows).rows == rows + img[y..]
    decreases |img| - y
  {
    if y < |img| {
      FilterRowUniform(img, s, y, bpp, width, v);
      PassFromUniform(img, s, y + 1, bpp, width, rows + [img[y]], v);
      assert (rows + [img[y]]) + img[y + 1..] == rows + img[y..];
    }
  }

  /**
   * Despeckling is idempotent on a flat colour: a uniform image is output
   * unchanged, whatever the radius, the filter type and the levels.
   */
  lemma DespeckledUniform(img: Image, s: Settings, bpp: int, width: int, v: seq<Byte>)
    requires bpp >= 1 && 0 <= s.radius && Shaped(img, width)
    requires |v| == bpp && Uniform(img, v, bpp)
    ensures Despeckled(img, s, bpp, width).rows == img
  {
    PassFromUniform(img, s, 0, bpp, width, [], v);
  }
}
