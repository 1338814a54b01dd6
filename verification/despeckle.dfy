/**
 * The two filter loops of common/despeckle.c: `despeckle()`, which streams
 * the selection through a ring buffer of `2 * tileHeight` rows, and the
 * filter loop of `preview_update()`, which works on the fully loaded preview
 * rectangle. Both are proved to compute `DespeckleRule.Despeckled`.
 *
 * Reading pixel regions from the host is modelled as copying rows of the
 * source image, given as a sequence of rows; writing an output row is
 * modelled as appending it to the returned sequence of rows.
 */
module Despeckle {
  import opened CTypes
  import opened Arith
  import opened ShellSort
  import opened DespeckleRule

  // ---------------------------------------------------------------------
  // The ring buffer of source rows
  // ---------------------------------------------------------------------

  /**
   * Image rows `lo..hi-1` (those of them inside the image) are held in the
   * ring, row `Y` in slot `Y % m`.
   */
  ghost predicate Resident(ring: array2<Byte>, img: Image, lo: int, hi: int)
    reads ring
  {
    ring.Length0 > 0 &&
    forall Y, X :: lo <= Y < hi && 0 <= Y < |img| && 0 <= X < |img[Y]| && X < ring.Length1 ==>
      ring[Y % ring.Length0, X] == img[Y][X]
  }

  /** Within `m` consecutive rows, slots are distinct. */
  lemma SlotsDistinct(Y: int, Z: int, m: int)
    requires m > 0 && Y != Z && -m < Y - Z < m
    ensures Y % m != Z % m
  {
    ModInjective(Y, Z, m);
  }

  /** The `k`-th row after `lasty` goes to slot `row + k` when that does not wrap. */
  lemma SlotAfter(lasty: int, row: int, k: int, m: int)
    requires m > 0 && row == lasty % m && 0 <= k && row + k < m
    ensures (lasty + k) % m == row + k
  {
    ModAddRemainder(lasty, k, m);
    ModSmall(row + k, m);
  }

  /**
   * The slot expression of common/despeckle.c, `(row + y - lasty + d + m) % m`
   * with `row == lasty % m`, is the slot of row `y + d`.
   */
  lemma SlotExpression(row: int, lasty: int, y: int, d: int, m: int)
    requires m > 0 && row == lasty % m && row + y - lasty + d + m >= 0
    ensures (row + y - lasty + d + m) % m == (y + d) % m
  {
    assert row == lasty - (lasty / m) * m;
    assert row + y - lasty + d + m == (y + d) + (1 - lasty / m) * m;
    ModAddMultiple(y + d, 1 - lasty / m, m);
  }

  /**
   * Loads source rows `lasty..lasty+count-1` into slots `row..row+count-1`
   * (`gimp_pixel_rgn_get_rect` into `src_rows[row]`). The ring then holds the
   * `m` rows that end at `lasty + count`.
   */
  method LoadBlock(ring: array2<Byte>, src: Image, ghost img: Image, row: int, lasty: int, count: int)
    requires Shaped(src, ring.Length1) && |img| == |src| && Shaped(img, ring.Length1)
    requires 0 <= lasty && 0 <= count && lasty + count <= |src|
    requires forall Y :: lasty <= Y < |img| ==> img[Y] == src[Y]
    requires ring.Length0 > 0 && row == lasty % ring.Length0 && row + count <= ring.Length0
    requires Resident(ring, img, lasty - ring.Length0, lasty)
    modifies ring
    ensures Resident(ring, img, lasty + count - ring.Length0, lasty + count)
  {
    var m := ring.Length0;
    var k := 0;
    while k < count
      invariant 0 <= k <= count
      invariant forall Y, X :: lasty + k - m <= Y < lasty && 0 <= Y && 0 <= X < ring.Length1 ==>
        ring[Y % m, X] == img[Y][X]
      invariant forall Y, X :: lasty <= Y < lasty + k && 0 <= X < ring.Length1 ==>
        ring[Y % m, X] == img[Y][X]
    {
      SlotAfter(lasty, row, k, m);
      var slot := row + k;
      ghost var line := img[lasty + k];
      var X := 0;
      while X < ring.Length1
        invariant 0 <= X <= ring.Length1
        invariant forall X' :: 0 <= X' < X ==> ring[slot, X'] == line[X']
        invariant forall Y, X' :: lasty + k + 1 - m <= Y < lasty + k && 0 <= Y && 0 <= X' < ring.Length1 ==>
          ring[Y % m, X'] == img[Y][X']
      {
        ring[slot, X] := src[lasty + k][X];
        forall Y | lasty + k + 1 - m <= Y < lasty + k && 0 <= Y
          ensures Y % m != row + k
        {
          SlotsDistinct(Y, lasty + k, m);
        }
        X := X + 1;
      }
      k := k + 1;
    }
  }

  /**
   * Collects the samples of one buffered row at columns `xmin, xmin + bpp,
   * ...` below `xmax`, after the samples `seen0` collected so far: every
   * sample goes to `sort[count]`, and `count` advances only for a sample
   * below the white level.
   */
  method CollectRow(ring: array2<Byte>, trow: int, ghost line: seq<Byte>,
                    xmin: int, xmax: int, bpp: int, s: Settings, sort: array<Byte>,
                    count0: int, hist00: int, hist2550: int, ghost seen0: seq<Byte>)
    returns (count: int, hist0: int, hist255: int, ghost seen: seq<Byte>)
    requires bpp >= 1 && 0 <= trow < ring.Length0 && |line| == ring.Length1
    requires forall X :: 0 <= X < ring.Length1 ==> ring[trow, X] == line[X]
    requires 0 <= xmin && xmax <= |line|
    requires 0 <= count0 <= |seen0| && |seen0| + |RowSamples(line, xmin, xmax, bpp)| <= sort.Length
    requires sort[..count0] == Kept(seen0, s.whiteLevel)
    requires hist00 == CountBlack(seen0, s.blackLevel) && hist2550 == CountWhite(seen0, s.blackLevel, s.whiteLevel)
    modifies sort
    ensures seen == seen0 + RowSamples(line, xmin, xmax, bpp)
    ensures 0 <= count <= |seen|
    ensures sort[..count] == Kept(seen, s.whiteLevel)
    ensures hist0 == CountBlack(seen, s.blackLevel) && hist255 == CountWhite(seen, s.blackLevel, s.whiteLevel)
  {
    count, hist0, hist255, seen := count0, hist00, hist2550, seen0;
    var tx := xmin;
    while tx < xmax
      invariant xmin <= tx
      invariant seen0 + RowSamples(line, xmin, xmax, bpp) == seen + RowSamples(line, tx, xmax, bpp)
      invariant 0 <= count <= |seen|
      invariant sort[..count] == Kept(seen, s.whiteLevel)
      invariant hist0 == CountBlack(seen, s.blackLevel) && hist255 == CountWhite(seen, s.blackLevel, s.whiteLevel)
      decreases xmax - tx
    {
      var v := ring[trow, tx];
      assert seen + RowSamples(line, tx, xmax, bpp) == (seen + [v]) + RowSamples(line, tx + bpp, xmax, bpp);
      ghost var before := sort[..count];
      sort[count] := v;
      assert sort[..count] == before;
      if v <= s.blackLevel {
        hist0 := hist0 + 1;
      } else if v >= s.whiteLevel {
        hist255 := hist255 + 1;
      }
      if v < s.whiteLevel {
        assert sort[..count + 1] == before + [v];
        count := count + 1;
      }
      CollectStep(seen, v, s.blackLevel, s.whiteLevel);
      seen := seen + [v];
      tx := tx + bpp;
    }
    assert seen + RowSamples(line, tx, xmax, bpp) == seen;
  }

  /**
   * The first sampled column and the end of the sampled columns around byte
   * `x`: `radius` pixels either side, clamped to the row.
   */
  method ColumnBounds(x: int, r: int, bpp: int, width: int) returns (xmin: int, xmax: int)
    requires bpp >= 1 && 0 <= r && 0 <= x < width
    ensures xmin == XMin(x, r, bpp) && xmax == XMax(x, r, bpp, width)
    ensures 0 <= xmin && xmax <= width
  {
    xmin := x - r * bpp;
    xmax := x + (r + 1) * bpp;
    if xmin < 0 {
      xmin := x % bpp;
    }
    if xmax > width {
      xmax := width;
    }
  }

  /**
   * Collects rows `lo..hi-1` of a window from the ring, walking the slots
   * from `startrow` (the slot of `lo`) until `endrow` (the slot of `hi`).
   */
  method CollectWindow(ring: array2<Byte>, sort: array<Byte>, ghost img: Image, s: Settings,
                       startrow: int, endrow: int, ghost lo: int, ghost hi: int,
                       xmin: int, xmax: int, bpp: int)
    returns (count: int, hist0: int, hist255: int)
    requires bpp >= 1 && 0 <= xmin && xmax <= ring.Length1 && Shaped(img, ring.Length1)
    requires 0 <= lo <= hi < |img| + 1 && ring.Length0 > hi - lo
    requires startrow == lo % ring.Length0 && endrow == hi % ring.Length0
    requires forall Y, X :: lo <= Y < hi && 0 <= X < ring.Length1 ==> ring[Y % ring.Length0, X] == img[Y][X]
    requires |WindowSamples(img, lo, hi, xmin, xmax, bpp, ring.Length1)| <= sort.Length
    modifies sort
    ensures 0 <= count <= sort.Length
    ensures sort[..count] == Kept(WindowSamples(img, lo, hi, xmin, xmax, bpp, ring.Length1), s.whiteLevel)
    ensures hist0 == CountBlack(WindowSamples(img, lo, hi, xmin, xmax, bpp, ring.Length1), s.blackLevel)
    ensures hist255 == CountWhite(WindowSamples(img, lo, hi, xmin, xmax, bpp, ring.Length1), s.blackLevel, s.whiteLevel)
  {
    var m, width := ring.Length0, ring.Length1;
    count, hist0, hist255 := 0, 0, 0;
    var trow := startrow;
    ghost var Y := lo;
    ghost var seen: seq<Byte> := [];
    while trow != endrow
      invariant lo <= Y <= hi && trow == Y % m
      invariant seen == WindowSamples(img, lo, Y, xmin, xmax, bpp, width)
      invariant 0 <= count <= |seen| <= sort.Length
      invariant sort[..count] == Kept(seen, s.whiteLevel)
      invariant hist0 == CountBlack(seen, s.blackLevel) && hist255 == CountWhite(seen, s.blackLevel, s.whiteLevel)
      decreases hi - Y
    {
      if Y == hi {
        assert false;
      }
      ghost var line := img[Y];
      assert seen + RowSamples(line, xmin, xmax, bpp) == WindowSamples(img, lo, Y + 1, xmin, xmax, bpp, width);
      WindowPrefix(img, lo, Y + 1, hi, xmin, xmax, bpp, width);
      count, hist0, hist255, seen := CollectRow(ring, trow, line, xmin, xmax, bpp, s, sort,
                                                count, hist0, hist255, seen);
      ModStep(Y, m);
      trow := (trow + 1) % m;
      Y := Y + 1;
    }
    if Y != hi {
      SlotsDistinct(Y, hi, m);
    }
  }

  /**
   * Collects the window of byte `x` of row `y` with radius `r` from the ring:
   * `sort[..count]` holds the samples below the white level, `hist0` and
   * `hist255` count the black and the white samples.
   */
  method CollectRing(ring: array2<Byte>, sort: array<Byte>, ghost img: Image, s: Settings,
                     y: int, x: int, r: int, row: int, lasty: int, bpp: int)
    returns (count: int, hist0: int, hist255: int)
    requires bpp >= 1 && 0 <= x < ring.Length1 && 0 <= r && 0 <= y - r && y + r < |img|
    requires Shaped(img, ring.Length1)
    requires ring.Length0 > 2 * r + 1 && row == lasty % ring.Length0
    requires lasty - ring.Length0 <= y - r && y + r < lasty
    requires Resident(ring, img, lasty - ring.Length0, lasty)
    requires sort.Length >= (2 * r + 1) * (2 * r + 1)
    modifies sort
    ensures 0 <= count <= sort.Length
    ensures sort[..count] == Kept(PixelWindow(img, y, x, r, bpp, ring.Length1), s.whiteLevel)
    ensures hist0 == CountBlack(PixelWindow(img, y, x, r, bpp, ring.Length1), s.blackLevel)
    ensures hist255 == CountWhite(PixelWindow(img, y, x, r, bpp, ring.Length1), s.blackLevel, s.whiteLevel)
  {
    var m, width := ring.Length0, ring.Length1;
    var xmin, xmax := ColumnBounds(x, r, bpp, width);
    PixelWindowSize(img, y, x, r, bpp, width);
    var startrow := (row + y - lasty - r + m) % m;
    var endrow := (row + y - lasty + r + 1 + m) % m;
    SlotExpression(row, lasty, y, -r, m);
    SlotExpression(row, lasty, y, r + 1, m);
    count, hist0, hist255 := CollectWindow(ring, sort, img, s, startrow, endrow, y - r, y + r + 1, xmin, xmax, bpp);
  }

  /**
   * Shell-sorts the `count` collected samples and picks the median from the
   * sorted array (entries `t` and `t + 1` for an odd count, entry `t` for an
   * even count, with `t = count / 2`).
   */
  method SortedMedian(sort: array<Byte>, count: int) returns (v: Byte)
    requires 1 < count <= sort.Length
    modifies sort
    ensures v == Median(old(sort[..count]))
  {
    ghost var kept := sort[..count];
    ShellSort.Sort(sort, count);
    SortedUnique(sort[..count], SortSeq(kept));
    var t := count / 2;
    if count % 2 == 1 {
      v := (sort[t] as int + sort[t + 1] as int) / 2;
    } else {
      v := sort[t];
    }
  }

  /**
   * The recursive write-back of `despeckle()`: the filtered byte `v` goes
   * into the ring slot of row `y`, and so into the image the ring holds.
   */
  method WriteBack(ring: array2<Byte>, ghost img: Image, y: int, x: int, v: Byte, cur: int, lasty: int)
    returns (ghost img': Image)
    requires 0 <= y < |img| && 0 <= x < |img[y]| && x < ring.Length1
    requires ring.Length0 > 0 && cur == y % ring.Length0 && lasty - ring.Length0 <= y < lasty
    requires Resident(ring, img, lasty - ring.Length0, lasty)
    modifies ring
    ensures var line: seq<Byte> := img[y][x := v]; img' == img[y := line]
    ensures Resident(ring, img', lasty - ring.Length0, lasty)
  {
    var m := ring.Length0;
    ring[cur, x] := v;
    ghost var line: seq<Byte> := img[y][x := v];
    img' := img[y := line];
    forall Y, X | lasty - m <= Y < lasty && 0 <= Y < |img'| && 0 <= X < |img'[Y]| && X < ring.Length1
      ensures ring[Y % m, X] == img'[Y][X]
    {
      if Y != y {
        SlotsDistinct(Y, y, m);
        assert img'[Y][X] == img[Y][X];
      }
    }
  }

  /**
   * The body of the x loop of `despeckle()` for byte `x` of row `y`: the
   * byte becomes the median of its window when more than one sample is below
   * the white level, the ring is written back in recursive mode, and the
   * radius adapts in adaptive mode.
   */
  method FilterRingPixel(ring: array2<Byte>, dst: array<Byte>, sort: array<Byte>, ghost img: Image,
                         s: Settings, y: int, x: int, radius: int, row: int, lasty: int, cur: int, bpp: int)
    returns (radius': int, ghost img': Image)
    requires bpp >= 1 && dst.Length == ring.Length1 && 0 <= x < ring.Length1
    requires ValidState(RowState(img, dst[..], radius), |img|, ring.Length1, s)
    requires s.radius <= y < |img| - s.radius && ring.Length0 > 2 * s.radius + 1
    requires row == lasty % ring.Length0 && lasty - ring.Length0 <= y - s.radius && y + s.radius < lasty
    requires cur == y % ring.Length0
    requires Resident(ring, img, lasty - ring.Length0, lasty)
    requires sort.Length == (2 * s.radius + 1) * (2 * s.radius + 1) && sort != dst
    modifies ring, dst, sort
    ensures RowState(img', dst[..], radius') == FilterPixel(RowState(img, old(dst[..]), radius), s, y, x, bpp, ring.Length1)
    ensures Resident(ring, img', lasty - ring.Length0, lasty)
  {
    var m, width := ring.Length0, ring.Length1;
    SquareMonotone(2 * radius + 1, 2 * s.radius + 1);
    ghost var dst0 := dst[..];
    ghost var spec := FilterPixel(RowState(img, dst0, radius), s, y, x, bpp, width);
    var count, hist0, hist255 := CollectRing(ring, sort, img, s, y, x, radius, row, lasty, bpp);
    ghost var w := PixelWindow(img, y, x, radius, bpp, width);
    ghost var kept := Kept(w, s.whiteLevel);
    assert |kept| == count;
    img' := img;
    if count > 1 {
      var v := SortedMedian(sort, count);
      assert v == Median(kept);
      dst[x] := v;
      assert dst[..] == dst0[x := v];
      if Recursive(s.filterType) {
        img' := WriteBack(ring, img, y, x, v, cur, lasty);
      }
    }
    radius' := radius;
    if Adaptive(s.filterType) {
      if hist0 >= radius || hist255 >= radius {
        if radius < s.radius {
          radius' := radius + 1;
        }
      } else if radius > 1 {
        radius' := radius - 1;
      }
      assert radius' == NextRadius(radius, hist0, hist255, s.radius);
    }
    assert spec.radius == radius';
    assert spec.img == img';
    assert spec.dst == dst[..];
  }

  /**
   * The x loop of `despeckle()` over row `y`, whose copy is in `dst`, with
   * the radius starting from the full radius.
   */
  method FilterRingRow(ring: array2<Byte>, dst: array<Byte>, sort: array<Byte>, ghost img: Image,
                       s: Settings, y: int, row: int, lasty: int, cur: int, bpp: int)
    returns (ghost next: Image)
    requires bpp >= 1 && dst.Length == ring.Length1 && Shaped(img, ring.Length1)
    requires 0 <= s.radius <= y < |img| - s.radius && ring.Length0 > 2 * s.radius + 1
    requires row == lasty % ring.Length0 && lasty - ring.Length0 <= y - s.radius && y + s.radius < lasty
    requires cur == y % ring.Length0
    requires Resident(ring, img, lasty - ring.Length0, lasty)
    requires sort.Length == (2 * s.radius + 1) * (2 * s.radius + 1) && sort != dst
    requires dst[..] == img[y]
    modifies ring, dst, sort
    ensures dst[..] == FilterRow(img, s, y, bpp, ring.Length1).dst
    ensures next == FilterRow(img, s, y, bpp, ring.Length1).img
    ensures Resident(ring, next, lasty - ring.Length0, lasty)
  {
    var width := ring.Length1;
    var radius := s.radius;
    next := img;
    var x := 0;
    while x < width
      invariant 0 <= x <= width
      invariant ValidState(RowState(next, dst[..], radius), |img|, width, s)
      invariant FilterRowFrom(RowState(next, dst[..], radius), s, y, x, bpp, width) ==
        FilterRowFrom(RowState(img, img[y], s.radius), s, y, 0, bpp, width)
      invariant Resident(ring, next, lasty - ring.Length0, lasty)
    {
      ghost var st := RowState(next, dst[..], radius);
      assert FilterRowFrom(st, s, y, x, bpp, width) ==
        FilterRowFrom(FilterPixel(st, s, y, x, bpp, width), s, y, x + 1, bpp, width);
      radius, next := FilterRingPixel(ring, dst, sort, next, s, y, x, radius, row, lasty, cur, bpp);
      x := x + 1;
    }
    assert FilterRowFrom(RowState(next, dst[..], radius), s, y, width, bpp, width) == RowState(next, dst[..], radius);
  }

  /** What the y loop of `despeckle()` keeps true of its ring buffer before row `y`. */
  ghost predicate RingReady(ring: array2<Byte>, img: Image, radius: int, tileHeight: int,
                            y: int, row: int, lasty: int)
    reads ring
  {
    tileHeight >= 1 && ring.Length0 == 2 * tileHeight && 0 <= lasty <= |img| && row == lasty % ring.Length0 &&
    (lasty < |img| ==> row == 0 || row == tileHeight) &&
    (lasty >= y + radius || lasty == |img|) && lasty <= y + radius + tileHeight &&
    Resident(ring, img, lasty - ring.Length0, lasty)
  }

  /**
   * The block load at the top of the y loop: when row `y + radius` is not yet
   * buffered and rows remain, the next tile height of rows (or what is left
   * of the selection) is loaded after the last loaded row.
   */
  method LoadNext(ring: array2<Byte>, src: Image, ghost img: Image, s: Settings, tileHeight: int,
                  y: int, row: int, lasty: int, rowcount: int)
    returns (row': int, lasty': int, rowcount': int)
    requires Shaped(src, ring.Length1) && |img| == |src| && Shaped(img, ring.Length1)
    requires tileHeight >= 1 && 0 <= s.radius && 0 <= y < |src|
    requires forall Y :: y <= Y < |img| ==> img[Y] == src[Y]
    requires RingReady(ring, img, s.radius, tileHeight, y, row, lasty)
    modifies ring
    ensures RingReady(ring, img, s.radius, tileHeight, y + 1, row', lasty')
    ensures lasty' > y && (y + s.radius < |img| ==> lasty' > y + s.radius)
    ensures lasty' <= y + s.radius + tileHeight
    ensures lasty' == lasty ==> rowcount' == rowcount
    ensures lasty' != lasty ==> rowcount' == rowcount - tileHeight + (lasty' - lasty)
  {
    var h, maxRow := |src|, ring.Length0;
    row', lasty', rowcount' := row, lasty, rowcount;
    if y + s.radius >= lasty && lasty < h {
      rowcount' := rowcount' - tileHeight;
      var i := h - lasty;
      if i > tileHeight {
        i := tileHeight;
      }
      LoadBlock(ring, src, img, row, lasty, i);
      rowcount' := rowcount' + i;
      lasty' := lasty + i;
      ModAddRemainder(lasty, i, maxRow);
      if row + i < maxRow {
        ModSmall(row + i, maxRow);
      } else {
        assert row + i == 0 + 1 * maxRow;
        ModSmall(0, maxRow);
        ModAddMultiple(0, 1, maxRow);
      }
      assert lasty' < h ==> i == tileHeight;
      row' := (row + i) % maxRow;
    }
  }

  /**
   * The body of the y loop of `despeckle()` after the block load: copies row
   * `y` from its slot into `dst` and, unless the row is within the radius of
   * the top or bottom edge, filters it.
   */
  method FilterRingLine(ring: array2<Byte>, dst: array<Byte>, sort: array<Byte>, ghost img: Image,
                        s: Settings, bpp: int, tileHeight: int, h: int, y: int, row: int, lasty: int)
    returns (ghost next: Image)
    requires h == |img| && bpp >= 1 && dst.Length == ring.Length1 && Shaped(img, ring.Length1)
    requires tileHeight >= 1 && 0 <= s.radius && 2 * s.radius <= tileHeight && 0 <= y < |img|
    requires sort.Length == (2 * s.radius + 1) * (2 * s.radius + 1) && sort != dst
    requires ring.Length0 == 2 * tileHeight && 0 <= lasty <= |img| && row == lasty % ring.Length0
    requires lasty > y && (y + s.radius < |img| ==> lasty > y + s.radius)
    requires lasty <= y + s.radius + tileHeight
    requires Resident(ring, img, lasty - ring.Length0, lasty)
    modifies ring, dst, sort
    ensures dst[..] == FilterRow(img, s, y, bpp, ring.Length1).dst
    ensures next == FilterRow(img, s, y, bpp, ring.Length1).img
    ensures Resident(ring, next, lasty - ring.Length0, lasty)
  {
    var maxRow := ring.Length0;
    var radius := s.radius;
    var cur := (row + y - lasty + maxRow) % maxRow;
    SlotExpression(row, lasty, y, 0, maxRow);
    ghost var line := img[y];
    CopySlot(ring, cur, dst);
    assert dst[..] == line;
    next := img;
    if y >= radius && y < h - radius {
      next := FilterRingRow(ring, dst, sort, img, s, y, row, lasty, cur, bpp);
    }
  }

  // ---------------------------------------------------------------------
  // The y loop shared by both filter loops
  // ---------------------------------------------------------------------

  /**
   * Before row `y` of either y loop: `out` holds the first `y` output rows,
   * `img` is the source as the recursive write-back has left it, and the
   * rest of the pass from here yields `Despeckled(src, ...)`.
   */
  ghost predicate PassAt(src: Image, s: Settings, bpp: int, width: int, img: Image, y: int, out: seq<seq<Byte>>)
  {
    bpp >= 1 && 0 <= s.radius && Shaped(src, width) && 0 <= y <= |src| &&
    |img| == |src| && Shaped(img, width) &&
    |out| == y && (forall i :: 0 <= i < y ==> |out[i]| == width) &&
    (forall Y :: y <= Y < |src| ==> img[Y] == src[Y]) &&
    Despeckled(src, s, bpp, width) == PassFrom(img, s, y, bpp, width, out)
  }

  /** Filtering row `y` and appending its output moves the pass on by one row. */
  lemma PassAdvance(src: Image, s: Settings, bpp: int, width: int, img: Image, y: int, out: seq<seq<Byte>>)
    requires PassAt(src, s, bpp, width, img, y, out) && y < |src|
    ensures PassAt(src, s, bpp, width, FilterRow(img, s, y, bpp, width).img, y + 1,
                   out + [FilterRow(img, s, y, bpp, width).dst])
  {
  }

  /** After the last row, the output rows are those of the filtered selection. */
  lemma PassDone(src: Image, s: Settings, bpp: int, width: int, img: Image, out: seq<seq<Byte>>)
    requires PassAt(src, s, bpp, width, img, |src|, out)
    ensures out == Despeckled(src, s, bpp, width).rows
  {
  }

  /**
   * `despeckle()`: filters the selection `src` (rows of `width` bytes, pixels
   * of `bpp` bytes), streaming it through a ring of `2 * tileHeight` rows
   * loaded a tile height at a time, and returns the output rows.
   */
  method Despeckle(src: Image, s: Settings, bpp: int, width: int, tileHeight: int)
    returns (out: seq<seq<Byte>>)
    requires bpp >= 1 && 0 <= width && Shaped(src, width)
    requires tileHeight >= 1 && 0 <= s.radius && 2 * s.radius <= tileHeight
    ensures out == Despeckled(src, s, bpp, width).rows
  {
    var h := |src|;
    var size := 2 * s.radius + 1;
    var maxRow := 2 * tileHeight;
    var ring := new Byte[maxRow, width];
    var dst := new Byte[width];
    var sort := new Byte[size * size];

    // Pre-load the first block of rows.
    var rowcount := if h < tileHeight then h else tileHeight;
    ghost var img := src;
    ModSmall(0, maxRow);
    LoadBlock(ring, src, img, 0, 0, rowcount);
    var row := rowcount;
    var lasty := rowcount;
    ModSmall(rowcount, maxRow);

    out := [];
    var y := 0;
    while y < h
      invariant PassAt(src, s, bpp, width, img, y, out)
      invariant RingReady(ring, img, s.radius, tileHeight, y, row, lasty)
    {
      row, lasty, rowcount := LoadNext(ring, src, img, s, tileHeight, y, row, lasty, rowcount);
      PassAdvance(src, s, bpp, width, img, y, out);
      img := FilterRingLine(ring, dst, sort, img, s, bpp, tileHeight, h, y, row, lasty);
      out := out + [dst[..]];
      y := y + 1;
    }
    PassDone(src, s, bpp, width, img, out);
  }

  /** Copies slot `slot` of the ring into `dst` (the `memcpy` of the current row). */
  method CopySlot(ring: array2<Byte>, slot: int, dst: array<Byte>)
    requires 0 <= slot < ring.Length0 && dst.Length == ring.Length1
    modifies dst
    ensures forall X :: 0 <= X < dst.Length ==> dst[X] == ring[slot, X]
  {
    var X := 0;
    while X < dst.Length
      invariant 0 <= X <= dst.Length
      invariant forall X' :: 0 <= X' < X ==> dst[X'] == ring[slot, X']
    {
      dst[X] := ring[slot, X];
      X := X + 1;
    }
  }

  // ---------------------------------------------------------------------
  // The filter loop of preview_update()
  // ---------------------------------------------------------------------

  /** The preview buffer holds the whole image, row `Y` in row `Y`. */
  ghost predicate Holds(buf: array2<Byte>, img: Image)
    reads buf
  {
    buf.Length0 == |img| &&
    forall Y, X :: 0 <= Y < |img| && 0 <= X < |img[Y]| && X < buf.Length1 ==> buf[Y, X] == img[Y][X]
  }

  /** Loads the whole preview rectangle (`gimp_pixel_rgn_get_rect` into `preview_src`). */
  method LoadAll(buf: array2<Byte>, src: Image)
    requires buf.Length0 == |src| && Shaped(src, buf.Length1)
    modifies buf
    ensures Holds(buf, src)
  {
    var Y := 0;
    while Y < buf.Length0
      invariant 0 <= Y <= buf.Length0
      invariant forall Y', X :: 0 <= Y' < Y && 0 <= X < buf.Length1 ==> buf[Y', X] == src[Y'][X]
    {
      var X := 0;
      while X < buf.Length1
        invariant 0 <= X <= buf.Length1
        invariant forall X' :: 0 <= X' < X ==> buf[Y, X'] == src[Y][X']
        invariant forall Y', X' :: 0 <= Y' < Y && 0 <= X' < buf.Length1 ==> buf[Y', X'] == src[Y'][X']
      {
        buf[Y, X] := src[Y][X];
        X := X + 1;
      }
      Y := Y + 1;
    }
  }

  /**
   * Collects the window of byte `x` of row `y` with radius `r` from the
   * preview buffer, row `y + i` for `i` from `-r` to `r`.
   */
  method CollectPreview(buf: array2<Byte>, sort: array<Byte>, ghost img: Image, s: Settings,
                        y: int, x: int, r: int, bpp: int)
    returns (count: int, hist0: int, hist255: int)
    requires bpp >= 1 && 0 <= x < buf.Length1 && 0 <= r && 0 <= y - r && y + r < |img|
    requires Shaped(img, buf.Length1) && Holds(buf, img)
    requires sort.Length >= (2 * r + 1) * (2 * r + 1)
    modifies sort
    ensures 0 <= count <= sort.Length
    ensures sort[..count] == Kept(PixelWindow(img, y, x, r, bpp, buf.Length1), s.whiteLevel)
    ensures hist0 == CountBlack(PixelWindow(img, y, x, r, bpp, buf.Length1), s.blackLevel)
    ensures hist255 == CountWhite(PixelWindow(img, y, x, r, bpp, buf.Length1), s.blackLevel, s.whiteLevel)
  {
    var width := buf.Length1;
    var xmin, xmax := ColumnBounds(x, r, bpp, width);
    PixelWindowSize(img, y, x, r, bpp, width);
    ghost var lo, hi := y - r, y + r + 1;
    count, hist0, hist255 := 0, 0, 0;
    ghost var seen: seq<Byte> := [];
    var i := -r;
    while i <= r
      invariant -r <= i <= r + 1
      invariant seen == WindowSamples(img, lo, y + i, xmin, xmax, bpp, width)
      invariant 0 <= count <= |seen| <= sort.Length
      invariant sort[..count] == Kept(seen, s.whiteLevel)
      invariant hist0 == CountBlack(seen, s.blackLevel) && hist255 == CountWhite(seen, s.blackLevel, s.whiteLevel)
    {
      ghost var line := img[y + i];
      assert seen + RowSamples(line, xmin, xmax, bpp) == WindowSamples(img, lo, y + i + 1, xmin, xmax, bpp, width);
      WindowPrefix(img, lo, y + i + 1, hi, xmin, xmax, bpp, width);
      count, hist0, hist255, seen := CollectRow(buf, y + i, line, xmin, xmax, bpp, s, sort,
                                                count, hist0, hist255, seen);
      i := i + 1;
    }
  }

  /**
   * The body of the x loop of `preview_update()`: the same rule as
   * `FilterRingPixel`, reading and writing back the preview buffer.
   */
  method FilterPreviewPixel(buf: array2<Byte>, dst: array<Byte>, sort: array<Byte>, ghost img: Image,
                            s: Settings, y: int, x: int, radius: int, bpp: int)
    returns (radius': int, ghost img': Image)
    requires bpp >= 1 && dst.Length == buf.Length1 && 0 <= x < buf.Length1
    requires ValidState(RowState(img, dst[..], radius), |img|, buf.Length1, s)
    requires s.radius <= y < |img| - s.radius && Holds(buf, img)
    requires sort.Length == (2 * s.radius + 1) * (2 * s.radius + 1) && sort != dst
    modifies buf, dst, sort
    ensures RowState(img', dst[..], radius') == FilterPixel(RowState(img, old(dst[..]), radius), s, y, x, bpp, buf.Length1)
    ensures Holds(buf, img')
  {
    var width := buf.Length1;
    SquareMonotone(2 * radius + 1, 2 * s.radius + 1);
    ghost var dst0 := dst[..];
    ghost var spec := FilterPixel(RowState(img, dst0, radius), s, y, x, bpp, width);
    var count, hist0, hist255 := CollectPreview(buf, sort, img, s, y, x, radius, bpp);
    ghost var kept := Kept(PixelWindow(img, y, x, radius, bpp, width), s.whiteLevel);
    assert |kept| == count;
    img' := img;
    if count > 1 {
      var v := SortedMedian(sort, count);
      assert v == Median(kept);
      dst[x] := v;
      assert dst[..] == dst0[x := v];
      if Recursive(s.filterType) {
        buf[y, x] := v;
        ghost var line: seq<Byte> := img[y][x := v];
        img' := img[y := line];
      }
    }
    radius' := radius;
    if Adaptive(s.filterType) {
      if hist0 >= radius || hist255 >= radius {
        if radius < s.radius {
          radius' := radius + 1;
        }
      } else if radius > 1 {
        radius' := radius - 1;
      }
      assert radius' == NextRadius(radius, hist0, hist255, s.radius);
    }
    assert spec.radius == radius';
    assert spec.img == img';
    assert spec.dst == dst[..];
  }

  /** The x loop of `preview_update()` over row `y`, whose copy is in `dst`. */
  method FilterPreviewRow(buf: array2<Byte>, dst: array<Byte>, sort: array<Byte>, ghost img: Image,
                          s: Settings, y: int, bpp: int)
    returns (ghost next: Image)
    requires bpp >= 1 && dst.Length == buf.Length1 && Shaped(img, buf.Length1)
    requires 0 <= s.radius <= y < |img| - s.radius && Holds(buf, img)
    requires sort.Length == (2 * s.radius + 1) * (2 * s.radius + 1) && sort != dst
    requires dst[..] == img[y]
    modifies buf, dst, sort
    ensures dst[..] == FilterRow(img, s, y, bpp, buf.Length1).dst
    ensures next == FilterRow(img, s, y, bpp, buf.Length1).img
    ensures Holds(buf, next)
  {
    var width := buf.Length1;
    var radius := s.radius;
    next := img;
    var x := 0;
    while x < width
      invariant 0 <= x <= width
      invariant ValidState(RowState(next, dst[..], radius), |img|, width, s)
      invariant FilterRowFrom(RowState(next, dst[..], radius), s, y, x, bpp, width) ==
        FilterRowFrom(RowState(img, img[y], s.radius), s, y, 0, bpp, width)
      invariant Holds(buf, next)
    {
      ghost var st := RowState(next, dst[..], radius);
      assert FilterRowFrom(st, s, y, x, bpp, width) ==
        FilterRowFrom(FilterPixel(st, s, y, x, bpp, width), s, y, x + 1, bpp, width);
      radius, next := FilterPreviewPixel(buf, dst, sort, next, s, y, x, radius, bpp);
      x := x + 1;
    }
    assert FilterRowFrom(RowState(next, dst[..], radius), s, y, width, bpp, width) == RowState(next, dst[..], radius);
  }

  /**
   * The filter loop of `preview_update()` on the preview rectangle `src`
   * (`width` bytes per row): loads it whole, then filters it row by row and
   * returns the rows it draws.
   */
  method PreviewUpdate(src: Image, s: Settings, bpp: int, width: int) returns (out: seq<seq<Byte>>)
    requires bpp >= 1 && 0 <= width && Shaped(src, width) && 0 <= s.radius
    ensures out == Despeckled(src, s, bpp, width).rows
  {
    var h := |src|;
    var size := 2 * s.radius + 1;
    var buf := new Byte[h, width];
    var dst := new Byte[width];
    var sort := new Byte[size * size];
    LoadAll(buf, src);
    ghost var img := src;
    out := [];
    var y := 0;
    while y < h
      invariant PassAt(src, s, bpp, width, img, y, out)
      invariant Holds(buf, img)
    {
      var line;
      img, line := PreviewRow(buf, dst, sort, src, s, bpp, width, img, y, out);
      out := out + [line];
      y := y + 1;
    }
    PassDone(src, s, bpp, width, img, out);
  }

  /**
   * One row of the loop of `preview_update()`: copy row `y` of the preview
   * buffer out, filter it when it lies `radius` rows clear of the edges,
   * and return it as the row drawn.
   */
  method PreviewRow(buf: array2<Byte>, dst: array<Byte>, sort: array<Byte>, src: Image, s: Settings,
                    bpp: int, width: int, ghost img: Image, y: int, ghost out: seq<seq<Byte>>)
    returns (ghost next: Image, line: seq<Byte>)
    requires PassAt(src, s, bpp, width, img, y, out) && y < |src| && Holds(buf, img)
    requires buf.Length1 == width && dst.Length == width && sort != dst
    requires sort.Length == (2 * s.radius + 1) * (2 * s.radius + 1)
    modifies buf, dst, sort
    ensures PassAt(src, s, bpp, width, next, y + 1, out + [line]) && Holds(buf, next)
  {
    PassAdvance(src, s, bpp, width, img, y, out);
    CopySlot(buf, y, dst);
    assert dst[..] == img[y];
    next := img;
    if y >= s.radius && y < |src| - s.radius {
      next := FilterPreviewRow(buf, dst, sort, img, s, y, bpp);
    }
    line := dst[..];
  }
}
