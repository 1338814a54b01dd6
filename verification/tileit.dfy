/**
 * The tile bookkeeping of common/tileit.c. The selection is shown as an
 * `numtiles` by `numtiles` grid of shrunken copies; each cell of the 6 by 6
 * action grid `tileactions` says whether that copy is mirrored horizontally
 * and/or vertically. The dialog updates the grid for all cells, alternate
 * cells or one explicit cell; `tiles_xy` maps an output pixel to its source
 * pixel through the grid.
 */
module TileIt {
  import opened CTypes
  import opened Arith

  const PreviewSize := 128
  const MaxSegs := 6

  /** The action bits of a cell. */
  const Horizontal: bv32 := 0x1
  const Vertical: bv32 := 0x2

  /** The cells an update applies to (`AppliedTo`). */
  datatype AppliedTo = All | Alt | Explicit

  /** The bits set by the horizontal and vertical toggles. */
  function ActionMask(doHorz: bool, doVert: bool): bv32
  {
    (if doHorz then Horizontal else 0) | (if doVert then Vertical else 0)
  }

  /** The mask holds the horizontal bit iff the horizontal toggle is set, likewise vertical, and no other bit. */
  lemma ActionMaskBits(doHorz: bool, doVert: bool)
    ensures ActionMask(doHorz, doVert) & Horizontal != 0 <==> doHorz
    ensures ActionMask(doHorz, doVert) & Vertical != 0 <==> doVert
    ensures ActionMask(doHorz, doVert) & !(Horizontal | Vertical) == 0
  {
  }

  /** A cell after ORing in the bits of `m`. */
  function Or(a: bv32, m: bv32): bv32
  {
    a | m
  }

  /** ORing in a mask never clears a bit, and sets every bit of the mask. */
  lemma OrKeepsBits(a: bv32, m: bv32)
    ensures (a | m) & a == a && (a | m) & m == m
  {
  }

  /** ORing the same mask twice is ORing it once: repeating an update changes nothing. */
  lemma OrIdempotent(a: bv32, m: bv32)
    ensures Or(Or(a, m), m) == Or(a, m)
  {
  }

  class TileIt {
    /** `tileactions[x][y]`: the action of column `x`, row `y`. */
    const actions: array2<bv32>
    var numTiles: int
    var doHorz: bool
    var doVert: bool
    var opacity: int
    var expType: AppliedTo
    var expX: int
    var expY: int

    ghost predicate Valid()
      reads this
    {
      actions.Length0 == MaxSegs && actions.Length1 == MaxSegs
    }

    /** The start-up state: an empty grid, two tiles, no toggle set, full opacity. */
    constructor ()
      ensures Valid() && fresh(actions)
      ensures forall x, y :: 0 <= x < MaxSegs && 0 <= y < MaxSegs ==> actions[x, y] == 0
      ensures numTiles == 2 && !doHorz && !doVert && opacity == 100
      ensures expType == All && expX == -1 && expY == -1
    {
      actions := new bv32[MaxSegs, MaxSegs]((x, y) => 0);
      numTiles := 2;
      doHorz, doVert := false, false;
      opacity := 100;
      expType, expX, expY := All, -1, -1;
    }

    /** `memset (tileactions, 0, ...)`: clears every cell. */
    method ClearActions()
      requires Valid()
      modifies actions
      ensures forall x, y :: 0 <= x < MaxSegs && 0 <= y < MaxSegs ==> actions[x, y] == 0
    {
      for x := 0 to MaxSegs
        invariant forall x', y :: 0 <= x' < x && 0 <= y < MaxSegs ==> actions[x', y] == 0
      {
        for y := 0 to MaxSegs
          invariant forall y' :: 0 <= y' < y ==> actions[x, y'] == 0
          invariant forall x', y' :: 0 <= x' < x && 0 <= y' < MaxSegs ==> actions[x', y'] == 0
        {
          actions[x, y] := 0;
        }
      }
    }

    /** `all_update`: ORs the toggles' bits into every cell. */
    method AllUpdate()
      requires Valid()
      modifies actions
      ensures forall x, y :: 0 <= x < MaxSegs && 0 <= y < MaxSegs ==>
        actions[x, y] == Or(old(actions[x, y]), ActionMask(doHorz, doVert))
    {
      var mask := ActionMask(doHorz, doVert);
      for x := 0 to MaxSegs
        invariant forall x', y :: 0 <= x' < x && 0 <= y < MaxSegs ==> actions[x', y] == Or(old(actions[x', y]), mask)
        invariant forall x', y :: x <= x' < MaxSegs && 0 <= y < MaxSegs ==> actions[x', y] == old(actions[x', y])
      {
        OrRow(x, mask, false);
      }
    }

    /** `alt_update`: ORs the toggles' bits into the cells with an even `x + y`. */
    method AltUpdate()
      requires Valid()
      modifies actions
      ensures forall x, y :: 0 <= x < MaxSegs && 0 <= y < MaxSegs ==>
        actions[x, y] == if (x + y) % 2 == 0 then Or(old(actions[x, y]), ActionMask(doHorz, doVert)) else old(actions[x, y])
    {
      var mask := ActionMask(doHorz, doVert);
      for x := 0 to MaxSegs
        invariant forall x', y :: 0 <= x' < x && 0 <= y < MaxSegs ==>
          actions[x', y] == if (x' + y) % 2 == 0 then Or(old(actions[x', y]), mask) else old(actions[x', y])
        invariant forall x', y :: x <= x' < MaxSegs && 0 <= y < MaxSegs ==> actions[x', y] == old(actions[x', y])
      {
        OrRow(x, mask, true);
      }
    }

    /**
     * The inner loop of `all_update` (`alternate` false) and `alt_update`
     * (`alternate` true) over column `x`: ORs `mask` into the cells of the
     * column, in the alternate case only into those with an even `x + y`.
     */
    method OrRow(x: int, mask: bv32, alternate: bool)
      requires Valid() && 0 <= x < MaxSegs
      modifies actions
      ensures forall y :: 0 <= y < MaxSegs ==>
        actions[x, y] == if !alternate || (x + y) % 2 == 0 then Or(old(actions[x, y]), mask) else old(actions[x, y])
      ensures forall x', y :: 0 <= x' < MaxSegs && x' != x && 0 <= y < MaxSegs ==> actions[x', y] == old(actions[x', y])
    {
      for y := 0 to MaxSegs
        invariant forall y' :: 0 <= y' < y ==>
          actions[x, y'] == if !alternate || (x + y') % 2 == 0 then Or(old(actions[x, y']), mask) else old(actions[x, y'])
        invariant forall y' :: y <= y' < MaxSegs ==> actions[x, y'] == old(actions[x, y'])
        invariant forall x', y' :: 0 <= x' < MaxSegs && x' != x && 0 <= y' < MaxSegs ==> actions[x', y'] == old(actions[x', y'])
      {
        if !alternate || (x + y) % 2 == 0 {
          actions[x, y] := Or(actions[x, y], mask);
        }
      }
    }

    /**
     * `explict_update`: takes the row and column from the spin buttons
     * (`row`, `col`), replacing a value outside `[1, numtiles]` by
     * `numtiles`; with `settile` the cell gets exactly the toggles' bits.
     */
    method ExplicitUpdate(settile: bool, row: int, col: int)
      requires Valid() && 1 <= numTiles <= MaxSegs
      modifies this, actions
      ensures var y := if row > old(numTiles) || row <= 0 then old(numTiles) else row;
        var x := if col > old(numTiles) || col <= 0 then old(numTiles) else col;
        expX == x && expY == y &&
        forall x', y' :: 0 <= x' < MaxSegs && 0 <= y' < MaxSegs ==>
          actions[x', y'] == if settile && x' == x - 1 && y' == y - 1 then ActionMask(doHorz, doVert) else old(actions[x', y'])
      ensures numTiles == old(numTiles) && doHorz == old(doHorz) && doVert == old(doVert)
      ensures opacity == old(opacity) && expType == old(expType)
    {
      var y := row;
      if y > numTiles || y <= 0 {
        y := numTiles;
      }
      var x := col;
      if x > numTiles || x <= 0 {
        x := numTiles;
      }
      if settile {
        actions[x - 1, y - 1] := ActionMask(doHorz, doVert);
      }
      expX := x;
      expY := y;
    }

    /**
     * `exp_need_update`: a click on tile `(nx, ny)` selects it for the
     * explicit update; positions outside the grid are ignored.
     */
    method ExpNeedUpdate(nx: int, ny: int)
      modifies this
      ensures if nx <= 0 || nx > old(numTiles) || ny <= 0 || ny > old(numTiles)
        then expX == old(expX) && expY == old(expY)
        else expX == nx && expY == ny
      ensures numTiles == old(numTiles) && doHorz == old(doHorz) && doVert == old(doVert)
      ensures opacity == old(opacity) && expType == old(expType)
    {
      if nx <= 0 || nx > numTiles || ny <= 0 || ny > numTiles {
        return;
      }
      if nx != expX || ny != expY {
        expX := nx;
        expY := ny;
      }
    }

    /** `tileit_reset`: clears the grid and both toggles. */
    method Reset()
      requires Valid()
      modifies this, actions
      ensures forall x, y :: 0 <= x < MaxSegs && 0 <= y < MaxSegs ==> actions[x, y] == 0
      ensures !doHorz && !doVert
      ensures numTiles == old(numTiles) && opacity == old(opacity)
      ensures expType == old(expType) && expX == old(expX) && expY == old(expY)
    {
      ClearActions();
      doHorz, doVert := false, false;
    }

    /**
     * `tiles_xy`: the action of the tile holding pixel `(x, y)` of a
     * `width` by `height` area and the source pixel `(nx, ny)` shown there,
     * mirrored within the tile where the action says so.
     */
    method TilesXY(width: int, height: int, x: int, y: int) returns (action: bv32, nx: int, ny: int)
      requires Valid() && 1 <= numTiles <= MaxSegs
      requires 0 <= x < width && 0 <= y < height
      ensures action == actions[Cell(x, numTiles, width), Cell(y, numTiles, height)]
      ensures nx == if action & Horizontal != 0 then Mirrored(x, numTiles, width) else Straight(x, numTiles, width)
      ensures ny == if action & Vertical != 0 then Mirrored(y, numTiles, height) else Straight(y, numTiles, height)
      ensures 0 <= nx < width && 0 <= ny < height
    {
      var rnum := Cell(y, numTiles, height);
      var py := Straight(y, numTiles, height);
      var px := Straight(x, numTiles, width);
      var cnum := Cell(x, numTiles, width);
      action := actions[cnum, rnum];
      if action != 0 {
        if action & Vertical != 0 {
          py := Mirrored(y, numTiles, height);
        }
        if action & Horizontal != 0 {
          px := Mirrored(x, numTiles, width);
        }
      }
      nx := px;
      ny := py;
    }
  }

  /**
   * The grid column (row) of coordinate `x` in an area `width` wide:
   * `x * n / width`. For `1 <= n <= 6` every pixel of the area falls in a
   * cell of the 6 by 6 grid.
   */
  function Cell(x: int, n: int, width: int): (c: int)
    requires 0 <= x < width && 1 <= n <= MaxSegs
    ensures 0 <= c < n
  {
    CellInGrid(x, n, width);
    x * n / width
  }

  /**
   * The source coordinate of `x` without mirroring: C's `(x * n) % width`,
   * which keeps the sign of the product and so is negative when it is.
   */
  function Straight(x: int, n: int, width: int): (sx: int)
    requires width > 0
    ensures -width < sx < width
    ensures x * n >= 0 ==> 0 <= sx
    ensures (x * n - sx) % width == 0
  {
    TruncMod(x * n, width)
  }

  /**
   * The source coordinate of `x` mirrored within its tile. The C code
   * computes `(gint) ((width - x - 1 + rnd) * n) % width` in double with
   * `rnd = 1 - 1/n + 0.01`; in exact arithmetic the product is
   * `(width - x) * n - 1 + 0.01 * n`, whose integer part for a pixel of the
   * area and `1 <= n <= 6` is `(width - x) * n - 1`, which is not negative.
   */
  function Mirrored(x: int, n: int, width: int): (sx: int)
    requires 0 <= x < width && 1 <= n <= MaxSegs
    ensures 0 <= sx < width
  {
    assert (width - x) * n >= 1 by {
      MulAtLeast(width - x, n);
    }
    TruncMod((width - x) * n - 1, width)
  }

  lemma CellInGrid(x: int, n: int, width: int)
    requires 0 <= x < width && 1 <= n <= MaxSegs
    ensures 0 <= x * n / width < n
  {
    assert x * n < width * n by {
      assert (width - x) * n > 0;
    }
    DivBelow(x * n, width, n);
  }

  lemma DivBelow(a: int, b: int, n: int)
    requires 0 <= a < b * n && b > 0
    ensures 0 <= a / b < n
  {
  }

  /**
   * Mirroring reflects a pixel within its source tile: the straight and the
   * mirrored coordinates of `x` add up to `-1` modulo the width.
   */
  lemma MirrorReflects(x: int, n: int, width: int)
    requires 0 <= x < width && 1 <= n <= MaxSegs
    ensures (Straight(x, n, width) + Mirrored(x, n, width) + 1) % width == 0
  {
    var a, b := x * n, (width - x) * n - 1;
    MulAtLeast(width - x, n);
    TruncModNonNegative(a, width);
    TruncModNonNegative(b, width);
    var sa, sb := Straight(x, n, width), Mirrored(x, n, width);
    assert sa == a % width && sb == b % width;
    assert a + b + 1 == n * width;
    assert a == (a / width) * width + a % width;
    assert b == (b / width) * width + b % width;
    var k := n - a / width - b / width;
    assert a % width + b % width + 1 == 0 + k * width;
    ModAddMultiple(0, k, width);
    ModSmall(0, width);
  }

  /**
   * The preview size computed in `run`: the longer side of the selection
   * is cut to `PreviewSize`, the shorter one scaled in proportion, and
   * each side is raised to at least 2. The selection is never empty here:
   * `run` returns before this point when it is.
   */
  function PreviewDims(selWidth: int, selHeight: int): (d: (int, int))
    requires selWidth > 0 && selHeight > 0
    ensures 2 <= d.0 <= PreviewSize && 2 <= d.1 <= PreviewSize
    ensures selWidth > selHeight ==> d.0 == Max(Min(selWidth, PreviewSize), 2) && d.1 <= d.0
    ensures selWidth <= selHeight ==> d.1 == Max(Min(selHeight, PreviewSize), 2) && d.0 <= d.1
  {
    if selWidth > selHeight then
      var pw := Min(selWidth, PreviewSize);
      ScaledBelow(selHeight, selWidth, pw);
      (Max(pw, 2), Max(selHeight * pw / selWidth, 2))
    else
      var ph := Min(selHeight, PreviewSize);
      ScaledBelow(selWidth, selHeight, ph);
      (Max(selWidth * ph / selHeight, 2), Max(ph, 2))
  }

  function Min(a: int, b: int): int { if a < b then a else b }

  function Max(a: int, b: int): int { if a > b then a else b }

  /** Scaling `c` by `a / b` with `a <= b` gives at most `c`. */
  lemma ScaledBelow(a: int, b: int, c: int)
    requires 0 <= a <= b && b > 0 && c >= 0
    ensures 0 <= a * c / b <= c
  {
    MulMonotone(c, a, b);
    assert c * b == b * c;
    DivMonotone(a * c, b * c, b);
    DivModUnique(b * c, b, c, 0);
  }

  /** The alpha byte written by `do_tiles`: `alpha * opacity / 100`. */
  function ScaledAlpha(alpha: Byte, opacity: int): (r: Byte)
    requires 0 <= opacity <= 100
    ensures r <= alpha
    ensures opacity == 100 ==> r == alpha
    ensures opacity == 0 ==> r == 0
  {
    ScaledBelow(opacity, 100, alpha);
    assert alpha * opacity == opacity * alpha;
    alpha * opacity / 100
  }

  /** A higher opacity never gives a lower alpha. */
  lemma ScaledAlphaMonotone(alpha: Byte, o1: int, o2: int)
    requires 0 <= o1 <= o2 <= 100
    ensures ScaledAlpha(alpha, o1) <= ScaledAlpha(alpha, o2)
  {
    MulMonotone(alpha, o1, o2);
    DivMonotone(alpha * o1, alpha * o2, 100);
  }

  /**
   * The body of the column loop of `do_tiles`: the `bpp` colour bytes of
   * the fetched source pixel are copied to `dest` at `at`, then, when the
   * drawable has alpha, the alpha byte scaled by the opacity; `next` is
   * where the following pixel starts.
   */
  method PutPixel(dest: array<Byte>, at: int, pixel: seq<Byte>, bpp: int, hasAlpha: bool, opacity: int)
    returns (next: int)
    requires 0 <= bpp && bpp + 1 <= |pixel| && 0 <= opacity <= 100
    requires 0 <= at && at + bpp + (if hasAlpha then 1 else 0) <= dest.Length
    modifies dest
    ensures next == at + bpp + (if hasAlpha then 1 else 0)
    ensures dest[at..at + bpp] == pixel[..bpp]
    ensures hasAlpha ==> dest[at + bpp] == ScaledAlpha(pixel[bpp], opacity)
    ensures dest[..at] == old(dest[..at]) && dest[next..] == old(dest[next..])
  {
    next := at;
    for i := 0 to bpp
      invariant next == at + i
      invariant dest[at..next] == pixel[..i]
      invariant dest[..at] == old(dest[..at]) && dest[at + bpp..] == old(dest[at + bpp..])
    {
      dest[next] := pixel[i];
      next := next + 1;
    }
    if hasAlpha {
      dest[next] := ScaledAlpha(pixel[bpp], opacity);
      next := next + 1;
    }
  }

  /**
   * The grid column (or row) `x * numtiles / width` that `tiles_xy`
   * computes, for any tile count, with C's truncating division.
   */
  function RawCell(x: int, n: int, width: int): (c: int)
    requires width > 0
    ensures x * n >= 0 ==> c == x * n / width
  {
    TruncDiv(x * n, width)
  }

  /**
   * With `n` tiles, every pixel of every area indexes a cell of the 6 by 6
   * `tileactions` grid.
   */
  ghost predicate InGrid(n: int)
  {
    forall x, w :: 0 <= x < w ==> 0 <= RawCell(x, n, w) < MaxSegs
  }

  /**
   * The tile counts that keep every grid index inside `tileactions` are
   * exactly -1 to `MAX_SEGS`: with -1 every product `-x` lies in
   * `(-width, 0]` and truncates to 0, while -2 already sends pixel 1 of a
   * 2 pixel area to index -1.
   */
  lemma InGridRange(n: int)
    ensures InGrid(n) <==> -1 <= n <= MaxSegs
  {
    if 0 <= n <= MaxSegs {
      forall x, w | 0 <= x < w
        ensures 0 <= RawCell(x, n, w) < MaxSegs
      {
        if n == 0 {
          assert RawCell(x, n, w) == 0;
        } else {
          CellInGrid(x, n, w);
        }
      }
    } else if n == -1 {
      forall x, w | 0 <= x < w
        ensures RawCell(x, n, w) == 0
      {
        assert x * n == -x;
        ModSmall(x, w);
      }
    } else if n < -1 {
      assert RawCell(1, n, 2) < 0;
    } else {
      assert RawCell(n - 1, n, n) == n - 1 by {
        DivModUnique((n - 1) * n, n, n - 1, 0);
      }
    }
  }

  /**
   * What the parameter handling of a non-interactive `run` leaves for
   * `do_tiles`: whether the status is a calling error, and the tile count
   * in `itvals`, which `do_tiles` uses either way.
   */
  datatype RunTiles = RunTiles(callingError: bool, numtiles: int)

  /**
   * The parameter handling as written: a wrong parameter count is a calling
   * error and keeps the stored count; four parameters set the count to the
   * fourth without a range check. A count outside the grid can only come
   * from that unchecked parameter.
   */
  function NonInteractiveTiles(nparams: int, param: int, stored: int): (r: RunTiles)
    ensures r.callingError <==> nparams != 4
    ensures r.callingError ==> r.numtiles == stored
    ensures !r.callingError ==> r.numtiles == param
    ensures InGrid(stored) && (r.callingError || InGrid(param)) ==> InGrid(r.numtiles)
  {
    if nparams != 4 then RunTiles(true, stored) else RunTiles(false, param)
  }

  /**
   * A call with 7 tiles is accepted, and then pixel 6 of a 7 pixel wide
   * selection lies in grid column `6 * 7 / 7 = 6`, past the last column of
   * `tileactions`.
   */
  lemma UncheckedTilesLeaveGrid(stored: int)
    ensures NonInteractiveTiles(4, 7, stored) == RunTiles(false, 7)
    ensures RawCell(6, NonInteractiveTiles(4, 7, stored).numtiles, 7) == MaxSegs
    ensures !InGrid(NonInteractiveTiles(4, 7, stored).numtiles)
  {
    assert RawCell(6, 7, 7) == MaxSegs;
  }

  /**
   * The parameter handling with the range of the dialog's slider, 2 to
   * `MAX_SEGS`, enforced: anything else is a calling error that keeps the
   * stored count. A count inside the grid stays inside it.
   */
  function CheckedTiles(nparams: int, param: int, stored: int): (r: RunTiles)
    ensures r.callingError <==> nparams != 4 || param < 2 || param > MaxSegs
    ensures r.callingError ==> r.numtiles == stored
    ensures !r.callingError ==> r.numtiles == param
    ensures InGrid(stored) ==> InGrid(r.numtiles)
  {
    if nparams != 4 || param < 2 || param > MaxSegs then RunTiles(true, stored)
    else
      InGridRange(param);
      RunTiles(false, param)
  }

  /** The tile count after a series of checked non-interactive calls, each `(nparams, param)`. */
  function CheckedRuns(calls: seq<(int, int)>, stored: int): int
    decreases |calls|
  {
    if calls == [] then stored
    else CheckedRuns(calls[1..], CheckedTiles(calls[0].0, calls[0].1, stored).numtiles)
  }

  /**
   * Starting from the initial two tiles, no series of checked calls ever
   * leaves the grid: `tileactions` is never indexed out of bounds.
   */
  lemma {:induction false} CheckedTilesInGrid(calls: seq<(int, int)>, stored: int)
    requires InGrid(stored)
    ensures InGrid(CheckedRuns(calls, stored))
    decreases |calls|
  {
    if calls != [] {
      CheckedTilesInGrid(calls[1..], CheckedTiles(calls[0].0, calls[0].1, stored).numtiles);
    }
  }
}
