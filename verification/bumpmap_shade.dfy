/**
 * The image side of common/bumpmap.c: `bumpmap_row` shades one row of the
 * selection from three converted bump map rows, and `bumpmap` runs it over
 * the selection, rotating the three map rows as it goes down. The light
 * computation itself is floating point; it enters the model as `slope`,
 * the shade of a pixel whose normal is not vertical, and `background`,
 * the shade of a flat one.
 */
module BumpmapShade {
  import opened CTypes
  import opened Arith
  import opened BumpmapMap

  /** Three map rows, each at least `w` converted heights long. */
  predicate Window(r1: seq<Byte>, r2: seq<Byte>, r3: seq<Byte>, w: int)
  {
    w > 0 && |r1| >= w && |r2| >= w && |r3| >= w
  }

  /**
   * The surface normal at the middle of the 3 by 3 neighbourhood with
   * columns `i1`, `i2`, `i3`: `nx` is the left column sum minus the right
   * one, `ny` the lower row sum minus the upper one.
   */
  function Normal(r1: seq<Byte>, r2: seq<Byte>, r3: seq<Byte>, w: int, i1: int, i2: int, i3: int): (n: (int, int))
    requires Window(r1, r2, r3, w) && 0 <= i1 < w && 0 <= i2 < w && 0 <= i3 < w
    ensures -765 <= n.0 <= 765 && -765 <= n.1 <= 765
  {
    ((r1[i1] as int) + r2[i1] + r3[i1] - r1[i3] - r2[i3] - r3[i3],
     (r3[i1] as int) + r3[i2] + r3[i3] - r1[i1] - r1[i2] - r1[i3])
  }

  /** A map of one height everywhere has a vertical normal. */
  lemma FlatNormal(r1: seq<Byte>, r2: seq<Byte>, r3: seq<Byte>, w: int, i1: int, i2: int, i3: int, c: Byte)
    requires Window(r1, r2, r3, w) && 0 <= i1 < w && 0 <= i2 < w && 0 <= i3 < w
    requires forall i :: 0 <= i < w ==> r1[i] == c && r2[i] == c && r3[i] == c
    ensures Normal(r1, r2, r3, w, i1, i2, i3) == (0, 0)
  {
    assert r1[i1] == c && r2[i1] == c && r3[i1] == c;
    assert r1[i2] == c && r3[i2] == c;
    assert r1[i3] == c && r2[i3] == c && r3[i3] == c;
  }

  /** The shade of a normal: the background for a vertical one, the light model otherwise. */
  function Shade(n: (int, int), background: int, slope: (int, int) -> int): int
  {
    if n.0 == 0 && n.1 == 0 then background else slope(n.0, n.1)
  }

  /**
   * A colour byte painted without compensation: `src * shade / 255`,
   * stored into a byte. A shade in `[0, 255]` only darkens; full shade
   * keeps the byte and zero shade makes it black.
   */
  function Paint(v: Byte, shade: int): (r: Byte)
    ensures 0 <= shade <= 255 ==> r <= v
    ensures shade == 255 ==> r == v
    ensures shade == 0 ==> r == 0
  {
    if 0 <= shade <= 255 then
      ScaledDown(v, shade);
      assert v * shade == shade * v;
      ToByte(TruncDiv(v * shade, 255))
    else ToByte(TruncDiv(v * shade, 255))
  }

  /**
   * The shade of pixel `x` of a row whose middle cursor starts at `x0`:
   * the cursors stand at `x0 - 1`, `x0` and `x0 + 1` plus `x`, wrapped.
   */
  function ShadeAt(r1: seq<Byte>, r2: seq<Byte>, r3: seq<Byte>, w: int, x0: int, x: int,
                   background: int, slope: (int, int) -> int): int
    requires Window(r1, r2, r3, w)
  {
    Shade(Normal(r1, r2, r3, w, (x0 + w - 1 + x) % w, (x0 + x) % w, (x0 + 1 + x) % w), background, slope)
  }

  /** Byte `j` of a shaded row: an alpha byte is copied, a colour byte painted with its pixel's shade. */
  function BumpedByte(src: seq<Byte>, j: int, bpp: int, hasAlpha: bool,
                      r1: seq<Byte>, r2: seq<Byte>, r3: seq<Byte>, w: int, x0: int,
                      background: int, slope: (int, int) -> int): Byte
    requires 0 <= j < |src| && bpp >= 1 && Window(r1, r2, r3, w)
  {
    if hasAlpha && j % bpp == bpp - 1 then src[j]
    else Paint(src[j], ShadeAt(r1, r2, r3, w, x0, j / bpp, background, slope))
  }

  /** A shaded row: `width` pixels of `bpp` bytes. */
  function Bumped(src: seq<Byte>, n: int, bpp: int, hasAlpha: bool,
                  r1: seq<Byte>, r2: seq<Byte>, r3: seq<Byte>, w: int, x0: int,
                  background: int, slope: (int, int) -> int): (o: seq<Byte>)
    requires 0 <= n <= |src| && bpp >= 1 && Window(r1, r2, r3, w)
    ensures |o| == n
  {
    seq(n, j requires 0 <= j < n => BumpedByte(src, j, bpp, hasAlpha, r1, r2, r3, w, x0, background, slope))
  }

  /**
   * Over a flat map every colour byte gets the background shade, and the
   * alpha bytes are copied; with a full background shade the row is
   * unchanged.
   */
  lemma FlatMapRow(src: seq<Byte>, n: int, bpp: int, hasAlpha: bool,
                   r1: seq<Byte>, r2: seq<Byte>, r3: seq<Byte>, w: int, x0: int, c: Byte,
                   background: int, slope: (int, int) -> int)
    requires 0 <= n <= |src| && bpp >= 1 && Window(r1, r2, r3, w)
    requires forall i :: 0 <= i < w ==> r1[i] == c && r2[i] == c && r3[i] == c
    ensures forall j :: 0 <= j < n ==>
      Bumped(src, n, bpp, hasAlpha, r1, r2, r3, w, x0, background, slope)[j] ==
        if hasAlpha && j % bpp == bpp - 1 then src[j] else Paint(src[j], background)
    ensures background == 255 ==> Bumped(src, n, bpp, hasAlpha, r1, r2, r3, w, x0, background, slope) == src[..n]
  {
    forall j | 0 <= j < n
      ensures Bumped(src, n, bpp, hasAlpha, r1, r2, r3, w, x0, background, slope)[j] ==
        if hasAlpha && j % bpp == bpp - 1 then src[j] else Paint(src[j], background)
    {
      var x := j / bpp;
      FlatNormal(r1, r2, r3, w, (x0 + w - 1 + x) % w, (x0 + x) % w, (x0 + 1 + x) % w, c);
    }
  }

  /** With every shade in `[0, 255]`, bump mapping never brightens a byte. */
  lemma BumpedDarkens(src: seq<Byte>, n: int, bpp: int, hasAlpha: bool,
                      r1: seq<Byte>, r2: seq<Byte>, r3: seq<Byte>, w: int, x0: int,
                      background: int, slope: (int, int) -> int)
    requires 0 <= n <= |src| && bpp >= 1 && Window(r1, r2, r3, w)
    requires 0 <= background <= 255 && forall a, b :: 0 <= slope(a, b) <= 255
    ensures forall j :: 0 <= j < n ==> Bumped(src, n, bpp, hasAlpha, r1, r2, r3, w, x0, background, slope)[j] <= src[j]
  {
  }

  /**
   * The paint step of `bumpmap_row` for one pixel at `p`: the `bpp - 1`
   * colour bytes (all `bpp` without alpha) painted with `shade`, then the
   * alpha byte copied.
   */
  method PaintPixel(src: array<Byte>, dest: array<Byte>, p: int, bpp: int, hasAlpha: bool, shade: int)
    requires src != dest && bpp >= 1 && 0 <= p && p + bpp <= src.Length && p + bpp <= dest.Length
    modifies dest
    ensures forall j :: p <= j < p + bpp ==>
      dest[j] == if hasAlpha && j == p + bpp - 1 then src[j] else Paint(src[j], shade)
    ensures forall j :: 0 <= j < dest.Length && !(p <= j < p + bpp) ==> dest[j] == old(dest[j])
  {
    var pbpp := if hasAlpha then bpp - 1 else bpp;
    var k := 0;
    while k < pbpp
      invariant 0 <= k <= pbpp
      invariant forall j :: p <= j < p + k ==> dest[j] == Paint(src[j], shade)
      invariant forall j :: 0 <= j < dest.Length && !(p <= j < p + k) ==> dest[j] == old(dest[j])
    {
      dest[p + k] := Paint(src[p + k], shade);
      k := k + 1;
    }
    if hasAlpha {
      dest[p + k] := src[p + k];
    }
  }

  /**
   * `bumpmap_row` without darkness compensation: shades `width` pixels of
   * `src` into `dest` from the three map rows, the cursors starting around
   * the wrapped X offset and stepping once per pixel.
   */
  method BumpmapRow(src: array<Byte>, dest: array<Byte>, width: int, bpp: int, hasAlpha: bool,
                    row1: array<Byte>, row2: array<Byte>, row3: array<Byte>, bmWidth: int, bmXofs: int,
                    background: int, slope: (int, int) -> int)
    requires src != dest && dest != row1 && dest != row2 && dest != row3
    requires 0 <= width && bpp >= 1 && width * bpp <= src.Length && width * bpp <= dest.Length
    requires Window(row1[..], row2[..], row3[..], bmWidth)
    modifies dest
    ensures dest[..width * bpp] == Bumped(src[..], width * bpp, bpp, hasAlpha,
      row1[..bmWidth], row2[..bmWidth], row3[..bmWidth], bmWidth, WrapOffset(bmXofs, bmWidth), background, slope)
    ensures dest[width * bpp..] == old(dest[width * bpp..])
  {
    ghost var r1, r2, r3 := row1[..bmWidth], row2[..bmWidth], row3[..bmWidth];
    var xofs2 := WrapOffset(bmXofs, bmWidth);
    ghost var x0 := xofs2;
    var xofs1 := (xofs2 + bmWidth - 1) % bmWidth;
    var xofs3 := (xofs2 + 1) % bmWidth;
    ModSmall(xofs2, bmWidth);
    var p := 0;
    for x := 0 to width
      invariant p == x * bpp && p <= width * bpp
      invariant xofs1 == (x0 + bmWidth - 1 + x) % bmWidth
      invariant xofs2 == (x0 + x) % bmWidth
      invariant xofs3 == (x0 + 1 + x) % bmWidth
      invariant forall j :: 0 <= j < p ==>
        dest[j] == BumpedByte(src[..], j, bpp, hasAlpha, r1, r2, r3, bmWidth, x0, background, slope)
      invariant forall j :: p <= j < dest.Length ==> dest[j] == old(dest[j])
    {
      NextPixel(x, bpp, width);
      var n := Normal(row1[..bmWidth], row2[..bmWidth], row3[..bmWidth], bmWidth, xofs1, xofs2, xofs3);
      var shade := Shade(n, background, slope);
      PaintPixel(src, dest, p, bpp, hasAlpha, shade);
      PixelBytes(src[..], p, x, bpp, hasAlpha, r1, r2, r3, bmWidth, x0, background, slope, dest[..], shade);
      StepFollows(x0 + bmWidth - 1 + x, bmWidth);
      StepFollows(x0 + x, bmWidth);
      StepFollows(x0 + 1 + x, bmWidth);
      xofs1 := Step(xofs1, bmWidth);
      xofs2 := Step(xofs2, bmWidth);
      xofs3 := Step(xofs3, bmWidth);
      p := p + bpp;
    }
  }

  /** Pixel `x + 1` starts `bpp` bytes after pixel `x` and ends inside the row. */
  lemma NextPixel(x: int, bpp: int, width: int)
    requires 0 <= x < width && bpp >= 1
    ensures (x + 1) * bpp == x * bpp + bpp <= width * bpp
  {
    MulMonotone(bpp, x + 1, width);
    assert (x + 1) * bpp == bpp * (x + 1) && width * bpp == bpp * width;
  }

  /** The bytes of pixel `x`, written at `p = x * bpp`, are the row's bytes `p .. p + bpp`. */
  lemma PixelBytes(src: seq<Byte>, p: int, x: int, bpp: int, hasAlpha: bool,
                   r1: seq<Byte>, r2: seq<Byte>, r3: seq<Byte>, w: int, x0: int,
                   background: int, slope: (int, int) -> int, dest: seq<Byte>, shade: int)
    requires bpp >= 1 && 0 <= x && 0 <= p == x * bpp && p + bpp <= |src| && p + bpp <= |dest|
    requires Window(r1, r2, r3, w)
    requires shade == ShadeAt(r1, r2, r3, w, x0, x, background, slope)
    requires forall j :: p <= j < p + bpp ==>
      dest[j] == if hasAlpha && j == p + bpp - 1 then src[j] else Paint(src[j], shade)
    ensures forall j :: p <= j < p + bpp ==>
      dest[j] == BumpedByte(src, j, bpp, hasAlpha, r1, r2, r3, w, x0, background, slope)
  {
    forall j | p <= j < p + bpp
      ensures dest[j] == BumpedByte(src, j, bpp, hasAlpha, r1, r2, r3, w, x0, background, slope)
    {
      assert j == x * bpp + (j - p);
      DivModUnique(j, bpp, x, j - p);
    }
  }

  // ---------------------------------------------------------------------
  // The whole selection
  // ---------------------------------------------------------------------

  /** The table `bumpmap_init_params` builds. */
  function Lut(mapType: MapType, invert: bool, curve: (MapType, Byte) -> Byte): (t: seq<Byte>)
    ensures |t| == 256
  {
    seq(256, i requires 0 <= i < 256 => LutEntry(i, mapType, invert, curve))
  }

  /** The settings of a bump-mapping run that stay fixed over the selection. */
  datatype Setup = Setup(
    selWidth: int, imgBpp: int, imgHasAlpha: bool,
    bmWidth: int, bmHasAlpha: bool, xofs: int, yofs: int,
    lut: seq<Byte>, waterlevel: int, background: int, slope: (int, int) -> int)

  /**
   * A non-empty bump map of `bmWidth` gray pixels per row, a full table and,
   * for a map with alpha, a waterlevel that indexes it.
   */
  predicate MapFits(st: Setup, bm: seq<seq<Byte>>)
  {
    st.bmWidth > 0 && |bm| > 0 && |st.lut| == 256 &&
    (st.bmHasAlpha ==> 0 <= st.waterlevel <= WaterlevelMax) &&
    forall k :: 0 <= k < |bm| ==> |bm[k]| == RowBytes(st.bmWidth, st.bmHasAlpha)
  }

  /** ... and a selection of `selWidth` pixels of `imgBpp` bytes per row. */
  predicate Fits(st: Setup, src: seq<seq<Byte>>, bm: seq<seq<Byte>>)
  {
    MapFits(st, bm) && st.selWidth >= 0 && st.imgBpp >= 1 &&
    forall y :: 0 <= y < |src| ==> |src[y]| == st.selWidth * st.imgBpp
  }

  /** Map row `k`, wrapped into the map, converted through the table. */
  function MapRow(st: Setup, bm: seq<seq<Byte>>, k: int): (r: seq<Byte>)
    requires MapFits(st, bm)
    ensures |r| == st.bmWidth
  {
    Converted(bm[k % |bm|], st.bmWidth, st.bmHasAlpha, st.lut, st.waterlevel)
  }

  /**
   * Output row `y`: source row `y` shaded from map rows `yofs + y - 1`,
   * `yofs + y` and `yofs + y + 1`, all wrapped, with the cursors around the
   * wrapped X offset.
   */
  function ShadedLine(st: Setup, src: seq<seq<Byte>>, bm: seq<seq<Byte>>, y: int): (o: seq<Byte>)
    requires Fits(st, src, bm) && 0 <= y < |src|
    ensures |o| == st.selWidth * st.imgBpp
  {
    Bumped(src[y], st.selWidth * st.imgBpp, st.imgBpp, st.imgHasAlpha,
      MapRow(st, bm, st.yofs + y - 1), MapRow(st, bm, st.yofs + y), MapRow(st, bm, st.yofs + y + 1),
      st.bmWidth, WrapOffset(st.xofs, st.bmWidth), st.background, st.slope)
  }

  /** The first `k` output rows. */
  function ShadedRows(st: Setup, src: seq<seq<Byte>>, bm: seq<seq<Byte>>, k: int): (o: seq<seq<Byte>>)
    requires Fits(st, src, bm) && 0 <= k <= |src|
    ensures |o| == k
  {
    if k == 0 then [] else ShadedRows(st, src, bm, k - 1) + [ShadedLine(st, src, bm, k - 1)]
  }

  /** Row `y` of every long enough prefix is output row `y`. */
  lemma {:induction false} ShadedRowsAt(st: Setup, src: seq<seq<Byte>>, bm: seq<seq<Byte>>, k: int, y: int)
    requires Fits(st, src, bm) && 0 <= y < k <= |src|
    ensures ShadedRows(st, src, bm, k)[y] == ShadedLine(st, src, bm, y)
  {
    if y < k - 1 {
      ShadedRowsAt(st, src, bm, k - 1, y);
    }
  }

  /**
   * Moving the map by a whole tile of rows selects the same map row; the
   * offsets of the run play no part in converting a row.
   */
  lemma ShiftedRow(st: Setup, st': Setup, bm: seq<seq<Byte>>, k: int, k': int)
    requires MapFits(st, bm) && st' == st.(xofs := st'.xofs, yofs := st'.yofs)
    requires k' == k + |bm|
    ensures MapFits(st', bm) && MapRow(st', bm, k') == MapRow(st, bm, k)
  {
    ModAddMultiple(k, 1, |bm|);
  }

  /** Offsets act modulo the map size: moving the map by a whole tile changes nothing. */
  lemma OffsetsPeriodic(st: Setup, src: seq<seq<Byte>>, bm: seq<seq<Byte>>, y: int)
    requires Fits(st, src, bm) && 0 <= y < |src|
    ensures var st' := st.(xofs := st.xofs + st.bmWidth, yofs := st.yofs + |bm|);
      Fits(st', src, bm) && ShadedLine(st', src, bm, y) == ShadedLine(st, src, bm, y)
  {
    var st' := st.(xofs := st.xofs + st.bmWidth, yofs := st.yofs + |bm|);
    ShiftedRow(st, st', bm, st.yofs + y - 1, st'.yofs + y - 1);
    ShiftedRow(st, st', bm, st.yofs + y, st'.yofs + y);
    ShiftedRow(st, st', bm, st.yofs + y + 1, st'.yofs + y + 1);
    ShiftedColumn(st.xofs, st'.xofs, st.bmWidth);
  }

  /** Moving the map by a whole tile of columns puts the cursors in the same place. */
  lemma ShiftedColumn(ofs: int, ofs': int, w: int)
    requires w > 0 && ofs' == ofs + w
    ensures WrapOffset(ofs', w) == WrapOffset(ofs, w)
  {
    ModAddMultiple(ofs, 1, w);
  }

  /** `gimp_pixel_rgn_get_row`: the host copies a row into a buffer. */
  method FetchRow(buf: array<Byte>, row: seq<Byte>)
    requires |row| <= buf.Length
    modifies buf
    ensures buf[..|row|] == row && buf[|row|..] == old(buf[|row|..])
  {
    forall i | 0 <= i < |row| {
      buf[i] := row[i];
    }
  }

  /** Buffer `buf` holds map row `k` of `bm`, converted. */
  ghost predicate Holds(buf: array<Byte>, st: Setup, bm: seq<seq<Byte>>, k: int)
    reads buf
  {
    MapFits(st, bm) && 0 <= k < |bm| && st.bmWidth <= buf.Length &&
    buf[..st.bmWidth] == Converted(bm[k], st.bmWidth, st.bmHasAlpha, st.lut, st.waterlevel)
  }

  /**
   * A map row fetched and converted, as `bumpmap` does for each of its three
   * map rows; `k` is the row the cursor names.
   */
  method LoadMapRow(buf: array<Byte>, st: Setup, bm: seq<seq<Byte>>, k: int, lut: array<Byte>)
    requires MapFits(st, bm) && 0 <= k < |bm| && buf.Length == RowBytes(st.bmWidth, st.bmHasAlpha)
    requires lut[..] == st.lut && buf != lut
    modifies buf
    ensures Holds(buf, st, bm, k)
  {
    FetchRow(buf, bm[k]);
    assert buf[..] == bm[k];
    ConvertRowGray(buf, st.bmWidth, st.bmHasAlpha, lut, st.waterlevel);
  }

  /** One output row of `bumpmap`: the fetched source row shaded against the three map rows. */
  method ShadeLine(src: seq<seq<Byte>>, bm: seq<seq<Byte>>, st: Setup, y: int,
                   srcRow: array<Byte>, destRow: array<Byte>, row1: array<Byte>, row2: array<Byte>, row3: array<Byte>)
    returns (line: seq<Byte>)
    requires Fits(st, src, bm) && 0 <= y < |src|
    requires srcRow.Length == destRow.Length == st.selWidth * st.imgBpp && srcRow != destRow
    requires destRow != row1 && destRow != row2 && destRow != row3
    requires srcRow != row1 && srcRow != row2 && srcRow != row3
    requires Holds(row1, st, bm, (st.yofs + y - 1) % |bm|) && Holds(row2, st, bm, (st.yofs + y) % |bm|)
    requires Holds(row3, st, bm, (st.yofs + y + 1) % |bm|) && srcRow[..] == src[y]
    modifies destRow
    ensures line == ShadedLine(st, src, bm, y)
  {
    ghost var m1, m2, m3 := row1[..st.bmWidth], row2[..st.bmWidth], row3[..st.bmWidth];
    assert m1 == MapRow(st, bm, st.yofs + y - 1) && m2 == MapRow(st, bm, st.yofs + y);
    assert m3 == MapRow(st, bm, st.yofs + y + 1);
    BumpmapRow(srcRow, destRow, st.selWidth, st.imgBpp, st.imgHasAlpha, row1, row2, row3,
               st.bmWidth, st.xofs, st.background, st.slope);
    line := destRow[..st.selWidth * st.imgBpp];
    assert line == Bumped(src[y], st.selWidth * st.imgBpp, st.imgBpp, st.imgHasAlpha, m1, m2, m3,
      st.bmWidth, WrapOffset(st.xofs, st.bmWidth), st.background, st.slope);
  }

  /**
   * `bumpmap` over a gray bump map: builds the table, loads the map rows
   * around the wrapped Y offset, then shades the selection row by row,
   * after each row rotating the three map buffers, stepping the cursor of
   * the lowest row and loading that row into the freed buffer. The middle
   * cursor starts at `WrapOffset`, the corrected wrap (see
   * `WrapOffsetAsWritten` for the form in the source).
   */
  method Bumpmap(src: seq<seq<Byte>>, bm: seq<seq<Byte>>, st: Setup,
                 mapType: MapType, invert: bool, curve: (MapType, Byte) -> Byte)
    returns (out: seq<seq<Byte>>)
    requires st.lut == Lut(mapType, invert, curve) && Fits(st, src, bm)
    ensures out == ShadedRows(st, src, bm, |src|)
  {
    var lut := new Byte[256];
    InitLut(lut, mapType, invert, curve);
    assert lut[..] == st.lut;
    var n := st.selWidth * st.imgBpp;
    var row1, row2, row3, yofs3 := StartRows(st, bm, lut);
    var srcRow := new Byte[n];
    var destRow := new Byte[n];
    out := ShadeSelection(src, bm, st, lut, srcRow, destRow, row1, row2, row3, yofs3);
  }

  /** The loop of `bumpmap` over the selection rows, from the three map rows around the Y offset. */
  method ShadeSelection(src: seq<seq<Byte>>, bm: seq<seq<Byte>>, st: Setup, lut: array<Byte>,
                        srcRow: array<Byte>, destRow: array<Byte>, row1: array<Byte>, row2: array<Byte>, row3: array<Byte>,
                        yofs3: int)
    returns (out: seq<seq<Byte>>)
    requires Fits(st, src, bm) && lut[..] == st.lut
    requires Buffers(lut, row1, row2, row3, srcRow, destRow, RowBytes(st.bmWidth, st.bmHasAlpha), st.selWidth * st.imgBpp)
    requires yofs3 == (st.yofs + 1) % |bm|
    requires Holds(row1, st, bm, (st.yofs - 1) % |bm|) && Holds(row2, st, bm, st.yofs % |bm|)
    requires Holds(row3, st, bm, yofs3)
    modifies srcRow, destRow, row1, row2, row3
    ensures out == ShadedRows(st, src, bm, |src|)
  {
    var h := |bm|;
    var r1, r2, r3, cursor := row1, row2, row3, yofs3;
    ghost var k1, k2, c := (st.yofs - 1) % h, st.yofs % h, st.yofs;
    out := [];
    for y := 0 to |src|
      invariant out == ShadedRows(st, src, bm, y)
      invariant {r1, r2, r3} == {row1, row2, row3} && lut[..] == st.lut
      invariant Buffers(lut, r1, r2, r3, srcRow, destRow, RowBytes(st.bmWidth, st.bmHasAlpha), st.selWidth * st.imgBpp)
      invariant c == st.yofs + y && k1 == (c - 1) % h && k2 == c % h && cursor == (c + 1) % h
      invariant Holds(r1, st, bm, k1) && Holds(r2, st, bm, k2) && Holds(r3, st, bm, cursor)
    {
      var line;
      ghost var k3 := cursor;
      line, r1, r2, r3, cursor := NextLine(src, bm, st, y, c, lut, srcRow, destRow, r1, r2, r3, cursor);
      out := out + [line];
      CursorsAdvance(c, h, k2, k3, cursor);
      k1, k2, c := k2, k3, c + 1;
    }
  }

  /**
   * The start of `bumpmap`: the cursor of the middle map row is the wrapped
   * Y offset, the other two the rows above and below it, each loaded into
   * a buffer of its own.
   */
  method StartRows(st: Setup, bm: seq<seq<Byte>>, lut: array<Byte>)
    returns (row1: array<Byte>, row2: array<Byte>, row3: array<Byte>, yofs3: int)
    requires MapFits(st, bm) && lut[..] == st.lut
    ensures fresh(row1) && fresh(row2) && fresh(row3) && row1 != row2 && row2 != row3 && row1 != row3
    ensures row1.Length == row2.Length == row3.Length == RowBytes(st.bmWidth, st.bmHasAlpha)
    ensures yofs3 == (st.yofs + 1) % |bm|
    ensures Holds(row1, st, bm, (st.yofs - 1) % |bm|) && Holds(row2, st, bm, st.yofs % |bm|)
    ensures Holds(row3, st, bm, yofs3)
  {
    var h := |bm|;
    var yofs2 := WrapOffset(st.yofs, h);
    var yofs1 := (yofs2 + h - 1) % h;
    yofs3 := (yofs2 + 1) % h;
    CursorsStart(st.yofs, h);
    row1 := new Byte[RowBytes(st.bmWidth, st.bmHasAlpha)];
    row2 := new Byte[RowBytes(st.bmWidth, st.bmHasAlpha)];
    row3 := new Byte[RowBytes(st.bmWidth, st.bmHasAlpha)];
    LoadMapRow(row1, st, bm, yofs1, lut);
    LoadMapRow(row2, st, bm, yofs2, lut);
    LoadMapRow(row3, st, bm, yofs3, lut);
  }

  /**
   * One pass of the loop of `bumpmap`: shade source row `y`, rotate the map
   * buffers, step the cursor of the lowest row and load that row into the
   * buffer the top row freed; `c` is the map row level with `y`.
   */
  method NextLine(src: seq<seq<Byte>>, bm: seq<seq<Byte>>, st: Setup, y: int, ghost c: int, lut: array<Byte>,
                  srcRow: array<Byte>, destRow: array<Byte>, row1: array<Byte>, row2: array<Byte>, row3: array<Byte>,
                  yofs3: int)
    returns (line: seq<Byte>, next1: array<Byte>, next2: array<Byte>, next3: array<Byte>, next: int)
    requires Fits(st, src, bm) && 0 <= y < |src| && c == st.yofs + y && lut[..] == st.lut
    requires Buffers(lut, row1, row2, row3, srcRow, destRow, RowBytes(st.bmWidth, st.bmHasAlpha), st.selWidth * st.imgBpp)
    requires yofs3 == (c + 1) % |bm|
    requires Holds(row1, st, bm, (c - 1) % |bm|) && Holds(row2, st, bm, c % |bm|) && Holds(row3, st, bm, yofs3)
    modifies srcRow, destRow, row1
    ensures line == ShadedLine(st, src, bm, y) && next1 == row2 && next2 == row3 && next3 == row1
    ensures next == (c + 2) % |bm|
    ensures Holds(next1, st, bm, c % |bm|) && Holds(next2, st, bm, yofs3) && Holds(next3, st, bm, next)
  {
    assert c - 1 == st.yofs + y - 1 && c + 1 == st.yofs + y + 1;
    FetchRow(srcRow, src[y]);
    assert srcRow[..] == src[y];
    line := ShadeLine(src, bm, st, y, srcRow, destRow, row1, row2, row3);
    next1, next2, next3 := row2, row3, row1;
    StepFollows(st.yofs + y + 1, |bm|);
    next := Step(yofs3, |bm|);
    assert st.yofs + y + 1 + 1 == c + 2;
    LoadMapRow(next3, st, bm, next, lut);
  }

  /** The three cursors one row further down. */
  lemma CursorsAdvance(c: int, h: int, k1: int, k2: int, k3: int)
    requires h > 0 && k1 == c % h && k2 == (c + 1) % h && k3 == (c + 2) % h
    ensures k1 == (c + 1 - 1) % h && k2 == (c + 1) % h && k3 == (c + 1 + 1) % h
  {
    assert c + 1 - 1 == c && c + 1 + 1 == c + 2;
  }

  /** The six buffers of `bumpmap` are distinct and sized for the map and the selection. */
  ghost predicate Buffers(lut: array<Byte>, row1: array<Byte>, row2: array<Byte>, row3: array<Byte>,
                          srcRow: array<Byte>, destRow: array<Byte>, mapBytes: int, rowBytes: int)
  {
    lut.Length == 256 && row1.Length == row2.Length == row3.Length == mapBytes &&
    srcRow.Length == destRow.Length == rowBytes &&
    row1 != row2 && row2 != row3 && row1 != row3 &&
    lut != row1 && lut != row2 && lut != row3 && lut != srcRow && lut != destRow &&
    srcRow != destRow && srcRow != row1 && srcRow != row2 && srcRow != row3 &&
    destRow != row1 && destRow != row2 && destRow != row3
  }
}
