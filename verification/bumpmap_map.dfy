/**
 * The bump map side of common/bumpmap.c: how an X or Y offset is wrapped
 * into the map, how the three column (row) cursors step through it, the
 * look-up table that shapes the map, the gray conversion of a map row
 * with its waterlevel blend, and the preview's fetch of a run of map rows
 * that wraps around the bottom of the map.
 */
module BumpmapMap {
  import opened CTypes
  import opened Arith

  // ---------------------------------------------------------------------
  // Offsets and cursors
  // ---------------------------------------------------------------------

  /**
   * The offset normalisation as written (`bumpmap`, `bumpmap_row`,
   * `dialog_scroll_bumpmap`): `w - ((-ofs) % w)` for a negative offset,
   * `ofs % w` otherwise. The result is congruent to the offset, but a
   * negative multiple of `w` gives `w` itself, one past the last column.
   */
  function WrapOffsetAsWritten(ofs: int, w: int): (o: int)
    requires w > 0
    ensures ofs >= 0 ==> 0 <= o < w
    ensures ofs < 0 ==> 0 < o <= w
    ensures o == w <==> ofs < 0 && ofs % w == 0
    ensures o % w == ofs % w
  {
    if ofs < 0 then
      NegativeWrap(ofs, w);
      w - (-ofs) % w
    else
      ModSmall(ofs % w, w);
      ofs % w
  }

  lemma NegativeWrap(ofs: int, w: int)
    requires w > 0 && ofs < 0
    ensures 0 < w - (-ofs) % w <= w
    ensures (w - (-ofs) % w) % w == ofs % w
    ensures (-ofs) % w == 0 <==> ofs % w == 0
  {
    var q, r := (-ofs) / w, (-ofs) % w;
    assert -ofs == q * w + r;
    assert w - r == ofs + (q + 1) * w;
    ModAddMultiple(ofs, q + 1, w);
    if r == 0 {
      ModAddMultiple(0, -q, w);
      assert ofs == 0 + (-q) * w;
      ModSmall(0, w);
    } else {
      ModSmall(w - r, w);
    }
  }

  /** An X offset of `-5` on a map 5 columns wide starts the middle cursor at column 5. */
  lemma WrapOffsetAsWrittenOverruns()
    ensures WrapOffsetAsWritten(-5, 5) == 5
    ensures Step(5, 5) == 6
  {
  }

  /** The offset wrapped into the map: the residue of `ofs` modulo `w`. */
  function WrapOffset(ofs: int, w: int): (o: int)
    requires w > 0
    ensures 0 <= o < w && o == ofs % w
  {
    WrapOffsetAsWritten(ofs, w) % w
  }

  /** The correction only changes the case the written code gets wrong. */
  lemma WrapOffsetAgrees(ofs: int, w: int)
    requires w > 0 && WrapOffsetAsWritten(ofs, w) < w
    ensures WrapOffset(ofs, w) == WrapOffsetAsWritten(ofs, w)
  {
    ModSmall(WrapOffsetAsWritten(ofs, w), w);
  }

  /** One step of a cursor: `if (++i == w) i = 0;`. */
  function Step(i: int, w: int): (j: int)
    ensures 0 <= i < w ==> 0 <= j < w
  {
    if i + 1 == w then 0 else i + 1
  }

  /** A cursor at the residue of `a` steps to the residue of `a + 1`. */
  lemma StepFollows(a: int, w: int)
    requires w > 0
    ensures Step(a % w, w) == (a + 1) % w
  {
    ModStep(a, w);
    if a % w + 1 < w {
      ModSmall(a % w + 1, w);
    } else {
      ModSmall(0, w);
      ModAddMultiple(0, 1, w);
    }
  }

  /** The three cursors start one before, at and one after the wrapped offset. */
  lemma CursorsStart(ofs: int, w: int)
    requires w > 0
    ensures (WrapOffset(ofs, w) + w - 1) % w == (ofs - 1) % w
    ensures (WrapOffset(ofs, w) + 1) % w == (ofs + 1) % w
  {
    ModAddRemainder(ofs, w - 1, w);
    ModAddMultiple(ofs - 1, 1, w);
    ModAddRemainder(ofs, 1, w);
  }

  // ---------------------------------------------------------------------
  // The look-up table
  // ---------------------------------------------------------------------

  /** The map types; any other value of the type field behaves as `Linear`. */
  datatype MapType = Linear | Spherical | Sinusoidal

  /**
   * Entry `i` of the table built by `bumpmap_init_params`. The spherical
   * and sinusoidal curves are computed in floating point; `curve` stands
   * for them.
   */
  function LutEntry(i: Byte, mapType: MapType, invert: bool, curve: (MapType, Byte) -> Byte): Byte
  {
    var base := if mapType == Linear then i else curve(mapType, i);
    if invert then 255 - base else base
  }

  /** A linear table maps every height to itself, an inverted one to its complement. */
  lemma LinearLut(i: Byte, invert: bool, curve: (MapType, Byte) -> Byte)
    ensures LutEntry(i, Linear, invert, curve) == if invert then 255 - i else i
  {
  }

  /** Inverting reflects every entry, and reverses the order of a linear table. */
  lemma InvertReflects(i: Byte, j: Byte, mapType: MapType, curve: (MapType, Byte) -> Byte)
    ensures LutEntry(i, mapType, true, curve) == 255 - LutEntry(i, mapType, false, curve)
    ensures i < j ==> LutEntry(i, Linear, true, curve) > LutEntry(j, Linear, true, curve)
  {
  }

  /** The table loop of `bumpmap_init_params`. */
  method InitLut(lut: array<Byte>, mapType: MapType, invert: bool, curve: (MapType, Byte) -> Byte)
    requires lut.Length == 256
    modifies lut
    ensures forall i :: 0 <= i < 256 ==> lut[i] == LutEntry(i, mapType, invert, curve)
  {
    for i := 0 to 256
      invariant forall j :: 0 <= j < i ==> lut[j] == LutEntry(j, mapType, invert, curve)
    {
      match mapType {
        case Spherical => lut[i] := curve(Spherical, i);
        case Sinusoidal => lut[i] := curve(Sinusoidal, i);
        case Linear => lut[i] := i;
      }
      if invert {
        lut[i] := 255 - lut[i];
      }
    }
  }

  // ---------------------------------------------------------------------
  // Gray conversion with the waterlevel blend
  // ---------------------------------------------------------------------

  /**
   * The table index of a gray map pixel of value `v` and alpha `a`:
   * `waterlevel + ((v - waterlevel) * a) / 255` with C's truncating
   * division. It lies between the waterlevel and the value: a transparent
   * pixel reads the waterlevel, an opaque one its own value.
   */
  function WaterIndex(v: Byte, a: Byte, waterlevel: int): (i: int)
    ensures (if waterlevel <= v then waterlevel else v) <= i <= (if waterlevel <= v then v else waterlevel)
    ensures a == 0 ==> i == waterlevel
    ensures a == 255 ==> i == v
  {
    var d := v - waterlevel;
    if d >= 0 then
      ScaledDown(d, a);
      waterlevel + TruncDiv(d * a, 255)
    else
      ScaledDown(-d, a);
      assert (-d) * a == -(d * a);
      waterlevel + TruncDiv(d * a, 255)
  }

  /** Scaling a non-negative `d` by `a / 255` with `a <= 255` stays in `[0, d]`; `a = 255` is exact. */
  lemma ScaledDown(d: int, a: Byte)
    requires d >= 0
    ensures 0 <= d * a / 255 <= d
    ensures a == 255 ==> d * a / 255 == d
  {
    MulMonotone(d, a, 255);
    DivMonotone(d * a, d * 255, 255);
    DivModUnique(d * 255, 255, d, 0);
  }

  /** The largest waterlevel the slider should allow: the last entry of the table. */
  const WaterlevelMax := 255

  /** With the waterlevel in `[0, WaterlevelMax]` the index is inside the 256-entry table. */
  lemma WaterIndexInTable(v: Byte, a: Byte, waterlevel: int)
    requires 0 <= waterlevel <= WaterlevelMax
    ensures 0 <= WaterIndex(v, a, waterlevel) < 256
  {
  }

  /**
   * The waterlevel slider goes up to 256: a transparent pixel of value
   * 200 then reads entry 256 of the 256-entry table.
   */
  lemma WaterIndexPastTable()
    ensures WaterIndex(200, 0, 256) == 256
  {
  }

  /**
   * The non-interactive call stores any waterlevel: with -5, a transparent
   * pixel of value 0 reads entry -5, before the table.
   */
  lemma WaterIndexBelowTable()
    ensures WaterIndex(0, 0, -5) == -5
  {
  }

  /** The bytes of `width` gray map pixels: one byte each, two with alpha. */
  function RowBytes(width: int, hasAlpha: bool): int
  {
    if hasAlpha then 2 * width else width
  }

  /** The converted value of pixel `i` of a gray map row. */
  function GrayEntry(raw: seq<Byte>, i: int, hasAlpha: bool, lut: seq<Byte>, waterlevel: int): Byte
    requires 0 <= i && RowBytes(i + 1, hasAlpha) <= |raw|
    requires |lut| == 256 && (hasAlpha ==> 0 <= waterlevel <= WaterlevelMax)
  {
    if hasAlpha then
      WaterIndexInTable(raw[2 * i], raw[2 * i + 1], waterlevel);
      lut[WaterIndex(raw[2 * i], raw[2 * i + 1], waterlevel)]
    else lut[raw[i]]
  }

  /** A gray map row after conversion: one table entry per pixel. */
  function Converted(raw: seq<Byte>, width: int, hasAlpha: bool, lut: seq<Byte>, waterlevel: int): (c: seq<Byte>)
    requires 0 <= width && RowBytes(width, hasAlpha) <= |raw|
    requires |lut| == 256 && (hasAlpha ==> 0 <= waterlevel <= WaterlevelMax)
    ensures |c| == width
  {
    seq(width, i requires 0 <= i < width => GrayEntry(raw, i, hasAlpha, lut, waterlevel))
  }

  /**
   * Through an identity table a row without alpha is unchanged, and a row
   * with alpha becomes its values wherever the pixels are opaque.
   */
  lemma ConvertedIdentity(raw: seq<Byte>, width: int, hasAlpha: bool, lut: seq<Byte>, waterlevel: int)
    requires 0 <= width && RowBytes(width, hasAlpha) <= |raw|
    requires |lut| == 256 && (hasAlpha ==> 0 <= waterlevel <= WaterlevelMax)
    requires forall i :: 0 <= i < 256 ==> lut[i] == i
    ensures !hasAlpha ==> Converted(raw, width, hasAlpha, lut, waterlevel) == raw[..width]
    ensures hasAlpha ==> forall i :: 0 <= i < width && raw[2 * i + 1] == 255 ==>
      Converted(raw, width, hasAlpha, lut, waterlevel)[i] == raw[2 * i]
  {
  }

  /**
   * `bumpmap_convert_row` for a gray map (`bpp < 3`): converts the row in
   * place, the write cursor `p` running behind the read cursor.
   */
  method ConvertRowGray(row: array<Byte>, width: int, hasAlpha: bool, lut: array<Byte>, waterlevel: int)
    requires 0 <= width && RowBytes(width, hasAlpha) <= row.Length
    requires lut.Length == 256 && row != lut && (hasAlpha ==> 0 <= waterlevel <= WaterlevelMax)
    modifies row
    ensures row[..width] == Converted(old(row[..]), width, hasAlpha, lut[..], waterlevel)
    ensures row[width..] == old(row[width..])
  {
    ghost var raw := row[..];
    var p := 0;
    var r := 0;
    while p < width
      invariant 0 <= p <= width && r == RowBytes(p, hasAlpha)
      invariant forall i :: 0 <= i < p ==> row[i] == GrayEntry(raw, i, hasAlpha, lut[..], waterlevel)
      invariant forall j :: p <= j < row.Length ==> row[j] == raw[j]
    {
      var v;
      if hasAlpha {
        WaterIndexInTable(row[r], row[r + 1], waterlevel);
        v := lut[WaterIndex(row[r], row[r + 1], waterlevel)];
      } else {
        v := lut[row[r]];
      }
      assert row[r] == raw[r] && (hasAlpha ==> row[r + 1] == raw[r + 1]);
      row[p] := v;
      p := p + 1;
      r := if hasAlpha then r + 2 else r + 1;
    }
  }

  // ---------------------------------------------------------------------
  // The preview's row fetch
  // ---------------------------------------------------------------------

  /**
   * `dialog_fill_bumpmap_rows`: fetches `howMany` map rows into the slots
   * from `start`, beginning at map row `yofs` and wrapping at the bottom of
   * the map, and converts them. A fetch never crosses the bottom: each pass
   * takes at most the rows left below `yofs`. The offset comes from the
   * written normalisation, so it may equal the height; that first pass then
   * takes no rows and the next one starts at row 0.
   */
  method FillRows(rows: array<seq<Byte>>, start: int, howMany: int, yofs: int, bm: seq<seq<Byte>>,
                  width: int, hasAlpha: bool, lut: seq<Byte>, waterlevel: int)
    requires 0 <= start && 0 <= howMany && start + howMany <= rows.Length
    requires |bm| > 0 && 0 <= yofs <= |bm|
    requires 0 <= width && forall k :: 0 <= k < |bm| ==> RowBytes(width, hasAlpha) <= |bm[k]|
    requires |lut| == 256 && (hasAlpha ==> 0 <= waterlevel <= WaterlevelMax)
    modifies rows
    ensures forall j :: start <= j < start + howMany ==>
      rows[j] == Converted(bm[(yofs + j - start) % |bm|], width, hasAlpha, lut, waterlevel)
    ensures forall k :: 0 <= k < rows.Length && !(start <= k < start + howMany) ==> rows[k] == old(rows[k])
  {
    var h := |bm|;
    var bufRowOfs := start;
    var remaining := howMany;
    var y := yofs;
    while remaining > 0
      invariant 0 <= remaining <= howMany && bufRowOfs == start + howMany - remaining
      invariant 0 <= y <= h && y % h == (yofs + bufRowOfs - start) % h
      invariant remaining < howMany ==> y < h
      invariant forall j :: start <= j < bufRowOfs ==> rows[j] == bm[(yofs + j - start) % h]
      invariant forall k :: 0 <= k < rows.Length && !(start <= k < start + howMany) ==> rows[k] == old(rows[k])
      decreases remaining, if y == h then 1 else 0
    {
      var thisPass := if remaining < h - y then remaining else h - y;
      NextPass(yofs + bufRowOfs - start, y, thisPass, h);
      GetRows(rows, bufRowOfs, bm, y, thisPass, yofs + bufRowOfs - start);
      y := (y + thisPass) % h;
      remaining := remaining - thisPass;
      bufRowOfs := bufRowOfs + thisPass;
    }
    ConvertSlots(rows, start, howMany, bm, yofs, width, hasAlpha, lut, waterlevel);
  }

  /**
   * A pass that starts at map row `y`, congruent to `a`, and takes `n` rows
   * without crossing the bottom reads rows `a % h ..` and leaves the next
   * pass at the row congruent to `a + n`.
   */
  lemma NextPass(a: int, y: int, n: int, h: int)
    requires h > 0 && 0 <= y <= h && y % h == a % h && 0 <= n && y + n <= h
    requires y == h ==> n == 0
    ensures n > 0 ==> y == a % h
    ensures (y + n) % h % h == (a + n) % h
  {
    ModAddRemainder(a, n, h);
    ModSmall((y + n) % h, h);
    if y < h {
      ModSmall(y, h);
    } else {
      ModAddMultiple(0, 1, h);
      ModSmall(0, h);
      ModAddRemainder(a, 0, h);
    }
  }

  /**
   * `dialog_get_rows` on whole rows: copies map rows `y .. y + n` into the
   * slots from `buf`. `ghost at` is the count of rows fetched before,
   * offset by the start row, so slot `buf + t` holds row `(at + t) % |bm|`.
   */
  method GetRows(rows: array<seq<Byte>>, buf: int, bm: seq<seq<Byte>>, y: int, n: int, ghost at: int)
    requires 0 <= buf && 0 <= n && buf + n <= rows.Length
    requires |bm| > 0 && 0 <= y && y + n <= |bm| && (n > 0 ==> y == at % |bm|)
    modifies rows
    ensures forall j :: buf <= j < buf + n ==> rows[j] == bm[(at + j - buf) % |bm|]
    ensures forall k :: 0 <= k < rows.Length && !(buf <= k < buf + n) ==> rows[k] == old(rows[k])
  {
    for t := 0 to n
      invariant forall j :: buf <= j < buf + t ==> rows[j] == bm[(at + j - buf) % |bm|]
      invariant forall k :: 0 <= k < rows.Length && !(buf <= k < buf + t) ==> rows[k] == old(rows[k])
    {
      ModAddRemainder(at, t, |bm|);
      ModSmall(y + t, |bm|);
      rows[buf + t] := bm[y + t];
    }
  }

  /** The conversion loop at the end of `dialog_fill_bumpmap_rows`. */
  method ConvertSlots(rows: array<seq<Byte>>, start: int, howMany: int, bm: seq<seq<Byte>>, yofs: int,
                      width: int, hasAlpha: bool, lut: seq<Byte>, waterlevel: int)
    requires 0 <= start && 0 <= howMany && start + howMany <= rows.Length && |bm| > 0
    requires 0 <= width && forall k :: 0 <= k < |bm| ==> RowBytes(width, hasAlpha) <= |bm[k]|
    requires |lut| == 256 && (hasAlpha ==> 0 <= waterlevel <= WaterlevelMax)
    requires forall j :: start <= j < start + howMany ==> rows[j] == bm[(yofs + j - start) % |bm|]
    modifies rows
    ensures forall j :: start <= j < start + howMany ==>
      rows[j] == Converted(bm[(yofs + j - start) % |bm|], width, hasAlpha, lut, waterlevel)
    ensures forall k :: 0 <= k < rows.Length && !(start <= k < start + howMany) ==> rows[k] == old(rows[k])
  {
    for s := 0 to howMany
      invariant forall j :: start <= j < start + s ==>
        rows[j] == Converted(bm[(yofs + j - start) % |bm|], width, hasAlpha, lut, waterlevel)
      invariant forall j :: start + s <= j < start + howMany ==> rows[j] == bm[(yofs + j - start) % |bm|]
      invariant forall k :: 0 <= k < rows.Length && !(start <= k < start + howMany) ==> rows[k] == old(rows[k])
    {
      assert rows[start + s] == bm[(yofs + s) % |bm|];
      rows[start + s] := Converted(rows[start + s], width, hasAlpha, lut, waterlevel);
    }
  }
}
