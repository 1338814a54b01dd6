# Integer cores of seven GIMP plug-ins, modelled in Dafny

This project models the integer and string logic of several plug-ins and
helpers of the GIMP plug-in collection, and proves properties of each model.

- **Despeckle** (`common/despeckle.c`) is an adaptive, recursive median filter.
  - `despeckle()` streams the selection through a ring buffer of
    `2 * tile height` rows. `preview_update()` filters a fully loaded preview
    rectangle.
  - Both loops are modelled as methods over arrays: the ring `src_rows` or the
    preview buffer, the destination row and the sort array.
  - Both are proved to compute one pure specification, `DespeckleRule.Despeckled`.
    For every pixel it collects the same-channel samples of the window. It
    counts the black and white samples, keeps those below the white level and
    shell-sorts them. It picks the median exactly as the C code does and adapts
    the radius. In recursive mode it writes the result back into the source.
  - The shell sort is proved to sort and to permute the samples.
- **TileIt** (`common/tileit.c`) is a class over the 6 by 6 action grid.
  - It covers the all, alternate and explicit updates, the click selection and
    the reset.
  - It also covers the tile mapping `tiles_xy`, the preview size computation,
    the alpha scaling of `do_tiles` and the tile count a non-interactive
    `run` leaves for `do_tiles`. That count is the datatype `TileIt.RunTiles`:
    the status of the call and the `numtiles` that `do_tiles` then uses.
- **Image map rectangle** (`imagemap/imap_rectangle.c`) is a class whose
  methods update the four fields in place. Each method is specified by a
  function on the rectangle's value:
  - normalize, move, resize and the eight sash drags;
  - clone and assign;
  - the Shift-constrained drag of the factory;
  - the corner tuples of the three map writers.
- **Help locales** (`help/locales.c`): `locales_parse` splits the
  colon-separated list, appends the new base languages in the order it visits
  the entries, and appends `"en"` last unless it is present. The result is
  proved equal to that list, which is the fallback order of help lookups.
- **BMP codecs** (`bmp/bmp.c`): the little-endian readers `ToL`/`ToS` and the
  writers `FromL`/`FromS`, with round trips in both directions.
- **Help browser** (`helpbrowser/dialog.c`):
  - `has_case_prefix`;
  - the history combo box of `history_add`;
  - the reference bookkeeping of `browser_dialog_load`.
- **Bump map** (`common/bumpmap.c`), its integer parts:
  - offset wrapping and the three cursors;
  - the surface normal and painting of `bumpmap_row`;
  - the look-up table;
  - the gray conversion with its waterlevel blend;
  - the row rotation of `bumpmap()`;
  - the preview's wrapping row fetch `dialog_fill_bumpmap_rows`.

C's `/` and `%` truncate toward zero. `CTypes.TruncDiv` and `CTypes.TruncMod`
model them wherever an operand can be negative. Where Dafny's own `/` or `%`
stands for C's `/` or `%`, both operands are known not to be negative.

Dafny's `/` and `%` also appear on possibly negative values in three
deliberate places, where they model something other than C's `/` and `%`:
- a bit test, as in `filterType % 2` and `(filterType / 2) % 2` for the flag
  bits of `filter_type`;
- a bit pattern, as in `CTypes.ToByte` and the two's-complement bytes of
  `Bmp.FromL` and `Bmp.FromS`;
- a mathematical residue, as in the wrapped map row `k % |bm|` of
  `BumpmapShade`, which the corrected `WrapOffset` also computes.

Reading pixel regions from the host is modelled as copying rows of a given
image. Writing an output row is modelled as appending
it to a returned sequence.

Where the C code reads outside a table or a grid for some input, `## Findings`
records it. It names both the member that models the code as written and the
corrected member that the rest of the model uses.

## Model

| member | source | states |
|---|---|---|
| CTypes.TruncDiv | imagemap/imap_rectangle.c:311-314 | C's division truncates toward zero: the remainder is smaller than the divisor in magnitude and has the sign of the dividend |
| CTypes.TruncMod | common/tileit.c:1043-1044 | C's `%` is smaller than the divisor in magnitude, has the sign of the dividend, and differs from it by a multiple of the divisor |
| CTypes.TruncModNonNegative | common/tileit.c:1043-1044 | on non-negative operands C's `%` agrees with the mathematical remainder |
| DespeckleRule.DefaultSettings | common/despeckle.c:572-578 | a call with only a radius uses adaptive, non-recursive filtering with black level 7 and white level 248 |
| DespeckleRule.XMin | common/despeckle.c:792-796 | the first sampled column is non-negative, no more than `radius` pixels left of `x`, and not right of `x` |
| DespeckleRule.XMax | common/despeckle.c:793-799 | the end of the sampled columns is `radius + 1` pixels right of `x`, clamped to the row width |
| DespeckleRule.ColumnsInRow | common/despeckle.c:792-809 | every sampled column lies in `[0, width)` and holds the channel `x % bpp`; at most `2r + 1` columns are sampled |
| DespeckleRule.XMinChannel | common/despeckle.c:792-796 | the first sampled column, clamped to `x % img_bpp`, is non-negative, on the channel of `x`, and no more than `r` pixels to the left |
| DespeckleRule.ColumnsFromChannel | common/despeckle.c:807-809 | stepping `tx += img_bpp` stays on the channel of the first column |
| DespeckleRule.ColumnsFrom | common/despeckle.c:807-809 | every column of the `tx` loop lies in `[xmin, xmax)` |
| DespeckleRule.ColumnsFromCount | common/despeckle.c:807-809 | the `tx` loop takes at most `k` steps below `xmin + k * bpp` |
| DespeckleRule.RowSamples | common/despeckle.c:807-818 | the bytes the `tx` loop reads from one row, from `xmin` in steps of `img_bpp` below `xmax`; which bytes they are is stated by `RowSamplesAtColumns` |
| DespeckleRule.RowSamplesAtColumns | common/despeckle.c:807-818 | the samples read from a row are that row's bytes at the sampled columns, in order |
| DespeckleRule.WindowSamples | common/despeckle.c:804-818 | the samples of window rows `lo .. hi-1`, row after row, as the `trow` loop collects them; their number is stated by `WindowSamplesCount` |
| DespeckleRule.WindowSamplesCount | common/despeckle.c:804-818 | a window yields one row of samples per window row |
| DespeckleRule.WindowPrefix | common/despeckle.c:804-818 | a window over fewer rows collects no more samples |
| DespeckleRule.PixelWindow | common/despeckle.c:790-818 | the window of radius `r` around byte `x` of row `y`: rows `y - r .. y + r`, columns `XMin .. XMax`; its size is bounded by `PixelWindowSize` |
| DespeckleRule.PixelWindowSize | common/despeckle.c:725-736 | a window never holds more samples than the `size * size` sort array |
| DespeckleRule.Kept | common/despeckle.c:816-817 | only samples below the white level enter the sort array, and every such sample does |
| DespeckleRule.CountBlack | common/despeckle.c:811-812 | `hist0`, counted sample by sample, is at most the number of samples; `CountBlackPositions` states which samples it counts |
| DespeckleRule.CountBlackPositions | common/despeckle.c:811-812 | `hist0` is the number of positions whose sample is at or below the black level |
| DespeckleRule.CountWhite | common/despeckle.c:811-814 | `hist255`, counted sample by sample, is at most the number of samples; `CountWhitePositions` states which samples it counts |
| DespeckleRule.CountWhitePositions | common/despeckle.c:811-814 | `hist255` is the number of positions whose sample is above the black level and at or above the white level |
| DespeckleRule.CollectStep | common/despeckle.c:811-817 | one more sample raises `hist0` when it is at most the black level, otherwise `hist255` when it is at least the white level, and enters the sort array when it is below the white level |
| DespeckleRule.HistogramPartition | common/despeckle.c:811-817 | no sample counts as both black and white; with black below white, every sample is either kept or counted white |
| DespeckleRule.MedianRule | common/despeckle.c:843-848 | the pick lies between `sort[t]` and `sort[t + 1]` for an odd count, and is `sort[t]` for an even one |
| DespeckleRule.MedianBetweenEnds | common/despeckle.c:843-848 | the median as picked (odd count: mean of `sort[t]` and `sort[t+1]`; even: `sort[t]`) lies between the smallest and the largest sorted sample |
| DespeckleRule.Median | common/despeckle.c:824-848 | the median of more than one kept sample lies between two of the kept samples |
| DespeckleRule.MedianOfUniform | common/despeckle.c:843-848 | samples that all have one value give that value |
| DespeckleRule.NextRadius | common/despeckle.c:864-873 | the radius grows by one exactly when a histogram count reaches it and it is below `despeckle_radius`; it shrinks by one exactly when neither count reaches it and it is above 1; otherwise it stays. It remains in `[0, despeckle_radius]` and never drops below 1 from 1 |
| DespeckleRule.FilterPixel | common/despeckle.c:790-873 | filtering byte `x` changes only output byte `x` and, in recursive mode, source byte `(y, x)`; without the recursive flag the source is untouched |
| DespeckleRule.FilterRowFrom | common/despeckle.c:788-874 | the x loop leaves the bytes before its start and every other row as they were |
| DespeckleRule.FilterRow | common/despeckle.c:782-875 | a row within the radius of the top or bottom edge is output as read; no other source row changes |
| DespeckleRule.PassFrom | common/despeckle.c:757-881 | the y loop outputs one row of `width` bytes per selection row and never changes rows it has passed |
| DespeckleRule.Despeckled | common/despeckle.c:757-881 | the filtered selection has one output row of `width` bytes per selection row |
| DespeckleRule.PassKeepsLaterRows | common/despeckle.c:782-786 | until the pass reaches an edge row, its source row is still the original, so the edge row is output exactly as read |
| DespeckleRule.EdgeRowsCopied | common/despeckle.c:782-877 | rows `y < radius` and `y >= height - radius` are written out byte-identical to the source rows |
| DespeckleRule.NonRecursiveReadsSource | common/despeckle.c:855-857 | without `FILTER_RECURSIVE` the source rows are never modified and every row is filtered from the original |
| DespeckleRule.RowSamplesUniform | common/despeckle.c:807-818 | in a row where one channel has one value, every sample read on that channel is that value |
| DespeckleRule.WindowSamplesUniform | common/despeckle.c:804-818 | every sample of a window over a flat image is the value of the first column's channel |
| DespeckleRule.FilterPixelUniform | common/despeckle.c:790-873 | on a flat image one x turn outputs the byte already there and writes back the same byte |
| DespeckleRule.FilterRowFromUniform | common/despeckle.c:788-874 | on a flat image the x loop leaves the source unchanged and outputs the source row |
| DespeckleRule.FilterRowUniform | common/despeckle.c:782-875 | on a flat image every row is output as it is and the source is left alone, edge row or not |
| DespeckleRule.PassFromUniform | common/despeckle.c:757-881 | on a flat image the y loop outputs the source rows from `y` on |
| DespeckleRule.DespeckledUniform | common/despeckle.c:757-881 | despeckling is idempotent on a flat colour: the output is the input, for every radius, filter type and pair of levels |
| ShellSort.NeighbourSortedIsSorted | common/despeckle.c:828-837 | order between neighbours, which the final gap-1 pass gives, is order of the whole sequence |
| ShellSort.Swap | common/despeckle.c:834-836 | the three-assignment swap exchanges two entries and keeps the rest |
| ShellSort.SwapPermutes | common/despeckle.c:834-836 | a swap below `sort_count` permutes the counted prefix and keeps the rest of the array |
| ShellSort.SinkDown | common/despeckle.c:830-837 | the `j` loop sinks entry `i` down its gap chain, so all gap-`d` pairs up to `i` are ordered; the array is permuted |
| ShellSort.SwapDown | common/despeckle.c:831-836 | one swap of an out-of-order pair keeps every other gap pair ordered and moves the disorder one gap down |
| ShellSort.GapPass | common/despeckle.c:829-837 | one pass with gap `d` leaves the prefix gap-`d` sorted and permuted |
| ShellSort.Sort | common/despeckle.c:826-837 | the shell sort leaves `sort[0..sort_count)` non-decreasing and a permutation of the collected samples |
| ShellSort.SortedUnique | common/despeckle.c:826-837 | any two sorted arrangements of the same samples are equal, so the median does not depend on how the sort ran |
| ShellSort.SortSeq | common/despeckle.c:826-837 | a reference sort: sorted and a permutation of its input |
| ShellSort.Insert | common/despeckle.c:826-837 | inserting into a sorted sequence keeps it sorted and adds exactly the inserted element |
| Despeckle.SlotsDistinct | common/despeckle.c:726 | rows less than `max_row` apart occupy different slots of the ring |
| Despeckle.SlotExpression | common/despeckle.c:784 | with `row == lasty % max_row`, `(row + y - lasty + d + max_row) % max_row` is the slot of row `y + d` |
| Despeckle.SlotAfter | common/despeckle.c:770-775 | the rows of a block load go to consecutive slots from `row` |
| Despeckle.LoadBlock | common/despeckle.c:766-775 | a block load puts the next rows into the slots after `row`; the ring then holds the `max_row` rows ending at the new `lasty` |
| Despeckle.LoadNext | common/despeckle.c:759-776 | after the block load `lasty` lies past row `y + radius`, or at the end of the selection, and within one tile height beyond it; `rowcount` is unchanged without a load and otherwise loses a tile height and gains the rows loaded |
| Despeckle.ColumnBounds | common/despeckle.c:792-799 | `xmin` and `xmax` are the clamped bounds of the specification, both inside the row |
| Despeckle.CollectRow | common/despeckle.c:807-818 | scanning one ring row appends its samples: the sort array holds the kept samples, and `hist0`/`hist255` count black and white |
| Despeckle.CollectWindow | common/despeckle.c:801-818 | walking the slots from `startrow` to `endrow` collects exactly the window's samples, counts and kept values |
| Despeckle.CollectRing | common/despeckle.c:790-818 | the collection loop of `despeckle()` fills the sort array with the kept samples of the pixel's window and counts its black and white samples |
| Despeckle.SortedMedian | common/despeckle.c:826-848 | shell sort followed by the median pick yields the median of the collected samples |
| Despeckle.WriteBack | common/despeckle.c:855-857 | the recursive write-back stores the output byte into the slot of row `y`, so the buffered image changes at `(y, x)` and nowhere else |
| Despeckle.FilterRingPixel | common/despeckle.c:790-873 | one turn of the x loop over the ring computes exactly the specification's step for the pixel |
| Despeckle.FilterRingRow | common/despeckle.c:786-874 | the x loop over a row yields the specification's output row and source |
| Despeckle.FilterRingLine | common/despeckle.c:782-875 | copying the row out of its slot and filtering it unless it is an edge row yields the specification's row |
| Despeckle.PassAdvance | common/despeckle.c:757-881 | filtering row `y` and writing it out advances the pass by one row |
| Despeckle.PassDone | common/despeckle.c:757-881 | after the last row, the rows written out are the filtered selection |
| Despeckle.Despeckle | common/despeckle.c:725-881 | `despeckle()` writes out exactly the rows of the filtered selection |
| Despeckle.CopySlot | common/despeckle.c:784 | the `memcpy` copies the ring slot into the destination row |
| Despeckle.LoadAll | common/despeckle.c:1210-1211 | the preview buffer holds every row of the preview rectangle |
| Despeckle.CollectPreview | common/despeckle.c:1231-1255 | rows `y - r .. y + r` of the preview buffer yield the pixel window's kept samples and counts |
| Despeckle.FilterPreviewPixel | common/despeckle.c:1231-1309 | one turn of the preview x loop computes the specification's step, writing back into `preview_src` |
| Despeckle.FilterPreviewRow | common/despeckle.c:1227-1310 | the preview x loop over a row yields the specification's output row and source |
| Despeckle.PreviewRow | common/despeckle.c:1223-1311 | one turn of the preview y loop advances the pass by one row |
| Despeckle.PreviewUpdate | common/despeckle.c:1207-1311 | the filter loop of `preview_update()` draws exactly the rows of the same filtered selection as `despeckle()` |
| TileIt.ActionMask | common/tileit.c:792-793 | the mask of the two toggles; its bits are stated by `ActionMaskBits` |
| TileIt.ActionMaskBits | common/tileit.c:792-793 | the mask has `HORIZONTAL` iff `do_horz`, `VERTICAL` iff `do_vert`, and no other bit |
| TileIt.OrKeepsBits | common/tileit.c:792-793 | `|=` never clears a bit of the cell and sets every bit of the mask |
| TileIt.OrIdempotent | common/tileit.c:792-793 | applying the same update twice is the same as applying it once |
| TileIt.TileIt.constructor | common/tileit.c:134-193 | the start-up state: an empty grid, two tiles, neither toggle, opacity 100, explicit call `(ALL, -1, -1)` |
| TileIt.TileIt.ClearActions | common/tileit.c:855 | the `memset` clears every cell |
| TileIt.TileIt.AllUpdate | common/tileit.c:786-794 | every cell becomes its old value ORed with the toggles' mask |
| TileIt.TileIt.AltUpdate | common/tileit.c:797-806 | cells with even `x + y` are ORed with the mask; cells with odd `x + y` are unchanged |
| TileIt.TileIt.OrRow | common/tileit.c:790-806 | the inner loop ORs the mask into one column, in the alternate case only at even `x + y`, and leaves other columns alone |
| TileIt.TileIt.ExplicitUpdate | common/tileit.c:759-783 | a row or column outside `[1, numtiles]` becomes `numtiles`; with `settile` exactly cell `[x-1][y-1]` is assigned the mask and every other cell is unchanged; `exp_call.x/y` are always recorded |
| TileIt.TileIt.ExpNeedUpdate | common/tileit.c:687-698 | clicks outside `[1, numtiles]` change nothing; otherwise `exp_call.x/y` become the click position |
| TileIt.TileIt.Reset | common/tileit.c:850-877 | the reset clears the grid and both toggles and keeps the rest |
| TileIt.TileIt.TilesXY | common/tileit.c:1028-1070 | the action returned is the grid cell of the pixel; the source pixel is straight or mirrored per the action bits and lies inside the area |
| TileIt.Cell | common/tileit.c:1041-1045 | `x * n / width` lies in `[0, n)` |
| TileIt.CellInGrid | common/tileit.c:1041-1047 | for `1 <= n <= MAX_SEGS` the grid index is inside `tileactions` |
| TileIt.Straight | common/tileit.c:1043-1044 | the unmirrored source coordinate, C's `(x * n) % width`, is congruent to `x * n`, smaller than the width in magnitude, and not negative when the product is not; so it lies in the area for a pixel of it and a positive count |
| TileIt.Mirrored | common/tileit.c:1049-1063 | for a pixel of the area and `1 <= n <= MAX_SEGS`, the mirrored source coordinate lies in the area |
| TileIt.MirrorReflects | common/tileit.c:1049-1063 | the mirrored and the straight coordinates of a pixel are reflections within the tile: their sum plus one is a multiple of the width |
| TileIt.PreviewDims | common/tileit.c:271-283 | both preview sides end in `[2, PREVIEW_SIZE]`, the longer selection side gives the larger preview side |
| TileIt.ScaledAlpha | common/tileit.c:1007-1008 | `alpha * opacity / 100` is at most `alpha`, equals it at 100 and is 0 at 0 |
| TileIt.ScaledAlphaMonotone | common/tileit.c:1007-1008 | a higher opacity never gives a lower alpha |
| TileIt.PutPixel | common/tileit.c:1004-1008 | the `bpp` colour bytes are copied unchanged, the alpha byte is scaled by the opacity, nothing else in the row changes |
| TileIt.RawCell | common/tileit.c:1041-1045 | the grid index `x * numtiles / width` with C's truncating division, for any tile count; for a non-negative product it is the mathematical quotient |
| TileIt.NonInteractiveTiles | common/tileit.c:296-320 | as written: a wrong parameter count is a calling error, and `do_tiles` then still runs with the stored count; four parameters set the count to the fourth without a range check, which is the only way the count can leave the grid |
| TileIt.UncheckedTilesLeaveGrid | common/tileit.c:303 | whatever the stored count, a call with 7 tiles succeeds, pixel 6 of a 7 pixel area then maps to grid column 6, past the last column of `tileactions`, and 7 is not a grid count |
| TileIt.CheckedTiles | common/tileit.c:296-320 | with the slider's range 2 to `MAX_SEGS` enforced, a wrong parameter count or an out-of-range count is a calling error that keeps the stored count, an accepted call sets it, and a count inside the grid stays inside it |
| TileIt.CheckedTilesInGrid | common/tileit.c:1041-1047 | from a count inside the grid, such as the initial 2, no series of checked non-interactive calls ever leaves the grid |
| TileIt.InGrid | common/tileit.c:1041-1047 | a tile count is in the grid when, for every pixel of every area, the grid index `x * numtiles / width` computed as C does indexes the 6 by 6 `tileactions` table; its range is stated by `InGridRange` |
| TileIt.InGridRange | common/tileit.c:1041-1047 | with C's truncating division, `x * numtiles / width` stays inside the 6 by 6 grid for every pixel of every area exactly when `numtiles` is in `[-1, MAX_SEGS]` |
| ImapRectangle.IsValid | imagemap/imap_rectangle.c:125-130 | a rectangle is valid when its width and its height are both non-zero |
| ImapRectangle.PointIsOn | imagemap/imap_rectangle.c:288-294 | a point hits the rectangle when it lies between the corners, edges included |
| ImapRectangle.Normalized | imagemap/imap_rectangle.c:156-168 | the result has a non-negative extent and keeps the corner sets `{x, x+width}` and `{y, y+height}` |
| ImapRectangle.NormalizedFixes | imagemap/imap_rectangle.c:156-168 | a rectangle with non-negative extent is unchanged |
| ImapRectangle.NormalizedIdempotent | imagemap/imap_rectangle.c:156-168 | normalizing twice equals normalizing once |
| ImapRectangle.NormalizedKeepsValidity | imagemap/imap_rectangle.c:125-130 | normalizing keeps `is_valid`, which holds iff width and height are non-zero |
| ImapRectangle.PointIsOnNeedsExtent | imagemap/imap_rectangle.c:288-294 | the inclusive hit test can only succeed with a non-negative extent; on the normalized rectangle it is "between the corners" |
| ImapRectangle.Moved | imagemap/imap_rectangle.c:317-323 | a move keeps width and height |
| ImapRectangle.MovedInverse | imagemap/imap_rectangle.c:317-323 | moving back undoes a move; a moved point is on the moved rectangle iff it was on the original |
| ImapRectangle.ScaleByHundred | imagemap/imap_rectangle.c:311-314 | `v * 100 / 100` with C division is `v` |
| ImapRectangle.Resized | imagemap/imap_rectangle.c:307-315 | every field scaled by its percentage with C division; `ResizedByHundred` and `ResizedKeepsNormal` state its properties |
| ImapRectangle.ResizedByHundred | imagemap/imap_rectangle.c:307-315 | resizing by 100 per cent in both directions is the identity |
| ImapRectangle.ResizedKeepsNormal | imagemap/imap_rectangle.c:307-315 | non-negative percentages keep a non-negative extent |
| ImapRectangle.SashMoved | imagemap/imap_rectangle.c:195-259 | the eight sash moves: the dragged edges follow the drag; `SashKeepsOppositeEdges` and `SashMovedInverse` state its properties |
| ImapRectangle.SashKeepsOppositeEdges | imagemap/imap_rectangle.c:195-259 | upper sashes keep `y+height`, left sashes keep `x+width`, right and lower sashes keep `x` and `y`, and an edge no handle touches stays put |
| ImapRectangle.SashMovedInverse | imagemap/imap_rectangle.c:195-259 | dragging a sash back undoes the drag |
| ImapRectangle.DraggedTo | imagemap/imap_rectangle.c:484-502 | the corner stays; without Shift the extent reaches the pointer; with Shift the width and height both have magnitude `min(|x-rx|, |y-ry|)` and point toward the pointer |
| ImapRectangle.DraggedSquare | imagemap/imap_rectangle.c:492-499 | a Shift drag normalizes to a square |
| ImapRectangle.Corners | imagemap/imap_rectangle.c:447-470 | the corners `(x, y, x + width, y + height)` the writers print; `CornersRoundTrip` states that they determine the rectangle |
| ImapRectangle.CornersRoundTrip | imagemap/imap_rectangle.c:447-470 | the written corners `(x, y, x+width, y+height)` give the rectangle back |
| ImapRectangle.NormalizedCornersOrdered | imagemap/imap_rectangle.c:447-470 | a normalized rectangle is written top-left corner first |
| ImapRectangle.WriteCsim | imagemap/imap_rectangle.c:447-453 | four numeric arguments, the corners of the rectangle |
| ImapRectangle.WriteCern | imagemap/imap_rectangle.c:455-461 | four numeric arguments, the corners of the rectangle |
| ImapRectangle.WriteNcsa | imagemap/imap_rectangle.c:463-470 | the URL, then the four corners of the rectangle |
| ImapRectangle.Rectangle.constructor | imagemap/imap_rectangle.c:99-108 | `create_rectangle` stores the four fields |
| ImapRectangle.Rectangle.FactoryCreate | imagemap/imap_rectangle.c:478-482 | a new zero-size rectangle at the pointer, not yet valid |
| ImapRectangle.Rectangle.Clone | imagemap/imap_rectangle.c:132-143 | a new rectangle with the same four fields |
| ImapRectangle.Rectangle.Assign | imagemap/imap_rectangle.c:145-154 | the destination gets the four fields of the source, which keeps its own |
| ImapRectangle.Rectangle.Normalize | imagemap/imap_rectangle.c:156-168 | the fields become the normalized rectangle |
| ImapRectangle.Rectangle.Move | imagemap/imap_rectangle.c:317-323 | the fields become the moved rectangle |
| ImapRectangle.Rectangle.Resize | imagemap/imap_rectangle.c:307-315 | every field is scaled by its percentage with C division |
| ImapRectangle.Rectangle.GetDimensions | imagemap/imap_rectangle.c:296-305 | returns the four fields |
| ImapRectangle.Rectangle.MoveUpperSash | imagemap/imap_rectangle.c:195-201 | `y += dy`, `height -= dy` |
| ImapRectangle.Rectangle.MoveLeftSash | imagemap/imap_rectangle.c:203-209 | `x += dx`, `width -= dx` |
| ImapRectangle.Rectangle.MoveRightSash | imagemap/imap_rectangle.c:211-216 | `width += dx` |
| ImapRectangle.Rectangle.MoveLowerSash | imagemap/imap_rectangle.c:218-223 | `height += dy` |
| ImapRectangle.Rectangle.MoveUpperLeftSash | imagemap/imap_rectangle.c:225-233 | both the corner and the extent follow the drag |
| ImapRectangle.Rectangle.MoveUpperRightSash | imagemap/imap_rectangle.c:235-242 | top edge and right edge follow the drag |
| ImapRectangle.Rectangle.MoveLowerLeftSash | imagemap/imap_rectangle.c:244-251 | left edge and bottom edge follow the drag |
| ImapRectangle.Rectangle.MoveLowerRightSash | imagemap/imap_rectangle.c:253-259 | right edge and bottom edge follow the drag |
| ImapRectangle.Rectangle.FactorySetXY | imagemap/imap_rectangle.c:484-502 | the fields become the dragged rectangle of `DraggedTo` |
| Locales.SplitColons | help/locales.c:46-57 | the colon-separated entries in input order, the empty piece after a final colon dropped; `SplitColonsJoin` states that they give the input back |
| Locales.SplitColonsEntries | help/locales.c:48-57 | no entry of the split holds a colon |
| Locales.SplitColonsJoin | help/locales.c:46-57 | joining the entries with colons gives the input back, less a final colon: an empty entry before a colon is kept, an empty final entry is not |
| Locales.SplitColonsAt | help/locales.c:48-54 | the entries are the text before the first colon, then the entries of the rest |
| Locales.SplitColonsNonEmpty | help/locales.c:56-57 | a non-empty string yields at least one entry |
| Locales.Base | help/locales.c:63-68 | the base is the prefix before the first `_` and holds no `_` |
| Locales.Contains | help/locales.c:70-72 | the `strcmp` loop finds `x` iff it is in the list |
| Locales.SplitPhase | help/locales.c:46-57 | the list after the split loop is the colon-separated entries in reverse input order |
| Locales.VisitEntry | help/locales.c:60-79 | one turn of the base loop appends the visited entry's base exactly when the entry has a `_` and the base is not yet in the list, and otherwise leaves the list alone; the list stays the entries followed by `NewBases` of the entries visited so far |
| Locales.BasePhase | help/locales.c:59-79 | the list after the base loop is the split entries followed by their new bases in visit order; every entry with a `_` has its base present, and each appended base is new and the base of an entry |
| Locales.LocalesParse | help/locales.c:36-97 | `NULL` gives `NULL`; otherwise the list is the reversed entries, then their new bases in visit order, then `"en"` last unless already present |
| Locales.NewBases | help/locales.c:59-79 | the bases the loop appends, in the order it appends them; none holds a `_` and none is an entry |
| Locales.NewBasesInVisitOrder | help/locales.c:59-79 | the bases found by visiting earlier entries are a prefix of those found after visiting more: the list only grows at its end |
| Locales.NewBasesCover | help/locales.c:59-79 | after visiting entries `0 .. i-1`, the base of each of them with a `_` is an entry or an appended base |
| Locales.NewBasesDistinct | help/locales.c:69-78 | no base is appended twice |
| Locales.SplitTwo | help/locales.c:46-57 | two colon-free entries joined by one colon split back into the two |
| Locales.TwoVariants | help/locales.c:46-87 | the help locales `de_AT:fr_CA` are tried in the order `fr_CA`, `de_AT`, `fr`, `de`, then `en` |
| Locales.Reverse | help/locales.c:52 | each prepend puts the entry in front, so the list holds the entries last to first |
| Bmp.UnsignedOfLittleEndian | bmp/bmp.c:276-304 | storing a value in little-endian bytes and reading it back gives the value |
| Bmp.LittleEndianOfUnsigned | bmp/bmp.c:276-304 | reading bytes and storing the value gives the bytes back |
| Bmp.ToL | bmp/bmp.c:276-280 | the result is the 32-bit two's-complement value of `b[0] + b[1]*2^8 + b[2]*2^16 + b[3]*2^24` |
| Bmp.ToS | bmp/bmp.c:282-286 | the result is the 16-bit two's-complement value of `b[0] + b[1]*2^8` |
| Bmp.FromL | bmp/bmp.c:288-296 | byte `i` of the buffer is byte `i` of the value's 32-bit pattern, for `i = 0..3`; later bytes are untouched |
| Bmp.FromS | bmp/bmp.c:298-304 | the low byte, then the high byte of the 16-bit pattern go to `b[0..2)`; later bytes are untouched |
| Bmp.ToLFromL | bmp/bmp.c:276-296 | every 32-bit value survives `FromL` then `ToL` |
| Bmp.ToSFromS | bmp/bmp.c:282-304 | every 16-bit value survives `FromS` then `ToS` |
| Bmp.FromLToL | bmp/bmp.c:276-296 | every 4-byte buffer survives `ToL` then `FromL` |
| Bmp.FromSToS | bmp/bmp.c:282-304 | every 2-byte buffer survives `ToS` then `FromS` |
| HelpBrowser.AsciiLower | helpbrowser/dialog.c:667 | upper-case ASCII letters move down 32 code points, everything else is unchanged |
| HelpBrowser.HasCasePrefix | helpbrowser/dialog.c:661-674 | the two-cursor loop returns true iff the needle is a prefix of the haystack after ASCII lower-casing |
| HelpBrowser.CasePrefixBounds | helpbrowser/dialog.c:661-674 | the empty needle is always a prefix; a haystack shorter than the needle never has it |
| HelpBrowser.CasePrefixPointwise | helpbrowser/dialog.c:667-673 | a case prefix is a character-by-character match after lower-casing |
| HelpBrowser.FindRef | helpbrowser/dialog.c:626-640 | the scan finds the first entry with `ref`, or reports that none has it |
| HelpBrowser.HistoryAdded | helpbrowser/dialog.c:626-653 | the history after a visit: an existing entry moves to the top, otherwise a new one is put on top; the `HistoryAdded*` lemmas state its properties |
| HelpBrowser.HistoryAddedTop | helpbrowser/dialog.c:650-653 | after a visit the active top row holds `ref` |
| HelpBrowser.HistoryAddedMoves | helpbrowser/dialog.c:632-637 | an existing `ref` is moved to the top with its old title; length and multiset are unchanged |
| HelpBrowser.HistoryAddedPrepends | helpbrowser/dialog.c:642-649 | a new `ref` puts `(title, ref)` on top of the old history, which grows by one |
| HelpBrowser.HistoryAddedIdempotent | helpbrowser/dialog.c:626-653 | visiting the same reference twice in a row changes the history once |
| HelpBrowser.HistoryAddedKeepsOthers | helpbrowser/dialog.c:634 | entries for other references keep their relative order |
| HelpBrowser.MoveToFront | helpbrowser/dialog.c:634 | moving a row to the top keeps the rows |
| HelpBrowser.Directory | helpbrowser/dialog.c:295-305 | the first reference is cut at its last `/`, or kept whole when it has none |
| HelpBrowser.SplitAnchor | helpbrowser/dialog.c:311-321 | an anchor is used iff `#` is followed by at least one character, and the stored reference is then `abs + "#" + anchor` |
| HelpBrowser.Browser.constructor | helpbrowser/dialog.c:106 | no current reference and an empty history at start-up |
| HelpBrowser.Browser.HistoryAdd | helpbrowser/dialog.c:616-654 | the history becomes `HistoryAdded` of the old one; the current reference is untouched |
| HelpBrowser.Browser.Load | helpbrowser/dialog.c:283-347 | sets the current reference to the directory on first load, resolves `ref`, sends a non-`file:/` reference to the web browser, otherwise reloads unless it is the current page and stores the new reference with its anchor |
| BumpmapMap.WrapOffsetAsWritten | common/bumpmap.c:648-651 | `xofs2` is congruent to the offset, lies in `[0, w)` for `ofs >= 0` and `(0, w]` for `ofs < 0`, and equals `w` exactly for negative multiples of `w` |
| BumpmapMap.WrapOffsetAsWrittenOverruns | common/bumpmap.c:648-654 | an offset of `-5` on a map 5 wide starts the middle cursor at column 5, past the row |
| BumpmapMap.WrapOffset | common/bumpmap.c:487-490 | the corrected wrap: the residue of the offset, in `[0, w)` |
| BumpmapMap.WrapOffsetAgrees | common/bumpmap.c:648-651 | the corrected wrap agrees with the written one wherever the written one is inside the row |
| BumpmapMap.Step | common/bumpmap.c:704-711 | a cursor inside the row steps to a position inside the row |
| BumpmapMap.StepFollows | common/bumpmap.c:704-711 | `if (++i == w) i = 0` takes the residue of `a` to the residue of `a + 1`, so cursors stay in `[0, w)` |
| BumpmapMap.CursorsStart | common/bumpmap.c:653-654 | `xofs1` and `xofs3` are the residues one before and one after the offset |
| BumpmapMap.LutEntry | common/bumpmap.c:596-618 | entry `i` of the table: the map type's curve at `i`, or `i` for the linear type, inverted when asked; `LinearLut` and `InvertReflects` state its properties |
| BumpmapMap.LinearLut | common/bumpmap.c:611-617 | a linear table maps `i` to `i`, an inverted one to `255 - i` |
| BumpmapMap.InvertReflects | common/bumpmap.c:616-617 | inverting maps each entry `e` to `255 - e` and reverses the order of a linear table |
| BumpmapMap.InitLut | common/bumpmap.c:596-618 | entry `i` of the table is the entry of the map type, inverted when asked |
| BumpmapMap.WaterIndex | common/bumpmap.c:745-747 | `wl + ((v - wl) * a) / 255` lies between `wl` and `v`; transparent reads `wl`, opaque reads `v` |
| BumpmapMap.ScaledDown | common/bumpmap.c:747 | `d * a / 255` for `a <= 255` lies in `[0, d]` and is exact at 255 |
| BumpmapMap.WaterIndexInTable | common/bumpmap.c:745-747 | with the waterlevel in `[0, 255]` the index is inside the 256-entry table |
| BumpmapMap.WaterIndexBelowTable | common/bumpmap.c:404 | the unchecked non-interactive waterlevel -5 makes a transparent pixel of value 0 read entry -5 |
| BumpmapMap.WaterIndexPastTable | common/bumpmap.c:974 | with the slider's maximum 256, a transparent pixel of value 200 reads entry 256 |
| BumpmapMap.Converted | common/bumpmap.c:742-752 | the converted map row holds one height per pixel; `ConvertedIdentity` states what the identity table gives |
| BumpmapMap.ConvertedIdentity | common/bumpmap.c:742-752 | through the identity table a row without alpha is unchanged and opaque pixels of a row with alpha keep their value |
| BumpmapMap.ConvertRowGray | common/bumpmap.c:716-752 | the in-place gray conversion, with the write cursor behind the read cursor, leaves the converted row in front and the rest untouched |
| BumpmapMap.FillRows | common/bumpmap.c:1485-1523 | the fetch terminates and puts exactly `how_many` converted map rows into slots `start..`, row `(yofs + j) % bm_height` in slot `start + j`; other slots are untouched |
| BumpmapMap.NextPass | common/bumpmap.c:1496-1510 | a pass that does not cross the bottom reads from the wrapped row and leaves `yofs` at the row after |
| BumpmapMap.GetRows | common/bumpmap.c:1367-1437 | the fetch copies map rows `y .. y + n` into consecutive slots and touches no other slot |
| BumpmapMap.ConvertSlots | common/bumpmap.c:1512-1523 | the conversion loop converts exactly the fetched slots |
| BumpmapShade.Normal | common/bumpmap.c:663-666 | `nx` and `ny` lie in `[-765, 765]` |
| BumpmapShade.FlatNormal | common/bumpmap.c:663-671 | a constant map gives `nx = ny = 0`, hence the background shade |
| BumpmapShade.Shade | common/bumpmap.c:668-685 | the shade of a pixel: the background for a flat normal, the parameter `slope` otherwise |
| BumpmapShade.Paint | common/bumpmap.c:696-697 | `src * shade / 255` with shade in `[0, 255]` never brightens, keeps the byte at 255 and blackens at 0 |
| BumpmapShade.FlatMapRow | common/bumpmap.c:670-700 | over a flat map every colour byte gets the background shade and alpha bytes are copied; full background keeps the row |
| BumpmapShade.Bumped | common/bumpmap.c:687-700 | the shaded bytes of a row, one output byte per input byte |
| BumpmapShade.BumpedDarkens | common/bumpmap.c:687-700 | with every shade in `[0, 255]` no byte gets brighter |
| BumpmapShade.PaintPixel | common/bumpmap.c:689-700 | `pbpp = bpp - 1` colour bytes with alpha (all `bpp` without) are painted with the shade and the alpha byte is copied |
| BumpmapShade.NextPixel | common/bumpmap.c:696-700 | the next pixel starts `bpp` bytes on and ends inside the row |
| BumpmapShade.PixelBytes | common/bumpmap.c:687-700 | the bytes painted for pixel `x` are bytes `x * bpp ..` of the shaded row |
| BumpmapShade.BumpmapRow | common/bumpmap.c:622-712 | `bumpmap_row` writes exactly the shaded row, the cursors starting around the wrapped X offset, and nothing past it |
| BumpmapShade.ShadedLine | common/bumpmap.c:527-532 | the output row of source row `y` has `sel_width * img_bpp` bytes, shaded from the map rows around `yofs + y` |
| BumpmapShade.ShadedRows | common/bumpmap.c:525-548 | the first `k` output rows of the selection, one per source row |
| BumpmapShade.ShadedRowsAt | common/bumpmap.c:525-548 | row `y` of the output is source row `y` shaded from map rows `yofs + y - 1 .. yofs + y + 1` |
| BumpmapShade.ShiftedRow | common/bumpmap.c:487-493 | offsetting the map by its height selects the same converted map row |
| BumpmapShade.ShiftedColumn | common/bumpmap.c:648-654 | offsetting the map by its width puts the cursors in the same place |
| BumpmapShade.OffsetsPeriodic | common/bumpmap.c:487-493 | offsets act modulo the map size: shifting both by a whole map changes no output row |
| BumpmapShade.FetchRow | common/bumpmap.c:527 | the row fetch fills the front of the buffer and leaves the rest |
| BumpmapShade.LoadMapRow | common/bumpmap.c:544-545 | fetching and converting a map row leaves the buffer holding that converted row |
| BumpmapShade.ShadeLine | common/bumpmap.c:527-532 | shading the fetched source row against the three buffered map rows gives the output row |
| BumpmapShade.StartRows | common/bumpmap.c:492-521 | three distinct buffers hold the converted map rows one above, at and one below the wrapped Y offset |
| BumpmapShade.NextLine | common/bumpmap.c:527-546 | one loop turn writes the row, rotates the three buffers, steps `yofs3` and loads the new lowest row |
| BumpmapShade.CursorsAdvance | common/bumpmap.c:536-543 | after the rotation the three rows are again one above, at and one below the next row |
| BumpmapShade.ShadeSelection | common/bumpmap.c:525-548 | the loop writes out every row of the shaded selection |
| BumpmapShade.Bumpmap | common/bumpmap.c:486-548 | `bumpmap()` over a gray map writes out exactly the shaded selection |

## Left out

- Host I/O is left out: pixel regions, tiles, the tile cache, shadow merging, drawable updates and progress bars. Pixel regions appear as given rows of an image; an output row is appended to the returned rows.
- All GUI code is left out: dialog builders and callbacks, the preview rendering, `draw_explict_sel`, the imagemap sash drawing and `near_sash`, and `main_set_dimension`.
- Floating point is left out:
  - the light vector, the shade of a tilted normal and the darkness compensation of `bumpmap` are modelled by the parameters `background` and `slope`;
  - the spherical and sinusoidal tables are modelled by the parameter `curve`;
  - the RGB luminance branch of `bumpmap_convert_row` is not modelled, only the gray branch.
- `uri_to_abs`, `request_url`, `load_remote_page` and the anchor jump of `browser_dialog_load` are calls into code outside this model. `uri_to_abs` is a parameter; the others become the returned `LoadOutcome`.
- HelpBrowser.Browser.Load: the back/forward page queue is not modelled. That covers the `add_to_queue` parameter and the `queue_add (queue, new_ref)` it guards (helpbrowser/dialog.c:349-350), and the back and forward buttons that call `browser_dialog_load` with `FALSE` (helpbrowser/dialog.c:370-384). The queue lives in queue.c, which is not part of this model.
- The `rowcount` variable of `despeckle()` is modelled as in C, and only its update rule is stated. It sizes the first block load and starts `row` and `lasty` in `Despeckle.Despeckle`. `Despeckle.LoadNext` lowers it by a tile height and raises it by the rows loaded, as the C block load does. After the first load the C code reads it only in those updates, so no other contract depends on its value.
- Plug-in registration, `run` dispatch and `gimp_get_data`/`gimp_set_data` persistence are not modelled, beyond the default values they set.
- Integers are unbounded: 32-bit overflow of `gint` arithmetic is not modelled. This covers rectangle fields, products such as `x * numtiles` and `alpha * opacity`, and the bump map sums.
- Despeckle.Despeckle: requires `0 <= radius` and `2 * radius <= tile height`. A non-interactive call passes any radius, and the C code checks neither bound. With `2 * radius` above the tile height, the ring of `2 * tile height` rows would overwrite rows still in the window. With a negative radius, the block load at common/despeckle.c:759 waits for `y + radius >= lasty`, which is false at `y == lasty`. So in a selection taller than a tile, row `y` is copied at common/despeckle.c:784 from a ring slot that was never loaded.
- Despeckle.PreviewUpdate: requires `0 <= radius`. It is only called from the dialog, whose radius slider ranges from 1 to `MAX_RADIUS` (common/despeckle.c:1067-1069).
- TileIt.TileIt.TilesXY: the flipped coordinates are computed in `double` by the C code. The model takes the exact value, whose integer part is `(width - x) * n - 1` for `n <= 6`; rounding of the double product is not modelled.
- TileIt.TileIt.TilesXY: requires `1 <= numtiles <= MAX_SEGS`. The non-interactive call does not ensure this; see Findings.
- TileIt.Mirrored: requires a pixel of the area and `1 <= n <= MAX_SEGS`. Outside that range the `double` expression of the C code does not reduce to an integer product: `rnd` is infinite for `n = 0`. `TilesXY` calls it only inside the range.
- TileIt.InGrid: classifies a tile count only by whether the grid index stays inside `tileactions`. Source coordinates that C's `%` makes negative for a negative count are handed to the pixel fetcher, which is not part of this model.
- TileIt.TileIt.ExplicitUpdate: requires `1 <= numtiles <= MAX_SEGS`, as the cell index does.
- BumpmapShade.Bumpmap: models a gray bump map (`bm_bpp < 3`) and no darkness compensation.
- BumpmapShade.Bumpmap: the middle cursors start at the corrected `WrapOffset` rather than the written normalisation; see Findings.
- BumpmapShade.Bumpmap: for a map with alpha the waterlevel is required to be in `[0, 255]`. The predicate `MapFits` states this, and every member from `MapRow` to `Bumpmap` requires it. The slider reaches 256 and the non-interactive call passes any value; see Findings. A map without alpha is unconstrained.
- BumpmapShade.BumpmapRow: no darkness compensation. The shade of a tilted normal is the parameter `slope`.
- BumpmapShade.BumpmapRow: the middle cursor starts at the corrected `WrapOffset` rather than the written normalisation; see Findings.
- BumpmapMap.ConvertRowGray: only the gray branch (`bpp < 3`).
- BumpmapMap.ConvertRowGray: for a map with alpha the waterlevel is required to be in `[0, 255]`. The slider reaches 256 and the non-interactive call passes any value; see Findings. A map without alpha never reads the waterlevel, so it is unconstrained there.
- BumpmapMap.FillRows: the preview's row buffers are modelled as a sequence of rows, not as pointers into one buffer.
- BumpmapMap.FillRows: for a map with alpha the waterlevel is required to be in `[0, 255]`, as for `ConvertRowGray`; see Findings.

## Findings

| source | as written | input that shows it | evidently intended | confidence | as-written member | corrected member |
|---|---|---|---|---|---|---|
| common/tileit.c:303 | the non-interactive call takes `numtiles` without a range check, while `tiles_xy` indexes the 6 by 6 `tileactions` grid with `x * numtiles / width` | `numtiles = 7`, `width = 7`, `x = 6`: column index 6 | the slider's range 2 to `MAX_SEGS` enforced; anything else a calling error that keeps the stored count (with C's truncation the counts that stay in the grid are -1 to `MAX_SEGS`; below -1, `numtiles = -2`, `width = 2`, `x = 1` gives index -1) | not executed | TileIt.UncheckedTilesLeaveGrid | TileIt.CheckedTilesInGrid |
| common/bumpmap.c:648-651 | a negative offset wraps to `w - ((-ofs) % w)`, which is `w` for a negative multiple of `w` | `bm_xofs = -5`, `bm_width = 5`: `xofs2 = 5`, one past the map row; the same holds for `yofs` at lines 487-490 | the residue of the offset, in `[0, w)` | not executed | BumpmapMap.WrapOffsetAsWrittenOverruns | BumpmapMap.WrapOffsetAgrees |
| common/bumpmap.c:974 | the waterlevel slider goes up to 256, and the gray conversion at lines 745-747 indexes the 256-entry table with a value between the waterlevel and the pixel value | waterlevel 256, a pixel of value 200 with alpha 0: index 256 | waterlevel at most 255 | not executed | BumpmapMap.WaterIndexPastTable | BumpmapMap.WaterIndexInTable |
| common/bumpmap.c:404 | the non-interactive call stores `param[9]` as the waterlevel without a range check, and for a map with alpha lines 745-747 index the 256-entry table with a value between the waterlevel and the pixel value | waterlevel -5, a pixel of value 0 with alpha 0: index -5 | the waterlevel in `[0, 255]` whenever the map has alpha | not executed | BumpmapMap.WaterIndexBelowTable | BumpmapMap.WaterIndexInTable |
