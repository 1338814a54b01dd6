/**
 * The rectangle object of the image-map editor (imagemap/imap_rectangle.c).
 * A rectangle is a corner `(x, y)` and a signed `width` and `height`: while
 * the user drags, the extent may be negative, and `normalize` turns it
 * back into a top-left corner with a non-negative extent. The editing
 * operations update the four fields in place; each is specified by a
 * function on the rectangle's value, and the properties are proved about
 * those functions.
 */
module ImapRectangle {
  import opened CTypes

  /** The four fields of a `Rectangle_t`. */
  datatype Rect = Rect(x: int, y: int, width: int, height: int)

  // ---------------------------------------------------------------------
  // Value-level specification
  // ---------------------------------------------------------------------

  /**
   * The rectangle with a non-negative extent covering the same corners:
   * the horizontal corners `{x, x + width}` and the vertical corners
   * `{y, y + height}` are kept as sets.
   */
  function Normalized(r: Rect): (n: Rect)
    ensures n.width >= 0 && n.height >= 0
    ensures {n.x, n.x + n.width} == {r.x, r.x + r.width}
    ensures {n.y, n.y + n.height} == {r.y, r.y + r.height}
  {
    var (x, w) := if r.width < 0 then (r.x + r.width, -r.width) else (r.x, r.width);
    var (y, h) := if r.height < 0 then (r.y + r.height, -r.height) else (r.y, r.height);
    Rect(x, y, w, h)
  }

  /** Normalizing changes nothing once the extent is non-negative. */
  lemma NormalizedFixes(r: Rect)
    requires r.width >= 0 && r.height >= 0
    ensures Normalized(r) == r
  {
  }

  /** Normalizing twice is normalizing once. */
  lemma NormalizedIdempotent(r: Rect)
    ensures Normalized(Normalized(r)) == Normalized(r)
  {
    NormalizedFixes(Normalized(r));
  }

  /** `rectangle_is_valid`: a rectangle with a zero width or height is degenerate. */
  predicate IsValid(r: Rect)
  {
    r.width != 0 && r.height != 0
  }

  /** Normalizing never makes a rectangle valid or degenerate. */
  lemma NormalizedKeepsValidity(r: Rect)
    ensures IsValid(Normalized(r)) <==> IsValid(r)
  {
  }

  /** `rectangle_point_is_on`: the point lies on the rectangle, edges included. */
  predicate PointIsOn(r: Rect, px: int, py: int)
  {
    px >= r.x && px <= r.x + r.width && py >= r.y && py <= r.y + r.height
  }

  /** The smaller and the larger of two numbers. */
  function Min(a: int, b: int): int { if a < b then a else b }

  function Max(a: int, b: int): int { if a > b then a else b }

  /** The point lies between the two horizontal and the two vertical corners. */
  predicate Between(r: Rect, px: int, py: int)
  {
    Min(r.x, r.x + r.width) <= px <= Max(r.x, r.x + r.width) &&
    Min(r.y, r.y + r.height) <= py <= Max(r.y, r.y + r.height)
  }

  /**
   * The hit test only sees points of a rectangle with a non-negative
   * extent; on a normalized rectangle it is exactly the test "between the
   * corners" of the original one.
   */
  lemma PointIsOnNeedsExtent(r: Rect, px: int, py: int)
    ensures PointIsOn(r, px, py) ==> r.width >= 0 && r.height >= 0
    ensures PointIsOn(Normalized(r), px, py) <==> Between(r, px, py)
  {
  }

  /** `rectangle_move`: the corner shifts by `(dx, dy)`. */
  function Moved(r: Rect, dx: int, dy: int): (m: Rect)
    ensures m.width == r.width && m.height == r.height
  {
    Rect(r.x + dx, r.y + dy, r.width, r.height)
  }

  /** Moving back undoes a move, and a moved point is on the moved rectangle. */
  lemma MovedInverse(r: Rect, dx: int, dy: int, px: int, py: int)
    ensures Moved(Moved(r, dx, dy), -dx, -dy) == r
    ensures PointIsOn(Moved(r, dx, dy), px + dx, py + dy) <==> PointIsOn(r, px, py)
  {
  }

  /** `rectangle_resize`: every field scaled by a percentage, with C's truncating division. */
  function Resized(r: Rect, percentX: int, percentY: int): Rect
  {
    Rect(TruncDiv(r.x * percentX, 100), TruncDiv(r.y * percentY, 100),
         TruncDiv(r.width * percentX, 100), TruncDiv(r.height * percentY, 100))
  }

  /** Scaling by 100 per cent is exact. */
  lemma ScaleByHundred(v: int)
    ensures TruncDiv(v * 100, 100) == v
  {
    if v >= 0 {
      assert v * 100 / 100 == v;
    } else {
      assert (-(v * 100)) / 100 == -v;
    }
  }

  /** Resizing by 100 per cent in both directions changes nothing. */
  lemma ResizedByHundred(r: Rect)
    ensures Resized(r, 100, 100) == r
  {
    ScaleByHundred(r.x);
    ScaleByHundred(r.y);
    ScaleByHundred(r.width);
    ScaleByHundred(r.height);
  }

  /** A scaled non-negative extent stays non-negative for a non-negative percentage. */
  lemma ResizedKeepsNormal(r: Rect, percentX: int, percentY: int)
    requires r.width >= 0 && r.height >= 0 && percentX >= 0 && percentY >= 0
    ensures Resized(r, percentX, percentY).width >= 0 && Resized(r, percentX, percentY).height >= 0
  {
  }

  /** The eight drag handles of `rectangle_near_sash`. */
  datatype Sash = UpperLeft | Upper | UpperRight | Left | Right | LowerLeft | Lower | LowerRight

  predicate MovesTop(s: Sash) { s == UpperLeft || s == Upper || s == UpperRight }

  predicate MovesBottom(s: Sash) { s == LowerLeft || s == Lower || s == LowerRight }

  predicate MovesLeft(s: Sash) { s == UpperLeft || s == Left || s == LowerLeft }

  predicate MovesRight(s: Sash) { s == UpperRight || s == Right || s == LowerRight }

  /** The effect of the `Move*Sash` function of handle `s` for a drag by `(dx, dy)`. */
  function SashMoved(r: Rect, s: Sash, dx: int, dy: int): Rect
  {
    match s
    case UpperLeft => Rect(r.x + dx, r.y + dy, r.width - dx, r.height - dy)
    case Upper => Rect(r.x, r.y + dy, r.width, r.height - dy)
    case UpperRight => Rect(r.x, r.y + dy, r.width + dx, r.height - dy)
    case Left => Rect(r.x + dx, r.y, r.width - dx, r.height)
    case Right => Rect(r.x, r.y, r.width + dx, r.height)
    case LowerLeft => Rect(r.x + dx, r.y, r.width - dx, r.height + dy)
    case Lower => Rect(r.x, r.y, r.width, r.height + dy)
    case LowerRight => Rect(r.x, r.y, r.width + dx, r.height + dy)
  }

  /**
   * Each handle moves its own edges by the drag and keeps the opposite
   * edges where they were: a top handle keeps the bottom edge `y + height`
   * and moves the top edge to `y + dy`, a left handle keeps the right edge
   * `x + width`, and an edge no handle of `s` touches stays put.
   */
  lemma SashKeepsOppositeEdges(r: Rect, s: Sash, dx: int, dy: int)
    ensures var m := SashMoved(r, s, dx, dy);
      (MovesTop(s) ==> m.y == r.y + dy && m.y + m.height == r.y + r.height) &&
      (MovesBottom(s) ==> m.y == r.y && m.y + m.height == r.y + r.height + dy) &&
      (!MovesTop(s) && !MovesBottom(s) ==> m.y == r.y && m.height == r.height) &&
      (MovesLeft(s) ==> m.x == r.x + dx && m.x + m.width == r.x + r.width) &&
      (MovesRight(s) ==> m.x == r.x && m.x + m.width == r.x + r.width + dx) &&
      (!MovesLeft(s) && !MovesRight(s) ==> m.x == r.x && m.width == r.width)
  {
  }

  /** Dragging a handle back undoes the drag. */
  lemma SashMovedInverse(r: Rect, s: Sash, dx: int, dy: int)
    ensures SashMoved(SashMoved(r, s, dx, dy), s, -dx, -dy) == r
  {
  }

  /**
   * `rectangle_factory_set_xy`: the extent runs from the corner to the
   * pointer `(px, py)`; with Shift held the longer side is cut to the
   * length of the shorter one, keeping its direction.
   */
  function DraggedTo(r: Rect, shift: bool, px: int, py: int): (d: Rect)
    ensures d.x == r.x && d.y == r.y
    ensures !shift ==> d.x + d.width == px && d.y + d.height == py
    ensures shift ==> Abs(d.width) == Abs(d.height) == Min(Abs(px - r.x), Abs(py - r.y))
    ensures shift ==> (d.width < 0 ==> px < r.x) && (d.width > 0 ==> px > r.x)
    ensures shift ==> (d.height < 0 ==> py < r.y) && (d.height > 0 ==> py > r.y)
  {
    var width := px - r.x;
    var height := py - r.y;
    if !shift then Rect(r.x, r.y, width, height)
    else
      var w: int := Abs(width);
      var h: int := Abs(height);
      if w < h then Rect(r.x, r.y, width, if height < 0 then -w else w)
      else Rect(r.x, r.y, if width < 0 then -h else h, height)
  }

  /** A square drag seen from the corner is a square: the two sides have the same length. */
  lemma DraggedSquare(r: Rect, px: int, py: int)
    ensures Normalized(DraggedTo(r, true, px, py)).width == Normalized(DraggedTo(r, true, px, py)).height
  {
  }

  /** The output tuple of every writer: the two corners `(x, y)` and `(x + width, y + height)`. */
  function Corners(r: Rect): (int, int, int, int)
  {
    (r.x, r.y, r.x + r.width, r.y + r.height)
  }

  /** The rectangle a map reader rebuilds from two corners. */
  function FromCorners(c: (int, int, int, int)): Rect
  {
    Rect(c.0, c.1, c.2 - c.0, c.3 - c.1)
  }

  /** Reading back the written corners gives the rectangle. */
  lemma CornersRoundTrip(r: Rect)
    ensures FromCorners(Corners(r)) == r
  {
  }

  /** A normalized rectangle is written top-left corner first. */
  lemma NormalizedCornersOrdered(r: Rect)
    ensures var c := Corners(Normalized(r));
      c.0 <= c.2 && c.1 <= c.3 &&
      c.0 == Min(r.x, r.x + r.width) && c.2 == Max(r.x, r.x + r.width) &&
      c.1 == Min(r.y, r.y + r.height) && c.3 == Max(r.y, r.y + r.height)
  {
  }

  /** An argument of a formatted output line. */
  datatype Arg = Text(s: string) | Number(n: int)

  /** A call of the writer's `output` function: a format and its arguments. */
  datatype Output = Output(format: string, args: seq<Arg>)

  function CornerArgs(r: Rect): seq<Arg>
  {
    var c := Corners(r);
    [Number(c.0), Number(c.1), Number(c.2), Number(c.3)]
  }

  /** `rectangle_write_csim`: a client-side map `COORDS` attribute. */
  function WriteCsim(r: Rect): (o: Output)
    ensures |o.args| == 4 && forall k :: 0 <= k < 4 ==> o.args[k].Number?
    ensures FromCorners((o.args[0].n, o.args[1].n, o.args[2].n, o.args[3].n)) == r
  {
    Output("\"RECT\" COORDS=\"%d,%d,%d,%d\"", CornerArgs(r))
  }

  /** `rectangle_write_cern`: a CERN map line. */
  function WriteCern(r: Rect): (o: Output)
    ensures |o.args| == 4 && forall k :: 0 <= k < 4 ==> o.args[k].Number?
    ensures FromCorners((o.args[0].n, o.args[1].n, o.args[2].n, o.args[3].n)) == r
  {
    Output("rect (%d,%d) (%d,%d)", CornerArgs(r))
  }

  /** `rectangle_write_ncsa`: an NCSA map line, the URL first. */
  function WriteNcsa(r: Rect, url: string): (o: Output)
    ensures |o.args| == 5 && o.args[0] == Text(url) && forall k :: 1 <= k < 5 ==> o.args[k].Number?
    ensures FromCorners((o.args[1].n, o.args[2].n, o.args[3].n, o.args[4].n)) == r
  {
    Output("rect %s %d,%d %d,%d", [Text(url)] + CornerArgs(r))
  }

  // ---------------------------------------------------------------------
  // The in-place object
  // ---------------------------------------------------------------------

  /** A `Rectangle_t`, whose fields the editing operations update in place. */
  class Rectangle {
    var x: int
    var y: int
    var width: int
    var height: int

    function Value(): Rect
      reads this
    {
      Rect(x, y, width, height)
    }

    /** `create_rectangle`. */
    constructor (x0: int, y0: int, width0: int, height0: int)
      ensures Value() == Rect(x0, y0, width0, height0)
    {
      x, y, width, height := x0, y0, width0, height0;
    }

    /** `rectangle_factory_create_object`: a new rectangle of size zero at the pointer. */
    static method FactoryCreate(px: int, py: int) returns (r: Rectangle)
      ensures fresh(r) && r.Value() == Rect(px, py, 0, 0) && !IsValid(r.Value())
    {
      r := new Rectangle(px, py, 0, 0);
    }

    /** `rectangle_clone`: a new rectangle with the same four fields. */
    method Clone() returns (c: Rectangle)
      ensures fresh(c) && c.Value() == Value()
    {
      c := new Rectangle(x, y, width, height);
    }

    /** `rectangle_assign`: copies the four fields into `des`. */
    method Assign(des: Rectangle)
      modifies des
      ensures des.Value() == old(Value())
      ensures des != this ==> Value() == old(Value())
    {
      des.x := x;
      des.y := y;
      des.width := width;
      des.height := height;
    }

    /** `rectangle_normalize`. */
    method Normalize()
      modifies this
      ensures Value() == Normalized(old(Value()))
    {
      if width < 0 {
        x := x + width;
        width := -width;
      }
      if height < 0 {
        y := y + height;
        height := -height;
      }
    }

    /** `rectangle_move`. */
    method Move(dx: int, dy: int)
      modifies this
      ensures Value() == Moved(old(Value()), dx, dy)
    {
      x := x + dx;
      y := y + dy;
    }

    /** `rectangle_resize`. */
    method Resize(percentX: int, percentY: int)
      modifies this
      ensures Value() == Resized(old(Value()), percentX, percentY)
    {
      x := TruncDiv(x * percentX, 100);
      y := TruncDiv(y * percentY, 100);
      width := TruncDiv(width * percentX, 100);
      height := TruncDiv(height * percentY, 100);
    }

    /** `rectangle_get_dimensions`. */
    method GetDimensions() returns (rx: int, ry: int, rw: int, rh: int)
      ensures Rect(rx, ry, rw, rh) == Value()
    {
      rx, ry, rw, rh := x, y, width, height;
    }

    /** `MoveUpperSash`. */
    method MoveUpperSash(dx: int, dy: int)
      modifies this
      ensures Value() == SashMoved(old(Value()), Upper, dx, dy)
    {
      y := y + dy;
      height := height - dy;
    }

    /** `MoveLeftSash`. */
    method MoveLeftSash(dx: int, dy: int)
      modifies this
      ensures Value() == SashMoved(old(Value()), Left, dx, dy)
    {
      x := x + dx;
      width := width - dx;
    }

    /** `MoveRightSash`. */
    method MoveRightSash(dx: int, dy: int)
      modifies this
      ensures Value() == SashMoved(old(Value()), Right, dx, dy)
    {
      width := width + dx;
    }

    /** `MoveLowerSash`. */
    method MoveLowerSash(dx: int, dy: int)
      modifies this
      ensures Value() == SashMoved(old(Value()), Lower, dx, dy)
    {
      height := height + dy;
    }

    /** `MoveUpperLeftSash`. */
    method MoveUpperLeftSash(dx: int, dy: int)
      modifies this
      ensures Value() == SashMoved(old(Value()), UpperLeft, dx, dy)
    {
      x := x + dx;
      y := y + dy;
      width := width - dx;
      height := height - dy;
    }

    /** `MoveUpperRightSash`. */
    method MoveUpperRightSash(dx: int, dy: int)
      modifies this
      ensures Value() == SashMoved(old(Value()), UpperRight, dx, dy)
    {
      y := y + dy;
      width := width + dx;
      height := height - dy;
    }

    /** `MoveLowerLeftSash`. */
    method MoveLowerLeftSash(dx: int, dy: int)
      modifies this
      ensures Value() == SashMoved(old(Value()), LowerLeft, dx, dy)
    {
      x := x + dx;
      width := width - dx;
      height := height + dy;
    }

    /** `MoveLowerRightSash`. */
    method MoveLowerRightSash(dx: int, dy: int)
      modifies this
      ensures Value() == SashMoved(old(Value()), LowerRight, dx, dy)
    {
      width := width + dx;
      height := height + dy;
    }

    /**
     * `rectangle_factory_set_xy`: `shift` is whether the Shift bit is set
     * in the event state.
     */
    method FactorySetXY(shift: bool, px: int, py: int)
      modifies this
      ensures Value() == DraggedTo(old(Value()), shift, px, py)
    {
      width := px - x;
      height := py - y;
      if shift {
        var w: int := Abs(width);
        var h: int := Abs(height);
        if w < h {
          height := if height < 0 then -w else w;
        } else {
          width := if width < 0 then -h else h;
        }
      }
    }
  }
}
