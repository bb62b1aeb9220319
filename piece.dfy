/**
 * Piece geometry: the current matrix of a piece as a rotation of its definition, the
 * one-level rollback of location and orientation, the anchor point, the occupied and
 * boundary points, and writing a piece into and erasing it from a playfield grid.
 *
 * The pure scans work on `PieceView`, a value snapshot of a piece; the `Piece` class
 * holds the mutable fields and its methods are specified against the view.
 */
module Pieces {
  import opened Wrappers
  import opened Tootris
  import opened PieceTypes

  // ---------------------------------------------------------------------------
  // Rotation of a definition matrix
  // ---------------------------------------------------------------------------

  /**
   * The matrix of a definition turned into orientation `o`, read cell by cell:
   * Forward is a quarter turn clockwise, UpsideDown a half turn, Backwards three quarters.
   */
  function Rotated(def: Definition, o: Orientation): (m: Definition)
    requires WellFormed(def)
    ensures WellFormed(m)
    ensures (o == Orientation.Normal || o == Orientation.UpsideDown) ==> |m| == |def| && |m[0]| == |def[0]|
    ensures (o == Orientation.Forward || o == Orientation.Backwards) ==> |m| == |def[0]| && |m[0]| == |def|
  {
    var H := |def|;
    var W := |def[0]|;
    match o
    case Normal => def
    case Forward => seq(W, i requires 0 <= i < W => seq(H, j requires 0 <= j < H => def[H - 1 - j][i]))
    case UpsideDown => seq(H, i requires 0 <= i < H => seq(W, j requires 0 <= j < W => def[H - 1 - i][W - 1 - j]))
    case Backwards => seq(W, i requires 0 <= i < W => seq(H, j requires 0 <= j < H => def[j][W - 1 - i]))
  }

  /** A quarter turn clockwise of any rectangular matrix: the reference the four orientations are checked against. */
  function Clockwise(m: Definition): (r: Definition)
    requires WellFormed(m)
    ensures WellFormed(r) && |r| == |m[0]| && |r[0]| == |m|
  {
    seq(|m[0]|, i requires 0 <= i < |m[0]| => seq(|m|, j requires 0 <= j < |m| => m[|m| - 1 - j][i]))
  }

  /**
   * The matrices agree with the orientation algebra: turning forward once more is one
   * more clockwise quarter turn of the current matrix, from every orientation.
   */
  lemma {:induction false} RotateForwardIsClockwise(def: Definition, o: Orientation)
    requires WellFormed(def)
    ensures Rotated(def, Perform(Rotation.Forward, o)) == Clockwise(Rotated(def, o))
  {
    var H := |def|;
    var W := |def[0]|;
    var a := Rotated(def, Perform(Rotation.Forward, o));
    var b := Clockwise(Rotated(def, o));
    assert |a| == |b|;
    forall i | 0 <= i < |a| ensures a[i] == b[i] {
      assert |a[i]| == |b[i]|;
    }
  }

  /** Four forward rotations give back the orientation's own matrix. */
  lemma RotatedFourTimes(def: Definition, o: Orientation)
    requires WellFormed(def)
    ensures Rotated(def, o) == Clockwise(Clockwise(Clockwise(Clockwise(Rotated(def, o)))))
  {
    var o1 := Perform(Rotation.Forward, o);
    var o2 := Perform(Rotation.Forward, o1);
    var o3 := Perform(Rotation.Forward, o2);
    RotateForwardIsClockwise(def, o);
    RotateForwardIsClockwise(def, o1);
    RotateForwardIsClockwise(def, o2);
    RotateForwardIsClockwise(def, o3);
    ForwardFourTimes(o);
  }

  // ---------------------------------------------------------------------------
  // Piece snapshot and its field updates
  // ---------------------------------------------------------------------------

  /** The fields of a piece, as a value. */
  datatype PieceView = PieceView(
    definition: Definition,
    freezeProperty: PieceFreezeProperty,
    currentMatrix: Definition,
    color: BlockColor,
    location: Point,
    rollbackLocation: Point,
    orientation: Orientation,
    rollbackOrientation: Orientation)

  /** The current matrix is always the definition turned into the current orientation. */
  predicate Consistent(v: PieceView) {
    WellFormed(v.definition) && v.currentMatrix == Rotated(v.definition, v.orientation)
  }

  /** A fresh piece: normal orientation, rollback fields equal to the current ones. */
  function NewView(def: Definition, prop: PieceFreezeProperty, color: BlockColor, location: Point): (v: PieceView)
    requires WellFormed(def)
    ensures Consistent(v)
    ensures v.currentMatrix == def
    ensures v.rollbackLocation == v.location == location
    ensures v.orientation == v.rollbackOrientation == Orientation.Normal
  {
    PieceView(def, prop, def, color, location, location, Orientation.Normal, Orientation.Normal)
  }

  /** `rotate`: remember the orientation, turn, recompute the matrix. */
  function RotateView(v: PieceView, rot: Rotation): (r: PieceView)
    requires WellFormed(v.definition)
    ensures Consistent(r)
  {
    var o := Perform(rot, v.orientation);
    v.(rollbackOrientation := v.orientation, orientation := o, currentMatrix := Rotated(v.definition, o))
  }

  /** `rollback_rotation`: return to the remembered orientation and recompute the matrix. */
  function RollbackRotationView(v: PieceView): (r: PieceView)
    requires WellFormed(v.definition)
    ensures Consistent(r)
  {
    v.(orientation := v.rollbackOrientation, currentMatrix := Rotated(v.definition, v.rollbackOrientation))
  }

  /** `move_to`: remember the location and go to `p`. */
  function MoveToView(v: PieceView, p: Point): (r: PieceView)
    ensures r.location == p && r.rollbackLocation == v.location
    ensures r.(location := v.location, rollbackLocation := v.rollbackLocation) == v
  {
    v.(rollbackLocation := v.location, location := p)
  }

  /** `rollback_move`: return to the remembered location. */
  function RollbackMoveView(v: PieceView): (r: PieceView)
    ensures r.location == v.rollbackLocation && r.(location := v.location) == v
  {
    v.(location := v.rollbackLocation)
  }

  /**
   * A rotation followed by its rollback restores the orientation and the current matrix;
   * only the remembered orientation now holds the current one.
   */
  lemma RotateThenRollback(v: PieceView, rot: Rotation)
    requires Consistent(v)
    ensures RollbackRotationView(RotateView(v, rot)) == v.(rollbackOrientation := v.orientation)
  {
  }

  /** A move followed by its rollback restores the location. */
  lemma MoveThenRollback(v: PieceView, p: Point)
    ensures RollbackMoveView(MoveToView(v, p)) == v.(rollbackLocation := v.location)
    ensures RollbackMoveView(MoveToView(v, p)).location == v.location
  {
  }

  /** The rollback is one level deep: after two moves it returns to the first target, not the start. */
  lemma MoveRollbackOneLevel(v: PieceView, p: Point, q: Point)
    ensures RollbackMoveView(MoveToView(MoveToView(v, p), q)).location == p
  {
  }

  /** Moving never touches the orientation or the matrix, rotating never touches the location. */
  lemma MovesAndTurnsAreIndependent(v: PieceView, p: Point, rot: Rotation)
    requires Consistent(v)
    ensures Consistent(MoveToView(v, p)) && Consistent(RollbackMoveView(v))
    ensures RotateView(v, rot).location == v.location
    ensures RotateView(v, rot).rollbackLocation == v.rollbackLocation
    ensures MoveToView(v, p).currentMatrix == v.currentMatrix
  {
  }

  // ---------------------------------------------------------------------------
  // The anchor point
  // ---------------------------------------------------------------------------

  /** `p` comes at or before `q` in row-major order. */
  predicate RowMajorLe(p: Point, q: Point) {
    p.y < q.y || (p.y == q.y && p.x <= q.x)
  }

  /** `p` comes strictly before `q` in row-major order. */
  predicate RowMajorLt(p: Point, q: Point) {
    p.y < q.y || (p.y == q.y && p.x < q.x)
  }

  /** The first index at or after `x` holding an `Origin` cell. */
  function FirstOriginInRow(row: seq<DefinitionBlock>, x: nat): (r: Option<nat>)
    decreases |row| - x
    ensures r.Some? ==> x <= r.value < |row| && row[r.value].Origin?
    ensures r.Some? ==> forall k :: x <= k < r.value ==> !row[k].Origin?
    ensures r.None? <==> forall k :: x <= k < |row| ==> !row[k].Origin?
  {
    if x >= |row| then None
    else if row[x].Origin? then Some(x)
    else FirstOriginInRow(row, x + 1)
  }

  /** The first `Origin` cell, in row-major order, of the rows from `y` on, as an (x, y) offset. */
  function FirstOriginFrom(m: Definition, y: nat): (r: Option<Point>)
    decreases |m| - y
    ensures r.Some? ==> y <= r.value.y < |m| && 0 <= r.value.x < |m[r.value.y]|
    ensures r.Some? ==> m[r.value.y][r.value.x].Origin?
    ensures r.Some? ==> forall yy, xx :: y <= yy < |m| && 0 <= xx < |m[yy]| && m[yy][xx].Origin? ==>
                          RowMajorLe(r.value, Point(xx, yy))
    ensures r.None? <==> forall yy, xx :: y <= yy < |m| && 0 <= xx < |m[yy]| ==> !m[yy][xx].Origin?
  {
    if y >= |m| then None
    else
      match FirstOriginInRow(m[y], 0)
      case Some(x) => Some(Point(x, y))
      case None => FirstOriginFrom(m, y + 1)
  }

  /** The offset of the first `Origin` cell of a matrix in row-major order, if it has one. */
  function FirstOrigin(m: Definition): Option<Point> {
    FirstOriginFrom(m, 0)
  }

  /**
   * `find_origin_for_zero_block`: the grid point of the matrix's top-left cell. The base is
   * the override if there is one, the location otherwise, and the first origin cell lands
   * on it. With no origin cell the result is the location, whatever the override.
   * Coordinates are integers: a result below zero is where the source's unsigned
   * subtraction underflows.
   */
  function FindOriginForZeroBlock(v: PieceView, pointOverride: Option<Point>): (r: Point)
    ensures FirstOrigin(v.currentMatrix).None? ==> r == v.location
    ensures FirstOrigin(v.currentMatrix).Some? ==>
      var o := FirstOrigin(v.currentMatrix).value;
      var base := pointOverride.GetOr(v.location);
      r.x + o.x == base.x && r.y + o.y == base.y
  {
    match FirstOrigin(v.currentMatrix)
    case None => v.location
    case Some(o) =>
      var base := pointOverride.GetOr(v.location);
      Point(base.x - o.x, base.y - o.y)
  }

  /** A matrix whose every origin cell is the first one sits at the location itself. */
  lemma AnchorOfSquare(v: PieceView)
    requires v.currentMatrix == Square
    ensures FirstOrigin(v.currentMatrix) == Some(Point(0, 0))
    ensures FindOriginForZeroBlock(v, None) == v.location
  {
    assert Square[0][0].Origin?;
  }

  // ---------------------------------------------------------------------------
  // Occupied points
  // ---------------------------------------------------------------------------

  /** The grid point of cell (x, y) of the matrix when its top-left cell is at `a`. */
  function Shift(a: Point, x: int, y: int): Point {
    Point(a.x + x, a.y + y)
  }

  /** The points of the non-blank cells of `row` from index `x` on, row `y`, with top-left at `a`. */
  function RowPoints(row: seq<DefinitionBlock>, a: Point, y: nat, x: nat): (r: seq<Point>)
    decreases |row| - x
    ensures forall p :: p in r <==> exists k :: x <= k < |row| && !row[k].Blank? && p == Shift(a, k, y)
    ensures forall i :: 0 <= i < |r| ==> r[i].y == a.y + y
    ensures forall i, j :: 0 <= i < j < |r| ==> r[i].x < r[j].x
    ensures forall i :: 0 <= i < |r| ==> a.x + x <= r[i].x
    ensures |r| == (if x <= |row| then CountNonBlankRow(row[x..]) else 0)
  {
    if x >= |row| then []
    else
      var rest := RowPoints(row, a, y, x + 1);
      assert row[x..][1..] == row[x + 1..];
      if row[x].Blank? then rest else [Shift(a, x, y)] + rest
  }

  /** The points of the non-blank cells of the rows from `y` on, in row-major order. */
  function RowsPoints(m: Definition, a: Point, y: nat): (r: seq<Point>)
    decreases |m| - y
    ensures forall p :: p in r <==>
      exists yy, k :: y <= yy < |m| && 0 <= k < |m[yy]| && !m[yy][k].Blank? && p == Shift(a, k, yy)
    ensures forall i :: 0 <= i < |r| ==> a.y + y <= r[i].y
    ensures forall i, j :: 0 <= i < j < |r| ==> RowMajorLt(r[i], r[j])
    ensures |r| == (if y <= |m| then CountNonBlank(m[y..]) else 0)
  {
    if y >= |m| then []
    else
      var first := RowPoints(m[y], a, y, 0);
      var rest := RowsPoints(m, a, y + 1);
      assert m[y..][1..] == m[y + 1..];
      assert m[y][0..] == m[y];
      var r := first + rest;
      forall p ensures p in r <==>
        exists yy, k :: y <= yy < |m| && 0 <= k < |m[yy]| && !m[yy][k].Blank? && p == Shift(a, k, yy)
      {
        if p in r && p in first {
          var k :| 0 <= k < |m[y]| && !m[y][k].Blank? && p == Shift(a, k, y);
        }
      }
      r
  }

  /**
   * `points`: the grid point of every non-blank cell of the current matrix, top-left at the
   * anchor, in row-major order. No point repeats, and there is one per non-blank cell.
   */
  function Points(v: PieceView, pointOverride: Option<Point>): (r: seq<Point>)
    ensures var a := FindOriginForZeroBlock(v, pointOverride);
      forall p :: p in r <==>
        exists y, x :: 0 <= y < |v.currentMatrix| && 0 <= x < |v.currentMatrix[y]| &&
                       !v.currentMatrix[y][x].Blank? && p == Shift(a, x, y)
    ensures forall i, j :: 0 <= i < j < |r| ==> RowMajorLt(r[i], r[j])
    ensures |r| == CountNonBlank(v.currentMatrix)
  {
    assert v.currentMatrix[0..] == v.currentMatrix;
    RowsPoints(v.currentMatrix, FindOriginForZeroBlock(v, pointOverride), 0)
  }

  // ---------------------------------------------------------------------------
  // Boundary points
  // ---------------------------------------------------------------------------

  /** The first non-blank index at or after `x`. */
  function FirstNonBlank(row: seq<DefinitionBlock>, x: nat): (r: Option<nat>)
    decreases |row| - x
    ensures r.Some? ==> x <= r.value < |row| && !row[r.value].Blank?
    ensures r.Some? ==> forall k :: x <= k < r.value ==> row[k].Blank?
    ensures r.None? <==> forall k :: x <= k < |row| ==> row[k].Blank?
  {
    if x >= |row| then None
    else if !row[x].Blank? then Some(x)
    else FirstNonBlank(row, x + 1)
  }

  /** The last non-blank index below `x`. */
  function LastNonBlank(row: seq<DefinitionBlock>, x: nat): (r: Option<nat>)
    requires x <= |row|
    ensures r.Some? ==> r.value < x && !row[r.value].Blank?
    ensures r.Some? ==> forall k :: r.value < k < x ==> row[k].Blank?
    ensures r.None? <==> forall k :: 0 <= k < x ==> row[k].Blank?
  {
    if x == 0 then None
    else if !row[x - 1].Blank? then Some(x - 1)
    else LastNonBlank(row, x - 1)
  }

  /** The boundary points of one row: its leftmost and its rightmost non-blank cell, or nothing. */
  function RowXBoundaries(row: seq<DefinitionBlock>, a: Point, y: nat): (r: seq<Point>)
    ensures |r| == 0 <==> forall k :: 0 <= k < |row| ==> row[k].Blank?
    ensures |r| == 0 || |r| == 2
    ensures |r| == 2 ==> r[0].y == r[1].y == a.y + y && r[0].x <= r[1].x
    ensures |r| == 2 ==> forall k :: 0 <= k < |row| && !row[k].Blank? ==> r[0].x <= a.x + k <= r[1].x
    ensures forall p :: p in r ==> exists k :: 0 <= k < |row| && !row[k].Blank? && p == Shift(a, k, y)
  {
    match FirstNonBlank(row, 0)
    case None => []
    case Some(f) =>
      var l := LastNonBlank(row, |row|);
      [Shift(a, f, y), Shift(a, l.value, y)]
  }

  function RowsXBoundaries(m: Definition, a: Point, y: nat): (r: seq<Point>)
    decreases |m| - y
    ensures forall p :: p in r ==>
      exists yy, k :: y <= yy < |m| && 0 <= k < |m[yy]| && !m[yy][k].Blank? && p == Shift(a, k, yy)
    ensures forall yy :: y <= yy < |m| ==> forall p :: p in RowXBoundaries(m[yy], a, yy) ==> p in r
  {
    if y >= |m| then [] else RowXBoundaries(m[y], a, y) + RowsXBoundaries(m, a, y + 1)
  }

  /**
   * `find_xboundaries`: for each row holding a non-blank cell, its leftmost then its
   * rightmost point (one point twice when the row has one cell). Every boundary point is
   * an occupied point, and every occupied point lies between its row's two boundaries.
   */
  function FindXBoundaries(v: PieceView, pointOverride: Option<Point>): (r: seq<Point>)
    ensures forall p :: p in r ==> p in Points(v, pointOverride)
    ensures var a := FindOriginForZeroBlock(v, pointOverride);
      forall y :: 0 <= y < |v.currentMatrix| ==> forall p :: p in RowXBoundaries(v.currentMatrix[y], a, y) ==> p in r
  {
    RowsXBoundaries(v.currentMatrix, FindOriginForZeroBlock(v, pointOverride), 0)
  }

  /** The points of `ps` that lie on row `y`, in their order in `ps`. */
  function AtRow(ps: seq<Point>, y: int): (r: seq<Point>)
    ensures |r| <= |ps|
    ensures forall i :: 0 <= i < |r| ==> r[i].y == y
  {
    if ps == [] then [] else (if ps[0].y == y then [ps[0]] else []) + AtRow(ps[1..], y)
  }

  /** Filtering by row distributes over concatenation. */
  lemma {:induction false} AtRowAppend(ps: seq<Point>, qs: seq<Point>, y: int)
    ensures AtRow(ps + qs, y) == AtRow(ps, y) + AtRow(qs, y)
  {
    if ps == [] {
      assert ps + qs == qs;
    } else {
      assert (ps + qs)[0] == ps[0] && (ps + qs)[1..] == ps[1..] + qs;
      AtRowAppend(ps[1..], qs, y);
    }
  }

  /** A list of points lying on row `y` is its own filter by row `y`. */
  lemma {:induction false} AtRowOfOneRow(ps: seq<Point>, y: int)
    requires forall i :: 0 <= i < |ps| ==> ps[i].y == y
    ensures AtRow(ps, y) == ps
  {
    if ps != [] {
      AtRowOfOneRow(ps[1..], y);
    }
  }

  /** A list of points none of which lies on row `z` filters to nothing. */
  lemma {:induction false} AtRowOfOtherRows(ps: seq<Point>, z: int)
    requires forall i :: 0 <= i < |ps| ==> ps[i].y != z
    ensures AtRow(ps, z) == []
  {
    if ps != [] {
      AtRowOfOtherRows(ps[1..], z);
    }
  }

  /** Points of another row in front of a list do not change its filter by row `z`. */
  lemma AtRowSkip(here: seq<Point>, rest: seq<Point>, y: int, z: int)
    requires forall i :: 0 <= i < |here| ==> here[i].y == y
    requires z != y
    ensures AtRow(here + rest, z) == AtRow(rest, z)
  {
    AtRowAppend(here, rest, z);
    AtRowOfOtherRows(here, z);
    assert [] + AtRow(rest, z) == AtRow(rest, z);
  }

  /** Both boundary points of a row lie on that row. */
  lemma RowXBoundariesOnRow(row: seq<DefinitionBlock>, a: Point, y: nat)
    ensures var r := RowXBoundaries(row, a, y); forall i :: 0 <= i < |r| ==> r[i].y == a.y + y
  {
    var r := RowXBoundaries(row, a, y);
    assert |r| == 0 || (|r| == 2 && r[0].y == a.y + y && r[1].y == a.y + y);
  }

  /** Every point of `ps` lies on a row from `lo` up to but excluding `hi`. */
  predicate OnRowsBetween(ps: seq<Point>, lo: int, hi: int) {
    forall i :: 0 <= i < |ps| ==> lo <= ps[i].y < hi
  }

  /** The points of `ps` are ordered by row, top to bottom. */
  predicate OrderedByRow(ps: seq<Point>) {
    forall i, j :: 0 <= i < j < |ps| ==> ps[i].y <= ps[j].y
  }

  /** The x boundaries of the rows from `y` on lie within those rows and are ordered by row. */
  lemma {:induction false} RowsXBoundariesOrdered(m: Definition, a: Point, y: nat)
    decreases |m| - y
    ensures OnRowsBetween(RowsXBoundaries(m, a, y), a.y + y, a.y + |m|)
    ensures OrderedByRow(RowsXBoundaries(m, a, y))
  {
    if y < |m| {
      var here := RowXBoundaries(m[y], a, y);
      var rest := RowsXBoundaries(m, a, y + 1);
      var r := RowsXBoundaries(m, a, y);
      assert r == here + rest;
      RowsXBoundariesOrdered(m, a, y + 1);
      RowXBoundariesOnRow(m[y], a, y);
      forall i | 0 <= i < |r| ensures a.y + y <= r[i].y < a.y + |m| && (i < |here| ==> r[i].y == a.y + y) {
        if i < |here| {
          assert r[i] == here[i];
        } else {
          assert r[i] == rest[i - |here|];
        }
      }
    }
  }

  /** Filtered by row `y`, the x boundaries of the rows from `y` on are row `y`'s own boundaries. */
  lemma RowsXBoundariesAtFirstRow(m: Definition, a: Point, y: nat)
    requires y < |m|
    ensures AtRow(RowsXBoundaries(m, a, y), a.y + y) == RowXBoundaries(m[y], a, y)
  {
    var here := RowXBoundaries(m[y], a, y);
    var rest := RowsXBoundaries(m, a, y + 1);
    assert RowsXBoundaries(m, a, y) == here + rest;
    AtRowAppend(here, rest, a.y + y);
    RowXBoundariesOnRow(m[y], a, y);
    AtRowOfOneRow(here, a.y + y);
    RowsXBoundariesOrdered(m, a, y + 1);
    AtRowOfOtherRows(rest, a.y + y);
    assert here + [] == here;
  }

  /** Filtered by one row `yy` below row `y`, the x boundaries of the rows from `y` on are that row's boundaries. */
  lemma {:induction false} RowsXBoundariesAtRow(m: Definition, a: Point, y: nat, yy: nat)
    requires y < yy < |m|
    decreases |m| - y
    ensures AtRow(RowsXBoundaries(m, a, y), a.y + yy) == RowXBoundaries(m[yy], a, yy)
  {
    RowXBoundariesOnRow(m[y], a, y);
    AtRowSkip(RowXBoundaries(m[y], a, y), RowsXBoundaries(m, a, y + 1), a.y + y, a.y + yy);
    if yy == y + 1 {
      RowsXBoundariesAtFirstRow(m, a, yy);
    } else {
      RowsXBoundariesAtRow(m, a, y + 1, yy);
    }
  }

  /**
   * The x boundaries of the rows from `y` on are ordered by row, all lie within those rows,
   * and filtered by any one row `yy` they are exactly that row's boundaries: row after row
   * from the top, each non-blank row's leftmost and rightmost point and nothing else.
   */
  lemma RowsXBoundariesByRow(m: Definition, a: Point, y: nat)
    ensures OnRowsBetween(RowsXBoundaries(m, a, y), a.y + y, a.y + |m|)
    ensures OrderedByRow(RowsXBoundaries(m, a, y))
    ensures forall yy :: y <= yy < |m| ==> AtRow(RowsXBoundaries(m, a, y), a.y + yy) == RowXBoundaries(m[yy], a, yy)
  {
    RowsXBoundariesOrdered(m, a, y);
    forall yy | y <= yy < |m|
      ensures AtRow(RowsXBoundaries(m, a, y), a.y + yy) == RowXBoundaries(m[yy], a, yy)
    {
      if yy == y {
        RowsXBoundariesAtFirstRow(m, a, y);
      } else {
        RowsXBoundariesAtRow(m, a, y, yy);
      }
    }
  }

  /**
   * The whole-piece form of `RowsXBoundariesByRow`: the x boundaries run over the matrix's
   * rows from top to bottom, and filtered by any row they are that row's two boundaries
   * (or nothing for a blank row).
   */
  lemma FindXBoundariesByRow(v: PieceView, pointOverride: Option<Point>)
    ensures var a := FindOriginForZeroBlock(v, pointOverride);
      OnRowsBetween(FindXBoundaries(v, pointOverride), a.y, a.y + |v.currentMatrix|)
    ensures OrderedByRow(FindXBoundaries(v, pointOverride))
    ensures var a := FindOriginForZeroBlock(v, pointOverride);
      forall yy :: 0 <= yy < |v.currentMatrix| ==>
        AtRow(FindXBoundaries(v, pointOverride), a.y + yy) == RowXBoundaries(v.currentMatrix[yy], a, yy)
  {
    var m := v.currentMatrix;
    var a := FindOriginForZeroBlock(v, pointOverride);
    assert FindXBoundaries(v, pointOverride) == RowsXBoundaries(m, a, 0);
    RowsXBoundariesByRow(m, a, 0);
  }

  /** The largest row index below `y` whose cell in column `x` is not blank. */
  function LowestInColumn(m: Definition, x: nat, y: nat): (r: Option<nat>)
    requires y <= |m|
    requires forall yy :: 0 <= yy < |m| ==> x < |m[yy]|
    ensures r.Some? ==> r.value < y && !m[r.value][x].Blank?
    ensures r.Some? ==> forall yy :: r.value < yy < y ==> m[yy][x].Blank?
    ensures r.None? <==> forall yy :: 0 <= yy < y ==> m[yy][x].Blank?
  {
    if y == 0 then None
    else if !m[y - 1][x].Blank? then Some(y - 1)
    else LowestInColumn(m, x, y - 1)
  }

  function ColumnsYBoundaries(m: Definition, a: Point, x: nat): (r: seq<Point>)
    requires WellFormed(m)
    decreases |m[0]| - x
    ensures forall p :: p in r ==>
      exists yy, k :: x <= k < |m[0]| && 0 <= yy < |m| && !m[yy][k].Blank? && p == Shift(a, k, yy) &&
                      forall y2 :: yy < y2 < |m| ==> m[y2][k].Blank?
    ensures forall k :: x <= k < |m[0]| && LowestInColumn(m, k, |m|).Some? ==>
      Shift(a, k, LowestInColumn(m, k, |m|).value) in r
  {
    if x >= |m[0]| then []
    else
      var here := match LowestInColumn(m, x, |m|)
        case None => []
        case Some(y) => [Shift(a, x, y)];
      here + ColumnsYBoundaries(m, a, x + 1)
  }

  /**
   * The documented intent of `find_yboundaries`: for each column holding a non-blank cell,
   * the point of its lowest (largest y) non-blank cell, and nothing else.
   */
  function FindYBoundaries(v: PieceView, pointOverride: Option<Point>): (r: seq<Point>)
    requires WellFormed(v.currentMatrix)
    ensures var m := v.currentMatrix; var a := FindOriginForZeroBlock(v, pointOverride);
      forall p :: p in r ==>
        exists yy, k :: 0 <= k < |m[0]| && 0 <= yy < |m| && !m[yy][k].Blank? && p == Shift(a, k, yy) &&
                        forall y2 :: yy < y2 < |m| ==> m[y2][k].Blank?
    ensures var m := v.currentMatrix; var a := FindOriginForZeroBlock(v, pointOverride);
      forall k :: 0 <= k < |m[0]| && LowestInColumn(m, k, |m|).Some? ==>
        Shift(a, k, LowestInColumn(m, k, |m|).value) in r
  {
    ColumnsYBoundaries(v.currentMatrix, FindOriginForZeroBlock(v, pointOverride), 0)
  }

  /** Every y boundary is an occupied point, and every occupied column has a boundary at or below each of its cells. */
  lemma YBoundariesArePoints(v: PieceView, pointOverride: Option<Point>)
    requires WellFormed(v.currentMatrix)
    ensures forall p :: p in FindYBoundaries(v, pointOverride) ==> p in Points(v, pointOverride)
    ensures var m := v.currentMatrix; var a := FindOriginForZeroBlock(v, pointOverride);
      forall k, yy :: 0 <= k < |m[0]| && 0 <= yy < |m| && !m[yy][k].Blank? ==>
        Shift(a, k, LowestInColumn(m, k, |m|).value) in FindYBoundaries(v, pointOverride) &&
        LowestInColumn(m, k, |m|).value >= yy
  {
    var m: Definition := v.currentMatrix;
    var a := FindOriginForZeroBlock(v, pointOverride);
    var r := FindYBoundaries(v, pointOverride);
    forall p | p in r ensures p in Points(v, pointOverride) {
      var yy: int, k: int :| 0 <= k < |m[0]| && 0 <= yy < |m| && !m[yy][k].Blank? && p == Shift(a, k, yy) &&
                             forall y2 :: yy < y2 < |m| ==> m[y2][k].Blank?;
      assert k < |m[yy]|;
    }
  }

  /**
   * `find_yboundaries` as written: for each column the source scans the rows
   * `len - 1 ..= 0`, a range that is empty unless the matrix has exactly one row.
   */
  function FindYBoundariesAsWrittenFrom(m: Definition, a: Point, x: nat): (r: seq<Point>)
    requires WellFormed(m)
    decreases |m[0]| - x
    ensures |m| != 1 ==> r == []
  {
    if x >= |m[0]| then []
    else
      var here := if |m| == 1 && !m[0][x].Blank? then [Shift(a, x, 0)] else [];
      here + FindYBoundariesAsWrittenFrom(m, a, x + 1)
  }

  function FindYBoundariesAsWritten(v: PieceView, pointOverride: Option<Point>): (r: seq<Point>)
    requires WellFormed(v.currentMatrix)
    ensures |v.currentMatrix| != 1 ==> r == []
  {
    FindYBoundariesAsWrittenFrom(v.currentMatrix, FindOriginForZeroBlock(v, pointOverride), 0)
  }

  /** On a one-row matrix the source's scan and the documented behaviour coincide. */
  lemma {:induction false} YBoundariesAgreeOnOneRow(m: Definition, a: Point, x: nat)
    requires WellFormed(m) && |m| == 1
    decreases |m[0]| - x
    ensures FindYBoundariesAsWrittenFrom(m, a, x) == ColumnsYBoundaries(m, a, x)
  {
    if x < |m[0]| {
      YBoundariesAgreeOnOneRow(m, a, x + 1);
    }
  }

  /**
   * The discrepancy: an L piece in its normal orientation occupies three rows, so the
   * source's scan returns no point at all, while column 0 has its lowest cell in row 2.
   */
  lemma YBoundariesAsWrittenMissesTallPieces(v: PieceView)
    requires v.currentMatrix == LPiece && v.location == Point(5, 1)
    ensures FindYBoundariesAsWritten(v, None) == []
    ensures Point(5, 2) in FindYBoundaries(v, None)
  {
    LPieceOrigin();
    var a := FindOriginForZeroBlock(v, None);
    assert a == Point(5, 0);
    assert LowestInColumn(LPiece, 0, 3) == Some(2) by {
      assert !LPiece[2][0].Blank?;
    }
  }

  /** The origin of the L piece is its second row's first cell. */
  /** Spawned at (5, 1), the podium's top-left cell sits at (4, 0). */
  lemma PodiumSpawnAnchor(v: PieceView)
    requires v.currentMatrix == Podium && v.location == Point(5, 1)
    ensures WellFormed(v.currentMatrix)
    ensures FindOriginForZeroBlock(v, None) == Point(4, 0)
  {
    assert FirstOriginInRow(Podium[0], 0) == None by {
      assert !Podium[0][0].Origin? && !Podium[0][1].Origin? && !Podium[0][2].Origin?;
    }
    assert FirstOriginInRow(Podium[1], 0) == Some(1) by {
      assert !Podium[1][0].Origin? && Podium[1][1].Origin?;
    }
  }

  /**
   * The spawn check's blind spot for the podium: spawned at (5, 1) its x boundaries are
   * (5, 0) twice, then (4, 1) and (6, 1), so they omit the middle cell (5, 1) of the
   * bottom row, which the piece occupies.
   */
  lemma PodiumSpawnXBoundaries(v: PieceView)
    requires v.currentMatrix == Podium && v.location == Point(5, 1)
    ensures FindXBoundaries(v, None) == [Point(5, 0), Point(5, 0), Point(4, 1), Point(6, 1)]
    ensures Point(5, 1) in Points(v, None) && Point(5, 1) !in FindXBoundaries(v, None)
  {
    PodiumSpawnAnchor(v);
    var a := Point(4, 0);
    assert FirstNonBlank(Podium[0], 0) == Some(1);
    assert LastNonBlank(Podium[0], 3) == Some(1);
    assert FirstNonBlank(Podium[1], 0) == Some(0);
    assert LastNonBlank(Podium[1], 3) == Some(2);
    assert RowsXBoundaries(Podium, a, 2) == [];
  }

  /**
   * The lowest cell of the podium's middle column is the cell (5, 1) the x boundaries
   * miss, so the corrected y boundaries cover it, while the y scan as written returns nothing.
   */
  lemma PodiumSpawnYBoundaries(v: PieceView)
    requires v.currentMatrix == Podium && v.location == Point(5, 1)
    ensures WellFormed(v.currentMatrix)
    ensures Point(5, 1) in FindYBoundaries(v, None)
    ensures FindYBoundariesAsWritten(v, None) == []
  {
    PodiumSpawnAnchor(v);
    assert LowestInColumn(Podium, 1, 2) == Some(1) by {
      assert !Podium[1][1].Blank?;
    }
  }

  lemma LPieceOrigin()
    ensures FirstOrigin(LPiece) == Some(Point(0, 1))
  {
    assert FirstOriginInRow(LPiece[0], 0) == None by {
      assert !LPiece[0][0].Origin? && !LPiece[0][1].Origin?;
    }
    assert FirstOriginInRow(LPiece[1], 0) == Some(0);
  }

  // ---------------------------------------------------------------------------
  // Writing into and erasing from a grid
  // ---------------------------------------------------------------------------

  /**
   * `colorize_block_erase_origin`: the playfield cell a definition cell becomes. Both
   * filled and origin cells become filled cells of the piece colour, so no origin
   * reaches the playfield; text keeps its line and takes the colour.
   */
  function ColorizeBlockEraseOrigin(b: DefinitionBlock, color: BlockColor): (r: GameBlock)
    ensures r.Filled? <==> (b.Filled? || b.Origin?)
    ensures r.Text? <==> b.Text?
    ensures r.Filled? || r.Text? ==> r.color == color
    ensures r.Text? ==> r.line == b.line
    ensures b.Blank? ==> r == Empty
    ensures !r.Origin? && !r.Indestructible? && !r.NoBlock?
  {
    match b
    case Filled => GameBlock.Filled(color)
    case Origin => GameBlock.Filled(color)
    case Text(line) => GameBlock.Text(line, color)
    case _ => Empty
  }

  /** Cell (gx, gy) of the grid lies under cell (gx - a.x, gy - a.y) of the matrix. */
  predicate Covers(m: Definition, a: Point, gy: int, gx: int) {
    0 <= gy - a.y < |m| && 0 <= gx - a.x < |m[gy - a.y]|
  }

  /** `(x, y)` is inside the grid. */
  predicate InGrid(g: Grid, x: int, y: int) {
    0 <= y < |g| && 0 <= x < |g[y]|
  }

  /** Every non-blank cell of the piece falls inside the grid: what placing indexes. */
  predicate PlaceFits(v: PieceView, g: Grid) {
    var m: Definition := v.currentMatrix;
    var a := FindOriginForZeroBlock(v, None);
    forall y, x :: 0 <= y < |m| && 0 <= x < |m[y]| && !m[y][x].Blank? ==> InGrid(g, a.x + x, a.y + y)
  }

  /** Every cell of the piece's matrix, blank or not, falls inside the grid: what erasing indexes. */
  predicate RemoveFits(v: PieceView, g: Grid) {
    var m: Definition := v.currentMatrix;
    var a := FindOriginForZeroBlock(v, None);
    0 <= a.y && a.y + |m| <= |g| &&
    forall y :: 0 <= y < |m| ==> 0 <= a.x && a.x + |m[y]| <= |g[a.y + y]|
  }

  /** The grid after `place_in_matrix`: colourised cells under the non-blank cells, the rest as before. */
  function Placed(v: PieceView, g: Grid): (r: Grid)
    ensures |r| == |g| && forall y :: 0 <= y < |g| ==> |r[y]| == |g[y]|
  {
    var m: Definition := v.currentMatrix;
    var a := FindOriginForZeroBlock(v, None);
    seq(|g|, gy requires 0 <= gy < |g| => seq(|g[gy]|, gx requires 0 <= gx < |g[gy]| =>
      if Covers(m, a, gy, gx) && !m[gy - a.y][gx - a.x].Blank?
      then ColorizeBlockEraseOrigin(m[gy - a.y][gx - a.x], v.color)
      else g[gy][gx]))
  }

  /** The grid after `remove_from_matrix`: `Empty` under the piece's whole matrix, the rest as before. */
  function Removed(v: PieceView, g: Grid): (r: Grid)
    ensures |r| == |g| && forall y :: 0 <= y < |g| ==> |r[y]| == |g[y]|
  {
    var m: Definition := v.currentMatrix;
    var a := FindOriginForZeroBlock(v, None);
    seq(|g|, gy requires 0 <= gy < |g| => seq(|g[gy]|, gx requires 0 <= gx < |g[gy]| =>
      if Covers(m, a, gy, gx) then Empty else g[gy][gx]))
  }

  /** Placing leaves every cell that is not one of the piece's points as it was. */
  lemma PlacedKeepsOtherCells(v: PieceView, g: Grid, gx: int, gy: int)
    requires InGrid(g, gx, gy) && Point(gx, gy) !in Points(v, None)
    ensures Placed(v, g)[gy][gx] == g[gy][gx]
  {
    var m: Definition := v.currentMatrix;
    var a := FindOriginForZeroBlock(v, None);
    if Covers(m, a, gy, gx) && !m[gy - a.y][gx - a.x].Blank? {
      assert false;
    }
  }

  /** Placing writes the colourised matrix cell at each of the piece's points. */
  lemma PlacedWritesPoints(v: PieceView, g: Grid, p: Point)
    requires p in Points(v, None) && InGrid(g, p.x, p.y)
    ensures var a := FindOriginForZeroBlock(v, None);
      Covers(v.currentMatrix, a, p.y, p.x) &&
      Placed(v, g)[p.y][p.x] == ColorizeBlockEraseOrigin(v.currentMatrix[p.y - a.y][p.x - a.x], v.color)
    ensures !Placed(v, g)[p.y][p.x].Empty?
  {
    var m: Definition := v.currentMatrix;
    var a := FindOriginForZeroBlock(v, None);
    var y: int, x: int :| 0 <= y < |m| && 0 <= x < |m[y]| && !m[y][x].Blank? && p == Shift(a, x, y);
    assert p.y - a.y == y && p.x - a.x == x;
  }

  /** Erasing after placing is erasing: whatever placing wrote lies in the erased footprint. */
  lemma PlaceThenRemove(v: PieceView, g: Grid)
    ensures Removed(v, Placed(v, g)) == Removed(v, g)
  {
    var l := Removed(v, Placed(v, g));
    var r := Removed(v, g);
    assert |l| == |r|;
    forall gy | 0 <= gy < |l| ensures l[gy] == r[gy] {
      assert |l[gy]| == |r[gy]|;
    }
  }

  /** Erasing a piece whose footprint is empty changes nothing. */
  lemma RemoveFromEmptyFootprint(v: PieceView, g: Grid)
    requires forall gy, gx :: InGrid(g, gx, gy) && Covers(v.currentMatrix, FindOriginForZeroBlock(v, None), gy, gx) ==>
      g[gy][gx] == Empty
    ensures Removed(v, g) == g
  {
    var r := Removed(v, g);
    assert |r| == |g|;
    forall gy | 0 <= gy < |g| ensures r[gy] == g[gy] {
      assert |r[gy]| == |g[gy]|;
    }
  }

  /**
   * Placing a piece on cells that are all empty and then erasing it restores the grid, in
   * every orientation and at every location.
   */
  lemma PlaceRemoveRestores(v: PieceView, g: Grid)
    requires forall gy, gx :: InGrid(g, gx, gy) && Covers(v.currentMatrix, FindOriginForZeroBlock(v, None), gy, gx) ==>
      g[gy][gx] == Empty
    ensures Removed(v, Placed(v, g)) == g
  {
    PlaceThenRemove(v, g);
    RemoveFromEmptyFootprint(v, g);
  }

  // ---------------------------------------------------------------------------
  // The piece object
  // ---------------------------------------------------------------------------

  class Piece {
    const definition: Definition
    const freezeProperty: PieceFreezeProperty
    const color: BlockColor
    var currentMatrix: Definition
    var location: Point
    var rollbackLocation: Point
    var orientation: Orientation
    var rollbackOrientation: Orientation

    /** The current field values. */
    function View(): PieceView
      reads this
    {
      PieceView(definition, freezeProperty, currentMatrix, color, location, rollbackLocation,
                orientation, rollbackOrientation)
    }

    ghost predicate Valid()
      reads this
    {
      Consistent(View())
    }

    /** `Piece::new`: normal orientation, rollback fields equal to the initial ones. */
    constructor (definition: Definition, freezeProperty: PieceFreezeProperty, color: BlockColor, location: Point)
      requires WellFormed(definition)
      ensures Valid()
      ensures View() == NewView(definition, freezeProperty, color, location)
    {
      this.definition := definition;
      this.freezeProperty := freezeProperty;
      this.color := color;
      this.currentMatrix := [];
      this.location := location;
      this.rollbackLocation := location;
      this.orientation := Orientation.Normal;
      this.rollbackOrientation := Orientation.Normal;
      new;
      UpdateCurrentMatrix();
    }

    /** `of_type`: a fresh piece of a catalog definition. */
    static method OfType(t: PieceDefinition, color: BlockColor, location: Point) returns (p: Piece)
      requires WellFormed(t.def)
      ensures fresh(p) && p.Valid()
      ensures p.View() == NewView(t.def, t.prop, color, location)
    {
      p := new Piece(t.def, t.prop, color, location);
    }

    /** `rotate`. */
    method Rotate(rot: Rotation)
      requires Valid()
      modifies this
      ensures Valid()
      ensures View() == RotateView(old(View()), rot)
    {
      rollbackOrientation := orientation;
      orientation := Perform(rot, rollbackOrientation);
      UpdateCurrentMatrix();
    }

    /** `rollback_rotation`. */
    method RollbackRotation()
      requires Valid()
      modifies this
      ensures Valid()
      ensures View() == RollbackRotationView(old(View()))
    {
      orientation := rollbackOrientation;
      UpdateCurrentMatrix();
    }

    /** `move_to`. */
    method MoveTo(newLocation: Point)
      modifies this
      ensures View() == MoveToView(old(View()), newLocation)
    {
      rollbackLocation := location;
      location := newLocation;
    }

    /** `rollback_move`. */
    method RollbackMove()
      modifies this
      ensures View() == RollbackMoveView(old(View()))
    {
      location := rollbackLocation;
    }

    /** `update_current_matrix`: recompute the matrix from the definition and the orientation. */
    method UpdateCurrentMatrix()
      requires WellFormed(definition)
      modifies this
      ensures View() == old(View()).(currentMatrix := Rotated(definition, orientation))
    {
      match orientation
      case Normal => SetMatrixNormal();
      case Forward => SetMatrixForwards();
      case UpsideDown => SetMatrixUpsideDown();
      case Backwards => SetMatrixBackwards();
    }

    /** `set_matrix_normal`: a cell-by-cell copy of the definition. */
    method SetMatrixNormal()
      requires WellFormed(definition)
      modifies this
      ensures currentMatrix == definition
      ensures View() == old(View()).(currentMatrix := Rotated(definition, Orientation.Normal))
    {
      var H := |definition|;
      var W := |definition[0]|;
      var matrix: Definition := seq(H, _ => seq(W, _ => Blank));
      for y := 0 to H
        invariant |matrix| == H && forall i :: 0 <= i < H ==> |matrix[i]| == W
        invariant forall i :: 0 <= i < y ==> matrix[i] == definition[i]
        invariant forall i, j :: y <= i < H && 0 <= j < W ==> matrix[i][j] == Blank
      {
        for x := 0 to W
          invariant |matrix| == H && forall i :: 0 <= i < H ==> |matrix[i]| == W
          invariant forall i :: 0 <= i < y ==> matrix[i] == definition[i]
          invariant forall j :: 0 <= j < x ==> matrix[y][j] == definition[y][j]
          invariant forall j :: x <= j < W ==> matrix[y][j] == Blank
          invariant forall i, j :: y < i < H && 0 <= j < W ==> matrix[i][j] == Blank
        {
          matrix := matrix[y := matrix[y][x := definition[y][x]]];
        }
        assert matrix[y] == definition[y];
      }
      assert matrix == definition;
      currentMatrix := matrix;
    }

    /** `set_matrix_forwards`: cell (x, y) of the definition goes to row x, column H-1-y. */
    method SetMatrixForwards()
      requires WellFormed(definition)
      modifies this
      ensures |currentMatrix| == |definition[0]|
      ensures forall y, x :: 0 <= y < |definition| && 0 <= x < |definition[0]| ==>
        |currentMatrix[x]| == |definition| && currentMatrix[x][|definition| - 1 - y] == definition[y][x]
      ensures View() == old(View()).(currentMatrix := Rotated(definition, Orientation.Forward))
    {
      var H := |definition|;
      var W := |definition[0]|;
      var matrix: Definition := seq(W, _ => seq(H, _ => Blank));
      for y := 0 to H
        invariant |matrix| == W && forall i :: 0 <= i < W ==> |matrix[i]| == H
        invariant forall i, j {:trigger matrix[i][j]} :: 0 <= i < W && 0 <= j < H ==>
          matrix[i][j] == if H - 1 - j < y then definition[H - 1 - j][i] else Blank
      {
        for x := 0 to W
          invariant |matrix| == W && forall i :: 0 <= i < W ==> |matrix[i]| == H
          invariant forall i, j {:trigger matrix[i][j]} :: 0 <= i < W && 0 <= j < H ==>
            matrix[i][j] == if H - 1 - j < y || (H - 1 - j == y && i < x) then definition[H - 1 - j][i] else Blank
        {
          matrix := matrix[x := matrix[x][H - 1 - y := definition[y][x]]];
        }
      }
      SameMatrix(matrix, Rotated(definition, Orientation.Forward));
      currentMatrix := matrix;
    }

    /** `set_matrix_upside_down`: cell (x, y) of the definition goes to row H-1-y, column W-1-x. */
    method SetMatrixUpsideDown()
      requires WellFormed(definition)
      modifies this
      ensures |currentMatrix| == |definition|
      ensures forall y, x :: 0 <= y < |definition| && 0 <= x < |definition[0]| ==>
        |currentMatrix[|definition| - 1 - y]| == |definition[0]| &&
        currentMatrix[|definition| - 1 - y][|definition[0]| - 1 - x] == definition[y][x]
      ensures View() == old(View()).(currentMatrix := Rotated(definition, Orientation.UpsideDown))
    {
      var H := |definition|;
      var W := |definition[0]|;
      var matrix: Definition := [];
      for k := 0 to H
        invariant |matrix| == k && forall i :: 0 <= i < k ==> matrix[i] == seq(W, _ => Blank)
      {
        matrix := matrix + [seq(W, _ => Blank)];
      }
      for y := 0 to H
        invariant |matrix| == H && forall i :: 0 <= i < H ==> |matrix[i]| == W
        invariant forall i, j {:trigger matrix[i][j]} :: 0 <= i < H && 0 <= j < W ==>
          matrix[i][j] == if H - 1 - i < y then definition[H - 1 - i][W - 1 - j] else Blank
      {
        for x := 0 to W
          invariant |matrix| == H && forall i :: 0 <= i < H ==> |matrix[i]| == W
          invariant forall i, j {:trigger matrix[i][j]} :: 0 <= i < H && 0 <= j < W ==>
            matrix[i][j] == if H - 1 - i < y || (H - 1 - i == y && W - 1 - j < x)
                            then definition[H - 1 - i][W - 1 - j] else Blank
        {
          matrix := matrix[H - 1 - y := matrix[H - 1 - y][W - 1 - x := definition[y][x]]];
        }
      }
      SameMatrix(matrix, Rotated(definition, Orientation.UpsideDown));
      currentMatrix := matrix;
    }

    /** `set_matrix_backwards`: cell (x, y) of the definition goes to row W-1-x, column y. */
    method SetMatrixBackwards()
      requires WellFormed(definition)
      modifies this
      ensures |currentMatrix| == |definition[0]|
      ensures forall y, x :: 0 <= y < |definition| && 0 <= x < |definition[0]| ==>
        |currentMatrix[|definition[0]| - 1 - x]| == |definition| &&
        currentMatrix[|definition[0]| - 1 - x][y] == definition[y][x]
      ensures View() == old(View()).(currentMatrix := Rotated(definition, Orientation.Backwards))
    {
      var H := |definition|;
      var W := |definition[0]|;
      var matrix: Definition := seq(W, _ => seq(H, _ => Blank));
      for y := 0 to H
        invariant |matrix| == W && forall i :: 0 <= i < W ==> |matrix[i]| == H
        invariant forall i, j {:trigger matrix[i][j]} :: 0 <= i < W && 0 <= j < H ==>
          matrix[i][j] == if j < y then definition[j][W - 1 - i] else Blank
      {
        for x := 0 to W
          invariant |matrix| == W && forall i :: 0 <= i < W ==> |matrix[i]| == H
          invariant forall i, j {:trigger matrix[i][j]} :: 0 <= i < W && 0 <= j < H ==>
            matrix[i][j] == if j < y || (j == y && W - 1 - i < x) then definition[j][W - 1 - i] else Blank
        {
          matrix := matrix[W - 1 - x := matrix[W - 1 - x][y := definition[y][x]]];
        }
      }
      SameMatrix(matrix, Rotated(definition, Orientation.Backwards));
      currentMatrix := matrix;
    }

    /** `place_in_matrix`: write the colourised non-blank cells at anchor + offset; returns the updated grid. */
    method PlaceInMatrix(grid: Grid) returns (r: Grid)
      requires PlaceFits(View(), grid)
      ensures r == Placed(View(), grid)
    {
      r := PlaceView(View(), grid);
    }

    /** `remove_from_matrix`: set every cell of the matrix's footprint to `Empty`; returns the updated grid. */
    method RemoveFromMatrix(grid: Grid) returns (r: Grid)
      requires RemoveFits(View(), grid)
      ensures r == Removed(View(), grid)
    {
      r := RemoveView(View(), grid);
    }
  }

  /** The loops of `place_in_matrix`, on the piece's view. */
  method PlaceView(v: PieceView, grid: Grid) returns (r: Grid)
    requires PlaceFits(v, grid)
    ensures r == Placed(v, grid)
  {
    var a := FindOriginForZeroBlock(v, None);
    var m := v.currentMatrix;
    var color := v.color;
    r := grid;
    for y := 0 to |m|
      invariant PlacedUpTo(m, a, color, grid, r, Point(0, y))
    {
      for x := 0 to |m[y]|
        invariant PlacedUpTo(m, a, color, grid, r, Point(x, y))
      {
        PlaceStep(m, a, color, grid, r, x, y);
        if !m[y][x].Blank? {
          r := r[a.y + y := r[a.y + y][a.x + x := ColorizeBlockEraseOrigin(m[y][x], color)]];
        }
      }
      PlaceRowDone(m, a, color, grid, r, y);
    }
    PlacedIs(v, grid, r);
  }

  /** `r` is `g` with the matrix cells before `done` (in row-major order) placed. */
  ghost predicate PlacedUpTo(m: Definition, a: Point, color: BlockColor, g: Grid, r: Grid, done: Point) {
    && |r| == |g| && (forall gy :: 0 <= gy < |g| ==> |r[gy]| == |g[gy]|)
    && forall gy, gx {:trigger r[gy][gx]} :: InGrid(g, gx, gy) ==> r[gy][gx] == PlacedBefore(m, a, color, g, gx, gy, done)
  }

  /** Placing cell (x, y) of the matrix moves the placed prefix one cell on. */
  lemma PlaceStep(m: Definition, a: Point, color: BlockColor, g: Grid, r: Grid, x: nat, y: nat)
    requires y < |m| && x < |m[y]|
    requires PlacedUpTo(m, a, color, g, r, Point(x, y))
    requires !m[y][x].Blank? ==> InGrid(g, a.x + x, a.y + y)
    ensures !m[y][x].Blank? ==>
      PlacedUpTo(m, a, color, g, r[a.y + y := r[a.y + y][a.x + x := ColorizeBlockEraseOrigin(m[y][x], color)]], Point(x + 1, y))
    ensures m[y][x].Blank? ==> PlacedUpTo(m, a, color, g, r, Point(x + 1, y))
  {
    forall gy, gx | InGrid(g, gx, gy)
      ensures PlacedBefore(m, a, color, g, gx, gy, Point(x + 1, y)) ==
        if gy == a.y + y && gx == a.x + x then (if m[y][x].Blank? then g[gy][gx] else ColorizeBlockEraseOrigin(m[y][x], color))
        else PlacedBefore(m, a, color, g, gx, gy, Point(x, y))
    {
    }
  }

  /** A finished row of the matrix is the start of the next one. */
  lemma PlaceRowDone(m: Definition, a: Point, color: BlockColor, g: Grid, r: Grid, y: nat)
    requires y < |m|
    requires PlacedUpTo(m, a, color, g, r, Point(|m[y]|, y))
    ensures PlacedUpTo(m, a, color, g, r, Point(0, y + 1))
  {
    forall gy, gx | InGrid(g, gx, gy)
      ensures PlacedBefore(m, a, color, g, gx, gy, Point(0, y + 1)) == PlacedBefore(m, a, color, g, gx, gy, Point(|m[y]|, y))
    {
    }
  }

  /** The loops of `remove_from_matrix`, on the piece's view. */
  method RemoveView(v: PieceView, grid: Grid) returns (r: Grid)
    requires RemoveFits(v, grid)
    ensures r == Removed(v, grid)
  {
    var a := FindOriginForZeroBlock(v, None);
    var m := v.currentMatrix;
    r := grid;
    for y := 0 to |m|
      invariant |r| == |grid| && forall gy :: 0 <= gy < |grid| ==> |r[gy]| == |grid[gy]|
      invariant forall gy, gx {:trigger r[gy][gx]} :: InGrid(grid, gx, gy) ==>
        r[gy][gx] == RemovedBefore(m, a, grid, gx, gy, Point(0, y))
    {
      for x := 0 to |m[y]|
        invariant |r| == |grid| && forall gy :: 0 <= gy < |grid| ==> |r[gy]| == |grid[gy]|
        invariant forall gy, gx {:trigger r[gy][gx]} :: InGrid(grid, gx, gy) ==>
          r[gy][gx] == RemovedBefore(m, a, grid, gx, gy, Point(x, y))
      {
        r := r[a.y + y := r[a.y + y][a.x + x := Empty]];
      }
    }
    RemovedIs(v, grid, r);
  }

  /** Cell (gx, gy) once the matrix cells before `done` in row-major order have been placed. */
  function PlacedBefore(m: Definition, a: Point, color: BlockColor, g: Grid, gx: int, gy: int, done: Point): GameBlock
    requires InGrid(g, gx, gy)
  {
    if Covers(m, a, gy, gx) && RowMajorLt(Point(gx - a.x, gy - a.y), done) && !m[gy - a.y][gx - a.x].Blank?
    then ColorizeBlockEraseOrigin(m[gy - a.y][gx - a.x], color)
    else g[gy][gx]
  }

  /** Cell (gx, gy) once the matrix cells before `done` in row-major order have been erased. */
  function RemovedBefore(m: Definition, a: Point, g: Grid, gx: int, gy: int, done: Point): GameBlock
    requires InGrid(g, gx, gy)
  {
    if Covers(m, a, gy, gx) && RowMajorLt(Point(gx - a.x, gy - a.y), done) then Empty else g[gy][gx]
  }

  /** Two matrices with the same shape and the same cells are equal. */
  lemma SameMatrix<T>(a: seq<seq<T>>, b: seq<seq<T>>)
    requires |a| == |b| && forall i :: 0 <= i < |a| ==> |a[i]| == |b[i]|
    requires forall i, j :: 0 <= i < |a| && 0 <= j < |a[i]| ==> a[i][j] == b[i][j]
    ensures a == b
  {
    forall i | 0 <= i < |a| ensures a[i] == b[i] {
      assert |a[i]| == |b[i]|;
    }
  }

  /** A grid that agrees with `Placed` cell by cell is `Placed`. */
  lemma PlacedIs(v: PieceView, g: Grid, r: Grid)
    requires |r| == |g| && forall gy :: 0 <= gy < |g| ==> |r[gy]| == |g[gy]|
    requires forall gy, gx :: InGrid(g, gx, gy) ==> r[gy][gx] == Placed(v, g)[gy][gx]
    ensures r == Placed(v, g)
  {
    var p := Placed(v, g);
    forall gy | 0 <= gy < |g| ensures r[gy] == p[gy] {
      assert |r[gy]| == |p[gy]|;
      forall gx | 0 <= gx < |g[gy]| ensures r[gy][gx] == p[gy][gx] {
        assert InGrid(g, gx, gy);
      }
    }
  }

  /** A grid that agrees with `Removed` cell by cell is `Removed`. */
  lemma RemovedIs(v: PieceView, g: Grid, r: Grid)
    requires |r| == |g| && forall gy :: 0 <= gy < |g| ==> |r[gy]| == |g[gy]|
    requires forall gy, gx :: InGrid(g, gx, gy) ==> r[gy][gx] == Removed(v, g)[gy][gx]
    ensures r == Removed(v, g)
  {
    var p := Removed(v, g);
    forall gy | 0 <= gy < |g| ensures r[gy] == p[gy] {
      assert |r[gy]| == |p[gy]|;
      forall gx | 0 <= gx < |g[gy]| ensures r[gy][gx] == p[gy][gx] {
        assert InGrid(g, gx, gy);
      }
    }
  }
}
