/**
 * The game master as values: the playfield construction, point-set collision, moves with
 * rollback, freezing, the completed-row scan, row clearance, scoring and speed, the piece
 * bucket, and one step of the game loop as a function of the state, the tick, the next
 * UI message and the random draws.
 *
 * `GameMaster` (in game_loop_controller.dfy) holds the same state in fields, and each of
 * its methods is specified by the function here of the same name.
 */
module GameSpec {
  import opened Wrappers
  import opened Tootris
  import opened PieceTypes
  import opened Pieces

  const TickBaseMs: nat := 4
  const BucketMaxSize: nat := 20
  const BucketMinimumSize: nat := 3
  const MaxSpeed: nat := 99

  // ---------------------------------------------------------------------------
  // Injected randomness
  // ---------------------------------------------------------------------------

  /** What `gen_range(0..=6)` can return. */
  type ShapeIndex = n: nat | n <= 6

  /** What `gen_range(0..=5)` can return. */
  type ColorIndex = n: nat | n <= 5

  /** The two random numbers drawn for one new piece. */
  datatype Draw = Draw(shape: ShapeIndex, color: ColorIndex)

  /** `random_color`. */
  function RandomColor(n: ColorIndex): (c: BlockColor)
    ensures c != Undefined
  {
    if n == 0 then Blue
    else if n == 1 then Green
    else if n == 2 then Cyan
    else if n == 3 then White
    else if n == 4 then Magenta
    else Yellow
  }

  /** The number that draws colour `c`: the inverse of `RandomColor`. */
  function ColorNumber(c: BlockColor): ColorIndex
    requires c != Undefined
  {
    match c
    case Blue => 0
    case Green => 1
    case Cyan => 2
    case White => 3
    case Magenta => 4
    case Yellow => 5
  }

  /** Every colour but `Undefined` is drawn by exactly one number. */
  lemma RandomColorIsBijective()
    ensures forall n: ColorIndex :: ColorNumber(RandomColor(n)) == n
    ensures forall c: BlockColor :: c != Undefined ==> RandomColor(ColorNumber(c)) == c
  {
  }

  /**
   * `random_piece_type`: the tetromino numbered `n` (line, square, podium, L, J, S, Z), never
   * the banner. The tables are named directly; `RandomPieceTypeInCatalog` shows each is the
   * catalog entry `get_piece_def` returns for that name.
   */
  function RandomPieceType(n: ShapeIndex): (d: PieceDefinition)
    ensures WellFormed(d.def) && CountNonBlank(d.def) == 4 && d.def != GameOver
    ensures d.prop == FreeSpin <==> n == 2
  {
    if n == 0 then LineCounts(); PieceDefinition(Line, PieceFreezeProperty.Normal)
    else if n == 1 then SquareCounts(); PieceDefinition(Square, PieceFreezeProperty.Normal)
    else if n == 2 then PodiumCounts(); PieceDefinition(Podium, FreeSpin)
    else if n == 3 then LPieceCounts(); PieceDefinition(LPiece, PieceFreezeProperty.Normal)
    else if n == 4 then JPieceCounts(); PieceDefinition(JPiece, PieceFreezeProperty.Normal)
    else if n == 5 then SPieceCounts(); PieceDefinition(SPiece, PieceFreezeProperty.Normal)
    else ZPieceCounts(); PieceDefinition(ZPiece, PieceFreezeProperty.Normal)
  }

  /** The piece drawn for `n` is the catalog entry registered under the `n`-th tetromino name. */
  lemma RandomPieceTypeInCatalog(n: ShapeIndex)
    ensures Tetrominoes[n] in PieceMap() && RandomPieceType(n) == GetPieceDef(Tetrominoes[n])
  {
    var m := PieceMap();
    if n == 0 { assert Tetrominoes[n] == PieceLine; }
    else if n == 1 { assert Tetrominoes[n] == PieceSquare; }
    else if n == 2 { assert Tetrominoes[n] == PiecePodium; }
    else if n == 3 { assert Tetrominoes[n] == PieceL; }
    else if n == 4 { assert Tetrominoes[n] == PieceJ; }
    else if n == 5 { assert Tetrominoes[n] == PieceS; }
    else { assert Tetrominoes[n] == PieceZ; }
  }

  // ---------------------------------------------------------------------------
  // The playfield
  // ---------------------------------------------------------------------------

  /** A playfield the game can run on: at least one row, rectangular, at least two columns. */
  predicate LevelShape(level: Grid) {
    |level| >= 1 && |level[0]| >= 2 && Rectangular(level)
  }

  /** `level[0].len()`. */
  function Width(level: Grid): nat
    requires |level| >= 1
  {
    |level[0]|
  }

  /**
   * The row `create_empty_row(x)` builds: a border cell, `x - 2` empty cells, a border
   * cell. For `x == 1` the middle loop is empty and the row still has two cells.
   */
  function BorderedRow(x: nat): (r: seq<GameBlock>)
    ensures |r| == if x >= 2 then x else 2
  {
    [Indestructible] + seq(if x >= 2 then x - 2 else 0, _ => Empty) + [Indestructible]
  }

  /** A bordered row is empty everywhere but its two ends. */
  lemma BorderedRowCells(x: nat)
    ensures var r := BorderedRow(x);
      r[0] == Indestructible && r[|r| - 1] == Indestructible &&
      forall i :: 0 < i < |r| - 1 ==> r[i] == Empty
  {
  }

  /** `create_level(x, y)`: `y` bordered rows of width `x`. */
  function CreateLevel(x: nat, y: nat): (level: Grid)
    ensures |level| == y && forall i :: 0 <= i < y ==> level[i] == BorderedRow(x)
  {
    seq(y, _ => BorderedRow(x))
  }

  /**
   * The grid `create_level_boundaries` leaves: each cell of the bottom row, of the first
   * column and of the last column is a border, every other cell is empty.
   */
  function Boundaries(g: Grid): (r: Grid)
    ensures |r| == |g| && forall y :: 0 <= y < |g| ==> |r[y]| == |g[y]|
  {
    seq(|g|, y requires 0 <= y < |g| => seq(|g[y]|, x requires 0 <= x < |g[y]| =>
      if y == |g| - 1 || x == 0 || x == |g[y]| - 1 then Indestructible else Empty))
  }

  /** The playfield a game of `height` rows and `width` columns starts with. */
  function FreshLevel(width: nat, height: nat): Grid {
    Boundaries(CreateLevel(width, height))
  }

  /**
   * A fresh playfield: `height` rows of `max(width, 2)` cells, the bottom row and the two
   * outer columns border, everything else empty; every row above the bottom is exactly
   * the row `create_empty_row` builds.
   */
  lemma {:induction false} FreshLevelShape(width: nat, height: nat, level: Grid)
    requires height >= 1 && level == FreshLevel(width, height)
    ensures
      && LevelShape(level)
      && |level| == height && Width(level) == |BorderedRow(width)|
      && (forall y, x :: 0 <= y < height && 0 <= x < Width(level) ==>
            (level[y][x] == Indestructible <==> y == height - 1 || x == 0 || x == Width(level) - 1) &&
            (level[y][x] == Indestructible || level[y][x] == Empty))
      && (forall y :: 0 <= y < height - 1 ==> level[y] == BorderedRow(width))
  {
    var w := |BorderedRow(width)|;
    forall y | 0 <= y < height - 1 ensures level[y] == BorderedRow(width) {
      BorderedRowCells(width);
      assert |level[y]| == w;
      forall x | 0 <= x < w ensures level[y][x] == BorderedRow(width)[x] {
      }
    }
  }

  // ---------------------------------------------------------------------------
  // Collision
  // ---------------------------------------------------------------------------

  /**
   * `is_point_colliding` for one point: below the bottom, right of the last column, or on
   * a cell that is not empty. A negative coordinate stands for an unsigned value that
   * wrapped around below zero, which is beyond every bound.
   */
  predicate PointColliding(level: Grid, p: Point)
    requires LevelShape(level)
  {
    p.y < 0 || p.y >= |level| || p.x < 0 || p.x >= Width(level) || !level[p.y][p.x].Empty?
  }

  /** `is_point_colliding`: does any of the points collide? */
  predicate Colliding(level: Grid, ps: seq<Point>)
    requires LevelShape(level)
  {
    exists i :: 0 <= i < |ps| && PointColliding(level, ps[i])
  }

  /** A set of points collides whenever one of its subsets does. */
  lemma CollidingSubset(level: Grid, small: seq<Point>, large: seq<Point>)
    requires LevelShape(level)
    requires forall p :: p in small ==> p in large
    ensures Colliding(level, small) ==> Colliding(level, large)
  {
    if Colliding(level, small) {
      var i :| 0 <= i < |small| && PointColliding(level, small[i]);
      assert small[i] in large;
      var j :| 0 <= j < |large| && large[j] == small[i];
    }
  }

  /** A piece whose points do not collide lies inside the playfield on empty cells. */
  lemma NotCollidingFits(level: Grid, v: PieceView)
    requires LevelShape(level)
    requires !Colliding(level, Points(v, None))
    ensures PlaceFits(v, level)
    ensures forall p :: p in Points(v, None) ==> InGrid(level, p.x, p.y) && level[p.y][p.x].Empty?
  {
    var m: Definition := v.currentMatrix;
    var a := FindOriginForZeroBlock(v, None);
    var ps := Points(v, None);
    forall p | p in ps ensures InGrid(level, p.x, p.y) && level[p.y][p.x].Empty? {
      var i :| 0 <= i < |ps| && ps[i] == p;
      assert !PointColliding(level, ps[i]);
    }
    forall y, x | 0 <= y < |m| && 0 <= x < |m[y]| && !m[y][x].Blank?
      ensures InGrid(level, a.x + x, a.y + y)
    {
      assert Shift(a, x, y) in ps;
    }
  }

  /**
   * A piece whose x boundaries do not collide lies inside the playfield: every occupied
   * cell sits between the two boundary points of its row.
   */
  lemma XBoundariesFit(level: Grid, v: PieceView)
    requires LevelShape(level)
    requires !Colliding(level, FindXBoundaries(v, None))
    ensures PlaceFits(v, level)
  {
    var m: Definition := v.currentMatrix;
    var a := FindOriginForZeroBlock(v, None);
    var xb := FindXBoundaries(v, None);
    forall y, x | 0 <= y < |m| && 0 <= x < |m[y]| && !m[y][x].Blank?
      ensures InGrid(level, a.x + x, a.y + y)
    {
      var rb := RowXBoundaries(m[y], a, y);
      assert |rb| == 2;
      assert rb[0] in xb && rb[1] in xb;
      var i :| 0 <= i < |xb| && xb[i] == rb[0];
      var j :| 0 <= j < |xb| && xb[j] == rb[1];
      assert !PointColliding(level, xb[i]) && !PointColliding(level, xb[j]);
    }
  }

  // ---------------------------------------------------------------------------
  // Game state
  // ---------------------------------------------------------------------------

  /** The fields of the game master the engine logic reads and writes. */
  datatype Game = Game(
    level: Grid,
    completedRows: seq<nat>,
    active: Option<PieceView>,
    speed: nat,
    score: nat,
    bucket: seq<PieceView>,
    state: GameState)

  /** The result of an operation that reports success. */
  datatype Outcome = Outcome(game: Game, ok: bool)

  /** Indices strictly increasing and below `n`. */
  predicate IncreasingBelow(rows: seq<nat>, n: nat) {
    (forall i :: 0 <= i < |rows| ==> rows[i] < n) &&
    (forall i, j :: 0 <= i < j < |rows| ==> rows[i] < rows[j])
  }

  /**
   * The invariant the game loop keeps: a well-shaped playfield, pieces whose matrix matches
   * their orientation, an active piece that fits the playfield, a speed of at most 99,
   * completed rows recorded exactly in the Tootris state (in order, in range, with no
   * active piece).
   */
  predicate ValidGame(g: Game) {
    && LevelShape(g.level)
    && (g.active.Some? ==> Consistent(g.active.value) && PlaceFits(g.active.value, g.level))
    && (forall i :: 0 <= i < |g.bucket| ==> Consistent(g.bucket[i]))
    && g.speed <= MaxSpeed
    && (g.state == Tootris <==> g.completedRows != [])
    && (g.state == Tootris ==> g.active.None? && IncreasingBelow(g.completedRows, |g.level|))
  }

  // ---------------------------------------------------------------------------
  // Moves
  // ---------------------------------------------------------------------------

  /**
   * Try a new view of the active piece: keep it if its points do not collide, otherwise
   * keep `rolledBack`, the view its rollback gives.
   */
  function TryView(g: Game, moved: PieceView, rolledBack: PieceView): (r: Outcome)
    requires LevelShape(g.level)
    ensures r.ok <==> !Colliding(g.level, Points(moved, None))
    ensures r.game == g.(active := Some(if r.ok then moved else rolledBack))
  {
    if Colliding(g.level, Points(moved, None)) then Outcome(g.(active := Some(rolledBack)), false)
    else Outcome(g.(active := Some(moved)), true)
  }

  /**
   * `vertical_move(1)`: one row down, rolled back on collision; with no piece, success and no change.
   * Only the piece's location and remembered location can change.
   */
  function VerticalMove(g: Game): (r: Outcome)
    requires LevelShape(g.level)
    ensures g.active.None? ==> r == Outcome(g, true)
    ensures g.active.Some? ==> r.game.active.Some? && r.game.(active := g.active) == g
    ensures g.active.Some? ==>
      var v := g.active.value;
      var down := MoveToView(v, Point(v.location.x, v.location.y + 1));
      (r.ok <==> !Colliding(g.level, Points(down, None))) &&
      r.game.active.value.location == (if r.ok then down.location else v.location)
    ensures g.active.Some? ==>
      var v := g.active.value;
      var w := r.game.active.value;
      w.rollbackLocation == v.location && w.(location := v.location, rollbackLocation := v.rollbackLocation) == v
  {
    match g.active
    case None => Outcome(g, true)
    case Some(v) =>
      var down := MoveToView(v, Point(v.location.x, v.location.y + 1));
      TryView(g, down, RollbackMoveView(down))
  }

  /** `horizontal_move(1, reverse)`: one column left when `reverse`, right otherwise, rolled back on collision. */
  function HorizontalMove(g: Game, reverse: bool): (r: Outcome)
    requires LevelShape(g.level)
    ensures g.active.None? ==> r == Outcome(g, true)
    ensures g.active.Some? ==> r.game.active.Some? && r.game.(active := g.active) == g
    ensures g.active.Some? ==>
      var v := g.active.value;
      var side := MoveToView(v, Point(if reverse then v.location.x - 1 else v.location.x + 1, v.location.y));
      (r.ok <==> !Colliding(g.level, Points(side, None))) &&
      r.game.active.value.location == (if r.ok then side.location else v.location)
    ensures g.active.Some? ==>
      var v := g.active.value;
      var w := r.game.active.value;
      w.rollbackLocation == v.location && w.(location := v.location, rollbackLocation := v.rollbackLocation) == v
  {
    match g.active
    case None => Outcome(g, true)
    case Some(v) =>
      var side := MoveToView(v, Point(if reverse then v.location.x - 1 else v.location.x + 1, v.location.y));
      TryView(g, side, RollbackMoveView(side))
  }

  /**
   * `rotate_active_piece(rot)`: turn, rolled back on collision. Only the orientation, the remembered
   * orientation and the matrix can change, and the matrix always matches the orientation.
   */
  function RotateActivePiece(g: Game, rot: Rotation): (r: Outcome)
    requires LevelShape(g.level)
    requires g.active.Some? ==> Consistent(g.active.value)
    ensures g.active.None? ==> r == Outcome(g, true)
    ensures g.active.Some? ==> r.game.active.Some? && r.game.(active := g.active) == g
    ensures g.active.Some? ==>
      var v := g.active.value;
      (r.ok <==> !Colliding(g.level, Points(RotateView(v, rot), None))) &&
      r.game.active.value.orientation == (if r.ok then Perform(rot, v.orientation) else v.orientation) &&
      (!r.ok ==> r.game.active.value.currentMatrix == v.currentMatrix)
    ensures g.active.Some? ==>
      var v := g.active.value;
      var w := r.game.active.value;
      && w.location == v.location && w.rollbackLocation == v.rollbackLocation
      && w.rollbackOrientation == v.orientation
      && w.currentMatrix == Rotated(v.definition, w.orientation)
      && w.(orientation := v.orientation, rollbackOrientation := v.rollbackOrientation, currentMatrix := v.currentMatrix) == v
  {
    match g.active
    case None => Outcome(g, true)
    case Some(v) =>
      var turned := RotateView(v, rot);
      TryView(g, turned, RollbackRotationView(turned))
  }

  /** Whether a view fits depends only on its current matrix and its location. */
  lemma SameShapeFits(v: PieceView, w: PieceView, level: Grid)
    requires v.currentMatrix == w.currentMatrix && v.location == w.location
    requires PlaceFits(w, level)
    ensures PlaceFits(v, level)
  {
    assert FindOriginForZeroBlock(v, None) == FindOriginForZeroBlock(w, None);
  }

  /** A step down keeps the game valid: a kept view does not collide, a rolled-back one is the old place. */
  lemma VerticalMovePreservesValid(g: Game)
    requires ValidGame(g)
    ensures ValidGame(VerticalMove(g).game)
  {
    if g.active.Some? {
      var w := g.active.value;
      var down := MoveToView(w, Point(w.location.x, w.location.y + 1));
      var r := VerticalMove(g);
      if r.ok {
        NotCollidingFits(g.level, down);
      } else {
        MoveThenRollback(w, down.location);
        SameShapeFits(r.game.active.value, w, g.level);
      }
    }
  }

  /** A step sideways keeps the game valid. */
  lemma HorizontalMovePreservesValid(g: Game, reverse: bool)
    requires ValidGame(g)
    ensures ValidGame(HorizontalMove(g, reverse).game)
  {
    if g.active.Some? {
      var w := g.active.value;
      var side := MoveToView(w, Point(if reverse then w.location.x - 1 else w.location.x + 1, w.location.y));
      var r := HorizontalMove(g, reverse);
      if r.ok {
        NotCollidingFits(g.level, side);
      } else {
        MoveThenRollback(w, side.location);
        SameShapeFits(r.game.active.value, w, g.level);
      }
    }
  }

  /** A turn keeps the game valid: a rolled-back turn restores the old matrix. */
  lemma RotatePreservesValid(g: Game, rot: Rotation)
    requires ValidGame(g)
    ensures ValidGame(RotateActivePiece(g, rot).game)
  {
    if g.active.Some? {
      var w := g.active.value;
      var r := RotateActivePiece(g, rot);
      if r.ok {
        NotCollidingFits(g.level, RotateView(w, rot));
      } else {
        RotateThenRollback(w, rot);
        SameShapeFits(r.game.active.value, w, g.level);
      }
    }
  }

  /** `advance_active_piece`: `vertical_move(1)`, but failure when there is no active piece. */
  function AdvanceActivePiece(g: Game): (r: Outcome)
    requires LevelShape(g.level)
    ensures g.active.None? ==> r == Outcome(g, false)
    ensures g.active.Some? ==> r == VerticalMove(g)
  {
    if g.active.None? then Outcome(g, false) else VerticalMove(g)
  }

  /** `process_move`: the four moves the engine handles; every other move fails and changes nothing. */
  function ProcessMove(g: Game, mv: PlayerMove): (r: Outcome)
    requires LevelShape(g.level)
    requires g.active.Some? ==> Consistent(g.active.value)
    ensures !(mv.RotateForward? || mv.StepLeft? || mv.StepRight? || mv.StepDown?) ==> r == Outcome(g, false)
    ensures r.game.(active := g.active) == g
  {
    match mv
    case RotateForward => RotateActivePiece(g, Rotation.Forward)
    case StepLeft => HorizontalMove(g, true)
    case StepRight => HorizontalMove(g, false)
    case StepDown => VerticalMove(g)
    case _ => Outcome(g, false)
  }

  /** A move keeps the game valid. */
  lemma ProcessMovePreservesValid(g: Game, mv: PlayerMove)
    requires ValidGame(g)
    ensures ValidGame(ProcessMove(g, mv).game)
  {
    match mv
    case RotateForward => RotatePreservesValid(g, Rotation.Forward);
    case StepLeft => HorizontalMovePreservesValid(g, true);
    case StepRight => HorizontalMovePreservesValid(g, false);
    case StepDown => VerticalMovePreservesValid(g);
    case _ =>
  }

  // ---------------------------------------------------------------------------
  // Freezing and completed rows
  // ---------------------------------------------------------------------------

  /** Number of border cells among the first `k` cells of a row: none exactly when none of them is a border, all exactly when all are. */
  function BorderCount(row: seq<GameBlock>, k: nat): (n: nat)
    requires k <= |row|
    ensures n <= k
    ensures n == 0 <==> forall i :: 0 <= i < k ==> !row[i].Indestructible?
    ensures n == k <==> forall i :: 0 <= i < k ==> row[i].Indestructible?
  {
    if k == 0 then 0 else BorderCount(row, k - 1) + (if row[k - 1].Indestructible? then 1 else 0)
  }

  /** Counting more cells never finds fewer borders. */
  lemma {:induction false} BorderCountMonotone(row: seq<GameBlock>, j: nat, k: nat)
    requires j <= k <= |row|
    decreases k - j
    ensures BorderCount(row, j) <= BorderCount(row, k)
  {
    if j < k {
      BorderCountMonotone(row, j, k - 1);
    }
  }

  /**
   * A completed row: every cell is a block or a border, and there are exactly two
   * borders (so the bottom row of a playfield wider than two is never complete).
   */
  predicate RowComplete(row: seq<GameBlock>) {
    (forall i :: 0 <= i < |row| ==> row[i].Filled? || row[i].Indestructible?) &&
    BorderCount(row, |row|) == 2
  }

  /** The indices of the completed rows among the first `k`, in ascending order. */
  function CompletedRowsUpTo(level: Grid, k: nat): (rows: seq<nat>)
    requires k <= |level|
    ensures forall i: nat :: i in rows <==> i < k && RowComplete(level[i])
    ensures IncreasingBelow(rows, k)
  {
    if k == 0 then []
    else CompletedRowsUpTo(level, k - 1) + (if RowComplete(level[k - 1]) then [k - 1] else [])
  }

  /** What `find_completed_rows` appends: the indices of the completed rows, ascending. */
  function CompletedRows(level: Grid): (rows: seq<nat>)
    ensures forall i: nat :: i in rows <==> i < |level| && RowComplete(level[i])
    ensures IncreasingBelow(rows, |level|)
  {
    CompletedRowsUpTo(level, |level|)
  }

  /**
   * `freeze_active_piece`: write the piece into the playfield, drop it, scan for completed
   * rows. Score, speed, bucket and state are untouched.
   */
  function FreezeActivePiece(g: Game): (r: Game)
    requires g.active.Some?
    ensures r.active.None? && |r.level| == |g.level|
    ensures r.level == Placed(g.active.value, g.level)
    ensures r.completedRows == g.completedRows + CompletedRows(r.level)
    ensures r.(level := g.level, active := g.active, completedRows := g.completedRows) == g
  {
    var level := Placed(g.active.value, g.level);
    g.(level := level, active := None, completedRows := g.completedRows + CompletedRows(level))
  }

  // ---------------------------------------------------------------------------
  // Row clearance, score and speed
  // ---------------------------------------------------------------------------

  /** The rows among the first `k` of `level` whose index is not in `rows`, in order. */
  function KeptRows(level: Grid, rows: seq<nat>, k: nat): (r: Grid)
    requires k <= |level|
    ensures forall row :: row in r ==> exists i :: 0 <= i < k && i !in rows && level[i] == row
  {
    if k == 0 then []
    else KeptRows(level, rows, k - 1) + (if k - 1 in rows then [] else [level[k - 1]])
  }

  /** Number of indices below `k` that are in `rows`. */
  function Hits(rows: seq<nat>, k: nat): nat {
    if k == 0 then 0 else Hits(rows, k - 1) + (if k - 1 in rows then 1 else 0)
  }

  /** At most `k` indices lie below `k`, and the count grows with `k`. */
  lemma {:induction false} HitsBound(rows: seq<nat>, j: nat, k: nat)
    requires j <= k
    decreases k - j, k
    ensures Hits(rows, j) <= Hits(rows, k) <= k
  {
    if j < k {
      HitsBound(rows, j, k - 1);
    } else if k > 0 {
      HitsBound(rows, k - 1, k - 1);
    }
  }

  /**
   * The kept rows keep their order: a row `i` that is not cleared lands at position
   * `i` minus the number of cleared rows above it.
   */
  lemma KeptRowsInOrder(level: Grid, rows: seq<nat>, k: nat)
    requires k <= |level|
    ensures forall i :: 0 <= i < k && i !in rows ==>
      0 <= i - Hits(rows, i) < |KeptRows(level, rows, k)| && KeptRows(level, rows, k)[i - Hits(rows, i)] == level[i]
  {
    forall i | 0 <= i < k && i !in rows
      ensures 0 <= i - Hits(rows, i) < |KeptRows(level, rows, k)| && KeptRows(level, rows, k)[i - Hits(rows, i)] == level[i]
    {
      KeptRowAt(level, rows, k, i);
    }
  }

  /** One kept row `i` sits at position `i - Hits(rows, i)` of the rows kept among the first `k`. */
  lemma {:induction false} KeptRowAt(level: Grid, rows: seq<nat>, k: nat, i: nat)
    requires i < k <= |level| && i !in rows
    ensures i - Hits(rows, i) == |KeptRows(level, rows, i + 1)| - 1
    ensures 0 <= i - Hits(rows, i) < |KeptRows(level, rows, k)| && KeptRows(level, rows, k)[i - Hits(rows, i)] == level[i]
  {
    HitsBound(rows, i, i);
    KeptPlusHits(level, rows, i);
    if k == i + 1 {
      assert KeptRows(level, rows, k) == KeptRows(level, rows, i) + [level[i]];
    } else {
      KeptRowAt(level, rows, k - 1, i);
      var prev := KeptRows(level, rows, k - 1);
      assert KeptRows(level, rows, k) == prev + (if k - 1 in rows then [] else [level[k - 1]]);
    }
  }

  /** Each index below `k` is kept or hit. */
  lemma {:induction false} KeptPlusHits(level: Grid, rows: seq<nat>, k: nat)
    requires k <= |level|
    ensures |KeptRows(level, rows, k)| + Hits(rows, k) == k
  {
    if k > 0 {
      KeptPlusHits(level, rows, k - 1);
    }
  }

  /** Appending an index that is not yet present adds one hit when it is below `k`. */
  lemma {:induction false} HitsSnoc(rows: seq<nat>, x: nat, k: nat)
    requires x !in rows
    ensures Hits(rows + [x], k) == Hits(rows, k) + (if x < k then 1 else 0)
  {
    if k > 0 {
      HitsSnoc(rows, x, k - 1);
      assert (k - 1 in rows + [x]) <==> (k - 1 in rows || k - 1 == x);
    }
  }

  /** Distinct indices all below `n` are all hit. */
  lemma {:induction false} HitsOfIncreasing(rows: seq<nat>, n: nat)
    requires IncreasingBelow(rows, n)
    ensures Hits(rows, n) == |rows|
  {
    if |rows| == 0 {
      NoHits(rows, n);
    } else {
      var init := rows[..|rows| - 1];
      assert rows == init + [rows[|rows| - 1]];
      HitsOfIncreasing(init, n);
      HitsSnoc(init, rows[|rows| - 1], n);
    }
  }

  /** No index is hit in an empty sequence. */
  lemma {:induction false} NoHits(rows: seq<nat>, k: nat)
    requires rows == []
    ensures Hits(rows, k) == 0
  {
    if k > 0 {
      NoHits(rows, k - 1);
    }
  }

  /** Clearing distinct in-range rows keeps all the others: their number is the height minus the rows removed. */
  lemma KeptRowsCount(level: Grid, rows: seq<nat>)
    requires IncreasingBelow(rows, |level|)
    ensures |KeptRows(level, rows, |level|)| == |level| - |rows|
  {
    KeptPlusHits(level, rows, |level|);
    HitsOfIncreasing(rows, |level|);
  }

  /** The playfield after clearing `rows`: one fresh bordered row per cleared row on top, then the kept rows in order. */
  function Cleared(level: Grid, rows: seq<nat>): Grid
    requires |level| >= 1
  {
    seq(|rows|, _ => BorderedRow(Width(level))) + KeptRows(level, rows, |level|)
  }

  /** Clearing completed rows keeps the playfield's shape. */
  lemma ClearedShape(level: Grid, rows: seq<nat>)
    requires LevelShape(level) && IncreasingBelow(rows, |level|)
    ensures |Cleared(level, rows)| == |level|
    ensures LevelShape(Cleared(level, rows)) && Width(Cleared(level, rows)) == Width(level)
  {
    KeptRowsCount(level, rows);
    var c := Cleared(level, rows);
    forall y | 0 <= y < |c| ensures |c[y]| == Width(level) {
      if y >= |rows| {
        assert c[y] in KeptRows(level, rows, |level|);
      }
    }
  }

  /** The points a clearance of `n` rows scores on a playfield `w` cells wide. */
  function ScoreGain(n: nat, w: nat): (s: nat)
    ensures s == n * n * w
    ensures n >= 1 && w >= 1 ==> s >= w
  {
    (n * w) * n
  }

  /** The speed after clearing `n` rows: raised by `n`, but never above 99. */
  function SpeedAfter(speed: nat, n: nat): (r: nat)
    requires n <= MaxSpeed
    ensures r <= MaxSpeed
    ensures speed <= MaxSpeed ==> r == if speed + n < MaxSpeed then speed + n else MaxSpeed
  {
    if speed < MaxSpeed - n then speed + n else MaxSpeed
  }

  /** The tick interval in milliseconds at a given speed. */
  function TickInterval(speed: nat): (ms: int)
    requires speed <= MaxSpeed
    ensures ms >= TickBaseMs
  {
    (100 - speed) * TickBaseMs
  }

  /** `next_tick`: has the tick interval of the current speed elapsed? */
  predicate NextTick(speed: nat, elapsedMs: int)
    requires speed <= MaxSpeed
  {
    TickInterval(speed) <= elapsedMs
  }

  /** A faster game has a strictly shorter interval, so it ticks whenever a slower one would. */
  lemma FasterTicksSooner(slow: nat, fast: nat, elapsedMs: int)
    requires slow < fast <= MaxSpeed
    ensures TickInterval(fast) < TickInterval(slow)
    ensures NextTick(slow, elapsedMs) ==> NextTick(fast, elapsedMs)
  {
  }

  /** The Tootris tick: score, speed up, clear the completed rows, back to playing. */
  function TootrisTick(g: Game): (r: Game)
    requires |g.level| >= 1 && |g.completedRows| <= MaxSpeed
    ensures r.completedRows == [] && r.state == Playing
    ensures r.score == g.score + |g.completedRows| * |g.completedRows| * Width(g.level)
    ensures r.speed <= MaxSpeed
  {
    var n := |g.completedRows|;
    g.(score := g.score + ScoreGain(n, Width(g.level)),
       speed := SpeedAfter(g.speed, n),
       level := Cleared(g.level, g.completedRows),
       completedRows := [],
       state := Playing)
  }

  /** A Tootris tick on a valid game gives a valid game. */
  lemma TootrisTickPreservesValid(g: Game)
    requires ValidGame(g) && g.state == Tootris && |g.completedRows| <= MaxSpeed
    ensures ValidGame(TootrisTick(g))
  {
    ClearedShape(g.level, g.completedRows);
  }

  // ---------------------------------------------------------------------------
  // The piece bucket
  // ---------------------------------------------------------------------------

  /** A new piece of the drawn type and colour at the spawn point (middle column, row 1). */
  function SpawnView(d: Draw, width: nat): (v: PieceView)
    ensures Consistent(v) && v.location == Point(width / 2, 1)
    ensures v.orientation == Orientation.Normal && v.color != Undefined
  {
    var t := RandomPieceType(d.shape);
    NewView(t.def, t.prop, RandomColor(d.color), Point(width / 2, 1))
  }

  /** How many pieces `fill_piece_bucket` adds to a bucket of `n`. */
  function Missing(n: nat): nat {
    if n < BucketMaxSize then BucketMaxSize - n else 0
  }

  /** `fill_piece_bucket`: pieces drawn in order until the bucket holds 20. */
  function FillPieceBucket(bucket: seq<PieceView>, draws: seq<Draw>, width: nat): (r: seq<PieceView>)
    requires |draws| >= Missing(|bucket|)
    ensures |r| == if |bucket| < BucketMaxSize then BucketMaxSize else |bucket|
    ensures r[..|bucket|] == bucket
    ensures forall i :: |bucket| <= i < |r| ==> r[i] == SpawnView(draws[i - |bucket|], width)
    ensures (forall i :: 0 <= i < |bucket| ==> Consistent(bucket[i])) ==> forall i :: 0 <= i < |r| ==> Consistent(r[i])
  {
    bucket + seq(Missing(|bucket|), i requires 0 <= i < Missing(|bucket|) => SpawnView(draws[i], width))
  }

  /** The draws `next_piece` needs: enough for a refill when the bucket is below the minimum. */
  predicate EnoughDraws(bucket: seq<PieceView>, draws: seq<Draw>) {
    |bucket| < BucketMinimumSize ==> |draws| >= Missing(|bucket|)
  }

  /** The bucket `next_piece` draws from: refilled when it holds fewer than three pieces. */
  function Refilled(bucket: seq<PieceView>, draws: seq<Draw>, width: nat): (b: seq<PieceView>)
    requires EnoughDraws(bucket, draws)
    ensures |b| >= 1
    ensures (forall i :: 0 <= i < |bucket| ==> Consistent(bucket[i])) ==> forall i :: 0 <= i < |b| ==> Consistent(b[i])
  {
    if |bucket| < BucketMinimumSize then FillPieceBucket(bucket, draws, width) else bucket
  }

  /**
   * `next_piece`: refill a bucket below 3, take its last piece as the active piece, and
   * succeed iff neither its x nor its y boundaries collide (the y boundaries
   * being the corrected ones).
   */
  function NextPiece(g: Game, draws: seq<Draw>): (r: Outcome)
    requires LevelShape(g.level) && EnoughDraws(g.bucket, draws)
    requires forall i :: 0 <= i < |g.bucket| ==> Consistent(g.bucket[i])
    ensures var b := Refilled(g.bucket, draws, Width(g.level));
      r.game == g.(bucket := b[..|b| - 1], active := Some(b[|b| - 1]))
    ensures r.game.active.Some? && Consistent(r.game.active.value)
    ensures r.ok <==> (!Colliding(g.level, FindXBoundaries(r.game.active.value, None)) &&
                       !Colliding(g.level, FindYBoundaries(r.game.active.value, None)))
  {
    var b := Refilled(g.bucket, draws, Width(g.level));
    var p := b[|b| - 1];
    var ok := !Colliding(g.level, FindXBoundaries(p, None)) && !Colliding(g.level, FindYBoundaries(p, None));
    Outcome(g.(bucket := b[..|b| - 1], active := Some(p)), ok)
  }

  // ---------------------------------------------------------------------------
  // Lifecycle commands
  // ---------------------------------------------------------------------------

  /** `new_game`: score zero, no active piece, a fresh playfield of the same dimensions, back to Start. */
  function NewGame(g: Game): (r: Game)
    requires |g.level| >= 1
    ensures r.score == 0 && r.active.None? && r.state == Start
    ensures r.speed == g.speed && r.completedRows == g.completedRows && r.bucket == g.bucket
    ensures r.level == FreshLevel(Width(g.level), |g.level|)
  {
    g.(score := 0, active := None, level := FreshLevel(Width(g.level), |g.level|), state := Start)
  }

  /** A new game on a valid playfield has the same dimensions. */
  lemma NewGameKeepsDimensions(g: Game)
    requires LevelShape(g.level)
    ensures |NewGame(g).level| == |g.level| && Width(NewGame(g).level) == Width(g.level)
    ensures LevelShape(NewGame(g).level)
  {
    FreshLevelShape(Width(g.level), |g.level|, NewGame(g).level);
  }

  /** `pause_game`. */
  function PauseGame(g: Game): (r: Game)
    ensures r.state == Paused && r.(state := g.state) == g
  {
    g.(state := Paused)
  }

  /** `resume_game`. */
  function ResumeGame(g: Game): (r: Game)
    ensures r.state == Playing && r.(state := g.state) == g
  {
    g.(state := Playing)
  }

  /** `exit`. */
  function ExitGame(g: Game): (r: Game)
    ensures r.state == GameState.Exit && r.(state := g.state) == g
  {
    g.(state := GameState.Exit)
  }

  /**
   * `process_input_commands` with `msg` the result of one `try_recv` (`None` when nothing
   * was received or there is no listener). A command wins over a move in the same message
   * and always reports true; a message with neither reports false.
   */
  function ProcessInputCommands(g: Game, msg: Option<Ui2MasterCommunique>): (r: Outcome)
    requires LevelShape(g.level)
    requires g.active.Some? ==> Consistent(g.active.value)
    ensures msg.None? ==> r == Outcome(g, false)
    ensures msg.Some? && msg.value.IsCommand() ==> r.ok
    ensures msg.Some? && !msg.value.IsCommand() && !msg.value.IsPlayerMove() ==> r == Outcome(g, false)
    ensures msg.Some? && !msg.value.IsCommand() && msg.value.IsPlayerMove() ==>
      r == ProcessMove(g, msg.value.playerMove.value)
  {
    match msg
    case None => Outcome(g, false)
    case Some(c) =>
      if c.IsCommand() then
        match c.command.value
        case New => Outcome(NewGame(g), true)
        case Pause => Outcome(PauseGame(g), true)
        case Resume => Outcome(ResumeGame(g), true)
        case Exit => Outcome(ExitGame(g), true)
        case _ => Outcome(g, true)
      else if c.IsPlayerMove() then ProcessMove(g, c.playerMove.value)
      else Outcome(g, false)
  }

  /** The effect of each command, outside the Tootris state. */
  lemma CommandEffects(g: Game, c: Ui2MasterCommunique)
    requires ValidGame(g) && c.IsCommand()
    ensures var r := ProcessInputCommands(g, Some(c)).game;
      && (c.command.value.New? ==> r == NewGame(g))
      && (c.command.value.Pause? ==> r.state == Paused && r.(state := g.state) == g)
      && (c.command.value.Resume? ==> r.state == Playing && r.(state := g.state) == g)
      && (c.command.value.Exit? ==> r.state == GameState.Exit && r.(state := g.state) == g)
      && (c.command.value.RenderOffset? || c.command.value.Write? ==> r == g)
  {
  }

  /** Outside the Tootris state, handling a message keeps the game valid. */
  lemma ProcessInputPreservesValid(g: Game, msg: Option<Ui2MasterCommunique>)
    requires ValidGame(g) && g.state != Tootris
    ensures ValidGame(ProcessInputCommands(g, msg).game)
    ensures ProcessInputCommands(g, msg).game.state != Tootris
  {
    match msg
    case None =>
    case Some(c) =>
      if c.IsCommand() {
        if c.command.value.New? {
          NewGameKeepsDimensions(g);
        }
      } else if c.IsPlayerMove() {
        ProcessMovePreservesValid(g, c.playerMove.value);
      }
  }

  // ---------------------------------------------------------------------------
  // One step of the game loop
  // ---------------------------------------------------------------------------

  /** The game-over banner `process_game` installs: magenta, its origin at column 5 of the bottom row. */
  function Banner(level: Grid): (v: PieceView)
    ensures Consistent(v) && v.currentMatrix == GameOver
  {
    NewView(GameOver, PieceFreezeProperty.Normal, Magenta, Point(5, |level| - 1))
  }

  /** The banner fits a playfield at least 8 rows high and 6 columns wide. */
  lemma BannerFits(level: Grid)
    requires LevelShape(level) && |level| >= 8 && Width(level) >= 6
    ensures PlaceFits(Banner(level), level)
  {
    var v := Banner(level);
    var m: Definition := v.currentMatrix;
    assert FirstOriginInRow(m[7], 0) == Some(0);
    assert FirstOrigin(m) == Some(Point(0, 7)) by {
      forall y | 0 <= y < 7 ensures FirstOriginInRow(m[y], 0) == None {
        assert m[y] == [DefinitionBlock.Text(y + 1)];
      }
    }
  }

  /** The result of one `process_game` call; `readInput` says whether the message was taken from the channel. */
  datatype StepResult = StepResult(game: Game, shouldContinue: bool, readInput: bool)

  /**
   * What a step needs beyond a valid state, each for a branch that panics otherwise:
   * enough draws for a refill, at most 99 completed rows (the unsigned `99 - n`), and
   * room for the banner when it is installed.
   */
  predicate StepAllowed(g: Game, tick: bool, draws: seq<Draw>) {
    && (g.state == Playing && g.active.None? ==> EnoughDraws(g.bucket, draws))
    && (g.state == Tootris && tick ==> |g.completedRows| <= MaxSpeed)
    && (g.state == End && tick && g.active.None? ==> LevelShape(g.level) && PlaceFits(Banner(g.level), g.level))
  }

  /** The Playing branch once an active piece is in place. */
  function PlayingStep(g: Game, tick: bool, msg: Option<Ui2MasterCommunique>): (r: StepResult)
    requires ValidGame(g) && g.active.Some?
    ensures r.shouldContinue
  {
    if tick then
      var moved := AdvanceActivePiece(g);
      if !moved.ok then
        var frozen := FreezeActivePiece(moved.game);
        StepResult(if frozen.completedRows != [] then frozen.(state := Tootris) else frozen, true, false)
      else
        ProcessMovePreservesValid(g, PlayerMove.StepDown);
        StepResult(ProcessInputCommands(moved.game, msg).game, true, true)
    else
      StepResult(ProcessInputCommands(g, msg).game, true, true)
  }

  /**
   * `process_game`: one pass of the game loop. `tick` is the result of `next_tick`,
   * `msg` what `try_recv` would return, `draws` the random numbers for a refill.
   */
  function Step(g: Game, tick: bool, msg: Option<Ui2MasterCommunique>, draws: seq<Draw>): (r: StepResult)
    requires ValidGame(g) && StepAllowed(g, tick, draws)
    ensures r.shouldContinue <==> g.state != GameState.Exit
  {
    match g.state
    case Playing => PlayingTurn(g, tick, msg, draws)
    case Tootris => StepResult(if tick then TootrisTick(g) else g, true, false)
    case Paused => StepResult(ProcessInputCommands(g, msg).game, true, true)
    case End => EndTurn(g, tick, msg)
    case Start => StepResult(ProcessInputCommands(g, msg).game, true, true)
    case Exit => StepResult(g, false, false)
  }

  /** The Playing branch: spawn a piece when there is none (ending the game if it collides), then play it. */
  function PlayingTurn(g: Game, tick: bool, msg: Option<Ui2MasterCommunique>, draws: seq<Draw>): (r: StepResult)
    requires ValidGame(g) && g.state == Playing && (g.active.None? ==> EnoughDraws(g.bucket, draws))
    ensures r.shouldContinue
  {
    if g.active.None? then
      var next := NextPiece(g, draws);
      if !next.ok then StepResult(next.game.(state := End, active := None), true, false)
      else
        NextPieceKeepsValid(g, draws);
        PlayingStep(next.game, tick, msg)
    else PlayingStep(g, tick, msg)
  }

  /** A piece that spawns without collision leaves a valid game with that piece active. */
  lemma NextPieceKeepsValid(g: Game, draws: seq<Draw>)
    requires ValidGame(g) && g.state == Playing && g.active.None? && EnoughDraws(g.bucket, draws)
    requires NextPiece(g, draws).ok
    ensures ValidGame(NextPiece(g, draws).game) && NextPiece(g, draws).game.active.Some?
  {
    var r := NextPiece(g, draws);
    var b := Refilled(g.bucket, draws, Width(g.level));
    XBoundariesFit(g.level, r.game.active.value);
    assert forall i :: 0 <= i < |r.game.bucket| ==> r.game.bucket[i] == b[i];
  }

  /** The End branch: on a tick with no piece, install the game-over banner; then read input. */
  function EndTurn(g: Game, tick: bool, msg: Option<Ui2MasterCommunique>): (r: StepResult)
    requires ValidGame(g) && g.state == End
    requires tick && g.active.None? ==> PlaceFits(Banner(g.level), g.level)
    ensures r.shouldContinue && r.readInput
  {
    var g1 := if tick && g.active.None? then g.(active := Some(Banner(g.level))) else g;
    StepResult(ProcessInputCommands(g1, msg).game, true, true)
  }

  /** Freezing a piece that fits, from a state with no recorded rows, gives a valid game once the state is set. */
  lemma FreezePreservesValid(g: Game)
    requires ValidGame(g) && g.active.Some? && g.completedRows == [] && g.state == Playing
    ensures var f := FreezeActivePiece(g);
      ValidGame(if f.completedRows != [] then f.(state := Tootris) else f)
  {
    var f := FreezeActivePiece(g);
    assert f.completedRows == CompletedRows(f.level);
    var placed := Placed(g.active.value, g.level);
    assert |placed[0]| == |g.level[0]|;
    assert Rectangular(placed);
  }

  /** Every step keeps the game valid. */
  lemma StepPreservesValid(g: Game, tick: bool, msg: Option<Ui2MasterCommunique>, draws: seq<Draw>)
    requires ValidGame(g) && StepAllowed(g, tick, draws)
    ensures ValidGame(Step(g, tick, msg, draws).game)
  {
    match g.state
    case Playing => PlayingTurnPreservesValid(g, tick, msg, draws);
    case Tootris =>
      if tick {
        ClearedShape(g.level, g.completedRows);
      }
    case Paused => ProcessInputPreservesValid(g, msg);
    case End => EndTurnPreservesValid(g, tick, msg);
    case Start => ProcessInputPreservesValid(g, msg);
    case Exit =>
  }

  lemma PlayingTurnPreservesValid(g: Game, tick: bool, msg: Option<Ui2MasterCommunique>, draws: seq<Draw>)
    requires ValidGame(g) && g.state == Playing && (g.active.None? ==> EnoughDraws(g.bucket, draws))
    ensures ValidGame(PlayingTurn(g, tick, msg, draws).game)
  {
    if g.active.None? {
      var next := NextPiece(g, draws);
      if next.ok {
        NextPieceKeepsValid(g, draws);
        PlayingStepPreservesValid(next.game, tick, msg);
      }
    } else {
      PlayingStepPreservesValid(g, tick, msg);
    }
  }

  lemma EndTurnPreservesValid(g: Game, tick: bool, msg: Option<Ui2MasterCommunique>)
    requires ValidGame(g) && g.state == End
    requires tick && g.active.None? ==> PlaceFits(Banner(g.level), g.level)
    ensures ValidGame(EndTurn(g, tick, msg).game)
  {
    var g1 := if tick && g.active.None? then g.(active := Some(Banner(g.level))) else g;
    ProcessInputPreservesValid(g1, msg);
  }

  lemma PlayingStepPreservesValid(g: Game, tick: bool, msg: Option<Ui2MasterCommunique>)
    requires ValidGame(g) && g.active.Some? && g.state == Playing
    ensures ValidGame(PlayingStep(g, tick, msg).game)
  {
    ProcessMovePreservesValid(g, PlayerMove.StepDown);
    var moved := VerticalMove(g);
    if tick && !moved.ok {
      FreezePreservesValid(moved.game);
    } else if tick {
      ProcessInputPreservesValid(moved.game, msg);
    } else {
      ProcessInputPreservesValid(g, msg);
    }
  }

  /** When the spawned piece collides the game ends and the piece is dropped. */
  lemma SpawnCollisionEndsGame(g: Game, tick: bool, msg: Option<Ui2MasterCommunique>, draws: seq<Draw>)
    requires ValidGame(g) && StepAllowed(g, tick, draws)
    requires g.state == Playing && g.active.None? && !NextPiece(g, draws).ok
    ensures Step(g, tick, msg, draws).game.state == End
    ensures Step(g, tick, msg, draws).game.active.None?
    ensures !Step(g, tick, msg, draws).readInput
  {
  }

  /**
   * A piece that cannot advance on a tick is frozen into the playfield and the state
   * becomes Tootris exactly when the scan found completed rows.
   */
  lemma FailedAdvanceFreezes(g: Game, msg: Option<Ui2MasterCommunique>, draws: seq<Draw>)
    requires ValidGame(g) && StepAllowed(g, true, draws)
    requires g.state == Playing && g.active.Some? && !AdvanceActivePiece(g).ok
    ensures var r := Step(g, true, msg, draws).game;
      && r.active.None?
      && r.level == Placed(g.active.value, g.level)
      && r.completedRows == CompletedRows(r.level)
      && (r.state == Tootris <==> CompletedRows(r.level) != [])
      && (r.state == Playing <==> CompletedRows(r.level) == [])
  {
    var moved := VerticalMove(g);
    assert moved.game.active.value.location == g.active.value.location;
    assert moved.game.active.value.currentMatrix == g.active.value.currentMatrix;
    assert FindOriginForZeroBlock(moved.game.active.value, None) == FindOriginForZeroBlock(g.active.value, None);
  }

  /**
   * A Tootris tick scores (n·W)·n, raises the speed to at most 99, and replaces the
   * completed rows by fresh rows on top, keeping the height.
   */
  lemma TootrisTickEffects(g: Game, msg: Option<Ui2MasterCommunique>, draws: seq<Draw>)
    requires ValidGame(g) && StepAllowed(g, true, draws) && g.state == Tootris
    ensures var r := Step(g, true, msg, draws).game;
      && r.state == Playing && r.completedRows == []
      && r.score == g.score + |g.completedRows| * |g.completedRows| * Width(g.level)
      && r.speed == (if g.speed + |g.completedRows| < MaxSpeed then g.speed + |g.completedRows| else MaxSpeed)
      && r.level == Cleared(g.level, g.completedRows)
      && |r.level| == |g.level|
  {
    ClearedShape(g.level, g.completedRows);
  }

  /** The score only grows, except that a new game sets it to zero. */
  lemma ScoreGrowsOrResets(g: Game, tick: bool, msg: Option<Ui2MasterCommunique>, draws: seq<Draw>)
    requires ValidGame(g) && StepAllowed(g, tick, draws)
    ensures var r := Step(g, tick, msg, draws).game;
      r.score >= g.score || (r.score == 0 && r.state == Start)
  {
    match g.state
    case Playing =>
      var g0 := g;
      if g.active.None? {
        var next := NextPiece(g, draws);
        if next.ok {
          XBoundariesFit(g.level, next.game.active.value);
          g0 := next.game;
        }
      }
      if g0.active.Some? {
        PlayingStepScore(g0, tick, msg);
      }
    case Tootris =>
    case Paused => ProcessInputScore(g, msg);
    case End =>
      var g1 := if tick && g.active.None? then g.(active := Some(Banner(g.level))) else g;
      ProcessInputScore(g1, msg);
    case Start => ProcessInputScore(g, msg);
    case Exit =>
  }

  lemma PlayingStepScore(g: Game, tick: bool, msg: Option<Ui2MasterCommunique>)
    requires ValidGame(g) && g.active.Some?
    ensures var r := PlayingStep(g, tick, msg).game;
      r.score >= g.score || (r.score == 0 && r.state == Start)
  {
    ProcessMovePreservesValid(g, PlayerMove.StepDown);
    ProcessInputScore(VerticalMove(g).game, msg);
    ProcessInputScore(g, msg);
  }

  /** Handling a message keeps the score, or resets it for a new game. */
  lemma ProcessInputScore(g: Game, msg: Option<Ui2MasterCommunique>)
    requires LevelShape(g.level)
    requires g.active.Some? ==> Consistent(g.active.value)
    ensures var r := ProcessInputCommands(g, msg).game;
      r.score == g.score || (r.score == 0 && r.state == Start)
  {
  }
}
