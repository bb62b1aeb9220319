/**
 * The game master (`EvilGameMaster`) as an object whose methods update its fields in place.
 * `View()` reads the fields back as a `GameSpec.Game` value, and each method is specified by
 * the function of the same name in `GameSpec`; the properties of the game are proved about
 * those functions there.
 */
module GameLoopController {
  import opened Wrappers
  import opened Tootris
  import opened PieceTypes
  import opened Pieces
  import opened GameSpec

  /**
   * `EvilGameMaster`. The Rust struct owns its active piece and its bucket by value, so they are
   * fields of type `Option<PieceView>` and `seq<PieceView>` here; the piece operations the
   * master applies are the `PieceView` functions the `Piece` methods are proved to implement.
   */
  class GameMaster {
    var level: Grid
    var completedRows: seq<nat>
    var activePiece: Option<PieceView>
    var speed: nat
    var score: nat
    var pieceBucket: seq<PieceView>
    var state: GameState

    /** The current field values. */
    function View(): Game
      reads this
    {
      Game(level, completedRows, activePiece, speed, score, pieceBucket, state)
    }

    ghost predicate Valid()
      reads this
    {
      ValidGame(View())
    }

    /** `create_empty_row`: a border cell, `x - 2` empty cells, a border cell (`1..x - 1` underflows for `x == 0`). */
    static method CreateEmptyRow(x: nat) returns (row: seq<GameBlock>)
      requires x >= 1
      ensures row == BorderedRow(x)
    {
      row := [Indestructible];
      var n := if x >= 2 then x - 1 else 1;
      for k := 1 to n
        invariant row == [Indestructible] + seq(k - 1, _ => Empty)
      {
        row := row + [Empty];
      }
      row := row + [Indestructible];
    }

    /** `create_level`: `y` empty rows of width `x`. */
    static method CreateLevel(x: nat, y: nat) returns (level: Grid)
      requires y == 0 || x >= 1
      ensures level == GameSpec.CreateLevel(x, y)
    {
      level := [];
      for r := 0 to y
        invariant level == seq(r, _ => BorderedRow(x))
      {
        var row := CreateEmptyRow(x);
        level := level + [row];
      }
    }

    /** `new`: a fresh playfield of `height` rows and `width` columns, speed 1, score 0, in the Start state. */
    constructor (height: nat, width: nat, initialPiece: Option<PieceView>)
      requires height == 0 || width >= 1
      ensures View() == Game(FreshLevel(width, height), [], initialPiece, 1, 0, [], Start)
      ensures height >= 1 && (initialPiece.Some? ==> Consistent(initialPiece.value) && PlaceFits(initialPiece.value, level))
        ==> Valid()
    {
      var rows := GameMaster.CreateLevel(width, height);
      level := rows;
      completedRows := [];
      activePiece := initialPiece;
      speed := 1;
      score := 0;
      pieceBucket := [];
      state := Start;
      new;
      CreateLevelBoundaries();
      if height >= 1 {
        FreshLevelShape(width, height, level);
      }
    }

    /** `create_level_boundaries`: border the bottom row and the outer columns, empty everything else. */
    method CreateLevelBoundaries()
      modifies this
      ensures View() == old(View()).(level := Boundaries(old(level)))
    {
      ghost var target := Boundaries(level);
      var h := |level|;
      for y := 0 to h
        invariant |level| == h && forall k :: 0 <= k < h ==> |level[k]| == |target[k]|
        invariant forall k :: 0 <= k < y ==> level[k] == target[k]
        invariant forall k :: y <= k < h ==> level[k] == old(level)[k]
        invariant completedRows == old(completedRows) && activePiece == old(activePiece) && speed == old(speed)
        invariant score == old(score) && pieceBucket == old(pieceBucket) && state == old(state)
      {
        var w := |level[y]|;
        for x := 0 to w
          invariant |level| == h && forall k :: 0 <= k < h ==> |level[k]| == |target[k]|
          invariant forall k :: 0 <= k < y ==> level[k] == target[k]
          invariant forall k :: y < k < h ==> level[k] == old(level)[k]
          invariant forall j :: 0 <= j < x ==> level[y][j] == target[y][j]
          invariant completedRows == old(completedRows) && activePiece == old(activePiece) && speed == old(speed)
          invariant score == old(score) && pieceBucket == old(pieceBucket) && state == old(state)
        {
          if y == h - 1 || x == 0 || x == w - 1 {
            level := level[y := level[y][x := Indestructible]];
          } else {
            level := level[y := level[y][x := Empty]];
          }
        }
        assert level[y] == target[y];
      }
      assert level == target;
    }

    /** `is_point_colliding`. */
    method IsPointColliding(bounds: seq<Point>) returns (r: bool)
      requires LevelShape(level)
      ensures r == Colliding(level, bounds)
    {
      for i := 0 to |bounds|
        invariant forall j :: 0 <= j < i ==> !PointColliding(level, bounds[j])
      {
        var point := bounds[i];
        if point.y < 0 || point.y >= |level| {
          assert PointColliding(level, bounds[i]);
          return true;
        }
        if point.x < 0 || point.x >= |level[0]| {
          assert PointColliding(level, bounds[i]);
          return true;
        }
        if !level[point.y][point.x].Empty? {
          assert PointColliding(level, bounds[i]);
          return true;
        }
      }
      return false;
    }

    /** `is_xcolliding`. */
    method IsXColliding(piece: PieceView) returns (r: bool)
      requires LevelShape(level)
      ensures r == Colliding(level, FindXBoundaries(piece, None))
    {
      r := IsPointColliding(FindXBoundaries(piece, None));
    }

    /** `ycolliding`, on the lowest block of every column. */
    method YColliding(piece: PieceView) returns (r: bool)
      requires LevelShape(level) && WellFormed(piece.currentMatrix)
      ensures r == Colliding(level, FindYBoundaries(piece, None))
    {
      r := IsPointColliding(FindYBoundaries(piece, None));
    }

    /** `next_tick`, with the stopwatch reading passed in. */
    method NextTick(elapsedMs: int) returns (t: bool)
      requires speed <= MaxSpeed
      ensures t == GameSpec.NextTick(speed, elapsedMs)
    {
      var tickMs := (100 - speed) * TickBaseMs;
      t := tickMs <= elapsedMs;
    }

    /** `vertical_move(1)`. */
    method VerticalMove() returns (ok: bool)
      requires LevelShape(level)
      modifies this
      ensures Outcome(View(), ok) == GameSpec.VerticalMove(old(View()))
    {
      if activePiece.Some? {
        var point := activePiece.value.location;
        activePiece := Some(MoveToView(activePiece.value, Point(point.x, point.y + 1)));
        var colliding := IsPointColliding(Points(activePiece.value, None));
        if colliding {
          activePiece := Some(RollbackMoveView(activePiece.value));
          return false;
        }
      }
      return true;
    }

    /** `horizontal_move(1, reverse)`. */
    method HorizontalMove(reverse: bool) returns (ok: bool)
      requires LevelShape(level)
      modifies this
      ensures Outcome(View(), ok) == GameSpec.HorizontalMove(old(View()), reverse)
    {
      if activePiece.Some? {
        var point := activePiece.value.location;
        if reverse {
          point := Point(point.x - 1, point.y);
        } else {
          point := Point(point.x + 1, point.y);
        }
        activePiece := Some(MoveToView(activePiece.value, point));
        var colliding := IsPointColliding(Points(activePiece.value, None));
        if colliding {
          activePiece := Some(RollbackMoveView(activePiece.value));
          return false;
        }
      }
      return true;
    }

    /** `rotate_active_piece`. */
    method RotateActivePiece(rot: Rotation) returns (ok: bool)
      requires LevelShape(level) && (activePiece.Some? ==> Consistent(activePiece.value))
      modifies this
      ensures Outcome(View(), ok) == GameSpec.RotateActivePiece(old(View()), rot)
    {
      if activePiece.Some? {
        activePiece := Some(RotateView(activePiece.value, rot));
        var colliding := IsPointColliding(Points(activePiece.value, None));
        if colliding {
          activePiece := Some(RollbackRotationView(activePiece.value));
          return false;
        }
      }
      return true;
    }

    /** `process_move`. */
    method ProcessMove(mv: PlayerMove) returns (ok: bool)
      requires LevelShape(level) && (activePiece.Some? ==> Consistent(activePiece.value))
      modifies this
      ensures Outcome(View(), ok) == GameSpec.ProcessMove(old(View()), mv)
    {
      match mv
      case RotateForward => ok := RotateActivePiece(Rotation.Forward);
      case StepLeft => ok := HorizontalMove(true);
      case StepRight => ok := HorizontalMove(false);
      case StepDown => ok := VerticalMove();
      case _ => ok := false;
    }

    /** `advance_active_piece`. */
    method AdvanceActivePiece() returns (ok: bool)
      requires LevelShape(level)
      modifies this
      ensures Outcome(View(), ok) == GameSpec.AdvanceActivePiece(old(View()))
    {
      if activePiece.Some? {
        ok := VerticalMove();
      } else {
        ok := false;
      }
    }

    /** `find_completed_rows`: append the index of every completed row, top to bottom. */
    method FindCompletedRows()
      modifies this
      ensures View() == old(View()).(completedRows := old(completedRows) + CompletedRows(level))
    {
      var found := ScanLevel(level);
      completedRows := completedRows + found;
    }

    /** The row loop of `find_completed_rows`: the completed rows of `grid`, in the order visited. */
    static method ScanLevel(grid: Grid) returns (found: seq<nat>)
      ensures found == CompletedRows(grid)
    {
      found := [];
      for row := 0 to |grid|
        invariant found == CompletedRowsUpTo(grid, row)
      {
        var complete := ScanRow(grid[row]);
        if complete {
          found := found + [row];
        }
      }
    }

    /**
     * The inner scan of `find_completed_rows` over one row: an early `false`
     * is the `continue 'rows` of the source (a cell that is neither filled nor
     * a border, or a third border cell); otherwise the row counts when both
     * its borders were seen.
     */
    static method ScanRow(cells: seq<GameBlock>) returns (complete: bool)
      ensures complete == RowComplete(cells)
    {
      var begin := false;
      var end := false;
      for c := 0 to |cells|
        invariant begin <==> BorderCount(cells, c) >= 1
        invariant end <==> BorderCount(cells, c) >= 2
        invariant BorderCount(cells, c) <= 2
        invariant forall i :: 0 <= i < c ==> cells[i].Filled? || cells[i].Indestructible?
      {
        match cells[c]
        case Indestructible =>
          if end {
            // a third border cell: a border row
            BorderCountMonotone(cells, c + 1, |cells|);
            return false;
          }
          if begin {
            end := true;
          } else {
            begin := true;
          }
        case Filled(_) =>
        case _ =>
          return false;
      }
      complete := begin && end;
    }

    /** `freeze_active_piece`: write the active piece into the playfield, drop it, scan for completed rows. */
    method FreezeActivePiece()
      requires activePiece.Some?
      modifies this
      ensures View() == GameSpec.FreezeActivePiece(old(View()))
    {
      level := Placed(activePiece.value, level);
      activePiece := None;
      FindCompletedRows();
    }

    /** `fill_piece_bucket`: push freshly drawn pieces at the spawn point until the bucket holds 20. */
    method FillPieceBucket(draws: seq<Draw>)
      requires LevelShape(level) && |draws| >= Missing(|pieceBucket|)
      modifies this
      ensures View() == old(View()).(bucket := GameSpec.FillPieceBucket(old(pieceBucket), draws, Width(old(level))))
    {
      var n := |pieceBucket|;
      var bucket := pieceBucket;
      var w := |level[0]|;
      var spawn := Point(w / 2, 1);
      while |bucket| < BucketMaxSize
        modifies {}
        invariant n <= |bucket| <= (if n < BucketMaxSize then BucketMaxSize else n)
        invariant bucket == pieceBucket + seq(|bucket| - n, i requires 0 <= i < |bucket| - n => SpawnView(draws[i], w))
        decreases BucketMaxSize - |bucket|
      {
        var d := draws[|bucket| - n];
        var p := Piece.OfType(RandomPieceType(d.shape), RandomColor(d.color), spawn);
        bucket := bucket + [p.View()];
      }
      pieceBucket := bucket;
    }

    /** `next_piece`: refill a low bucket, pop its last piece as the active piece, and check the x and y boundaries. */
    method NextPiece(draws: seq<Draw>) returns (ok: bool)
      requires LevelShape(level) && EnoughDraws(pieceBucket, draws)
      requires forall i :: 0 <= i < |pieceBucket| ==> Consistent(pieceBucket[i])
      modifies this
      ensures Outcome(View(), ok) == GameSpec.NextPiece(old(View()), draws)
    {
      ghost var g := View();
      ghost var r := GameSpec.NextPiece(g, draws);
      if |pieceBucket| < BucketMinimumSize {
        FillPieceBucket(draws);
      }
      var p := pieceBucket[|pieceBucket| - 1];
      activePiece := Some(p);
      pieceBucket := pieceBucket[..|pieceBucket| - 1];
      assert View() == r.game;
      var x := IsXColliding(p);
      if x {
        assert !r.ok;
        return false;
      }
      var y := YColliding(p);
      ok := !y;
    }

    /** `new_game`. */
    method NewGame()
      requires |level| >= 1 && |level[0]| >= 1
      modifies this
      ensures View() == GameSpec.NewGame(old(View()))
    {
      score := 0;
      activePiece := None;
      level := CreateLevel(|level[0]|, |level|);
      CreateLevelBoundaries();
      state := Start;
    }

    /** `pause_game`. */
    method PauseGame()
      modifies this
      ensures View() == GameSpec.PauseGame(old(View()))
    {
      state := Paused;
    }

    /** `resume_game`. */
    method ResumeGame()
      modifies this
      ensures View() == GameSpec.ResumeGame(old(View()))
    {
      state := Playing;
    }

    /** `exit`. */
    method Exit()
      modifies this
      ensures View() == ExitGame(old(View()))
    {
      state := GameState.Exit;
    }

    /** `process_input_commands`, with `msg` the result of one `try_recv`. */
    method ProcessInputCommands(msg: Option<Ui2MasterCommunique>) returns (handled: bool)
      requires LevelShape(level) && (activePiece.Some? ==> Consistent(activePiece.value))
      modifies this
      ensures Outcome(View(), handled) == GameSpec.ProcessInputCommands(old(View()), msg)
    {
      if msg.None? {
        return false;
      }
      var c := msg.value;
      if c.IsCommand() {
        match c.command.value {
          case New => NewGame();
          case Pause => PauseGame();
          case Resume => ResumeGame();
          case Exit => Exit();
          case _ =>
        }
        return true;
      }
      if c.IsPlayerMove() {
        handled := ProcessMove(c.playerMove.value);
        return;
      }
      return false;
    }

    /** The Tootris branch of `process_game` on a tick: score, speed up, replace the completed rows by fresh rows on top. */
    method TootrisTick()
      requires LevelShape(level) && |completedRows| <= MaxSpeed
      modifies this
      ensures View() == GameSpec.TootrisTick(old(View()))
    {
      var n := |completedRows|;
      var w := |level[0]|;
      score := score + (n * w) * n;
      if speed < MaxSpeed - n {
        speed := speed + n;
      } else {
        speed := MaxSpeed;
      }
      level := ClearRows(level, completedRows);
      completedRows := [];
      state := Playing;
    }

    /** The new playfield of the Tootris branch: one fresh row per completed row, then the other rows in order. */
    static method ClearRows(level: Grid, rows: seq<nat>) returns (newMatrix: Grid)
      requires LevelShape(level)
      ensures newMatrix == Cleared(level, rows)
    {
      var w := |level[0]|;
      newMatrix := [];
      for r := 0 to |rows|
        invariant newMatrix == seq(r, _ => BorderedRow(w))
      {
        var row := CreateEmptyRow(w);
        newMatrix := newMatrix + [row];
      }
      for i := 0 to |level|
        invariant newMatrix == seq(|rows|, _ => BorderedRow(w)) + KeptRows(level, rows, i)
      {
        if i in rows {
          continue;
        }
        newMatrix := newMatrix + [level[i]];
      }
    }

    /** The snapshot `send_render_update` sends: the playfield with the active piece drawn in. */
    method SendRenderUpdate() returns (snapshot: Grid)
      requires Valid()
      ensures activePiece.None? ==> snapshot == level
      ensures activePiece.Some? ==> snapshot == Placed(activePiece.value, level)
    {
      snapshot := level;
      if activePiece.Some? {
        snapshot := Placed(activePiece.value, snapshot);
      }
    }

    /** The Playing branch of `process_game` once a piece is active: on a tick advance it or freeze it, otherwise read input. */
    method PlayActivePiece(tick: bool, msg: Option<Ui2MasterCommunique>)
      requires Valid() && activePiece.Some?
      modifies this
      ensures View() == PlayingStep(old(View()), tick, msg).game
    {
      ghost var g := View();
      VerticalMovePreservesValid(g);
      if tick {
        var advanced := AdvanceActivePiece();
        if !advanced {
          FreezeActivePiece();
          if completedRows != [] {
            state := Tootris;
          }
          return;
        }
      }
      var _ := ProcessInputCommands(msg);
    }

    /** The Playing branch of `process_game`. */
    method PlayingTurn(elapsedMs: int, msg: Option<Ui2MasterCommunique>, draws: seq<Draw>)
      requires Valid() && state == Playing && (activePiece.None? ==> EnoughDraws(pieceBucket, draws))
      modifies this
      ensures View() == GameSpec.PlayingTurn(old(View()), GameSpec.NextTick(old(speed), elapsedMs), msg, draws).game
    {
      ghost var g := View();
      if activePiece.None? {
        var ok := NextPiece(draws);
        if !ok {
          state := End;
          activePiece := None;
          return;
        }
        NextPieceKeepsValid(g, draws);
        assert View() == GameSpec.NextPiece(g, draws).game;
      }
      var t := NextTick(elapsedMs);
      PlayActivePiece(t, msg);
    }

    /** The End branch of `process_game`. */
    method EndTurn(elapsedMs: int, msg: Option<Ui2MasterCommunique>)
      requires Valid() && state == End
      requires GameSpec.NextTick(speed, elapsedMs) && activePiece.None? ==> PlaceFits(Banner(level), level)
      modifies this
      ensures View() == GameSpec.EndTurn(old(View()), GameSpec.NextTick(old(speed), elapsedMs), msg).game
    {
      ghost var g := View();
      var t := NextTick(elapsedMs);
      ghost var g1 := if t && g.active.None? then g.(active := Some(Banner(g.level))) else g;
      if t && activePiece.None? {
        var banner := NewBanner(|level|);
        activePiece := Some(banner);
      }
      assert View() == g1;
      var _ := ProcessInputCommands(msg);
    }

    /** The game-over banner piece: the banner definition, magenta, at column 5 of the bottom row. */
    static method NewBanner(height: nat) returns (v: PieceView)
      ensures v == NewView(GameOver, PieceFreezeProperty.Normal, Magenta, Point(5, height - 1))
    {
      assert GameOverPiece in PieceMap();
      var banner := GetPieceDef(GameOverPiece);
      var p := new Piece(banner.def, PieceFreezeProperty.Normal, Magenta, Point(5, height - 1));
      v := p.View();
    }

    /** `process_game`: one pass of the game loop. */
    method ProcessGame(elapsedMs: int, msg: Option<Ui2MasterCommunique>, draws: seq<Draw>) returns (shouldContinue: bool)
      requires Valid() && StepAllowed(View(), GameSpec.NextTick(speed, elapsedMs), draws)
      modifies this
      ensures Valid()
      ensures View() == Step(old(View()), GameSpec.NextTick(old(speed), elapsedMs), msg, draws).game
      ensures shouldContinue == Step(old(View()), GameSpec.NextTick(old(speed), elapsedMs), msg, draws).shouldContinue
    {
      StepPreservesValid(View(), GameSpec.NextTick(speed, elapsedMs), msg, draws);
      shouldContinue := true;
      match state
      case Playing =>
        PlayingTurn(elapsedMs, msg, draws);
      case Tootris =>
        var t := NextTick(elapsedMs);
        if t {
          TootrisTick();
        }
      case Paused =>
        var _ := ProcessInputCommands(msg);
      case End =>
        EndTurn(elapsedMs, msg);
      case Start =>
        var _ := ProcessInputCommands(msg);
      case Exit =>
        shouldContinue := false;
    }
  }
}
