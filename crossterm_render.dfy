/**
 * The terminal renderer's diff buffer: `map_color` and `update_matrix`. The renderer
 * keeps the grid it last drew (`current_matrix`) and a write buffer (`draw_buffer`)
 * holding, per cell, what must be drawn next (`GameBlock::None`, here `NoBlock`, for
 * "nothing to draw"). Cells compare by variant only, and border cells are never redrawn.
 */
module CrosstermRender {
  import opened Wrappers
  import opened Tootris

  /** The terminal colours `map_color` can produce. */
  datatype TermColor = Black | Blue | Magenta | Yellow | Green | Cyan | White

  /** `map_color`: each block colour to its terminal colour; `Undefined` draws black. */
  function MapColor(c: BlockColor): (t: TermColor)
    ensures t == TermColor.Black <==> c == Undefined
  {
    match c
    case Blue => TermColor.Blue
    case Magenta => TermColor.Magenta
    case Yellow => TermColor.Yellow
    case Green => TermColor.Green
    case Cyan => TermColor.Cyan
    case White => TermColor.White
    case Undefined => TermColor.Black
  }

  /** The block colour a terminal colour stands for. */
  function ColorOf(t: TermColor): (c: BlockColor)
    ensures c == Undefined <==> t == TermColor.Black
  {
    match t
    case Blue => BlockColor.Blue
    case Magenta => BlockColor.Magenta
    case Yellow => BlockColor.Yellow
    case Green => BlockColor.Green
    case Cyan => BlockColor.Cyan
    case White => BlockColor.White
    case Black => Undefined
  }

  /** `map_color` is total and injective: `ColorOf` undoes it, and it is onto the seven terminal colours. */
  lemma MapColorRoundTrip(c: BlockColor, t: TermColor)
    ensures ColorOf(MapColor(c)) == c
    ensures MapColor(ColorOf(t)) == t
    ensures MapColor(c) == t <==> c == ColorOf(t)
  {
  }

  // ---------------------------------------------------------------------------
  // The diff of one cell, one row and one grid
  // ---------------------------------------------------------------------------

  /** What `current[y][x]` becomes: the new cell, unless it is the same kind or the old one is a border. */
  function CellCurrent(cur: GameBlock, next: GameBlock): GameBlock {
    if SameKind(cur, next) || cur.Indestructible? then cur else next
  }

  /** What `write[y][x]` becomes: nothing to draw when unchanged, the new cell when taken, else as it was. */
  function CellWrite(cur: GameBlock, next: GameBlock, write: GameBlock): GameBlock {
    if SameKind(cur, next) then NoBlock
    else if cur.Indestructible? then write
    else next
  }

  /** The first `w` cells of a current row after the diff; the rest as they were. */
  function RowCurrent(row: seq<GameBlock>, newRow: seq<GameBlock>, w: nat): (r: seq<GameBlock>)
    requires w <= |row| && w <= |newRow|
    ensures |r| == |row|
  {
    seq(|row|, x requires 0 <= x < |row| => if x < w then CellCurrent(row[x], newRow[x]) else row[x])
  }

  /** The first `w` cells of a write-buffer row after the diff; the rest as they were. */
  function RowWrite(row: seq<GameBlock>, wRow: seq<GameBlock>, newRow: seq<GameBlock>, w: nat): (r: seq<GameBlock>)
    requires w <= |row| && w <= |wRow| && w <= |newRow|
    ensures |r| == |wRow|
  {
    seq(|wRow|, x requires 0 <= x < |wRow| => if x < w then CellWrite(row[x], newRow[x], wRow[x]) else wRow[x])
  }

  /** The width `update_matrix` scans: the length of the new grid's first row. */
  function ScanWidth(next: Grid): nat {
    if |next| == 0 then 0 else |next[0]|
  }

  /**
   * The indexing `update_matrix` performs stays in range: the current grid and the write
   * buffer have at least the new grid's rows, and every scanned row at least its width.
   */
  predicate Indexable(cur: Grid, write: Grid, next: Grid) {
    && |next| <= |cur| && |next| <= |write|
    && forall y :: 0 <= y < |next| ==>
         ScanWidth(next) <= |next[y]| && ScanWidth(next) <= |cur[y]| && ScanWidth(next) <= |write[y]|
  }

  /** The current grid after the diff against `next`. */
  function CurrentAfter(cur: Grid, write: Grid, next: Grid): (r: Grid)
    requires Indexable(cur, write, next)
    ensures |r| == |cur| && forall y :: 0 <= y < |cur| ==> |r[y]| == |cur[y]|
  {
    seq(|cur|, y requires 0 <= y < |cur| =>
      if y < |next| then RowCurrent(cur[y], next[y], ScanWidth(next)) else cur[y])
  }

  /** The write buffer after the diff against `next`. */
  function WriteAfter(cur: Grid, write: Grid, next: Grid): (r: Grid)
    requires Indexable(cur, write, next)
    ensures |r| == |write| && forall y :: 0 <= y < |write| ==> |r[y]| == |write[y]|
  {
    seq(|write|, y requires 0 <= y < |write| =>
      if y < |next| then RowWrite(cur[y], write[y], next[y], ScanWidth(next)) else write[y])
  }

  /** Whether cell (x, y) lies in the window `update_matrix` scans. */
  predicate InWindow(next: Grid, y: int, x: int) {
    0 <= y < |next| && 0 <= x < ScanWidth(next)
  }

  // ---------------------------------------------------------------------------
  // What the diff promises
  // ---------------------------------------------------------------------------

  /**
   * Cell by cell: an unchanged cell (same kind) is kept and gets nothing to draw; a changed
   * cell that is not a border is taken into both grids; a changed border cell is left
   * alone in both; cells outside the scanned window are not touched.
   */
  lemma CellEffects(cur: Grid, write: Grid, next: Grid, y: nat, x: nat)
    requires Indexable(cur, write, next)
    requires y < |cur| && x < |cur[y]| && y < |write| && x < |write[y]|
    ensures var c := CurrentAfter(cur, write, next)[y][x]; var w := WriteAfter(cur, write, next)[y][x];
      && (!InWindow(next, y, x) ==> c == cur[y][x] && w == write[y][x])
      && (InWindow(next, y, x) && SameKind(cur[y][x], next[y][x]) ==> c == cur[y][x] && w == NoBlock)
      && (InWindow(next, y, x) && !SameKind(cur[y][x], next[y][x]) && !cur[y][x].Indestructible? ==>
            c == next[y][x] && w == next[y][x])
      && (InWindow(next, y, x) && !SameKind(cur[y][x], next[y][x]) && cur[y][x].Indestructible? ==>
            c == cur[y][x] && w == write[y][x])
  {
  }

  /**
   * A border cell of the current grid is never modified; its write-buffer cell changes only
   * when the new grid also has a border there, and then to "nothing to draw".
   */
  lemma BordersStay(cur: Grid, write: Grid, next: Grid, y: nat, x: nat)
    requires Indexable(cur, write, next)
    requires y < |cur| && x < |cur[y]| && y < |write| && x < |write[y]|
    requires cur[y][x].Indestructible?
    ensures CurrentAfter(cur, write, next)[y][x] == Indestructible
    ensures WriteAfter(cur, write, next)[y][x] == write[y][x] ||
            (InWindow(next, y, x) && next[y][x].Indestructible? && WriteAfter(cur, write, next)[y][x] == NoBlock)
  {
  }

  /** A colour-only change (`Filled(a)` to `Filled(b)`) draws nothing and keeps the old colour. */
  lemma ColorChangeIgnored(cur: Grid, write: Grid, next: Grid, y: nat, x: nat, a: BlockColor, b: BlockColor)
    requires Indexable(cur, write, next) && InWindow(next, y, x)
    requires cur[y][x] == Filled(a) && next[y][x] == Filled(b)
    ensures CurrentAfter(cur, write, next)[y][x] == Filled(a)
    ensures WriteAfter(cur, write, next)[y][x] == NoBlock
  {
  }

  /** After the diff the current grid agrees in kind with the new grid everywhere in the window but at borders. */
  lemma {:induction false} DiffConverges(cur: Grid, write: Grid, next: Grid)
    requires Indexable(cur, write, next)
    ensures var c := CurrentAfter(cur, write, next);
      forall y, x :: InWindow(next, y, x) && !cur[y][x].Indestructible? ==> SameKind(c[y][x], next[y][x])
  {
    var c := CurrentAfter(cur, write, next);
    forall y, x | InWindow(next, y, x) && !cur[y][x].Indestructible?
      ensures SameKind(c[y][x], next[y][x])
    {
      assert c[y] == RowCurrent(cur[y], next[y], ScanWidth(next));
    }
  }

  /**
   * A second diff against the same grid changes no current cell and leaves nothing to draw
   * in the window except at borders that the new grid does not share.
   */
  lemma {:induction false} DiffIdempotent(cur: Grid, write: Grid, next: Grid)
    requires Indexable(cur, write, next)
    ensures Indexable(CurrentAfter(cur, write, next), WriteAfter(cur, write, next), next)
    ensures var c := CurrentAfter(cur, write, next); var w := WriteAfter(cur, write, next);
      CurrentAfter(c, w, next) == c &&
      forall y, x :: InWindow(next, y, x) && !cur[y][x].Indestructible? ==> WriteAfter(c, w, next)[y][x] == NoBlock
  {
    var c := CurrentAfter(cur, write, next);
    var w := WriteAfter(cur, write, next);
    DiffConverges(cur, write, next);
    var c2 := CurrentAfter(c, w, next);
    forall y | 0 <= y < |c| ensures c2[y] == c[y] {
      if y < |next| {
        forall x | 0 <= x < |c[y]| ensures c2[y][x] == c[y][x] {
          if x < ScanWidth(next) {
            assert c[y][x] == CellCurrent(cur[y][x], next[y][x]);
          }
        }
      }
    }
    forall y, x | InWindow(next, y, x) && !cur[y][x].Indestructible?
      ensures WriteAfter(c, w, next)[y][x] == NoBlock
    {
      assert SameKind(c[y][x], next[y][x]);
    }
  }

  // ---------------------------------------------------------------------------
  // The renderer
  // ---------------------------------------------------------------------------

  /** The part of `TermRenderer` that `update_matrix` reads and writes. */
  class TermRenderer {
    var currentMatrix: Option<Grid>
    var drawBuffer: Option<Grid>

    constructor (current: Option<Grid>, buffer: Option<Grid>)
      ensures currentMatrix == current && drawBuffer == buffer
    {
      currentMatrix := current;
      drawBuffer := buffer;
    }

    /**
     * `update_matrix`: with both grids present, diff `newMatrix` into them cell by cell;
     * with either absent, do nothing.
     */
    method UpdateMatrix(newMatrix: Grid)
      requires currentMatrix.Some? && drawBuffer.Some? ==>
        Indexable(currentMatrix.value, drawBuffer.value, newMatrix)
      modifies this
      ensures old(currentMatrix).None? || old(drawBuffer).None? ==>
        currentMatrix == old(currentMatrix) && drawBuffer == old(drawBuffer)
      ensures old(currentMatrix).Some? && old(drawBuffer).Some? ==>
        && currentMatrix == Some(CurrentAfter(old(currentMatrix).value, old(drawBuffer).value, newMatrix))
        && drawBuffer == Some(WriteAfter(old(currentMatrix).value, old(drawBuffer).value, newMatrix))
    {
      if drawBuffer.None? || currentMatrix.None? {
        return;
      }
      var write := drawBuffer.value;
      var current := currentMatrix.value;
      ghost var cur0 := current;
      ghost var write0 := write;
      var w := ScanWidth(newMatrix);
      for y := 0 to |newMatrix|
        invariant |current| == |cur0| && |write| == |write0|
        invariant forall i :: 0 <= i < y ==> current[i] == RowCurrent(cur0[i], newMatrix[i], w)
        invariant forall i :: 0 <= i < y ==> write[i] == RowWrite(cur0[i], write0[i], newMatrix[i], w)
        invariant forall i :: y <= i < |current| ==> current[i] == cur0[i]
        invariant forall i :: y <= i < |write| ==> write[i] == write0[i]
      {
        var curRow := current[y];
        var writeRow := write[y];
        for x := 0 to w
          invariant |curRow| == |cur0[y]| && |writeRow| == |write0[y]|
          invariant forall j :: 0 <= j < x ==> curRow[j] == CellCurrent(cur0[y][j], newMatrix[y][j])
          invariant forall j :: 0 <= j < x ==> writeRow[j] == CellWrite(cur0[y][j], newMatrix[y][j], write0[y][j])
          invariant forall j :: x <= j < |curRow| ==> curRow[j] == cur0[y][j]
          invariant forall j :: x <= j < |writeRow| ==> writeRow[j] == write0[y][j]
        {
          if SameKind(curRow[x], newMatrix[y][x]) {
            writeRow := writeRow[x := NoBlock];
          } else if !curRow[x].Indestructible? {
            writeRow := writeRow[x := newMatrix[y][x]];
            curRow := curRow[x := newMatrix[y][x]];
          }
        }
        assert curRow == RowCurrent(cur0[y], newMatrix[y], w);
        assert writeRow == RowWrite(cur0[y], write0[y], newMatrix[y], w);
        current := current[y := curRow];
        write := write[y := writeRow];
      }
      assert current == CurrentAfter(cur0, write0, newMatrix);
      assert write == WriteAfter(cur0, write0, newMatrix);
      drawBuffer := Some(write);
      currentMatrix := Some(current);
    }
  }
}
