/**
 * Shared vocabulary of the game engine: cell kinds, colours, orientations and the
 * rotation algebra, game states, player moves and the UI-to-master message.
 */
module Tootris {
  import opened Wrappers

  datatype BlockColor = Blue | Magenta | Yellow | Green | Cyan | White | Undefined

  /**
   * A playfield cell. `NoBlock` is the source's `GameBlock::None` (used by the renderer
   * as "nothing to draw"); `Text` stands for the banner cell that piece placement writes
   * (the source names it `GameBlock::String` but leaves it out of the enum). A text cell
   * carries the line number of the banner text it shows, not the text itself.
   */
  datatype GameBlock =
    | Filled(color: BlockColor)
    | Origin(color: BlockColor)
    | Empty
    | Indestructible
    | NoBlock
    | Text(line: nat, color: BlockColor)

  /** The variant index of a cell, as `std::mem::discriminant` sees it. */
  function Discriminant(b: GameBlock): nat {
    match b
    case Filled(_) => 0
    case Origin(_) => 1
    case Empty => 2
    case Indestructible => 3
    case NoBlock => 4
    case Text(_, _) => 5
  }

  /** The source's `==` on cells: two cells are equal when they are the same variant. */
  predicate SameKind(a: GameBlock, b: GameBlock) {
    Discriminant(a) == Discriminant(b)
  }

  /** SameKind holds exactly when both cells are built by the same constructor. */
  lemma SameKindIsSameConstructor(a: GameBlock, b: GameBlock)
    ensures SameKind(a, b) <==>
      && (a.Filled? <==> b.Filled?)
      && (a.Origin? <==> b.Origin?)
      && (a.Empty? <==> b.Empty?)
      && (a.Indestructible? <==> b.Indestructible?)
      && (a.NoBlock? <==> b.NoBlock?)
      && (a.Text? <==> b.Text?)
  {
  }

  /** Colour is ignored by cell equality; a filled cell never equals an empty one. */
  lemma SameKindIgnoresColor(c: BlockColor, d: BlockColor)
    ensures SameKind(Filled(c), Filled(d))
    ensures SameKind(Filled(Blue), Filled(Magenta))
    ensures !SameKind(Filled(c), Empty)
    ensures !SameKind(Origin(c), Filled(d))
  {
  }

  /** Cell equality is an equivalence relation. */
  lemma SameKindIsEquivalence(a: GameBlock, b: GameBlock, c: GameBlock)
    ensures SameKind(a, a)
    ensures SameKind(a, b) ==> SameKind(b, a)
    ensures SameKind(a, b) && SameKind(b, c) ==> SameKind(a, c)
  {
  }

  /** `get_color`: only a `Filled` cell reports a colour (an `Origin` cell does not). */
  function GetColor(b: GameBlock): (r: Option<BlockColor>)
    ensures r.Some? <==> b.Filled?
    ensures r.Some? ==> r.value == b.color
  {
    match b
    case Filled(c) => Some(c)
    case _ => None
  }

  /** `is_any`: does some cell of `of` have the same variant as `b`? A scan with early return. */
  function IsAny(b: GameBlock, of: seq<GameBlock>): (r: bool)
    ensures r <==> exists i :: 0 <= i < |of| && SameKind(of[i], b)
  {
    if |of| == 0 then false
    else if SameKind(of[0], b) then true
    else
      var rest := IsAny(b, of[1..]);
      assert forall i :: 1 <= i < |of| ==> of[i] == of[1..][i - 1];
      rest
  }

  /** A playfield or render grid, row by row: `g[y][x]`. */
  type Grid = seq<seq<GameBlock>>

  datatype Orientation = Normal | Forward | Backwards | UpsideDown

  datatype Rotation = Forward | Backward | OrientLeft | OrientRight | OrientUp | OrientDown

  /** `Rotation::perform`: the orientation a rotation leads to from `o`. A relative turn always changes it. */
  function Perform(rot: Rotation, o: Orientation): (r: Orientation)
    ensures (rot.Forward? || rot.Backward?) ==> r != o
  {
    match rot
    case Backward =>
      (match o
       case Normal => Orientation.Backwards
       case Backwards => Orientation.UpsideDown
       case UpsideDown => Orientation.Forward
       case Forward => Orientation.Normal)
    case Forward =>
      (match o
       case Normal => Orientation.Forward
       case Backwards => Orientation.Normal
       case UpsideDown => Orientation.Backwards
       case Forward => Orientation.UpsideDown)
    case OrientLeft => Orientation.Backwards
    case OrientRight => Orientation.Forward
    case OrientUp => Orientation.Normal
    case OrientDown => Orientation.UpsideDown
  }

  /** Forward walks the cycle Normal, Forward, UpsideDown, Backwards and back to Normal. */
  lemma ForwardCycle()
    ensures Perform(Rotation.Forward, Orientation.Normal) == Orientation.Forward
    ensures Perform(Rotation.Forward, Orientation.Forward) == Orientation.UpsideDown
    ensures Perform(Rotation.Forward, Orientation.UpsideDown) == Orientation.Backwards
    ensures Perform(Rotation.Forward, Orientation.Backwards) == Orientation.Normal
  {
  }

  /** Backward undoes Forward and Forward undoes Backward. */
  lemma BackwardInvertsForward(o: Orientation)
    ensures Perform(Rotation.Backward, Perform(Rotation.Forward, o)) == o
    ensures Perform(Rotation.Forward, Perform(Rotation.Backward, o)) == o
  {
  }

  /** Four forward turns bring every orientation back to itself. */
  lemma ForwardFourTimes(o: Orientation)
    ensures Perform(Rotation.Forward, Perform(Rotation.Forward,
              Perform(Rotation.Forward, Perform(Rotation.Forward, o)))) == o
  {
  }

  /** The four absolute rotations ignore the orientation they start from. */
  lemma AbsoluteRotations(o: Orientation)
    ensures Perform(Rotation.OrientLeft, o) == Orientation.Backwards
    ensures Perform(Rotation.OrientRight, o) == Orientation.Forward
    ensures Perform(Rotation.OrientUp, o) == Orientation.Normal
    ensures Perform(Rotation.OrientDown, o) == Orientation.UpsideDown
  {
  }

  /** A grid coordinate; y grows downward. Integers, so that an underflowing subtraction stays visible. */
  datatype Point = Point(x: int, y: int)

  datatype UiCommand = New | Pause | Resume | Exit | RenderOffset(offset: Point) | Write(text: string, at: Point)

  datatype GameState = Paused | Playing | Start | Tootris | End | Exit

  datatype PlayerMove =
    | StepRight | StepLeft | StepDown | RotateForward | Drop | StopDrop
    | OrientLeft | OrientRight | OrientUp | OrientDown

  datatype Communique = Update | Info(info: string) | Error(error: string)

  /** A message from the UI to the game master: a lifecycle command, a player move, or both. */
  datatype Ui2MasterCommunique = Ui2MasterCommunique(
    commType: Communique,
    command: Option<UiCommand>,
    playerMove: Option<PlayerMove>)
  {
    predicate IsPlayerMove() { playerMove.Some? }

    predicate IsCommand() { command.Some? }
  }

  /** The two flags read different fields: each combination of them is possible. */
  lemma CommuniqueFlagsIndependent(c: Option<UiCommand>, m: Option<PlayerMove>)
    ensures Ui2MasterCommunique(Update, c, m).IsCommand() <==> c.Some?
    ensures Ui2MasterCommunique(Update, c, m).IsPlayerMove() <==> m.Some?
  {
  }
}
