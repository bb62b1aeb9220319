/**
 * The piece catalog: definition cells, the static definition tables of the seven
 * tetrominoes and the game-over banner, and the name-indexed lookup.
 */
module PieceTypes {

  datatype PieceFreezeProperty = Normal | FreeSpin

  /** A definition cell. A `Text` cell holds the 1-based number of the banner line it shows. */
  datatype DefinitionBlock = Origin | Filled | Blank | Text(line: nat)

  type Definition = seq<seq<DefinitionBlock>>

  datatype PieceDefinition = PieceDefinition(def: Definition, prop: PieceFreezeProperty)

  /** Every row has the length of the first. */
  predicate Rectangular<T>(m: seq<seq<T>>) {
    forall y :: 0 <= y < |m| ==> |m[y]| == |m[0]|
  }

  /** A non-empty rectangular matrix with non-empty rows. */
  predicate WellFormed<T>(m: seq<seq<T>>) {
    |m| >= 1 && |m[0]| >= 1 && Rectangular(m)
  }

  /** `get_string_visual`: '#' for the cells a piece occupies with a block, ' ' for the rest. */
  function GetStringVisual(b: DefinitionBlock): (r: char)
    ensures r == '#' <==> (b.Origin? || b.Filled?)
    ensures r != '#' ==> r == ' '
  {
    match b
    case Origin => '#'
    case Filled => '#'
    case Blank => ' '
    case _ => ' '
  }

  const PieceLine: string := "line"
  const PieceSquare: string := "square"
  const PiecePodium: string := "podium"
  const PieceL: string := "lpiece"
  const PieceJ: string := "jpiece"
  const PieceS: string := "spiece"
  const PieceZ: string := "zpiece"
  /** The banner's key; its value is not part of the modelled settings, any name distinct from the seven works. */
  const GameOverPiece: string := "game_over"

  /** The seven tetromino keys, in the order the random piece choice numbers them. */
  const Tetrominoes: seq<string> := [PieceLine, PieceSquare, PiecePodium, PieceL, PieceJ, PieceS, PieceZ]

  const Square: Definition := [
    [Origin, Origin],
    [Origin, Origin]]

  const Line: Definition := [[Filled, Origin, Filled, Filled]]

  const Podium: Definition := [
    [Blank, Filled, Blank],
    [Filled, Origin, Filled]]

  const SPiece: Definition := [
    [Blank, Filled, Filled],
    [Filled, Origin, Blank]]

  const ZPiece: Definition := [
    [Filled, Origin, Blank],
    [Blank, Filled, Filled]]

  const LPiece: Definition := [
    [Filled, Blank],
    [Origin, Blank],
    [Filled, Filled]]

  const JPiece: Definition := [
    [Blank, Filled],
    [Blank, Origin],
    [Filled, Filled]]

  const GameOver: Definition := [
    [Text(1)], [Text(2)], [Text(3)], [Text(4)], [Text(5)], [Text(6)], [Text(7)],
    [Origin]]

  /** Number of cells of a row that are not `Blank`. */
  function CountNonBlankRow(row: seq<DefinitionBlock>): nat {
    if |row| == 0 then 0 else (if row[0].Blank? then 0 else 1) + CountNonBlankRow(row[1..])
  }

  /** Number of cells of a definition that are not `Blank`. */
  function CountNonBlank(d: Definition): nat {
    if |d| == 0 then 0 else CountNonBlankRow(d[0]) + CountNonBlank(d[1..])
  }

  function CountOriginRow(row: seq<DefinitionBlock>): nat {
    if |row| == 0 then 0 else (if row[0].Origin? then 1 else 0) + CountOriginRow(row[1..])
  }

  /** Number of `Origin` cells of a definition. */
  function CountOrigin(d: Definition): nat {
    if |d| == 0 then 0 else CountOriginRow(d[0]) + CountOrigin(d[1..])
  }

  /** `double_vec!`: a fresh copy of a table built row by row and cell by cell. */
  method DoubleVec(t: Definition) returns (r: Definition)
    ensures |r| == |t|
    ensures forall y :: 0 <= y < |t| ==> r[y] == t[y]
    ensures r == t
  {
    r := [];
    for column := 0 to |t|
      invariant r == t[..column]
    {
      var inner: seq<DefinitionBlock> := [];
      for row := 0 to |t[column]|
        invariant inner == t[column][..row]
      {
        inner := inner + [t[column][row]];
      }
      assert inner == t[column];
      assert t[..column + 1] == t[..column] + [t[column]];
      r := r + [inner];
    }
    assert t[..|t|] == t;
  }

  /** The catalog `get_piece_map` builds. */
  function PieceMap(): map<string, PieceDefinition> {
    map[
      PieceLine := PieceDefinition(Line, Normal),
      PieceSquare := PieceDefinition(Square, Normal),
      PiecePodium := PieceDefinition(Podium, FreeSpin),
      PieceL := PieceDefinition(LPiece, Normal),
      PieceJ := PieceDefinition(JPiece, Normal),
      PieceS := PieceDefinition(SPiece, Normal),
      PieceZ := PieceDefinition(ZPiece, Normal),
      GameOverPiece := PieceDefinition(GameOver, Normal)]
  }

  /** `get_piece_map`: eight inserts, each of a copied table. */
  method GetPieceMap() returns (m: map<string, PieceDefinition>)
    ensures m.Keys == {PieceLine, PieceSquare, PiecePodium, PieceL, PieceJ, PieceS, PieceZ, GameOverPiece}
    ensures m == PieceMap()
  {
    m := map[];
    var d := DoubleVec(Line);
    m := m[PieceLine := PieceDefinition(d, Normal)];
    d := DoubleVec(Square);
    m := m[PieceSquare := PieceDefinition(d, Normal)];
    d := DoubleVec(Podium);
    m := m[PiecePodium := PieceDefinition(d, FreeSpin)];
    d := DoubleVec(LPiece);
    m := m[PieceL := PieceDefinition(d, Normal)];
    d := DoubleVec(JPiece);
    m := m[PieceJ := PieceDefinition(d, Normal)];
    d := DoubleVec(SPiece);
    m := m[PieceS := PieceDefinition(d, Normal)];
    d := DoubleVec(ZPiece);
    m := m[PieceZ := PieceDefinition(d, Normal)];
    d := DoubleVec(GameOver);
    m := m[GameOverPiece := PieceDefinition(d, Normal)];
  }

  /**
   * `get_piece_def`: the definition registered under `key`. An unregistered key is a
   * panic in the source, hence the precondition.
   */
  function GetPieceDef(key: string): (d: PieceDefinition)
    requires key in PieceMap()
    ensures WellFormed(d.def)
    ensures CountOrigin(d.def) == (if key == PieceSquare then 4 else 1)
    ensures d.prop == FreeSpin <==> key == PiecePodium
    ensures key != GameOverPiece ==> CountNonBlank(d.def) == 4
    ensures key == GameOverPiece <==> d.def == GameOver
  {
    EntryHolds(key);
    PieceMap()[key]
  }

  /** The catalog holds exactly the seven tetrominoes and the banner. */
  lemma CatalogKeys()
    ensures PieceMap().Keys == set k | k in Tetrominoes + [GameOverPiece]
    ensures |PieceMap().Keys| == 8
  {
    var ks := PieceMap().Keys;
    assert ks == {PieceLine, PieceSquare, PiecePodium, PieceL, PieceJ, PieceS, PieceZ, GameOverPiece};
    NamesDistinct();
  }

  /** The eight names are pairwise different. */
  lemma NamesDistinct()
    ensures |{PieceLine, PieceSquare, PiecePodium, PieceL, PieceJ, PieceS, PieceZ, GameOverPiece}| == 8
  {
    var tetrominoes := {PieceLine, PieceSquare, PiecePodium, PieceL, PieceJ, PieceS, PieceZ};
    TetrominoNamesDistinct();
    // The banner's name is longer than every tetromino's.
    assert GameOverPiece !in tetrominoes by {
      assert |GameOverPiece| == 9 && |PieceLine| == 4;
      assert |PieceSquare| == |PiecePodium| == |PieceL| == |PieceJ| == |PieceS| == |PieceZ| == 6;
    }
    assert {PieceLine, PieceSquare, PiecePodium, PieceL, PieceJ, PieceS, PieceZ, GameOverPiece} ==
      tetrominoes + {GameOverPiece};
  }

  lemma TetrominoNamesDistinct()
    ensures |{PieceLine, PieceSquare, PiecePodium, PieceL, PieceJ, PieceS, PieceZ}| == 7
  {
    FirstNamesDistinct();
    SecondNamesDistinct();
    NameGroupsDisjoint();
    assert {PieceLine, PieceSquare, PiecePodium, PieceL, PieceJ, PieceS, PieceZ} ==
      {PieceLine, PieceSquare, PiecePodium} + {PieceL, PieceJ, PieceS, PieceZ};
  }

  /** The second letter of the four "...piece" names is 'p'; that of the other three is not. */
  lemma NameGroupsDisjoint()
    ensures {PieceLine, PieceSquare, PiecePodium} * {PieceL, PieceJ, PieceS, PieceZ} == {}
  {
    assert PieceLine[1] == 'i' && PieceSquare[1] == 'q' && PiecePodium[1] == 'o';
    assert PieceL[1] == 'p' && PieceJ[1] == 'p' && PieceS[1] == 'p' && PieceZ[1] == 'p';
  }

  lemma FirstNamesDistinct()
    ensures |{PieceLine, PieceSquare, PiecePodium}| == 3
  {
    assert PieceLine[0] != PieceSquare[0] && PieceLine[0] != PiecePodium[0] && PieceSquare[0] != PiecePodium[0];
    assert {PieceLine, PieceSquare, PiecePodium} == {PieceLine} + {PieceSquare} + {PiecePodium};
  }

  lemma SecondNamesDistinct()
    ensures |{PieceL, PieceJ, PieceS, PieceZ}| == 4
  {
    assert {PieceL, PieceJ, PieceS, PieceZ} == {PieceL} + {PieceJ} + {PieceS} + {PieceZ};
  }

  /** Cell counts of one table: how many cells are not `Blank`, how many are `Origin`. */
  predicate HasCounts(d: Definition, nonBlank: nat, origins: nat) {
    CountNonBlank(d) == nonBlank && CountOrigin(d) == origins
  }

  function BlockNonBlank(b: DefinitionBlock): nat { if b.Blank? then 0 else 1 }

  function BlockOrigin(b: DefinitionBlock): nat { if b.Origin? then 1 else 0 }

  lemma RowCounts1(a: DefinitionBlock)
    ensures CountNonBlankRow([a]) == BlockNonBlank(a)
    ensures CountOriginRow([a]) == BlockOrigin(a)
  {
    assert [a][1..] == [];
  }

  lemma RowCounts2(a: DefinitionBlock, b: DefinitionBlock)
    ensures CountNonBlankRow([a, b]) == BlockNonBlank(a) + BlockNonBlank(b)
    ensures CountOriginRow([a, b]) == BlockOrigin(a) + BlockOrigin(b)
  {
    assert [a, b][1..] == [b];
    RowCounts1(b);
  }

  lemma RowCounts3(a: DefinitionBlock, b: DefinitionBlock, c: DefinitionBlock)
    ensures CountNonBlankRow([a, b, c]) == BlockNonBlank(a) + BlockNonBlank(b) + BlockNonBlank(c)
    ensures CountOriginRow([a, b, c]) == BlockOrigin(a) + BlockOrigin(b) + BlockOrigin(c)
  {
    assert [a, b, c][1..] == [b, c];
    RowCounts2(b, c);
  }

  lemma RowCounts4(a: DefinitionBlock, b: DefinitionBlock, c: DefinitionBlock, d: DefinitionBlock)
    ensures CountNonBlankRow([a, b, c, d]) == BlockNonBlank(a) + BlockNonBlank(b) + BlockNonBlank(c) + BlockNonBlank(d)
    ensures CountOriginRow([a, b, c, d]) == BlockOrigin(a) + BlockOrigin(b) + BlockOrigin(c) + BlockOrigin(d)
  {
    assert [a, b, c, d][1..] == [b, c, d];
    RowCounts3(b, c, d);
  }

  /** The counts of a definition are the sums of its first row's counts and the rest's. */
  lemma DefCountsCons(r: seq<DefinitionBlock>, rest: Definition)
    ensures CountNonBlank([r] + rest) == CountNonBlankRow(r) + CountNonBlank(rest)
    ensures CountOrigin([r] + rest) == CountOriginRow(r) + CountOrigin(rest)
  {
    assert ([r] + rest)[1..] == rest;
  }

  lemma LineCounts() ensures HasCounts(Line, 4, 1) {
    RowCounts4(Filled, Origin, Filled, Filled);
    DefCountsCons(Line[0], []);
  }

  lemma SquareCounts() ensures HasCounts(Square, 4, 4) {
    RowCounts2(Origin, Origin);
    DefCountsCons(Square[1], []);
    DefCountsCons(Square[0], [Square[1]]);
  }

  lemma PodiumCounts() ensures HasCounts(Podium, 4, 1) {
    RowCounts3(Blank, Filled, Blank);
    RowCounts3(Filled, Origin, Filled);
    DefCountsCons(Podium[1], []);
    DefCountsCons(Podium[0], [Podium[1]]);
  }

  lemma SPieceCounts() ensures HasCounts(SPiece, 4, 1) {
    RowCounts3(Blank, Filled, Filled);
    RowCounts3(Filled, Origin, Blank);
    DefCountsCons(SPiece[1], []);
    DefCountsCons(SPiece[0], [SPiece[1]]);
  }

  lemma ZPieceCounts() ensures HasCounts(ZPiece, 4, 1) {
    RowCounts3(Filled, Origin, Blank);
    RowCounts3(Blank, Filled, Filled);
    DefCountsCons(ZPiece[1], []);
    DefCountsCons(ZPiece[0], [ZPiece[1]]);
  }

  lemma LPieceCounts() ensures HasCounts(LPiece, 4, 1) {
    RowCounts2(Filled, Blank);
    RowCounts2(Origin, Blank);
    RowCounts2(Filled, Filled);
    DefCountsCons(LPiece[2], []);
    DefCountsCons(LPiece[1], [LPiece[2]]);
    DefCountsCons(LPiece[0], [LPiece[1], LPiece[2]]);
  }

  lemma JPieceCounts() ensures HasCounts(JPiece, 4, 1) {
    RowCounts2(Blank, Filled);
    RowCounts2(Blank, Origin);
    RowCounts2(Filled, Filled);
    DefCountsCons(JPiece[2], []);
    DefCountsCons(JPiece[1], [JPiece[2]]);
    DefCountsCons(JPiece[0], [JPiece[1], JPiece[2]]);
  }

  /** Counting distributes over concatenation of definitions. */
  lemma {:induction false} CountOriginAppend(a: Definition, b: Definition)
    ensures CountOrigin(a + b) == CountOrigin(a) + CountOrigin(b)
  {
    if |a| > 0 {
      assert (a + b)[1..] == a[1..] + b;
      CountOriginAppend(a[1..], b);
    } else {
      assert a + b == b;
    }
  }

  /** A definition of one-cell rows none of which is an `Origin` has no origin. */
  lemma {:induction false} NoOriginColumn(d: Definition)
    requires forall y :: 0 <= y < |d| ==> |d[y]| == 1 && !d[y][0].Origin?
    ensures CountOrigin(d) == 0
  {
    if |d| > 0 {
      assert d[0] == [d[0][0]];
      RowCounts1(d[0][0]);
      NoOriginColumn(d[1..]);
    }
  }

  lemma GameOverCounts() ensures CountOrigin(GameOver) == 1 {
    assert GameOver == GameOver[..7] + [[Origin]];
    NoOriginColumn(GameOver[..7]);
    CountOriginAppend(GameOver[..7], [[Origin]]);
    RowCounts1(Origin);
    DefCountsCons([Origin], []);
  }

  /** What the catalog promises about the entry registered under `k`. */
  predicate EntryFacts(k: string, d: PieceDefinition) {
    && WellFormed(d.def)
    && CountOrigin(d.def) >= 1
    && (d.prop == FreeSpin <==> k == PiecePodium)
    && (k != GameOverPiece ==> CountNonBlank(d.def) == 4)
    && (k != PieceSquare ==> CountOrigin(d.def) == 1)
    && (k == PieceSquare ==> CountOrigin(d.def) == 4)
    && (k == GameOverPiece <==> d.def == GameOver)
  }

  /**
   * The facts of each entry, one table at a time: every tetromino has four non-blank
   * cells, every table is rectangular and has exactly one origin except the square (four),
   * and only the podium spins freely.
   */
  lemma LineEntry(k: string) requires k == PieceLine ensures EntryFacts(k, PieceMap()[k]) { LineCounts(); }

  lemma SquareEntry(k: string) requires k == PieceSquare ensures EntryFacts(k, PieceMap()[k]) { SquareCounts(); }

  lemma PodiumEntry(k: string) requires k == PiecePodium ensures EntryFacts(k, PieceMap()[k]) { PodiumCounts(); }

  lemma LPieceEntry(k: string) requires k == PieceL ensures EntryFacts(k, PieceMap()[k]) { LPieceCounts(); }

  lemma JPieceEntry(k: string) requires k == PieceJ ensures EntryFacts(k, PieceMap()[k]) { JPieceCounts(); }

  lemma SPieceEntry(k: string) requires k == PieceS ensures EntryFacts(k, PieceMap()[k]) { SPieceCounts(); }

  lemma ZPieceEntry(k: string) requires k == PieceZ ensures EntryFacts(k, PieceMap()[k]) { ZPieceCounts(); }

  lemma GameOverEntry(k: string) requires k == GameOverPiece ensures EntryFacts(k, PieceMap()[k]) { GameOverCounts(); }

  /** The facts of the entry registered under `k`. */
  lemma EntryHolds(k: string)
    requires k in PieceMap()
    ensures EntryFacts(k, PieceMap()[k])
  {
    if k == PieceLine { LineEntry(k); }
    else if k == PieceSquare { SquareEntry(k); }
    else if k == PiecePodium { PodiumEntry(k); }
    else if k == PieceL { LPieceEntry(k); }
    else if k == PieceJ { JPieceEntry(k); }
    else if k == PieceS { SPieceEntry(k); }
    else if k == PieceZ { ZPieceEntry(k); }
    else { GameOverEntry(k); }
  }

  lemma CatalogFacts()
    ensures forall k :: k in Tetrominoes ==> k in PieceMap()
    ensures forall k :: k in PieceMap() ==> EntryFacts(k, PieceMap()[k])
  {
    forall k | k in PieceMap() ensures EntryFacts(k, PieceMap()[k]) {
      EntryHolds(k);
    }
  }

  /** The table dimensions (rows × columns). */
  lemma TableShapes()
    ensures |Square| == 2 && |Square[0]| == 2 && Rectangular(Square)
    ensures |Line| == 1 && |Line[0]| == 4
    ensures |Podium| == 2 && |Podium[0]| == 3 && Rectangular(Podium)
    ensures |SPiece| == 2 && |SPiece[0]| == 3 && Rectangular(SPiece)
    ensures |ZPiece| == 2 && |ZPiece[0]| == 3 && Rectangular(ZPiece)
    ensures |LPiece| == 3 && |LPiece[0]| == 2 && Rectangular(LPiece)
    ensures |JPiece| == 3 && |JPiece[0]| == 2 && Rectangular(JPiece)
    ensures |GameOver| == 8 && |GameOver[0]| == 1 && Rectangular(GameOver)
    ensures forall y :: 0 <= y < 7 ==> GameOver[y][0] == Text(y + 1)
    ensures GameOver[7][0] == Origin
  {
  }
}
