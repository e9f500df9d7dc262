/** Record shapes, the piece catalog and the game configuration of Block Grid
    (src/types/game.ts). Nothing here changes state. */
module GameTypes {

  datatype Option<T> = None | Some(value: T)

  /** A board coordinate or a block offset. */
  datatype Position = Position(x: int, y: int)

  /** A board cell: only `filled` carries logic; `color` is a rendering hint. */
  datatype Cell = Cell(filled: bool, color: Option<string>)

  /** Rows of cells, indexed board[y][x]. */
  type Board = seq<seq<Cell>>

  /** A catalog entry: offsets are relative to the anchor a piece is dropped at. */
  datatype PieceShape = PieceShape(id: string, name: string, blocks: seq<Position>, color: string)

  /** The generated piece identifier: the shape id and the value the piece counter
      had when the piece was made (the creation timestamp is not modelled). */
  datatype PieceId = PieceId(shapeId: string, serial: nat)

  /** A catalog shape instantiated for the queue. */
  datatype GamePiece = GamePiece(id: PieceId, name: string, blocks: seq<Position>, color: string,
                                 position: Position, isActive: bool)

  datatype GameState = GameState(board: Board, pieces: seq<GamePiece>, score: real, highScore: real,
                                 comboMultiplier: real, comboCount: int, isGameOver: bool, isPaused: bool,
                                 clearedLines: nat, clearedColumns: nat, clearedBlocks: nat)

  /** What one clearing pass found and awarded. */
  datatype ClearResult = ClearResult(clearedLines: seq<int>, clearedColumns: seq<int>,
                                     clearedBlocks: seq<Position>, totalClearedCells: int,
                                     score: real, combo: int)

  datatype DropResult = DropResult(success: bool, position: Option<Position>, clearResult: Option<ClearResult>)

  datatype PiecePreview = PiecePreview(position: Position, valid: bool, piece: GamePiece)

  datatype GameEvent =
    | PiecePlaced | LineCleared | ColumnCleared | BlockCleared
    | ComboAchieved | GameOver | NewHighScore | PieceGenerated

  // GAME_CONFIG
  const BoardSize: nat := 8
  const PieceQueueSize: nat := 3
  const BaseScore: int := 10
  const LineBonus: int := 80
  const ColumnBonus: int := 80
  const BlockBonus: int := 120
  const MaxComboMultiplier: real := 5.0
  const ComboMultipliers: seq<real> := [1.0, 1.5, 2.0, 2.5, 3.0, 3.5, 4.0, 4.5, 5.0]

  // PIECE_SHAPES
  const PieceShapes: seq<PieceShape> := [
    PieceShape("single", "Single", [Position(0, 0)], "#3B82F6"),
    PieceShape("line_h2", "Line H2", [Position(0, 0), Position(1, 0)], "#EF4444"),
    PieceShape("line_h3", "Line H3", [Position(0, 0), Position(1, 0), Position(2, 0)], "#10B981"),
    PieceShape("line_h4", "Line H4", [Position(0, 0), Position(1, 0), Position(2, 0), Position(3, 0)], "#F59E0B"),
    PieceShape("line_v2", "Line V2", [Position(0, 0), Position(0, 1)], "#EF4444"),
    PieceShape("line_v3", "Line V3", [Position(0, 0), Position(0, 1), Position(0, 2)], "#10B981"),
    PieceShape("line_v4", "Line V4", [Position(0, 0), Position(0, 1), Position(0, 2), Position(0, 3)], "#F59E0B"),
    PieceShape("square_2x2", "Square 2x2",
               [Position(0, 0), Position(1, 0),
                Position(0, 1), Position(1, 1)], "#8B5CF6"),
    PieceShape("square_3x3", "Square 3x3",
               [Position(0, 0), Position(1, 0), Position(2, 0),
                Position(0, 1), Position(1, 1), Position(2, 1),
                Position(0, 2), Position(1, 2), Position(2, 2)], "#EC4899"),
    PieceShape("l_shape", "L-Shape", [Position(0, 0), Position(0, 1), Position(0, 2), Position(1, 2)], "#06B6D4"),
    PieceShape("t_shape", "T-Shape",
               [Position(1, 0),
                Position(0, 1), Position(1, 1), Position(2, 1),
                Position(1, 2)], "#F97316")
  ]

  /** The combo table is ascending from 1 to the configured maximum. */
  predicate StrictlyAscendingReals(s: seq<real>) {
    forall i, j :: 0 <= i < j < |s| ==> s[i] < s[j]
  }

  lemma ComboTableShape()
    ensures |ComboMultipliers| == 9
    ensures StrictlyAscendingReals(ComboMultipliers)
    ensures ComboMultipliers[0] == 1.0
    ensures ComboMultipliers[|ComboMultipliers| - 1] == MaxComboMultiplier == 5.0
  {
  }

  /** Offsets lie in [0,3] on both axes, none repeats, and some offset touches x = 0
      and some touches y = 0: an anchor that fits is then inside the board. */
  predicate WellFormedShape(blocks: seq<Position>) {
    && |blocks| > 0
    && (forall i :: 0 <= i < |blocks| ==> 0 <= blocks[i].x <= 3 && 0 <= blocks[i].y <= 3)
    && (forall i, j :: 0 <= i < j < |blocks| ==> blocks[i] != blocks[j])
    && (exists i :: 0 <= i < |blocks| && blocks[i].x == 0)
    && (exists i :: 0 <= i < |blocks| && blocks[i].y == 0)
  }

  lemma CatalogIdsDistinct()
    ensures |PieceShapes| == 11
    ensures forall i, j :: 0 <= i < j < |PieceShapes| ==> PieceShapes[i].id != PieceShapes[j].id
  {
    assert |PieceShapes[0].id| != |PieceShapes[1].id|;
    assert |PieceShapes[0].id| != |PieceShapes[2].id|;
    assert |PieceShapes[0].id| != |PieceShapes[3].id|;
    assert |PieceShapes[0].id| != |PieceShapes[4].id|;
    assert |PieceShapes[0].id| != |PieceShapes[5].id|;
    assert |PieceShapes[0].id| != |PieceShapes[6].id|;
    assert |PieceShapes[0].id| != |PieceShapes[7].id|;
    assert |PieceShapes[0].id| != |PieceShapes[8].id|;
    assert |PieceShapes[0].id| != |PieceShapes[9].id|;
    assert |PieceShapes[0].id| != |PieceShapes[10].id|;
    assert PieceShapes[1].id[6] != PieceShapes[2].id[6];
    assert PieceShapes[1].id[6] != PieceShapes[3].id[6];
    assert PieceShapes[1].id[5] != PieceShapes[4].id[5];
    assert PieceShapes[1].id[5] != PieceShapes[5].id[5];
    assert PieceShapes[1].id[5] != PieceShapes[6].id[5];
    assert |PieceShapes[1].id| != |PieceShapes[7].id|;
    assert |PieceShapes[1].id| != |PieceShapes[8].id|;
    assert PieceShapes[1].id[1] != PieceShapes[9].id[1];
    assert PieceShapes[1].id[0] != PieceShapes[10].id[0];
    assert PieceShapes[2].id[6] != PieceShapes[3].id[6];
    assert PieceShapes[2].id[5] != PieceShapes[4].id[5];
    assert PieceShapes[2].id[5] != PieceShapes[5].id[5];
    assert PieceShapes[2].id[5] != PieceShapes[6].id[5];
    assert |PieceShapes[2].id| != |PieceShapes[7].id|;
    assert |PieceShapes[2].id| != |PieceShapes[8].id|;
    assert PieceShapes[2].id[1] != PieceShapes[9].id[1];
    assert PieceShapes[2].id[0] != PieceShapes[10].id[0];
    assert PieceShapes[3].id[5] != PieceShapes[4].id[5];
    assert PieceShapes[3].id[5] != PieceShapes[5].id[5];
    assert PieceShapes[3].id[5] != PieceShapes[6].id[5];
    assert |PieceShapes[3].id| != |PieceShapes[7].id|;
    assert |PieceShapes[3].id| != |PieceShapes[8].id|;
    assert PieceShapes[3].id[1] != PieceShapes[9].id[1];
    assert PieceShapes[3].id[0] != PieceShapes[10].id[0];
    assert PieceShapes[4].id[6] != PieceShapes[5].id[6];
    assert PieceShapes[4].id[6] != PieceShapes[6].id[6];
    assert |PieceShapes[4].id| != |PieceShapes[7].id|;
    assert |PieceShapes[4].id| != |PieceShapes[8].id|;
    assert PieceShapes[4].id[1] != PieceShapes[9].id[1];
    assert PieceShapes[4].id[0] != PieceShapes[10].id[0];
    assert PieceShapes[5].id[6] != PieceShapes[6].id[6];
    assert |PieceShapes[5].id| != |PieceShapes[7].id|;
    assert |PieceShapes[5].id| != |PieceShapes[8].id|;
    assert PieceShapes[5].id[1] != PieceShapes[9].id[1];
    assert PieceShapes[5].id[0] != PieceShapes[10].id[0];
    assert |PieceShapes[6].id| != |PieceShapes[7].id|;
    assert |PieceShapes[6].id| != |PieceShapes[8].id|;
    assert PieceShapes[6].id[1] != PieceShapes[9].id[1];
    assert PieceShapes[6].id[0] != PieceShapes[10].id[0];
    assert PieceShapes[7].id[7] != PieceShapes[8].id[7];
    assert |PieceShapes[7].id| != |PieceShapes[9].id|;
    assert |PieceShapes[7].id| != |PieceShapes[10].id|;
    assert |PieceShapes[8].id| != |PieceShapes[9].id|;
    assert |PieceShapes[8].id| != |PieceShapes[10].id|;
    assert PieceShapes[9].id[0] != PieceShapes[10].id[0];
  }

  /** Every catalog shape is well formed. */
  lemma ShapeWellFormed(k: nat)
    requires k < |PieceShapes|
    ensures WellFormedShape(PieceShapes[k].blocks)
  {
    if k == 0 {
      SingleWellFormed();
    } else if k == 1 {
      LineH2WellFormed();
    } else if k == 2 {
      LineH3WellFormed();
    } else if k == 3 {
      LineH4WellFormed();
    } else if k == 4 {
      LineV2WellFormed();
    } else if k == 5 {
      LineV3WellFormed();
    } else if k == 6 {
      LineV4WellFormed();
    } else if k == 7 {
      Square2x2WellFormed();
    } else if k == 8 {
      Square3x3WellFormed();
    } else if k == 9 {
      LShapeWellFormed();
    } else {
      TShapeWellFormed();
    }
  }

  lemma SingleWellFormed()
    ensures WellFormedShape(PieceShapes[0].blocks)
  {
    assert PieceShapes[0].blocks[0].x == 0 && PieceShapes[0].blocks[0].y == 0;
  }

  lemma LineH2WellFormed()
    ensures WellFormedShape(PieceShapes[1].blocks)
  {
    assert PieceShapes[1].blocks[0].x == 0 && PieceShapes[1].blocks[0].y == 0;
  }

  lemma LineH3WellFormed()
    ensures WellFormedShape(PieceShapes[2].blocks)
  {
    assert PieceShapes[2].blocks[0].x == 0 && PieceShapes[2].blocks[0].y == 0;
  }

  lemma LineH4WellFormed()
    ensures WellFormedShape(PieceShapes[3].blocks)
  {
    assert PieceShapes[3].blocks[0].x == 0 && PieceShapes[3].blocks[0].y == 0;
  }

  lemma LineV2WellFormed()
    ensures WellFormedShape(PieceShapes[4].blocks)
  {
    assert PieceShapes[4].blocks[0].x == 0 && PieceShapes[4].blocks[0].y == 0;
  }

  lemma LineV3WellFormed()
    ensures WellFormedShape(PieceShapes[5].blocks)
  {
    assert PieceShapes[5].blocks[0].x == 0 && PieceShapes[5].blocks[0].y == 0;
  }

  lemma LineV4WellFormed()
    ensures WellFormedShape(PieceShapes[6].blocks)
  {
    assert PieceShapes[6].blocks[0].x == 0 && PieceShapes[6].blocks[0].y == 0;
  }

  lemma Square2x2WellFormed()
    ensures WellFormedShape(PieceShapes[7].blocks)
  {
    assert PieceShapes[7].blocks[0].x == 0 && PieceShapes[7].blocks[0].y == 0;
  }

  lemma Square3x3WellFormed()
    ensures WellFormedShape(PieceShapes[8].blocks)
  {
    assert PieceShapes[8].blocks[0].x == 0 && PieceShapes[8].blocks[0].y == 0;
  }

  lemma LShapeWellFormed()
    ensures WellFormedShape(PieceShapes[9].blocks)
  {
    assert PieceShapes[9].blocks[0].x == 0 && PieceShapes[9].blocks[0].y == 0;
  }

  lemma TShapeWellFormed()
    ensures WellFormedShape(PieceShapes[10].blocks)
  {
    assert PieceShapes[10].blocks[1].x == 0 && PieceShapes[10].blocks[0].y == 0;
  }

  lemma CatalogCellCounts()
    ensures |PieceShapes[0].blocks| == 1
    ensures |PieceShapes[1].blocks| == 2 && |PieceShapes[4].blocks| == 2
    ensures |PieceShapes[2].blocks| == 3 && |PieceShapes[5].blocks| == 3
    ensures |PieceShapes[3].blocks| == 4 && |PieceShapes[6].blocks| == 4
    ensures |PieceShapes[7].blocks| == 4 && |PieceShapes[8].blocks| == 9
    ensures |PieceShapes[9].blocks| == 4 && |PieceShapes[10].blocks| == 5
  {
  }
}
