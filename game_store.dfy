/** The game session of Block Grid (src/store/gameStore.ts): one mutable store whose
    actions place pieces, clear full rows, columns and 3x3 tiles, keep the score and the
    combo, refill the queue and detect the end of the game. The transition functions
    below specify the actions; the lemmas after them state what the game promises. */
module GameStore {
  import opened GameTypes
  import opened GameUtils

  /** One call of `emitEvent`: the event type and the listeners it was delivered to. */
  datatype Emission = Emission(event: GameEvent, recipients: seq<nat>)

  // ---------------------------------------------------------------- list helpers

  /** `findIndex` by id: the first queue position holding the id, or -1. */
  function IndexOfId(pieces: seq<GamePiece>, id: PieceId): (r: int)
    ensures -1 <= r < |pieces|
    ensures r == -1 <==> forall k :: 0 <= k < |pieces| ==> pieces[k].id != id
    ensures r >= 0 ==> pieces[r].id == id && forall k :: 0 <= k < r ==> pieces[k].id != id
  {
    if |pieces| == 0 then -1
    else
      var front := IndexOfId(pieces[..|pieces| - 1], id);
      if front != -1 then front
      else if pieces[|pieces| - 1].id == id then |pieces| - 1
      else -1
  }

  /** `indexOf` on the listener list: the first position holding the listener, or -1. */
  function IndexOf(s: seq<nat>, x: nat): (r: int)
    ensures -1 <= r < |s|
    ensures r == -1 <==> x !in s
    ensures r >= 0 ==> s[r] == x && x !in s[..r]
  {
    if |s| == 0 then -1
    else if s[0] == x then 0
    else
      var rest := IndexOf(s[1..], x);
      assert rest >= 0 ==> s[..rest + 1] == [s[0]] + s[1..][..rest];
      if rest == -1 then -1 else rest + 1
  }

  /** The id of the piece at a queue position. */
  function IdAt(pieces: seq<GamePiece>, i: int): PieceId
    requires 0 <= i < |pieces|
  {
    pieces[i].id
  }

  /** No two queue positions hold the same id. */
  predicate DistinctIds(pieces: seq<GamePiece>) {
    forall i, j :: 0 <= i < j < |pieces| ==> IdAt(pieces, i) != IdAt(pieces, j)
  }

  /** The queue after `findIndex` and `splice(index, 1)`: the first piece with the id is
      taken out, the others keep their order; an absent id changes nothing. */
  function RemoveById(pieces: seq<GamePiece>, id: PieceId): seq<GamePiece> {
    if |pieces| == 0 then []
    else
      var front := pieces[..|pieces| - 1];
      if IndexOfId(front, id) != -1 then RemoveById(front, id) + [pieces[|pieces| - 1]]
      else if pieces[|pieces| - 1].id == id then front
      else pieces
  }

  /** Removal is the splice at the first position holding the id: the pieces before it
      stay where they are, the ones after it move down by one. */
  lemma {:induction false} RemoveByIdShape(pieces: seq<GamePiece>, id: PieceId)
    ensures IndexOfId(pieces, id) == -1 ==> RemoveById(pieces, id) == pieces
    ensures IndexOfId(pieces, id) != -1 ==>
      && |RemoveById(pieces, id)| == |pieces| - 1
      && forall k :: 0 <= k < |pieces| - 1 ==>
           RemoveById(pieces, id)[k] == pieces[if k < IndexOfId(pieces, id) then k else k + 1]
  {
    if |pieces| > 0 {
      var front := pieces[..|pieces| - 1];
      var last := pieces[|pieces| - 1];
      RemoveByIdShape(front, id);
      var j := IndexOfId(front, id);
      assert forall k :: 0 <= k < |front| ==> front[k] == pieces[k];
      if j != -1 {
        assert IndexOfId(pieces, id) == j;
        var r := RemoveById(front, id) + [last];
        assert RemoveById(pieces, id) == r;
        assert |RemoveById(front, id)| == |front| - 1;
        forall k | 0 <= k < |pieces| - 1
          ensures r[k] == pieces[if k < j then k else k + 1]
        {
          if k < |front| - 1 {
            assert r[k] == RemoveById(front, id)[k];
          }
        }
      }
    }
  }

  /** Removal takes out one piece exactly when one carries the id, adds nothing, and on a
      queue without repeated ids leaves no piece with that id and no repeated ids. */
  lemma RemoveByIdSpec(pieces: seq<GamePiece>, id: PieceId)
    ensures |RemoveById(pieces, id)| == if exists k :: 0 <= k < |pieces| && pieces[k].id == id
                                         then |pieces| - 1 else |pieces|
    ensures forall k :: 0 <= k < |RemoveById(pieces, id)| ==> RemoveById(pieces, id)[k] in pieces
    ensures DistinctIds(pieces) ==>
      DistinctIds(RemoveById(pieces, id))
      && forall k :: 0 <= k < |RemoveById(pieces, id)| ==> RemoveById(pieces, id)[k].id != id
  {
    RemoveByIdShape(pieces, id);
    var i := IndexOfId(pieces, id);
    var r := RemoveById(pieces, id);
    if i != -1 {
      forall k | 0 <= k < |r|
        ensures r[k] == pieces[if k < i then k else k + 1]
        ensures r[k].id == IdAt(pieces, if k < i then k else k + 1)
      {
      }
      assert IdAt(pieces, i) == id;
    }
  }

  lemma AppendAssoc<T>(a: seq<T>, b: seq<T>, c: seq<T>)
    ensures a + b + c == a + (b + c)
  {
  }

  // ---------------------------------------------------------------- combo multiplier

  /** `comboMultipliers[min(combo - 1, 8)] || 1`: an index below 0 reads undefined and
      falls back to 1. */
  function MultiplierFor(combo: int): (m: real)
    ensures 1.0 <= m <= MaxComboMultiplier
    ensures combo <= 1 ==> m == 1.0
  {
    var last := |ComboMultipliers| - 1;
    var index := if combo - 1 < last then combo - 1 else last;
    if 0 <= index then ComboMultipliers[index] else 1.0
  }

  /** The multiplier of the n-th consecutive clearing placement is 1 + (n - 1) / 2, from
      1 up to the cap of 5 reached at the ninth; it is 1 without a combo. */
  lemma MultiplierClosedForm(combo: int)
    ensures MultiplierFor(combo) == if combo <= 1 then 1.0
                                    else if combo >= 9 then MaxComboMultiplier
                                    else 1.0 + 0.5 * ((combo - 1) as real)
  {
  }

  lemma MultiplierRange(c1: int, c2: int)
    requires c1 <= c2
    ensures 1.0 <= MultiplierFor(c1) <= MultiplierFor(c2) <= MaxComboMultiplier
  {
    MultiplierClosedForm(c1);
    MultiplierClosedForm(c2);
  }

  // ---------------------------------------------------------------- transitions

  /** What `checkAndClearLines` finds and awards on a board: the full rows, columns and
      tiles, all detected before anything is cleared; 8 cells a row or column and 9 a tile
      (even a clipped one); the award under the multiplier in effect before this call; and
      the new combo count. */
  function ClearOutcome(b: Board, comboMultiplier: real, comboCount: int): ClearResult
    requires IsSquare(b)
  {
    Outcome(FullRows(b), FullColumns(b), FullBlocks(b), comboMultiplier, comboCount)
  }

  /** The totals, award and new combo count for the structures found by the scans. */
  function Outcome(lines: seq<int>, columns: seq<int>, blocks: seq<Position>,
                   comboMultiplier: real, comboCount: int): ClearResult
  {
    var total := |lines| * BoardSize + |columns| * BoardSize + |blocks| * 9;
    ClearResult(lines, columns, blocks, total,
                CalculateScore(|lines|, |columns|, |blocks|, total, comboMultiplier),
                if total > 0 then comboCount + 1 else 0)
  }

  /** `updateScore`: the score moves by the points and the high score follows it up. */
  function AfterScore(s: GameState, points: real): GameState {
    var newScore := s.score + points;
    s.(score := newScore, highScore := if newScore > s.highScore then newScore else s.highScore)
  }

  /** The award step of `checkAndClearLines`: the combo moves (up by one after a clear,
      back to 0 otherwise) together with its multiplier, then a positive award goes to
      the score. */
  function AfterAward(s: GameState, cleared: bool, points: real): GameState {
    var combo := if cleared then s.comboCount + 1 else 0;
    var moved := s.(comboCount := combo, comboMultiplier := MultiplierFor(combo));
    if points > 0.0 then AfterScore(moved, points) else moved
  }

  /** The events of the award step: a combo event when the combo moved up to a positive
      count, then a high-score event when the award lifts the score past the high score. */
  function AwardEmissions(s: GameState, cleared: bool, points: real, listeners: seq<nat>): seq<Emission> {
    (if cleared && s.comboCount + 1 > 0 then [Emission(ComboAchieved, listeners)] else [])
    + (if points > 0.0 && s.score + points > s.highScore then [Emission(NewHighScore, listeners)] else [])
  }

  /** The award events depend only on the combo count, the score and the high score. */
  lemma AwardEmissionsFrame(s: GameState, t: GameState, cleared: bool, points: real, listeners: seq<nat>)
    requires s.comboCount == t.comboCount && s.score == t.score && s.highScore == t.highScore
    ensures AwardEmissions(s, cleared, points, listeners) == AwardEmissions(t, cleared, points, listeners)
  {
  }

  /** The sweep step of `checkAndClearLines`: the found structures are emptied and counted. */
  ghost function AfterSweep(s: GameState): GameState
    requires IsSquare(s.board)
  {
    var cr := ClearOutcome(s.board, s.comboMultiplier, s.comboCount);
    s.(board := ClearWhere(s.board, cr.clearedLines, cr.clearedColumns, cr.clearedBlocks),
       clearedLines := s.clearedLines + |cr.clearedLines|,
       clearedColumns := s.clearedColumns + |cr.clearedColumns|,
       clearedBlocks := s.clearedBlocks + |cr.clearedBlocks|)
  }

  /** `checkAndClearLines` on the whole state. */
  ghost function AfterClear(s: GameState): GameState
    requires IsSquare(s.board)
  {
    var cr := ClearOutcome(s.board, s.comboMultiplier, s.comboCount);
    AfterAward(AfterSweep(s), cr.totalClearedCells > 0, cr.score)
  }

  /** The state after the cells are written and the piece leaves the queue. */
  ghost function AfterCommit(s: GameState, piece: GamePiece, position: Position): GameState
    requires IsSquare(s.board)
  {
    s.(board := Placed(s.board, piece.blocks, position, piece.color), pieces := RemoveById(s.pieces, piece.id))
  }

  /** The queue after the refill step: an empty queue takes the fresh pieces. */
  function Refill(s: GameState, newPieces: seq<GamePiece>): GameState {
    if |s.pieces| == 0 then s.(pieces := newPieces) else s
  }

  /** The game-over step: only ever sets the flag. */
  function CheckOver(s: GameState): GameState
    requires IsSquare(s.board)
  {
    s.(isGameOver := s.isGameOver || !CanAnyPieceBePlaced(s.board, s.pieces))
  }

  /** A successful `placePiece`: write, remove, clear, refill, check game over. */
  ghost function AfterPlace(s: GameState, piece: GamePiece, position: Position, newPieces: seq<GamePiece>): GameState
    requires IsSquare(s.board)
  {
    CheckOver(Refill(AfterClear(AfterCommit(s, piece, position)), newPieces))
  }

  /** The events of one `checkAndClearLines`: combo, new high score, then one per kind of
      structure cleared. */
  ghost function ClearEmissions(s: GameState, listeners: seq<nat>): seq<Emission>
    requires IsSquare(s.board)
  {
    var cr := ClearOutcome(s.board, s.comboMultiplier, s.comboCount);
    AwardEmissions(s, cr.totalClearedCells > 0, cr.score, listeners)
    + StructureEmissions(cr.clearedLines, cr.clearedColumns, cr.clearedBlocks, listeners)
  }

  /** One event per kind of structure cleared. */
  function StructureEmissions(lines: seq<int>, columns: seq<int>, blocks: seq<Position>,
                              listeners: seq<nat>): seq<Emission> {
    (if |lines| > 0 then [Emission(LineCleared, listeners)] else [])
    + (if |columns| > 0 then [Emission(ColumnCleared, listeners)] else [])
    + (if |blocks| > 0 then [Emission(BlockCleared, listeners)] else [])
  }

  /** The events of a successful `placePiece`, in emission order. */
  ghost function PlaceEmissions(s: GameState, piece: GamePiece, position: Position, newPieces: seq<GamePiece>,
                                listeners: seq<nat>): seq<Emission>
    requires IsSquare(s.board)
  {
    var committed := AfterCommit(s, piece, position);
    ClearEmissions(committed, listeners) + FinishEmissions(AfterClear(committed), newPieces, listeners)
  }

  /** The events after the clear: fresh pieces when the queue ran empty, game over when no
      queued piece fits any more, and the placement itself. */
  function FinishEmissions(u: GameState, newPieces: seq<GamePiece>, listeners: seq<nat>): seq<Emission>
    requires IsSquare(u.board)
  {
    var refilled := Refill(u, newPieces);
    (if |u.pieces| == 0 then [Emission(PieceGenerated, listeners)] else [])
    + (if !CanAnyPieceBePlaced(refilled.board, refilled.pieces) then [Emission(GameOver, listeners)] else [])
    + [Emission(PiecePlaced, listeners)]
  }

  // ---------------------------------------------------------------- session invariant

  /** What every reachable session satisfies: an 8x8 board, at most three queued pieces
      with distinct ids, the multiplier that belongs to the combo count, and a
      non-negative high score at or above the score. That queued pieces are catalog copies
      is kept apart (`PlacementKeepsCatalog`), so that the store's proofs need not carry
      the catalog. */
  ghost predicate Inv(s: GameState) {
    && |s.board| == BoardSize && IsSquare(s.board)
    && |s.pieces| <= PieceQueueSize
    && DistinctIds(s.pieces)
    && s.comboMultiplier == MultiplierFor(s.comboCount)
    && 0.0 <= s.highScore && s.score <= s.highScore
  }

  /** A fresh set of queue pieces: three pieces with distinct ids. */
  ghost predicate FreshQueue(newPieces: seq<GamePiece>) {
    |newPieces| == PieceQueueSize && DistinctIds(newPieces)
  }

  lemma PieceSetIsFreshQueue(draws: seq<nat>, first: nat)
    requires ValidDraws(draws) && |draws| == PieceQueueSize
    ensures FreshQueue(PieceSet(draws, first))
  {
    PieceSetSpec(draws, first);
  }

  lemma AfterScoreKeepsInv(s: GameState, points: real)
    requires Inv(s)
    ensures Inv(AfterScore(s, points))
    ensures AfterScore(s, points).highScore >= s.highScore
  {
  }

  lemma AfterAwardKeepsInv(s: GameState, cleared: bool, points: real)
    requires Inv(s)
    ensures Inv(AfterAward(s, cleared, points))
  {
    var combo := if cleared then s.comboCount + 1 else 0;
    AfterScoreKeepsInv(s.(comboCount := combo, comboMultiplier := MultiplierFor(combo)), points);
  }

  lemma AfterClearKeepsInv(s: GameState)
    requires Inv(s)
    ensures Inv(AfterClear(s))
  {
    var cr := ClearOutcome(s.board, s.comboMultiplier, s.comboCount);
    AfterAwardKeepsInv(AfterSweep(s), cr.totalClearedCells > 0, cr.score);
  }

  lemma AfterCommitKeepsInv(s: GameState, piece: GamePiece, position: Position)
    requires Inv(s)
    ensures Inv(AfterCommit(s, piece, position))
  {
    RemoveByIdSpec(s.pieces, piece.id);
  }

  /** A successful placement keeps the session invariant. */
  lemma AfterPlaceKeepsInv(s: GameState, piece: GamePiece, position: Position, newPieces: seq<GamePiece>)
    requires Inv(s) && FreshQueue(newPieces)
    ensures Inv(AfterPlace(s, piece, position, newPieces))
  {
    AfterCommitKeepsInv(s, piece, position);
    AfterClearKeepsInv(AfterCommit(s, piece, position));
  }

  // ---------------------------------------------------------------- properties of a placement

  /** The award is positive exactly when something was cleared, and it is the per-structure
      value (160 a row or column, 210 a tile) times the multiplier left by the previous
      placement. */
  lemma AwardPositiveIffCleared(b: Board, comboCount: int)
    requires IsSquare(b)
    ensures var cr := ClearOutcome(b, MultiplierFor(comboCount), comboCount);
      (cr.score > 0.0 <==> cr.totalClearedCells > 0)
      && cr.score == ((160 * |cr.clearedLines| + 160 * |cr.clearedColumns| + 210 * |cr.clearedBlocks|) as real)
                     * MultiplierFor(comboCount)
  {
    MultiplierRange(comboCount, comboCount);
    AwardPerStructure(|FullRows(b)|, |FullColumns(b)|, |FullBlocks(b)|, MultiplierFor(comboCount));
  }

  /** The combo grows by one on every clearing placement and restarts at 0 otherwise; the
      multiplier stored for the next placement is the one of the new count. */
  lemma ComboTransition(s: GameState)
    requires IsSquare(s.board)
    ensures var cr := ClearOutcome(s.board, s.comboMultiplier, s.comboCount);
      && AfterClear(s).comboCount == cr.combo
      && (cr.totalClearedCells > 0 ==> cr.combo == s.comboCount + 1)
      && (cr.totalClearedCells == 0 ==> cr.combo == 0 && AfterClear(s).comboMultiplier == 1.0)
      && AfterClear(s).comboMultiplier == MultiplierFor(cr.combo)
  {
    var cr := ClearOutcome(s.board, s.comboMultiplier, s.comboCount);
    AwardMovesCombo(AfterSweep(s), cr.totalClearedCells > 0, cr.score);
  }

  lemma AwardMovesCombo(s: GameState, cleared: bool, points: real)
    ensures AfterAward(s, cleared, points).comboCount == if cleared then s.comboCount + 1 else 0
    ensures AfterAward(s, cleared, points).comboMultiplier == MultiplierFor(AfterAward(s, cleared, points).comboCount)
  {
  }

  /** Score, high score and the three cleared-structure counters never decrease over a
      placement; the score moves by the award exactly when the award is positive. */
  lemma PlacementIsMonotone(s: GameState, piece: GamePiece, position: Position, newPieces: seq<GamePiece>)
    requires Inv(s)
    ensures var t := AfterPlace(s, piece, position, newPieces);
      && t.score >= s.score && t.highScore >= s.highScore && t.highScore >= t.score
      && t.clearedLines >= s.clearedLines && t.clearedColumns >= s.clearedColumns
      && t.clearedBlocks >= s.clearedBlocks
    ensures var committed := AfterCommit(s, piece, position);
      var cr := ClearOutcome(committed.board, s.comboMultiplier, s.comboCount);
      AfterPlace(s, piece, position, newPieces).score == s.score + (if cr.score > 0.0 then cr.score else 0.0)
  {
    var committed := AfterCommit(s, piece, position);
    AfterCommitKeepsInv(s, piece, position);
    AwardPositiveIffCleared(committed.board, s.comboCount);
    AfterClearKeepsInv(committed);
  }

  /** The write step of a valid drop: every target of the piece is on the board and takes
      the piece's colour, every other cell keeps its content. */
  lemma CommitWritesTargets(s: GameState, piece: GamePiece, position: Position)
    requires Inv(s) && IsPieceValidAtPosition(s.board, piece.blocks, position)
    ensures var b := AfterCommit(s, piece, position).board;
      && |b| == BoardSize && IsSquare(b)
      && (forall i :: 0 <= i < |piece.blocks| ==>
            var t := Target(position, piece.blocks[i]);
            InBounds(BoardSize, t.x, t.y) && b[t.y][t.x] == Cell(true, Some(piece.color)))
      && (forall y, x :: InBounds(BoardSize, x, y) && !Covers(piece.blocks, |piece.blocks|, position, x, y) ==>
            b[y][x] == s.board[y][x])
  {
    var b := AfterCommit(s, piece, position).board;
    PlacedCells(s.board, piece.blocks, position, piece.color);
    forall i | 0 <= i < |piece.blocks|
      ensures var t := Target(position, piece.blocks[i]);
        InBounds(BoardSize, t.x, t.y) && b[t.y][t.x] == Cell(true, Some(piece.color))
    {
      var t := Target(position, piece.blocks[i]);
      assert FreeCell(s.board, t);
      assert Covers(piece.blocks, |piece.blocks|, position, t.x, t.y);
    }
  }

  /** After a placement the board holds no full row, column or tile. */
  lemma PlacementLeavesNoFullStructure(s: GameState, piece: GamePiece, position: Position, newPieces: seq<GamePiece>)
    requires Inv(s)
    ensures var b := AfterPlace(s, piece, position, newPieces).board;
      |b| == BoardSize && IsSquare(b)
      && (forall y :: 0 <= y < BoardSize ==> !RowFull(b, y))
      && (forall x :: 0 <= x < BoardSize ==> !ColumnFull(b, x))
      && (forall p :: IsBlockAnchor(BoardSize, p) ==> !BlockFull(b, p.x, p.y))
  {
    ClearingLeavesNoFullStructure(AfterCommit(s, piece, position).board);
  }

  /** The game-over step sets the flag exactly when no queued piece fits at any anchor
      whatsoever (not only those of the 8x8 scan): catalog shapes touch row 0 and column
      0, so a fitting anchor always lies on the board. */
  lemma CheckOverMeansStuck(u: GameState)
    requires IsSquare(u.board) && forall i :: 0 <= i < |u.pieces| ==> WellFormedShape(u.pieces[i].blocks)
    ensures CheckOver(u).isGameOver <==>
      (u.isGameOver || forall i, a :: 0 <= i < |u.pieces| ==> !IsPieceValidAtPosition(u.board, u.pieces[i].blocks, a))
  {
    CanAnyPieceBePlacedSpec(u.board, u.pieces);
    forall i, a | 0 <= i < |u.pieces| && IsPieceValidAtPosition(u.board, u.pieces[i].blocks, a)
      ensures CanAnyPieceBePlaced(u.board, u.pieces)
    {
      ValidAnchorOnBoard(u.board, u.pieces[i].blocks, a);
      assert IsPieceValidAtPosition(u.board, u.pieces[i].blocks, Position(a.x, a.y));
    }
  }

  /** Every piece queued after a placement is a catalog copy when every piece queued
      before it and every fresh piece is one. */
  lemma PlacementKeepsCatalog(s: GameState, piece: GamePiece, position: Position, newPieces: seq<GamePiece>)
    requires IsSquare(s.board) && AllFromCatalog(s.pieces) && AllFromCatalog(newPieces)
    ensures AllFromCatalog(Refill(AfterClear(AfterCommit(s, piece, position)), newPieces).pieces)
    ensures AllFromCatalog(AfterPlace(s, piece, position, newPieces).pieces)
  {
    RemoveByIdSpec(s.pieces, piece.id);
    var committed := AfterCommit(s, piece, position);
    assert AfterClear(committed).pieces == committed.pieces;
  }

  lemma CatalogPieceWellFormed(p: GamePiece)
    requires FromCatalog(p)
    ensures WellFormedShape(p.blocks)
  {
    var k :| 0 <= k < |PieceShapes| && p.blocks == PieceShapes[k].blocks;
    ShapeWellFormed(k);
  }

  /** The game is over after a placement exactly when it was over before or no piece of
      the resulting queue fits anywhere. */
  lemma GameOverMeansStuck(s: GameState, piece: GamePiece, position: Position, newPieces: seq<GamePiece>)
    requires Inv(s) && FreshQueue(newPieces) && AllFromCatalog(s.pieces) && AllFromCatalog(newPieces)
    ensures AfterPlace(s, piece, position, newPieces).isGameOver <==>
      (s.isGameOver
       || forall i, a :: 0 <= i < |AfterPlace(s, piece, position, newPieces).pieces| ==>
            !IsPieceValidAtPosition(AfterPlace(s, piece, position, newPieces).board,
                                    AfterPlace(s, piece, position, newPieces).pieces[i].blocks, a))
  {
    var committed := AfterCommit(s, piece, position);
    AfterCommitKeepsInv(s, piece, position);
    var cleared := AfterClear(committed);
    AfterClearKeepsInv(committed);
    var u := Refill(cleared, newPieces);
    assert Inv(u);
    assert u.isGameOver == s.isGameOver;
    PlacementKeepsCatalog(s, piece, position, newPieces);
    forall i | 0 <= i < |u.pieces| ensures WellFormedShape(u.pieces[i].blocks) {
      CatalogPieceWellFormed(u.pieces[i]);
    }
    CheckOverMeansStuck(u);
  }

  /** A reset session is a fresh game that only remembers the high score. */
  function ResetState(s: GameState, newPieces: seq<GamePiece>): GameState {
    GameState(CreateEmptyBoard(BoardSize), newPieces, 0.0, s.highScore, 1.0, 0, false, false, 0, 0, 0)
  }

  lemma ResetKeepsInvAndHighScore(s: GameState, newPieces: seq<GamePiece>)
    requires Inv(s) && FreshQueue(newPieces)
    ensures Inv(ResetState(s, newPieces)) && ResetState(s, newPieces).highScore == s.highScore
    ensures forall y, x :: 0 <= y < BoardSize && 0 <= x < BoardSize ==> !ResetState(s, newPieces).board[y][x].filled
  {
  }

  // ---------------------------------------------------------------- the store

  class GameStore {
    var board: Board
    var pieces: seq<GamePiece>
    var score: real
    var highScore: real
    var comboMultiplier: real
    var comboCount: int
    var isGameOver: bool
    var isPaused: bool
    var clearedLines: nat
    var clearedColumns: nat
    var clearedBlocks: nat
    var previewPosition: Option<Position>
    var previewPieceState: Option<GamePiece>
    var previewValid: bool
    var eventListeners: seq<nat>
    ghost var emitted: seq<Emission>
    /** The source of fresh pieces and their serial numbers. */
    const generator: PieceGenerator

    function State(): GameState
      reads this`board, this`pieces, this`score, this`highScore, this`comboMultiplier, this`comboCount,
            this`isGameOver, this`isPaused, this`clearedLines, this`clearedColumns, this`clearedBlocks
    {
      GameState(board, pieces, score, highScore, comboMultiplier, comboCount, isGameOver, isPaused,
                clearedLines, clearedColumns, clearedBlocks)
    }

    ghost predicate Valid()
      reads this`board, this`pieces, this`score, this`highScore, this`comboMultiplier, this`comboCount,
            this`isGameOver, this`isPaused, this`clearedLines, this`clearedColumns, this`clearedBlocks
    {
      Inv(State())
    }

    predicate NoPreview()
      reads this`previewPosition, this`previewPieceState, this`previewValid
    {
      previewPosition == None && previewPieceState == None && !previewValid
    }

    /** The store's initial state. */
    constructor ()
      ensures Valid()
      ensures State() == GameState(CreateEmptyBoard(BoardSize), [], 0.0, 0.0, 1.0, 0, false, false, 0, 0, 0)
      ensures NoPreview() && eventListeners == [] && emitted == []
      ensures fresh(generator) && generator.pieceCounter == 0
    {
      board := CreateEmptyBoard(BoardSize);
      pieces := [];
      score := 0.0;
      highScore := 0.0;
      comboMultiplier := 1.0;
      comboCount := 0;
      isGameOver := false;
      isPaused := false;
      clearedLines := 0;
      clearedColumns := 0;
      clearedBlocks := 0;
      previewPosition := None;
      previewPieceState := None;
      previewValid := false;
      eventListeners := [];
      emitted := [];
      generator := new PieceGenerator();
    }

    method EmitEvent(event: GameEvent)
      modifies this`emitted
      ensures emitted == old(emitted) + [Emission(event, eventListeners)]
    {
      emitted := emitted + [Emission(event, eventListeners)];
    }

    method AddEventListener(listener: nat)
      modifies this`eventListeners
      ensures eventListeners == old(eventListeners) + [listener]
    {
      eventListeners := eventListeners + [listener];
    }

    /** Removes the first registration of the listener; an unknown listener changes nothing. */
    method RemoveEventListener(listener: nat)
      modifies this`eventListeners
      ensures listener !in old(eventListeners) ==> eventListeners == old(eventListeners)
      ensures listener in old(eventListeners) ==>
        exists i :: 0 <= i < |old(eventListeners)| && old(eventListeners)[i] == listener
                    && listener !in old(eventListeners)[..i]
                    && eventListeners == old(eventListeners)[..i] + old(eventListeners)[i + 1..]
    {
      var index := IndexOf(eventListeners, listener);
      if index != -1 {
        eventListeners := eventListeners[..index] + eventListeners[index + 1..];
      }
    }

    /** Clears the board, draws a new queue and zeroes score, combo and counters; the high
        score is left as it is. */
    method InitGame(draws: seq<nat>)
      requires Valid() && |draws| == PieceQueueSize && ValidDraws(draws)
      modifies this, generator
      ensures Valid()
      ensures State() == ResetState(old(State()), PieceSet(draws, old(generator.pieceCounter)))
      ensures NoPreview() && eventListeners == old(eventListeners)
      ensures generator.pieceCounter == old(generator.pieceCounter) + PieceQueueSize
      ensures emitted == old(emitted) + [Emission(PieceGenerated, eventListeners)]
    {
      PieceSetIsFreshQueue(draws, generator.pieceCounter);
      var newPieces := generator.GetRandomPieceSet(draws);
      StartSession(newPieces);
      EmitEvent(PieceGenerated);
    }

    /** As `InitGame`, saving and restoring the high score explicitly. */
    method ResetGame(draws: seq<nat>)
      requires Valid() && |draws| == PieceQueueSize && ValidDraws(draws)
      modifies this, generator
      ensures Valid()
      ensures State() == ResetState(old(State()), PieceSet(draws, old(generator.pieceCounter)))
      ensures NoPreview() && eventListeners == old(eventListeners)
      ensures generator.pieceCounter == old(generator.pieceCounter) + PieceQueueSize
      ensures emitted == old(emitted) + [Emission(PieceGenerated, eventListeners)]
    {
      var currentHighScore := highScore;
      PieceSetIsFreshQueue(draws, generator.pieceCounter);
      var newPieces := generator.GetRandomPieceSet(draws);
      StartSession(newPieces);
      highScore := currentHighScore;
      EmitEvent(PieceGenerated);
    }

    /** The state both `initGame` and `resetGame` write: an empty board, the fresh queue,
        zero score, combo and counters, no preview; the high score is left alone. */
    method StartSession(newPieces: seq<GamePiece>)
      requires Valid() && FreshQueue(newPieces)
      modifies this`board, this`pieces, this`score, this`comboMultiplier, this`comboCount,
               this`isGameOver, this`isPaused, this`clearedLines, this`clearedColumns, this`clearedBlocks,
               this`previewPosition, this`previewPieceState, this`previewValid
      ensures Valid()
      ensures State() == ResetState(old(State()), newPieces)
      ensures NoPreview()
    {
      ghost var s0 := State();
      ResetKeepsInvAndHighScore(s0, newPieces);
      board := CreateEmptyBoard(BoardSize);
      pieces := newPieces;
      score := 0.0;
      comboMultiplier := 1.0;
      comboCount := 0;
      isGameOver := false;
      isPaused := false;
      clearedLines := 0;
      clearedColumns := 0;
      clearedBlocks := 0;
      previewPosition := None;
      previewPieceState := None;
      previewValid := false;
    }

    /** Valid exactly when every anchored offset lies in [0, 8)² on an unfilled cell; only
        the preview fields change. */
    method PreviewPiece(piece: GamePiece, position: Position) returns (preview: PiecePreview)
      requires Valid()
      modifies this`previewPosition, this`previewPieceState, this`previewValid
      ensures preview.position == position && preview.piece == piece
      ensures preview.valid == IsPieceValidAtPosition(board, piece.blocks, position)
      ensures preview.valid <==> forall i :: 0 <= i < |piece.blocks| ==>
        var t := Target(position, piece.blocks[i]);
        InBounds(BoardSize, t.x, t.y) && !board[t.y][t.x].filled
      ensures previewPosition == Some(position) && previewPieceState == Some(piece) && previewValid == preview.valid
    {
      var valid := IsPieceValidAtPosition(board, piece.blocks, position);
      previewPosition := Some(position);
      previewPieceState := Some(piece);
      previewValid := valid;
      preview := PiecePreview(position, valid, piece);
    }

    method ClearPreview()
      modifies this`previewPosition, this`previewPieceState, this`previewValid
      ensures NoPreview()
    {
      previewPosition := None;
      previewPieceState := None;
      previewValid := false;
    }

    /** Replaces the queue by three fresh pieces. */
    method GenerateNewPieces(draws: seq<nat>)
      requires Valid() && |draws| == PieceQueueSize && ValidDraws(draws)
      modifies this`pieces, this`emitted, generator
      ensures Valid()
      ensures pieces == PieceSet(draws, old(generator.pieceCounter))
      ensures generator.pieceCounter == old(generator.pieceCounter) + PieceQueueSize
      ensures emitted == old(emitted) + [Emission(PieceGenerated, eventListeners)]
    {
      PieceSetIsFreshQueue(draws, generator.pieceCounter);
      pieces := generator.GetRandomPieceSet(draws);
      EmitEvent(PieceGenerated);
    }

    method UpdateScore(points: real)
      requires Valid()
      modifies this`score, this`highScore, this`emitted
      ensures Valid()
      ensures State() == AfterScore(old(State()), points)
      ensures emitted == old(emitted)
        + (if score > old(highScore) then [Emission(NewHighScore, eventListeners)] else [])
    {
      var newScore := score + points;
      score := newScore;
      if newScore > highScore {
        highScore := newScore;
        EmitEvent(NewHighScore);
      }
    }

    method UpdateCombo(combo: int)
      requires Valid()
      modifies this`comboCount, this`comboMultiplier, this`emitted
      ensures Valid()
      ensures comboCount == combo && comboMultiplier == MultiplierFor(combo)
      ensures emitted == old(emitted) + (if combo > 0 then [Emission(ComboAchieved, eventListeners)] else [])
    {
      comboCount := combo;
      var last := |ComboMultipliers| - 1;
      var multiplierIndex := if combo - 1 < last then combo - 1 else last;
      comboMultiplier := if 0 <= multiplierIndex then ComboMultipliers[multiplierIndex] else 1.0;
      if combo > 0 {
        EmitEvent(ComboAchieved);
      }
    }

    method ResetCombo()
      requires Valid()
      modifies this`comboCount, this`comboMultiplier
      ensures Valid()
      ensures comboCount == 0 && comboMultiplier == 1.0 == MultiplierFor(0)
    {
      comboCount := 0;
      comboMultiplier := 1.0;
    }

    method SetGameOver(value: bool)
      requires Valid()
      modifies this`isGameOver, this`emitted
      ensures Valid()
      ensures isGameOver == value
      ensures emitted == old(emitted) + (if value then [Emission(GameOver, eventListeners)] else [])
    {
      isGameOver := value;
      if value {
        EmitEvent(GameOver);
      }
    }

    method SetPaused(value: bool)
      requires Valid()
      modifies this`isPaused
      ensures Valid()
      ensures isPaused == value
    {
      isPaused := value;
    }

    /** The inner scan of `checkGameOver`: does the piece fit at some anchor of [0, 8)²? */
    method PieceFitsSomewhere(piece: GamePiece) returns (fits: bool)
      requires Valid()
      ensures fits <==> ValidPositions(board, piece.blocks) != []
    {
      var b := board;
      assert IsSquare(b) && |b| == BoardSize;
      var y := 0;
      while y < BoardSize
        invariant 0 <= y <= BoardSize
        invariant ValidBelow(b, piece.blocks, y) == []
      {
        var x := 0;
        while x < BoardSize
          invariant 0 <= x <= BoardSize
          invariant ValidInRow(b, piece.blocks, y, x) == []
        {
          var canPlace := IsPieceValidAtPosition(b, piece.blocks, Position(x, y));
          if canPlace {
            ghost var i := ValidAnchorIndex(b, piece.blocks, Position(x, y));
            return true;
          }
          x := x + 1;
        }
        y := y + 1;
      }
      return false;
    }

    /** True exactly when no queued piece fits anywhere on the board (an empty queue
        counts as stuck). */
    method CheckGameOver() returns (over: bool)
      requires Valid()
      ensures over <==> !CanAnyPieceBePlaced(board, pieces)
    {
      var i := 0;
      while i < |pieces|
        invariant 0 <= i <= |pieces|
        invariant forall k :: 0 <= k < i ==> ValidPositions(board, pieces[k].blocks) == []
      {
        var fits := PieceFitsSomewhere(pieces[i]);
        if fits {
          return false;
        }
        i := i + 1;
      }
      return true;
    }

    /** Writes the piece's cells without a bounds check: the caller has established that
        every target is on the board. */
    method CommitCells(piece: GamePiece, position: Position)
      requires Valid() && IsPieceValidAtPosition(board, piece.blocks, position)
      modifies this`board
      ensures Valid()
      ensures board == Placed(old(board), piece.blocks, position, piece.color)
    {
      var blocks := piece.blocks;
      var filledCell := Cell(true, Some(piece.color));
      var i := 0;
      while i < |blocks|
        invariant 0 <= i <= |blocks|
        invariant board == PlacedFirst(old(board), blocks, i, position, piece.color)
      {
        var t := Target(position, blocks[i]);
        assert FreeCell(old(board), t);
        board := board[t.y := board[t.y][t.x := filledCell]];
        i := i + 1;
      }
    }

    /** The detection and clearing half of `checkAndClearLines`: all three scans run on the
        board before anything is cleared, then rows, columns and tiles are cleared in that
        order and the counters grow by what was found. */
    method ClearFullStructures() returns (lines: seq<int>, columns: seq<int>, blocks: seq<Position>)
      requires Valid()
      modifies this`board, this`clearedLines, this`clearedColumns, this`clearedBlocks
      ensures Valid()
      ensures lines == FullRows(old(board)) && columns == FullColumns(old(board)) && blocks == FullBlocks(old(board))
      ensures board == ClearWhere(old(board), lines, columns, blocks)
      ensures clearedLines == old(clearedLines) + |lines|
      ensures clearedColumns == old(clearedColumns) + |columns|
      ensures clearedBlocks == old(clearedBlocks) + |blocks|
    {
      lines := CheckFullLines(board);
      columns := CheckFullColumns(board);
      blocks := CheckFullBlocks(board);
      FullRowsBelowSpec(board, |board|);
      FullColumnsBelowSpec(board, |board|);
      FullBlocksBelowSound(board, BlockLimit(|board|));
      var afterLines := ClearLines(board, lines);
      var afterColumns := ClearColumns(afterLines, columns);
      var afterBlocks := ClearBlocks(afterColumns, blocks);
      ClearInSequence(board, lines, columns, blocks);
      board := afterBlocks;
      clearedLines := clearedLines + |lines|;
      clearedColumns := clearedColumns + |columns|;
      clearedBlocks := clearedBlocks + |blocks|;
    }

    /** The award half of `checkAndClearLines`: `updateCombo` with the grown count after a
        clear, `resetCombo` otherwise, then `updateScore` with a positive award. */
    method ApplyAward(cleared: bool, points: real)
      requires Valid()
      modifies this`comboCount, this`comboMultiplier, this`score, this`highScore, this`emitted
      ensures Valid()
      ensures State() == AfterAward(old(State()), cleared, points)
      ensures emitted == old(emitted) + AwardEmissions(old(State()), cleared, points, eventListeners)
    {
      ghost var s := State();
      AfterAwardKeepsInv(s, cleared, points);
      var newCombo := if cleared then comboCount + 1 else 0;
      if cleared {
        UpdateCombo(newCombo);
      } else {
        ResetCombo();
      }
      if points > 0.0 {
        UpdateScore(points);
      }
    }

    /** One event per kind of structure cleared: rows, then columns, then tiles. */
    method EmitClearEvents(lines: seq<int>, columns: seq<int>, blocks: seq<Position>)
      modifies this`emitted
      ensures emitted == old(emitted) + StructureEmissions(lines, columns, blocks, eventListeners)
    {
      if |lines| > 0 {
        EmitEvent(LineCleared);
      }
      if |columns| > 0 {
        EmitEvent(ColumnCleared);
      }
      if |blocks| > 0 {
        EmitEvent(BlockCleared);
      }
    }

    /** Detects the full rows, columns and tiles, clears them, adds them to the counters,
        moves the combo and adds the award computed with the multiplier in effect before
        the combo moves. */
    method CheckAndClearLines() returns (result: ClearResult)
      requires Valid()
      modifies this`board, this`clearedLines, this`clearedColumns, this`clearedBlocks,
               this`comboCount, this`comboMultiplier, this`score, this`highScore, this`emitted
      ensures Valid()
      ensures result == ClearOutcome(old(board), old(comboMultiplier), old(comboCount))
      ensures State() == AfterClear(old(State()))
      ensures emitted == old(emitted) + ClearEmissions(old(State()), eventListeners)
    {
      ghost var s := State();
      ghost var emitted0 := emitted;
      var lines, columns, blocks := ClearFullStructures();
      assert State() == AfterSweep(s);
      result := Outcome(lines, columns, blocks, comboMultiplier, comboCount);
      ghost var award := AwardEmissions(s, result.totalClearedCells > 0, result.score, eventListeners);
      ghost var structures := StructureEmissions(lines, columns, blocks, eventListeners);
      assert ClearEmissions(s, eventListeners) == award + structures;
      AwardEmissionsFrame(State(), s, result.totalClearedCells > 0, result.score, eventListeners);
      ApplyAward(result.totalClearedCells > 0, result.score);
      EmitClearEvents(lines, columns, blocks);
      assert emitted == emitted0 + award + structures;
      AppendAssoc(emitted0, award, structures);
      assert emitted == emitted0 + ClearEmissions(s, eventListeners);
    }

    /** The write step of `placePiece`: the piece's cells take its colour, the first queued
        piece with its id leaves the queue and the preview is cleared. */
    method CommitPlacement(piece: GamePiece, position: Position)
      requires Valid() && IsPieceValidAtPosition(board, piece.blocks, position)
      modifies this`board, this`pieces, this`previewPosition, this`previewPieceState, this`previewValid
      ensures Valid()
      ensures State() == AfterCommit(old(State()), piece, position)
      ensures NoPreview()
    {
      ghost var s := State();
      ghost var t := AfterCommit(s, piece, position);
      AfterCommitKeepsInv(s, piece, position);
      CommitCells(piece, position);
      assert board == t.board;
      RemoveFromQueue(piece.id);
      assert pieces == t.pieces;
      assert State() == t;
      ClearPreview();
    }

    /** `findIndex` by id and `splice` of that one entry; an unknown id changes nothing. */
    method RemoveFromQueue(id: PieceId)
      modifies this`pieces
      ensures pieces == RemoveById(old(pieces), id)
    {
      RemoveByIdShape(pieces, id);
      var pieceIndex := IndexOfId(pieces, id);
      if pieceIndex != -1 {
        ghost var removed := RemoveById(pieces, id);
        pieces := pieces[..pieceIndex] + pieces[pieceIndex + 1..];
        assert forall k :: 0 <= k < |pieces| ==> pieces[k] == removed[k];
      }
    }

    /** The refill step of `placePiece`: an empty queue takes three fresh pieces. */
    method RefillQueue(draws: seq<nat>) returns (generated: bool)
      requires Valid() && |draws| == PieceQueueSize && ValidDraws(draws)
      modifies this`pieces, this`emitted, generator
      ensures Valid()
      ensures generated <==> |old(pieces)| == 0
      ensures State() == Refill(old(State()), PieceSet(draws, old(generator.pieceCounter)))
      ensures generator.pieceCounter == old(generator.pieceCounter) + (if generated then PieceQueueSize else 0)
      ensures emitted == old(emitted) + (if generated then [Emission(PieceGenerated, eventListeners)] else [])
    {
      generated := |pieces| == 0;
      if generated {
        GenerateNewPieces(draws);
      }
    }

    /** Drops a piece at an anchor. An invalid drop leaves the game as it was (the preview
        fields record the failed attempt); a valid one runs the whole commit path. */
    method PlacePiece(piece: GamePiece, position: Position, draws: seq<nat>) returns (result: DropResult)
      requires Valid() && |draws| == PieceQueueSize && ValidDraws(draws)
      modifies this`board, this`pieces, this`score, this`highScore, this`comboMultiplier, this`comboCount,
               this`isGameOver, this`clearedLines, this`clearedColumns, this`clearedBlocks,
               this`previewPosition, this`previewPieceState, this`previewValid, this`emitted, generator
      ensures Valid()
      ensures eventListeners == old(eventListeners)
      ensures result.success <==> IsPieceValidAtPosition(old(board), piece.blocks, position)
      ensures !result.success ==>
        && result == DropResult(false, None, None)
        && State() == old(State()) && emitted == old(emitted)
        && generator.pieceCounter == old(generator.pieceCounter)
        && previewPosition == Some(position) && previewPieceState == Some(piece) && !previewValid
      ensures result.success ==>
        && State() == AfterPlace(old(State()), piece, position, PieceSet(draws, old(generator.pieceCounter)))
        && result.position == Some(position)
        && result.clearResult == Some(ClearOutcome(Placed(old(board), piece.blocks, position, piece.color),
                                                   old(comboMultiplier), old(comboCount)))
        && NoPreview()
        && generator.pieceCounter == old(generator.pieceCounter) +
             (if |AfterClear(AfterCommit(old(State()), piece, position)).pieces| == 0 then PieceQueueSize else 0)
        && emitted == old(emitted) + PlaceEmissions(old(State()), piece, position,
                                                    PieceSet(draws, old(generator.pieceCounter)), eventListeners)
    {
      var preview := PreviewPiece(piece, position);
      if !preview.valid {
        return DropResult(false, None, None);
      }
      var clearResult := CommitValidDrop(piece, position, draws);
      result := DropResult(true, Some(position), Some(clearResult));
    }

    /** The success path of `placePiece`: write, clear, refill, check game over, announce. */
    method CommitValidDrop(piece: GamePiece, position: Position, draws: seq<nat>) returns (clearResult: ClearResult)
      requires Valid() && |draws| == PieceQueueSize && ValidDraws(draws)
      requires IsPieceValidAtPosition(board, piece.blocks, position)
      modifies this`board, this`pieces, this`score, this`highScore, this`comboMultiplier, this`comboCount,
               this`isGameOver, this`clearedLines, this`clearedColumns, this`clearedBlocks,
               this`previewPosition, this`previewPieceState, this`previewValid, this`emitted, generator
      ensures Valid()
      ensures State() == AfterPlace(old(State()), piece, position, PieceSet(draws, old(generator.pieceCounter)))
      ensures clearResult == ClearOutcome(Placed(old(board), piece.blocks, position, piece.color),
                                          old(comboMultiplier), old(comboCount))
      ensures NoPreview()
      ensures generator.pieceCounter == old(generator.pieceCounter) +
        (if |AfterClear(AfterCommit(old(State()), piece, position)).pieces| == 0 then PieceQueueSize else 0)
      ensures emitted == old(emitted) + PlaceEmissions(old(State()), piece, position,
                                                       PieceSet(draws, old(generator.pieceCounter)), eventListeners)
    {
      ghost var s := State();
      ghost var emitted0 := emitted;
      ghost var newPieces := PieceSet(draws, generator.pieceCounter);
      clearResult := CommitAndClear(piece, position);
      ghost var committed := AfterCommit(s, piece, position);
      FinishPlacement(draws);
      AppendAssoc(emitted0, ClearEmissions(committed, eventListeners),
                  FinishEmissions(AfterClear(committed), newPieces, eventListeners));
    }

    /** The write and clear steps of `placePiece`. */
    method CommitAndClear(piece: GamePiece, position: Position) returns (clearResult: ClearResult)
      requires Valid() && IsPieceValidAtPosition(board, piece.blocks, position)
      modifies this`board, this`pieces, this`score, this`highScore, this`comboMultiplier, this`comboCount,
               this`clearedLines, this`clearedColumns, this`clearedBlocks,
               this`previewPosition, this`previewPieceState, this`previewValid, this`emitted
      ensures Valid()
      ensures State() == AfterClear(AfterCommit(old(State()), piece, position))
      ensures clearResult == ClearOutcome(Placed(old(board), piece.blocks, position, piece.color),
                                          old(comboMultiplier), old(comboCount))
      ensures NoPreview()
      ensures emitted == old(emitted) + ClearEmissions(AfterCommit(old(State()), piece, position), eventListeners)
    {
      CommitPlacement(piece, position);
      clearResult := CheckAndClearLines();
    }

    /** The tail of `placePiece`: refill an empty queue, set game over when nothing fits,
        announce the placement. */
    method FinishPlacement(draws: seq<nat>)
      requires Valid() && |draws| == PieceQueueSize && ValidDraws(draws)
      modifies this`pieces, this`isGameOver, this`emitted, generator
      ensures Valid()
      ensures State() == CheckOver(Refill(old(State()), PieceSet(draws, old(generator.pieceCounter))))
      ensures generator.pieceCounter == old(generator.pieceCounter) + (if |old(pieces)| == 0 then PieceQueueSize else 0)
      ensures emitted == old(emitted) + FinishEmissions(old(State()), PieceSet(draws, old(generator.pieceCounter)), eventListeners)
    {
      ghost var u := State();
      ghost var newPieces := PieceSet(draws, generator.pieceCounter);
      ghost var emitted0 := emitted;
      var generated := RefillQueue(draws);
      ghost var refilled := Refill(u, newPieces);
      assert State() == refilled;
      ghost var generatedEvents := if |u.pieces| == 0 then [Emission(PieceGenerated, eventListeners)] else [];
      assert emitted == emitted0 + generatedEvents;
      UpdateGameOver();
      ghost var overEvents :=
        if !CanAnyPieceBePlaced(refilled.board, refilled.pieces) then [Emission(GameOver, eventListeners)] else [];
      assert emitted == emitted0 + generatedEvents + overEvents;
      EmitEvent(PiecePlaced);
      assert FinishEmissions(u, newPieces, eventListeners)
        == generatedEvents + overEvents + [Emission(PiecePlaced, eventListeners)];
      AppendAssoc(emitted0 + generatedEvents, overEvents, [Emission(PiecePlaced, eventListeners)]);
      AppendAssoc(emitted0, generatedEvents, overEvents + [Emission(PiecePlaced, eventListeners)]);
      assert emitted == emitted0 + FinishEmissions(u, newPieces, eventListeners);
    }

    /** The game-over step of `placePiece`: when no queued piece fits, set the flag and
        announce it. */
    method UpdateGameOver()
      requires Valid()
      modifies this`isGameOver, this`emitted
      ensures Valid()
      ensures State() == CheckOver(old(State()))
      ensures emitted == old(emitted)
        + (if !CanAnyPieceBePlaced(board, pieces) then [Emission(GameOver, eventListeners)] else [])
    {
      var over := CheckGameOver();
      if over {
        SetGameOver(true);
      }
    }
  }
}
