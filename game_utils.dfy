/** Board algebra of Block Grid (src/utils/gameUtils.ts): construction, the placement
    predicate, copy-on-write placement and clearing, the full-structure scans, the search
    for valid anchors, scoring, the placement heuristic, time formatting and the piece
    generator. Boards are values, so "the input board is left unchanged" holds of every
    operation here by construction. */
module GameUtils {
  import opened GameTypes

  const EmptyCell: Cell := Cell(false, None)

  /** Every row is as long as the board is tall. */
  predicate IsSquare(b: Board) {
    forall y :: 0 <= y < |b| ==> |b[y]| == |b|
  }

  predicate InBounds(n: int, x: int, y: int) {
    0 <= x < n && 0 <= y < n
  }

  /** The board cell an offset lands on when the piece is anchored at `anchor`. */
  function Target(anchor: Position, offset: Position): Position {
    Position(anchor.x + offset.x, anchor.y + offset.y)
  }

  /** Two square boards of the same side that agree on every cell are equal. */
  lemma BoardExt(a: Board, c: Board)
    requires IsSquare(a) && IsSquare(c) && |a| == |c|
    requires forall y, x :: InBounds(|a|, x, y) ==> a[y][x] == c[y][x]
    ensures a == c
  {
    forall y | 0 <= y < |a|
      ensures a[y] == c[y]
    {
      assert forall x :: 0 <= x < |a| ==> a[y][x] == c[y][x] by {
        forall x | 0 <= x < |a| ensures a[y][x] == c[y][x] {
          assert InBounds(|a|, x, y);
        }
      }
    }
  }

  // ---------------------------------------------------------------- constructors

  function CreateEmptyBoard(n: nat): (r: Board)
    ensures |r| == n && IsSquare(r)
    ensures forall y, x :: InBounds(n, x, y) ==> r[y][x] == EmptyCell
  {
    seq(n, _ => seq(n, _ => EmptyCell))
  }

  function CreateFilledBoard(n: nat, color: string): (r: Board)
    ensures |r| == n && IsSquare(r)
    ensures forall y, x :: InBounds(n, x, y) ==> r[y][x] == Cell(true, Some(color))
  {
    seq(n, _ => seq(n, _ => Cell(true, Some(color))))
  }

  /** A cell-by-cell copy: same dimensions, same cells. */
  function CloneBoard(b: Board): (r: Board)
    ensures r == b
  {
    var r := seq(|b|, y requires 0 <= y < |b| => seq(|b[y]|, x requires 0 <= x < |b[y]| => b[y][x]));
    assert forall y :: 0 <= y < |b| ==> r[y] == b[y];
    r
  }

  // ---------------------------------------------------------------- validity

  /** The absolute cell is on the board and not filled. */
  predicate FreeCell(b: Board, p: Position)
    requires IsSquare(b)
  {
    InBounds(|b|, p.x, p.y) && !b[p.y][p.x].filled
  }

  /** The `every` over the piece's offsets: each anchored offset lands on a free cell
      of the board (the side is the board's own length). */
  function IsPieceValidAtPosition(b: Board, blocks: seq<Position>, anchor: Position): (r: bool)
    requires IsSquare(b)
    ensures r <==> forall i :: 0 <= i < |blocks| ==> FreeCell(b, Target(anchor, blocks[i]))
  {
    if |blocks| == 0 then true
    else IsPieceValidAtPosition(b, blocks[..|blocks| - 1], anchor) && FreeCell(b, Target(anchor, blocks[|blocks| - 1]))
  }

  // ---------------------------------------------------------------- placement

  /** Some offset among the first k lands on (x, y). */
  predicate Covers(blocks: seq<Position>, k: nat, anchor: Position, x: int, y: int)
    requires k <= |blocks|
  {
    exists i :: 0 <= i < k && Target(anchor, blocks[i]) == Position(x, y)
  }

  lemma CoversStep(blocks: seq<Position>, k: nat, anchor: Position, x: int, y: int)
    requires k < |blocks|
    ensures Covers(blocks, k + 1, anchor, x, y)
        <==> Covers(blocks, k, anchor, x, y) || Target(anchor, blocks[k]) == Position(x, y)
  {
  }

  /** The board after the first k offsets are written: each in-bounds target takes the
      piece's colour, targets off the board are skipped. */
  ghost function PlacedFirst(b: Board, blocks: seq<Position>, k: nat, anchor: Position, color: string): (r: Board)
    requires IsSquare(b) && k <= |blocks|
    ensures |r| == |b| && IsSquare(r)
  {
    if k == 0 then b
    else
      var front := PlacedFirst(b, blocks, k - 1, anchor, color);
      var t := Target(anchor, blocks[k - 1]);
      if InBounds(|b|, t.x, t.y) then front[t.y := front[t.y][t.x := Cell(true, Some(color))]] else front
  }

  /** The placement specification: the board after all offsets are written. */
  ghost function Placed(b: Board, blocks: seq<Position>, anchor: Position, color: string): (r: Board)
    requires IsSquare(b)
    ensures |r| == |b| && IsSquare(r)
  {
    PlacedFirst(b, blocks, |blocks|, anchor, color)
  }

  /** After the first k offsets every in-bounds target among them has the piece's colour
      and every other cell is as before. */
  lemma {:induction false} PlacedFirstCells(b: Board, blocks: seq<Position>, k: nat, anchor: Position, color: string)
    requires IsSquare(b) && k <= |blocks|
    ensures forall y, x :: InBounds(|b|, x, y) ==>
      PlacedFirst(b, blocks, k, anchor, color)[y][x]
        == if Covers(blocks, k, anchor, x, y) then Cell(true, Some(color)) else b[y][x]
  {
    if k > 0 {
      PlacedFirstCells(b, blocks, k - 1, anchor, color);
      forall y, x | InBounds(|b|, x, y)
        ensures Covers(blocks, k, anchor, x, y)
            <==> Covers(blocks, k - 1, anchor, x, y) || Target(anchor, blocks[k - 1]) == Position(x, y)
      {
        CoversStep(blocks, k - 1, anchor, x, y);
      }
    }
  }

  /** Every in-bounds target of the piece takes its colour, every other cell is as before;
      targets off the board are ignored. */
  lemma PlacedCells(b: Board, blocks: seq<Position>, anchor: Position, color: string)
    requires IsSquare(b)
    ensures forall y, x :: InBounds(|b|, x, y) ==>
      Placed(b, blocks, anchor, color)[y][x]
        == if Covers(blocks, |blocks|, anchor, x, y) then Cell(true, Some(color)) else b[y][x]
  {
    PlacedFirstCells(b, blocks, |blocks|, anchor, color);
  }

  /** Copy-on-write placement: writes the in-bounds targets of a clone, silently skipping
      offsets that fall off the board. */
  method PlacePieceOnBoard(b: Board, piece: GamePiece, position: Position) returns (r: Board)
    requires IsSquare(b)
    ensures r == Placed(b, piece.blocks, position, piece.color)
  {
    var n := |b|;
    var blocks := piece.blocks;
    var filledCell := Cell(true, Some(piece.color));
    r := CloneBoard(b);
    var i := 0;
    while i < |blocks|
      invariant 0 <= i <= |blocks|
      invariant r == PlacedFirst(b, blocks, i, position, piece.color)
    {
      var t := Target(position, blocks[i]);
      if 0 <= t.x < n && 0 <= t.y < n {
        r := r[t.y := r[t.y][t.x := filledCell]];
      }
      i := i + 1;
    }
  }

  // ---------------------------------------------------------------- full-structure scans

  predicate RowFull(b: Board, y: int)
    requires IsSquare(b) && 0 <= y < |b|
  {
    forall x :: 0 <= x < |b| ==> b[y][x].filled
  }

  predicate ColumnFull(b: Board, x: int)
    requires IsSquare(b) && 0 <= x < |b|
  {
    forall y :: 0 <= y < |b| ==> b[y][x].filled
  }

  predicate StrictlyAscending(s: seq<int>) {
    forall i, j :: 0 <= i < j < |s| ==> s[i] < s[j]
  }

  /** Appending a value above every element keeps a list strictly ascending and keeps
      its earlier entries. */
  lemma AppendAbove(s: seq<int>, v: int)
    requires StrictlyAscending(s)
    requires forall i :: 0 <= i < |s| ==> s[i] < v
    ensures StrictlyAscending(s + [v])
    ensures forall i :: 0 <= i < |s| ==> (s + [v])[i] == s[i]
    ensures forall x :: x in s ==> x in s + [v]
  {
    var t := s + [v];
    assert forall i :: 0 <= i < |s| ==> t[i] == s[i];
  }

  /** The full rows among the first k, in ascending order. */
  function FullRowsBelow(b: Board, k: nat): seq<int>
    requires IsSquare(b) && k <= |b|
  {
    if k == 0 then [] else FullRowsBelow(b, k - 1) + (if RowFull(b, k - 1) then [k - 1] else [])
  }

  /** The list holds exactly the full rows below k, strictly ascending. */
  lemma {:induction false} FullRowsBelowSpec(b: Board, k: nat)
    requires IsSquare(b) && k <= |b|
    ensures forall i :: 0 <= i < |FullRowsBelow(b, k)| ==>
      0 <= FullRowsBelow(b, k)[i] < k && RowFull(b, FullRowsBelow(b, k)[i])
    ensures forall y :: 0 <= y < k && RowFull(b, y) ==> y in FullRowsBelow(b, k)
    ensures StrictlyAscending(FullRowsBelow(b, k))
  {
    if k > 0 {
      var prev := FullRowsBelow(b, k - 1);
      FullRowsBelowSpec(b, k - 1);
      var r := FullRowsBelow(b, k);
      if RowFull(b, k - 1) {
        assert r == prev + [k - 1];
        AppendAbove(prev, k - 1);
        assert r[|prev|] == k - 1;
        assert StrictlyAscending(r);
      } else {
        assert r == prev;
      }
    }
  }

  function FullRows(b: Board): seq<int>
    requires IsSquare(b)
  {
    FullRowsBelow(b, |b|)
  }

  /** The full columns among the first k, in ascending order. */
  function FullColumnsBelow(b: Board, k: nat): seq<int>
    requires IsSquare(b) && k <= |b|
  {
    if k == 0 then [] else FullColumnsBelow(b, k - 1) + (if ColumnFull(b, k - 1) then [k - 1] else [])
  }

  /** The list holds exactly the full columns below k, strictly ascending. */
  lemma {:induction false} FullColumnsBelowSpec(b: Board, k: nat)
    requires IsSquare(b) && k <= |b|
    ensures forall i :: 0 <= i < |FullColumnsBelow(b, k)| ==>
      0 <= FullColumnsBelow(b, k)[i] < k && ColumnFull(b, FullColumnsBelow(b, k)[i])
    ensures forall x :: 0 <= x < k && ColumnFull(b, x) ==> x in FullColumnsBelow(b, k)
    ensures StrictlyAscending(FullColumnsBelow(b, k))
  {
    if k > 0 {
      var prev := FullColumnsBelow(b, k - 1);
      FullColumnsBelowSpec(b, k - 1);
      var r := FullColumnsBelow(b, k);
      if ColumnFull(b, k - 1) {
        assert r == prev + [k - 1];
        AppendAbove(prev, k - 1);
        assert r[|prev|] == k - 1;
        assert StrictlyAscending(r);
      } else {
        assert r == prev;
      }
    }
  }

  function FullColumns(b: Board): seq<int>
    requires IsSquare(b)
  {
    FullColumnsBelow(b, |b|)
  }

  method CheckFullLines(b: Board) returns (fullLines: seq<int>)
    requires IsSquare(b)
    ensures fullLines == FullRows(b)
  {
    fullLines := [];
    var y := 0;
    while y < |b|
      invariant 0 <= y <= |b|
      invariant fullLines == FullRowsBelow(b, y)
    {
      if RowFull(b, y) {
        fullLines := fullLines + [y];
      }
      y := y + 1;
    }
  }

  method CheckFullColumns(b: Board) returns (fullColumns: seq<int>)
    requires IsSquare(b)
    ensures fullColumns == FullColumns(b)
  {
    fullColumns := [];
    var x := 0;
    while x < |b|
      invariant 0 <= x <= |b|
      invariant fullColumns == FullColumnsBelow(b, x)
    {
      if ColumnFull(b, x) {
        fullColumns := fullColumns + [x];
      }
      x := x + 1;
    }
  }

  /** The first multiple of 3 at or above n: where the `+= 3` anchor loops stop. */
  function BlockLimit(n: nat): (r: nat)
    ensures r % 3 == 0 && n <= r < n + 3
  {
    if n % 3 == 0 then n else n + 3 - n % 3
  }

  /** Multiples of 3 below BlockLimit(n) are exactly the multiples of 3 below n. */
  lemma BelowBlockLimit(x: int, n: nat)
    requires 0 <= x && x % 3 == 0
    ensures x < BlockLimit(n) <==> x < n
    ensures x < n ==> x + 3 <= BlockLimit(n)
  {
  }

  /** The 3x3 tile anchored at (tx, ty), clipped at the board edge, is fully filled. */
  predicate BlockFull(b: Board, tx: int, ty: int)
    requires IsSquare(b) && 0 <= tx && 0 <= ty
  {
    forall y, x :: ty <= y < ty + 3 && y < |b| && tx <= x < tx + 3 && x < |b| ==> b[y][x].filled
  }

  predicate IsBlockAnchor(n: int, p: Position) {
    InBounds(n, p.x, p.y) && p.x % 3 == 0 && p.y % 3 == 0
  }

  /** Row-major order: first by y, then by x. */
  predicate RowMajorBefore(p: Position, q: Position) {
    p.y < q.y || (p.y == q.y && p.x < q.x)
  }

  predicate RowMajorAscending(s: seq<Position>) {
    forall i, j :: 0 <= i < j < |s| ==> RowMajorBefore(s[i], s[j])
  }

  /** The full tiles of the tile row at `ty` whose anchor x is below k, left to right. */
  function FullBlocksInRow(b: Board, ty: nat, k: nat): seq<Position>
    requires IsSquare(b) && k % 3 == 0
  {
    if k == 0 then []
    else FullBlocksInRow(b, ty, k - 3) + (if BlockFull(b, k - 3, ty) then [Position(k - 3, ty)] else [])
  }

  lemma {:induction false} FullBlocksInRowSpec(b: Board, ty: nat, k: nat)
    requires IsSquare(b) && k % 3 == 0
    ensures forall i :: 0 <= i < |FullBlocksInRow(b, ty, k)| ==>
      var p := FullBlocksInRow(b, ty, k)[i];
      p.y == ty && 0 <= p.x < k && p.x % 3 == 0 && BlockFull(b, p.x, ty)
    ensures forall tx :: 0 <= tx < k && tx % 3 == 0 && BlockFull(b, tx, ty) ==>
      Position(tx, ty) in FullBlocksInRow(b, ty, k)
    ensures forall i, j :: 0 <= i < j < |FullBlocksInRow(b, ty, k)| ==>
      FullBlocksInRow(b, ty, k)[i].x < FullBlocksInRow(b, ty, k)[j].x
  {
    if k > 0 {
      FullBlocksInRowSpec(b, ty, k - 3);
    }
  }

  /** The full tiles whose anchor y is below k, in row-major order. */
  function FullBlocksBelow(b: Board, k: nat): seq<Position>
    requires IsSquare(b) && k % 3 == 0
  {
    if k == 0 then []
    else FullBlocksBelow(b, k - 3) + FullBlocksInRow(b, k - 3, BlockLimit(|b|))
  }

  /** Every tile FullBlocksBelow lists is a full tile anchored on the board below row k. */
  lemma {:induction false} FullBlocksBelowSound(b: Board, k: nat)
    requires IsSquare(b) && k % 3 == 0 && k <= BlockLimit(|b|)
    ensures forall i :: 0 <= i < |FullBlocksBelow(b, k)| ==>
      var p := FullBlocksBelow(b, k)[i];
      IsBlockAnchor(|b|, p) && p.y < k && BlockFull(b, p.x, p.y)
  {
    if k > 0 {
      FullBlocksBelowSound(b, k - 3);
      var row := FullBlocksInRow(b, k - 3, BlockLimit(|b|));
      FullBlocksInRowSpec(b, k - 3, BlockLimit(|b|));
      forall i | 0 <= i < |row| ensures row[i].x < |b| {
        BelowBlockLimit(row[i].x, |b|);
      }
    }
  }

  /** Every full tile anchored on the board below row k is listed. */
  lemma {:induction false} FullBlocksBelowComplete(b: Board, k: nat)
    requires IsSquare(b) && k % 3 == 0 && k <= BlockLimit(|b|)
    ensures forall tx, ty :: IsBlockAnchor(|b|, Position(tx, ty)) && ty < k && BlockFull(b, tx, ty) ==>
      Position(tx, ty) in FullBlocksBelow(b, k)
  {
    if k > 0 {
      FullBlocksBelowComplete(b, k - 3);
      FullBlocksInRowSpec(b, k - 3, BlockLimit(|b|));
      forall tx | 0 <= tx && tx % 3 == 0 ensures tx < |b| ==> tx < BlockLimit(|b|) {
        BelowBlockLimit(tx, |b|);
      }
    }
  }

  /** FullBlocksBelow lists tiles in row-major order, so without repetition. */
  lemma {:induction false} FullBlocksBelowOrdered(b: Board, k: nat)
    requires IsSquare(b) && k % 3 == 0 && k <= BlockLimit(|b|)
    ensures RowMajorAscending(FullBlocksBelow(b, k))
  {
    if k > 0 {
      FullBlocksBelowOrdered(b, k - 3);
      FullBlocksBelowSound(b, k - 3);
      FullBlocksInRowSpec(b, k - 3, BlockLimit(|b|));
    }
  }

  function FullBlocks(b: Board): seq<Position>
    requires IsSquare(b)
  {
    FullBlocksBelow(b, BlockLimit(|b|))
  }

  /** The `isFull` scan of one tile, leaving the nested loops at the first unfilled cell. */
  method ScanTile(b: Board, tx: nat, ty: nat) returns (isFull: bool)
    requires IsSquare(b)
    ensures isFull == BlockFull(b, tx, ty)
  {
    var n := |b|;
    isFull := true;
    var y := ty;
    while y < ty + 3 && y < n
      invariant ty <= y <= ty + 3
      invariant isFull
      invariant forall yy, xx :: ty <= yy < y && yy < n && tx <= xx < tx + 3 && xx < n ==> b[yy][xx].filled
    {
      var x := tx;
      while x < tx + 3 && x < n
        invariant tx <= x <= tx + 3
        invariant isFull
        invariant forall xx :: tx <= xx < x && xx < n ==> b[y][xx].filled
      {
        if !b[y][x].filled {
          isFull := false;
          break;
        }
        x := x + 1;
      }
      if !isFull {
        break;
      }
      y := y + 1;
    }
  }

  /** One tile row of `checkFullBlocks`: the inner `blockX += 3` loop. */
  method ScanTileRow(b: Board, blockY: nat) returns (found: seq<Position>)
    requires IsSquare(b) && blockY < |b|
    ensures found == FullBlocksInRow(b, blockY, BlockLimit(|b|))
  {
    var n := |b|;
    found := [];
    var blockX := 0;
    while blockX < n
      invariant 0 <= blockX && blockX % 3 == 0 && blockX <= BlockLimit(n)
      invariant found == FullBlocksInRow(b, blockY, blockX)
    {
      BelowBlockLimit(blockX, n);
      var isFull := ScanTile(b, blockX, blockY);
      if isFull {
        found := found + [Position(blockX, blockY)];
      }
      blockX := blockX + 3;
    }
    BelowBlockLimit(blockX, n);
  }

  method CheckFullBlocks(b: Board) returns (fullBlocks: seq<Position>)
    requires IsSquare(b)
    ensures fullBlocks == FullBlocks(b)
  {
    var n := |b|;
    fullBlocks := [];
    var blockY := 0;
    while blockY < n
      invariant 0 <= blockY && blockY % 3 == 0 && blockY <= BlockLimit(n)
      invariant fullBlocks == FullBlocksBelow(b, blockY)
    {
      BelowBlockLimit(blockY, n);
      var row := ScanTileRow(b, blockY);
      fullBlocks := fullBlocks + row;
      blockY := blockY + 3;
    }
    BelowBlockLimit(blockY, n);
  }

  // ---------------------------------------------------------------- clearing

  /** (x, y) lies in the 3x3 tile anchored at one of the listed positions. */
  predicate InSomeBlock(blocks: seq<Position>, x: int, y: int) {
    exists k :: 0 <= k < |blocks| && blocks[k].x <= x < blocks[k].x + 3 && blocks[k].y <= y < blocks[k].y + 3
  }

  /** (x, y) belongs to a listed row, a listed column or a listed tile. */
  predicate InCleared(rows: seq<int>, cols: seq<int>, blocks: seq<Position>, x: int, y: int) {
    y in rows || x in cols || InSomeBlock(blocks, x, y)
  }

  /** The clearing specification: every cell of a listed structure becomes an empty cell
      with no colour, every other cell is as before. */
  ghost function ClearWhere(b: Board, rows: seq<int>, cols: seq<int>, blocks: seq<Position>): (r: Board)
    requires IsSquare(b)
    ensures |r| == |b| && IsSquare(r)
  {
    seq(|b|, y requires 0 <= y < |b| =>
      seq(|b|, x requires 0 <= x < |b| =>
        if InCleared(rows, cols, blocks, x, y) then EmptyCell else b[y][x]))
  }

  lemma ClearWhereCells(b: Board, rows: seq<int>, cols: seq<int>, blocks: seq<Position>)
    requires IsSquare(b)
    ensures forall y, x :: InBounds(|b|, x, y) ==>
      ClearWhere(b, rows, cols, blocks)[y][x] == if InCleared(rows, cols, blocks, x, y) then EmptyCell else b[y][x]
  {
  }

  /** Clearing twice is clearing once with the lists joined: so clearing is idempotent and
      the order in which rows, columns and tiles are cleared does not matter. */
  lemma ClearCompose(b: Board, rows1: seq<int>, cols1: seq<int>, blocks1: seq<Position>,
                     rows2: seq<int>, cols2: seq<int>, blocks2: seq<Position>)
    requires IsSquare(b)
    ensures ClearWhere(ClearWhere(b, rows1, cols1, blocks1), rows2, cols2, blocks2)
         == ClearWhere(b, rows1 + rows2, cols1 + cols2, blocks1 + blocks2)
  {
    var once := ClearWhere(b, rows1, cols1, blocks1);
    var lhs := ClearWhere(once, rows2, cols2, blocks2);
    var rhs := ClearWhere(b, rows1 + rows2, cols1 + cols2, blocks1 + blocks2);
    forall y, x | InBounds(|b|, x, y) ensures lhs[y][x] == rhs[y][x] {
      InSomeBlockAppend(blocks1, blocks2, x, y);
    }
    BoardExt(lhs, rhs);
  }

  lemma InSomeBlockAppend(blocks1: seq<Position>, blocks2: seq<Position>, x: int, y: int)
    ensures InSomeBlock(blocks1 + blocks2, x, y) <==> InSomeBlock(blocks1, x, y) || InSomeBlock(blocks2, x, y)
  {
    var both := blocks1 + blocks2;
    if InSomeBlock(blocks2, x, y) {
      var k :| 0 <= k < |blocks2| && blocks2[k].x <= x < blocks2[k].x + 3 && blocks2[k].y <= y < blocks2[k].y + 3;
      assert both[|blocks1| + k] == blocks2[k];
    }
    if InSomeBlock(blocks1, x, y) {
      var k :| 0 <= k < |blocks1| && blocks1[k].x <= x < blocks1[k].x + 3 && blocks1[k].y <= y < blocks1[k].y + 3;
      assert both[k] == blocks1[k];
    }
  }

  lemma ClearIdempotent(b: Board, rows: seq<int>, cols: seq<int>, blocks: seq<Position>)
    requires IsSquare(b)
    ensures ClearWhere(ClearWhere(b, rows, cols, blocks), rows, cols, blocks) == ClearWhere(b, rows, cols, blocks)
  {
    ClearCompose(b, rows, cols, blocks, rows, cols, blocks);
    var twice := ClearWhere(b, rows + rows, cols + cols, blocks + blocks);
    var once := ClearWhere(b, rows, cols, blocks);
    forall y, x | InBounds(|b|, x, y) ensures twice[y][x] == once[y][x] {
      InSomeBlockAppend(blocks, blocks, x, y);
    }
    BoardExt(twice, once);
  }

  /** Rows, then columns, then tiles, as the source clears them, is one joint clearing. */
  lemma ClearInSequence(b: Board, rows: seq<int>, cols: seq<int>, blocks: seq<Position>)
    requires IsSquare(b)
    ensures ClearWhere(ClearWhere(ClearWhere(b, rows, [], []), [], cols, []), [], [], blocks)
         == ClearWhere(b, rows, cols, blocks)
  {
    ClearCompose(b, rows, [], [], [], cols, []);
    var noBlocks: seq<Position> := [];
    assert rows + [] == rows && [] + cols == cols && noBlocks + noBlocks == noBlocks;
    ClearCompose(b, rows, cols, [], [], [], blocks);
    assert rows + [] == rows && cols + [] == cols && [] + blocks == blocks;
  }

  /** Clears the listed rows of a copy. On an empty board the row loop writes nothing, so
      any list leaves the copy as it is. */
  method ClearLines(b: Board, lines: seq<int>) returns (r: Board)
    requires IsSquare(b)
    requires |b| == 0 || forall i :: 0 <= i < |lines| ==> 0 <= lines[i] < |b|
    ensures r == ClearWhere(b, lines, [], [])
  {
    var n := |b|;
    r := CloneBoard(b);
    var i := 0;
    while i < |lines|
      invariant 0 <= i <= |lines|
      invariant |r| == n && IsSquare(r)
      invariant forall yy, xx :: InBounds(n, xx, yy) ==> r[yy][xx] == if yy in lines[..i] then EmptyCell else b[yy][xx]
    {
      var y := lines[i];
      var x := 0;
      while x < n
        invariant 0 <= x <= n
        invariant |r| == n && IsSquare(r)
        invariant forall yy, xx :: InBounds(n, xx, yy) ==>
          r[yy][xx] == if yy in lines[..i] || (yy == y && xx < x) then EmptyCell else b[yy][xx]
      {
        r := r[y := r[y][x := EmptyCell]];
        x := x + 1;
      }
      assert lines[..i + 1] == lines[..i] + [y];
      i := i + 1;
    }
    assert lines[..i] == lines;
    BoardExt(r, ClearWhere(b, lines, [], []));
  }

  /** Clears the listed columns of a copy. A negative column names no cell: the write
      `row[x] = ...` then sets a property of the row array and changes none of its cells.
      On an empty board the column loop writes nothing. */
  method ClearColumns(b: Board, columns: seq<int>) returns (r: Board)
    requires IsSquare(b)
    requires |b| == 0 || forall i :: 0 <= i < |columns| ==> columns[i] < |b|
    ensures r == ClearWhere(b, [], columns, [])
  {
    var n := |b|;
    r := CloneBoard(b);
    var i := 0;
    while i < |columns|
      invariant 0 <= i <= |columns|
      invariant |r| == n && IsSquare(r)
      invariant forall yy, xx :: InBounds(n, xx, yy) ==> r[yy][xx] == if xx in columns[..i] then EmptyCell else b[yy][xx]
    {
      var x := columns[i];
      var y := 0;
      while y < n
        invariant 0 <= y <= n
        invariant |r| == n && IsSquare(r)
        invariant forall yy, xx :: InBounds(n, xx, yy) ==>
          r[yy][xx] == if xx in columns[..i] || (xx == x && yy < y) then EmptyCell else b[yy][xx]
      {
        if 0 <= x {
          r := r[y := r[y][x := EmptyCell]];
        }
        y := y + 1;
      }
      assert columns[..i + 1] == columns[..i] + [x];
      i := i + 1;
    }
    assert columns[..i] == columns;
    BoardExt(r, ClearWhere(b, [], columns, []));
  }

  /** Clears one tile of a board, clipped at the edge (the two innermost loops of `clearBlocks`).
      A tile starting left of the board is clipped too: the writes at negative x set
      properties of the row array and change none of its cells. A tile starting at or right
      of the last column writes nothing, whatever its row. */
  method ClearTile(b: Board, tile: Position) returns (r: Board)
    requires IsSquare(b) && (0 <= tile.y || |b| <= tile.x)
    ensures r == ClearWhere(b, [], [], [tile])
  {
    var n := |b|;
    r := b;
    var y := tile.y;
    while y < tile.y + 3 && y < n
      invariant tile.y <= y <= tile.y + 3
      invariant |r| == n && IsSquare(r)
      invariant forall yy, xx :: InBounds(n, xx, yy) ==>
        r[yy][xx] == if tile.y <= yy < y && tile.x <= xx < tile.x + 3 then EmptyCell else b[yy][xx]
    {
      var x := tile.x;
      while x < tile.x + 3 && x < n
        invariant tile.x <= x <= tile.x + 3
        invariant |r| == n && IsSquare(r)
        invariant forall yy, xx :: InBounds(n, xx, yy) ==>
          r[yy][xx] == if (tile.y <= yy < y && tile.x <= xx < tile.x + 3) || (yy == y && tile.x <= xx < x)
                       then EmptyCell else b[yy][xx]
      {
        if 0 <= x {
          r := r[y := r[y][x := EmptyCell]];
        }
        x := x + 1;
      }
      y := y + 1;
    }
    forall yy, xx | InBounds(n, xx, yy)
      ensures InSomeBlock([tile], xx, yy) <==> tile.y <= yy < tile.y + 3 && tile.x <= xx < tile.x + 3
    {
      assert [tile][0] == tile;
    }
    BoardExt(r, ClearWhere(b, [], [], [tile]));
  }

  /** Clears each listed tile of a copy, one `ClearTile` after another. */
  method ClearBlocks(b: Board, blocks: seq<Position>) returns (r: Board)
    requires IsSquare(b)
    requires forall i :: 0 <= i < |blocks| ==> 0 <= blocks[i].y || |b| <= blocks[i].x
    ensures r == ClearWhere(b, [], [], blocks)
  {
    r := CloneBoard(b);
    var i := 0;
    var none: seq<int> := [];
    assert blocks[..0] == [];
    BoardExt(r, ClearWhere(b, [], [], []));
    while i < |blocks|
      invariant 0 <= i <= |blocks|
      invariant r == ClearWhere(b, [], [], blocks[..i])
    {
      r := ClearTile(r, blocks[i]);
      ClearCompose(b, [], [], blocks[..i], [], [], [blocks[i]]);
      assert none + none == none;
      assert blocks[..i + 1] == blocks[..i] + [blocks[i]];
      i := i + 1;
    }
    assert blocks[..i] == blocks;
  }

  /** After clearing every full row, column and tile it detected, the board has no full
      row, no full column and no full tile left: clearing only empties cells, and each
      detected structure loses at least its first cell. */
  lemma ClearingLeavesNoFullStructure(b: Board)
    requires IsSquare(b)
    ensures forall y :: 0 <= y < |b| ==> !RowFull(ClearWhere(b, FullRows(b), FullColumns(b), FullBlocks(b)), y)
    ensures forall x :: 0 <= x < |b| ==> !ColumnFull(ClearWhere(b, FullRows(b), FullColumns(b), FullBlocks(b)), x)
    ensures forall p :: IsBlockAnchor(|b|, p) ==>
      !BlockFull(ClearWhere(b, FullRows(b), FullColumns(b), FullBlocks(b)), p.x, p.y)
  {
    var rows, cols, blocks := FullRows(b), FullColumns(b), FullBlocks(b);
    FullRowsBelowSpec(b, |b|);
    FullColumnsBelowSpec(b, |b|);
    var c := ClearWhere(b, rows, cols, blocks);
    forall y | 0 <= y < |b| ensures !RowFull(c, y) {
      if RowFull(b, y) {
        assert !c[y][0].filled;
      } else {
        var x :| 0 <= x < |b| && !b[y][x].filled;
        assert !c[y][x].filled;
      }
    }
    forall x | 0 <= x < |b| ensures !ColumnFull(c, x) {
      if ColumnFull(b, x) {
        assert !c[0][x].filled;
      } else {
        var y :| 0 <= y < |b| && !b[y][x].filled;
        assert !c[y][x].filled;
      }
    }
    FullBlocksBelowComplete(b, BlockLimit(|b|));
    forall p | IsBlockAnchor(|b|, p) ensures !BlockFull(c, p.x, p.y) {
      if BlockFull(b, p.x, p.y) {
        BelowBlockLimit(p.y, |b|);
        assert Position(p.x, p.y) in blocks;
        var k :| 0 <= k < |blocks| && blocks[k] == p;
        assert InSomeBlock(blocks, p.x, p.y);
        assert !c[p.y][p.x].filled;
      } else {
        var y, x :| p.y <= y < p.y + 3 && y < |b| && p.x <= x < p.x + 3 && x < |b| && !b[y][x].filled;
        assert !c[y][x].filled;
      }
    }
  }

  // ---------------------------------------------------------------- valid anchors

  /** The valid anchors (x, y) of row y with x < k, in ascending x. */
  function ValidInRow(b: Board, blocks: seq<Position>, y: nat, k: nat): seq<Position>
    requires IsSquare(b) && k <= |b|
  {
    if k == 0 then []
    else
      var here := Position(k - 1, y);
      ValidInRow(b, blocks, y, k - 1) + (if IsPieceValidAtPosition(b, blocks, here) then [here] else [])
  }

  /** The valid anchors of the first k rows, in row-major order. */
  function ValidBelow(b: Board, blocks: seq<Position>, k: nat): seq<Position>
    requires IsSquare(b) && k <= |b|
  {
    if k == 0 then [] else ValidBelow(b, blocks, k - 1) + ValidInRow(b, blocks, k - 1, |b|)
  }

  /** What `findAllValidPositions` returns: the valid anchors of the board, row by row. */
  function ValidPositions(b: Board, blocks: seq<Position>): seq<Position>
    requires IsSquare(b)
  {
    ValidBelow(b, blocks, |b|)
  }

  lemma {:induction false} ValidInRowSpec(b: Board, blocks: seq<Position>, y: nat, k: nat)
    requires IsSquare(b) && k <= |b|
    ensures forall i :: 0 <= i < |ValidInRow(b, blocks, y, k)| ==>
      var p := ValidInRow(b, blocks, y, k)[i];
      p.y == y && 0 <= p.x < k && IsPieceValidAtPosition(b, blocks, p)
    ensures forall x :: 0 <= x < k && IsPieceValidAtPosition(b, blocks, Position(x, y)) ==>
      Position(x, y) in ValidInRow(b, blocks, y, k)
    ensures forall i, j :: 0 <= i < j < |ValidInRow(b, blocks, y, k)| ==>
      ValidInRow(b, blocks, y, k)[i].x < ValidInRow(b, blocks, y, k)[j].x
  {
    if k > 0 { ValidInRowSpec(b, blocks, y, k - 1); }
  }

  lemma {:induction false} ValidBelowSound(b: Board, blocks: seq<Position>, k: nat)
    requires IsSquare(b) && k <= |b|
    ensures forall i :: 0 <= i < |ValidBelow(b, blocks, k)| ==>
      var p := ValidBelow(b, blocks, k)[i];
      InBounds(|b|, p.x, p.y) && p.y < k && IsPieceValidAtPosition(b, blocks, p)
  {
    if k > 0 {
      ValidBelowSound(b, blocks, k - 1);
      ValidInRowSpec(b, blocks, k - 1, |b|);
      var prefix := ValidBelow(b, blocks, k - 1);
      var row := ValidInRow(b, blocks, k - 1, |b|);
      assert ValidBelow(b, blocks, k) == prefix + row;
      forall i | 0 <= i < |prefix + row|
        ensures var p: Position := (prefix + row)[i]; InBounds(|b|, p.x, p.y) && p.y < k && IsPieceValidAtPosition(b, blocks, p)
      {
        if i >= |prefix| { assert (prefix + row)[i] == row[i - |prefix|]; }
      }
    }
  }

  lemma {:induction false} ValidBelowComplete(b: Board, blocks: seq<Position>, k: nat)
    requires IsSquare(b) && k <= |b|
    ensures forall x, y :: 0 <= y < k && 0 <= x < |b| && IsPieceValidAtPosition(b, blocks, Position(x, y)) ==>
      Position(x, y) in ValidBelow(b, blocks, k)
  {
    if k > 0 {
      ValidBelowComplete(b, blocks, k - 1);
      ValidInRowSpec(b, blocks, k - 1, |b|);
    }
  }

  lemma {:induction false} ValidBelowOrdered(b: Board, blocks: seq<Position>, k: nat)
    requires IsSquare(b) && k <= |b|
    ensures RowMajorAscending(ValidBelow(b, blocks, k))
  {
    if k > 0 {
      ValidBelowOrdered(b, blocks, k - 1);
      ValidBelowSound(b, blocks, k - 1);
      ValidInRowSpec(b, blocks, k - 1, |b|);
      var prefix := ValidBelow(b, blocks, k - 1);
      var row := ValidInRow(b, blocks, k - 1, |b|);
      var all := prefix + row;
      forall i, j | 0 <= i < j < |all| ensures RowMajorBefore(all[i], all[j]) {
        if j < |prefix| {
          assert all[i] == prefix[i] && all[j] == prefix[j];
        } else if i < |prefix| {
          assert all[i] == prefix[i] && all[j] == row[j - |prefix|];
        } else {
          assert all[i] == row[i - |prefix|] && all[j] == row[j - |prefix|];
        }
      }
    }
  }

  /** The anchor list holds exactly the in-bounds anchors at which the piece is valid, in
      strictly row-major order (so without duplicates). */
  lemma ValidPositionsSpec(b: Board, blocks: seq<Position>)
    requires IsSquare(b)
    ensures forall p: Position :: p in ValidPositions(b, blocks) <==>
      InBounds(|b|, p.x, p.y) && IsPieceValidAtPosition(b, blocks, p)
    ensures RowMajorAscending(ValidPositions(b, blocks))
  {
    ValidBelowSound(b, blocks, |b|);
    ValidBelowComplete(b, blocks, |b|);
    ValidBelowOrdered(b, blocks, |b|);
    forall p: Position | InBounds(|b|, p.x, p.y) && IsPieceValidAtPosition(b, blocks, p)
      ensures p in ValidPositions(b, blocks)
    {
      assert p == Position(p.x, p.y);
    }
  }

  method ScanAnchorRow(b: Board, piece: GamePiece, y: nat) returns (found: seq<Position>)
    requires IsSquare(b) && y < |b|
    ensures found == ValidInRow(b, piece.blocks, y, |b|)
  {
    found := [];
    var x := 0;
    while x < |b|
      invariant 0 <= x <= |b|
      invariant found == ValidInRow(b, piece.blocks, y, x)
    {
      var position := Position(x, y);
      if IsPieceValidAtPosition(b, piece.blocks, position) {
        found := found + [position];
      }
      x := x + 1;
    }
  }

  method FindAllValidPositions(b: Board, piece: GamePiece) returns (validPositions: seq<Position>)
    requires IsSquare(b)
    ensures validPositions == ValidPositions(b, piece.blocks)
    ensures forall p: Position :: p in validPositions <==> InBounds(|b|, p.x, p.y) && IsPieceValidAtPosition(b, piece.blocks, p)
    ensures RowMajorAscending(validPositions)
  {
    validPositions := [];
    var y := 0;
    while y < |b|
      invariant 0 <= y <= |b|
      invariant validPositions == ValidBelow(b, piece.blocks, y)
    {
      var row := ScanAnchorRow(b, piece, y);
      validPositions := validPositions + row;
      y := y + 1;
    }
    ValidPositionsSpec(b, piece.blocks);
  }

  /** Some queued piece has a non-empty list of valid anchors. */
  ghost predicate SomeHasPositions(b: Board, pieces: seq<GamePiece>)
    requires IsSquare(b)
  {
    exists k :: 0 <= k < |pieces| && ValidPositions(b, pieces[k].blocks) != []
  }

  function CanAnyPieceBePlaced(b: Board, pieces: seq<GamePiece>): (r: bool)
    requires IsSquare(b)
    ensures r <==> SomeHasPositions(b, pieces)
  {
    if |pieces| == 0 then false
    else
      var front := pieces[..|pieces| - 1];
      assert forall k :: 0 <= k < |front| ==> front[k] == pieces[k];
      CanAnyPieceBePlaced(b, front) || ValidPositions(b, pieces[|pieces| - 1].blocks) != []
  }

  /** A piece's anchor list is non-empty exactly when the piece is valid at some anchor
      of [0, n)². */
  lemma AnchorsIffFits(b: Board, blocks: seq<Position>)
    requires IsSquare(b)
    ensures ValidPositions(b, blocks) != [] <==>
      exists x, y :: InBounds(|b|, x, y) && IsPieceValidAtPosition(b, blocks, Position(x, y))
  {
    ValidPositionsSpec(b, blocks);
    if ValidPositions(b, blocks) != [] {
      var p := ValidPositions(b, blocks)[0];
      assert p in ValidPositions(b, blocks);
      assert IsPieceValidAtPosition(b, blocks, Position(p.x, p.y));
    }
    if exists x, y :: InBounds(|b|, x, y) && IsPieceValidAtPosition(b, blocks, Position(x, y)) {
      var x, y :| InBounds(|b|, x, y) && IsPieceValidAtPosition(b, blocks, Position(x, y));
      assert Position(x, y) in ValidPositions(b, blocks);
    }
  }

  /** Read on the board: some queued piece is valid at some anchor of [0, n)². */
  lemma CanAnyPieceBePlacedSpec(b: Board, pieces: seq<GamePiece>)
    requires IsSquare(b)
    ensures CanAnyPieceBePlaced(b, pieces) <==>
      exists i, x, y :: 0 <= i < |pieces| && InBounds(|b|, x, y) && IsPieceValidAtPosition(b, pieces[i].blocks, Position(x, y))
  {
    forall i | 0 <= i < |pieces|
      ensures ValidPositions(b, pieces[i].blocks) != [] <==>
        exists x, y :: InBounds(|b|, x, y) && IsPieceValidAtPosition(b, pieces[i].blocks, Position(x, y))
    {
      AnchorsIffFits(b, pieces[i].blocks);
    }
  }

  // ---------------------------------------------------------------- scoring

  /** The award of `calculateScore`: ten points a cell plus the structure bonuses, all times
      the multiplier. */
  function CalculateScore(clearedLines: int, clearedColumns: int, clearedBlocks: int,
                          totalClearedCells: int, comboMultiplier: real): (award: real)
    ensures 0 <= clearedLines && 0 <= clearedColumns && 0 <= clearedBlocks && 0 <= totalClearedCells ==>
      && (0.0 <= comboMultiplier ==> 0.0 <= award)
      && (0.0 < comboMultiplier ==>
            (0.0 < award <==> 0 < totalClearedCells + clearedLines + clearedColumns + clearedBlocks))
  {
    ((totalClearedCells * BaseScore + clearedLines * LineBonus + clearedColumns * ColumnBonus
      + clearedBlocks * BlockBonus) as real) * comboMultiplier
  }

  /** With the store's cell total (8 a row, 8 a column, 9 a tile), each row and each column
      is worth 160 points and each tile 210, before the multiplier; the award is positive
      exactly when something was cleared and the multiplier is positive. */
  lemma AwardPerStructure(rows: nat, cols: nat, blocks: nat, mult: real)
    ensures CalculateScore(rows, cols, blocks, 8 * rows + 8 * cols + 9 * blocks, mult)
         == ((160 * rows + 160 * cols + 210 * blocks) as real) * mult
    ensures mult > 0.0 ==>
      (CalculateScore(rows, cols, blocks, 8 * rows + 8 * cols + 9 * blocks, mult) > 0.0 <==> rows + cols + blocks > 0)
  {
    var base := 160 * rows + 160 * cols + 210 * blocks;
    assert CalculateScore(rows, cols, blocks, 8 * rows + 8 * cols + 9 * blocks, mult) == (base as real) * mult;
    if mult > 0.0 && base > 0 {
      assert (base as real) * mult > 0.0;
    }
  }

  /** The award grows with the multiplier. */
  lemma AwardMonotone(rows: nat, cols: nat, blocks: nat, cells: nat, m1: real, m2: real)
    requires m1 <= m2
    ensures CalculateScore(rows, cols, blocks, cells, m1) <= CalculateScore(rows, cols, blocks, cells, m2)
  {
    var base := (cells * BaseScore + rows * LineBonus + cols * ColumnBonus + blocks * BlockBonus) as real;
    assert base >= 0.0;
    assert base * m1 <= base * m2;
  }

  // ---------------------------------------------------------------- placement heuristic

  /** The heuristic of `getOptimalPiecePosition`: what placing the piece at the anchor would
      complete, 10 a row, 10 a column, 15 a tile. */
  ghost function Heuristic(b: Board, piece: GamePiece, anchor: Position): nat
    requires IsSquare(b)
  {
    var t := Placed(b, piece.blocks, anchor, piece.color);
    |FullRows(t)| * 10 + |FullColumns(t)| * 10 + |FullBlocks(t)| * 15
  }

  /** The heuristics of a list of anchors, one per entry. */
  ghost function Heuristics(b: Board, piece: GamePiece, candidates: seq<Position>): (hs: seq<nat>)
    requires IsSquare(b)
    ensures |hs| == |candidates|
  {
    if |candidates| == 0 then []
    else Heuristics(b, piece, candidates[..|candidates| - 1]) + [Heuristic(b, piece, candidates[|candidates| - 1])]
  }

  /** Entry i of the list is the heuristic of the i-th anchor. */
  lemma {:induction false} HeuristicsAt(b: Board, piece: GamePiece, candidates: seq<Position>, i: int)
    requires IsSquare(b) && 0 <= i < |candidates|
    ensures Heuristics(b, piece, candidates)[i] == Heuristic(b, piece, candidates[i])
  {
    var front := candidates[..|candidates| - 1];
    if i < |front| {
      HeuristicsAt(b, piece, front, i);
    }
  }

  /** Entry j is a greatest score and every earlier entry is strictly smaller. */
  predicate FirstMax(scores: seq<nat>, j: int) {
    && 0 <= j < |scores|
    && (forall i :: 0 <= i < |scores| ==> scores[i] <= scores[j])
    && (forall i :: 0 <= i < j ==> scores[i] < scores[j])
  }

  /** The loop body's score of one anchor, computed as the source does. */
  method ScoreAnchor(b: Board, piece: GamePiece, position: Position) returns (score: nat)
    requires IsSquare(b)
    ensures score == Heuristic(b, piece, position)
  {
    var testBoard := PlacePieceOnBoard(b, piece, position);
    var lines := CheckFullLines(testBoard);
    var columns := CheckFullColumns(testBoard);
    var blocks := CheckFullBlocks(testBoard);
    score := |lines| * 10 + |columns| * 10 + |blocks| * 15;
  }

  /** The `for ... of` loop: keeps the first strictly greatest score, starting from the
      first entry with best score 0. */
  method BestOf(b: Board, piece: GamePiece, candidates: seq<Position>) returns (best: Position, ghost j: int)
    requires IsSquare(b) && |candidates| > 0
    ensures FirstMax(Heuristics(b, piece, candidates), j) && best == candidates[j]
  {
    ghost var hs := Heuristics(b, piece, candidates);
    best := candidates[0];
    var bestScore := 0;
    j := 0;
    var k := 0;
    while k < |candidates|
      invariant 0 <= k <= |candidates|
      invariant 0 <= j < |candidates| && best == candidates[j]
      invariant (j == 0 && bestScore == 0) || (j < k && bestScore == hs[j])
      invariant forall i :: 0 <= i < k ==> hs[i] <= bestScore
      invariant forall i :: 0 <= i < j ==> hs[i] < bestScore
    {
      var position := candidates[k];
      var score := ScoreAnchor(b, piece, position);
      HeuristicsAt(b, piece, candidates, k);
      if score > bestScore {
        bestScore := score;
        best := position;
        j := k;
      }
      k := k + 1;
    }
  }

  /** No anchor when the piece fits nowhere; otherwise a valid anchor with the greatest
      heuristic, the first such in row-major order (the first valid anchor when every
      score is 0, since only a strictly greater score replaces the best). */
  method GetOptimalPiecePosition(b: Board, piece: GamePiece) returns (r: Option<Position>)
    requires IsSquare(b)
    ensures r.None? <==> ValidPositions(b, piece.blocks) == []
    ensures r.Some? ==> exists j :: FirstMax(Heuristics(b, piece, ValidPositions(b, piece.blocks)), j)
                                    && ValidPositions(b, piece.blocks)[j] == r.value
  {
    var validPositions := FindAllValidPositions(b, piece);
    if |validPositions| == 0 {
      return None;
    }
    var best;
    ghost var j;
    best, j := BestOf(b, piece, validPositions);
    r := Some(best);
  }

  /** In a strictly row-major list, the first maximum beats every entry that comes before
      it on the board, and no entry beats it. */
  lemma FirstMaxInRowMajor(candidates: seq<Position>, scores: seq<nat>, j: int)
    requires |scores| == |candidates| && RowMajorAscending(candidates) && FirstMax(scores, j)
    ensures forall i :: 0 <= i < |candidates| && RowMajorBefore(candidates[i], candidates[j]) ==> scores[i] < scores[j]
  {
  }

  /** The chosen anchor is valid, no valid anchor scores higher, and every valid anchor
      before it in row-major order scores strictly lower. */
  lemma OptimalPositionIsBest(b: Board, piece: GamePiece, j: int)
    requires IsSquare(b) && FirstMax(Heuristics(b, piece, ValidPositions(b, piece.blocks)), j)
    ensures InBounds(|b|, ValidPositions(b, piece.blocks)[j].x, ValidPositions(b, piece.blocks)[j].y)
    ensures IsPieceValidAtPosition(b, piece.blocks, ValidPositions(b, piece.blocks)[j])
  {
    var vp := ValidPositions(b, piece.blocks);
    ValidPositionsSpec(b, piece.blocks);
    assert vp[j] in vp;
  }

  lemma NoValidAnchorBeatsOptimal(b: Board, piece: GamePiece, j: int, p: Position)
    requires IsSquare(b) && FirstMax(Heuristics(b, piece, ValidPositions(b, piece.blocks)), j)
    requires InBounds(|b|, p.x, p.y) && IsPieceValidAtPosition(b, piece.blocks, p)
    ensures Heuristic(b, piece, p) <= Heuristic(b, piece, ValidPositions(b, piece.blocks)[j])
    ensures RowMajorBefore(p, ValidPositions(b, piece.blocks)[j]) ==>
      Heuristic(b, piece, p) < Heuristic(b, piece, ValidPositions(b, piece.blocks)[j])
  {
    var vp := ValidPositions(b, piece.blocks);
    var i := ValidAnchorIndex(b, piece.blocks, p);
    FirstMaxAt(vp, Heuristics(b, piece, vp), j, i);
    HeuristicsAt(b, piece, vp, i);
    HeuristicsAt(b, piece, vp, j);
  }

  /** A valid in-bounds anchor occurs in the enumeration. */
  lemma ValidAnchorIndex(b: Board, blocks: seq<Position>, p: Position) returns (i: int)
    requires IsSquare(b) && InBounds(|b|, p.x, p.y) && IsPieceValidAtPosition(b, blocks, p)
    ensures 0 <= i < |ValidPositions(b, blocks)| && ValidPositions(b, blocks)[i] == p
    ensures RowMajorAscending(ValidPositions(b, blocks))
  {
    ValidPositionsSpec(b, blocks);
    assert p in ValidPositions(b, blocks);
    i :| 0 <= i < |ValidPositions(b, blocks)| && ValidPositions(b, blocks)[i] == p;
  }

  /** One candidate against the first maximum of a row-major candidate list. */
  lemma FirstMaxAt(candidates: seq<Position>, scores: seq<nat>, j: int, i: int)
    requires |scores| == |candidates| && RowMajorAscending(candidates) && FirstMax(scores, j)
    requires 0 <= i < |candidates|
    ensures scores[i] <= scores[j]
    ensures RowMajorBefore(candidates[i], candidates[j]) ==> scores[i] < scores[j]
  {
    FirstMaxInRowMajor(candidates, scores, j);
  }

  // ---------------------------------------------------------------- clock formatting

  predicate IsDigit(c: char) {
    '0' <= c <= '9'
  }

  predicate AllDigits(s: string) {
    forall i :: 0 <= i < |s| ==> IsDigit(s[i])
  }

  function DigitChar(d: nat): (c: char)
    requires d < 10
    ensures IsDigit(c) && c as int - '0' as int == d
  {
    ('0' as int + d) as char
  }

  /** Decimal form of a natural number, without leading zeros (JavaScript's `String(n)`). */
  function NatToString(n: nat): string
    decreases n
  {
    if n < 10 then [DigitChar(n)] else NatToString(n / 10) + [DigitChar(n % 10)]
  }

  /** Decimal form of an integer, with a leading minus when negative. */
  function IntToString(i: int): string {
    if i < 0 then "-" + NatToString(-i) else NatToString(i)
  }

  /** The value of a string of decimal digits. */
  function DigitsValue(s: string): nat
    requires AllDigits(s)
  {
    if |s| == 0 then 0 else DigitsValue(s[..|s| - 1]) * 10 + (s[|s| - 1] as int - '0' as int)
  }

  lemma {:induction false} NatToStringDigits(n: nat)
    ensures |NatToString(n)| > 0 && AllDigits(NatToString(n))
    ensures DigitsValue(NatToString(n)) == n
    decreases n
  {
    if n >= 10 {
      NatToStringDigits(n / 10);
      var s := NatToString(n);
      assert s[..|s| - 1] == NatToString(n / 10);
    }
  }

  /** `String(n).padStart(2, '0')`. */
  function Pad2(n: nat): string {
    var s := NatToString(n);
    if |s| < 2 then "0" + s else s
  }

  lemma Pad2Spec(n: nat)
    requires n < 100
    ensures |Pad2(n)| == 2 && AllDigits(Pad2(n)) && DigitsValue(Pad2(n)) == n
  {
    NatToStringDigits(n);
    if n < 10 {
      var s := Pad2(n);
      assert s[..1] == "0";
    } else {
      NatToStringDigits(n / 10);
      assert NatToString(n / 10) == [DigitChar(n / 10)];
    }
  }

  /** The decimal form of an integer is non-empty and holds neither `:` nor `s`. */
  lemma IntToStringMarks(i: int)
    ensures |IntToString(i)| > 0
    ensures forall k :: 0 <= k < |IntToString(i)| ==> IntToString(i)[k] != ':' && IntToString(i)[k] != 's'
  {
    NatToStringDigits(if i < 0 then -i else i);
  }

  /** Elapsed milliseconds as `h:MM:SS`, `m:SS` or `Ns`, from floored seconds, minutes
      and hours. The format is chosen by the whole seconds: a trailing `s` below a minute,
      a colon before the last two digits from a minute on, and a second colon from an
      hour on. */
  function FormatTime(ms: int): (r: string)
    ensures |r| >= 2
    ensures r[|r| - 1] == 's' <==> ms / 1000 < 60
    ensures (|r| >= 4 && r[|r| - 3] == ':') <==> ms / 1000 >= 60
    ensures (|r| >= 7 && r[|r| - 6] == ':') <==> ms / 1000 >= 3600
  {
    var seconds := ms / 1000;
    var minutes := seconds / 60;
    var hours := minutes / 60;
    IntToStringMarks(seconds);
    IntToStringMarks(minutes);
    IntToStringMarks(hours);
    Pad2Spec(minutes % 60);
    Pad2Spec(seconds % 60);
    if hours > 0 then IntToString(hours) + ":" + Pad2(minutes % 60) + ":" + Pad2(seconds % 60)
    else if minutes > 0 then IntToString(minutes) + ":" + Pad2(seconds % 60)
    else IntToString(seconds) + "s"
  }

  /** An optionally negative decimal integer. */
  function ParseInt(t: string): Option<int> {
    if |t| > 1 && t[0] == '-' && AllDigits(t[1..]) then Some(-(DigitsValue(t[1..]) as int))
    else if |t| > 0 && AllDigits(t) then Some(DigitsValue(t))
    else None
  }

  /** Reads a clock string back to whole seconds: `Ns`, `m:SS` or `h:MM:SS`. */
  function ParseClock(s: string): Option<int> {
    if |s| > 0 && s[|s| - 1] == 's' then ParseInt(s[..|s| - 1])
    else if |s| >= 4 && s[|s| - 3] == ':' && AllDigits(s[|s| - 2..]) then
      var head := s[..|s| - 3];
      var sec := DigitsValue(s[|s| - 2..]);
      if |head| >= 4 && head[|head| - 3] == ':' && AllDigits(head[|head| - 2..])
         && AllDigits(head[..|head| - 3]) && |head[..|head| - 3]| > 0 then
        Some(DigitsValue(head[..|head| - 3]) * 3600 + DigitsValue(head[|head| - 2..]) * 60 + sec)
      else if AllDigits(head) then Some(DigitsValue(head) * 60 + sec)
      else None
    else None
  }

  lemma ParseIntRoundTrip(i: int)
    ensures ParseInt(IntToString(i)) == Some(i)
  {
    var t := IntToString(i);
    if i < 0 {
      NatToStringDigits(-i);
      assert t[1..] == NatToString(-i);
      assert |t| > 1 && t[0] == '-' && AllDigits(t[1..]);
    } else {
      NatToStringDigits(i);
      assert t == NatToString(i);
      assert t[0] != '-';
    }
  }

  /** Parsing `h:MM:SS` built from digit strings. */
  lemma {:induction false} ParseClockHms(h: string, mm: string, ss: string)
    requires |h| > 0 && AllDigits(h)
    requires |mm| == 2 && AllDigits(mm) && |ss| == 2 && AllDigits(ss)
    ensures ParseClock(h + ":" + mm + ":" + ss)
      == Some(DigitsValue(h) * 3600 + DigitsValue(mm) * 60 + DigitsValue(ss))
  {
    var out := h + ":" + mm + ":" + ss;
    assert out[|out| - 1] == ss[1];
    assert out[|out| - 3] == ':';
    assert out[|out| - 2..] == ss;
    var head := out[..|out| - 3];
    assert head == h + ":" + mm;
    assert head[|head| - 3] == ':';
    assert head[|head| - 2..] == mm;
    assert head[..|head| - 3] == h;
  }

  /** Parsing `m:SS` built from digit strings. */
  lemma {:induction false} ParseClockMs(m: string, ss: string)
    requires |m| > 0 && AllDigits(m) && |ss| == 2 && AllDigits(ss)
    ensures ParseClock(m + ":" + ss) == Some(DigitsValue(m) * 60 + DigitsValue(ss))
  {
    var out := m + ":" + ss;
    assert out[|out| - 1] == ss[1];
    assert out[|out| - 3] == ':';
    assert out[|out| - 2..] == ss;
    var head := out[..|out| - 3];
    assert head == m;
    assert !(|head| >= 4 && head[|head| - 3] == ':') by {
      if |head| >= 4 {
        assert IsDigit(m[|m| - 3]);
      }
    }
    assert ParseClock(out) == Some(DigitsValue(head) * 60 + DigitsValue(out[|out| - 2..]));
  }

  /** Floored seconds, minutes and hours recombine to the seconds. */
  lemma ClockArithmetic(seconds: int)
    requires seconds >= 0
    ensures (seconds / 60) / 60 * 3600 + (seconds / 60) % 60 * 60 + seconds % 60 == seconds
    ensures (seconds / 60) * 60 + seconds % 60 == seconds
  {
    var minutes := seconds / 60;
    assert minutes * 60 + seconds % 60 == seconds;
    assert (minutes / 60) * 60 + minutes % 60 == minutes;
  }

  /** What each field of the rendering holds: the leading field reads back as the whole
      seconds, minutes or hours, `MM` is the minutes modulo 60 and `SS` the seconds
      modulo 60, so every two-digit field is below 60. */
  lemma FormatTimeFields(ms: int)
    ensures var s, r := ms / 1000, FormatTime(ms);
      s < 60 ==> ParseInt(r[..|r| - 1]) == Some(s)
    ensures var s, r := ms / 1000, FormatTime(ms);
      60 <= s < 3600 ==>
        && ParseInt(r[..|r| - 3]) == Some(s / 60)
        && AllDigits(r[|r| - 2..]) && DigitsValue(r[|r| - 2..]) == s % 60
    ensures var s, r := ms / 1000, FormatTime(ms);
      3600 <= s ==>
        && |r| >= 7
        && ParseInt(r[..|r| - 6]) == Some(s / 60 / 60)
        && AllDigits(r[|r| - 5..|r| - 3]) && DigitsValue(r[|r| - 5..|r| - 3]) == s / 60 % 60
        && AllDigits(r[|r| - 2..]) && DigitsValue(r[|r| - 2..]) == s % 60
  {
    var seconds := ms / 1000;
    var minutes := seconds / 60;
    var hours := minutes / 60;
    var r := FormatTime(ms);
    Pad2Spec(minutes % 60);
    Pad2Spec(seconds % 60);
    if hours > 0 {
      var h := IntToString(hours);
      ParseIntRoundTrip(hours);
      assert r == h + ":" + Pad2(minutes % 60) + ":" + Pad2(seconds % 60);
      assert r[..|r| - 6] == h;
      assert r[|r| - 5..|r| - 3] == Pad2(minutes % 60);
      assert r[|r| - 2..] == Pad2(seconds % 60);
    } else if minutes > 0 {
      var m := IntToString(minutes);
      ParseIntRoundTrip(minutes);
      assert r == m + ":" + Pad2(seconds % 60);
      assert r[..|r| - 3] == m;
      assert r[|r| - 2..] == Pad2(seconds % 60);
    } else {
      ParseIntRoundTrip(seconds);
      assert r[..|r| - 1] == IntToString(seconds);
    }
  }

  /** Reading the formatted clock back gives the whole seconds it was made from, so two
      durations format alike exactly when they have the same whole seconds. */
  lemma FormatTimeRoundTrip(ms: int)
    ensures ParseClock(FormatTime(ms)) == Some(ms / 1000)
  {
    var seconds := ms / 1000;
    var minutes := seconds / 60;
    var hours := minutes / 60;
    var out := FormatTime(ms);
    if hours > 0 {
      Pad2Spec(seconds % 60);
      Pad2Spec(minutes % 60);
      NatToStringDigits(hours);
      ParseClockHms(IntToString(hours), Pad2(minutes % 60), Pad2(seconds % 60));
      ClockArithmetic(seconds);
    } else if minutes > 0 {
      Pad2Spec(seconds % 60);
      NatToStringDigits(minutes);
      ParseClockMs(IntToString(minutes), Pad2(seconds % 60));
      ClockArithmetic(seconds);
    } else {
      ParseIntRoundTrip(seconds);
      assert out[|out| - 1] == 's';
      assert out[..|out| - 1] == IntToString(seconds);
    }
  }

  lemma FormatTimeInjective(a: int, b: int)
    requires FormatTime(a) == FormatTime(b)
    ensures a / 1000 == b / 1000
  {
    FormatTimeRoundTrip(a);
    FormatTimeRoundTrip(b);
  }

  // ---------------------------------------------------------------- board statistics

  /** The filled and empty counts of `getBoardStats` (the percentage is left out). */
  datatype BoardStats = BoardStats(filledCells: int, emptyCells: int)

  function CountFilledRow(row: seq<Cell>): nat {
    if |row| == 0 then 0 else (if row[0].filled then 1 else 0) + CountFilledRow(row[1..])
  }

  /** The length of the board's flattened, filtered-on-filled cell list. */
  function CountFilled(b: Board): nat {
    if |b| == 0 then 0 else CountFilledRow(b[0]) + CountFilled(b[1..])
  }

  function CountEmptyRow(row: seq<Cell>): nat {
    if |row| == 0 then 0 else (if row[0].filled then 0 else 1) + CountEmptyRow(row[1..])
  }

  /** An independent count of the unfilled cells. */
  function CountEmpty(b: Board): nat {
    if |b| == 0 then 0 else CountEmptyRow(b[0]) + CountEmpty(b[1..])
  }

  /** On a square board the empty count, computed as the total minus the filled count,
      agrees with an independent count of the unfilled cells. */
  function GetBoardStats(b: Board): (stats: BoardStats)
    ensures IsSquare(b) ==> stats.emptyCells == CountEmpty(b) && 0 <= stats.filledCells <= |b| * |b|
  {
    var filled := CountFilled(b);
    assert IsSquare(b) ==> filled + CountEmpty(b) == |b| * |b| by {
      if IsSquare(b) {
        CountsSum(b, |b|);
      }
    }
    BoardStats(filled, |b| * |b| - filled)
  }

  lemma {:induction false} RowCountsSum(row: seq<Cell>)
    ensures CountFilledRow(row) + CountEmptyRow(row) == |row|
  {
    if |row| > 0 { RowCountsSum(row[1..]); }
  }

  lemma {:induction false} CountsSum(b: Board, n: nat)
    requires forall y :: 0 <= y < |b| ==> |b[y]| == n
    ensures CountFilled(b) + CountEmpty(b) == |b| * n
  {
    if |b| > 0 {
      RowCountsSum(b[0]);
      CountsSum(b[1..], n);
    }
  }

  /** A row whose cells all have the same fill state counts all or none of them as filled. */
  lemma {:induction false} UniformRowCount(row: seq<Cell>, filled: bool)
    requires forall x :: 0 <= x < |row| ==> row[x].filled == filled
    ensures CountFilledRow(row) == if filled then |row| else 0
  {
    if |row| > 0 { UniformRowCount(row[1..], filled); }
  }

  lemma {:induction false} UniformCount(b: Board, n: nat, filled: bool)
    requires forall y :: 0 <= y < |b| ==> |b[y]| == n
    requires forall y, x :: 0 <= y < |b| && 0 <= x < n ==> b[y][x].filled == filled
    ensures CountFilled(b) == if filled then |b| * n else 0
  {
    if |b| > 0 {
      UniformRowCount(b[0], filled);
      UniformCount(b[1..], n, filled);
    }
  }

  /** A fresh board has no filled cell; a filled board has every cell filled. */
  lemma ConstructedBoardStats(n: nat, color: string)
    ensures GetBoardStats(CreateEmptyBoard(n)) == BoardStats(0, n * n)
    ensures GetBoardStats(CreateFilledBoard(n, color)) == BoardStats(n * n, 0)
  {
    UniformCount(CreateEmptyBoard(n), n, false);
    UniformCount(CreateFilledBoard(n, color), n, true);
  }

  // ---------------------------------------------------------------- scan completeness

  /** A shape with an offset in column 0 and one in row 0 can only be valid at an anchor
      on the board, so scanning the anchors of [0, n)² finds every placement. */
  lemma ValidAnchorOnBoard(b: Board, blocks: seq<Position>, anchor: Position)
    requires IsSquare(b) && WellFormedShape(blocks)
    requires IsPieceValidAtPosition(b, blocks, anchor)
    ensures InBounds(|b|, anchor.x, anchor.y)
  {
    var i :| 0 <= i < |blocks| && blocks[i].x == 0;
    var k :| 0 <= k < |blocks| && blocks[k].y == 0;
    assert FreeCell(b, Target(anchor, blocks[i]));
    assert FreeCell(b, Target(anchor, blocks[k]));
  }

  /** Every catalog shape fits the top-left corner of an empty board of the configured size. */
  lemma CatalogFitsEmptyBoard(k: nat)
    requires k < |PieceShapes|
    ensures IsPieceValidAtPosition(CreateEmptyBoard(BoardSize), PieceShapes[k].blocks, Position(0, 0))
  {
    var blocks := PieceShapes[k].blocks;
    ShapeWellFormed(k);
    EmptyBoardFits(BoardSize, blocks, Position(0, 0));
  }

  /** On an empty board a piece fits wherever all of its targets are on the board. */
  lemma EmptyBoardFits(n: nat, blocks: seq<Position>, anchor: Position)
    requires forall i :: 0 <= i < |blocks| ==> InBounds(n, anchor.x + blocks[i].x, anchor.y + blocks[i].y)
    ensures IsPieceValidAtPosition(CreateEmptyBoard(n), blocks, anchor)
  {
    var b := CreateEmptyBoard(n);
    forall i | 0 <= i < |blocks|
      ensures FreeCell(b, Target(anchor, blocks[i]))
    {
    }
  }

  // ---------------------------------------------------------------- piece generation

  /** A queued piece: the k-th catalog shape, an id made of the shape id and a serial
      number, at the origin, active. */
  function MakePiece(k: nat, serial: nat): (p: GamePiece)
    requires k < |PieceShapes|
    ensures CopyOfShape(p, PieceShapes[k]) && p.id.serial == serial
  {
    var shape := PieceShapes[k];
    GamePiece(PieceId(shape.id, serial), shape.name, shape.blocks, shape.color, Position(0, 0), true)
  }

  /** The piece is an unmodified copy of the shape: its id names the shape, it has the
      shape's name, cells and colour, and it sits active at the origin. */
  predicate CopyOfShape(p: GamePiece, shape: PieceShape) {
    && p.id.shapeId == shape.id && p.name == shape.name
    && p.blocks == shape.blocks && p.color == shape.color
    && p.position == Position(0, 0) && p.isActive
  }

  /** The piece is an unmodified copy of some catalog shape. */
  predicate FromCatalog(p: GamePiece) {
    exists k :: 0 <= k < |PieceShapes| && CopyOfShape(p, PieceShapes[k])
  }

  predicate AllFromCatalog(pieces: seq<GamePiece>) {
    forall i :: 0 <= i < |pieces| ==> FromCatalog(pieces[i])
  }

  predicate ValidDraws(draws: seq<nat>) {
    forall i :: 0 <= i < |draws| ==> draws[i] < |PieceShapes|
  }

  /** The pieces made from the draws with serials first, first + 1, ... */
  function PieceSet(draws: seq<nat>, first: nat): seq<GamePiece>
    requires ValidDraws(draws)
  {
    if |draws| == 0 then []
    else PieceSet(draws[..|draws| - 1], first) + [MakePiece(draws[|draws| - 1], first + |draws| - 1)]
  }

  /** A drawn set has one piece per draw, each a catalog copy with serials ascending from
      first (so no two pieces share an id). */
  lemma {:induction false} PieceSetSpec(draws: seq<nat>, first: nat)
    requires ValidDraws(draws)
    ensures |PieceSet(draws, first)| == |draws|
    ensures forall i :: 0 <= i < |draws| ==>
      PieceSet(draws, first)[i] == MakePiece(draws[i], first + i) && FromCatalog(PieceSet(draws, first)[i])
  {
    if |draws| > 0 {
      PieceSetSpec(draws[..|draws| - 1], first);
      var last := |draws| - 1;
      assert PieceSet(draws, first)[last] == MakePiece(draws[last], first + last);
    }
  }

  /** The module's piece counter together with the two generating operations. Each draw
      is the catalog index the random source picked. */
  class PieceGenerator {
    var pieceCounter: nat

    constructor ()
      ensures pieceCounter == 0
    {
      pieceCounter := 0;
    }

    method GenerateRandomPiece(draw: nat) returns (piece: GamePiece)
      requires draw < |PieceShapes|
      modifies this
      ensures pieceCounter == old(pieceCounter) + 1
      ensures piece == MakePiece(draw, old(pieceCounter))
    {
      piece := MakePiece(draw, pieceCounter);
      pieceCounter := pieceCounter + 1;
    }

    method GetRandomPieceSet(draws: seq<nat>) returns (pieces: seq<GamePiece>)
      requires ValidDraws(draws)
      modifies this
      ensures pieceCounter == old(pieceCounter) + |draws|
      ensures pieces == PieceSet(draws, old(pieceCounter))
    {
      pieces := [];
      var i := 0;
      while i < |draws|
        invariant 0 <= i <= |draws|
        invariant pieceCounter == old(pieceCounter) + i
        invariant pieces == PieceSet(draws[..i], old(pieceCounter))
      {
        var piece := GenerateRandomPiece(draws[i]);
        assert draws[..i + 1][..i] == draws[..i];
        assert PieceSet(draws[..i + 1], old(pieceCounter)) == PieceSet(draws[..i], old(pieceCounter)) + [piece];
        pieces := pieces + [piece];
        i := i + 1;
      }
      assert draws[..i] == draws;
    }
  }
}
