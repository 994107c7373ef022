/**
 * The board logic of the game engine in js/main-page.js that computes without
 * changing state: the collision test, the kick search of a rotation, the
 * landing distance of a drop, and the boards that merging a piece and
 * clearing full lines produce.
 */
module Playfield {
  import opened Wrappers
  import opened Settings
  import opened Blocks

  /** A board cell: empty (null) or the type of the piece that filled it. */
  type Cell = Option<Tag>
  type Board = seq<seq<Cell>>

  /** The board has `Rows` rows of `Cols` cells. */
  predicate WellFormed(b: Board)
  {
    |b| == Rows && forall r :: 0 <= r < |b| ==> |b[r]| == Cols
  }

  /**
   * Board position (column c, row r) can take a piece cell: inside the side
   * walls, above the floor, and empty unless it is above the top of the board.
   */
  predicate Free(b: Board, c: int, r: int)
    requires WellFormed(b)
  {
    0 <= c < Cols && r < Rows && (r < 0 || b[r][c].None?)
  }

  /** Every occupied cell of `p`, shifted by (dx, dy), lands on a free position. */
  ghost predicate Fits(b: Board, p: Piece, dx: int, dy: int)
    requires WellFormed(b)
  {
    forall y, x :: Occ(p.shape, y, x) ==> Free(b, x + p.x + dx, y + p.y + dy)
  }

  /** The test applied to one shape cell, in the order of the source's checks. */
  function CellOk(b: Board, value: int, newX: int, newY: int): (r: bool)
    requires WellFormed(b)
    ensures r <==> (value != 0 ==> Free(b, newX, newY))
  {
    if value == 0 then true
    else if newX < 0 || newX >= Cols then false
    else if newY >= Rows then false
    else if newY < 0 then true
    else b[newY][newX] == None
  }

  /** The inner `every`: the cells of row y of the shape from column x on pass the test. */
  function RowFits(b: Board, p: Piece, dx: int, dy: int, y: int, x: nat): (r: bool)
    requires WellFormed(b) && 0 <= y < |p.shape|
    ensures r <==> forall x' :: x <= x' && Occ(p.shape, y, x') ==> Free(b, x' + p.x + dx, y + p.y + dy)
    decreases |p.shape[y]| - x
  {
    if x >= |p.shape[y]| then true
    else
      var here := CellOk(b, p.shape[y][x], x + p.x + dx, y + p.y + dy);
      assert here <==> (Occ(p.shape, y, x) ==> Free(b, x + p.x + dx, y + p.y + dy));
      here && RowFits(b, p, dx, dy, y, x + 1)
  }

  /** The outer `every`: the rows of the shape from row y on pass the test. */
  function ShapeFits(b: Board, p: Piece, dx: int, dy: int, y: nat): (r: bool)
    requires WellFormed(b)
    ensures r <==> forall y', x :: y <= y' && Occ(p.shape, y', x) ==> Free(b, x + p.x + dx, y' + p.y + dy)
    decreases |p.shape| - y
  {
    if y >= |p.shape| then true
    else
      var here := RowFits(b, p, dx, dy, y, 0);
      var rest := ShapeFits(b, p, dx, dy, y + 1);
      here && rest
  }

  /** isValidMove: the piece shifted by (dx, dy) collides with nothing. */
  function IsValidMove(b: Board, p: Piece, dx: int, dy: int): (r: bool)
    requires WellFormed(b)
    ensures r <==> Fits(b, p, dx, dy)
  {
    ShapeFits(b, p, dx, dy, 0)
  }

  /** The piece moved by (dx, dy). */
  function Moved(p: Piece, dx: int, dy: int): (q: Piece)
    ensures q.tag == p.tag && q.shape == p.shape
    ensures q.x - p.x == dx && q.y - p.y == dy
  {
    p.(x := p.x + dx, y := p.y + dy)
  }

  /** Testing a shifted piece is testing the piece moved by that shift, in place. */
  lemma FitsShift(b: Board, p: Piece, dx: int, dy: int)
    requires WellFormed(b)
    ensures Fits(b, p, dx, dy) <==> Fits(b, Moved(p, dx, dy), 0, 0)
  {
    var q := Moved(p, dx, dy);
    if Fits(b, p, dx, dy) {
      forall y, x | Occ(q.shape, y, x)
        ensures Free(b, x + q.x, y + q.y)
      {
        assert Free(b, x + p.x + dx, y + p.y + dy);
      }
    }
    if Fits(b, q, 0, 0) {
      forall y, x | Occ(p.shape, y, x)
        ensures Free(b, x + p.x + dx, y + p.y + dy)
      {
        assert Free(b, x + q.x + 0, y + q.y + 0);
      }
    }
  }

  /** A piece with an occupied cell that fits at offset k is above the floor there. */
  lemma FitsAboveFloor(b: Board, p: Piece, k: int)
    requires WellFormed(b) && HasCell(p.shape) && Fits(b, p, 0, k)
    ensures p.y + k < Rows
  {
    var y, x :| Occ(p.shape, y, x);
    assert Free(b, x + p.x + 0, y + p.y + k);
  }

  /** d is the distance the piece falls: every offset from 1 to d fits and d + 1 does not. */
  ghost predicate DropsTo(b: Board, p: Piece, d: int)
    requires WellFormed(b)
  {
    d >= 0 && (forall k :: 1 <= k <= d ==> Fits(b, p, 0, k)) && !Fits(b, p, 0, d + 1)
  }

  /** A piece has one drop distance only. */
  lemma DropsToUnique(b: Board, p: Piece, d: int, e: int)
    requires WellFormed(b) && DropsTo(b, p, d) && DropsTo(b, p, e)
    ensures d == e
  {
  }

  /** The landing search from offset k: keep going down while the next row fits. */
  function DropFrom(b: Board, p: Piece, k: nat): (d: nat)
    requires WellFormed(b) && HasCell(p.shape)
    requires k == 0 || Fits(b, p, 0, k)
    ensures d >= k && (forall j :: k < j <= d ==> Fits(b, p, 0, j)) && !Fits(b, p, 0, d + 1)
    decreases Rows - p.y - k
  {
    if IsValidMove(b, p, 0, k + 1) then
      FitsAboveFloor(b, p, k + 1);
      DropFrom(b, p, k + 1)
    else k
  }

  /** How far the piece falls when dropped straight down. */
  function DropDistance(b: Board, p: Piece): (d: nat)
    requires WellFormed(b) && HasCell(p.shape)
    ensures DropsTo(b, p, d)
  {
    DropFrom(b, p, 0)
  }

  /** The kicks tried after a rotation, in order: in place, right 1, left 1, right 2, left 2, up 1. */
  const Kicks: seq<(int, int)> := [(0, 0), (1, 0), (-1, 0), (2, 0), (-2, 0), (0, -1)]

  /** The first kick from index i on that the piece fits with, if any. */
  function FirstValidKick(b: Board, p: Piece, i: nat): (r: Option<nat>)
    requires WellFormed(b)
    ensures r.Some? ==> i <= r.value < |Kicks| && Fits(b, p, Kicks[r.value].0, Kicks[r.value].1)
    ensures r.Some? ==> forall j :: i <= j < r.value ==> !Fits(b, p, Kicks[j].0, Kicks[j].1)
    ensures r.None? ==> forall j :: i <= j < |Kicks| ==> !Fits(b, p, Kicks[j].0, Kicks[j].1)
    decreases |Kicks| - i
  {
    if i >= |Kicks| then None
    else if IsValidMove(b, p, Kicks[i].0, Kicks[i].1) then Some(i)
    else FirstValidKick(b, p, i + 1)
  }

  /**
   * The piece after a rotation attempt: turned clockwise and shifted by the
   * first kick it fits with, or unchanged when it fits with none. The result
   * is still a matrix with an occupied cell, and it fits whenever it changed.
   */
  function Rotated(b: Board, p: Piece): (r: Piece)
    requires WellFormed(b) && IsMatrix(p.shape)
    ensures r.tag == p.tag && IsMatrix(r.shape)
    ensures r == p || (r.shape == Cw(p.shape) && Fits(b, r, 0, 0))
  {
    var turned := p.(shape := Cw(p.shape));
    match FirstValidKick(b, turned, 0)
    case Some(k) =>
      FitsShift(b, turned, Kicks[k].0, Kicks[k].1);
      Moved(turned, Kicks[k].0, Kicks[k].1)
    case None => p
  }

  /** A piece that fits keeps fitting through a rotation attempt, and keeps an occupied cell. */
  lemma RotatedFits(b: Board, p: Piece)
    requires WellFormed(b) && IsMatrix(p.shape) && HasCell(p.shape) && Fits(b, p, 0, 0)
    ensures Fits(b, Rotated(b, p), 0, 0) && HasCell(Rotated(b, p).shape)
  {
    CwKeepsHasCell(p.shape);
  }

  /** Board position (r, c) lies under an occupied cell of the piece. */
  predicate Covers(p: Piece, r: int, c: int)
  {
    Occ(p.shape, r - p.y, c - p.x)
  }

  /** The cell after merging, when only the piece cells scanned before (cy, cx) count. */
  function MergeCell(cell: Cell, p: Piece, r: int, c: int, cy: int, cx: int): Cell
  {
    if cell.None? && Covers(p, r, c) && Before(r - p.y, c - p.x, cy, cx) then Some(p.tag) else cell
  }

  /** The board after merging the piece cells scanned before (cy, cx) into b. */
  function MergedBefore(b: Board, p: Piece, cy: int, cx: int): (m: Board)
    requires WellFormed(b)
    ensures WellFormed(m)
  {
    seq(Rows, r requires 0 <= r < Rows => seq(Cols, c requires 0 <= c < Cols => MergeCell(b[r][c], p, r, c, cy, cx)))
  }

  /**
   * The board after a lock: each empty cell under an occupied cell of the piece
   * takes the piece's type, and every other cell keeps its content.
   */
  function Merged(b: Board, p: Piece): (m: Board)
    requires WellFormed(b)
    ensures WellFormed(m)
    ensures forall r, c :: 0 <= r < Rows && 0 <= c < Cols ==>
      m[r][c] == (if b[r][c].None? && Covers(p, r, c) then Some(p.tag) else b[r][c])
  {
    seq(Rows, r requires 0 <= r < Rows => seq(Cols, c requires 0 <= c < Cols =>
      if b[r][c].None? && Covers(p, r, c) then Some(p.tag) else b[r][c]))
  }

  /** Nothing is merged before the scan starts. */
  lemma MergedBeforeStart(b: Board, p: Piece)
    requires WellFormed(b)
    ensures MergedBefore(b, p, 0, 0) == b
  {
    var m := MergedBefore(b, p, 0, 0);
    forall r | 0 <= r < Rows
      ensures m[r] == b[r]
    {
    }
  }

  /** Once every shape row is scanned, the partial merge is the whole merge. */
  lemma MergedBeforeEnd(b: Board, p: Piece)
    requires WellFormed(b)
    ensures MergedBefore(b, p, |p.shape|, 0) == Merged(b, p)
  {
    var m, n := MergedBefore(b, p, |p.shape|, 0), Merged(b, p);
    forall r | 0 <= r < Rows
      ensures m[r] == n[r]
    {
    }
  }

  /** Having scanned all of row y is having scanned everything before row y + 1. */
  lemma MergedBeforeRowDone(b: Board, p: Piece, y: int)
    requires WellFormed(b) && 0 <= y < |p.shape|
    ensures MergedBefore(b, p, y, |p.shape[y]|) == MergedBefore(b, p, y + 1, 0)
  {
    var m, n := MergedBefore(b, p, y, |p.shape[y]|), MergedBefore(b, p, y + 1, 0);
    forall r | 0 <= r < Rows
      ensures m[r] == n[r]
    {
    }
  }

  /**
   * One step of the merge scan at shape cell (y, x): an occupied cell whose
   * board position is on the board and still empty is written; any other cell
   * leaves the board as it is.
   */
  lemma MergeStep(b: Board, p: Piece, cur: Board, y: int, x: int)
    requires WellFormed(b) && cur == MergedBefore(b, p, y, x)
    requires 0 <= y < |p.shape| && 0 <= x < |p.shape[y]|
    ensures
      var boardY := y + p.y;
      var boardX := x + p.x;
      if p.shape[y][x] != 0 && 0 <= boardY < Rows && 0 <= boardX < Cols && cur[boardY][boardX] == None then
        MergedBefore(b, p, y, x + 1) == cur[boardY := cur[boardY][boardX := Some(p.tag)]]
      else
        MergedBefore(b, p, y, x + 1) == cur
  {
    var boardY, boardX := y + p.y, x + p.x;
    var next := MergedBefore(b, p, y, x + 1);
    if p.shape[y][x] != 0 && 0 <= boardY < Rows && 0 <= boardX < Cols && cur[boardY][boardX] == None {
      var w := cur[boardY := cur[boardY][boardX := Some(p.tag)]];
      forall r | 0 <= r < Rows
        ensures next[r] == w[r]
      {
        if r == boardY {
          forall c | 0 <= c < Cols
            ensures next[r][c] == w[r][c]
          {
          }
        }
      }
    } else {
      forall r | 0 <= r < Rows
        ensures next[r] == cur[r]
      {
        if r == boardY {
          forall c | 0 <= c < Cols
            ensures next[r][c] == cur[r][c]
          {
          }
        }
      }
    }
  }

  /** A piece that fits fills exactly the board cells under its occupied cells and changes nothing else. */
  lemma MergeFillsPiece(b: Board, p: Piece)
    requires WellFormed(b) && Fits(b, p, 0, 0)
    ensures forall r, c :: 0 <= r < Rows && 0 <= c < Cols ==>
      (Merged(b, p)[r][c] != b[r][c] <==> Covers(p, r, c)) &&
      (Covers(p, r, c) ==> Merged(b, p)[r][c] == Some(p.tag))
  {
    forall r, c | 0 <= r < Rows && 0 <= c < Cols && Covers(p, r, c)
      ensures b[r][c].None?
    {
      assert Free(b, (c - p.x) + p.x + 0, (r - p.y) + p.y + 0);
    }
  }

  /** Every cell of the row is filled. */
  predicate IsFull(row: seq<Cell>)
  {
    forall c :: 0 <= c < |row| ==> row[c].Some?
  }

  /** The rows of b that are not full, in their order. */
  function Keep(b: Board): (k: Board)
    ensures |k| <= |b|
  {
    if b == [] then [] else (if IsFull(b[0]) then [] else [b[0]]) + Keep(b[1..])
  }

  /** The number of full rows of b. */
  function FullCount(b: Board): (n: nat)
    ensures n <= |b|
  {
    if b == [] then 0 else (if IsFull(b[0]) then 1 else 0) + FullCount(b[1..])
  }

  function EmptyRow(): (row: seq<Cell>)
    ensures |row| == Cols && forall c :: 0 <= c < |row| ==> row[c] == None
  {
    seq(Cols, _ => None)
  }

  function EmptyRows(n: nat): (e: Board)
    ensures |e| == n && forall r :: 0 <= r < n ==> e[r] == EmptyRow()
  {
    seq(n, _ => EmptyRow())
  }

  /**
   * The board after clearing: as many empty rows as there were full ones, above
   * the rows that were not full. The height is kept.
   */
  function AfterClear(b: Board): (a: Board)
    ensures |a| == |b|
    ensures forall r :: 0 <= r < FullCount(b) ==> a[r] == EmptyRow()
    ensures forall r :: FullCount(b) <= r < |a| ==> !IsFull(a[r]) && a[r] in b
  {
    KeepAndFullCount(b);
    KeepIsNonFullRows(b);
    var a := EmptyRows(FullCount(b)) + Keep(b);
    assert forall r :: FullCount(b) <= r < |a| ==> a[r] == Keep(b)[r - FullCount(b)];
    a
  }

  /** Clearing keeps the number of rows: the full rows and the kept rows make up the board. */
  lemma {:induction false} KeepAndFullCount(b: Board)
    ensures |Keep(b)| + FullCount(b) == |b|
  {
    if b != [] {
      KeepAndFullCount(b[1..]);
    }
  }

  /** The kept rows are exactly the rows of b that are not full, each one taken from b. */
  lemma {:induction false} KeepIsNonFullRows(b: Board)
    ensures forall i :: 0 <= i < |Keep(b)| ==> !IsFull(Keep(b)[i]) && Keep(b)[i] in b
    ensures forall i :: 0 <= i < |b| && !IsFull(b[i]) ==> b[i] in Keep(b)
  {
    if b != [] {
      KeepIsNonFullRows(b[1..]);
      forall i | 0 <= i < |b| && !IsFull(b[i])
        ensures b[i] in Keep(b)
      {
        if i > 0 {
          assert b[i] == b[1..][i - 1];
        }
      }
    }
  }

  /** The indices of the full rows of b. */
  ghost function FullRows(b: Board): set<int>
  {
    set i | 0 <= i < |b| && IsFull(b[i])
  }

  /** Counting full rows distributes over concatenation. */
  lemma {:induction false} FullCountAppend(a: Board, b: Board)
    ensures FullCount(a + b) == FullCount(a) + FullCount(b)
  {
    if a != [] {
      FullCountAppend(a[1..], b);
      assert (a + b)[1..] == a[1..] + b;
    } else {
      assert a + b == b;
    }
  }

  /** The full rows of a board are those of all its rows but the last, plus the last if it is full. */
  lemma FullRowsSnoc(b: Board)
    requires b != []
    ensures FullRows(b) == FullRows(b[..|b| - 1]) + (if IsFull(b[|b| - 1]) then {|b| - 1} else {})
  {
    var front := b[..|b| - 1];
    forall i | 0 <= i < |front|
      ensures b[i] == front[i]
    {
    }
  }

  /** The full-row count is the number of indices of full rows. */
  lemma {:induction false} FullCountIsSize(b: Board)
    ensures FullCount(b) == |FullRows(b)|
    decreases |b|
  {
    if b == [] {
      assert FullRows(b) == {};
    } else {
      var n := |b| - 1;
      var front := b[..n];
      FullCountIsSize(front);
      FullCountAppend(front, [b[n]]);
      assert b == front + [b[n]];
      FullRowsSnoc(b);
    }
  }

  /** Clearing a well-formed board gives a well-formed board with no full row left. */
  lemma AfterClearWellFormed(b: Board)
    requires WellFormed(b)
    ensures WellFormed(AfterClear(b))
    ensures forall r :: 0 <= r < Rows ==> !IsFull(AfterClear(b)[r])
  {
    KeepAndFullCount(b);
    KeepIsNonFullRows(b);
    var a, n := AfterClear(b), FullCount(b);
    forall r | 0 <= r < Rows
      ensures |a[r]| == Cols && !IsFull(a[r])
    {
      if r < n {
        assert a[r] == EmptyRow();
        assert a[r][0] == None;
      } else {
        assert a[r] == Keep(b)[r - n];
      }
    }
  }

  /** A board without full rows is left as it is. */
  lemma {:induction false} AfterClearNoFullRows(b: Board)
    requires forall r :: 0 <= r < |b| ==> !IsFull(b[r])
    ensures FullCount(b) == 0 && Keep(b) == b
    ensures AfterClear(b) == b
  {
    if b != [] {
      assert !IsFull(b[0]);
      forall r | 0 <= r < |b[1..]|
        ensures !IsFull(b[1..][r])
      {
        assert b[1..][r] == b[r + 1];
      }
      AfterClearNoFullRows(b[1..]);
      assert b == [b[0]] + b[1..];
    }
  }

  /** Clearing twice is clearing once. */
  lemma AfterClearIdempotent(b: Board)
    requires WellFormed(b)
    ensures AfterClear(AfterClear(b)) == AfterClear(b)
  {
    AfterClearWellFormed(b);
    AfterClearNoFullRows(AfterClear(b));
  }

  /**
   * The state of the bottom-up clearing scan over the original board b0 when
   * the top j original rows are still to be examined: `cleared` empty rows on
   * top, then those j rows as they were, then the kept rows of the rest.
   */
  ghost predicate ClearScan(b0: Board, j: int, cleared: int, board: Board)
  {
    && 0 <= j <= |b0|
    && cleared == FullCount(b0[j..])
    && board == EmptyRows(cleared) + b0[..j] + Keep(b0[j..])
  }

  /** The scan keeps the number of rows. */
  lemma ClearScanLength(b0: Board, j: int, cleared: int, board: Board)
    requires ClearScan(b0, j, cleared, board)
    ensures |board| == |b0|
  {
    KeepAndFullCount(b0[j..]);
  }

  /** Taking the element after `top + mid` out of a sequence and putting `e` in front. */
  lemma SpliceOut<T>(top: seq<T>, mid: seq<T>, x: T, rest: seq<T>, e: T)
    ensures var s := top + (mid + [x]) + rest; var y := |top| + |mid|;
      && s[y] == x
      && [e] + (s[..y] + s[y + 1..]) == [e] + top + mid + rest
  {
    var s := top + (mid + [x]) + rest;
    var y := |top| + |mid|;
    assert s[..y] == top + mid;
    assert s[y + 1..] == rest;
  }

  /** One more empty row on top. */
  lemma EmptyRowsCons(n: nat)
    ensures [EmptyRow()] + EmptyRows(n) == EmptyRows(n + 1)
  {
  }

  /** Examining original row j - 1 when it is full: it is spliced out and an empty row goes on top. */
  lemma ClearScanFull(b0: Board, j: int, cleared: int, board: Board, y: int)
    requires ClearScan(b0, j, cleared, board) && j > 0 && y == cleared + j - 1
    ensures board[y] == b0[j - 1]
    ensures IsFull(b0[j - 1]) ==> ClearScan(b0, j - 1, cleared + 1, [EmptyRow()] + (board[..y] + board[y + 1..]))
  {
    var rest := b0[j - 1..];
    assert rest[1..] == b0[j..];
    assert b0[..j] == b0[..j - 1] + [b0[j - 1]];
    SpliceOut(EmptyRows(cleared), b0[..j - 1], b0[j - 1], Keep(b0[j..]), EmptyRow());
    EmptyRowsCons(cleared);
  }

  /** Examining original row j - 1 when it is not full: it stays and joins the kept rows. */
  lemma ClearScanKeep(b0: Board, j: int, cleared: int, board: Board)
    requires ClearScan(b0, j, cleared, board) && j > 0 && !IsFull(b0[j - 1])
    ensures ClearScan(b0, j - 1, cleared, board)
  {
    var rest := b0[j - 1..];
    assert rest[1..] == b0[j..];
    assert b0[..j] == b0[..j - 1] + [b0[j - 1]];
  }

  /** Once every original row is examined, the rows still ahead of the scan are empty ones. */
  lemma ClearScanDone(b0: Board, cleared: int, board: Board, y: int)
    requires ClearScan(b0, 0, cleared, board) && 0 <= y < cleared
    ensures !IsFull(board[y])
  {
    assert board[y] == EmptyRow();
    assert board[y][0] == None;
  }

  /** The finished scan is the cleared board. */
  lemma ClearScanResult(b0: Board, cleared: int, board: Board)
    requires ClearScan(b0, 0, cleared, board)
    ensures cleared == FullCount(b0) && board == AfterClear(b0)
  {
    assert b0[0..] == b0;
    assert b0[..0] == [];
  }

  /** The piece moved to the spawn position: horizontally centred (rounding left) in the top row. */
  function Spawned(p: Piece): (q: Piece)
    requires |p.shape| >= 1
    ensures q.tag == p.tag && q.shape == p.shape && q.y == 0
    ensures 2 * q.x <= Cols - |p.shape[0]| < 2 * q.x + 2
  {
    p.(x := (Cols - |p.shape[0]|) / 2, y := 0)
  }

  /** A piece of any type, freshly built, fits on the empty board. */
  lemma NewPieceFitsEmptyBoard(t: Tag)
    ensures WellFormed(CreateEmptyBoard<Tag>())
    ensures Fits(CreateEmptyBoard<Tag>(), BuildPiece(t, Cols), 0, 0)
  {
    var b, p := CreateEmptyBoard<Tag>(), BuildPiece(t, Cols);
    forall y, x | Occ(p.shape, y, x)
      ensures Free(b, x + p.x + 0, y + p.y + 0)
    {
    }
  }
}
