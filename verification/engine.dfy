/**
 * The game engine (the TetrisGame class of js/main-page.js): the board, the
 * active and next pieces, the drop counter and the active/paused flags, and
 * the moves, drops, rotation, locking, line clearing, spawning and game over
 * that change them. Rendering, the page's buttons and modal, and the
 * animation-frame scheduling are not modelled; the time since the last frame
 * and the date of a finished game are parameters.
 */
module Engine {
  import opened Wrappers
  import opened Settings
  import opened Blocks
  import opened Stats
  import opened PreviousScores
  import opened Playfield

  /** A piece the engine can hold: a rectangular shape with at least one occupied cell. */
  ghost predicate Playable(p: Option<Piece>)
  {
    p.Some? ==> IsMatrix(p.value.shape) && HasCell(p.value.shape)
  }

  /** Every piece the generator hands out is playable. */
  lemma GeneratedPlayable(p: Piece)
    requires p == BuildPiece(p.tag, Cols)
    ensures Playable(Some(p))
  {
    CatalogueShapesAreMatrices(p.tag);
  }

  /**
   * The counting loop of hardDrop: starting from 0, add one row while the
   * piece fits one row further down. The count reached is the drop distance.
   */
  method MeasureDrop(b: Board, p: Piece) returns (distance: nat)
    requires WellFormed(b) && HasCell(p.shape)
    ensures distance == DropDistance(b, p)
  {
    distance := 0;
    while IsValidMove(b, p, 0, distance + 1)
      invariant forall k :: 1 <= k <= distance ==> Fits(b, p, 0, k)
      invariant distance > 0 ==> p.y + distance < Rows
      decreases Rows - p.y - distance
    {
      FitsAboveFloor(b, p, distance + 1);
      distance := distance + 1;
    }
    DropsToUnique(b, p, distance, DropDistance(b, p));
  }

  /**
   * The cell loop of mergePieceIntoBoard, over the rows and then the columns
   * of the piece's shape: an occupied shape cell over an empty board cell at or
   * below the top row writes the piece's type there.
   */
  method MergeCells(b: Board, piece: Piece) returns (cells: Board)
    requires WellFormed(b)
    ensures cells == Merged(b, piece)
  {
    cells := b;
    MergedBeforeStart(b, piece);
    for y := 0 to |piece.shape|
      invariant cells == MergedBefore(b, piece, y, 0)
    {
      for x := 0 to |piece.shape[y]|
        invariant cells == MergedBefore(b, piece, y, x)
      {
        MergeStep(b, piece, cells, y, x);
        if piece.shape[y][x] != 0 {
          var boardX := x + piece.x;
          var boardY := y + piece.y;
          if 0 <= boardY {
            if boardY < |cells| && 0 <= boardX < Cols && cells[boardY][boardX] == None {
              cells := cells[boardY := cells[boardY][boardX := Some(piece.tag)]];
            }
          }
        }
      }
      MergedBeforeRowDone(b, piece, y);
    }
    MergedBeforeEnd(b, piece);
  }

  /**
   * The row loop of clearCompletedLines: scan the rows from the bottom up; a
   * full row is spliced out, an empty row is put on top, and the same row
   * index is examined again.
   */
  method ClearRows(b: Board) returns (rows: Board, cleared: nat)
    requires WellFormed(b)
    ensures cleared == FullCount(b) && rows == AfterClear(b)
    ensures WellFormed(rows)
  {
    ghost var j: int := Rows;
    rows := b;
    cleared := 0;
    var y: int := Rows - 1;
    assert b[..Rows] == b && b[Rows..] == [];
    while y >= 0
      invariant -1 <= y < Rows
      invariant ClearScan(b, j, cleared, rows)
      invariant j > 0 ==> y + 1 == cleared + j
      invariant j == 0 ==> y < cleared
      decreases y + 1 + j
    {
      ClearScanLength(b, j, cleared, rows);
      if j == 0 {
        ClearScanDone(b, cleared, rows, y);
      } else {
        ClearScanFull(b, j, cleared, rows, y);
      }
      if IsFull(rows[y]) {
        rows := rows[..y] + rows[y + 1..];
        rows := [EmptyRow()] + rows;
        cleared := cleared + 1;
        j := j - 1;
        y := y + 1;
      } else if j > 0 {
        ClearScanKeep(b, j, cleared, rows);
        j := j - 1;
      }
      y := y - 1;
    }
    ClearScanResult(b, cleared, rows);
    AfterClearWellFormed(b);
  }

  /**
   * The rotation of rotateActivePiece on a piece value: keep a copy of the
   * shape, turn it clockwise, try the kicks in order and stop at the first one
   * that fits; when none fits, put the copied shape back.
   */
  method RotatePiece(b: Board, original: Piece) returns (r: Piece)
    requires WellFormed(b) && IsMatrix(original.shape)
    ensures r == Rotated(b, original)
  {
    var originalShape := CloneShape(original.shape);
    var rotated := RotateClockwise(original.shape);
    var turned := original.(shape := rotated);
    for i := 0 to |Kicks|
      invariant forall j :: 0 <= j < i ==> !Fits(b, turned, Kicks[j].0, Kicks[j].1)
    {
      var kick := Kicks[i];
      if IsValidMove(b, turned, kick.0, kick.1) {
        assert FirstValidKick(b, turned, 0) == Some(i);
        return Moved(turned, kick.0, kick.1);
      }
    }
    return original.(shape := originalShape);
  }

  /**
   * A draw of type `t` took queue `q0` to `q`: the last queued type is popped,
   * or, from an empty queue, a fresh bag is shuffled and one of its types popped.
   */
  ghost predicate DrawnFrom(q0: seq<Tag>, q: seq<Tag>, t: Tag)
  {
    && (q0 != [] ==> t == q0[|q0| - 1] && q == q0[..|q0| - 1])
    && (q0 == [] ==> |q| == 6 && multiset(q) + multiset{t} == FullBag())
  }

  class TetrisGame {
    const generator: TetrominoGenerator
    const stats: GameStats
    const history: ScoreHistory
    var board: Board
    var activePiece: Option<Piece>
    var nextPiece: Option<Piece>
    var dropCounter: int
    var active: bool
    var paused: bool

    /** The parts are consistent; while a game runs there is an active and a next piece. */
    ghost predicate Inv()
      reads this, generator, stats, history
    {
      && generator.cols == Cols
      && stats.Valid()
      && history.Valid()
      && WellFormed(board)
      && Playable(activePiece) && Playable(nextPiece)
      && (active ==> activePiece.Some? && nextPiece.Some?)
    }

    /** Between operations, the active piece of a running game never overlaps the walls, the floor or the stack. */
    ghost predicate Valid()
      reads this, generator, stats, history
    {
      Inv() && (active ==> IsValidMove(board, activePiece.value, 0, 0))
    }

    /**
     * isInteractionAllowed: a game runs, it is not paused, and there is a piece
     * to act on. A finished or paused game allows no move, drop or rotation.
     */
    predicate IsInteractionAllowed(): (r: bool)
      reads this
      ensures r ==> activePiece.Some?
      ensures !active || paused ==> !r
    {
      active && !paused && activePiece.Some?
    }

    /**
     * Nothing has changed: board, pieces, drop counter, running flag, every
     * counter of the statistics, the score history and the generator's queue.
     */
    twostate predicate Untouched()
      reads this, stats, history, generator
    {
      && board == old(board) && activePiece == old(activePiece) && nextPiece == old(nextPiece)
      && dropCounter == old(dropCounter) && active == old(active)
      && stats.Snapshot() == old(stats.Snapshot())
      && history.history == old(history.history) && generator.queue == old(generator.queue)
    }

    /** The level, the high score and the best level have not fallen. */
    twostate predicate NeverLowers()
      reads stats
    {
      old(stats.level) <= stats.level && old(stats.highScore) <= stats.highScore && old(stats.highLevel) <= stats.highLevel
    }

    /**
     * The state after locking piece `p` on board `b0`, given the next piece
     * `next0`, the running flag `running0` and the counters `t0` before the lock:
     * the merged board with its full rows cleared; one more piece, the cleared
     * lines and their points counted; the drop counter restarted; the old next
     * piece spawned and a fresh catalogue piece drawn; and the game over exactly
     * when the spawned piece does not fit, which puts the final score (dated
     * `now`) at the head of the score history `h0`; otherwise the history stays.
     */
    ghost predicate LockedFrom(b0: Board, p: Piece, next0: Option<Piece>, running0: bool, t0: Tally, h0: seq<Entry>, now: string)
      requires WellFormed(b0) && Playable(next0)
      reads this, stats, history
    {
      var merged := Merged(b0, p);
      && board == AfterClear(merged)
      && stats.Snapshot() == LinesCleared(PiecePlaced(t0), FullCount(merged))
      && dropCounter == 0
      && activePiece == (if next0.Some? then Some(Spawned(next0.value)) else None)
      && nextPiece.Some? && nextPiece.value == BuildPiece(nextPiece.value.tag, Cols)
      && WellFormed(board)
      && var over := next0.Some? && !IsValidMove(board, activePiece.value, 0, 0);
      && (active <==> running0 && !over)
      && (over ==> |history.history| == Min(|h0| + 1, MaxScoreHistory)
                   && history.history[0] == Entry(stats.score, now)
                   && history.history[1..] <= h0)
      && (!over ==> history.history == h0)
    }

    constructor (generator: TetrominoGenerator, stats: GameStats, history: ScoreHistory)
      requires generator.cols == Cols && stats.Valid() && history.Valid()
      ensures Valid()
      ensures this.generator == generator && this.stats == stats && this.history == history
      ensures board == CreateEmptyBoard() && activePiece == None && nextPiece == None
      ensures dropCounter == 0 && !active && !paused
    {
      this.generator := generator;
      this.stats := stats;
      this.history := history;
      board := CreateEmptyBoard();
      activePiece := None;
      nextPiece := None;
      dropCounter := 0;
      active := false;
      paused := false;
    }

    /**
     * One draw from the generator: the catalogue piece of the last queued type
     * (or of a fresh bag when the queue is empty), playable and fitting an empty board.
     */
    method Draw() returns (p: Piece)
      requires generator.cols == Cols
      modifies generator
      ensures p == BuildPiece(p.tag, Cols)
      ensures Playable(Some(p)) && Fits(CreateEmptyBoard(), p, 0, 0)
      ensures DrawnFrom(old(generator.queue), generator.queue, p.tag)
    {
      p := generator.Next();
      GeneratedPlayable(p);
      NewPieceFitsEmptyBoard(p.tag);
    }

    /** The two draws of a new game: the active piece, then the next one. */
    method DrawTwo() returns (first: Piece, second: Piece)
      requires generator.cols == Cols
      modifies generator
      ensures Playable(Some(first)) && Fits(CreateEmptyBoard(), first, 0, 0) && Playable(Some(second))
    {
      first := Draw();
      second := Draw();
    }

    /**
     * startNewGame: an empty board, reset game statistics, two pieces drawn
     * from the generator, and a running, unpaused game. The first piece fits.
     */
    method StartNewGame()
      requires Valid()
      modifies this, generator, stats
      ensures Valid()
      ensures board == CreateEmptyBoard() && dropCounter == 0 && active && !paused
      ensures activePiece.Some? && nextPiece.Some?
      ensures stats.Snapshot() == NewGame(old(stats.Snapshot()))
    {
      board := CreateEmptyBoard();
      stats.ResetForNewGame();
      var first, second := DrawTwo();
      activePiece := Some(first);
      nextPiece := Some(second);
      dropCounter := 0;
      active := true;
      paused := false;
    }

    /** togglePause: flips the pause flag of a running game; without one it does nothing. */
    method TogglePause()
      requires Valid()
      modifies this
      ensures Valid()
      ensures paused == (if old(active) then !old(paused) else old(paused))
      ensures board == old(board) && activePiece == old(activePiece) && nextPiece == old(nextPiece)
      ensures dropCounter == old(dropCounter) && active == old(active)
    {
      if !active {
        return;
      }
      paused := !paused;
    }

    /**
     * tryMove: shift the active piece by (dx, dy) when it fits there and report
     * whether it moved; otherwise nothing changes.
     */
    method TryMove(dx: int, dy: int) returns (moved: bool)
      requires Valid()
      modifies this
      ensures Valid()
      ensures moved <==> old(activePiece).Some? && IsValidMove(board, old(activePiece).value, dx, dy)
      ensures moved ==> activePiece == Some(Moved(old(activePiece).value, dx, dy))
      ensures !moved ==> activePiece == old(activePiece)
      ensures board == old(board) && nextPiece == old(nextPiece)
      ensures dropCounter == old(dropCounter) && active == old(active) && paused == old(paused)
    {
      if activePiece.None? {
        return false;
      }
      if !IsValidMove(board, activePiece.value, dx, dy) {
        return false;
      }
      FitsShift(board, activePiece.value, dx, dy);
      activePiece := Some(Moved(activePiece.value, dx, dy));
      return true;
    }

    /** moveHorizontal: when interaction is allowed, try to shift the piece sideways; otherwise nothing changes. */
    method MoveHorizontal(direction: int)
      requires Valid()
      modifies this
      ensures Valid()
      ensures !old(IsInteractionAllowed()) ==> activePiece == old(activePiece)
      ensures old(IsInteractionAllowed()) && IsValidMove(board, old(activePiece).value, direction, 0) ==>
        activePiece == Some(Moved(old(activePiece).value, direction, 0))
      ensures old(IsInteractionAllowed()) && !IsValidMove(board, old(activePiece).value, direction, 0) ==>
        activePiece == old(activePiece)
      ensures board == old(board) && nextPiece == old(nextPiece)
      ensures dropCounter == old(dropCounter) && active == old(active) && paused == old(paused)
    {
      if !IsInteractionAllowed() {
        return;
      }
      var ignored := TryMove(direction, 0);
    }

    /** mergePieceIntoBoard: every empty board cell under an occupied cell of the piece takes the piece's type. */
    method MergePieceIntoBoard(piece: Piece)
      requires WellFormed(board)
      modifies this
      ensures board == Merged(old(board), piece)
      ensures activePiece == old(activePiece) && nextPiece == old(nextPiece)
      ensures dropCounter == old(dropCounter) && active == old(active) && paused == old(paused)
    {
      board := MergeCells(board, piece);
    }

    /**
     * clearCompletedLines: every full row is removed, as many empty rows are
     * put on top, and the number of rows removed is returned.
     */
    method ClearCompletedLines() returns (cleared: int)
      requires WellFormed(board)
      modifies this
      ensures cleared == FullCount(old(board)) && board == AfterClear(old(board))
      ensures WellFormed(board)
      ensures activePiece == old(activePiece) && nextPiece == old(nextPiece)
      ensures dropCounter == old(dropCounter) && active == old(active) && paused == old(paused)
    {
      board, cleared := ClearRows(board);
    }

    /** triggerGameOver: the game stops and its final score goes to the front of the score history. */
    method TriggerGameOver(now: string)
      requires history.Valid()
      modifies this, history
      ensures history.Valid()
      ensures !active
      ensures |history.history| == Min(|old(history.history)| + 1, MaxScoreHistory)
      ensures history.history[0] == Entry(stats.score, now)
      ensures history.history[1..] <= old(history.history)
      ensures board == old(board) && activePiece == old(activePiece) && nextPiece == old(nextPiece)
      ensures dropCounter == old(dropCounter) && paused == old(paused)
    {
      active := false;
      var finalScore := stats.score;
      history.Add(finalScore, now);
    }

    /**
     * spawnNextPiece: the next piece becomes the active piece at the spawn
     * position and a fresh next piece is drawn from the generator. The game is over exactly when
     * the spawned piece does not fit.
     */
    method SpawnNextPiece(now: string)
      requires Inv()
      modifies this, generator, history
      ensures Valid()
      ensures activePiece == (if old(nextPiece).Some? then Some(Spawned(old(nextPiece).value)) else None)
      ensures nextPiece.Some? && nextPiece.value == BuildPiece(nextPiece.value.tag, Cols)
      ensures var over := old(nextPiece).Some? && !IsValidMove(board, activePiece.value, 0, 0);
        && active == (old(active) && !over)
        && (over ==> |history.history| == Min(|old(history.history)| + 1, MaxScoreHistory)
                     && history.history[0] == Entry(stats.score, now)
                     && history.history[1..] <= old(history.history))
        && (!over ==> history.history == old(history.history))
      ensures board == old(board) && dropCounter == old(dropCounter) && paused == old(paused)
    {
      activePiece := nextPiece;
      var drawn := Draw();
      nextPiece := Some(drawn);
      if activePiece.None? {
        return;
      }
      activePiece := Some(Spawned(activePiece.value));
      if !IsValidMove(board, activePiece.value, 0, 0) {
        TriggerGameOver(now);
      }
    }

    /**
     * lockPiece: merge the active piece into the board, count it, clear full
     * rows and score them, reset the drop counter and spawn the next piece.
     * Without an active piece nothing happens.
     */
    method LockPiece(now: string)
      requires Valid()
      modifies this, generator, stats, history
      ensures Valid()
      ensures old(activePiece).None? ==> Untouched()
      ensures old(activePiece).Some? ==>
        LockedFrom(old(board), old(activePiece).value, old(nextPiece), old(active), old(stats.Snapshot()), old(history.history), now)
      ensures NeverLowers()
      ensures paused == old(paused)
    {
      if activePiece.None? {
        return;
      }
      MergePieceIntoBoard(activePiece.value);
      stats.RecordPiecePlaced();
      var cleared := ClearCompletedLines();
      if cleared > 0 {
        stats.RecordLinesCleared(cleared);
      }
      dropCounter := 0;
      SpawnNextPiece(now);
      LockKeepsOrder(old(stats.Snapshot()), cleared);
    }

    /**
     * softDrop: move the active piece down one row when it fits there (scoring
     * one point for a manual drop), and otherwise lock it. It never does both.
     */
    method SoftDrop(manual: bool, now: string) returns (moved: bool)
      requires Valid()
      modifies this, generator, stats, history
      ensures Valid()
      ensures moved <==> old(activePiece).Some? && IsValidMove(old(board), old(activePiece).value, 0, 1)
      ensures moved ==>
        && activePiece == Some(Moved(old(activePiece).value, 0, 1))
        && board == old(board) && nextPiece == old(nextPiece) && active == old(active) && dropCounter == old(dropCounter)
        && history.history == old(history.history) && generator.queue == old(generator.queue)
        && stats.Snapshot() == (if manual then Scored(old(stats.Snapshot()), 1) else old(stats.Snapshot()))
      ensures !moved && old(activePiece).None? ==> Untouched()
      ensures !moved && old(activePiece).Some? ==>
        LockedFrom(old(board), old(activePiece).value, old(nextPiece), old(active), old(stats.Snapshot()), old(history.history), now)
      ensures NeverLowers()
      ensures paused == old(paused)
    {
      var fell := TryMove(0, 1);
      if fell {
        if manual {
          stats.AddScore(1);
        }
        return true;
      }
      LockPiece(now);
      return false;
    }

    /** softDropManual: when interaction is allowed, a soft drop that scores; otherwise nothing changes. */
    method SoftDropManual(now: string)
      requires Valid()
      modifies this, generator, stats, history
      ensures Valid()
      ensures !old(IsInteractionAllowed()) ==> Untouched()
      ensures old(IsInteractionAllowed()) && IsValidMove(old(board), old(activePiece).value, 0, 1) ==>
        && activePiece == Some(Moved(old(activePiece).value, 0, 1))
        && board == old(board) && nextPiece == old(nextPiece) && active == old(active) && dropCounter == old(dropCounter)
        && history.history == old(history.history) && generator.queue == old(generator.queue)
        && stats.Snapshot() == Scored(old(stats.Snapshot()), 1)
      ensures old(IsInteractionAllowed()) && !IsValidMove(old(board), old(activePiece).value, 0, 1) ==>
        LockedFrom(old(board), old(activePiece).value, old(nextPiece), old(active), old(stats.Snapshot()), old(history.history), now)
      ensures NeverLowers()
      ensures paused == old(paused)
    {
      if !IsInteractionAllowed() {
        return;
      }
      var ignored := SoftDrop(true, now);
    }

    /**
     * The fall of hardDrop, before the lock: the active piece moves down by its
     * drop distance, and a positive distance is scored as a bonus.
     */
    method FallToFloor()
      requires Valid() && IsInteractionAllowed()
      modifies this, stats
      ensures Valid() && IsInteractionAllowed()
      ensures var p := old(activePiece).value;
        var d := DropDistance(old(board), p);
        && activePiece == Some(Moved(p, 0, d))
        && stats.Snapshot() == BonusScored(old(stats.Snapshot()), d)
      ensures board == old(board) && nextPiece == old(nextPiece) && dropCounter == old(dropCounter)
      ensures active == old(active) && paused == old(paused)
    {
      var p := activePiece.value;
      var distance := MeasureDrop(board, p);
      if distance > 0 {
        FitsShift(board, p, 0, distance);
        activePiece := Some(Moved(p, 0, distance));
        stats.AddHardDropBonus(distance);
      }
    }

    /**
     * hardDrop: when interaction is allowed, the piece falls as far as it fits,
     * a positive fall is scored as a bonus, and the piece is locked. It lands
     * where the ghost piece shows.
     */
    method HardDrop(now: string)
      requires Valid()
      modifies this, generator, stats, history
      ensures Valid()
      ensures !old(IsInteractionAllowed()) ==> Untouched()
      ensures old(IsInteractionAllowed()) ==>
        var p := old(activePiece).value;
        var d := DropDistance(old(board), p);
        LockedFrom(old(board), Moved(p, 0, d), old(nextPiece), old(active), BonusScored(old(stats.Snapshot()), d), old(history.history), now)
      ensures NeverLowers()
      ensures paused == old(paused)
    {
      if !IsInteractionAllowed() {
        return;
      }
      FallToFloor();
      LockPiece(now);
    }

    /**
     * rotateActivePiece: when interaction is allowed, the active piece becomes
     * its rotation attempt (turned and kicked, or unchanged when no kick fits);
     * otherwise nothing changes.
     */
    method RotateActivePiece()
      requires Valid()
      modifies this
      ensures Valid()
      ensures !old(IsInteractionAllowed()) ==> activePiece == old(activePiece)
      ensures old(IsInteractionAllowed()) ==> activePiece == Some(Rotated(board, old(activePiece).value))
      ensures board == old(board) && nextPiece == old(nextPiece)
      ensures dropCounter == old(dropCounter) && active == old(active) && paused == old(paused)
    {
      if !IsInteractionAllowed() {
        return;
      }
      var r := RotatePiece(board, activePiece.value);
      RotatedFits(board, activePiece.value);
      activePiece := Some(r);
    }

    /**
     * The drop-counter part of gameLoop: while a game runs and is not paused,
     * the elapsed time accumulates, and once it reaches the level's interval the
     * piece drops one row (or locks) and the counter restarts from 0.
     */
    method Tick(delta: int, now: string)
      requires Valid()
      modifies this, generator, stats, history
      ensures Valid()
      ensures !old(active) || old(paused) ==> Untouched()
      ensures old(active) && !old(paused) && old(dropCounter) + delta < DropInterval(old(stats.level)) ==>
        && dropCounter == old(dropCounter) + delta
        && board == old(board) && activePiece == old(activePiece) && nextPiece == old(nextPiece)
        && active == old(active) && stats.Snapshot() == old(stats.Snapshot())
        && history.history == old(history.history) && generator.queue == old(generator.queue)
      ensures (old(active) && !old(paused) && old(dropCounter) + delta >= DropInterval(old(stats.level))
               && IsValidMove(old(board), old(activePiece).value, 0, 1)) ==>
        && dropCounter == 0
        && activePiece == Some(Moved(old(activePiece).value, 0, 1))
        && board == old(board) && nextPiece == old(nextPiece) && active == old(active)
        && stats.Snapshot() == old(stats.Snapshot())
        && history.history == old(history.history) && generator.queue == old(generator.queue)
      ensures (old(active) && !old(paused) && old(dropCounter) + delta >= DropInterval(old(stats.level))
               && !IsValidMove(old(board), old(activePiece).value, 0, 1)) ==>
        LockedFrom(old(board), old(activePiece).value, old(nextPiece), old(active), old(stats.Snapshot()), old(history.history), now)
      ensures NeverLowers()
      ensures paused == old(paused)
    {
      if !active {
        return;
      }
      if !paused {
        dropCounter := dropCounter + delta;
        if dropCounter >= stats.GetDropInterval() {
          var ignored := SoftDrop(false, now);
          dropCounter := 0;
        }
      }
    }

    /**
     * calculateGhostPiece: a copy of the active piece moved down for as long as
     * the next row fits, that is, by the piece's drop distance. The board and
     * the piece are not changed.
     */
    method CalculateGhostPiece() returns (preview: Option<Piece>)
      requires Inv()
      ensures activePiece.None? ==> preview.None?
      ensures activePiece.Some? ==> preview == Some(Moved(activePiece.value, 0, DropDistance(board, activePiece.value)))
    {
      if activePiece.None? {
        return None;
      }
      var p, b := activePiece.value, board;
      var g := p.(shape := CloneShape(p.shape));
      ghost var k: nat := 0;
      while IsValidMove(b, g, 0, 1)
        invariant g == Moved(p, 0, k)
        invariant forall j :: 1 <= j <= k ==> Fits(b, p, 0, j)
        decreases Rows - g.y
        modifies {}
      {
        FitsAboveFloor(b, g, 1);
        FitsShift(b, g, 0, 1);
        FitsShift(b, p, 0, k + 1);
        g := g.(y := g.y + 1);
        k := k + 1;
      }
      FitsShift(board, g, 0, 1);
      FitsShift(board, p, 0, k + 1);
      DropsToUnique(board, p, k, DropDistance(board, p));
      return Some(g);
    }
  }
}
