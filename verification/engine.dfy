/** The game session: the grid, the active and queued pieces, the statistics, the drop
    timer and the run/pause/over flags, with every operation that changes them. */
module Engine {
  import opened Pieces
  import opened Grid
  import opened Scoring

  datatype Option<A> = None | Some(value: A)

  /** The keys the controller listens to; anything else is ignored. */
  datatype Key = ArrowLeft | ArrowRight | ArrowDown | ArrowUp | Space | Other

  class Game {
    var board: Board
    var current: Option<Piece>
    var nextPiece: Option<Piece>
    var score: nat
    var lines: nat
    var level: nat
    var dropCounter: int
    var dropInterval: int
    var lastTime: int
    var gameRunning: bool
    var gamePaused: bool
    var gameOver: bool

    /** The session invariant. */
    ghost predicate Valid()
      reads this`board, this`current, this`nextPiece, this`score, this`lines, this`level, this`dropInterval, this`gameRunning, this`gameOver
    {
      IsBoard(board) && NoFullRow(board)
      && (current.Some? <==> nextPiece.Some?)
      && (current.Some? ==> WellShaped(current.value.shape))
      && (nextPiece.Some? ==> nextPiece.value == CreatePiece(nextPiece.value.kind))
      && level == LevelFor(lines) && dropInterval == IntervalFor(level)
      && (gameOver ==> !gameRunning)
      && (gameRunning ==> current.Some? && !Collides(board, current.value))
    }

    function CurrentStats(): Stats
      reads this`score, this`lines, this`level, this`dropInterval
    {
      Stats(score, lines, level, dropInterval)
    }

    /** Grid, pieces, statistics and the two status flags equal the given values. */
    ghost predicate Same(b0: Board, c0: Option<Piece>, n0: Option<Piece>, s0: Stats, running0: bool, over0: bool)
      reads this`board, this`current, this`nextPiece, this`score, this`lines, this`level, this`dropInterval, this`gameRunning, this`gameOver
    {
      board == b0 && current == c0 && nextPiece == n0 && CurrentStats() == s0
      && gameRunning == running0 && gameOver == over0
    }

    /** The state after locking `p` into grid `b0`, starting from queue `n0`, statistics
        `s0` and flags `running0`, `over0`: merged and swept grid, the sweep's award, the
        queued piece promoted, a fresh piece of type `draw` queued, and the game over
        exactly when the promoted piece collides. */
    ghost predicate LockedFrom(b0: Board, p: Piece, n0: Option<Piece>, s0: Stats, running0: bool, over0: bool, draw: PieceType)
      reads this`board, this`current, this`nextPiece, this`score, this`lines, this`level, this`dropInterval, this`gameRunning, this`gameOver
      requires IsBoard(b0)
    {
      var merged := Merged(b0, p);
      board == Swept(merged)
      && FullCount(merged) < |LINE_SCORES| && CurrentStats() == Scored(s0, FullCount(merged))
      && current == n0 && nextPiece == Some(CreatePiece(draw))
      && IsBoard(board) && current.Some?
      && (if Collides(board, current.value) then gameOver && !gameRunning
          else gameOver == over0 && gameRunning == running0)
    }

    /** The state after one soft drop from the given values: one row down and one point,
        or, when the row below is blocked, the lock. */
    ghost predicate SoftDroppedFrom(b0: Board, c0: Option<Piece>, n0: Option<Piece>, s0: Stats, running0: bool, over0: bool, draw: PieceType)
      reads this`board, this`current, this`nextPiece, this`score, this`lines, this`level, this`dropInterval, this`gameRunning, this`gameOver
      requires IsBoard(b0)
    {
      match c0
      case None => Same(b0, c0, n0, s0, running0, over0)
      case Some(p) =>
        var down := p.(y := p.y + 1);
        if !Collides(b0, down) then Same(b0, Some(down), n0, s0.(score := s0.score + 1), running0, over0)
        else LockedFrom(b0, p, n0, s0, running0, over0, draw)
    }

    /** The session before the first start: empty grid, no pieces, level 1, all flags down. */
    constructor ()
      ensures Valid()
      ensures forall r, c :: 0 <= r < ROWS && 0 <= c < COLS ==> board[r][c] == Empty
      ensures current == None && nextPiece == None
      ensures score == 0 && lines == 0 && level == 1 && dropInterval == BASE_INTERVAL
      ensures dropCounter == 0 && lastTime == 0
      ensures !gameRunning && !gamePaused && !gameOver
    {
      var empty := CreateEmptyBoard();
      board := empty;
      current := None;
      nextPiece := None;
      score, lines, level := 0, 0, 1;
      dropCounter, dropInterval, lastTime := 0, BASE_INTERVAL, 0;
      gameRunning, gamePaused, gameOver := false, false, false;
    }

    /** Controls are accepted only while running, not paused and not over. */
    predicate CanControl(): (accepted: bool)
      reads this`gameRunning, this`gamePaused, this`gameOver
      ensures accepted <==> gameRunning && !gamePaused && !gameOver
    {
      gameRunning && !gamePaused && !gameOver
    }

    /** Whenever controls are accepted there is an active piece, and it fits where it is. */
    lemma AcceptedControlHasPiece()
      requires Valid() && CanControl()
      ensures current.Some? && !Collides(board, current.value)
    {
    }

    /** Writes the set cells of the active piece that fall inside the grid. */
    method Merge()
      requires IsBoard(board) && current.Some?
      modifies this`board
      ensures board == Merged(old(board), current.value)
    {
      var p := current.value;
      ghost var b0 := board;
      var y := 0;
      while y < |p.shape|
        invariant 0 <= y <= |p.shape|
        invariant IsBoard(board)
        invariant forall r, c :: 0 <= r < ROWS && 0 <= c < COLS ==>
                    board[r][c] == if Covers(p, r, c) && r - p.y < y then Tag(p.kind) else b0[r][c]
      {
        var x := 0;
        while x < |p.shape[y]|
          invariant 0 <= x <= |p.shape[y]|
          invariant IsBoard(board)
          invariant forall r, c :: 0 <= r < ROWS && 0 <= c < COLS ==>
                      board[r][c] == if Covers(p, r, c) && (r - p.y < y || (r - p.y == y && c - p.x < x))
                                     then Tag(p.kind) else b0[r][c]
        {
          if p.shape[y][x] {
            var rowY := p.y + y;
            var colX := p.x + x;
            if rowY >= 0 && rowY < ROWS && colX >= 0 && colX < COLS {
              board := board[rowY := board[rowY][colX := Tag(p.kind)]];
            }
          }
          x := x + 1;
        }
        y := y + 1;
      }
      forall r | 0 <= r < ROWS
        ensures board[r] == Merged(b0, p)[r]
      {
        assert |board[r]| == |Merged(b0, p)[r]|;
      }
    }

    /** Removes the full rows bottom-up, re-examining the same index after a removal, and
        scores the sweep. A sweep that clears nothing leaves the statistics alone. */
    method SweepLines()
      requires IsBoard(board) && FullCount(board) < |LINE_SCORES|
      modifies this`board, this`score, this`lines, this`level, this`dropInterval
      ensures board == Swept(old(board))
      ensures CurrentStats() == Scored(old(CurrentStats()), FullCount(old(board)))
    {
      var rows := board;
      ghost var b0 := rows;
      ghost var s0 := CurrentStats();
      ghost var m := ROWS;  // rows of the original grid not yet scanned
      var cleared := 0;
      var y: int := ROWS - 1;
      assert b0[..ROWS] == b0 && b0[ROWS..] == [];
      while y >= 0
        modifies {}
        invariant 0 <= m <= ROWS && -1 <= y
        invariant y + 1 <= cleared + m && (m > 0 ==> y + 1 == cleared + m)
        invariant rows == SweepState(b0, m, cleared) && |rows| == ROWS
        decreases m + y
      {
        SweepStep(b0, m, cleared, y, rows);
        if Full(rows[y]) {
          rows := [EmptyRow()] + rows[..y] + rows[y + 1..];
          cleared := cleared + 1;
          m := m - 1;
        } else {
          if m > 0 {
            m := m - 1;
          }
          y := y - 1;
        }
      }
      board := rows;
      SweepStateDone(b0, cleared);
      assert CurrentStats() == s0;
      ScoreSweep(cleared);
    }

    /** The award at the end of a sweep: when rows were cleared, the table entry times the
        current level is added to the score, the rows to the line total, and level and fall
        interval are recomputed from the new total. */
    method ScoreSweep(cleared: nat)
      requires cleared < |LINE_SCORES|
      modifies this`score, this`lines, this`level, this`dropInterval
      ensures CurrentStats() == Scored(old(CurrentStats()), cleared)
    {
      if cleared > 0 {
        score := score + Award(cleared, level);
        lines := lines + cleared;
        level := LevelFor(lines);
        dropInterval := IntervalFor(level);
      }
    }

    /** Promotes the queued piece (creating one of type `initial` first when none is
        queued), queues a fresh piece of type `draw`, and ends the game when the promoted
        piece collides where it appears. */
    method SpawnPiece(initial: PieceType, draw: PieceType)
      requires IsBoard(board)
      modifies this`current, this`nextPiece, this`gameOver, this`gameRunning
      ensures current == if old(nextPiece).Some? then old(nextPiece) else Some(CreatePiece(initial))
      ensures nextPiece == Some(CreatePiece(draw))
      ensures Collides(board, current.value) ==> gameOver && !gameRunning
      ensures !Collides(board, current.value) ==> gameOver == old(gameOver) && gameRunning == old(gameRunning)
    {
      if nextPiece.None? {
        nextPiece := Some(CreatePiece(initial));
      }
      current := nextPiece;
      nextPiece := Some(CreatePiece(draw));
      var hit := Collide(board, current.value);
      if hit {
        gameOver := true;
        gameRunning := false;
      }
    }

    /** Shifts the active piece `dir` columns when it fits there; otherwise nothing happens. */
    method PlayerMove(dir: int)
      requires Valid()
      modifies this`current
      ensures Valid()
      ensures old(current).None? ==> current == old(current)
      ensures old(current).Some? ==>
                var p := old(current).value;
                current == if Collides(board, p.(x := p.x + dir)) then old(current) else Some(p.(x := p.x + dir))
      ensures old(current).Some? && !Collides(board, old(current).value) ==> !Collides(board, current.value)
    {
      if current.None? {
        return;
      }
      var moved := current.value.(x := current.value.x + dir);
      var hit := Collide(board, moved);
      if !hit {
        current := Some(moved);
      }
    }

    /** Rotates the active piece clockwise, trying its own column, then one to the right,
        then one to the left, and committing the first that fits; when none fits the
        piece stays as it was. The row never changes. */
    method PlayerRotate()
      requires Valid()
      modifies this`current
      ensures Valid()
      ensures old(current).None? ==> current == old(current)
      ensures old(current).Some? ==> current == Some(Kicked(board, old(current).value))
    {
      if current.None? {
        return;
      }
      RotatedWellShaped(current.value.shape);
      var turned := RotateWithKick(board, current.value);
      current := Some(turned);
    }

    /** Locks the active piece: merge, sweep and score, then spawn the queued piece. The
        sweep never clears more rows than the score table covers, because the grid held
        no full row before the merge and a piece is at most four rows tall. */
    method PieceLock(draw: PieceType)
      requires Valid() && current.Some?
      modifies this
      ensures Valid()
      ensures LockedFrom(old(board), old(current).value, old(nextPiece), old(CurrentStats()),
                         old(gameRunning), old(gameOver), draw)
      ensures gamePaused == old(gamePaused) && dropCounter == old(dropCounter) && lastTime == old(lastTime)
    {
      ghost var b0 := board;
      ghost var p := current.value;
      ghost var s0 := CurrentStats();
      Merge();
      MergedFullRows(b0, p);
      SweepLines();
      SweptIsBoard(Merged(b0, p));
      ScoredProgress(s0, FullCount(Merged(b0, p)));
      SpawnPiece(draw, draw);
      TemplateWellShaped(current.value.kind);
    }

    /** Moves the active piece one row down and awards one point, or locks it when the
        row below is blocked. */
    method PlayerSoftDrop(draw: PieceType)
      requires Valid()
      modifies this
      ensures Valid()
      ensures SoftDroppedFrom(old(board), old(current), old(nextPiece), old(CurrentStats()),
                              old(gameRunning), old(gameOver), draw)
      ensures gamePaused == old(gamePaused) && dropCounter == old(dropCounter) && lastTime == old(lastTime)
    {
      if current.None? {
        return;
      }
      var moved := current.value.(y := current.value.y + 1);
      var hit := Collide(board, moved);
      if !hit {
        current := Some(moved);
        score := score + 1;
      } else {
        PieceLock(draw);
      }
    }

    /** Drops the active piece straight down to its landing row and locks it there. No
        points are awarded for the distance; only the sweep scores. */
    method HardDrop(draw: PieceType)
      requires Valid()
      modifies this
      ensures Valid()
      ensures old(current).None? ==> Same(old(board), old(current), old(nextPiece), old(CurrentStats()),
                                          old(gameRunning), old(gameOver))
      ensures old(current).Some? ==>
                var p := old(current).value;
                HasBlock(p.shape) &&
                LockedFrom(old(board), p.(y := Landing(old(board), p)), old(nextPiece), old(CurrentStats()),
                           old(gameRunning), old(gameOver), draw)
      ensures gamePaused == old(gamePaused) && dropCounter == old(dropCounter) && lastTime == old(lastTime)
    {
      if current.None? {
        return;
      }
      ghost var p := current.value;
      var falling := current.value;
      var hit := Collide(board, falling.(y := falling.y + 1));
      while !hit
        modifies {}
        invariant falling == p.(y := falling.y) && falling.y >= p.y
        invariant Landing(board, falling) == Landing(board, p)
        invariant hit == Collides(board, falling.(y := falling.y + 1))
        invariant gameRunning ==> !Collides(board, falling)
        decreases ROWS - falling.y
      {
        LandingStep(board, falling);
        falling := falling.(y := falling.y + 1);
        hit := Collide(board, falling.(y := falling.y + 1));
      }
      assert falling.y == Landing(board, falling);
      current := Some(falling);
      PieceLock(draw);
    }

    /** Clears the grid and the statistics and spawns the first two pieces; the run and
        pause flags and the drop timer are left as they were. */
    method ResetGame(initial: PieceType, draw: PieceType)
      modifies this
      ensures Valid()
      ensures forall r, c :: 0 <= r < ROWS && 0 <= c < COLS ==> board[r][c] == Empty
      ensures score == 0 && lines == 0 && level == 1 && dropInterval == BASE_INTERVAL
      ensures current == Some(CreatePiece(initial)) && nextPiece == Some(CreatePiece(draw))
      ensures !gameOver
      ensures gameRunning == old(gameRunning) && gamePaused == old(gamePaused)
      ensures dropCounter == old(dropCounter) && lastTime == old(lastTime)
    {
      board := CreateEmptyBoard();
      score := 0;
      lines := 0;
      level := 1;
      dropInterval := BASE_INTERVAL;
      gameOver := false;
      nextPiece := None;
      SpawnPiece(initial, draw);
      SpawnFitsEmptyBoard(board, initial);
      TemplateWellShaped(initial);
    }

    /** Resets the session and sets it running: afterwards controls are accepted. */
    method StartGame(initial: PieceType, draw: PieceType)
      modifies this
      ensures Valid() && CanControl()
      ensures forall r, c :: 0 <= r < ROWS && 0 <= c < COLS ==> board[r][c] == Empty
      ensures score == 0 && lines == 0 && level == 1 && dropInterval == BASE_INTERVAL
      ensures current == Some(CreatePiece(initial)) && nextPiece == Some(CreatePiece(draw))
      ensures dropCounter == old(dropCounter) && lastTime == old(lastTime)
    {
      ResetGame(initial, draw);
      SpawnFitsEmptyBoard(board, initial);
      gameRunning := true;
      gamePaused := false;
    }

    /** Flips the pause flag of a running game; does nothing otherwise. */
    method TogglePause()
      requires Valid()
      modifies this`gamePaused
      ensures Valid()
      ensures gamePaused == if old(gameRunning) then !old(gamePaused) else old(gamePaused)
    {
      if !gameRunning {
        return;
      }
      gamePaused := !gamePaused;
    }

    /** One frame of the game loop at integer time `time`. While stopped or paused nothing
        changes (not even the frame time). Otherwise the elapsed time is added to the drop
        counter, and once the counter exceeds the fall interval the piece is soft-dropped
        and the counter starts again from zero. */
    method Update(time: int, draw: PieceType)
      requires Valid()
      modifies this
      ensures Valid()
      ensures !old(gameRunning) || old(gamePaused) ==> unchanged(this)
      ensures old(gameRunning) && !old(gamePaused) ==>
                lastTime == time && gamePaused == old(gamePaused) &&
                var counter := old(dropCounter) + (time - old(lastTime));
                if counter > old(dropInterval) then
                  dropCounter == 0 &&
                  SoftDroppedFrom(old(board), old(current), old(nextPiece), old(CurrentStats()),
                                  old(gameRunning), old(gameOver), draw)
                else
                  dropCounter == counter &&
                  Same(old(board), old(current), old(nextPiece), old(CurrentStats()), old(gameRunning), old(gameOver))
    {
      if !gameRunning || gamePaused {
        return;
      }
      var delta := time - lastTime;
      lastTime := time;
      dropCounter := dropCounter + delta;
      if dropCounter > dropInterval {
        PlayerSoftDrop(draw);
        dropCounter := 0;
      }
    }

    /** The keyboard controller: ignored unless controls are accepted; the drop keys also
        restart the drop counter. */
    method HandleKey(key: Key, draw: PieceType)
      requires Valid()
      modifies this
      ensures Valid()
      ensures !old(CanControl()) || key == Other ==> unchanged(this)
      ensures old(CanControl()) && (key == ArrowDown || key == Space) ==> dropCounter == 0
      ensures key in {ArrowLeft, ArrowRight, ArrowUp} ==>
                Same(old(board), current, old(nextPiece), old(CurrentStats()), old(gameRunning), old(gameOver))
    {
      if !CanControl() {
        return;
      }
      match key
      case ArrowLeft => PlayerMove(-1);
      case ArrowRight => PlayerMove(1);
      case ArrowDown =>
        PlayerSoftDrop(draw);
        dropCounter := 0;
      case ArrowUp => PlayerRotate();
      case Space =>
        HardDrop(draw);
        dropCounter := 0;
      case Other =>
    }
  }
}
