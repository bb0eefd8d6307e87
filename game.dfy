/** The engine object: the board buffer, the current and preview pieces, the
    score and the two flags, changed in place by the engine's methods. The
    engine methods (StartGame, GameOver, NewPiece, MoveDown, MoveLeft,
    MoveRight, RotatePiece, PlacePiece, Tick, HandleKey) are proved to move
    the object's state as the matching function of module Rules says. The
    helpers they call (ResetBoard, TakePieces, CanMove, MoveToTop, WritePiece,
    RowIsFull, RowIsEmpty, ClearLines, ScanFullRows, RemoveRows, RemoveRow,
    CheckRows) are proved against the functions of module Board, or against
    Template and Spawned. */
module Game {
  import opened Pieces
  import opened Board
  import opened Rules

  class Tetris {
    var board: array2<int>
    /** The board buffer as a grid value, kept equal to it (see Synced). */
    ghost var cells: Grid
    var currentPiece: Tetromino?
    var nextPiece: Tetromino?
    /** The generator: the template index of the k-th draw. */
    const random: nat -> nat
    var draws: nat
    var isPaused: bool
    var isGameOver: bool
    var score: int

    /** The buffer has the board's dimensions and holds exactly `cells`. */
    ghost predicate Synced()
      reads this`board, this`cells, board
    {
      board.Length0 == Height && board.Length1 == Width && IsGrid(cells) &&
      forall i, j :: 0 <= i < Height && 0 <= j < Width ==> board[i, j] == cells[i][j]
    }

    ghost predicate Valid()
      reads this`board, this`cells, this`score, this`currentPiece, this`nextPiece, board, currentPiece, nextPiece
    {
      Synced() && InRange(cells) && CurrentOk() && PreviewOk() && Supplies(random) && score >= 0
    }

    /** The current piece, when there is one, lies on the board and is not
        the preview piece. */
    ghost predicate CurrentOk()
      reads this`currentPiece, this`nextPiece, currentPiece
    {
      currentPiece != null ==> Falling(currentPiece.View()) && currentPiece != nextPiece
    }

    /** The preview piece, when there is one, waits at (0, 0). */
    ghost predicate PreviewOk()
      reads this`nextPiece, nextPiece
    {
      nextPiece != null ==> Waiting(nextPiece.View())
    }

    /** The state between events: both pieces exist. */
    ghost predicate Running()
      reads this`board, this`cells, this`score, this`currentPiece, this`nextPiece, board, currentPiece, nextPiece
    {
      Valid() && currentPiece != null && nextPiece != null
    }

    ghost function State(): Rules.State
      reads this, currentPiece, nextPiece
      requires currentPiece != null && nextPiece != null
    {
      Rules.State(cells, currentPiece.View(), nextPiece.View(), score, isPaused, isGameOver, draws)
    }

    /** A running engine is in a state the rules accept. */
    lemma StateInv()
      requires Running()
      ensures Inv(State(), random)
    {
    }

    /** The piece the next spawn makes current: the preview piece, or before
        the first spawn the template of the next draw. */
    ghost function Upcoming(): (p: PieceView)
      reads this`nextPiece, this`draws, nextPiece
      requires Supplies(random) && PreviewOk()
      ensures Waiting(p)
    {
      if nextPiece != null then nextPiece.View()
      else WaitingTemplate(random(draws)); Template(random(draws))
    }

    /** The draw that makes the preview piece at the next spawn. */
    ghost function PreviewDraw(): nat
      reads this`nextPiece, this`draws
    {
      if nextPiece != null then draws else draws + 1
    }

    constructor (random: nat -> nat)
      requires Supplies(random)
      ensures Running() && this.random == random
      ensures State() == Rules.StartGame(Template(random(0)), 1, random)
    {
      board := new int[Height, Width]((i, j) => 0);
      cells := EmptyGrid();
      this.random := random;
      draws := 0;
      currentPiece := null;
      nextPiece := null;
      score := 0;
      isPaused := false;
      isGameOver := false;
      new;
      assert Upcoming() == Template(random(0)) && PreviewDraw() == 1;
      StartGame();
    }

    /** Starts a game: a fresh empty board, score 0, both flags cleared, then
        a spawn. The preview piece is kept. */
    method StartGame()
      requires Valid()
      modifies this, nextPiece
      ensures Running() && fresh(nextPiece)
      ensures State() == Rules.StartGame(old(Upcoming()), old(PreviewDraw()), random)
      decreases 1
    {
      ResetBoard();
      NewPiece();
    }

    /** The reset part of starting a game. */
    method ResetBoard()
      modifies this`board, this`cells, this`score, this`isPaused, this`isGameOver
      ensures fresh(board) && Synced()
      ensures cells == EmptyGrid() && score == 0 && !isPaused && !isGameOver
    {
      board := new int[Height, Width]((i, j) => 0);
      cells := EmptyGrid();
      score := 0;
      isPaused := false;
      isGameOver := false;
    }

    /** Game over: the flag is set, then the game restarts at once. */
    method GameOver()
      requires Valid()
      modifies this, nextPiece
      ensures Running() && fresh(nextPiece)
      ensures State() == Rules.StartGame(old(Upcoming()), old(PreviewDraw()), random)
      decreases 2
    {
      isGameOver := true;
      StartGame();
    }

    /** The collision and bounds test, read-only, returning at the first
        occupied cell that is off the board or on a filled cell. */
    method CanMove(piece: Tetromino, dx: int, dy: int) returns (ok: bool)
      requires Synced()
      requires Wf(piece.View()) && piece.y >= 0 && dy >= 0
      ensures ok == Fits(cells, piece.View(), dx, dy)
    {
      var p := piece.View();
      var row := 0;
      while row < piece.size
        invariant 0 <= row <= piece.size
        invariant forall r, c | Filled(p, r, c) && r < row ::
          0 <= p.x + c + dx < Width && p.y + r + dy < Height && cells[p.y + r + dy][p.x + c + dx] == 0
      {
        var col := 0;
        while col < piece.size
          invariant 0 <= col <= piece.size
          invariant forall r, c | Filled(p, r, c) && (r < row || (r == row && c < col)) ::
            0 <= p.x + c + dx < Width && p.y + r + dy < Height && cells[p.y + r + dy][p.x + c + dx] == 0
        {
          if piece.shape[row][col] != 0 {
            var newX := piece.x + col + dx;
            var newY := piece.y + row + dy;
            if newX < 0 || newX >= Width || newY >= Height || board[newY, newX] != 0 {
              assert Filled(p, row, col);
              return false;
            }
          }
          col := col + 1;
        }
        row := row + 1;
      }
      return true;
    }

    /** Spawns the next piece: the preview piece (or, before the first spawn,
        a fresh one) becomes current and a new preview piece is drawn. The
        collision test runs where the piece stands, before it is centred; on
        a collision the game is over. Then the empty rows are compacted. */
    method NewPiece()
      requires Valid()
      modifies this, board, nextPiece
      ensures Running() && fresh(nextPiece)
      ensures State() == Rules.NewPiece(old(cells), old(score), old(isPaused), old(isGameOver),
                                        old(Upcoming()), old(PreviewDraw()), random)
      ensures old(nextPiece) != null && Fits(old(cells), old(Upcoming()), 0, 0) ==>
        currentPiece == old(nextPiece)
      decreases if cells == EmptyGrid() then 0 else 3
    {
      ghost var g0, sc, pa, ov := cells, score, isPaused, isGameOver;
      ghost var up, k := Upcoming(), PreviewDraw();
      TakePieces();
      var ok := CanMove(currentPiece, 0, 0);
      if !ok {
        // the spawn test never fails on the empty board, so the restart ends
        assert g0 != EmptyGrid() by {
          WaitingFalls(up);
          EmptyFits(up);
        }
        assert Upcoming() == Template(random(k)) && PreviewDraw() == k + 1;
        GameOver();
        SpawnCollides(g0, sc, pa, ov, up, k, random);
        return;
      }
      SpawnSucceeds(g0, sc, pa, ov, up, k, random);
      MoveToTop();
      SpawnFalls(up);
      CompactInRange(g0);
    }

    /** The success path of a spawn: the piece is centred in the top row and
        the empty rows are compacted. */
    method MoveToTop()
      requires Synced() && currentPiece != null
      modifies currentPiece`x, currentPiece`y, this`cells, board
      ensures Synced() && cells == Compact(old(cells))
      ensures currentPiece.View() == Spawned(old(currentPiece.View()))
    {
      currentPiece.SetX(Width / 2 - currentPiece.size / 2);
      currentPiece.SetY(0);
      CheckRows();
    }

    /** The first two steps of a spawn: the preview piece, or a fresh one
        before the first spawn, becomes current, and a fresh preview piece
        is drawn. */
    method TakePieces()
      requires Valid()
      modifies this`currentPiece, this`nextPiece, this`draws
      ensures Valid() && currentPiece != null && nextPiece != null && fresh(nextPiece)
      ensures currentPiece.View() == old(Upcoming())
      ensures if old(nextPiece) != null then currentPiece == old(nextPiece) else fresh(currentPiece)
      ensures nextPiece.View() == Template(random(old(PreviewDraw())))
      ensures draws == old(PreviewDraw()) + 1
    {
      if nextPiece != null {
        WaitingFalls(nextPiece.View());
        currentPiece := nextPiece;
      } else {
        WaitingTemplate(random(draws));
        WaitingFalls(Template(random(draws)));
        currentPiece := Tetromino.RandomTetromino(random(draws));
        draws := draws + 1;
      }
      WaitingTemplate(random(draws));
      nextPiece := Tetromino.RandomTetromino(random(draws));
      draws := draws + 1;
    }

    /** One step down if the piece fits there; otherwise lock it and spawn. */
    method MoveDown()
      requires Running()
      modifies this, board, currentPiece, nextPiece
      ensures Running()
      ensures State() == Rules.MoveDown(old(State()), random)
    {
      var ok := CanMove(currentPiece, 0, 1);
      if ok {
        FitsInGrid(cells, currentPiece.View(), 0, 1);
        currentPiece.SetY(currentPiece.y + 1);
      } else {
        ghost var t := Lock(State());
        PlacePiece();
        assert State() == t;
        NewPiece();
      }
    }

    method MoveLeft()
      requires Running()
      modifies currentPiece`x
      ensures Running()
      ensures State() == Rules.MoveLeft(old(State()))
    {
      var ok := CanMove(currentPiece, -1, 0);
      if ok {
        FitsInGrid(cells, currentPiece.View(), -1, 0);
        currentPiece.SetX(currentPiece.x - 1);
      }
    }

    method MoveRight()
      requires Running()
      modifies currentPiece`x
      ensures Running()
      ensures State() == Rules.MoveRight(old(State()))
    {
      var ok := CanMove(currentPiece, 1, 0);
      if ok {
        FitsInGrid(cells, currentPiece.View(), 1, 0);
        currentPiece.SetX(currentPiece.x + 1);
      }
    }

    /** Rotates the piece and rotates it back when it no longer fits. */
    method RotatePiece()
      requires Running()
      modifies currentPiece`shape
      ensures Running()
      ensures State() == RotateCurrent(old(State()))
    {
      ghost var s := State();
      RotateOutcome(s, random);
      currentPiece.Rotate();
      var ok := CanMove(currentPiece, 0, 0);
      if !ok {
        currentPiece.RotateBack();
      }
    }

    /** Locks the current piece: its colour index is written under each of
        its occupied cells, then the full rows are cleared. */
    method PlacePiece()
      requires Running()
      modifies this`score, this`cells, board
      ensures Running()
      ensures State() == Lock(old(State()))
    {
      ghost var s := State();
      ghost var t := Lock(s);
      ghost var placed := Place(s.cells, s.current);
      assert t.cells == Cleared(placed) && t.score == s.score + 100 * |FullRows(placed)|;
      LockInRange(s);
      WritePiece(currentPiece);
      assert cells == placed;
      ClearLines();
      assert currentPiece.View() == s.current && nextPiece.View() == s.next;
      assert cells == t.cells && score == t.score;
      assert Valid();
    }

    /** The writing loop of locking, over the leading block of the shape. */
    method WritePiece(p: Tetromino)
      requires Synced() && Wf(p.View()) && InGrid(p.View())
      modifies this`cells, board
      ensures Synced() && cells == Place(old(cells), p.View())
    {
      ghost var g0 := cells;
      ghost var v := p.View();
      var row := 0;
      while row < p.size
        invariant 0 <= row <= p.size
        invariant forall i, j :: 0 <= i < Height && 0 <= j < Width ==>
          board[i, j] == if Covers(v, i, j) && i - v.y < row then v.color else g0[i][j]
      {
        var col := 0;
        while col < p.size
          invariant 0 <= col <= p.size
          invariant forall i, j :: 0 <= i < Height && 0 <= j < Width ==>
            board[i, j] == if Covers(v, i, j) && (i - v.y < row || (i - v.y == row && j - v.x < col))
                           then v.color else g0[i][j]
        {
          if p.shape[row][col] != 0 {
            assert Filled(v, row, col);
            var boardX := p.x + col;
            var boardY := p.y + row;
            board[boardY, boardX] := p.colorIndex;
          }
          col := col + 1;
        }
        row := row + 1;
      }
      cells := Place(g0, v);
    }

    /** Whether every cell of a row is filled. */
    method RowIsFull(row: int) returns (full: bool)
      requires Synced() && 0 <= row < Height
      ensures full <==> IsFull(cells[row])
    {
      var col := 0;
      while col < Width
        invariant 0 <= col <= Width
        invariant forall c :: 0 <= c < col ==> cells[row][c] != 0
      {
        if board[row, col] == 0 {
          return false;
        }
        col := col + 1;
      }
      return true;
    }

    /** Whether every cell of a row is empty. */
    method RowIsEmpty(row: int) returns (empty: bool)
      requires Synced() && 0 <= row < Height
      ensures empty <==> IsEmpty(cells[row])
    {
      var col := 0;
      while col < Width
        invariant 0 <= col <= Width
        invariant forall c :: 0 <= c < col ==> cells[row][c] == 0
      {
        if board[row, col] != 0 {
          return false;
        }
        col := col + 1;
      }
      return true;
    }

    /** Clears the full rows: scans them, scoring 100 each, then removes
        them in the order found, each by its recorded index. */
    method ClearLines()
      requires Synced()
      modifies this`score, this`cells, board
      ensures Synced() && cells == Cleared(old(cells))
      ensures score == old(score) + 100 * |FullRows(old(cells))|
    {
      var fullRows := ScanFullRows();
      RemoveRows(fullRows);
    }

    /** The first phase of line clearing: the rows from the bottom up, each
        full one recorded and scored 100. */
    method ScanFullRows() returns (fullRows: seq<int>)
      requires Synced()
      modifies this`score
      ensures fullRows == FullRows(cells)
      ensures score == old(score) + 100 * |fullRows|
    {
      ghost var all := FullRows(cells);
      fullRows := [];
      var row := Height - 1;
      assert [] + all == all;
      while row >= 0
        invariant -1 <= row < Height
        invariant fullRows + FullRowsBelow(cells, row + 1) == all
        invariant score == old(score) + 100 * |fullRows|
      {
        var isFull := RowIsFull(row);
        ScanStep(cells, fullRows, row);
        if isFull {
          fullRows := fullRows + [row];
          score := score + 100;
        } else {
          assert fullRows + [] == fullRows;
        }
        row := row - 1;
      }
      assert fullRows + [] == fullRows;
    }

    /** The second phase of line clearing: each recorded index removed in
        turn from the board as the previous removals left it. */
    method RemoveRows(rows: seq<int>)
      requires Synced() && RowIndices(rows)
      modifies this`cells, board
      ensures Synced() && cells == RemoveAll(old(cells), rows)
    {
      var i := 0;
      while i < |rows|
        invariant 0 <= i <= |rows| && Synced()
        invariant RemoveAll(cells, rows[i..]) == RemoveAll(old(cells), rows)
      {
        assert rows[i..][1..] == rows[i + 1..];
        RemoveRow(rows[i]);
        i := i + 1;
      }
      assert rows[i..] == [];
    }

    /** Removes one row: each row above it is copied one row down, starting
        from the removed row, and row 0 is zeroed. */
    method RemoveRow(row: int)
      requires Synced() && 0 <= row < Height
      modifies this`cells, board
      ensures Synced() && cells == ShiftDown(old(cells), row)
    {
      ghost var g0 := cells;
      var r := row;
      while r > 0
        invariant 0 <= r <= row
        invariant forall i, j :: 0 <= i < Height && 0 <= j < Width ==>
          board[i, j] == if r < i <= row then g0[i - 1][j] else g0[i][j]
      {
        forall c | 0 <= c < Width {
          board[r, c] := board[r - 1, c];
        }
        r := r - 1;
      }
      var col := 0;
      while col < Width
        invariant 0 <= col <= Width
        invariant forall i, j :: 0 <= i < Height && 0 <= j < Width ==>
          board[i, j] == if i == 0 && j < col then 0 else if 0 < i <= row then g0[i - 1][j] else g0[i][j]
      {
        board[0, col] := 0;
        col := col + 1;
      }
      cells := ShiftDown(g0, row);
      forall i, j | 0 <= i < Height && 0 <= j < Width
        ensures board[i, j] == cells[i][j]
      {
        if i == 0 {
          assert cells[0] == Zeros();
        }
      }
    }

    /** Scans the rows from the top down and removes every empty row it
        meets, on the board as the previous removals left it. */
    method CheckRows()
      requires Synced()
      modifies this`cells, board
      ensures Synced() && cells == Compact(old(cells))
    {
      var row := 0;
      while row < Height
        invariant 0 <= row <= Height && Synced()
        invariant CompactFrom(cells, row) == Compact(old(cells))
      {
        var isEmpty := RowIsEmpty(row);
        if isEmpty {
          RemoveRow(row);
        }
        row := row + 1;
      }
    }

    /** The timer callback: a step down unless paused or over. */
    method Tick()
      requires Running()
      modifies this, board, currentPiece, nextPiece
      ensures Running()
      ensures State() == Rules.Tick(old(State()), random)
    {
      if !isPaused && !isGameOver {
        MoveDown();
      }
    }

    /** The key handler: ignored once the game is over; the pause flag does
        not stop the keys. Drop locks the piece without spawning a new one. */
    method HandleKey(cmd: Command)
      requires Running()
      modifies this, board, currentPiece, nextPiece
      ensures Running()
      ensures State() == Rules.HandleKey(old(State()), cmd, random)
    {
      if isGameOver {
        return;
      }
      match cmd
      case Left => MoveLeft();
      case Right => MoveRight();
      case Down => MoveDown();
      case Rotate => RotatePiece();
      case Drop => PlacePiece();
      case Pause => isPaused := !isPaused;
      case Other =>
    }
  }
}
