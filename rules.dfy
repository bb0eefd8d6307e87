/** The game engine as a state machine over values: one function per
    transition of the engine, and the properties those transitions keep. The
    engine object in module Game is proved to follow these functions. */
module Rules {
  import opened Pieces
  import opened Board

  /** The commands of the key handler; Other stands for every key the
      handler does not react to. */
  datatype Command = Left | Right | Down | Rotate | Drop | Pause | Other

  /** What the engine holds between two events. */
  datatype State = State(
    cells: Grid,        // the locked cells
    current: PieceView, // the falling piece
    next: PieceView,    // the preview piece
    score: int,
    paused: bool,
    over: bool,
    draws: nat)         // how many templates the generator has handed out

  /** Every template the generator hands out can be played. */
  ghost predicate Supplies(random: nat -> nat)
  {
    forall k: nat :: Playable(random(k))
  }

  /** A falling piece: a readable shape of at most three rows, a colour, and
      every occupied cell on the board. */
  ghost predicate Falling(p: PieceView)
  {
    Wf(p) && 1 <= p.size <= 3 && 1 <= p.color <= 7 && p.y >= 0 && InGrid(p)
  }

  /** A piece not yet spawned: as the generator made it, at (0, 0). */
  ghost predicate Waiting(p: PieceView)
  {
    Wf(p) && 1 <= p.size <= 3 && 1 <= p.color <= 7 && p.x == 0 && p.y == 0
  }

  /** What holds between two events: a well-formed board of colour indices,
      a falling piece on the board, a waiting preview piece, a generator that
      supplies playable templates, and a score that is never negative. */
  ghost predicate Inv(s: State, random: nat -> nat)
  {
    IsGrid(s.cells) && InRange(s.cells) && Falling(s.current) && Waiting(s.next) &&
    Supplies(random) && s.score >= 0
  }

  /** The spawn position: horizontally centred, in the top row. */
  function Spawned(p: PieceView): (q: PieceView)
    ensures q.shape == p.shape && q.size == p.size && q.color == p.color
    ensures q.x == Width / 2 - p.size / 2 && q.y == 0
  {
    p.(x := Width / 2 - p.size / 2, y := 0)
  }

  lemma WaitingTemplate(index: nat)
    requires Playable(index)
    ensures Waiting(Template(index))
  {
    PlayableTemplates(index);
  }

  /** A waiting piece lies on the board where it waits. */
  lemma WaitingFalls(p: PieceView)
    requires Waiting(p)
    ensures Falling(p)
  {
    assert forall r, c | Filled(p, r, c) :: 0 <= p.x + c < Width && 0 <= p.y + r < Height;
  }

  /** A waiting piece spawned at the centre lies on the board. */
  lemma SpawnFalls(p: PieceView)
    requires Waiting(p)
    ensures Falling(Spawned(p))
  {
    var q := Spawned(p);
    assert forall r, c :: Filled(q, r, c) == Filled(p, r, c);
  }

  // ---------------------------------------------------------------------
  // Transitions

  ghost function MoveLeft(s: State): State
    requires IsGrid(s.cells) && Falling(s.current)
  {
    if Fits(s.cells, s.current, -1, 0) then s.(current := s.current.(x := s.current.x - 1)) else s
  }

  ghost function MoveRight(s: State): State
    requires IsGrid(s.cells) && Falling(s.current)
  {
    if Fits(s.cells, s.current, 1, 0) then s.(current := s.current.(x := s.current.x + 1)) else s
  }

  /** Rotate clockwise; when the rotated piece does not fit where it stands,
      rotate it back. */
  ghost function RotateCurrent(s: State): State
    requires IsGrid(s.cells) && Falling(s.current)
  {
    var p := s.current;
    var rot := p.(shape := Rotated(p.shape, p.size));
    if Fits(s.cells, rot, 0, 0) then s.(current := rot)
    else s.(current := rot.(shape := RotatedBack(rot.shape, rot.size)))
  }

  /** Lock the current piece into the grid, then clear the full rows and
      score 100 for each. The current piece stays where it is. */
  ghost function Lock(s: State): State
    requires IsGrid(s.cells) && Falling(s.current)
  {
    var placed := Place(s.cells, s.current);
    s.(cells := Cleared(placed), score := s.score + 100 * |FullRows(placed)|)
  }

  /** Spawn: `up` (the preview piece, or a freshly drawn one before the first
      spawn) becomes current and draw k makes the new preview piece. The
      collision test runs where `up` stands, before it is centred; on a
      collision the game is over and restarts. */
  ghost function NewPiece(cells: Grid, score: int, paused: bool, over: bool,
                          up: PieceView, k: nat, random: nat -> nat): (r: State)
    requires IsGrid(cells) && InRange(cells) && Waiting(up) && Supplies(random) && score >= 0
    ensures Inv(r, random)
    ensures r.score == score || (r.score == 0 && r.cells == EmptyGrid() && !r.paused && !r.over)
    decreases if cells == EmptyGrid() then 0 else 2
  {
    WaitingTemplate(random(k));
    if Fits(cells, up, 0, 0) then
      CompactInRange(cells);
      SpawnFalls(up);
      State(Compact(cells), Spawned(up), Template(random(k)), score, paused, over, k + 1)
    else
      EmptyFits(up);
      StartGame(Template(random(k)), k + 1, random)
  }

  /** Game over and restart: an empty board, score 0, both flags cleared,
      then a spawn from the preview piece, which is kept. */
  ghost function StartGame(next: PieceView, k: nat, random: nat -> nat): (r: State)
    requires Waiting(next) && Supplies(random)
    ensures Inv(r, random)
    ensures r.cells == EmptyGrid() && r.score == 0 && !r.paused && !r.over
    decreases 1
  {
    EmptyFits(next);
    CompactEmpty();
    NewPiece(EmptyGrid(), 0, false, false, next, k, random)
  }

  /** One step down, or lock, clear and spawn when the step is blocked. */
  ghost function MoveDown(s: State, random: nat -> nat): State
    requires Inv(s, random)
  {
    if Fits(s.cells, s.current, 0, 1) then s.(current := s.current.(y := s.current.y + 1))
    else
      var t := Lock(s);
      LockInRange(s);
      NewPiece(t.cells, t.score, t.paused, t.over, t.next, t.draws, random)
  }

  /** The timer: a step down unless paused or over. */
  ghost function Tick(s: State, random: nat -> nat): State
    requires Inv(s, random)
  {
    if !s.paused && !s.over then MoveDown(s, random) else s
  }

  /** The key handler: nothing once the game is over; otherwise the command,
      whether or not the game is paused. Drop locks without spawning. */
  ghost function HandleKey(s: State, cmd: Command, random: nat -> nat): State
    requires Inv(s, random)
  {
    if s.over then s
    else match cmd
      case Left => MoveLeft(s)
      case Right => MoveRight(s)
      case Down => MoveDown(s, random)
      case Rotate => RotateCurrent(s)
      case Drop => Lock(s)
      case Pause => s.(paused := !s.paused)
      case Other => s
  }

  // ---------------------------------------------------------------------
  // Properties of the transitions

  lemma LockInRange(s: State)
    requires IsGrid(s.cells) && InRange(s.cells) && Falling(s.current)
    ensures InRange(Lock(s).cells) && IsGrid(Lock(s).cells)
  {
    var placed := Place(s.cells, s.current);
    PlaceInRange(s.cells, s.current);
    RemoveAllInRange(placed, FullRows(placed));
  }

  lemma MoveLeftKeepsInv(s: State, random: nat -> nat)
    requires Inv(s, random)
    ensures Inv(MoveLeft(s), random)
  {
    if Fits(s.cells, s.current, -1, 0) {
      FitsInGrid(s.cells, s.current, -1, 0);
    }
  }

  lemma MoveRightKeepsInv(s: State, random: nat -> nat)
    requires Inv(s, random)
    ensures Inv(MoveRight(s), random)
  {
    if Fits(s.cells, s.current, 1, 0) {
      FitsInGrid(s.cells, s.current, 1, 0);
    }
  }

  /** A rotation either fits where the piece stands or is undone: position,
      colour and board never change, and an undone rotation leaves the same
      occupied cells (the same shape, once the shape is square). */
  lemma RotateOutcome(s: State, random: nat -> nat)
    requires Inv(s, random)
    ensures Inv(RotateCurrent(s), random)
    ensures var p := s.current; var q := RotateCurrent(s).current;
      RotateCurrent(s) == s.(current := q) &&
      q.x == p.x && q.y == p.y && q.size == p.size && q.color == p.color
    ensures var p := s.current; var q := RotateCurrent(s).current;
      var rot := p.(shape := Rotated(p.shape, p.size));
      (Fits(s.cells, rot, 0, 0) ==> q.shape == rot.shape) &&
      (!Fits(s.cells, rot, 0, 0) ==> q.shape == Leading(p.shape, p.size))
  {
    var p := s.current;
    var rot := p.(shape := Rotated(p.shape, p.size));
    RotateRoundTrip(p.shape, p.size);
    if Fits(s.cells, rot, 0, 0) {
      FitsInGrid(s.cells, rot, 0, 0);
    } else {
      LeadingSameCells(p);
    }
  }

  /** A failed rotation of a square shape restores it exactly. */
  lemma RotateUndoneExactly(s: State, random: nat -> nat)
    requires Inv(s, random)
    requires forall i :: 0 <= i < s.current.size ==> |s.current.shape[i]| == s.current.size
    requires !Fits(s.cells, s.current.(shape := Rotated(s.current.shape, s.current.size)), 0, 0)
    ensures RotateCurrent(s) == s
  {
    RotateRoundTrip(s.current.shape, s.current.size);
    LeadingOfSquare(s.current.shape, s.current.size);
  }

  /** A step left from a position where the piece fits is undone by a step
      right. */
  lemma LeftThenRight(s: State, random: nat -> nat)
    requires Inv(s, random) && Fits(s.cells, s.current, 0, 0) && Fits(s.cells, s.current, -1, 0)
    ensures Inv(MoveLeft(s), random) && MoveRight(MoveLeft(s)) == s
  {
    MoveLeftKeepsInv(s, random);
    var p := s.current;
    var q := p.(x := p.x - 1);
    FitsShift(s.cells, q, 1, 0);
    assert q.(x := q.x + 1, y := q.y + 0) == p;
  }

  lemma MoveDownKeepsInv(s: State, random: nat -> nat)
    requires Inv(s, random)
    ensures Inv(MoveDown(s, random), random)
  {
    if Fits(s.cells, s.current, 0, 1) {
      FitsInGrid(s.cells, s.current, 0, 1);
    }
  }

  lemma HandleKeyKeepsInv(s: State, cmd: Command, random: nat -> nat)
    requires Inv(s, random)
    ensures Inv(HandleKey(s, cmd, random), random)
  {
    if !s.over {
      match cmd
      case Left => MoveLeftKeepsInv(s, random);
      case Right => MoveRightKeepsInv(s, random);
      case Down => MoveDownKeepsInv(s, random);
      case Rotate => RotateOutcome(s, random);
      case Drop => LockInRange(s);
      case Pause =>
      case Other =>
    }
  }

  lemma TickKeepsInv(s: State, random: nat -> nat)
    requires Inv(s, random)
    ensures Inv(Tick(s, random), random)
  {
    if !s.paused && !s.over {
      MoveDownKeepsInv(s, random);
    }
  }

  /** The score only grows, by 100 per cleared row, except when a game over
      resets the whole game. */
  lemma ScoreGrowsOrResets(s: State, cmd: Command, random: nat -> nat)
    requires Inv(s, random)
    ensures var r := HandleKey(s, cmd, random);
      r.score >= s.score || (r.score == 0 && r.cells == EmptyGrid() && !r.paused && !r.over)
  {
  }

  /** A spawn whose test passes keeps the board (up to the compaction pass)
      and the score, centres `up` without testing the centred position, and
      draws exactly one template. */
  lemma SpawnSucceeds(cells: Grid, score: int, paused: bool, over: bool,
                      up: PieceView, k: nat, random: nat -> nat)
    requires IsGrid(cells) && InRange(cells) && Waiting(up) && Supplies(random) && score >= 0
    requires Fits(cells, up, 0, 0)
    ensures var r := NewPiece(cells, score, paused, over, up, k, random);
      r.current == Spawned(up) && r.next == Template(random(k)) && r.draws == k + 1 &&
      r.cells == Compact(cells) && r.score == score && r.paused == paused && r.over == over
  {
  }

  /** A spawn whose test fails restarts the game: empty board, score 0, flags
      cleared, the piece drawn as preview becomes current and one more
      template is drawn. */
  lemma SpawnCollides(cells: Grid, score: int, paused: bool, over: bool,
                      up: PieceView, k: nat, random: nat -> nat)
    requires IsGrid(cells) && InRange(cells) && Waiting(up) && Supplies(random) && score >= 0
    requires !Fits(cells, up, 0, 0)
    ensures var r := NewPiece(cells, score, paused, over, up, k, random);
      r.cells == EmptyGrid() && r.score == 0 && !r.paused && !r.over &&
      r.current == Spawned(Template(random(k))) && r.next == Template(random(k + 1)) &&
      r.draws == k + 2
    ensures NewPiece(cells, score, paused, over, up, k, random) == StartGame(Template(random(k)), k + 1, random)
  {
    WaitingTemplate(random(k));
    WaitingTemplate(random(k + 1));
    var t := Template(random(k));
    EmptyFits(t);
    CompactEmpty();
    assert NewPiece(cells, score, paused, over, up, k, random) == StartGame(t, k + 1, random);
    assert StartGame(t, k + 1, random) == NewPiece(EmptyGrid(), 0, false, false, t, k + 1, random);
  }

  /** The Drop key locks the piece but does not spawn: when no row is
      cleared, the piece stays on top of its own locked cells. */
  lemma DropLeavesPieceOnItsCells(s: State, random: nat -> nat, r: int, c: int)
    requires Inv(s, random) && !s.over && Filled(s.current, r, c)
    requires FullRows(Place(s.cells, s.current)) == []
    ensures HandleKey(s, Drop, random) == Lock(s)
    ensures Lock(s).current == s.current && Lock(s).next == s.next && Lock(s).draws == s.draws
    ensures !Fits(Lock(s).cells, s.current, 0, 0)
  {
    DropLocks(s, random);
    LockWithoutClear(s);
    PlacedPieceCollides(s.cells, s.current, r, c);
  }

  /** While the game runs, the Drop key is exactly a lock. */
  lemma DropLocks(s: State, random: nat -> nat)
    requires Inv(s, random) && !s.over
    ensures HandleKey(s, Drop, random) == Lock(s)
  {
    DropCommand(s, Drop, random);
  }

  /** The same fact about a command known to be Drop, so that the solver
      unfolds HandleKey on one branch only. */
  lemma DropCommand(s: State, cmd: Command, random: nat -> nat)
    requires Inv(s, random) && !s.over && cmd == Drop
    ensures HandleKey(s, cmd, random) == Lock(s)
  {
  }

  /** A lock that fills no row leaves the placed grid as it is. */
  lemma LockWithoutClear(s: State)
    requires IsGrid(s.cells) && Falling(s.current)
    requires FullRows(Place(s.cells, s.current)) == []
    ensures Lock(s).cells == Place(s.cells, s.current) && Lock(s).score == s.score
  {
    var placed := Place(s.cells, s.current);
    assert RemoveAll(placed, []) == placed;
  }

  /** Pausing stops the timer only; the keys still act. */
  lemma PauseStopsOnlyTicks(s: State, cmd: Command, random: nat -> nat)
    requires Inv(s, random) && s.paused && !s.over
    ensures Tick(s, random) == s
    ensures cmd == Left ==> HandleKey(s, cmd, random) == MoveLeft(s)
    ensures cmd == Right ==> HandleKey(s, cmd, random) == MoveRight(s)
    ensures cmd == Down ==> HandleKey(s, cmd, random) == MoveDown(s, random)
    ensures cmd == Rotate ==> HandleKey(s, cmd, random) == RotateCurrent(s)
    ensures cmd == Drop ==> HandleKey(s, cmd, random) == Lock(s)
  {
  }

  /** The O piece (template 3) spawns at column 4. */
  lemma OPieceSpawnsAtColumnFour()
    ensures Spawned(Template(3)).x == 4 && Spawned(Template(3)).y == 0
  {
  }
}
