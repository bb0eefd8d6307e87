/** Tetrominoes: the seven shape templates, their colour indices, the
    rotation transforms and the mutable piece object that the engine moves. */
module Pieces {

  /** A piece as a value: its shape matrix, its size (the number of ROWS of
      the shape, as the constructor records it), its top-left board position
      and its colour index. */
  datatype PieceView = PieceView(shape: seq<seq<int>>, size: nat, x: int, y: int, color: int)

  /** The shape templates I, Z, S, O, T, L, J, in this order. They are not
      square: every loop over a shape reads only its leading size×size block. */
  const Shapes: seq<seq<seq<int>>> := [
    [[1, 1, 1, 1]],
    [[1, 1, 0], [0, 1, 1]],
    [[0, 1, 1], [1, 1, 0]],
    [[1, 1], [1, 1]],
    [[1, 1, 1], [0, 1, 0]],
    [[1, 1], [1, 0], [1, 0]],
    [[1, 1], [0, 1], [0, 1]]
  ]

  /** The colour table of the piece class; it has seven entries, one fewer
      than the template index plus one needs for the last template. */
  const Colors: seq<int> := [0, 1, 2, 3, 4, 5, 6]

  /** The leading n×n block of a shape exists, so every read the loops make is
      in range. */
  predicate Readable(shape: seq<seq<int>>, n: nat)
  {
    |shape| >= n && forall i :: 0 <= i < n ==> |shape[i]| >= n
  }

  /** A well-formed piece: size is the number of rows and every row is at
      least size entries long. */
  predicate Wf(p: PieceView)
  {
    |p.shape| == p.size && Readable(p.shape, p.size)
  }

  /** Cell (r, c) of the leading block is occupied. */
  predicate Filled(p: PieceView, r: int, c: int)
    requires Wf(p)
  {
    0 <= r < p.size && 0 <= c < p.size && p.shape[r][c] != 0
  }

  /** A template index the engine can use: it is a valid template, its colour
      lookup stays inside the colour table, and the template's leading block
      is readable (the L template's rows are shorter than its row count). */
  predicate Playable(index: nat)
  {
    index < |Shapes| && index + 1 < |Colors| && Readable(Shapes[index], |Shapes[index]|)
  }

  /** The piece generated from template `index`, before the engine positions
      it: the template shape, at (0, 0), with colour index + 1. */
  function Template(index: nat): (p: PieceView)
    requires index < |Shapes| && index + 1 < |Colors|
    ensures p.shape == Shapes[index] && p.size == |Shapes[index]|
    ensures p.x == 0 && p.y == 0
    ensures p.color == index + 1 && 1 <= p.color <= 6
  {
    PieceView(Shapes[index], |Shapes[index]|, 0, 0, Colors[index + 1])
  }

  /** Clockwise rotation of the leading n×n block (see RotatedMoves). */
  function Rotated(s: seq<seq<int>>, n: nat): (r: seq<seq<int>>)
    requires Readable(s, n)
    ensures |r| == n && forall i :: 0 <= i < n ==> |r[i]| == n
  {
    seq(n, i requires 0 <= i < n => seq(n, j requires 0 <= j < n => s[n - 1 - j][i]))
  }

  /** Counter-clockwise rotation of the leading n×n block: the result at
      (row, col) is the cell at (col, n - 1 - row). */
  function RotatedBack(s: seq<seq<int>>, n: nat): (r: seq<seq<int>>)
    requires Readable(s, n)
    ensures |r| == n && forall i :: 0 <= i < n ==> |r[i]| == n
  {
    seq(n, i requires 0 <= i < n => seq(n, j requires 0 <= j < n => s[j][n - 1 - i]))
  }

  /** The leading n×n block of a shape: the only part any loop reads. */
  function Leading(s: seq<seq<int>>, n: nat): (r: seq<seq<int>>)
    requires Readable(s, n)
    ensures |r| == n && forall i :: 0 <= i < n ==> |r[i]| == n
  {
    seq(n, i requires 0 <= i < n => s[i][..n])
  }

  /** Clockwise rotation moves the cell at (row, col) to (col, n - 1 - row). */
  lemma RotatedMoves(s: seq<seq<int>>, n: nat, row: int, col: int)
    requires Readable(s, n) && 0 <= row < n && 0 <= col < n
    ensures Rotated(s, n)[col][n - 1 - row] == s[row][col]
  {
  }

  /** Exactly the templates other than L and J can be played. */
  lemma PlayableTemplates(index: nat)
    ensures Playable(index) <==> index < 5
  {
    if index == 5 {
      assert |Shapes[5][2]| == 2;
    }
  }

  /** Rotating back undoes a rotation, up to the leading block (which is the
      whole shape when it is square). */
  lemma {:induction false} RotateRoundTrip(s: seq<seq<int>>, n: nat)
    requires Readable(s, n)
    ensures RotatedBack(Rotated(s, n), n) == Leading(s, n)
  {
    var a := RotatedBack(Rotated(s, n), n);
    var b := Leading(s, n);
    forall i | 0 <= i < n
      ensures a[i] == b[i]
    {
      forall j | 0 <= j < n
        ensures a[i][j] == b[i][j]
      {
        assert a[i][j] == Rotated(s, n)[j][n - 1 - i];
      }
    }
  }

  /** Rotating a shape that was rotated back also gives the leading block. */
  lemma {:induction false} RotateBackRoundTrip(s: seq<seq<int>>, n: nat)
    requires Readable(s, n)
    ensures Rotated(RotatedBack(s, n), n) == Leading(s, n)
  {
    var a := Rotated(RotatedBack(s, n), n);
    var b := Leading(s, n);
    forall i | 0 <= i < n
      ensures a[i] == b[i]
    {
      forall j | 0 <= j < n
        ensures a[i][j] == b[i][j]
      {
        assert a[i][j] == RotatedBack(s, n)[n - 1 - j][i];
      }
    }
  }

  /** On a square shape the leading block is the shape itself, so there the
      round trip restores the exact shape. */
  lemma {:induction false} LeadingOfSquare(s: seq<seq<int>>, n: nat)
    requires |s| == n && forall i :: 0 <= i < n ==> |s[i]| == n
    ensures Leading(s, n) == s
  {
    forall i | 0 <= i < n
      ensures Leading(s, n)[i] == s[i]
    {
      assert s[i][..n] == s[i];
    }
  }

  /** Replacing a shape by its leading block keeps the same occupied cells. */
  lemma LeadingSameCells(p: PieceView)
    requires Wf(p)
    ensures Wf(p.(shape := Leading(p.shape, p.size)))
    ensures forall r, c :: Filled(p.(shape := Leading(p.shape, p.size)), r, c) <==> Filled(p, r, c)
  {
  }

  /** A piece object: the shape reference is replaced on rotation, the
      position is set by the engine, size and colour never change. */
  class Tetromino {
    var shape: seq<seq<int>>
    const size: nat
    var x: int
    var y: int
    const colorIndex: int

    ghost function View(): PieceView
      reads this
    {
      PieceView(shape, size, x, y, colorIndex)
    }

    constructor (shape: seq<seq<int>>, colorIndex: int)
      ensures View() == PieceView(shape, |shape|, 0, 0, colorIndex)
    {
      this.shape := shape;
      this.size := |shape|;
      this.colorIndex := colorIndex;
      this.x := 0;
      this.y := 0;
    }

    /** The generator, with the random template choice supplied by the
        caller. The colour lookup at index + 1 must stay in the table. */
    static method RandomTetromino(index: nat) returns (t: Tetromino)
      requires index < |Shapes| && index + 1 < |Colors|
      ensures fresh(t) && t.View() == Template(index)
    {
      var shape := Shapes[index];
      var colorIndex := Colors[index + 1];
      t := new Tetromino(shape, colorIndex);
    }

    /** Fills a fresh size×size matrix with the clockwise rotation and makes
        it the shape. */
    method Rotate()
      requires Readable(shape, size)
      modifies this`shape
      ensures shape == Rotated(old(shape), size)
    {
      var n := size;
      var rotated := seq(n, _ => seq(n, _ => 0));
      var row := 0;
      while row < n
        invariant 0 <= row <= n && shape == old(shape)
        invariant |rotated| == n && forall i :: 0 <= i < n ==> |rotated[i]| == n
        invariant forall i, j :: 0 <= i < n && 0 <= j < n ==>
          rotated[i][j] == if n - 1 - j < row then shape[n - 1 - j][i] else 0
      {
        var col := 0;
        while col < n
          invariant 0 <= col <= n && shape == old(shape)
          invariant |rotated| == n && forall i :: 0 <= i < n ==> |rotated[i]| == n
          invariant forall i, j :: 0 <= i < n && 0 <= j < n ==>
            rotated[i][j] == if n - 1 - j < row || (n - 1 - j == row && i < col) then shape[n - 1 - j][i] else 0
        {
          rotated := rotated[col := rotated[col][n - 1 - row := shape[row][col]]];
          col := col + 1;
        }
        row := row + 1;
      }
      forall i | 0 <= i < n
        ensures rotated[i] == Rotated(shape, n)[i]
      {
      }
      shape := rotated;
    }

    /** Fills a fresh size×size matrix with the counter-clockwise rotation and
        makes it the shape. */
    method RotateBack()
      requires Readable(shape, size)
      modifies this`shape
      ensures shape == RotatedBack(old(shape), size)
    {
      var n := size;
      var rotated := seq(n, _ => seq(n, _ => 0));
      var row := 0;
      while row < n
        invariant 0 <= row <= n && shape == old(shape)
        invariant |rotated| == n && forall i :: 0 <= i < n ==> |rotated[i]| == n
        invariant forall i, j :: 0 <= i < row && 0 <= j < n ==> rotated[i][j] == shape[j][n - 1 - i]
        invariant forall i, j :: row <= i < n && 0 <= j < n ==> rotated[i][j] == 0
      {
        var col := 0;
        while col < n
          invariant 0 <= col <= n && shape == old(shape)
          invariant |rotated| == n && forall i :: 0 <= i < n ==> |rotated[i]| == n
          invariant forall i, j :: 0 <= i < row && 0 <= j < n ==> rotated[i][j] == shape[j][n - 1 - i]
          invariant forall j :: 0 <= j < col ==> rotated[row][j] == shape[j][n - 1 - row]
          invariant forall j :: col <= j < n ==> rotated[row][j] == 0
          invariant forall i, j :: row < i < n && 0 <= j < n ==> rotated[i][j] == 0
        {
          rotated := rotated[row := rotated[row][col := shape[col][n - 1 - row]]];
          col := col + 1;
        }
        row := row + 1;
      }
      forall i | 0 <= i < n
        ensures rotated[i] == RotatedBack(shape, n)[i]
      {
      }
      shape := rotated;
    }

    method SetX(x: int)
      modifies this`x
      ensures this.x == x
    {
      this.x := x;
    }

    method SetY(y: int)
      modifies this`y
      ensures this.y == y
    {
      this.y := y;
    }
  }
}
