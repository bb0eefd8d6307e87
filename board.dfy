/** The board as a value: a 22×10 grid of colour indices (row 0 at the top,
    0 meaning empty), the collision test, locking a piece into the grid,
    clearing full rows and compacting empty rows. */
module Board {
  import opened Pieces

  const Width := 10
  const Height := 22   // two hidden spawn rows above twenty visible ones

  type Row = seq<int>
  type Grid = seq<Row>

  predicate IsGrid(g: Grid)
  {
    |g| == Height && forall r :: 0 <= r < Height ==> |g[r]| == Width
  }

  /** Every cell of the row holds a colour index in [0, 7]. */
  predicate ColoursOk(row: Row)
  {
    forall c :: 0 <= c < |row| ==> 0 <= row[c] <= 7
  }

  predicate InRange(g: Grid)
  {
    forall r :: 0 <= r < |g| ==> ColoursOk(g[r])
  }

  predicate IsFull(row: Row)
  {
    forall c :: 0 <= c < |row| ==> row[c] != 0
  }

  predicate IsEmpty(row: Row)
  {
    forall c :: 0 <= c < |row| ==> row[c] == 0
  }

  function Zeros(): (row: Row)
    ensures |row| == Width && IsEmpty(row) && ColoursOk(row)
  {
    seq(Width, _ => 0)
  }

  function ZeroRows(k: nat): (rows: seq<Row>)
    ensures |rows| == k && forall i :: 0 <= i < k ==> rows[i] == Zeros()
  {
    seq(k, _ => Zeros())
  }

  /** The board as the game allocates it: every cell empty. */
  function EmptyGrid(): (g: Grid)
    ensures IsGrid(g) && InRange(g)
    ensures forall r, c :: 0 <= r < Height && 0 <= c < Width ==> g[r][c] == 0
  {
    ZeroRows(Height)
  }

  // ---------------------------------------------------------------------
  // Collision test and locking

  /** The collision and bounds test: every occupied cell of the piece's
      leading block, moved by (dx, dy), lies in a column of [0, Width), in a
      row below Height, on an empty cell. There is no test against the top
      row; the piece row y and the offset dy are never negative. */
  ghost predicate Fits(g: Grid, p: PieceView, dx: int, dy: int)
    requires IsGrid(g) && Wf(p) && p.y >= 0 && dy >= 0
  {
    forall r, c | Filled(p, r, c) ::
      0 <= p.x + c + dx < Width && p.y + r + dy < Height && g[p.y + r + dy][p.x + c + dx] == 0
  }

  /** Every occupied cell of the piece lies on the board. */
  ghost predicate InGrid(p: PieceView)
    requires Wf(p)
  {
    forall r, c | Filled(p, r, c) :: 0 <= p.x + c < Width && 0 <= p.y + r < Height
  }

  /** Board cell (i, j) lies under an occupied cell of the piece. */
  predicate Covers(p: PieceView, i: int, j: int)
    requires Wf(p)
  {
    Filled(p, i - p.y, j - p.x)
  }

  /** The grid after a piece is locked at its position. */
  function Place(g: Grid, p: PieceView): (r: Grid)
    requires IsGrid(g) && Wf(p)
    ensures IsGrid(r)
  {
    seq(Height, i requires 0 <= i < Height =>
      seq(Width, j requires 0 <= j < Width => if Covers(p, i, j) then p.color else g[i][j]))
  }

  /** Moving the piece by (dx, dy) and testing at offset zero is the same as
      testing at offset (dx, dy). */
  lemma FitsShift(g: Grid, p: PieceView, dx: int, dy: int)
    requires IsGrid(g) && Wf(p) && p.y >= 0 && dy >= 0
    ensures Fits(g, p, dx, dy) == Fits(g, p.(x := p.x + dx, y := p.y + dy), 0, 0)
  {
    var q := p.(x := p.x + dx, y := p.y + dy);
    assert forall r, c :: Filled(q, r, c) == Filled(p, r, c);
  }

  /** A piece that fits at an offset lies on the board once moved there. */
  lemma FitsInGrid(g: Grid, p: PieceView, dx: int, dy: int)
    requires IsGrid(g) && Wf(p) && p.y >= 0 && dy >= 0
    requires Fits(g, p, dx, dy)
    ensures InGrid(p.(x := p.x + dx, y := p.y + dy))
  {
    var q := p.(x := p.x + dx, y := p.y + dy);
    assert forall r, c :: Filled(q, r, c) == Filled(p, r, c);
  }

  /** On the empty board, a piece fits wherever it lies on the board. */
  lemma EmptyFits(p: PieceView)
    requires Wf(p) && p.y >= 0 && InGrid(p)
    ensures Fits(EmptyGrid(), p, 0, 0)
  {
  }

  /** Locking writes the colour index exactly under the occupied cells of the
      piece and leaves every other cell as it was. */
  lemma PlaceWrites(g: Grid, p: PieceView)
    requires IsGrid(g) && Wf(p) && InGrid(p)
    ensures forall r, c | Filled(p, r, c) :: Place(g, p)[p.y + r][p.x + c] == p.color
    ensures forall i, j | 0 <= i < Height && 0 <= j < Width ::
      (exists r, c :: Filled(p, r, c) && i == p.y + r && j == p.x + c) || Place(g, p)[i][j] == g[i][j]
  {
    forall i, j | 0 <= i < Height && 0 <= j < Width && Place(g, p)[i][j] != g[i][j]
      ensures exists r, c :: Filled(p, r, c) && i == p.y + r && j == p.x + c
    {
      assert Filled(p, i - p.y, j - p.x);
    }
  }

  /** Locking keeps every cell in [0, 7] when the colour index is. */
  lemma PlaceInRange(g: Grid, p: PieceView)
    requires IsGrid(g) && Wf(p) && InRange(g) && 0 <= p.color <= 7
    ensures InRange(Place(g, p))
  {
    forall i | 0 <= i < Height
      ensures ColoursOk(Place(g, p)[i])
    {
      assert ColoursOk(g[i]);
    }
  }

  /** Once locked, a piece with an occupied cell and a non-zero colour no
      longer fits where it stands: it sits on its own cells. */
  lemma PlacedPieceCollides(g: Grid, p: PieceView, r: int, c: int)
    requires IsGrid(g) && Wf(p) && p.y >= 0 && InGrid(p) && p.color != 0
    requires Filled(p, r, c)
    ensures !Fits(Place(g, p), p, 0, 0)
  {
    assert Place(g, p)[p.y + r][p.x + c] == p.color;
  }

  // ---------------------------------------------------------------------
  // Row removal

  /** Removing a row: each row above it moves down by one and row 0 becomes
      empty; the rows below it stay. */
  function ShiftDown(g: Grid, row: int): (r: Grid)
    requires IsGrid(g) && 0 <= row < Height
    ensures IsGrid(r)
  {
    seq(Height, i requires 0 <= i < Height =>
      if i == 0 then Zeros() else if i <= row then g[i - 1] else g[i])
  }

  /** Shifting down drops the given row and adds an empty row on top. */
  lemma ShiftDownDropsRow(g: Grid, row: int)
    requires IsGrid(g) && 0 <= row < Height
    ensures ShiftDown(g, row) == [Zeros()] + g[..row] + g[row + 1..]
  {
    var r := ShiftDown(g, row);
    var s := [Zeros()] + g[..row] + g[row + 1..];
    assert |r| == |s|;
    forall i | 0 <= i < Height
      ensures r[i] == s[i]
    {
      if 0 < i <= row {
        assert s[i] == g[..row][i - 1];
      } else if i > row {
        assert s[i] == g[row + 1..][i - 1 - row];
      }
    }
  }

  /** As a multiset of rows: the removed row goes, one empty row comes. */
  lemma ShiftDownMultiset(g: Grid, row: int)
    requires IsGrid(g) && 0 <= row < Height
    ensures multiset(ShiftDown(g, row)) == multiset(g) - multiset{g[row]} + multiset{Zeros()}
  {
    ShiftDownDropsRow(g, row);
    assert g == g[..row] + [g[row]] + g[row + 1..];
  }

  lemma ShiftDownInRange(g: Grid, row: int)
    requires IsGrid(g) && 0 <= row < Height && InRange(g)
    ensures InRange(ShiftDown(g, row))
  {
    forall i | 0 <= i < Height
      ensures ColoursOk(ShiftDown(g, row)[i])
    {
      if 0 < i <= row {
        assert ColoursOk(g[i - 1]);
      } else if i > row {
        assert ColoursOk(g[i]);
      }
    }
  }

  predicate RowIndices(rows: seq<int>)
  {
    forall k :: 0 <= k < |rows| ==> 0 <= rows[k] < Height
  }

  /** Removes the given rows one after another, each index applied to the
      grid as the previous removals left it. */
  function RemoveAll(g: Grid, rows: seq<int>): (r: Grid)
    requires IsGrid(g) && RowIndices(rows)
    ensures IsGrid(r)
    decreases |rows|
  {
    if rows == [] then g else RemoveAll(ShiftDown(g, rows[0]), rows[1..])
  }

  lemma {:induction false} RemoveAllInRange(g: Grid, rows: seq<int>)
    requires IsGrid(g) && RowIndices(rows) && InRange(g)
    ensures InRange(RemoveAll(g, rows))
    decreases |rows|
  {
    if rows != [] {
      ShiftDownInRange(g, rows[0]);
      RemoveAllInRange(ShiftDown(g, rows[0]), rows[1..]);
    }
  }

  /** The full rows among rows 0 .. n-1, listed from the bottom up. */
  function FullRowsBelow(g: Grid, n: int): (rows: seq<int>)
    requires IsGrid(g) && 0 <= n <= Height
    ensures forall k :: 0 <= k < |rows| ==> 0 <= rows[k] < n
    decreases n
  {
    if n == 0 then []
    else (if IsFull(g[n - 1]) then [n - 1] else []) + FullRowsBelow(g, n - 1)
  }

  /** The rows the bottom-to-top scan records as full. */
  function FullRows(g: Grid): (rows: seq<int>)
    requires IsGrid(g)
    ensures RowIndices(rows)
  {
    FullRowsBelow(g, Height)
  }

  /** One step of a bottom-up scan: recording row `row` when it is full
      keeps the recorded rows followed by the full rows below the scan
      position the same list. */
  lemma {:induction false} ScanStep(g: Grid, found: seq<int>, row: int)
    requires IsGrid(g) && 0 <= row < Height
    ensures (found + if IsFull(g[row]) then [row] else []) + FullRowsBelow(g, row)
         == found + FullRowsBelow(g, row + 1)
  {
    var below := FullRowsBelow(g, row);
    if IsFull(g[row]) {
      assert found + ([row] + below) == (found + [row]) + below;
    } else {
      assert [] + below == below;
      assert found + [] == found;
    }
  }

  /** The grid after the line clear: the recorded indices are applied one by
      one without adjusting for the shifts the earlier removals made. */
  function Cleared(g: Grid): (r: Grid)
    requires IsGrid(g)
    ensures IsGrid(r)
  {
    RemoveAll(g, FullRows(g))
  }

  /** The scan records each full row exactly once, from the bottom up, and
      nothing else: one score bonus per full row. */
  lemma FullRowsExact(g: Grid, n: int)
    requires IsGrid(g) && 0 <= n <= Height
    ensures forall x :: x in FullRowsBelow(g, n) <==> 0 <= x < n && IsFull(g[x])
    ensures forall i, j :: 0 <= i < j < |FullRowsBelow(g, n)| ==> FullRowsBelow(g, n)[i] > FullRowsBelow(g, n)[j]
  {
    FullRowsMembers(g, n);
    FullRowsDescending(g, n);
  }

  /** An index is recorded below n exactly when it is below n and its row is full. */
  lemma {:induction false} FullRowsMembers(g: Grid, n: int)
    requires IsGrid(g) && 0 <= n <= Height
    ensures forall x :: x in FullRowsBelow(g, n) <==> 0 <= x < n && IsFull(g[x])
    decreases n
  {
    if n > 0 {
      FullRowsMembers(g, n - 1);
      var rest := FullRowsBelow(g, n - 1);
      var head: seq<int> := if IsFull(g[n - 1]) then [n - 1] else [];
      assert FullRowsBelow(g, n) == head + rest;
      forall x
        ensures x in head + rest <==> 0 <= x < n && IsFull(g[x])
      {
        assert x in head + rest <==> x in head || x in rest;
      }
    }
  }

  /** The recorded indices strictly decrease: the scan goes bottom up. */
  lemma {:induction false} FullRowsDescending(g: Grid, n: int)
    requires IsGrid(g) && 0 <= n <= Height
    ensures forall i, j :: 0 <= i < j < |FullRowsBelow(g, n)| ==> FullRowsBelow(g, n)[i] > FullRowsBelow(g, n)[j]
    decreases n
  {
    if n > 0 {
      FullRowsDescending(g, n - 1);
      var rest := FullRowsBelow(g, n - 1);
      if IsFull(g[n - 1]) {
        assert forall k :: 0 <= k < |rest| ==> rest[k] < n - 1;
        PrependDescending(n - 1, rest);
        assert FullRowsBelow(g, n) == [n - 1] + rest;
      } else {
        assert FullRowsBelow(g, n) == rest;
      }
    }
  }

  /** Putting a larger index in front of a strictly decreasing list keeps it
      strictly decreasing. */
  lemma PrependDescending(x: int, rest: seq<int>)
    requires forall k :: 0 <= k < |rest| ==> rest[k] < x
    requires forall i, j :: 0 <= i < j < |rest| ==> rest[i] > rest[j]
    ensures forall i, j :: 0 <= i < j < |[x] + rest| ==> ([x] + rest)[i] > ([x] + rest)[j]
  {
    var rows := [x] + rest;
    forall i, j | 0 <= i < j < |rows|
      ensures rows[i] > rows[j]
    {
      assert rows[j] == rest[j - 1];
      if i > 0 {
        assert rows[i] == rest[i - 1];
      }
    }
  }

  /** Rows m .. n-1 not being full, the scan records below n what it
      records below m. */
  lemma {:induction false} FullRowsSkip(g: Grid, m: int, n: int)
    requires IsGrid(g) && 0 <= m <= n <= Height
    requires forall r :: m <= r < n ==> !IsFull(g[r])
    ensures FullRowsBelow(g, n) == FullRowsBelow(g, m)
    decreases n
  {
    if n > m {
      FullRowsSkip(g, m, n - 1);
    }
  }

  /** With no full row the line clear scores nothing and changes nothing. */
  lemma NoFullRowUnchanged(g: Grid)
    requires IsGrid(g) && forall r :: 0 <= r < Height ==> !IsFull(g[r])
    ensures FullRows(g) == [] && Cleared(g) == g
  {
    FullRowsSkip(g, 0, Height);
  }

  /** A single full row is removed as expected: the rows above it move down
      one and an empty row appears on top. */
  lemma SingleFullRow(g: Grid, k: int)
    requires IsGrid(g) && 0 <= k < Height && IsFull(g[k])
    requires forall r :: 0 <= r < Height && r != k ==> !IsFull(g[r])
    ensures FullRows(g) == [k]
    ensures Cleared(g) == [Zeros()] + g[..k] + g[k + 1..]
  {
    FullRowsSkip(g, k + 1, Height);
    FullRowsSkip(g, 0, k);
    assert FullRows(g) == [k];
    ShiftDownDropsRow(g, k);
    assert Cleared(g) == RemoveAll(ShiftDown(g, k), []);
  }

  /** Two full rows at the bottom (20 and 21) over no other full row: the
      clear scores both, but the second removal uses the stale index 20, so
      the original row 20 (still full) ends at the bottom and the non-full
      original row 19 is lost instead. */
  lemma StaleIndices(g: Grid)
    requires IsGrid(g) && IsFull(g[20]) && IsFull(g[21])
    requires forall r :: 0 <= r < 20 ==> !IsFull(g[r])
    ensures FullRows(g) == [21, 20]
    ensures Cleared(g) == [Zeros(), Zeros()] + g[..19] + [g[20]]
    ensures IsFull(Cleared(g)[Height - 1])
  {
    assert FullRows(g) == [21, 20] by {
      FullRowsSkip(g, 0, 20);
    }
    var g1 := ShiftDown(g, 21);
    assert Cleared(g) == ShiftDown(g1, 20) by {
      assert Cleared(g) == RemoveAll(g1, [20]);
      assert RemoveAll(g1, [20]) == RemoveAll(ShiftDown(g1, 20), []);
    }
    RemoveBottomTwice(g);
    assert Cleared(g)[Height - 1] == g[20];
  }

  /** The removals at index 21 and then at index 20. */
  lemma RemoveBottomTwice(g: Grid)
    requires IsGrid(g)
    ensures ShiftDown(ShiftDown(g, 21), 20) == [Zeros(), Zeros()] + g[..19] + [g[20]]
  {
    var g1 := ShiftDown(g, 21);
    ShiftDownDropsRow(g, 21);
    assert g1 == [Zeros()] + g[..21];
    ShiftDownDropsRow(g1, 20);
    assert g1[..20] == [Zeros()] + g[..19];
    assert g1[21..] == [g[20]];
  }

  // ---------------------------------------------------------------------
  // Compacting empty rows

  /** The top-to-bottom pass that removes every empty row it meets, from row
      `row` on, each time on the grid as the previous removals left it. */
  function CompactFrom(g: Grid, row: int): (r: Grid)
    requires IsGrid(g) && 0 <= row <= Height
    ensures IsGrid(r)
    decreases Height - row
  {
    if row == Height then g
    else CompactFrom(if IsEmpty(g[row]) then ShiftDown(g, row) else g, row + 1)
  }

  function Compact(g: Grid): (r: Grid)
    requires IsGrid(g)
    ensures IsGrid(r)
  {
    CompactFrom(g, 0)
  }

  /** The non-empty rows of a stack of rows, top to bottom. */
  function NonEmptyRows(s: seq<Row>): (r: seq<Row>)
    ensures |r| <= |s|
    ensures forall k :: 0 <= k < |r| ==> !IsEmpty(r[k]) && r[k] in s
  {
    if s == [] then []
    else NonEmptyRows(s[..|s| - 1]) + (if IsEmpty(s[|s| - 1]) then [] else [s[|s| - 1]])
  }

  /** The pass has handled the rows above `row`: they hold the empty rows
      found so far on top of the non-empty rows of g0 above `row`, in order,
      and the rest of g is still g0. */
  ghost predicate CompactedUpTo(g0: Grid, g: Grid, row: int)
    requires IsGrid(g0) && IsGrid(g) && 0 <= row <= Height
  {
    |NonEmptyRows(g0[..row])| <= row &&
    g[..row] == ZeroRows(row - |NonEmptyRows(g0[..row])|) + NonEmptyRows(g0[..row]) &&
    g[row..] == g0[row..]
  }

  /** One step of the pass keeps CompactedUpTo. */
  lemma CompactStep(g0: Grid, g: Grid, row: int)
    requires IsGrid(g0) && IsGrid(g) && 0 <= row < Height && CompactedUpTo(g0, g, row)
    ensures CompactedUpTo(g0, if IsEmpty(g[row]) then ShiftDown(g, row) else g, row + 1)
  {
    var s := g0[..row + 1];
    assert s[..|s| - 1] == g0[..row];
    assert g[row] == g0[row] by {
      assert g[row..][0] == g0[row..][0];
    }
    if IsEmpty(g[row]) {
      CompactStepEmpty(g0, g, row);
    } else {
      CompactStepKept(g0, g, row);
    }
  }

  lemma CompactStepEmpty(g0: Grid, g: Grid, row: int)
    requires IsGrid(g0) && IsGrid(g) && 0 <= row < Height && CompactedUpTo(g0, g, row)
    requires IsEmpty(g0[row]) && NonEmptyRows(g0[..row + 1]) == NonEmptyRows(g0[..row])
    ensures CompactedUpTo(g0, ShiftDown(g, row), row + 1)
  {
    var n := NonEmptyRows(g0[..row]);
    var k := row - |n|;
    var h := ShiftDown(g, row);
    assert h[..row + 1] == ZeroRows(k + 1) + n by {
      ShiftDownSplit(g, row);
      ZeroRowsCons(k);
      assert [Zeros()] + (ZeroRows(k) + n) == ([Zeros()] + ZeroRows(k)) + n;
    }
    assert h[row + 1..] == g0[row + 1..] by {
      ShiftDownSplit(g, row);
      assert g[row + 1..] == g[row..][1..];
      assert g0[row + 1..] == g0[row..][1..];
    }
  }

  /** The rows of ShiftDown(g, row) down to `row` are a zero row over the
      rows of g above `row`; the rows below are those of g. */
  lemma ShiftDownSplit(g: Grid, row: int)
    requires IsGrid(g) && 0 <= row < Height
    ensures ShiftDown(g, row)[..row + 1] == [Zeros()] + g[..row]
    ensures ShiftDown(g, row)[row + 1..] == g[row + 1..]
  {
  }

  lemma CompactStepKept(g0: Grid, g: Grid, row: int)
    requires IsGrid(g0) && IsGrid(g) && 0 <= row < Height && CompactedUpTo(g0, g, row)
    requires g[row] == g0[row]
    requires NonEmptyRows(g0[..row + 1]) == NonEmptyRows(g0[..row]) + [g0[row]]
    ensures CompactedUpTo(g0, g, row + 1)
  {
    assert g[..row + 1] == g[..row] + [g[row]];
    assert g[row + 1..] == g0[row..][1..];
  }

  lemma ZeroRowsCons(k: nat)
    ensures ZeroRows(k + 1) == [Zeros()] + ZeroRows(k)
  {
  }

  lemma {:induction false} CompactFromShape(g0: Grid, g: Grid, row: int)
    requires IsGrid(g0) && IsGrid(g) && 0 <= row <= Height && CompactedUpTo(g0, g, row)
    ensures CompactFrom(g, row) == ZeroRows(Height - |NonEmptyRows(g0)|) + NonEmptyRows(g0)
    decreases Height - row
  {
    if row == Height {
      assert g0[..row] == g0;
      assert g[..row] == g;
    } else {
      CompactStep(g0, g, row);
      CompactFromShape(g0, if IsEmpty(g[row]) then ShiftDown(g, row) else g, row + 1);
    }
  }

  /** After the pass the empty rows are all on top, above the non-empty rows
      in their original order. */
  lemma CompactShape(g: Grid)
    requires IsGrid(g)
    ensures Compact(g) == ZeroRows(Height - |NonEmptyRows(g)|) + NonEmptyRows(g)
  {
    assert g[..0] == [];
    assert g[0..] == g;
    CompactFromShape(g, g, 0);
  }

  lemma {:induction false} NonEmptyRowsAppend(a: seq<Row>, b: seq<Row>)
    ensures NonEmptyRows(a + b) == NonEmptyRows(a) + NonEmptyRows(b)
    decreases |b|
  {
    if b == [] {
      assert a + b == a;
    } else {
      var b' := b[..|b| - 1];
      assert (a + b)[..|a + b| - 1] == a + b';
      NonEmptyRowsAppend(a, b');
    }
  }

  lemma {:induction false} NonEmptyRowsOfZeros(k: nat)
    ensures NonEmptyRows(ZeroRows(k)) == []
  {
    if k > 0 {
      assert ZeroRows(k)[..k - 1] == ZeroRows(k - 1);
      NonEmptyRowsOfZeros(k - 1);
    }
  }

  lemma {:induction false} NonEmptyRowsIdempotent(s: seq<Row>)
    requires forall k :: 0 <= k < |s| ==> !IsEmpty(s[k])
    ensures NonEmptyRows(s) == s
  {
    if s != [] {
      NonEmptyRowsIdempotent(s[..|s| - 1]);
      assert s[..|s| - 1] + [s[|s| - 1]] == s;
    }
  }

  /** No empty row lies below a non-empty row after the pass. */
  lemma CompactLeavesNoGap(g: Grid)
    requires IsGrid(g)
    ensures forall i, j :: 0 <= i < j < Height && !IsEmpty(Compact(g)[i]) ==> !IsEmpty(Compact(g)[j])
  {
    CompactShape(g);
  }

  /** The pass keeps the non-empty rows: their contents, their number and
      their top-to-bottom order. */
  lemma CompactKeepsRows(g: Grid)
    requires IsGrid(g)
    ensures NonEmptyRows(Compact(g)) == NonEmptyRows(g)
  {
    CompactShape(g);
    var n := NonEmptyRows(g);
    NonEmptyRowsAppend(ZeroRows(Height - |n|), n);
    NonEmptyRowsOfZeros(Height - |n|);
    NonEmptyRowsIdempotent(n);
  }

  lemma CompactInRange(g: Grid)
    requires IsGrid(g) && InRange(g)
    ensures InRange(Compact(g))
  {
    CompactShape(g);
    var n := NonEmptyRows(g);
    var z := Height - |n|;
    forall i | 0 <= i < Height
      ensures ColoursOk(Compact(g)[i])
    {
      if i >= z {
        assert Compact(g)[i] == n[i - z];
        assert n[i - z] in g;
      }
    }
  }

  /** On the empty board the pass changes nothing. */
  lemma CompactEmpty()
    ensures Compact(EmptyGrid()) == EmptyGrid()
  {
    CompactShape(EmptyGrid());
    NonEmptyRowsAppend(ZeroRows(0), EmptyGrid());
    NonEmptyRowsOfZeros(Height);
    assert ZeroRows(Height) + [] == EmptyGrid();
  }
}
