/** The grid: its cells, the active-piece record, collision, merging,
    the row sweep and the ghost (landing) row. */
module Grid {
  import opened Pieces

  const COLS: nat := 10
  const ROWS: nat := 20

  /** A grid cell is empty or holds the type tag of the piece locked there. */
  datatype Cell = Empty | Tag(kind: PieceType)

  type Row = seq<Cell>
  type Board = seq<Row>

  /** The active piece: its type, its current shape and the grid position of the
      shape's top-left corner (the row may be negative while it emerges). */
  datatype Piece = Piece(kind: PieceType, shape: Shape, x: int, y: int)

  predicate IsBoard(b: Board) {
    |b| == ROWS && forall r :: 0 <= r < |b| ==> |b[r]| == COLS
  }

  /** Every cell of the row is occupied. */
  predicate Full(row: Row) {
    forall c :: 0 <= c < |row| ==> row[c] != Empty
  }

  predicate NoFullRow(b: Board) {
    forall r :: 0 <= r < |b| ==> !Full(b[r])
  }

  function EmptyRow(): (row: Row)
    ensures |row| == COLS && !Full(row)
  {
    var row := seq(COLS, _ => Empty);
    assert row[0] == Empty;
    row
  }

  function EmptyRows(n: nat): seq<Row> {
    seq(n, _ => EmptyRow())
  }

  /** Builds the grid row by row. */
  method CreateEmptyBoard() returns (b: Board)
    ensures IsBoard(b) && NoFullRow(b)
    ensures forall r, c :: 0 <= r < ROWS && 0 <= c < COLS ==> b[r][c] == Empty
    ensures b == EmptyRows(ROWS)
  {
    b := [];
    var y := 0;
    while y < ROWS
      invariant 0 <= y <= ROWS
      invariant |b| == y
      invariant forall r :: 0 <= r < y ==> b[r] == EmptyRow()
    {
      b := b + [EmptyRow()];
      y := y + 1;
    }
  }

  /** A fresh piece of type `t`: the template, on row 0, horizontally centred
      (rounding to the left when the margins cannot be equal). */
  function CreatePiece(t: PieceType): (p: Piece)
    ensures p.kind == t && p.shape == Template(t) && p.y == 0
    ensures 0 <= p.x && p.x + Width(p.shape) <= COLS
    ensures p.x <= COLS - (p.x + Width(p.shape)) <= p.x + 1
  {
    TemplateWellShaped(t);
    var shape := Template(t);
    Piece(t, shape, COLS / 2 - (|shape[0]| + 1) / 2, 0)
  }

  // ---------------------------------------------------------------- collision

  /** A set shape cell landing on grid column `col`, row `row` is blocked: it lies left
      or right of the grid, below it, or on an occupied cell. Rows above the grid are
      exempt from the occupancy test. */
  predicate Blocked(b: Board, col: int, row: int)
    requires IsBoard(b)
  {
    col < 0 || col >= COLS || row >= ROWS || (row >= 0 && b[row][col] != Empty)
  }

  /** Some set cell of the piece is blocked. */
  predicate Collides(b: Board, p: Piece)
    requires IsBoard(b)
  {
    exists i, j :: 0 <= i < |p.shape| && 0 <= j < |p.shape[i]| && p.shape[i][j] && Blocked(b, p.x + j, p.y + i)
  }

  /** The collision test as the game runs it: scan the shape row by row and stop at
      the first set cell that is blocked. */
  method Collide(b: Board, p: Piece) returns (hit: bool)
    requires IsBoard(b)
    ensures hit == Collides(b, p)
  {
    var y := 0;
    while y < |p.shape|
      invariant 0 <= y <= |p.shape|
      invariant forall i, j :: 0 <= i < y && 0 <= j < |p.shape[i]| && p.shape[i][j] ==>
                  !Blocked(b, p.x + j, p.y + i)
    {
      var x := 0;
      while x < |p.shape[y]|
        invariant 0 <= x <= |p.shape[y]|
        invariant forall i, j :: 0 <= i < y && 0 <= j < |p.shape[i]| && p.shape[i][j] ==>
                    !Blocked(b, p.x + j, p.y + i)
        invariant forall j :: 0 <= j < x && p.shape[y][j] ==> !Blocked(b, p.x + j, p.y + y)
      {
        if p.shape[y][x] {
          var boardX := p.x + x;
          var boardY := p.y + y;
          if boardX < 0 || boardX >= COLS || boardY >= ROWS || (boardY >= 0 && b[boardY][boardX] != Empty) {
            assert Blocked(b, boardX, boardY);
            return true;
          }
        }
        x := x + 1;
      }
      y := y + 1;
    }
    return false;
  }

  /** A piece with a block that does not collide has its anchor above the floor. */
  lemma DropBound(b: Board, p: Piece)
    requires IsBoard(b) && HasBlock(p.shape) && !Collides(b, p)
    ensures p.y < ROWS
  {
    var i, j :| 0 <= i < |p.shape| && 0 <= j < |p.shape[i]| && p.shape[i][j];
    assert !Blocked(b, p.x + j, p.y + i);
  }

  /** A freshly created piece fits on an empty grid. */
  lemma SpawnFitsEmptyBoard(b: Board, t: PieceType)
    requires IsBoard(b)
    requires forall r, c :: 0 <= r < ROWS && 0 <= c < COLS ==> b[r][c] == Empty
    ensures !Collides(b, CreatePiece(t))
  {
    var p := CreatePiece(t);
    TemplateWellShaped(t);
    forall i, j | 0 <= i < |p.shape| && 0 <= j < |p.shape[i]| && p.shape[i][j]
      ensures !Blocked(b, p.x + j, p.y + i)
    {
      assert |p.shape[i]| == Width(p.shape);
    }
  }

  /** Rotation with the simple wall kick: the rotated shape at the first of the columns
      x, x + 1, x - 1 where it fits; the piece unchanged when it fits at none of them. */
  function Kicked(b: Board, p: Piece): (q: Piece)
    requires IsBoard(b) && IsMatrix(p.shape)
    ensures q.kind == p.kind && q.y == p.y
    ensures q == p || (q.shape == Rotated(p.shape) && p.x - 1 <= q.x <= p.x + 1)
    ensures q != p ==> !Collides(b, q)
    ensures !Collides(b, p) ==> !Collides(b, q)
  {
    var r := p.(shape := Rotated(p.shape));
    if !Collides(b, r) then r
    else if !Collides(b, r.(x := p.x + 1)) then r.(x := p.x + 1)
    else if !Collides(b, r.(x := p.x - 1)) then r.(x := p.x - 1)
    else p
  }

  /** The rotation step of the controller: rotate the shape, then try the rotated piece
      where it stands, one column to the right and one column to the left, in that order. */
  method RotateWithKick(b: Board, p: Piece) returns (q: Piece)
    requires IsBoard(b) && IsMatrix(p.shape)
    ensures q == Kicked(b, p)
  {
    var shape := Rotate(p.shape);
    var rotated := p.(shape := shape);
    assert rotated == p.(shape := Rotated(p.shape));
    q := p;
    var hit := Collide(b, rotated);
    if !hit {
      q := rotated;
    } else {
      rotated := rotated.(x := rotated.x + 1);
      hit := Collide(b, rotated);
      if !hit {
        q := rotated;
      } else {
        rotated := rotated.(x := rotated.x - 2);
        hit := Collide(b, rotated);
        if !hit {
          q := rotated;
        }
      }
    }
  }

  // ---------------------------------------------------------------- merge

  /** The piece has a set cell at grid row `row`, column `col`. */
  predicate Covers(p: Piece, row: int, col: int) {
    0 <= row - p.y < |p.shape| && 0 <= col - p.x < |p.shape[row - p.y]| && p.shape[row - p.y][col - p.x]
  }

  /** The grid after locking `p` into it: the set cells of the piece that fall inside
      the grid take the piece's tag, every other cell is as before, and cells outside
      the grid are dropped. */
  function Merged(b: Board, p: Piece): (m: Board)
    requires IsBoard(b)
    ensures IsBoard(m)
  {
    seq(ROWS, row requires 0 <= row < ROWS =>
      seq(COLS, col requires 0 <= col < COLS =>
        if Covers(p, row, col) then Tag(p.kind) else b[row][col]))
  }

  /** Merging a piece that does not collide writes only on empty cells: every locked
      cell keeps its tag, and every in-grid cell of the piece takes the piece's tag. */
  lemma MergedFillsEmptyCells(b: Board, p: Piece)
    requires IsBoard(b) && !Collides(b, p)
    ensures forall row, col :: 0 <= row < ROWS && 0 <= col < COLS && Covers(p, row, col) ==> b[row][col] == Empty
    ensures forall row, col :: 0 <= row < ROWS && 0 <= col < COLS && b[row][col] != Empty ==>
              Merged(b, p)[row][col] == b[row][col]
    ensures forall row, col :: 0 <= row < ROWS && 0 <= col < COLS && Covers(p, row, col) ==>
              Merged(b, p)[row][col] == Tag(p.kind)
  {
    forall row, col | 0 <= row < ROWS && 0 <= col < COLS && Covers(p, row, col)
      ensures b[row][col] == Empty
    {
      assert !Blocked(b, p.x + (col - p.x), p.y + (row - p.y));
    }
  }

  /** The rows of a merged grid that the piece does not reach are the old rows. */
  lemma MergedRowOutside(b: Board, p: Piece, row: int)
    requires IsBoard(b) && 0 <= row < ROWS
    requires row < p.y || row >= p.y + |p.shape|
    ensures Merged(b, p)[row] == b[row]
  {
    assert |Merged(b, p)[row]| == |b[row]|;
    forall col | 0 <= col < COLS
      ensures Merged(b, p)[row][col] == b[row][col]
    {
      assert !Covers(p, row, col);
    }
  }

  // ---------------------------------------------------------------- row sweep

  /** The rows that are not full, in their original order. */
  function NonFullRows(b: Board): (r: Board)
    ensures |r| <= |b|
    ensures NoFullRow(r)
  {
    if b == [] then []
    else (if Full(b[0]) then [] else [b[0]]) + NonFullRows(b[1..])
  }

  /** Every kept row is a row of the input. */
  lemma {:induction false} NonFullRowsFrom(b: Board)
    ensures forall i :: 0 <= i < |NonFullRows(b)| ==> NonFullRows(b)[i] in b
  {
    if b != [] {
      NonFullRowsFrom(b[1..]);
    }
  }

  /** The number of full rows. */
  function FullCount(b: Board): nat {
    |b| - |NonFullRows(b)|
  }

  /** The grid after a sweep: one empty row on top for each full row removed,
      then the remaining rows in their original order. */
  function Swept(b: Board): Board {
    EmptyRows(FullCount(b)) + NonFullRows(b)
  }

  lemma {:induction false} NonFullRowsAppend(a: Board, c: Board)
    ensures NonFullRows(a + c) == NonFullRows(a) + NonFullRows(c)
  {
    if a == [] {
      assert a + c == c;
    } else {
      assert (a + c)[0] == a[0];
      assert (a + c)[1..] == a[1..] + c;
      NonFullRowsAppend(a[1..], c);
    }
  }

  lemma {:induction false} NonFullRowsOfNoFullRow(b: Board)
    requires NoFullRow(b)
    ensures NonFullRows(b) == b
  {
    if b != [] {
      NonFullRowsOfNoFullRow(b[1..]);
    }
  }

  lemma FullCountAppend(a: Board, c: Board)
    ensures FullCount(a + c) == FullCount(a) + FullCount(c)
  {
    NonFullRowsAppend(a, c);
  }

  /** A sweep leaves a grid of the same dimensions without any full row. */
  lemma SweptIsBoard(b: Board)
    requires IsBoard(b)
    ensures IsBoard(Swept(b)) && NoFullRow(Swept(b))
    ensures FullCount(b) <= ROWS
  {
    var e := EmptyRows(FullCount(b));
    var n := NonFullRows(b);
    var s := Swept(b);
    NonFullRowsFrom(b);
    forall r | 0 <= r < |s|
      ensures |s[r]| == COLS && !Full(s[r])
    {
      if r < |e| {
        assert s[r] == EmptyRow();
      } else {
        assert s[r] == n[r - |e|];
      }
    }
  }

  /** Sweeping twice is the same as sweeping once. */
  lemma SweptIdempotent(b: Board)
    requires IsBoard(b)
    ensures Swept(Swept(b)) == Swept(b)
  {
    SweptIsBoard(b);
    NonFullRowsOfNoFullRow(Swept(b));
    assert EmptyRows(0) + Swept(b) == Swept(b);
  }

  /** An intermediate grid of the bottom-up sweep of `b0`: `c` empty rows on top, then
      the first `m` rows of `b0` (not yet scanned), then the non-full rows among the rest. */
  function SweepState(b0: Board, m: nat, c: nat): (s: Board)
    requires m <= |b0|
    ensures |s| == c + m + |NonFullRows(b0[m..])|
  {
    EmptyRows(c) + b0[..m] + NonFullRows(b0[m..])
  }

  lemma SweepStateAt(b0: Board, m: nat, c: nat, y: nat)
    requires m <= |b0| && y < c + m
    ensures SweepState(b0, m, c)[y] == if y < c then EmptyRow() else b0[y - c]
  {
  }

  /** Removing the full row at the scan position and putting an empty row on top moves the
      boundary up by one original row and adds one empty row. */
  lemma SweepRemoveStep(b0: Board, m: nat, c: nat)
    requires 0 < m <= |b0| && Full(b0[m - 1])
    ensures var s := SweepState(b0, m, c);
            [EmptyRow()] + s[..c + m - 1] + s[c + m..] == SweepState(b0, m - 1, c + 1)
  {
    var s := SweepState(b0, m, c);
    assert b0[m - 1..][1..] == b0[m..];
    assert NonFullRows(b0[m - 1..]) == NonFullRows(b0[m..]);
    assert s[..c + m - 1] == EmptyRows(c) + b0[..m - 1];
    assert s[c + m..] == NonFullRows(b0[m..]);
    assert [EmptyRow()] + EmptyRows(c) == EmptyRows(c + 1);
  }

  /** Passing a row that is not full moves the boundary up without changing the grid. */
  lemma SweepKeepStep(b0: Board, m: nat, c: nat)
    requires 0 < m <= |b0| && !Full(b0[m - 1])
    ensures SweepState(b0, m, c) == SweepState(b0, m - 1, c)
  {
    assert b0[m - 1..][1..] == b0[m..];
    assert NonFullRows(b0[m - 1..]) == [b0[m - 1]] + NonFullRows(b0[m..]);
    assert b0[..m] == b0[..m - 1] + [b0[m - 1]];
  }

  /** One step of the bottom-up sweep at scan position `y` of the intermediate grid `s`:
      a full row there is an original row, and removing it (an empty row goes on top)
      reaches the next intermediate grid; a row that is not full is passed over. */
  lemma SweepStep(b0: Board, m: nat, c: nat, y: int, s: Board)
    requires m <= |b0| && 0 <= y && y + 1 <= c + m && (m > 0 ==> y + 1 == c + m)
    requires s == SweepState(b0, m, c)
    ensures y < |s|
    ensures Full(s[y]) ==> m > 0 && [EmptyRow()] + s[..y] + s[y + 1..] == SweepState(b0, m - 1, c + 1)
    ensures !Full(s[y]) && m > 0 ==> s == SweepState(b0, m - 1, c)
  {
    SweepStateAt(b0, m, c, y);
    if m > 0 {
      assert s[y] == b0[m - 1];
      if Full(s[y]) {
        SweepRemoveStep(b0, m, c);
      } else {
        SweepKeepStep(b0, m, c);
      }
    } else {
      assert s[y] == EmptyRow();
    }
  }

  /** Once every original row has been scanned, the grid is the swept grid. */
  lemma SweepStateDone(b0: Board, c: nat)
    requires |SweepState(b0, 0, c)| == |b0|
    ensures SweepState(b0, 0, c) == Swept(b0) && c == FullCount(b0)
  {
    assert b0[..0] == [] && b0[0..] == b0;
  }

  /** A grid whose only full row is `r` loses exactly that row and gains an empty row on top. */
  lemma SweptSingleFullRow(b: Board, r: nat)
    requires IsBoard(b) && r < ROWS && Full(b[r])
    requires forall i :: 0 <= i < ROWS && i != r ==> !Full(b[i])
    ensures FullCount(b) == 1
    ensures Swept(b) == [EmptyRow()] + b[..r] + b[r + 1..]
  {
    assert b == b[..r] + ([b[r]] + b[r + 1..]);
    NonFullRowsAppend(b[..r], [b[r]] + b[r + 1..]);
    NonFullRowsAppend([b[r]], b[r + 1..]);
    NonFullRowsOfNoFullRow(b[..r]);
    NonFullRowsOfNoFullRow(b[r + 1..]);
    assert [b[r]][1..] == [];
    assert NonFullRows([b[r]]) == [];
    assert EmptyRows(1) == [EmptyRow()];
  }

  /** Locking a piece into a grid without full rows can fill only rows that the piece
      reaches, so at most as many rows as the shape is tall become full. */
  lemma MergedFullRows(b: Board, p: Piece)
    requires IsBoard(b) && NoFullRow(b)
    ensures FullCount(Merged(b, p)) <= |p.shape|
  {
    var m := Merged(b, p);
    var lo := if p.y < 0 then 0 else if p.y > ROWS then ROWS else p.y;
    var top := p.y + |p.shape|;
    var hi := if top < lo then lo else if top > ROWS then ROWS else top;
    assert m == m[..lo] + m[lo..hi] + m[hi..];
    forall r | 0 <= r < lo ensures !Full(m[..lo][r]) {
      MergedRowOutside(b, p, r);
    }
    forall r | 0 <= r < ROWS - hi ensures !Full(m[hi..][r]) {
      MergedRowOutside(b, p, hi + r);
    }
    NonFullRowsOfNoFullRow(m[..lo]);
    NonFullRowsOfNoFullRow(m[hi..]);
    FullCountAppend(m[..lo] + m[lo..hi], m[hi..]);
    FullCountAppend(m[..lo], m[lo..hi]);
  }

  // ---------------------------------------------------------------- landing row

  /** The row on which the piece comes to rest when it keeps falling straight down
      from where it is, with its current shape and column. */
  function Landing(b: Board, p: Piece): (y: int)
    requires IsBoard(b) && HasBlock(p.shape)
    ensures y >= p.y
    decreases ROWS - p.y
  {
    var down := p.(y := p.y + 1);
    if Collides(b, down) then p.y
    else
      DropBound(b, down);
      Landing(b, down)
  }

  /** One free step down does not change where the piece lands. */
  lemma LandingStep(b: Board, p: Piece)
    requires IsBoard(b) && HasBlock(p.shape) && !Collides(b, p.(y := p.y + 1))
    ensures p.y + 1 < ROWS
    ensures Landing(b, p.(y := p.y + 1)) == Landing(b, p)
  {
    DropBound(b, p.(y := p.y + 1));
  }

  /** The landing row is the first row from which one more step down collides;
      every row passed on the way down is free. */
  lemma {:induction false} LandingRests(b: Board, p: Piece)
    requires IsBoard(b) && HasBlock(p.shape)
    ensures Collides(b, p.(y := Landing(b, p) + 1))
    ensures forall k :: p.y < k <= Landing(b, p) ==> !Collides(b, p.(y := k))
    decreases ROWS - p.y
  {
    var down := p.(y := p.y + 1);
    if !Collides(b, down) {
      DropBound(b, down);
      LandingRests(b, down);
      assert down.(y := Landing(b, p) + 1) == p.(y := Landing(b, p) + 1);
      forall k | p.y < k <= Landing(b, p)
        ensures !Collides(b, p.(y := k))
      {
        assert p.(y := k) == down.(y := k);
      }
    }
  }

  /** The ghost-piece search of the renderer: the lowest row the piece can reach. */
  method GhostRow(b: Board, p: Piece) returns (gy: int)
    requires IsBoard(b) && HasBlock(p.shape)
    ensures gy >= p.y && gy == Landing(b, p)
    ensures Collides(b, p.(y := gy + 1))
    ensures forall k :: p.y < k <= gy ==> !Collides(b, p.(y := k))
  {
    var shadow := p;
    var hit := Collide(b, shadow.(y := shadow.y + 1));
    while !hit
      invariant shadow == p.(y := shadow.y) && shadow.y >= p.y
      invariant Landing(b, shadow) == Landing(b, p)
      invariant hit == Collides(b, shadow.(y := shadow.y + 1))
      decreases ROWS - shadow.y
    {
      DropBound(b, shadow.(y := shadow.y + 1));
      shadow := shadow.(y := shadow.y + 1);
      hit := Collide(b, shadow.(y := shadow.y + 1));
    }
    gy := shadow.y;
    LandingRests(b, p);
  }
}
