/** The piece catalogue: the seven shape templates and the 90° clockwise rotation. */
module Pieces {

  datatype PieceType = I | J | L | O | S | Z | T

  /** A shape is a bitmask matrix; `true` marks an occupied cell. */
  type Shape = seq<seq<bool>>

  /** A non-empty rectangular matrix with at least one column. */
  predicate IsMatrix(m: Shape) {
    |m| > 0 && |m[0]| > 0 && forall i :: 0 <= i < |m| ==> |m[i]| == |m[0]|
  }

  function Width(m: Shape): nat
    requires IsMatrix(m)
  {
    |m[0]|
  }

  /** Some cell of the shape is occupied. */
  predicate HasBlock(m: Shape) {
    exists i, j :: 0 <= i < |m| && 0 <= j < |m[i]| && m[i][j]
  }

  /** What every template has and rotation keeps: a square of side at most 4 with a block. */
  predicate WellShaped(m: Shape) {
    IsMatrix(m) && |m| == Width(m) <= 4 && HasBlock(m)
  }

  /** The template of each piece type, as the catalogue lists it. */
  function Template(t: PieceType): (s: Shape)
    ensures IsMatrix(s) && |s| == Width(s)
    ensures |s| == (if t == I then 4 else if t == O then 2 else 3)
  {
    match t
    case I => [[false, false, false, false],
               [true,  true,  true,  true ],
               [false, false, false, false],
               [false, false, false, false]]
    case J => [[true,  false, false],
               [true,  true,  true ],
               [false, false, false]]
    case L => [[false, false, true ],
               [true,  true,  true ],
               [false, false, false]]
    case O => [[true, true],
               [true, true]]
    case S => [[false, true,  true ],
               [true,  true,  false],
               [false, false, false]]
    case T => [[false, true,  false],
               [true,  true,  true ],
               [false, false, false]]
    case Z => [[true,  true,  false],
               [false, true,  true ],
               [false, false, false]]
  }

  lemma TemplateWellShaped(t: PieceType)
    ensures WellShaped(Template(t))
    ensures Width(Template(t)) == (if t == I then 4 else if t == O then 2 else 3)
  {
    var m := Template(t);
    match t
    case I => assert m[1][0];
    case J => assert m[0][0];
    case L => assert m[1][0];
    case O => assert m[0][0];
    case S => assert m[1][0];
    case T => assert m[1][0];
    case Z => assert m[0][0];
  }

  /** Specification of the rotation: an r×c matrix becomes a c×r matrix whose
      row x, column j is the input's row r-1-j, column x. */
  function Rotated(m: Shape): (res: Shape)
    requires IsMatrix(m)
    ensures IsMatrix(res) && |res| == Width(m) && Width(res) == |m|
  {
    seq(|m[0]|, x requires 0 <= x < |m[0]| =>
      seq(|m|, j requires 0 <= j < |m| => m[|m| - 1 - j][x]))
  }

  /** The rotation as the game computes it: one output row per input column,
      filled by walking the input rows from the bottom up. */
  method Rotate(m: Shape) returns (res: Shape)
    requires IsMatrix(m)
    ensures |res| == Width(m)
    ensures forall x :: 0 <= x < |res| ==> |res[x]| == |m|
    ensures res == Rotated(m)
  {
    var rows := |m|;
    var cols := |m[0]|;
    res := [];
    var x := 0;
    while x < cols
      invariant 0 <= x <= cols
      invariant |res| == x
      invariant forall i :: 0 <= i < x ==> |res[i]| == rows
      invariant forall i, j :: 0 <= i < x && 0 <= j < rows ==> res[i][j] == m[rows - 1 - j][i]
    {
      var row := [];
      var y := rows - 1;
      while y >= 0
        invariant -1 <= y < rows
        invariant |row| == rows - 1 - y
        invariant forall j :: 0 <= j < |row| ==> row[j] == m[rows - 1 - j][x]
      {
        row := row + [m[y][x]];
        y := y - 1;
      }
      res := res + [row];
      x := x + 1;
    }
    forall i | 0 <= i < cols
      ensures res[i] == Rotated(m)[i]
    {
      assert |res[i]| == |Rotated(m)[i]|;
    }
  }

  /** Row x, column j of the rotation is the input's row r-1-j, column x. */
  lemma RotatedAt(m: Shape)
    requires IsMatrix(m)
    ensures forall x :: 0 <= x < Width(m) ==> |Rotated(m)[x]| == |m|
    ensures forall x, j :: 0 <= x < Width(m) && 0 <= j < |m| ==> Rotated(m)[x][j] == m[|m| - 1 - j][x]
  {
  }

  /** Two rotations turn the matrix upside down and mirror it. */
  lemma RotatedTwice(m: Shape)
    requires IsMatrix(m)
    ensures |Rotated(Rotated(m))| == |m| && Width(Rotated(Rotated(m))) == Width(m)
    ensures forall i, j :: 0 <= i < |m| && 0 <= j < Width(m) ==>
              Rotated(Rotated(m))[i][j] == m[|m| - 1 - i][Width(m) - 1 - j]
  {
    var r1 := Rotated(m);
    var r2 := Rotated(r1);
    forall i, j | 0 <= i < |m| && 0 <= j < Width(m)
      ensures r2[i][j] == m[|m| - 1 - i][Width(m) - 1 - j]
    {
      assert r2[i][j] == r1[|r1| - 1 - j][i];
    }
  }

  /** Rotation is computed from the current shape alone, so four of them give the shape back. */
  lemma RotatedFourTimes(m: Shape)
    requires IsMatrix(m)
    ensures Rotated(Rotated(Rotated(Rotated(m)))) == m
  {
    var r2 := Rotated(Rotated(m));
    var r4 := Rotated(Rotated(r2));
    RotatedTwice(m);
    RotatedTwice(r2);
    assert |r4| == |m|;
    forall i | 0 <= i < |m|
      ensures r4[i] == m[i]
    {
      assert |r4[i]| == |m[i]|;
      forall j | 0 <= j < |m[i]|
        ensures r4[i][j] == m[i][j]
      {
        assert r4[i][j] == r2[|m| - 1 - i][Width(m) - 1 - j];
      }
    }
  }

  /** Rotation keeps a piece square, of the same size, and occupied. */
  lemma RotatedWellShaped(m: Shape)
    requires WellShaped(m)
    ensures WellShaped(Rotated(m)) && |Rotated(m)| == |m|
  {
    var i, j :| 0 <= i < |m| && 0 <= j < |m[i]| && m[i][j];
    var r := Rotated(m);
    assert r[j][|m| - 1 - i] == m[i][j];
  }
}
