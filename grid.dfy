/** Grids stored row by row in one flat sequence, as the day programs keep them. */
module Grid {

  import Text

  /** A (row, column) position. */
  type Cell = (nat, nat)

  /** Position (r, c) of a rows x columns grid lies inside the flat sequence. */
  lemma RowMajorBound(r: nat, c: nat, rows: nat, columns: nat)
    requires r < rows && c < columns
    ensures r * columns + c < rows * columns
  {
    assert r * columns <= (rows - 1) * columns;
  }

  /** Lines of one width, run together, hold `|lines| * width` characters. */
  lemma {:induction false} FlattenLength(lines: seq<string>, width: nat)
    requires forall i :: 0 <= i < |lines| ==> |lines[i]| == width
    ensures |Text.Flatten(lines)| == |lines| * width
  {
    if lines != [] {
      FlattenLength(lines[1..], width);
    }
  }

  /** In lines of one width, run together, character c of line r stands at `r * width + c`. */
  lemma {:induction false} FlattenIndex(lines: seq<string>, width: nat, r: nat, c: nat)
    requires forall i :: 0 <= i < |lines| ==> |lines[i]| == width
    requires r < |lines| && c < width
    ensures r * width + c < |Text.Flatten(lines)| && Text.Flatten(lines)[r * width + c] == lines[r][c]
  {
    FlattenLength(lines, width);
    RowMajorBound(r, c, |lines|, width);
    if r > 0 {
      FlattenIndex(lines[1..], width, r - 1, c);
      assert r * width + c == width + ((r - 1) * width + c);
    }
  }

  /** The four orthogonal steps (up, right, down, left), in the order the neighbour loops of
      `get_adjacent`, `get_neighbors` and `count_neighbors` try them. */
  const Steps: seq<(int, int)> := [(-1, 0), (0, 1), (1, 0), (0, -1)]

  /** The cells the first n steps lead to: `checked_add_signed` drops a step below zero and
      nothing else (any upper bound is left to the caller). */
  function AdjacentUpTo(row: nat, col: nat, n: nat): seq<Cell>
    requires n <= |Steps|
  {
    if n == 0 then []
    else
      var r, c := row + Steps[n - 1].0, col + Steps[n - 1].1;
      AdjacentUpTo(row, col, n - 1) + (if r >= 0 && c >= 0 then [(r, c)] else [])
  }

  function Adjacent(row: nat, col: nat): seq<Cell> {
    AdjacentUpTo(row, col, |Steps|)
  }

  /** One grid step apart, up, down, left or right. */
  predicate Orthogonal(a: Cell, b: Cell) {
    || (a.0 == b.0 && (a.1 == b.1 + 1 || b.1 == a.1 + 1))
    || (a.1 == b.1 && (a.0 == b.0 + 1 || b.0 == a.0 + 1))
  }

  /** The steps reach exactly the orthogonal neighbours with non-negative coordinates, each
      once: at most four of them. */
  lemma AdjacentIff(row: nat, col: nat)
    ensures |Adjacent(row, col)| <= 4
    ensures forall cell :: cell in Adjacent(row, col) <==> Orthogonal((row, col), cell)
    ensures forall i, j :: 0 <= i < j < |Adjacent(row, col)| ==> Adjacent(row, col)[i] != Adjacent(row, col)[j]
  {
    var up: seq<Cell> := if row >= 1 then [(row - 1, col)] else [];
    var left: seq<Cell> := if col >= 1 then [(row, col - 1)] else [];
    assert AdjacentUpTo(row, col, 1) == up;
    assert AdjacentUpTo(row, col, 2) == up + [(row, col + 1)];
    assert AdjacentUpTo(row, col, 3) == up + [(row, col + 1)] + [(row + 1, col)];
    assert Adjacent(row, col) == up + [(row, col + 1)] + [(row + 1, col)] + left;
  }
}
