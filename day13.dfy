/** Day 13: claw machines. Each machine is a 2x2 integer linear system solved exactly by
    Cramer's rule; a solvable machine costs three tokens per A press and one per B press. */
module Day13 {

  import opened Wrappers
  import RustInt

  /** A 2x2 matrix given by rows: row a is (a.0, a.1) and row b is (b.0, b.1). */
  datatype Mat2 = Mat2(a: (int, int), b: (int, int))

  /** One machine: the moves of buttons A and B and the prize position (after the offset). */
  datatype Game = Game(a: (int, int), b: (int, int), prize: (int, int))

  function Determinant(m: Mat2): int {
    m.a.0 * m.b.1 - m.a.1 * m.b.0
  }

  /** (x, y) solves both equations: row a applied to (x, y) gives prize.0, row b gives prize.1. */
  predicate Satisfies(c: Mat2, prize: (int, int), x: int, y: int) {
    c.a.0 * x + c.a.1 * y == prize.0 && c.b.0 * x + c.b.1 * y == prize.1
  }

  /** The prize substituted into column 0 (the numerator of x in Cramer's rule). */
  function NumeratorX(c: Mat2, prize: (int, int)): int {
    Determinant(Mat2((prize.0, c.a.1), (prize.1, c.b.1)))
  }

  /** The prize substituted into column 1 (the numerator of y in Cramer's rule). */
  function NumeratorY(c: Mat2, prize: (int, int)): int {
    Determinant(Mat2((c.a.0, prize.0), (c.b.0, prize.1)))
  }

  /** `solve`: Cramer's rule with Rust's truncating `%` and `/`. Whatever it returns solves the system. */
  function Solve(c: Mat2, prize: (int, int)): (r: Option<(int, int)>)
    ensures r.Some? ==> Satisfies(c, prize, r.value.0, r.value.1)
  {
    var denom := Determinant(c);
    var aPress := NumeratorX(c, prize);
    var bPress := NumeratorY(c, prize);
    if denom == 0 || RustInt.Rem(aPress, denom) != 0 || RustInt.Rem(bPress, denom) != 0 then
      None
    else
      RustInt.RemZeroIffDivides(aPress, denom);
      RustInt.RemZeroIffDivides(bPress, denom);
      var x, y := RustInt.Quot(aPress, denom), RustInt.Quot(bPress, denom);
      CramerSound(c, prize, x, y);
      Some((x, y))
  }

  /** If both numerators are the determinant times x and y, then (x, y) solves the system. */
  lemma CramerSound(c: Mat2, prize: (int, int), x: int, y: int)
    requires Determinant(c) != 0
    requires NumeratorX(c, prize) == Determinant(c) * x
    requires NumeratorY(c, prize) == Determinant(c) * y
    ensures Satisfies(c, prize, x, y)
  {
    var d := Determinant(c);
    CramerIdentities(c.a.0, c.a.1, c.b.0, c.b.1, prize.0, prize.1);
    ScaledRow(d, c.a.0, c.a.1, x, y);
    ScaledRow(d, c.b.0, c.b.1, x, y);
    Cancel(d, c.a.0 * x + c.a.1 * y, prize.0);
    Cancel(d, c.b.0 * x + c.b.1 * y, prize.1);
  }

  lemma CramerIdentities(a0: int, a1: int, b0: int, b1: int, p0: int, p1: int)
    ensures a0 * (p0 * b1 - a1 * p1) + a1 * (a0 * p1 - p0 * b0) == (a0 * b1 - a1 * b0) * p0
    ensures b0 * (p0 * b1 - a1 * p1) + b1 * (a0 * p1 - p0 * b0) == (a0 * b1 - a1 * b0) * p1
  {
  }

  lemma ScaledRow(d: int, u: int, v: int, x: int, y: int)
    ensures u * (d * x) + v * (d * y) == d * (u * x + v * y)
  {
  }

  lemma Cancel(d: int, u: int, v: int)
    requires d != 0 && d * u == d * v
    ensures u == v
  {
    RustInt.SubtractProducts(d, u, v);
    if u != v {
      RustInt.AbsProduct(d, u - v);
      RustInt.MulAtLeast(RustInt.Abs(d), RustInt.Abs(u - v));
    }
  }

  /** A zero determinant is reported as "no solution", even for a consistent system. */
  lemma SolveDegenerate(c: Mat2, prize: (int, int))
    requires Determinant(c) == 0
    ensures Solve(c, prize) == None
  {
  }

  /** A numerator that is not a multiple of the determinant means the rational solution is not integral. */
  lemma SolveNotIntegral(c: Mat2, prize: (int, int))
    requires Determinant(c) != 0
    requires NumeratorX(c, prize) % Determinant(c) != 0 || NumeratorY(c, prize) % Determinant(c) != 0
    ensures Solve(c, prize) == None
  {
    RustInt.RemZeroIffDivides(NumeratorX(c, prize), Determinant(c));
    RustInt.RemZeroIffDivides(NumeratorY(c, prize), Determinant(c));
  }

  /** Completeness: with a nonzero determinant every integer solution is found. */
  lemma SolveComplete(c: Mat2, prize: (int, int), x: int, y: int)
    requires Determinant(c) != 0 && Satisfies(c, prize, x, y)
    ensures Solve(c, prize) == Some((x, y))
  {
    var d := Determinant(c);
    NumeratorIdentities(c.a.0, c.a.1, c.b.0, c.b.1, x, y);
    assert NumeratorX(c, prize) == d * x;
    assert NumeratorY(c, prize) == d * y;
    RustInt.MultipleRem(x, d);
    RustInt.MultipleRem(y, d);
    RustInt.RemZeroIffDivides(d * x, d);
    RustInt.RemZeroIffDivides(d * y, d);
    RustInt.MultipleMod(x, d);
    RustInt.MultipleMod(y, d);
  }

  lemma NumeratorIdentities(a0: int, a1: int, b0: int, b1: int, x: int, y: int)
    ensures (a0 * x + a1 * y) * b1 - a1 * (b0 * x + b1 * y) == (a0 * b1 - a1 * b0) * x
    ensures a0 * (b0 * x + b1 * y) - (a0 * x + a1 * y) * b0 == (a0 * b1 - a1 * b0) * y
  {
  }

  /** The system of a machine: the X equation uses the x moves of both buttons, the Y equation the y moves. */
  function Coefficients(g: Game): Mat2 {
    Mat2((g.a.0, g.b.0), (g.a.1, g.b.1))
  }

  /** (x, y) presses of A and B reach the prize. */
  predicate Reaches(g: Game, x: int, y: int) {
    Satisfies(Coefficients(g), g.prize, x, y)
  }

  /** The tokens a machine costs: 3 per A press and 1 per B press when solvable, else 0. */
  function Score(g: Game): (s: int)
    ensures Determinant(Coefficients(g)) == 0 ==> s == 0
    ensures Determinant(Coefficients(g)) != 0 ==>
      forall x, y :: Reaches(g, x, y) ==> s == 3 * x + y
    ensures s != 0 ==> exists x, y :: Reaches(g, x, y) && s == 3 * x + y
  {
    match Solve(Coefficients(g), g.prize)
    case Some(r) =>
      SolutionUnique(g, r.0, r.1);
      assert Reaches(g, r.0, r.1);
      r.0 * 3 + r.1
    case None =>
      NoSolutionNone(g);
      0
  }

  lemma SolutionUnique(g: Game, x0: int, y0: int)
    requires Solve(Coefficients(g), g.prize) == Some((x0, y0))
    ensures forall x, y :: Reaches(g, x, y) ==> x == x0 && y == y0
  {
    forall x, y | Reaches(g, x, y) ensures x == x0 && y == y0 {
      SolveComplete(Coefficients(g), g.prize, x, y);
    }
  }

  lemma NoSolutionNone(g: Game)
    requires Solve(Coefficients(g), g.prize) == None
    ensures Determinant(Coefficients(g)) != 0 ==> forall x, y :: !Reaches(g, x, y)
  {
    if Determinant(Coefficients(g)) != 0 {
      forall x, y | Reaches(g, x, y) ensures false {
        SolveComplete(Coefficients(g), g.prize, x, y);
      }
    }
  }

  lemma ExampleDeterminant()
    ensures Determinant(Mat2((94, 22), (34, 67))) == 5550
  {
  }

  lemma ExampleSolutions()
    ensures Solve(Mat2((94, 22), (34, 67)), (8400, 5400)) == Some((80, 40))
    ensures Solve(Mat2((17, 84), (86, 37)), (7870, 6450)) == Some((38, 86))
    ensures Solve(Mat2((26, 67), (66, 21)), (12748, 12176)) == None
  {
    SolveComplete(Mat2((94, 22), (34, 67)), (8400, 5400), 80, 40);
    SolveComplete(Mat2((17, 84), (86, 37)), (7870, 6450), 38, 86);
    SolveNotIntegral(Mat2((26, 67), (66, 21)), (12748, 12176));
  }

  /** The text of the lines j in [from, to), each followed by a newline. */
  function BlockText(lines: seq<string>, from: nat, to: nat): string
    requires from <= to <= |lines|
    decreases |lines| - from
  {
    if from == to then [] else lines[from] + "\n" + BlockText(lines, from + 1, to)
  }

  /** Where the block still open after the first n lines starts: just after the last empty line among them. */
  function OpenStart(lines: seq<string>, n: nat): (k: nat)
    requires n <= |lines|
    ensures k <= n
    ensures forall j :: k <= j < n ==> lines[j] != []
    ensures k > 0 ==> lines[k - 1] == []
  {
    if n == 0 then 0 else if lines[n - 1] == [] then n else OpenStart(lines, n - 1)
  }

  /** The blocks closed within the first n lines: each empty line closes the lines read since
      the previous empty line (or since the start). */
  function Closed(lines: seq<string>, n: nat): seq<string>
    requires n <= |lines|
  {
    if n == 0 then []
    else if lines[n - 1] == [] then Closed(lines, n - 1) + [BlockText(lines, OpenStart(lines, n - 1), n - 1)]
    else Closed(lines, n - 1)
  }

  /** The blocks `read_games` hands to the parser; text after the last empty line is never emitted. */
  function Blocks(lines: seq<string>): seq<string> {
    Closed(lines, |lines|)
  }

  function CountEmpty(lines: seq<string>): nat {
    if lines == [] then 0 else (if lines[|lines| - 1] == [] then 1 else 0) + CountEmpty(lines[..|lines| - 1])
  }

  lemma BlockTextExtend(lines: seq<string>, from: nat, to: nat)
    requires from <= to < |lines|
    ensures BlockText(lines, from, to + 1) == BlockText(lines, from, to) + lines[to] + "\n"
    decreases |lines| - from
  {
    if from < to {
      BlockTextExtend(lines, from + 1, to);
    }
  }

  /** `read_games` without the per-block regex parsing, which is not part of this model:
      it returns the text of each block that an empty line closes. */
  method ReadGames(lines: seq<string>) returns (blocks: seq<string>)
    ensures blocks == Blocks(lines)
  {
    blocks := [];
    var tmp := "";
    for i := 0 to |lines|
      invariant blocks == Closed(lines, i)
      invariant tmp == BlockText(lines, OpenStart(lines, i), i)
    {
      if lines[i] == [] {
        blocks := blocks + [tmp];
        tmp := "";
      } else {
        BlockTextExtend(lines, OpenStart(lines, i), i);
        tmp := tmp + lines[i] + "\n";
      }
    }
  }

  /** A final block without a closing empty line contributes nothing. */
  lemma BlocksIgnoreUnterminated(lines: seq<string>, last: string)
    requires last != []
    ensures Blocks(lines + [last]) == Blocks(lines)
  {
    var ls := lines + [last];
    assert ls[..|lines|] == lines;
    ClosedPrefix(ls, lines, |lines|);
  }

  lemma {:induction false} ClosedPrefix(ls: seq<string>, lines: seq<string>, n: nat)
    requires n <= |lines| <= |ls| && lines == ls[..|lines|]
    ensures Closed(ls, n) == Closed(lines, n) && OpenStart(ls, n) == OpenStart(lines, n)
  {
    if n > 0 {
      ClosedPrefix(ls, lines, n - 1);
      assert ls[n - 1] == lines[n - 1];
      if lines[n - 1] == [] {
        BlockTextPrefix(ls, lines, OpenStart(lines, n - 1), n - 1);
      }
    }
  }

  lemma BlockTextPrefix(ls: seq<string>, lines: seq<string>, from: nat, to: nat)
    requires from <= to <= |lines| <= |ls| && lines == ls[..|lines|]
    ensures BlockText(ls, from, to) == BlockText(lines, from, to)
    decreases |lines| - from
  {
    if from < to {
      assert ls[from] == lines[from];
      BlockTextPrefix(ls, lines, from + 1, to);
    }
  }

  /** One block per empty line. */
  lemma BlocksCount(lines: seq<string>)
    ensures |Blocks(lines)| == CountEmpty(lines)
  {
    ClosedCount(lines, |lines|);
    assert lines[..|lines|] == lines;
  }

  lemma {:induction false} ClosedCount(lines: seq<string>, n: nat)
    requires n <= |lines|
    ensures |Closed(lines, n)| == CountEmpty(lines[..n])
  {
    if n > 0 {
      ClosedCount(lines, n - 1);
      assert lines[..n][..n - 1] == lines[..n - 1];
    }
  }
}
