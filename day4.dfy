/** Day 4: a word search over a grid of letters, and a count of X-shaped `MAS` crosses. */
module Day4 {

  import opened Wrappers
  import Text
  import Grid

  /** The grid, stored row by row in one flat sequence (the source never changes it). */
  datatype Puzzle = Puzzle(rows: nat, columns: nat, puzzle: seq<char>)

  /** `char_at`: None outside the grid or past the end of the stored letters. */
  function CharAt(p: Puzzle, r: nat, c: nat): (x: Option<char>)
    ensures x.Some? ==> r < p.rows && c < p.columns
  {
    if r < p.rows && c < p.columns && r * p.columns + c < |p.puzzle| then Some(p.puzzle[r * p.columns + c])
    else None
  }

  /** Every position of a complete grid holds a letter. */
  lemma CharAtInside(p: Puzzle, r: nat, c: nat)
    requires p.rows * p.columns <= |p.puzzle|
    ensures CharAt(p, r, c).Some? <==> r < p.rows && c < p.columns
  {
    if r < p.rows && c < p.columns {
      Grid.RowMajorBound(r, c, p.rows, p.columns);
    }
  }

  /** A position given by signed coordinates: None when either is negative. */
  function Cell(p: Puzzle, r: int, c: int): Option<char> {
    if r < 0 || c < 0 then None else CharAt(p, r, c)
  }

  /** `match_word`: the first letter at (row, col), then the rest of the word one step further
      on. A step that would leave the unsigned range (`checked_add_signed`) fails the match.
      An empty word panics in the source (`next().unwrap()`). */
  function MatchWord(p: Puzzle, word: string, row: nat, col: nat, rs: int, cs: int): bool
    requires |word| >= 1
    decreases |word|
  {
    match CharAt(p, row, col)
    case None => false
    case Some(ch) =>
      if ch != word[0] then false
      else if |word| == 1 then true
      else if row + rs < 0 || col + cs < 0 then false
      else MatchWord(p, word[1..], row + rs, col + cs, rs, cs)
  }

  /** The word matches exactly when its k-th letter stands k steps away, for every k. */
  lemma {:induction false} MatchWordIff(p: Puzzle, word: string, row: nat, col: nat, rs: int, cs: int)
    requires |word| >= 1
    ensures MatchWord(p, word, row, col, rs, cs) <==> Placed(p, word, row, col, rs, cs)
    decreases |word|
  {
    RayHead(p, word, row, col, rs, cs);
    if |word| > 1 && CharAt(p, row, col) == Some(word[0]) {
      if row + rs < 0 || col + cs < 0 {
        assert Cell(p, row + 1 * rs, col + 1 * cs) != Some(word[1]);
      } else {
        MatchWordIff(p, word[1..], row + rs, col + cs, rs, cs);
      }
    }
  }

  /** The k-th letter of the word stands k steps from (row, col), for every k. */
  predicate Placed(p: Puzzle, word: string, row: int, col: int, rs: int, cs: int) {
    forall k :: 0 <= k < |word| ==> Cell(p, row + k * rs, col + k * cs) == Some(word[k])
  }

  /** A placed word is its first letter followed by the rest placed one step further. */
  lemma RayHead(p: Puzzle, word: string, row: int, col: int, rs: int, cs: int)
    requires |word| >= 1
    ensures Placed(p, word, row, col, rs, cs)
      <==> Cell(p, row, col) == Some(word[0]) && Placed(p, word[1..], row + rs, col + cs, rs, cs)
  {
    var w := word[1..];
    assert Cell(p, row + 0 * rs, col + 0 * cs) == Cell(p, row, col);
    if Cell(p, row, col) == Some(word[0]) && Placed(p, w, row + rs, col + cs, rs, cs) {
      forall k | 0 <= k < |word| ensures Cell(p, row + k * rs, col + k * cs) == Some(word[k]) {
        if k > 0 {
          Ray(row, rs, k - 1);
          Ray(col, cs, k - 1);
          assert word[k] == w[k - 1];
        }
      }
    }
    if Placed(p, word, row, col, rs, cs) {
      forall k | 0 <= k < |w| ensures Cell(p, row + rs + k * rs, col + cs + k * cs) == Some(w[k]) {
        Ray(row, rs, k);
        Ray(col, cs, k);
        assert w[k] == word[k + 1];
      }
    }
  }

  /** One more step along a ray. */
  lemma Ray(x: int, s: int, k: int)
    ensures x + (k + 1) * s == (x + s) + k * s
  {
  }

  /** The eight directions `find_words` tries, as (row step, column step). */
  const Steps: seq<(int, int)> := [(-1, -1), (-1, 0), (-1, 1), (0, -1), (0, 1), (1, -1), (1, 0), (1, 1)]

  /** The number of the first n directions in which the word starts at (r, c). */
  function Hits(p: Puzzle, word: string, r: nat, c: nat, n: nat): (h: nat)
    requires |word| >= 1 && n <= |Steps|
    ensures h <= n
  {
    if n == 0 then 0
    else Hits(p, word, r, c, n - 1) + if MatchWord(p, word, r, c, Steps[n - 1].0, Steps[n - 1].1) then 1 else 0
  }

  /** The hits of the first c positions of row r. */
  function RowHits(p: Puzzle, word: string, r: nat, c: nat): (h: nat)
    requires |word| >= 1
    ensures h <= 8 * c
  {
    if c == 0 then 0 else RowHits(p, word, r, c - 1) + Hits(p, word, r, c - 1, |Steps|)
  }

  /** The hits of the first r rows. */
  function GridHits(p: Puzzle, word: string, r: nat): (h: nat)
    requires |word| >= 1
    ensures h <= 8 * r * p.columns
  {
    if r == 0 then 0
    else
      var h := GridHits(p, word, r - 1) + RowHits(p, word, r - 1, p.columns);
      GridStep(r, p.columns, GridHits(p, word, r - 1), RowHits(p, word, r - 1, p.columns));
      h
  }

  lemma GridStep(r: nat, columns: nat, before: nat, row: nat)
    requires r >= 1 && before <= 8 * (r - 1) * columns && row <= 8 * columns
    ensures before + row <= 8 * r * columns
  {
    assert 8 * r * columns == 8 * (r - 1) * columns + 8 * columns;
  }

  /** `find_words`: every position, every direction, a counter. */
  method FindWords(p: Puzzle, word: string) returns (matches: nat)
    requires |word| >= 1
    ensures matches == GridHits(p, word, p.rows)
  {
    matches := 0;
    for r := 0 to p.rows
      invariant matches == GridHits(p, word, r)
    {
      for c := 0 to p.columns
        invariant matches == GridHits(p, word, r) + RowHits(p, word, r, c)
      {
        for i := 0 to |Steps|
          invariant matches == GridHits(p, word, r) + RowHits(p, word, r, c) + Hits(p, word, r, c, i)
        {
          if MatchWord(p, word, r, c, Steps[i].0, Steps[i].1) {
            matches := matches + 1;
          }
        }
      }
    }
  }

  /** A word whose first letter appears nowhere in the grid is never found. */
  lemma {:induction false} AbsentFirstLetter(p: Puzzle, word: string, r: nat)
    requires |word| >= 1 && word[0] !in p.puzzle
    ensures GridHits(p, word, r) == 0
  {
    if r > 0 {
      AbsentFirstLetter(p, word, r - 1);
      AbsentInRow(p, word, r - 1, p.columns);
    }
  }

  lemma {:induction false} AbsentInRow(p: Puzzle, word: string, r: nat, c: nat)
    requires |word| >= 1 && word[0] !in p.puzzle
    ensures RowHits(p, word, r, c) == 0
  {
    if c > 0 {
      AbsentInRow(p, word, r, c - 1);
      AbsentAt(p, word, r, c - 1, |Steps|);
    }
  }

  lemma {:induction false} AbsentAt(p: Puzzle, word: string, r: nat, c: nat, n: nat)
    requires |word| >= 1 && word[0] !in p.puzzle && n <= |Steps|
    ensures Hits(p, word, r, c, n) == 0
  {
    if n > 0 {
      AbsentAt(p, word, r, c, n - 1);
      var x := CharAt(p, r, c);
      assert x.Some? ==> x.value in p.puzzle;
    }
  }

  /** The four 3 x 3 filters of `find_x_mas`, row by row; `.` matches anything. */
  const Filters: seq<string> := ["M.M.A.S.S", "S.M.A.S.M", "S.S.A.M.M", "M.S.A.M.S"]

  /** `to_check.chars().enumerate().all(|(i, c)| fc == '.' || fc == c)`. */
  predicate Fits(f: string, w: string)
    requires |w| <= |f|
  {
    forall i :: 0 <= i < |w| ==> f[i] == '.' || f[i] == w[i]
  }

  /** The number of the first n filters the window fits. */
  function FitCount(w: string, n: nat): (k: nat)
    requires |w| == 9 && n <= |Filters|
    ensures k <= n
  {
    if n == 0 then 0 else FitCount(w, n - 1) + if Fits(Filters[n - 1], w) then 1 else 0
  }

  /** Reference definition: an `A` in the middle and `MAS` or `SAM` along both diagonals. */
  predicate IsXMas(w: string)
    requires |w| == 9
  {
    w[4] == 'A' && Ends(w[0], w[8]) && Ends(w[2], w[6])
  }

  predicate Ends(a: char, b: char) {
    (a == 'M' && b == 'S') || (a == 'S' && b == 'M')
  }

  /** A filter only looks at the corners and the centre. */
  lemma FitsCorners(n: nat, w: string)
    requires n < |Filters| && |w| == 9
    ensures var f := Filters[n];
      Fits(f, w) <==> w[0] == f[0] && w[2] == f[2] && w[4] == f[4] && w[6] == f[6] && w[8] == f[8]
  {
    var f := Filters[n];
    assert |f| == 9 && f[1] == '.' && f[3] == '.' && f[5] == '.' && f[7] == '.';
    assert f[0] != '.' && f[2] != '.' && f[4] != '.' && f[6] != '.' && f[8] != '.';
  }

  /** Each window fits at most one filter, and it fits one exactly when it is an X of two
      `MAS`: the filters are the four ways of reading the two diagonals. */
  lemma FitCountIff(w: string)
    requires |w| == 9
    ensures FitCount(w, |Filters|) == if IsXMas(w) then 1 else 0
  {
    var f0, f1, f2, f3 := Fits(Filters[0], w), Fits(Filters[1], w), Fits(Filters[2], w), Fits(Filters[3], w);
    assert FitCount(w, 2) == (if f0 then 1 else 0) + (if f1 then 1 else 0);
    assert FitCount(w, 4) == FitCount(w, 2) + (if f2 then 1 else 0) + (if f3 then 1 else 0);
    FitsCorners(0, w);
    FitsCorners(1, w);
    FitsCorners(2, w);
    FitsCorners(3, w);
    assert f0 <==> w[0] == 'M' && w[2] == 'M' && w[4] == 'A' && w[6] == 'S' && w[8] == 'S';
    assert f1 <==> w[0] == 'S' && w[2] == 'M' && w[4] == 'A' && w[6] == 'S' && w[8] == 'M';
    assert f2 <==> w[0] == 'S' && w[2] == 'S' && w[4] == 'A' && w[6] == 'M' && w[8] == 'M';
    assert f3 <==> w[0] == 'M' && w[2] == 'S' && w[4] == 'A' && w[6] == 'M' && w[8] == 'S';
  }

  /** What `find_x_mas` needs not to panic: `rows - 2` must not underflow, nor `columns - 2`
      once the row loop runs, and every letter of a window must be there (`unwrap`). */
  predicate Framed(p: Puzzle) {
    p.rows >= 2 && (p.rows > 2 ==> p.columns >= 2) && (p.rows > 2 && p.columns > 2 ==> p.rows * p.columns <= |p.puzzle|)
  }

  /** The letter of window (r, c) at position k, row by row. */
  function WindowCell(p: Puzzle, r: nat, c: nat, k: nat): char
    requires Framed(p) && r < p.rows - 2 && c < p.columns - 2 && k < 9
  {
    CharAtInside(p, r + k / 3, c + k % 3);
    CharAt(p, r + k / 3, c + k % 3).value
  }

  /** The 3 x 3 window whose top-left corner is (r, c), as the string `to_check`. */
  function Window(p: Puzzle, r: nat, c: nat): (w: string)
    requires Framed(p) && r < p.rows - 2 && c < p.columns - 2
    ensures |w| == 9
  {
    seq(9, k requires 0 <= k < 9 => WindowCell(p, r, c, k))
  }

  /** The filter matches of the windows in the first c columns of row r. */
  function RowCrosses(p: Puzzle, r: nat, c: nat): nat
    requires Framed(p) && r < p.rows - 2 && c <= p.columns - 2
  {
    if c == 0 then 0 else RowCrosses(p, r, c - 1) + FitCount(Window(p, r, c - 1), |Filters|)
  }

  /** The filter matches of the windows in the first r rows. */
  function Crosses(p: Puzzle, r: nat): nat
    requires Framed(p) && r <= p.rows - 2
  {
    if r == 0 then 0 else Crosses(p, r - 1) + RowCrosses(p, r - 1, p.columns - 2)
  }

  /** `find_x_mas`: read every 3 x 3 window into a buffer and try the four filters on it. */
  method FindXMas(p: Puzzle) returns (matches: nat)
    requires Framed(p)
    ensures matches == Crosses(p, p.rows - 2)
  {
    matches := 0;
    for r := 0 to p.rows - 2
      invariant matches == Crosses(p, r)
    {
      for c := 0 to p.columns - 2
        invariant matches == Crosses(p, r) + RowCrosses(p, r, c)
      {
        var toCheck := ReadWindow(p, r, c);
        ghost var before := matches;
        for f := 0 to |Filters|
          invariant matches == before + FitCount(toCheck, f)
        {
          if Fits(Filters[f], toCheck) {
            matches := matches + 1;
          }
        }
      }
    }
  }

  /** The two inner loops of `find_x_mas` that push the window's letters onto `to_check`. */
  method ReadWindow(p: Puzzle, r: nat, c: nat) returns (toCheck: string)
    requires Framed(p) && r < p.rows - 2 && c < p.columns - 2
    ensures toCheck == Window(p, r, c)
  {
    toCheck := [];
    for i := 0 to 3
      invariant toCheck == Window(p, r, c)[..3 * i]
    {
      for j := 0 to 3
        invariant toCheck == Window(p, r, c)[..3 * i + j]
      {
        CharAtInside(p, r + i, c + j);
        Position(i, j);
        toCheck := toCheck + [CharAt(p, r + i, c + j).value];
      }
    }
  }

  lemma Position(i: nat, j: nat)
    requires j < 3
    ensures (3 * i + j) / 3 == i && (3 * i + j) % 3 == j
  {
  }

  /** A 3 x 3 grid holding one X of two `MAS` has exactly one match. */
  lemma ExampleCross()
    ensures Crosses(Puzzle(3, 3, "MXSXAXMXS"), 1) == 1
  {
    var p := Puzzle(3, 3, "MXSXAXMXS");
    var w := Window(p, 0, 0);
    assert w[0] == WindowCell(p, 0, 0, 0) == 'M';
    assert w[2] == WindowCell(p, 0, 0, 2) == 'S';
    assert w[4] == WindowCell(p, 0, 0, 4) == 'A';
    assert w[6] == WindowCell(p, 0, 0, 6) == 'M';
    assert w[8] == WindowCell(p, 0, 0, 8) == 'S';
    FitCountIff(w);
  }

  /** The lines of the sample input. */
  const SampleRows: seq<string> := ["MMMSXXMASM", "MSAMXMSMSA", "AMXSXMAAMM", "MSAMASMSMX", "XMASAMXAMM",
                                    "XXAMMXXAMA", "SMSMSASXSS", "SAXAMASAAA", "MAMMMXMMMM", "MXMXAXMASX"]

  /** The grid of the sample input, as `init_puzzle` stores it. */
  const Sample: Puzzle := Puzzle(10, 10, SampleRows[0] + (SampleRows[1] + (SampleRows[2] + (SampleRows[3] + (SampleRows[4]
                                         + (SampleRows[5] + (SampleRows[6] + (SampleRows[7] + (SampleRows[8] + SampleRows[9])))))))))

  /** The source's test: `XMAS` read leftwards from (1, 4). */
  lemma ExampleLeftwards()
    ensures MatchWord(Sample, "XMAS", 1, 4, 0, -1)
  {
    MatchWordIff(Sample, "XMAS", 1, 4, 0, -1);
    assert Sample.puzzle[14] == 'X' && Sample.puzzle[13] == 'M' && Sample.puzzle[12] == 'A' && Sample.puzzle[11] == 'S';
  }

  /** The source's test: `XMAS` read up and to the left from (5, 6). */
  lemma ExampleDiagonal()
    ensures MatchWord(Sample, "XMAS", 5, 6, -1, -1)
  {
    MatchWordIff(Sample, "XMAS", 5, 6, -1, -1);
    assert Sample.puzzle[56] == 'X' && Sample.puzzle[45] == 'M' && Sample.puzzle[34] == 'A' && Sample.puzzle[23] == 'S';
  }

  /** The source's test: from (9, 1) leftwards the word runs off the grid. */
  lemma ExampleOffGrid()
    ensures !MatchWord(Sample, "XMAS", 9, 1, 0, -1)
  {
    MatchWordIff(Sample, "XMAS", 9, 1, 0, -1);
    assert Cell(Sample, 9 + 2 * 0, 1 + 2 * -1) == None;
  }

  lemma ExampleCharAt()
    ensures CharAt(Sample, 0, 0) == Some('M') && CharAt(Sample, 4, 7) == Some('A')
    ensures CharAt(Sample, 9, 9) == Some('X') && CharAt(Sample, 10, 10) == None
  {
  }

  /** `init_puzzle`: as many rows as lines, as many columns as the first line has letters, and
      every letter of the input except whitespace. Input without any line panics (`unwrap`). */
  function InitPuzzle(input: string): (r: Option<Puzzle>)
    ensures r.Some? <==> Text.Lines(input) != []
    ensures r.Some? ==> forall i :: 0 <= i < |r.value.puzzle| ==> !Text.IsWhitespace(r.value.puzzle[i])
  {
    var lines := Text.Lines(input);
    if lines == [] then None else Some(Puzzle(|lines|, |lines[0]|, Text.RemoveWhitespace(input)))
  }

  /** Lines without whitespace, joined by newlines, are read back as a grid of those lines. */
  lemma InitPuzzleGrid(lines: seq<string>)
    requires |lines| >= 1 && lines[|lines| - 1] != []
    requires forall i, j :: 0 <= i < |lines| && 0 <= j < |lines[i]| ==> !Text.IsWhitespace(lines[i][j])
    ensures InitPuzzle(Text.Join(lines, '\n')) == Some(Puzzle(|lines|, |lines[0]|, Text.Flatten(lines)))
  {
    Text.LinesJoin(lines);
    Text.RemoveWhitespaceJoin(lines);
  }

  /** The source's test: the sample text becomes the 10 x 10 sample grid. */
  lemma ExampleInitPuzzle()
    ensures InitPuzzle(Text.Join(SampleRows, '\n')) == Some(Sample)
  {
    SampleLetters();
    InitPuzzleGrid(SampleRows);
    SampleFlatten();
  }

  lemma SampleLetters()
    ensures forall i, j :: 0 <= i < |SampleRows| && 0 <= j < |SampleRows[i]| ==> !Text.IsWhitespace(SampleRows[i][j])
  {
    forall i, j | 0 <= i < |SampleRows| && 0 <= j < |SampleRows[i]| ensures !Text.IsWhitespace(SampleRows[i][j]) {
      assert SampleRows[i][j] in "MXAS";
    }
  }

  lemma SampleFlatten()
    ensures Text.Flatten(SampleRows) == Sample.puzzle
  {
    var r := SampleRows;
    assert r[9..][1..] == [];
    assert Text.Flatten(r[9..]) == r[9];
    assert r[8..][1..] == r[9..];
    assert Text.Flatten(r[8..]) == r[8] + Text.Flatten(r[9..]);
    assert r[7..][1..] == r[8..];
    assert Text.Flatten(r[7..]) == r[7] + Text.Flatten(r[8..]);
    assert r[6..][1..] == r[7..];
    assert Text.Flatten(r[6..]) == r[6] + Text.Flatten(r[7..]);
    assert r[5..][1..] == r[6..];
    assert Text.Flatten(r[5..]) == r[5] + Text.Flatten(r[6..]);
    assert r[4..][1..] == r[5..];
    assert Text.Flatten(r[4..]) == r[4] + Text.Flatten(r[5..]);
    assert r[3..][1..] == r[4..];
    assert Text.Flatten(r[3..]) == r[3] + Text.Flatten(r[4..]);
    assert r[2..][1..] == r[3..];
    assert Text.Flatten(r[2..]) == r[2] + Text.Flatten(r[3..]);
    assert r[1..][1..] == r[2..];
    assert Text.Flatten(r[1..]) == r[1] + Text.Flatten(r[2..]);
    assert r[0..][1..] == r[1..];
    assert Text.Flatten(r[0..]) == r[0] + Text.Flatten(r[1..]);
    assert r[0..] == r;
  }
}
