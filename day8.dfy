/** Day 8: antennas of the same frequency and the antinodes on the lines through them. */
module Day8 {

  import opened Wrappers
  import Text

  /** A grid position; the source's `usize` coordinates, widened to `isize` for the vector
      arithmetic. */
  datatype Point = Point(row: int, col: int) {
    function Plus(d: Point): Point {
      Point(row + d.row, col + d.col)
    }

    function Minus(q: Point): Point {
      Point(row - q.row, col - q.col)
    }
  }

  function Times(k: int, d: Point): Point {
    Point(k * d.row, k * d.col)
  }

  /** One step of d, then k more, is k + 1 steps. */
  lemma TimesStep(t: Point, d: Point, k: int)
    ensures t.Plus(d).Plus(Times(k, d)) == t.Plus(Times(k + 1, d))
  {
    assert (k + 1) * d.row == k * d.row + d.row;
    assert (k + 1) * d.col == k * d.col + d.col;
  }

  /** `(0..max_rows).contains(&row) && (0..max_cols).contains(&col)`. */
  predicate InGrid(p: Point, maxRows: int, maxCols: int) {
    0 <= p.row < maxRows && 0 <= p.col < maxCols
  }

  /** `calc_antinode`: the point beyond p2 at p2's distance from p1, if it is on the grid. */
  function CalcAntinode(p1: Point, p2: Point, maxRows: int, maxCols: int): (r: Option<Point>)
    ensures r.Some? ==> InGrid(r.value, maxRows, maxCols) && r.value.Plus(p1) == Times(2, p2)
    ensures r.None? ==> forall q: Point :: q.Plus(p1) == Times(2, p2) ==> !InGrid(q, maxRows, maxCols)
  {
    var d := p2.Minus(p1);
    var tmp := p2.Plus(d);
    if InGrid(tmp, maxRows, maxCols) then Some(tmp) else None
  }

  /** The test cases of `calc_antinode`. */
  lemma ExampleAntinodes()
    ensures CalcAntinode(Point(2, 2), Point(4, 3), 10, 10) == Some(Point(6, 4))
    ensures CalcAntinode(Point(4, 3), Point(2, 2), 10, 10) == Some(Point(0, 1))
    ensures CalcAntinode(Point(3, 3), Point(6, 6), 10, 10) == Some(Point(9, 9))
    ensures CalcAntinode(Point(3, 7), Point(6, 3), 10, 10) == None
    ensures CalcAntinode(Point(8, 8), Point(2, 2), 10, 10) == None
    ensures CalcAntinode(Point(2, 2), Point(8, 8), 10, 10) == None
  {
  }

  /** How many more steps of d can stay on the grid from t: a bound that shrinks with each
      step whenever d is not zero. */
  function Room(t: Point, d: Point, maxRows: int, maxCols: int): nat {
    if !InGrid(t, maxRows, maxCols) then 0
    else if d.row > 0 then maxRows - t.row
    else if d.row < 0 then t.row + 1
    else if d.col > 0 then maxCols - t.col
    else if d.col < 0 then t.col + 1
    else 0
  }

  /** The points t, t + d, t + 2d, ... up to the first one off the grid. */
  function RayFrom(t: Point, d: Point, maxRows: int, maxCols: int): seq<Point>
    decreases Room(t, d, maxRows, maxCols)
  {
    if !InGrid(t, maxRows, maxCols) || d == Point(0, 0) then []
    else [t] + RayFrom(t.Plus(d), d, maxRows, maxCols)
  }

  /** `calc_antinode_p2` as a value: p2 itself, then the points beyond it in steps of p2 - p1. */
  function Line(p1: Point, p2: Point, maxRows: int, maxCols: int): seq<Point> {
    var d := p2.Minus(p1);
    [p2] + RayFrom(p2.Plus(d), d, maxRows, maxCols)
  }

  /** The ray holds exactly t + k*d for every k below its length, each on the grid, and the
      next multiple is the first that leaves it. */
  lemma {:induction false} RayFromIff(t: Point, d: Point, maxRows: int, maxCols: int)
    requires d != Point(0, 0)
    ensures var r := RayFrom(t, d, maxRows, maxCols);
      && (forall k :: 0 <= k < |r| ==> r[k] == t.Plus(Times(k, d)) && InGrid(r[k], maxRows, maxCols))
      && !InGrid(t.Plus(Times(|r|, d)), maxRows, maxCols)
    decreases Room(t, d, maxRows, maxCols)
  {
    if InGrid(t, maxRows, maxCols) {
      var t' := t.Plus(d);
      RayFromIff(t', d, maxRows, maxCols);
      var r := RayFrom(t, d, maxRows, maxCols);
      var rest := RayFrom(t', d, maxRows, maxCols);
      assert r == [t] + rest;
      forall k | 1 <= k < |r| ensures r[k] == t.Plus(Times(k, d)) {
        assert r[k] == rest[k - 1] == t'.Plus(Times(k - 1, d));
        TimesStep(t, d, k - 1);
      }
      assert r[0] == t == t.Plus(Times(0, d));
      TimesStep(t, d, |rest|);
    } else {
      assert t.Plus(Times(0, d)) == t;
    }
  }

  /** What the candidate property of `calc_antinode_p2` states: p2 first, then
      p2 + k*(p2 - p1) for k = 1, 2, ... while on the grid, ending at the first point off it. */
  lemma LineIff(p1: Point, p2: Point, maxRows: int, maxCols: int)
    requires p1 != p2
    ensures var r, d := Line(p1, p2, maxRows, maxCols), p2.Minus(p1);
      && r[0] == p2
      && (forall k :: 1 <= k < |r| ==> r[k] == p2.Plus(Times(k, d)) && InGrid(r[k], maxRows, maxCols))
      && !InGrid(p2.Plus(Times(|r|, d)), maxRows, maxCols)
  {
    var d := p2.Minus(p1);
    var t := p2.Plus(d);
    RayFromIff(t, d, maxRows, maxCols);
    var r := Line(p1, p2, maxRows, maxCols);
    var rest := RayFrom(t, d, maxRows, maxCols);
    forall k | 1 <= k < |r| ensures r[k] == p2.Plus(Times(k, d)) {
      assert r[k] == rest[k - 1] == t.Plus(Times(k - 1, d));
      TimesStep(p2, d, k - 1);
    }
    TimesStep(p2, d, |rest|);
  }

  /** `calc_antinode_p2`. With p1 == p2 the step is zero, and the source's loop never ends
      when p2 is on the grid; every caller passes two different antennas. */
  method CalcAntinodeP2(p1: Point, p2: Point, maxRows: int, maxCols: int) returns (r: seq<Point>)
    requires p1 != p2
    ensures r == Line(p1, p2, maxRows, maxCols)
  {
    var d := p2.Minus(p1);
    r := [p2];
    var tmp := p2.Plus(d);
    while InGrid(tmp, maxRows, maxCols)
      invariant r + RayFrom(tmp, d, maxRows, maxCols) == Line(p1, p2, maxRows, maxCols)
      decreases Room(tmp, d, maxRows, maxCols)
    {
      assert RayFrom(tmp, d, maxRows, maxCols) == [tmp] + RayFrom(tmp.Plus(d), d, maxRows, maxCols);
      r := r + [tmp];
      tmp := tmp.Plus(d);
    }
  }

  /** The test cases of `calc_antinode_p2`. */
  lemma ExampleLines()
    ensures Line(Point(3, 3), Point(2, 2), 6, 6) == [Point(2, 2), Point(1, 1), Point(0, 0)]
    ensures Line(Point(2, 2), Point(3, 3), 6, 6) == [Point(3, 3), Point(4, 4), Point(5, 5)]
  {
    assert RayFrom(Point(1, 1), Point(-1, -1), 6, 6) == [Point(1, 1)] + RayFrom(Point(0, 0), Point(-1, -1), 6, 6);
    assert RayFrom(Point(0, 0), Point(-1, -1), 6, 6) == [Point(0, 0)] + RayFrom(Point(-1, -1), Point(-1, -1), 6, 6);
    assert RayFrom(Point(4, 4), Point(1, 1), 6, 6) == [Point(4, 4)] + RayFrom(Point(5, 5), Point(1, 1), 6, 6);
    assert RayFrom(Point(5, 5), Point(1, 1), 6, 6) == [Point(5, 5)] + RayFrom(Point(6, 6), Point(1, 1), 6, 6);
  }

  /** `find_antinodes` as a value: both lines for each earlier antenna, in order. */
  function Antinodes(antennas: seq<Point>, p: Point, rows: int, cols: int): seq<Point> {
    if antennas == [] then []
    else
      var n := |antennas| - 1;
      Antinodes(antennas[..n], p, rows, cols) + Line(antennas[n], p, rows, cols) + Line(p, antennas[n], rows, cols)
  }

  /** `find_antinodes`: the new antenna p against every earlier antenna of its frequency. */
  method FindAntinodes(antennas: seq<Point>, p: Point, rows: int, cols: int) returns (anodes: seq<Point>)
    requires p !in antennas
    ensures anodes == Antinodes(antennas, p, rows, cols)
  {
    anodes := [];
    for i := 0 to |antennas|
      invariant anodes == Antinodes(antennas[..i], p, rows, cols)
    {
      var a := antennas[i];
      var n1 := CalcAntinodeP2(a, p, rows, cols);
      var n2 := CalcAntinodeP2(p, a, rows, cols);
      assert antennas[..i + 1][..i] == antennas[..i];
      anodes := anodes + n1 + n2;
    }
    assert antennas[..|antennas|] == antennas;
  }

  /** x is an antinode of p and one of the antennas: on either line through the pair. */
  predicate OnPairLine(antennas: seq<Point>, p: Point, rows: int, cols: int, x: Point) {
    exists i :: 0 <= i < |antennas| && (x in Line(antennas[i], p, rows, cols) || x in Line(p, antennas[i], rows, cols))
  }

  /** The antinodes found are exactly those on a line through p and an earlier antenna,
      both directions included. */
  lemma {:induction false} AntinodesIff(antennas: seq<Point>, p: Point, rows: int, cols: int)
    ensures forall x :: x in Antinodes(antennas, p, rows, cols) <==> OnPairLine(antennas, p, rows, cols, x)
  {
    if antennas != [] {
      var n := |antennas| - 1;
      var front := antennas[..n];
      AntinodesIff(front, p, rows, cols);
      forall x ensures x in Antinodes(antennas, p, rows, cols) <==> OnPairLine(antennas, p, rows, cols, x) {
        if OnPairLine(front, p, rows, cols, x) {
          var i :| 0 <= i < n && (x in Line(front[i], p, rows, cols) || x in Line(p, front[i], rows, cols));
          assert front[i] == antennas[i];
        }
        if OnPairLine(antennas, p, rows, cols, x) {
          var i :| 0 <= i < |antennas| && (x in Line(antennas[i], p, rows, cols) || x in Line(p, antennas[i], rows, cols));
          if i < n {
            assert front[i] == antennas[i];
          }
        }
      }
    }
  }

  /** The map `read_map` builds: grid size, antenna positions by frequency, and the set of
      antinodes. */
  datatype Map = Map(rows: nat, cols: nat, antennas: map<char, seq<Point>>, antinodes: set<Point>)

  /** The two collections `read_map` fills as it reads. */
  datatype Scan = Scan(antennas: map<char, seq<Point>>, antinodes: set<Point>)

  /** The antennas of frequency c found so far. */
  function Existing(s: Scan, c: char): seq<Point> {
    if c in s.antennas then s.antennas[c] else []
  }

  /** Reading character c at p: an antenna unless it is `.`; its antinodes against the
      earlier antennas of its frequency join the set, then it joins them. */
  function Place(s: Scan, c: char, p: Point, rows: int, cols: int): Scan {
    if c == '.' then s
    else
      var existing := Existing(s, c);
      Scan(s.antennas[c := existing + [p]], s.antinodes + set x | x in Antinodes(existing, p, rows, cols))
  }

  /** The scan after the first n characters of row `row`. */
  function ScanRow(s: Scan, line: string, row: nat, n: nat, rows: int, cols: int): Scan
    requires n <= |line|
  {
    if n == 0 then s else Place(ScanRow(s, line, row, n - 1, rows, cols), line[n - 1], Point(row, n - 1), rows, cols)
  }

  /** The scan after every line. */
  function ScanLines(lines: seq<string>, rows: int, cols: int): Scan {
    if lines == [] then Scan(map[], {})
    else
      var n := |lines| - 1;
      ScanRow(ScanLines(lines[..n], rows, cols), lines[n], n, |lines[n]|, rows, cols)
  }

  /** `read_map`: None where the source panics, on an input without lines. */
  function ReadMapSpec(input: string): Option<Map> {
    var lines := Text.Lines(input);
    if lines == [] then None
    else
      var s := ScanLines(lines, |lines|, |lines[0]|);
      Some(Map(|lines|, |lines[0]|, s.antennas, s.antinodes))
  }

  /** q comes before (row, col) in row-major order. */
  predicate Before(q: Point, row: int, col: int) {
    q.row < row || (q.row == row && q.col < col)
  }

  /** Every antenna recorded so far comes before (row, col). */
  predicate AllBefore(antennas: map<char, seq<Point>>, row: int, col: int) {
    forall c, i :: c in antennas && 0 <= i < |antennas[c]| ==> Before(antennas[c][i], row, col)
  }

  /** `read_map`, as the source reads the input: cell by cell in row-major order. */
  method ReadMap(input: string) returns (m: Option<Map>)
    ensures m == ReadMapSpec(input)
  {
    var lines := Text.Lines(input);
    if |lines| == 0 {
      return None;
    }
    var rows, cols := |lines|, |lines[0]|;
    var antennas: map<char, seq<Point>> := map[];
    var antinodes: set<Point> := {};
    for row := 0 to rows
      invariant Scan(antennas, antinodes) == ScanLines(lines[..row], rows, cols)
      invariant AllBefore(antennas, row, 0)
    {
      var line := lines[row];
      ghost var before := Scan(antennas, antinodes);
      for col := 0 to |line|
        invariant Scan(antennas, antinodes) == ScanRow(before, line, row, col, rows, cols)
        invariant AllBefore(antennas, row, col)
      {
        var c := line[col];
        if c != '.' {
          var p := Point(row, col);
          var existing := if c in antennas then antennas[c] else [];
          if c in antennas {
            assert p !in existing by {
              forall i | 0 <= i < |existing| ensures existing[i] != p {
                assert Before(antennas[c][i], row, col);
              }
            }
            var nodes := FindAntinodes(existing, p, rows, cols);
            antinodes := antinodes + set x | x in nodes;
          } else {
            assert (set x | x in Antinodes(existing, p, rows, cols)) == {};
          }
          antennas := antennas[c := existing + [p]];
        }
      }
      assert lines[..row + 1][..row] == lines[..row];
    }
    assert lines[..rows] == lines;
    m := Some(Map(rows, cols, antennas, antinodes));
  }

  /** x is on a line through two antennas of one frequency, in either direction. */
  ghost predicate PairNode(antennas: map<char, seq<Point>>, rows: int, cols: int, x: Point) {
    exists c, i, j :: c in antennas && 0 <= i < j < |antennas[c]|
      && (x in Line(antennas[c][i], antennas[c][j], rows, cols) || x in Line(antennas[c][j], antennas[c][i], rows, cols))
  }

  /** The antinodes collected are exactly the points on such lines. */
  ghost predicate Consistent(s: Scan, rows: int, cols: int) {
    forall x :: x in s.antinodes <==> PairNode(s.antennas, rows, cols, x)
  }

  /** Reading one more character keeps the antinodes in step with the antennas. */
  lemma PlaceConsistent(s: Scan, c: char, p: Point, rows: int, cols: int)
    requires Consistent(s, rows, cols)
    ensures Consistent(Place(s, c, p, rows, cols), rows, cols)
  {
    if c != '.' {
      var existing := Existing(s, c);
      var s' := Place(s, c, p, rows, cols);
      var a := s'.antennas;
      AntinodesIff(existing, p, rows, cols);
      assert a[c] == existing + [p];
      forall x | x in s'.antinodes ensures PairNode(a, rows, cols, x) {
        if x in s.antinodes {
          var c', i, j :| c' in s.antennas && 0 <= i < j < |s.antennas[c']|
            && (x in Line(s.antennas[c'][i], s.antennas[c'][j], rows, cols) || x in Line(s.antennas[c'][j], s.antennas[c'][i], rows, cols));
          assert a[c'][i] == s.antennas[c'][i] && a[c'][j] == s.antennas[c'][j];
        } else {
          assert x in Antinodes(existing, p, rows, cols);
          var i :| 0 <= i < |existing| && (x in Line(existing[i], p, rows, cols) || x in Line(p, existing[i], rows, cols));
          assert a[c][i] == existing[i] && a[c][|existing|] == p;
        }
      }
      forall x | PairNode(a, rows, cols, x) ensures x in s'.antinodes {
        var c', i, j :| c' in a && 0 <= i < j < |a[c']|
          && (x in Line(a[c'][i], a[c'][j], rows, cols) || x in Line(a[c'][j], a[c'][i], rows, cols));
        if c' != c {
          assert PairNode(s.antennas, rows, cols, x);
        } else if j < |existing| {
          assert a[c][i] == existing[i] && a[c][j] == existing[j];
          assert PairNode(s.antennas, rows, cols, x);
        } else {
          assert a[c][i] == existing[i] && a[c][j] == p;
          assert OnPairLine(existing, p, rows, cols, x);
        }
      }
    }
  }

  lemma {:induction false} ScanRowConsistent(s: Scan, line: string, row: nat, n: nat, rows: int, cols: int)
    requires n <= |line| && Consistent(s, rows, cols)
    ensures Consistent(ScanRow(s, line, row, n, rows, cols), rows, cols)
  {
    if n > 0 {
      ScanRowConsistent(s, line, row, n - 1, rows, cols);
      PlaceConsistent(ScanRow(s, line, row, n - 1, rows, cols), line[n - 1], Point(row, n - 1), rows, cols);
    }
  }

  lemma {:induction false} ScanLinesConsistent(lines: seq<string>, rows: int, cols: int)
    ensures Consistent(ScanLines(lines, rows, cols), rows, cols)
  {
    if lines != [] {
      var n := |lines| - 1;
      ScanLinesConsistent(lines[..n], rows, cols);
      ScanRowConsistent(ScanLines(lines[..n], rows, cols), lines[n], n, |lines[n]|, rows, cols);
    }
  }

  /** The antinode set of `read_map` (its size is the part 1 answer) holds exactly the points
      on the lines through each pair of same-frequency antennas, both directions included. */
  lemma ReadMapAntinodes(input: string)
    ensures var m := ReadMapSpec(input);
      m.Some? ==> forall x :: x in m.value.antinodes <==> PairNode(m.value.antennas, m.value.rows, m.value.cols, x)
  {
    var lines := Text.Lines(input);
    if lines != [] {
      ScanLinesConsistent(lines, |lines|, |lines[0]|);
    }
  }

  /** Every antenna recorded for frequency c stands on a cell holding c, and c is not `.`. */
  ghost predicate Recorded(s: Scan, lines: seq<string>) {
    forall c, i :: c in s.antennas && 0 <= i < |s.antennas[c]| ==>
      var q := s.antennas[c][i];
      c != '.' && 0 <= q.row < |lines| && 0 <= q.col < |lines[q.row]| && lines[q.row][q.col] == c
  }

  lemma {:induction false} ScanRowRecorded(s: Scan, lines: seq<string>, row: nat, n: nat, rows: int, cols: int)
    requires row < |lines| && n <= |lines[row]| && Recorded(s, lines)
    ensures Recorded(ScanRow(s, lines[row], row, n, rows, cols), lines)
  {
    if n > 0 {
      ScanRowRecorded(s, lines, row, n - 1, rows, cols);
    }
  }

  lemma {:induction false} ScanLinesRecorded(lines: seq<string>, rows: int, cols: int)
    ensures Recorded(ScanLines(lines, rows, cols), lines)
  {
    if lines != [] {
      var n := |lines| - 1;
      var front := lines[..n];
      ScanLinesRecorded(front, rows, cols);
      var s := ScanLines(front, rows, cols);
      assert Recorded(s, lines) by {
        forall c, i | c in s.antennas && 0 <= i < |s.antennas[c]|
          ensures var q := s.antennas[c][i]; 0 <= q.row < |lines| && 0 <= q.col < |lines[q.row]| && lines[q.row][q.col] == c
        {
          assert front[s.antennas[c][i].row] == lines[s.antennas[c][i].row];
        }
      }
      ScanRowRecorded(s, lines, n, |lines[n]|, rows, cols);
    }
  }

  /** Every antenna recorded in s is still recorded in t. */
  ghost predicate Grows(s: Scan, t: Scan) {
    forall c, q :: c in s.antennas && q in s.antennas[c] ==> c in t.antennas && q in t.antennas[c]
  }

  /** The cell q holding ch is `.` or is recorded under ch. */
  predicate CoversCell(s: Scan, ch: char, q: Point) {
    ch == '.' || (ch in s.antennas && q in s.antennas[ch])
  }

  lemma GrowsTrans(s: Scan, t: Scan, u: Scan)
    requires Grows(s, t) && Grows(t, u)
    ensures Grows(s, u)
  {
  }

  /** Placing a character forgets no antenna and records the new one unless it is `.`. */
  lemma PlaceGrows(s: Scan, c: char, p: Point, rows: int, cols: int)
    ensures Grows(s, Place(s, c, p, rows, cols))
    ensures CoversCell(Place(s, c, p, rows, cols), c, p)
  {
    if c != '.' {
      var a := Place(s, c, p, rows, cols).antennas;
      assert a[c] == Existing(s, c) + [p];
      assert p == a[c][|a[c]| - 1];
    }
  }

  /** Scanning a row forgets no antenna and records every non-`.` cell of it. */
  lemma {:induction false} ScanRowCovers(s: Scan, line: string, row: nat, n: nat, rows: int, cols: int)
    requires n <= |line|
    ensures Grows(s, ScanRow(s, line, row, n, rows, cols))
    ensures forall col :: 0 <= col < n ==> CoversCell(ScanRow(s, line, row, n, rows, cols), line[col], Point(row, col))
  {
    if n > 0 {
      var t := ScanRow(s, line, row, n - 1, rows, cols);
      var u := ScanRow(s, line, row, n, rows, cols);
      ScanRowCovers(s, line, row, n - 1, rows, cols);
      PlaceGrows(t, line[n - 1], Point(row, n - 1), rows, cols);
      GrowsTrans(s, t, u);
      forall col | 0 <= col < n ensures CoversCell(u, line[col], Point(row, col)) {
        if col < n - 1 {
          assert CoversCell(t, line[col], Point(row, col));
        }
      }
    }
  }

  /** Scanning all lines records every non-`.` cell under its character. */
  lemma {:induction false} ScanLinesCovers(lines: seq<string>, rows: int, cols: int)
    ensures forall r, col :: 0 <= r < |lines| && 0 <= col < |lines[r]| ==>
      CoversCell(ScanLines(lines, rows, cols), lines[r][col], Point(r, col))
  {
    if lines != [] {
      var n := |lines| - 1;
      var front := lines[..n];
      ScanLinesCovers(front, rows, cols);
      var s := ScanLines(front, rows, cols);
      var u := ScanLines(lines, rows, cols);
      ScanRowCovers(s, lines[n], n, |lines[n]|, rows, cols);
      forall r, col | 0 <= r < |lines| && 0 <= col < |lines[r]| ensures CoversCell(u, lines[r][col], Point(r, col)) {
        if r < n {
          assert front[r] == lines[r];
          assert CoversCell(s, front[r][col], Point(r, col));
        }
      }
    }
  }

  /** The antennas of `read_map` are grouped by their character, which is never `.`:
      each recorded antenna stands on a cell holding its frequency, and every cell holding
      a character other than `.` is recorded under that character. */
  lemma ReadMapAntennas(input: string)
    ensures var m := ReadMapSpec(input); var lines := Text.Lines(input);
      m.Some? ==> forall c, i :: c in m.value.antennas && 0 <= i < |m.value.antennas[c]| ==>
        var q := m.value.antennas[c][i];
        c != '.' && 0 <= q.row < |lines| && 0 <= q.col < |lines[q.row]| && lines[q.row][q.col] == c
    ensures var m := ReadMapSpec(input); var lines := Text.Lines(input);
      m.Some? ==> forall r, c :: 0 <= r < |lines| && 0 <= c < |lines[r]| && lines[r][c] != '.' ==>
        lines[r][c] in m.value.antennas && Point(r, c) in m.value.antennas[lines[r][c]]
  {
    var lines := Text.Lines(input);
    if lines != [] {
      var s := ScanLines(lines, |lines|, |lines[0]|);
      assert ReadMapSpec(input) == Some(Map(|lines|, |lines[0]|, s.antennas, s.antinodes));
      ScanLinesRecorded(lines, |lines|, |lines[0]|);
      assert Recorded(s, lines);
      ScanLinesCovers(lines, |lines|, |lines[0]|);
    }
  }
}
