/** Day 10: hiking trails on a topographic map, climbing one height level per step from 0 to 9. */
module Day10 {

  import opened Wrappers
  import Decimal
  import Text
  import Grid

  type Cell = Grid.Cell

  /** The map, stored row by row; digits are heights and any other character is -1. */
  datatype TopoMap = TopoMap(rows: nat, columns: nat, heights: seq<int>)

  /** The 9s reached from one trailhead, once per trail that reaches them. */
  datatype Trail = Trail(start: Cell, points: seq<Cell>)

  /** `c.to_digit(10)`, or -1 for anything else. */
  function HeightOf(c: char): (h: int)
    ensures -1 <= h <= 9
    ensures h >= 0 <==> Decimal.IsDigit(c)
    ensures h >= 0 ==> Decimal.DigitChar(h) == c
  {
    if Decimal.IsDigit(c) then Decimal.DigitValue(c) else -1
  }

  function Heights(s: string): (hs: seq<int>)
    ensures |hs| == |s| && forall i :: 0 <= i < |s| ==> hs[i] == HeightOf(s[i])
  {
    seq(|s|, i requires 0 <= i < |s| => HeightOf(s[i]))
  }

  /** `TopoMap::new`: as many rows as lines, as many columns as the first line, and a height for
      every character but whitespace. Input without any line panics (`peek().unwrap()`). */
  function NewMap(input: string): (r: Option<TopoMap>)
    ensures r.Some? <==> Text.Lines(input) != []
    ensures r.Some? ==> forall i :: 0 <= i < |r.value.heights| ==> -1 <= r.value.heights[i] <= 9
  {
    var lines := Text.Lines(input);
    if lines == [] then None
    else Some(TopoMap(|lines|, |lines[0]|, Heights(Text.RemoveWhitespace(input))))
  }

  /** Every grid position has a stored height, as `self.map[row * self.columns + col]` needs. */
  predicate Rectangular(m: TopoMap) {
    |m.heights| == m.rows * m.columns
  }

  /** A rectangular map of heights from -1 to 9, as `TopoMap::new` builds from equal lines. */
  predicate Valid(m: TopoMap) {
    Rectangular(m) && forall i :: 0 <= i < |m.heights| ==> -1 <= m.heights[i] <= 9
  }

  predicate InGrid(m: TopoMap, cell: Cell) {
    cell.0 < m.rows && cell.1 < m.columns
  }

  /** `get`: None outside the grid, otherwise the stored height. */
  function Get(m: TopoMap, row: nat, col: nat): (h: Option<int>)
    requires Rectangular(m)
    ensures h.Some? <==> InGrid(m, (row, col))
  {
    if row < m.rows && col < m.columns then
      Grid.RowMajorBound(row, col, m.rows, m.columns);
      Some(m.heights[row * m.columns + col])
    else None
  }

  function Height(m: TopoMap, cell: Cell): (h: int)
    requires Valid(m) && InGrid(m, cell)
    ensures Get(m, cell.0, cell.1) == Some(h) && -1 <= h <= 9
  {
    Grid.RowMajorBound(cell.0, cell.1, m.rows, m.columns);
    m.heights[cell.0 * m.columns + cell.1]
  }

  /** Equal lines without whitespace, joined by newlines, give the map of their digits, where
      `get(r, c)` is the height of character c of line r. */
  lemma NewMapGrid(lines: seq<string>)
    requires |lines| >= 1 && lines[|lines| - 1] != []
    requires forall i :: 0 <= i < |lines| ==> |lines[i]| == |lines[0]|
    requires forall i, j :: 0 <= i < |lines| && 0 <= j < |lines[i]| ==> !Text.IsWhitespace(lines[i][j])
    ensures var m := NewMap(Text.Join(lines, '\n'));
      m == Some(LinesMap(lines)) && Valid(m.value)
  {
    Text.LinesJoin(lines);
    Text.RemoveWhitespaceJoin(lines);
    Grid.FlattenLength(lines, |lines[0]|);
  }

  /** The map of some lines of digits, row by row. */
  function LinesMap(lines: seq<string>): TopoMap
    requires |lines| >= 1
  {
    TopoMap(|lines|, |lines[0]|, Heights(Text.Flatten(lines)))
  }

  /** In the map of equal lines, `get(r, c)` is the height of character c of line r. */
  lemma LinesMapGet(lines: seq<string>, r: nat, c: nat)
    requires |lines| >= 1 && forall i :: 0 <= i < |lines| ==> |lines[i]| == |lines[0]|
    requires r < |lines| && c < |lines[0]|
    ensures Rectangular(LinesMap(lines)) && Get(LinesMap(lines), r, c) == Some(HeightOf(lines[r][c]))
  {
    Grid.FlattenLength(lines, |lines[0]|);
    Grid.FlattenIndex(lines, |lines[0]|, r, c);
  }

  // ---------------------------------------------------------------- get_adjacent

  method GetAdjacent(row: nat, col: nat) returns (result: seq<Cell>)
    ensures result == Grid.Adjacent(row, col)
  {
    result := [];
    for i := 0 to |Grid.Steps|
      invariant result == Grid.AdjacentUpTo(row, col, i)
    {
      var (dr, dc) := Grid.Steps[i];
      var r, c := row + dr, col + dc;
      if r >= 0 && c >= 0 {
        result := result + [(r, c)];
      }
    }
  }

  // ---------------------------------------------------------------- read_trails_at

  /** The cells among `cells` whose height is `target`, in order. */
  function Climbable(m: TopoMap, cells: seq<Cell>, target: int): (r: seq<Cell>)
    requires Rectangular(m)
    ensures forall cell :: cell in r <==> cell in cells && Get(m, cell.0, cell.1) == Some(target)
    ensures |r| <= |cells|
  {
    if cells == [] then []
    else
      var last := cells[|cells| - 1];
      var front := Climbable(m, cells[..|cells| - 1], target);
      assert cells == cells[..|cells| - 1] + [last];
      if Get(m, last.0, last.1) == Some(target) then front + [last] else front
  }

  lemma ClimbableStep(m: TopoMap, cells: seq<Cell>, j: nat, target: int)
    requires Rectangular(m) && j < |cells|
    ensures var c := cells[j];
      Climbable(m, cells[..j + 1], target)
        == Climbable(m, cells[..j], target) + (if Get(m, c.0, c.1) == Some(target) then [c] else [])
  {
    assert cells[..j + 1][..j] == cells[..j];
  }

  /** The cells `read_trails_at` pushes after popping `cell`: neighbours one level higher. */
  function Next(m: TopoMap, cell: Cell): seq<Cell>
    requires Valid(m) && InGrid(m, cell)
  {
    Climbable(m, Grid.Adjacent(cell.0, cell.1), Height(m, cell) + 1)
  }

  /** The search steps to exactly the in-grid orthogonal neighbours one level higher. */
  lemma NextIff(m: TopoMap, cell: Cell)
    requires Valid(m) && InGrid(m, cell)
    ensures |Next(m, cell)| <= 4
    ensures forall n :: n in Next(m, cell) <==> InGrid(m, n) && Grid.Orthogonal(cell, n) && Height(m, n) == Height(m, cell) + 1
  {
    Grid.AdjacentIff(cell.0, cell.1);
  }

  function Pow5(k: nat): (p: nat)
    ensures p >= 1
  {
    if k == 0 then 1 else 5 * Pow5(k - 1)
  }

  /** A cell at height h weighs `5^(10 - h)`: more than the four cells one level up. */
  function CellWeight(m: TopoMap, cell: Cell): nat
    requires Valid(m) && InGrid(m, cell)
  {
    Pow5(10 - Height(m, cell))
  }

  predicate AllInGrid(m: TopoMap, cells: seq<Cell>) {
    forall i :: 0 <= i < |cells| ==> InGrid(m, cells[i])
  }

  /** The measure that falls with every pass of the search loop. */
  function Weight(m: TopoMap, cells: seq<Cell>): nat
    requires Valid(m) && AllInGrid(m, cells)
  {
    if cells == [] then 0 else CellWeight(m, cells[0]) + Weight(m, cells[1..])
  }

  lemma {:induction false} WeightConcat(m: TopoMap, a: seq<Cell>, b: seq<Cell>)
    requires Valid(m) && AllInGrid(m, a) && AllInGrid(m, b)
    ensures AllInGrid(m, a + b) && Weight(m, a + b) == Weight(m, a) + Weight(m, b)
  {
    if a == [] {
      assert a + b == b;
    } else {
      assert (a + b)[0] == a[0] && (a + b)[1..] == a[1..] + b;
      WeightConcat(m, a[1..], b);
    }
  }

  /** `n` cells of weight `w` each. */
  function Repeat(n: nat, w: nat): nat {
    if n == 0 then 0 else w + Repeat(n - 1, w)
  }

  lemma {:induction false} WeightUniform(m: TopoMap, cells: seq<Cell>, h: int)
    requires Valid(m) && AllInGrid(m, cells) && 0 <= h <= 9
    requires forall i :: 0 <= i < |cells| ==> Height(m, cells[i]) == h
    ensures Weight(m, cells) == Repeat(|cells|, Pow5(10 - h))
  {
    if cells != [] {
      WeightUniform(m, cells[1..], h);
    }
  }

  /** Popping a cell below 9 and pushing its higher neighbours makes the queue lighter. */
  lemma NextLighter(m: TopoMap, cell: Cell)
    requires Valid(m) && InGrid(m, cell) && Height(m, cell) < 9
    ensures AllInGrid(m, Next(m, cell)) && Weight(m, Next(m, cell)) < CellWeight(m, cell)
  {
    var h := Height(m, cell);
    var next := Next(m, cell);
    NextIff(m, cell);
    forall i | 0 <= i < |next| ensures InGrid(m, next[i]) && Height(m, next[i]) == h + 1 {
      assert next[i] in next;
    }
    var w := Pow5(9 - h);
    WeightUniform(m, next, h + 1);
    assert CellWeight(m, cell) == Pow5((9 - h) + 1) == 5 * w;
    RepeatAtMost(|next|, 4, w);
    RepeatTimes(4, w);
  }

  lemma {:induction false} RepeatTimes(n: nat, w: nat)
    ensures Repeat(n, w) == n * w
  {
    if n > 0 {
      RepeatTimes(n - 1, w);
      assert n * w == w + (n - 1) * w;
    }
  }

  lemma {:induction false} RepeatAtMost(n: nat, k: nat, w: nat)
    requires n <= k
    ensures Repeat(n, w) <= Repeat(k, w)
    decreases k
  {
    if n < k {
      RepeatAtMost(n, k - 1, w);
    }
  }

  /** The 9s that a search from `cell` records, once per increasing path that reaches them. */
  function Ends(m: TopoMap, cell: Cell): multiset<Cell>
    requires Valid(m) && InGrid(m, cell)
    decreases CellWeight(m, cell), 1
  {
    if Height(m, cell) == 9 then multiset{cell}
    else
      NextLighter(m, cell);
      Pending(m, Next(m, cell))
  }

  /** The 9s still to be recorded from the cells waiting in the queue. */
  function Pending(m: TopoMap, cells: seq<Cell>): multiset<Cell>
    requires Valid(m) && AllInGrid(m, cells)
    decreases Weight(m, cells), 2
  {
    if cells == [] then multiset{} else Ends(m, cells[0]) + Pending(m, cells[1..])
  }

  lemma {:induction false} PendingConcat(m: TopoMap, a: seq<Cell>, b: seq<Cell>)
    requires Valid(m) && AllInGrid(m, a) && AllInGrid(m, b)
    ensures AllInGrid(m, a + b) && Pending(m, a + b) == Pending(m, a) + Pending(m, b)
  {
    if a == [] {
      assert a + b == b;
    } else {
      assert (a + b)[0] == a[0] && (a + b)[1..] == a[1..] + b;
      PendingConcat(m, a[1..], b);
    }
  }

  /** `read_trails_at`: a depth-first search with an explicit stack from (row, col). It records
      every 9 it pops and pushes the neighbours one level up of every other cell. */
  method ReadTrailsAt(m: TopoMap, row: nat, col: nat) returns (t: Trail)
    requires Valid(m) && InGrid(m, (row, col))
    ensures t.start == (row, col) && multiset(t.points) == Ends(m, (row, col))
  {
    var queue: seq<Cell> := [(row, col)];
    var trails: seq<Cell> := [];
    assert |queue[1..]| == 0;
    while queue != []
      invariant AllInGrid(m, queue)
      invariant multiset(trails) + Pending(m, queue) == Ends(m, (row, col))
      decreases Weight(m, queue)
    {
      var cell := queue[|queue| - 1];
      var rest := queue[..|queue| - 1];
      Pop(m, queue);
      queue := rest;
      var current := Get(m, cell.0, cell.1).value;
      if current == 9 {
        trails := trails + [cell];
      } else {
        queue := Expand(m, queue, cell);
        NextLighter(m, cell);
        PendingConcat(m, rest, Next(m, cell));
        WeightConcat(m, rest, Next(m, cell));
      }
    }
    t := Trail((row, col), trails);
  }

  /** Taking the top cell off the stack. */
  lemma Pop(m: TopoMap, queue: seq<Cell>)
    requires Valid(m) && AllInGrid(m, queue) && queue != []
    ensures var n := |queue| - 1;
      && AllInGrid(m, queue[..n])
      && Pending(m, queue) == Pending(m, queue[..n]) + Ends(m, queue[n])
      && Weight(m, queue) == Weight(m, queue[..n]) + CellWeight(m, queue[n])
  {
    var n := |queue| - 1;
    var top: seq<Cell> := [queue[n]];
    assert queue == queue[..n] + top && |top[1..]| == 0;
    PendingConcat(m, queue[..n], top);
    WeightConcat(m, queue[..n], top);
  }

  /** The loop over `get_adjacent` in `read_trails_at`: push every neighbour one level up. */
  method Expand(m: TopoMap, queue: seq<Cell>, cell: Cell) returns (queue': seq<Cell>)
    requires Valid(m) && InGrid(m, cell)
    ensures queue' == queue + Next(m, cell)
  {
    var current := Get(m, cell.0, cell.1).value;
    var adjacent := GetAdjacent(cell.0, cell.1);
    var pushed := PushClimbable(m, adjacent, current + 1);
    queue' := queue + pushed;
  }

  /** The body of that loop: the cells on the grid whose height is `target`, in order. */
  method PushClimbable(m: TopoMap, cells: seq<Cell>, target: int) returns (pushed: seq<Cell>)
    requires Rectangular(m)
    ensures pushed == Climbable(m, cells, target)
  {
    pushed := [];
    for j := 0 to |cells|
      invariant pushed == Climbable(m, cells[..j], target)
    {
      var next := cells[j];
      ClimbableStep(m, cells, j, target);
      var v := Get(m, next.0, next.1);
      if v.Some? && v.value == target {
        pushed := pushed + [next];
      }
    }
    assert cells[..|cells|] == cells;
  }

  // ---------------------------------------------------------------- what the search finds

  /** An increasing path: every step goes to an orthogonal neighbour one level higher. */
  ghost predicate Climb(m: TopoMap, path: seq<Cell>)
    requires Valid(m)
  {
    && |path| >= 1 && AllInGrid(m, path)
    && forall i :: 0 <= i < |path| - 1 ==> InGrid(m, path[i]) && path[i + 1] in Next(m, path[i])
  }

  lemma {:induction false} PendingMember(m: TopoMap, cells: seq<Cell>, x: Cell)
    requires Valid(m) && AllInGrid(m, cells)
    ensures x in Pending(m, cells) <==> exists i :: 0 <= i < |cells| && x in Ends(m, cells[i])
  {
    if cells != [] {
      PendingMember(m, cells[1..], x);
      if x in Pending(m, cells[1..]) {
        var i :| 0 <= i < |cells| - 1 && x in Ends(m, cells[1..][i]);
        assert x in Ends(m, cells[i + 1]);
      }
      forall i | 0 <= i < |cells| && x in Ends(m, cells[i]) ensures x in Pending(m, cells) {
        if i > 0 {
          assert x in Ends(m, cells[1..][i - 1]);
        }
      }
    }
  }

  /** The end of every increasing path to a 9 is recorded. */
  lemma {:induction false} ClimbEnds(m: TopoMap, path: seq<Cell>)
    requires Valid(m) && Climb(m, path) && Height(m, path[|path| - 1]) == 9
    ensures path[|path| - 1] in Ends(m, path[0])
    decreases |path|
  {
    if |path| > 1 {
      var cell, next := path[0], path[1];
      NextIff(m, cell);
      assert Height(m, cell) < 9;
      ClimbEnds(m, path[1..]);
      PendingMember(m, Next(m, cell), path[|path| - 1]);
    }
  }

  /** Everything recorded is the end of an increasing path to a 9. */
  lemma {:induction false} EndsClimb(m: TopoMap, cell: Cell, x: Cell)
    requires Valid(m) && InGrid(m, cell) && x in Ends(m, cell)
    ensures exists path :: Climb(m, path) && path[0] == cell && path[|path| - 1] == x && Height(m, x) == 9
    decreases CellWeight(m, cell)
  {
    if Height(m, cell) == 9 {
      assert Climb(m, [cell]);
    } else {
      var next := Next(m, cell);
      NextLighter(m, cell);
      PendingMember(m, next, x);
      var i :| 0 <= i < |next| && x in Ends(m, next[i]);
      assert InGrid(m, next[i]) && Height(m, next[i]) == Height(m, cell) + 1 by {
        NextIff(m, cell);
        assert next[i] in next;
      }
      EndsClimb(m, next[i], x);
      var path :| Climb(m, path) && path[0] == next[i] && path[|path| - 1] == x && Height(m, x) == 9;
      ClimbCons(m, cell, path);
      assert ([cell] + path)[|path|] == x;
    }
  }

  /** One step up in front of an increasing path is an increasing path. */
  lemma ClimbCons(m: TopoMap, cell: Cell, path: seq<Cell>)
    requires Valid(m) && InGrid(m, cell) && Climb(m, path) && path[0] in Next(m, cell)
    ensures Climb(m, [cell] + path) && ([cell] + path)[0] == cell
  {
    var longer := [cell] + path;
    forall i | 0 <= i < |longer| - 1
      ensures InGrid(m, longer[i]) && longer[i + 1] in Next(m, longer[i])
    {
      if i > 0 {
        assert longer[i] == path[i - 1] && longer[i + 1] == path[i];
      }
    }
    assert forall i :: 0 <= i < |longer| ==> InGrid(m, longer[i]) by {
      forall i | 0 <= i < |longer| ensures InGrid(m, longer[i]) {
        if i > 0 { assert longer[i] == path[i - 1]; }
      }
    }
  }

  /** The 9s a search from `cell` records are exactly those an increasing path reaches. */
  lemma EndsReach(m: TopoMap, cell: Cell, x: Cell)
    requires Valid(m) && InGrid(m, cell)
    ensures x in Ends(m, cell) <==>
      exists path :: Climb(m, path) && path[0] == cell && path[|path| - 1] == x && Height(m, x) == 9
  {
    if x in Ends(m, cell) {
      EndsClimb(m, cell, x);
    }
    if exists path :: Climb(m, path) && path[0] == cell && path[|path| - 1] == x && Height(m, x) == 9 {
      var path :| Climb(m, path) && path[0] == cell && path[|path| - 1] == x && Height(m, x) == 9;
      ClimbEnds(m, path);
    }
  }

  // ---------------------------------------------------------------- counting the paths

  /** No entry appears twice. */
  predicate NoRepeats<T(==)>(xs: seq<T>) {
    forall i, j :: 0 <= i < j < |xs| ==> xs[i] != xs[j]
  }

  /** Keeping some of a list's cells keeps it free of repeats. */
  lemma {:induction false} ClimbableNoRepeats(m: TopoMap, cells: seq<Cell>, target: int)
    requires Rectangular(m) && NoRepeats(cells)
    ensures NoRepeats(Climbable(m, cells, target))
  {
    if cells != [] {
      var n := |cells| - 1;
      var front := cells[..n];
      assert NoRepeats(front) by {
        forall i, j | 0 <= i < j < n ensures front[i] != front[j] {
          assert front[i] == cells[i] && front[j] == cells[j];
        }
      }
      ClimbableNoRepeats(m, front, target);
      var kept := Climbable(m, front, target);
      forall i | 0 <= i < |kept| ensures kept[i] != cells[n] {
        assert kept[i] in front;
      }
    }
  }

  /** The search pushes each neighbour at most once. */
  lemma NextNoRepeats(m: TopoMap, cell: Cell)
    requires Valid(m) && InGrid(m, cell)
    ensures NoRepeats(Next(m, cell))
  {
    Grid.AdjacentIff(cell.0, cell.1);
    ClimbableNoRepeats(m, Grid.Adjacent(cell.0, cell.1), Height(m, cell) + 1);
  }

  /** Every path of `ps` with `cell` in front. */
  function Prefix(cell: Cell, ps: seq<seq<Cell>>): (r: seq<seq<Cell>>)
    ensures |r| == |ps| && forall i :: 0 <= i < |ps| ==> r[i] == [cell] + ps[i]
  {
    if ps == [] then [] else [[cell] + ps[0]] + Prefix(cell, ps[1..])
  }

  /** The increasing paths from `cell` to a 9, as a list: `ClimbsIff` and `ClimbsNoRepeats`
      show that it holds each such path exactly once. */
  ghost function Climbs(m: TopoMap, cell: Cell): seq<seq<Cell>>
    requires Valid(m) && InGrid(m, cell)
    decreases CellWeight(m, cell), 1
  {
    if Height(m, cell) == 9 then [[cell]]
    else
      NextLighter(m, cell);
      ClimbsVia(m, cell, Next(m, cell))
  }

  /** The paths from `cell` whose second cell is one of `cells`. */
  ghost function ClimbsVia(m: TopoMap, cell: Cell, cells: seq<Cell>): seq<seq<Cell>>
    requires Valid(m) && AllInGrid(m, cells)
    decreases Weight(m, cells), 2
  {
    if cells == [] then [] else Prefix(cell, Climbs(m, cells[0])) + ClimbsVia(m, cell, cells[1..])
  }

  /** A path listed from `cell` through `cells` is `cell` followed by a path from one of them. */
  lemma {:induction false} ViaMember(m: TopoMap, cell: Cell, cells: seq<Cell>, p: seq<Cell>)
    requires Valid(m) && AllInGrid(m, cells) && p in ClimbsVia(m, cell, cells)
    ensures exists i :: 0 <= i < |cells| && |p| >= 1 && p[0] == cell && p[1..] in Climbs(m, cells[i])
    decreases |cells|
  {
    var first := Climbs(m, cells[0]);
    if p in Prefix(cell, first) {
      var j :| 0 <= j < |first| && Prefix(cell, first)[j] == p;
      assert p[1..] == first[j];
    } else {
      var rest := cells[1..];
      ViaMember(m, cell, rest, p);
      var i :| 0 <= i < |rest| && |p| >= 1 && p[0] == cell && p[1..] in Climbs(m, rest[i]);
      assert rest[i] == cells[i + 1];
    }
  }

  /** The path from `cell` continuing with one through `cells[i]` is listed. */
  lemma {:induction false} ViaContains(m: TopoMap, cell: Cell, cells: seq<Cell>, i: nat, q: seq<Cell>)
    requires Valid(m) && AllInGrid(m, cells) && i < |cells| && q in Climbs(m, cells[i])
    ensures [cell] + q in ClimbsVia(m, cell, cells)
    decreases i
  {
    if i == 0 {
      var first := Climbs(m, cells[0]);
      var j :| 0 <= j < |first| && first[j] == q;
      assert Prefix(cell, first)[j] == [cell] + q;
    } else {
      assert cells[1..][i - 1] == cells[i];
      ViaContains(m, cell, cells[1..], i - 1, q);
    }
  }

  /** One level up weighs a fifth. */
  lemma StepWeight(m: TopoMap, cell: Cell, next: Cell)
    requires Valid(m) && InGrid(m, cell) && InGrid(m, next) && Height(m, next) == Height(m, cell) + 1
    ensures CellWeight(m, next) < CellWeight(m, cell)
  {
    assert CellWeight(m, cell) == 5 * CellWeight(m, next);
  }

  /** Every listed path is an increasing path from `cell` to a 9. */
  lemma {:induction false} ClimbsSound(m: TopoMap, cell: Cell, p: seq<Cell>)
    requires Valid(m) && InGrid(m, cell) && p in Climbs(m, cell)
    ensures Climb(m, p) && p[0] == cell && Height(m, p[|p| - 1]) == 9
    decreases CellWeight(m, cell)
  {
    if Height(m, cell) == 9 {
      assert p == [cell];
    } else {
      var next := Next(m, cell);
      NextLighter(m, cell);
      ViaMember(m, cell, next, p);
      var i :| 0 <= i < |next| && |p| >= 1 && p[0] == cell && p[1..] in Climbs(m, next[i]);
      NextIff(m, cell);
      assert next[i] in next;
      StepWeight(m, cell, next[i]);
      var q := p[1..];
      ClimbsSound(m, next[i], q);
      ClimbCons(m, cell, q);
      assert [cell] + q == p;
    }
  }

  /** Every increasing path to a 9 is listed from its first cell. */
  lemma {:induction false} ClimbsComplete(m: TopoMap, p: seq<Cell>)
    requires Valid(m) && Climb(m, p) && Height(m, p[|p| - 1]) == 9
    ensures p in Climbs(m, p[0])
    decreases |p|
  {
    var cell := p[0];
    if |p| == 1 {
      assert p == [cell];
    } else {
      var q := p[1..];
      ClimbTail(m, p);
      ClimbsComplete(m, q);
      var next := Next(m, cell);
      var i :| 0 <= i < |next| && next[i] == q[0];
      NextLighter(m, cell);
      ViaContains(m, cell, next, i, q);
      assert [cell] + q == p;
    }
  }

  /** An increasing path of two cells or more is a step up followed by an increasing path. */
  lemma ClimbTail(m: TopoMap, p: seq<Cell>)
    requires Valid(m) && Climb(m, p) && |p| >= 2
    ensures Climb(m, p[1..]) && p[1..][0] in Next(m, p[0]) && Height(m, p[0]) < 9
    ensures p[1..][|p| - 2] == p[|p| - 1]
  {
    NextIff(m, p[0]);
    assert p[1] in Next(m, p[0]);
    var q := p[1..];
    forall i | 0 <= i < |q| - 1 ensures InGrid(m, q[i]) && q[i + 1] in Next(m, q[i]) {
      assert q[i] == p[i + 1] && q[i + 1] == p[i + 2];
    }
  }

  /** The list holds exactly the increasing paths from `cell` to a 9. */
  lemma ClimbsIff(m: TopoMap, cell: Cell)
    requires Valid(m) && InGrid(m, cell)
    ensures forall p :: p in Climbs(m, cell) <==> Climb(m, p) && p[0] == cell && Height(m, p[|p| - 1]) == 9
  {
    forall p ensures p in Climbs(m, cell) <==> Climb(m, p) && p[0] == cell && Height(m, p[|p| - 1]) == 9 {
      if p in Climbs(m, cell) {
        ClimbsSound(m, cell, p);
      }
      if Climb(m, p) && p[0] == cell && Height(m, p[|p| - 1]) == 9 {
        ClimbsComplete(m, p);
      }
    }
  }

  /** A path listed through `cells` has its second cell among them. */
  lemma ViaSecond(m: TopoMap, cell: Cell, cells: seq<Cell>, p: seq<Cell>)
    requires Valid(m) && AllInGrid(m, cells) && p in ClimbsVia(m, cell, cells)
    ensures |p| >= 2 && p[0] == cell && p[1] in cells
  {
    ViaMember(m, cell, cells, p);
    var i :| 0 <= i < |cells| && |p| >= 1 && p[0] == cell && p[1..] in Climbs(m, cells[i]);
    ClimbsSound(m, cells[i], p[1..]);
  }

  lemma NoRepeatsConcat<T>(a: seq<T>, b: seq<T>)
    requires NoRepeats(a) && NoRepeats(b) && forall x :: x in a ==> x !in b
    ensures NoRepeats(a + b)
  {
    forall i, j | 0 <= i < j < |a + b| ensures (a + b)[i] != (a + b)[j] {
      if j < |a| {
        assert (a + b)[i] == a[i] && (a + b)[j] == a[j];
      } else if i < |a| {
        assert (a + b)[i] == a[i] && a[i] in a;
        assert (a + b)[j] == b[j - |a|] && b[j - |a|] in b;
      } else {
        assert (a + b)[i] == b[i - |a|] && (a + b)[j] == b[j - |a|];
      }
    }
  }

  /** No increasing path is listed twice. */
  lemma {:induction false} ClimbsNoRepeats(m: TopoMap, cell: Cell)
    requires Valid(m) && InGrid(m, cell)
    ensures NoRepeats(Climbs(m, cell))
    decreases CellWeight(m, cell), 1
  {
    if Height(m, cell) < 9 {
      NextLighter(m, cell);
      NextNoRepeats(m, cell);
      ViaNoRepeats(m, cell, Next(m, cell));
    }
  }

  /** Paths through different second cells differ, and so do paths through the same one. */
  lemma {:induction false} ViaNoRepeats(m: TopoMap, cell: Cell, cells: seq<Cell>)
    requires Valid(m) && AllInGrid(m, cells) && NoRepeats(cells)
    ensures NoRepeats(ClimbsVia(m, cell, cells))
    decreases Weight(m, cells), 2
  {
    if cells != [] {
      var first, rest := Climbs(m, cells[0]), cells[1..];
      var a, b := Prefix(cell, first), ClimbsVia(m, cell, rest);
      ClimbsNoRepeats(m, cells[0]);
      PrefixNoRepeats(cell, first);
      NoRepeatsTail(cells);
      ViaNoRepeats(m, cell, rest);
      PrefixSecond(m, cell, cells[0]);
      forall x | x in b ensures |x| >= 2 && x[1] in rest {
        ViaSecond(m, cell, rest, x);
      }
      NoRepeatsConcat(a, b);
    }
  }

  /** Putting the same cell in front keeps different paths different. */
  lemma PrefixNoRepeats(cell: Cell, ps: seq<seq<Cell>>)
    requires NoRepeats(ps)
    ensures NoRepeats(Prefix(cell, ps))
  {
    var a := Prefix(cell, ps);
    forall i, j | 0 <= i < j < |a| ensures a[i] != a[j] {
      assert a[i][1..] == ps[i] && a[j][1..] == ps[j];
    }
  }

  /** The paths from `cell` through `next` have `next` second. */
  lemma PrefixSecond(m: TopoMap, cell: Cell, next: Cell)
    requires Valid(m) && InGrid(m, next)
    ensures forall x :: x in Prefix(cell, Climbs(m, next)) ==> |x| >= 2 && x[1] == next
  {
    var first := Climbs(m, next);
    var a := Prefix(cell, first);
    forall x | x in a ensures |x| >= 2 && x[1] == next {
      var j :| 0 <= j < |a| && a[j] == x;
      ClimbsSound(m, next, first[j]);
      assert x == [cell] + first[j];
    }
  }

  /** The last cells of the paths, as many times as they end one. */
  function Finishes(ps: seq<seq<Cell>>): (f: multiset<Cell>)
    ensures |f| <= |ps|
  {
    if ps == [] then multiset{}
    else (if ps[0] == [] then multiset{} else multiset{ps[0][|ps[0]| - 1]}) + Finishes(ps[1..])
  }

  lemma {:induction false} FinishesConcat(a: seq<seq<Cell>>, b: seq<seq<Cell>>)
    ensures Finishes(a + b) == Finishes(a) + Finishes(b)
  {
    if a == [] {
      assert a + b == b;
    } else {
      assert (a + b)[0] == a[0] && (a + b)[1..] == a[1..] + b;
      FinishesConcat(a[1..], b);
    }
  }

  /** A cell in front does not change where the paths end. */
  lemma {:induction false} FinishesPrefix(cell: Cell, ps: seq<seq<Cell>>)
    requires forall i :: 0 <= i < |ps| ==> ps[i] != []
    ensures Finishes(Prefix(cell, ps)) == Finishes(ps)
  {
    if ps != [] {
      var r := Prefix(cell, ps);
      assert r[1..] == Prefix(cell, ps[1..]);
      assert r[0][|r[0]| - 1] == ps[0][|ps[0]| - 1];
      FinishesPrefix(cell, ps[1..]);
    }
  }

  /** The search records the ends of the listed paths: each 9 once per path that reaches it. */
  lemma {:induction false} ClimbsEnds(m: TopoMap, cell: Cell)
    requires Valid(m) && InGrid(m, cell)
    ensures Finishes(Climbs(m, cell)) == Ends(m, cell)
    decreases CellWeight(m, cell), 1
  {
    if Height(m, cell) == 9 {
      assert Climbs(m, cell)[1..] == [];
    } else {
      NextLighter(m, cell);
      ViaEnds(m, cell, Next(m, cell));
    }
  }

  lemma {:induction false} ViaEnds(m: TopoMap, cell: Cell, cells: seq<Cell>)
    requires Valid(m) && AllInGrid(m, cells)
    ensures Finishes(ClimbsVia(m, cell, cells)) == Pending(m, cells)
    decreases Weight(m, cells), 2
  {
    if cells != [] {
      var first := Climbs(m, cells[0]);
      ClimbsEnds(m, cells[0]);
      ViaEnds(m, cell, cells[1..]);
      forall i | 0 <= i < |first| ensures first[i] != [] {
        ClimbsSound(m, cells[0], first[i]);
      }
      FinishesPrefix(cell, first);
      FinishesConcat(Prefix(cell, first), ClimbsVia(m, cell, cells[1..]));
    }
  }

  /** The listed paths that end at x. */
  ghost function PathsTo(ps: seq<seq<Cell>>, x: Cell): set<seq<Cell>> {
    set p | p in ps && |p| >= 1 && p[|p| - 1] == x
  }

  /** The rest of a list without repeats has none, and does not hold its head. */
  lemma NoRepeatsTail<T>(ps: seq<T>)
    requires NoRepeats(ps) && ps != []
    ensures NoRepeats(ps[1..]) && ps[0] !in ps[1..]
  {
    var rest := ps[1..];
    forall i, j | 0 <= i < j < |rest| ensures rest[i] != rest[j] {
      assert rest[i] == ps[i + 1] && rest[j] == ps[j + 1];
    }
    forall i | 0 <= i < |rest| ensures rest[i] != ps[0] {
      assert rest[i] == ps[i + 1];
    }
  }

  /** In a list without repeats, a cell ends as many listed paths as it has entries among the
      ends. */
  lemma {:induction false} NoRepeatsCount(ps: seq<seq<Cell>>, x: Cell)
    requires NoRepeats(ps) && forall i :: 0 <= i < |ps| ==> ps[i] != []
    ensures |PathsTo(ps, x)| == Finishes(ps)[x]
  {
    if ps == [] {
      assert PathsTo(ps, x) == {};
    } else {
      NoRepeatsTail(ps);
      NoRepeatsCount(ps[1..], x);
      PathsToCons(ps, x);
    }
  }

  /** The head of a list of non-empty paths adds itself to the paths ending at x when it ends
      there, and its end to the ends. */
  lemma PathsToCons(ps: seq<seq<Cell>>, x: Cell)
    requires ps != [] && ps[0] != [] && ps[0] !in ps[1..]
    ensures |PathsTo(ps, x)| == (if ps[0][|ps[0]| - 1] == x then 1 else 0) + |PathsTo(ps[1..], x)|
    ensures Finishes(ps)[x] == (if ps[0][|ps[0]| - 1] == x then 1 else 0) + Finishes(ps[1..])[x]
  {
    var a, rest := ps[0], ps[1..];
    var mine: set<seq<Cell>> := if a[|a| - 1] == x then {a} else {};
    assert PathsTo(ps, x) == mine + PathsTo(rest, x) by {
      assert ps == [a] + rest;
    }
  }

  /** A list without repeats of non-empty paths has as many distinct paths, and ends, as entries. */
  lemma {:induction false} NoRepeatsSize(ps: seq<seq<Cell>>)
    requires NoRepeats(ps) && forall i :: 0 <= i < |ps| ==> ps[i] != []
    ensures |set p | p in ps| == |ps| == |Finishes(ps)|
  {
    if ps == [] {
      assert (set p | p in ps) == {};
    } else {
      var a, rest := ps[0], ps[1..];
      NoRepeatsTail(ps);
      NoRepeatsSize(rest);
      assert (set p | p in ps) == {a} + (set p | p in rest) by {
        assert ps == [a] + rest;
      }
    }
  }

  /** `read_trails_at` records each 9 once for every distinct increasing path from the
      trailhead that reaches it, so its length, the part 2 rating, is the number of distinct
      increasing paths from the trailhead to a 9. */
  lemma TrailRating(m: TopoMap, t: Trail)
    requires Valid(m) && InGrid(m, t.start) && multiset(t.points) == Ends(m, t.start)
    ensures forall p :: p in Climbs(m, t.start) <==> Climb(m, p) && p[0] == t.start && Height(m, p[|p| - 1]) == 9
    ensures forall x :: multiset(t.points)[x] == |PathsTo(Climbs(m, t.start), x)|
    ensures |t.points| == |set p | p in Climbs(m, t.start)|
  {
    var ps := Climbs(m, t.start);
    ClimbsIff(m, t.start);
    ClimbsNoRepeats(m, t.start);
    ClimbsEnds(m, t.start);
    forall i | 0 <= i < |ps| ensures ps[i] != [] {
      assert ps[i] in ps;
    }
    forall x ensures multiset(t.points)[x] == |PathsTo(ps, x)| {
      NoRepeatsCount(ps, x);
    }
    NoRepeatsSize(ps);
    assert |t.points| == |multiset(t.points)|;
  }

  // ---------------------------------------------------------------- score_map

  /** The height-0 cells of row r left of column c, left to right. */
  function RowZeros(m: TopoMap, r: nat, c: nat): (zs: seq<Cell>)
    requires Valid(m) && r < m.rows && c <= m.columns
    ensures AllInGrid(m, zs)
  {
    if c == 0 then []
    else RowZeros(m, r, c - 1) + (if Get(m, r, c - 1) == Some(0) then [(r, c - 1)] else [])
  }

  /** The height-0 cells of the first r rows, in row-major order. */
  function ZerosUpTo(m: TopoMap, r: nat): (zs: seq<Cell>)
    requires Valid(m) && r <= m.rows
    ensures AllInGrid(m, zs)
  {
    if r == 0 then [] else ZerosUpTo(m, r - 1) + RowZeros(m, r - 1, m.columns)
  }

  /** The trailheads, in the order `score_map` visits them. */
  function Zeros(m: TopoMap): (zs: seq<Cell>)
    requires Valid(m)
    ensures AllInGrid(m, zs)
  {
    ZerosUpTo(m, m.rows)
  }

  /** Cell a comes strictly before cell b in row-major order. */
  predicate Before(a: Cell, b: Cell) {
    a.0 < b.0 || (a.0 == b.0 && a.1 < b.1)
  }

  lemma {:induction false} RowZerosMembers(m: TopoMap, r: nat, c: nat)
    requires Valid(m) && r < m.rows && c <= m.columns
    ensures forall cell: Cell :: cell in RowZeros(m, r, c) <==> cell.0 == r && cell.1 < c && Get(m, r, cell.1) == Some(0)
  {
    if c > 0 {
      RowZerosMembers(m, r, c - 1);
    }
  }

  lemma {:induction false} RowZerosOrdered(m: TopoMap, r: nat, c: nat)
    requires Valid(m) && r < m.rows && c <= m.columns
    ensures forall i :: 0 <= i < |RowZeros(m, r, c)| ==> RowZeros(m, r, c)[i].0 == r && RowZeros(m, r, c)[i].1 < c
    ensures forall i, j :: 0 <= i < j < |RowZeros(m, r, c)| ==> RowZeros(m, r, c)[i].1 < RowZeros(m, r, c)[j].1
  {
    if c > 0 {
      RowZerosOrdered(m, r, c - 1);
      var front := RowZeros(m, r, c - 1);
      var tail: seq<Cell> := if Get(m, r, c - 1) == Some(0) then [(r, c - 1)] else [];
      var zs := front + tail;
      assert RowZeros(m, r, c) == zs;
      forall i | 0 <= i < |zs| ensures zs[i].0 == r && zs[i].1 < c {
        if i < |front| { assert zs[i] == front[i]; } else { assert zs[i] == tail[0]; }
      }
      forall i, j | 0 <= i < j < |zs| ensures zs[i].1 < zs[j].1 {
        if j < |front| {
          assert zs[i] == front[i] && zs[j] == front[j];
        } else {
          assert zs[i] == front[i] && zs[j] == tail[0];
        }
      }
    }
  }

  lemma {:induction false} ZerosUpToMembers(m: TopoMap, r: nat)
    requires Valid(m) && r <= m.rows
    ensures forall cell: Cell :: cell in ZerosUpTo(m, r) <==> cell.0 < r && InGrid(m, cell) && Height(m, cell) == 0
  {
    if r > 0 {
      ZerosUpToMembers(m, r - 1);
      RowZerosMembers(m, r - 1, m.columns);
    }
  }

  lemma {:induction false} ZerosUpToOrdered(m: TopoMap, r: nat)
    requires Valid(m) && r <= m.rows
    ensures forall i :: 0 <= i < |ZerosUpTo(m, r)| ==> ZerosUpTo(m, r)[i].0 < r
    ensures forall i, j :: 0 <= i < j < |ZerosUpTo(m, r)| ==> Before(ZerosUpTo(m, r)[i], ZerosUpTo(m, r)[j])
  {
    if r > 0 {
      ZerosUpToOrdered(m, r - 1);
      RowZerosOrdered(m, r - 1, m.columns);
      var a, b := ZerosUpTo(m, r - 1), RowZeros(m, r - 1, m.columns);
      var zs := a + b;
      forall i | 0 <= i < |zs| ensures zs[i].0 < r {
        if i < |a| { assert zs[i] == a[i]; } else { assert zs[i] == b[i - |a|]; }
      }
      forall i, j | 0 <= i < j < |zs| ensures Before(zs[i], zs[j]) {
        if j < |a| {
          assert zs[i] == a[i] && zs[j] == a[j];
        } else if i >= |a| {
          assert zs[i] == b[i - |a|] && zs[j] == b[j - |a|];
        } else {
          assert zs[i] == a[i] && zs[j] == b[j - |a|];
        }
      }
    }
  }

  /** The trailheads are exactly the height-0 cells, each once, in row-major order. */
  lemma ZerosIff(m: TopoMap)
    requires Valid(m)
    ensures forall cell: Cell :: cell in Zeros(m) <==> InGrid(m, cell) && Height(m, cell) == 0
    ensures forall i, j :: 0 <= i < j < |Zeros(m)| ==> Before(Zeros(m)[i], Zeros(m)[j])
  {
    ZerosUpToMembers(m, m.rows);
    ZerosUpToOrdered(m, m.rows);
  }

  /** Trail k starts at `starts[k]` and holds what a search from there records. */
  ghost predicate Scored(m: TopoMap, trails: seq<Trail>, starts: seq<Cell>)
    requires Valid(m)
  {
    && |trails| == |starts| && AllInGrid(m, starts)
    && forall i :: 0 <= i < |trails| ==>
      trails[i].start == starts[i] && multiset(trails[i].points) == Ends(m, starts[i])
  }

  lemma ScoredConcat(m: TopoMap, t1: seq<Trail>, s1: seq<Cell>, t2: seq<Trail>, s2: seq<Cell>)
    requires Valid(m) && Scored(m, t1, s1) && Scored(m, t2, s2)
    ensures Scored(m, t1 + t2, s1 + s2)
  {
    var t, s := t1 + t2, s1 + s2;
    forall i | 0 <= i < |t| ensures InGrid(m, s[i]) && t[i].start == s[i] && multiset(t[i].points) == Ends(m, s[i]) {
      if i < |t1| {
        assert t[i] == t1[i] && s[i] == s1[i];
      } else {
        assert t[i] == t2[i - |t1|] && s[i] == s2[i - |t1|];
      }
    }
  }

  /** `score_map`: one trail per height-0 cell, in row-major order, holding what its search
      records. */
  method ScoreMap(m: TopoMap) returns (trails: seq<Trail>)
    requires Valid(m)
    ensures |trails| == |Zeros(m)|
    ensures forall i :: 0 <= i < |trails| ==>
      trails[i].start == Zeros(m)[i] && multiset(trails[i].points) == Ends(m, Zeros(m)[i])
  {
    trails := [];
    for r := 0 to m.rows
      invariant Scored(m, trails, ZerosUpTo(m, r))
    {
      var row := ScoreRow(m, r);
      ScoredConcat(m, trails, ZerosUpTo(m, r), row, RowZeros(m, r, m.columns));
      trails := trails + row;
    }
  }

  /** The inner loop of `score_map` over the columns of row r. */
  method ScoreRow(m: TopoMap, r: nat) returns (trails: seq<Trail>)
    requires Valid(m) && r < m.rows
    ensures Scored(m, trails, RowZeros(m, r, m.columns))
  {
    trails := [];
    for c := 0 to m.columns
      invariant Scored(m, trails, RowZeros(m, r, c))
    {
      var val := Get(m, r, c);
      if val.Some? && val.value == 0 {
        var t := ReadTrailsAt(m, r, c);
        var cell: seq<Cell> := [(r, c)];
        assert Scored(m, [t], cell);
        ScoredConcat(m, trails, RowZeros(m, r, c), [t], cell);
        trails := trails + [t];
      }
    }
  }

  /** `e.points.iter().count()` summed over the trails: the part 2 rating. */
  function Rating(trails: seq<Trail>): nat {
    if trails == [] then 0 else |trails[0].points| + Rating(trails[1..])
  }

  /** `e.points.sort(); e.points.dedup(); e.points.iter().count()` summed over the trails: the
      part 1 score, counting each 9 once per trailhead. */
  function Score(trails: seq<Trail>): nat {
    if trails == [] then 0 else |set x | x in trails[0].points| + Score(trails[1..])
  }

  /** After sorting and deduplicating, a trail holds each 9 reachable from its trailhead once. */
  lemma TrailScore(m: TopoMap, t: Trail)
    requires Valid(m) && InGrid(m, t.start) && multiset(t.points) == Ends(m, t.start)
    ensures (set x | x in t.points) ==
      (set x: Cell | x in Ends(m, t.start))
    ensures forall x :: x in t.points <==>
      exists path :: Climb(m, path) && path[0] == t.start && path[|path| - 1] == x && Height(m, x) == 9
  {
    forall x ensures x in t.points <==> x in Ends(m, t.start) {
      assert x in t.points <==> x in multiset(t.points);
    }
    forall x ensures x in t.points <==>
      exists path :: Climb(m, path) && path[0] == t.start && path[|path| - 1] == x && Height(m, x) == 9
    {
      EndsReach(m, t.start, x);
    }
  }
}
