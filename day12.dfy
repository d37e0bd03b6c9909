/** Day 12: garden regions of one crop, fenced and priced by perimeter or by number of sides. */
module Day12 {

  import opened Wrappers
  import Text
  import Grid

  type Cell = Grid.Cell

  // ---------------------------------------------------------------- FarmMap

  /** The garden, one crop letter per plot, stored row by row. */
  datatype FarmMap = FarmMap(rows: nat, columns: nat, crops: seq<char>)

  /** `FarmMap::new`: as many rows as lines, as many columns as the first line, and every
      character but whitespace. Input without any line panics (`peek().unwrap()`). */
  function NewFarm(input: string): (r: Option<FarmMap>)
    ensures r.Some? <==> Text.Lines(input) != []
    ensures r.Some? ==> forall i :: 0 <= i < |r.value.crops| ==> !Text.IsWhitespace(r.value.crops[i])
  {
    var lines := Text.Lines(input);
    if lines == [] then None
    else Some(FarmMap(|lines|, |lines[0]|, Text.RemoveWhitespace(input)))
  }

  /** Every position has a stored crop, as `self.map[row * self.columns + col]` needs. */
  predicate Valid(m: FarmMap) {
    |m.crops| == m.rows * m.columns
  }

  /** `contains`: the position lies inside the garden. */
  predicate Contains(m: FarmMap, cell: Cell) {
    cell.0 < m.rows && cell.1 < m.columns
  }

  /** `get`: None outside the garden, otherwise the crop stored at `row * columns + col`. */
  function Get(m: FarmMap, cell: Cell): (r: Option<char>)
    requires Valid(m)
    ensures r.Some? <==> Contains(m, cell)
  {
    if Contains(m, cell) then
      Grid.RowMajorBound(cell.0, cell.1, m.rows, m.columns);
      Some(m.crops[cell.0 * m.columns + cell.1])
    else None
  }

  /** The garden of some lines, row by row. */
  function LinesFarm(lines: seq<string>): FarmMap
    requires |lines| >= 1
  {
    FarmMap(|lines|, |lines[0]|, Text.Flatten(lines))
  }

  /** Equal lines without whitespace, joined by newlines, give the garden of their letters. */
  lemma NewFarmLines(lines: seq<string>)
    requires |lines| >= 1 && lines[|lines| - 1] != []
    requires forall i :: 0 <= i < |lines| ==> |lines[i]| == |lines[0]|
    requires forall i, j :: 0 <= i < |lines| && 0 <= j < |lines[i]| ==> !Text.IsWhitespace(lines[i][j])
    ensures NewFarm(Text.Join(lines, '\n')) == Some(LinesFarm(lines)) && Valid(LinesFarm(lines))
  {
    Text.LinesJoin(lines);
    Text.RemoveWhitespaceJoin(lines);
    Grid.FlattenLength(lines, |lines[0]|);
  }

  /** In the garden of equal lines, `get(r, c)` is letter c of line r. */
  lemma LinesFarmGet(lines: seq<string>, r: nat, c: nat)
    requires |lines| >= 1 && forall i :: 0 <= i < |lines| ==> |lines[i]| == |lines[0]|
    requires r < |lines| && c < |lines[0]|
    ensures Valid(LinesFarm(lines)) && Get(LinesFarm(lines), (r, c)) == Some(lines[r][c])
  {
    Grid.FlattenLength(lines, |lines[0]|);
    Grid.FlattenIndex(lines, |lines[0]|, r, c);
  }

  /** No cell occurs twice. */
  predicate Distinct(s: seq<Cell>) {
    forall i, j :: 0 <= i < j < |s| ==> s[i] != s[j]
  }

  lemma DistinctAppend(a: seq<Cell>, b: seq<Cell>)
    requires Distinct(a) && Distinct(b) && forall x :: x in a ==> x !in b
    ensures Distinct(a + b)
  {
    forall i, j | 0 <= i < j < |a + b| ensures (a + b)[i] != (a + b)[j] {
      if i < |a| && j >= |a| {
        assert (a + b)[i] in a && (a + b)[j] == b[j - |a|];
      }
    }
  }

  /** The cells of `cells` inside the garden, in order. */
  function Inside(m: FarmMap, cells: seq<Cell>): (r: seq<Cell>)
    ensures |r| <= |cells|
  {
    if cells == [] then []
    else Inside(m, cells[..|cells| - 1]) + (if Contains(m, cells[|cells| - 1]) then [cells[|cells| - 1]] else [])
  }

  lemma {:induction false} InsideIff(m: FarmMap, cells: seq<Cell>)
    ensures forall cell :: cell in Inside(m, cells) <==> cell in cells && Contains(m, cell)
  {
    if cells != [] {
      var front, last := cells[..|cells| - 1], cells[|cells| - 1];
      InsideIff(m, front);
      assert cells == front + [last];
    }
  }

  lemma {:induction false} InsideDistinct(m: FarmMap, cells: seq<Cell>)
    requires Distinct(cells)
    ensures Distinct(Inside(m, cells))
  {
    if cells != [] {
      var front, last := cells[..|cells| - 1], cells[|cells| - 1];
      InsideDistinct(m, front);
      InsideIff(m, front);
      assert last !in front;
      assert last !in Inside(m, front);
    }
  }

  lemma InsideSnoc(m: FarmMap, cells: seq<Cell>, x: Cell)
    ensures Inside(m, cells + [x]) == Inside(m, cells) + (if Contains(m, x) then [x] else [])
  {
    assert (cells + [x])[..|cells|] == cells;
  }

  /** The cells `get_neighbors` returns. */
  function Neighbors(m: FarmMap, cell: Cell): seq<Cell> {
    Inside(m, Grid.Adjacent(cell.0, cell.1))
  }

  /** `get_neighbors` returns the orthogonal neighbours inside the garden, each once: at most
      four of them. */
  lemma NeighborsIff(m: FarmMap, cell: Cell)
    ensures |Neighbors(m, cell)| <= 4
    ensures forall n :: n in Neighbors(m, cell) <==> Contains(m, n) && Grid.Orthogonal(cell, n)
    ensures Distinct(Neighbors(m, cell))
  {
    Grid.AdjacentIff(cell.0, cell.1);
    InsideIff(m, Grid.Adjacent(cell.0, cell.1));
    InsideDistinct(m, Grid.Adjacent(cell.0, cell.1));
  }

  lemma NeighborStep(m: FarmMap, row: nat, col: nat, i: nat)
    requires i < |Grid.Steps|
    ensures var r, c := row + Grid.Steps[i].0, col + Grid.Steps[i].1;
      if r >= 0 && c >= 0 && Contains(m, (r, c))
      then Inside(m, Grid.AdjacentUpTo(row, col, i + 1)) == Inside(m, Grid.AdjacentUpTo(row, col, i)) + [(r, c)]
      else Inside(m, Grid.AdjacentUpTo(row, col, i + 1)) == Inside(m, Grid.AdjacentUpTo(row, col, i))
  {
    var r, c := row + Grid.Steps[i].0, col + Grid.Steps[i].1;
    if r >= 0 && c >= 0 {
      InsideSnoc(m, Grid.AdjacentUpTo(row, col, i), (r, c));
    } else {
      assert Grid.AdjacentUpTo(row, col, i + 1) == Grid.AdjacentUpTo(row, col, i);
    }
  }

  method GetNeighbors(m: FarmMap, row: nat, col: nat) returns (result: seq<Cell>)
    ensures result == Neighbors(m, (row, col))
  {
    result := [];
    for i := 0 to |Grid.Steps|
      invariant result == Inside(m, Grid.AdjacentUpTo(row, col, i))
    {
      var r, c := row + Grid.Steps[i].0, col + Grid.Steps[i].1;
      NeighborStep(m, row, col, i);
      if r >= 0 && c >= 0 && Contains(m, (r, c)) {
        result := result + [(r, c)];
      }
    }
  }

  // ---------------------------------------------------------------- shared sides

  /** Cell a comes strictly before cell b in row-major order. */
  predicate Before(a: Cell, b: Cell) {
    a.0 < b.0 || (a.0 == b.0 && a.1 < b.1)
  }

  /** The side two different plots share, named by the pair in row-major order. */
  function Side(a: Cell, b: Cell): (Cell, Cell) {
    if Before(a, b) then (a, b) else (b, a)
  }

  /** The sides shared by two plots of a set: one per unordered pair of orthogonal plots. */
  ghost function Sides(plots: set<Cell>): set<(Cell, Cell)> {
    set p, q | p in plots && q in plots && Grid.Orthogonal(p, q) && Before(p, q) :: (p, q)
  }

  /** The plots of a set orthogonal to `cell`. */
  ghost function Touching(plots: set<Cell>, cell: Cell): set<Cell> {
    set q | q in plots && Grid.Orthogonal(cell, q)
  }

  /** Different plots touching x share different sides with it. */
  lemma {:induction false} SideImage(x: Cell, near: set<Cell>)
    requires x !in near
    ensures |set q | q in near :: Side(x, q)| == |near|
    decreases |near|
  {
    if near != {} {
      var q :| q in near;
      var rest := near - {q};
      SideImage(x, rest);
      var image := set y | y in rest :: Side(x, y);
      assert (set y | y in near :: Side(x, y)) == image + {Side(x, q)};
      assert Side(x, q) !in image;
    }
  }

  /** A new plot adds one shared side per region plot it touches. */
  lemma SidesAdd(plots: set<Cell>, x: Cell)
    requires x !in plots
    ensures |Sides(plots + {x})| == |Sides(plots)| + |Touching(plots, x)|
  {
    var near := Touching(plots, x);
    var added := set q | q in near :: Side(x, q);
    forall pr | pr in Sides(plots + {x}) ensures pr in Sides(plots) + added {
      var p, q :| p in plots + {x} && q in plots + {x} && Grid.Orthogonal(p, q) && Before(p, q) && pr == (p, q);
      if p == x {
        assert q in near && Side(x, q) == pr;
      } else if q == x {
        assert p in near && Side(x, p) == pr;
      }
    }
    forall pr | pr in added ensures pr in Sides(plots + {x}) {
      var q :| q in near && pr == Side(x, q);
    }
    assert Sides(plots + {x}) == Sides(plots) + added;
    assert Sides(plots) !! added;
    SideImage(x, near);
  }

  /** The cells a sequence holds. */
  ghost function Elements(cells: seq<Cell>): set<Cell> {
    set x | x in cells
  }

  /** How many of `cells` lie in `plots`. */
  function CountIn(cells: seq<Cell>, plots: set<Cell>): (n: nat)
    ensures n <= |cells|
  {
    if cells == [] then 0
    else CountIn(cells[..|cells| - 1], plots) + (if cells[|cells| - 1] in plots then 1 else 0)
  }

  lemma {:induction false} CountInCard(cells: seq<Cell>, plots: set<Cell>)
    requires forall i, j :: 0 <= i < j < |cells| ==> cells[i] != cells[j]
    ensures CountIn(cells, plots) == |Elements(cells) * plots|
  {
    if cells != [] {
      var front, last := cells[..|cells| - 1], cells[|cells| - 1];
      CountInCard(front, plots);
      assert cells == front + [last];
      KeptSnoc(front, last, plots);
    }
  }

  lemma KeptSnoc(front: seq<Cell>, last: Cell, plots: set<Cell>)
    requires last !in front
    ensures var before := Elements(front) * plots;
      && Elements(front + [last]) * plots == before + (if last in plots then {last} else {})
      && last !in before
  {
    var before := Elements(front) * plots;
    assert forall x :: x in front + [last] <==> x in front || x == last;
  }

  lemma CountInSnoc(cells: seq<Cell>, x: Cell, plots: set<Cell>)
    ensures CountIn(cells + [x], plots) == CountIn(cells, plots) + (if x in plots then 1 else 0)
  {
    assert (cells + [x])[..|cells|] == cells;
  }

  /** `count_neighbors` counts the region plots a cell touches: at most four. */
  lemma CountTouching(plots: set<Cell>, cell: Cell)
    ensures CountIn(Grid.Adjacent(cell.0, cell.1), plots) == |Touching(plots, cell)| <= 4
  {
    var adj := Grid.Adjacent(cell.0, cell.1);
    Grid.AdjacentIff(cell.0, cell.1);
    CountInCard(adj, plots);
    assert Elements(adj) * plots == Touching(plots, cell);
  }

  // ---------------------------------------------------------------- corners

  /** The four corner checks of `count_corners`, one per corner of a plot clockwise from the
      top left: the step to one side, the diagonal step and the step to the other side. */
  const Checks: seq<((int, int), (int, int), (int, int))> := [
    ((0, -1), (-1, -1), (-1, 0)),
    ((-1, 0), (-1, 1), (0, 1)),
    ((0, 1), (1, 1), (1, 0)),
    ((1, 0), (1, -1), (0, -1))
  ]

  /** `get_relative`: the region plot one step away, if there is one. */
  function Relative(plots: set<Cell>, plot: Cell, step: (int, int)): (r: Option<Cell>)
    ensures r.Some? <==> plot.0 + step.0 >= 0 && plot.1 + step.1 >= 0 && (plot.0 + step.0, plot.1 + step.1) in plots
    ensures r.Some? ==> r.value in plots && r.value.0 == plot.0 + step.0 && r.value.1 == plot.1 + step.1
  {
    var row, col := plot.0 + step.0, plot.1 + step.1;
    if row >= 0 && col >= 0 && (row, col) in plots then Some((row, col)) else None
  }

  /** What one check adds: an outer corner when neither side is in the region, an inner
      corner when both sides are and the diagonal is not. The two cannot both happen. */
  function CheckCorners(plots: set<Cell>, plot: Cell, check: ((int, int), (int, int), (int, int))): (n: nat)
    ensures n <= 1
    ensures n == 1 <==>
      || (Relative(plots, plot, check.0).None? && Relative(plots, plot, check.2).None?)
      || (Relative(plots, plot, check.0).Some? && Relative(plots, plot, check.1).None? && Relative(plots, plot, check.2).Some?)
  {
    var left, middle, right := Relative(plots, plot, check.0), Relative(plots, plot, check.1), Relative(plots, plot, check.2);
    (if left.None? && right.None? then 1 else 0) + (if left.Some? && middle.None? && right.Some? then 1 else 0)
  }

  /** The corners the first n checks find at `plot`. */
  function CornersUpTo(plots: set<Cell>, plot: Cell, n: nat): (k: nat)
    requires n <= |Checks|
    ensures k <= n
  {
    if n == 0 then 0 else CornersUpTo(plots, plot, n - 1) + CheckCorners(plots, plot, Checks[n - 1])
  }

  /** The corners of the region's outline at one plot: at most four. */
  function CornersAt(plots: set<Cell>, plot: Cell): (k: nat)
    ensures k <= 4
  {
    CornersUpTo(plots, plot, |Checks|)
  }

  /** The corners at the plots of `part`, added up in any order. */
  ghost function CornerSum(plots: set<Cell>, part: set<Cell>): nat
    decreases part
  {
    if part == {} then 0
    else
      var p :| p in part;
      CornersAt(plots, p) + CornerSum(plots, part - {p})
  }

  /** What `count_corners` counts: the corners of the region's outline, that is its sides. */
  ghost function Corners(plots: set<Cell>): nat {
    CornerSum(plots, plots)
  }

  /** The sum does not depend on which plot is taken first. */
  lemma {:induction false} CornerSumRemove(plots: set<Cell>, part: set<Cell>, p: Cell)
    requires p in part
    ensures CornerSum(plots, part) == CornersAt(plots, p) + CornerSum(plots, part - {p})
    decreases |part|
  {
    var q :| q in part && CornerSum(plots, part) == CornersAt(plots, q) + CornerSum(plots, part - {q});
    if p != q {
      CornerSumRemove(plots, part - {q}, p);
      CornerSumRemove(plots, part - {p}, q);
      assert part - {q} - {p} == part - {p} - {q};
    }
  }

  /** At most four corners per plot. */
  lemma {:induction false} CornerSumBound(plots: set<Cell>, part: set<Cell>)
    ensures CornerSum(plots, part) <= 4 * |part|
    decreases |part|
  {
    if part != {} {
      var p :| p in part;
      CornerSumRemove(plots, part, p);
      CornerSumBound(plots, part - {p});
    }
  }

  /** A lone plot has four corners: its fence has four sides. */
  lemma LonePlot(p: Cell)
    ensures Corners({p}) == 4 && Perimeter({p}) == 4
  {
    FenceSumRemove({p}, {p}, p);
    assert Touching({p}, p) == {};
    CornerSumRemove({p}, {p}, p);
    assert {p} - {p} == {};
    assert CornersUpTo({p}, p, 1) == 1;
    assert CornersUpTo({p}, p, 2) == 2;
    assert CornersUpTo({p}, p, 3) == 3;
  }

  // ---------------------------------------------------------------- perimeter

  /** The fence pieces around the plots of `part`: each plot has four sides, less those it
      shares with a plot of `plots`. */
  ghost function FenceSum(plots: set<Cell>, part: set<Cell>): int
    decreases part
  {
    if part == {} then 0
    else
      var p :| p in part;
      (4 - |Touching(plots, p)|) + FenceSum(plots, part - {p})
  }

  /** The perimeter of a region: the plot sides that face no plot of the region. */
  ghost function Perimeter(plots: set<Cell>): int {
    FenceSum(plots, plots)
  }

  lemma {:induction false} FenceSumRemove(plots: set<Cell>, part: set<Cell>, p: Cell)
    requires p in part
    ensures FenceSum(plots, part) == (4 - |Touching(plots, p)|) + FenceSum(plots, part - {p})
    decreases |part|
  {
    var q :| q in part && FenceSum(plots, part) == (4 - |Touching(plots, q)|) + FenceSum(plots, part - {q});
    if p != q {
      FenceSumRemove(plots, part - {q}, p);
      FenceSumRemove(plots, part - {p}, q);
      assert part - {q} - {p} == part - {p} - {q};
    }
  }

  /** A new plot touches each of its neighbours once more. */
  lemma TouchingAdd(plots: set<Cell>, x: Cell, p: Cell)
    requires x !in plots
    ensures |Touching(plots + {x}, p)| == |Touching(plots, p)| + (if Grid.Orthogonal(p, x) then 1 else 0)
  {
    if Grid.Orthogonal(p, x) {
      assert Touching(plots + {x}, p) == Touching(plots, p) + {x};
    } else {
      assert Touching(plots + {x}, p) == Touching(plots, p);
    }
  }

  /** Adding plot x removes one fence piece from each plot of `part` next to it. */
  lemma {:induction false} FenceSumShift(plots: set<Cell>, x: Cell, part: set<Cell>)
    requires x !in plots && part <= plots
    ensures FenceSum(plots + {x}, part) == FenceSum(plots, part) - |Touching(plots, x) * part|
    decreases |part|
  {
    var near := Touching(plots, x);
    if part == {} {
      assert near * part == {};
    } else {
      var p :| p in part;
      FenceSumRemove(plots + {x}, part, p);
      FenceSumRemove(plots, part, p);
      FenceSumShift(plots, x, part - {p});
      TouchingAdd(plots, x, p);
      if p in near {
        assert near * part == near * (part - {p}) + {p};
      } else {
        assert near * part == near * (part - {p});
      }
    }
  }

  /** The perimeter is four sides per plot, less both sides of every shared side: the count
      `add_plot` keeps. */
  lemma {:induction false} PerimeterCount(plots: set<Cell>)
    ensures Perimeter(plots) == 4 * |plots| - 2 * |Sides(plots)|
    decreases |plots|
  {
    if plots == {} {
      assert Sides(plots) == {};
    } else {
      var x :| x in plots;
      var rest := plots - {x};
      assert plots == rest + {x};
      FenceSumRemove(plots, plots, x);
      FenceSumShift(rest, x, rest);
      assert Touching(rest, x) * rest == Touching(rest, x);
      assert Touching(plots, x) == Touching(rest, x);
      PerimeterCount(rest);
      SidesAdd(rest, x);
    }
  }

  // ---------------------------------------------------------------- Region

  class Region {
    var crop: char
    var plots: set<Cell>
    var perimeter: int

    constructor (crop: char)
      ensures this.crop == crop && plots == {} && perimeter == 0
    {
      this.crop := crop;
      plots := {};
      perimeter := 0;
    }

    /** The perimeter `add_plot` maintains: four sides per plot, less the two fence pieces
        each shared side saves. */
    ghost predicate Fenced()
      reads this
    {
      perimeter == 4 * |plots| - 2 * |Sides(plots)|
    }

    /** `count_neighbors`: how many of the four steps from (row, col) land on a region plot. */
    method CountNeighbors(row: nat, col: nat) returns (count: nat)
      ensures count == |Touching(plots, (row, col))| && count <= 4
    {
      count := 0;
      for i := 0 to |Grid.Steps|
        invariant count == CountIn(Grid.AdjacentUpTo(row, col, i), plots)
      {
        var (dr, dc) := Grid.Steps[i];
        var r, c := row + dr, col + dc;
        if r >= 0 && c >= 0 {
          CountInSnoc(Grid.AdjacentUpTo(row, col, i), (r, c), plots);
          if (r, c) in plots {
            count := count + 1;
          }
        } else {
          assert Grid.AdjacentUpTo(row, col, i + 1) == Grid.AdjacentUpTo(row, col, i);
        }
      }
      CountTouching(plots, (row, col));
    }

    /** `add_plot`: the fence grows by 4 - 2n for a plot touching n region plots. For a plot
        not yet in the region this keeps the perimeter invariant. */
    method AddPlot(row: nat, col: nat)
      modifies this
      ensures crop == old(crop) && plots == old(plots) + {(row, col)}
      ensures perimeter == old(perimeter) + 4 - 2 * |Touching(old(plots), (row, col))|
      ensures (row, col) !in old(plots) && old(Fenced()) ==> Fenced()
    {
      var neighbors := CountNeighbors(row, col);
      if neighbors == 0 {
        perimeter := perimeter + 4;
      } else if neighbors == 1 {
        perimeter := perimeter + 2;
      } else if neighbors == 2 {
      } else if neighbors == 3 {
        perimeter := perimeter - 2;
      } else {
        perimeter := perimeter - 4;
      }
      if (row, col) !in plots {
        SidesAdd(plots, (row, col));
      }
      plots := plots + {(row, col)};
    }

    /** `count_corners`: the corners of the outline, visiting the plots in any order. */
    method CountCorners() returns (count: nat)
      ensures count == Corners(plots)
    {
      count := 0;
      var remaining := plots;
      while remaining != {}
        invariant remaining <= plots
        invariant count + CornerSum(plots, remaining) == Corners(plots)
        decreases |remaining|
      {
        var plot :| plot in remaining;
        CornerSumRemove(plots, remaining, plot);
        ghost var before := count;
        for j := 0 to |Checks|
          invariant count == before + CornersUpTo(plots, plot, j)
        {
          var check := Checks[j];
          var left := Relative(plots, plot, check.0);
          var middle := Relative(plots, plot, check.1);
          var right := Relative(plots, plot, check.2);
          if left.None? && right.None? {
            count := count + 1;
          }
          if left.Some? && middle.None? && right.Some? {
            count := count + 1;
          }
        }
        remaining := remaining - {plot};
      }
    }

    /** `bulk_price`: number of sides times area. */
    method BulkPrice() returns (price: nat)
      ensures price == Corners(plots) * |plots|
    {
      var corners := CountCorners();
      price := corners * |plots|;
    }

    /** `price`: perimeter times area. */
    function Price(): int
      reads this
    {
      perimeter * |plots|
    }
  }

  /** A fenced region's price is fixed by its plots alone, whatever order they came in. */
  lemma PriceFenced(r: Region)
    requires r.Fenced()
    ensures r.perimeter == Perimeter(r.plots)
    ensures r.Price() == Perimeter(r.plots) * |r.plots|
  {
    PerimeterCount(r.plots);
  }

  // ---------------------------------------------------------------- regions as components

  /** A walk of orthogonal steps over plots of one crop. */
  ghost predicate Walk(m: FarmMap, crop: char, path: seq<Cell>)
    requires Valid(m)
  {
    && |path| >= 1
    && (forall i :: 0 <= i < |path| ==> Get(m, path[i]) == Some(crop))
    && (forall i :: 0 <= i < |path| - 1 ==> Grid.Orthogonal(path[i], path[i + 1]))
  }

  /** b can be reached from a by a walk over plots of `crop`. */
  ghost predicate Linked(m: FarmMap, crop: char, a: Cell, b: Cell)
    requires Valid(m)
  {
    exists path :: Walk(m, crop, path) && path[0] == a && path[|path| - 1] == b
  }

  /** No plot of X has a neighbour of its own crop outside X. */
  ghost predicate Closed(m: FarmMap, X: set<Cell>)
    requires Valid(m)
  {
    forall p, q :: p in X && Grid.Orthogonal(p, q) && Contains(m, q) && Get(m, q) == Get(m, p) ==> q in X
  }

  /** `plots` is the region of `crop` around `start`: it holds the start, every plot of it has
      that crop and is reachable from the start, and no plot of that crop next to it is missing. */
  ghost predicate IsRegion(m: FarmMap, crop: char, start: Cell, plots: set<Cell>)
    requires Valid(m)
  {
    && start in plots
    && (forall p :: p in plots ==> Get(m, p) == Some(crop) && Linked(m, crop, start, p))
    && Closed(m, plots)
  }

  /** A walk that starts inside a closed set stays inside it. */
  lemma {:induction false} WalkForward(m: FarmMap, crop: char, X: set<Cell>, path: seq<Cell>)
    requires Valid(m) && Walk(m, crop, path) && Closed(m, X) && path[0] in X
    ensures path[|path| - 1] in X
    decreases |path|
  {
    if |path| > 1 {
      assert Get(m, path[1]) == Get(m, path[0]) && Grid.Orthogonal(path[0], path[1]);
      var tail := path[1..];
      assert Walk(m, crop, tail) by {
        forall i | 0 <= i < |tail| - 1 ensures Grid.Orthogonal(tail[i], tail[i + 1]) {
          assert tail[i] == path[i + 1] && tail[i + 1] == path[i + 2];
        }
      }
      WalkForward(m, crop, X, tail);
    }
  }

  /** A walk that ends inside a closed set started inside it. */
  lemma {:induction false} WalkBackward(m: FarmMap, crop: char, X: set<Cell>, path: seq<Cell>)
    requires Valid(m) && Walk(m, crop, path) && Closed(m, X) && path[|path| - 1] in X
    ensures path[0] in X
    decreases |path|
  {
    var n := |path|;
    if n > 1 {
      assert Get(m, path[n - 2]) == Get(m, path[n - 1]) && Grid.Orthogonal(path[n - 1], path[n - 2]);
      var front := path[..n - 1];
      assert Walk(m, crop, front);
      WalkBackward(m, crop, X, front);
    }
  }

  /** A region is exactly the set of plots reachable from its start through its own crop. */
  lemma RegionIsComponent(m: FarmMap, crop: char, start: Cell, plots: set<Cell>, p: Cell)
    requires Valid(m) && IsRegion(m, crop, start, plots)
    ensures p in plots <==> Linked(m, crop, start, p)
  {
    if Linked(m, crop, start, p) {
      var path :| Walk(m, crop, path) && path[0] == start && path[|path| - 1] == p;
      WalkForward(m, crop, plots, path);
    }
  }

  /** A region grown from a start outside a closed set misses that set entirely. */
  lemma RegionAvoids(m: FarmMap, crop: char, start: Cell, plots: set<Cell>, X: set<Cell>)
    requires Valid(m) && IsRegion(m, crop, start, plots) && Closed(m, X) && start !in X
    ensures plots !! X
  {
    forall p | p in plots ensures p !in X {
      if p in X {
        var path :| Walk(m, crop, path) && path[0] == start && path[|path| - 1] == p;
        WalkBackward(m, crop, X, path);
      }
    }
  }

  lemma ClosedUnion(m: FarmMap, X: set<Cell>, Y: set<Cell>)
    requires Valid(m) && Closed(m, X) && Closed(m, Y)
    ensures Closed(m, X + Y)
  {
  }

  /** Two regions of one garden either coincide or share no plot. */
  lemma RegionsDisjoint(m: FarmMap, c1: char, s1: Cell, p1: set<Cell>, c2: char, s2: Cell, p2: set<Cell>)
    requires Valid(m) && IsRegion(m, c1, s1, p1) && IsRegion(m, c2, s2, p2) && s2 !in p1
    ensures p1 !! p2
  {
    RegionAvoids(m, c2, s2, p2, p1);
  }

  // ---------------------------------------------------------------- Region::new

  /** All positions of the garden. */
  ghost function Positions(m: FarmMap): set<Cell> {
    set r: nat, c: nat | r < m.rows && c < m.columns :: (r, c)
  }

  /** The cells of `ns` not in `seen`, in order. */
  function Unvisited(ns: seq<Cell>, seen: set<Cell>): (r: seq<Cell>)
    ensures forall x :: x in r <==> x in ns && x !in seen
    ensures (forall x :: x in ns ==> x in seen) ==> r == []
  {
    if ns == [] then []
    else
      var last := ns[|ns| - 1];
      assert ns == ns[..|ns| - 1] + [last];
      Unvisited(ns[..|ns| - 1], seen) + (if last in seen then [] else [last])
  }

  lemma {:induction false} UnvisitedDistinct(ns: seq<Cell>, seen: set<Cell>)
    requires Distinct(ns)
    ensures Distinct(Unvisited(ns, seen))
  {
    if ns != [] {
      var front, last := ns[..|ns| - 1], ns[|ns| - 1];
      UnvisitedDistinct(front, seen);
      assert last !in front;
      DistinctAppend(Unvisited(front, seen), if last in seen then [] else [last]);
    }
  }

  lemma UnvisitedSnoc(ns: seq<Cell>, x: Cell, seen: set<Cell>)
    ensures Unvisited(ns + [x], seen) == Unvisited(ns, seen) + (if x in seen then [] else [x])
  {
    assert (ns + [x])[..|ns|] == ns;
  }

  /** One step of the inner loop of `Region::new`: the next neighbour was not pushed before. */
  lemma PushStep(ns: seq<Cell>, j: nat, visited: set<Cell>)
    requires Distinct(ns) && j < |ns|
    ensures ns[j] in visited + Elements(ns[..j]) <==> ns[j] in visited
    ensures Unvisited(ns[..j + 1], visited) == Unvisited(ns[..j], visited) + (if ns[j] in visited then [] else [ns[j]])
  {
    assert ns[..j + 1] == ns[..j] + [ns[j]];
    UnvisitedSnoc(ns[..j], ns[j], visited);
    assert ns[j] !in ns[..j];
  }

  lemma ElementsStep(ns: seq<Cell>, j: nat, visited: set<Cell>)
    requires j < |ns|
    ensures visited + Elements(ns[..j + 1]) == visited + Elements(ns[..j]) + {ns[j]}
  {
    assert ns[..j + 1] == ns[..j] + [ns[j]];
  }

  /** The inner loop of `Region::new`: push each neighbour not yet visited and mark it. */
  method PushUnvisited(queue: seq<Cell>, visited: set<Cell>, ns: seq<Cell>) returns (queue': seq<Cell>, visited': set<Cell>)
    requires Distinct(ns)
    ensures queue' == queue + Unvisited(ns, visited)
    ensures visited' == visited + Elements(ns)
  {
    queue', visited' := queue, visited;
    for j := 0 to |ns|
      invariant queue' == queue + Unvisited(ns[..j], visited)
      invariant visited' == visited + Elements(ns[..j])
    {
      var next := ns[j];
      PushStep(ns, j, visited);
      ElementsStep(ns, j, visited);
      if next !in visited' {
        queue' := queue' + [next];
        visited' := visited' + {next};
      }
    }
    assert ns[..|ns|] == ns;
  }

  /** The state of the flood fill from `start`, whose crop is `crop`. A cell counts as seen once
      it is visited, and the start from the beginning. */
  ghost predicate Flood(m: FarmMap, start: Cell, crop: char, queue: seq<Cell>, visited: set<Cell>, plots: set<Cell>)
    requires Valid(m)
  {
    && Get(m, start) == Some(crop)
    && (start in visited || (visited == {} && queue == [start] && plots == {}))
    && Stack(m, start, queue, visited)
    && Grown(m, crop, queue, visited, plots)
    && Reached(m, start, crop, visited, plots)
  }

  /** The stack holds distinct visited garden cells (or the start). */
  ghost predicate Stack(m: FarmMap, start: Cell, queue: seq<Cell>, visited: set<Cell>) {
    && (forall v :: v in visited ==> Contains(m, v))
    && (forall i :: 0 <= i < |queue| ==> queue[i] == start || queue[i] in visited)
    && Distinct(queue)
  }

  /** The plots are exactly the visited cells of the crop that have left the stack. */
  ghost predicate Grown(m: FarmMap, crop: char, queue: seq<Cell>, visited: set<Cell>, plots: set<Cell>)
    requires Valid(m)
  {
    && (forall p :: p in plots ==> p in visited && p !in queue && Get(m, p) == Some(crop))
    && (forall v :: v in visited && v !in queue && Get(m, v) == Some(crop) ==> v in plots)
  }

  /** Every neighbour of a plot was visited, and every visited cell of the crop is reachable. */
  ghost predicate Reached(m: FarmMap, start: Cell, crop: char, visited: set<Cell>, plots: set<Cell>)
    requires Valid(m)
  {
    && (forall p, q :: p in plots && Contains(m, q) && Grid.Orthogonal(p, q) ==> q in visited)
    && (forall v :: v in visited && Get(m, v) == Some(crop) ==> Linked(m, crop, start, v))
  }

  lemma FloodInit(m: FarmMap, start: Cell, crop: char)
    requires Valid(m) && Get(m, start) == Some(crop)
    ensures Flood(m, start, crop, [start], {}, {})
  {
  }

  /** The cell on top of the stack lies in the garden and is no plot yet. */
  lemma FloodTop(m: FarmMap, start: Cell, crop: char, queue: seq<Cell>, visited: set<Cell>, plots: set<Cell>)
    requires Valid(m) && Flood(m, start, crop, queue, visited, plots) && queue != []
    ensures var cell := queue[|queue| - 1];
      && Contains(m, cell) && cell !in plots
      && (visited + {cell}) + {start} == visited + {start}
      && visited + {cell} <= Positions(m)
  {
    var cell := queue[|queue| - 1];
    assert cell in queue;
    forall v | v in visited + {cell} ensures v in Positions(m) {
      assert Contains(m, v);
      assert v == (v.0, v.1);
    }
  }

  /** Popping a cell of another crop: it is only marked visited. */
  lemma FloodSkip(m: FarmMap, start: Cell, crop: char, queue: seq<Cell>, visited: set<Cell>, plots: set<Cell>)
    requires Valid(m) && Flood(m, start, crop, queue, visited, plots) && queue != []
    requires Get(m, queue[|queue| - 1]) != Some(crop)
    ensures Flood(m, start, crop, queue[..|queue| - 1], visited + {queue[|queue| - 1]}, plots)
  {
    var n := |queue| - 1;
    var cell, rest := queue[n], queue[..n];
    assert queue == rest + [cell];
    assert forall x :: x in queue <==> x in rest || x == cell;
    assert cell !in rest;
  }

  /** Popping a cell of the region's crop: it becomes a plot and its unvisited neighbours are
      pushed. */
  lemma FloodPlot(m: FarmMap, start: Cell, crop: char, queue: seq<Cell>, visited: set<Cell>, plots: set<Cell>)
    requires Valid(m) && Flood(m, start, crop, queue, visited, plots) && queue != []
    requires Get(m, queue[|queue| - 1]) == Some(crop)
    ensures var n := |queue| - 1;
      var cell := queue[n];
      var ns := Neighbors(m, cell);
      Flood(m, start, crop, queue[..n] + Unvisited(ns, visited + {cell}), visited + {cell} + Elements(ns), plots + {cell})
  {
    var cell := queue[|queue| - 1];
    assert start in visited + {cell};
    assert cell == start || cell in visited;
    FloodPlotQueue(m, start, queue, visited);
    FloodPlotPlots(m, crop, queue, visited, plots);
    FloodPlotSeen(m, start, crop, queue, visited, plots);
  }

  lemma FloodPlotQueue(m: FarmMap, start: Cell, queue: seq<Cell>, visited: set<Cell>)
    requires Stack(m, start, queue, visited) && queue != [] && start in visited + {queue[|queue| - 1]}
    requires Contains(m, queue[|queue| - 1])
    ensures var n := |queue| - 1;
      var cell := queue[n];
      var ns := Neighbors(m, cell);
      Stack(m, start, queue[..n] + Unvisited(ns, visited + {cell}), visited + {cell} + Elements(ns))
  {
    var n := |queue| - 1;
    var cell := queue[n];
    NeighborsIff(m, cell);
    FloodPlotMembers(m, start, queue, visited);
    FloodPlotDistinct(m, start, queue, visited);
  }

  lemma FloodPlotMembers(m: FarmMap, start: Cell, queue: seq<Cell>, visited: set<Cell>)
    requires Stack(m, start, queue, visited) && queue != [] && start in visited + {queue[|queue| - 1]}
    requires forall x :: x in Neighbors(m, queue[|queue| - 1]) ==> Contains(m, x)
    ensures var n := |queue| - 1;
      var cell := queue[n];
      var ns := Neighbors(m, cell);
      var queue' := queue[..n] + Unvisited(ns, visited + {cell});
      forall i :: 0 <= i < |queue'| ==> queue'[i] == start || queue'[i] in visited + {cell} + Elements(ns)
  {
    var n := |queue| - 1;
    var cell, rest := queue[n], queue[..n];
    var ns := Neighbors(m, cell);
    var pushed := Unvisited(ns, visited + {cell});
    forall i | 0 <= i < |rest + pushed| ensures (rest + pushed)[i] == start || (rest + pushed)[i] in visited + {cell} + Elements(ns) {
      if i >= |rest| { assert (rest + pushed)[i] in pushed; }
    }
  }

  lemma FloodPlotDistinct(m: FarmMap, start: Cell, queue: seq<Cell>, visited: set<Cell>)
    requires Stack(m, start, queue, visited) && queue != [] && start in visited + {queue[|queue| - 1]}
    requires Distinct(Neighbors(m, queue[|queue| - 1]))
    ensures var n := |queue| - 1;
      var cell := queue[n];
      Distinct(queue[..n] + Unvisited(Neighbors(m, cell), visited + {cell}))
  {
    var n := |queue| - 1;
    var cell, rest := queue[n], queue[..n];
    var ns := Neighbors(m, cell);
    var pushed := Unvisited(ns, visited + {cell});
    UnvisitedDistinct(ns, visited + {cell});
    DistinctAppend(rest, pushed);
  }

  lemma FloodPlotPlots(m: FarmMap, crop: char, queue: seq<Cell>, visited: set<Cell>, plots: set<Cell>)
    requires Valid(m) && Grown(m, crop, queue, visited, plots) && Distinct(queue) && queue != []
    requires Get(m, queue[|queue| - 1]) == Some(crop)
    ensures var n := |queue| - 1;
      var cell := queue[n];
      var ns := Neighbors(m, cell);
      Grown(m, crop, queue[..n] + Unvisited(ns, visited + {cell}), visited + {cell} + Elements(ns), plots + {cell})
  {
    var n := |queue| - 1;
    var cell, rest := queue[n], queue[..n];
    var ns := Neighbors(m, cell);
    var pushed := Unvisited(ns, visited + {cell});
    var queue' := rest + pushed;
    assert forall x :: x in queue <==> x in rest || x == cell;
    assert cell !in rest;
    assert forall x :: x in queue' <==> x in rest || x in pushed;
    forall v | v in ns && v !in visited + {cell} ensures v in queue' {
      assert v in pushed;
    }
  }

  lemma FloodPlotSeen(m: FarmMap, start: Cell, crop: char, queue: seq<Cell>, visited: set<Cell>, plots: set<Cell>)
    requires Valid(m) && Reached(m, start, crop, visited, plots) && queue != []
    requires Get(m, queue[|queue| - 1]) == Some(crop)
    requires queue[|queue| - 1] == start || queue[|queue| - 1] in visited
    ensures var n := |queue| - 1;
      var cell := queue[n];
      var ns := Neighbors(m, cell);
      Reached(m, start, crop, visited + {cell} + Elements(ns), plots + {cell})
  {
    var cell := queue[|queue| - 1];
    var ns := Neighbors(m, cell);
    NeighborsIff(m, cell);
    assert Linked(m, crop, start, cell) by {
      if cell == start {
        assert Walk(m, crop, [start]);
      }
    }
    forall v | v in ns && Get(m, v) == Some(crop) ensures Linked(m, crop, start, v) {
      LinkedStep(m, crop, start, cell, v);
    }
  }

  /** An empty stack leaves the region of the start's crop around the start. */
  lemma FloodDone(m: FarmMap, start: Cell, crop: char, visited: set<Cell>, plots: set<Cell>)
    requires Valid(m) && Flood(m, start, crop, [], visited, plots)
    ensures IsRegion(m, crop, start, plots)
  {
  }

  /** A walk to `a` extends by one orthogonal step onto a plot of the same crop. */
  lemma LinkedStep(m: FarmMap, crop: char, start: Cell, a: Cell, b: Cell)
    requires Valid(m) && Linked(m, crop, start, a) && Grid.Orthogonal(a, b) && Get(m, b) == Some(crop)
    ensures Linked(m, crop, start, b)
  {
    var path :| Walk(m, crop, path) && path[0] == start && path[|path| - 1] == a;
    var longer := path + [b];
    assert Walk(m, crop, longer);
    assert longer[0] == start && longer[|longer| - 1] == b;
  }

  lemma {:induction false} SubsetSize(a: set<Cell>, b: set<Cell>)
    requires a <= b
    ensures |a| <= |b|
    ensures a != b ==> |a| < |b|
    decreases a
  {
    if a == {} {
      if b != {} {
        var y :| y in b;
      }
    } else {
      var x :| x in a;
      SubsetSize(a - {x}, b - {x});
    }
  }

  /** Fewer unvisited positions once more are visited. */
  lemma FewerUnseen(m: FarmMap, a: set<Cell>, b: set<Cell>)
    requires a <= b <= Positions(m)
    ensures |Positions(m) - b| <= |Positions(m) - a|
    ensures a != b ==> |Positions(m) - b| < |Positions(m) - a|
  {
    var all := Positions(m);
    SubsetSize(all - b, all - a);
    if a != b {
      assert !(b <= a);
      var y :| y in b && y !in a;
      assert y in all - a && y !in all - b;
    }
  }

  /** `Region::new`: an error for a start outside the garden; otherwise a flood fill over a
      stack that grows, plot by plot, the region of the start's crop around the start. */
  method NewRegion(m: FarmMap, row: nat, col: nat) returns (result: Result<Region>)
    requires Valid(m)
    ensures result.Err? <==> !Contains(m, (row, col))
    ensures result.Ok? ==> fresh(result.value)
    ensures result.Ok? ==> var region := result.value;
      && Get(m, (row, col)) == Some(region.crop)
      && IsRegion(m, region.crop, (row, col), region.plots)
      && region.Fenced()
  {
    var start := (row, col);
    var got := Get(m, start);
    if got.None? {
      return Err("invalid row or col");
    }
    var crop := got.value;
    var region := new Region(crop);
    var queue: seq<Cell> := [start];
    var visited: set<Cell> := {};
    FloodInit(m, start, crop);
    while queue != []
      invariant fresh(region)
      invariant region.crop == crop && region.Fenced()
      invariant Flood(m, start, crop, queue, visited, region.plots)
      invariant visited <= Positions(m)
      decreases |Positions(m) - visited|, |queue|
    {
      ghost var queue0, visited0, plots0 := queue, visited, region.plots;
      FloodTop(m, start, crop, queue, visited, region.plots);
      var cell := queue[|queue| - 1];
      queue := queue[..|queue| - 1];
      visited := visited + {cell};
      var current := Get(m, cell).value;
      if current == crop {
        region.AddPlot(cell.0, cell.1);
        var neighbors := GetNeighbors(m, cell.0, cell.1);
        NeighborsIff(m, cell);
        queue, visited := PushUnvisited(queue, visited, neighbors);
        FloodPlot(m, start, crop, queue0, visited0, plots0);
        PushedProgress(m, queue0, visited0, neighbors);
      } else {
        FloodSkip(m, start, crop, queue0, visited0, plots0);
      }
      FewerUnseen(m, visited0, visited);
    }
    FloodDone(m, start, crop, visited, region.plots);
    return Ok(region);
  }

  /** After a plot is popped, either new positions are visited or the stack shrank. */
  lemma PushedProgress(m: FarmMap, queue: seq<Cell>, visited: set<Cell>, ns: seq<Cell>)
    requires Valid(m) && queue != [] && visited + {queue[|queue| - 1]} <= Positions(m)
    requires forall x :: x in ns ==> Contains(m, x)
    ensures var cell := queue[|queue| - 1];
      var visited' := visited + {cell} + Elements(ns);
      && visited <= visited' <= Positions(m)
      && (visited' == visited ==> |queue[..|queue| - 1] + Unvisited(ns, visited + {cell})| < |queue|)
  {
    var cell := queue[|queue| - 1];
    var visited' := visited + {cell} + Elements(ns);
    forall x | x in ns ensures x in Positions(m) {
      assert x == (x.0, x.1);
    }
    if visited' == visited {
      assert forall x :: x in ns ==> x in visited + {cell};
    }
  }

  // ---------------------------------------------------------------- read_regions

  /** All plots of the parts found so far. */
  ghost function Union(parts: seq<set<Cell>>): set<Cell> {
    if parts == [] then {} else Union(parts[..|parts| - 1]) + parts[|parts| - 1]
  }

  lemma {:induction false} UnionMember(parts: seq<set<Cell>>, x: Cell)
    ensures x in Union(parts) <==> exists k :: 0 <= k < |parts| && x in parts[k]
  {
    if parts != [] {
      var front := parts[..|parts| - 1];
      UnionMember(front, x);
      if x in Union(front) {
        var k :| 0 <= k < |front| && x in front[k];
        assert parts[k] == front[k];
      }
      if exists k :: 0 <= k < |parts| && x in parts[k] {
        var k :| 0 <= k < |parts| && x in parts[k];
        if k < |front| {
          assert front[k] == parts[k];
        }
      }
    }
  }

  lemma UnionSnoc(parts: seq<set<Cell>>, plots: set<Cell>)
    ensures Union(parts + [plots]) == Union(parts) + plots
  {
    assert (parts + [plots])[..|parts|] == parts;
  }

  /** The regions found so far, as values: `parts[k]` is the region of `crops[k]` around
      `starts[k]`; together the parts cover exactly `visited`, which is closed, and no two
      share a plot. */
  ghost predicate Partition(m: FarmMap, visited: set<Cell>, crops: seq<char>, parts: seq<set<Cell>>, starts: seq<Cell>)
    requires Valid(m)
  {
    && |crops| == |parts| == |starts|
    && visited == Union(parts)
    && Closed(m, visited)
    && (forall k :: 0 <= k < |parts| ==> IsRegion(m, crops[k], starts[k], parts[k]))
    && (forall k, l :: 0 <= k < l < |parts| ==> parts[k] !! parts[l])
  }

  /** Recording a region grown from an uncovered start keeps the partition. */
  lemma PartitionAdd(m: FarmMap, visited: set<Cell>, crops: seq<char>, parts: seq<set<Cell>>, starts: seq<Cell>,
                     crop: char, plots: set<Cell>, start: Cell)
    requires Valid(m) && Partition(m, visited, crops, parts, starts)
    requires start !in visited && IsRegion(m, crop, start, plots)
    ensures Partition(m, visited + plots, crops + [crop], parts + [plots], starts + [start])
  {
    RegionAvoids(m, crop, start, plots, visited);
    ClosedUnion(m, visited, plots);
    UnionSnoc(parts, plots);
    var parts' := parts + [plots];
    forall k | 0 <= k < |parts| ensures parts'[k] !! plots {
      forall x | x in parts[k] ensures x in visited {
        UnionMember(parts, x);
      }
    }
  }

  /** `plots` is the region of `crop` around one of its plots. */
  ghost predicate RegionOf(m: FarmMap, crop: char, plots: set<Cell>)
    requires Valid(m)
  {
    exists start :: IsRegion(m, crop, start, plots)
  }

  /** `regions` carries the values of the partition, each region fenced. */
  ghost predicate Carries(regions: seq<Region>, crops: seq<char>, parts: seq<set<Cell>>)
    reads regions
  {
    && |regions| == |crops| == |parts|
    && forall k :: 0 <= k < |regions| ==> regions[k].crop == crops[k] && regions[k].plots == parts[k] && regions[k].Fenced()
  }

  lemma CarriesSnoc(regions: seq<Region>, crops: seq<char>, parts: seq<set<Cell>>, region: Region)
    requires Carries(regions, crops, parts) && region.Fenced()
    ensures Carries(regions + [region], crops + [region.crop], parts + [region.plots])
  {
  }

  /** The regions of a partition are fenced, pairwise disjoint and each the region around a
      start. */
  lemma CarriesRegions(m: FarmMap, visited: set<Cell>, regions: seq<Region>, crops: seq<char>, parts: seq<set<Cell>>, starts: seq<Cell>)
    requires Valid(m) && Partition(m, visited, crops, parts, starts) && Carries(regions, crops, parts)
    ensures forall k :: 0 <= k < |regions| ==> regions[k].Fenced()
    ensures forall k :: 0 <= k < |regions| ==> RegionOf(m, regions[k].crop, regions[k].plots)
    ensures forall k, l :: 0 <= k < l < |regions| ==> regions[k].plots !! regions[l].plots
  {
    forall k | 0 <= k < |regions| ensures RegionOf(m, regions[k].crop, regions[k].plots) {
      assert IsRegion(m, crops[k], starts[k], parts[k]);
    }
  }

  /** The regions of a partition hold every plot it covers. */
  lemma CarriesCover(regions: seq<Region>, crops: seq<char>, parts: seq<set<Cell>>, cell: Cell)
    requires Carries(regions, crops, parts) && cell in Union(parts)
    ensures exists k :: 0 <= k < |regions| && cell in regions[k].plots
  {
    UnionMember(parts, cell);
    var k :| 0 <= k < |parts| && cell in parts[k];
    assert cell in regions[k].plots;
  }

  /** Every garden position before (i, j) in row-major order is covered. */
  ghost predicate Scanned(m: FarmMap, visited: set<Cell>, i: nat, j: nat) {
    forall cell: Cell :: Contains(m, cell) && Before(cell, (i, j)) ==> cell in visited
  }

  lemma ScannedNext(m: FarmMap, visited: set<Cell>, visited': set<Cell>, i: nat, j: nat)
    requires Scanned(m, visited, i, j) && visited <= visited' && ((i, j) in visited' || !Contains(m, (i, j)))
    ensures Scanned(m, visited', i, j + 1)
  {
    forall cell: Cell | Contains(m, cell) && Before(cell, (i, j + 1)) ensures cell in visited' {
      if cell != (i, j) {
        assert Before(cell, (i, j));
      }
    }
  }

  lemma ScannedRow(m: FarmMap, visited: set<Cell>, i: nat)
    requires Scanned(m, visited, i, m.columns)
    ensures Scanned(m, visited, i + 1, 0)
  {
    forall cell: Cell | Contains(m, cell) && Before(cell, (i + 1, 0)) ensures cell in visited {
      assert Before(cell, (i, m.columns));
    }
  }

  lemma ScannedAll(m: FarmMap, visited: set<Cell>)
    requires Scanned(m, visited, m.rows, 0)
    ensures forall cell: Cell :: Contains(m, cell) ==> cell in visited
  {
    forall cell: Cell | Contains(m, cell) ensures cell in visited {
      assert Before(cell, (m.rows, 0));
    }
  }

  /** `read_regions`: scans the garden in row-major order and grows a region from every
      position no earlier region covers. */
  method ReadRegions(m: FarmMap) returns (regions: seq<Region>)
    requires Valid(m)
    ensures forall k :: 0 <= k < |regions| ==> regions[k].Fenced()
    ensures forall k :: 0 <= k < |regions| ==> RegionOf(m, regions[k].crop, regions[k].plots)
    ensures forall k, l :: 0 <= k < l < |regions| ==> regions[k].plots !! regions[l].plots
    ensures forall cell: Cell :: Contains(m, cell) ==> exists k :: 0 <= k < |regions| && cell in regions[k].plots
  {
    var visited: set<Cell> := {};
    regions := [];
    ghost var crops: seq<char>, parts: seq<set<Cell>>, starts: seq<Cell> := [], [], [];
    for i := 0 to m.rows
      invariant Partition(m, visited, crops, parts, starts) && Carries(regions, crops, parts)
      invariant Scanned(m, visited, i, 0)
    {
      for j := 0 to m.columns
        invariant Partition(m, visited, crops, parts, starts) && Carries(regions, crops, parts)
        invariant Scanned(m, visited, i, j)
      {
        ghost var visited0 := visited;
        if (i, j) !in visited {
          var result := NewRegion(m, i, j);
          if result.Ok? {
            var region := result.value;
            PartitionAdd(m, visited, crops, parts, starts, region.crop, region.plots, (i, j));
            CarriesSnoc(regions, crops, parts, region);
            crops, parts, starts := crops + [region.crop], parts + [region.plots], starts + [(i, j)];
            visited := visited + region.plots;
            regions := regions + [region];
          }
        }
        ScannedNext(m, visited0, visited, i, j);
      }
      ScannedRow(m, visited, i);
    }
    ScannedAll(m, visited);
    CarriesRegions(m, visited, regions, crops, parts, starts);
    forall cell: Cell | Contains(m, cell) ensures exists k :: 0 <= k < |regions| && cell in regions[k].plots {
      CarriesCover(regions, crops, parts, cell);
    }
  }
}
