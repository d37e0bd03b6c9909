/** Day 6: a guard walking a grid, turning right at obstructions, until it leaves the grid or
    revisits a state it has already been in. */
module Day6 {

  import opened Wrappers

  datatype Direction = Up | Right | Down | Left

  /** A grid cell, (row, column); the source's `(usize, usize)`. */
  type Cell = (nat, nat)

  /** The guard's position and heading. */
  datatype Guard = Guard(row: nat, col: nat, dir: Direction) {
    function At(): Cell {
      (row, col)
    }
  }

  /** The step each heading makes, as (row change, column change). */
  function Delta(d: Direction): (int, int) {
    match d
    case Up => (-1, 0)
    case Right => (0, 1)
    case Down => (1, 0)
    case Left => (0, -1)
  }

  /** `next_dir`: a quarter turn clockwise. */
  function NextDir(d: Direction): (r: Direction)
    ensures Delta(r).0 == Delta(d).1 && Delta(r).1 == -Delta(d).0
  {
    match d
    case Up => Right
    case Right => Down
    case Down => Left
    case Left => Up
  }

  /** Four quarter turns bring every heading back to itself, and fewer never do. */
  lemma FourTurns(d: Direction)
    ensures NextDir(NextDir(NextDir(NextDir(d)))) == d
    ensures NextDir(d) != d && NextDir(NextDir(d)) != d && NextDir(NextDir(NextDir(d))) != d
  {
  }

  /** The cell ahead of the guard, where `checked_sub` leaves it on the grid's coordinates:
      None when the step would go below row or column 0. */
  function Ahead(g: Guard): (r: Option<Cell>)
    ensures r.Some? <==> 0 <= g.row + Delta(g.dir).0 && 0 <= g.col + Delta(g.dir).1
    ensures r.Some? ==> r.value.0 == g.row + Delta(g.dir).0 && r.value.1 == g.col + Delta(g.dir).1
  {
    match g.dir
    case Up => if g.row == 0 then None else Some((g.row - 1, g.col))
    case Right => Some((g.row, g.col + 1))
    case Down => Some((g.row + 1, g.col))
    case Left => if g.col == 0 then None else Some((g.row, g.col - 1))
  }

  predicate Inside(rows: nat, cols: nat, c: Cell) {
    c.0 < rows && c.1 < cols
  }

  /** What one turn of the `part_1` loop does. */
  datatype Event = Exit | Loop | Turn | Move(target: Cell)

  /** The walking state `part_1` changes: guard, visit counts and history. */
  datatype Walker = Walker(guard: Guard, visited: map<Cell, nat>, history: seq<Guard>)

  /** The next event of the walk, decided in the source's order: leaving the grid, a state
      already in the history, an obstruction, and otherwise a move. */
  function Look(rows: nat, cols: nat, obstructions: set<Cell>, w: Walker): Event {
    match Ahead(w.guard)
    case None => Exit
    case Some(next) =>
      if !Inside(rows, cols, next) then Exit
      else if Guard(next.0, next.1, w.guard.dir) in w.history then Loop
      else if next in obstructions then Turn
      else Move(next)
  }

  /** The event in terms of the cell one step ahead, where `checked_sub` below 0 and the
      range check alike count as leaving the grid. */
  lemma LookIff(rows: nat, cols: nat, obstructions: set<Cell>, w: Walker)
    ensures var e := Look(rows, cols, obstructions, w);
      var g := w.guard; var r, c := g.row + Delta(g.dir).0, g.col + Delta(g.dir).1;
      && (e == Exit <==> !(0 <= r < rows && 0 <= c < cols))
      && (e == Loop <==> 0 <= r < rows && 0 <= c < cols && Guard(r, c, g.dir) in w.history)
      && (e == Turn <==> 0 <= r < rows && 0 <= c < cols && Guard(r, c, g.dir) !in w.history && (r, c) in obstructions)
      && (e.Move? <==> 0 <= r < rows && 0 <= c < cols && Guard(r, c, g.dir) !in w.history && (r, c) !in obstructions)
      && (e.Move? ==> e.target == (r, c))
  {
  }

  /** The count after `*visited.entry(c).or_insert(0) += 1`. */
  function Bump(visited: map<Cell, nat>, c: Cell): (m: map<Cell, nat>)
    ensures m.Keys == visited.Keys + {c}
    ensures m[c] == (if c in visited then visited[c] else 0) + 1
    ensures forall d :: d in visited && d != c ==> m[d] == visited[d]
  {
    visited[c := (if c in visited then visited[c] else 0) + 1]
  }

  /** The state after a turn or a move; leaving and looping change nothing. */
  function Apply(w: Walker, e: Event): (w': Walker)
    ensures e == Turn ==> w' == w.(guard := w.guard.(dir := NextDir(w.guard.dir)))
    ensures e.Move? ==>
      && w'.guard == Guard(e.target.0, e.target.1, w.guard.dir)
      && w'.visited == Bump(w.visited, e.target)
      && w'.history == w.history + [w'.guard]
    ensures e == Exit || e == Loop ==> w' == w
  {
    match e
    case Turn => w.(guard := w.guard.(dir := NextDir(w.guard.dir)))
    case Move(c) =>
      var g := Guard(c.0, c.1, w.guard.dir);
      Walker(g, Bump(w.visited, c), w.history + [g])
    case _ => w
  }

  /** How a walk ends: off the grid (`Ok`), in a revisited state (`Err`), or, for the guard
      boxed in on all four sides whom the source turns forever, not within the fuel given. */
  datatype Outcome = Exited | Looped | Stalled

  /** The `part_1` loop run for at most `fuel` events. */
  function Walk(rows: nat, cols: nat, obstructions: set<Cell>, w: Walker, fuel: nat): (Outcome, Walker)
    decreases fuel
  {
    if fuel == 0 then (Stalled, w)
    else
      match Look(rows, cols, obstructions, w)
      case Exit => (Exited, w)
      case Loop => (Looped, w)
      case e => Walk(rows, cols, obstructions, Apply(w, e), fuel - 1)
  }

  /** A walk that neither leaves nor loops goes on from the state after the event. */
  lemma WalkStep(rows: nat, cols: nat, obstructions: set<Cell>, w: Walker, fuel: nat, e: Event)
    requires fuel > 0 && e == Look(rows, cols, obstructions, w) && e != Exit && e != Loop
    ensures Walk(rows, cols, obstructions, w, fuel) == Walk(rows, cols, obstructions, Apply(w, e), fuel - 1)
  {
  }

  /** How many history entries stand on cell c. */
  function Occurrences(h: seq<Guard>, c: Cell): nat {
    if h == [] then 0 else Occurrences(h[..|h| - 1], c) + (if h[|h| - 1].At() == c then 1 else 0)
  }

  /** The visit counts are the number of times each cell appears in the history. */
  ghost predicate CountsHistory(w: Walker) {
    forall c :: (c in w.visited <==> Occurrences(w.history, c) > 0)
      && (c in w.visited ==> w.visited[c] == Occurrences(w.history, c))
  }

  /** No guard state appears twice in the history. */
  predicate NoRepeats(h: seq<Guard>) {
    forall i, j :: 0 <= i < j < |h| ==> h[i] != h[j]
  }

  /** The guard and every history entry are on the grid. */
  predicate OnGrid(rows: nat, cols: nat, w: Walker) {
    Inside(rows, cols, w.guard.At()) && forall i :: 0 <= i < |w.history| ==> Inside(rows, cols, w.history[i].At())
  }

  /** One event keeps the visit counts in step with the history. */
  lemma ApplyCounts(rows: nat, cols: nat, obstructions: set<Cell>, w: Walker)
    requires CountsHistory(w)
    ensures CountsHistory(Apply(w, Look(rows, cols, obstructions, w)))
  {
    var e := Look(rows, cols, obstructions, w);
    if e.Move? {
      var w' := Apply(w, e);
      var h := w'.history;
      assert h[..|h| - 1] == w.history;
      forall c ensures (c in w'.visited <==> Occurrences(h, c) > 0)
        && (c in w'.visited ==> w'.visited[c] == Occurrences(h, c))
      {
        assert Occurrences(h, c) == Occurrences(w.history, c) + (if e.target == c then 1 else 0);
      }
    }
  }

  /** One event never repeats a history entry: a move appends a state the history lacks. */
  lemma ApplyNoRepeats(rows: nat, cols: nat, obstructions: set<Cell>, w: Walker)
    requires NoRepeats(w.history)
    ensures NoRepeats(Apply(w, Look(rows, cols, obstructions, w)).history)
  {
    var e := Look(rows, cols, obstructions, w);
    if e.Move? {
      var h := Apply(w, e).history;
      forall i, j | 0 <= i < j < |h| ensures h[i] != h[j] {
        if j == |h| - 1 {
          assert h[i] == w.history[i];
        } else {
          assert h[i] == w.history[i] && h[j] == w.history[j];
        }
      }
    }
  }

  /** One event keeps the guard and its history on the grid. */
  lemma ApplyOnGrid(rows: nat, cols: nat, obstructions: set<Cell>, w: Walker)
    requires OnGrid(rows, cols, w)
    ensures OnGrid(rows, cols, Apply(w, Look(rows, cols, obstructions, w)))
  {
    var e := Look(rows, cols, obstructions, w);
    if e.Move? {
      var h := Apply(w, e).history;
      assert forall i :: 0 <= i < |w.history| ==> h[i] == w.history[i];
    }
  }

  /** The whole walk keeps all three invariants, and detects a loop only at a state it has
      been in before. */
  lemma {:induction false} WalkInvariants(rows: nat, cols: nat, obstructions: set<Cell>, w: Walker, fuel: nat)
    ensures var (o, w') := Walk(rows, cols, obstructions, w, fuel);
      && (CountsHistory(w) ==> CountsHistory(w'))
      && (NoRepeats(w.history) ==> NoRepeats(w'.history))
      && (OnGrid(rows, cols, w) ==> OnGrid(rows, cols, w'))
      && (o == Looped ==> Look(rows, cols, obstructions, w') == Loop)
      && (o == Exited ==> Look(rows, cols, obstructions, w') == Exit)
    decreases fuel
  {
    if fuel > 0 {
      var e := Look(rows, cols, obstructions, w);
      if e != Exit && e != Loop {
        if CountsHistory(w) {
          ApplyCounts(rows, cols, obstructions, w);
        }
        if NoRepeats(w.history) {
          ApplyNoRepeats(rows, cols, obstructions, w);
        }
        if OnGrid(rows, cols, w) {
          ApplyOnGrid(rows, cols, obstructions, w);
        }
        WalkInvariants(rows, cols, obstructions, Apply(w, e), fuel - 1);
      }
    }
  }

  /** Walking only ever adds to the history: the earlier states stay at its front. */
  lemma {:induction false} WalkExtends(rows: nat, cols: nat, obstructions: set<Cell>, w: Walker, fuel: nat)
    ensures var w' := Walk(rows, cols, obstructions, w, fuel).1;
      |w.history| <= |w'.history| && w'.history[..|w.history|] == w.history
    decreases fuel
  {
    if fuel > 0 {
      var e := Look(rows, cols, obstructions, w);
      if e != Exit && e != Loop {
        var w1 := Apply(w, e);
        WalkExtends(rows, cols, obstructions, w1, fuel - 1);
        var h' := Walk(rows, cols, obstructions, w1, fuel - 1).1.history;
        assert w1.history[..|w.history|] == w.history;
        assert h'[..|w.history|] == w1.history[..|w1.history|][..|w.history|];
      }
    }
  }

  /** With visit counts following the history, the part 1 answer `visited.len()` is the
      number of distinct cells the history passes through. */
  lemma VisitedCells(w: Walker)
    requires CountsHistory(w)
    ensures w.visited.Keys == set i | 0 <= i < |w.history| :: w.history[i].At()
  {
    forall c | c in w.visited ensures exists i :: 0 <= i < |w.history| && w.history[i].At() == c {
      OccurrencesWitness(w.history, c);
    }
    forall i | 0 <= i < |w.history| ensures w.history[i].At() in w.visited {
      OccurrencesPositive(w.history, i);
    }
  }

  lemma {:induction false} OccurrencesWitness(h: seq<Guard>, c: Cell)
    requires Occurrences(h, c) > 0
    ensures exists i :: 0 <= i < |h| && h[i].At() == c
  {
    var n := |h| - 1;
    if h[n].At() != c {
      OccurrencesWitness(h[..n], c);
      var i :| 0 <= i < n && h[..n][i].At() == c;
      assert h[i].At() == c;
    }
  }

  lemma {:induction false} OccurrencesPositive(h: seq<Guard>, i: nat)
    requires i < |h|
    ensures Occurrences(h, h[i].At()) > 0
  {
    var n := |h| - 1;
    if i < n {
      assert h[..n][i] == h[i];
      OccurrencesPositive(h[..n], i);
    }
  }

  /** The protagonist of `part_1`; see the walk for ending, turning and moving. */
  class PuzzleMap {
    var rows: nat
    var cols: nat
    /** The obstructed cells; the source keeps them as keys of a map to `true`. */
    var obstructions: set<Cell>
    var visited: map<Cell, nat>
    var start: Guard
    var guard: Guard
    var history: seq<Guard>

    function State(): Walker
      reads this
    {
      Walker(guard, visited, history)
    }

    /** The map, guard and counts as the source's invariants keep them. */
    ghost predicate Valid()
      reads this
    {
      CountsHistory(State()) && NoRepeats(history)
    }

    /** `init_map`: obstructions at `#`, the guard at the last of `^ > v <` in row-major
        order (at (0, 0) facing up if there is none), and that one cell visited. */
    constructor (input: seq<string>)
      requires |input| >= 1
      ensures rows == |input| && cols == |input[0]|
      ensures obstructions == Obstructions(input) && start == guard == FindGuard(input)
      ensures visited == map[guard.At() := 1] && history == [guard]
      ensures Valid()
    {
      var obs: set<Cell> := {};
      var g := Guard(0, 0, Up);
      for row := 0 to |input|
        invariant obs == Obstructions(input[..row])
        invariant g == ScanLines(input[..row])
      {
        var line := input[row];
        ghost var before := g;
        for col := 0 to |line|
          invariant obs == Obstructions(input[..row]) + RowObstructions(line, row, col)
          invariant g == ScanRow(line, row, col, before)
        {
          match Marker(line[col])
          case Some(d) =>
            g := Guard(row, col, d);
          case None =>
            if line[col] == '#' {
              obs := obs + {(row, col)};
            }
        }
        assert input[..row + 1][..row] == input[..row];
      }
      assert input[..|input|] == input;
      rows := |input|;
      cols := |input[0]|;
      obstructions := obs;
      start := g;
      guard := g;
      visited := map[g.At() := 1];
      history := [g];
      new;
      assert [g][..0] == [];
    }

    /** `reset`: the guard back at the start, with nothing visited and an empty history
        (unlike `init_map`, the start itself is not entered). */
    method Reset()
      modifies this`guard, this`history, this`visited
      ensures guard == start && history == [] && visited == map[]
      ensures Valid()
    {
      guard := start;
      history := [];
      visited := map[];
    }

    /** `part_1`: walk until the guard leaves the grid (`Exited`, the source's `Ok`) or would
        enter a state already in its history (`Looped`, the source's `Err`), or stop when the
        fuel runs out (`Stalled`), as a guard boxed in on all four sides makes it. */
    method Part1(fuel: nat) returns (o: Outcome)
      modifies this`guard, this`history, this`visited
      ensures (o, State()) == Walk(rows, cols, obstructions, old(State()), fuel)
      ensures old(Valid()) ==> Valid()
    {
      ghost var w0 := State();
      var left := fuel;
      o := Stalled;
      while left > 0
        invariant Walk(rows, cols, obstructions, State(), left) == Walk(rows, cols, obstructions, w0, fuel)
        decreases left
      {
        ghost var w := State();
        var e := Step();
        if e == Exit {
          o := Exited;
          break;
        } else if e == Loop {
          o := Looped;
          break;
        }
        WalkStep(rows, cols, obstructions, w, left, e);
        left := left - 1;
      }
      WalkInvariants(rows, cols, obstructions, w0, fuel);
    }

    /** One pass of the `part_1` loop body: the event ahead, and the state after it. */
    method Step() returns (e: Event)
      modifies this`guard, this`history, this`visited
      ensures e == Look(rows, cols, obstructions, old(State())) && State() == Apply(old(State()), e)
    {
      var next := Ahead(guard);
      if next.None? || !Inside(rows, cols, next.value) {
        return Exit;
      }
      var c := next.value;
      if Guard(c.0, c.1, guard.dir) in history {
        return Loop;
      }
      if c in obstructions {
        guard := guard.(dir := NextDir(guard.dir));
        e := Turn;
      } else {
        guard := Guard(c.0, c.1, guard.dir);
        visited := Bump(visited, c);
        history := history + [guard];
        e := Move(c);
      }
    }

    /** `part_2`: for each visited cell, reset, obstruct it, walk and unobstruct it, counting
        the walks that loop. Removing the trial obstruction leaves no visited cell obstructed;
        when no visited cell was obstructed to begin with, the obstructions come out as they
        went in and the count is of the cells whose obstruction makes the walk loop. */
    method Part2(fuel: nat) returns (total: nat)
      modifies this`guard, this`history, this`visited, this`obstructions
      ensures obstructions == old(obstructions) - old(visited).Keys
      ensures old(visited).Keys !! old(obstructions) ==>
        total == |LoopingObstructions(rows, cols, old(obstructions), start, old(visited).Keys, fuel)|
      ensures old(Valid()) ==> Valid()
    {
      var keys := visited.Keys;
      ghost var all, obs0 := keys, obstructions;
      ghost var done: set<Cell> := {};
      total := 0;
      while keys != {}
        invariant keys <= all && done == all - keys
        invariant obstructions == obs0 - done
        invariant obs0 == old(obstructions)
        invariant all !! obs0 ==> total == |LoopingObstructions(rows, cols, obs0, start, done, fuel)|
        invariant old(Valid()) ==> Valid()
        decreases |keys|
      {
        var k :| k in keys;
        var o := Trial(k, fuel);
        TrialCounted(rows, cols, obs0, start, all, keys, done, k, fuel, total, o == Looped);
        total := total + if o == Looped then 1 else 0;
        keys := keys - {k};
        done := done + {k};
      }
      assert done == all;
    }

    /** One trial of `part_2`: reset, obstruct k, walk, and take the obstruction away again. */
    method Trial(k: Cell, fuel: nat) returns (o: Outcome)
      modifies this`guard, this`history, this`visited, this`obstructions
      ensures (o == Looped) == Loops(rows, cols, old(obstructions), start, k, fuel)
      ensures obstructions == old(obstructions) - {k}
      ensures Valid()
    {
      Reset();
      obstructions := obstructions + {k};
      o := Part1(fuel);
      obstructions := obstructions - {k};
    }
  }

  /** Obstructing k, a walk from the start with nothing visited ends in a loop. */
  ghost predicate Loops(rows: nat, cols: nat, obstructions: set<Cell>, start: Guard, k: Cell, fuel: nat) {
    Walk(rows, cols, obstructions + {k}, Walker(start, map[], []), fuel).0 == Looped
  }

  /** The candidate cells whose obstruction, walked from the start with nothing visited,
      makes the guard loop. */
  ghost function LoopingObstructions(rows: nat, cols: nat, obstructions: set<Cell>, start: Guard, candidates: set<Cell>, fuel: nat): set<Cell> {
    set k | k in candidates && Loops(rows, cols, obstructions, start, k, fuel)
  }

  /** The bookkeeping of one `part_2` trial: the candidate moves from the keys still to try
      to the keys done, loses its obstruction, and adds one to the count exactly when its
      walk loops. */
  lemma TrialCounted(rows: nat, cols: nat, obs0: set<Cell>, start: Guard, all: set<Cell>, keys: set<Cell>, done: set<Cell>,
                     k: Cell, fuel: nat, total: nat, looped: bool)
    requires keys <= all && done == all - keys && k in keys
    requires looped == Loops(rows, cols, obs0 - done, start, k, fuel)
    requires all !! obs0 ==> total == |LoopingObstructions(rows, cols, obs0, start, done, fuel)|
    ensures keys - {k} <= all && done + {k} == all - (keys - {k})
    ensures obs0 - done - {k} == obs0 - (done + {k})
    ensures all !! obs0 ==> total + (if looped then 1 else 0) == |LoopingObstructions(rows, cols, obs0, start, done + {k}, fuel)|
  {
    if all !! obs0 {
      assert obs0 - done == obs0;
      LoopingStep(rows, cols, obs0, start, done, k, fuel);
    }
  }

  /** Trying one more candidate adds one to the count exactly when its walk loops. */
  lemma LoopingStep(rows: nat, cols: nat, obstructions: set<Cell>, start: Guard, done: set<Cell>, k: Cell, fuel: nat)
    requires k !in done
    ensures |LoopingObstructions(rows, cols, obstructions, start, done + {k}, fuel)|
      == |LoopingObstructions(rows, cols, obstructions, start, done, fuel)|
        + (if Loops(rows, cols, obstructions, start, k, fuel) then 1 else 0)
  {
    var before := LoopingObstructions(rows, cols, obstructions, start, done, fuel);
    var after := LoopingObstructions(rows, cols, obstructions, start, done + {k}, fuel);
    if Loops(rows, cols, obstructions, start, k, fuel) {
      assert after == before + {k};
    } else {
      assert after == before;
    }
  }

  /** The direction a guard marker faces. */
  function Marker(ch: char): (r: Option<Direction>)
    ensures r.Some? <==> ch in {'^', '>', 'v', '<'}
  {
    match ch
    case '^' => Some(Up)
    case '>' => Some(Right)
    case 'v' => Some(Down)
    case '<' => Some(Left)
    case _ => None
  }

  /** The obstructed cells among the first `n` characters of row `row`. */
  function RowObstructions(line: string, row: nat, n: nat): set<Cell>
    requires n <= |line|
  {
    if n == 0 then {}
    else RowObstructions(line, row, n - 1) + (if line[n - 1] == '#' then {(row, n - 1)} else {})
  }

  /** The obstructed cells of the lines. */
  function Obstructions(lines: seq<string>): set<Cell> {
    if lines == [] then {}
    else
      var n := |lines| - 1;
      Obstructions(lines[..n]) + RowObstructions(lines[n], n, |lines[n]|)
  }

  /** The guard after scanning the first `n` characters of row `row`: the last marker there,
      else `g`. */
  function ScanRow(line: string, row: nat, n: nat, g: Guard): Guard
    requires n <= |line|
  {
    if n == 0 then g
    else
      match Marker(line[n - 1])
      case Some(d) => Guard(row, n - 1, d)
      case None => ScanRow(line, row, n - 1, g)
  }

  /** The guard after scanning every line. */
  function ScanLines(lines: seq<string>): Guard {
    if lines == [] then Guard(0, 0, Up)
    else
      var n := |lines| - 1;
      ScanRow(lines[n], n, |lines[n]|, ScanLines(lines[..n]))
  }

  function FindGuard(input: seq<string>): Guard {
    ScanLines(input)
  }

  /** A cell is obstructed exactly when it holds `#`. */
  lemma {:induction false} ObstructionsIff(lines: seq<string>)
    ensures forall r: nat, c: nat :: (r, c) in Obstructions(lines) <==> r < |lines| && c < |lines[r]| && lines[r][c] == '#'
  {
    if lines != [] {
      var n := |lines| - 1;
      ObstructionsIff(lines[..n]);
      RowObstructionsIff(lines[n], n, |lines[n]|);
      forall r: nat, c: nat ensures (r, c) in Obstructions(lines) <==> r < |lines| && c < |lines[r]| && lines[r][c] == '#' {
        if r < n {
          assert lines[..n][r] == lines[r];
        }
      }
    }
  }

  lemma {:induction false} RowObstructionsIff(line: string, row: nat, n: nat)
    requires n <= |line|
    ensures forall r: nat, c: nat :: (r, c) in RowObstructions(line, row, n) <==> r == row && c < n && line[c] == '#'
  {
    if n > 0 {
      RowObstructionsIff(line, row, n - 1);
    }
  }

  /** The scan stops at the last marker in row-major order: its cell holds the marker of the
      guard's heading and no later cell holds a marker; with no marker at all the guard
      stays at (0, 0) facing up. */
  lemma {:induction false} FindGuardIff(lines: seq<string>)
    ensures var g := FindGuard(lines);
      || (g == Guard(0, 0, Up) && forall r, c :: 0 <= r < |lines| && 0 <= c < |lines[r]| ==> Marker(lines[r][c]).None?)
      || (g.row < |lines| && g.col < |lines[g.row]| && Marker(lines[g.row][g.col]) == Some(g.dir)
          && forall r, c :: 0 <= r < |lines| && 0 <= c < |lines[r]| && (r > g.row || (r == g.row && c > g.col)) ==> Marker(lines[r][c]).None?)
  {
    if lines != [] {
      var n := |lines| - 1;
      var front := lines[..n];
      FindGuardIff(front);
      var g0 := ScanLines(front);
      ScanRowIff(lines[n], n, |lines[n]|, g0);
      assert forall r :: 0 <= r < n ==> front[r] == lines[r];
    }
  }

  lemma {:induction false} ScanRowIff(line: string, row: nat, n: nat, g: Guard)
    requires n <= |line|
    ensures var g' := ScanRow(line, row, n, g);
      || (g' == g && forall c :: 0 <= c < n ==> Marker(line[c]).None?)
      || (g'.row == row && g'.col < n && Marker(line[g'.col]) == Some(g'.dir)
          && forall c :: g'.col < c < n ==> Marker(line[c]).None?)
  {
    if n > 0 {
      ScanRowIff(line, row, n - 1, g);
    }
  }

  /** A 4 x 4 room with one obstruction on each side of a 2 x 2 square: the guard, starting
      at (1, 1) facing up, circles the square in four turns and three moves, and then finds
      its starting state ahead of it. */
  lemma ExampleLoop()
    ensures Walk(4, 4, Square(), Walker(Guard(1, 1, Up), map[(1, 1) := 1], [Guard(1, 1, Up)]), 8).0 == Looped
  {
    var w := Walker(Guard(1, 1, Up), map[(1, 1) := 1], [Guard(1, 1, Up)]);
    var h := [Guard(1, 1, Up)];
    w := SquareStep(w, 8, Turn);
    assert w.guard == Guard(1, 1, Right) && w.history == h;
    w := SquareStep(w, 7, Move((1, 2)));
    h := h + [Guard(1, 2, Right)];
    assert w.guard == Guard(1, 2, Right) && w.history == h;
    w := SquareStep(w, 6, Turn);
    assert w.guard == Guard(1, 2, Down) && w.history == h;
    w := SquareStep(w, 5, Move((2, 2)));
    h := h + [Guard(2, 2, Down)];
    assert w.guard == Guard(2, 2, Down) && w.history == h;
    w := SquareStep(w, 4, Turn);
    assert w.guard == Guard(2, 2, Left) && w.history == h;
    w := SquareStep(w, 3, Move((2, 1)));
    h := h + [Guard(2, 1, Left)];
    assert w.guard == Guard(2, 1, Left) && w.history == h;
    w := SquareStep(w, 2, Turn);
    assert w.guard == Guard(2, 1, Up) && w.history == h;
    assert Look(4, 4, Square(), w) == Loop;
  }

  function Square(): set<Cell> {
    {(0, 1), (1, 3), (2, 0), (3, 2)}
  }

  /** One event e of the square walk. */
  lemma SquareStep(w: Walker, fuel: nat, e: Event) returns (w': Walker)
    requires fuel > 0 && e == Look(4, 4, Square(), w) && e != Exit && e != Loop
    ensures w' == Apply(w, e)
    ensures Walk(4, 4, Square(), w, fuel) == Walk(4, 4, Square(), w', fuel - 1)
  {
    w' := Apply(w, e);
    WalkStep(4, 4, Square(), w, fuel, e);
  }

  /** Facing the top edge the guard leaves at once. */
  lemma ExampleExit()
    ensures Walk(4, 4, {}, Walker(Guard(0, 2, Up), map[(0, 2) := 1], [Guard(0, 2, Up)]), 1).0 == Exited
  {
  }

  /** Reading a small map: the guard marker and the obstruction are found where they are. */
  lemma ExampleInitMap()
    ensures FindGuard([".#.", "..^"]) == Guard(1, 2, Up)
    ensures Obstructions([".#.", "..^"]) == {(0, 1)}
  {
    var lines := [".#.", "..^"];
    assert lines[..1] == [".#."];
    assert RowObstructions(lines[0], 0, 3) == {(0, 1)};
    assert RowObstructions(lines[1], 1, 3) == {};
  }
}
