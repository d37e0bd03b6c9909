/** Day 14: robots moving on a toroidal grid, and the safety factor of their quadrants. */
module Day14 {

  import opened Wrappers
  import RustInt
  import Text

  datatype Point = Point(x: int, y: int)

  /** A robot is a plain value (`Copy` in the source): position and velocity. */
  datatype Robot = Robot(position: Point, vx: int, vy: int)

  /** `(v % size) + size` with Rust's truncating `%`: a velocity made positive. */
  function Normalised(v: int, size: int): (n: int)
    requires size != 0
    ensures size > 0 ==> 0 < n < 2 * size
    ensures (n - v) % size == 0
  {
    var q := RustInt.Quot(v, size);
    RustInt.QuotRem(v, size);
    WrapStep(v, size, q, RustInt.Rem(v, size) + size);
    RustInt.Rem(v, size) + size
  }

  /** n - v == size * (1 - q) is a multiple of size. */
  lemma WrapStep(v: int, size: int, q: int, n: int)
    requires size != 0 && v == size * q + (n - size)
    ensures (n - v) % size == 0
  {
    assert n - v == size * (1 - q);
    RustInt.MultipleMod(1 - q, size);
  }

  /** One coordinate of `Robot::tick`: `(p + normalised * ticks) % size`. */
  function Advance(p: int, v: int, size: int, ticks: int): (r: int)
    requires size != 0
    ensures size > 0 && 0 <= p && ticks >= 0 ==> 0 <= r < size
    ensures (r - (p + v * ticks)) % size == 0
  {
    var n := Normalised(v, size);
    var a := p + n * ticks;
    NonNegativeProduct(n, ticks);
    RustInt.QuotRem(a, size);
    AdvanceStep(p, v, n, size, ticks, RustInt.Quot(a, size), RustInt.Rem(a, size));
    RustInt.Rem(a, size)
  }

  lemma NonNegativeProduct(a: int, b: int)
    ensures a >= 0 && b >= 0 ==> a * b >= 0
  {
  }

  /** r - (p + v*t) == size*(k*t - q) when n - v == size*k and p + n*t == size*q + r. */
  lemma AdvanceStep(p: int, v: int, n: int, size: int, t: int, q: int, r: int)
    requires size != 0 && (n - v) % size == 0 && p + n * t == size * q + r
    ensures (r - (p + v * t)) % size == 0
  {
    var k := (n - v) / size;
    assert n - v == size * k;
    assert n * t - v * t == (n - v) * t;
    assert (n - v) * t == size * (k * t) by {
      assert (size * k) * t == size * (k * t);
    }
    assert r - (p + v * t) == size * (k * t - q);
    RustInt.MultipleMod(k * t - q, size);
  }

  /** `Robot::tick`: the new position of a robot after `ticks` steps in a width x height room. */
  function TickRobot(r: Robot, width: int, height: int, ticks: int): (r': Robot)
    requires width != 0 && height != 0
    ensures r'.vx == r.vx && r'.vy == r.vy
    ensures width > 0 && height > 0 && ticks >= 0 && InRoom(r.position, width, height)
      ==> InRoom(r'.position, width, height)
    ensures (r'.position.x - (r.position.x + r.vx * ticks)) % width == 0
    ensures (r'.position.y - (r.position.y + r.vy * ticks)) % height == 0
  {
    r.(position := Point(Advance(r.position.x, r.vx, width, ticks), Advance(r.position.y, r.vy, height, ticks)))
  }

  predicate InRoom(p: Point, width: int, height: int) {
    0 <= p.x < width && 0 <= p.y < height
  }

  /** Ticking once from (6,3) with velocity (-1,-3) in a 7 x 11 room lands on (5,0). */
  /** With a position inside the room, the new coordinate is the Euclidean remainder of
      `p + v * ticks`: the normalisation only keeps Rust's `%` away from negative operands. */
  lemma AdvanceMod(p: int, v: int, size: int, ticks: int)
    requires size > 0 && 0 <= p && ticks >= 0
    ensures Advance(p, v, size, ticks) == (p + v * ticks) % size
  {
    var r, a := Advance(p, v, size, ticks), p + v * ticks;
    var m := (r - a) / size;
    assert r - a == size * m;
    RustInt.NegMul(size, m);
    RustInt.DivUnique(a, size, -m, r);
  }

  /** `Robot::tick` from inside the room moves the robot to `(p + v * ticks) mod size`. */
  lemma TickMod(r: Robot, width: int, height: int, ticks: int)
    requires width > 0 && height > 0 && ticks >= 0 && InRoom(r.position, width, height)
    ensures TickRobot(r, width, height, ticks)
      == Robot(Point((r.position.x + r.vx * ticks) % width, (r.position.y + r.vy * ticks) % height), r.vx, r.vy)
  {
    AdvanceMod(r.position.x, r.vx, width, ticks);
    AdvanceMod(r.position.y, r.vy, height, ticks);
  }

  lemma ExampleTick()
    ensures TickRobot(Robot(Point(6, 3), -1, -3), 7, 11, 1).position == Point(5, 0)
  {
    TickMod(Robot(Point(6, 3), -1, -3), 7, 11, 1);
  }

  /** Which quadrant a position lies in (0 top-left, 1 top-right, 2 bottom-left, 3 bottom-right),
      by the comparisons of `safety_factor`; None on the middle row or column. */
  function Quadrant(p: Point, width: int, height: int): (q: Option<nat>)
    ensures q.Some? ==> q.value < 4
    ensures q.None? <==> p.x == RustInt.Quot(width, 2) || p.y == RustInt.Quot(height, 2)
    ensures q.Some? ==> (q.value % 2 == 0 <==> p.x < RustInt.Quot(width, 2))
    ensures q.Some? ==> (q.value < 2 <==> p.y < RustInt.Quot(height, 2))
  {
    var mx, my := RustInt.Quot(width, 2), RustInt.Quot(height, 2);
    if p.x < mx && p.y < my then Some(0)
    else if p.x >= mx + 1 && p.y < my then Some(1)
    else if p.x < mx && p.y >= my + 1 then Some(2)
    else if p.x >= mx + 1 && p.y >= my + 1 then Some(3)
    else None
  }

  /** The number of robots in quadrant q. */
  function InQuadrant(robots: seq<Robot>, width: int, height: int, q: nat): (n: nat)
    ensures n <= |robots|
  {
    if robots == [] then 0
    else
      var last := if Quadrant(robots[|robots| - 1].position, width, height) == Some(q) then 1 else 0;
      InQuadrant(robots[..|robots| - 1], width, height, q) + last
  }

  /** The number of robots on the middle row or middle column. */
  function OnMiddle(robots: seq<Robot>, width: int, height: int): (n: nat)
    ensures n <= |robots|
  {
    if robots == [] then 0
    else
      var last := if Quadrant(robots[|robots| - 1].position, width, height).None? then 1 else 0;
      OnMiddle(robots[..|robots| - 1], width, height) + last
  }

  /** Every robot is counted exactly once: in one quadrant or on the middle lines. */
  lemma {:induction false} QuadrantsPartition(robots: seq<Robot>, width: int, height: int)
    ensures InQuadrant(robots, width, height, 0) + InQuadrant(robots, width, height, 1)
      + InQuadrant(robots, width, height, 2) + InQuadrant(robots, width, height, 3)
      + OnMiddle(robots, width, height) == |robots|
  {
    if robots != [] {
      QuadrantsPartition(robots[..|robots| - 1], width, height);
    }
  }

  function Positions(robots: seq<Robot>): (ps: seq<Point>)
    ensures |ps| == |robots|
    ensures forall i :: 0 <= i < |robots| ==> ps[i] == robots[i].position
  {
    if robots == [] then [] else Positions(robots[..|robots| - 1]) + [robots[|robots| - 1].position]
  }

  /** The number of robots standing on p. */
  function CountAt(robots: seq<Robot>, p: Point): (n: nat)
    ensures n == multiset(Positions(robots))[p]
  {
    if robots == [] then 0
    else CountAt(robots[..|robots| - 1], p) + (if robots[|robots| - 1].position == p then 1 else 0)
  }

  /** `parse_line`: split on space, comma, `=`, `p` and `v`, drop empty pieces, parse every
      piece as a signed integer, then take the first four. A malformed piece anywhere, or fewer
      than four pieces (a panic in the source), gives None. */
  function ParseLine(line: string): (r: Option<Robot>)
    ensures r.Some? ==> |Text.Tokens(line, {' ', ',', '=', 'p', 'v'})| >= 4
  {
    match Text.ParseInts(Text.Tokens(line, {' ', ',', '=', 'p', 'v'}))
    case None => None
    case Some(v) => if |v| < 4 then None else Some(Robot(Point(v[0], v[1]), v[2], v[3]))
  }

  /** A line is a robot exactly when it has at least four pieces and every piece, the ones
      after the fourth included, is a number; the robot is then the first four numbers. */
  lemma ParseLineIff(line: string, parts: seq<string>)
    requires parts == Text.Tokens(line, {' ', ',', '=', 'p', 'v'})
    ensures ParseLine(line).Some? <==> |parts| >= 4 && forall i :: 0 <= i < |parts| ==> Text.ParseInt(parts[i]).Some?
    ensures ParseLine(line).Some? ==>
      && Text.ParseInt(parts[0]) == Some(ParseLine(line).value.position.x)
      && Text.ParseInt(parts[1]) == Some(ParseLine(line).value.position.y)
      && Text.ParseInt(parts[2]) == Some(ParseLine(line).value.vx)
      && Text.ParseInt(parts[3]) == Some(ParseLine(line).value.vy)
  {
  }

  class Room {
    var height: int
    var width: int
    var robots: seq<Robot>

    constructor (height: int, width: int, robots: seq<Robot>)
      ensures this.height == height && this.width == width && this.robots == robots
    {
      this.height := height;
      this.width := width;
      this.robots := robots;
    }

    /** Every robot stands inside the room. */
    predicate Valid()
      reads this
    {
      width > 0 && height > 0 && forall i :: 0 <= i < |robots| ==> InRoom(robots[i].position, width, height)
    }

    /** `Room::tick`: every robot moves; nothing else about the room changes. */
    method Tick(ticks: int)
      requires width != 0 && height != 0
      modifies this
      ensures width == old(width) && height == old(height)
      ensures |robots| == |old(robots)|
      ensures forall i :: 0 <= i < |robots| ==> robots[i] == TickRobot(old(robots)[i], width, height, ticks)
      ensures ticks >= 0 && old(Valid()) ==> Valid()
    {
      var i := 0;
      while i < |robots|
        invariant 0 <= i <= |robots| == |old(robots)|
        invariant width == old(width) && height == old(height)
        invariant forall k :: 0 <= k < i ==> robots[k] == TickRobot(old(robots)[k], width, height, ticks)
        invariant forall k :: i <= k < |robots| ==> robots[k] == old(robots)[k]
      {
        robots := robots[i := TickRobot(robots[i], width, height, ticks)];
        i := i + 1;
      }
    }

    /** `Room::safety_factor`: the product of the four quadrant counts. */
    method SafetyFactor() returns (f: int)
      ensures f == InQuadrant(robots, width, height, 0) * InQuadrant(robots, width, height, 1)
        * InQuadrant(robots, width, height, 2) * InQuadrant(robots, width, height, 3)
    {
      var z0, z1, z2, z3 := 0, 0, 0, 0;
      for i := 0 to |robots|
        invariant z0 == InQuadrant(robots[..i], width, height, 0)
        invariant z1 == InQuadrant(robots[..i], width, height, 1)
        invariant z2 == InQuadrant(robots[..i], width, height, 2)
        invariant z3 == InQuadrant(robots[..i], width, height, 3)
      {
        assert robots[..i + 1][..i] == robots[..i];
        var p := robots[i].position;
        var mx, my := RustInt.Quot(width, 2), RustInt.Quot(height, 2);
        if p.x < mx && p.y < my {
          z0 := z0 + 1;
        } else if p.x >= mx + 1 && p.y < my {
          z1 := z1 + 1;
        } else if p.x < mx && p.y >= my + 1 {
          z2 := z2 + 1;
        } else if p.x >= mx + 1 && p.y >= my + 1 {
          z3 := z3 + 1;
        }
      }
      assert robots[..|robots|] == robots;
      f := z0 * z1 * z2 * z3;
    }

    /** `Room::robots_at`: how many robots stand on (x, y). */
    function RobotsAt(x: int, y: int): (n: nat)
      reads this
      ensures n == multiset(Positions(robots))[Point(x, y)]
      ensures n <= |robots|
    {
      CountAtBound(robots, Point(x, y));
      CountAt(robots, Point(x, y))
    }
  }

  lemma {:induction false} CountAtBound(robots: seq<Robot>, p: Point)
    ensures CountAt(robots, p) <= |robots|
  {
    if robots != [] {
      CountAtBound(robots[..|robots| - 1], p);
    }
  }

  /** The sample robots after 100 ticks in an 11 x 7 room. */
  lemma ExampleTicks()
    ensures forall i :: 0 <= i < 12 ==> TickRobot(Sample()[i], 11, 7, 100) == SampleAfter100()[i]
  {
    forall i | 0 <= i < 12 ensures TickRobot(Sample()[i], 11, 7, 100) == SampleAfter100()[i] {
      ExampleTickAt(i);
    }
  }

  lemma ExampleTickAt(i: nat)
    requires i < 12
    ensures TickRobot(Sample()[i], 11, 7, 100) == SampleAfter100()[i]
  {
    if i < 4 {
      ExampleTicksFirst(i);
    } else if i < 8 {
      ExampleTicksMiddle(i);
    } else {
      ExampleTicksLast(i);
    }
  }

  /** One robot of the sample, 100 ticks in the 11 x 7 room. */
  lemma TickSample(x: int, y: int, vx: int, vy: int, x': int, y': int)
    requires 0 <= x < 11 && 0 <= y < 7
    requires (x + vx * 100) % 11 == x' && (y + vy * 100) % 7 == y'
    ensures TickRobot(Robot(Point(x, y), vx, vy), 11, 7, 100) == Robot(Point(x', y'), vx, vy)
  {
    TickMod(Robot(Point(x, y), vx, vy), 11, 7, 100);
  }

  lemma ExampleTicksFirst(i: nat)
    requires i < 4
    ensures TickRobot(Sample()[i], 11, 7, 100) == SampleAfter100()[i]
  {
    var r, e := Sample()[i], SampleAfter100()[i];
    if i == 0 {
      assert r == Robot(Point(0, 4), 3, -3) && e == Robot(Point(3, 5), 3, -3);
      TickSample(0, 4, 3, -3, 3, 5);
    } else if i == 1 {
      assert r == Robot(Point(6, 3), -1, -3) && e == Robot(Point(5, 4), -1, -3);
      TickSample(6, 3, -1, -3, 5, 4);
    } else if i == 2 {
      assert r == Robot(Point(10, 3), -1, 2) && e == Robot(Point(9, 0), -1, 2);
      TickSample(10, 3, -1, 2, 9, 0);
    } else {
      assert r == Robot(Point(2, 0), 2, -1) && e == Robot(Point(4, 5), 2, -1);
      TickSample(2, 0, 2, -1, 4, 5);
    }
  }

  lemma ExampleTicksMiddle(i: nat)
    requires 4 <= i < 8
    ensures TickRobot(Sample()[i], 11, 7, 100) == SampleAfter100()[i]
  {
    var r, e := Sample()[i], SampleAfter100()[i];
    if i == 4 {
      assert r == Robot(Point(0, 0), 1, 3) && e == Robot(Point(1, 6), 1, 3);
      TickSample(0, 0, 1, 3, 1, 6);
    } else if i == 5 {
      assert r == Robot(Point(3, 0), -2, -2) && e == Robot(Point(1, 3), -2, -2);
      TickSample(3, 0, -2, -2, 1, 3);
    } else if i == 6 {
      assert r == Robot(Point(7, 6), -1, -3) && e == Robot(Point(6, 0), -1, -3);
      TickSample(7, 6, -1, -3, 6, 0);
    } else {
      assert r == Robot(Point(3, 0), -1, -2) && e == Robot(Point(2, 3), -1, -2);
      TickSample(3, 0, -1, -2, 2, 3);
    }
  }

  lemma ExampleTicksLast(i: nat)
    requires 8 <= i < 12
    ensures TickRobot(Sample()[i], 11, 7, 100) == SampleAfter100()[i]
  {
    var r, e := Sample()[i], SampleAfter100()[i];
    if i == 8 {
      assert r == Robot(Point(9, 3), 2, 3) && e == Robot(Point(0, 2), 2, 3);
      TickSample(9, 3, 2, 3, 0, 2);
    } else if i == 9 {
      assert r == Robot(Point(7, 3), -1, 2) && e == Robot(Point(6, 0), -1, 2);
      TickSample(7, 3, -1, 2, 6, 0);
    } else if i == 10 {
      assert r == Robot(Point(2, 4), 2, -3) && e == Robot(Point(4, 5), 2, -3);
      TickSample(2, 4, 2, -3, 4, 5);
    } else {
      assert r == Robot(Point(9, 5), -3, -3) && e == Robot(Point(6, 6), -3, -3);
      TickSample(9, 5, -3, -3, 6, 6);
    }
  }

  /** The safety factor of the sample after 100 ticks is 12 (counts 1, 3, 4 and 1). */
  lemma ExampleSafetyFactor()
    ensures var rs := SampleAfter100();
      InQuadrant(rs, 11, 7, 0) * InQuadrant(rs, 11, 7, 1) * InQuadrant(rs, 11, 7, 2) * InQuadrant(rs, 11, 7, 3) == 12
  {
    ExampleQuadrant(0, 1);
    ExampleQuadrant(1, 3);
    ExampleQuadrant(2, 4);
    ExampleQuadrant(3, 1);
  }

  /** Counts quadrant q of the sample by walking its prefixes. */
  lemma ExampleQuadrant(q: nat, n: nat)
    requires q < 4 && n == [1, 3, 4, 1][q]
    ensures InQuadrant(SampleAfter100(), 11, 7, q) == n
  {
    var rs := SampleAfter100();
    var c := [[0, 0, 0, 0, 0, 0, 0, 0, 0, 1, 1, 1, 1], [0, 0, 0, 1, 1, 1, 1, 2, 2, 2, 3, 3, 3], [0, 1, 1, 1, 2, 3, 3, 3, 3, 3, 3, 4, 4], [0, 0, 0, 0, 0, 0, 0, 0, 0, 0, 0, 0, 1]];
    assert rs[..1][..0] == rs[..0];
    assert InQuadrant(rs[..1], 11, 7, q) == c[q][1];
    assert rs[..2][..1] == rs[..1];
    assert InQuadrant(rs[..2], 11, 7, q) == c[q][2];
    assert rs[..3][..2] == rs[..2];
    assert InQuadrant(rs[..3], 11, 7, q) == c[q][3];
    assert rs[..4][..3] == rs[..3];
    assert InQuadrant(rs[..4], 11, 7, q) == c[q][4];
    assert rs[..5][..4] == rs[..4];
    assert InQuadrant(rs[..5], 11, 7, q) == c[q][5];
    assert rs[..6][..5] == rs[..5];
    assert InQuadrant(rs[..6], 11, 7, q) == c[q][6];
    assert rs[..7][..6] == rs[..6];
    assert InQuadrant(rs[..7], 11, 7, q) == c[q][7];
    assert rs[..8][..7] == rs[..7];
    assert InQuadrant(rs[..8], 11, 7, q) == c[q][8];
    assert rs[..9][..8] == rs[..8];
    assert InQuadrant(rs[..9], 11, 7, q) == c[q][9];
    assert rs[..10][..9] == rs[..9];
    assert InQuadrant(rs[..10], 11, 7, q) == c[q][10];
    assert rs[..11][..10] == rs[..10];
    assert InQuadrant(rs[..11], 11, 7, q) == c[q][11];
    assert rs[..12][..11] == rs[..11];
    assert InQuadrant(rs[..12], 11, 7, q) == c[q][12];
    assert rs[..12] == rs;
  }

  function Sample(): (rs: seq<Robot>)
    ensures |rs| == 12
  {
    [Robot(Point(0, 4), 3, -3), Robot(Point(6, 3), -1, -3), Robot(Point(10, 3), -1, 2), Robot(Point(2, 0), 2, -1), Robot(Point(0, 0), 1, 3), Robot(Point(3, 0), -2, -2), Robot(Point(7, 6), -1, -3), Robot(Point(3, 0), -1, -2), Robot(Point(9, 3), 2, 3), Robot(Point(7, 3), -1, 2), Robot(Point(2, 4), 2, -3), Robot(Point(9, 5), -3, -3)]
  }

  /** Where the sample robots stand after 100 ticks. */
  function SampleAfter100(): (rs: seq<Robot>)
    ensures |rs| == 12
  {
    [Robot(Point(3, 5), 3, -3), Robot(Point(5, 4), -1, -3), Robot(Point(9, 0), -1, 2), Robot(Point(4, 5), 2, -1), Robot(Point(1, 6), 1, 3), Robot(Point(1, 3), -2, -2), Robot(Point(6, 0), -1, -3), Robot(Point(2, 3), -1, -2), Robot(Point(0, 2), 2, 3), Robot(Point(6, 0), -1, 2), Robot(Point(4, 5), 2, -3), Robot(Point(6, 6), -3, -3)]
  }

  /** The input line describing robot r. */
  function Format(r: Robot): string {
    Line(Text.Render(r.position.x), Text.Render(r.position.y), Text.Render(r.vx), Text.Render(r.vy))
  }

  /** `p=x,y v=vx,vy`: empty pieces before `p`, between `p` and `=`, and likewise for `v`. */
  function Line(x: string, y: string, vx: string, vy: string): string {
    Text.Interleave([[], [], x, y, [], [], vx, vy], "p=, v=,")
  }

  /** `parse_line` reads back every robot written in the input format; the minus sign of a
      negative number survives because `-` is not a separator. */
  lemma ParseFormat(r: Robot)
    ensures ParseLine(Format(r)) == Some(r)
  {
    var seps := {' ', ',', '=', 'p', 'v'};
    NoSeparators(r.position.x, seps);
    NoSeparators(r.position.y, seps);
    NoSeparators(r.vx, seps);
    NoSeparators(r.vy, seps);
    LineTokens(Text.Render(r.position.x), Text.Render(r.position.y), Text.Render(r.vx), Text.Render(r.vy));
    Text.ParseRender(r.position.x);
    Text.ParseRender(r.position.y);
    Text.ParseRender(r.vx);
    Text.ParseRender(r.vy);
  }

  lemma LineTokens(x: string, y: string, vx: string, vy: string)
    requires x != [] && y != [] && vx != [] && vy != []
    requires Text.Split(x, {' ', ',', '=', 'p', 'v'}) == [x] && Text.Split(y, {' ', ',', '=', 'p', 'v'}) == [y]
    requires Text.Split(vx, {' ', ',', '=', 'p', 'v'}) == [vx] && Text.Split(vy, {' ', ',', '=', 'p', 'v'}) == [vy]
    ensures Text.Tokens(Line(x, y, vx, vy), {' ', ',', '=', 'p', 'v'}) == [x, y, vx, vy]
  {
    var e: string := [];
    var seps := {' ', ',', '=', 'p', 'v'};
    var parts := [e, e, x, y, e, e, vx, vy];
    assert Text.Split(e, seps) == [e];
    Text.SplitInterleave(parts, "p=, v=,", seps);
    DropEmpties(x, y, vx, vy);
  }

  lemma DropEmpties(x: string, y: string, vx: string, vy: string)
    requires x != [] && y != [] && vx != [] && vy != []
    ensures Text.RemoveEmpty([[], [], x, y, [], [], vx, vy]) == [x, y, vx, vy]
  {
    var e: string := [];
    assert [e, e, x, y, e, e, vx, vy] == [e, e, x, y] + [e, e, vx, vy];
    Text.RemoveEmptyAppend([e, e, x, y], [e, e, vx, vy]);
    DropTwo(x, y);
    DropTwo(vx, vy);
  }

  lemma DropTwo(x: string, y: string)
    requires x != [] && y != []
    ensures Text.RemoveEmpty([[], [], x, y]) == [x, y]
  {
    var e: string := [];
    assert [e, e, x, y][1..] == [e, x, y] && [e, x, y][1..] == [x, y];
    Text.RemoveEmptyNone([x, y]);
  }

  lemma NoSeparators(n: int, seps: set<char>)
    requires seps == {' ', ',', '=', 'p', 'v'}
    ensures Text.Split(Text.Render(n), seps) == [Text.Render(n)] && Text.Render(n) != []
  {
    Text.RenderChars(n);
    Text.SplitNoSeparator(Text.Render(n), seps);
  }

  /** A fifth piece that is not a number makes the line fail, although the first four pieces
      are a robot: `parse_line` unwraps every piece before it indexes the first four. */
  lemma TrailingJunk(r: Robot, t: string)
    requires t != [] && forall i :: 0 <= i < |t| ==> t[i] !in {' ', ',', '=', 'p', 'v'}
    requires Text.ParseInt(t).None?
    ensures ParseLine(Format(r) + " " + t) == None
  {
    var seps := {' ', ',', '=', 'p', 'v'};
    FormatTokens(r);
    TokensAppend(Format(r), t, seps);
    assert Text.Tokens(Format(r) + " " + t, seps)[4] == t;
  }

  /** The four numbers of a written robot are its pieces. */
  lemma FormatTokens(r: Robot)
    ensures |Text.Tokens(Format(r), {' ', ',', '=', 'p', 'v'})| == 4
  {
    var seps := {' ', ',', '=', 'p', 'v'};
    NoSeparators(r.position.x, seps);
    NoSeparators(r.position.y, seps);
    NoSeparators(r.vx, seps);
    NoSeparators(r.vy, seps);
    LineTokens(Text.Render(r.position.x), Text.Render(r.position.y), Text.Render(r.vx), Text.Render(r.vy));
  }

  /** A space and a piece without separators add that one piece. */
  lemma TokensAppend(a: string, t: string, seps: set<char>)
    requires ' ' in seps && t != [] && forall i :: 0 <= i < |t| ==> t[i] !in seps
    ensures Text.Tokens(a + " " + t, seps) == Text.Tokens(a, seps) + [t]
  {
    Text.SplitAtSeparator(a, ' ', t, seps);
    Text.SplitNoSeparator(t, seps);
    Text.RemoveEmptyAppend(Text.Split(a, seps), [t]);
    Text.RemoveEmptyNone([t]);
  }

  /** `p=0,4 v=3,-3 x` fails on its last piece. */
  lemma ExampleTrailing()
    ensures ParseLine("p=0,4 v=3,-3 x") == None
  {
    var r := Robot(Point(0, 4), 3, -3);
    SampleFormat();
    assert Format(r) + " " + "x" == "p=0,4 v=3,-3 x";
    assert Text.ParseNat("x").None?;
    TrailingJunk(r, "x");
  }

  /** The first sample line parses to position (0,4) and velocity (3,-3). */
  lemma ExampleParse()
    ensures ParseLine("p=0,4 v=3,-3") == Some(Robot(Point(0, 4), 3, -3))
  {
    var r := Robot(Point(0, 4), 3, -3);
    SampleFormat();
    ParseFormat(r);
  }

  /** The first sample line is the written form of its robot. */
  lemma SampleFormat()
    ensures Format(Robot(Point(0, 4), 3, -3)) == "p=0,4 v=3,-3"
  {
    assert Text.Render(0) == "0" && Text.Render(4) == "4" && Text.Render(3) == "3";
    assert Text.Render(-3) == "-3";
    SampleLine();
  }

  lemma SampleLine()
    ensures Line("0", "4", "3", "-3") == "p=0,4 v=3,-3"
  {
  }
}
