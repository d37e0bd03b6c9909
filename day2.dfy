/** Day 2: a report is safe when its levels move in one direction by steps of 1 to 3. */
module Day2 {

  import opened Wrappers
  import Text

  /** `i32::signum`. */
  function Sign(d: int): (s: int)
    ensures s == -1 || s == 0 || s == 1
    ensures s > 0 <==> d > 0
    ensures s < 0 <==> d < 0
  {
    if d > 0 then 1 else if d < 0 then -1 else 0
  }

  /** `windows(2).map(|e| e[1] - e[0])`: the differences between neighbouring levels. */
  function Distances(levels: seq<int>): (ds: seq<int>)
    ensures |ds| == if levels == [] then 0 else |levels| - 1
    ensures forall i :: 0 <= i < |ds| ==> ds[i] == levels[i + 1] - levels[i]
  {
    if |levels| < 2 then [] else [levels[1] - levels[0]] + Distances(levels[1..])
  }

  predicate Increasing(levels: seq<int>) {
    forall i :: 0 <= i < |levels| - 1 ==> 1 <= levels[i + 1] - levels[i] <= 3
  }

  predicate Decreasing(levels: seq<int>) {
    forall i :: 0 <= i < |levels| - 1 ==> 1 <= levels[i] - levels[i + 1] <= 3
  }

  /** `is_safe` on parsed levels: every difference, multiplied by the sign of the first one,
      lies in 1..3. The source reads `distances[0]`, so a report needs two levels. */
  function IsSafeLevels(levels: seq<int>): (safe: bool)
    requires |levels| >= 2
    ensures safe <==> Increasing(levels) || Decreasing(levels)
    ensures levels[1] == levels[0] ==> !safe
  {
    var ds := Distances(levels);
    var sign := Sign(ds[0]);
    SignCases(levels, ds, sign);
    forall i :: 0 <= i < |ds| ==> 0 < sign * ds[i] <= 3
  }

  lemma SignCases(levels: seq<int>, ds: seq<int>, sign: int)
    requires |levels| >= 2 && |ds| == |levels| - 1
    requires forall i :: 0 <= i < |ds| ==> ds[i] == levels[i + 1] - levels[i]
    requires sign == Sign(ds[0])
    ensures (forall i :: 0 <= i < |ds| ==> 0 < sign * ds[i] <= 3) <==> Increasing(levels) || Decreasing(levels)
  {
    forall i | 0 <= i < |ds| ensures sign * ds[i] == (if sign == 1 then ds[i] else if sign == -1 then -ds[i] else 0) {
      Times(sign, ds[i]);
    }
    if forall i :: 0 <= i < |ds| ==> 0 < sign * ds[i] <= 3 {
      if sign == 1 {
        forall i | 0 <= i < |levels| - 1 ensures 1 <= levels[i + 1] - levels[i] <= 3 {
          assert 0 < sign * ds[i] <= 3;
        }
      } else if sign == -1 {
        forall i | 0 <= i < |levels| - 1 ensures 1 <= levels[i] - levels[i + 1] <= 3 {
          assert 0 < sign * ds[i] <= 3;
        }
      }
    }
    if Increasing(levels) {
      assert ds[0] > 0;
      forall i | 0 <= i < |ds| ensures 0 < sign * ds[i] <= 3 {
        assert 1 <= levels[i + 1] - levels[i] <= 3;
      }
    }
    if Decreasing(levels) {
      assert levels[0] - levels[1] > 0;
      forall i | 0 <= i < |ds| ensures 0 < sign * ds[i] <= 3 {
        assert 1 <= levels[i] - levels[i + 1] <= 3;
      }
    }
  }

  lemma Times(sign: int, d: int)
    requires sign == -1 || sign == 0 || sign == 1
    ensures sign * d == (if sign == 1 then d else if sign == -1 then -d else 0)
  {
  }

  /** `is_safe` on a report line: split on whitespace and parse every level. Fewer than two
      levels or a malformed one panic in the source and give None here. */
  function IsSafe(line: string): (r: Option<bool>)
    ensures r.Some? ==> |Text.Words(line)| >= 2
  {
    var words := Text.Words(line);
    if |words| < 2 then None
    else
      match Text.ParseInts(words)
      case None => None
      case Some(levels) => Some(IsSafeLevels(levels))
  }

  /** A report written as levels separated by single spaces is judged on those levels. */
  lemma IsSafeFormat(levels: seq<int>)
    requires |levels| >= 2
    ensures IsSafe(Text.Join(Text.RenderAll(levels), ' ')) == Some(IsSafeLevels(levels))
  {
    Text.WordsOfRendered(levels);
    Text.ParseIntsRendered(levels);
  }

  /** The verdict on every report. */
  function Verdicts(reports: seq<string>): (vs: seq<Option<bool>>)
    ensures |vs| == |reports|
    ensures forall i :: 0 <= i < |reports| ==> vs[i] == IsSafe(reports[i])
  {
    if reports == [] then [] else Verdicts(reports[..|reports| - 1]) + [IsSafe(reports[|reports| - 1])]
  }

  /** `count_safe`: the number of safe reports; None if judging any report panics. */
  function CountSafe(reports: seq<string>): (r: Option<nat>)
    ensures r.Some? <==> forall i :: 0 <= i < |reports| ==> IsSafe(reports[i]).Some?
    ensures r.Some? ==> r.value == multiset(Verdicts(reports))[Some(true)]
  {
    CountTrue(Verdicts(reports))
  }

  /** The number of `Some(true)` verdicts, or None if some verdict is missing. */
  function CountTrue(vs: seq<Option<bool>>): (r: Option<nat>)
    ensures r.Some? <==> forall i :: 0 <= i < |vs| ==> vs[i].Some?
    ensures r.Some? ==> r.value == multiset(vs)[Some(true)]
  {
    if vs == [] then Some(0)
    else
      var n := |vs| - 1;
      assert vs == vs[..n] + [vs[n]];
      match (CountTrue(vs[..n]), vs[n])
      case (Some(k), Some(safe)) => Some(k + if safe then 1 else 0)
      case (None, _) =>
        var i :| 0 <= i < n && vs[..n][i].None?;
        assert vs[i].None?;
        None
      case (_, None) => None
  }

  /** The sample reports, judged on their levels. */
  lemma ExampleLevels()
    ensures IsSafeLevels([7, 6, 4, 2, 1])
    ensures !IsSafeLevels([1, 2, 7, 8, 9])
    ensures !IsSafeLevels([9, 7, 6, 2, 1])
    ensures !IsSafeLevels([1, 3, 2, 4, 5])
    ensures !IsSafeLevels([8, 6, 4, 4, 1])
    ensures IsSafeLevels([1, 3, 6, 7, 9])
  {
    ExampleSafe();
    ExampleUnsafe();
  }

  lemma ExampleSafe()
    ensures IsSafeLevels([7, 6, 4, 2, 1])
    ensures IsSafeLevels([1, 3, 6, 7, 9])
  {
    var a := [7, 6, 4, 2, 1];
    assert a[0] - a[1] == 1 && a[1] - a[2] == 2 && a[2] - a[3] == 2 && a[3] - a[4] == 1;
    assert Decreasing(a);
    var b := [1, 3, 6, 7, 9];
    assert b[1] - b[0] == 2 && b[2] - b[1] == 3 && b[3] - b[2] == 1 && b[4] - b[3] == 2;
    assert Increasing(b);
  }

  lemma ExampleUnsafe()
    ensures !IsSafeLevels([1, 2, 7, 8, 9])
    ensures !IsSafeLevels([9, 7, 6, 2, 1])
    ensures !IsSafeLevels([1, 3, 2, 4, 5])
    ensures !IsSafeLevels([8, 6, 4, 4, 1])
  {
    var a := [1, 2, 7, 8, 9];
    assert a[2] - a[1] == 5 && a[0] - a[1] == -1;
    var b := [9, 7, 6, 2, 1];
    assert b[2] - b[3] == 4 && b[1] - b[0] == -2;
    var c := [1, 3, 2, 4, 5];
    assert c[2] - c[1] == -1 && c[0] - c[1] == -2;
    var d := [8, 6, 4, 4, 1];
    assert d[3] - d[2] == 0;
  }
}
