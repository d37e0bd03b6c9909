/** Day 11: stones that change by a digit rule on every blink, counted with a value -> count map. */
module Day11 {

  import Decimal
  import Text

  /** How a stone changes on a blink. */
  datatype Next = AddOne | Split | Multiply

  /** `Next::from_val`: 0 becomes 1, an even number of decimal digits splits, all else is
      multiplied by 2024. */
  function FromVal(num: nat): (k: Next)
    ensures k == AddOne <==> num == 0
    ensures k == Split <==> num != 0 && |Decimal.Digits(num)| % 2 == 0
    ensures k == Split ==> num >= 10
  {
    Decimal.DigitsLength(num);
    if num == 0 then AddOne
    else if Decimal.NumDigits(num) % 2 == 0 then Split
    else Multiply
  }

  /** `Next::next_val`: the stones that replace `current`. A split renders the number, cuts
      the text in half and parses both halves (the right half loses its leading zeros); it
      needs at least two digits, or parsing the empty left half would panic. */
  function NextVal(k: Next, current: nat): (r: seq<nat>)
    requires k == Split ==> current >= 10
    ensures k == AddOne ==> r == [current + 1]
    ensures k == Multiply ==> r == [current * 2024]
    ensures k == Split ==> |r| == 2
    ensures k == Split ==> var h := Decimal.NumDigits(current) - Decimal.NumDigits(current) / 2;
      r[0] * Decimal.Pow10(h) + r[1] == current && r[1] < Decimal.Pow10(h)
  {
    match k
    case AddOne => [current + 1]
    case Multiply => [current * 2024]
    case Split => SplitHalves(current)
  }

  /** The split case: render, cut at half the digit count, parse both halves. */
  function SplitHalves(current: nat): (r: seq<nat>)
    requires current >= 10
    ensures |r| == 2
    ensures var h := Decimal.NumDigits(current) - Decimal.NumDigits(current) / 2;
      r[0] * Decimal.Pow10(h) + r[1] == current && r[1] < Decimal.Pow10(h)
  {
    var s := Decimal.Digits(current);
    Decimal.DigitsLength(current);
    var half := |s| / 2;
    Decimal.SplitDigits(s, half);
    Text.ParseDigits(s[..half]);
    Text.ParseDigits(s[half..]);
    Decimal.ValueOfDigits(current);
    [Decimal.Value(s[..half]), Decimal.Value(s[half..])]
  }

  /** The stones one stone becomes. */
  function Children(n: nat): (r: seq<nat>)
    ensures 1 <= |r| <= 2
  {
    NextVal(FromVal(n), n)
  }

  lemma ExampleChildren()
    ensures Children(0) == [1]
    ensures Children(17) == [1, 7]
    ensures Children(1000) == [10, 0]
    ensures Children(125) == [253000]
  {
    assert Decimal.Digits(17) == "17";
    assert Decimal.Digits(1000) == "1000";
    assert "17"[..1] == "1" && "17"[1..] == "7";
    assert "1000"[..2] == "10" && "1000"[2..] == "00";
  }

  /** Every element of xs replaced, in place, by f's elements for it. */
  function FlatMap<T>(f: T -> seq<T>, xs: seq<T>): seq<T> {
    if xs == [] then [] else f(xs[0]) + FlatMap(f, xs[1..])
  }

  /** The row of stones after one blink: every stone replaced, in place, by its children. */
  function BlinkAll(stones: seq<nat>): (r: seq<nat>)
    ensures |stones| <= |r| <= 2 * |stones|
  {
    FlatMapLength(stones);
    FlatMap(Children, stones)
  }

  lemma {:induction false} FlatMapLength(stones: seq<nat>)
    ensures |stones| <= |FlatMap(Children, stones)| <= 2 * |stones|
  {
    if stones != [] {
      FlatMapLength(stones[1..]);
      var c := Children(stones[0]);
    }
  }

  lemma {:induction false} FlatMapAppend<T>(f: T -> seq<T>, a: seq<T>, b: seq<T>)
    ensures FlatMap(f, a + b) == FlatMap(f, a) + FlatMap(f, b)
  {
    if a == [] {
      assert a + b == b;
    } else {
      assert (a + b)[1..] == a[1..] + b;
      FlatMapAppend(f, a[1..], b);
    }
  }

  lemma FlatMapSingle<T>(f: T -> seq<T>, x: T)
    ensures FlatMap(f, [x]) == f(x)
  {
    assert [x][1..] == [];
  }

  /** How many elements of each value the map produces depends only on how many elements of
      each value there were, not on their order. */
  lemma {:induction false} FlatMapPermutation<T>(f: T -> seq<T>, a: seq<T>, b: seq<T>)
    requires multiset(a) == multiset(b)
    ensures multiset(FlatMap(f, a)) == multiset(FlatMap(f, b))
    decreases |a|
  {
    if a != [] {
      var x := a[0];
      assert x in multiset(b);
      var j :| 0 <= j < |b| && b[j] == x;
      var rest := b[..j] + b[j + 1..];
      RemoveOne(b, j);
      assert a == [x] + a[1..];
      FlatMapPermutation(f, a[1..], rest);
      assert b == b[..j] + [x] + b[j + 1..];
      FlatMapRemove(f, b[..j], x, b[j + 1..]);
    }
  }

  lemma RemoveOne<T>(b: seq<T>, j: nat)
    requires j < |b|
    ensures multiset(b[..j] + b[j + 1..]) == multiset(b) - multiset{b[j]}
  {
    assert b == b[..j] + [b[j]] + b[j + 1..];
  }

  /** Mapping a sequence yields f(x) for one of its elements plus what the others yield. */
  lemma FlatMapRemove<T>(f: T -> seq<T>, left: seq<T>, x: T, right: seq<T>)
    ensures multiset(FlatMap(f, left + [x] + right)) == multiset(f(x)) + multiset(FlatMap(f, left + right))
  {
    FlatMapSplit(f, left, x, right);
    FlatMapAppend(f, left, right);
    MultisetThree(FlatMap(f, left), f(x), FlatMap(f, right));
  }

  lemma FlatMapSplit<T>(f: T -> seq<T>, left: seq<T>, x: T, right: seq<T>)
    ensures FlatMap(f, (left + [x]) + right) == (FlatMap(f, left) + f(x)) + FlatMap(f, right)
  {
    FlatMapAppend(f, left + [x], right);
    FlatMapAppend(f, left, [x]);
    FlatMapSingle(f, x);
  }

  lemma MultisetThree<T>(l: seq<T>, m: seq<T>, r: seq<T>)
    ensures multiset((l + m) + r) == multiset(m) + multiset(l + r)
  {
  }

  /** How many stones of each value a blink produces depends only on how many stones of each
      value there were, not on their order. */
  lemma BlinkPermutation(a: seq<nat>, b: seq<nat>)
    requires multiset(a) == multiset(b)
    ensures multiset(BlinkAll(a)) == multiset(BlinkAll(b))
  {
    FlatMapPermutation(Children, a, b);
  }

  /** c copies of x. */
  function Repeat<T>(x: T, c: nat): (r: seq<T>)
    ensures multiset(r) == multiset{}[x := c]
  {
    if c == 0 then [] else Repeat(x, c - 1) + [x]
  }

  /** c equal elements map to c copies of f's elements. */
  lemma {:induction false} FlatMapRepeat<T>(f: T -> seq<T>, x: T, c: nat)
    ensures forall v :: multiset(FlatMap(f, Repeat(x, c)))[v] == c * multiset(f(x))[v]
  {
    if c == 0 {
      assert FlatMap(f, Repeat(x, c)) == [];
      forall v ensures multiset(FlatMap(f, Repeat(x, c)))[v] == c * multiset(f(x))[v] {
        ZeroTimes(multiset(f(x))[v]);
      }
    } else {
      FlatMapRepeat(f, x, c - 1);
      FlatMapAppend(f, Repeat(x, c - 1), [x]);
      FlatMapSingle(f, x);
      ScaleStep(FlatMap(f, Repeat(x, c)), FlatMap(f, Repeat(x, c - 1)), f(x), c);
    }
  }

  lemma ScaleStep<T>(now: seq<T>, before: seq<T>, ch: seq<T>, c: nat)
    requires c > 0 && now == before + ch
    requires forall v :: multiset(before)[v] == (c - 1) * multiset(ch)[v]
    ensures forall v :: multiset(now)[v] == c * multiset(ch)[v]
  {
    forall v ensures multiset(now)[v] == c * multiset(ch)[v] {
      assert multiset(now)[v] == multiset(before)[v] + multiset(ch)[v];
      Distribute(c, multiset(ch)[v], multiset(before)[v]);
    }
  }

  lemma ZeroTimes(k: int)
    ensures 0 * k == 0
  {
  }

  lemma Distribute(c: int, k: int, b: int)
    requires b == (c - 1) * k
    ensures b + k == c * k
  {
  }

  /** Adding c stones of value u to the ones already blinked adds c copies of u's children. */
  lemma BlinkStep(done: seq<nat>, u: nat, c: nat)
    ensures forall v ::
      multiset(BlinkAll(done + Repeat(u, c)))[v] == multiset(BlinkAll(done))[v] + c * multiset(Children(u))[v]
  {
    FlatMapAppend(Children, done, Repeat(u, c));
    FlatMapRepeat(Children, u, c);
  }

  /** The row of stones after a number of blinks. */
  function Evolve(stones: seq<nat>, steps: nat): (r: seq<nat>)
    ensures |stones| <= |r|
  {
    if steps == 0 then stones else BlinkAll(Evolve(stones, steps - 1))
  }

  /** The first occurrence of every value, in input order. */
  function Distinct(s: seq<nat>): (r: seq<nat>)
    ensures forall v :: multiset(r)[v] == if v in s then 1 else 0
    ensures |r| <= |s|
  {
    if s == [] then []
    else
      var d := Distinct(s[..|s| - 1]);
      assert s == s[..|s| - 1] + [s[|s| - 1]];
      if s[|s| - 1] in s[..|s| - 1] then d else d + [s[|s| - 1]]
  }

  function Get(m: map<nat, nat>, v: nat): nat {
    if v in m then m[v] else 0
  }

  /** The count map m holds exactly the stones of ms. */
  ghost predicate Represents(m: map<nat, nat>, ms: multiset<nat>) {
    forall v :: ms[v] == Get(m, v)
  }

  /** One blink of the whole count map: `drain` it, then add every stone's children with the
      stone's count. The order in which the map is drained is left open. */
  method BlinkMap(rocks: map<nat, nat>, ghost stones: seq<nat>) returns (next: map<nat, nat>)
    requires Represents(rocks, multiset(stones))
    ensures Represents(next, multiset(BlinkAll(stones)))
  {
    next := map[];
    var keys := rocks.Keys;
    ghost var done: seq<nat> := [];
    while keys != {}
      invariant keys <= rocks.Keys && Drained(rocks, keys, done)
      invariant Represents(next, multiset(BlinkAll(done)))
      decreases keys
    {
      var u :| u in keys;
      var c := rocks[u];
      var result := NextVal(FromVal(u), u);
      ghost var before := next;
      next := AddCount(next, result, c);
      DrainStep(rocks, keys, done, before, next, u);
      done := done + Repeat(u, c);
      keys := keys - {u};
    }
    DrainDone(rocks, done, stones, next);
  }

  /** The stones blinked so far are those of the keys already drained, with their counts. */
  ghost predicate Drained(rocks: map<nat, nat>, keys: set<nat>, done: seq<nat>) {
    forall v :: multiset(done)[v] == (if v in rocks && v !in keys then rocks[v] else 0)
  }

  lemma DrainStep(rocks: map<nat, nat>, keys: set<nat>, done: seq<nat>, next: map<nat, nat>, next': map<nat, nat>, u: nat)
    requires u in keys && keys <= rocks.Keys && Drained(rocks, keys, done)
    requires Represents(next, multiset(BlinkAll(done)))
    requires forall v :: Get(next', v) == Get(next, v) + rocks[u] * multiset(Children(u))[v]
    ensures Drained(rocks, keys - {u}, done + Repeat(u, rocks[u]))
    ensures Represents(next', multiset(BlinkAll(done + Repeat(u, rocks[u]))))
  {
    var c := rocks[u];
    DrainedStep(rocks, keys, done, u);
    BlinkStep(done, u, c);
    AddRepresents(next, next', multiset(BlinkAll(done)), multiset(BlinkAll(done + Repeat(u, c))), Children(u), c);
  }

  lemma DrainedStep(rocks: map<nat, nat>, keys: set<nat>, done: seq<nat>, u: nat)
    requires u in keys && keys <= rocks.Keys && Drained(rocks, keys, done)
    ensures Drained(rocks, keys - {u}, done + Repeat(u, rocks[u]))
  {
    var more := Repeat(u, rocks[u]);
    assert multiset(done + more) == multiset(done) + multiset(more);
  }

  /** Adding c copies of ch to the counts of m adds them to the stones m holds. */
  lemma AddRepresents(m: map<nat, nat>, m': map<nat, nat>, before: multiset<nat>, after: multiset<nat>, ch: seq<nat>, c: nat)
    requires Represents(m, before)
    requires forall v :: Get(m', v) == Get(m, v) + c * multiset(ch)[v]
    requires forall v :: after[v] == before[v] + c * multiset(ch)[v]
    ensures Represents(m', after)
  {
  }

  lemma DrainDone(rocks: map<nat, nat>, done: seq<nat>, stones: seq<nat>, next: map<nat, nat>)
    requires Drained(rocks, {}, done) && Represents(rocks, multiset(stones))
    requires Represents(next, multiset(BlinkAll(done)))
    ensures Represents(next, multiset(BlinkAll(stones)))
  {
    assert multiset(done) == multiset(stones);
    BlinkPermutation(done, stones);
  }

  /** `for e in result { *rocks.entry(e).or_insert(0) += count }`. */
  method AddCount(rocks: map<nat, nat>, result: seq<nat>, c: nat) returns (next: map<nat, nat>)
    ensures forall v :: Get(next, v) == Get(rocks, v) + c * multiset(result)[v]
  {
    next := rocks;
    for j := 0 to |result|
      invariant forall v :: Get(next, v) == Get(rocks, v) + c * multiset(result[..j])[v]
    {
      assert result[..j + 1] == result[..j] + [result[j]];
      ghost var prev := next;
      next := next[result[j] := Get(next, result[j]) + c];
      forall v ensures Get(next, v) == Get(rocks, v) + c * multiset(result[..j + 1])[v] {
        var inc := if v == result[j] then 1 else 0;
        assert multiset(result[..j + 1])[v] == multiset(result[..j])[v] + inc;
        assert Get(next, v) == Get(prev, v) + c * inc;
        AddStep(c, Get(rocks, v), multiset(result[..j])[v], inc);
      }
    }
    assert result[..|result|] == result;
  }

  lemma AddStep(c: int, base: int, k: int, inc: int)
    ensures base + c * k + c * inc == base + c * (k + inc)
  {
  }

  /** `rocks.values().sum()`: the number of stones a count map holds. */
  method CountStones(rocks: map<nat, nat>, ghost stones: multiset<nat>) returns (total: nat)
    requires Represents(rocks, stones)
    ensures total == |stones|
  {
    total := 0;
    var keys := rocks.Keys;
    ghost var rest := stones;
    while keys != {}
      invariant keys <= rocks.Keys
      invariant forall v :: rest[v] == (if v in keys then rocks[v] else 0)
      invariant total + |rest| == |stones|
      decreases keys
    {
      var k :| k in keys;
      total := total + rocks[k];
      RemoveAll(rest, k);
      rest := rest[k := 0];
      keys := keys - {k};
    }
    assert rest == multiset{};
  }

  lemma RemoveAll(ms: multiset<nat>, x: nat)
    ensures |ms[x := 0]| + ms[x] == |ms|
  {
    assert ms == ms[x := 0] + multiset{}[x := ms[x]];
  }

  /** `solve` as written: the initial `insert(*i, 1)` keeps one stone per distinct value. */
  method Solve(input: seq<nat>, steps: nat) returns (total: nat)
    ensures total == |Evolve(Distinct(input), steps)|
  {
    var rocks: map<nat, nat> := map[];
    for i := 0 to |input|
      invariant forall v :: Get(rocks, v) == (if v in input[..i] then 1 else 0)
    {
      assert input[..i + 1] == input[..i] + [input[i]];
      rocks := rocks[input[i] := 1];
    }
    assert input[..|input|] == input;
    total := Run(rocks, Distinct(input), steps);
  }

  /** `solve` counting every input stone: `*rocks.entry(*i).or_insert(0) += 1`. */
  method SolveCounted(input: seq<nat>, steps: nat) returns (total: nat)
    ensures total == |Evolve(input, steps)|
  {
    var rocks: map<nat, nat> := map[];
    for i := 0 to |input|
      invariant forall v :: Get(rocks, v) == multiset(input[..i])[v]
    {
      assert input[..i + 1] == input[..i] + [input[i]];
      rocks := rocks[input[i] := Get(rocks, input[i]) + 1];
    }
    assert input[..|input|] == input;
    total := Run(rocks, input, steps);
  }

  /** The blink loop of `solve` and the final sum: the number of stones after `steps` blinks. */
  method Run(rocks: map<nat, nat>, ghost stones: seq<nat>, steps: nat) returns (total: nat)
    requires Represents(rocks, multiset(stones))
    ensures total == |Evolve(stones, steps)|
  {
    var current := rocks;
    for step := 0 to steps
      invariant Represents(current, multiset(Evolve(stones, step)))
    {
      current := BlinkMap(current, Evolve(stones, step));
    }
    total := CountStones(current, multiset(Evolve(stones, steps)));
  }

  /** With no blinks, `solve` as written counts each distinct input value once. */
  lemma NoStepsCountsDistinct(input: seq<nat>)
    ensures Evolve(Distinct(input), 0) == Distinct(input)
    ensures forall v :: v in input <==> v in Distinct(input)
    ensures forall v :: multiset(Distinct(input))[v] <= 1
  {
    forall v ensures v in input <==> v in Distinct(input) {
      assert v in Distinct(input) <==> v in multiset(Distinct(input));
    }
  }

  /** Two equal stones are counted once by `solve` as written, twice by the corrected one. */
  lemma DuplicatesDropped()
    ensures |Evolve(Distinct([7, 7]), 0)| == 1
    ensures |Evolve([7, 7], 0)| == 2
  {
    assert [7, 7][..1] == [7];
    assert [7][..0] == [];
  }
}
