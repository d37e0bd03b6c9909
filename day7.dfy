/** Day 7: can a calibration target be reached by inserting `+`, `*` or digit concatenation
    between the operands, evaluated left to right? */
module Day7 {

  import opened Wrappers
  import Decimal
  import Text

  /** `format!("{}{}", l, r).parse()`: the digits of l followed by the digits of r. */
  function Concat(l: nat, r: nat): (c: nat)
    ensures c == Decimal.Value(Decimal.Digits(l) + Decimal.Digits(r))
  {
    var s := Decimal.Digits(l) + Decimal.Digits(r);
    Decimal.AllDigitsAppend(Decimal.Digits(l), Decimal.Digits(r));
    Text.ParseDigits(s);
    Text.ParseNat(s).value
  }

  /** Concatenating the digits of r shifts l left by the number of digits of r. */
  lemma ConcatValue(l: nat, r: nat)
    ensures Concat(l, r) == l * Decimal.Pow10(Decimal.NumDigits(r)) + r
  {
    Decimal.ValueAppend(Decimal.Digits(l), Decimal.Digits(r));
    Decimal.ValueOfDigits(l);
    Decimal.ValueOfDigits(r);
    Decimal.DigitsLength(r);
  }

  /** `resolve`: the operand stack has its top (the leftmost operand) at the end. The two top
      operands are replaced by their sum, product or concatenation, and the search recurses on
      the stack that is one element shorter. An empty stack panics in the source. */
  function Resolve(result: nat, operands: seq<nat>): bool
    requires |operands| >= 1
  {
    Search(Concat, result, operands)
  }

  /** The search of `resolve` with the concatenation operator passed in as cat, so that its
      structure can be reasoned about apart from decimal rendering. */
  function Search(cat: (nat, nat) -> nat, result: nat, operands: seq<nat>): bool
    requires |operands| >= 1
    decreases |operands|
  {
    if |operands| == 1 then result == operands[0]
    else
      var l, r := operands[|operands| - 1], operands[|operands| - 2];
      var rest := operands[..|operands| - 2];
      Search(cat, result, rest + [l + r]) || Search(cat, result, rest + [l * r])
      || Search(cat, result, rest + [cat(l, r)])
  }

  datatype Op = Add | Mul | Cat

  function Apply(cat: (nat, nat) -> nat, op: Op, l: nat, r: nat): nat {
    match op
    case Add => l + r
    case Mul => l * r
    case Cat => cat(l, r)
  }

  /** Left-to-right evaluation of operands xs (in input order) joined by the operators ops. */
  function Eval(cat: (nat, nat) -> nat, xs: seq<nat>, ops: seq<Op>): nat
    requires |xs| >= 1 && |ops| == |xs| - 1
    decreases |xs|
  {
    if |xs| == 1 then xs[0] else Eval(cat, [Apply(cat, ops[0], xs[0], xs[1])] + xs[2..], ops[1..])
  }

  function Reverse(xs: seq<nat>): (r: seq<nat>)
    ensures |r| == |xs|
  {
    if xs == [] then [] else Reverse(xs[1..]) + [xs[0]]
  }

  lemma {:induction false} ReverseTwo(xs: seq<nat>)
    requires |xs| >= 2
    ensures Reverse(xs) == Reverse(xs[2..]) + [xs[1], xs[0]]
  {
    var t := xs[1..];
    assert t[1..] == xs[2..] && t[0] == xs[1];
    assert Reverse(t) == Reverse(xs[2..]) + [xs[1]];
    assert Reverse(xs) == Reverse(xs[2..]) + [xs[1]] + [xs[0]];
  }

  lemma {:induction false} ReverseCons(v: nat, t: seq<nat>)
    ensures Reverse([v] + t) == Reverse(t) + [v]
  {
    assert ([v] + t)[1..] == t;
  }

  /** `resolve` on the reversed operands succeeds exactly when some choice of operators
      evaluates, left to right, to the target. */
  lemma ResolveIff(result: nat, xs: seq<nat>)
    requires |xs| >= 1
    ensures Resolve(result, Reverse(xs)) <==> exists ops :: |ops| == |xs| - 1 && Eval(Concat, xs, ops) == result
  {
    SearchIff(Concat, result, xs);
  }

  /** The search on the reversed operands succeeds exactly when some choice of operators
      evaluates, left to right, to the target, whatever concatenation stands for. */
  lemma {:induction false} SearchIff(cat: (nat, nat) -> nat, result: nat, xs: seq<nat>)
    requires |xs| >= 1
    ensures Search(cat, result, Reverse(xs)) <==> exists ops :: |ops| == |xs| - 1 && Eval(cat, xs, ops) == result
    decreases |xs|
  {
    if |xs| == 1 {
      assert Reverse(xs) == xs by {
        assert xs[1..] == [];
      }
      if result == xs[0] {
        assert Eval(cat, xs, []) == result;
      }
    } else {
      SearchUnfold(cat, result, xs);
      SearchStep(cat, result, xs, Add);
      SearchStep(cat, result, xs, Mul);
      SearchStep(cat, result, xs, Cat);
      if ops :| |ops| == |xs| - 1 && Eval(cat, xs, ops) == result {
        assert ops[0] == Add || ops[0] == Mul || ops[0] == Cat;
      }
    }
  }

  /** The operands after combining the first two with op. */
  function Combined(cat: (nat, nat) -> nat, xs: seq<nat>, op: Op): (ys: seq<nat>)
    requires |xs| >= 2
    ensures |ys| == |xs| - 1
  {
    [Apply(cat, op, xs[0], xs[1])] + xs[2..]
  }

  /** One step of the search on reversed operands tries the three ways of combining the first
      two operands. */
  lemma SearchUnfold(cat: (nat, nat) -> nat, result: nat, xs: seq<nat>)
    requires |xs| >= 2
    ensures Search(cat, result, Reverse(xs)) <==>
      (Search(cat, result, Reverse(Combined(cat, xs, Add))) || Search(cat, result, Reverse(Combined(cat, xs, Mul)))
      || Search(cat, result, Reverse(Combined(cat, xs, Cat))))
  {
    var l, r, rest := xs[0], xs[1], Reverse(xs[2..]);
    ReverseTwo(xs);
    SearchShape(cat, result, Reverse(xs), rest, l, r);
    ReverseCons(l + r, xs[2..]);
    ReverseCons(l * r, xs[2..]);
    ReverseCons(cat(l, r), xs[2..]);
  }

  /** One unfolding of the search on a stack rest + [r, l] (top l). */
  lemma SearchShape(cat: (nat, nat) -> nat, result: nat, s: seq<nat>, rest: seq<nat>, l: nat, r: nat)
    requires s == rest + [r, l]
    ensures Search(cat, result, s) <==>
      (Search(cat, result, rest + [l + r]) || Search(cat, result, rest + [l * r])
      || Search(cat, result, rest + [cat(l, r)]))
  {
    assert s[..|s| - 2] == rest;
  }

  /** One branch of the search: after combining the first two operands with op, the search
      succeeds exactly when some operators complete op to the target. */
  lemma {:induction false} SearchStep(cat: (nat, nat) -> nat, result: nat, xs: seq<nat>, op: Op)
    requires |xs| >= 2
    ensures Search(cat, result, Reverse(Combined(cat, xs, op)))
      <==> exists ops :: |ops| == |xs| - 1 && ops[0] == op && Eval(cat, xs, ops) == result
    decreases |xs|, 0
  {
    var ys := Combined(cat, xs, op);
    SearchIff(cat, result, ys);
    if Search(cat, result, Reverse(ys)) {
      var ops' :| |ops'| == |ys| - 1 && Eval(cat, ys, ops') == result;
      var ops := [op] + ops';
      assert ops[1..] == ops';
      assert Eval(cat, xs, ops) == result;
    }
    if ops :| |ops| == |xs| - 1 && ops[0] == op && Eval(cat, xs, ops) == result {
      assert Eval(cat, ys, ops[1..]) == result;
    }
  }

  /** The rendered line for a target and its operands, as they appear in the input. */
  function Format(result: nat, xs: seq<nat>): string
    requires |xs| >= 1
  {
    Decimal.Digits(result) + ": " + Text.Join(Rendered(xs), ' ')
  }

  function Rendered(xs: seq<nat>): (r: seq<string>)
    ensures |r| == |xs|
    ensures forall i :: 0 <= i < |xs| ==> r[i] == Decimal.Digits(xs[i])
  {
    if xs == [] then [] else [Decimal.Digits(xs[0])] + Rendered(xs[1..])
  }

  /** `parse_line`: the target before `": "`, the operands after it separated by single
      spaces, reversed onto a stack; the target if `resolve` finds a way, else 0. A missing
      `": "` (which leaves `resolve` an empty stack) or a malformed number panics in the
      source and gives None here. */
  function ParseLine(input: string): (r: Option<nat>)
    ensures r.Some? ==> Text.SplitOnce(input, ": ").Some?
  {
    match Text.SplitOnce(input, ": ")
    case None => None
    case Some((l, rhs)) =>
      match (Text.ParseNat(l), Text.ParseNats(Text.Split(rhs, {' '})))
      case (Some(result), Some(xs)) => Some(if Resolve(result, Reverse(xs)) then result else 0)
      case _ => None
  }

  /** `parse_line` reads back any well-formed line and keeps its target exactly when some
      operators reach it. */
  lemma ParseFormat(result: nat, xs: seq<nat>)
    requires |xs| >= 1
    ensures ParseLine(Format(result, xs)) == Some(if Resolve(result, Reverse(xs)) then result else 0)
  {
    var d := Decimal.Digits(result);
    var rhs := Text.Join(Rendered(xs), ' ');
    FirstSeparator(d, rhs);
    assert Text.SplitOnce(Format(result, xs), ": ") == Some((d, rhs));
    Text.ParseNatDigits(result);
    SplitRendered(xs);
    ParseRendered(xs);
  }

  /** The first `": "` of a rendered line is the one after the target's digits. */
  lemma FirstSeparator(d: string, rhs: string)
    requires Decimal.AllDigits(d)
    ensures Text.SplitOnce(d + ": " + rhs, ": ") == Some((d, rhs))
  {
    Text.SplitOnceFirst(d, ": ", rhs);
  }

  lemma {:induction false} SplitRendered(xs: seq<nat>)
    requires |xs| >= 1
    ensures Text.Split(Text.Join(Rendered(xs), ' '), {' '}) == Rendered(xs)
  {
    if |xs| == 1 {
      NoSpace(xs[0]);
    } else {
      var r := Rendered(xs);
      assert r[1..] == Rendered(xs[1..]);
      NoSpace(xs[0]);
      SplitRendered(xs[1..]);
      Text.SplitAtSeparator(r[0], ' ', Text.Join(r[1..], ' '), {' '});
      assert r == [r[0]] + r[1..];
    }
  }

  lemma NoSpace(n: nat)
    ensures Text.Split(Decimal.Digits(n), {' '}) == [Decimal.Digits(n)]
  {
    Text.SplitNoSeparator(Decimal.Digits(n), {' '});
  }

  lemma {:induction false} ParseRendered(xs: seq<nat>)
    ensures Text.ParseNats(Rendered(xs)) == Some(xs)
  {
    if xs != [] {
      var r := Rendered(xs);
      assert r[1..] == Rendered(xs[1..]);
      ParseRendered(xs[1..]);
      Text.ParseNatDigits(xs[0]);
      assert Text.ParseNats(r) == Some([xs[0]] + xs[1..]);
      assert [xs[0]] + xs[1..] == xs;
    }
  }

  /** 190 = 10 * 19. */
  lemma ExampleResolve190()
    ensures Resolve(190, Reverse([10, 19]))
  {
    SearchExample190(Concat);
  }

  lemma SearchExample190(cat: (nat, nat) -> nat)
    ensures Search(cat, 190, Reverse([10, 19]))
  {
    SearchIff(cat, 190, [10, 19]);
    assert Eval(cat, [10, 19], [Mul]) == 190;
  }

  /** 3267 = 81 + 40 * 27, evaluated left to right. */
  lemma ExampleResolve3267()
    ensures Resolve(3267, Reverse([81, 40, 27]))
  {
    SearchExample3267(Concat);
  }

  lemma SearchExample3267(cat: (nat, nat) -> nat)
    ensures Search(cat, 3267, Reverse([81, 40, 27]))
  {
    SearchIff(cat, 3267, [81, 40, 27]);
    assert Combined(cat, [81, 40, 27], Add) == [121, 27];
    assert Eval(cat, [121, 27], [Mul]) == 3267;
    assert Eval(cat, [81, 40, 27], [Add, Mul]) == 3267;
  }

  /** 292 = 11 + 6 * 16 + 20, evaluated left to right. */
  lemma ExampleResolve292()
    ensures Resolve(292, Reverse([11, 6, 16, 20]))
  {
    SearchExample292(Concat);
  }

  lemma SearchExample292(cat: (nat, nat) -> nat)
    ensures Search(cat, 292, Reverse([11, 6, 16, 20]))
  {
    SearchIff(cat, 292, [11, 6, 16, 20]);
    assert Combined(cat, [11, 6, 16, 20], Add) == [17, 16, 20];
    assert Combined(cat, [17, 16, 20], Mul) == [272, 20];
    assert Eval(cat, [272, 20], [Add]) == 292;
    assert Eval(cat, [17, 16, 20], [Mul, Add]) == 292;
    assert Eval(cat, [11, 6, 16, 20], [Add, Mul, Add]) == 292;
  }

  /** The three sample lines each contribute their target. */
  lemma ExampleParseLine()
    ensures ParseLine("190: 10 19") == Some(190)
    ensures ParseLine("3267: 81 40 27") == Some(3267)
    ensures ParseLine("292: 11 6 16 20") == Some(292)
  {
    ExampleResolve190();
    ExampleResolve3267();
    ExampleResolve292();
    ParseFormat(190, [10, 19]);
    ParseFormat(3267, [81, 40, 27]);
    ParseFormat(292, [11, 6, 16, 20]);
    ExampleFormat();
  }

  lemma ExampleFormat()
    ensures Format(190, [10, 19]) == "190: 10 19"
    ensures Format(3267, [81, 40, 27]) == "3267: 81 40 27"
    ensures Format(292, [11, 6, 16, 20]) == "292: 11 6 16 20"
  {
    ExampleFormat190();
    ExampleFormat3267();
    ExampleFormat292();
  }

  lemma ExampleFormat190()
    ensures Format(190, [10, 19]) == "190: 10 19"
  {
    assert Decimal.Digits(190) == "190";
    assert Decimal.Digits(10) == "10" && Decimal.Digits(19) == "19";
    assert Rendered([10, 19]) == ["10", "19"];
    assert Text.Join(["10", "19"], ' ') == "10 19" by {
      assert ["10", "19"][1..] == ["19"];
    }
  }

  lemma ExampleFormat3267()
    ensures Format(3267, [81, 40, 27]) == "3267: 81 40 27"
  {
    ExampleDigits3267();
    ExampleRendered3267();
    ExampleJoin3267();
  }

  lemma ExampleDigits3267()
    ensures Decimal.Digits(3267) == "3267"
  {
    assert Decimal.Digits(32) == "32";
  }

  lemma ExampleJoin3267()
    ensures Text.Join(["81", "40", "27"], ' ') == "81 40 27"
  {
    assert ["81", "40", "27"][1..] == ["40", "27"] && ["40", "27"][1..] == ["27"];
    assert Text.Join(["40", "27"], ' ') == "40 27";
  }

  lemma ExampleRendered3267()
    ensures Rendered([81, 40, 27]) == ["81", "40", "27"]
  {
    assert Decimal.Digits(81) == "81" && Decimal.Digits(40) == "40" && Decimal.Digits(27) == "27";
  }

  lemma ExampleFormat292()
    ensures Format(292, [11, 6, 16, 20]) == "292: 11 6 16 20"
  {
    assert Decimal.Digits(292) == "292";
    ExampleRendered292();
    ExampleJoin292();
  }

  lemma ExampleRendered292()
    ensures Rendered([11, 6, 16, 20]) == ["11", "6", "16", "20"]
  {
    assert Decimal.Digits(11) == "11" && Decimal.Digits(6) == "6";
    assert Decimal.Digits(16) == "16" && Decimal.Digits(20) == "20";
  }

  lemma ExampleJoin292()
    ensures Text.Join(["11", "6", "16", "20"], ' ') == "11 6 16 20"
  {
    var ps := ["11", "6", "16", "20"];
    assert ps[1..] == ["6", "16", "20"] && ps[1..][1..] == ["16", "20"] && ps[1..][1..][1..] == ["20"];
    assert Text.Join(["16", "20"], ' ') == "16 20";
    assert Text.Join(["6", "16", "20"], ' ') == "6 16 20";
  }
}
