/** Day 3: scanning corrupted memory for `mul(a,b)` calls, optionally switched by `do()`/`don't()`. */
module Day3 {

  import opened Wrappers
  import Decimal
  import Text

  const MulOpen: string := "mul("
  const Do: string := "do()"
  const Dont: string := "don't()"
  const I32Max: nat := 0x7fff_ffff

  /** The end of the run of digits starting at from. */
  function DigitRun(s: string, from: nat): (end: nat)
    requires from <= |s|
    ensures from <= end <= |s|
    ensures Decimal.AllDigits(s[from..end])
    ensures end == |s| || !Decimal.IsDigit(s[end])
    decreases |s| - from
  {
    if from < |s| && Decimal.IsDigit(s[from]) then
      var end := DigitRun(s, from + 1);
      assert s[from..end] == [s[from]] + s[from + 1..end];
      end
    else from
  }

  /** `work_buf.parse::<i32>()` on a buffer that holds only digits: empty or too large fails. */
  function ParseI32(digits: string): (r: Option<int>)
    requires Decimal.AllDigits(digits)
    ensures r.Some? <==> digits != [] && Decimal.Value(digits) <= I32Max
    ensures r.Some? ==> r.value == Decimal.Value(digits)
  {
    if digits != [] && Decimal.Value(digits) <= I32Max then Some(Decimal.Value(digits)) else None
  }

  /** What `parse_mul` computes on the text after a `mul(`: a number, a comma, a number, a
      closing parenthesis; the product of the numbers, or None. */
  function Mul(buf: string): (r: Option<int>)
    ensures buf == [] || !Decimal.IsDigit(buf[0]) ==> r.None?
  {
    var i := DigitRun(buf, 0);
    match ParseI32(buf[..i])
    case None => None
    case Some(a) =>
      if i == |buf| || buf[i] != ',' then None
      else
        var j := DigitRun(buf, i + 1);
        match ParseI32(buf[i + 1..j])
        case None => None
        case Some(b) => if j == |buf| || buf[j] != ')' then None else Some(a * b)
  }

  /** A well-formed call: two non-empty digit strings whose values fit an `i32`. */
  predicate Operands(a: string, b: string) {
    a != [] && b != [] && Decimal.AllDigits(a) && Decimal.AllDigits(b)
    && Decimal.Value(a) <= I32Max && Decimal.Value(b) <= I32Max
  }

  /** Text of the form `a,b)` followed by anything yields the product. */
  lemma MulFormat(a: string, b: string, rest: string)
    requires Operands(a, b)
    ensures Mul(a + [','] + b + [')'] + rest) == Some(Decimal.Value(a) * Decimal.Value(b))
  {
    var buf := a + [','] + b + [')'] + rest;
    var i, j := |a|, |a| + 1 + |b|;
    RunEnds(buf, 0, a);
    assert buf[..i] == a;
    RunEnds(buf, i + 1, b);
    assert buf[i + 1..j] == b;
    MulAccepts(buf, i, j, Decimal.Value(a), Decimal.Value(b));
  }

  /** The two checkpoints of `parse_mul` passed: the product is returned. */
  lemma MulAccepts(buf: string, i: nat, j: nat, x: int, y: int)
    requires i == DigitRun(buf, 0) && ParseI32(buf[..i]) == Some(x) && i < |buf| && buf[i] == ','
    requires j == DigitRun(buf, i + 1) && ParseI32(buf[i + 1..j]) == Some(y) && j < |buf| && buf[j] == ')'
    ensures Mul(buf) == Some(x * y)
  {
  }

  /** A digit string followed by a non-digit is exactly one digit run. */
  lemma RunEnds(buf: string, from: nat, d: string)
    requires Decimal.AllDigits(d) && from + |d| < |buf| && buf[from..from + |d|] == d
    requires !Decimal.IsDigit(buf[from + |d|])
    ensures DigitRun(buf, from) == from + |d|
    decreases |d|
  {
    if d != [] {
      assert buf[from] == d[0];
      assert buf[from + 1..from + 1 + |d[1..]|] == d[1..];
      RunEnds(buf, from + 1, d[1..]);
    }
  }

  /** Conversely, every accepted text has that form. */
  lemma MulShape(buf: string)
    requires Mul(buf).Some?
    ensures exists a, b, rest ::
              && Operands(a, b) && buf == a + [','] + b + [')'] + rest
              && Mul(buf).value == Decimal.Value(a) * Decimal.Value(b)
  {
    var i := DigitRun(buf, 0);
    var j := DigitRun(buf, i + 1);
    var a, b, rest := buf[..i], buf[i + 1..j], buf[j + 1..];
    assert buf == a + [','] + b + [')'] + rest;
    assert Operands(a, b);
  }

  /** `parse_mul`: read digits, a comma, digits, and peek for `)`. */
  method ParseMul(buf: string) returns (r: Option<int>)
    ensures r == Mul(buf)
  {
    var pos := 0;
    var work: string := [];
    while pos < |buf| && Decimal.IsDigit(buf[pos])
      invariant pos <= |buf| && work == buf[..pos]
      invariant DigitRun(buf, pos) == DigitRun(buf, 0)
    {
      work := work + [buf[pos]];
      pos := pos + 1;
    }
    var v1 := ParseI32(work);
    if v1.None? {
      return None;
    }
    if pos < |buf| && buf[pos] == ',' {
      pos := pos + 1;
    } else {
      return None;
    }
    var start := pos;
    work := [];
    while pos < |buf| && Decimal.IsDigit(buf[pos])
      invariant start <= pos <= |buf| && work == buf[start..pos]
      invariant DigitRun(buf, pos) == DigitRun(buf, start)
    {
      work := work + [buf[pos]];
      pos := pos + 1;
    }
    var v2 := ParseI32(work);
    if v2.None? {
      return None;
    }
    if !(pos < |buf| && buf[pos] == ')') {
      return None;
    }
    return Some(v1.value * v2.value);
  }

  /** Rust's `ends_with`: the last |pat| characters of w spell pat. */
  predicate EndsWith(w: string, pat: string) {
    |pat| <= |w| && forall k :: 0 <= k < |pat| ==> w[|w| - |pat| + k] == pat[k]
  }

  /** pat occurs in s ending just before position e. */
  predicate EndsAt(s: string, pat: string, e: nat) {
    |pat| <= e <= |s| && forall k :: 0 <= k < |pat| ==> s[e - |pat| + k] == pat[k]
  }

  /** The value a `mul(` starting at j contributes: its product, or 0 when malformed. */
  function StartTerm(s: string, j: nat): int {
    if EndsAt(s, MulOpen, j + |MulOpen|) then Mul(s[j + |MulOpen|..]).UnwrapOr(0) else 0
  }

  /** Reference definition: the contributions of every `mul(` starting at or after from. */
  function Scan(s: string, from: nat): int
    decreases |s| - from
  {
    if from >= |s| then 0 else StartTerm(s, from) + Scan(s, from + 1)
  }

  /** `match_indices("mul(")`: the starts of the occurrences, found left to right, each search
      resuming after the previous match. */
  function MatchIndices(s: string, from: nat): (r: seq<nat>)
    ensures forall k :: 0 <= k < |r| ==> from <= r[k] && r[k] + |MulOpen| <= |s|
    decreases |s| - from
  {
    if from + |MulOpen| > |s| then []
    else if EndsAt(s, MulOpen, from + |MulOpen|) then [from] + MatchIndices(s, from + |MulOpen|)
    else MatchIndices(s, from + 1)
  }

  /** Two occurrences of `mul(` never overlap, since `m` occurs in it only at the front. */
  lemma NoOverlap(s: string, i: nat, j: nat)
    requires EndsAt(s, MulOpen, i + |MulOpen|) && i < j < i + |MulOpen|
    ensures !EndsAt(s, MulOpen, j + |MulOpen|)
  {
    assert s[j] == MulOpen[j - i];
    var first := MulOpen[0];
  }

  /** The match indices are exactly the starts of the occurrences of `mul(`. */
  lemma {:induction false} MatchIndicesExact(s: string, from: nat, j: nat)
    ensures j in MatchIndices(s, from) <==> from <= j && EndsAt(s, MulOpen, j + |MulOpen|)
    decreases |s| - from
  {
    if from + |MulOpen| <= |s| {
      if EndsAt(s, MulOpen, from + |MulOpen|) {
        MatchIndicesExact(s, from + |MulOpen|, j);
        if from < j < from + |MulOpen| {
          NoOverlap(s, from, j);
        }
      } else {
        MatchIndicesExact(s, from + 1, j);
      }
    }
  }

  /** `map(|r| r.unwrap_or(0)).sum()` over the candidates. */
  function SumMuls(s: string, starts: seq<nat>): int
    requires forall k :: 0 <= k < |starts| ==> starts[k] + |MulOpen| <= |s|
  {
    if starts == [] then 0 else Mul(s[starts[0] + |MulOpen|..]).UnwrapOr(0) + SumMuls(s, starts[1..])
  }

  /** `find_products`: the sum over every candidate found by `match_indices("mul(")`. */
  function FindProducts(s: string): (total: int)
    ensures total == Scan(s, 0)
  {
    MatchScan(s, 0);
    SumMuls(s, MatchIndices(s, 0))
  }

  lemma {:induction false} ScanSkip(s: string, from: nat, stop: nat)
    requires from <= stop
    requires forall j :: from <= j < stop ==> StartTerm(s, j) == 0
    ensures Scan(s, from) == Scan(s, stop)
    decreases stop - from
  {
    if from < stop {
      ScanSkip(s, from + 1, stop);
    }
  }

  /** No `mul(` fits in the last three characters. */
  lemma {:induction false} ScanTail(s: string, from: nat)
    requires from + |MulOpen| > |s|
    ensures Scan(s, from) == 0
    decreases |s| - from
  {
    if from < |s| {
      ScanTail(s, from + 1);
    }
  }

  /** Summing over the match indices from `from` on is the scan from `from` on. */
  lemma {:induction false} MatchScan(s: string, from: nat)
    ensures SumMuls(s, MatchIndices(s, from)) == Scan(s, from)
    decreases |s| - from
  {
    if from + |MulOpen| > |s| {
      ScanTail(s, from);
    } else if EndsAt(s, MulOpen, from + |MulOpen|) {
      MatchScan(s, from + |MulOpen|);
      ScanFound(s, from);
      var rest := MatchIndices(s, from + |MulOpen|);
      assert MatchIndices(s, from) == [from] + rest;
      assert ([from] + rest)[1..] == rest;
    } else {
      MatchScan(s, from + 1);
    }
  }

  /** After a `mul(` at from, the scan resumes past it. */
  lemma ScanFound(s: string, from: nat)
    requires EndsAt(s, MulOpen, from + |MulOpen|)
    ensures Scan(s, from) == StartTerm(s, from) + Scan(s, from + |MulOpen|)
  {
    forall j | from + 1 <= j < from + |MulOpen| ensures StartTerm(s, j) == 0 {
      NoOverlap(s, from, j);
    }
    ScanSkip(s, from + 1, from + |MulOpen|);
  }

  predicate IsKeyword(pat: string) {
    pat == MulOpen || pat == Do || pat == Dont
  }

  /** The state of the `processing` switch after the first e characters. */
  function Enabled(s: string, e: nat): bool
    requires e <= |s|
  {
    if e == 0 then true
    else if EndsAt(s, Do, e) then true
    else if EndsAt(s, Dont, e) then false
    else Enabled(s, e - 1)
  }

  /** What the e-th character adds to the total: a product, when it completes an enabled `mul(`. */
  function Gain(s: string, e: nat): int
    requires 1 <= e <= |s|
  {
    if !EndsAt(s, Do, e) && !EndsAt(s, Dont, e) && EndsAt(s, MulOpen, e) && Enabled(s, e - 1)
    then Mul(s[e..]).UnwrapOr(0)
    else 0
  }

  /** The conditional total over the first e characters. */
  function Conditional(s: string, e: nat): int
    requires e <= |s|
  {
    if e == 0 then 0 else Conditional(s, e - 1) + Gain(s, e)
  }

  function Sum(xs: seq<int>): int {
    if xs == [] then 0 else Sum(xs[..|xs| - 1]) + xs[|xs| - 1]
  }

  /** `find_products_with_conditionals`: one pass with a switch and a buffer of unmatched text. */
  method FindProductsWithConditionals(buffer: string) returns (total: int)
    ensures total == Conditional(buffer, |buffer|)
  {
    var processing := true;
    var work: string := [];
    var result: seq<int> := [];
    ghost var cleared := 0;
    for i := 0 to |buffer|
      invariant Scanned(buffer, i, cleared, work, processing, Sum(result))
    {
      WorkEnds(buffer, i, cleared, work, Do);
      WorkEnds(buffer, i, cleared, work, Dont);
      WorkEnds(buffer, i, cleared, work, MulOpen);
      ghost var total, read := Sum(result), work;
      work := work + [buffer[i]];
      if EndsWith(work, Do) {
        AfterDo(buffer, i, cleared, read, processing, total);
        processing := true;
        work := [];
        cleared := i + 1;
      } else if EndsWith(work, Dont) {
        AfterDont(buffer, i, cleared, read, processing, total);
        processing := false;
        work := [];
        cleared := i + 1;
      } else if EndsWith(work, MulOpen) && processing {
        work := [];
        cleared := i + 1;
        var product := ParseMul(buffer[i + 1..]);
        SumAppend(result, product.UnwrapOr(0));
        result := result + [product.UnwrapOr(0)];
        AfterMul(buffer, i, processing, total, product.UnwrapOr(0));
      } else {
        AfterOther(buffer, i, cleared, read, processing, total);
      }
    }
    total := Sum(result);
  }

  /** The loop's state after i characters: the buffer holds the text since the last clearing,
      which came right after a keyword, and the switch and the total match the definitions. */
  predicate Scanned(s: string, i: nat, cleared: nat, work: string, processing: bool, total: int) {
    cleared <= i <= |s| && work == s[cleared..i]
    && (cleared == 0 || Cleared(s, cleared))
    && processing == Enabled(s, i) && total == Conditional(s, i)
  }

  lemma SumAppend(xs: seq<int>, x: int)
    ensures Sum(xs + [x]) == Sum(xs) + x
  {
    assert (xs + [x])[..|xs|] == xs;
  }

  /** Appending the next character, the buffer ends with a keyword iff the text read does. */
  lemma WorkEnds(s: string, i: nat, cleared: nat, work: string, pat: string)
    requires IsKeyword(pat)
    requires i < |s| && cleared <= i && work == s[cleared..i] && (cleared == 0 || Cleared(s, cleared))
    ensures EndsWith(work + [s[i]], pat) <==> EndsAt(s, pat, i + 1)
  {
    assert work + [s[i]] == s[cleared..i + 1];
    BufferEnds(s, cleared, i + 1, pat);
  }

  /** `do()` and `don't()` never end at the same place: they differ three characters back. */
  lemma ToggleExclusive(s: string, e: nat)
    ensures !(EndsAt(s, Do, e) && EndsAt(s, Dont, e))
  {
    var o, t := Do[1], Dont[4];
  }

  lemma AfterDo(s: string, i: nat, cleared: nat, work: string, processing: bool, total: int)
    requires i < |s| && Scanned(s, i, cleared, work, processing, total)
    requires EndsAt(s, Do, i + 1)
    ensures Scanned(s, i + 1, i + 1, [], true, total)
  {
    ToggleExclusive(s, i + 1);
  }

  lemma AfterDont(s: string, i: nat, cleared: nat, work: string, processing: bool, total: int)
    requires i < |s| && Scanned(s, i, cleared, work, processing, total)
    requires EndsAt(s, Dont, i + 1)
    ensures Scanned(s, i + 1, i + 1, [], false, total)
  {
    ToggleExclusive(s, i + 1);
  }

  lemma AfterMul(s: string, i: nat, processing: bool, total: int, product: int)
    requires i < |s| && processing == Enabled(s, i) && total == Conditional(s, i) && processing
    requires !EndsAt(s, Do, i + 1) && !EndsAt(s, Dont, i + 1) && EndsAt(s, MulOpen, i + 1)
    requires product == Mul(s[i + 1..]).UnwrapOr(0)
    ensures Scanned(s, i + 1, i + 1, [], processing, total + product)
  {
  }

  lemma AfterOther(s: string, i: nat, cleared: nat, work: string, processing: bool, total: int)
    requires i < |s| && Scanned(s, i, cleared, work, processing, total)
    requires !EndsAt(s, Do, i + 1) && !EndsAt(s, Dont, i + 1) && !(EndsAt(s, MulOpen, i + 1) && processing)
    ensures Scanned(s, i + 1, cleared, work + [s[i]], processing, total)
  {
    assert work + [s[i]] == s[cleared..i + 1];
  }

  /** The buffer is cleared only right after a keyword. */
  predicate Cleared(s: string, c: nat) {
    EndsAt(s, MulOpen, c) || EndsAt(s, Do, c) || EndsAt(s, Dont, c)
  }

  /** The buffer, which holds the text since the last clearing, ends with a keyword exactly
      when the whole text read so far does: no keyword straddles a clearing point. */
  lemma BufferEnds(s: string, c: nat, e: nat, pat: string)
    requires IsKeyword(pat) && c < e <= |s|
    requires c == 0 || Cleared(s, c)
    ensures EndsWith(s[c..e], pat) <==> EndsAt(s, pat, e)
  {
    var w := s[c..e];
    if e - |pat| < c && c > 0 {
      var q := if EndsAt(s, MulOpen, c) then MulOpen else if EndsAt(s, Do, c) then Do else Dont;
      NoStraddle(s, c, e, pat, q);
    }
  }

  /** A keyword ending at c is never the middle of a keyword ending after c. */
  lemma NoStraddle(s: string, c: nat, e: nat, p: string, q: string)
    requires IsKeyword(p) && IsKeyword(q) && EndsAt(s, q, c) && c < e
    requires e - |p| < c
    ensures !EndsAt(s, p, e)
  {
    var k := |p| - (e - c) - 1;
    assert s[c - 1] == q[|q| - 1] && s[c - 2] == q[|q| - 2];
    KeywordInside(p);
    KeywordLast(q);
    var here, before := p[k], if k >= 1 then p[k - 1] else p[k];
  }

  /** Inside a keyword a parenthesis is always an opening one, not preceded by `l`. */
  lemma KeywordInside(p: string)
    requires IsKeyword(p)
    ensures forall k :: 0 <= k < |p| - 1 && (p[k] == '(' || p[k] == ')') ==> p[k] == '(' && k >= 1 && p[k - 1] != 'l'
  {
  }

  /** Every keyword ends in a parenthesis, and only `mul(` ends in `l(`. */
  lemma KeywordLast(q: string)
    requires IsKeyword(q)
    ensures q[|q| - 1] == '(' || q[|q| - 1] == ')'
    ensures q[|q| - 1] == '(' ==> q[|q| - 2] == 'l'
  {
  }

  /** Every `don't()` among the first e characters is followed, within them, by a `do()`. */
  predicate Reenabled(s: string, e: nat) {
    forall off :: 0 < off <= e && EndsAt(s, Dont, off) ==> exists on :: off < on <= e && EndsAt(s, Do, on)
  }

  /** The switch is on exactly when every `don't()` read so far was followed by a `do()`. */
  lemma {:induction false} EnabledIff(s: string, e: nat)
    requires e <= |s|
    ensures Enabled(s, e) <==> Reenabled(s, e)
  {
    if e > 0 {
      EnabledIff(s, e - 1);
      ToggleExclusive(s, e);
      if EndsAt(s, Do, e) {
        forall off | 0 < off <= e && EndsAt(s, Dont, off) ensures exists on :: off < on <= e && EndsAt(s, Do, on) {
          assert off < e && EndsAt(s, Do, e);
        }
      } else if EndsAt(s, Dont, e) {
        assert 0 < e <= e && EndsAt(s, Dont, e);
      } else {
        ReenabledStep(s, e);
      }
    }
  }

  /** A character that completes neither toggle leaves the condition as it was. */
  lemma ReenabledStep(s: string, e: nat)
    requires 0 < e <= |s| && !EndsAt(s, Do, e) && !EndsAt(s, Dont, e)
    ensures Reenabled(s, e) <==> Reenabled(s, e - 1)
  {
    if Reenabled(s, e - 1) {
      forall off | 0 < off <= e && EndsAt(s, Dont, off) ensures exists on :: off < on <= e && EndsAt(s, Do, on) {
        var on :| off < on <= e - 1 && EndsAt(s, Do, on);
      }
    }
    if Reenabled(s, e) {
      forall off | 0 < off <= e - 1 && EndsAt(s, Dont, off) ensures exists on :: off < on <= e - 1 && EndsAt(s, Do, on) {
        var on :| off < on <= e && EndsAt(s, Do, on);
        assert on != e;
      }
    }
  }

  predicate NoToggles(s: string) {
    forall e: nat :: e <= |s| ==> !EndsAt(s, Do, e) && !EndsAt(s, Dont, e)
  }

  /** Without any `do()` or `don't()`, the conditional scan finds what `find_products` finds. */
  lemma ConditionalsWithoutToggles(s: string)
    requires NoToggles(s)
    ensures Conditional(s, |s|) == FindProducts(s)
  {
    ConditionalScan(s, |s|);
    ScanTail(s, Lag(|s|));
  }

  lemma {:induction false} AlwaysEnabled(s: string, e: nat)
    requires e <= |s| && NoToggles(s)
    ensures Enabled(s, e)
  {
    if e > 0 {
      AlwaysEnabled(s, e - 1);
      assert !EndsAt(s, Do, e) && !EndsAt(s, Dont, e);
    }
  }

  /** The first start not yet covered after e characters: a `mul(` must end by e to count. */
  function Lag(e: nat): nat {
    if e >= |MulOpen| - 1 then e - (|MulOpen| - 1) else 0
  }

  lemma {:induction false} ConditionalScan(s: string, e: nat)
    requires e <= |s| && NoToggles(s)
    ensures Conditional(s, e) + Scan(s, Lag(e)) == Scan(s, 0)
  {
    if e > 0 {
      ConditionalScan(s, e - 1);
      PlainStep(s, e);
    }
  }

  lemma PlainStep(s: string, e: nat)
    requires 1 <= e <= |s| && NoToggles(s)
    ensures Conditional(s, e) + Scan(s, Lag(e)) == Conditional(s, e - 1) + Scan(s, Lag(e - 1))
  {
    AlwaysEnabled(s, e - 1);
    assert !EndsAt(s, Do, e) && !EndsAt(s, Dont, e);
    PlainGain(s, e);
  }

  /** With the switch on and no toggle ending at e, the gain at e is the term of the `mul(`
      starting four characters earlier. */
  lemma PlainGain(s: string, e: nat)
    requires 1 <= e <= |s| && Enabled(s, e - 1) && !EndsAt(s, Do, e) && !EndsAt(s, Dont, e)
    ensures Gain(s, e) + Scan(s, Lag(e)) == Scan(s, Lag(e - 1))
  {
    if e >= |MulOpen| {
      var j := e - |MulOpen|;
      assert Lag(e - 1) == j && Lag(e) == j + 1;
      assert Gain(s, e) == StartTerm(s, j);
    } else {
      assert !EndsAt(s, MulOpen, e);
    }
  }

  /** The first call of the sample: `mul(2,4)` is followed by more text that is ignored. */
  lemma ExampleMul()
    ensures Mul("2,4)%&mul[3,7]") == Some(8)
  {
    MulFormat("2", "4", "%&mul[3,7]");
    assert "2" + [','] + "4" + [')'] + "%&mul[3,7]" == "2,4)%&mul[3,7]";
  }

  /** `mul(32,64]` is not closed by a parenthesis. */
  lemma ExampleUnclosed()
    ensures Mul("32,64]then(") == None
  {
    var t := "32,64]then(";
    RunEnds(t, 0, "32");
    assert t[..2] == "32" && t[2] == ',';
    RunEnds(t, 3, "64");
  }

  /** `mul[3,7]` never reaches `parse_mul`, and text after `mul(` must start with a digit. */
  lemma ExampleNoDigit()
    ensures Mul("[3,7]!@^do_not") == None
  {
  }
}
