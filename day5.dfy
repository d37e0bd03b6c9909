/** Day 5: page ordering rules, the check that an update follows them, and the scores of the
    correctly and incorrectly ordered updates. */
module Day5 {

  import opened Wrappers
  import Text

  datatype Ordering = Less | Equal | Greater

  /** `ordering_rules`: for each page, the set of pages that must come after it. */
  type Rules = map<int, set<int>>

  /** `PrintRules`: never changed once `init` has built it. */
  datatype PrintRules = PrintRules(orderingRules: Rules, pages: seq<string>)

  /** `page_cmp`: the first applicable case decides — a page without rules is Greater, then a
      partner without rules is Less, then a's rule for b, then b's rule for a. */
  function PageCmp(rules: Rules, a: int, b: int): (o: Ordering)
    ensures o == Less <==> a in rules && (b !in rules || b in rules[a])
    ensures o == Greater <==> a !in rules || (b in rules && b !in rules[a] && a in rules[b])
  {
    if a !in rules then Greater
    else if b !in rules then Less
    else if b in rules[a] then Less
    else if a in rules[b] then Greater
    else Equal
  }

  /** Between two pages that both have rules, and are not caught in a rule cycle, Less one way
      is Greater the other way. */
  lemma PageCmpAntisymmetric(rules: Rules, a: int, b: int)
    requires a in rules && b in rules && !(b in rules[a] && a in rules[b])
    ensures PageCmp(rules, a, b) == Less <==> PageCmp(rules, b, a) == Greater
    ensures PageCmp(rules, a, b) == Equal <==> PageCmp(rules, b, a) == Equal
  {
  }

  /** `page_cmp` is no total order: two pages without rules are each Greater than the other. */
  lemma PageCmpNotAntisymmetric(rules: Rules, a: int, b: int)
    requires a !in rules && b !in rules
    ensures PageCmp(rules, a, b) == Greater && PageCmp(rules, b, a) == Greater
  {
  }

  const I32Min: int := -0x8000_0000
  const I32Max: int := 0x7fff_ffff

  /** `s.parse::<i32>()`: a signed decimal that fits 32 bits. */
  function ParseI32(s: string): (r: Option<int>)
    ensures r.Some? <==> Text.ParseInt(s).Some? && I32Min <= Text.ParseInt(s).value <= I32Max
    ensures r.Some? ==> r == Text.ParseInt(s)
  {
    match Text.ParseInt(s)
    case Some(v) => if I32Min <= v <= I32Max then Some(v) else None
    case None => None
  }

  /** `s.parse::<i32>().unwrap_or(0)`: anything that is not an i32 reads as page 0. */
  function ParsePage(s: string): (v: int)
    ensures I32Min <= v <= I32Max
    ensures ParseI32(s).None? ==> v == 0
  {
    ParseI32(s).UnwrapOr(0)
  }

  lemma ExampleParsePage()
    ensures ParsePage("47") == 47 && ParsePage("") == 0 && ParsePage("x1") == 0
  {
    Text.ParseDigits("47");
  }

  /** The page numbers of an update line: split on `,`, everything parsed as a page. */
  function PageNumbers(l: string): (nums: seq<int>)
    ensures |nums| >= 1
  {
    var parts := Text.Split(l, {','});
    seq(|parts|, i requires 0 <= i < |parts| => ParsePage(parts[i]))
  }

  /** i32 page numbers written with commas between them are read back. */
  lemma PageNumbersRendered(xs: seq<int>)
    requires |xs| >= 1 && forall i :: 0 <= i < |xs| ==> I32Min <= xs[i] <= I32Max
    ensures PageNumbers(Text.Join(Text.RenderAll(xs), ',')) == xs
  {
    var parts := Text.RenderAll(xs);
    Text.RenderedAvoid(xs, {','});
    Text.SplitJoin(parts, ',', {','});
    forall i | 0 <= i < |xs| ensures ParsePage(parts[i]) == xs[i] {
      Text.ParseRender(xs[i]);
    }
  }

  /** `is_sorted_by(|a, b| page_cmp(a, b).is_lt())`. */
  predicate SortedBy(rules: Rules, nums: seq<int>) {
    |nums| < 2 || (PageCmp(rules, nums[0], nums[1]) == Less && SortedBy(rules, nums[1..]))
  }

  /** Sorted means every adjacent pair compares Less. */
  lemma {:induction false} SortedByIff(rules: Rules, nums: seq<int>)
    ensures SortedBy(rules, nums) <==> forall i :: 0 <= i < |nums| - 1 ==> PageCmp(rules, nums[i], nums[i + 1]) == Less
  {
    if |nums| >= 2 {
      SortedByIff(rules, nums[1..]);
      assert forall i :: 1 <= i < |nums| ==> nums[1..][i - 1] == nums[i];
    }
  }

  /** `check_ordering`. */
  predicate CheckOrdering(rules: Rules, l: string) {
    SortedBy(rules, PageNumbers(l))
  }

  /** `iter().filter(..).collect()`: the elements whose test comes out as `want`, in their
      original order. */
  function Filter<T>(test: T -> bool, want: bool, xs: seq<T>): (r: seq<T>)
    ensures forall i :: 0 <= i < |r| ==> test(r[i]) == want
    ensures |r| <= |xs|
  {
    if xs == [] then []
    else (if test(xs[0]) == want then [xs[0]] else []) + Filter(test, want, xs[1..])
  }

  /** The two filters split the elements between them: each goes to exactly one side. */
  lemma {:induction false} FilterPartition<T>(test: T -> bool, xs: seq<T>)
    ensures multiset(Filter(test, true, xs)) + multiset(Filter(test, false, xs)) == multiset(xs)
  {
    if xs != [] {
      var x, rest := xs[0], xs[1..];
      FilterPartition(test, rest);
      assert xs == [x] + rest;
      if test(x) {
        assert Filter(test, true, xs) == [x] + Filter(test, true, rest);
        assert Filter(test, false, xs) == Filter(test, false, rest);
      } else {
        assert Filter(test, true, xs) == Filter(test, true, rest);
        assert Filter(test, false, xs) == [x] + Filter(test, false, rest);
      }
    }
  }

  /** Filtering distributes over concatenation, so the kept elements stay in their order. */
  lemma {:induction false} FilterAppend<T>(test: T -> bool, want: bool, a: seq<T>, b: seq<T>)
    ensures Filter(test, want, a + b) == Filter(test, want, a) + Filter(test, want, b)
  {
    if a == [] {
      assert a + b == b;
    } else {
      assert (a + b)[1..] == a[1..] + b;
      FilterAppend(test, want, a[1..], b);
    }
  }

  /** Elements that all pass are kept whole, and elements that all fail are all dropped. */
  lemma {:induction false} FilterAll<T>(test: T -> bool, want: bool, xs: seq<T>)
    ensures (forall i :: 0 <= i < |xs| ==> test(xs[i]) == want) ==> Filter(test, want, xs) == xs
    ensures (forall i :: 0 <= i < |xs| ==> test(xs[i]) != want) ==> Filter(test, want, xs) == []
  {
    if xs != [] {
      FilterAll(test, want, xs[1..]);
      assert xs == [xs[0]] + xs[1..];
    }
  }

  /** `find_correctly_ordered`. */
  function FindCorrectlyOrdered(pr: PrintRules): (r: seq<string>)
    ensures forall i :: 0 <= i < |r| ==> CheckOrdering(pr.orderingRules, r[i])
  {
    Filter(l => CheckOrdering(pr.orderingRules, l), true, pr.pages)
  }

  /** `find_incorrectly_ordered`. */
  function FindIncorrectlyOrdered(pr: PrintRules): (r: seq<string>)
    ensures forall i :: 0 <= i < |r| ==> !CheckOrdering(pr.orderingRules, r[i])
  {
    Filter(l => CheckOrdering(pr.orderingRules, l), false, pr.pages)
  }

  /** Every update is either correctly or incorrectly ordered, never both. */
  lemma OrderedPartition(pr: PrintRules)
    ensures multiset(FindCorrectlyOrdered(pr)) + multiset(FindIncorrectlyOrdered(pr)) == multiset(pr.pages)
  {
    FilterPartition(l => CheckOrdering(pr.orderingRules, l), pr.pages);
  }

  /** `v[v.len().div_euclid(2)]`. */
  function MiddlePage(nums: seq<int>): (m: int)
    requires |nums| >= 1
    ensures m in nums
  {
    nums[|nums| / 2]
  }

  /** `x as u32`: a negative i32 wraps around to 2^32 + x. */
  function AsU32(x: int): (u: nat)
    ensures u < 0x1_0000_0000
    ensures 0 <= x < 0x1_0000_0000 ==> u == x
    ensures I32Min <= x < 0 ==> u == x + 0x1_0000_0000
  {
    x % 0x1_0000_0000
  }

  /** The sum over the lines of their middle page. */
  function MiddleSum(lines: seq<string>): nat {
    if lines == [] then 0 else MiddleSum(lines[..|lines| - 1]) + AsU32(MiddlePage(PageNumbers(lines[|lines| - 1])))
  }

  /** `score_part_1`: the middle pages of the correctly ordered updates. */
  function ScorePart1(pr: PrintRules): nat {
    MiddleSum(FindCorrectlyOrdered(pr))
  }

  /** The sum over the lines of the middle page once the line's pages are sorted. */
  function SortedMiddleSum(rules: Rules, lines: seq<string>): nat {
    if lines == [] then 0
    else SortedMiddleSum(rules, lines[..|lines| - 1]) + AsU32(MiddlePage(SortBy(rules, PageNumbers(lines[|lines| - 1]))))
  }

  /** `score_part_2`: the middle pages of the incorrectly ordered updates after sorting. */
  function ScorePart2(pr: PrintRules): nat {
    SortedMiddleSum(pr.orderingRules, FindIncorrectlyOrdered(pr))
  }

  /** A score is a sum over lines: the score of two batches is the sum of their scores. */
  lemma {:induction false} MiddleSumAppend(a: seq<string>, b: seq<string>)
    ensures MiddleSum(a + b) == MiddleSum(a) + MiddleSum(b)
    decreases |b|
  {
    if b == [] {
      assert a + b == a;
    } else {
      var n := |b| - 1;
      assert (a + b)[..|a + b| - 1] == a + b[..n];
      MiddleSumAppend(a, b[..n]);
    }
  }

  /** `sort_by(page_cmp)`, standing in for Rust's sort: insertion of each page into the sorted
      rest, passing the pages it compares Greater than. */
  function SortBy(rules: Rules, nums: seq<int>): (r: seq<int>)
    ensures multiset(r) == multiset(nums) && |r| == |nums|
  {
    if nums == [] then []
    else
      assert nums == [nums[0]] + nums[1..];
      Insert(rules, nums[0], SortBy(rules, nums[1..]))
  }

  function Insert(rules: Rules, x: int, ys: seq<int>): (r: seq<int>)
    ensures multiset(r) == multiset(ys) + multiset{x} && |r| == |ys| + 1
    ensures r[0] == x || (ys != [] && r[0] == ys[0])
  {
    if ys == [] then [x]
    else if PageCmp(rules, x, ys[0]) == Greater then
      assert ys == [ys[0]] + ys[1..];
      [ys[0]] + Insert(rules, x, ys[1..])
    else [x] + ys
  }

  /** The rules order the pages: of two different pages exactly one comes first, and no page
      comes before itself. */
  predicate Decides(rules: Rules, pages: seq<int>) {
    forall a, b :: a in pages && b in pages ==>
      (PageCmp(rules, a, b) == Less <==> (a != b && PageCmp(rules, b, a) != Less))
  }

  /** When the rules decide every pair of pages of an update (with no page twice), the sorted
      update passes `check_ordering`: part 2 does repair what part 1 rejected. */
  lemma {:induction false} SortByOrders(rules: Rules, nums: seq<int>)
    requires Decides(rules, nums) && Distinct(nums)
    ensures SortedBy(rules, SortBy(rules, nums))
  {
    if nums != [] {
      var rest := nums[1..];
      assert Distinct(rest) by {
        forall i, j | 0 <= i < j < |rest| ensures rest[i] != rest[j] {
          assert rest[i] == nums[i + 1] && rest[j] == nums[j + 1];
        }
      }
      SortByOrders(rules, rest);
      var sorted := SortBy(rules, rest);
      forall j | 0 <= j < |rest| ensures rest[j] != nums[0] {
        assert rest[j] == nums[j + 1];
      }
      assert nums[0] !in multiset(rest);
      forall y | y in sorted ensures y in nums {
        assert y in multiset(sorted);
      }
      InsertOrders(rules, nums[0], sorted, nums);
    }
  }

  predicate Distinct(nums: seq<int>) {
    forall i, j :: 0 <= i < j < |nums| ==> nums[i] != nums[j]
  }

  lemma {:induction false} InsertOrders(rules: Rules, x: int, ys: seq<int>, pages: seq<int>)
    requires Decides(rules, pages) && x in pages && forall y :: y in ys ==> y in pages
    requires SortedBy(rules, ys) && x !in multiset(ys)
    ensures SortedBy(rules, Insert(rules, x, ys))
  {
    if ys != [] {
      var y := ys[0];
      assert y in ys;
      if PageCmp(rules, x, y) == Greater {
        assert PageCmp(rules, y, x) == Less;
        var tail := ys[1..];
        assert x !in multiset(tail) by {
          assert ys == [y] + tail;
        }
        assert SortedBy(rules, tail);
        forall z | z in tail ensures z in pages {
          assert z in ys;
        }
        InsertOrders(rules, x, tail, pages);
        var r := Insert(rules, x, tail);
        assert [y] + r == Insert(rules, x, ys);
        assert ([y] + r)[1..] == r;
      } else {
        assert x != y;
        assert PageCmp(rules, x, y) == Less;
        assert ([x] + ys)[1..] == ys;
      }
    }
  }

  /** `split_once("|")` and two `parse::<i32>().unwrap()`: None where the source panics. */
  function ParseRule(s: string): Option<(int, int)> {
    match Text.SplitOnce(s, "|")
    case None => None
    case Some((a, b)) =>
      match (ParseI32(a), ParseI32(b))
      case (Some(x), Some(y)) => Some((x, y))
      case _ => None
  }

  /** `x|y` written out for two i32 pages is read back as the rule (x, y). */
  lemma ParseRuleFormat(x: int, y: int)
    requires I32Min <= x <= I32Max && I32Min <= y <= I32Max
    ensures ParseRule(Text.Render(x) + "|" + Text.Render(y)) == Some((x, y))
  {
    Text.RenderChars(x);
    Text.SplitOnceFirst(Text.Render(x), "|", Text.Render(y));
    Text.ParseRender(x);
    Text.ParseRender(y);
  }

  /** A line without `|` is no rule: `split_once("|").unwrap()` panics on it. */
  lemma ParseRuleNoBar(s: string)
    requires '|' !in s
    ensures ParseRule(s).None?
  {
  }

  /** Every rule line parsed, or None if one of them makes the source panic. */
  function ParseRules(lines: seq<string>): (r: Option<seq<(int, int)>>)
    ensures r.Some? <==> forall i :: 0 <= i < |lines| ==> ParseRule(lines[i]).Some?
    ensures r.Some? ==> |r.value| == |lines| && forall i :: 0 <= i < |lines| ==> ParseRule(lines[i]) == Some(r.value[i])
  {
    MapAll(ParseRule, lines)
  }

  /** `entry(x).or_insert(HashSet::new()).insert(y)`. */
  function AddRule(m: Rules, e: (int, int)): Rules {
    m[e.0 := (if e.0 in m then m[e.0] else {}) + {e.1}]
  }

  /** The map the rules accumulate into, one rule after the other. */
  function RulesMap(ps: seq<(int, int)>): Rules {
    if ps == [] then map[] else AddRule(RulesMap(ps[..|ps| - 1]), ps[|ps| - 1])
  }

  /** Page x is the first page of some rule. */
  predicate HasFirst(ps: seq<(int, int)>, x: int) {
    exists k :: 0 <= k < |ps| && ps[k].0 == x
  }

  /** (x, y) is one of the rules. */
  predicate HasRule(ps: seq<(int, int)>, x: int, y: int) {
    exists k :: 0 <= k < |ps| && ps[k] == (x, y)
  }

  /** A page has rules exactly when it is the first page of some rule. */
  lemma {:induction false} RulesMapKeys(ps: seq<(int, int)>)
    ensures forall x :: x in RulesMap(ps) <==> HasFirst(ps, x)
  {
    if ps != [] {
      var n := |ps| - 1;
      var front := ps[..n];
      RulesMapKeys(front);
      forall x ensures x in RulesMap(ps) <==> HasFirst(ps, x) {
        if HasFirst(front, x) {
          var k :| 0 <= k < n && front[k].0 == x;
          assert ps[k].0 == x;
        }
        if HasFirst(ps, x) && x != ps[n].0 {
          var k :| 0 <= k < |ps| && ps[k].0 == x;
          assert front[k].0 == x;
        }
      }
    }
  }

  /** The set a page maps to holds exactly the second pages of its rules. */
  lemma {:induction false} RulesMapValues(ps: seq<(int, int)>)
    ensures forall x, y :: x in RulesMap(ps) ==> (y in RulesMap(ps)[x] <==> HasRule(ps, x, y))
  {
    if ps != [] {
      var n := |ps| - 1;
      var front := ps[..n];
      RulesMapValues(front);
      RulesMapKeys(front);
      forall x, y | x in RulesMap(ps) ensures y in RulesMap(ps)[x] <==> HasRule(ps, x, y) {
        if x in RulesMap(front) && y in RulesMap(front)[x] {
          var k :| 0 <= k < n && front[k] == (x, y);
          assert ps[k] == (x, y);
        }
        if HasRule(ps, x, y) && ps[n] != (x, y) {
          var k :| 0 <= k < |ps| && ps[k] == (x, y);
          assert front[k] == (x, y);
          assert HasFirst(front, x);
        }
      }
    }
  }

  /** `init`: accumulate every rule into the map, one after the other; None where a rule line
      makes the source panic. */
  method Init(rules: seq<string>, pagesInput: seq<string>) returns (r: Option<PrintRules>)
    ensures r == match ParseRules(rules) case None => None case Some(ps) => Some(PrintRules(RulesMap(ps), pagesInput))
  {
    var orderingRules: Rules := map[];
    ghost var parsed: seq<(int, int)> := [];
    for i := 0 to |rules|
      invariant ParseRules(rules[..i]) == Some(parsed)
      invariant orderingRules == RulesMap(parsed)
    {
      var e := ParseRule(rules[i]);
      if e.None? {
        ParseRulesFail(rules, i);
        return None;
      }
      InitStep(rules, i, parsed, e.value);
      orderingRules := AddRule(orderingRules, e.value);
      parsed := parsed + [e.value];
    }
    assert rules[..|rules|] == rules;
    r := Some(PrintRules(orderingRules, pagesInput));
  }

  /** One more rule line parsed. */
  lemma ParseRulesStep(lines: seq<string>, i: nat, ps: seq<(int, int)>)
    requires i < |lines| && ParseRules(lines[..i]) == Some(ps) && ParseRule(lines[i]).Some?
    ensures ParseRules(lines[..i + 1]) == Some(ps + [ParseRule(lines[i]).value])
  {
    MapAllStep(ParseRule, lines, i, ps);
  }

  /** One more rule line parsed and accumulated into the map. */
  lemma InitStep(lines: seq<string>, i: nat, ps: seq<(int, int)>, e: (int, int))
    requires i < |lines| && ParseRules(lines[..i]) == Some(ps) && ParseRule(lines[i]) == Some(e)
    ensures ParseRules(lines[..i + 1]) == Some(ps + [e])
    ensures RulesMap(ps + [e]) == AddRule(RulesMap(ps), e)
  {
    ParseRulesStep(lines, i, ps);
    assert (ps + [e])[..|ps|] == ps;
  }

  /** A rule line that does not parse makes the whole parse fail. */
  lemma ParseRulesFail(lines: seq<string>, i: nat)
    requires i < |lines| && ParseRule(lines[i]).None?
    ensures ParseRules(lines).None?
  {
  }

  /** `take_while(|l| l.len() > 0)` on a shared iterator: the lines before the first empty one,
      and the lines after it (the empty line itself is consumed). */
  function SplitAtEmpty(lines: seq<string>): (r: (seq<string>, seq<string>))
    ensures forall i :: 0 <= i < |r.0| ==> r.0[i] != []
    ensures (r.0 == lines && r.1 == []) || r.0 + [[]] + r.1 == lines
  {
    if lines == [] then ([], [])
    else if lines[0] == [] then
      assert [] + [[]] + lines[1..] == lines;
      ([], lines[1..])
    else
      var (a, b) := SplitAtEmpty(lines[1..]);
      assert [lines[0]] + lines[1..] == lines;
      assert [lines[0]] + a + [[]] + b == [lines[0]] + (a + [[]] + b);
      ([lines[0]] + a, b)
  }

  /** `parse_input`: the rule lines and the update lines, separated by the first empty line. */
  function ParseInput(input: string): (seq<string>, seq<string>) {
    SplitAtEmpty(Text.Lines(input))
  }

  /** The split is the only one whose first part has no empty line: the rules end exactly at
      the first empty line. */
  lemma {:induction false} SplitAtEmptyUnique(rules: seq<string>, pages: seq<string>)
    requires forall i :: 0 <= i < |rules| ==> rules[i] != []
    ensures SplitAtEmpty(rules + [[]] + pages) == (rules, pages)
  {
    if rules == [] {
      assert rules + [[]] + pages == [[]] + pages;
    } else {
      assert (rules + [[]] + pages)[1..] == rules[1..] + [[]] + pages;
      SplitAtEmptyUnique(rules[1..], pages);
      assert [rules[0]] + rules[1..] == rules;
    }
  }

  /** An input of rule lines, an empty line and update lines is parsed back into them. */
  lemma ParseInputJoin(rules: seq<string>, pages: seq<string>)
    requires forall i :: 0 <= i < |rules| ==> rules[i] != []
    requires pages != [] && pages[|pages| - 1] != []
    requires Text.Separated(rules + [[]] + pages, {'\n', '\r'})
    ensures ParseInput(Text.Join(rules + [[]] + pages, '\n')) == (rules, pages)
  {
    Text.LinesJoin(rules + [[]] + pages);
    SplitAtEmptyUnique(rules, pages);
  }

  /** The ordering rules of the sample input. */
  const SampleRules: Rules := map[47 := {53, 13, 61, 29}, 97 := {13, 61, 47, 29, 53, 75}, 75 := {29, 53, 47, 61, 13},
                                  61 := {13, 53, 29}, 29 := {13}, 53 := {29, 13}]

  lemma ExamplePageCmp()
    ensures PageCmp(SampleRules, 75, 47) == Less && PageCmp(SampleRules, 47, 75) == Greater
    ensures PageCmp(SampleRules, 13, 29) == Greater && PageCmp(SampleRules, 29, 13) == Less
  {
  }

  /** An update line as the input writes it: the pages with commas between them. */
  function Update(xs: seq<int>): string
    requires |xs| >= 1
  {
    Text.Join(Text.RenderAll(xs), ',')
  }

  /** `check_ordering` of a written update is the sortedness of its pages, and it scores its
      middle page. */
  lemma CheckUpdate(rules: Rules, xs: seq<int>)
    requires |xs| >= 1 && forall i :: 0 <= i < |xs| ==> I32Min <= xs[i] <= I32Max
    ensures CheckOrdering(rules, Update(xs)) == SortedBy(rules, xs)
    ensures PageNumbers(Update(xs)) == xs
  {
    PageNumbersRendered(xs);
  }

  /** The first sample update, `75,47,61,53,29`, is correctly ordered. */
  lemma ExampleOrdered()
    ensures CheckOrdering(SampleRules, Update([75, 47, 61, 53, 29]))
  {
    CheckUpdate(SampleRules, [75, 47, 61, 53, 29]);
    SampleSorted();
  }

  lemma SampleSorted()
    ensures SortedBy(SampleRules, [75, 47, 61, 53, 29])
  {
    assert PageCmp(SampleRules, 75, 47) == Less && PageCmp(SampleRules, 47, 61) == Less;
    assert PageCmp(SampleRules, 61, 53) == Less && PageCmp(SampleRules, 53, 29) == Less;
    SortedByIff(SampleRules, [75, 47, 61, 53, 29]);
  }

  /** Its middle page is 61. */
  lemma ExampleMiddle()
    ensures MiddlePage(PageNumbers(Update([75, 47, 61, 53, 29]))) == 61
  {
    CheckUpdate(SampleRules, [75, 47, 61, 53, 29]);
  }

  /** The fourth sample update, `75,97,47,61,53`, is not: 97 has a rule for 75. */
  lemma ExampleUnordered()
    ensures !CheckOrdering(SampleRules, Update([75, 97, 47, 61, 53]))
  {
    CheckUpdate(SampleRules, [75, 97, 47, 61, 53]);
    SampleUnsorted();
  }

  lemma SampleUnsorted()
    ensures !SortedBy(SampleRules, [75, 97, 47, 61, 53])
  {
    assert PageCmp(SampleRules, 75, 97) == Greater;
  }

  /** The fifth sample update, `61,13,29`, sorts to `61,29,13` (middle page 29) under the
      sample's rules for those pages. */
  lemma ExampleSort()
    ensures SortBy(map[61 := {13, 53, 29}, 29 := {13}], [61, 13, 29]) == [61, 29, 13]
  {
    var rules := map[61 := {13, 53, 29}, 29 := {13}];
    assert PageCmp(rules, 13, 29) == Greater && PageCmp(rules, 61, 29) == Less;
    assert [61, 13, 29][1..] == [13, 29] && [13, 29][1..] == [29];
    assert SortBy(rules, [29]) == [29];
    assert SortBy(rules, [13, 29]) == [29, 13];
  }
}
