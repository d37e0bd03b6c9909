/** The pieces of Rust's string library the day programs use: splitting, searching,
    line breaking, whitespace filtering and integer parsing (ASCII text only). */
module Text {

  import opened Wrappers
  import Decimal

  /** `char::is_whitespace`, restricted to ASCII. */
  predicate IsWhitespace(c: char) {
    c == ' ' || c == '\t' || c == '\n' || c == '\r' || c == '\U{000B}' || c == '\U{000C}'
  }

  /** `s.split(p)` where p matches any character of seps: empty pieces are kept. */
  function Split(s: string, seps: set<char>): (parts: seq<string>)
    ensures |parts| >= 1
    decreases |s|
  {
    if s == [] then [[]]
    else
      var rest := Split(s[1..], seps);
      if s[0] in seps then [[]] + rest else [[s[0]] + rest[0]] + rest[1..]
  }

  /** `parts.join(sep)`. */
  function Join(parts: seq<string>, sep: char): string
    requires |parts| >= 1
  {
    if |parts| == 1 then parts[0] else parts[0] + [sep] + Join(parts[1..], sep)
  }

  function RemoveEmpty(parts: seq<string>): (r: seq<string>)
    ensures forall i :: 0 <= i < |r| ==> r[i] != []
  {
    if parts == [] then []
    else if parts[0] == [] then RemoveEmpty(parts[1..])
    else [parts[0]] + RemoveEmpty(parts[1..])
  }

  /** `s.split(p).filter(|t| !t.is_empty())`; with the whitespace set this is `split_whitespace`. */
  function Tokens(s: string, seps: set<char>): seq<string> {
    RemoveEmpty(Split(s, seps))
  }

  const Whitespace: set<char> := {' ', '\t', '\n', '\r', '\U{000B}', '\U{000C}'}

  /** `s.split_whitespace()`. */
  function Words(s: string): seq<string> {
    Tokens(s, Whitespace)
  }

  /** `s.chars().filter(|c| !c.is_whitespace())`. */
  function RemoveWhitespace(s: string): (r: string)
    ensures forall i :: 0 <= i < |r| ==> !IsWhitespace(r[i])
  {
    if s == [] then []
    else if IsWhitespace(s[0]) then RemoveWhitespace(s[1..])
    else [s[0]] + RemoveWhitespace(s[1..])
  }

  function StripCarriageReturn(line: string): string {
    if line != [] && line[|line| - 1] == '\r' then line[..|line| - 1] else line
  }

  /** `s.lines()`: pieces between newlines, one trailing `\r` removed from each piece that a
      newline ends (a `\r` at the very end of the text stays), and no final empty piece after
      a terminating newline. */
  function Lines(s: string): seq<string> {
    var parts := Split(s, {'\n'});
    var kept := if parts[|parts| - 1] == [] then parts[..|parts| - 1] else parts;
    seq(|kept|, i requires 0 <= i < |kept| => if i < |parts| - 1 then StripCarriageReturn(kept[i]) else kept[i])
  }

  predicate OccursAt(s: string, pat: string, i: nat) {
    i + |pat| <= |s| && s[i..i + |pat|] == pat
  }

  /** The index of the first occurrence of pat in s at or after from, as `s.find(pat)`. */
  function FindFrom(s: string, pat: string, from: nat): (r: Option<nat>)
    ensures r.Some? ==> from <= r.value && OccursAt(s, pat, r.value)
    ensures forall j :: from <= j && (r.None? || j < r.value) ==> !OccursAt(s, pat, j)
    decreases |s| - from
  {
    if from + |pat| > |s| then None
    else if s[from..from + |pat|] == pat then Some(from)
    else FindFrom(s, pat, from + 1)
  }

  /** `s.split_once(pat)`: the text before and after the first occurrence of pat. */
  function SplitOnce(s: string, pat: string): (r: Option<(string, string)>)
    ensures r.Some? ==> s == r.value.0 + pat + r.value.1
    ensures r.Some? ==> forall j: nat :: j < |r.value.0| ==> !OccursAt(s, pat, j)
    ensures r.None? <==> forall j :: !OccursAt(s, pat, j)
  {
    match FindFrom(s, pat, 0)
    case None => None
    case Some(i) =>
      assert s == s[..i] + s[i..i + |pat|] + s[i + |pat|..];
      Some((s[..i], s[i + |pat|..]))
  }

  /** When the first character of pat does not occur in a, `split_once` cuts right after a. */
  lemma SplitOnceFirst(a: string, pat: string, rhs: string)
    requires |pat| >= 1 && forall j :: 0 <= j < |a| ==> a[j] != pat[0]
    ensures SplitOnce(a + pat + rhs, pat) == Some((a, rhs))
  {
    var s := a + pat + rhs;
    forall j | 0 <= j < |a| ensures !OccursAt(s, pat, j) {
      OccursFirst(s, pat, j);
      assert s[j] == a[j];
    }
    assert OccursAt(s, pat, |a|) by {
      assert s[|a|..|a| + |pat|] == pat;
    }
    FirstOccurrence(s, pat, |a|);
    assert s[..|a|] == a;
    assert s[|a| + |pat|..] == rhs;
  }

  lemma FirstOccurrence(s: string, pat: string, k: nat)
    requires OccursAt(s, pat, k)
    requires forall j :: 0 <= j < k ==> !OccursAt(s, pat, j)
    ensures FindFrom(s, pat, 0) == Some(k)
  {
    var r := FindFrom(s, pat, 0);
  }

  lemma OccursFirst(s: string, pat: string, j: nat)
    requires |pat| >= 1
    ensures OccursAt(s, pat, j) ==> s[j] == pat[0]
  {
    if OccursAt(s, pat, j) {
      assert s[j..j + |pat|][0] == s[j];
    }
  }

  /** `s.parse::<u64>()` (or any unsigned width): an optional `+`, then at least one digit. */
  function ParseNat(s: string): (r: Option<nat>)
    ensures r.Some? ==> |s| >= 1
  {
    var body := if |s| >= 1 && s[0] == '+' then s[1..] else s;
    if body != [] && Decimal.AllDigits(body) then Some(Decimal.Value(body)) else None
  }

  /** `s.parse::<i64>()` (or any signed width): an optional sign, then at least one digit. */
  function ParseInt(s: string): (r: Option<int>) {
    if |s| >= 1 && s[0] == '-' then
      var body := s[1..];
      if body != [] && Decimal.AllDigits(body) then Some(0 - Decimal.Value(body) as int) else None
    else
      match ParseNat(s)
      case Some(n) => Some(n)
      case None => None
  }

  /** `n.to_string()` for a signed n. */
  function Render(n: int): string {
    if n < 0 then "-" + Decimal.Digits(-n) else Decimal.Digits(n)
  }

  /** A non-empty digit string parses to its value. */
  lemma ParseDigits(s: string)
    requires s != [] && Decimal.AllDigits(s)
    ensures ParseNat(s) == Some(Decimal.Value(s))
  {
  }

  lemma ParseNatDigits(n: nat)
    ensures ParseNat(Decimal.Digits(n)) == Some(n)
  {
    Decimal.ValueOfDigits(n);
  }

  lemma ParseRender(n: int)
    ensures ParseInt(Render(n)) == Some(n)
  {
    Decimal.ValueOfDigits(if n < 0 then -n else n);
    if n < 0 {
      assert Render(n)[1..] == Decimal.Digits(-n);
    }
  }

  /** Splitting on a single separator and joining with it gives the text back. */
  lemma {:induction false} JoinSplit(s: string, sep: char)
    ensures Join(Split(s, {sep}), sep) == s
    decreases |s|
  {
    if s != [] {
      var rest := Split(s[1..], {sep});
      JoinSplit(s[1..], sep);
      if s[0] == sep {
        assert Split(s, {sep}) == [[]] + rest;
        assert ([[]] + rest)[1..] == rest;
      } else {
        var parts := Split(s, {sep});
        assert parts == [[s[0]] + rest[0]] + rest[1..];
        if |rest| == 1 {
          assert parts == [[s[0]] + rest[0]];
        } else {
          assert parts[1..] == rest[1..];
          assert Join(rest, sep) == rest[0] + [sep] + Join(rest[1..], sep);
        }
      }
    }
  }

  /** A separator splits the pieces of what precedes it from the pieces of what follows. */
  lemma {:induction false} SplitAtSeparator(a: string, c: char, b: string, seps: set<char>)
    requires c in seps
    ensures Split(a + [c] + b, seps) == Split(a, seps) + Split(b, seps)
    decreases |a|
  {
    if a == [] {
      assert a + [c] + b == [c] + b;
      assert ([c] + b)[1..] == b;
    } else {
      assert (a + [c] + b)[1..] == a[1..] + [c] + b;
      SplitAtSeparator(a[1..], c, b, seps);
    }
  }

  lemma SplitLeadingSeparator(c: char, b: string, seps: set<char>)
    requires c in seps
    ensures Split([c] + b, seps) == [[]] + Split(b, seps)
  {
    assert ([c] + b)[1..] == b;
  }

  /** Text without separators is a single piece. */
  lemma {:induction false} SplitNoSeparator(a: string, seps: set<char>)
    requires forall i :: 0 <= i < |a| ==> a[i] !in seps
    ensures Split(a, seps) == [a]
    decreases |a|
  {
    if a != [] {
      SplitNoSeparator(a[1..], seps);
      assert [a[0]] + a[1..] == a;
    }
  }

  lemma {:induction false} RemoveEmptyAppend(x: seq<string>, y: seq<string>)
    ensures RemoveEmpty(x + y) == RemoveEmpty(x) + RemoveEmpty(y)
  {
    if x == [] {
      assert x + y == y;
    } else {
      assert (x + y)[1..] == x[1..] + y;
      RemoveEmptyAppend(x[1..], y);
    }
  }

  /** A rendered integer is a non-empty run of digits after an optional minus sign. */
  lemma RenderChars(n: int)
    ensures |Render(n)| >= 1
    ensures forall i :: 0 <= i < |Render(n)| ==> Render(n)[i] == '-' || Decimal.IsDigit(Render(n)[i])
  {
    if n < 0 {
      var d := Decimal.Digits(-n);
      assert forall i :: 1 <= i < |Render(n)| ==> Render(n)[i] == d[i - 1];
    }
  }

  /** No piece contains a separator. */
  predicate Separated(parts: seq<string>, seps: set<char>) {
    forall i, j :: 0 <= i < |parts| && 0 <= j < |parts[i]| ==> parts[i][j] !in seps
  }

  /** Joining pieces that contain no separator and splitting again gives the pieces back. */
  lemma {:induction false} SplitJoin(parts: seq<string>, sep: char, seps: set<char>)
    requires |parts| >= 1 && sep in seps && Separated(parts, seps)
    ensures Split(Join(parts, sep), seps) == parts
  {
    SplitNoSeparator(parts[0], seps);
    if |parts| > 1 {
      SplitJoin(parts[1..], sep, seps);
      SplitAtSeparator(parts[0], sep, Join(parts[1..], sep), seps);
      assert parts == [parts[0]] + parts[1..];
    }
  }

  /** The pieces written one after another, between[i] standing between pieces i and i + 1. */
  function Interleave(parts: seq<string>, between: string): string
    requires |parts| == |between| + 1
  {
    if between == [] then parts[0] else parts[0] + [between[0]] + Interleave(parts[1..], between[1..])
  }

  /** Pieces that split to themselves, written with separators between them, split back. */
  lemma {:induction false} SplitInterleave(parts: seq<string>, between: string, seps: set<char>)
    requires |parts| == |between| + 1
    requires forall i :: 0 <= i < |between| ==> between[i] in seps
    requires forall i :: 0 <= i < |parts| ==> Split(parts[i], seps) == [parts[i]]
    ensures Split(Interleave(parts, between), seps) == parts
  {
    if between != [] {
      var ps, bs := parts[1..], between[1..];
      forall i | 0 <= i < |bs| ensures bs[i] in seps {
        assert bs[i] == between[i + 1];
      }
      forall i | 0 <= i < |ps| ensures Split(ps[i], seps) == [ps[i]] {
        assert ps[i] == parts[i + 1];
      }
      SplitInterleave(ps, bs, seps);
      var rest := Interleave(ps, bs);
      assert Interleave(parts, between) == parts[0] + [between[0]] + rest;
      SplitAtSeparator(parts[0], between[0], rest, seps);
      assert Split(parts[0], seps) == [parts[0]];
      assert parts == [parts[0]] + ps;
    }
  }

  lemma {:induction false} RemoveEmptyNone(parts: seq<string>)
    requires forall i :: 0 <= i < |parts| ==> parts[i] != []
    ensures RemoveEmpty(parts) == parts
  {
    if parts != [] {
      RemoveEmptyNone(parts[1..]);
      assert parts == [parts[0]] + parts[1..];
    }
  }

  /** The pieces written one after another. */
  function Flatten(parts: seq<string>): (r: string)
    ensures parts == [] ==> r == []
  {
    if parts == [] then [] else parts[0] + Flatten(parts[1..])
  }

  /** Lines holding neither a newline nor a carriage return, with a non-empty last line,
      joined by newlines, are broken back into the same lines. */
  lemma LinesJoin(lines: seq<string>)
    requires |lines| >= 1 && lines[|lines| - 1] != [] && Separated(lines, {'\n', '\r'})
    ensures Lines(Join(lines, '\n')) == lines
  {
    assert Separated(lines, {'\n'}) by {
      forall i, j | 0 <= i < |lines| && 0 <= j < |lines[i]| ensures lines[i][j] !in {'\n'} {
        assert lines[i][j] !in {'\n', '\r'};
      }
    }
    SplitJoin(lines, '\n', {'\n'});
    LinesOfPieces(Join(lines, '\n'), lines);
  }

  /** When the newline-separated pieces end in a non-empty one and none ends in a carriage
      return, they are the lines. */
  lemma LinesOfPieces(s: string, pieces: seq<string>)
    requires Split(s, {'\n'}) == pieces && pieces[|pieces| - 1] != [] && Separated(pieces, {'\n', '\r'})
    ensures Lines(s) == pieces
  {
    var out := Lines(s);
    assert |out| == |pieces|;
    forall i | 0 <= i < |pieces| ensures out[i] == pieces[i] {
      assert out[i] == StripCarriageReturn(pieces[i]) || out[i] == pieces[i];
      if pieces[i] != [] {
        var last := pieces[i][|pieces[i]| - 1];
        assert last !in {'\n', '\r'};
      }
    }
  }

  lemma {:induction false} RemoveWhitespaceAppend(a: string, b: string)
    ensures RemoveWhitespace(a + b) == RemoveWhitespace(a) + RemoveWhitespace(b)
  {
    if a == [] {
      assert a + b == b;
    } else {
      assert (a + b)[1..] == a[1..] + b;
      RemoveWhitespaceAppend(a[1..], b);
    }
  }

  lemma {:induction false} RemoveWhitespaceNone(a: string)
    requires forall i :: 0 <= i < |a| ==> !IsWhitespace(a[i])
    ensures RemoveWhitespace(a) == a
  {
    if a != [] {
      RemoveWhitespaceNone(a[1..]);
      assert a == [a[0]] + a[1..];
    }
  }

  /** Dropping the whitespace of lines joined by newlines leaves their letters back to back. */
  lemma {:induction false} RemoveWhitespaceJoin(lines: seq<string>)
    requires |lines| >= 1
    requires forall i, j :: 0 <= i < |lines| && 0 <= j < |lines[i]| ==> !IsWhitespace(lines[i][j])
    ensures RemoveWhitespace(Join(lines, '\n')) == Flatten(lines)
  {
    RemoveWhitespaceNone(lines[0]);
    if |lines| > 1 {
      RemoveWhitespaceJoin(lines[1..]);
      RemoveWhitespaceAppend(lines[0] + ['\n'], Join(lines[1..], '\n'));
      RemoveWhitespaceAppend(lines[0], ['\n']);
      assert RemoveWhitespace(['\n']) == [];
    } else {
      assert lines[1..] == [];
    }
  }

  /** The rendering of each integer. */
  function RenderAll(xs: seq<int>): (r: seq<string>)
    ensures |r| == |xs|
    ensures forall i :: 0 <= i < |xs| ==> r[i] == Render(xs[i])
  {
    if xs == [] then [] else [Render(xs[0])] + RenderAll(xs[1..])
  }

  /** Integers written with single spaces between them split back into their renderings. */
  lemma WordsOfRendered(xs: seq<int>)
    requires |xs| >= 1
    ensures Words(Join(RenderAll(xs), ' ')) == RenderAll(xs)
  {
    RenderedSeparated(xs);
    SplitJoin(RenderAll(xs), ' ', Whitespace);
    RemoveEmptyNone(RenderAll(xs));
  }

  lemma RenderedSeparated(xs: seq<int>)
    ensures Separated(RenderAll(xs), Whitespace)
    ensures forall i :: 0 <= i < |xs| ==> RenderAll(xs)[i] != []
  {
    var parts := RenderAll(xs);
    forall i, j | 0 <= i < |parts| && 0 <= j < |parts[i]| ensures parts[i][j] !in Whitespace {
      RenderChars(xs[i]);
      NotWhitespace(parts[i][j]);
    }
    forall i | 0 <= i < |parts| ensures parts[i] != [] {
      RenderChars(xs[i]);
    }
  }

  /** Rendered integers contain no character of a set that holds neither `-` nor a digit. */
  lemma RenderedAvoid(xs: seq<int>, seps: set<char>)
    requires '-' !in seps && forall c :: c in seps ==> !Decimal.IsDigit(c)
    ensures Separated(RenderAll(xs), seps)
    ensures forall i :: 0 <= i < |xs| ==> RenderAll(xs)[i] != []
  {
    var parts := RenderAll(xs);
    forall i, j | 0 <= i < |parts| && 0 <= j < |parts[i]| ensures parts[i][j] !in seps {
      RenderChars(xs[i]);
    }
    forall i | 0 <= i < |parts| ensures parts[i] != [] {
      RenderChars(xs[i]);
    }
  }

  lemma NotWhitespace(c: char)
    requires c == '-' || Decimal.IsDigit(c)
    ensures c !in Whitespace
  {
  }

  /** Every piece parses as an unsigned integer (`map(|x| x.parse().unwrap())`, None where
      that would panic). */
  function ParseNats(parts: seq<string>): (r: Option<seq<nat>>)
    ensures r.Some? ==> |r.value| == |parts|
    ensures r.Some? ==> forall i :: 0 <= i < |parts| ==> ParseNat(parts[i]) == Some(r.value[i])
    ensures r.None? ==> exists i :: 0 <= i < |parts| && ParseNat(parts[i]).None?
  {
    AllSome(NatResults(parts))
  }

  function NatResults(parts: seq<string>): (r: seq<Option<nat>>)
    ensures |r| == |parts| && forall i :: 0 <= i < |parts| ==> r[i] == ParseNat(parts[i])
  {
    if parts == [] then [] else [ParseNat(parts[0])] + NatResults(parts[1..])
  }

  /** Every piece parses as a signed integer. */
  function ParseInts(parts: seq<string>): (r: Option<seq<int>>)
    ensures r.Some? ==> |r.value| == |parts|
    ensures r.Some? ==> forall i :: 0 <= i < |parts| ==> ParseInt(parts[i]) == Some(r.value[i])
    ensures r.None? ==> exists i :: 0 <= i < |parts| && ParseInt(parts[i]).None?
  {
    AllSome(IntResults(parts))
  }

  function IntResults(parts: seq<string>): (r: seq<Option<int>>)
    ensures |r| == |parts| && forall i :: 0 <= i < |parts| ==> r[i] == ParseInt(parts[i])
  {
    if parts == [] then [] else [ParseInt(parts[0])] + IntResults(parts[1..])
  }

  lemma {:induction false} ParseIntsRendered(xs: seq<int>)
    ensures ParseInts(RenderAll(xs)) == Some(xs)
  {
    if xs != [] {
      var r := RenderAll(xs);
      assert r[1..] == RenderAll(xs[1..]);
      ParseIntsRendered(xs[1..]);
      ParseRender(xs[0]);
      assert ParseInts(r) == Some([xs[0]] + xs[1..]);
      assert [xs[0]] + xs[1..] == xs;
    }
  }
}
