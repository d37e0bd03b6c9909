/** Day 9: a run-length disk map, compacted block by block or file by file, and its checksum. */
module Day9 {

  import opened Wrappers
  import Decimal

  /** A run of `length` blocks beginning at block `start`. */
  datatype Span = Span(start: nat, length: nat) {
    function End(): nat {
      start + length
    }
  }

  /** A file and the runs holding its blocks, in the order they are kept. */
  datatype FileNode = FileNode(id: nat, parts: seq<Span>)

  /** The value of a disk map: its files and its free runs. */
  datatype Disk = Disk(files: seq<FileNode>, free: seq<Span>)

  function Min(a: nat, b: nat): (m: nat)
    ensures m <= a && m <= b && (m == a || m == b)
  {
    if a <= b then a else b
  }

  /** The number of blocks covered by some runs. */
  function Total(spans: seq<Span>): nat {
    if spans == [] then 0 else spans[0].length + Total(spans[1..])
  }

  lemma {:induction false} TotalConcat(a: seq<Span>, b: seq<Span>)
    ensures Total(a + b) == Total(a) + Total(b)
  {
    if a != [] {
      assert (a + b)[0] == a[0] && (a + b)[1..] == a[1..] + b;
      TotalConcat(a[1..], b);
    } else {
      assert a + b == b;
    }
  }

  lemma {:induction false} TotalUpdate(spans: seq<Span>, j: nat, x: Span)
    requires j < |spans|
    ensures Total(spans[j := x]) + spans[j].length == Total(spans) + x.length
  {
    if j > 0 {
      assert spans[j := x][1..] == spans[1..][j - 1 := x];
      TotalUpdate(spans[1..], j - 1, x);
    }
  }

  /** The number of blocks of the runs that begin strictly before block `limit`. */
  function Below(spans: seq<Span>, limit: nat): nat {
    if spans == [] then 0
    else (if spans[0].start < limit then spans[0].length else 0) + Below(spans[1..], limit)
  }

  // ---------------------------------------------------------------- checksum

  /** `(start..start + length).fold(0, |acc, n| acc + id * n)`: blocks weighted by position. */
  function RangeSum(id: nat, start: nat, length: nat): nat
    decreases length
  {
    if length == 0 then 0 else id * start + RangeSum(id, start + 1, length - 1)
  }

  /** The fold adds up an arithmetic series: `id * (start + (start+1) + ... + (start+length-1))`. */
  lemma {:induction false} RangeSumClosed(id: nat, start: nat, length: nat)
    ensures 2 * RangeSum(id, start, length) == id * (length * (2 * start + length - 1))
    decreases length
  {
    if length > 0 {
      var l := length - 1;
      RangeSumClosed(id, start + 1, l);
      SeriesStep(id, start, l);
    }
  }

  lemma SeriesStep(id: nat, a: nat, l: nat)
    ensures 2 * (id * a) + id * (l * (2 * a + l + 1)) == id * ((l + 1) * (2 * a + l))
  {
    assert l * (2 * a + l + 1) + 2 * a == (l + 1) * (2 * a + l);
  }

  function PartsSum(id: nat, parts: seq<Span>): nat {
    if parts == [] then 0 else RangeSum(id, parts[0].start, parts[0].length) + PartsSum(id, parts[1..])
  }

  /** `checksum_file`: every block of the file contributes `id * position`. */
  function ChecksumFile(f: FileNode): nat {
    PartsSum(f.id, f.parts)
  }

  /** `checksum`: the sum of the file checksums. */
  function Checksum(files: seq<FileNode>): nat {
    if files == [] then 0 else ChecksumFile(files[0]) + Checksum(files[1..])
  }

  lemma ExampleChecksum()
    ensures ChecksumFile(FileNode(0, [Span(0, 1)])) == 0
    ensures ChecksumFile(FileNode(9, [Span(2, 2)])) == 45
    ensures ChecksumFile(FileNode(8, [Span(4, 1), Span(8, 3)])) == 248
    ensures Checksum([FileNode(0, [Span(0, 1)]), FileNode(9, [Span(2, 2)]), FileNode(8, [Span(4, 1), Span(8, 3)])]) == 293
  {
    var f0, f1, f2 := FileNode(0, [Span(0, 1)]), FileNode(9, [Span(2, 2)]), FileNode(8, [Span(4, 1), Span(8, 3)]);
    assert [Span(0, 1)][1..] == [] && [Span(2, 2)][1..] == [] && [Span(8, 3)][1..] == [];
    assert f2.parts[1..] == [Span(8, 3)];
    var files := [f0, f1, f2];
    assert files[1..] == [f1, f2] && files[1..][1..] == [f2] && [f2][1..] == [];
  }

  // ---------------------------------------------------------------- init_map

  /** The position after the runs of a prefix of the map: the sum of its digits. */
  function Offset(s: string): nat
    requires Decimal.AllDigits(s)
  {
    if s == [] then 0 else Offset(s[..|s| - 1]) + Decimal.DigitValue(s[|s| - 1])
  }

  /** The run described by digit `i`. */
  function Segment(s: string, i: nat): Span
    requires Decimal.AllDigits(s) && i < |s|
  {
    Span(Offset(s[..i]), Decimal.DigitValue(s[i]))
  }

  /** The files `init_map` builds: even digits are files, numbered in order. */
  function InitFiles(s: string): seq<FileNode>
    requires Decimal.AllDigits(s)
  {
    if s == [] then []
    else
      var n := |s| - 1;
      var fs := InitFiles(s[..n]);
      if n % 2 == 0 then fs + [FileNode(n / 2, [Segment(s, n)])] else fs
  }

  /** The free runs `init_map` builds: odd digits that are not zero. */
  function InitFree(s: string): seq<Span>
    requires Decimal.AllDigits(s)
  {
    if s == [] then []
    else
      var n := |s| - 1;
      var fr := InitFree(s[..n]);
      if n % 2 == 1 && Decimal.DigitValue(s[n]) > 0 then fr + [Segment(s, n)] else fr
  }

  lemma PrefixDigits(s: string, n: nat)
    requires Decimal.AllDigits(s) && n <= |s|
    ensures Decimal.AllDigits(s[..n])
  {
    assert forall i :: 0 <= i < n ==> s[..n][i] == s[i];
  }

  /** File k of `init_map` has id k and the single run of digit 2k. */
  lemma {:induction false} InitFilesShape(s: string)
    requires Decimal.AllDigits(s)
    ensures |InitFiles(s)| == (|s| + 1) / 2
    ensures forall k :: 0 <= k < |InitFiles(s)| ==> InitFiles(s)[k] == FileNode(k, [Segment(s, 2 * k)])
  {
    if s != [] {
      var n := |s| - 1;
      var front := s[..n];
      PrefixDigits(s, n);
      InitFilesShape(front);
      forall k | 0 <= k < |InitFiles(front)|
        ensures Segment(front, 2 * k) == Segment(s, 2 * k)
      {
        assert front[..2 * k] == s[..2 * k];
      }
    }
  }

  predicate Disjoint(a: Span, b: Span) {
    a.End() <= b.start || b.End() <= a.start
  }

  /** The layout of `init_map`: every run ends by the total offset, the free runs are non-empty,
      sorted and apart, and no free run overlaps a file's run. */
  ghost predicate Laid(files: seq<FileNode>, free: seq<Span>, limit: nat) {
    && (forall k, m :: 0 <= k < |files| && 0 <= m < |files[k].parts| ==> files[k].parts[m].End() <= limit)
    && (forall p :: 0 <= p < |free| ==> free[p].length > 0 && free[p].End() <= limit)
    && (forall p :: 0 <= p < |free| - 1 ==> free[p].End() <= free[p + 1].start)
    && (forall k, m, p :: 0 <= k < |files| && 0 <= m < |files[k].parts| && 0 <= p < |free| ==>
          Disjoint(files[k].parts[m], free[p]))
  }

  /** A file run laid right after the layout keeps it laid. */
  lemma LaidFile(files: seq<FileNode>, free: seq<Span>, limit: nat, id: nat, seg: Span)
    requires Laid(files, free, limit) && seg.start == limit
    ensures Laid(files + [FileNode(id, [seg])], free, seg.End())
  {
    var files' := files + [FileNode(id, [seg])];
    assert forall k :: 0 <= k < |files| ==> files'[k] == files[k];
  }

  /** A non-empty free run laid right after the layout keeps it laid. */
  lemma LaidFree(files: seq<FileNode>, free: seq<Span>, limit: nat, seg: Span)
    requires Laid(files, free, limit) && seg.start == limit && seg.length > 0
    ensures Laid(files, free + [seg], seg.End())
  {
    var free' := free + [seg];
    assert forall p :: 0 <= p < |free| ==> free'[p] == free[p];
  }

  lemma {:induction false} InitLayout(s: string)
    requires Decimal.AllDigits(s)
    ensures Laid(InitFiles(s), InitFree(s), Offset(s))
  {
    if s != [] {
      var n := |s| - 1;
      PrefixDigits(s, n);
      InitLayout(s[..n]);
      var seg := Segment(s, n);
      if n % 2 == 0 {
        LaidFile(InitFiles(s[..n]), InitFree(s[..n]), Offset(s[..n]), n / 2, seg);
      } else if Decimal.DigitValue(s[n]) > 0 {
        LaidFree(InitFiles(s[..n]), InitFree(s[..n]), Offset(s[..n]), seg);
      }
    }
  }

  /** `init_map`'s scan state after `i` digits carries the position, the next id and the parity. */
  method InitMap(input: string) returns (dm: Option<DiskMap>)
    ensures dm.Some? <==> Decimal.AllDigits(input)
    ensures dm.Some? ==>
      && Decimal.AllDigits(input) && fresh(dm.value)
      && dm.value.files == InitFiles(input) && dm.value.freePages == InitFree(input)
  {
    var files: seq<FileNode> := [];
    var freePages: seq<Span> := [];
    var isFile := true;
    var offset := 0;
    var id := 0;
    var i := 0;
    while i < |input|
      invariant 0 <= i <= |input| && Decimal.AllDigits(input[..i])
      invariant isFile == (i % 2 == 0) && id == (i + 1) / 2 && offset == Offset(input[..i])
      invariant files == InitFiles(input[..i]) && freePages == InitFree(input[..i])
    {
      var c := input[i];
      if !Decimal.IsDigit(c) {
        return None;
      }
      var val := Decimal.DigitValue(c);
      var next := input[..i + 1];
      assert next[..i] == input[..i];
      if isFile {
        files := files + [FileNode(id, [Span(offset, val)])];
        id := id + 1;
      } else if val > 0 {
        freePages := freePages + [Span(offset, val)];
      }
      offset := offset + val;
      isFile := !isFile;
      i := i + 1;
    }
    assert input[..i] == input;
    var m := new DiskMap(files, freePages);
    dm := Some(m);
  }

  // ---------------------------------------------------------------- scanning the files in reverse

  /** `for f in files.iter_mut().rev()`: apply `step` to files i-1, ..., 0 with the free runs it
      threads through; a step that panics stops the scan. */
  function ProcessDown(step: (FileNode, seq<Span>) -> Option<(FileNode, seq<Span>)>, d: Disk, i: nat): Option<Disk>
    requires i <= |d.files|
    decreases i
  {
    if i == 0 then Some(d)
    else
      match step(d.files[i - 1], d.free)
      case None => None
      case Some((f, fr)) => ProcessDown(step, Disk(d.files[i - 1 := f], fr), i - 1)
  }

  /** Whatever each step keeps of one file and of the free space, the whole scan keeps. */
  lemma {:induction false} ProcessDownKeeps(step: (FileNode, seq<Span>) -> Option<(FileNode, seq<Span>)>,
                                            rel: (FileNode, FileNode) -> bool, d: Disk, i: nat)
    requires i <= |d.files|
    requires forall f, fr :: step(f, fr).Some? ==> rel(f, step(f, fr).value.0) && Total(step(f, fr).value.1) <= Total(fr)
    requires ProcessDown(step, d, i).Some?
    ensures var e := ProcessDown(step, d, i).value;
      && |e.files| == |d.files| && Total(e.free) <= Total(d.free)
      && (forall k :: 0 <= k < i ==> rel(d.files[k], e.files[k]))
      && (forall k :: i <= k < |d.files| ==> e.files[k] == d.files[k])
    decreases i
  {
    if i > 0 {
      var r := step(d.files[i - 1], d.free).value;
      var d' := Disk(d.files[i - 1 := r.0], r.1);
      ProcessDownKeeps(step, rel, d', i - 1);
    }
  }

  /** A scan whose step never fails on a file with a run, and leaves it a run, never fails on
      files that all have a run. */
  lemma {:induction false} ProcessDownSome(step: (FileNode, seq<Span>) -> Option<(FileNode, seq<Span>)>, d: Disk, i: nat)
    requires i <= |d.files|
    requires forall f: FileNode, fr :: f.parts != [] ==> step(f, fr).Some? && step(f, fr).value.0.parts != []
    requires forall k :: 0 <= k < i ==> d.files[k].parts != []
    ensures ProcessDown(step, d, i).Some?
    decreases i
  {
    if i > 0 {
      var r := step(d.files[i - 1], d.free).value;
      ProcessDownSome(step, Disk(d.files[i - 1 := r.0], r.1), i - 1);
    }
  }

  // ---------------------------------------------------------------- fragment

  /** The inner loop of `fragment`: move the `length` blocks of the part at `start` into the
      leading free runs, appending each moved piece to `parts`; None when the free runs run dry. */
  function Relocate(start: nat, length: nat, parts: seq<Span>, free: seq<Span>): Option<(seq<Span>, seq<Span>)>
    decreases length, |free|
  {
    if length == 0 then Some((parts, free))
    else if free == [] then None
    else
      var page := free[0];
      if page.length == 0 then Relocate(start, length, parts, free[1..])
      else if page.start >= start then Some((parts + [Span(start, length)], free))
      else
        var m := Min(length, page.length);
        Relocate(start, length - m, parts + [Span(page.start, m)], [Span(page.start + m, page.length - m)] + free[1..])
  }

  /** Relocation keeps the earlier runs and the number of blocks. Every appended run but the last
      begins strictly before the part, the last one at the part at the latest, and the free space
      shrinks by exactly the blocks that landed before the part. */
  lemma {:induction false} RelocateKeeps(start: nat, length: nat, parts: seq<Span>, free: seq<Span>)
    requires Relocate(start, length, parts, free).Some?
    ensures var (ps, fr) := Relocate(start, length, parts, free).value;
      && |parts| <= |ps| && ps[..|parts|] == parts
      && Total(ps[|parts|..]) == length
      && (forall k :: |parts| <= k < |ps| - 1 ==> ps[k].start < start)
      && (|parts| < |ps| ==> ps[|ps| - 1].start <= start)
      && Total(free) == Total(fr) + Below(ps[|parts|..], start)
    decreases length, |free|
  {
    if length == 0 {
      assert Relocate(start, length, parts, free).value.0[|parts|..] == [];
    } else {
      var page := free[0];
      if page.length == 0 {
        RelocateKeeps(start, length, parts, free[1..]);
      } else if page.start >= start {
        assert [page] + free[1..] == free;
        var ps := parts + [Span(start, length)];
        assert ps[|parts|..] == [Span(start, length)] && [Span(start, length)][1..] == [];
      } else {
        var m := Min(length, page.length);
        var s := Span(page.start, m);
        var free' := [Span(page.start + m, page.length - m)] + free[1..];
        assert free'[1..] == free[1..];
        RelocateKeeps(start, length - m, parts + [s], free');
        var ps := Relocate(start, length - m, parts + [s], free').value.0;
        assert ps[..|parts| + 1][..|parts|] == ps[..|parts|];
        assert ps[..|parts| + 1][|parts|] == s;
        var tail := ps[|parts|..];
        assert tail[0] == s && tail[1..] == ps[|parts| + 1..];
      }
    }
  }

  /** One file of `fragment`: pop its first run and relocate it; None when the file has no run
      (`pop_front().unwrap()`) or the free runs run dry (`free_pages.pop_front().unwrap()`). */
  function FragmentStep(f: FileNode, free: seq<Span>): Option<(FileNode, seq<Span>)> {
    if f.parts == [] then None
    else
      match Relocate(f.parts[0].start, f.parts[0].length, f.parts[1..], free)
      case None => None
      case Some((ps, fr)) => Some((FileNode(f.id, ps), fr))
  }

  /** The file keeps its id and its number of blocks. */
  predicate SameBlocks(f: FileNode, g: FileNode) {
    g.id == f.id && Total(g.parts) == Total(f.parts)
  }

  lemma FragmentStepKeeps(f: FileNode, free: seq<Span>)
    requires FragmentStep(f, free).Some?
    ensures SameBlocks(f, FragmentStep(f, free).value.0)
    ensures Total(FragmentStep(f, free).value.1) <= Total(free)
  {
    var rest := f.parts[1..];
    RelocateKeeps(f.parts[0].start, f.parts[0].length, rest, free);
    var ps := Relocate(f.parts[0].start, f.parts[0].length, rest, free).value.0;
    assert ps == rest + ps[|rest|..];
    TotalConcat(rest, ps[|rest|..]);
  }

  /** `fragment` on a disk value. */
  function FragmentSpec(d: Disk): Option<Disk> {
    ProcessDown(FragmentStep, d, |d.files|)
  }

  /** After `fragment` every file keeps its id and its number of blocks, and free space never grows. */
  lemma FragmentKeeps(d: Disk)
    requires FragmentSpec(d).Some?
    ensures var e := FragmentSpec(d).value;
      && |e.files| == |d.files| && Total(e.free) <= Total(d.free)
      && forall k :: 0 <= k < |d.files| ==> SameBlocks(d.files[k], e.files[k])
  {
    forall f, fr | FragmentStep(f, fr).Some?
      ensures SameBlocks(f, FragmentStep(f, fr).value.0) && Total(FragmentStep(f, fr).value.1) <= Total(fr)
    {
      FragmentStepKeeps(f, fr);
    }
    ProcessDownKeeps(FragmentStep, SameBlocks, d, |d.files|);
  }

  // ---------------------------------------------------------------- defragment_whole_files

  /** A free run can take the whole part: long enough, and before it. */
  predicate Fits(part: Span, page: Span) {
    page.length >= part.length && page.start < part.start
  }

  /** The first free run that can take the whole part. */
  function FirstFit(part: Span, free: seq<Span>): (r: Option<nat>)
    ensures r.Some? ==> r.value < |free| && Fits(part, free[r.value])
    ensures r.Some? ==> forall k :: 0 <= k < r.value ==> !Fits(part, free[k])
    ensures r.None? ==> forall k :: 0 <= k < |free| ==> !Fits(part, free[k])
  {
    if free == [] then None
    else if Fits(part, free[0]) then Some(0)
    else
      match FirstFit(part, free[1..])
      case None => None
      case Some(j) => Some(j + 1)
  }

  /** One file of `defragment_whole_files`: a non-empty first run moves into the first fitting
      free run, whose start advances and whose length shrinks by the file's length. */
  function WholeFileStep(f: FileNode, free: seq<Span>): Option<(FileNode, seq<Span>)> {
    if f.parts == [] then None
    else
      var part := f.parts[0];
      if part.length == 0 then Some((f, free))
      else
        match FirstFit(part, free)
        case None => Some((f, free))
        case Some(j) =>
          Some((FileNode(f.id, f.parts[0 := Span(free[j].start, part.length)]),
                free[j := Span(free[j].start + part.length, free[j].length - part.length)]))
  }

  /** The file keeps its id, its runs after the first, and the first run's length; that run only
      moves towards the front. */
  predicate MovedWhole(f: FileNode, g: FileNode) {
    && g.id == f.id && |g.parts| == |f.parts| > 0 && g.parts[1..] == f.parts[1..]
    && g.parts[0].length == f.parts[0].length && g.parts[0].start <= f.parts[0].start
  }

  lemma WholeFileStepKeeps(f: FileNode, free: seq<Span>)
    requires WholeFileStep(f, free).Some?
    ensures MovedWhole(f, WholeFileStep(f, free).value.0)
    ensures var fr := WholeFileStep(f, free).value.1;
      Total(fr) == Total(free) - (if fr == free then 0 else f.parts[0].length)
  {
    var part := f.parts[0];
    if part.length > 0 && FirstFit(part, free).Some? {
      var j := FirstFit(part, free).value;
      TotalUpdate(free, j, Span(free[j].start + part.length, free[j].length - part.length));
    }
  }

  lemma WholeFileStepPanics(f: FileNode, free: seq<Span>)
    ensures WholeFileStep(f, free).None? <==> f.parts == []
  {
  }

  predicate SortedById(fs: seq<FileNode>) {
    forall j, k :: 0 <= j < k < |fs| ==> fs[j].id <= fs[k].id
  }

  function InsertById(f: FileNode, fs: seq<FileNode>): (r: seq<FileNode>)
    requires SortedById(fs)
    ensures SortedById(r) && multiset(r) == multiset(fs) + multiset{f}
    ensures r != [] && (r[0] == f || (fs != [] && r[0] == fs[0]))
  {
    if fs == [] || f.id <= fs[0].id then [f] + fs
    else
      assert fs == [fs[0]] + fs[1..];
      [fs[0]] + InsertById(f, fs[1..])
  }

  /** `sort_by_key(|f| f.id)`: a stable insertion sort by id. */
  function SortById(fs: seq<FileNode>): (r: seq<FileNode>)
    ensures SortedById(r) && multiset(r) == multiset(fs) && |r| == |fs|
  {
    if fs == [] then []
    else
      assert fs == [fs[0]] + fs[1..];
      var r := InsertById(fs[0], SortById(fs[1..]));
      assert |r| == |multiset(r)|;
      r
  }

  /** Files already in id order, as `init_map` leaves them, are not reordered. */
  lemma {:induction false} SortByIdSorted(fs: seq<FileNode>)
    requires SortedById(fs)
    ensures SortById(fs) == fs
  {
    if fs != [] {
      SortByIdSorted(fs[1..]);
      assert fs == [fs[0]] + fs[1..];
    }
  }

  lemma InitFilesSorted(s: string)
    requires Decimal.AllDigits(s)
    ensures SortedById(InitFiles(s)) && SortById(InitFiles(s)) == InitFiles(s)
  {
    InitFilesShape(s);
    SortByIdSorted(InitFiles(s));
  }

  /** `defragment_whole_files` on a disk value. */
  function DefragmentSpec(d: Disk): Option<Disk> {
    var sorted := SortById(d.files);
    ProcessDown(WholeFileStep, Disk(sorted, d.free), |sorted|)
  }

  /** After `defragment_whole_files` the files are in id order, each keeps its id, its length and
      its later runs, its first run only moves towards the front, and free space never grows. */
  lemma DefragmentKeeps(d: Disk)
    requires DefragmentSpec(d).Some?
    ensures var sorted := SortById(d.files); var e := DefragmentSpec(d).value;
      && |e.files| == |d.files| && Total(e.free) <= Total(d.free)
      && (forall k :: 0 <= k < |d.files| ==> MovedWhole(sorted[k], e.files[k]))
      && (forall j, k :: 0 <= j < k < |d.files| ==> e.files[j].id <= e.files[k].id)
  {
    forall f, fr | WholeFileStep(f, fr).Some?
      ensures MovedWhole(f, WholeFileStep(f, fr).value.0) && Total(WholeFileStep(f, fr).value.1) <= Total(fr)
    {
      WholeFileStepKeeps(f, fr);
    }
    var sorted := SortById(d.files);
    ProcessDownKeeps(WholeFileStep, MovedWhole, Disk(sorted, d.free), |sorted|);
  }

  /** On a map built by `init_map` the sort changes nothing and `defragment_whole_files` cannot
      panic, since every file keeps its single run. */
  lemma DefragmentInitMap(input: string)
    requires Decimal.AllDigits(input)
    ensures var d := Disk(InitFiles(input), InitFree(input));
      SortById(d.files) == d.files && DefragmentSpec(d).Some?
  {
    InitFilesSorted(input);
    InitFilesShape(input);
    forall f: FileNode, fr: seq<Span> | f.parts != []
      ensures WholeFileStep(f, fr).Some? && WholeFileStep(f, fr).value.0.parts != []
    {
      WholeFileStepKeeps(f, fr);
    }
    var files := InitFiles(input);
    ProcessDownSome(WholeFileStep, Disk(files, InitFree(input)), |files|);
  }

  // ---------------------------------------------------------------- the disk map

  class DiskMap {
    var files: seq<FileNode>
    var freePages: seq<Span>

    function State(): Disk
      reads this
    {
      Disk(files, freePages)
    }

    constructor (files: seq<FileNode>, freePages: seq<Span>)
      ensures this.files == files && this.freePages == freePages
    {
      this.files := files;
      this.freePages := freePages;
    }

    /** `fragment`: false where the source panics. */
    method Fragment() returns (ok: bool)
      modifies this`files, this`freePages
      ensures ok == FragmentSpec(old(State())).Some?
      ensures ok ==> State() == FragmentSpec(old(State())).value
    {
      var i: nat := |files|;
      ok := true;
      while i > 0
        invariant i <= |files| == |old(files)|
        invariant ProcessDown(FragmentStep, State(), i) == FragmentSpec(old(State()))
      {
        ok := FragmentFile(i - 1);
        if !ok {
          break;
        }
        i := i - 1;
      }
    }

    /** The body of `fragment`'s outer loop for file i, moving blocks of its first run into the
        free runs at the front of the queue. */
    method FragmentFile(i: nat) returns (ok: bool)
      requires i < |files|
      modifies this`files, this`freePages
      ensures ok == FragmentStep(old(files[i]), old(freePages)).Some?
      ensures ok ==> var r := FragmentStep(old(files[i]), old(freePages)).value;
        files == old(files)[i := r.0] && freePages == r.1
    {
      var f := files[i];
      if f.parts == [] {
        return false;
      }
      var start, length := f.parts[0].start, f.parts[0].length;
      var parts := f.parts[1..];
      ghost var goal := Relocate(start, length, parts, freePages);
      ok := true;
      while length > 0
        invariant files == old(files) && Relocate(start, length, parts, freePages) == goal
        decreases length, |freePages|
      {
        if freePages == [] {
          ok := false;
          break;
        }
        ghost var before := freePages;
        var page := freePages[0];
        freePages := freePages[1..];
        if page.length == 0 {
          continue;
        }
        if page.start >= start {
          parts := parts + [Span(start, length)];
          freePages := [page] + freePages;
          assert freePages == before;
          break;
        }
        var m := Min(length, page.length);
        parts := parts + [Span(page.start, m)];
        length := length - m;
        freePages := [Span(page.start + m, page.length - m)] + freePages;
      }
      assert ok ==> goal == Some((parts, freePages));
      if ok {
        files := files[i := FileNode(f.id, parts)];
      }
    }

    /** `defragment_whole_files`: false where the source panics. */
    method DefragmentWholeFiles() returns (ok: bool)
      modifies this`files, this`freePages
      ensures ok == DefragmentSpec(old(State())).Some?
      ensures ok ==> State() == DefragmentSpec(old(State())).value
    {
      files := SortById(files);
      var i: nat := |files|;
      ok := true;
      while i > 0
        invariant i <= |files| == |old(files)|
        invariant ProcessDown(WholeFileStep, State(), i) == DefragmentSpec(old(State()))
      {
        ok := DefragmentFile(i - 1);
        if !ok {
          break;
        }
        i := i - 1;
      }
    }

    /** The body of `defragment_whole_files`' outer loop for file i. */
    method DefragmentFile(i: nat) returns (ok: bool)
      requires i < |files|
      modifies this`files, this`freePages
      ensures ok == WholeFileStep(old(files[i]), old(freePages)).Some?
      ensures ok ==> var r := WholeFileStep(old(files[i]), old(freePages)).value;
        files == old(files)[i := r.0] && freePages == r.1
    {
      var f := files[i];
      if f.parts == [] {
        return false;
      }
      ok := true;
      var part := f.parts[0];
      if part.length == 0 {
        assert files == files[i := f];
        return;
      }
      var j := 0;
      while j < |freePages|
        invariant j <= |freePages| && files == old(files) && freePages == old(freePages)
        invariant forall k :: 0 <= k < j ==> !Fits(part, freePages[k])
      {
        var page := freePages[j];
        if Fits(part, page) {
          files := files[i := FileNode(f.id, f.parts[0 := Span(page.start, part.length)])];
          freePages := freePages[j := Span(page.start + part.length, page.length - part.length)];
          assert FirstFit(part, old(freePages)) == Some(j);
          return;
        }
        j := j + 1;
      }
      assert files == files[i := f];
    }
  }
}
