/** Two compressors of uncovered line numbers into ranges: the one of the command line report
    sorts and removes duplicates first; the one of the HTML report takes its list as it comes
    and closes the last range inside its loop. Joining the ranges into text is left out. */
module LineRanges {
  import opened StableOrder

  datatype Range = Range(first: int, last: int)

  function Expand(r: Range): seq<int>
    requires r.first <= r.last
  {
    seq(r.last - r.first + 1, i requires 0 <= i => r.first + i)
  }

  predicate WellFormed(ranges: seq<Range>) {
    forall i :: 0 <= i < |ranges| ==> ranges[i].first <= ranges[i].last
  }

  function Flatten(ranges: seq<Range>): seq<int>
    requires WellFormed(ranges)
  {
    if ranges == [] then [] else Flatten(ranges[..|ranges| - 1]) + Expand(ranges[|ranges| - 1])
  }

  /** No range continues where the one before it ends. */
  predicate Maximal(ranges: seq<Range>) {
    forall i :: 0 < i < |ranges| ==> ranges[i].first != ranges[i - 1].last + 1
  }

  /** The ranges spell out the list, in order, and cannot be merged. */
  ghost predicate Compresses(ranges: seq<Range>, lines: seq<int>) {
    WellFormed(ranges) && Flatten(ranges) == lines && Maximal(ranges)
  }

  lemma FlattenPush(ranges: seq<Range>, r: Range)
    requires WellFormed(ranges) && r.first <= r.last
    ensures WellFormed(ranges + [r]) && Flatten(ranges + [r]) == Flatten(ranges) + Expand(r)
  {
    assert (ranges + [r])[..|ranges|] == ranges;
  }

  /** `ranges` and the open range from `start` to `end` cover the first `i` lines. */
  ghost predicate Covers(ranges: seq<Range>, start: int, end: int, lines: seq<int>, i: nat) {
    && 0 < i <= |lines| && start <= end
    && WellFormed(ranges) && Maximal(ranges)
    && Flatten(ranges) + Expand(Range(start, end)) == lines[..i]
    && (ranges != [] ==> ranges[|ranges| - 1].last + 1 != start)
  }

  lemma StretchCovers(ranges: seq<Range>, start: int, end: int, lines: seq<int>, i: nat)
    requires Covers(ranges, start, end, lines, i) && i < |lines| && lines[i] == end + 1
    ensures Covers(ranges, start, end + 1, lines, i + 1)
  {
    assert Expand(Range(start, end + 1)) == Expand(Range(start, end)) + [end + 1];
    assert lines[..i + 1] == lines[..i] + [lines[i]];
  }

  lemma CloseCovers(ranges: seq<Range>, start: int, end: int, lines: seq<int>, i: nat)
    requires Covers(ranges, start, end, lines, i) && i < |lines| && lines[i] != end + 1
    ensures Covers(ranges + [Range(start, end)], lines[i], lines[i], lines, i + 1)
  {
    FlattenPush(ranges, Range(start, end));
    assert Expand(Range(lines[i], lines[i])) == [lines[i]];
    assert lines[..i + 1] == lines[..i] + [lines[i]];
  }

  lemma LastRangeCompresses(ranges: seq<Range>, start: int, end: int, lines: seq<int>)
    requires Covers(ranges, start, end, lines, |lines|)
    ensures Compresses(ranges + [Range(start, end)], lines)
  {
    FlattenPush(ranges, Range(start, end));
    assert lines[..|lines|] == lines;
  }

  lemma FirstCovers(lines: seq<int>)
    requires lines != []
    ensures Covers([], lines[0], lines[0], lines, 1)
  {
    assert Expand(Range(lines[0], lines[0])) == [lines[0]] == lines[..1];
  }

  // ---- The HTML report ----

  method HtmlRanges(lines: seq<int>) returns (ranges: seq<Range>)
    ensures Compresses(ranges, lines)
  {
    ranges := [];
    if lines == [] {
      return;
    }
    var start, end := lines[0], lines[0];
    FirstCovers(lines);
    var i := 1;
    while i <= |lines|
      invariant 1 <= i <= |lines| + 1
      invariant i <= |lines| ==> Covers(ranges, start, end, lines, i)
      invariant i == |lines| + 1 ==> Compresses(ranges, lines)
    {
      if i < |lines| && lines[i] == end + 1 {
        StretchCovers(ranges, start, end, lines, i);
        end := lines[i];
      } else {
        if i < |lines| {
          CloseCovers(ranges, start, end, lines, i);
        } else {
          LastRangeCompresses(ranges, start, end, lines);
        }
        ranges := ranges + [Range(start, end)];
        if i < |lines| {
          start := lines[i];
          end := lines[i];
        }
      }
      i := i + 1;
    }
  }

  // ---- The command line report ----

  function Dedup(lines: seq<int>): (r: seq<int>)
    ensures forall x :: x in r <==> x in lines
    ensures forall i, j :: 0 <= i < j < |r| ==> r[i] != r[j]
  {
    if lines == [] then []
    else
      var init, x := lines[..|lines| - 1], lines[|lines| - 1];
      assert lines == init + [x];
      if x in Dedup(init) then Dedup(init) else Dedup(init) + [x]
  }

  function Ascending(): int -> int {
    (x: int) => x
  }

  function SortedDistinct(lines: seq<int>): seq<int> {
    Sort(Dedup(lines), Ascending())
  }

  ghost predicate StrictlyIncreasing(s: seq<int>) {
    forall i, j :: 0 <= i < j < |s| ==> s[i] < s[j]
  }

  lemma {:induction false} DistinctMultiset(s: seq<int>)
    requires forall i, j :: 0 <= i < j < |s| ==> s[i] != s[j]
    ensures forall x :: multiset(s)[x] <= 1
  {
    if s != [] {
      var init, x := s[..|s| - 1], s[|s| - 1];
      DistinctMultiset(init);
      assert s == init + [x] && x !in init;
    }
  }

  lemma SortedDistinctIs(lines: seq<int>)
    ensures StrictlyIncreasing(SortedDistinct(lines))
    ensures forall x :: x in SortedDistinct(lines) <==> x in lines
  {
    var d, s := Dedup(lines), SortedDistinct(lines);
    SortIsStable(d, Ascending());
    SortPermutes(d, Ascending());
    DistinctMultiset(d);
    assert forall x :: x in s <==> x in multiset(s);
    assert forall x :: x in d <==> x in multiset(d);
    forall i, j | 0 <= i < j < |s|
      ensures s[i] < s[j]
    {
      assert Ascending()(s[i]) <= Ascending()(s[j]);
      if s[i] == s[j] {
        TwiceInMultiset(s, i, j);
      }
    }
  }

  lemma TwiceInMultiset(s: seq<int>, i: nat, j: nat)
    requires i < j < |s| && s[i] == s[j]
    ensures multiset(s)[s[i]] >= 2
  {
    assert s == s[..j] + [s[j]] + s[j + 1..];
    assert s[i] == s[..j][i];
    assert s[i] in multiset(s[..j]);
  }

  method CliRanges(lines: seq<int>) returns (ranges: seq<Range>)
    ensures Compresses(ranges, SortedDistinct(lines))
  {
    ranges := [];
    SortedDistinctIs(lines);
    var sorted := SortedDistinct(lines);
    if |lines| == 0 {
      return;
    }
    assert lines[0] in lines && lines[0] in SortedDistinct(lines);
    var start, end := sorted[0], sorted[0];
    FirstCovers(sorted);
    for i := 1 to |sorted|
      invariant Covers(ranges, start, end, sorted, i)
    {
      if sorted[i] == end + 1 {
        StretchCovers(ranges, start, end, sorted, i);
        end := sorted[i];
      } else {
        CloseCovers(ranges, start, end, sorted, i);
        ranges := ranges + [Range(start, end)];
        start := sorted[i];
        end := sorted[i];
      }
    }
    LastRangeCompresses(ranges, start, end, sorted);
    ranges := ranges + [Range(start, end)];
  }

  // ---- What the ranges are ----

  function Length(r: Range): nat
    requires r.first <= r.last
  {
    r.last - r.first + 1
  }

  /** A compression ends with its last range, and is one of the rest before that. */
  lemma LastRange(ranges: seq<Range>, lines: seq<int>)
    requires Compresses(ranges, lines) && ranges != []
    ensures
      var r := ranges[|ranges| - 1];
      && Length(r) <= |lines| && lines[|lines| - 1] == r.last
      && lines[|lines| - Length(r)..] == Expand(r)
      && Compresses(ranges[..|ranges| - 1], lines[..|lines| - Length(r)])
  {
  }

  lemma LastRangeNotLonger(a: seq<Range>, b: seq<Range>, lines: seq<int>)
    requires Compresses(a, lines) && Compresses(b, lines) && a != [] && b != []
    ensures a[|a| - 1].first <= b[|b| - 1].first
  {
    var r, q := a[|a| - 1], b[|b| - 1];
    LastRange(a, lines);
    LastRange(b, lines);
    if q.first < r.first {
      var at := |lines| - Length(r) - 1;
      assert lines[at] == Expand(q)[r.first - 1 - q.first] == r.first - 1;
      LastRange(a[..|a| - 1], lines[..|lines| - Length(r)]);
    }
  }

  /** A list has only one compression. */
  lemma {:induction false} CompressionIsUnique(a: seq<Range>, b: seq<Range>, lines: seq<int>)
    requires Compresses(a, lines) && Compresses(b, lines)
    ensures a == b
    decreases |a|
  {
    if a == [] || b == [] {
      if a != [] { LastRange(a, lines); }
      if b != [] { LastRange(b, lines); }
    } else {
      var r := a[|a| - 1];
      assert r == b[|b| - 1] by {
        LastRangeNotLonger(a, b, lines);
        LastRangeNotLonger(b, a, lines);
        LastRange(a, lines);
        LastRange(b, lines);
      }
      var rest := lines[..|Flatten(a[..|a| - 1])|];
      assert Compresses(a[..|a| - 1], rest) && Compresses(b[..|b| - 1], rest) by {
        LastRange(a, lines);
        LastRange(b, lines);
      }
      CompressionIsUnique(a[..|a| - 1], b[..|b| - 1], rest);
      assert a == a[..|a| - 1] + [r] && b == b[..|b| - 1] + [r];
    }
  }

  lemma LastGap(ranges: seq<Range>, lines: seq<int>)
    requires Compresses(ranges, lines) && StrictlyIncreasing(lines) && |ranges| > 1
    ensures ranges[|ranges| - 2].last + 1 < ranges[|ranges| - 1].first
  {
    var r, init := ranges[|ranges| - 1], ranges[..|ranges| - 1];
    var rest := lines[..|lines| - Length(r)];
    LastRange(ranges, lines);
    LastRange(init, rest);
    assert lines[|rest|] == Expand(r)[0] == r.first;
    assert lines[|rest| - 1] == rest[|rest| - 1] == init[|init| - 1].last;
  }

  /** The ranges of an increasing list ascend with a gap of at least one line between them. */
  lemma {:induction false} GapsBetween(ranges: seq<Range>, lines: seq<int>)
    requires Compresses(ranges, lines) && StrictlyIncreasing(lines)
    ensures forall i :: 0 < i < |ranges| ==> ranges[i - 1].last + 1 < ranges[i].first
    decreases |ranges|
  {
    if |ranges| > 1 {
      LastGap(ranges, lines);
      LastRange(ranges, lines);
      GapsBetween(ranges[..|ranges| - 1], lines[..|lines| - Length(ranges[|ranges| - 1])]);
    }
  }

  lemma {:induction false} DedupOfIncreasing(lines: seq<int>)
    requires StrictlyIncreasing(lines)
    ensures Dedup(lines) == lines
  {
    if lines != [] {
      var init, x := lines[..|lines| - 1], lines[|lines| - 1];
      DedupOfIncreasing(init);
      assert x !in init;
    }
  }

  /** On strictly increasing lists both compressors yield the same ranges. */
  lemma CompressorsAgree(lines: seq<int>, cli: seq<Range>, html: seq<Range>)
    requires StrictlyIncreasing(lines)
    requires Compresses(cli, SortedDistinct(lines)) && Compresses(html, lines)
    ensures cli == html
  {
    DedupOfIncreasing(lines);
    SortOfSorted(lines, Ascending());
    CompressionIsUnique(cli, html, lines);
  }

  /** For every list, the ranges of the command line report cover exactly its numbers. */
  lemma CliCoversInput(lines: seq<int>, cli: seq<Range>)
    requires Compresses(cli, SortedDistinct(lines))
    ensures forall x :: x in Flatten(cli) <==> x in lines
    ensures forall i :: 0 < i < |cli| ==> cli[i - 1].last + 1 < cli[i].first
  {
    SortedDistinctIs(lines);
    GapsBetween(cli, SortedDistinct(lines));
  }
}
