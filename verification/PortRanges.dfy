/** Port lists: the text form, the sort-then-check-neighbours test, and single ports. */
module PortRanges {
  import opened Sequences
  import opened Text

  datatype Range = Range(start: nat, end: nat)

  predicate Overlap(a: Range, b: Range) {
    a.start <= b.end && b.start <= a.end
  }

  /** The range claims the port. */
  predicate Claims(r: Range, port: nat) {
    r.start <= port <= r.end
  }

  predicate Disjoint(s: seq<Range>) {
    forall i, j :: 0 <= i < |s| && 0 <= j < |s| && i < j ==> !Overlap(s[i], s[j])
  }

  ghost predicate Proper(s: seq<Range>) {
    forall r :: r in s ==> 1 <= r.start <= r.end <= 65535
  }

  ghost predicate SortedByStart(s: seq<Range>) {
    forall i, j :: 0 <= i < j < |s| ==> s[i].start <= s[j].start
  }

  /** Overlap is what it should be: a port claimed twice. */
  lemma OverlapIsASharedPort(a: Range, b: Range)
    requires a.start <= a.end && b.start <= b.end
    ensures Overlap(a, b) <==> exists port :: Claims(a, port) && Claims(b, port)
  {
    if Overlap(a, b) {
      var port := if a.start < b.start then b.start else a.start;
      assert Claims(a, port) && Claims(b, port);
    }
  }

  // ---------------------------------------------------------------- the text form

  /** The text before the first separator, and what follows it, if there is one. */
  function Cut(s: string, separator: char): (string, Option<string>) {
    if s == "" then ("", None)
    else if s[0] == separator then ("", Some(s[1..]))
    else
      var (head, tail) := Cut(s[1..], separator);
      ([s[0]] + head, tail)
  }

  lemma CutShortens(s: string, separator: char)
    ensures Cut(s, separator).1.Some? ==> |Cut(s, separator).1.value| < |s|
  {
  }

  function Split(s: string, separator: char): (parts: seq<string>)
    ensures |parts| >= 1
    decreases |s|
  {
    CutShortens(s, separator);
    var (head, tail) := Cut(s, separator);
    if tail.None? then [head] else [head] + Split(tail.value, separator)
  }

  function Digits(s: string): Option<nat> {
    if s == "" then Some(0)
    else
      var last := s[|s| - 1];
      var front := Digits(s[..|s| - 1]);
      if front.None? || !('0' <= last <= '9') then None
      else Some(10 * front.value + (last as int - '0' as int))
  }

  /** ParseUint in base 10 with 16 bits, zero refused. */
  function ParsePort(s: string): (port: Option<nat>)
    ensures port.Some? ==> 1 <= port.value <= 65535
  {
    var value := Digits(s);
    if s == "" || value.None? || value.value == 0 || value.value > 65535 then None else value
  }

  function ParseRange(part: string): (range: Option<Range>)
    ensures range.Some? ==> 1 <= range.value.start <= range.value.end <= 65535
  {
    var (startText, endText) := Cut(Trim(part), '-');
    var start := ParsePort(startText);
    if start.None? then None
    else if endText.None? then Some(Range(start.value, start.value))
    else
      var end := ParsePort(endText.value);
      if end.None? || end.value < start.value then None else Some(Range(start.value, end.value))
  }

  function ParseAll(parts: seq<string>): (ranges: Option<seq<Range>>)
    ensures ranges.Some? ==> |ranges.value| == |parts| && Proper(ranges.value)
  {
    if parts == [] then Some([])
    else
      var front, last := ParseAll(parts[..|parts| - 1]), ParseRange(parts[|parts| - 1]);
      if front.None? || last.None? then None else Some(front.value + [last.value])
  }

  /** The ranges a port field lists, in the order in which it lists them. */
  function Listed(value: string): Option<seq<Range>> {
    if value == "" || Trim(value) != value then None else ParseAll(Split(value, ','))
  }

  lemma ListsSomething(value: string)
    requires Listed(value).Some?
    ensures Listed(value).value != [] && Proper(Listed(value).value)
  {
  }

  // ---------------------------------------------------------------- sorting

  const ByStart: (Range, Range) -> bool := (a: Range, b: Range) => a.start < b.start

  function Sort(s: seq<Range>): (r: seq<Range>)
    ensures |r| == |s|
    ensures forall y :: y in r <==> y in s
  {
    StableSort(s, ByStart)
  }

  lemma {:induction false} PlaceSorted(s: seq<Range>, x: Range)
    requires SortedByStart(s)
    ensures SortedByStart(Place(s, x, ByStart))
  {
    if s != [] && s[|s| - 1].start > x.start {
      var init, last := s[..|s| - 1], s[|s| - 1];
      PlaceSorted(init, x);
      var r := Place(init, x, ByStart);
      forall i | 0 <= i < |r| ensures r[i].start <= last.start {
        assert r[i] in init || r[i] == x;
      }
    }
  }

  lemma {:induction false} SortSorted(s: seq<Range>)
    ensures SortedByStart(Sort(s))
  {
    if s != [] {
      SortSorted(s[..|s| - 1]);
      PlaceSorted(Sort(s[..|s| - 1]), s[|s| - 1]);
    }
  }

  /** Disjointness from everything before does not depend on where a range is placed. */
  lemma AppendDisjoint(s: seq<Range>, x: Range)
    ensures Disjoint(s + [x]) <==> Disjoint(s) && forall y :: y in s ==> !Overlap(y, x)
  {
    var u := s + [x];
    if Disjoint(u) {
      forall i, j | 0 <= i < j < |s| ensures !Overlap(s[i], s[j]) {
        assert u[i] == s[i] && u[j] == s[j];
      }
      forall y | y in s ensures !Overlap(y, x) {
        var i :| 0 <= i < |s| && s[i] == y;
        assert u[i] == y && u[|s|] == x;
      }
    }
  }

  lemma {:induction false} PlaceDisjoint(s: seq<Range>, x: Range)
    ensures Disjoint(Place(s, x, ByStart)) <==> Disjoint(s) && forall y :: y in s ==> !Overlap(y, x)
  {
    AppendDisjoint(s, x);
    if s != [] && s[|s| - 1].start > x.start {
      var init, last := s[..|s| - 1], s[|s| - 1];
      PlaceDisjoint(init, x);
      AppendDisjoint(init, last);
      AppendDisjoint(Place(init, x, ByStart), last);
      assert s == init + [last] && (Overlap(x, last) <==> Overlap(last, x));
    }
  }

  lemma {:induction false} SortDisjoint(s: seq<Range>)
    ensures Disjoint(Sort(s)) <==> Disjoint(s)
  {
    if s != [] {
      var init, last := s[..|s| - 1], s[|s| - 1];
      SortDisjoint(init);
      PlaceDisjoint(Sort(init), last);
      AppendDisjoint(init, last);
      assert s == init + [last];
    }
  }

  ghost predicate NeighboursApart(s: seq<Range>) {
    forall i :: 0 < i < |s| ==> !Overlap(s[i - 1], s[i])
  }

  lemma {:induction false} EndsBefore(s: seq<Range>, i: nat, j: nat)
    requires SortedByStart(s) && Proper(s) && NeighboursApart(s) && i < j < |s|
    ensures s[i].end < s[j].start
    decreases j
  {
    assert !Overlap(s[j - 1], s[j]) && s[j - 1] in s && s[j] in s;
    if i < j - 1 {
      EndsBefore(s, i, j - 1);
    }
  }

  /** Once sorted, comparing neighbours is enough. */
  lemma NeighboursSuffice(s: seq<Range>)
    requires SortedByStart(s) && Proper(s)
    ensures NeighboursApart(s) <==> Disjoint(s)
  {
    if NeighboursApart(s) {
      forall i, j | 0 <= i < j < |s| ensures !Overlap(s[i], s[j]) {
        EndsBefore(s, i, j);
      }
    }
  }

  /** ParsePortRanges accepts exactly the lists of pairwise disjoint ranges, and returns them sorted. */
  method ParsePortRanges(value: string) returns (ranges: Option<seq<Range>>)
    ensures ranges.Some? <==> Listed(value).Some? && Disjoint(Listed(value).value)
    ensures ranges.Some? ==> ranges.value == Sort(Listed(value).value)
    ensures ranges.Some? ==>
      && SortedByStart(ranges.value) && Proper(ranges.value) && Disjoint(ranges.value) && ranges.value != []
      && forall r :: r in ranges.value <==> r in Listed(value).value
  {
    hide Sort, Split, Trim, Disjoint, SortedByStart, ParseAll;
    if value == "" || Trim(value) != value {
      return None;
    }
    var listed := ReadAll(Split(value, ','));
    if listed.None? {
      return None;
    }
    var sorted := Sort(listed.value);
    SortSorted(listed.value);
    SortDisjoint(listed.value);
    NeighboursSuffice(sorted);
    for i := 1 to |sorted|
      invariant forall j :: 0 < j < i ==> !Overlap(sorted[j - 1], sorted[j])
    {
      if Overlap(sorted[i - 1], sorted[i]) {
        return None;
      }
    }
    return Some(sorted);
  }

  method ReadAll(parts: seq<string>) returns (ranges: Option<seq<Range>>)
    ensures ranges == ParseAll(parts)
  {
    hide ParseRange;
    var listed: seq<Range> := [];
    for i := 0 to |parts|
      invariant ParseAll(parts[..i]) == Some(listed)
    {
      assert parts[..i + 1][..i] == parts[..i];
      var range := ParseRange(parts[i]);
      if range.None? {
        FailedPart(parts, i + 1);
        return None;
      }
      listed := listed + [range.value];
    }
    assert parts[..|parts|] == parts;
    return Some(listed);
  }

  lemma {:induction false} FailedPart(parts: seq<string>, n: nat)
    requires n <= |parts| && ParseAll(parts[..n]).None?
    ensures ParseAll(parts).None?
    decreases |parts| - n
  {
    if n == |parts| {
      assert parts[..n] == parts;
    } else {
      assert parts[..n + 1][..n] == parts[..n];
      FailedPart(parts, n + 1);
    }
  }

  /** Which ports a port field stands for. */
  ghost predicate Denotes(value: string, port: nat) {
    && Listed(value).Some? && Disjoint(Listed(value).value)
    && exists r :: r in Listed(value).value && Claims(r, port)
  }

  /** SinglePort: a port, exactly when the field stands for that one port and no other. */
  method SinglePort(value: string) returns (port: Option<nat>)
    ensures port.Some? <==> exists p :: DenotesOnly(value, p)
    ensures port.Some? ==> DenotesOnly(value, port.value)
  {
    hide Listed, Sort, DenotesOnly, Denotes;
    var ranges := ParsePortRanges(value);
    if ranges.None? {
      NothingDenoted(value);
      return None;
    }
    OnePortOrMore(value, ranges.value);
    if |ranges.value| != 1 || ranges.value[0].start != ranges.value[0].end {
      return None;
    }
    return Some(ranges.value[0].start);
  }

  ghost predicate DenotesOnly(value: string, port: nat) {
    forall p :: Denotes(value, p) <==> p == port
  }

  lemma NothingDenoted(value: string)
    requires Listed(value).None? || !Disjoint(Listed(value).value)
    ensures forall p :: !DenotesOnly(value, p)
  {
    hide Listed;
    forall p ensures !DenotesOnly(value, p) {
      assert !Denotes(value, p);
    }
  }

  lemma OnePortOrMore(value: string, s: seq<Range>)
    requires Listed(value).Some? && Disjoint(Listed(value).value) && Disjoint(s) && Proper(s) && s != []
    requires forall r :: r in s <==> r in Listed(value).value
    ensures |s| == 1 && s[0].start == s[0].end ==> DenotesOnly(value, s[0].start)
    ensures |s| != 1 || s[0].start != s[0].end ==> forall p :: !DenotesOnly(value, p)
  {
    hide Listed;
    assert s[0] in s && Claims(s[0], s[0].start) && Claims(s[0], s[0].end);
    assert Denotes(value, s[0].start) && Denotes(value, s[0].end);
    if |s| > 1 {
      assert s[1] in s && Claims(s[1], s[1].start) && !Overlap(s[0], s[1]);
      assert Denotes(value, s[1].start);
    }
  }
}
