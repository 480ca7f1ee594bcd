/** What a port field says: the texts that stand for a port, for a range, and for a list of ranges. */
module PortText {
  import opened Sequences
  import opened Text
  import opened PortRanges

  function Digit(n: nat): char
    requires n < 10
  {
    '0' + n as char
  }

  /** The usual way to write a number. */
  function Decimal(n: nat): string {
    if n < 10 then [Digit(n)] else Decimal(n / 10) + [Digit(n % 10)]
  }

  function Zeros(k: nat): string {
    if k == 0 then "" else Zeros(k - 1) + "0"
  }

  /** The text is a port number, leading zeros allowed. */
  ghost predicate Writes(s: string, port: nat) {
    1 <= port <= 65535 && exists k: nat :: s == Zeros(k) + Decimal(port)
  }

  lemma {:induction false} ZerosRead(k: nat)
    ensures Digits(Zeros(k)) == Some(0)
  {
    if k > 0 {
      ZerosRead(k - 1);
      assert Zeros(k)[..|Zeros(k)| - 1] == Zeros(k - 1);
    }
  }

  lemma {:induction false} DecimalReads(k: nat, n: nat)
    ensures Digits(Zeros(k) + Decimal(n)) == Some(n)
    decreases n
  {
    var s := Zeros(k) + Decimal(n);
    if n < 10 {
      ZerosRead(k);
      assert s[..|s| - 1] == Zeros(k);
    } else {
      DecimalReads(k, n / 10);
      assert s[..|s| - 1] == Zeros(k) + Decimal(n / 10);
    }
  }

  lemma {:induction false} DigitsAreZeros(s: string)
    requires Digits(s) == Some(0)
    ensures s == Zeros(|s|)
  {
    if s != "" {
      DigitsAreZeros(s[..|s| - 1]);
      assert s == s[..|s| - 1] + [s[|s| - 1]];
    }
  }

  lemma {:induction false} DigitsAreDecimal(s: string, n: nat) returns (k: nat)
    requires Digits(s) == Some(n) && n > 0
    ensures s == Zeros(k) + Decimal(n)
  {
    var front, last := s[..|s| - 1], s[|s| - 1];
    assert s == front + [last];
    var m := Digits(front).value;
    assert n == 10 * m + (last as int - '0' as int);
    if m == 0 {
      DigitsAreZeros(front);
      k := |front|;
    } else {
      k := DigitsAreDecimal(front, m);
      assert n / 10 == m && Digit(n % 10) == last;
      assert Zeros(k) + Decimal(n) == (Zeros(k) + Decimal(m)) + [last];
    }
  }

  /** A port is accepted exactly for the texts that write it. */
  lemma PortIsWritten(s: string, port: nat)
    ensures ParsePort(s) == Some(port) <==> Writes(s, port)
  {
    if ParsePort(s) == Some(port) {
      var k := DigitsAreDecimal(s, port);
    }
    if Writes(s, port) {
      var k: nat :| s == Zeros(k) + Decimal(port);
      DecimalReads(k, port);
    }
  }

  /** The text is a single port, or two of them around a hyphen in the right order. */
  ghost predicate WritesRange(s: string, r: Range) {
    || (r.start == r.end && Writes(s, r.start))
    || exists a, b :: s == a + "-" + b && Writes(a, r.start) && Writes(b, r.end) && r.start <= r.end
  }

  lemma {:induction false} CutIsWhole(s: string, c: char)
    ensures var (head, tail) := Cut(s, c);
      c !in head && s == head + (if tail.None? then "" else [c] + tail.value)
  {
    if s != "" && s[0] != c {
      CutIsWhole(s[1..], c);
      assert s == [s[0]] + s[1..];
    }
  }

  lemma {:induction false} CutAt(head: string, c: char, rest: string)
    requires c !in head
    ensures Cut(head, c) == (head, None)
    ensures Cut(head + [c] + rest, c) == (head, Some(rest))
  {
    if head == "" {
      assert head + [c] + rest == [c] + rest;
    } else {
      CutAt(head[1..], c, rest);
      var s := head + [c] + rest;
      assert s[0] == head[0] && s[1..] == head[1..] + [c] + rest;
      assert head == [head[0]] + head[1..];
    }
  }

  lemma {:induction false} DigitsHaveNoHyphen(s: string, c: char)
    requires Digits(s).Some? && !('0' <= c <= '9')
    ensures c !in s
  {
    if s != "" {
      DigitsHaveNoHyphen(s[..|s| - 1], c);
      assert s == s[..|s| - 1] + [s[|s| - 1]];
    }
  }

  /** A part is accepted exactly for the texts that write its range, with white space around them or not. */
  lemma RangeIsWritten(part: string, r: Range)
    ensures ParseRange(part) == Some(r) <==> WritesRange(Trim(part), r)
  {
    hide Trim, Digits, Writes;
    var s := Trim(part);
    var (startText, endText) := Cut(s, '-');
    CutIsWhole(s, '-');
    if ParseRange(part) == Some(r) {
      PortIsWritten(startText, r.start);
      if endText.None? {
        assert s == startText;
      } else {
        PortIsWritten(endText.value, r.end);
        assert s == startText + "-" + endText.value;
      }
    }
    if r.start == r.end && Writes(s, r.start) {
      PortIsWritten(s, r.start);
      PortHasNoHyphen(s);
      CutAt(s, '-', "");
    } else if a, b :| s == a + "-" + b && Writes(a, r.start) && Writes(b, r.end) && r.start <= r.end {
      PortIsWritten(a, r.start);
      PortIsWritten(b, r.end);
      PortHasNoHyphen(a);
      CutAt(a, '-', b);
    }
  }

  lemma PortHasNoHyphen(s: string)
    requires ParsePort(s).Some?
    ensures '-' !in s
  {
    DigitsHaveNoHyphen(s, '-');
  }

  function Join(parts: seq<string>): string
    requires parts != []
  {
    if |parts| == 1 then parts[0] else parts[0] + "," + Join(parts[1..])
  }

  ghost predicate NoCommas(parts: seq<string>) {
    forall p :: p in parts ==> ',' !in p
  }

  lemma {:induction false} SplitJoins(s: string)
    ensures Join(Split(s, ',')) == s && NoCommas(Split(s, ','))
    decreases |s|
  {
    var (head, tail) := Cut(s, ',');
    CutIsWhole(s, ',');
    CutShortens(s, ',');
    if tail.Some? {
      SplitJoins(tail.value);
      var parts := Split(s, ',');
      assert parts[1..] == Split(tail.value, ',');
      assert parts[0] + "," + Join(parts[1..]) == s;
    }
  }

  lemma {:induction false} JoinSplits(parts: seq<string>)
    requires parts != [] && NoCommas(parts)
    ensures Split(Join(parts), ',') == parts
  {
    assert parts[0] in parts;
    if |parts| == 1 {
      CutAt(parts[0], ',', "");
    } else {
      JoinSplits(parts[1..]);
      CutAt(parts[0], ',', Join(parts[1..]));
      assert Join(parts) == parts[0] + [','] + Join(parts[1..]);
      assert parts == [parts[0]] + parts[1..];
    }
  }

  lemma {:induction false} AllAreParsed(parts: seq<string>, ranges: seq<Range>)
    ensures ParseAll(parts) == Some(ranges) <==>
      |parts| == |ranges| && forall i :: 0 <= i < |parts| ==> ParseRange(parts[i]) == Some(ranges[i])
  {
    hide ParseRange;
    if parts != [] {
      var n := |parts| - 1;
      if ranges != [] {
        AllAreParsed(parts[..n], ranges[..|ranges| - 1]);
        assert ranges == ranges[..|ranges| - 1] + [ranges[|ranges| - 1]];
      }
      var front := ParseAll(parts[..n]);
      if front.Some? {
        AllAreParsed(parts[..n], front.value);
      }
    }
  }

  /** The field is a list of parts, separated by commas, that write these ranges in this order. */
  ghost predicate WritesList(value: string, ranges: seq<Range>) {
    exists parts :: WrittenAs(value, parts, ranges)
  }

  ghost predicate WrittenAs(value: string, parts: seq<string>, ranges: seq<Range>) {
    && parts != [] && |parts| == |ranges| && NoCommas(parts) && value == Join(parts)
    && forall i :: 0 <= i < |parts| ==> WritesRange(Trim(parts[i]), ranges[i])
  }

  /** What a port field stands for: exactly the ranges it writes, provided no white space surrounds it. */
  lemma ListIsWritten(value: string, ranges: seq<Range>)
    ensures Listed(value) == Some(ranges) <==> value != "" && Trim(value) == value && WritesList(value, ranges)
  {
    hide Trim, ParseRange, WritesRange, Split, Join, ParseAll, NoCommas;
    if Listed(value) == Some(ranges) {
      var parts := Split(value, ',');
      SplitJoins(value);
      AllAreParsed(parts, ranges);
      forall i | 0 <= i < |parts| ensures WritesRange(Trim(parts[i]), ranges[i]) {
        RangeIsWritten(parts[i], ranges[i]);
      }
      assert WrittenAs(value, parts, ranges);
    }
    if parts :| WrittenAs(value, parts, ranges) {
      JoinSplits(parts);
      forall i | 0 <= i < |parts| ensures ParseRange(parts[i]) == Some(ranges[i]) {
        RangeIsWritten(parts[i], ranges[i]);
      }
      AllAreParsed(parts, ranges);
    }
  }
}
