/**
 Counting a Rust file's production and test lines: test-only byte ranges are blanked in place
 and the rows they touch are collected; then lines are counted. The ranges come from a parser
 and may overlap and arrive in any order.
 */
module LineCounts {

  type Byte = n: nat | n < 256

  const NEWLINE: Byte := 10
  const SPACE: Byte := 32

  datatype Range = Range(start: nat, end: nat)

  datatype Counts = Counts(production: nat, tests: nat, total: nat)

  /** ASCII white space, which `strip` removes. */
  predicate IsBlank(b: Byte) {
    b == SPACE || 9 <= b <= 13
  }

  function Newlines(bytes: seq<Byte>): nat {
    if bytes == [] then 0
    else Newlines(bytes[..|bytes| - 1]) + if bytes[|bytes| - 1] == NEWLINE then 1 else 0
  }

  /** The row of byte `p`. */
  function Row(bytes: seq<Byte>, p: nat): nat
    requires p <= |bytes|
  {
    Newlines(bytes[..p])
  }

  lemma RowStep(bytes: seq<Byte>, p: nat)
    requires p < |bytes|
    ensures Row(bytes, p + 1) == Row(bytes, p) + if bytes[p] == NEWLINE then 1 else 0
  {
    assert bytes[..p + 1][..p] == bytes[..p];
  }

  lemma {:induction false} RowMonotone(bytes: seq<Byte>, p: nat, q: nat)
    requires p <= q <= |bytes|
    ensures Row(bytes, p) <= Row(bytes, q)
    decreases q
  {
    if p < q {
      RowMonotone(bytes, p, q - 1);
      RowStep(bytes, q - 1);
    }
  }

  /** Rows are met one by one: every row between those of two bytes has a byte between them. */
  lemma {:induction false} RowReached(bytes: seq<Byte>, p: nat, q: nat, r: nat) returns (at: nat)
    requires p <= q <= |bytes| && Row(bytes, p) <= r <= Row(bytes, q)
    ensures p <= at <= q && Row(bytes, at) == r
    decreases q
  {
    if r == Row(bytes, q) {
      at := q;
    } else {
      RowStep(bytes, q - 1);
      at := RowReached(bytes, p, q - 1, r);
    }
  }

  // ----- the specification: a function of the source and the set of test-only bytes

  predicate InSource(source: seq<Byte>, ranges: seq<Range>) {
    forall k | 0 <= k < |ranges| :: ranges[k].start < ranges[k].end <= |source|
  }

  /** The numbers from `low` up to but not including `high`. */
  function Interval(low: nat, high: nat): (numbers: set<nat>)
    ensures forall n :: n in numbers <==> low <= n < high
    ensures low <= high ==> |numbers| == high - low
    decreases high
  {
    if high <= low then {} else Interval(low, high - 1) + {high - 1}
  }

  function Bytes(range: Range): set<nat> {
    Interval(range.start, range.end)
  }

  function Covered(ranges: seq<Range>): set<nat> {
    if ranges == [] then {} else Covered(ranges[..|ranges| - 1]) + Bytes(ranges[|ranges| - 1])
  }

  function Blanked(source: seq<Byte>, covered: set<nat>): seq<Byte> {
    seq(|source|, p requires 0 <= p < |source| =>
      if p in covered && source[p] != NEWLINE then SPACE else source[p])
  }

  function TestRows(source: seq<Byte>, covered: set<nat>): set<nat> {
    set p | p in covered && p < |source| :: Row(source, p)
  }

  function Total(source: seq<Byte>): nat {
    if source == [] then 0
    else Newlines(source) + if source[|source| - 1] == NEWLINE then 0 else 1
  }

  /** Some byte of the row survives blanking. */
  predicate Survives(source: seq<Byte>, covered: set<nat>, r: nat) {
    exists p | 0 <= p < |source| :: Row(source, p) == r && p !in covered && !IsBlank(source[p])
  }

  function ProductionRows(source: seq<Byte>, covered: set<nat>): set<nat> {
    set r | 0 <= r < Total(source) && (r !in TestRows(source, covered) || Survives(source, covered, r))
  }

  function Specified(source: seq<Byte>, covered: set<nat>): Counts {
    Counts(|ProductionRows(source, covered)|, |TestRows(source, covered)|, Total(source))
  }

  // ----- lines

  /** Split at newlines; a trailing newline leaves an empty last line. */
  function SplitLines(bytes: seq<Byte>): (lines: seq<seq<Byte>>)
    ensures |lines| == Newlines(bytes) + 1
  {
    if bytes == [] then [[]]
    else
      var n := |bytes| - 1;
      var before := SplitLines(bytes[..n]);
      if bytes[n] == NEWLINE then before + [[]]
      else before[|before| - 1 := before[|before| - 1] + [bytes[n]]]
  }

  /** `bool(line.strip())` */
  predicate HasText(line: seq<Byte>) {
    exists k | 0 <= k < |line| :: !IsBlank(line[k])
  }

  predicate RowHasText(bytes: seq<Byte>, r: nat) {
    exists p | 0 <= p < |bytes| :: Row(bytes, p) == r && !IsBlank(bytes[p])
  }

  lemma RowHasTextStep(bytes: seq<Byte>, r: nat)
    requires bytes != []
    ensures var n := |bytes| - 1;
            RowHasText(bytes, r)
            <==> RowHasText(bytes[..n], r) || (Newlines(bytes[..n]) == r && !IsBlank(bytes[n]))
  {
    var n := |bytes| - 1;
    var before := bytes[..n];
    assert forall p | 0 <= p <= n :: before[..p] == bytes[..p];
    if RowHasText(bytes, r) {
      var p :| 0 <= p < |bytes| && Row(bytes, p) == r && !IsBlank(bytes[p]);
      if p < n {
        assert Row(before, p) == r && before[p] == bytes[p];
      }
    }
    if RowHasText(before, r) {
      var p :| 0 <= p < n && Row(before, p) == r && !IsBlank(before[p]);
      assert Row(bytes, p) == r && before[p] == bytes[p];
    }
    if Newlines(before) == r && !IsBlank(bytes[n]) {
      assert Row(bytes, n) == r;
    }
  }

  lemma HasTextStep(line: seq<Byte>, b: Byte)
    ensures HasText(line + [b]) <==> HasText(line) || !IsBlank(b)
  {
    if !IsBlank(b) {
      assert (line + [b])[|line|] == b;
    }
    if HasText(line) {
      var k :| 0 <= k < |line| && !IsBlank(line[k]);
      assert (line + [b])[k] == line[k];
    }
  }

  /** Line r of the split holds text exactly when some byte of row r is not blank. */
  lemma {:induction false} LineIsRow(bytes: seq<Byte>, r: nat)
    requires r <= Newlines(bytes)
    ensures HasText(SplitLines(bytes)[r]) <==> RowHasText(bytes, r)
  {
    if bytes != [] {
      var n := |bytes| - 1;
      RowHasTextStep(bytes, r);
      var before := SplitLines(bytes[..n]);
      if r < |before| {
        LineIsRow(bytes[..n], r);
        HasTextStep(before[r], bytes[n]);
      } else {
        RowsEnd(bytes[..n], r);
      }
    }
  }

  lemma RowsEnd(bytes: seq<Byte>, r: nat)
    requires r > Newlines(bytes)
    ensures !RowHasText(bytes, r)
  {
    forall p | 0 <= p < |bytes| ensures Row(bytes, p) != r {
      RowMonotone(bytes, p, |bytes|);
      assert bytes[..|bytes|] == bytes;
    }
  }

  lemma {:induction false} BlankingKeepsRows(source: seq<Byte>, covered: set<nat>, p: nat)
    requires p <= |source|
    ensures Row(Blanked(source, covered), p) == Row(source, p)
  {
    if p > 0 {
      BlankingKeepsRows(source, covered, p - 1);
      RowStep(source, p - 1);
      RowStep(Blanked(source, covered), p - 1);
    }
  }

  lemma BlankedRowText(source: seq<Byte>, covered: set<nat>, r: nat)
    ensures RowHasText(Blanked(source, covered), r) <==> Survives(source, covered, r)
  {
    var blanked := Blanked(source, covered);
    forall p | 0 <= p < |source|
      ensures (Row(blanked, p) == r && !IsBlank(blanked[p]))
              <==> (Row(source, p) == r && p !in covered && !IsBlank(source[p]))
    {
      BlankingKeepsRows(source, covered, p);
    }
    if RowHasText(blanked, r) {
      var p :| 0 <= p < |blanked| && Row(blanked, p) == r && !IsBlank(blanked[p]);
      assert Row(source, p) == r && p !in covered && !IsBlank(source[p]);
    }
    if Survives(source, covered, r) {
      var p :| 0 <= p < |source| && Row(source, p) == r && p !in covered && !IsBlank(source[p]);
      assert Row(blanked, p) == r && !IsBlank(blanked[p]);
    }
  }

  // ----- the code

  lemma RangeRows(source: seq<Byte>, range: Range)
    requires range.start < range.end <= |source|
    ensures Interval(Row(source, range.start), Row(source, range.end - 1) + 1)
            == TestRows(source, Bytes(range))
  {
    var first, last := Row(source, range.start), Row(source, range.end - 1);
    forall r | first <= r <= last ensures r in TestRows(source, Bytes(range)) {
      var p := RowReached(source, range.start, range.end - 1, r);
      assert p in Bytes(range);
    }
    forall r | r in TestRows(source, Bytes(range)) ensures first <= r <= last {
      var p :| p in Bytes(range) && p < |source| && Row(source, p) == r;
      RowMonotone(source, range.start, p);
      RowMonotone(source, p, range.end - 1);
    }
  }

  lemma TestRowsUnion(source: seq<Byte>, a: set<nat>, b: set<nat>)
    ensures TestRows(source, a + b) == TestRows(source, a) + TestRows(source, b)
  {}

  method BlankRange(remaining: array<Byte>, source: seq<Byte>, range: Range, ghost covered: set<nat>)
    requires range.start < range.end <= |source| == remaining.Length
    requires remaining[..] == Blanked(source, covered)
    modifies remaining
    ensures remaining[..] == Blanked(source, covered + Bytes(range))
  {
    ghost var before := remaining[..];
    for p := range.start to range.end
      invariant forall q | 0 <= q < remaining.Length ::
        remaining[q] == if range.start <= q < p then (if source[q] == NEWLINE then NEWLINE else SPACE) else before[q]
    {
      remaining[p] := if source[p] == NEWLINE then NEWLINE else SPACE;
    }
  }

  lemma NothingBlanked(source: seq<Byte>)
    ensures Blanked(source, {}) == source && TestRows(source, {}) == {}
  {}

  lemma CoveredStep(ranges: seq<Range>, k: nat)
    requires k < |ranges|
    ensures Covered(ranges[..k + 1]) == Covered(ranges[..k]) + Bytes(ranges[k])
  {
    hide Bytes;
    assert ranges[..k + 1][..k] == ranges[..k];
  }

  lemma RangeInSource(source: seq<Byte>, ranges: seq<Range>, k: nat)
    requires InSource(source, ranges) && k < |ranges|
    ensures ranges[k].start < ranges[k].end <= |source|
  {}

  /** What one more range adds to the covered bytes and to their rows. */
  lemma OneMoreRange(source: seq<Byte>, ranges: seq<Range>, k: nat)
    requires InSource(source, ranges) && k < |ranges|
    ensures ranges[k].start < ranges[k].end <= |source|
    ensures Covered(ranges[..k + 1]) == Covered(ranges[..k]) + Bytes(ranges[k])
    ensures TestRows(source, Covered(ranges[..k + 1]))
            == TestRows(source, Covered(ranges[..k]))
               + Interval(Row(source, ranges[k].start), Row(source, ranges[k].end - 1) + 1)
  {
    hide *;
    RangeInSource(source, ranges, k);
    CoveredStep(ranges, k);
    RangeRows(source, ranges[k]);
    TestRowsUnion(source, Covered(ranges[..k]), Bytes(ranges[k]));
  }

  method CopyBytes(source: seq<Byte>) returns (copy: array<Byte>)
    ensures fresh(copy) && copy[..] == source
  {
    copy := new Byte[|source|](p requires 0 <= p < |source| => source[p]);
  }

  /** Blanking leaves exactly the bytes outside the ranges and every newline. */
  method BlankTests(source: seq<Byte>, ranges: seq<Range>) returns (remaining: array<Byte>, testRows: set<nat>)
    requires InSource(source, ranges)
    ensures fresh(remaining) && remaining[..] == Blanked(source, Covered(ranges))
    ensures testRows == TestRows(source, Covered(ranges))
  {
    assert Covered(ranges[..0]) == {} && ranges[..|ranges|] == ranges;
    hide Blanked, Row, TestRows, Bytes, Covered, InSource, Interval;
    NothingBlanked(source);
    remaining := CopyBytes(source);
    testRows := {};
    for k := 0 to |ranges|
      invariant fresh(remaining) && remaining.Length == |source|
      invariant remaining[..] == Blanked(source, Covered(ranges[..k]))
      invariant testRows == TestRows(source, Covered(ranges[..k]))
    {
      OneMoreRange(source, ranges, k);
      var first, last := Row(source, ranges[k].start), Row(source, ranges[k].end - 1);
      testRows := testRows + Interval(first, last + 1);
      BlankRange(remaining, source, ranges[k], Covered(ranges[..k]));
    }
  }

  function LinesOf(source: seq<Byte>, remaining: seq<Byte>): seq<seq<Byte>> {
    var lines := if source == [] then [] else SplitLines(remaining);
    if source != [] && source[|source| - 1] == NEWLINE then lines[..|lines| - 1] else lines
  }

  lemma LinesAreRows(source: seq<Byte>, covered: set<nat>)
    ensures var lines := LinesOf(source, Blanked(source, covered));
            && |lines| == Total(source)
            && forall r | 0 <= r < |lines| :: HasText(lines[r]) <==> Survives(source, covered, r)
  {
    var blanked := Blanked(source, covered);
    BlankingKeepsRows(source, covered, |source|);
    assert blanked[..|source|] == blanked && source[..|source|] == source;
    forall r | 0 <= r < Total(source) ensures HasText(SplitLines(blanked)[r]) <==> Survives(source, covered, r) {
      LineIsRow(blanked, r);
      BlankedRowText(source, covered, r);
    }
  }

  /** The rows that the final sum counts. */
  function CountedRows(lines: seq<seq<Byte>>, testRows: set<nat>): set<nat> {
    set r | 0 <= r < |lines| && (r !in testRows || HasText(lines[r]))
  }

  method CountRows(lines: seq<seq<Byte>>, testRows: set<nat>) returns (count: nat)
    ensures count == |CountedRows(lines, testRows)|
  {
    count := 0;
    ghost var rows: set<nat> := {};
    for r := 0 to |lines|
      invariant forall q :: q in rows <==> q < r && q in CountedRows(lines, testRows)
      invariant count == |rows|
    {
      if r !in testRows || HasText(lines[r]) {
        count := count + 1;
        rows := rows + {r};
      }
    }
    assert rows == CountedRows(lines, testRows);
  }

  /** The counts are a function of the source and the union of the ranges. */
  method CountSource(source: seq<Byte>, ranges: seq<Range>) returns (counts: Counts)
    requires InSource(source, ranges)
    ensures counts == Specified(source, Covered(ranges))
  {
    var remaining, testRows := BlankTests(source, ranges);
    var lines := LinesOf(source, remaining[..]);
    ghost var covered := Covered(ranges);
    LinesAreRows(source, covered);
    assert CountedRows(lines, testRows) == ProductionRows(source, covered);
    var production := CountRows(lines, testRows);
    counts := Counts(production, |testRows|, |lines|);
  }

  // ----- what the counts promise

  lemma {:induction false} CoveredMeans(ranges: seq<Range>, p: nat)
    ensures p in Covered(ranges) <==> exists range | range in ranges :: p in Bytes(range)
  {
    hide Bytes;
    if ranges != [] {
      var n := |ranges| - 1;
      assert ranges == ranges[..n] + [ranges[n]];
      CoveredMeans(ranges[..n], p);
    }
  }

  /** Neither the order nor the overlap of the ranges matters, only which bytes they cover. */
  lemma OrderDoesNotMatter(source: seq<Byte>, ranges: seq<Range>, others: seq<Range>)
    requires forall range :: range in ranges <==> range in others
    ensures Specified(source, Covered(ranges)) == Specified(source, Covered(others))
  {
    forall p: nat ensures p in Covered(ranges) <==> p in Covered(others) {
      CoveredMeans(ranges, p);
      CoveredMeans(others, p);
    }
    assert Covered(ranges) == Covered(others);
  }

  lemma TestRowsFit(source: seq<Byte>, covered: set<nat>)
    ensures TestRows(source, covered) <= Interval(0, Total(source))
  {
    forall p | p in covered && p < |source| ensures Row(source, p) < Total(source) {
      var n := |source| - 1;
      RowMonotone(source, p, n);
      assert source[..n + 1] == source;
      RowStep(source, n);
    }
  }

  /**
   Every line is counted: production and test lines add up to the total plus the lines that
   hold both test code and surviving production code.
   */
  lemma CountsAddUp(source: seq<Byte>, covered: set<nat>)
    ensures var counts := Specified(source, covered);
            var mixed := set r | r in TestRows(source, covered) && Survives(source, covered, r);
            && counts.production + counts.tests == counts.total + |mixed|
            && counts.production <= counts.total && counts.tests <= counts.total
  {
    var tests, production := TestRows(source, covered), ProductionRows(source, covered);
    var mixed := set r | r in tests && Survives(source, covered, r);
    TestRowsFit(source, covered);
    assert tests + production == Interval(0, Total(source));
    assert tests * production == mixed;
    hide TestRows, ProductionRows, Survives;
    Overlap(tests, production);
  }

  lemma Overlap(a: set<nat>, b: set<nat>)
    ensures |a| + |b| == |a + b| + |a * b|
    ensures |a| <= |a + b| && |b| <= |a + b|
  {
    assert a + b == a + (b - a) && a + b == b + (a - b);
    assert b == (a * b) + (b - a);
  }

  /** A file whose every byte is test-only has no production lines, and one without ranges has only those. */
  lemma Extremes(source: seq<Byte>)
    ensures Specified(source, Interval(0, |source|)) == Counts(0, Total(source), Total(source))
    ensures Specified(source, {}) == Counts(Total(source), 0, Total(source))
  {
    EveryRowHasAByte(source);
    var all := Interval(0, |source|);
    assert ProductionRows(source, all) == {} by {
      assert forall r :: !Survives(source, all, r);
    }
    assert TestRows(source, {}) == {};
    assert ProductionRows(source, {}) == Interval(0, Total(source));
  }

  lemma EveryRowHasAByte(source: seq<Byte>)
    ensures TestRows(source, Interval(0, |source|)) == Interval(0, Total(source))
  {
    var all := Interval(0, |source|);
    TestRowsFit(source, all);
    forall r | r in Interval(0, Total(source)) ensures r in TestRows(source, all) {
      var n := |source| - 1;
      assert source[..n + 1] == source;
      RowStep(source, n);
      var p := RowReached(source, 0, n, r);
      assert p in all;
    }
  }
}
