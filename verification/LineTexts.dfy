/** The line counter on texts spelled out in bytes and lines. */
module LineTexts {
  import opened LineCounts

  /** A line feed ends a line; tab to carriage return and space are blank; blanking writes spaces and keeps line feeds. */
  lemma BytesAre(b: Byte, source: seq<Byte>, covered: set<nat>, p: nat)
    requires p < |source|
    ensures Newlines([b]) == if b == 10 then 1 else 0
    ensures IsBlank(b) <==> b in {9, 10, 11, 12, 13, 32}
    ensures |Blanked(source, covered)| == |source|
    ensures Blanked(source, covered)[p] == if p in covered && source[p] != 10 then 32 else source[p]
  {
    assert [b][..0] == [];
  }

  /** Lines without line feeds, each ended by one. */
  function TextOf(lines: seq<seq<Byte>>): seq<Byte> {
    if lines == [] then [] else TextOf(lines[..|lines| - 1]) + lines[|lines| - 1] + [10]
  }

  ghost predicate AreLines(lines: seq<seq<Byte>>) {
    forall r | 0 <= r < |lines| :: 10 !in lines[r]
  }

  lemma {:induction false} NewlinesConcat(left: seq<Byte>, right: seq<Byte>)
    ensures Newlines(left + right) == Newlines(left) + Newlines(right)
  {
    if right == [] {
      assert left + right == left;
    } else {
      var n := |right| - 1;
      assert (left + right)[..|left| + n] == left + right[..n];
      NewlinesConcat(left, right[..n]);
    }
  }

  lemma {:induction false} NoNewlines(line: seq<Byte>)
    requires 10 !in line
    ensures Newlines(line) == 0
  {
    if line != [] {
      NoNewlines(line[..|line| - 1]);
    }
  }

  lemma {:induction false} NewlinesOfText(lines: seq<seq<Byte>>)
    requires AreLines(lines)
    ensures Newlines(TextOf(lines)) == |lines|
  {
    if lines != [] {
      var n := |lines| - 1;
      NewlinesOfText(lines[..n]);
      NoNewlines(lines[n]);
      NewlinesConcat(TextOf(lines[..n]), lines[n]);
      NewlinesConcat(TextOf(lines[..n]) + lines[n], [10]);
      assert [10][..0] == [];
    }
  }

  lemma SplitOneMore(bytes: seq<Byte>, b: Byte)
    ensures SplitLines(bytes + [b])
            == if b == 10 then SplitLines(bytes) + [[]]
               else SplitLines(bytes)[|SplitLines(bytes)| - 1 := SplitLines(bytes)[|SplitLines(bytes)| - 1] + [b]]
  {
    assert (bytes + [b])[..|bytes|] == bytes;
  }

  /** Splitting gives back the lines, and after them what follows the last line feed. */
  lemma {:induction false} SplitsBack(lines: seq<seq<Byte>>, last: seq<Byte>)
    requires AreLines(lines) && 10 !in last
    ensures SplitLines(TextOf(lines) + last) == lines + [last]
    decreases |lines|, |last|
  {
    hide SplitLines;
    if last != [] {
      var n := |last| - 1;
      SplitsBack(lines, last[..n]);
      assert TextOf(lines) + last == TextOf(lines) + last[..n] + [last[n]];
      SplitOneMore(TextOf(lines) + last[..n], last[n]);
      assert last[..n] + [last[n]] == last;
    } else if lines != [] {
      var n := |lines| - 1;
      SplitsBack(lines[..n], lines[n]);
      assert TextOf(lines) + last == TextOf(lines[..n]) + lines[n] + [10];
      SplitOneMore(TextOf(lines[..n]) + lines[n], 10);
      assert lines[..n] + [lines[n]] + [[]] == lines + [last];
    } else {
      SplitsNothing();
      assert TextOf(lines) + last == [];
    }
  }

  lemma SplitsNothing()
    ensures SplitLines([]) == [[]]
  {}

  /** Every line counts, and so does an unterminated last one unless it is empty. */
  lemma TotalIsLines(lines: seq<seq<Byte>>, last: seq<Byte>)
    requires AreLines(lines) && 10 !in last
    ensures Total(TextOf(lines) + last) == |lines| + if last == [] then 0 else 1
  {
    NewlinesOfText(lines);
    NoNewlines(last);
    NewlinesConcat(TextOf(lines), last);
    hide Newlines;
    if last == [] {
      assert TextOf(lines) + last == TextOf(lines);
    }
  }

  /** Byte `k` of line `r`, its line feed included, lies in row `r`. */
  lemma RowIsLine(lines: seq<seq<Byte>>, r: nat, k: nat)
    requires AreLines(lines) && r < |lines| && k <= |lines[r]|
    ensures |TextOf(lines[..r])| + k < |TextOf(lines)| && Row(TextOf(lines), |TextOf(lines[..r])| + k) == r
  {
    var before, part := TextOf(lines[..r]), lines[r][..k];
    TextPrefix(lines, r);
    assert TextOf(lines)[..|before| + k] == before + part;
    NewlinesOfText(lines[..r]);
    NoNewlines(part);
    NewlinesConcat(before, part);
  }

  lemma {:induction false} TextPrefix(lines: seq<seq<Byte>>, r: nat)
    requires r < |lines|
    ensures TextOf(lines[..r]) + lines[r] + [10] <= TextOf(lines)
  {
    var n := |lines| - 1;
    if r < n {
      assert lines[..n][..r] == lines[..r];
      TextPrefix(lines[..n], r);
    }
  }
}
