/** The expected outputs that the pybedtools tests write with `fix`. */
module BedFixCases {
  import opened PyText
  import opened BedFix

  /** An indented line of fields, whatever whitespace separates them,
      becomes the fields joined by tabs plus `\n`. */
  lemma NormalizeFields(lead: string, fields: seq<string>, sep: char, trail: string)
    requires Blank(lead) && Blank(trail) && IsSpace(sep)
    requires fields != [] && forall k :: 0 <= k < |fields| ==> IsField(fields[k])
    ensures NormalizeLine(lead + Join(fields, sep) + trail) == Join(fields, '\t') + "\n"
  {
    var j := Join(fields, sep);
    var line := lead + j + trail;
    assert SplitWs(line) == fields by {
      SplitWsAround(lead, j, trail);
      SplitWsJoin(fields, sep);
    }
    assert !Blank(line);
    NormalizeLineBlank(line);
  }

  /** A line that is already tab-delimited comes out unchanged apart from
      losing its indentation and gaining a `\n`. */
  lemma NormalizeTabDelimited(lead: string, t: string)
    requires Blank(lead) && NoBreak(lead) && TabDelimited(t)
    ensures NoBreak(lead + t)
    ensures NormalizeLine(lead + t) == t + "\n"
  {
    var fs := SplitWs(t);
    assert fs != [] by { assert !IsSpace(t[0]); }
    TabDelimitedJoin(t);
    assert lead + t == lead + Join(fs, '\t') + "";
    NormalizeFields(lead, fs, '\t', "");
    TabDelimitedNoBreak(t);
    NoBreakAppend(lead, t);
  }

  /** The loop over a single line appends that line's normal form. */
  lemma FixAllSingle(a: string)
    ensures FixAll([a]) == NormalizeLine(a)
  {
    assert [a][1..] == [];
    assert NormalizeLine(a) + "" == NormalizeLine(a);
  }

  /** Three fields joined by one separator. */
  lemma JoinThree(a: string, b: string, c: string, sep: char)
    ensures Join([a, b, c], sep) == a + [sep] + b + [sep] + c
  {
    calc {
      Join([a, b, c], sep);
      { assert [a, b, c][1..] == [b, c]; }
      a + [sep] + Join([b, c], sep);
      { assert [b, c][1..] == [c]; }
      a + [sep] + (b + [sep] + c);
      a + [sep] + b + [sep] + c;
    }
  }

  /** A block that opens with a newline, holds one row of fields separated
      by whitespace and ends in a whitespace-only line comes out as the
      fields joined by tabs, plus `\n`. */
  lemma FixSingleRow(x: string, indent: string, fields: seq<string>, sep: char, trail: string, last: string)
    requires Blank(indent) && NoBreak(indent) && Blank(trail) && NoBreak(trail)
    requires Blank(last) && NoBreak(last)
    requires IsSpace(sep) && !IsLineBreak(sep)
    requires fields != [] && forall k :: 0 <= k < |fields| ==> IsField(fields[k])
    requires x == "\n" + indent + Join(fields, sep) + trail + "\n" + last
    ensures Fix(x) == Join(fields, '\t') + "\n"
  {
    var line := indent + Join(fields, sep) + trail;
    assert NoBreak(line) by {
      JoinNoBreak(fields, sep);
      NoBreakAppend(indent, Join(fields, sep));
      NoBreakAppend(indent + Join(fields, sep), trail);
    }
    var j := Join(fields, sep);
    calc {
      Fix(x);
      { AppendAssoc("\n", indent, j);
        AppendAssoc("\n", indent + j, trail); }
      Fix("\n" + line + "\n" + last);
      { FixRowThenBlank(line, last); }
      NormalizeLine(line);
      { NormalizeFields(indent, fields, sep, trail); }
      Join(fields, '\t') + "\n";
    }
  }

  /** Between an opening newline and a whitespace-only last line, a single
      line is all that counts. */
  lemma FixRowThenBlank(line: string, last: string)
    requires NoBreak(line) && Blank(last) && NoBreak(last)
    ensures Fix("\n" + line + "\n" + last) == NormalizeLine(line)
  {
    calc {
      Fix("\n" + line + "\n" + last);
      { assert "\n" + line + "\n" + last == "" + "\n" + (line + "\n" + last); }
      Fix("" + "\n" + (line + "\n" + last));
      { FixCons("", "\n", line + "\n" + last); NormalizeLineBlank(""); }
      Fix(line + "\n" + last);
      { FixCons(line, "\n", last); }
      NormalizeLine(line) + Fix(last);
      { FixLast(last); NormalizeLineBlank(last); }
      NormalizeLine(line);
    }
  }

  /** The expected output of `merge(d=700)`: the trailing space of the row
      and the trailing indentation line disappear, and the fields come out
      tab-separated. */
  lemma MergeExpected(x: string)
    requires x == "\n" + "    " + "chr1 155 901" + " " + "\n" + "    "
    ensures Fix(x) == "chr1\t155\t901\n"
  {
    var fields := ["chr1", "155", "901"];
    assert Join(fields, ' ') == "chr1 155 901" by { JoinThree("chr1", "155", "901", ' '); }
    assert Join(fields, '\t') == "chr1\t155\t901" by { JoinThree("chr1", "155", "901", '\t'); }
    FixSingleRow(x, "    ", fields, ' ', " ", "    ");
  }

  /** The lines of a hand-written block: each row's fields joined by `sep`
      behind the same indentation. */
  function IndentedLines(indent: string, rows: seq<seq<string>>, sep: char): (lines: seq<string>)
    ensures |lines| == |rows|
  {
    if rows == [] then [] else [indent + Join(rows[0], sep)] + IndentedLines(indent, rows[1..], sep)
  }

  /** However the rows of a block are indented and separated, `fix` writes
      them as canonical BED lines. */
  lemma {:induction false} FixAllIndented(indent: string, rows: seq<seq<string>>, sep: char)
    requires Blank(indent) && IsSpace(sep) && AllRecords(rows)
    ensures FixAll(IndentedLines(indent, rows, sep)) == Render(rows)
  {
    if rows != [] {
      var line := indent + Join(rows[0], sep);
      var lines := IndentedLines(indent, rows, sep);
      calc {
        FixAll(lines);
        { assert lines[0] == line && lines[1..] == IndentedLines(indent, rows[1..], sep); }
        NormalizeLine(line) + FixAll(IndentedLines(indent, rows[1..], sep));
        { FixAllIndented(indent, rows[1..], sep); }
        NormalizeLine(line) + Render(rows[1..]);
        { assert line == indent + Join(rows[0], sep) + ""; NormalizeFields(indent, rows[0], sep, ""); }
        Join(rows[0], '\t') + "\n" + Render(rows[1..]);
        Render(rows);
      }
    }
  }

  /** `fix` of a block that opens with a newline and whose last row has no
      newline is the rendering of its rows. */
  lemma FixBlock(x: string, indent: string, rows: seq<seq<string>>, sep: char)
    requires Blank(indent) && NoBreak(indent) && IsSpace(sep) && !IsLineBreak(sep)
    requires AllRecords(rows) && rows != []
    requires var lines := IndentedLines(indent, rows, sep);
      x == JoinLines([""] + lines[..|lines| - 1]) + lines[|lines| - 1]
    ensures Fix(x) == Render(rows)
  {
    var lines := IndentedLines(indent, rows, sep);
    IndentedNoBreak(indent, rows, sep);
    var n := |lines|;
    assert SplitLines(x) == [""] + lines by {
      var pre := [""] + lines[..n - 1];
      forall k | 0 <= k < |pre| ensures NoBreak(pre[k]) {
        if k > 0 { assert pre[k] == lines[k - 1]; }
      }
      SplitLinesUnterminated(pre, lines[n - 1]);
      assert pre + [lines[n - 1]] == [""] + lines;
    }
    calc {
      Fix(x);
      FixAll([""] + lines);
      { FixAllAppend([""], lines); FixAllSingle(""); NormalizeLineBlank(""); }
      FixAll(lines);
      { FixAllIndented(indent, rows, sep); }
      Render(rows);
    }
  }

  /** `fix` of a block that opens with a newline, ends every row with a
      newline and closes on a whitespace-only line (the indentation before
      the closing quotes) is the rendering of its rows. */
  lemma FixBlockClosed(x: string, indent: string, rows: seq<seq<string>>, sep: char, last: string)
    requires Blank(indent) && NoBreak(indent) && IsSpace(sep) && !IsLineBreak(sep)
    requires AllRecords(rows) && Blank(last) && NoBreak(last)
    requires x == JoinLines([""] + IndentedLines(indent, rows, sep)) + last
    ensures Fix(x) == Render(rows)
  {
    var lines := IndentedLines(indent, rows, sep);
    var pre := [""] + lines;
    IndentedNoBreak(indent, rows, sep);
    assert forall k :: 0 <= k < |pre| ==> NoBreak(pre[k]) by {
      forall k | 0 <= k < |pre| ensures NoBreak(pre[k]) {
        if k > 0 { assert pre[k] == lines[k - 1]; }
      }
    }
    assert FixAll(SplitLines(x)) == FixAll(pre) by {
      if last == [] {
        assert x == JoinLines(pre);
        SplitLinesJoinLines(pre);
      } else {
        SplitLinesUnterminated(pre, last);
        FixAllSnoc(pre, last);
        NormalizeLineBlank(last);
      }
    }
    calc {
      Fix(x);
      FixAll(pre);
      { FixAllAppend([""], lines); FixAllSingle(""); NormalizeLineBlank(""); }
      FixAll(lines);
      { FixAllIndented(indent, rows, sep); }
      Render(rows);
    }
  }

  /** The lines of a block are non-empty and contain no line break. */
  lemma {:induction false} IndentedNoBreak(indent: string, rows: seq<seq<string>>, sep: char)
    requires NoBreak(indent) && !IsLineBreak(sep) && AllRecords(rows)
    ensures forall k :: 0 <= k < |rows| ==>
      NoBreak(IndentedLines(indent, rows, sep)[k]) && IndentedLines(indent, rows, sep)[k] != []
  {
    if rows != [] {
      IndentedNoBreak(indent, rows[1..], sep);
      var lines := IndentedLines(indent, rows, sep);
      forall k | 0 <= k < |rows| ensures NoBreak(lines[k]) && lines[k] != [] {
        if k == 0 {
          assert |Join(rows[0], sep)| >= |rows[0][0]|;
          JoinNoBreak(rows[0], sep);
          var line := indent + Join(rows[0], sep);
          forall j | 0 <= j < |line| ensures !IsLineBreak(line[j]) {
            if j >= |indent| { assert line[j] == Join(rows[0], sep)[j - |indent|]; }
          }
        } else {
          assert lines[k] == IndentedLines(indent, rows[1..], sep)[k - 1];
        }
      }
    }
  }

  /** Joining break-free fields with a separator that is not a line break
      gives one line. */
  lemma {:induction false} JoinNoBreak(fields: seq<string>, sep: char)
    requires !IsLineBreak(sep)
    requires forall k :: 0 <= k < |fields| ==> IsField(fields[k])
    ensures NoBreak(Join(fields, sep))
  {
    if |fields| > 1 {
      JoinNoBreak(fields[1..], sep);
      var f := fields[0];
      var rest := Join(fields[1..], sep);
      var s := f + [sep] + rest;
      forall j | 0 <= j < |s| ensures !IsLineBreak(s[j]) {
        if j > |f| { assert s[j] == rest[j - |f| - 1]; }
      }
    }
  }

  /** An indented tab-delimited row ended by `\n` comes out as the row
      itself, ahead of whatever follows. */
  lemma FixIndentedRow(indent: string, t: string, rest: string)
    requires Blank(indent) && NoBreak(indent) && TabDelimited(t)
    ensures Fix(indent + t + "\n" + rest) == t + "\n" + Fix(rest)
  {
    NormalizeTabDelimited(indent, t);
    FixCons(indent + t, "\n", rest);
  }

  /** The same row last, with no newline after it. */
  lemma FixIndentedLastRow(indent: string, t: string)
    requires Blank(indent) && NoBreak(indent) && TabDelimited(t)
    ensures Fix(indent + t) == t + "\n"
  {
    NormalizeTabDelimited(indent, t);
    FixLast(indent + t);
  }

  /** Regrouping a block written row after row into its last row. */
  lemma NestLast(p: string, indent: string, t: string)
    ensures p + "\n" + indent + t == p + "\n" + (indent + t)
  {
    AppendAssoc(p + "\n", indent, t);
  }

  /** Regrouping a block written row after row: one more row joins the
      already grouped tail. */
  lemma NestRow(p: string, indent: string, t: string, r: string)
    ensures p + "\n" + indent + t + "\n" + r == p + "\n" + (indent + t + "\n" + r)
  {
    var q := p + "\n";
    AppendAssoc(q, indent, t);
    AppendAssoc(q, indent + t, "\n");
    AppendAssoc(q, indent + t + "\n", r);
  }

  /** Regrouping the opening row of a block. */
  lemma NestFirst(indent: string, t: string, r: string)
    ensures "\n" + indent + t + "\n" + r == "" + "\n" + (indent + t + "\n" + r)
  {
    NestRow("", indent, t, r);
    assert "" + "\n" == "\n";
  }

  /** A block of four indented tab-delimited rows, opened by a newline and
      with no newline after the last row, as the tests write it. */
  lemma FixIndentedFour(x: string, indent: string, t1: string, t2: string, t3: string, t4: string)
    requires Blank(indent) && NoBreak(indent)
    requires TabDelimited(t1) && TabDelimited(t2) && TabDelimited(t3) && TabDelimited(t4)
    requires x == "\n" + indent + t1 + "\n" + indent + t2 + "\n" + indent + t3 + "\n" + indent + t4
    ensures Fix(x) == t1 + "\n" + t2 + "\n" + t3 + "\n" + t4 + "\n"
  {
    var r4 := indent + t4;
    var r3 := indent + t3 + "\n" + r4;
    var r2 := indent + t2 + "\n" + r3;
    var r1 := indent + t1 + "\n" + r2;
    var a1 := "\n" + indent + t1;
    var a2 := a1 + "\n" + indent + t2;
    var a3 := a2 + "\n" + indent + t3;
    assert x == "" + "\n" + r1 by {
      calc {
        x;
        { NestLast(a3, indent, t4); }
        a3 + "\n" + r4;
        { NestRow(a2, indent, t3, r4); }
        a2 + "\n" + r3;
        { NestRow(a1, indent, t2, r3); }
        a1 + "\n" + r2;
        { NestFirst(indent, t1, r2); }
        "" + "\n" + r1;
      }
    }
    calc {
      Fix(x);
      Fix("" + "\n" + r1);
      { FixCons("", "\n", r1); NormalizeLineBlank(""); }
      Fix(r1);
      { FixIndentedRow(indent, t1, r2); }
      t1 + "\n" + Fix(r2);
      { FixIndentedRow(indent, t2, r3); }
      t1 + "\n" + (t2 + "\n" + Fix(r3));
      { FixIndentedRow(indent, t3, r4); }
      t1 + "\n" + (t2 + "\n" + (t3 + "\n" + Fix(r4)));
      { FixIndentedLastRow(indent, t4); }
      t1 + "\n" + (t2 + "\n" + (t3 + "\n" + (t4 + "\n")));
      t1 + "\n" + t2 + "\n" + t3 + "\n" + t4 + "\n";
    }
  }

  /** A block of five indented tab-delimited rows, opened by a newline and
      with no newline after the last row. */
  lemma FixIndentedFive(x: string, indent: string, t1: string, t2: string, t3: string, t4: string, t5: string)
    requires Blank(indent) && NoBreak(indent)
    requires TabDelimited(t1) && TabDelimited(t2) && TabDelimited(t3) && TabDelimited(t4) && TabDelimited(t5)
    requires x == "\n" + indent + t1 + "\n" + indent + t2 + "\n" + indent + t3 + "\n" + indent + t4 + "\n" + indent + t5
    ensures Fix(x) == t1 + "\n" + t2 + "\n" + t3 + "\n" + t4 + "\n" + t5 + "\n"
  {
    var r5 := indent + t5;
    var r4 := indent + t4 + "\n" + r5;
    var r3 := indent + t3 + "\n" + r4;
    var r2 := indent + t2 + "\n" + r3;
    var r1 := indent + t1 + "\n" + r2;
    var a1 := "\n" + indent + t1;
    var a2 := a1 + "\n" + indent + t2;
    var a3 := a2 + "\n" + indent + t3;
    var a4 := a3 + "\n" + indent + t4;
    assert x == "" + "\n" + r1 by {
      calc {
        x;
        { NestLast(a4, indent, t5); }
        a4 + "\n" + r5;
        { NestRow(a3, indent, t4, r5); }
        a3 + "\n" + r4;
        { NestRow(a2, indent, t3, r4); }
        a2 + "\n" + r3;
        { NestRow(a1, indent, t2, r3); }
        a1 + "\n" + r2;
        { NestFirst(indent, t1, r2); }
        "" + "\n" + r1;
      }
    }
    calc {
      Fix(x);
      Fix("" + "\n" + r1);
      { FixCons("", "\n", r1); NormalizeLineBlank(""); }
      Fix(r1);
      { FixIndentedRow(indent, t1, r2); }
      t1 + "\n" + Fix(r2);
      { FixIndentedRow(indent, t2, r3); }
      t1 + "\n" + (t2 + "\n" + Fix(r3));
      { FixIndentedRow(indent, t3, r4); }
      t1 + "\n" + (t2 + "\n" + (t3 + "\n" + Fix(r4)));
      { FixIndentedRow(indent, t4, r5); }
      t1 + "\n" + (t2 + "\n" + (t3 + "\n" + (t4 + "\n" + Fix(r5))));
      { FixIndentedLastRow(indent, t5); }
      t1 + "\n" + (t2 + "\n" + (t3 + "\n" + (t4 + "\n" + (t5 + "\n"))));
      t1 + "\n" + t2 + "\n" + t3 + "\n" + t4 + "\n" + t5 + "\n";
    }
  }

  /** One loop pass turns a single word into that word plus `\n`. */
  lemma NormalizeWord(w: string)
    requires IsField(w)
    ensures NormalizeLine(w) == w + "\n"
  {
    assert Join([w], ' ') == w && Join([w], '\t') == w;
    assert w == "" + Join([w], ' ') + "";
    NormalizeFields("", [w], ' ', "");
  }

  /** Two words on lines of their own, whatever terminator separates them,
      come out as two records. */
  lemma FixTwoWords(a: string, t: string, b: string)
    requires IsField(a) && IsField(b) && IsTerminator(t, b)
    ensures Fix(a + t + b) == a + "\n" + b + "\n"
  {
    calc {
      Fix(a + t + b);
      { FixCons(a, t, b); }
      NormalizeLine(a) + Fix(b);
      { NormalizeWord(a); FixLast(b); NormalizeWord(b); }
      a + "\n" + (b + "\n");
      { AppendAssoc(a + "\n", b, "\n"); }
      a + "\n" + b + "\n";
    }
  }

  /** The two sample words are `split()` fields. */
  lemma SampleWords()
    ensures IsField("a") && IsField("b")
  {
  }

  /** A lone `\r` ends a line just as `\n` does: it separates two records
      and is never joined into a line as whitespace. */
  lemma FixLoneCr(x: string)
    requires x == "a" + "\r" + "b"
    ensures Fix(x) == "a" + "\n" + "b" + "\n"
  {
    SampleWords();
    FixTwoWords("a", "\r", "b");
  }

  /** `\r\n` is one line terminator: it separates two records and opens no
      empty line between them. */
  lemma FixCrLf(x: string)
    requires x == "a" + "\r\n" + "b"
    ensures Fix(x) == "a" + "\n" + "b" + "\n"
  {
    SampleWords();
    FixTwoWords("a", "\r\n", "b");
  }

  /** A `\r` at the very end ends the last line and opens no empty one. */
  lemma FixTrailingCr(x: string)
    requires x == "a" + "\r"
    ensures Fix(x) == "a" + "\n"
  {
    var a := "a";
    SampleWords();
    calc {
      Fix(x);
      { assert x == a + "\r" + ""; FixCons(a, "\r", ""); }
      NormalizeLine(a) + Fix("");
      { FixLast(""); NormalizeLineBlank(""); NormalizeWord(a); }
      a + "\n";
    }
  }

  /** The first two rows of the expected `subtract` output are
      tab-delimited. */
  lemma SubtractRowsHead()
    ensures TabDelimited("chr1\t1\t100\tfeature1\t0\t+")
    ensures TabDelimited("chr1\t100\t155\tfeature2\t0\t+")
  {
  }

  /** The middle row of the expected `subtract` output is tab-delimited. */
  lemma SubtractRowMiddle()
    ensures TabDelimited("chr1\t150\t155\tfeature3\t0\t-")
  {
  }

  /** The last two rows of the expected `subtract` output are
      tab-delimited. */
  lemma SubtractRowsTail()
    ensures TabDelimited("chr1\t200\t500\tfeature3\t0\t-")
    ensures TabDelimited("chr1\t901\t950\tfeature4\t0\t+")
  {
  }

  /** The expected output of the strand-blind `subtract`: a block that
      opens with a newline, indents each tab-separated row by four spaces
      and has no newline after the last row comes out as the bare rows,
      each ended by `\n`.  Each row is written as indentation plus row
      text so that the rows read as in the test. */
  lemma SubtractExpected(x: string)
    requires x == "\n"
      + "    " + "chr1\t1\t100\tfeature1\t0\t+" + "\n"
      + "    " + "chr1\t100\t155\tfeature2\t0\t+" + "\n"
      + "    " + "chr1\t150\t155\tfeature3\t0\t-" + "\n"
      + "    " + "chr1\t200\t500\tfeature3\t0\t-" + "\n"
      + "    " + "chr1\t901\t950\tfeature4\t0\t+"
    ensures Fix(x) ==
        "chr1\t1\t100\tfeature1\t0\t+" + "\n"
      + "chr1\t100\t155\tfeature2\t0\t+" + "\n"
      + "chr1\t150\t155\tfeature3\t0\t-" + "\n"
      + "chr1\t200\t500\tfeature3\t0\t-" + "\n"
      + "chr1\t901\t950\tfeature4\t0\t+" + "\n"
  {
    SubtractRowsHead();
    SubtractRowMiddle();
    SubtractRowsTail();
    FixIndentedFive(x, "    ",
      "chr1\t1\t100\tfeature1\t0\t+",
      "chr1\t100\t155\tfeature2\t0\t+",
      "chr1\t150\t155\tfeature3\t0\t-",
      "chr1\t200\t500\tfeature3\t0\t-",
      "chr1\t901\t950\tfeature4\t0\t+");
  }

  /** The first two rows of the expected `center` output are
      tab-delimited. */
  lemma CenterRowsHead()
    ensures TabDelimited("chr1\t45\t55\tfeature1\t0\t+")
    ensures TabDelimited("chr1\t145\t155\tfeature2\t0\t+")
  {
  }

  /** The last two rows of the expected `center` output are
      tab-delimited. */
  lemma CenterRowsTail()
    ensures TabDelimited("chr1\t320\t330\tfeature3\t0\t-")
    ensures TabDelimited("chr1\t920\t930\tfeature4\t0\t+")
  {
  }

  /** The expected output of `center(width=10)` applied to every feature:
      four indented tab-separated rows, the last without a newline, come
      out as the bare rows, each ended by `\n`. */
  lemma CenterExpected(x: string)
    requires x == "\n"
      + "    " + "chr1\t45\t55\tfeature1\t0\t+" + "\n"
      + "    " + "chr1\t145\t155\tfeature2\t0\t+" + "\n"
      + "    " + "chr1\t320\t330\tfeature3\t0\t-" + "\n"
      + "    " + "chr1\t920\t930\tfeature4\t0\t+"
    ensures Fix(x) ==
        "chr1\t45\t55\tfeature1\t0\t+" + "\n"
      + "chr1\t145\t155\tfeature2\t0\t+" + "\n"
      + "chr1\t320\t330\tfeature3\t0\t-" + "\n"
      + "chr1\t920\t930\tfeature4\t0\t+" + "\n"
  {
    CenterRowsHead();
    CenterRowsTail();
    FixIndentedFour(x, "    ",
      "chr1\t45\t55\tfeature1\t0\t+",
      "chr1\t145\t155\tfeature2\t0\t+",
      "chr1\t320\t330\tfeature3\t0\t-",
      "chr1\t920\t930\tfeature4\t0\t+");
  }
}
