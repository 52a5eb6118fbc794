/** `fix(x)`, the helper that both pybedtools test modules use to write
    expected BED output by hand: it turns loosely typed interval text into
    canonical BED lines, one record per non-blank input line, fields
    separated by single tabs and every line ended by `\n`. */
module BedFix {
  import opened PyText

  // ---------------------------------------------------------------------------
  // The helper as written
  // ---------------------------------------------------------------------------

  /** What one pass of the loop appends for `line`: nothing when the
      stripped line is empty, otherwise its `split()` fields joined by tabs
      and followed by `\n`. */
  function NormalizeLine(line: string): string {
    var i := Strip(line);
    if |i| == 0 then "" else Join(SplitWs(i), '\t') + "\n"
  }

  /** What the loop accumulates over `lines`, in order. */
  function FixAll(lines: seq<string>): string {
    if lines == [] then "" else NormalizeLine(lines[0]) + FixAll(lines[1..])
  }

  /** `fix(x)`. */
  function Fix(x: string): string {
    FixAll(SplitLines(x))
  }

  /** `fix` step by step: a loop over `x.splitlines()` that strips each
      line, skips it when empty, and otherwise appends its tab-joined fields
      and a newline to the accumulator `s`. */
  method FixLoop(x: string) returns (s: string)
    ensures s == Fix(x)
  {
    var lines := SplitLines(x);
    s := "";
    for n := 0 to |lines|
      invariant s == FixAll(lines[..n])
    {
      assert lines[..n + 1] == lines[..n] + [lines[n]];
      FixAllSnoc(lines[..n], lines[n]);
      var i := Strip(lines[n]);
      if |i| == 0 {
        continue;
      }
      var fields := SplitWs(i);
      s := s + (Join(fields, '\t') + "\n");
    }
    assert lines[..|lines|] == lines;
  }

  lemma {:induction false} FixAllAppend(p: seq<string>, q: seq<string>)
    ensures FixAll(p + q) == FixAll(p) + FixAll(q)
  {
    if p == [] {
      assert p + q == q;
    } else {
      calc {
        FixAll(p + q);
        { assert (p + q)[0] == p[0] && (p + q)[1..] == p[1..] + q; }
        NormalizeLine(p[0]) + FixAll(p[1..] + q);
        { FixAllAppend(p[1..], q); }
        NormalizeLine(p[0]) + (FixAll(p[1..]) + FixAll(q));
        { AppendAssoc(NormalizeLine(p[0]), FixAll(p[1..]), FixAll(q)); }
        FixAll(p) + FixAll(q);
      }
    }
  }

  lemma FixAllSnoc(p: seq<string>, line: string)
    ensures FixAll(p + [line]) == FixAll(p) + NormalizeLine(line)
  {
    FixAllAppend(p, [line]);
    assert FixAll([line]) == NormalizeLine(line) + FixAll([]);
  }

  // ---------------------------------------------------------------------------
  // What the helper means: records read from the non-blank lines, written
  // back one per line
  // ---------------------------------------------------------------------------

  /** A record as a BED line carries it: at least one field, and every field
      a `split()` field. */
  predicate IsRecord(r: seq<string>) {
    r != [] && forall k :: 0 <= k < |r| ==> IsField(r[k])
  }

  predicate AllRecords(rs: seq<seq<string>>) {
    forall k :: 0 <= k < |rs| ==> IsRecord(rs[k])
  }

  /** The lines of `lines` that hold a non-whitespace character, in order. */
  function NonBlank(lines: seq<string>): seq<string> {
    if lines == [] then []
    else if Blank(lines[0]) then NonBlank(lines[1..])
    else [lines[0]] + NonBlank(lines[1..])
  }

  /** The whitespace-split fields of each non-blank line, in order. */
  function RecordsOf(lines: seq<string>): seq<seq<string>> {
    if lines == [] then []
    else if Blank(lines[0]) then RecordsOf(lines[1..])
    else [SplitWs(lines[0])] + RecordsOf(lines[1..])
  }

  /** The records that `fix` reads from `x`. */
  function Records(x: string): seq<seq<string>> {
    RecordsOf(SplitLines(x))
  }

  /** Canonical BED text: each record's fields joined by tabs, then `\n`. */
  function Render(rs: seq<seq<string>>): string {
    if rs == [] then "" else Join(rs[0], '\t') + "\n" + Render(rs[1..])
  }

  /** One loop pass drops a blank line and turns any other line into its
      fields joined by single tabs plus one `\n`. */
  lemma NormalizeLineBlank(line: string)
    ensures NormalizeLine(line) == if Blank(line) then "" else Join(SplitWs(line), '\t') + "\n"
  {
    SplitWsStrip(line);
  }

  /** Every record read from any text is well formed. */
  lemma {:induction false} RecordsOfWellFormed(lines: seq<string>)
    ensures AllRecords(RecordsOf(lines))
  {
    if lines != [] {
      RecordsOfWellFormed(lines[1..]);
      var rs := RecordsOf(lines);
      if !Blank(lines[0]) {
        forall k | 0 <= k < |rs| ensures IsRecord(rs[k]) {
          if k > 0 { assert rs[k] == RecordsOf(lines[1..])[k - 1]; }
        }
      }
    }
  }

  /** There is one record per non-blank line, and the k-th record is the
      field list of the k-th non-blank line. */
  lemma {:induction false} RecordsOrder(lines: seq<string>)
    ensures |RecordsOf(lines)| == |NonBlank(lines)|
    ensures forall k :: 0 <= k < |NonBlank(lines)| ==>
      !Blank(NonBlank(lines)[k]) && RecordsOf(lines)[k] == SplitWs(NonBlank(lines)[k])
  {
    if lines != [] {
      RecordsOrder(lines[1..]);
      if !Blank(lines[0]) {
        var nb := NonBlank(lines);
        forall k | 0 <= k < |nb|
          ensures !Blank(nb[k]) && RecordsOf(lines)[k] == SplitWs(nb[k])
        {
          if k > 0 {
            assert nb[k] == NonBlank(lines[1..])[k - 1];
            assert RecordsOf(lines)[k] == RecordsOf(lines[1..])[k - 1];
          }
        }
      }
    }
  }

  /** The loop computes exactly the rendering of the records it reads. */
  lemma {:induction false} FixAllRender(lines: seq<string>)
    ensures FixAll(lines) == Render(RecordsOf(lines))
  {
    if lines != [] {
      FixAllRender(lines[1..]);
      NormalizeLineBlank(lines[0]);
      if !Blank(lines[0]) {
        assert RecordsOf(lines)[1..] == RecordsOf(lines[1..]);
      }
    }
  }

  /** `fix` renders the records it reads from its input. */
  lemma FixIsRender(x: string)
    ensures Fix(x) == Render(Records(x))
  {
    FixAllRender(SplitLines(x));
  }

  /** The lines of rendered text are the records joined by tabs, each one
      tab-delimited, and each ended by a single `\n`. */
  lemma {:induction false} RenderLines(rs: seq<seq<string>>)
    requires AllRecords(rs)
    ensures |SplitLines(Render(rs))| == |rs|
    ensures forall k :: 0 <= k < |rs| ==>
      SplitLines(Render(rs))[k] == Join(rs[k], '\t') && TabDelimited(SplitLines(Render(rs))[k])
    ensures Render(rs) == JoinLines(SplitLines(Render(rs)))
  {
    if rs != [] {
      var line := Join(rs[0], '\t');
      RenderLines(rs[1..]);
      JoinTabDelimited(rs[0]);
      assert NoBreak(line);
      SplitLinesCons(line, Render(rs[1..]));
      var out := SplitLines(Render(rs));
      assert out == [line] + SplitLines(Render(rs[1..]));
      forall k | 0 <= k < |rs|
        ensures out[k] == Join(rs[k], '\t') && TabDelimited(out[k])
      {
        if k > 0 { assert out[k] == SplitLines(Render(rs[1..]))[k - 1]; }
      }
      assert out[1..] == SplitLines(Render(rs[1..]));
    }
  }

  /** Reading records back from rendered text gives the same records: the
      partner of `Render`. */
  lemma {:induction false} RecordsRender(rs: seq<seq<string>>)
    requires AllRecords(rs)
    ensures Records(Render(rs)) == rs
  {
    if rs != [] {
      var line := Join(rs[0], '\t');
      JoinTabDelimited(rs[0]);
      assert NoBreak(line) && !Blank(line);
      SplitLinesCons(line, Render(rs[1..]));
      SplitWsJoin(rs[0], '\t');
      RecordsRender(rs[1..]);
      assert Records(Render(rs)) == [rs[0]] + Records(Render(rs[1..]));
    }
  }

  /** Running `fix` on its own output changes nothing. */
  lemma FixIdempotent(x: string)
    ensures Fix(Fix(x)) == Fix(x)
  {
    var rs := Records(x);
    FixIsRender(x);
    RecordsOfWellFormed(SplitLines(x));
    FixIsRender(Render(rs));
    RecordsRender(rs);
  }

  /** The output has one line per non-blank input line, in input order;
      each output line carries that input line's whitespace-split fields,
      is tab-delimited, and ends in exactly one `\n`. */
  lemma FixLines(x: string)
    ensures var out := SplitLines(Fix(x)); var nb := NonBlank(SplitLines(x));
      && |out| == |nb|
      && Fix(x) == JoinLines(out)
      && forall k :: 0 <= k < |out| ==> TabDelimited(out[k]) && SplitWs(out[k]) == SplitWs(nb[k])
  {
    var rs := Records(x);
    var nb := NonBlank(SplitLines(x));
    FixIsRender(x);
    RecordsOfWellFormed(SplitLines(x));
    RecordsOrder(SplitLines(x));
    RenderLines(rs);
    var out := SplitLines(Fix(x));
    forall k | 0 <= k < |out| ensures SplitWs(out[k]) == SplitWs(nb[k]) {
      SplitWsJoin(rs[k], '\t');
    }
  }

  /** Rendered text is empty or ends in `\n`, and holds no whitespace but
      tabs and newlines. */
  lemma {:induction false} RenderChars(rs: seq<seq<string>>)
    requires AllRecords(rs)
    ensures var y := Render(rs);
      && (y == [] <==> rs == [])
      && (y == [] || y[|y| - 1] == '\n')
      && forall j :: 0 <= j < |y| ==> y[j] == '\t' || y[j] == '\n' || !IsSpace(y[j])
  {
    if rs != [] {
      var line := Join(rs[0], '\t');
      var rest := Render(rs[1..]);
      RenderChars(rs[1..]);
      JoinTabDelimited(rs[0]);
      var y := line + "\n" + rest;
      forall j | 0 <= j < |y| ensures y[j] == '\t' || y[j] == '\n' || !IsSpace(y[j]) {
        if j < |line| {
          assert y[j] == line[j];
        } else if j > |line| {
          assert y[j] == rest[j - |line| - 1];
        }
      }
    }
  }

  /** The output of `fix` is empty or ends in `\n`, and contains no space,
      `\r`, `\v` or `\f`. */
  lemma FixChars(x: string)
    ensures var y := Fix(x);
      && (y == [] || y[|y| - 1] == '\n')
      && forall j :: 0 <= j < |y| ==> y[j] != ' ' && y[j] != '\r' && y[j] != '\U{000B}' && y[j] != '\U{000C}'
  {
    FixIsRender(x);
    RecordsOfWellFormed(SplitLines(x));
    RenderChars(Records(x));
  }

  /** No records are read from a list of lines exactly when every line is
      blank. */
  lemma {:induction false} RecordsOfEmpty(lines: seq<string>)
    ensures RecordsOf(lines) == [] <==> AllBlank(lines)
  {
    if lines != [] {
      RecordsOfEmpty(lines[1..]);
      AllBlankCons(lines[0], lines[1..]);
      assert lines == [lines[0]] + lines[1..];
    }
  }

  /** `fix` gives the empty string exactly for whitespace-only input,
      the empty string included. */
  lemma FixEmpty(x: string)
    ensures Fix(x) == "" <==> Blank(x)
  {
    FixIsRender(x);
    RecordsOfWellFormed(SplitLines(x));
    RenderChars(Records(x));
    RecordsOfEmpty(SplitLines(x));
    BlankSplitLines(x);
  }

  /** `fix` works line by line: a first line ended by `\n`, `\r\n` or a
      lone `\r` contributes its own normalised form ahead of the rest, and
      the terminator itself never reaches the output. */
  lemma FixCons(l: string, t: string, rest: string)
    requires NoBreak(l) && IsTerminator(t, rest)
    ensures Fix(l + t + rest) == NormalizeLine(l) + Fix(rest)
  {
    SplitLinesConsTerm(l, t, rest);
    assert ([l] + SplitLines(rest))[1..] == SplitLines(rest);
  }

  /** A last line without a newline is still normalised and ended by `\n`. */
  lemma FixLast(l: string)
    requires NoBreak(l)
    ensures Fix(l) == NormalizeLine(l)
  {
    if l != [] {
      calc {
        Fix(l);
        { SplitLinesSingle(l); }
        FixAll([l]);
        { assert [l][1..] == []; }
        NormalizeLine(l) + FixAll([]);
        NormalizeLine(l);
      }
    } else {
      NormalizeLineBlank(l);
    }
  }

  /** A blank line anywhere among the input lines contributes nothing. */
  lemma BlankLineIgnored(before: seq<string>, line: string, after: seq<string>)
    requires Blank(line)
    ensures FixAll(before + [line] + after) == FixAll(before + after)
  {
    FixAllAppend(before + [line], after);
    FixAllSnoc(before, line);
    NormalizeLineBlank(line);
    FixAllAppend(before, after);
  }
}
