/** The Python 2 byte-string operations that `fix` is built from:
    `str.splitlines()`, `str.strip()`, `str.split()` with no separator and
    `sep.join(...)`.  A byte string is modelled as a `string` whose
    characters are the bytes; only ASCII line breaks and ASCII whitespace
    are recognised, as for Python 2 `str`.  The scanning helpers return
    indices, as the interpreter's own loops over the bytes do. */
module PyText {

  /** `\n` and `\r`, the only line boundaries of a Python 2 byte string. */
  predicate IsLineBreak(c: char) {
    c == '\n' || c == '\r'
  }

  /** The whitespace of `isspace()` on a byte: space and the control
      characters `\t`, `\n`, `\v`, `\f`, `\r` (codes 9 to 13). */
  predicate IsSpace(c: char) {
    c == ' ' || '\t' <= c <= '\r'
  }

  predicate NoBreak(s: string) {
    forall j :: 0 <= j < |s| ==> !IsLineBreak(s[j])
  }

  predicate NoSpace(s: string) {
    forall j :: 0 <= j < |s| ==> !IsSpace(s[j])
  }

  /** Empty or made only of whitespace. */
  predicate Blank(s: string) {
    forall j :: 0 <= j < |s| ==> IsSpace(s[j])
  }

  /** A field produced by `split()`: non-empty, without whitespace. */
  predicate IsField(f: string) {
    f != [] && NoSpace(f)
  }

  lemma NoBreakAppend(a: string, b: string)
    requires NoBreak(a) && NoBreak(b)
    ensures NoBreak(a + b)
  {
    forall j | 0 <= j < |a + b| ensures !IsLineBreak((a + b)[j]) {
      if j >= |a| { assert (a + b)[j] == b[j - |a|]; }
    }
  }

  lemma BlankAppend(a: string, b: string)
    ensures Blank(a + b) <==> Blank(a) && Blank(b)
  {
    if Blank(a) && Blank(b) {
      forall j | 0 <= j < |a + b| ensures IsSpace((a + b)[j]) {
        if j >= |a| { assert (a + b)[j] == b[j - |a|]; }
      }
    }
    if Blank(a + b) {
      forall j | 0 <= j < |a| ensures IsSpace(a[j]) {
        assert (a + b)[j] == a[j];
      }
      forall j | 0 <= j < |b| ensures IsSpace(b[j]) {
        assert (a + b)[|a| + j] == b[j];
      }
    }
  }

  // ---------------------------------------------------------------------------
  // str.splitlines
  // ---------------------------------------------------------------------------

  /** Index of the first line break at or after `i`, or `|s|`. */
  function LineEnd(s: string, i: nat): (e: nat)
    requires i <= |s|
    ensures i <= e <= |s|
    ensures forall j :: i <= j < e ==> !IsLineBreak(s[j])
    ensures e < |s| ==> IsLineBreak(s[e])
    decreases |s| - i
  {
    if i == |s| || IsLineBreak(s[i]) then i else LineEnd(s, i + 1)
  }

  /** Length of the line terminator that starts at `s[e]`: 2 for `\r\n`,
      otherwise 1. */
  function TerminatorLength(s: string, e: nat): nat
    requires e < |s|
  {
    if s[e] == '\r' && e + 1 < |s| && s[e + 1] == '\n' then 2 else 1
  }

  /** `s.splitlines()`: the lines of `s` without their terminators (`\n`,
      `\r` or `\r\n`).  A terminator at the very end does not open an empty
      last line, and the empty string has no lines. */
  function SplitLines(s: string): (lines: seq<string>)
    ensures forall k :: 0 <= k < |lines| ==> NoBreak(lines[k])
    ensures lines == [] <==> s == []
    decreases |s|
  {
    if s == [] then []
    else
      var e := LineEnd(s, 0);
      if e == |s| then
        [s]
      else
        [s[..e]] + SplitLines(s[e + TerminatorLength(s, e)..])
  }

  /** Each line followed by `\n`: the text whose `splitlines()` is `lines`. */
  function JoinLines(lines: seq<string>): string {
    if lines == [] then "" else lines[0] + "\n" + JoinLines(lines[1..])
  }

  /** A line terminator as `splitlines()` reads it in front of `rest`:
      `\n`, `\r\n`, or a `\r` that is not the first half of a `\r\n`. */
  predicate IsTerminator(t: string, rest: string) {
    t == "\n" || t == "\r\n" || (t == "\r" && (rest == [] || rest[0] != '\n'))
  }

  /** A line without breaks, then any terminator, opens the line list; the
      terminator itself belongs to no line. */
  lemma SplitLinesConsTerm(l: string, t: string, rest: string)
    requires NoBreak(l) && IsTerminator(t, rest)
    ensures SplitLines(l + t + rest) == [l] + SplitLines(rest)
  {
    var s := l + t + rest;
    var e, m := |l|, |l| + |t|;
    assert s[e] == t[0];
    LineEndUnique(s, 0, e);
    assert TerminatorLength(s, e) == |t| by {
      if t == "\r" && rest != [] { assert s[e + 1] == rest[0]; }
      if t == "\r\n" { assert s[e + 1] == '\n'; }
    }
    assert s[..e] == l;
    assert s[m..] == rest;
  }

  /** A line without breaks, then `\n`, opens the line list. */
  lemma SplitLinesCons(l: string, rest: string)
    requires NoBreak(l)
    ensures SplitLines(l + "\n" + rest) == [l] + SplitLines(rest)
  {
    SplitLinesConsTerm(l, "\n", rest);
  }

  /** `splitlines` undoes `JoinLines`: the partner of `SplitLines`. */
  lemma {:induction false} SplitLinesJoinLines(lines: seq<string>)
    requires forall k :: 0 <= k < |lines| ==> NoBreak(lines[k])
    ensures SplitLines(JoinLines(lines)) == lines
  {
    if lines != [] {
      SplitLinesJoinLines(lines[1..]);
      SplitLinesCons(lines[0], JoinLines(lines[1..]));
    }
  }

  /** Every line is blank. */
  predicate AllBlank(lines: seq<string>) {
    forall k :: 0 <= k < |lines| ==> Blank(lines[k])
  }

  lemma AllBlankCons(l: string, lines: seq<string>)
    ensures AllBlank([l] + lines) <==> Blank(l) && AllBlank(lines)
  {
    var all := [l] + lines;
    if Blank(l) && AllBlank(lines) {
      forall k | 0 <= k < |all| ensures Blank(all[k]) {
        if k > 0 { assert all[k] == lines[k - 1]; }
      }
    }
    if AllBlank(all) {
      assert Blank(all[0]);
      forall k | 0 <= k < |lines| ensures Blank(lines[k]) {
        assert all[k + 1] == lines[k];
      }
    }
  }

  lemma AppendAssoc(a: string, b: string, c: string)
    ensures a + (b + c) == (a + b) + c
  {
  }

  lemma LineEndUnique(s: string, i: nat, e: nat)
    requires i <= e <= |s|
    requires forall j :: i <= j < e ==> !IsLineBreak(s[j])
    requires e < |s| ==> IsLineBreak(s[e])
    ensures LineEnd(s, i) == e
  {
  }

  lemma SplitLinesSingle(line: string)
    requires NoBreak(line) && line != []
    ensures SplitLines(line) == [line]
  {
    LineEndUnique(line, 0, |line|);
  }

  /** A last line without a terminator is still a line of its own. */
  lemma {:induction false} SplitLinesUnterminated(lines: seq<string>, last: string)
    requires forall k :: 0 <= k < |lines| ==> NoBreak(lines[k])
    requires NoBreak(last) && last != []
    ensures SplitLines(JoinLines(lines) + last) == lines + [last]
  {
    if lines == [] {
      assert JoinLines(lines) + last == last;
      SplitLinesSingle(last);
    } else {
      var rest := JoinLines(lines[1..]) + last;
      calc {
        SplitLines(JoinLines(lines) + last);
        { AppendAssoc(lines[0] + "\n", JoinLines(lines[1..]), last); }
        SplitLines(lines[0] + "\n" + rest);
        { SplitLinesCons(lines[0], rest); }
        [lines[0]] + SplitLines(rest);
        { SplitLinesUnterminated(lines[1..], last); }
        [lines[0]] + (lines[1..] + [last]);
        lines + [last];
      }
    }
  }

  /** A line terminator is whitespace, and cuts `s` into the line, the
      terminator and the rest. */
  lemma TerminatorParts(s: string, e: nat)
    requires e < |s| && IsLineBreak(s[e])
    ensures e + TerminatorLength(s, e) <= |s|
    ensures Blank(s[e..e + TerminatorLength(s, e)])
    ensures s == s[..e] + s[e..e + TerminatorLength(s, e)] + s[e + TerminatorLength(s, e)..]
  {
    var m := e + TerminatorLength(s, e);
    assert s[e..m][0] == s[e];
    assert s == s[..e] + s[e..m] + s[m..];
  }

  /** A string is whitespace only exactly when all its lines are. */
  lemma {:induction false} BlankSplitLines(s: string)
    ensures Blank(s) <==> AllBlank(SplitLines(s))
    decreases |s|
  {
    if s != [] {
      var e := LineEnd(s, 0);
      if e < |s| {
        var n := TerminatorLength(s, e);
        var rest := s[e + n..];
        var term := s[e..e + n];
        calc {
          AllBlank(SplitLines(s));
          { assert SplitLines(s) == [s[..e]] + SplitLines(rest); }
          AllBlank([s[..e]] + SplitLines(rest));
          { AllBlankCons(s[..e], SplitLines(rest)); }
          Blank(s[..e]) && AllBlank(SplitLines(rest));
          { BlankSplitLines(rest); }
          Blank(s[..e]) && Blank(rest);
          { TerminatorParts(s, e); BlankAppend(s[..e], term); }
          Blank(s[..e] + term) && Blank(rest);
          { BlankAppend(s[..e] + term, rest); }
          Blank(s[..e] + term + rest);
          { TerminatorParts(s, e); }
          Blank(s);
        }
      } else {
        assert SplitLines(s) == [s];
        AllBlankCons(s, []);
        assert [s] + [] == [s];
      }
    }
  }

  // ---------------------------------------------------------------------------
  // str.strip
  // ---------------------------------------------------------------------------

  /** Index of the first non-whitespace character at or after `i`, or `|s|`. */
  function SkipSpace(s: string, i: nat): (a: nat)
    requires i <= |s|
    ensures i <= a <= |s|
    ensures forall j :: i <= j < a ==> IsSpace(s[j])
    ensures a < |s| ==> !IsSpace(s[a])
    decreases |s| - i
  {
    if i == |s| || !IsSpace(s[i]) then i else SkipSpace(s, i + 1)
  }

  /** Going backwards from `j`, the start of the whitespace run that ends
      at `j`. */
  function TrimEnd(s: string, j: nat): (b: nat)
    requires j <= |s|
    ensures b <= j
    ensures forall m :: b <= m < j ==> IsSpace(s[m])
    ensures b > 0 ==> !IsSpace(s[b - 1])
  {
    if j > 0 && IsSpace(s[j - 1]) then TrimEnd(s, j - 1) else j
  }

  /** `s.strip()`: `s` without its leading and trailing whitespace.  The
      result is empty exactly when `s` is blank, and otherwise starts and
      ends with a non-whitespace character; `StripTrims` shows it is a slice
      of `s` with only whitespace on either side of it. */
  function Strip(s: string): (r: string)
    ensures r == [] <==> Blank(s)
    ensures r != [] ==> !IsSpace(r[0]) && !IsSpace(r[|r| - 1])
  {
    var a := SkipSpace(s, 0);
    var b := TrimEnd(s, |s|);
    if a == |s| then
      assert Blank(s[..a]) && Blank(s[a..]);
      []
    else
      assert a < b;
      assert Blank(s[..a]) && Blank(s[b..]);
      s[a..b]
  }

  /** `strip()` removes whitespace from the two ends of `s` and nothing else. */
  lemma StripTrims(s: string)
    ensures exists a :: 0 <= a <= |s| - |Strip(s)| && Strip(s) == s[a..a + |Strip(s)|]
                        && Blank(s[..a]) && Blank(s[a + |Strip(s)|..])
  {
    var a := SkipSpace(s, 0);
    var n := |s|;
    var b := TrimEnd(s, n);
    if a == n {
      assert Strip(s) == [] && s[a..a] == [];
      assert Blank(s[..a]) && Blank(s[a..]);
    } else {
      assert a < b by { assert !IsSpace(s[a]); }
      assert Strip(s) == s[a..b];
      assert Blank(s[..a]) && Blank(s[b..]);
    }
  }

  // ---------------------------------------------------------------------------
  // str.split and str.join
  // ---------------------------------------------------------------------------

  /** Index of the first whitespace character at or after `i`, or `|s|`. */
  function WordEnd(s: string, i: nat): (e: nat)
    requires i <= |s|
    ensures i <= e <= |s|
    ensures forall j :: i <= j < e ==> !IsSpace(s[j])
    ensures e < |s| ==> IsSpace(s[e])
    decreases |s| - i
  {
    if i == |s| || IsSpace(s[i]) then i else WordEnd(s, i + 1)
  }

  lemma SkipSpaceUnique(s: string, i: nat, a: nat)
    requires i <= a <= |s|
    requires forall j :: i <= j < a ==> IsSpace(s[j])
    requires a < |s| ==> !IsSpace(s[a])
    ensures SkipSpace(s, i) == a
  {
  }

  lemma WordEndUnique(s: string, i: nat, e: nat)
    requires i <= e <= |s|
    requires forall j :: i <= j < e ==> !IsSpace(s[j])
    requires e < |s| ==> IsSpace(s[e])
    ensures WordEnd(s, i) == e
  {
  }

  /** `s.split()`: the maximal runs of non-whitespace characters of `s`, in
      order.  There are none exactly when `s` is blank. */
  function SplitWs(s: string): (fields: seq<string>)
    ensures forall k :: 0 <= k < |fields| ==> IsField(fields[k])
    ensures fields == [] <==> Blank(s)
    decreases |s|
  {
    var a := SkipSpace(s, 0);
    if a == |s| then
      []
    else
      var e := WordEnd(s, a);
      [s[a..e]] + SplitWs(s[e..])
  }

  /** `sep.join(fields)` for a one-character separator. */
  function Join(fields: seq<string>, sep: char): string {
    if |fields| == 0 then ""
    else if |fields| == 1 then fields[0]
    else fields[0] + [sep] + Join(fields[1..], sep)
  }

  lemma SkipSpaceShift(w: string, y: string)
    requires Blank(w)
    ensures SkipSpace(w + y, 0) == |w| + SkipSpace(y, 0)
  {
    var s := w + y;
    var a := SkipSpace(y, 0);
    forall j | 0 <= j < |w| + a ensures IsSpace(s[j]) {
      if j >= |w| { assert s[j] == y[j - |w|]; }
    }
    if |w| + a < |s| { assert s[|w| + a] == y[a]; }
    SkipSpaceUnique(s, 0, |w| + a);
  }

  lemma WordEndShift(w: string, y: string, i: nat)
    requires i <= |y|
    ensures WordEnd(w + y, |w| + i) == |w| + WordEnd(y, i)
  {
    var s := w + y;
    var e := WordEnd(y, i);
    forall j | |w| + i <= j < |w| + e ensures !IsSpace(s[j]) {
      assert s[j] == y[j - |w|];
    }
    if |w| + e < |s| { assert s[|w| + e] == y[e]; }
    WordEndUnique(s, |w| + i, |w| + e);
  }

  /** One step of `split()`: the first word, then the fields of what
      follows it. */
  lemma SplitWsStep(s: string, a: nat, e: nat)
    requires a == SkipSpace(s, 0) && a < |s| && e == WordEnd(s, a)
    ensures SplitWs(s) == [s[a..e]] + SplitWs(s[e..])
  {
  }

  lemma AppendSlices(w: string, y: string, i: nat, j: nat, i2: nat, j2: nat)
    requires i <= j <= |y| && i2 == |w| + i && j2 == |w| + j
    ensures (w + y)[i2..j2] == y[i..j]
    ensures (w + y)[j2..] == y[j..]
  {
  }

  /** The first word of `y`, found at the same place after a prefix `w`,
      opens `split()` of `w + y` too. */
  lemma SplitWsShifted(w: string, y: string, a: nat, e: nat)
    requires a < |y| && e == WordEnd(y, a)
    requires SkipSpace(w + y, 0) == |w| + a && WordEnd(w + y, |w| + a) == |w| + e
    ensures SplitWs(w + y) == [y[a..e]] + SplitWs(y[e..])
  {
    var a2, e2 := |w| + a, |w| + e;
    SplitWsStep(w + y, a2, e2);
    AppendSlices(w, y, a, e, a2, e2);
  }

  /** Leading whitespace does not change `split()`. */
  lemma SplitWsLeading(w: string, y: string)
    requires Blank(w)
    ensures SplitWs(w + y) == SplitWs(y)
  {
    var s := w + y;
    var a := SkipSpace(y, 0);
    SkipSpaceShift(w, y);
    if a < |y| {
      var e := WordEnd(y, a);
      WordEndShift(w, y, a);
      SplitWsShifted(w, y, a, e);
      SplitWsStep(y, a, e);
    } else {
      assert Blank(y);
      BlankAppend(w, y);
    }
  }

  /** Trailing whitespace does not change `split()`. */
  lemma {:induction false} SplitWsTrailing(v: string, w: string)
    requires Blank(w)
    ensures SplitWs(v + w) == SplitWs(v)
    decreases |v|
  {
    var s := v + w;
    var a := SkipSpace(v, 0);
    BlankAppend(v, w);
    if a < |v| {
      assert s[a] == v[a];
      SkipSpaceUnique(s, 0, a);
      var e := WordEnd(v, a);
      if e < |v| {
        assert s[e] == v[e];
      } else if e < |s| {
        assert s[e] == w[0];
      }
      WordEndUnique(s, a, e);
      calc {
        SplitWs(s);
        { SplitWsStep(s, a, e); }
        [s[a..e]] + SplitWs(s[e..]);
        { assert s[a..e] == v[a..e]; assert s[e..] == v[e..] + w; SplitWsTrailing(v[e..], w); }
        [v[a..e]] + SplitWs(v[e..]);
        { SplitWsStep(v, a, e); }
        SplitWs(v);
      }
    }
  }

  /** Whitespace on either side does not change `split()`. */
  lemma SplitWsAround(p: string, m: string, q: string)
    requires Blank(p) && Blank(q)
    ensures SplitWs(p + m + q) == SplitWs(m)
  {
    SplitWsTrailing(m, q);
    SplitWsLeading(p, m + q);
    AppendAssoc(p, m, q);
  }

  /** Stripping a line first does not change its `split()`: the strip in
      `fix` only serves its emptiness test. */
  lemma SplitWsStrip(s: string)
    ensures SplitWs(Strip(s)) == SplitWs(s)
  {
    var a := SkipSpace(s, 0);
    var n := |s|;
    var b := TrimEnd(s, n);
    if a < n {
      assert a < b by { assert !IsSpace(s[a]); }
      var p, m, q := s[..a], s[a..b], s[b..];
      assert Strip(s) == m;
      assert Blank(p) && Blank(q);
      assert s == p + m + q;
      SplitWsAround(p, m, q);
    }
  }

  /** `split()` undoes `join` with a whitespace separator, for fields as
      `split()` produces them: the partner of both `SplitWs` and `Join`. */
  lemma {:induction false} SplitWsJoin(fields: seq<string>, sep: char)
    requires forall k :: 0 <= k < |fields| ==> IsField(fields[k])
    requires IsSpace(sep)
    ensures SplitWs(Join(fields, sep)) == fields
  {
    if |fields| == 1 {
      var f := fields[0];
      var n := |f|;
      SkipSpaceUnique(f, 0, 0);
      WordEndUnique(f, 0, n);
      SplitWsStep(f, 0, n);
      assert f[0..n] == f && f[n..] == [];
    } else if |fields| > 1 {
      var f := fields[0];
      var rest := Join(fields[1..], sep);
      var s := f + [sep] + rest;
      var n := |f|;
      assert s[n] == sep;
      assert forall j :: 0 <= j < n ==> s[j] == f[j];
      SkipSpaceUnique(s, 0, 0);
      WordEndUnique(s, 0, n);
      calc {
        SplitWs(s);
        { SplitWsStep(s, 0, n); }
        [s[0..n]] + SplitWs(s[n..]);
        { assert s[0..n] == f; assert s[n..] == [sep] + rest; SplitWsLeading([sep], rest); }
        [f] + SplitWs(rest);
        { SplitWsJoin(fields[1..], sep); }
        [f] + fields[1..];
        fields;
      }
    }
  }

  /** A tab-delimited line: non-empty, every character a tab or
      non-whitespace, neither first nor last character a tab, and no two
      tabs side by side. */
  predicate TabDelimited(line: string) {
    && line != []
    && line[0] != '\t'
    && line[|line| - 1] != '\t'
    && (forall j :: 0 <= j < |line| ==> line[j] == '\t' || !IsSpace(line[j]))
    && (forall i, j :: 0 <= i && j == i + 1 < |line| ==> line[i] != '\t' || line[j] != '\t')
  }

  /** Joining `split()`-style fields with a tab yields a tab-delimited line. */
  lemma {:induction false} JoinTabDelimited(fields: seq<string>)
    requires fields != []
    requires forall k :: 0 <= k < |fields| ==> IsField(fields[k])
    ensures TabDelimited(Join(fields, '\t'))
  {
    if |fields| > 1 {
      var f := fields[0];
      var rest := Join(fields[1..], '\t');
      JoinTabDelimited(fields[1..]);
      var s := f + ['\t'] + rest;
      assert s[0] == f[0];
      assert s[|s| - 1] == rest[|rest| - 1];
      forall j | 0 <= j < |s| ensures s[j] == '\t' || !IsSpace(s[j]) {
        if j > |f| { assert s[j] == rest[j - |f| - 1]; }
      }
      forall j | 0 <= j < |s| - 1 ensures s[j] != '\t' || s[j + 1] != '\t' {
        if j > |f| { assert s[j] == rest[j - |f| - 1] && s[j + 1] == rest[j - |f|]; }
      }
    }
  }

  /** After the first tab of a tab-delimited line comes another
      tab-delimited line. */
  lemma TabDelimitedTail(t: string, e: nat)
    requires TabDelimited(t) && e < |t| && t[e] == '\t'
    ensures e + 1 < |t| && TabDelimited(t[e + 1..])
  {
    var rest := t[e + 1..];
    assert rest[0] == t[e + 1];
    assert rest[|rest| - 1] == t[|t| - 1];
    forall j | 0 <= j < |rest| ensures rest[j] == '\t' || !IsSpace(rest[j]) {
      assert rest[j] == t[e + 1 + j];
    }
    forall j | 0 <= j < |rest| - 1 ensures rest[j] != '\t' || rest[j + 1] != '\t' {
      assert rest[j] == t[e + 1 + j] && rest[j + 1] == t[e + 2 + j];
    }
  }

  /** `split()` of a line that opens with a word: that word, then the
      fields of the rest. */
  lemma SplitWsFirstWord(t: string, e: nat)
    requires 0 < e <= |t|
    requires forall j :: 0 <= j < e ==> !IsSpace(t[j])
    requires e < |t| ==> IsSpace(t[e])
    ensures SplitWs(t) == [t[..e]] + SplitWs(t[e..])
  {
    SkipSpaceUnique(t, 0, 0);
    WordEndUnique(t, 0, e);
  }

  /** A tab-delimited line is what `'\t'.join(line.split())` gives back:
      such a line is already canonical. */
  lemma {:induction false} TabDelimitedJoin(t: string)
    requires TabDelimited(t)
    ensures Join(SplitWs(t), '\t') == t
    decreases |t|
  {
    var e := WordEnd(t, 0);
    assert e > 0 by { assert !IsSpace(t[0]); }
    if e == |t| {
      calc {
        Join(SplitWs(t), '\t');
        { SplitWsFirstWord(t, e); assert t[..e] == t; assert SplitWs(t[e..]) == []; }
        Join([t], '\t');
        t;
      }
    } else {
      var rest := t[e + 1..];
      calc {
        Join(SplitWs(t), '\t');
        { SplitWsFirstWord(t, e); TabSplit(t, e); SplitWsLeading(['\t'], rest); }
        Join([t[..e]] + SplitWs(rest), '\t');
        { TabDelimitedTail(t, e);
          assert SplitWs(rest) != [] by { assert !IsSpace(rest[0]); }
          JoinCons(t[..e], SplitWs(rest), '\t'); }
        t[..e] + ['\t'] + Join(SplitWs(rest), '\t');
        { TabDelimitedTail(t, e); TabDelimitedJoin(rest); }
        t[..e] + ['\t'] + rest;
        { TabSplit(t, e); }
        t;
      }
    }
  }

  lemma TabSplit(t: string, e: nat)
    requires e < |t| && t[e] == '\t'
    ensures t[e..] == ['\t'] + t[e + 1..]
    ensures t == t[..e] + ['\t'] + t[e + 1..]
  {
  }

  lemma JoinCons(f: string, fs: seq<string>, sep: char)
    requires fs != []
    ensures Join([f] + fs, sep) == f + [sep] + Join(fs, sep)
  {
    assert ([f] + fs)[1..] == fs;
  }

  /** A tab-delimited line holds no line break. */
  lemma TabDelimitedNoBreak(t: string)
    requires TabDelimited(t)
    ensures NoBreak(t)
  {
  }
}
