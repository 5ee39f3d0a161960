// Trimming a pasted log: colour codes off, runs of equal lines folded, a huge block cut in the middle.
module Trim {
  import opened Prelude

  // ----- colour codes: ESC [ digits and semicolons, one letter -----

  const ESC: char := 27 as char
  const NEWLINE: string := "\n"

  function Params(s: string): (n: nat)
    ensures n <= |s|
  {
    if s != [] && ('0' <= s[0] <= '9' || s[0] == ';') then 1 + Params(s[1..]) else 0
  }

  // The length of the colour code at the start, or 0.
  function CodeLength(s: string): (n: nat)
    ensures n <= |s|
    ensures n > 0 ==> At(s, [ESC, '['], 0)
  {
    if !At(s, [ESC, '['], 0) then 0
    else
      var n := 2 + Params(s[2..]);
      if n < |s| && ('A' <= s[n] <= 'Z' || 'a' <= s[n] <= 'z') then n + 1 else 0
  }

  function StripCodes(s: string): string
    decreases |s|
  {
    if s == [] then []
    else if CodeLength(s) > 0 then StripCodes(s[CodeLength(s)..])
    else [s[0]] + StripCodes(s[1..])
  }

  lemma {:induction false} NothingToStrip(s: string)
    requires Find(s, [ESC, '['], 0) == -1
    ensures StripCodes(s) == s
  {
    if s != [] {
      assert !At(s, [ESC, '['], 0);
      forall k: nat ensures !At(s[1..], [ESC, '['], k) {
        assert !At(s, [ESC, '['], k + 1);
        assert k + 3 <= |s| ==> s[1..][k..k + 2] == s[k + 1..k + 3];
      }
      assert Find(s[1..], [ESC, '['], 0) == -1;
      NothingToStrip(s[1..]);
      assert s == [s[0]] + s[1..];
    }
  }

  // A whole colour code.
  predicate Code(c: string) {
    && |c| >= 3 && c[0] == 27 as char && c[1] == '['
    && (forall i :: 2 <= i < |c| - 1 ==> '0' <= c[i] <= '9' || c[i] == ';')
    && ('A' <= c[|c| - 1] <= 'Z' || 'a' <= c[|c| - 1] <= 'z')
  }

  lemma {:induction false} ParamsAre(s: string, n: nat)
    requires n < |s| && forall i :: 0 <= i < n ==> '0' <= s[i] <= '9' || s[i] == ';'
    requires !('0' <= s[n] <= '9' || s[n] == ';')
    ensures Params(s) == n
    decreases n
  {
    if n > 0 { ParamsAre(s[1..], n - 1); }
  }

  lemma CodeIsRead(c: string, rest: string)
    requires Code(c)
    ensures CodeLength(c + rest) == |c| && StripCodes(c + rest) == StripCodes(rest)
  {
    var s := c + rest;
    assert s[..2] == [ESC, '['];
    ParamsAre(s[2..], |c| - 3);
    assert s[|c|..] == rest;
  }

  // A stretch of text without the start of a code, then a code.
  datatype Stretch = Stretch(text: string, code: string)

  predicate Coloured(s: Stretch) { Find(s.text, [27 as char, '['], 0) == -1 && Code(s.code) }

  function Printed(ss: seq<Stretch>): string {
    if ss == [] then [] else ss[0].text + ss[0].code + Printed(ss[1..])
  }

  function Read(ss: seq<Stretch>): string { if ss == [] then [] else ss[0].text + Read(ss[1..]) }

  lemma NoCodeInFront(text: string, tail: string)
    requires text != [] && Find(text, [ESC, '['], 0) == -1 && (tail == [] || tail[0] == ESC)
    ensures !At(text + tail, [ESC, '['], 0)
  {
    hide Find;
    var s := text + tail;
    assert !At(text, [ESC, '['], 0);
    assert |text| >= 2 ==> s[0..2] == text[0..2];
    assert |s| >= 2 ==> s[0..2] == [s[0], s[1]];
  }

  lemma FirstIsKept(s: string)
    requires s != [] && !At(s, [ESC, '['], 0)
    ensures StripCodes(s) == [s[0]] + StripCodes(s[1..])
  {
  }

  lemma {:induction false} PlainIsKept(text: string, tail: string)
    requires Find(text, [ESC, '['], 0) == -1 && (tail == [] || tail[0] == ESC)
    ensures StripCodes(text + tail) == text + StripCodes(tail)
    decreases |text|
  {
    hide Find, StripCodes, At;
    if text == [] {
      assert text + tail == tail;
    } else {
      NoCodeInFront(text, tail);
      FirstIsKept(text + tail);
      StillPlain(text);
      PlainIsKept(text[1..], tail);
      assert (text + tail)[1..] == text[1..] + tail;
      assert text == [text[0]] + text[1..];
    }
  }

  lemma StillPlain(text: string)
    requires text != [] && Find(text, [ESC, '['], 0) == -1
    ensures Find(text[1..], [ESC, '['], 0) == -1
  {
    hide Find;
    forall k: nat ensures !At(text[1..], [ESC, '['], k) {
      assert !At(text, [ESC, '['], k + 1);
      assert k + 3 <= |text| ==> text[1..][k..k + 2] == text[k + 1..k + 3];
    }
  }

  // Colour codes come off wherever they stand, and nothing else does.
  lemma {:induction false} CodesComeOff(ss: seq<Stretch>, last: string)
    requires (forall i :: 0 <= i < |ss| ==> Coloured(ss[i])) && Find(last, [27 as char, '['], 0) == -1
    ensures StripCodes(Printed(ss) + last) == Read(ss) + last
  {
    hide Find, StripCodes, Code;
    if ss == [] {
      PlainIsKept(last, []);
      NothingStripped();
      assert last + [] == last && [] + last == last;
    } else {
      var tail := Printed(ss[1..]) + last;
      CodesComeOff(ss[1..], last);
      CodeIsRead(ss[0].code, tail);
      StartsWithEsc(ss[0].code, tail);
      PlainIsKept(ss[0].text, ss[0].code + tail);
      assert Printed(ss) + last == ss[0].text + (ss[0].code + tail);
    }
  }

  lemma NothingStripped()
    ensures StripCodes([]) == []
  {
  }

  lemma StartsWithEsc(code: string, tail: string)
    requires Code(code)
    ensures (code + tail)[0] == ESC
  {
  }

  // ----- runs -----

  datatype Run = Run(line: string, count: nat)

  // How many lines at the start equal the first one.
  function RunLength(lines: seq<string>): (n: nat)
    requires lines != []
    ensures 1 <= n <= |lines|
    ensures forall i :: 0 <= i < n ==> lines[i] == lines[0]
    ensures n < |lines| ==> lines[n] != lines[0]
  {
    if |lines| > 1 && lines[1] == lines[0] then 1 + RunLength(lines[1..]) else 1
  }

  function Runs(lines: seq<string>): seq<Run>
    decreases |lines|
  {
    if lines == [] then [] else [Run(lines[0], RunLength(lines))] + Runs(lines[RunLength(lines)..])
  }

  function Expand(runs: seq<Run>): seq<string> {
    if runs == [] then [] else Repeat(runs[0].line, runs[0].count) + Expand(runs[1..])
  }

  predicate Maximal(runs: seq<Run>) {
    && (forall i :: 0 <= i < |runs| ==> runs[i].count >= 1)
    && (forall i :: 0 <= i < |runs| - 1 ==> runs[i].line != runs[i + 1].line)
  }

  lemma {:induction false} RunsExpand(lines: seq<string>)
    ensures Expand(Runs(lines)) == lines
    decreases |lines|
  {
    hide Expand, Runs, RunLength;
    if lines == [] {
      NoRuns();
    } else {
      var n := RunLength(lines);
      RunsExpand(lines[n..]);
      FirstRun(lines);
      assert Repeat(lines[0], n) == lines[..n] && lines == lines[..n] + lines[n..];
    }
  }

  lemma NoRuns()
    ensures Expand(Runs([])) == []
  {
  }

  lemma FirstRun(lines: seq<string>)
    requires lines != []
    ensures var n := RunLength(lines); Expand(Runs(lines)) == Repeat(lines[0], n) + Expand(Runs(lines[n..]))
  {
    hide RunLength, Repeat;
    var n := RunLength(lines);
    var rest := Runs(lines[n..]);
    assert ([Run(lines[0], n)] + rest)[1..] == rest;
  }

  lemma {:induction false} RunsMaximal(lines: seq<string>)
    ensures Maximal(Runs(lines))
    decreases |lines|
  {
    if lines != [] {
      hide RunLength;
      var n := RunLength(lines);
      RunsMaximal(lines[n..]);
      var first, rest := Run(lines[0], n), Runs(lines[n..]);
      if n < |lines| { assert rest[0].line == lines[n]; } else { assert rest == []; }
      FirstMaximal(first, rest);
    }
  }

  lemma FirstMaximal(first: Run, rest: seq<Run>)
    requires first.count >= 1 && Maximal(rest) && (rest != [] ==> rest[0].line != first.line)
    ensures Maximal([first] + rest)
  {
    var all := [first] + rest;
    forall i | 0 <= i < |all| - 1 ensures all[i].line != all[i + 1].line {
      assert all[i + 1] == rest[i] && (i > 0 ==> all[i] == rest[i - 1]);
    }
  }

  // Expanding the runs gives back the lines, and no run could be longer.
  lemma {:induction false} RunsExpandAndAreMaximal(lines: seq<string>)
    ensures Expand(Runs(lines)) == lines && Maximal(Runs(lines))
  {
    RunsExpand(lines);
    RunsMaximal(lines);
  }

  // There is only one way to split lines into maximal runs.
  lemma {:induction false} MaximalRunsAreUnique(lines: seq<string>, runs: seq<Run>)
    requires Maximal(runs) && Expand(runs) == lines
    ensures runs == Runs(lines)
    decreases |runs|
  {
    if runs != [] {
      hide Runs, RunLength, Expand, Maximal;
      var n, rest := runs[0].count, runs[1..];
      var tail := Expand(rest);
      FirstOfMaximal(lines, runs);
      RunLengthIs(lines, n);
      MaximalRunsAreUnique(tail, rest);
      RunsFrom(lines);
      assert runs == [runs[0]] + rest;
    } else {
      assert Runs(lines) == [];
    }
  }

  lemma RunsFrom(lines: seq<string>)
    requires lines != []
    ensures Runs(lines) == [Run(lines[0], RunLength(lines))] + Runs(lines[RunLength(lines)..])
  {
  }

  lemma FirstOfMaximal(lines: seq<string>, runs: seq<Run>)
    requires runs != [] && Maximal(runs) && Expand(runs) == lines
    ensures var n, tail := runs[0].count, Expand(runs[1..]);
            && Maximal(runs[1..]) && 1 <= n <= |lines| && lines[n..] == tail
            && (forall i :: 0 <= i < n ==> lines[i] == lines[0] == runs[0].line)
            && (n < |lines| ==> lines[n] != lines[0])
  {
    var n, rest := runs[0].count, runs[1..];
    var tail := Expand(rest);
    assert lines == Repeat(runs[0].line, n) + tail;
    if rest != [] { assert tail[0] == rest[0].line; }
  }

  lemma RunLengthIs(lines: seq<string>, n: nat)
    requires 1 <= n <= |lines| && (forall i :: 0 <= i < n ==> lines[i] == lines[0])
    requires n < |lines| ==> lines[n] != lines[0]
    ensures RunLength(lines) == n
  {
  }

  function Decimal(n: nat): string {
    if n < 10 then ["0123456789"[n]] else Decimal(n / 10) + ["0123456789"[n % 10]]
  }

  function Render(r: Run): string { if r.count == 1 then r.line else r.line + "    ... x" + Decimal(r.count) }

  function RenderAll(runs: seq<Run>): (out: seq<string>)
    ensures |out| == |runs| && forall i :: 0 <= i < |runs| ==> out[i] == Render(runs[i])
  {
    if runs == [] then [] else [Render(runs[0])] + RenderAll(runs[1..])
  }

  // ----- reading a folded log -----

  // What a number stands for, digit by digit.
  function NumberOf(s: string): int {
    if s == [] then 0 else 10 * NumberOf(s[..|s| - 1]) + (s[|s| - 1] as int - '0' as int)
  }

  lemma {:induction false} DecimalReads(n: nat)
    ensures NumberOf(Decimal(n)) == n
  {
    if n < 10 {
      assert Decimal(n)[..0] == [];
      DigitReads(n);
    } else {
      DecimalReads(n / 10);
      DigitReads(n % 10);
      var s := Decimal(n / 10) + ["0123456789"[n % 10]];
      assert s[..|s| - 1] == Decimal(n / 10);
    }
  }

  lemma DigitReads(d: nat)
    requires d < 10
    ensures "0123456789"[d] as int - '0' as int == d
  {
  }

  // The lines a printed line stands for.
  function Unfolded(line: string): seq<string> {
    var k := Find(line, "    ... x", 0);
    if k == -1 || NumberOf(line[k + 9..]) < 0 then [line] else Repeat(line[..k], NumberOf(line[k + 9..]))
  }

  function UnfoldAll(lines: seq<string>): seq<string> {
    if lines == [] then [] else Unfolded(lines[0]) + UnfoldAll(lines[1..])
  }

  predicate NoCount(line: string) { Find(line, "    ... x", 0) == -1 }

  lemma {:induction false} CountIsFound(line: string, tail: string)
    requires NoCount(line)
    ensures Find(line + "    ... x" + tail, "    ... x", 0) == |line|
  {
    hide Find;
    var pat := "    ... x";
    var s := line + pat + tail;
    assert At(s, pat, |line|);
    forall k: nat | k < |line| ensures !At(s, pat, k) {
      if k + 9 <= |line| {
        assert !At(line, pat, k) && s[k..k + 9] == line[k..k + 9];
      } else {
        var d := k + 8 - |line|;
        assert s[k + 8] == pat[d] && pat[d] != 'x';
        assert s[k..k + 9][8] == s[k + 8];
      }
    }
  }

  lemma RenderedUnfolds(r: Run)
    requires r.count >= 1 && NoCount(r.line)
    ensures Unfolded(Render(r)) == Repeat(r.line, r.count)
  {
    hide Find, NumberOf;
    if r.count > 1 {
      var digits := Decimal(r.count);
      CountIsFound(r.line, digits);
      DecimalReads(r.count);
      var s := r.line + "    ... x" + digits;
      assert s[|r.line| + 9..] == digits && s[..|r.line|] == r.line;
    } else {
      assert Repeat(r.line, 1) == [r.line];
    }
  }

  lemma {:induction false} RenderedAllUnfold(runs: seq<Run>)
    requires forall i :: 0 <= i < |runs| ==> runs[i].count >= 1 && NoCount(runs[i].line)
    ensures UnfoldAll(RenderAll(runs)) == Expand(runs)
  {
    hide Unfolded, Render, NoCount;
    if runs != [] {
      RenderedUnfolds(runs[0]);
      RenderedAllUnfold(runs[1..]);
      var rest := RenderAll(runs[1..]);
      assert ([Render(runs[0])] + rest)[1..] == rest;
    }
  }

  // From what is printed for a log the log can be read back, if no line of it looks like a count already.
  lemma {:induction false} FoldLosesNothing(lines: seq<string>)
    requires forall i :: 0 <= i < |lines| ==> Find(lines[i], "    ... x", 0) == -1
    ensures UnfoldAll(RenderAll(Runs(lines))) == lines
  {
    hide Find, Runs, UnfoldAll, RenderAll;
    var runs := Runs(lines);
    RunsExpandAndAreMaximal(lines);
    forall i | 0 <= i < |runs| ensures NoCount(runs[i].line) {
      RunLineIsALine(runs, i);
      assert runs[i].line in lines;
    }
    RenderedAllUnfold(runs);
  }

  lemma {:induction false} RunLineIsALine(runs: seq<Run>, i: nat)
    requires i < |runs| && runs[i].count >= 1
    ensures runs[i].line in Expand(runs)
  {
    if i > 0 {
      RunLineIsALine(runs[1..], i - 1);
    } else {
      assert Repeat(runs[0].line, runs[0].count)[0] == runs[0].line;
    }
  }

  function Marker(omitted: nat): string {
    "... (" + Decimal(omitted) + " lines trimmed by abenlux, full output on disk)"
  }

  // Past 200 the first 120 and the last 40 stay, with the number in between reported.
  function Shorten(out: seq<string>): seq<string> {
    if |out| > 200 then
      out[..120] + [Marker(|out| - 160)] + out[|out| - 40..]
    else out
  }

  function Trimmed(text: string): string {
    if Find(text, [ESC, '['], 0) == -1 && Find(text, NEWLINE, 0) == -1 then text
    else Join(Shorten(RenderAll(Runs(Split(StripCodes(text), NEWLINE)))), NEWLINE)
  }

  method Fold(lines: seq<string>) returns (out: seq<string>)
    ensures out == RenderAll(Runs(lines))
  {
    hide RenderAll, Runs, Render;
    out := [];
    var i := 0;
    assert lines[0..] == lines;
    ghost var todo := RenderAll(Runs(lines));
    while i < |lines|
      invariant 0 <= i <= |lines| && todo == RenderAll(Runs(lines[i..]))
      invariant out + todo == RenderAll(Runs(lines))
    {
      var j := i;
      while j + 1 < |lines| && lines[j + 1] == lines[i]
        invariant i <= j < |lines| && forall k :: i <= k <= j ==> lines[k] == lines[i]
      {
        j := j + 1;
      }
      NextRun(lines, i, j);
      var line := Render(Run(lines[i], j - i + 1));
      i := j + 1;
      todo := RenderAll(Runs(lines[i..]));
      assert out + ([line] + todo) == (out + [line]) + todo;
      out := out + [line];
    }
    NothingLeft(lines[i..]);
    assert out + [] == out;
  }

  lemma NothingLeft(lines: seq<string>)
    requires lines == []
    ensures RenderAll(Runs(lines)) == []
  {
  }

  lemma {:induction false} NextRun(lines: seq<string>, i: nat, j: nat)
    requires i <= j < |lines| && forall k :: i <= k <= j ==> lines[k] == lines[i]
    requires j + 1 < |lines| ==> lines[j + 1] != lines[i]
    ensures RenderAll(Runs(lines[i..])) == [Render(Run(lines[i], j - i + 1))] + RenderAll(Runs(lines[j + 1..]))
  {
    hide Render, Runs, RenderAll, RunLength;
    RunLengthIs(lines[i..], j - i + 1);
    FirstRendered(lines[i..]);
    assert lines[i..][j - i + 1..] == lines[j + 1..];
  }

  lemma FirstRendered(lines: seq<string>)
    requires lines != []
    ensures var n := RunLength(lines);
            RenderAll(Runs(lines)) == [Render(Run(lines[0], n))] + RenderAll(Runs(lines[n..]))
  {
    hide Render, RunLength;
    var n := RunLength(lines);
    var rest := Runs(lines[n..]);
    assert ([Run(lines[0], n)] + rest)[1..] == rest;
  }

  method TrimText(text: string) returns (r: string)
    ensures r == Trimmed(text)
  {
    if Find(text, [ESC, '['], 0) == -1 && Find(text, NEWLINE, 0) == -1 { return text; }
    var out := Fold(Split(StripCodes(text), NEWLINE));
    return Join(Shorten(out), NEWLINE);
  }

  // What a huge block becomes: exactly its first 120 and last 40 runs, and the true number of runs between.
  lemma {:induction false} ShortenKeepsHeadAndTail(runs: seq<Run>)
    requires |runs| > 200
    ensures var out, all := Shorten(RenderAll(runs)), RenderAll(runs);
            && |out| == 161
            && out[..120] == all[..120] && out[121..] == all[|all| - 40..]
            && out[120] == "... (" + Decimal(|runs[120..|runs| - 40]|)
                           + " lines trimmed by abenlux, full output on disk)"
  {
    hide RenderAll;
    var all := RenderAll(runs);
    var a, m, b := all[..120], [Marker(|all| - 160)], all[|all| - 40..];
    assert Shorten(all) == a + m + b;
    assert |a + m + b| == 161 && (a + m + b)[..120] == a && (a + m + b)[121..] == b;
  }

  // The number the marker shows is that of the omitted lines exactly when no omitted line was repeated, and is
  // too small otherwise.
  lemma MarkerCountsLinesIff(lines: seq<string>)
    requires |Runs(lines)| > 200
    ensures var runs := Runs(lines);
            var omitted := runs[120..|runs| - 40];
            && |runs| - 160 <= |Expand(omitted)|
            && (|runs| - 160 == |Expand(omitted)| <==> forall r :: r in omitted ==> r.count == 1)
  {
    hide Runs;
    var runs := Runs(lines);
    RunsMaximal(lines);
    var omitted := runs[120..|runs| - 40];
    forall i | 0 <= i < |omitted| ensures omitted[i].count >= 1 { assert omitted[i] == runs[120 + i]; }
    RunsShorten(omitted);
  }

  lemma {:induction false} RunsShorten(runs: seq<Run>)
    requires forall i :: 0 <= i < |runs| ==> runs[i].count >= 1
    ensures |runs| <= |Expand(runs)|
    ensures |runs| == |Expand(runs)| <==> forall r :: r in runs ==> r.count == 1
  {
    if runs != [] {
      RunsShorten(runs[1..]);
      assert runs == [runs[0]] + runs[1..];
    }
  }

  // A log of n alternating lines, one of them twice in a row somewhere in the middle: the marker says n - 160,
  // and n - 159 lines are gone.
  lemma MarkerUndercounts(n: nat, twice: nat)
    requires 120 <= twice < n - 40 && n > 200
    ensures var runs := Runs(Expand(Alternating(n, twice))); |runs| == n && |Expand(runs[120..n - 40])| == n - 159
  {
    hide Expand, Runs;
    var runs := Alternating(n, twice);
    assert Maximal(runs);
    MaximalRunsAreUnique(Expand(runs), runs);
    AlternatingLength(runs[120..n - 40], twice - 120);
  }

  function Alternating(n: nat, twice: nat): (runs: seq<Run>)
    ensures |runs| == n
    ensures forall i :: 0 <= i < n ==> runs[i] == Run(if i % 2 == 0 then "a" else "b", if i == twice then 2 else 1)
  {
    seq(n, i => Run(if i % 2 == 0 then "a" else "b", if i == twice then 2 else 1))
  }

  lemma {:induction false} AlternatingLength(runs: seq<Run>, twice: nat)
    requires forall i :: 0 <= i < |runs| ==> runs[i].count == if i == twice then 2 else 1
    ensures |Expand(runs)| == |runs| + if twice < |runs| then 1 else 0
  {
    if runs != [] {
      if twice == 0 { RunsShorten(runs[1..]); } else { AlternatingLength(runs[1..], twice - 1); }
    }
  }

  // ----- the whole text -----

  predicate OneLine(line: string) { '\n' !in line }

  lemma {:induction false} SplitJoin(lines: seq<string>)
    requires lines != [] && forall i :: 0 <= i < |lines| ==> OneLine(lines[i])
    ensures Split(Join(lines, NEWLINE), NEWLINE) == lines
  {
    hide Find, OneLine;
    NoNewline(lines[0]);
    if |lines| > 1 {
      SplitJoin(lines[1..]);
      EndsAtNewline(lines[0], Join(lines[1..], NEWLINE));
      var s := lines[0] + NEWLINE + Join(lines[1..], NEWLINE);
      assert s[..|lines[0]|] == lines[0] && s[|lines[0]| + 1..] == Join(lines[1..], NEWLINE);
      assert lines == [lines[0]] + lines[1..];
    } else {
      assert lines == [lines[0]];
    }
  }

  lemma NoNewline(line: string)
    requires OneLine(line)
    ensures Find(line, NEWLINE, 0) == -1
  {
    hide Find;
    forall k: nat ensures !At(line, NEWLINE, k) {
      assert k < |line| ==> line[k] in line && line[k..k + 1] == [line[k]];
    }
  }

  lemma EndsAtNewline(line: string, rest: string)
    requires OneLine(line)
    ensures Find(line + NEWLINE + rest, NEWLINE, 0) == |line|
  {
    hide Find;
    var s := line + NEWLINE + rest;
    assert At(s, NEWLINE, |line|);
    forall k: nat | k < |line| ensures !At(s, NEWLINE, k) { assert s[k..k + 1] == [line[k]] && line[k] in line; }
  }

  lemma {:induction false} SplitIsOneLine(s: string)
    ensures forall i :: 0 <= i < |Split(s, NEWLINE)| ==> OneLine(Split(s, NEWLINE)[i])
    decreases |s|
  {
    hide Find, OneLine;
    var j := Find(s, NEWLINE, 0);
    if j == -1 {
      assert s[..|s|] == s;
      LineBefore(s, |s|);
    } else {
      LineBefore(s, j);
      SplitIsOneLine(s[j + 1..]);
    }
  }

  lemma LineBefore(s: string, n: nat)
    requires n <= |s| && forall k: nat :: k < n ==> !At(s, NEWLINE, k)
    ensures OneLine(s[..n])
  {
    forall k | 0 <= k < n ensures s[k] != '\n' { assert !At(s, NEWLINE, k) && s[k..k + 1] == [s[k]]; }
  }

  lemma {:induction false} DecimalIsOneLine(n: nat)
    ensures OneLine(Decimal(n))
  {
    if n >= 10 { DecimalIsOneLine(n / 10); }
  }

  lemma OneLineJoins(s: string, t: string)
    requires OneLine(s) && OneLine(t)
    ensures OneLine(s + t)
  {
  }

  lemma WordsAreOneLine()
    ensures OneLine("... (") && OneLine(" lines trim") && OneLine("med by abenlux")
    ensures OneLine(", full output") && OneLine(" on disk)")
  {
  }

  lemma WordsJoin()
    ensures " lines trimmed by abenlux, full output on disk)"
         == " lines trim" + ("med by abenlux" + (", full output" + " on disk)"))
  {
  }

  lemma MarkerIsOneLine(omitted: nat)
    ensures OneLine(Marker(omitted))
  {
    hide Decimal, OneLine;
    DecimalIsOneLine(omitted);
    WordsAreOneLine();
    WordsJoin();
    OneLineJoins(", full output", " on disk)");
    OneLineJoins("med by abenlux", ", full output" + " on disk)");
    OneLineJoins(" lines trim", "med by abenlux" + (", full output" + " on disk)"));
    OneLineJoins("... (", Decimal(omitted));
    OneLineJoins("... (" + Decimal(omitted), " lines trimmed by abenlux, full output on disk)");
  }

  lemma RenderedIsOneLine(r: Run)
    requires OneLine(r.line)
    ensures OneLine(Render(r))
  {
    hide Decimal;
    DecimalIsOneLine(r.count);
  }

  lemma PrintedIsOneLine(runs: seq<Run>)
    requires forall i :: 0 <= i < |runs| ==> OneLine(runs[i].line)
    ensures forall i :: 0 <= i < |Shorten(RenderAll(runs))| ==> OneLine(Shorten(RenderAll(runs))[i])
  {
    hide RenderAll, Marker, Render, OneLine;
    var all, out := RenderAll(runs), Shorten(RenderAll(runs));
    forall i | 0 <= i < |all| ensures OneLine(all[i]) { RenderedIsOneLine(runs[i]); }
    if |all| > 200 {
      MarkerIsOneLine(|all| - 160);
      forall i | 0 <= i < |out| ensures OneLine(out[i]) {
        assert i < 120 ==> out[i] == all[i];
        assert i == 120 ==> out[i] == Marker(|all| - 160);
        assert i > 120 ==> out[i] == all[|all| - 40 + i - 121];
      }
    }
  }

  // Trimming a coloured log, line by line: the codes come off, then the lines are folded, then the middle of a huge
  // one is left out.
  lemma {:induction false} TrimmedLines(ss: seq<Stretch>, last: string)
    requires (forall i :: 0 <= i < |ss| ==> Coloured(ss[i])) && Find(last, [27 as char, '['], 0) == -1
    ensures var lines := Split(Read(ss) + last, "\n");
            Split(Trimmed(Printed(ss) + last), "\n") == Shorten(RenderAll(Runs(lines)))
  {
    hide Find, Runs, RenderAll, StripCodes, Shorten, Code;
    var text, plain := Printed(ss) + last, Read(ss) + last;
    var lines := Split(plain, NEWLINE);
    CodesComeOff(ss, last);
    SplitIsOneLine(plain);
    RunsOfOneLine(lines);
    if Find(text, [ESC, '['], 0) == -1 && Find(text, NEWLINE, 0) == -1 {
      NothingToStrip(text);
      assert lines == [text];
      OneLineIsLeft(text);
    } else {
      PrintedIsOneLine(Runs(lines));
      SomethingPrinted(lines);
      SplitJoin(Shorten(RenderAll(Runs(lines))));
    }
  }

  lemma RunsOfOneLine(lines: seq<string>)
    requires forall i :: 0 <= i < |lines| ==> OneLine(lines[i])
    ensures forall i :: 0 <= i < |Runs(lines)| ==> OneLine(Runs(lines)[i].line)
  {
    hide Runs, OneLine;
    RunsExpandAndAreMaximal(lines);
    forall i | 0 <= i < |Runs(lines)| ensures OneLine(Runs(lines)[i].line) {
      RunLineIsALine(Runs(lines), i);
      assert Runs(lines)[i].line in lines;
    }
  }

  lemma OneLineIsLeft(text: string)
    ensures Shorten(RenderAll(Runs([text]))) == [text]
  {
    var lines := [text];
    assert lines[1..] == [];
    assert Runs(lines) == [Run(text, 1)];
  }

  lemma SomethingPrinted(lines: seq<string>)
    requires lines != []
    ensures Shorten(RenderAll(Runs(lines))) != []
  {
  }

  // Up to 200 runs the log can be read back from the trimmed text, colours apart, if no line looks like a count.
  lemma {:induction false} TrimKeepsTheLog(ss: seq<Stretch>, last: string)
    requires (forall i :: 0 <= i < |ss| ==> Coloured(ss[i])) && Find(last, [27 as char, '['], 0) == -1
    requires |Runs(Split(Read(ss) + last, "\n"))| <= 200
    requires var lines := Split(Read(ss) + last, "\n");
             forall i :: 0 <= i < |lines| ==> Find(lines[i], "    ... x", 0) == -1
    ensures UnfoldAll(Split(Trimmed(Printed(ss) + last), "\n")) == Split(Read(ss) + last, "\n")
  {
    hide Find, Runs, RenderAll, UnfoldAll, Split, Code;
    TrimmedLines(ss, last);
    FoldLosesNothing(Split(Read(ss) + last, "\n"));
  }

  // A text without colour codes and without repeated neighbouring lines, up to 200 lines, is left alone.
  lemma NothingRepeatedNothingLost(text: string)
    requires Find(text, [ESC, '['], 0) == -1
    requires var lines := Split(text, NEWLINE);
             |lines| <= 200 && forall i :: 0 <= i < |lines| - 1 ==> lines[i] != lines[i + 1]
    ensures Trimmed(text) == text
  {
    hide Find;
    var lines := Split(text, NEWLINE);
    NothingToStrip(text);
    var runs := Singles(lines);
    SinglesExpand(lines);
    MaximalRunsAreUnique(lines, runs);
    assert RenderAll(runs) == lines;
    JoinSplit(text, NEWLINE);
  }

  function Singles(lines: seq<string>): (r: seq<Run>)
    ensures |r| == |lines| && forall i :: 0 <= i < |r| ==> r[i] == Run(lines[i], 1)
  {
    seq(|lines|, i requires 0 <= i < |lines| => Run(lines[i], 1))
  }

  lemma {:induction false} SinglesExpand(lines: seq<string>)
    ensures Expand(Singles(lines)) == lines
  {
    if lines != [] {
      SinglesExpand(lines[1..]);
      assert Singles(lines)[1..] == Singles(lines[1..]);
      assert Repeat(lines[0], 1) == [lines[0]];
      assert lines == [lines[0]] + lines[1..];
    }
  }
}
