// Server-sent events down to data payloads: str.splitlines, str.strip and the data-line filter
// (compare section 9.2 of the WHATWG HTML Living Standard).
module Sse {
  import opened Prelude
  import opened Streams

  const DATA := "data:"
  const DONE := "[DONE]"

  // The line boundaries of str.splitlines; the pair CR LF counts once.
  predicate Boundary(c: char) {
    '\n' <= c <= '\r' || '\U{1c}' <= c <= '\U{1e}' || c == '\U{85}' || c == '\U{2028}' || c == '\U{2029}'
  }

  // The characters str.strip removes.
  predicate White(c: char) {
    || '\t' <= c <= '\r' || '\U{1c}' <= c <= ' ' || c == '\U{85}' || c == '\U{a0}' || c == '\U{1680}'
    || '\U{2000}' <= c <= '\U{200a}' || c == '\U{2028}' || c == '\U{2029}' || c == '\U{202f}' || c == '\U{205f}'
    || c == '\U{3000}'
  }

  predicate OneLine(s: string) { forall i :: 0 <= i < |s| ==> !Boundary(s[i]) }

  function FirstBoundary(s: string): (k: nat)
    ensures k <= |s| && (forall i :: 0 <= i < k ==> !Boundary(s[i])) && (k < |s| ==> Boundary(s[k]))
  {
    if s == [] || Boundary(s[0]) then 0 else 1 + FirstBoundary(s[1..])
  }

  function Width(s: string, k: nat): (w: nat)
    requires k < |s|
    ensures 1 <= w <= 2 && k + w <= |s|
  {
    if s[k] == '\r' && k + 1 < |s| && s[k + 1] == '\n' then 2 else 1
  }

  function SplitLines(s: string): seq<string> {
    var k := FirstBoundary(s);
    if s == [] then [] else if k == |s| then [s] else [s[..k]] + SplitLines(s[k + Width(s, k)..])
  }

  // The number of leading white characters.
  function Blank(s: string): (n: nat)
    ensures n <= |s| && (forall i :: 0 <= i < n ==> White(s[i])) && (n < |s| ==> !White(s[n]))
  {
    if s != [] && White(s[0]) then 1 + Blank(s[1..]) else 0
  }

  function LStrip(s: string): string { s[Blank(s)..] }

  function RStrip(s: string): (r: string)
    ensures r <= s && (r != [] ==> !White(r[|r| - 1]))
  {
    if s != [] && White(s[|s| - 1]) then RStrip(s[..|s| - 1]) else s
  }

  function Strip(s: string): string { RStrip(LStrip(s)) }

  // What follows "data:" on a line, if it is a data line at all.
  function Content(line: string): Option<string> {
    var l := Strip(line);
    if DATA <= l then Some(Strip(l[|DATA|..])) else None
  }

  function PayloadOf(line: string): seq<string> {
    match Content(line)
    case Some(p) => if p != [] && p != DONE then [p] else []
    case None => []
  }

  function Payloads(text: string): seq<string> { Gather(SplitLines(text), PayloadOf) }

  method IterSseData(text: string) returns (out: seq<string>)
    ensures out == Payloads(text)
  {
    out := [];
    var lines := SplitLines(text);
    for i := 0 to |lines|
      invariant out == Gather(lines[..i], PayloadOf)
    {
      GatherStep(lines, PayloadOf, i);
      var line := Strip(lines[i]);
      if line == [] || !(DATA <= line) { continue; }
      var payload := Strip(line[|DATA|..]);
      if payload != [] && payload != DONE { out := out + [payload]; }
    }
    assert lines[..|lines|] == lines;
  }

  // ----- stripping -----

  predicate Trimmed(s: string) { s != [] ==> !White(s[0]) && !White(s[|s| - 1]) }

  lemma {:induction false} RStripLongest(s: string, p: string)
    requires p <= s && (p != [] ==> !White(p[|p| - 1]))
    ensures p <= RStrip(s)
  {
    if s != [] && White(s[|s| - 1]) {
      assert p != s;
      RStripLongest(s[..|s| - 1], p);
    }
  }

  lemma BlankIs(s: string, n: nat)
    requires n <= |s| && (forall i :: 0 <= i < n ==> White(s[i])) && (n < |s| ==> !White(s[n]))
    ensures Blank(s) == n
  {
    hide White;
  }

  lemma LStripPrefix(s: string, k: nat)
    requires k <= |s|
    ensures LStrip(s[..k]) <= LStrip(s)
  {
    hide White, Blank;
    var n := Blank(s);
    if n < k {
      BlankIs(s[..k], n);
    } else {
      BlankIs(s[..k], k);
    }
  }

  // Cutting a string short cuts its stripped form short.
  lemma StripPrefix(s: string, k: nat)
    requires k <= |s|
    ensures Strip(s[..k]) <= Strip(s)
  {
    LStripPrefix(s, k);
    RStripLongest(LStrip(s), Strip(s[..k]));
  }

  lemma StripTrims(s: string)
    ensures Trimmed(Strip(s)) && (Trimmed(s) ==> Strip(s) == s)
  {
  }

  // The code points of the two character classes.
  lemma BoundariesAre(c: char)
    ensures Boundary(c) <==> c as int in {10, 11, 12, 13, 28, 29, 30, 133, 8232, 8233}
    ensures White(c) <==> c as int in {9, 10, 11, 12, 13, 28, 29, 30, 31, 32, 133, 160, 5760, 8192, 8193, 8194, 8195,
                                       8196, 8197, 8198, 8199, 8200, 8201, 8202, 8232, 8233, 8239, 8287, 12288}
  {
  }

  predicate AllWhite(s: string) { forall i :: 0 <= i < |s| ==> White(s[i]) }

  lemma {:induction false} RStripRest(s: string)
    ensures AllWhite(s[|RStrip(s)|..])
  {
    hide White;
    if s != [] && White(s[|s| - 1]) {
      var n := |RStrip(s)|;
      RStripRest(s[..|s| - 1]);
      assert forall i :: 0 <= i < |s| - 1 - n ==> s[n..][i] == s[..|s| - 1][n..][i];
    }
  }

  lemma StripLeaves(s: string) returns (a: string, c: string)
    ensures s == a + Strip(s) + c && AllWhite(a) && AllWhite(c)
  {
    hide White, RStrip, Blank;
    var l := LStrip(s);
    a, c := s[..Blank(s)], l[|RStrip(l)|..];
    RStripRest(l);
    assert l == RStrip(l) + c && s == a + l;
  }

  lemma {:induction false} RStripWhite(m: string, c: string)
    requires AllWhite(c) && (m != [] ==> !White(m[|m| - 1]))
    ensures RStrip(m + c) == m
    decreases |c|
  {
    if c == [] {
      assert m + c == m;
    } else {
      assert (m + c)[..|m + c| - 1] == m + c[..|c| - 1];
      RStripWhite(m, c[..|c| - 1]);
    }
  }

  lemma StripIs(a: string, m: string, c: string)
    requires AllWhite(a) && AllWhite(c) && Trimmed(m) && m != []
    ensures Strip(a + m + c) == m
  {
    hide White, RStrip;
    var s := a + m + c;
    BlankIs(s, |a|);
    assert LStrip(s) == m + c;
    RStripWhite(m, c);
  }

  // ----- round trip -----

  // A payload the reader hands back as it was sent.
  predicate Clean(p: string) { p != [] && p != "[DONE]" && Trimmed(p) && OneLine(p) }

  lemma OneLineStrip(s: string)
    requires OneLine(s)
    ensures OneLine(Strip(s))
  {
    var l := LStrip(s);
    assert forall i :: 0 <= i < |l| ==> l[i] == s[Blank(s) + i];
  }

  lemma PayloadOfIsClean(line: string)
    requires OneLine(line)
    ensures forall p :: p in PayloadOf(line) ==> Clean(p)
  {
    hide Strip;
    var l := Strip(line);
    OneLineStrip(line);
    if DATA <= l {
      OneLineStrip(l[|DATA|..]);
      StripTrims(l[|DATA|..]);
    }
  }

  // The line is "data:" and p, with white space before, between and after.
  ghost predicate DataLine(line: string, p: string) {
    exists a, b, c :: AllWhite(a) && AllWhite(b) && AllWhite(c) && line == a + ("data:" + b + p) + c
  }

  lemma PayloadIsOnDataLine(line: string, p: string)
    requires p in PayloadOf(line)
    ensures p != "" && p != "[DONE]" && Trimmed(p) && DataLine(line, p)
  {
    hide White, Strip, AllWhite;
    var l := Strip(line);
    var a, c := StripLeaves(line);
    var b, d := StripLeaves(l[|DATA|..]);
    StripTrims(line);
    StripTrims(l[|DATA|..]);
    NoTailLeft(l, b, p, d);
    assert l == "data:" + b + p;
    assert line == a + ("data:" + b + p) + c;
  }

  lemma DataLineYields(line: string, p: string)
    requires p != "" && p != "[DONE]" && Trimmed(p) && DataLine(line, p)
    ensures PayloadOf(line) == [p]
  {
    hide White, Strip, AllWhite;
    var a, b, c :| AllWhite(a) && AllWhite(b) && AllWhite(c) && line == a + ("data:" + b + p) + c;
    var l := "data:" + b + p;
    TrimmedEnds(l, p);
    StripIs(a, l, c);
    assert l[|DATA|..] == b + p + "";
    NothingWhite();
    StripIs(b, p, "");
  }

  // A line yields p exactly when it is "data:" and p with white space before, between and after, for a p that is
  // not empty, not padded and not the end marker.
  lemma DataLineIff(line: string, p: string)
    ensures p in PayloadOf(line) <==>
            p != "" && p != "[DONE]" && Trimmed(p) &&
            exists a, b, c :: AllWhite(a) && AllWhite(b) && AllWhite(c) && line == a + ("data:" + b + p) + c
  {
    hide PayloadOf, AllWhite, Trimmed;
    if p in PayloadOf(line) { PayloadIsOnDataLine(line, p); }
    if p != "" && p != "[DONE]" && Trimmed(p) && DataLine(line, p) { DataLineYields(line, p); }
  }

  lemma NothingWhite()
    ensures AllWhite("")
  {
  }

  lemma NoTailLeft(l: string, b: string, p: string, d: string)
    requires DATA <= l && l[|DATA|..] == b + p + d && AllWhite(d)
    ensures d != "" ==> White(l[|l| - 1])
  {
    assert d != "" ==> l[|l| - 1] == d[|d| - 1];
  }

  lemma TrimmedEnds(l: string, p: string)
    requires Trimmed(p) && p != [] && |l| > |p| && l[0] == 'd' && l[|l| - |p|..] == p
    ensures Trimmed(l)
  {
    assert l[|l| - 1] == p[|p| - 1];
  }

  lemma {:induction false} GatherIsClean(lines: seq<string>)
    requires forall l :: l in lines ==> OneLine(l)
    ensures forall p :: p in Gather(lines, PayloadOf) ==> Clean(p)
  {
    hide PayloadOf, OneLine, Clean;
    if lines != [] {
      GatherIsClean(lines[..|lines| - 1]);
      PayloadOfIsClean(lines[|lines| - 1]);
    }
  }

  lemma {:induction false} LinesAreOneLine(s: string)
    ensures forall l :: l in SplitLines(s) ==> OneLine(l)
  {
    hide Boundary;
    var k := FirstBoundary(s);
    if k < |s| { LinesAreOneLine(s[k + Width(s, k)..]); }
  }

  // Everything the reader yields is non-empty, trimmed, free of boundaries and not the end marker.
  lemma PayloadsAreClean(text: string)
    ensures forall p :: p in Payloads(text) ==> Clean(p)
  {
    LinesAreOneLine(text);
    GatherIsClean(SplitLines(text));
  }

  datatype Ending = LF | CR | CRLF

  function Mark(e: Ending): string {
    match e case LF => "\n" case CR => "\r" case CRLF => "\r\n"
  }

  lemma FirstBoundaryIs(s: string, k: nat)
    requires k <= |s| && (forall i :: 0 <= i < k ==> !Boundary(s[i])) && (k < |s| ==> Boundary(s[k]))
    ensures FirstBoundary(s) == k
  {
    hide Boundary;
  }

  lemma {:induction false} GatherFront(line: string, lines: seq<string>)
    ensures Gather([line] + lines, PayloadOf) == PayloadOf(line) + Gather(lines, PayloadOf)
  {
    hide PayloadOf;
    GatherAppend([line], lines, PayloadOf);
    assert [line][..0] == [];
  }

  lemma EmptyLineIsSilent()
    ensures PayloadOf([]) == []
  {
    assert Strip([]) == [];
  }

  // One line is read on its own whichever way it ends, even when the next character completes a CR LF pair.
  lemma {:induction false} LineByLine(line: string, e: Ending, rest: string)
    requires OneLine(line)
    ensures Payloads(line + Mark(e) + rest) == PayloadOf(line) + Payloads(rest)
  {
    hide PayloadOf, FirstBoundary, Gather;
    var s := line + Mark(e) + rest;
    assert s == line + (Mark(e) + rest);
    FirstBoundaryIs(s, |line|);
    var w := Width(s, |line|);
    assert s[..|line|] == line;
    GatherFront(line, SplitLines(s[|line| + w..]));
    if e == CR && w == 2 {
      assert rest[0] == '\n';
      FirstBoundaryIs(rest, 0);
      assert s[|line| + w..] == rest[1..];
      assert rest[..0] == [];
      GatherFront([], SplitLines(rest[1..]));
      EmptyLineIsSilent();
    } else {
      assert s[|line| + w..] == rest;
    }
  }

  datatype Line = Line(text: string, ending: Ending)

  function Encode(lines: seq<Line>): string {
    if lines == [] then [] else lines[0].text + Mark(lines[0].ending) + Encode(lines[1..])
  }

  function LinePayload(l: Line): seq<string> { PayloadOf(l.text) }

  // Whatever mix of lines and line endings a server sends, exactly its data lines come through, in order.
  lemma {:induction false} ServerLinesComeThrough(lines: seq<Line>)
    requires forall l :: l in lines ==> OneLine(l.text)
    ensures Payloads(Encode(lines)) == Gather(lines, LinePayload)
  {
    hide PayloadOf;
    if lines != [] {
      ServerLinesComeThrough(lines[1..]);
      LineByLine(lines[0].text, lines[0].ending, Encode(lines[1..]));
      GatherAppend([lines[0]], lines[1..], LinePayload);
      assert [lines[0]][..0] == [];
      assert lines == [lines[0]] + lines[1..];
    }
  }

  lemma StripSpace(p: string)
    requires Trimmed(p)
    ensures Strip(" " + p) == p
  {
    assert (" " + p)[1..] == p;
    StripTrims(p);
  }

  // A payload sent as "data: p" is read back, unless it is empty, padded or the end marker.
  lemma {:induction false} DataLineReadsBack(p: string)
    requires Clean(p)
    ensures PayloadOf(DATA + " " + p) == [p]
  {
    hide Strip, White;
    var line := DATA + " " + p;
    DataLineTrimmed(p, line);
    StripTrims(line);
    assert line[|DATA|..] == " " + p;
    StripSpace(p);
  }

  lemma DataLineTrimmed(p: string, line: string)
    requires Clean(p) && line == DATA + " " + p
    ensures Trimmed(line)
  {
    assert line[0] == 'd' && line[|line| - 1] == p[|p| - 1];
  }

  // One frame per payload: the data line and the blank line that dispatches it.
  function Send(payloads: seq<string>): string {
    if payloads == [] then [] else "data:" + " " + payloads[0] + "\n" + ("\n" + Send(payloads[1..]))
  }

  lemma {:induction false} CleanPayloadsReadBack(payloads: seq<string>)
    requires forall p :: p in payloads ==> Clean(p)
    ensures Payloads(Send(payloads)) == payloads
  {
    hide PayloadOf, Clean, Payloads;
    if payloads == [] {
      assert Payloads([]) == [] by { NoLines(); }
    } else {
      var p, rest := payloads[0], Send(payloads[1..]);
      CleanPayloadsReadBack(payloads[1..]);
      DataLineReadsBack(p);
      DataLineIsOneLine(p);
      LineByLine(DATA + " " + p, LF, "\n" + rest);
      LineByLine([], LF, rest);
      assert [] + "\n" + rest == "\n" + rest;
      EmptyLineIsSilent();
    }
  }

  lemma NoLines()
    ensures Payloads([]) == []
  {
  }

  lemma DataLineIsOneLine(p: string)
    requires Clean(p)
    ensures OneLine(DATA + " " + p)
  {
  }

  // The payloads come back exactly when each is non-empty, trimmed, on one line in the sense of splitlines,
  // and not the end marker.
  lemma {:induction false} RoundTripIff(payloads: seq<string>)
    ensures Payloads(Send(payloads)) == payloads <==> forall p :: p in payloads ==> Clean(p)
  {
    hide Clean, Payloads, Send;
    PayloadsAreClean(Send(payloads));
    if forall p :: p in payloads ==> Clean(p) { CleanPayloadsReadBack(payloads); }
  }

  // ----- truncation -----

  // Where the first line of a cut text ends, when the cut comes after it.
  lemma {:induction false} CutKeepsFirstLine(s: string, k: nat)
    requires FirstBoundary(s) < k <= |s|
    ensures FirstBoundary(s[..k]) == FirstBoundary(s)
    ensures Width(s[..k], FirstBoundary(s)) <= Width(s, FirstBoundary(s))
    ensures FirstBoundary(s) + Width(s, FirstBoundary(s)) <= k ==>
              Width(s[..k], FirstBoundary(s)) == Width(s, FirstBoundary(s))
  {
    hide Boundary;
    FirstBoundaryIs(s[..k], FirstBoundary(s));
  }

  lemma FirstLine(s: string)
    requires FirstBoundary(s) < |s|
    ensures var b := FirstBoundary(s); SplitLines(s) == [s[..b]] + SplitLines(s[b + Width(s, b)..])
  {
    hide Boundary, Width, FirstBoundary;
  }

  lemma SplitNothing()
    ensures SplitLines([]) == []
  {
  }

  // A text cut after its first line still starts with that line, whether the cut spares the boundary ...
  lemma {:induction false} CutAfterBoundary(s: string, k: nat)
    requires FirstBoundary(s) < |s| && FirstBoundary(s) + Width(s, FirstBoundary(s)) <= k <= |s|
    ensures var b := FirstBoundary(s);
            var after := b + Width(s, b);
            SplitLines(s[..k]) == [s[..b]] + SplitLines(s[after..][..k - after])
  {
    hide FirstBoundary, SplitLines, Width;
    CutKeepsFirstLine(s, k);
    FirstLine(s[..k]);
    var b := FirstBoundary(s);
    var after := b + Width(s, b);
    assert s[..k][..b] == s[..b];
    assert s[..k][after..] == s[after..][..k - after];
  }

  // ... or falls inside it.
  lemma {:induction false} CutInsideBoundary(s: string, k: nat)
    requires FirstBoundary(s) < k <= |s| && k < FirstBoundary(s) + Width(s, FirstBoundary(s))
    ensures SplitLines(s[..k]) == [s[..FirstBoundary(s)]]
  {
    hide FirstBoundary, SplitLines, Width;
    CutKeepsFirstLine(s, k);
    FirstLine(s[..k]);
    assert s[..k][..FirstBoundary(s)] == s[..FirstBoundary(s)];
    assert s[..k][k..] == [];
    SplitNothing();
  }

  // The lines of a text cut anywhere: whole lines of the text, then at most a cut one.
  lemma {:induction false} CutLines(s: string, k: nat) returns (n: nat, last: seq<string>)
    requires k <= |s|
    ensures n <= |SplitLines(s)| && SplitLines(s[..k]) == SplitLines(s)[..n] + last
    ensures last == [] || (n < |SplitLines(s)| && |last| == 1 && last[0] <= SplitLines(s)[n])
    decreases |s|
  {
    hide FirstBoundary, SplitLines, Width;
    var b := FirstBoundary(s);
    if k <= b {
      CutInsideLine(s, k);
      n, last := 0, if k == 0 then [] else [s[..k]];
    } else {
      var w := Width(s, b);
      FirstLine(s);
      if k < b + w {
        CutInsideBoundary(s, k);
        n, last := 1, [];
      } else {
        CutAfterBoundary(s, k);
        var m;
        m, last := CutLines(s[b + w..], k - b - w);
        n := m + 1;
      }
    }
  }

  lemma CutInsideLine(s: string, k: nat)
    requires k <= FirstBoundary(s)
    ensures SplitLines(s[..k]) == if k == 0 then [] else [s[..k]]
    ensures s != [] ==> SplitLines(s) != [] && s[..k] <= SplitLines(s)[0]
  {
    hide Boundary;
    FirstBoundaryIs(s[..k], k);
    assert k != 0 ==> s[..k] != [];
  }

  // A cut line has no content, or content that is cut from the line's own.
  lemma {:induction false} CutContent(line: string, cut: string)
    requires cut <= line
    ensures Content(cut).Some? ==> Content(line).Some? && Content(cut).value <= Content(line).value
  {
    hide Strip;
    StripPrefix(line, |cut|);
    assert line[..|cut|] == cut;
    if Content(cut).Some? {
      var tail, whole := Strip(cut)[|DATA|..], Strip(line)[|DATA|..];
      StripPrefix(whole, |tail|);
      assert whole[..|tail|] == tail;
    }
  }

  // The events a parser sees: payloads that do not decode are skipped.
  function Decoded<E>(payloads: seq<string>, decode: string -> Option<E>): seq<E> {
    if payloads == [] then []
    else
      var n := |payloads| - 1;
      Decoded(payloads[..n], decode) + match decode(payloads[n]) case Some(e) => [e] case None => []
  }

  lemma {:induction false} DecodedAppend<E>(a: seq<string>, b: seq<string>, decode: string -> Option<E>)
    ensures Decoded(a + b, decode) == Decoded(a, decode) + Decoded(b, decode)
  {
    if b == [] {
      assert a + b == a;
    } else {
      DecodedAppend(a, b[..|b| - 1], decode);
      assert (a + b)[..|a + b| - 1] == a + b[..|b| - 1];
    }
  }

  // The payloads a server writes for its events.
  function Encoded<E>(es: seq<E>, encode: E -> string): (payloads: seq<string>)
    ensures |payloads| == |es| && forall i :: 0 <= i < |es| ==> payloads[i] == encode(es[i])
  {
    seq(|es|, i requires 0 <= i < |es| => encode(es[i]))
  }

  lemma {:induction false} DecodedEncoded<E>(es: seq<E>, encode: E -> string, decode: string -> Option<E>)
    requires forall e :: e in es ==> decode(encode(e)) == Some(e)
    ensures Decoded(Encoded(es, encode), decode) == es
  {
    if es != [] {
      var n := |es| - 1;
      assert forall e :: e in es[..n] ==> e in es;
      DecodedEncoded(es[..n], encode, decode);
      assert Encoded(es, encode)[..n] == Encoded(es[..n], encode);
      assert es == es[..n] + [es[n]];
    }
  }

  // From a server's events to the reader's: every one arrives, in order.
  lemma {:induction false} SentEventsArrive<E>(es: seq<E>, encode: E -> string, decode: string -> Option<E>)
    requires forall e :: e in es ==> Clean(encode(e)) && decode(encode(e)) == Some(e)
    ensures Decoded(Payloads(Send(Encoded(es, encode))), decode) == es
  {
    hide Clean, Payloads, Send, Decoded;
    var payloads := Encoded(es, encode);
    forall p | p in payloads ensures Clean(p) {
      var i :| 0 <= i < |payloads| && payloads[i] == p;
      assert es[i] in es;
    }
    CleanPayloadsReadBack(payloads);
    DecodedEncoded(es, encode, decode);
  }

  // No data line of the text holds a payload of which a proper prefix would decode. Complete JSON objects and
  // the end marker never do.
  ghost predicate Whole<E>(text: string, decode: string -> Option<E>) {
    forall line :: line in SplitLines(text) && Content(line).Some? ==>
      forall j :: 0 <= j < |Content(line).value| ==> decode(Content(line).value[..j]) == None
  }

  // Cutting such a stream at any character costs its last events and changes none.
  lemma {:induction false} TruncationKeepsAPrefix<E>(text: string, k: nat, decode: string -> Option<E>)
    requires k <= |text| && Whole(text, decode)
    ensures Decoded(Payloads(text[..k]), decode) <= Decoded(Payloads(text), decode)
  {
    hide PayloadOf, Gather, SplitLines, Decoded;
    var lines := SplitLines(text);
    var n, last := CutLines(text, k);
    GatherAppend(lines[..n], last, PayloadOf);
    assert lines == lines[..n] + lines[n..];
    GatherAppend(lines[..n], lines[n..], PayloadOf);
    var before, cut, after :=
      Gather(lines[..n], PayloadOf), Gather(last, PayloadOf), Gather(lines[n..], PayloadOf);
    DecodedAppend(before, cut, decode);
    DecodedAppend(before, after, decode);
    assert Decoded(cut, decode) <= Decoded(after, decode) by {
      if last == [] {
        NothingDecoded<E>(decode);
        assert cut == [] by { NothingGathered(); }
      } else {
        assert lines[n] in lines;
        assert lines[n..] == [lines[n]] + lines[n + 1..];
        assert last == [last[0]] + [];
        GatherFront(last[0], []);
        NothingGathered();
        assert cut == PayloadOf(last[0]);
        GatherFront(lines[n], lines[n + 1..]);
        DecodedAppend(PayloadOf(lines[n]), Gather(lines[n + 1..], PayloadOf), decode);
        CutLineDecodes(lines[n], last[0], decode);
      }
    }
  }

  lemma NothingDecoded<E>(decode: string -> Option<E>)
    ensures Decoded([], decode) == []
  {
  }

  lemma NothingGathered()
    ensures Gather([], PayloadOf) == []
  {
  }

  lemma CutLineDecodes<E>(line: string, cut: string, decode: string -> Option<E>)
    requires cut <= line
    requires Content(line).Some? ==>
               forall j :: 0 <= j < |Content(line).value| ==> decode(Content(line).value[..j]) == None
    ensures Decoded(PayloadOf(cut), decode) <= Decoded(PayloadOf(line), decode)
  {
    hide Content;
    CutContent(line, cut);
    if Content(cut).Some? {
      var c, whole := Content(cut).value, Content(line).value;
      assert c == whole[..|c|];
      if |c| == |whole| { assert c == whole; }
      assert [c][..0] == [];
    }
  }
}
