// A sender of chunked bodies (section 7.1 of RFC 9112), written apart from the reader: sizes by repeated division,
// digits from a table.
module ChunkWriter {
  import opened Prelude
  import opened Chunked
  import opened HttpReader

  // "0123456789abcdef" and "0123456789ABCDEF"
  const LOWER: bytes := [48, 49, 50, 51, 52, 53, 54, 55, 56, 57, 97, 98, 99, 100, 101, 102]
  const UPPER: bytes := [48, 49, 50, 51, 52, 53, 54, 55, 56, 57, 65, 66, 67, 68, 69, 70]

  function HexOf(n: nat, digits: bytes): (s: bytes)
    requires |digits| == 16
    ensures s != []
  {
    if n < 16 then [digits[n]] else HexOf(n / 16, digits) + [digits[n % 16]]
  }

  // The size line's number, with any number of leading zeros.
  function SizeOf(n: nat, zeros: nat, upper: bool): bytes {
    Repeat(ZERO, zeros) + HexOf(n, if upper then UPPER else LOWER)
  }

  lemma TableDigit(d: nat, upper: bool)
    requires d < 16
    ensures var c := (if upper then UPPER else LOWER)[d]; HexDigit(c) && HexDigitValue(c) == d
  {
  }

  lemma {:induction false} HexOfReads(n: nat, upper: bool)
    ensures var s := HexOf(n, if upper then UPPER else LOWER); Hex(s) && HexValue(s) == n
  {
    hide HexDigit, HexDigitValue;
    var digits := if upper then UPPER else LOWER;
    if n < 16 {
      TableDigit(n, upper);
      assert [digits[n]][..0] == [];
    } else {
      HexOfReads(n / 16, upper);
      TableDigit(n % 16, upper);
      var front := HexOf(n / 16, digits);
      var s := front + [digits[n % 16]];
      assert s[..|s| - 1] == front;
      forall i | 0 <= i < |s| ensures HexDigit(s[i]) { assert i < |front| ==> s[i] == front[i]; }
    }
  }

  lemma {:induction false} LeadingZeros(s: bytes, zeros: nat)
    requires Hex(s)
    ensures Hex(Repeat(ZERO, zeros) + s) && HexValue(Repeat(ZERO, zeros) + s) == HexValue(s)
    decreases |s|
  {
    hide HexDigitValue;
    var all := Repeat(ZERO, zeros) + s;
    var n := |s| - 1;
    assert HexDigit(48) && HexDigit(s[n]);
    assert all[..|all| - 1] == Repeat(ZERO, zeros) + s[..n];
    if n > 0 {
      LeadingZeros(s[..n], zeros);
    } else {
      assert Repeat(ZERO, zeros) + s[..n] == Repeat(ZERO, zeros);
      OnlyZeros(zeros);
    }
  }

  lemma {:induction false} OnlyZeros(zeros: nat)
    ensures HexValue(Repeat(ZERO, zeros)) == 0
  {
    if zeros > 0 {
      var s := Repeat(ZERO, zeros);
      assert s[..zeros - 1] == Repeat(ZERO, zeros - 1) && s[zeros - 1] == ZERO;
      OnlyZeros(zeros - 1);
    }
  }

  // Every number written in base sixteen, in either case and with any leading zeros, is read back.
  lemma SizeRoundTrip(n: nat, zeros: nat, upper: bool)
    ensures Hex(SizeOf(n, zeros, upper)) && HexValue(SizeOf(n, zeros, upper)) == n
    ensures ParseSize(SizeOf(n, zeros, upper)) == Some(n)
  {
    hide Hex, HexValue, HexOf, ParseSize;
    HexOfReads(n, upper);
    LeadingZeros(HexOf(n, if upper then UPPER else LOWER), zeros);
    PlainSize(SizeOf(n, zeros, upper));
  }

  // ----- the number syntax of the size line -----

  predicate Blanks(s: bytes) { forall i :: 0 <= i < |s| ==> s[i] in {9, 10, 11, 12, 13, 32} }

  // Hexadecimal digits of either case, with single underscores between them.
  predicate Grouped(ds: bytes) {
    && ds != [] && ds[0] != 95 && ds[|ds| - 1] != 95
    && (forall i :: 0 <= i < |ds| ==> 48 <= ds[i] <= 57 || 65 <= ds[i] <= 70 || 97 <= ds[i] <= 102 || ds[i] == 95)
    && (forall i :: 0 <= i < |ds| - 1 ==> !(ds[i] == 95 && ds[i + 1] == 95))
  }

  // "0x" in either case, and possibly an underscore after it; or nothing.
  predicate Prefix(s: bytes) { s in {[], [48, 120], [48, 88], [48, 120, 95], [48, 88, 95]} }

  predicate Sign(s: bytes) { s in {[], [43], [45]} }

  function Bare(ds: bytes): bytes { if ds == [] then [] else (if ds[0] == 95 then [] else [ds[0]]) + Bare(ds[1..]) }

  lemma {:induction false} BareIs(ds: bytes)
    ensures Bare(ds) == Filter(ds, NotUnderscore)
  {
    if ds != [] { BareIs(ds[1..]); }
  }

  lemma GroupedDigits(ds: bytes)
    ensures Grouped(ds) <==> Digits(ds)
  {
    if Digits(ds) {
      forall i | 0 <= i < |ds| ensures HexDigit(ds[i]) || ds[i] == 95 { assert ds[i] in ds; }
    }
  }

  lemma {:induction false} UnpaddedLeaves(s: bytes) returns (a: bytes, c: bytes)
    ensures s == a + Unpadded(s) + c && Blanks(a) && Blanks(c)
    decreases |s|
  {
    a, c := [], [];
    if s != [] && BlankByte(s[0]) {
      a, c := UnpaddedLeaves(s[1..]);
      assert s == [s[0]] + s[1..];
      assert [s[0]] + (a + Unpadded(s[1..]) + c) == ([s[0]] + a) + Unpadded(s[1..]) + c;
      a := [s[0]] + a;
    } else if s != [] && BlankByte(s[|s| - 1]) {
      var n := |s| - 1;
      a, c := UnpaddedLeaves(s[..n]);
      assert s == s[..n] + [s[n]];
      assert (a + Unpadded(s[..n]) + c) + [s[n]] == a + Unpadded(s[..n]) + (c + [s[n]]);
      c := c + [s[n]];
    }
  }

  lemma {:induction false} UnpaddedIs(a: bytes, m: bytes, c: bytes)
    requires Blanks(a) && Blanks(c) && m != [] && !BlankByte(m[0]) && !BlankByte(m[|m| - 1])
    ensures Unpadded(a + m + c) == m
    decreases |a| + |c|
  {
    var s := a + m + c;
    if a != [] {
      assert s[1..] == a[1..] + m + c && s[0] == a[0];
      UnpaddedIs(a[1..], m, c);
    } else if c != [] {
      var n := |s| - 1;
      assert s[..n] == a + m + c[..|c| - 1] && s[n] == c[|c| - 1] && s[0] == m[0];
      UnpaddedIs(a, m, c[..|c| - 1]);
    } else {
      assert s == m;
    }
  }

  lemma UnprefixedIs(prefix: bytes, ds: bytes)
    requires Prefix(prefix) && Grouped(ds)
    ensures Unprefixed(prefix + ds) == ds
  {
    var s := prefix + ds;
    assert prefix == [] ==> s == ds;
    assert |prefix| >= 2 ==> s[0] == 48 && s[1] == prefix[1];
    assert |prefix| == 2 ==> s[2..] == ds;
    assert |prefix| == 3 ==> s[2] == 95 && s[3..] == ds;
  }

  // The text is a size: blanks, a sign, a prefix, digits, blanks.
  ghost predicate Spells(text: bytes, value: int) {
    exists a, sign, prefix, ds, c ::
      Blanks(a) && Sign(sign) && Prefix(prefix) && Grouped(ds) && Blanks(c) && text == a + (sign + (prefix + ds)) + c
      && value == ValueOf(sign, ds)
  }

  function ValueOf(sign: bytes, ds: bytes): int
    requires Grouped(ds)
  {
    BareDigits(ds);
    var n: int := HexValue(Bare(ds));
    if sign == [45] then -n else n
  }

  lemma BareDigits(ds: bytes)
    requires Grouped(ds)
    ensures forall i :: 0 <= i < |Bare(ds)| ==> HexDigit(Bare(ds)[i])
  {
    BareIs(ds);
    GroupedDigits(ds);
    var r := WithoutUnderscores(ds);
  }

  lemma SpelledIsRead(a: bytes, sign: bytes, prefix: bytes, ds: bytes, c: bytes)
    requires Blanks(a) && Sign(sign) && Prefix(prefix) && Grouped(ds) && Blanks(c)
    ensures ParseSize(a + (sign + (prefix + ds)) + c) == Some(ValueOf(sign, ds))
  {
    hide Unpadded, Unprefixed, HexValue, Digits, Grouped, Filter, Bare;
    var t := sign + (prefix + ds);
    Ends(sign, prefix, ds);
    UnpaddedIs(a, t, c);
    UnprefixedIs(prefix, ds);
    GroupedDigits(ds);
    BareIs(ds);
    assert sign != [] ==> t[1..] == prefix + ds;
    assert sign == [] ==> t == prefix + ds;
  }

  lemma Ends(sign: bytes, prefix: bytes, ds: bytes)
    requires Sign(sign) && Prefix(prefix) && Grouped(ds)
    ensures var t := sign + (prefix + ds);
            && t != [] && !BlankByte(t[0]) && !BlankByte(t[|t| - 1])
            && (sign == [] ==> t[0] !in {PLUS, MINUS}) && (sign != [] ==> t[0] == sign[0])
  {
    var t := sign + (prefix + ds);
    assert t[|t| - 1] == ds[|ds| - 1];
    assert prefix == [] ==> (prefix + ds)[0] == ds[0];
    assert prefix != [] ==> (prefix + ds)[0] == 48;
    assert sign == [] ==> t == prefix + ds;
  }

  lemma PartsOf(t: bytes, value: int) returns (sign: bytes, prefix: bytes, ds: bytes)
    requires Unpadded(t) == t && ParseSize(t) == Some(value)
    ensures Sign(sign) && Prefix(prefix) && Grouped(ds) && t == sign + (prefix + ds) && value == ValueOf(sign, ds)
  {
    hide Unpadded, HexValue, Digits, Grouped, Filter, Bare, Prefix;
    sign := if t != [] && t[0] in {PLUS, MINUS} then [t[0]] else [];
    var body := if sign != [] then t[1..] else t;
    ds := Unprefixed(body);
    prefix := body[..|body| - |ds|];
    PrefixIs(body);
    GroupedDigits(ds);
    BareIs(ds);
    assert t == sign + body;
  }

  lemma ReadIsSpelled(text: bytes)
    requires ParseSize(text).Some?
    ensures Spells(text, ParseSize(text).value)
  {
    hide Unpadded, HexValue, Digits, Grouped, Filter, Bare, Prefix, Sign, Blanks, Unprefixed, ValueOf;
    var a, c := UnpaddedLeaves(text);
    UnpaddedAgain(text);
    var sign, prefix, ds := PartsOf(Unpadded(text), ParseSize(text).value);
    assert text == a + (sign + (prefix + ds)) + c;
  }

  lemma {:induction false} UnpaddedAgain(s: bytes)
    ensures Unpadded(Unpadded(s)) == Unpadded(s)
    decreases |s|
  {
    if s != [] && BlankByte(s[0]) {
      UnpaddedAgain(s[1..]);
    } else if s != [] && BlankByte(s[|s| - 1]) {
      UnpaddedAgain(s[..|s| - 1]);
    }
  }

  lemma PrefixIs(body: bytes)
    ensures var ds := Unprefixed(body);
            |ds| <= |body| && Prefix(body[..|body| - |ds|]) && body == body[..|body| - |ds|] + ds
  {
    assert |body| >= 2 ==> body[..2] == [body[0], body[1]];
    assert |body| >= 3 ==> body[..3] == [body[0], body[1], body[2]];
  }

  // A text is read as a size exactly when it spells one, and then as the number it spells.
  lemma ParseSizeIff(text: bytes, value: int)
    ensures ParseSize(text) == Some(value) <==> Spells(text, value)
  {
    hide ParseSize, Blanks, Sign, Prefix, Grouped, ValueOf;
    if ParseSize(text).Some? { ReadIsSpelled(text); }
    if Spells(text, value) {
      var a, sign, prefix, ds, c :|
        Blanks(a) && Sign(sign) && Prefix(prefix) && Grouped(ds) && Blanks(c)
        && text == a + (sign + (prefix + ds)) + c && value == ValueOf(sign, ds);
      SpelledIsRead(a, sign, prefix, ds, c);
    }
  }

  // ----- sending a body -----

  // A piece of data as one chunk: how its size is written, and an extension.
  datatype Piece = Piece(data: bytes, zeros: nat, upper: bool, ext: bytes)

  // Nothing, or a semicolon and what follows it, without a line end.
  predicate Tail(ext: bytes) {
    ext == [] || (ext[0] == 59 && forall i :: 0 <= i < |ext| - 1 ==> !(ext[i] == 13 && ext[i + 1] == 10))
  }

  lemma TailIsExtension(ext: bytes)
    ensures Tail(ext) ==> Extension(ext)
  {
  }

  predicate Sendable(p: Piece) { p.data != [] && Tail(p.ext) }

  // The body on the wire, with the last chunk, a trailer section and whatever follows.
  function Wire(pieces: seq<Piece>, end: Piece, trailer: bytes): bytes {
    if pieces == [] then SizeOf(0, end.zeros, end.upper) + end.ext + [13, 10] + trailer
    else
      var p := pieces[0];
      SizeOf(|p.data|, p.zeros, p.upper) + p.ext + [13, 10] + p.data + [13, 10] + Wire(pieces[1..], end, trailer)
  }

  function Sent(pieces: seq<Piece>): bytes {
    if pieces == [] then [] else pieces[0].data + Sent(pieces[1..])
  }

  function AsChunk(p: Piece): Chunk { Chunk(SizeOf(|p.data|, p.zeros, p.upper), p.ext, p.data) }

  function AsChunks(pieces: seq<Piece>): (chunks: seq<Chunk>)
    ensures |chunks| == |pieces| && forall i :: 0 <= i < |pieces| ==> chunks[i] == AsChunk(pieces[i])
  {
    seq(|pieces|, i requires 0 <= i < |pieces| => AsChunk(pieces[i]))
  }

  function EndOf(end: Piece, trailer: bytes): Last { Last(SizeOf(0, end.zeros, end.upper), end.ext, trailer) }

  lemma AllWellFormed(pieces: seq<Piece>, end: Piece, trailer: bytes)
    requires (forall i :: 0 <= i < |pieces| ==> Sendable(pieces[i])) && Tail(end.ext)
    ensures forall i :: 0 <= i < |pieces| ==> WellFormed(AsChunks(pieces)[i])
    ensures WellFormedLast(EndOf(end, trailer))
  {
    hide SizeOf, Hex, HexValue, Extension, Tail;
    TailIsExtension(end.ext);
    SizeRoundTrip(0, end.zeros, end.upper);
    forall i | 0 <= i < |pieces| ensures WellFormed(AsChunk(pieces[i])) {
      assert Sendable(pieces[i]);
      TailIsExtension(pieces[i].ext);
      SizeRoundTrip(|pieces[i].data|, pieces[i].zeros, pieces[i].upper);
    }
  }

  lemma {:induction false} WireIsEncoding(pieces: seq<Piece>, end: Piece, trailer: bytes)
    ensures Wire(pieces, end, trailer) == Encode(AsChunks(pieces), EndOf(end, trailer))
    ensures Data(AsChunks(pieces)) == Sent(pieces)
  {
    hide SizeOf;
    if pieces != [] {
      WireIsEncoding(pieces[1..], end, trailer);
      assert AsChunks(pieces)[1..] == AsChunks(pieces[1..]);
    }
  }

  // What this sender puts on the wire the proxy's reader takes off again, whatever the data, its pieces, the
  // spelling of the sizes, the extensions and the trailer.
  lemma SentIsReceived(pieces: seq<Piece>, end: Piece, trailer: bytes)
    requires (forall i :: 0 <= i < |pieces| ==> Sendable(pieces[i])) && Tail(end.ext)
    ensures Dechunked(Wire(pieces, end, trailer), 0, []) == Sent(pieces)
  {
    hide Wire, Encode, Data, EndOf, AsChunks, Dechunked, DataIn, WellFormed, WellFormedLast, Tail, Sent;
    var wire := Wire(pieces, end, trailer);
    AllWellFormed(pieces, end, trailer);
    WireIsEncoding(pieces, end, trailer);
    assert wire[0..] == wire;
    DechunkedPrefix(wire, wire, 0, [], AsChunks(pieces), EndOf(end, trailer));
    NoEmptyChunk(AsChunks(pieces));
    DataInPrefix(AsChunks(pieces), |wire|);
    EncodingHoldsAll(AsChunks(pieces), EndOf(end, trailer));
    assert [] + Sent(pieces) == Sent(pieces);
  }

  lemma NoEmptyChunk(chunks: seq<Chunk>)
    requires forall i :: 0 <= i < |chunks| ==> WellFormed(chunks[i])
    ensures forall i :: 0 <= i < |chunks| ==> chunks[i].data != []
  {
  }

  lemma {:induction false} EncodingHoldsAll(chunks: seq<Chunk>, last: Last)
    ensures Enough(chunks) <= |Encode(chunks, last)|
  {
    if chunks != [] { EncodingHoldsAll(chunks[1..], last); }
  }

  // A request sent this way is read whole, however it is cut up, if and only if its head has room and neither the
  // end marker nor the size limit comes before the last data byte.
  lemma SentRequestIsRead(framing: bytes -> Framing, head: bytes, pieces: seq<Piece>, end: Piece, trailer: bytes)
    requires (forall i :: 0 <= i < |pieces| ==> Sendable(pieces[i])) && Tail(end.ext)
    requires framing(head) == ChunkedBody
    requires Find(head + [13, 10, 13, 10] + Wire(pieces, end, trailer), [13, 10, 13, 10], 0) == |head|
    ensures var wire := Wire(pieces, end, trailer);
            var m := head + [13, 10, 13, 10] + wire;
            (forall frags :: Delivers(frags, m) ==> RequestRead(frags, framing) == Some((head, Sent(pieces))))
            <==> HeadRoom(m, |head|) && (pieces == [] || Stop(wire, 0) >= Enough(AsChunks(pieces)))
  {
    hide Wire, Encode, Data, EndOf, AsChunks, WellFormed, WellFormedLast, Tail, Sent, RequestRead, Stop, Enough, Find;
    var m := head + [13, 10, 13, 10] + Wire(pieces, end, trailer);
    assert HEAD_END == [13, 10, 13, 10];
    AllWellFormed(pieces, end, trailer);
    WireIsEncoding(pieces, end, trailer);
    FragmentationIndependence(framing, m, head, AsChunks(pieces), EndOf(end, trailer));
  }
}
