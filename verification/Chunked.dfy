// The proxy's reader for chunked bodies (section 7.1 of RFC 9112).
module Chunked {
  import opened Prelude

  const CR: byte := 13
  const LF: byte := 10
  const SEMICOLON: byte := 59
  const CRLF: bytes := [CR, LF]

  predicate CrlfAt(data: bytes, k: nat) {
    k + 1 < |data| && data[k] == CR && data[k + 1] == LF
  }

  // data.find(b"\r\n", i): the first position from i on, or -1.
  function FindCrlf(data: bytes, i: nat): (j: int)
    ensures j == -1 || (i <= j && CrlfAt(data, j))
    ensures forall k: nat :: i <= k && (j == -1 || k < j) ==> !CrlfAt(data, k)
    decreases |data| - i
  {
    if i + 1 >= |data| then -1
    else if CrlfAt(data, i) then i
    else FindCrlf(data, i + 1)
  }

  // data[i:j], clamped as Python does.
  function Slice(data: bytes, i: nat, j: nat): bytes
    requires i <= j
  {
    if j <= |data| then data[i..j] else if i <= |data| then data[i..] else []
  }

  // split(b";", 1)[0]
  function BeforeExtension(line: bytes): (s: bytes)
    ensures s <= line
    ensures |s| < |line| ==> line[|s|] == SEMICOLON
    ensures SEMICOLON !in s
  {
    if line == [] || line[0] == SEMICOLON then [] else [line[0]] + BeforeExtension(line[1..])
  }

  predicate HexDigit(c: byte) { 48 <= c <= 57 || 65 <= c <= 70 || 97 <= c <= 102 }

  function HexDigitValue(c: byte): nat
    requires HexDigit(c)
  {
    if c <= 57 then c - 48 else if c <= 70 then c - 55 else c - 87
  }

  predicate Hex(s: bytes) { s != [] && forall i :: 0 <= i < |s| ==> HexDigit(s[i]) }

  function HexValue(s: bytes): nat
    requires forall i :: 0 <= i < |s| ==> HexDigit(s[i])
  {
    if s == [] then 0 else 16 * HexValue(s[..|s| - 1]) + HexDigitValue(s[|s| - 1])
  }

  // int(text, 16): surrounding blanks, a sign, a 0x prefix, and single underscores between the digits are
  // accepted; None is the ValueError.
  function ParseSize(text: bytes): Option<int> {
    var t := Unpadded(text);
    var negative := t != [] && t[0] == MINUS;
    var digits := Unprefixed(if t != [] && t[0] in {PLUS, MINUS} then t[1..] else t);
    if !Digits(digits) then None
    else
      var value: int := HexValue(WithoutUnderscores(digits));
      Some(if negative then -value else value)
  }

  const PLUS: byte := 43
  const MINUS: byte := 45
  const ZERO: byte := 48
  const UNDERSCORE: byte := 95

  predicate BlankByte(c: byte) { 9 <= c <= 13 || c == 32 }

  function Unpadded(s: bytes): bytes {
    if s != [] && BlankByte(s[0]) then Unpadded(s[1..])
    else if s != [] && BlankByte(s[|s| - 1]) then Unpadded(s[..|s| - 1])
    else s
  }

  function Unprefixed(s: bytes): bytes {
    if |s| >= 2 && s[0] == ZERO && s[1] in {88, 120} then
      if |s| > 2 && s[2] == UNDERSCORE then s[3..] else s[2..]
    else s
  }

  predicate NotUnderscore(c: byte) { c != UNDERSCORE }

  predicate Digits(s: bytes) {
    && s != [] && HexDigit(s[0]) && HexDigit(s[|s| - 1])
    && (forall c :: c in s ==> HexDigit(c) || c == UNDERSCORE)
    && (forall i :: 0 <= i < |s| - 1 ==> HexDigit(s[i]) || HexDigit(s[i + 1]))
  }

  function WithoutUnderscores(s: bytes): (r: bytes)
    requires Digits(s)
    ensures forall i :: 0 <= i < |r| ==> HexDigit(r[i])
  {
    var r := Filter(s, NotUnderscore);
    assert forall i :: 0 <= i < |r| ==> r[i] in r;
    r
  }

  lemma {:induction false} PlainSize(size: bytes)
    requires Hex(size)
    ensures ParseSize(size) == Some(HexValue(size))
  {
    hide Unpadded, Unprefixed, Digits, HexValue, Filter, HexDigit;
    Plain(size);
    NothingDropped(size);
  }

  lemma Plain(size: bytes)
    requires Hex(size)
    ensures Unpadded(size) == size && Unprefixed(size) == size && Digits(size) && size[0] != PLUS && size[0] != MINUS
  {
    assert HexDigit(size[0]) && HexDigit(size[|size| - 1]);
    assert |size| >= 2 ==> HexDigit(size[1]);
  }

  lemma {:induction false} NothingDropped(s: bytes)
    requires forall i :: 0 <= i < |s| ==> HexDigit(s[i])
    ensures Filter(s, NotUnderscore) == s
  {
    if s != [] { NothingDropped(s[1..]); }
  }

  // The size announced by the line at i. Zero stands for every reason to stop: no line end, no number, the last
  // chunk, and here also a negative size.
  function SizeAt(data: bytes, i: nat): nat {
    var j := FindCrlf(data, i);
    if j == -1 then 0
    else
      match ParseSize(BeforeExtension(data[i..j]))
      case None => 0
      case Some(n) => if n > 0 then n else 0
  }

  // The chunk data the loop appends at i, and where it goes on: past the data and its CRLF.
  function PieceAt(data: bytes, i: nat): bytes {
    var start := FindCrlf(data, i) + 2;
    Slice(data, start, start + SizeAt(data, i))
  }

  function NextAt(data: bytes, i: nat): (n: nat)
    ensures SizeAt(data, i) > 0 ==> n > i
  {
    FindCrlf(data, i) + 2 + SizeAt(data, i) + 2
  }

  function Dechunked(data: bytes, i: nat, out: bytes): bytes
    decreases |data| - i
  {
    if i >= |data| || SizeAt(data, i) == 0 then out
    else Dechunked(data, NextAt(data, i), out + PieceAt(data, i))
  }

  method Dechunk(data: bytes) returns (out: bytes)
    ensures out == Dechunked(data, 0, [])
  {
    hide FindCrlf, BeforeExtension, ParseSize, Slice;
    out := [];
    var i := 0;
    while i < |data|
      invariant Dechunked(data, i, out) == Dechunked(data, 0, [])
    {
      var j := FindCrlf(data, i);
      if j == -1 { break; }
      var n := ParseSize(BeforeExtension(data[i..j]));
      if n == None || n.value <= 0 { break; }
      var start := j + 2;
      out := out + Slice(data, start, start + n.value);
      assert start + n.value + 2 == NextAt(data, i);
      i := start + n.value + 2;
    }
  }

  // ----- the encoding -----

  datatype Chunk = Chunk(size: bytes, ext: bytes, data: bytes)

  predicate Extension(ext: bytes) {
    (ext == [] || ext[0] == SEMICOLON) && FindCrlf(ext, 0) == -1
  }

  predicate WellFormed(c: Chunk) {
    Hex(c.size) && HexValue(c.size) == |c.data| && c.data != [] && Extension(c.ext)
  }

  // The last chunk, with whatever trailer section and further bytes follow it.
  datatype Last = Last(size: bytes, ext: bytes, trailer: bytes)

  predicate WellFormedLast(l: Last) {
    Hex(l.size) && HexValue(l.size) == 0 && Extension(l.ext)
  }

  function Encode(chunks: seq<Chunk>, last: Last): bytes {
    if chunks == [] then last.size + last.ext + CRLF + last.trailer
    else
      var c := chunks[0];
      c.size + c.ext + CRLF + c.data + CRLF + Encode(chunks[1..], last)
  }

  function Data(chunks: seq<Chunk>): bytes {
    if chunks == [] then [] else chunks[0].data + Data(chunks[1..])
  }

  // The length of the encoding up to and including the last byte of data.
  function Enough(chunks: seq<Chunk>): nat {
    if chunks == [] then 0
    else
      var head := |chunks[0].size| + |chunks[0].ext| + 2 + |chunks[0].data|;
      if |chunks| == 1 then head else head + 2 + Enough(chunks[1..])
  }

  // ----- reading the encoding back -----

  // Where the message m spells out a size line from i on.
  predicate LineAt(m: bytes, i: nat, size: bytes, ext: bytes) {
    && i + |size| + |ext| + 2 <= |m|
    && m[i..i + |size|] == size && m[i + |size|..i + |size| + |ext|] == ext
    && CrlfAt(m, i + |size| + |ext|)
  }

  lemma {:induction false} BeforeTheExtension(size: bytes, ext: bytes)
    requires SEMICOLON !in size && (ext == [] || ext[0] == SEMICOLON)
    ensures BeforeExtension(size + ext) == size
  {
    if size == [] {
      assert size + ext == ext;
    } else {
      BeforeTheExtension(size[1..], ext);
      assert (size + ext)[1..] == size[1..] + ext;
    }
  }

  lemma NoEarlierCrlf(m: bytes, i: nat, size: bytes, ext: bytes, k: nat)
    requires Hex(size) && Extension(ext) && LineAt(m, i, size, ext) && i <= k < i + |size| + |ext|
    ensures !CrlfAt(m, k)
  {
    if k < i + |size| {
      assert m[k] == size[k - i] && HexDigit(size[k - i]);
    } else {
      var e := k - i - |size|;
      assert m[k] == ext[e] && !CrlfAt(ext, e);
      if e + 1 < |ext| { assert m[k + 1] == ext[e + 1]; }
    }
  }

  lemma {:induction false} ReadsLine(m: bytes, i: nat, size: bytes, ext: bytes)
    requires Hex(size) && Extension(ext) && LineAt(m, i, size, ext)
    ensures FindCrlf(m, i) == i + |size| + |ext|
    ensures SizeAt(m, i) == HexValue(size)
  {
    hide ParseSize;
    var j := i + |size| + |ext|;
    forall k | i <= k < j ensures !CrlfAt(m, k) { NoEarlierCrlf(m, i, size, ext, k); }
    assert m[i..j] == size + ext;
    assert SEMICOLON !in size;
    BeforeTheExtension(size, ext);
    PlainSize(size);
  }

  // A message cut inside a size line shows no line end there.
  lemma {:induction false} CutLine(m: bytes, p: bytes, i: nat, size: bytes, ext: bytes)
    requires Hex(size) && Extension(ext) && LineAt(m, i, size, ext)
    requires p <= m && |p| < i + |size| + |ext| + 2
    ensures SizeAt(p, i) == 0
  {
    var j := FindCrlf(p, i);
    if j != -1 {
      assert CrlfAt(m, j);
      NoEarlierCrlf(m, i, size, ext, j);
    }
  }

  lemma CutKeepsLine(m: bytes, p: bytes, i: nat, size: bytes, ext: bytes)
    requires LineAt(m, i, size, ext) && p <= m && i + |size| + |ext| + 2 <= |p|
    ensures LineAt(p, i, size, ext)
  {
    assert p[i..i + |size|] == m[i..i + |size|];
    assert p[i + |size|..i + |size| + |ext|] == m[i + |size|..i + |size| + |ext|];
  }

  function LineLength(c: Chunk): nat { |c.size| + |c.ext| + 2 }

  lemma LineSpelled(m: bytes, i: nat, size: bytes, ext: bytes, rest: bytes)
    requires i <= |m| && m[i..] == size + ext + CRLF + rest
    ensures LineAt(m, i, size, ext) && m[i + |size| + |ext| + 2..] == rest
  {
    var all := size + ext + CRLF + rest;
    assert forall k :: 0 <= k < |all| ==> m[i + k] == all[k];
  }

  // What stands where when the encoding fills m from i on.
  lemma Layout(m: bytes, i: nat, chunks: seq<Chunk>, last: Last)
    requires i <= |m| && m[i..] == Encode(chunks, last)
    ensures chunks == [] ==> LineAt(m, i, last.size, last.ext)
    ensures chunks != [] ==>
              var c := chunks[0];
              var start := i + LineLength(c);
              && LineAt(m, i, c.size, c.ext)
              && start + |c.data| + 2 <= |m|
              && m[start..start + |c.data|] == c.data
              && m[start + |c.data| + 2..] == Encode(chunks[1..], last)
  {
    hide LineAt;
    if chunks == [] {
      LineSpelled(m, i, last.size, last.ext, last.trailer);
    } else {
      var c := chunks[0];
      var rest := Encode(chunks[1..], last);
      assert c.size + c.ext + CRLF + c.data + CRLF + rest == c.size + c.ext + CRLF + (c.data + CRLF + rest);
      LineSpelled(m, i, c.size, c.ext, c.data + CRLF + rest);
      DataThenRest(m, i + LineLength(c), c.data, rest);
    }
  }

  lemma DataThenRest(m: bytes, start: nat, data: bytes, rest: bytes)
    requires start <= |m| && m[start..] == data + CRLF + rest
    ensures start + |data| + 2 <= |m| && m[start..start + |data|] == data && m[start + |data| + 2..] == rest
  {
    assert m[start..start + |data|] == m[start..][..|data|];
    assert m[start + |data| + 2..] == m[start..][|data| + 2..];
  }

  // The start of a well-formed chunk in m, with its data.
  predicate ChunkAt(m: bytes, i: nat, c: Chunk) {
    var start := i + LineLength(c);
    WellFormed(c) && LineAt(m, i, c.size, c.ext) && start + |c.data| <= |m| && m[start..start + |c.data|] == c.data
  }

  lemma {:induction false} WholeChunk(m: bytes, p: bytes, i: nat, out: bytes, c: Chunk)
    requires ChunkAt(m, i, c) && p <= m && |p| >= i + LineLength(c) + |c.data|
    ensures Dechunked(p, i, out) == Dechunked(p, i + LineLength(c) + |c.data| + 2, out + c.data)
  {
    hide FindCrlf, Hex, Extension, HexValue, SizeAt;
    CutKeepsLine(m, p, i, c.size, c.ext);
    ReadsLine(p, i, c.size, c.ext);
    var start := i + LineLength(c);
    assert p[start..start + |c.data|] == m[start..start + |c.data|];
    assert PieceAt(p, i) == c.data;
    assert NextAt(p, i) == start + |c.data| + 2;
  }

  lemma {:induction false} CutInLine(m: bytes, p: bytes, i: nat, out: bytes, c: Chunk)
    requires ChunkAt(m, i, c) && p <= m && |p| < i + LineLength(c)
    ensures Dechunked(p, i, out) == out
  {
    CutLine(m, p, i, c.size, c.ext);
  }

  lemma CutInData(m: bytes, p: bytes, i: nat, out: bytes, c: Chunk)
    requires ChunkAt(m, i, c) && p <= m && i + LineLength(c) <= |p| < i + LineLength(c) + |c.data|
    ensures Dechunked(p, i, out) == out + c.data[..|p| - i - LineLength(c)]
  {
    hide FindCrlf, Hex, Extension, HexValue, SizeAt;
    var start := i + LineLength(c);
    CutKeepsLine(m, p, i, c.size, c.ext);
    ReadsLine(p, i, c.size, c.ext);
    var part := c.data[..|p| - start];
    assert p[start..] == m[start..start + |c.data|][..|p| - start] == part;
    assert PieceAt(p, i) == part;
    var next := NextAt(p, i);
    assert next > |p|;
    assert Dechunked(p, next, out + part) == out + part;
  }

  // The data bytes among the first n bytes of the encoding.
  function DataIn(chunks: seq<Chunk>, n: int): bytes {
    if chunks == [] then []
    else
      var c := chunks[0];
      var m := n - LineLength(c);
      if m < |c.data| then (if m <= 0 then [] else c.data[..m])
      else c.data + DataIn(chunks[1..], m - |c.data| - 2)
  }

  // It is a prefix of the data, and all of it exactly when the last data byte is among them.
  lemma {:induction false} DataInPrefix(chunks: seq<Chunk>, n: int)
    requires forall k :: 0 <= k < |chunks| ==> chunks[k].data != []
    ensures DataIn(chunks, n) <= Data(chunks)
    ensures DataIn(chunks, n) == Data(chunks) <==> chunks == [] || n >= Enough(chunks)
  {
    if chunks != [] {
      var c := chunks[0];
      var m := n - LineLength(c);
      if m < |c.data| {
        assert |DataIn(chunks, n)| < |c.data| <= |Data(chunks)|;
      } else {
        DataInPrefix(chunks[1..], m - |c.data| - 2);
        SamePrefix(c.data, DataIn(chunks[1..], m - |c.data| - 2), Data(chunks[1..]));
      }
    }
  }

  lemma DataInWhole(chunks: seq<Chunk>, n: int, n': int)
    requires chunks != [] && n' == n - LineLength(chunks[0]) - |chunks[0].data| - 2 && n' >= -2
    ensures DataIn(chunks, n) == chunks[0].data + DataIn(chunks[1..], n')
  {
  }

  lemma SamePrefix(a: bytes, b: bytes, c: bytes)
    requires b <= c
    ensures a + b <= a + c && (a + b == a + c <==> b == c)
  {
    if a + b == a + c {
      assert (a + b)[|a|..] == b && (a + c)[|a|..] == c;
    }
  }

  // De-chunking any prefix p of a message yields exactly the data bytes that p holds.
  lemma {:induction false} DechunkedPrefix(m: bytes, p: bytes, i: nat, out: bytes, chunks: seq<Chunk>, last: Last)
    requires (forall k :: 0 <= k < |chunks| ==> WellFormed(chunks[k])) && WellFormedLast(last)
    requires p <= m && i <= |m| && m[i..] == Encode(chunks, last)
    ensures Dechunked(p, i, out) == out + DataIn(chunks, |p| - i)
    decreases |chunks|
  {
    hide FindCrlf, SizeAt, LineAt, Hex, Extension, HexValue, PieceAt, NextAt;
    Layout(m, i, chunks, last);
    if chunks == [] {
      NothingLeft(m, p, i, last);
      assert out + [] == out;
    } else {
      var c := chunks[0];
      assert ChunkAt(m, i, c);
      if |p| < i + LineLength(c) {
        CutInLine(m, p, i, out, c);
        assert out + [] == out;
      } else if |p| < i + LineLength(c) + |c.data| {
        CutInData(m, p, i, out, c);
        assert c.data[..0] == [];
      } else {
        var next := i + LineLength(c) + |c.data| + 2;
        var more := DataIn(chunks[1..], |p| - next);
        WholeChunk(m, p, i, out, c);
        DechunkedPrefix(m, p, next, out + c.data, chunks[1..], last);
        assert Dechunked(p, i, out) == (out + c.data) + more;
        DataInWhole(chunks, |p| - i, |p| - next);
        Reassociate(out, c.data, more);
      }
    }
  }

  lemma NothingLeft(m: bytes, p: bytes, i: nat, last: Last)
    requires WellFormedLast(last) && p <= m && LineAt(m, i, last.size, last.ext)
    ensures SizeAt(p, i) == 0
  {
    if |p| < i + |last.size| + |last.ext| + 2 {
      CutLine(m, p, i, last.size, last.ext);
    } else {
      CutKeepsLine(m, p, i, last.size, last.ext);
      ReadsLine(p, i, last.size, last.ext);
    }
  }

  lemma Reassociate(a: bytes, b: bytes, c: bytes)
    ensures a + (b + c) == a + b + c
  {
  }
}
