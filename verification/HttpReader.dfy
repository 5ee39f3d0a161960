// Reading one request off a socket that delivers it in arbitrary fragments.
module HttpReader {
  import opened Prelude
  import opened Chunked

  const HEAD_END: bytes := [13, 10, 13, 10]
  const END_MARKER: bytes := [48, 13, 10, 13, 10]
  const MAX_HEAD: nat := 8 * 1024 * 1024
  const MAX_BODY: nat := 16 * 1024 * 1024
  const RECV: nat := 65536

  predicate Contains(b: bytes, pat: bytes) { Find(b, pat, 0) != -1 }

  // What the headers say about the body; the header fields themselves are not modelled.
  datatype Framing = Malformed | Length(n: nat) | ChunkedBody | NoBody

  type Fragments = seq<bytes>

  function Flatten(frags: Fragments): bytes {
    if frags == [] then [] else frags[0] + Flatten(frags[1..])
  }

  // ----- the reading loops, on values -----

  function HeadRead(buf: bytes, frags: Fragments): Option<(bytes, Fragments)>
    decreases |frags|
  {
    if Contains(buf, HEAD_END) then Some((buf, frags))
    else if frags == [] || frags[0] == [] || |buf + frags[0]| > MAX_HEAD then None
    else HeadRead(buf + frags[0], frags[1..])
  }

  function LengthRead(body: bytes, frags: Fragments, n: nat): bytes
    decreases |frags|
  {
    if |body| >= n || frags == [] || frags[0] == [] then body else LengthRead(body + frags[0], frags[1..], n)
  }

  function MarkerRead(body: bytes, frags: Fragments): bytes
    decreases |frags|
  {
    if Contains(body, END_MARKER) || frags == [] || frags[0] == [] then body
    else if |body + frags[0]| > MAX_BODY then body + frags[0]
    else MarkerRead(body + frags[0], frags[1..])
  }

  function RequestRead(frags: Fragments, framing: bytes -> Framing): Option<(bytes, bytes)> {
    match HeadRead([], frags)
    case None => None
    case Some((buf, more)) =>
      var cut := Find(buf, HEAD_END, 0);
      if cut == -1 then None
      else
        var head, rest := buf[..cut], buf[cut + |HEAD_END|..];
        match framing(head)
        case Malformed => None
        case Length(n) => Some((head, LengthRead(rest, more, n)))
        case ChunkedBody => Some((head, Dechunked(MarkerRead(rest, more), 0, [])))
        case NoBody => Some((head, rest))
  }

  // recv: the next fragment, or the empty string at the end of the stream.
  function Recv(frags: Fragments, k: nat): bytes {
    if k < |frags| then frags[k] else []
  }

  function After(frags: Fragments, k: nat): Fragments {
    if k <= |frags| then frags[k..] else []
  }

  method ReadHttpRequest(frags: Fragments, framing: bytes -> Framing) returns (r: Option<(bytes, bytes)>)
    ensures r == RequestRead(frags, framing)
  {
    hide Find, Dechunked, Flatten;
    var k, buf := 0, [];
    while !Contains(buf, HEAD_END)
      invariant HeadRead(buf, After(frags, k)) == HeadRead([], frags)
      invariant k <= |frags|
      decreases |frags| - k
    {
      var chunk := Recv(frags, k);
      if chunk == [] { return None; }
      k, buf := k + 1, buf + chunk;
      if |buf| > MAX_HEAD { return None; }
    }
    var cut := Find(buf, HEAD_END, 0);
    var head, rest := buf[..cut], buf[cut + |HEAD_END|..];
    ghost var more := After(frags, k);
    match framing(head) {
      case Malformed => return None;
      case NoBody => return Some((head, rest));
      case Length(n) =>
        var body := rest;
        while |body| < n
          invariant k <= |frags| && LengthRead(body, After(frags, k), n) == LengthRead(rest, more, n)
          decreases |frags| - k
        {
          var chunk := Recv(frags, k);
          if chunk == [] { break; }
          k, body := k + 1, body + chunk;
        }
        return Some((head, body));
      case ChunkedBody =>
        var body := ReadToMarker(rest, frags, k);
        var data := Dechunk(body);
        return Some((head, data));
    }
  }

  method ReadToMarker(rest: bytes, frags: Fragments, from: nat) returns (body: bytes)
    requires from <= |frags|
    ensures body == MarkerRead(rest, After(frags, from))
  {
    hide Find;
    body := rest;
    var k := from;
    while !Contains(body, END_MARKER)
      invariant k <= |frags| && MarkerRead(body, After(frags, k)) == MarkerRead(rest, After(frags, from))
      decreases |frags| - k
    {
      var chunk := Recv(frags, k);
      if chunk == [] { break; }
      k, body := k + 1, body + chunk;
      if |body| > MAX_BODY { break; }
    }
  }

  // ----- fragmentation -----

  predicate Received(frags: Fragments) {
    forall i :: 0 <= i < |frags| ==> 0 < |frags[i]| <= RECV
  }

  // Fragments that deliver exactly m before the stream ends.
  predicate Delivers(frags: Fragments, m: bytes) {
    Received(frags) && Flatten(frags) == m
  }

  lemma FlattenFirst(body: bytes, frags: Fragments, m: bytes)
    requires frags != [] && body + Flatten(frags) == m
    ensures (body + frags[0]) + Flatten(frags[1..]) == m
    ensures frags[0] != [] ==> |body| < |m|
  {
    assert body + (frags[0] + Flatten(frags[1..])) == (body + frags[0]) + Flatten(frags[1..]);
  }

  // The point where reading byte by byte stops: the marker is complete, the limit passed, or all is read.
  function Stop(m: bytes, k: nat): (n: nat)
    requires k <= |m|
    ensures k <= n <= |m|
    decreases |m| - k
  {
    if Contains(m[..k], END_MARKER) || k == |m| || k > MAX_BODY then k else Stop(m, k + 1)
  }

  predicate MayStop(m: bytes, n: nat) {
    n <= |m| && (n == |m| || n > MAX_BODY || Contains(m[..n], END_MARKER))
  }

  lemma {:induction false} StopIsFirst(m: bytes, k: nat, n: nat)
    requires k <= n && MayStop(m, n)
    ensures Stop(m, k) <= n
    decreases |m| - k
  {
    if !(Contains(m[..k], END_MARKER) || k == |m| || k > MAX_BODY) {
      StopIsFirst(m, k + 1, n);
    }
  }

  // However the message is cut up, what is read is a prefix, and no shorter than byte by byte.
  lemma {:induction false} MarkerReadIsLateEnough(body: bytes, frags: Fragments, m: bytes)
    requires Received(frags) && body + Flatten(frags) == m
    ensures MarkerRead(body, frags) <= m && MayStop(m, |MarkerRead(body, frags)|)
    decreases |frags|
  {
    hide Find;
    assert m[..|body|] == body;
    if Contains(body, END_MARKER) || frags == [] {
      if frags == [] { assert body + [] == body; }
    } else {
      FlattenFirst(body, frags, m);
      var next := body + frags[0];
      assert m[..|next|] == next;
      if |next| <= MAX_BODY { MarkerReadIsLateEnough(next, frags[1..], m); }
    }
  }

  function Singles(m: bytes): (frags: Fragments)
    ensures Received(frags) && |frags| == |m|
    ensures forall i :: 0 <= i < |m| ==> frags[i] == [m[i]]
  {
    seq(|m|, i requires 0 <= i < |m| => [m[i]])
  }

  lemma {:induction false} FlattenSingles(m: bytes)
    ensures Flatten(Singles(m)) == m
  {
    if m != [] {
      assert Singles(m)[1..] == Singles(m[1..]);
      FlattenSingles(m[1..]);
    }
  }

  lemma {:induction false} BytewiseStops(m: bytes, k: nat)
    requires k <= |m| && k <= MAX_BODY
    ensures MarkerRead(m[..k], Singles(m[k..])) == m[..Stop(m, k)]
    decreases |m| - k
  {
    hide Find;
    if !Contains(m[..k], END_MARKER) && k < |m| {
      var frags := Singles(m[k..]);
      assert m[..k] + frags[0] == m[..k + 1];
      assert frags[1..] == Singles(m[k + 1..]);
      if k + 1 <= MAX_BODY { BytewiseStops(m, k + 1); }
    }
  }

  // The message is short, or its head ends at h early enough that no last fragment can pass the limit.
  predicate HeadRoom(m: bytes, h: nat) { |m| <= MAX_HEAD || h + |HEAD_END| - 1 + RECV <= MAX_HEAD }

  lemma {:induction false} HeadIsFound(buf: bytes, frags: Fragments, m: bytes, h: nat)
    requires Find(m, HEAD_END, 0) == h && Received(frags) && buf + Flatten(frags) == m
    ensures HeadRoom(m, h) ==> HeadRead(buf, frags).Some?
    ensures HeadRead(buf, frags).Some? ==>
              var (b, more) := HeadRead(buf, frags).value;
              b + Flatten(more) == m && Received(more) && Find(b, HEAD_END, 0) == h
    decreases |frags|
  {
    hide Find;
    assert m[..|buf|] == buf;
    FoundOnceComplete(buf, m, h);
    if !Contains(buf, HEAD_END) {
      assert frags == [] ==> buf + Flatten(frags) == buf;
      FlattenFirst(buf, frags, m);
      assert |buf + frags[0]| <= |m|;
      HeadIsFound(buf + frags[0], frags[1..], m, h);
    }
  }

  lemma {:induction false} FlattenAppend(a: Fragments, b: Fragments)
    ensures Flatten(a + b) == Flatten(a) + Flatten(b)
  {
    if a == [] {
      assert a + b == b;
    } else {
      assert (a + b)[1..] == a[1..] + b;
      FlattenAppend(a[1..], b);
    }
  }

  // Byte by byte up to just before the end of the head, then as much as one fragment can bring.
  function Burst(m: bytes, h: nat): Fragments
    requires h + |HEAD_END| <= |m|
  {
    var k := h + |HEAD_END| - 1;
    var e := if |m| <= k + RECV then |m| else k + RECV;
    Singles(m[..k]) + ([m[k..e]] + Singles(m[e..]))
  }

  lemma BurstDelivers(m: bytes, h: nat)
    requires h + |HEAD_END| <= |m|
    ensures Delivers(Burst(m, h), m)
  {
    hide Flatten, Singles;
    var k := h + |HEAD_END| - 1;
    var e := if |m| <= k + RECV then |m| else k + RECV;
    FlattenAppend(Singles(m[..k]), [m[k..e]] + Singles(m[e..]));
    FlattenAppend([m[k..e]], Singles(m[e..]));
    FlattenSingles(m[..k]);
    FlattenSingles(m[e..]);
    FlattenOne(m[k..e]);
    assert m == m[..k] + (m[k..e] + m[e..]);
  }

  lemma FlattenOne(frag: bytes)
    ensures Flatten([frag]) == frag
  {
    assert [frag][1..] == [];
  }

  // Without room the reader gives the message up.
  lemma {:induction false} BurstIsGivenUp(m: bytes, i: nat, h: nat, rest: Fragments)
    requires Find(m, HEAD_END, 0) == h && i <= h + |HEAD_END| - 1 < |m| && rest != []
    requires |m[..h + |HEAD_END| - 1] + rest[0]| > MAX_HEAD
    ensures HeadRead(m[..i], Singles(m[i..h + |HEAD_END| - 1]) + rest) == None
    decreases |m| - i
  {
    hide Find;
    var k := h + |HEAD_END| - 1;
    var frags := Singles(m[i..k]) + rest;
    FoundOnceComplete(m[..i], m, h);
    if i < k {
      assert frags[0] == [m[i]] && m[..i] + frags[0] == m[..i + 1];
      assert m[i..k][1..] == m[i + 1..k];
      assert frags[1..] == Singles(m[i + 1..k]) + rest;
      BurstIsGivenUp(m, i + 1, h, rest);
    } else {
      assert frags == rest;
    }
  }

  lemma NoRoomFails(m: bytes, h: nat, framing: bytes -> Framing)
    requires Find(m, HEAD_END, 0) == h && h + |HEAD_END| <= |m| && !HeadRoom(m, h)
    ensures Delivers(Burst(m, h), m) && RequestRead(Burst(m, h), framing) == None
  {
    hide Find, Flatten, Singles, HeadRead;
    var k := h + |HEAD_END| - 1;
    var e := if |m| <= k + RECV then |m| else k + RECV;
    BurstDelivers(m, h);
    var rest := [m[k..e]] + Singles(m[e..]);
    assert |m[..k] + rest[0]| == e;
    BurstIsGivenUp(m, 0, h, rest);
    assert m[..0] == [] && m[0..k] == m[..k];
  }

  lemma {:induction false} FoundOnceComplete(buf: bytes, m: bytes, h: nat)
    requires buf <= m && Find(m, HEAD_END, 0) == h
    ensures Contains(buf, HEAD_END) <==> |buf| >= h + |HEAD_END|
    ensures Contains(buf, HEAD_END) ==> Find(buf, HEAD_END, 0) == h
  {
    hide Find;
    if |buf| >= h + |HEAD_END| {
      assert buf[h..h + |HEAD_END|] == m[h..h + |HEAD_END|];
      assert At(buf, HEAD_END, h);
    }
    if Contains(buf, HEAD_END) { FindGrows(buf, m, HEAD_END); }
  }

  lemma {:induction false} HeadBytewise(m: bytes, k: nat, h: nat)
    requires Find(m, HEAD_END, 0) == h && HeadRoom(m, h) && k <= h + |HEAD_END|
    ensures HeadRead(m[..k], Singles(m[k..])) == Some((m[..h + |HEAD_END|], Singles(m[h + |HEAD_END|..])))
    decreases |m| - k
  {
    hide Find;
    var end := h + |HEAD_END|;
    FoundOnceComplete(m[..k], m, h);
    if k < end {
      var frags := Singles(m[k..]);
      assert m[..k] + frags[0] == m[..k + 1];
      assert frags[1..] == Singles(m[k + 1..]);
      HeadBytewise(m, k + 1, h);
    }
  }

  predicate Message(m: bytes, head: bytes, chunks: seq<Chunk>, last: Last) {
    && m == head + HEAD_END + Encode(chunks, last)
    && (forall k :: 0 <= k < |chunks| ==> WellFormed(chunks[k])) && WellFormedLast(last)
    && Find(m, HEAD_END, 0) == |head|
  }

  // The head read off, and what is left to read.
  lemma AfterHead(frags: Fragments, m: bytes, head: bytes, wire: bytes) returns (rest: bytes, more: Fragments)
    requires m == head + HEAD_END + wire && Find(m, HEAD_END, 0) == |head| && Delivers(frags, m)
    requires HeadRead([], frags).Some?
    ensures Received(more) && rest + Flatten(more) == wire
    ensures var (buf, left) := HeadRead([], frags).value;
            && left == more && Find(buf, HEAD_END, 0) == |head|
            && buf[..|head|] == head && buf[|head| + |HEAD_END|..] == rest
    ensures frags == Singles(m) && HeadRoom(m, |head|) ==> rest == [] && more == Singles(wire)
  {
    hide Find, HeadRead;
    var h := |head|;
    assert [] + Flatten(frags) == m;
    HeadIsFound([], frags, m, h);
    var (buf, left) := HeadRead([], frags).value;
    assert At(buf, HEAD_END, h);
    rest, more := buf[h + |HEAD_END|..], left;
    assert rest + Flatten(more) == m[h + |HEAD_END|..] == wire;
    assert buf[..h] == m[..h] == head;
    if frags == Singles(m) && HeadRoom(m, |head|) {
      assert m[..0] == [] && m[0..] == m;
      HeadBytewise(m, 0, h);
    }
  }

  // What reaches the de-chunker: a prefix of the body on the wire.
  lemma {:induction false} BodyRead(frags: Fragments, m: bytes, head: bytes, wire: bytes) returns (body: bytes)
    requires m == head + HEAD_END + wire && Find(m, HEAD_END, 0) == |head| && Delivers(frags, m)
    requires HeadRead([], frags).Some?
    ensures body <= wire && MayStop(wire, |body|)
    ensures forall framing: bytes -> Framing :: framing(head) == ChunkedBody ==>
              RequestRead(frags, framing) == Some((head, Dechunked(body, 0, [])))
    ensures frags == Singles(m) && HeadRoom(m, |head|) ==> |body| == Stop(wire, 0)
  {
    hide Find, Dechunked, MarkerRead, HeadRead, Stop;
    var rest, more := AfterHead(frags, m, head, wire);
    MarkerReadIsLateEnough(rest, more, wire);
    body := MarkerRead(rest, more);
    if frags == Singles(m) && HeadRoom(m, |head|) {
      assert wire[..0] == [] && wire[0..] == wire;
      BytewiseStops(wire, 0);
    }
  }

  // The outcome for one fragmentation: the head, and the data bytes of the prefix that was read.
  lemma {:induction false} RequestOutcome(frags: Fragments, framing: bytes -> Framing, m: bytes, head: bytes,
                                          chunks: seq<Chunk>, last: Last) returns (n: nat)
    requires Message(m, head, chunks, last) && framing(head) == ChunkedBody && Delivers(frags, m)
    requires HeadRead([], frags).Some?
    ensures MayStop(Encode(chunks, last), n)
    ensures RequestRead(frags, framing) == Some((head, DataIn(chunks, n)))
    ensures frags == Singles(m) && HeadRoom(m, |head|) ==> n == Stop(Encode(chunks, last), 0)
  {
    hide Find, Dechunked, RequestRead, HeadRead, Encode, DataIn, Stop, MayStop;
    var wire := Encode(chunks, last);
    var body := BodyRead(frags, m, head, wire);
    n := |body|;
    assert wire[0..] == wire;
    DechunkedPrefix(wire, body, 0, [], chunks, last);
    assert [] + DataIn(chunks, n) == DataIn(chunks, n);
  }

  // Whatever the fragmentation, the message is given up for its size, or the head is exact and the body is a
  // prefix of the data; with room for the head it is never given up.
  lemma {:induction false} EveryFragmentationReadsAPrefix(frags: Fragments, framing: bytes -> Framing, m: bytes,
                                                          head: bytes, chunks: seq<Chunk>, last: Last)
    requires Message(m, head, chunks, last) && framing(head) == ChunkedBody && Delivers(frags, m)
    ensures HeadRoom(m, |head|) ==> RequestRead(frags, framing).Some?
    ensures RequestRead(frags, framing).Some? ==>
              RequestRead(frags, framing).value.0 == head && RequestRead(frags, framing).value.1 <= Data(chunks)
  {
    HeadGivenUp(frags, framing, m, head);
    hide RequestRead;
    if HeadRead([], frags).Some? {
      var n := RequestOutcome(frags, framing, m, head, chunks, last);
      DataInPrefix(chunks, n);
    }
  }

  lemma HeadGivenUp(frags: Fragments, framing: bytes -> Framing, m: bytes, head: bytes)
    requires Find(m, HEAD_END, 0) == |head| && Delivers(frags, m)
    ensures HeadRoom(m, |head|) ==> HeadRead([], frags).Some?
    ensures HeadRead([], frags) == None ==> RequestRead(frags, framing) == None
  {
    hide Find;
    assert [] + Flatten(frags) == m;
    HeadIsFound([], frags, m, |head|);
  }

  // Every fragmentation yields the whole request if and only if the head has room, and neither the end marker
  // nor the size limit comes before the last data byte.
  lemma FragmentationIndependence(framing: bytes -> Framing, m: bytes, head: bytes, chunks: seq<Chunk>, last: Last)
    requires Message(m, head, chunks, last) && framing(head) == ChunkedBody
    ensures (forall frags :: Delivers(frags, m) ==> RequestRead(frags, framing) == Some((head, Data(chunks))))
       <==> HeadRoom(m, |head|) && (chunks == [] || Stop(Encode(chunks, last), 0) >= Enough(chunks))
  {
    hide RequestRead, Encode, Stop, DataIn, Data, Enough, Find;
    var wire := Encode(chunks, last);
    if HeadRoom(m, |head|) {
      forall frags | Delivers(frags, m) && (chunks == [] || Stop(wire, 0) >= Enough(chunks))
        ensures RequestRead(frags, framing) == Some((head, Data(chunks)))
      {
        HeadGivenUp(frags, framing, m, head);
        var n := RequestOutcome(frags, framing, m, head, chunks, last);
        StopIsFirst(wire, 0, n);
        DataInPrefix(chunks, n);
      }
      FlattenSingles(m);
      HeadGivenUp(Singles(m), framing, m, head);
      var n := RequestOutcome(Singles(m), framing, m, head, chunks, last);
      DataInPrefix(chunks, n);
    } else {
      NoRoomFails(m, |head|, framing);
    }
  }

  // The limits in bytes: a head has room in a message of at most 8 MiB, or when it ends one fragment before that;
  // a body without the end marker is read until it is one byte past 16 MiB.
  lemma LimitsInBytes(m: bytes, h: nat)
    ensures HeadRoom(m, h) <==> |m| <= 8388608 || h <= 8323069
    ensures |m| > 16777216 && Find(m[..16777217], END_MARKER, 0) == -1 ==> Stop(m, 0) == 16777217
    ensures |m| <= 16777216 && Find(m, END_MARKER, 0) == -1 ==> Stop(m, 0) == |m|
  {
    hide Find;
    if |m| > 16777216 && Find(m[..16777217], END_MARKER, 0) == -1 { StopsAt(m, 0, 16777217); }
    if |m| <= 16777216 && Find(m, END_MARKER, 0) == -1 {
      assert m[..|m|] == m;
      StopsAt(m, 0, |m|);
    }
  }

  lemma {:induction false} StopsAt(m: bytes, k: nat, n: nat)
    requires k <= n <= |m| && n <= MAX_BODY + 1 && (n == |m| || n == MAX_BODY + 1)
    requires Find(m[..n], END_MARKER, 0) == -1
    ensures Stop(m, k) == n
    decreases n - k
  {
    hide Find;
    assert m[..k] <= m[..n];
    if Find(m[..k], END_MARKER, 0) != -1 { FindGrows(m[..k], m[..n], END_MARKER); }
    if k < n { StopsAt(m, k + 1, n); }
  }

  // The condition does fail on plain data: a chunk of sixteen bytes ("10" in hex) that starts with a line
  // end spells the end marker already across its size line.
  lemma SizeLineCanSpellTheMarker(c: Chunk, last: Last)
    requires c.size == [49, 48] && c.ext == [] && |c.data| == 16 && c.data[..2] == CRLF
    ensures Stop(Encode([c], last), 0) < Enough([c])
  {
    hide Find;
    var wire := Encode([c], last);
    var start := c.size + c.ext + CRLF + c.data[..2];
    assert start == [49, 48, 13, 10, 13, 10];
    assert start[1..6] == END_MARKER && At(start, END_MARKER, 1);
    assert wire[..6] == start;
    StopIsFirst(wire, 0, 6);
  }

  // ----- a body with a length -----

  // What is read stops where a fragment does.
  lemma {:induction false} HeadStopsAtFragment(buf: bytes, frags: Fragments) returns (j: nat)
    requires HeadRead(buf, frags).Some?
    ensures j <= |frags| && HeadRead(buf, frags).value == (buf + Flatten(frags[..j]), frags[j..])
    decreases |frags|
  {
    hide Find;
    j := 0;
    if Contains(buf, HEAD_END) {
      assert buf + [] == buf;
    } else {
      var i := HeadStopsAtFragment(buf + frags[0], frags[1..]);
      j := i + 1;
      assert frags[..j][1..] == frags[1..][..i];
      assert buf + (frags[0] + Flatten(frags[1..][..i])) == (buf + frags[0]) + Flatten(frags[1..][..i]);
    }
  }

  lemma {:induction false} LengthStopsAtFragment(body: bytes, frags: Fragments, n: nat) returns (j: nat)
    ensures j <= |frags| && LengthRead(body, frags, n) == body + Flatten(frags[..j])
    decreases |frags|
  {
    j := 0;
    if |body| >= n || frags == [] || frags[0] == [] {
      assert body + [] == body;
    } else {
      var i := LengthStopsAtFragment(body + frags[0], frags[1..], n);
      j := i + 1;
      assert frags[..j][1..] == frags[1..][..i];
      assert body + (frags[0] + Flatten(frags[1..][..i])) == (body + frags[0]) + Flatten(frags[1..][..i]);
    }
  }

  lemma {:induction false} RequestStopsAtFragment(frags: Fragments, framing: bytes -> Framing, head: bytes, body: bytes,
                                                  n: nat) returns (j: nat)
    requires framing(head) == Length(n) && RequestRead(frags, framing) == Some((head, body))
    ensures j <= |frags| && |Flatten(frags[..j])| == |head| + |HEAD_END| + |body|
  {
    hide Find, Flatten, HeadRead, LengthRead;
    var i := HeadStopsAtFragment([], frags);
    var (buf, more) := HeadRead([], frags).value;
    var cut := Find(buf, HEAD_END, 0);
    assert At(buf, HEAD_END, cut);
    var k := LengthStopsAtFragment(buf[cut + |HEAD_END|..], more, n);
    j := i + k;
    assert frags[..j] == frags[..i] + frags[i..][..k];
    FlattenAppend(frags[..i], frags[i..][..k]);
  }

  // Byte by byte, but for the two bytes around position p, which come together.
  function Across(m: bytes, p: nat): Fragments
    requires 0 < p < |m|
  {
    Singles(m[..p - 1]) + ([m[p - 1..p + 1]] + Singles(m[p + 1..]))
  }

  lemma AcrossDelivers(m: bytes, p: nat)
    requires 0 < p < |m|
    ensures Delivers(Across(m, p), m)
  {
    hide Flatten, Singles;
    FlattenAppend(Singles(m[..p - 1]), [m[p - 1..p + 1]] + Singles(m[p + 1..]));
    FlattenAppend([m[p - 1..p + 1]], Singles(m[p + 1..]));
    FlattenSingles(m[..p - 1]);
    FlattenSingles(m[p + 1..]);
    FlattenOne(m[p - 1..p + 1]);
    assert m == m[..p - 1] + (m[p - 1..p + 1] + m[p + 1..]);
  }

  lemma NothingStopsAt(m: bytes, p: nat, j: nat)
    requires 0 < p < |m| && j <= |Across(m, p)|
    ensures |Flatten(Across(m, p)[..j])| != p
  {
    hide Flatten;
    var pair := [m[p - 1..p + 1]];
    if j < p {
      assert Across(m, p)[..j] == Singles(m[..j]);
      FlattenSingles(m[..j]);
    } else {
      var tail := m[p + 1..j + 1];
      assert Across(m, p)[..j] == Singles(m[..p - 1]) + (pair + Singles(tail));
      FlattenAppend(Singles(m[..p - 1]), pair + Singles(tail));
      FlattenAppend(pair, Singles(tail));
      FlattenSingles(m[..p - 1]);
      FlattenSingles(tail);
      FlattenOne(m[p - 1..p + 1]);
    }
  }

  // A body no longer than the declared length survives every fragmentation.
  lemma {:induction false} LengthReadIsExact(body: bytes, frags: Fragments, m: bytes, n: nat)
    requires Received(frags) && body + Flatten(frags) == m && |m| <= n
    ensures LengthRead(body, frags, n) == m
    decreases |frags|
  {
    if frags == [] || |body| >= n {
      assert |m| == |body| + |Flatten(frags)|;
      assert body == m[..|body|];
    } else {
      FlattenFirst(body, frags, m);
      LengthReadIsExact(body + frags[0], frags[1..], m, n);
    }
  }

  lemma {:induction false} ShortBodyIsExact(frags: Fragments, framing: bytes -> Framing, m: bytes, head: bytes,
                                            wire: bytes, n: nat)
    requires m == head + HEAD_END + wire && Find(m, HEAD_END, 0) == |head| && framing(head) == Length(n)
    requires HeadRoom(m, |head|) && |wire| <= n && Delivers(frags, m)
    ensures RequestRead(frags, framing) == Some((head, wire))
  {
    hide Find, Flatten, HeadRead, LengthRead;
    HeadGivenUp(frags, framing, m, head);
    var rest, more := AfterHead(frags, m, head, wire);
    LengthReadIsExact(rest, more, wire, n);
  }

  // The declared bytes, or as many of them as came.
  function Declared(wire: bytes, n: nat): bytes { if |wire| <= n then wire else wire[..n] }

  // Every fragmentation yields exactly the declared body if and only if the head has room and nothing follows
  // the body: a fragment that ends past it hands the surplus to the caller.
  lemma {:induction false} LengthIndependence(framing: bytes -> Framing, m: bytes, head: bytes, wire: bytes, n: nat)
    requires m == head + [13, 10, 13, 10] + wire && Find(m, [13, 10, 13, 10], 0) == |head| && framing(head) == Length(n)
    ensures (forall frags :: Delivers(frags, m) ==> RequestRead(frags, framing) == Some((head, Declared(wire, n))))
       <==> HeadRoom(m, |head|) && |wire| <= n
  {
    hide RequestRead, Find, Flatten;
    assert HEAD_END == [13, 10, 13, 10];
    if !HeadRoom(m, |head|) {
      NoRoomFails(m, |head|, framing);
    } else if |wire| <= n {
      forall frags | Delivers(frags, m) ensures RequestRead(frags, framing) == Some((head, wire)) {
        ShortBodyIsExact(frags, framing, m, head, wire, n);
      }
    } else {
      var p := |head| + |HEAD_END| + n;
      AcrossDelivers(m, p);
      if RequestRead(Across(m, p), framing) == Some((head, wire[..n])) {
        var j := RequestStopsAtFragment(Across(m, p), framing, head, wire[..n], n);
        NothingStopsAt(m, p, j);
      }
    }
  }
}
