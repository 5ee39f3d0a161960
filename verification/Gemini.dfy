// Google Gemini: chunks and whole bodies share one shape.
module Gemini {
  import opened Prelude
  import opened Streams
  import opened Adapters

  datatype GeminiUsage = GeminiUsage(prompt: Option<int>, candidates: Option<int>, cached: Option<int>)

  datatype Candidate = Candidate(parts: seq<Block>, finish: Option<string>)

  // Usage is None when it is missing or empty.
  datatype Response = Response(model: Option<string>, candidates: seq<Candidate>, usage: Option<GeminiUsage>)

  function Counts(u: Option<GeminiUsage>): Usage {
    match u
    case Some(u) => Usage(Uncached(u.prompt, u.cached), Or(u.candidates, 0), Or(u.cached, 0), 0)
    case None => NO_USAGE
  }

  function CandidateText(c: Candidate): string { Gather(c.parts, BlockText) }
  function CandidateFinish(c: Candidate): seq<string> { Reasons(c.finish) }
  function ChunkText(c: Response): string { Gather(c.candidates, CandidateText) }
  function ChunkFinish(c: Response): seq<string> { Gather(c.candidates, CandidateFinish) }
  function ChunkModel(c: Response): Option<Option<string>> { Given(c.model) }
  function ChunkUsage(c: Response): Option<Usage> { if c.usage.Some? then Some(Counts(c.usage)) else None }

  method CandidateTexts(resp: Response) returns (text: string, finish: seq<string>)
    ensures text == ChunkText(resp) && finish == ChunkFinish(resp)
  {
    hide CandidateText;
    text, finish := "", [];
    var cs := resp.candidates;
    for i := 0 to |cs|
      invariant text == Gather(cs[..i], CandidateText) && finish == Gather(cs[..i], CandidateFinish)
    {
      GatherStep(cs, CandidateText, i);
      GatherStep(cs, CandidateFinish, i);
      text := text + CandidateText(cs[i]);
      if cs[i].finish.Some? && cs[i].finish.value != "" { finish := finish + [cs[i].finish.value]; }
    }
    assert cs[..|cs|] == cs;
  }

  function GeminiStream(es: seq<Response>): Parsed {
    Parsed(Gather(es, ChunkText), LastOr(es, ChunkUsage, NO_USAGE), Gather(es, ChunkFinish),
           LastOr(es, ChunkModel, None))
  }

  method ParseGeminiStream(es: seq<Response>) returns (r: Parsed)
    ensures r == GeminiStream(es)
  {
    hide Gather, LastOr;
    assert es[..0] == [];
    NothingYet();
    var text, usage, finish, model := "", NO_USAGE, [], None;
    for i := 0 to |es|
      invariant Parsed(text, usage, finish, model) == GeminiStream(es[..i])
    {
      GatherStep(es, ChunkText, i);
      GatherStep(es, ChunkFinish, i);
      LastStep(es, ChunkUsage, NO_USAGE, i);
      LastStep(es, ChunkModel, None, i);
      if es[i].model.Some? { model := es[i].model; }
      var chunkText, chunkFinish := CandidateTexts(es[i]);
      if chunkText != "" { text := text + chunkText; }
      finish := finish + chunkFinish;
      if es[i].usage.Some? { usage := Counts(es[i].usage); }
    }
    assert es[..|es|] == es;
    r := Parsed(text, usage, finish, model);
  }

  lemma NothingYet()
    ensures GeminiStream([]) == Parsed("", NO_USAGE, [], None)
  {
  }

  function GeminiBody(body: Response): Parsed {
    Parsed(ChunkText(body), Counts(body.usage), ChunkFinish(body), body.model)
  }

  method ParseGeminiBody(body: Response) returns (r: Parsed)
    ensures r == GeminiBody(body)
  {
    var text, finish := CandidateTexts(body);
    var usage := Counts(body.usage);
    r := Parsed(text, usage, finish, body.model);
  }

  function Candidates(c: Response): seq<Candidate> { c.candidates }
  function CandidateParts(c: Candidate): seq<Block> { c.parts }

  // The text of a stream is the text of all its parts, whatever chunks and candidates they came in.
  lemma PartsInOrder(es: seq<Response>)
    ensures GeminiStream(es).text == Gather(Gather(Gather(es, Candidates), CandidateParts), BlockText)
    ensures GeminiStream(es).finish == Gather(Gather(es, Candidates), CandidateFinish)
  {
    hide Gather;
    GatherGather(es, Candidates, CandidateText, ChunkText);
    GatherGather(es, Candidates, CandidateFinish, ChunkFinish);
    GatherGather(Gather(es, Candidates), CandidateParts, BlockText, CandidateText);
  }

  function Text(es: seq<Response>): string { Gather(Gather(Gather(es, Candidates), CandidateParts), BlockText) }

  // A chunk before the one that ends the message: any parts, no reason, a running usage or none, and the model
  // or nothing.
  predicate Underway(c: Response, body: Response) {
    && (forall d :: d in c.candidates ==> Reasons(d.finish) == [])
    && (body.usage == None ==> c.usage == None)
    && (c.model == None || c.model == body.model)
  }

  // A chunk after it: no text, no reason, no usage.
  predicate Silent(c: Response, body: Response) {
    && (forall d :: d in c.candidates ==> CandidateText(d) == "" && Reasons(d.finish) == [])
    && c.usage == None && (c.model == None || c.model == body.model)
  }

  // A body of one candidate, its text cut anywhere over the parts of any number of chunks, with running counts
  // on the way, its reason and its usage on the chunk that ends the message, and text-free chunks after it, is
  // reported exactly like the body.
  lemma GeminiStreamEqualsBody(body: Response, front: seq<Response>, parts: seq<Block>, tail: seq<Response>)
    requires |body.candidates| == 1
    requires Text(front) + Gather(parts, BlockText) == CandidateText(body.candidates[0])
    requires forall c :: c in front ==> Underway(c, body)
    requires forall c :: c in tail ==> Silent(c, body)
    ensures var last := Response(body.model, [Candidate(parts, body.candidates[0].finish)], body.usage);
            GeminiStream(front + [last] + tail) == GeminiBody(body)
  {
    hide Gather, LastOr, CandidateText, Silent, Underway;
    var last := Response(body.model, [Candidate(parts, body.candidates[0].finish)], body.usage);
    PartsInOrder(front);
    FrontIs(front, body);
    TailIs(tail, body);
    OneCandidate(last);
    OneCandidate(body);
    ThreeTexts(front, last, tail, ChunkText);
    ThreeTexts(front, last, tail, ChunkFinish);
    ThreeFields(front, last, tail, ChunkUsage, NO_USAGE);
    ThreeFields(front, last, tail, ChunkModel, None);
    assert CandidateText(last.candidates[0]) == Gather(parts, BlockText) by { LastText(last); }
  }

  lemma LastText(last: Response)
    requires |last.candidates| == 1
    ensures CandidateText(last.candidates[0]) == Gather(last.candidates[0].parts, BlockText)
  {
  }

  lemma OneCandidate(c: Response)
    requires |c.candidates| == 1
    ensures ChunkText(c) == CandidateText(c.candidates[0]) && ChunkFinish(c) == Reasons(c.candidates[0].finish)
  {
    assert c.candidates == [c.candidates[0]];
    GatherOne(c.candidates[0], CandidateText);
    GatherOne(c.candidates[0], CandidateFinish);
  }

  lemma FrontIs(front: seq<Response>, body: Response)
    requires forall c :: c in front ==> Underway(c, body)
    ensures Gather(front, ChunkFinish) == []
    ensures body.usage == None ==> LastOr(front, ChunkUsage, NO_USAGE) == NO_USAGE
    ensures body.model == None ==> LastOr(front, ChunkModel, None) == None
  {
    hide Gather, LastOr;
    forall c | c in front ensures ChunkFinish(c) == [] { GatherNothing(c.candidates, CandidateFinish); }
    GatherNothing(front, ChunkFinish);
    if body.usage == None { LastUnset(front, ChunkUsage, NO_USAGE); }
    if body.model == None { LastUnset(front, ChunkModel, None); }
  }

  lemma {:induction false} TailIs(tail: seq<Response>, body: Response)
    requires forall c :: c in tail ==> Silent(c, body)
    ensures Gather(tail, ChunkText) == "" && Gather(tail, ChunkFinish) == []
    ensures forall usage :: LastOr(tail, ChunkUsage, usage) == usage
    ensures LastOr(tail, ChunkModel, body.model) == body.model
  {
    hide Gather, CandidateText;
    forall c | c in tail ensures ChunkText(c) == "" && ChunkFinish(c) == [] {
      GatherNothing(c.candidates, CandidateText);
      GatherNothing(c.candidates, CandidateFinish);
    }
    GatherNothing(tail, ChunkText);
    GatherNothing(tail, ChunkFinish);
    forall usage ensures LastOr(tail, ChunkUsage, usage) == usage { LastUnset(tail, ChunkUsage, usage); }
    LastAgrees(tail, ChunkModel, body.model);
  }

  lemma ThreeTexts<T>(front: seq<Response>, last: Response, tail: seq<Response>, piece: Response -> seq<T>)
    ensures Gather(front + [last] + tail, piece) == Gather(front, piece) + piece(last) + Gather(tail, piece)
  {
    GatherAppend(front + [last], tail, piece);
    GatherAppend(front, [last], piece);
    GatherOne(last, piece);
  }

  lemma ThreeFields<T>(front: seq<Response>, last: Response, tail: seq<Response>, field: Response -> Option<T>,
                       initial: T)
    ensures LastOr(front + [last] + tail, field, initial)
         == LastOr(tail, field, Or(field(last), LastOr(front, field, initial)))
  {
    LastAppend(front + [last], tail, field, initial);
    LastAppend(front, [last], field, initial);
    LastOne(last, field, LastOr(front, field, initial));
  }

  // One chunk alone is read like a body.
  lemma OneChunkIsABody(body: Response)
    ensures GeminiStream([body]) == GeminiBody(body)
  {
    GatherOne(body, ChunkText);
    GatherOne(body, ChunkFinish);
    LastOne(body, ChunkUsage, NO_USAGE);
    LastOne(body, ChunkModel, None);
  }

  // With two candidates the chunks interleave what the body keeps apart.
  lemma TwoCandidatesInterleave()
    ensures var chunks := [Response(None, [Says("a"), Says("x")], None), Response(None, [Says("b"), Says("y")], None)];
            var body := Response(None, [Says("ab"), Says("xy")], None);
            GeminiStream(chunks).text == "axby" && GeminiBody(body).text == "abxy"
  {
    hide Gather, CandidateText;
    var first := Response(None, [Says("a"), Says("x")], None);
    var second := Response(None, [Says("b"), Says("y")], None);
    GatherAppend([first], [second], ChunkText);
    assert [first] + [second] == [first, second];
    GatherOne(first, ChunkText);
    GatherOne(second, ChunkText);
    TwoSay("a", "x");
    TwoSay("b", "y");
    TwoSay("ab", "xy");
  }

  function Says(text: string): Candidate { Candidate([TextBlock(text)], None) }

  lemma TwoSay(s: string, t: string)
    ensures ChunkText(Response(None, [Says(s), Says(t)], None)) == s + t
  {
    GatherAppend([Says(s)], [Says(t)], CandidateText);
    assert [Says(s)] + [Says(t)] == [Says(s), Says(t)];
    GatherOne(Says(s), CandidateText);
    GatherOne(Says(t), CandidateText);
    GatherOne(TextBlock(s), BlockText);
    GatherOne(TextBlock(t), BlockText);
  }

  // ----- several candidates -----

  // What the candidates say, in the order in which they come over the wire.
  datatype Turn = Turn(index: nat, text: string)

  function Said(t: Turn): string { t.text }
  function Wire(t: Turn): seq<Candidate> { [Says(t.text)] }
  function SaidBy(i: nat): Turn -> string { (t: Turn) => if t.index == i then t.text else "" }

  // The body holds each candidate once, with all it said.
  function Whole(turns: seq<Turn>, n: nat): seq<Candidate> {
    if n == 0 then [] else Whole(turns, n - 1) + [Says(Gather(turns, SaidBy(n - 1)))]
  }

  function BodyText(turns: seq<Turn>, n: nat): string {
    if n == 0 then "" else BodyText(turns, n - 1) + Gather(turns, SaidBy(n - 1))
  }

  lemma {:induction false} BodyTextIs(turns: seq<Turn>, n: nat)
    ensures Gather(Whole(turns, n), CandidateText) == BodyText(turns, n)
  {
    if n != 0 {
      var text := Gather(turns, SaidBy(n - 1));
      BodyTextIs(turns, n - 1);
      GatherAppend(Whole(turns, n - 1), [Says(text)], CandidateText);
      GatherOne(Says(text), CandidateText);
      GatherOne(TextBlock(text), BlockText);
    }
  }

  lemma SaysText(text: string)
    ensures CandidateText(Says(text)) == text
  {
    GatherOne(TextBlock(text), BlockText);
  }

  lemma StreamTextIs(es: seq<Response>, turns: seq<Turn>)
    requires Gather(es, Candidates) == Gather(turns, Wire)
    ensures GeminiStream(es).text == Gather(turns, Said)
  {
    hide Gather, CandidateText;
    GatherGather(es, Candidates, CandidateText, ChunkText);
    forall t ensures Said(t) == Gather(Wire(t), CandidateText) {
      GatherOne(Says(t.text), CandidateText);
      SaysText(t.text);
    }
    GatherGather(turns, Wire, CandidateText, Said);
  }

  lemma TurnAdds(turns: seq<Turn>, t: Turn, i: nat)
    ensures Gather(turns + [t], SaidBy(i)) == Gather(turns, SaidBy(i)) + if t.index == i then t.text else ""
  {
    hide Gather;
    GatherAppend(turns, [t], SaidBy(i));
    GatherOne(t, SaidBy(i));
  }

  // A turn of the highest candidate so far goes to the end of the body.
  lemma {:induction false} LateTurn(turns: seq<Turn>, t: Turn, n: nat)
    requires forall u :: u in turns ==> u.index <= t.index
    ensures BodyText(turns + [t], n) == BodyText(turns, n) + if n > t.index then t.text else ""
  {
    hide Gather, SaidBy;
    if n != 0 {
      LateTurn(turns, t, n - 1);
      TurnAdds(turns, t, n - 1);
      if n - 1 > t.index {
        SilentSoFar(turns, t, n - 1);
        assert BodyText(turns + [t], n) == BodyText(turns, n - 1) + t.text + ("" + "");
      }
    }
  }

  lemma SilentSoFar(turns: seq<Turn>, t: Turn, i: nat)
    requires (forall u :: u in turns ==> u.index <= t.index) && i > t.index
    ensures Gather(turns, SaidBy(i)) == ""
  {
    GatherNothing(turns, SaidBy(i));
  }

  predicate NonDecreasing(order: seq<nat>) { forall i, j :: 0 <= i < j < |order| ==> order[i] <= order[j] }

  // The turns of a fixed speaking order.
  function Turns(order: seq<nat>, texts: seq<string>): (turns: seq<Turn>)
    requires |order| == |texts|
    ensures |turns| == |order| && forall k :: 0 <= k < |order| ==> turns[k] == Turn(order[k], texts[k])
  {
    seq(|order|, k requires 0 <= k < |order| => Turn(order[k], texts[k]))
  }

  lemma {:induction false} InOrderAgrees(order: seq<nat>, texts: seq<string>, n: nat)
    requires |order| == |texts| && NonDecreasing(order) && forall k :: 0 <= k < |order| ==> order[k] < n
    ensures Gather(Turns(order, texts), Said) == BodyText(Turns(order, texts), n)
    decreases |order|
  {
    var turns := Turns(order, texts);
    if order == [] {
      NobodySpoke(n);
    } else {
      var k := |order| - 1;
      assert turns[..k] == Turns(order[..k], texts[..k]);
      assert turns == turns[..k] + [turns[k]];
      InOrderAgrees(order[..k], texts[..k], n);
      LateTurn(turns[..k], turns[k], n);
    }
  }

  lemma {:induction false} NobodySpoke(n: nat)
    ensures BodyText([], n) == ""
  {
    if n != 0 { NobodySpoke(n - 1); }
  }

  // Everyone silent but for "a" at turn i and "b" at turn j.
  function TwoWords(len: nat, i: nat, j: nat): (texts: seq<string>)
    ensures |texts| == len
    ensures forall k :: 0 <= k < len ==> texts[k] == if k == i then "a" else if k == j then "b" else ""
  {
    seq(len, k => if k == i then "a" else if k == j then "b" else "")
  }

  function Word(cond: bool, w: string): string { if cond then w else "" }

  lemma {:induction false} WordsOf(turns: seq<Turn>, who: Turn -> string, i: nat, j: nat, byI: bool, byJ: bool)
    requires i < j && forall k :: 0 <= k < |turns| ==>
               who(turns[k]) == if k == i then Word(byI, "a") else if k == j then Word(byJ, "b") else ""
    ensures Gather(turns, who) == Word(byI && i < |turns|, "a") + Word(byJ && j < |turns|, "b")
  {
    if turns != [] { WordsOf(turns[..|turns| - 1], who, i, j, byI, byJ); }
  }

  predicate SwappedTurns(turns: seq<Turn>, i: nat, j: nat) {
    && i < j < |turns| && turns[i].index > turns[j].index
    && forall k :: 0 <= k < |turns| ==> turns[k].text == if k == i then "a" else if k == j then "b" else ""
  }

  lemma WordBy(turns: seq<Turn>, i: nat, j: nat, m: nat)
    requires SwappedTurns(turns, i, j)
    ensures Gather(turns, SaidBy(m)) == if m == turns[i].index then "a" else if m == turns[j].index then "b" else ""
  {
    WordsOf(turns, SaidBy(m), i, j, turns[i].index == m, turns[j].index == m);
  }

  lemma {:induction false} SwappedBody(turns: seq<Turn>, i: nat, j: nat, n: nat)
    requires i < j < |turns| && SwappedTurns(turns, i, j)
    ensures BodyText(turns, n) == Spelled(turns[i].index, turns[j].index, n)
  {
    hide SwappedTurns, Gather, SaidBy, Spelled;
    if n == 0 {
      SpelledNothing(turns[i].index, turns[j].index);
    } else {
      SwappedBody(turns, i, j, n - 1);
      WordBy(turns, i, j, n - 1);
      Later(turns, i, j);
      SpelledMore(turns[i].index, turns[j].index, n);
    }
  }

  // What candidates below n spell when i says "a" and an earlier candidate j says "b".
  function Spelled(i: nat, j: nat, n: nat): string { if i < n then "ba" else if j < n then "b" else "" }

  lemma Later(turns: seq<Turn>, i: nat, j: nat)
    requires SwappedTurns(turns, i, j)
    ensures turns[i].index > turns[j].index
  {
  }

  lemma SpelledNothing(i: nat, j: nat)
    ensures Spelled(i, j, 0) == ""
  {
  }

  lemma SpelledMore(i: nat, j: nat, n: nat)
    requires i > j && n > 0
    ensures Spelled(i, j, n) == Spelled(i, j, n - 1) + if n - 1 == i then "a" else if n - 1 == j then "b" else ""
  {
  }

  // Stream and body agree on the text, whatever is said and however it is chunked.
  ghost predicate AlwaysAgree(order: seq<nat>, n: nat) {
    forall texts: seq<string>, es: seq<Response> ::
      |texts| == |order| && Gather(es, Candidates) == Gather(Turns(order, texts), Wire) ==>
        GeminiStream(es).text == GeminiBody(Response(None, Whole(Turns(order, texts), n), None)).text
  }

  // For a fixed order in which n candidates speak, over however many chunks, the streamed text is the body's for
  // all texts exactly when no candidate speaks after a later one.
  lemma StreamTextEqualsBodyTextIff(order: seq<nat>, n: nat)
    requires forall k :: 0 <= k < |order| ==> order[k] < n
    ensures AlwaysAgree(order, n) <==> NonDecreasing(order)
  {
    hide Gather, GeminiStream, GeminiBody, Whole;
    if NonDecreasing(order) {
      forall texts: seq<string>, es: seq<Response>
        | |texts| == |order| && Gather(es, Candidates) == Gather(Turns(order, texts), Wire)
        ensures GeminiStream(es).text == GeminiBody(Response(None, Whole(Turns(order, texts), n), None)).text
      {
        TextsAre(es, Turns(order, texts), n);
        InOrderAgrees(order, texts, n);
      }
    } else {
      var i, j :| 0 <= i < j < |order| && order[i] > order[j];
      Disagree(order, i, j, n);
    }
  }

  lemma TextsAre(es: seq<Response>, turns: seq<Turn>, n: nat)
    requires Gather(es, Candidates) == Gather(turns, Wire)
    ensures GeminiStream(es).text == Gather(turns, Said)
    ensures GeminiBody(Response(None, Whole(turns, n), None)).text == BodyText(turns, n)
  {
    StreamTextIs(es, turns);
    BodyTextIs(turns, n);
  }

  lemma Disagree(order: seq<nat>, i: nat, j: nat, n: nat)
    requires i < j < |order| && n > order[i] > order[j]
    ensures !AlwaysAgree(order, n)
  {
    hide Gather, GeminiStream, GeminiBody, Whole;
    var texts := TwoWords(|order|, i, j);
    var turns := Turns(order, texts);
    var es := [Response(None, Gather(turns, Wire), None)];
    GatherOne(es[0], Candidates);
    TextsAre(es, turns, n);
    WordsOf(turns, Said, i, j, true, true);
    SwappedBody(turns, i, j, n);
    assert "a" + "b" == "ab" && "b" + "a" == "ba" && "ab"[0] != "ba"[0];
  }
}
