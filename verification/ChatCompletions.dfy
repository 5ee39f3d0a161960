// OpenAI chat completions: the streamed chunks and the whole body.
module ChatCompletions {
  import opened Prelude
  import opened Streams
  import opened Adapters

  datatype ChatUsage = ChatUsage(prompt: Option<int>, completion: Option<int>, cached: Option<int>)

  datatype Delta = Delta(index: nat, content: Option<string>, finish: Option<string>)

  // A chunk without usage, or with an empty usage object, has None.
  datatype Chunk = Chunk(model: Option<string>, choices: seq<Delta>, usage: Option<ChatUsage>)

  datatype Content = PlainText(text: string) | Parts(parts: seq<Block>) | NoContent

  datatype Choice = Choice(content: Content, finish: Option<string>)

  datatype ChatBody = ChatBody(model: Option<string>, choices: seq<Choice>, usage: Option<ChatUsage>)

  function ChatCounts(u: ChatUsage): Usage {
    Usage(Uncached(u.prompt, u.cached), Or(u.completion, 0), Or(u.cached, 0), 0)
  }

  function DeltaText(d: Delta): string { Or(d.content, "") }
  function DeltaFinish(d: Delta): seq<string> { Reasons(d.finish) }
  function ChunkChoices(c: Chunk): seq<Delta> { c.choices }
  function ChunkModel(c: Chunk): Option<Option<string>> { Given(c.model) }
  function ChunkUsage(c: Chunk): Option<Usage> { if c.usage.Some? then Some(ChatCounts(c.usage.value)) else None }

  // The choice deltas of all chunks, in the order they were sent.
  function Deltas(es: seq<Chunk>): seq<Delta> { Gather(es, ChunkChoices) }

  function ChatStream(es: seq<Chunk>): Parsed {
    Parsed(Gather(Deltas(es), DeltaText), LastOr(es, ChunkUsage, NO_USAGE),
           Gather(Deltas(es), DeltaFinish), LastOr(es, ChunkModel, None))
  }

  predicate HadUsage(es: seq<Chunk>) { exists c :: c in es && c.usage.Some? }

  method ParseChatStream(es: seq<Chunk>) returns (r: Parsed, hadUsage: bool)
    ensures r == ChatStream(es) && hadUsage == HadUsage(es)
  {
    hide Gather, LastOr;
    assert es[..0] == [];
    ChatNothing();
    var text, usage, finish, model := "", NO_USAGE, [], None;
    hadUsage := false;
    for i := 0 to |es|
      invariant Parsed(text, usage, finish, model) == ChatStream(es[..i])
      invariant hadUsage == exists j :: 0 <= j < i && es[j].usage.Some?
    {
      GatherStep(es, ChunkChoices, i);
      LastStep(es, ChunkUsage, NO_USAGE, i);
      LastStep(es, ChunkModel, None, i);
      if es[i].model.Some? { model := es[i].model; }
      text, finish := ReadChoices(es[i].choices, Deltas(es[..i]), text, finish);
      if es[i].usage.Some? {
        usage, hadUsage := ChatCounts(es[i].usage.value), true;
      }
    }
    assert es[..|es|] == es;
    r := Parsed(text, usage, finish, model);
  }

  // The inner loop over one chunk's choices, after the deltas of the earlier chunks.
  method ReadChoices(choices: seq<Delta>, ghost before: seq<Delta>, text0: string, finish0: seq<string>)
    returns (text: string, finish: seq<string>)
    requires text0 == Gather(before, DeltaText) && finish0 == Gather(before, DeltaFinish)
    ensures text == Gather(before + choices, DeltaText) && finish == Gather(before + choices, DeltaFinish)
  {
    hide Gather;
    text, finish := text0, finish0;
    assert before + choices[..0] == before;
    for j := 0 to |choices|
      invariant text == Gather(before + choices[..j], DeltaText)
      invariant finish == Gather(before + choices[..j], DeltaFinish)
    {
      assert before + choices[..j + 1] == before + choices[..j] + [choices[j]];
      GatherAppend(before + choices[..j], [choices[j]], DeltaText);
      GatherAppend(before + choices[..j], [choices[j]], DeltaFinish);
      GatherOne(choices[j], DeltaText);
      GatherOne(choices[j], DeltaFinish);
      var piece, reason := choices[j].content, choices[j].finish;
      if piece.Some? && piece.value != "" { text := text + piece.value; }
      if reason.Some? && reason.value != "" { finish := finish + [reason.value]; }
    }
    assert choices[..|choices|] == choices;
  }

  lemma ChatNothing()
    ensures ChatStream([]) == Parsed("", NO_USAGE, [], None)
  {
  }

  function ContentText(c: Content): string {
    match c case PlainText(t) => t case Parts(ps) => Gather(ps, BlockText) case NoContent => ""
  }

  function ParseChatBody(body: ChatBody): Parsed {
    var choice := if body.choices == [] then Choice(NoContent, None) else body.choices[0];
    Parsed(ContentText(choice.content), if body.usage.Some? then ChatCounts(body.usage.value) else NO_USAGE,
           Reasons(choice.finish), body.model)
  }

  // The share of one choice in a stream.
  function Only<T>(i: nat, piece: Delta -> seq<T>): Delta -> seq<T> {
    (d: Delta) => if d.index == i then piece(d) else []
  }

  lemma {:induction false} OnlyFirst<T>(ds: seq<Delta>, piece: Delta -> seq<T>)
    ensures |Gather(ds, piece)| >= |Gather(ds, Only(0, piece))|
    ensures Gather(ds, piece) == Gather(ds, Only(0, piece)) <==>
            forall d :: d in ds && d.index != 0 ==> piece(d) == []
  {
    if ds != [] {
      var n := |ds| - 1;
      OnlyFirst(ds[..n], piece);
      assert ds == ds[..n] + [ds[n]];
      if forall d :: d in ds && d.index != 0 ==> piece(d) == [] {
        assert forall d :: d in ds[..n] ==> d in ds;
        assert ds[n] in ds;
      } else if ds[n].index != 0 && piece(ds[n]) != [] {
        assert |Gather(ds, piece)| > |Gather(ds, Only(0, piece))|;
      } else {
        assert piece(ds[n]) == Only(0, piece)(ds[n]);
        assert Gather(ds[..n], piece) != Gather(ds[..n], Only(0, piece));
        SameTail(Gather(ds[..n], piece), Gather(ds[..n], Only(0, piece)), piece(ds[n]));
      }
    }
  }

  lemma SameTail<T>(a: seq<T>, b: seq<T>, tail: seq<T>)
    ensures a + tail == b + tail ==> a == b
  {
    if a + tail == b + tail {
      assert a == (a + tail)[..|a|];
      assert b == (b + tail)[..|b|];
    }
  }

  // What one field of a stream shows of all choices is what it shows of the first, exactly when the others
  // have nothing there.
  lemma OnlyFirstIff<T>(ds: seq<Delta>, piece: Delta -> seq<T>, choices: nat)
    requires forall d :: d in ds ==> d.index < choices
    ensures Gather(ds, piece) == Gather(ds, Only(0, piece)) <==>
            forall i :: 1 <= i < choices ==> Gather(ds, Only(i, piece)) == []
  {
    hide Gather;
    OnlyFirst(ds, piece);
    forall i: nat { GatherEmpty(ds, Only(i, piece)); }
    if forall i :: 1 <= i < choices ==> Gather(ds, Only(i, piece)) == [] {
      forall d | d in ds && d.index != 0 ensures piece(d) == [] {
        assert Gather(ds, Only(d.index, piece)) == [];
        assert Only(d.index, piece)(d) == [];
      }
    }
  }

  // The stream carries the body: the deltas of each choice spell its text and its reason, cut into any chunks;
  // chunk u is the last with a usage, and it is the body's; every chunk names the body's model or none.
  ghost predicate ChatCarries(es: seq<Chunk>, body: ChatBody, u: nat) {
    && (forall d :: d in Deltas(es) ==> d.index < |body.choices|)
    && (forall i :: 0 <= i < |body.choices| ==>
          && Gather(Deltas(es), Only(i, DeltaText)) == ContentText(body.choices[i].content)
          && Gather(Deltas(es), Only(i, DeltaFinish)) == Reasons(body.choices[i].finish))
    && (if body.usage == None then forall c :: c in es ==> c.usage == None
        else u < |es| && es[u].usage == body.usage && forall j :: u < j < |es| ==> es[j].usage == None)
    && (forall c :: c in es ==> c.model == None || c.model == body.model)
    && (body.model.Some? ==> exists c :: c in es && c.model.Some?)
  }

  lemma CarriedFields(es: seq<Chunk>, body: ChatBody, u: nat)
    requires ChatCarries(es, body, u)
    ensures LastOr(es, ChunkUsage, NO_USAGE) == ParseChatBody(body).usage
    ensures LastOr(es, ChunkModel, None) == body.model
  {
    hide Gather, LastOr, Only, ContentText;
    if body.usage == None { LastUnset(es, ChunkUsage, NO_USAGE); } else { LastFrom(es, ChunkUsage, NO_USAGE, u); }
    if body.model.Some? {
      var c :| c in es && c.model.Some?;
      assert ChunkModel(c).Some?;
    }
    LastOfOne(es, ChunkModel, None, body.model);
  }

  // The stream parser joins all choices and the body parser reads the first, so they agree exactly when the
  // body's other choices have neither text nor a finish reason: in particular, always with one choice.
  lemma ChatStreamEqualsBodyIff(es: seq<Chunk>, body: ChatBody, u: nat)
    requires ChatCarries(es, body, u)
    ensures ChatStream(es) == ParseChatBody(body) <==>
            forall i :: 1 <= i < |body.choices| ==>
              ContentText(body.choices[i].content) == "" && Reasons(body.choices[i].finish) == []
  {
    hide Gather, LastOr, Only, ContentText, Reasons, Deltas;
    var ds, n := Deltas(es), |body.choices|;
    CarriedFields(es, body, u);
    OnlyFirstIff(ds, DeltaText, n);
    OnlyFirstIff(ds, DeltaFinish, n);
    if n == 0 {
      GatherNothing(ds, DeltaText);
      GatherNothing(ds, DeltaFinish);
      assert ContentText(NoContent) == "" && Reasons(None) == [] by { NoChoice(); }
    } else {
      assert forall i :: 1 <= i < n ==> Gather(ds, Only(i, DeltaText)) == ContentText(body.choices[i].content);
      assert forall i :: 1 <= i < n ==> Gather(ds, Only(i, DeltaFinish)) == Reasons(body.choices[i].finish);
    }
  }

  lemma NoChoice()
    ensures ContentText(NoContent) == "" && Reasons(None) == []
  {
  }
}
