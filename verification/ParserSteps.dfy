// What one more event adds to what a stream reports, and what a body reports, spelled out field by field.
module ParserSteps {
  import opened Prelude
  import opened Streams
  import opened Adapters
  import Anthropic
  import ChatCompletions
  import Responses
  import Gemini

  // ----- text -----

  // Text blocks add their text where they stand; other blocks add nothing.
  lemma BlocksJoin(a: seq<Block>, t: string, b: seq<Block>)
    ensures Gather(a + [TextBlock(t)] + b, BlockText) == Gather(a, BlockText) + t + Gather(b, BlockText)
    ensures Gather(a + [OtherBlock] + b, BlockText) == Gather(a + b, BlockText)
  {
    hide Gather;
    GatherAppend(a + [TextBlock(t)], b, BlockText);
    GatherAppend(a, [TextBlock(t)], BlockText);
    GatherOne(TextBlock(t), BlockText);
    GatherAppend(a + [OtherBlock], b, BlockText);
    GatherAppend(a, [OtherBlock], BlockText);
    GatherOne(OtherBlock, BlockText);
    GatherAppend(a, b, BlockText);
    assert Gather(a, BlockText) + "" == Gather(a, BlockText);
  }

  // A step of any loop that appends to one list and overwrites one field.
  lemma OneStep<E, T, F>(es: seq<E>, e: E, piece: E -> seq<T>, field: E -> Option<F>, initial: F)
    ensures Gather(es + [e], piece) == Gather(es, piece) + piece(e)
    ensures LastOr(es + [e], field, initial) == Or(field(e), LastOr(es, field, initial))
  {
    assert (es + [e])[..|es|] == es;
  }

  // ----- Anthropic -----

  lemma AnthropicStep(es: seq<Anthropic.AnthropicEvent>, e: Anthropic.AnthropicEvent)
    ensures var p, q := Anthropic.AnthropicStream(es), Anthropic.AnthropicStream(es + [e]);
            match e
            case MessageStart(model, u) =>
              q == p.(model := if model.Some? then model else p.model,
                      usage := Usage(if u.input.Some? then u.input.value else p.usage.input, p.usage.output,
                                     if u.cacheRead.Some? then u.cacheRead.value else 0,
                                     if u.cacheCreation.Some? then u.cacheCreation.value else 0))
            case TextDelta(text) => q == p.(text := p.text + text)
            case MessageDelta(output, reason) =>
              q == p.(usage := p.usage.(output := if output.Some? then output.value else p.usage.output),
                      finish := p.finish + if reason in {None, Some("")} then [] else [reason.value])
            case OtherEvent => q == p
  {
    hide Gather, LastOr;
    OneStep(es, e, Anthropic.AnthropicText, Anthropic.AnthropicInput, 0);
    OneStep(es, e, Anthropic.AnthropicFinish, Anthropic.AnthropicOutput, 0);
    OneStep(es, e, Anthropic.AnthropicText, Anthropic.AnthropicRead, 0);
    OneStep(es, e, Anthropic.AnthropicText, Anthropic.AnthropicCreation, 0);
    OneStep(es, e, Anthropic.AnthropicText, Anthropic.AnthropicModel, None);
  }

  lemma AnthropicBodyReads(content: seq<Block>, input: int, output: int, read: int, creation: int, reason: string,
                           model: Option<string>)
    ensures var u := Anthropic.AnthropicUsage(Some(input), Some(output), Some(read), Some(creation));
            Anthropic.ParseAnthropicBody(Anthropic.AnthropicBody(content, u, Some(reason), model))
            == Parsed(Gather(content, BlockText), Usage(input, output, read, creation),
                      if reason == "" then [] else [reason], model)
  {
  }

  // ----- chat completions -----

  // The cached part of a prompt is taken out of it, and never more than the prompt.
  function Metered(prompt: int, completion: int, cached: int): Usage {
    Usage(if prompt >= cached then prompt - cached else 0, completion, cached, 0)
  }

  lemma ChatStep(es: seq<ChatCompletions.Chunk>, model: Option<string>, u: Option<ChatCompletions.ChatUsage>)
    ensures var p := ChatCompletions.ChatStream(es);
            ChatCompletions.ChatStream(es + [ChatCompletions.Chunk(model, [], u)])
            == p.(model := if model.Some? then model else p.model,
               usage := if u == None then p.usage
                        else Metered(Or(u.value.prompt, 0), Or(u.value.completion, 0), Or(u.value.cached, 0)))
  {
    hide Gather, LastOr;
    var c := ChatCompletions.Chunk(model, [], u);
    OneStep(es, c, ChatCompletions.ChunkChoices, ChatCompletions.ChunkUsage, NO_USAGE);
    OneStep(es, c, ChatCompletions.ChunkChoices, ChatCompletions.ChunkModel, None);
    assert ChatCompletions.Deltas(es) + [] == ChatCompletions.Deltas(es);
  }

  lemma ChatDelta(es: seq<ChatCompletions.Chunk>, c: ChatCompletions.Chunk, d: ChatCompletions.Delta)
    ensures var p := ChatCompletions.ChatStream(es + [c]);
            ChatCompletions.ChatStream(es + [c.(choices := c.choices + [d])])
            == p.(text := p.text + if d.content.Some? then d.content.value else "",
               finish := p.finish + if d.finish in {None, Some("")} then [] else [d.finish.value])
  {
    hide Gather, LastOr;
    var more := c.(choices := c.choices + [d]);
    var ds := ChatCompletions.Deltas(es + [c]);
    OneStep(es, c, ChatCompletions.ChunkChoices, ChatCompletions.ChunkUsage, NO_USAGE);
    OneStep(es, c, ChatCompletions.ChunkChoices, ChatCompletions.ChunkModel, None);
    OneStep(es, more, ChatCompletions.ChunkChoices, ChatCompletions.ChunkUsage, NO_USAGE);
    OneStep(es, more, ChatCompletions.ChunkChoices, ChatCompletions.ChunkModel, None);
    assert ChatCompletions.Deltas(es + [more]) == ds + [d];
    GatherAppend(ds, [d], ChatCompletions.DeltaText);
    GatherAppend(ds, [d], ChatCompletions.DeltaFinish);
    GatherOne(d, ChatCompletions.DeltaText);
    GatherOne(d, ChatCompletions.DeltaFinish);
  }

  lemma ChatBodyReads(content: ChatCompletions.Content, reason: string, others: seq<ChatCompletions.Choice>,
                      prompt: int, completion: int, cached: int, model: Option<string>)
    ensures var u := ChatCompletions.ChatUsage(Some(prompt), Some(completion), Some(cached));
            var choices := [ChatCompletions.Choice(content, Some(reason))] + others;
            ChatCompletions.ParseChatBody(ChatCompletions.ChatBody(model, choices, Some(u)))
            == Parsed(match content
                   case PlainText(t) => t
                   case Parts(ps) => Gather(ps, BlockText)
                   case NoContent => "",
                   Metered(prompt, completion, cached), if reason == "" then [] else [reason], model)
  {
  }

  // ----- Responses -----

  lemma ResponsesStep(es: seq<Responses.Event>, e: Responses.Event)
    ensures var p, q := Responses.ResponsesStream(es), Responses.ResponsesStream(es + [e]);
            match e
            case OutputTextDelta(delta) => q == p.(text := p.text + if delta.Some? then delta.value else "")
            case OtherEvent => q == p
            case Terminal(r) =>
              var first := forall x :: x in es ==> x.OtherEvent?;
              q == Parsed(if first then Gather(r.output, Responses.ItemText) else p.text,
                          if r.usage == None then p.usage
                          else var u := r.usage.value; Metered(Or(u.input, 0), Or(u.output, 0), Or(u.cached, 0)),
                          p.finish + if r.status in {None, Some("")} then [] else [r.status.value],
                          if r.model.Some? then r.model else p.model)
  {
    hide Gather, LastOr, Filter, Responses.StreamText;
    OneStep(es, e, Responses.EventFinish, Responses.EventUsage, NO_USAGE);
    OneStep(es, e, Responses.EventFinish, Responses.EventModel, None);
    Responses.TextStep(es + [e], |es|);
    assert (es + [e])[..|es|] == es && (es + [e])[..|es| + 1] == es + [e];
    NobodySpoke(es);
    if e.Terminal? {
      var p, q, r := Responses.ResponsesStream(es), Responses.ResponsesStream(es + [e]), e.response;
      assert q.text == if forall x :: x in es ==> x.OtherEvent? then Gather(r.output, Responses.ItemText) else p.text;
      assert q.finish == p.finish + if r.status in {None, Some("")} then [] else [r.status.value];
      assert q.model == if r.model.Some? then r.model else p.model;
      assert r.usage == None ==> q.usage == p.usage;
    }
  }

  lemma NobodySpoke(es: seq<Responses.Event>)
    ensures Filter(es, Responses.Speaks) == [] <==> forall x :: x in es ==> x.OtherEvent?
  {
    hide Filter;
    var spoken := Filter(es, Responses.Speaks);
    if spoken == [] {
      forall x | x in es ensures x.OtherEvent? { assert x !in spoken; }
    } else {
      assert spoken[0] in spoken;
    }
  }

  // The text of an output is that of its message items.
  lemma ItemsJoin(output: seq<Responses.Item>, parts: seq<Block>)
    ensures Gather(output + [Responses.MessageItem(parts)], Responses.ItemText)
         == Gather(output, Responses.ItemText) + Gather(parts, BlockText)
    ensures Gather(output + [Responses.OtherItem], Responses.ItemText) == Gather(output, Responses.ItemText)
  {
    hide Gather;
    GatherAppend(output, [Responses.MessageItem(parts)], Responses.ItemText);
    GatherOne(Responses.MessageItem(parts), Responses.ItemText);
    GatherAppend(output, [Responses.OtherItem], Responses.ItemText);
    GatherOne(Responses.OtherItem, Responses.ItemText);
  }

  // ----- Gemini -----

  lemma GeminiStep(es: seq<Gemini.Response>, model: Option<string>, u: Option<Gemini.GeminiUsage>)
    ensures var p := Gemini.GeminiStream(es);
            Gemini.GeminiStream(es + [Gemini.Response(model, [], u)])
            == p.(model := if model.Some? then model else p.model,
               usage := if u == None then p.usage
                        else Metered(Or(u.value.prompt, 0), Or(u.value.candidates, 0), Or(u.value.cached, 0)))
  {
    hide Gather, LastOr;
    var c := Gemini.Response(model, [], u);
    OneStep(es, c, Gemini.ChunkText, Gemini.ChunkUsage, NO_USAGE);
    OneStep(es, c, Gemini.ChunkFinish, Gemini.ChunkModel, None);
    NoCandidates();
    var p := Gemini.GeminiStream(es);
    assert p.text + "" == p.text && p.finish + [] == p.finish;
  }

  lemma NoCandidates()
    ensures Gather([], Gemini.CandidateText) == "" && Gather([], Gemini.CandidateFinish) == []
  {
  }

  lemma GeminiCandidate(es: seq<Gemini.Response>, c: Gemini.Response, d: Gemini.Candidate)
    ensures var p := Gemini.GeminiStream(es + [c]);
            Gemini.GeminiStream(es + [c.(candidates := c.candidates + [d])])
            == p.(text := p.text + Gather(d.parts, BlockText),
               finish := p.finish + if d.finish in {None, Some("")} then [] else [d.finish.value])
  {
    hide Gather, LastOr;
    var more := c.(candidates := c.candidates + [d]);
    OneStep(es, c, Gemini.ChunkText, Gemini.ChunkUsage, NO_USAGE);
    OneStep(es, c, Gemini.ChunkFinish, Gemini.ChunkModel, None);
    OneStep(es, more, Gemini.ChunkText, Gemini.ChunkUsage, NO_USAGE);
    OneStep(es, more, Gemini.ChunkFinish, Gemini.ChunkModel, None);
    GatherAppend(c.candidates, [d], Gemini.CandidateText);
    GatherAppend(c.candidates, [d], Gemini.CandidateFinish);
    GatherOne(d, Gemini.CandidateText);
    GatherOne(d, Gemini.CandidateFinish);
    assert Gemini.ChunkText(more) == Gemini.ChunkText(c) + Gather(d.parts, BlockText);
  }
}
