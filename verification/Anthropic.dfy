// Anthropic messages: the streamed events and the whole body.
module Anthropic {
  import opened Prelude
  import opened Streams
  import opened Adapters

  datatype AnthropicUsage =
    AnthropicUsage(input: Option<int>, output: Option<int>, cacheRead: Option<int>, cacheCreation: Option<int>)

  datatype AnthropicEvent =
    | MessageStart(model: Option<string>, usage: AnthropicUsage)
    | TextDelta(text: string)
    | MessageDelta(output: Option<int>, stopReason: Option<string>)
    | OtherEvent

  datatype AnthropicBody =
    AnthropicBody(content: seq<Block>, usage: AnthropicUsage, stopReason: Option<string>, model: Option<string>)

  function AnthropicText(e: AnthropicEvent): string { if e.TextDelta? then e.text else "" }
  function AnthropicFinish(e: AnthropicEvent): seq<string> { if e.MessageDelta? then Reasons(e.stopReason) else [] }
  function AnthropicOutput(e: AnthropicEvent): Option<int> { if e.MessageDelta? then e.output else None }
  function AnthropicInput(e: AnthropicEvent): Option<int> { if e.MessageStart? then e.usage.input else None }
  function AnthropicRead(e: AnthropicEvent): Option<int> {
    if e.MessageStart? then Some(Or(e.usage.cacheRead, 0)) else None
  }
  function AnthropicCreation(e: AnthropicEvent): Option<int> {
    if e.MessageStart? then Some(Or(e.usage.cacheCreation, 0)) else None
  }
  function AnthropicModel(e: AnthropicEvent): Option<Option<string>> {
    if e.MessageStart? then Given(e.model) else None
  }

  // What a stream reports, field by field: text and reasons accumulate, counts and model are the last ones sent.
  function AnthropicStream(es: seq<AnthropicEvent>): Parsed {
    var usage := Usage(LastOr(es, AnthropicInput, 0), LastOr(es, AnthropicOutput, 0),
                       LastOr(es, AnthropicRead, 0), LastOr(es, AnthropicCreation, 0));
    Parsed(Gather(es, AnthropicText), usage, Gather(es, AnthropicFinish), LastOr(es, AnthropicModel, None))
  }

  method ParseAnthropicStream(es: seq<AnthropicEvent>) returns (r: Parsed)
    ensures r == AnthropicStream(es)
  {
    hide Gather, LastOr;
    assert es[..0] == [];
    AnthropicNothing();
    var text, finish, model := "", [], None;
    var input, output, cacheRead, cacheCreation := 0, 0, 0, 0;
    for i := 0 to |es|
      invariant Parsed(text, Usage(input, output, cacheRead, cacheCreation), finish, model) == AnthropicStream(es[..i])
    {
      GatherStep(es, AnthropicText, i);
      GatherStep(es, AnthropicFinish, i);
      LastStep(es, AnthropicInput, 0, i);
      LastStep(es, AnthropicOutput, 0, i);
      LastStep(es, AnthropicRead, 0, i);
      LastStep(es, AnthropicCreation, 0, i);
      LastStep(es, AnthropicModel, None, i);
      match es[i]
      case MessageStart(m, u) =>
        if m.Some? { model := m; }
        if u.input.Some? { input := u.input.value; }
        cacheRead, cacheCreation := Or(u.cacheRead, 0), Or(u.cacheCreation, 0);
      case TextDelta(t) =>
        text := text + t;
      case MessageDelta(o, reason) =>
        if o.Some? { output := o.value; }
        if reason.Some? && reason.value != "" { finish := finish + [reason.value]; }
      case OtherEvent =>
    }
    assert es[..|es|] == es;
    r := Parsed(text, Usage(input, output, cacheRead, cacheCreation), finish, model);
  }

  lemma AnthropicNothing()
    ensures AnthropicStream([]) == Parsed("", NO_USAGE, [], None)
  {
  }

  function ParseAnthropicBody(body: AnthropicBody): Parsed {
    var u := body.usage;
    Parsed(Gather(body.content, BlockText),
           Usage(Or(u.input, 0), Or(u.output, 0), Or(u.cacheRead, 0), Or(u.cacheCreation, 0)),
           Reasons(body.stopReason), body.model)
  }

  predicate AnthropicSpeaks(e: AnthropicEvent) { !e.OtherEvent? }

  // Unknown events do not change what a stream reports.
  lemma AnthropicIgnoresTheUnknown(es: seq<AnthropicEvent>)
    ensures AnthropicStream(Filter(es, AnthropicSpeaks)) == AnthropicStream(es)
  {
    GatherIgnores(es, AnthropicSpeaks, AnthropicText);
    GatherIgnores(es, AnthropicSpeaks, AnthropicFinish);
    LastIgnores(es, AnthropicSpeaks, AnthropicInput, 0);
    LastIgnores(es, AnthropicSpeaks, AnthropicOutput, 0);
    LastIgnores(es, AnthropicSpeaks, AnthropicRead, 0);
    LastIgnores(es, AnthropicSpeaks, AnthropicCreation, 0);
    LastIgnores(es, AnthropicSpeaks, AnthropicModel, None);
  }

  // Text deltas, and running counts that say nothing yet about why the message ends.
  predicate Underway(e: AnthropicEvent, body: AnthropicBody) {
    || e.TextDelta?
    || (e.MessageDelta? && Reasons(e.stopReason) == [] && (body.usage.output == None ==> e.output == None))
  }

  // A message streamed with its text cut anywhere, running output counts on the way and unknown events anywhere
  // between is reported exactly like its body. The count at the start is ignored; the last one holds.
  lemma AnthropicStreamEqualsBody(
    es: seq<AnthropicEvent>, body: AnthropicBody, early: Option<int>, middle: seq<AnthropicEvent>)
    requires Filter(es, AnthropicSpeaks) == [MessageStart(body.model, body.usage.(output := early))] + middle
                                            + [MessageDelta(body.usage.output, body.stopReason)]
    requires forall e :: e in middle ==> Underway(e, body)
    requires Gather(middle, AnthropicText) == Gather(body.content, BlockText)
    ensures AnthropicStream(es) == ParseAnthropicBody(body)
  {
    hide Gather, LastOr, Filter;
    AnthropicIgnoresTheUnknown(es);
    AnthropicMiddle(middle, body);
    var start := MessageStart(body.model, body.usage.(output := early));
    var stop := MessageDelta(body.usage.output, body.stopReason);
    AnthropicWhole(start, middle, stop);
  }

  // A stream that starts once reports the parts of its three stretches together.
  lemma AnthropicWhole(start: AnthropicEvent, middle: seq<AnthropicEvent>, stop: AnthropicEvent)
    requires start.MessageStart? && stop.MessageDelta?
    requires forall e :: e in middle ==> e.TextDelta? || e.MessageDelta?
    ensures AnthropicStream([start] + middle + [stop])
         == Parsed(Gather(middle, AnthropicText),
                   Usage(Or(start.usage.input, 0), Or(stop.output, LastOr(middle, AnthropicOutput, 0)),
                         Or(start.usage.cacheRead, 0), Or(start.usage.cacheCreation, 0)),
                   Gather(middle, AnthropicFinish) + Reasons(stop.stopReason), start.model)
  {
    hide Gather, LastOr;
    var es := [start] + middle + [stop];
    AnthropicEnds(start, middle, stop, AnthropicText);
    AnthropicEnds(start, middle, stop, AnthropicFinish);
    AnthropicLast(start, middle, stop, AnthropicInput, 0);
    AnthropicLast(start, middle, stop, AnthropicOutput, 0);
    AnthropicLast(start, middle, stop, AnthropicRead, 0);
    AnthropicLast(start, middle, stop, AnthropicCreation, 0);
    AnthropicLast(start, middle, stop, AnthropicModel, None);
    LastUnset(middle, AnthropicInput, Or(AnthropicInput(start), 0));
    LastUnset(middle, AnthropicRead, Or(AnthropicRead(start), 0));
    LastUnset(middle, AnthropicCreation, Or(AnthropicCreation(start), 0));
    LastUnset(middle, AnthropicModel, Or(AnthropicModel(start), None));
  }

  lemma AnthropicEnds<T>(start: AnthropicEvent, middle: seq<AnthropicEvent>, stop: AnthropicEvent,
                         piece: AnthropicEvent -> seq<T>)
    ensures Gather([start] + middle + [stop], piece) == piece(start) + Gather(middle, piece) + piece(stop)
  {
    GatherAppend([start] + middle, [stop], piece);
    GatherAppend([start], middle, piece);
    GatherOne(start, piece);
    GatherOne(stop, piece);
  }

  lemma AnthropicLast<T>(start: AnthropicEvent, middle: seq<AnthropicEvent>, stop: AnthropicEvent,
                         field: AnthropicEvent -> Option<T>, initial: T)
    ensures LastOr([start] + middle + [stop], field, initial)
         == Or(field(stop), LastOr(middle, field, Or(field(start), initial)))
  {
    LastAppend([start] + middle, [stop], field, initial);
    LastAppend([start], middle, field, initial);
    LastOne(start, field, initial);
    LastOne(stop, field, LastOr([start] + middle, field, initial));
  }

  lemma AnthropicMiddle(middle: seq<AnthropicEvent>, body: AnthropicBody)
    requires forall e :: e in middle ==> Underway(e, body)
    ensures Gather(middle, AnthropicFinish) == []
    ensures body.usage.output == None ==> LastOr(middle, AnthropicOutput, 0) == 0
  {
    GatherNothing(middle, AnthropicFinish);
    if body.usage.output == None { LastUnset(middle, AnthropicOutput, 0); }
  }
}
