// The OpenAI Responses API: typed stream events ending in a terminal response, and the whole body.
module Responses {
  import opened Prelude
  import opened Streams
  import opened Adapters

  datatype ResponsesUsage = ResponsesUsage(input: Option<int>, output: Option<int>, cached: Option<int>)

  // An output item: a message with its content parts, or something else.
  datatype Item = MessageItem(parts: seq<Block>) | OtherItem

  // The whole body, and the payload of response.completed, .incomplete and .failed. Usage is None when it is
  // missing or empty.
  datatype Response =
    Response(output: seq<Item>, usage: Option<ResponsesUsage>, status: Option<string>, model: Option<string>)

  datatype Event = OutputTextDelta(delta: Option<string>) | Terminal(response: Response) | OtherEvent

  function Counts(u: Option<ResponsesUsage>): Usage {
    match u
    case Some(u) => Usage(Uncached(u.input, u.cached), Or(u.output, 0), Or(u.cached, 0), 0)
    case None => NO_USAGE
  }

  function ItemText(i: Item): string { if i.MessageItem? then Gather(i.parts, BlockText) else "" }

  method OutputText(output: seq<Item>) returns (text: string)
    ensures text == Gather(output, ItemText)
  {
    text := "";
    for i := 0 to |output|
      invariant text == Gather(output[..i], ItemText)
    {
      GatherStep(output, ItemText, i);
      if output[i].MessageItem? { text := text + Gather(output[i].parts, BlockText); }
    }
    assert output[..|output|] == output;
  }

  predicate Speaks(e: Event) { !e.OtherEvent? }

  function EventText(e: Event): string { if e.OutputTextDelta? then Or(e.delta, "") else "" }
  function EventFinish(e: Event): seq<string> { if e.Terminal? then Reasons(e.response.status) else [] }
  function EventModel(e: Event): Option<Option<string>> { if e.Terminal? then Given(e.response.model) else None }
  function EventUsage(e: Event): Option<Usage> {
    if e.Terminal? && e.response.usage.Some? then Some(Counts(e.response.usage)) else None
  }

  // The full text of a terminal event counts only when nothing, not even an empty delta, came before it.
  function Fallback(es: seq<Event>): string {
    var spoken := Filter(es, Speaks);
    if spoken != [] && spoken[0].Terminal? then Gather(spoken[0].response.output, ItemText) else ""
  }

  function StreamText(es: seq<Event>): string { Fallback(es) + Gather(es, EventText) }

  function ResponsesStream(es: seq<Event>): Parsed {
    Parsed(StreamText(es), LastOr(es, EventUsage, NO_USAGE),
           Gather(es, EventFinish), LastOr(es, EventModel, None))
  }

  function Itself(part: string): string { part }

  method ParseResponsesStream(es: seq<Event>) returns (r: Parsed)
    ensures r == ResponsesStream(es)
  {
    hide Gather, LastOr, Filter, StreamText;
    assert es[..0] == [];
    NothingYet();
    var usage, finish, model := NO_USAGE, [], None;
    var textParts: seq<string> := [];
    for i := 0 to |es|
      invariant Parsed(Gather(textParts, Itself), usage, finish, model) == ResponsesStream(es[..i])
      invariant textParts == [] <==> Filter(es[..i], Speaks) == []
    {
      GatherStep(es, EventFinish, i);
      LastStep(es, EventUsage, NO_USAGE, i);
      LastStep(es, EventModel, None, i);
      TextStep(es, i);
      match es[i]
      case OutputTextDelta(delta) =>
        GatherPush(textParts, Or(delta, ""));
        textParts := textParts + [Or(delta, "")];
      case Terminal(resp) =>
        if resp.model.Some? { model := resp.model; }
        if resp.usage.Some? { usage := Counts(resp.usage); }
        if resp.status.Some? && resp.status.value != "" { finish := finish + [resp.status.value]; }
        if textParts == [] {
          var text := OutputText(resp.output);
          GatherPush(textParts, text);
          textParts := textParts + [text];
        }
      case OtherEvent =>
    }
    assert es[..|es|] == es;
    r := Parsed(Gather(textParts, Itself), usage, finish, model);
  }

  lemma NothingYet()
    ensures ResponsesStream([]) == Parsed("", NO_USAGE, [], None) && Filter([], Speaks) == []
    ensures Gather([], Itself) == "" && Gather([], EventText) == ""
  {
  }

  lemma GatherPush(parts: seq<string>, part: string)
    ensures Gather(parts + [part], Itself) == Gather(parts, Itself) + part
  {
    assert (parts + [part])[..|parts|] == parts;
  }

  lemma TextStep(es: seq<Event>, i: nat)
    requires i < |es|
    ensures Filter(es[..i + 1], Speaks) == Filter(es[..i], Speaks) + if Speaks(es[i]) then [es[i]] else []
    ensures StreamText(es[..i + 1])
         == match es[i]
            case OutputTextDelta(delta) => StreamText(es[..i]) + Or(delta, "")
            case Terminal(r) =>
              if Filter(es[..i], Speaks) == [] then Gather(r.output, ItemText) else StreamText(es[..i])
            case OtherEvent => StreamText(es[..i])
  {
    hide Filter, Gather, ItemText;
    GatherStep(es, EventText, i);
    FilterLast(es[..i + 1], Speaks);
    assert es[..i + 1][..i] == es[..i];
    if Filter(es[..i], Speaks) == [] {
      assert forall e :: e in es[..i] ==> e !in Filter(es[..i], Speaks);
      GatherNothing(es[..i], EventText);
    }
  }

  method ParseResponsesBody(body: Response) returns (r: Parsed)
    ensures r == ResponsesBody(body)
  {
    var text := OutputText(body.output);
    var usage := Counts(body.usage);
    var finish := if body.status.Some? && body.status.value != "" then [body.status.value] else [];
    r := Parsed(text, usage, finish, body.model);
  }

  function ResponsesBody(body: Response): Parsed {
    Parsed(Gather(body.output, ItemText), Counts(body.usage), Reasons(body.status), body.model)
  }

  // Any deltas and unknown events, then the response itself: usage, status and model are the body's, and so is
  // the text, exactly when the deltas spell it or there is no delta event at all.
  lemma {:induction false} ResponsesStreamEqualsBodyIff(es: seq<Event>, body: Response, deltas: seq<Event>)
    requires Filter(es, Speaks) == deltas + [Terminal(body)]
    requires forall e :: e in deltas ==> e.OutputTextDelta?
    ensures ResponsesStream(es).(text := ResponsesBody(body).text) == ResponsesBody(body)
    ensures ResponsesStream(es) == ResponsesBody(body) <==>
            deltas == [] || Gather(deltas, EventText) == Gather(body.output, ItemText)
  {
    hide Gather, LastOr, Filter;
    GatherIgnores(es, Speaks, EventText);
    GatherIgnores(es, Speaks, EventFinish);
    LastIgnores(es, Speaks, EventUsage, NO_USAGE);
    LastIgnores(es, Speaks, EventModel, None);
    GatherAppend(deltas, [Terminal(body)], EventText);
    GatherAppend(deltas, [Terminal(body)], EventFinish);
    GatherOne(Terminal(body), EventText);
    GatherOne(Terminal(body), EventFinish);
    GatherNothing(deltas, EventFinish);
    LastAppend(deltas, [Terminal(body)], EventUsage, NO_USAGE);
    LastAppend(deltas, [Terminal(body)], EventModel, None);
    LastUnset(deltas, EventUsage, NO_USAGE);
    LastUnset(deltas, EventModel, None);
    LastOne(Terminal(body), EventUsage, NO_USAGE);
    LastOne(Terminal(body), EventModel, None);
    if deltas == [] {
      NothingYet();
    } else {
      assert deltas[0] in deltas;
    }
  }

  // An empty delta before the full text is enough to lose the text.
  lemma EmptyDeltaLosesTheText()
    ensures var body := Response([MessageItem([TextBlock("hi")])], None, None, None);
            ResponsesStream([OutputTextDelta(None), Terminal(body)]).text == "" && ResponsesBody(body).text == "hi"
  {
    var body := Response([MessageItem([TextBlock("hi")])], None, None, None);
    var es := [OutputTextDelta(None), Terminal(body)];
    assert es[1..][1..] == [] && es[1..] == [Terminal(body)];
    assert Filter(es[1..], Speaks) == [Terminal(body)];
    assert Filter(es, Speaks) == [OutputTextDelta(None)] + [Terminal(body)];
    ResponsesStreamEqualsBodyIff(es, body, [OutputTextDelta(None)]);
    assert es[..1] == [OutputTextDelta(None)];
    assert es[..1][..0] == [];
    GatherOne(body.output[0], ItemText);
    GatherOne(TextBlock("hi"), BlockText);
  }

  // A stream cut between events yields a prefix of the text, also when the text came whole at the end.
  lemma CutText(es: seq<Event>, k: nat)
    requires k <= |es|
    ensures StreamText(es[..k]) <= StreamText(es)
  {
    hide Filter, Gather;
    GatherPrefix(es, k, EventText);
    assert es == es[..k] + es[k..];
    FilterAppend(es[..k], es[k..], Speaks);
    if Filter(es[..k], Speaks) == [] {
      assert forall e :: e in es[..k] ==> e !in Filter(es[..k], Speaks);
      GatherNothing(es[..k], EventText);
    }
  }
}
