// One intercepted exchange becomes one event; counts a stream leaves missing are estimated and flagged.
module BuildEvent {
  import opened Prelude
  import opened Streams
  import opened Adapters
  import Anthropic
  import ChatCompletions
  import Responses
  import Gemini
  import Sse

  datatype Request = Request(messages: seq<string>, model: Option<string>)

  datatype Reply =
    | AnthropicSse(anthropic: seq<Anthropic.AnthropicEvent>)
    | AnthropicJson(anthropicBody: Anthropic.AnthropicBody)
    | ChatSse(chunks: seq<ChatCompletions.Chunk>)
    | ChatJson(chatBody: ChatCompletions.ChatBody)
    | ResponsesSse(responses: seq<Responses.Event>)
    | ResponsesJson(responsesBody: Responses.Response)
    | GeminiSse(gemini: seq<Gemini.Response>)
    | GeminiJson(geminiBody: Gemini.Response)
  {
    predicate Streamed() { AnthropicSse? || ChatSse? || ResponsesSse? || GeminiSse? }

    // A chat stream asked for without usage.
    predicate Unmetered() { ChatSse? && !ChatCompletions.HadUsage(chunks) }

    // What the provider reported, before anything is estimated.
    function Reported(): Parsed {
      match this
      case AnthropicSse(es) => Anthropic.AnthropicStream(es)
      case AnthropicJson(b) => Anthropic.ParseAnthropicBody(b)
      case ChatSse(es) => ChatCompletions.ChatStream(es)
      case ChatJson(b) => ChatCompletions.ParseChatBody(b)
      case ResponsesSse(es) => Responses.ResponsesStream(es)
      case ResponsesJson(b) => Responses.ResponsesBody(b)
      case GeminiSse(es) => Gemini.GeminiStream(es)
      case GeminiJson(b) => Gemini.GeminiBody(b)
    }
  }

  datatype CanonicalEvent = CanonicalEvent(
    streamed: bool, messages: seq<string>, output: seq<string>, usage: Usage, finish: seq<string>,
    requestModel: Option<string>, responseModel: Option<string>, estimated: bool)

  // About four characters to a token, at least one for any text.
  function EstimateTokens(text: string): (n: int)
    ensures text == "" <==> n == 0
    ensures n >= 0 && text != "" ==> |text| - 2 <= 4 * n && (4 * n <= |text| + 2 || n == 1)
  {
    if text == "" then 0
    else
      var n := RoundHalfEven(|text| as real / 4.0);
      if n > 1 then n else 1
  }

  predicate NotEmpty(s: string) { s != "" }

  function InputText(messages: seq<string>): string { Join(Filter(messages, NotEmpty), "\n") }

  // `a or b` over optional names: an empty name gives way too.
  function Otherwise(a: Option<string>, b: Option<string>): Option<string> {
    if a.Some? && a.value != "" then a else b
  }

  // When the code owns up to an estimate.
  predicate Incomplete(request: Request, reply: Reply) {
    var p := reply.Reported();
    reply.Streamed() &&
    (|| reply.Unmetered()
     || (p.text != "" && p.usage.output == 0)
     || (p.usage.input == 0 && p.usage.cacheRead == 0 && request.messages != []))
  }

  // The event in one formula: reported counts stand unless a stream left them at zero.
  function Recorded(request: Request, reply: Reply): CanonicalEvent {
    var p := reply.Reported();
    var u := p.usage;
    var input :=
      if reply.Streamed() && u.input == 0 && u.cacheRead == 0 then EstimateTokens(InputText(request.messages))
      else u.input;
    var output := if reply.Streamed() && u.output == 0 then EstimateTokens(p.text) else u.output;
    var model := Otherwise(request.model, p.model);
    CanonicalEvent(
      reply.Streamed(), request.messages, if p.text != "" then [p.text] else [],
      u.(input := input, output := output), p.finish, model, Otherwise(p.model, model), Incomplete(request, reply))
  }

  method Build(request: Request, reply: Reply) returns (ev: CanonicalEvent)
    ensures ev == Recorded(request, reply)
  {
    var estimated := false;
    var p: Parsed;
    var usage: Usage;
    match reply {
      case AnthropicSse(es) => p := Anthropic.ParseAnthropicStream(es);
      case AnthropicJson(body) => p := Anthropic.ParseAnthropicBody(body);
      case ChatSse(es) =>
        var hadUsage;
        p, hadUsage := ChatCompletions.ParseChatStream(es);
        if !hadUsage {
          UnmeteredIsZero(es);
          var input, output := EstimateTokens(InputText(request.messages)), EstimateTokens(p.text);
          p := p.(usage := p.usage.(input := input, output := output));
          estimated := true;
        }
      case ChatJson(body) => p := ChatCompletions.ParseChatBody(body);
      case ResponsesSse(es) => p := Responses.ParseResponsesStream(es);
      case ResponsesJson(body) => p := Responses.ParseResponsesBody(body);
      case GeminiSse(es) => p := Gemini.ParseGeminiStream(es);
      case GeminiJson(body) => p := Gemini.ParseGeminiBody(body);
    }
    var out := p.text;
    usage := p.usage;
    NoMessages();
    if reply.Streamed() {
      if out != "" && usage.output == 0 {
        usage := usage.(output := EstimateTokens(out));
        estimated := true;
      }
      if usage.input == 0 && usage.cacheRead == 0 && request.messages != [] {
        usage := usage.(input := EstimateTokens(InputText(request.messages)));
        estimated := true;
      }
    }
    var requestModel := Otherwise(request.model, p.model);
    var output := if out != "" then [out] else [];
    ev := CanonicalEvent(reply.Streamed(), request.messages, output, usage, p.finish, requestModel,
                         Otherwise(p.model, requestModel), estimated);
  }

  lemma NoMessages()
    ensures InputText([]) == ""
  {
  }

  lemma UnmeteredIsZero(es: seq<ChatCompletions.Chunk>)
    requires !ChatCompletions.HadUsage(es)
    ensures ChatCompletions.ChatStream(es).usage == NO_USAGE
  {
    LastUnset(es, ChatCompletions.ChunkUsage, NO_USAGE);
  }

  // ----- what is estimated from -----

  function Characters(messages: seq<string>): nat {
    if messages == [] then 0 else |messages[0]| + Characters(messages[1..])
  }

  function Spoken(messages: seq<string>): nat {
    if messages == [] then 0 else (if messages[0] == "" then 0 else 1) + Spoken(messages[1..])
  }

  lemma {:induction false} InputLength(messages: seq<string>)
    ensures Filter(messages, NotEmpty) == [] <==> Spoken(messages) == 0
    ensures |InputText(messages)| == Characters(messages) + if Spoken(messages) == 0 then 0 else Spoken(messages) - 1
  {
    if messages != [] {
      InputLength(messages[1..]);
      var rest := Filter(messages[1..], NotEmpty);
      if messages[0] != "" {
        assert Filter(messages, NotEmpty) == [messages[0]] + rest && ([messages[0]] + rest)[1..] == rest;
      } else {
        assert Filter(messages, NotEmpty) == rest;
      }
    }
  }

  // A stream without any prompt count is recorded with a quarter of the characters of its messages, one more for
  // each break between two that say something, to the nearest token and at least one.
  lemma InputEstimate(request: Request, reply: Reply)
    requires reply.Streamed() && reply.Reported().usage.input == 0 && reply.Reported().usage.cacheRead == 0
    ensures var breaks := if Spoken(request.messages) == 0 then 0 else Spoken(request.messages) - 1;
            var n := Characters(request.messages) + breaks;
            var tokens := Recorded(request, reply).usage.input;
            && (tokens == 0 <==> n == 0)
            && (n > 0 ==> tokens >= 1 && -2 <= 4 * tokens - n && (4 * tokens - n <= 2 || tokens == 1))
  {
    hide Reply.Reported, InputText;
    InputLength(request.messages);
  }

  // A whole body's counts, and any count a stream did send, are recorded as they are.
  lemma ReportedCountsStand(request: Request, reply: Reply)
    ensures var u, ev := reply.Reported().usage, Recorded(request, reply);
            && (!reply.Streamed() ==> ev.usage == u)
            && (u.input != 0 || u.cacheRead != 0 ==> ev.usage.input == u.input)
            && (u.output != 0 ==> ev.usage.output == u.output)
            && ev.usage.cacheRead == u.cacheRead && ev.usage.cacheCreation == u.cacheCreation
  {
    hide Reply.Reported;
  }

  // An event is flagged exactly when it is streamed and either a chat stream sent no usage at all, or there is text
  // without an output count, or there are messages without any prompt count.
  lemma FlaggedIff(request: Request, reply: Reply)
    ensures var p := reply.Reported();
            Recorded(request, reply).estimated <==>
            || (reply.ChatSse? && forall c :: c in reply.chunks ==> c.usage == None)
            || (reply.Streamed() && p.text != "" && p.usage.output == 0)
            || (reply.Streamed() && request.messages != [] && p.usage.input == 0 && p.usage.cacheRead == 0)
    ensures reply.Streamed() <==>
            !(reply.AnthropicJson? || reply.ChatJson? || reply.ResponsesJson? || reply.GeminiJson?)
  {
    hide Reply.Reported;
  }

  // The text is recorded once, if there is any. Each model name is the requested or the reported one, the other way
  // round for the two, and the other one when the first is missing or empty.
  lemma WhatIsRecorded(request: Request, reply: Reply)
    ensures var p, ev := reply.Reported(), Recorded(request, reply);
            && ev.output == (if p.text == "" then [] else [p.text])
            && ev.messages == request.messages && ev.finish == p.finish && ev.streamed == reply.Streamed()
            && ev.requestModel == (if request.model in {None, Some("")} then p.model else request.model)
            && ev.responseModel == (if p.model in {None, Some("")} then ev.requestModel else p.model)
  {
    hide Reply.Reported;
  }

  // ----- honesty of the counts -----

  // A streamed event with text never shows zero output tokens, and unless it is flagged every count on it is
  // the provider's own.
  lemma StreamedCountsAreHonest(request: Request, reply: Reply)
    requires reply.Streamed()
    ensures var ev := Recorded(request, reply);
            && (ev.output != [] ==> ev.usage.output != 0)
            && (ev.usage != reply.Reported().usage ==> ev.estimated)
  {
    hide Reply.Reported;
    NoMessages();
  }

  // No event of the stream carried an output count.
  predicate LacksOutputCount(reply: Reply) {
    match reply
    case AnthropicSse(es) => forall e :: e in es ==> Anthropic.AnthropicOutput(e) == None
    case ChatSse(es) => forall c :: c in es ==> c.usage == None || c.usage.value.completion == None
    case ResponsesSse(es) =>
      forall e :: e in es && e.Terminal? ==> e.response.usage == None || e.response.usage.value.output == None
    case GeminiSse(es) => forall c :: c in es ==> c.usage == None || c.usage.value.candidates == None
    case _ => false
  }

  lemma {:induction false} NoCountMeansZero<E>(es: seq<E>, field: E -> Option<Usage>)
    requires forall e :: e in es && field(e).Some? ==> field(e).value.output == 0
    ensures LastOr(es, field, NO_USAGE).output == 0
  {
    if es != [] { NoCountMeansZero(es[..|es| - 1], field); }
  }

  // Whenever a stream yields text but no output count, the count is an estimate of at least one and is flagged.
  lemma MissingCountIsFlagged(request: Request, reply: Reply)
    requires LacksOutputCount(reply) && reply.Reported().text != ""
    ensures Recorded(request, reply).estimated
    ensures Recorded(request, reply).usage.output == EstimateTokens(reply.Reported().text) >= 1
  {
    hide Gather, LastOr;
    match reply
    case AnthropicSse(es) => LastUnset(es, Anthropic.AnthropicOutput, 0);
    case ChatSse(es) => NoCountMeansZero(es, ChatCompletions.ChunkUsage);
    case ResponsesSse(es) => NoCountMeansZero(es, Responses.EventUsage);
    case GeminiSse(es) => NoCountMeansZero(es, Gemini.ChunkUsage);
  }

  // Text is recorded with no output tokens and no flag for exactly these replies: whole bodies, not streams, that
  // carry text and report none.
  lemma SilentZeroIff(request: Request, reply: Reply)
    ensures var ev := Recorded(request, reply);
            ev.output != [] && ev.usage.output == 0 && !ev.estimated <==>
            !reply.Streamed() && reply.Reported().text != "" && reply.Reported().usage.output == 0
  {
    hide Reply.Reported;
  }

  // Such as a chat body without usage.
  lemma BodyWithoutUsageIsSilent(request: Request, text: string, model: Option<string>)
    requires text != ""
    ensures var body := ChatCompletions.ChatBody(
              model, [ChatCompletions.Choice(ChatCompletions.PlainText(text), None)], None);
            var ev := Recorded(request, ChatJson(body));
            ev.output == [text] && ev.usage == NO_USAGE && !ev.estimated
  {
  }

  // A stream that reports what its body reports is recorded like it exactly when it is metered, text comes with
  // an output count, and messages come with an input count or a cached one.
  lemma StreamRecordedLikeBody(request: Request, stream: Reply, body: Reply)
    requires stream.Streamed() && !body.Streamed() && stream.Reported() == body.Reported()
    ensures var p := stream.Reported();
            Recorded(request, stream) == Recorded(request, body).(streamed := true) <==>
            && !stream.Unmetered()
            && (p.text == "" || p.usage.output != 0)
            && (request.messages == [] || p.usage.input != 0 || p.usage.cacheRead != 0)
  {
    hide Reply.Reported;
    NoMessages();
  }

  // ----- truncated streams -----

  // The same stream, cut between events.
  predicate CutOf(cut: Reply, whole: Reply) {
    match whole
    case AnthropicSse(es) => cut.AnthropicSse? && cut.anthropic <= es
    case ChatSse(es) => cut.ChatSse? && cut.chunks <= es
    case ResponsesSse(es) => cut.ResponsesSse? && cut.responses <= es
    case GeminiSse(es) => cut.GeminiSse? && cut.gemini <= es
    case _ => false
  }

  lemma CutStreamTextIsPrefix(cut: Reply, whole: Reply)
    requires CutOf(cut, whole)
    ensures cut.Reported().text <= whole.Reported().text
  {
    hide Gather, LastOr, Filter;
    match whole
    case AnthropicSse(es) =>
      assert es[..|cut.anthropic|] == cut.anthropic;
      GatherPrefix(es, |cut.anthropic|, Anthropic.AnthropicText);
    case ChatSse(es) =>
      assert es[..|cut.chunks|] == cut.chunks;
      GatherPrefix(es, |cut.chunks|, ChatCompletions.ChunkChoices);
      var ds, few := ChatCompletions.Deltas(es), ChatCompletions.Deltas(cut.chunks);
      assert ds[..|few|] == few;
      GatherPrefix(ds, |few|, ChatCompletions.DeltaText);
    case ResponsesSse(es) =>
      assert es[..|cut.responses|] == cut.responses;
      Responses.CutText(es, |cut.responses|);
    case GeminiSse(es) =>
      assert es[..|cut.gemini|] == cut.gemini;
      GatherPrefix(es, |cut.gemini|, Gemini.ChunkText);
  }

  // A provider's stream together with the way its payloads decode.
  datatype Wire =
    | AnthropicWire(anthropic: string -> Option<Anthropic.AnthropicEvent>)
    | ChatWire(chat: string -> Option<ChatCompletions.Chunk>)
    | ResponsesWire(responses: string -> Option<Responses.Event>)
    | GeminiWire(gemini: string -> Option<Gemini.Response>)

  function Received(wire: Wire, raw: string): Reply {
    var payloads := Sse.Payloads(raw);
    match wire
    case AnthropicWire(decode) => AnthropicSse(Sse.Decoded(payloads, decode))
    case ChatWire(decode) => ChatSse(Sse.Decoded(payloads, decode))
    case ResponsesWire(decode) => ResponsesSse(Sse.Decoded(payloads, decode))
    case GeminiWire(decode) => GeminiSse(Sse.Decoded(payloads, decode))
  }

  // What a server sends is what is received, for each provider, when its events are written as they are read.
  lemma SentIsReceived(anthropic: seq<Anthropic.AnthropicEvent>, write: Anthropic.AnthropicEvent -> string,
                       read: string -> Option<Anthropic.AnthropicEvent>,
                       chunks: seq<ChatCompletions.Chunk>, writeChunk: ChatCompletions.Chunk -> string,
                       readChunk: string -> Option<ChatCompletions.Chunk>,
                       responses: seq<Responses.Event>, writeEvent: Responses.Event -> string,
                       readEvent: string -> Option<Responses.Event>,
                       gemini: seq<Gemini.Response>, writeResponse: Gemini.Response -> string,
                       readResponse: string -> Option<Gemini.Response>)
    requires forall e :: e in anthropic ==> Sse.Clean(write(e)) && read(write(e)) == Some(e)
    requires forall e :: e in chunks ==> Sse.Clean(writeChunk(e)) && readChunk(writeChunk(e)) == Some(e)
    requires forall e :: e in responses ==> Sse.Clean(writeEvent(e)) && readEvent(writeEvent(e)) == Some(e)
    requires forall e :: e in gemini ==> Sse.Clean(writeResponse(e)) && readResponse(writeResponse(e)) == Some(e)
    ensures Received(AnthropicWire(read), Sse.Send(Sse.Encoded(anthropic, write))) == AnthropicSse(anthropic)
    ensures Received(ChatWire(readChunk), Sse.Send(Sse.Encoded(chunks, writeChunk))) == ChatSse(chunks)
    ensures Received(ResponsesWire(readEvent), Sse.Send(Sse.Encoded(responses, writeEvent))) == ResponsesSse(responses)
    ensures Received(GeminiWire(readResponse), Sse.Send(Sse.Encoded(gemini, writeResponse))) == GeminiSse(gemini)
  {
    hide Sse.Clean, Sse.Payloads, Sse.Decoded, Sse.Send;
    Sse.SentEventsArrive(anthropic, write, read);
    Sse.SentEventsArrive(chunks, writeChunk, readChunk);
    Sse.SentEventsArrive(responses, writeEvent, readEvent);
    Sse.SentEventsArrive(gemini, writeResponse, readResponse);
  }

  ghost predicate WholeObjects(wire: Wire, raw: string) {
    match wire
    case AnthropicWire(decode) => Sse.Whole(raw, decode)
    case ChatWire(decode) => Sse.Whole(raw, decode)
    case ResponsesWire(decode) => Sse.Whole(raw, decode)
    case GeminiWire(decode) => Sse.Whole(raw, decode)
  }

  lemma CutReceivesLess(wire: Wire, raw: string, k: nat)
    requires k <= |raw| && WholeObjects(wire, raw)
    ensures CutOf(Received(wire, raw[..k]), Received(wire, raw))
  {
    hide Sse.Decoded, Sse.Payloads, Sse.Whole;
    match wire
    case AnthropicWire(decode) => Sse.TruncationKeepsAPrefix(raw, k, decode);
    case ChatWire(decode) => Sse.TruncationKeepsAPrefix(raw, k, decode);
    case ResponsesWire(decode) => Sse.TruncationKeepsAPrefix(raw, k, decode);
    case GeminiWire(decode) => Sse.TruncationKeepsAPrefix(raw, k, decode);
  }

  // From raw characters, for every provider: a stream cut at any character records a prefix of the text, and if
  // the cut came before any output count, the record says it is an estimate of at least one.
  lemma TruncatedStreamIsHonest(request: Request, wire: Wire, raw: string, k: nat)
    requires k <= |raw| && WholeObjects(wire, raw)
    ensures var whole, cut := Received(wire, raw), Received(wire, raw[..k]);
            && cut.Reported().text <= whole.Reported().text
            && (LacksOutputCount(cut) && cut.Reported().text != "" ==>
                  Recorded(request, cut).estimated && Recorded(request, cut).usage.output >= 1)
  {
    hide Received, WholeObjects, CutOf, LacksOutputCount, Recorded, Reply.Reported;
    var cut := Received(wire, raw[..k]);
    CutReceivesLess(wire, raw, k);
    CutStreamTextIsPrefix(cut, Received(wire, raw));
    if LacksOutputCount(cut) && cut.Reported().text != "" { MissingCountIsFlagged(request, cut); }
  }
}
