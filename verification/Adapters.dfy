// What the provider adapters share: they turn decoded events and bodies into text, usage, finish reasons and
// model. A field that may be missing is an Option; where the code writes `or 0`, None also stands for null.
module Adapters {
  import opened Prelude

  datatype Usage = Usage(input: int, output: int, cacheRead: int, cacheCreation: int)

  const NO_USAGE := Usage(0, 0, 0, 0)

  datatype Parsed = Parsed(text: string, usage: Usage, finish: seq<string>, model: Option<string>)

  function Or<T>(field: Option<T>, default: T): T {
    match field case Some(v) => v case None => default
  }

  // A reason counts only when it is present and not empty.
  function Reasons(field: Option<string>): seq<string> {
    match field case Some(r) => if r != "" then [r] else [] case None => []
  }

  // dict.get("model", model): a present model overwrites the one seen so far.
  function Given(model: Option<string>): Option<Option<string>> {
    if model.Some? then Some(model) else None
  }

  // Prompt counts include the cached tokens; what is left is billed at the full rate.
  function Uncached(prompt: Option<int>, cached: Option<int>): int {
    var rest := Or(prompt, 0) - Or(cached, 0);
    if rest > 0 then rest else 0
  }

  // Nothing is counted twice and nothing is lost: the two parts are the prompt, unless more was cached than sent.
  lemma PromptIsSplit(prompt: int, cached: int)
    ensures Uncached(Some(prompt), Some(cached)) >= 0
    ensures cached <= prompt <==> Uncached(Some(prompt), Some(cached)) + cached == prompt
    ensures prompt >= 0 ==> Uncached(Some(prompt), None) == prompt
  {
  }

  // A content block, part or item: only text carries text.
  datatype Block = TextBlock(text: string) | OtherBlock

  function BlockText(b: Block): string { if b.TextBlock? then b.text else "" }
}
