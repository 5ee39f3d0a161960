// Marking the end of the stable system prompt for the provider's cache.
module Breakpoints {
  import opened Prelude
  import Sse

  const MAX_BREAKPOINTS: nat := 4
  const LARGE: nat := 2000

  // A content block; text is None when it has none, marked tells a non-empty cache_control. OtherBlock stands
  // for what is not an object.
  datatype Block = Block(text: Option<string>, marked: bool) | OtherBlock

  datatype System = NoSystem | Text(text: string) | Blocks(blocks: seq<Block>)

  // Messages whose content is not a list have no blocks. The tools may carry markers of their own.
  datatype Body = Body(system: System, messages: seq<seq<Block>>, toolMarks: nat)

  function Marks(blocks: seq<Block>): nat {
    if blocks == [] then 0
    else Marks(blocks[..|blocks| - 1])
         + if blocks[|blocks| - 1].Block? && blocks[|blocks| - 1].marked then 1 else 0
  }

  function MessageMarks(messages: seq<seq<Block>>): nat {
    if messages == [] then 0 else MessageMarks(messages[..|messages| - 1]) + Marks(messages[|messages| - 1])
  }

  function SystemMarks(s: System): nat { if s.Blocks? then Marks(s.blocks) else 0 }

  // _count_cache_control: the tools are not looked at.
  function Counted(body: Body): nat { SystemMarks(body.system) + MessageMarks(body.messages) }

  function BlocksText(blocks: seq<Block>): string {
    if blocks == [] then ""
    else
      var b := blocks[|blocks| - 1];
      BlocksText(blocks[..|blocks| - 1]) + if b.Block? && b.text.Some? then b.text.value else ""
  }

  // The system prompt the model reads.
  function SystemText(s: System): string {
    match s case NoSystem => "" case Text(t) => t case Blocks(bs) => BlocksText(bs)
  }

  // The last block with text, or -1.
  function LastText(blocks: seq<Block>): (i: int)
    ensures -1 <= i < |blocks|
    ensures i >= 0 ==> blocks[i].Block? && blocks[i].text.Some?
    ensures forall j :: i < j < |blocks| ==> !(blocks[j].Block? && blocks[j].text.Some?)
  {
    if blocks == [] then -1
    else
      var n := |blocks| - 1;
      if blocks[n].Block? && blocks[n].text.Some? then n else LastText(blocks[..n])
  }

  function Mark(body: Body, anthropic: bool): Option<Body> {
    if !anthropic || |SystemText(body.system)| < LARGE || Counted(body) >= MAX_BREAKPOINTS then None
    else
      match body.system
      case NoSystem => None
      case Text(t) => if Sse.Strip(t) == "" then None else Some(body.(system := Blocks([Block(Some(t), true)])))
      case Blocks(bs) =>
        if MarkedBlocks(bs) == None then None else Some(body.(system := Blocks(MarkedBlocks(bs).value)))
  }

  function MarkedBlocks(bs: seq<Block>): Option<seq<Block>> {
    if Marks(bs) > 0 || LastText(bs) == -1 then None
    else Some(bs[LastText(bs) := bs[LastText(bs)].(marked := true)])
  }

  method CacheBreakpoints(body: Body, anthropic: bool) returns (r: Option<Body>)
    ensures r == Mark(body, anthropic)
  {
    hide Sse.Strip, BlocksText, MessageMarks;
    if !anthropic || body.system.NoSystem? || |SystemText(body.system)| < LARGE { return None; }
    if Counted(body) >= MAX_BREAKPOINTS { return None; }
    if body.system.Text? {
      var t := body.system.text;
      if Sse.Strip(t) == "" { return None; }
      return Some(body.(system := Blocks([Block(Some(t), true)])));
    }
    var marked := MarkBlocks(body.system.blocks);
    return if marked == None then None else Some(body.(system := Blocks(marked.value)));
  }

  // The loop over the blocks of a system prompt: the last text block is marked if no block is.
  method MarkBlocks(bs: seq<Block>) returns (r: Option<seq<Block>>)
    ensures r == MarkedBlocks(bs)
  {
    hide Marks, LastText;
    var lastText := -1;
    NoBlocks();
    assert bs[..0] == [];
    for i := 0 to |bs|
      invariant -1 <= lastText < i && lastText == LastText(bs[..i]) && Marks(bs[..i]) == 0
    {
      OneMore(bs, i);
      if bs[i].Block? && bs[i].text.Some? { lastText := i; }
      if bs[i].Block? && bs[i].marked {
        MarksGrow(bs, i + 1);
        return None;
      }
    }
    assert bs[..|bs|] == bs;
    return if lastText == -1 then None else Some(bs[lastText := bs[lastText].(marked := true)]);
  }

  lemma NoBlocks()
    ensures LastText([]) == -1 && Marks([]) == 0
  {
  }

  lemma OneMore(bs: seq<Block>, i: nat)
    requires i < |bs|
    ensures LastText(bs[..i + 1]) == if bs[i].Block? && bs[i].text.Some? then i else LastText(bs[..i])
    ensures Marks(bs[..i + 1]) == Marks(bs[..i]) + if bs[i].Block? && bs[i].marked then 1 else 0
  {
    assert bs[..i + 1][..i] == bs[..i];
  }

  lemma {:induction false} MarksGrow(blocks: seq<Block>, k: nat)
    requires k <= |blocks|
    ensures Marks(blocks[..k]) <= Marks(blocks)
  {
    if k == |blocks| {
      assert blocks[..k] == blocks;
    } else {
      assert blocks[..|blocks| - 1][..k] == blocks[..k];
      MarksGrow(blocks[..|blocks| - 1], k);
    }
  }

  // Marking one unmarked block adds one marker and no text.
  lemma {:induction false} MarkOne(blocks: seq<Block>, i: nat)
    requires i < |blocks| && blocks[i].Block? && !blocks[i].marked
    ensures var after := blocks[i := blocks[i].(marked := true)];
            Marks(after) == Marks(blocks) + 1 && BlocksText(after) == BlocksText(blocks)
  {
    var n := |blocks| - 1;
    var after := blocks[i := blocks[i].(marked := true)];
    if i < n {
      MarkOne(blocks[..n], i);
      assert after[..n] == blocks[..n][i := blocks[i].(marked := true)];
    } else {
      assert after[..n] == blocks[..n];
    }
  }

  lemma {:induction false} UnmarkedAt(blocks: seq<Block>, i: nat)
    requires i < |blocks| && Marks(blocks) == 0 && blocks[i].Block?
    ensures !blocks[i].marked
  {
    if i < |blocks| - 1 { UnmarkedAt(blocks[..|blocks| - 1], i); }
  }

  lemma {:induction false} NoTextNoWords(blocks: seq<Block>)
    requires LastText(blocks) == -1
    ensures BlocksText(blocks) == ""
  {
    if blocks != [] {
      var n := |blocks| - 1;
      assert !(blocks[n].Block? && blocks[n].text.Some?);
      NoTextNoWords(blocks[..n]);
    }
  }

  lemma MarkedText(t: string)
    ensures var one := [Block(Some(t), true)]; Marks(one) == 1 && BlocksText(one) == t
  {
    var one := [Block(Some(t), true)];
    assert one[..0] == [];
    assert BlocksText([]) + t == t;
  }

  // The strategy adds exactly one counted marker, never past four, and not a word the model reads.
  lemma AddsOneMarkerAndNoWords(body: Body, anthropic: bool)
    requires Mark(body, anthropic).Some?
    ensures var after := Mark(body, anthropic).value;
            && Counted(after) == Counted(body) + 1 <= 4
            && SystemText(after.system) == SystemText(body.system)
            && after.messages == body.messages && after.toolMarks == body.toolMarks
  {
    if body.system.Blocks? {
      var bs := body.system.blocks;
      UnmarkedAt(bs, LastText(bs));
      MarkOne(bs, LastText(bs));
    } else {
      MarkedText(body.system.text);
    }
  }

  // It applies exactly to a large, unmarked system prompt with a marker to spare.
  lemma AppliesIff(body: Body, anthropic: bool)
    ensures Mark(body, anthropic).Some? <==>
            && anthropic && |SystemText(body.system)| >= 2000
            && SystemMarks(body.system) == 0 && MessageMarks(body.messages) < 4
            && (body.system.Text? ==> Sse.Strip(body.system.text) != "")
  {
    if body.system.Blocks? && LastText(body.system.blocks) == -1 { NoTextNoWords(body.system.blocks); }
  }

  // The marker stands on the last block with text and on no other, and nothing else about the blocks changes.
  lemma MarkIsOnTheLastText(body: Body)
    requires Mark(body, true).Some? && body.system.Blocks?
    ensures var bs, after := body.system.blocks, Mark(body, true).value.system;
            && after.Blocks? && |after.blocks| == |bs|
            && forall i :: 0 <= i < |bs| ==>
                 if bs[i].Block? && bs[i].text.Some?
                    && (forall j :: i < j < |bs| && bs[j].Block? ==> bs[j].text == None)
                 then after.blocks[i] == Block(bs[i].text, true)
                 else after.blocks[i] == bs[i]
  {
    hide Marks, BlocksText, MessageMarks;
  }

  // A prompt given as text becomes one marked block of that text.
  lemma TextBecomesABlock(body: Body)
    requires Mark(body, true).Some? && body.system.Text?
    ensures Mark(body, true).value.system == Blocks([Block(Some(body.system.text), true)])
  {
  }

  function MarkedAt(blocks: seq<Block>): set<nat> {
    set i: nat | i < |blocks| && blocks[i].Block? && blocks[i].marked
  }

  lemma {:induction false} MarksAreBlocks(blocks: seq<Block>)
    ensures Marks(blocks) == |MarkedAt(blocks)|
  {
    if blocks != [] {
      var n := |blocks| - 1;
      MarksAreBlocks(blocks[..n]);
      assert MarkedAt(blocks) == MarkedAt(blocks[..n]) + if blocks[n].Block? && blocks[n].marked then {n} else {};
    }
  }

  function MarkedInMessages(messages: seq<seq<Block>>): set<(nat, nat)> {
    set m: nat, i: nat | m < |messages| && i < |messages[m]| && messages[m][i].Block? && messages[m][i].marked :: (m, i)
  }

  function Paired(s: set<nat>, n: nat): set<(nat, nat)> { set i | i in s :: (n, i) }

  lemma {:induction false} MessageMarksAreBlocks(messages: seq<seq<Block>>)
    ensures MessageMarks(messages) == |MarkedInMessages(messages)|
  {
    if messages != [] {
      var n: nat := |messages| - 1;
      MessageMarksAreBlocks(messages[..n]);
      MarksAreBlocks(messages[n]);
      SameNumber(MarkedAt(messages[n]), n);
      assert MarkedInMessages(messages) == MarkedInMessages(messages[..n]) + Paired(MarkedAt(messages[n]), n);
    }
  }

  lemma {:induction false} SameNumber(s: set<nat>, n: nat)
    ensures |Paired(s, n)| == |s|
    decreases s
  {
    if s == {} {
      assert Paired(s, n) == {};
    } else {
      var x :| x in s;
      SameNumber(s - {x}, n);
      assert Paired(s, n) == Paired(s - {x}, n) + {(n, x)};
    }
  }

  // What is counted is the marked blocks of the system prompt and of the messages.
  lemma CountedAreBlocks(body: Body)
    ensures Counted(body)
         == |MarkedInMessages(body.messages)| + if body.system.Blocks? then |MarkedAt(body.system.blocks)| else 0
  {
    MessageMarksAreBlocks(body.messages);
    if body.system.Blocks? { MarksAreBlocks(body.system.blocks); }
  }

  // The text of a list of blocks is their texts one after the other.
  lemma {:induction false} BlocksTextJoins(a: seq<Block>, b: seq<Block>, t: string, marked: bool)
    ensures BlocksText(a + b) == BlocksText(a) + BlocksText(b)
    ensures BlocksText([Block(Some(t), marked)]) == t
    ensures BlocksText([Block(None, marked)]) == BlocksText([OtherBlock]) == ""
  {
    if b == [] {
      assert a + b == a;
    } else {
      var n := |b| - 1;
      BlocksTextJoins(a, b[..n], t, marked);
      assert (a + b)[..|a + b| - 1] == a + b[..n];
    }
    assert [Block(Some(t), marked)][..0] == [] && [Block(None, marked)][..0] == [] && [OtherBlock][..0] == [];
  }

  // Applying it again does nothing.
  lemma MarksOnce(body: Body, anthropic: bool)
    requires Mark(body, anthropic).Some?
    ensures Mark(Mark(body, anthropic).value, anthropic) == None
  {
    AddsOneMarkerAndNoWords(body, anthropic);
    AppliesIff(Mark(body, anthropic).value, anthropic);
    AppliesIff(body, anthropic);
  }

  // Markers on tools are not counted, so with them the request keeps to four markers in all exactly when it
  // had at most three.
  lemma TotalWithinFourIff(body: Body, anthropic: bool)
    requires Mark(body, anthropic).Some?
    ensures var after := Mark(body, anthropic).value;
            Counted(after) + after.toolMarks <= 4 <==> Counted(body) + body.toolMarks < 4
  {
    AddsOneMarkerAndNoWords(body, anthropic);
  }
}
