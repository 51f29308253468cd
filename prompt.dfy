/** The prompt-building half of stream_annotations_to_markdown: the
    short-circuit for an empty list, and the newline-joined prompt of three
    fixed preamble lines followed by three lines per annotation. The model
    call that consumes the prompt is an external service and is represented
    only by the request it would receive. */
module Prompt {
  import opened Optional
  import opened PyStrings
  import opened Extraction

  /** The model name used when the caller gives none. */
  const DefaultModel := "gemini-1.5-flash-latest"

  /** The one chunk yielded for an empty annotation list. */
  const NoAnnotationsMessage := "未找到任何注释进行处理。"

  /** The three fixed instruction lines; the third ends in a newline of its own. */
  const Preamble: seq<string> := [
    "你是一个高效的助手，负责将PDF注释总结为清晰、易读的Markdown格式。",
    "请将以下结构化的注释数据转换为一个Markdown文档。如果一个注释没有内容，请指明。",
    "请按页码对注释进行分组。对于每个注释，请包含其内容和类型（例如高亮、下划线、笔记）。\n"
  ]

  /** What the builder reads of one annotation dictionary: the keys "page",
      "type" and "contents", each of which may be absent. */
  datatype Entry = Entry(page: Option<int>, kind: Option<string>, contents: Option<string>)

  /** The dictionary an extracted record becomes: every key present. */
  function EntryOf(a: Annotation): Entry {
    Entry(Some(a.page), Some(a.kind), Some(a.contents))
  }

  /** The page as shown: its decimal text, or 未知 when absent. */
  function PageText(e: Entry): (r: string)
    ensures e.page.None? ==> r == "未知"
    ensures e.page.Some? && e.page.value >= 1 ==> AllDigits(r) && r != [] && r[0] != '0'
  {
    match e.page
    case None => "未知"
    case Some(n) => IntToStr(n)
  }

  /** The type as shown: the type string (default /Text) with every '/' removed. */
  function TypeLabel(e: Entry): (r: string)
    ensures '/' !in r
  {
    Without(if e.kind.Some? then e.kind.value else TextNote, '/')
  }

  /** The content as shown: stripped of surrounding whitespace (default N/A). */
  function ContentText(e: Entry): (r: string)
    ensures Trimmed(r)
    ensures e.contents.Some? ==> |r| <= |e.contents.value|
  {
    Strip(if e.contents.Some? then e.contents.value else "N/A")
  }

  /** The page line: its marker, then the page as shown, then the suffix. */
  function PageLine(e: Entry): (r: string)
    ensures |r| == |PageText(e)| + 7
    ensures r[..4] == "- 第 " && r[4..|r| - 3] == PageText(e) && r[|r| - 3..] == " 页:"
  {
    "- 第 " + PageText(e) + " 页:"
  }

  /** The type line: its marker, then the type as shown, which has no '/'. */
  function TypeLine(e: Entry): (r: string)
    ensures |r| == |TypeLabel(e)| + 8
    ensures r[..8] == "  - 类型: " && r[8..] == TypeLabel(e) && '/' !in r[8..]
  {
    "  - 类型: " + TypeLabel(e)
  }

  /** The content line: its marker, then the stripped content. */
  function ContentLine(e: Entry): (r: string)
    ensures |r| == |ContentText(e)| + 8
    ensures r[..8] == "  - 内容: " && r[8..] == ContentText(e) && Trimmed(r[8..])
  {
    "  - 内容: " + ContentText(e)
  }

  /** The page line names the entry's page: 未知 when it has none,
      otherwise digits that read back as the page number, after a minus sign
      when the page is negative. */
  lemma PageLineValue(e: Entry)
    ensures e.page.None? ==> PageLine(e)[4..|PageLine(e)| - 3] == "未知"
    ensures e.page.Some? && e.page.value >= 0 ==>
      AllDigits(PageLine(e)[4..|PageLine(e)| - 3])
      && DecimalValue(PageLine(e)[4..|PageLine(e)| - 3]) == e.page.value
    ensures e.page.Some? && e.page.value < 0 ==>
      PageLine(e)[4] == '-'
      && AllDigits(PageLine(e)[5..|PageLine(e)| - 3])
      && DecimalValue(PageLine(e)[5..|PageLine(e)| - 3]) == -e.page.value
  {
    if e.page.Some? {
      IntToStrRoundTrip(e.page.value);
      if e.page.value < 0 {
        assert PageLine(e)[5..|PageLine(e)| - 3] == IntToStr(e.page.value)[1..];
      }
    }
  }

  /** The three lines one entry contributes, in this order. */
  function Block(e: Entry): seq<string> {
    [PageLine(e), TypeLine(e), ContentLine(e)]
  }

  /** The blocks of the elements of xs, one after another in order. */
  function Blocks<T>(xs: seq<T>, block: T -> seq<string>): seq<string>
    decreases |xs|
  {
    if |xs| == 0 then [] else Blocks(xs[..|xs| - 1], block) + block(xs[|xs| - 1])
  }

  /** The prompt lines before joining: the preamble, then each entry's block. */
  function PromptParts(es: seq<Entry>): seq<string> {
    Preamble + Blocks(es, Block)
  }

  /** The prompt: the lines joined with newlines, so the preamble's text,
      then (when there are entries) one newline and the entries' lines. */
  function BuildPrompt(es: seq<Entry>): (r: string)
    ensures |es| == 0 ==> r == Join(Preamble, '\n')
    ensures |es| > 0 ==> r == Join(Preamble, '\n') + "\n" + Join(Blocks(es, Block), '\n')
  {
    if |es| > 0 then
      JoinConcat(Preamble, Blocks(es, Block), '\n');
      Join(PromptParts(es), '\n')
    else
      assert PromptParts(es) == Preamble;
      Join(PromptParts(es), '\n')
  }

  /** What the generator does: yield fixed chunks itself, or hand a prompt to
      the named model and pass its stream on. */
  datatype Stream =
    | Chunks(chunks: seq<string>)
    | ModelCall(model: string, prompt: string)

  /** The loop of the builder: for each element in order, append its block
      of lines to the lines gathered so far. */
  method AppendBlocks<T>(lines: seq<string>, xs: seq<T>, block: T -> seq<string>)
    returns (result: seq<string>)
    ensures result == lines + Blocks(xs, block)
  {
    result := lines;
    var i := 0;
    while i < |xs|
      invariant 0 <= i <= |xs|
      invariant result == lines + Blocks(xs[..i], block)
    {
      var x := xs[i];
      result := result + block(x);
      assert xs[..i + 1] == xs[..i] + [x];
      BlocksAppend(xs[..i], x, block);
      i := i + 1;
    }
    assert xs[..i] == xs;
  }

  /** stream_annotations_to_markdown up to the model call: the empty list
      short-circuits with one fixed chunk and no model call; otherwise the
      preamble and every annotation's block are joined with newlines and
      handed to the named model. */
  method StreamAnnotationsToMarkdown(annotations: seq<Entry>, modelName: string := DefaultModel) returns (r: Stream)
    ensures r.Chunks? <==> |annotations| == 0
    ensures r.Chunks? ==> r.chunks == [NoAnnotationsMessage]
    ensures r.ModelCall? ==> r.model == modelName && r.prompt == BuildPrompt(annotations)
  {
    if |annotations| == 0 {
      return Chunks([NoAnnotationsMessage]);
    }
    var promptParts := AppendBlocks(Preamble, annotations, Block);
    var prompt := Join(promptParts, '\n');
    r := ModelCall(modelName, prompt);
  }

  // ---------------------------------------------------------------------
  // Shape of the prompt

  /** One more element appends its block. */
  lemma BlocksAppend<T>(xs: seq<T>, x: T, block: T -> seq<string>)
    ensures Blocks(xs + [x], block) == Blocks(xs, block) + block(x)
  {
  }

  /** Blocks of three lines each: element i's block occupies positions
      3i to 3i + 2. */
  lemma {:induction false} BlocksShape<T>(xs: seq<T>, block: T -> seq<string>)
    requires forall x :: |block(x)| == 3
    ensures |Blocks(xs, block)| == 3 * |xs|
    ensures forall i :: 0 <= i < |xs| ==> Blocks(xs, block)[3 * i .. 3 * i + 3] == block(xs[i])
  {
    if |xs| > 0 {
      var init := xs[..|xs| - 1];
      BlocksShape(init, block);
      var before := Blocks(init, block);
      var lines := Blocks(xs, block);
      forall i | 0 <= i < |xs|
        ensures lines[3 * i .. 3 * i + 3] == block(xs[i])
      {
        if i < |init| {
          assert xs[i] == init[i];
          assert lines[3 * i .. 3 * i + 3] == before[3 * i .. 3 * i + 3];
        } else {
          assert lines[3 * i .. 3 * i + 3] == block(xs[|xs| - 1]);
        }
      }
    }
  }

  /** Lines of a fixed head followed by blocks of three lines each: element
      i's block occupies positions |head| + 3i to |head| + 3i + 2. */
  lemma HeadedBlocksShape<T>(head: seq<string>, xs: seq<T>, block: T -> seq<string>)
    requires forall x :: |block(x)| == 3
    ensures |head + Blocks(xs, block)| == |head| + 3 * |xs|
    ensures forall i :: 0 <= i < |xs| ==>
      (head + Blocks(xs, block))[|head| + 3 * i .. |head| + 3 * i + 3] == block(xs[i])
  {
    var lines := Blocks(xs, block);
    BlocksShape(xs, block);
    forall i | 0 <= i < |xs|
      ensures (head + lines)[|head| + 3 * i .. |head| + 3 * i + 3] == block(xs[i])
    {
      assert (head + lines)[|head| + 3 * i .. |head| + 3 * i + 3] == lines[3 * i .. 3 * i + 3];
    }
  }

  /** 3 + 3n lines: the preamble, then entry i's page, type and content
      lines at positions 3 + 3i to 5 + 3i. */
  lemma PromptPartsShape(es: seq<Entry>)
    ensures |PromptParts(es)| == 3 + 3 * |es|
    ensures PromptParts(es)[..3] == Preamble
    ensures forall i :: 0 <= i < |es| ==> PromptParts(es)[3 + 3 * i .. 6 + 3 * i] == Block(es[i])
  {
    HeadedBlocksShape(Preamble, es, Block);
    assert PromptParts(es)[..3] == Preamble;
  }

  /** One more entry adds its block, newline-separated, at the end of the
      prompt: blocks follow input order and none is ever omitted. */
  lemma BuildPromptAppend(es: seq<Entry>, e: Entry)
    ensures BuildPrompt(es + [e]) == BuildPrompt(es) + "\n" + Join(Block(e), '\n')
  {
    BlocksAppend(es, e, Block);
    assert PromptParts(es + [e]) == PromptParts(es) + Block(e);
    JoinConcat(PromptParts(es), Block(e), '\n');
  }

  /** A block's text: the page, type and content lines, newline-separated. */
  lemma BlockText(e: Entry)
    ensures Join(Block(e), '\n') == (PageLine(e) + "\n") + ((TypeLine(e) + "\n") + ContentLine(e))
  {
  }

  // ---------------------------------------------------------------------
  // Defaults for absent keys

  /** Removing the leading '/' of a subtype name gives the bare name. */
  lemma SlashFree(name: string, bare: string)
    requires name == "/" + bare && '/' !in bare
    ensures Without(name, '/') == bare
  {
    WithoutConcat("/", bare, '/');
    WithoutAbsent(bare, '/');
  }

  /** An absent type shows as Text. */
  lemma DefaultType(e: Entry)
    requires e.kind.None?
    ensures TypeLabel(e) == "Text"
  {
    SlashFree(TextNote, "Text");
  }

  /** Absent content shows as N/A; present empty content as an empty value,
      not omitted. */
  lemma DefaultContent(e: Entry)
    ensures e.contents.None? ==> ContentText(e) == "N/A"
    ensures e.contents == Some("") ==> ContentText(e) == ""
  {
    var na := "N/A";
    assert na == [] + na + [];
    StripPadding([], na, []);
  }

  // ---------------------------------------------------------------------
  // Extracted records in the prompt

  /** The entry of one extracted record needs no default: its page shows in
      decimal, its type as its own kind without the slash (Highlight or
      Text), its content stripped. */
  lemma RecordEntry(r: Annotation)
    requires r.page >= 1 && r.kind in {Highlight, TextNote}
    ensures PageText(EntryOf(r)) == NatToDecimal(r.page)
    ensures TypeLabel(EntryOf(r)) == r.kind[1..] && TypeLabel(EntryOf(r)) in {"Highlight", "Text"}
    ensures ContentText(EntryOf(r)) == Strip(r.contents)
  {
    if r.kind == Highlight {
      SlashFree(Highlight, "Highlight");
    } else {
      SlashFree(TextNote, "Text");
    }
  }

  /** For every record the extractor produces, no default applies: the page
      line shows its page number in decimal (never 未知), the type line shows
      the record's own kind without its slash, and the content line its
      stripped contents. */
  lemma {:induction false} ExtractedEntries(pages: seq<Extraction.Page>)
    ensures forall i :: 0 <= i < |Extract(pages)| ==>
      1 <= Extract(pages)[i].page
      && PageText(EntryOf(Extract(pages)[i])) == NatToDecimal(Extract(pages)[i].page)
      && TypeLabel(EntryOf(Extract(pages)[i])) == Extract(pages)[i].kind[1..]
      && TypeLabel(EntryOf(Extract(pages)[i])) in {"Highlight", "Text"}
      && ContentText(EntryOf(Extract(pages)[i])) == Strip(Extract(pages)[i].contents)
  {
    forall i | 0 <= i < |Extract(pages)|
      ensures PageText(EntryOf(Extract(pages)[i])) == NatToDecimal(Extract(pages)[i].page)
      ensures TypeLabel(EntryOf(Extract(pages)[i])) == Extract(pages)[i].kind[1..]
      ensures TypeLabel(EntryOf(Extract(pages)[i])) in {"Highlight", "Text"}
      ensures ContentText(EntryOf(Extract(pages)[i])) == Strip(Extract(pages)[i].contents)
    {
      RecordEntry(Extract(pages)[i]);
    }
  }
}
