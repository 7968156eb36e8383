/** The document entry points of src/textnode.py: `block_to_html_node`
    (dispatch on the block type), `markdown_to_html_node` (one child of a
    `div` per block) and `extract_title` (the first `# ` block). */
module Document {
  import opened Wrappers
  import opened Strings
  import opened HtmlNode
  import opened Blocks
  import opened Classify
  import opened Builders
  import opened Quotes
  import opened Lists

  // ---------------------------------------------------------------------
  // block_to_html_node
  // ---------------------------------------------------------------------

  /** What `block_to_html_node` returns: the builder of the block's type;
      both list types share one builder. */
  function BlockNode(b: string, t: BlockType): (r: Result<Node>)
    ensures r.Ok? ==> WellFormed(r.value)
    ensures r.Ok? && !t.OrderedList? && !t.UnorderedList? ==> r.value.tag == Some(ElementOf(b, t))
    ensures r.Ok? && (t.OrderedList? || t.UnorderedList?) ==>
      r.value.tag == Some("ol") || r.value.tag == Some("ul")
  {
    match t
    case Heading => HeadingBlock(b)
    case CodeBlock => CodeBlockNode(b)
    case Quote => QuoteBlock(b)
    case OrderedList => ListBlock(b)
    case UnorderedList => ListBlock(b)
    case Paragraph => ParagraphBlock(b)
  }

  /** The element each type of block becomes (lists aside, whose element
      the first line decides). */
  function ElementOf(b: string, t: BlockType): string
    requires !t.OrderedList? && !t.UnorderedList?
  {
    match t
    case Heading => "h" + NatToString(CountChar(b, '#'))
    case CodeBlock => "pre"
    case Quote => "blockquote"
    case Paragraph => "p"
  }

  /** `block_to_html_node`. */
  method BlockToHtmlNode(b: string, t: BlockType) returns (r: Result<Node>)
    ensures r == BlockNode(b, t)
  {
    match t
    case Heading => r := HeadingBlock(b);
    case CodeBlock => r := CodeBlockNode(b);
    case Quote => r := QuoteBlockToHtmlNode(b);
    case OrderedList => r := ListBlockToHtmlNode(b);
    case UnorderedList => r := ListBlockToHtmlNode(b);
    case Paragraph => r := ParagraphBlock(b);
  }

  // ---------------------------------------------------------------------
  // markdown_to_html_node
  // ---------------------------------------------------------------------

  /** A block, classified and built. */
  function Compiled(b: string): (r: Result<Node>)
    ensures r.Ok? ==> WellFormed(r.value)
  {
    BlockNode(b, BlockToBlockType(b))
  }

  /** What `markdown_to_html_node` returns: a `div` over the built
      blocks of the document. */
  function MarkdownToHtml(markdown: string): (r: Result<Node>)
    ensures r.Ok? ==> WellFormed(r.value)
  {
    Div(Segmented(markdown))
  }

  /** A `div` over the built blocks, in block order; `Err` when some block
      fails to build. */
  function Div(blocks: seq<string>): (r: Result<Node>)
    ensures r.Ok? ==> WellFormed(r.value)
  {
    var nodes :- MapResult(blocks, Compiled);
    assert forall k :: 0 <= k < |nodes| ==> WellFormed(nodes[k]) by {
      forall k | 0 <= k < |nodes| ensures WellFormed(nodes[k]) {
        assert Compiled(blocks[k]).Ok?;
      }
    }
    Ok(Parent(Some("div"), Children(nodes), None))
  }

  /** `markdown_to_html_node`: the blocks, then the loop that builds them. */
  method MarkdownToHtmlNode(markdown: string) returns (r: Result<Node>)
    ensures r == MarkdownToHtml(markdown)
  {
    var blocks := MarkdownToBlocks(markdown);
    var nodes := BuildBlocks(blocks);
    if nodes.Err? {
      return Err;
    }
    return Ok(Parent(Some("div"), Children(nodes.value), None));
  }

  /** The loop of `markdown_to_html_node`: each block classified and
      built, in order; `Err` at the first block that fails. */
  method BuildBlocks(blocks: seq<string>) returns (r: Result<seq<Node>>)
    ensures r == MapResult(blocks, Compiled)
  {
    var nodes: seq<Node> := [];
    for i := 0 to |blocks|
      invariant MapResult(blocks[..i], Compiled) == Ok(nodes)
    {
      MapResultNext(blocks, Compiled, i, nodes);
      var blockType := BlockToBlockType(blocks[i]);
      var node := BlockToHtmlNode(blocks[i], blockType);
      if node.Err? {
        assert MapResult(blocks, Compiled).Err? by {
          assert !Compiled(blocks[i]).Ok?;
        }
        return Err;
      }
      nodes := nodes + [node.value];
    }
    assert blocks[..|blocks|] == blocks;
    return Ok(nodes);
  }

  /** The document is a `div` with exactly one child per block, in block
      order, and fails exactly when some block does. */
  lemma DocumentShape(blocks: seq<string>)
    ensures Div(blocks).Ok? <==> forall k :: 0 <= k < |blocks| ==> Compiled(blocks[k]).Ok?
    ensures Div(blocks).Ok? ==>
        var n := Div(blocks).value;
        n.tag == Some("div") && n.Parent? && |n.children.nodes| == |blocks|
        && forall k :: 0 <= k < |blocks| ==> n.children.nodes[k] == Compiled(blocks[k]).value
  {
  }

  /** A document of blank lines is an empty `div`. */
  lemma BlankDocument(markdown: string)
    requires forall k :: 0 <= k < |Split(markdown, "\n")| ==> Blank(Split(markdown, "\n")[k])
    ensures MarkdownToHtml(markdown) == Ok(Parent(Some("div"), Children([]), None))
    ensures ToHtml(MarkdownToHtml(markdown).value) == Ok("<div></div>")
  {
    assert MarkdownToHtml(markdown) == Div([]) by {
      AllBlank(markdown);
    }
    assert ToHtml(Parent(Some("div"), Children([]), None)) == Ok("<div></div>") by {
      ParentRendering("div", [], None);
      assert Concat(Rendered([])) == "";
      assert "<" + "div" + ">" + "" + "</" + "div" + ">" == "<div></div>";
    }
  }

  // ---------------------------------------------------------------------
  // extract_title
  // ---------------------------------------------------------------------

  /** The title of the first block that starts with "# ": the stripped
      rest of that block; `Err` when no block does (the raise). */
  function Title(blocks: seq<string>): Result<string>
  {
    if blocks == [] then Err
    else if StartsWith(blocks[0], "# ") then Ok(Strip(blocks[0][2..]))
    else Title(blocks[1..])
  }

  /** `extract_title`: the blocks, then the search for the first title. */
  method ExtractTitle(markdown: string) returns (r: Result<string>)
    ensures r == Title(Segmented(markdown))
  {
    var blocks := MarkdownToBlocks(markdown);
    r := FirstTitle(blocks);
  }

  /** The loop of `extract_title`, returning at the first block that
      starts with "# ". */
  method FirstTitle(blocks: seq<string>) returns (r: Result<string>)
    ensures r == Title(blocks)
  {
    for i := 0 to |blocks|
      invariant Title(blocks[i..]) == Title(blocks)
    {
      assert blocks[i..][1..] == blocks[i + 1..];
      if StartsWith(blocks[i], "# ") {
        return Ok(Strip(blocks[i][2..]));
      }
    }
    return Err;
  }

  /** In a block starting with "# ", the text after the first occurrence
      of "# " (what `split("# ", 1)[1]` takes) is the rest of the block. */
  lemma TitleAfterMarker(b: string)
    requires StartsWith(b, "# ")
    ensures Find(b, "# ") == Some(0) && b[0 + |"# "|..] == b[2..]
  {
    FindFirst(b, "# ", 0);
  }

  /** The title fails exactly when no block starts with "# ", and is
      otherwise the stripped rest of the first block that does. */
  lemma {:induction false} TitleOfFirst(blocks: seq<string>, k: nat)
    requires k < |blocks| && StartsWith(blocks[k], "# ")
    requires forall j :: 0 <= j < k ==> !StartsWith(blocks[j], "# ")
    ensures Title(blocks) == Ok(Strip(blocks[k][2..]))
  {
    if k > 0 {
      assert !StartsWith(blocks[0], "# ");
      TitleOfFirst(blocks[1..], k - 1);
    }
  }

  lemma {:induction false} NoTitle(blocks: seq<string>)
    ensures Title(blocks).Err? <==> forall k :: 0 <= k < |blocks| ==> !StartsWith(blocks[k], "# ")
  {
    if blocks != [] {
      NoTitle(blocks[1..]);
      assert forall k :: 1 <= k < |blocks| ==> blocks[k] == blocks[1..][k - 1];
    }
  }

  /** A second-level heading is no title. */
  lemma SubheadingIsNoTitle(t: string)
    ensures !StartsWith("## " + t, "# ")
  {
    assert ("## " + t)[1] == '#';
  }
}
