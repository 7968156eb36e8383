/** The inline lexer of src/textnode.py: `text_to_textnodes`, five passes
    over a list of spans in a fixed order, and `text_to_children`, which
    turns the spans into HTML leaves unless the text stayed one plain
    span. */
module Lexer {
  import opened Wrappers
  import opened Strings
  import opened HtmlNode
  import opened TextNodes
  import opened Delimiters
  import opened Patterns

  /** `text_to_textnodes`: bold, italic and code by their delimiters, then
      images, then links; `Err` where a delimiter pass raises. */
  function TextToTextNodes(text: string): Result<seq<TextNode>>
  {
    var bold :- SplitDelimiter([TextNode(text, Text, None)], "**", Bold);
    var italic :- SplitDelimiter(bold, "*", Italic);
    var code :- SplitDelimiter(italic, "`", Code);
    Ok(SplitPattern(LinkPattern, SplitPattern(ImagePattern, code)))
  }

  /** The text as one plain span, or no span when it is empty. */
  function Plain(text: string): seq<TextNode>
  {
    if text == "" then [] else [TextNode(text, Text, None)]
  }

  /** A delimiter pass leaves plain text without the delimiter alone. */
  lemma PlainDelimiter(text: string, d: string, kind: TextType)
    requires |d| > 0 && d[0] !in text
    ensures SplitDelimiter(Plain(text), d, kind) == Ok(Plain(text))
  {
    if text != "" {
      CharAbsent(text, d);
      AbsentKeeps(text, d, kind);
    }
  }

  /** An image or link pass leaves plain text without a `[` alone. */
  lemma PlainPattern(p: Pattern, text: string)
    requires '[' !in text
    ensures SplitPattern(p, Plain(text)) == Plain(text)
  {
    if text != "" {
      var n := TextNode(text, Text, None);
      NoBracketKeeps(p, text, n);
      assert [n][..0] == [];
    }
  }

  /** Text free of `*`, a backtick and `[` is one plain span, or no span
      at all when empty. */
  lemma PlainText(text: string)
    requires '*' !in text && '`' !in text && '[' !in text
    ensures TextToTextNodes(text) == Ok(Plain(text))
  {
    assert SplitDelimiter([TextNode(text, Text, None)], "**", Bold) == Ok(Plain(text)) by {
      CharAbsent(text, "**");
      AbsentKeeps(text, "**", Bold);
    }
    PlainDelimiter(text, "*", Italic);
    PlainDelimiter(text, "`", Code);
    PlainPattern(ImagePattern, text);
    PlainPattern(LinkPattern, text);
  }

  /** Text the lexer treats as plain throughout: no `*`, no backtick, no `[`. */
  predicate Inert(t: string)
  {
    '*' !in t && '`' !in t && '[' !in t
  }

  /** One bold stretch between two plain ones is three spans: plain, bold,
      plain, with the delimiters gone. */
  lemma BoldBetween(x: string, y: string, z: string)
    requires x != "" && y != "" && z != "" && Inert(x) && Inert(y) && Inert(z)
    ensures TextToTextNodes(x + "**" + y + "**" + z)
         == Ok([TextNode(x, Text, None), TextNode(y, Bold, None), TextNode(z, Text, None)])
  {
    var spans := [TextNode(x, Text, None), TextNode(y, Bold, None), TextNode(z, Text, None)];
    BoldPass(x, y, z);
    InertKept(spans);
    LaterPassesKeep(x + "**" + y + "**" + z, spans);
  }

  /** Spans of inert, non-empty text without url pass the four later
      passes unchanged. */
  lemma InertKept(spans: seq<TextNode>)
    requires forall k :: 0 <= k < |spans| ==> spans[k].text != "" && Inert(spans[k].text) && spans[k].url == None
    ensures SplitDelimiter(spans, "*", Italic) == Ok(spans) && SplitDelimiter(spans, "`", Code) == Ok(spans)
    ensures SplitPattern(ImagePattern, spans) == spans && SplitPattern(LinkPattern, spans) == spans
  {
    DelimiterAbsent(spans, "*", Italic);
    DelimiterAbsent(spans, "`", Code);
    PatternAbsent(ImagePattern, spans);
    PatternAbsent(LinkPattern, spans);
  }

  /** When the bold pass gives spans the four later passes keep, those
      spans are the result. */
  lemma LaterPassesKeep(text: string, spans: seq<TextNode>)
    requires SplitDelimiter([TextNode(text, Text, None)], "**", Bold) == Ok(spans)
    requires SplitDelimiter(spans, "*", Italic) == Ok(spans) && SplitDelimiter(spans, "`", Code) == Ok(spans)
    requires SplitPattern(ImagePattern, spans) == spans && SplitPattern(LinkPattern, spans) == spans
    ensures TextToTextNodes(text) == Ok(spans)
  {
  }

  /** The bold pass cuts the text at its two `**`. */
  lemma BoldPass(x: string, y: string, z: string)
    requires x != "" && y != "" && z != "" && Inert(x) && Inert(y) && Inert(z)
    ensures SplitDelimiter([TextNode(x + "**" + y + "**" + z, Text, None)], "**", Bold)
         == Ok([TextNode(x, Text, None), TextNode(y, Bold, None), TextNode(z, Text, None)])
  {
    var s := x + "**" + y + "**" + z;
    assert Split(s, "**") == [x, y, z] by {
      assert s == x + "**" + (y + "**" + z);
      SplitFront(x, "**", y + "**" + z);
      SplitFront(y, "**", z);
      SplitNone(z, "**");
    }
    SplitDelimiterOne(TextNode(s, Text, None), "**", Bold);
    ThreePieces(x, y, z, Bold);
  }

  /** Three non-empty pieces: plain, `kind`, plain. */
  lemma ThreePieces(x: string, y: string, z: string, kind: TextType)
    requires x != "" && y != "" && z != ""
    ensures PieceNodes([x, y, z], false, kind)
         == [TextNode(x, Text, None), TextNode(y, kind, None), TextNode(z, Text, None)]
  {
    assert [x, y, z][1..] == [y, z] && [y, z][1..] == [z] && [z][1..] == [];
    assert PieceNodes([z], false, kind) == [TextNode(z, Text, None)];
    assert PieceNodes([y, z], true, kind) == [TextNode(y, kind, None), TextNode(z, Text, None)];
  }

  /** An odd number of `**` in the text makes the lexer fail. */
  lemma UnbalancedBold(text: string)
    requires |Split(text, "**")| % 2 == 0
    ensures TextToTextNodes(text).Err?
  {
    DelimiterFailure([TextNode(text, Text, None)], "**", Bold);
  }

  /** `text_to_children`: `None` when the text lexes to exactly one plain
      span, else the leaf of every span, in order. */
  function TextToChildren(text: string): (r: Result<Option<seq<Node>>>)
    ensures r.Ok? && r.value.Some? ==>
      forall k :: 0 <= k < |r.value.value| ==> r.value.value[k].Leaf? && WellFormed(r.value.value[k])
  {
    var nodes :- TextToTextNodes(text);
    if |nodes| == 1 && nodes[0].kind == Text then Ok(None)
    else Ok(Some(seq(|nodes|, k requires 0 <= k < |nodes| => TextNodeToHtmlNode(nodes[k]))))
  }
}
