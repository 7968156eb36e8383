/** The typed text span of src/textnode.py (`TextNode`, `TextType`) and its
    mapping to an HTML leaf (`text_node_to_html_node`). */
module TextNodes {
  import opened Wrappers
  import opened Strings
  import opened HtmlNode

  datatype TextType = Text | Bold | Italic | Code | Link | Image

  /** A span: its text, its kind, and the url a link or an image carries.
      Equality is structural on all three, as `TextNode.__eq__` compares them. */
  datatype TextNode = TextNode(text: string, kind: TextType, url: Option<string>)

  /** How an f-string prints an optional string: `None` prints as "None". */
  function Str(u: Option<string>): string
  {
    if u.None? then "None" else u.value
  }

  /** `text_node_to_html_node`: every kind maps to a leaf that renders. */
  function TextNodeToHtmlNode(t: TextNode): (r: Node)
    ensures r.Leaf? && WellFormed(r)
  {
    match t.kind
    case Text => Leaf(None, Some(t.text), None)
    case Bold => Leaf(Some("b"), Some(t.text), None)
    case Italic => Leaf(Some("i"), Some(t.text), None)
    case Code => Leaf(Some("code"), Some(t.text), None)
    case Link => Leaf(Some("a"), Some(t.text), Some([("href", Str(t.url))]))
    case Image => Leaf(Some("img"), Some(""), Some([("src", Str(t.url)), ("alt", t.text)]))
  }

  /** The texts of the spans, run together. */
  function Content(ns: seq<TextNode>): string
  {
    if ns == [] then "" else ns[0].text + Content(ns[1..])
  }

  lemma {:induction false} ContentAppend(xs: seq<TextNode>, ys: seq<TextNode>)
    ensures Content(xs + ys) == Content(xs) + Content(ys)
  {
    if xs != [] {
      assert (xs + ys)[1..] == xs[1..] + ys;
      ContentAppend(xs[1..], ys);
    } else {
      assert xs + ys == ys;
    }
  }

  /** The texts of all spans but the last, then the last one's. */
  lemma ContentLast(ns: seq<TextNode>)
    requires ns != []
    ensures Content(ns) == Content(ns[..|ns| - 1]) + ns[|ns| - 1].text
  {
    assert ns == ns[..|ns| - 1] + [ns[|ns| - 1]];
    ContentAppend(ns[..|ns| - 1], [ns[|ns| - 1]]);
    assert Content([ns[|ns| - 1]]) == ns[|ns| - 1].text + Content([]);
  }

  /** What each kind of span renders to: plain text verbatim, bold, italic
      and code wrapped in their element, a link as an anchor whose only
      attribute is `href`, an image as an empty `img` element with `src`
      before `alt`. */
  lemma SpanRendering(t: TextNode)
    ensures t.kind == Text ==> ToHtml(TextNodeToHtmlNode(t)) == Ok(t.text)
    ensures t.kind == Bold ==> ToHtml(TextNodeToHtmlNode(t)) == Ok("<b>" + t.text + "</b>")
    ensures t.kind == Italic ==> ToHtml(TextNodeToHtmlNode(t)) == Ok("<i>" + t.text + "</i>")
    ensures t.kind == Code ==> ToHtml(TextNodeToHtmlNode(t)) == Ok("<code>" + t.text + "</code>")
    ensures t.kind == Link ==>
      ToHtml(TextNodeToHtmlNode(t)) == Ok("<a href=\"" + Str(t.url) + "\">" + t.text + "</a>")
    ensures t.kind == Image ==>
      ToHtml(TextNodeToHtmlNode(t))
      == Ok("<img src=\"" + Str(t.url) + "\" alt=\"" + t.text + "\"></img>")
  {
    match t.kind
    case Text =>
    case Bold =>
      ElementRendering("b", t.text);
      assert "<" + "b" + ">" + t.text + "</" + "b" + ">" == "<b>" + t.text + "</b>";
    case Italic =>
      ElementRendering("i", t.text);
      assert "<" + "i" + ">" + t.text + "</" + "i" + ">" == "<i>" + t.text + "</i>";
    case Code =>
      ElementRendering("code", t.text);
      assert "<" + "code" + ">" + t.text + "</" + "code" + ">" == "<code>" + t.text + "</code>";
    case Link => LinkRendering(t);
    case Image => ImageRendering(t);
  }

  lemma ElementRendering(tag: string, text: string)
    ensures ToHtml(Leaf(Some(tag), Some(text), None)) == Ok("<" + tag + ">" + text + "</" + tag + ">")
  {
    LeafRendering(Some(tag), Some(text), None);
  }

  lemma LinkRendering(t: TextNode)
    requires t.kind == Link
    ensures ToHtml(TextNodeToHtmlNode(t)) == Ok("<a href=\"" + Str(t.url) + "\">" + t.text + "</a>")
  {
    var entries := [("href", Str(t.url))];
    var attr := "href=\"" + Str(t.url) + "\"";
    assert Attribute(entries[0]) == attr;
    assert Attributes(entries) == [attr];
    LeafRendering(Some("a"), Some(t.text), Some(entries));
    assert "<" + "a" + " " + attr + ">" + t.text + "</" + "a" + ">"
        == "<a href=\"" + Str(t.url) + "\">" + t.text + "</a>";
  }

  lemma ImageRendering(t: TextNode)
    requires t.kind == Image
    ensures ToHtml(TextNodeToHtmlNode(t))
         == Ok("<img src=\"" + Str(t.url) + "\" alt=\"" + t.text + "\"></img>")
  {
    var entries := [("src", Str(t.url)), ("alt", t.text)];
    var attrs := Attributes(entries);
    assert attrs == [Attribute(entries[0]), Attribute(entries[1])];
    assert Join(attrs, " ") == attrs[0] + " " + attrs[1] by {
      assert attrs[1..] == [attrs[1]];
    }
    LeafRendering(Some("img"), Some(""), Some(entries));
    Flatten("<", "img", " ", "src" + "=\"", Str(t.url), "\"", " ", "alt" + "=\"", t.text, "\"",
            ">", "", "</", "img", ">");
    assert "<" + "img" + " " + ("src" + "=\"") == "<img src=\"";
    assert "\"" + " " + ("alt" + "=\"") == "\" alt=\"";
    assert "\"" + ">" + "" + "</" + "img" + ">" == "\"></img>";
  }

  /** Regrouping the pieces of an element with two attributes. */
  lemma Flatten(a: string, b: string, c: string, d: string, u: string, e: string, f: string,
                g: string, x: string, h: string, k1: string, k2: string, k3: string, k4: string, k5: string)
    ensures a + b + c + (d + u + e + f + (g + x + h)) + k1 + k2 + k3 + k4 + k5
         == (a + b + c + d) + u + (e + f + g) + x + (h + k1 + k2 + k3 + k4 + k5)
  {
  }
}
