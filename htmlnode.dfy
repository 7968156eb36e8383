/** The HTML node tree of src/htmlnode.py and its rendering to a string.
    `LeafNode` and `ParentNode` are the two variants of one datatype; the
    fields the source tests against `None` are Options, and a props
    dictionary is the ordered list of its (key, value) entries. */
module HtmlNode {
  import opened Wrappers
  import opened Strings

  /** A props dictionary, in insertion order. */
  type Props = seq<(string, string)>

  datatype Node =
    | Leaf(tag: Option<string>, value: Option<string>, props: Option<Props>)
    | Parent(tag: Option<string>, children: ChildList, props: Option<Props>)

  /** A parent's `children`: `None` or a list. (An `Option<seq<Node>>`
      written out, so that Dafny sees each child is smaller than its parent.) */
  datatype ChildList = NoChildren | Children(nodes: seq<Node>)

  /** The four fields every `HTMLNode` carries, whatever its subclass:
      the view that equality compares. */
  datatype Fields = Fields(
    tag: Option<string>,
    value: Option<string>,
    children: Option<seq<Fields>>,
    props: Option<Props>)

  // ---------------------------------------------------------------------
  // props_to_html
  // ---------------------------------------------------------------------

  /** One `key="val"` attribute. */
  function Attribute(entry: (string, string)): string
  {
    entry.0 + "=\"" + entry.1 + "\""
  }

  function Attributes(entries: Props): seq<string>
  {
    seq(|entries|, k requires 0 <= k < |entries| => Attribute(entries[k]))
  }

  /** `props_to_html`: the attributes joined by single spaces, or "" when
      there are none. */
  function PropsToHtml(props: Option<Props>): (r: string)
    ensures props.None? ==> r == ""
    ensures r == "" <==> props.None? || props.value == []
  {
    match props
    case None => ""
    case Some(entries) =>
      var attrs := Attributes(entries);
      assert attrs != [] ==> |Join(attrs, " ")| >= |attrs[0]| > 0;
      Join(attrs, " ")
  }

  /** A single entry renders as `key="val"`. */
  lemma PropsOne(key: string, val: string)
    ensures PropsToHtml(Some([(key, val)])) == key + "=\"" + val + "\""
  {
    assert Attributes([(key, val)]) == [Attribute((key, val))];
  }

  /** Attributes come out in insertion order: a later entry is rendered
      after all earlier ones, separated by exactly one space. */
  lemma PropsInOrder(entries: Props, key: string, val: string)
    requires entries != []
    ensures PropsToHtml(Some(entries + [(key, val)]))
         == PropsToHtml(Some(entries)) + " " + key + "=\"" + val + "\""
  {
    assert Attributes(entries + [(key, val)]) == Attributes(entries) + [Attribute((key, val))];
    JoinAppend(Attributes(entries), Attribute((key, val)), " ");
  }

  // ---------------------------------------------------------------------
  // to_html
  // ---------------------------------------------------------------------

  /** The nodes `to_html` accepts: a leaf needs a value; a parent needs a
      tag, a children list (possibly empty) and renderable children. */
  predicate WellFormed(n: Node)
    decreases n
  {
    match n
    case Leaf(_, value, _) => value.Some?
    case Parent(tag, children, _) =>
      tag.Some? && children.Children?
      && forall k :: 0 <= k < |children.nodes| ==> WellFormed(children.nodes[k])
  }

  /** `LeafNode.to_html` and `ParentNode.to_html`; a raised ValueError is `Err`. */
  function ToHtml(n: Node): (r: Result<string>)
    ensures r.Ok? <==> WellFormed(n)
    decreases n
  {
    match n
    case Leaf(tag, value, props) =>
      if value.None? then Err
      else if tag.None? then Ok(value.value)
      else
        var attrs := PropsToHtml(props);
        if attrs != "" then
          Ok("<" + tag.value + " " + attrs + ">" + value.value + "</" + tag.value + ">")
        else
          Ok("<" + tag.value + ">" + value.value + "</" + tag.value + ">")
    case Parent(tag, children, _) =>
      if tag.None? || children.NoChildren? then Err
      else
        var inner :- ChildrenToHtml(children.nodes);
        Ok("<" + tag.value + ">" + inner + "</" + tag.value + ">")
  }

  /** `"".join(map(lambda x: x.to_html(), children))`. */
  function ChildrenToHtml(cs: seq<Node>): (r: Result<string>)
    ensures r.Ok? <==> forall k :: 0 <= k < |cs| ==> WellFormed(cs[k])
    decreases cs
  {
    if cs == [] then Ok("")
    else
      var first :- ToHtml(cs[0]);
      var rest :- ChildrenToHtml(cs[1..]);
      Ok(first + rest)
  }

  /** The strings the children render to, in child order. */
  function Rendered(cs: seq<Node>): seq<string>
    requires forall k :: 0 <= k < |cs| ==> WellFormed(cs[k])
  {
    seq(|cs|, k requires 0 <= k < |cs| => ToHtml(cs[k]).value)
  }

  /** A leaf without a tag renders to its value verbatim; a tagged leaf
      renders `<tag attrs>value</tag>`, the attributes and their leading
      space left out when there are none; a leaf without a value fails
      whatever its tag and props. */
  lemma LeafRendering(tag: Option<string>, value: Option<string>, props: Option<Props>)
    ensures value.None? ==> ToHtml(Leaf(tag, value, props)).Err?
    ensures value.Some? && tag.None? ==> ToHtml(Leaf(tag, value, props)) == Ok(value.value)
    ensures value.Some? && tag.Some? && (props.None? || props.value == []) ==>
      ToHtml(Leaf(tag, value, props)) == Ok("<" + tag.value + ">" + value.value + "</" + tag.value + ">")
    ensures value.Some? && tag.Some? && props.Some? && props.value != [] ==>
      ToHtml(Leaf(tag, value, props))
      == Ok("<" + tag.value + " " + PropsToHtml(props) + ">" + value.value + "</" + tag.value + ">")
  {
  }

  /** A parent with a tag and a (possibly empty) list of renderable
      children renders `<tag>`, then each child's rendering in child order,
      then `</tag>`. Its own props never appear. */
  lemma {:induction false} ParentRendering(tag: string, cs: seq<Node>, props: Option<Props>)
    requires forall k :: 0 <= k < |cs| ==> WellFormed(cs[k])
    ensures ToHtml(Parent(Some(tag), Children(cs), props))
         == Ok("<" + tag + ">" + Concat(Rendered(cs)) + "</" + tag + ">")
  {
    ChildrenRendering(cs);
  }

  lemma {:induction false} ChildrenRendering(cs: seq<Node>)
    requires forall k :: 0 <= k < |cs| ==> WellFormed(cs[k])
    ensures ChildrenToHtml(cs) == Ok(Concat(Rendered(cs)))
  {
    if cs != [] {
      ChildrenRendering(cs[1..]);
      assert Rendered(cs) == [ToHtml(cs[0]).value] + Rendered(cs[1..]);
    }
  }

  // ---------------------------------------------------------------------
  // __eq__
  // ---------------------------------------------------------------------

  /** The `value` field: a parent has none. */
  function ValueOf(n: Node): Option<string>
  {
    if n.Leaf? then n.value else None
  }

  /** The `children` field is a list (not None). */
  predicate HasChildList(n: Node)
  {
    n.Parent? && n.children.Children?
  }

  /** `HTMLNode.__eq__`: tag, value, children (element by element, with
      `__eq__` again) and props all equal, whatever the subclasses. */
  predicate NodeEq(a: Node, b: Node)
    decreases a
  {
    a.tag == b.tag && ValueOf(a) == ValueOf(b) && a.props == b.props
    && HasChildList(a) == HasChildList(b)
    && (HasChildList(a) ==>
          |a.children.nodes| == |b.children.nodes|
          && forall k :: 0 <= k < |a.children.nodes| ==>
               NodeEq(a.children.nodes[k], b.children.nodes[k]))
  }

  /** The four fields of a node, children included, as a plain `HTMLNode`. */
  function Erase(n: Node): Fields
    decreases n
  {
    match n
    case Leaf(tag, value, props) => Fields(tag, value, None, props)
    case Parent(tag, children, props) =>
      var kids := if children.NoChildren? then None
        else Some(seq(|children.nodes|, k requires 0 <= k < |children.nodes| => Erase(children.nodes[k])));
      Fields(tag, None, kids, props)
  }

  /** Node equality is exactly equality of the four fields, recursively. */
  lemma {:induction false} NodeEqIsFieldEquality(a: Node, b: Node)
    ensures NodeEq(a, b) <==> Erase(a) == Erase(b)
    decreases a
  {
    if HasChildList(a) && HasChildList(b) {
      var xs, ys := a.children.nodes, b.children.nodes;
      forall k | 0 <= k < |xs| && k < |ys|
        ensures NodeEq(xs[k], ys[k]) <==> Erase(xs[k]) == Erase(ys[k])
      {
        NodeEqIsFieldEquality(xs[k], ys[k]);
      }
      if Erase(a) == Erase(b) {
        assert |xs| == |ys|;
        forall k | 0 <= k < |xs| ensures Erase(xs[k]) == Erase(ys[k]) {
          assert Erase(a).children.value[k] == Erase(xs[k]);
        }
      }
      if NodeEq(a, b) {
        var ea, eb := Erase(a).children.value, Erase(b).children.value;
        forall k | 0 <= k < |ea| ensures ea[k] == eb[k] {
          assert ea[k] == Erase(xs[k]) && eb[k] == Erase(ys[k]);
        }
        assert ea == eb;
      }
    }
  }

  /** Equal nodes render alike, even a leaf and a parent that compare equal. */
  lemma {:induction false} EqualNodesRenderAlike(a: Node, b: Node)
    requires NodeEq(a, b)
    ensures ToHtml(a) == ToHtml(b)
    decreases a
  {
    if HasChildList(a) {
      ChildrenRenderAlike(a.children.nodes, b.children.nodes);
    }
  }

  lemma {:induction false} ChildrenRenderAlike(xs: seq<Node>, ys: seq<Node>)
    requires |xs| == |ys| && forall k :: 0 <= k < |xs| ==> NodeEq(xs[k], ys[k])
    ensures ChildrenToHtml(xs) == ChildrenToHtml(ys)
    decreases xs
  {
    if xs != [] {
      EqualNodesRenderAlike(xs[0], ys[0]);
      ChildrenRenderAlike(xs[1..], ys[1..]);
    }
  }
}
