/** The list builder of src/textnode.py (`list_block_to_html_node`), which
    serves ordered and unordered lists alike: each line becomes an item
    holding the stripped text after its first space, and the list is `ol`
    when the first line starts with a digit. */
module Lists {
  import opened Wrappers
  import opened Strings
  import opened HtmlNode
  import opened Lexer
  import opened Builders

  /** `line.split(" ", 1)[1].strip()`: the stripped text after the first
      space; `None` where there is no space (the index raises). */
  function ItemText(line: string): (r: Option<string>)
    ensures r.None? <==> ' ' !in line
  {
    match Find(line, " ")
    case None =>
      assert ' ' !in line by {
        forall i | 0 <= i < |line| ensures line[i] != ' ' {
          assert line[i..i + 1] == [line[i]];
          assert !OccursAt(line, " ", i);
        }
      }
      None
    case Some(i) =>
      assert line[i] == ' ' by {
        assert line[i..i + 1][0] == line[i];
      }
      Some(Strip(line[i + 1..]))
  }

  /** One line as a list item. */
  function ListItem(line: string): (r: Result<Node>)
    ensures r.Ok? ==> WellFormed(r.value) && r.value.tag == Some("li")
  {
    match ItemText(line)
    case None => Err
    case Some(t) => TaggedText("li", t)
  }

  /** `ol` when the first stripped line starts with a digit, else `ul`;
      `Err` when that line is blank (the index raises). */
  function ListTag(first: string): (r: Result<string>)
    ensures r.Ok? <==> Strip(first) != ""
    ensures r.Ok? ==> (r.value == "ol" <==> IsDigit(Strip(first)[0]))
    ensures r.Ok? ==> (r.value == "ol" || r.value == "ul")
  {
    var s := Strip(first);
    if s == "" then Err else Ok(if IsDigit(s[0]) then "ol" else "ul")
  }

  /** What `list_block_to_html_node` returns. */
  function ListBlock(b: string): (r: Result<Node>)
    ensures r.Ok? ==> WellFormed(r.value) && (r.value.tag == Some("ol") || r.value.tag == Some("ul"))
  {
    var lines := Split(b, "\n");
    var nodes :- MapResult(lines, ListItem);
    var tag :- ListTag(lines[0]);
    ItemsWellFormed(lines, nodes);
    Ok(Parent(Some(tag), Children(nodes), None))
  }

  /** Items that were all built are well-formed. */
  lemma ItemsWellFormed(lines: seq<string>, nodes: seq<Node>)
    requires MapResult(lines, ListItem) == Ok(nodes)
    ensures forall k :: 0 <= k < |nodes| ==> WellFormed(nodes[k])
  {
    forall k | 0 <= k < |nodes| ensures WellFormed(nodes[k]) {
      assert ListItem(lines[k]).Ok?;
    }
  }

  /** `list_block_to_html_node`. */
  method ListBlockToHtmlNode(b: string) returns (r: Result<Node>)
    ensures r == ListBlock(b)
  {
    var nodes: seq<Node> := [];
    var lines := Split(b, "\n");
    for i := 0 to |lines|
      invariant MapResult(lines[..i], ListItem) == Ok(nodes)
    {
      MapResultNext(lines, ListItem, i, nodes);
      var content := ItemText(lines[i]);
      if content.None? {
        assert MapResult(lines, ListItem).Err? by {
          assert !ListItem(lines[i]).Ok?;
        }
        return Err;
      }
      var node := TaggedText("li", content.value);
      if node.Err? {
        assert MapResult(lines, ListItem).Err? by {
          assert !ListItem(lines[i]).Ok?;
        }
        return Err;
      }
      nodes := nodes + [node.value];
    }
    assert lines[..|lines|] == lines;
    var tag := ListTag(lines[0]);
    if tag.Err? {
      return Err;
    }
    return Ok(Parent(Some(tag.value), Children(nodes), None));
  }

  // ---------------------------------------------------------------------
  // What the builder promises
  // ---------------------------------------------------------------------

  /** The list has one item per line, in line order, under `ol` or `ul`
      as the first line decides; it fails exactly when a line has no
      space, an item fails to lex, or the first line is blank. */
  lemma ListShape(b: string)
    ensures var lines := Split(b, "\n");
      ListBlock(b).Ok? <==>
        (forall k :: 0 <= k < |lines| ==> ListItem(lines[k]).Ok?) && Strip(lines[0]) != ""
    ensures var lines := Split(b, "\n");
      ListBlock(b).Ok? ==>
        var n := ListBlock(b).value;
        n.tag == Some(ListTag(lines[0]).value) && |n.children.nodes| == |lines|
        && forall k :: 0 <= k < |lines| ==> n.children.nodes[k] == ListItem(lines[k]).value
  {
  }

  /** A marker, a space and text give an item holding the stripped text;
      the marker itself is dropped, whatever it is. */
  lemma MarkedItem(marker: string, t: string)
    requires ' ' !in marker
    ensures ItemText(marker + " " + t) == Some(Strip(t))
  {
    var line := marker + " " + t;
    assert OccursAt(line, " ", |marker|) by {
      assert line[|marker|..|marker| + 1] == " ";
    }
    forall j: nat | j < |marker| ensures !OccursAt(line, " ", j) {
      assert line[j..j + 1][0] == marker[j];
    }
    FindFirst(line, " ", |marker|);
    assert line[|marker| + 1..] == t;
  }

  /** An item whose text has no markup is a leaf holding the text: the
      tests' "* first element" is the item "first element". */
  lemma PlainItem(marker: string, t: string)
    requires ' ' !in marker && (t == [] || (!IsSpace(t[0]) && !IsSpace(t[|t| - 1])))
    requires '*' !in t && '`' !in t && '[' !in t
    ensures ListItem(marker + " " + t) == Ok(Leaf(Some("li"), Some(t), None))
  {
    MarkedItem(marker, t);
    StripClean(t);
    PlainTagged("li", t);
  }

  /** A line without a space makes the whole list fail. */
  lemma NoSpaceFails(b: string, k: nat)
    requires k < |Split(b, "\n")| && ' ' !in Split(b, "\n")[k]
    ensures ListBlock(b).Err?
  {
    assert !ListItem(Split(b, "\n")[k]).Ok?;
  }
}
