/** The quote builder of src/textnode.py (`quote_block_to_html_node`):
    `re.findall` of `>\ ?(.*)` over the block, then one element per
    match. */
module Quotes {
  import opened Wrappers
  import opened Strings
  import opened HtmlNode
  import opened Builders

  /** The end of the line holding index `i`: the next newline, or the end
      of the string (`.` matches anything but a newline). */
  function LineEnd(s: string, i: nat): (j: nat)
    requires i <= |s|
    ensures i <= j <= |s| && (j == |s| || s[j] == '\n')
    ensures forall k :: i <= k < j ==> s[k] != '\n'
    decreases |s| - i
  {
    if i < |s| && s[i] != '\n' then LineEnd(s, i + 1) else i
  }

  /** Where the captured text of a match at index 0 starts: after the `>`
      and, when there is one, the space after it. */
  function Captured(s: string): (start: nat)
    requires s != [] && s[0] == '>'
    ensures 1 <= start <= |s|
  {
    if |s| > 1 && s[1] == ' ' then 2 else 1
  }

  /** `re.findall(r">\ ?(.*)", s)`: the scan tries a match at each index
      from the left; a match needs a `>`, takes one optional space and
      then the rest of the line, and the scan resumes where it ended. */
  function Quotes(s: string): (r: seq<string>)
    ensures forall k :: 0 <= k < |r| ==> '\n' !in r[k]
    decreases |s|
  {
    if s == [] then []
    else if s[0] != '>' then Quotes(s[1..])
    else
      var end := LineEnd(s, Captured(s));
      [s[Captured(s)..end]] + Quotes(s[end..])
  }

  // ---------------------------------------------------------------------
  // The matches, line by line
  // ---------------------------------------------------------------------

  /** The text a line quotes: what follows its first `>` and one optional
      space, or nothing when the line has no `>`. */
  function Marked(line: string): (r: Option<string>)
    ensures r.None? <==> '>' !in line
    decreases |line|
  {
    if line == [] then None
    else if line[0] != '>' then Marked(line[1..])
    else Some(line[Captured(line)..])
  }

  /** The quotes of each line in turn. */
  function LineQuotes(lines: seq<string>): seq<string>
  {
    if lines == [] then []
    else (if '>' in lines[0] then [Marked(lines[0]).value] else []) + LineQuotes(lines[1..])
  }

  lemma {:induction false} LineEndAt(s: string, i: nat, k: nat)
    requires i <= k <= |s| && (k == |s| || s[k] == '\n') && forall j :: i <= j < k ==> s[j] != '\n'
    ensures LineEnd(s, i) == k
    decreases k - i
  {
    if i < k {
      assert s[i] != '\n';
      LineEndAt(s, i + 1, k);
    }
  }

  /** Characters before the first `>` are skipped. */
  lemma {:induction false} SkipPrefix(p: string, rest: string)
    requires '>' !in p
    ensures Quotes(p + rest) == Quotes(rest)
    decreases |p|
  {
    if p != [] {
      assert (p + rest)[0] == p[0];
      assert (p + rest)[1..] == p[1..] + rest;
      SkipPrefix(p[1..], rest);
    } else {
      assert p + rest == rest;
    }
  }

  /** A line followed by a newline quotes what the line alone quotes, and
      the scan goes on after the newline. */
  lemma {:induction false} LineThen(line: string, rest: string)
    requires '\n' !in line
    ensures Quotes(line + "\n" + rest) == Quotes(line) + Quotes(rest)
    decreases |line|
  {
    var s := line + "\n" + rest;
    if line == [] {
      assert s == "\n" + rest;
      SkipPrefix("\n", rest);
    } else if line[0] != '>' {
      assert s[0] == line[0];
      assert s[1..] == line[1..] + "\n" + rest;
      LineThen(line[1..], rest);
    } else {
      var start := Captured(line);
      assert s[..|line|] == line;
      assert Captured(s) == start;
      assert LineEnd(s, start) == |line| by {
        LineEndAt(s, start, |line|);
      }
      assert LineEnd(line, start) == |line| by {
        LineEndAt(line, start, |line|);
      }
      assert s[start..|line|] == line[start..];
      assert s[|line|..] == "\n" + rest;
      assert Quotes(s) == [line[start..]] + Quotes(rest) by {
        SkipPrefix("\n", rest);
      }
      assert Quotes(line) == [line[start..]] by {
        assert line[|line|..] == [];
        assert line[start..|line|] == line[start..];
      }
    }
  }

  /** A line alone quotes its marked text, if any. */
  lemma {:induction false} OneLine(line: string)
    requires '\n' !in line
    ensures Quotes(line) == if '>' in line then [Marked(line).value] else []
    decreases |line|
  {
    if line != [] {
      if line[0] != '>' {
        OneLine(line[1..]);
      } else {
        var start := Captured(line);
        LineEndAt(line, start, |line|);
        assert line[|line|..] == [];
        assert line[start..|line|] == line[start..];
        assert line[0] in line;
        assert Marked(line) == Some(line[start..]);
      }
    }
  }

  /** `findall` over a block reads it line by line: a line with a `>`
      gives the text after its first `>`, a line without one gives
      nothing. */
  lemma {:induction false} QuotesByLine(lines: seq<string>)
    requires forall k :: 0 <= k < |lines| ==> '\n' !in lines[k]
    ensures Quotes(Join(lines, "\n")) == LineQuotes(lines)
  {
    if lines != [] {
      OneLine(lines[0]);
      if |lines| == 1 {
        assert LineQuotes(lines[1..]) == [];
      } else {
        JoinCons(lines[0], lines[1..], "\n");
        assert [lines[0]] + lines[1..] == lines;
        LineThen(lines[0], Join(lines[1..], "\n"));
        QuotesByLine(lines[1..]);
      }
    }
  }

  // ---------------------------------------------------------------------
  // The builder
  // ---------------------------------------------------------------------

  /** A quoted line as a paragraph of the quote. */
  function QuoteItem(q: string): (r: Result<Node>)
    ensures r.Ok? ==> WellFormed(r.value) && r.value.tag == Some("p")
  {
    TaggedText("p", q)
  }

  /** What `quote_block_to_html_node` returns: a single match is the quote
      itself; otherwise each match becomes a paragraph of it. */
  function QuoteBlock(b: string): (r: Result<Node>)
    ensures r.Ok? ==> WellFormed(r.value) && r.value.tag == Some("blockquote")
  {
    var quotes := Quotes(b);
    if |quotes| == 1 then TaggedText("blockquote", quotes[0])
    else
      var nodes :- MapResult(quotes, QuoteItem);
      assert forall k :: 0 <= k < |nodes| ==> WellFormed(nodes[k]) by {
        forall k | 0 <= k < |nodes| ensures WellFormed(nodes[k]) {
          assert QuoteItem(quotes[k]).Ok?;
        }
      }
      Ok(Parent(Some("blockquote"), Children(nodes), None))
  }

  /** The quote fails exactly when one of its matches fails to lex. With
      exactly one match, wherever it stands among the lines, the quote is
      the element over that match's text; with none or several, it has one
      paragraph per match, in order. */
  lemma QuoteParagraphs(b: string)
    ensures QuoteBlock(b).Ok? <==> forall k :: 0 <= k < |Quotes(b)| ==> QuoteItem(Quotes(b)[k]).Ok?
    ensures |Quotes(b)| == 1 ==> QuoteBlock(b) == TaggedText("blockquote", Quotes(b)[0])
    ensures |Quotes(b)| != 1 && QuoteBlock(b).Ok? ==>
      var nodes := QuoteBlock(b).value.children.nodes;
      |nodes| == |Quotes(b)| && forall k :: 0 <= k < |nodes| ==> nodes[k] == QuoteItem(Quotes(b)[k]).value
  {
    if |Quotes(b)| == 1 {
      OneMatch(b);
    } else {
      ManyMatches(b);
    }
  }

  /** A single match is the quote itself, and lexes as its paragraph would. */
  lemma OneMatch(b: string)
    requires |Quotes(b)| == 1
    ensures QuoteBlock(b) == TaggedText("blockquote", Quotes(b)[0])
    ensures QuoteBlock(b).Ok? <==> QuoteItem(Quotes(b)[0]).Ok?
  {
  }

  /** With none or several matches, one paragraph per match. */
  lemma ManyMatches(b: string)
    requires |Quotes(b)| != 1
    ensures QuoteBlock(b).Ok? <==> forall k :: 0 <= k < |Quotes(b)| ==> QuoteItem(Quotes(b)[k]).Ok?
    ensures QuoteBlock(b).Ok? ==>
      var nodes := QuoteBlock(b).value.children.nodes;
      |nodes| == |Quotes(b)| && forall k :: 0 <= k < |nodes| ==> nodes[k] == QuoteItem(Quotes(b)[k]).value
  {
  }

  /** `quote_block_to_html_node`. */
  method QuoteBlockToHtmlNode(b: string) returns (r: Result<Node>)
    ensures r == QuoteBlock(b)
  {
    var nodes: seq<Node> := [];
    var quotes := Quotes(b);
    if |quotes| == 1 {
      return TaggedText("blockquote", quotes[0]);
    }
    for i := 0 to |quotes|
      invariant MapResult(quotes[..i], QuoteItem) == Ok(nodes)
    {
      MapResultNext(quotes, QuoteItem, i, nodes);
      var node := QuoteItem(quotes[i]);
      if node.Err? {
        assert MapResult(quotes, QuoteItem).Err? by {
          assert !QuoteItem(quotes[i]).Ok?;
        }
        return Err;
      }
      nodes := nodes + [node.value];
    }
    assert quotes[..|quotes|] == quotes;
    return Ok(Parent(Some("blockquote"), Children(nodes), None));
  }

  /** A one-line quote, "> " and text, is the quote element over that
      text. */
  lemma SingleQuote(t: string)
    requires '\n' !in t
    ensures QuoteBlock("> " + t) == TaggedText("blockquote", t)
  {
    var line := "> " + t;
    OneLine(line);
    assert Captured(line) == 2;
  }
}
