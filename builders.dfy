/** The expression-level block builders of src/textnode.py: the leaf
    shortcut every builder shares (`text_to_children` followed by
    `ParentNode(tag, children) if children else LeafNode(tag, text)`),
    the heading, code and paragraph builders, and the list-of-results
    helper the loop builders are specified with. */
module Builders {
  import opened Wrappers
  import opened Strings
  import opened HtmlNode
  import opened TextNodes
  import opened Lexer
  import opened Blocks

  // ---------------------------------------------------------------------
  // The leaf shortcut
  // ---------------------------------------------------------------------

  /** The spans the leaf shortcut keeps as one raw leaf: none, or a
      single plain one. */
  predicate Plainly(nodes: seq<TextNode>)
  {
    nodes == [] || (|nodes| == 1 && nodes[0].kind == Text)
  }

  /** The HTML leaf of every span, in span order. */
  function Leaves(nodes: seq<TextNode>): (r: seq<Node>)
    ensures |r| == |nodes| && forall k :: 0 <= k < |r| ==> r[k] == TextNodeToHtmlNode(nodes[k])
  {
    seq(|nodes|, k requires 0 <= k < |nodes| => TextNodeToHtmlNode(nodes[k]))
  }

  /** A block element over `text`: a parent with one child per span, or,
      when the text stays one plain span or yields none, a leaf holding the
      raw text. `Err` when lexing the text fails. */
  function TaggedText(tag: string, text: string): (r: Result<Node>)
    ensures r.Ok? <==> TextToTextNodes(text).Ok?
    ensures r.Ok? ==> WellFormed(r.value) && r.value.tag == Some(tag) && r.value.props.None?
    ensures r.Ok? ==> (r.value.Leaf? <==> Plainly(TextToTextNodes(text).value))
    ensures r.Ok? && r.value.Leaf? ==> r.value.value == Some(text)
    ensures r.Ok? && r.value.Parent? ==> r.value.children == Children(Leaves(TextToTextNodes(text).value))
  {
    var children :- TextToChildren(text);
    if children.Some? && children.value != [] then Ok(Parent(Some(tag), Children(children.value), None))
    else Ok(Leaf(Some(tag), Some(text), None))
  }

  /** Text without `*`, a backtick or `[` becomes a leaf holding it, and
      renders as the text between the tags. */
  lemma PlainTagged(tag: string, text: string)
    requires '*' !in text && '`' !in text && '[' !in text
    ensures TaggedText(tag, text) == Ok(Leaf(Some(tag), Some(text), None))
    ensures ToHtml(TaggedText(tag, text).value) == Ok("<" + tag + ">" + text + "</" + tag + ">")
  {
    PlainText(text);
    assert PropsToHtml(None) == "";
  }

  /** `f` over every element, in order; `Err` as soon as one fails. */
  function MapResult(xs: seq<string>, f: string -> Result<Node>): (r: Result<seq<Node>>)
    ensures r.Ok? <==> forall k :: 0 <= k < |xs| ==> f(xs[k]).Ok?
    ensures r.Ok? ==> |r.value| == |xs| && forall k :: 0 <= k < |xs| ==> r.value[k] == f(xs[k]).value
  {
    if xs == [] then Ok([])
    else
      var init :- MapResult(xs[..|xs| - 1], f);
      var last :- f(xs[|xs| - 1]);
      Ok(init + [last])
  }

  /** One more element: the results so far and the new one's, or `Err`. */
  lemma MapResultNext(xs: seq<string>, f: string -> Result<Node>, i: nat, acc: seq<Node>)
    requires i < |xs| && MapResult(xs[..i], f) == Ok(acc)
    ensures MapResult(xs[..i + 1], f) == if f(xs[i]).Ok? then Ok(acc + [f(xs[i]).value]) else Err
  {
    assert xs[..i + 1][..i] == xs[..i];
  }

  // ---------------------------------------------------------------------
  // Headings
  // ---------------------------------------------------------------------

  /** `heading_block_to_html_node`: the level is the number of `#` in the
      whole block, and the text is the second piece of the split on that
      many `#` and a space; `Err` where there is no second piece. */
  function HeadingBlock(b: string): (r: Result<Node>)
    ensures r.Ok? ==> WellFormed(r.value) && r.value.tag == Some("h" + NatToString(CountChar(b, '#')))
  {
    var level := CountChar(b, '#');
    var pieces := Split(b, Repeat('#', level) + " ");
    if |pieces| < 2 then Err else TaggedText("h" + NatToString(level), pieces[1])
  }

  lemma {:induction false} CountCharAppend(a: string, b: string, c: char)
    ensures CountChar(a + b, c) == CountChar(a, c) + CountChar(b, c)
    decreases |a|
  {
    if a != [] {
      assert (a + b)[1..] == a[1..] + b;
      CountCharAppend(a[1..], b, c);
    } else {
      assert a + b == b;
    }
  }

  lemma {:induction false} CountRepeat(c: char, n: nat)
    ensures CountChar(Repeat(c, n), c) == n
  {
    if n > 0 {
      assert Repeat(c, n)[1..] == Repeat(c, n - 1);
      CountRepeat(c, n - 1);
    }
  }

  /** A heading whose text holds no `#` gets the level of its leading
      run and that text. */
  lemma HeadingOf(n: nat, t: string)
    requires 1 <= n && '#' !in t
    ensures HeadingBlock(Repeat('#', n) + " " + t) == TaggedText("h" + NatToString(n), t)
  {
    var sep := Repeat('#', n) + " ";
    var b := sep + t;
    assert CountChar(b, '#') == n by {
      CountAbsent(t, '#');
      CountCharAppend(sep, t, '#');
      CountCharAppend(Repeat('#', n), " ", '#');
      CountRepeat('#', n);
    }
    assert Split(b, sep) == [""] + Split(t, sep) by {
      assert b[..|sep|] == sep;
      FindFirst(b, sep, 0);
      assert b[|sep|..] == t;
    }
    assert Split(t, sep) == [t] by {
      CharAbsent(t, sep);
    }
  }

  /** A `#` inside the text raises the level past the leading run, and
      the split on that many `#` and a space then finds no separator: the
      builder fails for every such heading. */
  lemma HashInText(n: nat, t: string)
    requires 1 <= n && '#' in t
    ensures HeadingBlock(Repeat('#', n) + " " + t).Err?
  {
    var lead := Repeat('#', n) + " ";
    var b := lead + t;
    var m := CountChar(b, '#');
    assert m > n by {
      CountAbsent(t, '#');
      CountCharAppend(lead, t, '#');
      CountCharAppend(Repeat('#', n), " ", '#');
      CountRepeat('#', n);
    }
    assert b[0] == '#' && b[n] == ' ';
    var sep := Repeat('#', m) + " ";
    assert !Contains(b, sep) by {
      forall i: nat | i <= |b| ensures !OccursAt(b, sep, i) {
        RunNotFound(b, m, n, i);
      }
    }
  }

  /** A run of `m` hashes and a space cannot stand in a block that holds
      exactly `m` hashes when one of them opens the block and a non-hash
      follows the first `n` of them. */
  lemma RunNotFound(b: string, m: nat, n: nat, i: nat)
    requires 1 <= n < m && n < |b| && b[0] == '#' && b[n] != '#' && CountChar(b, '#') == m
    ensures !OccursAt(b, Repeat('#', m) + " ", i)
  {
    if i == 0 {
      RunNotAtStart(b, m, n);
    } else {
      var sep := Repeat('#', m) + " ";
      assert CountChar(sep[..m], '#') == m by {
        assert sep[..m] == Repeat('#', m);
        CountRepeat('#', m);
      }
      RunNotLater(b, sep, i);
    }
  }

  /** At the start the run would cover index `n`, which is no hash. */
  lemma RunNotAtStart(b: string, m: nat, n: nat)
    requires n < m && n < |b| && b[n] != '#'
    ensures !OccursAt(b, Repeat('#', m) + " ", 0)
  {
    var sep := Repeat('#', m) + " ";
    assert sep[n] == '#';
    assert |b| < m + 1 || b[..m + 1][n] != sep[n];
  }

  /** Past the start a separator whose head counts as many hashes as the
      whole block would leave out the opening hash, so it cannot occur. */
  lemma RunNotLater(b: string, sep: string, i: nat)
    requires 0 < i && 0 < |b| && b[0] == '#'
    requires 0 < |sep| && CountChar(sep[..|sep| - 1], '#') == CountChar(b, '#')
    ensures !OccursAt(b, sep, i)
  {
    if i + |sep| <= |b| {
      FewerThanHead(b, sep, i, i + |sep| - 1, |sep| - 1);
      WindowDiffers(b, sep, i, |sep| - 1);
    }
  }

  /** The window of `b` at `i` differs from `sep` when its first `h`
      characters count fewer hashes than the first `h` of `sep`. */
  lemma WindowDiffers(b: string, sep: string, i: nat, h: nat)
    requires h < |sep| && i + |sep| <= |b|
    requires CountChar(b[i..i + h], '#') < CountChar(sep[..h], '#')
    ensures b[i..i + |sep|] != sep
  {
    SliceHead(b, i, i + |sep|, h);
    PrefixDiffers(b[i..i + |sep|], sep, h, b[i..i + h]);
  }

  /** A window past the opening hash counts fewer hashes than a head of
      `sep` that counts as many as the whole block. */
  lemma FewerThanHead(b: string, sep: string, i: nat, j: nat, h: nat)
    requires 0 < i <= j <= |b| && b[0] == '#' && h <= |sep|
    requires CountChar(sep[..h], '#') == CountChar(b, '#')
    ensures CountChar(b[i..j], '#') < CountChar(sep[..h], '#')
  {
    CountLater(b, i, j, '#');
  }

  /** The first `h` characters of a slice are the shorter slice. */
  lemma SliceHead(b: string, i: nat, j: nat, h: nat)
    requires i + h <= j <= |b|
    ensures b[i..j][..h] == b[i..i + h]
  {
  }

  /** A string whose first `h` characters are `p` differs from `sep` when
      `p` counts fewer hashes than `sep`'s first `h`. */
  lemma PrefixDiffers(w: string, sep: string, h: nat, p: string)
    requires h <= |w| && h <= |sep|
    requires w[..h] == p
    requires CountChar(p, '#') < CountChar(sep[..h], '#')
    ensures w != sep
  {
  }

  /** A window that leaves out the first character, when that character
      is `c`, counts fewer `c` than the whole. */
  lemma CountLater(s: string, i: nat, j: nat, c: char)
    requires 0 < i <= j <= |s| && s[0] == c
    ensures CountChar(s[i..j], c) < CountChar(s, c)
  {
    CountWindow(s, i, j, c);
    assert s[..i][0] == c;
  }

  /** The count over `s` is the count before, inside and after a window. */
  lemma CountWindow(s: string, i: nat, j: nat, c: char)
    requires i <= j <= |s|
    ensures CountChar(s, c) == CountChar(s[..i], c) + CountChar(s[i..j], c) + CountChar(s[j..], c)
  {
    assert s[i..] == s[i..j] + s[j..];
    CountCharAppend(s[i..j], s[j..], c);
    assert s == s[..i] + s[i..];
    CountCharAppend(s[..i], s[i..], c);
  }

  // ---------------------------------------------------------------------
  // Code blocks
  // ---------------------------------------------------------------------

  /** The end of the run of word characters in `s` from index `i`. */
  function WordEnd(s: string, i: nat): (j: nat)
    requires i <= |s|
    ensures i <= j <= |s| && (j == |s| || !IsWordChar(s[j]))
    ensures forall k :: i <= k < j ==> IsWordChar(s[k])
    decreases |s| - i
  {
    if i < |s| && IsWordChar(s[i]) then WordEnd(s, i + 1) else i
  }

  /** The groups of the first match of `(```)?(\w*)([\S\s]*)(```)`:
      whether the opening fence was taken, the language and the code. */
  datatype CodeMatch = CodeMatch(fenced: bool, lang: string, code: string)

  function Opening(m: CodeMatch): string
  {
    if m.fenced then Fence else ""
  }

  /** The first match of the code pattern. It starts at index 0 whenever
      the block holds a fence at all. The opening group is taken when the
      block starts with a fence and another fence follows it; the language
      is then the longest run of word characters; the code runs to the
      last fence (the greedy `[\S\s]*` gives back only up to it). */
  function CodeGroups(b: string): (r: Option<CodeMatch>)
    ensures r.Some? <==> Contains(b, Fence)
    ensures r.Some? ==> b[..FindLast(b, Fence).value] == Opening(r.value) + r.value.lang + r.value.code
    ensures r.Some? ==> (r.value.fenced <==> StartsWith(b, Fence) && FindLast(b, Fence).value >= 3)
    ensures r.Some? ==> forall k :: 0 <= k < |r.value.lang| ==> IsWordChar(r.value.lang[k])
    ensures r.Some? ==> r.value.code == "" || !IsWordChar(r.value.code[0])
  {
    match FindLast(b, Fence)
    case None => None
    case Some(last) =>
      var fenced := StartsWith(b, Fence) && last >= 3;
      var start := if fenced then 3 else 0;
      var e := WordEnd(b, start);
      assert start <= last by {
        assert !IsWordChar(b[last]) by {
          assert b[last..last + 3][0] == b[last];
        }
      }
      assert e <= last by {
        assert b[last..last + 3][0] == b[last];
      }
      assert b[..last] == b[..start] + b[start..e] + b[e..last];
      Some(CodeMatch(fenced, b[start..e], b[e..last]))
  }

  /** The props of the `code` leaf: a class naming the language, if any. */
  function LanguageProps(lang: string): Option<Props>
  {
    if lang != "" then Some([("class", "language-" + lang)]) else None
  }

  /** `code_block_to_html_node`: a `pre` parent around one `code` leaf
      holding the code without its leading newlines; `Err` where the
      pattern finds nothing. */
  function CodeBlockNode(b: string): (r: Result<Node>)
    ensures r.Ok? <==> Contains(b, Fence)
    ensures r.Ok? ==> WellFormed(r.value) && r.value.tag == Some("pre")
  {
    match CodeGroups(b)
    case None => Err
    case Some(m) =>
      var code := StripLeftChar(m.code, '\n');
      Ok(Parent(Some("pre"), Children([Leaf(Some("code"), Some(code), LanguageProps(m.lang))]), None))
  }

  /** The run of word characters from `i` to `k` that ends before a
      character of another kind is the whole run. */
  lemma {:induction false} WordPrefix(s: string, i: nat, k: nat)
    requires i <= k < |s| && !IsWordChar(s[k]) && forall j :: i <= j < k ==> IsWordChar(s[j])
    ensures WordEnd(s, i) == k
    decreases k - i
  {
    if i < k {
      assert IsWordChar(s[i]);
      WordPrefix(s, i + 1, k);
    }
  }

  /** A block fenced on both sides, its language a run of word characters
      and its code not starting with a word character, yields that
      language and that code, even when the code holds fences of its own
      (the code group runs greedily up to the last fence): the tests'
      "```print('Hello world!')```" has language `print`. */
  lemma FencedCode(lang: string, code: string)
    requires forall k :: 0 <= k < |lang| ==> IsWordChar(lang[k])
    requires code == "" || !IsWordChar(code[0])
    ensures CodeGroups(Fence + lang + code + Fence) == Some(CodeMatch(true, lang, code))
  {
    var b := Fence + lang + code + Fence;
    var last := |b| - 3;
    assert FindLast(b, Fence) == Some(last) by {
      assert OccursAt(b, Fence, last) by {
        assert b[last..last + 3] == Fence;
      }
      assert FindLastFrom(b, Fence, |b|) == Some(last) by {
        assert !OccursAt(b, Fence, |b|);
        assert forall j :: last < j <= |b| ==> !OccursAt(b, Fence, j);
        LastFrom(b, last, |b|);
      }
    }
    assert StartsWith(b, Fence) by {
      assert b[..3] == Fence;
    }
    assert WordEnd(b, 3) == 3 + |lang| by {
      assert forall j :: 3 <= j < 3 + |lang| ==> b[j] == lang[j - 3];
      assert b[3 + |lang|] == (code + Fence)[0];
      WordPrefix(b, 3, 3 + |lang|);
    }
    assert b[3..3 + |lang|] == lang;
    assert b[3 + |lang|..last] == code;
  }

  /** A search backwards from `i` with no occurrence after `last` finds
      the one at `last`. */
  lemma {:induction false} LastFrom(s: string, last: nat, i: nat)
    requires last <= i && OccursAt(s, Fence, last)
    requires forall j :: last < j <= i ==> !OccursAt(s, Fence, j)
    ensures FindLastFrom(s, Fence, i) == Some(last)
    decreases i - last
  {
    if i > last {
      LastFrom(s, last, i - 1);
    }
  }

  /** The fenced code keeps the newline before the closing fence, loses
      every leading newline, and gets a class only with a language. */
  lemma FencedCodeNode(lang: string, code: string)
    requires forall k :: 0 <= k < |lang| ==> IsWordChar(lang[k])
    requires code == "" || !IsWordChar(code[0])
    ensures CodeBlockNode(Fence + lang + code + Fence)
         == Ok(Parent(Some("pre"), Children([Leaf(Some("code"), Some(StripLeftChar(code, '\n')), LanguageProps(lang))]), None))
  {
    FencedCode(lang, code);
  }

  // ---------------------------------------------------------------------
  // Paragraphs
  // ---------------------------------------------------------------------

  /** `paragraph_block_to_html_node`: the leaf shortcut under `p`, over
      the whole block, its newlines included. */
  function ParagraphBlock(b: string): (r: Result<Node>)
    ensures r.Ok? <==> TextToTextNodes(b).Ok?
    ensures r.Ok? ==> WellFormed(r.value) && r.value.tag == Some("p")
  {
    TaggedText("p", b)
  }
}
