/** The delimiter passes of the inline lexer of src/textnode.py
    (`split_nodes_delimiter`, run for `**`, `*` and a backtick). */
module Delimiters {
  import opened Wrappers
  import opened Strings
  import opened TextNodes
  import opened Seqs

  // ---------------------------------------------------------------------
  // split_nodes_delimiter
  // ---------------------------------------------------------------------

  /** The node one piece of a split gives: none when it is empty, else a
      plain span at an even position and a `kind` span at an odd one. */
  function PieceNode(piece: string, odd: bool, kind: TextType): seq<TextNode>
  {
    if piece == "" then [] else [TextNode(piece, if odd then kind else Text, None)]
  }

  /** The nodes of consecutive pieces, the first at parity `odd`. */
  function PieceNodes(pieces: seq<string>, odd: bool, kind: TextType): seq<TextNode>
  {
    if pieces == [] then [] else PieceNode(pieces[0], odd, kind) + PieceNodes(pieces[1..], !odd, kind)
  }

  lemma {:induction false} PieceNodesAppend(pieces: seq<string>, odd: bool, kind: TextType, p: string)
    ensures PieceNodes(pieces + [p], odd, kind)
         == PieceNodes(pieces, odd, kind) + PieceNode(p, odd != (|pieces| % 2 == 1), kind)
  {
    if pieces != [] {
      assert (pieces + [p])[1..] == pieces[1..] + [p];
      PieceNodesAppend(pieces[1..], !odd, kind, p);
    } else {
      assert [p][1..] == [];
    }
  }

  /** A plain span whose text splits into an even number of pieces, i.e.
      holds an odd number of delimiters. */
  predicate Unbalanced(node: TextNode, d: string)
    requires |d| > 0
  {
    node.kind == Text && |Split(node.text, d)| % 2 == 0
  }

  /** What the pass does to one node. */
  function SplitText(node: TextNode, d: string, kind: TextType): Result<seq<TextNode>>
    requires |d| > 0
  {
    if node.kind != Text then Ok([node])
    else if Unbalanced(node, d) then Err
    else Ok(PieceNodes(Split(node.text, d), false, kind))
  }

  /** What `split_nodes_delimiter(nodes, d, kind)` returns. */
  function SplitDelimiter(nodes: seq<TextNode>, d: string, kind: TextType): Result<seq<TextNode>>
    requires |d| > 0
  {
    if nodes == [] then Ok([])
    else
      var init :- SplitDelimiter(nodes[..|nodes| - 1], d, kind);
      var last :- SplitText(nodes[|nodes| - 1], d, kind);
      Ok(init + last)
  }

  /** The pass fails exactly when some plain span holds an odd number of
      delimiters. */
  lemma {:induction false} DelimiterFailure(nodes: seq<TextNode>, d: string, kind: TextType)
    requires |d| > 0
    ensures SplitDelimiter(nodes, d, kind).Err?
        <==> exists k :: 0 <= k < |nodes| && Unbalanced(nodes[k], d)
  {
    if nodes != [] {
      var init := nodes[..|nodes| - 1];
      DelimiterFailure(init, d, kind);
      assert forall k :: 0 <= k < |init| ==> init[k] == nodes[k];
    }
  }

  /** A plain span without the delimiter comes through as it went in, or
      not at all when its text is empty. */
  lemma AbsentKeeps(s: string, d: string, kind: TextType)
    requires |d| > 0 && !Contains(s, d)
    ensures SplitDelimiter([TextNode(s, Text, None)], d, kind) == Ok(PieceNode(s, false, kind))
  {
    var node := TextNode(s, Text, None);
    assert Split(s, d) == [s] by {
      assert Find(s, d).None?;
    }
    assert PieceNodes([s], false, kind) == PieceNode(s, false, kind) by {
      assert [s][1..] == [];
      assert PieceNode(s, false, kind) + [] == PieceNode(s, false, kind);
    }
    assert SplitText(node, d, kind) == Ok(PieceNode(s, false, kind));
    SplitDelimiterOne(node, d, kind);
  }

  /** The pass over one node is what it does to that node. */
  lemma SplitDelimiterOne(node: TextNode, d: string, kind: TextType)
    requires |d| > 0
    ensures SplitDelimiter([node], d, kind) == SplitText(node, d, kind)
  {
    assert [node][..0] == [];
    if SplitText(node, d, kind).Ok? {
      assert [] + SplitText(node, d, kind).value == SplitText(node, d, kind).value;
    }
  }

  /** A span the pass leaves as it is: not plain, or plain, not empty,
      without url and free of the delimiter's first character. */
  predicate Untouched(n: TextNode, c: char)
  {
    n.kind != Text || (n.text != "" && c !in n.text && n.url == None)
  }

  /** A pass over spans it leaves as they are returns them unchanged. */
  lemma {:induction false} DelimiterAbsent(nodes: seq<TextNode>, d: string, kind: TextType)
    requires |d| > 0
    requires forall k :: 0 <= k < |nodes| ==> Untouched(nodes[k], d[0])
    ensures SplitDelimiter(nodes, d, kind) == Ok(nodes)
  {
    if nodes != [] {
      var init, last := nodes[..|nodes| - 1], nodes[|nodes| - 1];
      DelimiterAbsent(init, d, kind);
      KeptOne(last, d, kind);
      assert init + [last] == nodes;
    }
  }

  /** The pass leaves such a span as it is. */
  lemma KeptOne(n: TextNode, d: string, kind: TextType)
    requires |d| > 0 && Untouched(n, d[0])
    ensures SplitText(n, d, kind) == Ok([n])
  {
    if n.kind == Text {
      SplitNone(n.text, d);
      assert PieceNodes([n.text], false, kind) == [n] by {
        assert [n.text][1..] == [];
      }
    }
  }

  /** `split_nodes_delimiter`. */
  method SplitNodesDelimiter(oldNodes: seq<TextNode>, delimiter: string, textType: TextType)
    returns (r: Result<seq<TextNode>>)
    requires |delimiter| > 0
    ensures r == SplitDelimiter(oldNodes, delimiter, textType)
  {
    var newNodes: seq<TextNode> := [];
    for j := 0 to |oldNodes|
      invariant SplitDelimiter(oldNodes[..j], delimiter, textType) == Ok(newNodes)
    {
      var node := oldNodes[j];
      assert oldNodes[..j + 1][..j] == oldNodes[..j];
      if node.kind != Text {
        newNodes := newNodes + [node];
        continue;
      }
      var splited := Split(node.text, delimiter);
      if |splited| % 2 == 0 {
        DelimiterFailure(oldNodes, delimiter, textType);
        return Err;
      }
      var newText: seq<TextNode> := [];
      for i := 0 to |splited|
        invariant newText == PieceNodes(splited[..i], false, textType)
      {
        assert splited[..i + 1] == splited[..i] + [splited[i]];
        PieceNodesAppend(splited[..i], false, textType, splited[i]);
        if splited[i] == "" {
          continue;
        }
        newText := newText + [TextNode(splited[i], if i % 2 == 0 then node.kind else textType, None)];
      }
      assert splited[..|splited|] == splited;
      newNodes := newNodes + newText;
    }
    assert oldNodes[..|oldNodes|] == oldNodes;
    return Ok(newNodes);
  }

  // A reference reading of the pass on one span ------------------------

  /** The pass read one character at a time: walk the text, cut it at each
      delimiter, switch between plain and `kind` at every cut, drop empty
      runs, and fail when the text ends inside a delimited run. */
  function Toggle(s: string, d: string, kind: TextType, odd: bool, acc: string): Result<seq<TextNode>>
    requires |d| > 0
    decreases |s|
  {
    if |s| < |d| then
      if odd then Err else Ok(PieceNode(acc + s, false, kind))
    else if OccursAt(s, d, 0) then
      var rest :- Toggle(s[|d|..], d, kind, !odd, "");
      Ok(PieceNode(acc, odd, kind) + rest)
    else
      Toggle(s[1..], d, kind, odd, acc + [s[0]])
  }

  lemma {:induction false} ToggleSkip(s: string, d: string, kind: TextType, odd: bool, acc: string, i: nat)
    requires |d| > 0 && i <= |s|
    requires forall j: nat :: j < i ==> !OccursAt(s, d, j)
    ensures Toggle(s, d, kind, odd, acc) == Toggle(s[i..], d, kind, odd, acc + s[..i])
    decreases i
  {
    if i > 0 && |s| >= |d| {
      forall j: nat | j < i - 1 ensures !OccursAt(s[1..], d, j) {
        OccursShift(s, d, j);
      }
      ToggleSkip(s[1..], d, kind, odd, acc + [s[0]], i - 1);
      assert s[1..][i - 1..] == s[i..];
      assert acc + [s[0]] + s[1..][..i - 1] == acc + s[..i];
    } else if i > 0 {
      assert |s[i..]| < |d|;
      assert acc + s[..i] + s[i..] == acc + s;
      assert Toggle(s[i..], d, kind, odd, acc + s[..i])
          == if odd then Err else Ok(PieceNode(acc + s[..i] + s[i..], false, kind));
    } else {
      assert s[0..] == s && acc + s[..0] == acc;
    }
  }

  /** At a delimiter the current run ends and the parity flips. */
  lemma ToggleCut(s: string, d: string, kind: TextType, odd: bool, acc: string)
    requires |d| > 0 && OccursAt(s, d, 0)
    ensures Toggle(s, d, kind, odd, acc) == Prepend(PieceNode(acc, odd, kind), Toggle(s[|d|..], d, kind, !odd, ""))
  {
  }

  /** Pieces numbered from parity `odd` end on an odd (delimited) piece. */
  predicate EndsInside(odd: bool, pieces: nat)
  {
    odd != (pieces % 2 == 0)
  }

  /** What the pass makes of pieces numbered from parity `odd`. */
  function Expected(pieces: seq<string>, odd: bool, kind: TextType): Result<seq<TextNode>>
  {
    if EndsInside(odd, |pieces|) then Err else Ok(PieceNodes(pieces, odd, kind))
  }

  /** `first` in front of a successful result; a failure stays one. */
  function Prepend(first: seq<TextNode>, r: Result<seq<TextNode>>): Result<seq<TextNode>>
  {
    match r
    case Err => Err
    case Ok(rest) => Ok(first + rest)
  }

  lemma ExpectedCons(p: string, ps: seq<string>, odd: bool, kind: TextType)
    ensures Expected([p] + ps, odd, kind) == Prepend(PieceNode(p, odd, kind), Expected(ps, !odd, kind))
  {
    assert ([p] + ps)[1..] == ps;
  }

  lemma {:induction false} ToggleSplit(s: string, d: string, kind: TextType, odd: bool)
    requires |d| > 0
    ensures Toggle(s, d, kind, odd, "") == Expected(Split(s, d), odd, kind)
    decreases |s|, 1
  {
    var f := Find(s, d);
    if f.None? {
      ToggleWhole(s, d, kind, odd);
    } else {
      ToggleSplitAt(s, d, kind, odd, f.value);
    }
  }

  /** A text without a delimiter is one run. */
  lemma ToggleWhole(s: string, d: string, kind: TextType, odd: bool)
    requires |d| > 0 && Find(s, d).None?
    ensures Toggle(s, d, kind, odd, "") == Expected(Split(s, d), odd, kind)
  {
    ToggleSkip(s, d, kind, odd, "", |s|);
    assert s[|s|..] == [] && "" + s[..|s|] == s && s + [] == s;
    assert Toggle(s, d, kind, odd, "") == Toggle([], d, kind, odd, s);
    assert Split(s, d) == [s];
    assert PieceNodes([s], odd, kind) == PieceNode(s, odd, kind);
  }

  lemma {:induction false} ToggleSplitAt(s: string, d: string, kind: TextType, odd: bool, i: nat)
    requires |d| > 0 && Find(s, d) == Some(i)
    ensures Toggle(s, d, kind, odd, "") == Expected(Split(s, d), odd, kind)
    decreases |s|, 0
  {
    var rest := s[i + |d|..];
    ToggleFirstCut(s, d, kind, odd, i);
    ToggleSplit(rest, d, kind, !odd);
    SplitAtFirst(s, d, i);
    ExpectedCons(s[..i], Split(rest, d), odd, kind);
  }

  /** Up to the first delimiter the text is one run. */
  lemma ToggleFirstCut(s: string, d: string, kind: TextType, odd: bool, i: nat)
    requires |d| > 0 && Find(s, d) == Some(i)
    ensures Toggle(s, d, kind, odd, "")
         == Prepend(PieceNode(s[..i], odd, kind), Toggle(s[i + |d|..], d, kind, !odd, ""))
  {
    ToggleSkip(s, d, kind, odd, "", i);
    assert "" + s[..i] == s[..i];
    assert OccursAt(s[i..], d, 0) by { assert s[i..][..|d|] == s[i..i + |d|]; }
    assert s[i..][|d|..] == s[i + |d|..];
    ToggleCut(s[i..], d, kind, odd, s[..i]);
  }

  /** On a plain span the pass is the character-at-a-time reading. */
  lemma DelimiterIsToggle(node: TextNode, d: string, kind: TextType)
    requires |d| > 0 && node.kind == Text
    ensures SplitText(node, d, kind) == Toggle(node.text, d, kind, false, "")
  {
    ToggleSplit(node.text, d, kind, false);
  }

  // What the pass keeps and what it produces ---------------------------

  /** The spans whose kind is neither plain nor `kind`: the ones a pass
      producing `kind` must leave alone. */
  function Others(ns: seq<TextNode>, kind: TextType): seq<TextNode>
  {
    if ns == [] then [] else Other(ns[0], kind) + Others(ns[1..], kind)
  }

  /** The span itself when it is of a third kind, else nothing. */
  function Other(n: TextNode, kind: TextType): seq<TextNode>
  {
    if n.kind == Text || n.kind == kind then [] else [n]
  }

  lemma OthersCons(n: TextNode, ns: seq<TextNode>, kind: TextType)
    ensures Others([n] + ns, kind) == Other(n, kind) + Others(ns, kind)
  {
    assert ([n] + ns)[1..] == ns;
  }

  lemma {:induction false} OthersAppend(xs: seq<TextNode>, ys: seq<TextNode>, kind: TextType)
    ensures Others(xs + ys, kind) == Others(xs, kind) + Others(ys, kind)
  {
    if xs != [] {
      OthersAppend(xs[1..], ys, kind);
      ConsAppend(xs, ys);
      OthersCons(xs[0], xs[1..] + ys, kind);
      OthersCons(xs[0], xs[1..], kind);
      Assoc(Other(xs[0], kind), Others(xs[1..], kind), Others(ys, kind));
    } else {
      assert xs + ys == ys;
    }
  }

  /** The spans cut from one text are non-empty, carry no url, are plain
      or `kind`, and together spell the pieces in order. */
  lemma {:induction false} PieceNodesShape(pieces: seq<string>, odd: bool, kind: TextType)
    ensures forall n :: n in PieceNodes(pieces, odd, kind) ==>
      n.text != "" && n.url.None? && (n.kind == Text || n.kind == kind)
    ensures Content(PieceNodes(pieces, odd, kind)) == Concat(pieces)
    ensures Others(PieceNodes(pieces, odd, kind), kind) == []
  {
    if pieces != [] {
      PieceNodesShape(pieces[1..], !odd, kind);
      var first := PieceNode(pieces[0], odd, kind);
      var rest := PieceNodes(pieces[1..], !odd, kind);
      ContentAppend(first, rest);
      OthersAppend(first, rest, kind);
    }
  }

  /** The texts a successful pass reads: a plain span's text with every
      delimiter deleted, any other span's text as it is. */
  function Removed(nodes: seq<TextNode>, d: string): string
    requires |d| > 0
  {
    if nodes == [] then ""
    else
      var last := nodes[|nodes| - 1];
      Removed(nodes[..|nodes| - 1], d) + (if last.kind == Text then RemoveAll(last.text, d) else last.text)
  }

  /** A successful pass loses no text but the delimiters. */
  lemma {:induction false} DelimiterPassContent(nodes: seq<TextNode>, d: string, kind: TextType)
    requires |d| > 0 && SplitDelimiter(nodes, d, kind).Ok?
    ensures Content(SplitDelimiter(nodes, d, kind).value) == Removed(nodes, d)
  {
    if nodes != [] {
      var init, last := nodes[..|nodes| - 1], nodes[|nodes| - 1];
      DelimiterPassContent(init, d, kind);
      var before := SplitDelimiter(init, d, kind).value;
      var after := SplitText(last, d, kind).value;
      assert SplitDelimiter(nodes, d, kind).value == before + after;
      ContentAppend(before, after);
      if last.kind == Text {
        PieceNodesShape(Split(last.text, d), false, kind);
        ConcatSplit(last.text, d);
      } else {
        assert Content([last]) == last.text;
      }
    }
  }

  /** A successful pass hands every span of a third kind through
      unchanged and in order. */
  lemma {:induction false} DelimiterPassOthers(nodes: seq<TextNode>, d: string, kind: TextType)
    requires |d| > 0 && SplitDelimiter(nodes, d, kind).Ok?
    ensures Others(SplitDelimiter(nodes, d, kind).value, kind) == Others(nodes, kind)
  {
    if nodes != [] {
      var init, last := nodes[..|nodes| - 1], nodes[|nodes| - 1];
      assert nodes == init + [last];
      DelimiterPassOthers(init, d, kind);
      var before := SplitDelimiter(init, d, kind).value;
      var after := SplitText(last, d, kind).value;
      assert SplitDelimiter(nodes, d, kind).value == before + after;
      OthersAppend(before, after, kind);
      OthersAppend(init, [last], kind);
      if last.kind == Text {
        PieceNodesShape(Split(last.text, d), false, kind);
      }
    }
  }
}
