/** What `re.findall` and the image and link passes of src/textnode.py
    make of a text laid out as plain stretches and literals: each
    literal whose groups hold no newline, no `]` in the first and no `)`
    in the second is found exactly, with its own two groups, and in
    order. */
module Matches {
  import opened Wrappers
  import opened Strings
  import opened TextNodes
  import opened Seqs
  import opened Patterns

  // ---------------------------------------------------------------------
  // Exact hits
  // ---------------------------------------------------------------------

  /** The second group ends at the first `)`, when no newline comes first. */
  lemma {:induction false} CloseAt(s: string, q: nat, k: nat)
    requires q <= k < |s| && s[k] == ')'
    requires ')' !in s[q..k] && '\n' !in s[q..k]
    ensures CloseFrom(s, q) == Some(k)
    decreases k - q
  {
    if q < k {
      assert s[q] == s[q..k][0];
      assert s[q + 1..k] == s[q..k][1..];
      CloseAt(s, q + 1, k);
    }
  }

  /** The first group ends at the first `]`, when a `(` and a reachable
      `)` follow it and no newline comes first. */
  lemma {:induction false} LabelAt(s: string, j: nat, e: nat)
    requires j <= e && BracketAt(s, e) && CloseFrom(s, e + 2).Some?
    requires ']' !in s[j..e] && '\n' !in s[j..e]
    ensures LabelFrom(s, j) == Some((e, CloseFrom(s, e + 2).value))
    decreases e - j
  {
    if j < e {
      assert s[j] == s[j..e][0];
      assert s[j + 1..e] == s[j..e][1..];
      LabelAt(s, j + 1, e);
    }
  }

  /** The groups of a literal hold no newline, the first no `]` and the
      second no `)`. */
  predicate CleanGroups(alt: string, url: string)
  {
    '\n' !in alt && ']' !in alt && '\n' !in url && ')' !in url
  }

  /** The hit a literal of clean groups spelled at `i` makes: its first
      group ends right after `alt`, its second right after `url`. */
  function HitOf(p: Pattern, i: nat, alt: string, url: string): Hit
  {
    Hit(i, i + OpenLen(p) + |alt|, i + OpenLen(p) + |alt| + 2 + |url|)
  }

  /** Wherever the literal of clean groups is spelled, the pattern matches
      it and nothing shorter or longer, and gives back those groups. */
  lemma LiteralHit(p: Pattern, s: string, i: nat, alt: string, url: string)
    requires OccursAt(s, Literal(p, alt, url), i) && CleanGroups(alt, url)
    ensures MatchAt(p, s, i) == Some(HitOf(p, i, alt, url))
    ensures AltOf(p, s, HitOf(p, i, alt, url)) == alt && UrlOf(p, s, HitOf(p, i, alt, url)) == url
    ensures End(HitOf(p, i, alt, url)) == i + |Literal(p, alt, url)|
  {
    LiteralParts(p, alt, url);
    LiteralOpens(p, s, i, alt, url);
    LiteralCloses(p, s, i, alt, url);
    LiteralGroups(p, s, i, alt, url);
    HitMatches(p, s, HitOf(p, i, alt, url), alt, url);
  }

  /** Where the opener, the `](` and the `)` of a hit stand and its groups
      are clean, the pattern matches exactly that hit. */
  lemma HitMatches(p: Pattern, s: string, h: Hit, alt: string, url: string)
    requires Fits(p, s, h) && OpensAt(p, s, h.at) && BracketAt(s, h.bracket) && s[h.close] == ')'
    requires AltOf(p, s, h) == alt && UrlOf(p, s, h) == url && CleanGroups(alt, url)
    ensures MatchAt(p, s, h.at) == Some(h)
  {
    assert CloseFrom(s, h.bracket + 2) == Some(h.close) by {
      assert s[h.bracket + 2..h.close] == url;
      CloseAt(s, h.bracket + 2, h.close);
    }
    assert LabelFrom(s, h.at + OpenLen(p)) == Some((h.bracket, h.close)) by {
      assert s[h.at + OpenLen(p)..h.bracket] == alt;
      LabelAt(s, h.at + OpenLen(p), h.bracket);
    }
  }

  /** The groups of the hit are the literal's. */
  lemma LiteralGroups(p: Pattern, s: string, i: nat, alt: string, url: string)
    requires OccursAt(s, Literal(p, alt, url), i)
    ensures Fits(p, s, HitOf(p, i, alt, url))
    ensures AltOf(p, s, HitOf(p, i, alt, url)) == alt && UrlOf(p, s, HitOf(p, i, alt, url)) == url
  {
    LiteralCloses(p, s, i, alt, url);
    LiteralAlt(p, s, i, alt, url);
    LiteralUrl(p, s, i, alt, url);
  }

  // ---------------------------------------------------------------------
  // Plain stretches
  // ---------------------------------------------------------------------

  /** Within a stretch without `[` the pattern does not match, when the
      image pattern cannot borrow a `[` from just after the stretch. */
  lemma GapNoMatch(p: Pattern, s: string, a: nat, b: nat, x: nat)
    requires a <= x < b <= |s|
    requires forall y | a <= y < b :: s[y] != '['
    requires p == ImagePattern && b < |s| ==> s[b] != '['
    ensures MatchAt(p, s, x).None?
  {
  }

  /** The search skips positions where the pattern does not match. */
  lemma {:induction false} FirstFromSkips(p: Pattern, s: string, i: nat, j: nat)
    requires i <= j <= |s|
    requires forall x | i <= x < j :: MatchAt(p, s, x).None?
    ensures FirstFrom(p, s, i) == FirstFrom(p, s, j)
    decreases j - i
  {
    if i < j {
      FirstFromSkips(p, s, i + 1, j);
    }
  }

  /** A suffix without `[` holds no match. */
  lemma ScanPlain(p: Pattern, s: string, pos: nat)
    requires pos <= |s| && '[' !in s[pos..]
    ensures Scan(p, s, pos) == []
  {
    forall x | pos <= x < |s|
      ensures MatchAt(p, s, x).None?
    {
      assert s[x] == s[pos..][x - pos];
      if x + 1 < |s| {
        assert s[x + 1] == s[pos..][x + 1 - pos];
      }
    }
    FirstFromSkips(p, s, pos, |s|);
  }

  /** Where a suffix of `s` is laid out as `g`, `lit` and `t`, each of
      them stands at its place in `s`. */
  lemma InSuffix(s: string, pos: nat, g: string, lit: string, t: string)
    requires pos <= |s| && s[pos..] == g + lit + t
    ensures OccursAt(s, lit, pos + |g|)
    ensures s[pos..pos + |g|] == g && s[pos + |g| + |lit|..] == t
  {
    var i := pos + |g|;
    assert s[i..i + |lit|] == s[pos..][|g|..|g| + |lit|];
    assert s[pos..i] == s[pos..][..|g|];
    assert s[i + |lit|..] == s[pos..][|g| + |lit|..];
  }

  /** The search passes over a stretch without `[` that a match of the
      pattern follows. */
  lemma GapSkips(p: Pattern, s: string, pos: nat, g: string)
    requires pos + |g| <= |s| && s[pos..pos + |g|] == g && '[' !in g
    requires MatchAt(p, s, pos + |g|).Some?
    ensures FirstFrom(p, s, pos) == FirstFrom(p, s, pos + |g|)
  {
    var i := pos + |g|;
    forall y | pos <= y < i
      ensures s[y] != '['
    {
      assert s[y] == g[y - pos];
    }
    forall x | pos <= x < i
      ensures MatchAt(p, s, x).None?
    {
      GapNoMatch(p, s, pos, i, x);
    }
    FirstFromSkips(p, s, pos, i);
  }

  // ---------------------------------------------------------------------
  // Texts laid out as stretches and literals
  // ---------------------------------------------------------------------

  /** A plain stretch followed by a literal of the two groups. */
  datatype Segment = Segment(gap: string, alt: string, url: string)

  /** The stretch holds no `[` and the groups are clean. */
  predicate Clean(sg: Segment)
  {
    '[' !in sg.gap && CleanGroups(sg.alt, sg.url)
  }

  /** The text the segments spell, in order. */
  function Joined(p: Pattern, segs: seq<Segment>): string
  {
    if segs == [] then "" else segs[0].gap + Literal(p, segs[0].alt, segs[0].url) + Joined(p, segs[1..])
  }

  /** The groups of the segments' literals, in order. */
  function SegmentGroups(segs: seq<Segment>): seq<Groups>
    ensures |SegmentGroups(segs)| == |segs|
  {
    if segs == [] then [] else [Groups(segs[0].alt, segs[0].url)] + SegmentGroups(segs[1..])
  }

  /** The spans the segments should become: each stretch as plain text
      when not empty, each literal as a span of the pattern's kind. */
  function SegmentNodes(p: Pattern, segs: seq<Segment>): seq<TextNode>
  {
    if segs == [] then []
    else Gap(segs[0].gap) + [TextNode(segs[0].alt, KindOf(p), Some(segs[0].url))] + SegmentNodes(p, segs[1..])
  }

  /** The hit the segment's literal makes when its stretch starts at `pos`. */
  function SegmentHit(p: Pattern, pos: nat, sg: Segment): Hit
  {
    HitOf(p, pos + |sg.gap|, sg.alt, sg.url)
  }

  /** At `pos`, `s` holds the segment's stretch and then a match of the
      pattern whose groups are the segment's. */
  predicate Found(p: Pattern, s: string, pos: nat, sg: Segment)
  {
    pos + |sg.gap| <= |s| && s[pos..pos + |sg.gap|] == sg.gap
    && MatchAt(p, s, pos + |sg.gap|) == Some(SegmentHit(p, pos, sg))
    && AltOf(p, s, SegmentHit(p, pos, sg)) == sg.alt && UrlOf(p, s, SegmentHit(p, pos, sg)) == sg.url
  }

  /** From `pos` on, `s` holds each segment in turn and then `t`. */
  predicate LaidOut(p: Pattern, s: string, pos: nat, segs: seq<Segment>, t: string)
    decreases |segs|
  {
    pos <= |s| &&
    if segs == [] then s[pos..] == t
    else Found(p, s, pos, segs[0]) && LaidOut(p, s, End(SegmentHit(p, pos, segs[0])), segs[1..], t)
  }

  /** A suffix equal to the joined clean segments and the tail is laid out
      so. */
  lemma {:induction false} JoinedLaidOut(p: Pattern, s: string, pos: nat, segs: seq<Segment>, t: string)
    requires pos <= |s| && s[pos..] == Joined(p, segs) + t
    requires forall k :: 0 <= k < |segs| ==> Clean(segs[k])
    ensures LaidOut(p, s, pos, segs, t)
    decreases |segs|
  {
    if segs != [] {
      var sg := segs[0];
      assert Clean(sg);
      JoinedHead(p, s, pos, segs, t);
      FoundAt(p, s, pos, sg);
      JoinedLaidOut(p, s, End(SegmentHit(p, pos, sg)), segs[1..], t);
    }
  }

  /** The first segment of a joined layout stands at its place, and the
      rest follows its literal. */
  lemma JoinedHead(p: Pattern, s: string, pos: nat, segs: seq<Segment>, t: string)
    requires pos <= |s| && s[pos..] == Joined(p, segs) + t && segs != []
    ensures pos + |segs[0].gap| <= |s| && s[pos..pos + |segs[0].gap|] == segs[0].gap
    ensures OccursAt(s, Literal(p, segs[0].alt, segs[0].url), pos + |segs[0].gap|)
    ensures s[pos + |segs[0].gap| + |Literal(p, segs[0].alt, segs[0].url)|..] == Joined(p, segs[1..]) + t
  {
    var sg := segs[0];
    var lit, more := Literal(p, sg.alt, sg.url), Joined(p, segs[1..]) + t;
    assert Joined(p, segs) == sg.gap + lit + Joined(p, segs[1..]);
    Assoc(sg.gap + lit, Joined(p, segs[1..]), t);
    InSuffix(s, pos, sg.gap, lit, more);
  }

  /** A clean segment spelled at `pos` is found there, and its hit ends
      where its literal does. */
  lemma FoundAt(p: Pattern, s: string, pos: nat, sg: Segment)
    requires Clean(sg) && pos + |sg.gap| <= |s| && s[pos..pos + |sg.gap|] == sg.gap
    requires OccursAt(s, Literal(p, sg.alt, sg.url), pos + |sg.gap|)
    ensures Found(p, s, pos, sg)
    ensures End(SegmentHit(p, pos, sg)) == pos + |sg.gap| + |Literal(p, sg.alt, sg.url)|
  {
    LiteralHit(p, s, pos + |sg.gap|, sg.alt, sg.url);
    SegmentFound(p, s, pos, sg);
  }

  /** The stretch at `pos` and the exact hit of the literal after it make
      the segment found there. */
  lemma SegmentFound(p: Pattern, s: string, pos: nat, sg: Segment)
    requires pos + |sg.gap| <= |s| && s[pos..pos + |sg.gap|] == sg.gap
    requires MatchAt(p, s, pos + |sg.gap|) == Some(HitOf(p, pos + |sg.gap|, sg.alt, sg.url))
    requires AltOf(p, s, HitOf(p, pos + |sg.gap|, sg.alt, sg.url)) == sg.alt
    requires UrlOf(p, s, HitOf(p, pos + |sg.gap|, sg.alt, sg.url)) == sg.url
    ensures Found(p, s, pos, sg)
  {
  }

  /** From `pos` on, a text laid out as clean segments and a tail without
      `[` yields the groups of the segments, and the pass makes of it the
      segments' spans followed by the tail. */
  lemma {:induction false} ScanSegments(p: Pattern, s: string, pos: nat, segs: seq<Segment>, t: string,
                                        orig: TextNode)
    requires LaidOut(p, s, pos, segs, t)
    requires forall k :: 0 <= k < |segs| ==> Clean(segs[k])
    requires '[' !in t
    ensures GroupsOf(p, s, pos, Scan(p, s, pos)) == SegmentGroups(segs)
    ensures NodesOf(p, s, pos, Scan(p, s, pos), orig) == SegmentNodes(p, segs) + Rest(t, orig)
    decreases |segs|
  {
    if segs == [] {
      ScanPlain(p, s, pos);
    } else {
      var sg := segs[0];
      assert Clean(sg);
      ScanSegments(p, s, End(SegmentHit(p, pos, sg)), segs[1..], t, orig);
      SegmentStep(p, s, pos, sg, SegmentNodes(p, segs[1..]) + Rest(t, orig), orig);
      Assoc(Gap(sg.gap) + [TextNode(sg.alt, KindOf(p), Some(sg.url))], SegmentNodes(p, segs[1..]), Rest(t, orig));
    }
  }

  /** A clean segment found at `pos` comes first: the search passes over
      its stretch and finds its literal, whose groups and spans come before
      those of the rest. */
  lemma SegmentStep(p: Pattern, s: string, pos: nat, sg: Segment, nodes: seq<TextNode>, orig: TextNode)
    requires Clean(sg) && Found(p, s, pos, sg)
    requires NodesOf(p, s, End(SegmentHit(p, pos, sg)), Scan(p, s, End(SegmentHit(p, pos, sg))), orig) == nodes
    ensures GroupsOf(p, s, pos, Scan(p, s, pos))
         == [Groups(sg.alt, sg.url)] + GroupsOf(p, s, End(SegmentHit(p, pos, sg)), Scan(p, s, End(SegmentHit(p, pos, sg))))
    ensures NodesOf(p, s, pos, Scan(p, s, pos), orig) == Gap(sg.gap) + [TextNode(sg.alt, KindOf(p), Some(sg.url))] + nodes
  {
    var h := SegmentHit(p, pos, sg);
    GapSkips(p, s, pos, sg.gap);
    ScanCons(p, s, pos, h);
    NodesCons(p, s, pos, h, Scan(p, s, End(h)), orig);
  }

  /** `re.findall` on a text laid out as clean segments and a tail without
      `[`: the groups of the segments' literals, exactly and in order. */
  lemma FindAllSegments(p: Pattern, segs: seq<Segment>, t: string)
    requires forall k :: 0 <= k < |segs| ==> Clean(segs[k])
    requires '[' !in t
    ensures FindAll(p, Joined(p, segs) + t) == SegmentGroups(segs)
  {
    var s := Joined(p, segs) + t;
    assert s[0..] == s;
    JoinedLaidOut(p, s, 0, segs, t);
    ScanSegments(p, s, 0, segs, t, TextNode(s, Text, None));
  }

  /** The pass on such a text: each stretch as plain text when not empty,
      each literal as a span of the pattern's kind carrying its url, then
      the tail. */
  lemma MatchNodesSegments(p: Pattern, segs: seq<Segment>, t: string, orig: TextNode)
    requires forall k :: 0 <= k < |segs| ==> Clean(segs[k])
    requires '[' !in t
    ensures MatchNodes(p, Joined(p, segs) + t, orig) == SegmentNodes(p, segs) + Rest(t, orig)
  {
    var s := Joined(p, segs) + t;
    assert s[0..] == s;
    JoinedLaidOut(p, s, 0, segs, t);
    ScanSegments(p, s, 0, segs, t, orig);
  }

  // ---------------------------------------------------------------------
  // Two images, two links
  // ---------------------------------------------------------------------

  /** Two images in one text are two matches, not one match from the
      first `![` to the last `)`: the groups are lazy. */
  lemma TwoImages(x: string, u: string, mid: string, y: string, v: string)
    requires CleanGroups(x, u) && CleanGroups(y, v) && '[' !in mid
    ensures ExtractMarkdownImages("![" + x + "](" + u + ")" + mid + "![" + y + "](" + v + ")")
         == [Groups(x, u), Groups(y, v)]
    ensures SplitPattern(ImagePattern, [TextNode("![" + x + "](" + u + ")" + mid + "![" + y + "](" + v + ")", Text, None)])
         == [TextNode(x, Image, Some(u))] + Gap(mid) + [TextNode(y, Image, Some(v))]
  {
    var first, second := "![" + x + "](" + u + ")", "![" + y + "](" + v + ")";
    assert "" + first + mid + second == "![" + x + "](" + u + ")" + mid + "![" + y + "](" + v + ")" by {
      Trailing(first + mid, "![", y, v);
    }
    TwoSegments(ImagePattern, Segment("", x, u), Segment(mid, y, v));
  }

  /** Two links in one text likewise. */
  lemma TwoLinks(x: string, u: string, mid: string, y: string, v: string)
    requires CleanGroups(x, u) && CleanGroups(y, v) && '[' !in mid
    ensures ExtractMarkdownLinks("[" + x + "](" + u + ")" + mid + "[" + y + "](" + v + ")")
         == [Groups(x, u), Groups(y, v)]
    ensures SplitPattern(LinkPattern, [TextNode("[" + x + "](" + u + ")" + mid + "[" + y + "](" + v + ")", Text, None)])
         == [TextNode(x, Link, Some(u))] + Gap(mid) + [TextNode(y, Link, Some(v))]
  {
    var first, second := "[" + x + "](" + u + ")", "[" + y + "](" + v + ")";
    assert "" + first + mid + second == "[" + x + "](" + u + ")" + mid + "[" + y + "](" + v + ")" by {
      Trailing(first + mid, "[", y, v);
    }
    TwoSegments(LinkPattern, Segment("", x, u), Segment(mid, y, v));
  }

  /** A text followed by a literal spelled piece by piece. */
  lemma Trailing(a: string, o: string, y: string, v: string)
    ensures a + (o + y + "](" + v + ")") == a + o + y + "](" + v + ")"
  {
  }

  /** Two clean segments with no tail: both passes' results, spelled out. */
  lemma TwoSegments(p: Pattern, one: Segment, two: Segment)
    requires Clean(one) && Clean(two)
    ensures FindAll(p, one.gap + Literal(p, one.alt, one.url) + two.gap + Literal(p, two.alt, two.url))
         == [Groups(one.alt, one.url), Groups(two.alt, two.url)]
    ensures SplitPattern(p, [TextNode(one.gap + Literal(p, one.alt, one.url) + two.gap + Literal(p, two.alt, two.url), Text, None)])
         == Gap(one.gap) + [TextNode(one.alt, KindOf(p), Some(one.url))]
            + Gap(two.gap) + [TextNode(two.alt, KindOf(p), Some(two.url))]
  {
    var segs := [one, two];
    var s := Joined(p, segs) + "";
    JoinedTwo(p, one, two);
    assert forall k :: 0 <= k < |segs| ==> Clean(segs[k]);
    FindAllSegments(p, segs, "");
    var orig := TextNode(s, Text, None);
    MatchNodesSegments(p, segs, "", orig);
    SplitOne(p, orig);
    SegmentsTwo(p, one, two, orig);
  }

  /** The text two segments spell. */
  lemma JoinedTwo(p: Pattern, one: Segment, two: Segment)
    ensures Joined(p, [one, two]) + "" == one.gap + Literal(p, one.alt, one.url) + two.gap + Literal(p, two.alt, two.url)
  {
    var a, b := one.gap + Literal(p, one.alt, one.url), two.gap + Literal(p, two.alt, two.url);
    assert [one, two][1..] == [two] && [two][1..] == [];
    assert Joined(p, [two]) == b;
    assert Joined(p, [one, two]) == a + b;
  }

  /** The groups and the spans of two segments. */
  lemma SegmentsTwo(p: Pattern, one: Segment, two: Segment, orig: TextNode)
    ensures SegmentGroups([one, two]) == [Groups(one.alt, one.url), Groups(two.alt, two.url)]
    ensures SegmentNodes(p, [one, two]) + Rest("", orig)
         == Gap(one.gap) + [TextNode(one.alt, KindOf(p), Some(one.url))]
            + Gap(two.gap) + [TextNode(two.alt, KindOf(p), Some(two.url))]
  {
    var a, b := Gap(one.gap) + [TextNode(one.alt, KindOf(p), Some(one.url))],
                Gap(two.gap) + [TextNode(two.alt, KindOf(p), Some(two.url))];
    assert [one, two][1..] == [two] && [two][1..] == [];
    assert SegmentNodes(p, [two]) == b;
    assert SegmentNodes(p, [one, two]) == a + b;
  }

  /** A pass over one node is the pass over its text. */
  lemma SplitOne(p: Pattern, orig: TextNode)
    ensures SplitPattern(p, [orig]) == MatchNodes(p, orig.text, orig)
  {
    assert [orig][..0] == [];
  }
}
