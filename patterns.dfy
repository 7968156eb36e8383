/** The image and link passes of the inline lexer of src/textnode.py:
    the two regular expressions `\!\[(.*?)\]\((.*?)\)` and
    `\[(.*?)\]\((.*?)\)`, `extract_markdown_images`,
    `extract_markdown_links`, `split_nodes_image` and `split_nodes_link`. */
module Patterns {
  import opened Wrappers
  import opened Strings
  import opened TextNodes
  import opened Seqs

  /** The two span patterns: `![alt](url)` and `[text](url)`. */
  datatype Pattern = ImagePattern | LinkPattern

  /** What a match starts with. */
  function Opener(p: Pattern): (o: string)
    ensures |o| == OpenLen(p)
  {
    if p == ImagePattern then "![" else "["
  }

  /** The length of the opener. */
  function OpenLen(p: Pattern): nat
  {
    if p == ImagePattern then 2 else 1
  }

  /** The span type a match becomes. */
  function KindOf(p: Pattern): TextType
  {
    if p == ImagePattern then Image else Link
  }

  /** The text a match spells, rebuilt from its two groups as the passes
      rebuild it before splitting on it. */
  function Literal(p: Pattern, alt: string, url: string): string
  {
    Opener(p) + alt + "](" + url + ")"
  }

  /** The two groups of a match, as `re.findall` returns them. */
  datatype Groups = Groups(alt: string, url: string)

  // ---------------------------------------------------------------------
  // The regular expressions, anchored
  // ---------------------------------------------------------------------

  /** `\]\(` at index `j`. */
  predicate BracketAt(s: string, j: nat)
  {
    j + 2 <= |s| && s[j] == ']' && s[j + 1] == '('
  }

  /** The opener of `p` at index `i`. */
  predicate OpensAt(p: Pattern, s: string, i: nat)
  {
    if p == ImagePattern then i + 2 <= |s| && s[i] == '!' && s[i + 1] == '['
    else i + 1 <= |s| && s[i] == '['
  }

  /** The character tests above are occurrences of the two fixed strings. */
  lemma FixedStrings(p: Pattern, s: string, i: nat)
    ensures BracketAt(s, i) <==> OccursAt(s, "](", i)
    ensures OpensAt(p, s, i) <==> OccursAt(s, Opener(p), i)
  {
    if i + 2 <= |s| {
      assert s[i..i + 2] == [s[i], s[i + 1]];
    }
    if i + 1 <= |s| {
      assert s[i..i + 1] == [s[i]];
    }
  }

  /** `(.*?)\)` tried from index `q`: the first `)` at or after `q`, and no
      match when a newline or the end of `s` comes first (`.` stops at a
      newline). */
  function CloseFrom(s: string, q: nat): (r: Option<nat>)
    ensures r.Some? ==> q <= r.value < |s| && s[r.value] == ')'
    decreases |s| - q
  {
    if q >= |s| || s[q] == '\n' then None
    else if s[q] == ')' then Some(q)
    else CloseFrom(s, q + 1)
  }

  /** `(.*?)\]\((.*?)\)` tried from index `j`: the shortest first group
      after which the rest matches, as the pair (end of the first group,
      index of the closing parenthesis). */
  function LabelFrom(s: string, j: nat): (r: Option<(nat, nat)>)
    ensures r.Some? ==> j <= r.value.0 && BracketAt(s, r.value.0)
    ensures r.Some? ==> CloseFrom(s, r.value.0 + 2) == Some(r.value.1)
    decreases |s| - j
  {
    if j >= |s| then None
    else if BracketAt(s, j) && CloseFrom(s, j + 2).Some? then Some((j, CloseFrom(s, j + 2).value))
    else if s[j] == '\n' then None
    else LabelFrom(s, j + 1)
  }

  /** Nothing between `q` and the parenthesis `CloseFrom` finds is a
      newline or a `)`. */
  lemma {:induction false} CloseClean(s: string, q: nat, k: nat)
    requires CloseFrom(s, q) == Some(k) && q <= k
    ensures forall x | q <= x < k :: s[x] != ')' && s[x] != '\n'
    decreases |s| - q
  {
    if q < k {
      CloseClean(s, q + 1, k);
    }
  }

  /** Nothing between `j` and the end of the first group `LabelFrom` finds
      is a newline. */
  lemma {:induction false} LabelClean(s: string, j: nat, e: nat, k: nat)
    requires LabelFrom(s, j) == Some((e, k))
    ensures forall x | j <= x < e :: s[x] != '\n'
    decreases |s| - j
  {
    if j < e {
      LabelClean(s, j + 1, e, k);
    }
  }

  /** `(.*?)` is lazy: no `](` before the end of the first group that
      `LabelFrom` finds is followed by a `)` the second group reaches. */
  lemma {:induction false} LabelShortest(s: string, j: nat, e: nat, k: nat, x: nat)
    requires LabelFrom(s, j) == Some((e, k)) && j <= x < e
    ensures !(BracketAt(s, x) && CloseFrom(s, x + 2).Some?)
    decreases x - j
  {
    if j < x {
      LabelShortest(s, j + 1, e, k, x);
    }
  }

  /** A match of the pattern, by the indices the regular expression fixes:
      where the opener stands, where the `](` after the first group
      stands, and where the `)` after the second group stands. */
  datatype Hit = Hit(at: nat, bracket: nat, close: nat)

  /** Where the search resumes after a hit. */
  function End(h: Hit): nat
  {
    h.close + 1
  }

  /** The indices of a hit lie in order inside `s`. */
  predicate Fits(p: Pattern, s: string, h: Hit)
  {
    h.at + OpenLen(p) <= h.bracket && h.bracket + 2 <= h.close < |s|
  }

  /** The first group of a hit. */
  function AltOf(p: Pattern, s: string, h: Hit): string
    requires Fits(p, s, h)
  {
    s[h.at + OpenLen(p)..h.bracket]
  }

  /** The second group of a hit. */
  function UrlOf(p: Pattern, s: string, h: Hit): string
    requires Fits(p, s, h)
  {
    s[h.bracket + 2..h.close]
  }

  /** The pattern matched at index `i` of `s` (`re.match` on `s[i..]`:
      the pattern looks at nothing before `i`). */
  function MatchAt(p: Pattern, s: string, i: nat): (r: Option<Hit>)
    ensures r.Some? ==> r.value.at == i && Fits(p, s, r.value)
  {
    if !OpensAt(p, s, i) then None
    else
      match LabelFrom(s, i + OpenLen(p))
      case None => None
      case Some((j, k)) => Some(Hit(i, j, k))
  }

  /** What the regular expression has checked at the indices of a hit. */
  lemma MatchFacts(p: Pattern, s: string, h: Hit)
    requires MatchAt(p, s, h.at) == Some(h)
    ensures OpensAt(p, s, h.at) && BracketAt(s, h.bracket) && s[h.close] == ')'
    ensures forall x | h.at + OpenLen(p) <= x < h.bracket :: s[x] != '\n'
    ensures forall x | h.bracket + 2 <= x < h.close :: s[x] != ')' && s[x] != '\n'
  {
    LabelClean(s, h.at + OpenLen(p), h.bracket, h.close);
    CloseClean(s, h.bracket + 2, h.close);
  }

  /** The first group of a match is the shortest: it ends at the first
      `](` after which the rest of the pattern matches. */
  lemma MatchIsLazy(p: Pattern, s: string, h: Hit, x: nat)
    requires MatchAt(p, s, h.at) == Some(h) && h.at + OpenLen(p) <= x < h.bracket
    ensures !(BracketAt(s, x) && CloseFrom(s, x + 2).Some?)
  {
    LabelShortest(s, h.at + OpenLen(p), h.bracket, h.close, x);
  }

  /** Where those checks hold, the literal of the two groups is spelled at
      the hit. */
  lemma HitSpells(p: Pattern, s: string, h: Hit)
    requires Fits(p, s, h) && OpensAt(p, s, h.at) && BracketAt(s, h.bracket) && s[h.close] == ')'
    ensures |Literal(p, AltOf(p, s, h), UrlOf(p, s, h))| == End(h) - h.at
    ensures OccursAt(s, Literal(p, AltOf(p, s, h), UrlOf(p, s, h)), h.at)
  {
    FixedStrings(p, s, h.at);
    FixedStrings(p, s, h.bracket);
    SpellsLiteral(s, Opener(p), h.at, h.bracket, h.close, AltOf(p, s, h), UrlOf(p, s, h));
  }

  /** Neither group of a hit holds a newline, nor the second one a `)`. */
  lemma HitClean(p: Pattern, s: string, h: Hit)
    requires Fits(p, s, h)
    requires forall x | h.at + OpenLen(p) <= x < h.bracket :: s[x] != '\n'
    requires forall x | h.bracket + 2 <= x < h.close :: s[x] != ')' && s[x] != '\n'
    ensures '\n' !in AltOf(p, s, h) && '\n' !in UrlOf(p, s, h) && ')' !in UrlOf(p, s, h)
  {
    Absent(s, h.at + OpenLen(p), h.bracket, '\n');
    Absent(s, h.bracket + 2, h.close, '\n');
    Absent(s, h.bracket + 2, h.close, ')');
  }

  /** A match spells the literal of its groups, which hold no newline, and
      the second no `)`. */
  lemma MatchSpells(p: Pattern, s: string, h: Hit)
    requires MatchAt(p, s, h.at) == Some(h)
    ensures Fits(p, s, h)
    ensures |Literal(p, AltOf(p, s, h), UrlOf(p, s, h))| == End(h) - h.at
    ensures OccursAt(s, Literal(p, AltOf(p, s, h), UrlOf(p, s, h)), h.at)
    ensures '\n' !in AltOf(p, s, h) && '\n' !in UrlOf(p, s, h) && ')' !in UrlOf(p, s, h)
  {
    MatchFacts(p, s, h);
    HitSpells(p, s, h);
    HitClean(p, s, h);
  }

  /** A character none of the indices in `[a, b)` holds is not in that slice. */
  lemma Absent(s: string, a: nat, b: nat, c: char)
    requires a <= b <= |s|
    requires forall x | a <= x < b :: s[x] != c
    ensures c !in s[a..b]
  {
  }

  /** The characters up to a closing parenthesis spell the literal of the
      two groups around `](`. */
  lemma SpellsLiteral(s: string, o: string, i: nat, j: nat, k: nat, alt: string, url: string)
    requires OccursAt(s, o, i) && i + |o| <= j && OccursAt(s, "](", j)
    requires j + 2 <= k < |s| && s[k] == ')'
    requires alt == s[i + |o|..j] && url == s[j + 2..k]
    ensures |o + alt + "](" + url + ")"| == k + 1 - i
    ensures OccursAt(s, o + alt + "](" + url + ")", i)
  {
    assert s[i..j] == s[i..i + |o|] + s[i + |o|..j];
    assert s[j..k + 1] == s[j..j + 2] + s[j + 2..k] + s[k..k + 1];
    assert s[i..k + 1] == s[i..j] + s[j..k + 1];
  }

  /** The first position at or after `i` where the pattern matches, with
      the hit found there. */
  function FirstFrom(p: Pattern, s: string, i: nat): (r: Option<Hit>)
    requires i <= |s|
    ensures r.Some? ==> i <= r.value.at && Fits(p, s, r.value)
    decreases |s| - i
  {
    if MatchAt(p, s, i).Some? then MatchAt(p, s, i)
    else if i == |s| then None
    else FirstFrom(p, s, i + 1)
  }

  /** What `FirstFrom` returns is the match at the position it returns. */
  lemma {:induction false} FirstFromMatches(p: Pattern, s: string, i: nat, h: Hit)
    requires i <= |s| && FirstFrom(p, s, i) == Some(h)
    ensures MatchAt(p, s, h.at) == Some(h)
    decreases |s| - i
  {
    if MatchAt(p, s, i).None? {
      FirstFromMatches(p, s, i + 1, h);
    }
  }

  /** No position before the one `FirstFrom` returns matches. */
  lemma {:induction false} FirstFromIsFirst(p: Pattern, s: string, i: nat, j: nat)
    requires i <= j <= |s|
    requires FirstFrom(p, s, i).None? || j < FirstFrom(p, s, i).value.at
    ensures MatchAt(p, s, j).None?
    decreases |s| - i
  {
    if j > i {
      FirstFromIsFirst(p, s, i + 1, j);
    }
  }

  /** Hits that lie, in order and without overlapping, between `pos` and
      the end of `s`. */
  predicate Placed(p: Pattern, s: string, pos: nat, hits: seq<Hit>)
    decreases |hits|
  {
    pos <= |s| &&
    (hits == [] || (pos <= hits[0].at && Fits(p, s, hits[0]) && Placed(p, s, End(hits[0]), hits[1..])))
  }

  /** The matches `re.findall` finds from index `i` on: the first match at
      or after `i`, then the search resumes where that match ended. */
  function Scan(p: Pattern, s: string, i: nat): (r: seq<Hit>)
    requires i <= |s|
    ensures Placed(p, s, i, r)
    decreases |s| - i
  {
    match FirstFrom(p, s, i)
    case None => []
    case Some(h) =>
      var rest := Scan(p, s, End(h));
      assert ([h] + rest)[1..] == rest;
      [h] + rest
  }

  /** The two groups of each hit. */
  function GroupsOf(p: Pattern, s: string, pos: nat, hits: seq<Hit>): (r: seq<Groups>)
    requires Placed(p, s, pos, hits)
    ensures |r| == |hits|
    decreases |hits|
  {
    if hits == [] then []
    else [Groups(AltOf(p, s, hits[0]), UrlOf(p, s, hits[0]))] + GroupsOf(p, s, End(hits[0]), hits[1..])
  }

  /** `re.findall` of the pattern: the groups of the non-overlapping
      matches, left to right. */
  function FindAll(p: Pattern, s: string): seq<Groups>
  {
    GroupsOf(p, s, 0, Scan(p, s, 0))
  }

  /** `extract_markdown_images`. */
  function ExtractMarkdownImages(text: string): seq<Groups>
  {
    FindAll(ImagePattern, text)
  }

  /** `extract_markdown_links`. */
  function ExtractMarkdownLinks(text: string): seq<Groups>
  {
    FindAll(LinkPattern, text)
  }

  // ---------------------------------------------------------------------
  // Literals and matches
  // ---------------------------------------------------------------------

  /** A `)` reachable without crossing a newline closes the second group. */
  lemma {:induction false} CloseReaches(s: string, q: nat, k: nat)
    requires q <= k < |s| && s[k] == ')'
    requires forall x | q <= x < k :: s[x] != '\n'
    ensures CloseFrom(s, q).Some?
    decreases k - q
  {
    if s[q] != ')' {
      CloseReaches(s, q + 1, k);
    }
  }

  /** A `](` reachable without crossing a newline, followed by a closing
      `)`, ends the first group. */
  lemma {:induction false} LabelReaches(s: string, j: nat, e: nat)
    requires j <= e && BracketAt(s, e) && CloseFrom(s, e + 2).Some?
    requires forall x | j <= x < e :: s[x] != '\n'
    ensures LabelFrom(s, j).Some? && LabelFrom(s, j).value.0 <= e
    decreases e - j
  {
    if !(BracketAt(s, j) && CloseFrom(s, j + 2).Some?) {
      LabelReaches(s, j + 1, e);
    }
  }

  /** Where each fixed part of a literal sits. */
  lemma LiteralParts(p: Pattern, alt: string, url: string)
    ensures |Literal(p, alt, url)| == OpenLen(p) + |alt| + |url| + 3
    ensures Literal(p, alt, url)[0] == Opener(p)[0]
    ensures p == ImagePattern ==> Literal(p, alt, url)[1] == '['
    ensures Literal(p, alt, url)[OpenLen(p) + |alt|] == ']'
    ensures Literal(p, alt, url)[OpenLen(p) + |alt| + 1] == '('
    ensures Literal(p, alt, url)[OpenLen(p) + |alt| + |url| + 2] == ')'
  {
  }

  /** The characters of the first group of a literal. */
  lemma LiteralAltChar(p: Pattern, alt: string, url: string, x: nat)
    requires x < |alt|
    ensures OpenLen(p) + x < |Literal(p, alt, url)|
    ensures Literal(p, alt, url)[OpenLen(p) + x] == alt[x]
  {
  }

  /** The characters of the second group of a literal. */
  lemma LiteralUrlChar(p: Pattern, alt: string, url: string, x: nat)
    requires x < |url|
    ensures OpenLen(p) + |alt| + 2 + x < |Literal(p, alt, url)|
    ensures Literal(p, alt, url)[OpenLen(p) + |alt| + 2 + x] == url[x]
  {
  }

  /** Wherever the literal of two groups without a newline (and the second
      without a `)`) starts, the pattern matches, and its first group ends
      no later than the literal's. */
  lemma LiteralMatches(p: Pattern, s: string, i: nat, alt: string, url: string)
    requires OccursAt(s, Literal(p, alt, url), i)
    requires '\n' !in alt && '\n' !in url && ')' !in url
    ensures MatchAt(p, s, i).Some? && MatchAt(p, s, i).value.bracket <= i + OpenLen(p) + |alt|
  {
    var e := i + OpenLen(p) + |alt|;
    var k := e + 2 + |url|;
    LiteralAt(p, s, i, alt, url);
    forall x | e + 2 <= x < k
      ensures s[x] != '\n'
    {
      assert s[x] == url[x - e - 2];
    }
    CloseReaches(s, e + 2, k);
    forall x | i + OpenLen(p) <= x < e
      ensures s[x] != '\n'
    {
      assert s[x] == alt[x - i - OpenLen(p)];
    }
    LabelReaches(s, i + OpenLen(p), e);
  }

  /** What the characters of `s` are where the literal of two groups is
      spelled. */
  lemma LiteralAt(p: Pattern, s: string, i: nat, alt: string, url: string)
    requires OccursAt(s, Literal(p, alt, url), i)
    ensures i + OpenLen(p) + |alt| + |url| + 3 <= |s|
    ensures OpensAt(p, s, i) && BracketAt(s, i + OpenLen(p) + |alt|)
    ensures s[i + OpenLen(p) + |alt| + |url| + 2] == ')'
    ensures forall x | 0 <= x < |alt| :: s[i + OpenLen(p) + x] == alt[x]
    ensures forall x | 0 <= x < |url| :: s[i + OpenLen(p) + |alt| + 2 + x] == url[x]
  {
    LiteralOpens(p, s, i, alt, url);
    LiteralCloses(p, s, i, alt, url);
    LiteralAlt(p, s, i, alt, url);
    LiteralUrl(p, s, i, alt, url);
  }

  /** The opener of a spelled literal. */
  lemma LiteralOpens(p: Pattern, s: string, i: nat, alt: string, url: string)
    requires OccursAt(s, Literal(p, alt, url), i)
    ensures i + OpenLen(p) + |alt| + |url| + 3 <= |s|
    ensures OpensAt(p, s, i)
  {
    LiteralParts(p, alt, url);
    CharAt(s, Literal(p, alt, url), i, 0);
    if p == ImagePattern {
      CharAt(s, Literal(p, alt, url), i, 1);
    }
  }

  /** The `](` and the `)` of a spelled literal. */
  lemma LiteralCloses(p: Pattern, s: string, i: nat, alt: string, url: string)
    requires OccursAt(s, Literal(p, alt, url), i)
    ensures i + OpenLen(p) + |alt| + |url| + 3 <= |s|
    ensures BracketAt(s, i + OpenLen(p) + |alt|)
    ensures s[i + OpenLen(p) + |alt| + |url| + 2] == ')'
  {
    var o := OpenLen(p);
    LiteralParts(p, alt, url);
    CharAt(s, Literal(p, alt, url), i, o + |alt|);
    CharAt(s, Literal(p, alt, url), i, o + |alt| + 1);
    CharAt(s, Literal(p, alt, url), i, o + |alt| + |url| + 2);
  }

  /** The first group of a spelled literal. */
  lemma LiteralAlt(p: Pattern, s: string, i: nat, alt: string, url: string)
    requires OccursAt(s, Literal(p, alt, url), i)
    ensures forall x | 0 <= x < |alt| :: s[i + OpenLen(p) + x] == alt[x]
  {
    forall x | 0 <= x < |alt|
      ensures s[i + OpenLen(p) + x] == alt[x]
    {
      LiteralAltChar(p, alt, url, x);
      CharAt(s, Literal(p, alt, url), i, OpenLen(p) + x);
    }
  }

  /** The second group of a spelled literal. */
  lemma LiteralUrl(p: Pattern, s: string, i: nat, alt: string, url: string)
    requires OccursAt(s, Literal(p, alt, url), i)
    ensures forall x | 0 <= x < |url| :: s[i + OpenLen(p) + |alt| + 2 + x] == url[x]
  {
    forall x | 0 <= x < |url|
      ensures s[i + OpenLen(p) + |alt| + 2 + x] == url[x]
    {
      LiteralUrlChar(p, alt, url, x);
      CharAt(s, Literal(p, alt, url), i, OpenLen(p) + |alt| + 2 + x);
    }
  }

  /** Where `d` occurs, each of its characters is in `s`. */
  lemma CharAt(s: string, d: string, i: nat, x: nat)
    requires OccursAt(s, d, i) && x < |d|
    ensures s[i + x] == d[x]
  {
    assert s[i..i + |d|][x] == d[x];
  }

  /** The literal of the first match occurs first where that match does,
      which is why splitting on it recovers the match. */
  lemma FirstLiteral(p: Pattern, s: string, pos: nat, h: Hit)
    requires pos <= |s| && FirstFrom(p, s, pos) == Some(h)
    ensures Find(s[pos..], Literal(p, AltOf(p, s, h), UrlOf(p, s, h))) == Some(h.at - pos)
    ensures |Literal(p, AltOf(p, s, h), UrlOf(p, s, h))| == End(h) - h.at
  {
    FirstFromMatches(p, s, pos, h);
    MatchSpells(p, s, h);
    LiteralFound(p, s, pos, h.at, AltOf(p, s, h), UrlOf(p, s, h));
  }

  /** The literal of two clean groups, spelled where the first match
      starts, is found there. */
  lemma LiteralFound(p: Pattern, s: string, pos: nat, i: nat, alt: string, url: string)
    requires pos <= i <= |s| && FirstFrom(p, s, pos).Some? && FirstFrom(p, s, pos).value.at == i
    requires '\n' !in alt && '\n' !in url && ')' !in url
    requires OccursAt(s, Literal(p, alt, url), i)
    ensures Find(s[pos..], Literal(p, alt, url)) == Some(i - pos)
  {
    NoneBefore(p, s, pos, i, alt, url);
    OccursInSuffix(s, Literal(p, alt, url), pos, i - pos);
    FindFirst(s[pos..], Literal(p, alt, url), i - pos);
  }

  /** Between `pos` and the first match, the literal of two clean groups
      does not occur. */
  lemma NoneBefore(p: Pattern, s: string, pos: nat, i: nat, alt: string, url: string)
    requires pos <= i <= |s| && FirstFrom(p, s, pos).Some? && FirstFrom(p, s, pos).value.at == i
    requires '\n' !in alt && '\n' !in url && ')' !in url
    ensures forall j: nat | j < i - pos :: !OccursAt(s[pos..], Literal(p, alt, url), j)
  {
    forall j: nat | j < i - pos
      ensures !OccursAt(s[pos..], Literal(p, alt, url), j)
    {
      OccursInSuffix(s, Literal(p, alt, url), pos, j);
      NoEarlierLiteral(p, s, pos, i, alt, url, pos + j);
    }
  }

  /** Before the first match, the literal of two clean groups does not occur. */
  lemma NoEarlierLiteral(p: Pattern, s: string, pos: nat, i: nat, alt: string, url: string, j: nat)
    requires pos <= j < i <= |s| && FirstFrom(p, s, pos).Some? && FirstFrom(p, s, pos).value.at == i
    requires '\n' !in alt && '\n' !in url && ')' !in url
    ensures !OccursAt(s, Literal(p, alt, url), j)
  {
    if OccursAt(s, Literal(p, alt, url), j) {
      FirstFromIsFirst(p, s, pos, j);
      LiteralMatches(p, s, j, alt, url);
    }
  }

  /** Occurrences in a suffix are occurrences in the whole string, moved. */
  lemma OccursInSuffix(s: string, d: string, pos: nat, j: nat)
    requires pos <= |s|
    ensures OccursAt(s[pos..], d, j) <==> OccursAt(s, d, pos + j)
  {
    if pos + j + |d| <= |s| {
      assert s[pos..][j..j + |d|] == s[pos + j..pos + j + |d|];
    }
  }

  // ---------------------------------------------------------------------
  // split_nodes_image, split_nodes_link
  // ---------------------------------------------------------------------

  /** The span a hit becomes: its first group, typed by the pattern, with
      its second group as url. */
  function SpanOf(p: Pattern, s: string, h: Hit): TextNode
    requires Fits(p, s, h)
  {
    TextNode(AltOf(p, s, h), KindOf(p), Some(UrlOf(p, s, h)))
  }

  /** The text before a hit, as a plain span when not empty. */
  function Gap(s: string): seq<TextNode>
  {
    if s != "" then [TextNode(s, Text, None)] else []
  }

  /** The text after the last hit, when not empty, with the old node's
      type and url. */
  function Rest(s: string, orig: TextNode): seq<TextNode>
  {
    if s != "" then [TextNode(s, orig.kind, orig.url)] else []
  }

  /** The nodes `s[pos..]` becomes, given the hits found in it. */
  function NodesOf(p: Pattern, s: string, pos: nat, hits: seq<Hit>, orig: TextNode): seq<TextNode>
    requires Placed(p, s, pos, hits)
    decreases |hits|
  {
    if hits == [] then Rest(s[pos..], orig)
    else Gap(s[pos..hits[0].at]) + [SpanOf(p, s, hits[0])] + NodesOf(p, s, End(hits[0]), hits[1..], orig)
  }

  /** The nodes one old node becomes: for each match, the text before it
      as a plain span when non-empty and the match as a `KindOf(p)` span
      carrying its url; then what is left after the last match. */
  function MatchNodes(p: Pattern, s: string, orig: TextNode): seq<TextNode>
  {
    NodesOf(p, s, 0, Scan(p, s, 0), orig)
  }

  /** A pass over a node list: every node, whatever its type, is searched. */
  function SplitPattern(p: Pattern, nodes: seq<TextNode>): seq<TextNode>
  {
    if nodes == [] then []
    else
      var last := nodes[|nodes| - 1];
      SplitPattern(p, nodes[..|nodes| - 1]) + MatchNodes(p, last.text, last)
  }

  /** The first hit the scan finds from `pos` on: its literal occurs first
      where it starts, and the scan resumes at its end. */
  lemma ScanStep(p: Pattern, s: string, pos: nat, h: Hit, rest: seq<Hit>)
    requires pos <= |s| && Scan(p, s, pos) == [h] + rest
    ensures pos <= h.at && Fits(p, s, h)
    ensures Find(s[pos..], Literal(p, AltOf(p, s, h), UrlOf(p, s, h))) == Some(h.at - pos)
    ensures h.at + |Literal(p, AltOf(p, s, h), UrlOf(p, s, h))| == End(h)
    ensures Scan(p, s, End(h)) == rest
  {
    assert FirstFrom(p, s, pos) == Some(h);
    FirstLiteral(p, s, pos, h);
  }

  /** The nodes of `s[pos..]` start with those of its first hit. */
  lemma NodesStep(p: Pattern, s: string, pos: nat, orig: TextNode, hits: seq<Hit>, m: nat,
                  newNodes: seq<TextNode>, total: seq<TextNode>)
    requires m < |hits| && Placed(p, s, pos, hits[m..])
    requires newNodes + NodesOf(p, s, pos, hits[m..], orig) == total
    ensures pos <= hits[m].at && Fits(p, s, hits[m]) && Placed(p, s, End(hits[m]), hits[m + 1..])
    ensures newNodes + Gap(s[pos..hits[m].at]) + [SpanOf(p, s, hits[m])]
      + NodesOf(p, s, End(hits[m]), hits[m + 1..], orig) == total
  {
    HeadTail(hits, m);
    Regroup(newNodes, Gap(s[pos..hits[m].at]), [SpanOf(p, s, hits[m])],
            NodesOf(p, s, End(hits[m]), hits[m + 1..], orig), NodesOf(p, s, pos, hits[m..], orig), total);
  }

  /** The groups `re.findall` gives for a match are those of the hit. */
  lemma {:induction false} GroupsAt(p: Pattern, s: string, pos: nat, hits: seq<Hit>, m: nat)
    requires Placed(p, s, pos, hits) && m < |hits|
    ensures Fits(p, s, hits[m])
    ensures GroupsOf(p, s, pos, hits)[m] == Groups(AltOf(p, s, hits[m]), UrlOf(p, s, hits[m]))
    decreases m
  {
    if m > 0 {
      GroupsAt(p, s, End(hits[0]), hits[1..], m - 1);
    }
  }

  /** Cutting a suffix of `s` is cutting `s`. */
  lemma Resliced(s: string, pos: nat, k: nat)
    requires pos + k <= |s|
    ensures s[pos..][..k] == s[pos..pos + k] && s[pos..][k..] == s[pos + k..]
  {
  }

  /** Where `text.split(literal, 1)` cuts the text left, `s[pos..]`, when
      the next hit is `h`: at the hit, and after its literal. */
  lemma SplitPoint(p: Pattern, s: string, pos: nat, text: string, link: Groups, h: Hit, rest: seq<Hit>)
    requires pos <= |s| && text == s[pos..] && Scan(p, s, pos) == [h] + rest && Fits(p, s, h)
    requires link == Groups(AltOf(p, s, h), UrlOf(p, s, h))
    ensures Find(text, Literal(p, link.alt, link.url)) == Some(h.at - pos)
    ensures h.at - pos + |Literal(p, link.alt, link.url)| <= |text|
    ensures text[..h.at - pos] == s[pos..h.at]
    ensures text[h.at - pos + |Literal(p, link.alt, link.url)|..] == s[End(h)..]
    ensures Scan(p, s, End(h)) == rest
  {
    ScanStep(p, s, pos, h, rest);
    CutAround(s, pos, text, h.at, End(h));
  }

  /** Cutting the suffix `text` of `s` before `i` and from `j` on. */
  lemma CutAround(s: string, pos: nat, text: string, i: nat, j: nat)
    requires pos <= i <= j <= |s| && text == s[pos..]
    ensures text[..i - pos] == s[pos..i] && text[j - pos..] == s[j..]
  {
    Resliced(s, pos, i - pos);
    Resliced(s, pos, j - pos);
  }

  /** One turn of the inner loop: split the text left, `s[pos..]`, once on
      the literal of the next match (`text.split(literal, 1)`) and append
      to `acc` the text before it, when not empty, and the match. The
      literal occurs first where the match does (`ScanStep`), so the split
      never fails. */
  method SplitOffMatch(p: Pattern, ghost s: string, ghost pos: nat, text: string, link: Groups,
                       ghost h: Hit, ghost rest: seq<Hit>, acc: seq<TextNode>)
    returns (r: Result<(seq<TextNode>, string)>)
    requires pos <= |s| && text == s[pos..] && Scan(p, s, pos) == [h] + rest && Fits(p, s, h)
    requires link == Groups(AltOf(p, s, h), UrlOf(p, s, h))
    ensures Scan(p, s, End(h)) == rest
    ensures r.Ok? && r.value.1 == s[End(h)..]
    ensures r.value.0 == acc + Gap(s[pos..h.at]) + [SpanOf(p, s, h)]
  {
    SplitPoint(p, s, pos, text, link, h, rest);
    var literal := Literal(p, link.alt, link.url);
    var section := Find(text, literal);
    if section.None? {
      assert false;
      return Err;
    }
    var newNodes := acc;
    var before := text[..section.value];
    if before != "" {
      newNodes := newNodes + [TextNode(before, Text, None)];
    }
    newNodes := newNodes + [TextNode(link.alt, KindOf(p), Some(link.url))];
    return Ok((newNodes, text[section.value + |literal|..]));
  }

  /** The inner loop of the pass, on one old node, appending to `acc`:
      find the matches and split each one off in turn; what is left, when
      not empty, keeps the old node's type and url. */
  method SplitNodePattern(p: Pattern, oldNode: TextNode, acc: seq<TextNode>) returns (r: Result<seq<TextNode>>)
    ensures r == Ok(acc + MatchNodes(p, oldNode.text, oldNode))
  {
    var newNodes := acc;
    var text := oldNode.text;
    ghost var s := oldNode.text;
    ghost var pos: nat := 0;
    ghost var hits := Scan(p, s, 0);
    ghost var total := acc + MatchNodes(p, s, oldNode);
    var links := FindAll(p, text);
    for m := 0 to |links|
      invariant pos <= |s| && text == s[pos..]
      invariant Scan(p, s, pos) == hits[m..]
      invariant newNodes + NodesOf(p, s, pos, hits[m..], oldNode) == total
    {
      NodesStep(p, s, pos, oldNode, hits, m, newNodes, total);
      GroupsAt(p, s, 0, hits, m);
      HeadTail(hits, m);
      var section := SplitOffMatch(p, s, pos, text, links[m], hits[m], hits[m + 1..], newNodes);
      newNodes, text, pos := section.value.0, section.value.1, End(hits[m]);
    }
    assert hits[|links|..] == [];
    assert newNodes + Rest(text, oldNode) == total;
    if text != "" {
      newNodes := newNodes + [TextNode(text, oldNode.kind, oldNode.url)];
    } else {
      assert newNodes + [] == newNodes;
    }
    return Ok(newNodes);
  }

  /** `split_nodes_image` (`p` = ImagePattern) and `split_nodes_link`
      (`p` = LinkPattern): every old node in turn. The "Invalid Markdown"
      error is never raised. */
  method SplitNodesPattern(p: Pattern, oldNodes: seq<TextNode>) returns (r: Result<seq<TextNode>>)
    ensures r == Ok(SplitPattern(p, oldNodes))
  {
    var newNodes: seq<TextNode> := [];
    for j := 0 to |oldNodes|
      invariant newNodes == SplitPattern(p, oldNodes[..j])
    {
      assert oldNodes[..j + 1][..j] == oldNodes[..j];
      var nodes := SplitNodePattern(p, oldNodes[j], newNodes);
      newNodes := nodes.value;
    }
    assert oldNodes[..|oldNodes|] == oldNodes;
    return Ok(newNodes);
  }

  // ---------------------------------------------------------------------
  // What a pass keeps
  // ---------------------------------------------------------------------

  /** How a span reads back as markdown: a span of the pattern's kind as
      the literal of its text and url, any other span as its text. */
  function Spelling(p: Pattern, n: TextNode): string
  {
    if n.kind == KindOf(p) && n.url.Some? then Literal(p, n.text, n.url.value) else n.text
  }

  /** The spellings of the spans, run together. */
  function Spelled(p: Pattern, ns: seq<TextNode>): string
  {
    if ns == [] then "" else Spelling(p, ns[0]) + Spelled(p, ns[1..])
  }

  lemma SpelledCons(p: Pattern, n: TextNode, ns: seq<TextNode>)
    ensures Spelled(p, [n] + ns) == Spelling(p, n) + Spelled(p, ns)
  {
    assert ([n] + ns)[1..] == ns;
  }

  lemma {:induction false} SpelledAppend(p: Pattern, xs: seq<TextNode>, ys: seq<TextNode>)
    ensures Spelled(p, xs + ys) == Spelled(p, xs) + Spelled(p, ys)
  {
    if xs != [] {
      SpelledAppend(p, xs[1..], ys);
      ConsAppend(xs, ys);
      SpelledCons(p, xs[0], xs[1..] + ys);
      Assoc(Spelling(p, xs[0]), Spelled(p, xs[1..]), Spelled(p, ys));
    } else {
      assert xs + ys == ys;
    }
  }

  /** A text left plain reads back as itself. */
  lemma GapSpells(p: Pattern, x: string)
    ensures Spelled(p, Gap(x)) == x
  {
    if x != "" {
      SpelledCons(p, TextNode(x, Text, None), []);
    }
  }

  /** So does the text after the last hit, when the old node's type is not
      the pattern's. */
  lemma RestSpells(p: Pattern, x: string, orig: TextNode)
    requires orig.kind != KindOf(p)
    ensures Spelled(p, Rest(x, orig)) == x
  {
    if x != "" {
      SpelledCons(p, TextNode(x, orig.kind, orig.url), []);
    }
  }

  /** The nodes of `s[pos..]` when its first hit is `h`. */
  lemma NodesCons(p: Pattern, s: string, pos: nat, h: Hit, rest: seq<Hit>, orig: TextNode)
    requires Placed(p, s, pos, [h] + rest) && Placed(p, s, End(h), rest)
    ensures Fits(p, s, h)
    ensures NodesOf(p, s, pos, [h] + rest, orig)
         == Gap(s[pos..h.at]) + [SpanOf(p, s, h)] + NodesOf(p, s, End(h), rest, orig)
    ensures GroupsOf(p, s, pos, [h] + rest)
         == [Groups(AltOf(p, s, h), UrlOf(p, s, h))] + GroupsOf(p, s, End(h), rest)
  {
    assert ([h] + rest)[1..] == rest;
  }

  /** The scan from `pos` when a match follows. */
  lemma ScanCons(p: Pattern, s: string, pos: nat, h: Hit)
    requires pos <= |s| && FirstFrom(p, s, pos) == Some(h)
    ensures End(h) <= |s| && Scan(p, s, pos) == [h] + Scan(p, s, End(h))
    ensures Placed(p, s, pos, [h] + Scan(p, s, End(h)))
  {
  }

  /** A hit's span reads back as what `s` holds at the hit. */
  lemma SpanSpells(p: Pattern, s: string, h: Hit)
    requires MatchAt(p, s, h.at) == Some(h)
    ensures Fits(p, s, h) && Spelled(p, [SpanOf(p, s, h)]) == s[h.at..End(h)]
  {
    MatchSpells(p, s, h);
    SpelledCons(p, SpanOf(p, s, h), []);
  }

  /** The text up to a hit and the hit read back as what `s` holds there. */
  lemma HitReads(p: Pattern, s: string, pos: nat, h: Hit)
    requires pos <= h.at && MatchAt(p, s, h.at) == Some(h)
    ensures Fits(p, s, h) && Spelled(p, Gap(s[pos..h.at]) + [SpanOf(p, s, h)]) == s[pos..End(h)]
  {
    SpanSpells(p, s, h);
    var gap, span := Gap(s[pos..h.at]), [SpanOf(p, s, h)];
    SpelledAppend(p, gap, span);
    GapSpells(p, s[pos..h.at]);
    Adjacent(s, pos, h.at, End(h));
  }

  /** Reassembly from `pos` on: the nodes read back as `s[pos..]`. */
  lemma {:induction false} NodesSpell(p: Pattern, s: string, pos: nat, orig: TextNode)
    requires pos <= |s| && orig.kind != KindOf(p)
    ensures Spelled(p, NodesOf(p, s, pos, Scan(p, s, pos), orig)) == s[pos..]
    decreases |s| - pos
  {
    var f := FirstFrom(p, s, pos);
    if f.None? {
      RestSpells(p, s[pos..], orig);
    } else {
      var h := f.value;
      var rest := Scan(p, s, End(h));
      ScanCons(p, s, pos, h);
      NodesCons(p, s, pos, h, rest, orig);
      NodesSpell(p, s, End(h), orig);
      SpellStep(p, s, pos, h, NodesOf(p, s, End(h), rest, orig));
    }
  }

  /** One hit more: the text before it, the hit, and what follows read
      back as `s[pos..]`. */
  lemma SpellStep(p: Pattern, s: string, pos: nat, h: Hit, tail: seq<TextNode>)
    requires pos <= |s| && FirstFrom(p, s, pos) == Some(h) && End(h) <= |s|
    requires Spelled(p, tail) == s[End(h)..]
    ensures Spelled(p, Gap(s[pos..h.at]) + [SpanOf(p, s, h)] + tail) == s[pos..]
  {
    var head := Gap(s[pos..h.at]) + [SpanOf(p, s, h)];
    assert Spelled(p, head) == s[pos..End(h)] by {
      FirstFromMatches(p, s, pos, h);
      HitReads(p, s, pos, h);
    }
    assert s[pos..End(h)] + s[End(h)..] == s[pos..] by {
      AdjacentTail(s, pos, End(h));
    }
    SpelledAppend(p, head, tail);
  }

  /** The pass on one node loses nothing: writing every span it made of
      the pattern's kind back as its literal gives the node's text back,
      when the node is not itself of that kind. */
  lemma MatchNodesSpell(p: Pattern, s: string, orig: TextNode)
    requires orig.kind != KindOf(p)
    ensures Spelled(p, MatchNodes(p, s, orig)) == s
  {
    NodesSpell(p, s, 0, orig);
  }

  /** The spans of the pattern's kind, as the groups they carry. */
  function SpansOf(p: Pattern, ns: seq<TextNode>): seq<Groups>
  {
    if ns == [] then []
    else
      (if ns[0].kind == KindOf(p) && ns[0].url.Some? then [Groups(ns[0].text, ns[0].url.value)] else [])
      + SpansOf(p, ns[1..])
  }

  lemma SpansCons(p: Pattern, n: TextNode, ns: seq<TextNode>)
    ensures SpansOf(p, [n] + ns) == SpansOf(p, [n]) + SpansOf(p, ns)
  {
    assert ([n] + ns)[1..] == ns;
    assert [n][1..] == [];
  }

  lemma {:induction false} SpansAppend(p: Pattern, xs: seq<TextNode>, ys: seq<TextNode>)
    ensures SpansOf(p, xs + ys) == SpansOf(p, xs) + SpansOf(p, ys)
  {
    if xs != [] {
      SpansAppend(p, xs[1..], ys);
      ConsAppend(xs, ys);
      SpansCons(p, xs[0], xs[1..] + ys);
      SpansCons(p, xs[0], xs[1..]);
      Assoc(SpansOf(p, [xs[0]]), SpansOf(p, xs[1..]), SpansOf(p, ys));
    } else {
      assert xs + ys == ys;
    }
  }

  /** Plain text, and text keeping an old type other than the pattern's,
      holds no span of the pattern's kind. */
  lemma PlainSpans(p: Pattern, x: string, orig: TextNode)
    requires orig.kind != KindOf(p)
    ensures SpansOf(p, Gap(x)) == [] && SpansOf(p, Rest(x, orig)) == []
  {
    if x != "" {
      assert [TextNode(x, Text, None)][1..] == [];
      assert [TextNode(x, orig.kind, orig.url)][1..] == [];
    }
  }

  /** The spans from `pos` on carry the groups of the scan, in order. */
  lemma {:induction false} NodesSpans(p: Pattern, s: string, pos: nat, orig: TextNode)
    requires pos <= |s| && orig.kind != KindOf(p)
    ensures SpansOf(p, NodesOf(p, s, pos, Scan(p, s, pos), orig)) == GroupsOf(p, s, pos, Scan(p, s, pos))
    decreases |s| - pos
  {
    var f := FirstFrom(p, s, pos);
    if f.None? {
      PlainSpans(p, s[pos..], orig);
    } else {
      var h := f.value;
      var rest := Scan(p, s, End(h));
      ScanCons(p, s, pos, h);
      NodesCons(p, s, pos, h, rest, orig);
      NodesSpans(p, s, End(h), orig);
      SpansStep(p, s, pos, h, NodesOf(p, s, End(h), rest, orig), orig);
    }
  }

  /** One hit more: its span comes first among the spans from `pos` on. */
  lemma SpansStep(p: Pattern, s: string, pos: nat, h: Hit, tail: seq<TextNode>, orig: TextNode)
    requires pos <= h.at && Fits(p, s, h) && orig.kind != KindOf(p)
    ensures SpansOf(p, Gap(s[pos..h.at]) + [SpanOf(p, s, h)] + tail)
         == [Groups(AltOf(p, s, h), UrlOf(p, s, h))] + SpansOf(p, tail)
  {
    var gap, span := Gap(s[pos..h.at]), SpanOf(p, s, h);
    assert SpansOf(p, gap + [span]) == [Groups(AltOf(p, s, h), UrlOf(p, s, h))] by {
      PlainSpans(p, s[pos..h.at], orig);
      SpansAppend(p, gap, [span]);
      SpansCons(p, span, []);
    }
    SpansAppend(p, gap + [span], tail);
  }

  /** The spans of the pattern's kind the pass makes of one node are,
      text and url, exactly the groups `re.findall` returns for its text. */
  lemma MatchNodesSpans(p: Pattern, s: string, orig: TextNode)
    requires orig.kind != KindOf(p)
    ensures SpansOf(p, MatchNodes(p, s, orig)) == FindAll(p, s)
  {
    NodesSpans(p, s, 0, orig);
  }

  /** Without a `[` the pattern cannot match. */
  lemma NoBracketNoMatch(p: Pattern, s: string, i: nat)
    requires '[' !in s
    ensures MatchAt(p, s, i).None?
  {
    if p == ImagePattern && i + 2 <= |s| {
      assert s[i + 1] in s;
    } else if p == LinkPattern && i + 1 <= |s| {
      assert s[i] in s;
    }
  }

  /** A text the pattern does not match comes through the pass as it
      went in: one node, with the old type and url, or none when the text
      is empty. */
  lemma NoMatchKeeps(p: Pattern, s: string, orig: TextNode)
    requires FindAll(p, s) == []
    ensures MatchNodes(p, s, orig) == Rest(s, orig)
  {
    assert |Scan(p, s, 0)| == 0;
    assert s[0..] == s;
  }

  /** In particular a text without a `[`. */
  lemma NoBracketKeeps(p: Pattern, s: string, orig: TextNode)
    requires '[' !in s
    ensures MatchNodes(p, s, orig) == Rest(s, orig)
  {
    var f := FirstFrom(p, s, 0);
    if f.Some? {
      FirstFromMatches(p, s, 0, f.value);
      NoBracketNoMatch(p, s, f.value.at);
    }
    NoMatchKeeps(p, s, orig);
  }

  /** A pass over spans whose texts are not empty and hold no `[` returns
      them unchanged. */
  lemma {:induction false} PatternAbsent(p: Pattern, nodes: seq<TextNode>)
    requires forall k :: 0 <= k < |nodes| ==> nodes[k].text != "" && '[' !in nodes[k].text
    ensures SplitPattern(p, nodes) == nodes
  {
    if nodes != [] {
      var init, last := nodes[..|nodes| - 1], nodes[|nodes| - 1];
      PatternAbsent(p, init);
      NoBracketKeeps(p, last.text, last);
      assert init + [last] == nodes;
    }
  }

  /** The only nodes the pass can leave empty are the spans of matches
      with an empty first group: text before a match and the remainder
      are emitted only when not empty. */
  lemma {:induction false} NodesNonEmpty(p: Pattern, s: string, pos: nat, hits: seq<Hit>, orig: TextNode)
    requires Placed(p, s, pos, hits)
    ensures forall n | n in NodesOf(p, s, pos, hits, orig) :: n.text != "" || n.kind == KindOf(p)
    decreases |hits|
  {
    if hits != [] {
      NodesNonEmpty(p, s, End(hits[0]), hits[1..], orig);
    }
  }

  lemma MatchNodesNonEmpty(p: Pattern, s: string, orig: TextNode)
    ensures forall n | n in MatchNodes(p, s, orig) :: n.text != "" || n.kind == KindOf(p)
  {
    NodesNonEmpty(p, s, 0, Scan(p, s, 0), orig);
  }

  /** Over a whole pass, when no node is of the pattern's kind yet: the
      spans read back as the texts of the old nodes, run together. */
  lemma {:induction false} PassSpells(p: Pattern, nodes: seq<TextNode>)
    requires forall k :: 0 <= k < |nodes| ==> nodes[k].kind != KindOf(p)
    ensures Spelled(p, SplitPattern(p, nodes)) == Content(nodes)
  {
    if nodes != [] {
      var init, last := nodes[..|nodes| - 1], nodes[|nodes| - 1];
      assert Spelled(p, SplitPattern(p, init)) == Content(init) by {
        PassSpells(p, init);
      }
      assert Spelled(p, MatchNodes(p, last.text, last)) == last.text by {
        MatchNodesSpell(p, last.text, last);
      }
      SpelledAppend(p, SplitPattern(p, init), MatchNodes(p, last.text, last));
      ContentLast(nodes);
    }
  }

  /** The groups `re.findall` returns for each node's text, node after node. */
  function Found(p: Pattern, nodes: seq<TextNode>): seq<Groups>
  {
    if nodes == [] then [] else Found(p, nodes[..|nodes| - 1]) + FindAll(p, nodes[|nodes| - 1].text)
  }

  /** Over a whole pass, when no node is of the pattern's kind yet: the
      spans of that kind are the matches of every node, in order. */
  lemma {:induction false} PassSpans(p: Pattern, nodes: seq<TextNode>)
    requires forall k :: 0 <= k < |nodes| ==> nodes[k].kind != KindOf(p)
    ensures SpansOf(p, SplitPattern(p, nodes)) == Found(p, nodes)
  {
    if nodes != [] {
      var init, last := nodes[..|nodes| - 1], nodes[|nodes| - 1];
      assert SpansOf(p, SplitPattern(p, init)) == Found(p, init) by {
        PassSpans(p, init);
      }
      assert SpansOf(p, MatchNodes(p, last.text, last)) == FindAll(p, last.text) by {
        MatchNodesSpans(p, last.text, last);
      }
      SpansAppend(p, SplitPattern(p, init), MatchNodes(p, last.text, last));
    }
  }
}
