/** The block classifier of src/textnode.py (`block_to_block_type`): the
    five block patterns tried in order with `re.match`, which anchors a
    pattern at the start of the block only, and the first that matches
    decides. */
module Classify {
  import opened Strings
  import opened Blocks

  datatype BlockType = Paragraph | Heading | Quote | CodeBlock | UnorderedList | OrderedList

  /** The number of `c` characters `s` starts with. */
  function Leading(s: string, c: char): (n: nat)
    ensures n <= |s| && (n == |s| || s[n] != c)
    ensures forall k :: 0 <= k < n ==> s[k] == c
  {
    if s != [] && s[0] == c then 1 + Leading(s[1..], c) else 0
  }

  /** The end of the run of decimal digits in `s` from index `i`. */
  function DigitsEnd(s: string, i: nat): (j: nat)
    requires i <= |s|
    ensures i <= j <= |s| && (j == |s| || !IsDigit(s[j]))
    ensures forall k :: i <= k < j ==> IsDigit(s[k])
    decreases |s| - i
  {
    if i < |s| && IsDigit(s[i]) then DigitsEnd(s, i + 1) else i
  }

  /** `^(#{1,6}\ )(.*)` matches: the run of leading `#` (the regex gives
      back a shorter run only to find a space, and a `#` is not one) is one
      to six long and a space follows it. */
  predicate IsHeading(b: string)
  {
    var n := Leading(b, '#');
    1 <= n <= 6 && n < |b| && b[n] == ' '
  }

  /** `(```)?(\w*)([\S\s]*)(```)` matches at the start: both leading groups
      may be empty, so it matches as soon as a fence occurs anywhere. */
  predicate IsCode(b: string)
  {
    Contains(b, Fence)
  }

  /** `>\ ?(.*)` matches at the start. */
  predicate IsQuote(b: string)
  {
    b != [] && b[0] == '>'
  }

  /** `^((\*|\-)\ \w)` matches. */
  predicate IsUnordered(b: string)
  {
    |b| >= 3 && (b[0] == '*' || b[0] == '-') && b[1] == ' ' && IsWordChar(b[2])
  }

  /** `^([1-9]([0-9]+)?\.\ \w)` matches: a digit other than zero, the rest
      of the digit run, then a dot, a space and a word character. */
  predicate IsOrdered(b: string)
  {
    b != [] && '1' <= b[0] <= '9' &&
    var k := DigitsEnd(b, 1);
    k + 2 < |b| && b[k] == '.' && b[k + 1] == ' ' && IsWordChar(b[k + 2])
  }

  /** `block_to_block_type`: the first pattern that matches decides. */
  function BlockToBlockType(b: string): (r: BlockType)
    ensures r == Heading <==> IsHeading(b)
    ensures r == CodeBlock <==> !IsHeading(b) && IsCode(b)
    ensures r == Quote <==> !IsHeading(b) && !IsCode(b) && IsQuote(b)
    ensures r == UnorderedList <==> !IsHeading(b) && !IsCode(b) && !IsQuote(b) && IsUnordered(b)
    ensures r == OrderedList <==>
      !IsHeading(b) && !IsCode(b) && !IsQuote(b) && !IsUnordered(b) && IsOrdered(b)
  {
    if IsHeading(b) then Heading
    else if IsCode(b) then CodeBlock
    else if IsQuote(b) then Quote
    else if IsUnordered(b) then UnorderedList
    else if IsOrdered(b) then OrderedList
    else Paragraph
  }

  // ---------------------------------------------------------------------
  // The patterns as the regex engine reads them
  // ---------------------------------------------------------------------

  /** `#{1,6}\ ` with backtracking: some count of `#` from one to six,
      then a space. */
  predicate HeadingMatchAt(b: string, n: nat)
  {
    1 <= n <= 6 && n < |b| && (forall k :: 0 <= k < n ==> b[k] == '#') && b[n] == ' '
  }

  /** The heading pattern matches for some count iff it matches for the
      run of leading `#`. */
  lemma HeadingReading(b: string)
    ensures IsHeading(b) <==> exists n: nat :: HeadingMatchAt(b, n)
  {
    var m := Leading(b, '#');
    if IsHeading(b) {
      assert HeadingMatchAt(b, m);
    }
    forall n: nat | HeadingMatchAt(b, n) ensures n == m {
      LeadingPrefix(b, n);
    }
  }

  /** `[1-9]([0-9]+)?\.\ \w` with backtracking: the digits end at some
      index `k`. */
  predicate OrderedMatchAt(b: string, k: nat)
  {
    1 <= k && k + 2 < |b| && '1' <= b[0] <= '9' && (forall j :: 1 <= j < k ==> IsDigit(b[j]))
    && b[k] == '.' && b[k + 1] == ' ' && IsWordChar(b[k + 2])
  }

  /** The ordered-list pattern matches for some digit run iff it matches
      for the maximal one. */
  lemma OrderedReading(b: string)
    ensures IsOrdered(b) <==> exists k: nat :: OrderedMatchAt(b, k)
  {
    if b != [] {
      var m := DigitsEnd(b, 1);
      if IsOrdered(b) {
        assert OrderedMatchAt(b, m);
      }
      forall k: nat | OrderedMatchAt(b, k) ensures k == m {
        DigitsPrefix(b, 1, k);
      }
    }
  }

  // ---------------------------------------------------------------------
  // Consequences of the order
  // ---------------------------------------------------------------------

  /** Seven `#` are no heading. */
  lemma SevenHashes(t: string)
    requires '`' !in t
    ensures BlockToBlockType("####### " + t) == Paragraph
  {
    var b := "####### " + t;
    assert Leading(b, '#') == 7 by {
      assert b[..8] == "####### ";
      LeadingPrefix(b, 7);
    }
    assert !IsCode(b) by {
      assert '`' !in b;
      CharAbsent(b, Fence);
    }
  }

  /** A run of `n` hashes that ends before another character is
      the leading run. */
  lemma {:induction false} LeadingPrefix(s: string, n: nat)
    requires n < |s| && s[n] != '#' && forall k :: 0 <= k < n ==> s[k] == '#'
    ensures Leading(s, '#') == n
  {
    if n > 0 {
      assert s[0] == '#';
      LeadingPrefix(s[1..], n - 1);
    }
  }

  /** A run of digits from `i` to `k` that ends before a non-digit is
      the whole run. */
  lemma {:induction false} DigitsPrefix(s: string, i: nat, k: nat)
    requires i <= k < |s| && !IsDigit(s[k]) && forall j :: i <= j < k ==> IsDigit(s[j])
    ensures DigitsEnd(s, i) == k
    decreases k - i
  {
    if i < k {
      assert IsDigit(s[i]);
      DigitsPrefix(s, i + 1, k);
    }
  }

  /** A block whose number starts with zero is a paragraph. */
  lemma ZeroIsParagraph(t: string)
    requires '`' !in t
    ensures BlockToBlockType("0. " + t) == Paragraph
  {
    var b := "0. " + t;
    assert b[0] == '0';
    assert !IsCode(b) by {
      assert '`' !in b;
      CharAbsent(b, Fence);
    }
  }

  /** A fence anywhere makes a block code, unless it is a heading, even
      when it starts like a quote or a list. */
  lemma FenceWins(b: string, i: nat)
    requires OccursAt(b, Fence, i) && b != [] && b[0] != '#'
    ensures BlockToBlockType(b) == CodeBlock
  {
    assert Leading(b, '#') == 0;
  }

  /** The example blocks of the repository's tests, one lemma each. */
  lemma HeadingExample()
    ensures BlockToBlockType("# This is a heading block") == Heading
  {
    var h := "# This is a heading block";
    assert Leading(h, '#') == 1 by { LeadingPrefix(h, 1); }
  }

  lemma CodeExample()
    ensures BlockToBlockType("```print('Hello world!')```") == CodeBlock
  {
    FenceWins("```print('Hello world!')```", 0);
  }

  lemma QuoteExample()
    ensures BlockToBlockType("> This is a quote") == Quote
  {
    var q := "> This is a quote";
    assert !IsCode(q) by { CharAbsent(q, Fence); }
  }

  /** A bullet, a space and a word character start an unordered list
      (the tests' "* first element…"), when no fence follows. */
  lemma UnorderedStart(bullet: char, w: char, rest: string)
    requires (bullet == '*' || bullet == '-') && IsWordChar(w) && '`' !in rest
    ensures BlockToBlockType([bullet, ' ', w] + rest) == UnorderedList
  {
    var b := [bullet, ' ', w] + rest;
    assert b[0] == bullet && b[1] == ' ' && b[2] == w;
    assert !IsCode(b) by {
      assert '`' !in b;
      CharAbsent(b, Fence);
    }
  }

  /** A digit other than zero, a dot, a space and a word character start
      an ordered list (the tests' "1. first element…"), when no fence
      follows. */
  lemma OrderedStart(d: char, w: char, rest: string)
    requires '1' <= d <= '9' && IsWordChar(w) && '`' !in rest
    ensures BlockToBlockType([d, '.', ' ', w] + rest) == OrderedList
  {
    var b := [d, '.', ' ', w] + rest;
    assert b[0] == d && b[1] == '.' && b[2] == ' ' && b[3] == w;
    assert DigitsEnd(b, 1) == 1;
    assert !IsCode(b) by {
      assert '`' !in b;
      CharAbsent(b, Fence);
    }
  }

  lemma ParagraphExample()
    ensures BlockToBlockType("This is a paragraph") == Paragraph
  {
    var p := "This is a paragraph";
    assert !IsCode(p) by { CharAbsent(p, Fence); }
  }
}
