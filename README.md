# Markdown to HTML core of a static site generator, in Dafny

This project models the part of the generator that turns a Markdown
document into a tree of HTML nodes and renders it. It is written as
verified Dafny and proves what that part promises.

- **HTML nodes** (`htmlnode.dfy`, module `HtmlNode`):
  - `LeafNode` and `ParentNode` are the two variants of one datatype, `Node`.
  - Rendering is `ToHtml`. It fails exactly where the source raises: a leaf without a value, or a parent without a tag or without a child list, anywhere in the tree.
  - Node equality compares tag, value, children and props.
- **Text spans** (`textnode.dfy`, `TextNodes`): the six span kinds, and the element each span becomes.
- **The inline lexer**:
  - `delimiters.dfy` (`Delimiters`): the delimiter passes for `**`, `*` and the backtick.
  - `patterns.dfy` (`Patterns`): the image and link passes, including the two `findall` patterns they use.
  - `matches.dfy` (`Matches`): what `findall` and the image and link passes make of a text laid out as plain stretches and literals.
  - `lexer.dfy` (`Lexer`): the five passes in the source's order, and `text_to_children`.
- **The block layer**:
  - `blocks.dfy` (`Blocks`): the segmenter that cuts a document into blocks. It gathers lines, and a fenced code block keeps its lines as they are.
  - `classify.dfy` (`Classify`): the classifier. It tries the five block patterns in order, anchored at the start of the block.
  - `builders.dfy` (`Builders`): the heading, code and paragraph builders.
  - `quotes.dfy` (`Quotes`): the quote builder, including the quote pattern's `findall`.
  - `lists.dfy` (`Lists`): the list builder.
- **The document** (`document.dfy`, `Document`): `block_to_html_node`, `markdown_to_html_node` and `extract_title`.
- **Shared helpers**: `wrappers.dfy` (`Option`, `Result`), `strings.dfy` (Python's `split`, `join`, `find`, `strip`, `count` and `str(int)` on strings) and `seqs.dfy` (sequence regrouping).

How the source's forms carry over:
- The source's loops become methods proved equal to a specification function. These are `SplitNodesDelimiter`, `SplitNodesPattern`, `MarkdownToBlocks`, `QuoteBlockToHtmlNode`, `ListBlockToHtmlNode`, `BuildBlocks` and `FirstTitle`.
- What the source computes without a loop is a function.
- Every exception the source raises is an `Err` result. The `Err` carries no message.
- A `None` the source tests for is an `Option`.
- A props dictionary is the list of its entries in insertion order.

The code builder: a code block's text loses every leading newline, as
`lstrip("\n")` does, and keeps the newline before the closing fence.

## Model

| member | source | states |
|---|---|---|
| HtmlNode.PropsToHtml | src/htmlnode.py:11-14 | the attribute string is empty exactly when there are no props or the dictionary is empty |
| HtmlNode.PropsOne | src/htmlnode.py:11-14 | a dictionary of one entry renders as `key="val"` |
| HtmlNode.PropsInOrder | src/htmlnode.py:14 | attributes come out in insertion order as `key="val"`, one space between them |
| HtmlNode.ToHtml | src/htmlnode.py:32-61 | rendering succeeds exactly for well-formed trees: every leaf has a value, every parent has a tag and a child list, recursively |
| HtmlNode.ChildrenToHtml | src/htmlnode.py:57-59 | the children render exactly when each of them does |
| HtmlNode.LeafRendering | src/htmlnode.py:32-43 | a leaf without a value fails; an untagged leaf is its raw value; a tagged one is `<tag>value</tag>`, with ` props` inside the opening tag when there are any |
| HtmlNode.ParentRendering | src/htmlnode.py:50-61 | a parent renders as `<tag>`, its children's renderings concatenated in order, then `</tag>`; its props are not rendered |
| HtmlNode.ChildrenRendering | src/htmlnode.py:58 | the children's markup is the concatenation of each child's rendering |
| HtmlNode.NodeEqIsFieldEquality | src/htmlnode.py:19-25 | node equality holds exactly when tag, value, children (recursively) and props agree, whatever the subclasses |
| HtmlNode.EqualNodesRenderAlike | src/htmlnode.py:19-25 | equal nodes render to the same result |
| HtmlNode.ChildrenRenderAlike | src/htmlnode.py:19-25 | pairwise-equal child lists render to the same result |
| TextNodes.TextNodeToHtmlNode | src/textnode.py:52-65 | every span becomes a well-formed leaf |
| TextNodes.SpanRendering | src/textnode.py:52-65 | the rendering of each of the six span kinds: raw text, `b`, `i`, `code`, a link with `href`, an image with `src` and `alt` and an empty value |
| Delimiters.SplitNodesDelimiter | src/textnode.py:68-92 | the loop returns what the delimiter pass defines, node by node |
| Delimiters.DelimiterFailure | src/textnode.py:77-79 | the pass fails exactly when some plain span splits into an even number of pieces |
| Delimiters.AbsentKeeps | src/textnode.py:77-90 | a plain span without the delimiter comes out unchanged (dropped when empty) |
| Delimiters.DelimiterAbsent | src/textnode.py:68-92 | a list of spans, each either not plain or plain, non-empty, without url and without the delimiter, comes through the pass unchanged |
| Delimiters.PieceNodesShape | src/textnode.py:81-90 | the spans cut from one text are non-empty, carry no url, are plain or of the new kind, and spell the pieces in order |
| Delimiters.DelimiterPassContent | src/textnode.py:68-92 | a successful pass loses no text except the delimiters inside plain spans |
| Delimiters.DelimiterPassOthers | src/textnode.py:73-75 | spans of any third kind pass through unchanged and in order |
| Delimiters.ToggleSplit | src/textnode.py:77-90 | reading the text left to right and toggling at each delimiter gives the same spans as the split by parity |
| Patterns.MatchAt | src/textnode.py:7-8 | a match at an index fits the pattern there: opener, alt text, `](`, url, `)` |
| Patterns.FirstFromIsFirst | src/textnode.py:95-100 | the scan takes the leftmost match: no match starts before it |
| Patterns.MatchSpells | src/textnode.py:109 | the literal rebuilt from a match's groups occurs at the match, and its alt and url hold no newline (the url no `)`) |
| Patterns.LiteralMatches | src/textnode.py:7-8 | conversely, a rebuilt literal with such groups is a match wherever it occurs, and the match's first group ends no later than the literal's |
| Patterns.LabelShortest | src/textnode.py:7-8 | `(.*?)` is lazy: before the end of the first group there is no `](` that a reachable `)` follows |
| Patterns.MatchIsLazy | src/textnode.py:7-8 | a match's first group is the shortest one: no earlier `](` could have closed it |
| Patterns.SplitPoint | src/textnode.py:109-115 | splitting the remaining text at the first occurrence of the rebuilt literal cuts exactly around the match |
| Patterns.SplitOffMatch | src/textnode.py:109-115 | the `Invalid Markdown` raise cannot happen; the cut yields the text before the match, the new span and the text after |
| Patterns.SplitNodePattern | src/textnode.py:105-117 | the loop over one node's matches returns the specified spans |
| Patterns.SplitNodesPattern | src/textnode.py:103-136 | the image and link passes return the specified spans for the whole list |
| Patterns.MatchNodesSpell | src/textnode.py:112-117 | the spans cut from a text spell it back, each image or link written as its literal |
| Patterns.MatchNodesSpans | src/textnode.py:95-117 | the image or link spans of the result are exactly the groups `findall` returns, in order |
| Patterns.PassSpells | src/textnode.py:103-136 | across a whole pass, the result spells the input's text |
| Patterns.PassSpans | src/textnode.py:103-136 | across a whole pass, the new spans are exactly the matches found in each input span |
| Patterns.NoBracketKeeps | src/textnode.py:105-117 | a text without `[` comes out as one span of its own kind and url (dropped when empty) |
| Patterns.PatternAbsent | src/textnode.py:103-136 | spans whose texts are not empty and hold no `[` come through an image or link pass unchanged |
| Matches.LiteralHit | src/textnode.py:7-8 | a literal whose alt holds no newline or `]` and whose url holds no newline or `)` is matched exactly where it is spelled, with exactly those groups, and the match ends where the literal does |
| Matches.FindAllSegments | src/textnode.py:95-100 | `findall` on plain stretches without `[`, each followed by such a literal, and a tail without `[` returns the literals' groups, exactly and in order |
| Matches.MatchNodesSegments | src/textnode.py:105-117 | the pass cuts such a text into each non-empty stretch as a plain span, each literal as an image or link span carrying its url, then the tail with the old span's kind and url |
| Matches.TwoImages | src/textnode.py:95-96 | two images in one text are two matches with their own groups, not one match from the first `![` to the last `)`, and the image pass cuts them apart |
| Matches.TwoLinks | src/textnode.py:99-100 | likewise two links in one text are two matches, and the link pass cuts them apart |
| Patterns.MatchNodesNonEmpty | src/textnode.py:112-117 | no empty span is produced except an image or link with empty alt text |
| Lexer.PlainText | src/textnode.py:139-147 | a text without `*`, a backtick or `[` lexes to one plain span |
| Lexer.BoldBetween | src/textnode.py:139-147 | `x**y**z`, with `x`, `y` and `z` non-empty and free of `*`, backticks and `[`, lexes to a plain `x`, a bold `y` and a plain `z`, with the delimiters gone |
| Lexer.InertKept | src/textnode.py:143-146 | spans of non-empty text without `*`, a backtick or `[` and without url come through the italic, code, image and link passes unchanged |
| Lexer.UnbalancedBold | src/textnode.py:142 | an odd number of `**` makes lexing fail |
| Lexer.TextToChildren | src/textnode.py:297-302 | the children, when there are any, are well-formed leaves |
| Strings.JoinSplit | src/textnode.py:77 | joining the pieces of a split with its separator restores the text |
| Strings.SplitJoin | src/textnode.py:153 | splitting lines joined by a newline they do not hold restores the lines |
| Strings.ConcatSplit | src/textnode.py:77-90 | the concatenated pieces are the text with every delimiter deleted |
| Strings.Strip | src/textnode.py:161 | a stripped string is an infix with no white space at either end, empty exactly when the string is all white space |
| Strings.StripRemovesSpace | src/textnode.py:161 | only white space is removed: everything before and after the stripped infix is white space |
| Strings.StripTwice | src/textnode.py:161 | stripping is idempotent |
| Strings.CountAbsent | src/textnode.py:236 | the count of a character is zero exactly when the character is absent |
| Strings.NatToString | src/textnode.py:238 | the decimal form of a number is non-empty, all digits, reads back as the number, and has no leading zero |
| Strings.SplitFront | src/textnode.py:77 | a separator after a stretch without its first character ends the first piece there |
| Blocks.MarkdownToBlocks | src/textnode.py:150-172 | the loop returns the blocks the line-by-line segmenter defines |
| Blocks.StepsGood | src/textnode.py:153-168 | each step of the line loop keeps every emitted block good and the gathered lines clean |
| Blocks.SegmentedGood | src/textnode.py:150-172 | every block is non-empty and is either fenced or made of stripped, non-empty lines |
| Blocks.AllBlank | src/textnode.py:161-168 | a document of blank lines has no blocks |
| Blocks.BlanksSkip | src/textnode.py:161-168 | blank lines between blocks change nothing |
| Blocks.BlankRun | src/textnode.py:166-168 | a run of blank lines separates blocks exactly as one blank line does |
| Blocks.FenceVerbatim | src/textnode.py:154-156 | inside a fenced block every line other than the fence is kept as it is, white space and blank lines included |
| Blocks.FenceCloses | src/textnode.py:157-159 | a line that is exactly the fence closes the fenced block, which is emitted with it |
| Blocks.StepsAppend | src/textnode.py:153 | the line loop over two runs of lines is the loop over the first, then the second |
| Classify.BlockToBlockType | src/textnode.py:175-191 | each block type is chosen exactly when its pattern matches and no earlier pattern does |
| Classify.HeadingReading | src/textnode.py:10 | the heading pattern matches for some count of one to six `#` followed by a space exactly when the leading `#` run is such a count |
| Classify.OrderedReading | src/textnode.py:14 | the ordered-list pattern matches for some digit run exactly when it does for the maximal one |
| Classify.SevenHashes | src/textnode.py:10 | seven `#` make a paragraph, not a heading |
| Classify.ZeroIsParagraph | src/textnode.py:14 | a number starting with zero makes a paragraph, not an ordered list |
| Classify.FenceWins | src/textnode.py:11 | a fence anywhere makes a block code, unless it is a heading, even when it starts like a quote or a list |
| Classify.HeadingExample | src/test_textnode.py:263-271 | the tests' heading block is a heading |
| Classify.CodeExample | src/test_textnode.py:263-272 | the tests' code block is code |
| Classify.QuoteExample | src/test_textnode.py:263-273 | the tests' quote block is a quote |
| Classify.UnorderedStart | src/test_textnode.py:263-274 | a bullet, a space and a word character start an unordered list when no fence follows |
| Classify.OrderedStart | src/test_textnode.py:263-275 | a non-zero digit, a dot, a space and a word character start an ordered list when no fence follows |
| Classify.ParagraphExample | src/test_textnode.py:263-276 | the tests' paragraph is a paragraph |
| Builders.TaggedText | src/textnode.py:297-302 | the element over a text fails exactly when lexing does; it is a leaf holding the raw text exactly when the text lexes to one plain span, otherwise a parent over the spans' leaves |
| Builders.PlainTagged | src/textnode.py:287-294 | a text without markup becomes the leaf `<tag>text</tag>` |
| Builders.HeadingBlock | src/textnode.py:235-244 | a built heading is well-formed, with tag `h` followed by the count of `#` in the block |
| Builders.HeadingOf | src/textnode.py:235-244 | `n` hashes, a space and a text without `#` give the `h<n>` element over the text |
| Builders.HashInText | src/textnode.py:236-237 | for any count of leading `#`, a `#` anywhere in the heading text makes the builder fail: the split on the counted hashes and a space finds no separator |
| Builders.CodeGroups | src/textnode.py:11 | the code pattern's groups: found exactly when a fence occurs; the opening fence, language and code spell the block up to its last fence; the language is word characters |
| Builders.FencedCode | src/textnode.py:248-250 | a fence, a language of word characters, code not starting with a word character (backticks included) and a fence give exactly that language and that code |
| Builders.CodeBlockNode | src/textnode.py:247-254 | the code element is built exactly when a fence occurs, and is a well-formed `pre` |
| Builders.FencedCodeNode | src/textnode.py:247-254 | a fenced block becomes `pre` over one `code` leaf holding the code without its leading newlines, with `class="language-…"` when a language is named |
| Builders.ParagraphBlock | src/textnode.py:287-294 | a paragraph is built exactly when its text lexes, and is a well-formed `p` |
| Quotes.Quotes | src/textnode.py:12 | the quote pattern's matches never span a newline |
| Quotes.QuotesByLine | src/textnode.py:260 | `findall` over a block reads it line by line: a line with a `>` gives the text after its first `>` and one optional space; other lines give nothing |
| Quotes.QuoteItem | src/textnode.py:265-267 | each quoted line becomes a well-formed `p` |
| Quotes.QuoteBlock | src/textnode.py:257-269 | a built quote is a well-formed `blockquote` |
| Quotes.QuoteParagraphs | src/textnode.py:257-269 | the quote fails exactly when one of its matches fails to lex; with exactly one match, on whichever line, it is the `blockquote` element over that match's text; with none or several, it has one paragraph per match, in order |
| Quotes.QuoteBlockToHtmlNode | src/textnode.py:257-269 | the loop returns what the quote builder defines |
| Quotes.SingleQuote | src/textnode.py:261-263 | a one-line quote is the `blockquote` element over its text, with no paragraph |
| Lists.ItemText | src/textnode.py:277 | an item's text exists exactly when the line holds a space |
| Lists.ListItem | src/textnode.py:276-281 | each built item is a well-formed `li` |
| Lists.ListTag | src/textnode.py:282 | the list is `ol` exactly when the stripped first line starts with a digit, otherwise `ul`; it fails when that line is blank |
| Lists.ListBlock | src/textnode.py:272-284 | a built list is a well-formed `ol` or `ul` |
| Lists.ListBlockToHtmlNode | src/textnode.py:272-284 | the loop returns what the list builder defines |
| Lists.ListShape | src/textnode.py:272-284 | the list has one item per line, in line order, and fails exactly when an item fails or the first line is blank |
| Lists.MarkedItem | src/textnode.py:277 | the item text is the stripped text after the first space, whatever the marker |
| Lists.PlainItem | src/textnode.py:277-281 | an item without markup is a leaf `li` holding its stripped text |
| Lists.NoSpaceFails | src/textnode.py:277 | a line without a space makes the whole list fail |
| Document.BlockNode | src/textnode.py:204-222 | each block type goes to its builder; the result is well-formed and its element is the one its type makes |
| Document.BlockToHtmlNode | src/textnode.py:204-222 | the dispatch returns what the builders define |
| Document.Compiled | src/textnode.py:198-199 | a classified and built block is well-formed |
| Document.MarkdownToHtml | src/textnode.py:194-201 | the document is a well-formed tree |
| Document.Div | src/textnode.py:201 | the `div` over the built blocks is well-formed |
| Document.BuildBlocks | src/textnode.py:197-199 | the loop classifies and builds each block in order and fails at the first block that fails |
| Document.MarkdownToHtmlNode | src/textnode.py:194-201 | the entry point returns the `div` over the document's blocks |
| Document.DocumentShape | src/textnode.py:194-201 | the `div` has one child per block, in block order, and fails exactly when some block does |
| Document.BlankDocument | src/textnode.py:194-201 | a document of blank lines renders as `<div></div>` |
| Document.ExtractTitle | src/textnode.py:225-231 | the title is the one the first `# ` block gives |
| Document.FirstTitle | src/textnode.py:227-231 | the loop returns at the first block that starts with `# ` |
| Document.TitleAfterMarker | src/textnode.py:229 | in such a block the text after the first `# ` is the rest of the block |
| Document.TitleOfFirst | src/textnode.py:225-231 | the title is the stripped rest of the first block that starts with `# ` |
| Document.NoTitle | src/textnode.py:231 | the title fails exactly when no block starts with `# ` |
| Document.SubheadingIsNoTitle | src/textnode.py:228 | a second-level heading is not a title |

## Left out

- `main.py` is not part of this model. It does file reading and writing, directory copying and page templating.
- The `__repr__` methods are left out. They are debugging strings.
- The base `HTMLNode.to_html`, which raises `NotImplementedError`, is left out. The datatype has no plain base node.
- Exceptions become `Err` without the exception class or message.
- Character classes are ASCII readings:
  - `\w` is letters, digits and `_`;
  - `strip()` removes ASCII white space;
  - `isnumeric()` is an ASCII digit.
- Python's Unicode tables are not modelled.
- The regular expression engine is not modelled in general. Each of the source's seven fixed patterns is its own scanning function.
- Lexer.TextToChildren: no lemma relates the whole five-pass lexer's output back to the input text. Each pass's content and span properties are proved on its own, but not their composition.
- TextNodes.Str: a span without url stores the text `None` under `href` or `src`, as an f-string prints it, where the source's props dictionary holds the value `None` itself; the rendering is the same, but equality with a dictionary holding `None` is not modelled.
- Props dictionaries are entry lists. The source builds them only from literals with distinct keys, so duplicate keys are not considered.
