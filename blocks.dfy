/** The block segmenter of src/textnode.py (`markdown_to_blocks`): the
    lines of the document are gathered into blocks, blank lines ending a
    block, except inside a fenced code block, which keeps its lines as
    they are until a closing fence line. */
module Blocks {
  import opened Wrappers
  import opened Strings
  import opened Seqs

  /** The fence that opens and closes a code block. */
  const Fence: string := "```"

  /** The segmenter between two lines: the blocks emitted so far and the
      lines of the block being gathered. */
  datatype Segmenter = Segmenter(blocks: seq<string>, current: seq<string>)

  /** The block being gathered is a fenced one. */
  predicate InFence(st: Segmenter)
  {
    st.current != [] && StartsWith(st.current[0], Fence)
  }

  /** The block the gathered lines make. */
  function Block(lines: seq<string>): string
  {
    Join(lines, "\n")
  }

  /** One turn of the line loop. Inside a fence the line is kept as it is
      and a line that is exactly the fence closes the block. Outside, the
      stripped line is kept when not empty, and a blank line ends the
      block being gathered, if any. */
  function Step(st: Segmenter, line: string): Segmenter
  {
    if InFence(st) then
      if line == Fence then Segmenter(st.blocks + [Block(st.current + [line])], [])
      else Segmenter(st.blocks, st.current + [line])
    else if Strip(line) != "" then Segmenter(st.blocks, st.current + [Strip(line)])
    else if st.current != [] then Segmenter(st.blocks + [Block(st.current)], [])
    else st
  }

  /** The line loop over `lines`, from state `st`. */
  function Steps(st: Segmenter, lines: seq<string>): Segmenter
    decreases |lines|
  {
    if lines == [] then st else Steps(Step(st, lines[0]), lines[1..])
  }

  /** After the loop: the block still being gathered, if any, is emitted. */
  function Flush(st: Segmenter): seq<string>
  {
    if st.current != [] then st.blocks + [Block(st.current)] else st.blocks
  }

  /** The blocks `markdown_to_blocks(markdown)` returns. */
  function Segmented(markdown: string): seq<string>
  {
    Flush(Steps(Segmenter([], []), Split(markdown, "\n")))
  }

  lemma StepsCons(st: Segmenter, lines: seq<string>, i: nat)
    requires i < |lines|
    ensures Steps(st, lines[i..]) == Steps(Step(st, lines[i]), lines[i + 1..])
  {
    HeadTail(lines, i);
  }

  /** `markdown_to_blocks`. */
  method MarkdownToBlocks(markdown: string) returns (blocks: seq<string>)
    ensures blocks == Segmented(markdown)
  {
    blocks := [];
    var currentBlock: seq<string> := [];
    var lines := Split(markdown, "\n");
    for i := 0 to |lines|
      invariant Steps(Segmenter(blocks, currentBlock), lines[i..]) == Steps(Segmenter([], []), lines)
    {
      StepsCons(Segmenter(blocks, currentBlock), lines, i);
      var line := lines[i];
      var isCodeBlock := |currentBlock| > 0 && StartsWith(currentBlock[0], Fence);
      if isCodeBlock {
        currentBlock := currentBlock + [line];
        if line == Fence {
          blocks := blocks + [Join(currentBlock, "\n")];
          currentBlock := [];
        }
      } else {
        var content := Strip(line);
        if content != "" {
          currentBlock := currentBlock + [content];
          continue;
        }
        if |currentBlock| != 0 {
          blocks := blocks + [Join(currentBlock, "\n")];
          currentBlock := [];
        }
      }
    }
    assert lines[|lines|..] == [];
    if |currentBlock| > 0 {
      blocks := blocks + [Join(currentBlock, "\n")];
    }
  }

  // ---------------------------------------------------------------------
  // What the segmenter promises
  // ---------------------------------------------------------------------

  /** Lines as the segmenter keeps them outside a fence: stripped, not
      empty, and holding no newline. */
  predicate Clean(lines: seq<string>)
  {
    forall k :: 0 <= k < |lines| ==> lines[k] != "" && Strip(lines[k]) == lines[k] && '\n' !in lines[k]
  }

  /** A block as it comes out: not empty, and either fenced or made of
      clean lines. */
  predicate GoodBlock(b: string)
  {
    b != "" && (StartsWith(b, Fence) || Clean(Split(b, "\n")))
  }

  /** The state keeps: every emitted block good, and the lines gathered
      outside a fence clean. */
  predicate GoodState(st: Segmenter)
  {
    (forall k :: 0 <= k < |st.blocks| ==> GoodBlock(st.blocks[k]))
    && (!InFence(st) ==> Clean(st.current))
  }

  /** Gathered lines make a good block. */
  lemma BlockGood(lines: seq<string>)
    requires lines != [] && (StartsWith(lines[0], Fence) || Clean(lines))
    ensures GoodBlock(Block(lines))
  {
    JoinStarts(lines, "\n");
    if StartsWith(lines[0], Fence) {
      assert Block(lines)[..3] == lines[0][..3];
    } else {
      assert lines[0] != "";
      SplitJoin(lines, '\n');
    }
  }

  /** A fenced block keeps its first line when a line is added. */
  lemma FenceStays(lines: seq<string>, line: string)
    requires lines != [] && StartsWith(lines[0], Fence)
    ensures (lines + [line])[0] == lines[0]
  {
  }

  /** One step keeps the state good, on a line that holds no newline. */
  lemma StepGood(st: Segmenter, line: string)
    requires GoodState(st) && '\n' !in line
    ensures GoodState(Step(st, line))
  {
    if InFence(st) {
      FenceStepGood(st, line);
    } else if Strip(line) != "" {
      var s := Strip(line);
      assert s != "" && Strip(s) == s && '\n' !in s by {
        StripTwice(line);
        StripAvoids(line, '\n');
      }
      KeepGood(st, s);
    } else if st.current != [] {
      assert GoodBlock(Block(st.current)) by {
        BlockGood(st.current);
      }
      EmitGood(st.blocks, Block(st.current));
    }
  }

  /** Emitting a good block keeps the state good. */
  lemma EmitGood(blocks: seq<string>, b: string)
    requires (forall k :: 0 <= k < |blocks| ==> GoodBlock(blocks[k])) && GoodBlock(b)
    ensures GoodState(Segmenter(blocks + [b], []))
  {
    var bs := blocks + [b];
    forall k | 0 <= k < |bs| ensures GoodBlock(bs[k]) {
      if k < |blocks| {
        assert bs[k] == blocks[k];
      }
    }
  }

  /** Gathering a clean line outside a fence keeps the state good. */
  lemma KeepGood(st: Segmenter, s: string)
    requires GoodState(st) && !InFence(st) && s != "" && Strip(s) == s && '\n' !in s
    ensures GoodState(Segmenter(st.blocks, st.current + [s]))
  {
    var cs := st.current + [s];
    assert Clean(cs) by {
      forall k | 0 <= k < |cs| ensures cs[k] != "" && Strip(cs[k]) == cs[k] && '\n' !in cs[k] {
        if k < |st.current| {
          assert cs[k] == st.current[k];
        }
      }
    }
  }

  /** A step inside a fence keeps the state good. */
  lemma FenceStepGood(st: Segmenter, line: string)
    requires GoodState(st) && InFence(st)
    ensures GoodState(Step(st, line))
  {
    FenceStays(st.current, line);
    if line == Fence {
      assert GoodBlock(Block(st.current + [line])) by {
        BlockGood(st.current + [line]);
      }
      EmitGood(st.blocks, Block(st.current + [line]));
    } else {
      assert InFence(Segmenter(st.blocks, st.current + [line]));
    }
  }

  /** The loop keeps the state good, over lines that hold no newline. */
  lemma {:induction false} StepsGood(st: Segmenter, lines: seq<string>)
    requires GoodState(st) && forall k :: 0 <= k < |lines| ==> '\n' !in lines[k]
    ensures GoodState(Steps(st, lines))
    decreases |lines|
  {
    if lines != [] {
      StepGood(st, lines[0]);
      StepsGood(Step(st, lines[0]), lines[1..]);
    }
  }

  /** Every block `markdown_to_blocks` returns is non-empty; a block that
      does not start with a fence is made of stripped, non-empty lines. */
  lemma SegmentedGood(markdown: string)
    ensures forall k :: 0 <= k < |Segmented(markdown)| ==> GoodBlock(Segmented(markdown)[k])
  {
    var lines := Split(markdown, "\n");
    LinesAvoid(markdown);
    var st := Steps(Segmenter([], []), lines);
    assert GoodState(st) by {
      StepsGood(Segmenter([], []), lines);
    }
    if st.current != [] {
      assert GoodBlock(Block(st.current)) by {
        BlockGood(st.current);
      }
    }
  }

  /** The lines of a split on newlines hold no newline. */
  lemma LinesAvoid(markdown: string)
    ensures forall k :: 0 <= k < |Split(markdown, "\n")| ==> '\n' !in Split(markdown, "\n")[k]
  {
    var lines := Split(markdown, "\n");
    SplitPiecesAvoid(markdown, "\n");
    forall k | 0 <= k < |lines| ensures '\n' !in lines[k] {
      NewlineContained(lines[k]);
    }
  }

  /** A newline character in a string is an occurrence of "\n". */
  lemma NewlineContained(s: string)
    requires !Contains(s, "\n")
    ensures '\n' !in s
  {
    forall x | 0 <= x < |s| ensures s[x] != '\n' {
      assert s[x..x + 1] == [s[x]];
      assert !OccursAt(s, "\n", x);
    }
  }

  /** A blank line: nothing but white space. */
  predicate Blank(line: string)
  {
    forall k :: 0 <= k < |line| ==> IsSpace(line[k])
  }

  /** With no block being gathered, blank lines change nothing. */
  lemma {:induction false} BlanksSkip(st: Segmenter, blanks: seq<string>, rest: seq<string>)
    requires st.current == [] && forall k :: 0 <= k < |blanks| ==> Blank(blanks[k])
    ensures Steps(st, blanks + rest) == Steps(st, rest)
    decreases |blanks|
  {
    if blanks != [] {
      var xs := blanks + rest;
      assert xs[0] == blanks[0] && xs[1..] == blanks[1..] + rest;
      assert Step(st, blanks[0]) == st by {
        assert !InFence(st) && Blank(blanks[0]);
      }
      assert Steps(st, xs) == Steps(st, blanks[1..] + rest);
      BlanksSkip(st, blanks[1..], rest);
    } else {
      assert blanks + rest == rest;
    }
  }

  /** Outside a fence, a run of blank lines of any length separates
      blocks as a single empty line does. */
  lemma BlankRun(st: Segmenter, blanks: seq<string>, rest: seq<string>)
    requires !InFence(st) && blanks != [] && forall k :: 0 <= k < |blanks| ==> Blank(blanks[k])
    ensures Steps(st, blanks + rest) == Steps(st, [""] + rest)
  {
    var next := Step(st, "");
    assert Steps(st, blanks + rest) == Steps(Step(st, blanks[0]), blanks[1..] + rest) by {
      ConsAppend(blanks, rest);
    }
    assert Step(st, blanks[0]) == next by {
      assert Blank(blanks[0]) && Strip(blanks[0]) == "";
      assert Strip("") == "";
    }
    assert Steps(next, blanks[1..] + rest) == Steps(next, rest) by {
      assert forall k :: 0 <= k < |blanks[1..]| ==> Blank(blanks[1..][k]) by {
        forall k | 0 <= k < |blanks[1..]| ensures Blank(blanks[1..][k]) {
          assert blanks[1..][k] == blanks[k + 1];
        }
      }
      BlanksSkip(next, blanks[1..], rest);
    }
    assert Steps(st, [""] + rest) == Steps(next, rest) by {
      assert ([""] + rest)[0] == "" && ([""] + rest)[1..] == rest;
    }
  }

  /** A document of blank lines has no block. */
  lemma AllBlank(markdown: string)
    requires forall k :: 0 <= k < |Split(markdown, "\n")| ==> Blank(Split(markdown, "\n")[k])
    ensures Segmented(markdown) == []
  {
    var lines := Split(markdown, "\n");
    BlanksSkip(Segmenter([], []), lines, []);
    assert lines + [] == lines;
  }

  /** Inside a fence every line up to the closing one is kept verbatim,
      blank or not. */
  lemma {:induction false} FenceVerbatim(st: Segmenter, lines: seq<string>)
    requires InFence(st) && forall k :: 0 <= k < |lines| ==> lines[k] != Fence
    ensures Steps(st, lines) == Segmenter(st.blocks, st.current + lines)
    decreases |lines|
  {
    if lines != [] {
      var next := Segmenter(st.blocks, st.current + [lines[0]]);
      assert Step(st, lines[0]) == next;
      FenceVerbatim(next, lines[1..]);
      assert st.current + [lines[0]] + lines[1..] == st.current + lines;
    }
  }

  /** A fenced block is emitted when its closing fence line comes, made of
      all its lines as they are, the fence lines included. */
  lemma FenceCloses(st: Segmenter, lines: seq<string>, rest: seq<string>)
    requires InFence(st) && forall k :: 0 <= k < |lines| ==> lines[k] != Fence
    ensures Steps(st, lines + [Fence] + rest)
         == Steps(Segmenter(st.blocks + [Block(st.current + lines + [Fence])], []), rest)
  {
    FenceVerbatim(st, lines);
    var mid := Segmenter(st.blocks, st.current + lines);
    StepsAppend(st, lines, [Fence] + rest);
    assert lines + [Fence] + rest == lines + ([Fence] + rest);
    assert ([Fence] + rest)[1..] == rest;
    assert InFence(mid);
  }

  /** The loop over two runs of lines is the loop over the second from
      where the first left off. */
  lemma {:induction false} StepsAppend(st: Segmenter, xs: seq<string>, ys: seq<string>)
    ensures Steps(st, xs + ys) == Steps(Steps(st, xs), ys)
    decreases |xs|
  {
    if xs != [] {
      ConsAppend(xs, ys);
      StepsAppend(Step(st, xs[0]), xs[1..], ys);
    } else {
      assert xs + ys == ys;
    }
  }
}
