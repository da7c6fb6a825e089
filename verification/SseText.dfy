/** The frame reader on raw text. The standard ends a line at a line feed, a carriage
  * return, or the two together; the reader at a line feed, trimming the carriage
  * returns in front of it. The text begins after the ready comment.
  */
module SseText {
  import opened Options
  import opened Sse
  import opened SseStandard

  // ---------------------------------------------------------------------
  // The standard's reading of a text
  // ---------------------------------------------------------------------

  /** The first carriage return or line feed, or the end. */
  function LineEnd(s: string): (i: nat)
    ensures i <= |s| && '\n' !in s[..i] && '\r' !in s[..i]
    ensures i < |s| ==> s[i] in {'\n', '\r'}
  {
    if s == "" || s[0] in {'\n', '\r'} then 0
    else
      var i := LineEnd(s[1..]);
      assert s[..i + 1] == [s[0]] + s[1..][..i];
      i + 1
  }

  /** What follows the first line end of a text that has one. */
  function Beyond(s: string): string
    requires LineEnd(s) < |s|
  {
    var i := LineEnd(s);
    if s[i] == '\r' && i + 1 < |s| && s[i + 1] == '\n' then s[i + 2..] else s[i + 1..]
  }

  /** Its whole lines. What is left when the text ends is no line. */
  function Lines(s: string): seq<string>
    decreases |s|
  {
    if LineEnd(s) == |s| then [] else [s[..LineEnd(s)]] + Lines(Beyond(s))
  }

  /** The blocks that blank lines end, `begun` being the lines of the first so far. */
  function Grouped(begun: Block, lines: seq<string>): seq<Block>
    decreases |lines|
  {
    if lines == [] then []
    else if lines[0] == "" then [begun] + Grouped([], lines[1..])
    else Grouped(begun + [lines[0]], lines[1..])
  }

  /** The lines after the last blank one: a block the text ends inside. */
  function Unended(begun: Block, lines: seq<string>): Block
    decreases |lines|
  {
    if lines == [] then begun
    else if lines[0] == "" then Unended([], lines[1..])
    else Unended(begun + [lines[0]], lines[1..])
  }

  function BlocksOfText(s: string): seq<Block> {
    Grouped([], Lines(s))
  }

  /** Only whole blocks are dispatched. */
  function DispatchedText(s: string): seq<Frame> {
    DispatchedAll(BlocksOfText(s))
  }

  // ---------------------------------------------------------------------
  // Texts the two divide into the same lines
  // ---------------------------------------------------------------------

  /** No carriage return stands alone. */
  predicate Paired(s: string) {
    forall i :: 0 <= i < |s| && s[i] == '\r' ==> i + 1 < |s| && s[i + 1] == '\n'
  }

  predicate Short(lines: seq<string>) {
    forall i :: 0 <= i < |lines| ==> |lines[i]| + 2 <= MAX_FRAME
  }

  /** The data of a frame stays under the bound, that of an unended one included. */
  predicate Sized(size: nat, blocks: seq<Block>)
    decreases |blocks|
  {
    blocks == [] ||
    (&& size + DataSize(blocks[0]) <= MAX_FRAME
     && Sized(if Joined("", HeardData(blocks[0])) == "" then size + DataSize(blocks[0]) else 0, blocks[1..]))
  }

  predicate WithinBound(s: string) {
    Short(Lines(s)) && Sized(0, BlocksOfText(s) + [Unended([], Lines(s))])
  }

  /** The lines again, each ended by a line feed. */
  function Rendered(lines: seq<string>): string {
    if lines == [] then "" else lines[0] + "\n" + Rendered(lines[1..])
  }

  lemma {:induction false} EndsAtFeed(s: string)
    requires Paired(s)
    ensures LineFeed(s) == |s| ==> LineEnd(s) == |s|
    ensures LineFeed(s) < |s| ==>
              LineEnd(s) == LineFeed(s) || (LineEnd(s) == LineFeed(s) - 1 && s[LineEnd(s)] == '\r')
  {
    if s != "" && s[0] !in {'\n', '\r'} {
      assert forall i :: 0 <= i < |s[1..]| ==> s[1..][i] == s[i + 1];
      EndsAtFeed(s[1..]);
    }
    if s != "" && s[0] == '\r' {
      assert s[1] == '\n';
      assert LineFeed(s[1..]) == 0;
    }
  }

  lemma TrimsOne(s: string, c: char)
    requires c in {'\n', '\r'}
    ensures TrimEol(s + [c]) == TrimEol(s)
  {
    assert (s + [c])[..|s|] == s;
  }

  lemma TrimsNone(s: string)
    requires s != "" ==> s[|s| - 1] !in {'\n', '\r'}
    ensures TrimEol(s) == s
  {
  }

  lemma TrimsTo(line: string, end: string)
    requires '\n' !in line && '\r' !in line && (end == "\n" || end == "\r\n")
    ensures TrimEol(line + end) == line
  {
    hide TrimEol;
    TrimsNone(line);
    if end == "\n" {
      TrimsOne(line, '\n');
    } else {
      TrimsOne(line, '\r');
      TrimsOne(line + "\r", '\n');
      assert line + end == (line + "\r") + "\n";
    }
  }

  lemma PairedRest(s: string, n: nat)
    requires Paired(s) && n <= |s|
    ensures Paired(s[n..])
  {
    forall i | 0 <= i < |s[n..]| && s[n..][i] == '\r' ensures i + 1 < |s[n..]| && s[n..][i + 1] == '\n' {
      assert s[n + i] == '\r';
    }
  }

  /** A line end is a line feed, or a carriage return with one. */
  lemma OneEnd(s: string)
    requires Paired(s) && LineEnd(s) < |s|
    ensures var (i, f) := (LineEnd(s), LineFeed(s));
            i <= f < |s| && s[i..f + 1] in {"\n", "\r\n"} && Beyond(s) == s[f + 1..] && Paired(Beyond(s))
  {
    hide LineEnd, LineFeed, Paired, Beyond;
    EndsAtFeed(s);
    var i, f := LineEnd(s), LineFeed(s);
    NoFeed(s);
    PairedRest(s, f + 1);
    BeyondFeed(s);
    OneOrTwo(s, i, f);
  }

  lemma OneOrTwo(s: string, i: nat, f: nat)
    requires i <= f <= i + 1 && f < |s| && s[f] == '\n' && (i < f ==> s[i] == '\r')
    ensures s[i..f + 1] in {"\n", "\r\n"}
  {
    if i < f {
      assert s[i..f + 1] == [s[i], s[f]] == "\r\n";
    } else {
      assert s[i..f + 1] == [s[f]] == "\n";
    }
  }

  lemma BeyondFeed(s: string)
    requires Paired(s) && LineEnd(s) < |s| && LineFeed(s) < |s|
    ensures Beyond(s) == s[LineFeed(s) + 1..]
  {
    hide LineEnd, LineFeed;
    EndsAtFeed(s);
  }

  lemma NoFeed(s: string)
    requires Paired(s)
    ensures LineEnd(s) == |s| <==> LineFeed(s) == |s|
  {
    EndsAtFeed(s);
    if LineEnd(s) == |s| {
      assert s[..|s|] == s;
      NoLineFeed(s);
    }
  }

  /** The reader's first line is the standard's, and so is what follows it. */
  lemma SameLine(s: string)
    requires Paired(s) && Short(Lines(s))
    ensures LineEnd(s) == |s| ==> !ReadLine(s).Whole?
    ensures LineEnd(s) < |s| ==> ReadLine(s) == Whole(s[..LineEnd(s)], Beyond(s))
    ensures LineEnd(s) < |s| ==> Paired(Beyond(s)) && Short(Lines(Beyond(s)))
  {
    hide Paired, Lines, Beyond, TrimEol;
    EndsAtFeed(s);
    if LineEnd(s) < |s| {
      OneEnd(s);
      LinesRest(s);
      var i, f := LineEnd(s), LineFeed(s);
      assert |Lines(s)[0]| + 2 <= MAX_FRAME;
      assert |s[i..f + 1]| <= 2 && s[..f + 1] == s[..i] + s[i..f + 1];
      TrimsTo(s[..i], s[i..f + 1]);
    } else {
      NoFeed(s);
    }
  }

  lemma {:induction false} LinesAreLines(s: string)
    ensures forall i :: 0 <= i < |Lines(s)| ==> '\n' !in Lines(s)[i] && '\r' !in Lines(s)[i]
    decreases |s|
  {
    if LineEnd(s) < |s| {
      LinesAreLines(Beyond(s));
    }
  }

  lemma LinesRest(s: string)
    requires LineEnd(s) < |s|
    ensures Lines(s) != [] && Lines(s)[0] == s[..LineEnd(s)] && Lines(s)[1..] == Lines(Beyond(s))
  {
  }

  lemma RenderedFirst(s: string)
    requires LineEnd(s) < |s| && Short(Lines(s))
    ensures ReadLine(Rendered(Lines(s))) == Whole(s[..LineEnd(s)], Rendered(Lines(Beyond(s))))
  {
    hide Beyond, Lines;
    LinesRest(s);
    LinesAreLines(s);
    ReadsLine(Lines(s)[0], Rendered(Lines(s)[1..]));
  }

  /** The next frame is the same off a text and off its lines. */
  lemma {:induction false} SameFrame(s: string, acc: Acc, ending: Failure)
    requires Paired(s) && Short(Lines(s))
    ensures var (r, q) := (RecvFrom(s, acc, ending), RecvFrom(Rendered(Lines(s)), acc, ending));
            && (r.Got? <==> q.Got?)
            && (r.Got? ==> r.frame == q.frame && q.rest == Rendered(Lines(r.rest)))
            && (r.Got? ==> Paired(r.rest) && Short(Lines(r.rest)))
    decreases |s|
  {
    hide Take, ReadLine, Paired, Short, Beyond, Rendered;
    SameLine(s);
    if LineEnd(s) == |s| {
      NothingRendered(s);
    } else {
      RenderedFirst(s);
      var text := s[..LineEnd(s)];
      if text == "" {
        if acc.data == "" {
          SameFrame(Beyond(s), acc, ending);
        }
      } else if Take(acc, text).Some? {
        SameFrame(Beyond(s), Take(acc, text).value, ending);
      }
    }
  }

  lemma NothingRendered(s: string)
    requires LineEnd(s) == |s|
    ensures !ReadLine(Rendered(Lines(s))).Whole?
  {
  }

  lemma {:induction false} SameFrames(s: string, acc: Acc, ending: Failure)
    requires Paired(s) && Short(Lines(s))
    ensures RecvOn(s, acc, ending).0 == RecvOn(Rendered(Lines(s)), acc, ending).0
    decreases |s|
  {
    hide RecvFrom, Lines, Rendered, Paired, Short;
    SameFrame(s, acc, ending);
    var r := RecvFrom(s, acc, ending);
    if r.Got? {
      SameFrames(r.rest, FRESH, ending);
    }
  }

  // ---------------------------------------------------------------------
  // The lines as blocks
  // ---------------------------------------------------------------------

  lemma {:induction false} RenderedBlock(block: Block)
    ensures Render(block) == Rendered(block) + "\n"
  {
    if block != [] {
      RenderedBlock(block[1..]);
    }
  }

  lemma {:induction false} RenderedMore(lines: seq<string>, line: string)
    ensures Rendered(lines + [line]) == Rendered(lines) + line + "\n"
  {
    if lines == [] {
      assert [line][1..] == [];
    } else {
      assert (lines + [line])[1..] == lines[1..] + [line];
      RenderedMore(lines[1..], line);
    }
  }

  lemma RenderedThen(block: Block, rest: seq<Block>, text: string)
    requires RenderAll(rest) == text
    ensures RenderAll([block] + rest) == Rendered(block) + "\n" + text
  {
    hide Render;
    RenderedBlock(block);
    assert ([block] + rest)[1..] == rest;
  }

  /** A text's lines are its blocks and the one it ends inside, less its blank line. */
  lemma {:induction false} RenderedBlocks(begun: Block, lines: seq<string>)
    ensures RenderAll(Grouped(begun, lines) + [Unended(begun, lines)]) == Rendered(begun) + Rendered(lines) + "\n"
    decreases |lines|
  {
    hide RenderAll, Render, Rendered;
    var left := Unended(begun, lines);
    NoLines();
    if lines == [] {
      RenderedThen(begun, [], "");
      assert Grouped(begun, lines) + [left] == [begun] + [];
    } else {
      var first, rest := lines[0], lines[1..];
      assert Rendered(lines) == first + "\n" + Rendered(rest) by {
        FirstRendered(lines);
      }
      if first == "" {
        RenderedBlocks([], rest);
        RenderedThen(begun, Grouped([], rest) + [left], Rendered(rest) + "\n");
        assert Grouped(begun, lines) + [left] == [begun] + (Grouped([], rest) + [left]);
        Joins(Rendered(begun), "", Rendered(rest));
      } else {
        RenderedMore(begun, first);
        RenderedBlocks(begun + [first], rest);
        Joins(Rendered(begun), first, Rendered(rest));
      }
    }
  }

  lemma FirstRendered(lines: seq<string>)
    requires lines != []
    ensures Rendered(lines) == lines[0] + "\n" + Rendered(lines[1..])
  {
  }

  lemma Joins(a: string, b: string, c: string)
    ensures a + b + "\n" + c + "\n" == a + (b + "\n" + c) + "\n"
    ensures a + "\n" + (c + "\n") == a + ("" + "\n" + c) + "\n"
    ensures "" + c + "\n" == c + "\n"
  {
  }

  predicate LinesOnly(block: Block) {
    forall i :: 0 <= i < |block| ==> IsLine(block[i])
  }

  lemma {:induction false} GroupedLines(begun: Block, lines: seq<string>)
    requires LinesOnly(begun) && forall i :: 0 <= i < |lines| ==> lines[i] == "" || IsLine(lines[i])
    ensures forall i :: 0 <= i < |Grouped(begun, lines)| ==> LinesOnly(Grouped(begun, lines)[i])
    ensures LinesOnly(Unended(begun, lines))
    decreases |lines|
  {
    hide IsLine;
    if lines != [] {
      if lines[0] == "" {
        GroupedLines([], lines[1..]);
      } else {
        GroupedLines(begun + [lines[0]], lines[1..]);
      }
    }
  }

  lemma {:induction false} SizedIsBounded(size: nat, blocks: seq<Block>)
    requires Sized(size, blocks) && forall i :: 0 <= i < |blocks| ==> LinesOnly(blocks[i])
    ensures Bounded(size, blocks)
    decreases |blocks|
  {
    hide HeardData, DataSize, Joined, IsLine;
    if blocks != [] {
      assert LinesOnly(blocks[0]);
      SizedIsBounded(
        if Joined("", HeardData(blocks[0])) == "" then size + DataSize(blocks[0]) else 0, blocks[1..]);
    }
  }

  lemma {:induction false} LastBlock(blocks: seq<Block>, last: Block, k: nat)
    requires k < |blocks|
    ensures |RenderAll((blocks + [last])[..k])| + |Render((blocks + [last])[k])| + |Render(last)| <=
              |RenderAll(blocks + [last])|
    decreases k
  {
    var all := blocks + [last];
    assert all[1..] == blocks[1..] + [last];
    if k == 0 {
      LastFits(blocks[1..], last);
    } else {
      LastBlock(blocks[1..], last, k - 1);
      assert all[..k][1..] == all[1..][..k - 1];
    }
  }

  lemma {:induction false} LastFits(blocks: seq<Block>, last: Block)
    ensures |Render(last)| <= |RenderAll(blocks + [last])|
  {
    if blocks == [] {
      assert [last][1..] == [];
      assert RenderAll([last]) == Render(last) + "";
    } else {
      assert (blocks + [last])[1..] == blocks[1..] + [last];
      LastFits(blocks[1..], last);
    }
  }

  /** The frames off a text are those heard in its whole blocks. */
  lemma HearsText(s: string, ending: Failure)
    requires Paired(s) && WithinBound(s)
    ensures RecvAll(s, ending).0 == HeardAll("", BlocksOfText(s))
  {
    hide RecvOn, Lines, Rendered, RenderAll, HeardAll, Bounded, Sized, Paired, Render;
    var lines, blocks, left := Lines(s), BlocksOfText(s), Unended([], Lines(s));
    var all := blocks + [left];
    SameFrames(s, FRESH, ending);
    assert Bounded(0, all) by {
      LinesAreLines(s);
      GroupedLines([], lines);
      assert forall i :: 0 <= i < |all| ==> LinesOnly(all[i]);
      SizedIsBounded(0, all);
    }
    RenderedBlocks([], lines);
    assert Rendered([]) == "" by {
      NoLines();
    }
    var cut := |Rendered(lines)|;
    assert RenderAll(all)[..cut] == Rendered(lines);
    var k := CutHears("", 0, all, cut, ending);
    assert all[..|all|] == all && all[..|blocks|] == blocks;
    AllWhole(blocks, left, k);
  }

  /** The text less its last line feed holds every block but the last. */
  lemma AllWhole(blocks: seq<Block>, last: Block, k: nat)
    requires k <= |blocks|
    requires k < |blocks| ==>
               |RenderAll(blocks + [last])| <= |RenderAll((blocks + [last])[..k])| + |Render((blocks + [last])[k])|
    ensures k == |blocks|
  {
    hide RenderAll;
    if k < |blocks| {
      LastBlock(blocks, last, k);
      NotNothing(last);
    }
  }

  lemma NoLines()
    ensures Rendered([]) == "" && RenderAll([]) == ""
  {
  }

  lemma NotNothing(block: Block)
    ensures |Render(block)| > 0
  {
  }

  /** On every text with no carriage return of its own, within the bound: the reader
    * delivers what the standard dispatches, no more and no less, if and only if the
    * blocks conform. The text may end anywhere. */
  lemma TextReadsAsStandardIff(s: string, ending: Failure)
    requires Paired(s) && WithinBound(s)
    ensures RecvAll(s, ending).0 == DispatchedText(s) <==> Conforms("", BlocksOfText(s))
  {
    hide RecvAll, HeardAll, DispatchedAll, Conforms, BlocksOfText, Paired, WithinBound;
    HearsText(s, ending);
    HearsAsDispatchedIff("", BlocksOfText(s));
  }

  // ---------------------------------------------------------------------
  // A carriage return of its own
  // ---------------------------------------------------------------------

  /** The standard never dispatches one: each ends a line. */
  lemma NoneDispatched(s: string)
    ensures forall i :: 0 <= i < |DispatchedText(s)| ==> '\r' !in DispatchedText(s)[i].data
  {
    LinesAreLines(s);
    NoneGrouped([], Lines(s));
    NoneInAny(BlocksOfText(s));
  }

  predicate Unreturned(lines: seq<string>) {
    forall i :: 0 <= i < |lines| ==> '\r' !in lines[i]
  }

  lemma {:induction false} NoneGrouped(begun: Block, lines: seq<string>)
    requires Unreturned(begun) && Unreturned(lines)
    ensures forall i :: 0 <= i < |Grouped(begun, lines)| ==> Unreturned(Grouped(begun, lines)[i])
    decreases |lines|
  {
    if lines != [] {
      if lines[0] == "" {
        NoneGrouped([], lines[1..]);
      } else {
        NoneGrouped(begun + [lines[0]], lines[1..]);
      }
    }
  }

  lemma {:induction false} NoneInAny(blocks: seq<Block>)
    requires forall i :: 0 <= i < |blocks| ==> Unreturned(blocks[i])
    ensures forall i :: 0 <= i < |DispatchedAll(blocks)| ==> '\r' !in DispatchedAll(blocks)[i].data
  {
    hide Values, Join;
    if blocks != [] {
      NoneInValues(blocks[0]);
      NoneJoined(Values(blocks[0], "data"));
      NoneInAny(blocks[1..]);
    }
  }

  lemma {:induction false} NoneInValues(block: Block)
    requires Unreturned(block)
    ensures Unreturned(Values(block, "data"))
  {
    if block != [] {
      assert '\r' !in block[0];
      NoneInValues(block[1..]);
    }
  }

  lemma {:induction false} NoneJoined(vs: seq<string>)
    requires Unreturned(vs)
    ensures '\r' !in Join(vs)
  {
    if |vs| > 1 {
      NoneJoined(vs[1..]);
    }
  }

  /** The reader keeps it: a data line that holds one, before its last character, reads
    * as one line, where the standard divides it. */
  lemma LoneReturnIsKept(value: string, ending: Failure)
    requires '\r' in value && '\n' !in value && value[|value| - 1] != '\r' && |value| + 7 <= MAX_FRAME
    ensures RecvAll("data: " + value + "\n\n", ending).0 != DispatchedText("data: " + value + "\n\n")
  {
    hide RecvAll, DispatchedText;
    ValueReads(value, ending);
    NoneDispatched("data: " + value + "\n\n");
    assert [Frame("", value)][0].data == value;
  }

  lemma ValueReads(value: string, ending: Failure)
    requires value != "" && '\n' !in value && value[|value| - 1] != '\r' && |value| + 7 <= MAX_FRAME
    ensures RecvAll("data: " + value + "\n\n", ending).0 == [Frame("", value)]
  {
    hide TrimEol, Take, TrimSpace;
    var line, s := "data: " + value, "data: " + value + "\n\n";
    assert s == line + "\n" + "\n";
    FirstLineFeed(line, "\n");
    TrimsNone(line);
    TrimsOne(line, '\n');
    assert s[..|line| + 1] == line + "\n" && s[|line| + 1..] == "\n";
    assert ReadLine(s) == Whole(line, "\n");
    DataTaken(value);
    ReadsLine("", "");
    assert "" + "\n" + "" == "\n";
    EndReached("", 0, ending);
    assert RecvFrom("\n", Acc("", value, |value| + 6), ending) == Got(Frame("", value), "");
    assert RecvFrom(s, FRESH, ending) == Got(Frame("", value), "");
  }

  lemma DataTaken(value: string)
    requires value != "" && |value| + 7 <= MAX_FRAME
    ensures Take(FRESH, "data: " + value) == Some(Acc("", value, |value| + 6))
  {
    var line := "data: " + value;
    hide TrimSpace;
    assert "data:" <= line;
    OneKind(line);
    assert After(line, "data:") == " " + value;
    assert (" " + value)[1..] == value && StripSpace(" " + value) == value;
  }
}
