/** The frame reader of the event stream: bytes in, frames out, and what it does
  * with a stream cut anywhere. The reference is the event stream format of the
  * HTML Living Standard, sections 9.2.5 and 9.2.6.
  */
module Sse {
  import opened Options

  const MAX_FRAME := 4194304

  /** How the connection under the reader ends. */
  datatype Failure = Eof | UnexpectedEof | Broken | LongLine | LargeFrame

  datatype Frame = Frame(name: string, data: string)

  // ---------------------------------------------------------------------
  // Lines
  // ---------------------------------------------------------------------

  /** A whole line with its ending trimmed and what follows it, one that is too
    * long, or what is left when the connection ends before a line does. */
  datatype Line = Whole(text: string, rest: string) | TooLong | Partial(text: string)

  /** The first line feed, or the end. */
  function LineFeed(s: string): (i: nat)
    ensures i <= |s|
    ensures i < |s| ==> s[i] == '\n'
    ensures '\n' !in s[..i]
  {
    if s == "" || s[0] == '\n' then 0
    else
      var i := LineFeed(s[1..]);
      assert s[..i + 1] == [s[0]] + s[1..][..i];
      i + 1
  }

  function TrimEol(s: string): string {
    if s != "" && (s[|s| - 1] == '\n' || s[|s| - 1] == '\r') then TrimEol(s[..|s| - 1]) else s
  }

  function ReadLine(s: string): (l: Line)
    ensures l.Whole? ==> |l.rest| < |s|
  {
    var i := LineFeed(s);
    if i == |s| then if |s| > MAX_FRAME then TooLong else Partial(s)
    else if i + 1 > MAX_FRAME then TooLong
    else Whole(TrimEol(s[..i + 1]), s[i + 1..])
  }

  predicate IsSpace(c: char) {
    || c in {' ', '\t', '\n', '\r'} || c == '\U{000B}' || c == '\U{000C}' || c == '\U{0085}' || c == '\U{00A0}'
    || c == '\U{1680}' || '\U{2000}' <= c <= '\U{200A}' || c == '\U{2028}' || c == '\U{2029}'
    || c == '\U{202F}' || c == '\U{205F}' || c == '\U{3000}'
  }

  function TrimSpace(s: string): string {
    if s == "" then ""
    else if IsSpace(s[0]) then TrimSpace(s[1..])
    else if IsSpace(s[|s| - 1]) then TrimSpace(s[..|s| - 1])
    else s
  }

  /** What is trimmed is white space, and none is left at either end. */
  lemma {:induction false} TrimSpaceIs(s: string) returns (i: nat, j: nat)
    ensures i <= j <= |s| && TrimSpace(s) == s[i..j]
    ensures forall k :: 0 <= k < i || j <= k < |s| ==> IsSpace(s[k])
    ensures i < j ==> !IsSpace(s[i]) && !IsSpace(s[j - 1])
    decreases |s|
  {
    hide IsSpace;
    i, j := 0, |s|;
    if s != "" && IsSpace(s[0]) {
      i, j := TrimSpaceIs(s[1..]);
      i, j := i + 1, j + 1;
    } else if s != "" && IsSpace(s[|s| - 1]) {
      i, j := TrimSpaceIs(s[..|s| - 1]);
    }
  }

  function After(s: string, prefix: string): string
    requires prefix <= s
  {
    s[|prefix|..]
  }

  function StripSpace(s: string): string {
    if s != "" && s[0] == ' ' then s[1..] else s
  }

  // ---------------------------------------------------------------------
  // Frames
  // ---------------------------------------------------------------------

  /** A frame as it accumulates. */
  datatype Acc = Acc(name: string, data: string, size: nat)

  const FRESH := Acc("", "", 0)

  /** One line that is not blank. */
  function Take(acc: Acc, text: string): Option<Acc> {
    if ":" <= text then Some(acc)
    else if "event:" <= text then Some(acc.(name := TrimSpace(After(text, "event:"))))
    else if "data:" <= text then
      if acc.size + |text| > MAX_FRAME then None
      else
        var value := StripSpace(After(text, "data:"));
        Some(Acc(acc.name, if acc.data == "" then value else acc.data + "\n" + value, acc.size + |text|))
    else Some(acc)
  }

  datatype Received = Got(frame: Frame, rest: string) | Failed(why: Failure)

  /** The next frame from what is left of the stream, `ending` being how it ends. */
  function RecvFrom(s: string, acc: Acc, ending: Failure): (r: Received)
    ensures r.Got? ==> |r.rest| < |s|
    decreases |s|
  {
    match ReadLine(s)
    case TooLong => Failed(if acc.data == "" then LongLine else UnexpectedEof)
    case Partial(text) => Failed(if acc.data == "" then ending else UnexpectedEof)
    case Whole(text, rest) =>
      if text == "" then
        if acc.data == "" then RecvFrom(rest, acc, ending) else Got(Frame(acc.name, acc.data), rest)
      else
        match Take(acc, text)
        case None => Failed(LargeFrame)
        case Some(more) => RecvFrom(rest, more, ending)
  }

  /** The loop, reading from the front of the stream. */
  method Recv(s: string, ending: Failure) returns (r: Received)
    ensures r == RecvFrom(s, FRESH, ending)
  {
    hide Take, ReadLine;
    var left, acc := s, FRESH;
    while true
      invariant RecvFrom(left, acc, ending) == RecvFrom(s, FRESH, ending)
      decreases |left|
    {
      var line := ReadLine(left);
      if !line.Whole? {
        if acc.data == "" {
          return Failed(if line.TooLong? then LongLine else ending);
        }
        return Failed(UnexpectedEof);
      }
      left := line.rest;
      if line.text == "" {
        if acc.data != "" {
          return Got(Frame(acc.name, acc.data), left);
        }
      } else {
        var more := Take(acc, line.text);
        if more == None {
          return Failed(LargeFrame);
        }
        acc := more.value;
      }
    }
  }

  /** Everything received before the stream fails, and how it fails, `acc` having
    * accumulated so far. */
  function RecvOn(s: string, acc: Acc, ending: Failure): (seq<Frame>, Failure)
    decreases |s|
  {
    match RecvFrom(s, acc, ending)
    case Failed(why) => ([], why)
    case Got(frame, rest) =>
      var (frames, why) := RecvOn(rest, FRESH, ending);
      ([frame] + frames, why)
  }

  function RecvAll(s: string, ending: Failure): (seq<Frame>, Failure) {
    RecvOn(s, FRESH, ending)
  }

  // ---------------------------------------------------------------------
  // The format
  // ---------------------------------------------------------------------

  /** A block is the lines up to a blank one. */
  type Block = seq<string>

  function Render(block: Block): string {
    if block == [] then "\n" else block[0] + "\n" + Render(block[1..])
  }

  function RenderAll(blocks: seq<Block>): string {
    if blocks == [] then "" else Render(blocks[0]) + RenderAll(blocks[1..])
  }

  function LastOr(vs: seq<string>, otherwise: string): string {
    if vs == [] then otherwise else vs[|vs| - 1]
  }

  /** A line the format can carry. */
  predicate IsLine(line: string) {
    line != "" && |line| < MAX_FRAME && '\n' !in line && '\r' !in line
  }

  function DataSize(block: Block): nat {
    if block == [] then 0 else (if "data:" <= block[0] then |block[0]| else 0) + DataSize(block[1..])
  }

  // ---------------------------------------------------------------------
  // What the reader makes of a block
  // ---------------------------------------------------------------------

  function HeardNames(block: Block): seq<string> {
    if block == [] then []
    else (if "event:" <= block[0] then [TrimSpace(After(block[0], "event:"))] else []) + HeardNames(block[1..])
  }

  function HeardData(block: Block): seq<string> {
    if block == [] then []
    else (if "data:" <= block[0] then [StripSpace(After(block[0], "data:"))] else []) + HeardData(block[1..])
  }

  /** Data lines joined on to what there is: nothing joins nothing. */
  function Joined(data: string, vs: seq<string>): string
    decreases |vs|
  {
    if vs == [] then data else Joined(if data == "" then vs[0] else data + "\n" + vs[0], vs[1..])
  }

  function Absorb(acc: Acc, block: Block): Acc {
    Acc(LastOr(HeardNames(block), acc.name), Joined(acc.data, HeardData(block)), acc.size + DataSize(block))
  }

  /** The frames of a list of blocks, `left` being a name still waiting for data. */
  function HeardAll(left: string, blocks: seq<Block>): seq<Frame>
    decreases |blocks|
  {
    if blocks == [] then []
    else
      var acc := Absorb(Acc(left, "", 0), blocks[0]);
      if acc.data == "" then HeardAll(acc.name, blocks[1..])
      else [Frame(acc.name, acc.data)] + HeardAll("", blocks[1..])
  }

  /** Blocks of lines whose data stays under the bound of a frame. */
  predicate Bounded(size: nat, blocks: seq<Block>)
    decreases |blocks|
  {
    blocks == [] ||
    (&& (forall i :: 0 <= i < |blocks[0]| ==> IsLine(blocks[0][i]))
     && size + DataSize(blocks[0]) <= MAX_FRAME
     && Bounded(if Joined("", HeardData(blocks[0])) == "" then size + DataSize(blocks[0]) else 0, blocks[1..]))
  }

  // ---------------------------------------------------------------------
  // Reading what was rendered
  // ---------------------------------------------------------------------

  lemma {:induction false} FirstLineFeed(line: string, rest: string)
    requires '\n' !in line
    ensures LineFeed(line + "\n" + rest) == |line|
  {
    if line != "" {
      assert (line + "\n" + rest)[1..] == line[1..] + "\n" + rest;
      FirstLineFeed(line[1..], rest);
    }
  }

  lemma {:induction false} NoLineFeed(s: string)
    requires '\n' !in s
    ensures LineFeed(s) == |s|
  {
    if s != "" {
      NoLineFeed(s[1..]);
    }
  }

  lemma ReadsLine(line: string, rest: string)
    requires '\n' !in line && '\r' !in line && |line| < MAX_FRAME
    ensures ReadLine(line + "\n" + rest) == Whole(line, rest)
  {
    var s := line + "\n" + rest;
    FirstLineFeed(line, rest);
    assert s[..|line| + 1] == line + "\n" && s[|line| + 1..] == rest;
    assert (line + "\n")[..|line|] == line;
    assert TrimEol(line + "\n") == TrimEol(line) == line;
  }

  lemma SizeOfOne(line: string)
    ensures DataSize([line]) == if "data:" <= line then |line| else 0
  {
    assert [line][1..] == [];
  }

  lemma HeardOne(line: string)
    ensures HeardNames([line]) == if "event:" <= line then [TrimSpace(After(line, "event:"))] else []
    ensures HeardData([line]) == if "data:" <= line then [StripSpace(After(line, "data:"))] else []
  {
    assert [line][1..] == [];
  }

  lemma JoinedOne(data: string, v: string)
    ensures Joined(data, []) == data
    ensures Joined(data, [v]) == if data == "" then v else data + "\n" + v
  {
    assert [v][1..] == [];
  }

  /** A line is at most one of a comment, a name and data. */
  lemma OneKind(line: string)
    ensures !(":" <= line && "event:" <= line) && !(":" <= line && "data:" <= line) &&
            !("event:" <= line && "data:" <= line)
  {
    assert ":" <= line ==> line[0] == ':';
    assert "event:" <= line ==> line[0] == 'e';
    assert "data:" <= line ==> line[0] == 'd';
  }

  lemma TakesLine(acc: Acc, line: string)
    requires acc.size + DataSize([line]) <= MAX_FRAME
    ensures Take(acc, line) == Some(Absorb(acc, [line]))
  {
    hide TrimSpace, StripSpace, HeardNames, HeardData, DataSize, Joined;
    HeardOne(line);
    OneKind(line);
    SizeOfOne(line);
    JoinedOne(acc.data, if "data:" <= line then StripSpace(After(line, "data:")) else "");
  }

  lemma AbsorbMore(acc: Acc, block: Block)
    requires block != []
    ensures Absorb(Absorb(acc, [block[0]]), block[1..]) == Absorb(acc, block)
  {
    hide TrimSpace, StripSpace, Joined;
    HeardOne(block[0]);
    SizeOfOne(block[0]);
    assert HeardNames(block) == HeardNames([block[0]]) + HeardNames(block[1..]);
    assert HeardData(block) == HeardData([block[0]]) + HeardData(block[1..]);
    JoinedMore(acc.data, HeardData([block[0]]), HeardData(block[1..]));
  }

  lemma {:induction false} JoinedMore(data: string, vs: seq<string>, ws: seq<string>)
    ensures Joined(Joined(data, vs), ws) == Joined(data, vs + ws)
    decreases |vs|
  {
    if vs == [] {
      assert vs + ws == ws;
    } else {
      assert (vs + ws)[1..] == vs[1..] + ws;
      JoinedMore(if data == "" then vs[0] else data + "\n" + vs[0], vs[1..], ws);
    }
  }

  function EndBlock(acc: Acc, rest: string, ending: Failure): Received {
    if acc.data == "" then RecvFrom(rest, acc, ending) else Got(Frame(acc.name, acc.data), rest)
  }

  ghost predicate Fits(acc: Acc, block: Block) {
    (forall i :: 0 <= i < |block| ==> IsLine(block[i])) && acc.size + DataSize(block) <= MAX_FRAME
  }

  lemma RecvLine(acc: Acc, line: string, rest: string, ending: Failure)
    requires IsLine(line) && acc.size + DataSize([line]) <= MAX_FRAME
    ensures RecvFrom(line + "\n" + rest, acc, ending) == RecvFrom(rest, Absorb(acc, [line]), ending)
  {
    hide Take, Absorb;
    ReadsLine(line, rest);
    TakesLine(acc, line);
  }

  lemma RecvBlank(acc: Acc, rest: string, ending: Failure)
    ensures RecvFrom("\n" + rest, acc, ending) == EndBlock(acc, rest, ending)
  {
    ReadsLine("", rest);
    assert "" + "\n" + rest == "\n" + rest;
  }

  lemma FitsRest(acc: Acc, block: Block)
    requires Fits(acc, block) && block != []
    ensures IsLine(block[0]) && acc.size + DataSize([block[0]]) <= MAX_FRAME &&
            Fits(Absorb(acc, [block[0]]), block[1..])
  {
    hide IsLine;
    SizeOfOne(block[0]);
  }

  lemma {:induction false} BlockReads(acc: Acc, block: Block, rest: string, ending: Failure)
    requires Fits(acc, block)
    ensures RecvFrom(Render(block) + rest, acc, ending) == EndBlock(Absorb(acc, block), rest, ending)
    decreases |block|
  {
    hide Absorb, Fits, RecvFrom, EndBlock, IsLine;
    if block == [] {
      RecvBlank(acc, rest, ending);
      assert Absorb(acc, []) == acc by {
        AbsorbNothing(acc);
      }
    } else {
      FitsRest(acc, block);
      assert Render(block) + rest == block[0] + "\n" + (Render(block[1..]) + rest);
      RecvLine(acc, block[0], Render(block[1..]) + rest, ending);
      BlockReads(Absorb(acc, [block[0]]), block[1..], rest, ending);
      AbsorbMore(acc, block);
    }
  }

  lemma AbsorbNothing(acc: Acc)
    ensures Absorb(acc, []) == acc
  {
  }

  // ---------------------------------------------------------------------
  // How reading fails
  // ---------------------------------------------------------------------

  function Lines(block: Block): string {
    if block == [] then "" else block[0] + "\n" + Lines(block[1..])
  }

  lemma {:induction false} LinesRead(acc: Acc, block: Block, tail: string, ending: Failure)
    requires Fits(acc, block)
    ensures RecvFrom(Lines(block) + tail, acc, ending) == RecvFrom(tail, Absorb(acc, block), ending)
    decreases |block|
  {
    hide Absorb, Fits, RecvFrom, IsLine;
    if block == [] {
      AbsorbNothing(acc);
      assert Lines(block) + tail == tail;
    } else {
      FitsRest(acc, block);
      assert Lines(block) + tail == block[0] + "\n" + (Lines(block[1..]) + tail);
      RecvLine(acc, block[0], Lines(block[1..]) + tail, ending);
      LinesRead(Absorb(acc, [block[0]]), block[1..], tail, ending);
      AbsorbMore(acc, block);
    }
  }

  lemma EndsInLine(held: Acc, tail: string, ending: Failure)
    requires |tail| <= 4194304 && '\n' !in tail
    ensures RecvFrom(tail, held, ending) == Failed(if held.data == "" then ending else UnexpectedEof)
  {
    NoLineFeed(tail);
  }

  lemma LineIsLong(held: Acc, tail: string, ending: Failure)
    requires |tail| > 4194304 && '\n' !in tail[..4194304]
    ensures RecvFrom(tail, held, ending) == Failed(if held.data == "" then LongLine else UnexpectedEof)
  {
    LineFeedIn(tail, 4194304);
    hide Take;
  }

  lemma LineFeedIn(s: string, n: nat)
    ensures LineFeed(s) < n <= |s| ==> '\n' in s[..n]
  {
    if LineFeed(s) < n <= |s| {
      assert s[..n][LineFeed(s)] == '\n';
    }
  }

  lemma FrameIsLarge(held: Acc, line: string, rest: string, ending: Failure)
    requires '\n' !in line && '\r' !in line && |line| < 4194304
    requires "data:" <= line && held.size + |line| > 4194304
    ensures RecvFrom(line + "\n" + rest, held, ending) == Failed(LargeFrame)
  {
    hide TrimSpace, StripSpace;
    ReadsLine(line, rest);
    hide ReadLine;
    OneKind(line);
  }

  /** After any lines that fit, the reading fails where the connection ends inside a
    * line, where a line is longer than 4 MiB with its ending, and where a data line
    * takes the frame past 4 MiB. A frame that has begun makes the first two a
    * truncation. */
  lemma RecvFails(acc: Acc, block: Block, tail: string, line: string, rest: string, ending: Failure)
    requires Fits(acc, block)
    ensures var r, held := RecvFrom(Lines(block) + tail, acc, ending), Absorb(acc, block);
            && (|tail| <= 4194304 && '\n' !in tail ==>
                  r == Failed(if held.data == "" then ending else UnexpectedEof))
            && (|tail| > 4194304 && '\n' !in tail[..4194304] ==>
                  r == Failed(if held.data == "" then LongLine else UnexpectedEof))
            && (tail == line + "\n" + rest && '\n' !in line && '\r' !in line && |line| < 4194304 ==>
                  ("data:" <= line && held.size + |line| > 4194304 ==> r == Failed(LargeFrame)))
  {
    hide Absorb, Fits, RecvFrom;
    LinesRead(acc, block, tail, ending);
    var held := Absorb(acc, block);
    if |tail| <= 4194304 && '\n' !in tail {
      EndsInLine(held, tail, ending);
    }
    if |tail| > 4194304 && '\n' !in tail[..4194304] {
      LineIsLong(held, tail, ending);
    }
    if tail == line + "\n" + rest && '\n' !in line && '\r' !in line && |line| < 4194304
       && "data:" <= line && held.size + |line| > 4194304 {
      FrameIsLarge(held, line, rest, ending);
    }
  }

  /** A block cut short yields no frame. */
  lemma {:induction false} BlockCut(acc: Acc, block: Block, cut: nat, ending: Failure)
    requires Fits(acc, block) && cut < |Render(block)|
    ensures RecvFrom(Render(block)[..cut], acc, ending) in {Failed(ending), Failed(UnexpectedEof)}
    decreases |block|
  {
    hide Absorb, Fits, IsLine;
    var s := Render(block);
    if block == [] {
      assert s[..cut] == "";
    } else {
      FitsRest(acc, block);
      var line, more := block[0], Render(block[1..]);
      assert s == line + "\n" + more;
      if cut <= |line| {
        assert s[..cut] == line[..cut];
        PartialLine(line, cut);
      } else {
        var left := cut - |line| - 1;
        assert s[..cut] == line + "\n" + more[..left];
        RecvLine(acc, line, more[..left], ending);
        BlockCut(Absorb(acc, [line]), block[1..], left, ending);
      }
    }
  }

  lemma PartialLine(line: string, cut: nat)
    requires IsLine(line) && cut <= |line|
    ensures ReadLine(line[..cut]) == Partial(line[..cut])
  {
    assert '\n' !in line[..cut];
    NoLineFeed(line[..cut]);
  }

  // ---------------------------------------------------------------------
  // Whole streams
  // ---------------------------------------------------------------------

  /** One whole block in front of anything. */
  lemma BlockThen(left: string, size: nat, block: Block, more: string, ending: Failure)
    requires Fits(Acc(left, "", size), block)
    ensures var acc := Absorb(Acc(left, "", size), block);
            && acc.name == Absorb(Acc(left, "", 0), block).name && acc.data == Absorb(Acc(left, "", 0), block).data
            && acc.data == Joined("", HeardData(block)) && acc.size == size + DataSize(block)
            && RecvOn(Render(block) + more, Acc(left, "", size), ending) ==
                 if acc.data == "" then RecvOn(more, acc, ending)
                 else ([Frame(acc.name, acc.data)] + RecvAll(more, ending).0, RecvAll(more, ending).1)
  {
    hide RecvFrom, Fits, HeardNames, HeardData, Joined, DataSize;
    BlockReads(Acc(left, "", size), block, more, ending);
  }

  /** Exactly the frames of the blocks, in order, and then the end. */
  lemma {:induction false} HearsAll(left: string, size: nat, blocks: seq<Block>, ending: Failure)
    requires Bounded(size, blocks)
    ensures RecvOn(RenderAll(blocks), Acc(left, "", size), ending) == (HeardAll(left, blocks), ending)
    decreases |blocks|
  {
    hide RecvOn, Absorb, Render, HeardData, IsLine;
    if blocks == [] {
      EndReached(left, size, ending);
    } else {
      var acc := Absorb(Acc(left, "", size), blocks[0]);
      BlockThen(left, size, blocks[0], RenderAll(blocks[1..]), ending);
      if acc.data == "" {
        HearsAll(acc.name, acc.size, blocks[1..], ending);
      } else {
        HearsAll("", 0, blocks[1..], ending);
      }
    }
  }

  lemma EndReached(left: string, size: nat, ending: Failure)
    ensures RecvOn("", Acc(left, "", size), ending) == ([], ending)
  {
  }

  /** A stream cut anywhere yields exactly the frames of the blocks that arrived
    * whole, never half a frame, and then an ordinary end of stream. */
  lemma {:induction false} CutHears(left: string, size: nat, blocks: seq<Block>, cut: nat, ending: Failure)
    returns (n: nat)
    requires Bounded(size, blocks) && cut <= |RenderAll(blocks)|
    ensures n <= |blocks| && |RenderAll(blocks[..n])| <= cut
    ensures n < |blocks| ==> cut < |RenderAll(blocks[..n])| + |Render(blocks[n])|
    ensures RecvOn(RenderAll(blocks)[..cut], Acc(left, "", size), ending).0 == HeardAll(left, blocks[..n])
    ensures RecvOn(RenderAll(blocks)[..cut], Acc(left, "", size), ending).1 in {ending, UnexpectedEof}
    decreases |blocks|
  {
    hide RecvOn, RecvFrom, Absorb, Render, HeardData, IsLine, Joined, DataSize;
    if blocks == [] {
      EndReached(left, size, ending);
      assert RenderAll(blocks)[..cut] == "";
      return 0;
    }
    var head, rest := Render(blocks[0]), RenderAll(blocks[1..]);
    if cut < |head| {
      assert RenderAll(blocks)[..cut] == head[..cut];
      CutInside(Acc(left, "", size), blocks[0], cut, ending);
      return 0;
    }
    var more := rest[..cut - |head|];
    assert RenderAll(blocks)[..cut] == head + more;
    var acc := Absorb(Acc(left, "", size), blocks[0]);
    BlockThen(left, size, blocks[0], more, ending);
    if acc.data == "" {
      n := CutHears(acc.name, acc.size, blocks[1..], cut - |head|, ending);
    } else {
      n := CutHears("", 0, blocks[1..], cut - |head|, ending);
    }
    assert blocks[..n + 1][1..] == blocks[1..][..n] && blocks[..n + 1][0] == blocks[0];
    n := n + 1;
  }

  lemma CutInside(acc: Acc, block: Block, cut: nat, ending: Failure)
    requires Fits(acc, block) && cut < |Render(block)|
    ensures RecvOn(Render(block)[..cut], acc, ending).0 == [] &&
            RecvOn(Render(block)[..cut], acc, ending).1 in {ending, UnexpectedEof}
  {
    hide RecvFrom, Render, Fits;
    BlockCut(acc, block, cut, ending);
  }
}
