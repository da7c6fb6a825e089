/** The frame reader against the standard it reads: when the two agree, exactly. */
module SseStandard {
  import opened Options
  import opened Sse

  // ---------------------------------------------------------------------
  // The standard
  // ---------------------------------------------------------------------

  /** The value a line gives a field: what follows its colon, less one space. A
    * line that is the bare field name gives it the empty value. */
  function FieldValue(line: string, field: string): Option<string> {
    if line == field then Some("")
    else if field + ":" <= line then Some(StripSpace(After(line, field + ":")))
    else None
  }

  function Values(block: Block, field: string): seq<string> {
    if block == [] then []
    else
      (match FieldValue(block[0], field) case None => [] case Some(v) => [v]) + Values(block[1..], field)
  }

  function Join(vs: seq<string>): string {
    if vs == [] then "" else if |vs| == 1 then vs[0] else vs[0] + "\n" + Join(vs[1..])
  }

  /** What the standard dispatches for a block: its last event name and its data
    * values, one a line; nothing for a block with no data. */
  function Dispatched(block: Block): seq<Frame> {
    var data := Values(block, "data");
    if data == [] then [] else [Frame(LastOr(Values(block, "event"), ""), Join(data))]
  }

  function DispatchedAll(blocks: seq<Block>): seq<Frame> {
    if blocks == [] then [] else Dispatched(blocks[0]) + DispatchedAll(blocks[1..])
  }

  // ---------------------------------------------------------------------
  // When the reader conforms
  // ---------------------------------------------------------------------

  /** No space around the value of an `event:` line, past the one that counts. */
  predicate Untrimmed(line: string)
    requires "event:" <= line
  {
    var v := StripSpace(After(line, "event:"));
    v != "" ==> !IsSpace(v[0]) && !IsSpace(v[|v| - 1])
  }

  predicate Blank(s: string) {
    forall i :: 0 <= i < |s| ==> IsSpace(s[i])
  }

  /** The last `event:` line gives only spaces; or there is none, and no name has been
    * left waiting. */
  predicate Nameless(left: string, block: Block)
    decreases |block|
  {
    if block == [] then left == ""
    else
      var n := |block| - 1;
      if "event:" <= block[n] then Blank(After(block[n], "event:")) else Nameless(left, block[..n])
  }

  /** The last line to name the event does so without spaces around the name; or it is
    * a bare `event`, and there is no name it should have taken back; or there is none,
    * and no name has been left waiting. */
  predicate NamedAlike(left: string, block: Block)
    decreases |block|
  {
    if block == [] then left == ""
    else
      var n := |block| - 1;
      if "event:" <= block[n] then Untrimmed(block[n])
      else if block[n] == "event" then Nameless(left, block[..n])
      else NamedAlike(left, block[..n])
  }

  /** `left` is the name the blocks before have left waiting. A block with data must
    * hold no bare `data` line, must not begin with an empty value, and must be
    * named alike. A block without may leave a name. */
  predicate Conforms(left: string, blocks: seq<Block>)
    decreases |blocks|
  {
    blocks == [] ||
    var name := LastOr(HeardNames(blocks[0]), left);
    var data := Values(blocks[0], "data");
    if data == [] then Conforms(name, blocks[1..])
    else
      && "data" !in blocks[0] && data[0] != "" && NamedAlike(left, blocks[0])
      && Conforms("", blocks[1..])
  }

  lemma ValuesOfOne(line: string, field: string)
    ensures Values([line], field) == if FieldValue(line, field) == None then [] else [FieldValue(line, field).value]
  {
    assert [line][1..] == [];
  }

  lemma {:induction false} TrimSpaceKeeps(s: string)
    ensures TrimSpace(s) == s <==> (s != "" ==> !IsSpace(s[0]) && !IsSpace(s[|s| - 1]))
    ensures |TrimSpace(s)| <= |s|
    ensures TrimSpace(s) == "" <==> Blank(s)
    decreases |s|
  {
    hide IsSpace;
    if s != "" {
      if IsSpace(s[0]) {
        TrimSpaceKeeps(s[1..]);
        assert s == [s[0]] + s[1..];
      } else if IsSpace(s[|s| - 1]) {
        TrimSpaceKeeps(s[..|s| - 1]);
      }
    }
  }

  /** The reader takes a name as the standard does iff there is nothing to trim. */
  lemma UntrimmedIff(line: string)
    requires "event:" <= line
    ensures Untrimmed(line) <==> TrimSpace(After(line, "event:")) == StripSpace(After(line, "event:"))
  {
    var value := After(line, "event:");
    TrimSpaceKeeps(StripSpace(value));
    assert TrimSpace(value) == TrimSpace(StripSpace(value));
  }

  lemma {:induction false} LastLine(block: Block)
    requires block != []
    ensures var n := |block| - 1;
            && HeardNames(block) == HeardNames(block[..n]) + HeardNames([block[n]])
            && Values(block, "event") == Values(block[..n], "event") + Values([block[n]], "event")
  {
    hide TrimSpace, FieldValue;
    var n := |block| - 1;
    if n == 0 {
      assert block == [block[0]];
    } else {
      LastLine(block[1..]);
      assert block[1..][..n - 1] == block[..n][1..] && block[..n] == [block[0]] + block[..n][1..];
    }
  }

  lemma {:induction false} NamelessIff(left: string, block: Block)
    ensures Nameless(left, block) <==> LastOr(HeardNames(block), left) == ""
    decreases |block|
  {
    hide TrimSpace, HeardNames;
    if block == [] {
      assert HeardNames(block) == [] by {
        NoNames();
      }
    } else {
      var n := |block| - 1;
      LastLine(block);
      HeardOne(block[n]);
      NamelessIff(left, block[..n]);
      if "event:" <= block[n] {
        TrimSpaceKeeps(After(block[n], "event:"));
      }
    }
  }

  lemma NoNames()
    ensures HeardNames([]) == [] && Values([], "event") == []
  {
  }

  /** The lines say whether the two give a block one name. */
  lemma {:induction false} NamedAlikeIff(left: string, block: Block)
    ensures NamedAlike(left, block) <==> LastOr(HeardNames(block), left) == LastOr(Values(block, "event"), "")
    decreases |block|
  {
    hide TrimSpace, HeardNames, Values, Untrimmed, Nameless;
    if block == [] {
      NoNames();
    } else {
      var n := |block| - 1;
      LastLine(block);
      HeardOne(block[n]);
      ValuesOfOne(block[n], "event");
      assert "event" + ":" == "event:";
      NamedAlikeIff(left, block[..n]);
      if "event:" <= block[n] {
        UntrimmedIff(block[n]);
      } else if block[n] == "event" {
        NamelessIff(left, block[..n]);
      }
    }
  }

  /** A line whose field, if it has one, the reader takes as the standard does. */
  predicate Plain(line: string) {
    && IsLine(line) && line != "event" && line != "data"
    && ("event:" <= line ==> TrimSpace(After(line, "event:")) == StripSpace(After(line, "event:")))
  }

  predicate AllPlain(blocks: seq<Block>) {
    forall i, j :: 0 <= i < |blocks| && 0 <= j < |blocks[i]| ==> Plain(blocks[i][j])
  }

  /** For plain lines: every block with data begins with a value that is not empty,
    * and either names its own event or finds no name left over from the blocks
    * without data since the last one with. */
  predicate ConformsPlainly(left: string, blocks: seq<Block>)
    decreases |blocks|
  {
    blocks == [] ||
    var names := Values(blocks[0], "event");
    var data := Values(blocks[0], "data");
    if data == [] then ConformsPlainly(LastOr(names, left), blocks[1..])
    else data[0] != "" && (names != [] || left == "") && ConformsPlainly("", blocks[1..])
  }

  lemma {:induction false} PlainHeard(block: Block)
    requires forall j :: 0 <= j < |block| ==> Plain(block[j])
    ensures HeardNames(block) == Values(block, "event") && HeardData(block) == Values(block, "data") && "data" !in block
  {
    hide TrimSpace, StripSpace;
    if block != [] {
      assert "event" + ":" == "event:" && "data" + ":" == "data:";
      PlainHeard(block[1..]);
      assert block == [block[0]] + block[1..];
    }
  }

  lemma {:induction false} ConformsPlainlyIff(left: string, blocks: seq<Block>)
    requires AllPlain(blocks)
    ensures Conforms(left, blocks) <==> ConformsPlainly(left, blocks)
    decreases |blocks|
  {
    hide Plain, Values, HeardNames, HeardData, NamedAlike;
    if blocks != [] {
      assert forall j :: 0 <= j < |blocks[0]| ==> Plain(blocks[0][j]);
      PlainHeard(blocks[0]);
      NamedAlikeIff(left, blocks[0]);
      var names := Values(blocks[0], "event");
      assert AllPlain(blocks[1..]);
      ConformsPlainlyIff(LastOr(names, left), blocks[1..]);
      ConformsPlainlyIff("", blocks[1..]);
    }
  }

  // ---------------------------------------------------------------------
  // Values heard against values given
  // ---------------------------------------------------------------------

  /** How long values are when joined, counting a line feed for each. */
  function Span(vs: seq<string>): nat {
    if vs == [] then 0 else |vs[0]| + 1 + Span(vs[1..])
  }

  lemma {:induction false} SpanOfJoin(vs: seq<string>)
    requires vs != []
    ensures |Join(vs)| + 1 == Span(vs)
  {
    if |vs| > 1 {
      SpanOfJoin(vs[1..]);
    } else {
      assert vs[1..] == [];
    }
  }

  lemma {:induction false} SpanOfJoined(data: string, vs: seq<string>)
    ensures data != "" ==> |Joined(data, vs)| == |data| + Span(vs)
    ensures data == "" && Joined(data, vs) != "" ==>
              && vs != [] && |Joined(data, vs)| + 1 <= Span(vs)
              && (|Joined(data, vs)| + 1 == Span(vs) <==> vs[0] != "")
    decreases |vs|
  {
    if vs != [] {
      SpanOfJoined(if data == "" then vs[0] else data + "\n" + vs[0], vs[1..]);
    }
  }

  lemma {:induction false} JoinedIsJoin(data: string, vs: seq<string>)
    ensures data != "" ==> Joined(data, vs) == if vs == [] then data else data + "\n" + Join(vs)
    ensures data == "" && vs != [] && vs[0] != "" ==> Joined(data, vs) == Join(vs) != ""
    decreases |vs|
  {
    if vs != [] {
      JoinedIsJoin(if data == "" then vs[0] else data + "\n" + vs[0], vs[1..]);
      assert data + "\n" + (vs[0] + "\n" + Join(vs[1..])) == (data + "\n" + vs[0]) + "\n" + Join(vs[1..]);
    }
  }

  /** The reader hears every data value but those of bare lines. */
  lemma {:induction false} HeardSpan(block: Block)
    ensures Span(HeardData(block)) <= Span(Values(block, "data"))
    ensures Span(HeardData(block)) == Span(Values(block, "data")) <==> "data" !in block
    ensures "data" !in block ==> HeardData(block) == Values(block, "data")
    ensures Values(block, "data") == [] ==> HeardData(block) == [] && DataSize(block) == 0
  {
    hide StripSpace;
    if block != [] {
      assert "data" + ":" == "data:";
      HeardSpan(block[1..]);
      assert "data" in block <==> block[0] == "data" || "data" in block[1..] by {
        assert block == [block[0]] + block[1..];
      }
      OneSpan(block);
    }
  }

  lemma OneSpan(block: Block)
    requires block != []
    ensures Span(Values(block, "data")) ==
              Span(Values(block[1..], "data")) +
              if FieldValue(block[0], "data").Some? then |FieldValue(block[0], "data").value| + 1 else 0
    ensures Span(HeardData(block)) ==
              Span(HeardData(block[1..])) +
              if "data:" <= block[0] then |StripSpace(After(block[0], "data:"))| + 1 else 0
  {
    hide StripSpace;
    var rest, heard := Values(block[1..], "data"), HeardData(block[1..]);
    if FieldValue(block[0], "data").Some? {
      var v := FieldValue(block[0], "data").value;
      assert ([v] + rest)[1..] == rest;
    } else {
      assert [] + rest == rest;
    }
    if "data:" <= block[0] {
      var v := StripSpace(After(block[0], "data:"));
      assert ([v] + heard)[1..] == heard;
    } else {
      assert [] + heard == heard;
    }
  }

  /** Where the reader delivers, its data is the standard's exactly when the block
    * holds no bare data line and does not begin with an empty value; and where it
    * does not while the standard does, one of those two is why. */
  lemma DataAgreesIff(block: Block)
    ensures var heard, data := Joined("", HeardData(block)), Values(block, "data");
            && (data == [] ==> heard == "" && HeardData(block) == [])
            && (data != [] ==> (heard == Join(data) && heard != "" <==> "data" !in block && data[0] != ""))
  {
    hide Values, HeardData;
    HeardSpan(block);
    var values, data := HeardData(block), Values(block, "data");
    if data != [] {
      SpanOfJoined("", values);
      SpanOfJoin(data);
      JoinedIsJoin("", data);
    }
  }

  // ---------------------------------------------------------------------
  // The two, over whole streams
  // ---------------------------------------------------------------------

  /** The reader never delivers more frames than the standard dispatches. */
  lemma {:induction false} NeverMore(left: string, blocks: seq<Block>)
    ensures |HeardAll(left, blocks)| <= |DispatchedAll(blocks)|
    decreases |blocks|
  {
    hide HeardNames, HeardData, Values, Joined, Join;
    if blocks != [] {
      DataAgreesIff(blocks[0]);
      NeverMore(Absorb(Acc(left, "", 0), blocks[0]).name, blocks[1..]);
      NeverMore("", blocks[1..]);
    }
  }

  lemma {:induction false} HearsAsDispatchedIff(left: string, blocks: seq<Block>)
    ensures HeardAll(left, blocks) == DispatchedAll(blocks) <==> Conforms(left, blocks)
    decreases |blocks|
  {
    hide HeardNames, HeardData, Values, Joined, Join, DataSize, NamedAlike;
    if blocks != [] {
      var block, rest := blocks[0], blocks[1..];
      NamedAlikeIff(left, block);
      var name, heard := LastOr(HeardNames(block), left), Joined("", HeardData(block));
      DataAgreesIff(block);
      if heard == "" {
        HearsAsDispatchedIff(name, rest);
        NeverMore(name, rest);
        assert [] + DispatchedAll(rest) == DispatchedAll(rest);
      } else {
        HearsAsDispatchedIff("", rest);
        var f, g := Frame(name, heard), Frame(LastOr(Values(block, "event"), ""), Join(Values(block, "data")));
        FirstAndRest(f, HeardAll("", rest), g, DispatchedAll(rest));
      }
    }
  }

  lemma FirstAndRest(f: Frame, fs: seq<Frame>, g: Frame, gs: seq<Frame>)
    ensures [f] + fs == [g] + gs <==> f == g && fs == gs
  {
    assert ([f] + fs)[1..] == fs && ([g] + gs)[1..] == gs;
    assert ([f] + fs)[0] == f && ([g] + gs)[0] == g;
  }

  /** The reader delivers what the standard dispatches, no more and no less, if and
    * only if the stream conforms. */
  lemma ReadsAsStandardIff(blocks: seq<Block>, ending: Failure)
    requires Bounded(0, blocks)
    ensures RecvAll(RenderAll(blocks), ending).0 == DispatchedAll(blocks) <==> Conforms("", blocks)
  {
    hide RecvOn, RenderAll, HeardAll, DispatchedAll, Conforms, Bounded;
    HearsAll("", 0, blocks, ending);
    HearsAsDispatchedIff("", blocks);
  }

  /** And for plain lines, in terms of what each block names and begins with. */
  lemma ReadsPlainAsStandardIff(blocks: seq<Block>, ending: Failure)
    requires AllPlain(blocks) && Bounded(0, blocks)
    ensures RecvAll(RenderAll(blocks), ending).0 == DispatchedAll(blocks) <==> ConformsPlainly("", blocks)
  {
    hide RecvAll, RenderAll, DispatchedAll, Conforms, Bounded, AllPlain, ConformsPlainly;
    ReadsAsStandardIff(blocks, ending);
    ConformsPlainlyIff("", blocks);
  }

  // ---------------------------------------------------------------------
  // Streams that conform
  // ---------------------------------------------------------------------

  /** A block of plain lines that is its own frame or none: every block the server
    * sends is one, comments alone or one event name and one line of JSON. */
  predicate Regular(block: Block) {
    && (forall i :: 0 <= i < |block| ==> Plain(block[i]))
    && DataSize(block) <= MAX_FRAME
    && if Values(block, "data") == [] then Values(block, "event") == [] else Values(block, "data")[0] != ""
  }

  lemma {:induction false} RegularConforms(blocks: seq<Block>)
    requires forall i :: 0 <= i < |blocks| ==> Regular(blocks[i])
    ensures Conforms("", blocks) && Bounded(0, blocks)
    decreases |blocks|
  {
    hide Values, HeardNames, HeardData, Joined, Join, NamedAlike;
    if blocks != [] {
      assert Regular(blocks[0]);
      NamedAlikeIff("", blocks[0]);
      PlainHeard(blocks[0]);
      DataAgreesIff(blocks[0]);
      HeardSpan(blocks[0]);
      RegularConforms(blocks[1..]);
    }
  }

  /** Exactly the frames the standard dispatches, in order, and then the end. */
  lemma RoundTrip(blocks: seq<Block>, ending: Failure)
    requires forall i :: 0 <= i < |blocks| ==> Regular(blocks[i])
    ensures RecvAll(RenderAll(blocks), ending) == (DispatchedAll(blocks), ending)
  {
    hide RecvOn, RenderAll, Regular, DispatchedAll, Conforms, Bounded;
    RegularConforms(blocks);
    HearsAll("", 0, blocks, ending);
    ReadsAsStandardIff(blocks, ending);
  }

  /** A stream cut anywhere yields exactly the frames whose blocks arrived whole,
    * never half a frame, and then an ordinary end of stream. */
  lemma Truncated(blocks: seq<Block>, cut: nat, ending: Failure) returns (n: nat)
    requires cut <= |RenderAll(blocks)| && forall i :: 0 <= i < |blocks| ==> Regular(blocks[i])
    ensures n <= |blocks| && |RenderAll(blocks[..n])| <= cut
    ensures n < |blocks| ==> cut < |RenderAll(blocks[..n])| + |Render(blocks[n])|
    ensures RecvAll(RenderAll(blocks)[..cut], ending).0 == DispatchedAll(blocks[..n])
    ensures RecvAll(RenderAll(blocks)[..cut], ending).1 in {ending, UnexpectedEof}
  {
    hide RecvOn, RenderAll, Render, Regular, DispatchedAll, Conforms, Bounded, HeardAll;
    RegularConforms(blocks);
    n := CutHears("", 0, blocks, cut, ending);
    RegularConforms(blocks[..n]);
    HearsAsDispatchedIff("", blocks[..n]);
  }

  // ---------------------------------------------------------------------
  // Streams that do not
  // ---------------------------------------------------------------------

  lemma Differs(blocks: seq<Block>, ending: Failure)
    requires Bounded(0, blocks) && !Conforms("", blocks)
    ensures RecvAll(RenderAll(blocks), ending).0 != DispatchedAll(blocks)
  {
    hide RecvAll, RenderAll, DispatchedAll, Conforms, Bounded;
    ReadsAsStandardIff(blocks, ending);
  }

  lemma LoneName()
    ensures var block := ["event: a"];
            HeardNames(block) == ["a"] && HeardData(block) == [] && Values(block, "data") == [] && DataSize(block) == 0
  {
    hide TrimSpace;
    TrimmedName();
    HeardOne("event: a");
    OneKind("event: a");
    SizeOfOne("event: a");
    assert "data" + ":" == "data:";
    assert Values(["event: a"], "data") == [] + [];
  }

  lemma LoneData()
    ensures var block := ["data: x"];
            && HeardNames(block) == [] && HeardData(block) == ["x"] && DataSize(block) == 7
            && Values(block, "data") == ["x"] && Values(block, "event") == []
  {
    hide TrimSpace;
    HeardOne("data: x");
    SizeOfOne("data: x");
    assert After("data: x", "data:") == " x" && StripSpace(" x") == "x";
    assert Values(["data: x"], "data") == ["x"] + [] && Values(["data: x"], "event") == [] + [];
  }

  /** A name outlives its block when the block has no data: the next frame gets it. */
  lemma NameOutlivesItsBlock(ending: Failure)
    ensures RecvAll(RenderAll([["event: a"], ["data: x"]]), ending).0 != DispatchedAll([["event: a"], ["data: x"]])
  {
    hide RecvAll, RenderAll, DispatchedAll, HeardNames, HeardData, Values, DataSize, FieldValue, TrimSpace, NamedAlike;
    var first, second := ["event: a"], ["data: x"];
    LoneName();
    LoneData();
    JoinedOne("", "x");
    NamedAlikeIff("a", second);
    assert [first, second][1..] == [second] && [second][1..] == [];
    assert !Conforms("a", [second]);
    assert Bounded(0, [second]) && IsLine("event: a");
    Differs([first, second], ending);
  }

  /** Empty data lines before the first that is not are lost. */
  lemma LeadingEmptyDataIsLost(ending: Failure)
    ensures RecvAll(RenderAll([["data:", "data: x"]]), ending).0 != DispatchedAll([["data:", "data: x"]])
  {
    hide RecvAll, RenderAll, DispatchedAll;
    Differs([["data:", "data: x"]], ending);
  }

  /** A bare data line, which the standard takes for an empty value, is passed over. */
  lemma BareDataIsLost(ending: Failure)
    ensures RecvAll(RenderAll([["data: x", "data"]]), ending).0 != DispatchedAll([["data: x", "data"]])
  {
    hide RecvAll, RenderAll, DispatchedAll;
    Differs([["data: x", "data"]], ending);
  }

  /** A bare event line, which the standard takes to empty the name, is passed over. */
  lemma BareEventIsIgnored(ending: Failure)
    ensures RecvAll(RenderAll([["event: a", "event", "data: x"]]), ending).0 !=
              DispatchedAll([["event: a", "event", "data: x"]])
  {
    hide RecvAll, RenderAll, DispatchedAll;
    hide HeardNames, HeardData, Values, DataSize, FieldValue, TrimSpace, NamedAlike;
    var block := ["event: a", "event", "data: x"];
    BareEventBlock();
    NamedAlikeIff("", block);
    JoinedOne("", "x");
    assert [block][1..] == [];
    Differs([block], ending);
  }

  lemma BareEventBlock()
    ensures var block := ["event: a", "event", "data: x"];
            && HeardNames(block) == ["a"] && HeardData(block) == ["x"] && DataSize(block) == 7
            && Values(block, "data") == ["x"] && Values(block, "event") == ["a", ""] && "data" !in block
  {
    hide TrimSpace;
    TrimmedName();
    LoneData();
    var block := ["event: a", "event", "data: x"];
    assert "data" + ":" == "data:" && "event" + ":" == "event:" && "event: a"[0] == 'e' && "event"[0] == 'e';
    assert block[1..] == ["event", "data: x"] && block[1..][1..] == ["data: x"];
    assert HeardNames(block[1..]) == [] + HeardNames(["data: x"]) == [];
    assert HeardData(block[1..]) == [] + HeardData(["data: x"]) == ["x"];
    assert Values(block[1..], "event") == [""] + Values(["data: x"], "event") == [""];
    assert Values(block[1..], "data") == [] + Values(["data: x"], "data") == ["x"];
    assert Values(block, "data") == [] + Values(block[1..], "data");
    assert Values(block, "event") == ["a"] + Values(block[1..], "event");
    assert HeardData(block) == [] + HeardData(block[1..]);
  }

  /** A name keeps none of the spaces around it; the standard drops one in front. */
  lemma NameIsTrimmed(ending: Failure)
    ensures RecvAll(RenderAll([["event: a ", "data: x"]]), ending).0 != DispatchedAll([["event: a ", "data: x"]])
  {
    hide RecvAll, RenderAll, DispatchedAll;
    hide HeardNames, HeardData, Values, DataSize, FieldValue, TrimSpace, NamedAlike;
    var block := ["event: a ", "data: x"];
    NamedBlock();
    NamedAlikeIff("", block);
    JoinedOne("", "x");
    assert [block][1..] == [];
    Differs([block], ending);
  }

  lemma NamedBlock()
    ensures var block := ["event: a ", "data: x"];
            && HeardNames(block) == ["a"] && HeardData(block) == ["x"] && DataSize(block) == 7
            && Values(block, "data") == ["x"] && Values(block, "event") == ["a "]
  {
    hide TrimSpace;
    TrimmedName();
    LoneData();
    var block := ["event: a ", "data: x"];
    OneKind("event: a ");
    assert "data" + ":" == "data:" && "event" + ":" == "event:";
    assert block[1..] == ["data: x"] && block[0] == "event: a ";
    assert DataSize(block) == 0 + DataSize(["data: x"]);
    assert HeardData(block) == [] + HeardData(["data: x"]);
  }

  lemma TrimmedName()
    ensures TrimSpace(After("event: a", "event:")) == "a" && TrimSpace(After("event: a ", "event:")) == "a"
    ensures StripSpace(After("event: a ", "event:")) == "a "
  {
    assert After("event: a", "event:") == " a" && After("event: a ", "event:") == " a ";
    assert " a"[1..] == "a" && " a "[1..] == "a " && "a "[..1] == "a";
    assert TrimSpace("a") == "a" && TrimSpace("a ") == TrimSpace("a");
  }
}
