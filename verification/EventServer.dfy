/** The server's side of the event stream, down to the bytes: what it writes for
  * events, gap notices and heartbeats is read back exactly, and a connection that
  * sends the log in order is honest wherever it is cut.
  */
module EventServer {
  import opened Options
  import opened Sse
  import opened SseStandard
  import opened EventTail

  datatype Sent = Beat | Sends(event: Event) | Notice(gap: Gap)

  /** The texts the server puts in a frame. */
  datatype Writer = Writer(number: int -> string, event: Event -> string, gap: Gap -> string)

  function BlockOf(w: Writer, sent: Sent): Block {
    match sent
    case Beat => [": heartbeat"]
    case Sends(e) => ["id: " + w.number(e.seqNo), "event: " + e.kind, "data: " + w.event(e)]
    case Notice(g) => ["event: heyarr.stream.gap", "data: " + w.gap(g)]
  }

  function BlocksOf(w: Writer, sent: seq<Sent>): seq<Block> {
    if sent == [] then [] else [BlockOf(w, sent[0])] + BlocksOf(w, sent[1..])
  }

  /** One line with room to spare, as a number, a type name or compact JSON is. */
  predicate OneLine(s: string) {
    s != "" && |s| < MAX_FRAME - 10 && '\n' !in s && '\r' !in s
  }

  /** What is written can be read back, and an event's type is not the gap's. */
  ghost predicate Readable(w: Writer, codec: Codec, sent: Sent) {
    match sent
    case Beat => true
    case Sends(e) =>
      && OneLine(w.number(e.seqNo)) && OneLine(e.kind) && OneLine(w.event(e))
      && TrimSpace(" " + e.kind) == e.kind != GAP_TYPE && codec.event(w.event(e)) == Some(e)
    case Notice(g) => OneLine(w.gap(g)) && codec.gap(w.gap(g)) == Some(g)
  }

  function FramesOf(w: Writer, sent: Sent): seq<Frame> {
    match sent
    case Beat => []
    case Sends(e) => [Frame(e.kind, w.event(e))]
    case Notice(g) => [Frame(GAP_TYPE, w.gap(g))]
  }

  function MessagesOf(sent: seq<Sent>): seq<Message> {
    if sent == [] then []
    else
      var first := match sent[0] case Beat => [] case Sends(e) => [EventMsg(e)] case Notice(g) => [GapMsg(g)];
      first + MessagesOf(sent[1..])
  }

  // ---------------------------------------------------------------------
  // Blocks
  // ---------------------------------------------------------------------

  lemma NameLine(name: string)
    requires OneLine(name) && TrimSpace(" " + name) == name
    ensures var e := "event: " + name;
            Plain(e) && !("data:" <= e) && FieldValue(e, "event") == Some(name) && FieldValue(e, "data") == None
  {
    hide TrimSpace;
    var e := "event: " + name;
    assert After(e, "event:") == " " + name && StripSpace(" " + name) == name;
    assert e[0] == 'e' && "event" + ":" == "event:" && "data" + ":" == "data:";
  }

  lemma DataLine(data: string)
    requires OneLine(data)
    ensures var d := "data: " + data; Plain(d) && FieldValue(d, "data") == Some(data) && FieldValue(d, "event") == None
  {
    hide TrimSpace;
    var d := "data: " + data;
    assert After(d, "data:") == " " + data && StripSpace(" " + data) == data;
    assert d[0] == 'd' && "event" + ":" == "event:" && "data" + ":" == "data:";
  }

  lemma NamedData(name: string, data: string)
    requires OneLine(name) && OneLine(data) && TrimSpace(" " + name) == name
    ensures Regular(["event: " + name, "data: " + data])
    ensures Dispatched(["event: " + name, "data: " + data]) == [Frame(name, data)]
  {
    hide TrimSpace, StripSpace, After, Plain, FieldValue;
    var e, d := "event: " + name, "data: " + data;
    var block := [e, d];
    NameLine(name);
    DataLine(data);
    SizeOfOne(d);
    assert block[1..] == [d] && block[0] == e && [d][1..] == [];
    ValuesOfOne(d, "event");
    ValuesOfOne(d, "data");
    assert Values(block, "event") == [name] + Values([d], "event") == [name];
    assert Values(block, "data") == Values([d], "data");
    assert DataSize(block) == DataSize([d]) <= |d|;
  }

  /** A line of no interest in front changes nothing. */
  lemma IgnoredFirst(line: string, block: Block)
    requires Regular(block) && Plain(line) && !("data:" <= line)
    requires FieldValue(line, "event") == None && FieldValue(line, "data") == None
    ensures Regular([line] + block) && Dispatched([line] + block) == Dispatched(block)
  {
    hide TrimSpace, Plain, FieldValue;
    var more := [line] + block;
    assert more[1..] == block && more[0] == line;
    assert Values(more, "event") == [] + Values(block, "event") && Values(more, "data") == [] + Values(block, "data");
    assert Values(more, "event") == Values(block, "event") && Values(more, "data") == Values(block, "data");
    assert DataSize(more) == DataSize(block);
  }

  lemma BeatIsRegular()
    ensures Regular([": heartbeat"]) && Dispatched([": heartbeat"]) == []
  {
    hide TrimSpace;
    var line := ": heartbeat";
    assert line[0] == ':' && "event" + ":" == "event:" && "data" + ":" == "data:";
    assert Plain(line);
    var none: Block := [];
    assert [line][1..] == none;
    assert Values([line], "event") == Values(none, "event") && Values([line], "data") == Values(none, "data");
    SizeOfOne(line);
  }

  lemma IdIsIgnored(number: string)
    requires OneLine(number)
    ensures var line := "id: " + number;
            Plain(line) && !("data:" <= line) && FieldValue(line, "event") == None && FieldValue(line, "data") == None
  {
    hide TrimSpace;
    var line := "id: " + number;
    assert line[0] == 'i' && "event" + ":" == "event:" && "data" + ":" == "data:";
  }

  lemma GapTypeTrimmed()
    ensures OneLine(GAP_TYPE) && TrimSpace(" " + GAP_TYPE) == GAP_TYPE
  {
    var s := " " + GAP_TYPE;
    assert s[1..] == GAP_TYPE;
    assert IsSpace(s[0]) && !IsSpace(GAP_TYPE[0]) && !IsSpace(GAP_TYPE[|GAP_TYPE| - 1]);
  }

  lemma NoticeIsRegular(w: Writer, g: Gap)
    requires OneLine(w.gap(g))
    ensures Regular(BlockOf(w, Notice(g))) && Dispatched(BlockOf(w, Notice(g))) == FramesOf(w, Notice(g))
  {
    hide TrimSpace, Regular, Dispatched, Plain;
    GapTypeTrimmed();
    assert "event: " + GAP_TYPE == "event: heyarr.stream.gap";
    NamedData(GAP_TYPE, w.gap(g));
  }

  /** Everything the server writes is a regular block of exactly its one frame. */
  lemma WrittenIsRegular(w: Writer, codec: Codec, sent: Sent)
    requires Readable(w, codec, sent)
    ensures Regular(BlockOf(w, sent)) && Dispatched(BlockOf(w, sent)) == FramesOf(w, sent)
  {
    hide TrimSpace, Regular, Dispatched, Plain;
    match sent
    case Beat => BeatIsRegular();
    case Sends(e) =>
      NamedData(e.kind, w.event(e));
      IdIsIgnored(w.number(e.seqNo));
      var rest := ["event: " + e.kind, "data: " + w.event(e)];
      IgnoredFirst("id: " + w.number(e.seqNo), rest);
      assert BlockOf(w, sent) == ["id: " + w.number(e.seqNo)] + rest;
    case Notice(g) =>
      NoticeIsRegular(w, g);
  }

  /** An event's block names its sequence number as the stream's last event id, which a
    * browser reconnects with; the notice's does not. */
  lemma IdNamesTheEvent(w: Writer, sent: Sent)
    ensures Values(BlockOf(w, sent), "id") == if sent.Sends? then [w.number(sent.event.seqNo)] else []
  {
    assert "id" + ":" == "id:";
    match sent
    case Beat =>
      var line := ": heartbeat";
      assert line[0] == ':';
      ValuesOfOne(line, "id");
    case Sends(e) =>
      var i, n, d := "id: " + w.number(e.seqNo), "event: " + e.kind, "data: " + w.event(e);
      assert After(i, "id:") == " " + w.number(e.seqNo) && StripSpace(" " + w.number(e.seqNo)) == w.number(e.seqNo);
      assert n[0] == 'e' && d[0] == 'd';
      assert [i, n, d][1..] == [n, d] && [n, d][1..] == [d];
      ValuesOfOne(d, "id");
      assert Values([n, d], "id") == [] + Values([d], "id");
    case Notice(g) =>
      var n, d := "event: " + GAP_TYPE, "data: " + w.gap(g);
      assert n[0] == 'e' && d[0] == 'd' && [n, d][1..] == [d];
      ValuesOfOne(d, "id");
  }

  // ---------------------------------------------------------------------
  // Streams
  // ---------------------------------------------------------------------

  /** What a tail makes of any stream: the messages of its frames up to the first that
    * does not decode, and which of the two ended it. */
  lemma {:induction false} MessagesAre(codec: Codec, s: string, ending: Failure)
    ensures var ((ms, end), (frames, why)) := (Messages(codec, s, ending), RecvAll(s, ending));
            && |ms| <= |frames| && (forall i :: 0 <= i < |ms| ==> Decode(codec, frames[i]) == Some(ms[i]))
            && if |ms| == |frames| then end == Stopped(why)
               else end == Undecodable && Decode(codec, frames[|ms|]) == None
    decreases |s|
  {
    hide RecvFrom, Decode;
    var r := RecvFrom(s, FRESH, ending);
    if r.Got? {
      MessagesAre(codec, r.rest, ending);
      var frames, rest := RecvAll(s, ending).0, RecvAll(r.rest, ending).0;
      assert frames == [r.frame] + rest && frames[0] == r.frame && frames[1..] == rest;
      assert forall i :: 0 < i < |frames| ==> frames[i] == rest[i - 1];
    }
  }

  function DecodeAll(codec: Codec, frames: seq<Frame>): Option<seq<Message>> {
    if frames == [] then Some([])
    else
      match (Decode(codec, frames[0]), DecodeAll(codec, frames[1..]))
      case (Some(m), Some(ms)) => Some([m] + ms)
      case _ => None
  }

  lemma {:induction false} MessagesAreDecoded(codec: Codec, s: string, ending: Failure)
    requires DecodeAll(codec, RecvAll(s, ending).0).Some?
    ensures Messages(codec, s, ending) == (DecodeAll(codec, RecvAll(s, ending).0).value, Stopped(RecvAll(s, ending).1))
    decreases |s|
  {
    hide RecvFrom, Decode;
    var r := RecvFrom(s, FRESH, ending);
    assert RecvAll(s, ending) == RecvOn(s, FRESH, ending);
    if r.Got? {
      assert RecvAll(s, ending).0[1..] == RecvAll(r.rest, ending).0;
      MessagesAreDecoded(codec, r.rest, ending);
    }
  }

  lemma {:induction false} BlocksAt(w: Writer, sent: seq<Sent>)
    ensures |BlocksOf(w, sent)| == |sent|
    ensures forall i :: 0 <= i < |sent| ==> BlocksOf(w, sent)[i] == BlockOf(w, sent[i])
  {
    hide BlockOf;
    if sent != [] {
      BlocksAt(w, sent[1..]);
    }
  }

  lemma {:induction false} WrittenDecodes(w: Writer, codec: Codec, sent: seq<Sent>)
    requires forall i :: 0 <= i < |sent| ==> Readable(w, codec, sent[i])
    ensures DecodeAll(codec, DispatchedAll(BlocksOf(w, sent))) == Some(MessagesOf(sent))
  {
    hide Dispatched, BlockOf, TrimSpace, Readable, DecodeAll;
    if sent != [] {
      WrittenDecodes(w, codec, sent[1..]);
      WrittenIsRegular(w, codec, sent[0]);
      var rest := DispatchedAll(BlocksOf(w, sent[1..]));
      assert BlocksOf(w, sent) == [BlockOf(w, sent[0])] + BlocksOf(w, sent[1..]);
      assert BlocksOf(w, sent)[1..] == BlocksOf(w, sent[1..]);
      assert DispatchedAll(BlocksOf(w, sent)) == FramesOf(w, sent[0]) + rest;
      OneDecodes(w, codec, sent[0], rest);
      FirstOfSent(sent);
    } else {
      assert DecodeAll(codec, []) == Some([]) by {
        NoneToDecode(codec);
      }
    }
  }

  lemma NoneToDecode(codec: Codec)
    ensures DecodeAll(codec, []) == Some([])
  {
  }

  lemma FirstOfSent(sent: seq<Sent>)
    requires sent != []
    ensures MessagesOf(sent) == MessagesOf([sent[0]]) + MessagesOf(sent[1..])
  {
    assert [sent[0]][1..] == [];
    assert MessagesOf([]) == [];
  }

  lemma OneDecodes(w: Writer, codec: Codec, sent: Sent, rest: seq<Frame>)
    requires Readable(w, codec, sent) && DecodeAll(codec, rest).Some?
    ensures DecodeAll(codec, FramesOf(w, sent) + rest) == Some(MessagesOf([sent]) + DecodeAll(codec, rest).value)
  {
    hide TrimSpace;
    var all := FramesOf(w, sent) + rest;
    assert [sent][1..] == [];
    if sent == Beat {
      assert all == rest && MessagesOf([sent]) == [];
      assert MessagesOf([sent]) + DecodeAll(codec, rest).value == DecodeAll(codec, rest).value;
    } else {
      assert all[1..] == rest && all[0] == FramesOf(w, sent)[0];
      var m := match sent case Sends(e) => EventMsg(e) case Notice(g) => GapMsg(g);
      assert MessagesOf([sent]) == [m] + [] == [m];
      assert Decode(codec, all[0]) == Some(m);
    }
  }

  lemma {:induction false} BlocksTaken(w: Writer, sent: seq<Sent>, n: nat)
    requires n <= |sent|
    ensures |BlocksOf(w, sent)| == |sent| && BlocksOf(w, sent[..n]) == BlocksOf(w, sent)[..n]
  {
    if n > 0 {
      BlocksTaken(w, sent[1..], n - 1);
      assert sent[..n][1..] == sent[1..][..n - 1];
    } else if sent != [] {
      BlocksTaken(w, sent[1..], 0);
    }
  }

  /** A connection cut at any byte carries exactly the messages of what arrived
    * whole, and ends in a way the tail takes for an ordinary end. */
  lemma CutStreamReads(w: Writer, codec: Codec, sent: seq<Sent>, cut: nat, ending: Failure) returns (n: nat)
    requires forall i :: 0 <= i < |sent| ==> Readable(w, codec, sent[i])
    requires cut <= |RenderAll(BlocksOf(w, sent))|
    ensures n <= |sent|
    ensures Messages(codec, RenderAll(BlocksOf(w, sent))[..cut], ending).0 == MessagesOf(sent[..n])
    ensures Messages(codec, RenderAll(BlocksOf(w, sent))[..cut], ending).1 in {Stopped(ending), Stopped(UnexpectedEof)}
  {
    hide Regular, Readable, BlockOf, RenderAll, Render, RecvAll, DispatchedAll, Messages, TrimSpace;
    WrittenDecodes(w, codec, sent);
    BlocksAt(w, sent);
    forall i | 0 <= i < |sent| ensures Regular(BlocksOf(w, sent)[i]) {
      WrittenIsRegular(w, codec, sent[i]);
    }
    n := Truncated(BlocksOf(w, sent), cut, ending);
    BlocksTaken(w, sent, n);
    WrittenDecodes(w, codec, sent[..n]);
    MessagesAreDecoded(codec, RenderAll(BlocksOf(w, sent))[..cut], ending);
  }

  // ---------------------------------------------------------------------
  // A server that reads its log in order is honest
  // ---------------------------------------------------------------------

  lemma {:induction false} MessagesTaken(sent: seq<Sent>, n: nat) returns (k: nat)
    requires n <= |sent|
    ensures k <= |MessagesOf(sent)| && MessagesOf(sent[..n]) == MessagesOf(sent)[..k]
  {
    k := 0;
    if n > 0 {
      k := MessagesTaken(sent[1..], n - 1);
      assert sent[..n][1..] == sent[1..][..n - 1];
      if sent[0] != Beat {
        k := k + 1;
      }
    }
  }

  lemma {:induction false} HonestPrefix(matches: int -> bool, after: int, ms: seq<Message>, k: nat)
    requires HonestFrom(matches, after, ms) && k <= |ms|
    ensures HonestFrom(matches, after, ms[..k])
    decreases |ms|
  {
    if k == |ms| {
      assert ms[..k] == ms;
    } else {
      var front := ms[..|ms| - 1];
      HonestPrefix(matches, after, front, k);
      assert front[..k] == ms[..k];
    }
  }

  /** Whatever byte it is cut at, a connection whose messages are honest is one the
    * tail may rely on. */
  lemma CutStreamIsHonest(
      w: Writer, codec: Codec, matches: int -> bool, after: int, sent: seq<Sent>, cut: nat, ending: Failure)
    requires forall i :: 0 <= i < |sent| ==> Readable(w, codec, sent[i])
    requires cut <= |RenderAll(BlocksOf(w, sent))| && HonestFrom(matches, after, MessagesOf(sent))
    ensures HonestFrom(matches, after, Messages(codec, RenderAll(BlocksOf(w, sent))[..cut], ending).0)
  {
    hide Readable, RenderAll, Messages, HonestFrom;
    var n := CutStreamReads(w, codec, sent, cut, ending);
    var k := MessagesTaken(sent, n);
    HonestPrefix(matches, after, MessagesOf(sent), k);
  }

  /** The log of matching events: sequence numbers only grow. */
  ghost predicate IsLog(log: seq<Event>) {
    forall i, j :: 0 <= i < j < |log| ==> log[i].seqNo < log[j].seqNo
  }

  function AsMessages(events: seq<Event>): (ms: seq<Message>)
    ensures |ms| == |events|
  {
    seq(|events|, i requires 0 <= i < |events| => EventMsg(events[i]))
  }

  /** The events of the log match, and any that match besides come after it: they
    * were recorded since it was read. */
  ghost predicate Covers(log: seq<Event>, matches: int -> bool) {
    && (forall k :: 0 <= k < |log| ==> matches(log[k].seqNo))
    && forall s :: matches(s) && !Printed(log, s) ==> forall k :: 0 <= k < |log| ==> log[k].seqNo < s
  }

  /** Catching up from the log in order, from the first event past the resume
    * point, is honest, as far as it gets. */
  lemma {:induction false} CatchUpIsHonest(log: seq<Event>, matches: int -> bool, after: int, i: nat, j: nat)
    requires IsLog(log) && i <= j <= |log| && Covers(log, matches)
    requires (forall k :: 0 <= k < i ==> log[k].seqNo <= after) && (i < |log| ==> log[i].seqNo > after)
    ensures HonestFrom(matches, after, AsMessages(log[i..j]))
    ensures LastOf(after, AsMessages(log[i..j])) == if i == j then after else log[j - 1].seqNo
    decreases j - i
  {
    hide HonestStep, Printed, IsLog, Covers;
    if i < j {
      CatchUpIsHonest(log, matches, after, i, j - 1);
      OneMoreMessage(log, i, j);
      var last := if i == j - 1 then after else log[j - 2].seqNo;
      NotAhead(log, after, i, j - 1, last);
      NextInLog(log, matches, last, j - 1);
    }
  }

  lemma OneMoreMessage(log: seq<Event>, i: nat, j: nat)
    requires i < j <= |log|
    ensures var ms := AsMessages(log[i..j]);
            |ms| == j - i && ms[..|ms| - 1] == AsMessages(log[i..j - 1]) && ms[|ms| - 1] == EventMsg(log[j - 1])
  {
  }

  lemma NotAhead(log: seq<Event>, after: int, i: nat, n: nat, last: int)
    requires IsLog(log) && i <= n < |log| && log[i].seqNo > after
    requires forall k :: 0 <= k < i ==> log[k].seqNo <= after
    requires last == if i == n then after else log[n - 1].seqNo
    ensures log[n].seqNo > last >= after && forall k :: 0 <= k < n ==> log[k].seqNo <= last
  {
    if i < n {
      assert log[i].seqNo <= log[n - 1].seqNo;
    }
  }

  lemma NextInLog(log: seq<Event>, matches: int -> bool, last: int, n: nat)
    requires IsLog(log) && n < |log| && log[n].seqNo > last && Covers(log, matches)
    requires forall k :: 0 <= k < n ==> log[k].seqNo <= last
    ensures HonestStep(matches, last, EventMsg(log[n]))
  {
    forall s | last < s < log[n].seqNo ensures !matches(s) {
      forall k | 0 <= k < |log| ensures log[k].seqNo != s {
        assert k < n || k == n || log[n].seqNo < log[k].seqNo;
      }
    }
  }

  // ---------------------------------------------------------------------
  // A whole server
  // ---------------------------------------------------------------------

  /** The events past the resume point. */
  function Since(log: seq<Event>, after: int): seq<Event> {
    if log == [] || log[0].seqNo > after then log else Since(log[1..], after)
  }

  /** Whether the resume point lies below the oldest event retained, of any type. */
  predicate Pruned(oldest: int, after: int) {
    after > 0 && oldest > 0 && oldest > after
  }

  /** What a connection sends, as far as it gets: a notice first when history was
    * pruned, and then the retained events in order. `log` holds the matching ones. */
  function StreamOf(log: seq<Event>, oldest: int, detail: string, after: int): seq<Message> {
    var notice := if Pruned(oldest, after) then [GapMsg(Gap(oldest - 1, oldest - after - 1, detail))] else [];
    notice + AsMessages(Since(log, after))
  }

  /** A notice is given exactly when the resume point, past the start, lies below what
    * is retained. It names the last number pruned, and counts those from one to the other. */
  lemma NoticeIff(log: seq<Event>, oldest: int, detail: string, after: int)
    ensures var ms := StreamOf(log, oldest, detail, after);
            && (ms != [] && ms[0].GapMsg? <==> 0 < after < oldest)
            && (0 < after < oldest ==>
                  && ms[0].gap.resumeAfter == oldest - 1 && ms[0].gap.detail == detail
                  && after + ms[0].gap.dropped == ms[0].gap.resumeAfter
                  && ms[1..] == AsMessages(Since(log, after)))
            && (!(0 < after < oldest) ==> ms == AsMessages(Since(log, after)))
  {
    assert [] + AsMessages(Since(log, after)) == AsMessages(Since(log, after));
  }

  ghost predicate IsPrefix(ms: seq<Message>, all: seq<Message>) {
    exists k :: 0 <= k <= |all| && ms == all[..k]
  }

  /** What is retained of a log whose oldest event is `oldest`. */
  function Retained(log: seq<Event>, oldest: int): seq<Event> {
    Since(log, oldest - 1)
  }

  /** The log over the life of a tail. `log(n)` is every matching event recorded by
    * the time of connection `n`, retained or not; those before `oldest(n)` have been
    * pruned by then; `empty(n)` is whether nothing at all is retained. */
  datatype History = History(log: nat -> seq<Event>, oldest: nat -> int, empty: nat -> bool) {
    /** What the server reads as the oldest event retained: 0 when there is none. */
    function Told(n: nat): int {
      if empty(n) then 0 else oldest(n)
    }
  }

  function Kept(h: History, n: nat): seq<Event> {
    Retained(h.log(n), h.oldest(n))
  }

  /** The log is only ever appended to, and pruned only from its front. */
  ghost predicate Grows(h: History) {
    && (forall n: nat :: IsLog(h.log(n)) && (h.empty(n) ==> Kept(h, n) == []))
    && forall n: nat, m: nat :: n <= m ==> h.log(n) <= h.log(m) && h.oldest(n) <= h.oldest(m)
  }

  /** A server whose log grows and is pruned between connections: each is sent what
    * is retained when it is made, heartbeats anywhere, cut at any byte. */
  ghost predicate ServesLog(
      serve: (nat, int) -> Connection, w: Writer, codec: Codec, h: History, detail: string)
  {
    forall n, after :: serve(n, after).Body? ==>
        ServedFromLog(serve(n, after), w, codec, StreamOf(Kept(h, n), h.Told(n), detail, after))
  }

  ghost predicate Recorded(h: History, s: int) {
    exists n: nat :: Printed(h.log(n), s)
  }

  /** What connection `n` can be asked for: the recorded events not pruned by then. */
  ghost function Standing(h: History): nat -> int -> bool {
    n => s => Recorded(h, s) && s >= h.oldest(n)
  }

  /** Pruned before the connection that would have sent it. */
  ghost predicate Lost(h: History, points: seq<int>, s: int) {
    exists n: nat :: n + 1 < |points| && points[n] < s < h.oldest(n)
  }

  ghost predicate ServedFromLog(c: Connection, w: Writer, codec: Codec, all: seq<Message>)
    requires c.Body?
  {
    exists sent, cut: nat :: CutFrom(c, w, codec, all, sent, cut)
  }

  ghost predicate CutFrom(c: Connection, w: Writer, codec: Codec, all: seq<Message>, sent: seq<Sent>, cut: nat)
    requires c.Body?
  {
    && (forall i :: 0 <= i < |sent| ==> Readable(w, codec, sent[i]))
    && cut <= |RenderAll(BlocksOf(w, sent))| && c.bytes == RenderAll(BlocksOf(w, sent))[..cut]
    && IsPrefix(MessagesOf(sent), all)
  }

  lemma {:induction false} SinceIsSuffix(log: seq<Event>, after: int) returns (i: nat)
    requires IsLog(log)
    ensures i <= |log| && Since(log, after) == log[i..]
    ensures (forall k :: 0 <= k < i ==> log[k].seqNo <= after) && (i < |log| ==> log[i].seqNo > after)
  {
    if log == [] || log[0].seqNo > after {
      i := 0;
    } else {
      i := SinceIsSuffix(log[1..], after);
      assert log[1..][i..] == log[i + 1..];
      assert forall k :: 0 < k < i + 1 ==> log[k] == log[1..][k - 1];
      i := i + 1;
    }
  }

  lemma {:induction false} HonestThen(matches: int -> bool, after: int, a: seq<Message>, b: seq<Message>)
    requires HonestFrom(matches, after, a) && HonestFrom(matches, LastOf(after, a), b)
    ensures HonestFrom(matches, after, a + b) && LastOf(after, a + b) == LastOf(LastOf(after, a), b)
    decreases |b|
  {
    if b == [] {
      assert a + b == a;
    } else {
      var front := b[..|b| - 1];
      assert (a + b)[..|a + b| - 1] == a + front;
      HonestThen(matches, after, a, front);
    }
  }

  /** The notice names no event that could still be sent, so what a connection sends
    * of the retained log is honest from the resume point, pruned past or not. */
  lemma StreamIsHonest(log: seq<Event>, oldest: int, detail: string, matches: int -> bool, after: int)
    requires IsLog(log) && Covers(log, matches) && (oldest > 0 ==> forall s :: matches(s) ==> s >= oldest)
    ensures HonestFrom(matches, after, StreamOf(log, oldest, detail, after))
  {
    hide Printed, IsLog, HonestFrom, LastOf, HonestStep;
    var i := SinceIsSuffix(log, after);
    if Pruned(oldest, after) {
      assert Since(log, after) == log;
      var notice := GapMsg(Gap(oldest - 1, oldest - after - 1, detail));
      NoticeIsHonest(oldest, matches, after, notice);
      assert log[0..|log|] == log;
      CatchUpIsHonest(log, matches, oldest - 1, 0, |log|);
      HonestThen(matches, after, [notice], AsMessages(log));
    } else {
      assert log[i..|log|] == log[i..];
      CatchUpIsHonest(log, matches, after, i, |log|);
      assert StreamOf(log, oldest, detail, after) == [] + AsMessages(log[i..]) == AsMessages(log[i..]);
    }
  }

  lemma NoticeIsHonest(oldest: int, matches: int -> bool, after: int, notice: Message)
    requires (forall s :: matches(s) ==> s >= oldest) && oldest > after
    requires notice.GapMsg? && notice.gap.resumeAfter == oldest - 1
    ensures HonestFrom(matches, after, [notice]) && LastOf(after, [notice]) == oldest - 1
  {
    assert [notice][..0] == [];
  }

  lemma RecordedLater(h: History, n: nat, s: int)
    requires Grows(h) && Recorded(h, s) && !Printed(h.log(n), s)
    ensures forall k :: 0 <= k < |h.log(n)| ==> h.log(n)[k].seqNo < s
  {
    var m: nat :| Printed(h.log(m), s);
    var j :| 0 <= j < |h.log(m)| && h.log(m)[j].seqNo == s;
    assert h.log(m) <= h.log(n) || h.log(n) <= h.log(m);
    assert IsLog(h.log(m));
  }

  lemma RetainedIff(log: seq<Event>, oldest: int, s: int)
    requires IsLog(log)
    ensures IsLog(Retained(log, oldest))
    ensures Printed(Retained(log, oldest), s) <==> Printed(log, s) && s >= oldest
  {
    var i := SinceIsSuffix(log, oldest - 1);
    var kept := log[i..];
    if k :| 0 <= k < |kept| && kept[k].seqNo == s {
      assert log[i + k].seqNo == s && (k == 0 || log[i].seqNo < log[i + k].seqNo);
    }
    if j :| 0 <= j < |log| && log[j].seqNo == s && s >= oldest {
      assert kept[j - i].seqNo == s;
    }
  }

  /** What is retained when a connection is made covers what it can be asked for:
    * only what is recorded later matches besides. */
  lemma RetainedCovers(h: History, n: nat)
    requires Grows(h)
    ensures var kept := Kept(h, n); IsLog(kept) && Covers(kept, Standing(h)(n))
  {
    hide Retained, Grows;
    var all, kept := h.log(n), Kept(h, n);
    assert IsLog(all) by {
      OneLog(h, n);
    }
    RetainedIff(all, h.oldest(n), 0);
    forall k | 0 <= k < |kept| ensures Standing(h)(n)(kept[k].seqNo) && Printed(all, kept[k].seqNo) {
      RetainedIff(all, h.oldest(n), kept[k].seqNo);
    }
    forall s, k | Standing(h)(n)(s) && !Printed(kept, s) && 0 <= k < |kept| ensures kept[k].seqNo < s {
      RetainedIff(all, h.oldest(n), s);
      RecordedLater(h, n, s);
      assert Printed(all, kept[k].seqNo);
    }
  }

  lemma OneLog(h: History, n: nat)
    requires Grows(h)
    ensures IsLog(h.log(n))
  {
  }

  /** So such a server is one the tail may rely on, at every resume point. */
  lemma LogServerIsHonest(
      serve: (nat, int) -> Connection, w: Writer, codec: Codec, h: History, detail: string)
    requires Grows(h) && ServesLog(serve, w, codec, h, detail)
    ensures HonestServer(serve, codec, Standing(h))
  {
    hide Retained, Readable, RenderAll, Messages, HonestFrom, StreamOf, BlocksOf, Grows, Covers, IsLog;
    forall n, after | serve(n, after).Body?
      ensures HonestFrom(Standing(h)(n), after, Messages(codec, serve(n, after).bytes, serve(n, after).ending).0)
    {
      var kept := Kept(h, n);
      var all := StreamOf(kept, h.Told(n), detail, after);
      assert ServedFromLog(serve(n, after), w, codec, all);
      var sent, cut: nat :| CutFrom(serve(n, after), w, codec, all, sent, cut);
      var k: nat :| k <= |all| && MessagesOf(sent) == all[..k];
      RetainedCovers(h, n);
      StreamIsHonest(kept, h.Told(n), detail, Standing(h)(n), after);
      HonestPrefix(Standing(h)(n), after, all, k);
      CutStreamIsHonest(w, codec, Standing(h)(n), after, sent, cut, serve(n, after).ending);
    }
  }

  /** An event past the start is printed once the resume point has passed it, unless
    * it was pruned before the connection that would have sent it. */
  lemma PiecedIsAllButLost(printed: seq<Event>, h: History, points: seq<int>, s: int)
    requires Grows(h) && Pieced(printed, Standing(h), points)
    ensures Printed(printed, s) <==>
              points[0] < s <= points[|points| - 1] && Recorded(h, s) && !Lost(h, points, s)
  {
    var matches := Standing(h);
    if n: nat :| PassedAt(matches, points, n, s) {
      forall m: nat | m + 1 < |points| && points[m] < s ensures s >= h.oldest(m) {
        assert m <= n;
      }
    }
    if points[0] < s <= points[|points| - 1] && Recorded(h, s) && !Lost(h, points, s) {
      var n := PassedSomewhere(points, s);
      assert s >= h.oldest(n);
      assert PassedAt(matches, points, n, s);
    }
  }

  /** From the bytes a server writes to the events a tail prints: across any number
    * of reconnects and cuts, while the log grows and is pruned, exactly the matching
    * events past the start and up to where it would resume, in order, but those
    * pruned before they could be sent. */
  method TailOfLog(
      serve: (nat, int) -> Connection, codec: Codec, start: int, limit: int, reconnect: bool, connections: nat,
      ghost w: Writer, ghost h: History, ghost detail: string)
    returns (printed: seq<Event>, after: int, end: TailEnd, ghost t: Trail)
    requires Grows(h) && ServesLog(serve, w, codec, h, detail)
    ensures Follows(serve, codec, t, reconnect) && |t.taken| <= connections && printed == AllEvents(t.taken)
    ensures EndsAs(serve, codec, t, limit, reconnect, connections, printed, end)
    ensures t.points[0] == start && t.points[|t.points| - 1] == after
    ensures forall i, j :: 0 <= i < j < |printed| ==> printed[i].seqNo < printed[j].seqNo
    ensures forall s :: Printed(printed, s) <==> start < s <= after && Recorded(h, s) && !Lost(h, t.points, s)
  {
    hide HonestServer, Grows, Printed, Recorded, Lost, Took, WentOn, EndsAs, AllEvents;
    LogServerIsHonest(serve, w, codec, h, detail);
    printed, after, end, t := TailEvents(serve, codec, start, limit, reconnect, connections, Standing(h));
    forall s ensures Printed(printed, s) <==> start < s <= after && Recorded(h, s) && !Lost(h, t.points, s) {
      PiecedIsAllButLost(printed, h, t.points, s);
    }
  }
}
