/** Following the event stream across reconnects: what is printed, and from where
  * the next connection resumes.
  */
module EventTail {
  import opened Options
  import opened Sse

  const GAP_TYPE := "heyarr.stream.gap"

  datatype Event = Event(seqNo: int, kind: string, payload: string)
  datatype Gap = Gap(resumeAfter: int, dropped: int, detail: string)
  datatype Message = EventMsg(event: Event) | GapMsg(gap: Gap)

  /** Reading the JSON of a frame; None is what it cannot read. */
  datatype Codec = Codec(event: string -> Option<Event>, gap: string -> Option<Gap>)

  datatype Ending = Stopped(why: Failure) | Undecodable | Enough

  // ---------------------------------------------------------------------
  // One connection
  // ---------------------------------------------------------------------

  function Decode(codec: Codec, frame: Frame): Option<Message> {
    if frame.name == GAP_TYPE then
      match codec.gap(frame.data)
      case None => None
      case Some(g) => Some(GapMsg(g))
    else
      match codec.event(frame.data)
      case None => None
      case Some(e) => Some(EventMsg(e))
  }

  /** The messages a connection carries, up to the one that cannot be read or the
    * end of it. */
  function Messages(codec: Codec, s: string, ending: Failure): (seq<Message>, Ending)
    decreases |s|
  {
    match RecvFrom(s, FRESH, ending)
    case Failed(why) => ([], Stopped(why))
    case Got(frame, rest) =>
      match Decode(codec, frame)
      case None => ([], Undecodable)
      case Some(m) =>
        var (ms, end) := Messages(codec, rest, ending);
        ([m] + ms, end)
  }

  function Max(a: int, b: int): int {
    if a < b then b else a
  }

  function SeqOf(m: Message): int {
    match m
    case EventMsg(e) => e.seqNo
    case GapMsg(g) => g.resumeAfter
  }

  class EventStream {
    const codec: Codec
    const ending: Failure
    var rest: string
    var lastSeq: int

    constructor (codec: Codec, body: string, ending: Failure, after: int)
      ensures this.codec == codec && this.ending == ending && rest == body && lastSeq == after
    {
      this.codec, this.ending, rest, lastSeq := codec, ending, body, after;
    }

    /** The next message, or how the stream ended. */
    method Recv() returns (m: Option<Message>, end: Ending)
      modifies this
      ensures m.Some? ==>
                && |rest| < |old(rest)| && lastSeq == Max(old(lastSeq), SeqOf(m.value))
                && Messages(codec, old(rest), ending).0 == [m.value] + Messages(codec, rest, ending).0
                && Messages(codec, old(rest), ending).1 == Messages(codec, rest, ending).1
      ensures m == None ==> lastSeq == old(lastSeq) && Messages(codec, old(rest), ending) == ([], end)
    {
      hide RecvFrom;
      var r := Sse.Recv(rest, ending);
      if r.Failed? {
        return None, Stopped(r.why);
      }
      end := Undecodable;
      m := Decode(codec, r.frame);
      if m.Some? {
        rest := r.rest;
        if SeqOf(m.value) > lastSeq {
          lastSeq := SeqOf(m.value);
        }
      }
    }
  }

  // ---------------------------------------------------------------------
  // What was printed, against what there was
  // ---------------------------------------------------------------------

  function EventsOf(ms: seq<Message>): seq<Event> {
    if ms == [] then []
    else
      var n := |ms| - 1;
      EventsOf(ms[..n]) + if ms[n].EventMsg? then [ms[n].event] else []
  }

  /** The resume point after these messages. */
  function LastOf(after: int, ms: seq<Message>): int {
    if ms == [] then after else Max(LastOf(after, ms[..|ms| - 1]), SeqOf(ms[|ms| - 1]))
  }

  ghost predicate Printed(events: seq<Event>, s: int) {
    exists i :: 0 <= i < |events| && events[i].seqNo == s
  }

  /** Exactly the matching events past `start` and up to `last`, in order, each
    * once: no hole and no repeat. */
  ghost predicate Exactly(events: seq<Event>, matches: int -> bool, start: int, last: int) {
    && start <= last
    && (forall i, j :: 0 <= i < j < |events| ==> events[i].seqNo < events[j].seqNo)
    && forall s :: Printed(events, s) <==> start < s <= last && matches(s)
  }

  ghost predicate NoneBetween(matches: int -> bool, lo: int, hi: int) {
    forall s :: lo < s < hi ==> !matches(s)
  }

  /** The next message an honest server may send: the next matching event, or a
    * gap notice naming no point past a matching event it has not sent. */
  ghost predicate HonestStep(matches: int -> bool, last: int, m: Message) {
    match m
    case EventMsg(e) => last < e.seqNo && matches(e.seqNo) && NoneBetween(matches, last, e.seqNo)
    case GapMsg(g) => NoneBetween(matches, last, g.resumeAfter + 1)
  }

  ghost predicate HonestFrom(matches: int -> bool, after: int, ms: seq<Message>) {
    if ms == [] then true
    else
      var n := |ms| - 1;
      HonestFrom(matches, after, ms[..n]) && HonestStep(matches, LastOf(after, ms[..n]), ms[n])
  }

  lemma PrintedMore(events: seq<Event>, e: Event, s: int)
    ensures Printed(events + [e], s) <==> Printed(events, s) || s == e.seqNo
  {
    var more := events + [e];
    assert more[|events|] == e;
    if Printed(events, s) {
      var i :| 0 <= i < |events| && events[i].seqNo == s;
      assert more[i].seqNo == s;
    }
  }

  lemma HonestEvent(events: seq<Event>, matches: int -> bool, start: int, last: int, e: Event)
    requires Exactly(events, matches, start, last) && HonestStep(matches, last, EventMsg(e))
    ensures Exactly(events + [e], matches, start, Max(last, e.seqNo))
  {
    forall s ensures Printed(events + [e], s) <==> Printed(events, s) || s == e.seqNo {
      PrintedMore(events, e, s);
    }
    forall i | 0 <= i < |events| ensures events[i].seqNo < e.seqNo {
      assert Printed(events, events[i].seqNo);
    }
  }

  lemma ExactEventIsHonest(events: seq<Event>, matches: int -> bool, start: int, last: int, e: Event)
    requires Exactly(events, matches, start, last) && Exactly(events + [e], matches, start, Max(last, e.seqNo))
    ensures HonestStep(matches, last, EventMsg(e))
  {
    var more := events + [e];
    forall i | 0 <= i < |events| ensures events[i].seqNo < e.seqNo {
      assert more[i].seqNo < more[|events|].seqNo;
    }
    PrintedMore(events, e, e.seqNo);
    forall s ensures Printed(more, s) <==> Printed(events, s) || s == e.seqNo {
      PrintedMore(events, e, s);
    }
  }

  lemma EventStep(events: seq<Event>, matches: int -> bool, start: int, last: int, e: Event)
    requires Exactly(events, matches, start, last)
    ensures Exactly(events + [e], matches, start, Max(last, e.seqNo)) <==> HonestStep(matches, last, EventMsg(e))
  {
    hide Exactly, HonestStep;
    if Exactly(events + [e], matches, start, Max(last, e.seqNo)) {
      ExactEventIsHonest(events, matches, start, last, e);
    } else if HonestStep(matches, last, EventMsg(e)) {
      HonestEvent(events, matches, start, last, e);
    }
  }

  lemma GapStep(events: seq<Event>, matches: int -> bool, start: int, last: int, g: Gap)
    requires Exactly(events, matches, start, last)
    ensures Exactly(events, matches, start, Max(last, g.resumeAfter)) <==> HonestStep(matches, last, GapMsg(g))
  {
  }

  /** At every moment of a connection what was printed is exact, if and only if
    * the server is honest throughout. */
  lemma {:induction false} ExactAtAllTimesIff(matches: int -> bool, after: int, ms: seq<Message>)
    ensures (forall k :: 0 <= k <= |ms| ==> Exactly(EventsOf(ms[..k]), matches, after, LastOf(after, ms[..k])))
            <==> HonestFrom(matches, after, ms)
    decreases |ms|
  {
    if ms == [] {
      assert ms[..0] == [];
    } else {
      var n := |ms| - 1;
      var front := ms[..n];
      ExactAtAllTimesIff(matches, after, front);
      assert forall k :: 0 <= k <= n ==> front[..k] == ms[..k];
      assert ms[..|ms|] == ms;
      if Exactly(EventsOf(front), matches, after, LastOf(after, front)) {
        LastStep(matches, after, ms);
      }
      assert front[..n] == front;
    }
  }

  lemma LastStep(matches: int -> bool, after: int, ms: seq<Message>)
    requires ms != []
    requires Exactly(EventsOf(ms[..|ms| - 1]), matches, after, LastOf(after, ms[..|ms| - 1]))
    ensures Exactly(EventsOf(ms), matches, after, LastOf(after, ms))
            <==> HonestStep(matches, LastOf(after, ms[..|ms| - 1]), ms[|ms| - 1])
  {
    hide Exactly, HonestStep;
    var n := |ms| - 1;
    var events, last := EventsOf(ms[..n]), LastOf(after, ms[..n]);
    match ms[n]
    case EventMsg(e) => EventStep(events, matches, after, last, e);
    case GapMsg(g) =>
      GapStep(events, matches, after, last, g);
      assert events + [] == events;
  }

  /** The same over connections, each from where the one before left off, and each
    * with its own matching events: `points` are the resume points. */
  ghost predicate Pieced(events: seq<Event>, matches: nat -> int -> bool, points: seq<int>) {
    && points != []
    && (forall i, j :: 0 <= i < j < |events| ==> events[i].seqNo < events[j].seqNo)
    && (forall i, j :: 0 <= i <= j < |points| ==> points[i] <= points[j])
    && forall s :: Printed(events, s) <==> exists n :: PassedAt(matches, points, n, s)
  }

  /** Connection `n` moved the resume point past `s`, one of its matching events. */
  ghost predicate PassedAt(matches: nat -> int -> bool, points: seq<int>, n: nat, s: int) {
    n + 1 < |points| && points[n] < s <= points[n + 1] && matches(n)(s)
  }

  lemma PrintedJoined(a: seq<Event>, b: seq<Event>, s: int)
    ensures Printed(a + b, s) <==> Printed(a, s) || Printed(b, s)
  {
    var all := a + b;
    if Printed(a, s) {
      var i :| 0 <= i < |a| && a[i].seqNo == s;
      assert all[i].seqNo == s;
    }
    if Printed(b, s) {
      var i :| 0 <= i < |b| && b[i].seqNo == s;
      assert all[|a| + i].seqNo == s;
    }
  }

  lemma PrintedWithin(events: seq<Event>, matches: nat -> int -> bool, points: seq<int>, i: nat)
    requires Pieced(events, matches, points) && i < |events|
    ensures events[i].seqNo <= points[|points| - 1]
  {
    assert Printed(events, events[i].seqNo);
    var n :| PassedAt(matches, points, n, events[i].seqNo);
  }

  /** A connection that resumes where the last one left off continues it. */
  lemma Resumed(a: seq<Event>, b: seq<Event>, matches: nat -> int -> bool, points: seq<int>, last: int)
    requires Pieced(a, matches, points)
    requires Exactly(b, matches(|points| - 1), points[|points| - 1], last)
    ensures Pieced(a + b, matches, points + [last])
  {
    var mid, more, n := points[|points| - 1], points + [last], |points| - 1;
    forall i | 0 <= i < |a| ensures a[i].seqNo <= mid {
      PrintedWithin(a, matches, points, i);
    }
    forall i | 0 <= i < |b| ensures b[i].seqNo > mid {
      assert Printed(b, b[i].seqNo);
    }
    forall s ensures Printed(a + b, s) <==> exists m :: PassedAt(matches, more, m, s) {
      PrintedJoined(a, b, s);
      PassedMore(matches, points, last, s);
    }
  }

  lemma PassedMore(matches: nat -> int -> bool, points: seq<int>, last: int, s: int)
    requires points != []
    ensures (exists m :: PassedAt(matches, points + [last], m, s)) <==>
              (exists m :: PassedAt(matches, points, m, s)) ||
              (points[|points| - 1] < s <= last && matches(|points| - 1)(s))
  {
    var more, n := points + [last], |points| - 1;
    assert more[n] == points[n] && more[n + 1] == last;
    if m: nat :| PassedAt(matches, points, m, s) {
      assert PassedAt(matches, more, m, s);
    }
    if points[n] < s <= last && matches(n)(s) {
      assert PassedAt(matches, more, n, s);
    }
    if m: nat :| PassedAt(matches, more, m, s) {
      assert m == n || PassedAt(matches, points, m, s);
    }
  }

  /** Where every connection has the same matching events, the pieces are one: those
    * between the first resume point and the last. */
  lemma PiecedIsExactly(events: seq<Event>, matches: nat -> int -> bool, points: seq<int>, every: int -> bool)
    requires Pieced(events, matches, points) && forall n :: matches(n) == every
    ensures Exactly(events, every, points[0], points[|points| - 1])
  {
    forall s | points[0] < s <= points[|points| - 1] && every(s) ensures Printed(events, s) {
      var n := PassedSomewhere(points, s);
      assert PassedAt(matches, points, n, s);
    }
    forall s | Printed(events, s) ensures points[0] < s <= points[|points| - 1] && every(s) {
      var n :| PassedAt(matches, points, n, s);
    }
  }

  lemma {:induction false} PassedSomewhere(points: seq<int>, s: int) returns (n: nat)
    requires points != [] && points[0] < s <= points[|points| - 1]
    ensures n + 1 < |points| && points[n] < s <= points[n + 1]
  {
    n := |points| - 2;
    if s <= points[n] {
      n := PassedSomewhere(points[..n + 1], s);
    }
  }

  // ---------------------------------------------------------------------
  // The tail
  // ---------------------------------------------------------------------

  /** How following ends: cancelled, or as one connection made it. */
  datatype TailEnd = Cancelled | ConnectFailed | LimitReached | StreamClosed | StreamFailed(why: Ending)

  datatype Connection = NoAnswer | Body(bytes: string, ending: Failure)

  /** Whatever it has sent before it is cut, a connection is honest from its
    * resume point, towards the events that match when it is made. */
  ghost predicate HonestServer(serve: (nat, int) -> Connection, codec: Codec, matches: nat -> int -> bool) {
    forall n, after :: serve(n, after).Body? ==>
      HonestFrom(matches(n), after, Messages(codec, serve(n, after).bytes, serve(n, after).ending).0)
  }

  /** What a connection carries, and how it ends. */
  function Carried(codec: Codec, c: Connection): (seq<Message>, Ending)
    requires c.Body?
  {
    Messages(codec, c.bytes, c.ending)
  }

  /** What the connections gave a tail: for each, where it was asked to resume, and
    * the messages taken of it, first to last. */
  datatype Trail = Trail(points: seq<int>, taken: seq<seq<Message>>)

  function AllEvents(taken: seq<seq<Message>>): seq<Event> {
    if taken == [] then [] else AllEvents(taken[..|taken| - 1]) + EventsOf(taken[|taken| - 1])
  }

  /** Connection `n` was asked to resume at `points[n]`; what was taken is the front of
    * what it carried, and moved the resume point to `points[n + 1]`. */
  ghost predicate Took(serve: (nat, int) -> Connection, codec: Codec, t: Trail, n: nat)
    requires n < |t.taken| && |t.points| == |t.taken| + 1
  {
    var c := serve(n, t.points[n]);
    c.Body? && t.taken[n] <= Carried(codec, c).0 && t.points[n + 1] == LastOf(t.points[n], t.taken[n])
  }

  /** Connection `n` was read to its end. */
  ghost predicate Whole(serve: (nat, int) -> Connection, codec: Codec, t: Trail, n: nat)
    requires n < |t.taken| && |t.points| == |t.taken| + 1
  {
    var c := serve(n, t.points[n]);
    c.Body? && t.taken[n] == Carried(codec, c).0
  }

  /** And that end was an ordinary one. */
  ghost predicate WentOn(serve: (nat, int) -> Connection, codec: Codec, t: Trail, n: nat)
    requires n < |t.taken| && |t.points| == |t.taken| + 1
  {
    Whole(serve, codec, t, n) &&
    Carried(codec, serve(n, t.points[n])).1 in {Stopped(Eof), Stopped(UnexpectedEof)}
  }

  /** The connections follow each other, each but the last read to an ordinary end. */
  ghost predicate Follows(serve: (nat, int) -> Connection, codec: Codec, t: Trail, reconnect: bool) {
    && |t.points| == |t.taken| + 1
    && (forall n :: 0 <= n < |t.taken| ==> Took(serve, codec, t, n))
    && (forall n :: 0 <= n < |t.taken| - 1 ==> WentOn(serve, codec, t, n))
    && (|t.taken| > 1 ==> reconnect)
  }

  /** So does the last, and the tail is to go on. */
  ghost predicate AskedForMore(serve: (nat, int) -> Connection, codec: Codec, t: Trail, reconnect: bool)
    requires |t.points| == |t.taken| + 1
  {
    (forall n :: 0 <= n < |t.taken| ==> WentOn(serve, codec, t, n)) && (t.taken != [] ==> reconnect)
  }

  ghost predicate Reached(limit: int, printed: seq<Event>) {
    limit > 0 && |printed| >= limit
  }

  /** Why a tail ends, each exactly when: `n` is the last connection. */
  ghost predicate EndsAs(
      serve: (nat, int) -> Connection, codec: Codec, t: Trail, limit: int, reconnect: bool, connections: nat,
      printed: seq<Event>, end: TailEnd)
    requires |t.points| == |t.taken| + 1
  {
    var n := |t.taken| - 1;
    && (end == LimitReached <==> limit > 0 && |printed| >= limit)
    && (end == Cancelled <==>
          !Reached(limit, printed) && AskedForMore(serve, codec, t, reconnect) && |t.taken| == connections)
    && (end == ConnectFailed <==>
          && !Reached(limit, printed) && AskedForMore(serve, codec, t, reconnect) && |t.taken| < connections
          && serve(n + 1, t.points[n + 1]) == NoAnswer)
    && (end == StreamClosed <==>
          !Reached(limit, printed) && t.taken != [] && WentOn(serve, codec, t, n) && !reconnect)
    && (forall why :: end == StreamFailed(why) <==>
          && !Reached(limit, printed) && t.taken != [] && Whole(serve, codec, t, n)
          && Carried(codec, serve(n, t.points[n])).1 == why
          && why !in {Stopped(Eof), Stopped(UnexpectedEof)})
  }

  lemma OneMoreTaken(
      serve: (nat, int) -> Connection, codec: Codec, t: Trail, reconnect: bool, more: seq<Message>, last: int)
    requires Follows(serve, codec, t, reconnect) && AskedForMore(serve, codec, t, reconnect)
    requires var c := serve(|t.taken|, t.points[|t.taken|]);
             c.Body? && more <= Carried(codec, c).0 && last == LastOf(t.points[|t.taken|], more)
    ensures var t' := Trail(t.points + [last], t.taken + [more]);
            && Follows(serve, codec, t', reconnect) && AllEvents(t'.taken) == AllEvents(t.taken) + EventsOf(more)
  {
    hide LastOf, EventsOf;
    var t' := Trail(t.points + [last], t.taken + [more]);
    assert t'.taken[..|t'.taken| - 1] == t.taken;
    forall n | 0 <= n < |t'.taken| ensures Took(serve, codec, t', n) {
      if n < |t.taken| {
        assert Took(serve, codec, t, n);
      }
    }
    forall n | 0 <= n < |t.taken| ensures WentOn(serve, codec, t', n) {
      assert WentOn(serve, codec, t, n);
    }
  }

  /** Prints until the stream stops, or the limit is reached, which only an event can
    * do. */
  method Pump(stream: EventStream, limit: int, already: nat)
    returns (out: seq<Event>, end: Ending, ghost taken: seq<Message>)
    requires limit > 0 ==> already < limit
    modifies stream
    ensures var (ms, stop) := old(Messages(stream.codec, stream.rest, stream.ending));
            && taken <= ms && out == EventsOf(taken) && stream.lastSeq == LastOf(old(stream.lastSeq), taken)
            && if end == Enough
               then limit > 0 && already + |out| == limit && taken != [] && taken[|taken| - 1].EventMsg?
               else taken == ms && end == stop
    ensures limit > 0 ==> already + |out| <= limit && (already + |out| < limit || end == Enough)
  {
    hide RecvFrom, Decode;
    out := [];
    ghost var ms := Messages(stream.codec, stream.rest, stream.ending).0;
    ghost var stop := Messages(stream.codec, stream.rest, stream.ending).1;
    NeverEnough(stream.codec, stream.rest, stream.ending);
    ghost var k: nat := 0;
    ghost var after := stream.lastSeq;
    assert ms[0..] == ms;
    taken := [];
    while true
      invariant k <= |ms| && taken == ms[..k] && out == EventsOf(taken) && stream.lastSeq == LastOf(after, taken)
      invariant Messages(stream.codec, stream.rest, stream.ending).0 == ms[k..]
      invariant Messages(stream.codec, stream.rest, stream.ending).1 == stop
      invariant limit > 0 ==> already + |out| < limit
      decreases |stream.rest|
    {
      hide Messages;
      var m;
      m, end := stream.Recv();
      if m == None {
        assert taken == ms;
        return;
      }
      assert ms[k] == m.value && ms[k..][1..] == ms[k + 1..];
      assert ms[..k + 1][..k] == ms[..k];
      k := k + 1;
      taken := ms[..k];
      if m.value.EventMsg? {
        out := out + [m.value.event];
        if limit > 0 && already + |out| >= limit {
          end := Enough;
          return;
        }
      }
    }
  }

  lemma {:induction false} NeverEnough(codec: Codec, s: string, ending: Failure)
    ensures Messages(codec, s, ending).1 != Enough
    decreases |s|
  {
    hide RecvFrom, Decode;
    var r := RecvFrom(s, FRESH, ending);
    if r.Got? {
      NeverEnough(codec, r.rest, ending);
    }
  }

  /** Follows the stream over any number of connections. Each is read to its end, which
    * says whether there is another, unless the limit stops it. At the end, which may
    * come at any moment, what was printed is the events of what was read, and in order
    * exactly those that matched when a connection moved the resume point past them. */
  method TailEvents(
      serve: (nat, int) -> Connection, codec: Codec, start: int, limit: int, reconnect: bool, connections: nat,
      ghost matches: nat -> int -> bool)
    returns (printed: seq<Event>, after: int, end: TailEnd, ghost t: Trail)
    requires HonestServer(serve, codec, matches)
    ensures Follows(serve, codec, t, reconnect) && |t.taken| <= connections && printed == AllEvents(t.taken)
    ensures EndsAs(serve, codec, t, limit, reconnect, connections, printed, end)
    ensures limit > 0 ==> |printed| <= limit
    ensures Pieced(printed, matches, t.points) && t.points[0] == start && t.points[|t.points| - 1] == after
  {
    hide Pieced, Exactly, HonestFrom, Follows, AllEvents, AskedForMore, EndsAs, WentOn, Whole;
    printed, after, end, t := [], start, Cancelled, Trail([start], []);
    NothingYet(serve, codec, matches, start, reconnect);
    for n := 0 to connections
      invariant |t.points| == n + 1 && |t.taken| == n
      invariant Pieced(printed, matches, t.points) && t.points[0] == start && t.points[n] == after
      invariant Follows(serve, codec, t, reconnect) && AskedForMore(serve, codec, t, reconnect)
      invariant printed == AllEvents(t.taken) && (limit > 0 ==> |printed| < limit)
    {
      var answer := serve(n, after);
      if answer == NoAnswer {
        end := ConnectFailed;
        Unanswered(serve, codec, t, limit, reconnect, connections, printed);
        return;
      }
      var stream := new EventStream(codec, answer.bytes, answer.ending, after);
      ghost var ms := Messages(codec, answer.bytes, answer.ending).0;
      ghost var more;
      var out, stop;
      out, stop, more := Pump(stream, limit, |printed|);
      ExactAtAllTimesIff(matches(n), after, ms);
      assert more == ms[..|more|];
      Resumed(printed, out, matches, t.points, stream.lastSeq);
      OneMoreTaken(serve, codec, t, reconnect, more, stream.lastSeq);
      ghost var was := t;
      t := Trail(t.points + [stream.lastSeq], t.taken + [more]);
      printed := printed + out;
      after := stream.lastSeq;
      if stop == Enough {
        end := LimitReached;
        Ended(serve, codec, was, t, limit, reconnect, connections, printed, end, stop);
        return;
      }
      if stop !in {Stopped(Eof), Stopped(UnexpectedEof)} {
        end := StreamFailed(stop);
        Ended(serve, codec, was, t, limit, reconnect, connections, printed, end, stop);
        return;
      }
      if !reconnect {
        end := StreamClosed;
        Ended(serve, codec, was, t, limit, reconnect, connections, printed, end, stop);
        return;
      }
      WentOnAgain(serve, codec, was, t, reconnect);
    }
    end := Cancelled;
    OutOfConnections(serve, codec, t, limit, reconnect, connections, printed);
  }

  lemma NothingYet(
      serve: (nat, int) -> Connection, codec: Codec, matches: nat -> int -> bool, start: int, reconnect: bool)
    ensures Pieced([], matches, [start])
    ensures var t := Trail([start], []);
            Follows(serve, codec, t, reconnect) && AskedForMore(serve, codec, t, reconnect) && AllEvents(t.taken) == []
  {
  }

  lemma Unanswered(
      serve: (nat, int) -> Connection, codec: Codec, t: Trail, limit: int, reconnect: bool, connections: nat,
      printed: seq<Event>)
    requires |t.points| == |t.taken| + 1 && |t.taken| < connections
    requires AskedForMore(serve, codec, t, reconnect) && !Reached(limit, printed)
    requires serve(|t.taken|, t.points[|t.taken|]) == NoAnswer
    ensures EndsAs(serve, codec, t, limit, reconnect, connections, printed, ConnectFailed)
  {
    WholeAsEnded(serve, codec, t, reconnect);
  }

  lemma OutOfConnections(
      serve: (nat, int) -> Connection, codec: Codec, t: Trail, limit: int, reconnect: bool, connections: nat,
      printed: seq<Event>)
    requires |t.points| == |t.taken| + 1 && |t.taken| == connections
    requires AskedForMore(serve, codec, t, reconnect) && !Reached(limit, printed)
    ensures EndsAs(serve, codec, t, limit, reconnect, connections, printed, Cancelled)
  {
    WholeAsEnded(serve, codec, t, reconnect);
  }

  lemma WholeAsEnded(serve: (nat, int) -> Connection, codec: Codec, t: Trail, reconnect: bool)
    requires |t.points| == |t.taken| + 1 && AskedForMore(serve, codec, t, reconnect)
    ensures t.taken != [] ==> reconnect && WentOn(serve, codec, t, |t.taken| - 1)
  {
  }

  /** The last connection, and what it came to. */
  lemma Ended(
      serve: (nat, int) -> Connection, codec: Codec, was: Trail, t: Trail, limit: int, reconnect: bool,
      connections: nat, printed: seq<Event>, end: TailEnd, stop: Ending)
    requires |t.points| == |t.taken| + 1 && |was.taken| + 1 == |t.taken| && |was.taken| < connections
    requires var c := serve(|was.taken|, t.points[|was.taken|]);
             c.Body? && (stop != Enough ==> t.taken[|was.taken|] == Carried(codec, c).0 && stop == Carried(codec, c).1)
    requires stop == Enough <==> Reached(limit, printed)
    requires end == if stop == Enough then LimitReached
                    else if stop !in {Stopped(Eof), Stopped(UnexpectedEof)} then StreamFailed(stop)
                    else StreamClosed
    requires stop in {Stopped(Eof), Stopped(UnexpectedEof)} ==> !reconnect
    ensures EndsAs(serve, codec, t, limit, reconnect, connections, printed, end)
  {
    hide Carried;
    var n := |was.taken|;
    assert AskedForMore(serve, codec, t, reconnect) ==> WentOn(serve, codec, t, n) && reconnect;
    assert n == |t.taken| - 1;
  }

  lemma WentOnAgain(serve: (nat, int) -> Connection, codec: Codec, was: Trail, t: Trail, reconnect: bool)
    requires |t.points| == |t.taken| + 1 && |was.taken| + 1 == |t.taken| && |was.points| == |was.taken| + 1
    requires was.points == t.points[..|t.taken|] && was.taken == t.taken[..|was.taken|]
    requires AskedForMore(serve, codec, was, reconnect) && reconnect
    requires WentOn(serve, codec, t, |was.taken|)
    ensures AskedForMore(serve, codec, t, reconnect)
  {
    forall n | 0 <= n < |was.taken| ensures WentOn(serve, codec, t, n) {
      assert WentOn(serve, codec, was, n);
    }
  }
}
