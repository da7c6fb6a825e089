/** A space with two recipients, one of which is revoked: runs of it in which a
  * promise of the source fails.
  */
module RotationExamples {
  import opened Options
  import opened StringOrder
  import opened SpaceKeys
  import opened RotationRuns

  // ---------------------------------------------------------------------
  // The states of the runs
  // ---------------------------------------------------------------------

  /** The space as it is created, for "a" and "b", under key 1. */
  function Created(): State {
    State(
      Space(map[], map["a" := Copy(WrapOf(1, "a"), 0), "b" := Copy(WrapOf(1, "b"), 0)], []),
      map[], [1], {1}, [], {WrapOf(1, "a"), WrapOf(1, "b")}, {("a", 0), ("b", 0)})
  }

  /** A new device of `who` has opened the space at its current epoch. */
  function Opened(st: State, d: nat, who: Recipient): State
    requires st.keys != []
  {
    var e := |st.keys| - 1;
    st.(devices := st.devices[d := Device(who, Open(Ring(st.keys, e), e))])
  }

  /** The rotation from key 1 to key 2 that revokes "b". */
  function Rekeying(): Request {
    Request(0, LinkOf(2, 1), [RecipientWrap("a", WrapOf(2, "a"))], ["b"])
  }

  function Prepared0(st: State): State
    requires 0 in st.devices
  {
    With(st, 0, Pending([1], 0, Rekeying(), 2)).(minted := st.minted + {2})
  }

  /** Device 0 has made it. */
  function Rekeyed(st: State): State
    requires 0 in st.devices
  {
    With(st, 0, Ended(Landed(1))).(
      sp := AfterRotate(st.sp, Rekeying()), keys := st.keys + [2], minted := st.minted + {2},
      published := st.published + {LinkOf(2, 1)} + Wrapped(Rekeying()), given := st.given + GivenBy(Rekeying(), "a"))
  }

  /** A change sealed under the key of epoch `e` has been stored. */
  function Stored(st: State, e: nat, text: string, nonce: nat): State
    requires e < |st.keys|
  {
    st.(sp := AfterPutChange(st.sp, Sealed(st.keys[e], text, nonce)), sealed := st.sealed + [e])
  }

  // ---------------------------------------------------------------------
  // The steps between them
  // ---------------------------------------------------------------------

  /** These events lead from one state to another, through these. */
  ghost predicate IsPath(from: State, states: seq<State>, events: seq<Event>, to: State) {
    && |states| == |events| + 1 && states[0] == from && states[|events|] == to
    && forall i :: 0 <= i < |events| ==> Next(states[i], events[i], states[i + 1])
  }

  lemma StepPath(from: State, e: Event, to: State)
    requires Next(from, e, to)
    ensures IsPath(from, [from, to], [e], to)
  {
    hide Next;
  }

  lemma PathsJoin(a: State, s: seq<State>, e: seq<Event>, b: State, t: seq<State>, f: seq<Event>, c: State)
    returns (states: seq<State>, events: seq<Event>)
    requires IsPath(a, s, e, b) && IsPath(b, t, f, c)
    ensures IsPath(a, states, events, c) && |states| == |events| + 1
    ensures events == e + f && |s| == |e| + 1 && |t| == |f| + 1 && states == s + t[1..]
  {
    hide Next;
    states, events := s + t[1..], e + f;
    forall i | 0 <= i < |events| ensures Next(states[i], events[i], states[i + 1]) {
      if i < |e| {
        assert states[i] == s[i] && states[i + 1] == s[i + 1];
      } else {
        assert states[i] == t[i - |e|] && states[i + 1] == t[i + 1 - |e|];
      }
    }
  }

  lemma PathIsRun(states: seq<State>, events: seq<Event>, to: State)
    requires IsPath(Created(), states, events, to)
    ensures IsRun(states, events) && states[|events|] == to
  {
    hide Next, Initial, Inv;
    CreatedIsInitial();
  }

  lemma {:induction false} PathKeepsInv(from: State, states: seq<State>, events: seq<Event>, to: State)
    requires IsPath(from, states, events, to) && Inv(from)
    ensures Inv(to)
    decreases |events|
  {
    hide Inv, Next;
    if events != [] {
      var n := |events| - 1;
      PathKeepsInv(from, states[..n + 1], events[..n], states[n]);
      NextKeepsInv(states[n], events[n], to);
    }
  }

  lemma CreatedIsInitial()
    ensures Initial(Created()) && Inv(Created())
  {
    var st := Created();
    assert st.published == set r | r in st.sp.wraps :: WrapOf(st.keys[0], r);
    assert st.given == set r: Recipient | r in st.sp.wraps :: (r, 0);
    InitialInv(st);
  }

  /** A device opens the space: it joins, reads the keys and reads the history. */
  lemma Opens(st: State, d: nat, who: Recipient) returns (states: seq<State>, events: seq<Event>)
    requires Inv(st) && d !in st.devices && who in st.sp.wraps
    ensures st.keys != [] && IsPath(st, states, events, Opened(st, d, who))
    ensures events == [Join(d, who), ReadKeys(d), ReadHistory(d)]
    ensures forall i :: 0 <= i < |states| ==> states[i].sp == st.sp
  {
    var e := |st.keys| - 1;
    CopyIsCurrent(st, who);
    var joined := st.(devices := st.devices[d := Device(who, Idle)]);
    var keyed := With(joined, d, Keyed(st.sp.wraps[who], e));
    var opened' := With(keyed, d, Open(Ring(st.keys, e), e));
    RecipientOpens(st, who);
    states, events := [st, joined, keyed, opened'], [Join(d, who), ReadKeys(d), ReadHistory(d)];
    assert Next(joined, ReadKeys(d), keyed);
    assert Next(keyed, ReadHistory(d), opened');
    assert opened'.devices == st.devices[d := Device(who, Open(Ring(st.keys, e), e))];
  }

  lemma CopyIsCurrent(st: State, who: Recipient)
    requires Inv(st) && who in st.sp.wraps
    ensures |st.keys| > 0 && Epoch(st.sp.history) == |st.keys| - 1 && st.sp.wraps[who].epoch == |st.keys| - 1
  {
  }

  lemma Prepares(st: State)
    requires 0 in st.devices && st.devices[0] == Device("a", Open([1], 0))
    requires st.sp == Created().sp && st.keys == [1] && st.minted == {1}
    ensures Next(st, Prepare(0, {"b"}, true, Rekeying(), 2), Prepared0(st))
  {
    var q := Rekeying();
    var w := q.wraps[0];
    assert Recipients(q.wraps) == {"a"} by {
      assert w in q.wraps && w.recipient == "a";
    }
    assert Elements(q.revoke) == {"b"} by {
      assert "b" in q.revoke;
    }
    assert st.sp.wraps.Keys == {"a", "b"} && {"a", "b"} - {"b"} == {"a"};
    assert "a" in {"a", "b"} && "a" !in {"b"};
    assert Prepared(q, st.sp.wraps.Keys, {"b"}, [1], 0, 2);
  }

  lemma Lands0(st: State)
    requires 0 in st.devices && st.devices[0] == Device("a", Pending([1], 0, Rekeying(), 2))
    requires st.sp == Created().sp && st.keys == [1]
    ensures RotateRefused(st.sp, Rekeying(), {}, {}) == None
    ensures Next(st, Commit(0, {}, {}), Rekeyed(st).(minted := st.minted))
    ensures Rekeyed(st).sp.wraps.Keys == {"a"} && Rekeyed(st).sp.changes == []
  {
    var q := Rekeying();
    assert Epoch(st.sp.history) == 0;
    assert Holding(st.sp, 0) == {"a", "b"};
    assert q.wraps[1..] == [] && q.revoke[1..] == [];
    assert Recipients(q.wraps) == {"a"} by {
      assert q.wraps[0] in q.wraps && q.wraps[0].recipient == "a";
    }
    assert Elements(q.revoke) == {"b"} by {
      assert "b" in q.revoke;
    }
    assert RotateRefused(st.sp, q, {}, {}) == None;
    assert CopiesCurrent(st.sp);
    RotationIsExact(st.sp, q, {}, {});
    assert {"a", "b"} - {"b"} == {"a"};
  }

  /** Device 0 prepares the rotation and makes it. */
  lemma Rekeys(st: State) returns (states: seq<State>, events: seq<Event>)
    requires 0 in st.devices && st.devices[0] == Device("a", Open([1], 0))
    requires st.sp == Created().sp && st.keys == [1] && st.minted == {1}
    ensures IsPath(st, states, events, Rekeyed(st))
    ensures events == [Prepare(0, {"b"}, true, Rekeying(), 2), Commit(0, {}, {})]
    ensures Lands(Prepared0(st), 0, {}, {}, Rekeyed(st)) && states == [st, Prepared0(st), Rekeyed(st)]
    ensures Rekeyed(st).sp.wraps.Keys == {"a"} && Rekeyed(st).sp.changes == []
  {
    hide AfterRotate, Wrapped, GivenBy;
    Prepares(st);
    var pending := Prepared0(st);
    Lands0(pending);
    states, events := [st, pending, Rekeyed(st)], [Prepare(0, {"b"}, true, Rekeying(), 2), Commit(0, {}, {})];
    assert Rekeyed(pending).(minted := pending.minted) == Rekeyed(st);
  }

  /** An open device writes, naming the epoch it has open or none. */
  lemma Writes(st: State, d: nat, e: nat, text: string, nonce: nat)
    requires d in st.devices && e < |st.keys| && st.sp.changes == []
    requires var at := st.devices[d].at; at.Open? && at.epoch == e && at.ring != [] && at.ring[0] == st.keys[e]
    ensures Next(st, WriteAnyway(d, text, nonce), Stored(st, e, text, nonce))
    ensures e == Epoch(st.sp.history) ==> Next(st, Write(d, text, nonce), Stored(st, e, text, nonce))
    ensures Stored(st, e, text, nonce).sp.changes == [Sealed(st.keys[e], text, nonce)]
  {
  }

  // ---------------------------------------------------------------------
  // A change stored without naming its epoch
  // ---------------------------------------------------------------------

  /** The space once "b" has been revoked, and a device that had it open before then
    * has stored a change without naming its epoch. */
  function WrittenAnyway(nonce: nat): State {
    var before := Opened(Opened(Created(), 0, "a"), 1, "a");
    Stored(Rekeyed(before), 0, "x", nonce)
  }

  /** "b" reads it: the change was stored after the revocation, "b" was never let back
    * in, and it works out the key from the copy it was given. */
  lemma RevokedReadsUnconditional(nonce: nat) returns (states: seq<State>, events: seq<Event>)
    ensures IsRun(states, events) && |events| == 9 && states[9] == WrittenAnyway(nonce)
    ensures LandsAt(states, events, 7) && KeptOut(states, "b", 8, 9)
    ensures var d := events[7].d;
            "b" in Elements(states[7].devices[d].at.request.revoke) && states[7].devices[d].who != "b"
    ensures events[8] == WriteAnyway(1, "x", nonce) && states[8].sp.changes == [] && |states[9].sp.changes| == 1
    ensures Derives(states[9].published, "b", [1])
    ensures states[9].sp.changes[0].Sealed? && states[9].sp.changes[0].key == 1
  {
    hide Inv, Next, Lands, IsPath, Rekeyed, Prepared0, Stored;
    var s, e, second := RekeysWithTwo();
    var third := Rekeyed(second);
    AnyoneWrites(second, nonce);
    StepPath(third, WriteAnyway(1, "x", nonce), WrittenAnyway(nonce));
    states, events := PathsJoin(
      Created(), s, e, third, [third, WrittenAnyway(nonce)], [WriteAnyway(1, "x", nonce)], WrittenAnyway(nonce));
    PathIsRun(states, events, WrittenAnyway(nonce));
    assert states[7] == s[7] && states[8] == s[8] && events[7] == e[7];
    Revokes(second);
    GivenToB(nonce);
  }

  /** Two devices of "a" open the space, and the first re-keys it. */
  lemma RekeysWithTwo() returns (states: seq<State>, events: seq<Event>, second: State)
    ensures second == Opened(Opened(Created(), 0, "a"), 1, "a")
    ensures IsPath(Created(), states, events, Rekeyed(second)) && |events| == 8 && |states| == 9
    ensures events[7] == Commit(0, {}, {}) && states[7] == Prepared0(second) && states[8] == Rekeyed(second)
    ensures Lands(Prepared0(second), 0, {}, {}, Rekeyed(second))
    ensures Rekeyed(second).sp.wraps.Keys == {"a"} && Rekeyed(second).sp.changes == []
  {
    hide Inv, Next, AfterRotate, Lands, IsPath, Ring, Rekeyed, Prepared0;
    assert Inv(Created()) by {
      CreatedIsInitial();
    }
    var first := Opened(Created(), 0, "a");
    second := Opened(first, 1, "a");
    var s0, e0 := Opens(Created(), 0, "a");
    PathKeepsInv(Created(), s0, e0, first);
    var s1, e1 := Opens(first, 1, "a");
    RingOfOne();
    var s2, e2 := Rekeys(second);
    states, events := PathsJoin(Created(), s0, e0, first, s1, e1, second);
    states, events := PathsJoin(Created(), states, events, second, s2, e2, Rekeyed(second));
    assert events[7] == e2[1] && states[7] == s2[1] && states[8] == s2[2];
  }

  lemma AnyoneWrites(second: State, nonce: nat)
    requires second == Opened(Opened(Created(), 0, "a"), 1, "a") && Rekeyed(second).sp.changes == []
    ensures Next(Rekeyed(second), WriteAnyway(1, "x", nonce), WrittenAnyway(nonce))
    ensures WrittenAnyway(nonce).sp.changes == [Sealed(1, "x", nonce)]
  {
    hide Next, AfterRotate, Ring;
    RingOfOne();
    Writes(Rekeyed(second), 1, 0, "x", nonce);
  }

  lemma Revokes(second: State)
    requires 0 in second.devices && second.devices[0].who == "a"
    ensures var dev := Prepared0(second).devices[0];
            dev.at.Pending? && dev.who == "a" && "b" in Elements(dev.at.request.revoke)
  {
    assert "b" in Rekeying().revoke;
  }

  lemma GivenToB(nonce: nat)
    ensures WrapOf(1, "b") in WrittenAnyway(nonce).published && "b" !in WrittenAnyway(nonce).sp.wraps
  {
  }

  lemma RingOfOne()
    ensures Ring([1], 0) == [1]
  {
  }

  // ---------------------------------------------------------------------
  // A rotation and a write
  // ---------------------------------------------------------------------

  /** The space once it has been re-keyed, and a change stored under the new key. */
  function RekeyedAndWritten(nonce: nat): State {
    var before := Opened(Created(), 0, "a");
    Stored(Opened(Rekeyed(before), 1, "a"), 1, "x", nonce)
  }

  lemma RekeysAndWrites(nonce: nat) returns (states: seq<State>, events: seq<Event>)
    ensures IsPath(Created(), states, events, RekeyedAndWritten(nonce)) && Inv(Created())
    ensures forall i :: 0 <= i < |events| && (events[i].Write? || events[i].WriteAnyway?) ==> events[i].nonce == nonce
    ensures RekeyedAndWritten(nonce).sealed == [1]
  {
    hide Inv, Next, AfterRotate, Lands, IsPath, Ring, Stored;
    assert Inv(Created()) by {
      CreatedIsInitial();
    }
    var first := Opened(Created(), 0, "a");
    var second := Rekeyed(first);
    var s0, e0 := Opens(Created(), 0, "a");
    PathKeepsInv(Created(), s0, e0, first);
    RingOfOne();
    var s1, e1 := Rekeys(first);
    PathKeepsInv(first, s1, e1, second);
    var third := Opened(second, 1, "a");
    var s2, e2 := Opens(second, 1, "a");
    PathKeepsInv(second, s2, e2, third);
    WritesCurrent(third, 1, nonce);
    StepPath(third, Write(1, "x", nonce), RekeyedAndWritten(nonce));
    states, events := PathsJoin(Created(), s0, e0, first, s1, e1, second);
    states, events := PathsJoin(Created(), states, events, second, s2, e2, third);
    states, events := PathsJoin(
      Created(), states, events, third, [third, RekeyedAndWritten(nonce)], [Write(1, "x", nonce)],
      RekeyedAndWritten(nonce));
    NotedAt(third, nonce);
  }

  lemma NotedAt(st: State, nonce: nat)
    requires st.sealed == [] && |st.keys| == 2
    ensures Stored(st, 1, "x", nonce).sealed == [1]
  {
  }

  /** A device that has opened the space at its current epoch writes naming it. */
  lemma WritesCurrent(st: State, d: nat, nonce: nat)
    requires Inv(st) && |st.keys| == 2 && st.sp.changes == [] && "a" in st.sp.wraps
    requires d in st.devices && st.devices[d].at == Open(Ring(st.keys, 1), 1)
    ensures Next(st, Write(d, "x", nonce), Stored(st, 1, "x", nonce))
  {
    hide Inv, Next;
    CopyIsCurrent(st, "a");
    Writes(st, d, 1, "x", nonce);
  }
}
