/** Runs of the store in which a promise of the source fails, each for every input
  * of its kind.
  */
module CatalogExamples {
  import opened Options
  import opened StringOrder
  import opened Dag
  import opened CatalogOp
  import opened CatalogLaws
  import opened TargetKeys
  import opened CatalogTomb
  import opened CatalogRuns

  /** A delete of a work that cites nothing, and a restore of it that cites the
    * delete. */
  ghost predicate DeletesAndRestores(s: Scheme, t: Target, deletion: string, restoring: string) {
    && s.verify(deletion).Good? && s.verify(restoring).Good?
    && var (d, r) := (s.verify(deletion).op, s.verify(restoring).op);
    && d.kind.Delete? && d.target == t && d.prev == []
    && r.kind.Restore? && r.target == t && r.prev == [d.hash]
    && d.hash != r.hash
  }

  /** A log of one op that cites nothing accepts it. */
  lemma LoneOp(op: Op)
    requires op.prev == []
    ensures Accepted(map[op.hash := op]) == map[op.hash := op]
    ensures Frontier(Cites(map[op.hash := op])) == {op.hash}
    ensures Acyclic(Cites(map[op.hash := op]))
  {
    var ops := map[op.hash := op];
    ClosedIsResolved(ops, {op.hash});
  }

  /** A batch of one op that is no acquire, and new, is appended and reconciled. */
  lemma OneRecorded(s: Scheme, st: State, token: string, st': State)
    requires s.Lawful() && s.verify(token).Good? && !s.verify(token).op.kind.Acquire?
    requires var op := s.verify(token).op;
             op.hash !in st.ops && ReconcileStep(st.(ops := st.ops[op.hash := op]), st')
    ensures RecordStep(s, st, [token], st') && Next(s, st, Record([token]), st')
  {
    hide ReconcileStep, Scheme.Lawful, LogAfter, Cited;
    OneTokenLog(s, st.ops, token);
    var op := s.verify(token).op;
    assert token in [token] && op.hash in st.ops[op.hash := op].Keys - st.ops.Keys;
  }

  /** The delete of a work tombstones it at an empty store. */
  lemma DeleteLands(s: Scheme, t: Target, deletion: string) returns (st: State)
    requires s.Lawful() && s.verify(deletion).Good?
    requires s.verify(deletion).op.kind.Delete? && s.verify(deletion).op.target == t && s.verify(deletion).op.prev == []
    ensures var d := s.verify(deletion).op; st == State(map[d.hash := d], map[t := d.hash], {})
    ensures TombstonedKeys(Accepted(st.ops)) == {t.Key()}
    ensures RecordStep(s, Empty(), [deletion], st) && Next(s, Empty(), Record([deletion]), st)
  {
    hide ReconcileStep, RecordStep, TombstonedKeys;
    var d := s.verify(deletion).op;
    st := State(map[d.hash := d], map[t := d.hash], {});
    LoneDelete(d);
    var none: Log := map[];
    assert none[d.hash := d] == st.ops;
    FirstRow(Empty().(ops := st.ops), t, d, st);
    OneRecorded(s, Empty(), deletion, st);
  }

  lemma LoneDelete(d: Op)
    requires d.kind.Delete? && d.prev == []
    ensures TombstonedKeys(Accepted(map[d.hash := d])) == {d.target.Key()}
  {
    var none: Log := map[];
    assert Accepted(none) == none;
    assert none[d.hash := d] == map[d.hash := d];
    FreshDeleteWins(none, d);
    assert TombstonedKeys(none) == {};
  }

  lemma FirstRow(mid: State, t: Target, d: Op, st: State)
    requires d.kind.Delete? && d.target == t && d.prev == [] && t !in mid.works
    requires mid == State(map[d.hash := d], map[], mid.works) && st == mid.(tombstones := map[t := d.hash])
    requires TombstonedKeys(Accepted(mid.ops)) == {t.Key()}
    ensures ReconcileStep(mid, st)
  {
    LoneOp(d);
    var m := map[t.Key() := t];
    assert IsTombstoneMap(Accepted(mid.ops), m) by {
      assert Accepted(mid.ops)[d.hash].target == t;
    }
    assert RowKeys(mid) == {};
    assert m[t.Key()] == t;
    assert NewlyDead(mid, m) == {t};
    LessIrreflexive(d.hash);
    assert EarliestDelete(Accepted(mid.ops), t.Key(), d.hash);
    assert Reconciled(mid, m, st);
  }

  /** A work whose content type holds the separator, deleted and restored, stays in
    * the table for good: the log tombstones nothing, and its row is still there. */
  lemma RestoredButStuck(s: Scheme, t: Target, deletion: string, restoring: string)
    returns (states: seq<State>, events: seq<Event>)
    requires s.Lawful() && !Separable(t) && DeletesAndRestores(s, t, deletion, restoring)
    ensures IsRun(s, states, events) && events == [Record([deletion]), Record([restoring])]
    ensures var last := states[2]; !Agrees(last) && t in last.tombstones && TombstonedKeys(Accepted(last.ops)) == {}
    ensures forall st' :: Next(s, states[2], Reconcile, st') ==> t in st'.tombstones
  {
    hide ReconcileStep, RecordStep, TombstonedKeys, Agrees, Accepted;
    var d, r := s.verify(deletion).op, s.verify(restoring).op;
    var first := DeleteLands(s, t, deletion);
    var last := first.(ops := first.ops[r.hash := r]);
    LoneRestored(d, r);
    SplitInvertsKey(t);
    StuckAlone(last, t);
    OneRecorded(s, first, restoring, last);
    states, events := [Empty(), first, last], [Record([deletion]), Record([restoring])];
    forall st' | Next(s, last, Reconcile, st') ensures t in st'.tombstones {
      StaysStuck(last, t, st');
    }
  }

  lemma LoneRestored(d: Op, r: Op)
    requires d.kind.Delete? && d.prev == [] && r.kind.Restore? && r.prev == [d.hash] && r.target == d.target
    requires d.hash != r.hash
    ensures TombstonedKeys(Accepted(map[d.hash := d][r.hash := r])) == {}
  {
    hide TombstonedKeys;
    LoneOp(d);
    LoneDelete(d);
    RestoreAtFrontierLifts(map[d.hash := d], r);
  }

  lemma StaysStuck(st: State, t: Target, st': State)
    requires t in st.tombstones && SplitKey(t.Key()) != t && ReconcileStep(st, st')
    ensures t in st'.tombstones
  {
  }

  /** With nothing tombstoned, a lone row that does not split back is left alone. */
  lemma StuckAlone(st: State, t: Target)
    requires st.tombstones.Keys == {t} && SplitKey(t.Key()) != t && TombstonedKeys(Accepted(st.ops)) == {}
    ensures ReconcileStep(st, st) && !Agrees(st)
  {
    assert IsTombstoneMap(Accepted(st.ops), map[]);
    assert NewlyDead(st, map[]) == {};
    assert Reconciled(st, map[], st);
    assert t.Key() in RowKeys(st);
  }

  /** A scheme with such a pair of tokens, for any work. */
  function ExampleScheme(t: Target): Scheme {
    Scheme(
      token => token,
      token =>
        if token == "d." then Good(Op(HASH_PREFIX + "d.", "d.", Delete, t, "k", [], 0, None))
        else if token == "r." then Good(Op(HASH_PREFIX + "r.", "r.", Restore, t, "k", [HASH_PREFIX + "d."], 1, None))
        else Malformed)
  }

  lemma ExampleHolds(t: Target)
    ensures ExampleScheme(t).Lawful() && DeletesAndRestores(ExampleScheme(t), t, "d.", "r.")
  {
    var s := ExampleScheme(t);
    assert (HASH_PREFIX + "d.")[|HASH_PREFIX|] != (HASH_PREFIX + "r.")[|HASH_PREFIX|];
    forall x ensures s.Hash(x) == HASH_PREFIX + x {
    }
  }

  /** So the condition under which the table agrees does fail, and at a run. */
  lemma StuckRowReachable() returns (s: Scheme, states: seq<State>, events: seq<Event>)
    ensures s.Lawful() && IsRun(s, states, events) && |events| == 2 && !Agrees(states[2])
  {
    var t := Target("m" + [UNIT_SEP], "k");
    assert t.contentType[1] == UNIT_SEP;
    s := ExampleScheme(t);
    ExampleHolds(t);
    states, events := RestoredButStuck(s, t, "d.", "r.");
  }

  /** A work corrected to another type and deleted comes back live under its
    * standing tombstone: the next scan creates it under the type it parses to, and
    * the same correction moves it over. For any two types no correction refuses. */
  lemma CorrectedBackToLife(s: Scheme, from: Target, contentType: string, deletion: string)
    returns (states: seq<State>, events: seq<Event>)
    requires s.Lawful() && contentType in CONTENT_TYPES - {ROM} && contentType != from.contentType
    requires s.verify(deletion).Good? && s.verify(deletion).op.kind.Delete? && s.verify(deletion).op.prev == []
    requires s.verify(deletion).op.target == Relabelled(from, contentType)
    ensures IsRun(s, states, events)
    ensures events == [
      ResolveWork(from), Relabel(from, contentType), DeleteWork(Relabelled(from, contentType), false, Some(deletion)),
      ResolveWork(from), Relabel(from, contentType)]
    ensures var to := Relabelled(from, contentType); to in states[5].works && to in states[5].tombstones
  {
    hide ReconcileStep, RecordStep, TombstonedKeys;
    var to := Relabelled(from, contentType);
    var dead := DeleteLands(s, to, deletion);
    assert {from} - {from} + {to} == {to} && {to} - {to} == {};
    var live := Empty().(works := {from});
    var moved := Empty().(works := {to});
    assert moved.(works := moved.works - {to}) == Empty();
    states := [Empty(), live, moved, dead, dead.(works := {from}), dead.(works := {to})];
    events := [
      ResolveWork(from), Relabel(from, contentType), DeleteWork(to, false, Some(deletion)),
      ResolveWork(from), Relabel(from, contentType)];
    assert Next(s, states[2], events[2], states[3]);
  }
}
