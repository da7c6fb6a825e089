/** What the catalog store keeps over whole runs, and what two sites agree on.
  * A run is any sequence of the store's transactions from empty tables, with any
  * batching, order and repetition of ops.
  */
module CatalogRuns {
  import opened Options
  import opened StringOrder
  import opened Dag
  import opened CatalogOp
  import opened CatalogLaws
  import opened TargetKeys
  import opened CatalogTomb

  /** The table holds a row for exactly the keys the whole log tombstones. */
  ghost predicate Agrees(st: State) {
    RowKeys(st) == TombstonedKeys(Accepted(st.ops))
  }

  /** The assumption the source makes of content types: none holds the separator. */
  ghost predicate SeparableLog(ops: Log) {
    forall h :: h in ops ==> Separable(ops[h].target)
  }

  ghost predicate Inv(s: Scheme, st: State) {
    && WellFormed(s, st)
    && Agrees(st)
    && forall t :: t in st.tombstones ==> Separable(t)
  }

  /** No live work is tombstoned. */
  ghost predicate Suppressed(st: State) {
    forall t :: t in st.tombstones ==> t !in st.works
  }

  // ---------------------------------------------------------------------
  // Reconciling
  // ---------------------------------------------------------------------

  /** Every tombstoned key has a row once the table is reconciled. */
  lemma DeadHasRow(st: State, m: map<string, Target>, st': State, k: string)
    requires IsTombstoneMap(Accepted(st.ops), m) && Reconciled(st, m, st') && k in m
    ensures k in RowKeys(st')
  {
    if k in RowKeys(st) {
      var t :| t in st.tombstones && t.Key() == k;
      assert t in st'.tombstones;
    } else {
      assert m[k] in NewlyDead(st, m);
      assert m[k] in st'.tombstones && m[k].Key() == k;
    }
  }

  /** The rows reconciling leaves behind for no tombstone: those it cannot find
    * again by splitting their key. */
  lemma StuckRow(st: State, m: map<string, Target>, st': State, t: Target)
    requires IsTombstoneMap(Accepted(st.ops), m) && Reconciled(st, m, st') && t.Key() !in m
    ensures t in st'.tombstones <==> t in st.tombstones && !Separable(t)
  {
    SplitInvertsKey(t);
    NewlyDeadKeyed(st, m, t);
  }

  lemma NewlyDeadKeyed(st: State, m: map<string, Target>, t: Target)
    requires IsTombstoneMap(Accepted(st.ops), m)
    ensures t in NewlyDead(st, m) ==> t.Key() in m && t.Key() !in RowKeys(st)
  {
  }

  /** Reconciling brings the table into agreement exactly when every row it must
    * lift has a content type its key splits back into. A row that does not is
    * never deleted, so its work stays suppressed after a restore. */
  lemma ReconcileAgreesIff(st: State, m: map<string, Target>, st': State)
    requires IsTombstoneMap(Accepted(st.ops), m) && Reconciled(st, m, st')
    ensures Agrees(st') <==> forall t :: t in st.tombstones && t.Key() !in m ==> Separable(t)
  {
    assert m.Keys == TombstonedKeys(Accepted(st'.ops));
    forall k | k in m ensures k in RowKeys(st') {
      DeadHasRow(st, m, st', k);
    }
    forall t: Target | t.Key() !in m ensures t in st'.tombstones <==> t in st.tombstones && !Separable(t) {
      StuckRow(st, m, st', t);
    }
    forall t | t in st'.tombstones ensures t.Key() in RowKeys(st') {
    }
  }

  lemma ReconciledRowsSeparable(st: State, m: map<string, Target>, st': State)
    requires IsTombstoneMap(Accepted(st.ops), m) && Reconciled(st, m, st')
    requires SeparableLog(st.ops) && forall t :: t in st.tombstones ==> Separable(t)
    ensures forall t :: t in st'.tombstones ==> Separable(t)
  {
    forall t | t in NewlyDead(st, m) ensures Separable(t) {
      var k :| k in m && m[k] == t;
      var h :| h in Accepted(st.ops) && Accepted(st.ops)[h].target == t;
    }
  }

  lemma ReconcileKeepsInv(s: Scheme, st: State, st': State)
    requires WellFormed(s, st) && SeparableLog(st.ops)
    requires forall t :: t in st.tombstones ==> Separable(t)
    requires ReconcileStep(st, st')
    ensures Inv(s, st')
  {
    var m :| IsTombstoneMap(Accepted(st.ops), m) && Reconciled(st, m, st');
    ReconcileAgreesIff(st, m, st');
    ReconciledRowsSeparable(st, m, st');
    assert st'.tombstones.Keys <= st.tombstones.Keys + NewlyDead(st, m);
    OneRowStill(st, m, st');
  }

  /** Reconciling is idempotent: a table that agrees is left as it is, row for row. */
  lemma ReconcileIdempotent(s: Scheme, st: State, st': State)
    requires Inv(s, st) && ReconcileStep(st, st')
    ensures st' == st
  {
    var m :| IsTombstoneMap(Accepted(st.ops), m) && Reconciled(st, m, st');
    hide Reconciled, IsTombstoneMap, Accepted, TombstonedKeys;
    assert m.Keys == RowKeys(st) by {
      MapKeys(st, m);
    }
    AgreeingStays(st, m, st');
  }

  lemma MapKeys(st: State, m: map<string, Target>)
    requires IsTombstoneMap(Accepted(st.ops), m) && Agrees(st)
    ensures m.Keys == RowKeys(st)
  {
  }

  lemma AgreeingStays(st: State, m: map<string, Target>, st': State)
    requires m.Keys == RowKeys(st) && Reconciled(st, m, st')
    ensures st' == st
  {
    hide Accepted, EarliestDelete, SplitKey;
    assert NewlyDead(st, m) == {};
    forall t | t in st.tombstones ensures t.Key() in m {
      assert t.Key() in RowKeys(st);
    }
    assert st'.tombstones.Keys == st.tombstones.Keys;
    assert st'.tombstones == st.tombstones;
  }

  lemma ReconcileKeepsSuppressed(st: State, st': State)
    requires Suppressed(st) && ReconcileStep(st, st')
    ensures Suppressed(st')
  {
    var m :| IsTombstoneMap(Accepted(st.ops), m) && Reconciled(st, m, st');
  }

  /** A row already in the table keeps its work as it finds it: one created
    * without consulting the tombstone survives every later reconciliation. */
  lemma UnguardedWorkSurvives(s: Scheme, st: State, t: Target, st': State)
    requires WellFormed(s, st) && ReconcileStep(st, st')
    requires t in st.tombstones && t in st.works
    requires t.Key() in TombstonedKeys(Accepted(st.ops))
    ensures t in st'.tombstones && t in st'.works
  {
    var m :| IsTombstoneMap(Accepted(st.ops), m) && Reconciled(st, m, st');
    assert t.Key() in RowKeys(st);
    NewlyDeadKeyed(st, m, t);
  }

  // ---------------------------------------------------------------------
  // Recording
  // ---------------------------------------------------------------------

  lemma LogAfterGrows(s: Scheme, ops: Log, tokens: seq<string>)
    requires s.Lawful() && IsLog(s, ops)
    ensures forall h :: h in ops ==> h in LogAfter(s, ops, tokens) && LogAfter(s, ops, tokens)[h] == ops[h]
    ensures IsLog(s, LogAfter(s, ops, tokens))
    ensures LogAfter(s, ops, tokens).Keys == ops.Keys + VerifiedOps(s, Elements(tokens)).Keys
  {
    LogAfterIsLog(s, ops, tokens);
  }

  /** Skipping the re-materialisation is sound: a batch of nothing but acquires,
    * none of which anything recorded cites, leaves the whole log's tombstones
    * exactly where they were. */
  lemma SkipIsSound(s: Scheme, ops: Log, tokens: seq<string>)
    requires s.Lawful() && IsLog(s, ops) && OnlyAcquires(s, tokens)
    requires !Cited(LogAfter(s, ops, tokens), LogAfter(s, ops, tokens).Keys - ops.Keys)
    ensures TombstonedKeys(Accepted(LogAfter(s, ops, tokens))) == TombstonedKeys(Accepted(ops))
  {
    var ops' := LogAfter(s, ops, tokens);
    LogAfterGrows(s, ops, tokens);
    forall p | p in ops' ensures p in ops || p in ops'.Keys - ops.Keys {
    }
    forall h | h in ops'.Keys - ops.Keys ensures ops'[h].kind.Acquire? {
      var t := VerifiedOps(s, Elements(tokens))[h].token;
      assert t in tokens && s.verify(t) == Good(ops'[h]);
    }
    UncitedAcquiresInert(ops, ops');
  }

  lemma RecordKeepsInv(s: Scheme, st: State, tokens: seq<string>, st': State)
    requires s.Lawful() && Inv(s, st) && SeparableLog(st'.ops) && RecordStep(s, st, tokens, st')
    ensures Inv(s, st')
    ensures Suppressed(st) ==> Suppressed(st')
    ensures forall h :: h in st.ops ==> h in st'.ops && st'.ops[h] == st.ops[h]
  {
    LogAfterGrows(s, st.ops, tokens);
    var ops' := LogAfter(s, st.ops, tokens);
    var mid := st.(ops := ops');
    if AllVerify(s, tokens) && ops'.Keys - st.ops.Keys != {} {
      if OnlyAcquires(s, tokens) && !Cited(ops', ops'.Keys - st.ops.Keys) {
        SkipIsSound(s, st.ops, tokens);
        assert RowKeys(st') == RowKeys(st);
      } else {
        assert st'.ops == ops';
        ReconcileKeepsInv(s, mid, st');
        if Suppressed(st) {
          ReconcileKeepsSuppressed(mid, st');
        }
      }
    }
  }

  // ---------------------------------------------------------------------
  // Runs
  // ---------------------------------------------------------------------

  lemma StepKeepsInv(s: Scheme, st: State, e: Event, st': State)
    requires s.Lawful() && Inv(s, st) && SeparableLog(st'.ops) && Next(s, st, e, st')
    ensures Inv(s, st')
  {
    match e
    case Record(tokens) => RecordKeepsInv(s, st, tokens, st');
    case Reconcile => ReconcileKeepsInv(s, st, st');
    case ResolveWork(t) => assert RowKeys(st') == RowKeys(st);
    case WantWork(t) => assert RowKeys(st') == RowKeys(st);
    case Relabel(from, contentType) => assert RowKeys(st') == RowKeys(st);
    case DeleteWork(t, followed, token) =>
      assert RowKeys(st.(works := st.works - {t})) == RowKeys(st);
      if Deletes(s, st, e) && token.Some? {
        RecordKeepsInv(s, st.(works := st.works - {t}), [token.value], st');
      }
  }

  lemma RecordGrowsLog(s: Scheme, st: State, tokens: seq<string>, st': State)
    requires s.Lawful() && IsLog(s, st.ops) && RecordStep(s, st, tokens, st')
    ensures IsLog(s, st'.ops)
    ensures forall h :: h in st.ops ==> h in st'.ops && st'.ops[h] == st.ops[h]
  {
    LogAfterGrows(s, st.ops, tokens);
    assert st'.ops == st.ops || st'.ops == LogAfter(s, st.ops, tokens);
  }

  lemma StepGrowsLog(s: Scheme, st: State, e: Event, st': State)
    requires s.Lawful() && IsLog(s, st.ops) && Next(s, st, e, st')
    ensures IsLog(s, st'.ops)
    ensures forall h :: h in st.ops ==> h in st'.ops && st'.ops[h] == st.ops[h]
  {
    match e
    case Record(tokens) => RecordGrowsLog(s, st, tokens, st');
    case Reconcile =>
    case ResolveWork(t) =>
    case WantWork(t) =>
    case Relabel(from, contentType) =>
    case DeleteWork(t, followed, token) =>
      if Deletes(s, st, e) && token.Some? {
        RecordGrowsLog(s, st.(works := st.works - {t}), [token.value], st');
      }
  }

  /** The two writers that read no tombstone: a want that creates the work, and a
    * correction that moves a live one onto its natural key. */
  predicate Unguarded(st: State, e: Event) {
    || (e.WantWork? && e.target in st.tombstones)
    || (e.Relabel? && Relabels(st, e.from, e.contentType) && Relabelled(e.from, e.contentType) in st.tombstones)
  }

  /** From a state with no live tombstoned work, a transaction makes one exactly
    * when it is an unguarded write onto a standing tombstone. */
  lemma SuppressionBreaksIff(s: Scheme, st: State, e: Event, st': State)
    requires s.Lawful() && Inv(s, st) && SeparableLog(st'.ops) && Next(s, st, e, st')
    requires Suppressed(st)
    ensures Suppressed(st') <==> !Unguarded(st, e)
  {
    match e
    case Record(tokens) => RecordKeepsInv(s, st, tokens, st');
    case Reconcile => ReconcileKeepsSuppressed(st, st');
    case ResolveWork(t) =>
    case WantWork(t) =>
    case Relabel(from, contentType) => assert RowKeys(st') == RowKeys(st);
    case DeleteWork(t, followed, token) =>
      assert RowKeys(st.(works := st.works - {t})) == RowKeys(st);
      if Deletes(s, st, e) && token.Some? {
        RecordKeepsInv(s, st.(works := st.works - {t}), [token.value], st');
      }
  }

  lemma OneTokenLog(s: Scheme, ops: Log, token: string)
    requires s.Lawful() && s.verify(token).Good? && s.verify(token).op.hash !in ops
    ensures LogAfter(s, ops, [token]) == ops[s.verify(token).op.hash := s.verify(token).op]
  {
    NothingToAdd(s, ops);
    AddOne(s, ops, [token], 0);
    assert [token][..1] == [token] && [token][..0] == [];
  }

  /** Deleting a live work as the source does, with a new op citing the current
    * heads, tombstones it and takes the row, and tombstones nothing else. */
  lemma DeletedWorkIsTombstoned(s: Scheme, st: State, t: Target, token: string, st': State)
    requires s.Lawful() && Inv(s, st) && SeparableLog(st'.ops)
    requires Next(s, st, DeleteWork(t, false, Some(token)), st') && t in st.works
    requires s.verify(token).Good? && s.verify(token).op.kind.Delete? && s.verify(token).op.target == t
    requires FreshOp(st.ops, s.verify(token).op)
    requires Elements(s.verify(token).op.prev) == Frontier(Cites(Accepted(st.ops)))
    ensures t in st'.tombstones && t !in st'.works
    ensures RowKeys(st') == RowKeys(st) + {t.Key()}
  {
    var d := s.verify(token).op;
    var mid := st.(works := st.works - {t});
    OneTokenLog(s, st.ops, token);
    DeletionReconciles(s, mid, token, st');
    assert RowKeys(mid) == RowKeys(st);
    RecordKeepsInv(s, mid, [token], st');
    forall p | p in d.prev ensures p in Accepted(st.ops) {
      assert p in Elements(d.prev);
    }
    FreshDeleteWins(st.ops, d);
    assert d.hash in st'.ops && st'.ops[d.hash] == d;
    LookupAnswersForTheLog(s, st', t);
  }

  lemma DeletionReconciles(s: Scheme, mid: State, token: string, st': State)
    requires s.Lawful() && RecordStep(s, mid, [token], st')
    requires s.verify(token).Good? && s.verify(token).op.kind.Delete? && s.verify(token).op.hash !in mid.ops
    ensures ReconcileStep(mid.(ops := LogAfter(s, mid.ops, [token])), st')
    ensures st'.ops == LogAfter(s, mid.ops, [token]) && st'.works <= mid.works
  {
    OneTokenLog(s, mid.ops, token);
    assert token in [token];
    assert s.verify(token).op.hash in LogAfter(s, mid.ops, [token]).Keys - mid.ops.Keys;
  }

  ghost predicate IsRun(s: Scheme, states: seq<State>, events: seq<Event>)
    requires s.Lawful()
  {
    && |states| == |events| + 1
    && states[0] == Empty()
    && forall i :: 0 <= i < |events| ==> Next(s, states[i], events[i], states[i + 1])
  }

  /** The log of every earlier state is part of the last one's. */
  lemma {:induction false} RunGrowsLog(s: Scheme, states: seq<State>, events: seq<Event>, i: nat)
    requires s.Lawful() && IsRun(s, states, events) && i < |states|
    ensures IsLog(s, states[i].ops)
    ensures forall h :: h in states[i].ops ==> h in states[|events|].ops && states[|events|].ops[h] == states[i].ops[h]
    decreases |events| - i
  {
    RunLog(s, states, events, i);
    if i < |events| {
      StepGrowsLog(s, states[i], events[i], states[i + 1]);
      RunGrowsLog(s, states, events, i + 1);
    }
  }

  lemma {:induction false} RunLog(s: Scheme, states: seq<State>, events: seq<Event>, i: nat)
    requires s.Lawful() && IsRun(s, states, events) && i < |states|
    ensures IsLog(s, states[i].ops)
  {
    if i > 0 {
      RunLog(s, states, events, i - 1);
      StepGrowsLog(s, states[i - 1], events[i - 1], states[i]);
    }
  }

  /** Over every run, at every state, the incremental table agrees with an
    * evaluation of the whole log. */
  lemma {:induction false} RunAgrees(s: Scheme, states: seq<State>, events: seq<Event>, i: nat)
    requires s.Lawful() && IsRun(s, states, events) && i < |states|
    requires SeparableLog(states[|events|].ops)
    ensures Inv(s, states[i])
  {
    if i == 0 {
      EmptyAgrees(s);
    } else {
      RunAgrees(s, states, events, i - 1);
      RunGrowsLog(s, states, events, i);
      StepKeepsInv(s, states[i - 1], events[i - 1], states[i]);
    }
  }

  lemma EmptyAgrees(s: Scheme)
    ensures Inv(s, Empty()) && Suppressed(Empty())
  {
    assert Accepted(map[]) == map[];
  }

  /** A run without such a write never holds a live work under a tombstone. */
  lemma {:induction false} RunSuppresses(s: Scheme, states: seq<State>, events: seq<Event>, i: nat)
    requires s.Lawful() && IsRun(s, states, events) && i < |states|
    requires SeparableLog(states[|events|].ops)
    requires forall j :: 0 <= j < |events| ==> !Unguarded(states[j], events[j])
    ensures Suppressed(states[i])
  {
    if i > 0 {
      RunSuppresses(s, states, events, i - 1);
      RunAgrees(s, states, events, i - 1);
      RunGrowsLog(s, states, events, i);
      SuppressionBreaksIff(s, states[i - 1], events[i - 1], states[i]);
    }
  }

  /** The indexed lookup answers for the whole log. */
  lemma LookupAnswersForTheLog(s: Scheme, st: State, t: Target)
    requires Inv(s, st) && Separable(t)
    ensures t in st.tombstones <==> t.Key() in TombstonedKeys(Accepted(st.ops))
  {
    if t in st.tombstones {
      assert t.Key() in RowKeys(st);
    }
    if t.Key() in RowKeys(st) {
      var row :| row in st.tombstones && row.Key() == t.Key();
      KeyInjective(row, t);
    }
  }

  // ---------------------------------------------------------------------
  // Two sites
  // ---------------------------------------------------------------------

  /** Stores that hold the same ops tombstone the same works. */
  lemma SameLogSameTombstones(s: Scheme, a: State, b: State)
    requires s.Lawful() && Inv(s, a) && Inv(s, b) && a.ops.Keys == b.ops.Keys
    ensures a.ops == b.ops
    ensures a.tombstones.Keys == b.tombstones.Keys
  {
    forall h | h in a.ops ensures a.ops[h] == b.ops[h] {
      LogsAgree(s, a.ops, b.ops, h);
    }
    assert a.ops == b.ops;
    forall t ensures t in a.tombstones <==> t in b.tombstones {
      if Separable(t) {
        LookupAnswersForTheLog(s, a, t);
        LookupAnswersForTheLog(s, b, t);
      }
    }
  }

  /** Two sites, each with its own run of local writes and of pushes from the
    * other (partial, reordered or repeated), agree on every tombstone as soon as
    * they hold the same ops. */
  lemma TwoSitesConverge(s: Scheme, sa: seq<State>, ea: seq<Event>, sb: seq<State>, eb: seq<Event>)
    requires s.Lawful() && IsRun(s, sa, ea) && IsRun(s, sb, eb)
    requires sa[|ea|].ops.Keys == sb[|eb|].ops.Keys && SeparableLog(sa[|ea|].ops)
    ensures sa[|ea|].tombstones.Keys == sb[|eb|].tombstones.Keys
  {
    RunLog(s, sa, ea, |ea|);
    RunLog(s, sb, eb, |eb|);
    var a, b := sa[|ea|], sb[|eb|];
    forall h | h in b.ops ensures Separable(b.ops[h].target) {
      LogsAgree(s, a.ops, b.ops, h);
    }
    RunAgrees(s, sa, ea, |ea|);
    RunAgrees(s, sb, eb, |eb|);
    SameLogSameTombstones(s, a, b);
  }

  ghost function LogTokens(ops: Log): set<string> {
    set h | h in ops :: ops[h].token
  }

  /** A push lands: the receiver's log becomes the union, its table agreeing. */
  lemma PushLands(s: Scheme, a: State, b: State, offered: seq<string>, b': State)
    requires s.Lawful() && Inv(s, a) && Inv(s, b)
    requires Elements(offered) == LogTokens(a.ops) && Next(s, b, Record(offered), b')
    requires SeparableLog(a.ops) && SeparableLog(b.ops)
    ensures Inv(s, b') && SeparableLog(b'.ops) && b'.ops.Keys == a.ops.Keys + b.ops.Keys
  {
    OfferedLands(s, a.ops, b, offered, b');
    UnionSeparable(s, a.ops, b.ops, b'.ops);
    RecordKeepsInv(s, b, offered, b');
  }

  /** One push and its answer: `a` offers its log, `b` records it and answers with
    * its own, `a` records that. Both logs are then the union, and the sites agree. */
  lemma ExchangeConverges(
      s: Scheme, a: State, b: State, offered: seq<string>, b': State, answered: seq<string>, a': State)
    requires s.Lawful() && Inv(s, a) && Inv(s, b)
    requires Elements(offered) == LogTokens(a.ops) && Next(s, b, Record(offered), b')
    requires Elements(answered) == LogTokens(b'.ops) && Next(s, a, Record(answered), a')
    requires SeparableLog(a.ops) && SeparableLog(b.ops)
    ensures a'.ops == b'.ops && a'.ops.Keys == a.ops.Keys + b.ops.Keys
    ensures Inv(s, a') && Inv(s, b')
    ensures a'.tombstones.Keys == b'.tombstones.Keys
  {
    hide Next, Inv, SeparableLog, Elements, LogTokens;
    PushLands(s, a, b, offered, b');
    PushLands(s, b', a, answered, a');
    assert a'.ops.Keys == b'.ops.Keys;
    SameLogSameTombstones(s, a', b');
  }

  /** Recording a log's tokens adds exactly that log. */
  lemma OfferedLands(s: Scheme, ops: Log, st: State, tokens: seq<string>, st': State)
    requires s.Lawful() && IsLog(s, ops) && IsLog(s, st.ops)
    requires Elements(tokens) == LogTokens(ops) && RecordStep(s, st, tokens, st')
    ensures st'.ops.Keys == st.ops.Keys + ops.Keys && IsLog(s, st'.ops)
  {
    LogOfItsTokens(s, ops, tokens);
    LogAfterGrows(s, st.ops, tokens);
    forall t | t in tokens ensures s.verify(t).Good? {
      assert t in Elements(tokens);
      var h :| h in ops && ops[h].token == t;
      assert s.verify(t) == Good(ops[h]);
    }
    var ops' := LogAfter(s, st.ops, tokens);
    if ops'.Keys - st.ops.Keys == {} {
      NoneAdded(s, st.ops, tokens);
    }
  }

  lemma UnionSeparable(s: Scheme, a: Log, b: Log, c: Log)
    requires s.Lawful() && IsLog(s, a) && IsLog(s, b) && IsLog(s, c)
    requires SeparableLog(a) && SeparableLog(b) && c.Keys <= a.Keys + b.Keys
    ensures SeparableLog(c)
  {
    forall h | h in c ensures Separable(c[h].target) {
      if h in a {
        LogsAgree(s, a, c, h);
      } else {
        LogsAgree(s, b, c, h);
      }
    }
  }
}
