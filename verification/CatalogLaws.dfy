/** What the catalog op-log promises about its view, over every set of tokens:
  * it is a function of the set, it grows soundly, remove wins, and a restore
  * that cites the frontier lifts exactly its own target.
  */
module CatalogLaws {
  import opened StringOrder
  import opened Dag
  import opened CatalogOp

  // ---------------------------------------------------------------------
  // The view is a function of the token set
  // ---------------------------------------------------------------------

  /** Two views of the same tokens agree on every field; on the tombstones they
    * agree on the keys, and on the targets whenever a key names one target. */
  lemma ViewDetermined(s: Scheme, tokens: set<string>, v: View, w: View)
    requires s.Lawful() && IsView(s, tokens, v) && IsView(s, tokens, w)
    ensures v.accepted == w.accepted && v.rejected == w.rejected && v.heads == w.heads
    ensures v.tombstoned.Keys == w.tombstoned.Keys
    ensures v.acquisitions == w.acquisitions
    ensures KeysNameOneTarget(v.accepted) ==> v == w
  {
    AcceptedIsLog(s, VerifiedOps(s, tokens));
    SortedDetermined(v.heads, w.heads);
    AcquisitionsDetermined(v.accepted, v.tombstoned.Keys, v.acquisitions, w.acquisitions);
    if KeysNameOneTarget(v.accepted) {
      TombstoneMapDetermined(v.accepted, v.tombstoned, w.tombstoned);
    }
  }

  /** No two tombstoned targets among these ops share a key. */
  ghost predicate KeysNameOneTarget(accepted: Log) {
    forall a, b ::
      a in accepted && b in accepted
      && accepted[a].target.Key() == accepted[b].target.Key()
      && accepted[a].target.Key() in TombstonedKeys(accepted)
      ==> accepted[a].target == accepted[b].target
  }

  lemma TombstoneMapDetermined(accepted: Log, m: map<string, Target>, n: map<string, Target>)
    requires KeysNameOneTarget(accepted)
    requires IsTombstoneMap(accepted, m) && IsTombstoneMap(accepted, n)
    ensures m == n
  {
    forall k | k in m ensures m[k] == n[k] {
      var a :| a in accepted && accepted[a].target == m[k];
      var b :| b in accepted && accepted[b].target == n[k];
    }
  }

  /** Which target a tombstoned key is filed under depends on map order exactly
    * when two accepted targets share the key. */
  lemma TombstoneTargetsAmbiguous(accepted: Log)
    ensures (forall m, n :: IsTombstoneMap(accepted, m) && IsTombstoneMap(accepted, n) ==> m == n)
            <==> KeysNameOneTarget(accepted)
  {
    if KeysNameOneTarget(accepted) {
      forall m, n | IsTombstoneMap(accepted, m) && IsTombstoneMap(accepted, n) ensures m == n {
        TombstoneMapDetermined(accepted, m, n);
      }
    } else {
      var a, b :| a in accepted && b in accepted
                  && accepted[a].target.Key() == accepted[b].target.Key()
                  && accepted[a].target.Key() in TombstonedKeys(accepted)
                  && accepted[a].target != accepted[b].target;
      TwoTombstoneMaps(accepted, a, b);
    }
  }

  lemma TwoTombstoneMaps(accepted: Log, a: string, b: string)
    requires a in accepted && b in accepted
    requires accepted[a].target.Key() == accepted[b].target.Key() &&
             accepted[a].target.Key() in TombstonedKeys(accepted)
    requires accepted[a].target != accepted[b].target
    ensures exists m, n :: IsTombstoneMap(accepted, m) && IsTombstoneMap(accepted, n) && m != n
  {
    var k := accepted[a].target.Key();
    var base := SomeTombstoneMap(accepted);
    var m, n := base[k := accepted[a].target], base[k := accepted[b].target];
    assert m[k] != n[k];
    assert IsTombstoneMap(accepted, m) && IsTombstoneMap(accepted, n);
  }

  ghost function SomeTombstoneMap(accepted: Log): (m: map<string, Target>)
    ensures IsTombstoneMap(accepted, m)
  {
    var m := map k | k in TombstonedKeys(accepted) ::
      (var h :| h in accepted && Effective(accepted, h) && accepted[h].target.Key() == k; accepted[h].target);
    m
  }

  /** The effective acquisition of a key is the unique newest one. */
  lemma AcquisitionsDetermined(accepted: Log, dead: set<string>, m: map<string, Op>, n: map<string, Op>)
    requires forall h :: h in accepted ==> accepted[h].hash == h
    requires IsAcquisitionsOf(accepted, dead, accepted.Keys, m)
    requires IsAcquisitionsOf(accepted, dead, accepted.Keys, n)
    ensures m == n
  {
    forall k | k in m ensures k in n && m[k] == n[k] {
      AcquisitionAt(accepted, dead, m, n, k);
    }
    forall k | k in n ensures k in m {
      AcquisitionAt(accepted, dead, n, m, k);
    }
  }

  lemma AcquisitionAt(accepted: Log, dead: set<string>, m: map<string, Op>, n: map<string, Op>, k: string)
    requires forall h :: h in accepted ==> accepted[h].hash == h
    requires IsAcquisitionsOf(accepted, dead, accepted.Keys, m)
    requires IsAcquisitionsOf(accepted, dead, accepted.Keys, n)
    requires k in m
    ensures k in n && m[k] == n[k]
  {
    assert Newest(accepted, dead, accepted.Keys, k, m[k]);
    var a :| a in accepted && LiveAcquire(accepted, dead, a) && accepted[a] == m[k];
    assert k in n && Newest(accepted, dead, accepted.Keys, k, n[k]);
    var b :| b in accepted && LiveAcquire(accepted, dead, b) && accepted[b] == n[k];
    NewerTotal(m[k], n[k]);
  }

  /** Empty tokens, duplicates and order do not matter: only the set of non-empty
    * tokens does. */
  lemma EvaluateReadsTheSet(s: Scheme, a: seq<string>, b: seq<string>, v: View)
    requires s.Lawful()
    requires Elements(a) - {""} == Elements(b) - {""}
    ensures IsView(s, Elements(a), v) <==> IsView(s, Elements(b), v)
  {
    EmptyTokenSilent(s, Elements(a));
    EmptyTokenSilent(s, Elements(b));
  }

  lemma EmptyTokenSilent(s: Scheme, tokens: set<string>)
    requires s.Lawful()
    ensures VerifiedOps(s, tokens) == VerifiedOps(s, tokens - {""})
    ensures RejectedTokens(s, tokens) == RejectedTokens(s, tokens - {""})
  {
    var some := tokens - {""};
    var ops, bad := VerifiedOps(s, some), RejectedTokens(s, some);
    forall h | h in bad ensures exists t :: RejectedAs(s, tokens, t, h, bad[h]) {
      var t :| RejectedAs(s, some, t, h, bad[h]);
      assert RejectedAs(s, tokens, t, h, bad[h]);
    }
    VerifiedDetermined(s, tokens, VerifiedOps(s, tokens), ops);
    RejectedDetermined(s, tokens, RejectedTokens(s, tokens), bad);
  }

  // ---------------------------------------------------------------------
  // Merge is a join
  // ---------------------------------------------------------------------

  lemma MergeDetermined(s: Scheme, tokens: set<string>, a: seq<string>, b: seq<string>)
    requires s.Lawful() && IsMerge(s, tokens, a) && IsMerge(s, tokens, b)
    ensures a == b
  {
    forall h ensures h in Elements(Hashes(s, a)) <==> h in Elements(Hashes(s, b)) {
      HashOf(s, a, b, h);
      HashOf(s, b, a, h);
    }
    SortedDetermined(Hashes(s, a), Hashes(s, b));
    assert |a| == |Hashes(s, a)| == |Hashes(s, b)| == |b|;
    forall i | 0 <= i < |a| ensures a[i] == b[i] {
      assert Hashes(s, a)[i] == Hashes(s, b)[i];
      s.HashInjective(a[i], b[i]);
    }
  }

  lemma HashOf(s: Scheme, a: seq<string>, b: seq<string>, h: string)
    requires forall t :: t in a ==> t in b
    ensures h in Hashes(s, a) ==> h in Hashes(s, b)
  {
    if h in Hashes(s, a) {
      var i :| 0 <= i < |a| && Hashes(s, a)[i] == h;
      assert a[i] in a && a[i] in b;
      var j :| 0 <= j < |b| && b[j] == a[i];
      assert Hashes(s, b)[j] == h;
    }
  }

  lemma TwoSets(a: seq<string>, b: seq<string>)
    ensures AllTokens([a, b]) == Elements(a) + Elements(b)
  {
    forall t ensures t in AllTokens([a, b]) <==> t in a || t in b {
      if t in a { assert t in [a, b][0]; }
      if t in b { assert t in [a, b][1]; }
    }
  }

  lemma MergeCommutative(s: Scheme, a: seq<string>, b: seq<string>, ab: seq<string>, ba: seq<string>)
    requires s.Lawful()
    requires IsMerge(s, AllTokens([a, b]), ab) && IsMerge(s, AllTokens([b, a]), ba)
    ensures ab == ba
  {
    TwoSets(a, b);
    TwoSets(b, a);
    MergeDetermined(s, AllTokens([a, b]), ab, ba);
  }

  lemma MergeAssociative(s: Scheme, a: seq<string>, b: seq<string>, c: seq<string>,
                         ab: seq<string>, bc: seq<string>, left: seq<string>, right: seq<string>)
    requires s.Lawful()
    requires IsMerge(s, AllTokens([a, b]), ab) && IsMerge(s, AllTokens([b, c]), bc)
    requires IsMerge(s, AllTokens([ab, c]), left) && IsMerge(s, AllTokens([a, bc]), right)
    ensures left == right
  {
    TwoSets(a, b);
    TwoSets(b, c);
    TwoSets(ab, c);
    TwoSets(a, bc);
    forall t ensures t in right <==> t in AllTokens([ab, c]) && t != "" {
      calc {
        t in right;
        (t in a || t in bc) && t != "";
        (t in a || t in b || t in c) && t != "";
        (t in ab || t in c) && t != "";
      }
    }
    MergeDetermined(s, AllTokens([ab, c]), left, right);
  }

  lemma MergeIdempotent(s: Scheme, a: seq<string>, m: seq<string>, again: seq<string>)
    requires s.Lawful()
    requires IsMerge(s, AllTokens([a, a]), m) && IsMerge(s, AllTokens([m, m]), again)
    ensures again == m
    ensures Elements(m) == Elements(a) - {""}
  {
    TwoSets(a, a);
    TwoSets(m, m);
    MergeDetermined(s, AllTokens([m, m]), m, again);
  }

  /** Evaluating a merge is evaluating the two logs together. */
  lemma MergeThenEvaluate(s: Scheme, a: seq<string>, b: seq<string>, m: seq<string>, v: View)
    requires s.Lawful() && IsMerge(s, AllTokens([a, b]), m)
    ensures IsView(s, Elements(m), v) <==> IsView(s, Elements(a + b), v)
  {
    TwoSets(a, b);
    assert Elements(a + b) == Elements(a) + Elements(b);
    EvaluateReadsTheSet(s, m, a + b, v);
  }

  // ---------------------------------------------------------------------
  // Structural resolution
  // ---------------------------------------------------------------------

  lemma ResolvedIsClosed(ops: Log)
    ensures PrevClosed(ops, Resolved(ops))
  {
    forall h, p | h in Resolved(ops) && p in ops[h].prev ensures p in Resolved(ops) {
      ResolvedHasPast(ops, h, p);
    }
  }

  /** An op stands exactly when its whole causal past is present. */
  lemma AcceptedIffPastPresent(ops: Log, h: string)
    requires h in ops
    ensures h in Accepted(ops) <==> forall p :: Reaches(Cites(ops), ops[h].prev, p) ==> p in ops
  {
    var g := Cites(ops);
    ResolvedIsClosed(ops);
    if h in Resolved(ops) {
      forall p | Reaches(g, ops[h].prev, p) ensures p in ops {
        ReachedStaysInside(g, ops[h].prev, Resolved(ops), p);
      }
    }
    if forall p :: Reaches(g, ops[h].prev, p) ==> p in ops {
      var past := set q | q in ops && (q == h || Reaches(g, ops[h].prev, q));
      forall q, p | q in past && p in ops[q].prev ensures p in past {
        if q == h {
          ReachesDirect(g, ops[h].prev, p);
        } else {
          ReachesOneMore(g, ops[h].prev, q, p);
        }
      }
      assert h in past && PrevClosed(ops, past);
    }
  }

  /** More ops never un-accept one: what a log accepts only grows. */
  lemma AcceptedGrows(ops: Log, more: Log)
    requires forall h :: h in ops ==> h in more && more[h] == ops[h]
    ensures Resolved(ops) <= Resolved(more)
  {
    ResolvedIsClosed(ops);
    assert PrevClosed(more, Resolved(ops));
  }

  lemma AcceptedIsLog(s: Scheme, ops: Log)
    requires IsLog(s, ops)
    ensures IsLog(s, Accepted(ops))
    ensures s.Lawful() ==> forall h :: h in Accepted(ops) ==> Accepted(ops)[h].hash == h
  {
  }

  // ---------------------------------------------------------------------
  // Ops nothing cites
  // ---------------------------------------------------------------------

  /** `more` adds ops to `ops`, and no op of `more` cites an added one. */
  ghost predicate AddsUncited(ops: Log, more: Log) {
    && (forall h :: h in ops ==> h in more && more[h] == ops[h])
    && (forall q, p :: q in more && p in more[q].prev && p in more ==> p in ops)
  }

  /** Uncited additions leave the acceptance of every earlier op as it was. */
  lemma UncitedKeepAccepted(ops: Log, more: Log)
    requires AddsUncited(ops, more)
    ensures Resolved(more) * ops.Keys == Resolved(ops)
    ensures AddsUncited(Accepted(ops), Accepted(more))
  {
    AcceptedGrows(ops, more);
    ResolvedIsClosed(more);
    assert PrevClosed(ops, Resolved(more) * ops.Keys);
    ClosedIsResolved(ops, Resolved(more) * ops.Keys);
  }

  /** Whether an earlier restore lifts a delete is not changed by uncited additions. */
  lemma UncitedKeepLifts(ops: Log, more: Log, r: string, d: Op)
    requires AddsUncited(ops, more) && r in ops
    ensures Lifts(more, more[r], d) <==> Lifts(ops, ops[r], d)
  {
    UncitedAdditionsUnreached(Cites(ops), Cites(more), ops[r].prev, d.hash);
  }

  /** Acquires that nothing recorded cites cannot complete a held restore or
    * change any past: the tombstones stay exactly as they were. */
  lemma UncitedAcquiresInert(ops: Log, more: Log)
    requires AddsUncited(ops, more)
    requires forall h :: h in more.Keys - ops.Keys ==> more[h].kind.Acquire?
    ensures TombstonedKeys(Accepted(more)) == TombstonedKeys(Accepted(ops))
  {
    var before, after := Accepted(ops), Accepted(more);
    UncitedKeepAccepted(ops, more);
    forall h | h in before && before[h].kind.Delete?
      ensures Overridden(after, before[h]) <==> Overridden(before, before[h])
    {
      OverriddenSame(before, after, before[h]);
    }
    forall h ensures Effective(after, h) <==> Effective(before, h) {
      assert h in after && h !in before ==> h in more.Keys - ops.Keys;
    }
    SameEffective(before, after);
  }

  lemma OverriddenSame(before: Log, after: Log, d: Op)
    requires AddsUncited(before, after)
    requires forall h :: h in after.Keys - before.Keys ==>
               !after[h].kind.Restore? || after[h].target.Key() != d.target.Key()
    ensures Overridden(after, d) <==> Overridden(before, d)
  {
    forall r | r in before ensures Lifts(after, after[r], d) <==> Lifts(before, before[r], d) {
      UncitedKeepLifts(before, after, r, d);
    }
    if Overridden(after, d) {
      var r :| r in after && Lifts(after, after[r], d);
      assert r in before && Lifts(before, before[r], d);
    }
    if Overridden(before, d) {
      var r :| r in before && Lifts(before, before[r], d);
      assert r in after && Lifts(after, after[r], d);
    }
  }

  lemma SameEffective(a: Log, b: Log)
    requires forall h :: Effective(a, h) <==> Effective(b, h)
    requires forall h :: h in a && h in b ==> a[h] == b[h]
    ensures TombstonedKeys(a) == TombstonedKeys(b)
  {
    forall k ensures k in TombstonedKeys(a) <==> k in TombstonedKeys(b) {
      if k in TombstonedKeys(a) {
        var h :| h in a && Effective(a, h) && a[h].target.Key() == k;
        assert Effective(b, h);
      }
      if k in TombstonedKeys(b) {
        var h :| h in b && Effective(b, h) && b[h].target.Key() == k;
        assert Effective(a, h);
      }
    }
  }

  // ---------------------------------------------------------------------
  // Writing at the frontier
  // ---------------------------------------------------------------------

  /** `r` is new to the log, nothing in the log or in `r` itself cites it. */
  ghost predicate FreshOp(ops: Log, r: Op) {
    && r.hash !in ops && r.hash !in r.prev
    && forall q :: q in ops ==> r.hash !in ops[q].prev
  }

  lemma FreshAddsUncited(ops: Log, r: Op)
    requires FreshOp(ops, r)
    ensures AddsUncited(ops, ops[r.hash := r])
    ensures ops[r.hash := r].Keys - ops.Keys == {r.hash}
    ensures (r.hash in Resolved(ops[r.hash := r])) <==> (forall p :: p in r.prev ==> p in Resolved(ops))
  {
    var more := ops[r.hash := r];
    assert more.Keys - ops.Keys == {r.hash};
    UncitedKeepAccepted(ops, more);
    ResolvedIsClosed(ops);
    ResolvedIsClosed(more);
    if forall p :: p in r.prev ==> p in Resolved(ops) {
      assert PrevClosed(more, Resolved(ops) + {r.hash});
      ClosedIsResolved(more, Resolved(ops) + {r.hash});
    }
  }

  /** A restore that cites the frontier of an acyclic log follows every accepted
    * delete of its target: it lifts that target and no other. */
  lemma RestoreAtFrontierLifts(ops: Log, r: Op)
    requires forall h :: h in ops ==> ops[h].hash == h
    requires Acyclic(Cites(Accepted(ops)))
    requires FreshOp(ops, r) && r.kind.Restore?
    requires Elements(r.prev) == Frontier(Cites(Accepted(ops)))
    ensures r.hash in Accepted(ops[r.hash := r])
    ensures TombstonedKeys(Accepted(ops[r.hash := r])) == TombstonedKeys(Accepted(ops)) - {r.target.Key()}
  {
    FreshAddsUncited(ops, r);
    forall p | p in r.prev ensures p in Resolved(ops) {
      assert p in Elements(r.prev);
    }
    AcceptedPlusFresh(ops, r);
    var before := Accepted(ops);
    var after := before[r.hash := r];
    forall h | h in before
      ensures Effective(after, h) <==> Effective(before, h) && before[h].target.Key() != r.target.Key()
    {
      if before[h].kind.Delete? && before[h].target.Key() == r.target.Key() {
        FrontierReachesAll(before, after, r, h);
        assert Lifts(after, after[r.hash], after[h]);
      } else if before[h].kind.Delete? {
        OverriddenSame(before, after, before[h]);
      }
    }
    assert !Effective(after, r.hash);
    EffectiveKeys(before, after, r, TombstonedKeys(before) - {r.target.Key()});
  }

  lemma AcceptedPlusFresh(ops: Log, r: Op)
    requires FreshOp(ops, r)
    requires forall p :: p in r.prev ==> p in Resolved(ops)
    ensures Accepted(ops[r.hash := r]) == Accepted(ops)[r.hash := r]
    ensures r.hash !in Accepted(ops)
    ensures AddsUncited(Accepted(ops), Accepted(ops)[r.hash := r])
  {
    FreshAddsUncited(ops, r);
    UncitedKeepAccepted(ops, ops[r.hash := r]);
    assert Resolved(ops[r.hash := r]) == Resolved(ops) + {r.hash};
  }

  /** Reads the tombstoned keys off which deletes are effective. */
  lemma EffectiveKeys(before: Log, after: Log, r: Op, keys: set<string>)
    requires r.hash !in before && after == before[r.hash := r]
    requires forall h :: h in before && Effective(after, h) ==> before[h].target.Key() in keys
    requires Effective(after, r.hash) ==> r.target.Key() in keys
    requires forall k :: k in keys ==>
               (Effective(after, r.hash) && r.target.Key() == k)
               || exists h ::
                    h in before && Effective(before, h) && Effective(after, h) && before[h].target.Key() == k
    ensures TombstonedKeys(after) == keys
  {
    forall k ensures k in TombstonedKeys(after) <==> k in keys {
      if k in keys && !(Effective(after, r.hash) && r.target.Key() == k) {
        var h :| h in before && Effective(before, h) && Effective(after, h) && before[h].target.Key() == k;
        assert h in after && after[h] == before[h];
      }
    }
  }

  lemma FrontierReachesAll(before: Log, after: Log, r: Op, h: string)
    requires Acyclic(Cites(before)) && h in before
    requires Elements(r.prev) == Frontier(Cites(before))
    requires r.hash !in before && after == before[r.hash := r]
    ensures Reaches(Cites(after), r.prev, h)
  {
    var g, g' := Cites(before), Cites(after);
    var top := FrontierCovers(g, h);
    assert top in Elements(r.prev);
    if top == h {
      ReachesDirect(g', r.prev, h);
    } else {
      ReachesThrough(g, r.prev, top, h);
      var path :| IsPath(g, r.prev, path, h);
      assert IsPath(g', r.prev, path, h);
    }
  }

  /** An accepted delete that nothing cites always tombstones its target, and
    * changes no other: remove wins over everything concurrent with it. */
  lemma FreshDeleteWins(ops: Log, d: Op)
    requires forall h :: h in ops ==> ops[h].hash == h
    requires FreshOp(ops, d) && d.kind.Delete?
    requires forall p :: p in d.prev ==> p in Accepted(ops)
    ensures TombstonedKeys(Accepted(ops[d.hash := d])) == TombstonedKeys(Accepted(ops)) + {d.target.Key()}
  {
    FreshAddsUncited(ops, d);
    AcceptedPlusFresh(ops, d);
    var before := Accepted(ops);
    var after := before[d.hash := d];
    assert forall q :: q in after ==> d.hash !in after[q].prev;
    NothingReachesUncited(after, d);
    assert Effective(after, d.hash);
    forall h | h in before ensures Effective(after, h) <==> Effective(before, h) {
      OverriddenSame(before, after, before[h]);
    }
    EffectiveKeys(before, after, d, TombstonedKeys(before) + {d.target.Key()});
  }

  lemma NothingReachesUncited(accepted: Log, d: Op)
    requires forall q :: q in accepted ==> d.hash !in accepted[q].prev
    ensures !Overridden(accepted, d)
  {
    forall r | r in accepted ensures !Reaches(Cites(accepted), accepted[r].prev, d.hash) {
      var g := Cites(accepted);
      forall path ensures !IsPath(g, accepted[r].prev, path, d.hash) {
        if |path| > 1 && path[|path| - 2] in g {
          assert d.hash !in g[path[|path| - 2]];
        }
      }
    }
  }
}
