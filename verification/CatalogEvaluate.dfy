/** `Evaluate` and `Merge` as the source runs them: passes of loops over maps,
  * visited in an arbitrary order, deleting as they go. Each pass is proved to
  * compute what it means.
  */
module CatalogEvaluate {
  import opened Options
  import opened StringOrder
  import opened Dag
  import opened CatalogOp

  // ---------------------------------------------------------------------
  // Pass 1: parse and check signatures
  // ---------------------------------------------------------------------

  method VerifyTokens(s: Scheme, tokens: seq<string>) returns (accepted: Log, rejected: map<string, Reason>)
    requires s.Lawful()
    ensures accepted == VerifiedOps(s, Elements(tokens))
    ensures rejected == RejectedTokens(s, Elements(tokens))
  {
    accepted, rejected := map[], map[];
    for i := 0 to |tokens|
      invariant HoldsVerified(s, Elements(tokens[..i]), accepted)
      invariant HoldsRejected(s, Elements(tokens[..i]), rejected)
    {
      var token := tokens[i];
      ghost var before, after := Elements(tokens[..i]), Elements(tokens[..i + 1]);
      assert after == before + {token};
      ghost var was := rejected;
      if token != "" {
        var h := s.Hash(token);
        if h !in accepted && h !in rejected {
          match s.verify(token) {
            case Good(op) => accepted := accepted[h := op];
            case BadSignature => rejected := rejected[h := ReasonBadSignature];
            case Malformed => rejected := rejected[h := ReasonMalformed];
          }
        } else {
          SeenBefore(s, before, accepted, rejected, token);
        }
      }
      forall k | k in rejected ensures exists t :: RejectedAs(s, after, t, k, rejected[k]) {
        if k in was {
          var t :| RejectedAs(s, before, t, k, was[k]);
          assert RejectedAs(s, after, t, k, rejected[k]);
        } else {
          assert RejectedAs(s, after, token, k, rejected[k]);
        }
      }
    }
    assert tokens[..|tokens|] == tokens;
    VerifiedDetermined(s, Elements(tokens), accepted, VerifiedOps(s, Elements(tokens)));
    RejectedDetermined(s, Elements(tokens), rejected, RejectedTokens(s, Elements(tokens)));
  }

  lemma SeenBefore(s: Scheme, tokens: set<string>, accepted: Log, rejected: map<string, Reason>, token: string)
    requires s.Lawful() && HoldsVerified(s, tokens, accepted) && HoldsRejected(s, tokens, rejected)
    requires s.Hash(token) in accepted || s.Hash(token) in rejected
    ensures token in tokens
  {
    var h := s.Hash(token);
    if h in accepted {
      s.HashInjective(accepted[h].token, token);
    } else {
      var t :| RejectedAs(s, tokens, t, h, rejected[h]);
      s.HashInjective(t, token);
    }
  }

  // ---------------------------------------------------------------------
  // Pass 2: evict to a fixpoint
  // ---------------------------------------------------------------------

  /** What eviction keeps true: only unresolvable ops have gone, each with its reason. */
  ghost predicate Evicting(ops: Log, malformed: map<string, Reason>, accepted: Log, rejected: map<string, Reason>) {
    && accepted.Keys <= ops.Keys
    && (forall h :: h in accepted ==> accepted[h] == ops[h])
    && Resolved(ops) <= accepted.Keys
    && rejected == malformed + BadPrevs(ops.Keys - accepted.Keys)
  }

  /** Drops every op whose past is not wholly present, however the map is walked.
    * One sweep may drop an op that an earlier sweep relied on, hence the loop. */
  method EvictUnresolved(ops: Log, malformed: map<string, Reason>)
    returns (accepted: Log, rejected: map<string, Reason>)
    ensures accepted == Accepted(ops)
    ensures rejected == malformed + BadPrevs(ops.Keys - Resolved(ops))
    ensures forall h :: h in ops ==>
              (h in accepted && accepted[h] == ops[h]) || (h in rejected && rejected[h] == ReasonBadPrev)
  {
    hide Evicting, PrevClosed;
    accepted, rejected := ops, malformed;
    EvictNone(ops, malformed);
    var evicted := true;
    while evicted
      invariant Evicting(ops, malformed, accepted, rejected)
      invariant !evicted ==> PrevClosed(ops, accepted.Keys)
      decreases accepted.Keys, evicted
    {
      accepted, rejected, evicted := Sweep(ops, malformed, accepted, rejected);
    }
    EvictedAll(ops, malformed, accepted, rejected);
  }

  lemma EvictNone(ops: Log, malformed: map<string, Reason>)
    ensures Evicting(ops, malformed, ops, malformed)
  {
  }

  /** What is left when nothing more goes is the greatest set that can stand. */
  lemma EvictedAll(ops: Log, malformed: map<string, Reason>, accepted: Log, rejected: map<string, Reason>)
    requires Evicting(ops, malformed, accepted, rejected) && PrevClosed(ops, accepted.Keys)
    ensures accepted == Accepted(ops)
    ensures rejected == malformed + BadPrevs(ops.Keys - Resolved(ops))
  {
    ClosedIsResolved(ops, accepted.Keys);
    assert accepted.Keys == Resolved(ops);
  }

  /** One pass over the accepted ops, deleting from the map it walks. */
  method Sweep(ghost ops: Log, ghost malformed: map<string, Reason>, before: Log, rejectedBefore: map<string, Reason>)
    returns (accepted: Log, rejected: map<string, Reason>, evicted: bool)
    requires Evicting(ops, malformed, before, rejectedBefore)
    ensures Evicting(ops, malformed, accepted, rejected)
    ensures evicted ==> accepted.Keys < before.Keys
    ensures !evicted ==> accepted == before && PrevClosed(ops, accepted.Keys)
  {
    accepted, rejected, evicted := before, rejectedBefore, false;
    var pending := before.Keys;
    while pending != {}
      invariant pending <= accepted.Keys <= before.Keys
      invariant Evicting(ops, malformed, accepted, rejected)
      invariant evicted ==> accepted.Keys < before.Keys
      invariant !evicted ==> accepted == before
      invariant !evicted ==> forall h, p :: h in accepted.Keys - pending && p in accepted[h].prev ==> p in accepted
      decreases pending
    {
      var h :| h in pending;
      pending := pending - {h};
      var missing := FirstMissing(accepted, accepted[h].prev);
      if missing.Some? {
        MissingPastUnresolved(ops, accepted.Keys, h, missing.value);
        EvictOne(ops, malformed, accepted, rejected, h);
        accepted, rejected, evicted := accepted - {h}, rejected[h := ReasonBadPrev], true;
      }
    }
  }

  method FirstMissing(accepted: Log, prev: seq<string>) returns (missing: Option<string>)
    ensures missing.None? ==> forall p :: p in prev ==> p in accepted
    ensures missing.Some? ==> missing.value in prev && missing.value !in accepted
  {
    for i := 0 to |prev|
      invariant forall j :: 0 <= j < i ==> prev[j] in accepted
    {
      if prev[i] !in accepted {
        return Some(prev[i]);
      }
    }
    return None;
  }

  lemma EvictOne(ops: Log, malformed: map<string, Reason>, accepted: Log, rejected: map<string, Reason>, h: string)
    requires Evicting(ops, malformed, accepted, rejected) && h in accepted && h !in Resolved(ops)
    ensures Evicting(ops, malformed, accepted - {h}, rejected[h := ReasonBadPrev])
  {
    hide Resolved, BadPrevs;
    assert ops.Keys - (accepted - {h}).Keys == ops.Keys - accepted.Keys + {h};
    OneMoreBadPrev(malformed, ops.Keys - accepted.Keys, h);
  }

  lemma OneMoreBadPrev(malformed: map<string, Reason>, gone: set<string>, h: string)
    ensures malformed + BadPrevs(gone + {h}) == (malformed + BadPrevs(gone))[h := ReasonBadPrev]
  {
  }

  // ---------------------------------------------------------------------
  // Pass 3: remove wins, per target
  // ---------------------------------------------------------------------

  datatype Group = Group(target: Target, deletes: seq<Op>, restores: seq<Op>)

  ghost function OpsOf(accepted: Log, among: set<string>, kind: Kind, key: string): set<Op> {
    set h | h in among && h in accepted && accepted[h].kind == kind && accepted[h].target.Key() == key :: accepted[h]
  }

  ghost predicate GroupOk(accepted: Log, among: set<string>, k: string, g: Group) {
    && g.target.Key() == k
    && (exists h :: h in accepted && accepted[h].target == g.target)
    && (set o | o in g.deletes) == OpsOf(accepted, among, Delete, k)
    && (set o | o in g.restores) == OpsOf(accepted, among, Restore, k)
  }

  ghost predicate GroupsOk(accepted: Log, among: set<string>, groups: map<string, Group>) {
    && (forall h :: h in among && h in accepted ==> accepted[h].target.Key() in groups)
    && (forall k :: k in groups ==> GroupOk(accepted, among, k, groups[k]))
  }

  method GroupByTarget(accepted: Log) returns (groups: map<string, Group>)
    ensures GroupsOk(accepted, accepted.Keys, groups)
  {
    groups := map[];
    var pending := accepted.Keys;
    while pending != {}
      invariant pending <= accepted.Keys
      invariant GroupsOk(accepted, accepted.Keys - pending, groups)
      decreases pending
    {
      var h :| h in pending;
      var op := accepted[h];
      var key := op.target.Key();
      ghost var done := accepted.Keys - pending;
      pending := pending - {h};
      assert accepted.Keys - pending == done + {h};
      var g' := Joined(op, groups);
      OneMoreGrouped(accepted, done, groups, h, g');
      groups := groups[key := g'];
    }
    assert accepted.Keys - pending == accepted.Keys;
  }

  lemma OneMoreGrouped(accepted: Log, done: set<string>, groups: map<string, Group>, h: string, g': Group)
    requires GroupsOk(accepted, done, groups) && h in accepted && h !in done
    requires g' == Joined(accepted[h], groups)
    ensures GroupsOk(accepted, done + {h}, groups[accepted[h].target.Key() := g'])
  {
    var op := accepted[h];
    var key := op.target.Key();
    var groups' := groups[key := g'];
    forall k | k in groups'
      ensures GroupOk(accepted, done + {h}, k, groups'[k])
    {
      OneMoreOp(accepted, done, h, Delete, k);
      OneMoreOp(accepted, done, h, Restore, k);
      if k != key {
        assert GroupOk(accepted, done, k, groups[k]);
      } else if key in groups {
        assert GroupOk(accepted, done, key, groups[key]);
        GroupGrows(groups[key], op);
      } else {
        assert OpsOf(accepted, done, Delete, key) == {} && OpsOf(accepted, done, Restore, key) == {};
        GroupGrows(Group(op.target, [], []), op);
      }
    }
  }

  /** An op's group once the op has joined it. */
  function Joined(op: Op, groups: map<string, Group>): Group {
    var key := op.target.Key();
    var g := if key in groups then groups[key] else Group(op.target, [], []);
    match op.kind
    case Delete => g.(deletes := g.deletes + [op])
    case Restore => g.(restores := g.restores + [op])
    case Acquire => g
  }

  lemma GroupGrows(g: Group, op: Op)
    ensures (set o | o in g.deletes + [op]) == (set o | o in g.deletes) + {op}
    ensures (set o | o in g.restores + [op]) == (set o | o in g.restores) + {op}
  {
  }

  lemma OneMoreOp(accepted: Log, done: set<string>, h: string, kind: Kind, key: string)
    requires h in accepted
    ensures OpsOf(accepted, done + {h}, kind, key) ==
            OpsOf(accepted, done, kind, key)
            + if accepted[h].kind == kind && accepted[h].target.Key() == key then {accepted[h]} else {}
  {
  }

  /** Nothing in `some` is the target, and all that it cites has been seen. */
  ghost predicate Explored(accepted: Log, some: set<string>, seen: set<string>, target: string) {
    && target !in some
    && forall q, p :: q in some && q in accepted && p in accepted[q].prev ==> p in seen
  }

  /** Depth-first search of an op's past. `visited` guards against a graph that
    * is not acyclic: the search terminates on any graph. */
  method Walk(accepted: Log, o: Op, target: string, visited: set<string>) returns (found: bool, seen: set<string>)
    ensures visited <= seen
    ensures found ==> Reaches(Cites(accepted), o.prev, target)
    ensures !found ==> target !in o.prev && forall p :: p in o.prev ==> p in seen
    ensures !found ==> Explored(accepted, seen - visited, seen, target)
    decreases accepted.Keys - visited
  {
    ghost var g := Cites(accepted);
    seen := visited;
    for i := 0 to |o.prev|
      invariant visited <= seen
      invariant forall j :: 0 <= j < i ==> o.prev[j] in seen && o.prev[j] != target
      invariant Explored(accepted, seen - visited, seen, target)
    {
      var p := o.prev[i];
      if p == target {
        ReachesDirect(g, o.prev, p);
        return true, seen;
      }
      if p !in seen {
        ghost var before := seen;
        seen := seen + {p};
        if p in accepted {
          assert p in accepted.Keys - visited && p !in accepted.Keys - seen;
          ghost var mid := seen;
          var deeper;
          deeper, seen := Walk(accepted, accepted[p], target, seen);
          if deeper {
            ReachesThrough(g, o.prev, p, target);
            return true, seen;
          }
          assert seen - visited == (before - visited) + {p} + (seen - mid);
        } else {
          assert seen - visited == (before - visited) + {p};
        }
      }
    }
    return false, seen;
  }

  method ClosureContains(accepted: Log, op: Op, target: string) returns (found: bool)
    ensures found <==> Reaches(Cites(accepted), op.prev, target)
  {
    var seen;
    found, seen := Walk(accepted, op, target, {});
    assert seen - {} == seen;
    if !found {
      NotReached(Cites(accepted), op.prev, seen, target);
    }
  }

  method DecideTombstones(accepted: Log, groups: map<string, Group>) returns (tombstoned: map<string, Target>)
    requires GroupsOk(accepted, accepted.Keys, groups)
    ensures IsTombstoneMap(accepted, tombstoned)
  {
    tombstoned := map[];
    var pending := groups.Keys;
    while pending != {}
      invariant pending <= groups.Keys
      invariant forall k :: k in tombstoned ==> k in groups && tombstoned[k] == groups[k].target
      invariant tombstoned.Keys == TombstonedKeys(accepted) * (groups.Keys - pending)
      decreases pending
    {
      var key :| key in pending;
      pending := pending - {key};
      assert GroupOk(accepted, accepted.Keys, key, groups[key]);
      var dead := HoldsEffectiveDelete(accepted, key, groups[key]);
      if dead {
        tombstoned := tombstoned[key := groups[key].target];
      }
    }
  }

  /** The nested search of one group: some delete that no restore follows. */
  method HoldsEffectiveDelete(accepted: Log, key: string, g: Group) returns (dead: bool)
    requires (set o | o in g.deletes) == OpsOf(accepted, accepted.Keys, Delete, key)
    requires (set o | o in g.restores) == OpsOf(accepted, accepted.Keys, Restore, key)
    ensures dead <==> key in TombstonedKeys(accepted)
  {
    dead := false;
    for i := 0 to |g.deletes|
      invariant !dead
      invariant forall j :: 0 <= j < i ==> Overridden(accepted, g.deletes[j])
    {
      var d := g.deletes[i];
      assert d in OpsOf(accepted, accepted.Keys, Delete, key);
      var overridden := false;
      for j := 0 to |g.restores|
        invariant !overridden
        invariant forall m :: 0 <= m < j ==> !Lifts(accepted, g.restores[m], d)
      {
        assert g.restores[j] in OpsOf(accepted, accepted.Keys, Restore, key);
        overridden := ClosureContains(accepted, g.restores[j], d.hash);
        if overridden {
          assert Lifts(accepted, g.restores[j], d);
          break;
        }
      }
      if !overridden {
        NoRestoreLifts(accepted, key, g.restores, d);
        return true;
      }
    }
    AllOverridden(accepted, key, g.deletes);
  }

  lemma AllOverridden(accepted: Log, key: string, deletes: seq<Op>)
    requires (set o | o in deletes) == OpsOf(accepted, accepted.Keys, Delete, key)
    requires forall j :: 0 <= j < |deletes| ==> Overridden(accepted, deletes[j])
    ensures key !in TombstonedKeys(accepted)
  {
    forall h | h in accepted && accepted[h].kind.Delete? && accepted[h].target.Key() == key
      ensures Overridden(accepted, accepted[h])
    {
      assert accepted[h] in OpsOf(accepted, accepted.Keys, Delete, key);
      assert accepted[h] in (set o | o in deletes);
    }
  }

  lemma NoRestoreLifts(accepted: Log, key: string, restores: seq<Op>, d: Op)
    requires (set o | o in restores) == OpsOf(accepted, accepted.Keys, Restore, key)
    requires d in OpsOf(accepted, accepted.Keys, Delete, key)
    requires forall m :: 0 <= m < |restores| ==> !Lifts(accepted, restores[m], d)
    ensures key in TombstonedKeys(accepted)
  {
    var h :| h in accepted && accepted[h] == d && accepted[h].kind == Delete && accepted[h].target.Key() == key;
    forall r | r in accepted && accepted[r].kind.Restore? && accepted[r].target.Key() == key
      ensures !Lifts(accepted, accepted[r], d)
    {
      assert accepted[r] in OpsOf(accepted, accepted.Keys, Restore, key);
      assert accepted[r] in (set o | o in restores);
    }
    assert Effective(accepted, h);
  }

  // ---------------------------------------------------------------------
  // Pass 4: newest selection wins; and the frontier
  // ---------------------------------------------------------------------

  method PickAcquisitions(accepted: Log, dead: set<string>) returns (best: map<string, Op>)
    requires forall h :: h in accepted ==> accepted[h].hash == h
    ensures IsAcquisitionsOf(accepted, dead, accepted.Keys, best)
    ensures HoldLatest(accepted, dead, best)
  {
    hide HoldLatest;
    best := map[];
    var pending := accepted.Keys;
    while pending != {}
      invariant pending <= accepted.Keys
      invariant IsAcquisitionsOf(accepted, dead, accepted.Keys - pending, best)
      decreases pending
    {
      var h :| h in pending;
      ghost var done := accepted.Keys - pending;
      pending := pending - {h};
      assert accepted.Keys - pending == done + {h};
      var op := accepted[h];
      if op.kind.Acquire? && op.acquire.Some? && op.target.Key() !in dead {
        assert LiveAcquire(accepted, dead, h);
        var key := KeyOfAcquire(op);
        ghost var was := best;
        if key !in best {
          best := best[key := op];
          NewcomerWins(accepted, dead, done, was, h);
        } else {
          assert Newest(accepted, dead, done, key, best[key]);
          if NewerAcquire(op, best[key]) {
            best := best[key := op];
            NewcomerWins(accepted, dead, done, was, h);
          } else {
            IncumbentStays(accepted, dead, done, best, h);
          }
        }
      }
    }
    assert accepted.Keys - pending == accepted.Keys;
    LatestWins(accepted, dead, best);
  }

  lemma NewcomerWins(accepted: Log, dead: set<string>, done: set<string>, m: map<string, Op>, h: string)
    requires IsAcquisitionsOf(accepted, dead, done, m) && LiveAcquire(accepted, dead, h)
    requires var k := KeyOfAcquire(accepted[h]);
             k in m ==> m[k].acquire.Some? && NewerAcquire(accepted[h], m[k])
    ensures IsAcquisitionsOf(accepted, dead, done + {h}, m[KeyOfAcquire(accepted[h]) := accepted[h]])
  {
    var k := KeyOfAcquire(accepted[h]);
    forall x | x in done && LiveAcquire(accepted, dead, x) && KeyOfAcquire(accepted[x]) == k
      ensures accepted[x] == accepted[h] || NewerAcquire(accepted[h], accepted[x])
    {
      assert Newest(accepted, dead, done, k, m[k]);
      if accepted[x] != m[k] {
        NewerTransitive(accepted[h], m[k], accepted[x]);
      }
    }
    assert h in done + {h};
    assert Newest(accepted, dead, done + {h}, k, accepted[h]);
    forall key | key in m && key != k ensures Newest(accepted, dead, done + {h}, key, m[key]) {
      StillNewest(accepted, dead, done, key, m[key], h);
    }
  }

  lemma StillNewest(accepted: Log, dead: set<string>, done: set<string>, k: string, op: Op, h: string)
    requires Newest(accepted, dead, done, k, op)
    requires LiveAcquire(accepted, dead, h) && KeyOfAcquire(accepted[h]) == k ==>
               accepted[h] == op || NewerAcquire(op, accepted[h])
    ensures Newest(accepted, dead, done + {h}, k, op)
  {
    var x :| x in done && LiveAcquire(accepted, dead, x) && accepted[x] == op;
    assert x in done + {h};
  }

  lemma IncumbentStays(accepted: Log, dead: set<string>, done: set<string>, m: map<string, Op>, h: string)
    requires forall x :: x in accepted ==> accepted[x].hash == x
    requires IsAcquisitionsOf(accepted, dead, done, m) && LiveAcquire(accepted, dead, h) && h !in done
    requires var k := KeyOfAcquire(accepted[h]);
             k in m && m[k].acquire.Some? && !NewerAcquire(accepted[h], m[k])
    ensures IsAcquisitionsOf(accepted, dead, done + {h}, m)
  {
    var k := KeyOfAcquire(accepted[h]);
    assert Newest(accepted, dead, done, k, m[k]);
    NewerTotal(accepted[h], m[k]);
    forall key | key in m ensures Newest(accepted, dead, done + {h}, key, m[key]) {
      StillNewest(accepted, dead, done, key, m[key], h);
    }
  }

  /** The frontier: ops no accepted op cites, in hash order. */
  method Heads(accepted: Log) returns (out: seq<string>)
    ensures StrictlySorted(out)
    ensures Elements(out) == Frontier(Cites(accepted))
    ensures forall i, j :: 0 <= i < j < |out| ==> Less(out[i], out[j])
    ensures forall h :: h in out <==> h in accepted && forall q :: q in accepted ==> h !in accepted[q].prev
  {
    ghost var g := Cites(accepted);
    var cited: set<string> := {};
    var pending := accepted.Keys;
    while pending != {}
      invariant pending <= accepted.Keys
      invariant forall p :: p in cited <==> exists q :: q in accepted.Keys - pending && p in accepted[q].prev
      decreases pending
    {
      var h :| h in pending;
      ghost var was := accepted.Keys - pending;
      pending := pending - {h};
      assert accepted.Keys - pending == was + {h};
      cited := cited + (set p | p in accepted[h].prev);
    }
    forall p ensures p in cited <==> CitedIn(g, p) {
      if p in cited {
        var q :| q in accepted.Keys - pending && p in accepted[q].prev;
        assert q in g && p in g[q];
      }
      if CitedIn(g, p) {
        var q :| q in g && p in g[q];
        assert q in accepted.Keys - pending && p in accepted[q].prev;
      }
    }
    var uncited: seq<string> := [];
    pending := accepted.Keys;
    while pending != {}
      invariant pending <= accepted.Keys
      invariant forall x :: x in uncited <==> x in accepted.Keys - pending && x !in cited
      invariant forall i, j :: 0 <= i < j < |uncited| ==> uncited[i] != uncited[j]
      decreases pending
    {
      var h :| h in pending;
      pending := pending - {h};
      if h !in cited {
        uncited := uncited + [h];
      }
    }
    out := Sort(uncited);
    forall h ensures h in out <==> h in accepted && forall q :: q in accepted ==> h !in accepted[q].prev {
      assert h in out <==> h in Elements(out);
      FrontierIff(accepted, h);
    }
  }

  lemma FrontierIff(accepted: Log, h: string)
    ensures h in Frontier(Cites(accepted)) <==> h in accepted && forall q :: q in accepted ==> h !in accepted[q].prev
  {
    var g := Cites(accepted);
    if q :| q in accepted && h in accepted[q].prev {
      assert q in g && h in g[q];
    }
  }

  /** The ids an op being signed will cite: the caller's heads, sorted, without
    * duplicates or empties. More than MAX_PREV of them and nothing is signed. */
  method PrevForSigning(prev: seq<string>) returns (r: Option<seq<string>>)
    ensures r.Some? <==> |Elements(prev) - {""}| <= 64
    ensures r.Some? ==> forall i, j :: 0 <= i < j < |r.value| ==> Less(r.value[i], r.value[j])
    ensures r.Some? ==> StrictlySorted(r.value) && Elements(r.value) == Elements(prev) - {""}
  {
    var seen: set<string> := {};
    var out: seq<string> := [];
    for i := 0 to |prev|
      invariant seen == Elements(prev[..i]) - {""}
      invariant forall x :: x in out <==> x in seen
      invariant forall j, k :: 0 <= j < k < |out| ==> out[j] != out[k]
    {
      assert Elements(prev[..i + 1]) == Elements(prev[..i]) + {prev[i]};
      if prev[i] != "" && prev[i] !in seen {
        seen, out := seen + {prev[i]}, out + [prev[i]];
      }
    }
    assert prev[..|prev|] == prev;
    assert Elements(out) == seen;
    out := Sort(out);
    SortedSize(out);
    return if |out| > MAX_PREV then None else Some(out);
  }

  lemma {:induction false} SortedSize(s: seq<string>)
    requires StrictlySorted(s)
    ensures |Elements(s)| == |s|
  {
    if s != [] {
      SortedSize(s[1..]);
      forall y ensures y in Elements(s[1..]) <==> y in Elements(s) && y != s[0] {
        TailElements(s, y);
      }
      assert Elements(s) == Elements(s[1..]) + {s[0]};
    }
  }

  // ---------------------------------------------------------------------
  // Evaluate and Merge
  // ---------------------------------------------------------------------

  lemma OwnHashes(s: Scheme, tokens: set<string>)
    requires s.Lawful()
    ensures forall h :: h in Accepted(VerifiedOps(s, tokens)) ==> Accepted(VerifiedOps(s, tokens))[h].hash == h
  {
  }

  lemma NoneDead(accepted: Log, dead: set<string>, m: map<string, Op>)
    requires HoldLatest(accepted, dead, m)
    ensures forall k :: k in m ==> m[k].target.Key() !in dead
  {
  }

  lemma ViewAssembled(s: Scheme, tokens: set<string>, v: View)
    requires s.Lawful()
    requires var ops := VerifiedOps(s, tokens);
             && v.accepted == Accepted(ops)
             && v.rejected == RejectedTokens(s, tokens) + BadPrevs(ops.Keys - Resolved(ops))
    requires IsTombstoneMap(v.accepted, v.tombstoned)
    requires StrictlySorted(v.heads) && Elements(v.heads) == Frontier(Cites(v.accepted))
    requires IsAcquisitionsOf(v.accepted, v.tombstoned.Keys, v.accepted.Keys, v.acquisitions)
    ensures IsView(s, tokens, v)
  {
  }

  /** The view of a bag of tokens. */
  method Evaluate(s: Scheme, tokens: seq<string>) returns (v: View)
    requires s.Lawful()
    ensures IsView(s, Elements(tokens), v)
    ensures HoldLatest(v.accepted, v.tombstoned.Keys, v.acquisitions)
    ensures forall k :: k in v.acquisitions ==> v.acquisitions[k].target.Key() !in v.tombstoned
    ensures forall h :: h in v.heads <==> h in v.accepted && forall q :: q in v.accepted ==> h !in v.accepted[q].prev
    ensures forall t :: t in tokens && t != "" ==>
              && (s.Hash(t) in v.accepted <==> s.Hash(t) !in v.rejected)
              && (s.verify(t) == BadSignature <==>
                    s.Hash(t) in v.rejected && v.rejected[s.Hash(t)] == ReasonBadSignature)
              && (s.verify(t) == Malformed <==> s.Hash(t) in v.rejected && v.rejected[s.Hash(t)] == ReasonMalformed)
              && (s.verify(t).Good? && s.Hash(t) !in v.accepted ==> v.rejected[s.Hash(t)] == ReasonBadPrev)
  {
    hide IsView, HoldLatest, IsAcquisitionsOf, IsTombstoneMap, StrictlySorted, Frontier, Resolved, Accepted;
    hide HoldsVerified, HoldsRejected, GroupsOk;
    var ops, malformed := VerifyTokens(s, tokens);
    var accepted, rejected := EvictUnresolved(ops, malformed);
    OwnHashes(s, Elements(tokens));
    var groups := GroupByTarget(accepted);
    var tombstoned := DecideTombstones(accepted, groups);
    var acquisitions := PickAcquisitions(accepted, tombstoned.Keys);
    var heads := Heads(accepted);
    v := View(tombstoned, accepted, rejected, heads, acquisitions);
    assert IsView(s, Elements(tokens), v) by {
      ViewAssembled(s, Elements(tokens), v);
    }
    NoneDead(accepted, tombstoned.Keys, acquisitions);
    forall t | t in tokens && t != ""
      ensures s.Hash(t) in v.accepted <==> s.Hash(t) !in v.rejected
      ensures s.verify(t) == BadSignature <==>
                s.Hash(t) in v.rejected && v.rejected[s.Hash(t)] == ReasonBadSignature
      ensures s.verify(t) == Malformed <==> s.Hash(t) in v.rejected && v.rejected[s.Hash(t)] == ReasonMalformed
      ensures s.verify(t).Good? && s.Hash(t) !in v.accepted ==> v.rejected[s.Hash(t)] == ReasonBadPrev
    {
      ViewRejects(s, Elements(tokens), v, t);
    }
  }

  /** The CRDT join: the union, de-duplicated by hash, in hash order. */
  method Merge(s: Scheme, sets: seq<seq<string>>) returns (out: seq<string>)
    requires s.Lawful()
    ensures IsMerge(s, AllTokens(sets), out)
    ensures forall t :: t in out <==> t != "" && exists i :: 0 <= i < |sets| && t in sets[i]
    ensures forall i, j :: 0 <= i < j < |out| ==> Less(s.Hash(out[i]), s.Hash(out[j]))
  {
    var byHash: map<string, string> := map[];
    for i := 0 to |sets|
      invariant forall h :: h in byHash ==> byHash[h] != "" && s.Hash(byHash[h]) == h
      invariant forall t :: t != "" ==> (s.Hash(t) in byHash <==> t in AllTokens(sets[..i]))
    {
      for j := 0 to |sets[i]|
        invariant forall h :: h in byHash ==> byHash[h] != "" && s.Hash(byHash[h]) == h
        invariant forall t :: t != "" ==> (s.Hash(t) in byHash <==> t in AllTokens(sets[..i]) || t in sets[i][..j])
      {
        var t := sets[i][j];
        assert sets[i][..j + 1] == sets[i][..j] + [t];
        if t != "" {
          forall u | u != "" && s.Hash(u) == s.Hash(t) ensures u == t {
            s.HashInjective(u, t);
          }
          byHash := byHash[s.Hash(t) := t];
        }
      }
      assert sets[i][..|sets[i]|] == sets[i];
      assert sets[..i + 1] == sets[..i] + [sets[i]];
      forall t ensures t in AllTokens(sets[..i + 1]) <==> t in AllTokens(sets[..i]) || t in sets[i] {
        MoreSets(sets, i, t);
      }
    }
    assert sets[..|sets|] == sets;

    var hashes: seq<string> := [];
    var pending := byHash.Keys;
    while pending != {}
      invariant pending <= byHash.Keys
      invariant forall h :: h in hashes <==> h in byHash.Keys - pending
      invariant forall i, j :: 0 <= i < j < |hashes| ==> hashes[i] != hashes[j]
      decreases pending
    {
      var h :| h in pending;
      assert h !in hashes;
      pending := pending - {h};
      hashes := hashes + [h];
    }
    hashes := Sort(hashes);
    assert forall h :: h in hashes <==> h in Elements(hashes);
    out := [];
    for i := 0 to |hashes|
      invariant |out| == i
      invariant forall k :: 0 <= k < i ==> hashes[k] in byHash && out[k] == byHash[hashes[k]]
    {
      assert hashes[i] in Elements(hashes);
      out := out + [byHash[hashes[i]]];
    }
    assert Hashes(s, out) == hashes;
    forall t ensures t in out <==> t in AllTokens(sets) && t != "" {
      if t != "" && s.Hash(t) in byHash {
        assert s.Hash(t) in hashes;
        var k :| 0 <= k < |hashes| && hashes[k] == s.Hash(t);
        s.HashInjective(out[k], t);
      }
    }
  }

  lemma MoreSets(sets: seq<seq<string>>, i: nat, t: string)
    requires i < |sets|
    ensures t in AllTokens(sets[..i + 1]) <==> t in AllTokens(sets[..i]) || t in sets[i]
  {
    if t in AllTokens(sets[..i]) {
      var k :| 0 <= k < i && t in sets[..i][k];
      assert t in sets[..i + 1][k];
    }
    if t in sets[i] {
      assert t in sets[..i + 1][i];
    }
  }
}
