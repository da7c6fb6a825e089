/** The store of the catalog op-log: an append-only table of ops, the
  * materialised table of tombstoned works, and the live works it suppresses.
  * Every method is one transaction. The tables are the fields; `Next` says what
  * each transaction does to them.
  */
module CatalogTomb {
  import opened Options
  import opened StringOrder
  import opened CatalogOp
  import opened TargetKeys
  import CatalogEvaluate

  datatype State = State(ops: Log, tombstones: map<Target, string>, works: set<Target>)

  /** The transactions, every writer of the three tables among them. `ResolveWork`
    * is the guarded creation of an ingest or a fan-out. `WantWork` is the creation
    * for a want and `Relabel` a correction of a work's content type; neither
    * consults a tombstone. `DeleteWork` carries the op it signed, if it can sign. */
  datatype Event =
    | Record(tokens: seq<string>)
    | Reconcile
    | ResolveWork(target: Target)
    | WantWork(target: Target)
    | Relabel(from: Target, contentType: string)
    | DeleteWork(target: Target, followed: bool, token: Option<string>)

  /** The content types a correction may name. */
  const CONTENT_TYPES := {"movie", "series", "music", "book", "document", "game", "rom"}
  const ROM := "rom"

  // ---------------------------------------------------------------------
  // What each transaction does
  // ---------------------------------------------------------------------

  ghost function RowKeys(st: State): set<string> {
    set t | t in st.tombstones :: t.Key()
  }

  ghost predicate AllVerify(s: Scheme, tokens: seq<string>) {
    forall t :: t in tokens ==> s.verify(t).Good?
  }

  /** Insert-or-ignore by op hash. */
  ghost function LogAfter(s: Scheme, ops: Log, tokens: seq<string>): Log
    requires s.Lawful()
  {
    VerifiedOps(s, Elements(tokens)) + ops
  }

  ghost predicate OnlyAcquires(s: Scheme, tokens: seq<string>) {
    tokens != [] && forall t :: t in tokens ==> s.verify(t).Good? && s.verify(t).op.kind.Acquire?
  }

  ghost predicate Cited(ops: Log, hashes: set<string>) {
    exists q, p :: q in ops && p in ops[q].prev && p in hashes
  }

  /** Tombstoned targets that have no row yet. */
  ghost function NewlyDead(st: State, m: map<string, Target>): set<Target> {
    set k | k in m && k !in RowKeys(st) :: m[k]
  }

  /** The provenance of a new row: the earliest accepted delete of the key. */
  ghost predicate EarliestDelete(accepted: Log, key: string, h: string) {
    EarliestAmong(accepted, accepted.Keys, key, h)
  }

  /** The table against a view: rows still tombstoned stay as they are, missing
    * rows are added and take the live work with them, and every other row goes
    * if its key splits back into it. */
  ghost predicate Reconciled(st: State, m: map<string, Target>, st': State) {
    var accepted := Accepted(st.ops);
    && st'.ops == st.ops
    && st'.tombstones.Keys ==
         (set t | t in st.tombstones && (t.Key() in m || SplitKey(t.Key()) != t)) + NewlyDead(st, m)
    && (forall t :: t in st'.tombstones && t in st.tombstones ==> st'.tombstones[t] == st.tombstones[t])
    && (forall t :: t in st'.tombstones && t !in st.tombstones ==> EarliestDelete(accepted, t.Key(), st'.tombstones[t]))
    && st'.works == st.works - NewlyDead(st, m)
  }

  ghost predicate ReconcileStep(st: State, st': State) {
    exists m :: IsTombstoneMap(Accepted(st.ops), m) && Reconciled(st, m, st')
  }

  /** Append, then re-materialise unless nothing was fresh, or the batch was only
    * acquires and nothing recorded cites a fresh one. */
  ghost predicate RecordStep(s: Scheme, st: State, tokens: seq<string>, st': State)
    requires s.Lawful()
  {
    if !AllVerify(s, tokens) then st' == st
    else
      var ops' := LogAfter(s, st.ops, tokens);
      var added := ops'.Keys - st.ops.Keys;
      if added == {} then st' == st
      else if OnlyAcquires(s, tokens) && !Cited(ops', added) then st' == st.(ops := ops')
      else ReconcileStep(st.(ops := ops'), st')
  }

  /** The natural key after a correction: the work key stays. */
  function Relabelled(from: Target, contentType: string): Target {
    Target(contentType, from.workKey)
  }

  /** Whether a correction goes through: of a live work, to a known type, into no
    * rom, and onto no other live work's natural key. */
  predicate Relabels(st: State, from: Target, contentType: string) {
    && from in st.works && contentType in CONTENT_TYPES
    && (contentType == ROM ==> from.contentType == ROM)
    && (Relabelled(from, contentType) in st.works ==> Relabelled(from, contentType) == from)
  }

  /** A followed work is not deleted, nor one whose op does not stand. */
  ghost predicate Deletes(s: Scheme, st: State, e: Event)
    requires e.DeleteWork?
  {
    e.target in st.works && !e.followed && (e.token.Some? ==> s.verify(e.token.value).Good?)
  }

  ghost predicate Next(s: Scheme, st: State, e: Event, st': State)
    requires s.Lawful()
  {
    match e
    case Record(tokens) => RecordStep(s, st, tokens, st')
    case Reconcile => ReconcileStep(st, st')
    case ResolveWork(t) => st' == if t in st.tombstones then st else st.(works := st.works + {t})
    case WantWork(t) => st' == st.(works := st.works + {t})
    case Relabel(from, contentType) =>
      st' == if Relabels(st, from, contentType)
             then st.(works := st.works - {from} + {Relabelled(from, contentType)}) else st
    case DeleteWork(t, followed, token) =>
      if !Deletes(s, st, e) then st' == st
      else if token == None then st' == st.(works := st.works - {t})
      else RecordStep(s, st.(works := st.works - {t}), [token.value], st')
  }

  // ---------------------------------------------------------------------
  // What a caller sees of a transaction
  // ---------------------------------------------------------------------

  /** The log keeps every op it held and gains the batch's, each under the hash of
    * its own token. */
  ghost predicate Gains(s: Scheme, ops: Log, tokens: seq<string>, ops': Log)
    requires s.Lawful()
  {
    && (forall h :: h in ops ==> h in ops' && ops'[h] == ops[h])
    && (forall t :: t in tokens ==> s.Hash(t) in ops' && Good(ops'[s.Hash(t)]) == s.verify(t))
    && (forall h :: h in ops' ==> h in ops || exists t :: t in tokens && s.Hash(t) == h)
  }

  /** Only acquires, and nothing in the log cites an op that is new to it. */
  ghost predicate Quiet(s: Scheme, ops: Log, tokens: seq<string>, ops': Log) {
    && (forall t :: t in tokens ==> s.verify(t).Good? && s.verify(t).op.kind.Acquire?)
    && forall q, p :: q in ops' && p in ops'[q].prev && p in ops' ==> p in ops
  }

  /** `h` is a delete of `key`, and every other was issued later, or at the same time
    * under a greater hash. */
  ghost predicate FirstDelete(accepted: Log, key: string, h: string) {
    && h in accepted && accepted[h].kind.Delete? && accepted[h].target.Key() == key
    && forall x :: x in accepted && x != h && accepted[x].kind.Delete? && accepted[x].target.Key() == key ==>
         accepted[h].issuedAt < accepted[x].issuedAt
         || (accepted[h].issuedAt == accepted[x].issuedAt && Less(h, x))
  }

  ghost predicate KeysHaveRows(keys: set<string>, st': State) {
    forall k :: k in keys ==> exists t :: t in st'.tombstones && t.Key() == k
  }

  /** A row that stood still stands, unchanged, iff its key is tombstoned or its
    * content type holds a separator. */
  ghost predicate OldRowsStand(keys: set<string>, st: State, st': State) {
    forall t :: t in st.tombstones ==>
      && (t in st'.tombstones <==> t.Key() in keys || UNIT_SEP in t.contentType)
      && (t in st'.tombstones ==> st'.tombstones[t] == st.tombstones[t])
  }

  /** A new row is for a tombstoned target some accepted op names, and says which
    * delete of its key was first. */
  ghost predicate NewRowsAreDead(accepted: Log, st: State, st': State) {
    forall t :: t in st'.tombstones && t !in st.tombstones ==>
      && t.Key() in TombstonedKeys(accepted)
      && (exists h :: h in accepted && accepted[h].target == t)
      && FirstDelete(accepted, t.Key(), st'.tombstones[t])
  }

  /** A new row costs the live work, and no other work goes. */
  ghost predicate NewRowsTakeWorks(st: State, st': State) {
    forall t :: t in st'.works <==> t in st.works && (t in st'.tombstones ==> t in st.tombstones)
  }

  ghost predicate Settled(st: State, st': State) {
    && st'.ops == st.ops
    && KeysHaveRows(TombstonedKeys(Accepted(st.ops)), st')
    && OldRowsStand(TombstonedKeys(Accepted(st.ops)), st, st')
    && NewRowsAreDead(Accepted(st.ops), st, st')
    && NewRowsTakeWorks(st, st')
  }

  // ---------------------------------------------------------------------
  // The store
  // ---------------------------------------------------------------------

  class Store {
    const scheme: Scheme
    var ops: Log
    var tombstones: map<Target, string>
    var works: set<Target>

    ghost function Now(): State
      reads this
    {
      State(ops, tombstones, works)
    }

    ghost predicate Valid()
      reads this
    {
      scheme.Lawful() && WellFormed(scheme, Now())
    }

    constructor (scheme: Scheme)
      requires scheme.Lawful()
      ensures Valid() && Now() == Empty() && this.scheme == scheme
    {
      this.scheme := scheme;
      ops, tombstones, works := map[], map[], {};
    }

    /** The read a scan makes before creating a work. */
    method Tombstoned(contentType: string, workKey: string) returns (b: bool)
      ensures b <==> Target(contentType, workKey) in tombstones
    {
      b := Target(contentType, workKey) in tombstones;
    }

    method RecordOps(tokens: seq<string>) returns (ok: bool)
      requires Valid()
      modifies this`ops, this`tombstones, this`works
      ensures Valid()
      ensures ok <==> forall t :: t in tokens ==> scheme.verify(t).Good?
      ensures Next(scheme, old(Now()), Record(tokens), Now())
      ensures ok ==> Gains(scheme, old(ops), tokens, ops)
      ensures !ok || ops == old(ops) ==> Now() == old(Now())
    {
      if tokens == [] {
        NothingToAdd(scheme, ops);
        return true;
      }
      ok := VerifyAll(tokens);
      if ok {
        RecordInto(tokens);
      }
    }

    method VerifyAll(tokens: seq<string>) returns (ok: bool)
      ensures ok <==> forall t :: t in tokens ==> scheme.verify(t).Good?
    {
      for i := 0 to |tokens|
        invariant forall j :: 0 <= j < i ==> scheme.verify(tokens[j]).Good?
      {
        if !scheme.verify(tokens[i]).Good? {
          return false;
        }
      }
      return true;
    }

    method RecordInto(tokens: seq<string>)
      requires Valid() && AllVerify(scheme, tokens) && tokens != []
      modifies this`ops, this`tombstones, this`works
      ensures Valid()
      ensures RecordStep(scheme, old(Now()), tokens, Now())
      ensures Gains(scheme, old(ops), tokens, ops)
      ensures ops == old(ops) ==> Now() == old(Now())
      ensures Quiet(scheme, old(ops), tokens, ops) ==> tombstones == old(tombstones) && works == old(works)
      ensures ops != old(ops) && !Quiet(scheme, old(ops), tokens, ops) ==> Settled(old(Now()).(ops := ops), Now())
    {
      hide Gains, Settled, Quiet, OnlyAcquires, Cited, LogAfter, ReconcileStep, AllVerify;
      ghost var before := Now();
      var added := Append(tokens);
      QuietIff(scheme, before.ops, tokens, ops);
      if added == {} {
        NoneAdded(scheme, before.ops, tokens);
        return;
      }
      assert ops != before.ops;
      var quiet := AreOnlyAcquires(tokens);
      if quiet {
        var cited := CitedByRecordedOp(added);
        if !cited {
          return;
        }
      }
      ReconcileTx();
    }

    /** Inserts each op unless its hash is already there; says which were new. */
    method Append(tokens: seq<string>) returns (added: set<string>)
      requires Valid() && AllVerify(scheme, tokens)
      modifies this`ops
      ensures Valid()
      ensures ops == LogAfter(scheme, old(ops), tokens)
      ensures Gains(scheme, old(ops), tokens, ops)
      ensures added == ops.Keys - old(ops).Keys
    {
      hide LogAfter;
      added := {};
      NothingToAdd(scheme, ops);
      for i := 0 to |tokens|
        invariant ops == LogAfter(scheme, old(ops), tokens[..i])
        invariant old(ops).Keys <= ops.Keys && added == ops.Keys - old(ops).Keys
      {
        var op := scheme.verify(tokens[i]).op;
        AddOne(scheme, old(ops), tokens, i);
        if op.hash !in ops {
          ops := ops[op.hash := op];
          added := added + {op.hash};
        }
      }
      assert tokens[..|tokens|] == tokens;
      LogAfterIsLog(scheme, old(ops), tokens);
      LogAfterGains(scheme, old(ops), tokens);
    }

    method AreOnlyAcquires(tokens: seq<string>) returns (b: bool)
      requires AllVerify(scheme, tokens)
      ensures b <==> OnlyAcquires(scheme, tokens)
      ensures b <==> tokens != [] && forall t :: t in tokens ==> scheme.verify(t).op.kind.Acquire?
    {
      for i := 0 to |tokens|
        invariant forall j :: 0 <= j < i ==> scheme.verify(tokens[j]).op.kind.Acquire?
      {
        if !scheme.verify(tokens[i]).op.kind.Acquire? {
          return false;
        }
      }
      return tokens != [];
    }

    method CitedByRecordedOp(hashes: set<string>) returns (b: bool)
      ensures b <==> Cited(ops, hashes)
      ensures b <==> exists q, p :: q in ops && p in ops[q].prev && p in hashes
    {
      var pending := ops.Keys;
      while pending != {}
        invariant pending <= ops.Keys
        invariant forall q, p :: q in ops.Keys - pending && p in ops[q].prev ==> p !in hashes
        decreases pending
      {
        var q :| q in pending;
        pending := pending - {q};
        var prev := ops[q].prev;
        for i := 0 to |prev|
          invariant forall j :: 0 <= j < i ==> prev[j] !in hashes
        {
          if prev[i] in hashes {
            assert q in ops && prev[i] in ops[q].prev && prev[i] in hashes;
            return true;
          }
        }
      }
      return false;
    }

    method ReconcileAll()
      requires Valid()
      modifies this`tombstones, this`works
      ensures Valid()
      ensures Next(scheme, old(Now()), Reconcile, Now())
      ensures Settled(old(Now()), Now())
    {
      ReconcileTx();
    }

    /** Evaluates the whole log and brings the table into line with the view. */
    method ReconcileTx()
      requires Valid()
      modifies this`tombstones, this`works
      ensures Valid()
      ensures ReconcileStep(old(Now()), Now())
      ensures Settled(old(Now()), Now())
    {
      ghost var before := Now();
      var tokens := Tokens();
      LogOfItsTokens(scheme, ops, tokens);
      var view := CatalogEvaluate.Evaluate(scheme, tokens);
      var existing := RowsByKey();
      var leftover := MaterialiseDead(view.accepted, view.tombstoned, existing);
      ghost var mid := Now();
      LiftRows(leftover);
      AddedThenDropped(scheme, before, view.tombstoned, mid, Now());
      ReconciledSettles(before, view.tombstoned, Now());
    }

    /** A row for every tombstoned target that has none, in place of its live
      * work. Consumes `existing` as it goes and returns what is left of it. */
    method MaterialiseDead(accepted: Log, m: map<string, Target>, existing: map<string, Target>)
      returns (leftover: map<string, Target>)
      requires accepted == Accepted(ops) && m.Keys <= TombstonedKeys(accepted) && Keyed(m)
      requires forall h :: h in accepted ==> accepted[h].hash == h
      requires existing.Keys == RowKeys(Now())
      modifies this`tombstones, this`works
      ensures Added(old(Now()), m, m.Keys, Now())
      ensures leftover.Keys == existing.Keys - m.Keys
    {
      hide Added, TombstonedKeys, Accepted, Keyed;
      ghost var before := Now();
      leftover := existing;
      var pending := m.Keys;
      AddNone(before, m);
      while pending != {}
        invariant pending <= m.Keys
        invariant leftover.Keys == existing.Keys - (m.Keys - pending)
        invariant Added(before, m, m.Keys - pending, Now())
        decreases pending
      {
        var key :| key in pending;
        ghost var done := m.Keys - pending;
        pending := pending - {key};
        assert m.Keys - pending == done + {key};
        if key in leftover {
          assert key in RowKeys(before);
          leftover := leftover - {key};
          AddKept(before, m, done, Now(), key);
        } else {
          assert key !in RowKeys(before);
          MaterialiseOne(accepted, m, key, before, done);
        }
      }
      assert m.Keys - pending == m.Keys;
    }

    method MaterialiseOne(
        accepted: Log, m: map<string, Target>, key: string, ghost before: State, ghost done: set<string>)
      requires accepted == Accepted(before.ops) && m.Keys <= TombstonedKeys(accepted) && Keyed(m)
      requires forall h :: h in accepted ==> accepted[h].hash == h
      requires Added(before, m, done, Now()) && key in m && key !in done && key !in RowKeys(before)
      modifies this`tombstones, this`works
      ensures Added(before, m, done + {key}, Now())
    {
      DeadHoldsDelete(accepted, key);
      var h := EarliestDeleteHash(accepted, key);
      AddRow(before, m, done, Now(), key, h);
      tombstones := tombstones[m[key] := h];
      works := works - {m[key]};
    }

    /** Deletes, for each key no longer tombstoned, the row its key splits into. */
    method LiftRows(leftover: map<string, Target>)
      requires forall k :: k in leftover ==> UNIT_SEP in k
      modifies this`tombstones
      ensures tombstones == DropRows(old(tombstones), leftover.Keys)
    {
      var pending := leftover.Keys;
      assert tombstones == DropRows(tombstones, {});
      while pending != {}
        invariant pending <= leftover.Keys
        invariant tombstones == DropRows(old(tombstones), leftover.Keys - pending)
        decreases pending
      {
        var key :| key in pending;
        ghost var lifted := leftover.Keys - pending;
        pending := pending - {key};
        assert leftover.Keys - pending == lifted + {key};
        var t := Split(key);
        DropOne(old(tombstones), lifted, key);
        tombstones := tombstones - {t};
      }
      assert leftover.Keys - pending == leftover.Keys;
    }

    /** Every recorded token, in whatever order the table yields them. */
    method Tokens() returns (tokens: seq<string>)
      ensures Elements(tokens) == set h | h in ops :: ops[h].token
    {
      tokens := [];
      var pending := ops.Keys;
      while pending != {}
        invariant pending <= ops.Keys
        invariant Elements(tokens) == set h | h in ops.Keys - pending :: ops[h].token
        decreases pending
      {
        var h :| h in pending;
        pending := pending - {h};
        assert Elements(tokens + [ops[h].token]) == Elements(tokens) + {ops[h].token};
        tokens := tokens + [ops[h].token];
      }
    }

    method RowsByKey() returns (rows: map<string, Target>)
      ensures rows.Keys == RowKeys(Now())
      ensures forall k :: k in rows ==> UNIT_SEP in k
    {
      rows := map[];
      var pending := tombstones.Keys;
      while pending != {}
        invariant pending <= tombstones.Keys
        invariant forall k :: k in rows <==> exists t :: t in tombstones.Keys - pending && t.Key() == k
        invariant forall k :: k in rows ==> rows[k] in tombstones && rows[k].Key() == k
        decreases pending
      {
        var t :| t in pending;
        pending := pending - {t};
        rows := rows[t.Key() := t];
      }
    }

    method EarliestDeleteHash(accepted: Log, key: string) returns (h: string)
      requires forall x :: x in accepted ==> accepted[x].hash == x
      requires exists x :: x in accepted && accepted[x].kind.Delete? && accepted[x].target.Key() == key
      ensures EarliestDelete(accepted, key, h)
      ensures FirstDelete(accepted, key, h)
    {
      var best: Option<string> := None;
      var pending := accepted.Keys;
      while pending != {}
        invariant pending <= accepted.Keys
        invariant best.None? ==> forall x :: x in accepted.Keys - pending ==>
                    !(accepted[x].kind.Delete? && accepted[x].target.Key() == key)
        invariant best.Some? ==> EarliestAmong(accepted, accepted.Keys - pending, key, best.value)
        decreases pending
      {
        var x :| x in pending;
        ghost var seen := accepted.Keys - pending;
        pending := pending - {x};
        assert accepted.Keys - pending == seen + {x};
        var op := accepted[x];
        if op.kind.Delete? && op.target.Key() == key {
          if best.None? {
            LessIrreflexive(x);
            best := Some(x);
          } else if Earlier(op, accepted[best.value]) {
            EarlierReplaces(accepted, seen, key, best.value, x);
            best := Some(x);
          } else {
            EarlierStays(accepted, seen, key, best.value, x);
          }
        }
      }
      assert accepted.Keys - pending == accepted.Keys;
      h := best.value;
      EarliestIsFirst(accepted, key, h);
    }

    /** The creation every ingest path shares: refused for a tombstoned work. */
    method ResolveWorkRow(t: Target) returns (created: bool)
      requires Valid()
      modifies this`works
      ensures Valid()
      ensures created <==> t !in tombstones && t !in old(works)
      ensures works == if t in tombstones then old(works) else old(works) + {t}
      ensures Next(scheme, old(Now()), ResolveWork(t), Now())
    {
      if t in tombstones {
        return false;
      }
      created := t !in works;
      works := works + {t};
    }

    /** The creation for a want. */
    method WantWorkRow(t: Target)
      requires Valid()
      modifies this`works
      ensures Valid()
      ensures works == old(works) + {t}
      ensures Next(scheme, old(Now()), WantWork(t), Now())
    {
      works := works + {t};
    }

    /** A correction of a work's content type. */
    method RelabelRow(from: Target, contentType: string) returns (ok: bool)
      requires Valid()
      modifies this`works
      ensures Valid()
      ensures var to := Target(contentType, from.workKey);
              && (ok <==> && from in old(works)
                          && contentType in {"movie", "series", "music", "book", "document", "game", "rom"}
                          && (contentType == "rom" ==> from.contentType == "rom")
                          && (to in old(works) ==> to == from))
              && works == if ok then old(works) - {from} + {to} else old(works)
      ensures Next(scheme, old(Now()), Relabel(from, contentType), Now())
    {
      if contentType !in CONTENT_TYPES || from !in works || (contentType == ROM && from.contentType != ROM) {
        return false;
      }
      var to := Relabelled(from, contentType);
      if to in works && to != from {
        return false;
      }
      works := works - {from} + {to};
      return true;
    }

    /** A work's deletion: the row goes and the delete op is recorded, in one
      * transaction. A followed work is refused, and a node that signs nothing
      * records nothing. */
    method DeleteWorkRow(t: Target, followed: bool, token: Option<string>) returns (ok: bool)
      requires Valid()
      modifies this`ops, this`tombstones, this`works
      ensures Valid()
      ensures ok <==> t in old(works) && !followed && (token.Some? ==> scheme.verify(token.value).Good?)
      ensures ok ==> t !in works
      ensures ok && token.None? ==> Now() == old(Now()).(works := old(works) - {t})
      ensures ok && token.Some? ==> Gains(scheme, old(ops), [token.value], ops)
      ensures !ok ==> Now() == old(Now())
      ensures Next(scheme, old(Now()), DeleteWork(t, followed, token), Now())
    {
      if t !in works || followed {
        return false;
      }
      if token == None {
        works := works - {t};
        return true;
      }
      if !scheme.verify(token.value).Good? {
        return false;
      }
      works := works - {t};
      RecordInto([token.value]);
      return true;
    }
  }

  ghost function Empty(): State {
    State(map[], map[], {})
  }

  // ---------------------------------------------------------------------
  // The form of the tables
  // ---------------------------------------------------------------------

  ghost predicate OneRowPerKey(st: State) {
    forall a, b :: a in st.tombstones && b in st.tombstones && a.Key() == b.Key() ==> a == b
  }

  ghost predicate WellFormed(s: Scheme, st: State) {
    IsLog(s, st.ops) && OneRowPerKey(st)
  }

  predicate Earlier(a: Op, b: Op) {
    a.issuedAt < b.issuedAt || (a.issuedAt == b.issuedAt && Less(a.hash, b.hash))
  }

  ghost predicate EarliestAmong(accepted: Log, among: set<string>, key: string, h: string) {
    && h in accepted && accepted[h].kind.Delete? && accepted[h].target.Key() == key
    && forall x :: x in among && x in accepted && accepted[x].kind.Delete? && accepted[x].target.Key() == key ==>
         accepted[h].issuedAt < accepted[x].issuedAt
         || (accepted[h].issuedAt == accepted[x].issuedAt && !Less(x, h))
  }

  lemma EarlierReplaces(accepted: Log, seen: set<string>, key: string, old': string, h: string)
    requires forall x :: x in accepted ==> accepted[x].hash == x
    requires EarliestAmong(accepted, seen, key, old') && h in accepted
    requires accepted[h].kind.Delete? && accepted[h].target.Key() == key && Earlier(accepted[h], accepted[old'])
    ensures EarliestAmong(accepted, seen + {h}, key, h)
  {
    LessIrreflexive(h);
    forall x | x in seen && x in accepted && accepted[x].kind.Delete? && accepted[x].target.Key() == key
               && accepted[x].issuedAt == accepted[h].issuedAt
      ensures !Less(x, h)
    {
      if Less(x, h) && accepted[h].issuedAt == accepted[old'].issuedAt {
        LessTransitive(x, h, old');
      }
    }
  }

  lemma EarlierStays(accepted: Log, seen: set<string>, key: string, h: string, x: string)
    requires forall y :: y in accepted ==> accepted[y].hash == y
    requires EarliestAmong(accepted, seen, key, h) && x in accepted && !Earlier(accepted[x], accepted[h])
    ensures EarliestAmong(accepted, seen + {x}, key, h)
  {
  }

  // ---------------------------------------------------------------------
  // Appending to the log
  // ---------------------------------------------------------------------

  lemma LogsAgree(s: Scheme, a: Log, b: Log, h: string)
    requires s.Lawful() && IsLog(s, a) && IsLog(s, b) && h in a && h in b
    ensures a[h] == b[h]
  {
    assert s.Hash(a[h].token) == h == s.Hash(b[h].token);
    s.HashInjective(a[h].token, b[h].token);
  }

  lemma NothingToAdd(s: Scheme, ops: Log)
    requires s.Lawful()
    ensures LogAfter(s, ops, []) == ops
  {
    var none := VerifiedOps(s, Elements([]));
    assert none == map[];
  }

  lemma NoneAdded(s: Scheme, ops: Log, tokens: seq<string>)
    requires s.Lawful() && LogAfter(s, ops, tokens).Keys - ops.Keys == {}
    ensures LogAfter(s, ops, tokens) == ops
  {
    forall h | h in LogAfter(s, ops, tokens) ensures h in ops {
      assert h !in LogAfter(s, ops, tokens).Keys - ops.Keys;
    }
  }

  lemma OneMoreOfTokens(s: Scheme, tokens: set<string>, t: string)
    requires s.Lawful() && s.verify(t).Good?
    ensures VerifiedOps(s, tokens + {t}) == VerifiedOps(s, tokens)[s.Hash(t) := s.verify(t).op]
  {
    OneMoreVerified(s, tokens, VerifiedOps(s, tokens), t);
    VerifiedDetermined(
      s, tokens + {t}, VerifiedOps(s, tokens + {t}), VerifiedOps(s, tokens)[s.Hash(t) := s.verify(t).op]);
  }

  lemma AddOne(s: Scheme, ops: Log, tokens: seq<string>, i: nat)
    requires s.Lawful() && i < |tokens| && s.verify(tokens[i]).Good?
    ensures
      var op, had := s.verify(tokens[i]).op, LogAfter(s, ops, tokens[..i]);
      LogAfter(s, ops, tokens[..i + 1]) == if op.hash in had then had else had[op.hash := op]
  {
    hide HoldsVerified;
    var t := tokens[i];
    var some := Elements(tokens[..i]);
    assert Elements(tokens[..i + 1]) == some + {t};
    OneMoreOfTokens(s, some, t);
    assert s.verify(t).op.hash == s.Hash(t);
    if s.Hash(t) in VerifiedOps(s, some) {
      SameHashSameOp(s, some, t);
    }
  }

  lemma SameHashSameOp(s: Scheme, tokens: set<string>, t: string)
    requires s.Lawful() && s.verify(t).Good? && s.Hash(t) in VerifiedOps(s, tokens)
    ensures VerifiedOps(s, tokens)[s.Hash(t)] == s.verify(t).op
  {
    var h, ops := s.Hash(t), VerifiedOps(s, tokens);
    assert s.Hash(ops[h].token) == h;
    s.HashInjective(ops[h].token, t);
  }

  lemma LogAfterIsLog(s: Scheme, ops: Log, tokens: seq<string>)
    requires s.Lawful() && IsLog(s, ops)
    ensures IsLog(s, LogAfter(s, ops, tokens))
  {
  }

  lemma QuietIff(s: Scheme, ops: Log, tokens: seq<string>, ops': Log)
    requires tokens != []
    ensures Quiet(s, ops, tokens, ops') <==> OnlyAcquires(s, tokens) && !Cited(ops', ops'.Keys - ops.Keys)
  {
    var added := ops'.Keys - ops.Keys;
    forall q, p | q in ops' && p in ops'[q].prev && p in ops' && p !in ops ensures Cited(ops', added) {
      assert p in added;
    }
    if Cited(ops', added) {
      var q, p :| q in ops' && p in ops'[q].prev && p in added;
      assert p in ops' && p !in ops;
    }
  }

  lemma LogAfterGains(s: Scheme, ops: Log, tokens: seq<string>)
    requires s.Lawful() && IsLog(s, ops) && AllVerify(s, tokens)
    ensures Gains(s, ops, tokens, LogAfter(s, ops, tokens))
  {
    var ops' := LogAfter(s, ops, tokens);
    LogAfterIsLog(s, ops, tokens);
    forall t | t in tokens ensures s.Hash(t) in ops' && Good(ops'[s.Hash(t)]) == s.verify(t) {
      assert t in Elements(tokens);
      s.HashInjective(ops'[s.Hash(t)].token, t);
    }
  }

  lemma LogOfItsTokens(s: Scheme, ops: Log, tokens: seq<string>)
    requires s.Lawful() && IsLog(s, ops)
    requires Elements(tokens) == set h | h in ops :: ops[h].token
    ensures VerifiedOps(s, Elements(tokens)) == ops
  {
    forall t | t in Elements(tokens) && s.verify(t).Good? ensures s.Hash(t) in ops {
      var h :| h in ops && ops[h].token == t;
      assert s.verify(t) == Good(ops[h]);
    }
    VerifiedDetermined(s, Elements(tokens), VerifiedOps(s, Elements(tokens)), ops);
  }

  // ---------------------------------------------------------------------
  // Reconciling, one key at a time
  // ---------------------------------------------------------------------

  ghost predicate Keyed(m: map<string, Target>) {
    forall k :: k in m ==> m[k].Key() == k
  }

  ghost function AddedFor(before: State, m: map<string, Target>, done: set<string>): set<Target> {
    set k | k in m && k in done && k !in RowKeys(before) :: m[k]
  }

  /** The table once the tombstoned keys of `done` have been seen to. */
  ghost predicate Added(before: State, m: map<string, Target>, done: set<string>, st: State) {
    && st.ops == before.ops
    && st.tombstones.Keys == before.tombstones.Keys + AddedFor(before, m, done)
    && (forall t :: t in before.tombstones ==> st.tombstones[t] == before.tombstones[t])
    && (forall t :: t in AddedFor(before, m, done) ==> EarliestDelete(Accepted(before.ops), t.Key(), st.tombstones[t]))
    && st.works == before.works - AddedFor(before, m, done)
  }

  lemma AddNone(before: State, m: map<string, Target>)
    ensures Added(before, m, m.Keys - m.Keys, before)
  {
    assert AddedFor(before, m, m.Keys - m.Keys) == {};
  }

  lemma AddKept(before: State, m: map<string, Target>, done: set<string>, st: State, key: string)
    requires Added(before, m, done, st) && key in RowKeys(before)
    ensures Added(before, m, done + {key}, st)
  {
    assert AddedFor(before, m, done + {key}) == AddedFor(before, m, done);
  }

  lemma AddRow(before: State, m: map<string, Target>, done: set<string>, st: State, key: string, h: string)
    requires Added(before, m, done, st) && key in m && key !in done && key !in RowKeys(before)
    requires Keyed(m)
    requires EarliestDelete(Accepted(before.ops), key, h)
    ensures Added(before, m, done + {key}, State(st.ops, st.tombstones[m[key] := h], st.works - {m[key]}))
  {
    assert AddedFor(before, m, done + {key}) == AddedFor(before, m, done) + {m[key]};
    assert m[key].Key() == key;
    assert m[key] !in before.tombstones;
    forall t | t in AddedFor(before, m, done) ensures t != m[key] {
      var k :| k in m && k in done && m[k] == t;
    }
  }

  lemma DeadHoldsDelete(accepted: Log, key: string)
    requires key in TombstonedKeys(accepted)
    ensures exists x :: x in accepted && accepted[x].kind.Delete? && accepted[x].target.Key() == key
  {
    var x :| x in accepted && Effective(accepted, x) && accepted[x].target.Key() == key;
  }

  ghost function DropRows(rows: map<Target, string>, keys: set<string>): map<Target, string> {
    map t | t in rows && !(t.Key() in keys && SplitKey(t.Key()) == t) :: rows[t]
  }

  lemma DropOne(rows: map<Target, string>, keys: set<string>, key: string)
    requires UNIT_SEP in key
    ensures DropRows(rows, keys) - {SplitKey(key)} == DropRows(rows, keys + {key})
  {
    KeyOfSplit(key);
    SplitInvertsKey(SplitKey(key));
  }

  lemma AddedThenDropped(s: Scheme, before: State, m: map<string, Target>, mid: State, after: State)
    requires WellFormed(s, before) && IsTombstoneMap(Accepted(before.ops), m)
    requires Added(before, m, m.Keys, mid)
    requires after == mid.(tombstones := DropRows(mid.tombstones, RowKeys(before) - m.Keys))
    ensures Reconciled(before, m, after) && WellFormed(s, after)
  {
    assert AddedFor(before, m, m.Keys) == NewlyDead(before, m);
    RowsLeft(before, m, mid.tombstones.Keys, after.tombstones.Keys);
    OneRowStill(before, m, after);
  }

  lemma RowsLeft(before: State, m: map<string, Target>, mid: set<Target>, after: set<Target>)
    requires Keyed(m)
    requires mid == before.tombstones.Keys + NewlyDead(before, m)
    requires after == set t | t in mid && !(t.Key() in RowKeys(before) - m.Keys && SplitKey(t.Key()) == t)
    ensures after == (set t | t in before.tombstones && (t.Key() in m || SplitKey(t.Key()) != t)) + NewlyDead(before, m)
    ensures forall t :: t in NewlyDead(before, m) ==> t.Key() in m && t !in before.tombstones
  {
    forall t | t in NewlyDead(before, m) ensures t.Key() in m && t !in before.tombstones {
      assert t in before.tombstones ==> t.Key() in RowKeys(before);
    }
    forall t | t in before.tombstones ensures t.Key() in RowKeys(before) {
    }
  }

  lemma OneRowStill(before: State, m: map<string, Target>, after: State)
    requires OneRowPerKey(before) && Keyed(m)
    requires after.tombstones.Keys <= before.tombstones.Keys + NewlyDead(before, m)
    ensures OneRowPerKey(after)
  {
    forall a, b | a in after.tombstones && b in after.tombstones && a.Key() == b.Key() ensures a == b {
      assert a in before.tombstones ==> a.Key() in RowKeys(before);
      assert b in before.tombstones ==> b.Key() in RowKeys(before);
    }
  }

  lemma EarliestIsFirst(accepted: Log, key: string, h: string)
    requires EarliestDelete(accepted, key, h)
    ensures FirstDelete(accepted, key, h)
  {
    forall x | x in accepted && x != h ensures Less(x, h) || Less(h, x) {
      LessTotal(x, h);
    }
  }

  lemma NewRowsAreFor(st: State, m: map<string, Target>)
    requires Keyed(m)
    ensures forall t :: t in NewlyDead(st, m) ==> t !in st.tombstones && t.Key() in m && m[t.Key()] == t
  {
    forall t | t in NewlyDead(st, m) ensures t !in st.tombstones && t.Key() in m && m[t.Key()] == t {
      assert t in st.tombstones ==> t.Key() in RowKeys(st);
    }
  }

  lemma EveryKeyHasRow(st: State, m: map<string, Target>, st': State)
    requires Keyed(m) && Reconciled(st, m, st')
    ensures KeysHaveRows(m.Keys, st')
  {
    hide EarliestDelete, Accepted, SplitKey;
    forall k | k in m ensures exists t :: t in st'.tombstones && t.Key() == k {
      if k in RowKeys(st) {
        var t :| t in st.tombstones && t.Key() == k;
        assert t in st'.tombstones;
      } else {
        assert m[k] in NewlyDead(st, m);
      }
    }
  }

  lemma OldRowsSettle(st: State, m: map<string, Target>, st': State)
    requires Keyed(m) && Reconciled(st, m, st')
    ensures OldRowsStand(m.Keys, st, st') && NewRowsTakeWorks(st, st')
  {
    hide EarliestDelete, Accepted, SplitKey;
    NewRowsAreFor(st, m);
    hide NewlyDead;
    forall t | t in st.tombstones ensures SplitKey(t.Key()) == t <==> UNIT_SEP !in t.contentType {
      SplitInvertsKey(t);
    }
  }

  lemma NewRowsSettle(st: State, m: map<string, Target>, st': State)
    requires IsTombstoneMap(Accepted(st.ops), m) && Reconciled(st, m, st')
    ensures NewRowsAreDead(Accepted(st.ops), st, st')
  {
    hide EarliestDelete, FirstDelete, Accepted, SplitKey, TombstonedKeys;
    NewRowsAreFor(st, m);
    hide NewlyDead;
    forall t | t in st'.tombstones && t !in st.tombstones
      ensures FirstDelete(Accepted(st.ops), t.Key(), st'.tombstones[t])
    {
      EarliestIsFirst(Accepted(st.ops), t.Key(), st'.tombstones[t]);
    }
  }

  lemma ReconciledSettles(st: State, m: map<string, Target>, st': State)
    requires IsTombstoneMap(Accepted(st.ops), m) && Reconciled(st, m, st')
    ensures Settled(st, st')
  {
    hide KeysHaveRows, OldRowsStand, NewRowsAreDead, NewRowsTakeWorks, TombstonedKeys, Accepted;
    EveryKeyHasRow(st, m, st');
    OldRowsSettle(st, m, st');
    NewRowsSettle(st, m, st');
  }
}
