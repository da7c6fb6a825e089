/** The editorial catalog op-log: signed, content-addressed statements about
  * works, and the view a bag of op tokens evaluates to. What each pass computes
  * is stated over the op set; the loops visit maps in an arbitrary order.
  */
module CatalogOp {
  import opened Options
  import opened StringOrder
  import opened Dag

  const VERSION := 1
  const HASH_PREFIX := "sha256:"
  const MAX_PREV := 64
  const UNIT_SEP: char := '\U{1F}'

  datatype Kind = Delete | Restore | Acquire

  /** A work's natural key. */
  datatype Target = Target(contentType: string, workKey: string) {
    function Key(): string {
      contentType + [UNIT_SEP] + workKey
    }
  }

  datatype AcquireBody = AcquireBody(scope: string, aspect: string, infohash: string, selectedAt: int)

  datatype Op = Op(
    hash: string,
    token: string,
    kind: Kind,
    target: Target,
    signer: string,
    prev: seq<string>,
    issuedAt: int,
    acquire: Option<AcquireBody>)

  /** The signed body of a token, as its JSON decodes. */
  datatype Payload = Payload(
    v: int,
    op: string,
    contentType: string,
    workKey: string,
    signer: string,
    prev: seq<string>,
    issuedAt: int,
    acq: Option<AcquireBody>)

  /** A decoded token: its payload, and how the cryptographic and canonical-form
    * checks over its bytes come out. */
  datatype Signed = Signed(payload: Payload, keyParses: bool, signatureHolds: bool, canonical: bool)

  datatype Verdict = Good(op: Op) | BadSignature | Malformed
  datatype Reason = ReasonMalformed | ReasonBadSignature | ReasonBadPrev

  /** What the op-log takes from outside: a digest, and the judgement on a token. */
  datatype Scheme = Scheme(digest: string -> string, verify: string -> Verdict)
  {
    function Hash(token: string): string {
      HASH_PREFIX + digest(token)
    }

    /** Distinct tokens have distinct digests: the one law assumed of SHA-256. */
    ghost predicate CollisionFree() {
      forall a, b :: digest(a) == digest(b) ==> a == b
    }

    /** A good token yields the op it names, under its own hash. */
    ghost predicate Faithful() {
      forall t :: verify(t).Good? ==>
        && t != ""
        && verify(t).op.token == t && verify(t).op.hash == Hash(t)
        && (verify(t).op.kind.Acquire? <==> verify(t).op.acquire.Some?)
        && |verify(t).op.prev| <= MAX_PREV
    }

    ghost predicate Lawful() {
      CollisionFree() && Faithful()
    }

    lemma HashInjective(a: string, b: string)
      requires CollisionFree() && Hash(a) == Hash(b)
      ensures a == b
    {
      assert Hash(a)[|HASH_PREFIX|..] == digest(a) && Hash(b)[|HASH_PREFIX|..] == digest(b);
    }
  }

  /** Parses a token and checks its signature. Causal validity is judged later,
    * over the whole set. */
  function Verify(
    digest: string -> string, decode: string -> Option<Signed>, acquireValid: AcquireBody -> bool,
    token: string): (r: Verdict)
  {
    if '.' !in token || decode(token).None? then Malformed
    else
      var d := decode(token).value;
      var p := d.payload;
      if p.v != VERSION then Malformed
      else if !(p.op == "delete" || p.op == "restore" || p.op == "acquire") then Malformed
      else if p.op != "acquire" && p.acq.Some? then Malformed
      else if p.op == "acquire" && p.acq.None? then Malformed
      else if p.op == "acquire" && !acquireValid(p.acq.value) then Malformed
      else if p.contentType == "" || p.workKey == "" then Malformed
      else if |p.prev| > MAX_PREV then Malformed
      else if !d.keyParses then Malformed
      else if !d.signatureHolds then BadSignature
      else if !d.canonical then Malformed
      else
        var kind := if p.op == "delete" then Delete else if p.op == "restore" then Restore else Acquire;
        Good(Op(
          HASH_PREFIX + digest(token), token, kind, Target(p.contentType, p.workKey), p.signer, p.prev, p.issuedAt,
          p.acq))
  }

  /** The form a token's payload must have, its signature apart. */
  ghost predicate Readable(
      decode: string -> Option<Signed>, acquireValid: AcquireBody -> bool, token: string)
  {
    && '.' in token && decode(token).Some? && decode(token).value.keyParses
    && var p := decode(token).value.payload;
       && p.v == 1 && p.op in {"delete", "restore", "acquire"}
       && (p.op == "acquire" <==> p.acq.Some?) && (p.acq.Some? ==> acquireValid(p.acq.value))
       && p.contentType != "" && p.workKey != "" && |p.prev| <= 64
  }

  /** When each answer is given, and that an accepted op says what its payload does. */
  lemma VerifyIff(
      digest: string -> string, decode: string -> Option<Signed>, acquireValid: AcquireBody -> bool, token: string)
    ensures var r := Verify(digest, decode, acquireValid, token);
            && (r.Good? <==> Readable(decode, acquireValid, token) &&
                             decode(token).value.signatureHolds && decode(token).value.canonical)
            && (r == BadSignature <==> Readable(decode, acquireValid, token) && !decode(token).value.signatureHolds)
            && (r.Good? ==>
                  var (op, p) := (r.op, decode(token).value.payload);
                  && op.token == token && op.hash == "sha256:" + digest(token)
                  && (op.kind.Delete? <==> p.op == "delete") && (op.kind.Restore? <==> p.op == "restore")
                  && (op.kind.Acquire? <==> p.op == "acquire")
                  && op.target.contentType == p.contentType && op.target.workKey == p.workKey
                  && op.signer == p.signer && op.prev == p.prev && op.issuedAt == p.issuedAt && op.acquire == p.acq)
  {
  }

  /** The judgement the source makes is faithful, whatever the decoder answers. */
  lemma VerifyIsFaithful(digest: string -> string, decode: string -> Option<Signed>, acquireValid: AcquireBody -> bool)
    ensures Scheme(digest, t => Verify(digest, decode, acquireValid, t)).Faithful()
  {
    var s := Scheme(digest, t => Verify(digest, decode, acquireValid, t));
    forall t | s.verify(t).Good?
      ensures t != ""
      ensures s.verify(t).op.token == t && s.verify(t).op.hash == s.Hash(t)
      ensures s.verify(t).op.kind.Acquire? <==> s.verify(t).op.acquire.Some?
      ensures |s.verify(t).op.prev| <= MAX_PREV
    {
      assert s.verify(t) == Verify(digest, decode, acquireValid, t);
    }
  }

  type Log = map<string, Op>

  /** A log as the store and `Evaluate` hold one: verified ops under their hashes. */
  ghost predicate IsLog(s: Scheme, ops: Log) {
    forall h :: h in ops ==> ops[h].hash == h && s.verify(ops[h].token) == Good(ops[h])
  }

  function Cites(ops: Log): Graph {
    map h | h in ops :: ops[h].prev
  }

  // ---------------------------------------------------------------------
  // What each pass means
  // ---------------------------------------------------------------------

  /** A log of exactly the tokens that verify. */
  ghost predicate HoldsVerified(s: Scheme, tokens: set<string>, ops: Log) {
    && IsLog(s, ops)
    && (forall h :: h in ops ==> ops[h].token in tokens)
    && (forall t :: t in tokens && s.verify(t).Good? ==> s.Hash(t) in ops)
  }

  function ReasonOf(r: Verdict): Reason {
    if r.BadSignature? then ReasonBadSignature else ReasonMalformed
  }

  /** The reason against every non-empty token that does not verify. */
  ghost predicate HoldsRejected(s: Scheme, tokens: set<string>, m: map<string, Reason>) {
    && (forall h :: h in m ==> exists t :: RejectedAs(s, tokens, t, h, m[h]))
    && (forall t :: t in tokens && t != "" && !s.verify(t).Good? ==> s.Hash(t) in m)
  }

  ghost predicate RejectedAs(s: Scheme, tokens: set<string>, t: string, h: string, reason: Reason) {
    t in tokens && t != "" && !s.verify(t).Good? && s.Hash(t) == h && ReasonOf(s.verify(t)) == reason
  }

  lemma VerifiedAt(s: Scheme, tokens: set<string>, a: Log, b: Log, h: string)
    requires s.Lawful()
    requires HoldsVerified(s, tokens, a) && HoldsVerified(s, tokens, b) && h in a
    ensures h in b && a[h] == b[h]
  {
    var t := a[h].token;
    assert s.verify(t) == Good(a[h]) && s.Hash(t) == h;
    assert h in b;
    assert s.Hash(b[h].token) == h;
    s.HashInjective(t, b[h].token);
  }

  lemma VerifiedDetermined(s: Scheme, tokens: set<string>, a: Log, b: Log)
    requires s.Lawful()
    requires HoldsVerified(s, tokens, a) && HoldsVerified(s, tokens, b)
    ensures a == b
  {
    forall h | h in a ensures h in b && a[h] == b[h] { VerifiedAt(s, tokens, a, b, h); }
    forall h | h in b ensures h in a { VerifiedAt(s, tokens, b, a, h); }
  }

  lemma RejectedDetermined(s: Scheme, tokens: set<string>, a: map<string, Reason>, b: map<string, Reason>)
    requires s.Lawful()
    requires HoldsRejected(s, tokens, a) && HoldsRejected(s, tokens, b)
    ensures a == b
  {
    forall h ensures h in a <==> h in b {
      if h in a { var t :| RejectedAs(s, tokens, t, h, a[h]); }
      if h in b { var t :| RejectedAs(s, tokens, t, h, b[h]); }
    }
    forall h | h in a ensures a[h] == b[h] {
      var t :| RejectedAs(s, tokens, t, h, a[h]);
      var u :| RejectedAs(s, tokens, u, h, b[h]);
      s.HashInjective(t, u);
    }
  }

  ghost function VerifiedOps(s: Scheme, tokens: set<string>): (ops: Log)
    requires s.Lawful()
    ensures HoldsVerified(s, tokens, ops)
  {
    VerifiedExists(s, tokens);
    var ops: Log :| HoldsVerified(s, tokens, ops);
    ops
  }

  ghost function RejectedTokens(s: Scheme, tokens: set<string>): (m: map<string, Reason>)
    requires s.Lawful()
    ensures HoldsRejected(s, tokens, m)
  {
    RejectedExists(s, tokens);
    var m: map<string, Reason> :| HoldsRejected(s, tokens, m);
    m
  }

  lemma {:induction false} VerifiedExists(s: Scheme, tokens: set<string>)
    requires s.Lawful()
    ensures exists ops: Log :: HoldsVerified(s, tokens, ops)
    decreases tokens
  {
    if tokens == {} {
      assert HoldsVerified(s, tokens, map[]);
    } else {
      var t :| t in tokens;
      var rest := tokens - {t};
      VerifiedExists(s, rest);
      var ops: Log :| HoldsVerified(s, rest, ops);
      assert tokens == rest + {t};
      OneMoreVerified(s, rest, ops, t);
    }
  }

  lemma OneMoreVerified(s: Scheme, tokens: set<string>, ops: Log, t: string)
    requires s.Lawful() && HoldsVerified(s, tokens, ops)
    ensures HoldsVerified(s, tokens + {t}, if s.verify(t).Good? then ops[s.Hash(t) := s.verify(t).op] else ops)
  {
  }

  lemma {:induction false} RejectedExists(s: Scheme, tokens: set<string>)
    requires s.Lawful()
    ensures exists m: map<string, Reason> :: HoldsRejected(s, tokens, m)
    decreases tokens
  {
    if tokens == {} {
      assert HoldsRejected(s, tokens, map[]);
    } else {
      var t :| t in tokens;
      var rest := tokens - {t};
      RejectedExists(s, rest);
      var m: map<string, Reason> :| HoldsRejected(s, rest, m);
      assert tokens == rest + {t};
      OneMoreRejected(s, rest, m, t);
    }
  }

  lemma OneMoreRejected(s: Scheme, tokens: set<string>, m: map<string, Reason>, t: string)
    requires s.Lawful() && HoldsRejected(s, tokens, m)
    ensures HoldsRejected(
              s, tokens + {t}, if t == "" || s.verify(t).Good? then m else m[s.Hash(t) := ReasonOf(s.verify(t))])
  {
    var more := if t == "" || s.verify(t).Good? then m else m[s.Hash(t) := ReasonOf(s.verify(t))];
    forall h | h in more ensures exists u :: RejectedAs(s, tokens + {t}, u, h, more[h]) {
      if h in m && more[h] == m[h] {
        var u :| RejectedAs(s, tokens, u, h, m[h]);
        assert RejectedAs(s, tokens + {t}, u, h, more[h]);
      } else {
        assert RejectedAs(s, tokens + {t}, t, h, more[h]);
      }
    }
  }

  /** Every op of `keep` cites only ops of `keep`. */
  ghost predicate PrevClosed(ops: Log, keep: set<string>) {
    && keep <= ops.Keys
    && forall h, p :: h in keep && p in ops[h].prev ==> p in keep
  }

  /** The greatest prev-closed subset: the union of them all. */
  ghost function Resolved(ops: Log): set<string> {
    set h | h in ops && exists keep: set<string> :: h in keep && PrevClosed(ops, keep)
  }

  ghost function Accepted(ops: Log): Log {
    map h | h in Resolved(ops) :: ops[h]
  }

  ghost function BadPrevs(hashes: set<string>): map<string, Reason> {
    map h | h in hashes :: ReasonBadPrev
  }

  /** Some accepted restore of the same target has the delete in its past. */
  ghost predicate Overridden(accepted: Log, d: Op) {
    exists r :: r in accepted && Lifts(accepted, accepted[r], d)
  }

  ghost predicate Lifts(accepted: Log, r: Op, d: Op) {
    && r.kind.Restore?
    && r.target.Key() == d.target.Key()
    && Reaches(Cites(accepted), r.prev, d.hash)
  }

  ghost predicate Effective(accepted: Log, h: string) {
    h in accepted && accepted[h].kind.Delete? && !Overridden(accepted, accepted[h])
  }

  /** The keys of the targets holding a delete that nothing overrides. */
  ghost function TombstonedKeys(accepted: Log): set<string> {
    set h | h in accepted && Effective(accepted, h) :: accepted[h].target.Key()
  }

  /** Each tombstoned key, under a target some accepted op names. */
  ghost predicate IsTombstoneMap(accepted: Log, m: map<string, Target>) {
    && m.Keys == TombstonedKeys(accepted)
    && forall k :: k in m ==> m[k].Key() == k && exists h :: h in accepted && accepted[h].target == m[k]
  }

  function AcquireKey(t: Target, scope: string, aspect: string): string {
    t.Key() + [UNIT_SEP] + scope + [UNIT_SEP] + aspect
  }

  function KeyOfAcquire(op: Op): string
    requires op.acquire.Some?
  {
    AcquireKey(op.target, op.acquire.value.scope, op.acquire.value.aspect)
  }

  predicate NewerAcquire(a: Op, b: Op)
    requires a.acquire.Some? && b.acquire.Some?
  {
    if a.acquire.value.selectedAt != b.acquire.value.selectedAt
    then a.acquire.value.selectedAt > b.acquire.value.selectedAt
    else Less(b.hash, a.hash)
  }

  /** An acquire of a work that is not tombstoned. */
  predicate Bids(op: Op, dead: set<string>) {
    op.kind.Acquire? && op.acquire.Some? && op.target.Key() !in dead
  }

  predicate LiveAcquire(accepted: Log, dead: set<string>, h: string) {
    h in accepted && Bids(accepted[h], dead)
  }

  /** `op` is an acquire of a live work under key `k` that every other such
    * acquire loses to, considering only the ops in `among`. */
  ghost predicate Newest(accepted: Log, dead: set<string>, among: set<string>, k: string, op: Op) {
    && (exists h :: h in among && LiveAcquire(accepted, dead, h) && accepted[h] == op)
    && op.acquire.Some? && KeyOfAcquire(op) == k
    && forall h :: h in among && LiveAcquire(accepted, dead, h) && KeyOfAcquire(accepted[h]) == k ==>
         accepted[h] == op || NewerAcquire(op, accepted[h])
  }

  ghost predicate IsAcquisitionsOf(accepted: Log, dead: set<string>, among: set<string>, m: map<string, Op>) {
    && (forall h :: h in among && LiveAcquire(accepted, dead, h) ==> KeyOfAcquire(accepted[h]) in m)
    && (forall k :: k in m ==> Newest(accepted, dead, among, k, m[k]))
  }

  /** The acquisitions said outright: each key that some acquire of a live work has,
    * and under it the one selected last, the greater hash deciding between equals. */
  ghost predicate HoldLatest(accepted: Log, dead: set<string>, m: map<string, Op>) {
    && (forall h :: h in accepted && Bids(accepted[h], dead) ==> KeyOfAcquire(accepted[h]) in m)
    && forall k :: k in m ==>
         && m[k].hash in accepted && accepted[m[k].hash] == m[k] && Bids(m[k], dead) && KeyOfAcquire(m[k]) == k
         && forall h :: h in accepted && Bids(accepted[h], dead) && KeyOfAcquire(accepted[h]) == k ==>
              || m[k].acquire.value.selectedAt > accepted[h].acquire.value.selectedAt
              || (m[k].acquire.value.selectedAt == accepted[h].acquire.value.selectedAt &&
                  (m[k].hash == h || Less(h, m[k].hash)))
  }

  lemma LatestWins(accepted: Log, dead: set<string>, m: map<string, Op>)
    requires IsAcquisitionsOf(accepted, dead, accepted.Keys, m)
    requires forall h :: h in accepted ==> accepted[h].hash == h
    ensures HoldLatest(accepted, dead, m)
  {
    hide KeyOfAcquire, Less;
    forall h | h in accepted && Bids(accepted[h], dead) ensures LiveAcquire(accepted, dead, h) {
    }
    forall k | k in m ensures Newest(accepted, dead, accepted.Keys, k, m[k]) {
    }
  }

  datatype View = View(
    tombstoned: map<string, Target>,
    accepted: Log,
    rejected: map<string, Reason>,
    heads: seq<string>,
    acquisitions: map<string, Op>)

  /** What a view over a set of tokens must be. No order of tokens and no order
    * of map iteration appears here. */
  ghost predicate IsView(s: Scheme, tokens: set<string>, v: View)
    requires s.Lawful()
  {
    var ops := VerifiedOps(s, tokens);
    && v.accepted == Accepted(ops)
    && v.rejected == RejectedTokens(s, tokens) + BadPrevs(ops.Keys - Resolved(ops))
    && IsTombstoneMap(v.accepted, v.tombstoned)
    && StrictlySorted(v.heads) && Elements(v.heads) == Frontier(Cites(v.accepted))
    && IsAcquisitionsOf(v.accepted, v.tombstoned.Keys, v.accepted.Keys, v.acquisitions)
  }

  lemma VerifiedIff(s: Scheme, tokens: set<string>, t: string)
    requires s.Lawful() && t in tokens
    ensures s.Hash(t) in VerifiedOps(s, tokens) <==> s.verify(t).Good?
    ensures s.verify(t).Good? ==> s.verify(t) == Good(VerifiedOps(s, tokens)[s.Hash(t)])
  {
    var ops, h := VerifiedOps(s, tokens), s.Hash(t);
    if h in ops {
      assert s.Hash(ops[h].token) == h;
      s.HashInjective(ops[h].token, t);
    }
  }

  lemma RejectedIff(s: Scheme, tokens: set<string>, t: string)
    requires s.Lawful() && t in tokens && t != ""
    ensures s.Hash(t) in RejectedTokens(s, tokens) <==> !s.verify(t).Good?
    ensures s.Hash(t) in RejectedTokens(s, tokens) ==>
              RejectedTokens(s, tokens)[s.Hash(t)] ==
                if s.verify(t).BadSignature? then ReasonBadSignature else ReasonMalformed
  {
    var m, h := RejectedTokens(s, tokens), s.Hash(t);
    if h in m {
      var u :| RejectedAs(s, tokens, u, h, m[h]);
      s.HashInjective(u, t);
    }
  }

  /** A token of the set is accepted, or rejected for one reason. */
  lemma ViewRejects(s: Scheme, tokens: set<string>, v: View, t: string)
    requires s.Lawful() && IsView(s, tokens, v) && t in tokens && t != ""
    ensures s.Hash(t) in v.accepted <==> s.Hash(t) !in v.rejected
    ensures s.Hash(t) in v.accepted ==> s.verify(t) == Good(v.accepted[s.Hash(t)])
    ensures s.verify(t) == BadSignature <==> s.Hash(t) in v.rejected && v.rejected[s.Hash(t)] == ReasonBadSignature
    ensures s.verify(t) == Malformed <==> s.Hash(t) in v.rejected && v.rejected[s.Hash(t)] == ReasonMalformed
    ensures s.verify(t).Good? && s.Hash(t) !in v.accepted ==> v.rejected[s.Hash(t)] == ReasonBadPrev
  {
    hide IsTombstoneMap, IsAcquisitionsOf, HoldsVerified, HoldsRejected, StrictlySorted, Frontier, PrevClosed;
    VerifiedIff(s, tokens, t);
    RejectedIff(s, tokens, t);
  }

  /** If everything resolvable is still inside `present`, an op citing something
    * outside it is not resolvable. */
  lemma MissingPastUnresolved(ops: Log, present: set<string>, h: string, p: string)
    requires Resolved(ops) <= present && h in ops && p in ops[h].prev && p !in present
    ensures h !in Resolved(ops)
  {
    if h in Resolved(ops) {
      ResolvedHasPast(ops, h, p);
    }
  }

  lemma ResolvedHasPast(ops: Log, h: string, p: string)
    requires h in Resolved(ops) && p in ops[h].prev
    ensures p in Resolved(ops)
  {
    var keep: set<string> :| h in keep && PrevClosed(ops, keep);
    assert p in keep;
  }

  lemma ClosedIsResolved(ops: Log, keep: set<string>)
    requires PrevClosed(ops, keep)
    ensures keep <= Resolved(ops)
  {
  }

  /** `NewerAcquire` is a strict total order on ops with distinct hashes. */
  lemma NewerTransitive(a: Op, b: Op, c: Op)
    requires a.acquire.Some? && b.acquire.Some? && c.acquire.Some?
    requires NewerAcquire(a, b) && NewerAcquire(b, c)
    ensures NewerAcquire(a, c)
  {
    if a.acquire.value.selectedAt == b.acquire.value.selectedAt == c.acquire.value.selectedAt {
      LessTransitive(c.hash, b.hash, a.hash);
    }
  }

  lemma NewerTotal(a: Op, b: Op)
    requires a.acquire.Some? && b.acquire.Some?
    ensures a.hash != b.hash ==> NewerAcquire(a, b) || NewerAcquire(b, a)
    ensures !(NewerAcquire(a, b) && NewerAcquire(b, a))
    ensures a.hash == b.hash && a.acquire == b.acquire ==> !NewerAcquire(a, b)
  {
    LessTotal(a.hash, b.hash);
    LessIrreflexive(a.hash);
    if Less(a.hash, b.hash) && Less(b.hash, a.hash) {
      LessTransitive(a.hash, b.hash, a.hash);
    }
  }

  /** Merged logs list each non-empty token once, in hash order. */
  ghost predicate IsMerge(s: Scheme, tokens: set<string>, out: seq<string>) {
    && StrictlySorted(Hashes(s, out))
    && forall t :: t in out <==> t in tokens && t != ""
  }

  ghost function Hashes(s: Scheme, tokens: seq<string>): seq<string> {
    seq(|tokens|, i requires 0 <= i < |tokens| => s.Hash(tokens[i]))
  }

  ghost function AllTokens(sets: seq<seq<string>>): set<string> {
    set i, t | 0 <= i < |sets| && t in sets[i] :: t
  }
}
