/** The credential table, the verification cache, and what each step on them does. */
module Credentials {
  import opened Options
  import opened Base32
  import opened Token

  type Id = seq<byte>
  type Digest = string

  datatype Kind = Service | User | Executor

  datatype Row = Row(
    principal: string, scopes: seq<string>, createdAt: int, lastUsed: Option<int>,
    expires: Option<int>, revoked: Option<int>, restricted: bool, hash: string)

  /** The two tables; a principal is known by its unique name. */
  datatype Tables = Tables(rows: map<Id, Row>, principals: map<string, Kind>)

  datatype Failure =
    | Malformed | NotFound | Revoked | Expired | Unreadable | BadSecret
    | NoName | NoScope | PrincipalKind

  datatype Found = Found(row: Row, kind: Kind)

  datatype Outcome =
    | Accepted(id: Id, found: Found, restricted: bool)
    | Refused(why: Failure)

  datatype Entry = Entry(id: Id, expires: int)

  /** The keyed digest and the secret check. `verify` is None when the stored
    * hash cannot be read. */
  datatype Crypto = Crypto(digest: string -> Digest, verify: (string, seq<byte>) -> Option<bool>) {
    ghost predicate CollisionFree() {
      forall a, b :: digest(a) == digest(b) ==> a == b
    }

    /** `hash` was made from `secret`: that secret verifies, and no other. */
    ghost predicate HashOf(hash: string, secret: seq<byte>) {
      forall s :: verify(hash, s) == Some(true) <==> s == secret
    }
  }

  // ---------------------------------------------------------------------
  // Reading
  // ---------------------------------------------------------------------

  function Load(db: Tables, id: Id): Option<Found> {
    if id in db.rows && db.rows[id].principal in db.principals
    then Some(Found(db.rows[id], db.principals[db.rows[id].principal]))
    else None
  }

  /** Why the token may not be used at `t`, if it may not. */
  function Inactive(row: Row, t: int): Option<Failure> {
    if row.revoked.Some? then Some(Revoked)
    else if row.expires.Some? && t >= row.expires.value then Some(Expired)
    else None
  }

  function Grant(id: Id, found: Found): Outcome {
    Accepted(id, found, found.row.restricted || found.kind == Executor)
  }

  function SecretRefused(crypto: Crypto, hash: string, secret: seq<byte>): Option<Failure> {
    match crypto.verify(hash, secret)
    case None => Some(Unreadable)
    case Some(ok) => if ok then None else Some(BadSecret)
  }

  /** The verification with no cache: what it answers from the row it loaded, the
    * time it read and the hash it read. */
  function Slow(crypto: Crypto, raw: string, found: Option<Found>, now: int, hash: Option<string>): Outcome {
    match ParseToken(raw)
    case None => Refused(Malformed)
    case Some(p) =>
      if found == None then Refused(NotFound)
      else if Inactive(found.value.row, now).Some? then Refused(Inactive(found.value.row, now).value)
      else if hash == None then Refused(NotFound)
      else if SecretRefused(crypto, hash.value, p.secret).Some? then
        Refused(SecretRefused(crypto, hash.value, p.secret).value)
      else Grant(p.id, found.value)
  }

  /** Acceptance, said outright. */
  lemma SlowAcceptsIff(
      crypto: Crypto, raw: string, found: Option<Found>, now: int, hash: Option<string>, secret: seq<byte>, id: Id)
    requires hash.Some? && crypto.HashOf(hash.value, secret)
    requires |id| == ID_BYTES && |secret| == SECRET_BYTES
    requires ParseToken(raw).Some? ==> ParseToken(raw).value.id == id
    ensures Slow(crypto, raw, found, now, hash).Accepted? <==>
              && raw == Print(id, secret) && found.Some? && found.value.row.revoked == None
              && (found.value.row.expires.Some? ==> now < found.value.row.expires.value)
  {
    hide ParseToken, Print;
    ParsesIffPrinted(raw, Presented(id, secret, raw));
    if ParseToken(raw).Some? {
      var p := ParseToken(raw).value;
      ParsesIffPrinted(raw, p);
    }
  }

  /** And each refusal. */
  lemma SlowRefusesIff(crypto: Crypto, raw: string, found: Option<Found>, now: int, hash: Option<string>)
    ensures var (r, p) := (Slow(crypto, raw, found, now, hash), ParseToken(raw));
            && (r == Refused(Malformed) <==> p == None)
            && (r == Refused(Revoked) <==> p.Some? && found.Some? && found.value.row.revoked.Some?)
            && (r == Refused(Expired) <==>
                  && p.Some? && found.Some? && found.value.row.revoked == None
                  && found.value.row.expires.Some? && found.value.row.expires.value <= now)
            && (r == Refused(Unreadable) <==>
                  ReachesHash(raw, found, now) && hash.Some? && crypto.verify(hash.value, p.value.secret) == None)
            && (r == Refused(BadSecret) <==>
                  && ReachesHash(raw, found, now) && hash.Some?
                  && crypto.verify(hash.value, p.value.secret) == Some(false))
            && (r == Refused(NotFound) <==>
                  p.Some? && (found == None || (ReachesHash(raw, found, now) && hash == None)))
            && (r.Accepted? ==>
                  && p.Some? && found.Some? && r.id == p.value.id && r.found == found.value
                  && (r.restricted <==> found.value.row.restricted || found.value.kind == Executor))
  {
    hide ParseToken;
  }

  /** A row whose principal is there. */
  predicate Standing(db: Tables, id: Id) {
    id in db.rows && db.rows[id].principal in db.principals
  }

  /** And that is neither revoked nor expired. */
  predicate InForce(db: Tables, id: Id, now: int) {
    && Standing(db, id) && db.rows[id].revoked == None
    && (db.rows[id].expires.Some? ==> now < db.rows[id].expires.value)
  }

  /** What the code with no cache answers from the tables as they stand. */
  function SlowOn(crypto: Crypto, raw: string, db: Tables, now: int): Outcome {
    var id := if ParseToken(raw).Some? then ParseToken(raw).value.id else [];
    Slow(crypto, raw, Load(db, id), now, if id in db.rows then Some(db.rows[id].hash) else None)
  }

  /** Each answer, exactly when it is given, from the tables as they stand. */
  ghost predicate Answers(crypto: Crypto, raw: string, db: Tables, now: int, r: Outcome) {
    var p := ParseToken(raw);
    && (r == Refused(Malformed) <==> p == None)
    && (r == Refused(NotFound) <==> p.Some? && !Standing(db, p.value.id))
    && (r == Refused(Revoked) <==> p.Some? && Standing(db, p.value.id) && db.rows[p.value.id].revoked.Some?)
    && (r == Refused(Expired) <==>
          && p.Some? && Standing(db, p.value.id) && db.rows[p.value.id].revoked == None
          && db.rows[p.value.id].expires.Some? && db.rows[p.value.id].expires.value <= now)
    && (r == Refused(BadSecret) <==>
          && p.Some? && InForce(db, p.value.id, now)
          && crypto.verify(db.rows[p.value.id].hash, p.value.secret) == Some(false))
    && (r == Refused(Unreadable) <==>
          && p.Some? && InForce(db, p.value.id, now)
          && crypto.verify(db.rows[p.value.id].hash, p.value.secret) == None)
    && (r.Accepted? <==>
          && p.Some? && InForce(db, p.value.id, now)
          && crypto.verify(db.rows[p.value.id].hash, p.value.secret) == Some(true))
    && (r.Accepted? ==>
          && r.id == p.value.id && r.found.row == db.rows[r.id]
          && r.found.kind == db.principals[db.rows[r.id].principal]
          && (r.restricted <==> db.rows[r.id].restricted || r.found.kind == Executor))
  }

  lemma SlowAnswers(crypto: Crypto, raw: string, db: Tables, now: int)
    ensures Answers(crypto, raw, db, now, SlowOn(crypto, raw, db, now))
  {
    hide ParseToken;
  }

  predicate ReachesHash(raw: string, found: Option<Found>, now: int) {
    && ParseToken(raw).Some? && found.Some? && found.value.row.revoked == None
    && (found.value.row.expires.Some? ==> now < found.value.row.expires.value)
  }

  // ---------------------------------------------------------------------
  // The cache
  // ---------------------------------------------------------------------

  predicate Hit(cache: map<Digest, Entry>, key: Digest, id: Id, now: int) {
    key in cache && now <= cache[key].expires && cache[key].id == id
  }

  function Unexpired(cache: map<Digest, Entry>, now: int): map<Digest, Entry> {
    map k | k in cache && now <= cache[k].expires :: cache[k]
  }

  /** A full cache drops what has expired and, if that frees nothing, everything. */
  function MakeRoom(cache: map<Digest, Entry>, now: int, maxEntries: nat): (kept: map<Digest, Entry>)
    requires maxEntries > 0
    ensures |kept| < maxEntries
    ensures forall k :: k in kept ==> k in cache && kept[k] == cache[k]
    ensures |cache| < maxEntries ==> kept == cache
    ensures |cache| >= maxEntries ==>
              var live := set k | k in cache && now <= cache[k].expires;
              kept.Keys == if |live| < maxEntries then live else {}
  {
    assert Unexpired(cache, now).Keys == set k | k in cache && now <= cache[k].expires;
    if |cache| < maxEntries then cache
    else if |Unexpired(cache, now)| < maxEntries then Unexpired(cache, now)
    else map[]
  }

  function AfterRemember(
      cache: map<Digest, Entry>, key: Digest, id: Id, now: int, ttl: nat, maxEntries: nat): (kept: map<Digest, Entry>)
    requires maxEntries > 0
    ensures |kept| <= maxEntries
    ensures Hit(kept, key, id, now)
    ensures key in kept && kept[key].id == id && kept[key].expires == now + ttl
    ensures forall k :: k in kept && k != key ==> k in cache && kept[k] == cache[k]
  {
    MakeRoom(cache, now, maxEntries)[key := Entry(id, now + ttl)]
  }

  /** Whether a use at `now` is worth writing down. */
  predicate UseDue(touch: map<Id, int>, id: Id, now: int, interval: nat) {
    id !in touch || now - touch[id] >= interval
  }

  // ---------------------------------------------------------------------
  // Writing
  // ---------------------------------------------------------------------

  datatype Minting = Minting(
    name: string, scopes: seq<string>, expires: Option<int>, restricted: bool,
    id: Id, secret: seq<byte>, hash: string)

  function MintRefused(db: Tables, m: Minting): Option<Failure> {
    if m.name == "" then Some(NoName)
    else if m.scopes == [] then Some(NoScope)
    else if m.name in db.principals && (db.principals[m.name] == Executor) != m.restricted then Some(PrincipalKind)
    else None
  }

  function AfterMint(db: Tables, m: Minting, now: int): Tables {
    if MintRefused(db, m).Some? then db
    else
      var kind := if m.name in db.principals then db.principals[m.name] else if m.restricted then Executor else Service;
      Tables(
        db.rows[m.id := Row(m.name, m.scopes, now, None, m.expires, None, m.restricted, m.hash)],
        db.principals[m.name := kind])
  }

  /** The first revocation is kept. */
  function AfterRevoke(db: Tables, id: Id, now: int): Tables {
    if id in db.rows && db.rows[id].revoked == None
    then db.(rows := db.rows[id := db.rows[id].(revoked := Some(now))])
    else db
  }

  function AfterTouch(db: Tables, id: Id, now: int): Tables {
    if id in db.rows
    then db.(rows := db.rows[id := db.rows[id].(lastUsed := Some(now))])
    else db
  }

  /** Removing a principal takes its tokens with it. */
  function AfterRemoval(db: Tables, name: string): Tables {
    Tables(
      map id | id in db.rows && db.rows[id].principal != name :: db.rows[id],
      db.principals - {name})
  }

  // ---------------------------------------------------------------------
  // What the tables and the cache keep
  // ---------------------------------------------------------------------

  /** A credential as it was minted, whatever has become of its row. */
  datatype Minted = Minted(
    secret: seq<byte>, hash: string, name: string, scopes: seq<string>, restricted: bool, expires: Option<int>, at: int)

  function MintedBy(m: Minting, now: int): Minted {
    Minted(m.secret, m.hash, m.name, m.scopes, m.restricted, m.expires, now)
  }

  /** A row says what was minted: only its revocation and its last use can be new. */
  predicate AsMinted(row: Row, m: Minted) {
    && row.hash == m.hash && row.principal == m.name && row.scopes == m.scopes
    && row.restricted == m.restricted && row.expires == m.expires && row.createdAt == m.at
  }

  /** Everything that can have been minted: real sizes, and a hash of the secret. */
  ghost predicate Genuine(crypto: Crypto, m: map<Id, Minted>) {
    forall id :: id in m ==>
        |id| == ID_BYTES && |m[id].secret| == SECRET_BYTES && crypto.HashOf(m[id].hash, m[id].secret)
  }

  /** Every row is of a minted token, as it was minted. */
  ghost predicate RowsMinted(db: Tables, m: map<Id, Minted>) {
    forall id :: id in db.rows ==> id in m && AsMinted(db.rows[id], m[id])
  }

  /** Every entry is of the one spelling of a minted credential. */
  ghost predicate CacheMinted(crypto: Crypto, cache: map<Digest, Entry>, m: map<Id, Minted>) {
    forall k :: k in cache ==>
      cache[k].id in m && k == crypto.digest(Print(cache[k].id, m[cache[k].id].secret))
  }

  /** A credential just minted is accepted, under its one spelling, until it
    * expires, and is restricted exactly when it was minted so. */
  lemma MintedIsAccepted(crypto: Crypto, db: Tables, m: Minting, minted: int, now: int)
    requires |m.id| == ID_BYTES && |m.secret| == SECRET_BYTES && crypto.HashOf(m.hash, m.secret)
    requires KindsAgree(db) && MintRefused(db, m) == None
    ensures var found := Load(AfterMint(db, m, minted), m.id);
            && found.Some?
            && Slow(crypto, Print(m.id, m.secret), found, now, Some(m.hash)) ==
                 if m.expires.Some? && now >= m.expires.value then Refused(Expired)
                 else Accepted(m.id, found.value, m.restricted)
  {
    hide ParseToken, Print;
    ParsesIffPrinted(Print(m.id, m.secret), Presented(m.id, m.secret, Print(m.id, m.secret)));
  }

  /** Every row's principal is there, and an executor holds restricted tokens only,
    * nobody else any. */
  ghost predicate KindsAgree(db: Tables) {
    forall id :: id in db.rows ==>
      && db.rows[id].principal in db.principals
      && (db.principals[db.rows[id].principal] == Executor <==> db.rows[id].restricted)
  }

  /** Minting across kinds is refused, and removing a principal takes its tokens,
    * so no step leaves a token confined when its principal is not, or the reverse. */
  lemma StepsKeepKinds(db: Tables, m: Minting, id: Id, name: string, now: int)
    requires KindsAgree(db)
    ensures KindsAgree(AfterMint(db, m, now)) && KindsAgree(AfterRevoke(db, id, now))
    ensures KindsAgree(AfterTouch(db, id, now)) && KindsAgree(AfterRemoval(db, name))
  {
  }

  /** What each step leaves of the rows. Minting adds one. A revocation marks a row that
    * had none, and a use dates one, and neither changes anything else of any. A removal
    * takes exactly the rows of its principal. */
  lemma StepsLeave(db: Tables, m: Minting, id: Id, name: string, now: int, x: Id)
    ensures MintRefused(db, m).Some? ==> AfterMint(db, m, now) == db
    ensures MintRefused(db, m) == None ==>
              var after := AfterMint(db, m, now);
              && after.rows.Keys == db.rows.Keys + {m.id} && after.principals.Keys == db.principals.Keys + {m.name}
              && (x in db.rows && x != m.id ==> after.rows[x] == db.rows[x])
              && AsMinted(after.rows[m.id], MintedBy(m, now))
              && after.rows[m.id].lastUsed == None && after.rows[m.id].revoked == None
              && (forall p :: p in db.principals ==> after.principals[p] == db.principals[p])
              && (m.name !in db.principals ==> after.principals[m.name] == if m.restricted then Executor else Service)
    ensures var after := AfterRevoke(db, id, now);
            && after.rows.Keys == db.rows.Keys && after.principals == db.principals
            && (x in db.rows ==> LeavesBut(db.rows[x], after.rows[x], x == id, false))
            && (x in db.rows && x == id ==>
                  after.rows[x].revoked == if db.rows[x].revoked.Some? then db.rows[x].revoked else Some(now))
    ensures var after := AfterTouch(db, id, now);
            && after.rows.Keys == db.rows.Keys && after.principals == db.principals
            && (x in db.rows ==> LeavesBut(db.rows[x], after.rows[x], false, x == id))
            && (x in db.rows && x == id ==> after.rows[x].lastUsed == Some(now))
    ensures var after := AfterRemoval(db, name);
            && (x in after.rows <==> x in db.rows && db.rows[x].principal != name)
            && (x in after.rows ==> after.rows[x] == db.rows[x])
            && after.principals.Keys == db.principals.Keys - {name}
            && forall p :: p in after.principals ==> after.principals[p] == db.principals[p]
  {
  }

  lemma TouchLeaves(db: Tables, id: Id, now: int)
    ensures var after := AfterTouch(db, id, now);
            && after.rows.Keys == db.rows.Keys && after.principals == db.principals
            && (forall x :: x in db.rows ==>
                  && LeavesBut(db.rows[x], db.rows[x], false, x == id)
                  && LeavesBut(db.rows[x], after.rows[x], false, x == id))
            && (id in db.rows ==> after.rows[id].lastUsed == Some(now))
  {
    forall x | x in db.rows ensures LeavesBut(db.rows[x], AfterTouch(db, id, now).rows[x], false, x == id) {
    }
  }

  /** Two states of a row that differ at most in its revocation, or in its last use. */
  predicate LeavesBut(a: Row, b: Row, revocation: bool, use: bool) {
    && a.principal == b.principal && a.scopes == b.scopes && a.createdAt == b.createdAt
    && a.expires == b.expires && a.restricted == b.restricted && a.hash == b.hash
    && (!revocation ==> a.revoked == b.revoked) && (!use ==> a.lastUsed == b.lastUsed)
  }

  lemma TouchKeepsMinted(db: Tables, m: map<Id, Minted>, id: Id, now: int)
    requires RowsMinted(db, m)
    ensures RowsMinted(AfterTouch(db, id, now), m)
  {
  }

  /** A hit proves the secret: the presented string is the one that was minted. */
  lemma HitProves(crypto: Crypto, cache: map<Digest, Entry>, m: map<Id, Minted>, raw: string, now: int)
    requires crypto.CollisionFree() && CacheMinted(crypto, cache, m) && Genuine(crypto, m)
    requires ParseToken(raw).Some? && Hit(cache, crypto.digest(raw), ParseToken(raw).value.id, now)
    ensures var p := ParseToken(raw).value; p.id in m && crypto.verify(m[p.id].hash, p.secret) == Some(true)
  {
    hide ParseToken, Print;
    var p := ParseToken(raw).value;
    var secret := m[p.id].secret;
    assert raw == Print(p.id, secret);
    ParsesIffPrinted(raw, Presented(p.id, secret, raw));
  }

  /** Remembering a proven credential keeps the cache sound. */
  lemma RememberKeepsMinted(
      crypto: Crypto, cache: map<Digest, Entry>, m: map<Id, Minted>, raw: string, now: int, ttl: nat, maxEntries: nat)
    requires CacheMinted(crypto, cache, m) && Genuine(crypto, m) && maxEntries > 0
    requires ParseToken(raw).Some?
    requires var p := ParseToken(raw).value; p.id in m && crypto.verify(m[p.id].hash, p.secret) == Some(true)
    ensures CacheMinted(
              crypto, AfterRemember(cache, crypto.digest(raw), ParseToken(raw).value.id, now, ttl, maxEntries), m)
  {
    hide ParseToken, Print;
    var p := ParseToken(raw).value;
    ParsesIffPrinted(raw, p);
    assert p.secret == m[p.id].secret;
  }
}
