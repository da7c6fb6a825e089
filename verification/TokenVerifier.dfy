/** The credential store and the verifier in front of it, one call at a time.
  * What random generation yields arrives as a `Minting`; the clock is a field.
  */
module TokenVerifier {
  import opened Options
  import opened Token
  import opened Credentials

  const DEFAULT_TTL: nat := 600_000_000_000
  const DEFAULT_SIZE: nat := 10_000
  const DEFAULT_TOUCH_INTERVAL: nat := 300_000_000_000

  class Store {
    var tables: Tables
    var clock: int
    /** Every credential ever minted, whether its row still stands or not. */
    ghost var minted: map<Id, Minted>

    ghost predicate Valid(crypto: Crypto)
      reads this
    {
      Genuine(crypto, minted) && RowsMinted(tables, minted)
    }

    constructor (now: int)
      ensures tables == Tables(map[], map[]) && clock == now && minted == map[]
      ensures forall crypto :: Valid(crypto)
    {
      tables, clock, minted := Tables(map[], map[]), now, map[];
    }

    /** Mints a credential and returns the one string that presents it. The
      * generated id has never been generated before. */
    method Create(crypto: Crypto, m: Minting) returns (raw: Option<string>, why: Option<Failure>)
      requires Valid(crypto)
      requires |m.id| == ID_BYTES && |m.secret| == SECRET_BYTES && crypto.HashOf(m.hash, m.secret)
      requires m.id !in minted
      modifies this
      ensures Valid(crypto) && clock == old(clock)
      ensures why == MintRefused(old(tables), m) && tables == AfterMint(old(tables), m, clock)
      ensures why == Some(NoName) <==> m.name == ""
      ensures why == Some(NoScope) <==> m.name != "" && m.scopes == []
      ensures why == Some(PrincipalKind) <==>
                && m.name != "" && m.scopes != [] && m.name in old(tables).principals
                && (old(tables).principals[m.name] == Executor) != m.restricted
      ensures why.Some? ==> tables == old(tables) && why.value in {NoName, NoScope, PrincipalKind}
      ensures why == None ==>
                && tables.rows.Keys == old(tables).rows.Keys + {m.id}
                && (forall x :: x in old(tables).rows && x != m.id ==> tables.rows[x] == old(tables).rows[x])
                && AsMinted(tables.rows[m.id], MintedBy(m, clock))
                && tables.rows[m.id].lastUsed == None && tables.rows[m.id].revoked == None
      ensures why == None ==>
                tables.principals == if m.name in old(tables).principals then old(tables).principals
                                     else old(tables).principals[m.name := if m.restricted then Executor else Service]
      ensures raw == if why.Some? then None else Some(Print(m.id, m.secret))
      ensures minted == if why.Some? then old(minted) else old(minted)[m.id := MintedBy(m, clock)]
    {
      hide ParseToken, Print;
      if m.name == "" {
        return None, Some(NoName);
      }
      if m.scopes == [] {
        return None, Some(NoScope);
      }
      var kind: Kind;
      if m.name !in tables.principals {
        kind := if m.restricted then Executor else Service;
      } else {
        kind := tables.principals[m.name];
        if (kind == Executor) != m.restricted {
          return None, Some(PrincipalKind);
        }
      }
      var row := Row(m.name, m.scopes, clock, None, m.expires, None, m.restricted, m.hash);
      tables := Tables(tables.rows[m.id := row], tables.principals[m.name := kind]);
      minted := minted[m.id := MintedBy(m, clock)];
      return Some(Print(m.id, m.secret)), None;
    }

    /** Marks a row unusable. A second revocation is reported and keeps the first. */
    method Revoke(id: Id) returns (why: Option<Failure>)
      modifies this`tables
      ensures tables == AfterRevoke(old(tables), id, clock)
      ensures why == if id !in old(tables).rows then Some(NotFound)
                     else if old(tables).rows[id].revoked.Some? then Some(Revoked)
                     else None
      ensures why != Some(NotFound) ==> tables.rows[id].revoked.Some?
      ensures why.Some? ==> tables == old(tables)
      ensures why == None ==>
                && tables.principals == old(tables).principals && tables.rows.Keys == old(tables).rows.Keys
                && (forall x :: x in tables.rows ==> LeavesBut(old(tables).rows[x], tables.rows[x], x == id, false))
                && tables.rows[id].revoked == Some(clock)
    {
      if id !in tables.rows {
        return Some(NotFound);
      }
      var row := tables.rows[id];
      if row.revoked.Some? {
        return Some(Revoked);
      }
      tables := tables.(rows := tables.rows[id := row.(revoked := Some(clock))]);
      return None;
    }

    method TouchLastUsed(id: Id, now: int)
      modifies this`tables
      ensures tables == AfterTouch(old(tables), id, now)
    {
      if id in tables.rows {
        tables := tables.(rows := tables.rows[id := tables.rows[id].(lastUsed := Some(now))]);
      }
    }

    method HashOf(id: Id) returns (hash: Option<string>)
      ensures hash == if id in tables.rows then Some(tables.rows[id].hash) else None
    {
      hash := if id in tables.rows then Some(tables.rows[id].hash) else None;
    }
  }

  class Verifier {
    const store: Store
    const crypto: Crypto
    const ttl: nat
    const maxEntries: nat
    const touchInterval: nat
    var cache: map<Digest, Entry>
    var touch: map<Id, int>

    ghost predicate Valid()
      reads this, store
    {
      && maxEntries > 0
      && |cache| <= maxEntries
      && crypto.CollisionFree()
      && store.Valid(crypto)
      && CacheMinted(crypto, cache, store.minted)
    }

    /** Zero and negative settings mean the defaults. */
    constructor (store: Store, crypto: Crypto, ttl: int, maxEntries: int, touchInterval: int)
      requires store.Valid(crypto) && crypto.CollisionFree()
      ensures Valid() && this.store == store && this.crypto == crypto && cache == map[] && touch == map[]
      ensures this.ttl == if ttl > 0 then ttl else 600_000_000_000
      ensures this.maxEntries == if maxEntries > 0 then maxEntries else 10_000
      ensures this.touchInterval == if touchInterval > 0 then touchInterval else 300_000_000_000
    {
      this.store, this.crypto := store, crypto;
      this.ttl := if ttl <= 0 then DEFAULT_TTL else ttl;
      this.maxEntries := if maxEntries <= 0 then DEFAULT_SIZE else maxEntries;
      this.touchInterval := if touchInterval <= 0 then DEFAULT_TOUCH_INTERVAL else touchInterval;
      cache, touch := map[], map[];
    }

    /** What the code with no cache would answer from the tables as they stand. */
    function SlowNow(raw: string): Outcome
      reads this, store
    {
      SlowOn(crypto, raw, store.tables, store.clock)
    }

    /** Answers exactly as it would with an empty cache, whatever the cache holds. */
    method Verify(raw: string) returns (outcome: Outcome)
      requires Valid()
      modifies this`cache, this`touch, store`tables
      ensures Valid()
      ensures outcome == old(SlowNow(raw))
      ensures Answers(crypto, raw, old(store.tables), store.clock, outcome)
      ensures outcome.Accepted? ==>
                && store.tables.principals == old(store.tables).principals
                && store.tables.rows.Keys == old(store.tables).rows.Keys
                && (forall x :: x in store.tables.rows ==>
                      LeavesBut(old(store.tables).rows[x], store.tables.rows[x], false, x == outcome.id))
                && var due := outcome.id !in old(touch) ||
                              store.clock - old(touch)[outcome.id] >= touchInterval;
                   && store.tables.rows[outcome.id].lastUsed ==
                        (if due then Some(store.clock) else old(store.tables).rows[outcome.id].lastUsed)
                   && touch == if due then old(touch)[outcome.id := store.clock] else old(touch)
      ensures outcome.Refused? ==> store.tables == old(store.tables) && cache == old(cache) && touch == old(touch)
      ensures outcome.Accepted? ==> Hit(cache, crypto.digest(raw), outcome.id, store.clock)
      ensures outcome.Accepted? ==>
                cache == if Hit(old(cache), crypto.digest(raw), outcome.id, store.clock) then old(cache)
                         else AfterRemember(old(cache), crypto.digest(raw), outcome.id, store.clock, ttl, maxEntries)
    {
      hide ParseToken, Print, AfterRemember, SecretRefused, Inactive, AfterTouch, Hit, LeavesBut, Answers;
      SlowAnswers(crypto, raw, store.tables, store.clock);
      var parsed := ParseToken(raw);
      if parsed == None {
        return Refused(Malformed);
      }
      var p := parsed.value;
      var found := Load(store.tables, p.id);
      if found == None {
        return Refused(NotFound);
      }
      var now := store.clock;
      var why := Inactive(found.value.row, now);
      if why.Some? {
        return Refused(why.value);
      }
      why := Prove(raw, p, now);
      if why.Some? {
        return Refused(why.value);
      }
      RecordUse(p.id, now);
      return Grant(p.id, found.value);
    }

    /** Whether the secret is the token's, from the cache or else from the hash. */
    method Prove(raw: string, p: Presented, now: int) returns (why: Option<Failure>)
      requires Valid() && ParseToken(raw) == Some(p) && p.id in store.tables.rows
      modifies this`cache
      ensures Valid()
      ensures why == SecretRefused(crypto, store.tables.rows[p.id].hash, p.secret)
      ensures why.Some? ==> cache == old(cache)
      ensures why == None ==> Hit(cache, crypto.digest(raw), p.id, now)
      ensures why == None ==>
                cache == if Hit(old(cache), crypto.digest(raw), p.id, now) then old(cache)
                         else AfterRemember(old(cache), crypto.digest(raw), p.id, now, ttl, maxEntries)
    {
      hide ParseToken, Print;
      var key := crypto.digest(raw);
      var hit := Cached(key, p.id, now);
      if hit {
        HitProves(crypto, cache, store.minted, raw, now);
        return None;
      }
      var hash := store.HashOf(p.id);
      var ok := crypto.verify(hash.value, p.secret);
      if ok == None {
        return Some(Unreadable);
      }
      if !ok.value {
        return Some(BadSecret);
      }
      RememberKeepsMinted(crypto, cache, store.minted, raw, now, ttl, maxEntries);
      Remember(key, p.id, now);
      return None;
    }

    method Cached(key: Digest, id: Id, now: int) returns (b: bool)
      ensures b <==> Hit(cache, key, id, now)
      ensures b <==> key in cache && cache[key].id == id && now <= cache[key].expires
    {
      if key !in cache || now > cache[key].expires || cache[key].id != id {
        return false;
      }
      return true;
    }

    method Remember(key: Digest, id: Id, now: int)
      requires maxEntries > 0
      modifies this`cache
      ensures cache == AfterRemember(old(cache), key, id, now, ttl, maxEntries)
    {
      if |cache| >= maxEntries {
        var pending := cache.Keys;
        ghost var before := cache;
        while pending != {}
          invariant pending <= before.Keys
          invariant cache == map k | k in before && (k in pending || now <= before[k].expires) :: before[k]
          decreases pending
        {
          var k :| k in pending;
          pending := pending - {k};
          if now > cache[k].expires {
            cache := cache - {k};
          }
        }
        assert cache == Unexpired(before, now);
        if |cache| >= maxEntries {
          cache := map[];
        }
      }
      cache := cache[key := Entry(id, now + ttl)];
    }

    /** Notes a use, at most once for each token in an interval. */
    method RecordUse(id: Id, now: int)
      requires Valid()
      modifies this`touch, store`tables
      ensures Valid()
      ensures touch == if UseDue(old(touch), id, now, touchInterval) then old(touch)[id := now] else old(touch)
      ensures store.tables ==
                if UseDue(old(touch), id, now, touchInterval) then AfterTouch(old(store.tables), id, now)
                else old(store.tables)
      ensures store.tables.principals == old(store.tables).principals
      ensures store.tables.rows.Keys == old(store.tables).rows.Keys
      ensures forall x :: x in store.tables.rows ==>
                LeavesBut(old(store.tables).rows[x], store.tables.rows[x], false, x == id)
      ensures id in store.tables.rows ==>
                store.tables.rows[id].lastUsed ==
                  if id !in old(touch) || now - old(touch)[id] >= touchInterval then Some(now)
                  else old(store.tables).rows[id].lastUsed
    {
      hide Print, Genuine, RowsMinted, CacheMinted, AfterTouch, LeavesBut;
      TouchKeepsMinted(store.tables, store.minted, id, now);
      TouchLeaves(store.tables, id, now);
      if id in touch && now - touch[id] < touchInterval {
        return;
      }
      touch := touch[id := now];
      store.TouchLastUsed(id, now);
    }
  }
}
