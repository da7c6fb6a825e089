/** Verifications in flight together: every read and write of the tables, the
  * clock and the cache is a step of its own, and steps of any number of calls,
  * mintings, revocations and removals interleave in any order.
  */
module VerifierRuns {
  import opened Options
  import opened Base32
  import opened Token
  import opened Credentials

  // ---------------------------------------------------------------------
  // The state machine
  // ---------------------------------------------------------------------

  datatype Step = Parsed | Loaded | Active | Missed | Proven | Using | Touching | Done(outcome: Outcome)

  /** A verification: what it was given, what it has read, and where it stands.
    * A call that hits reads no hash; `hash` then says what there was to read. */
  datatype Call = Call(raw: string, id: Id, found: Option<Found>, now: int, hit: bool, hash: Option<string>, at: Step)

  datatype Revoking = Reading(id: Id) | Writing(id: Id) | Returned(id: Id, why: Option<Failure>)

  datatype Config = Config(crypto: Crypto, ttl: nat, maxEntries: nat, touchInterval: nat) {
    ghost predicate Lawful() {
      crypto.CollisionFree() && maxEntries > 0
    }
  }

  datatype State = State(
    db: Tables, minted: map<Id, Minted>, clock: int,
    cache: map<Digest, Entry>, touch: map<Id, int>,
    calls: map<nat, Call>, revokes: map<nat, Revoking>)

  datatype Event =
    | Tick(now: int)
    | Mint(m: Minting)
    | Remove(name: string)
    | Start(c: nat, raw: string)
    | Advance(c: nat)
    | StartRevoke(r: nat, id: Id)
    | AdvanceRevoke(r: nat)

  ghost predicate Initial(st: State) {
    st.db == Tables(map[], map[]) && st.minted == map[] && st.cache == map[] && st.touch == map[]
    && st.calls == map[] && st.revokes == map[]
  }

  function Begin(crypto: Crypto, raw: string): Call {
    match ParseToken(raw)
    case None => Call(raw, [], None, 0, false, None, Done(Refused(Malformed)))
    case Some(p) => Call(raw, p.id, None, 0, false, None, Parsed)
  }

  function Finish(call: Call, outcome: Outcome): Call {
    call.(at := Done(outcome))
  }

  function StoredHash(db: Tables, id: Id): Option<string> {
    if id in db.rows then Some(db.rows[id].hash) else None
  }

  function Secret(raw: string): seq<byte> {
    if ParseToken(raw).Some? then ParseToken(raw).value.secret else []
  }

  /** The next step of a call on the shared state. */
  function StepCall(cfg: Config, st: State, call: Call): (r: (State, Call))
    requires cfg.maxEntries > 0
    ensures r.0 == st.(db := r.0.db, cache := r.0.cache, touch := r.0.touch)
    ensures r.1.raw == call.raw && r.1.id == call.id
  {
    var key := cfg.crypto.digest(call.raw);
    match call.at
    case Parsed =>
      var found := Load(st.db, call.id);
      if found == None then (st, Finish(call, Refused(NotFound)))
      else (st, call.(found := found, at := Loaded))
    case Loaded =>
      var now := st.clock;
      if call.found == None then (st, call)
      else
        var why := Inactive(call.found.value.row, now);
        if why.Some? then (st, Finish(call.(now := now), Refused(why.value)))
        else (st, call.(now := now, at := Active))
    case Active =>
      if call.found == None then (st, call)
      else if Hit(st.cache, key, call.id, call.now)
      then (st, call.(hit := true, hash := StoredHash(st.db, call.id), at := Using))
      else (st, call.(at := Missed))
    case Missed =>
      if call.id !in st.db.rows then (st, Finish(call, Refused(NotFound)))
      else
        var hash := st.db.rows[call.id].hash;
        var why := SecretRefused(cfg.crypto, hash, Secret(call.raw));
        if why.Some? then (st, Finish(call.(hash := Some(hash)), Refused(why.value)))
        else (st, call.(hash := Some(hash), at := Proven))
    case Proven =>
      (st.(cache := AfterRemember(st.cache, key, call.id, call.now, cfg.ttl, cfg.maxEntries)), call.(at := Using))
    case Using =>
      if call.found == None then (st, call)
      else if UseDue(st.touch, call.id, call.now, cfg.touchInterval)
      then (st.(touch := st.touch[call.id := call.now]), call.(at := Touching))
      else (st, Finish(call, Grant(call.id, call.found.value)))
    case Touching =>
      if call.found == None then (st, call)
      else (st.(db := AfterTouch(st.db, call.id, call.now)), Finish(call, Grant(call.id, call.found.value)))
    case Done(_) => (st, call)
  }

  function StepRevoke(st: State, rv: Revoking): (State, Revoking) {
    match rv
    case Reading(id) =>
      if id !in st.db.rows then (st, Returned(id, Some(NotFound)))
      else if st.db.rows[id].revoked.Some? then (st, Returned(id, Some(Revoked)))
      else (st, Writing(id))
    case Writing(id) => (st.(db := AfterRevoke(st.db, id, st.clock)), Returned(id, None))
    case Returned(_, _) => (st, rv)
  }

  /** Ids come from a generator that never repeats one. */
  ghost predicate Next(cfg: Config, st: State, e: Event, st': State)
    requires cfg.Lawful()
  {
    match e
    case Tick(now) => st' == st.(clock := now)
    case Mint(m) =>
      && |m.id| == ID_BYTES && |m.secret| == SECRET_BYTES
      && cfg.crypto.HashOf(m.hash, m.secret) && m.id !in st.minted
      && st' == if MintRefused(st.db, m).Some? then st
                else st.(db := AfterMint(st.db, m, st.clock), minted := st.minted[m.id := MintedBy(m, st.clock)])
    case Remove(name) => st' == st.(db := AfterRemoval(st.db, name))
    case Start(c, raw) => c !in st.calls && st' == st.(calls := st.calls[c := Begin(cfg.crypto, raw)])
    case Advance(c) =>
      c in st.calls &&
      var (mid, call) := StepCall(cfg, st, st.calls[c]);
      st' == mid.(calls := st.calls[c := call])
    case StartRevoke(r, id) => r !in st.revokes && st' == st.(revokes := st.revokes[r := Reading(id)])
    case AdvanceRevoke(r) =>
      r in st.revokes &&
      var (mid, rv) := StepRevoke(st, st.revokes[r]);
      st' == mid.(revokes := st.revokes[r := rv])
  }

  ghost predicate IsRun(cfg: Config, states: seq<State>, events: seq<Event>)
    requires cfg.Lawful()
  {
    && |states| == |events| + 1
    && Initial(states[0])
    && forall i :: 0 <= i < |events| ==> Next(cfg, states[i], events[i], states[i + 1])
  }

  // ---------------------------------------------------------------------
  // What every step keeps
  // ---------------------------------------------------------------------

  /** What a call has read is genuine: its row is as minted, and so is its hash. */
  ghost predicate ReadsMinted(call: Call, m: map<Id, Minted>) {
    && (call.found.Some? ==> call.id in m && AsMinted(call.found.value.row, m[call.id]))
    && (call.hash.Some? ==> call.id in m && call.hash.value == m[call.id].hash)
  }

  /** A hit whose row was removed after it was loaded. */
  predicate Overtaken(call: Call) {
    call.hit && call.hash == None
  }

  /** Where a call stands against what the code with no cache answers from the
    * same reads. */
  ghost predicate OnTrack(crypto: Crypto, call: Call, m: map<Id, Minted>) {
    match call.at
    case Parsed => ParsedAs(call) && call.found == None && call.hash == None && !call.hit
    case Loaded => ParsedAs(call) && call.found.Some? && call.hash == None && !call.hit
    case Active => ParsedAs(call) && Usable(call) && call.hash == None && !call.hit
    case Missed => ParsedAs(call) && Usable(call) && call.hash == None && !call.hit
    case Done(outcome) =>
      && (outcome.Accepted? ==> Granted(crypto, call, m) && outcome == Grant(call.id, call.found.value))
      && (outcome.Refused? ==> !call.hit && outcome == Slow(crypto, call.raw, call.found, call.now, call.hash))
    case _ => Granted(crypto, call, m)
  }

  /** All that acceptance takes, the check of the secret by hash or by hit. */
  ghost predicate Granted(crypto: Crypto, call: Call, m: map<Id, Minted>) {
    && ParsedAs(call) && Usable(call) && call.id in m
    && SecretRefused(crypto, m[call.id].hash, Secret(call.raw)) == None
    && (call.hash == None ==> call.hit)
  }

  ghost predicate ParsedAs(call: Call) {
    ParseToken(call.raw).Some? && ParseToken(call.raw).value.id == call.id
  }

  ghost predicate Usable(call: Call) {
    call.found.Some? && Inactive(call.found.value.row, call.now) == None
  }

  ghost predicate CallOk(crypto: Crypto, call: Call, m: map<Id, Minted>) {
    ReadsMinted(call, m) && OnTrack(crypto, call, m)
  }

  ghost predicate Inv(cfg: Config, st: State) {
    && Genuine(cfg.crypto, st.minted)
    && RowsMinted(st.db, st.minted)
    && CacheMinted(cfg.crypto, st.cache, st.minted)
    && |st.cache| <= cfg.maxEntries
    && st.touch.Keys <= st.minted.Keys
    && forall c :: c in st.calls ==> CallOk(cfg.crypto, st.calls[c], st.minted)
  }

  lemma BeginOk(crypto: Crypto, raw: string, m: map<Id, Minted>)
    ensures CallOk(crypto, Begin(crypto, raw), m)
  {
    hide ParseToken, Print, SecretRefused, Inactive;
  }

  /** One step of one call keeps it on track. A hit is where this needs the cache
    * to be sound: it takes the place of the check of the secret. */
  lemma StepStaysOnTrack(cfg: Config, st: State, call: Call)
    requires cfg.Lawful() && Inv(cfg, st) && CallOk(cfg.crypto, call, st.minted)
    ensures CallOk(cfg.crypto, StepCall(cfg, st, call).1, st.minted)
  {
    hide ParseToken, Print, CacheMinted, Hit, AfterRemember, Genuine;
    if call.at == Active && Hit(st.cache, cfg.crypto.digest(call.raw), call.id, call.now) {
      HitProves(cfg.crypto, st.cache, st.minted, call.raw, call.now);
    }
  }

  /** The tables, the cache and the touch times stay sound, and the cache bounded. */
  lemma StepKeepsShared(cfg: Config, st: State, call: Call)
    requires cfg.Lawful() && Inv(cfg, st) && CallOk(cfg.crypto, call, st.minted)
    ensures var mid := StepCall(cfg, st, call).0;
            && mid == st.(db := mid.db, cache := mid.cache, touch := mid.touch)
            && RowsMinted(mid.db, st.minted)
            && CacheMinted(cfg.crypto, mid.cache, st.minted)
            && |mid.cache| <= cfg.maxEntries
            && mid.touch.Keys <= st.minted.Keys
  {
    hide ParseToken, Print, CacheMinted, RowsMinted, Hit, MakeRoom, Genuine, AfterTouch;
    if call.at == Proven {
      RememberKeepsMinted(cfg.crypto, st.cache, st.minted, call.raw, call.now, cfg.ttl, cfg.maxEntries);
    }
    TouchKeepsMinted(st.db, st.minted, call.id, call.now);
  }

  lemma NextKeepsInv(cfg: Config, st: State, e: Event, st': State)
    requires cfg.Lawful() && Inv(cfg, st) && Next(cfg, st, e, st')
    ensures Inv(cfg, st')
  {
    hide ParseToken, Print, CallOk, StepCall, RowsMinted, CacheMinted, Genuine, AfterRevoke, AfterRemoval, AfterMint;
    match e
    case Remove(name) => RemovalKeepsMinted(st.db, st.minted, name);
    case Mint(m) => MintKeepsInv(cfg, st, m, st');
    case Start(c, raw) => BeginOk(cfg.crypto, raw, st.minted);
    case Advance(c) => AdvanceKeepsInv(cfg, st, c, st');
    case AdvanceRevoke(r) => RevokeKeepsMinted(st.db, st.minted, st.revokes[r].id, st.clock);
    case _ =>
  }

  lemma AdvanceKeepsInv(cfg: Config, st: State, c: nat, st': State)
    requires cfg.Lawful() && Inv(cfg, st) && Next(cfg, st, Advance(c), st')
    ensures Inv(cfg, st')
  {
    hide Print, CallOk, StepCall, RowsMinted, CacheMinted, Genuine;
    StepStaysOnTrack(cfg, st, st.calls[c]);
    StepKeepsShared(cfg, st, st.calls[c]);
  }

  lemma RemovalKeepsMinted(db: Tables, m: map<Id, Minted>, name: string)
    requires RowsMinted(db, m)
    ensures RowsMinted(AfterRemoval(db, name), m)
  {
  }

  lemma RevokeKeepsMinted(db: Tables, m: map<Id, Minted>, id: Id, now: int)
    requires RowsMinted(db, m)
    ensures RowsMinted(AfterRevoke(db, id, now), m)
  {
  }

  lemma MintKeepsInv(cfg: Config, st: State, m: Minting, st': State)
    requires cfg.Lawful() && Inv(cfg, st) && Next(cfg, st, Mint(m), st')
    ensures Inv(cfg, st')
  {
    hide Print, CallOk, CacheMinted, RowsMinted, Genuine, Crypto.HashOf, AfterMint;
    if MintRefused(st.db, m) == None {
      TablesGrow(cfg.crypto, st.db, st.cache, st.minted, m, st.clock);
      forall c | c in st.calls ensures CallOk(cfg.crypto, st.calls[c], st'.minted) {
        CallGrows(cfg.crypto, st.calls[c], st.minted, m, st.clock);
      }
    }
  }

  lemma TablesGrow(crypto: Crypto, db: Tables, cache: map<Digest, Entry>, minted: map<Id, Minted>, m: Minting, now: int)
    requires Genuine(crypto, minted) && RowsMinted(db, minted) && CacheMinted(crypto, cache, minted)
    requires |m.id| == ID_BYTES && |m.secret| == SECRET_BYTES && crypto.HashOf(m.hash, m.secret) && m.id !in minted
    ensures var more := minted[m.id := MintedBy(m, now)];
            Genuine(crypto, more) && RowsMinted(AfterMint(db, m, now), more) && CacheMinted(crypto, cache, more)
  {
    hide Print, Crypto.HashOf;
  }

  lemma CallGrows(crypto: Crypto, call: Call, minted: map<Id, Minted>, m: Minting, now: int)
    requires CallOk(crypto, call, minted) && m.id !in minted
    ensures CallOk(crypto, call, minted[m.id := MintedBy(m, now)])
  {
    hide ParseToken, Print, Slow, SecretRefused, Inactive;
  }

  lemma {:induction false} RunKeepsInv(cfg: Config, states: seq<State>, events: seq<Event>, i: nat)
    requires cfg.Lawful() && IsRun(cfg, states, events) && i < |states|
    ensures Inv(cfg, states[i])
  {
    hide Next, CallOk, CacheMinted, RowsMinted, Genuine, ParseToken, Print;
    if i > 0 {
      RunKeepsInv(cfg, states, events, i - 1);
      NextKeepsInv(cfg, states[i - 1], events[i - 1], states[i]);
    } else {
      InitialInv(cfg, states[0]);
    }
  }

  lemma InitialInv(cfg: Config, st: State)
    requires Initial(st)
    ensures Inv(cfg, st)
  {
    hide Print, CallOk;
  }

  // ---------------------------------------------------------------------
  // What holds over every run
  // ---------------------------------------------------------------------

  lemma DoneAgainstSlow(crypto: Crypto, call: Call, m: map<Id, Minted>)
    requires CallOk(crypto, call, m) && call.at.Done?
    ensures var slow := Slow(crypto, call.raw, call.found, call.now, call.hash);
            && (call.at.outcome == slow <==> !Overtaken(call))
            && (Overtaken(call) ==> call.at.outcome.Accepted? && slow == Refused(NotFound))
  {
    hide ParseToken, Print;
  }

  /** A finished call answered what the code with no cache answers from the row, the
    * time and the hash there were to read, with one exception: when the row is
    * removed between a hit's load and its lookup, the hit accepts where that code
    * would find no hash. The cache is never over its bound. */
  lemma RunAnswersAsSlowIff(cfg: Config, states: seq<State>, events: seq<Event>, i: nat, c: nat)
    requires cfg.Lawful() && IsRun(cfg, states, events) && i < |states|
    requires c in states[i].calls && states[i].calls[c].at.Done?
    ensures var call := states[i].calls[c];
            var slow := Slow(cfg.crypto, call.raw, call.found, call.now, call.hash);
            && (call.at.outcome == slow <==> !Overtaken(call))
            && (Overtaken(call) ==> call.at.outcome.Accepted? && slow == Refused(NotFound))
    ensures |states[i].cache| <= cfg.maxEntries
  {
    hide ParseToken, Print, Next, Slow, CallOk;
    RunKeepsInv(cfg, states, events, i);
    DoneAgainstSlow(cfg.crypto, states[i].calls[c], states[i].minted);
  }

  /** Calls in a run without removals. */
  ghost predicate Present(st: State) {
    forall c :: c in st.calls ==>
      && (st.calls[c].found.Some? ==> st.calls[c].id in st.db.rows)
      && !Overtaken(st.calls[c])
  }

  lemma CallStaysPresent(cfg: Config, st: State, call: Call)
    requires cfg.maxEntries > 0
    requires (call.found.Some? ==> call.id in st.db.rows) && !Overtaken(call)
    ensures var (mid, after) := StepCall(cfg, st, call);
            && mid.db.rows.Keys == st.db.rows.Keys
            && (after.found.Some? ==> after.id in st.db.rows) && !Overtaken(after)
  {
    hide Hit, AfterRemember, SecretRefused, Inactive, Grant;
  }

  lemma NextKeepsPresent(cfg: Config, st: State, e: Event, st': State)
    requires cfg.Lawful() && Next(cfg, st, e, st') && Present(st) && !e.Remove?
    ensures Present(st')
  {
    hide ParseToken, StepCall, MintRefused;
    if e.Advance? {
      CallStaysPresent(cfg, st, st.calls[e.c]);
    }
  }

  /** Where no principal is removed there is no exception. */
  lemma {:induction false} RunAnswersAsSlow(cfg: Config, states: seq<State>, events: seq<Event>, i: nat)
    requires cfg.Lawful() && IsRun(cfg, states, events) && i < |states|
    requires forall j :: 0 <= j < i ==> !events[j].Remove?
    ensures Present(states[i])
    ensures forall c :: c in states[i].calls && states[i].calls[c].at.Done? ==>
              var call := states[i].calls[c];
              call.at.outcome == Slow(cfg.crypto, call.raw, call.found, call.now, call.hash)
  {
    hide ParseToken, Print, Next, Slow, Overtaken;
    if i > 0 {
      RunAnswersAsSlow(cfg, states, events, i - 1);
      NextKeepsPresent(cfg, states[i - 1], events[i - 1], states[i]);
    }
    forall c | c in states[i].calls && states[i].calls[c].at.Done?
      ensures var call := states[i].calls[c];
              call.at.outcome == Slow(cfg.crypto, call.raw, call.found, call.now, call.hash)
    {
      RunAnswersAsSlowIff(cfg, states, events, i, c);
    }
  }

  /** Nobody is let in without the string that was printed when the credential
    * was minted, through the cache or otherwise, nor with a row that was revoked
    * or had expired when it was read. */
  lemma RunAcceptsOnlyMinted(cfg: Config, states: seq<State>, events: seq<Event>, i: nat, c: nat)
    requires cfg.Lawful() && IsRun(cfg, states, events) && i < |states|
    requires c in states[i].calls && states[i].calls[c].at.Done? && states[i].calls[c].at.outcome.Accepted?
    ensures var call := states[i].calls[c];
            && call.id in states[i].minted
            && call.raw == Print(call.id, states[i].minted[call.id].secret)
            && call.found.Some? && Inactive(call.found.value.row, call.now) == None
    ensures var (call, m) := (states[i].calls[c], states[i].minted[states[i].calls[c].id]);
            && call.at.outcome.id == call.id && call.at.outcome.found == call.found.value
            && call.found.value.row.scopes == m.scopes && call.found.value.row.principal == m.name
            && call.found.value.row.restricted == m.restricted && call.found.value.row.revoked == None
            && (m.expires.Some? ==> call.now < m.expires.value)
  {
    hide StepCall, Next, Print, ParseToken, Genuine, RowsMinted, CacheMinted, CallOk, Inactive;
    RunKeepsInv(cfg, states, events, i);
    AcceptedMeansMinted(cfg.crypto, states[i].calls[c], states[i].minted);
  }

  lemma AcceptedMeansMinted(crypto: Crypto, call: Call, m: map<Id, Minted>)
    requires Genuine(crypto, m) && CallOk(crypto, call, m) && call.at.Done? && call.at.outcome.Accepted?
    ensures call.id in m && call.raw == Print(call.id, m[call.id].secret)
    ensures call.found.Some? && Inactive(call.found.value.row, call.now) == None
    ensures call.at.outcome.id == call.id && call.at.outcome.found == call.found.value
    ensures var (row, minted) := (call.found.value.row, m[call.id]);
            && row.scopes == minted.scopes && row.principal == minted.name && row.restricted == minted.restricted
            && row.revoked == None && (minted.expires.Some? ==> call.now < minted.expires.value)
  {
    hide ParseToken, Print;
    var p := ParseToken(call.raw).value;
    ParsesIffPrinted(call.raw, p);
  }

  /** A minted credential that may no longer be used: revoked, or gone. */
  ghost predicate Barred(st: State, id: Id) {
    id in st.minted && (id in st.db.rows ==> st.db.rows[id].revoked.Some?)
  }

  /** The call has not read a usable row of `id`. */
  ghost predicate ReadBarred(st: State, c: nat, id: Id) {
    c in st.calls && st.calls[c].id == id && st.calls[c].found.Some? ==>
      st.calls[c].found.value.row.revoked.Some?
  }

  /** From one moment of a run to a later one a row keeps all it was minted with, and a
    * revocation once it has one: only a first revocation and its last use are new. */
  lemma {:induction false} RowsStayAsMinted(
      cfg: Config, states: seq<State>, events: seq<Event>, i: nat, j: nat, id: Id)
    requires cfg.Lawful() && IsRun(cfg, states, events) && i <= j < |states|
    requires id in states[i].db.rows && id in states[j].db.rows
    ensures var (was, now) := (states[i].db.rows[id], states[j].db.rows[id]);
            LeavesBut(was, now, true, true) && (was.revoked.Some? ==> now.revoked == was.revoked)
  {
    hide Next, StepCall, Print, ParseToken, Genuine, CacheMinted, CallOk, LeavesBut;
    if i < j {
      RunKeepsInv(cfg, states, events, i);
      MintedStays(cfg, states, events, i, j - 1);
      RowStays(cfg, states[j - 1], events[j - 1], states[j], id);
      RowsStayAsMinted(cfg, states, events, i, j - 1, id);
      BothSteps(states[i].db.rows[id], states[j - 1].db.rows[id], states[j].db.rows[id]);
    } else {
      SameRow(states[i].db.rows[id]);
    }
  }

  lemma SameRow(row: Row)
    ensures LeavesBut(row, row, true, true)
  {
  }

  lemma BothSteps(a: Row, b: Row, c: Row)
    requires LeavesBut(a, b, true, true) && LeavesBut(b, c, true, true)
    ensures LeavesBut(a, c, true, true)
  {
  }

  lemma {:induction false} MintedStays(cfg: Config, states: seq<State>, events: seq<Event>, i: nat, j: nat)
    requires cfg.Lawful() && IsRun(cfg, states, events) && i <= j < |states|
    ensures forall id :: id in states[i].minted ==> id in states[j].minted
    decreases j
  {
    hide Next;
    if i < j {
      MintedStays(cfg, states, events, i, j - 1);
      MintedGrows(cfg, states[j - 1], events[j - 1], states[j]);
    }
  }

  lemma MintedGrows(cfg: Config, st: State, e: Event, st': State)
    requires cfg.Lawful() && Next(cfg, st, e, st')
    ensures forall id :: id in st.minted ==> id in st'.minted
  {
    hide StepCall, AfterMint, AfterRemoval, AfterRevoke, Begin, MintRefused;
  }

  /** All that a call writes to the tables is the date of a use. */
  lemma CallWrites(cfg: Config, st: State, call: Call)
    requires cfg.maxEntries > 0
    ensures StepCall(cfg, st, call).0.db in {st.db, AfterTouch(st.db, call.id, call.now)}
  {
    hide AfterTouch, AfterRemember, SecretRefused, Inactive, Hit, UseDue, Grant, Load;
  }

  /** One step, of a row that stands after it: it stood before, unless just minted. */
  lemma RowStays(cfg: Config, st: State, e: Event, st': State, id: Id)
    requires cfg.Lawful() && Next(cfg, st, e, st') && id in st.minted && id in st'.db.rows
    ensures id in st.db.rows && LeavesBut(st.db.rows[id], st'.db.rows[id], true, true)
    ensures st.db.rows[id].revoked.Some? ==> st'.db.rows[id].revoked == st.db.rows[id].revoked
  {
    hide StepCall, AfterMint, AfterRevoke, AfterTouch, AfterRemoval, MintRefused, Begin;
    match e
    case Mint(m) => StepsLeave(st.db, m, id, "", st.clock, id);
    case Remove(name) => StepsLeave(st.db, SomeMinting(), id, name, st.clock, id);
    case Advance(c) =>
      CallWrites(cfg, st, st.calls[c]);
      StepsLeave(st.db, SomeMinting(), st.calls[c].id, "", st.calls[c].now, id);
    case AdvanceRevoke(r) => StepsLeave(st.db, SomeMinting(), st.revokes[r].id, "", st.clock, id);
    case _ =>
  }

  /** Nothing makes a barred credential usable again. */
  lemma StaysBarred(cfg: Config, st: State, e: Event, st': State, id: Id)
    requires cfg.Lawful() && Next(cfg, st, e, st')
    ensures st.minted.Keys <= st'.minted.Keys
    ensures Barred(st, id) ==> Barred(st', id)
  {
    hide ParseToken, Print, Hit, AfterRemember, SecretRefused;
  }

  /** And no later read finds it usable. */
  lemma BarredStays(cfg: Config, st: State, e: Event, st': State, id: Id, c: nat)
    requires cfg.Lawful() && Next(cfg, st, e, st') && Barred(st, id) && ReadBarred(st, c, id)
    ensures Barred(st', id) && ReadBarred(st', c, id)
  {
    hide ParseToken, Print, Hit, AfterRemember, SecretRefused;
    StaysBarred(cfg, st, e, st', id);
  }

  lemma {:induction false} BarredFrom(
      cfg: Config, states: seq<State>, events: seq<Event>, i: nat, j: nat, id: Id, c: nat)
    requires cfg.Lawful() && IsRun(cfg, states, events) && i <= j < |states|
    requires Barred(states[i], id) && c !in states[i].calls
    ensures Barred(states[j], id) && ReadBarred(states[j], c, id)
  {
    hide StepCall;
    if i < j {
      BarredFrom(cfg, states, events, i, j - 1, id, c);
      BarredStays(cfg, states[j - 1], events[j - 1], states[j], id, c);
    }
  }

  /** What a revocation in flight has established. */
  ghost predicate RevokeOk(st: State, r: nat) {
    r in st.revokes ==>
      match st.revokes[r]
      case Reading(_) => true
      case Writing(id) => id in st.minted
      case Returned(id, why) => why != Some(NotFound) ==> Barred(st, id)
  }

  lemma NextKeepsRevokeOk(cfg: Config, st: State, e: Event, st': State, r: nat)
    requires cfg.Lawful() && RowsMinted(st.db, st.minted) && Next(cfg, st, e, st') && RevokeOk(st, r)
    ensures RevokeOk(st', r)
  {
    hide ParseToken, Print, StepCall, Barred;
    if e == AdvanceRevoke(r) {
      AdvanceKeepsRevokeOk(cfg, st, r, st');
    } else if r in st.revokes {
      StaysBarred(cfg, st, e, st', st.revokes[r].id);
      assert st'.revokes[r] == st.revokes[r];
    }
  }

  lemma AdvanceKeepsRevokeOk(cfg: Config, st: State, r: nat, st': State)
    requires cfg.Lawful() && RowsMinted(st.db, st.minted) && Next(cfg, st, AdvanceRevoke(r), st') && RevokeOk(st, r)
    ensures RevokeOk(st', r)
  {
  }

  lemma {:induction false} RunKeepsRevokeOk(cfg: Config, states: seq<State>, events: seq<Event>, i: nat, r: nat)
    requires cfg.Lawful() && IsRun(cfg, states, events) && i < |states|
    ensures RevokeOk(states[i], r)
  {
    hide Next, Barred, ParseToken, Print, CallOk;
    assert i == 0 ==> r !in states[i].revokes;
    if i > 0 {
      RunKeepsRevokeOk(cfg, states, events, i - 1, r);
      RunKeepsInv(cfg, states, events, i - 1);
      NextKeepsRevokeOk(cfg, states[i - 1], events[i - 1], states[i], r);
    }
  }

  /** Revocation is immediate: once a revocation of `id` has returned, whether it
    * did the revoking or found it done, no verification started after that
    * accepts it, whatever is cached and however the clock moves. */
  lemma NoneAcceptedAfterRevoke(
      cfg: Config, states: seq<State>, events: seq<Event>, i: nat, j: nat, r: nat, id: Id, why: Option<Failure>, c: nat)
    requires cfg.Lawful() && IsRun(cfg, states, events) && i <= j < |states|
    requires r in states[i].revokes && states[i].revokes[r] == Returned(id, why) && why != Some(NotFound)
    requires c !in states[i].calls
    requires c in states[j].calls && states[j].calls[c].at.Done? && states[j].calls[c].at.outcome.Accepted?
    ensures states[j].calls[c].id != id
  {
    hide StepCall;
    RunKeepsRevokeOk(cfg, states, events, i, r);
    BarredFrom(cfg, states, events, i, j, id, c);
    RunAcceptsOnlyMinted(cfg, states, events, j, c);
  }

  /** Writing, or returned success. */
  ghost predicate Succeeding(st: State, r: nat, id: Id) {
    r in st.revokes && (st.revokes[r] == Writing(id) || st.revokes[r] == Returned(id, None))
  }

  ghost predicate BothWriting(states: seq<State>, i: nat, r: nat, q: nat, id: Id) {
    && i < |states| && r in states[i].revokes && q in states[i].revokes
    && states[i].revokes[r] == states[i].revokes[q] == Writing(id)
  }

  /** A revocation that has begun to write goes on to return success. */
  lemma StaysSucceeding(cfg: Config, st: State, e: Event, st': State, r: nat, id: Id)
    requires cfg.Lawful() && Next(cfg, st, e, st') && Succeeding(st, r, id)
    ensures Succeeding(st', r, id)
  {
    hide ParseToken, Print, StepCall, AfterMint, AfterRemoval;
  }

  lemma {:induction false} SucceedingFrom(
      cfg: Config, states: seq<State>, events: seq<Event>, i: nat, j: nat, r: nat, id: Id)
    requires cfg.Lawful() && IsRun(cfg, states, events) && i <= j < |states| && Succeeding(states[i], r, id)
    ensures Succeeding(states[j], r, id)
  {
    hide Next, Succeeding;
    if i < j {
      SucceedingFrom(cfg, states, events, i, j - 1, r, id);
      StaysSucceeding(cfg, states[j - 1], events[j - 1], states[j], r, id);
    }
  }

  /** A revocation comes to write only from a read that found the row unrevoked, so
    * not after another has returned success. */
  lemma BeginsToSucceed(cfg: Config, st: State, e: Event, st': State, r: nat, q: nat, id: Id)
    requires cfg.Lawful() && Next(cfg, st, e, st') && r != q
    requires Succeeding(st', r, id) && Succeeding(st', q, id) && RevokeOk(st, r) && RevokeOk(st, q)
    ensures (Succeeding(st, r, id) && Succeeding(st, q, id))
            || (r in st'.revokes && q in st'.revokes && st'.revokes[r] == st'.revokes[q] == Writing(id))
  {
    hide ParseToken, Print, StepCall, AfterMint, AfterRemoval;
  }

  lemma {:induction false} BothSucceedingWrote(
      cfg: Config, states: seq<State>, events: seq<Event>, j: nat, r: nat, q: nat, id: Id) returns (i: nat)
    requires cfg.Lawful() && IsRun(cfg, states, events) && j < |states| && r != q
    requires Succeeding(states[j], r, id) && Succeeding(states[j], q, id)
    ensures i <= j && BothWriting(states, i, r, q, id)
  {
    hide Next, Succeeding, RevokeOk;
    if j == 0 {
      NoneAtFirst(states[0], r, id);
      assert false;
    } else {
      RunKeepsRevokeOk(cfg, states, events, j - 1, r);
      RunKeepsRevokeOk(cfg, states, events, j - 1, q);
      BeginsToSucceed(cfg, states[j - 1], events[j - 1], states[j], r, q, id);
      if Succeeding(states[j - 1], r, id) && Succeeding(states[j - 1], q, id) {
        i := BothSucceedingWrote(cfg, states, events, j - 1, r, q, id);
      } else {
        i := j;
      }
    }
  }

  lemma NoneAtFirst(st: State, r: nat, id: Id)
    requires Initial(st)
    ensures !Succeeding(st, r, id)
  {
  }

  /** When both of two revocations of one id have returned, both report success if
    * and only if at some moment both had read the row and neither had written it. */
  lemma BothSucceedIff(cfg: Config, states: seq<State>, events: seq<Event>, j: nat, r: nat, q: nat, id: Id)
    requires cfg.Lawful() && IsRun(cfg, states, events) && j < |states| && r != q
    requires r in states[j].revokes && states[j].revokes[r].Returned?
    requires q in states[j].revokes && states[j].revokes[q].Returned?
    ensures states[j].revokes[r] == states[j].revokes[q] == Returned(id, None)
            <==> exists i :: 0 <= i <= j && BothWriting(states, i, r, q, id)
  {
    hide Next;
    if states[j].revokes[r] == states[j].revokes[q] == Returned(id, None) {
      var i := BothSucceedingWrote(cfg, states, events, j, r, q, id);
    }
    if i: nat :| i <= j && BothWriting(states, i, r, q, id) {
      SucceedingFrom(cfg, states, events, i, j, r, id);
      SucceedingFrom(cfg, states, events, i, j, q, id);
    }
  }

  /** What a revocation of a barred id has come to. */
  ghost predicate Reported(st: State, q: nat, id: Id) {
    q in st.revokes && st.revokes[q].id == id ==> !Succeeding(st, q, id)
  }

  lemma StaysReported(cfg: Config, st: State, e: Event, st': State, q: nat, id: Id)
    requires cfg.Lawful() && Next(cfg, st, e, st') && Barred(st, id) && Reported(st, q, id)
    ensures Reported(st', q, id)
  {
    hide ParseToken, Print, StepCall, AfterMint, AfterRemoval;
  }

  lemma {:induction false} ReportedFrom(
      cfg: Config, states: seq<State>, events: seq<Event>, i: nat, j: nat, q: nat, id: Id)
    requires cfg.Lawful() && IsRun(cfg, states, events) && i <= j < |states|
    requires Barred(states[i], id) && q !in states[i].revokes
    ensures Barred(states[j], id) && Reported(states[j], q, id)
  {
    hide Next, Barred, Succeeding;
    if i < j {
      ReportedFrom(cfg, states, events, i, j - 1, q, id);
      StaysReported(cfg, states[j - 1], events[j - 1], states[j], q, id);
      StaysBarred(cfg, states[j - 1], events[j - 1], states[j], id);
    }
  }

  /** A revocation started after another of the same id has returned never reports
    * success: it reports the earlier one, or that the row is gone. */
  lemma SecondRevocationReported(
      cfg: Config, states: seq<State>, events: seq<Event>, i: nat, j: nat, r: nat, q: nat, id: Id, why: Option<Failure>)
    requires cfg.Lawful() && IsRun(cfg, states, events) && i <= j < |states|
    requires r in states[i].revokes && states[i].revokes[r] == Returned(id, why) && why != Some(NotFound)
    requires q !in states[i].revokes && q in states[j].revokes
    ensures states[j].revokes[q] != Returned(id, None)
  {
    hide Next, Barred;
    RunKeepsRevokeOk(cfg, states, events, i, r);
    ReportedFrom(cfg, states, events, i, j, q, id);
  }

  // ---------------------------------------------------------------------
  // Confinement
  // ---------------------------------------------------------------------

  /** Tables and reads alike: what an executor holds is restricted, and only that. */
  ghost predicate Confined(st: State) {
    && KindsAgree(st.db)
    && forall c :: c in st.calls && st.calls[c].found.Some? ==>
         (st.calls[c].found.value.kind == Executor <==> st.calls[c].found.value.row.restricted)
  }

  lemma NextKeepsConfined(cfg: Config, st: State, e: Event, st': State)
    requires cfg.Lawful() && Confined(st) && Next(cfg, st, e, st')
    ensures Confined(st')
  {
    hide ParseToken, Print, Hit, AfterRemember, SecretRefused, AfterMint, AfterTouch, AfterRevoke, AfterRemoval;
    hide StepCall, KindsAgree;
    match e
    case Mint(m) => StepsKeepKinds(st.db, m, m.id, m.name, st.clock);
    case Remove(name) => StepsKeepKinds(st.db, SomeMinting(), [], name, st.clock);
    case Advance(c) => CallKeepsConfined(cfg, st, st.calls[c]);
    case AdvanceRevoke(r) => StepsKeepKinds(st.db, SomeMinting(), st.revokes[r].id, "", st.clock);
    case Start(c, raw) => assert Begin(cfg.crypto, raw).found == None;
    case _ =>
  }

  function SomeMinting(): Minting {
    Minting("", [], None, false, [], [], "")
  }

  lemma CallKeepsConfined(cfg: Config, st: State, call: Call)
    requires cfg.Lawful() && KindsAgree(st.db)
    requires call.found.Some? ==> (call.found.value.kind == Executor <==> call.found.value.row.restricted)
    ensures var (mid, next) := StepCall(cfg, st, call);
            && KindsAgree(mid.db)
            && (next.found.Some? ==> (next.found.value.kind == Executor <==> next.found.value.row.restricted))
  {
    hide ParseToken, Print, Hit, AfterRemember, SecretRefused, AfterTouch, KindsAgree, Inactive, Grant, UseDue, Secret;
    StepsKeepKinds(st.db, SomeMinting(), call.id, "", call.now);
  }

  /** In every run, through the cache or not, an accepted caller is confined exactly
    * when its principal is an executor. */
  lemma {:induction false} RunConfines(cfg: Config, states: seq<State>, events: seq<Event>, i: nat)
    requires cfg.Lawful() && IsRun(cfg, states, events) && i < |states|
    ensures Confined(states[i])
    ensures forall c ::
              c in states[i].calls && states[i].calls[c].at.Done? && states[i].calls[c].at.outcome.Accepted? ==>
              var outcome := states[i].calls[c].at.outcome;
              outcome.restricted <==> outcome.found.kind == Executor
  {
    hide Next, ParseToken, Print, KindsAgree;
    if i > 0 {
      RunConfines(cfg, states, events, i - 1);
      NextKeepsConfined(cfg, states[i - 1], events[i - 1], states[i]);
    } else {
      assert KindsAgree(states[0].db) by {
        NoRowsAgree();
      }
    }
    RunKeepsInv(cfg, states, events, i);
    forall c | c in states[i].calls && states[i].calls[c].at.Done? && states[i].calls[c].at.outcome.Accepted?
      ensures states[i].calls[c].at.outcome.restricted <==> states[i].calls[c].at.outcome.found.kind == Executor
    {
      AcceptedGrants(cfg.crypto, states[i].calls[c], states[i].minted);
    }
  }

  lemma NoRowsAgree()
    ensures KindsAgree(Tables(map[], map[]))
  {
  }

  lemma AcceptedGrants(crypto: Crypto, call: Call, m: map<Id, Minted>)
    requires CallOk(crypto, call, m) && call.at.Done? && call.at.outcome.Accepted?
    ensures call.found.Some? && call.at.outcome == Grant(call.id, call.found.value)
  {
    hide ParseToken, Print;
  }
}
