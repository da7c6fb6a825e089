/** Runs of the verifier in which a promise of the source fails, each for every
  * credential and configuration of its kind.
  */
module VerifierExamples {
  import opened Options
  import opened Token
  import opened Credentials
  import opened VerifierRuns

  lemma OneMore(cfg: Config, states: seq<State>, events: seq<Event>, e: Event, st': State)
    requires cfg.Lawful() && IsRun(cfg, states, events) && Next(cfg, states[|events|], e, st')
    ensures IsRun(cfg, states + [st'], events + [e])
  {
    hide Next, Initial;
  }

  function Advanced(cfg: Config, st: State, c: nat): State
    requires c in st.calls && cfg.maxEntries > 0
  {
    var (mid, call) := StepCall(cfg, st, st.calls[c]);
    mid.(calls := st.calls[c := call])
  }

  function AdvancedRevoke(st: State, r: nat): State
    requires r in st.revokes
  {
    var (mid, rv) := StepRevoke(st, st.revokes[r]);
    mid.(revokes := st.revokes[r := rv])
  }

  // ---------------------------------------------------------------------
  // A cached credential whose principal is removed
  // ---------------------------------------------------------------------

  /** A minting the empty tables accept, of a credential that is active now. */
  ghost predicate Mintable(cfg: Config, m: Minting, now: int) {
    && |m.id| == ID_BYTES && |m.secret| == SECRET_BYTES && cfg.crypto.HashOf(m.hash, m.secret)
    && m.name != "" && m.scopes != [] && (m.expires.Some? ==> now < m.expires.value)
  }

  function FirstRow(m: Minting, now: int): Row {
    Row(m.name, m.scopes, now, None, m.expires, None, m.restricted, m.hash)
  }

  function FirstFound(m: Minting, now: int): Found {
    Found(FirstRow(m, now), if m.restricted then Executor else Service)
  }

  /** A call that has loaded the row and found it active. */
  function ActiveCall(m: Minting, now: int): Call {
    Call(Print(m.id, m.secret), m.id, Some(FirstFound(m, now)), now, false, None, Active)
  }

  /** The one credential there is, just minted. */
  function JustMinted(m: Minting, now: int): State {
    State(
      Tables(map[m.id := FirstRow(m, now)], map[m.name := FirstFound(m, now).kind]),
      map[m.id := MintedBy(m, now)], now, map[], map[], map[], map[])
  }

  lemma Mints(cfg: Config, m: Minting, now: int) returns (states: seq<State>, events: seq<Event>)
    requires cfg.Lawful() && Mintable(cfg, m, now)
    ensures IsRun(cfg, states, events) && |states| == |events| + 1 && states[|events|] == JustMinted(m, now)
  {
    var st := State(Tables(map[], map[]), map[], now, map[], map[], map[], map[]);
    states, events := [st, JustMinted(m, now)], [Mint(m)];
  }

  /** A call starts, loads the row and finds it active. */
  lemma Activates(cfg: Config, m: Minting, states: seq<State>, events: seq<Event>, c: nat)
    returns (states': seq<State>, events': seq<Event>)
    requires cfg.Lawful() && IsRun(cfg, states, events)
    requires var st := states[|events|];
             && c !in st.calls && Mintable(cfg, m, st.clock)
             && Load(st.db, m.id) == Some(FirstFound(m, st.clock))
    ensures IsRun(cfg, states', events') && |states'| == |events'| + 1
    ensures var st := states[|events|]; states'[|events'|] == st.(calls := st.calls[c := ActiveCall(m, st.clock)])
  {
    hide Print, ParseToken, Mintable, Load, Hit, AfterRemember, SecretRefused, AfterTouch;
    var st, raw := states[|events|], Print(m.id, m.secret);
    assert ParseToken(raw) == Some(Presented(m.id, m.secret, raw)) by {
      IsParsed(cfg, m, st.clock);
    }
    assert Inactive(FirstRow(m, st.clock), st.clock) == None by {
      IsActive(cfg, m, st.clock);
    }
    var a := st.(calls := st.calls[c := Begin(cfg.crypto, raw)]);
    var b := Advanced(cfg, a, c);
    var d := Advanced(cfg, b, c);
    OneMore(cfg, states, events, Start(c, raw), a);
    Ends(cfg, states, events);
    OneMore(cfg, states + [a], events + [Start(c, raw)], Advance(c), b);
    OneMore(cfg, states + [a] + [b], events + [Start(c, raw)] + [Advance(c)], Advance(c), d);
    states', events' := states + [a] + [b] + [d], events + [Start(c, raw)] + [Advance(c)] + [Advance(c)];
  }

  lemma Ends(cfg: Config, states: seq<State>, events: seq<Event>)
    requires cfg.Lawful() && IsRun(cfg, states, events)
    ensures |states| == |events| + 1
  {
  }

  lemma IsParsed(cfg: Config, m: Minting, now: int)
    requires Mintable(cfg, m, now)
    ensures var raw := Print(m.id, m.secret); ParseToken(raw) == Some(Presented(m.id, m.secret, raw))
  {
    hide Print, ParseToken;
    ParsesIffPrinted(Print(m.id, m.secret), Presented(m.id, m.secret, Print(m.id, m.secret)));
  }

  lemma IsActive(cfg: Config, m: Minting, now: int)
    requires Mintable(cfg, m, now)
    ensures Inactive(FirstRow(m, now), now) == None
  {
  }

  /** With nothing cached it goes on to check the secret, and caches what it proved. */
  lemma Caches(cfg: Config, m: Minting, states: seq<State>, events: seq<Event>, c: nat)
    returns (states': seq<State>, events': seq<Event>)
    requires cfg.Lawful() && IsRun(cfg, states, events)
    requires var st := states[|events|];
             && c in st.calls && st.calls[c] == ActiveCall(m, st.clock) && Mintable(cfg, m, st.clock)
             && st.cache == map[] && m.id in st.db.rows && st.db.rows[m.id].hash == m.hash
    ensures IsRun(cfg, states', events') && |states'| == |events'| + 1
    ensures var (st, st') := (states[|events|], states'[|events'|]);
            && st' == st.(calls := st'.calls, cache := st'.cache) && st'.calls.Keys == st.calls.Keys
            && Hit(st'.cache, cfg.crypto.digest(Print(m.id, m.secret)), m.id, st.clock)
  {
    hide Print, ParseToken, Mintable, AfterRemember, AfterTouch, MakeRoom;
    var st, raw := states[|events|], Print(m.id, m.secret);
    assert SecretRefused(cfg.crypto, m.hash, Secret(raw)) == None by {
      IsParsed(cfg, m, st.clock);
      SecretProves(cfg, m, st.clock);
    }
    var a := Advanced(cfg, st, c);
    var b := Advanced(cfg, a, c);
    var d := Advanced(cfg, b, c);
    OneMore(cfg, states, events, Advance(c), a);
    Ends(cfg, states, events);
    OneMore(cfg, states + [a], events + [Advance(c)], Advance(c), b);
    OneMore(cfg, states + [a] + [b], events + [Advance(c)] + [Advance(c)], Advance(c), d);
    states', events' := states + [a] + [b] + [d], events + [Advance(c)] + [Advance(c)] + [Advance(c)];
  }

  lemma SecretProves(cfg: Config, m: Minting, now: int)
    requires Mintable(cfg, m, now)
    ensures SecretRefused(cfg.crypto, m.hash, m.secret) == None
  {
  }

  /** An active call hits, its row being gone, and is granted. */
  lemma HitsAnyway(cfg: Config, m: Minting, states: seq<State>, events: seq<Event>, c: nat)
    returns (states': seq<State>, events': seq<Event>)
    requires cfg.Lawful() && IsRun(cfg, states, events)
    requires var st := states[|events|];
             && c in st.calls && st.calls[c] == ActiveCall(m, st.clock)
             && Hit(st.cache, cfg.crypto.digest(Print(m.id, m.secret)), m.id, st.clock)
             && m.id !in st.db.rows && m.id !in st.touch
    ensures IsRun(cfg, states', events') && |states'| == |events'| + 1
    ensures var (st, st') := (states[|events|], states'[|events'|]);
            && c in st'.calls && st'.db.rows.Keys == st.db.rows.Keys
            && st'.calls[c] == ActiveCall(m, st.clock).(hit := true, at := Done(Grant(m.id, FirstFound(m, st.clock))))
  {
    hide Print, AfterRemember, Hit, Grant;
    var st := states[|events|];
    var a := Advanced(cfg, st, c);
    var b := Advanced(cfg, a, c);
    var d := Advanced(cfg, b, c);
    OneMore(cfg, states, events, Advance(c), a);
    Ends(cfg, states, events);
    OneMore(cfg, states + [a], events + [Advance(c)], Advance(c), b);
    OneMore(cfg, states + [a] + [b], events + [Advance(c)] + [Advance(c)], Advance(c), d);
    states', events' := states + [a] + [b] + [d], events + [Advance(c)] + [Advance(c)] + [Advance(c)];
  }

  /** One call caches a credential; a second has loaded its row when the principal is
    * removed. The second is let in, where the code with no cache finds nothing. So for
    * every configuration and every credential the empty tables would mint. */
  lemma RemovedButAccepted(cfg: Config, m: Minting, now: int)
    returns (states: seq<State>, events: seq<Event>, c: nat)
    requires cfg.Lawful() && Mintable(cfg, m, now)
    ensures IsRun(cfg, states, events) && |states| == |events| + 1
    ensures c in states[|events|].calls && m.id !in states[|events|].db.rows
    ensures var call := states[|events|].calls[c];
            && call.at.Done? && call.at.outcome.Accepted? && Overtaken(call)
            && Slow(cfg.crypto, call.raw, call.found, call.now, call.hash) == Refused(NotFound)
  {
    hide Print, ParseToken, Mintable, Hit;
    states, events := Mints(cfg, m, now);
    states, events := Activates(cfg, m, states, events, 0);
    states, events := Caches(cfg, m, states, events, 0);
    states, events := Activates(cfg, m, states, events, 1);
    var st := states[|events|];
    var gone := st.(db := AfterRemoval(st.db, m.name));
    Ends(cfg, states, events);
    OneMore(cfg, states, events, Remove(m.name), gone);
    states, events := states + [gone], events + [Remove(m.name)];
    states, events := HitsAnyway(cfg, m, states, events, 1);
    c := 1;
    IsParsed(cfg, m, now);
    IsActive(cfg, m, now);
  }

  // ---------------------------------------------------------------------
  // Revocations that race
  // ---------------------------------------------------------------------

  /** Two can both report success: from any state of a run in which two have been asked
    * for and neither has read, reads before writes give both what the reads showed. */
  lemma RacingRevokesBothSucceed(cfg: Config, states: seq<State>, events: seq<Event>, r: nat, q: nat, id: Id)
    returns (states': seq<State>, events': seq<Event>)
    requires cfg.Lawful() && IsRun(cfg, states, events) && r != q
    requires var st := states[|events|];
             r in st.revokes && q in st.revokes && st.revokes[r] == st.revokes[q] == Reading(id)
    ensures IsRun(cfg, states', events') && |states'| == |events'| + 1
    ensures events' == events + [AdvanceRevoke(r)] + [AdvanceRevoke(q)] + [AdvanceRevoke(r)] + [AdvanceRevoke(q)]
    ensures var (st, end) := (states[|events|], states'[|events'|]);
            && r in end.revokes && q in end.revokes && end.db.rows.Keys == st.db.rows.Keys
            && (id in st.db.rows && st.db.rows[id].revoked == None ==>
                  end.revokes[r] == end.revokes[q] == Returned(id, None) && end.db.rows[id].revoked == Some(st.clock))
            && (id in st.db.rows && st.db.rows[id].revoked.Some? ==>
                  end.revokes[r] == end.revokes[q] == Returned(id, Some(Revoked)) && end.db == st.db)
            && (id !in st.db.rows ==> end.revokes[r] == end.revokes[q] == Returned(id, Some(NotFound)))
  {
    hide Initial;
    Ends(cfg, states, events);
    var st := states[|events|];
    var a := AdvancedRevoke(st, r);
    var b := AdvancedRevoke(a, q);
    var c := AdvancedRevoke(b, r);
    var d := AdvancedRevoke(c, q);
    OneMore(cfg, states, events, AdvanceRevoke(r), a);
    states', events' := states + [a], events + [AdvanceRevoke(r)];
    OneMore(cfg, states', events', AdvanceRevoke(q), b);
    states', events' := states' + [b], events' + [AdvanceRevoke(q)];
    OneMore(cfg, states', events', AdvanceRevoke(r), c);
    states', events' := states' + [c], events' + [AdvanceRevoke(r)];
    OneMore(cfg, states', events', AdvanceRevoke(q), d);
    states', events' := states' + [d], events' + [AdvanceRevoke(q)];
  }
}
