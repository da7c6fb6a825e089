/** Every interleaving of devices opening a space, rotating its key, adding and
  * removing recipients, and writing. Each read, and each transaction of the
  * controller, is a step of its own.
  */
module RotationRuns {
  import opened Options
  import opened StringOrder
  import opened SpaceKeys

  // ---------------------------------------------------------------------
  // The state machine
  // ---------------------------------------------------------------------

  datatype Outcome = NoCopy | StaleCopy | OpenFailed | NothingToDo | Landed(epoch: int) | Refused(why: Failure)

  datatype Phase =
    | Idle
    | Keyed(own: Copy, epoch: int)
    | Open(ring: seq<Key>, epoch: int)
    | Pending(ring: seq<Key>, epoch: int, request: Request, key: Key)
    | Ended(outcome: Outcome)

  datatype Device = Device(who: Recipient, at: Phase)

  /** `keys` is the key of each epoch so far. `sealed` is the epoch whose key
    * each change was sealed under. `published` is every sealed key the controller ever accepted, and
    * `given` who has been given the key of which epoch, by a copy or by minting it. */
  datatype State = State(
    sp: Space, devices: map<nat, Device>,
    keys: seq<Key>, minted: set<Key>, sealed: seq<int>,
    published: set<Blob>, given: set<(Recipient, int)>)

  datatype Event =
    | Join(d: nat, who: Recipient)
    | ReadKeys(d: nat)
    | ReadHistory(d: nat)
    | Prepare(d: nat, revoke: set<Recipient>, parses: bool, request: Request, key: Key)
    | Commit(d: nat, barred: set<Recipient>, preserve: set<Recipient>)
    | Add(d: nat, r: Recipient, barred: set<Recipient>)
    | Delete(r: Recipient)
    | Write(d: nat, text: string, nonce: nat)
    | WriteAnyway(d: nat, text: string, nonce: nat)

  function Unwrap(copy: Blob, who: Recipient): Option<Key> {
    if copy.WrapOf? && copy.recipient == who then Some(copy.key) else None
  }

  function Upto(history: map<int, Blob>, epoch: int): map<int, Blob> {
    map e | e in history && e <= epoch :: history[e]
  }

  /** Opening with the history as read, rows past the copy's epoch dropped. */
  function OpenWith(who: Recipient, own: Copy, epoch: int, history: map<int, Blob>): Phase {
    match Unwrap(own.blob, who)
    case None => Ended(OpenFailed)
    case Some(key) =>
      if key == 0 || epoch < 0 then Ended(OpenFailed)
      else
        match UnrollRows(key, epoch, Upto(history, epoch))
        case None => Ended(OpenFailed)
        case Some(ring) => Open(ring, epoch)
  }

  /** A space opens for the one its copy was made for, and then with exactly the keys
    * the rows lead back to; rows past the copy's epoch are not looked at. */
  lemma OpensIff(who: Recipient, own: Copy, epoch: int, history: map<int, Blob>, ring: seq<Key>)
    ensures OpenWith(who, own, epoch, history) == Open(ring, epoch) <==>
            && own.blob.WrapOf? && own.blob.recipient == who && own.blob.key != 0 && epoch >= 0
            && |ring| == epoch + 1 && ring[0] == own.blob.key
            && forall i: nat :: i < epoch ==> Links(history, epoch, ring, i)
  {
    if own.blob.WrapOf? && epoch >= 0 {
      UnrollIff(own.blob.key, epoch, Upto(history, epoch), ring);
      if |ring| == epoch + 1 {
        forall i: nat | i < epoch
          ensures Links(history, epoch, ring, i) <==> Links(Upto(history, epoch), epoch, ring, i)
        {
        }
      }
    }
    hide UnrollRows;
  }

  /** A rotation built on the recipients as read: the new key wrapped for all but
    * the revoked, and the current key sealed under it. */
  ghost predicate Prepared(
      q: Request, held: set<Recipient>, revoke: set<Recipient>, ring: seq<Key>, epoch: int, key: Key)
  {
    && ring != [] && q.expected == epoch && q.sealedPrev == LinkOf(key, ring[0])
    && Elements(q.revoke) == revoke && Recipients(q.wraps) == held - revoke
    && forall w :: w in q.wraps ==> w.wrapped == WrapOf(key, w.recipient)
  }

  function Wrapped(q: Request): set<Blob> {
    set w | w in q.wraps :: w.wrapped
  }

  function GivenBy(q: Request, who: Recipient): set<(Recipient, int)> {
    (set r | r in Recipients(q.wraps) :: (r, q.expected + 1)) + {(who, q.expected + 1)}
  }

  function With(st: State, d: nat, at: Phase): State
    requires d in st.devices
  {
    st.(devices := st.devices[d := st.devices[d].(at := at)])
  }

  ghost predicate Initial(st: State) {
    && |st.keys| == 1 && st.keys[0] != 0 && st.minted == {st.keys[0]}
    && st.sp.history == map[] && st.sp.changes == [] && st.sealed == []
    && st.devices == map[]
    && (forall r :: r in st.sp.wraps ==> st.sp.wraps[r] == Copy(WrapOf(st.keys[0], r), 0))
    && st.published == (set r | r in st.sp.wraps :: WrapOf(st.keys[0], r))
    && st.given == (set r | r in st.sp.wraps :: (r, 0))
  }

  ghost predicate DoReadKeys(st: State, d: nat, st': State)
    requires d in st.devices
  {
    var who := st.devices[d].who;
    if !st.devices[d].at.Idle? then st' == st
    else if who !in st.sp.wraps then st' == With(st, d, Ended(NoCopy))
    else if st.sp.wraps[who].epoch != Epoch(st.sp.history) then st' == With(st, d, Ended(StaleCopy))
    else st' == With(st, d, Keyed(st.sp.wraps[who], Epoch(st.sp.history)))
  }

  ghost predicate DoReadHistory(st: State, d: nat, st': State)
    requires d in st.devices
  {
    var dev := st.devices[d];
    if !dev.at.Keyed? then st' == st
    else st' == With(st, d, OpenWith(dev.who, dev.at.own, dev.at.epoch, st.sp.history))
  }

  /** The new key is random: never one that was minted before. `parses` is whether
    * every recipient that stays does. */
  ghost predicate DoPrepare(st: State, d: nat, revoke: set<Recipient>, parses: bool, q: Request, key: Key, st': State)
    requires d in st.devices
  {
    var dev := st.devices[d];
    var held := st.sp.wraps.Keys;
    if !dev.at.Open? then st' == st
    else if !(revoke <= held) || held == revoke || !parses then st' == With(st, d, Ended(NothingToDo))
    else
      && key != 0 && key !in st.minted
      && Prepared(q, held, revoke, dev.at.ring, dev.at.epoch, key)
      && st' == With(st, d, Pending(dev.at.ring, dev.at.epoch, q, key)).(minted := st.minted + {key})
  }

  ghost predicate DoCommit(st: State, d: nat, barred: set<Recipient>, preserve: set<Recipient>, st': State)
    requires d in st.devices
  {
    var dev := st.devices[d];
    if !dev.at.Pending? then st' == st
    else
      var q := dev.at.request;
      var why := RotateRefused(st.sp, q, barred, preserve);
      if why.Some? then st' == With(st, d, Ended(Refused(why.value)))
      else st' == With(st, d, Ended(Landed(q.expected + 1))).(
        sp := AfterRotate(st.sp, q), keys := st.keys + [dev.at.key],
        published := st.published + {q.sealedPrev} + Wrapped(q),
        given := st.given + GivenBy(q, dev.who))
  }

  ghost predicate DoAdd(st: State, d: nat, r: Recipient, barred: set<Recipient>, st': State)
    requires d in st.devices
  {
    var at := st.devices[d].at;
    if !(at.Open? && at.ring != []) then st' == st
    else
      var copy := WrapOf(at.ring[0], r);
      if PutWrapRefused(st.sp, r, copy, at.epoch, barred).Some? then st' == st
      else st' == st.(
        sp := AfterPutWrap(st.sp, r, copy, at.epoch),
        published := st.published + {copy}, given := st.given + {(r, at.epoch)})
  }

  ghost predicate DoWrite(st: State, d: nat, text: string, nonce: nat, st': State)
    requires d in st.devices
  {
    var at := st.devices[d].at;
    if !(at.Open? && at.ring != []) then st' == st
    else
      var change := Sealed(at.ring[0], text, nonce);
      if PutChangeRefused(st.sp, change, at.epoch).Some? then st' == st
      else st' == st.(
        sp := AfterPutChange(st.sp, change),
        sealed := if change in st.sp.changes then st.sealed else st.sealed + [at.epoch])
  }

  /** A client that names no epoch: its change is stored whatever the epoch is now. */
  ghost predicate DoWriteAnyway(st: State, d: nat, text: string, nonce: nat, st': State)
    requires d in st.devices
  {
    var at := st.devices[d].at;
    if !(at.Open? && at.ring != []) then st' == st
    else
      var change := Sealed(at.ring[0], text, nonce);
      st' == st.(
        sp := AfterPutChange(st.sp, change),
        sealed := if change in st.sp.changes then st.sealed else st.sealed + [at.epoch])
  }

  ghost predicate Next(st: State, e: Event, st': State) {
    match e
    case Join(d, who) => d !in st.devices && st' == st.(devices := st.devices[d := Device(who, Idle)])
    case ReadKeys(d) => d in st.devices && DoReadKeys(st, d, st')
    case ReadHistory(d) => d in st.devices && DoReadHistory(st, d, st')
    case Prepare(d, revoke, parses, q, key) => d in st.devices && DoPrepare(st, d, revoke, parses, q, key, st')
    case Commit(d, barred, preserve) => d in st.devices && DoCommit(st, d, barred, preserve, st')
    case Add(d, r, barred) => d in st.devices && DoAdd(st, d, r, barred, st')
    case Delete(r) => st' == st.(sp := AfterDelete(st.sp, r))
    case Write(d, text, nonce) => d in st.devices && DoWrite(st, d, text, nonce, st')
    case WriteAnyway(d, text, nonce) => d in st.devices && DoWriteAnyway(st, d, text, nonce, st')
  }

  ghost predicate IsRun(states: seq<State>, events: seq<Event>) {
    && |states| == |events| + 1
    && Initial(states[0])
    && forall i :: 0 <= i < |events| ==> Next(states[i], events[i], states[i + 1])
  }

  // ---------------------------------------------------------------------
  // What every step keeps
  // ---------------------------------------------------------------------

  /** The keys from epoch `e` back, newest first. */
  function Ring(keys: seq<Key>, e: nat): (ring: seq<Key>)
    requires e < |keys|
    ensures |ring| == e + 1
  {
    seq(e + 1, i requires 0 <= i <= e => keys[e - i])
  }

  ghost predicate KeysDistinct(st: State) {
    && |st.keys| > 0
    && (forall e :: 0 <= e < |st.keys| ==> st.keys[e] != 0 && st.keys[e] in st.minted)
    && forall e, f :: 0 <= e < f < |st.keys| ==> st.keys[e] != st.keys[f]
  }

  /** One row for each epoch but the first, sealing the key before under its own. */
  ghost predicate Chained(history: map<int, Blob>, keys: seq<Key>) {
    && |keys| > 0
    && Epoch(history) == |keys| - 1
    && (forall e :: e in history ==> 0 < e < |keys|)
    && forall e :: 0 < e < |keys| ==> e in history && history[e] == LinkOf(keys[e], keys[e - 1])
  }

  ghost predicate CopiesSealCurrent(st: State)
    requires |st.keys| > 0
  {
    var n := |st.keys| - 1;
    forall r :: r in st.sp.wraps ==> st.sp.wraps[r] == Copy(WrapOf(st.keys[n], r), n) && (r, n) in st.given
  }

  ghost predicate DeviceOk(dev: Device, keys: seq<Key>, minted: set<Key>) {
    match dev.at
    case Keyed(own, e) => 0 <= e < |keys| && own == Copy(WrapOf(keys[e], dev.who), e)
    case Open(ring, e) => 0 <= e < |keys| && ring == Ring(keys, e)
    case Pending(ring, e, q, key) =>
      && 0 <= e < |keys| && ring == Ring(keys, e)
      && key != 0 && key in minted && key !in keys
      && q.expected == e && q.sealedPrev == LinkOf(key, keys[e])
      && forall w :: w in q.wraps ==> w.wrapped == WrapOf(key, w.recipient)
    case _ => true
  }

  ghost predicate PendingDistinct(devices: map<nat, Device>) {
    forall c, d :: c in devices && d in devices && c != d && devices[c].at.Pending? && devices[d].at.Pending? ==>
      devices[c].at.key != devices[d].at.key
  }

  /** Every change was sealed under the key of the epoch noted for it. */
  ghost predicate ChangesSealed(st: State) {
    && |st.sealed| == |st.sp.changes|
    && forall i :: 0 <= i < |st.sealed| ==>
         0 <= st.sealed[i] < |st.keys| && st.sp.changes[i].Sealed? && st.sp.changes[i].key == st.keys[st.sealed[i]]
  }

  ghost predicate Public(b: Blob, keys: seq<Key>, given: set<(Recipient, int)>) {
    || (exists r, e :: 0 <= e < |keys| && b == WrapOf(keys[e], r) && (r, e) in given)
    || (exists e :: 0 < e < |keys| && b == LinkOf(keys[e], keys[e - 1]))
  }

  ghost predicate PublishedOk(st: State) {
    && (forall e :: 0 < e < |st.keys| ==> LinkOf(st.keys[e], st.keys[e - 1]) in st.published)
    && (forall b :: b in st.published ==> Public(b, st.keys, st.given))
    && forall p :: p in st.given ==> 0 <= p.1 < |st.keys|
  }

  ghost predicate Inv(st: State) {
    && KeysDistinct(st)
    && Chained(st.sp.history, st.keys)
    && CopiesSealCurrent(st)
    && (forall d :: d in st.devices ==> DeviceOk(st.devices[d], st.keys, st.minted))
    && PendingDistinct(st.devices)
    && ChangesSealed(st)
    && PublishedOk(st)
  }

  lemma InitialInv(st: State)
    requires Initial(st)
    ensures Inv(st)
  {
    forall b | b in st.published ensures Public(b, st.keys, st.given) {
      var r :| r in st.sp.wraps && b == WrapOf(st.keys[0], r);
      assert (r, 0) in st.given;
    }
  }

  /** The chain as read opens back to epoch 0, whatever rows were added since. */
  lemma {:induction false} ChainUnrolls(history: map<int, Blob>, keys: seq<Key>, e: nat, bound: int)
    requires Chained(history, keys) && e < |keys| && e <= bound
    ensures UnrollRows(keys[e], e, Upto(history, bound)) == Some(Ring(keys, e))
    decreases e
  {
    if e > 0 {
      ChainUnrolls(history, keys, e - 1, bound);
      assert Ring(keys, e) == [keys[e]] + Ring(keys, e - 1);
    } else {
      assert Ring(keys, 0) == [keys[0]];
    }
  }

  /** A rotation landing between a device's two reads never breaks its open. */
  lemma OpenNeverFails(st: State, d: nat, st': State)
    requires Inv(st) && d in st.devices && st.devices[d].at.Keyed? && Next(st, ReadHistory(d), st')
    ensures var e := st.devices[d].at.epoch;
            0 <= e < |st.keys| && st'.devices[d].at == Open(Ring(st.keys, e), e)
  {
    var dev := st.devices[d];
    assert DeviceOk(dev, st.keys, st.minted);
    ChainUnrolls(st.sp.history, st.keys, dev.at.epoch, dev.at.epoch);
  }

  // ---------------------------------------------------------------------
  // A rotation that lands
  // ---------------------------------------------------------------------

  ghost predicate Lands(st: State, d: nat, barred: set<Recipient>, preserve: set<Recipient>, st': State) {
    && d in st.devices && st.devices[d].at.Pending?
    && RotateRefused(st.sp, st.devices[d].at.request, barred, preserve) == None
    && DoCommit(st, d, barred, preserve, st')
  }

  lemma LandedStartedFromCurrent(st: State, d: nat, barred: set<Recipient>, preserve: set<Recipient>, st': State)
    requires Inv(st) && Lands(st, d, barred, preserve, st')
    ensures st.devices[d].at.epoch == st.devices[d].at.request.expected == |st.keys| - 1
    ensures CopiesCurrent(st.sp)
    ensures |st'.keys| == |st.keys| + 1 && Epoch(st'.sp.history) == |st.keys|
  {
    var q := st.devices[d].at.request;
    assert DeviceOk(st.devices[d], st.keys, st.minted);
    RotationIsExact(st.sp, q, barred, preserve);
  }

  lemma LandedChained(st: State, d: nat, barred: set<Recipient>, preserve: set<Recipient>, st': State)
    requires Inv(st) && Lands(st, d, barred, preserve, st')
    ensures Chained(st'.sp.history, st'.keys) && KeysDistinct(st')
  {
    hide Upserted, NotStale, PendingDistinct, ChangesSealed, PublishedOk, CopiesSealCurrent, RotateRefused;
    LandedStartedFromCurrent(st, d, barred, preserve, st');
    assert DeviceOk(st.devices[d], st.keys, st.minted);
  }

  lemma LandedCopies(st: State, d: nat, barred: set<Recipient>, preserve: set<Recipient>, st': State)
    requires Inv(st) && Lands(st, d, barred, preserve, st')
    ensures CopiesSealCurrent(st')
  {
    hide Upserted, NotStale, PendingDistinct, ChangesSealed, PublishedOk, Chained, KeysDistinct, RotateRefused;
    LandedStartedFromCurrent(st, d, barred, preserve, st');
    var q := st.devices[d].at.request;
    RotationIsExact(st.sp, q, barred, preserve);
    assert DeviceOk(st.devices[d], st.keys, st.minted);
    var n := |st.keys|;
    forall r | r in st'.sp.wraps ensures st'.sp.wraps[r] == Copy(WrapOf(st'.keys[n], r), n) && (r, n) in st'.given {
      var w := RecipientWrap(r, st'.sp.wraps[r].blob);
      assert w in q.wraps;
      assert (r, q.expected + 1) in GivenBy(q, st.devices[d].who);
    }
  }

  lemma LandedDevices(st: State, d: nat, barred: set<Recipient>, preserve: set<Recipient>, st': State)
    requires Inv(st) && Lands(st, d, barred, preserve, st')
    ensures forall c :: c in st'.devices ==> DeviceOk(st'.devices[c], st'.keys, st'.minted)
    ensures PendingDistinct(st'.devices) && ChangesSealed(st')
  {
    LandedStartedFromCurrent(st, d, barred, preserve, st');
    forall c | c in st'.devices ensures DeviceOk(st'.devices[c], st'.keys, st'.minted) {
      if c != d {
        KeysGrow(st.devices[c], st.keys, st.devices[d].at.key, st.minted);
      }
    }
  }

  /** A device stays as it was when another's key joins the chain. */
  lemma KeysGrow(dev: Device, keys: seq<Key>, key: Key, minted: set<Key>)
    requires DeviceOk(dev, keys, minted) && (dev.at.Pending? ==> dev.at.key != key)
    ensures DeviceOk(dev, keys + [key], minted)
  {
    var more := keys + [key];
    if dev.at.Open? || dev.at.Pending? {
      assert Ring(more, dev.at.epoch) == Ring(keys, dev.at.epoch);
    }
  }

  lemma PublicGrows(b: Blob, keys: seq<Key>, given: set<(Recipient, int)>, key: Key, more: set<(Recipient, int)>)
    requires Public(b, keys, given)
    ensures Public(b, keys + [key], given + more)
  {
    var all := keys + [key];
    if r, e :| 0 <= e < |keys| && b == WrapOf(keys[e], r) && (r, e) in given {
      assert all[e] == keys[e] && (r, e) in given + more;
    } else {
      var e :| 0 < e < |keys| && b == LinkOf(keys[e], keys[e - 1]);
      assert all[e] == keys[e] && all[e - 1] == keys[e - 1];
    }
  }

  /** What a rotation publishes: copies of the new key for those given it, and the
    * current key sealed under the new one. */
  lemma RequestPublic(q: Request, who: Recipient, keys: seq<Key>, given: set<(Recipient, int)>, b: Blob)
    requires |keys| > 1 && q.expected + 1 == |keys| - 1 && GivenBy(q, who) <= given
    requires q.sealedPrev == LinkOf(keys[|keys| - 1], keys[|keys| - 2])
    requires forall w :: w in q.wraps ==> w.wrapped == WrapOf(keys[|keys| - 1], w.recipient)
    requires b == q.sealedPrev || b in Wrapped(q)
    ensures Public(b, keys, given)
  {
    if b != q.sealedPrev {
      var w :| w in q.wraps && w.wrapped == b;
      assert w.recipient in Recipients(q.wraps);
      assert (w.recipient, q.expected + 1) in GivenBy(q, who);
    }
  }

  lemma LandedPublished(st: State, d: nat, barred: set<Recipient>, preserve: set<Recipient>, st': State)
    requires Inv(st) && Lands(st, d, barred, preserve, st')
    ensures PublishedOk(st')
  {
    hide RotateRefused, AfterRotate, Public, Wrapped, Chained, PendingDistinct;
    LandedStartedFromCurrent(st, d, barred, preserve, st');
    var dev := st.devices[d];
    var q := dev.at.request;
    assert DeviceOk(dev, st.keys, st.minted);
    forall b | b in st'.published ensures Public(b, st'.keys, st'.given) {
      if b in st.published {
        PublicGrows(b, st.keys, st.given, dev.at.key, GivenBy(q, dev.who));
      } else {
        RequestPublic(q, dev.who, st'.keys, st'.given, b);
      }
    }
    assert q.sealedPrev in st'.published;
  }

  lemma CommitKeepsInv(st: State, d: nat, barred: set<Recipient>, preserve: set<Recipient>, st': State)
    requires Inv(st) && Next(st, Commit(d, barred, preserve), st')
    ensures Inv(st')
  {
    hide KeysDistinct, Chained, CopiesSealCurrent, ChangesSealed, PublishedOk, RotateRefused;
    if Lands(st, d, barred, preserve, st') {
      LandedChained(st, d, barred, preserve, st');
      LandedCopies(st, d, barred, preserve, st');
      LandedDevices(st, d, barred, preserve, st');
      LandedPublished(st, d, barred, preserve, st');
    } else {
      SameButDevices(st, st');
    }
  }

  /** A step that moves one device to a phase with nothing pending. */
  lemma SameButDevices(st: State, st': State)
    requires Inv(st) && st' == st.(devices := st'.devices)
    requires forall d :: d in st'.devices ==> DeviceOk(st'.devices[d], st.keys, st.minted)
    requires forall d :: d in st'.devices && st'.devices[d].at.Pending? ==>
               d in st.devices && st'.devices[d] == st.devices[d]
    ensures Inv(st')
  {
  }

  // ---------------------------------------------------------------------
  // The other steps
  // ---------------------------------------------------------------------

  lemma ReadKeysKeepsInv(st: State, d: nat, st': State)
    requires Inv(st) && Next(st, ReadKeys(d), st')
    ensures Inv(st')
  {
    SameButDevices(st, st');
  }

  lemma ReadHistoryKeepsInv(st: State, d: nat, st': State)
    requires Inv(st) && Next(st, ReadHistory(d), st')
    ensures Inv(st')
  {
    if st.devices[d].at.Keyed? {
      OpenNeverFails(st, d, st');
    }
    SameButDevices(st, st');
  }

  lemma AddedIsCurrent(st: State, d: nat)
    requires Inv(st) && d in st.devices && st.devices[d].at.Open?
    ensures var at := st.devices[d].at; 0 <= at.epoch < |st.keys| && at.ring != [] && at.ring[0] == st.keys[at.epoch]
    ensures Epoch(st.sp.history) == |st.keys| - 1
  {
    assert DeviceOk(st.devices[d], st.keys, st.minted);
  }

  lemma PreparedIsOk(st: State, d: nat, revoke: set<Recipient>, parses: bool, q: Request, key: Key, st': State)
    requires Inv(st) && Next(st, Prepare(d, revoke, parses, q, key), st')
    ensures DeviceOk(st'.devices[d], st.keys, st'.minted)
    ensures st'.devices[d].at.Pending? && st' != st ==> st'.devices[d].at.key !in st.minted
    ensures st' == st.(devices := st.devices[d := st'.devices[d]], minted := st'.minted) && st.minted <= st'.minted
  {
    hide Chained, CopiesSealCurrent, ChangesSealed, PublishedOk, PendingDistinct, Ring, Recipients, Elements;
    assert DeviceOk(st.devices[d], st.keys, st.minted);
    if st.devices[d].at.Open? {
      AddedIsCurrent(st, d);
    }
  }

  lemma PrepareKeepsInv(st: State, d: nat, revoke: set<Recipient>, parses: bool, q: Request, key: Key, st': State)
    requires Inv(st) && Next(st, Prepare(d, revoke, parses, q, key), st')
    ensures Inv(st')
  {
    hide Next, Chained, Public, Ring;
    PreparedIsOk(st, d, revoke, parses, q, key, st');
    forall c | c in st.devices
      ensures DeviceOk(st.devices[c], st.keys, st'.minted)
      ensures st.devices[c].at.Pending? ==> st.devices[c].at.key in st.minted
    {
      assert DeviceOk(st.devices[c], st.keys, st.minted);
    }
  }

  lemma AddKeepsInv(st: State, d: nat, r: Recipient, barred: set<Recipient>, st': State)
    requires Inv(st) && Next(st, Add(d, r, barred), st')
    ensures Inv(st')
  {
    var at := st.devices[d].at;
    if st' != st {
      AddedIsCurrent(st, d);
      var e := |st.keys| - 1;
      var copy := WrapOf(st.keys[e], r);
      assert at.epoch == e && at.ring[0] == st.keys[e];
      forall b | b in st'.published ensures Public(b, st'.keys, st'.given) {
        if b in st.published {
          PublicGiven(b, st.keys, st.given, {(r, e)});
        } else {
          assert b == copy && (r, e) in st'.given;
        }
      }
    }
  }

  lemma PublicGiven(b: Blob, keys: seq<Key>, given: set<(Recipient, int)>, more: set<(Recipient, int)>)
    requires Public(b, keys, given)
    ensures Public(b, keys, given + more)
  {
    if r, e :| 0 <= e < |keys| && b == WrapOf(keys[e], r) && (r, e) in given {
      assert (r, e) in given + more;
    }
  }

  lemma WriteKeepsInv(st: State, e: Event, st': State)
    requires Inv(st) && Next(st, e, st') && (e.Write? || e.WriteAnyway?)
    ensures Inv(st')
  {
    if st' != st {
      AddedIsCurrent(st, e.d);
      assert KeysDistinct(st') && PublishedOk(st');
    }
  }

  lemma NextKeepsInv(st: State, e: Event, st': State)
    requires Inv(st) && Next(st, e, st')
    ensures Inv(st')
  {
    match e
    case Join(d, who) =>
      SameButDevices(st, st');
    case ReadKeys(d) => ReadKeysKeepsInv(st, d, st');
    case ReadHistory(d) => ReadHistoryKeepsInv(st, d, st');
    case Prepare(d, revoke, parses, q, key) => PrepareKeepsInv(st, d, revoke, parses, q, key, st');
    case Commit(d, barred, preserve) => CommitKeepsInv(st, d, barred, preserve, st');
    case Add(d, r, barred) => AddKeepsInv(st, d, r, barred, st');
    case Delete(r) =>
    case Write(d, text, nonce) => WriteKeepsInv(st, e, st');
    case WriteAnyway(d, text, nonce) => WriteKeepsInv(st, e, st');
  }

  lemma {:induction false} RunKeepsInv(states: seq<State>, events: seq<Event>, i: nat)
    requires IsRun(states, events) && i < |states|
    ensures Inv(states[i])
  {
    hide Inv, Next, Initial;
    if i == 0 {
      InitialInv(states[0]);
    } else {
      RunKeepsInv(states, events, i - 1);
      NextKeepsInv(states[i - 1], events[i - 1], states[i]);
    }
  }

  // ---------------------------------------------------------------------
  // What holds over every run
  // ---------------------------------------------------------------------

  /** A rotation that lands gives the new key to exactly the recipients that held
    * the current one when it landed, less the revoked, however many came and went
    * since it was prepared, and raises the epoch by one. */
  lemma LandedIsExact(st: State, d: nat, barred: set<Recipient>, preserve: set<Recipient>, st': State)
    requires Inv(st) && Lands(st, d, barred, preserve, st')
    ensures var q, key, n := st.devices[d].at.request, st.devices[d].at.key, |st.keys|;
            && st'.keys == st.keys + [key] && key !in st.keys
            && Elements(q.revoke) <= st.sp.wraps.Keys && Elements(q.revoke) !! preserve
            && st'.sp.wraps == map r | r in st.sp.wraps && r !in Elements(q.revoke) :: Copy(WrapOf(key, r), n)
  {
    hide Upserted, NotStale, PendingDistinct, ChangesSealed, PublishedOk, Chained, KeysDistinct, RotateRefused;
    hide Prepared, Public, Chained, Epoch;
    LandedStartedFromCurrent(st, d, barred, preserve, st');
    RotationIsExact(st.sp, st.devices[d].at.request, barred, preserve);
    LandedCopies(st, d, barred, preserve, st');
    assert DeviceOk(st.devices[d], st.keys, st.minted);
  }

  /** No step takes a key or a change away, and a conditional write stores its change
    * only sealed under the key current at that moment. */
  lemma NextExtends(st: State, e: Event, st': State)
    requires Inv(st) && Next(st, e, st')
    ensures st.keys <= st'.keys && st.sealed <= st'.sealed && st.sp.changes <= st'.sp.changes
    ensures e.Write? ==> forall k :: |st.sealed| <= k < |st'.sealed| ==> st'.sealed[k] == |st.keys| - 1
  {
    if e.Write? && st' != st {
      AddedIsCurrent(st, e.d);
    }
  }

  lemma {:induction false} RunExtends(states: seq<State>, events: seq<Event>, i: nat, j: nat)
    requires IsRun(states, events) && i <= j < |states|
    ensures states[i].keys <= states[j].keys && states[i].sealed <= states[j].sealed
    ensures states[i].sp.changes <= states[j].sp.changes
  {
    hide Inv, Next;
    if i < j {
      RunExtends(states, events, i, j - 1);
      RunKeepsInv(states, events, j - 1);
      NextExtends(states[j - 1], events[j - 1], states[j]);
    }
  }

  ghost predicate LandsAt(states: seq<State>, events: seq<Event>, i: nat)
    requires IsRun(states, events)
  {
    i < |events| && events[i].Commit? &&
        Lands(states[i], events[i].d, events[i].barred, events[i].preserve, states[i + 1])
  }

  /** No two rotations from one epoch both land: of any two that land, the later
    * started from a later epoch. */
  lemma NoTwoLandFromOneEpoch(states: seq<State>, events: seq<Event>, i: nat, j: nat)
    requires IsRun(states, events) && i < j && LandsAt(states, events, i) && LandsAt(states, events, j)
    ensures states[i].devices[events[i].d].at.request.expected < states[j].devices[events[j].d].at.request.expected
  {
    hide Next, Inv, Lands;
    RunKeepsInv(states, events, i);
    RunKeepsInv(states, events, j);
    LandedStartedFromCurrent(states[i], events[i].d, events[i].barred, events[i].preserve, states[i + 1]);
    LandedStartedFromCurrent(states[j], events[j].d, events[j].barred, events[j].preserve, states[j + 1]);
    RunExtends(states, events, i + 1, j);
  }

  /** Whoever holds a copy can open the space and read every change in it, under
    * whichever key it was sealed. */
  lemma RecipientReadsEverything(states: seq<State>, events: seq<Event>, i: nat, r: Recipient, k: nat)
    requires IsRun(states, events) && i < |states|
    requires r in states[i].sp.wraps && k < |states[i].sp.changes|
    ensures var sp := states[i].sp;
            var at := OpenWith(r, sp.wraps[r], Epoch(sp.history), sp.history);
            at.Open? && sp.changes[k].Sealed? && Decrypt(at.ring, sp.changes[k]) == Some(sp.changes[k].text)
  {
    hide Inv, Next, OpenWith;
    RunKeepsInv(states, events, i);
    RecipientOpens(states[i], r);
    RingReads(states[i], k);
  }

  lemma RecipientOpens(st: State, r: Recipient)
    requires Inv(st) && r in st.sp.wraps
    ensures Epoch(st.sp.history) == |st.keys| - 1
    ensures var n := |st.keys| - 1; OpenWith(r, st.sp.wraps[r], n, st.sp.history) == Open(Ring(st.keys, n), n)
  {
    ChainUnrolls(st.sp.history, st.keys, |st.keys| - 1, |st.keys| - 1);
  }

  lemma RingReads(st: State, k: nat)
    requires Inv(st) && k < |st.sp.changes|
    ensures st.sp.changes[k].Sealed?
    ensures Decrypt(Ring(st.keys, |st.keys| - 1), st.sp.changes[k]) == Some(st.sp.changes[k].text)
  {
    var n := |st.keys| - 1;
    var ring := Ring(st.keys, n);
    assert ring[n - st.sealed[k]] == st.keys[st.sealed[k]];
    DecryptIff(ring, st.sp.changes[k]);
  }

  // ---------------------------------------------------------------------
  // Who can read what
  // ---------------------------------------------------------------------

  /** Keys a recipient can work out: one from a copy made for it, and then each
    * from a row sealed under the one before. */
  ghost predicate Derives(published: set<Blob>, r: Recipient, path: seq<Key>) {
    && path != []
    && WrapOf(path[0], r) in published
    && forall i :: 0 <= i < |path| - 1 ==> LinkOf(path[i], path[i + 1]) in published
  }

  /** The chain seals backwards only: what a recipient works out is never newer
    * than a key it was given. */
  lemma {:induction false} DerivedWasGiven(st: State, r: Recipient, path: seq<Key>) returns (e: nat, f: nat)
    requires Inv(st) && Derives(st.published, r, path)
    ensures e <= f < |st.keys| && path[|path| - 1] == st.keys[e]
    ensures (r, f) in st.given && WrapOf(st.keys[f], r) in st.published
  {
    var n := |path| - 1;
    if n == 0 {
      assert Public(WrapOf(path[0], r), st.keys, st.given);
      var x :| 0 <= x < |st.keys| && path[0] == st.keys[x] && (r, x) in st.given;
      e, f := x, x;
    } else {
      var e0, f0 := DerivedWasGiven(st, r, path[..n]);
      assert Public(LinkOf(path[n - 1], path[n]), st.keys, st.given);
      var x :| 0 < x < |st.keys| && path[n - 1] == st.keys[x] && path[n] == st.keys[x - 1];
      e, f := x - 1, f0;
    }
  }

  /** From what the controller ever stored, a recipient works out the key of an epoch
    * exactly when a copy of that key, or of a later one, was once made for it. */
  lemma DerivesIff(st: State, r: Recipient, e: nat)
    requires Inv(st) && e < |st.keys|
    ensures (exists path :: Derives(st.published, r, path) && path[|path| - 1] == st.keys[e])
            <==> exists f :: e <= f < |st.keys| && WrapOf(st.keys[f], r) in st.published
  {
    hide KeysDistinct, Chained, CopiesSealCurrent, DeviceOk, PendingDistinct, ChangesSealed, Public;
    if path :| Derives(st.published, r, path) && path[|path| - 1] == st.keys[e] {
      var x, f := DerivedWasGiven(st, r, path);
      SameKeySameEpoch(st, x, e);
    }
    if f :| e <= f < |st.keys| && WrapOf(st.keys[f], r) in st.published {
      var path := DownTo(st.published, st.keys, r, e, f);
    }
  }

  lemma {:induction false} DownTo(published: set<Blob>, keys: seq<Key>, r: Recipient, e: nat, f: nat)
    returns (path: seq<Key>)
    requires e <= f < |keys| && WrapOf(keys[f], r) in published
    requires forall x :: 0 < x < |keys| ==> LinkOf(keys[x], keys[x - 1]) in published
    ensures Derives(published, r, path) && path[|path| - 1] == keys[e]
    decreases f - e
  {
    if e == f {
      path := [keys[f]];
    } else {
      var front := DownTo(published, keys, r, e + 1, f);
      path := front + [keys[e]];
      assert LinkOf(keys[e + 1], keys[e]) in published;
    }
  }

  lemma SameKeySameEpoch(st: State, e: nat, f: nat)
    requires Inv(st) && e < |st.keys| && f < |st.keys| && st.keys[e] == st.keys[f]
    ensures e == f
  {
  }

  /** Nothing from epoch `n` on was given to `r`. */
  ghost predicate NotGivenFrom(st: State, r: Recipient, n: int) {
    forall e :: (r, e) in st.given ==> e < n
  }

  /** The epoch a device has keys of, if it has any. */
  function KnownEpoch(at: Phase): Option<int> {
    match at
    case Keyed(_, e) => Some(e)
    case Open(_, e) => Some(e)
    case Pending(_, e, _, _) => Some(e)
    case _ => None
  }

  /** Whatever `r`'s devices have open, or prepared, is of an epoch before `n`. */
  ghost predicate LeftBehind(devices: map<nat, Device>, r: Recipient, n: int) {
    forall d :: d in devices && devices[d].who == r && KnownEpoch(devices[d].at).Some? ==>
      KnownEpoch(devices[d].at).value < n
  }

  /** A rotation a left-behind device prepared is refused: its epoch has passed. */
  lemma LeftBehindCannotLand(
      st: State, d: nat, barred: set<Recipient>, preserve: set<Recipient>, st': State, r: Recipient, n: int)
    requires Inv(st) && LeftBehind(st.devices, r, n) && n < |st.keys| && Lands(st, d, barred, preserve, st')
    ensures st.devices[d].who != r
  {
    hide Inv, RotateRefused, DoCommit;
    LandedStartedFromCurrent(st, d, barred, preserve, st');
    assert KnownEpoch(st.devices[d].at) == Some(st.devices[d].at.epoch);
  }

  lemma StaysLeftBehind(st: State, e: Event, st': State, r: Recipient, n: int)
    requires Next(st, e, st') && LeftBehind(st.devices, r, n) && r !in st.sp.wraps
    ensures LeftBehind(st'.devices, r, n)
  {
    hide RotateRefused, PutWrapRefused, PutChangeRefused, AfterRotate, AfterPutWrap, AfterPutChange, Prepared;
    hide UnrollRows, Epoch, Elements;
  }

  lemma StaysNotGiven(st: State, e: Event, st': State, r: Recipient, n: int)
    requires Inv(st) && Next(st, e, st') && NotGivenFrom(st, r, n) && r !in st'.sp.wraps
    requires LeftBehind(st.devices, r, n) && n < |st.keys|
    ensures NotGivenFrom(st', r, n)
  {
    if e.Commit? && Lands(st, e.d, e.barred, e.preserve, st') {
      LeftBehindCannotLand(st, e.d, e.barred, e.preserve, st', r, n);
      RotationIsExact(st.sp, st.devices[e.d].at.request, e.barred, e.preserve);
      assert st'.sp.wraps.Keys == Recipients(st.devices[e.d].at.request.wraps);
    }
  }

  /** `r` holds no copy in any of these states. What its devices attempt in them,
    * a rotation prepared before it lost its copy included, is up to them. */
  ghost predicate KeptOut(states: seq<State>, r: Recipient, i: nat, j: nat)
    requires j < |states|
  {
    forall m :: i <= m <= j ==> r !in states[m].sp.wraps
  }

  lemma {:induction false} KeptOutNotGiven(
      states: seq<State>, events: seq<Event>, r: Recipient, n: int, i: nat, j: nat)
    requires IsRun(states, events) && i <= j < |states| && KeptOut(states, r, i, j)
    requires n < |states[i].keys| && NotGivenFrom(states[i], r, n) && LeftBehind(states[i].devices, r, n)
    ensures NotGivenFrom(states[j], r, n) && LeftBehind(states[j].devices, r, n)
  {
    hide Inv, Next, NotGivenFrom, LeftBehind;
    if i < j {
      KeptOutNotGiven(states, events, r, n, i, j - 1);
      RunKeepsInv(states, events, j - 1);
      RunExtends(states, events, i, j - 1);
      StaysLeftBehind(states[j - 1], events[j - 1], states[j], r, n);
      StaysNotGiven(states[j - 1], events[j - 1], states[j], r, n);
    }
  }

  lemma RevokedNotGiven(st: State, d: nat, barred: set<Recipient>, preserve: set<Recipient>, st': State, r: Recipient)
    requires Inv(st) && Lands(st, d, barred, preserve, st')
    requires r in Elements(st.devices[d].at.request.revoke) && st.devices[d].who != r
    ensures NotGivenFrom(st', r, |st.keys|) && LeftBehind(st'.devices, r, |st.keys|) && |st'.keys| > |st.keys|
  {
    assert forall c :: c in st.devices ==> DeviceOk(st.devices[c], st.keys, st.minted);
    RotationIsExact(st.sp, st.devices[d].at.request, barred, preserve);
    assert forall p :: p in st.given ==> p.1 < |st.keys|;
  }

  /** Revocation holds for good: a recipient another's rotation revoked, and not let
    * back in since, cannot work out the key of any change sealed at that rotation's
    * epoch or later, from everything the controller ever stored. */
  lemma RevokedCannotRead(
      states: seq<State>, events: seq<Event>, i: nat, j: nat, r: Recipient, path: seq<Key>, k: nat)
    requires IsRun(states, events) && LandsAt(states, events, i) && i < j < |states|
    requires r in Elements(states[i].devices[events[i].d].at.request.revoke) && states[i].devices[events[i].d].who != r
    requires KeptOut(states, r, i + 1, j)
    requires k < |states[j].sealed| && k < |states[j].sp.changes| && states[j].sealed[k] >= |states[i].keys|
    requires Derives(states[j].published, r, path)
    ensures states[j].sp.changes[k].Sealed? && path[|path| - 1] != states[j].sp.changes[k].key
  {
    hide Next, Lands;
    RunKeepsInv(states, events, i);
    RunKeepsInv(states, events, j);
    RevokedNotGiven(states[i], events[i].d, events[i].barred, events[i].preserve, states[i + 1], r);
    KeptOutNotGiven(states, events, r, |states[i].keys|, i + 1, j);
    var e, f := DerivedWasGiven(states[j], r, path);
    LaterKeyDiffers(states[j], e, states[j].sealed[k]);
  }

  lemma EachChangeNoted(states: seq<State>, events: seq<Event>, i: nat)
    requires IsRun(states, events) && i < |states|
    ensures |states[i].sealed| == |states[i].sp.changes|
  {
    RunKeepsInv(states, events, i);
  }

  /** So it reads no change a conditional write stored after the rotation landed. */
  lemma RevokedCannotReadLater(
      states: seq<State>, events: seq<Event>, i: nat, m: nat, j: nat, r: Recipient, path: seq<Key>, k: nat)
    requires IsRun(states, events) && LandsAt(states, events, i) && i < m < j < |states|
    requires r in Elements(states[i].devices[events[i].d].at.request.revoke) && states[i].devices[events[i].d].who != r
    requires KeptOut(states, r, i + 1, j)
    requires events[m].Write? && |states[m].sp.changes| <= k < |states[m + 1].sp.changes|
    requires Derives(states[j].published, r, path)
    ensures k < |states[j].sp.changes| && states[j].sp.changes[k] == states[m + 1].sp.changes[k]
    ensures states[j].sp.changes[k].Sealed? && path[|path| - 1] != states[j].sp.changes[k].key
  {
    hide Inv, Next, Lands, Derives, KeptOut, Elements, Initial;
    RunKeepsInv(states, events, i);
    RunKeepsInv(states, events, m);
    EachChangeNoted(states, events, m);
    EachChangeNoted(states, events, m + 1);
    EachChangeNoted(states, events, j);
    NextExtends(states[m], events[m], states[m + 1]);
    LandedStartedFromCurrent(states[i], events[i].d, events[i].barred, events[i].preserve, states[i + 1]);
    RunExtends(states, events, i + 1, m);
    RunExtends(states, events, m + 1, j);
    RevokedCannotRead(states, events, i, j, r, path, k);
  }

  lemma LaterKeyDiffers(st: State, e: nat, f: int)
    requires KeysDistinct(st) && e < f < |st.keys|
    ensures st.keys[e] != st.keys[f]
  {
  }
}
