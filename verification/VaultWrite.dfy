/** A vault write against a space that may be rotated at any moment of it. Between
  * any two of the writer's calls the rivals do whatever they like.
  *
  * A change stands for the drive entry together with the manifest and content it
  * names: the writer seals all of them under one key.
  */
module VaultWrite {
  import opened Options
  import opened SpaceKeys
  import opened RotationRuns
  import RotationExamples

  // ---------------------------------------------------------------------
  // The rivals
  // ---------------------------------------------------------------------

  /** What any number of other devices' steps leave standing. The writer's nonces
    * are random: nobody else writes under one. */
  ghost predicate Later(st: State, st': State, nonces: set<nat>) {
    && Inv(st')
    && st.keys <= st'.keys && st.sealed <= st'.sealed && st.sp.changes <= st'.sp.changes
    && forall k :: |st.sp.changes| <= k < |st'.sp.changes| ==>
        st'.sp.changes[k].Sealed? && st'.sp.changes[k].nonce !in nonces
  }

  predicate Writes(e: Event) {
    e.Write? || e.WriteAnyway?
  }

  /** Where `n` of the writer's calls from a moment on leave the space, as long as it
    * records nothing itself. */
  ghost function Drift(rivals: (nat, State) -> State, st: State, t: nat, n: nat): State {
    if n == 0 then st else rivals(t + n - 1, Drift(rivals, st, t, n - 1))
  }

  lemma DriftOne(rivals: (nat, State) -> State, st: State, t: nat, n: nat)
    ensures Drift(rivals, st, t, 0) == st
    ensures Drift(rivals, st, t, n + 1) == rivals(t + n, Drift(rivals, st, t, n))
  {
  }

  lemma {:induction false} DriftOn(rivals: (nat, State) -> State, st: State, t: nat, m: nat, n: nat)
    ensures Drift(rivals, Drift(rivals, st, t, m), t + m, n) == Drift(rivals, st, t, m + n)
    decreases n
  {
    if n > 0 {
      DriftOn(rivals, st, t, m, n - 1);
    }
  }

  predicate AllReach(fails: nat -> bool, t: nat, n: nat) {
    forall i :: t <= i < t + n ==> !fails(i)
  }

  /** A change past an epoch, which its keys do not open. */
  predicate HasPast(st: State, epoch: int) {
    exists k :: 0 <= k < |st.sealed| && st.sealed[k] > epoch
  }

  /** The epoch an attempt begun at a moment opens the space at, if it does. */
  ghost function OpensAt(rivals: (nat, State) -> State, st: State, t: nat): int {
    |Drift(rivals, st, t, 1).keys| - 1
  }

  ghost predicate IsReadable(
      rivals: (nat, State) -> State, fails: nat -> bool, st: State, t: nat, who: Recipient)
  {
    AllReach(fails, t, 2) && who in Drift(rivals, st, t, 1).sp.wraps
  }

  /** The attempt gets as far as loading the drive, and finds a change there past the
    * epoch it opened. */
  ghost predicate LoadFails(rivals: (nat, State) -> State, fails: nat -> bool, st: State, t: nat, who: Recipient) {
    && IsReadable(rivals, fails, st, t, who) && AllReach(fails, t + 2, 2)
    && HasPast(Drift(rivals, st, t, 4), OpensAt(rivals, st, t))
  }

  /** The drive loads, and the change is refused because the epoch has passed. */
  ghost predicate MovesOn(rivals: (nat, State) -> State, fails: nat -> bool, st: State, t: nat, who: Recipient) {
    && IsReadable(rivals, fails, st, t, who) && AllReach(fails, t + 2, 3)
    && !HasPast(Drift(rivals, st, t, 4), OpensAt(rivals, st, t))
    && |Drift(rivals, st, t, 5).keys| - 1 > OpensAt(rivals, st, t)
  }

  /** Every call goes through, no newer change is there, and the epoch still stands as
    * the change arrives. */
  ghost predicate Records(rivals: (nat, State) -> State, fails: nat -> bool, st: State, t: nat, who: Recipient) {
    && IsReadable(rivals, fails, st, t, who) && AllReach(fails, t + 2, 3)
    && !HasPast(Drift(rivals, st, t, 4), OpensAt(rivals, st, t))
    && |Drift(rivals, st, t, 5).keys| - 1 == OpensAt(rivals, st, t)
  }

  /** The space opens, and then a call of the attempt fails: the upload, the load, or
    * the write, which is made only when the drive loads. */
  ghost predicate LosesCall(rivals: (nat, State) -> State, fails: nat -> bool, st: State, t: nat, who: Recipient) {
    && IsReadable(rivals, fails, st, t, who)
    && (fails(t + 2) || fails(t + 3) || (!HasPast(Drift(rivals, st, t, 4), OpensAt(rivals, st, t)) && fails(t + 4)))
  }

  ghost predicate IsChain(states: seq<State>, events: seq<Event>, nonces: set<nat>) {
    && |states| == |events| + 1
    && forall i :: 0 <= i < |events| ==>
         Next(states[i], events[i], states[i + 1]) && (Writes(events[i]) ==> events[i].nonce !in nonces)
  }

  /** Any interleaving of other devices' steps is such an interference. */
  lemma {:induction false} ChainIsLater(states: seq<State>, events: seq<Event>, nonces: set<nat>, i: nat)
    requires IsChain(states, events, nonces) && Inv(states[0]) && i < |states|
    ensures Later(states[0], states[i], nonces)
  {
    hide Inv, Next;
    if i > 0 {
      ChainIsLater(states, events, nonces, i - 1);
      NextKeepsInv(states[i - 1], events[i - 1], states[i]);
      NextExtends(states[i - 1], events[i - 1], states[i]);
      StepWrites(states[i - 1], events[i - 1], states[i], nonces);
    }
  }

  lemma StepWrites(st: State, e: Event, st': State, nonces: set<nat>)
    requires Next(st, e, st') && (Writes(e) ==> e.nonce !in nonces)
    ensures forall k :: |st.sp.changes| <= k < |st'.sp.changes| ==>
              st'.sp.changes[k].Sealed? && st'.sp.changes[k].nonce !in nonces
  {
  }

  ghost predicate LawfulRivals(rivals: (nat, State) -> State, nonces: set<nat>) {
    forall t, st :: Inv(st) ==> Later(st, rivals(t, st), nonces)
  }

  /** Nothing of the writer's has been stored. */
  ghost predicate Untouched(st: State, nonces: set<nat>) {
    forall c :: c in st.sp.changes ==> c.Sealed? && c.nonce !in nonces
  }

  /** The writer's change, and nothing else of its, has been stored, and at the
    * epoch whose key sealed it. */
  ghost predicate Recorded(st: State, st': State, change: Blob, nonces: set<nat>) {
    var n := |st'.sp.changes| - 1;
    && Inv(st') && st.keys <= st'.keys
    && n >= |st.sp.changes| && st'.sp.changes[n] == change && st'.sealed[n] == |st'.keys| - 1
    && forall k :: 0 <= k < n ==> st'.sp.changes[k].Sealed? && st'.sp.changes[k].nonce !in nonces
  }

  lemma LaterTransitive(a: State, b: State, c: State, nonces: set<nat>)
    requires Later(a, b, nonces) && Later(b, c, nonces)
    ensures Later(a, c, nonces)
  {
    hide Inv;
  }

  /** What recording means to a reader: one change of the writer's, stored once,
    * under the key that was current as it landed. */
  lemma RecordedOnceUnderCurrentKey(st: State, st': State, change: Blob, nonces: set<nat>)
    requires Recorded(st, st', change, nonces) && change.Sealed? && change.nonce in nonces
    ensures change.key == st'.keys[|st'.keys| - 1]
    ensures multiset(st'.sp.changes)[change] == 1
    ensures forall c :: c in st'.sp.changes && c.Sealed? && c.nonce in nonces ==> c == change
  {
    var n := |st'.sp.changes| - 1;
    var others := st'.sp.changes[..n];
    assert st'.sp.changes == others + [change];
    assert change !in others;
    assert |st'.sealed| == n + 1;
  }

  lemma LaterThenRecorded(a: State, b: State, c: State, change: Blob, nonces: set<nat>)
    requires Untouched(a, nonces) && Later(a, b, nonces) && Recorded(b, c, change, nonces)
    ensures Recorded(a, c, change, nonces)
  {
    hide Inv;
  }

  lemma StaysUntouched(st: State, st': State, nonces: set<nat>)
    requires Untouched(st, nonces) && Later(st, st', nonces)
    ensures Untouched(st', nonces)
  {
    hide Inv;
    forall c | c in st'.sp.changes ensures c.Sealed? && c.nonce !in nonces {
      var k :| 0 <= k < |st'.sp.changes| && st'.sp.changes[k] == c;
      assert k < |st.sp.changes| ==> st.sp.changes[k] == c;
    }
  }

  lemma EpochIsLast(st: State)
    requires Inv(st)
    ensures Epoch(st.sp.history) == |st.keys| - 1 >= 0
    ensures forall r :: r in st.sp.wraps ==> st.sp.wraps[r] == Copy(WrapOf(st.keys[|st.keys| - 1], r), |st.keys| - 1)
  {
  }

  /** A copy read at one moment opens with the history of any later one. */
  lemma OpensLater(st: State, st': State, who: Recipient)
    requires Inv(st) && Inv(st') && st.keys <= st'.keys && who in st.sp.wraps
    ensures var e := |st.keys| - 1;
            0 <= e < |st'.keys| && OpenWith(who, st.sp.wraps[who], e, st'.sp.history) == Open(Ring(st'.keys, e), e)
  {
    var e := |st.keys| - 1;
    EpochIsLast(st);
    assert st'.keys[e] == st.keys[e];
    ChainUnrolls(st'.sp.history, st'.keys, e, e);
  }

  lemma RingStands(st: State, st': State, e: nat)
    requires st.keys <= st'.keys && e < |st.keys|
    ensures Ring(st'.keys, e) == Ring(st.keys, e) && st'.keys[e] == st.keys[e] == Ring(st.keys, e)[0]
  {
  }

  lemma PastIsBelow(st: State, epoch: nat)
    requires Inv(st) && HasPast(st, epoch)
    ensures epoch < |st.keys| - 1
  {
  }

  lemma LaterKeeps(st: State, st': State, nonces: set<nat>)
    requires Later(st, st', nonces)
    ensures Inv(st') && st.keys <= st'.keys
  {
  }

  lemma RingReadsIff(st: State, e: nat, k: nat)
    requires Inv(st) && e < |st.keys| && k < |st.sp.changes|
    ensures k < |st.sealed|
    ensures Decrypt(Ring(st.keys, e), st.sp.changes[k]).Some? <==> st.sealed[k] <= e
  {
    var ring, f := Ring(st.keys, e), st.sealed[k];
    DecryptIff(ring, st.sp.changes[k]);
    if f <= e {
      assert ring[e - f] == st.keys[f];
    } else {
      forall i | 0 <= i <= e ensures ring[i] != st.keys[f] {
        LaterKeyDiffers(st, e - i, f);
      }
    }
  }

  lemma RecordedNow(first: State, st: State, change: Blob, epoch: nat, nonces: set<nat>)
    requires Later(first, st, nonces) && Untouched(st, nonces) && change.Sealed? && change.nonce in nonces
    requires epoch == |st.keys| - 1 && change.key == st.keys[epoch]
    ensures Recorded(first, st.(sp := AfterPutChange(st.sp, change), sealed := st.sealed + [epoch]), change, nonces)
  {
    var st' := st.(sp := AfterPutChange(st.sp, change), sealed := st.sealed + [epoch]);
    assert change !in st.sp.changes;
    assert forall k :: 0 <= k < |st.sp.changes| ==> st.sp.changes[k] in st.sp.changes;
  }

  // ---------------------------------------------------------------------
  // The controller, and the file being written
  // ---------------------------------------------------------------------

  class Controller {
    var st: State
    /** Uploaded ciphertext, in order. Nothing takes it away. */
    var blobs: seq<Blob>
    var opens: nat
    var time: nat
    const rivals: (nat, State) -> State
    /** Whether the call at a moment fails before it takes effect. */
    const fails: nat -> bool

    constructor (st: State, rivals: (nat, State) -> State, fails: nat -> bool)
      ensures this.st == st && blobs == [] && opens == 0 && time == 0 && this.rivals == rivals && this.fails == fails
    {
      this.st, blobs, opens, time := st, [], 0, 0;
      this.rivals, this.fails := rivals, fails;
    }

    ghost predicate Valid(nonces: set<nat>)
      reads this
    {
      Inv(st) && LawfulRivals(rivals, nonces)
    }

    /** The rivals act, and the next call may or may not go through. */
    method Reach(ghost nonces: set<nat>) returns (ok: bool)
      requires Valid(nonces)
      modifies this`st, this`time
      ensures Valid(nonces) && Later(old(st), st, nonces)
      ensures st == rivals(old(time), old(st)) && time == old(time) + 1 && ok == !fails(old(time))
    {
      st := rivals(time, st);
      ok := !fails(time);
      time := time + 1;
    }

    /** Two reads: the copies with the epoch, then the history. */
    method Open(who: Recipient, ghost nonces: set<nat>) returns (at: Phase)
      requires Valid(nonces)
      modifies this`st, this`time, this`opens
      ensures Valid(nonces) && Later(old(st), st, nonces) && opens == old(opens) + 1
      ensures at.Open? || at.Ended?
      ensures at.Open? <==> IsReadable(rivals, fails, old(st), old(time), who)
      ensures at.Open? ==> at.epoch == OpensAt(rivals, old(st), old(time))
      ensures at.Open? <==>
              && !fails(old(time)) && !fails(old(time) + 1)
              && who in rivals(old(time), old(st)).sp.wraps
      ensures at.Open? ==> at.epoch == |rivals(old(time), old(st)).keys| - 1
      ensures at.Open? ==> st == Drift(rivals, old(st), old(time), 2) && time == old(time) + 2
      ensures at.Open? ==>
                0 <= at.epoch && |old(st).keys| - 1 <= at.epoch < |st.keys| && at.ring == Ring(st.keys, at.epoch)
    {
      hide Inv, Later, LawfulRivals, OpenWith, Drift, Ring;
      opens := opens + 1;
      DriftOne(rivals, st, time, 0);
      DriftOne(rivals, st, time, 1);
      var ok := Reach(nonces);
      if !ok || who !in st.sp.wraps {
        return Ended(NoCopy);
      }
      ghost var first := st;
      var own := st.sp.wraps[who];
      var epoch := |st.keys| - 1;
      EpochIsLast(st);
      if own.epoch != epoch {
        return Ended(StaleCopy);
      }
      ok := Reach(nonces);
      LaterTransitive(old(st), first, st, nonces);
      if !ok {
        return Ended(OpenFailed);
      }
      at := OpenWith(who, own, epoch, st.sp.history);
      LaterKeeps(old(st), first, nonces);
      LaterKeeps(first, st, nonces);
      OpensLater(first, st, who);
    }

    method PutBlob(blob: Blob, ghost nonces: set<nat>) returns (ok: bool)
      requires Valid(nonces)
      modifies this`st, this`time, this`blobs
      ensures Valid(nonces) && Later(old(st), st, nonces)
      ensures st == rivals(old(time), old(st)) && time == old(time) + 1 && ok == !fails(old(time))
      ensures blobs == if ok then old(blobs) + [blob] else old(blobs)
    {
      ok := Reach(nonces);
      if ok {
        blobs := blobs + [blob];
      }
    }

    /** Fetches every change and decrypts it with the keys at hand: one that opens
      * under none of them fails the whole load. */
    method LoadDrive(ring: seq<Key>, ghost epoch: nat, ghost nonces: set<nat>) returns (ok: bool, reached: bool)
      requires Valid(nonces) && epoch < |st.keys| && ring == Ring(st.keys, epoch)
      modifies this`st, this`time
      ensures Valid(nonces) && Later(old(st), st, nonces)
      ensures st == rivals(old(time), old(st)) && time == old(time) + 1 && reached == !fails(old(time))
      ensures reached ==> (ok <==> !HasPast(st, epoch))
      ensures reached ==> (ok <==> forall i :: 0 <= i < |st.sealed| ==> st.sealed[i] <= epoch)
    {
      hide Later, LawfulRivals, Decrypt, KeysDistinct, Chained, CopiesSealCurrent, DeviceOk, PublishedOk;
      reached := Reach(nonces);
      if !reached {
        return false, false;
      }
      ok := true;
      var changes := st.sp.changes;
      ghost var read := st;
      RingStands(old(st), st, epoch);
      for i := 0 to |changes|
        invariant st == read && time == old(time) + 1
        invariant ok <==> forall k :: 0 <= k < i ==> st.sealed[k] <= epoch
      {
        RingReadsIff(st, epoch, i);
        ok := ok && Decrypt(ring, changes[i]).Some?;
      }
    }

    /** The conditional write: stored only while the epoch still stands. */
    method PutChangeAtEpoch(change: Blob, epoch: nat, nonces: set<nat>) returns (ok: bool, why: Option<Failure>)
      requires Valid(nonces) && change.Sealed? && change.nonce in nonces
      requires epoch < |st.keys| && change.key == st.keys[epoch]
      requires Untouched(st, nonces)
      modifies this`st, this`time
      ensures Valid(nonces)
      ensures why == None || why == Some(ChangeEpoch)
      ensures ok && why == None ==> Recorded(old(st), st, change, nonces)
      ensures !(ok && why == None) ==> Later(old(st), st, nonces)
      ensures time == old(time) + 1 && ok == !fails(old(time))
      ensures why.Some? <==> ok && epoch < |rivals(old(time), old(st)).keys| - 1
      ensures ok && why == None <==> !fails(old(time)) && epoch == |rivals(old(time), old(st)).keys| - 1
      ensures why.Some? ==> st == rivals(old(time), old(st))
    {
      ok := Reach(nonces);
      if !ok {
        return false, None;
      }
      ghost var before := st;
      StaysUntouched(old(st), before, nonces);
      EpochIsLast(st);
      var current := |st.keys| - 1;
      if current != epoch {
        return true, Some(ChangeEpoch);
      }
      st := st.(sp := AfterPutChange(st.sp, change), sealed := st.sealed + [epoch]);
      RecordedNow(old(st), before, change, epoch, nonces);
      return true, None;
    }
  }

  function From(content: string, pos: nat): string {
    if pos <= |content| then content[pos..] else ""
  }

  class Reader {
    const content: string
    const seekFails: bool
    var pos: nat

    /** What there is still to read. */
    function Rest(): string
      reads this
    {
      From(content, pos)
    }

    constructor (content: string, pos: nat, seekFails: bool)
      ensures this.content == content && this.pos == pos && this.seekFails == seekFails
    {
      this.content, this.pos, this.seekFails := content, pos, seekFails;
    }

    method ReadAll() returns (text: string)
      modifies this`pos
      ensures text == old(Rest()) && Rest() == ""
      ensures pos == if old(pos) <= |content| then |content| else old(pos)
    {
      text := Rest();
      pos := if pos <= |content| then |content| else pos;
    }

    method SeekStart() returns (ok: bool)
      modifies this`pos
      ensures ok <==> !seekFails
      ensures pos == if ok then 0 else old(pos)
      ensures ok ==> Rest() == content
    {
      ok := !seekFails;
      if ok {
        pos := 0;
      }
    }
  }

  // ---------------------------------------------------------------------
  // The write
  // ---------------------------------------------------------------------

  datatype Result =
    | Written(change: Blob)
    | RotatedAgain
    | NotReadable
    | CallFailed
    | Undecryptable
    | RewindFailed
    | KeyMoved

  /** One attempt with the keys of `epoch`: upload, load the drive, record. */
  method VaultPut(c: Controller, ring: seq<Key>, epoch: nat, r: Reader, nonce: nat, nonces: set<nat>)
    returns (result: Result)
    requires c.Valid(nonces) && epoch < |c.st.keys| && ring == Ring(c.st.keys, epoch)
    requires Untouched(c.st, nonces) && nonce in nonces
    modifies c`st, c`time, c`blobs, r`pos
    ensures c.Valid(nonces)
    ensures result in {KeyMoved, CallFailed, Undecryptable} || result == Written(Sealed(ring[0], old(r.Rest()), nonce))
    ensures result.Written? ==> Recorded(old(c.st), c.st, result.change, nonces)
    ensures !result.Written? ==> Later(old(c.st), c.st, nonces)
    ensures result in {KeyMoved, Undecryptable} ==> epoch < |c.st.keys| - 1
    ensures result == Undecryptable <==>
              && AllReach(c.fails, old(c.time), 2)
              && HasPast(Drift(c.rivals, old(c.st), old(c.time), 2), epoch)
    ensures result == KeyMoved <==>
              && AllReach(c.fails, old(c.time), 3)
              && !HasPast(Drift(c.rivals, old(c.st), old(c.time), 2), epoch)
              && |Drift(c.rivals, old(c.st), old(c.time), 3).keys| - 1 > epoch
    ensures result.Written? <==>
              && AllReach(c.fails, old(c.time), 3)
              && !HasPast(Drift(c.rivals, old(c.st), old(c.time), 2), epoch)
              && |Drift(c.rivals, old(c.st), old(c.time), 3).keys| - 1 == epoch
    ensures result == CallFailed <==>
              || c.fails(old(c.time)) || c.fails(old(c.time) + 1)
              || (!HasPast(Drift(c.rivals, old(c.st), old(c.time), 2), epoch) && c.fails(old(c.time) + 2))
    ensures result == KeyMoved ==> c.st == Drift(c.rivals, old(c.st), old(c.time), 3) && c.time == old(c.time) + 3
    ensures c.blobs == old(c.blobs) || c.blobs == old(c.blobs) + [Sealed(ring[0], old(r.Rest()), nonce)]
    ensures result in {KeyMoved, Undecryptable} || result.Written? ==>
              c.blobs == old(c.blobs) + [Sealed(ring[0], old(r.Rest()), nonce)]
  {
    hide Inv, Later, Recorded, Untouched, LawfulRivals, Ring, Drift, HasPast;
    ghost var first := c.st;
    DriftOne(c.rivals, first, c.time, 0);
    DriftOne(c.rivals, first, c.time, 1);
    DriftOne(c.rivals, first, c.time, 2);
    var text := r.ReadAll();
    var change := Sealed(ring[0], text, nonce);
    var ok := c.PutBlob(change, nonces);
    if !ok {
      return CallFailed;
    }
    ghost var second := c.st;
    LaterKeeps(first, second, nonces);
    RingStands(first, second, epoch);
    var reached;
    ok, reached := c.LoadDrive(ring, epoch, nonces);
    LaterTransitive(first, second, c.st, nonces);
    if !reached {
      return CallFailed;
    }
    if !ok {
      PastIsBelow(c.st, epoch);
      return Undecryptable;
    }
    ghost var third := c.st;
    LaterKeeps(first, third, nonces);
    RingStands(first, third, epoch);
    StaysUntouched(first, third, nonces);
    var why;
    ok, why := c.PutChangeAtEpoch(change, epoch, nonces);
    if ok && why == None {
      LaterThenRecorded(first, third, c.st, change, nonces);
      return Written(change);
    }
    LaterTransitive(first, third, c.st, nonces);
    return if ok then KeyMoved else CallFailed;
  }

  /** A second attempt rewinds to the start of the file, which is where the first
    * began exactly when the reader was handed over at its start. */
  lemma SamePlaintextIff(content: string, pos: nat)
    ensures From(content, pos) == content <==> pos == 0 || content == ""
  {
    assert content == "" ==> From(content, pos) == "";
    assert pos == 0 ==> From(content, pos) == content;
  }

  /** What an attempt's calls meet, in terms of where its keys were opened. */
  lemma AttemptMeets(rivals: (nat, State) -> State, fails: nat -> bool, st: State, t: nat, who: Recipient)
    ensures var from := Drift(rivals, st, t, 2);
            && Drift(rivals, from, t + 2, 2) == Drift(rivals, st, t, 4)
            && Drift(rivals, from, t + 2, 3) == Drift(rivals, st, t, 5)
    ensures AllReach(fails, t + 2, 2) <==> !fails(t + 2) && !fails(t + 3)
    ensures AllReach(fails, t + 2, 3) <==> !fails(t + 2) && !fails(t + 3) && !fails(t + 4)
  {
    DriftOn(rivals, st, t, 2, 2);
    DriftOn(rivals, st, t, 2, 3);
  }

  /** An attempt that does not open comes to nothing else. */
  lemma NotOpened(rivals: (nat, State) -> State, fails: nat -> bool, st: State, t: nat, who: Recipient)
    requires !IsReadable(rivals, fails, st, t, who)
    ensures !Records(rivals, fails, st, t, who) && !LosesCall(rivals, fails, st, t, who)
    ensures !LoadFails(rivals, fails, st, t, who) && !MovesOn(rivals, fails, st, t, who)
  {
  }

  /** An attempt comes to one thing. */
  lemma Exclusive(rivals: (nat, State) -> State, fails: nat -> bool, st: State, t: nat, who: Recipient)
    ensures MovesOn(rivals, fails, st, t, who) ==>
              && IsReadable(rivals, fails, st, t, who) && !Records(rivals, fails, st, t, who)
              && !LosesCall(rivals, fails, st, t, who) && !LoadFails(rivals, fails, st, t, who)
  {
  }

  /** One attempt: opens the space and writes with the keys it opened. */
  method Attempt(c: Controller, who: Recipient, r: Reader, nonce: nat, nonces: set<nat>) returns (result: Result)
    requires c.Valid(nonces) && Untouched(c.st, nonces) && nonce in nonces
    modifies c`st, c`time, c`blobs, c`opens, r`pos
    ensures c.Valid(nonces) && c.opens == old(c.opens) + 1
    ensures result in {NotReadable, CallFailed, Undecryptable, KeyMoved} || result.Written?
    ensures result.Written? ==> Recorded(old(c.st), c.st, result.change, nonces)
    ensures result.Written? ==> result.change.Sealed? && result.change.text == old(r.Rest())
    ensures !result.Written? ==> Later(old(c.st), c.st, nonces)
    ensures result.Written? <==> Records(c.rivals, c.fails, old(c.st), old(c.time), who)
    ensures result == NotReadable <==> !IsReadable(c.rivals, c.fails, old(c.st), old(c.time), who)
    ensures result == CallFailed <==> LosesCall(c.rivals, c.fails, old(c.st), old(c.time), who)
    ensures result == Undecryptable <==> LoadFails(c.rivals, c.fails, old(c.st), old(c.time), who)
    ensures result == KeyMoved <==> MovesOn(c.rivals, c.fails, old(c.st), old(c.time), who)
    ensures result == KeyMoved ==> c.st == Drift(c.rivals, old(c.st), old(c.time), 5) && c.time == old(c.time) + 5
    ensures result in {KeyMoved, Undecryptable} ==> |c.st.keys| > |old(c.st).keys|
    ensures c.blobs == old(c.blobs) || (|c.blobs| == |old(c.blobs)| + 1 && old(c.blobs) <= c.blobs)
    ensures result in {KeyMoved, Undecryptable} || result.Written? ==>
              && |c.blobs| == |old(c.blobs)| + 1
              && c.blobs[|old(c.blobs)|].Sealed? && c.blobs[|old(c.blobs)|].text == old(r.Rest())
  {
    hide Inv, Later, Recorded, Untouched, LawfulRivals, Ring, From, Drift, HasPast, AllReach;
    ghost var start := c.st;
    AttemptMeets(c.rivals, c.fails, start, c.time, who);
    var at := c.Open(who, nonces);
    if !at.Open? {
      NotOpened(c.rivals, c.fails, start, old(c.time), who);
      return NotReadable;
    }
    ghost var from := c.st;
    LaterKeeps(start, from, nonces);
    StaysUntouched(start, from, nonces);
    result := VaultPut(c, at.ring, at.epoch, r, nonce, nonces);
    if result.Written? {
      LaterThenRecorded(start, from, c.st, result.change, nonces);
    } else {
      LaterTransitive(start, from, c.st, nonces);
    }
  }

  /** Opens, seals and records; after a rotation, re-opens, rewinds and seals once
    * more. Whatever the rivals do, what is recorded was sealed under the key
    * current as it landed, success means one change recorded and any error none.
    * When every call goes through and the space stays readable, it is defeated
    * exactly when a rival's change under a newer key is there to be loaded, when the
    * file does not rewind after a rotation, or when a second rotation lands. */
  method VaultPutFresh(c: Controller, who: Recipient, r: Reader, nonce: nat, renonce: nat) returns (result: Result)
    requires c.Valid({nonce, renonce}) && Untouched(c.st, {nonce, renonce})
    modifies c`st, c`time, c`blobs, c`opens, r`pos
    ensures c.Valid({nonce, renonce}) && old(c.opens) < c.opens <= old(c.opens) + 2
    ensures result.Written? ==> Recorded(old(c.st), c.st, result.change, {nonce, renonce})
    ensures !result.Written? ==> Untouched(c.st, {nonce, renonce}) && old(c.st).keys <= c.st.keys
    ensures result.Written? ==>
              result.change.Sealed? &&
              result.change.text == if c.opens == old(c.opens) + 1 then old(r.Rest()) else r.content
    ensures result == RotatedAgain ==> |c.st.keys| >= |old(c.st).keys| + 2
    ensures var (st, t) := (old(c.st), old(c.time));
            var again := MovesOn(c.rivals, c.fails, st, t, who) && !r.seekFails;
            && (c.opens == old(c.opens) + 2 <==> again)
            && (result.Written? <==>
                  || Records(c.rivals, c.fails, st, t, who)
                  || (again && Records(c.rivals, c.fails, Drift(c.rivals, st, t, 5), t + 5, who)))
            && (result == NotReadable <==>
                  || !IsReadable(c.rivals, c.fails, st, t, who)
                  || (again && !IsReadable(c.rivals, c.fails, Drift(c.rivals, st, t, 5), t + 5, who)))
            && (result == CallFailed <==>
                  || LosesCall(c.rivals, c.fails, st, t, who)
                  || (again && LosesCall(c.rivals, c.fails, Drift(c.rivals, st, t, 5), t + 5, who)))
            && (result == RewindFailed <==> MovesOn(c.rivals, c.fails, st, t, who) && r.seekFails)
            && (result == Undecryptable <==>
                  || LoadFails(c.rivals, c.fails, st, t, who)
                  || (again && LoadFails(c.rivals, c.fails, Drift(c.rivals, st, t, 5), t + 5, who)))
            && (result == RotatedAgain <==>
                  again && MovesOn(c.rivals, c.fails, Drift(c.rivals, st, t, 5), t + 5, who))
    ensures result in {Undecryptable, RewindFailed} ==> |c.st.keys| > |old(c.st).keys|
    ensures result != KeyMoved && (result == RewindFailed ==> r.seekFails)
    ensures old(c.blobs) <= c.blobs && |c.blobs| <= |old(c.blobs)| + 2
    ensures c.opens == old(c.opens) + 2 && (result in {RotatedAgain, Undecryptable} || result.Written?) ==>
              var n := |old(c.blobs)|;
              && |c.blobs| == n + 2 && c.blobs[n].Sealed? && c.blobs[n + 1].Sealed?
              && c.blobs[n].text == old(r.Rest()) && c.blobs[n + 1].text == r.content
              && (c.blobs[n].text == c.blobs[n + 1].text <==> old(r.pos) == 0 || r.content == "")
  {
    hide Inv, Later, Recorded, Untouched, LawfulRivals, From, Drift;
    hide Records, LosesCall, LoadFails, MovesOn, IsReadable;
    var nonces := {nonce, renonce};
    ghost var start := c.st;
    SamePlaintextIff(r.content, r.pos);
    Exclusive(c.rivals, c.fails, start, c.time, who);
    result := Attempt(c, who, r, nonce, nonces);
    ghost var moved := c.st;
    if result != KeyMoved {
      if !result.Written? {
        LaterKeeps(start, moved, nonces);
        StaysUntouched(start, moved, nonces);
      }
      return;
    }
    LaterKeeps(start, moved, nonces);
    StaysUntouched(start, moved, nonces);
    var ok := r.SeekStart();
    if !ok {
      return RewindFailed;
    }
    result := Attempt(c, who, r, renonce, nonces);
    if result.Written? {
      LaterThenRecorded(start, moved, c.st, result.change, nonces);
      return;
    }
    LaterTransitive(start, moved, c.st, nonces);
    LaterKeeps(start, c.st, nonces);
    StaysUntouched(start, c.st, nonces);
    if result == KeyMoved {
      return RotatedAgain;
    }
  }

  // ---------------------------------------------------------------------
  // A write that is not retried
  // ---------------------------------------------------------------------

  /** Rivals that do nothing until the writer loads the drive, having opened the space
    * and uploaded its file, and then rotate the key and write. */
  function RekeyBeforeLoad(nonce: nat): (nat, State) -> State {
    (t, st) => if t == 3 && st == RotationExamples.Created() then RotationExamples.RekeyedAndWritten(nonce) else st
  }

  lemma LaterItself(st: State, nonces: set<nat>)
    requires Inv(st)
    ensures Later(st, st, nonces)
  {
    hide Inv;
  }

  lemma RekeyIsLater(nonce: nat, nonces: set<nat>)
    requires nonce !in nonces
    ensures Later(RotationExamples.Created(), RotationExamples.RekeyedAndWritten(nonce), nonces)
  {
    hide Inv, Next, Later;
    var states, events := RotationExamples.RekeysAndWrites(nonce);
    assert IsChain(states, events, nonces);
    ChainIsLater(states, events, nonces, |events|);
  }

  /** What they do is steps of other devices, so they are lawful; and the load fails. */
  lemma LoadCanFail(nonce: nat, nonces: set<nat>)
    requires nonce !in nonces
    ensures LawfulRivals(RekeyBeforeLoad(nonce), nonces)
    ensures Initial(RotationExamples.Created()) && Inv(RotationExamples.Created())
    ensures LoadFails(RekeyBeforeLoad(nonce), _ => false, RotationExamples.Created(), 0, "a")
  {
    hide Inv, Initial, Later, LoadFails, RotationExamples.RekeyedAndWritten;
    RotationExamples.CreatedIsInitial();
    var rivals := RekeyBeforeLoad(nonce);
    RekeyIsLater(nonce, nonces);
    forall t: nat, st | Inv(st) ensures Later(st, rivals(t, st), nonces) {
      LaterItself(st, nonces);
    }
    LoadMeetsRekey(nonce);
  }

  lemma LoadMeetsRekey(nonce: nat)
    ensures LoadFails(RekeyBeforeLoad(nonce), _ => false, RotationExamples.Created(), 0, "a")
  {
    hide Drift, RotationExamples.RekeyedAndWritten;
    var created, rivals := RotationExamples.Created(), RekeyBeforeLoad(nonce);
    DriftOne(rivals, created, 0, 0);
    DriftOne(rivals, created, 0, 1);
    DriftOne(rivals, created, 0, 2);
    DriftOne(rivals, created, 0, 3);
    var states, events := RotationExamples.RekeysAndWrites(nonce);
    assert RotationExamples.RekeyedAndWritten(nonce).sealed[0] == 1;
  }

  /** Against them the write ends there, with nothing recorded and no second attempt. */
  method LoadFailsUnretried(content: string, nonce: nat, renonce: nat, rival: nat)
    returns (c: Controller, result: Result)
    requires rival !in {nonce, renonce}
    ensures fresh(c) && c.rivals == RekeyBeforeLoad(rival) && c.opens == 1
    ensures result == Undecryptable && Untouched(c.st, {nonce, renonce})
  {
    hide Inv, Initial, Next, Later;
    LoadCanFail(rival, {nonce, renonce});
    var never := (t: nat) => false;
    c := new Controller(RotationExamples.Created(), RekeyBeforeLoad(rival), never);
    assert LoadFails(c.rivals, never, c.st, 0, "a");
    var r := new Reader(content, 0, false);
    result := VaultPutFresh(c, "a", r, nonce, renonce);
  }
}
