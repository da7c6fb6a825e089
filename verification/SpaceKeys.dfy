/** A space's keys as the controller holds them: the chain of sealed keys, one
  * sealed copy for each recipient, and the changes. Sealing is symbolic: a sealed
  * value says what it was sealed under, and only that opens it.
  */
module SpaceKeys {
  import opened Options
  import opened StringOrder

  /** Zero is no usable key. */
  type Key = nat
  type Recipient = string

  datatype Blob =
    | Empty
    | WrapOf(key: Key, recipient: Recipient)
    | LinkOf(next: Key, prev: Key)
    | Sealed(key: Key, text: string, nonce: nat)

  datatype Copy = Copy(blob: Blob, epoch: int)

  /** Changes are content-addressed, so one is its own id. */
  datatype Space = Space(history: map<int, Blob>, wraps: map<Recipient, Copy>, changes: seq<Blob>)

  datatype RecipientWrap = RecipientWrap(recipient: Recipient, wrapped: Blob)

  datatype Request = Request(expected: int, sealedPrev: Blob, wraps: seq<RecipientWrap>, revoke: seq<Recipient>)

  datatype Failure =
    | InvalidEpoch | EmptySealedPrev | NoWraps | EmptyRecipient | EmptyWrapped | RevokesRewrapped
    | EpochConflict | WrapNotAllowed | RecipientsChanged | DropsPreserved
    | StaleEpoch | FutureEpoch | ChangeEpoch

  // ---------------------------------------------------------------------
  // The epoch
  // ---------------------------------------------------------------------

  lemma {:induction false} HasGreatest(s: set<int>) returns (m: int)
    requires s != {}
    ensures m in s && forall x :: x in s ==> x <= m
  {
    m := Pick(s);
    if s != {m} {
      var rest := HasGreatest(s - {m});
      assert forall x :: x in s ==> x == m || x in s - {m};
      m := if rest > m then rest else m;
    }
  }

  lemma Pick<T>(s: set<T>) returns (x: T)
    requires s != {}
    ensures x in s
  {
    x :| x in s;
  }

  ghost predicate IsEpoch(history: map<int, Blob>, e: int) {
    if history == map[] then e == 0
    else e in history && forall x :: x in history ==> x <= e
  }

  /** The newest row of the chain, 0 with none. */
  ghost function Epoch(history: map<int, Blob>): (e: int)
    ensures IsEpoch(history, e)
  {
    if history == map[] then 0 else GreatestKey(history)
  }

  ghost function GreatestKey(history: map<int, Blob>): (m: int)
    requires history != map[]
    ensures m in history && forall x :: x in history ==> x <= m
  {
    assert exists m :: m in history && forall x :: x in history ==> x <= m by {
      assert history.Keys != {};
      var m := HasGreatest(history.Keys);
    }
    var m :| m in history && forall x :: x in history ==> x <= m;
    m
  }

  // ---------------------------------------------------------------------
  // Rotating
  // ---------------------------------------------------------------------

  function Recipients(wraps: seq<RecipientWrap>): set<Recipient> {
    set w | w in wraps :: w.recipient
  }

  function Holding(sp: Space, epoch: int): set<Recipient> {
    set r | r in sp.wraps && sp.wraps[r].epoch == epoch
  }

  function WrapRefused(w: RecipientWrap): Option<Failure> {
    if w.recipient == "" then Some(EmptyRecipient)
    else if w.wrapped == Empty then Some(EmptyWrapped)
    else None
  }

  function WrapsRefused(wraps: seq<RecipientWrap>): Option<Failure> {
    if wraps == [] then None
    else if WrapRefused(wraps[0]).Some? then WrapRefused(wraps[0])
    else WrapsRefused(wraps[1..])
  }

  function RevokesRefused(revoke: seq<Recipient>, rewrapping: set<Recipient>): Option<Failure> {
    if revoke == [] then None
    else if revoke[0] == "" then Some(EmptyRecipient)
    else if revoke[0] in rewrapping then Some(RevokesRewrapped)
    else RevokesRefused(revoke[1..], rewrapping)
  }

  /** What is wrong with a request whatever the space holds. */
  function Malformed(q: Request): Option<Failure> {
    if q.expected < 0 then Some(InvalidEpoch)
    else if q.sealedPrev == Empty then Some(EmptySealedPrev)
    else if q.wraps == [] then Some(NoWraps)
    else if WrapsRefused(q.wraps).Some? then WrapsRefused(q.wraps)
    else RevokesRefused(q.revoke, Recipients(q.wraps))
  }

  /** Why a rotation is refused. `barred` may not be wrapped for at this moment;
    * `preserve` may not be dropped. */
  ghost function RotateRefused(
      sp: Space, q: Request, barred: set<Recipient>, preserve: set<Recipient>): Option<Failure>
  {
    if Malformed(q).Some? then Malformed(q)
    else
      var current := Epoch(sp.history);
      var rewrapping := Recipients(q.wraps);
      if current != q.expected then Some(EpochConflict)
      else if rewrapping * barred != {} then Some(WrapNotAllowed)
      else if Holding(sp, current) != rewrapping + Elements(q.revoke) then Some(RecipientsChanged)
      else if !(Holding(sp, current) * preserve <= rewrapping) then Some(DropsPreserved)
      else None
  }

  function Upserted(held: map<Recipient, Copy>, wraps: seq<RecipientWrap>, epoch: int): map<Recipient, Copy> {
    if wraps == [] then held
    else
      var n := |wraps| - 1;
      Upserted(held, wraps[..n], epoch)[wraps[n].recipient := Copy(wraps[n].wrapped, epoch)]
  }

  function NotStale(held: map<Recipient, Copy>, epoch: int): map<Recipient, Copy> {
    map r | r in held && held[r].epoch >= epoch :: held[r]
  }

  function AfterRotate(sp: Space, q: Request): Space {
    var next := q.expected + 1;
    Space(sp.history[next := q.sealedPrev], NotStale(Upserted(sp.wraps, q.wraps, next), next), sp.changes)
  }

  // ---------------------------------------------------------------------
  // When each refusal is given
  // ---------------------------------------------------------------------

  ghost predicate Headed(q: Request) {
    q.expected >= 0 && q.sealedPrev != Empty && q.wraps != []
  }

  ghost predicate WrapsFine(wraps: seq<RecipientWrap>) {
    forall w :: w in wraps ==> w.recipient != "" && w.wrapped != Empty
  }

  /** A wrap, and so a copy, is asked for `r`. */
  ghost predicate WrapsFor(wraps: seq<RecipientWrap>, r: Recipient) {
    exists w :: w in wraps && w.recipient == r
  }

  ghost predicate RevokesFine(revoke: seq<Recipient>, wraps: seq<RecipientWrap>) {
    forall r :: r in revoke ==> r != "" && !WrapsFor(wraps, r)
  }

  /** The first wrap with something wrong with it. */
  ghost predicate FirstBadWrap(q: Request, i: nat) {
    && i < |q.wraps| && WrapsFine(q.wraps[..i])
    && (q.wraps[i].recipient == "" || q.wraps[i].wrapped == Empty)
  }

  /** The first revocation with something wrong with it. */
  ghost predicate FirstBadRevoke(q: Request, i: nat) {
    && i < |q.revoke| && RevokesFine(q.revoke[..i], q.wraps)
    && (q.revoke[i] == "" || WrapsFor(q.wraps, q.revoke[i]))
  }

  lemma {:induction false} WrapsRefusedAt(wraps: seq<RecipientWrap>) returns (i: nat)
    ensures WrapsRefused(wraps) == None <==> WrapsFine(wraps)
    ensures WrapsRefused(wraps) != None ==>
              && i < |wraps| && WrapsFine(wraps[..i])
              && (wraps[i].recipient == "" || wraps[i].wrapped == Empty)
              && WrapsRefused(wraps) == if wraps[i].recipient == "" then Some(EmptyRecipient) else Some(EmptyWrapped)
  {
    i := 0;
    if wraps != [] && WrapRefused(wraps[0]) == None {
      var k := WrapsRefusedAt(wraps[1..]);
      assert wraps == [wraps[0]] + wraps[1..];
      if k < |wraps[1..]| {
        i := k + 1;
        assert wraps[..i] == [wraps[0]] + wraps[1..][..k];
      }
    }
  }

  lemma {:induction false} RevokesRefusedAt(revoke: seq<Recipient>, wraps: seq<RecipientWrap>) returns (i: nat)
    ensures RevokesRefused(revoke, Recipients(wraps)) == None <==> RevokesFine(revoke, wraps)
    ensures RevokesRefused(revoke, Recipients(wraps)) != None ==>
              && i < |revoke| && RevokesFine(revoke[..i], wraps)
              && (revoke[i] == "" || WrapsFor(wraps, revoke[i]))
              && RevokesRefused(revoke, Recipients(wraps))
                 == if revoke[i] == "" then Some(EmptyRecipient) else Some(RevokesRewrapped)
  {
    i := 0;
    assert forall r :: r in Recipients(wraps) <==> WrapsFor(wraps, r);
    hide WrapsFor, Recipients;
    assert revoke != [] ==> revoke[0] in revoke;
    if revoke != [] && revoke[0] != "" && revoke[0] !in Recipients(wraps) {
      var k := RevokesRefusedAt(revoke[1..], wraps);
      assert revoke == [revoke[0]] + revoke[1..];
      if k < |revoke[1..]| {
        i := k + 1;
        assert revoke[i] in revoke;
        assert revoke[..i] == [revoke[0]] + revoke[1..][..k];
      }
    }
  }

  lemma NoEarlierBad(q: Request, i: nat, k: nat)
    requires i < k
    ensures FirstBadWrap(q, k) ==> !FirstBadWrap(q, i)
    ensures FirstBadRevoke(q, k) ==> !FirstBadRevoke(q, i)
  {
    assert k <= |q.wraps| ==> q.wraps[..k][i] == q.wraps[i];
    assert k <= |q.revoke| ==> q.revoke[..k][i] == q.revoke[i];
  }

  lemma FirstBadIsOne(q: Request, i: nat)
    ensures FirstBadWrap(q, i) ==> !WrapsFine(q.wraps) && forall k: nat :: FirstBadWrap(q, k) ==> k == i
    ensures FirstBadRevoke(q, i) ==>
              !RevokesFine(q.revoke, q.wraps) && forall k: nat :: FirstBadRevoke(q, k) ==> k == i
  {
    assert i < |q.wraps| ==> q.wraps[i] in q.wraps;
    assert i < |q.revoke| ==> q.revoke[i] in q.revoke;
    forall k: nat | k != i
      ensures !(FirstBadWrap(q, i) && FirstBadWrap(q, k)) && !(FirstBadRevoke(q, i) && FirstBadRevoke(q, k))
    {
      NoEarlierBad(q, if i < k then i else k, if i < k then k else i);
    }
  }

  /** The refusals that look at the request alone, each given for the first thing
    * that is wrong. */
  lemma MalformedIff(q: Request)
    ensures Malformed(q) == Some(InvalidEpoch) <==> q.expected < 0
    ensures Malformed(q) == Some(EmptySealedPrev) <==> q.expected >= 0 && q.sealedPrev == Empty
    ensures Malformed(q) == Some(NoWraps) <==> q.expected >= 0 && q.sealedPrev != Empty && q.wraps == []
    ensures Malformed(q) == Some(EmptyWrapped) <==>
            Headed(q) && exists i: nat :: FirstBadWrap(q, i) && q.wraps[i].recipient != ""
    ensures Malformed(q) == Some(RevokesRewrapped) <==>
            Headed(q) && WrapsFine(q.wraps) && exists i: nat :: FirstBadRevoke(q, i) && q.revoke[i] != ""
    ensures Malformed(q) == Some(EmptyRecipient) <==>
            && Headed(q)
            && ((exists i: nat :: FirstBadWrap(q, i) && q.wraps[i].recipient == "")
                || (WrapsFine(q.wraps) && exists i: nat :: FirstBadRevoke(q, i) && q.revoke[i] == ""))
    ensures Malformed(q) in {None, Some(InvalidEpoch), Some(EmptySealedPrev), Some(NoWraps),
                             Some(EmptyRecipient), Some(EmptyWrapped), Some(RevokesRewrapped)}
    ensures Malformed(q) == None <==> Headed(q) && WrapsFine(q.wraps) && RevokesFine(q.revoke, q.wraps)
  {
    hide Recipients;
    var i := WrapsRefusedAt(q.wraps);
    var k := RevokesRefusedAt(q.revoke, q.wraps);
    if WrapsRefused(q.wraps) != None {
      assert FirstBadWrap(q, i);
      FirstBadIsOne(q, i);
    } else if exists j: nat :: FirstBadWrap(q, j) {
      var j: nat :| FirstBadWrap(q, j);
      FirstBadIsOne(q, j);
    }
    if RevokesRefused(q.revoke, Recipients(q.wraps)) != None {
      assert FirstBadRevoke(q, k);
      FirstBadIsOne(q, k);
    } else if exists j: nat :: FirstBadRevoke(q, j) {
      var j: nat :| FirstBadRevoke(q, j);
      FirstBadIsOne(q, j);
    }
    hide WrapsRefused, RevokesRefused, FirstBadWrap, FirstBadRevoke;
  }

  /** `r` holds a copy of the key of that epoch. */
  ghost predicate Holds(sp: Space, r: Recipient, epoch: int) {
    r in sp.wraps && sp.wraps[r].epoch == epoch
  }

  /** The refusals that look at the space, in the order they are tried: the epoch has
    * moved; a wrap is for one barred; the recipients that hold the current key are
    * not exactly those wrapped for and those revoked; one of them that is to be
    * preserved is not wrapped for. */
  lemma RotateRefusedIff(sp: Space, q: Request, barred: set<Recipient>, preserve: set<Recipient>)
    ensures var why := RotateRefused(sp, q, barred, preserve);
            var fine := Malformed(q) == None;
            var stands := fine && IsEpoch(sp.history, q.expected);
            var allowed := stands && forall r :: r in barred ==> !WrapsFor(q.wraps, r);
            var same := allowed && forall r :: Holds(sp, r, q.expected) <==> WrapsFor(q.wraps, r) || r in q.revoke;
            && (!fine ==> why == Malformed(q))
            && (why == Some(EpochConflict) <==> fine && !stands)
            && (why == Some(WrapNotAllowed) <==> stands && !allowed)
            && (why == Some(RecipientsChanged) <==> allowed && !same)
            && (why == Some(DropsPreserved) <==> same && exists r :: r in preserve && r in q.revoke)
            && (why == None <==> same && forall r :: r in preserve ==> r !in q.revoke)
  {
    EpochIsOne(sp.history, q.expected);
    MalformedIff(q);
    if Malformed(q) == None {
      BarredIff(q, barred);
      HoldersIff(sp, q);
      PreservedIff(sp, q, preserve);
    }
    hide Malformed, Epoch, IsEpoch, WrapsFor, Holds, Holding, Recipients, Elements, RevokesFine, WrapsFine;
  }

  lemma BarredIff(q: Request, barred: set<Recipient>)
    ensures Recipients(q.wraps) * barred == {} <==> forall r :: r in barred ==> !WrapsFor(q.wraps, r)
  {
    assert forall r :: r in Recipients(q.wraps) * barred <==> r in barred && WrapsFor(q.wraps, r);
  }

  lemma HoldersIff(sp: Space, q: Request)
    ensures Holding(sp, q.expected) == Recipients(q.wraps) + Elements(q.revoke)
        <==> forall r :: Holds(sp, r, q.expected) <==> WrapsFor(q.wraps, r) || r in q.revoke
  {
    assert forall r :: r in Holding(sp, q.expected) <==> Holds(sp, r, q.expected);
    assert forall r :: r in Recipients(q.wraps) + Elements(q.revoke) <==> WrapsFor(q.wraps, r) || r in q.revoke;
  }

  lemma PreservedIff(sp: Space, q: Request, preserve: set<Recipient>)
    requires RevokesFine(q.revoke, q.wraps)
    ensures Holding(sp, q.expected) == Recipients(q.wraps) + Elements(q.revoke) ==>
              ((forall r :: r in preserve ==> r !in q.revoke) <==>
                 Holding(sp, q.expected) * preserve <= Recipients(q.wraps))
  {
    assert forall r :: r in Recipients(q.wraps) + Elements(q.revoke) <==> r in Recipients(q.wraps) || r in q.revoke;
    assert forall r :: r in q.revoke ==> r !in Recipients(q.wraps);
  }

  lemma EpochIsOne(history: map<int, Blob>, e: int)
    ensures IsEpoch(history, e) <==> e == Epoch(history)
  {
  }

  // ---------------------------------------------------------------------
  // The other writes
  // ---------------------------------------------------------------------

  ghost function PutWrapRefused(
      sp: Space, r: Recipient, wrapped: Blob, epoch: int, barred: set<Recipient>): Option<Failure>
  {
    if r == "" then Some(EmptyRecipient)
    else if wrapped == Empty then Some(EmptyWrapped)
    else if epoch < Epoch(sp.history) then Some(StaleEpoch)
    else if epoch > Epoch(sp.history) then Some(FutureEpoch)
    else if r in barred then Some(WrapNotAllowed)
    else None
  }

  function AfterPutWrap(sp: Space, r: Recipient, wrapped: Blob, epoch: int): Space {
    sp.(wraps := sp.wraps[r := Copy(wrapped, epoch)])
  }

  function AfterDelete(sp: Space, r: Recipient): Space {
    sp.(wraps := sp.wraps - {r})
  }

  /** A change already held is accepted again whatever epoch it names. */
  ghost function PutChangeRefused(sp: Space, change: Blob, epoch: int): Option<Failure> {
    if epoch < 0 then Some(InvalidEpoch)
    else if change in sp.changes then None
    else if epoch != Epoch(sp.history) then Some(ChangeEpoch)
    else None
  }

  function AfterPutChange(sp: Space, change: Blob): Space {
    if change in sp.changes then sp else sp.(changes := sp.changes + [change])
  }

  // ---------------------------------------------------------------------
  // Reading
  // ---------------------------------------------------------------------

  function OpenPrevious(next: Key, row: Blob): Option<Key> {
    if row.LinkOf? && row.next == next then Some(row.prev) else None
  }

  /** The keys from `current`, at `epoch`, back to epoch 0, newest first. */
  function UnrollRows(current: Key, epoch: nat, rows: map<int, Blob>): Option<seq<Key>>
    decreases epoch
  {
    if epoch == 0 then Some([current])
    else if epoch !in rows then None
    else
      match OpenPrevious(current, rows[epoch])
      case None => None
      case Some(prev) =>
        match UnrollRows(prev, epoch - 1, rows)
        case None => None
        case Some(keys) => Some([current] + keys)
  }

  /** The row of the `i`th newest epoch seals the key before the `i`th newest. */
  ghost predicate Links(rows: map<int, Blob>, epoch: nat, keys: seq<Key>, i: nat)
    requires i < epoch && |keys| == epoch + 1
  {
    epoch - i in rows && rows[epoch - i] == LinkOf(keys[i], keys[i + 1])
  }

  /** The keys are found exactly when the rows hold each before the next. */
  lemma {:induction false} UnrollIff(current: Key, epoch: nat, rows: map<int, Blob>, keys: seq<Key>)
    ensures UnrollRows(current, epoch, rows) == Some(keys) <==>
            && |keys| == epoch + 1 && keys[0] == current
            && forall i: nat :: i < epoch ==> Links(rows, epoch, keys, i)
    decreases epoch
  {
    if epoch > 0 && |keys| == epoch + 1 {
      var rest, past := keys[1..], epoch - 1;
      UnrollIff(keys[1], past, rows, rest);
      assert keys == [keys[0]] + rest;
      if forall i: nat :: i < epoch ==> Links(rows, epoch, keys, i) {
        assert Links(rows, epoch, keys, 0);
        forall i: nat | i < past ensures Links(rows, past, rest, i) {
          assert Links(rows, epoch, keys, i + 1);
        }
      }
      UnrollHeads(current, epoch, rows);
      if UnrollRows(current, epoch, rows) == Some(keys) {
        forall i: nat | i < epoch ensures Links(rows, epoch, keys, i) {
          assert i > 0 ==> Links(rows, past, rest, i - 1);
        }
      }
    } else {
      UnrollHeads(current, epoch, rows);
      assert |keys| == 1 ==> keys == [keys[0]];
    }
  }

  lemma {:induction false} UnrollHeads(current: Key, epoch: nat, rows: map<int, Blob>)
    ensures UnrollRows(current, epoch, rows).Some? ==>
              && |UnrollRows(current, epoch, rows).value| == epoch + 1
              && UnrollRows(current, epoch, rows).value[0] == current
    ensures UnrollRows(current, epoch, rows).Some? && epoch > 0 ==>
              var prev := UnrollRows(current, epoch, rows).value[1];
              && epoch in rows && rows[epoch] == LinkOf(current, prev)
              && UnrollRows(prev, epoch - 1, rows) == Some(UnrollRows(current, epoch, rows).value[1..])
    decreases epoch
  {
    if epoch > 0 && epoch in rows && OpenPrevious(current, rows[epoch]).Some? {
      UnrollHeads(rows[epoch].prev, epoch - 1, rows);
    }
  }

  /** Tries each key, newest first. */
  function Decrypt(keys: seq<Key>, change: Blob): Option<string> {
    if keys == [] then None
    else if change.Sealed? && change.key == keys[0] then Some(change.text)
    else Decrypt(keys[1..], change)
  }

  lemma {:induction false} DecryptIff(keys: seq<Key>, change: Blob)
    ensures Decrypt(keys, change) == if change.Sealed? && change.key in keys then Some(change.text) else None
  {
    if keys != [] {
      DecryptIff(keys[1..], change);
      assert keys == [keys[0]] + keys[1..];
    }
  }

  // ---------------------------------------------------------------------
  // What a rotation that lands does
  // ---------------------------------------------------------------------

  lemma {:induction false} UpsertedAt(held: map<Recipient, Copy>, wraps: seq<RecipientWrap>, epoch: int)
    ensures Upserted(held, wraps, epoch).Keys == held.Keys + Recipients(wraps)
    ensures forall r :: r in held && r !in Recipients(wraps) ==> Upserted(held, wraps, epoch)[r] == held[r]
    ensures forall r :: r in Recipients(wraps) ==>
              && Upserted(held, wraps, epoch)[r].epoch == epoch
              && RecipientWrap(r, Upserted(held, wraps, epoch)[r].blob) in wraps
  {
    if wraps != [] {
      var n := |wraps| - 1;
      UpsertedAt(held, wraps[..n], epoch);
      assert wraps == wraps[..n] + [wraps[n]];
      assert Recipients(wraps) == Recipients(wraps[..n]) + {wraps[n].recipient};
    }
  }

  lemma {:induction false} UpsertedLast(held: map<Recipient, Copy>, wraps: seq<RecipientWrap>, epoch: int, i: nat)
    requires i < |wraps| && forall k :: i < k < |wraps| ==> wraps[k].recipient != wraps[i].recipient
    ensures wraps[i].recipient in Upserted(held, wraps, epoch)
    ensures Upserted(held, wraps, epoch)[wraps[i].recipient] == Copy(wraps[i].wrapped, epoch)
  {
    if i < |wraps| - 1 {
      UpsertedLast(held, wraps[..|wraps| - 1], epoch, i);
    }
  }

  /** Every copy seals the current epoch. */
  ghost predicate CopiesCurrent(sp: Space) {
    forall r :: r in sp.wraps ==> sp.wraps[r].epoch == Epoch(sp.history)
  }

  lemma EpochOfNext(history: map<int, Blob>, row: Blob)
    requires Epoch(history) >= 0
    ensures Epoch(history[Epoch(history) + 1 := row]) == Epoch(history) + 1
  {
    var next := history[Epoch(history) + 1 := row];
    assert Epoch(history) + 1 in next;
  }

  lemma RevokesDisjoint(revoke: seq<Recipient>, rewrapping: set<Recipient>)
    requires RevokesRefused(revoke, rewrapping) == None
    ensures Elements(revoke) !! rewrapping && "" !in revoke
  {
    if revoke != [] {
      RevokesDisjoint(revoke[1..], rewrapping);
      assert revoke == [revoke[0]] + revoke[1..];
    }
  }

  /** A rotation that lands raises the epoch by one and leaves a copy of the new
    * key with exactly the recipients that held the current key, less the revoked.
    * Nobody it must preserve is dropped, and nobody new is added. */
  lemma RotationIsExact(sp: Space, q: Request, barred: set<Recipient>, preserve: set<Recipient>)
    requires CopiesCurrent(sp) && RotateRefused(sp, q, barred, preserve) == None
    ensures var after := AfterRotate(sp, q);
            && Epoch(after.history) == Epoch(sp.history) + 1 == q.expected + 1
            && after.wraps.Keys == sp.wraps.Keys - Elements(q.revoke) == Recipients(q.wraps)
            && CopiesCurrent(after)
            && after.changes == sp.changes
            && after.history == sp.history[q.expected + 1 := q.sealedPrev]
    ensures Elements(q.revoke) <= sp.wraps.Keys && Elements(q.revoke) !! preserve && Recipients(q.wraps) !! barred
    ensures forall r :: r in AfterRotate(sp, q).wraps ==> RecipientWrap(r, AfterRotate(sp, q).wraps[r].blob) in q.wraps
  {
    UpsertedAt(sp.wraps, q.wraps, q.expected + 1);
    EpochOfNext(sp.history, q.sealedPrev);
    RevokesDisjoint(q.revoke, Recipients(q.wraps));
    assert Holding(sp, Epoch(sp.history)) == sp.wraps.Keys;
    forall r | r in Recipients(q.wraps) ensures r !in barred {
      assert r in barred ==> r in Recipients(q.wraps) * barred;
    }
    assert AfterRotate(sp, q).wraps.Keys == Recipients(q.wraps);
  }

  /** Of two wraps for one recipient the later is the copy it is left with. */
  lemma LaterWrapIsKept(sp: Space, q: Request, i: nat)
    requires i < |q.wraps| && forall k :: i < k < |q.wraps| ==> q.wraps[k].recipient != q.wraps[i].recipient
    ensures q.wraps[i].recipient in AfterRotate(sp, q).wraps
    ensures AfterRotate(sp, q).wraps[q.wraps[i].recipient] == Copy(q.wraps[i].wrapped, q.expected + 1)
  {
    UpsertedLast(sp.wraps, q.wraps, q.expected + 1, i);
  }
}
