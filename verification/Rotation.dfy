/** A device's rotation of a space it has open: prepared against the recipients as
  * read, committed with one compare-and-swap. What may happen in between is
  * RotationRuns' business.
  */
module Rotation {
  import opened Options
  import opened StringOrder
  import opened SpaceKeys
  import RotationRuns
  import SpaceStore

  // ---------------------------------------------------------------------
  // Splitting the recipients
  // ---------------------------------------------------------------------

  datatype Partition =
    | Parts(remaining: seq<Recipient>, revoked: seq<Recipient>)
    | Unparsable
    | NothingToRevoke
    | NobodyLeft

  /** `at` gives the places of those that stay, in order, and misses none. */
  ghost predicate Stay(keys: seq<Recipient>, revoked: set<Recipient>, remaining: seq<Recipient>, at: seq<nat>) {
    && |remaining| == |at|
    && (forall i :: 0 <= i < |at| ==> at[i] < |keys| && remaining[i] == keys[at[i]])
    && (forall i, j :: 0 <= i < j < |at| ==> at[i] < at[j])
    && (forall k :: 0 <= k < |keys| ==> (k in at <==> keys[k] !in revoked))
  }

  lemma StayMore(
      keys: seq<Recipient>, revoked: set<Recipient>, remaining: seq<Recipient>, at: seq<nat>, i: nat)
    requires i < |keys| && Stay(keys[..i], revoked, remaining, at)
    ensures keys[i] in revoked ==> Stay(keys[..i + 1], revoked, remaining, at)
    ensures keys[i] !in revoked ==> Stay(keys[..i + 1], revoked, remaining + [keys[i]], at + [i])
  {
    assert forall k :: 0 <= k < i ==> keys[..i][k] == keys[k] == keys[..i + 1][k];
    assert i !in at;
    assert forall k :: k in at + [i] <==> k in at || k == i;
  }

  lemma NamedMore(rs: seq<Recipient>, r: Recipient)
    ensures Elements(rs + [r]) == Elements(rs) + {r}
  {
    assert (rs + [r])[|rs|] == r;
    forall x | x in Elements(rs) ensures x in rs + [r] {
    }
  }

  /** Those that stay, in the order they were listed, and those to revoke, sorted. One
    * that stays must parse, or there is nobody to wrap for. */
  method PartitionRecipients(keys: seq<Recipient>, revoke: seq<Recipient>, parses: Recipient -> bool)
    returns (p: Partition, ghost at: seq<nat>)
    ensures p.Parts? ==> Stay(keys, Elements(revoke), p.remaining, at)
    ensures p == Unparsable <==> exists r :: r in keys && r !in revoke && !parses(r)
    ensures p != Unparsable && !(Elements(revoke) <= Elements(keys)) ==> p == NothingToRevoke
    ensures p != Unparsable && Elements(revoke) <= Elements(keys) ==>
              if Elements(keys) == Elements(revoke) then p == NobodyLeft
              else p.Parts? && Elements(p.remaining) == Elements(keys) - Elements(revoke)
                   && StrictlySorted(p.revoked) && Elements(p.revoked) == Elements(revoke)
  {
    var revokeSet := Elements(revoke);
    var current: set<Recipient>, remaining: seq<Recipient> := {}, [];
    at := [];
    for i := 0 to |keys|
      invariant current == Elements(keys[..i])
      invariant Stay(keys[..i], revokeSet, remaining, at)
      invariant Elements(remaining) == current - revokeSet
      invariant forall r :: r in keys[..i] && r !in revoke ==> parses(r)
    {
      assert keys[..i + 1] == keys[..i] + [keys[i]];
      StayMore(keys, revokeSet, remaining, at, i);
      current := current + {keys[i]};
      if keys[i] !in revokeSet {
        if !parses(keys[i]) {
          assert keys[i] in keys && keys[i] !in revoke;
          return Unparsable, [];
        }
        NamedMore(remaining, keys[i]);
        remaining := remaining + [keys[i]];
        at := at + [i];
      }
    }
    assert keys[..|keys|] == keys;
    var revoked: seq<Recipient> := [];
    var pending := revokeSet;
    while pending != {}
      invariant pending <= revokeSet && revokeSet - pending <= current
      invariant Elements(revoked) == revokeSet - pending
      invariant forall i, j :: 0 <= i < j < |revoked| ==> revoked[i] != revoked[j]
      decreases pending
    {
      var r :| r in pending;
      pending := pending - {r};
      if r !in current {
        assert r in Elements(revoke);
        return NothingToRevoke, [];
      }
      assert r !in Elements(revoked);
      NamedMore(revoked, r);
      revoked := revoked + [r];
    }
    assert revokeSet - pending == revokeSet;
    if remaining == [] {
      assert Elements(remaining) == {};
      return NobodyLeft, [];
    }
    assert remaining[0] in Elements(remaining);
    revoked := Sort(revoked);
    return Parts(remaining, revoked), at;
  }

  // ---------------------------------------------------------------------
  // Preparing and committing
  // ---------------------------------------------------------------------

  method ListRecipients(c: SpaceStore.Store) returns (keys: seq<Recipient>)
    ensures Elements(keys) == c.wraps.Keys
  {
    keys := [];
    var pending := c.wraps.Keys;
    while pending != {}
      invariant pending <= c.wraps.Keys && Elements(keys) == c.wraps.Keys - pending
      decreases pending
    {
      var r :| r in pending;
      NamedMore(keys, r);
      keys := keys + [r];
      pending := pending - {r};
    }
  }

  function Given(r: Recipient, key: Key): RecipientWrap {
    RecipientWrap(r, WrapOf(key, r))
  }

  lemma GivenToAll(rs: seq<Recipient>, wraps: seq<RecipientWrap>, key: Key)
    requires |wraps| == |rs| && forall k :: 0 <= k < |rs| ==> wraps[k] == Given(rs[k], key)
    ensures Recipients(wraps) == Elements(rs)
    ensures forall w :: w in wraps ==> w.recipient in rs && w.wrapped == WrapOf(key, w.recipient)
    ensures forall r :: r in rs ==> RecipientWrap(r, WrapOf(key, r)) in wraps
  {
    forall r | r in rs ensures Given(r, key) in wraps && r in Recipients(wraps) {
      var k :| 0 <= k < |rs| && rs[k] == r;
      assert wraps[k] in wraps;
    }
  }

  /** The new key wrapped for all that remain, and the current key sealed under it. */
  method PrepareRekey(
      c: SpaceStore.Store, ring: seq<Key>, epoch: int, revoke: seq<Recipient>, parses: Recipient -> bool, key: Key)
    returns (q: Option<Request>)
    requires ring != []
    ensures q.Some? <==> Elements(revoke) < c.wraps.Keys && forall r :: r in c.wraps && r !in revoke ==> parses(r)
    ensures q.Some? ==> RotationRuns.Prepared(q.value, c.wraps.Keys, Elements(revoke), ring, epoch, key)
    ensures q.Some? ==>
              && q.value.expected == epoch && q.value.sealedPrev == LinkOf(key, ring[0])
              && Elements(q.value.revoke) == Elements(revoke) && StrictlySorted(q.value.revoke)
              && (forall w :: w in q.value.wraps ==>
                    w.recipient in c.wraps && w.recipient !in revoke && w.wrapped == WrapOf(key, w.recipient))
              && forall r :: r in c.wraps && r !in revoke ==> RecipientWrap(r, WrapOf(key, r)) in q.value.wraps
  {
    var keys := ListRecipients(c);
    var p, _ := PartitionRecipients(keys, revoke, parses);
    assert forall r :: r in keys <==> r in Elements(keys);
    if !p.Parts? {
      return None;
    }
    var wraps: seq<RecipientWrap> := [];
    for i := 0 to |p.remaining|
      invariant |wraps| == i && forall k :: 0 <= k < i ==> wraps[k] == Given(p.remaining[k], key)
    {
      wraps := wraps + [Given(p.remaining[i], key)];
    }
    GivenToAll(p.remaining, wraps, key);
    return Some(Request(epoch, LinkOf(key, ring[0]), wraps, p.revoked));
  }

  /** Lands only on the epoch and the recipients it was prepared for. */
  method Commit(c: SpaceStore.Store, q: Request, barred: set<Recipient>, preserve: set<Recipient>)
    returns (epoch: int, why: Option<Failure>)
    modifies c
    ensures why == RotateRefused(old(c.Now()), q, barred, preserve)
    ensures why.Some? ==> c.Now() == old(c.Now())
    ensures why == None && old(CopiesCurrent(c.Now())) ==>
              && epoch == Epoch(c.history) == old(Epoch(c.history)) + 1
              && c.history == old(c.history)[epoch := q.sealedPrev] && c.changes == old(c.changes)
              && c.wraps.Keys == old(c.wraps).Keys - Elements(q.revoke)
              && forall r :: r in c.wraps ==> c.wraps[r].epoch == epoch && RecipientWrap(r, c.wraps[r].blob) in q.wraps
  {
    ghost var before := c.Now();
    epoch, why := c.RotateKey(q, barred, preserve);
    if why == None && CopiesCurrent(before) {
      RotationIsExact(before, q, barred, preserve);
    }
  }
}
