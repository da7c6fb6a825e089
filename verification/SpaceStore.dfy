/** The controller's store of one space. Every method is one transaction. */
module SpaceStore {
  import opened Options
  import opened StringOrder
  import opened SpaceKeys

  class Store {
    var history: map<int, Blob>
    var wraps: map<Recipient, Copy>
    var changes: seq<Blob>

    ghost function Now(): Space
      reads this
    {
      Space(history, wraps, changes)
    }

    constructor ()
      ensures Now() == Space(map[], map[], [])
    {
      history, wraps, changes := map[], map[], [];
    }

    /** Derived from the rows each time, never stored. */
    method KeyEpoch() returns (epoch: int)
      ensures epoch == Epoch(history)
      ensures history == map[] ==> epoch == 0
      ensures history != map[] ==> epoch in history && forall e :: e in history ==> e <= epoch
    {
      epoch := 0;
      var pending := history.Keys;
      while pending != {}
        invariant pending <= history.Keys
        invariant pending == history.Keys ==> epoch == 0
        invariant pending != history.Keys ==> epoch in history && epoch !in pending
        invariant forall e :: e in history && e !in pending && pending != history.Keys ==> e <= epoch
        decreases pending
      {
        var e := Any(pending);
        if pending == history.Keys || e > epoch {
          epoch := e;
        }
        pending := pending - {e};
      }
    }

    method Any(s: set<int>) returns (e: int)
      requires s != {}
      ensures e in s
    {
      ghost var x := Pick(s);
      e :| e in s;
    }

    /** Moves the space to its next epoch, or refuses and writes nothing. */
    method RotateKey(q: Request, barred: set<Recipient>, preserve: set<Recipient>)
      returns (epoch: int, why: Option<Failure>)
      modifies this
      ensures why == RotateRefused(old(Now()), q, barred, preserve)
      ensures Now() == if why == None then AfterRotate(old(Now()), q) else old(Now())
      ensures epoch == if why == None then q.expected + 1 else 0
    {
      epoch := 0;
      why := CheckRequest(q);
      if why.Some? {
        return;
      }
      var current := KeyEpoch();
      if current != q.expected {
        return 0, Some(EpochConflict);
      }
      var rewrapping := Recipients(q.wraps);
      if rewrapping * barred != {} {
        return 0, Some(WrapNotAllowed);
      }
      var same := CheckRecipients(current, rewrapping, Elements(q.revoke));
      if !same {
        return 0, Some(RecipientsChanged);
      }
      var dropped := DropsPreservedCopy(current, rewrapping, preserve);
      if dropped {
        return 0, Some(DropsPreserved);
      }
      epoch := q.expected + 1;
      history := history[epoch := q.sealedPrev];
      UpsertAll(q.wraps, epoch);
      DropStale(epoch);
    }

    method CheckRequest(q: Request) returns (why: Option<Failure>)
      ensures why == Malformed(q)
    {
      if q.expected < 0 {
        return Some(InvalidEpoch);
      }
      if q.sealedPrev == Empty {
        return Some(EmptySealedPrev);
      }
      if q.wraps == [] {
        return Some(NoWraps);
      }
      for i := 0 to |q.wraps|
        invariant WrapsRefused(q.wraps[i..]) == WrapsRefused(q.wraps)
      {
        assert q.wraps[i..][1..] == q.wraps[i + 1..];
        why := WrapRefused(q.wraps[i]);
        if why.Some? {
          return;
        }
      }
      var rewrapping := Recipients(q.wraps);
      for i := 0 to |q.revoke|
        invariant RevokesRefused(q.revoke[i..], rewrapping) == RevokesRefused(q.revoke, rewrapping)
      {
        assert q.revoke[i..][1..] == q.revoke[i + 1..];
        if q.revoke[i] == "" {
          return Some(EmptyRecipient);
        }
        if q.revoke[i] in rewrapping {
          return Some(RevokesRewrapped);
        }
      }
      return None;
    }

    /** Whether those holding a current copy are exactly the named ones: nobody
      * held is unnamed, and nobody named holds none. */
    method CheckRecipients(current: int, rewrapping: set<Recipient>, revoking: set<Recipient>) returns (same: bool)
      ensures same <==> Holding(Now(), current) == rewrapping + revoking
    {
      var holding, added: set<Recipient> := {}, {};
      var pending := wraps.Keys;
      while pending != {}
        invariant pending <= wraps.Keys
        invariant holding == Holding(Now(), current) - pending
        invariant added == holding - rewrapping - revoking
        decreases pending
      {
        var r :| r in pending;
        pending := pending - {r};
        if wraps[r].epoch == current {
          holding := holding + {r};
          if r !in rewrapping && r !in revoking {
            added := added + {r};
          }
        }
      }
      var gone := (rewrapping + revoking) - holding;
      same := added == {} && gone == {};
      assert holding == Holding(Now(), current);
      assert same ==> forall r :: r in rewrapping + revoking ==> r !in gone;
      assert same ==> forall r :: r in holding ==> r !in added;
    }

    method DropsPreservedCopy(current: int, rewrapping: set<Recipient>, preserve: set<Recipient>) returns (b: bool)
      ensures b <==> !(Holding(Now(), current) * preserve <= rewrapping)
    {
      var pending := wraps.Keys;
      while pending != {}
        invariant pending <= wraps.Keys
        invariant forall r :: r in Holding(Now(), current) && r in preserve && r !in pending ==> r in rewrapping
        decreases pending
      {
        var r :| r in pending;
        pending := pending - {r};
        if wraps[r].epoch == current && r in preserve && r !in rewrapping {
          assert r in Holding(Now(), current) * preserve;
          return true;
        }
      }
      return false;
    }

    method UpsertAll(rows: seq<RecipientWrap>, epoch: int)
      modifies this`wraps
      ensures wraps == Upserted(old(wraps), rows, epoch)
    {
      for i := 0 to |rows|
        invariant wraps == Upserted(old(wraps), rows[..i], epoch)
      {
        assert rows[..i + 1][..i] == rows[..i];
        wraps := wraps[rows[i].recipient := Copy(rows[i].wrapped, epoch)];
      }
      assert rows[..|rows|] == rows;
    }

    method DropStale(epoch: int)
      modifies this`wraps
      ensures wraps == NotStale(old(wraps), epoch)
    {
      var pending := wraps.Keys;
      ghost var before := wraps;
      while pending != {}
        invariant pending <= before.Keys
        invariant wraps == map r | r in before && (r in pending || before[r].epoch >= epoch) :: before[r]
        decreases pending
      {
        var r :| r in pending;
        pending := pending - {r};
        if wraps[r].epoch < epoch {
          wraps := wraps - {r};
        }
      }
    }

    /** One recipient's copy, of the current key only. */
    method PutWrappedKey(r: Recipient, wrapped: Blob, epoch: int, barred: set<Recipient>) returns (why: Option<Failure>)
      modifies this`wraps
      ensures why == PutWrapRefused(old(Now()), r, wrapped, epoch, barred)
      ensures Now() == if why == None then AfterPutWrap(old(Now()), r, wrapped, epoch) else old(Now())
      ensures why == Some(EmptyRecipient) <==> r == ""
      ensures why == Some(EmptyWrapped) <==> r != "" && wrapped == Empty
      ensures why == Some(StaleEpoch) <==> r != "" && wrapped != Empty && epoch < Epoch(history)
      ensures why == Some(FutureEpoch) <==> r != "" && wrapped != Empty && epoch > Epoch(history)
      ensures why == Some(WrapNotAllowed) <==>
              r != "" && wrapped != Empty && epoch == Epoch(history) && r in barred
      ensures why == None <==> r != "" && wrapped != Empty && epoch == Epoch(history) && r !in barred
      ensures wraps == if why == None then old(wraps)[r := Copy(wrapped, epoch)] else old(wraps)
    {
      if r == "" {
        return Some(EmptyRecipient);
      }
      if wrapped == Empty {
        return Some(EmptyWrapped);
      }
      var current := KeyEpoch();
      if epoch < current {
        return Some(StaleEpoch);
      }
      if epoch > current {
        return Some(FutureEpoch);
      }
      if r in barred {
        return Some(WrapNotAllowed);
      }
      wraps := wraps[r := Copy(wrapped, epoch)];
      return None;
    }

    method DeleteWrappedKey(r: Recipient)
      modifies this`wraps
      ensures Now() == AfterDelete(old(Now()), r)
      ensures wraps == old(wraps) - {r}
    {
      wraps := wraps - {r};
    }

    /** Stores a change only while `epoch` is the space's current one. */
    method PutChangeAtEpoch(change: Blob, epoch: int) returns (why: Option<Failure>)
      modifies this`changes
      ensures why == PutChangeRefused(old(Now()), change, epoch)
      ensures Now() == if why == None then AfterPutChange(old(Now()), change) else old(Now())
      ensures why == Some(InvalidEpoch) <==> epoch < 0
      ensures why == Some(ChangeEpoch) <==> epoch >= 0 && change !in old(changes) && epoch != Epoch(history)
      ensures why == None <==> epoch >= 0 && (change in old(changes) || epoch == Epoch(history))
      ensures changes == if why == None && change !in old(changes) then old(changes) + [change] else old(changes)
    {
      if epoch < 0 {
        return Some(InvalidEpoch);
      }
      if change in changes {
        return None;
      }
      var current := KeyEpoch();
      if current != epoch {
        return Some(ChangeEpoch);
      }
      changes := changes + [change];
      return None;
    }
  }
}
