/** The cutover's check that a staged key opens a space's newest content. */
module Rewrap {
  import opened Options
  import opened StringOrder
  import opened Dag

  datatype Change = Change(id: string, parents: seq<string>, ciphertext: string)
  datatype Snapshot = Snapshot(frontier: seq<string>, ciphertext: string)

  /** What the envelope inside a snapshot says of its public frontier. */
  datatype Envelope = Authenticated | Legacy | Mismatch

  datatype Verdict = NoContent | Verified | Stale | EnvelopeMismatch

  /** Each id's parents; of two changes with one id the later is kept. */
  function Parents(changes: seq<Change>): Graph {
    if changes == [] then map[]
    else
      var n := |changes| - 1;
      Parents(changes[..n])[changes[n].id := changes[n].parents]
  }

  /** An id some change names as a parent. */
  ghost predicate NamedAsParent(changes: seq<Change>, id: string) {
    exists i :: 0 <= i < |changes| && id in changes[i].parents
  }

  ghost predicate Trusted(snap: Option<Snapshot>, envelope: Snapshot -> Envelope) {
    snap.Some? && envelope(snap.value) == Authenticated
  }

  /** A change the key must open itself: one outside the past of a frontier that
    * is vouched for or, where none is, a head. */
  ghost predicate MustOpen(snap: Option<Snapshot>, changes: seq<Change>, envelope: Snapshot -> Envelope, id: string) {
    if Trusted(snap, envelope) then !Reaches(Parents(changes), snap.value.frontier, id)
    else !NamedAsParent(changes, id)
  }

  ghost predicate OpensNewest(
      snap: Option<Snapshot>, changes: seq<Change>, opens: string -> bool, envelope: Snapshot -> Envelope)
  {
    forall i :: 0 <= i < |changes| && MustOpen(snap, changes, envelope, changes[i].id) ==> opens(changes[i].ciphertext)
  }

  /** A change the key does not open though it is outside the past of a frontier that
    * is vouched for, or, where none is, no change names it as a parent. */
  ghost predicate LeftShut(
      snap: Option<Snapshot>, changes: seq<Change>, opens: string -> bool, envelope: Snapshot -> Envelope, i: nat)
    requires i < |changes|
  {
    && !opens(changes[i].ciphertext)
    && if snap.Some? && envelope(snap.value) == Authenticated
       then !Reaches(Parents(changes), snap.value.frontier, changes[i].id)
       else forall j :: 0 <= j < |changes| ==> changes[i].id !in changes[j].parents
  }

  /** The whole answer: nothing there, a snapshot the key does not open, one whose
    * envelope disagrees with it, or a verdict on the newest changes. */
  ghost function Expected(
      snap: Option<Snapshot>, changes: seq<Change>, opens: string -> bool, envelope: Snapshot -> Envelope): Verdict
  {
    if snap == None && changes == [] then NoContent
    else if snap.Some? && !opens(snap.value.ciphertext) then Stale
    else if snap.Some? && envelope(snap.value) == Mismatch then EnvelopeMismatch
    else if OpensNewest(snap, changes, opens, envelope) then Verified
    else Stale
  }

  method VerifyRemoteSpaceKey(
      snap: Option<Snapshot>, changes: seq<Change>, opens: string -> bool, envelope: Snapshot -> Envelope)
    returns (verdict: Verdict)
    ensures verdict == Expected(snap, changes, opens, envelope)
    ensures verdict == NoContent <==> snap == None && changes == []
    ensures verdict == EnvelopeMismatch <==>
              snap.Some? && opens(snap.value.ciphertext) && envelope(snap.value) == Mismatch
    ensures verdict == Stale <==>
              || (snap.Some? && !opens(snap.value.ciphertext))
              || ((snap.Some? ==> envelope(snap.value) != Mismatch) &&
                  exists i :: 0 <= i < |changes| && LeftShut(snap, changes, opens, envelope, i))
    ensures verdict == Verified ==>
              && (snap.Some? ==> opens(snap.value.ciphertext))
              && forall i :: 0 <= i < |changes| ==> !LeftShut(snap, changes, opens, envelope, i)
  {
    if snap == None && changes == [] {
      return NoContent;
    }
    var trust := false;
    if snap.Some? {
      if !opens(snap.value.ciphertext) {
        return Stale;
      }
      var e := envelope(snap.value);
      if e == Mismatch {
        return EnvelopeMismatch;
      }
      trust := e == Authenticated;
    }
    var skip;
    if trust {
      skip := Covered(Parents(changes), snap.value.frontier);
    } else {
      skip := AllNamed(changes);
    }
    for i := 0 to |changes|
      invariant forall j :: 0 <= j < i && MustOpen(snap, changes, envelope, changes[j].id) ==>
                  opens(changes[j].ciphertext)
    {
      if changes[i].id !in skip && !opens(changes[i].ciphertext) {
        assert MustOpen(snap, changes, envelope, changes[i].id);
        assert LeftShut(snap, changes, opens, envelope, i) by {
          ShutIff(snap, changes, opens, envelope, i);
        }
        return Stale;
      }
    }
    forall i: nat | i < |changes| ensures !LeftShut(snap, changes, opens, envelope, i) {
      ShutIff(snap, changes, opens, envelope, i);
    }
    return Verified;
  }

  lemma ShutIff(
      snap: Option<Snapshot>, changes: seq<Change>, opens: string -> bool, envelope: Snapshot -> Envelope, i: nat)
    requires i < |changes|
    ensures LeftShut(snap, changes, opens, envelope, i) <==>
              MustOpen(snap, changes, envelope, changes[i].id) && !opens(changes[i].ciphertext)
  {
  }

  function ParentsOf(g: Graph, id: string): seq<string> {
    if id in g then g[id] else []
  }

  /** What is covered or waiting is reached, holds the frontier, and holds the
    * parents of all that is covered. */
  ghost predicate Exploring(g: Graph, frontier: seq<string>, covered: set<string>, waiting: set<string>) {
    && (forall id :: id in covered + waiting ==> Reaches(g, frontier, id))
    && Elements(frontier) <= covered + waiting
    && forall q :: q in covered ==> Elements(ParentsOf(g, q)) <= covered + waiting
  }

  ghost function Universe(g: Graph, frontier: seq<string>): set<string> {
    (set q, p | q in g && p in g[q] :: p) + Elements(frontier)
  }

  lemma ReachedInUniverse(g: Graph, frontier: seq<string>, id: string)
    requires Reaches(g, frontier, id)
    ensures id in Universe(g, frontier)
  {
    ReachedStaysInside(g, frontier, Universe(g, frontier), id);
  }

  lemma CoverNext(g: Graph, frontier: seq<string>, covered: set<string>, waiting: set<string>, id: string)
    requires Exploring(g, frontier, covered, waiting + {id})
    ensures id in covered ==> Exploring(g, frontier, covered, waiting)
    ensures Exploring(g, frontier, covered + {id}, waiting + Elements(ParentsOf(g, id)))
    ensures id in Universe(g, frontier)
  {
    ReachedInUniverse(g, frontier, id);
    forall p | p in ParentsOf(g, id) ensures Reaches(g, frontier, p) {
      ReachesOneMore(g, frontier, id, p);
    }
    assert covered + (waiting + {id}) == covered + {id} + waiting;
  }

  lemma StartExploring(g: Graph, frontier: seq<string>)
    ensures Exploring(g, frontier, {}, Elements(frontier))
  {
    forall id | id in frontier ensures Reaches(g, frontier, id) {
      ReachesDirect(g, frontier, id);
    }
  }

  /** The worklist: everything on the frontier or in its past, on any graph. */
  method Covered(g: Graph, frontier: seq<string>) returns (covered: set<string>)
    ensures forall id :: id in covered <==> Reaches(g, frontier, id)
  {
    covered := {};
    var stack := frontier;
    StartExploring(g, frontier);
    while stack != []
      invariant Exploring(g, frontier, covered, Elements(stack))
      decreases Universe(g, frontier) - covered, |stack|
    {
      hide Reaches, Exploring, Universe;
      var n := |stack| - 1;
      var id, rest := stack[n], stack[..n];
      assert Elements(stack) == Elements(rest) + {id} by {
        assert stack == rest + [id];
      }
      CoverNext(g, frontier, covered, Elements(rest), id);
      stack := rest;
      if id !in covered {
        covered := covered + {id};
        stack := rest + ParentsOf(g, id);
        assert Elements(stack) == Elements(rest) + Elements(ParentsOf(g, id));
      }
    }
    forall q, p | q in covered && q in g && p in g[q] ensures p in covered {
      assert p in Elements(ParentsOf(g, q));
    }
    forall id | Reaches(g, frontier, id) ensures id in covered {
      ReachedStaysInside(g, frontier, covered, id);
    }
  }

  method AllNamed(changes: seq<Change>) returns (named: set<string>)
    ensures forall id :: id in named <==> NamedAsParent(changes, id)
  {
    named := {};
    for i := 0 to |changes|
      invariant forall id :: id in named <==> exists j :: 0 <= j < i && id in changes[j].parents
    {
      named := named + set p | p in changes[i].parents;
    }
  }

  // ---------------------------------------------------------------------
  // What a verified key has been checked against
  // ---------------------------------------------------------------------

  /** Ids are content addresses: one id, one change. */
  ghost predicate Addressed(changes: seq<Change>) {
    forall i, j :: 0 <= i < |changes| && 0 <= j < |changes| && changes[i].id == changes[j].id ==>
        changes[i] == changes[j]
  }

  lemma {:induction false} ChangeOf(changes: seq<Change>, id: string) returns (i: nat)
    requires id in Parents(changes)
    ensures i < |changes| && changes[i].id == id && Parents(changes)[id] == changes[i].parents
  {
    i := |changes| - 1;
    if changes[i].id != id {
      i := ChangeOf(changes[..i], id);
    }
  }

  lemma {:induction false} IdPresent(changes: seq<Change>, i: nat)
    requires i < |changes|
    ensures changes[i].id in Parents(changes)
  {
    if i < |changes| - 1 {
      IdPresent(changes[..|changes| - 1], i);
    }
  }

  /** The graph said outright: of the changes with one id, the last one's parents. */
  lemma {:induction false} ParentsIff(changes: seq<Change>, id: string)
    ensures id in Parents(changes) <==> exists i :: 0 <= i < |changes| && changes[i].id == id
    ensures forall i ::
              0 <= i < |changes| && changes[i].id == id && (forall j :: i < j < |changes| ==> changes[j].id != id) ==>
                id in Parents(changes) && Parents(changes)[id] == changes[i].parents
  {
    if changes != [] {
      var n := |changes| - 1;
      var front := changes[..n];
      ParentsIff(front, id);
      assert forall i :: 0 <= i < n ==> front[i] == changes[i];
      if i :| 0 <= i < n && front[i].id == id {
        assert changes[i].id == id;
      }
    }
  }

  lemma HeadsAreFrontier(changes: seq<Change>, id: string)
    requires Addressed(changes)
    ensures CitedIn(Parents(changes), id) <==> NamedAsParent(changes, id)
  {
    var g := Parents(changes);
    if CitedIn(g, id) {
      var q :| q in g && id in g[q];
      var i := ChangeOf(changes, q);
    }
    if NamedAsParent(changes, id) {
      var i :| 0 <= i < |changes| && id in changes[i].parents;
      IdPresent(changes, i);
      var j := ChangeOf(changes, changes[i].id);
      assert id in g[changes[i].id];
    }
  }

  /** A change, or one that has it in its past. */
  ghost predicate Above(changes: seq<Change>, top: nat, i: nat)
    requires top < |changes| && i < |changes|
  {
    top == i || Reaches(Parents(changes), changes[top].parents, changes[i].id)
  }

  ghost predicate Vouched(snap: Option<Snapshot>, changes: seq<Change>, envelope: Snapshot -> Envelope, id: string) {
    Trusted(snap, envelope) && Reaches(Parents(changes), snap.value.frontier, id)
  }

  /** The key opened the change or one above it, or a snapshot vouches for it. */
  ghost predicate Assured(
      snap: Option<Snapshot>, changes: seq<Change>, opens: string -> bool, envelope: Snapshot -> Envelope, i: nat)
    requires i < |changes|
  {
    || Vouched(snap, changes, envelope, changes[i].id)
    || exists top: nat :: top < |changes| && Above(changes, top, i) && opens(changes[top].ciphertext)
  }

  ghost predicate AllAssured(
      snap: Option<Snapshot>, changes: seq<Change>, opens: string -> bool, envelope: Snapshot -> Envelope)
  {
    forall i: nat :: i < |changes| ==> Assured(snap, changes, opens, envelope, i)
  }

  /** The ciphertexts a verified key must have opened. */
  ghost predicate MustBeOpened(
      snap: Option<Snapshot>, changes: seq<Change>, envelope: Snapshot -> Envelope, text: string)
  {
    || (snap.Some? && text == snap.value.ciphertext)
    || exists j: nat :: j < |changes| && MustOpen(snap, changes, envelope, changes[j].id) &&
        changes[j].ciphertext == text
  }

  /** What any verified key is sure to have opened, as a key that opens no more. */
  ghost function Least(snap: Option<Snapshot>, changes: seq<Change>, envelope: Snapshot -> Envelope): string -> bool {
    text => MustBeOpened(snap, changes, envelope, text)
  }

  /** Being verified assures every change, whichever the key, exactly when every
    * change is, or lies under, one that must be opened, or is vouched for. */
  lemma VerifiedAssuresIff(snap: Option<Snapshot>, changes: seq<Change>, envelope: Snapshot -> Envelope)
    requires snap.Some? ==> envelope(snap.value) != Mismatch
    ensures (forall opens :: Expected(snap, changes, opens, envelope) == Verified ==>
              AllAssured(snap, changes, opens, envelope))
            <==> AllAssured(snap, changes, Least(snap, changes, envelope), envelope)
  {
    var least := Least(snap, changes, envelope);
    if forall opens ::
        Expected(snap, changes, opens, envelope) == Verified ==> AllAssured(snap, changes, opens, envelope)
    {
      if changes != [] {
        assert Expected(snap, changes, least, envelope) == Verified;
      }
    }
    if AllAssured(snap, changes, least, envelope) {
      forall opens | Expected(snap, changes, opens, envelope) == Verified
        ensures AllAssured(snap, changes, opens, envelope)
      {
        forall i: nat | i < |changes| ensures Assured(snap, changes, opens, envelope, i) {
          OpensTheLeast(snap, changes, opens, envelope, i);
        }
      }
    }
  }

  lemma OpensTheLeast(
      snap: Option<Snapshot>, changes: seq<Change>, opens: string -> bool, envelope: Snapshot -> Envelope, i: nat)
    requires Expected(snap, changes, opens, envelope) == Verified && i < |changes|
    requires Assured(snap, changes, Least(snap, changes, envelope), envelope, i)
    ensures Assured(snap, changes, opens, envelope, i)
  {
    hide Vouched, Above, MustOpen;
    if !Vouched(snap, changes, envelope, changes[i].id) {
      var least := Least(snap, changes, envelope);
      var top: nat :| top < |changes| && Above(changes, top, i) && least(changes[top].ciphertext);
      assert MustBeOpened(snap, changes, envelope, changes[top].ciphertext);
      assert opens(changes[top].ciphertext);
    }
  }

  /** Sealing is random: no two changes have one ciphertext, nor a change and the
    * snapshot. */
  ghost predicate Distinct(snap: Option<Snapshot>, changes: seq<Change>) {
    && (forall i, j :: 0 <= i < |changes| && 0 <= j < |changes| && changes[i].ciphertext == changes[j].ciphertext ==>
          changes[i] == changes[j])
    && (snap.Some? ==> forall i :: 0 <= i < |changes| ==> changes[i].ciphertext != snap.value.ciphertext)
  }

  /** On the graph's frontier, or in the past of an id that is. */
  ghost predicate UnderFrontier(g: Graph, id: string) {
    exists h :: h in Frontier(g) && (h == id || Reaches(g, g[h], id))
  }

  /** With no frontier vouched for, being verified assures every change exactly when
    * every change is a head or in the past of one. */
  lemma VerifiedAssuresIffUnderFrontier(snap: Option<Snapshot>, changes: seq<Change>, envelope: Snapshot -> Envelope)
    requires snap.Some? ==> envelope(snap.value) == Legacy
    requires Addressed(changes) && Distinct(snap, changes)
    ensures (forall opens :: Expected(snap, changes, opens, envelope) == Verified ==>
              AllAssured(snap, changes, opens, envelope))
            <==> forall i :: 0 <= i < |changes| ==> UnderFrontier(Parents(changes), changes[i].id)
  {
    hide Assured, UnderFrontier, Distinct, Addressed, Least, Expected;
    VerifiedAssuresIff(snap, changes, envelope);
    forall i: nat | i < |changes|
      ensures Assured(snap, changes, Least(snap, changes, envelope), envelope, i) <==>
                UnderFrontier(Parents(changes), changes[i].id)
    {
      AssuredIffUnderFrontier(snap, changes, envelope, i);
    }
  }

  lemma AssuredIffUnderFrontier(snap: Option<Snapshot>, changes: seq<Change>, envelope: Snapshot -> Envelope, i: nat)
    requires (snap.Some? ==> envelope(snap.value) == Legacy) && i < |changes|
    requires Addressed(changes) && Distinct(snap, changes)
    ensures Assured(snap, changes, Least(snap, changes, envelope), envelope, i) <==>
              UnderFrontier(Parents(changes), changes[i].id)
  {
    var least := Least(snap, changes, envelope);
    if Assured(snap, changes, least, envelope, i) {
      var top: nat :| top < |changes| && Above(changes, top, i) && least(changes[top].ciphertext);
      OpenedIsHead(snap, changes, envelope, top);
      HeadAbove(changes, top, i);
    }
    if UnderFrontier(Parents(changes), changes[i].id) {
      FrontierOpened(snap, changes, envelope, i);
    }
  }

  lemma OpenedIsHead(snap: Option<Snapshot>, changes: seq<Change>, envelope: Snapshot -> Envelope, top: nat)
    requires (snap.Some? ==> envelope(snap.value) == Legacy) && top < |changes|
    requires Addressed(changes) && Distinct(snap, changes)
    requires MustBeOpened(snap, changes, envelope, changes[top].ciphertext)
    ensures changes[top].id in Frontier(Parents(changes))
  {
    var j: nat :| j < |changes| && MustOpen(snap, changes, envelope, changes[j].id) &&
        changes[j].ciphertext == changes[top].ciphertext;
    assert changes[j] == changes[top];
    IdPresent(changes, top);
    HeadsAreFrontier(changes, changes[top].id);
  }

  lemma HeadAbove(changes: seq<Change>, top: nat, i: nat)
    requires top < |changes| && i < |changes| && Addressed(changes) && Above(changes, top, i)
    requires changes[top].id in Frontier(Parents(changes))
    ensures UnderFrontier(Parents(changes), changes[i].id)
  {
    hide Reaches, Frontier;
    IdPresent(changes, top);
    var t := ChangeOf(changes, changes[top].id);
    assert changes[t] == changes[top];
  }

  lemma FrontierOpened(snap: Option<Snapshot>, changes: seq<Change>, envelope: Snapshot -> Envelope, i: nat)
    requires (snap.Some? ==> envelope(snap.value) == Legacy) && i < |changes| && Addressed(changes)
    requires UnderFrontier(Parents(changes), changes[i].id)
    ensures Assured(snap, changes, Least(snap, changes, envelope), envelope, i)
  {
    hide Reaches;
    var g := Parents(changes);
    var h :| h in Frontier(g) && (h == changes[i].id || Reaches(g, g[h], changes[i].id));
    var t := ChangeOf(changes, h);
    HeadsAreFrontier(changes, h);
    assert MustOpen(snap, changes, envelope, changes[t].id);
    assert MustBeOpened(snap, changes, envelope, changes[t].ciphertext);
    var least := Least(snap, changes, envelope);
    assert least(changes[t].ciphertext);
    if h == changes[i].id {
      assert changes[t] == changes[i];
      assert Above(changes, i, i) && least(changes[i].ciphertext);
    } else {
      assert Above(changes, t, i);
    }
  }

  /** An acyclic log meets it, and so does one whose cycles all hang below a head. */
  lemma VerifiedCoversEveryChange(
      snap: Option<Snapshot>, changes: seq<Change>, opens: string -> bool, envelope: Snapshot -> Envelope, i: nat)
    requires Expected(snap, changes, opens, envelope) == Verified && i < |changes|
    requires Addressed(changes) && (Acyclic(Parents(changes)) || UnderFrontier(Parents(changes), changes[i].id))
    ensures Assured(snap, changes, opens, envelope, i)
  {
    hide Reaches, Acyclic, OpensNewest;
    var g := Parents(changes);
    IdPresent(changes, i);
    if Acyclic(g) {
      var head := FrontierCovers(g, changes[i].id);
      assert UnderFrontier(g, changes[i].id);
    }
    if Trusted(snap, envelope) {
      assert MustOpen(snap, changes, envelope, changes[i].id) ==> Least(snap, changes, envelope)(changes[i].ciphertext);
      assert Above(changes, i, i);
    } else {
      FrontierOpened(snap, changes, envelope, i);
    }
    OpensTheLeast(snap, changes, opens, envelope, i);
  }

  /** Where no change is a head, as in a cycle of two, a key that opens nothing is
    * verified. */
  lemma CycleIsNeverChecked(a: Change, b: Change, envelope: Snapshot -> Envelope)
    requires a.parents == [b.id] && b.parents == [a.id]
    ensures Expected(None, [a, b], _ => false, envelope) == Verified
    ensures !AllAssured(None, [a, b], _ => false, envelope)
  {
    var log := [a, b];
    assert a.id in log[1].parents && b.id in log[0].parents;
    assert log[0] == a && log[1] == b;
    assert forall i :: 0 <= i < |log| ==> NamedAsParent(log, log[i].id);
    assert !Assured(None, log, _ => false, envelope, 0);
  }

  // ---------------------------------------------------------------------
  // The staged spaces against the reference set
  // ---------------------------------------------------------------------

  /** What the reference has and the stage has not, and the other way round. */
  method SameSpaceSet(reference: seq<string>, staged: seq<string>)
    returns (same: bool, missing: seq<string>, extra: seq<string>)
    ensures same <==> Elements(reference) == Elements(staged)
    ensures StrictlySorted(missing) && Elements(missing) == Elements(reference) - Elements(staged)
    ensures StrictlySorted(extra) && Elements(extra) == Elements(staged) - Elements(reference)
  {
    missing := Without(reference, staged);
    extra := Without(staged, reference);
    same := missing == [] && extra == [];
    EmptyIff(missing);
    EmptyIff(extra);
    if Elements(missing) == {} && Elements(extra) == {} {
      assert forall x :: x in Elements(reference) ==>
          x in Elements(staged) || x in Elements(reference) - Elements(staged);
      assert forall x :: x in Elements(staged) ==>
          x in Elements(reference) || x in Elements(staged) - Elements(reference);
    }
  }

  lemma EmptyIff(s: seq<string>)
    ensures Elements(s) == {} <==> s == []
  {
    if s != [] {
      assert s[0] in Elements(s);
    }
  }

  method Without(a: seq<string>, b: seq<string>) returns (r: seq<string>)
    ensures StrictlySorted(r) && Elements(r) == Elements(a) - Elements(b)
  {
    r := [];
    for i := 0 to |a|
      invariant forall x :: x in r <==> x in a[..i] && x !in b
      invariant forall j, k :: 0 <= j < k < |r| ==> r[j] != r[k]
    {
      assert a[..i + 1] == a[..i] + [a[i]];
      if a[i] !in b && a[i] !in r {
        r := r + [a[i]];
      }
    }
    assert a[..|a|] == a;
    r := Sort(r);
  }
}
