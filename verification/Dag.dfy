/** Citation graphs: each id names the ids it cites. The catalog op-log and a
  * space's change log are both graphs of this kind. A cited id need not be
  * present, and nothing here assumes the graph is acyclic unless it says so.
  */
module Dag {

  type Graph = map<string, seq<string>>

  /** A non-empty walk from one of `start` to `target`; every id but the last
    * must be present, since only a present id has citations to follow. */
  ghost predicate IsPath(g: Graph, start: seq<string>, path: seq<string>, target: string) {
    && path != []
    && path[0] in start
    && path[|path| - 1] == target
    && forall i :: 0 <= i < |path| - 1 ==> path[i] in g && path[i + 1] in g[path[i]]
  }

  ghost predicate Reaches(g: Graph, start: seq<string>, target: string) {
    exists path :: IsPath(g, start, path, target)
  }

  /** No id reaches itself. */
  ghost predicate Acyclic(g: Graph) {
    forall h :: h in g ==> !Reaches(g, g[h], h)
  }

  /** The present ids that nothing present cites. */
  ghost function Frontier(g: Graph): set<string> {
    set h | h in g && !CitedIn(g, h)
  }

  ghost predicate CitedIn(g: Graph, id: string) {
    exists q :: q in g && id in g[q]
  }

  ghost predicate ClosedUnder(g: Graph, s: set<string>) {
    forall q, p :: q in s && q in g && p in g[q] ==> p in s
  }

  lemma ReachesDirect(g: Graph, start: seq<string>, p: string)
    requires p in start
    ensures Reaches(g, start, p)
  {
    assert IsPath(g, start, [p], p);
  }

  lemma ReachesThrough(g: Graph, start: seq<string>, p: string, target: string)
    requires p in start && p in g && Reaches(g, g[p], target)
    ensures Reaches(g, start, target)
  {
    var path :| IsPath(g, g[p], path, target);
    assert IsPath(g, start, [p] + path, target);
  }

  lemma ReachesOneMore(g: Graph, start: seq<string>, mid: string, target: string)
    requires Reaches(g, start, mid) && mid in g && target in g[mid]
    ensures Reaches(g, start, target)
  {
    var path :| IsPath(g, start, path, mid);
    assert IsPath(g, start, path + [target], target);
  }

  /** A set that holds the start and is closed under citation holds everything reached. */
  lemma ReachedStaysInside(g: Graph, start: seq<string>, s: set<string>, target: string)
    requires ClosedUnder(g, s)
    requires forall p :: p in start ==> p in s
    requires Reaches(g, start, target)
    ensures target in s
  {
    var path :| IsPath(g, start, path, target);
    PathStaysInside(g, start, s, path, |path| - 1, target);
  }

  lemma {:induction false} PathStaysInside(
      g: Graph, start: seq<string>, s: set<string>, path: seq<string>, i: nat, target: string)
    requires ClosedUnder(g, s)
    requires forall p :: p in start ==> p in s
    requires IsPath(g, start, path, target) && i < |path|
    ensures path[i] in s
  {
    if i > 0 {
      PathStaysInside(g, start, s, path, i - 1, target);
    }
  }

  /** Ids added to a graph without anything citing them change no walk that does
    * not start at them. */
  lemma UncitedAdditionsUnreached(g: Graph, g': Graph, start: seq<string>, target: string)
    requires forall h :: h in g ==> h in g' && g'[h] == g[h]
    requires forall q, p :: q in g' && p in g'[q] && p in g' ==> p in g
    requires forall p :: p in start && p in g' ==> p in g
    ensures Reaches(g', start, target) <==> Reaches(g, start, target)
  {
    if Reaches(g, start, target) {
      var path :| IsPath(g, start, path, target);
      assert IsPath(g', start, path, target);
    }
    if Reaches(g', start, target) {
      var path :| IsPath(g', start, path, target);
      forall i | 0 <= i < |path| - 1 ensures path[i] in g {
        assert path[i] in g' && (i == 0 || path[i] in g'[path[i - 1]]);
      }
      assert IsPath(g, start, path, target);
    }
  }

  /** What lies above an id: the present ids whose past contains it. */
  ghost function Above(g: Graph, id: string): set<string> {
    set q | q in g && Reaches(g, g[q], id)
  }

  /** In an acyclic graph every present id is on the frontier or in the past of
    * an id that is. */
  lemma {:induction false} FrontierCovers(g: Graph, id: string) returns (top: string)
    requires Acyclic(g) && id in g
    ensures top in Frontier(g)
    ensures top == id || Reaches(g, g[top], id)
    decreases |Above(g, id)|
  {
    if !CitedIn(g, id) {
      return id;
    }
    var q :| q in g && id in g[q];
    ReachesDirect(g, g[q], id);
    forall x | x in Above(g, q) ensures x in Above(g, id) {
      ReachesOneMore(g, g[x], q, id);
    }
    assert q in Above(g, id) && q !in Above(g, q);
    StrictSubsetIsSmaller(Above(g, q), Above(g, id));
    top := FrontierCovers(g, q);
    if top != q {
      ReachesOneMore(g, g[top], q, id);
    }
  }

  lemma StrictSubsetIsSmaller<T>(a: set<T>, b: set<T>)
    requires a < b
    ensures |a| < |b|
  {
    assert b == a + (b - a);
  }

  lemma NotReached(g: Graph, start: seq<string>, seen: set<string>, target: string)
    requires ClosedUnder(g, seen) && target !in seen
    requires forall p :: p in start ==> p in seen
    ensures !Reaches(g, start, target)
  {
    if Reaches(g, start, target) {
      ReachedStaysInside(g, start, seen, target);
    }
  }
}
