/** Byte-order on strings, and what sorting a set of them means.
  *
  * The op-log sorts hashes so that "equal sets are equal slices": a strictly
  * sorted sequence is determined by its elements, which is what makes a
  * frontier or a merged log a function of the op set.
  */
module StringOrder {

  /** Lexicographic order, as the source's string comparison. */
  predicate Less(a: string, b: string) {
    b != [] && (a == [] || a[0] < b[0] || (a[0] == b[0] && Less(a[1..], b[1..])))
  }

  /** At the first difference the lesser character comes first, or the end does. */
  lemma {:induction false} LessIff(a: string, b: string)
    ensures Less(a, b) <==>
              exists n :: 0 <= n <= |a| && n < |b| && a[..n] == b[..n] && (n == |a| || a[n] < b[n])
  {
    if a != [] && b != [] && a[0] == b[0] {
      LessIff(a[1..], b[1..]);
      var x, y := a[1..], b[1..];
      if n :| 0 <= n <= |x| && n < |y| && x[..n] == y[..n] && (n == |x| || x[n] < y[n]) {
        assert a[..n + 1] == [a[0]] + x[..n] == b[..n + 1];
      }
      if n :| 0 <= n <= |a| && n < |b| && a[..n] == b[..n] && (n == |a| || a[n] < b[n]) {
        assert n > 0 && a[..n][1..] == x[..n - 1] && b[..n][1..] == y[..n - 1];
      }
    } else if b != [] && (a == [] || a[0] < b[0]) {
      assert a[..0] == b[..0];
    }
  }

  lemma {:induction false} LessIrreflexive(a: string)
    ensures !Less(a, a)
  {
    if a != [] {
      LessIrreflexive(a[1..]);
    }
  }

  lemma {:induction false} LessTransitive(a: string, b: string, c: string)
    requires Less(a, b) && Less(b, c)
    ensures Less(a, c)
  {
    if a != [] && a[0] == b[0] == c[0] {
      LessTransitive(a[1..], b[1..], c[1..]);
    }
  }

  lemma {:induction false} LessTotal(a: string, b: string)
    ensures Less(a, b) || a == b || Less(b, a)
  {
    if a != [] && b != [] && a[0] == b[0] {
      LessTotal(a[1..], b[1..]);
      if a[1..] == b[1..] {
        assert a == [a[0]] + a[1..] == [b[0]] + b[1..] == b;
      }
    }
  }

  ghost predicate StrictlySorted(s: seq<string>) {
    forall i, j :: 0 <= i < j < |s| ==> Less(s[i], s[j])
  }

  function Elements(s: seq<string>): set<string> {
    set x | x in s
  }

  /** A strictly sorted sequence is determined by its elements. */
  lemma {:induction false} SortedDetermined(a: seq<string>, b: seq<string>)
    requires StrictlySorted(a) && StrictlySorted(b)
    requires Elements(a) == Elements(b)
    ensures a == b
  {
    assert a != [] ==> a[0] in Elements(b);
    assert b != [] ==> b[0] in Elements(a);
    if a != [] && b != [] {
      FirstIsLeast(a, b);
      LessIrreflexive(a[0]);
      var x := a[0];
      forall y ensures y in Elements(a[1..]) <==> y in Elements(b[1..]) {
        TailElements(a, y);
        TailElements(b, y);
      }
      SortedDetermined(a[1..], b[1..]);
      assert a == [x] + a[1..];
      assert b == [x] + b[1..];
    }
  }

  lemma FirstIsLeast(a: seq<string>, b: seq<string>)
    requires StrictlySorted(a) && StrictlySorted(b) && a != [] && b != []
    requires Elements(a) == Elements(b)
    ensures a[0] == b[0]
  {
    assert a[0] in Elements(b) && b[0] in Elements(a);
    var i :| 0 <= i < |b| && b[i] == a[0];
    var j :| 0 <= j < |a| && a[j] == b[0];
    if i > 0 && j > 0 {
      LessTransitive(a[0], b[0], a[0]);
      LessIrreflexive(a[0]);
    }
  }

  lemma TailElements(s: seq<string>, y: string)
    requires StrictlySorted(s) && s != []
    ensures y in Elements(s[1..]) <==> y in Elements(s) && y != s[0]
  {
    LessIrreflexive(y);
    if y in s && y != s[0] {
      var i :| 0 <= i < |s| && s[i] == y;
      assert s[1..][i - 1] == y;
    }
  }

  /** Insertion sort of distinct strings: the contract the source takes from its
    * library sort. */
  method Sort(s: seq<string>) returns (r: seq<string>)
    requires forall i, j :: 0 <= i < j < |s| ==> s[i] != s[j]
    ensures StrictlySorted(r)
    ensures Elements(r) == Elements(s)
  {
    r := [];
    for n := 0 to |s|
      invariant StrictlySorted(r)
      invariant forall x :: x in r <==> x in s[..n]
    {
      var x := s[n];
      var k := 0;
      while k < |r| && Less(r[k], x)
        invariant 0 <= k <= |r|
        invariant forall i :: 0 <= i < k ==> Less(r[i], x)
      {
        k := k + 1;
      }
      InsertKeepsOrder(r, k, x);
      r := r[..k] + [x] + r[k..];
      assert s[..n + 1] == s[..n] + [x];
    }
    assert s[..|s|] == s;
  }

  lemma InsertKeepsOrder(r: seq<string>, k: nat, x: string)
    requires StrictlySorted(r) && k <= |r| && x !in r
    requires forall i :: 0 <= i < k ==> Less(r[i], x)
    requires k < |r| ==> !Less(r[k], x)
    ensures StrictlySorted(r[..k] + [x] + r[k..])
    ensures forall y :: y in r[..k] + [x] + r[k..] <==> y in r || y == x
  {
    if k < |r| {
      LessTotal(r[k], x);
      forall j | k < j < |r| ensures Less(x, r[j]) {
        LessTransitive(x, r[k], r[j]);
      }
    }
    assert r == r[..k] + r[k..];
  }
}
