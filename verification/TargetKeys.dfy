/** The string keys targets and acquisitions are indexed by, and when a key can
  * be split back into what it was built from. */
module TargetKeys {
  import opened CatalogOp

  /** A content type that cannot be confused with the separator after it. */
  predicate Separable(t: Target) {
    UNIT_SEP !in t.contentType
  }

  /** The two halves either side of the first separator. */
  function SplitKey(key: string): Target {
    var i := FirstSep(key, 0);
    if i < |key| then Target(key[..i], key[i + 1..]) else Target(key, "")
  }

  function FirstSep(key: string, i: nat): (r: nat)
    requires i <= |key|
    ensures i <= r <= |key|
    ensures UNIT_SEP !in key[i..r]
    ensures r < |key| ==> key[r] == UNIT_SEP
    decreases |key| - i
  {
    if i == |key| || key[i] == UNIT_SEP then i else FirstSep(key, i + 1)
  }

  /** The split as the store's loop computes it. */
  method Split(key: string) returns (t: Target)
    ensures t == SplitKey(key)
    ensures '\U{1F}' in key ==> key == t.contentType + ['\U{1F}'] + t.workKey && '\U{1F}' !in t.contentType
    ensures '\U{1F}' !in key ==> t.contentType == key && t.workKey == ""
  {
    for i := 0 to |key|
      invariant FirstSep(key, 0) == FirstSep(key, i)
    {
      if key[i] == UNIT_SEP {
        return Target(key[..i], key[i + 1..]);
      }
    }
    return Target(key, "");
  }

  /** Splitting undoes `Key` exactly on the separable targets. */
  lemma SplitInvertsKey(t: Target)
    ensures SplitKey(t.Key()) == t <==> Separable(t)
  {
    var key := t.Key();
    var n := |t.contentType|;
    assert key[n] == UNIT_SEP;
    assert key[..n] == t.contentType && key[n + 1..] == t.workKey;
    if Separable(t) {
      assert key[0..n] == t.contentType;
      FirstSepAt(key, 0, n);
    } else {
      var j :| 0 <= j < n && t.contentType[j] == UNIT_SEP;
      FirstSepBefore(key, 0, j);
    }
  }

  lemma {:induction false} FirstSepAt(key: string, i: nat, n: nat)
    requires i <= n < |key| && key[n] == UNIT_SEP && UNIT_SEP !in key[i..n]
    ensures FirstSep(key, i) == n
    decreases n - i
  {
    if i < n {
      assert key[i] == key[i..n][0];
      assert key[i + 1..n] == key[i..n][1..];
      FirstSepAt(key, i + 1, n);
    }
  }

  lemma {:induction false} FirstSepBefore(key: string, i: nat, j: nat)
    requires i <= j < |key| && key[j] == UNIT_SEP
    ensures FirstSep(key, i) <= j
    decreases j - i
  {
    if key[i] != UNIT_SEP {
      FirstSepBefore(key, i + 1, j);
    }
  }

  /** Any key with a separator in it is the key of its own split. */
  lemma KeyOfSplit(key: string)
    requires UNIT_SEP in key
    ensures SplitKey(key).Key() == key
    ensures Separable(SplitKey(key))
  {
    var i := FirstSep(key, 0);
    var j :| 0 <= j < |key| && key[j] == UNIT_SEP;
    FirstSepBefore(key, 0, j);
    assert key[0..i] == key[..i];
    assert key == key[..i] + [key[i]] + key[i + 1..];
  }

  lemma KeyInjective(a: Target, b: Target)
    requires Separable(a) && Separable(b) && a.Key() == b.Key()
    ensures a == b
  {
    SplitInvertsKey(a);
    SplitInvertsKey(b);
  }

  /** Without that, two works share a key. */
  lemma KeyCollides()
    ensures exists a: Target, b: Target :: a != b && a.Key() == b.Key() && Separable(b)
  {
    var a := Target("m" + [UNIT_SEP], "k");
    var b := Target("m", [UNIT_SEP] + "k");
    assert a.Key() == ['m', UNIT_SEP, UNIT_SEP, 'k'] == b.Key();
  }

  /** The acquisition key is injective when no half of the target holds a
    * separator and the aspect does not either; the scope may hold anything. */
  lemma AcquireKeyInjective(a: Target, scopeA: string, aspectA: string, b: Target, scopeB: string, aspectB: string)
    requires UNIT_SEP !in a.contentType && UNIT_SEP !in a.workKey && UNIT_SEP !in aspectA
    requires UNIT_SEP !in b.contentType && UNIT_SEP !in b.workKey && UNIT_SEP !in aspectB
    requires AcquireKey(a, scopeA, aspectA) == AcquireKey(b, scopeB, aspectB)
    ensures a == b && scopeA == scopeB && aspectA == aspectB
  {
    var restA := a.workKey + [UNIT_SEP] + scopeA + [UNIT_SEP] + aspectA;
    var restB := b.workKey + [UNIT_SEP] + scopeB + [UNIT_SEP] + aspectB;
    assert AcquireKey(a, scopeA, aspectA) == Target(a.contentType, restA).Key();
    assert AcquireKey(b, scopeB, aspectB) == Target(b.contentType, restB).Key();
    KeyInjective(Target(a.contentType, restA), Target(b.contentType, restB));
    var tailA, tailB := scopeA + [UNIT_SEP] + aspectA, scopeB + [UNIT_SEP] + aspectB;
    assert restA == Target(a.workKey, tailA).Key() && restB == Target(b.workKey, tailB).Key();
    KeyInjective(Target(a.workKey, tailA), Target(b.workKey, tailB));
    LastSeparatorSplits(scopeA, aspectA, scopeB, aspectB);
  }

  lemma LastSeparatorSplits(x: string, a: string, y: string, b: string)
    requires UNIT_SEP !in a && UNIT_SEP !in b
    requires x + [UNIT_SEP] + a == y + [UNIT_SEP] + b
    ensures x == y && a == b
  {
    if |x| < |y| {
      EarlierSplitHoldsSeparator(x, a, y, b);
    } else if |y| < |x| {
      EarlierSplitHoldsSeparator(y, b, x, a);
    }
    var s, t := x + [UNIT_SEP] + a, y + [UNIT_SEP] + b;
    assert s[..|x|] == x && t[..|y|] == y && s[|x| + 1..] == a && t[|y| + 1..] == b;
  }

  lemma EarlierSplitHoldsSeparator(x: string, a: string, y: string, b: string)
    requires |x| < |y| && x + [UNIT_SEP] + a == y + [UNIT_SEP] + b
    ensures UNIT_SEP in a
  {
    var s := x + [UNIT_SEP] + a;
    assert s[|y|] == (y + [UNIT_SEP] + b)[|y|] == UNIT_SEP;
    assert s[|y|] == a[|y| - |x| - 1];
  }

  /** A separator in a work key lets two acquisitions share a key. */
  lemma AcquireKeyCollides()
    ensures exists a: Target, b: Target, scopeA, scopeB, aspect ::
              a != b && Separable(a) && Separable(b) && AcquireKey(a, scopeA, aspect) == AcquireKey(b, scopeB, aspect)
  {
    var a, b := Target("m", "k" + [UNIT_SEP] + "edition:e"), Target("m", "k");
    var scopeB := "edition:e" + [UNIT_SEP] + "work";
    assert a.workKey != b.workKey;
    assert AcquireKey(a, "work", "primary") == AcquireKey(b, scopeB, "primary");
  }
}
