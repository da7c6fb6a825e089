/** Walking a collection page by page while others change it, and the server side
  * of it. */
module Paging {
  import opened Options
  import opened StringOrder

  const DEFAULT_PAGE_SIZE := 200
  const MAX_PAGE := 200

  datatype Page<T> = Page(items: seq<T>, nextCursor: string)

  /** `StillGoing` is a walk stopped from outside before it ended. */
  datatype Listing<T> = Items(items: seq<T>) | GetFailed | RepeatedCursor | StillGoing(items: seq<T>)

  function Min(a: int, b: int): int {
    if a < b then a else b
  }

  // ---------------------------------------------------------------------
  // What the walk needs of a server
  // ---------------------------------------------------------------------

  /** A collection as a walk meets it: its rows when each request is served, their
    * order, the rows past each cursor, and the cursors it handed out. */
  datatype View<!T> = View(
    rows: nat -> seq<T>, before: (T, T) -> bool, past: (string, T) -> bool, known: string -> bool)

  ghost predicate Strict<T(!new)>(before: (T, T) -> bool) {
    && (forall t :: !before(t, t))
    && forall t, u, v :: before(t, u) && before(u, v) ==> before(t, v)
  }

  ghost predicate Ascending<T>(xs: seq<T>, before: (T, T) -> bool) {
    forall i, j :: 0 <= i < j < |xs| ==> before(xs[i], xs[j])
  }

  /** A page is the first of the rows past the cursor, and names as the next one the
    * position of its own last row. */
  ghost predicate HonestPage<T(!new)>(page: Page<T>, v: View<T>, rows: seq<T>, want: int, cursor: string) {
    var items := page.items;
    && |items| <= want && Ascending(items, v.before)
    && (forall t :: t in items ==> t in rows && v.past(cursor, t))
    && (forall t :: t in rows && v.past(cursor, t) && t !in items ==>
          page.nextCursor != "" && forall u :: u in items ==> v.before(u, t))
    && (page.nextCursor != "" ==>
          && items != [] && v.known(page.nextCursor)
          && forall t :: v.past(page.nextCursor, t) <==> v.before(items[|items| - 1], t))
  }

  ghost predicate Honest<T(!new)>(get: (nat, int, string) -> Option<Page<T>>, v: View<T>) {
    && Strict(v.before) && v.known("") && (forall t :: v.past("", t))
    && forall n: nat, want: int, c: string :: want > 0 && v.known(c) ==>
         get(n, want, c).Some? && HonestPage(get(n, want, c).value, v, v.rows(n), want, c)
  }

  ghost predicate Stays<T>(v: View<T>, t: T, requests: int) {
    forall m: nat :: m < requests ==> t in v.rows(m)
  }

  /** A listing of a collection that may have changed between the requests: in order,
    * so no row twice, nothing that was not there when asked for, and no row missing
    * that was there throughout, unless it lies past a full listing. */
  ghost predicate Lists<T(!new)>(items: seq<T>, v: View<T>, limit: int, requests: int) {
    && Ascending(items, v.before)
    && (forall t :: t in items ==> exists m: nat :: m < requests && t in v.rows(m))
    && (limit > 0 ==> |items| <= limit)
    && forall t :: Stays(v, t, requests) && t !in items ==>
         limit == |items| > 0 && v.before(items[|items| - 1], t)
  }

  /** After `n` requests: what is out, and that all the rest is past the cursor. */
  ghost predicate Walked<T(!new)>(out: seq<T>, v: View<T>, cursor: string, n: nat) {
    && v.known(cursor) && n <= |out| && Ascending(out, v.before)
    && (forall t :: t in out ==> exists m: nat :: m < n && t in v.rows(m))
    && (forall t :: v.past(cursor, t) <==> out == [] || v.before(out[|out| - 1], t))
    && forall t :: Stays(v, t, n) && t !in out ==> v.past(cursor, t)
  }

  lemma AscendingJoin<T(!new)>(a: seq<T>, b: seq<T>, before: (T, T) -> bool)
    requires Strict(before) && Ascending(a, before) && Ascending(b, before)
    requires a != [] ==> forall t :: t in b ==> before(a[|a| - 1], t)
    ensures Ascending(a + b, before)
  {
    forall i, j | 0 <= i < j < |a + b| ensures before((a + b)[i], (a + b)[j]) {
      if i < |a| <= j {
        assert b[j - |a|] in b;
      }
    }
  }

  /** One page more. */
  lemma PageWalks<T(!new)>(out: seq<T>, v: View<T>, cursor: string, n: nat, page: Page<T>, want: int)
    requires Strict(v.before) && Walked(out, v, cursor, n) && HonestPage(page, v, v.rows(n), want, cursor)
    ensures Ascending(out + page.items, v.before)
    ensures forall t :: t in out + page.items ==> exists m: nat :: m < n + 1 && t in v.rows(m)
    ensures page.nextCursor == "" ==> forall t :: Stays(v, t, n + 1) ==> t in out + page.items
    ensures page.nextCursor != "" ==> Walked(out + page.items, v, page.nextCursor, n + 1)
  {
    AscendingJoin(out, page.items, v.before);
    forall t | t in out + page.items ensures exists m: nat :: m < n + 1 && t in v.rows(m) {
      if t in out {
        var m: nat :| m < n && t in v.rows(m);
        assert m < n + 1;
      } else {
        assert n < n + 1 && t in v.rows(n);
      }
    }
    forall t | Stays(v, t, n + 1) && t !in out + page.items
      ensures page.nextCursor != "" && v.past(page.nextCursor, t)
    {
      assert Stays(v, t, n) && t in v.rows(n);
    }
  }

  /** The walk may stop with this page: the server has no more, or it fills the limit. */
  lemma PageEnds<T(!new)>(out: seq<T>, v: View<T>, cursor: string, n: nat, page: Page<T>, want: int, limit: int)
    requires Strict(v.before) && Walked(out, v, cursor, n) && HonestPage(page, v, v.rows(n), want, cursor)
    requires limit > 0 ==> |out| + want <= limit
    requires page.nextCursor == "" || limit > 0
    requires page.nextCursor == "" || |out + page.items| >= limit
    ensures Lists(out + page.items, v, limit, n + 1)
  {
    PageWalks(out, v, cursor, n, page, want);
    if page.nextCursor != "" {
      assert |out + page.items| == limit;
    }
  }

  /** Whatever is past the cursor is past every cursor before it. */
  ghost predicate Behind<T(!new)>(seen: set<string>, v: View<T>, cursor: string) {
    forall c, t :: c in seen && v.past(cursor, t) ==> v.past(c, t)
  }

  /** So the next cursor is a new one. */
  lemma CursorMovesOn<T(!new)>(
      out: seq<T>, v: View<T>, cursor: string, n: nat, page: Page<T>, want: int, seen: set<string>)
    requires Strict(v.before) && Walked(out, v, cursor, n) && HonestPage(page, v, v.rows(n), want, cursor)
    requires Behind(seen, v, cursor) && page.nextCursor != ""
    ensures page.nextCursor !in seen && Behind(seen + {page.nextCursor}, v, page.nextCursor)
  {
    var last := page.items[|page.items| - 1];
    assert last in page.items;
    assert v.past(cursor, last) && !v.past(page.nextCursor, last);
    forall c, t | c in seen && v.past(page.nextCursor, t) ensures v.past(c, t) {
      assert v.before(last, t);
      assert out == [] || v.before(out[|out| - 1], last);
      assert v.past(cursor, t);
    }
  }

  lemma ListsWithin<T(!new)>(items: seq<T>, v: View<T>, limit: int, requests: int)
    requires Lists(items, v, limit, requests) && limit > 0
    ensures |items| <= limit
  {
  }

  lemma NoneBehind<T(!new)>(v: View<T>)
    ensures Behind({}, v, "")
  {
  }

  lemma HonestAnswer<T(!new)>(get: (nat, int, string) -> Option<Page<T>>, v: View<T>, n: nat, want: int, c: string)
    requires Honest(get, v) && want > 0 && v.known(c)
    ensures get(n, want, c).Some? && HonestPage(get(n, want, c).value, v, v.rows(n), want, c)
    ensures Strict(v.before)
  {
  }

  lemma WalkBegins<T(!new)>(get: (nat, int, string) -> Option<Page<T>>, v: View<T>)
    requires Honest(get, v)
    ensures Walked([], v, "", 0)
  {
  }

  // ---------------------------------------------------------------------
  // The walk
  // ---------------------------------------------------------------------

  function AllItems<T>(pages: seq<Page<T>>): seq<T> {
    if pages == [] then [] else AllItems(pages[..|pages| - 1]) + pages[|pages| - 1].items
  }

  function CursorAt<T>(pages: seq<Page<T>>, n: nat): string
    requires n <= |pages|
  {
    if n == 0 then "" else pages[n - 1].nextCursor
  }

  /** What a request asks for with `got` items in hand: a page, or what is left. */
  function Asked(limit: int, size: int, got: nat): int {
    if limit > 0 then Min(size, limit - got) else size
  }

  /** The pages answer the requests in turn, each with the cursor of the page before. */
  ghost predicate Answered<T(!new)>(
      get: (nat, int, string) -> Option<Page<T>>, limit: int, size: int, pages: seq<Page<T>>)
  {
    forall n :: 0 <= n < |pages| ==>
      get(n, Asked(limit, size, |AllItems(pages[..n])|), CursorAt(pages, n)) == Some(pages[n])
  }

  predicate Full<T>(pages: seq<Page<T>>, limit: int) {
    limit > 0 && |AllItems(pages)| >= limit
  }

  /** Page `n` leads to another: it names a cursor, a new one, and there is room. */
  ghost predicate LeadsOn<T>(pages: seq<Page<T>>, limit: int, n: nat)
    requires n < |pages|
  {
    && pages[n].nextCursor != "" && !Full(pages[..n + 1], limit)
    && forall j :: 0 <= j < n ==> pages[j].nextCursor != pages[n].nextCursor
  }

  ghost predicate AllLeadOn<T>(pages: seq<Page<T>>, limit: int) {
    forall n :: 0 <= n < |pages| ==> LeadsOn(pages, limit, n)
  }

  /** Why the walk ends, each exactly when. */
  ghost predicate EndsAs<T(!new)>(
      get: (nat, int, string) -> Option<Page<T>>, limit: int, size: int, requests: nat, pages: seq<Page<T>>,
      r: Listing<T>)
  {
    var m, items := |pages|, AllItems(pages);
    && (r == GetFailed <==>
          AllLeadOn(pages, limit) && m < requests && get(m, Asked(limit, size, |items|), CursorAt(pages, m)) == None)
    && (r.StillGoing? <==> AllLeadOn(pages, limit) && m == requests)
    && (r.StillGoing? ==> r.items == items)
    && (r.Items? <==> m > 0 && (pages[m - 1].nextCursor == "" || Full(pages, limit)))
    && (r.Items? ==> r.items == if pages[m - 1].nextCursor == "" then items else items[..limit])
    && (r == RepeatedCursor <==>
          && m > 0 && pages[m - 1].nextCursor != "" && !Full(pages, limit)
          && exists j :: 0 <= j < m - 1 && pages[j].nextCursor == pages[m - 1].nextCursor)
  }

  /** What the two come to: each request is for a page or for what is left of the
    * limit, and the walk ends listed iff there is no next page or the limit has been
    * reached, and then holds no more than it. */
  lemma RequestsSaid<T(!new)>(
      get: (nat, int, string) -> Option<Page<T>>, limit: int, size: int, pages: seq<Page<T>>, n: nat)
    requires Answered(get, limit, size, pages) && n < |pages|
    ensures var left := limit - |AllItems(pages[..n])|;
            get(n, if limit > 0 && left < size then left else size, if n == 0 then "" else pages[n - 1].nextCursor)
              == Some(pages[n])
  {
    hide AllItems;
  }

  lemma EndSaid<T(!new)>(
      get: (nat, int, string) -> Option<Page<T>>, limit: int, size: int, requests: nat, pages: seq<Page<T>>,
      r: Listing<T>)
    requires EndsAs(get, limit, size, requests, pages, r)
    ensures var last := if pages == [] then "" else pages[|pages| - 1].nextCursor;
            && (r.Items? <==> pages != [] && (last == "" || (limit > 0 && |AllItems(pages)| >= limit)))
            && (r.Items? && last != "" ==> r.items == AllItems(pages)[..limit])
            && (r.Items? && last == "" ==> r.items == AllItems(pages))
    ensures r == GetFailed ==>
              var (m, left) := (|pages|, limit - |AllItems(pages)|);
              get(m, if limit > 0 && left < size then left else size, if m == 0 then "" else pages[m - 1].nextCursor)
                == None
  {
    hide AllItems, AllLeadOn;
  }

  lemma OneMoreItems<T>(pages: seq<Page<T>>, page: Page<T>)
    ensures AllItems(pages + [page]) == AllItems(pages) + page.items
  {
    assert (pages + [page])[..|pages|] == pages;
  }

  lemma StillLeadsOn<T>(pages: seq<Page<T>>, page: Page<T>, limit: int, n: nat)
    requires n < |pages|
    ensures LeadsOn(pages + [page], limit, n) <==> LeadsOn(pages, limit, n)
  {
    assert (pages + [page])[..n + 1] == pages[..n + 1];
  }

  lemma OneMoreAnswer<T(!new)>(
      get: (nat, int, string) -> Option<Page<T>>, limit: int, size: int, pages: seq<Page<T>>, page: Page<T>)
    requires Answered(get, limit, size, pages)
    requires get(|pages|, Asked(limit, size, |AllItems(pages)|), CursorAt(pages, |pages|)) == Some(page)
    ensures Answered(get, limit, size, pages + [page])
  {
    hide AllItems, Asked;
    var more := pages + [page];
    forall n | 0 <= n < |more|
      ensures get(n, Asked(limit, size, |AllItems(more[..n])|), CursorAt(more, n)) == Some(more[n])
    {
      assert more[..n] == pages[..n];
      if n == |pages| {
        assert pages[..n] == pages;
      }
    }
  }

  lemma OneMorePage<T(!new)>(
      get: (nat, int, string) -> Option<Page<T>>, limit: int, size: int, pages: seq<Page<T>>, page: Page<T>)
    requires Answered(get, limit, size, pages) && AllLeadOn(pages, limit)
    requires get(|pages|, Asked(limit, size, |AllItems(pages)|), CursorAt(pages, |pages|)) == Some(page)
    ensures Answered(get, limit, size, pages + [page])
    ensures AllItems(pages + [page]) == AllItems(pages) + page.items
    ensures forall n :: 0 <= n < |pages| ==> LeadsOn(pages + [page], limit, n)
  {
    hide Answered, LeadsOn, AllItems;
    OneMoreAnswer(get, limit, size, pages, page);
    OneMoreItems(pages, page);
    forall n: nat | n < |pages| ensures LeadsOn(pages + [page], limit, n) {
      StillLeadsOn(pages, page, limit, n);
    }
  }

  lemma LastStops<T>(pages: seq<Page<T>>, limit: int)
    requires pages != []
    requires var last := pages[|pages| - 1].nextCursor;
             last == "" || Full(pages, limit) || exists j :: 0 <= j < |pages| - 1 && pages[j].nextCursor == last
    ensures !AllLeadOn(pages, limit)
  {
    hide AllItems;
    var m := |pages|;
    assert pages[..m] == pages;
    assert !LeadsOn(pages, limit, m - 1);
  }

  /** The last page, and what it comes to. */
  lemma Ends<T(!new)>(
      get: (nat, int, string) -> Option<Page<T>>, limit: int, size: int, requests: nat, pages: seq<Page<T>>,
      r: Listing<T>)
    requires pages != [] && |pages| <= requests
    requires var (last, items) := (pages[|pages| - 1].nextCursor, AllItems(pages));
             if last == "" then r == Items(items)
             else if Full(pages, limit) then r == Items(items[..limit])
             else r == RepeatedCursor && exists j :: 0 <= j < |pages| - 1 && pages[j].nextCursor == last
    ensures EndsAs(get, limit, size, requests, pages, r)
  {
    hide AllItems, Asked, AllLeadOn, LeadsOn, Full, CursorAt;
    LastStops(pages, limit);
  }

  /** Every page led on, and the walk stops for want of an answer, or of requests. */
  lemma StopsShort<T(!new)>(
      get: (nat, int, string) -> Option<Page<T>>, limit: int, size: int, requests: nat, pages: seq<Page<T>>,
      r: Listing<T>)
    requires AllLeadOn(pages, limit) && |pages| <= requests
    requires if |pages| < requests
             then && r == GetFailed
                  && get(|pages|, Asked(limit, size, |AllItems(pages)|), CursorAt(pages, |pages|)) == None
             else r == StillGoing(AllItems(pages))
    ensures EndsAs(get, limit, size, requests, pages, r)
  {
    var m := |pages|;
    assert pages[..m] == pages;
    assert m > 0 ==> LeadsOn(pages, limit, m - 1);
  }

  /** Against any server the walk asks for one page after the other, each for what is
    * wanted of it, sends no cursor twice, and ends for the reasons `EndsAs` gives. An
    * honest server is never taken to repeat itself, whatever was added or removed
    * meanwhile, and the walk ends within a page for each item and one more. */
  method List<T(!new)>(
      get: (nat, int, string) -> Option<Page<T>>, limit: int, pageSize: int, requests: nat, ghost v: View<T>)
    returns (r: Listing<T>, sent: seq<string>, ghost pages: seq<Page<T>>)
    ensures var size := if pageSize <= 0 then 200 else pageSize;
            && Answered(get, limit, size, pages) && |pages| <= requests
            && (forall n :: 0 <= n < |pages| - 1 ==> LeadsOn(pages, limit, n))
            && EndsAs(get, limit, size, requests, pages, r)
    ensures |sent| <= |pages| && forall i :: 0 <= i < |sent| ==> sent[i] == pages[i].nextCursor
    ensures forall i, j :: 0 <= i < j < |sent| ==> sent[i] != sent[j]
    ensures "" !in sent && |sent| < requests + 1
    ensures Honest(get, v) ==> r.Items? || (r.StillGoing? && requests <= |r.items|)
    ensures Honest(get, v) && r.Items? ==> Lists(r.items, v, limit, |sent| + 1)
    ensures Honest(get, v) && r.StillGoing? ==>
              && Ascending(r.items, v.before)
              && forall t :: t in r.items ==> exists m: nat :: m < requests && t in v.rows(m)
  {
    var size := if pageSize <= 0 then DEFAULT_PAGE_SIZE else pageSize;
    var out: seq<T> := [];
    var cursor := "";
    var seen: set<string> := {};
    sent, pages := [], [];
    hide Honest, HonestPage, Lists, Strict, Ascending, Behind, Stays, Answered, AllItems, LeadsOn, EndsAs;
    ghost var honest := Honest(get, v);
    if honest {
      WalkBegins(get, v);
      NoneBehind(v);
    }
    NoPages(get, limit, size);
    for n := 0 to requests
      invariant |pages| == n && out == AllItems(pages) && cursor == CursorAt(pages, n)
      invariant Answered(get, limit, size, pages) && AllLeadOn(pages, limit)
      invariant seen == Elements(sent) + if cursor == "" then {} else {cursor}
      invariant cursor != "" ==> cursor !in sent
      invariant |sent| == if n == 0 then 0 else n - 1
      invariant forall i :: 0 <= i < |sent| ==> sent[i] == pages[i].nextCursor
      invariant "" !in seen
      invariant n > 0 <==> cursor != ""
      invariant forall i, j :: 0 <= i < j < |sent| ==> sent[i] != sent[j]
      invariant limit > 0 ==> |out| < limit
      invariant honest ==> Walked(out, v, cursor, n)
      invariant honest ==> Behind(seen, v, cursor)
    {
      // The remaining room is positive here: a full listing has returned below.
      var want := if limit > 0 && limit - |out| < size then limit - |out| else size;
      if cursor != "" {
        assert (sent + [cursor])[|sent|] == cursor;
        assert Elements(sent + [cursor]) == Elements(sent) + {cursor};
        sent := sent + [cursor];
      }
      if honest {
        HonestAnswer(get, v, n, want, cursor);
      }
      var answer := get(n, want, cursor);
      if answer == None {
        r := GetFailed;
        StopsShort(get, limit, size, requests, pages, r);
        return;
      }
      var page := answer.value;
      if honest {
        PageWalks(out, v, cursor, n, page, want);
        if page.nextCursor == "" || (limit > 0 && |out + page.items| >= limit) {
          PageEnds(out, v, cursor, n, page, want, limit);
        } else {
          CursorMovesOn(out, v, cursor, n, page, want, seen);
        }
      }
      OneMorePage(get, limit, size, pages, page);
      ghost var was := pages;
      pages := pages + [page];
      out := out + page.items;
      if page.nextCursor == "" {
        r := Items(out);
        Ends(get, limit, size, requests, pages, r);
        return;
      }
      if limit > 0 && |out| >= limit {
        r := Items(out[..limit]);
        assert honest ==> out[..limit] == out by {
          if honest {
            ListsWithin(out, v, limit, n + 1);
          }
        }
        Ends(get, limit, size, requests, pages, r);
        return;
      }
      if page.nextCursor in seen {
        r := RepeatedCursor;
        SeenBefore(was, sent, page.nextCursor);
        Repeated(was, page);
        Ends(get, limit, size, requests, pages, r);
        return;
      }
      NotSeen(was, sent, page.nextCursor);
      LastLeadsOn(was, page, limit);
      seen := seen + {page.nextCursor};
      cursor := page.nextCursor;
    }
    r := StillGoing(out);
    StopsShort(get, limit, size, requests, pages, r);
  }

  lemma NoPages<T(!new)>(get: (nat, int, string) -> Option<Page<T>>, limit: int, size: int)
    ensures Answered(get, limit, size, []) && AllItems<T>([]) == []
  {
  }

  lemma LastLeadsOn<T>(pages: seq<Page<T>>, page: Page<T>, limit: int)
    requires page.nextCursor != "" && !Full(pages + [page], limit)
    requires forall j :: 0 <= j < |pages| ==> pages[j].nextCursor != page.nextCursor
    requires forall n :: 0 <= n < |pages| ==> LeadsOn(pages + [page], limit, n)
    ensures AllLeadOn(pages + [page], limit)
  {
    var more := pages + [page];
    assert more[..|more|] == more;
    assert LeadsOn(more, limit, |pages|);
  }

  /** The cursors seen are those of the pages so far. */
  lemma SeenBefore<T>(pages: seq<Page<T>>, sent: seq<string>, x: string)
    requires |sent| == |pages|
    requires forall i :: 0 <= i < |sent| ==> sent[i] == pages[i].nextCursor
    requires x in Elements(sent)
    ensures exists j :: 0 <= j < |pages| && pages[j].nextCursor == x
  {
    var i :| 0 <= i < |sent| && sent[i] == x;
  }

  lemma NotSeen<T>(pages: seq<Page<T>>, sent: seq<string>, x: string)
    requires |sent| == |pages| && forall i :: 0 <= i < |sent| ==> sent[i] == pages[i].nextCursor
    requires x !in Elements(sent)
    ensures forall j :: 0 <= j < |pages| ==> pages[j].nextCursor != x
  {
    forall j | 0 <= j < |pages| ensures pages[j].nextCursor != x {
      assert sent[j] in sent;
    }
  }

  lemma Repeated<T>(pages: seq<Page<T>>, page: Page<T>)
    requires exists j :: 0 <= j < |pages| && pages[j].nextCursor == page.nextCursor
    ensures var more := pages + [page];
            exists j :: 0 <= j < |more| - 1 && more[j].nextCursor == more[|more| - 1].nextCursor
  {
    var j :| 0 <= j < |pages| && pages[j].nextCursor == page.nextCursor;
    assert (pages + [page])[j] == pages[j];
  }

  // ---------------------------------------------------------------------
  // A collection nobody changes
  // ---------------------------------------------------------------------

  /** What a caller should be given: everything, or the first `limit`. */
  function Wanted<T>(xs: seq<T>, limit: int): seq<T> {
    if 0 < limit < |xs| then xs[..limit] else xs
  }

  /** An ascending selection that leaves out only what comes after it is a prefix. */
  lemma {:induction false} IsPrefix<T(!new)>(a: seq<T>, b: seq<T>, before: (T, T) -> bool)
    requires Strict(before) && Ascending(a, before) && Ascending(b, before)
    requires forall t :: t in a ==> t in b
    requires forall t :: t in b && t !in a ==> a == [] || before(a[|a| - 1], t)
    ensures a <= b
  {
    if a != [] {
      assert a[0] in a && a[0] in b;
      assert b[0] in b;
      var i :| 0 <= i < |b| && b[i] == a[0];
      assert a[0] == b[0];
      var x, y := a[1..], b[1..];
      forall t | t in x ensures t in y {
        assert t in a && before(a[0], t);
      }
      forall t | t in y && t !in x ensures x == [] || before(x[|x| - 1], t) {
        assert t in b && before(b[0], t);
      }
      IsPrefix(x, y, before);
    }
  }

  /** Then a listing is the whole collection, or the first of it. */
  lemma UnchangingIsWhole<T(!new)>(items: seq<T>, v: View<T>, xs: seq<T>, limit: int, requests: int)
    requires Strict(v.before) && Ascending(xs, v.before) && requests > 0
    requires (forall n: nat :: v.rows(n) == xs) && Lists(items, v, limit, requests)
    ensures items == Wanted(xs, limit)
  {
    forall t | t in xs && t !in items ensures limit == |items| > 0 && v.before(items[|items| - 1], t) {
      assert Stays(v, t, requests);
    }
    IsPrefix(items, xs, v.before);
    if |items| < |xs| {
      assert xs[|items|] !in items by {
        forall j | 0 <= j < |items| ensures items[j] != xs[|items|] {
          assert v.before(xs[j], xs[|items|]);
        }
      }
      assert xs[|items|] in xs;
    }
  }

  // ---------------------------------------------------------------------
  // The server's pages
  // ---------------------------------------------------------------------

  type Key = seq<string>

  /** A collection kept in the order of its rows' keys, of any number of columns, as
    * it is when each request is served, and its opaque cursors. */
  datatype Collection<!T> = Collection(
    rows: nat -> seq<T>, key: T -> Key, comes: (Key, Key) -> bool,
    encode: Key -> string, decode: string -> Option<Key>)
  {
    ghost predicate Lawful() {
      && Strict(comes)
      && (forall n: nat, i, j :: 0 <= i < j < |rows(n)| ==> comes(key(rows(n)[i]), key(rows(n)[j])))
      && forall n: nat, i :: 0 <= i < |rows(n)| ==>
           encode(key(rows(n)[i])) != "" && decode(encode(key(rows(n)[i]))) == Some(key(rows(n)[i]))
    }
  }

  /** How many rows lead up to a key, its own among them. */
  function FirstAfter<T>(rows: seq<T>, key: T -> Key, comes: (Key, Key) -> bool, k: Key): (i: nat)
    ensures i <= |rows|
    ensures forall j :: 0 <= j < i ==> !comes(k, key(rows[j]))
    ensures i < |rows| ==> comes(k, key(rows[i]))
  {
    if rows == [] || comes(k, key(rows[0])) then 0
    else 1 + FirstAfter(rows[1..], key, comes, k)
  }

  /** Trims the row fetched past the limit, which says whether there is more. */
  function NewPage<T>(c: Collection<T>, rows: seq<T>, limit: nat): Page<T>
    requires limit > 0
  {
    if |rows| > limit then Page(rows[..limit], c.encode(c.key(rows[limit - 1]))) else Page(rows, "")
  }

  function From<T>(c: Collection<T>, n: nat, cursor: string): (from: Option<nat>)
    ensures from.Some? ==> from.value <= |c.rows(n)|
  {
    if cursor == "" then Some(0)
    else
      match c.decode(cursor)
      case None => None
      case Some(k) => Some(FirstAfter(c.rows(n), c.key, c.comes, k))
  }

  /** One more row than asked for, from past the cursor; None is a refusal. */
  function Serve<T>(c: Collection<T>, n: nat, want: int, cursor: string): Option<Page<T>> {
    if want <= 0 || From(c, n, cursor) == None then None
    else
      var limit, from := Min(want, MAX_PAGE), From(c, n, cursor).value;
      Some(NewPage(c, c.rows(n)[from..Min(from + limit + 1, |c.rows(n)|)], limit))
  }

  ghost function Seen<T>(c: Collection<T>): View<T> {
    View(
      c.rows,
      (t, u) => c.comes(c.key(t), c.key(u)),
      (cursor, t) => cursor == "" || (c.decode(cursor).Some? && c.comes(c.decode(cursor).value, c.key(t))),
      cursor => cursor == "" || c.decode(cursor).Some?)
  }

  /** The pages this repository serves meet what the walk needs, whatever is added to
    * the collection or removed from it between them, the row a cursor came from
    * included. */
  lemma ServedPagesAreHonest<T(!new)>(c: Collection<T>)
    requires c.Lawful()
    ensures Honest((n: nat, want: int, cursor: string) => Serve(c, n, want, cursor), Seen(c))
  {
    forall n: nat, want: int, cursor: string | want > 0 && Seen(c).known(cursor)
      ensures Serve(c, n, want, cursor).Some?
      ensures HonestPage(Serve(c, n, want, cursor).value, Seen(c), c.rows(n), want, cursor)
    {
      ServedPageIsHonest(c, n, want, cursor);
    }
  }

  /** The rows from where a request resumes are the ones past its cursor. */
  lemma PastIffFrom<T(!new)>(c: Collection<T>, n: nat, cursor: string, i: nat)
    requires c.Lawful() && From(c, n, cursor).Some? && i < |c.rows(n)|
    ensures Seen(c).past(cursor, c.rows(n)[i]) <==> From(c, n, cursor).value <= i
  {
    if cursor != "" {
      var k, from := c.decode(cursor).value, From(c, n, cursor).value;
      if from < i {
        assert c.comes(k, c.key(c.rows(n)[from])) && c.comes(c.key(c.rows(n)[from]), c.key(c.rows(n)[i]));
      }
    }
  }

  /** The page served is the stretch of rows from there, its cursor the last one's. */
  lemma ServedStretch<T(!new)>(c: Collection<T>, n: nat, want: int, cursor: string) returns (to: nat)
    requires want > 0 && From(c, n, cursor).Some?
    ensures Serve(c, n, want, cursor).Some?
    ensures var page, from, all := Serve(c, n, want, cursor).value, From(c, n, cursor).value, c.rows(n);
            && from <= to <= |all| && page.items == all[from..to] && to - from <= want
            && to == Min(from + Min(want, 200), |all|)
            && (to < |all| ==> from < to && page.nextCursor == c.encode(c.key(all[to - 1])))
            && (to == |all| ==> page.nextCursor == "")
  {
    var limit, from, all := Min(want, MAX_PAGE), From(c, n, cursor).value, c.rows(n);
    to := Min(from + limit, |all|);
    var rows := all[from..Min(from + limit + 1, |all|)];
    if |rows| > limit {
      assert rows[..limit] == all[from..to] && rows[limit - 1] == all[to - 1];
    } else {
      assert rows == all[from..to];
    }
  }

  /** The stretch from the first row past the cursor holds the first of those past it. */
  lemma StretchIsFirst<T(!new)>(c: Collection<T>, n: nat, cursor: string, to: nat, t: T)
    requires c.Lawful() && From(c, n, cursor).Some? && From(c, n, cursor).value <= to <= |c.rows(n)|
    ensures var all, from, v := c.rows(n), From(c, n, cursor).value, Seen(c);
            && (t in all[from..to] ==> t in all && v.past(cursor, t))
            && (t in all && v.past(cursor, t) && t !in all[from..to] ==>
                  to < |all| && forall u :: u in all[from..to] ==> v.before(u, t))
  {
    hide FirstAfter, From;
    var all, from := c.rows(n), From(c, n, cursor).value;
    assert forall i :: from <= i < to ==> all[from..to][i - from] == all[i];
    if t in all[from..to] {
      var i :| from <= i < to && all[i] == t;
      PastIffFrom(c, n, cursor, i);
    } else if t in all && Seen(c).past(cursor, t) {
      var j :| 0 <= j < |all| && all[j] == t;
      PastIffFrom(c, n, cursor, j);
    }
  }

  lemma ServedPageIsHonest<T(!new)>(c: Collection<T>, n: nat, want: int, cursor: string)
    requires c.Lawful() && want > 0 && Seen(c).known(cursor)
    ensures Serve(c, n, want, cursor).Some?
    ensures HonestPage(Serve(c, n, want, cursor).value, Seen(c), c.rows(n), want, cursor)
  {
    hide FirstAfter, NewPage, Serve, Strict;
    var to := ServedStretch(c, n, want, cursor);
    var v, all, from, page := Seen(c), c.rows(n), From(c, n, cursor).value, Serve(c, n, want, cursor).value;
    forall t ensures t in page.items ==> t in all && v.past(cursor, t)
      ensures t in all && v.past(cursor, t) && t !in page.items ==>
                page.nextCursor != "" && forall u :: u in page.items ==> v.before(u, t)
    {
      StretchIsFirst(c, n, cursor, to, t);
    }
    assert page.nextCursor != "" ==> page.items[to - from - 1] == all[to - 1];
  }
}
