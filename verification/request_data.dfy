/**
 * The per-request page buffer (`RequestPageStore.RequestData`): an ordered
 * list of page objects in which a page occurs at most once, the most
 * recently added page last.
 */
module RequestData {
  import opened Options
  import opened Seqs
  import opened Pages

  /** Position of the first occurrence of `p`. */
  function IndexOf(pages: seq<Page>, p: Page): (k: nat)
    requires p in pages
    ensures k < |pages| && pages[k] == p && p !in pages[..k]
  {
    if pages[0] == p then 0
    else
      var k := IndexOf(pages[1..], p);
      assert pages[..k + 1] == [pages[0]] + pages[1..][..k];
      k + 1
  }

  /**
   * `LinkedList.remove(Object)`: drops the first element equal to `p`, if any,
   * leaving the others in their order.
   */
  function RemoveFirst(pages: seq<Page>, p: Page): (r: seq<Page>)
    ensures |r| == if p in pages then |pages| - 1 else |pages|
    ensures forall q :: q in r ==> q in pages
  {
    if p in pages then
      var k := IndexOf(pages, p);
      assert forall q :: q in pages[..k] + pages[k + 1..] ==> q in pages[..k] || q in pages[k + 1..];
      pages[..k] + pages[k + 1..]
    else pages
  }

  /** Removing from a duplicate-free list keeps it duplicate-free and removes `p` entirely. */
  lemma RemoveFirstDistinct(pages: seq<Page>, p: Page)
    ensures Distinct(pages) ==> Distinct(RemoveFirst(pages, p))
    ensures Distinct(pages) ==> forall q :: q in RemoveFirst(pages, p) <==> q in pages && q != p
  {
  }

  /** Removing `p` from a list headed by another page keeps that head. */
  lemma RemoveFirstCons(x: Page, rest: seq<Page>, p: Page)
    ensures x == p ==> RemoveFirst([x] + rest, p) == rest
    ensures x != p ==> RemoveFirst([x] + rest, p) == [x] + RemoveFirst(rest, p)
  {
  }

  /**
   * `RequestData.add`: removes the page if present, then appends it. The page
   * ends up last and every other page keeps its relative order.
   */
  function Add(pages: seq<Page>, p: Page): (r: seq<Page>)
    ensures |r| > 0 && r[|r| - 1] == p
    ensures p !in pages ==> r[..|r| - 1] == pages
    ensures Distinct(pages) ==> Distinct(r)
    ensures Distinct(pages) ==> forall q :: q in r <==> q in pages || q == p
  {
    var rest := RemoveFirst(pages, p);
    assert (rest + [p])[..|rest|] == rest;
    RemoveFirstDistinct(pages, p);
    rest + [p]
  }

  /** Deleting one position keeps the order of the remaining elements, in both directions. */
  lemma DeleteAtOrder(pages: seq<Page>, k: nat, a: Page, b: Page)
    requires k < |pages| && a != pages[k] && b != pages[k]
    ensures Before(pages[..k] + pages[k + 1..], a, b) <==> Before(pages, a, b)
  {
    var r := pages[..k] + pages[k + 1..];
    if Before(r, a, b) {
      var i, j :| 0 <= i < j < |r| && r[i] == a && r[j] == b;
      var i' := if i < k then i else i + 1;
      var j' := if j < k then j else j + 1;
      assert pages[i'] == a && pages[j'] == b && i' < j';
    }
    if Before(pages, a, b) {
      var i, j :| 0 <= i < j < |pages| && pages[i] == a && pages[j] == b;
      var i' := if i < k then i else i - 1;
      var j' := if j < k then j else j - 1;
      assert r[i'] == a && r[j'] == b && i' < j';
    }
  }

  /** Removing `p` from a duplicate-free list keeps the relative order of every other page. */
  lemma {:induction false} RemoveFirstOrder(pages: seq<Page>, p: Page, a: Page, b: Page)
    requires Distinct(pages)
    ensures Before(RemoveFirst(pages, p), a, b) <==> a != p && b != p && Before(pages, a, b)
  {
    var r := RemoveFirst(pages, p);
    RemoveFirstDistinct(pages, p);
    if Before(r, a, b) {
      assert a in r && b in r;
    }
    if p in pages {
      var k := IndexOf(pages, p);
      if a != p && b != p {
        DeleteAtOrder(pages, k, a, b);
      }
    } else if Before(pages, a, b) {
      assert a in pages && b in pages;
    }
  }

  /**
   * Order after `add`: `p` comes after every other page, and two pages other
   * than `p` are ordered as before.
   */
  lemma {:induction false} AddOrder(pages: seq<Page>, p: Page, a: Page, b: Page)
    requires Distinct(pages)
    ensures Before(Add(pages, p), a, b) <==>
      (a != p && b != p && Before(pages, a, b)) || (a != p && a in pages && b == p)
  {
    var rest := RemoveFirst(pages, p);
    var r := Add(pages, p);
    assert r == rest + [p];
    RemoveFirstDistinct(pages, p);
    RemoveFirstOrder(pages, p, a, b);
    if Before(r, a, b) {
      var i, j :| 0 <= i < j < |r| && r[i] == a && r[j] == b;
      assert a == rest[i] && a in rest;
      if j < |rest| {
        assert rest[i] == a && rest[j] == b;
        assert Before(rest, a, b);
      }
    }
    if a != p && b != p && Before(pages, a, b) {
      var i, j :| 0 <= i < j < |rest| && rest[i] == a && rest[j] == b;
      assert r[i] == a && r[j] == b;
    }
    if a != p && a in pages && b == p {
      assert a in rest;
      var i :| 0 <= i < |rest| && rest[i] == a;
      assert r[i] == a && r[|rest|] == b;
    }
  }

  /** `RequestData.remove`: drops the page object, if present. */
  function Remove(pages: seq<Page>, p: Page): (r: seq<Page>)
    ensures p !in pages ==> r == pages
    ensures Distinct(pages) ==> Distinct(r) && forall q :: q in r <==> q in pages && q != p
  {
    RemoveFirstDistinct(pages, p);
    RemoveFirst(pages, p)
  }

  /** `p` is the first page of `pages` whose id (as `pageId` reports it) is `id`. */
  ghost predicate FirstWithId(pages: seq<Page>, id: int, pageId: Page -> int, p: Page)
  {
    exists k :: 0 <= k < |pages| && pages[k] == p && pageId(p) == id &&
      forall j :: 0 <= j < k ==> pageId(pages[j]) != id
  }

  /**
   * `RequestData.get`: the first buffered page whose `getPageId()` equals
   * `id`, or none.
   */
  function Get(pages: seq<Page>, id: int, pageId: Page -> int): (r: Option<Page>)
    ensures r.None? <==> forall k :: 0 <= k < |pages| ==> pageId(pages[k]) != id
    ensures r.Some? ==> FirstWithId(pages, id, pageId, r.value)
  {
    if |pages| == 0 then None
    else if pageId(pages[0]) == id then Some(pages[0])
    else
      var r := Get(pages[1..], id, pageId);
      assert r.Some? ==> FirstWithId(pages, id, pageId, r.value) by {
        if r.Some? {
          var k :| 0 <= k < |pages| - 1 && pages[1..][k] == r.value && pageId(r.value) == id &&
            forall j :: 0 <= j < k ==> pageId(pages[1..][j]) != id;
          assert pages[k + 1] == r.value;
          assert forall j :: 0 <= j < k + 1 ==> pageId(pages[j]) != id;
        }
      }
      r
  }

  /**
   * Reference definition of collapsing repeated adds: each page is kept once,
   * at the position of its last occurrence.
   */
  function DedupLast(ps: seq<Page>): (r: seq<Page>)
    ensures Distinct(r)
    ensures forall q :: q in r <==> q in ps
  {
    if |ps| == 0 then []
    else if ps[0] in ps[1..] then DedupLast(ps[1..])
    else
      var rest := DedupLast(ps[1..]);
      assert forall q :: q in ps <==> q == ps[0] || q in ps[1..];
      [ps[0]] + rest
  }

  /** A sequence without repeats is already collapsed. */
  lemma {:induction false} DedupLastOfDistinct(ps: seq<Page>)
    requires Distinct(ps)
    ensures DedupLast(ps) == ps
  {
    if |ps| > 0 {
      assert ps[0] !in ps[1..];
      DedupLastOfDistinct(ps[1..]);
      assert ps == [ps[0]] + ps[1..];
    }
  }

  /** The buffer of a fresh request after adding `ps` one by one. */
  function AddAll(ps: seq<Page>): (r: seq<Page>)
    ensures Distinct(r)
  {
    if |ps| == 0 then [] else Add(AddAll(ps[..|ps| - 1]), ps[|ps| - 1])
  }

  /** Adding one more page to a collapsed sequence moves or appends it last. */
  lemma {:induction false} DedupLastSnoc(ps: seq<Page>, p: Page)
    ensures DedupLast(ps + [p]) == RemoveFirst(DedupLast(ps), p) + [p]
  {
    if |ps| == 0 {
      assert ps + [p] == [p];
    } else {
      var x, t := ps[0], ps[1..];
      assert ps + [p] == [x] + (t + [p]);
      assert (ps + [p])[1..] == t + [p];
      DedupLastSnoc(t, p);
      if x in t {
        assert x in t + [p];
      } else if x == p {
        assert x in t + [p];
        assert p !in DedupLast(t);
        RemoveFirstCons(x, DedupLast(t), p);
      } else {
        assert x !in t + [p];
        RemoveFirstCons(x, DedupLast(t), p);
      }
    }
  }

  /**
   * Repeated adds within one request collapse: the buffer holds every added
   * page exactly once, at the position of its latest add.
   */
  lemma {:induction false} AddAllIsDedupLast(ps: seq<Page>)
    ensures AddAll(ps) == DedupLast(ps)
  {
    if |ps| > 0 {
      var q, p := ps[..|ps| - 1], ps[|ps| - 1];
      assert ps == q + [p];
      assert AddAll(ps) == Add(AddAll(q), p);
      AddAllIsDedupLast(q);
      assert Add(DedupLast(q), p) == RemoveFirst(DedupLast(q), p) + [p];
      DedupLastSnoc(q, p);
    }
  }
}
