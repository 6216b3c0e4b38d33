/**
 * `RequestPageStore`: a page store decorator that keeps the pages added during
 * a request in a request-scoped buffer and hands them to its delegate only at
 * the end of the request, in the order they were (last) added.
 *
 * The delegate is observed through the calls forwarded to it, recorded in an
 * append-only trace, and through an opaque `lookup` answering its `getPage`.
 */
module RequestPageStore {
  import opened Options
  import opened Seqs
  import opened Pages
  import RequestData

  /** A call forwarded to the delegate store. */
  datatype Call =
    | AddPage(page: Page)
    | RemovePage(page: Page)
    | RemoveAllPages
    | GetPage(id: int)
    | Detach

  /**
   * What the decorator can observe and change during one request: the
   * request-scoped buffer slot (absent until first used) and the calls
   * forwarded to the delegate so far.
   */
  datatype RequestState = RequestState(data: Option<seq<Page>>, forwarded: seq<Call>)

  /** The current buffer; an absent slot reads as an empty buffer. */
  function Buffer(st: RequestState): seq<Page>
  {
    st.data.GetOr([])
  }

  /** The buffer is free of duplicate page objects. */
  ghost predicate Valid(st: RequestState)
  {
    Distinct(Buffer(st))
  }

  /**
   * `getRequestData`: the stored buffer if there is one, otherwise a new empty
   * buffer that is stored before being returned.
   */
  function GetRequestData(st: RequestState): (r: (seq<Page>, RequestState))
    ensures r.1.data == Some(r.0) && r.1.forwarded == st.forwarded
    ensures st.data.Some? ==> r.0 == st.data.value
    ensures st.data.None? ==> r.0 == []
  {
    match st.data
    case Some(pages) => (pages, st)
    case None => ([], st.(data := Some([])))
  }

  /** Later calls in the same request see the buffer the first call stored, and change nothing. */
  lemma GetRequestDataStable(st: RequestState)
    ensures var (pages, st1) := GetRequestData(st);
      pages == Buffer(st) && GetRequestData(st1) == (pages, st1)
  {
  }

  /**
   * `getPage`: the first buffered page with that id, without consulting the
   * delegate; only when no buffered page has that id is the delegate asked.
   * `pageId` gives each page's current `getPageId()`.
   */
  function GetPageOp(st: RequestState, id: int, pageId: Page -> int, lookup: int -> Option<Page>)
    : (r: (Option<Page>, RequestState))
    ensures r.1.data == Some(Buffer(st))
    ensures (exists k :: 0 <= k < |Buffer(st)| && pageId(Buffer(st)[k]) == id) ==>
      r.0.Some? && RequestData.FirstWithId(Buffer(st), id, pageId, r.0.value) && r.1.forwarded == st.forwarded
    ensures (forall k :: 0 <= k < |Buffer(st)| ==> pageId(Buffer(st)[k]) != id) ==>
      r.0 == lookup(id) && r.1.forwarded == st.forwarded + [GetPage(id)]
  {
    var (pages, st1) := GetRequestData(st);
    match RequestData.Get(pages, id, pageId)
    case Some(page) => (Some(page), st1)
    case None => (lookup(id), st1.(forwarded := st1.forwarded + [GetPage(id)]))
  }

  /** `addPage`: only the buffer changes; nothing reaches the delegate. */
  function AddPageOp(st: RequestState, page: Page): (r: RequestState)
    ensures r.forwarded == st.forwarded
    ensures |Buffer(r)| > 0 && Buffer(r)[|Buffer(r)| - 1] == page
    ensures Valid(st) ==> Valid(r) && forall q :: q in Buffer(r) <==> q in Buffer(st) || q == page
  {
    var (pages, st1) := GetRequestData(st);
    st1.(data := Some(RequestData.Add(pages, page)))
  }

  /** `removePage`: drops the page from the buffer and always forwards the removal. */
  function RemovePageOp(st: RequestState, page: Page): (r: RequestState)
    ensures r.forwarded == st.forwarded + [RemovePage(page)]
    ensures Valid(st) ==> Valid(r) && forall q :: q in Buffer(r) <==> q in Buffer(st) && q != page
  {
    var (pages, st1) := GetRequestData(st);
    RequestState(Some(RequestData.Remove(pages, page)), st1.forwarded + [RemovePage(page)])
  }

  /** `removeAllPages`: empties the buffer and always forwards the call. */
  function RemoveAllPagesOp(st: RequestState): (r: RequestState)
    ensures Buffer(r) == [] && r.data.Some?
    ensures r.forwarded == st.forwarded + [RemoveAllPages]
  {
    var (_, st1) := GetRequestData(st);
    RequestState(Some([]), st1.forwarded + [RemoveAllPages])
  }

  /** The buffered pages the end-of-request flush hands on, in buffer order. */
  function Flushed(pages: seq<Page>, check: Page -> StatelessCheck): (r: seq<Page>)
    ensures |r| <= |pages|
    ensures forall q :: q in r <==> q in pages && IsPersisted(check(q))
    ensures Distinct(pages) ==> Distinct(r)
  {
    if |pages| == 0 then []
    else
      var rest := Flushed(pages[1..], check);
      assert forall q :: q in pages <==> q == pages[0] || q in pages[1..];
      assert Distinct(pages) ==> pages[0] !in pages[1..];
      if IsPersisted(check(pages[0])) then [pages[0]] + rest else rest
  }

  /** The flush never reorders: two flushed pages appear in buffer order. */
  lemma {:induction false} FlushedKeepsOrder(pages: seq<Page>, check: Page -> StatelessCheck, a: Page, b: Page)
    ensures Before(Flushed(pages, check), a, b) ==> Before(pages, a, b)
  {
    if |pages| > 0 && Before(Flushed(pages, check), a, b) {
      var x, t := pages[0], pages[1..];
      assert pages == [x] + t;
      var f, ft := Flushed(pages, check), Flushed(t, check);
      var i, j :| 0 <= i < j < |f| && f[i] == a && f[j] == b;
      if IsPersisted(check(x)) {
        assert f == [x] + ft;
        if i == 0 {
          assert b == ft[j - 1] && b in t;
          BeforeFromHead(x, t, b);
        } else {
          assert ft[i - 1] == a && ft[j - 1] == b;
          FlushedKeepsOrder(t, check, a, b);
          BeforeAfterPrefix([x], t, a, b);
        }
      } else {
        FlushedKeepsOrder(t, check, a, b);
        BeforeAfterPrefix([x], t, a, b);
      }
    }
  }

  /** The flush drops no ordering between two pages it hands on. */
  lemma {:induction false} FlushedPreservesOrder(pages: seq<Page>, check: Page -> StatelessCheck, a: Page, b: Page)
    requires IsPersisted(check(a)) && IsPersisted(check(b))
    ensures Before(pages, a, b) ==> Before(Flushed(pages, check), a, b)
  {
    if Before(pages, a, b) {
      var x, t := pages[0], pages[1..];
      assert pages == [x] + t;
      var f, ft := Flushed(pages, check), Flushed(t, check);
      var i, j :| 0 <= i < j < |pages| && pages[i] == a && pages[j] == b;
      if i == 0 {
        assert f == [x] + ft;
        assert b == t[j - 1] && b in ft;
        BeforeFromHead(x, ft, b);
      } else {
        assert t[i - 1] == a && t[j - 1] == b;
        FlushedPreservesOrder(t, check, a, b);
        if IsPersisted(check(x)) {
          assert f == [x] + ft;
          BeforeAfterPrefix([x], ft, a, b);
        }
      }
    }
  }

  /** One forwarded `addPage` per page, in the same order. */
  function AddCalls(pages: seq<Page>): (r: seq<Call>)
    ensures |r| == |pages|
    ensures forall k :: 0 <= k < |r| ==> r[k] == AddPage(pages[k])
  {
    if |pages| == 0 then [] else [AddPage(pages[0])] + AddCalls(pages[1..])
  }

  /**
   * `detach`: forwards `addPage` for every buffered page whose statelessness
   * check did not answer "stateless" (a failing check counts as stateful), in
   * buffer order; then empties the buffer and forwards `detach` last.
   */
  function DetachOp(st: RequestState, check: Page -> StatelessCheck): (r: RequestState)
    ensures r.data == Some([])
    ensures |r.forwarded| > |st.forwarded| && r.forwarded[..|st.forwarded|] == st.forwarded
    ensures r.forwarded[|r.forwarded| - 1] == Detach
    ensures forall k :: |st.forwarded| <= k < |r.forwarded| - 1 ==> r.forwarded[k].AddPage?
    ensures forall q :: AddPage(q) in r.forwarded[|st.forwarded|..] <==>
      q in Buffer(st) && IsPersisted(check(q))
  {
    var (pages, st1) := GetRequestData(st);
    var flushed := Flushed(pages, check);
    var calls := AddCalls(flushed);
    var fwd := st1.forwarded + calls + [Detach];
    assert fwd[|st.forwarded|..] == calls + [Detach];
    assert forall q :: AddPage(q) in calls <==> q in flushed by {
      forall q ensures AddPage(q) in calls <==> q in flushed {
        if AddPage(q) in calls {
          var k :| 0 <= k < |calls| && calls[k] == AddPage(q);
          assert flushed[k] == q;
        }
        if q in flushed {
          var k :| 0 <= k < |flushed| && flushed[k] == q;
          assert calls[k] == AddPage(q);
        }
      }
    }
    RequestState(Some([]), fwd)
  }

  /** Forwarding one call per page keeps the pages' order. */
  lemma AddCallsOrder(pages: seq<Page>, a: Page, b: Page)
    ensures Before(AddCalls(pages), AddPage(a), AddPage(b)) <==> Before(pages, a, b)
  {
  }

  /** Within the flush, `addPage` calls come exactly in buffer order. */
  lemma DetachFlushOrder(st: RequestState, check: Page -> StatelessCheck, a: Page, b: Page)
    requires IsPersisted(check(a)) && IsPersisted(check(b))
    ensures Before(Buffer(st), a, b) <==>
      Before(DetachOp(st, check).forwarded[|st.forwarded|..], AddPage(a), AddPage(b))
  {
    var flushed := Flushed(Buffer(st), check);
    var calls := AddCalls(flushed);
    assert DetachOp(st, check).forwarded[|st.forwarded|..] == calls + [Detach];
    FlushedKeepsOrder(Buffer(st), check, a, b);
    FlushedPreservesOrder(Buffer(st), check, a, b);
    AddCallsOrder(flushed, a, b);
    BeforeWithSuffix(calls, Detach, AddPage(a), AddPage(b));
  }

  /** The state after adding `pages` one by one with `addPage`. */
  function AddPages(st: RequestState, pages: seq<Page>): RequestState
  {
    if |pages| == 0 then st else AddPageOp(AddPages(st, pages[..|pages| - 1]), pages[|pages| - 1])
  }

  /**
   * Any sequence of adds reaches the delegate with nothing, and leaves the
   * buffer holding the earlier buffer followed by the added pages, collapsed
   * so that each page sits at the position of its latest add.
   */
  lemma AddPagesOnlyBuffer(st: RequestState, pages: seq<Page>)
    ensures AddPages(st, pages).forwarded == st.forwarded
    ensures Valid(st) ==> Buffer(AddPages(st, pages)) == RequestData.DedupLast(Buffer(st) + pages)
  {
    AddPagesForwardNothing(st, pages);
    if Valid(st) {
      AddPagesBuffer(st, pages);
    }
  }

  /** The buffer after `addPage` is the buffer `RequestData.add` computes. */
  lemma AddPageOpBuffer(st: RequestState, p: Page)
    ensures Buffer(AddPageOp(st, p)) == RequestData.Add(Buffer(st), p)
  {
  }

  lemma {:induction false} AddPagesForwardNothing(st: RequestState, pages: seq<Page>)
    ensures AddPages(st, pages).forwarded == st.forwarded
  {
    if |pages| > 0 {
      AddPagesForwardNothing(st, pages[..|pages| - 1]);
    }
  }

  lemma {:induction false} AddPagesBuffer(st: RequestState, pages: seq<Page>)
    requires Valid(st)
    ensures Buffer(AddPages(st, pages)) == RequestData.DedupLast(Buffer(st) + pages)
  {
    var b := Buffer(st);
    if |pages| == 0 {
      assert b + pages == b;
      RequestData.DedupLastOfDistinct(b);
    } else {
      var init, p := pages[..|pages| - 1], pages[|pages| - 1];
      var before := AddPages(st, init);
      var d := RequestData.DedupLast(b + init);
      calc {
        Buffer(AddPages(st, pages));
        Buffer(AddPageOp(before, p));
        { AddPageOpBuffer(before, p); }
        RequestData.Add(Buffer(before), p);
        { AddPagesBuffer(st, init); }
        RequestData.Add(d, p);
        RequestData.RemoveFirst(d, p) + [p];
        { RequestData.DedupLastSnoc(b + init, p); }
        RequestData.DedupLast((b + init) + [p]);
        { assert (b + init) + [p] == b + pages; }
        RequestData.DedupLast(b + pages);
      }
    }
  }

  /**
   * One whole request: pages added (possibly repeatedly) and then `detach`.
   * The delegate receives each stateful page exactly once, at the position of
   * its latest add, and then `detach`.
   */
  lemma RequestLifecycle(st: RequestState, pages: seq<Page>, check: Page -> StatelessCheck)
    requires Buffer(st) == []
    ensures DetachOp(AddPages(st, pages), check).forwarded ==
      st.forwarded + AddCalls(Flushed(RequestData.DedupLast(pages), check)) + [Detach]
    ensures Distinct(DetachOp(AddPages(st, pages), check).forwarded[|st.forwarded|..])
  {
    var added := AddPages(st, pages);
    var flushed := Flushed(RequestData.DedupLast(pages), check);
    AddPagesForwardNothing(st, pages);
    assert Buffer(added) == RequestData.DedupLast(pages) by {
      AddPagesBuffer(st, pages);
      assert Buffer(st) + pages == pages;
    }
    DetachOpForwarded(added, check);
    var fwd := DetachOp(added, check).forwarded;
    assert fwd == st.forwarded + AddCalls(flushed) + [Detach];
    FlushSegmentDistinct(fwd, st.forwarded, flushed);
  }

  /** After the earlier calls, a flush of distinct pages followed by `detach` repeats no call. */
  lemma FlushSegmentDistinct(fwd: seq<Call>, pre: seq<Call>, flushed: seq<Page>)
    requires fwd == pre + AddCalls(flushed) + [Detach]
    requires Distinct(flushed)
    ensures Distinct(fwd[|pre|..])
  {
    assert fwd[|pre|..] == AddCalls(flushed) + [Detach];
    DistinctFlushCalls(flushed);
  }

  /** The calls `detach` appends: the flushed pages' `addPage` calls, then `detach`. */
  lemma DetachOpForwarded(st: RequestState, check: Page -> StatelessCheck)
    ensures DetachOp(st, check).forwarded == st.forwarded + AddCalls(Flushed(Buffer(st), check)) + [Detach]
  {
  }

  /** Forwarding distinct pages, then `detach`, forwards no call twice. */
  lemma DistinctFlushCalls(flushed: seq<Page>)
    requires Distinct(flushed)
    ensures Distinct(AddCalls(flushed) + [Detach])
  {
  }

  /** Every operation keeps the buffer free of duplicates. */
  lemma OperationsKeepValid(
    st: RequestState, page: Page, id: int, pageId: Page -> int,
    lookup: int -> Option<Page>, check: Page -> StatelessCheck)
    requires Valid(st)
    ensures Valid(AddPageOp(st, page)) && Valid(RemovePageOp(st, page)) && Valid(RemoveAllPagesOp(st))
    ensures Valid(GetPageOp(st, id, pageId, lookup).1) && Valid(DetachOp(st, check))
  {
  }
}
