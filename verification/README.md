# Request-scoped page buffering and the persistent-store lookup of Apache Wicket's page stores

This project models two pieces of Wicket's page-store decorator chain in Dafny.

- `RequestPageStore` is the decorator that buffers pages during a request. It
  keeps the pages added in the current request in a request-scoped,
  duplicate-free list. Re-adding a page moves it to the end. `getPage`
  answers from that list before asking the delegate. `removePage` drops
  that one page object from the list and then forwards. `removeAllPages`
  clears the list and then forwards. At `detach`, every
  buffered page that is not stateless goes to the delegate, in list order.
  The list is then cleared and `detach` is forwarded.
- `PageStorePage.getPersistentPageStore` walks the delegation chain. It
  starts from the session's page store and returns the first store that is
  persistent. It follows `getDelegate()` through delegating stores and
  gives up with `null` at a store that is neither persistent nor delegating.

Modelling choices:

- A page is `Page(ref)`, where `ref` is the object's identity. Value
  equality stands for Java's default `equals`, which is object identity.
  A page's `getPageId()` is read through a function `pageId` passed to
  each lookup. So two distinct pages may share an id, and a page's id may
  change between one call and the next without changing which object it is.
- The request-scoped storage behind `IPageContext.getRequestData` is one
  optional slot, `RequestState.data`.
- The delegate store appears in two ways. One is an append-only trace of
  the calls forwarded to it (`RequestState.forwarded`). The other is an
  opaque function `lookup` that answers its `getPage`.
- The outcome of `isPageStateless()` is a function `check` that returns
  either an answer or `Threw`. It is passed to `detach`.
- A page store is an inductive datatype: `Plain` or `Delegating`, each
  persistent or not. The start store is passed in as a parameter.

One could read the decorator's purpose as "`addPage` first removes any
buffered page with the same page id". The code does not do that. It uses
`LinkedList.remove(Object)`, which removes the same page object. The model
follows the code: a different page with the same id stays in the buffer,
and `getPage` returns the earlier of the two.

Files:

- `options.dfy`: `Option`, standing for a nullable reference.
- `seqs.dfy`: the `Distinct` and `Before` notions on sequences.
- `pages.dfy`: pages and statelessness outcomes.
- `request_data.dfy`: the nested `RequestData` buffer.
- `request_page_store.dfy`: the decorator's operations over request state and delegate trace.
- `page_store_page.dfy`: the chain walk.

## Model

| member | source | states |
|---|---|---|
| RequestData.RemoveFirstDistinct | wicket-core/src/main/java/org/apache/wicket/pageStore/RequestPageStore.java:147-150 | Removing by equality from a duplicate-free buffer removes that page object entirely. Other pages, including pages with the same id, stay. The buffer stays duplicate-free. |
| RequestData.RemoveFirstOrder | wicket-core/src/main/java/org/apache/wicket/pageStore/RequestPageStore.java:147-150 | After the removal, two pages other than the removed one are ordered exactly as before. |
| RequestData.Add | wicket-core/src/main/java/org/apache/wicket/pageStore/RequestPageStore.java:126-131 | The added page is last. If it was absent, the earlier pages are unchanged. A duplicate-free buffer stays duplicate-free and holds exactly the old pages plus the new one. |
| RequestData.AddOrder | wicket-core/src/main/java/org/apache/wicket/pageStore/RequestPageStore.java:126-131 | After `add(p)`, `p` comes after every other buffered page. Pages other than `p` keep their relative order. No other ordering appears. |
| RequestData.Remove | wicket-core/src/main/java/org/apache/wicket/pageStore/RequestPageStore.java:147-150 | Removing an absent page changes nothing. On a duplicate-free buffer, exactly that page object is gone. |
| RequestData.Get | wicket-core/src/main/java/org/apache/wicket/pageStore/RequestPageStore.java:138-145 | Returns the first buffered page whose current `getPageId()` matches. It returns none exactly when no buffered page has that id. |
| RequestData.AddAllIsDedupLast | wicket-core/src/main/java/org/apache/wicket/pageStore/RequestPageStore.java:126-131 | Adding a sequence of pages to a fresh buffer leaves each page once, at the position of its latest add. This matches an independent definition, `DedupLast`. |
| RequestPageStore.GetRequestData | wicket-core/src/main/java/org/apache/wicket/pageStore/RequestPageStore.java:107-117 | Returns the stored buffer, or an empty one when none is stored. The returned buffer is then stored. Nothing is forwarded. |
| RequestPageStore.GetRequestDataStable | wicket-core/src/main/java/org/apache/wicket/pageStore/RequestPageStore.java:107-117 | A second call returns the buffer the first call stored and changes nothing. |
| RequestPageStore.GetPageOp | wicket-core/src/main/java/org/apache/wicket/pageStore/RequestPageStore.java:47-56 | If some buffered page currently has the id, returns the first such page and forwards nothing. Otherwise it forwards `getPage(id)` and returns the delegate's answer. |
| RequestPageStore.AddPageOp | wicket-core/src/main/java/org/apache/wicket/pageStore/RequestPageStore.java:58-62 | Forwards nothing. The page is last in the buffer. Buffer membership is the old pages plus the new one, with no duplicates. |
| RequestPageStore.RemovePageOp | wicket-core/src/main/java/org/apache/wicket/pageStore/RequestPageStore.java:64-70 | Always forwards `removePage(page)` and nothing else. The buffer loses exactly that page object. |
| RequestPageStore.RemoveAllPagesOp | wicket-core/src/main/java/org/apache/wicket/pageStore/RequestPageStore.java:72-78 | The buffer is empty. Exactly `removeAllPages` is forwarded. |
| RequestPageStore.Flushed | wicket-core/src/main/java/org/apache/wicket/pageStore/RequestPageStore.java:84-101 | The flushed pages are exactly the buffered pages whose check did not answer "stateless". A check that threw counts as stateful. There are no duplicates. |
| RequestPageStore.FlushedKeepsOrder | wicket-core/src/main/java/org/apache/wicket/pageStore/RequestPageStore.java:84-101 | The flush introduces no ordering that the buffer did not have. |
| RequestPageStore.FlushedPreservesOrder | wicket-core/src/main/java/org/apache/wicket/pageStore/RequestPageStore.java:84-101 | Two flushed pages keep their buffer order. |
| RequestPageStore.AddCallsOrder | wicket-core/src/main/java/org/apache/wicket/pageStore/RequestPageStore.java:84-101 | Forwarding one `addPage` per flushed page keeps the pages' order in both directions. |
| RequestPageStore.DetachOp | wicket-core/src/main/java/org/apache/wicket/pageStore/RequestPageStore.java:80-105 | The buffer ends empty. Earlier forwarded calls are kept. The new calls are `addPage` calls, then `detach` last. `addPage(q)` is forwarded exactly for buffered pages whose check answered "stateful" or threw. |
| RequestPageStore.DetachFlushOrder | wicket-core/src/main/java/org/apache/wicket/pageStore/RequestPageStore.java:84-101 | For two flushed pages, their forwarded `addPage` calls are in the same order as the pages were in the buffer, in both directions. |
| RequestPageStore.AddPagesOnlyBuffer | wicket-core/src/main/java/org/apache/wicket/pageStore/RequestPageStore.java:58-62 | Any sequence of `addPage` calls forwards nothing, from any state. From any duplicate-free buffer, the new buffer is the old buffer followed by the added pages, collapsed so that each page sits at the position of its latest add. |
| RequestPageStore.RequestLifecycle | wicket-core/src/main/java/org/apache/wicket/pageStore/RequestPageStore.java:27-30 | For a whole request of adds and then `detach`: the delegate receives each stateful page exactly once, at the position of its latest add, then `detach`. |
| RequestPageStore.OperationsKeepValid | wicket-core/src/main/java/org/apache/wicket/pageStore/RequestPageStore.java:122-156 | Every operation keeps the buffer free of duplicate page objects. |
| PageStorePage.Chain | wicket-devutils/src/main/java/org/apache/wicket/devutils/diskstore/PageStorePage.java:59-60 | The chain starts at the given store and ends at a non-delegating store. Each later element is the delegate of the one before it. |
| PageStorePage.ChainIsReachable | wicket-devutils/src/main/java/org/apache/wicket/devutils/diskstore/PageStorePage.java:59-60 | A store is in the chain exactly when it can be reached by following delegates. |
| PageStorePage.ReachableStep | wicket-devutils/src/main/java/org/apache/wicket/devutils/diskstore/PageStorePage.java:59-60 | Following one more delegate from a reachable delegating store stays reachable. |
| PageStorePage.FirstPersistent | wicket-devutils/src/main/java/org/apache/wicket/devutils/diskstore/PageStorePage.java:54-64 | Reference search: the first persistent store of a chain with none before it. It is absent exactly when no store in the chain is persistent. |
| PageStorePage.GetPersistentPageStore | wicket-devutils/src/main/java/org/apache/wicket/devutils/diskstore/PageStorePage.java:52-67 | A persistent start store is returned at once, even if it also delegates. Any result is persistent, reachable and the first persistent store of the chain. The result is `null` exactly when no store in the chain is persistent, that is, when the walk meets a store that is neither persistent nor delegating first. The loop ends because the remaining chain length decreases. |

## Left out

- `RequestData.pages()` only exposes the list for iteration. The model iterates the buffer sequence directly.
- The warning logged when a statelessness check throws (`RequestPageStore.java:93`) is left out, because logging has no effect on the stores.
- The `MetaDataKey` and `IPageContext` storage are left out. They are represented by the single optional buffer slot.
- The delegate store's own behaviour is left out. It is an opaque `lookup` for `getPage` plus a trace of forwarded calls.
- Statelessness is one function `check` for the whole `detach`. A page whose answer changes between two calls in the same flush is not modelled.
- `PageStorePage` itself is left out: its constructor, `PersistedPanel` and `isVersioned` are user-interface code.
- The `Session.get().getPageManager().getPageStore()` lookup is replaced by the `start` parameter.
- Cyclic delegation chains are not modelled, because the inductive datatype rules them out. On such a chain without a persistent store, the Java loop would not terminate.
- The asynchronous page store and its test (`AsynchronousPageStoreTest.java`) are not part of this model. They are about concurrent background workers, timing and serialization, which are outside this sequential model.
- `EnclosurePage_6.java` is a user-interface test fixture with no store logic, so it is not modelled.
- DetachOp: assumes that every call forwarded to the delegate returns normally. In Java, an exception from the delegate's `addPage` during the flush (`RequestPageStore.java:99`) propagates, because there is no `finally`. The remaining pages are then not flushed, the buffer is not cleared and `detach` is not forwarded. The model states the normal outcome only, because the delegate's failures belong to the delegate, which is not modelled.
- DetachOp: `Threw` stands for an `Exception` from `isPageStateless()`, which is caught (`RequestPageStore.java:91`). A Java `Error` is not caught and would propagate. That case is not modelled.
- DetachOp: null pages are not modelled, here or in `RequestData.Get`. Java's `LinkedList` accepts `null`. `get` would then throw a `NullPointerException` from `getPageId()`, and `detach` would forward `addPage(null)`, because that exception counts as "stateful".
