/**
 * `PageStorePage.getPersistentPageStore`: starting from the session's page
 * store, follow delegates until a persistent store is found.
 *
 * A store is persistent (an `IPersistentPageStore`), delegating (a
 * `DelegatingPageStore`, which has a delegate), both, or neither. Chains
 * are finite and acyclic because the datatype is inductive.
 */
module PageStorePage {
  import opened Options

  datatype PageStore =
    | Plain(name: nat, persistent: bool)
    | Delegating(name: nat, persistent: bool, delegate: PageStore)

  /** The stores met by following delegates from `s`, `s` first. */
  function Chain(s: PageStore): (r: seq<PageStore>)
    ensures |r| > 0 && r[0] == s && r[|r| - 1].Plain?
    ensures forall k :: 0 <= k < |r| - 1 ==> r[k].Delegating? && r[k + 1] == r[k].delegate
  {
    match s
    case Plain(_, _) => [s]
    case Delegating(_, _, d) => [s] + Chain(d)
  }

  /** `t` is reached from `s` by following zero or more delegates. */
  predicate Reachable(s: PageStore, t: PageStore)
  {
    s == t || (s.Delegating? && Reachable(s.delegate, t))
  }

  /** The chain lists exactly the reachable stores. */
  lemma {:induction false} ChainIsReachable(s: PageStore, t: PageStore)
    ensures t in Chain(s) <==> Reachable(s, t)
  {
    if s.Delegating? {
      ChainIsReachable(s.delegate, t);
      assert Chain(s) == [s] + Chain(s.delegate);
    }
  }

  /** `chain[k]` is persistent and no store before it is. */
  ghost predicate FirstPersistentAt(chain: seq<PageStore>, k: int)
  {
    0 <= k < |chain| && chain[k].persistent && forall j :: 0 <= j < k ==> !chain[j].persistent
  }

  /** The first persistent store of a chain, if any. */
  function FirstPersistent(chain: seq<PageStore>): (r: Option<PageStore>)
    ensures r.None? <==> forall k :: 0 <= k < |chain| ==> !chain[k].persistent
    ensures r.Some? ==> exists k :: FirstPersistentAt(chain, k) && chain[k] == r.value
  {
    if |chain| == 0 then None
    else if chain[0].persistent then
      assert FirstPersistentAt(chain, 0);
      Some(chain[0])
    else
      var r := FirstPersistent(chain[1..]);
      assert r.Some? ==> exists k :: FirstPersistentAt(chain, k) && chain[k] == r.value by {
        if r.Some? {
          var k :| FirstPersistentAt(chain[1..], k) && chain[1..][k] == r.value;
          assert FirstPersistentAt(chain, k + 1) && chain[k + 1] == r.value;
        }
      }
      r
  }

  /**
   * The walk itself. A persistent start is returned at once, even when it
   * also delegates; a non-persistent delegating store is passed by; the walk
   * gives up (`None`, Java's `null`) at a store that is neither. The loop
   * measure is the length of the chain still ahead.
   */
  method GetPersistentPageStore(start: PageStore) returns (r: Option<PageStore>)
    ensures start.persistent ==> r == Some(start)
    ensures r.Some? ==> r.value.persistent && Reachable(start, r.value)
    ensures r.Some? ==> exists k :: FirstPersistentAt(Chain(start), k) && Chain(start)[k] == r.value
    ensures r.None? <==> forall k :: 0 <= k < |Chain(start)| ==> !Chain(start)[k].persistent
  {
    var store := start;
    while true
      invariant Reachable(start, store)
      invariant FirstPersistent(Chain(start)) == FirstPersistent(Chain(store))
      decreases |Chain(store)|
    {
      if store.persistent {
        r := Some(store);
        ChainIsReachable(start, store);
        return;
      }
      if store.Delegating? {
        assert Chain(store) == [store] + Chain(store.delegate);
        assert Chain(store)[1..] == Chain(store.delegate);
        ReachableStep(start, store);
        store := store.delegate;
      } else {
        break;
      }
    }
    r := None;
  }

  /** Following one more delegate stays within reach. */
  lemma {:induction false} ReachableStep(s: PageStore, t: PageStore)
    requires Reachable(s, t) && t.Delegating?
    ensures Reachable(s, t.delegate)
  {
    if s != t {
      ReachableStep(s.delegate, t);
    }
  }
}
