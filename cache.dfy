/**
 * The credential cache the client consults and refreshes: one entry per registry ID, read
 * with Get, written with Set (a full replace) and enumerated with List. Whether an entry is
 * still fresh is the cache's own policy (IsValid, with its shortened expiry); the client
 * only asks, so the model takes that predicate as a value fixed when the cache is made.
 */
module Cache {
  import opened Wrappers

  /** A point in time; the client never does arithmetic on it. */
  type Time = int

  /** cache.AuthEntry: what a successful fetch leaves in the cache. */
  datatype AuthEntry = AuthEntry(authorizationToken: string, requestedAt: Time, expiresAt: Time, proxyEndpoint: string)

  /**
   * The cache's contents: the entry for each registry ID, and the IDs in the order List
   * enumerates them (here, the order in which they were first stored).
   */
  datatype CacheState = CacheState(entries: map<string, AuthEntry>, keys: seq<string>)

  const Empty := CacheState(map[], [])

  /** Every ID is listed exactly once, and exactly the stored IDs are listed. */
  ghost predicate Consistent(c: CacheState) {
    && (forall i, j :: 0 <= i < j < |c.keys| ==> c.keys[i] != c.keys[j])
    && (forall k :: k in c.entries <==> k in c.keys)
  }

  /** Get: the entry stored for id, if any. */
  function Lookup(c: CacheState, id: string): Option<AuthEntry> {
    if id in c.entries then Some(c.entries[id]) else None
  }

  /** Set: id now maps to e and every other ID keeps its entry; a new ID is listed last. */
  function Store(c: CacheState, id: string, e: AuthEntry): (c': CacheState)
    ensures Lookup(c', id) == Some(e)
    ensures forall k :: k != id ==> Lookup(c', k) == Lookup(c, k)
    ensures Consistent(c) ==> Consistent(c')
  {
    if id in c.entries then CacheState(c.entries[id := e], c.keys)
    else
      var c' := CacheState(c.entries[id := e], c.keys + [id]);
      assert forall k :: k in c'.keys <==> k in c.keys || k == id;
      c'
  }

  /** List: the stored entries, one per listed ID, in listing order. */
  function Listing(c: CacheState): (l: seq<AuthEntry>)
    requires Consistent(c)
    ensures |l| == |c.keys|
  {
    seq(|c.keys|, i requires 0 <= i < |c.keys| => c.entries[c.keys[i]])
  }

  /** List returns every entry resident in the cache, and nothing else. */
  lemma ListingIsContents(c: CacheState)
    requires Consistent(c)
    ensures forall k :: k in c.entries ==> c.entries[k] in Listing(c)
    ensures forall e :: e in Listing(c) <==> e in c.entries.Values
  {
    var l := Listing(c);
    forall k | k in c.entries
      ensures c.entries[k] in l
    {
      var i :| 0 <= i < |c.keys| && c.keys[i] == k;
      assert l[i] == c.entries[k];
    }
    forall e | e in l
      ensures e in c.entries.Values
    {
      var i :| 0 <= i < |l| && l[i] == e;
      assert c.keys[i] in c.entries;
    }
  }

  /**
   * How Set changes List: the entry of an ID already present is replaced where it stands;
   * the entry of a new ID is appended.
   */
  lemma StoreListing(c: CacheState, id: string, e: AuthEntry)
    requires Consistent(c)
    ensures id in c.entries ==>
      var l, l' := Listing(c), Listing(Store(c, id, e));
      |l'| == |l| && forall i :: 0 <= i < |l| ==> l'[i] == if c.keys[i] == id then e else l[i]
    ensures id !in c.entries ==> Listing(Store(c, id, e)) == Listing(c) + [e]
  {
    var l, l' := Listing(c), Listing(Store(c, id, e));
    if id !in c.entries {
      assert |l'| == |l| + 1;
      forall i | 0 <= i < |l'|
        ensures l'[i] == (l + [e])[i]
      {
        if i < |l| {
          assert c.keys[i] != id;
        }
      }
    }
  }

  /** The collaborator object: a cache that the client updates in place. */
  class CredentialCache {
    var entries: map<string, AuthEntry>
    var keys: seq<string>

    /** IsValid(entry, now): the cache's freshness policy, not part of this model. */
    const isValid: (AuthEntry, Time) -> bool

    function View(): CacheState
      reads this
    {
      CacheState(entries, keys)
    }

    ghost predicate Valid()
      reads this
    {
      Consistent(View())
    }

    constructor(isValid: (AuthEntry, Time) -> bool)
      ensures Valid() && View() == Empty
      ensures this.isValid == isValid
    {
      entries := map[];
      keys := [];
      this.isValid := isValid;
    }

    function Get(id: string): (r: Option<AuthEntry>)
      reads this
      ensures r.Some? <==> id in entries
      ensures r.Some? ==> r.value == entries[id]
    {
      Lookup(View(), id)
    }

    function List(): (l: seq<AuthEntry>)
      reads this
      requires Valid()
      ensures l == Listing(View())
    {
      Listing(View())
    }

    method Set(id: string, e: AuthEntry)
      requires Valid()
      modifies this
      ensures Valid()
      ensures View() == Store(old(View()), id, e)
    {
      if id !in entries {
        keys := keys + [id];
      }
      entries := entries[id := e];
      assert View() == Store(old(View()), id, e);
    }
  }
}
