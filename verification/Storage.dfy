/** The storage in place: a cache of objects and two counters in front of the database. What
    the database holds for a key, and whether the guards are obtained, come from outside. */
module Storage {
  import opened Options
  import opened Recency
  import opened CachedStore
  import opened LruCache

  class Storage<K(==), R> {
    const cache: Cache<K, R>
    const hasToRefresh: Policy<R>
    var hitCounter: nat
    var faultCounter: nat

    constructor (maxCacheSize: nat, hasToRefresh: Policy<R>)
      requires maxCacheSize >= 1
      ensures cache.Valid() && fresh(cache) && cache.maxSize == maxCacheSize
      ensures this.hasToRefresh == hasToRefresh && View() == Cached([], 0, 0)
    {
      cache := new Cache(maxCacheSize);
      this.hasToRefresh := hasToRefresh;
      hitCounter, faultCounter := 0, 0;
    }

    ghost function View(): Cached<K, R>
      reads this, cache
    {
      Cached(cache.Contents(), hitCounter, faultCounter)
    }

    /** `content` is what the database holds for the key. The cache is asked before the guards. */
    method Load(key: K, connection: bool, statement: bool, content: Option<R>) returns (reply: Reply<R>)
      requires cache.Valid()
      modifies this, cache
      ensures cache.Valid()
      ensures CachedReply(View(), reply) ==
              LoadCached(cache.maxSize, hasToRefresh, old(View()), key, connection, statement, content)
      ensures reply == if !connection then Failed(NoConnection) else if !statement then Failed(NoStatement)
                       else match ValueOf(old(cache.Contents()), key)
                            case Some(held) => if !hasToRefresh(content, held) then Loaded(held)
                                               else if content.Some? then Loaded(content.value) else Failed(NotSuccessful)
                            case None => if content.Some? then Loaded(content.value) else Failed(NotSuccessful)
      ensures hitCounter == old(hitCounter) +
                            if connection && statement && ValueOf(old(cache.Contents()), key).Some? then 1 else 0
      ensures faultCounter == old(faultCounter) +
                              if connection && statement && ValueOf(old(cache.Contents()), key).None? then 1 else 0
    {
      cache.IndexIsLookup(key);
      ghost var before := cache.Contents();
      var found := cache.Find(key);
      if !connection { return Failed(NoConnection); }
      if !statement { return Failed(NoStatement); }
      if found.None? {
        faultCounter := faultCounter + 1;
        if content.None? { return Failed(NotSuccessful); }
        cache.Set(key, content.value);
        reply := Loaded(content.value);
      } else {
        hitCounter := hitCounter + 1;
        reply := Loaded(found.value);
        if hasToRefresh(content, found.value) {
          if content.None? { return Failed(NotSuccessful); }
          FoundAfterTouch(cache.maxSize, before, key);
          Refresh(key, content.value);
          reply := Loaded(content.value);
        }
      }
    }

    /** The loader fills the cached object in place. */
    method Refresh(key: K, row: R)
      requires cache.Valid() && ValueOf(cache.Contents(), key).Some?
      modifies cache
      ensures cache.Valid() && cache.Contents() == Write(old(cache.Contents()), key, row)
    {
      cache.IndexIsLookup(key);
      cache.Assign(key, row);
    }

    /** Only the statement runs: cache and counters stay as they are, whatever the rows are. */
    method Save(key: K, row: R, connection: bool, statement: bool, accepted: bool, ghost rows: map<K, R>)
      returns (reply: Reply<R>)
      requires cache.Valid()
      ensures CachedReply(View(), reply) ==
              Step(cache.maxSize, hasToRefresh, View(), rows, Request.Save(key, row, connection, statement, accepted))
    {
      if !connection { return Failed(NoConnection); }
      if !statement { return Failed(NoStatement); }
      reply := if accepted then Done else Failed(NotSuccessful);
    }

    method Erase(key: K, connection: bool, statement: bool, accepted: bool) returns (reply: Reply<R>)
      requires cache.Valid()
      modifies this, cache
      ensures cache.Valid()
      ensures CachedReply(View(), reply) ==
              EraseCached(cache.maxSize, old(View()), key, connection, statement, accepted)
      ensures reply == if !connection then Failed(NoConnection) else if !statement then Failed(NoStatement)
                       else if accepted then Done else Failed(NotSuccessful)
      ensures cache.Contents() == if connection then Without(old(cache.Contents()), key) else old(cache.Contents())
      ensures hitCounter == old(hitCounter) + if connection && ValueOf(old(cache.Contents()), key).Some? then 1 else 0
      ensures faultCounter == old(faultCounter) + if connection && ValueOf(old(cache.Contents()), key).None? then 1 else 0
    {
      if !connection { return Failed(NoConnection); }
      ghost var before := cache.Contents();
      var erased := cache.Erase(key);
      if !erased {
        AbsentErase(before, key);
        faultCounter := faultCounter + 1;
      } else {
        hitCounter := hitCounter + 1;
      }
      if !statement { return Failed(NoStatement); }
      if !accepted { return Failed(NotSuccessful); }
      reply := Done;
    }
  }

  lemma FoundAfterTouch<K, R>(max: nat, s: Entries<K, R>, k: K)
    requires max >= 1 && DistinctKeys(s) && ValueOf(s, k).Some?
    ensures ValueOf(Apply(max, s, Find(k)), k) == ValueOf(s, k)
  {
    TouchFacts(s, k, ValueOf(s, k).value);
  }

  lemma AbsentErase<K, R>(s: Entries<K, R>, k: K)
    requires ValueOf(s, k).None?
    ensures Without(s, k) == s
  {
    LookupIsMembership(s, k);
    WithoutAbsent(s, k);
  }
}
