/** What the cache in front of a storage has for a key, said by the requests alone: which keys were
    loaded since, and what was loaded or modified last. No cache is run to say so. */
module Staleness {
  import opened Options
  import opened Recency
  import opened CachedStore

  function RowsAfter<K(==), R>(rows: map<K, R>, rs: seq<Request<K, R>>): map<K, R> {
    if rs == [] then rows else Plain(RowsAfter(rows, rs[..|rs| - 1]), rs[|rs| - 1]).rows
  }

  /** A load makes its key the most recent one if the row is there to be loaded, or the object is
      in the cache already. */
  predicate Freshens<K(==), R>(max: nat, rows: map<K, R>, before: seq<Request<K, R>>, r: Request<K, R>)
    decreases |before|, 2
  {
    r.Load? && ((r.connection && r.statement && r.key in RowsAfter(rows, before)) || Kept(max, rows, before, r.key))
  }

  /** The other keys that became the most recent one since `k` did; None if it never did. */
  function Since<K(==), R>(max: nat, rows: map<K, R>, rs: seq<Request<K, R>>, k: K): Option<set<K>>
    decreases |rs|, 0
  {
    if rs == [] then None
    else
      var before, r := rs[..|rs| - 1], rs[|rs| - 1];
      var others := Since(max, rows, before, k);
      if !Freshens(max, rows, before, r) then others
      else if r.key == k then Some({})
      else if others.Some? then Some(others.value + {r.key})
      else None
  }

  predicate Kept<K(==), R>(max: nat, rows: map<K, R>, rs: seq<Request<K, R>>, k: K)
    decreases |rs|, 1
  {
    var others := Since(max, rows, rs, k);
    others.Some? && |others.value| < max
  }

  /** What the last load that had to ask the database got, or what the client changed it to. */
  function Held<K(==), R>(max: nat, rows: map<K, R>, rs: seq<Request<K, R>>, k: K): Option<R> {
    if rs == [] then None
    else
      var before, r := rs[..|rs| - 1], rs[|rs| - 1];
      if r.Load? && r.key == k && r.connection && r.statement && !Kept(max, rows, before, k)
      then RowOf(RowsAfter(rows, before), k)
      else if r.Modify? && r.key == k && Kept(max, rows, before, k) then Some(r.row)
      else Held(max, rows, before, k)
  }

  ghost predicate NothingErased<K, R>(rs: seq<Request<K, R>>) {
    forall i :: 0 <= i < |rs| ==> !rs[i].Erase?
  }

  /** The storage after some requests, from an empty cache and without refreshes. */
  function After<K(==), R(!new)>(max: nat, rows: map<K, R>, rs: seq<Request<K, R>>): Cached<K, R>
    requires max >= 1
  {
    if rs == [] then Cached([], 0, 0)
    else Step(max, Never(), After(max, rows, rs[..|rs| - 1]), RowsAfter(rows, rs[..|rs| - 1]), rs[|rs| - 1]).state
  }

  // ----- the keys of the cache -----------------------------------------------------------

  /** The entries without their values. */
  function Shape<K, V>(s: Entries<K, V>): Entries<K, ()> {
    if s == [] then [] else [Pair(s[0].key, ())] + Shape(s[1..])
  }

  lemma {:induction false} ShapeIndex<K, V>(s: Entries<K, V>)
    ensures |Shape(s)| == |s| && forall i :: 0 <= i < |s| ==> Shape(s)[i] == Pair(s[i].key, ())
  {
    if s != [] { ShapeIndex(s[1..]); }
  }

  lemma {:induction false} ShapeLookup<K, V>(s: Entries<K, V>, k: K)
    ensures ValueOf(Shape(s), k).Some? <==> ValueOf(s, k).Some?
  {
    if s != [] { ShapeLookup(s[1..], k); }
  }

  lemma {:induction false} ShapeWithout<K, V>(s: Entries<K, V>, k: K)
    ensures Shape(Without(s, k)) == Without(Shape(s), k)
  {
    if s != [] { ShapeWithout(s[1..], k); }
  }

  lemma ShapeAppend<K, V>(s: Entries<K, V>, p: Pair<K, V>)
    ensures Shape(s + [p]) == Shape(s) + [Pair(p.key, ())]
  {
    ShapeIndex(s);
    ShapeIndex(s + [p]);
  }

  lemma ShapeWrite<K, V>(s: Entries<K, V>, k: K, v: V)
    ensures Shape(Write(s, k, v)) == Shape(s)
  {
    WriteKeepsKeys(s, k, v);
    ShapeIndex(s);
    ShapeIndex(Write(s, k, v));
  }

  lemma ShapeStore<K, V>(max: nat, s: Entries<K, V>, k: K, v: V)
    requires max >= 1
    ensures Shape(Store(max, s, k, v)) == Store(max, Shape(s), k, ())
  {
    ShapeLookup(s, k);
    ShapeWithout(s, k);
    ShapeAppend(Without(s, k), Pair(k, v));
    var kept := if |s| == max then s[1..] else s;
    ShapeAppend(kept, Pair(k, v));
    ShapeIndex(s);
  }

  /** The requests as operations of a cache of keys. */
  function Freshenings<K(==), R>(max: nat, rows: map<K, R>, rs: seq<Request<K, R>>): seq<Op<K, ()>> {
    if rs == [] then []
    else
      var before, r := rs[..|rs| - 1], rs[|rs| - 1];
      Freshenings(max, rows, before) + if Freshens(max, rows, before, r) then [Op.Set(r.key, ())] else []
  }

  ghost predicate OnlySets<K, V>(ops: seq<Op<K, V>>) {
    forall i :: 0 <= i < |ops| ==> ops[i].Set?
  }

  lemma {:induction false} SinceIsOthersSince<K, R>(max: nat, rows: map<K, R>, rs: seq<Request<K, R>>, k: K)
    requires max >= 1
    ensures OnlySets(Freshenings(max, rows, rs))
    ensures OthersSince(max, Freshenings(max, rows, rs), k) == Since(max, rows, rs, k)
  {
    if rs != [] {
      var before, r := rs[..|rs| - 1], rs[|rs| - 1];
      SinceIsOthersSince(max, rows, before, k);
      var ops := Freshenings(max, rows, before);
      if Freshens(max, rows, before, r) {
        assert (ops + [Op.Set(r.key, ())])[..|ops|] == ops;
      } else {
        assert ops + [] == ops;
      }
    }
  }

  /** What is kept is what the cache of keys holds. */
  lemma KeptIsThere<K, R>(max: nat, rows: map<K, R>, rs: seq<Request<K, R>>, k: K)
    requires max >= 1
    ensures ValueOf(Run(max, Freshenings(max, rows, rs)), k).Some? <==> Kept(max, rows, rs, k)
  {
    var ops := Freshenings(max, rows, rs);
    SinceIsOthersSince(max, rows, rs, k);
    if Latest(ops, k).Some? {
      LeastRecentlyUsedIsExact(max, ops, k);
    } else {
      FindIsLatestOrMiss(max, ops, k);
      RunRemembers(max, ops, k);
    }
  }

  lemma LoadShape<K, R(!new)>(max: nat, s: Cached<K, R>, rows: map<K, R>, r: Request<K, R>)
    requires max >= 1 && r.Load?
    ensures var end := Step(max, Never(), s, rows, r).state.cache;
            Shape(end) ==
            if (r.connection && r.statement && r.key in rows) || ValueOf(s.cache, r.key).Some?
            then Store(max, Shape(s.cache), r.key, ()) else Shape(s.cache)
  {
    var found := ValueOf(s.cache, r.key);
    if found.Some? {
      ShapeStore(max, s.cache, r.key, found.value);
    } else if r.key in rows {
      ShapeStore(max, s.cache, r.key, rows[r.key]);
    }
  }

  /** The cache holds the keys that the cache of keys holds, in the same order. */
  lemma {:induction false} AfterHasShape<K, R(!new)>(max: nat, rows: map<K, R>, rs: seq<Request<K, R>>)
    requires max >= 1 && NothingErased(rs)
    ensures Shape(After(max, rows, rs).cache) == Run(max, Freshenings(max, rows, rs))
  {
    if rs != [] {
      var before, r := rs[..|rs| - 1], rs[|rs| - 1];
      AfterHasShape(max, rows, before);
      var s, ops := After(max, rows, before), Freshenings(max, rows, before);
      assert (ops + [Op.Set(r.key, ())])[..|ops|] == ops && ops + [] == ops;
      KeptIsThere(max, rows, before, r.key);
      ShapeLookup(s.cache, r.key);
      match r {
        case Load(_, _, _) => LoadShape(max, s, RowsAfter(rows, before), r);
        case Modify(k, row) => ShapeWrite(s.cache, k, row);
        case _ =>
      }
    }
  }

  // ----- the values of the cache ---------------------------------------------------------

  lemma {:induction false} AfterIsDistinct<K, R(!new)>(max: nat, rows: map<K, R>, rs: seq<Request<K, R>>)
    requires max >= 1
    ensures DistinctKeys(After(max, rows, rs).cache)
  {
    if rs != [] {
      AfterIsDistinct(max, rows, rs[..|rs| - 1]);
      StepKeepsDistinct(max, Never(), After(max, rows, rs[..|rs| - 1]), RowsAfter(rows, rs[..|rs| - 1]), rs[|rs| - 1]);
    }
  }

  lemma ValueAfterStep<K, R(!new)>(max: nat, s: Cached<K, R>, rows: map<K, R>, r: Request<K, R>, k: K)
    requires max >= 1 && DistinctKeys(s.cache) && !r.Erase?
    ensures var before, end := ValueOf(s.cache, k), ValueOf(Step(max, Never(), s, rows, r).state.cache, k);
            end.Some? ==>
              end == (if r.Load? && r.key == k && r.connection && r.statement && before.None? then RowOf(rows, k)
                      else if r.Modify? && r.key == k && before.Some? then Some(r.row)
                      else before)
  {
    match r {
      case Load(x, connection, statement) =>
        ValueAfter(max, s.cache, Find(x), k);
        if connection && statement && x in rows && ValueOf(s.cache, x).None? {
          ValueAfter(max, s.cache, Op.Set(x, rows[x]), k);
        }
      case Modify(x, row) => WriteAfter(s.cache, x, row, k);
      case _ =>
    }
  }

  /** The cache holds an object exactly when it is kept, and then with the value that is held. */
  lemma {:induction false} CacheIsWhatRequestsSay<K, R(!new)>(max: nat, rows: map<K, R>, rs: seq<Request<K, R>>, k: K)
    requires max >= 1 && NothingErased(rs)
    ensures ValueOf(After(max, rows, rs).cache, k) ==
            if Kept(max, rows, rs, k) then Held(max, rows, rs, k) else None
  {
    AfterHasShape(max, rows, rs);
    ShapeLookup(After(max, rows, rs).cache, k);
    KeptIsThere(max, rows, rs, k);
    if rs != [] {
      var before, r := rs[..|rs| - 1], rs[|rs| - 1];
      CacheIsWhatRequestsSay(max, rows, before, k);
      AfterIsDistinct(max, rows, before);
      ValueAfterStep(max, After(max, rows, before), RowsAfter(rows, before), r, k);
      AfterHasShape(max, rows, before);
      ShapeLookup(After(max, rows, before).cache, k);
      KeptIsThere(max, rows, before, k);
    }
  }

  // ----- whole runs ----------------------------------------------------------------------

  /** The load at `i` finds its object in the cache, with another content than the row has. */
  predicate Stale<K(==), R(==)>(max: nat, rows: map<K, R>, rs: seq<Request<K, R>>, i: nat)
    requires i < |rs|
  {
    && rs[i].Load? && rs[i].connection && rs[i].statement
    && Kept(max, rows, rs[..i], rs[i].key)
    && Held(max, rows, rs[..i], rs[i].key) != RowOf(RowsAfter(rows, rs[..i]), rs[i].key)
  }

  lemma StaleIsOverlooked<K, R(!new)>(max: nat, rows: map<K, R>, rs: seq<Request<K, R>>, i: nat)
    requires max >= 1 && NothingErased(rs) && i < |rs|
    ensures Stale(max, rows, rs, i) <==>
            Overlooked(Never(), After(max, rows, rs[..i]), RowsAfter(rows, rs[..i]), rs[i])
  {
    CacheIsWhatRequestsSay(max, rows, rs[..i], rs[i].key);
    AfterHasShape(max, rows, rs[..i]);
    ShapeLookup(After(max, rows, rs[..i]).cache, rs[i].key);
    KeptIsThere(max, rows, rs[..i], rs[i].key);
  }

  lemma {:induction false} StaleFrom<K, R(!new)>(max: nat, rows: map<K, R>, rs: seq<Request<K, R>>, i: nat)
    requires max >= 1 && NothingErased(rs) && i <= |rs|
    ensures SomethingOverlooked(max, Never(), After(max, rows, rs[..i]), RowsAfter(rows, rs[..i]), rs[i..]) <==>
            exists j: nat {:trigger Stale(max, rows, rs, j)} :: i <= j < |rs| && Stale(max, rows, rs, j)
    decreases |rs| - i
  {
    if i < |rs| {
      StaleIsOverlooked(max, rows, rs, i);
      assert rs[..i + 1][..i] == rs[..i] && rs[i..][0] == rs[i] && rs[i..][1..] == rs[i + 1..];
      StaleFrom(max, rows, rs, i + 1);
    }
  }

  /** From an empty cache and without erases: no load is answered differently than without a cache
      if and only if none is stale. The condition speaks of requests and rows only, the answer holds
      without any refresh and hence under every policy. */
  lemma TransparentIffNothingStale<K, R(!new)>(max: nat, refresh: Policy<R>, rows: map<K, R>, rs: seq<Request<K, R>>)
    requires max >= 1 && NothingErased(rs)
    ensures var current := forall i: nat {:trigger Stale(max, rows, rs, i)} :: i < |rs| ==> !Stale(max, rows, rs, i);
            && (CachedReplies(max, Never(), Cached([], 0, 0), rows, rs) == PlainReplies(rows, rs) <==> current)
            && (current ==> CachedReplies(max, refresh, Cached([], 0, 0), rows, rs) == PlainReplies(rows, rs))
  {
    assert rs[0..] == rs && rs[..0] == [];
    StaleFrom(max, rows, rs, 0);
    TransparentIffNothingOverlooked(max, Never(), Cached([], 0, 0), rows, rs);
    if forall i: nat {:trigger Stale(max, rows, rs, i)} :: i < |rs| ==> !Stale(max, rows, rs, i) {
      NeverIsTheHardest(max, refresh, Cached([], 0, 0), rows, rs);
    }
  }
}
