/** A store of rows, with and without the object cache in front of it. */
module CachedStore {
  import opened Options
  import opened Recency

  datatype Failure = NoConnection | NoStatement | NotSuccessful

  datatype Reply<+R> = Loaded(row: R) | Done | Failed(why: Failure)

  /** `connection` and `statement` say whether the guards are obtained, `accepted` whether the
      database accepts a change. Somebody else may write a row, and a client may modify the
      object it shares with the cache. */
  datatype Request<+K, +R> =
    | Load(key: K, connection: bool, statement: bool)
    | Save(key: K, row: R, connection: bool, statement: bool, accepted: bool)
    | Erase(key: K, connection: bool, statement: bool, accepted: bool)
    | WriteRow(key: K, content: Option<R>)
    | Modify(key: K, row: R)

  function RowOf<K, R>(rows: map<K, R>, k: K): Option<R> {
    if k in rows then Some(rows[k]) else None
  }

  // ----- without a cache -----------------------------------------------------------------

  datatype Answer<+K, +R> = Answer(rows: map<K, R>, reply: Reply<R>)

  function Guarded<R>(connection: bool, statement: bool, otherwise: Reply<R>): Reply<R> {
    if !connection then Failed(NoConnection) else if !statement then Failed(NoStatement) else otherwise
  }

  function Plain<K, R>(rows: map<K, R>, r: Request<K, R>): Answer<K, R> {
    match r
    case Load(k, connection, statement) =>
      Answer(rows, Guarded(connection, statement, if k in rows then Loaded(rows[k]) else Failed(NotSuccessful)))
    case Save(k, row, connection, statement, accepted) =>
      Answer(if connection && statement && accepted then rows[k := row] else rows,
             Guarded(connection, statement, if accepted then Done else Failed(NotSuccessful)))
    case Erase(k, connection, statement, accepted) =>
      Answer(if connection && statement && accepted then rows - {k} else rows,
             Guarded(connection, statement, if accepted then Done else Failed(NotSuccessful)))
    case WriteRow(k, content) => Answer(if content.Some? then rows[k := content.value] else rows - {k}, Done)
    case Modify(k, row) => Answer(rows, Done)
  }

  // ----- with the cache ------------------------------------------------------------------

  /** hasToRefresh: given what the database holds and what the cached object holds. */
  type Policy<!R> = (Option<R>, R) -> bool

  /** A policy that notices every difference. */
  ghost predicate Vigilant<R(!new)>(refresh: Policy<R>) {
    forall content, held :: content != Some(held) ==> refresh(content, held)
  }

  datatype Cached<+K, +R> = Cached(cache: Entries<K, R>, hits: nat, faults: nat)

  datatype CachedReply<+K, +R> = CachedReply(state: Cached<K, R>, reply: Reply<R>)

  function LoadCached<K(==), R>(max: nat, refresh: Policy<R>, s: Cached<K, R>, k: K, connection: bool, statement: bool,
                                content: Option<R>): CachedReply<K, R>
    requires max >= 1
  {
    var found := ValueOf(s.cache, k);
    var touched := Apply(max, s.cache, Find(k));
    if !connection || !statement then CachedReply(s.(cache := touched), Guarded(connection, statement, Done))
    else if found.None? then
      if content.None? then CachedReply(s.(cache := touched, faults := s.faults + 1), Failed(NotSuccessful))
      else CachedReply(s.(cache := Apply(max, touched, Set(k, content.value)), faults := s.faults + 1), Loaded(content.value))
    else if refresh(content, found.value) then
      if content.None? then CachedReply(s.(cache := touched, hits := s.hits + 1), Failed(NotSuccessful))
      else CachedReply(s.(cache := Write(touched, k, content.value), hits := s.hits + 1), Loaded(content.value))
    else CachedReply(s.(cache := touched, hits := s.hits + 1), Loaded(found.value))
  }

  /** The cache forgets the key as soon as the connection is obtained, whatever the database says. */
  function EraseCached<K(==), R>(max: nat, s: Cached<K, R>, k: K, connection: bool, statement: bool,
                                 accepted: bool): CachedReply<K, R>
    requires max >= 1
  {
    var reply := Guarded(connection, statement, if accepted then Done else Failed(NotSuccessful));
    if !connection then CachedReply(s, reply)
    else if ValueOf(s.cache, k).Some? then
      CachedReply(s.(cache := Apply(max, s.cache, Op.Erase(k)), hits := s.hits + 1), reply)
    else CachedReply(s.(faults := s.faults + 1), reply)
  }

  function Step<K(==), R>(max: nat, refresh: Policy<R>, s: Cached<K, R>, rows: map<K, R>, r: Request<K, R>): CachedReply<K, R>
    requires max >= 1
  {
    match r
    case Load(k, connection, statement) => LoadCached(max, refresh, s, k, connection, statement, RowOf(rows, k))
    case Save(_, _, _, _, _) => CachedReply(s, Plain(rows, r).reply)
    case Erase(k, connection, statement, accepted) => EraseCached(max, s, k, connection, statement, accepted)
    case WriteRow(_, _) => CachedReply(s, Done)
    case Modify(k, row) => CachedReply(s.(cache := Write(s.cache, k, row)), Done)
  }

  // ----- runs ----------------------------------------------------------------------------

  function PlainReplies<K, R>(rows: map<K, R>, rs: seq<Request<K, R>>): seq<Reply<R>>
    decreases |rs|
  {
    if rs == [] then [] else [Plain(rows, rs[0]).reply] + PlainReplies(Plain(rows, rs[0]).rows, rs[1..])
  }

  function CachedReplies<K(==), R>(max: nat, refresh: Policy<R>, s: Cached<K, R>, rows: map<K, R>,
                                   rs: seq<Request<K, R>>): seq<Reply<R>>
    requires max >= 1
    decreases |rs|
  {
    if rs == [] then []
    else
      var next := Step(max, refresh, s, rows, rs[0]);
      [next.reply] + CachedReplies(max, refresh, next.state, Plain(rows, rs[0]).rows, rs[1..])
  }

  function CachedEnd<K(==), R>(max: nat, refresh: Policy<R>, s: Cached<K, R>, rows: map<K, R>,
                               rs: seq<Request<K, R>>): Cached<K, R>
    requires max >= 1
    decreases |rs|
  {
    if rs == [] then s
    else CachedEnd(max, refresh, Step(max, refresh, s, rows, rs[0]).state, Plain(rows, rs[0]).rows, rs[1..])
  }

  /** The cache is invisible: with a vigilant policy every run gets the replies, contents and
      failures, of a store without a cache, whatever the size of the cache and whatever it held. */
  lemma {:induction false} CacheIsTransparent<K, R(!new)>(max: nat, refresh: Policy<R>, s: Cached<K, R>, rows: map<K, R>,
                                                          rs: seq<Request<K, R>>)
    requires max >= 1 && Vigilant(refresh)
    ensures CachedReplies(max, refresh, s, rows, rs) == PlainReplies(rows, rs)
    decreases |rs|
  {
    if rs != [] {
      CacheIsTransparent(max, refresh, Step(max, refresh, s, rows, rs[0]).state, Plain(rows, rs[0]).rows, rs[1..]);
    }
  }

  lemma RepliesOfThree<K, R>(max: nat, refresh: Policy<R>, s: Cached<K, R>, rows: map<K, R>,
                             a: Request<K, R>, b: Request<K, R>, c: Request<K, R>)
    requires max >= 1
    ensures var s1, rows1 := Step(max, refresh, s, rows, a), Plain(rows, a);
            var s2, rows2 := Step(max, refresh, s1.state, rows1.rows, b), Plain(rows1.rows, b);
            && CachedReplies(max, refresh, s, rows, [a, b, c]) ==
               [s1.reply, s2.reply, Step(max, refresh, s2.state, rows2.rows, c).reply]
            && PlainReplies(rows, [a, b, c]) == [rows1.reply, rows2.reply, Plain(rows2.rows, c).reply]
  {
    var s1, rows1 := Step(max, refresh, s, rows, a), Plain(rows, a);
    var s2, rows2 := Step(max, refresh, s1.state, rows1.rows, b), Plain(rows1.rows, b);
    assert [a, b, c][1..] == [b, c] && [b, c][1..] == [c];
    assert CachedReplies(max, refresh, s2.state, rows2.rows, [c]) == [Step(max, refresh, s2.state, rows2.rows, c).reply];
    assert PlainReplies(rows2.rows, [c]) == [Plain(rows2.rows, c).reply];
    assert CachedReplies(max, refresh, s1.state, rows1.rows, [b, c]) ==
           [s2.reply] + CachedReplies(max, refresh, s2.state, rows2.rows, [c]);
    assert PlainReplies(rows1.rows, [b, c]) == [rows2.reply] + PlainReplies(rows2.rows, [c]);
  }

  /** Vigilance is needed: a policy that overlooks one difference shows it after two loads. */
  lemma OverlookedDifferenceShows<K, R>(max: nat, refresh: Policy<R>, k: K, held: R, content: Option<R>)
    requires max >= 1 && content != Some(held) && !refresh(content, held)
    ensures var rs := [Load(k, true, true), WriteRow(k, content), Load(k, true, true)];
            CachedReplies(max, refresh, Cached([], 0, 0), map[k := held], rs) != PlainReplies(map[k := held], rs)
  {
    var rows, load, write := map[k := held], Load(k, true, true), WriteRow(k, content);
    RepliesOfThree(max, refresh, Cached([], 0, 0), rows, load, write, load);
    assert Step(max, refresh, Cached([], 0, 0), rows, load).state.cache == [Pair(k, held)];
    assert CachedReplies(max, refresh, Cached([], 0, 0), rows, [load, write, load])[2] == Loaded(held);
    assert RowOf(Plain(rows, write).rows, k) == content;
  }

  // ----- exactly when the cache is invisible ---------------------------------------------

  /** A load that is answered from the cache although the database holds something else. */
  predicate Overlooked<K(==), R(==)>(refresh: Policy<R>, s: Cached<K, R>, rows: map<K, R>, r: Request<K, R>) {
    && r.Load? && r.connection && r.statement
    && var found, content := ValueOf(s.cache, r.key), RowOf(rows, r.key);
       found.Some? && content != found && !refresh(content, found.value)
  }

  predicate SomethingOverlooked<K(==), R(==)>(max: nat, refresh: Policy<R>, s: Cached<K, R>, rows: map<K, R>,
                                              rs: seq<Request<K, R>>)
    requires max >= 1
    decreases |rs|
  {
    rs != [] &&
    (Overlooked(refresh, s, rows, rs[0]) ||
     SomethingOverlooked(max, refresh, Step(max, refresh, s, rows, rs[0]).state, Plain(rows, rs[0]).rows, rs[1..]))
  }

  lemma OneReply<K, R>(max: nat, refresh: Policy<R>, s: Cached<K, R>, rows: map<K, R>, r: Request<K, R>)
    requires max >= 1
    ensures Step(max, refresh, s, rows, r).reply == Plain(rows, r).reply <==> !Overlooked(refresh, s, rows, r)
  {
  }

  /** Run by run, the replies are those of a store without a cache if and only if no load meets a
      difference that the policy overlooks. */
  lemma {:induction false} TransparentIffNothingOverlooked<K, R>(max: nat, refresh: Policy<R>, s: Cached<K, R>,
                                                                 rows: map<K, R>, rs: seq<Request<K, R>>)
    requires max >= 1
    ensures CachedReplies(max, refresh, s, rows, rs) == PlainReplies(rows, rs) <==>
            !SomethingOverlooked(max, refresh, s, rows, rs)
    decreases |rs|
  {
    if rs != [] {
      var next, after := Step(max, refresh, s, rows, rs[0]), Plain(rows, rs[0]);
      OneReply(max, refresh, s, rows, rs[0]);
      TransparentIffNothingOverlooked(max, refresh, next.state, after.rows, rs[1..]);
      SameCons(next.reply, CachedReplies(max, refresh, next.state, after.rows, rs[1..]),
               after.reply, PlainReplies(after.rows, rs[1..]));
    }
  }

  lemma SameCons<T>(a: T, s: seq<T>, b: T, t: seq<T>)
    ensures [a] + s == [b] + t <==> a == b && s == t
  {
    if [a] + s == [b] + t {
      assert ([a] + s)[0] == a && ([a] + s)[1..] == s && ([b] + t)[0] == b && ([b] + t)[1..] == t;
    }
  }

  // ----- the policy that never refreshes -------------------------------------------------

  function Never<R(!new)>(): Policy<R> {
    (content, held) => false
  }

  // ----- a cache that holds what the database holds --------------------------------------

  /** Whatever the cache holds, the database holds too. */
  ghost predicate Coherent<K(!new), R>(s: Cached<K, R>, rows: map<K, R>) {
    DistinctKeys(s.cache) && forall k {:trigger ValueOf(s.cache, k)} :: ValueOf(s.cache, k).Some? ==>
      RowOf(rows, k) == ValueOf(s.cache, k)
  }

  /** After an operation of the cache a key has its value, or a new one, or none. */
  lemma ValueAfter<K, V>(max: nat, s: Entries<K, V>, op: Op<K, V>, k: K)
    requires max >= 1 && DistinctKeys(s)
    ensures DistinctKeys(Apply(max, s, op))
    ensures var after := ValueOf(Apply(max, s, op), k);
            after.Some? ==> after == if op.Set? && op.key == k then Some(op.value) else ValueOf(s, k)
  {
    match op {
      case Find(x) => if ValueOf(s, x).Some? { TouchFacts(s, x, ValueOf(s, x).value); }
      case Set(x, v) =>
        if ValueOf(s, x).Some? {
          TouchFacts(s, x, v);
        } else {
          var kept := if |s| == max then s[1..] else s;
          if |s| == max { EvictFacts(s, k); EvictFacts(s, x); }
          LookupIsMembership(s, x);
          AppendDistinct(kept, Pair(x, v));
          ValueOfAppend(kept, Pair(x, v), k);
        }
      case Erase(x) =>
        WithoutStaysDistinct(s, x);
        ValueOfWithout(s, k, x);
    }
  }

  lemma {:induction false} WriteSame<K, V>(s: Entries<K, V>, k: K, v: V)
    requires ValueOf(s, k) == Some(v) && DistinctKeys(s)
    ensures Write(s, k, v) == s
  {
    if s[0].key == k {
      FirstIsNotInRest(s);
      LookupIsMembership(s[1..], k);
      WriteNothing(s[1..], k, v);
    } else {
      WriteSame(s[1..], k, v);
    }
  }

  lemma {:induction false} WriteNothing<K, V>(s: Entries<K, V>, k: K, v: V)
    requires ValueOf(s, k).None?
    ensures Write(s, k, v) == s
  {
    if s != [] { WriteNothing(s[1..], k, v); }
  }

  lemma StaysCoherent<K(!new), R>(max: nat, s: Cached<K, R>, rows: map<K, R>, op: Op<K, R>, s': Cached<K, R>)
    requires max >= 1 && Coherent(s, rows) && (op.Set? ==> RowOf(rows, op.key) == Some(op.value))
    requires s'.cache == Apply(max, s.cache, op)
    ensures Coherent(s', rows)
  {
    forall k | ValueOf(s'.cache, k).Some? ensures RowOf(rows, k) == ValueOf(s'.cache, k) {
      ValueAfter(max, s.cache, op, k);
    }
    ValueAfter(max, s.cache, op, op.key);
  }

  lemma LoadStaysCoherent<K(!new), R>(max: nat, refresh: Policy<R>, s: Cached<K, R>, rows: map<K, R>, k: K)
    requires max >= 1 && Coherent(s, rows)
    ensures Coherent(LoadCached(max, refresh, s, k, true, true, RowOf(rows, k)).state, rows)
  {
    var found, content := ValueOf(s.cache, k), RowOf(rows, k);
    var touched := s.(cache := Apply(max, s.cache, Find(k)));
    var end := LoadCached(max, refresh, s, k, true, true, content).state;
    StaysCoherent(max, s, rows, Find(k), touched);
    if found.Some? {
      TouchFacts(s.cache, k, found.value);
      WriteSame(touched.cache, k, found.value);
      assert end.cache == touched.cache;
    } else if content.Some? {
      StaysCoherent(max, touched, rows, Op.Set(k, content.value), end);
    }
  }

  lemma EraseStaysCoherent<K(!new), R>(max: nat, s: Cached<K, R>, rows: map<K, R>, k: K, statement: bool, accepted: bool)
    requires max >= 1 && Coherent(s, rows)
    ensures var end := EraseCached(max, s, k, true, statement, accepted).state;
            Coherent(end, rows) && Coherent(end, rows - {k})
  {
    var end := EraseCached(max, s, k, true, statement, accepted).state;
    forall x ensures ValueOf(end.cache, x) == if x == k then None else ValueOf(s.cache, x) {
      ValueOfWithout(s.cache, x, k);
    }
    WithoutStaysDistinct(s.cache, k);
  }

  /** The cache has nothing for the key, or this. */
  predicate HoldsAtMost<K(==), R(==)>(s: Cached<K, R>, k: K, content: Option<R>) {
    ValueOf(s.cache, k).None? || ValueOf(s.cache, k) == content
  }

  predicate CarriedOut<K, R>(r: Request<K, R>)
    requires r.Save? || r.Erase?
  {
    r.connection && r.statement && r.accepted
  }

  /** What keeps a coherent cache coherent: a change of a row must find nothing else in the cache,
      a change of an object must agree with the row. */
  predicate Keeps<K(==), R(==)>(s: Cached<K, R>, rows: map<K, R>, r: Request<K, R>) {
    match r
    case Save(k, row, _, _, _) => CarriedOut(r) ==> HoldsAtMost(s, k, Some(row))
    case WriteRow(k, content) => HoldsAtMost(s, k, content)
    case Modify(k, row) => ValueOf(s.cache, k).None? || RowOf(rows, k) == Some(row)
    case _ => true
  }

  /** One row changes, the cache does not. */
  lemma RowChangeKeeps<K(!new), R>(s: Cached<K, R>, rows: map<K, R>, k: K, rows': map<K, R>)
    requires Coherent(s, rows) && forall x :: x != k ==> RowOf(rows', x) == RowOf(rows, x)
    ensures Coherent(s, rows') <==> HoldsAtMost(s, k, RowOf(rows', k))
  {
  }

  lemma {:induction false} WriteAfter<K, V>(s: Entries<K, V>, k: K, v: V, x: K)
    ensures ValueOf(Write(s, k, v), x) == if x == k && ValueOf(s, k).Some? then Some(v) else ValueOf(s, x)
  {
    if s != [] { WriteAfter(s[1..], k, v, x); }
  }

  lemma {:induction false} WriteKeepsKeys<K, V>(s: Entries<K, V>, k: K, v: V)
    ensures |Write(s, k, v)| == |s| && forall i :: 0 <= i < |s| ==> Write(s, k, v)[i].key == s[i].key
  {
    if s != [] { WriteKeepsKeys(s[1..], k, v); }
  }

  /** One cached object changes, the rows do not. */
  lemma ObjectChangeKeeps<K(!new), R>(s: Cached<K, R>, rows: map<K, R>, k: K, row: R)
    requires Coherent(s, rows)
    ensures Coherent(s.(cache := Write(s.cache, k, row)), rows) <==> ValueOf(s.cache, k).None? || RowOf(rows, k) == Some(row)
  {
    var after := Write(s.cache, k, row);
    WriteKeepsKeys(s.cache, k, row);
    forall x ensures ValueOf(after, x) == if x == k && ValueOf(s.cache, k).Some? then Some(row) else ValueOf(s.cache, x) {
      WriteAfter(s.cache, k, row, x);
    }
  }

  /** A coherent cache stays coherent after a request if and only if the request keeps it. */
  lemma StepStaysCoherent<K(!new), R>(max: nat, refresh: Policy<R>, s: Cached<K, R>, rows: map<K, R>, r: Request<K, R>)
    requires max >= 1 && Coherent(s, rows)
    ensures Coherent(Step(max, refresh, s, rows, r).state, Plain(rows, r).rows) <==> Keeps(s, rows, r)
  {
    var end := Step(max, refresh, s, rows, r).state;
    match r {
      case Load(k, connection, statement) =>
        if connection && statement { LoadStaysCoherent(max, refresh, s, rows, k); } else { StaysCoherent(max, s, rows, Find(k), end); }
      case Erase(k, connection, statement, accepted) => if connection { EraseStaysCoherent(max, s, rows, k, statement, accepted); }
      case Save(k, _, _, _, _) => RowChangeKeeps(s, rows, k, Plain(rows, r).rows);
      case WriteRow(k, _) => RowChangeKeeps(s, rows, k, Plain(rows, r).rows);
      case Modify(k, row) => ObjectChangeKeeps(s, rows, k, row);
    }
  }

  predicate LoadAgrees<K(==), R(==,!new)>(s: Cached<K, R>, rows: map<K, R>, k: K) {
    !Overlooked(Never(), s, rows, Load(k, true, true))
  }

  /** A cache is coherent exactly when no load could tell it from the database. */
  lemma CoherentIffLoadsAgree<K(!new), R(!new)>(s: Cached<K, R>, rows: map<K, R>)
    requires DistinctKeys(s.cache)
    ensures Coherent(s, rows) <==> forall k :: LoadAgrees(s, rows, k)
  {
    forall k ensures LoadAgrees(s, rows, k) <==> (ValueOf(s.cache, k).Some? ==> RowOf(rows, k) == ValueOf(s.cache, k)) {}
    if forall k :: LoadAgrees(s, rows, k) {
      forall k ensures ValueOf(s.cache, k).Some? ==> RowOf(rows, k) == ValueOf(s.cache, k) {
        assert LoadAgrees(s, rows, k);
      }
    }
  }

  /** A load that nothing is overlooked for leaves the same cache under every policy. */
  lemma SameWithoutDifference<K, R(!new)>(max: nat, refresh: Policy<R>, s: Cached<K, R>, rows: map<K, R>, r: Request<K, R>)
    requires max >= 1 && DistinctKeys(s.cache) && !Overlooked(Never<R>(), s, rows, r)
    ensures Step(max, refresh, s, rows, r) == Step(max, Never<R>(), s, rows, r)
  {
    if r.Load? && r.connection && r.statement && ValueOf(s.cache, r.key).Some? {
      var found := ValueOf(s.cache, r.key).value;
      TouchFacts(s.cache, r.key, found);
      WriteSame(Touch(s.cache, r.key, found), r.key, found);
    }
  }

  lemma StepKeepsDistinct<K, R>(max: nat, refresh: Policy<R>, s: Cached<K, R>, rows: map<K, R>, r: Request<K, R>)
    requires max >= 1 && DistinctKeys(s.cache)
    ensures DistinctKeys(Step(max, refresh, s, rows, r).state.cache)
  {
    match r {
      case Load(k, _, _) =>
        ValueAfter(max, s.cache, Find(k), k);
        var touched, content := Apply(max, s.cache, Find(k)), RowOf(rows, k);
        if content.Some? {
          ValueAfter(max, touched, Op.Set(k, content.value), k);
          WriteKeepsKeys(touched, k, content.value);
        }
      case Erase(k, _, _, _) => WithoutStaysDistinct(s.cache, k);
      case Modify(k, row) => WriteKeepsKeys(s.cache, k, row);
      case _ =>
    }
  }

  /** Refreshing never hurts: a run in which the cache is invisible without any refresh is one in
      which it is invisible under every policy. */
  lemma {:induction false} NeverIsTheHardest<K, R(!new)>(max: nat, refresh: Policy<R>, s: Cached<K, R>, rows: map<K, R>,
                                                         rs: seq<Request<K, R>>)
    requires max >= 1 && DistinctKeys(s.cache)
    requires CachedReplies(max, Never<R>(), s, rows, rs) == PlainReplies(rows, rs)
    ensures CachedReplies(max, refresh, s, rows, rs) == PlainReplies(rows, rs)
    decreases |rs|
  {
    if rs != [] {
      var next, after := Step(max, Never<R>(), s, rows, rs[0]), Plain(rows, rs[0]);
      SameCons(next.reply, CachedReplies(max, Never<R>(), next.state, after.rows, rs[1..]),
               after.reply, PlainReplies(after.rows, rs[1..]));
      OneReply(max, Never<R>(), s, rows, rs[0]);
      SameWithoutDifference(max, refresh, s, rows, rs[0]);
      StepKeepsDistinct(max, Never<R>(), s, rows, rs[0]);
      NeverIsTheHardest(max, refresh, next.state, after.rows, rs[1..]);
    }
  }

  // ----- runs that stay coherent ---------------------------------------------------------

  ghost predicate KeepsThroughout<K(!new), R>(max: nat, refresh: Policy<R>, s: Cached<K, R>, rows: map<K, R>,
                                              rs: seq<Request<K, R>>)
    requires max >= 1
    decreases |rs|
  {
    rs != [] ==>
      Keeps(s, rows, rs[0]) &&
      KeepsThroughout(max, refresh, Step(max, refresh, s, rows, rs[0]).state, Plain(rows, rs[0]).rows, rs[1..])
  }

  ghost predicate CoherentThroughout<K(!new), R>(max: nat, refresh: Policy<R>, s: Cached<K, R>, rows: map<K, R>,
                                                 rs: seq<Request<K, R>>)
    requires max >= 1
    decreases |rs|
  {
    && Coherent(s, rows)
    && (rs != [] ==>
          CoherentThroughout(max, refresh, Step(max, refresh, s, rows, rs[0]).state, Plain(rows, rs[0]).rows, rs[1..]))
  }

  /** A run stays coherent if and only if each of its requests keeps the cache coherent; then the
      cache is invisible under every policy. Loads and erases always do; a save that is carried out
      does if and only if the cache has nothing for the key, or the saved row. */
  lemma {:induction false} CoherentRunsNeedNoRefresh<K(!new), R>(max: nat, refresh: Policy<R>, s: Cached<K, R>,
                                                                 rows: map<K, R>, rs: seq<Request<K, R>>)
    requires max >= 1 && Coherent(s, rows)
    ensures CoherentThroughout(max, refresh, s, rows, rs) <==> KeepsThroughout(max, refresh, s, rows, rs)
    ensures KeepsThroughout(max, refresh, s, rows, rs) ==>
            CachedReplies(max, refresh, s, rows, rs) == PlainReplies(rows, rs)
    decreases |rs|
  {
    if rs != [] {
      StepStaysCoherent(max, refresh, s, rows, rs[0]);
      OneReply(max, refresh, s, rows, rs[0]);
      if Keeps(s, rows, rs[0]) {
        CoherentRunsNeedNoRefresh(max, refresh, Step(max, refresh, s, rows, rs[0]).state, Plain(rows, rs[0]).rows, rs[1..]);
      }
    }
  }

  /** Loads, erases and saves that are not carried out, and changes of an object that are saved at
      once. */
  predicate ReadModifyWrite<K(==), R(==)>(rs: seq<Request<K, R>>) {
    if rs == [] then true
    else if rs[0].Modify? then
      |rs| >= 2 && rs[1] == Save(rs[0].key, rs[0].row, true, true, true) && ReadModifyWrite(rs[2..])
    else (rs[0].Load? || rs[0].Erase? || (rs[0].Save? && !CarriedOut(rs[0]))) && ReadModifyWrite(rs[1..])
  }

  lemma ModifyAndSave<K(!new), R>(max: nat, refresh: Policy<R>, s: Cached<K, R>, rows: map<K, R>, k: K, row: R)
    requires max >= 1 && Coherent(s, rows)
    ensures Coherent(s.(cache := Write(s.cache, k, row)), rows[k := row])
  {
    var after := Write(s.cache, k, row);
    WriteKeepsKeys(s.cache, k, row);
    forall x ensures ValueOf(after, x) == if x == k && ValueOf(s.cache, k).Some? then Some(row) else ValueOf(s.cache, x) {
      WriteAfter(s.cache, k, row, x);
    }
  }

  /** Clients that save what they change in the object they loaded never see the cache, whatever
      the policy. */
  lemma {:induction false} ReadModifyWriteNeedsNoRefresh<K(!new), R>(max: nat, refresh: Policy<R>, s: Cached<K, R>,
                                                                     rows: map<K, R>, rs: seq<Request<K, R>>)
    requires max >= 1 && Coherent(s, rows) && ReadModifyWrite(rs)
    ensures CachedReplies(max, refresh, s, rows, rs) == PlainReplies(rows, rs)
    decreases |rs|
  {
    if rs != [] {
      var next, after := Step(max, refresh, s, rows, rs[0]).state, Plain(rows, rs[0]).rows;
      OneReply(max, refresh, s, rows, rs[0]);
      if rs[0].Modify? {
        OneReply(max, refresh, next, after, rs[1]);
        ModifyAndSave(max, refresh, s, rows, rs[0].key, rs[0].row);
        assert rs[1..][0] == rs[1] && rs[1..][1..] == rs[2..];
        ReadModifyWriteNeedsNoRefresh(max, refresh, next, rows[rs[0].key := rs[0].row], rs[2..]);
      } else {
        StepStaysCoherent(max, refresh, s, rows, rs[0]);
        ReadModifyWriteNeedsNoRefresh(max, refresh, next, after, rs[1..]);
      }
    }
  }

  /** A save leaves the cached object alone: loaded again, the key still has what it had before. */
  lemma SaveLeavesStaleObject<K, R(!new)>(max: nat, k: K, held: R, row: R)
    requires max >= 1
    ensures var rs := [Load(k, true, true), Save(k, row, true, true, true), Load(k, true, true)];
            && CachedReplies(max, Never(), Cached([], 0, 0), map[k := held], rs) == [Loaded(held), Done, Loaded(held)]
            && PlainReplies(map[k := held], rs) == [Loaded(held), Done, Loaded(row)]
  {
    var rows, load, save := map[k := held], Load(k, true, true), Save(k, row, true, true, true);
    RepliesOfThree(max, Never(), Cached([], 0, 0), rows, load, save, load);
    assert Step(max, Never(), Cached([], 0, 0), rows, load).state.cache == [Pair(k, held)];
  }

  // ----- the counters --------------------------------------------------------------------

  /** The requests that ask the cache: loads with both guards, erases with a connection. */
  function Asks<K, R>(r: Request<K, R>): bool {
    (r.Load? && r.connection && r.statement) || (r.Erase? && r.connection)
  }

  function Asked<K, R>(rs: seq<Request<K, R>>): nat {
    if rs == [] then 0 else (if Asks(rs[0]) then 1 else 0) + Asked(rs[1..])
  }

  /** Every request that asks the cache is counted once, as a hit or as a fault. */
  lemma {:induction false} CountersAddUp<K, R>(max: nat, refresh: Policy<R>, s: Cached<K, R>, rows: map<K, R>,
                                               rs: seq<Request<K, R>>)
    requires max >= 1
    ensures var end := CachedEnd(max, refresh, s, rows, rs);
            end.hits + end.faults == s.hits + s.faults + Asked(rs)
    decreases |rs|
  {
    if rs != [] {
      CountersAddUp(max, refresh, Step(max, refresh, s, rows, rs[0]).state, Plain(rows, rs[0]).rows, rs[1..]);
    }
  }

  /** The requests that find their key in the cache. */
  function Found<K(==), R>(max: nat, refresh: Policy<R>, s: Cached<K, R>, rows: map<K, R>, rs: seq<Request<K, R>>): nat
    requires max >= 1
    decreases |rs|
  {
    if rs == [] then 0
    else (if Asks(rs[0]) && ValueOf(s.cache, rs[0].key).Some? then 1 else 0)
         + Found(max, refresh, Step(max, refresh, s, rows, rs[0]).state, Plain(rows, rs[0]).rows, rs[1..])
  }

  /** A hit is a request that asks the cache and finds its key there, a fault one that does not. */
  lemma {:induction false} HitsAreFound<K, R>(max: nat, refresh: Policy<R>, s: Cached<K, R>, rows: map<K, R>,
                                              rs: seq<Request<K, R>>)
    requires max >= 1
    ensures var end := CachedEnd(max, refresh, s, rows, rs);
            && end.hits == s.hits + Found(max, refresh, s, rows, rs)
            && end.faults == s.faults + Asked(rs) - Found(max, refresh, s, rows, rs)
    decreases |rs|
  {
    if rs != [] {
      HitsAreFound(max, refresh, Step(max, refresh, s, rows, rs[0]).state, Plain(rows, rs[0]).rows, rs[1..]);
    }
  }

  /** What the database does: a row changes only by a save or an erase that gets both guards and is
      accepted, or by somebody else; and a load that gets both guards sees the row. */
  lemma DatabaseMeans<K, R>(rows: map<K, R>, r: Request<K, R>, k: K)
    ensures var after := RowOf(Plain(rows, r).rows, k);
            if r.Save? && r.key == k && r.connection && r.statement && r.accepted then after == Some(r.row)
            else if r.Erase? && r.key == k && r.connection && r.statement && r.accepted then after == None
            else if r.WriteRow? && r.key == k then after == r.content
            else after == RowOf(rows, k)
    ensures r.Load? || r.Save? || r.Erase? ==>
              && (Plain(rows, r).reply == Failed(NoConnection) <==> !r.connection)
              && (Plain(rows, r).reply == Failed(NoStatement) <==> r.connection && !r.statement)
    ensures r.Load? && r.connection && r.statement ==>
              Plain(rows, r).reply == match RowOf(rows, r.key) case Some(row) => Loaded(row) case None => Failed(NotSuccessful)
    ensures (r.Save? || r.Erase?) && r.connection && r.statement ==>
              Plain(rows, r).reply == if r.accepted then Done else Failed(NotSuccessful)
  {
  }
}
