/** The recency list behind a least-recently-used cache, and what it remembers of a run. */
module Recency {
  import opened Options

  datatype Pair<+K, +V> = Pair(key: K, value: V)

  /** Oldest access first. */
  type Entries<+K, +V> = seq<Pair<K, V>>

  datatype Op<+K, +V> = Find(key: K) | Set(key: K, value: V) | Erase(key: K)

  function Keys<K, V>(s: Entries<K, V>): set<K> {
    set i | 0 <= i < |s| :: s[i].key
  }

  ghost predicate DistinctKeys<K, V>(s: Entries<K, V>) {
    forall i, j :: 0 <= i < j < |s| ==> s[i].key != s[j].key
  }

  function Without<K(==), V>(s: Entries<K, V>, k: K): Entries<K, V> {
    if s == [] then [] else if s[0].key == k then Without(s[1..], k) else [s[0]] + Without(s[1..], k)
  }

  function ValueOf<K(==), V>(s: Entries<K, V>, k: K): Option<V> {
    if s == [] then None else if s[0].key == k then Some(s[0].value) else ValueOf(s[1..], k)
  }

  /** The value of `k` is replaced where it stands. */
  function Write<K(==), V>(s: Entries<K, V>, k: K, v: V): Entries<K, V> {
    if s == [] then []
    else [if s[0].key == k then Pair(k, v) else s[0]] + Write(s[1..], k, v)
  }

  function Touch<K(==), V>(s: Entries<K, V>, k: K, v: V): Entries<K, V> {
    Without(s, k) + [Pair(k, v)]
  }

  function Store<K(==), V>(max: nat, s: Entries<K, V>, k: K, v: V): Entries<K, V>
    requires max >= 1
  {
    if ValueOf(s, k).Some? then Touch(s, k, v)
    else (if |s| == max then s[1..] else s) + [Pair(k, v)]
  }

  function Apply<K(==), V>(max: nat, s: Entries<K, V>, op: Op<K, V>): Entries<K, V>
    requires max >= 1
  {
    match op
    case Find(k) => if ValueOf(s, k).Some? then Touch(s, k, ValueOf(s, k).value) else s
    case Set(k, v) => Store(max, s, k, v)
    case Erase(k) => Without(s, k)
  }

  /** The cache after a run of operations on an empty cache. */
  function Run<K(==), V>(max: nat, ops: seq<Op<K, V>>): Entries<K, V>
    requires max >= 1
  {
    if ops == [] then [] else Apply(max, Run(max, ops[..|ops| - 1]), ops[|ops| - 1])
  }

  // ----- what a run says about a key -----------------------------------------------------

  /** The value that was set last for `k`, unless `k` has been erased since. */
  function Latest<K(==), V>(ops: seq<Op<K, V>>, k: K): Option<V> {
    if ops == [] then None
    else
      var op := ops[|ops| - 1];
      if op.Set? && op.key == k then Some(op.value)
      else if op.Erase? && op.key == k then None
      else Latest(ops[..|ops| - 1], k)
  }

  /** A key is touched when it is set, or found with a hit. */
  predicate Touches<K(==), V>(max: nat, before: seq<Op<K, V>>, op: Op<K, V>)
    requires max >= 1
  {
    op.Set? || (op.Find? && ValueOf(Run(max, before), op.key).Some?)
  }

  /** The distinct other keys touched since the last touch of `k`; None if there was no touch
      since the last erase. */
  function OthersSince<K(==), V>(max: nat, ops: seq<Op<K, V>>, k: K): Option<set<K>>
    requires max >= 1
  {
    if ops == [] then None
    else
      var before, op := ops[..|ops| - 1], ops[|ops| - 1];
      var others := OthersSince(max, before, k);
      if op.Erase? then (if op.key == k then None else others)
      else if !Touches(max, before, op) then others
      else if op.key == k then Some({})
      else if others.Some? then Some(others.value + {op.key})
      else None
  }

  ghost predicate EraseFree<K, V>(ops: seq<Op<K, V>>) {
    forall i :: 0 <= i < |ops| ==> !ops[i].Erase?
  }

  // ----- facts about the list ------------------------------------------------------------

  /** The keys accessed after `k`. */
  function KeysAfter<K(==), V>(s: Entries<K, V>, k: K): set<K> {
    if s == [] then {} else if s[0].key == k then Keys(s[1..]) else KeysAfter(s[1..], k)
  }

  lemma KeysOfRest<K, V>(s: Entries<K, V>)
    requires s != []
    ensures Keys(s) == {s[0].key} + Keys(s[1..])
  {
    forall k | k in Keys(s) ensures k in {s[0].key} + Keys(s[1..]) {
      var i :| 0 <= i < |s| && s[i].key == k;
      if i > 0 { assert s[1..][i - 1].key == k; }
    }
    forall k | k in Keys(s[1..]) ensures k in Keys(s) {
      var i :| 0 <= i < |s[1..]| && s[1..][i].key == k;
      assert s[i + 1].key == k;
    }
  }

  lemma KeysOfAppend<K, V>(s: Entries<K, V>, t: Entries<K, V>)
    ensures Keys(s + t) == Keys(s) + Keys(t)
  {
    var r := s + t;
    forall k | k in Keys(s) ensures k in Keys(r) {
      var i :| 0 <= i < |s| && s[i].key == k;
      assert r[i].key == k;
    }
    forall k | k in Keys(t) ensures k in Keys(r) {
      var i :| 0 <= i < |t| && t[i].key == k;
      assert r[|s| + i].key == k;
    }
  }

  lemma KeysOfOne<K, V>(p: Pair<K, V>)
    ensures Keys([p]) == {p.key}
  {
    assert [p][0].key == p.key;
  }

  lemma {:induction false} LookupIsMembership<K, V>(s: Entries<K, V>, k: K)
    ensures ValueOf(s, k).Some? <==> k in Keys(s)
  {
    if s != [] {
      KeysOfRest(s);
      LookupIsMembership(s[1..], k);
    }
  }

  lemma {:induction false} WithoutKeys<K, V>(s: Entries<K, V>, k: K)
    ensures Keys(Without(s, k)) == Keys(s) - {k}
  {
    if s != [] {
      KeysOfRest(s);
      WithoutKeys(s[1..], k);
      if s[0].key != k { KeysOfRest([s[0]] + Without(s[1..], k)); }
    }
  }

  lemma {:induction false} WithoutStaysDistinct<K, V>(s: Entries<K, V>, k: K)
    requires DistinctKeys(s)
    ensures DistinctKeys(Without(s, k)) && |Without(s, k)| == |s| - if k in Keys(s) then 1 else 0
  {
    if s != [] {
      KeysOfRest(s);
      WithoutStaysDistinct(s[1..], k);
      FirstIsNotInRest(s);
      if s[0].key != k {
        WithoutKeys(s[1..], k);
        PrependDistinct(s[0], Without(s[1..], k));
      }
    }
  }

  lemma FirstIsNotInRest<K, V>(s: Entries<K, V>)
    requires DistinctKeys(s) && s != []
    ensures s[0].key !in Keys(s[1..]) && DistinctKeys(s[1..])
  {
  }

  lemma PrependDistinct<K, V>(p: Pair<K, V>, s: Entries<K, V>)
    requires DistinctKeys(s) && p.key !in Keys(s)
    ensures DistinctKeys([p] + s)
  {
  }

  lemma AppendDistinct<K, V>(s: Entries<K, V>, p: Pair<K, V>)
    requires DistinctKeys(s) && p.key !in Keys(s)
    ensures DistinctKeys(s + [p])
  {
  }

  lemma {:induction false} DistinctSize<K, V>(s: Entries<K, V>)
    requires DistinctKeys(s)
    ensures |Keys(s)| == |s|
  {
    if s != [] {
      KeysOfRest(s);
      FirstIsNotInRest(s);
      DistinctSize(s[1..]);
    }
  }

  lemma {:induction false} ValueOfWithout<K, V>(s: Entries<K, V>, k: K, x: K)
    ensures ValueOf(Without(s, x), k) == if k == x then None else ValueOf(s, k)
  {
    if s != [] { ValueOfWithout(s[1..], k, x); }
  }

  lemma {:induction false} ValueOfAppend<K, V>(s: Entries<K, V>, p: Pair<K, V>, k: K)
    ensures ValueOf(s + [p], k) == if ValueOf(s, k).Some? then ValueOf(s, k) else if p.key == k then Some(p.value) else None
  {
    if s != [] {
      assert (s + [p])[1..] == s[1..] + [p];
      ValueOfAppend(s[1..], p, k);
    }
  }

  lemma {:induction false} KeysAfterWithout<K, V>(s: Entries<K, V>, k: K, x: K)
    requires DistinctKeys(s) && x != k
    ensures KeysAfter(Without(s, x), k) == KeysAfter(s, k) - {x}
  {
    if s != [] {
      KeysAfterWithout(s[1..], k, x);
      if s[0].key == k { WithoutKeys(s[1..], x); }
    }
  }

  lemma {:induction false} KeysAfterAppend<K, V>(s: Entries<K, V>, p: Pair<K, V>, k: K)
    requires k in Keys(s)
    ensures KeysAfter(s + [p], k) == KeysAfter(s, k) + {p.key}
  {
    KeysOfRest(s);
    assert (s + [p])[1..] == s[1..] + [p];
    if s[0].key == k {
      KeysOfAppend(s[1..], [p]);
      KeysOfOne(p);
    } else {
      KeysAfterAppend(s[1..], p, k);
    }
  }

  lemma {:induction false} KeysAfterLast<K, V>(s: Entries<K, V>, p: Pair<K, V>)
    requires p.key !in Keys(s)
    ensures KeysAfter(s + [p], p.key) == {}
  {
    if s != [] {
      KeysOfRest(s);
      assert (s + [p])[1..] == s[1..] + [p];
      KeysAfterLast(s[1..], p);
    }
  }

  lemma {:induction false} KeysAfterAreOthers<K, V>(s: Entries<K, V>, k: K)
    requires DistinctKeys(s)
    ensures KeysAfter(s, k) <= Keys(s) - {k}
  {
    if s != [] {
      KeysOfRest(s);
      FirstIsNotInRest(s);
      KeysAfterAreOthers(s[1..], k);
    }
  }

  // ----- whole runs ----------------------------------------------------------------------

  lemma TouchFacts<K, V>(s: Entries<K, V>, x: K, v: V)
    requires DistinctKeys(s)
    ensures var t := Touch(s, x, v);
            && DistinctKeys(t) && Keys(t) == Keys(s) + {x}
            && |t| == (if x in Keys(s) then |s| else |s| + 1)
            && KeysAfter(t, x) == {}
            && (forall k {:trigger ValueOf(t, k)} :: ValueOf(t, k) == if k == x then Some(v) else ValueOf(s, k))
  {
    var rest, p := Without(s, x), Pair(x, v);
    WithoutKeys(s, x);
    WithoutStaysDistinct(s, x);
    AppendDistinct(rest, p);
    KeysOfAppend(rest, [p]);
    KeysOfOne(p);
    KeysAfterLast(rest, p);
    forall k ensures ValueOf(Touch(s, x, v), k) == if k == x then Some(v) else ValueOf(s, k) {
      ValueOfWithout(s, k, x);
      ValueOfAppend(rest, p, k);
    }
  }

  lemma TouchAfter<K, V>(s: Entries<K, V>, x: K, v: V, k: K)
    requires DistinctKeys(s) && k in Keys(s) && k != x
    ensures KeysAfter(Touch(s, x, v), k) == KeysAfter(s, k) + {x}
  {
    WithoutKeys(s, x);
    KeysAfterWithout(s, k, x);
    KeysAfterAppend(Without(s, x), Pair(x, v), k);
  }

  lemma {:induction false} WithoutAbsent<K, V>(s: Entries<K, V>, k: K)
    requires k !in Keys(s)
    ensures Without(s, k) == s
  {
    if s != [] {
      KeysOfRest(s);
      WithoutAbsent(s[1..], k);
    }
  }

  /** Making room: only the oldest entry goes, and nothing was accessed before it. */
  lemma EvictFacts<K, V>(s: Entries<K, V>, k: K)
    requires DistinctKeys(s) && s != []
    ensures DistinctKeys(s[1..]) && |s[1..]| == |s| - 1 && Keys(s[1..]) == Keys(s) - {s[0].key}
    ensures k != s[0].key ==> KeysAfter(s[1..], k) == KeysAfter(s, k) && ValueOf(s[1..], k) == ValueOf(s, k)
    ensures k == s[0].key ==> KeysAfter(s, k) == Keys(s) - {k} && ValueOf(s[1..], k) == None
  {
    KeysOfRest(s);
    FirstIsNotInRest(s);
    LookupIsMembership(s[1..], s[0].key);
  }

  /** What the list knows about a key agrees with the run. */
  ghost predicate Remembers<K, V>(max: nat, ops: seq<Op<K, V>>, k: K)
    requires max >= 1
  {
    var s, others := Run(max, ops), OthersSince(max, ops, k);
    && DistinctKeys(s) && |s| <= max
    && (k in Keys(s) ==> others.Some? && KeysAfter(s, k) <= others.value && ValueOf(s, k) == Latest(ops, k))
    && (k in Keys(s) && EraseFree(ops) ==> KeysAfter(s, k) == others.value)
    && (k !in Keys(s) && others.Some? ==> |others.value| >= max)
    && (others.Some? <==> Latest(ops, k).Some?)
  }

  lemma RememberTouch<K, V>(max: nat, ops: seq<Op<K, V>>, k: K, x: K, v: V)
    requires max >= 1 && ops != [] && Remembers(max, ops[..|ops| - 1], k) && Touches(max, ops[..|ops| - 1], ops[|ops| - 1])
    requires var s := Run(max, ops[..|ops| - 1]);
             ops[|ops| - 1].key == x && Run(max, ops) == Touch(s, x, v) && (x in Keys(s) || |s| < max)
    requires Latest(ops, x) == Some(v) && (k != x ==> Latest(ops, k) == Latest(ops[..|ops| - 1], k))
    ensures Remembers(max, ops, k)
  {
    var s := Run(max, ops[..|ops| - 1]);
    TouchFacts(s, x, v);
    var now := ValueOf(Touch(s, x, v), k);
    var before := OthersSince(max, ops[..|ops| - 1], k);
    assert OthersSince(max, ops, k) ==
           if k == x then Some({}) else if before.Some? then Some(before.value + {x}) else None;
    if k != x {
      if EraseFree(ops) { assert EraseFree(ops[..|ops| - 1]); }
      if k in Keys(s) {
        TouchAfter(s, x, v, k);
      } else if before.Some? {
        Monotone(before.value, before.value + {x});
      }
    }
  }

  lemma Monotone<T>(a: set<T>, b: set<T>)
    requires a <= b
    ensures |a| <= |b|
  {
    assert b == a + (b - a);
  }

  lemma RememberEviction<K, V>(max: nat, ops: seq<Op<K, V>>, k: K)
    requires max >= 1 && ops != [] && Remembers(max, ops[..|ops| - 1], k)
    requires var s, op := Run(max, ops[..|ops| - 1]), ops[|ops| - 1];
             op.Set? && op.key !in Keys(s) && |s| == max
    ensures Remembers(max, ops, k)
  {
    var s, op := Run(max, ops[..|ops| - 1]), ops[|ops| - 1];
    var rest, p := s[1..], Pair(op.key, op.value);
    LookupIsMembership(s, op.key);
    assert Run(max, ops) == rest + [p];
    EvictFacts(s, k);
    EvictFacts(s, op.key);
    WithoutAbsent(rest, op.key);
    TouchFacts(rest, op.key, op.value);
    var t := ValueOf(Touch(rest, op.key, op.value), k);
    if EraseFree(ops) { assert EraseFree(ops[..|ops| - 1]); }
    if k != op.key {
      if k in Keys(rest) {
        TouchAfter(rest, op.key, op.value, k);
      } else if k in Keys(s) {
        DistinctSize(s);
        var others := OthersSince(max, ops, k).value;
        assert Keys(s) - {k} + {op.key} <= others;
        Monotone(Keys(s) - {k} + {op.key}, others);
      } else if OthersSince(max, ops, k).Some? {
        Monotone(OthersSince(max, ops[..|ops| - 1], k).value, OthersSince(max, ops, k).value);
      }
    }
  }

  lemma RememberErase<K, V>(max: nat, ops: seq<Op<K, V>>, k: K)
    requires max >= 1 && ops != [] && Remembers(max, ops[..|ops| - 1], k) && ops[|ops| - 1].Erase?
    ensures Remembers(max, ops, k)
  {
    var s, x := Run(max, ops[..|ops| - 1]), ops[|ops| - 1].key;
    WithoutKeys(s, x);
    WithoutStaysDistinct(s, x);
    if k != x { KeysAfterWithout(s, k, x); }
    ValueOfWithout(s, k, x);
    assert !EraseFree(ops);
  }

  lemma {:induction false} RunRemembers<K, V>(max: nat, ops: seq<Op<K, V>>, k: K)
    requires max >= 1
    ensures Remembers(max, ops, k)
  {
    if ops != [] {
      var before, op := ops[..|ops| - 1], ops[|ops| - 1];
      RunRemembers(max, before, k);
      RunRemembers(max, before, op.key);
      var s := Run(max, before);
      LookupIsMembership(s, op.key);
      if op.Erase? {
        RememberErase(max, ops, k);
      } else if op.Find? && op.key !in Keys(s) {
        if EraseFree(ops) { assert EraseFree(before); }
      } else if op.Find? {
        RememberTouch(max, ops, k, op.key, ValueOf(s, op.key).value);
      } else if op.key in Keys(s) {
        RememberTouch(max, ops, k, op.key, op.value);
      } else if |s| < max {
        WithoutAbsent(s, op.key);
        RememberTouch(max, ops, k, op.key, op.value);
      } else {
        RememberEviction(max, ops, k);
      }
    }
  }

  /** A find returns the latest value that was set, or misses; it never returns anything else. */
  lemma FindIsLatestOrMiss<K, V>(max: nat, ops: seq<Op<K, V>>, k: K)
    requires max >= 1
    ensures ValueOf(Run(max, ops), k).Some? ==> ValueOf(Run(max, ops), k) == Latest(ops, k)
  {
    RunRemembers(max, ops, k);
    LookupIsMembership(Run(max, ops), k);
  }

  /** The cache never holds more than its capacity, and each key once. */
  lemma RunIsBounded<K, V>(max: nat, ops: seq<Op<K, V>>, k: K)
    requires max >= 1
    ensures |Run(max, ops)| <= max && DistinctKeys(Run(max, ops))
  {
    RunRemembers(max, ops, k);
  }

  /** A key that was set and not erased is kept while fewer than `max` other keys are touched. */
  lemma RecentlyUsedIsKept<K, V>(max: nat, ops: seq<Op<K, V>>, k: K)
    requires max >= 1 && Latest(ops, k).Some?
    ensures OthersSince(max, ops, k).Some?
    ensures |OthersSince(max, ops, k).value| < max ==> ValueOf(Run(max, ops), k) == Latest(ops, k)
  {
    RunRemembers(max, ops, k);
    LookupIsMembership(Run(max, ops), k);
  }

  /** Without erases the rule is exact: a key that was set is present if and only if fewer than
      `max` distinct other keys were touched since its last touch. */
  lemma LeastRecentlyUsedIsExact<K, V>(max: nat, ops: seq<Op<K, V>>, k: K)
    requires max >= 1 && EraseFree(ops) && Latest(ops, k).Some?
    ensures OthersSince(max, ops, k).Some?
    ensures ValueOf(Run(max, ops), k).Some? <==> |OthersSince(max, ops, k).value| < max
  {
    var s := Run(max, ops);
    RunRemembers(max, ops, k);
    LookupIsMembership(s, k);
    if k in Keys(s) {
      KeysAfterAreOthers(s, k);
      Monotone(KeysAfter(s, k), Keys(s) - {k});
      DistinctSize(s);
    }
  }
}
