/** The cache in place: a list of pairs in access order and an index from keys to list nodes.
    Everything it does is what the recency list does. */
module LruCache {
  import opened Options
  import opened Recency

  /** An element of the std::list: `serial` is the identity an iterator holds on to. */
  datatype Node<+K, +V> = Node(serial: nat, pair: Pair<K, V>)

  function Pairs<K, V>(ns: seq<Node<K, V>>): (s: Entries<K, V>)
    ensures |s| == |ns| && forall i :: 0 <= i < |ns| ==> s[i] == ns[i].pair
  {
    seq(|ns|, i requires 0 <= i < |ns| => ns[i].pair)
  }

  /** The index names this node for its key. */
  ghost predicate Indexed<K, V>(n: Node<K, V>, index: map<K, nat>) {
    n.pair.key in index && index[n.pair.key] == n.serial
  }

  ghost predicate Listed<K, V>(ns: seq<Node<K, V>>, k: K) {
    exists i :: 0 <= i < |ns| && ns[i].pair.key == k
  }

  /** A node is always created at the end, so the identities increase along the list. */
  ghost predicate Increasing<K, V>(ns: seq<Node<K, V>>, nextSerial: nat) {
    && (forall i, j :: 0 <= i < j < |ns| ==> ns[i].serial < ns[j].serial)
    && (forall i :: 0 <= i < |ns| ==> ns[i].serial < nextSerial)
  }

  /** The list and the index agree one to one. */
  ghost predicate Linked<K, V>(ns: seq<Node<K, V>>, index: map<K, nat>, nextSerial: nat) {
    && Increasing(ns, nextSerial)
    && (forall i {:trigger Indexed(ns[i], index)} :: 0 <= i < |ns| ==> Indexed(ns[i], index))
    && (forall k {:trigger Listed(ns, k)} :: k in index ==> Listed(ns, k))
  }

  lemma LinkedIsDistinct<K, V>(ns: seq<Node<K, V>>, index: map<K, nat>, nextSerial: nat)
    requires Linked(ns, index, nextSerial)
    ensures DistinctKeys(Pairs(ns)) && Keys(Pairs(ns)) == index.Keys && |index| == |ns|
  {
    var s := Pairs(ns);
    forall i, j | 0 <= i < j < |s| ensures s[i].key != s[j].key {
      assert Indexed(ns[i], index) && Indexed(ns[j], index);
    }
    forall k | k in Keys(s) ensures k in index {
      var i :| 0 <= i < |s| && s[i].key == k;
      assert Indexed(ns[i], index);
    }
    forall k | k in index ensures k in Keys(s) {
      assert Listed(ns, k);
      var i :| 0 <= i < |ns| && ns[i].pair.key == k;
      assert s[i].key == k;
    }
    DistinctSize(s);
    assert |index| == |index.Keys|;
  }

  /** The position of the node with this identity. */
  function Position<K, V>(ns: seq<Node<K, V>>, serial: nat): (i: nat)
    ensures i <= |ns| && (i < |ns| ==> ns[i].serial == serial)
    ensures forall j :: 0 <= j < i ==> ns[j].serial != serial
  {
    if ns == [] || ns[0].serial == serial then 0 else 1 + Position(ns[1..], serial)
  }

  lemma IndexedIsListed<K, V>(ns: seq<Node<K, V>>, index: map<K, nat>, nextSerial: nat, k: K)
    requires Linked(ns, index, nextSerial) && k in index
    ensures var i := Position(ns, index[k]); i < |ns| && ns[i].pair.key == k
  {
    assert Listed(ns, k);
    var i :| 0 <= i < |ns| && ns[i].pair.key == k;
    assert Indexed(ns[i], index);
  }

  lemma {:induction false} WithoutAt<K, V>(s: Entries<K, V>, i: nat)
    requires DistinctKeys(s) && i < |s|
    ensures Without(s, s[i].key) == s[..i] + s[i + 1..]
    ensures ValueOf(s, s[i].key) == Some(s[i].value)
  {
    FirstIsNotInRest(s);
    if i == 0 {
      WithoutAbsent(s[1..], s[0].key);
    } else {
      WithoutAt(s[1..], i - 1);
      assert s[1..][..i - 1] == s[1..i] && s[1..][i..] == s[i + 1..];
      assert s[..i] == [s[0]] + s[1..i];
      assert s[i].key != s[0].key;
    }
  }

  lemma PairsSplice<K, V>(ns: seq<Node<K, V>>, i: nat)
    requires i < |ns|
    ensures Pairs(ns[..i] + ns[i + 1..]) == Pairs(ns)[..i] + Pairs(ns)[i + 1..]
  {
  }

  /** Unlinking a node, the list takes the shape of the entries without its key. */
  lemma RemoveIsWithout<K, V>(ns: seq<Node<K, V>>, index: map<K, nat>, nextSerial: nat, i: nat)
    requires Linked(ns, index, nextSerial) && i < |ns|
    ensures Pairs(ns[..i] + ns[i + 1..]) == Without(Pairs(ns), ns[i].pair.key)
  {
    LinkedIsDistinct(ns, index, nextSerial);
    WithoutAt(Pairs(ns), i);
    PairsSplice(ns, i);
  }

  lemma RemoveIsLinked<K, V>(ns: seq<Node<K, V>>, index: map<K, nat>, nextSerial: nat, i: nat)
    requires Linked(ns, index, nextSerial) && i < |ns|
    ensures Linked(ns[..i] + ns[i + 1..], index - {ns[i].pair.key}, nextSerial)
  {
    var k, rest := ns[i].pair.key, ns[..i] + ns[i + 1..];
    forall j | 0 <= j < |rest| ensures Indexed(rest[j], index - {k}) {
      var a := if j < i then j else j + 1;
      assert rest[j] == ns[a] && Indexed(ns[a], index) && Indexed(ns[i], index);
    }
    forall x | x in index - {k} ensures Listed(rest, x) {
      assert Listed(ns, x);
      var a :| 0 <= a < |ns| && ns[a].pair.key == x;
      assert rest[if a < i then a else a - 1] == ns[a];
    }
  }

  /** Appending a node for a key that is not there. */
  lemma PushBackIsLinked<K, V>(ns: seq<Node<K, V>>, index: map<K, nat>, nextSerial: nat, p: Pair<K, V>)
    requires Linked(ns, index, nextSerial) && p.key !in index
    ensures Pairs(ns + [Node(nextSerial, p)]) == Pairs(ns) + [p]
    ensures Linked(ns + [Node(nextSerial, p)], index[p.key := nextSerial], nextSerial + 1)
  {
    var ns', index' := ns + [Node(nextSerial, p)], index[p.key := nextSerial];
    forall j | 0 <= j < |ns'| ensures Indexed(ns'[j], index') {
      if j < |ns| { assert Indexed(ns[j], index); }
    }
    forall x | x in index' ensures Listed(ns', x) {
      if x == p.key {
        assert ns'[|ns|].pair.key == x;
      } else {
        assert Listed(ns, x);
        var a :| 0 <= a < |ns| && ns[a].pair.key == x;
        assert ns'[a].pair.key == x;
      }
    }
  }

  function WithValue<K, V>(ns: seq<Node<K, V>>, i: nat, v: V): seq<Node<K, V>>
    requires i < |ns|
  {
    ns[i := Node(ns[i].serial, Pair(ns[i].pair.key, v))]
  }

  /** Writing a value through an iterator changes neither the order nor the index. */
  lemma AssignIsLinked<K, V>(ns: seq<Node<K, V>>, index: map<K, nat>, nextSerial: nat, i: nat, v: V)
    requires Linked(ns, index, nextSerial) && i < |ns|
    ensures Linked(WithValue(ns, i, v), index, nextSerial)
  {
    var ns' := WithValue(ns, i, v);
    forall j | 0 <= j < |ns'| ensures Indexed(ns'[j], index) { assert Indexed(ns[j], index); }
    forall x | x in index ensures Listed(ns', x) {
      assert Listed(ns, x);
      var a :| 0 <= a < |ns| && ns[a].pair.key == x;
      assert ns'[a].pair.key == x;
    }
  }

  lemma {:induction false} WriteAt<K, V>(s: Entries<K, V>, i: nat, v: V)
    requires DistinctKeys(s) && i < |s|
    ensures Write(s, s[i].key, v) == s[i := Pair(s[i].key, v)]
  {
    FirstIsNotInRest(s);
    if i == 0 {
      WriteAbsent(s[1..], s[0].key, v);
    } else {
      WriteAt(s[1..], i - 1, v);
      assert s[i].key != s[0].key;
    }
  }

  lemma {:induction false} WriteAbsent<K, V>(s: Entries<K, V>, k: K, v: V)
    requires k !in Keys(s)
    ensures Write(s, k, v) == s
  {
    if s != [] {
      KeysOfRest(s);
      WriteAbsent(s[1..], k, v);
    }
  }

  lemma {:induction false} WriteFacts<K, V>(s: Entries<K, V>, k: K, v: V)
    ensures Without(Write(s, k, v), k) == Without(s, k)
    ensures ValueOf(Write(s, k, v), k) == if ValueOf(s, k).Some? then Some(v) else None
  {
    if s != [] {
      WriteFacts(s[1..], k, v);
    }
  }

  lemma NothingBefore<T>(s: seq<T>)
    requires |s| > 0
    ensures s[..0] + s[1..] == s[1..]
  {
  }

  lemma FrontGoes<K, V>(ns: seq<Node<K, V>>, index: map<K, nat>, nextSerial: nat)
    requires Linked(ns, index, nextSerial) && |ns| > 0
    ensures Linked(ns[1..], index - {ns[0].pair.key}, nextSerial)
  {
    NothingBefore(ns);
    RemoveIsLinked(ns, index, nextSerial, 0);
  }

  lemma PairsOfRest<K, V>(ns: seq<Node<K, V>>)
    requires |ns| > 0
    ensures Pairs(ns[1..]) == Pairs(ns)[1..]
  {
  }

  /** The last entry is where an access would put it. */
  lemma LastIsTouched<K, V>(s: Entries<K, V>, i: nat)
    requires i == |s| - 1 && Without(s, s[i].key) == s[..i] + s[i + 1..]
    ensures Touch(s, s[i].key, s[i].value) == s
  {
    assert s[i + 1..] == [] && s[..i] + [] == s[..i];
    assert s[..i] + [s[i]] == s;
  }

  class Cache<K(==), V> {
    const maxSize: nat
    var values: seq<Node<K, V>>
    var quickAccess: map<K, nat>
    var nextSerial: nat

    ghost predicate Valid()
      reads this
    {
      maxSize >= 1 && |values| <= maxSize && Linked(values, quickAccess, nextSerial)
    }

    ghost function Contents(): Entries<K, V>
      reads this
    {
      Pairs(values)
    }

    constructor (maxSize: nat)
      requires maxSize >= 1
      ensures Valid() && this.maxSize == maxSize && Contents() == []
    {
      this.maxSize := maxSize;
      values, quickAccess, nextSerial := [], map[], 0;
    }

    /** A hit moves the entry to the end of the list. */
    method Find(key: K) returns (found: Option<V>)
      requires Valid()
      modifies this
      ensures Valid() && Contents() == Apply(maxSize, old(Contents()), Op.Find(key))
      ensures found == ValueOf(old(Contents()), key)
    {
      IndexIsLookup(key);
      if key !in quickAccess { return None; }
      var value := UpdateAccess(key);
      found := Some(value);
    }

    /** The index answers whether a key is cached. */
    lemma IndexIsLookup(key: K)
      requires Valid()
      ensures key in quickAccess <==> ValueOf(Contents(), key).Some?
      ensures |quickAccess| == |Contents()| && DistinctKeys(Contents())
    {
      LinkedIsDistinct(values, quickAccess, nextSerial);
      LookupIsMembership(Contents(), key);
    }

    method Set(key: K, value: V)
      requires Valid()
      modifies this
      ensures Valid() && Contents() == Apply(maxSize, old(Contents()), Op.Set(key, value))
    {
      IndexIsLookup(key);
      if key !in quickAccess {
        if |quickAccess| == maxSize {
          PopFront();
        }
        PushBack(key, value);
      } else {
        WriteFacts(Contents(), key, value);
        Assign(key, value);
        var latest := UpdateAccess(key);
      }
    }

    method Erase(key: K) returns (erased: bool)
      requires Valid()
      modifies this
      ensures Valid() && Contents() == Apply(maxSize, old(Contents()), Op.Erase(key))
      ensures erased <==> ValueOf(old(Contents()), key).Some?
    {
      IndexIsLookup(key);
      if key in quickAccess {
        Unlink(key);
        return true;
      }
      LookupIsMembership(Contents(), key);
      WithoutAbsent(Contents(), key);
      erased := false;
    }

    /** Takes the node of a key out of the list and the key out of the index. */
    method Unlink(key: K)
      requires Valid() && key in quickAccess
      modifies this
      ensures Valid() && Contents() == Without(old(Contents()), key) && nextSerial == old(nextSerial)
      ensures quickAccess == old(quickAccess) - {key}
    {
      IndexedIsListed(values, quickAccess, nextSerial, key);
      var i := Position(values, quickAccess[key]);
      RemoveIsWithout(values, quickAccess, nextSerial, i);
      RemoveIsLinked(values, quickAccess, nextSerial, i);
      values := values[..i] + values[i + 1..];
      quickAccess := quickAccess - {key};
    }

    method PushBack(key: K, value: V)
      requires Valid() && key !in quickAccess && |values| < maxSize
      modifies this
      ensures Valid() && Contents() == old(Contents()) + [Pair(key, value)]
    {
      PushBackIsLinked(values, quickAccess, nextSerial, Pair(key, value));
      values := values + [Node(nextSerial, Pair(key, value))];
      quickAccess := quickAccess[key := nextSerial];
      nextSerial := nextSerial + 1;
    }

    /** Drops the least recently used pair. */
    method PopFront()
      requires Valid() && |values| > 0
      modifies this
      ensures Valid() && Contents() == old(Contents())[1..] && |values| == |old(values)| - 1
      ensures quickAccess.Keys <= old(quickAccess).Keys
    {
      FrontGoes(values, quickAccess, nextSerial);
      PairsOfRest(values);
      quickAccess := quickAccess - {values[0].pair.key};
      values := values[1..];
    }

    /** Writes the value through the iterator; the order stays. */
    method Assign(key: K, value: V)
      requires Valid() && key in quickAccess
      modifies `values
      ensures Valid() && Contents() == Write(old(Contents()), key, value)
    {
      IndexedIsListed(values, quickAccess, nextSerial, key);
      LinkedIsDistinct(values, quickAccess, nextSerial);
      var i := Position(values, quickAccess[key]);
      AssignIsLinked(values, quickAccess, nextSerial, i, value);
      WriteAt(Contents(), i, value);
      values := WithValue(values, i, value);
    }

    /** Makes the entry the most recent one, unless it is already the last of the list. */
    method UpdateAccess(key: K) returns (value: V)
      requires Valid() && key in quickAccess
      modifies this
      ensures Valid() && ValueOf(old(Contents()), key) == Some(value)
      ensures Contents() == Touch(old(Contents()), key, value)
    {
      IndexedIsListed(values, quickAccess, nextSerial, key);
      LinkedIsDistinct(values, quickAccess, nextSerial);
      var i := Position(values, quickAccess[key]);
      WithoutAt(Contents(), i);
      value := values[i].pair.value;
      if quickAccess[key] == values[|values| - 1].serial {
        LastIsTouched(Contents(), i);
        return;
      }
      Unlink(key);
      PushBack(key, value);
    }
  }
}
