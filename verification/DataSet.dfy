/** Sets of components as objects: a map by name, and the order in which the names were inserted. */
module DataSets {
  import opened Bits
  import opened Keys

  /** The list of the names and the map of the components hold the same names, each once. */
  ghost predicate Linked(order: seq<string>, datas: map<string, Data>) {
    && (forall i, j :: 0 <= i < j < |order| ==> order[i] != order[j])
    && (forall name :: name in order <==> name in datas)
    && (forall name :: name in datas ==> datas[name].name == name && InRange(datas[name]))
  }

  /** The components in the order of the names. */
  ghost function Listed(order: seq<string>, datas: map<string, Data>): (data: Components)
    requires Linked(order, datas)
    ensures |data| == |order|
    ensures forall i :: 0 <= i < |data| ==> order[i] in datas && data[i] == datas[order[i]]
  {
    seq(|order|, i requires 0 <= i < |order| => assert order[i] in order; datas[order[i]])
  }

  lemma ListedIsProper(order: seq<string>, datas: map<string, Data>)
    requires Linked(order, datas)
    ensures Proper(Listed(order, datas))
  {
  }

  lemma PlaceInListed(order: seq<string>, datas: map<string, Data>, name: string)
    requires Linked(order, datas)
    ensures Defines(Listed(order, datas), name) <==> name in datas
    ensures name in datas ==> Listed(order, datas)[Place(Listed(order, datas), name)] == datas[name]
  {
    if name in datas {
      var i :| 0 <= i < |order| && order[i] == name;
      assert Listed(order, datas)[i].name == name;
    }
  }

  lemma SizeOfListed(order: seq<string>, datas: map<string, Data>)
    requires Linked(order, datas)
    ensures |datas| == |Listed(order, datas)|
  {
    var data := Listed(order, datas);
    NamesCount(data);
    assert forall i :: 0 <= i < |data| ==> data[i].name == order[i];
    assert datas.Keys == Names(data);
    assert |datas.Keys| == |datas|;
  }

  lemma InsertOne(order: seq<string>, datas: map<string, Data>, data: Data)
    requires Linked(order, datas) && data.name !in datas && InRange(data)
    ensures Linked(order + [data.name], datas[data.name := data])
    ensures Listed(order + [data.name], datas[data.name := data]) == Listed(order, datas) + [data]
  {
    var after := order + [data.name];
    assert forall name :: name in after <==> name in order || name == data.name;
  }

  class DataSet {
    var datas: map<string, Data>
    var creationOrder: seq<string>

    constructor ()
      ensures Valid() && View() == []
    {
      datas := map[];
      creationOrder := [];
    }

    /** The copy inserts the components again, in the order of their creation. */
    constructor Copy(other: DataSet)
      requires other.Valid()
      ensures Valid() && View() == other.View()
    {
      datas := map[];
      creationOrder := [];
      new;
      InsertAll(other);
    }

    ghost predicate Valid()
      reads this
    {
      Linked(creationOrder, datas)
    }

    ghost function View(): (data: Components)
      requires Valid()
      reads this
    {
      Listed(creationOrder, datas)
    }

    /** Set::insert: a name is defined only once. */
    method Insert(data: Data) returns (ok: bool)
      requires Valid() && InRange(data)
      modifies this
      ensures Valid() && ok == !Defines(old(View()), data.name)
      ensures View() == if ok then old(View()) + [data] else old(View())
    {
      PlaceInListed(creationOrder, datas, data.name);
      ok := data.name !in datas;
      if ok {
        InsertOne(creationOrder, datas, data);
        datas := datas[data.name := data];
        creationOrder := creationOrder + [data.name];
      }
    }

    method InsertAll(other: DataSet)
      requires Valid() && other.Valid() && other != this && View() == []
      modifies this
      ensures Valid() && View() == old(other.View())
    {
      ghost var theirs := other.View();
      ListedIsProper(other.creationOrder, other.datas);
      for i := 0 to |other.creationOrder|
        invariant Valid() && other.Valid() && other.View() == theirs
        invariant View() == theirs[..i]
      {
        assert theirs[i] == other.datas[other.creationOrder[i]];
        PrefixGrows(theirs, i);
        var ok := Insert(other.datas[other.creationOrder[i]]);
      }
    }

    /** Set::operator=. */
    method Assign(other: DataSet)
      requires Valid() && other.Valid()
      modifies this
      ensures Valid() && View() == old(other.View())
    {
      if other == this { return; }
      datas := map[];
      creationOrder := [];
      InsertAll(other);
    }

    /** Set::compare; a set compared with itself is not looked at. */
    method CompareTo(other: DataSet) returns (verdict: Verdict)
      requires Valid() && other.Valid()
      ensures verdict == if other == this then Order(0) else Compare(View(), other.View())
    {
      if other == this { return Order(0); }
      SizeOfListed(creationOrder, datas);
      SizeOfListed(other.creationOrder, other.datas);
      if |datas| != |other.datas| { return Thrown; }
      ghost var mine, theirs := View(), other.View();
      for i := 0 to |creationOrder|
        invariant Compare(mine, theirs) == CompareFrom(mine, theirs, i)
      {
        var name := creationOrder[i];
        CompareOne(creationOrder, datas, other.creationOrder, other.datas, i);
        if name !in other.datas { return Thrown; }
        verdict := CompareData(datas[name], other.datas[name]);
        if verdict != Order(0) { return; }
      }
      verdict := Order(0);
    }

    /** Set::operator==, which turns exceptions into false. */
    method Equals(other: DataSet) returns (equal: bool)
      requires Valid() && other.Valid()
      ensures equal <==> other == this || AllAlike(View(), other.View())
    {
      var verdict := CompareTo(other);
      equal := verdict == Order(0);
      ListedIsProper(creationOrder, datas);
      ListedIsProper(other.creationOrder, other.datas);
      CompareIsZero(View(), other.View());
    }

    /** PrimaryKey::matches. */
    method MatchesKey(other: DataSet) returns (matches: bool)
      requires Valid() && other.Valid()
      ensures matches == Matches(View(), other.View())
    {
      SizeOfListed(creationOrder, datas);
      SizeOfListed(other.creationOrder, other.datas);
      if |datas| != |other.datas| { return false; }
      var left := datas.Keys;
      while left != {}
        invariant left <= datas.Keys
        invariant forall i :: 0 <= i < |creationOrder| && creationOrder[i] !in left ==> HasMatch(other.View(), View()[i])
        decreases |left|
      {
        var name :| name in left;
        PlaceInListed(other.creationOrder, other.datas, name);
        if name !in other.datas || !SameType(datas[name], other.datas[name]) {
          NoMatch(creationOrder, datas, other.View(), name);
          return false;
        }
        left := left - {name};
      }
      matches := true;
    }

    /** PrimaryKey::hash, by an iteration in any order. */
    method HashKey(digest: Digest) returns (hash: nat)
      requires Valid()
      ensures hash == Hash(View(), digest) && hash < WORD64
    {
      SizeOfListed(creationOrder, datas);
      hash := |datas| % WORD64;
      var left := datas.Keys;
      ghost var visited: Components := [];
      while left != {}
        invariant Visited(visited, datas, left)
        invariant hash == Folded(|datas| % WORD64, visited, Mixing(digest))
        decreases |left|
      {
        var name :| name in left;
        FoldedLast(|datas| % WORD64, visited, datas[name], Mixing(digest));
        VisitOneMore(visited, datas, left, name);
        hash := Xor(hash, Doubled(HashOf(datas[name].value, digest)));
        visited := visited + [datas[name]];
        left := left - {name};
      }
      VisitedAll(creationOrder, datas, visited, digest);
    }
  }

  lemma CompareOne(order: seq<string>, datas: map<string, Data>, order': seq<string>, datas': map<string, Data>, i: nat)
    requires Linked(order, datas) && Linked(order', datas') && i < |order|
    ensures order[i] in datas
    ensures CompareFrom(Listed(order, datas), Listed(order', datas'), i) ==
      if order[i] !in datas' then Thrown
      else if CompareData(datas[order[i]], datas'[order[i]]) == Order(0)
      then CompareFrom(Listed(order, datas), Listed(order', datas'), i + 1)
      else CompareData(datas[order[i]], datas'[order[i]])
  {
    assert order[i] in order;
    PlaceInListed(order', datas', order[i]);
  }

  lemma NoMatch(order: seq<string>, datas: map<string, Data>, other: Components, name: string)
    requires Linked(order, datas) && name in datas && !HasMatch(other, datas[name])
    ensures !Matches(Listed(order, datas), other)
  {
    var i :| 0 <= i < |order| && order[i] == name;
    assert !HasMatch(other, Listed(order, datas)[i]);
  }

  lemma PrefixGrows(data: Components, i: nat)
    requires Proper(data) && i < |data|
    ensures !Defines(data[..i], data[i].name) && InRange(data[i])
    ensures data[..i + 1] == data[..i] + [data[i]]
  {
  }

  /** The components visited so far are those whose names are not left. */
  ghost predicate Visited(visited: Components, datas: map<string, Data>, left: set<string>) {
    && left <= datas.Keys && |visited| + |left| == |datas|
    && (forall i, j :: 0 <= i < j < |visited| ==> visited[i].name != visited[j].name)
    && (forall d :: d in visited <==> d.name in datas && d.name !in left && d == datas[d.name])
  }

  lemma VisitOneMore(visited: Components, datas: map<string, Data>, left: set<string>, name: string)
    requires Visited(visited, datas, left) && name in left && datas[name].name == name
    ensures Visited(visited + [datas[name]], datas, left - {name})
  {
    var after := visited + [datas[name]];
    assert forall i :: 0 <= i < |visited| ==> after[i] in visited;
    assert forall d :: d in after <==> d in visited || d == datas[name];
  }

  lemma VisitedAll(order: seq<string>, datas: map<string, Data>, visited: Components, digest: Digest)
    requires Linked(order, datas) && Visited(visited, datas, {})
    ensures Folded(|datas| % WORD64, visited, Mixing(digest)) == Hash(Listed(order, datas), digest)
  {
    var data := Listed(order, datas);
    SizeOfListed(order, datas);
    ListedIsProper(order, datas);
    assert Visits(visited, data) by {
      forall i | 0 <= i < |visited| ensures InRange(visited[i]) { assert visited[i] in visited; }
      forall d ensures d in visited <==> d in data {
        if d.name in datas { PlaceInListed(order, datas, d.name); }
      }
    }
    HashIgnoresIteration(data, visited, digest);
  }

  lemma {:induction false} FoldedLast(before: nat, data: Components, last: Data, mix: (nat, Value) -> nat)
    ensures Folded(before, data + [last], mix) == mix(Folded(before, data, mix), last.value)
    decreases data
  {
    if data == [] {
      assert data + [last] == [last] && [last][1..] == [];
      assert Folded(mix(before, last.value), [], mix) == mix(before, last.value);
    } else {
      FoldedLast(mix(before, data[0].value), data[1..], last, mix);
      assert (data + [last])[1..] == data[1..] + [last];
    }
  }
}
